/** The augmenting path search of the Pantelides driver. */
module AugmentPathDepthLookahead {
  import opened Wrappers
  import opened Matching
  import opened BipartiteGraphs

  lemma {:induction false} PreferredIs(adj: Adjacency, deleted: seq<bool>, s: Search, i: nat, root: nat,
                                       vAntiDerivative: Links)
    requires Entry(adj, deleted, s, i, root) && |s.vAssign| == |vAntiDerivative|
    ensures i < |adj| && forall k :: 0 <= k < |adj[i]| ==> adj[i][k] < |s.vAssign|
    ensures var d := FirstFree(adj[i], 0, s.vAssign, vAntiDerivative, true);
      Preferred(adj[i], s.vAssign, vAntiDerivative) ==
        if d.Some? then d else FirstFree(adj[i], 0, s.vAssign, vAntiDerivative, false)
  {
    hide FirstFree;
    EntryVariables(adj, deleted, s, i, root);
  }

  method AugmentPath(g: BipartiteGraph, i: nat, ghost root: nat) returns (found: bool)
    requires g.Sizes() && Entry(g.eVariables, g.vDeleted, g.Searched(), i, root)
    modifies g`vColored, g`eColored, g`vAssign, g`eAssign
    ensures g.Sizes()
    // no path: nothing is reassigned and everything newly reached is closed
    ensures !found ==> Failed(g.eVariables, g.vDeleted, old(g.Searched()), g.Searched(), i, root)
    // a path: only i is newly matched
    ensures found ==> Augmented(g.eVariables, g.vDeleted, old(g.Searched()), g.Searched(), i)
    // from a clean graph, the answer tells whether i can be matched beside the matched equations
    ensures i == root ==> Decided(g.eVariables, g.vDeleted, old(g.Searched()), i, found)
    // a free variable is taken at once, derivatives first
    ensures forall k :: 0 <= k < |g.eVariables[i]| ==> g.eVariables[i][k] < |old(g.vAssign)|
    ensures var free := Preferred(g.eVariables[i], old(g.vAssign), g.vAntiDerivative);
      free.Some? ==>
        && found
        && g.vAssign == old(g.vAssign)[free.value := Some(i)] && g.eAssign == old(g.eAssign)[i := free]
        && g.vColored == old(g.vColored) && g.eColored == old(g.eColored)[i := true]
    // otherwise the first variable is taken over through which there is a path
    ensures found && Preferred(g.eVariables[i], old(g.vAssign), g.vAntiDerivative).None? ==>
      TakesFirst(g.eVariables, g.vDeleted, old(g.Searched()), g.Searched(), i, root)
    decreases Uncolored(g.eColored), 2
  {
    hide Entry, Trying, Failed, Augmented, Decided, Uncolored, FirstFree, LiveEdges, Preferred, TakesFirst;
    PreferredIs(g.eVariables, g.vDeleted, g.Searched(), i, root, g.vAntiDerivative);
    ghost var s := g.Searched();
    EntryVariables(g.eVariables, g.vDeleted, s, i, root);
    g.eColored := g.eColored[i := true];

    // first look for derivative variables, then for algebraic variables
    var taken := g.AssignFirstFree(i, true);
    if !taken {
      taken := g.AssignFirstFree(i, false);
    }
    if taken {
      TakeFree(g.eVariables, g.vDeleted, s, i, root, g.eAssign[i].value, g.Searched());
      found := true;
    } else {
      found := AugmentThroughAssigned(g, i, root, s);
    }
    if i == root {
      SearchDecides(g.eVariables, g.vDeleted, s, g.Searched(), i, found);
    }
  }

  /** The last loop of `augmentPath`: every variable of i has an equation. */
  method AugmentThroughAssigned(g: BipartiteGraph, i: nat, ghost root: nat, ghost s: Search) returns (found: bool)
    requires g.Sizes() && Trying(g.eVariables, g.vDeleted, s, g.Searched(), i, root)
    requires forall k :: 0 <= k < |g.eVariables[i]| ==>
      g.eVariables[i][k] < |g.vAssign| && !g.vDeleted[g.eVariables[i][k]] && g.vAssign[g.eVariables[i][k]].Some?
    modifies g`vColored, g`eColored, g`vAssign, g`eAssign
    ensures g.Sizes()
    ensures !found ==> Failed(g.eVariables, g.vDeleted, s, g.Searched(), i, root)
    ensures found ==> Augmented(g.eVariables, g.vDeleted, s, g.Searched(), i)
    ensures found ==> TakesFirst(g.eVariables, g.vDeleted, s, g.Searched(), i, root)
    decreases Uncolored(s.eColored), 1
  {
    hide Trying, Entry, Failed, Augmented, Decided, FirstFree, Uncolored, Preferred, TakesFirst;
    ghost var adj, deleted := g.eVariables, g.vDeleted;
    TryingRange(adj, deleted, s, g.Searched(), i, root);
    var vars := g.eVariables[i];
    for n := 0 to |vars|
      invariant g.Sizes() && Trying(adj, deleted, s, g.Searched(), i, root)
      invariant forall k :: 0 <= k < n ==> g.vColored[vars[k]]
    {
      TryingRange(adj, deleted, s, g.Searched(), i, root);
      var jj := vars[n];
      if !g.vColored[jj] {
        ghost var u := g.Searched();
        found := AugmentThrough(g, i, jj, root, s);
        if found {
          TakesOpen(adj, deleted, s, u, g.Searched(), i, root, n);
          return true;
        }
      }
    }
    Exhausted(adj, deleted, s, g.Searched(), i, root);
    return false;
  }

  /** One round of that loop: i takes variable jj over if the equation of jj finds another one. */
  method AugmentThrough(g: BipartiteGraph, i: nat, jj: nat, ghost root: nat, ghost s: Search) returns (found: bool)
    requires g.Sizes() && Trying(g.eVariables, g.vDeleted, s, g.Searched(), i, root)
    requires jj < |g.vAssign| && g.vAssign[jj].Some? && !g.vColored[jj] && i < |g.eVariables| && jj in g.eVariables[i]
    modifies g`vColored, g`eColored, g`vAssign, g`eAssign
    ensures g.Sizes() && Fits(g.eVariables, g.vDeleted, s)
    ensures !found ==> Trying(g.eVariables, g.vDeleted, s, g.Searched(), i, root) && g.vColored[jj]
    ensures !found ==> forall v :: 0 <= v < |g.vColored| && old(g.vColored[v]) ==> g.vColored[v]
    ensures found ==> Augmented(g.eVariables, g.vDeleted, s, g.Searched(), i)
    ensures found ==> i < |g.eAssign| && g.eAssign[i] == Some(jj)
    decreases Uncolored(s.eColored), 0
  {
    hide Trying, Entry, Failed, Augmented, Decided, FirstFree, Uncolored, Preferred, TakesFirst;
    ghost var adj, deleted := g.eVariables, g.vDeleted;
    ghost var t := g.Searched();
    TryingRange(adj, deleted, s, t, i, root);
    g.vColored := g.vColored[jj := true];
    ghost var u := g.Searched();
    var k := g.vAssign[jj].value;
    Descend(adj, deleted, s, t, i, root, jj, u);
    ReachedTogether(adj, deleted, s, t, i, root, jj);
    found := false;
    if !g.eColored[k] {
      found := AugmentPath(g, k, root);
      ghost var w := g.Searched();
      if found {
        g.SetAssignmentEquation(jj, i);
        TakeOver(adj, deleted, s, t, i, root, jj, u, w, g.Searched());
      } else {
        Resume(adj, deleted, s, t, i, root, jj, u, w);
      }
    }
  }
}
