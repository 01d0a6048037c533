/**
  The augmenting path search that only uses highest order derivatives.  It colours equations only.
 */
module AugmentPathDepthLookaheadA {
  import opened Wrappers
  import opened Matching
  import opened BipartiteGraphs

  predicate IsHighestDerivative(vDerivative: Links, vAntiDerivative: Links, v: nat)
    requires v < |vDerivative| && v < |vAntiDerivative|
  {
    vDerivative[v].None? && vAntiDerivative[v].Some?
  }

  /** The first highest order derivative of `vars`, from position n on, that has no equation. */
  function FirstFreeHighest(vars: seq<nat>, n: nat, vAssign: Links, vDerivative: Links,
    vAntiDerivative: Links): (r: Option<nat>)
    requires n <= |vars| && |vAssign| == |vDerivative| == |vAntiDerivative|
    requires forall k :: 0 <= k < |vars| ==> vars[k] < |vAssign|
    ensures r.Some? ==>
      r.value in vars && vAssign[r.value].None? && IsHighestDerivative(vDerivative, vAntiDerivative, r.value)
    ensures r.None? ==> forall k :: n <= k < |vars| && IsHighestDerivative(vDerivative, vAntiDerivative, vars[k]) ==>
      vAssign[vars[k]].Some?
    decreases |vars| - n
  {
    if n == |vars| then None
    else if IsHighestDerivative(vDerivative, vAntiDerivative, vars[n]) && vAssign[vars[n]].None? then Some(vars[n])
    else FirstFreeHighest(vars, n + 1, vAssign, vDerivative, vAntiDerivative)
  }

  /** All highest order derivatives that come before it have equations. */
  lemma {:induction false} FirstFreeHighestIsFirst(vars: seq<nat>, n: nat, vAssign: Links, vDerivative: Links,
                                                   vAntiDerivative: Links)
    returns (k: nat)
    requires n <= |vars| && |vAssign| == |vDerivative| == |vAntiDerivative|
    requires forall k :: 0 <= k < |vars| ==> vars[k] < |vAssign|
    requires FirstFreeHighest(vars, n, vAssign, vDerivative, vAntiDerivative).Some?
    ensures n <= k < |vars| && FirstFreeHighest(vars, n, vAssign, vDerivative, vAntiDerivative) == Some(vars[k])
    ensures vAssign[vars[k]].None? && vDerivative[vars[k]].None? && vAntiDerivative[vars[k]].Some?
    ensures forall j :: n <= j < k ==>
      vAssign[vars[j]].Some? || vDerivative[vars[j]].Some? || vAntiDerivative[vars[j]].None?
    decreases |vars| - n
  {
    if IsHighestDerivative(vDerivative, vAntiDerivative, vars[n]) && vAssign[vars[n]].None? {
      k := n;
    } else {
      k := FirstFreeHighestIsFirst(vars, n + 1, vAssign, vDerivative, vAntiDerivative);
    }
  }

  /** The loop over the variables of i that looks for one without an equation. */
  method AssignFirstFreeHighest(g: BipartiteGraph, i: nat) returns (taken: bool)
    requires g.Sizes() && i < |g.eAssign|
    requires forall k :: 0 <= k < |g.eVariables[i]| ==> g.eVariables[i][k] < |g.vAssign|
    modifies g`vAssign, g`eAssign
    ensures var free := FirstFreeHighest(g.eVariables[i], 0, old(g.vAssign), g.vDerivative, g.vAntiDerivative);
      && taken == free.Some?
      && g.vAssign == (if taken then old(g.vAssign)[free.value := Some(i)] else old(g.vAssign))
      && g.eAssign == (if taken then old(g.eAssign)[i := free] else old(g.eAssign))
  {
    var vars := g.eVariables[i];
    for n := 0 to |vars|
      invariant g.vAssign == old(g.vAssign) && g.eAssign == old(g.eAssign)
      invariant FirstFreeHighest(vars, 0, g.vAssign, g.vDerivative, g.vAntiDerivative) ==
        FirstFreeHighest(vars, n, g.vAssign, g.vDerivative, g.vAntiDerivative)
    {
      var jj := vars[n];
      if g.vDerivative[jj].None? && g.vAntiDerivative[jj].Some? && g.vAssign[jj].None? {
        g.SetAssignmentEquation(jj, i);
        return true;
      }
    }
    return false;
  }

  /** The variables this search does not consider. */
  ghost function Unusable(deleted: seq<bool>, vDerivative: Links, vAntiDerivative: Links): (r: seq<bool>)
    requires |deleted| == |vDerivative| == |vAntiDerivative|
    ensures |r| == |deleted|
    ensures forall v :: 0 <= v < |r| ==> r[v] == (deleted[v] || !IsHighestDerivative(vDerivative, vAntiDerivative, v))
  {
    seq(|deleted|, v requires 0 <= v < |deleted| && |deleted| == |vDerivative| == |vAntiDerivative| =>
      deleted[v] || !IsHighestDerivative(vDerivative, vAntiDerivative, v))
  }

  /** The state of the search; `reached` stands for the colours the variables do not get. */
  ghost function Searched(g: BipartiteGraph, reached: seq<bool>): Search
    reads g`vAssign, g`eAssign, g`eColored
  {
    Search(g.vAssign, g.eAssign, reached, g.eColored)
  }

  /** `adj` and `dead` describe the part of the graph that the search may use. */
  ghost predicate Usable(g: BipartiteGraph, adj: Adjacency, dead: seq<bool>)
    reads g`eVariables, g`vDeleted, g`vDerivative, g`vAntiDerivative, g`vColored
  {
    && |g.vDeleted| == |g.vDerivative| == |g.vAntiDerivative| == |g.vColored|
    && LiveEdges(g.eVariables, g.vDeleted)
    && dead == Unusable(g.vDeleted, g.vDerivative, g.vAntiDerivative)
    && adj == Restricted(g.eVariables, dead)
    && (forall v :: 0 <= v < |g.vColored| ==> !g.vColored[v])
  }

  lemma {:induction false} AllTried(vars: Adjacency, adj: Adjacency, dead: seq<bool>, s: Search, t: Search, i: nat,
                                    root: nat)
    requires adj == Restricted(vars, dead) && Trying(adj, dead, s, t, i, root)
    requires forall k :: 0 <= k < |vars[i]| ==> vars[i][k] < |dead| && (!dead[vars[i][k]] ==> t.vColored[vars[i][k]])
    ensures Failed(adj, dead, s, t, i, root)
  {
    forall k | 0 <= k < |adj[i]|
      ensures adj[i][k] < |dead| && t.vColored[adj[i][k]]
    {
      assert adj[i][k] in adj[i];
    }
    Exhausted(adj, dead, s, t, i, root);
  }

  /** Equation i got the first of its variables, apart from the dead ones, through which a path was found. */
  ghost predicate TakesFirstUsable(vars: Adjacency, adj: Adjacency, dead: seq<bool>, s: Search, t: Search, i: nat,
                                   root: nat) {
    && i < |vars| && i < |t.eAssign|
    && exists u, n: nat :: IsFirstUsable(vars, adj, dead, s, u, i, root, n) && t.eAssign[i] == Some(vars[i][n])
  }

  ghost predicate IsFirstUsable(vars: Adjacency, adj: Adjacency, dead: seq<bool>, s: Search, u: Search, i: nat,
                                root: nat, n: nat) {
    && Trying(adj, dead, s, u, i, root) && i < |vars| && n < |vars[i]|
    && (forall k :: 0 <= k < n ==>
          vars[i][k] < |dead| && vars[i][k] < |u.vColored| && (dead[vars[i][k]] || u.vColored[vars[i][k]]))
    && vars[i][n] < |dead| && vars[i][n] < |u.vColored| && !dead[vars[i][n]] && !u.vColored[vars[i][n]]
  }

  lemma {:induction false} TakesUsable(vars: Adjacency, adj: Adjacency, dead: seq<bool>, s: Search, u: Search,
                                       t: Search, i: nat, root: nat, n: nat)
    requires Trying(adj, dead, s, u, i, root) && i < |vars| && n < |vars[i]| && |u.vColored| == |dead|
    requires forall k :: 0 <= k < n ==> vars[i][k] < |dead| && (dead[vars[i][k]] || u.vColored[vars[i][k]])
    requires vars[i][n] < |dead| && !dead[vars[i][n]] && !u.vColored[vars[i][n]]
    requires i < |t.eAssign| && t.eAssign[i] == Some(vars[i][n])
    ensures TakesFirstUsable(vars, adj, dead, s, t, i, root)
  {
    hide Trying;
    assert IsFirstUsable(vars, adj, dead, s, u, i, root, n);
  }

  method AugmentPath(g: BipartiteGraph, i: nat, ghost root: nat, ghost adj: Adjacency, ghost dead: seq<bool>,
                     ghost reached: seq<bool>)
    returns (found: bool, ghost reached': seq<bool>)
    requires g.Sizes() && Usable(g, adj, dead) && Entry(adj, dead, Searched(g, reached), i, root)
    modifies g`eColored, g`vAssign, g`eAssign
    ensures g.Sizes() && |reached'| == |reached|
    ensures !found ==> Failed(adj, dead, old(Searched(g, reached)), Searched(g, reached'), i, root)
    ensures found ==> Augmented(adj, dead, old(Searched(g, reached)), Searched(g, reached'), i)
    ensures i == root ==> Decided(adj, dead, old(Searched(g, reached)), i, found)
    // a free variable is taken at once
    ensures forall k :: 0 <= k < |g.eVariables[i]| ==> g.eVariables[i][k] < |old(g.vAssign)|
    ensures var free := FirstFreeHighest(g.eVariables[i], 0, old(g.vAssign), g.vDerivative, g.vAntiDerivative);
      free.Some? ==>
        && found
        && g.vAssign == old(g.vAssign)[free.value := Some(i)] && g.eAssign == old(g.eAssign)[i := free]
        && g.eColored == old(g.eColored)[i := true]
    // otherwise the first variable is taken over through which there is a path
    ensures found && FirstFreeHighest(g.eVariables[i], 0, old(g.vAssign), g.vDerivative, g.vAntiDerivative).None? ==>
      TakesFirstUsable(g.eVariables, adj, dead, old(Searched(g, reached)), Searched(g, reached'), i, root)
    decreases Uncolored(g.eColored), 2
  {
    hide Entry, Trying, Failed, Augmented, Decided, Uncolored, Restricted, FirstFreeHighest, TakesFirstUsable;
    ghost var s := Searched(g, reached);
    reached' := reached;
    EntryVariables(adj, dead, s, i, root);
    g.eColored := g.eColored[i := true];
    var vars := g.eVariables[i];
    EdgesInRange(g.eVariables, g.vDeleted, i);

    // first look for derivative variables
    found := AssignFirstFreeHighest(g, i);
    if found {
      TakeFree(adj, dead, s, i, root, g.eAssign[i].value, Searched(g, reached));
    } else {
      found, reached' := AugmentThroughAssigned(g, i, root, adj, dead, reached, s);
    }
    if i == root {
      SearchDecides(adj, dead, s, Searched(g, reached'), i, found);
    }
  }

  /** The last loop of `augmentPath`: every usable variable of i has an equation. */
  method AugmentThroughAssigned(g: BipartiteGraph, i: nat, ghost root: nat, ghost adj: Adjacency, ghost dead: seq<bool>,
                                ghost reached: seq<bool>, ghost s: Search)
    returns (found: bool, ghost reached': seq<bool>)
    requires g.Sizes() && Usable(g, adj, dead) && Trying(adj, dead, s, Searched(g, reached), i, root)
    requires forall k :: 0 <= k < |g.eVariables[i]| ==>
      g.eVariables[i][k] < |dead| && !g.vDeleted[g.eVariables[i][k]]
        && (!dead[g.eVariables[i][k]] ==> g.vAssign[g.eVariables[i][k]].Some?)
    modifies g`eColored, g`vAssign, g`eAssign
    ensures g.Sizes() && |reached'| == |reached|
    ensures !found ==> Failed(adj, dead, s, Searched(g, reached'), i, root)
    ensures found ==> Augmented(adj, dead, s, Searched(g, reached'), i)
    ensures found ==> TakesFirstUsable(g.eVariables, adj, dead, s, Searched(g, reached'), i, root)
    decreases Uncolored(s.eColored), 1
  {
    hide Trying, Entry, Failed, Augmented, Decided, Uncolored, Restricted, Unusable, TakesFirstUsable;
    reached' := reached;
    TryingRange(adj, dead, s, Searched(g, reached'), i, root);
    var vars := g.eVariables[i];
    for n := 0 to |vars|
      invariant g.Sizes() && Trying(adj, dead, s, Searched(g, reached'), i, root) && |reached'| == |reached| == |dead|
      invariant forall k :: 0 <= k < n && !dead[vars[k]] ==> reached'[vars[k]]
    {
      TryingRange(adj, dead, s, Searched(g, reached'), i, root);
      var jj := vars[n];
      assert jj in vars;
      if !g.vColored[jj] && g.vDerivative[jj].None? && g.vAntiDerivative[jj].Some? {
        ghost var u := Searched(g, reached');
        found, reached' := AugmentThrough(g, i, jj, root, adj, dead, reached', s);
        if found {
          TakesUsable(g.eVariables, adj, dead, s, u, Searched(g, reached'), i, root, n);
          return true, reached';
        }
      }
    }
    AllTried(g.eVariables, adj, dead, s, Searched(g, reached'), i, root);
    return false, reached';
  }

  /** One round of that loop: i takes variable jj over if the equation of jj finds another one. */
  method AugmentThrough(g: BipartiteGraph, i: nat, jj: nat, ghost root: nat, ghost adj: Adjacency,
                        ghost dead: seq<bool>,
                        ghost reached: seq<bool>, ghost s: Search)
    returns (found: bool, ghost reached': seq<bool>)
    requires g.Sizes() && Usable(g, adj, dead) && Trying(adj, dead, s, Searched(g, reached), i, root)
    requires jj < |g.vAssign| == |dead| && !dead[jj] && g.vAssign[jj].Some? && i < |adj| == |g.eAssign| && jj in adj[i]
    modifies g`eColored, g`vAssign, g`eAssign
    ensures g.Sizes() && |reached'| == |reached| == |dead| && Fits(adj, dead, s)
    ensures !found ==> Trying(adj, dead, s, Searched(g, reached'), i, root) && reached'[jj]
    ensures !found ==> forall v :: 0 <= v < |dead| && reached[v] ==> reached'[v]
    ensures found ==> Augmented(adj, dead, s, Searched(g, reached'), i)
    ensures found ==> i < |g.eAssign| && g.eAssign[i] == Some(jj) && !reached[jj]
    decreases Uncolored(s.eColored), 0
  {
    hide Trying, Entry, Failed, Augmented, Decided, Uncolored, Restricted, Unusable;
    found, reached' := false, reached;
    ghost var t := Searched(g, reached);
    TryingRange(adj, dead, s, t, i, root);
    ReachedTogether(adj, dead, s, t, i, root, jj);
    var k := g.vAssign[jj].value;
    if !g.eColored[k] {
      reached' := reached'[jj := true];
      ghost var u := Searched(g, reached');
      Descend(adj, dead, s, t, i, root, jj, u);
      found, reached' := AugmentPath(g, k, root, adj, dead, reached');
      ghost var w := Searched(g, reached');
      if found {
        g.SetAssignmentEquation(jj, i);
        TakeOver(adj, dead, s, t, i, root, jj, u, w, Searched(g, reached'));
      } else {
        Resume(adj, dead, s, t, i, root, jj, u, w);
      }
    }
  }
}
