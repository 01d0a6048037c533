/**
  Pure facts about matchings in a bipartite graph whose equations are given by their adjacency
  lists.  Nodes are named by their index, as in `enodes_` and `vnodes_`.
 */
module Matching {
  import opened Wrappers

  type Adjacency = seq<seq<nat>>
  type Links = seq<Option<nat>>

  /** Number of true entries. */
  ghost function Count(flags: seq<bool>): nat {
    if flags == [] then 0 else Count(flags[..|flags| - 1]) + (if flags[|flags| - 1] then 1 else 0)
  }

  ghost function Chosen(flags: seq<bool>): set<nat> {
    set x: nat | x < |flags| && flags[x]
  }

  lemma {:induction false} CountIsCardinality(flags: seq<bool>)
    ensures Count(flags) == |Chosen(flags)|
  {
    if flags == [] {
      assert Chosen(flags) == {};
    } else {
      var last: nat := |flags| - 1;
      CountIsCardinality(flags[..last]);
      if flags[last] {
        assert Chosen(flags) == Chosen(flags[..last]) + {last};
      } else {
        assert Chosen(flags) == Chosen(flags[..last]);
      }
    }
  }

  /** The variables that are not dead. */
  function Kept(vars: seq<nat>, dead: seq<bool>): (r: seq<nat>)
    ensures forall v :: v in r <==> v in vars && v < |dead| && !dead[v]
  {
    if vars == [] then []
    else
      assert vars == [vars[0]] + vars[1..];
      (if vars[0] < |dead| && !dead[vars[0]] then [vars[0]] else []) + Kept(vars[1..], dead)
  }

  /** The edges to variables that are not dead. */
  ghost function Restricted(adj: Adjacency, dead: seq<bool>): (r: Adjacency)
    ensures |r| == |adj|
    ensures forall e, v {:trigger v in r[e]} :: 0 <= e < |adj| ==>
      (v in r[e] <==> v in adj[e] && v < |dead| && !dead[v])
  {
    seq(|adj|, e requires 0 <= e < |adj| => Kept(adj[e], dead))
  }

  /** All adjacency lists speak of existing variables that have not been deleted. */
  ghost predicate LiveEdges(adj: Adjacency, deleted: seq<bool>) {
    forall e, v {:trigger v in adj[e]} :: 0 <= e < |adj| && v in adj[e] ==> v < |deleted| && !deleted[v]
  }

  /** If v is assigned to an equation then v occurs in it and the equation points back to v. */
  ghost predicate RealAssignment(adj: Adjacency, vAssign: Links, eAssign: Links, v: nat)
    requires v < |vAssign| && |eAssign| == |adj|
  {
    vAssign[v].Some? ==>
      && vAssign[v].value < |adj|
      && v in adj[vAssign[v].value]
      && eAssign[vAssign[v].value] == Some(v)
  }

  /** The assignments of the live variables form a matching; both directions of the links agree. */
  ghost predicate IsMatching(adj: Adjacency, deleted: seq<bool>, vAssign: Links, eAssign: Links) {
    && |vAssign| == |deleted|
    && |eAssign| == |adj|
    && forall v :: 0 <= v < |vAssign| && !deleted[v] ==> RealAssignment(adj, vAssign, eAssign, v)
  }

  /** Equation e and some live variable are assigned to each other. */
  ghost predicate IsMatched(deleted: seq<bool>, vAssign: Links, eAssign: Links, e: nat)
    requires |vAssign| == |deleted| && e < |eAssign|
  {
    && eAssign[e].Some?
    && eAssign[e].value < |vAssign|
    && !deleted[eAssign[e].value]
    && vAssign[eAssign[e].value] == Some(e)
  }

  ghost function MatchedEquations(deleted: seq<bool>, vAssign: Links, eAssign: Links): set<nat>
    requires |vAssign| == |deleted|
  {
    set e: nat | e < |eAssign| && IsMatched(deleted, vAssign, eAssign, e)
  }

  /** m gives each of the equations a variable of its own, among the variables it contains. */
  ghost predicate Covers(adj: Adjacency, equations: set<nat>, m: map<nat, nat>) {
    && m.Keys == equations
    && (forall e :: e in equations ==> e < |adj| && m[e] in adj[e])
    && (forall e, f :: e in equations && f in equations && m[e] == m[f] ==> e == f)
  }

  ghost predicate Coverable(adj: Adjacency, equations: set<nat>) {
    exists m :: Covers(adj, equations, m)
  }

  /**
    What a search that failed leaves behind: the root is coloured and unmatched, the coloured
    equations other than the root are exactly the partners of the coloured variables, and a coloured
    equation only contains coloured variables.
   */
  ghost predicate Certificate(adj: Adjacency, deleted: seq<bool>, vAssign: Links, eAssign: Links,
                              vColored: seq<bool>, eColored: seq<bool>, root: nat)
  {
    && IsMatching(adj, deleted, vAssign, eAssign)
    && |vColored| == |deleted| && |eColored| == |adj|
    && root < |adj| && eColored[root]
    && (forall v: nat :: v < |vColored| && vColored[v] ==>
          !deleted[v] && vAssign[v].Some? && vAssign[v].value < |adj| && vAssign[v].value != root
          && eColored[vAssign[v].value])
    && (forall e: nat :: e < |eColored| && eColored[e] && e != root ==>
          IsMatched(deleted, vAssign, eAssign, e) && vColored[eAssign[e].value])
    && (forall e: nat, v: nat {:trigger v in adj[e]} :: e < |eColored| && eColored[e] && v in adj[e] ==>
          v < |vColored| && vColored[v])
  }

  /** An injective image has the same size. */
  lemma {:induction false} InjectiveImage(s: set<nat>, t: set<nat>, f: nat -> nat)
    requires forall x :: x in s ==> f(x) in t
    requires forall x, y :: x in s && y in s && f(x) == f(y) ==> x == y
    ensures |s| <= |t|
    ensures (forall y :: y in t ==> exists x :: x in s && f(x) == y) ==> |s| == |t|
    decreases |s|
  {
    if s == {} {
      if forall y :: y in t ==> exists x :: x in s && f(x) == y {
        assert t == {};
      }
    } else {
      var x :| x in s;
      InjectiveImage(s - {x}, t - {f(x)}, f);
    }
  }

  /** Coloured equations outnumber coloured variables by exactly one. */
  lemma {:induction false} CertificateCount(adj: Adjacency, deleted: seq<bool>, vAssign: Links, eAssign: Links,
                         vColored: seq<bool>, eColored: seq<bool>, root: nat)
    requires Certificate(adj, deleted, vAssign, eAssign, vColored, eColored, root)
    ensures Count(eColored) == Count(vColored) + 1
  {
    CountIsCardinality(vColored);
    CountIsCardinality(eColored);
    var partner := (v: nat) => if v < |vAssign| && vAssign[v].Some? then vAssign[v].value else 0;
    var vars, eqs := Chosen(vColored), Chosen(eColored) - {root};
    forall v, w | v in vars && w in vars && partner(v) == partner(w)
      ensures v == w
    {
      assert RealAssignment(adj, vAssign, eAssign, v) && RealAssignment(adj, vAssign, eAssign, w);
    }
    forall e | e in eqs
      ensures exists v :: v in vars && partner(v) == e
    {
      assert eAssign[e].value in vars && partner(eAssign[e].value) == e;
    }
    InjectiveImage(vars, eqs, partner);
    assert Chosen(eColored) == eqs + {root};
  }

  /** The coloured equations cannot be covered by any matching, so no larger set can. */
  lemma {:induction false} CertificateRefutes(adj: Adjacency, deleted: seq<bool>, vAssign: Links, eAssign: Links,
                           vColored: seq<bool>, eColored: seq<bool>, root: nat, equations: set<nat>)
    requires Certificate(adj, deleted, vAssign, eAssign, vColored, eColored, root)
    requires Chosen(eColored) <= equations
    ensures !Coverable(adj, equations)
  {
    CertificateCount(adj, deleted, vAssign, eAssign, vColored, eColored, root);
    CountIsCardinality(vColored);
    CountIsCardinality(eColored);
    forall m | Covers(adj, equations, m)
      ensures false
    {
      var f := (e: nat) => if e in m then m[e] else 0;
      InjectiveImage(Chosen(eColored), Chosen(vColored), f);
    }
  }

  /** The variables of the equations. */
  ghost function Neighbors(adj: Adjacency, equations: set<nat>): set<nat> {
    set e: nat, v: nat {:trigger v in adj[e]} | e in equations && e < |adj| && v in adj[e] :: v
  }

  /** There are fewer variables than equations. */
  ghost predicate Deficient(adj: Adjacency, equations: set<nat>) {
    |Neighbors(adj, equations)| < |equations|
  }

  /** The smallest part of the equations with fewer variables than equations: all others contain it. */
  ghost predicate LeastDeficient(adj: Adjacency, equations: set<nat>, part: set<nat>) {
    && part <= equations && Deficient(adj, part)
    && forall other: set<nat> :: other <= equations && Deficient(adj, other) ==> part <= other
  }

  /** The equations have the same variables in both. */
  ghost predicate SameRows(adj: Adjacency, adj': Adjacency) {
    && |adj| == |adj'|
    && forall e: nat, v: nat {:trigger v in adj[e]} {:trigger v in adj'[e]} :: e < |adj| ==>
         (v in adj[e] <==> v in adj'[e])
  }

  lemma {:induction false} SameRowsCover(adj: Adjacency, adj': Adjacency, equations: set<nat>)
    requires SameRows(adj, adj')
    ensures Coverable(adj, equations) <==> Coverable(adj', equations)
  {
    if m :| Covers(adj, equations, m) {
      assert Covers(adj', equations, m);
    }
    if m :| Covers(adj', equations, m) {
      assert Covers(adj, equations, m);
    }
  }

  lemma {:induction false} SameRowsNeighbors(adj: Adjacency, adj': Adjacency, equations: set<nat>)
    requires SameRows(adj, adj')
    ensures Neighbors(adj, equations) == Neighbors(adj', equations)
  {
    forall v | v in Neighbors(adj, equations)
      ensures v in Neighbors(adj', equations)
    {
      var e :| e in equations && e < |adj| && v in adj[e];
      assert v in adj'[e];
    }
    forall v | v in Neighbors(adj', equations)
      ensures v in Neighbors(adj, equations)
    {
      var e :| e in equations && e < |adj'| && v in adj'[e];
      assert v in adj[e];
    }
  }

  lemma {:induction false} SameRowsLeast(adj: Adjacency, adj': Adjacency, equations: set<nat>, part: set<nat>)
    requires SameRows(adj, adj') && LeastDeficient(adj, equations, part)
    ensures LeastDeficient(adj', equations, part)
  {
    hide SameRows, Neighbors;
    SameRowsNeighbors(adj, adj', part);
    forall other: set<nat> | other <= equations && Deficient(adj', other)
      ensures part <= other
    {
      SameRowsNeighbors(adj, adj', other);
      assert Deficient(adj, other);
    }
  }

  lemma {:induction false} DeficientRefutes(adj: Adjacency, equations: set<nat>, part: set<nat>)
    requires part <= equations && Deficient(adj, part)
    ensures !Coverable(adj, equations)
  {
    forall m | Covers(adj, equations, m)
      ensures false
    {
      InjectiveImage(part, Neighbors(adj, part), (e: nat) => if e in m then m[e] else 0);
    }
  }

  /** A matching covers its own matched equations. */
  lemma {:induction false} MatchingCovers(adj: Adjacency, deleted: seq<bool>, vAssign: Links, eAssign: Links)
    requires IsMatching(adj, deleted, vAssign, eAssign)
    ensures Coverable(adj, MatchedEquations(deleted, vAssign, eAssign))
  {
    var eqs := MatchedEquations(deleted, vAssign, eAssign);
    var m := map e | e in eqs :: eAssign[e].value;
    forall e | e in eqs
      ensures m[e] in adj[e]
    {
      assert RealAssignment(adj, vAssign, eAssign, eAssign[e].value);
    }
    assert Covers(adj, eqs, m);
  }

  // ---------------------------------------------------------------------------------------------
  // One search for an augmenting path

  ghost function Uncolored(eColored: seq<bool>): set<nat> {
    set e: nat | e < |eColored| && !eColored[e]
  }

  /** What a search changes: the assignments and the colours. */
  datatype Search = Search(vAssign: Links, eAssign: Links, vColored: seq<bool>, eColored: seq<bool>)

  ghost predicate Fits(adj: Adjacency, deleted: seq<bool>, s: Search) {
    && |s.vAssign| == |s.vColored| == |deleted|
    && |s.eAssign| == |s.eColored| == |adj|
  }

  /**
    The equations reached, counting i, are the unmatched root and the partners of the coloured
    variables.
   */
  ghost predicate Tree(adj: Adjacency, deleted: seq<bool>, s: Search, i: nat, root: nat)
    requires Fits(adj, deleted, s) && root < |adj|
  {
    && (forall v: nat :: v < |deleted| && s.vColored[v] ==>
          !deleted[v] && s.vAssign[v].Some? && s.vAssign[v].value < |adj| && s.vAssign[v].value != root
          && (s.eColored[s.vAssign[v].value] || s.vAssign[v].value == i))
    && (forall e: nat :: e < |adj| && (s.eColored[e] || e == i) && e != root ==>
          IsMatched(deleted, s.vAssign, s.eAssign, e) && s.vColored[s.eAssign[e].value])
    && !IsMatched(deleted, s.vAssign, s.eAssign, root)
  }

  /** Colours are only added. */
  ghost predicate Grown(s: Search, t: Search) {
    && |s.vColored| == |t.vColored| && |s.eColored| == |t.eColored|
    && (forall e :: 0 <= e < |s.eColored| && s.eColored[e] ==> t.eColored[e])
    && (forall v :: 0 <= v < |s.vColored| && s.vColored[v] ==> t.vColored[v])
  }

  /** The equations coloured since s, apart from `open`, only contain coloured variables. */
  ghost predicate Closed(adj: Adjacency, s: Search, t: Search, open: Option<nat>)
    requires |s.eColored| == |t.eColored| == |adj|
  {
    forall e: nat, v: nat {:trigger v in adj[e]} ::
      e < |adj| && t.eColored[e] && !s.eColored[e] && open != Some(e) && v in adj[e] ==>
        v < |t.vColored| && t.vColored[v]
  }

  /**
    t is s with equation i matched in addition.  A variable that s assigns to i keeps that
    assignment; the caller reassigns it.
   */
  ghost predicate Augmented(adj: Adjacency, deleted: seq<bool>, s: Search, t: Search, i: nat)
    requires Fits(adj, deleted, s) && Fits(adj, deleted, t) && i < |adj|
  {
    && (forall e: nat :: e < |adj| ==>
          (IsMatched(deleted, t.vAssign, t.eAssign, e) <==> IsMatched(deleted, s.vAssign, s.eAssign, e) || e == i))
    && (forall v: nat :: v < |deleted| && s.vAssign[v].Some? ==> t.vAssign[v].Some?)
    && (forall v: nat :: v < |deleted| && s.vColored[v] ==> t.vAssign[v] == s.vAssign[v])
    && (forall v: nat :: v < |deleted| && !deleted[v] && s.vAssign[v] != Some(i) ==>
          RealAssignment(adj, t.vAssign, t.eAssign, v))
    && (forall v: nat :: v < |deleted| && !deleted[v] && s.vAssign[v] == Some(i) ==>
          t.vAssign[v] == Some(i) && t.eAssign[i] != Some(v))
  }

  /** What holds when the search enters equation i. */
  ghost predicate Entry(adj: Adjacency, deleted: seq<bool>, s: Search, i: nat, root: nat) {
    && Fits(adj, deleted, s) && i < |adj| && root < |adj|
    && LiveEdges(adj, deleted)
    && IsMatching(adj, deleted, s.vAssign, s.eAssign)
    && !s.eColored[i] && (s.eColored[root] || i == root)
    && Tree(adj, deleted, s, i, root)
  }

  ghost function NewlyColored(s: Search, t: Search): set<nat> {
    set e: nat | e < |t.eColored| && t.eColored[e] && !(e < |s.eColored| && s.eColored[e])
  }

  /** The set contains the equations of all variables of its equations. */
  ghost predicate PartnersStay(adj: Adjacency, vAssign: Links, equations: set<nat>) {
    forall e: nat, v: nat {:trigger v in adj[e]} :: e in equations && e < |adj| && v in adj[e] ==>
      v < |vAssign| && vAssign[v].Some? && vAssign[v].value in equations
  }

  /** The equations coloured since s are reached from i through variables and their equations. */
  ghost predicate ReachedFrom(adj: Adjacency, s: Search, t: Search, i: nat) {
    forall equations: set<nat> :: i in equations && PartnersStay(adj, s.vAssign, equations) ==>
      NewlyColored(s, t) <= equations
  }

  /** What holds inside equation i while none of the variables tried led to a path. */
  ghost predicate Trying(adj: Adjacency, deleted: seq<bool>, s: Search, t: Search, i: nat, root: nat) {
    && Entry(adj, deleted, s, i, root)
    && Fits(adj, deleted, t) && Grown(s, t) && t.eColored[i]
    && t.vAssign == s.vAssign && t.eAssign == s.eAssign
    && Tree(adj, deleted, t, i, root)
    && Closed(adj, s, t, Some(i)) && ReachedFrom(adj, s, t, i)
  }

  /** Equation i was entered and led nowhere. */
  ghost predicate Failed(adj: Adjacency, deleted: seq<bool>, s: Search, t: Search, i: nat, root: nat)
    requires root < |adj|
  {
    && Fits(adj, deleted, s) && Fits(adj, deleted, t) && Grown(s, t)
    && i < |adj| && t.eColored[i]
    && t.vAssign == s.vAssign && t.eAssign == s.eAssign
    && Tree(adj, deleted, t, i, root)
    && Closed(adj, s, t, None) && ReachedFrom(adj, s, t, i)
  }

  /** Variable number n of i is the first with a path, if any: the others were tried, and all they reach is closed. */
  ghost predicate IsFirstOpen(adj: Adjacency, deleted: seq<bool>, s: Search, u: Search, i: nat, root: nat, n: nat) {
    && Trying(adj, deleted, s, u, i, root) && n < |adj[i]|
    && (forall k :: 0 <= k < n ==> adj[i][k] < |u.vColored| && u.vColored[adj[i][k]])
    && adj[i][n] < |u.vColored| && !u.vColored[adj[i][n]]
  }

  /** Equation i got the first of its variables through which a path was found. */
  ghost predicate TakesFirst(adj: Adjacency, deleted: seq<bool>, s: Search, t: Search, i: nat, root: nat) {
    && i < |adj| && i < |t.eAssign|
    && exists u, n: nat :: IsFirstOpen(adj, deleted, s, u, i, root, n) && t.eAssign[i] == Some(adj[i][n])
  }

  lemma {:induction false} TakesOpen(adj: Adjacency, deleted: seq<bool>, s: Search, u: Search, t: Search, i: nat,
                                     root: nat, n: nat)
    requires Trying(adj, deleted, s, u, i, root) && i < |adj| && n < |adj[i]|
    requires forall k :: 0 <= k < n ==> adj[i][k] < |u.vColored| && u.vColored[adj[i][k]]
    requires adj[i][n] < |u.vColored| && !u.vColored[adj[i][n]]
    requires i < |t.eAssign| && t.eAssign[i] == Some(adj[i][n])
    ensures TakesFirst(adj, deleted, s, t, i, root)
  {
    hide Trying;
    assert IsFirstOpen(adj, deleted, s, u, i, root, n);
  }

  lemma {:induction false} EntryVariables(adj: Adjacency, deleted: seq<bool>, s: Search, i: nat, root: nat)
    requires Entry(adj, deleted, s, i, root)
    ensures Fits(adj, deleted, s) && i < |adj| && root < |adj|
    ensures forall k :: 0 <= k < |adj[i]| ==> adj[i][k] < |deleted| && !deleted[adj[i][k]]
    ensures Trying(adj, deleted, s, s.(eColored := s.eColored[i := true]), i, root)
  {
    EdgesInRange(adj, deleted, i);
  }

  lemma {:induction false} TryingRange(adj: Adjacency, deleted: seq<bool>, s: Search, t: Search, i: nat, root: nat)
    requires Trying(adj, deleted, s, t, i, root)
    ensures Fits(adj, deleted, s) && Fits(adj, deleted, t) && i < |adj| && root < |adj|
    ensures t.vAssign == s.vAssign && t.eAssign == s.eAssign
  {}

  lemma {:induction false} EdgesInRange(adj: Adjacency, deleted: seq<bool>, i: nat)
    requires LiveEdges(adj, deleted) && i < |adj|
    ensures forall k :: 0 <= k < |adj[i]| ==> adj[i][k] < |deleted| && !deleted[adj[i][k]]
  {
    forall k | 0 <= k < |adj[i]|
      ensures adj[i][k] < |deleted| && !deleted[adj[i][k]]
    {
      assert adj[i][k] in adj[i];
    }
  }

  lemma {:induction false} Exhausted(adj: Adjacency, deleted: seq<bool>, s: Search, t: Search, i: nat, root: nat)
    requires Trying(adj, deleted, s, t, i, root)
    requires forall k :: 0 <= k < |adj[i]| ==> adj[i][k] < |deleted| && t.vColored[adj[i][k]]
    ensures Failed(adj, deleted, s, t, i, root)
  {}

  /** Equation i takes a variable that has no equation. */
  lemma {:induction false} TakeFree(adj: Adjacency, deleted: seq<bool>, s: Search, i: nat, root: nat, j: nat, t: Search)
    requires Entry(adj, deleted, s, i, root)
    requires j in adj[i] && j < |deleted| && s.vAssign[j].None?
    requires t == Search(s.vAssign[j := Some(i)], s.eAssign[i := Some(j)], s.vColored, s.eColored[i := true])
    ensures Augmented(adj, deleted, s, t, i)
  {
    forall v: nat | v < |deleted| && !deleted[v]
      ensures RealAssignment(adj, s.vAssign, s.eAssign, v)
    {}
    forall v: nat | v < |deleted| && s.vColored[v]
      ensures v != j
    {}
  }

  /** Colouring a variable of i leads to its equation, which was not reached before. */
  lemma {:induction false} Descend(adj: Adjacency, deleted: seq<bool>, s: Search, t: Search, i: nat, root: nat, j: nat,
                                   u: Search)
    requires Trying(adj, deleted, s, t, i, root)
    requires j in adj[i] && j < |deleted| && !t.vColored[j] && t.vAssign[j].Some?
    requires u == t.(vColored := t.vColored[j := true])
    ensures t.vAssign[j].value < |adj| && !deleted[j]
    ensures Entry(adj, deleted, u, t.vAssign[j].value, root)
    ensures Uncolored(u.eColored) < Uncolored(s.eColored)
  {
    assert i in Uncolored(s.eColored) && i !in Uncolored(u.eColored);
    assert RealAssignment(adj, s.vAssign, s.eAssign, j);
    var k := t.vAssign[j].value;
    assert IsMatched(deleted, t.vAssign, t.eAssign, k);
  }

  /** A variable is reached exactly when its equation is. */
  lemma {:induction false} ReachedTogether(adj: Adjacency, deleted: seq<bool>, s: Search, t: Search, i: nat, root: nat,
                                           j: nat)
    requires Trying(adj, deleted, s, t, i, root)
    requires j < |deleted| && !deleted[j] && t.vAssign[j].Some?
    ensures t.vAssign[j].value < |adj|
    ensures t.vColored[j] <==> t.eColored[t.vAssign[j].value]
  {
    assert RealAssignment(adj, s.vAssign, s.eAssign, j);
    assert IsMatched(deleted, t.vAssign, t.eAssign, t.vAssign[j].value);
  }

  /** Nothing was found below k = the equation of j: i goes on with its next variable. */
  lemma {:induction false} Resume(adj: Adjacency, deleted: seq<bool>, s: Search, t: Search, i: nat, root: nat, j: nat,
                                  u: Search, w: Search)
    requires Trying(adj, deleted, s, t, i, root)
    requires j in adj[i] && j < |deleted| && !t.vColored[j] && t.vAssign[j].Some? && t.vAssign[j].value < |adj|
    requires u == t.(vColored := t.vColored[j := true])
    requires Failed(adj, deleted, u, w, t.vAssign[j].value, root)
    ensures Trying(adj, deleted, s, w, i, root) && w.vColored[j]
    ensures forall v :: 0 <= v < |deleted| && t.vColored[v] ==> w.vColored[v]
  {
    forall e: nat, v: nat {:trigger v in adj[e]} |
      e < |adj| && w.eColored[e] && !s.eColored[e] && e != i && v in adj[e]
      ensures v < |w.vColored| && w.vColored[v]
    {
      assert t.eColored[e] ==> t.vColored[v];
    }
    ReachedThrough(adj, s, t, u, w, i, j);
    hide ReachedFrom, NewlyColored, PartnersStay;
  }

  /** What is reached from the equation of a variable of i is reached from i. */
  lemma {:induction false} ReachedThrough(adj: Adjacency, s: Search, t: Search, u: Search, w: Search, i: nat, j: nat)
    requires i < |adj| && j in adj[i] && j < |t.vAssign| && t.vAssign[j].Some?
    requires t.vAssign == s.vAssign && u.vAssign == s.vAssign && u.eColored == t.eColored
    requires ReachedFrom(adj, s, t, i) && ReachedFrom(adj, u, w, t.vAssign[j].value)
    ensures ReachedFrom(adj, s, w, i)
  {
    forall equations: set<nat> | i in equations && PartnersStay(adj, s.vAssign, equations)
      ensures NewlyColored(s, w) <= equations
    {
      assert NewlyColored(s, t) <= equations && NewlyColored(u, w) <= equations;
      assert NewlyColored(s, w) <= NewlyColored(s, t) + NewlyColored(u, w);
    }
  }

  /** The states around a search below the equation of j that found a path. */
  ghost predicate FoundBelow(adj: Adjacency, deleted: seq<bool>, s: Search, t: Search, i: nat, root: nat, j: nat,
                             u: Search, w: Search) {
    && Trying(adj, deleted, s, t, i, root)
    && j < |deleted| && j in adj[i] && !deleted[j]
    && !t.vColored[j] && t.vAssign[j].Some? && t.vAssign[j].value < |adj|
    && u == t.(vColored := t.vColored[j := true])
    && Entry(adj, deleted, u, t.vAssign[j].value, root)
    && Fits(adj, deleted, w) && Augmented(adj, deleted, u, w, t.vAssign[j].value)
  }

  lemma {:induction false} TakeOverReal(adj: Adjacency, deleted: seq<bool>, s: Search, t: Search, i: nat, root: nat,
                                        j: nat, u: Search, w: Search, x: Search, v: nat)
    requires FoundBelow(adj, deleted, s, t, i, root, j, u, w)
    requires x == w.(vAssign := w.vAssign[j := Some(i)], eAssign := w.eAssign[i := Some(j)])
    requires v < |deleted| && !deleted[v] && s.vAssign[v] != Some(i)
    ensures RealAssignment(adj, x.vAssign, x.eAssign, v)
  {
    TakeOverPartner(adj, deleted, s, t, i, root, j, u, w);
    hide Tree, Closed, Grown, LiveEdges;
    assert RealAssignment(adj, s.vAssign, s.eAssign, v) && RealAssignment(adj, s.vAssign, s.eAssign, j);
    if v != j {
      assert RealAssignment(adj, w.vAssign, w.eAssign, v);
      assert IsMatched(deleted, w.vAssign, w.eAssign, i) ==> IsMatched(deleted, s.vAssign, s.eAssign, i);
    }
  }

  /** The variable i had keeps its assignment to i, which is now stale. */
  lemma {:induction false} TakeOverStale(adj: Adjacency, deleted: seq<bool>, s: Search, t: Search, i: nat, root: nat,
                                         j: nat, u: Search, w: Search, v: nat)
    requires FoundBelow(adj, deleted, s, t, i, root, j, u, w)
    requires v < |deleted| && !deleted[v] && s.vAssign[v] == Some(i)
    ensures v != j && w.vAssign[v] == Some(i)
  {
    hide Closed, LiveEdges;
    assert RealAssignment(adj, s.vAssign, s.eAssign, v) && RealAssignment(adj, s.vAssign, s.eAssign, j);
  }

  /** A path was found below the equation of j: i takes j over. */
  lemma {:induction false} TakeOver(adj: Adjacency, deleted: seq<bool>, s: Search, t: Search, i: nat, root: nat, j: nat,
                                    u: Search, w: Search, x: Search)
    requires FoundBelow(adj, deleted, s, t, i, root, j, u, w)
    requires x == w.(vAssign := w.vAssign[j := Some(i)], eAssign := w.eAssign[i := Some(j)])
    ensures Augmented(adj, deleted, s, x, i)
  {
    hide Closed, LiveEdges, RealAssignment, IsMatching, Tree;
    TakeOverPartner(adj, deleted, s, t, i, root, j, u, w);
    forall v: nat | v < |deleted| && !deleted[v] && s.vAssign[v] != Some(i)
      ensures RealAssignment(adj, x.vAssign, x.eAssign, v)
    {
      TakeOverReal(adj, deleted, s, t, i, root, j, u, w, x, v);
    }
    forall v: nat | v < |deleted| && !deleted[v] && s.vAssign[v] == Some(i)
      ensures v != j && w.vAssign[v] == Some(i)
    {
      TakeOverStale(adj, deleted, s, t, i, root, j, u, w, v);
    }
  }

  lemma {:induction false} TakeOverPartner(adj: Adjacency, deleted: seq<bool>, s: Search, t: Search, i: nat, root: nat,
                                           j: nat, u: Search, w: Search)
    requires FoundBelow(adj, deleted, s, t, i, root, j, u, w)
    ensures IsMatched(deleted, s.vAssign, s.eAssign, t.vAssign[j].value) && t.vAssign[j].value != i && !s.vColored[j]
    ensures w.vAssign[j] == t.vAssign[j]
  {
    assert RealAssignment(adj, s.vAssign, s.eAssign, j);
  }

  ghost predicate NothingColored(s: Search) {
    && (forall e :: 0 <= e < |s.eColored| ==> !s.eColored[e])
    && (forall v :: 0 <= v < |s.vColored| ==> !s.vColored[v])
  }

  /** A search that starts with no colours and fails certifies that no matching covers its equations. */
  lemma {:induction false} RootFailure(adj: Adjacency, deleted: seq<bool>, s: Search, t: Search, i: nat)
    requires Entry(adj, deleted, s, i, i) && NothingColored(s)
    requires Failed(adj, deleted, s, t, i, i)
    ensures Certificate(adj, deleted, t.vAssign, t.eAssign, t.vColored, t.eColored, i)
    ensures Count(t.eColored) == Count(t.vColored) + 1
    ensures !Coverable(adj, MatchedEquations(deleted, s.vAssign, s.eAssign) + {i})
  {
    CertificateCount(adj, deleted, t.vAssign, t.eAssign, t.vColored, t.eColored, i);
    CertificateRefutes(adj, deleted, t.vAssign, t.eAssign, t.vColored, t.eColored, i,
                       MatchedEquations(deleted, s.vAssign, s.eAssign) + {i});
  }

  /** A deficient set of matched equations and i has i, and the equations of all its variables. */
  lemma {:induction false} DeficientIsClosed(adj: Adjacency, deleted: seq<bool>, vAssign: Links, eAssign: Links,
                                             i: nat, equations: set<nat>)
    requires IsMatching(adj, deleted, vAssign, eAssign) && Deficient(adj, equations)
    requires equations <= MatchedEquations(deleted, vAssign, eAssign) + {i}
    ensures i in equations && PartnersStay(adj, vAssign, equations)
  {
    var partner := (e: nat) => if e < |eAssign| && eAssign[e].Some? then eAssign[e].value else 0;
    var partners := set e | e in equations - {i} :: partner(e);
    forall e | e in equations - {i}
      ensures IsMatched(deleted, vAssign, eAssign, e) && partner(e) in Neighbors(adj, equations)
    {
      assert RealAssignment(adj, vAssign, eAssign, eAssign[e].value);
    }
    InjectiveImage(equations - {i}, partners, partner);
    SubsetSize(partners, Neighbors(adj, equations));
    assert i in equations by {
      assert i !in equations ==> equations - {i} == equations;
    }
    forall e: nat, v: nat {:trigger v in adj[e]} | e in equations && e < |adj| && v in adj[e]
      ensures v < |vAssign| && vAssign[v].Some? && vAssign[v].value in equations
    {
      assert v in Neighbors(adj, equations) && v in partners;
    }
  }

  lemma {:induction false} SubsetSize(s: set<nat>, t: set<nat>)
    requires s <= t
    ensures |s| <= |t| && (|s| == |t| ==> s == t)
  {
    assert t == s + (t - s);
  }

  /** The equations coloured by a failed search are the smallest deficient part, the variables are theirs. */
  lemma {:induction false} FailureIsLeast(adj: Adjacency, deleted: seq<bool>, s: Search, t: Search, i: nat)
    requires Entry(adj, deleted, s, i, i) && NothingColored(s)
    requires Failed(adj, deleted, s, t, i, i)
    ensures Neighbors(adj, Chosen(t.eColored)) == Chosen(t.vColored)
    ensures LeastDeficient(adj, MatchedEquations(deleted, s.vAssign, s.eAssign) + {i}, Chosen(t.eColored))
  {
    RootFailure(adj, deleted, s, t, i);
    CertificateNeighbors(adj, deleted, t.vAssign, t.eAssign, t.vColored, t.eColored, i);
    CountIsCardinality(t.eColored);
    CountIsCardinality(t.vColored);
    assert NewlyColored(s, t) == Chosen(t.eColored);
    var equations := MatchedEquations(deleted, s.vAssign, s.eAssign) + {i};
    forall other: set<nat> | other <= equations && Deficient(adj, other)
      ensures Chosen(t.eColored) <= other
    {
      DeficientIsClosed(adj, deleted, s.vAssign, s.eAssign, i, other);
    }
  }

  lemma {:induction false} CertificateNeighbors(adj: Adjacency, deleted: seq<bool>, vAssign: Links, eAssign: Links,
                                                vColored: seq<bool>, eColored: seq<bool>, root: nat)
    requires Certificate(adj, deleted, vAssign, eAssign, vColored, eColored, root)
    ensures Neighbors(adj, Chosen(eColored)) == Chosen(vColored)
    ensures Chosen(eColored) <= MatchedEquations(deleted, vAssign, eAssign) + {root}
  {
    forall v | v in Chosen(vColored)
      ensures v in Neighbors(adj, Chosen(eColored))
    {
      assert RealAssignment(adj, vAssign, eAssign, v);
      assert v in adj[vAssign[v].value];
    }
  }

  lemma {:induction false} RootMatching(adj: Adjacency, deleted: seq<bool>, s: Search, t: Search, i: nat)
    requires Entry(adj, deleted, s, i, i)
    requires Fits(adj, deleted, t) && Augmented(adj, deleted, s, t, i)
    ensures IsMatching(adj, deleted, t.vAssign, t.eAssign)
  {
    hide LiveEdges;
    forall v: nat | v < |deleted| && !deleted[v]
      ensures RealAssignment(adj, t.vAssign, t.eAssign, v)
    {
      assert RealAssignment(adj, s.vAssign, s.eAssign, v);
    }
  }

  /** A search that starts at an unmatched equation and finds a path extends the matching by it. */
  lemma {:induction false} RootSuccess(adj: Adjacency, deleted: seq<bool>, s: Search, t: Search, i: nat)
    requires Entry(adj, deleted, s, i, i)
    requires Fits(adj, deleted, t) && Augmented(adj, deleted, s, t, i)
    ensures IsMatching(adj, deleted, t.vAssign, t.eAssign)
    ensures MatchedEquations(deleted, t.vAssign, t.eAssign) == MatchedEquations(deleted, s.vAssign, s.eAssign) + {i}
    ensures Coverable(adj, MatchedEquations(deleted, s.vAssign, s.eAssign) + {i})
  {
    hide IsMatching, LiveEdges, Tree, RealAssignment, IsMatched, Coverable;
    RootMatching(adj, deleted, s, t, i);
    MatchingCovers(adj, deleted, t.vAssign, t.eAssign);
  }

  /** The search decides whether the matched equations and i can be covered together. */
  ghost predicate Decided(adj: Adjacency, deleted: seq<bool>, s: Search, i: nat, found: bool)
    requires |s.vAssign| == |deleted|
  {
    NothingColored(s) ==> (found <==> Coverable(adj, MatchedEquations(deleted, s.vAssign, s.eAssign) + {i}))
  }

  lemma {:induction false} SearchDecides(adj: Adjacency, deleted: seq<bool>, s: Search, t: Search, i: nat, found: bool)
    requires Entry(adj, deleted, s, i, i)
    requires !found ==> Failed(adj, deleted, s, t, i, i)
    requires found ==> Fits(adj, deleted, t) && Augmented(adj, deleted, s, t, i)
    ensures Decided(adj, deleted, s, i, found)
  {
    if found {
      RootSuccess(adj, deleted, s, t, i);
    } else if NothingColored(s) {
      RootFailure(adj, deleted, s, t, i);
    }
  }
}
