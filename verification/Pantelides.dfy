/** The Pantelides index reduction: which equations have to be differentiated, and the final matching. */
module Pantelides {
  import opened Wrappers
  import opened Matching
  import opened BipartiteGraphs
  import opened Coverage
  import opened ReductionRuns
  import AugmentPathDepthLookahead

  /** Everything the invariant of the algorithm speaks of. */
  datatype State = State(
    vDeleted: seq<bool>, vDerivative: Links, vAntiDerivative: Links, vAssign: Links,
    original: Adjacency, vars: Adjacency, eDerivative: Links, eDerivativeOf: Links, eAssign: Links)
  {
    ghost predicate Sizes() {
      && |vDeleted| == |vDerivative| == |vAntiDerivative| == |vAssign|
      && |original| == |vars| == |eDerivative| == |eDerivativeOf| == |eAssign|
    }
  }

  ghost function StateOf(g: BipartiteGraph): State
    reads g
  {
    State(g.vDeleted, g.vDerivative, g.vAntiDerivative, g.vAssign,
          g.eOriginalVariables, g.eVariables, g.eDerivative, g.eDerivativeOf, g.eAssign)
  }

  /** A variable that is deleted or has a derivative takes no part in the matching any more. */
  ghost function Spent(deleted: seq<bool>, vDerivative: Links): (r: seq<bool>)
    requires |deleted| == |vDerivative|
    ensures |r| == |deleted| && forall v :: 0 <= v < |r| ==> r[v] == (deleted[v] || vDerivative[v].Some?)
  {
    seq(|deleted|, v requires 0 <= v < |deleted| && |deleted| == |vDerivative| => deleted[v] || vDerivative[v].Some?)
  }

  method DeleteDifferentiated(g: BipartiteGraph)
    requires g.Structure()
    modifies g`vDeleted, g`vEquations, g`eVariables
    ensures g.Structure()
    ensures g.vDeleted == Spent(old(g.vDeleted), g.vDerivative)
  {
    hide Edges, Chains, Deletions, Erase, NoDuplicates;
    ghost var deleted0 := g.vDeleted;
    for j := 0 to |g.vDeleted|
      invariant g.Structure() && |g.vDeleted| == |deleted0|
      invariant forall v :: 0 <= v < |deleted0| ==>
        g.vDeleted[v] == (deleted0[v] || (v < j && g.vDerivative[v].Some?))
    {
      if !g.vDeleted[j] && g.vDerivative[j].Some? {
        g.DeleteNode(j);
      }
    }
  }

  method UncolorAll(g: BipartiteGraph)
    requires g.Structure()
    modifies g`vColored, g`eColored
    ensures g.Structure()
    ensures NothingColored(g.Searched())
  {
    hide Edges, Chains, Deletions, Erase, NoDuplicates;
    for j := 0 to |g.vColored|
      invariant g.Structure() && |g.vColored| == old(|g.vColored|) && g.eColored == old(g.eColored)
      invariant forall v :: 0 <= v < j ==> !g.vColored[v]
    {
      g.vColored := g.vColored[j := false];
    }
    for i := 0 to |g.eColored|
      invariant g.Structure() && |g.eColored| == old(|g.eColored|)
      invariant forall v :: 0 <= v < |g.vColored| ==> !g.vColored[v]
      invariant forall e :: 0 <= e < i ==> !g.eColored[e]
    {
      g.eColored := g.eColored[i := false];
    }
  }

  /** The nodes marked by `flags` that have no derivative yet. */
  ghost function Pending(flags: seq<bool>, next: Links): (r: seq<bool>)
    requires |flags| == |next|
    ensures |r| == |flags| && forall x :: 0 <= x < |r| ==> r[x] == (flags[x] && next[x].None?)
  {
    seq(|flags|, x requires 0 <= x < |flags| && |flags| == |next| => flags[x] && next[x].None?)
  }

  /** The links after the pending nodes before l, and no others, got a derivative. */
  ghost predicate Differentiated(pending: seq<bool>, l: nat, next: Links, previous: Links, next': Links,
                                 previous': Links) {
    && |next| == |previous| == |pending| && l <= |pending|
    && |next'| == |previous'| == |next| + Count(pending[..l])
    && previous <= previous'
    && (forall x :: 0 <= x < |next| ==>
          if x < l && pending[x] then next'[x].Some? && |next| <= next'[x].value < |next'| else next'[x] == next[x])
    && (forall y :: |next| <= y < |next'| ==>
          next'[y].None? && previous'[y].Some? && previous'[y].value < |next| && pending[previous'[y].value])
  }

  lemma {:induction false} NothingCreated(pending: seq<bool>, next: Links, previous: Links)
    requires |next| == |previous| == |pending|
    ensures Differentiated(pending, 0, next, previous, next, previous) && CreatedInOrder(previous, |next|, 0)
  {}

  lemma {:induction false} SkipNode(pending: seq<bool>, l: nat, next: Links, previous: Links, next': Links,
                                    previous': Links)
    requires Differentiated(pending, l, next, previous, next', previous') && l < |pending| && !pending[l]
    ensures Differentiated(pending, l + 1, next, previous, next', previous')
  {
    assert pending[..l + 1] == pending[..l] + [pending[l]];
  }

  lemma {:induction false} DifferentiateNode(pending: seq<bool>, l: nat, next: Links, previous: Links, next': Links,
                                             previous': Links)
    requires Differentiated(pending, l, next, previous, next', previous') && l < |pending| && pending[l]
    ensures Differentiated(pending, l + 1, next, previous, next'[l := Some(|next'|)] + [None], previous' + [Some(l)])
  {
    assert pending[..l + 1] == pending[..l] + [pending[l]];
  }

  /** What becomes of node l. */
  lemma {:induction false} OneMoreNode(pending: seq<bool>, l: nat, next: Links, previous: Links, next': Links,
                                       previous': Links)
    requires Differentiated(pending, l, next, previous, next', previous') && l < |pending|
    requires CreatedInOrder(previous', |next|, l)
    ensures l < |next| && l < |next'| && next'[l] == next[l]
    ensures !pending[l] ==>
      Differentiated(pending, l + 1, next, previous, next', previous') && CreatedInOrder(previous', |next|, l + 1)
    ensures pending[l] ==>
      && Differentiated(pending, l + 1, next, previous, next'[l := Some(|next'|)] + [None], previous' + [Some(l)])
      && CreatedInOrder(previous' + [Some(l)], |next|, l + 1)
  {
    if pending[l] {
      DifferentiateNode(pending, l, next, previous, next', previous');
    } else {
      SkipNode(pending, l, next, previous, next', previous');
    }
    hide CreatedInOrder;
  }

  /** The variables from position n on are as `createDerivate` made them. */
  ghost predicate FreshVariables(g: BipartiteGraph, n: nat)
    requires g.Sizes() && n <= |g.vDeleted|
    reads g
  {
    forall v :: n <= v < |g.vDeleted| ==> !g.vColored[v] && !g.vDeleted[v] && !g.vParameter[v] && g.vAssign[v].None?
  }

  /** The loop that adds derivatives of the coloured variables. */
  method DifferentiateVariables(g: BipartiteGraph)
    requires g.Structure()
    requires forall v :: 0 <= v < |g.vColored| && g.vColored[v] ==> !g.vDeleted[v]
    modifies g`vColored, g`vDeleted, g`vParameter, g`vEquations, g`vAssign, g`vDerivative, g`vAntiDerivative
    ensures g.Structure() && old(|g.vDeleted|) <= |g.vDeleted|
    ensures Differentiated(old(Pending(g.vColored, g.vDerivative)), old(|g.vDeleted|),
                           old(g.vDerivative), old(g.vAntiDerivative), g.vDerivative, g.vAntiDerivative)
    ensures CreatedInOrder(g.vAntiDerivative, old(|g.vDeleted|), old(|g.vDeleted|))
    ensures old(g.vColored) <= g.vColored && old(g.vDeleted) <= g.vDeleted && old(g.vParameter) <= g.vParameter
    ensures old(g.vAssign) <= g.vAssign
    ensures FreshVariables(g, old(|g.vDeleted|))
  {
    hide Edges, Chains, Deletions, Differentiated, CreatedInOrder;
    ghost var next, previous := g.vDerivative, g.vAntiDerivative;
    ghost var pending := Pending(g.vColored, next);
    NothingCreated(pending, next, previous);
    var vsize := |g.vDeleted|;
    for l := 0 to vsize
      invariant g.Structure() && vsize <= |g.vDeleted|
      invariant Differentiated(pending, l, next, previous, g.vDerivative, g.vAntiDerivative)
      invariant CreatedInOrder(g.vAntiDerivative, vsize, l)
      invariant old(g.vColored) <= g.vColored && old(g.vDeleted) <= g.vDeleted && old(g.vParameter) <= g.vParameter
      invariant old(g.vAssign) <= g.vAssign
      invariant FreshVariables(g, vsize)
    {
      ghost var next', previous' := g.vDerivative, g.vAntiDerivative;
      OneMoreNode(pending, l, next, previous, next', previous');
      if g.vColored[l] && !g.vDeleted[l] {
        var _ := g.CreateVariableDerivative(l);
      }
    }
  }

  /** Equation d contains the variables of i and their derivatives and nothing else. */
  ghost predicate DirtyDerivative(original: Adjacency, vAntiDerivative: Links, i: nat, d: nat)
    requires i < |original| && d < |original|
  {
    HasDirty(original[d], original[i], vAntiDerivative)
  }

  /** The equations from position m on are as `createDerivate` made them. */
  ghost predicate FreshEquations(g: BipartiteGraph, m: nat)
    requires g.Sizes() && m <= |g.eVariables|
    reads g
  {
    forall e :: m <= e < |g.eVariables| ==>
      && !g.eColored[e] && g.eAssign[e].None?
      && g.eDerivativeOf[e].Some? && g.eDerivativeOf[e].value < m
      && DirtyDerivative(g.eOriginalVariables, g.vAntiDerivative, g.eDerivativeOf[e].value, e)
  }

  /** The loop that adds derivatives of the coloured equations. */
  method DifferentiateEquations(g: BipartiteGraph)
    requires g.Structure()
    requires forall e :: 0 <= e < |g.eColored| && g.eColored[e] ==> g.AllHaveDerivatives(e)
    modifies g
    ensures g.Structure() && old(|g.eVariables|) <= |g.eVariables|
    ensures g.SameVariables()
    ensures Differentiated(old(Pending(g.eColored, g.eDerivative)), old(|g.eVariables|),
                           old(g.eDerivative), old(g.eDerivativeOf), g.eDerivative, g.eDerivativeOf)
    ensures CreatedInOrder(g.eDerivativeOf, old(|g.eVariables|), old(|g.eVariables|))
    ensures old(g.eColored) <= g.eColored && old(g.eAssign) <= g.eAssign
    ensures old(g.eOriginalVariables) <= g.eOriginalVariables && old(g.eVariables) <= g.eVariables
    ensures FreshEquations(g, old(|g.eVariables|))
  {
    hide Edges, Chains, Deletions, Differentiated, CreatedInOrder, HasDirty;
    ghost var next, previous := g.eDerivative, g.eDerivativeOf;
    ghost var pending := Pending(g.eColored, next);
    NothingCreated(pending, next, previous);
    var esize := |g.eVariables|;
    for l := 0 to esize
      invariant g.Structure() && esize <= |g.eVariables|
      invariant g.SameVariables()
      invariant Differentiated(pending, l, next, previous, g.eDerivative, g.eDerivativeOf)
      invariant CreatedInOrder(g.eDerivativeOf, esize, l)
      invariant old(g.eColored) <= g.eColored && old(g.eAssign) <= g.eAssign
      invariant old(g.eOriginalVariables) <= g.eOriginalVariables && old(g.eVariables) <= g.eVariables
      invariant FreshEquations(g, esize)
    {
      ghost var next', previous' := g.eDerivative, g.eDerivativeOf;
      OneMoreNode(pending, l, next, previous, next', previous');
      if g.eColored[l] {
        var _ := g.CreateEquationDerivative(l);
      }
    }
  }

  /** A new equation is fine if one of its variables is in some other equation. */
  ghost predicate Connected(original: Adjacency, vEquations: Adjacency, l: nat)
    requires l < |original|
  {
    exists n :: 0 <= n < |original[l]| && original[l][n] < |vEquations| && |vEquations[original[l][n]]| > 1
  }

  /** The structural check on the equations from position esize on. */
  method CheckNewEquations(g: BipartiteGraph, esize: nat) returns (ok: bool)
    requires g.Structure() && esize <= |g.eVariables|
    ensures ok <==> forall l :: esize <= l < |g.eVariables| ==> Connected(g.eOriginalVariables, g.vEquations, l)
  {
    for l := esize to |g.eVariables|
      invariant forall x :: esize <= x < l ==> Connected(g.eOriginalVariables, g.vEquations, x)
    {
      var nvars := g.eOriginalVariables[l];
      OriginalInRange(g.eOriginalVariables, g.eVariables, g.vEquations, g.vDeleted, l);
      ok := false;
      for n := 0 to |nvars|
        invariant ok <==> exists k :: 0 <= k < n && |g.vEquations[nvars[k]]| > 1
      {
        if |g.vEquations[nvars[n]]| > 1 {
          ok := true;
          break;
        }
      }
      if !ok {
        assert !Connected(g.eOriginalVariables, g.vEquations, l);
        return false;
      }
    }
    return true;
  }

  /** The links a rematching reads: those of the derivatives, and the assignments before it. */
  datatype Heritage = Heritage(vDerivative: Links, vAntiDerivative: Links, eDerivative: Links, eDerivativeOf: Links,
                               vAssign: Links, eAssign: Links)

  /** Variable v, among the first n, and its equation, among the first m, have younger derivatives. */
  ghost predicate HasHeirs(h: Heritage, n: nat, m: nat, v: nat) {
    && v < n <= |h.vAssign| == |h.vDerivative| == |h.vAntiDerivative|
    && m <= |h.eAssign| == |h.eDerivative| == |h.eDerivativeOf|
    && h.vDerivative[v].Some? && n <= h.vDerivative[v].value < |h.vAssign|
    && h.vAntiDerivative[h.vDerivative[v].value] == Some(v)
    && h.vAssign[v].Some?
    && var e := h.vAssign[v].value;
    && e < m && h.eAssign[e] == Some(v)
    && h.eDerivative[e].Some? && m <= h.eDerivative[e].value < |h.eAssign|
    && h.eDerivativeOf[h.eDerivative[e].value] == Some(e)
  }

  /** The variables after the marked ones before l passed their equations on to the derivatives. */
  ghost predicate RematchedVariables(colored: seq<bool>, l: nat, n: nat, m: nat, h: Heritage, vAssign': Links) {
    && l <= |colored| == |h.vAssign| == |vAssign'|
    && (forall v: nat :: v < l && colored[v] && HasHeirs(h, n, m, v) ==>
          vAssign'[h.vDerivative[v].value] == h.eDerivative[h.vAssign[v].value])
    && (forall d: nat :: d < |vAssign'| && vAssign'[d] != h.vAssign[d] ==>
          d >= n && d < |h.vAntiDerivative| && h.vAntiDerivative[d].Some?
          && h.vAntiDerivative[d].value < l && colored[h.vAntiDerivative[d].value])
  }

  /** The equations of the marked variables before l passed these variables' derivatives on. */
  ghost predicate EquationsInherit(colored: seq<bool>, l: nat, n: nat, m: nat, h: Heritage, eAssign': Links) {
    && l <= |colored| == |h.vAssign| && |h.eAssign| == |eAssign'|
    && forall v: nat :: v < l && colored[v] && HasHeirs(h, n, m, v) ==>
         eAssign'[h.eDerivative[h.vAssign[v].value].value] == h.vDerivative[v]
  }

  /** Equation f is the derivative of the equation of a marked variable before l. */
  ghost predicate Inherits(colored: seq<bool>, l: nat, m: nat, h: Heritage, f: nat) {
    && f >= m && f < |h.eDerivativeOf| && h.eDerivativeOf[f].Some?
    && h.eDerivativeOf[f].value < m <= |h.eAssign| && h.eAssign[h.eDerivativeOf[f].value].Some?
    && var v := h.eAssign[h.eDerivativeOf[f].value].value;
    && v < l <= |colored| == |h.vAssign| && colored[v] && h.vAssign[v] == h.eDerivativeOf[f]
  }

  ghost predicate OthersKeep(colored: seq<bool>, l: nat, m: nat, h: Heritage, eAssign': Links) {
    && |h.eAssign| == |eAssign'|
    && forall f: nat :: f < |eAssign'| && eAssign'[f] != h.eAssign[f] ==> Inherits(colored, l, m, h, f)
  }

  /** The equations after the marked variables before l passed their equations on to the derivatives. */
  ghost predicate RematchedEquations(colored: seq<bool>, l: nat, n: nat, m: nat, h: Heritage, eAssign': Links) {
    EquationsInherit(colored, l, n, m, h, eAssign') && OthersKeep(colored, l, m, h, eAssign')
  }

  ghost predicate Rematched(colored: seq<bool>, l: nat, n: nat, m: nat, h: Heritage, vAssign': Links, eAssign': Links) {
    RematchedVariables(colored, l, n, m, h, vAssign') && RematchedEquations(colored, l, n, m, h, eAssign')
  }

  lemma {:induction false} RematchVariable(colored: seq<bool>, l: nat, n: nat, m: nat, h: Heritage, vAssign': Links)
    requires RematchedVariables(colored, l, n, m, h, vAssign') && l < |colored|
    requires colored[l] ==> HasHeirs(h, n, m, l)
    ensures !colored[l] ==> RematchedVariables(colored, l + 1, n, m, h, vAssign')
    ensures colored[l] ==>
      && vAssign'[l] == h.vAssign[l]
      && RematchedVariables(colored, l + 1, n, m, h,
                            vAssign'[h.vDerivative[l].value := h.eDerivative[h.vAssign[l].value]])
  {}

  lemma {:induction false} EquationInherits(colored: seq<bool>, l: nat, n: nat, m: nat, h: Heritage, eAssign': Links)
    requires EquationsInherit(colored, l, n, m, h, eAssign') && l < |colored| && colored[l] && HasHeirs(h, n, m, l)
    ensures
      EquationsInherit(colored, l + 1, n, m, h, eAssign'[h.eDerivative[h.vAssign[l].value].value := h.vDerivative[l]])
  {
    forall v: nat | v < l && HasHeirs(h, n, m, v)
      ensures h.eDerivative[h.vAssign[v].value] != h.eDerivative[h.vAssign[l].value]
    {}
  }

  lemma {:induction false} OthersKept(colored: seq<bool>, l: nat, n: nat, m: nat, h: Heritage, eAssign': Links)
    requires OthersKeep(colored, l, m, h, eAssign') && l < |colored| == |h.vAssign|
    requires colored[l] ==> HasHeirs(h, n, m, l)
    ensures OthersKeep(colored, l + 1, m, h, eAssign')
    ensures colored[l] ==>
      OthersKeep(colored, l + 1, m, h, eAssign'[h.eDerivative[h.vAssign[l].value].value := h.vDerivative[l]])
  {
    forall f: nat | Inherits(colored, l, m, h, f)
      ensures Inherits(colored, l + 1, m, h, f)
    {}
    if colored[l] {
      assert Inherits(colored, l + 1, m, h, h.eDerivative[h.vAssign[l].value].value);
    }
    hide Inherits;
  }

  lemma {:induction false} RematchEquation(colored: seq<bool>, l: nat, n: nat, m: nat, h: Heritage, eAssign': Links)
    requires RematchedEquations(colored, l, n, m, h, eAssign') && l < |colored|
    requires colored[l] ==> HasHeirs(h, n, m, l)
    ensures !colored[l] ==> RematchedEquations(colored, l + 1, n, m, h, eAssign')
    ensures colored[l] ==>
      RematchedEquations(colored, l + 1, n, m, h, eAssign'[h.eDerivative[h.vAssign[l].value].value := h.vDerivative[l]])
  {
    OthersKept(colored, l, n, m, h, eAssign');
    hide OthersKeep;
    if colored[l] {
      EquationInherits(colored, l, n, m, h, eAssign');
      hide EquationsInherit;
    }
  }

  ghost function HeritageOf(g: BipartiteGraph): Heritage
    reads g
  {
    Heritage(g.vDerivative, g.vAntiDerivative, g.eDerivative, g.eDerivativeOf, g.vAssign, g.eAssign)
  }

  /** The loop that matches the derivatives of the coloured variables. */
  method Rematch(g: BipartiteGraph, ghost n: nat, ghost m: nat)
    requires g.Sizes()
    requires forall v :: 0 <= v < |g.vColored| && g.vColored[v] ==> !g.vDeleted[v] && HasHeirs(HeritageOf(g), n, m, v)
    modifies g`vAssign, g`eAssign
    ensures g.Sizes()
    ensures Rematched(g.vColored, |g.vColored|, n, m, old(HeritageOf(g)), g.vAssign, g.eAssign)
  {
    hide RematchedVariables, RematchedEquations;
    ghost var h := HeritageOf(g);
    RematchNothing(g.vColored, n, m, h);
    for l := 0 to |g.vColored|
      invariant g.Sizes()
      invariant Rematched(g.vColored, l, n, m, h, g.vAssign, g.eAssign)
    {
      RematchVariable(g.vColored, l, n, m, h, g.vAssign);
      RematchEquation(g.vColored, l, n, m, h, g.eAssign);
      if g.vColored[l] && !g.vDeleted[l] {
        g.SetAssignmentEquation(g.vDerivative[l].value, g.eDerivative[g.vAssign[l].value].value);
      }
    }
  }

  lemma {:induction false} RematchNothing(colored: seq<bool>, n: nat, m: nat, h: Heritage)
    requires |colored| == |h.vAssign|
    ensures Rematched(colored, 0, n, m, h, h.vAssign, h.eAssign)
  {}

  // ---------------------------------------------------------------------------------------------
  // The invariant of the outer loops

  /** Equations k + 1 to count - 1 of the model were not looked at yet. */
  predicate Waiting(k: nat, count: nat, e: nat) {
    k < e < count
  }

  /**
    While equation number k is dealt with, i being its youngest derivative: the assignments of the
    variables without derivatives form a matching of exactly the equations without derivatives, other
    than i and those still waiting.
   */
  ghost predicate Invariant(s: State, k: nat, count: nat, i: nat) {
    && s.Sizes()
    && i < |s.vars| && s.eDerivative[i].None? && !Waiting(k, count, i) && count <= |s.vars|
    && (forall e :: k < e < count ==> s.eDerivative[e].None?)
    && IsMatching(s.vars, Spent(s.vDeleted, s.vDerivative), s.vAssign, s.eAssign)
    && (forall e: nat :: e < |s.vars| ==>
          (IsMatched(Spent(s.vDeleted, s.vDerivative), s.vAssign, s.eAssign, e) <==>
            s.eDerivative[e].None? && e != i && !Waiting(k, count, e)))
  }

  /** No variable with a derivative is left, and equation number k is dealt with. */
  ghost predicate Done(s: State, k: int, count: nat) {
    && s.Sizes() && -1 <= k < count <= |s.vars|
    && s.vDeleted == Spent(s.vDeleted, s.vDerivative)
    && (forall e :: k < e < count ==> s.eDerivative[e].None?)
    && IsMatching(s.vars, s.vDeleted, s.vAssign, s.eAssign)
    && (forall e: nat :: e < |s.vars| ==>
          (IsMatched(s.vDeleted, s.vAssign, s.eAssign, e) <==> s.eDerivative[e].None? && !(k < e < count)))
  }

  /** Deleting the spent variables keeps the invariant. */
  lemma {:induction false} DeletionKeepsInvariant(s: State, t: State, vEquations: Adjacency, vEquations': Adjacency,
                                                  k: nat, count: nat, i: nat)
    requires Invariant(s, k, count, i)
    requires t == s.(vDeleted := Spent(s.vDeleted, s.vDerivative), vars := t.vars)
    requires Edges(s.original, s.vars, vEquations, s.vDeleted) && Edges(t.original, t.vars, vEquations', t.vDeleted)
    ensures Invariant(t, k, count, i) && t.vDeleted == Spent(t.vDeleted, t.vDerivative)
  {
    var spent := Spent(s.vDeleted, s.vDerivative);
    assert Spent(t.vDeleted, t.vDerivative) == spent;
    forall v: nat | v < |spent| && !spent[v]
      ensures RealAssignment(t.vars, t.vAssign, t.eAssign, v)
    {
      assert RealAssignment(s.vars, s.vAssign, s.eAssign, v);
    }
  }

  /** The search may start at i. */
  lemma {:induction false} InvariantEntry(s: State, vEquations: Adjacency, search: Search, k: nat, count: nat, i: nat)
    requires Invariant(s, k, count, i) && s.vDeleted == Spent(s.vDeleted, s.vDerivative)
    requires Edges(s.original, s.vars, vEquations, s.vDeleted)
    requires search.vAssign == s.vAssign && search.eAssign == s.eAssign
    requires Fits(s.vars, s.vDeleted, search) && NothingColored(search)
    ensures Entry(s.vars, s.vDeleted, search, i, i)
  {}

  /** A path was found. */
  lemma {:induction false} SuccessIsDone(s: State, search: Search, found: Search, k: nat, count: nat, i: nat)
    requires Invariant(s, k, count, i) && s.vDeleted == Spent(s.vDeleted, s.vDerivative)
    requires k < count
    requires search.vAssign == s.vAssign && search.eAssign == s.eAssign
    requires Entry(s.vars, s.vDeleted, search, i, i)
    requires Fits(s.vars, s.vDeleted, found) && Augmented(s.vars, s.vDeleted, search, found, i)
    ensures Done(s.(vAssign := found.vAssign, eAssign := found.eAssign), k, count)
  {
    RootSuccess(s.vars, s.vDeleted, search, found, i);
  }

  /** The next equation of the model. */
  lemma {:induction false} NextEquation(s: State, k: int, count: nat)
    requires Done(s, k, count) && k + 1 < count
    ensures Invariant(s, k + 1, count, k + 1)
  {}

  /** No path was found: what the certificate says about the marked nodes. */
  lemma {:induction false} FailureMarks(s: State, search: Search, failed: Search, k: nat, count: nat, i: nat)
    requires Invariant(s, k, count, i) && s.vDeleted == Spent(s.vDeleted, s.vDerivative)
    requires search.vAssign == s.vAssign && search.eAssign == s.eAssign
    requires Entry(s.vars, s.vDeleted, search, i, i) && NothingColored(search)
    requires Failed(s.vars, s.vDeleted, search, failed, i, i)
    ensures failed.vAssign == s.vAssign && failed.eAssign == s.eAssign
    ensures Certificate(s.vars, s.vDeleted, s.vAssign, s.eAssign, failed.vColored, failed.eColored, i)
    ensures Count(failed.eColored) == Count(failed.vColored) + 1
    ensures LeastDeficient(s.vars, MatchedEquations(s.vDeleted, s.vAssign, s.eAssign) + {i}, Chosen(failed.eColored))
    ensures Neighbors(s.vars, Chosen(failed.eColored)) == Chosen(failed.vColored)
    ensures Pending(failed.vColored, s.vDerivative) == failed.vColored
    ensures Pending(failed.eColored, s.eDerivative) == failed.eColored
    ensures forall v :: 0 <= v < |failed.vColored| && failed.vColored[v] ==> !s.vDeleted[v]
  {
    RootFailure(s.vars, s.vDeleted, search, failed, i);
    FailureIsLeast(s.vars, s.vDeleted, search, failed, i);
    hide LeastDeficient, Neighbors, Failed;
    forall e: nat | e < |failed.eColored| && failed.eColored[e]
      ensures s.eDerivative[e].None?
    {
      assert e != i ==> IsMatched(s.vDeleted, s.vAssign, s.eAssign, e);
    }
  }

  /** The state after the derivatives were created, before the rematching. */
  ghost predicate Grew(s: State, t: State, vColored: seq<bool>, eColored: seq<bool>) {
    && s.Sizes() && t.Sizes() && |vColored| == |s.vDeleted| && |eColored| == |s.vars|
    && Differentiated(vColored, |vColored|, s.vDerivative, s.vAntiDerivative, t.vDerivative, t.vAntiDerivative)
    && Differentiated(eColored, |eColored|, s.eDerivative, s.eDerivativeOf, t.eDerivative, t.eDerivativeOf)
    && s.vDeleted <= t.vDeleted && s.vAssign <= t.vAssign
    && (forall v :: |s.vDeleted| <= v < |t.vDeleted| ==> !t.vDeleted[v] && t.vAssign[v].None?)
    && s.original <= t.original && s.vars <= t.vars && s.eAssign <= t.eAssign
    && (forall e :: |s.vars| <= e < |t.vars| ==>
          && t.eAssign[e].None? && t.eDerivativeOf[e].Some?
          && t.eDerivativeOf[e].value < |s.vars| && DirtyDerivative(t.original, t.vAntiDerivative,
                                                                    t.eDerivativeOf[e].value, e))
    && Chains(t.vDerivative, t.vAntiDerivative) && Chains(t.eDerivative, t.eDerivativeOf)
  }

  /** The state after the derivatives of the marked variables were created. */
  ghost predicate GrewVariables(s: State, t: State, vColored: seq<bool>) {
    && s.Sizes() && t.Sizes() && |vColored| == |s.vDeleted|
    && Differentiated(vColored, |vColored|, s.vDerivative, s.vAntiDerivative, t.vDerivative, t.vAntiDerivative)
    && s.vDeleted <= t.vDeleted && s.vAssign <= t.vAssign
    && (forall v :: |s.vDeleted| <= v < |t.vDeleted| ==> !t.vDeleted[v] && t.vAssign[v].None?)
    && t.original == s.original && t.vars == s.vars && t.eAssign == s.eAssign
    && t.eDerivative == s.eDerivative && t.eDerivativeOf == s.eDerivativeOf
    && Chains(t.vDerivative, t.vAntiDerivative)
  }

  /** The state after the derivatives of the marked equations were created as well. */
  ghost predicate GrewEquations(s: State, t: State, eColored: seq<bool>) {
    && s.Sizes() && t.Sizes() && |eColored| == |s.vars|
    && Differentiated(eColored, |eColored|, s.eDerivative, s.eDerivativeOf, t.eDerivative, t.eDerivativeOf)
    && t.vDeleted == s.vDeleted && t.vAssign == s.vAssign
    && t.vDerivative == s.vDerivative && t.vAntiDerivative == s.vAntiDerivative
    && s.original <= t.original && s.vars <= t.vars && s.eAssign <= t.eAssign
    && (forall e :: |s.vars| <= e < |t.vars| ==>
          && t.eAssign[e].None? && t.eDerivativeOf[e].Some?
          && t.eDerivativeOf[e].value < |s.vars| && DirtyDerivative(t.original, t.vAntiDerivative,
                                                                    t.eDerivativeOf[e].value, e))
    && Chains(t.eDerivative, t.eDerivativeOf)
  }

  lemma {:induction false} GrewBoth(s: State, r: State, t: State, vColored: seq<bool>, eColored: seq<bool>)
    requires GrewVariables(s, r, vColored) && GrewEquations(r, t, eColored)
    ensures Grew(s, t, vColored, eColored)
    ensures |t.vDeleted| == |s.vDeleted| + Count(vColored) && |t.vars| == |s.vars| + Count(eColored)
  {
    assert vColored[..|vColored|] == vColored && eColored[..|eColored|] == eColored;
  }

  ghost function Passed(t: State): Heritage {
    Heritage(t.vDerivative, t.vAntiDerivative, t.eDerivative, t.eDerivativeOf, t.vAssign, t.eAssign)
  }

  /** Every marked variable and its equation have derivatives, which are new. */
  lemma {:induction false} MarkedHaveHeirs(s: State, t: State, vColored: seq<bool>, eColored: seq<bool>, i: nat, v: nat)
    requires Certificate(s.vars, s.vDeleted, s.vAssign, s.eAssign, vColored, eColored, i)
    requires Grew(s, t, vColored, eColored)
    requires v < |vColored| && vColored[v]
    ensures HasHeirs(Passed(t), |s.vDeleted|, |s.vars|, v)
    ensures |t.vDeleted| >= |vColored| && !t.vDeleted[v]
  {
    assert RealAssignment(s.vars, s.vAssign, s.eAssign, v);
  }

  lemma {:induction false} AllMarkedHaveHeirs(s: State, t: State, vColored: seq<bool>, eColored: seq<bool>, i: nat,
                                              colored': seq<bool>)
    requires Certificate(s.vars, s.vDeleted, s.vAssign, s.eAssign, vColored, eColored, i)
    requires Grew(s, t, vColored, eColored)
    requires vColored <= colored' && forall v :: |vColored| <= v < |colored'| ==> !colored'[v]
    ensures forall v :: 0 <= v < |colored'| && colored'[v] ==>
      v < |t.vDeleted| && !t.vDeleted[v] && HasHeirs(Passed(t), |s.vDeleted|, |s.vars|, v)
  {
    forall v | 0 <= v < |colored'| && colored'[v]
      ensures v < |t.vDeleted| && !t.vDeleted[v] && HasHeirs(Passed(t), |s.vDeleted|, |s.vars|, v)
    {
      MarkedHaveHeirs(s, t, vColored, eColored, i, v);
    }
  }

  /** The derivative of a marked variable is in the derivative of its equation. */
  lemma {:induction false} HeirEdge(s: State, t: State, vEquations: Adjacency, vEquations': Adjacency,
                                    vColored: seq<bool>, eColored: seq<bool>, i: nat, v: nat)
    requires Certificate(s.vars, s.vDeleted, s.vAssign, s.eAssign, vColored, eColored, i)
    requires Grew(s, t, vColored, eColored)
    requires Edges(s.original, s.vars, vEquations, s.vDeleted) && Edges(t.original, t.vars, vEquations', t.vDeleted)
    requires v < |vColored| && vColored[v]
    ensures HasHeirs(Passed(t), |s.vDeleted|, |s.vars|, v)
    ensures t.vDerivative[v].value in t.vars[t.eDerivative[t.vAssign[v].value].value]
  {
    MarkedHaveHeirs(s, t, vColored, eColored, i, v);
    var e, d, f := s.vAssign[v].value, t.vDerivative[v].value, t.eDerivative[s.vAssign[v].value].value;
    assert RealAssignment(s.vars, s.vAssign, s.eAssign, v);
    assert v in s.original[e] && v in t.original[e];
    assert DirtyDerivative(t.original, t.vAntiDerivative, e, f);
    assert d in t.original[f];
  }

  /** How the nodes that were there before the failed search come out of it. */
  ghost predicate OldNodes(s: State, u: State, vColored: seq<bool>, eColored: seq<bool>) {
    && s.Sizes() && u.Sizes() && |s.vDeleted| == |vColored| <= |u.vDeleted| && |s.vars| == |eColored| <= |u.vars|
    && (forall e :: 0 <= e < |s.vars| ==>
          u.eAssign[e] == s.eAssign[e] && u.eDerivative[e].None? == (s.eDerivative[e].None? && !eColored[e]))
    && (forall v :: 0 <= v < |s.vDeleted| ==>
          u.vAssign[v] == s.vAssign[v] && (u.vDeleted[v] || u.vDerivative[v].Some?) == (s.vDeleted[v] || vColored[v]))
    && (forall v :: |s.vDeleted| <= v < |u.vDeleted| && u.vAssign[v].Some? ==> u.vAssign[v].value >= |s.vars|)
  }

  /** Rematching only touches new nodes. */
  lemma {:induction false} RematchedIsNew(colored: seq<bool>, n: nat, m: nat, h: Heritage, vAssign': Links,
                                          eAssign': Links)
    requires Rematched(colored, |colored|, n, m, h, vAssign', eAssign')
    ensures |vAssign'| == |h.vAssign| && |eAssign'| == |h.eAssign|
    ensures forall d :: 0 <= d < n && d < |vAssign'| ==> vAssign'[d] == h.vAssign[d]
    ensures forall f :: 0 <= f < m && f < |eAssign'| ==> eAssign'[f] == h.eAssign[f]
  {}

  lemma {:induction false} OldEquationMatched(s: State, u: State, vColored: seq<bool>, eColored: seq<bool>, k: nat,
                                              count: nat, i: nat, e: nat)
    requires Invariant(s, k, count, i) && s.vDeleted == Spent(s.vDeleted, s.vDerivative)
    requires Certificate(s.vars, s.vDeleted, s.vAssign, s.eAssign, vColored, eColored, i)
    requires OldNodes(s, u, vColored, eColored)
    requires e < |s.vars|
    ensures IsMatched(Spent(u.vDeleted, u.vDerivative), u.vAssign, u.eAssign, e) <==>
      u.eDerivative[e].None? && !Waiting(k, count, e)
  {
    if IsMatched(s.vDeleted, s.vAssign, s.eAssign, e) {
      assert RealAssignment(s.vars, s.vAssign, s.eAssign, s.eAssign[e].value);
    }
  }

  lemma {:induction false} NewEquationOrigin(s: State, t: State, vColored: seq<bool>, eColored: seq<bool>, i: nat,
                                             f: nat) returns (e: nat)
    requires Grew(s, t, vColored, eColored) && i < |eColored| && eColored[i]
    requires |s.vars| <= f < |t.vars|
    ensures t.eDerivativeOf[f] == Some(e) && e < |eColored| && eColored[e] && t.eDerivative[e] == Some(f)
    ensures t.eDerivative[f].None? && t.eDerivative[i].Some? && (e == i <==> t.eDerivative[i] == Some(f))
  {
    e := t.eDerivativeOf[f].value;
  }

  lemma {:induction false} DerivativeIsNew(s: State, t: State, vColored: seq<bool>, eColored: seq<bool>, i: nat)
    requires Grew(s, t, vColored, eColored) && i < |eColored| && eColored[i]
    ensures t.eDerivative[i].Some? && |s.vars| <= t.eDerivative[i].value < |t.vars|
  {}

  /**
    One failed search at equation i, while equation number k is dealt with: the state s before it, t with
    the derivatives, and u after the rematching.
   */
  datatype FailedStep = FailedStep(
    s: State, t: State, u: State, vEquations: Adjacency, vEquations': Adjacency,
    vColored: seq<bool>, colored': seq<bool>, eColored: seq<bool>, k: nat, count: nat, i: nat)
  {
    ghost predicate Valid() {
      && Invariant(s, k, count, i) && s.vDeleted == Spent(s.vDeleted, s.vDerivative)
      && Certificate(s.vars, s.vDeleted, s.vAssign, s.eAssign, vColored, eColored, i)
      && Grew(s, t, vColored, eColored)
      && Edges(s.original, s.vars, vEquations, s.vDeleted) && Edges(t.original, t.vars, vEquations', t.vDeleted)
      && vColored <= colored' && |colored'| == |t.vDeleted|
      && (forall v :: |vColored| <= v < |colored'| ==> !colored'[v])
      && u == t.(vAssign := u.vAssign, eAssign := u.eAssign)
      && Rematched(colored', |colored'|, |s.vDeleted|, |s.vars|, Passed(t), u.vAssign, u.eAssign)
    }

    /** A new variable is assigned to the derivative of the equation of the variable it came from. */
    lemma {:induction false} NewVariableAssigned(d: nat)
      requires Valid()
      requires |s.vDeleted| <= d < |u.vDeleted|
      ensures t.vAntiDerivative[d].Some? && t.vAntiDerivative[d].value < |vColored|
      ensures vColored[t.vAntiDerivative[d].value]
      ensures var v := t.vAntiDerivative[d].value;
        && HasHeirs(Passed(t), |s.vDeleted|, |s.vars|, v)
        && t.vDerivative[v] == Some(d) && u.vAssign[d] == t.eDerivative[t.vAssign[v].value]
        && u.eAssign[u.vAssign[d].value] == Some(d)
    {
      hide Invariant, Edges, DirtyDerivative, IsMatching, Certificate;
      var v := t.vAntiDerivative[d].value;
      MarkedHaveHeirs(s, t, vColored, eColored, i, v);
    }

    lemma {:induction false} OldStaysAssigned(d: nat)
      requires Valid() && d < |s.vDeleted| && !Spent(u.vDeleted, u.vDerivative)[d]
      ensures RealAssignment(u.vars, u.vAssign, u.eAssign, d)
    {
      hide Edges, Chains, DirtyDerivative, Rematched, Certificate;
      RematchedIsNew(colored', |s.vDeleted|, |s.vars|, Passed(t), u.vAssign, u.eAssign);
      assert RealAssignment(s.vars, s.vAssign, s.eAssign, d);
    }

    lemma {:induction false} NewIsAssigned(d: nat)
      requires Valid() && |s.vDeleted| <= d < |u.vDeleted|
      ensures RealAssignment(u.vars, u.vAssign, u.eAssign, d)
    {
      NewVariableAssigned(d);
      HeirEdge(s, t, vEquations, vEquations', vColored, eColored, i, t.vAntiDerivative[d].value);
      hide Edges, Chains, DirtyDerivative, Rematched, Certificate, Invariant, Differentiated;
    }

    /** After the rematching the matching is real again. */
    lemma {:induction false} RematchedIsMatching()
      requires Valid()
      ensures IsMatching(u.vars, Spent(u.vDeleted, u.vDerivative), u.vAssign, u.eAssign)
    {
      assert u.Sizes();
      hide Valid, RealAssignment;
      forall d: nat | d < |u.vDeleted| && !Spent(u.vDeleted, u.vDerivative)[d]
        ensures RealAssignment(u.vars, u.vAssign, u.eAssign, d)
      {
        if d < |s.vDeleted| {
          OldStaysAssigned(d);
        } else {
          NewIsAssigned(d);
        }
      }
    }

    lemma {:induction false} OldNodesKept()
      requires Valid()
      ensures OldNodes(s, u, vColored, eColored)
    {
      hide Invariant, Edges, Chains, DirtyDerivative, Rematched, Certificate;
      RematchedIsNew(colored', |s.vDeleted|, |s.vars|, Passed(t), u.vAssign, u.eAssign);
      forall v: nat | |s.vDeleted| <= v < |u.vDeleted| && u.vAssign[v].Some?
        ensures u.vAssign[v].value >= |s.vars|
      {
        NewVariableAssigned(v);
      }
    }

    lemma {:induction false} RematchedRoot(f: nat)
      requires Valid()
      requires |s.vars| <= f < |u.vars| && t.eDerivativeOf[f] == Some(i)
      ensures !IsMatched(Spent(u.vDeleted, u.vDerivative), u.vAssign, u.eAssign, f)
    {
      hide Edges, DirtyDerivative, Chains;
      assert u.eAssign[f] == t.eAssign[f];
    }

    lemma {:induction false} RematchedOther(f: nat, e: nat)
      requires Valid()
      requires |s.vars| <= f < |u.vars| && t.eDerivativeOf[f] == Some(e) && e < |eColored| && eColored[e]
      requires t.eDerivative[e] == Some(f)
      requires e != i
      ensures IsMatched(Spent(u.vDeleted, u.vDerivative), u.vAssign, u.eAssign, f)
    {
      hide Edges, DirtyDerivative, Chains, IsMatching, Invariant;
      var v := s.eAssign[e].value;
      MarkedHaveHeirs(s, t, vColored, eColored, i, v);
    }

    lemma {:induction false} NewEquationMatched(f: nat)
      requires Valid()
      requires |s.vars| <= f < |u.vars|
      ensures u.eDerivative[f].None? && u.eDerivative[i].Some?
      ensures IsMatched(Spent(u.vDeleted, u.vDerivative), u.vAssign, u.eAssign, f) <==> Some(f) != u.eDerivative[i]
    {
      var e := NewEquationOrigin(s, t, vColored, eColored, i, f);
      if e == i {
        RematchedRoot(f);
      } else {
        RematchedOther(f, e);
      }
    }

    /** After the rematching exactly the right equations are matched; the derivative of i is next. */
    lemma {:induction false} FailureKeepsInvariant()
      requires Valid()
      ensures u.eDerivative[i].Some? && Invariant(u, k, count, u.eDerivative[i].value)
    {
      hide Rematched, Grew, Edges, IsMatching, IsMatched;
      RematchedIsMatching();
      OldNodesKept();
      forall e: nat | e < |u.vars|
        ensures e < |s.vars| ==> (IsMatched(Spent(u.vDeleted, u.vDerivative), u.vAssign, u.eAssign, e) <==>
                                    u.eDerivative[e].None? && !Waiting(k, count, e))
        ensures e >= |s.vars| ==>
          && u.eDerivative[e].None?
          && (IsMatched(Spent(u.vDeleted, u.vDerivative), u.vAssign, u.eAssign, e) <==> Some(e) != u.eDerivative[i])
      {
        if e < |s.vars| {
          OldEquationMatched(s, u, vColored, eColored, k, count, i, e);
        } else {
          NewEquationMatched(e);
        }
      }
      DerivativeIsNew(s, t, vColored, eColored, i);
    }
  }

  // ---------------------------------------------------------------------------------------------
  // The algorithm

  /** All variables of a coloured equation have derivatives once the coloured variables have them. */
  lemma {:induction false} ColoredEquationReady(s: State, vEquations: Adjacency, vColored: seq<bool>,
                                                eColored: seq<bool>, i: nat,
                                                h: History, h': History, e: nat)
    requires Certificate(s.vars, s.vDeleted, s.vAssign, s.eAssign, vColored, eColored, i)
    requires Edges(s.original, s.vars, vEquations, s.vDeleted) && Deletions(s.vDeleted, h.parameter, s.vDerivative)
    requires Differentiated(vColored, |vColored|, s.vDerivative, s.vAntiDerivative, h'.next, h'.previous)
    requires h.original == s.original && e < |eColored| && e < |h.original| && eColored[e]
    ensures Ready(h, h', e)
  {
    hide IsMatching, IsMatched, NoDuplicates;
    forall v: nat {:trigger v in h.original[e]} | v in h.original[e] && v < |h.parameter| && !h.parameter[v]
      ensures v < |h'.next| && h'.next[v].Some?
    {
      assert s.vDeleted[v] || v in s.vars[e];
    }
  }

  lemma {:induction false} SubsetReady(s: State, vEquations: Adjacency, vColored: seq<bool>, eColored: seq<bool>,
                                       i: nat,
                                       h: History, h': History)
    requires Certificate(s.vars, s.vDeleted, s.vAssign, s.eAssign, vColored, eColored, i)
    requires Edges(s.original, s.vars, vEquations, s.vDeleted) && Deletions(s.vDeleted, h.parameter, s.vDerivative)
    requires Differentiated(vColored, |vColored|, s.vDerivative, s.vAntiDerivative, h'.next, h'.previous)
    requires h.original == s.original
    ensures AllReady(h, h', eColored)
  {
    hide Certificate, Edges, Deletions, Differentiated, Ready;
    forall e: nat | e < |eColored| && eColored[e] && e < |h.original|
      ensures Ready(h, h', e)
    {
      ColoredEquationReady(s, vEquations, vColored, eColored, i, h, h', e);
    }
  }

  lemma {:induction false} ReadyHasDerivatives(g: BipartiteGraph, h: History, eColored: seq<bool>)
    requires g.Structure() && AllReady(h, HistoryOf(g), eColored) && h.original == g.eOriginalVariables
    requires eColored == g.eColored
    requires h.parameter <= g.vParameter
    requires forall e: nat :: e < |h.original| ==> NoneAbove(h.original[e], |h.parameter|)
    ensures forall e :: 0 <= e < |g.eColored| && g.eColored[e] ==> g.AllHaveDerivatives(e)
  {
    hide Edges, Chains, Deletions;
    forall e: nat | e < |g.eColored| && g.eColored[e]
      ensures g.AllHaveDerivatives(e)
    {
      assert Ready(h, HistoryOf(g), e) && NoneAbove(h.original[e], |h.parameter|);
      forall k | 0 <= k < |g.eOriginalVariables[e]| && g.eOriginalVariables[e][k] < |g.vDerivative|
        ensures g.HasDerivative(g.eOriginalVariables[e][k])
      {
        assert g.eOriginalVariables[e][k] in h.original[e];
      }
    }
  }

  lemma {:induction false} OriginalsInRange(s: State, vEquations: Adjacency, n: nat)
    requires Edges(s.original, s.vars, vEquations, s.vDeleted) && n == |s.vDeleted|
    ensures forall e: nat :: e < |s.original| ==> NoneAbove(s.original[e], n)
  {
    forall e: nat | e < |s.original|
      ensures NoneAbove(s.original[e], n)
    {
      RowsInRange(s.original, s.vars, vEquations, s.vDeleted, e);
    }
    hide Edges;
  }

  lemma {:induction false} NewEquationGrew(s: State, t: State, vColored: seq<bool>, eColored: seq<bool>,
                                           vEquations': Adjacency,
                                           h': History, e: nat)
    requires Grew(s, t, vColored, eColored) && Edges(t.original, t.vars, vEquations', t.vDeleted)
    requires h'.original == t.original && h'.next == t.vDerivative && h'.previous == t.vAntiDerivative
    requires h'.ePrevious == t.eDerivativeOf
    requires |s.original| <= e < |t.original|
    ensures NewEquation(h', e, |s.original|)
  {
    RowsInRange(t.original, t.vars, vEquations', t.vDeleted, e);
    assert DirtyDerivative(t.original, t.vAntiDerivative, t.eDerivativeOf[e].value, e);
    hide Edges, Differentiated, Chains, HasDirty;
  }

  /** The derivatives created after a failed search are one step in the history of the graph. */
  lemma {:induction false} GrewIsStep(s: State, t: State, vColored: seq<bool>, eColored: seq<bool>,
                                      vEquations': Adjacency,
                                      h: History, h': History)
    requires Grew(s, t, vColored, eColored) && Count(eColored) == Count(vColored) + 1
    requires Pending(vColored, s.vDerivative) == vColored && Pending(eColored, s.eDerivative) == eColored
    requires Edges(t.original, t.vars, vEquations', t.vDeleted)
    requires h == History(s.original, s.vDerivative, s.vAntiDerivative, h.parameter, s.eDerivative, s.eDerivativeOf)
    requires h' == History(t.original, t.vDerivative, t.vAntiDerivative, h'.parameter, t.eDerivative, t.eDerivativeOf)
    requires |h'.parameter| == |t.vDeleted| && h.parameter <= h'.parameter
    requires forall v :: |h.parameter| <= v < |h'.parameter| ==> !h'.parameter[v]
    requires AllReady(h, h', eColored)
    requires |t.vDeleted| == |s.vDeleted| + Count(vColored) && |t.vars| == |s.vars| + Count(eColored)
    requires CreatedInOrder(t.vAntiDerivative, |s.vDeleted|, |s.vDeleted|)
    requires CreatedInOrder(t.eDerivativeOf, |s.vars|, |s.vars|)
    ensures Step(h, h', vColored, eColored)
  {
    forall e: nat | |h.original| <= e < |h'.original|
      ensures NewEquation(h', e, |h.original|)
    {
      NewEquationGrew(s, t, vColored, eColored, vEquations', h', e);
    }
    hide Edges, Differentiated, Chains, DirtyDerivative, Extended, NewEquation, AllReady, Pending, Count,
      CreatedInOrder;
  }

  /** The first loop, as a step from one state to the next. */
  method CreateVariables(g: BipartiteGraph, ghost i: nat)
    requires g.Structure()
    requires Certificate(g.eVariables, g.vDeleted, g.vAssign, g.eAssign, g.vColored, g.eColored, i)
    requires Pending(g.vColored, g.vDerivative) == g.vColored
    modifies g`vColored, g`vDeleted, g`vParameter, g`vEquations, g`vAssign, g`vDerivative, g`vAntiDerivative
    ensures g.Structure() && GrewVariables(old(StateOf(g)), StateOf(g), old(g.vColored))
    ensures AllReady(old(HistoryOf(g)), HistoryOf(g), g.eColored)
    ensures forall e :: 0 <= e < |g.eColored| && g.eColored[e] ==> g.AllHaveDerivatives(e)
    ensures old(g.vColored) <= g.vColored && forall v :: old(|g.vColored|) <= v < |g.vColored| ==> !g.vColored[v]
    ensures old(g.vParameter) <= g.vParameter
    ensures forall v :: old(|g.vParameter|) <= v < |g.vParameter| ==> !g.vParameter[v]
    ensures CreatedInOrder(g.vAntiDerivative, old(|g.vDeleted|), old(|g.vDeleted|))
  {
    hide Edges, Chains, Deletions, Differentiated, IsMatching, HasDirty, Pending, CreatedInOrder;
    ghost var s, h, vEquations, vColored := StateOf(g), HistoryOf(g), g.vEquations, g.vColored;
    OriginalsInRange(s, vEquations, |g.vDeleted|);
    DifferentiateVariables(g);
    SubsetReady(s, vEquations, vColored, g.eColored, i, h, HistoryOf(g));
    hide Ready, NoneAbove, Certificate;
    ReadyHasDerivatives(g, h, g.eColored);
    assert GrewVariables(s, StateOf(g), vColored);
  }

  /** The second loop. */
  method CreateEquations(g: BipartiteGraph)
    requires g.Structure() && Pending(g.eColored, g.eDerivative) == g.eColored
    requires forall e :: 0 <= e < |g.eColored| && g.eColored[e] ==> g.AllHaveDerivatives(e)
    modifies g
    ensures g.Structure() && g.SameVariables()
    ensures GrewEquations(old(StateOf(g)), StateOf(g), old(g.eColored))
    ensures CreatedInOrder(g.eDerivativeOf, old(|g.eVariables|), old(|g.eVariables|))
  {
    hide Edges, Chains, Deletions, Differentiated, Pending, CreatedInOrder, HasDirty;
    ghost var s, eColored := StateOf(g), g.eColored;
    DifferentiateEquations(g);
    assert GrewEquations(s, StateOf(g), eColored);
  }

  lemma {:induction false} ReadyStays(h: History, h1: History, h2: History, eColored: seq<bool>)
    requires AllReady(h, h1, eColored) && h2.next == h1.next
    ensures AllReady(h, h2, eColored)
  {
    forall e: nat | e < |eColored| && eColored[e] && e < |h.original|
      ensures Ready(h, h2, e)
    {
      assert Ready(h, h1, e);
    }
  }

  /** The two loops that create the derivatives of the coloured nodes. */
  method CreateSubset(g: BipartiteGraph, ghost i: nat)
    requires g.Structure()
    requires Certificate(g.eVariables, g.vDeleted, g.vAssign, g.eAssign, g.vColored, g.eColored, i)
    requires Pending(g.vColored, g.vDerivative) == g.vColored && Pending(g.eColored, g.eDerivative) == g.eColored
    requires Count(g.eColored) == Count(g.vColored) + 1
    modifies g
    ensures g.Structure()
    ensures Grew(old(StateOf(g)), StateOf(g), old(g.vColored), old(g.eColored))
    ensures Step(old(HistoryOf(g)), HistoryOf(g), old(g.vColored), old(g.eColored))
    ensures old(g.eOriginalVariables) <= g.eOriginalVariables
    ensures old(g.vColored) <= g.vColored && forall v :: old(|g.vColored|) <= v < |g.vColored| ==> !g.vColored[v]
    ensures |g.vDeleted| == old(|g.vDeleted|) + old(Count(g.vColored))
    ensures |g.eVariables| == old(|g.eVariables|) + old(Count(g.eColored))
  {
    hide Edges, Chains, Deletions, Grew, GrewVariables, GrewEquations, Pending, Certificate, AllReady, Step, Count,
      CreatedInOrder, BipartiteGraph.AllHaveDerivatives;
    ghost var s, h, vColored, eColored := StateOf(g), HistoryOf(g), g.vColored, g.eColored;
    CreateVariables(g, i);
    ghost var r, h1 := StateOf(g), HistoryOf(g);
    CreateEquations(g);
    GrewBoth(s, r, StateOf(g), vColored, eColored);
    ReadyStays(h, h1, HistoryOf(g), eColored);
    GrewIsStep(s, StateOf(g), vColored, eColored, g.vEquations, h, HistoryOf(g));
  }

  /** The rematching, seen from the state s before the search failed. */
  method RematchSubset(g: BipartiteGraph, ghost i: nat, ghost k: nat, ghost count: nat,
                       ghost s: State, ghost vEquations: Adjacency, ghost vColored: seq<bool>,
                       ghost eColored: seq<bool>)
    requires g.Structure()
    requires Invariant(s, k, count, i) && s.vDeleted == Spent(s.vDeleted, s.vDerivative)
    requires Certificate(s.vars, s.vDeleted, s.vAssign, s.eAssign, vColored, eColored, i)
    requires Edges(s.original, s.vars, vEquations, s.vDeleted)
    requires Grew(s, StateOf(g), vColored, eColored)
    requires vColored <= g.vColored && forall v :: |vColored| <= v < |g.vColored| ==> !g.vColored[v]
    modifies g`vAssign, g`eAssign
    ensures g.Structure()
    ensures g.eDerivative[i].Some? && Invariant(StateOf(g), k, count, g.eDerivative[i].value)
  {
    hide Certificate, Grew, Rematched, Edges, Chains, Deletions, Invariant, IsMatching, HasHeirs, Spent;
    ghost var t := StateOf(g);
    AllMarkedHaveHeirs(s, t, vColored, eColored, i, g.vColored);
    Rematch(g, |s.vDeleted|, |s.vars|);
    FailedStep(s, t, StateOf(g), vEquations, g.vEquations, vColored, g.vColored, eColored, k, count,
      i).FailureKeepsInvariant();
  }

  // ---------------------------------------------------------------------------------------------
  // What the structural check finds

  /** The live variables of the history are those of the graph once the spent ones are deleted. */
  lemma {:induction false} LiveRowsAre(s: State, vEquations: Adjacency, h: History)
    requires Edges(s.original, s.vars, vEquations, s.vDeleted) && Deletions(s.vDeleted, h.parameter, s.vDerivative)
    requires s.Sizes() && s.vDeleted == Spent(s.vDeleted, s.vDerivative)
    requires h.original == s.original && h.next == s.vDerivative
    ensures SameRows(s.vars, LiveRows(h))
    ensures forall v: nat :: v < |s.vDeleted| ==> (s.vDeleted[v] <==> !Live(h, v))
  {}

  /** The matched equations and i are the present ones. */
  lemma {:induction false} PresentAre(s: State, k: nat, count: nat, i: nat, h: History)
    requires Invariant(s, k, count, i) && s.vDeleted == Spent(s.vDeleted, s.vDerivative) && h.eNext == s.eDerivative
    ensures MatchedEquations(s.vDeleted, s.vAssign, s.eAssign) + {i} == Present(h, k, count)
    ensures i in Present(h, k, count)
  {
    hide IsMatching, IsMatched;
  }

  /** A live variable that is in another equation as well. */
  lemma {:induction false} SharedIsConnected(original: Adjacency, vars: Adjacency, vEquations: Adjacency,
                                             deleted: seq<bool>, e: nat, f: nat, v: nat)
    requires Edges(original, vars, vEquations, deleted) && e < |vars| && f < |vars| && e != f
    requires v in original[e] && v in original[f] && v < |deleted| && !deleted[v]
    ensures Connected(original, vEquations, f)
  {
    assert v in vars[e] && v in vars[f];
    assert e in vEquations[v] && f in vEquations[v];
    assert |vEquations[v]| > 1;
    var n :| 0 <= n < |original[f]| && original[f][n] == v;
  }

  lemma {:induction false} ConnectedIsShared(original: Adjacency, vars: Adjacency, vEquations: Adjacency,
                                             deleted: seq<bool>, f: nat)
    returns (e: nat, v: nat)
    requires Edges(original, vars, vEquations, deleted) && f < |vars| && Connected(original, vEquations, f)
    ensures e < |vars| && e != f && v in original[e] && v in original[f] && v < |deleted| && !deleted[v]
  {
    var n :| 0 <= n < |original[f]| && original[f][n] < |vEquations| && |vEquations[original[f][n]]| > 1;
    v := original[f][n];
    e := if vEquations[v][0] != f then vEquations[v][0] else vEquations[v][1];
    assert NoDuplicates(vEquations[v]);
    assert e in vEquations[v];
    assert v in vars[e];
  }

  /** The derivative of an equation with a live variable shares this variable with the equation. */
  lemma {:induction false} LiveIsConnected(s: State, t: State, vEquations: Adjacency, vEquations': Adjacency,
                                           vColored: seq<bool>, eColored: seq<bool>, e: nat, f: nat, v: nat)
    requires Grew(s, t, vColored, eColored)
    requires Edges(s.original, s.vars, vEquations, s.vDeleted) && Edges(t.original, t.vars, vEquations', t.vDeleted)
    requires |s.vars| <= f < |t.vars| && t.eDerivativeOf[f] == Some(e) && e < |s.vars| && v in s.vars[e]
    ensures Connected(t.original, vEquations', f)
  {
    assert v in s.original[e] && !s.vDeleted[v];
    assert DirtyDerivative(t.original, t.vAntiDerivative, e, f);
    assert v in t.original[f] && t.original[e] == s.original[e];
    hide Differentiated, Chains;
    SharedIsConnected(t.original, t.vars, vEquations', t.vDeleted, e, f, v);
  }

  /** When only i was coloured, its derivative is the only new node. */
  lemma {:induction false} OnlyOneIsNew(s: State, t: State, vColored: seq<bool>, eColored: seq<bool>, i: nat)
    requires Grew(s, t, vColored, eColored) && i < |eColored| && Chosen(eColored) == {i} && Chosen(vColored) == {}
    ensures |t.vars| == |s.vars| + 1 && |t.vDeleted| == |s.vDeleted|
    ensures t.vDeleted == s.vDeleted && t.vAntiDerivative == s.vAntiDerivative
  {
    CountIsCardinality(vColored);
    CountIsCardinality(eColored);
    GrewSizes(s, t, vColored, eColored);
    hide Grew, Count;
  }

  lemma {:induction false} GrewSizes(s: State, t: State, vColored: seq<bool>, eColored: seq<bool>)
    requires Grew(s, t, vColored, eColored)
    ensures |t.vDeleted| == |s.vDeleted| + Count(vColored) && |t.vars| == |s.vars| + Count(eColored)
    ensures s.vDeleted <= t.vDeleted && s.vAntiDerivative <= t.vAntiDerivative
    ensures |t.vDeleted| == |t.vAntiDerivative| && |s.vDeleted| == |s.vAntiDerivative|
  {
    assert vColored[..|vColored|] == vColored && eColored[..|eColored|] == eColored;
    hide Count, DirtyDerivative, Chains;
  }

  /** An equation without live variables is only saved by a live derivative of its variables. */
  lemma {:induction false} LonelyIsConnected(s: State, t: State, vEquations': Adjacency,
                                             vColored: seq<bool>, eColored: seq<bool>, i: nat, h: History, f: nat)
    requires Grew(s, t, vColored, eColored) && i < |eColored| && Chosen(eColored) == {i} && Chosen(vColored) == {}
    requires Edges(t.original, t.vars, vEquations', t.vDeleted)
    requires h.original == s.original && h.previous == s.vAntiDerivative
    requires forall v: nat :: v < |s.vDeleted| ==> (s.vDeleted[v] <==> !Live(h, v))
    requires forall v: nat :: v in h.original[i] ==> !Live(h, v)
    requires |s.vars| <= f < |t.vars| && t.eDerivativeOf[f] == Some(i)
    ensures Connected(t.original, vEquations', f) <==> !Stranded(h, i)
  {
    OnlyOneIsNew(s, t, vColored, eColored, i);
    hide Grew, Edges, Connected, Live, Stranded;
    if Connected(t.original, vEquations', f) {
      var e, v := ConnectedIsShared(t.original, t.vars, vEquations', t.vDeleted, f);
      SharedDerivative(h, t.original, i, f, e, v);
    }
    if !Stranded(h, i) {
      var d, e := StrandedNot(h, i);
      SharedIsConnected(t.original, t.vars, vEquations', t.vDeleted, e, f, d);
    }
  }

  lemma {:induction false} SharedDerivative(h: History, original': Adjacency, i: nat, f: nat, e: nat, v: nat)
    requires h.original <= original' && i < |h.original| <= f < |original'| && e < |h.original|
    requires DirtyDerivative(original', h.previous, i, f) && v < |h.previous|
    requires v in original'[e] && v in original'[f] && Live(h, v)
    requires forall v: nat :: v in h.original[i] ==> !Live(h, v)
    ensures !Stranded(h, i)
  {
    hide Live;
    assert v in h.original[e] && original'[i] == h.original[i];
    assert DerivativeIn(h, i, v);
  }

  lemma {:induction false} StrandedNot(h: History, i: nat) returns (d: nat, e: nat)
    requires i < |h.original| && !Stranded(h, i) && forall v: nat :: v in h.original[i] ==> !Live(h, v)
    ensures e < |h.original| && d in h.original[e] && Live(h, d) && DerivativeIn(h, i, d)
  {
    d, e :| e < |h.original| && d in h.original[e] && Live(h, d) && DerivativeIn(h, i, d);
  }

  /** The derivatives of the other coloured equations share the variables that these are matched with. */
  lemma {:induction false} OthersAreConnected(s: State, t: State, vEquations: Adjacency, vEquations': Adjacency,
                                              vColored: seq<bool>, eColored: seq<bool>, i: nat, f: nat)
    requires Certificate(s.vars, s.vDeleted, s.vAssign, s.eAssign, vColored, eColored, i)
    requires Grew(s, t, vColored, eColored)
    requires Edges(s.original, s.vars, vEquations, s.vDeleted) && Edges(t.original, t.vars, vEquations', t.vDeleted)
    requires |s.vars| <= f < |t.vars| && t.eDerivative[i] != Some(f)
    ensures Connected(t.original, vEquations', f)
  {
    var e := NewEquationOrigin(s, t, vColored, eColored, i, f);
    assert IsMatched(s.vDeleted, s.vAssign, s.eAssign, e);
    assert RealAssignment(s.vars, s.vAssign, s.eAssign, s.eAssign[e].value);
    hide Grew, Edges, Certificate;
    LiveIsConnected(s, t, vEquations, vEquations', vColored, eColored, e, f, s.eAssign[e].value);
  }

  /** The check fails exactly if the equation is stranded. */
  lemma {:induction false} CheckFindsStranded(s: State, t: State, vEquations: Adjacency, vEquations': Adjacency,
                                              vColored: seq<bool>, eColored: seq<bool>, i: nat, h: History,
                                              m: Moment, count: nat)
    requires Certificate(s.vars, s.vDeleted, s.vAssign, s.eAssign, vColored, eColored, i)
    requires Grew(s, t, vColored, eColored)
    requires Edges(s.original, s.vars, vEquations, s.vDeleted) && Edges(t.original, t.vars, vEquations', t.vDeleted)
    requires Deletions(s.vDeleted, h.parameter, s.vDerivative) && s.vDeleted == Spent(s.vDeleted, s.vDerivative)
    requires h.original == s.original && h.next == s.vDerivative && h.previous == s.vAntiDerivative
    requires m.h == h && m.i == i && IsSubset(m, count, vColored, eColored) && i in Present(h, m.k, count)
    ensures (forall f :: |s.vars| <= f < |t.vars| ==> Connected(t.original, vEquations', f)) <==> !Stranded(h, i)
  {
    assert s.Sizes() && t.Sizes();
    LiveRowsAre(s, vEquations, h);
    assert i < |s.vars| && eColored[i];
    DerivativeIsNew(s, t, vColored, eColored, i);
    var root := t.eDerivative[i].value;
    hide Certificate, Grew, Edges, Connected, IsSubset, Live, Stranded, Deletions, Spent, SameRows;
    forall f | |s.vars| <= f < |t.vars| && f != root
      ensures Connected(t.original, vEquations', f)
    {
      OthersAreConnected(s, t, vEquations, vEquations', vColored, eColored, i, f);
    }
    RootIsConnected(s, t, vEquations, vEquations', vColored, eColored, i, h, m, count);
  }

  lemma {:induction false} RootIsConnected(s: State, t: State, vEquations: Adjacency, vEquations': Adjacency,
                                           vColored: seq<bool>, eColored: seq<bool>, i: nat, h: History,
                                           m: Moment, count: nat)
    requires Grew(s, t, vColored, eColored) && i < |eColored| && eColored[i]
    requires Edges(s.original, s.vars, vEquations, s.vDeleted) && Edges(t.original, t.vars, vEquations', t.vDeleted)
    requires s.Sizes() && h.original == s.original && h.previous == s.vAntiDerivative
    requires SameRows(s.vars, LiveRows(h))
    requires forall v: nat :: v < |s.vDeleted| ==> (s.vDeleted[v] <==> !Live(h, v))
    requires m.h == h && m.i == i && IsSubset(m, count, vColored, eColored) && i in Present(h, m.k, count)
    ensures t.eDerivative[i].Some? && |s.vars| <= t.eDerivative[i].value < |t.vars|
    ensures Connected(t.original, vEquations', t.eDerivative[i].value) <==> !Stranded(h, i)
  {
    DerivativeIsNew(s, t, vColored, eColored, i);
    assert s.Sizes() && t.Sizes();
    var root := t.eDerivative[i].value;
    hide Grew, Edges, Connected, IsSubset, Live;
    if v: nat :| v in h.original[i] && Live(h, v) {
      assert v in LiveRows(h)[i];
      LiveIsConnected(s, t, vEquations, vEquations', vColored, eColored, i, root, v);
      NotStranded(h, i, v);
    } else {
      NothingElse(m, count, vColored, eColored);
      LonelyIsConnected(s, t, vEquations', vColored, eColored, i, h, root);
    }
  }

  // ---------------------------------------------------------------------------------------------
  // The loops

  /** What happens when no path is found: the coloured subset is differentiated and rematched. */
  method DifferentiateSubset(g: BipartiteGraph, i: nat, ghost k: nat, ghost count: nat) returns (ok: bool)
    requires g.Structure()
    requires Invariant(StateOf(g), k, count, i) && g.vDeleted == Spent(g.vDeleted, g.vDerivative)
    requires Certificate(g.eVariables, g.vDeleted, g.vAssign, g.eAssign, g.vColored, g.eColored, i)
    requires Pending(g.vColored, g.vDerivative) == g.vColored && Pending(g.eColored, g.eDerivative) == g.eColored
    requires Count(g.eColored) == Count(g.vColored) + 1
    requires IsSubset(Moment(k, i, HistoryOf(g)), count, g.vColored, g.eColored) && i in Present(HistoryOf(g), k, count)
    modifies g
    ensures g.Structure()
    ensures Differentiates(old(Moment(k, i, HistoryOf(g))), HistoryOf(g), count)
    ensures old(|g.eVariables|) <= |g.eVariables|
    ensures ok <==> forall l :: old(|g.eVariables|) <= l < |g.eVariables| ==>
      Connected(g.eOriginalVariables, g.vEquations, l)
    ensures ok <==> !old(Stranded(HistoryOf(g), i))
    ensures ok ==> g.eDerivative[i].Some? && Invariant(StateOf(g), k, count, g.eDerivative[i].value)
  {
    hide Certificate, Grew, Edges, Chains, Deletions, Invariant, Connected, Spent, Pending, Step, Count, IsSubset,
      Stranded, Differentiates;
    ghost var s, vEquations, vColored, eColored := StateOf(g), g.vEquations, g.vColored, g.eColored;
    ghost var h, parameter := HistoryOf(g), g.vParameter;
    ghost var m := Moment(k, i, h);
    var esize := |g.eVariables|;
    CreateSubset(g, i);
    OneStep(m, HistoryOf(g), count, vColored, eColored);
    CheckFindsStranded(s, StateOf(g), vEquations, g.vEquations, vColored, eColored, i, h, m, count);
    ok := CheckNewEquations(g, esize);
    if ok {
      RematchSubset(g, i, k, count, s, vEquations, vColored, eColored);
    }
  }

  lemma {:induction false} OneStep(m: Moment, h': History, count: nat, vColored: seq<bool>, eColored: seq<bool>)
    requires IsSubset(m, count, vColored, eColored) && Step(m.h, h', vColored, eColored)
    ensures Differentiates(m, h', count)
  {}

  /** The graph as it is built from the model: nothing is assigned and no equation was differentiated. */
  ghost predicate Initial(g: BipartiteGraph)
    reads g
  {
    && g.Structure()
    && (forall e :: 0 <= e < |g.eVariables| ==> g.eAssign[e].None? && g.eDerivative[e].None?)
    && (forall v :: 0 <= v < |g.vAssign| ==> g.vAssign[v].None?)
  }

  /** Equation e is assigned a variable of its own that is in it, is not deleted and has no derivative. */
  ghost predicate WellAssigned(s: State, e: nat) {
    && s.Sizes() && e < |s.vars|
    && s.eAssign[e].Some?
    && var v := s.eAssign[e].value;
    && v < |s.vDeleted| && v in s.vars[e] && !s.vDeleted[v] && s.vDerivative[v].None? && s.vAssign[v] == Some(e)
  }

  lemma {:induction false} DoneIsWellAssigned(s: State, count: nat)
    requires Done(s, count - 1, count)
    ensures forall e: nat :: e < |s.vars| && s.eDerivative[e].None? ==> WellAssigned(s, e)
  {
    forall e: nat | e < |s.vars| && s.eDerivative[e].None?
      ensures WellAssigned(s, e)
    {
      assert IsMatched(s.vDeleted, s.vAssign, s.eAssign, e);
      assert RealAssignment(s.vars, s.vAssign, s.eAssign, s.eAssign[e].value);
    }
  }

  /** What the search decides, in terms of the structure. */
  lemma {:induction false} SearchIsRound(s: State, vEquations: Adjacency, search: Search, h: History, k: nat,
                                         count: nat, i: nat, found: bool)
    requires Invariant(s, k, count, i) && s.vDeleted == Spent(s.vDeleted, s.vDerivative)
    requires Edges(s.original, s.vars, vEquations, s.vDeleted) && Deletions(s.vDeleted, h.parameter, s.vDerivative)
    requires h.original == s.original && h.next == s.vDerivative && h.eNext == s.eDerivative
    requires search.vAssign == s.vAssign && search.eAssign == s.eAssign && NothingColored(search)
    requires |s.vAssign| == |s.vDeleted| && Decided(s.vars, s.vDeleted, search, i, found)
    ensures found <==> Succeeds(Moment(k, i, h), count)
  {
    PresentAre(s, k, count, i, h);
    assert s.Sizes();
    LiveRowsAre(s, vEquations, h);
    SameRowsCover(s.vars, LiveRows(h), Present(h, k, count));
    hide Edges, Invariant, Coverable, SameRows, Spent, Deletions, MatchedEquations;
  }

  /** The coloured nodes are the subset that is to be differentiated. */
  lemma {:induction false} ColoredIsSubset(s: State, vEquations: Adjacency, h: History, k: nat, count: nat, i: nat,
                                           vColored: seq<bool>, eColored: seq<bool>)
    requires Invariant(s, k, count, i) && s.vDeleted == Spent(s.vDeleted, s.vDerivative)
    requires Edges(s.original, s.vars, vEquations, s.vDeleted) && Deletions(s.vDeleted, h.parameter, s.vDerivative)
    requires h.original == s.original && h.next == s.vDerivative && h.eNext == s.eDerivative
    requires LeastDeficient(s.vars, MatchedEquations(s.vDeleted, s.vAssign, s.eAssign) + {i}, Chosen(eColored))
    requires Neighbors(s.vars, Chosen(eColored)) == Chosen(vColored)
    requires i < |eColored| && eColored[i]
    ensures IsSubset(Moment(k, i, h), count, vColored, eColored) && i in Present(h, k, count)
  {
    PresentAre(s, k, count, i, h);
    assert s.Sizes();
    LiveRowsAre(s, vEquations, h);
    SameRowsLeast(s.vars, LiveRows(h), Present(h, k, count), Chosen(eColored));
    SameRowsNeighbors(s.vars, LiveRows(h), Chosen(eColored));
    hide Edges, Invariant, LeastDeficient, SameRows, Spent, Deletions, MatchedEquations, Neighbors;
  }

  lemma {:induction false} CertificateColors(adj: Adjacency, deleted: seq<bool>, vAssign: Links, eAssign: Links,
                                             vColored: seq<bool>, eColored: seq<bool>, root: nat)
    requires Certificate(adj, deleted, vAssign, eAssign, vColored, eColored, root)
    ensures root < |eColored| && eColored[root]
  {}

  /**
    One round of the inner loop: finds a path for i or goes on to the derivative of i.  A path is found exactly
    if the present equations can be covered; otherwise the fewest equations that have too few variables are
    differentiated, and the check fails exactly if i is stranded.
   */
  method SearchOrDifferentiate(g: BipartiteGraph, i: nat, ghost k: nat, ghost count: nat)
    returns (pathfound: bool, ok: bool)
    requires g.Structure() && k < count && Invariant(StateOf(g), k, count, i)
    modifies g
    ensures g.Structure()
    ensures pathfound <==> old(Succeeds(Moment(k, i, HistoryOf(g)), count))
    ensures ok <==> !old(Stranded(HistoryOf(g), i))
    ensures pathfound ==> ok && Done(StateOf(g), k, count) && HistoryOf(g) == old(HistoryOf(g))
    ensures !pathfound ==> Differentiates(old(Moment(k, i, HistoryOf(g))), HistoryOf(g), count)
    ensures !pathfound && ok ==>
      i < |g.eDerivative| && g.eDerivative[i].Some? && Invariant(StateOf(g), k, count, g.eDerivative[i].value)
    ensures !ok ==> |g.eVariables| == |g.eOriginalVariables| && exists l ::
      old(|g.eVariables|) <= l < |g.eVariables| && !Connected(g.eOriginalVariables, g.vEquations, l)
  {
    hide Invariant, Edges, Chains, Deletions, Entry, Augmented, Failed, Done, Decided, Certificate, Connected,
      Preferred, Spent, Pending, Count, LeastDeficient, Neighbors, Succeeds, IsSubset, Stranded, Differentiates,
      NothingColored;
    ghost var h := HistoryOf(g);
    DeleteDifferentiated(g);
    DeletionKeepsInvariant(old(StateOf(g)), StateOf(g), old(g.vEquations), g.vEquations, k, count, i);
    UncolorAll(g);
    ghost var s, search := StateOf(g), g.Searched();
    InvariantEntry(s, g.vEquations, search, k, count, i);
    pathfound := AugmentPathDepthLookahead.AugmentPath(g, i, i);
    SearchIsRound(s, g.vEquations, search, h, k, count, i, pathfound);
    ok := true;
    if pathfound {
      SuccessIsDone(s, search, g.Searched(), k, count, i);
      SuccessIsNotStranded(h, Moment(k, i, h), count, s, i);
    } else {
      FailureMarks(s, search, g.Searched(), k, count, i);
      CertificateColors(g.eVariables, g.vDeleted, g.vAssign, g.eAssign, g.vColored, g.eColored, i);
      ColoredIsSubset(s, g.vEquations, h, k, count, i, g.vColored, g.eColored);
      ok := DifferentiateSubset(g, i, k, count);
    }
  }

  lemma {:induction false} SuccessIsNotStranded(h: History, m: Moment, count: nat, s: State, i: nat)
    requires Invariant(s, m.k, count, i) && s.vDeleted == Spent(s.vDeleted, s.vDerivative) && h.eNext == s.eDerivative
    requires m.h == h && m.i == i && Succeeds(m, count)
    ensures !Stranded(h, i)
  {
    PresentAre(s, m.k, count, i, h);
    hide Invariant;
    if Stranded(h, i) {
      LonelyFails(m, count);
    }
  }

  lemma {:induction false} InitialBegins(g: BipartiteGraph)
    requires Initial(g)
    ensures Begins(HistoryOf(g), |g.eVariables|)
  {
    hide Edges, Deletions;
    OriginalsInRange(StateOf(g), g.vEquations, |g.vDeleted|);
    hide NoneAbove;
  }

  /** The run so far has led to the graph. */
  ghost predicate Going(g: BipartiteGraph, h0: History, count: nat, rounds: seq<Moment>)
    reads g
  {
    g.Structure() && Begins(h0, count) && IsRun(h0, count, rounds) && Latest(rounds).h == HistoryOf(g)
  }

  lemma {:induction false} GoingParts(g: BipartiteGraph, h0: History, count: nat, rounds: seq<Moment>)
    requires Going(g, h0, count, rounds)
    ensures g.Structure() && Begins(h0, count) && IsRun(h0, count, rounds) && |rounds| > 0
    ensures Latest(rounds).h == HistoryOf(g) && HistoryOf(g).eNext == g.eDerivative
    ensures Develops(h0, HistoryOf(g), count) && Sound(h0, Latest(rounds), count) && count <= |g.eVariables|
  {
    hide Edges, Chains, Deletions, Round, Sound, History.Valid;
    RunIsSound(h0, count, rounds, |rounds| - 1);
    SoundBound(h0, Latest(rounds), count);
  }

  lemma {:induction false} GoesOnWith(g: BipartiteGraph, h0: History, count: nat, rounds: seq<Moment>, m: Moment)
    requires |rounds| > 0 && g.Structure() && Begins(h0, count) && IsRun(h0, count, rounds)
    requires m.h == HistoryOf(g) && Round(Latest(rounds), m, count)
    ensures Going(g, h0, count, rounds + [m]) && Latest(rounds + [m]) == m
  {
    hide Edges, Chains, Deletions, Begins, Round;
  }

  lemma {:induction false} NextRound(g: BipartiteGraph, m: Moment, m': Moment, count: nat, pathfound: bool)
    requires m.k < count && m'.h == HistoryOf(g) && (pathfound <==> Succeeds(m, count))
    requires pathfound ==> m' == Moment(m.k + 1, m.k + 1, m.h)
    requires !pathfound ==>
      && !Stranded(m.h, m.i) && Differentiates(m, m'.h, count)
      && m'.k == m.k && m.i < |g.eDerivative| && g.eDerivative[m.i] == Some(m'.i)
    ensures Round(m, m', count) && (!pathfound ==> GoesOn(m, m', count))
  {
    hide Succeeds, Stranded, Differentiates;
  }

  /** One search, as a round of the run. */
  method SearchInRun(g: BipartiteGraph, i: nat, ghost k: nat, ghost h0: History, ghost count: nat,
                     ghost rounds: seq<Moment>)
    returns (pathfound: bool, ok: bool, ghost rounds': seq<Moment>)
    requires |rounds| > 0 && Going(g, h0, count, rounds) && Latest(rounds) == Moment(k, i, HistoryOf(g))
    requires k < count && Invariant(StateOf(g), k, count, i)
    modifies g
    ensures g.Structure()
    ensures ok <==> !old(Stranded(HistoryOf(g), i))
    ensures pathfound ==>
      && ok && Going(g, h0, count, rounds') && Done(StateOf(g), k, count)
      && rounds' == rounds + [Latest(rounds')] && Latest(rounds') == Moment(k + 1, k + 1, HistoryOf(g))
    ensures !pathfound && ok ==>
      && Going(g, h0, count, rounds') && i < |g.eDerivative| && g.eDerivative[i].Some?
      && Invariant(StateOf(g), k, count, g.eDerivative[i].value)
      && rounds' == rounds + [Latest(rounds')]
      && Latest(rounds') == Moment(k, g.eDerivative[i].value, HistoryOf(g))
      && !Stranded(HistoryOf(g), g.eDerivative[i].value)
    ensures !ok ==>
      && rounds' == rounds && !Succeeds(Latest(rounds), count)
      && Differentiates(Latest(rounds), HistoryOf(g), count)
      && count <= |g.eVariables| == |g.eOriginalVariables|
      && exists l :: count <= l < |g.eVariables| && !Connected(g.eOriginalVariables, g.vEquations, l)
  {
    hide *;
    GoingParts(g, h0, count, rounds);
    g.Named();
    ghost var m := Latest(rounds);
    pathfound, ok := SearchOrDifferentiate(g, i, k, count);
    g.Named();
    rounds' := rounds;
    if ok {
      ghost var m' := if pathfound then Moment(k + 1, k + 1, HistoryOf(g))
                      else Moment(k, g.eDerivative[i].value, HistoryOf(g));
      NextRound(g, m, m', count, pathfound);
      rounds' := rounds + [m'];
      GoesOnWith(g, h0, count, rounds, m');
      if !pathfound {
        GoingOnIsNotStranded(h0, m, m', count);
      }
    }
  }

  /**
    The inner loop: searches and differentiates until equation number k, or a derivative of it, is matched.  The
    error can only follow the first search, and does exactly if equation number k is stranded.
   */
  method FindPath(g: BipartiteGraph, k: nat, fuel: nat, ghost h0: History, ghost count: nat, ghost rounds: seq<Moment>)
    returns (r: Outcome, left: nat, ghost rounds': seq<Moment>)
    requires |rounds| > 0 && Going(g, h0, count, rounds) && Latest(rounds) == Moment(k, k, HistoryOf(g))
    requires k < count && Invariant(StateOf(g), k, count, k)
    modifies g
    ensures g.Structure() && rounds <= rounds'
    ensures r == Reduced ==>
      && Going(g, h0, count, rounds') && Latest(rounds') == Moment(k + 1, k + 1, HistoryOf(g))
      && Done(StateOf(g), k, count) && fuel + |rounds| == left + |rounds'|
    ensures r == OutOfFuel ==>
      && Going(g, h0, count, rounds') && Latest(rounds').k == k
      && fuel + |rounds| == |rounds'|
    ensures r == OverDefined <==> fuel > 0 && old(Stranded(HistoryOf(g), k))
    ensures r == OverDefined ==>
      && rounds' == rounds && !Succeeds(Latest(rounds), count)
      && Differentiates(Latest(rounds), HistoryOf(g), count)
      && count <= |g.eVariables| == |g.eOriginalVariables|
      && exists l :: count <= l < |g.eVariables| && !Connected(g.eOriginalVariables, g.vEquations, l)
  {
    hide *;
    var i := k;
    var pathfound := false;
    left, rounds' := fuel, rounds;
    GoingParts(g, h0, count, rounds);
    while !pathfound
      invariant |rounds'| > 0 && rounds <= rounds' && Going(g, h0, count, rounds')
      invariant fuel + |rounds| == left + |rounds'|
      invariant !pathfound ==> Invariant(StateOf(g), k, count, i) && Latest(rounds') == Moment(k, i, HistoryOf(g))
      invariant pathfound ==> Done(StateOf(g), k, count) && Latest(rounds') == Moment(k + 1, k + 1, HistoryOf(g))
      invariant if rounds' == rounds then !pathfound && i == k && HistoryOf(g) == old(HistoryOf(g))
                else !old(Stranded(HistoryOf(g), k))
      invariant !pathfound && rounds' != rounds ==> !Stranded(HistoryOf(g), i)
      decreases !pathfound, left
    {
      GoingParts(g, h0, count, rounds');
      if left == 0 {
        r := OutOfFuel;
        return;
      }
      left := left - 1;
      var ok;
      pathfound, ok, rounds' := SearchInRun(g, i, k, h0, count, rounds');
      if !ok {
        r := OverDefined;
        return;
      }
      if !pathfound {
        i := g.eDerivative[i].value;
      }
    }
    GoingParts(g, h0, count, rounds');
    r := Reduced;
  }

  /** What a finished run says about the model. */
  lemma {:induction false} Concludes(h0: History, count: nat, rounds: seq<Moment>, r: Outcome, last: History, fuel: nat)
    returns (found: seq<nat>)
    requires |rounds| > 0 && Begins(h0, count) && IsRun(h0, count, rounds) && Ends(r, rounds, last, count, fuel)
    ensures h0.original <= last.original
    ensures |last.next| - |last.original| == |h0.next| - |h0.original| - Failures(r, rounds)
    ensures r == Reduced ==> IsCover(h0, count, found)
    ensures forall cover :: h0.NoParameters() && IsCover(h0, count, cover) ==>
      Failures(r, rounds) <= Slack(h0.next, cover)
    ensures r == OverDefined <==> MeetsStranded(rounds, count, fuel)
    ensures !HasCover(h0, count) ==> r == if MeetsStranded(rounds, count, fuel) then OverDefined else OutOfFuel
    ensures forall cover :: h0.NoParameters() && IsCover(h0, count, cover) && fuel >= Slack(h0.next, cover) + count ==>
      r == if MeetsStranded(rounds, count, fuel) then OverDefined else Reduced
  {
    hide Begins, IsRun, Ends, IsCover, Slack, MeetsStranded, Failures, HasCover;
    EndCounts(h0, count, rounds, r, last, fuel);
    OutcomeIsDecided(h0, count, rounds, r, last, fuel);
    found := [];
    if r == Reduced {
      EndsReduced(rounds, last, count, fuel);
      found := ReducedIsCovered(h0, count, rounds);
    }
    forall cover | h0.NoParameters() && IsCover(h0, count, cover)
      ensures Failures(r, rounds) <= Slack(h0.next, cover)
    {
      CoverBoundsFailures(h0, count, rounds, r, last, fuel, cover);
    }
  }

  lemma {:induction false} EndsReduced(rounds: seq<Moment>, last: History, count: nat, fuel: nat)
    requires |rounds| > 0 && Ends(Reduced, rounds, last, count, fuel)
    ensures Latest(rounds).k == count
  {}

  /**
    The whole algorithm; `fuel` bounds the number of searches.  Its rounds are determined by the structure of the
    model and the order of the equations, whatever paths the searches find.
   */
  method DetectSubset2Dif(g: BipartiteGraph, fuel: nat)
    returns (r: Outcome, ghost rounds: seq<Moment>, ghost found: seq<nat>)
    requires Initial(g)
    modifies g
    ensures g.Structure() && old(g.eOriginalVariables) <= g.eOriginalVariables
    ensures |rounds| > 0 && IsRun(old(HistoryOf(g)), old(|g.eVariables|), rounds)
    ensures Ends(r, rounds, HistoryOf(g), old(|g.eVariables|), fuel)
    // every failed search costs one degree of freedom, and nothing else does
    ensures |g.vDeleted| - |g.eVariables| == old(|g.vDeleted| - |g.eVariables|) - Failures(r, rounds)
    // a normal end shows that every equation of the model contains a variable of a chain of its own
    ensures r == Reduced ==> IsCover(old(HistoryOf(g)), old(|g.eVariables|), found)
    // every such choice of variables bounds the number of failed searches
    ensures forall cover :: old(HistoryOf(g).NoParameters() && IsCover(HistoryOf(g), |g.eVariables|, cover)) ==>
      Failures(r, rounds) <= Slack(old(g.vDerivative), cover)
    // the error comes exactly if an equation of the model is stranded when the first search for it starts
    ensures r == OverDefined <==> MeetsStranded(rounds, old(|g.eVariables|), fuel)
    // without a cover, this decides between the error and differentiating for ever
    ensures !old(HasCover(HistoryOf(g), |g.eVariables|)) ==>
      r == if MeetsStranded(rounds, old(|g.eVariables|), fuel) then OverDefined else OutOfFuel
    // with a cover, it decides between the error and a normal end
    ensures forall cover :: old(HistoryOf(g).NoParameters() && IsCover(HistoryOf(g), |g.eVariables|, cover)) ==>
      fuel >= Slack(old(g.vDerivative), cover) + old(|g.eVariables|) ==>
      r == if MeetsStranded(rounds, old(|g.eVariables|), fuel) then OverDefined else Reduced
    // the algorithm ends with a matching of all equations without derivatives
    ensures r == Reduced ==> forall e: nat :: e < |g.eVariables| && g.eDerivative[e].None? ==>
      WellAssigned(StateOf(g), e)
    // the error: a new equation shares no variable with another one
    ensures r == OverDefined ==> old(|g.eVariables|) <= |g.eVariables| == |g.eOriginalVariables| && exists l ::
      old(|g.eVariables|) <= l < |g.eVariables| && !Connected(g.eOriginalVariables, g.vEquations, l)
  {
    hide *;
    var count := |g.eVariables|;
    var left: nat := fuel;
    ghost var h0 := HistoryOf(g);
    rounds := [Moment(0, 0, h0)];
    HistoryIs(g);
    RunStarts(g);
    for k := 0 to count
      invariant |rounds| > 0 && Going(g, h0, count, rounds) && Latest(rounds) == Moment(k, k, HistoryOf(g))
      invariant fuel + 1 == left + |rounds|
      invariant k == 0 ==> Initial(g) && |g.eVariables| == count
      invariant k > 0 ==> Done(StateOf(g), k - 1, count)
    {
      GoingParts(g, h0, count, rounds);
      NextToMatch(g, k, count);
      r, left, rounds := FindPath(g, k, left, h0, count, rounds);
      if r == OutOfFuel {
        GoingParts(g, h0, count, rounds);
      }
      if r != Reduced {
        CutShort(r, rounds, HistoryOf(g), k, count, fuel);
        found := Concludes(h0, count, rounds, r, HistoryOf(g), fuel);
        HistoryIs(g);
        return;
      }
    }
    GoingParts(g, h0, count, rounds);
    r := Reduced;
    DoneIsAssigned(g, count);
    AllDone(rounds, HistoryOf(g), count, fuel);
    found := Concludes(h0, count, rounds, r, HistoryOf(g), fuel);
    HistoryIs(g);
  }

  lemma {:induction false} HistoryIs(g: BipartiteGraph)
    ensures HistoryOf(g).original == g.eOriginalVariables && HistoryOf(g).next == g.vDerivative
    ensures g.Structure() ==> |g.vDerivative| == |g.vDeleted| && |g.eOriginalVariables| == |g.eVariables|
  {
    hide Edges, Chains, Deletions;
  }

  lemma {:induction false} AllDone(rounds: seq<Moment>, last: History, count: nat, fuel: nat)
    requires |rounds| > 0 && Latest(rounds) == Moment(count, count, last) && |rounds| <= fuel + 1
    ensures Ends(Reduced, rounds, last, count, fuel)
  {}

  lemma {:induction false} CutShort(r: Outcome, rounds: seq<Moment>, last: History, k: nat, count: nat, fuel: nat)
    requires |rounds| > 0 && Latest(rounds).k == k < count && r != Reduced
    requires r == OutOfFuel ==> Latest(rounds).h == last && |rounds| == fuel + 1
    requires r == OverDefined ==>
      && !Succeeds(Latest(rounds), count) && Stranded(Latest(rounds).h, Latest(rounds).i)
      && Differentiates(Latest(rounds), last, count) && |rounds| <= fuel
    ensures Ends(r, rounds, last, count, fuel)
  {
    hide Succeeds, Stranded, Differentiates;
  }

  lemma {:induction false} RunStarts(g: BipartiteGraph)
    requires Initial(g)
    ensures Going(g, HistoryOf(g), |g.eVariables|, [Moment(0, 0, HistoryOf(g))])
    ensures Latest([Moment(0, 0, HistoryOf(g))]) == Moment(0, 0, HistoryOf(g)) && g.Structure()
  {
    hide Edges, Chains, Deletions, Begins;
    InitialBegins(g);
  }

  lemma {:induction false} NextToMatch(g: BipartiteGraph, k: nat, count: nat)
    requires k < count && (k == 0 ==> Initial(g) && |g.eVariables| == count)
    requires (k > 0 ==> Done(StateOf(g), k - 1, count))
    ensures Invariant(StateOf(g), k, count, k)
  {
    hide Edges, Chains, Deletions, Invariant, Done;
    if k == 0 {
      FirstEquation(StateOf(g), count);
    } else {
      NextEquation(StateOf(g), k - 1, count);
    }
  }

  lemma {:induction false} DoneIsAssigned(g: BipartiteGraph, count: nat)
    requires g.Structure()
    requires if count > 0 then Done(StateOf(g), count - 1, count) else Initial(g) && |g.eVariables| == 0
    ensures forall e: nat :: e < |g.eVariables| && g.eDerivative[e].None? ==> WellAssigned(StateOf(g), e)
  {
    hide Edges, Chains, Deletions, WellAssigned, Done;
    if count > 0 {
      DoneIsWellAssigned(StateOf(g), count);
    }
  }

  lemma {:induction false} FirstEquation(s: State, count: nat)
    requires s.Sizes() && count == |s.vars| && count > 0
    requires forall e :: 0 <= e < count ==> s.eAssign[e].None? && s.eDerivative[e].None?
    requires forall v :: 0 <= v < |s.vAssign| ==> s.vAssign[v].None?
    ensures Invariant(s, 0, count, 0)
  {}
}
