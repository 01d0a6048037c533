/**
  The bipartite graph of a DAE system.  The nodes `Vnode` and `Enode` are named by their index in
  `vnodes_` and `enodes_`, and every field of a node is one sequence of the graph.
 */
module BipartiteGraphs {
  import opened Wrappers
  import opened Matching

  /** The first variable of `vars`, from position n on, that has no equation and is, or is not, a derivative. */
  function FirstFree(vars: seq<nat>, n: nat, vAssign: Links, vAntiDerivative: Links, derivative: bool): (r: Option<nat>)
    requires n <= |vars| && |vAssign| == |vAntiDerivative|
    requires forall k :: 0 <= k < |vars| ==> vars[k] < |vAssign|
    ensures r.Some? ==> r.value in vars && vAssign[r.value].None? && vAntiDerivative[r.value].Some? == derivative
    ensures r.None? ==> forall k :: n <= k < |vars| && vAntiDerivative[vars[k]].Some? == derivative ==>
      vAssign[vars[k]].Some?
    decreases |vars| - n
  {
    if n == |vars| then None
    else
      var v := vars[n];
      if vAntiDerivative[v].Some? == derivative && vAssign[v].None? then Some(v)
      else FirstFree(vars, n + 1, vAssign, vAntiDerivative, derivative)
  }

  /** The free variable that is taken at once: a derivative if there is one. */
  function Preferred(vars: seq<nat>, vAssign: Links, vAntiDerivative: Links): (r: Option<nat>)
    requires |vAssign| == |vAntiDerivative|
    requires forall k :: 0 <= k < |vars| ==> vars[k] < |vAssign|
    ensures r.None? ==> forall k :: 0 <= k < |vars| ==> vAssign[vars[k]].Some?
  {
    var d := FirstFree(vars, 0, vAssign, vAntiDerivative, true);
    if d.Some? then d else FirstFree(vars, 0, vAssign, vAntiDerivative, false)
  }

  /** All variables of the kind that come before it have equations. */
  lemma {:induction false} FirstFreeIsFirst(vars: seq<nat>, n: nat, vAssign: Links, vAntiDerivative: Links,
                                            derivative: bool)
    returns (k: nat)
    requires n <= |vars| && |vAssign| == |vAntiDerivative|
    requires forall k :: 0 <= k < |vars| ==> vars[k] < |vAssign|
    requires FirstFree(vars, n, vAssign, vAntiDerivative, derivative).Some?
    ensures n <= k < |vars| && FirstFree(vars, n, vAssign, vAntiDerivative, derivative) == Some(vars[k])
    ensures vAssign[vars[k]].None? && vAntiDerivative[vars[k]].Some? == derivative
    ensures forall j :: n <= j < k ==> vAssign[vars[j]].Some? || vAntiDerivative[vars[j]].Some? != derivative
    decreases |vars| - n
  {
    if vAntiDerivative[vars[n]].Some? == derivative && vAssign[vars[n]].None? {
      k := n;
    } else {
      k := FirstFreeIsFirst(vars, n + 1, vAssign, vAntiDerivative, derivative);
    }
  }

  /** The variable taken at once is the first free derivative or, if there is none, the first free variable. */
  lemma {:induction false} PreferredIsFirst(vars: seq<nat>, vAssign: Links, vAntiDerivative: Links) returns (k: nat)
    requires |vAssign| == |vAntiDerivative| && forall k :: 0 <= k < |vars| ==> vars[k] < |vAssign|
    requires Preferred(vars, vAssign, vAntiDerivative).Some?
    ensures k < |vars| && Preferred(vars, vAssign, vAntiDerivative) == Some(vars[k]) && vAssign[vars[k]].None?
    ensures vAntiDerivative[vars[k]].Some? ==>
      forall j :: 0 <= j < k ==> vAssign[vars[j]].Some? || vAntiDerivative[vars[j]].None?
    ensures vAntiDerivative[vars[k]].None? ==>
      && (forall j :: 0 <= j < |vars| ==> vAssign[vars[j]].Some? || vAntiDerivative[vars[j]].None?)
      && forall j :: 0 <= j < k ==> vAssign[vars[j]].Some?
  {
    var derivative := FirstFree(vars, 0, vAssign, vAntiDerivative, true).Some?;
    hide FirstFree;
    k := FirstFreeIsFirst(vars, 0, vAssign, vAntiDerivative, derivative);
  }

  /** The variables of an equation with variable j. */
  function WithVariable(vars: seq<nat>, j: nat): seq<nat> {
    if j in vars then vars else vars + [j]
  }

  /** The variables of an equation with variable j and its derivative. */
  function WithDerivative(vars: seq<nat>, j: nat, derivative: Option<nat>): seq<nat> {
    if derivative.Some? then WithVariable(WithVariable(vars, j), derivative.value) else WithVariable(vars, j)
  }

  lemma {:induction false} Derived(vars: seq<nat>, j: nat, derivative: Option<nat>)
    ensures derivative.None? ==> WithDerivative(vars, j, derivative) == WithVariable(vars, j)
    ensures derivative.Some? ==>
      WithDerivative(vars, j, derivative) == WithVariable(WithVariable(vars, j), derivative.value)
  {}

  lemma {:induction false} WithDerivativeHas(vars: seq<nat>, j: nat, next: Links, previous: Links, v: nat)
    requires Chains(next, previous) && j < |next| && v < |next|
    ensures v in WithDerivative(vars, j, next[j]) <==> v in vars || v == j || previous[v] == Some(j)
  {}

  /** A row holds exactly the variables and their derivatives. */
  ghost predicate HasDirty(row: seq<nat>, vars: seq<nat>, vAntiDerivative: Links) {
    forall v: nat :: v < |vAntiDerivative| ==>
      (v in row <==> v in vars || (vAntiDerivative[v].Some? && vAntiDerivative[v].value in vars))
  }

  lemma {:induction false} HasDirtyNext(row: seq<nat>, vars: seq<nat>, n: nat, anti: Links, vDerivative: Links,
                                        vAntiDerivative: Links)
    requires n < |vars| && HasDirty(row, vars[..n], anti) && Chains(vDerivative, vAntiDerivative)
    requires vars[n] < |vDerivative|
    requires vAntiDerivative != anti ==>
      vAntiDerivative == anti + [Some(vars[n])] && NoneAbove(row, |anti|) && NoneAbove(vars, |anti|)
    ensures HasDirty(WithDerivative(row, vars[n], vDerivative[vars[n]]), vars[..n + 1], vAntiDerivative)
  {
    assert vars[..n + 1] == vars[..n] + [vars[n]];
    var row' := WithDerivative(row, vars[n], vDerivative[vars[n]]);
    forall v: nat | v < |vAntiDerivative|
      ensures v in row' <==>
        v in vars[..n + 1] || (vAntiDerivative[v].Some? && vAntiDerivative[v].value in vars[..n + 1])
    {
      WithDerivativeHas(row, vars[n], vDerivative, vAntiDerivative, v);
      hide Chains, WithDerivative;
    }
  }

  ghost predicate NoneAbove(s: seq<nat>, n: nat) {
    forall v :: v in s ==> v < n
  }

  /** The rows other than d are as they were. */
  ghost predicate OtherRowsKept(rows: Adjacency, rows': Adjacency, d: nat) {
    |rows'| == |rows| && forall e :: 0 <= e < |rows| && e != d ==> rows'[e] == rows[e]
  }

  lemma {:induction false} RowsKept(rows: Adjacency, rows': Adjacency, rows'': Adjacency, d: nat)
    requires d < |rows| == |rows'| == |rows''|
    requires (rows' == rows || rows' == rows[d := rows'[d]]) && (rows'' == rows' || rows'' == rows'[d := rows''[d]])
    ensures OtherRowsKept(rows, rows'', d)
  {}

  ghost predicate NoDuplicates(s: seq<nat>) {
    forall x, y :: 0 <= x < y < |s| ==> s[x] != s[y]
  }

  /** s without the first occurrence of x. */
  function Erase(s: seq<nat>, x: nat): (r: seq<nat>)
    ensures forall y :: y in r ==> y in s
    ensures forall y :: y in s && y != x ==> y in r
    ensures NoDuplicates(s) ==> NoDuplicates(r) && x !in r
  {
    if s == [] then []
    else
      assert s == [s[0]] + s[1..];
      assert NoDuplicates(s) ==> NoDuplicates(s[1..]) && s[0] !in s[1..];
      if s[0] == x then s[1..]
      else [s[0]] + Erase(s[1..], x)
  }

  /** One occurrence is taken out, and the rest keeps its order. */
  lemma {:induction false} EraseAt(s: seq<nat>, x: nat, k: nat)
    requires k < |s| && s[k] == x && x !in s[..k]
    ensures Erase(s, x) == s[..k] + s[k + 1..]
  {
    if k > 0 {
      var rest := s[1..];
      assert s[0] == s[..k][0] && rest[..k - 1] == s[..k][1..];
      EraseAt(rest, x, k - 1);
      assert rest[k..] == s[k + 1..] && s[..k] == [s[0]] + rest[..k - 1];
      hide Erase;
      ErasedRest(s, x);
    }
  }

  lemma {:induction false} ErasedRest(s: seq<nat>, x: nat)
    requires s != [] && s[0] != x
    ensures Erase(s, x) == [s[0]] + Erase(s[1..], x)
  {}

  lemma {:induction false} WithVariableIs(vars: seq<nat>, j: nat)
    ensures WithVariable(vars, j) == if j in vars then vars else vars + [j]
  {}

  /** The row lists what occurs in s, once, in the order in which it occurs first. */
  ghost predicate ListsFirst(row: seq<nat>, s: seq<nat>) {
    && NoDuplicates(row) && (forall v :: v in row <==> v in s)
    && forall x, y :: 0 <= x < y < |row| ==> OccursBefore(s, row[x], row[y])
  }

  ghost predicate OccursBefore(s: seq<nat>, x: nat, y: nat) {
    exists p: nat :: IsBefore(s, p, x, y)
  }

  /** At position p there is x, and no y before it. */
  ghost predicate IsBefore(s: seq<nat>, p: nat, x: nat, y: nat) {
    p < |s| && s[p] == x && y !in s[..p]
  }

  lemma {:induction false} ListsSame(row: seq<nat>, s: seq<nat>, v: nat)
    requires NoDuplicates(row) && forall u :: u in row <==> u in s
    ensures NoDuplicates(WithVariable(row, v)) && forall u :: u in WithVariable(row, v) <==> u in s + [v]
  {}

  lemma {:induction false} ListsFirstNext(row: seq<nat>, s: seq<nat>, v: nat)
    requires ListsFirst(row, s)
    ensures ListsFirst(WithVariable(row, v), s + [v])
  {
    var row', s' := WithVariable(row, v), s + [v];
    ListsSame(row, s, v);
    hide NoDuplicates;
    forall x, y | 0 <= x < y < |row'|
      ensures OccursBefore(s', row'[x], row'[y])
    {
      if y < |row| {
        assert OccursBefore(s, row[x], row[y]);
        var p: nat :| IsBefore(s, p, row[x], row[y]);
        assert s'[..p] == s[..p] && IsBefore(s', p, row'[x], row'[y]);
      } else {
        assert row[x] in row;
        var p: nat :| p < |s| && s[p] == row[x];
        assert s'[..p] == s[..p] && IsBefore(s', p, row'[x], row'[y]);
      }
    }
    hide OccursBefore;
  }

  /** The variables, each followed by its derivative. */
  ghost function Interleaved(vars: seq<nat>, next: Links): seq<nat> {
    if vars == [] then []
    else
      var v := vars[|vars| - 1];
      Interleaved(vars[..|vars| - 1], next) + [v] + if v < |next| && next[v].Some? then [next[v].value] else []
  }

  lemma {:induction false} InterleavedNext(row: seq<nat>, vars: seq<nat>, n: nat, next: Links)
    requires n < |vars| && vars[n] < |next| && ListsFirst(row, Interleaved(vars[..n], next))
    ensures ListsFirst(WithDerivative(row, vars[n], next[vars[n]]), Interleaved(vars[..n + 1], next))
  {
    var s, v := Interleaved(vars[..n], next), vars[n];
    assert vars[..n + 1][..n] == vars[..n];
    ListsFirstNext(row, s, v);
    if next[v].Some? {
      ListsFirstNext(WithVariable(row, v), s + [v], next[v].value);
    } else {
      assert s + [v] + [] == s + [v];
    }
    hide ListsFirst, WithVariable;
  }

  lemma {:induction false} NothingListed(next: Links)
    ensures ListsFirst([], []) && Interleaved([], next) == []
  {}

  lemma {:induction false} KeptHead(vars: seq<nat>, deleted: seq<bool>)
    requires vars != []
    ensures Kept(vars, deleted) ==
      (if vars[0] < |deleted| && !deleted[vars[0]] then [vars[0]] else []) + Kept(vars[1..], deleted)
  {}

  /** The live part of an equation. */
  lemma {:induction false} KeptNext(vars: seq<nat>, j: nat, deleted: seq<bool>)
    requires j < |deleted|
    ensures Kept(vars + [j], deleted) == Kept(vars, deleted) + if deleted[j] then [] else [j]
  {
    hide *;
    KeptHead(vars + [j], deleted);
    KeptNothing(deleted);
    if vars == [] {
      assert (vars + [j])[1..] == [] && (vars + [j])[0] == j;
    } else {
      KeptNext(vars[1..], j, deleted);
      assert (vars + [j])[1..] == vars[1..] + [j] && (vars + [j])[0] == vars[0];
      KeptHead(vars, deleted);
    }
  }

  lemma {:induction false} KeptNothing(deleted: seq<bool>)
    ensures Kept([], deleted) == []
  {}

  lemma {:induction false} KeptAdded(vars: seq<nat>, j: nat, deleted: seq<bool>)
    requires j < |deleted|
    ensures Kept(WithVariable(vars, j), deleted) ==
      Kept(vars, deleted) + if j in vars || deleted[j] then [] else [j]
  {
    hide Kept;
    if j in vars {
      assert Kept(vars, deleted) + [] == Kept(vars, deleted);
    } else {
      KeptNext(vars, j, deleted);
    }
  }

  lemma {:induction false} KeptGrown(vars: seq<nat>, deleted: seq<bool>, deleted': seq<bool>)
    requires deleted <= deleted' && NoneAbove(vars, |deleted|)
    ensures Kept(vars, deleted') == Kept(vars, deleted)
  {
    if vars != [] {
      assert forall v :: v in vars[1..] ==> v in vars;
      assert vars[0] in vars;
      KeptGrown(vars[1..], deleted, deleted');
    }
  }

  /** The three edge lists of the nodes agree with each other and with the deletions. */
  ghost predicate Edges(original: Adjacency, vars: Adjacency, vEquations: Adjacency, deleted: seq<bool>) {
    && |original| == |vars| && |vEquations| == |deleted|
    && (forall e: nat, v: nat {:trigger v in original[e]} :: e < |vars| && v in original[e] ==> v < |deleted|)
    && (forall e: nat, v: nat {:trigger v in vars[e]} {:trigger v in original[e]} :: e < |vars| ==>
          (v in vars[e] <==> v in original[e] && v < |deleted| && !deleted[v]))
    && (forall v: nat, e: nat {:trigger e in vEquations[v]} {:trigger v in vars[e]} :: v < |deleted| ==>
          (e in vEquations[v] <==> e < |vars| && v in vars[e]))
    && (forall e :: 0 <= e < |vars| ==> NoDuplicates(vars[e]))
    && (forall v :: 0 <= v < |deleted| ==> NoDuplicates(vEquations[v]))
  }

  /** `next` links a node to its derivative, `previous` links it back; derivatives are younger. */
  ghost predicate Chains(next: Links, previous: Links) {
    && |next| == |previous|
    && (forall x :: 0 <= x < |next| && next[x].Some? ==>
          x < next[x].value < |next| && previous[next[x].value] == Some(x))
    && (forall x :: 0 <= x < |next| && previous[x].Some? ==>
          previous[x].value < x && next[previous[x].value] == Some(x))
  }

  /** Only parameters and differentiated variables are ever deleted; parameters always are. */
  ghost predicate Deletions(deleted: seq<bool>, parameter: seq<bool>, vDerivative: Links) {
    && |deleted| == |parameter| == |vDerivative|
    && (forall v :: 0 <= v < |deleted| && deleted[v] ==> parameter[v] || vDerivative[v].Some?)
    && (forall v :: 0 <= v < |deleted| && parameter[v] ==> deleted[v])
  }

  lemma {:induction false} DeleteKeepsEdges(original: Adjacency, vars: Adjacency, vEquations: Adjacency,
                                            deleted: seq<bool>, j: nat, vars': Adjacency)
    requires Edges(original, vars, vEquations, deleted) && j < |deleted|
    requires |vars'| == |vars| && forall e :: 0 <= e < |vars| ==> vars'[e] == Erase(vars[e], j)
    ensures Edges(original, vars', vEquations[j := []], deleted[j := true])
  {}

  /** The edge lists after `addVariable`: a variable that is new to equation i. */
  lemma {:induction false} AddKeepsEdges(original: Adjacency, vars: Adjacency, vEquations: Adjacency,
                                         deleted: seq<bool>, i: nat, j: nat)
    requires Edges(original, vars, vEquations, deleted) && i < |vars| && j < |deleted| && j !in original[i]
    ensures deleted[j] ==> Edges(original[i := original[i] + [j]], vars, vEquations, deleted)
    ensures !deleted[j] ==>
      Edges(original[i := original[i] + [j]], vars[i := vars[i] + [j]], vEquations[j := vEquations[j] + [i]], deleted)
  {
    assert j !in vars[i] && i !in vEquations[j];
  }

  /** What `deleteNode` needs to know about the equations of variable j. */
  lemma {:induction false} DeletedVariableEquations(original: Adjacency, vars: Adjacency, vEquations: Adjacency,
                                                    deleted: seq<bool>, j: nat)
    requires Edges(original, vars, vEquations, deleted) && j < |deleted|
    ensures forall n :: 0 <= n < |vEquations[j]| ==> vEquations[j][n] < |vars|
    ensures NoDuplicates(vEquations[j])
    ensures forall e: nat :: e < |vars| && e !in vEquations[j] ==> Erase(vars[e], j) == vars[e]
  {
    forall n | 0 <= n < |vEquations[j]|
      ensures vEquations[j][n] < |vars|
    {
      assert vEquations[j][n] in vEquations[j];
    }
    forall e: nat | e < |vars| && e !in vEquations[j]
      ensures Erase(vars[e], j) == vars[e]
    {
      assert j !in vars[e];
      EraseAbsent(vars[e], j);
    }
  }

  lemma {:induction false} OriginalInRange(original: Adjacency, vars: Adjacency, vEquations: Adjacency,
                                           deleted: seq<bool>, i: nat)
    requires Edges(original, vars, vEquations, deleted) && i < |vars|
    ensures forall n :: 0 <= n < |original[i]| ==> original[i][n] < |deleted|
  {
    forall n | 0 <= n < |original[i]|
      ensures original[i][n] < |deleted|
    {
      assert original[i][n] in original[i];
    }
  }

  lemma {:induction false} RowsInRange(original: Adjacency, vars: Adjacency, vEquations: Adjacency, deleted: seq<bool>,
                                       i: nat)
    requires Edges(original, vars, vEquations, deleted) && i < |vars|
    ensures NoneAbove(original[i], |deleted|)
  {}

  lemma {:induction false} EraseAbsent(s: seq<nat>, x: nat)
    requires x !in s
    ensures Erase(s, x) == s
  {
    if s != [] {
      EraseAbsent(s[1..], x);
    }
  }

  lemma {:induction false} NewEquationKeepsEdges(original: Adjacency, vars: Adjacency, vEquations: Adjacency,
                                                 deleted: seq<bool>)
    requires Edges(original, vars, vEquations, deleted)
    ensures Edges(original + [[]], vars + [[]], vEquations, deleted)
  {}

  lemma {:induction false} NewVariableKeepsEdges(original: Adjacency, vars: Adjacency, vEquations: Adjacency,
                                                 deleted: seq<bool>)
    requires Edges(original, vars, vEquations, deleted)
    ensures Edges(original, vars, vEquations + [[]], deleted + [false])
  {}

  lemma {:induction false} ExtendChain(next: Links, previous: Links, x: nat)
    requires Chains(next, previous) && x < |next| && next[x].None?
    ensures Chains(next[x := Some(|next|)] + [None], previous + [Some(x)])
  {}

  /** Every derivative tells its antiderivative about itself. */
  method LinkDerivatives(antiDerivative: Links) returns (derivative: Links)
    requires forall j :: 0 <= j < |antiDerivative| && antiDerivative[j].Some? ==> antiDerivative[j].value < j
    requires forall j, k :: 0 <= j < k < |antiDerivative| && antiDerivative[j].Some? ==>
      antiDerivative[j] != antiDerivative[k]
    ensures Chains(derivative, antiDerivative)
  {
    derivative := seq(|antiDerivative|, _ => None);
    for j := 0 to |antiDerivative|
      invariant |derivative| == |antiDerivative|
      invariant forall x :: 0 <= x < |derivative| && derivative[x].Some? ==>
        x < derivative[x].value < j && antiDerivative[derivative[x].value] == Some(x)
      invariant forall x :: 0 <= x < j && antiDerivative[x].Some? ==> derivative[antiDerivative[x].value] == Some(x)
    {
      if antiDerivative[j].Some? {
        derivative := derivative[antiDerivative[j].value := Some(j)];
      }
    }
  }

  lemma {:induction false} AlreadyThere(original: Adjacency, vars: Adjacency, vEquations: Adjacency, deleted: seq<bool>,
                                        i: nat, j: nat)
    requires Edges(original, vars, vEquations, deleted) && i < |vars| && j < |deleted| && !deleted[j]
    ensures j in original[i] <==> j in vars[i]
  {}

  class BipartiteGraph {
    // variable nodes
    var vColored: seq<bool>
    var vDeleted: seq<bool>
    var vParameter: seq<bool>
    var vEquations: seq<seq<nat>>
    var vAssign: Links
    var vDerivative: Links
    var vAntiDerivative: Links
    // equation nodes
    var eColored: seq<bool>
    var eOriginalVariables: Adjacency
    var eVariables: Adjacency
    var eAssign: Links
    var eDerivative: Links
    var eDerivativeOf: Links

    ghost predicate Sizes()
      reads this
    {
      && |vColored| == |vDeleted| == |vParameter| == |vEquations| == |vAssign| == |vDerivative| == |vAntiDerivative|
      && |eColored| == |eOriginalVariables| == |eVariables| == |eAssign| == |eDerivative| == |eDerivativeOf|
    }

    /**
      The nodes and edges of a model.  `antiDerivative` gives, for every variable, the one it is the
      derivative of; the variables are sorted so that a derivative comes after it.  Row i of
      `sparsity` lists the variables of equation i.
     */
    constructor (antiDerivative: Links, sparsity: Adjacency)
      requires forall j :: 0 <= j < |antiDerivative| && antiDerivative[j].Some? ==> antiDerivative[j].value < j
      requires forall j, k :: 0 <= j < k < |antiDerivative| && antiDerivative[j].Some? ==>
        antiDerivative[j] != antiDerivative[k]
      requires forall i, n :: 0 <= i < |sparsity| && 0 <= n < |sparsity[i]| ==> sparsity[i][n] < |antiDerivative|
      ensures Structure()
      ensures vAntiDerivative == antiDerivative && |eVariables| == |sparsity|
      ensures forall e, v {:trigger v in eVariables[e]} :: 0 <= e < |sparsity| ==>
        (v in eVariables[e] <==> v in sparsity[e])
      // the variables of an equation are in the order of its row
      ensures eOriginalVariables == eVariables && forall e :: 0 <= e < |sparsity| ==>
        ListsFirst(eVariables[e], sparsity[e])
      ensures forall v :: 0 <= v < |vAssign| ==> !vDeleted[v] && !vColored[v] && vAssign[v].None?
      ensures forall e :: 0 <= e < |eAssign| ==> !eColored[e] && eAssign[e].None? && eDerivative[e].None?
    {
      var n, m := |antiDerivative|, |sparsity|;
      vColored, vDeleted, vParameter := seq(n, _ => false), seq(n, _ => false), seq(n, _ => false);
      vEquations, vAssign, vDerivative := seq(n, _ => []), seq(n, _ => None), [];
      vAntiDerivative := antiDerivative;
      eColored, eOriginalVariables, eVariables := seq(m, _ => false), seq(m, _ => []), seq(m, _ => []);
      eAssign, eDerivative, eDerivativeOf := seq(m, _ => None), seq(m, _ => None), seq(m, _ => None);
      new;
      vDerivative := LinkDerivatives(antiDerivative);
      hide Edges, Chains, Deletions;
      AddRows(sparsity);
    }

    /** The edges of the sparsity pattern. */
    method AddRows(sparsity: Adjacency)
      requires Structure() && |sparsity| == |eVariables|
      requires forall v :: 0 <= v < |vDeleted| ==> !vDeleted[v]
      requires forall e :: 0 <= e < |eVariables| ==> eVariables[e] == eOriginalVariables[e] == []
      requires forall i, n :: 0 <= i < |sparsity| && 0 <= n < |sparsity[i]| ==> sparsity[i][n] < |vDeleted|
      modifies this`eOriginalVariables, this`eVariables, this`vEquations
      ensures Structure() && |eVariables| == old(|eVariables|) && eOriginalVariables == eVariables
      ensures forall e :: 0 <= e < |sparsity| ==> ListsFirst(eVariables[e], sparsity[e])
    {
      hide Edges, Chains, Deletions, ListsFirst;
      for i := 0 to |sparsity|
        invariant Structure() && |eVariables| == |sparsity| && eOriginalVariables == eVariables
        invariant forall e :: 0 <= e < |sparsity| ==>
          if e < i then ListsFirst(eVariables[e], sparsity[e]) else eVariables[e] == []
      {
        AddRow(i, sparsity[i]);
      }
    }

    /** The edges of one row of the sparsity pattern. */
    method AddRow(i: nat, row: seq<nat>)
      requires Structure() && i < |eVariables| && eVariables[i] == [] && eOriginalVariables == eVariables
      requires forall p :: 0 <= p < |row| ==> row[p] < |vDeleted| && !vDeleted[row[p]]
      modifies this`eOriginalVariables, this`eVariables, this`vEquations
      ensures Structure() && |eVariables| == old(|eVariables|) && eOriginalVariables == eVariables
      ensures forall e :: 0 <= e < |eVariables| && e != i ==> eVariables[e] == old(eVariables[e])
      ensures ListsFirst(eVariables[i], row)
    {
      hide *;
      NothingListed([]);
      for p := 0 to |row|
        invariant Structure() && |eVariables| == old(|eVariables|) && eOriginalVariables == eVariables
        invariant forall e :: 0 <= e < |eVariables| && e != i ==> eVariables[e] == old(eVariables[e])
        invariant ListsFirst(eVariables[i], row[..p])
      {
        ListsFirstNext(eVariables[i], row[..p], row[p]);
        WithVariableIs(eVariables[i], row[p]);
        AddVariable(i, row[p]);
        assert row[..p + 1] == row[..p] + [row[p]];
      }
      assert row[..|row|] == row;
    }

    /** An algebraic variable or a derivative. */
    predicate IsUnknown(j: nat)
      requires j < |vParameter| == |vDerivative| == |vAntiDerivative|
      reads this`vParameter, this`vDerivative, this`vAntiDerivative
    {
      !vParameter[j] && (vAntiDerivative[j].Some? || vDerivative[j].None?)
    }

    ghost function Unknowns(): (r: seq<bool>)
      requires Sizes()
      reads this
      ensures |r| == |vDeleted| && forall j :: 0 <= j < |r| ==> r[j] == IsUnknown(j)
    {
      seq(|vDeleted|, j requires 0 <= j < |vDeleted| && Sizes() reads this => IsUnknown(j))
    }

    /** The check that there are as many unknown variables as equations. */
    method IsWellDetermined() returns (ok: bool)
      requires Sizes()
      ensures ok <==> Count(Unknowns()) == |eVariables|
      ensures ok <==>
        |set j: nat | j < |vParameter| && !vParameter[j] && (vAntiDerivative[j].Some? || vDerivative[j].None?)|
        == |eVariables|
    {
      var nvar := 0;
      for j := 0 to |vDeleted|
        invariant nvar == Count(Unknowns()[..j])
      {
        assert Unknowns()[..j + 1] == Unknowns()[..j] + [Unknowns()[j]];
        if !vParameter[j] && (vAntiDerivative[j].Some? || vDerivative[j].None?) {
          nvar := nvar + 1;
        }
      }
      assert Unknowns()[..|vDeleted|] == Unknowns();
      CountIsCardinality(Unknowns());
      assert Chosen(Unknowns()) ==
        set j: nat | j < |vParameter| && !vParameter[j] && (vAntiDerivative[j].Some? || vDerivative[j].None?);
      return nvar == |eVariables|;
    }

    method SetAssignmentEquation(j: nat, i: nat)
      requires j < |vAssign| && i < |eAssign|
      modifies this`vAssign, this`eAssign
      ensures vAssign == old(vAssign)[j := Some(i)] && eAssign == old(eAssign)[i := Some(j)]
    {
      vAssign := vAssign[j := Some(i)];
      eAssign := eAssign[i := Some(j)];
    }

    /** The loop over the variables of i that looks for one without an equation, of one kind. */
    method AssignFirstFree(i: nat, derivative: bool) returns (taken: bool)
      requires Sizes() && i < |eAssign|
      requires forall k :: 0 <= k < |eVariables[i]| ==> eVariables[i][k] < |vAssign|
      modifies this`vAssign, this`eAssign
      ensures var free := FirstFree(eVariables[i], 0, old(vAssign), vAntiDerivative, derivative);
        && taken == free.Some?
        && vAssign == (if taken then old(vAssign)[free.value := Some(i)] else old(vAssign))
        && eAssign == (if taken then old(eAssign)[i := free] else old(eAssign))
    {
      var vars := eVariables[i];
      for n := 0 to |vars|
        invariant vAssign == old(vAssign) && eAssign == old(eAssign)
        invariant FirstFree(vars, 0, vAssign, vAntiDerivative, derivative) ==
          FirstFree(vars, n, vAssign, vAntiDerivative, derivative)
      {
        var jj := vars[n];
        if vAntiDerivative[jj].Some? == derivative && vAssign[jj].None? {
          SetAssignmentEquation(jj, i);
          return true;
        }
      }
      return false;
    }

    /** The part of the graph that a search for an augmenting path changes. */
    ghost function Searched(): Search
      reads this
    {
      Search(vAssign, eAssign, vColored, eColored)
    }

    ghost predicate Structure()
      reads this
    {
      && Sizes()
      && Edges(eOriginalVariables, eVariables, vEquations, vDeleted)
      && Chains(vDerivative, vAntiDerivative)
      && Chains(eDerivative, eDerivativeOf)
      && Deletions(vDeleted, vParameter, vDerivative)
    }

    /** The parts of the structure. */
    lemma {:induction false} Named()
      requires Structure()
      ensures |vColored| == |vDeleted| == |vParameter| == |vEquations|
      ensures |vDeleted| == |vAssign| == |vDerivative| == |vAntiDerivative|
      ensures |eColored| == |eOriginalVariables| == |eVariables| == |eAssign| == |eDerivative| == |eDerivativeOf|
      ensures Edges(eOriginalVariables, eVariables, vEquations, vDeleted)
      ensures Chains(vDerivative, vAntiDerivative) && Chains(eDerivative, eDerivativeOf)
      ensures Deletions(vDeleted, vParameter, vDerivative)
    {}

    lemma {:induction false} Joined()
      requires |vColored| == |vDeleted| == |vParameter| == |vEquations|
      requires |vDeleted| == |vAssign| == |vDerivative| == |vAntiDerivative|
      requires |eColored| == |eOriginalVariables| == |eVariables| == |eAssign| == |eDerivative| == |eDerivativeOf|
      requires Edges(eOriginalVariables, eVariables, vEquations, vDeleted)
      requires Chains(vDerivative, vAntiDerivative) && Chains(eDerivative, eDerivativeOf)
      requires Deletions(vDeleted, vParameter, vDerivative)
      ensures Structure()
    {}

    /** `Vnode::deleteNode`: the variable leaves every equation it is in. */
    method DeleteNode(j: nat)
      requires Structure() && j < |vDeleted| && vDerivative[j].Some?
      modifies this`vDeleted, this`vEquations, this`eVariables
      ensures Structure()
      ensures vDeleted == old(vDeleted)[j := true] && vEquations == old(vEquations)[j := []]
      ensures forall e :: 0 <= e < |eVariables| ==> eVariables[e] == Erase(old(eVariables[e]), j)
    {
      hide *;
      Named();
      vDeleted := vDeleted[j := true];
      var eqs := vEquations[j];
      DeletedVariableEquations(eOriginalVariables, eVariables, vEquations, old(vDeleted), j);
      for n := 0 to |eqs|
        invariant vDeleted == old(vDeleted)[j := true] && vEquations == old(vEquations)
        invariant |eVariables| == old(|eVariables|)
        invariant forall x :: 0 <= x < n ==> eVariables[eqs[x]] == Erase(old(eVariables[eqs[x]]), j)
        invariant forall e: nat :: e < |eVariables| && e !in eqs[..n] ==> eVariables[e] == old(eVariables[e])
      {
        var i := eqs[n];
        eVariables := eVariables[i := Erase(eVariables[i], j)];
      }
      vEquations := vEquations[j := []];
      assert eqs[..|eqs|] == eqs;
      DeleteKeepsEdges(eOriginalVariables, old(eVariables), old(vEquations), old(vDeleted), j, eVariables);
      Joined();
    }

    /** The equation has edges to those of its variables that are not deleted. */
    ghost predicate IsLivePart(i: nat)
      reads this`eOriginalVariables, this`eVariables, this`vDeleted
    {
      i < |eVariables| && i < |eOriginalVariables| && eVariables[i] == Kept(eOriginalVariables[i], vDeleted)
    }

    lemma {:induction false} LivePartStays(i: nat, deleted: seq<bool>)
      requires i < |eVariables| && i < |eOriginalVariables| && deleted <= vDeleted
      requires NoneAbove(eOriginalVariables[i], |deleted|) && eVariables[i] == Kept(eOriginalVariables[i], deleted)
      ensures IsLivePart(i)
    {
      KeptGrown(eOriginalVariables[i], deleted, vDeleted);
    }

    lemma {:induction false} LivePartIs(i: nat)
      ensures IsLivePart(i) ==> i < |eVariables| && i < |eOriginalVariables|
      ensures IsLivePart(i) ==> eVariables[i] == Kept(eOriginalVariables[i], vDeleted)
    {}

    /** `Enode::addVariable`: nothing happens when the variable was added before. */
    method AddVariable(i: nat, j: nat)
      requires Structure() && i < |eVariables| && j < |vDeleted|
      modifies this`eOriginalVariables, this`eVariables, this`vEquations
      ensures Structure()
      ensures eOriginalVariables == old(eOriginalVariables)[i := WithVariable(old(eOriginalVariables[i]), j)]
      ensures eVariables == if j in old(eOriginalVariables[i]) || vDeleted[j] then old(eVariables)
                            else old(eVariables)[i := old(eVariables[i]) + [j]]
      ensures vEquations == if j in old(eOriginalVariables[i]) || vDeleted[j] then old(vEquations)
                            else old(vEquations)[j := old(vEquations[j]) + [i]]
      ensures old(IsLivePart(i)) ==> IsLivePart(i)
    {
      hide Edges, Chains, Deletions, Kept;
      KeptAdded(eOriginalVariables[i], j, vDeleted);
      assert |eOriginalVariables| == |eVariables|;
      if j !in eOriginalVariables[i] {
        AddKeepsEdges(eOriginalVariables, eVariables, vEquations, vDeleted, i, j);
        eOriginalVariables := eOriginalVariables[i := eOriginalVariables[i] + [j]];
        if !vDeleted[j] {
          eVariables := eVariables[i := eVariables[i] + [j]];
          vEquations := vEquations[j := vEquations[j] + [i]];
        }
      }
    }

    /** `createDerivate` of a variable. */
    method CreateVariableDerivative(j: nat) returns (d: nat)
      requires Structure() && j < |vDeleted|
      modifies this`vColored, this`vDeleted, this`vParameter, this`vEquations, this`vAssign, this`vDerivative,
        this`vAntiDerivative
      ensures Structure()
      ensures old(vDerivative[j]).Some? ==>
        && d == old(vDerivative[j]).value
        && vColored == old(vColored) && vDeleted == old(vDeleted) && vParameter == old(vParameter)
        && vEquations == old(vEquations)
        && vAssign == old(vAssign) && vDerivative == old(vDerivative) && vAntiDerivative == old(vAntiDerivative)
      ensures old(vDerivative[j]).None? ==>
        && d == old(|vDeleted|)
        && vColored == old(vColored) + [false] && vDeleted == old(vDeleted) + [false]
        && vParameter == old(vParameter) + [false] && vEquations == old(vEquations) + [[]]
        && vAssign == old(vAssign) + [None] && vDerivative == old(vDerivative)[j := Some(d)] + [None]
        && vAntiDerivative == old(vAntiDerivative) + [Some(j)]
    {
      hide Edges, Chains;
      if vDerivative[j].Some? {
        return vDerivative[j].value;
      }
      d := |vDeleted|;
      ExtendChain(vDerivative, vAntiDerivative, j);
      NewVariableKeepsEdges(eOriginalVariables, eVariables, vEquations, vDeleted);
      vColored := vColored + [false];
      vDeleted := vDeleted + [false];
      vParameter := vParameter + [false];
      vEquations := vEquations + [[]];
      vAssign := vAssign + [None];
      vDerivative := vDerivative[j := Some(d)] + [None];
      vAntiDerivative := vAntiDerivative + [Some(j)];
    }

    /** Nothing about the variables has changed but their edges. */
    twostate predicate SameVariables()
      reads this
    {
      && vColored == old(vColored) && vDeleted == old(vDeleted) && vParameter == old(vParameter)
      && vAssign == old(vAssign) && vDerivative == old(vDerivative) && vAntiDerivative == old(vAntiDerivative)
    }

    /** The variable has a derivative or will never get one. */
    predicate HasDerivative(j: nat)
      requires j < |vDerivative| && j < |vParameter|
      reads this`vDerivative, this`vParameter
    {
      vDerivative[j].Some? || vParameter[j]
    }

    predicate AllHaveDerivatives(i: nat)
      requires i < |eOriginalVariables| && |vDerivative| == |vParameter|
      reads this`vDerivative, this`vParameter, this`eOriginalVariables
    {
      forall k :: 0 <= k < |eOriginalVariables[i]| && eOriginalVariables[i][k] < |vDerivative| ==>
        HasDerivative(eOriginalVariables[i][k])
    }

    twostate lemma SameOrCreated()
      ensures SameVariables() <==>
        && vColored == old(vColored) && vDeleted == old(vDeleted) && vParameter == old(vParameter)
        && vAssign == old(vAssign) && vDerivative == old(vDerivative) && vAntiDerivative == old(vAntiDerivative)
    {}

    /** Equation d gets a derivative of variable jj that is created for it. */
    method AddNewDerivative(d: nat, jj: nat)
      requires Structure() && d < |eVariables| && jj < |vDeleted| && vDerivative[jj].None?
      modifies this`eOriginalVariables, this`eVariables, this`vColored, this`vDeleted, this`vParameter, this`vEquations,
        this`vAssign, this`vDerivative, this`vAntiDerivative
      ensures Structure() && vAntiDerivative == old(vAntiDerivative) + [Some(jj)] && jj < |vDerivative|
      ensures vDerivative[jj].Some?
      ensures |eVariables| == old(|eVariables|) == |eOriginalVariables| && vDerivative[jj] == Some(old(|vDeleted|))
      ensures eOriginalVariables == old(eOriginalVariables)[d := WithVariable(old(eOriginalVariables[d]),
                                                                              vDerivative[jj].value)]
      ensures eVariables == old(eVariables) || eVariables == old(eVariables)[d := eVariables[d]]
      ensures old(IsLivePart(d)) ==> IsLivePart(d)
    {
      hide *;
      Named();
      RowsInRange(eOriginalVariables, eVariables, vEquations, vDeleted, d);
      LivePartIs(d);
      var jDiff := CreateVariableDerivative(jj);
      if old(IsLivePart(d)) {
        LivePartStays(d, old(vDeleted));
      }
      Named();
      AddVariable(d, jDiff);
      Named();
    }

    /** One round of `dirtyDifferentiateEq`: equation d gets variable jj and its derivative. */
    method AddWithDerivative(d: nat, jj: nat)
      requires Structure() && d < |eVariables| && jj < |vDeleted|
      modifies this`eOriginalVariables, this`eVariables, this`vColored, this`vDeleted, this`vParameter, this`vEquations,
        this`vAssign, this`vDerivative, this`vAntiDerivative
      ensures Structure() && |eVariables| == old(|eVariables|)
      ensures old(vDerivative[jj].Some? || vParameter[jj]) ==> SameVariables()
      ensures vAntiDerivative == old(vAntiDerivative) + if old(vDerivative[jj].Some?
        || vParameter[jj]) then [] else [Some(jj)]
      ensures OtherRowsKept(old(eOriginalVariables), eOriginalVariables, d)
      ensures OtherRowsKept(old(eVariables), eVariables, d)
      ensures jj < |vDerivative|
      ensures eOriginalVariables[d] == WithDerivative(old(eOriginalVariables[d]), jj, vDerivative[jj])
      ensures old(IsLivePart(d)) ==> IsLivePart(d)
    {
      hide *;
      Named();
      AddVariable(d, jj);
      Named();
      ghost var rows, edges := eOriginalVariables, eVariables;
      if vDerivative[jj].Some? {
        AddVariable(d, vDerivative[jj].value);
      } else if !vParameter[jj] {
        AddNewDerivative(d, jj);
      }
      RowsKept(old(eOriginalVariables), rows, eOriginalVariables, d);
      RowsKept(old(eVariables), edges, eVariables, d);
      Derived(old(eOriginalVariables[d]), jj, vDerivative[jj]);
      SameOrCreated();
    }

    /** `dirtyDifferentiateEq`: equation d gets the variables of i and their derivatives. */
    method DirtyDifferentiateEq(i: nat, d: nat)
      requires Structure() && i < |eVariables| && d < |eVariables| && i != d && eOriginalVariables[d] == []
      requires eVariables[d] == []
      modifies this`eOriginalVariables, this`eVariables, this`vColored, this`vDeleted, this`vParameter, this`vEquations,
        this`vAssign, this`vDerivative, this`vAntiDerivative
      ensures Structure() && |eVariables| == old(|eVariables|)
      // a variable is only created for a variable of i that has no derivative and is no parameter
      ensures old(AllHaveDerivatives(i)) ==> SameVariables()
      ensures OtherRowsKept(old(eOriginalVariables), eOriginalVariables, d)
      ensures OtherRowsKept(old(eVariables), eVariables, d)
      ensures HasDirty(eOriginalVariables[d], old(eOriginalVariables[i]), vAntiDerivative)
      // in the order of the variables, each followed by its derivative; the live ones among them have edges
      ensures old(AllHaveDerivatives(i)) ==>
        ListsFirst(eOriginalVariables[d], Interleaved(old(eOriginalVariables[i]), vDerivative))
      ensures IsLivePart(d)
    {
      hide Edges, Chains, Deletions, ListsFirst, Kept;
      NothingListed(vDerivative);
      KeptNothing(vDeleted);
      var vars := eOriginalVariables[i];
      OriginalInRange(eOriginalVariables, eVariables, vEquations, vDeleted, i);
      RowsInRange(eOriginalVariables, eVariables, vEquations, vDeleted, i);
      for n := 0 to |vars|
        invariant Structure() && |eVariables| == old(|eVariables|) && |vDeleted| >= old(|vDeleted|)
        invariant NoneAbove(vars, old(|vDeleted|)) && vars == old(eOriginalVariables[i])
        invariant old(AllHaveDerivatives(i)) ==> SameVariables()
        invariant OtherRowsKept(old(eOriginalVariables), eOriginalVariables, d)
        invariant OtherRowsKept(old(eVariables), eVariables, d)
        invariant HasDirty(eOriginalVariables[d], vars[..n], vAntiDerivative)
        invariant old(AllHaveDerivatives(i)) ==>
          ListsFirst(eOriginalVariables[d], Interleaved(vars[..n], vDerivative))
        invariant IsLivePart(d)
      {
        ghost var row, anti := eOriginalVariables[d], vAntiDerivative;
        RowsInRange(eOriginalVariables, eVariables, vEquations, vDeleted, d);
        if old(AllHaveDerivatives(i)) {
          InterleavedNext(row, vars, n, vDerivative);
        }
        AddWithDerivative(d, vars[n]);
        HasDirtyNext(row, vars, n, anti, vDerivative, vAntiDerivative);
      }
      assert vars[..|vars|] == vars;
    }

    /** `createDerivate` of an equation. */
    method CreateEquationDerivative(i: nat) returns (d: nat)
      requires Structure() && i < |eVariables|
      modifies this
      ensures Structure()
      ensures old(eDerivative[i]).Some? ==> d == old(eDerivative[i]).value && unchanged(this)
      ensures old(eDerivative[i]).None? ==>
        && d == old(|eVariables|) && |eVariables| == d + 1
        && eColored == old(eColored) + [false] && eAssign == old(eAssign) + [None]
        && eDerivative == old(eDerivative)[i := Some(d)] + [None] && eDerivativeOf == old(eDerivativeOf) + [Some(i)]
        && (forall e :: 0 <= e < d ==>
              eOriginalVariables[e] == old(eOriginalVariables[e]) && eVariables[e] == old(eVariables[e]))
        && HasDirty(eOriginalVariables[d], old(eOriginalVariables[i]), vAntiDerivative)
        && (old(AllHaveDerivatives(i)) ==>
              ListsFirst(eOriginalVariables[d], Interleaved(old(eOriginalVariables[i]), vDerivative)))
        && IsLivePart(d)
      ensures old(AllHaveDerivatives(i)) ==> SameVariables()
    {
      hide Edges, Chains, Deletions;
      if eDerivative[i].Some? {
        return eDerivative[i].value;
      }
      d := |eVariables|;
      ExtendChain(eDerivative, eDerivativeOf, i);
      NewEquationKeepsEdges(eOriginalVariables, eVariables, vEquations, vDeleted);
      eColored := eColored + [false];
      eOriginalVariables := eOriginalVariables + [[]];
      eVariables := eVariables + [[]];
      eAssign := eAssign + [None];
      eDerivative := eDerivative[i := Some(d)] + [None];
      eDerivativeOf := eDerivativeOf + [Some(i)];
      DirtyDifferentiateEq(i, d);
    }
  }
}
