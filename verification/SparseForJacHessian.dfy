/**
  Sparse Jacobian and Hessian entries recovered from few matrix-vector products: a greedy colouring
  of the columns of the Jacobian, which are also the rows of the Hessian, and one sweep per colour.
 */
module SparseForJacHessian {

  type Pattern = seq<set<nat>>

  // ---------------------------------------------------------------------------------------------
  // What is asked for

  /** Entry (i, j) is one of the entries listed by `row` and `col`. */
  ghost predicate Requested(row: seq<nat>, col: seq<nat>, i: nat, j: nat)
    requires |row| == |col|
  {
    exists k :: 0 <= k < |row| && row[k] == i && col[k] == j
  }

  /** Every listed entry is in the pattern. */
  ghost predicate InPattern(row: seq<nat>, col: seq<nat>, p: Pattern) {
    && |row| == |col|
    && forall k :: 0 <= k < |row| ==> row[k] < |p| && col[k] in p[row[k]]
  }

  ghost predicate IsPattern(p: Pattern, rows: nat, cols: nat) {
    && |p| == rows
    && forall i, j {:trigger j in p[i]} :: 0 <= i < rows && j in p[i] ==> j < cols
  }

  datatype Problem = Problem(m: nat, n: nat, jacP: Pattern, jacRow: seq<nat>, jacCol: seq<nat>,
                             hesP: Pattern, hesRow: seq<nat>, hesCol: seq<nat>)
  {
    ghost predicate Valid() {
      && IsPattern(jacP, m, n) && InPattern(jacRow, jacCol, jacP)
      && IsPattern(hesP, n, n) && InPattern(hesRow, hesCol, hesP)
    }

    /** In a common product, column a of the Jacobian or row a of the Hessian would spoil a result wanted for b. */
    ghost predicate Spoils(a: nat, b: nat)
      requires Valid()
    {
      || (exists i: nat :: i < m && a in jacP[i] && Requested(jacRow, jacCol, i, b))
      || (a < n && exists j: nat :: j in hesP[a] && Requested(hesRow, hesCol, b, j))
    }

    /** No two indices of one colour spoil each other's results, and colours are small. */
    ghost predicate GoodColoring(color: seq<nat>)
      requires Valid()
    {
      && |color| == n
      && (forall j :: 0 <= j < n ==> color[j] <= j)
      && (forall a: nat, b: nat :: a < n && b < n && a != b && color[a] == color[b] ==> !Spoils(a, b))
    }

    /** Some smaller index of colour d conflicts with index j. */
    ghost predicate Conflicts(color: seq<nat>, j: nat, d: nat)
      requires Valid()
    {
      exists b: nat :: b < j && b < |color| && color[b] == d && (Spoils(j, b) || Spoils(b, j))
    }

    /** Each of the first k indices has the smallest colour that is left for it. */
    ghost predicate Greedy(color: seq<nat>, k: nat)
      requires Valid()
    {
      forall j: nat, d: nat {:trigger Conflicts(color, j, d)} :: j < k && j < |color| && d < color[j] ==>
        Conflicts(color, j, d)
    }
  }

  // ---------------------------------------------------------------------------------------------
  // Colouring

  function Transposed(p: Pattern, cols: nat): (r: Pattern)
    ensures |r| == cols
    ensures forall i: nat, j: nat {:trigger i in r[j]} :: j < cols ==> (i in r[j] <==> i < |p| && j in p[i])
  {
    seq(cols, j requires 0 <= j < cols => set i: nat | i < |p| && j in p[i])
  }

  /** notUsed[j] lists the i with j in sparsity[i] for which i is not in used[j]. */
  method ComputeNotUsed(sparsity: Pattern, used: Pattern, m: nat, n: nat) returns (notUsed: Pattern)
    requires IsPattern(sparsity, n, m) && |used| == m
    ensures |notUsed| == m
    ensures forall i: nat, j: nat {:trigger i in notUsed[j]} :: j < m ==>
      (i in notUsed[j] <==> i < n && j in sparsity[i] && i !in used[j])
  {
    notUsed := seq(m, _ => {});
    for i := 0 to n
      invariant |notUsed| == m
      invariant forall x: nat, j: nat {:trigger x in notUsed[j]} :: j < m ==>
        (x in notUsed[j] <==> x < i && j in sparsity[x] && x !in used[j])
    {
      var todo := sparsity[i];
      while todo != {}
        invariant |notUsed| == m && todo <= sparsity[i]
        invariant forall x: nat, j: nat {:trigger x in notUsed[j]} :: j < m ==>
          (x in notUsed[j] <==>
            x !in used[j] && ((x < i && j in sparsity[x]) || (x == i && j in sparsity[i] - todo)))
      {
        var j :| j in todo;
        if i !in used[j] {
          notUsed := notUsed[j := notUsed[j] + {i}];
        }
        todo := todo - {j};
      }
    }
  }

  /** The rows in which every column is wanted, and the columns wanted in every row. */
  method CollectUsed(row: seq<nat>, col: seq<nat>, m: nat, n: nat) returns (byCol: Pattern, byRow: Pattern)
    requires |row| == |col| && forall k :: 0 <= k < |row| ==> row[k] < m && col[k] < n
    ensures |byCol| == n && |byRow| == m
    ensures forall i: nat, j: nat {:trigger i in byCol[j]} :: j < n ==> (i in byCol[j] <==> Requested(row, col, i, j))
    ensures forall i: nat, j: nat {:trigger j in byRow[i]} :: i < m ==> (j in byRow[i] <==> Requested(row, col, i, j))
  {
    byCol, byRow := seq(n, _ => {}), seq(m, _ => {});
    for k := 0 to |row|
      invariant |byCol| == n && |byRow| == m
      invariant forall i: nat, j: nat {:trigger i in byCol[j]} :: j < n ==>
        (i in byCol[j] <==> Requested(row[..k], col[..k], i, j))
      invariant forall i: nat, j: nat {:trigger j in byRow[i]} :: i < m ==>
        (j in byRow[i] <==> Requested(row[..k], col[..k], i, j))
    {
      RequestedStep(row, col, k);
      byCol := byCol[col[k] := byCol[col[k]] + {row[k]}];
      byRow := byRow[row[k] := byRow[row[k]] + {col[k]}];
    }
    assert row[..|row|] == row && col[..|row|] == col;
  }

  lemma {:induction false} RequestedStep(row: seq<nat>, col: seq<nat>, k: nat)
    requires |row| == |col| && k < |row|
    ensures forall i: nat, j: nat :: Requested(row[..k + 1], col[..k + 1], i, j) <==>
      Requested(row[..k], col[..k], i, j) || (i == row[k] && j == col[k])
  {
    forall i: nat, j: nat
      ensures Requested(row[..k + 1], col[..k + 1], i, j) <==>
        Requested(row[..k], col[..k], i, j) || (i == row[k] && j == col[k])
    {
      if Requested(row[..k], col[..k], i, j) {
        var x :| 0 <= x < k && row[..k][x] == i && col[..k][x] == j;
        assert row[..k + 1][x] == i && col[..k + 1][x] == j;
      }
      if i == row[k] && j == col[k] {
        assert row[..k + 1][k] == i && col[..k + 1][k] == j;
      }
      if Requested(row[..k + 1], col[..k + 1], i, j) {
        var x :| 0 <= x < k + 1 && row[..k + 1][x] == i && col[..k + 1][x] == j;
        if x < k {
          assert row[..k][x] == i && col[..k][x] == j;
        }
      }
    }
  }

  /** Some smaller index of that colour is listed in one of the chosen rows of `inner`. */
  ghost predicate Met(outer: set<nat>, inner: Pattern, color: seq<nat>, j1: nat, c: nat) {
    exists i: nat, j: nat {:trigger j in inner[i]} :: i in outer && i < |inner| && j in inner[i] && j < j1
      && j < |color| && color[j] == c
  }

  /** The four loops that forbid colours: all have this form. */
  method ForbidColors(forbidden: seq<bool>, color: seq<nat>, j1: nat, outer: set<nat>, inner: Pattern)
    returns (r: seq<bool>)
    requires j1 < |forbidden| == |color| && forall j :: 0 <= j < j1 ==> color[j] <= j
    requires forall i :: i in outer ==> i < |inner|
    ensures |r| == |forbidden|
    ensures forall c: nat :: c < |r| ==> (r[c] <==> forbidden[c] || Met(outer, inner, color, j1, c))
  {
    r := forbidden;
    var todo := outer;
    while todo != {}
      invariant |r| == |forbidden| && todo <= outer
      invariant forall c: nat :: c < |r| ==> (r[c] <==> forbidden[c] || Met(outer - todo, inner, color, j1, c))
    {
      var i :| i in todo;
      var left := inner[i];
      ghost var before := r;
      while left != {}
        invariant |r| == |forbidden| && left <= inner[i]
        invariant forall c: nat :: c < |r| ==>
          (r[c] <==> before[c] || exists j :: j in inner[i] - left && j < j1 && color[j] == c)
      {
        var j11 :| j11 in left;
        if j11 < j1 {
          r := r[color[j11] := true];
        }
        left := left - {j11};
      }
      MetStep(outer - todo, i, inner, color, j1);
      assert outer - (todo - {i}) == outer - todo + {i};
      todo := todo - {i};
    }
    assert outer - {} == outer;
  }

  lemma {:induction false} MetStep(done: set<nat>, i: nat, inner: Pattern, color: seq<nat>, j1: nat)
    requires i < |inner| && j1 <= |color|
    ensures forall c: nat :: Met(done + {i}, inner, color, j1, c) <==>
      Met(done, inner, color, j1, c) || exists j :: j in inner[i] && j < j1 && color[j] == c
  {}

  /** The patterns the colouring works on. */
  datatype Used = Used(pT: Pattern, jacR: Pattern, jacC: Pattern, jacNot: Pattern, hes: Pattern, hesR: Pattern,
                       hesC: Pattern, hesNot: Pattern)

  ghost predicate IsUsed(q: Problem, s: Used)
    requires q.Valid()
  {
    && |s.pT| == |s.jacR| == q.n && |s.jacC| == |s.jacNot| == q.m && s.hes == q.hesP
    && |s.hesR| == |s.hesC| == |s.hesNot| == q.n
    && (forall i: nat, j: nat {:trigger i in s.pT[j]} :: j < q.n ==> (i in s.pT[j] <==> i < q.m && j in q.jacP[i]))
    && (forall i: nat,
        j: nat {:trigger i in s.jacR[j]} :: j < q.n ==> (i in s.jacR[j] <==> Requested(q.jacRow, q.jacCol, i, j)))
    && (forall i: nat,
        j: nat {:trigger j in s.jacC[i]} :: i < q.m ==> (j in s.jacC[i] <==> Requested(q.jacRow, q.jacCol, i, j)))
    && (forall i: nat, j: nat {:trigger j in s.jacNot[i]} :: i < q.m ==>
          (j in s.jacNot[i] <==> j < q.n && i in s.pT[j] && j !in s.jacC[i]))
    && (forall i: nat,
        j: nat {:trigger i in s.hesR[j]} :: j < q.n ==> (i in s.hesR[j] <==> Requested(q.hesRow, q.hesCol, i, j)))
    && (forall i: nat,
        j: nat {:trigger j in s.hesC[i]} :: i < q.n ==> (j in s.hesC[i] <==> Requested(q.hesRow, q.hesCol, i, j)))
    && (forall i: nat, j: nat {:trigger i in s.hesNot[j]} :: j < q.n ==>
          (i in s.hesNot[j] <==> i < q.n && j in q.hesP[i] && i !in s.hesR[j]))
  }

  /** Everything requested is in the patterns, hence in range. */
  lemma {:induction false} RequestedInPattern(row: seq<nat>, col: seq<nat>, p: Pattern, i: nat, j: nat)
    requires InPattern(row, col, p) && Requested(row, col, i, j)
    ensures i < |p| && j in p[i]
  {}

  /** Colour c is met in one of the four loops over index j1. */
  ghost predicate MetAnywhere(q: Problem, s: Used, color: seq<nat>, j1: nat, c: nat)
    requires q.Valid() && IsUsed(q, s) && j1 < q.n
  {
    || Met(s.pT[j1], s.jacC, color, j1, c) || Met(s.jacR[j1], s.jacNot, color, j1, c)
    || Met(s.hes[j1], s.hesR, color, j1, c) || Met(s.hesC[j1], s.hesNot, color, j1, c)
  }

  /** The four loops forbid the colours of all smaller indices that spoil results of j1 or are spoiled by it. */
  lemma {:induction false} ForbiddenColors(q: Problem, s: Used, color: seq<nat>, j1: nat, b: nat)
    requires q.Valid() && IsUsed(q, s) && |color| == q.n && b < j1 < q.n
    requires q.Spoils(j1, b) || q.Spoils(b, j1)
    ensures MetAnywhere(q, s, color, j1, color[b])
  {
    if i: nat :| i < q.m && j1 in q.jacP[i] && Requested(q.jacRow, q.jacCol, i, b) {
      assert i in s.pT[j1] && b in s.jacC[i];
    } else if j: nat :| j in q.hesP[j1] && Requested(q.hesRow, q.hesCol, b, j) {
      assert j in s.hes[j1] && b in s.hesR[j];
    } else if i: nat :| i < q.m && b in q.jacP[i] && Requested(q.jacRow, q.jacCol, i, j1) {
      RequestedInPattern(q.jacRow, q.jacCol, q.jacP, i, j1);
      assert i in s.pT[j1] && i in s.pT[b] && i in s.jacR[j1];
      assert b in s.jacC[i] || b in s.jacNot[i];
    } else {
      var j: nat :| j in q.hesP[b] && Requested(q.hesRow, q.hesCol, j1, j);
      RequestedInPattern(q.hesRow, q.hesCol, q.hesP, j1, j);
      assert j in s.hes[j1] && j in s.hesC[j1];
      assert b in s.hesR[j] || b in s.hesNot[j];
    }
  }

  /** The four loops forbid no other colours. */
  lemma {:induction false} OnlyConflictsForbid(q: Problem, s: Used, color: seq<nat>, j1: nat, c: nat)
    requires q.Valid() && IsUsed(q, s) && |color| == q.n && j1 < q.n && MetAnywhere(q, s, color, j1, c)
    ensures q.Conflicts(color, j1, c)
  {
    if Met(s.pT[j1], s.jacC, color, j1, c) {
      var i: nat, b: nat :| i in s.pT[j1] && i < |s.jacC| && b in s.jacC[i] && b < j1 && b < |color| && color[b] == c;
      assert q.Spoils(j1, b);
    } else if Met(s.jacR[j1], s.jacNot, color, j1, c) {
      var i: nat, b: nat :| i in s.jacR[j1] && i < |s.jacNot| && b in s.jacNot[i] && b < j1 && b < |color|
        && color[b] == c;
      assert i in s.pT[b];
      assert q.Spoils(b, j1);
    } else if Met(s.hes[j1], s.hesR, color, j1, c) {
      var j: nat, b: nat :| j in s.hes[j1] && j < |s.hesR| && b in s.hesR[j] && b < j1 && b < |color| && color[b] == c;
      assert q.Spoils(j1, b);
    } else {
      var j: nat, b: nat :| j in s.hesC[j1] && j < |s.hesNot| && b in s.hesNot[j] && b < j1 && b < |color|
        && color[b] == c;
      assert q.Spoils(b, j1);
    }
  }

  /** Index j1 takes its colour. */
  lemma {:induction false} GreedyNext(q: Problem, color: seq<nat>, j1: nat, c: nat)
    requires q.Valid() && j1 < |color| && q.Greedy(color, j1) && forall d: nat :: d < c ==> q.Conflicts(color, j1, d)
    ensures q.Greedy(color[j1 := c], j1 + 1)
  {
    hide Problem.Spoils, Problem.Valid;
    var color' := color[j1 := c];
    forall j: nat, d: nat {:trigger q.Conflicts(color', j, d)} | j < j1 + 1 && d < color'[j]
      ensures q.Conflicts(color', j, d)
    {
      assert q.Conflicts(color, j, d);
      var b: nat :| b < j && b < |color| && color[b] == d && (q.Spoils(j, b) || q.Spoils(b, j));
      assert color'[b] == d;
    }
  }

  method PrepareUsed(q: Problem) returns (s: Used)
    requires q.Valid()
    ensures IsUsed(q, s)
  {
    var pT := Transposed(q.jacP, q.n);
    var jacR, jacC := CollectUsed(q.jacRow, q.jacCol, q.m, q.n);
    var jacNot := ComputeNotUsed(pT, jacC, q.m, q.n);
    var hesR, hesC := CollectUsed(q.hesRow, q.hesCol, q.n, q.n);
    var hesNot := ComputeNotUsed(q.hesP, hesR, q.n, q.n);
    s := Used(pT, jacR, jacC, jacNot, q.hesP, hesR, hesC, hesNot);
  }

  /** The smallest colour that no smaller index in conflict with j1 has; it is at most j1. */
  method PickColor(q: Problem, s: Used, forbidden0: seq<bool>, color: seq<nat>, j1: nat)
    returns (forbidden: seq<bool>, c: nat)
    requires q.Valid() && IsUsed(q, s) && j1 < q.n == |color| == |forbidden0|
    requires forall j :: 0 <= j < |color| ==> color[j] <= j
    ensures |forbidden| == q.n
    ensures c <= j1 && !MetAnywhere(q, s, color, j1, c)
    ensures forall d: nat :: d < c ==> MetAnywhere(q, s, color, j1, d)
  {
    forbidden := forbidden0;
    for k := 0 to j1 + 1
      invariant |forbidden| == q.n && forall d :: 0 <= d < k ==> !forbidden[d]
    {
      forbidden := forbidden[k := false];
    }
    InRange(q, s, j1);
    forbidden := ForbidColors(forbidden, color, j1, s.pT[j1], s.jacC);
    forbidden := ForbidColors(forbidden, color, j1, s.jacR[j1], s.jacNot);
    forbidden := ForbidColors(forbidden, color, j1, s.hes[j1], s.hesR);
    forbidden := ForbidColors(forbidden, color, j1, s.hesC[j1], s.hesNot);
    assert forall d: nat :: d <= j1 ==> (forbidden[d] <==> MetAnywhere(q, s, color, j1, d));
    c := 0;
    while forbidden[c]
      invariant c <= j1 && forall d: nat :: d < c ==> forbidden[d]
      decreases j1 - c
    {
      c := c + 1;
    }
  }

  lemma {:induction false} InRange(q: Problem, s: Used, j1: nat)
    requires q.Valid() && IsUsed(q, s) && j1 < q.n
    ensures forall i :: i in s.pT[j1] ==> i < q.m
    ensures forall i :: i in s.jacR[j1] ==> i < q.m
    ensures forall i :: i in s.hes[j1] ==> i < q.n
    ensures forall i :: i in s.hesC[j1] ==> i < q.n
  {
    forall i | i in s.jacR[j1]
      ensures i < q.m
    {
      RequestedInPattern(q.jacRow, q.jacCol, q.jacP, i, j1);
    }
    forall j | j in s.hesC[j1]
      ensures j < q.n
    {
      RequestedInPattern(q.hesRow, q.hesCol, q.hesP, j1, j);
    }
  }

  method ColorForwardJacobianHessian(q: Problem) returns (color: seq<nat>)
    requires q.Valid()
    ensures q.GoodColoring(color) && q.Greedy(color, q.n)
  {
    hide MetAnywhere, Problem.Spoils, Problem.Conflicts, IsUsed;
    var s := PrepareUsed(q);
    color := seq(q.n, j => j);
    var forbidden := seq(q.n, _ => false);
    var j1 := 1;
    while j1 < q.n
      invariant 1 <= j1
      invariant |color| == |forbidden| == q.n && forall j :: 0 <= j < q.n ==> color[j] <= j
      invariant forall a: nat, b: nat :: b < a < j1 && a < q.n && color[a] == color[b] ==>
        !q.Spoils(a, b) && !q.Spoils(b, a)
      invariant q.Greedy(color, j1)
    {
      var c;
      forbidden, c := PickColor(q, s, forbidden, color, j1);
      forall b: nat | b < j1 && color[b] == c
        ensures !q.Spoils(j1, b) && !q.Spoils(b, j1)
      {
        if q.Spoils(j1, b) || q.Spoils(b, j1) {
          ForbiddenColors(q, s, color, j1, b);
        }
      }
      forall d: nat | d < c
        ensures q.Conflicts(color, j1, d)
      {
        OnlyConflictsForbid(q, s, color, j1, d);
      }
      GreedyNext(q, color, j1, c);
      color := color[j1 := c];
      j1 := j1 + 1;
    }
  }

  // ---------------------------------------------------------------------------------------------
  // Sorting the requested entries

  ghost predicate Listed(index: seq<nat>, k: nat) {
    exists p: nat :: p < |index| && index[p] == k
  }

  /** `index` lists the first n positions of `keys` in the order of their keys. */
  ghost predicate IsIndexSort(keys: seq<nat>, n: nat, index: seq<nat>) {
    && |index| == n <= |keys|
    && (forall p :: 0 <= p < n ==> index[p] < n)
    && (forall p, q :: 0 <= p < q < n ==> index[p] != index[q] && keys[index[p]] <= keys[index[q]])
    && (forall k: nat :: k < n ==> Listed(index, k))
  }

  /** A sort by key, with the contract of CppAD's `index_sort`. */
  method IndexSort(keys: seq<nat>) returns (index: seq<nat>)
    ensures IsIndexSort(keys, |keys|, index)
  {
    index := [];
    hide IsIndexSort;
    NothingSorted(keys);
    for k := 0 to |keys|
      invariant IsIndexSort(keys, k, index)
    {
      IndexInRange(keys, k, index);
      var p: nat := k;
      while p > 0 && keys[index[p - 1]] > keys[k]
        invariant 0 <= p <= k
        invariant forall q :: p <= q < k ==> keys[index[q]] > keys[k]
      {
        p := p - 1;
      }
      InsertIndex(keys, k, index, p);
      index := index[..p] + [k] + index[p..];
    }
  }

  lemma {:induction false} NothingSorted(keys: seq<nat>)
    ensures IsIndexSort(keys, 0, [])
  {}

  lemma {:induction false} IndexInRange(keys: seq<nat>, k: nat, index: seq<nat>)
    requires IsIndexSort(keys, k, index)
    ensures |index| == k && forall p :: 0 <= p < k ==> index[p] < k
  {}

  lemma {:induction false} InsertIndex(keys: seq<nat>, k: nat, index: seq<nat>, p: nat)
    requires k < |keys| && IsIndexSort(keys, k, index) && p <= k
    requires p > 0 ==> keys[index[p - 1]] <= keys[k]
    requires forall q :: p <= q < k ==> keys[index[q]] > keys[k]
    ensures IsIndexSort(keys, k + 1, index[..p] + [k] + index[p..])
  {
    IndexInRange(keys, k, index);
    var r := index[..p] + [k] + index[p..];
    forall x: nat | x < k + 1
      ensures Listed(r, x)
    {
      assert x < k ==> Listed(index, x);
      hide Listed, IsIndexSort;
      InsertKeepsListed(index, k, p, x);
    }
    forall y | 0 <= y < k + 1
      ensures r[y] < k + 1
    {
      hide IsIndexSort;
    }
    forall y, z | 0 <= y < z < k + 1
      ensures r[y] != r[z] && keys[r[y]] <= keys[r[z]]
    {
      hide IsIndexSort, Listed;
      InsertKeepsOrder(keys, k, index, p, y, z);
    }
    hide Listed;
  }

  lemma {:induction false} InsertKeepsOrder(keys: seq<nat>, k: nat, index: seq<nat>, p: nat, y: nat, z: nat)
    requires k < |keys| && IsIndexSort(keys, k, index) && p <= k
    requires p > 0 ==> keys[index[p - 1]] <= keys[k]
    requires forall q :: p <= q < k ==> keys[index[q]] > keys[k]
    requires y < z < k + 1
    ensures var r := index[..p] + [k] + index[p..];
      r[y] < k + 1 && r[z] < k + 1 && r[y] != r[z] && keys[r[y]] <= keys[r[z]]
  {
    hide Listed;
    var y0 := if y < p then y else if y == p then p - 1 else y - 1;
    var z0 := if z < p then z else z - 1;
    if y == p {
      assert index[z0] < k;
    } else if z == p {
      assert index[y0] < k;
      assert y0 < p - 1 ==> keys[index[y0]] <= keys[index[p - 1]];
    } else {
      assert index[y0] < k && index[z0] < k && index[y0] != index[z0] && keys[index[y0]] <= keys[index[z0]];
    }
  }

  lemma {:induction false} InsertKeepsListed(index: seq<nat>, k: nat, p: nat, x: nat)
    requires p <= |index| && (x == k || Listed(index, x))
    ensures Listed(index[..p] + [k] + index[p..], x)
  {
    var r := index[..p] + [k] + index[p..];
    if x == k {
      assert r[p] == k;
    } else {
      var y: nat :| y < |index| && index[y] == x;
      assert r[if y < p then y else y + 1] == x;
    }
  }

  /** A key larger than all others is sorted last. */
  lemma {:induction false} SentinelLast(keys: seq<nat>, index: seq<nat>)
    requires IsIndexSort(keys, |keys|, index) && |keys| > 0
    requires forall k :: 0 <= k < |keys| - 1 ==> keys[k] < keys[|keys| - 1]
    ensures index[|keys| - 1] == |keys| - 1
  {
    var last: nat := |keys| - 1;
    assert Listed(index, last);
    var p: nat :| p < |index| && index[p] == last;
    if p < last {
      assert keys[index[p]] <= keys[index[last]];
    }
  }

  // ---------------------------------------------------------------------------------------------
  // Products

  function Dot(a: seq<real>, u: seq<real>): real
    requires |a| == |u|
  {
    if a == [] then 0.0 else Dot(a[..|a| - 1], u[..|u| - 1]) + a[|a| - 1] * u[|u| - 1]
  }

  /** A product against a 0/1 vector that meets a single nonzero value yields that value. */
  lemma {:induction false} SingleTerm(a: seq<real>, u: seq<real>, c: nat)
    requires |a| == |u| && c < |a| && u[c] == 1.0
    requires forall j :: 0 <= j < |a| && j != c ==> a[j] == 0.0 || u[j] == 0.0
    ensures Dot(a, u) == a[c]
  {
    var last := |a| - 1;
    if c == last {
      NoTerm(a[..last], u[..last]);
    } else {
      SingleTerm(a[..last], u[..last], c);
    }
  }

  lemma {:induction false} NoTerm(a: seq<real>, u: seq<real>)
    requires |a| == |u| && forall j :: 0 <= j < |a| ==> a[j] == 0.0 || u[j] == 0.0
    ensures Dot(a, u) == 0.0
  {
    if a != [] {
      NoTerm(a[..|a| - 1], u[..|u| - 1]);
    }
  }

  type Matrix = seq<seq<real>>

  ghost predicate IsMatrix(a: Matrix, rows: nat, cols: nat) {
    |a| == rows && forall i :: 0 <= i < rows ==> |a[i]| == cols
  }

  /** The matrix has no nonzero value outside the pattern. */
  ghost predicate Supported(a: Matrix, p: Pattern) {
    |a| == |p| && forall i, j: nat :: 0 <= i < |a| && j < |a[i]| && j !in p[i] ==> a[i][j] == 0.0
  }

  function Column(a: Matrix, cols: nat, j: nat): (r: seq<real>)
    requires j < cols && forall i :: 0 <= i < |a| ==> |a[i]| == cols
    ensures |r| == |a| && forall i :: 0 <= i < |r| ==> r[i] == a[i][j]
  {
    seq(|a|, i requires 0 <= i < |a| && |a[i]| == cols => a[i][j])
  }

  /** First order forward mode: the derivatives in direction u. */
  function Forward(jac: Matrix, u: seq<real>): (r: seq<real>)
    requires forall i :: 0 <= i < |jac| ==> |jac[i]| == |u|
    ensures |r| == |jac|
  {
    seq(|jac|, i requires 0 <= i < |jac| && |jac[i]| == |u| => Dot(jac[i], u))
  }

  /** Component p of the second order reverse mode. */
  function ReverseAt(hes: Matrix, gradient: seq<real>, u: seq<real>, p: nat): real
    requires IsMatrix(hes, |u|, |u|) && |gradient| == |u| && p < 2 * |u|
  {
    if p % 2 == 1 then Dot(Column(hes, |u|, p / 2), u) else gradient[p / 2]
  }

  /**
    Second order reverse mode: two values per variable.  The odd entries hold the product of the
    direction and the Hessian of the weighted sum; the even entries are not used.
   */
  function Reverse(hes: Matrix, gradient: seq<real>, u: seq<real>): (r: seq<real>)
    requires IsMatrix(hes, |u|, |u|) && |gradient| == |u|
    ensures |r| == 2 * |u|
    ensures forall p: nat :: p < |r| ==> r[p] == ReverseAt(hes, gradient, u, p)
  {
    seq(2 * |u|,
        p requires 0 <= p < 2 * |u| && IsMatrix(hes, |u|, |u|) && |gradient| == |u| => ReverseAt(hes, gradient, u, p))
  }

  lemma {:induction false} OddEntry(hes: Matrix, gradient: seq<real>, u: seq<real>, j: nat)
    requires IsMatrix(hes, |u|, |u|) && |gradient| == |u| && j < |u|
    ensures Reverse(hes, gradient, u)[j * 2 + 1] == Dot(Column(hes, |u|, j), u)
  {
    hide Reverse, Dot;
    assert (j * 2 + 1) % 2 == 1 && (j * 2 + 1) / 2 == j;
  }

  /** The direction of the sweep for colour c. */
  function Direction(color: seq<nat>, c: nat): (u: seq<real>)
    ensures |u| == |color| && forall j :: 0 <= j < |u| ==> u[j] == if color[j] == c then 1.0 else 0.0
  {
    seq(|color|, j requires 0 <= j < |color| => if color[j] == c then 1.0 else 0.0)
  }

  /** Every requested entry of the Jacobian is one component of the forward sweep for its colour. */
  lemma {:induction false} ForwardRecovers(q: Problem, color: seq<nat>, jac: Matrix, k: nat)
    requires q.Valid() && q.GoodColoring(color) && IsMatrix(jac, q.m, q.n) && Supported(jac, q.jacP)
    requires k < |q.jacRow| && q.jacCol[k] < q.n
    ensures Forward(jac, Direction(color, color[q.jacCol[k]]))[q.jacRow[k]] == jac[q.jacRow[k]][q.jacCol[k]]
  {
    var i, b := q.jacRow[k], q.jacCol[k];
    var u := Direction(color, color[b]);
    assert Requested(q.jacRow, q.jacCol, i, b);
    forall a: nat | a < q.n && a != b
      ensures jac[i][a] == 0.0 || u[a] == 0.0
    {
      assert color[a] == color[b] ==> !q.Spoils(a, b);
    }
    SingleTerm(jac[i], u, b);
  }

  /** Every requested entry of the Hessian is one component of the reverse sweep for its colour. */
  lemma {:induction false} ReverseRecovers(q: Problem, color: seq<nat>, hes: Matrix, gradient: seq<real>, k: nat)
    requires q.Valid() && q.GoodColoring(color) && IsMatrix(hes, q.n, q.n) && Supported(hes, q.hesP)
    requires |gradient| == q.n
    requires k < |q.hesRow| && q.hesRow[k] < q.n && q.hesCol[k] < q.n
    ensures Reverse(hes, gradient, Direction(color, color[q.hesRow[k]]))[q.hesCol[k] * 2 + 1] ==
      hes[q.hesRow[k]][q.hesCol[k]]
  {
    var b, j := q.hesRow[k], q.hesCol[k];
    var u := Direction(color, color[b]);
    assert Requested(q.hesRow, q.hesCol, b, j);
    forall a: nat | a < q.n && a != b
      ensures hes[a][j] == 0.0 || u[a] == 0.0
    {
      assert color[a] == color[b] ==> !q.Spoils(a, b);
    }
    SingleTerm(Column(hes, q.n, j), u, b);
    OddEntry(hes, gradient, u, j);
  }

  /** The sweeps of a colouring yield every requested entry of this Jacobian. */
  ghost predicate RecoversJacobian(q: Problem, color: seq<nat>, jac: Matrix)
    requires q.Valid() && |color| == q.n
  {
    IsMatrix(jac, q.m, q.n) && Supported(jac, q.jacP) ==>
      forall k :: 0 <= k < |q.jacRow| && q.jacCol[k] < q.n ==>
        Forward(jac, Direction(color, color[q.jacCol[k]]))[q.jacRow[k]] == jac[q.jacRow[k]][q.jacCol[k]]
  }

  ghost predicate RecoversHessian(q: Problem, color: seq<nat>, hes: Matrix, gradient: seq<real>)
    requires q.Valid() && |color| == q.n
  {
    IsMatrix(hes, q.n, q.n) && Supported(hes, q.hesP) && |gradient| == q.n ==>
      forall k :: 0 <= k < |q.hesRow| && q.hesRow[k] < q.n && q.hesCol[k] < q.n ==>
        Reverse(hes, gradient, Direction(color, color[q.hesRow[k]]))[q.hesCol[k] * 2 + 1] ==
        hes[q.hesRow[k]][q.hesCol[k]]
  }

  /** Whatever the nonzero values are. */
  ghost predicate AlwaysRecovers(q: Problem, color: seq<nat>)
    requires q.Valid() && |color| == q.n
  {
    && (forall jac: Matrix :: RecoversJacobian(q, color, jac))
    && (forall hes: Matrix, gradient: seq<real> :: RecoversHessian(q, color, hes, gradient))
  }

  /** The matrix with a single nonzero value. */
  ghost function Unit(rows: nat, cols: nat, i: nat, j: nat): (a: Matrix)
    ensures IsMatrix(a, rows, cols)
    ensures forall x, y :: 0 <= x < rows && 0 <= y < cols ==> a[x][y] == if x == i && y == j then 1.0 else 0.0
  {
    seq(rows, x => seq(cols, y => if x == i && y == j then 1.0 else 0.0))
  }

  /** Column a of the Jacobian adds its value in row i to the result wanted for column b. */
  lemma {:induction false} JacobianIsLost(q: Problem, color: seq<nat>, a: nat, b: nat, i: nat)
    requires q.Valid() && |color| == q.n && a < q.n && b < q.n && a != b && color[a] == color[b]
    requires i < q.m && a in q.jacP[i] && Requested(q.jacRow, q.jacCol, i, b)
    ensures exists jac: Matrix :: !RecoversJacobian(q, color, jac)
  {
    var jac, u := Unit(q.m, q.n, i, a), Direction(color, color[b]);
    var k :| 0 <= k < |q.jacRow| && q.jacRow[k] == i && q.jacCol[k] == b;
    hide Unit, Direction, IsPattern, Dot;
    assert Supported(jac, q.jacP);
    SingleTerm(jac[i], u, a);
    assert Forward(jac, u)[i] == 1.0 && jac[i][b] == 0.0;
    assert !RecoversJacobian(q, color, jac);
  }

  lemma {:induction false} HessianIsLost(q: Problem, color: seq<nat>, a: nat, b: nat, j: nat)
    requires q.Valid() && |color| == q.n && a < q.n && b < q.n && a != b && color[a] == color[b]
    requires j in q.hesP[a] && Requested(q.hesRow, q.hesCol, b, j)
    ensures exists hes: Matrix, gradient: seq<real> :: !RecoversHessian(q, color, hes, gradient)
  {
    assert j < q.n;
    var hes, gradient, u := Unit(q.n, q.n, a, j), seq(q.n, _ => 0.0), Direction(color, color[b]);
    var k :| 0 <= k < |q.hesRow| && q.hesRow[k] == b && q.hesCol[k] == j;
    hide Unit, Direction, IsPattern, Reverse, Dot;
    assert Supported(hes, q.hesP);
    SingleTerm(Column(hes, q.n, j), u, a);
    OddEntry(hes, gradient, u, j);
    assert !RecoversHessian(q, color, hes, gradient);
  }

  /** An index that spoils results of another one needs a colour of its own. */
  lemma {:induction false} SpoiledIsLost(q: Problem, color: seq<nat>, a: nat, b: nat)
    requires q.Valid() && |color| == q.n && a < q.n && b < q.n && a != b && color[a] == color[b] && q.Spoils(a, b)
    ensures !AlwaysRecovers(q, color)
  {
    hide RecoversJacobian, RecoversHessian;
    if i: nat :| i < q.m && a in q.jacP[i] && Requested(q.jacRow, q.jacCol, i, b) {
      JacobianIsLost(q, color, a, b, i);
    } else {
      var j: nat :| j in q.hesP[a] && Requested(q.hesRow, q.hesCol, b, j);
      HessianIsLost(q, color, a, b, j);
    }
  }

  /** The colourings that keep results apart are exactly those whose sweeps recover every request. */
  lemma {:induction false} GoodIfRecovers(q: Problem, color: seq<nat>)
    requires q.Valid() && |color| == q.n && forall j :: 0 <= j < q.n ==> color[j] <= j
    ensures q.GoodColoring(color) <==> AlwaysRecovers(q, color)
  {
    hide Problem.Spoils, Supported, Forward, Reverse;
    if q.GoodColoring(color) {
      forall jac: Matrix
        ensures RecoversJacobian(q, color, jac)
      {
        JacobianRecovered(q, color, jac);
      }
      forall hes: Matrix, gradient: seq<real>
        ensures RecoversHessian(q, color, hes, gradient)
      {
        HessianRecovered(q, color, hes, gradient);
      }
    } else {
      var a: nat, b: nat :| a < q.n && b < q.n && a != b && color[a] == color[b] && q.Spoils(a, b);
      SpoiledIsLost(q, color, a, b);
    }
  }

  lemma {:induction false} JacobianRecovered(q: Problem, color: seq<nat>, jac: Matrix)
    requires q.Valid() && q.GoodColoring(color)
    ensures RecoversJacobian(q, color, jac)
  {
    hide Problem.Spoils, Supported, Forward;
    if IsMatrix(jac, q.m, q.n) && Supported(jac, q.jacP) {
      forall k | 0 <= k < |q.jacRow| && q.jacCol[k] < q.n
        ensures Forward(jac, Direction(color, color[q.jacCol[k]]))[q.jacRow[k]] == jac[q.jacRow[k]][q.jacCol[k]]
      {
        ForwardRecovers(q, color, jac, k);
      }
    }
  }

  lemma {:induction false} HessianRecovered(q: Problem, color: seq<nat>, hes: Matrix, gradient: seq<real>)
    requires q.Valid() && q.GoodColoring(color)
    ensures RecoversHessian(q, color, hes, gradient)
  {
    hide Problem.Spoils, Supported, Reverse;
    if IsMatrix(hes, q.n, q.n) && Supported(hes, q.hesP) && |gradient| == q.n {
      forall k | 0 <= k < |q.hesRow| && q.hesRow[k] < q.n && q.hesCol[k] < q.n
        ensures Reverse(hes, gradient, Direction(color, color[q.hesRow[k]]))[q.hesCol[k] * 2 + 1] ==
          hes[q.hesRow[k]][q.hesCol[k]]
      {
        ReverseRecovers(q, color, hes, gradient, k);
      }
    }
  }

  // ---------------------------------------------------------------------------------------------
  // Sweeps

  /** Sorted keys below n, closed by the sentinel n. */
  ghost predicate SortedKeys(keys: seq<nat>, n: nat) {
    && |keys| > 0 && keys[|keys| - 1] == n
    && (forall p :: 0 <= p < |keys| - 1 ==> keys[p] < n)
    && (forall p, q :: 0 <= p <= q < |keys| ==> keys[p] <= keys[q])
  }

  /** Finds the first sorted entry whose key has colour c. */
  method FirstOfColor(keys: seq<nat>, color: seq<nat>, c: nat) returns (any: bool, start: nat)
    requires SortedKeys(keys, |color|)
    ensures start < |keys|
    ensures forall p :: 0 <= p < start ==> color[keys[p]] != c
    ensures any ==> start < |keys| - 1 && color[keys[start]] == c
    ensures !any ==> forall p :: 0 <= p < |keys| - 1 ==> color[keys[p]] != c
  {
    any, start := false, 0;
    for j1 := 0 to |color|
      invariant !any && start < |keys|
      invariant forall p :: 0 <= p < start ==> color[keys[p]] != c
      invariant forall p :: 0 <= p < |keys| - 1 && keys[p] < j1 ==> color[keys[p]] != c
    {
      if color[j1] == c {
        while keys[start] < j1
          invariant start < |keys|
          invariant forall p :: 0 <= p < start ==> color[keys[p]] != c
          decreases |keys| - start
        {
          start := start + 1;
        }
        any := keys[start] == j1;
        if any {
          break;
        }
      }
    }
  }

  /** Copies the results of one sweep to the entries whose keys have colour c, and to no others. */
  method Extract(keys: seq<nat>, color: seq<nat>, c: nat, start: nat, target: seq<nat>, from: seq<nat>,
                 results: seq<real>, out0: seq<real>)
    returns (out: seq<real>)
    requires SortedKeys(keys, |color|) && |target| == |from| == |keys| - 1 && start < |keys|
    requires forall p :: 0 <= p < |target| ==> target[p] < |out0| && from[p] < |results|
    requires forall p, q :: 0 <= p < q < |target| ==> target[p] != target[q]
    requires forall p :: 0 <= p < start ==> color[keys[p]] != c
    ensures |out| == |out0|
    ensures forall p :: 0 <= p < |target| ==>
      out[target[p]] == if color[keys[p]] == c then results[from[p]] else out0[target[p]]
  {
    out := out0;
    var k: nat := start;
    for j1 := 0 to |color|
      invariant k < |keys| && |out| == |out0|
      invariant forall p :: k <= p < |target| && color[keys[p]] == c ==> keys[p] >= j1
      invariant forall p :: 0 <= p < |target| ==>
        out[target[p]] == if p < k && color[keys[p]] == c then results[from[p]] else out0[target[p]]
    {
      if color[j1] == c {
        while keys[k] < j1
          invariant k < |keys|
          invariant forall p :: k <= p < |target| && color[keys[p]] == c ==> keys[p] >= j1
          invariant forall p :: 0 <= p < |target| ==>
            out[target[p]] == if p < k && color[keys[p]] == c then results[from[p]] else out0[target[p]]
          decreases |keys| - k
        {
          k := k + 1;
        }
        while keys[k] == j1
          invariant k < |keys| && |out| == |out0|
          invariant forall p :: k <= p < |target| && color[keys[p]] == c ==> keys[p] >= j1
          invariant forall p :: 0 <= p < |target| ==>
            out[target[p]] == if p < k && color[keys[p]] == c then results[from[p]] else out0[target[p]]
          decreases |keys| - k
        {
          out := out[target[k] := results[from[k]]];
          k := k + 1;
        }
      }
    }
  }

  method CountColors(color: seq<nat>) returns (nColor: nat)
    ensures forall j :: 0 <= j < |color| ==> color[j] < nColor
    ensures nColor == 1 || exists j :: 0 <= j < |color| && nColor == color[j] + 1
  {
    nColor := 1;
    for j := 0 to |color|
      invariant forall x :: 0 <= x < j ==> color[x] < nColor
      invariant nColor == 1 || exists x :: 0 <= x < j && nColor == color[x] + 1
    {
      if nColor < color[j] + 1 {
        nColor := color[j] + 1;
      }
    }
  }

  /** The values of s at the listed positions. */
  function Gather(s: seq<nat>, index: seq<nat>): (r: seq<nat>)
    requires forall p :: 0 <= p < |index| ==> index[p] < |s|
    ensures |r| == |index| && forall p :: 0 <= p < |r| ==> r[p] == s[index[p]]
  {
    seq(|index|, p requires 0 <= p < |index| && index[p] < |s| => s[index[p]])
  }

  /** Where the reverse sweep puts the second order results of the listed variables. */
  function OddPositions(s: seq<nat>): (r: seq<nat>)
    ensures |r| == |s| && forall p :: 0 <= p < |r| ==> r[p] == s[p] * 2 + 1
  {
    seq(|s|, p requires 0 <= p < |s| => s[p] * 2 + 1)
  }

  /** Information that does not change between calls for the same patterns and entries. */
  class SparseForjacHessianWork {
    var userRow: seq<nat>
    var userCol: seq<nat>
    var sortCol: seq<nat>
    var rSort: seq<nat>
    var cSort: seq<nat>
    var kSort: seq<nat>
    var color: seq<nat>

    constructor ()
      ensures userRow == [] && rSort == [] && color == []
    {
      userRow, userCol, sortCol, rSort, cSort, kSort, color := [], [], [], [], [], [], [];
    }

    ghost predicate JacReady(q: Problem)
      reads this
    {
      && userRow == q.jacRow + [q.m] && userCol == q.jacCol + [q.n]
      && IsIndexSort(userCol, |userCol|, sortCol)
    }

    ghost predicate HesReady(q: Problem)
      reads this
    {
      && IsIndexSort(q.hesRow, |q.hesRow|, kSort) && |rSort| == |cSort| + 1 == |kSort| + 1
      && rSort[|kSort|] == q.n
      && forall p :: 0 <= p < |kSort| ==>
           kSort[p] < |q.hesCol| && rSort[p] == q.hesRow[kSort[p]] && cSort[p] == q.hesCol[kSort[p]]
    }

    /** What a work object carries over from an earlier call belongs to the same problem. */
    ghost predicate Fits(q: Problem)
      requires q.Valid()
      reads this
    {
      && (userRow != [] ==> JacReady(q)) && (rSort != [] ==> HesReady(q)) && (color != [] ==> q.GoodColoring(color))
    }

    /** `SparseForjacHessianWorkJac::prepare`. */
    method PrepareJac(q: Problem)
      requires q.Valid() && Fits(q)
      modifies this`userRow, this`userCol, this`sortCol
      ensures JacReady(q)
    {
      if userRow == [] {
        userRow := q.jacRow + [q.m];
        userCol := q.jacCol + [q.n];
        sortCol := IndexSort(userCol);
      }
    }

    /** `SparseForjacHessianWorkHes::prepare`. */
    method PrepareHes(q: Problem)
      requires q.Valid() && Fits(q)
      modifies this`rSort, this`cSort, this`kSort
      ensures HesReady(q)
    {
      if rSort == [] {
        kSort := IndexSort(q.hesRow);
        rSort := Gather(q.hesRow, kSort) + [q.n];
        cSort := Gather(q.hesCol, kSort);
      }
    }
  }

  /** The sorted columns of the Jacobian entries and the sorted rows of the Hessian entries end with their sentinels. */
  lemma {:induction false} JacKeys(q: Problem, userCol: seq<nat>, sortCol: seq<nat>)
    requires q.Valid() && userCol == q.jacCol + [q.n] && IsIndexSort(userCol, |userCol|, sortCol)
    ensures sortCol[|q.jacCol|] == |q.jacCol|
    ensures SortedKeys(Gather(userCol, sortCol), q.n)
    ensures forall p :: 0 <= p < |q.jacCol| ==> sortCol[p] < |q.jacCol|
  {
    RequestsInRange(q.jacRow, q.jacCol, q.jacP, q.m, q.n);
    SentinelLast(userCol, sortCol);
  }

  lemma {:induction false} RequestsInRange(row: seq<nat>, col: seq<nat>, p: Pattern, m: nat, n: nat)
    requires IsPattern(p, m, n) && InPattern(row, col, p)
    ensures |row| == |col| && forall k :: 0 <= k < |row| ==> row[k] < m && col[k] < n
  {
    forall k | 0 <= k < |row|
      ensures col[k] < n
    {
      assert col[k] in p[row[k]];
    }
  }

  /** The Jacobian entries whose columns have colours below c are right. */
  ghost predicate JacDone(q: Problem, color: seq<nat>, c: nat, jacobian: Matrix, jac: seq<real>)
    requires q.Valid() && |color| == q.n && IsMatrix(jacobian, q.m, q.n)
  {
    && |jac| == |q.jacRow|
    && forall k :: 0 <= k < |jac| && q.jacCol[k] < q.n && color[q.jacCol[k]] < c ==>
         jac[k] == jacobian[q.jacRow[k]][q.jacCol[k]]
  }

  /** The Hessian entries whose rows have colours below c are right. */
  ghost predicate HesDone(q: Problem, color: seq<nat>, c: nat, hessian: Matrix, hes: seq<real>)
    requires q.Valid() && |color| == q.n && IsMatrix(hessian, q.n, q.n)
  {
    && |hes| == |q.hesRow|
    && forall k :: 0 <= k < |hes| && q.hesCol[k] < q.n && color[q.hesRow[k]] < c ==>
         hes[k] == hessian[q.hesRow[k]][q.hesCol[k]]
  }

  /** The part of one round that reads the forward sweep. */
  method SweepJacobian(q: Problem, work: SparseForjacHessianWork, c: nat, start: nat, jacobian: Matrix, u: seq<real>,
                       jac0: seq<real>)
    returns (jac: seq<real>)
    requires q.Valid() && work.JacReady(q) && q.GoodColoring(work.color)
    requires IsMatrix(jacobian, q.m, q.n) && Supported(jacobian, q.jacP)
    requires JacDone(q, work.color, c, jacobian, jac0) && u == Direction(work.color, c)
    requires start <= |q.jacCol| && forall p :: 0 <= p < start ==>
      work.sortCol[p] < |q.jacCol| && q.jacCol[work.sortCol[p]] < q.n && work.color[q.jacCol[work.sortCol[p]]] != c
    ensures JacDone(q, work.color, c + 1, jacobian, jac)
  {
    var dy := Forward(jacobian, u);
    var K := |q.jacCol|;
    JacKeys(q, work.userCol, work.sortCol);
    RequestsInRange(q.jacRow, q.jacCol, q.jacP, q.m, q.n);
    var target := work.sortCol[..K];
    var keys, from := Gather(work.userCol, work.sortCol), Gather(work.userRow, target);
    jac := Extract(keys, work.color, c, start, target, from, dy, jac0);
    forall k: nat | k < K && work.color[q.jacCol[k]] < c + 1
      ensures jac[k] == jacobian[q.jacRow[k]][q.jacCol[k]]
    {
      assert Listed(work.sortCol, k);
      var p: nat :| p < |work.sortCol| && work.sortCol[p] == k;
      assert target[p] == k;
      if work.color[q.jacCol[k]] == c {
        ForwardRecovers(q, work.color, jacobian, k);
      }
    }
  }

  lemma {:induction false} HesKeys(q: Problem, rSort: seq<nat>, kSort: seq<nat>)
    requires q.Valid() && IsIndexSort(q.hesRow, |q.hesRow|, kSort)
    requires |rSort| == |kSort| + 1 && rSort[|kSort|] == q.n
    requires forall p :: 0 <= p < |kSort| ==> rSort[p] == q.hesRow[kSort[p]]
    ensures SortedKeys(rSort, q.n)
  {
    RequestsInRange(q.hesRow, q.hesCol, q.hesP, q.n, q.n);
  }

  /** An entry that has its result if its row has the colour of the sweep. */
  lemma {:induction false} HesEntryDone(q: Problem, color: seq<nat>, c: nat, hessian: Matrix, gradient: seq<real>,
                                        hes0: seq<real>, k: nat, value: real)
    requires q.Valid() && q.GoodColoring(color) && IsMatrix(hessian, q.n, q.n) && Supported(hessian, q.hesP)
    requires |gradient| == q.n && HesDone(q, color, c, hessian, hes0) && k < |q.hesRow|
    requires q.hesRow[k] < q.n && q.hesCol[k] < q.n
    requires value == if color[q.hesRow[k]] == c
                      then Reverse(hessian, gradient, Direction(color, c))[q.hesCol[k] * 2 + 1] else hes0[k]
    ensures color[q.hesRow[k]] < c + 1 ==> value == hessian[q.hesRow[k]][q.hesCol[k]]
  {
    hide Reverse, Direction, Supported, Problem.Spoils;
    if color[q.hesRow[k]] == c {
      ReverseRecovers(q, color, hessian, gradient, k);
    }
  }

  /** Every requested entry has a position among the sorted ones. */
  lemma {:induction false} HesSwept(q: Problem, color: seq<nat>, c: nat, hessian: Matrix, gradient: seq<real>,
                                    kSort: seq<nat>, hes0: seq<real>, hes: seq<real>)
    requires q.Valid() && q.GoodColoring(color) && IsMatrix(hessian, q.n, q.n) && Supported(hessian, q.hesP)
    requires |gradient| == q.n && HesDone(q, color, c, hessian, hes0) && |hes| == |hes0| == |q.hesRow| == |q.hesCol|
    requires IsIndexSort(q.hesRow, |q.hesRow|, kSort)
    requires forall k :: 0 <= k < |q.hesRow| ==> q.hesRow[k] < q.n && q.hesCol[k] < q.n
    requires forall k: nat :: k in kSort && k < |hes| ==>
      hes[k] == if color[q.hesRow[k]] == c then Reverse(hessian, gradient, Direction(color, c))[q.hesCol[k] * 2 + 1]
                else hes0[k]
    ensures HesDone(q, color, c + 1, hessian, hes)
  {
    hide Reverse, Direction, Supported, Problem.Spoils;
    forall k: nat | k < |q.hesRow|
      ensures color[q.hesRow[k]] < c + 1 ==> hes[k] == hessian[q.hesRow[k]][q.hesCol[k]]
    {
      assert Listed(kSort, k) && k in kSort;
      HesEntryDone(q, color, c, hessian, gradient, hes0, k, hes[k]);
    }
  }

  /** The part of one round that reads the reverse sweep of one weighted sum. */
  method SweepHessian(q: Problem, work: SparseForjacHessianWork, c: nat, start: nat, hessian: Matrix,
                      gradient: seq<real>, u: seq<real>, hes0: seq<real>)
    returns (hes: seq<real>)
    requires q.Valid() && work.HesReady(q) && q.GoodColoring(work.color)
    requires IsMatrix(hessian, q.n, q.n) && Supported(hessian, q.hesP) && |gradient| == q.n
    requires HesDone(q, work.color, c, hessian, hes0) && u == Direction(work.color, c)
    requires start <= |q.hesRow| && forall p :: 0 <= p < start ==> work.rSort[p] < q.n && work.color[work.rSort[p]] != c
    ensures HesDone(q, work.color, c + 1, hessian, hes)
  {
    hide Supported, Direction, Problem.Spoils, IsPattern, InPattern;
    var ddw := Reverse(hessian, gradient, u);
    HesKeys(q, work.rSort, work.kSort);
    RequestsInRange(q.hesRow, q.hesCol, q.hesP, q.n, q.n);
    var from := OddPositions(work.cSort);
    hes := Extract(work.rSort, work.color, c, start, work.kSort, from, ddw, hes0);
    hide Reverse;
    HesSwept(q, work.color, c, hessian, gradient, work.kSort, hes0, hes);
  }

  /** The listed values are the listed entries of the matrix. */
  ghost predicate Recovered(row: seq<nat>, col: seq<nat>, matrix: Matrix, values: seq<real>) {
    && |values| == |row| == |col|
    && forall k :: 0 <= k < |values| ==>
         row[k] < |matrix| && col[k] < |matrix[row[k]]| && values[k] == matrix[row[k]][col[k]]
  }

  /** The matrices at the point of evaluation: the Jacobian, and a Hessian and gradient for every weighting vector. */
  datatype Derivatives = Derivatives(jacobian: Matrix, hessians: seq<Matrix>, gradients: seq<seq<real>>)
  {
    ghost predicate Valid(q: Problem) {
      && IsMatrix(jacobian, q.m, q.n) && Supported(jacobian, q.jacP)
      && |gradients| == |hessians|
      && forall h :: 0 <= h < |hessians| ==>
           IsMatrix(hessians[h], q.n, q.n) && Supported(hessians[h], q.hesP) && |gradients[h]| == q.n
    }
  }

  ghost predicate AllHesDone(q: Problem, color: seq<nat>, c: nat, d: Derivatives, hes: seq<seq<real>>)
    requires q.Valid() && |color| == q.n && d.Valid(q)
  {
    |hes| == |d.hessians| && forall h :: 0 <= h < |hes| ==> HesDone(q, color, c, d.hessians[h], hes[h])
  }

  /** The reverse sweeps of one colour. */
  method SweepHessians(q: Problem, work: SparseForjacHessianWork, c: nat, start: nat, d: Derivatives, u: seq<real>,
                       hes0: seq<seq<real>>)
    returns (hes: seq<seq<real>>)
    requires q.Valid() && d.Valid(q) && work.HesReady(q) && q.GoodColoring(work.color)
    requires AllHesDone(q, work.color, c, d, hes0) && u == Direction(work.color, c)
    requires start <= |q.hesRow| && forall p :: 0 <= p < start ==> work.rSort[p] < q.n && work.color[work.rSort[p]] != c
    ensures AllHesDone(q, work.color, c + 1, d, hes)
  {
    hide HesDone;
    hes := hes0;
    for h := 0 to |d.hessians|
      invariant |hes| == |d.hessians|
      invariant forall x :: 0 <= x < h ==> HesDone(q, work.color, c + 1, d.hessians[x], hes[x])
      invariant forall x :: h <= x < |hes| ==> HesDone(q, work.color, c, d.hessians[x], hes[x])
    {
      var hesh := SweepHessian(q, work, c, start, d.hessians[h], d.gradients[h], u, hes[h]);
      hes := hes[h := hesh];
    }
  }

  /** An entry is requested for an index of colour c. */
  ghost predicate AnyColored(color: seq<nat>, wanted: seq<nat>, c: nat) {
    exists k :: 0 <= k < |wanted| && wanted[k] < |color| && color[wanted[k]] == c
  }

  /** The sweeps made for colour c: a forward one if anything is requested, a reverse one if that is in the Hessian. */
  ghost function SweepsOf(q: Problem, color: seq<nat>, c: nat): nat {
    if AnyColored(color, q.hesRow, c) then 2 else if AnyColored(color, q.jacCol, c) then 1 else 0
  }

  ghost function SweepsBefore(q: Problem, color: seq<nat>, c: nat): nat {
    if c == 0 then 0 else SweepsBefore(q, color, c - 1) + SweepsOf(q, color, c - 1)
  }

  /** The sorted keys have the colours of the requests. */
  lemma {:induction false} KeysColored(wanted: seq<nat>, all: seq<nat>, index: seq<nat>, keys: seq<nat>,
                                       color: seq<nat>, c: nat, any: bool)
    requires IsIndexSort(all, |all|, index) && |wanted| <= |all| && wanted == all[..|wanted|] && |wanted| < |keys|
    requires forall p :: 0 <= p < |wanted| ==> keys[p] < |color|
    requires forall p :: 0 <= p < |wanted| ==> index[p] < |wanted| && keys[p] == all[index[p]]
    requires any ==> exists p :: 0 <= p < |wanted| && color[keys[p]] == c
    requires !any ==> forall p :: 0 <= p < |wanted| ==> color[keys[p]] != c
    requires |all| == |wanted| || (|all| == |wanted| + 1 && index[|wanted|] == |wanted|)
    ensures any <==> AnyColored(color, wanted, c)
  {
    if any {
      var p :| 0 <= p < |wanted| && color[keys[p]] == c;
      assert wanted[index[p]] == keys[p];
    }
    forall k | 0 <= k < |wanted| && !any
      ensures !(wanted[k] < |color| && color[wanted[k]] == c)
    {
      assert Listed(index, k);
      var p: nat :| p < |index| && index[p] == k;
      assert p < |wanted| && keys[p] == wanted[k];
    }
  }

  /** The first sorted Jacobian entry of colour c. */
  method FindJacobian(q: Problem, work: SparseForjacHessianWork, c: nat) returns (anyJac: bool, kJac: nat)
    requires q.Valid() && work.JacReady(q) && |work.color| == q.n
    ensures anyJac <==> AnyColored(work.color, q.jacCol, c)
    ensures kJac <= |q.jacCol| && forall p :: 0 <= p < kJac ==>
      work.sortCol[p] < |q.jacCol| && q.jacCol[work.sortCol[p]] < q.n && work.color[q.jacCol[work.sortCol[p]]] != c
  {
    JacKeys(q, work.userCol, work.sortCol);
    var jacKeys := Gather(work.userCol, work.sortCol);
    anyJac, kJac := FirstOfColor(jacKeys, work.color, c);
    KeysColored(q.jacCol, work.userCol, work.sortCol, jacKeys, work.color, c, anyJac);
  }

  /** The first sorted Hessian entry of colour c. */
  method FindHessian(q: Problem, work: SparseForjacHessianWork, c: nat) returns (anyHes: bool, kHess: nat)
    requires q.Valid() && work.HesReady(q) && |work.color| == q.n
    ensures anyHes <==> AnyColored(work.color, q.hesRow, c)
    ensures kHess <= |q.hesRow| && forall p :: 0 <= p < kHess ==> work.rSort[p] < q.n && work.color[work.rSort[p]] != c
  {
    HesKeys(q, work.rSort, work.kSort);
    anyHes, kHess := FirstOfColor(work.rSort, work.color, c);
    KeysColored(q.hesRow, q.hesRow, work.kSort, work.rSort, work.color, c, anyHes);
  }

  /** Nothing is wanted from colour c. */
  lemma {:induction false} ColorSkip(q: Problem, color: seq<nat>, c: nat, d: Derivatives, jac: seq<real>,
                                     hes: seq<seq<real>>)
    requires q.Valid() && d.Valid(q) && |color| == q.n
    requires JacDone(q, color, c, d.jacobian, jac) && AllHesDone(q, color, c, d, hes)
    ensures !AnyColored(color, q.jacCol, c) ==> JacDone(q, color, c + 1, d.jacobian, jac)
    ensures !AnyColored(color, q.hesRow, c) ==> AllHesDone(q, color, c + 1, d, hes)
  {
    RequestsInRange(q.hesRow, q.hesCol, q.hesP, q.n, q.n);
  }

  /** One round: everything wanted from the columns and rows of colour c. */
  method SweepColor(q: Problem, work: SparseForjacHessianWork, c: nat, d: Derivatives, jac0: seq<real>,
                    hes0: seq<seq<real>>)
    returns (jac: seq<real>, hes: seq<seq<real>>, sweeps: nat)
    requires q.Valid() && d.Valid(q) && work.JacReady(q) && work.HesReady(q) && q.GoodColoring(work.color)
    requires JacDone(q, work.color, c, d.jacobian, jac0) && AllHesDone(q, work.color, c, d, hes0)
    ensures JacDone(q, work.color, c + 1, d.jacobian, jac) && AllHesDone(q, work.color, c + 1, d, hes)
    ensures sweeps == SweepsOf(q, work.color, c)
  {
    ColorSkip(q, work.color, c, d, jac0, hes0);
    hide JacDone, HesDone, AllHesDone, AnyColored, Problem.Spoils, IsIndexSort;
    jac, hes, sweeps := jac0, hes0, 0;
    var anyJac, kJac := FindJacobian(q, work, c);
    var anyHes, kHess := FindHessian(q, work, c);
    if anyJac || anyHes {
      sweeps := sweeps + 1;
      var u := Direction(work.color, c);
      if anyJac {
        jac := SweepJacobian(q, work, c, kJac, d.jacobian, u, jac);
      }
      if anyHes {
        sweeps := sweeps + 1;
        hes := SweepHessians(q, work, c, kHess, d, u, hes);
      }
    }
  }

  /** There are no sweeps for colours that are not used. */
  lemma {:induction false} SweepsBeyond(q: Problem, color: seq<nat>, nColor: nat, c: nat)
    requires nColor <= c && forall j :: 0 <= j < |color| ==> color[j] < nColor
    ensures SweepsBefore(q, color, c) == SweepsBefore(q, color, nColor) <= 2 * nColor
    decreases c
  {
    if c > nColor {
      SweepsBeyond(q, color, nColor, c - 1);
    } else if c > 0 {
      SweepsBound(q, color, c);
    }
  }

  lemma {:induction false} SweepsBound(q: Problem, color: seq<nat>, c: nat)
    ensures SweepsBefore(q, color, c) <= 2 * c
  {
    if c > 0 {
      SweepsBound(q, color, c - 1);
    }
  }

  /** When all colours are done, everything is recovered. */
  lemma {:induction false} AllColorsDone(q: Problem, color: seq<nat>, nColor: nat, d: Derivatives, jac: seq<real>,
                                         hes: seq<seq<real>>)
    requires q.Valid() && d.Valid(q) && |color| == q.n && forall j :: 0 <= j < q.n ==> color[j] < nColor
    requires JacDone(q, color, nColor, d.jacobian, jac) && AllHesDone(q, color, nColor, d, hes)
    ensures Recovered(q.jacRow, q.jacCol, d.jacobian, jac) && |hes| == |d.hessians|
    ensures forall h :: 0 <= h < |hes| ==> Recovered(q.hesRow, q.hesCol, d.hessians[h], hes[h])
  {
    RequestsInRange(q.jacRow, q.jacCol, q.jacP, q.m, q.n);
    RequestsInRange(q.hesRow, q.hesCol, q.hesP, q.n, q.n);
  }

  /** All requested entries of the Jacobian and of the Hessian of every weighted sum. */
  method SparseForJacHessian(q: Problem, work: SparseForjacHessianWork, d: Derivatives)
    returns (jac: seq<real>, hes: seq<seq<real>>, nSweep: nat)
    requires q.Valid() && work.Fits(q) && d.Valid(q)
    modifies work
    ensures work.Fits(q)
    // the colouring is the greedy one, unless there is one from an earlier call
    ensures if old(work.color) == [] then q.Greedy(work.color, q.n) else work.color == old(work.color)
    ensures Recovered(q.jacRow, q.jacCol, d.jacobian, jac)
    ensures |hes| == |d.hessians| && forall h :: 0 <= h < |hes| ==> Recovered(q.hesRow, q.hesCol, d.hessians[h], hes[h])
    // a forward sweep for every colour with a request and a reverse sweep for every colour with one in the Hessian
    ensures nSweep == |RequestedColors(work.color, q.jacCol + q.hesRow)| + |RequestedColors(work.color, q.hesRow)|
    // which are never more than two per index, however many entries are requested
    ensures nSweep <= 2 * if q.n == 0 then 1 else q.n
  {
    hide Problem.Spoils, Problem.Conflicts, Problem.Greedy, IsIndexSort, SweepsBefore, AllHesDone, Recovered;
    work.PrepareJac(q);
    work.PrepareHes(q);
    if work.color == [] {
      work.color := ColorForwardJacobianHessian(q);
    }
    var nColor := CountColors(work.color);
    ColorsInRange(q, work.color, nColor);
    jac, hes, nSweep := SweepColors(q, work, nColor, d);
    AllColorsDone(q, work.color, nColor, d, jac, hes);
    SweepsAreColors(q, work.color, nColor);
    hide JacDone;
  }

  /** The colours of the indices for which something is wanted. */
  ghost function RequestedColors(color: seq<nat>, wanted: seq<nat>): set<nat> {
    set k: nat | k < |wanted| && wanted[k] < |color| :: color[wanted[k]]
  }

  ghost function ColorsBelow(color: seq<nat>, wanted: seq<nat>, c: nat): set<nat> {
    set d: nat | d < c && AnyColored(color, wanted, d)
  }

  lemma {:induction false} ColorsNext(color: seq<nat>, wanted: seq<nat>, c: nat)
    ensures |ColorsBelow(color, wanted, c + 1)| ==
      |ColorsBelow(color, wanted, c)| + if AnyColored(color, wanted, c) then 1 else 0
  {
    hide AnyColored;
    assert ColorsBelow(color, wanted, c + 1) ==
      ColorsBelow(color, wanted, c) + if AnyColored(color, wanted, c) then {c} else {};
  }

  lemma {:induction false} SweepsAreBelow(q: Problem, color: seq<nat>, c: nat)
    ensures SweepsBefore(q, color, c) ==
      |ColorsBelow(color, q.jacCol + q.hesRow, c)| + |ColorsBelow(color, q.hesRow, c)|
  {
    hide AnyColored;
    if c == 0 {
      assert ColorsBelow(color, q.jacCol + q.hesRow, 0) == {} && ColorsBelow(color, q.hesRow, 0) == {};
    } else {
      SweepsAreBelow(q, color, c - 1);
      ColorsNext(color, q.jacCol + q.hesRow, c - 1);
      ColorsNext(color, q.hesRow, c - 1);
      EitherColored(color, q.jacCol, q.hesRow, c - 1);
      hide ColorsBelow;
    }
  }

  lemma {:induction false} EitherColored(color: seq<nat>, a: seq<nat>, b: seq<nat>, c: nat)
    ensures AnyColored(color, a + b, c) <==> AnyColored(color, a, c) || AnyColored(color, b, c)
  {
    if AnyColored(color, a, c) {
      var k :| 0 <= k < |a| && a[k] < |color| && color[a[k]] == c;
      assert (a + b)[k] == a[k];
    }
    if AnyColored(color, b, c) {
      var k :| 0 <= k < |b| && b[k] < |color| && color[b[k]] == c;
      assert (a + b)[|a| + k] == b[k];
    }
  }

  lemma {:induction false} ColorsAreBelow(color: seq<nat>, wanted: seq<nat>, c: nat)
    requires forall j :: 0 <= j < |color| ==> color[j] < c
    ensures ColorsBelow(color, wanted, c) == RequestedColors(color, wanted)
  {
    forall d | d in ColorsBelow(color, wanted, c)
      ensures d in RequestedColors(color, wanted)
    {
      var k :| 0 <= k < |wanted| && wanted[k] < |color| && color[wanted[k]] == d;
    }
  }

  /** Every colour of a request has its sweeps, and no other. */
  lemma {:induction false} SweepsAreColors(q: Problem, color: seq<nat>, nColor: nat)
    requires forall j :: 0 <= j < |color| ==> color[j] < nColor
    ensures SweepsBefore(q, color, nColor) ==
      |RequestedColors(color, q.jacCol + q.hesRow)| + |RequestedColors(color, q.hesRow)|
  {
    SweepsAreBelow(q, color, nColor);
    ColorsAreBelow(color, q.jacCol + q.hesRow, nColor);
    ColorsAreBelow(color, q.hesRow, nColor);
  }

  /** There are never more colours than indices. */
  lemma {:induction false} ColorsInRange(q: Problem, color: seq<nat>, nColor: nat)
    requires q.Valid() && q.GoodColoring(color) && forall j :: 0 <= j < q.n ==> color[j] < nColor
    requires nColor == 1 || exists j :: 0 <= j < |color| && nColor == color[j] + 1
    ensures nColor <= if q.n == 0 then 1 else q.n
    ensures SweepsBefore(q, color, nColor) ==
      SweepsBefore(q, color, if q.n == 0 then 1 else q.n) <= 2 * if q.n == 0 then 1 else q.n
  {
    SweepsBeyond(q, color, nColor, if q.n == 0 then 1 else q.n);
    SweepsBound(q, color, if q.n == 0 then 1 else q.n);
  }

  /** The loop over the colours. */
  method SweepColors(q: Problem, work: SparseForjacHessianWork, nColor: nat, d: Derivatives)
    returns (jac: seq<real>, hes: seq<seq<real>>, nSweep: nat)
    requires q.Valid() && d.Valid(q) && work.JacReady(q) && work.HesReady(q) && q.GoodColoring(work.color)
    ensures JacDone(q, work.color, nColor, d.jacobian, jac) && AllHesDone(q, work.color, nColor, d, hes)
    ensures nSweep == SweepsBefore(q, work.color, nColor)
  {
    jac := seq(|q.jacRow|, _ => 0.0);
    hes := seq(|d.hessians|, _ => seq(|q.hesRow|, _ => 0.0));
    nSweep := 0;
    NothingDone(q, work.color, d, jac, hes);
    hide JacDone, AllHesDone, SweepsOf, Problem.Spoils, IsIndexSort;
    for c := 0 to nColor
      invariant JacDone(q, work.color, c, d.jacobian, jac) && AllHesDone(q, work.color, c, d, hes)
      invariant nSweep == SweepsBefore(q, work.color, c)
    {
      var sweeps;
      jac, hes, sweeps := SweepColor(q, work, c, d, jac, hes);
      nSweep := nSweep + sweeps;
    }
  }

  lemma {:induction false} NothingDone(q: Problem, color: seq<nat>, d: Derivatives, jac: seq<real>, hes: seq<seq<real>>)
    requires q.Valid() && d.Valid(q) && |color| == q.n
    requires |jac| == |q.jacRow| && |hes| == |d.hessians| && forall h :: 0 <= h < |hes| ==> |hes[h]| == |q.hesRow|
    ensures JacDone(q, color, 0, d.jacobian, jac) && AllHesDone(q, color, 0, d, hes)
  {}
}
