/** Boolean matrices as lists of rows, each row the set of its nonzero columns, and their products. */
module SparsityPatterns {

  type Pattern = seq<set<nat>>

  /** The first m rows are rows of a matrix with n columns. */
  ghost predicate IsMatrix(p: Pattern, m: nat, n: nat) {
    m <= |p| && forall i, j {:trigger j in p[i]} :: 0 <= i < m && j in p[i] ==> j < n
  }

  /** Row i of A and column j of B, both with n elements, meet in a nonzero product. */
  ghost predicate InProduct(a: Pattern, b: Pattern, n: nat, i: nat, j: nat)
    requires i < |a| && n <= |b|
  {
    exists k: nat :: k < n && k in a[i] && j in b[k]
  }

  /** The same for the transpose of A, which has m rows like B. */
  ghost predicate InTransProduct(a: Pattern, b: Pattern, m: nat, i: nat, j: nat)
    requires m <= |a| && m <= |b|
  {
    exists k: nat :: k < m && i in a[k] && j in b[k]
  }

  method IsIdentityPattern(pattern: Pattern, mRows: nat) returns (r: bool)
    requires mRows <= |pattern|
    ensures r <==> forall i :: 0 <= i < mRows ==> pattern[i] == {i}
  {
    for i := 0 to mRows
      invariant forall k :: 0 <= k < i ==> pattern[k] == {k}
    {
      if pattern[i] != {i} {
        return false;
      }
    }
    return true;
  }

  /** i is inserted into the rows of the given numbers. */
  method InsertInto(rows: array<set<nat>>, columns: set<nat>, i: nat)
    requires forall j :: j in columns ==> j < rows.Length
    modifies rows
    ensures forall j :: 0 <= j < rows.Length ==> rows[j] == if j in columns then old(rows[j]) + {i} else old(rows[j])
  {
    var todo := columns;
    while todo != {}
      invariant todo <= columns
      invariant forall j :: 0 <= j < rows.Length ==>
        rows[j] == if j in columns - todo then old(rows[j]) + {i} else old(rows[j])
      decreases |todo|
    {
      var j :| j in todo;
      rows[j] := rows[j] + {i};
      todo := todo - {j};
    }
  }

  /** `addTransMatrixSparsity`: R += A^T. */
  method AddTransMatrixSparsity(a: Pattern, mRows: nat, result: array<set<nat>>)
    requires IsMatrix(a, mRows, result.Length)
    modifies result
    ensures forall i, j: nat {:trigger j in result[i]} :: 0 <= i < result.Length ==>
      (j in result[i] <==> j in old(result[i]) || (j < mRows && i in a[j]))
  {
    for k := 0 to mRows
      invariant forall i, j: nat {:trigger j in result[i]} :: 0 <= i < result.Length ==>
        (j in result[i] <==> j in old(result[i]) || (j < k && i in a[j]))
    {
      InsertInto(result, a[k], k);
    }
  }

  /** `transposePattern`. */
  method TransposePattern(pattern: Pattern, mRows: nat, nCols: nat) returns (transpose: Pattern)
    requires IsMatrix(pattern, mRows, nCols)
    ensures IsTranspose(pattern, mRows, nCols, transpose)
  {
    var rows := new set<nat>[nCols](_ => {});
    AddTransMatrixSparsity(pattern, mRows, rows);
    transpose := rows[..];
  }

  ghost predicate IsTranspose(pattern: Pattern, mRows: nat, nCols: nat, transpose: Pattern) {
    && mRows <= |pattern| && |transpose| == nCols
    && forall i, j: nat {:trigger j in transpose[i]} :: 0 <= i < nCols ==>
         (j in transpose[i] <==> j < mRows && i in pattern[j])
  }

  /** `addMatrixSparsity`: R += A. */
  method AddMatrixSparsity(a: Pattern, mRows: nat, result: array<set<nat>>)
    requires mRows <= |a| && mRows <= result.Length
    modifies result
    ensures forall i :: 0 <= i < result.Length ==>
      result[i] == if i < mRows then old(result[i]) + a[i] else old(result[i])
  {
    for i := 0 to mRows
      invariant forall k :: 0 <= k < result.Length ==>
        result[k] == if k < i then old(result[k]) + a[k] else old(result[k])
    {
      if result[i] == {} {
        result[i] := a[i];
      } else {
        result[i] := result[i] + a[i];
      }
    }
  }

  /** The search for a common element, which stops at the first one. */
  method Meet(a: set<nat>, b: set<nat>) returns (r: bool)
    ensures r <==> exists k :: k in a && k in b
  {
    var todo := b;
    while todo != {}
      invariant todo <= b && forall k :: k in b - todo ==> k !in a
      decreases |todo|
    {
      var k :| k in todo;
      if k in a {
        return true;
      }
      todo := todo - {k};
    }
    return false;
  }

  /** j is inserted into every one of the first m rows of the result whose left row meets the column. */
  method AddColumn(rows: Pattern, column: set<nat>, m: nat, j: nat, result: array<set<nat>>)
    requires m <= |rows| && m <= result.Length
    modifies result
    ensures forall i :: 0 <= i < result.Length ==>
      result[i] == if i < m && (exists k :: k in rows[i] && k in column) then old(result[i]) + {j} else old(result[i])
  {
    for i := 0 to m
      invariant forall x :: 0 <= x < result.Length ==>
        result[x] == if x < i && (exists k :: k in rows[x] && k in column) then old(result[x]) + {j} else old(result[x])
    {
      var meet := Meet(rows[i], column);
      if meet {
        result[i] := result[i] + {j};
      }
    }
  }

  /** The product of rows and columns is added to the first m rows of the result. */
  method AddRowsTimesColumns(rows: Pattern, columns: Pattern, m: nat, q: nat, result: array<set<nat>>)
    requires m <= |rows| && m <= result.Length && q == |columns|
    modifies result
    ensures forall i, j: nat {:trigger j in result[i]} :: 0 <= i < result.Length ==>
      (j in result[i] <==> j in old(result[i]) || (i < m && j < q && exists k :: k in rows[i] && k in columns[j]))
  {
    for jj := 0 to q
      invariant forall i, j: nat {:trigger j in result[i]} :: 0 <= i < result.Length ==>
        (j in result[i] <==> j in old(result[i]) || (i < m && j < jj && exists k :: k in rows[i] && k in columns[j]))
    {
      if columns[jj] != {} {
        AddColumn(rows, columns[jj], m, jj, result);
      }
    }
  }

  /** `multMatrixMatrixSparsity`: R += A * B. */
  method MultMatrixMatrixSparsity(a: Pattern, b: Pattern, result: array<set<nat>>, m: nat, n: nat, q: nat)
    requires IsMatrix(a, m, n) && IsMatrix(b, n, q) && m <= result.Length
    modifies result
    ensures forall i, j: nat {:trigger j in result[i]} :: 0 <= i < result.Length ==>
      (j in result[i] <==> j in old(result[i]) || (i < m && InProduct(a, b, n, i, j)))
  {
    if n == q {
      var identity := IsIdentityPattern(b, n);
      if identity {
        AddMatrixSparsity(a, m, result);
        assert forall i: nat, j: nat {:trigger j in a[i]} :: i < m ==> (InProduct(a, b, n, i, j) <==> j in a[i]);
        return;
      }
    }
    var bt := TransposePattern(b, n, q);
    AddRowsTimesColumns(a, bt, m, q, result);
    forall i: nat, j: nat | i < m
      ensures InProduct(a, b, n, i, j) <==> j < q && exists k :: k in a[i] && k in bt[j]
    {
      if InProduct(a, b, n, i, j) {
        var k: nat :| k < n && k in a[i] && j in b[k];
        assert k in bt[j];
      }
    }
  }

  /** All rows are empty. */
  method IsEmpty(b: Pattern, m: nat) returns (empty: bool)
    requires m <= |b|
    ensures empty <==> forall i :: 0 <= i < m ==> b[i] == {}
  {
    for i := 0 to m
      invariant forall k :: 0 <= k < i ==> b[k] == {}
    {
      if b[i] != {} {
        return false;
      }
    }
    return true;
  }

  /** `multMatrixTransMatrixSparsity`: R += A^T * B. */
  method MultMatrixTransMatrixSparsity(a: Pattern, b: Pattern, result: array<set<nat>>, m: nat, n: nat, q: nat)
    requires IsMatrix(a, m, n) && IsMatrix(b, m, q) && n <= result.Length
    modifies result
    ensures forall i, j: nat {:trigger j in result[i]} :: 0 <= i < result.Length ==>
      (j in result[i] <==> j in old(result[i]) || InTransProduct(a, b, m, i, j))
  {
    var empty := IsEmpty(b, m);
    if empty {
      return;
    }
    if m == n {
      var identity := IsIdentityPattern(a, m);
      if identity {
        AddMatrixSparsity(b, n, result);
        assert forall i: nat, j: nat {:trigger j in b[i]} :: i < m ==> (InTransProduct(a, b, m, i, j) <==> j in b[i]);
        return;
      }
    }
    if m == q {
      var identity := IsIdentityPattern(b, m);
      if identity {
        AddTransMatrixSparsity(a, m, result);
        assert forall i: nat, j: nat {:trigger i in a[j]} :: j < m ==> (InTransProduct(a, b, m, i, j) <==> i in a[j]);
        return;
      }
    }
    var at := TransposePattern(a, m, n);
    var bt := TransposePattern(b, m, q);
    AddRowsTimesColumns(at, bt, n, q, result);
    forall i: nat, j: nat
      ensures InTransProduct(a, b, m, i, j) <==> i < n && j < q && exists k :: k in at[i] && k in bt[j]
    {
      TransposedMeet(a, b, m, n, q, at, bt, i, j);
    }
  }

  lemma {:induction false} TransposedMeet(a: Pattern, b: Pattern, m: nat, n: nat, q: nat, at: Pattern, bt: Pattern,
                                          i: nat, j: nat)
    requires IsMatrix(a, m, n) && IsMatrix(b, m, q) && IsTranspose(a, m, n, at) && IsTranspose(b, m, q, bt)
    ensures InTransProduct(a, b, m, i, j) <==> i < n && j < q && exists k :: k in at[i] && k in bt[j]
  {
    if InTransProduct(a, b, m, i, j) {
      var k: nat :| k < m && i in a[k] && j in b[k];
      assert k in at[i] && k in bt[j];
    }
    if i < n && j < q && exists k :: k in at[i] && k in bt[j] {
      var k :| k in at[i] && k in bt[j];
      assert k < m && i in a[k] && j in b[k];
    }
  }

  /** `multMatrixMatrixSparsityTrans`: the transpose of R += A * B, from the transpose of A. */
  method MultMatrixMatrixSparsityTrans(aT: Pattern, b: Pattern, rT: array<set<nat>>, m: nat, n: nat, q: nat)
    requires IsMatrix(aT, m, q) && IsMatrix(b, m, n) && n <= rT.Length
    modifies rT
    ensures forall i, j: nat {:trigger j in rT[i]} :: 0 <= i < rT.Length ==>
      (j in rT[i] <==> j in old(rT[i]) || InTransProduct(aT, b, m, j, i))
  {
    var empty := IsEmpty(b, m);
    if empty {
      return;
    }
    if m == q {
      var identity := IsIdentityPattern(aT, m);
      if identity {
        AddTransMatrixSparsity(b, m, rT);
        assert forall i: nat, j: nat {:trigger i in b[j]} :: j < m ==> (InTransProduct(aT, b, m, j, i) <==> i in b[j]);
        return;
      }
    }
    var a := TransposePattern(aT, m, q);
    var bT := TransposePattern(b, m, n);
    for jj := 0 to n
      invariant forall i, j: nat {:trigger j in rT[i]} :: 0 <= i < rT.Length ==>
        (j in rT[i] <==> j in old(rT[i]) || (i < jj && InTransProduct(aT, b, m, j, i)))
    {
      ghost var before := rT[jj];
      for i := 0 to q
        invariant forall x, j: nat {:trigger j in rT[x]} :: 0 <= x < rT.Length && x != jj ==>
          (j in rT[x] <==> j in old(rT[x]) || (x < jj && InTransProduct(aT, b, m, j, x)))
        invariant forall j: nat :: j in rT[jj] <==> j in before || (j < i && InTransProduct(aT, b, m, j, jj))
      {
        TransposedMeet(aT, b, m, q, n, a, bT, i, jj);
        var meet := Meet(bT[jj], a[i]);
        if meet {
          rT[jj] := rT[jj] + {i};
        }
      }
    }
  }

  /** The transpose of A^T B is B^T A: the transposed form is the other one with its factors swapped. */
  lemma {:induction false} TransposedProduct(a: Pattern, b: Pattern, m: nat, i: nat, j: nat)
    requires m <= |a| && m <= |b|
    ensures InTransProduct(a, b, m, i, j) <==> InTransProduct(b, a, m, j, i)
  {
    if InTransProduct(a, b, m, i, j) {
      var k: nat :| k < m && i in a[k] && j in b[k];
      assert j in b[k] && i in a[k];
    }
    if InTransProduct(b, a, m, j, i) {
      var k: nat :| k < m && j in b[k] && i in a[k];
    }
  }

  /** A^T B is the product of the transpose of A and B. */
  lemma {:induction false} TransProductIsProduct(a: Pattern, b: Pattern, m: nat, n: nat, at: Pattern, i: nat, j: nat)
    requires IsMatrix(a, m, n) && m <= |b| && IsTranspose(a, m, n, at) && i < n
    ensures InTransProduct(a, b, m, i, j) <==> InProduct(at, b, m, i, j)
  {
    if InTransProduct(a, b, m, i, j) {
      var k: nat :| k < m && i in a[k] && j in b[k];
      assert k in at[i];
    }
    if InProduct(at, b, m, i, j) {
      var k: nat :| k < m && k in at[i] && j in b[k];
    }
  }
}
