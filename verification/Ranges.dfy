/**
  Sets of loop iterations as lists of intervals: a vector of bounds (start1, end1, start2, end2, ...)
  is a list of pairs here.
 */
module Ranges {

  /** The largest value of the type of an iteration index. */
  const SIZE_MAX: nat := 0xFFFF_FFFF_FFFF_FFFF

  datatype Interval = Interval(first: nat, last: nat)

  ghost predicate Holds(i: Interval, x: nat) {
    i.first <= x <= i.last
  }

  /** Iteration x is in one of the regions. */
  ghost predicate Contains(s: seq<Interval>, x: nat) {
    exists i :: 0 <= i < |s| && Holds(s[i], x)
  }

  /**
    The intervals are not empty, fit the index type, and are in order with at least one iteration between two of them.
   */
  ghost predicate Normal(s: seq<Interval>) {
    && (forall i :: 0 <= i < |s| ==> s[i].first <= s[i].last <= SIZE_MAX)
    && (forall i, j :: 0 <= i < j < |s| ==> s[i].last + 1 < s[j].first)
  }

  lemma {:induction false} ContainsAppend(s: seq<Interval>, i: Interval, x: nat)
    ensures Contains(s + [i], x) <==> Contains(s, x) || Holds(i, x)
  {
    if Contains(s, x) {
      var k :| 0 <= k < |s| && Holds(s[k], x);
      assert Holds((s + [i])[k], x);
    }
    if Holds(i, x) {
      assert Holds((s + [i])[|s|], x);
    }
    if Contains(s + [i], x) {
      var k :| 0 <= k < |s + [i]| && Holds((s + [i])[k], x);
      assert k < |s| ==> Holds(s[k], x);
    }
  }

  lemma {:induction false} ContainsPart(s: seq<Interval>, n: nat, x: nat)
    requires n < |s|
    ensures Contains(s[..n + 1], x) <==> Contains(s[..n], x) || Holds(s[n], x)
  {
    assert s[..n + 1] == s[..n] + [s[n]];
    ContainsAppend(s[..n], s[n], x);
  }

  lemma {:induction false} NormalAppend(s: seq<Interval>, i: Interval)
    requires Normal(s) && i.first <= i.last <= SIZE_MAX && (|s| > 0 ==> s[|s| - 1].last + 1 < i.first)
    ensures Normal(s + [i])
  {
    var r := s + [i];
    forall j, k | 0 <= j < k < |r|
      ensures r[j].last + 1 < r[k].first
    {
      assert k == |s| && j < |s| - 1 ==> s[j].last + 1 < s[|s| - 1].first;
    }
  }

  // ---------------------------------------------------------------------------------------------
  // Normal lists are determined by what they contain

  lemma {:induction false} SameFirst(a: seq<Interval>, b: seq<Interval>)
    requires Normal(a) && Normal(b) && |a| > 0 && forall x: nat :: Contains(a, x) <==> Contains(b, x)
    ensures |b| > 0 && a[0].first >= b[0].first
  {
    assert Holds(a[0], a[0].first) && Contains(a, a[0].first);
    var k :| 0 <= k < |b| && Holds(b[k], a[0].first);
  }

  lemma {:induction false} SameLast(a: seq<Interval>, b: seq<Interval>)
    requires Normal(a) && Normal(b) && |a| > 0 && |b| > 0 && a[0].first == b[0].first
    requires forall x: nat :: Contains(a, x) <==> Contains(b, x)
    ensures a[0].last <= b[0].last
  {
    // the iteration after b[0] is in neither
    var x: nat := b[0].last + 1;
    forall k | 0 <= k < |b|
      ensures !Holds(b[k], x)
    {
      assert k > 0 ==> b[0].last + 1 < b[k].first;
    }
    assert !Contains(b, x) && !Contains(a, x);
    assert !Holds(a[0], x);
  }

  lemma {:induction false} ContainsRest(a: seq<Interval>, x: nat)
    requires Normal(a) && |a| > 0
    ensures Contains(a[1..], x) <==> Contains(a, x) && !Holds(a[0], x)
  {
    if Contains(a[1..], x) {
      var k :| 0 <= k < |a[1..]| && Holds(a[1..][k], x);
      assert Holds(a[k + 1], x) && a[0].last + 1 < a[k + 1].first;
    }
    if Contains(a, x) && !Holds(a[0], x) {
      var k :| 0 <= k < |a| && Holds(a[k], x);
      assert Holds(a[1..][k - 1], x);
    }
  }

  lemma {:induction false} NormalIsUnique(a: seq<Interval>, b: seq<Interval>)
    requires Normal(a) && Normal(b) && forall x: nat :: Contains(a, x) <==> Contains(b, x)
    ensures a == b
  {
    if |a| > 0 {
      SameFirst(a, b);
      SameFirst(b, a);
      SameLast(a, b);
      SameLast(b, a);
      forall x: nat
        ensures Contains(a[1..], x) <==> Contains(b[1..], x)
      {
        ContainsRest(a, x);
        ContainsRest(b, x);
      }
      NormalIsUnique(a[1..], b[1..]);
    } else if |b| > 0 {
      SameFirst(b, a);
    }
  }

  // ---------------------------------------------------------------------------------------------
  // Complement

  ghost predicate IsComplement(s: seq<Interval>, t: seq<Interval>) {
    && Normal(t)
    && forall x: nat :: Contains(t, x) <==> x <= 0xFFFF_FFFF_FFFF_FFFF && !Contains(s, x)
  }

  /** The iterations before `limit` that are not in the regions. */
  ghost predicate IsGaps(s: seq<Interval>, t: seq<Interval>, limit: nat) {
    && Normal(t) && (|t| > 0 ==> t[|t| - 1].last + 1 < limit)
    && forall x: nat :: Contains(t, x) <==> x < limit && !Contains(s, x)
  }

  /** Up to and including interval k, and up to the one after it. */
  lemma {:induction false} GapsNext(s: seq<Interval>, t: seq<Interval>, k: nat)
    requires Normal(s) && 0 < k < |s| && IsGaps(s, t, s[k - 1].last + 1)
    ensures IsGaps(s, t + [Interval(s[k - 1].last + 1, s[k].first - 1)], s[k].last + 1)
  {
    var gap := Interval(s[k - 1].last + 1, s[k].first - 1);
    forall x: nat
      ensures Contains(t + [gap], x) <==> x < s[k].last + 1 && !Contains(s, x)
    {
      ContainsAppend(t, gap, x);
      NotInGap(s, k, x);
    }
  }

  lemma {:induction false} NotInGap(s: seq<Interval>, k: nat, x: nat)
    requires Normal(s) && 0 < k < |s|
    ensures s[k - 1].last < x < s[k].first ==> !Contains(s, x)
    ensures s[k].first <= x <= s[k].last ==> Contains(s, x)
  {
    if s[k].first <= x <= s[k].last {
      assert Holds(s[k], x);
    }
    forall i | 0 <= i < |s| && s[k - 1].last < x < s[k].first
      ensures !Holds(s[i], x)
    {
      assert i < k - 1 ==> s[i].last + 1 < s[k - 1].first;
      assert k < i ==> s[k].last + 1 < s[i].first;
    }
  }

  /** The iterations before the first interval. */
  lemma {:induction false} GapsFirst(s: seq<Interval>)
    requires Normal(s) && |s| > 0
    ensures IsGaps(s, if s[0].first != 0 then [Interval(0, s[0].first - 1)] else [], s[0].last + 1)
  {
    var t := if s[0].first != 0 then [Interval(0, s[0].first - 1)] else [];
    forall x: nat
      ensures Contains(t, x) <==> x < s[0].last + 1 && !Contains(s, x)
    {
      if s[0].first != 0 {
        ContainsAppend([], Interval(0, s[0].first - 1), x);
        assert [] + t == t;
      }
      assert s[0].first <= x <= s[0].last ==> Holds(s[0], x);
      forall i | 0 <= i < |s| && x < s[0].first
        ensures !Holds(s[i], x)
      {
        assert i > 0 ==> s[0].last + 1 < s[i].first;
      }
    }
  }

  lemma {:induction false} PastLast(s: seq<Interval>, x: nat)
    requires Normal(s) && |s| > 0 && x > s[|s| - 1].last
    ensures !Contains(s, x)
  {
    forall i | 0 <= i < |s|
      ensures !Holds(s[i], x)
    {
      assert i < |s| - 1 ==> s[i].last + 1 < s[|s| - 1].first;
    }
  }

  /** The iterations after the last interval. */
  lemma {:induction false} GapsLast(s: seq<Interval>, t: seq<Interval>)
    requires Normal(s) && |s| > 0 && IsGaps(s, t, s[|s| - 1].last + 1)
    ensures IsComplement(s, if s[|s| - 1].last != SIZE_MAX then t + [Interval(s[|s| - 1].last + 1, SIZE_MAX)] else t)
  {
    var last := s[|s| - 1].last;
    var r := if last != SIZE_MAX then t + [Interval(last + 1, SIZE_MAX)] else t;
    if last != SIZE_MAX {
      NormalAppend(t, Interval(last + 1, SIZE_MAX));
    }
    hide Normal, Contains;
    forall x: nat
      ensures Contains(r, x) <==> x <= SIZE_MAX && !Contains(s, x)
    {
      if last != SIZE_MAX {
        ContainsAppend(t, Interval(last + 1, SIZE_MAX), x);
      }
      if x > last {
        PastLast(s, x);
      }
    }
  }

  lemma {:induction false} ComplementOfNone()
    ensures IsComplement([], [Interval(0, SIZE_MAX)])
  {
    forall x: nat
      ensures Contains([Interval(0, SIZE_MAX)], x) <==> x <= SIZE_MAX
    {
      assert Contains([Interval(0, SIZE_MAX)], x) <==> Holds([Interval(0, SIZE_MAX)][0], x);
    }
  }

  lemma {:induction false} Gap(s: seq<Interval>, k: nat)
    requires Normal(s) && 0 < k < |s|
    ensures s[k - 1].last + 1 < s[k].first
  {}

  /** `invertIterationRanges`: the iterations that are not in the regions. */
  method InvertIterationRanges(iterRegions: seq<Interval>) returns (inverted: seq<Interval>)
    requires Normal(iterRegions)
    ensures IsComplement(iterRegions, inverted)
  {
    hide *;
    if iterRegions == [] {
      ComplementOfNone();
      return [Interval(0, SIZE_MAX)];
    }
    inverted := [];
    GapsFirst(iterRegions);
    if iterRegions[0].first != 0 {
      inverted := [Interval(0, iterRegions[0].first - 1)];
    }
    for i := 1 to |iterRegions|
      invariant IsGaps(iterRegions, inverted, iterRegions[i - 1].last + 1)
    {
      Gap(iterRegions, i);
      GapsNext(iterRegions, inverted, i);
      inverted := inverted + [Interval(iterRegions[i - 1].last + 1, iterRegions[i].first - 1)];
    }
    GapsLast(iterRegions, inverted);
    if iterRegions[|iterRegions| - 1].last != SIZE_MAX {
      inverted := inverted + [Interval(iterRegions[|iterRegions| - 1].last + 1, SIZE_MAX)];
    }
  }

  /** Inverting twice gives the regions back. */
  lemma {:induction false} InvertTwice(s: seq<Interval>, t: seq<Interval>, u: seq<Interval>)
    requires Normal(s) && IsComplement(s, t) && IsComplement(t, u)
    ensures u == s
  {
    forall x: nat
      ensures Contains(u, x) <==> Contains(s, x)
    {
      if Contains(s, x) {
        var i :| 0 <= i < |s| && Holds(s[i], x);
      }
    }
    NormalIsUnique(u, s);
  }

  // ---------------------------------------------------------------------------------------------
  // Union

  /** The order of pairs. */
  predicate Before(a: Interval, b: Interval) {
    a.first < b.first || (a.first == b.first && a.last < b.last)
  }

  /** Intervals that may overlap, in order. */
  ghost predicate Sorted(s: seq<Interval>) {
    && (forall i :: 0 <= i < |s| ==> s[i].first <= s[i].last <= SIZE_MAX)
    && (forall i, j :: 0 <= i < j < |s| ==> !Before(s[j], s[i]))
  }

  lemma {:induction false} ContainsInsert(s: seq<Interval>, k: nat, i: Interval, x: nat)
    requires k <= |s|
    ensures Contains(s[..k] + [i] + s[k..], x) <==> Contains(s, x) || Holds(i, x)
  {
    var r := s[..k] + [i] + s[k..];
    if Contains(s, x) {
      var j :| 0 <= j < |s| && Holds(s[j], x);
      assert Holds(r[if j < k then j else j + 1], x);
    }
    if Holds(i, x) {
      assert Holds(r[k], x);
    }
    if Contains(r, x) {
      var j :| 0 <= j < |r| && Holds(r[j], x);
      assert j < k ==> Holds(s[j], x);
      assert j > k ==> Holds(s[j - 1], x);
    }
  }

  lemma {:induction false} SortedInsert(s: seq<Interval>, k: nat, p: Interval)
    requires Sorted(s) && k <= |s| && p.first <= p.last <= SIZE_MAX
    requires (forall i :: 0 <= i < k ==> Before(s[i], p)) && (forall i :: k <= i < |s| ==> !Before(s[i], p))
    ensures Sorted(s[..k] + [p] + s[k..])
  {
    var r := s[..k] + [p] + s[k..];
    forall i, j | 0 <= i < j < |r|
      ensures !Before(r[j], r[i])
    {
      var i0, j0 := if i < k then i else i - 1, if j < k then j else j - 1;
      assert i != k ==> r[i] == s[i0];
      assert j != k ==> r[j] == s[j0];
    }
  }

  /** `std::lower_bound` from a position on. */
  method LowerBound(s: seq<Interval>, begin: nat, p: Interval) returns (k: nat)
    requires Sorted(s) && begin <= |s| && forall i :: 0 <= i < begin ==> Before(s[i], p)
    ensures begin <= k <= |s|
    ensures (forall i :: 0 <= i < k ==> Before(s[i], p)) && (forall i :: k <= i < |s| ==> !Before(s[i], p))
  {
    k := begin;
    while k < |s| && Before(s[k], p)
      invariant begin <= k <= |s| && forall i :: 0 <= i < k ==> Before(s[i], p)
    {
      k := k + 1;
    }
    assert forall i :: k < i < |s| ==> !Before(s[i], s[k]);
  }

  /** The new intervals are inserted where they belong. */
  method InsertAll(iterRegions: seq<Interval>, newIterRegions: seq<Interval>) returns (sorted: seq<Interval>)
    requires Normal(iterRegions) && Normal(newIterRegions)
    ensures Sorted(sorted) && |sorted| == |iterRegions| + |newIterRegions|
    ensures forall x: nat :: Contains(sorted, x) <==> Contains(iterRegions, x) || Contains(newIterRegions, x)
  {
    sorted := iterRegions;
    var begin := 0;
    for i := 0 to |newIterRegions|
      invariant Sorted(sorted) && |sorted| == |iterRegions| + i && begin <= |sorted|
      invariant forall k :: 0 <= k < begin && i < |newIterRegions| ==> Before(sorted[k], newIterRegions[i])
      invariant forall x: nat :: Contains(sorted, x) <==> Contains(iterRegions, x) || Contains(newIterRegions[..i], x)
    {
      var p := newIterRegions[i];
      ghost var s := sorted;
      begin := LowerBound(sorted, begin, p);
      SortedInsert(sorted, begin, p);
      forall x: nat
        ensures Contains(s[..begin] + [p] + s[begin..], x) <==>
          Contains(iterRegions, x) || Contains(newIterRegions[..i + 1], x)
      {
        ContainsInsert(s, begin, p, x);
        ContainsPart(newIterRegions, i, x);
      }
      assert i + 1 < |newIterRegions| ==> Before(p, newIterRegions[i + 1]);
      sorted := sorted[..begin] + [p] + sorted[begin..];
      begin := begin + 1;
    }
    assert newIterRegions[..|newIterRegions|] == newIterRegions;
  }

  /** The first n intervals were joined. */
  ghost predicate Joined(sorted: seq<Interval>, n: nat, result: seq<Interval>) {
    && 0 < n <= |sorted| && Sorted(sorted) && Normal(result) && |result| > 0
    && SameIterations(result, sorted[..n])
    && result[|result| - 1].first <= sorted[n - 1].first
  }

  ghost predicate SameIterations(a: seq<Interval>, b: seq<Interval>) {
    forall x: nat :: Contains(a, x) <==> Contains(b, x)
  }

  /** The last interval is replaced by a longer one. */
  lemma {:induction false} NormalGrown(s: seq<Interval>, last: nat)
    requires Normal(s) && |s| > 0 && s[|s| - 1].last <= last <= SIZE_MAX
    ensures Normal(s[|s| - 1 := s[|s| - 1].(last := last)])
  {}

  lemma {:induction false} JoinedApart(sorted: seq<Interval>, n: nat, result: seq<Interval>, curr: Interval)
    requires n < |sorted| && curr == sorted[n] && SameIterations(result, sorted[..n])
    ensures SameIterations(result + [curr], sorted[..n + 1])
  {
    forall x: nat
      ensures Contains(result + [curr], x) <==> Contains(sorted[..n + 1], x)
    {
      ContainsPart(sorted, n, x);
      ContainsAppend(result, curr, x);
    }
  }

  /** The interval starts in the last one, or directly after it. */
  lemma {:induction false} JoinedGrown(sorted: seq<Interval>, n: nat, result: seq<Interval>, grown: Interval)
    requires n < |sorted| && SameIterations(result, sorted[..n]) && |result| > 0
    requires var top := result[|result| - 1];
      top.first <= sorted[n].first <= top.last + 1 && top.last <= sorted[n].last
        && grown == top.(last := sorted[n].last)
    ensures SameIterations(result[|result| - 1 := grown], sorted[..n + 1])
  {
    var rest, top := result[..|result| - 1], result[|result| - 1];
    assert rest + [top] == result && rest + [grown] == result[|result| - 1 := grown];
    forall x: nat
      ensures Contains(rest + [grown], x) <==> Contains(sorted[..n + 1], x)
    {
      ContainsPart(sorted, n, x);
      ContainsAppend(rest, top, x);
      ContainsAppend(rest, grown, x);
      assert Holds(grown, x) <==> Holds(top, x) || Holds(sorted[n], x);
      hide Contains, Holds;
    }
  }

  lemma {:induction false} JoinedInside(sorted: seq<Interval>, n: nat, result: seq<Interval>)
    requires n < |sorted| && SameIterations(result, sorted[..n]) && |result| > 0
    requires var top := result[|result| - 1]; top.first <= sorted[n].first && sorted[n].last <= top.last
    ensures SameIterations(result, sorted[..n + 1])
  {
    forall x: nat
      ensures Contains(result, x) <==> Contains(sorted[..n + 1], x)
    {
      ContainsPart(sorted, n, x);
      assert Holds(sorted[n], x) ==> Holds(result[|result| - 1], x);
    }
  }

  /** Interval n is added, or joined with the last one. */
  function JoinOne(result: seq<Interval>, curr: Interval): seq<Interval>
    requires |result| > 0
  {
    var last := |result| - 1;
    if result[last].last + 1 < curr.first then result + [curr]
    else if result[last].last < curr.last then result[last := result[last].(last := curr.last)]
    else result
  }

  lemma {:induction false} InOrderAt(sorted: seq<Interval>, n: nat)
    requires Sorted(sorted) && 0 < n < |sorted|
    ensures sorted[n - 1].first <= sorted[n].first <= sorted[n].last <= SIZE_MAX
  {
    assert !Before(sorted[n], sorted[n - 1]);
  }

  lemma {:induction false} JoinNext(sorted: seq<Interval>, n: nat, result: seq<Interval>)
    requires Joined(sorted, n, result) && n < |sorted|
    ensures Joined(sorted, n + 1, JoinOne(result, sorted[n]))
  {
    hide Sorted, Normal, SameIterations;
    var curr, top := sorted[n], result[|result| - 1];
    InOrderAt(sorted, n);
    if top.last + 1 < curr.first {
      NormalAppend(result, curr);
      JoinedApart(sorted, n, result, curr);
    } else if top.last < curr.last {
      NormalGrown(result, curr.last);
      JoinedGrown(sorted, n, result, top.(last := curr.last));
    } else {
      JoinedInside(sorted, n, result);
    }
  }

  /** Once the last iteration is reached, the rest adds nothing. */
  lemma {:induction false} JoinFull(sorted: seq<Interval>, n: nat, result: seq<Interval>)
    requires Joined(sorted, n, result) && result[|result| - 1].last == SIZE_MAX
    ensures Joined(sorted, |sorted|, result)
    decreases |sorted| - n
  {
    if n < |sorted| {
      InOrderAt(sorted, n);
      JoinNext(sorted, n, result);
      JoinFull(sorted, n + 1, result);
    } else {
      assert sorted[..n] == sorted;
    }
  }

  /** `combineOverlapingIterationRanges`: the iterations in either of the regions. */
  method CombineOverlapingIterationRanges(iterRegions: seq<Interval>, newIterRegions: seq<Interval>)
    returns (result: seq<Interval>)
    requires Normal(iterRegions) && Normal(newIterRegions)
    ensures Normal(result)
    ensures forall x: nat :: Contains(result, x) <==> Contains(iterRegions, x) || Contains(newIterRegions, x)
  {
    if iterRegions == [] {
      return newIterRegions;
    } else if newIterRegions == [] {
      return iterRegions;
    }
    var sorted := InsertAll(iterRegions, newIterRegions);
    result := [sorted[0]];
    JoinFirst(sorted);
    var i := 1;
    hide Joined;
    while i < |sorted|
      invariant 1 <= i <= |sorted| && Joined(sorted, i, result) && |result| > 0
    {
      var curr, top := sorted[i], result[|result| - 1];
      if top.last == SIZE_MAX {
        JoinFull(sorted, i, result);
        break;
      }
      JoinNext(sorted, i, result);
      if top.last + 1 < curr.first {
        result := result + [curr];
      } else if top.last < curr.last {
        result := result[|result| - 1 := top.(last := curr.last)];
      }
      i := i + 1;
    }
    JoinAll(sorted, result);
  }

  lemma {:induction false} JoinFirst(sorted: seq<Interval>)
    requires Sorted(sorted) && |sorted| > 0
    ensures Joined(sorted, 1, [sorted[0]])
  {
    assert sorted[..1] == [sorted[0]];
  }

  lemma {:induction false} JoinAll(sorted: seq<Interval>, result: seq<Interval>)
    requires Joined(sorted, |sorted|, result)
    ensures Normal(result) && forall x: nat :: Contains(result, x) <==> Contains(sorted, x)
  {
    assert sorted[..|sorted|] == sorted;
  }
}
