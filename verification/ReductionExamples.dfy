/** Three models that show how the index reduction ends. */
module ReductionExamples {
  import opened Wrappers
  import opened Matching
  import opened BipartiteGraphs
  import opened Coverage
  import opened ReductionRuns
  import opened Pantelides

  /** The graph as the constructor builds it, with as many unknown variables as equations. */
  ghost predicate IsModel(h: History, antiDerivative: Links, rows: Adjacency) {
    h.previous == antiDerivative && Begins(h, |rows|) && h.NoParameters() && SameRows(h.original, rows)
  }

  lemma {:induction false} ModelParts(h: History, antiDerivative: Links, rows: Adjacency)
    requires IsModel(h, antiDerivative, rows)
    ensures h.previous == antiDerivative && Chains(h.next, h.previous) && |h.parameter| == |h.next|
    ensures h.Valid(|rows|) && Begins(h, |rows|)
    ensures |h.original| == |h.eNext| == |rows| && forall e: nat :: e < |rows| ==> h.eNext[e].None?
    ensures forall e: nat, v: nat {:trigger v in h.original[e]} :: e < |rows| ==> (v in h.original[e] <==> v in rows[e])
    ensures forall v: nat :: v < |h.next| ==> (Live(h, v) <==> h.next[v].None?)
  {
    BeginningIsSound(h, |rows|);
    hide History.Descends, NoneAbove, Sound;
  }

  lemma {:induction false} ModelBegins(h: History, antiDerivative: Links, rows: Adjacency)
    requires IsModel(h, antiDerivative, rows)
    ensures Begins(h, |rows|) && h.NoParameters()
  {}

  /** A model in a graph that is ready for the index reduction. */
  method NewModel(antiDerivative: Links, rows: Adjacency) returns (g: BipartiteGraph, determined: bool)
    requires forall j :: 0 <= j < |antiDerivative| && antiDerivative[j].Some? ==> antiDerivative[j].value < j
    requires forall j, k :: 0 <= j < k < |antiDerivative| && antiDerivative[j].Some? ==>
      antiDerivative[j] != antiDerivative[k]
    requires forall i, n :: 0 <= i < |rows| && 0 <= n < |rows[i]| ==> rows[i][n] < |antiDerivative|
    ensures fresh(g) && Initial(g) && g.Structure() && |g.eVariables| == |rows|
    ensures IsModel(HistoryOf(g), antiDerivative, rows)
    ensures determined <==> Count(g.Unknowns()) == |rows|
  {
    hide Edges, Chains, Deletions, Begins;
    g := new BipartiteGraph(antiDerivative, rows);
    determined := g.IsWellDetermined();
    InitialBegins(g);
    OriginalsAre(g, rows);
  }

  lemma {:induction false} OriginalsAre(g: BipartiteGraph, rows: Adjacency)
    requires g.Structure() && |g.eVariables| == |rows| && forall v :: 0 <= v < |g.vDeleted| ==> !g.vDeleted[v]
    requires forall e, v {:trigger v in g.eVariables[e]} :: 0 <= e < |rows| ==> (v in g.eVariables[e] <==> v in rows[e])
    ensures SameRows(g.eOriginalVariables, rows) && HistoryOf(g).NoParameters()
  {
    hide Chains;
  }

  // ---------------------------------------------------------------------------------------------
  // Three equations for two variables, beside one equation for two others: differentiating never ends

  function CrowdedLinks(): Links { [None, None, None, None] }

  function CrowdedRows(): Adjacency { [[0, 1], [0, 1], [0, 1], [2, 3]] }

  lemma {:induction false} CrowdedBegins(h0: History)
    requires IsModel(h0, CrowdedLinks(), CrowdedRows())
    ensures |h0.next| == |h0.parameter| == |h0.previous| == 4 && |h0.original| == |h0.eNext| == 4
    ensures forall v: nat :: v < 4 ==> Live(h0, v) && h0.previous[v].None?
    ensures forall e: nat :: e < 4 ==> h0.eNext[e].None?
    ensures forall e: nat, v: nat {:trigger v in h0.original[e]} :: e < 3 ==> (v in h0.original[e] <==> v < 2)
  {
    ModelParts(h0, CrowdedLinks(), CrowdedRows());
    assert CrowdedLinks() == [None, None, None, None];
    forall v: nat | v < 4
      ensures h0.next[v].None?
    {}
    hide IsModel, Begins, History.Valid, Live;
  }

  /** The first two equations are matched at once. */
  lemma {:induction false} CrowdedStarts(h0: History, k: nat)
    requires IsModel(h0, CrowdedLinks(), CrowdedRows()) && k < 2
    ensures Succeeds(Moment(k, k, h0), 4)
  {
    hide IsModel, Live;
    CrowdedBegins(h0);
    var m: map<nat, nat> := if k == 0 then map[0 := 0] else map[0 := 0, 1 := 1];
    assert 0 in LiveRows(h0)[0] && 1 in LiveRows(h0)[1];
    assert Present(h0, k, 4) == m.Keys;
    assert Covers(LiveRows(h0), Present(h0, k, 4), m);
  }

  /** The third is never matched. */
  lemma {:induction false} CrowdedFails(h0: History, m: Moment)
    requires IsModel(h0, CrowdedLinks(), CrowdedRows()) && Sound(h0, m, 4) && m.k == 2
    ensures !Succeeds(m, 4)
  {
    hide IsModel, Live, History.Valid, Present, Covers, Develops, AllPassOn, First, Last, Untouched;
    SoundBound(h0, m, 4);
    if f :| Covers(LiveRows(m.h), Present(m.h, 2, 4), f) {
      var u0 := CrowdedVariable(h0, m.h, f, 0);
      var u1 := CrowdedVariable(h0, m.h, f, 1);
      var u2 := CrowdedVariable(h0, m.h, f, 2);
      CoversApart(LiveRows(m.h), Present(m.h, 2, 4), f, Last(m.h.eNext, 0), Last(m.h.eNext, 1));
      CoversApart(LiveRows(m.h), Present(m.h, 2, 4), f, Last(m.h.eNext, 0), Last(m.h.eNext, 2));
      CoversApart(LiveRows(m.h), Present(m.h, 2, 4), f, Last(m.h.eNext, 1), Last(m.h.eNext, 2));
    }
  }

  /** What covers equation l is the youngest derivative of one of the two variables. */
  lemma {:induction false} CrowdedVariable(h0: History, h: History, f: map<nat, nat>, l: nat) returns (u: nat)
    requires IsModel(h0, CrowdedLinks(), CrowdedRows()) && Develops(h0, h, 4) && l <= 2
    requires Covers(LiveRows(h), Present(h, 2, 4), f)
    ensures u < 2 && Last(h.eNext, l) in f && f[Last(h.eNext, l)] == Last(h.next, u)
    ensures First(h.ePrevious, Last(h.eNext, l)) == l
  {
    CrowdedBegins(h0);
    hide IsModel, Present, Covers, AllPassOn, CrowdedRows, CrowdedLinks;
    YoungestIsCovered(h, 4, 2, f, l);
    var v := f[Last(h.eNext, l)];
    u := OriginCovers(h0, h, 4, l, v);
    FirstIsStart(h.next, h.previous, v);
    assert Last(h0.eNext, l) == l;
    assert u in h0.original[l];
    assert First(h0.previous, u) == u;
    assert Last(h.next, v) == v;
  }

  /** What holds in every round. */
  ghost predicate CrowdedState(h0: History, m: Moment) {
    && m.k <= 2
    && (m.k < 2 ==> m == Moment(m.k, m.k, h0))
    && (m.i == m.k ==> m.h == h0)
  }

  lemma {:induction false} CrowdedRound(h0: History, m: Moment, m': Moment)
    requires IsModel(h0, CrowdedLinks(), CrowdedRows()) && Sound(h0, m, 4) && Sound(h0, m', 4)
    requires CrowdedState(h0, m) && Round(m, m', 4)
    ensures CrowdedState(h0, m')
  {
    hide IsModel, Succeeds, Develops, AllPassOn, Differentiates, Stranded;
    if m.k < 2 {
      CrowdedStarts(h0, m.k);
    } else {
      CrowdedFails(h0, m);
      SoundLinks(h0, m', 4);
    }
  }

  lemma {:induction false} SoundLinks(h0: History, m: Moment, count: nat)
    requires Sound(h0, m, count)
    ensures m.h.Valid(count) && Chains(m.h.next, m.h.previous) && Chains(m.h.eNext, m.h.ePrevious)
    ensures h0.previous <= m.h.previous && h0.original <= m.h.original && h0.parameter <= m.h.parameter
    ensures |m.h.original| == |m.h.eNext| && |m.h.next| == |m.h.parameter|
  {
    hide History.Descends, NoneAbove, AllPassOn, Untouched;
  }

  lemma {:induction false} CrowdedStart(h0: History)
    ensures CrowdedState(h0, Moment(0, 0, h0)) && |CrowdedRows()| == 4
  {}

  lemma {:induction false} CrowdedRounds(h0: History, rounds: seq<Moment>, j: nat)
    requires IsModel(h0, CrowdedLinks(), CrowdedRows()) && IsRun(h0, 4, rounds) && j < |rounds|
    ensures CrowdedState(h0, rounds[j])
  {
    hide *;
    ModelBegins(h0, CrowdedLinks(), CrowdedRows());
    RunRound(h0, 4, rounds, j);
    CrowdedStart(h0);
    if j > 0 {
      CrowdedRounds(h0, rounds, j - 1);
      RunIsSound(h0, 4, rounds, j - 1);
      RunIsSound(h0, 4, rounds, j);
      CrowdedRound(h0, rounds[j - 1], rounds[j]);
    }
  }

  lemma {:induction false} CrowdedHasNoCover(h0: History)
    requires IsModel(h0, CrowdedLinks(), CrowdedRows())
    ensures !HasCover(h0, 4)
  {
    CrowdedBegins(h0);
    hide IsModel;
    if cover :| IsCover(h0, 4, cover) {
      forall k: nat | k < 3
        ensures cover[k] < 2 && First(h0.previous, cover[k]) == cover[k]
      {
        assert CoversAt(h0, k, cover[k]);
      }
      assert First(h0.previous, cover[0]) != First(h0.previous, cover[1]);
      assert First(h0.previous, cover[0]) != First(h0.previous, cover[2]);
      assert First(h0.previous, cover[1]) != First(h0.previous, cover[2]);
    }
  }

  /** There is no cover and no equation is ever stranded, so no run ends. */
  lemma {:induction false} CrowdedNeverEnds(h0: History, rounds: seq<Moment>, r: Outcome, last: History, fuel: nat)
    requires IsModel(h0, CrowdedLinks(), CrowdedRows()) && IsRun(h0, 4, rounds) && Ends(r, rounds, last, 4, fuel)
    ensures !HasCover(h0, 4) && !MeetsStranded(rounds, 4, fuel) && r == OutOfFuel
  {
    ModelParts(h0, CrowdedLinks(), CrowdedRows());
    CrowdedBegins(h0);
    CrowdedHasNoCover(h0);
    forall j: nat | j < |rounds|
      ensures !StrandedAt(rounds, 4, j)
    {
      CrowdedRounds(h0, rounds, j);
      if StrandedAt(rounds, 4, j) {
        NotStranded(h0, rounds[j].k, 0);
      }
    }
    hide IsModel, Begins, IsRun, StrandedAt, HasCover, History.Valid, Chains, Ends, Live;
    OutcomeIsDecided(h0, 4, rounds, r, last, fuel);
  }

  /** The model has four equations for four unknown variables, but its index reduction never ends. */
  method CrowdedRun(fuel: nat) returns (determined: bool, r: Outcome)
    ensures determined && r == OutOfFuel
  {
    hide *;
    CrowdedSizes();
    var g;
    g, determined := NewModel(CrowdedLinks(), CrowdedRows());
    ghost var h0 := HistoryOf(g);
    CrowdedUnknowns(g);
    ghost var rounds, found;
    r, rounds, found := DetectSubset2Dif(g, fuel);
    CrowdedNeverEnds(h0, rounds, r, HistoryOf(g), fuel);
  }

  lemma {:induction false} CrowdedSizes()
    ensures |CrowdedLinks()| == |CrowdedRows()| == 4
    ensures forall j :: 0 <= j < 4 ==> CrowdedLinks()[j].None? && |CrowdedRows()[j]| == 2
    ensures forall i, n :: 0 <= i < 4 && 0 <= n < 2 ==> CrowdedRows()[i][n] < 4
  {}

  lemma {:induction false} CrowdedUnknowns(g: BipartiteGraph)
    requires g.Structure() && IsModel(HistoryOf(g), CrowdedLinks(), CrowdedRows())
    ensures Count(g.Unknowns()) == 4
  {
    CrowdedBegins(HistoryOf(g));
    ModelParts(HistoryOf(g), CrowdedLinks(), CrowdedRows());
    assert g.Unknowns() == [true, true, true, true];
    CountFour();
  }

  lemma {:induction false} CountFour()
    ensures Count([true, true, true, true]) == 4
  {
    assert [true, true, true, true][..3] == [true, true, true];
    assert [true, true, true][..2] == [true, true];
    assert [true, true][..1] == [true];
  }

  // ---------------------------------------------------------------------------------------------
  // Two points y and z with velocities and accelerations, and the constraints y + z = 1 and y - z = 0: variables 0
  // to 5 are y, z, their velocities and their accelerations, 6 to 9 the derivatives of the first four

  function ConstrainedLinks(): Links { [None, None, None, None, None, None, Some(0), Some(1), Some(2), Some(3)] }

  /** The equations y' = v and v' = a of the two points come first, the constraints last. */
  function ConstraintsLast(): Adjacency { [[2, 6], [3, 7], [4, 8], [5, 9], [0, 1], [0, 1]] }

  lemma {:induction false} ConstrainedBegins(h0: History, rows: Adjacency)
    requires IsModel(h0, ConstrainedLinks(), rows)
    ensures |h0.next| == |h0.parameter| == |h0.previous| == 10
    ensures forall v: nat :: v < 4 ==> h0.next[v] == Some(v + 6)
    ensures forall v: nat :: 4 <= v < 10 ==> Live(h0, v) && h0.next[v].None?
    ensures forall v: nat :: v < 6 ==> h0.previous[v].None?
    ensures forall v: nat :: 6 <= v < 10 ==> h0.previous[v] == Some(v - 6)
  {
    ModelParts(h0, ConstrainedLinks(), rows);
    ConstrainedValues();
    hide IsModel, Begins, History.Valid, Live, ConstrainedLinks;
    forall v: nat | 4 <= v < 10
      ensures h0.next[v].None?
    {}
  }

  lemma {:induction false} ConstrainedValues()
    ensures |ConstrainedLinks()| == 10
    ensures forall v: nat :: v < 6 ==> ConstrainedLinks()[v].None?
    ensures forall v: nat :: 6 <= v < 10 ==> ConstrainedLinks()[v] == Some(v - 6)
  {}

  /** The four variables and their derivatives stay linked. */
  lemma {:induction false} ConstrainedStays(h0: History, m: Moment, rows: Adjacency)
    requires IsModel(h0, ConstrainedLinks(), rows) && Sound(h0, m, |rows|)
    ensures |m.h.next| == |m.h.parameter| == |m.h.previous| >= 10
    ensures forall v: nat :: v < 4 ==> m.h.next[v] == Some(v + 6) && !Live(m.h, v)
    ensures forall v: nat :: 6 <= v < 10 ==> m.h.previous[v] == Some(v - 6)
    ensures forall d: nat, v: nat :: d < |m.h.previous| && v < 4 && m.h.previous[d] == Some(v) ==> d == v + 6
  {
    ConstrainedBegins(h0, rows);
    hide IsModel;
    SoundLinks(h0, m, |rows|);
    hide Sound, History.Valid;
  }

  /** An equation of the model still has the variables that it had. */
  lemma {:induction false} RowStays(h0: History, m: Moment, links: Links, rows: Adjacency, e: nat)
    requires IsModel(h0, links, rows) && Sound(h0, m, |rows|) && e < |rows|
    ensures e < |m.h.original| && e < |m.h.eNext|
    ensures forall v: nat {:trigger v in m.h.original[e]} :: v in m.h.original[e] <==> v in rows[e]
  {
    ModelParts(h0, links, rows);
    hide IsModel;
    SoundLinks(h0, m, |rows|);
    hide Sound, History.Valid, Chains;
  }

  /** A differentiated equation has no live variable. */
  lemma {:induction false} DifferentiatedIsSpent(h0: History, m: Moment, count: nat, e: nat, v: nat)
    requires Sound(h0, m, count) && e < |m.h.original| && v in m.h.original[e] && Live(m.h, v)
    ensures e < |m.h.eNext| && m.h.eNext[e].None?
  {
    SoundLinks(h0, m, count);
    assert PassesOn(m.h, e);
    hide History.Valid;
  }

  /** The derivative of an equation has the derivatives of its variables. */
  lemma {:induction false} DerivativeHas(h0: History, m: Moment, count: nat, e: nat, f: nat, v: nat)
    requires Sound(h0, m, count) && e < |m.h.original| && e < |m.h.eNext| && m.h.eNext[e] == Some(f)
    requires v in m.h.original[e] && v < |h0.parameter| && !h0.parameter[v] && v < |m.h.next|
    ensures f < |m.h.original| && m.h.next[v].Some? && m.h.next[v].value in m.h.original[f]
  {
    SoundLinks(h0, m, count);
    assert PassesOn(m.h, e);
    hide History.Valid, Chains;
  }

  /** It has nothing but these and the variables themselves. */
  lemma {:induction false} DerivativeHasOnly(h0: History, m: Moment, count: nat, e: nat, f: nat, v: nat)
    requires Sound(h0, m, count) && e < |m.h.eNext| && m.h.eNext[e] == Some(f)
    ensures e < f < |m.h.original| && f < |m.h.eNext| && f >= count
    ensures v in m.h.original[f] ==>
      && v < |m.h.previous|
      && (v in m.h.original[e] || (m.h.previous[v].Some? && m.h.previous[v].value in m.h.original[e]))
  {
    SoundLinks(h0, m, count);
    assert m.h.Descends(f) && NoneAbove(m.h.original[f], |m.h.next|);
    hide AllPassOn, Untouched;
  }

  /** While the first constraint is dealt with, y' and z' cover their equations if they are live. */
  lemma {:induction false} PointCovered(h0: History, m: Moment, f: map<nat, nat>, a: nat)
    requires IsModel(h0, ConstrainedLinks(), ConstraintsLast()) && Sound(h0, m, 6) && m.k == 4 && a < 2
    requires Covers(LiveRows(m.h), Present(m.h, 4, 6), f) && Live(m.h, a + 6)
    ensures a in f && f[a] == a + 6
  {
    hide IsModel, Live, Sound;
    ConstrainedStays(h0, m, ConstraintsLast());
    RowStays(h0, m, ConstrainedLinks(), ConstraintsLast(), a);
    hide ConstrainedLinks;
    DifferentiatedIsSpent(h0, m, 6, a, a + 6);
    CoveredRow(m, 6, f, a);
  }

  /** Its youngest derivative is covered by one of them as well. */
  lemma {:induction false} ConstraintCovered(h0: History, m: Moment, f: map<nat, nat>, a: nat) returns (e: nat)
    requires IsModel(h0, ConstrainedLinks(), ConstraintsLast()) && Sound(h0, m, 6) && m.k == 4 && a < 2
    requires Covers(LiveRows(m.h), Present(m.h, 4, 6), f) && Live(m.h, a + 6)
    ensures e >= 6 && e in f && 6 <= f[e] < 8 && Live(m.h, f[e])
  {
    hide *;
    LateStart(h0);
    LateRow(4);
    ConstrainedStays(h0, m, ConstraintsLast());
    RowStays(h0, m, ConstrainedLinks(), ConstraintsLast(), 4);
    ConstrainedBegins(h0, ConstraintsLast());
    NotParameter(h0, ConstrainedLinks(), ConstraintsLast(), a);
    if m.h.eNext[4].None? {
      CoveredRow(m, 6, f, 4);
      assert false;
    }
    e := m.h.eNext[4].value;
    DerivativeHas(h0, m, 6, 4, e, a);
    DerivativeHasOnly(h0, m, 6, 4, e, 0);
    DifferentiatedIsSpent(h0, m, 6, e, a + 6);
    CoveredRow(m, 6, f, e);
    DerivativeHasOnly(h0, m, 6, 4, e, f[e]);
  }

  lemma {:induction false} LateRow(k: nat)
    requires 4 <= k < 6
    ensures forall v :: v in ConstraintsLast()[k] <==> v == 0 || v == 1
  {}

  lemma {:induction false} CoveredRow(m: Moment, count: nat, f: map<nat, nat>, e: nat)
    requires Covers(LiveRows(m.h), Present(m.h, m.k, count), f) && e < |m.h.eNext| && m.h.eNext[e].None?
    requires !(m.k < e < count)
    ensures e in f && e < |m.h.original| && f[e] in m.h.original[e] && Live(m.h, f[e])
  {
    hide Live;
    assert e in Present(m.h, m.k, count);
    assert f[e] in LiveRows(m.h)[e];
  }

  lemma {:induction false} NotParameter(h0: History, links: Links, rows: Adjacency, v: nat)
    requires IsModel(h0, links, rows) && v < |h0.parameter|
    ensures !h0.parameter[v]
  {}

  /** So neither of them is left once the first constraint is matched. */
  lemma {:induction false} NothingLeft(h0: History, m: Moment, f: map<nat, nat>, a: nat)
    requires IsModel(h0, ConstrainedLinks(), ConstraintsLast()) && Sound(h0, m, 6) && m.k == 4 && a < 2
    requires Covers(LiveRows(m.h), Present(m.h, 4, 6), f)
    ensures !Live(m.h, a + 6)
  {
    hide IsModel, Live, Sound, Covers, Present;
    if Live(m.h, a + 6) {
      var e := ConstraintCovered(h0, m, f, a);
      PointCovered(h0, m, f, f[e] - 6);
      CoversApart(LiveRows(m.h), Present(m.h, 4, 6), f, e, f[e] - 6);
    }
  }

  /** Then the second constraint is stranded. */
  lemma {:induction false} SecondIsStranded(h0: History, m: Moment)
    requires IsModel(h0, ConstrainedLinks(), ConstraintsLast()) && Sound(h0, m, 6) && m.k == 4 && Succeeds(m, 6)
    ensures Stranded(m.h, 5)
  {
    hide IsModel, Live, Sound, Covers, Present;
    var f :| Covers(LiveRows(m.h), Present(m.h, 4, 6), f);
    NothingLeft(h0, m, f, 0);
    NothingLeft(h0, m, f, 1);
    ConstrainedStays(h0, m, ConstraintsLast());
    RowStays(h0, m, ConstrainedLinks(), ConstraintsLast(), 5);
    forall d: nat, e: nat {:trigger d in m.h.original[e]} |
      e < |m.h.original| && d in m.h.original[e] && Live(m.h, d)
      ensures !DerivativeIn(m.h, 5, d)
    {}
  }

  ghost predicate LateState(m: Moment) {
    m.k <= 5 && (m.k == 5 ==> m.i == 5 && Stranded(m.h, 5))
  }

  lemma {:induction false} LateRound(h0: History, m: Moment, m': Moment)
    requires IsModel(h0, ConstrainedLinks(), ConstraintsLast()) && Sound(h0, m, 6) && LateState(m) && Round(m, m', 6)
    ensures LateState(m')
  {
    hide IsModel, Succeeds, Stranded, Differentiates;
    if m.k == 5 {
      StrandedFails(h0, m, 6);
    } else if m.k == 4 && Succeeds(m, 6) {
      SecondIsStranded(h0, m);
    }
    hide Sound;
  }

  lemma {:induction false} LateStart(h0: History)
    ensures LateState(Moment(0, 0, h0)) && |ConstraintsLast()| == 6
  {}

  lemma {:induction false} LateRounds(h0: History, rounds: seq<Moment>, j: nat)
    requires IsModel(h0, ConstrainedLinks(), ConstraintsLast()) && IsRun(h0, 6, rounds) && j < |rounds|
    ensures LateState(rounds[j])
  {
    hide *;
    ModelBegins(h0, ConstrainedLinks(), ConstraintsLast());
    RunRound(h0, 6, rounds, j);
    LateStart(h0);
    if j > 0 {
      LateRounds(h0, rounds, j - 1);
      RunIsSound(h0, 6, rounds, j - 1);
      LateRound(h0, rounds[j - 1], rounds[j]);
    }
  }

  /** Accelerations and velocities cover their equations, y and z the constraints. */
  function ConstrainedCover(): seq<nat> { [2, 3, 4, 5, 0, 1] }

  lemma {:induction false} LateIsCovered(h0: History)
    requires IsModel(h0, ConstrainedLinks(), ConstraintsLast())
    ensures IsCover(h0, 6, ConstrainedCover()) && Slack(h0.next, ConstrainedCover()) == 4
  {
    hide *;
    ConstrainedBegins(h0, ConstraintsLast());
    ModelParts(h0, ConstrainedLinks(), ConstraintsLast());
    LateStart(h0);
    CoverValues();
    forall k: nat | k < 6
      ensures CoversAt(h0, k, ConstrainedCover()[k])
      ensures First(h0.previous, ConstrainedCover()[k]) == ConstrainedCover()[k]
    {
      CoversFromStart(h0, ConstraintsLast(), k, ConstrainedCover()[k]);
    }
    ConstrainedSlack(h0.next);
    CoverFrom(h0, 6, ConstrainedCover());
  }

  lemma {:induction false} CoverValues()
    ensures |ConstrainedCover()| == 6
    ensures forall k, l :: 0 <= k < l < 6 ==> ConstrainedCover()[k] != ConstrainedCover()[l]
    ensures forall k: nat :: k < 6 ==> ConstrainedCover()[k] < 6 && ConstrainedCover()[k] in ConstraintsLast()[k]
  {}

  lemma {:induction false} CoverFrom(h: History, count: nat, cover: seq<nat>)
    requires |cover| == count
    requires forall k: nat :: k < count ==> CoversAt(h, k, cover[k]) && First(h.previous, cover[k]) == cover[k]
    requires forall k, l :: 0 <= k < l < count ==> cover[k] != cover[l]
    ensures IsCover(h, count, cover)
  {
    hide CoversAt, First;
  }

  lemma {:induction false} CoversFromStart(h0: History, rows: Adjacency, k: nat, v: nat)
    requires |h0.original| == |h0.eNext| == |rows| && k < |rows| && h0.eNext[k].None? && v in rows[k] && v < |h0.next|
    requires forall e: nat, v: nat {:trigger v in h0.original[e]} :: e < |rows| ==>
      (v in h0.original[e] <==> v in rows[e])
    requires v < |h0.previous| && h0.previous[v].None?
    ensures CoversAt(h0, k, v) && First(h0.previous, v) == v
  {
    assert Last(h0.eNext, k) == k;
  }

  lemma {:induction false} ConstrainedSlack(next: Links)
    requires |next| == 10
    requires forall v: nat :: v < 4 ==> next[v] == Some(v + 6)
    requires forall v: nat :: 4 <= v < 10 ==> next[v].None?
    ensures Slack(next, ConstrainedCover()) == 4 && Slack(next, [0, 1, 2, 3, 4, 5]) == 4
  {
    assert Steps(next, 0) == 1 && Steps(next, 1) == 1 && Steps(next, 2) == 1 && Steps(next, 3) == 1;
    assert Steps(next, 4) == 0 && Steps(next, 5) == 0;
    hide Steps;
    SlackOfSix(next, 2, 3, 4, 5, 0, 1);
    SlackOfSix(next, 0, 1, 2, 3, 4, 5);
  }

  lemma {:induction false} SlackOfSix(next: Links, a: nat, b: nat, c: nat, d: nat, e: nat, f: nat)
    ensures Slack(next, [a, b, c, d, e, f]) ==
      Steps(next, a) + Steps(next, b) + Steps(next, c) + Steps(next, d) + Steps(next, e) + Steps(next, f)
  {
    hide Slack, Steps;
    assert [a] == [] + [a] && [a, b] == [a] + [b] && [a, b, c] == [a, b] + [c];
    assert [a, b, c, d] == [a, b, c] + [d] && [a, b, c, d, e] == [a, b, c, d] + [e];
    assert [a, b, c, d, e, f] == [a, b, c, d, e] + [f];
    SlackOfOneMore(next, [], a);
    SlackOfOneMore(next, [a], b);
    SlackOfOneMore(next, [a, b], c);
    SlackOfOneMore(next, [a, b, c], d);
    SlackOfOneMore(next, [a, b, c, d], e);
    SlackOfOneMore(next, [a, b, c, d, e], f);
  }

  lemma {:induction false} SlackOfOneMore(next: Links, cover: seq<nat>, v: nat)
    ensures Slack(next, cover + [v]) == Slack(next, cover) + Steps(next, v) && Slack(next, []) == 0
  {
    assert (cover + [v])[..|cover|] == cover;
  }

  /** The model is covered, but every run that is long enough ends with the error. */
  lemma {:induction false} LateIsRejected(h0: History, rounds: seq<Moment>, r: Outcome, last: History, fuel: nat)
    requires IsModel(h0, ConstrainedLinks(), ConstraintsLast())
    requires IsRun(h0, 6, rounds) && Ends(r, rounds, last, 6, fuel)
    ensures HasCover(h0, 6) && r != Reduced && (fuel >= 10 ==> r == OverDefined)
  {
    ModelParts(h0, ConstrainedLinks(), ConstraintsLast());
    LateIsCovered(h0);
    LateRounds(h0, rounds, |rounds| - 1);
    ModelBegins(h0, ConstrainedLinks(), ConstraintsLast());
    hide IsModel, Begins, Round, StrandedAt, MeetsStranded, IsCover, Slack, History.Valid, Chains, Stranded, Succeeds,
      Differentiates, Live;
    OutcomeIsDecided(h0, 6, rounds, r, last, fuel);
  }

  /** The model has six equations for six unknown variables and is covered, but it is rejected as over-defined. */
  method LateRun(fuel: nat) returns (determined: bool, r: Outcome)
    ensures determined && r != Reduced && (fuel >= 10 ==> r == OverDefined)
  {
    hide *;
    ConstrainedSizes();
    LateStart(Blank());
    var g;
    g, determined := NewModel(ConstrainedLinks(), ConstraintsLast());
    ghost var h0 := HistoryOf(g);
    ConstrainedUnknowns(g, ConstraintsLast());
    ghost var rounds, found;
    r, rounds, found := DetectSubset2Dif(g, fuel);
    LateIsRejected(h0, rounds, r, HistoryOf(g), fuel);
  }

  ghost function Blank(): History { History([], [], [], [], [], []) }

  lemma {:induction false} ConstrainedSizes()
    ensures |ConstrainedLinks()| == 10 && |ConstraintsLast()| == |ConstraintsFirst()| == 6
    ensures forall j :: 0 <= j < 10 && ConstrainedLinks()[j].Some? ==> ConstrainedLinks()[j].value < j
    ensures forall j, k :: 0 <= j < k < 10 && ConstrainedLinks()[j].Some? ==>
      ConstrainedLinks()[j] != ConstrainedLinks()[k]
    ensures forall i, n :: 0 <= i < 6 && 0 <= n < |ConstraintsLast()[i]| ==> ConstraintsLast()[i][n] < 10
    ensures forall i, n :: 0 <= i < 6 && 0 <= n < |ConstraintsFirst()[i]| ==> ConstraintsFirst()[i][n] < 10
  {}

  lemma {:induction false} ConstrainedUnknowns(g: BipartiteGraph, rows: Adjacency)
    requires g.Structure() && IsModel(HistoryOf(g), ConstrainedLinks(), rows)
    ensures Count(g.Unknowns()) == 6
  {
    ConstrainedBegins(HistoryOf(g), rows);
    ModelParts(HistoryOf(g), ConstrainedLinks(), rows);
    ModelBegins(HistoryOf(g), ConstrainedLinks(), rows);
    hide IsModel, Begins, History.Valid, Chains, Edges, Deletions, Live, ConstrainedLinks;
    assert g.Unknowns() == [false, false, false, false] + [true, true, true, true, true, true];
    CountSix();
  }

  lemma {:induction false} CountSix()
    ensures Count([false, false, false, false] + [true, true, true, true, true, true]) == 6
  {
    CountAppended([false, false, false, false], [true, true, true, true, true, true]);
    CountAppended([true, true], [true, true, true, true]);
    CountFour();
    assert [true, true] + [true, true, true, true] == [true, true, true, true, true, true];
    assert [true, true][..1] == [true];
    assert Count([false, false, false, false]) == 0 by {
      assert [false, false, false, false][..3] == [false, false, false];
      assert [false, false, false][..2] == [false, false];
      assert [false, false][..1] == [false];
    }
  }

  lemma {:induction false} CountAppended(a: seq<bool>, b: seq<bool>)
    ensures Count(a + b) == Count(a) + Count(b)
  {
    if b == [] {
      assert a + b == a;
    } else {
      assert (a + b)[..|a + b| - 1] == a + b[..|b| - 1];
      CountAppended(a, b[..|b| - 1]);
    }
  }

  // ---------------------------------------------------------------------------------------------
  // The same model with the constraints first

  function ConstraintsFirst(): Adjacency { [[0, 1], [0, 1], [2, 6], [3, 7], [4, 8], [5, 9]] }

  /** A variable of which no equation before k has a derivative or an antiderivative. */
  predicate NotBefore(v: nat, k: nat) {
    (v == 6 && k == 0) || (v == 8 && k == 2) || (v == 9 && k == 3) || (v == 4 && k == 4) || (v == 5 && k == 5)
  }

  lemma {:induction false} NotBeforeRows(h0: History, v: nat, k: nat, f: nat, u: nat)
    requires IsModel(h0, ConstrainedLinks(), ConstraintsFirst()) && NotBefore(v, k)
    requires f < k && u in ConstraintsFirst()[f]
    ensures u < 10 && First(h0.previous, u) != First(h0.previous, v)
  {
    hide IsModel, Live, First;
    assert u == 0 || u == 1 || u == 2 || u == 6 || u == 3 || u == 7 || u == 4 || u == 8;
    ConstrainedFirst(h0, ConstraintsFirst(), u);
    ConstrainedFirst(h0, ConstraintsFirst(), v);
  }

  lemma {:induction false} ConstrainedFirst(h0: History, rows: Adjacency, u: nat)
    requires IsModel(h0, ConstrainedLinks(), rows) && u < 10
    ensures First(h0.previous, u) == if u < 6 then u else u - 6
  {
    ConstrainedBegins(h0, rows);
    hide IsModel, Live, ConstrainedLinks;
    assert u >= 6 ==> First(h0.previous, u - 6) == u - 6;
  }

  /** It is live when equation number k is met. */
  lemma {:induction false} EarlyLive(h0: History, m: Moment, v: nat)
    requires IsModel(h0, ConstrainedLinks(), ConstraintsFirst()) && Sound(h0, m, 6) && SpentTogether(h0, m.h)
    requires m.i == m.k < 6 && NotBefore(v, m.k)
    ensures Live(m.h, v)
  {
    hide IsModel, ConstrainedLinks, Sound, Begins, History.Valid, Chains, Live;
    NotBeforeRange(h0, v, m.k);
    SoundLinks(h0, m, 6);
    if m.h.next[v].Some? {
      assert InSpent(m.h, v);
      var e: nat :| e < |m.h.original| && e < |m.h.eNext| && v in m.h.original[e] && m.h.eNext[e].Some?;
      EarlyNotSpent(h0, m, v, e);
    }
    LiveAgain(m.h, v);
  }

  lemma {:induction false} LiveAgain(h: History, v: nat)
    requires v < |h.next| && h.next[v].None? && v < |h.parameter| && !h.parameter[v]
    ensures Live(h, v)
  {}

  lemma {:induction false} NotBeforeRange(h0: History, v: nat, k: nat)
    requires IsModel(h0, ConstrainedLinks(), ConstraintsFirst()) && NotBefore(v, k)
    ensures v < 10 && |h0.next| == |h0.parameter| == |h0.previous| == 10 && h0.next[v].None? && !h0.parameter[v]
  {
    ConstrainedBegins(h0, ConstraintsFirst());
    NotParameter(h0, ConstrainedLinks(), ConstraintsFirst(), v);
    hide IsModel;
  }

  /** An equation with the variable was not differentiated. */
  lemma {:induction false} EarlyNotSpent(h0: History, m: Moment, v: nat, e: nat)
    requires IsModel(h0, ConstrainedLinks(), ConstraintsFirst()) && Sound(h0, m, 6)
    requires m.i == m.k < 6 && NotBefore(v, m.k)
    requires e < |m.h.original| && e < |m.h.eNext| && v in m.h.original[e]
    ensures m.h.eNext[e].None?
  {
    hide *;
    SixRows();
    NotBeforeRange(h0, v, m.k);
    SoundLinks(h0, m, 6);
    var u := Origin(m.h, 6, e, v);
    var f := First(m.h.ePrevious, e);
    RowStays(h0, m, ConstrainedLinks(), ConstraintsFirst(), f);
    EarlyFirst(h0, m.h, v);
    if f < m.k {
      NotBeforeRows(h0, v, m.k, f, u);
      EarlyFirst(h0, m.h, u);
    } else {
      StillUntouched(h0, m, 6, f);
      UntouchedIsAlone(m.h, 6, e);
    }
  }

  lemma {:induction false} SixRows()
    ensures |ConstraintsFirst()| == 6
  {}

  lemma {:induction false} StillUntouched(h0: History, m: Moment, count: nat, f: nat)
    requires Sound(h0, m, count) && m.i == m.k <= f < count
    ensures f < |m.h.eNext| && m.h.eNext[f].None?
  {
    hide Develops, AllPassOn;
  }

  lemma {:induction false} EarlyFirst(h0: History, h: History, u: nat)
    requires h0.previous <= h.previous && u < 10 <= |h0.previous|
    ensures First(h.previous, u) == First(h0.previous, u)
  {
    FirstKept(h0.previous, h.previous, u);
  }

  /** While the first constraint is dealt with, no variable gets a derivative. */
  ghost predicate EarlyState(h0: History, m: Moment) {
    && (m.k == 0 ==> m.h.next == h0.next && (m.i == 0 || (0 < |m.h.eNext| && m.h.eNext[0] == Some(m.i))))
    && (m.k == 1 && m.i == 1 ==> m.h.next == h0.next)
  }

  /** The derivative of the first constraint has y', so it is matched at once. */
  lemma {:induction false} DerivativeSucceeds(h0: History, m: Moment)
    requires IsModel(h0, ConstrainedLinks(), ConstraintsFirst()) && Sound(h0, m, 6)
    requires m.k == 0 && m.h.next == h0.next && 0 < |m.h.eNext| && m.h.eNext[0] == Some(m.i)
    ensures Succeeds(m, 6)
  {
    hide *;
    SixRows();
    EarlyRow(0);
    ConstrainedBegins(h0, ConstraintsFirst());
    ConstrainedStays(h0, m, ConstraintsFirst());
    RowStays(h0, m, ConstrainedLinks(), ConstraintsFirst(), 0);
    NotParameter(h0, ConstrainedLinks(), ConstraintsFirst(), 0);
    NotParameter(h0, ConstrainedLinks(), ConstraintsFirst(), 6);
    DerivativeHas(h0, m, 6, 0, m.i, 0);
    SoundLinks(h0, m, 6);
    OnlyPresent(h0, m);
    LiveAgain(m.h, 6);
    OneIsCovered(m, 6, m.i, 6);
  }

  lemma {:induction false} OneIsCovered(m: Moment, count: nat, e: nat, v: nat)
    requires Present(m.h, m.k, count) == {e} && e < |m.h.original| && v in m.h.original[e] && Live(m.h, v)
    ensures Succeeds(m, count)
  {
    hide Live, Present;
    assert v in LiveRows(m.h)[e];
    assert Covers(LiveRows(m.h), Present(m.h, m.k, count), map[e := v]);
  }

  lemma {:induction false} OnlyPresent(h0: History, m: Moment)
    requires Sound(h0, m, 6) && m.k == 0 && 0 < |m.h.eNext| && m.h.eNext[0] == Some(m.i)
    ensures Present(m.h, 0, 6) == {m.i}
  {
    hide *;
    SoundLinks(h0, m, 6);
    StillPresent(h0, m, 6);
    forall e | e in Present(m.h, 0, 6)
      ensures e == m.i
    {
      PresentIsYoungest(h0, m, 6, e);
      LastOfTwo(m.h.eNext, m.i);
    }
  }

  lemma {:induction false} LastOfTwo(next: Links, i: nat)
    requires 0 < i < |next| && next[0] == Some(i) && next[i].None?
    ensures Last(next, 0) == i
  {
    assert Last(next, i) == i;
  }

  lemma {:induction false} StillPresent(h0: History, m: Moment, count: nat)
    requires Sound(h0, m, count) && m.k < count
    ensures m.i in Present(m.h, m.k, count) && m.i < |m.h.eNext| && m.h.eNext[m.i].None?
  {
    hide Develops, AllPassOn;
  }

  /** The first constraint is differentiated alone. */
  lemma {:induction false} FirstAlone(h0: History, m: Moment, m': Moment)
    requires IsModel(h0, ConstrainedLinks(), ConstraintsFirst()) && Sound(h0, m, 6)
    requires m.k == 0 && m.i == 0 && m.h.next == h0.next && GoesOn(m, m', 6)
    ensures m'.h.next == h0.next && 0 < |m'.h.eNext| && m'.h.eNext[0] == Some(m'.i)
  {
    hide IsModel, Sound, Live, Present, Stranded, Step, IsSubset;
    var vColored, eColored :| IsSubset(m, 6, vColored, eColored) && Step(m.h, m'.h, vColored, eColored);
    FirstIsSpent(h0, m);
    StillPresent(h0, m, 6);
    NothingElse(m, 6, vColored, eColored);
    NoNewVariables(m.h, m'.h, vColored, eColored);
  }

  lemma {:induction false} FirstIsSpent(h0: History, m: Moment)
    requires IsModel(h0, ConstrainedLinks(), ConstraintsFirst()) && Sound(h0, m, 6)
    ensures 0 < |m.h.original| && forall v: nat :: v in m.h.original[0] ==> !Live(m.h, v)
  {
    SixRows();
    RowStays(h0, m, ConstrainedLinks(), ConstraintsFirst(), 0);
    ConstrainedStays(h0, m, ConstraintsFirst());
    hide IsModel, Sound, Live, ConstrainedLinks;
  }

  lemma {:induction false} NoNewVariables(h: History, h': History, vColored: seq<bool>, eColored: seq<bool>)
    requires Step(h, h', vColored, eColored) && Chosen(vColored) == {}
    requires forall v :: 0 <= v < |vColored| ==> !vColored[v]
    ensures h'.next == h.next
  {
    CountIsCardinality(vColored);
    hide CreatedInOrder, NewEquation, AllReady, Count, Chains;
  }

  lemma {:induction false} EarlyRound(h0: History, m: Moment, m': Moment)
    requires IsModel(h0, ConstrainedLinks(), ConstraintsFirst()) && Sound(h0, m, 6) && EarlyState(h0, m)
    requires Round(m, m', 6) && Sound(h0, m', 6)
    ensures EarlyState(h0, m')
  {
    hide IsModel, Sound, Succeeds, Stranded, Differentiates;
    if m.k == 0 && !Succeeds(m, 6) {
      if m.i == 0 {
        FirstAlone(h0, m, m');
      } else {
        DerivativeSucceeds(h0, m);
      }
    }
    if m'.k == 1 && m.k == 1 {
      LaterIndex(h0, m, m', 6);
    }
  }

  lemma {:induction false} LaterIndex(h0: History, m: Moment, m': Moment, count: nat)
    requires Sound(h0, m', count) && m'.k == m.k < count && m.i < |m'.h.eNext| && m'.h.eNext[m.i] == Some(m'.i)
    requires Sound(h0, m, count)
    ensures m'.i > m.i && m'.i > m'.k
  {
    SoundLinks(h0, m', count);
    hide Develops, AllPassOn, History.Valid;
  }

  lemma {:induction false} EarlyRounds(h0: History, rounds: seq<Moment>, j: nat)
    requires IsModel(h0, ConstrainedLinks(), ConstraintsFirst()) && IsRun(h0, 6, rounds) && j < |rounds|
    ensures EarlyState(h0, rounds[j])
  {
    hide *;
    SixRows();
    ModelBegins(h0, ConstrainedLinks(), ConstraintsFirst());
    RunRound(h0, 6, rounds, j);
    if j > 0 {
      EarlyRounds(h0, rounds, j - 1);
      RunIsSound(h0, 6, rounds, j - 1);
      RunIsSound(h0, 6, rounds, j);
      EarlyRound(h0, rounds[j - 1], rounds[j]);
    } else {
      EarlyStart(h0);
    }
  }

  lemma {:induction false} EarlyStart(h0: History)
    ensures EarlyState(h0, Moment(0, 0, h0))
  {}

  /** A live variable that saves equation number k when it is met, and an equation that has it. */
  lemma {:induction false} Saved(h0: History, m: Moment, v: nat, e: nat)
    requires IsModel(h0, ConstrainedLinks(), ConstraintsFirst()) && Sound(h0, m, 6) && m.k < 6 && e < 6
    requires v in ConstraintsFirst()[e] && Live(m.h, v)
    requires 6 <= v < 10 && v - 6 in ConstraintsFirst()[m.k]
    ensures !Stranded(m.h, m.k)
  {
    SixRows();
    RowStays(h0, m, ConstrainedLinks(), ConstraintsFirst(), e);
    RowStays(h0, m, ConstrainedLinks(), ConstraintsFirst(), m.k);
    ConstrainedStays(h0, m, ConstraintsFirst());
    hide IsModel, ConstrainedLinks, ConstraintsFirst, Sound, Live, Stranded;
    SharedNotStranded(m.h, m.k, v, e);
  }

  lemma {:induction false} EarlyNotStranded(h0: History, m: Moment)
    requires IsModel(h0, ConstrainedLinks(), ConstraintsFirst()) && Sound(h0, m, 6) && SpentTogether(h0, m.h)
    requires EarlyState(h0, m) && m.i == m.k < 6
    ensures !Stranded(m.h, m.k)
  {
    hide IsModel, ConstrainedLinks, Sound, Live, Stranded, SpentTogether;
    match m.k
    case 0 =>
      EarlyLive(h0, m, 6);
      Saved(h0, m, 6, 2);
    case 1 =>
      ConstrainedBegins(h0, ConstraintsFirst());
      SoundLinks(h0, m, 6);
      NotParameter(h0, ConstrainedLinks(), ConstraintsFirst(), 6);
      LiveAgain(m.h, 6);
      Saved(h0, m, 6, 2);
    case 2 =>
      EarlyLive(h0, m, 8);
      Saved(h0, m, 8, 4);
    case 3 =>
      EarlyLive(h0, m, 9);
      Saved(h0, m, 9, 5);
    case _ =>
      EarlyLive(h0, m, m.k);
      RowStays(h0, m, ConstrainedLinks(), ConstraintsFirst(), m.k);
      NotStranded(m.h, m.k, m.k);
  }

  lemma {:induction false} EarlyIsCovered(h0: History)
    requires IsModel(h0, ConstrainedLinks(), ConstraintsFirst())
    ensures IsCover(h0, 6, [0, 1, 2, 3, 4, 5]) && Slack(h0.next, [0, 1, 2, 3, 4, 5]) == 4
  {
    hide *;
    SixRows();
    ConstrainedBegins(h0, ConstraintsFirst());
    ModelParts(h0, ConstrainedLinks(), ConstraintsFirst());
    forall k: nat | k < 6
      ensures CoversAt(h0, k, k) && First(h0.previous, k) == k
    {
      EarlyRow(k);
      CoversFromStart(h0, ConstraintsFirst(), k, k);
    }
    ConstrainedSlack(h0.next);
    CoverFrom(h0, 6, [0, 1, 2, 3, 4, 5]);
  }

  lemma {:induction false} EarlyRow(k: nat)
    requires k < 6
    ensures k in ConstraintsFirst()[k]
  {}

  /** With the constraints first, every run that is long enough comes to a normal end. */
  lemma {:induction false} EarlyIsReduced(h0: History, rounds: seq<Moment>, r: Outcome, last: History, fuel: nat)
    requires IsModel(h0, ConstrainedLinks(), ConstraintsFirst())
    requires IsRun(h0, 6, rounds) && Ends(r, rounds, last, 6, fuel)
    ensures r != OverDefined && (fuel >= 10 ==> r == Reduced)
  {
    SixRows();
    ModelBegins(h0, ConstrainedLinks(), ConstraintsFirst());
    EarlyIsCovered(h0);
    forall j: nat | j < |rounds|
      ensures !StrandedAt(rounds, 6, j)
    {
      EarlyNotStrandedAt(h0, rounds, j);
    }
    hide IsModel, Begins, IsRun, StrandedAt, IsCover, Slack, Ends;
    OutcomeIsDecided(h0, 6, rounds, r, last, fuel);
  }

  lemma {:induction false} EarlyNotStrandedAt(h0: History, rounds: seq<Moment>, j: nat)
    requires IsModel(h0, ConstrainedLinks(), ConstraintsFirst()) && IsRun(h0, 6, rounds) && j < |rounds|
    ensures !StrandedAt(rounds, 6, j)
  {
    SixRows();
    ModelBegins(h0, ConstrainedLinks(), ConstraintsFirst());
    hide IsModel, Begins, IsRun, Stranded, ConstrainedLinks, ConstraintsFirst;
    EarlyRounds(h0, rounds, j);
    RunIsSound(h0, 6, rounds, j);
    RunSpends(h0, 6, rounds, j);
    hide EarlyState, SpentTogether, Sound;
    if rounds[j].i == rounds[j].k < 6 {
      EarlyNotStranded(h0, rounds[j]);
    }
  }

  /** The order of the equations decides. */
  method EarlyRun(fuel: nat) returns (determined: bool, r: Outcome)
    ensures determined && r != OverDefined && (fuel >= 10 ==> r == Reduced)
  {
    hide *;
    ConstrainedSizes();
    SixRows();
    var g;
    g, determined := NewModel(ConstrainedLinks(), ConstraintsFirst());
    ghost var h0 := HistoryOf(g);
    ConstrainedUnknowns(g, ConstraintsFirst());
    ghost var rounds, found;
    r, rounds, found := DetectSubset2Dif(g, fuel);
    EarlyIsReduced(h0, rounds, r, HistoryOf(g), fuel);
  }
}
