/**
  When differentiating comes to an end: every equation needs a variable of its own, where a variable and
  its derivatives count as one.
 */
module Coverage {
  import opened Wrappers
  import opened Matching
  import opened BipartiteGraphs

  /** What becomes of a graph as its variables and equations are differentiated. */
  datatype History = History(
    original: Adjacency, next: Links, previous: Links, parameter: seq<bool>, eNext: Links, ePrevious: Links)
  {
    /** The first `count` equations are those of the model, all others are derivatives. */
    ghost predicate Valid(count: nat) {
      && Chains(next, previous) && Chains(eNext, ePrevious) && |original| == |eNext| && |parameter| == |next|
      && count <= |original| && (forall e: nat :: e < |ePrevious| ==> (ePrevious[e].None? <==> e < count))
      && (forall e: nat :: e < |original| ==> NoneAbove(original[e], |next|) && Descends(e))
    }

    /** A derivative of an equation contains nothing but variables of the equation and their derivatives. */
    ghost predicate Descends(e: nat) {
      e < |original| && e < |ePrevious| && ePrevious[e].Some? ==>
        && ePrevious[e].value < |original|
        && forall v: nat {:trigger v in original[e]} :: v in original[e] && v < |previous| ==>
             v in original[ePrevious[e].value] || (previous[v].Some?
               && previous[v].value in original[ePrevious[e].value])
    }

    ghost predicate NoParameters() {
      forall v :: 0 <= v < |parameter| ==> !parameter[v]
    }
  }

  ghost function HistoryOf(g: BipartiteGraph): History
    reads g`eOriginalVariables, g`vDerivative, g`vAntiDerivative, g`vParameter, g`eDerivative, g`eDerivativeOf
  {
    History(g.eOriginalVariables, g.vDerivative, g.vAntiDerivative, g.vParameter, g.eDerivative, g.eDerivativeOf)
  }

  // ---------------------------------------------------------------------------------------------
  // Chains of derivatives

  /** The oldest member of the chain of x. */
  ghost function First(previous: Links, x: nat): nat {
    if x < |previous| && previous[x].Some? && previous[x].value < x then First(previous, previous[x].value) else x
  }

  /** The youngest member of the chain of x. */
  ghost function Last(next: Links, x: nat): nat
    decreases if x < |next| then |next| - x else 0
  {
    if x < |next| && next[x].Some? && x < next[x].value < |next| then Last(next, next[x].value) else x
  }

  /** The number of members of the chain that are younger than x. */
  ghost function Steps(next: Links, x: nat): nat
    decreases if x < |next| then |next| - x else 0
  {
    if x < |next| && next[x].Some? && x < next[x].value < |next| then 1 + Steps(next, next[x].value) else 0
  }

  lemma {:induction false} LastIsEnd(next: Links, previous: Links, x: nat)
    requires Chains(next, previous) && x < |next|
    ensures x <= Last(next, x) < |next| && next[Last(next, x)].None?
    ensures First(previous, Last(next, x)) == First(previous, x)
    decreases |next| - x
  {
    if next[x].Some? {
      LastIsEnd(next, previous, next[x].value);
    }
  }

  lemma {:induction false} FirstIsStart(next: Links, previous: Links, x: nat)
    requires Chains(next, previous) && x < |next|
    ensures First(previous, x) <= x && previous[First(previous, x)].None?
    ensures Last(next, First(previous, x)) == Last(next, x)
  {
    if previous[x].Some? {
      FirstIsStart(next, previous, previous[x].value);
    }
  }

  lemma {:induction false} FirstKept(previous: Links, previous': Links, x: nat)
    requires previous <= previous' && x < |previous|
    ensures First(previous', x) == First(previous, x)
  {
    if previous[x].Some? && previous[x].value < x {
      FirstKept(previous, previous', previous[x].value);
    }
  }

  /** The coloured nodes, which had no derivatives, got some. */
  ghost predicate Extended(colored: seq<bool>, next: Links, next': Links) {
    && |colored| == |next| <= |next'|
    && (forall x :: 0 <= x < |next| ==>
          if colored[x] then next[x].None? && next'[x].Some? && |next| <= next'[x].value < |next'|
            else next'[x] == next[x])
    && (forall y :: |next| <= y < |next'| ==> next'[y].None?)
  }

  /** The derivatives from position n on are those of nodes before l, in the order of the nodes. */
  ghost predicate CreatedInOrder(previous: Links, n: nat, l: nat) {
    && (forall y :: n <= y < |previous| ==> previous[y].Some? && previous[y].value < l)
    && (forall y, z :: n <= y < z < |previous| && previous[y].Some? && previous[z].Some? ==>
          previous[y].value < previous[z].value)
  }

  lemma {:induction false} LastExtended(colored: seq<bool>, next: Links, previous: Links, next': Links, x: nat)
    requires Chains(next, previous) && Extended(colored, next, next') && x < |next|
    ensures Last(next, x) < |next|
    ensures Last(next', x) == if colored[Last(next, x)] then next'[Last(next, x)].value else Last(next, x)
    ensures Steps(next', x) == Steps(next, x) + if colored[Last(next, x)] then 1 else 0
    decreases |next| - x
  {
    if next[x].Some? {
      LastExtended(colored, next, previous, next', next[x].value);
    }
  }

  // ---------------------------------------------------------------------------------------------
  // Covers

  /** The youngest derivative of equation k contains variable v. */
  ghost predicate CoversAt(h: History, k: nat, v: nat) {
    Last(h.eNext, k) < |h.original| && v in h.original[Last(h.eNext, k)] && v < |h.next|
  }

  /**
    For every equation of the model, a variable that its youngest derivative contains; no two of these
    variables are in the same chain.  (An equation without derivatives is its own youngest derivative.)
   */
  ghost predicate IsCover(h: History, count: nat, cover: seq<nat>) {
    && |cover| == count
    && (forall k :: 0 <= k < count ==> CoversAt(h, k, cover[k]))
    && (forall k, l :: 0 <= k < l < count ==> First(h.previous, cover[k]) != First(h.previous, cover[l]))
  }

  /** How many derivatives the chains have beyond the variables of the cover. */
  ghost function Slack(next: Links, cover: seq<nat>): nat {
    if cover == [] then 0 else Slack(next, cover[..|cover| - 1]) + Steps(next, cover[|cover| - 1])
  }

  /** A failed search: the coloured variables and the coloured equations, one more, got derivatives. */
  ghost predicate Step(h: History, h': History, vColored: seq<bool>, eColored: seq<bool>) {
    && Extended(vColored, h.next, h'.next) && Extended(eColored, h.eNext, h'.eNext)
    && Chains(h'.next, h'.previous) && Chains(h'.eNext, h'.ePrevious)
    && h.previous <= h'.previous && h.ePrevious <= h'.ePrevious && h.original <= h'.original
    && |h'.original| == |h'.eNext| && |h'.parameter| == |h'.next|
    && (forall e: nat :: |h.original| <= e < |h'.original| ==> NewEquation(h', e, |h.original|))
    && h.parameter <= h'.parameter && (forall v :: |h.parameter| <= v < |h'.parameter| ==> !h'.parameter[v])
    && CreatedInOrder(h'.previous, |h.previous|, |h.previous|)
    && CreatedInOrder(h'.ePrevious, |h.ePrevious|, |h.ePrevious|)
    && |h'.next| == |h.next| + Count(vColored) && |h'.eNext| == |h.eNext| + Count(eColored)
    && Count(eColored) == Count(vColored) + 1
    && AllReady(h, h', eColored)
  }

  /** Equation e is a derivative of one of the first m equations. */
  ghost predicate NewEquation(h: History, e: nat, m: nat) {
    && e < |h.original| && e < |h.ePrevious| && h.ePrevious[e].Some? && h.ePrevious[e].value < m <= |h.original|
    && NoneAbove(h.original[e], |h.next|) && HasDirty(h.original[e], h.original[h.ePrevious[e].value], h.previous)
  }

  /** All variables of equation e have derivatives now. */
  ghost predicate Ready(h: History, h': History, e: nat)
    requires e < |h.original|
  {
    forall v: nat {:trigger v in h.original[e]} :: v in h.original[e] && v < |h.parameter| && !h.parameter[v] ==>
      v < |h'.next| && h'.next[v].Some?
  }

  ghost predicate AllReady(h: History, h': History, eColored: seq<bool>) {
    forall e: nat :: e < |eColored| && eColored[e] && e < |h.original| ==> Ready(h, h', e)
  }

  lemma {:induction false} ValidNext(h: History, h': History, vColored: seq<bool>, eColored: seq<bool>, count: nat)
    requires h.Valid(count) && Step(h, h', vColored, eColored)
    ensures h'.Valid(count)
  {
    forall e: nat | e < |h'.original|
      ensures NoneAbove(h'.original[e], |h'.next|) && h'.Descends(e) && (h'.ePrevious[e].None? <==> e < count)
    {
      if e < |h.original| {
        OldDescends(h, h', count, e);
      } else {
        assert NewEquation(h', e, |h.original|);
      }
      hide Chains, Extended;
    }
    hide Extended, NewEquation, AllReady;
  }

  lemma {:induction false} OldDescends(h: History, h': History, count: nat, e: nat)
    requires h.Valid(count) && e < |h.original| && h.original <= h'.original && h.previous <= h'.previous
    requires h.ePrevious <= h'.ePrevious && |h.next| <= |h'.next|
    ensures NoneAbove(h'.original[e], |h'.next|) && h'.Descends(e) && (h'.ePrevious[e].None? <==> e < count)
  {
    assert NoneAbove(h.original[e], |h.next|) && h.Descends(e);
  }

  /** The variable that covers equation k after a step: the derivative, if the equation was differentiated. */
  ghost function Moved(h: History, h': History, eColored: seq<bool>, k: nat, v: nat): nat {
    var e := Last(h.eNext, k);
    if e < |eColored| && eColored[e] && v < |h'.next| && h'.next[v].Some? then h'.next[v].value else v
  }

  lemma {:induction false} MovedCovers(h: History, h': History, vColored: seq<bool>, eColored: seq<bool>, count: nat,
                                       k: nat, v: nat)
    requires h.Valid(count) && Step(h, h', vColored, eColored) && h.NoParameters() && k < count && CoversAt(h, k, v)
    ensures CoversAt(h', k, Moved(h, h', eColored, k, v))
    ensures First(h'.previous, Moved(h, h', eColored, k, v)) == First(h.previous, v)
    ensures Last(h.next, v) < |vColored| && Last(h.eNext, k) < |eColored|
    ensures Steps(h'.next, Moved(h, h', eColored, k, v)) + (if eColored[Last(h.eNext, k)] then 1 else 0) ==
      Steps(h.next, v) + if vColored[Last(h.next, v)] then 1 else 0
  {
    hide Step, History.Valid, Extended, NewEquation, Chains, First, Last, Steps;
    StepParts(h, h', vColored, eColored, count, k);
    LastExtended(vColored, h.next, h.previous, h'.next, v);
    LastExtended(eColored, h.eNext, h.ePrevious, h'.eNext, k);
    FirstKept(h.previous, h'.previous, v);
    var e := Last(h.eNext, k);
    if eColored[e] {
      ColoredParts(h, h', vColored, eColored, count, e, v);
      DerivativeCovers(h, h', e, v);
    }
  }

  lemma {:induction false} StepParts(h: History, h': History, vColored: seq<bool>, eColored: seq<bool>, count: nat,
                                     k: nat)
    requires h.Valid(count) && Step(h, h', vColored, eColored) && k < count
    ensures Chains(h.next, h.previous) && Chains(h.eNext, h.ePrevious) && Chains(h'.next, h'.previous)
    ensures Chains(h'.eNext, h'.ePrevious)
    ensures Extended(vColored, h.next, h'.next) && Extended(eColored, h.eNext, h'.eNext)
    ensures h.previous <= h'.previous && h.original <= h'.original && |h'.original| == |h'.eNext|
    ensures |h.next| == |h.previous|
    ensures k < |h.eNext| == |h.original| == |eColored| && |vColored| == |h.next| <= |h'.next|
  {
    hide NewEquation, AllReady, History.Descends, NoneAbove;
  }

  /** A coloured equation and a variable that it contains have derivatives. */
  lemma {:induction false} ColoredParts(h: History, h': History, vColored: seq<bool>, eColored: seq<bool>, count: nat,
                                        e: nat, v: nat)
    requires h.Valid(count) && Step(h, h', vColored, eColored) && h.NoParameters()
    requires e < |h.original| && e < |eColored| && eColored[e] && v in h.original[e] && v < |h.next|
    ensures v < |h'.next| && h'.next[v].Some? && e < |h'.eNext| && h'.eNext[e].Some?
    ensures NewEquation(h', h'.eNext[e].value, |h.original|)
  {
    assert Ready(h, h', e);
    hide NewEquation, History.Descends, NoneAbove, Chains;
  }

  /** The derivative of a variable is in the derivative of an equation that contains it. */
  lemma {:induction false} DerivativeCovers(h: History, h': History, e: nat, v: nat)
    requires Chains(h'.next, h'.previous) && Chains(h'.eNext, h'.ePrevious) && h.original <= h'.original
    requires |h'.original| == |h'.eNext| && e < |h.original| && v in h.original[e]
    requires v < |h'.next| && h'.next[v].Some? && h'.eNext[e].Some? && NewEquation(h', h'.eNext[e].value, |h.original|)
    ensures h'.eNext[e].value < |h'.original| && h'.next[v].value in h'.original[h'.eNext[e].value]
    ensures v < h'.next[v].value < |h'.next| && First(h'.previous, h'.next[v].value) == First(h'.previous, v)
    ensures Steps(h'.next, v) == Steps(h'.next, h'.next[v].value) + 1
  {}

  ghost function AllMoved(h: History, h': History, eColored: seq<bool>, cover: seq<nat>): (r: seq<nat>)
    ensures |r| == |cover| && forall k :: 0 <= k < |r| ==> r[k] == Moved(h, h', eColored, k, cover[k])
  {
    seq(|cover|, k requires 0 <= k < |cover| => Moved(h, h', eColored, k, cover[k]))
  }

  /** The slack changes by the variables and the equations of the cover that got derivatives. */
  lemma {:induction false} SlackBalance(next: Links, next': Links, cover: seq<nat>, cover': seq<nat>, a: seq<bool>,
                                        b: seq<bool>)
    requires |cover| == |cover'| == |a| == |b|
    requires forall k :: 0 <= k < |cover| ==>
      Steps(next', cover'[k]) + (if b[k] then 1 else 0) == Steps(next, cover[k]) + if a[k] then 1 else 0
    ensures Slack(next', cover') + Count(b) == Slack(next, cover) + Count(a)
  {
    if cover != [] {
      var n := |cover| - 1;
      SlackBalance(next, next', cover[..n], cover'[..n], a[..n], b[..n]);
    }
  }

  ghost function CoverColored(h: History, vColored: seq<bool>, cover: seq<nat>): (r: seq<bool>)
    ensures |r| == |cover|
    ensures forall k :: 0 <= k < |r| ==>
      r[k] == (Last(h.next, cover[k]) < |vColored| && vColored[Last(h.next, cover[k])])
  {
    seq(|cover|, k requires 0 <= k < |cover| => Last(h.next, cover[k]) < |vColored| && vColored[Last(h.next, cover[k])])
  }

  ghost function YoungestColored(h: History, eColored: seq<bool>, count: nat): (r: seq<bool>)
    ensures |r| == count
    ensures forall k :: 0 <= k < |r| ==> r[k] == (Last(h.eNext, k) < |eColored| && eColored[Last(h.eNext, k)])
  {
    seq(count, k requires 0 <= k < count => Last(h.eNext, k) < |eColored| && eColored[Last(h.eNext, k)])
  }

  /** The chains of the cover end at different variables. */
  lemma {:induction false} CoverEndsDiffer(h: History, count: nat, cover: seq<nat>, k: nat, l: nat)
    requires h.Valid(count) && IsCover(h, count, cover) && k < l < count
    ensures Last(h.next, cover[k]) != Last(h.next, cover[l])
  {
    assert CoversAt(h, k, cover[k]) && CoversAt(h, l, cover[l]);
    hide CoversAt;
    LastIsEnd(h.next, h.previous, cover[k]);
    LastIsEnd(h.next, h.previous, cover[l]);
    hide First, Last, Chains, History.Descends, NoneAbove;
  }

  lemma {:induction false} CoverColoredCount(h: History, vColored: seq<bool>, count: nat, cover: seq<nat>)
    requires h.Valid(count) && IsCover(h, count, cover)
    ensures Count(CoverColored(h, vColored, cover)) <= Count(vColored)
  {
    hide History.Valid, CoversAt, Last, Count, First, CoverColored;
    var a := CoverColored(h, vColored, cover);
    CountIsCardinality(a);
    CountIsCardinality(vColored);
    var f := (k: nat) => if k < |cover| then Last(h.next, cover[k]) else 0;
    forall k, l | k in Chosen(a) && l in Chosen(a) && f(k) == f(l)
      ensures k == l
    {
      if k < l {
        CoverEndsDiffer(h, count, cover, k, l);
      } else if l < k {
        CoverEndsDiffer(h, count, cover, l, k);
      }
    }
    InjectiveImage(Chosen(a), Chosen(vColored), f);
  }

  /** Every coloured equation is the youngest derivative of an equation of the model. */
  lemma {:induction false} YoungestColoredCount(h: History, h': History, eColored: seq<bool>, count: nat)
    requires h.Valid(count) && Extended(eColored, h.eNext, h'.eNext)
    ensures Count(eColored) <= Count(YoungestColored(h, eColored, count))
  {
    var b := YoungestColored(h, eColored, count);
    CountIsCardinality(b);
    CountIsCardinality(eColored);
    var f := (e: nat) => First(h.ePrevious, e);
    forall e | e in Chosen(eColored)
      ensures f(e) in Chosen(b) && Last(h.eNext, f(e)) == e
    {
      FirstIsStart(h.eNext, h.ePrevious, e);
    }
    InjectiveImage(Chosen(eColored), Chosen(b), f);
  }

  lemma {:induction false} MovedAt(h: History, h': History, vColored: seq<bool>, eColored: seq<bool>, count: nat,
                                   cover: seq<nat>, k: nat)
    requires h.Valid(count) && Step(h, h', vColored, eColored) && h.NoParameters() && IsCover(h, count, cover)
    requires k < count
    ensures var cover' := AllMoved(h, h', eColored, cover);
      && CoversAt(h', k, cover'[k]) && First(h'.previous, cover'[k]) == First(h.previous, cover[k])
      && Steps(h'.next, cover'[k]) + (if YoungestColored(h, eColored, count)[k] then 1 else 0) ==
           Steps(h.next, cover[k]) + if CoverColored(h, vColored, cover)[k] then 1 else 0
  {
    assert CoversAt(h, k, cover[k]);
    hide History.Valid, Step, CoversAt, Steps, Last, Moved, First;
    MovedCovers(h, h', vColored, eColored, count, k, cover[k]);
  }

  lemma {:induction false} StepColorsMore(h: History, h': History, vColored: seq<bool>, eColored: seq<bool>, count: nat,
                                          cover: seq<nat>)
    requires h.Valid(count) && Step(h, h', vColored, eColored) && IsCover(h, count, cover)
    ensures Count(CoverColored(h, vColored, cover)) < Count(YoungestColored(h, eColored, count))
  {
    CoverColoredCount(h, vColored, count, cover);
    YoungestColoredCount(h, h', eColored, count);
    hide History.Valid, IsCover, CoverColored, YoungestColored, Count, Extended, NewEquation, AllReady, Chains;
  }

  lemma {:induction false} SameChains(h: History, h': History, count: nat, cover: seq<nat>, cover': seq<nat>)
    requires IsCover(h, count, cover) && |cover'| == count
    requires forall k: nat :: k < count ==>
      CoversAt(h', k, cover'[k]) && First(h'.previous, cover'[k]) == First(h.previous, cover[k])
    ensures IsCover(h', count, cover')
  {
    hide CoversAt, First;
  }

  /** A failed search leaves the cover with less slack. */
  lemma {:induction false} StepTakesSlack(h: History, h': History, vColored: seq<bool>, eColored: seq<bool>, count: nat,
                                          cover: seq<nat>)
    requires h.Valid(count) && Step(h, h', vColored, eColored) && h.NoParameters() && IsCover(h, count, cover)
    ensures IsCover(h', count, AllMoved(h, h', eColored, cover))
    ensures Slack(h'.next, AllMoved(h, h', eColored, cover)) < Slack(h.next, cover)
  {
    hide *;
    var cover', a, b := AllMoved(h, h', eColored, cover), CoverColored(h, vColored, cover), YoungestColored(h,
      eColored, count);
    CoverSize(h, count, cover);
    StepColorsMore(h, h', vColored, eColored, count, cover);
    forall k: nat | k < count
      ensures CoversAt(h', k, cover'[k]) && First(h'.previous, cover'[k]) == First(h.previous, cover[k])
      ensures Steps(h'.next, cover'[k]) + (if b[k] then 1 else 0) == Steps(h.next, cover[k]) + if a[k] then 1 else 0
    {
      MovedAt(h, h', vColored, eColored, count, cover, k);
    }
    SameChains(h, h', count, cover, cover');
    SlackBalance(h.next, h'.next, cover, cover', a, b);
  }

  lemma {:induction false} CoverSize(h: History, count: nat, cover: seq<nat>)
    requires IsCover(h, count, cover)
    ensures |cover| == count
  {}

  // ---------------------------------------------------------------------------------------------
  // From a matching at the end to a cover at the start

  /** What a derivative contains belongs to a chain that the equation of the model contains. */
  lemma {:induction false} Origin(h: History, count: nat, e: nat, v: nat) returns (u: nat)
    requires h.Valid(count) && e < |h.original| && v in h.original[e]
    ensures First(h.ePrevious, e) < count && u in h.original[First(h.ePrevious, e)] && u < |h.next|
    ensures First(h.previous, u) == First(h.previous, v)
    decreases e
  {
    assert h.Descends(e) && NoneAbove(h.original[e], |h.next|);
    if h.ePrevious[e].None? {
      u := v;
    } else {
      var d := h.ePrevious[e].value;
      u := Origin(h, count, d, if v in h.original[d] then v else h.previous[v].value);
    }
  }

  /** h0 is the graph of the model, from which h developed. */
  ghost predicate Develops(h0: History, h: History, count: nat) {
    && h0.Valid(count) && h.Valid(count) && |h0.original| == count
    && h0.original <= h.original && h0.previous <= h.previous && h0.parameter <= h.parameter
  }

  /** Every equation of the model has a variable of its own: its youngest derivative is matched with it. */
  ghost predicate Matched(h: History, count: nat, matched: seq<nat>) {
    && |matched| == count
    && (forall k :: 0 <= k < count ==> CoversAt(h, k, matched[k]) && h.next[matched[k]].None?)
    && (forall k, l :: 0 <= k < l < count ==> matched[k] != matched[l])
  }

  lemma {:induction false} OriginCovers(h0: History, h: History, count: nat, k: nat, v: nat) returns (u: nat)
    requires Develops(h0, h, count) && k < count && CoversAt(h, k, v)
    ensures CoversAt(h0, k, u) && First(h0.previous, u) == First(h.previous, v)
  {
    LastIsEnd(h.eNext, h.ePrevious, k);
    u := Origin(h, count, Last(h.eNext, k), v);
    assert First(h.ePrevious, k) == k && Last(h0.eNext, k) == k;
    assert NoneAbove(h0.original[k], |h0.next|);
    FirstKept(h0.previous, h.previous, u);
  }

  /** The first n variables of the cover. */
  lemma {:induction false} OriginsCover(h0: History, h: History, count: nat, matched: seq<nat>, n: nat)
    returns (cover: seq<nat>)
    requires Develops(h0, h, count) && Matched(h, count, matched) && n <= count
    ensures |cover| == n
    ensures forall k :: 0 <= k < n ==>
      CoversAt(h0, k, cover[k]) && First(h0.previous, cover[k]) == First(h.previous, matched[k])
  {
    hide Develops, CoversAt, First;
    if n == 0 {
      cover := [];
    } else {
      var rest := OriginsCover(h0, h, count, matched, n - 1);
      var u := OriginCovers(h0, h, count, n - 1, matched[n - 1]);
      cover := rest + [u];
    }
  }

  /** A matching at the end shows that the model was covered. */
  lemma {:induction false} MatchedWasCovered(h0: History, h: History, count: nat, matched: seq<nat>)
    returns (cover: seq<nat>)
    requires Develops(h0, h, count) && Matched(h, count, matched)
    ensures IsCover(h0, count, cover)
  {
    cover := OriginsCover(h0, h, count, matched, count);
    forall k, l | 0 <= k < l < count
      ensures First(h.previous, matched[k]) != First(h.previous, matched[l])
    {
      assert CoversAt(h, k, matched[k]) && CoversAt(h, l, matched[l]);
      FirstIsStart(h.next, h.previous, matched[k]);
      FirstIsStart(h.next, h.previous, matched[l]);
    }
    hide CoversAt;
  }
}
