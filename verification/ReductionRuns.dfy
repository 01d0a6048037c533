/**
  The runs of the Pantelides index reduction, without matchings and paths: which equations are differentiated
  depends on the structure of the model and the order of its equations only.
 */
module ReductionRuns {
  import opened Wrappers
  import opened Matching
  import opened BipartiteGraphs
  import opened Coverage

  /** Equation number k of the model is dealt with, and i is its youngest derivative. */
  datatype Moment = Moment(k: nat, i: nat, h: History)

  /** The variable stays when variables with derivatives are deleted. */
  ghost predicate Live(h: History, v: nat) {
    && v < |h.next| && h.next[v].None?
    && v < |h.parameter| && !h.parameter[v]
  }

  ghost function Dead(h: History): (r: seq<bool>)
    ensures |r| == |h.next| && forall v: nat :: v < |r| ==> r[v] == !Live(h, v)
  {
    seq(|h.next|, v requires 0 <= v < |h.next| => !Live(h, v))
  }

  /** The live variables of every equation. */
  ghost function LiveRows(h: History): (r: Adjacency)
    ensures |r| == |h.original|
    ensures forall e: nat, v: nat {:trigger v in r[e]} :: e < |r| ==>
      (v in r[e] <==> v in h.original[e] && Live(h, v))
  {
    Restricted(h.original, Dead(h))
  }

  /** The youngest derivatives of the first k + 1 equations of the model. */
  ghost function Present(h: History, k: nat, count: nat): set<nat> {
    set e: nat | e < |h.eNext| && h.eNext[e].None? && !(k < e < count)
  }

  /** All variables of equation i have derivatives, and no equation has one of these that is still live. */
  ghost predicate Stranded(h: History, i: nat) {
    && i < |h.original|
    && (forall v: nat :: v in h.original[i] ==> !Live(h, v))
    && (forall d: nat, e: nat {:trigger d in h.original[e]} :: e < |h.original| && d in h.original[e] && Live(h, d) ==>
          !DerivativeIn(h, i, d))
  }

  /** Variable d is the derivative of a variable of equation i. */
  ghost predicate DerivativeIn(h: History, i: nat, d: nat)
    requires i < |h.original|
  {
    d < |h.previous| && h.previous[d].Some? && h.previous[d].value in h.original[i]
  }

  // ---------------------------------------------------------------------------------------------
  // Rounds

  /** The present equations have live variables of their own, so the search finds a path. */
  ghost predicate Succeeds(m: Moment, count: nat) {
    Coverable(LiveRows(m.h), Present(m.h, m.k, count))
  }

  /** The subset that is differentiated: the fewest present equations that have fewer live variables. */
  ghost predicate IsSubset(m: Moment, count: nat, vColored: seq<bool>, eColored: seq<bool>) {
    && LeastDeficient(LiveRows(m.h), Present(m.h, m.k, count), Chosen(eColored))
    && Neighbors(LiveRows(m.h), Chosen(eColored)) == Chosen(vColored)
    && m.i < |eColored| && eColored[m.i]
  }

  /** The search fails, and h' is the graph with the derivatives of the subset. */
  ghost predicate Differentiates(m: Moment, h': History, count: nat) {
    exists vColored, eColored :: IsSubset(m, count, vColored, eColored) && Step(m.h, h', vColored, eColored)
  }

  ghost predicate GoesOn(m: Moment, m': Moment, count: nat) {
    && !Stranded(m.h, m.i) && Differentiates(m, m'.h, count)
    && m'.k == m.k && m.i < |m'.h.eNext| && m'.h.eNext[m.i] == Some(m'.i)
  }

  /** One round leads to the next equation of the model, or to the derivative of the present one. */
  ghost predicate Round(m: Moment, m': Moment, count: nat) {
    && m.k < count
    && if Succeeds(m, count) then m' == Moment(m.k + 1, m.k + 1, m.h) else GoesOn(m, m', count)
  }

  ghost predicate IsRun(h0: History, count: nat, rounds: seq<Moment>) {
    && |rounds| > 0 && rounds[0] == Moment(0, 0, h0)
    && forall j :: 0 <= j < |rounds| - 1 ==> Round(rounds[j], rounds[j + 1], count)
  }

  ghost function Latest(rounds: seq<Moment>): Moment
    requires |rounds| > 0
  {
    rounds[|rounds| - 1]
  }

  datatype Outcome = Reduced | OverDefined | OutOfFuel

  /** How the run ends if it is cut short after `fuel` searches, and the graph that it leaves. */
  ghost predicate Ends(r: Outcome, rounds: seq<Moment>, last: History, count: nat, fuel: nat)
    requires |rounds| > 0
  {
    var m := Latest(rounds);
    match r
    case Reduced => m.k == count && last == m.h && |rounds| <= fuel + 1
    case OverDefined =>
      && m.k < count && !Succeeds(m, count) && Stranded(m.h, m.i) && Differentiates(m, last, count)
      && |rounds| <= fuel
    case OutOfFuel => m.k < count && last == m.h && |rounds| == fuel + 1
  }

  /** The number of searches without success. */
  ghost function Failures(r: Outcome, rounds: seq<Moment>): int
    requires |rounds| > 0
  {
    |rounds| - Latest(rounds).k - if r == OverDefined then 0 else 1
  }

  /** Round j is the first search for an equation of the model, which is stranded when it starts. */
  ghost predicate StrandedAt(rounds: seq<Moment>, count: nat, j: nat)
    requires j < |rounds|
  {
    rounds[j].i == rounds[j].k < count && Stranded(rounds[j].h, rounds[j].k)
  }

  /** One of the first `fuel` searches is the first one for an equation of the model that is stranded then. */
  ghost predicate MeetsStranded(rounds: seq<Moment>, count: nat, fuel: nat) {
    exists j: nat :: j < fuel && j < |rounds| && StrandedAt(rounds, count, j)
  }

  ghost predicate HasCover(h: History, count: nat) {
    exists cover :: IsCover(h, count, cover)
  }

  // ---------------------------------------------------------------------------------------------
  // What every round keeps

  /** The derivative of equation e has the variables of e and their derivatives. */
  ghost predicate PassesOn(h: History, e: nat) {
    e < |h.original| && e < |h.eNext| && h.eNext[e].Some? ==>
      && h.eNext[e].value < |h.original|
      && forall v: nat {:trigger v in h.original[e]} ::
           v in h.original[e] && v < |h.next| && v < |h.parameter| ==>
             && v in h.original[h.eNext[e].value]
             && (!h.parameter[v] ==> h.next[v].Some? && h.next[v].value in h.original[h.eNext[e].value])
  }

  ghost predicate AllPassOn(h: History) {
    forall e: nat :: e < |h.original| ==> PassesOn(h, e)
  }

  lemma {:induction false} OldPassesOn(h: History, h': History, vColored: seq<bool>, eColored: seq<bool>, count: nat,
                                       e: nat)
    requires h.Valid(count) && Step(h, h', vColored, eColored) && e < |h.original| && h.eNext[e].Some?
    requires PassesOn(h, e)
    ensures PassesOn(h', e)
  {
    assert NoneAbove(h.original[e], |h.next|);
    hide History.Descends, CreatedInOrder, NewEquation, AllReady, Count, Chains;
  }

  lemma {:induction false} NewPassesOn(h: History, h': History, vColored: seq<bool>, eColored: seq<bool>, count: nat,
                                       e: nat)
    requires h.Valid(count) && Step(h, h', vColored, eColored) && e < |h.original| && eColored[e]
    ensures PassesOn(h', e)
  {
    assert NoneAbove(h.original[e], |h.next|) && Ready(h, h', e);
    assert NewEquation(h', h'.eNext[e].value, |h.original|);
    hide History.Descends, CreatedInOrder, AllReady, Count;
  }

  lemma {:induction false} AllPassOnNext(h: History, h': History, vColored: seq<bool>, eColored: seq<bool>, count: nat)
    requires h.Valid(count) && Step(h, h', vColored, eColored) && AllPassOn(h)
    ensures AllPassOn(h')
  {
    hide History.Descends, CreatedInOrder, AllReady, Count, NewEquation, PassesOn, Chains;
    forall e: nat | e < |h'.original|
      ensures PassesOn(h', e)
    {
      if e >= |h.original| || (h.eNext[e].None? && !eColored[e]) {
        NothingPassed(h', e);
      } else if eColored[e] {
        NewPassesOn(h, h', vColored, eColored, count, e);
      } else {
        OldPassesOn(h, h', vColored, eColored, count, e);
      }
    }
  }

  lemma {:induction false} NothingPassed(h: History, e: nat)
    requires e < |h.eNext| && h.eNext[e].None?
    ensures PassesOn(h, e)
  {}

  /** The equations that are still to come were not differentiated, nor was the present one. */
  ghost predicate Untouched(m: Moment, count: nat) {
    && m.k <= count <= |m.h.eNext|
    && (forall e :: m.k < e < count ==> m.h.eNext[e].None?)
    && (m.k < count ==> m.i < |m.h.eNext| && m.h.eNext[m.i].None? && (m.i == m.k || m.i >= count))
  }

  ghost predicate Sound(h0: History, m: Moment, count: nat) {
    Develops(h0, m.h, count) && AllPassOn(m.h) && Untouched(m, count)
  }

  lemma {:induction false} UntouchedNext(m: Moment, m': Moment, count: nat, vColored: seq<bool>, eColored: seq<bool>)
    requires Untouched(m, count) && m.k < count && m.h.Valid(count)
    requires IsSubset(m, count, vColored, eColored) && Step(m.h, m'.h, vColored, eColored)
    requires m'.k == m.k && m.i < |m'.h.eNext| && m'.h.eNext[m.i] == Some(m'.i)
    ensures Untouched(m', count)
  {
    forall e | m.k < e < count
      ensures !eColored[e]
    {
      PresentOnly(m, count, vColored, eColored, e);
    }
    hide History.Valid, CreatedInOrder, NewEquation, AllReady, Count, IsSubset, Chains;
    assert Extended(eColored, m.h.eNext, m'.h.eNext);
    hide Step;
  }

  lemma {:induction false} PresentOnly(m: Moment, count: nat, vColored: seq<bool>, eColored: seq<bool>, e: nat)
    requires IsSubset(m, count, vColored, eColored) && m.k < e < count && e < |eColored|
    ensures !eColored[e]
  {
    assert e !in Present(m.h, m.k, count) && Chosen(eColored) <= Present(m.h, m.k, count);
    assert e !in Chosen(eColored);
  }

  lemma {:induction false} StepDevelops(h0: History, h: History, h': History, count: nat, vColored: seq<bool>,
                                        eColored: seq<bool>)
    requires Develops(h0, h, count) && Step(h, h', vColored, eColored)
    ensures Develops(h0, h', count)
  {
    ValidNext(h, h', vColored, eColored, count);
    hide History.Valid, Extended, Chains, NewEquation, AllReady, CreatedInOrder, Count;
  }

  lemma {:induction false} RoundIsSound(h0: History, m: Moment, m': Moment, count: nat)
    requires Sound(h0, m, count) && Round(m, m', count)
    ensures Sound(h0, m', count)
  {
    hide History.Valid, AllPassOn, IsSubset, Step, Succeeds, Stranded;
    if !Succeeds(m, count) {
      hide Untouched;
      var vColored, eColored :| IsSubset(m, count, vColored, eColored) && Step(m.h, m'.h, vColored, eColored);
      AllPassOnNext(m.h, m'.h, vColored, eColored, count);
      UntouchedNext(m, m', count, vColored, eColored);
      StepDevelops(h0, m.h, m'.h, count, vColored, eColored);
    }
  }

  /** The graph of a model: no equation was differentiated. */
  ghost predicate Begins(h0: History, count: nat) {
    h0.Valid(count) && |h0.original| == count
  }

  lemma {:induction false} BeginningIsSound(h0: History, count: nat)
    requires Begins(h0, count)
    ensures Sound(h0, Moment(0, 0, h0), count)
    ensures forall e: nat :: e < count ==> h0.eNext[e].None?
  {
    forall e: nat | e < count
      ensures h0.eNext[e].None? && PassesOn(h0, e)
    {
      hide History.Descends, NoneAbove;
    }
    hide History.Descends, NoneAbove, PassesOn;
  }

  lemma {:induction false} RunRound(h0: History, count: nat, rounds: seq<Moment>, j: nat)
    requires IsRun(h0, count, rounds) && j < |rounds|
    ensures if j == 0 then rounds[j] == Moment(0, 0, h0) else Round(rounds[j - 1], rounds[j], count)
  {
    hide Round;
  }

  lemma {:induction false} RunIsSound(h0: History, count: nat, rounds: seq<Moment>, j: nat)
    requires Begins(h0, count) && IsRun(h0, count, rounds) && j < |rounds|
    ensures Sound(h0, rounds[j], count)
  {
    hide Begins, Round, Sound;
    if j == 0 {
      BeginningIsSound(h0, count);
    } else {
      RunIsSound(h0, count, rounds, j - 1);
      RoundIsSound(h0, rounds[j - 1], rounds[j], count);
    }
  }

  // ---------------------------------------------------------------------------------------------
  // Only an equation of the model can be stranded

  /** A live variable of an equation or of a derivative of its variables is enough for its derivative. */
  lemma {:induction false} NotStranded(h: History, i: nat, d: nat)
    requires i < |h.original| && d in h.original[i] && Live(h, d)
    ensures !Stranded(h, i)
  {}

  /** What a step does with an equation of the subset. */
  lemma {:induction false} EquationStep(h: History, h': History, vColored: seq<bool>, eColored: seq<bool>, e: nat)
    requires Step(h, h', vColored, eColored) && |h.original| == |h.eNext|
    requires e < |h.original| && e < |eColored| && eColored[e]
    ensures e < |h'.eNext| && h'.eNext[e].Some?
    ensures NewEquation(h', h'.eNext[e].value, |h.original|) && h'.ePrevious[h'.eNext[e].value] == Some(e)
    ensures h'.original[e] == h.original[e]
  {
    hide NewEquation, AllReady, CreatedInOrder, Count;
  }

  /** What a step does with a live variable. */
  lemma {:induction false} VariableStep(h: History, h': History, vColored: seq<bool>, eColored: seq<bool>, v: nat)
    requires Step(h, h', vColored, eColored) && Live(h, v) && |h.next| == |h.parameter| == |h.previous|
    ensures v < |vColored| && v < |h'.next|
    ensures vColored[v] ==> h'.next[v].Some? && Live(h', h'.next[v].value) && h'.next[v].value < |h'.previous|
    ensures vColored[v] ==> h'.previous[h'.next[v].value] == Some(v)
    ensures !vColored[v] ==> Live(h', v)
    ensures v < |h.previous| <= |h'.previous| && h'.previous[v] == h.previous[v]
  {
    hide NewEquation, AllReady, CreatedInOrder, Count;
  }

  /** The equation has a live variable, whose derivative is a live variable of the derivative. */
  lemma {:induction false} LiveGoesOn(m: Moment, h': History, count: nat, vColored: seq<bool>, eColored: seq<bool>,
                                      v: nat)
    requires IsSubset(m, count, vColored, eColored) && Step(m.h, h', vColored, eColored)
    requires |m.h.original| == |m.h.eNext| && |m.h.next| == |m.h.parameter| == |m.h.previous|
    requires m.i < |m.h.original| && v in m.h.original[m.i] && Live(m.h, v)
    ensures m.i < |h'.eNext| && h'.eNext[m.i].Some? && !Stranded(h', h'.eNext[m.i].value)
  {
    hide Step, LeastDeficient, Stranded;
    assert v in LiveRows(m.h)[m.i] && v in Neighbors(LiveRows(m.h), Chosen(eColored));
    assert v in Chosen(vColored);
    EquationStep(m.h, h', vColored, eColored, m.i);
    VariableStep(m.h, h', vColored, eColored, v);
    hide Live, IsSubset;
    assert h'.next[v].value in h'.original[h'.eNext[m.i].value];
    NotStranded(h', h'.eNext[m.i].value, h'.next[v].value);
  }

  /** Otherwise the equation is differentiated alone, and the variable that it shares through its derivative stays. */
  lemma {:induction false} SharedGoesOn(m: Moment, h': History, count: nat, vColored: seq<bool>, eColored: seq<bool>,
                                        d: nat)
    requires IsSubset(m, count, vColored, eColored) && Step(m.h, h', vColored, eColored)
    requires |m.h.original| == |m.h.eNext| && |m.h.next| == |m.h.parameter| == |m.h.previous|
    requires m.i < |m.h.original| && forall v: nat :: v in m.h.original[m.i] ==> !Live(m.h, v)
    requires m.i in Present(m.h, m.k, count) && Live(m.h, d) && DerivativeIn(m.h, m.i, d)
    ensures m.i < |h'.eNext| && h'.eNext[m.i].Some? && !Stranded(h', h'.eNext[m.i].value)
  {
    hide Step, Stranded, Live;
    NothingElse(m, count, vColored, eColored);
    EquationStep(m.h, h', vColored, eColored, m.i);
    VariableStep(m.h, h', vColored, eColored, d);
    hide IsSubset;
    assert d in h'.original[h'.eNext[m.i].value];
    NotStranded(h', h'.eNext[m.i].value, d);
  }

  /** An equation without live variables is differentiated alone. */
  lemma {:induction false} NothingElse(m: Moment, count: nat, vColored: seq<bool>, eColored: seq<bool>)
    requires IsSubset(m, count, vColored, eColored)
    requires m.i < |m.h.original| && forall v: nat :: v in m.h.original[m.i] ==> !Live(m.h, v)
    requires m.i in Present(m.h, m.k, count)
    ensures Chosen(eColored) == {m.i} && Chosen(vColored) == {}
    ensures forall v :: 0 <= v < |vColored| ==> !vColored[v]
  {
    hide Live;
    assert Neighbors(LiveRows(m.h), {m.i}) == {} && Deficient(LiveRows(m.h), {m.i});
    assert Chosen(eColored) == {m.i};
    forall v: nat | v < |vColored|
      ensures !vColored[v]
    {
      assert v !in Chosen(vColored);
    }
  }

  /** After a round that goes on, the next equation is not stranded. */
  lemma {:induction false} GoingOnIsNotStranded(h0: History, m: Moment, m': Moment, count: nat)
    requires Sound(h0, m, count) && m.k < count && GoesOn(m, m', count)
    ensures !Stranded(m'.h, m'.i)
  {
    var vColored, eColored :| IsSubset(m, count, vColored, eColored) && Step(m.h, m'.h, vColored, eColored);
    hide IsSubset, Step, AllPassOn;
    assert m.i in Present(m.h, m.k, count) && m.i < |m.h.original|;
    if v: nat :| v in m.h.original[m.i] && Live(m.h, v) {
      LiveGoesOn(m, m'.h, count, vColored, eColored, v);
    } else {
      var d: nat :| Live(m.h, d) && DerivativeIn(m.h, m.i, d);
      SharedGoesOn(m, m'.h, count, vColored, eColored, d);
    }
  }

  /** An equation is stranded at most when the first search for an equation of the model starts. */
  lemma {:induction false} StrandedAtFirstSearch(h0: History, count: nat, rounds: seq<Moment>, j: nat)
    requires Begins(h0, count) && IsRun(h0, count, rounds) && j < |rounds| && rounds[j].k < count
    requires Stranded(rounds[j].h, rounds[j].i)
    ensures rounds[j].i == rounds[j].k && StrandedAt(rounds, count, j)
  {
    hide Begins, Stranded, GoesOn, Succeeds, Sound;
    if j > 0 {
      RunIsSound(h0, count, rounds, j - 1);
      assert Round(rounds[j - 1], rounds[j], count);
      if !Succeeds(rounds[j - 1], count) {
        GoingOnIsNotStranded(h0, rounds[j - 1], rounds[j], count);
      }
    }
  }

  /** The search for a stranded equation fails. */
  lemma {:induction false} StrandedFails(h0: History, m: Moment, count: nat)
    requires Sound(h0, m, count) && m.k < count && Stranded(m.h, m.i)
    ensures !Succeeds(m, count)
  {
    assert m.i in Present(m.h, m.k, count);
    hide Stranded, Present;
    LonelyFails(m, count);
  }

  lemma {:induction false} LonelyFails(m: Moment, count: nat)
    requires m.i in Present(m.h, m.k, count) && Stranded(m.h, m.i)
    ensures !Succeeds(m, count)
  {
    assert Neighbors(LiveRows(m.h), {m.i}) == {} && Deficient(LiveRows(m.h), {m.i});
    DeficientRefutes(LiveRows(m.h), Present(m.h, m.k, count), {m.i});
  }

  /** A derivative of a variable of the equation that is a live variable of some equation. */
  lemma {:induction false} SharedNotStranded(h: History, i: nat, d: nat, e: nat)
    requires i < |h.original| && e < |h.original| && d in h.original[e] && Live(h, d) && DerivativeIn(h, i, d)
    ensures !Stranded(h, i)
  {
    hide Live;
  }

  // ---------------------------------------------------------------------------------------------
  // Which variables and equations have derivatives

  /** A variable gets a derivative only together with an equation that contains it. */
  ghost predicate SpentTogether(h0: History, h: History) {
    forall v: nat :: v < |h.next| && h.next[v].Some? && !(v < |h0.next| && h0.next[v].Some?) ==> InSpent(h, v)
  }

  ghost predicate InSpent(h: History, v: nat) {
    exists e: nat {:trigger h.original[e]} ::
      e < |h.original| && e < |h.eNext| && v in h.original[e] && h.eNext[e].Some?
  }

  lemma {:induction false} StepSpends(h0: History, m: Moment, h': History, count: nat, vColored: seq<bool>,
                                      eColored: seq<bool>, v: nat)
    requires IsSubset(m, count, vColored, eColored) && Step(m.h, h', vColored, eColored) && SpentTogether(h0, m.h)
    requires |m.h.original| == |m.h.eNext| && v < |h'.next| && h'.next[v].Some?
    requires !(v < |h0.next| && h0.next[v].Some?)
    ensures InSpent(h', v)
  {
    hide CreatedInOrder, NewEquation, AllReady, Count, Chains, LeastDeficient;
    if v < |m.h.next| && m.h.next[v].Some? {
      var e: nat :| e < |m.h.original| && e < |m.h.eNext| && v in m.h.original[e] && m.h.eNext[e].Some?;
      assert h'.original[e] == m.h.original[e];
    } else {
      assert v in Chosen(vColored) && v in Neighbors(LiveRows(m.h), Chosen(eColored));
      var e: nat :| e in Chosen(eColored) && e < |m.h.original| && v in LiveRows(m.h)[e];
      assert h'.original[e] == m.h.original[e];
    }
  }

  lemma {:induction false} RunSpends(h0: History, count: nat, rounds: seq<Moment>, j: nat)
    requires Begins(h0, count) && IsRun(h0, count, rounds) && j < |rounds|
    ensures SpentTogether(h0, rounds[j].h)
  {
    hide Begins, Round, Sound, InSpent;
    RunRound(h0, count, rounds, j);
    if j > 0 {
      RunSpends(h0, count, rounds, j - 1);
      RunIsSound(h0, count, rounds, j - 1);
      RoundSpends(h0, rounds[j - 1], rounds[j], count);
    }
  }

  lemma {:induction false} RoundSpends(h0: History, m: Moment, m': Moment, count: nat)
    requires Sound(h0, m, count) && Round(m, m', count) && SpentTogether(h0, m.h)
    ensures SpentTogether(h0, m'.h)
  {
    hide Succeeds, Stranded, IsSubset, Step, InSpent, AllPassOn, Untouched, Chains, History.Descends, NoneAbove;
    if !Succeeds(m, count) {
      var vColored, eColored :| IsSubset(m, count, vColored, eColored) && Step(m.h, m'.h, vColored, eColored);
      forall v: nat | v < |m'.h.next| && m'.h.next[v].Some? && !(v < |h0.next| && h0.next[v].Some?)
        ensures InSpent(m'.h, v)
      {
        StepSpends(h0, m, m'.h, count, vColored, eColored, v);
      }
    }
  }

  /** The derivatives of an equation that has none. */
  lemma {:induction false} UntouchedIsAlone(h: History, count: nat, e: nat)
    requires h.Valid(count) && e < |h.eNext|
    requires First(h.ePrevious, e) < |h.eNext| && h.eNext[First(h.ePrevious, e)].None?
    ensures First(h.ePrevious, e) == e
  {
    FirstIsStart(h.eNext, h.ePrevious, e);
    LastIsEnd(h.eNext, h.ePrevious, e);
    hide History.Descends, NoneAbove;
  }

  /** The present equations are youngest derivatives of the equations that were dealt with. */
  lemma {:induction false} PresentIsYoungest(h0: History, m: Moment, count: nat, e: nat)
    requires Sound(h0, m, count) && m.k < count && e in Present(m.h, m.k, count)
    ensures First(m.h.ePrevious, e) <= m.k && Last(m.h.eNext, First(m.h.ePrevious, e)) == e
  {
    var h, f := m.h, First(m.h.ePrevious, e);
    FirstIsStart(h.eNext, h.ePrevious, e);
    LastIsEnd(h.eNext, h.ePrevious, e);
    assert f < count;
    if m.k < f {
      UntouchedIsAlone(h, count, e);
    }
    hide AllPassOn, History.Descends, NoneAbove;
  }

  // ---------------------------------------------------------------------------------------------
  // How a run ends

  lemma {:induction false} RoundCounts(h0: History, m: Moment, m': Moment, count: nat)
    requires Sound(h0, m, count) && Round(m, m', count)
    ensures m'.k == m.k + 1 || m'.k == m.k
    ensures |m'.h.next| - |m'.h.original| == |m.h.next| - |m.h.original| - 1 + m'.k - m.k
  {
    hide Succeeds, Stranded, IsSubset, Step, Sound;
    SoundBound(h0, m, count);
    if !Succeeds(m, count) {
      var vColored, eColored :| IsSubset(m, count, vColored, eColored) && Step(m.h, m'.h, vColored, eColored);
      StepCounts(m.h, m'.h, count, vColored, eColored);
    }
  }

  /** Every round matches an equation of the model or takes one degree of freedom. */
  lemma {:induction false} RunCounts(h0: History, count: nat, rounds: seq<Moment>, j: nat)
    requires Begins(h0, count) && IsRun(h0, count, rounds) && j < |rounds|
    ensures rounds[j].k <= j && rounds[j].k <= count
    ensures |rounds[j].h.next| - |rounds[j].h.original| == |h0.next| - |h0.original| - (j - rounds[j].k)
  {
    hide Begins, Round, Sound;
    if j > 0 {
      RunCounts(h0, count, rounds, j - 1);
      RunIsSound(h0, count, rounds, j - 1);
      RoundCounts(h0, rounds[j - 1], rounds[j], count);
      RunIsSound(h0, count, rounds, j);
    }
    RunIsSound(h0, count, rounds, j);
    SoundBound(h0, rounds[j], count);
  }

  lemma {:induction false} SoundBound(h0: History, m: Moment, count: nat)
    requires Sound(h0, m, count)
    ensures m.k <= count && m.h.Valid(count) && Develops(h0, m.h, count)
  {
    hide History.Valid, AllPassOn;
  }

  lemma {:induction false} StepKeepsNoParameters(h: History, h': History, vColored: seq<bool>, eColored: seq<bool>)
    requires Step(h, h', vColored, eColored) && h.NoParameters()
    ensures h'.NoParameters()
  {
    hide Extended, CreatedInOrder, NewEquation, AllReady, Chains, Count;
  }

  lemma {:induction false} RoundKeepsCover(h0: History, m: Moment, m': Moment, count: nat, cover: seq<nat>)
    returns (rest: seq<nat>)
    requires Sound(h0, m, count) && Round(m, m', count) && m.h.NoParameters() && IsCover(m.h, count, cover)
    ensures m'.h.NoParameters() && IsCover(m'.h, count, rest)
    ensures Slack(m'.h.next, rest) + 1 - (m'.k - m.k) <= Slack(m.h.next, cover)
  {
    hide Succeeds, Stranded, IsSubset, Step, IsCover, Slack, History.NoParameters, Sound;
    SoundBound(h0, m, count);
    rest := cover;
    if !Succeeds(m, count) {
      var vColored, eColored :| IsSubset(m, count, vColored, eColored) && Step(m.h, m'.h, vColored, eColored);
      rest := AllMoved(m.h, m'.h, eColored, cover);
      StepTakesSlack(m.h, m'.h, vColored, eColored, count, cover);
      StepKeepsNoParameters(m.h, m'.h, vColored, eColored);
    }
  }

  /** What the failed searches so far have left of a cover. */
  lemma {:induction false} RunKeepsCover(h0: History, count: nat, rounds: seq<Moment>, cover: seq<nat>, j: nat)
    returns (rest: seq<nat>)
    requires Begins(h0, count) && IsRun(h0, count, rounds) && j < |rounds|
    requires h0.NoParameters() && IsCover(h0, count, cover)
    ensures rounds[j].h.NoParameters() && IsCover(rounds[j].h, count, rest)
    ensures Slack(rounds[j].h.next, rest) + (j - rounds[j].k) <= Slack(h0.next, cover)
  {
    hide Begins, Round, Sound, IsCover, Slack, History.NoParameters;
    rest := cover;
    if j > 0 {
      rest := RunKeepsCover(h0, count, rounds, cover, j - 1);
      RunIsSound(h0, count, rounds, j - 1);
      rest := RoundKeepsCover(h0, rounds[j - 1], rounds[j], count, rest);
    }
  }

  /** The youngest derivative of a present equation of the model. */
  lemma {:induction false} YoungestIsPresent(h: History, count: nat, k: nat, l: nat)
    requires h.Valid(count) && l <= k < count
    ensures Last(h.eNext, l) in Present(h, k, count) && First(h.ePrevious, Last(h.eNext, l)) == l
  {
    LastIsEnd(h.eNext, h.ePrevious, l);
    var e := Last(h.eNext, l);
    assert First(h.ePrevious, l) == l;
    assert e < count ==> First(h.ePrevious, e) == e;
    hide History.Descends, NoneAbove;
  }

  /** What the present equations are covered with, by equations of the model. */
  lemma {:induction false} YoungestIsCovered(h: History, count: nat, k: nat, m: map<nat, nat>, l: nat)
    requires h.Valid(count) && l <= k < count && Covers(LiveRows(h), Present(h, k, count), m)
    ensures Last(h.eNext, l) in m && First(h.ePrevious, Last(h.eNext, l)) == l
    ensures var v := m[Last(h.eNext, l)]; CoversAt(h, l, v) && Live(h, v)
  {
    YoungestIsPresent(h, count, k, l);
    var e := Last(h.eNext, l);
    assert m[e] in LiveRows(h)[e];
    hide History.Valid, Last;
  }

  /** A run that deals with all equations shows that the model is covered. */
  lemma {:induction false} ReducedIsCovered(h0: History, count: nat, rounds: seq<Moment>) returns (cover: seq<nat>)
    requires Begins(h0, count) && IsRun(h0, count, rounds) && Latest(rounds).k == count
    ensures IsCover(h0, count, cover)
  {
    hide Begins, Sound, Stranded, Differentiates, IsCover, Succeeds;
    if count == 0 {
      cover := [];
      NothingToCover(h0);
    } else {
      var j := |rounds| - 2;
      assert Round(rounds[j], rounds[j + 1], count);
      assert rounds[j].k == count - 1 && Succeeds(rounds[j], count) && rounds[j].h == Latest(rounds).h;
      RunIsSound(h0, count, rounds, j);
      SoundBound(h0, rounds[j], count);
      cover := SucceededIsCovered(h0, rounds[j], count);
    }
  }

  lemma {:induction false} NothingToCover(h: History)
    ensures IsCover(h, 0, [])
  {}

  lemma {:induction false} SucceededIsCovered(h0: History, m: Moment, count: nat) returns (cover: seq<nat>)
    requires Develops(h0, m.h, count) && m.h.Valid(count) && m.k + 1 == count && Succeeds(m, count)
    ensures IsCover(h0, count, cover)
  {
    hide Develops, History.Valid, CoversAt, IsCover, Covers, Present, Last, First;
    var h := m.h;
    var f :| Covers(LiveRows(h), Present(h, m.k, count), f);
    var matched := seq(count, k requires 0 <= k < count =>
      if Last(h.eNext, k) in f then f[Last(h.eNext, k)] else 0);
    forall k: nat | k < count
      ensures matched[k] < |h.next| && CoversAt(h, k, matched[k]) && h.next[matched[k]].None?
    {
      YoungestIsCovered(h, count, m.k, f, k);
    }
    forall k: nat, l: nat | k < l < count
      ensures matched[k] != matched[l]
    {
      YoungestIsCovered(h, count, m.k, f, k);
      YoungestIsCovered(h, count, m.k, f, l);
      CoversApart(LiveRows(h), Present(h, m.k, count), f, Last(h.eNext, k), Last(h.eNext, l));
    }
    assert Matched(h, count, matched);
    cover := MatchedWasCovered(h0, h, count, matched);
  }

  lemma {:induction false} CoversApart(adj: Adjacency, equations: set<nat>, m: map<nat, nat>, e: nat, f: nat)
    requires Covers(adj, equations, m) && e in m && f in m && e != f
    ensures m[e] != m[f]
  {}

  /** A search for a stranded equation is the last one. */
  lemma {:induction false} StrandedIsLast(h0: History, count: nat, rounds: seq<Moment>, j: nat)
    requires Begins(h0, count) && IsRun(h0, count, rounds) && j < |rounds| && StrandedAt(rounds, count, j)
    ensures j == |rounds| - 1 && !Succeeds(rounds[j], count)
  {
    hide Begins, Sound, Stranded, Differentiates, Succeeds;
    RunIsSound(h0, count, rounds, j);
    StrandedFails(h0, rounds[j], count);
    assert j < |rounds| - 1 ==> Round(rounds[j], rounds[j + 1], count);
  }

  /** The error comes exactly from an equation of the model that is stranded when the first search for it starts. */
  lemma {:induction false} ErrorIffStranded(h0: History, count: nat, rounds: seq<Moment>, r: Outcome, last: History,
                                            fuel: nat)
    requires |rounds| > 0 && Begins(h0, count) && IsRun(h0, count, rounds) && Ends(r, rounds, last, count, fuel)
    ensures r == OverDefined <==> MeetsStranded(rounds, count, fuel)
    ensures MeetsStranded(rounds, count, fuel) ==> StrandedAt(rounds, count, |rounds| - 1)
  {
    hide *;
    EndsWith(rounds, r, last, count, fuel);
    if r == OverDefined {
      StrandedAtFirstSearch(h0, count, rounds, |rounds| - 1);
      MeetsAt(rounds, count, fuel, |rounds| - 1);
    }
    if MeetsStranded(rounds, count, fuel) {
      var j := MetAt(rounds, count, fuel);
      StrandedIsLast(h0, count, rounds, j);
      StrandedParts(rounds, count, j);
    }
  }

  lemma {:induction false} EndsWith(rounds: seq<Moment>, r: Outcome, last: History, count: nat, fuel: nat)
    requires |rounds| > 0 && Ends(r, rounds, last, count, fuel)
    ensures Latest(rounds) == rounds[|rounds| - 1]
    ensures r == OverDefined ==>
      Latest(rounds).k < count && |rounds| <= fuel && Stranded(Latest(rounds).h, Latest(rounds).i)
    ensures r == Reduced ==> Latest(rounds).k == count
    ensures r == OutOfFuel ==> |rounds| == fuel + 1
  {
    hide Succeeds, Stranded, Differentiates;
  }

  lemma {:induction false} MeetsAt(rounds: seq<Moment>, count: nat, fuel: nat, j: nat)
    requires j < fuel && j < |rounds| && StrandedAt(rounds, count, j)
    ensures MeetsStranded(rounds, count, fuel)
  {
    hide StrandedAt;
  }

  lemma {:induction false} MetAt(rounds: seq<Moment>, count: nat, fuel: nat) returns (j: nat)
    requires MeetsStranded(rounds, count, fuel)
    ensures j < fuel && j < |rounds| && StrandedAt(rounds, count, j)
  {
    hide StrandedAt;
    j :| j < fuel && j < |rounds| && StrandedAt(rounds, count, j);
  }

  lemma {:induction false} StrandedParts(rounds: seq<Moment>, count: nat, j: nat)
    requires j < |rounds| && StrandedAt(rounds, count, j)
    ensures rounds[j].k < count
  {}

  /** The degrees of freedom that are left in the end. */
  lemma {:induction false} EndCounts(h0: History, count: nat, rounds: seq<Moment>, r: Outcome, last: History, fuel: nat)
    requires Begins(h0, count) && IsRun(h0, count, rounds) && Ends(r, rounds, last, count, fuel)
    ensures |last.next| - |last.original| == |h0.next| - |h0.original| - Failures(r, rounds)
    ensures Failures(r, rounds) >= 0 && Latest(rounds).k <= count && Develops(h0, last, count)
  {
    hide Begins, Round, Stranded, Succeeds, IsSubset, Step, Sound;
    var m := Latest(rounds);
    RunCounts(h0, count, rounds, |rounds| - 1);
    RunIsSound(h0, count, rounds, |rounds| - 1);
    SoundBound(h0, m, count);
    if r == OverDefined {
      var vColored, eColored :| IsSubset(m, count, vColored, eColored) && Step(m.h, last, vColored, eColored);
      StepDevelops(h0, m.h, last, count, vColored, eColored);
      StepCounts(m.h, last, count, vColored, eColored);
    }
    hide Develops;
  }

  lemma {:induction false} StepCounts(h: History, h': History, count: nat, vColored: seq<bool>, eColored: seq<bool>)
    requires h.Valid(count) && Step(h, h', vColored, eColored)
    ensures |h'.next| - |h'.original| == |h.next| - |h.original| - 1
  {
    hide Extended, CreatedInOrder, NewEquation, AllReady, Chains, Count, History.Descends, NoneAbove;
  }

  /** Every cover bounds the number of failed searches, so a covered model is not cut short with fuel for the cover. */
  lemma {:induction false} CoverBoundsFailures(h0: History, count: nat, rounds: seq<Moment>, r: Outcome, last: History,
                                               fuel: nat, cover: seq<nat>)
    requires Begins(h0, count) && IsRun(h0, count, rounds) && Ends(r, rounds, last, count, fuel)
    requires h0.NoParameters() && IsCover(h0, count, cover)
    ensures Failures(r, rounds) <= Slack(h0.next, cover)
    ensures fuel >= Slack(h0.next, cover) + count ==> r != OutOfFuel
  {
    hide Begins, Round, Stranded, Succeeds, IsSubset, Step, Sound, IsCover, Slack;
    var m := Latest(rounds);
    var rest := RunKeepsCover(h0, count, rounds, cover, |rounds| - 1);
    RunCounts(h0, count, rounds, |rounds| - 1);
    RunIsSound(h0, count, rounds, |rounds| - 1);
    SoundBound(h0, m, count);
    if r == OverDefined {
      var vColored, eColored :| IsSubset(m, count, vColored, eColored) && Step(m.h, last, vColored, eColored);
      StepTakesSlack(m.h, last, vColored, eColored, count, rest);
    }
  }

  /**
    How a run ends: normally only if the model is covered, and then, if there is fuel for the cover, exactly
    if no equation of the model is stranded when it is met.  Without a cover, a stranded equation decides
    whether the run ends with the error or goes on for ever.
   */
  lemma {:induction false} OutcomeIsDecided(h0: History, count: nat, rounds: seq<Moment>, r: Outcome, last: History,
                                            fuel: nat)
    requires Begins(h0, count) && IsRun(h0, count, rounds) && Ends(r, rounds, last, count, fuel)
    ensures r == OverDefined <==> MeetsStranded(rounds, count, fuel)
    ensures !HasCover(h0, count) ==> r == if MeetsStranded(rounds, count, fuel) then OverDefined else OutOfFuel
    ensures forall cover :: h0.NoParameters() && IsCover(h0, count, cover) && fuel >= Slack(h0.next, cover) + count ==>
      r == if MeetsStranded(rounds, count, fuel) then OverDefined else Reduced
  {
    hide Begins, Round, Stranded, Succeeds, Differentiates, IsCover, Slack, MeetsStranded;
    ErrorIffStranded(h0, count, rounds, r, last, fuel);
    if r == Reduced {
      var cover := ReducedIsCovered(h0, count, rounds);
    }
    forall cover | h0.NoParameters() && IsCover(h0, count, cover) && fuel >= Slack(h0.next, cover) + count
      ensures r != OutOfFuel
    {
      CoverBoundsFailures(h0, count, rounds, r, last, fuel, cover);
    }
  }

  // ---------------------------------------------------------------------------------------------
  // The structure determines the run

  /** The same graph; equations may list their variables differently. */
  ghost predicate Alike(h: History, g: History) {
    && h.next == g.next && h.previous == g.previous && h.parameter == g.parameter
    && h.eNext == g.eNext && h.ePrevious == g.ePrevious && SameRows(h.original, g.original)
  }

  /** The nodes that were coloured, in their order, are the ones that the new nodes are derivatives of. */
  ghost predicate Created(colored: seq<bool>, next: Links, previous: Links, next': Links, previous': Links) {
    && Extended(colored, next, next') && Chains(next', previous') && previous <= previous'
    && Chains(next, previous) && CreatedInOrder(previous', |previous|, |previous|)
  }

  /** Where a coloured node has its derivative. */
  lemma {:induction false} CreatedAt(colored: seq<bool>, next: Links, previous: Links, next': Links, previous': Links,
                                     x: nat)
    returns (z: nat)
    requires Created(colored, next, previous, next', previous') && x < |colored| && colored[x]
    ensures |previous| <= z < |previous'| && previous'[z] == Some(x) && next'[x] == Some(z)
  {
    z := next'[x].value;
  }

  /** Which node a new one is the derivative of. */
  lemma {:induction false} CreatedFrom(colored: seq<bool>, next: Links, previous: Links, next': Links, previous': Links,
                                       y: nat)
    requires Created(colored, next, previous, next', previous') && |previous| <= y < |previous'|
    ensures previous'[y].Some? && previous'[y].value < |colored| && colored[previous'[y].value]
  {}

  lemma {:induction false} CreatedRises(colored: seq<bool>, next: Links, previous: Links, next': Links,
                                        previous': Links, y: nat, z: nat)
    requires Created(colored, next, previous, next', previous') && |previous| <= y < z < |previous'|
    ensures previous'[y].Some? && previous'[z].Some? && previous'[y].value < previous'[z].value
  {
    hide Chains, Extended;
  }

  lemma {:induction false} CreatedSizes(colored: seq<bool>, next: Links, previous: Links, next': Links,
                                        previous': Links)
    requires Created(colored, next, previous, next', previous')
    ensures |previous'| == |next'| && previous <= previous'
  {
    hide Extended, CreatedInOrder;
  }

  lemma {:induction false} CreatedNotBelow(colored: seq<bool>, next: Links, previous: Links, next1: Links,
                                           previous1: Links, next2: Links, previous2: Links, y: nat)
    requires Created(colored, next, previous, next1, previous1) && Created(colored, next, previous, next2, previous2)
    requires |next1| == |next2| && |previous| <= y < |previous1| && y < |previous2|
    requires previous1[..y] == previous2[..y]
    ensures previous1[y].Some? && previous2[y].Some? && previous1[y].value >= previous2[y].value
  {
    hide *;
    CreatedSizes(colored, next, previous, next1, previous1);
    CreatedSizes(colored, next, previous, next2, previous2);
    CreatedFrom(colored, next, previous, next1, previous1, y);
    CreatedFrom(colored, next, previous, next2, previous2, y);
    var a := previous1[y].value;
    if a < previous2[y].value {
      var z := CreatedAt(colored, next, previous, next2, previous2, a);
      if z < y {
        assert previous1[..y][z] == previous2[..y][z];
        CreatedRises(colored, next, previous, next1, previous1, z, y);
      } else if z > y {
        CreatedRises(colored, next, previous, next2, previous2, y, z);
      }
      assert false;
    }
  }

  lemma {:induction false} CreatedTail(colored: seq<bool>, next: Links, previous: Links, next1: Links,
                                       previous1: Links, next2: Links, previous2: Links, y: nat)
    requires Created(colored, next, previous, next1, previous1) && Created(colored, next, previous, next2, previous2)
    requires |next1| == |next2| && |previous| <= y <= |previous1|
    ensures |previous1| == |previous2| && previous1[..y] == previous2[..y]
  {
    hide *;
    CreatedSizes(colored, next, previous, next1, previous1);
    CreatedSizes(colored, next, previous, next2, previous2);
    if y > |previous| {
      CreatedTail(colored, next, previous, next1, previous1, next2, previous2, y - 1);
      CreatedNotBelow(colored, next, previous, next1, previous1, next2, previous2, y - 1);
      CreatedNotBelow(colored, next, previous, next2, previous2, next1, previous1, y - 1);
      assert previous1[..y] == previous1[..y - 1] + [previous1[y - 1]];
      assert previous2[..y] == previous2[..y - 1] + [previous2[y - 1]];
    } else {
      assert previous1[..y] == previous && previous2[..y] == previous;
    }
  }

  lemma {:induction false} CreatedOnce(colored: seq<bool>, next: Links, previous: Links, next1: Links,
                                       previous1: Links, next2: Links, previous2: Links)
    requires Created(colored, next, previous, next1, previous1) && Created(colored, next, previous, next2, previous2)
    requires |next1| == |next2|
    ensures next1 == next2 && previous1 == previous2
  {
    assert |previous| <= |previous1|;
    CreatedTail(colored, next, previous, next1, previous1, next2, previous2, |previous1|);
    assert previous1[..|previous1|] == previous1 && previous2[..|previous1|] == previous2;
    hide CreatedInOrder;
  }

  lemma {:induction false} AlikeLive(h: History, g: History, k: nat, count: nat, i: nat)
    requires Alike(h, g)
    ensures SameRows(LiveRows(h), LiveRows(g)) && Present(h, k, count) == Present(g, k, count)
    ensures Succeeds(Moment(k, i, h), count) <==> Succeeds(Moment(k, i, g), count)
  {
    assert forall v: nat :: Live(h, v) <==> Live(g, v);
    SameRowsCover(LiveRows(h), LiveRows(g), Present(h, k, count));
    hide Live, Coverable;
  }

  lemma {:induction false} AlikeStranded(h: History, g: History, i: nat)
    requires Alike(h, g) && Stranded(h, i)
    ensures Stranded(g, i)
  {
    assert forall v: nat :: Live(h, v) <==> Live(g, v);
    hide Live;
    assert forall v: nat {:trigger v in g.original[i]} :: v in g.original[i] ==> v in h.original[i];
    forall d: nat, e: nat {:trigger d in g.original[e]} | e < |g.original| && d in g.original[e] && Live(g, d)
      ensures !DerivativeIn(g, i, d)
    {
      assert d in h.original[e] && !DerivativeIn(h, i, d);
    }
  }

  lemma {:induction false} SameChosen(a: seq<bool>, b: seq<bool>)
    requires |a| == |b| && Chosen(a) == Chosen(b)
    ensures a == b
  {
    forall x: nat | x < |a|
      ensures a[x] == b[x]
    {
      assert x in Chosen(a) <==> x in Chosen(b);
    }
  }

  lemma {:induction false} SubsetIsUnique(m: Moment, n: Moment, count: nat, vColored: seq<bool>, eColored: seq<bool>,
                                          vColored': seq<bool>, eColored': seq<bool>)
    requires Alike(m.h, n.h) && m.k == n.k && m.i == n.i
    requires IsSubset(m, count, vColored, eColored) && IsSubset(n, count, vColored', eColored')
    requires |vColored| == |vColored'| && |eColored| == |eColored'|
    ensures vColored == vColored' && eColored == eColored'
  {
    AlikeLive(m.h, n.h, m.k, count, m.i);
    hide Alike, SameRows, Succeeds, Present, Neighbors, Chosen;
    SameRowsLeast(LiveRows(m.h), LiveRows(n.h), Present(m.h, m.k, count), Chosen(eColored));
    SameRowsNeighbors(LiveRows(m.h), LiveRows(n.h), Chosen(eColored));
    assert Chosen(eColored) <= Chosen(eColored') && Chosen(eColored') <= Chosen(eColored);
    SameChosen(eColored, eColored');
    SameChosen(vColored, vColored');
  }

  lemma {:induction false} NewRowsAlike(h: History, g: History, m: nat, e: nat)
    requires h.next == g.next && h.previous == g.previous && |h.next| == |h.previous| && h.ePrevious == g.ePrevious
    requires NewEquation(h, e, m) && NewEquation(g, e, m)
    requires forall v: nat ::
      v in h.original[h.ePrevious[e].value] <==> v in g.original[h.ePrevious[e].value]
    ensures forall v: nat :: v in h.original[e] <==> v in g.original[e]
  {}

  lemma {:induction false} StepCreates(h: History, h': History, vColored: seq<bool>, eColored: seq<bool>)
    requires Step(h, h', vColored, eColored) && Chains(h.next, h.previous) && Chains(h.eNext, h.ePrevious)
    ensures Created(vColored, h.next, h.previous, h'.next, h'.previous)
    ensures Created(eColored, h.eNext, h.ePrevious, h'.eNext, h'.ePrevious)
    ensures |h'.next| == |h'.previous| == |h'.parameter| == |h.next| + Count(vColored)
    ensures |h'.original| == |h'.eNext| == |h.eNext| + Count(eColored)
    ensures h.parameter <= h'.parameter && h.original <= h'.original
    ensures forall v :: |h.parameter| <= v < |h'.parameter| ==> !h'.parameter[v]
    ensures forall e: nat :: |h.original| <= e < |h'.original| ==> NewEquation(h', e, |h.original|)
  {
    hide Extended, CreatedInOrder, NewEquation, AllReady, Count;
    assert |h'.next| == |h'.previous| && |h'.eNext| == |h'.ePrevious|;
    hide Chains;
  }

  lemma {:induction false} RowsAlike(h: History, h': History, g: History, g': History)
    requires SameRows(h.original, g.original) && h.original <= h'.original && g.original <= g'.original
    requires |h'.original| == |g'.original| && h'.next == g'.next && h'.previous == g'.previous
    requires h'.ePrevious == g'.ePrevious && |h'.next| == |h'.previous|
    requires forall e: nat :: |h.original| <= e < |h'.original| ==> NewEquation(h', e, |h.original|)
    requires forall e: nat :: |h.original| <= e < |g'.original| ==> NewEquation(g', e, |h.original|)
    ensures SameRows(h'.original, g'.original)
  {
    hide NewEquation;
    forall e: nat | e < |h'.original|
      ensures forall v: nat :: v in h'.original[e] <==> v in g'.original[e]
    {
      if e >= |h.original| {
        assert NewEquation(h', e, |h.original|) && NewEquation(g', e, |h.original|);
        NewIsOfOld(h', e, |h.original|);
        NewRowsAlike(h', g', |h.original|, e);
      }
    }
  }

  /** The derivatives of the same equations. */
  lemma {:induction false} StepIsUnique(h: History, h': History, g: History, g': History, vColored: seq<bool>,
                                        eColored: seq<bool>, count: nat)
    requires h.Valid(count) && Alike(h, g)
    requires Step(h, h', vColored, eColored) && Step(g, g', vColored, eColored)
    ensures Alike(h', g')
  {
    StepCreates(h, h', vColored, eColored);
    StepCreates(g, g', vColored, eColored);
    assert |h.original| == |h.eNext| == |g.original|;
    hide Step, Created, Chains, Count, NewEquation, History.Descends, NoneAbove, History.Valid, SameRows;
    CreatedOnce(vColored, h.next, h.previous, h'.next, h'.previous, g'.next, g'.previous);
    CreatedOnce(eColored, h.eNext, h.ePrevious, h'.eNext, h'.ePrevious, g'.eNext, g'.ePrevious);
    RowsAlike(h, h', g, g');
  }

  lemma {:induction false} NewIsOfOld(h: History, e: nat, m: nat)
    requires NewEquation(h, e, m)
    ensures e < |h.ePrevious| && h.ePrevious[e].Some? && h.ePrevious[e].value < m <= |h.original| && e < |h.original|
  {}

  lemma {:induction false} RoundIsUnique(h0: History, m: Moment, n: Moment, m': Moment, n': Moment, count: nat)
    requires Sound(h0, m, count) && m.k == n.k && m.i == n.i && Alike(m.h, n.h)
    requires Round(m, m', count) && Round(n, n', count)
    ensures m'.k == n'.k && m'.i == n'.i && Alike(m'.h, n'.h)
  {
    AlikeLive(m.h, n.h, m.k, count, m.i);
    hide Succeeds, Stranded, IsSubset, Step, Sound, SameRows;
    SoundBound(h0, m, count);
    if !Succeeds(m, count) {
      var vColored, eColored :| IsSubset(m, count, vColored, eColored) && Step(m.h, m'.h, vColored, eColored);
      var vColored', eColored' :| IsSubset(n, count, vColored', eColored') && Step(n.h, n'.h, vColored', eColored');
      StepSizes(m.h, m'.h, vColored, eColored);
      StepSizes(n.h, n'.h, vColored', eColored');
      SubsetIsUnique(m, n, count, vColored, eColored, vColored', eColored');
      StepIsUnique(m.h, m'.h, n.h, n'.h, vColored, eColored, count);
    }
  }

  lemma {:induction false} StepSizes(h: History, h': History, vColored: seq<bool>, eColored: seq<bool>)
    requires Step(h, h', vColored, eColored)
    ensures |vColored| == |h.next| && |eColored| == |h.eNext|
  {
    hide CreatedInOrder, NewEquation, AllReady, Count, Chains;
  }

  /** Two runs for the same structure agree, round by round. */
  lemma {:induction false} RunsAgree(h0: History, g0: History, count: nat, rounds: seq<Moment>, rounds': seq<Moment>,
                                     j: nat)
    requires Begins(h0, count) && Alike(h0, g0) && IsRun(h0, count, rounds) && IsRun(g0, count, rounds')
    requires j < |rounds| && j < |rounds'|
    ensures rounds[j].k == rounds'[j].k && rounds[j].i == rounds'[j].i && Alike(rounds[j].h, rounds'[j].h)
  {
    hide Begins, Round, Alike;
    if j > 0 {
      RunsAgree(h0, g0, count, rounds, rounds', j - 1);
      RunIsSound(h0, count, rounds, j - 1);
      RoundIsUnique(h0, rounds[j - 1], rounds'[j - 1], rounds[j], rounds'[j], count);
    }
  }

  lemma {:induction false} EndsNotBefore(h0: History, g0: History, count: nat, rounds: seq<Moment>,
                                         rounds': seq<Moment>, r: Outcome, r': Outcome, last: History, last': History,
                                         fuel: nat)
    requires Begins(h0, count) && Alike(h0, g0) && IsRun(h0, count, rounds) && IsRun(g0, count, rounds')
    requires Ends(r, rounds, last, count, fuel) && Ends(r', rounds', last', count, fuel)
    ensures |rounds| >= |rounds'|
  {
    hide Begins, Succeeds, Stranded, Differentiates, Alike;
    var j := |rounds| - 1;
    if |rounds| < |rounds'| {
      RunsAgree(h0, g0, count, rounds, rounds', j);
      AlikeLive(rounds[j].h, rounds'[j].h, rounds[j].k, count, rounds[j].i);
      assert Round(rounds'[j], rounds'[j + 1], count);
      if r == OverDefined {
        AlikeStranded(rounds[j].h, rounds'[j].h, rounds[j].i);
      }
      assert false;
    }
  }

  lemma {:induction false} AlikeBegins(h: History, g: History, count: nat)
    requires Begins(h, count) && Alike(h, g)
    ensures Begins(g, count)
  {
    forall e: nat | e < |g.original|
      ensures NoneAbove(g.original[e], |g.next|) && g.Descends(e)
    {
      assert NoneAbove(h.original[e], |h.next|) && h.Descends(e);
    }
  }

  /** The structure and the fuel determine how the algorithm ends. */
  lemma {:induction false} OutcomeIsUnique(h0: History, g0: History, count: nat, rounds: seq<Moment>,
                                           rounds': seq<Moment>, r: Outcome, r': Outcome, last: History,
                                           last': History, fuel: nat)
    requires Begins(h0, count) && Alike(h0, g0) && IsRun(h0, count, rounds) && IsRun(g0, count, rounds')
    requires Ends(r, rounds, last, count, fuel) && Ends(r', rounds', last', count, fuel)
    ensures r == r' && |rounds| == |rounds'|
  {
    AlikeBegins(h0, g0, count);
    EndsNotBefore(h0, g0, count, rounds, rounds', r, r', last, last', fuel);
    EndsNotBefore(g0, h0, count, rounds', rounds, r', r, last', last, fuel);
    var j := |rounds| - 1;
    hide Begins, Round, Succeeds, Stranded, Differentiates, Alike;
    RunsAgree(h0, g0, count, rounds, rounds', j);
  }
}
