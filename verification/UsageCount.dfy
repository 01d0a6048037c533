/** Counting how often every node is used. */
module UsageCount {
  import opened OperationGraph
  import opened LiveNodes

  /** The counts after the first `deps` dependents, and the uses behind them. */
  datatype Tally = Tally(g: Graph, dependents: seq<nat>, count: seq<nat>, uses: seq<set<Use>>, deps: nat)
  {
    ghost predicate Sized() {
      IsGraph(g) && |count| == |uses| == |g| && deps <= |dependents|
    }

    /** A use of n by one of the first `deps` dependents or by a counted operation. */
    ghost predicate IsUse(n: nat, use: Use)
      requires Sized()
    {
      Names(g, dependents, use, n) && (use.Dependent? ==> use.i < deps) && (use.Argument? ==> count[use.u] > 0)
    }

    /** The node that is named by the use itself, not by an alias that the use names. */
    ghost predicate Starts(use: Use, n: nat)
      requires Sized()
    {
      match use
      case Dependent(i) => i < |dependents| && dependents[i] == n
      case Argument(u, k) => u < |g| && g[u].Operator? && k < |g[u].args| && g[u].args[k] == Operation(n)
    }

    /** The use got to n directly, or by way of an alias of n. */
    ghost predicate Entered(use: Use, n: nat)
      requires Sized()
    {
      Starts(use, n) || exists p: nat {:trigger IsAlias(g, p)} ::
        p < |g| && IsAlias(g, p) && Target(g, p) == n && use in uses[p]
    }

    ghost predicate UsesKnown()
      requires Sized()
    {
      forall n, use {:trigger use in uses[n]} :: 0 <= n < |g| && use in uses[n] ==> IsUse(n, use) && Entered(use, n)
    }

    /** Every count is the number of the uses counted. */
    ghost predicate Exact() {
      Sized() && UsesKnown() && SizesCounted() && DependentsCounted()
    }

    ghost predicate SizesCounted()
      requires Sized()
    {
      forall n :: 0 <= n < |g| ==> |uses[n]| == count[n]
    }

    ghost predicate DependentsCounted()
      requires Sized()
    {
      forall i :: 0 <= i < deps ==> dependents[i] < |g| && Dependent(i) in uses[dependents[i]]
    }

    /** Argument f of a counted node sends a use on to its node: an alias those of itself, any other node a new one. */
    ghost predicate Sent(f: Frame, use: Use)
      requires Sized() && IsFrame(g, f)
    {
      if IsAlias(g, f.parent) then use in uses[f.parent] else count[f.parent] > 0 && use == Argument(f.parent, f.arg)
    }

    /** A stack element that carries `use`; if it was not looked at, the use was not counted. */
    ghost predicate Waiting(f: Frame, use: Use)
      requires Sized()
    {
      && IsFrame(g, f) && FrameNode(g, f) < |g| && Live(g, dependents, f.parent)
      && (f.step == Analyze ==> Sent(f, use) && use !in uses[FrameNode(g, f)])
    }

    /** Every element of the stack carries a use, no two of them the same from the same argument. */
    ghost predicate Stacked(stack: Stack, carried: seq<Use>)
      requires Sized()
    {
      && |carried| == |stack|
      && (forall p :: 0 <= p < |stack| ==> Waiting(stack[p], carried[p]))
      && (forall p, q :: 0 <= p < q < |stack| && stack[p].step == stack[q].step == Analyze ==>
            stack[p] != stack[q] || carried[p] != carried[q])
    }

    /** What was sent is counted or on its way. */
    ghost predicate Arrives(f: Frame, use: Use, stack: Stack, carried: seq<Use>)
      requires Sized() && IsFrame(g, f)
    {
      FrameNode(g, f) < |g| && (use in uses[FrameNode(g, f)] || OnItsWay(f, use, stack, carried))
    }

    ghost predicate Counted(stack: Stack, carried: seq<Use>) {
      && Exact() && Stacked(stack, carried)
      && forall f, use {:trigger Sent(f, use)} :: IsFrame(g, f) && f.step == Analyze && Sent(f, use) ==>
           Arrives(f, use, stack, carried)
    }

    /** One more use of n. */
    ghost function Add(n: nat, use: Use): Tally
      requires Sized() && n < |g|
    {
      Tally(g, dependents, count[n := count[n] + 1], uses[n := uses[n] + {use}],
            if use == Dependent(deps) then deps + 1 else deps)
    }
  }

  ghost predicate OnItsWay(f: Frame, use: Use, stack: Stack, carried: seq<Use>) {
    exists p :: 0 <= p < |stack| && p < |carried| && stack[p] == f && carried[p] == use
  }

  /** What the stack holds after n was counted: aliases are always followed, other nodes the first time. */
  function AfterCount(g: Graph, stack: Stack, n: nat, first: bool): Stack
    requires n < |g|
  {
    if IsAlias(g, n) || first then stack + Pushed(g, n) else stack
  }

  /** The uses that the elements pushed for n carry. */
  ghost function CarriedFrom(g: Graph, n: nat, use: Use): (r: seq<Use>)
    requires n < |g|
    ensures |r| == |Pushed(g, n)|
  {
    seq(|Pushed(g, n)|, p requires 0 <= p < |Pushed(g, n)| =>
      if IsAlias(g, n) then use else Argument(Pushed(g, n)[p].parent, Pushed(g, n)[p].arg))
  }

  ghost function AfterCarried(g: Graph, carried: seq<Use>, n: nat, first: bool, use: Use): seq<Use>
    requires n < |g|
  {
    if IsAlias(g, n) || first then carried + CarriedFrom(g, n, use) else carried
  }

  lemma {:induction false} ArgFramesDistinct(g: Graph, u: nat, k: nat)
    requires u < |g| && g[u].Operator? && k <= |g[u].args|
    ensures forall p, q :: 0 <= p < q < |ArgFrames(g, u, k)| ==> ArgFrames(g, u, k)[p] != ArgFrames(g, u, k)[q]
  {
    if k > 0 {
      ArgFramesDistinct(g, u, k - 1);
    }
  }

  lemma {:induction false} CountedUse(t: Tally, n: nat, use: Use)
    requires t.Exact() && n < |t.g| && use in t.uses[n]
    ensures t.Sized() && t.IsUse(n, use) && t.Entered(use, n)
  {}

  lemma {:induction false} StackElement(t: Tally, stack: Stack, carried: seq<Use>, p: nat)
    requires t.Sized() && t.Stacked(stack, carried) && p < |stack|
    ensures |carried| == |stack| && t.Waiting(stack[p], carried[p])
    ensures IsFrame(t.g, stack[p]) && FrameNode(t.g, stack[p]) < |t.g| && Live(t.g, t.dependents, stack[p].parent)
    ensures stack[p].step == Analyze ==> t.Sent(stack[p], carried[p]) && carried[p] !in t.uses[FrameNode(t.g, stack[p])]
  {}

  lemma {:induction false} SentArrives(t: Tally, stack: Stack, carried: seq<Use>, f: Frame, use: Use)
    requires t.Counted(stack, carried) && IsFrame(t.g, f) && f.step == Analyze && t.Sent(f, use)
    ensures t.Sized() && FrameNode(t.g, f) < |t.g| && |carried| == |stack| && t.Arrives(f, use, stack, carried)
    ensures use in t.uses[FrameNode(t.g, f)] || OnItsWay(f, use, stack, carried)
  {}

  lemma {:induction false} Sizes(t: Tally)
    requires t.Exact()
    ensures t.Sized() && IsGraph(t.g) && |t.count| == |t.uses| == |t.g|
  {}

  /** A use that was not counted at an alias was not counted at its target. */
  lemma {:induction false} NotAhead(t: Tally, n: nat, use: Use)
    requires t.Exact() && n < |t.g| && IsAlias(t.g, n) && Names(t.g, t.dependents, use, n) && use !in t.uses[n]
    ensures use !in t.uses[Target(t.g, n)]
  {
    var target := Target(t.g, n);
    Sizes(t);
    if use in t.uses[target] {
      var a := if use.Dependent? then t.dependents[use.i] else t.g[use.u].args[use.k].node;
      CountedUse(t, target, use);
      LeadsDown(t.g, a, n);
      if !t.Starts(use, target) {
        var p: nat :| p < |t.g| && IsAlias(t.g, p) && Target(t.g, p) == target && use in t.uses[p];
        CountedUse(t, p, use);
        hide Tally.Exact;
        LeadsOnce(t.g, a, n, p);
      }
      assert false;
    }
  }

  /** What arguments send on are uses of their nodes. */
  lemma {:induction false} SentIsUse(t: Tally, f: Frame, use: Use)
    requires t.Exact() && t.Sized() && IsFrame(t.g, f) && t.Sent(f, use) && FrameNode(t.g, f) < |t.g|
    ensures t.IsUse(FrameNode(t.g, f), use) && t.Entered(use, FrameNode(t.g, f)) && Carries(t.g, t.dependents, f, use)
  {
    hide Tally.Exact;
    if IsAlias(t.g, f.parent) {
      CountedUse(t, f.parent, use);
      NamesDown(t.g, t.dependents, f.parent, use);
      assert Target(t.g, f.parent) == FrameNode(t.g, f);
    }
  }

  /** Node n is about to be counted for `use`: the use was not counted, and nothing else carries it to n. */
  ghost predicate Uncounted(t: Tally, n: nat, use: Use, rest: Stack, carried: seq<Use>)
    requires t.Sized()
  {
    && n < |t.g| && Live(t.g, t.dependents, n) && use !in t.uses[n] && t.Stacked(rest, carried)
    && t.Add(n, use).Sized() && t.Add(n, use).IsUse(n, use) && t.Entered(use, n)
    && (use == Dependent(t.deps) ==> t.Starts(use, n))
    && NotCarried(t, n, use, rest, carried) && OthersArrive(t, n, use, rest, carried)
  }

  /** No element of the stack carries the use to n. */
  ghost predicate NotCarried(t: Tally, n: nat, use: Use, rest: Stack, carried: seq<Use>) {
    forall p :: 0 <= p < |rest| && p < |carried| && rest[p].step == Analyze && carried[p] == use ==>
      IsFrame(t.g, rest[p]) && FrameNode(t.g, rest[p]) != n
  }

  /** Whatever was sent, but the use of n, is counted or on its way. */
  ghost predicate OthersArrive(t: Tally, n: nat, use: Use, rest: Stack, carried: seq<Use>)
    requires t.Sized()
  {
    forall f, x {:trigger t.Sent(f, x)} :: IsFrame(t.g, f) && f.step == Analyze && t.Sent(f, x) ==>
      t.Arrives(f, x, rest, carried) || (FrameNode(t.g, f) == n && x == use)
  }

  lemma {:induction false} ExactNext(t: Tally, n: nat, use: Use, rest: Stack, carried: seq<Use>)
    requires t.Exact() && t.Sized() && Uncounted(t, n, use, rest, carried)
    ensures t.Add(n, use).Exact()
  {
    UsesKnownNext(t, n, use, rest, carried);
    hide Tally.UsesKnown, Tally.IsUse, Tally.Entered, Tally.Stacked, Tally.Arrives, Tally.Sent;
    SizesNext(t, n, use);
    DependentsNext(t, n, use);
    hide Tally.SizesCounted, Tally.DependentsCounted, Tally.Starts;
  }

  lemma {:induction false} SizesNext(t: Tally, n: nat, use: Use)
    requires t.Sized() && t.SizesCounted() && n < |t.g| && use !in t.uses[n] && t.Add(n, use).Sized()
    ensures t.Add(n, use).SizesCounted()
  {
    assert |t.uses[n] + {use}| == |t.uses[n]| + 1;
  }

  lemma {:induction false} DependentsNext(t: Tally, n: nat, use: Use)
    requires t.Sized() && t.DependentsCounted() && n < |t.g| && t.Add(n, use).Sized()
    requires use == Dependent(t.deps) ==> t.Starts(use, n)
    ensures t.Add(n, use).DependentsCounted()
  {}

  lemma {:induction false} UsesKnownNext(t: Tally, n: nat, use: Use, rest: Stack, carried: seq<Use>)
    requires t.Exact() && t.Sized() && Uncounted(t, n, use, rest, carried)
    ensures t.Add(n, use).Sized() && t.Add(n, use).UsesKnown()
  {
    var t' := t.Add(n, use);
    forall m, x {:trigger x in t'.uses[m]} | 0 <= m < |t.g| && x in t'.uses[m]
      ensures t'.IsUse(m, x) && t'.Entered(x, m)
    {
      UseNext(t, n, use, rest, carried, m, x);
    }
    hide Tally.Exact, Tally.IsUse, Tally.Entered, Tally.Stacked, Tally.Arrives, Tally.Starts;
  }

  lemma {:induction false} UseNext(t: Tally, n: nat, use: Use, rest: Stack, carried: seq<Use>, m: nat, x: Use)
    requires t.Exact() && t.Sized() && Uncounted(t, n, use, rest, carried) && m < |t.g| && x in t.Add(n, use).uses[m]
    ensures t.Add(n, use).Sized() && t.Add(n, use).IsUse(m, x) && t.Add(n, use).Entered(x, m)
  {
    hide Tally.Exact, Tally.IsUse, Tally.Entered, Tally.Stacked, Tally.Arrives, Tally.Starts;
    if x in t.uses[m] {
      CountedUse(t, m, x);
    } else {
      assert m == n && x == use;
    }
    EnteredNext(t, n, use, x, m);
  }

  lemma {:induction false} EnteredNext(t: Tally, n: nat, use: Use, x: Use, m: nat)
    requires t.Sized() && n < |t.g| && t.Add(n, use).Sized() && m < |t.g| && t.Entered(x, m)
    ensures t.Add(n, use).Entered(x, m)
    ensures t.IsUse(m, x) ==> t.Add(n, use).IsUse(m, x)
  {
    if !t.Starts(x, m) {
      var p: nat :| p < |t.g| && IsAlias(t.g, p) && Target(t.g, p) == m && x in t.uses[p];
      assert x in t.Add(n, use).uses[p];
    }
  }

  /** What waits on the stack goes on waiting. */
  lemma {:induction false} WaitingNext(t: Tally, n: nat, use: Use, f: Frame, x: Use)
    requires t.Exact() && n < |t.g| && t.Add(n, use).Sized() && t.Waiting(f, x)
    requires f.step == Analyze && x == use ==> FrameNode(t.g, f) != n
    ensures t.Add(n, use).Waiting(f, x)
  {}

  lemma {:induction false} PushedSent(t: Tally, n: nat, use: Use, p: nat)
    requires t.Sized() && n < |t.g| && t.Add(n, use).Sized() && p < |Pushed(t.g, n)|
    ensures var f := Pushed(t.g, n)[p];
      IsFrame(t.g, f) && FrameNode(t.g, f) < n && t.Add(n, use).Sent(f, CarriedFrom(t.g, n, use)[p])
  {
    PushedInRange(t.g, n);
    ArgIsOlder(t.g, n, FrameNode(t.g, Pushed(t.g, n)[p]));
  }

  lemma {:induction false} PushedNew(t: Tally, n: nat, use: Use, p: nat)
    requires t.Exact() && t.Sized() && n < |t.g|
    requires Names(t.g, t.dependents, use, n) && use !in t.uses[n] && p < |Pushed(t.g, n)|
    requires IsAlias(t.g, n) || t.count[n] == 0
    ensures var f := Pushed(t.g, n)[p];
      IsFrame(t.g, f) && f.parent == n && FrameNode(t.g, f) < |t.g|
        && CarriedFrom(t.g, n, use)[p] !in t.uses[FrameNode(t.g, f)]
  {
    hide Tally.Exact, Names;
    PushedInRange(t.g, n);
    if IsAlias(t.g, n) {
      NotAhead(t, n, use);
    } else {
      NotSentYet(t, n, Pushed(t.g, n)[p]);
    }
  }

  /** The elements pushed for n wait. */
  lemma {:induction false} PushedWait(t: Tally, n: nat, use: Use, p: nat)
    requires t.Exact() && t.Sized() && n < |t.g| && Live(t.g, t.dependents, n) && t.Add(n, use).Sized()
    requires Names(t.g, t.dependents, use, n) && use !in t.uses[n] && p < |Pushed(t.g, n)|
    requires IsAlias(t.g, n) || t.count[n] == 0
    ensures t.Add(n, use).Waiting(Pushed(t.g, n)[p], CarriedFrom(t.g, n, use)[p])
  {
    hide Tally.Exact, Tally.Sent, Live, Names, Pushed, CarriedFrom, IsAlias, IsFrame, FrameNode;
    PushedSent(t, n, use, p);
    PushedNew(t, n, use, p);
  }

  lemma {:induction false} NotSentYet(t: Tally, n: nat, f: Frame)
    requires t.Exact() && t.Sized() && IsFrame(t.g, f) && FrameNode(t.g, f) < |t.g| && t.count[f.parent] == 0
    requires n == f.parent
    ensures Argument(n, f.arg) !in t.uses[FrameNode(t.g, f)]
  {
    if Argument(n, f.arg) in t.uses[FrameNode(t.g, f)] {
      CountedUse(t, FrameNode(t.g, f), Argument(n, f.arg));
    }
  }

  lemma {:induction false} StackedNext(t: Tally, n: nat, use: Use, rest: Stack, carried: seq<Use>)
    requires t.Exact() && t.Sized() && Uncounted(t, n, use, rest, carried)
    ensures t.Add(n, use).Sized()
    ensures t.Add(n, use).Stacked(AfterCount(t.g, rest, n, t.count[n] == 0),
                                  AfterCarried(t.g, carried, n, t.count[n] == 0, use))
  {
    StackedKept(t, n, use, rest, carried);
    hide Tally.Exact, Tally.Stacked, Tally.Waiting, Tally.IsUse, Live, Names, Pushed, CarriedFrom, Uncounted;
    if IsAlias(t.g, n) || t.count[n] == 0 {
      forall p | 0 <= p < |Pushed(t.g, n)|
        ensures t.Add(n, use).Waiting(Pushed(t.g, n)[p], CarriedFrom(t.g, n, use)[p])
      {
        PushedWait(t, n, use, p);
      }
      PushedDiffer(t, n, use, rest, carried);
      StackedConcat(t.Add(n, use), rest, carried, Pushed(t.g, n), CarriedFrom(t.g, n, use));
    }
  }

  lemma {:induction false} StackedKept(t: Tally, n: nat, use: Use, rest: Stack, carried: seq<Use>)
    requires t.Exact() && t.Sized() && Uncounted(t, n, use, rest, carried)
    ensures t.Add(n, use).Sized() && t.Add(n, use).Stacked(rest, carried)
  {
    hide Tally.Exact, Tally.IsUse, Tally.Waiting, Tally.Sent, Tally.Starts, Tally.Entered, Tally.Arrives, Live, Names;
    forall p | 0 <= p < |rest|
      ensures t.Add(n, use).Waiting(rest[p], carried[p])
    {
      WaitingNext(t, n, use, rest[p], carried[p]);
    }
  }

  lemma {:induction false} StackedConcat(t: Tally, stack: Stack, carried: seq<Use>, pushed: Stack, more: seq<Use>)
    requires t.Sized() && t.Stacked(stack, carried) && |pushed| == |more|
    requires forall p :: 0 <= p < |pushed| ==> t.Waiting(pushed[p], more[p])
    requires forall p, q :: 0 <= p < q < |pushed| ==> pushed[p] != pushed[q]
    requires forall p, q :: 0 <= p < |stack| && 0 <= q < |pushed| && stack[p].step == Analyze ==>
      stack[p] != pushed[q] || carried[p] != more[q]
    ensures t.Stacked(stack + pushed, carried + more)
  {
    hide Tally.Waiting;
  }

  /** No other element is like one of those pushed for n. */
  lemma {:induction false} PushedDiffer(t: Tally, n: nat, use: Use, rest: Stack, carried: seq<Use>)
    requires t.Sized() && n < |t.g| && use !in t.uses[n] && t.Stacked(rest, carried)
    requires (IsAlias(t.g, n) || t.count[n] == 0)
    ensures |carried| == |rest|
    ensures forall p, q :: 0 <= p < |rest| && 0 <= q < |Pushed(t.g, n)| && rest[p].step == Analyze ==>
      rest[p] != Pushed(t.g, n)[q] || carried[p] != CarriedFrom(t.g, n, use)[q]
    ensures forall p, q :: 0 <= p < q < |Pushed(t.g, n)| ==> Pushed(t.g, n)[p] != Pushed(t.g, n)[q]
  {
    if t.g[n].Operator? {
      ArgFramesDistinct(t.g, n, |t.g[n].args|);
    }
    assert |carried| == |rest|;
    hide Tally.Waiting, Tally.Stacked;
    forall p, q | 0 <= p < |rest| && 0 <= q < |Pushed(t.g, n)| && rest[p].step == Analyze
      ensures rest[p] != Pushed(t.g, n)[q] || carried[p] != CarriedFrom(t.g, n, use)[q]
    {
      StackElement(t, rest, carried, p);
    }
  }

  lemma {:induction false} ArrivesNext(t: Tally, n: nat, use: Use, rest: Stack, carried: seq<Use>, f: Frame, x: Use)
    requires t.Sized() && Uncounted(t, n, use, rest, carried) && t.Add(n, use).Sized() && |carried| == |rest|
    requires IsFrame(t.g, f) && f.step == Analyze && t.Add(n, use).Sent(f, x)
    ensures t.Add(n, use).Arrives(f, x, AfterCount(t.g, rest, n, t.count[n] == 0),
                                  AfterCarried(t.g, carried, n, t.count[n] == 0, use))
  {
    hide Tally.Entered, Tally.Stacked, Tally.IsUse, Pushed, OnItsWay;
    var first := t.count[n] == 0;
    ArgIsOlder(t.g, f.parent, FrameNode(t.g, f));
    if t.Sent(f, x) {
      OnItsWayStill(f, x, rest, carried, Pushed(t.g, n), CarriedFrom(t.g, n, use));
    } else {
      assert f.parent == n;
      PushedOnItsWay(t, n, use, rest, carried, f, x);
    }
  }

  lemma {:induction false} OnItsWayStill(f: Frame, use: Use, stack: Stack, carried: seq<Use>, pushed: Stack,
                                         more: seq<Use>)
    requires |carried| == |stack|
    ensures OnItsWay(f, use, stack, carried) ==> OnItsWay(f, use, stack + pushed, carried + more)
  {
    if OnItsWay(f, use, stack, carried) {
      var p :| 0 <= p < |stack| && p < |carried| && stack[p] == f && carried[p] == use;
      assert (stack + pushed)[p] == f && (carried + more)[p] == use;
    }
  }

  /** What n sends on after it was counted is on its way. */
  lemma {:induction false} PushedOnItsWay(t: Tally, n: nat, use: Use, stack: Stack, carried: seq<Use>, f: Frame, x: Use)
    requires n < |t.g| && IsFrame(t.g, f) && f.parent == n && f.step == Analyze && |carried| == |stack|
    requires x == if IsAlias(t.g, n) then use else Argument(n, f.arg)
    ensures OnItsWay(f, x, stack + Pushed(t.g, n), carried + CarriedFrom(t.g, n, use))
  {
    var p :| 0 <= p < |Pushed(t.g, n)| && Pushed(t.g, n)[p] == f;
    assert (stack + Pushed(t.g, n))[|stack| + p] == f && (carried + CarriedFrom(t.g, n, use))[|stack| + p] == x;
  }

  /** Node n is counted because of `use`, and sends the use on. */
  lemma {:induction false} CountNode(t: Tally, n: nat, use: Use, rest: Stack, carried: seq<Use>)
    requires t.Exact() && t.Sized() && Uncounted(t, n, use, rest, carried)
    ensures t.Add(n, use).Counted(AfterCount(t.g, rest, n, t.count[n] == 0),
                                  AfterCarried(t.g, carried, n, t.count[n] == 0, use))
  {
    assert |carried| == |rest|;
    hide Tally.Exact, Tally.Stacked, Tally.Arrives, Uncounted, Tally.Sent, AfterCount, AfterCarried;
    ExactNext(t, n, use, rest, carried);
    StackedNext(t, n, use, rest, carried);
    var t' := t.Add(n, use);
    forall f, x {:trigger t'.Sent(f, x)} | IsFrame(t.g, f) && f.step == Analyze && t'.Sent(f, x)
      ensures t'.Arrives(f, x, AfterCount(t.g, rest, n, t.count[n] == 0),
                         AfterCarried(t.g, carried, n, t.count[n] == 0, use))
    {
      ArrivesNext(t, n, use, rest, carried, f, x);
    }
  }

  /** The next dependent is a use that was not counted. */
  lemma {:induction false} CountDependent(t: Tally)
    requires t.Counted([], []) && t.deps < |t.dependents| && t.dependents[t.deps] < |t.g|
    ensures var n := t.dependents[t.deps];
      t.Add(n, Dependent(t.deps)).Counted(AfterCount(t.g, [], n, t.count[n] == 0),
                                          AfterCarried(t.g, [], n, t.count[n] == 0, Dependent(t.deps)))
  {
    hide *;
    CountedParts(t, [], []);
    DependentUncounted(t);
    CountNode(t, t.dependents[t.deps], Dependent(t.deps), [], []);
  }

  lemma {:induction false} DependentUncounted(t: Tally)
    requires t.Counted([], []) && t.Sized() && t.deps < |t.dependents| && t.dependents[t.deps] < |t.g|
    ensures Uncounted(t, t.dependents[t.deps], Dependent(t.deps), [], [])
  {
    CountedParts(t, [], []);
    hide Tally.Exact, Tally.Arrives, Tally.Sent, Tally.UsesKnown, Tally.Counted;
    DependentIsNew(t, t.dependents[t.deps]);
    forall f, x {:trigger t.Sent(f, x)} | IsFrame(t.g, f) && f.step == Analyze && t.Sent(f, x)
      ensures t.Arrives(f, x, [], [])
    {
      SentArrives(t, [], [], f, x);
    }
  }

  lemma {:induction false} DependentIsNew(t: Tally, n: nat)
    requires t.Exact() && t.Sized() && n < |t.g|
    ensures Dependent(t.deps) !in t.uses[n]
  {
    if Dependent(t.deps) in t.uses[n] {
      CountedUse(t, n, Dependent(t.deps));
    }
  }

  /** The top element changes its step; from now on it only waits to be taken off. */
  lemma {:induction false} StepTop(t: Tally, stack: Stack, carried: seq<Use>, step: Step)
    requires t.Counted(stack, carried) && |stack| > 0 && stack[|stack| - 1].step == Analyze && step != Analyze
    ensures var top := stack[|stack| - 1];
      && t.Sized() && IsFrame(t.g, top) && FrameNode(t.g, top) < |t.g| && |carried| == |stack|
      && Uncounted(t, FrameNode(t.g, top), carried[|stack| - 1], stack[..|stack| - 1] + [top.(step := step)], carried)
  {
    hide *;
    CountedParts(t, stack, carried);
    StackElement(t, stack, carried, |stack| - 1);
    var top, use, rest := stack[|stack| - 1], carried[|stack| - 1], stack[..|stack| - 1] +
      [stack[|stack| - 1].(step := step)];
    var n := FrameNode(t.g, top);
    SentIsUse(t, top, use);
    TopIsLast(t, stack, carried);
    StackedStep(t, stack, carried, step);
    NotCarriedStep(t, stack, carried, step);
    OthersArriveStep(t, stack, carried, step);
    StepIsUncounted(t, top, use, rest, carried);
  }

  lemma {:induction false} StepIsUncounted(t: Tally, top: Frame, use: Use, rest: Stack, carried: seq<Use>)
    requires t.Exact() && t.Sized() && IsFrame(t.g, top) && FrameNode(t.g, top) < |t.g|
    requires Live(t.g, t.dependents, top.parent)
    requires use !in t.uses[FrameNode(t.g, top)] && t.IsUse(FrameNode(t.g, top), use)
    requires t.Entered(use, FrameNode(t.g, top))
    requires t.Stacked(rest, carried) && |carried| == |rest|
    requires NotCarried(t, FrameNode(t.g, top), use, rest, carried)
    requires OthersArrive(t, FrameNode(t.g, top), use, rest, carried)
    ensures Uncounted(t, FrameNode(t.g, top), use, rest, carried)
  {
    hide Tally.Exact, Tally.Stacked, NotCarried, OthersArrive, Tally.Entered, Live;
    LiveArg(t.g, t.dependents, top.parent, FrameNode(t.g, top));
    EnteredNext(t, FrameNode(t.g, top), use, use, FrameNode(t.g, top));
  }

  lemma {:induction false} NotCarriedStep(t: Tally, stack: Stack, carried: seq<Use>, step: Step)
    requires |carried| == |stack| > 0 && step != Analyze && IsFrame(t.g, stack[|stack| - 1])
    requires forall p :: 0 <= p < |stack| - 1 && stack[p].step == Analyze && carried[p] == carried[|stack| - 1] ==>
      IsFrame(t.g, stack[p]) && FrameNode(t.g, stack[p]) != FrameNode(t.g, stack[|stack| - 1])
    ensures NotCarried(t, FrameNode(t.g, stack[|stack| - 1]), carried[|stack| - 1],
                       stack[..|stack| - 1] + [stack[|stack| - 1].(step := step)], carried)
  {}

  lemma {:induction false} OthersArriveStep(t: Tally, stack: Stack, carried: seq<Use>, step: Step)
    requires t.Counted(stack, carried) && t.Sized() && |carried| == |stack| > 0 && step != Analyze
    requires IsFrame(t.g, stack[|stack| - 1])
    ensures OthersArrive(t, FrameNode(t.g, stack[|stack| - 1]), carried[|stack| - 1],
                         stack[..|stack| - 1] + [stack[|stack| - 1].(step := step)], carried)
  {
    hide Tally.Counted, Tally.Sent, Tally.Arrives, IsFrame, FrameNode;
    var top, use := stack[|stack| - 1], carried[|stack| - 1];
    forall f, x {:trigger t.Sent(f, x)} | IsFrame(t.g, f) && f.step == Analyze && t.Sent(f, x)
      ensures t.Arrives(f, x, stack[..|stack| - 1] + [top.(step := step)], carried)
        || (FrameNode(t.g, f) == FrameNode(t.g, top) && x == use)
    {
      if !(f == top && x == use) {
        ArrivesStep(t, stack, carried, step, f, x);
      }
    }
  }

  lemma {:induction false} ArrivesStep(t: Tally, stack: Stack, carried: seq<Use>, step: Step, f: Frame, x: Use)
    requires t.Counted(stack, carried) && t.Sized() && |stack| > 0 && step != Analyze
    requires IsFrame(t.g, f) && f.step == Analyze && t.Sent(f, x) && |carried| == |stack|
    requires !(f == stack[|stack| - 1] && x == carried[|stack| - 1])
    ensures t.Arrives(f, x, stack[..|stack| - 1] + [stack[|stack| - 1].(step := step)], carried)
  {
    hide *;
    SentArrives(t, stack, carried, f, x);
    var rest := stack[..|stack| - 1] + [stack[|stack| - 1].(step := step)];
    if OnItsWay(f, x, stack, carried) {
      OnItsWayStep(f, x, stack, carried, step);
    }
    ArrivesBy(t, f, x, rest, carried);
  }

  lemma {:induction false} ArrivesBy(t: Tally, f: Frame, x: Use, stack: Stack, carried: seq<Use>)
    requires t.Sized() && IsFrame(t.g, f) && FrameNode(t.g, f) < |t.g|
    requires x in t.uses[FrameNode(t.g, f)] || OnItsWay(f, x, stack, carried)
    ensures t.Arrives(f, x, stack, carried)
  {}

  lemma {:induction false} CountedParts(t: Tally, stack: Stack, carried: seq<Use>)
    requires t.Counted(stack, carried)
    ensures t.Exact() && t.Sized() && t.Stacked(stack, carried)
  {}

  lemma {:induction false} OnItsWayStep(f: Frame, use: Use, stack: Stack, carried: seq<Use>, step: Step)
    requires |carried| == |stack| > 0 && f.step == Analyze
    requires OnItsWay(f, use, stack, carried) && !(f == stack[|stack| - 1] && use == carried[|stack| - 1])
    ensures OnItsWay(f, use, stack[..|stack| - 1] + [stack[|stack| - 1].(step := step)], carried)
  {
    var p :| 0 <= p < |stack| && p < |carried| && stack[p] == f && carried[p] == use;
    assert (stack[..|stack| - 1] + [stack[|stack| - 1].(step := step)])[p] == f;
  }

  lemma {:induction false} StackedStep(t: Tally, stack: Stack, carried: seq<Use>, step: Step)
    requires t.Sized() && t.Stacked(stack, carried) && |stack| > 0 && step != Analyze
    ensures t.Stacked(stack[..|stack| - 1] + [stack[|stack| - 1].(step := step)], carried)
  {
    var last := |stack| - 1;
    var rest := stack[..last] + [stack[last].(step := step)];
    assert t.Waiting(stack[last], carried[last]);
    forall p | 0 <= p < |rest|
      ensures t.Waiting(rest[p], carried[p])
    {
      assert p < last ==> t.Waiting(stack[p], carried[p]) && rest[p] == stack[p];
    }
  }

  /** No other element carries the use of the top element to the same node. */
  lemma {:induction false} TopIsLast(t: Tally, stack: Stack, carried: seq<Use>)
    requires t.Exact() && t.Sized() && t.Stacked(stack, carried) && |stack| > 0 && stack[|stack| - 1].step == Analyze
    ensures |carried| == |stack| && IsFrame(t.g, stack[|stack| - 1])
    ensures forall p :: 0 <= p < |stack| - 1 && stack[p].step == Analyze && carried[p] == carried[|stack| - 1] ==>
      IsFrame(t.g, stack[p]) && FrameNode(t.g, stack[p]) != FrameNode(t.g, stack[|stack| - 1])
  {
    var last := |stack| - 1;
    hide Tally.Exact, Tally.Sent, Tally.IsUse, Tally.Entered, Tally.Waiting, Carries, IsFrame;
    StackElement(t, stack, carried, last);
    SentIsUse(t, stack[last], carried[last]);
    forall p | 0 <= p < last && stack[p].step == Analyze && carried[p] == carried[last]
      ensures IsFrame(t.g, stack[p]) && FrameNode(t.g, stack[p]) != FrameNode(t.g, stack[last])
    {
      StackElement(t, stack, carried, p);
      SentIsUse(t, stack[p], carried[p]);
      CarriedOnce(t.g, t.dependents, stack[last], stack[p], carried[p]);
    }
  }

  /** The use that the top element carries was not counted. */
  lemma {:induction false} CountTop(t: Tally, stack: Stack, carried: seq<Use>, step: Step)
    requires t.Counted(stack, carried) && |stack| > 0 && stack[|stack| - 1].step == Analyze && step != Analyze
    ensures |carried| == |stack|
    ensures var top, use := stack[|stack| - 1], carried[|stack| - 1];
      && t.Sized() && IsFrame(t.g, top) && FrameNode(t.g, top) < |t.g| && Live(t.g, t.dependents, FrameNode(t.g, top))
      && var n, rest := FrameNode(t.g, top), stack[..|stack| - 1] + [top.(step := step)];
         t.Add(n, use).Counted(AfterCount(t.g, rest, n, t.count[n] == 0),
                               AfterCarried(t.g, carried, n, t.count[n] == 0, use))
         && t.Add(n, use).deps == t.deps
  {
    CountedParts(t, stack, carried);
    hide Tally.Counted, Tally.Exact, Tally.Stacked, AfterCount, AfterCarried, Live;
    var top := stack[|stack| - 1];
    StepTop(t, stack, carried, step);
    var n, use := FrameNode(t.g, top), carried[|stack| - 1];
    CountNode(t, n, use, stack[..|stack| - 1] + [top.(step := step)], carried);
    hide Uncounted;
    StackElement(t, stack, carried, |stack| - 1);
    SentIsUse(t, top, use);
  }

  lemma {:induction false} PopArrives(t: Tally, stack: Stack, carried: seq<Use>, f: Frame, x: Use)
    requires t.Counted(stack, carried) && t.Sized() && |carried| == |stack| > 0 && stack[|stack| - 1].step != Analyze
    requires IsFrame(t.g, f) && f.step == Analyze && t.Sent(f, x)
    ensures t.Arrives(f, x, stack[..|stack| - 1], carried[..|stack| - 1])
  {
    hide *;
    SentArrives(t, stack, carried, f, x);
    if OnItsWay(f, x, stack, carried) {
      OnItsWayPop(f, x, stack, carried);
    }
    ArrivesBy(t, f, x, stack[..|stack| - 1], carried[..|stack| - 1]);
  }

  lemma {:induction false} OnItsWayPop(f: Frame, use: Use, stack: Stack, carried: seq<Use>)
    requires |carried| == |stack| > 0 && f.step == Analyze && stack[|stack| - 1].step != Analyze
    requires OnItsWay(f, use, stack, carried)
    ensures OnItsWay(f, use, stack[..|stack| - 1], carried[..|stack| - 1])
  {
    var p :| 0 <= p < |stack| && p < |carried| && stack[p] == f && carried[p] == use;
    assert stack[..|stack| - 1][p] == f && carried[..|stack| - 1][p] == use;
  }

  lemma {:induction false} PopStacked(t: Tally, stack: Stack, carried: seq<Use>)
    requires t.Sized() && t.Stacked(stack, carried) && |stack| > 0
    ensures |carried| == |stack| && t.Stacked(stack[..|stack| - 1], carried[..|stack| - 1])
  {
    hide Tally.Waiting;
  }

  /** An element that was counted is taken off the stack. */
  lemma {:induction false} PopTop(t: Tally, stack: Stack, carried: seq<Use>)
    requires t.Counted(stack, carried) && |stack| > 0 && stack[|stack| - 1].step != Analyze
    ensures |carried| == |stack| && t.Counted(stack[..|stack| - 1], carried[..|stack| - 1])
  {
    CountedParts(t, stack, carried);
    PopStacked(t, stack, carried);
    var rest, carried' := stack[..|stack| - 1], carried[..|stack| - 1];
    assert t.Counted(rest, carried') by {
      hide Tally.Exact, Tally.Stacked, Tally.Arrives, Tally.Sent, IsFrame;
      forall f, x {:trigger t.Sent(f, x)} | IsFrame(t.g, f) && f.step == Analyze && t.Sent(f, x)
        ensures t.Arrives(f, x, rest, carried')
      {
        PopArrives(t, stack, carried, f, x);
      }
    }
    hide Tally.Counted;
  }

  lemma {:induction false} NothingCounted(g: Graph, dependents: seq<nat>)
    requires IsGraph(g)
    ensures Tally(g, dependents, seq(|g|, _ => 0), seq(|g|, _ => {}), 0).Counted([], [])
  {}

  lemma {:induction false} CountedIsLive(t: Tally, n: nat)
    requires t.Exact() && n < |t.g| && t.Sized() && t.count[n] > 0
    ensures Live(t.g, t.dependents, n)
    decreases |t.g| - n
  {
    assert t.uses[n] != {};
    var use :| use in t.uses[n];
    CountedUse(t, n, use);
    hide Tally.Exact, Live;
    UseIsLive(t, n, use);
  }

  lemma {:induction false} UseIsLive(t: Tally, n: nat, use: Use)
    requires t.Exact() && n < |t.g| && t.Sized() && t.IsUse(n, use)
    ensures Live(t.g, t.dependents, n) && (use.Argument? ==> Live(t.g, t.dependents, use.u))
    decreases |t.g| - n, 0
  {
    hide Tally.Exact;
    var a := if use.Dependent? then t.dependents[use.i] else t.g[use.u].args[use.k].node;
    LeadsDown(t.g, a, n);
    if use.Argument? {
      assert HasArg(t.g, use.u, a);
      ArgIsOlder(t.g, use.u, a);
      CountedIsLive(t, use.u);
      LiveArg(t.g, t.dependents, use.u, a);
    }
    LiveLeads(t.g, t.dependents, a, n);
  }

  /** With nothing under way, a use counted at a node was counted at everything the node leads to. */
  lemma {:induction false} FollowedDown(t: Tally, use: Use, a: nat, n: nat)
    requires t.Counted([], []) && t.Sized() && a < |t.g| && use in t.uses[a] && Leads(t.g, a, n)
    ensures n < |t.g| && use in t.uses[n]
    decreases a
  {
    hide Tally.Counted;
    if a != n {
      SentArrives(t, [], [], Frame(a, 0, Analyze), use);
      FollowedDown(t, use, Target(t.g, a), n);
    }
  }

  /** When all dependents are counted, so are all uses. */
  lemma {:induction false} AllUsesCounted(t: Tally, n: nat, use: Use)
    requires t.Counted([], []) && t.Sized() && t.deps == |t.dependents| && use in LiveUses(t.g, t.dependents, n)
    ensures n < |t.g| && use in t.uses[n]
    decreases if use.Argument? then |t.g| - use.u else 0
  {
    IsLiveUse(t.g, t.dependents, n, use);
    match use
    case Dependent(i) =>
      FollowedDown(t, use, t.dependents[i], n);
    case Argument(u, k) =>
      hide Tally.Counted;
      UserCounted(t, u);
      SentArrives(t, [], [], Frame(u, k, Analyze), use);
      FollowedDown(t, use, t.g[u].args[k].node, n);
  }

  lemma {:induction false} UserCounted(t: Tally, u: nat)
    requires t.Counted([], []) && t.Sized() && t.deps == |t.dependents| && Live(t.g, t.dependents, u)
    ensures u < |t.g| && t.count[u] > 0
    decreases |t.g| - u, 1
  {
    var use := LiveIsUsed(t.g, t.dependents, u);
    CountedParts(t, [], []);
    hide Tally.Counted, Tally.Exact, Live, Tally.Stacked;
    LiveUseIsOlder(t.g, t.dependents, u, use);
    AllUsesCounted(t, u, use);
    CountIsPositive(t, u, use);
  }

  lemma {:induction false} CountIsPositive(t: Tally, n: nat, use: Use)
    requires t.Exact() && n < |t.g| == |t.uses| && use in t.uses[n]
    ensures |t.count| == |t.g| && t.count[n] > 0
  {
    assert t.uses[n] != {};
  }

  lemma {:induction false} LiveUseIsOlder(g: Graph, dependents: seq<nat>, n: nat, use: Use)
    requires IsGraph(g) && use in LiveUses(g, dependents, n)
    ensures use.Argument? ==> n < use.u < |g|
  {
    IsLiveUse(g, dependents, n, use);
    if use.Argument? {
      LeadsDown(g, g[use.u].args[use.k].node, n);
    }
  }

  /** After all dependents the count of a node is the number of its uses. */
  lemma {:induction false} CountIsExact(t: Tally, n: nat)
    requires t.Counted([], []) && t.deps == |t.dependents| && n < |t.g|
    ensures t.Sized() && t.count[n] == |LiveUses(t.g, t.dependents, n)|
  {
    CountedParts(t, [], []);
    assert |t.uses[n]| == t.count[n];
    hide Tally.Counted, Tally.Exact, Tally.Stacked, LiveUses, Live;
    forall use | use in t.uses[n]
      ensures use in LiveUses(t.g, t.dependents, n)
    {
      CountedUse(t, n, use);
      UseIsLive(t, n, use);
      IsLiveUse(t.g, t.dependents, n, use);
    }
    forall use | use in LiveUses(t.g, t.dependents, n)
      ensures use in t.uses[n]
    {
      AllUsesCounted(t, n, use);
    }
    assert t.uses[n] == LiveUses(t.g, t.dependents, n);
  }
}
