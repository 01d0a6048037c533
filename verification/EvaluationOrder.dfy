/** The positions at which nodes are evaluated and at which their values are used for the last time. */
module EvaluationOrder {
  import opened OperationGraph
  import opened LiveNodes
  import opened EvaluationQueue

  /**
    The first `count` queued nodes are numbered from one; other queued nodes have no order, unless they are aliases.
   */
  ghost predicate Positions(g: Graph, queue: seq<nat>, order: seq<nat>, count: nat) {
    && IsGraph(g) && |order| == |g| && count <= |queue|
    && (forall n :: 0 <= n < |g| ==> order[n] <= count)
    && (forall p :: 0 <= p < count ==> queue[p] < |g| && order[queue[p]] == p + 1)
    && (forall p :: count <= p < |queue| ==> queue[p] < |g| && (order[queue[p]] == 0 || IsAlias(g, queue[p])))
  }

  /** A node that is not queued has the order of some user. */
  ghost predicate EvaluatedWithin(g: Graph, order: seq<nat>, n: nat)
    requires |order| == |g| && n < |g|
  {
    exists u: nat {:trigger HasArg(g, u, n)} :: u < |g| && HasArg(g, u, n) && order[u] == order[n]
  }

  /** What is not queued is evaluated below a queued node; if it is used once, in the statement of its user. */
  ghost predicate Inlined(g: Graph, dependents: seq<nat>, queue: seq<nat>, order: seq<nat>)
    requires IsGraph(g) && |order| == |g|
  {
    forall n: nat :: n < |g| && order[n] > 0 && n !in queue ==> InlinedNode(g, dependents, queue, order, n)
  }

  ghost predicate InlinedNode(g: Graph, dependents: seq<nat>, queue: seq<nat>, order: seq<nat>, n: nat)
    requires IsGraph(g) && |order| == |g| && n < |g| && order[n] > 0
  {
    && (Single(g, dependents, n) ==> EvaluatedWithin(g, order, n))
    && order[n] <= |queue| && queue[order[n] - 1] < |g| && Below(g, queue[order[n] - 1], n)
  }

  /** A queued alias has an order before its turn only if something reads it. */
  ghost predicate Early(g: Graph, dependents: seq<nat>, queue: seq<nat>, order: seq<nat>, count: nat)
    requires |order| == |g| && forall p :: 0 <= p < |queue| ==> queue[p] < |g|
  {
    forall p :: count <= p < |queue| && order[queue[p]] > 0 ==> HasReader(g, dependents, queue[p])
  }

  ghost predicate HasReader(g: Graph, dependents: seq<nat>, n: nat) {
    exists u: nat {:trigger HasArg(g, u, n)} :: u < |g| && HasArg(g, u, n) && Live(g, dependents, u)
  }

  /** The order of a node does not exceed that of a node that needs it; a queued alias may be late. */
  ghost predicate InTime(g: Graph, queue: seq<nat>, order: seq<nat>, u: nat, a: nat)
    requires |order| == |g| && u < |g| && a < |g|
  {
    0 < order[a] && (order[a] <= order[u] || (IsAlias(g, a) && a in queue))
  }

  /** What a node with an order needs has an order, or is awaited on the stack. */
  ghost predicate Supplied(g: Graph, queue: seq<nat>, order: seq<nat>, current: nat, stack: Stack)
    requires IsGraph(g) && |order| == |g| && IsStack(g, stack)
  {
    forall u: nat, a: nat {:trigger HasArg(g, u, a)} :: u < |g| && order[u] > 0 && HasArg(g, u, a) ==>
      a < |g| && (InTime(g, queue, order, u, a) || (order[u] == current && Awaits(g, stack, a)))
  }

  ghost predicate Awaits(g: Graph, stack: Stack, a: nat)
    requires IsStack(g, stack)
  {
    exists q :: 0 <= q < |stack| && FrameNode(g, stack[q]) == a
  }

  /** The elements of the stack belong to the statement of queue[count]. */
  ghost predicate FramesOf(g: Graph, dependents: seq<nat>, queue: seq<nat>, order: seq<nat>, count: nat, stack: Stack)
    requires IsGraph(g) && |order| == |g| && IsStack(g, stack) && count < |queue| && queue[count] < |g|
  {
    forall q :: 0 <= q < |stack| ==>
      && order[stack[q].parent] == count + 1 && Live(g, dependents, stack[q].parent)
      && FrameNode(g, stack[q]) < |g| && Below(g, queue[count], FrameNode(g, stack[q]))
  }

  /** After the first `count` queued nodes and everything they need got their order. */
  ghost predicate Numbered(g: Graph, dependents: seq<nat>, queue: seq<nat>, order: seq<nat>, count: nat) {
    && Positions(g, queue, order, count) && Early(g, dependents, queue, order, count)
    && Inlined(g, dependents, queue, order) && Supplied(g, queue, order, 0, [])
  }

  /** While the nodes needed by queue[count] get their order; `stack` holds those still to be looked at. */
  ghost predicate Numbering(g: Graph, dependents: seq<nat>, queue: seq<nat>, order: seq<nat>, count: nat,
                            stack: Stack)
  {
    && count < |queue| && Positions(g, queue, order, count + 1) && Early(g, dependents, queue, order, count + 1)
    && IsStack(g, stack)
    && Inlined(g, dependents, queue, order) && Supplied(g, queue, order, count + 1, stack)
    && FramesOf(g, dependents, queue, order, count, stack)
  }

  /** Nodes keep their users when a node without an order gets one. */
  lemma {:induction false} InlinedKept(g: Graph, dependents: seq<nat>, queue: seq<nat>, order: seq<nat>, n: nat,
                                       current: nat)
    requires IsGraph(g) && |order| == |g| && n < |g| && order[n] == 0 && current > 0
    requires Inlined(g, dependents, queue, order)
    requires n in queue || (EvaluatedWithin(g, order[n := current], n) && current <= |queue| && queue[current - 1] < |g|
                            && Below(g, queue[current - 1], n))
    ensures Inlined(g, dependents, queue, order[n := current])
  {
    hide Below, Single, EvaluatedWithin, InlinedNode;
    forall m: nat | m < |g| && order[n := current][m] > 0 && m !in queue
      ensures InlinedNode(g, dependents, queue, order[n := current], m)
    {
      InlinedNodeKept(g, dependents, queue, order, n, current, m);
    }
  }

  lemma {:induction false} InlinedNodeKept(g: Graph, dependents: seq<nat>, queue: seq<nat>, order: seq<nat>, n: nat,
                                           current: nat, m: nat)
    requires IsGraph(g) && |order| == |g| && n < |g| && order[n] == 0 && current > 0 && m < |g|
    requires m != n ==> order[m] > 0 && InlinedNode(g, dependents, queue, order, m)
    requires m == n ==> EvaluatedWithin(g, order[n := current], n) && current <= |queue| && queue[current - 1] < |g|
                            && Below(g, queue[current - 1], n)
    ensures InlinedNode(g, dependents, queue, order[n := current], m)
  {
    hide Below, Single;
    if m != n && EvaluatedWithin(g, order, m) {
      var u: nat :| u < |g| && HasArg(g, u, m) && order[u] == order[m];
      assert order[n := current][u] == order[n := current][m];
    }
  }

  /** An alias that is a dependent and is read is used more than once, and so is what it names. */
  lemma {:induction false} TargetIsShared(g: Graph, dependents: seq<nat>, n: nat)
    requires IsGraph(g) && n < |g| && IsAlias(g, n) && n in dependents && HasReader(g, dependents, n)
    ensures !Single(g, dependents, Target(g, n))
  {
    hide Single, Live;
    if Single(g, dependents, Target(g, n)) {
      SingleName(g, dependents, n);
      var u: nat :| u < |g| && HasArg(g, u, n) && Live(g, dependents, u);
      SingleUser(g, dependents, u, u, n);
    }
  }

  /** Nodes used once keep their users when an alias that was read early gets its own order. */
  lemma {:induction false} InlinedRaised(g: Graph, dependents: seq<nat>, queue: seq<nat>, order: seq<nat>, n: nat,
                                         current: nat)
    requires IsGraph(g) && |order| == |g| && n < |g| && current > 0 && n in queue
    requires IsAlias(g, n) && n in dependents && HasReader(g, dependents, n)
    requires Inlined(g, dependents, queue, order)
    ensures Inlined(g, dependents, queue, order[n := current])
  {
    TargetIsShared(g, dependents, n);
    hide Below, Single, HasReader, EvaluatedWithin, InlinedNode;
    forall m: nat | m < |g| && order[n := current][m] > 0 && m !in queue
      ensures InlinedNode(g, dependents, queue, order[n := current], m)
    {
      InlinedNodeRaised(g, dependents, queue, order, n, current, m);
    }
  }

  lemma {:induction false} InlinedNodeRaised(g: Graph, dependents: seq<nat>, queue: seq<nat>, order: seq<nat>, n: nat,
                                             current: nat, m: nat)
    requires IsGraph(g) && |order| == |g| && n < |g| && current > 0 && m < |g| && m != n && order[m] > 0
    requires IsAlias(g, n) && !Single(g, dependents, Target(g, n))
    requires InlinedNode(g, dependents, queue, order, m)
    ensures InlinedNode(g, dependents, queue, order[n := current], m)
  {
    hide Below, Single;
    if Single(g, dependents, m) {
      var u: nat :| u < |g| && HasArg(g, u, m) && order[u] == order[m];
      if u == n {
        OnlyTarget(g, n, m);
      }
      assert order[n := current][u] == order[n := current][m];
    }
  }

  /** Node n gets its order, and its arguments are pushed onto what is left of the stack. */
  lemma {:induction false} SuppliedPush(g: Graph, queue: seq<nat>, order: seq<nat>, stack: Stack, rest: Stack, n: nat,
                                        previous: nat, current: nat)
    requires IsGraph(g) && |order| == |g| && IsStack(g, stack) && n < |g| && current > 0
    requires order[n] == 0 || (IsAlias(g, n) && n in queue)
    requires Supplied(g, queue, order, previous, stack) && (previous == current || stack == [])
    requires forall m :: 0 <= m < |g| ==> order[m] <= current
    requires IsStack(g, rest) && forall a: nat :: a < |g| && Awaits(g, stack, a) && a != n ==> Awaits(g, rest, a)
    ensures IsStack(g, rest + Pushed(g, n)) && Supplied(g, queue, order[n := current], current, rest + Pushed(g, n))
  {
    var order', pushed := order[n := current], Pushed(g, n);
    forall u: nat, a: nat {:trigger HasArg(g, u, a)} | u < |g| && order'[u] > 0 && HasArg(g, u, a)
      ensures a < |g| && (InTime(g, queue, order', u, a) || (order'[u] == current && Awaits(g, rest + pushed, a)))
    {
      ArgIsOlder(g, u, a);
      if u == n {
        PushedCovers(g, n, a);
        var q :| 0 <= q < |pushed| && FrameNode(g, pushed[q]) == a;
        assert (rest + pushed)[|rest| + q] == pushed[q];
      } else if !InTime(g, queue, order, u, a) && a != n {
        var q :| 0 <= q < |rest| && FrameNode(g, rest[q]) == a;
        assert (rest + pushed)[q] == rest[q];
      }
    }
  }

  lemma {:induction false} AwaitsPop(g: Graph, stack: Stack, a: nat)
    requires IsStack(g, stack) && |stack| > 0 && Awaits(g, stack, a)
    ensures a == FrameNode(g, stack[|stack| - 1]) || Awaits(g, stack[..|stack| - 1], a)
  {
    var q :| 0 <= q < |stack| && FrameNode(g, stack[q]) == a;
    if q < |stack| - 1 {
      assert stack[..|stack| - 1][q] == stack[q];
    }
  }

  /** The next queued node is numbered. */
  lemma {:induction false} PositionsNext(g: Graph, queue: seq<nat>, order: seq<nat>, count: nat)
    requires Positions(g, queue, order, count) && count < |queue|
    requires forall p, q :: 0 <= p < q < |queue| ==> queue[p] != queue[q]
    ensures IsGraph(g) && |order| == |g| && queue[count] < |g| && (order[queue[count]] == 0 || IsAlias(g, queue[count]))
    ensures forall m :: 0 <= m < |g| ==> order[m] <= count
    ensures Positions(g, queue, order[queue[count] := count + 1], count + 1)
  {}

  lemma {:induction false} EarlyNext(g: Graph, dependents: seq<nat>, queue: seq<nat>, order: seq<nat>, count: nat)
    requires |order| == |g| && (forall p :: 0 <= p < |queue| ==> queue[p] < |g|) && count < |queue|
    requires Early(g, dependents, queue, order, count)
    requires forall p, q :: 0 <= p < q < |queue| ==> queue[p] != queue[q]
    ensures Early(g, dependents, queue, order[queue[count] := count + 1], count + 1)
    ensures order[queue[count]] > 0 ==> HasReader(g, dependents, queue[count])
  {
    hide HasReader;
  }

  lemma {:induction false} StartNumbering(g: Graph, dependents: seq<nat>, creates: seq<bool>, queue: seq<nat>,
                                          order: seq<nat>, count: nat)
    requires Schedule(g, dependents, creates, queue) && Numbered(g, dependents, queue, order, count) && count < |queue|
    ensures queue[count] < |g| == |order|
    ensures Numbering(g, dependents, queue, order[queue[count] := count + 1], count, Pushed(g, queue[count]))
  {
    hide *;
    var root := queue[count];
    NumberedParts(g, dependents, queue, order, count);
    ScheduledNode(g, dependents, creates, queue, count);
    PositionsNext(g, queue, order, count);
    EarlyNext(g, dependents, queue, order, count);
    if order[root] == 0 {
      InlinedKept(g, dependents, queue, order, root, count + 1);
    } else {
      InlinedRaised(g, dependents, queue, order, root, count + 1);
    }
    NothingAwaits(g);
    SuppliedPush(g, queue, order, [], [], root, 0, count + 1);
    assert [] + Pushed(g, root) == Pushed(g, root);
    PushedFrames(g, dependents, queue, order[root := count + 1], count, root);
    NumberingWhole(g, dependents, queue, order[root := count + 1], count, Pushed(g, root));
  }

  lemma {:induction false} NumberedParts(g: Graph, dependents: seq<nat>, queue: seq<nat>, order: seq<nat>, count: nat)
    requires Numbered(g, dependents, queue, order, count)
    ensures IsGraph(g) && |order| == |g| && forall p :: 0 <= p < |queue| ==> queue[p] < |g|
    ensures Positions(g, queue, order, count) && Early(g, dependents, queue, order, count)
    ensures Inlined(g, dependents, queue, order) && Supplied(g, queue, order, 0, [])
  {}

  lemma {:induction false} ScheduledNode(g: Graph, dependents: seq<nat>, creates: seq<bool>, queue: seq<nat>, p: nat)
    requires Schedule(g, dependents, creates, queue) && p < |queue|
    ensures queue[p] < |g| && g[queue[p]].Operator? && Live(g, dependents, queue[p])
    ensures (IsAlias(g, queue[p]) ==> queue[p] in dependents)
    ensures forall p, q :: 0 <= p < q < |queue| ==> queue[p] != queue[q]
  {
    hide Below, Live;
  }

  lemma {:induction false} NothingAwaits(g: Graph)
    ensures IsStack(g, []) && forall a: nat :: !Awaits(g, [], a)
  {}

  lemma {:induction false} PushedFrames(g: Graph, dependents: seq<nat>, queue: seq<nat>, order: seq<nat>, count: nat,
                                        n: nat)
    requires IsGraph(g) && |order| == |g| && n < |g| && count < |queue| && queue[count] < |g| && order[n] == count + 1
    requires Live(g, dependents, n) && (n == queue[count] || Below(g, queue[count], n))
    ensures FramesOf(g, dependents, queue, order, count, Pushed(g, n))
  {
    hide Live;
    forall q | 0 <= q < |Pushed(g, n)|
      ensures FrameNode(g, Pushed(g, n)[q]) < |g| && Below(g, queue[count], FrameNode(g, Pushed(g, n)[q]))
    {
      var a := FrameNode(g, Pushed(g, n)[q]);
      ArgIsOlder(g, n, a);
      if n != queue[count] {
        BelowArg(g, queue[count], n, a);
      }
    }
  }

  lemma {:induction false} EndNumbering(g: Graph, dependents: seq<nat>, queue: seq<nat>, order: seq<nat>, count: nat)
    requires Numbering(g, dependents, queue, order, count, [])
    ensures Numbered(g, dependents, queue, order, count + 1)
  {
    hide Positions, Early, Inlined, InTime;
  }

  /** The top element's node already has its order. */
  lemma {:induction false} SkipNumbered(g: Graph, dependents: seq<nat>, queue: seq<nat>, order: seq<nat>, count: nat,
                                        stack: Stack)
    requires Numbering(g, dependents, queue, order, count, stack) && |stack| > 0
    requires order[FrameNode(g, stack[|stack| - 1])] > 0
    ensures Numbering(g, dependents, queue, order, count, stack[..|stack| - 1])
  {
    NumberingParts(g, dependents, queue, order, count, stack);
    PopSupplied(g, dependents, queue, order, count, stack);
    hide *;
    NumberingWhole(g, dependents, queue, order, count, stack[..|stack| - 1]);
  }

  lemma {:induction false} PopSupplied(g: Graph, dependents: seq<nat>, queue: seq<nat>, order: seq<nat>, count: nat,
                                       stack: Stack)
    requires IsGraph(g) && |order| == |g| && IsStack(g, stack) && |stack| > 0 && count < |queue| && queue[count] < |g|
    requires FrameNode(g, stack[|stack| - 1]) < |g| && order[FrameNode(g, stack[|stack| - 1])] > 0
    requires forall m :: 0 <= m < |g| ==> order[m] <= count + 1
    requires Supplied(g, queue, order, count + 1, stack) && FramesOf(g, dependents, queue, order, count, stack)
    ensures Supplied(g, queue, order, count + 1, stack[..|stack| - 1])
    ensures FramesOf(g, dependents, queue, order, count, stack[..|stack| - 1])
  {
    hide Below, Awaits, Live;
    var rest := stack[..|stack| - 1];
    forall u: nat, a: nat {:trigger HasArg(g, u, a)} | u < |g| && order[u] > 0 && HasArg(g, u, a)
      ensures a < |g| && (InTime(g, queue, order, u, a) || (order[u] == count + 1 && Awaits(g, rest, a)))
    {
      if !(a < |g| && InTime(g, queue, order, u, a)) {
        AwaitsPop(g, stack, a);
      }
    }
  }

  /** Numbering a node that is not queued, or is a queued alias, leaves the queued nodes numbered so far alone. */
  lemma {:induction false} PositionsKept(g: Graph, queue: seq<nat>, order: seq<nat>, count: nat, n: nat)
    requires Positions(g, queue, order, count + 1) && n < |g| && order[n] == 0 && (n !in queue || IsAlias(g, n))
    ensures IsGraph(g) && |order| == |g| && forall m :: 0 <= m < |g| ==> order[m] <= count + 1
    ensures count < |queue| && order[queue[count]] == count + 1
    ensures Positions(g, queue, order[n := count + 1], count + 1)
  {}

  /** The top element belongs to the statement of queue[count]. */
  lemma {:induction false} NumberingTop(g: Graph, dependents: seq<nat>, queue: seq<nat>, order: seq<nat>, count: nat,
                                        stack: Stack)
    requires Numbering(g, dependents, queue, order, count, stack) && |stack| > 0
    ensures IsGraph(g) && |order| == |g| && IsStack(g, stack) && queue[count] < |g|
    ensures var f := stack[|stack| - 1];
      order[f.parent] == count + 1 && Live(g, dependents, f.parent) && FrameNode(g, f) < |g|
        && Below(g, queue[count], FrameNode(g, f))
  {
    hide Below, Live, Inlined, Supplied, Early;
  }

  /** The node of the top element gets the order of its user, and its arguments are looked at. */
  lemma {:induction false} NumberNode(g: Graph, dependents: seq<nat>, creates: seq<bool>, queue: seq<nat>,
                                      order: seq<nat>, count: nat, stack: Stack)
    requires Schedule(g, dependents, creates, queue) && Numbering(g, dependents, queue, order, count, stack)
    requires |stack| > 0
    requires order[FrameNode(g, stack[|stack| - 1])] == 0
    ensures var f := stack[|stack| - 1];
      Numbering(g, dependents, queue, order[FrameNode(g, f) := order[f.parent]], count,
                stack[..|stack| - 1] + Pushed(g, FrameNode(g, f)))
  {
    NumberingTop(g, dependents, queue, order, count, stack);
    var f := stack[|stack| - 1];
    var n := FrameNode(g, f);
    NumberingParts(g, dependents, queue, order, count, stack);
    NotQueued(g, dependents, creates, queue, order, count, n);
    PositionsKept(g, queue, order, count, n);
    hide Numbering, Positions, Below, Awaits, Inlined, Supplied, FramesOf, Schedule, Pushed, Early, Live, HasReader,
      EvaluatedWithin;
    UserNumbered(g, order, f.parent, n);
    InlinedKept(g, dependents, queue, order, n, count + 1);
    EarlyKept(g, dependents, queue, order, count, f.parent, n);
    SuppliedNext(g, queue, order, stack, n, count + 1);
    NextFrames(g, dependents, queue, order, count, stack, n);
    NumberingWhole(g, dependents, queue, order[n := count + 1], count, stack[..|stack| - 1] + Pushed(g, n));
  }

  lemma {:induction false} NumberingParts(g: Graph, dependents: seq<nat>, queue: seq<nat>, order: seq<nat>, count: nat,
                                          stack: Stack)
    requires Numbering(g, dependents, queue, order, count, stack)
    ensures count < |queue| && IsGraph(g) && |order| == |g| && IsStack(g, stack)
    ensures forall p :: 0 <= p < |queue| ==> queue[p] < |g|
    ensures Positions(g, queue, order, count + 1) && Early(g, dependents, queue, order, count + 1)
    ensures Inlined(g, dependents, queue, order)
    ensures Supplied(g, queue, order, count + 1, stack) && FramesOf(g, dependents, queue, order, count, stack)
  {}

  lemma {:induction false} NumberingWhole(g: Graph, dependents: seq<nat>, queue: seq<nat>, order: seq<nat>, count: nat,
                                          stack: Stack)
    requires count < |queue| && IsGraph(g) && |order| == |g| && IsStack(g, stack)
    requires forall p :: 0 <= p < |queue| ==> queue[p] < |g|
    requires Positions(g, queue, order, count + 1) && Early(g, dependents, queue, order, count + 1)
    requires Inlined(g, dependents, queue, order)
    requires Supplied(g, queue, order, count + 1, stack) && FramesOf(g, dependents, queue, order, count, stack)
    ensures Numbering(g, dependents, queue, order, count, stack)
  {}

  lemma {:induction false} UserNumbered(g: Graph, order: seq<nat>, u: nat, n: nat)
    requires IsGraph(g) && |order| == |g| && u < |g| && HasArg(g, u, n)
    ensures n < |g| && EvaluatedWithin(g, order[n := order[u]], n)
  {
    ArgIsOlder(g, u, n);
  }

  lemma {:induction false} EarlyKept(g: Graph, dependents: seq<nat>, queue: seq<nat>, order: seq<nat>, count: nat,
                                     u: nat, n: nat)
    requires |order| == |g| && (forall p :: 0 <= p < |queue| ==> queue[p] < |g|)
    requires Early(g, dependents, queue, order, count + 1)
    requires u < |g| && Live(g, dependents, u) && HasArg(g, u, n) && n < |g|
    ensures Early(g, dependents, queue, order[n := count + 1], count + 1)
  {
    hide Live;
    assert HasReader(g, dependents, n);
  }

  /** The top of the stack gives way to the arguments of its node. */
  lemma {:induction false} SuppliedNext(g: Graph, queue: seq<nat>, order: seq<nat>, stack: Stack, n: nat, current: nat)
    requires IsGraph(g) && |order| == |g| && IsStack(g, stack) && |stack| > 0 && current > 0
    requires n == FrameNode(g, stack[|stack| - 1]) && n < |g| && order[n] == 0
    requires Supplied(g, queue, order, current, stack) && forall m :: 0 <= m < |g| ==> order[m] <= current
    ensures IsStack(g, stack[..|stack| - 1] + Pushed(g, n))
    ensures Supplied(g, queue, order[n := current], current, stack[..|stack| - 1] + Pushed(g, n))
  {
    hide Awaits, Supplied, Pushed;
    var rest := stack[..|stack| - 1];
    forall a: nat | Awaits(g, stack, a) && a != n
      ensures Awaits(g, rest, a)
    {
      AwaitsPop(g, stack, a);
    }
    SuppliedPush(g, queue, order, stack, rest, n, current, current);
  }

  lemma {:induction false} NextFrames(g: Graph, dependents: seq<nat>, queue: seq<nat>, order: seq<nat>, count: nat,
                                      stack: Stack, n: nat)
    requires IsGraph(g) && |order| == |g| && count < |queue| && queue[count] < |g| && IsStack(g, stack) && |stack| > 0
    requires FramesOf(g, dependents, queue, order, count, stack) && n == FrameNode(g, stack[|stack| - 1])
    requires order[n] == 0
    ensures IsStack(g, stack[..|stack| - 1] + Pushed(g, n))
    ensures FramesOf(g, dependents, queue, order[n := count + 1], count, stack[..|stack| - 1] + Pushed(g, n))
  {
    LiveArg(g, dependents, stack[|stack| - 1].parent, n);
    hide Below, Live;
    PushedFrames(g, dependents, queue, order[n := count + 1], count, n);
  }

  /** Of the queued nodes only aliases are met without an order below a statement. */
  lemma {:induction false} NotQueued(g: Graph, dependents: seq<nat>, creates: seq<bool>, queue: seq<nat>,
                                     order: seq<nat>, count: nat, n: nat)
    requires Schedule(g, dependents, creates, queue) && count < |queue| && Positions(g, queue, order, count + 1)
    requires n < |g| && Below(g, queue[count], n) && order[n] == 0
    ensures n !in queue || IsAlias(g, n)
  {
    forall p | 0 <= p < count
      ensures queue[p] != n
    {
      assert order[queue[p]] == p + 1;
    }
    assert n !in queue[..count];
  }

  // ---------------------------------------------------------------------------------------------
  // Facts about the finished numbering

  ghost predicate AllNumbered(g: Graph, dependents: seq<nat>, creates: seq<bool>, queue: seq<nat>, order: seq<nat>) {
    && Schedule(g, dependents, creates, queue) && Numbered(g, dependents, queue, order, |queue|)
    && CreatesForShared(g, dependents, creates)
    && forall i :: 0 <= i < |dependents| ==> dependents[i] < |g|
  }

  /** Every operation that has to be computed has an order, and so has everything it uses. */
  lemma {:induction false} LiveHasOrder(g: Graph, dependents: seq<nat>, creates: seq<bool>, queue: seq<nat>,
                                        order: seq<nat>, n: nat)
    requires AllNumbered(g, dependents, creates, queue, order)
    requires Live(g, dependents, n) && g[n].Operator?
    ensures order[n] > 0
    decreases |g| - n
  {
    hide Below, Inlined, CreatesForShared, Early;
    if n in dependents {
      var p: nat :| p < |queue| && queue[p] == n;
    } else {
      var u: nat :| n < u < |g| && HasArg(g, u, n) && Live(g, dependents, u);
      LiveHasOrder(g, dependents, creates, queue, order, u);
      assert InTime(g, queue, order, u, n);
    }
  }

  lemma {:induction false} OrderedIsLive(g: Graph, dependents: seq<nat>, creates: seq<bool>, queue: seq<nat>,
                                         order: seq<nat>, n: nat)
    requires AllNumbered(g, dependents, creates, queue, order) && n < |g| && order[n] > 0
    ensures Live(g, dependents, n)
  {
    hide Supplied, CreatesForShared, Early, Single, EvaluatedWithin;
    if n in queue {
      var p: nat :| p < |queue| && queue[p] == n;
    } else {
      BelowIsLive(g, dependents, queue[order[n] - 1], n);
    }
  }

  /** A queued node is computed before every statement that reads it; an alias only if the queue is in order. */
  lemma {:induction false} ComputedBefore(g: Graph, dependents: seq<nat>, creates: seq<bool>, queue: seq<nat>,
                                          order: seq<nat>, u: nat, a: nat)
    requires AllNumbered(g, dependents, creates, queue, order)
    requires u < |g| && order[u] > 0 && HasArg(g, u, a) && a in queue && a < |g|
    requires (!IsAlias(g, a) || InOrder(g, queue))
    ensures order[u] <= |queue| && a in queue[..order[u] - 1] && 0 < order[a] < order[u]
  {
    hide Supplied, CreatesForShared, Early, Single, EvaluatedWithin, Live;
    ArgIsOlder(g, u, a);
    var root := queue[order[u] - 1];
    if u in queue {
      var q: nat :| q < |queue| && queue[q] == u;
      assert root == u && Below(g, root, a);
    } else {
      BelowArg(g, root, u, a);
    }
    assert a in queue[..order[u] - 1];
    var p :| 0 <= p < order[u] - 1 && queue[..order[u] - 1][p] == a;
    assert queue[p] == a;
  }

  /** A node that is used once and not queued is evaluated within the statement of its only user. */
  lemma {:induction false} InlinedOnce(g: Graph, dependents: seq<nat>, creates: seq<bool>, queue: seq<nat>,
                                       order: seq<nat>, u: nat, a: nat)
    requires AllNumbered(g, dependents, creates, queue, order)
    requires u < |g| && order[u] > 0 && HasArg(g, u, a) && a < |g| && g[a].Operator? && a !in queue
    requires Single(g, dependents, a)
    ensures order[a] == order[u]
  {
    OrderedIsLive(g, dependents, creates, queue, order, u);
    LiveArg(g, dependents, u, a);
    LiveHasOrder(g, dependents, creates, queue, order, a);
    hide Supplied, CreatesForShared, Early, Single, Live, Schedule, Below;
    var w: nat :| w < |g| && HasArg(g, w, a) && order[w] == order[a];
    OrderedIsLive(g, dependents, creates, queue, order, w);
    SingleUser(g, dependents, u, w, a);
  }

  /** Where node b is printed, a is printed: b is a, or an alias without a variable that leads to a. */
  ghost predicate Via(g: Graph, queue: seq<nat>, b: nat, a: nat)
    requires IsGraph(g) && b < |g|
    decreases b
  {
    b == a || (IsAlias(g, b) && b !in queue && Via(g, queue, Target(g, b), a))
  }

  lemma {:induction false} ViaLeads(g: Graph, queue: seq<nat>, b: nat, a: nat)
    requires IsGraph(g) && b < |g| && Via(g, queue, b, a)
    ensures a <= b && Leads(g, b, a)
    ensures !IsAlias(g, a) ==> Resolve(g, b) == a
    ensures IsAlias(g, a) && a !in queue ==> Via(g, queue, b, Target(g, a))
  {
    if a != b {
      ViaLeads(g, queue, Target(g, b), a);
    }
  }

  /** An operation that is printed within the statement of u, directly or by way of aliases, has the order of u. */
  lemma {:induction false} PrintedWithin(g: Graph, dependents: seq<nat>, creates: seq<bool>, queue: seq<nat>,
                                         order: seq<nat>, u: nat, b: nat, a: nat)
    requires IsGraph(g) && |order| == |g| && a < |g|
    requires AllNumbered(g, dependents, creates, queue, order)
    requires u < |g| && order[u] > 0 && HasArg(g, u, b) && b < |g| && Via(g, queue, b, a)
    requires g[a].Operator? && a !in queue && Single(g, dependents, a)
    ensures order[a] == order[u] && Single(g, dependents, b)
    decreases b
  {
    hide AllNumbered, Single;
    NumberedGraph(g, dependents, creates, queue, order);
    if a == b {
      InlinedOnce(g, dependents, creates, queue, order, u, b);
    } else {
      NameIsSingle(g, dependents, queue, b, a);
      InlinedOnce(g, dependents, creates, queue, order, u, b);
      PrintedWithin(g, dependents, creates, queue, order, b, Target(g, b), a);
    }
  }

  lemma {:induction false} NameIsSingle(g: Graph, dependents: seq<nat>, queue: seq<nat>, b: nat, a: nat)
    requires IsGraph(g) && b < |g| && Via(g, queue, b, a) && Single(g, dependents, a)
    ensures Single(g, dependents, b)
  {
    hide Single;
    if a != b {
      NameIsSingle(g, dependents, queue, Target(g, b), a);
      SingleName(g, dependents, b);
    }
  }

  lemma {:induction false} NumberedGraph(g: Graph, dependents: seq<nat>, creates: seq<bool>, queue: seq<nat>,
                                         order: seq<nat>)
    requires AllNumbered(g, dependents, creates, queue, order)
    ensures IsGraph(g) && |order| == |creates| == |g|
  {}

  /** Operations without a variable are used once. */
  lemma {:induction false} UnqueuedIsSingle(g: Graph, dependents: seq<nat>, creates: seq<bool>, queue: seq<nat>,
                                            order: seq<nat>, a: nat)
    requires AllNumbered(g, dependents, creates, queue, order)
    requires a < |g| && Live(g, dependents, a) && g[a].Operator? && !IsAlias(g, a) && a !in queue
    ensures Single(g, dependents, a)
  {
    hide Numbered, Below, Single;
  }

  // ---------------------------------------------------------------------------------------------
  // Last uses

  /** Node u reads t, or a name of t. */
  ghost predicate Takes(g: Graph, u: nat, t: nat)
    requires IsGraph(g) && u < |g|
  {
    exists a: nat {:trigger HasArg(g, u, a)} :: a < |g| && HasArg(g, u, a) && Resolve(g, a) == t
  }

  /** The order of the last statement in which a node is used; zero if there is none. */
  ghost predicate LastUses(g: Graph, dependents: seq<nat>, order: seq<nat>, lastUse: seq<nat>)
    requires IsGraph(g) && |order| == |g|
  {
    && |lastUse| == |g|
    && (forall u: nat, t: nat {:trigger Takes(g, u, t)} :: u < |g| && Live(g, dependents, u) && Takes(g, u, t) ==>
          t < |g| && lastUse[t] >= order[u])
    && (forall t :: 0 <= t < |g| && lastUse[t] > 0 ==> UsedIn(g, dependents, order, t, lastUse[t]))
  }

  ghost predicate UsedIn(g: Graph, dependents: seq<nat>, order: seq<nat>, t: nat, last: nat)
    requires IsGraph(g) && |order| == |g|
  {
    exists u: nat {:trigger Takes(g, u, t)} :: u < |g| && Live(g, dependents, u) && Takes(g, u, t) && order[u] == last
  }

  /** A variable that is no dependent is used for the last time after its own statement. */
  lemma {:induction false} UsedLater(g: Graph, dependents: seq<nat>, creates: seq<bool>, queue: seq<nat>,
                                     order: seq<nat>, lastUse: seq<nat>, p: nat)
    requires AllNumbered(g, dependents, creates, queue, order) && IsGraph(g) && |order| == |g|
    requires LastUses(g, dependents, order, lastUse)
    requires p < |queue| && queue[p] !in dependents
    ensures queue[p] < |g| && p + 1 < lastUse[queue[p]] <= |queue|
  {
    var a := queue[p];
    QueuedNode(g, dependents, creates, queue, order, p);
    var u: nat :| a < u < |g| && HasArg(g, u, a) && Live(g, dependents, u);
    LiveHasOrder(g, dependents, creates, queue, order, u);
    ComputedBefore(g, dependents, creates, queue, order, u, a);
    assert Takes(g, u, a);
    assert UsedIn(g, dependents, order, a, lastUse[a]);
    OrdersInRange(g, dependents, creates, queue, order);
    hide AllNumbered, Live, Takes;
  }

  lemma {:induction false} QueuedNode(g: Graph, dependents: seq<nat>, creates: seq<bool>, queue: seq<nat>,
                                      order: seq<nat>, p: nat)
    requires AllNumbered(g, dependents, creates, queue, order) && p < |queue|
    ensures queue[p] < |g| == |order| && g[queue[p]].Operator? && Live(g, dependents, queue[p])
    ensures order[queue[p]] == p + 1
    ensures IsAlias(g, queue[p]) ==> queue[p] in dependents
  {
    hide Inlined, Supplied, Early, Below, CreatesForShared, Live;
  }

  lemma {:induction false} OrdersInRange(g: Graph, dependents: seq<nat>, creates: seq<bool>, queue: seq<nat>,
                                         order: seq<nat>)
    requires AllNumbered(g, dependents, creates, queue, order)
    ensures |order| == |g| && forall n :: 0 <= n < |g| ==> order[n] <= |queue|
  {}
}
