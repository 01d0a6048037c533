/**
  Operation graphs and their explicit-stack traversal.  Nodes are named by numbers, arguments by
  smaller numbers than the operations that use them.
 */
module OperationGraph {

  datatype Arg = Parameter(value: real) | Operation(node: nat)

  datatype Op = Add | Sub | Mul | Div | UnMinus | Alias | Exp | Log | Other(code: nat)

  datatype Node = Independent(index: nat) | Operator(op: Op, args: seq<Arg>)

  type Graph = seq<Node>

  ghost predicate IsGraph(g: Graph) {
    forall n, k :: 0 <= n < |g| && g[n].Operator? && 0 <= k < |g[n].args| && g[n].args[k].Operation? ==>
      g[n].args[k].node < n
  }

  /** Node a is an argument of node u. */
  predicate HasArg(g: Graph, u: nat, a: nat)
    requires u < |g|
  {
    g[u].Operator? && Operation(a) in g[u].args
  }

  lemma {:induction false} ArgIsOlder(g: Graph, u: nat, a: nat)
    requires IsGraph(g) && u < |g| && HasArg(g, u, a)
    ensures a < u
  {
    var k :| 0 <= k < |g[u].args| && g[u].args[k] == Operation(a);
  }

  /** Node d is an argument of n, or of an argument of n, and so on. */
  ghost predicate Below(g: Graph, n: nat, d: nat)
    requires IsGraph(g) && n < |g|
    decreases n
  {
    exists a: nat :: a < n && HasArg(g, n, a) && (a == d || Below(g, a, d))
  }

  lemma {:induction false} BelowIsOlder(g: Graph, n: nat, d: nat)
    requires IsGraph(g) && n < |g| && Below(g, n, d)
    ensures d < n
  {
    var a: nat :| a < n && HasArg(g, n, a) && (a == d || Below(g, a, d));
    if a != d {
      BelowIsOlder(g, a, d);
    }
  }

  lemma {:induction false} BelowArg(g: Graph, n: nat, u: nat, a: nat)
    requires IsGraph(g) && n < |g| && u < |g| && Below(g, n, u) && HasArg(g, u, a)
    ensures Below(g, n, a)
  {
    var b: nat :| b < n && HasArg(g, n, b) && (b == u || Below(g, b, u));
    ArgIsOlder(g, u, a);
    if b == u {
      assert Below(g, b, a);
    } else {
      BelowArg(g, b, u, a);
    }
  }

  /** The arguments of the marked nodes are marked. */
  ghost predicate Closed(g: Graph, marked: seq<bool>)
    requires |marked| == |g|
  {
    forall u: nat, a: nat {:trigger HasArg(g, u, a)} :: u < |g| && marked[u] && HasArg(g, u, a) ==> a < |g| && marked[a]
  }

  lemma {:induction false} ClosedBelow(g: Graph, marked: seq<bool>, n: nat, d: nat)
    requires IsGraph(g) && |marked| == |g| && Closed(g, marked)
    requires n < |g| && marked[n] && Below(g, n, d)
    ensures d < |g| && marked[d]
  {
    var a: nat :| a < n && HasArg(g, n, a) && (a == d || Below(g, a, d));
    if a != d {
      ClosedBelow(g, marked, a, d);
    }
  }

  lemma {:induction false} BelowTransitive(g: Graph, n: nat, d: nat, e: nat)
    requires IsGraph(g) && n < |g| && d < |g| && Below(g, n, d) && Below(g, d, e)
    ensures Below(g, n, e)
  {
    var a: nat :| a < d && HasArg(g, d, a) && (a == e || Below(g, a, e));
    BelowArg(g, n, d, a);
    if a != e {
      BelowTransitive(g, n, a, e);
    }
  }

  // ---------------------------------------------------------------------------------------------
  // Aliases

  /** Node n is another name for a node. */
  predicate IsAlias(g: Graph, n: nat)
    requires n < |g|
  {
    g[n].Operator? && g[n].op == Alias && |g[n].args| == 1 && g[n].args[0].Operation?
  }

  function Target(g: Graph, n: nat): (t: nat)
    requires n < |g| && IsAlias(g, n)
    ensures HasArg(g, n, t) && (IsGraph(g) ==> t < n)
  {
    g[n].args[0].node
  }

  lemma {:induction false} OnlyTarget(g: Graph, n: nat, a: nat)
    requires n < |g| && IsAlias(g, n) && HasArg(g, n, a)
    ensures a == Target(g, n)
  {
    assert g[n].args == [Operation(Target(g, n))];
  }

  /** `getOperationFromAlias`: what n is a name of; n itself if it is no alias. */
  function Resolve(g: Graph, n: nat): (t: nat)
    requires IsGraph(g) && n < |g|
    ensures t <= n
    ensures IsAlias(g, n) ==> t < n && t == Resolve(g, Target(g, n))
    ensures !IsAlias(g, t)
  {
    if IsAlias(g, n) then Resolve(g, Target(g, n)) else n
  }

  /** Node n is a, or what a is a name of, possibly through other names. */
  ghost predicate Leads(g: Graph, a: nat, n: nat)
    requires IsGraph(g) && a < |g|
    decreases a
  {
    a == n || (IsAlias(g, a) && Leads(g, Target(g, a), n))
  }

  lemma {:induction false} LeadsDown(g: Graph, a: nat, n: nat)
    requires IsGraph(g) && a < |g| && Leads(g, a, n)
    ensures n <= a
    ensures IsAlias(g, n) ==> Leads(g, a, Target(g, n))
  {
    if a != n {
      LeadsDown(g, Target(g, a), n);
    }
  }

  /** Two names on one way that stand for the same node are the same. */
  lemma {:induction false} LeadsOnce(g: Graph, a: nat, p: nat, q: nat)
    requires IsGraph(g) && a < |g| && Leads(g, a, p) && Leads(g, a, q)
    requires p < |g| && q < |g| && IsAlias(g, p) && IsAlias(g, q) && Target(g, p) == Target(g, q)
    ensures p == q
  {
    if a == p && a != q {
      LeadsDown(g, Target(g, a), q);
      assert false;
    } else if a == q && a != p {
      LeadsDown(g, Target(g, a), p);
      assert false;
    } else if a != p {
      LeadsOnce(g, Target(g, a), p, q);
    }
  }

  // ---------------------------------------------------------------------------------------------
  // Meaning

  /** The meaning of the operations, given the values of the operands. */
  type Semantics = (Op, seq<real>) -> real

  /** What values depend on: the operations, the independent variables, and nodes whose value is prescribed. */
  datatype World = World(f: Semantics, x: nat -> real, over: map<nat, real>)

  ghost function Value(g: Graph, w: World, n: nat): real
    requires IsGraph(g) && n < |g|
    decreases n, 1, 0
  {
    if n in w.over then w.over[n]
    else
      match g[n]
      case Independent(index) => w.x(index)
      case Operator(op, args) => w.f(op, Values(g, w, n, |args|))
  }

  /** The values of the first k arguments of n. */
  ghost function Values(g: Graph, w: World, n: nat, k: nat): (r: seq<real>)
    requires IsGraph(g) && n < |g| && g[n].Operator? && k <= |g[n].args|
    ensures |r| == k
    decreases n, 0, k
  {
    if k == 0 then []
    else Values(g, w, n, k - 1) + [match g[n].args[k - 1] case Parameter(v) => v case Operation(a) => Value(g, w, a)]
  }

  // ---------------------------------------------------------------------------------------------
  // The stack

  datatype Step = Analyze | ChildrenVisited | Exit

  /** A stack element: argument number `arg` of node `parent`. */
  datatype Frame = Frame(parent: nat, arg: nat, step: Step)

  ghost predicate IsFrame(g: Graph, f: Frame) {
    f.parent < |g| && g[f.parent].Operator? && f.arg < |g[f.parent].args| && g[f.parent].args[f.arg].Operation?
  }

  function FrameNode(g: Graph, f: Frame): (n: nat)
    requires IsFrame(g, f)
    ensures HasArg(g, f.parent, n)
  {
    g[f.parent].args[f.arg].node
  }

  type Stack = seq<Frame>

  ghost predicate IsStack(g: Graph, s: Stack) {
    forall p :: 0 <= p < |s| ==> IsFrame(g, s[p])
  }

  /** The elements for the first k arguments of u, last argument first. */
  function ArgFrames(g: Graph, u: nat, k: nat): (r: Stack)
    requires u < |g| && g[u].Operator? && k <= |g[u].args|
    ensures IsStack(g, r) && forall p :: 0 <= p < |r| ==> r[p].parent == u && r[p].step == Analyze && r[p].arg < k
    ensures forall x :: 0 <= x < k && g[u].args[x].Operation? ==> Frame(u, x, Analyze) in r
  {
    if k == 0 then []
    else if g[u].args[k - 1].Operation? then [Frame(u, k - 1, Analyze)] + ArgFrames(g, u, k - 1)
    else ArgFrames(g, u, k - 1)
  }

  function Pushed(g: Graph, u: nat): (r: Stack)
    requires u < |g|
    ensures IsStack(g, r) && forall p :: 0 <= p < |r| ==> r[p].parent == u && r[p].step == Analyze
  {
    if g[u].Operator? then ArgFrames(g, u, |g[u].args|) else []
  }

  /** The elements for later arguments come first, so that earlier arguments are taken off the stack first. */
  lemma {:induction false} PushedInReverse(g: Graph, u: nat, k: nat, p: nat, q: nat)
    requires u < |g| && g[u].Operator? && k <= |g[u].args| && p < q < |ArgFrames(g, u, k)|
    ensures ArgFrames(g, u, k)[p].arg > ArgFrames(g, u, k)[q].arg
  {
    ArgFramesNext(g, u, k);
    hide ArgFrames, IsStack;
    if !g[u].args[k - 1].Operation? {
      PushedInReverse(g, u, k - 1, p, q);
    } else if p > 0 {
      PushedInReverse(g, u, k - 1, p - 1, q - 1);
    }
  }

  lemma {:induction false} ArgFramesNext(g: Graph, u: nat, k: nat)
    requires u < |g| && g[u].Operator? && 0 < k <= |g[u].args|
    ensures ArgFrames(g, u, k) ==
      (if g[u].args[k - 1].Operation? then [Frame(u, k - 1, Analyze)] else []) + ArgFrames(g, u, k - 1)
  {}

  /** Every argument of u is the node of some pushed element. */
  lemma {:induction false} PushedCovers(g: Graph, u: nat, a: nat)
    requires u < |g| && HasArg(g, u, a)
    ensures exists p :: 0 <= p < |Pushed(g, u)| && FrameNode(g, Pushed(g, u)[p]) == a
  {
    var k: nat :| k < |g[u].args| && g[u].args[k] == Operation(a);
    assert Frame(u, k, Analyze) in Pushed(g, u);
    var p :| 0 <= p < |Pushed(g, u)| && Pushed(g, u)[p] == Frame(u, k, Analyze);
  }

  /** `pushNodeArguments`: appends in reverse order so that the arguments are visited in forward order. */
  method PushNodeArguments(g: Graph, u: nat, stack: Stack) returns (r: Stack)
    requires u < |g|
    ensures r == stack + Pushed(g, u)
  {
    r := stack;
    assert g[u].Operator? ==> Pushed(g, u) == ArgFrames(g, u, |g[u].args|);
    assert stack + [] == stack;
    hide Pushed, IsStack;
    if g[u].Operator? {
      var k := |g[u].args|;
      while k > 0
        invariant 0 <= k <= |g[u].args|
        invariant r + ArgFrames(g, u, k) == stack + Pushed(g, u)
      {
        ArgFramesNext(g, u, k);
        hide ArgFrames;
        if g[u].args[k - 1].Operation? {
          assert r + ([Frame(u, k - 1, Analyze)] + ArgFrames(g, u, k - 1)) ==
            r + [Frame(u, k - 1, Analyze)] + ArgFrames(g, u, k - 1);
          r := r + [Frame(u, k - 1, Analyze)];
        }
        k := k - 1;
      }
    }
  }

  // A bound on the number of steps of a traversal that may enter nodes more than once

  ghost function Weight(g: Graph, n: nat): nat
    requires IsGraph(g) && n < |g|
    decreases n, 1, 0
  {
    2 + if g[n].Operator? then ArgsWeight(g, n, |g[n].args|) else 0
  }

  ghost function ArgsWeight(g: Graph, n: nat, k: nat): nat
    requires IsGraph(g) && n < |g| && g[n].Operator? && k <= |g[n].args|
    decreases n, 0, k
  {
    if k == 0 then 0
    else ArgsWeight(g, n, k - 1) + if g[n].args[k - 1].Operation? then Weight(g, g[n].args[k - 1].node) else 0
  }

  ghost function FrameWeight(g: Graph, f: Frame): nat
    requires IsGraph(g) && IsFrame(g, f)
  {
    if f.step == Analyze then Weight(g, FrameNode(g, f)) else 1
  }

  ghost function StackWeight(g: Graph, s: Stack): nat
    requires IsGraph(g) && IsStack(g, s)
  {
    if s == [] then 0 else StackWeight(g, s[..|s| - 1]) + FrameWeight(g, s[|s| - 1])
  }

  lemma {:induction false} StackWeightConcat(g: Graph, s: Stack, t: Stack)
    requires IsGraph(g) && IsStack(g, s) && IsStack(g, t)
    ensures IsStack(g, s + t) && StackWeight(g, s + t) == StackWeight(g, s) + StackWeight(g, t)
  {
    if t == [] {
      assert s + t == s;
    } else {
      var last := |t| - 1;
      StackWeightConcat(g, s, t[..last]);
      assert (s + t)[..|s + t| - 1] == s + t[..last];
    }
  }

  lemma {:induction false} ArgFramesWeight(g: Graph, u: nat, k: nat)
    requires IsGraph(g) && u < |g| && g[u].Operator? && k <= |g[u].args|
    ensures StackWeight(g, ArgFrames(g, u, k)) == ArgsWeight(g, u, k)
  {
    if k > 0 {
      ArgFramesWeight(g, u, k - 1);
      if g[u].args[k - 1].Operation? {
        StackWeightConcat(g, [Frame(u, k - 1, Analyze)], ArgFrames(g, u, k - 1));
        assert StackWeight(g, [Frame(u, k - 1, Analyze)]) == StackWeight(g, []) +
          FrameWeight(g, Frame(u, k - 1, Analyze));
      }
    }
  }

  /** Entering a node and pushing its arguments costs weight. */
  lemma {:induction false} EnterCosts(g: Graph, s: Stack, step: Step)
    requires IsGraph(g) && IsStack(g, s) && |s| > 0 && s[|s| - 1].step == Analyze && step != Analyze
    ensures var top := |s| - 1;
      var n := FrameNode(g, s[top]);
      var below := s[..top] + [s[top].(step := step)];
      n < |g| && IsStack(g, below) && IsStack(g, below + Pushed(g, n))
      && StackWeight(g, below) < StackWeight(g, s)
      && StackWeight(g, below + Pushed(g, n)) < StackWeight(g, s)
  {
    var top := |s| - 1;
    var n := FrameNode(g, s[top]);
    var below := s[..top] + [s[top].(step := step)];
    ArgIsOlder(g, s[top].parent, n);
    assert below[..|below| - 1] == s[..top];
    StackWeightConcat(g, below, Pushed(g, n));
    if g[n].Operator? {
      ArgFramesWeight(g, n, |g[n].args|);
    }
  }

  /** Taking off an element that was entered costs weight. */
  lemma {:induction false} PopCosts(g: Graph, s: Stack)
    requires IsGraph(g) && IsStack(g, s) && |s| > 0
    ensures IsStack(g, s[..|s| - 1]) && StackWeight(g, s[..|s| - 1]) < StackWeight(g, s)
  {}

  // What a depth first traversal still has to do

  /** Node n is marked, or it is an alias and what it leads to is marked: aliases themselves stay unmarked. */
  ghost predicate Settled(g: Graph, marked: seq<bool>, n: nat)
    requires IsGraph(g) && |marked| == |g|
    decreases n
  {
    n < |g| && (marked[n] || (IsAlias(g, n) && Settled(g, marked, Target(g, n))))
  }

  lemma {:induction false} SettledKept(g: Graph, marked: seq<bool>, marked': seq<bool>, n: nat)
    requires IsGraph(g) && |marked| == |marked'| == |g| && Settled(g, marked, n)
    requires forall x :: 0 <= x < |g| && marked[x] ==> marked'[x]
    ensures Settled(g, marked', n)
  {
    if !marked[n] {
      SettledKept(g, marked, marked', Target(g, n));
    }
  }

  /** Every argument of n is settled or is the node of an element from position `from` on. */
  ghost predicate Awaited(g: Graph, s: Stack, from: nat, marked: seq<bool>, n: nat)
    requires IsGraph(g) && IsStack(g, s) && |marked| == |g| && n < |g|
  {
    forall a: nat {:trigger HasArg(g, n, a)} :: HasArg(g, n, a) ==>
      Settled(g, marked, a) || exists q :: from <= q < |s| && FrameNode(g, s[q]) == a
  }

  /** The arguments of a node being processed are settled or above it; nodes being left are settled. */
  ghost predicate Consistent(g: Graph, s: Stack, marked: seq<bool>)
    requires IsGraph(g) && |marked| == |g|
  {
    && IsStack(g, s)
    && (forall p :: 0 <= p < |s| ==> FrameNode(g, s[p]) < |g|)
    && (forall p :: 0 <= p < |s| && s[p].step == ChildrenVisited ==> Awaited(g, s, p + 1, marked, FrameNode(g, s[p])))
    && (forall p :: 0 <= p < |s| && s[p].step == Exit ==> Settled(g, marked, FrameNode(g, s[p])))
  }

  lemma {:induction false} AwaitedPop(g: Graph, s: Stack, from: nat, marked: seq<bool>, marked': seq<bool>, n: nat)
    requires IsGraph(g) && IsStack(g, s) && |marked| == |marked'| == |g| && n < |g| && |s| > 0
    requires Awaited(g, s, from, marked, n)
    requires forall x :: 0 <= x < |g| && marked[x] ==> marked'[x]
    requires Settled(g, marked', FrameNode(g, s[|s| - 1]))
    ensures Awaited(g, s[..|s| - 1], from, marked', n)
  {
    var t := s[..|s| - 1];
    forall a: nat | HasArg(g, n, a) && !Settled(g, marked', a)
      ensures exists q :: from <= q < |t| && FrameNode(g, t[q]) == a
    {
      if Settled(g, marked, a) {
        SettledKept(g, marked, marked', a);
        assert false;
      }
      var q :| from <= q < |s| && FrameNode(g, s[q]) == a;
      assert t[q] == s[q];
    }
  }

  /** The node of the top element is settled: the element may go. */
  lemma {:induction false} ConsistentPop(g: Graph, s: Stack, marked: seq<bool>, marked': seq<bool>)
    requires IsGraph(g) && |marked| == |marked'| == |g| && |s| > 0 && Consistent(g, s, marked)
    requires forall x :: 0 <= x < |g| && marked[x] ==> marked'[x]
    requires Settled(g, marked', FrameNode(g, s[|s| - 1]))
    ensures Consistent(g, s[..|s| - 1], marked')
  {
    var t := s[..|s| - 1];
    forall p | 0 <= p < |t| && t[p].step == Exit
      ensures Settled(g, marked', FrameNode(g, t[p]))
    {
      SettledKept(g, marked, marked', FrameNode(g, s[p]));
    }
    forall p | 0 <= p < |t| && t[p].step == ChildrenVisited
      ensures Awaited(g, t, p + 1, marked', FrameNode(g, t[p]))
    {
      AwaitedPop(g, s, p + 1, marked, marked', FrameNode(g, s[p]));
    }
  }

  lemma {:induction false} AwaitedEnter(g: Graph, s: Stack, t: Stack, from: nat, marked: seq<bool>, n: nat)
    requires IsGraph(g) && IsStack(g, s) && IsStack(g, t) && |marked| == |g| && n < |g|
    requires |s| <= |t| && forall q :: 0 <= q < |s| ==> FrameNode(g, t[q]) == FrameNode(g, s[q])
    requires Awaited(g, s, from, marked, n)
    ensures Awaited(g, t, from, marked, n)
  {
    forall a: nat | HasArg(g, n, a) && !Settled(g, marked, a)
      ensures exists q :: from <= q < |t| && FrameNode(g, t[q]) == a
    {
      var q :| from <= q < |s| && FrameNode(g, s[q]) == a;
      assert FrameNode(g, t[q]) == a;
    }
  }

  /** The top element changes its step, and perhaps elements are pushed onto it. */
  ghost predicate Replaces(g: Graph, s: Stack, step: Step, pushed: Stack, t: Stack) {
    |s| > 0 && t == s[..|s| - 1] + [s[|s| - 1].(step := step)] + pushed
  }

  lemma {:induction false} AwaitedBelow(g: Graph, s: Stack, step: Step, pushed: Stack, t: Stack, marked: seq<bool>,
                                        from: nat, n: nat)
    requires IsGraph(g) && |marked| == |g| && IsStack(g, s) && IsStack(g, pushed) && Replaces(g, s, step, pushed, t)
    requires n < |g| && Awaited(g, s, from, marked, n)
    ensures IsStack(g, t) && Awaited(g, t, from, marked, n)
  {
    AwaitedEnter(g, s, t, from, marked, n);
  }

  /** The top node is left because it is settled. */
  lemma {:induction false} ConsistentLeave(g: Graph, s: Stack, marked: seq<bool>, t: Stack)
    requires IsGraph(g) && |marked| == |g| && |s| > 0 && Consistent(g, s, marked)
    requires Settled(g, marked, FrameNode(g, s[|s| - 1])) && Replaces(g, s, Exit, [], t)
    ensures Consistent(g, t, marked)
  {
    forall p | 0 <= p < |t| && t[p].step == ChildrenVisited
      ensures Awaited(g, t, p + 1, marked, FrameNode(g, t[p]))
    {
      AwaitedBelow(g, s, Exit, [], t, marked, p + 1, FrameNode(g, s[p]));
    }
  }

  /** The arguments of the top node are put on the stack. */
  lemma {:induction false} ConsistentEnter(g: Graph, s: Stack, marked: seq<bool>, t: Stack)
    requires IsGraph(g) && |marked| == |g| && |s| > 0 && Consistent(g, s, marked)
    requires Replaces(g, s, ChildrenVisited, Pushed(g, FrameNode(g, s[|s| - 1])), t)
    ensures Consistent(g, t, marked)
  {
    var top := |s| - 1;
    var n := FrameNode(g, s[top]);
    PushedInRange(g, n);
    forall p | 0 <= p < |t|
      ensures IsFrame(g, t[p]) && FrameNode(g, t[p]) < |g|
      ensures t[p].step == ChildrenVisited ==> p <= top
      ensures t[p].step == Exit ==> p < top
    {
      if p > top {
        assert t[p] == Pushed(g, n)[p - top - 1];
      }
    }
    forall p | 0 <= p < |t| && t[p].step == ChildrenVisited
      ensures Awaited(g, t, p + 1, marked, FrameNode(g, t[p]))
    {
      if p < top {
        AwaitedBelow(g, s, ChildrenVisited, Pushed(g, n), t, marked, p + 1, FrameNode(g, s[p]));
      } else {
        AwaitedPushed(g, t, top + 1, marked, n);
      }
    }
  }

  lemma {:induction false} PushedInRange(g: Graph, n: nat)
    requires IsGraph(g) && n < |g|
    ensures forall p :: 0 <= p < |Pushed(g, n)| ==> FrameNode(g, Pushed(g, n)[p]) < |g|
  {
    forall p | 0 <= p < |Pushed(g, n)|
      ensures FrameNode(g, Pushed(g, n)[p]) < |g|
    {
      ArgIsOlder(g, n, FrameNode(g, Pushed(g, n)[p]));
    }
  }

  lemma {:induction false} AwaitedPushed(g: Graph, t: Stack, from: nat, marked: seq<bool>, n: nat)
    requires IsGraph(g) && IsStack(g, t) && |marked| == |g| && n < |g|
    requires from <= |t| && t[from..] == Pushed(g, n)
    ensures Awaited(g, t, from, marked, n)
  {
    forall a: nat | HasArg(g, n, a)
      ensures exists q :: from <= q < |t| && FrameNode(g, t[q]) == a
    {
      PushedCovers(g, n, a);
      var p :| 0 <= p < |Pushed(g, n)| && FrameNode(g, Pushed(g, n)[p]) == a;
      assert t[from + p] == t[from..][p];
    }
  }

  /** All arguments of a node whose turn has come again are settled. */
  lemma {:induction false} ConsistentTop(g: Graph, s: Stack, marked: seq<bool>)
    requires IsGraph(g) && |marked| == |g| && |s| > 0 && Consistent(g, s, marked) && s[|s| - 1].step == ChildrenVisited
    ensures ArgsSettled(g, marked, FrameNode(g, s[|s| - 1]))
  {
    var n := FrameNode(g, s[|s| - 1]);
    assert Awaited(g, s, |s|, marked, n);
  }

  ghost predicate ArgsSettled(g: Graph, marked: seq<bool>, n: nat)
    requires IsGraph(g) && |marked| == |g| && n < |g|
  {
    forall a: nat {:trigger HasArg(g, n, a)} :: HasArg(g, n, a) ==> Settled(g, marked, a)
  }

  /** A traversal of everything below root. */
  ghost predicate Traversal(g: Graph, s: Stack, marked: seq<bool>, root: nat) {
    && IsGraph(g) && |marked| == |g| && root < |g|
    && Consistent(g, s, marked) && Awaited(g, s, 0, marked, root)
    && forall p :: 0 <= p < |s| ==> s[p].parent <= root
  }

  /** The traversal starts with the arguments of the root. */
  lemma {:induction false} TraversalStart(g: Graph, marked: seq<bool>, root: nat)
    requires IsGraph(g) && |marked| == |g| && root < |g|
    ensures Traversal(g, Pushed(g, root), marked, root)
  {
    PushedInRange(g, root);
    AwaitedPushed(g, Pushed(g, root), 0, marked, root);
  }

  lemma {:induction false} TraversalTop(g: Graph, s: Stack, marked: seq<bool>, root: nat)
    requires Traversal(g, s, marked, root) && |s| > 0
    ensures IsStack(g, s) && FrameNode(g, s[|s| - 1]) < s[|s| - 1].parent <= root
    ensures s[|s| - 1].step == Exit ==> Settled(g, marked, FrameNode(g, s[|s| - 1]))
    ensures s[|s| - 1].step == ChildrenVisited ==> ArgsSettled(g, marked, FrameNode(g, s[|s| - 1]))
  {
    ArgIsOlder(g, s[|s| - 1].parent, FrameNode(g, s[|s| - 1]));
    if s[|s| - 1].step == ChildrenVisited {
      ConsistentTop(g, s, marked);
    }
  }

  lemma {:induction false} TraversalLeave(g: Graph, s: Stack, marked: seq<bool>, root: nat)
    requires Traversal(g, s, marked, root) && |s| > 0 && s[|s| - 1].step == Analyze
    requires Settled(g, marked, FrameNode(g, s[|s| - 1]))
    ensures var t := s[|s| - 1 := s[|s| - 1].(step := Exit)];
      Traversal(g, t, marked, root) && StackWeight(g, t) < StackWeight(g, s)
  {
    hide Consistent, Awaited, StackWeight;
    assert Consistent(g, s, marked) ==> IsStack(g, s) by { TraversalTop(g, s, marked, root); }
    var t := s[|s| - 1 := s[|s| - 1].(step := Exit)];
    assert t == s[..|s| - 1] + [s[|s| - 1].(step := Exit)] + [];
    assert t == s[..|s| - 1] + [s[|s| - 1].(step := Exit)];
    EnterCosts(g, s, Exit);
    ConsistentLeave(g, s, marked, t);
    AwaitedBelow(g, s, Exit, [], t, marked, 0, root);
  }

  lemma {:induction false} TraversalEnter(g: Graph, s: Stack, marked: seq<bool>, root: nat)
    requires Traversal(g, s, marked, root) && |s| > 0 && s[|s| - 1].step == Analyze
    ensures FrameNode(g, s[|s| - 1]) < |g|
    ensures var t := s[|s| - 1 := s[|s| - 1].(step := ChildrenVisited)] + Pushed(g, FrameNode(g, s[|s| - 1]));
      && Traversal(g, t, marked, root) && StackWeight(g, t) < StackWeight(g, s)
      && (forall p :: 0 <= p < |t| ==>
            if p < |s| then t[p].parent == s[p].parent else t[p].parent == FrameNode(g, s[|s| - 1]))
  {
    TraversalTop(g, s, marked, root);
    hide Consistent, Awaited, StackWeight;
    var n := FrameNode(g, s[|s| - 1]);
    var t := s[|s| - 1 := s[|s| - 1].(step := ChildrenVisited)] + Pushed(g, n);
    assert t == s[..|s| - 1] + [s[|s| - 1].(step := ChildrenVisited)] + Pushed(g, n);
    EnterCosts(g, s, ChildrenVisited);
    ConsistentEnter(g, s, marked, t);
    AwaitedBelow(g, s, ChildrenVisited, Pushed(g, n), t, marked, 0, root);
  }

  lemma {:induction false} TraversalPop(g: Graph, s: Stack, marked: seq<bool>, marked': seq<bool>, root: nat)
    requires Traversal(g, s, marked, root) && |s| > 0 && s[|s| - 1].step != Analyze
    requires |marked'| == |g| && forall x :: 0 <= x < |g| && marked[x] ==> marked'[x]
    requires Settled(g, marked', FrameNode(g, s[|s| - 1]))
    ensures IsStack(g, s) && IsStack(g, s[..|s| - 1])
    ensures Traversal(g, s[..|s| - 1], marked', root) && StackWeight(g, s[..|s| - 1]) < StackWeight(g, s)
  {
    ConsistentPop(g, s, marked, marked');
    AwaitedPop(g, s, 0, marked, marked', root);
  }

  lemma {:induction false} TraversalEnd(g: Graph, marked: seq<bool>, root: nat)
    requires Traversal(g, [], marked, root)
    ensures ArgsSettled(g, marked, root)
  {
    assert Awaited(g, [], 0, marked, root);
  }

  /** Replacing the top element by the arguments of its node costs weight. */
  lemma {:induction false} ExpandCosts(g: Graph, s: Stack)
    requires IsGraph(g) && IsStack(g, s) && |s| > 0 && s[|s| - 1].step == Analyze
    ensures var n := FrameNode(g, s[|s| - 1]);
      && n < |g| && IsStack(g, s[..|s| - 1]) && IsStack(g, s[..|s| - 1] + Pushed(g, n))
      && StackWeight(g, s[..|s| - 1]) < StackWeight(g, s)
      && StackWeight(g, s[..|s| - 1] + Pushed(g, n)) < StackWeight(g, s)
  {
    var n := FrameNode(g, s[|s| - 1]);
    ArgIsOlder(g, s[|s| - 1].parent, n);
    StackWeightConcat(g, s[..|s| - 1], Pushed(g, n));
    if g[n].Operator? {
      ArgFramesWeight(g, n, |g[n].args|);
    }
  }
}
