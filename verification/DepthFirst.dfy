/**
  The order in which the nodes below the dependents are visited, by plain recursion: the explicit
  stack of the code goes through the nodes in this order.
 */
module DepthFirst {
  import opened OperationGraph
  import opened EvaluationQueue

  /** The finished nodes once the arguments of n are finished: n is one of them, unless it is an alias. */
  ghost function Leave(g: Graph, n: nat, done: seq<nat>): seq<nat>
    requires n < |g|
  {
    if n in done || IsAlias(g, n) then done else done + [n]
  }

  /** The finished nodes after a visit to n. */
  ghost function Visit(g: Graph, n: nat, done: seq<nat>): seq<nat>
    requires IsGraph(g) && n < |g|
    decreases n, 1, 0
  {
    if n in done then done
    else if g[n].Operator? then Leave(g, n, VisitArgs(g, n, |g[n].args|, done))
    else Leave(g, n, done)
  }

  /** The finished nodes after visits to the first k arguments of n, first to last. */
  ghost function VisitArgs(g: Graph, n: nat, k: nat, done: seq<nat>): seq<nat>
    requires IsGraph(g) && n < |g| && g[n].Operator? && k <= |g[n].args|
    decreases n, 0, k
  {
    if k == 0 then done
    else
      var before := VisitArgs(g, n, k - 1, done);
      if g[n].args[k - 1].Operation? then Visit(g, g[n].args[k - 1].node, before) else before
  }

  ghost function VisitBelow(g: Graph, n: nat, done: seq<nat>): seq<nat>
    requires IsGraph(g) && n < |g|
  {
    if g[n].Operator? then VisitArgs(g, n, |g[n].args|, done) else done
  }

  /** The finished nodes after visits to the first i dependents; a dependent is finished even if it is an alias. */
  ghost function VisitDependents(g: Graph, dependents: seq<nat>, i: nat): seq<nat>
    requires IsGraph(g) && i <= |dependents| && forall x :: 0 <= x < i ==> dependents[x] < |g|
  {
    if i == 0 then []
    else
      var n, before := dependents[i - 1], VisitDependents(g, dependents, i - 1);
      if n in before then before else VisitBelow(g, n, before) + [n]
  }

  // ---------------------------------------------------------------------------------------------
  // What is left to do for a stack

  ghost function FinishFrame(g: Graph, f: Frame, done: seq<nat>): seq<nat>
    requires IsGraph(g) && IsFrame(g, f)
  {
    var n := FrameNode(g, f);
    match f.step
    case Analyze => Visit(g, n, done)
    case ChildrenVisited => Leave(g, n, done)
    case Exit => done
  }

  /** The finished nodes when all elements of the stack are gone. */
  ghost function Finish(g: Graph, s: Stack, done: seq<nat>): seq<nat>
    requires IsGraph(g) && IsStack(g, s)
    decreases |s|
  {
    if s == [] then done else Finish(g, s[..|s| - 1], FinishFrame(g, s[|s| - 1], done))
  }

  lemma {:induction false} FinishConcat(g: Graph, s: Stack, t: Stack, done: seq<nat>)
    requires IsGraph(g) && IsStack(g, s) && IsStack(g, t)
    ensures Finish(g, s + t, done) == Finish(g, s, Finish(g, t, done))
    decreases |t|
  {
    if t == [] {
      assert s + t == s;
    } else {
      var top := |t| - 1;
      assert (s + t)[|s + t| - 1] == t[top] && (s + t)[..|s + t| - 1] == s + t[..top];
      FinishConcat(g, s, t[..top], FinishFrame(g, t[top], done));
    }
  }

  lemma {:induction false} FinishOne(g: Graph, f: Frame, done: seq<nat>)
    requires IsGraph(g) && IsFrame(g, f)
    ensures Finish(g, [f], done) == FinishFrame(g, f, done)
  {
    assert [f][..0] == [];
  }

  /** The pushed elements stand for visits to the arguments, first to last. */
  lemma {:induction false} FinishArgs(g: Graph, n: nat, k: nat, done: seq<nat>)
    requires IsGraph(g) && n < |g| && g[n].Operator? && k <= |g[n].args|
    ensures Finish(g, ArgFrames(g, n, k), done) == VisitArgs(g, n, k, done)
    decreases k
  {
    if k > 0 {
      FinishArgs(g, n, k - 1, done);
      if g[n].args[k - 1].Operation? {
        var f := Frame(n, k - 1, Analyze);
        FinishConcat(g, [f], ArgFrames(g, n, k - 1), done);
        FinishOne(g, f, VisitArgs(g, n, k - 1, done));
      }
    }
  }

  lemma {:induction false} FinishPushed(g: Graph, n: nat, done: seq<nat>)
    requires IsGraph(g) && n < |g|
    ensures Finish(g, Pushed(g, n), done) == VisitBelow(g, n, done)
  {
    if g[n].Operator? {
      FinishArgs(g, n, |g[n].args|, done);
    }
  }

  /** Entering a node leaves what is to be done as it was. */
  lemma {:induction false} FinishEnter(g: Graph, s: Stack, done: seq<nat>)
    requires IsGraph(g) && IsStack(g, s) && s != [] && s[|s| - 1].step == Analyze
    requires FrameNode(g, s[|s| - 1]) !in done
    ensures var top, n := |s| - 1, FrameNode(g, s[|s| - 1]);
      && n < |g| && IsStack(g, s[top := s[top].(step := ChildrenVisited)] + Pushed(g, n))
      && Finish(g, s[top := s[top].(step := ChildrenVisited)] + Pushed(g, n), done) == Finish(g, s, done)
  {
    var top := |s| - 1;
    var n := FrameNode(g, s[top]);
    var f := s[top].(step := ChildrenVisited);
    assert IsFrame(g, f) && s[top := f] == s[..top] + [f];
    FinishConcat(g, s[top := f], Pushed(g, n), done);
    FinishPushed(g, n, done);
    FinishConcat(g, s[..top], [f], VisitBelow(g, n, done));
    FinishOne(g, f, VisitBelow(g, n, done));
  }

  /** A node that is finished is passed by. */
  lemma {:induction false} FinishExit(g: Graph, s: Stack, done: seq<nat>)
    requires IsGraph(g) && IsStack(g, s) && s != [] && s[|s| - 1].step == Analyze
    requires FrameNode(g, s[|s| - 1]) in done
    ensures IsStack(g, s[|s| - 1 := s[|s| - 1].(step := Exit)])
    ensures Finish(g, s[|s| - 1 := s[|s| - 1].(step := Exit)], done) == Finish(g, s, done)
  {
    var top := |s| - 1;
    var f := s[top].(step := Exit);
    assert IsFrame(g, f) && s[top := f][..top] == s[..top];
  }

  /** The top element is done with. */
  lemma {:induction false} FinishPop(g: Graph, s: Stack, done: seq<nat>)
    requires IsGraph(g) && IsStack(g, s) && s != []
    ensures IsStack(g, s[..|s| - 1])
    ensures Finish(g, s, done) == Finish(g, s[..|s| - 1], FinishFrame(g, s[|s| - 1], done))
    ensures var n := FrameNode(g, s[|s| - 1]);
      s[|s| - 1].step != Analyze ==>
        n < |g| && FinishFrame(g, s[|s| - 1], done) == if s[|s| - 1].step == Exit then done else Leave(g, n, done)
  {}

  // ---------------------------------------------------------------------------------------------
  // The queue

  /** The nodes of a list that need a statement. */
  ghost function Needed(g: Graph, dependents: seq<nat>, creates: seq<bool>, requiresVariable: (Op, nat) -> bool,
                        done: seq<nat>): seq<nat>
    requires |creates| == |g|
  {
    if done == [] then []
    else
      var last := |done| - 1;
      Needed(g, dependents, creates, requiresVariable, done[..last]) +
      if NeedsStatement(g, dependents, creates, requiresVariable, done[last]) then [done[last]] else []
  }

  /** The marks and the queue are those after the nodes of a list were finished, in this order. */
  ghost predicate Follows(g: Graph, dependents: seq<nat>, creates: seq<bool>, requiresVariable: (Op, nat) -> bool,
                          visited: seq<bool>, queue: seq<nat>, done: seq<nat>) {
    && |visited| == |creates| == |g|
    && (forall n :: 0 <= n < |g| ==> (visited[n] <==> n in done))
    && queue == Needed(g, dependents, creates, requiresVariable, done)
  }

  lemma {:induction false} FollowsNext(g: Graph, dependents: seq<nat>, creates: seq<bool>,
                                       requiresVariable: (Op, nat) -> bool, visited: seq<bool>, queue: seq<nat>,
                                       done: seq<nat>, n: nat)
    requires Follows(g, dependents, creates, requiresVariable, visited, queue, done) && n < |g|
    ensures |visited| == |creates| == |g|
    ensures Follows(g, dependents, creates, requiresVariable, visited[n := true],
      queue + if NeedsStatement(g, dependents, creates, requiresVariable, n) then [n] else [], done + [n])
  {
    hide NeedsStatement;
    assert (done + [n])[..|done|] == done;
  }

  lemma {:induction false} FollowsLeave(g: Graph, dependents: seq<nat>, creates: seq<bool>,
                                        requiresVariable: (Op, nat) -> bool, visited: seq<bool>, queue: seq<nat>,
                                        done: seq<nat>, n: nat)
    requires Follows(g, dependents, creates, requiresVariable, visited, queue, done) && n < |g|
    ensures |visited| == |creates| == |g|
    ensures Follows(g, dependents, creates, requiresVariable,
      if IsAlias(g, n) then visited else visited[n := true],
      queue + if !visited[n] && !IsAlias(g, n) && NeedsStatement(g, dependents, creates, requiresVariable, n)
              then [n] else [],
      Leave(g, n, done))
  {
    FollowsNext(g, dependents, creates, requiresVariable, visited, queue, done, n);
    hide NeedsStatement, Needed;
    if visited[n] {
      assert visited[n := true] == visited;
    }
  }

  /** The queue has the nodes below the dependents that need a statement in the order of the recursion. */
  ghost predicate IsDepthFirst(g: Graph, dependents: seq<nat>, creates: seq<bool>, requiresVariable: (Op, nat) -> bool,
                               queue: seq<nat>) {
    && IsGraph(g) && |creates| == |g| && (forall x :: 0 <= x < |dependents| ==> dependents[x] < |g|)
    && queue == Needed(g, dependents, creates, requiresVariable, VisitDependents(g, dependents, |dependents|))
  }

  lemma {:induction false} VisitedDependents(g: Graph, dependents: seq<nat>, i: nat)
    requires IsGraph(g) && i < |dependents| && forall x :: 0 <= x < |dependents| ==> dependents[x] < |g|
    ensures VisitDependents(g, dependents, 0) == []
    ensures var n, done := dependents[i], VisitDependents(g, dependents, i);
      VisitDependents(g, dependents, i + 1) == if n in done then done else VisitBelow(g, n, done) + [n]
  {}

  lemma {:induction false} NothingDone(g: Graph, dependents: seq<nat>, creates: seq<bool>,
                                       requiresVariable: (Op, nat) -> bool)
    requires |creates| == |g|
    ensures Follows(g, dependents, creates, requiresVariable, seq(|g|, _ => false), [], [])
  {}

  lemma {:induction false} AllDone(g: Graph, dependents: seq<nat>, creates: seq<bool>,
                                   requiresVariable: (Op, nat) -> bool, visited: seq<bool>, queue: seq<nat>)
    requires IsGraph(g) && forall x :: 0 <= x < |dependents| ==> dependents[x] < |g|
    requires Follows(g, dependents, creates, requiresVariable, visited, queue,
               VisitDependents(g, dependents, |dependents|))
    ensures IsDepthFirst(g, dependents, creates, requiresVariable, queue)
  {}
}
