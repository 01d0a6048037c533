/**
  Source generation for one scope: the order in which variables are computed, the ids they get, and
  the reuse of temporary variables.
 */
module CodeHandlers {
  import opened OperationGraph
  import opened LiveNodes
  import opened EvaluationQueue
  import opened EvaluationOrder
  import opened LastUsage
  import opened TemporaryReuse
  import opened UsageCount
  import opened Execution
  import opened VariableIds
  import opened DepthFirst

  class CodeHandler {
    // the managed nodes, and the answers of the target language about them and their use counts
    const nodes: Graph
    const createsNewVariable: (nat, nat) -> bool
    const requiresVariableArgument: (Op, nat) -> bool
    // the dependents that are nodes
    const dependents: seq<nat>

    var totalUseCount: seq<nat>
    var creates: seq<bool>
    var visited: seq<bool>
    var varId: seq<nat>
    var idCount: nat
    var minTemporaryVarID: nat
    var variableOrder: seq<nat>
    var evaluationOrder: seq<nat>
    var lastUsageOrder: seq<nat>

    constructor (nodes: Graph, createsNewVariable: (nat, nat) -> bool, requiresVariableArgument: (Op, nat) -> bool,
                 dependents: seq<nat>)
      ensures this.nodes == nodes && this.createsNewVariable == createsNewVariable
      ensures this.requiresVariableArgument == requiresVariableArgument && this.dependents == dependents
    {
      this.nodes, this.createsNewVariable, this.requiresVariableArgument, this.dependents :=
        nodes, createsNewVariable, requiresVariableArgument, dependents;
      totalUseCount, creates, visited, varId, variableOrder, evaluationOrder, lastUsageOrder :=
        [], [], [], [], [], [], [];
      idCount, minTemporaryVarID := 1, 1;
    }

    /** The graphs, and the languages, for which source is generated here. */
    ghost predicate StraightLine()
    {
      && IsGraph(nodes) && (forall i :: 0 <= i < |dependents| ==> dependents[i] < |nodes|)
      // aliases have one argument, which is a node
      && (forall n :: 0 <= n < |nodes| && Live(nodes, dependents, n) && nodes[n].Operator? && nodes[n].op == Alias ==>
            IsAlias(nodes, n))
      // ordinary operations that are used more than once get a variable
      && (forall n, count :: 0 <= n < |nodes| && nodes[n].Operator? && nodes[n].op != Alias && count > 1 ==>
            createsNewVariable(n, count))
    }

    ghost predicate Input()
      reads this`creates
    {
      StraightLine() && |creates| == |nodes| && CreatesForShared(nodes, dependents, creates)
    }

    /** The state after the first i dependents, and while the next one is processed. */
    ghost predicate Queueing(i: nat)
      reads this
    {
      && Input() && |visited| == |nodes|
      && Ordered(nodes, visited, variableOrder)
      && Identified(nodes, dependents, variableOrder, varId, minTemporaryVarID, idCount) && Unshared(varId)
      && Complete(nodes, dependents, creates, requiresVariableArgument, visited, variableOrder)
      && InTurn(nodes, dependents, i, variableOrder) && Begun(nodes, dependents, i, variableOrder)
      && ExactIds()
    }

    /** Which ids the variables have as long as none are shared. */
    ghost predicate ExactIds()
      reads this`varId, this`minTemporaryVarID, this`variableOrder, this`idCount
    {
      && InterfaceIds(nodes, dependents, varId, minTemporaryVarID)
      && QueueIds(dependents, variableOrder, varId, minTemporaryVarID, idCount)
    }

    /** The use counts are the numbers of uses, and the target language was asked about them. */
    ghost predicate CountsUses()
      reads this`totalUseCount, this`creates
    {
      && IsGraph(nodes) && |totalUseCount| == |creates| == |nodes|
      && forall n :: 0 <= n < |nodes| ==>
           totalUseCount[n] == |LiveUses(nodes, dependents, n)| && creates[n] == createsNewVariable(n, totalUseCount[n])
    }

    ghost function Tallied(uses: seq<set<Use>>, deps: nat): Tally
      reads this`totalUseCount
    {
      Tally(nodes, dependents, totalUseCount, uses, deps)
    }

    /** The analysis of a node whose use is counted: aliases are always followed, other nodes the first time. */
    method CountUse(n: nat, stack: Stack) returns (r: Stack)
      requires StraightLine() && Live(nodes, dependents, n) && n < |nodes| == |totalUseCount|
      modifies this`totalUseCount
      ensures totalUseCount == old(totalUseCount)[n := old(totalUseCount[n]) + 1]
      ensures r == AfterCount(nodes, stack, n, old(totalUseCount[n]) == 0)
    {
      hide Live;
      totalUseCount := totalUseCount[n := totalUseCount[n] + 1];
      if nodes[n].Independent? {
        r := stack;
      } else if nodes[n].op == Alias {
        assert Pushed(nodes, n) == [Frame(n, 0, Analyze)] by {
          AliasFrames(nodes, n);
        }
        r := stack + [Frame(n, 0, Analyze)];
      } else if totalUseCount[n] == 1 {
        r := PushNodeArguments(nodes, n, stack);
      } else {
        r := stack;
      }
    }

    /** `markCodeBlockUsed` for dependent number i. */
    method MarkCodeBlockUsed(i: nat, ghost uses0: seq<set<Use>>) returns (ghost uses: seq<set<Use>>)
      requires StraightLine() && i < |dependents|
      requires Tallied(uses0, i).Counted([], [])
      modifies this`totalUseCount
      ensures Tallied(uses, i + 1).Counted([], [])
    {
      hide *;
      ghost var t := TallyParts(uses0, i, [], []);
      DependentInRange(i);
      CountDependent(t);
      ghost var n, use := dependents[i], Dependent(i);
      uses := uses0[n := uses0[n] + {use}];
      ghost var carried := AfterCarried(nodes, [], n, totalUseCount[n] == 0, use);
      var stack := CountUse(dependents[i], []);
      DependentTallied(t, uses, i);
      CountedStack(Tallied(uses, i + 1), stack, carried);
      while stack != []
        invariant Tallied(uses, i + 1).Counted(stack, carried) && IsStack(nodes, stack) && |carried| == |stack|
        decreases StackWeight(nodes, stack)
      {
        stack, uses, carried := CountTopUse(stack, carried, uses, i + 1);
      }
      assert carried == [];
    }

    lemma {:induction false} DependentInRange(i: nat)
      requires StraightLine() && i < |dependents|
      ensures dependents[i] < |nodes| && Live(nodes, dependents, dependents[i])
    {}

    lemma {:induction false} DependentTallied(t: Tally, uses: seq<set<Use>>, i: nat)
      requires t.Sized() && t.g == nodes && t.dependents == dependents && t.deps == i < |dependents|
      requires dependents[i] < |nodes|
      requires var n := dependents[i];
        totalUseCount == t.count[n := t.count[n] + 1] && uses == t.uses[n := t.uses[n] + {Dependent(i)}]
      ensures Tallied(uses, i + 1) == t.Add(dependents[i], Dependent(i))
      ensures Tallied(uses, i + 1).g == nodes
    {}

    /** One step of the navigation that counts uses. */
    method CountTopUse(stack: Stack, ghost carried0: seq<Use>, ghost uses0: seq<set<Use>>, ghost deps: nat)
        returns (rest: Stack, ghost uses: seq<set<Use>>, ghost carried: seq<Use>)
      requires StraightLine() && Tallied(uses0, deps).Counted(stack, carried0) && stack != [] && IsStack(nodes, stack)
      modifies this`totalUseCount
      ensures Tallied(uses, deps).Counted(rest, carried) && IsStack(nodes, rest) && |carried| == |rest|
      ensures StackWeight(nodes, rest) < StackWeight(nodes, stack)
    {
      hide *;
      ghost var t := TallyParts(uses0, deps, stack, carried0);
      uses, carried := uses0, carried0;
      var top := |stack| - 1;
      var f := stack[top];
      if f.step == Analyze {
        CountTop(t, stack, carried0, Exit);
        CountTop(t, stack, carried0, ChildrenVisited);
        var n := FrameNode(nodes, f);
        var step := if nodes[n].Operator? && nodes[n].op != Alias && totalUseCount[n] == 0 then ChildrenVisited
          else Exit;
        CountCosts(stack, step, totalUseCount[n] == 0);
        ghost var use := carried0[top];
        uses := uses[n := uses[n] + {use}];
        carried := AfterCarried(nodes, carried0, n, totalUseCount[n] == 0, use);
        rest := CountUse(n, stack[..top] + [f.(step := step)]);
        TallyAdded(t, uses, deps, n, use);
        CountedStack(Tallied(uses, deps), rest, carried);
      } else {
        PopTop(t, stack, carried0);
        PopCosts(nodes, stack);
        rest := stack[..top];
        carried := carried0[..top];
      }
    }

    lemma {:induction false} InputParts()
      requires Input()
      ensures StraightLine() && IsGraph(nodes) && |creates| == |nodes|
      ensures forall i :: 0 <= i < |dependents| ==> dependents[i] < |nodes|
    {}

    lemma {:induction false} TallyParts(uses: seq<set<Use>>, deps: nat, stack: Stack, carried: seq<Use>)
      returns (t: Tally)
      requires Tallied(uses, deps).Counted(stack, carried)
      ensures t == Tallied(uses, deps) && t.Counted(stack, carried) && t.Sized()
      ensures t.g == nodes && t.dependents == dependents && t.count == totalUseCount && t.uses == uses && t.deps == deps
      ensures |nodes| == |totalUseCount| == |uses| && |carried| == |stack|
    {
      t := Tallied(uses, deps);
      CountedParts(t, stack, carried);
    }

    lemma {:induction false} TallyAdded(t: Tally, uses: seq<set<Use>>, deps: nat, n: nat, use: Use)
      requires t.Sized() && n < |t.g| && t.g == nodes && t.dependents == dependents && t.deps == deps
      requires totalUseCount == t.count[n := t.count[n] + 1] && uses == t.uses[n := t.uses[n] + {use}]
      requires t.Add(n, use).deps == t.deps
      ensures Tallied(uses, deps) == t.Add(n, use)
    {}

    lemma {:induction false} CountCosts(stack: Stack, step: Step, first: bool)
      requires IsGraph(nodes) && IsStack(nodes, stack) && |stack| > 0 && stack[|stack| - 1].step == Analyze
      requires step != Analyze
      ensures FrameNode(nodes, stack[|stack| - 1]) < |nodes|
      ensures var rest := AfterCount(nodes, stack[..|stack| - 1] + [stack[|stack| - 1].(step := step)],
                                     FrameNode(nodes, stack[|stack| - 1]), first);
        IsStack(nodes, rest) && StackWeight(nodes, rest) < StackWeight(nodes, stack)
    {
      EnterCosts(nodes, stack, step);
    }

    /** The number of times each node is used, and what the target language makes of it. */
    method CountUses()
      requires StraightLine()
      modifies this`totalUseCount, this`creates
      ensures Input() && CountsUses()
    {
      totalUseCount := seq(|nodes|, _ => 0);
      ghost var uses: seq<set<Use>> := seq(|nodes|, _ => {});
      NothingCounted(nodes, dependents);
      hide Tally.Counted, Live, LiveUses;
      for i := 0 to |dependents|
        invariant Tallied(uses, i).Counted([], [])
      {
        uses := MarkCodeBlockUsed(i, uses);
      }
      CountedParts(Tallied(uses, |dependents|), [], []);
      creates := seq(|nodes|, n requires 0 <= n < |totalUseCount| reads this`totalUseCount => createsNewVariable(n,
        totalUseCount[n]));
      forall n | 0 <= n < |nodes|
        ensures totalUseCount[n] == |LiveUses(nodes, dependents, n)|
      {
        CountIsExact(Tallied(uses, |dependents|), n);
      }
      SharedNodesCreate();
    }

    /** A language that gives a variable to every operation used more than once gives one to every shared operation. */
    lemma {:induction false} SharedNodesCreate()
      requires StraightLine() && CountsUses()
      ensures CreatesForShared(nodes, dependents, creates)
    {
      hide LiveUses, Live;
    }

    /** The first ids are for the independent variables. */
    method IndependentIds()
      modifies this`varId, this`idCount
      ensures |varId| == |nodes| && idCount == |IndependentsBefore(nodes, |nodes|)| + 1
      ensures IdsGiven(nodes, dependents, 0, varId, idCount)
    {
      hide IndependentsBefore;
      varId := seq(|nodes|, _ => 0);
      idCount := 1;
      NoIndependents(nodes);
      for n := 0 to |nodes|
        invariant |varId| == |nodes| && idCount == |IndependentsBefore(nodes, n)| + 1
        invariant forall k :: 0 <= k < |nodes| ==>
          if k < n && nodes[k].Independent? then varId[k] == |IndependentsBefore(nodes, k)| + 1 else varId[k] == 0
        invariant forall k :: 0 <= k < n ==> varId[k] < idCount
        invariant forall k, l :: 0 <= k < l < n && nodes[k].Independent? && nodes[l].Independent? ==>
          varId[k] < varId[l]
      {
        IndependentsNext(nodes, n);
        if nodes[n].Independent? {
          varId := varId[n := idCount];
          idCount := idCount + 1;
        }
      }
      InputsGiven(nodes, dependents, varId, idCount);
    }

    /** The next ids are for the dependents that are no independent variables. */
    method InitialIds()
      requires Input()
      modifies this`varId, this`idCount, this`minTemporaryVarID
      ensures Identified(nodes, dependents, [], varId, minTemporaryVarID, idCount) && idCount == minTemporaryVarID
      ensures Unshared(varId) && InterfaceIds(nodes, dependents, varId, minTemporaryVarID)
    {
      hide *;
      IndependentIds();
      InputParts();
      for i := 0 to |dependents|
        invariant |varId| == |nodes| && IdsGiven(nodes, dependents, i, varId, idCount)
      {
        var n := dependents[i];
        IdsGivenNext(nodes, dependents, i, varId, idCount);
        if varId[n] == 0 {
          varId := varId[n := idCount];
          idCount := idCount + 1;
        }
      }
      minTemporaryVarID := idCount;
      AllIdsGiven(nodes, dependents, varId, idCount);
    }

    /** The marks and the queue are those after the nodes of a list were finished, in this order. */
    ghost predicate InDepthFirstOrder(done: seq<nat>)
      reads this`creates, this`visited, this`variableOrder
    {
      Follows(nodes, dependents, creates, requiresVariableArgument, visited, variableOrder, done)
    }

    /** What `checkVariableCreation` does with a node after its arguments were visited. */
    method CompleteAnalysis(f: Frame, ghost i: nat)
      requires Queueing(i) && IsFrame(nodes, f) && i < |dependents| && UnderRoot(nodes, dependents[i], f.parent)
      requires FrameNode(nodes, f) < |nodes| && ArgsSettled(nodes, visited, FrameNode(nodes, f))
      modifies this`visited, this`varId, this`idCount, this`variableOrder
      ensures Queueing(i)
      ensures var n := FrameNode(nodes, f);
        // aliases stay unmarked
        && visited == (if IsAlias(nodes, n) then old(visited) else old(visited)[n := true])
        && Settled(nodes, visited, n)
        && variableOrder == old(variableOrder) +
             if !old(visited[n]) && !IsAlias(nodes, n) && NeedsStatement(nodes, dependents, creates,
                                                                         requiresVariableArgument, n) then [n] else []
    {
      hide ExactIds;
      var arg := FrameNode(nodes, f);
      if visited[arg] {
        assert visited == visited[arg := true];
        return;
      }
      FrameUnderRoot(nodes, dependents, i, f);
      if nodes[arg].Operator? && nodes[arg].op == Alias {
        return;
      }
      FrameDecides(nodes, dependents, creates, requiresVariableArgument, f);
      NotQueuedYet(nodes, visited, variableOrder, arg);
      hide *;
      if nodes[arg].Operator? && (creates[arg] || requiresVariableArgument(nodes[f.parent].op, f.arg)) {
        QueueNode(arg, i);
      } else {
        SkipNode(arg, i);
      }
    }

    /** A node gets a statement, and an id unless it is a dependent. */
    method QueueNode(arg: nat, ghost i: nat)
      requires Queueing(i) && i < |dependents| && arg < |nodes| && !visited[arg] && nodes[arg].Operator?
      requires !IsAlias(nodes, arg)
      requires ArgsSettled(nodes, visited, arg) && Live(nodes, dependents, arg) && arg !in variableOrder
      requires dependents[i] < |nodes| && IsGraph(nodes) && Below(nodes, dependents[i], arg)
      requires NeedsStatement(nodes, dependents, creates, requiresVariableArgument, arg)
      modifies this`visited, this`varId, this`idCount, this`variableOrder
      ensures Queueing(i) && IsGraph(nodes)
      ensures visited == old(visited)[arg := true] && Settled(nodes, visited, arg)
      ensures variableOrder == old(variableOrder) + [arg]
    {
      hide Below, AllSettled, ArgsSettled, Live, Unshared, IsGraph, Identified, Complete, Ordered, CreatesForShared,
        NeedsStatement, InTurn, Begun, InterfaceIds, QueueIds;
      AppendNode(nodes, visited, variableOrder, arg);
      CompleteQueued(nodes, dependents, creates, requiresVariableArgument, visited, variableOrder, arg);
      IdentifyQueued(nodes, dependents, variableOrder, varId, minTemporaryVarID, idCount, arg);
      ExactIdsQueued(arg);
      InTurnQueued(nodes, dependents, i, variableOrder, arg);
      variableOrder := variableOrder + [arg];
      if varId[arg] == 0 {
        varId := varId[arg := idCount];
        idCount := idCount + 1;
      }
      visited := visited[arg := true];
    }

    /** A queued node gets the next id, unless it is a dependent. */
    lemma {:induction false} ExactIdsQueued(n: nat)
      requires Identified(nodes, dependents, variableOrder, varId, minTemporaryVarID, idCount) && ExactIds()
      requires n < |nodes| && nodes[n].Operator? && n !in variableOrder
      ensures |varId| == |nodes| && (varId[n] == 0 <==> n !in dependents)
      ensures n in dependents ==>
        QueueIds(dependents, variableOrder + [n], varId, minTemporaryVarID, idCount)
      ensures n !in dependents ==>
        && InterfaceIds(nodes, dependents, varId[n := idCount], minTemporaryVarID)
        && QueueIds(dependents, variableOrder + [n], varId[n := idCount], minTemporaryVarID, idCount + 1)
    {
      hide InterfaceIds, QueueIds;
      QueueIdsNext(dependents, variableOrder, varId, minTemporaryVarID, idCount, n);
      if n !in dependents {
        InterfaceIdsKept(nodes, dependents, varId, minTemporaryVarID, varId[n := idCount]);
      }
    }

    /** A node is printed where it is used. */
    method SkipNode(arg: nat, ghost i: nat)
      requires Queueing(i) && arg < |nodes| && !visited[arg]
      requires ArgsSettled(nodes, visited, arg) && Live(nodes, dependents, arg) && arg !in variableOrder
      requires !NeedsStatement(nodes, dependents, creates, requiresVariableArgument, arg)
      modifies this`visited
      ensures Queueing(i) && IsGraph(nodes)
      ensures visited == old(visited)[arg := true] && Settled(nodes, visited, arg)
    {
      hide Below, AllSettled, ArgsSettled, Live, Unshared, IsGraph, Identified, Complete, Ordered, CreatesForShared,
        NeedsStatement, InTurn, Begun, ExactIds;
      VisitNode(nodes, visited, variableOrder, arg);
      CompleteVisited(nodes, dependents, creates, requiresVariableArgument, visited, variableOrder, arg);
      visited := visited[arg := true];
    }

    lemma {:induction false} DoneIsVisited(done: seq<nat>, n: nat)
      requires InDepthFirstOrder(done) && n < |nodes|
      ensures |visited| == |nodes| && (visited[n] <==> n in done)
    {}

    lemma {:induction false} NodeLeft(done: seq<nat>, n: nat)
      requires InDepthFirstOrder(done) && n < |nodes|
      ensures |visited| == |creates| == |nodes|
      ensures Follows(nodes, dependents, creates, requiresVariableArgument,
        if IsAlias(nodes, n) then visited else visited[n := true],
        variableOrder + if !visited[n] && !IsAlias(nodes, n) && NeedsStatement(nodes, dependents, creates,
                                                                               requiresVariableArgument, n)
                        then [n] else [],
        Leave(nodes, n, done))
    {
      hide NeedsStatement, Needed;
      FollowsLeave(nodes, dependents, creates, requiresVariableArgument, visited, variableOrder, done, n);
    }

    /** What holds of the top element of the stack. */
    lemma {:induction false} TopParts(stack: Stack, root: nat, done: seq<nat>)
      requires |visited| == |nodes| && stack != [] && Traversal(nodes, stack, visited, root)
      requires AllUnder(nodes, root, stack)
      requires InDepthFirstOrder(done)
      ensures var f := stack[|stack| - 1];
        && IsGraph(nodes) && IsStack(nodes, stack) && IsFrame(nodes, f) && UnderRoot(nodes, root, f.parent)
        && FrameNode(nodes, f) < root && root < |nodes|
        && (visited[FrameNode(nodes, f)] <==> FrameNode(nodes, f) in done)
        && (f.step == Exit ==> Settled(nodes, visited, FrameNode(nodes, f)))
        && (f.step == ChildrenVisited ==> ArgsSettled(nodes, visited, FrameNode(nodes, f)))
    {
      hide Consistent, Awaited, Settled, ArgsSettled, UnderRoot, InDepthFirstOrder;
      TraversalTop(nodes, stack, visited, root);
      DoneIsVisited(done, FrameNode(nodes, stack[|stack| - 1]));
    }

    lemma {:induction false} TopExits(stack: Stack, root: nat, done: seq<nat>)
      requires |visited| == |nodes| && stack != [] && Traversal(nodes, stack, visited, root)
      requires AllUnder(nodes, root, stack)
      requires IsGraph(nodes) && IsStack(nodes, stack) && stack[|stack| - 1].step == Analyze
      requires FrameNode(nodes, stack[|stack| - 1]) in done && FrameNode(nodes, stack[|stack| - 1]) < |nodes|
      requires visited[FrameNode(nodes, stack[|stack| - 1])]
      ensures var rest := stack[|stack| - 1 := stack[|stack| - 1].(step := Exit)];
        && Traversal(nodes, rest, visited, root) && IsStack(nodes, rest) && AllUnder(nodes, root, rest)
        && Finish(nodes, rest, done) == Finish(nodes, stack, done)
        && StackWeight(nodes, rest) < StackWeight(nodes, stack)
    {
      hide Traversal, Finish, StackWeight, Settled, UnderRoot;
      FinishExit(nodes, stack, done);
      VisitedIsSettled(nodes, visited, FrameNode(nodes, stack[|stack| - 1]));
      TraversalLeave(nodes, stack, visited, root);
    }

    lemma {:induction false} TopEnters(stack: Stack, root: nat, done: seq<nat>)
      requires |visited| == |nodes| && stack != [] && Traversal(nodes, stack, visited, root)
      requires AllUnder(nodes, root, stack)
      requires IsGraph(nodes) && IsStack(nodes, stack) && stack[|stack| - 1].step == Analyze
      requires FrameNode(nodes, stack[|stack| - 1]) !in done && FrameNode(nodes, stack[|stack| - 1]) < |nodes|
      ensures var rest := stack[|stack| - 1 := stack[|stack| - 1].(step := ChildrenVisited)]
                          + Pushed(nodes, FrameNode(nodes, stack[|stack| - 1]));
        && Traversal(nodes, rest, visited, root) && IsStack(nodes, rest) && AllUnder(nodes, root, rest)
        && Finish(nodes, rest, done) == Finish(nodes, stack, done)
        && StackWeight(nodes, rest) < StackWeight(nodes, stack)
    {
      hide Traversal, Finish, StackWeight, UnderRoot, IsStack;
      TraversalTop(nodes, stack, visited, root);
      assert IsFrame(nodes, stack[|stack| - 1]) by { FinishPop(nodes, stack, done); }
      ArgumentsUnder(nodes, root, stack[|stack| - 1]);
      FinishEnter(nodes, stack, done);
      TraversalEnter(nodes, stack, visited, root);
    }

    lemma {:induction false} TopPops(stack: Stack, root: nat, marked: seq<bool>, done: seq<nat>)
      requires |visited| == |nodes| && stack != [] && Traversal(nodes, stack, marked, root)
      requires AllUnder(nodes, root, stack)
      requires IsGraph(nodes) && IsStack(nodes, stack) && stack[|stack| - 1].step != Analyze
      requires |marked| == |nodes| && forall n :: 0 <= n < |nodes| && marked[n] ==> visited[n]
      requires Settled(nodes, visited, FrameNode(nodes, stack[|stack| - 1]))
      ensures var rest, n := stack[..|stack| - 1], FrameNode(nodes, stack[|stack| - 1]);
        && Traversal(nodes, rest, visited, root) && IsStack(nodes, rest) && AllUnder(nodes, root, rest) && n < |nodes|
        && Finish(nodes, rest, if stack[|stack| - 1].step == Exit then done else Leave(nodes, n, done)) ==
           Finish(nodes, stack, done)
        && StackWeight(nodes, rest) < StackWeight(nodes, stack)
    {
      hide Traversal, Finish, StackWeight, UnderRoot, Settled;
      FinishPop(nodes, stack, done);
      TraversalPop(nodes, stack, marked, visited, root);
    }

    /** One step of the navigation, on the top element of the stack. */
    method NavigateTop(stack: Stack, ghost i: nat, ghost done: seq<nat>) returns (rest: Stack, ghost done': seq<nat>)
      requires Queueing(i) && i < |dependents| && dependents[i] < |nodes| == |visited| && !visited[dependents[i]]
      requires stack != [] && Traversal(nodes, stack, visited, dependents[i]) && IsStack(nodes, stack)
      requires AllUnder(nodes, dependents[i], stack) && InDepthFirstOrder(done)
      modifies this`visited, this`varId, this`idCount, this`variableOrder
      ensures Queueing(i) && |visited| == |nodes| && !visited[dependents[i]]
      ensures Traversal(nodes, rest, visited, dependents[i]) && IsStack(nodes, rest)
      ensures AllUnder(nodes, dependents[i], rest)
      ensures InDepthFirstOrder(done') && IsGraph(nodes) && Finish(nodes, rest, done') == Finish(nodes, stack, done)
      ensures StackWeight(nodes, rest) < StackWeight(nodes, stack)
      ensures forall n :: 0 <= n < |nodes| && old(visited[n]) ==> visited[n]
    {
      hide *;
      ghost var root := dependents[i];
      ghost var marked := visited;
      TopParts(stack, root, done);
      done' := done;
      var top := |stack| - 1;
      var n := FrameNode(nodes, stack[top]);
      if stack[top].step == Analyze {
        if visited[n] {
          TopExits(stack, root, done);
          rest := stack[top := stack[top].(step := Exit)];
        } else {
          TopEnters(stack, root, done);
          rest := PushNodeArguments(nodes, n, stack[top := stack[top].(step := ChildrenVisited)]);
        }
      } else {
        if stack[top].step == ChildrenVisited {
          NodeLeft(done, n);
          CompleteAnalysis(stack[top], i);
          done' := Leave(nodes, n, done);
          InDepthFirstOrderIs(done');
        }
        TopPops(stack, root, marked, done);
        rest := stack[..top];
      }
    }

    /** `checkVariableCreation`: visits everything below dependent i, operands first. */
    method CheckVariableCreation(root: nat, ghost i: nat, ghost done: seq<nat>) returns (ghost done': seq<nat>)
      requires Queueing(i) && i < |dependents| && root == dependents[i] < |nodes| && !visited[root]
      requires InDepthFirstOrder(done)
      modifies this`visited, this`varId, this`idCount, this`variableOrder
      ensures Queueing(i) && |visited| == |nodes| && IsGraph(nodes) && ArgsSettled(nodes, visited, root)
      // as if the arguments were visited recursively
      ensures InDepthFirstOrder(done') && done' == VisitBelow(nodes, root, done)
      ensures !visited[root] && forall n :: 0 <= n < |nodes| && old(visited[n]) ==> visited[n]
    {
      hide Ordered, Identified, Unshared, Complete, Live, Below, CreatesForShared, Traversal, StackWeight, ArgsSettled,
        InTurn, Begun, ExactIds, InDepthFirstOrder, VisitBelow;
      done' := done;
      var stack := PushNodeArguments(nodes, root, []);
      assert stack == Pushed(nodes, root) && AllUnder(nodes, root, stack);
      FinishPushed(nodes, root, done);
      TraversalStart(nodes, visited, root);
      while stack != []
        invariant Queueing(i) && !visited[root] && Traversal(nodes, stack, visited, root) && IsStack(nodes, stack)
        invariant AllUnder(nodes, root, stack)
        invariant InDepthFirstOrder(done') && Finish(nodes, stack, done') == VisitBelow(nodes, root, done)
        invariant forall n :: 0 <= n < |nodes| && old(visited[n]) ==> visited[n]
        decreases StackWeight(nodes, stack)
      {
        stack, done' := NavigateTop(stack, i, done');
      }
      TraversalEnd(nodes, visited, root);
    }

    /** Exactly the live nodes that need a statement have one. */
    ghost predicate QueuedIfNeeded()
      requires |creates| == |nodes|
      reads this`creates, this`variableOrder
    {
      forall n: nat :: n in variableOrder <==>
        Live(nodes, dependents, n) && NeedsStatement(nodes, dependents, creates, requiresVariableArgument, n)
    }

    /** The part of `generateCode` that determines the order in which variables are computed. */
    method DetermineVariableOrder()
      requires Input()
      modifies this`visited, this`varId, this`idCount, this`minTemporaryVarID, this`variableOrder
      ensures Schedule(nodes, dependents, creates, variableOrder)
      ensures Identified(nodes, dependents, variableOrder, varId, minTemporaryVarID, idCount) && Unshared(varId)
      ensures QueuedIfNeeded() && ExactIds()
      ensures IsDepthFirst(nodes, dependents, creates, requiresVariableArgument, variableOrder)
      ensures InOrder(nodes, variableOrder) <==> AliasesFirst(nodes, dependents)
    {
      hide *;
      InputParts();
      InitialIds();
      visited, variableOrder := seq(|nodes|, _ => false), [];
      StartQueueing();
      ghost var done := [];
      for i := 0 to |dependents|
        invariant Queueing(i) && |visited| == |nodes|
        invariant InDepthFirstOrder(done) && done == VisitDependents(nodes, dependents, i)
        invariant forall x :: 0 <= x < i ==> visited[dependents[x]]
      {
        var code := dependents[i];
        DoneIsVisited(done, code);
        VisitedDependents(nodes, dependents, i);
        if !visited[code] {
          done := CheckVariableCreation(code, i, done);
          DependentDone(done, code);
          QueueDependent(code, i);
          done := done + [code];
          InDepthFirstOrderIs(done);
        } else {
          AlreadyQueued(code, i);
        }
      }
      EndQueueing();
      QueueIsDepthFirst();
    }

    lemma {:induction false} DependentDone(done: seq<nat>, n: nat)
      requires InDepthFirstOrder(done) && n < |nodes|
      ensures |visited| == |creates| == |nodes|
      ensures Follows(nodes, dependents, creates, requiresVariableArgument, visited[n := true],
        variableOrder + if NeedsStatement(nodes, dependents, creates, requiresVariableArgument, n) then [n] else [],
        done + [n])
    {
      hide NeedsStatement, Needed;
      FollowsNext(nodes, dependents, creates, requiresVariableArgument, visited, variableOrder, done, n);
    }

    lemma {:induction false} InDepthFirstOrderIs(done: seq<nat>)
      requires Follows(nodes, dependents, creates, requiresVariableArgument, visited, variableOrder, done)
      ensures InDepthFirstOrder(done)
    {}

    lemma {:induction false} QueueIsDepthFirst()
      requires Input() && IsGraph(nodes) && forall x :: 0 <= x < |dependents| ==> dependents[x] < |nodes|
      requires InDepthFirstOrder(VisitDependents(nodes, dependents, |dependents|))
      ensures IsDepthFirst(nodes, dependents, creates, requiresVariableArgument, variableOrder)
    {
      hide Input;
      AllDone(nodes, dependents, creates, requiresVariableArgument, visited, variableOrder);
    }

    lemma {:induction false} StartQueueing()
      requires Input() && visited == seq(|nodes|, _ => false) && variableOrder == []
      requires Identified(nodes, dependents, [], varId, minTemporaryVarID, idCount) && Unshared(varId)
      requires InterfaceIds(nodes, dependents, varId, minTemporaryVarID) && idCount == minTemporaryVarID
      ensures Queueing(0) && |visited| == |nodes|
      ensures InDepthFirstOrder([]) && IsGraph(nodes) && VisitDependents(nodes, dependents, 0) == []
    {
      NothingDone(nodes, dependents, creates, requiresVariableArgument);
      NothingQueued(nodes, dependents, creates, requiresVariableArgument);
      NoTemporaries(dependents, varId, minTemporaryVarID);
      hide Ordered, Complete, InTurn, Begun, Identified, Unshared, CreatesForShared, InterfaceIds, QueueIds;
    }

    lemma {:induction false} EndQueueing()
      requires Queueing(|dependents|) && |visited| == |nodes|
      requires forall x :: 0 <= x < |dependents| ==> dependents[x] < |nodes| && visited[dependents[x]]
      ensures Schedule(nodes, dependents, creates, variableOrder)
      ensures forall p :: 0 <= p < |variableOrder| ==> variableOrder[p] < |nodes|
      ensures Identified(nodes, dependents, variableOrder, varId, minTemporaryVarID, idCount) && Unshared(varId)
      ensures QueuedIfNeeded() && ExactIds()
      ensures InOrder(nodes, variableOrder) <==> AliasesFirst(nodes, dependents)
    {
      hide Ordered, Identified, Unshared, Complete, Live, Below, CreatesForShared, InTurn, Begun, ExactIds, Schedule,
        NeedsStatement, AliasesFirst, InOrder;
      QueueIsSchedule(nodes, dependents, creates, requiresVariableArgument, visited, variableOrder);
      ScheduleInRange(nodes, dependents, creates, variableOrder);
      InOrderIfAliasesFirst(nodes, dependents, creates, variableOrder);
    }

    /** A dependent that was visited before its turn is queued. */
    lemma {:induction false} AlreadyQueued(code: nat, i: nat)
      requires Queueing(i) && i < |dependents| && code == dependents[i] && visited[code]
      ensures Queueing(i + 1) && |visited| == |nodes|
    {
      hide Ordered, Identified, Unshared, Live, Below, CreatesForShared, InTurn, Begun, ExactIds;
      InTurnNext(nodes, dependents, i, variableOrder, variableOrder);
    }

    /** A dependent is queued after everything below it, unless it is an independent variable. */
    method QueueDependent(code: nat, ghost i: nat)
      requires Queueing(i) && i < |dependents| && code == dependents[i] < |nodes| && !visited[code]
      requires ArgsSettled(nodes, visited, code)
      modifies this`visited, this`variableOrder
      ensures Queueing(i + 1) && |visited| == |creates| == |nodes| && visited == old(visited)[code := true]
      ensures variableOrder == old(variableOrder) +
        if NeedsStatement(nodes, dependents, creates, requiresVariableArgument, code) then [code] else []
    {
      hide *;
      QueueingParts(i);
      DependentIsLive(nodes, dependents);
      NotQueuedYet(nodes, visited, variableOrder, code);
      IdOfDependent(nodes, dependents, variableOrder, varId, minTemporaryVarID, idCount, i);
      DependentNeedsStatement(nodes, dependents, creates, requiresVariableArgument, code);
      AfterDependentIs(nodes, code, variableOrder);
      if varId[code] == 0 || !nodes[code].Independent? {
        OutputQueued(code);
        AppendNode(nodes, visited, variableOrder, code);
        CompleteQueued(nodes, dependents, creates, requiresVariableArgument, visited, variableOrder, code);
        InTurnNext(nodes, dependents, i, variableOrder, variableOrder + [code]);
        variableOrder := variableOrder + [code];
        ExactIdsAre();
      } else {
        VisitNode(nodes, visited, variableOrder, code);
        CompleteVisited(nodes, dependents, creates, requiresVariableArgument, visited, variableOrder, code);
        InTurnNext(nodes, dependents, i, variableOrder, variableOrder);
      }
      visited := visited[code := true];
      QueueingIs(i + 1);
    }

    lemma {:induction false} OutputQueued(code: nat)
      requires ExactIds() && code in dependents && code !in variableOrder && code < |varId|
      ensures InterfaceIds(nodes, dependents, varId, minTemporaryVarID)
      ensures QueueIds(dependents, variableOrder + [code], varId, minTemporaryVarID, idCount)
    {
      hide InterfaceIds, QueueIds;
      QueueIdsNext(dependents, variableOrder, varId, minTemporaryVarID, idCount, code);
    }

    lemma {:induction false} ExactIdsAre()
      requires InterfaceIds(nodes, dependents, varId, minTemporaryVarID)
      requires QueueIds(dependents, variableOrder, varId, minTemporaryVarID, idCount)
      ensures ExactIds()
    {}

    lemma {:induction false} QueueingParts(i: nat)
      requires Queueing(i)
      ensures Input() && IsGraph(nodes) && |visited| == |creates| == |nodes|
      ensures forall x :: 0 <= x < |dependents| ==> dependents[x] < |nodes|
      ensures Ordered(nodes, visited, variableOrder)
      ensures Identified(nodes, dependents, variableOrder, varId, minTemporaryVarID, idCount) && Unshared(varId)
      ensures |varId| == |nodes|
      ensures Complete(nodes, dependents, creates, requiresVariableArgument, visited, variableOrder)
      ensures InTurn(nodes, dependents, i, variableOrder) && Begun(nodes, dependents, i, variableOrder)
      ensures ExactIds()
    {
      hide Ordered, Unshared, Complete, InTurn, Begun, CreatesForShared, ExactIds;
    }

    lemma {:induction false} QueueingIs(i: nat)
      requires Input() && |visited| == |creates| == |nodes| && Ordered(nodes, visited, variableOrder)
      requires Identified(nodes, dependents, variableOrder, varId, minTemporaryVarID, idCount) && Unshared(varId)
      requires Complete(nodes, dependents, creates, requiresVariableArgument, visited, variableOrder)
      requires InTurn(nodes, dependents, i, variableOrder) && Begun(nodes, dependents, i, variableOrder) && ExactIds()
      ensures Queueing(i)
    {
      hide Input, Ordered, Identified, Unshared, Complete, InTurn, Begun, ExactIds;
    }

    /** The analysis of the top element, which is taken off the stack. */
    method NumberTop(stack: Stack, ghost count: nat) returns (rest: Stack)
      requires Schedule(nodes, dependents, creates, variableOrder)
      requires Numbering(nodes, dependents, variableOrder, evaluationOrder, count, stack) && |stack| > 0
      requires AllAnalyze(stack)
      modifies this`evaluationOrder
      ensures Numbering(nodes, dependents, variableOrder, evaluationOrder, count, rest)
      ensures StackWeight(nodes, rest) < StackWeight(nodes, stack)
      ensures AllAnalyze(rest)
    {
      hide Schedule, Positions, Inlined, Supplied, FramesOf, Below;
      var top := |stack| - 1;
      var f := stack[top];
      TopFrame(nodes, dependents, variableOrder, evaluationOrder, count, stack);
      ExpandCosts(nodes, stack);
      var arg := FrameNode(nodes, f);
      if evaluationOrder[arg] == 0 {
        NumberNode(nodes, dependents, creates, variableOrder, evaluationOrder, count, stack);
        evaluationOrder := evaluationOrder[arg := evaluationOrder[f.parent]];
        rest := PushNodeArguments(nodes, arg, stack[..top]);
      } else {
        SkipNumbered(nodes, dependents, variableOrder, evaluationOrder, count, stack);
        rest := stack[..top];
      }
    }

    /** `dependentAdded2EvaluationQueue`: nodes needed by a queued node get its order, unless they have one. */
    method DependentAdded2EvaluationQueue(count: nat)
      requires Schedule(nodes, dependents, creates, variableOrder) && count < |variableOrder|
      requires Numbering(nodes, dependents, variableOrder, evaluationOrder, count, Pushed(nodes, variableOrder[count]))
      modifies this`evaluationOrder
      ensures |evaluationOrder| == |nodes| && Numbered(nodes, dependents, variableOrder, evaluationOrder, count + 1)
    {
      PushedAnalyze(nodes, dependents, creates, variableOrder, count);
      hide Schedule, Numbering, Numbered, AllAnalyze, StackWeight, IsGraph, IsStack, Pushed;
      var stack := PushNodeArguments(nodes, variableOrder[count], []);
      assert stack == Pushed(nodes, variableOrder[count]);
      while stack != []
        invariant Numbering(nodes, dependents, variableOrder, evaluationOrder, count, stack) && IsGraph(nodes)
        invariant IsStack(nodes, stack)
        invariant AllAnalyze(stack)
        decreases StackWeight(nodes, stack)
      {
        stack := NumberTop(stack, count);
      }
      EndNumbering(nodes, dependents, variableOrder, evaluationOrder, count);
    }

    /** The loop that numbers the queued nodes. */
    method SetEvaluationOrders()
      requires Schedule(nodes, dependents, creates, variableOrder) && Input()
      modifies this`evaluationOrder
      ensures AllNumbered(nodes, dependents, creates, variableOrder, evaluationOrder)
    {
      hide *;
      InputParts();
      evaluationOrder := seq(|nodes|, _ => 0);
      NothingNumbered(nodes, dependents, creates, variableOrder);
      for p := 0 to |variableOrder|
        invariant |evaluationOrder| == |nodes| && Numbered(nodes, dependents, variableOrder, evaluationOrder, p)
      {
        StartNumbering(nodes, dependents, creates, variableOrder, evaluationOrder, p);
        evaluationOrder := evaluationOrder[variableOrder[p] := p + 1];
        DependentAdded2EvaluationQueue(p);
      }
      EverythingNumbered();
    }

    lemma {:induction false} EverythingNumbered()
      requires Schedule(nodes, dependents, creates, variableOrder) && Input()
      requires Numbered(nodes, dependents, variableOrder, evaluationOrder, |variableOrder|)
      ensures AllNumbered(nodes, dependents, creates, variableOrder, evaluationOrder)
    {
      hide Schedule, Numbered, CreatesForShared;
    }

    /** What a live node is a name of. */
    method GetOperationFromAlias(alias: nat) returns (aa: nat)
      requires StraightLine() && alias < |nodes| && Live(nodes, dependents, alias)
      ensures aa == Resolve(nodes, alias)
    {
      hide Live;
      aa := alias;
      while nodes[aa].Operator? && nodes[aa].op == Alias
        invariant aa < |nodes| && Live(nodes, dependents, aa) && Resolve(nodes, aa) == Resolve(nodes, alias)
        decreases aa
      {
        LiveArg(nodes, dependents, aa, Target(nodes, aa));
        aa := nodes[aa].args[0].node;
      }
    }

    /** What a node reads, by whatever name, learns that it is used in the statement of the node. */
    method CountUsage(node: nat)
      requires StraightLine() && node < |nodes| && Live(nodes, dependents, node)
      requires |evaluationOrder| == |lastUsageOrder| == |nodes|
      modifies this`lastUsageOrder
      ensures |lastUsageOrder| == |nodes|
      ensures UseCounted(nodes, evaluationOrder, node, old(lastUsageOrder), lastUsageOrder)
    {
      hide Live, Takes;
      if nodes[node].Operator? {
        var args := nodes[node].args;
        for k := 0 to |args|
          invariant |lastUsageOrder| == |nodes|
          invariant forall t: nat :: t < |nodes| ==>
            lastUsageOrder[t] == if TakenBy(nodes, node, k, t)
              && old(lastUsageOrder[t]) < evaluationOrder[node] then evaluationOrder[node]
                                 else old(lastUsageOrder[t])
        {
          TakenNext(nodes, node, k);
          if args[k].Operation? {
            ArgumentIsLive(nodes, dependents, node, k);
            var aa := GetOperationFromAlias(args[k].node);
            if lastUsageOrder[aa] < evaluationOrder[node] {
              lastUsageOrder := lastUsageOrder[aa := evaluationOrder[node]];
            }
          }
        }
        AllTaken(nodes, node);
      } else {
        NoneTaken(nodes, node);
      }
    }

    /** `determineLastTempVarUsage`. */
    method DetermineLastTempVarUsage(root: nat, ghost done: set<nat>) returns (ghost done': set<nat>)
      requires StraightLine() && Usage(nodes, dependents, evaluationOrder, visited, lastUsageOrder, done, [])
      requires root < |nodes| && Live(nodes, dependents, root)
      modifies this`visited, this`lastUsageOrder
      ensures Usage(nodes, dependents, evaluationOrder, visited, lastUsageOrder, done', [])
      ensures |visited| == |nodes| && visited[root] && forall n :: 0 <= n < |nodes| && old(visited[n]) ==> visited[n]
    {
      done' := done;
      var stack := [Visit(root, Analyze)];
      UsageStart(nodes, dependents, evaluationOrder, visited, lastUsageOrder, done, root);
      hide Live, UsedIn, VisitWeight, Unvisited;
      while stack != []
        invariant Usage(nodes, dependents, evaluationOrder, visited, lastUsageOrder, done', stack)
        invariant forall n :: 0 <= n < |nodes| && old(visited[n]) ==> visited[n]
        invariant visited[root] || stack == [Visit(root, Analyze)]
        decreases VisitWeight(nodes, stack)
      {
        var top := |stack| - 1;
        var node := stack[top].node;
        if stack[top].step == Analyze {
          UsageEnter(nodes, dependents, evaluationOrder, visited, lastUsageOrder, done', stack);
          visited := visited[node := true];
          stack := stack[..top] + [Visit(node, ChildrenVisited)] + Unvisited(nodes, node, visited);
        } else {
          ghost var before := lastUsageOrder;
          CountUsage(node);
          UsageLeave(nodes, dependents, evaluationOrder, visited, before, done', stack, lastUsageOrder);
          done' := done' + {node};
          stack := stack[..top];
        }
      }
    }

    /** The first part of `reduceTemporaryVariables`: the last use of everything. */
    method DetermineLastUsages()
      requires Input() && AllNumbered(nodes, dependents, creates, variableOrder, evaluationOrder)
      modifies this`visited, this`lastUsageOrder
      ensures |evaluationOrder| == |nodes| && LastUses(nodes, dependents, evaluationOrder, lastUsageOrder)
    {
      hide *;
      InputParts();
      OrderSize(nodes, dependents, creates, variableOrder, evaluationOrder);
      visited, lastUsageOrder := seq(|nodes|, _ => false), seq(|nodes|, _ => 0);
      NothingUsed(nodes, dependents, evaluationOrder);
      ghost var done: set<nat> := {};
      DependentIsLive(nodes, dependents);
      for i := 0 to |dependents|
        invariant Usage(nodes, dependents, evaluationOrder, visited, lastUsageOrder, done, [])
        invariant |visited| == |nodes| == |evaluationOrder|
        invariant forall x :: 0 <= x < i ==> visited[dependents[x]]
      {
        var node := dependents[i];
        if !visited[node] {
          done := DetermineLastTempVarUsage(node, done);
        }
      }
      UsageEnd(nodes, dependents, evaluationOrder, visited, lastUsageOrder, done);
    }

    ghost function Temporaries(): Uses
      reads this`variableOrder, this`lastUsageOrder
    {
      Uses(variableOrder, dependents, lastUsageOrder)
    }

    /** Whether a queued node is a temporary shows in its id. */
    ghost predicate TemporaryIds()
      reads this`varId, this`variableOrder, this`minTemporaryVarID
    {
      |varId| == |nodes| &&
      forall p :: 0 <= p < |variableOrder| ==>
        variableOrder[p] < |nodes| && (varId[variableOrder[p]] >= minTemporaryVarID <==>
          variableOrder[p] !in dependents)
    }

    /** The temporaries released by every statement: those it reads for the last time. */
    method CollectReleases() returns (tempVarRelease: seq<seq<nat>>)
      requires Temporaries().Valid() && |lastUsageOrder| == |nodes| && TemporaryIds()
      ensures Releases(Temporaries(), |variableOrder|, tempVarRelease)
      ensures AllInQueueOrder(Temporaries(), tempVarRelease)
    {
      hide AllInQueueOrder;
      ghost var u := Temporaries();
      tempVarRelease := seq(|variableOrder|, _ => []);
      NothingReleased(u, tempVarRelease);
      for p := 0 to |variableOrder|
        invariant Releases(u, p, tempVarRelease) && AllInQueueOrder(u, tempVarRelease)
      {
        var v := variableOrder[p];
        ReleasesNext(u, p, tempVarRelease);
        if u.Temporary(p) {
          InQueueOrderNext(u, p, tempVarRelease, lastUsageOrder[v] - 1);
        }
        if varId[v] >= minTemporaryVarID {
          var releaseLocation := lastUsageOrder[v] - 1;
          tempVarRelease := tempVarRelease[releaseLocation := tempVarRelease[releaseLocation] + [v]];
        }
      }
    }

    /** The ids of the temporaries that statement i reads for the last time go to the free list. */
    method Release(released: seq<nat>, free: seq<nat>, ghost u: Uses, ghost i: nat, ghost minId: nat,
                   ghost holders: seq<nat>)
      returns (freedVariables: seq<nat>, ghost holders': seq<nat>)
      requires Allocated(u, i, {}, varId, free, minId, idCount) && |varId| == |nodes|
      requires forall r :: 0 <= r < |released| ==> HeldNode(u, i, released[r])
      requires forall r :: 0 <= r < |released| ==> released[r] < |u.lastUse| && u.lastUse[released[r]] == i + 1
      requires forall r, t :: 0 <= r < t < |released| ==> released[r] != released[t]
      requires InQueueOrder(u, released) && Stacked(u, varId, i, {}, free, holders)
      ensures Allocated(u, i, Elements(released), varId, freedVariables, minId, idCount)
      ensures Stacked(u, varId, i, Elements(released), freedVariables, holders')
      ensures |holders'| == |freedVariables|
    {
      hide *;
      freedVariables, holders' := free, holders;
      NothingReleasedYet(released);
      StackSize(u, varId, i, {}, free, holders);
      for r := 0 to |released|
        invariant Allocated(u, i, Elements(released[..r]), varId, freedVariables, minId, idCount)
        invariant Stacked(u, varId, i, Elements(released[..r]), freedVariables, holders')
        invariant |holders'| == |freedVariables|
      {
        ghost var p := ReleaseNext(u, i, released, r, varId, freedVariables, holders', minId, idCount);
        freedVariables := freedVariables + [varId[released[r]]];
        holders' := holders' + [p];
      }
      assert released[..|released|] == released;
    }

    /** The variable of statement i takes the id freed last, or a new one if there is none. */
    method AssignTemporary(free: seq<nat>, ghost u: Uses, i: nat, ghost gone: set<nat>, ghost holders: seq<nat>)
      returns (freedVariables: seq<nat>, ghost holders': seq<nat>)
      requires u == Temporaries() && i < |variableOrder| && TemporaryIds()
      requires Allocated(u, i, gone, varId, free, minTemporaryVarID, idCount) && AllReleased(u, i, gone)
      requires Peak(u, i, idCount - minTemporaryVarID)
      requires Stacked(u, varId, i, gone, free, holders) && |holders| == |free| && AllTakeLatest(u, varId, i)
      modifies this`varId, this`idCount
      ensures TemporaryIds() && minTemporaryVarID <= idCount
      ensures Allocated(u, i + 1, {}, varId, freedVariables, minTemporaryVarID, idCount)
      ensures Peak(u, i + 1, idCount - minTemporaryVarID)
      ensures Stacked(u, varId, i + 1, {}, freedVariables, holders') && AllTakeLatest(u, varId, i + 1)
      ensures OtherIdsKept(Temporaries(), old(varId), varId)
    {
      hide NoOverlap, HeldId, Peak, AllReleased, Stacked, AllTakeLatest;
      ghost var before, ids := idCount, varId;
      freedVariables, holders' := free, holders;
      var node := variableOrder[i];
      if varId[node] >= minTemporaryVarID {
        if freedVariables == [] {
          varId := varId[node := idCount];
          idCount := idCount + 1;
          holders' := [];
        } else {
          var id := freedVariables[|freedVariables| - 1];
          freedVariables := freedVariables[..|freedVariables| - 1];
          varId := varId[node := id];
          holders' := holders[..|free| - 1];
        }
        StackAssign(u, i, gone, ids, free, holders, minTemporaryVarID, before, varId[node]);
        AssignId(u, i, gone, ids, free, minTemporaryVarID, before, varId[node], freedVariables, idCount);
      } else {
        StackSkip(u, i, gone, varId, free, holders);
        SkipStatement(u, i, gone, varId, freedVariables, minTemporaryVarID, idCount);
      }
      PeakNext(u, i, varId, freedVariables, minTemporaryVarID, before, idCount);
    }

    /** Statement i releases what it reads for the last time before its own variable takes an id. */
    method ReassignStatement(i: nat, tempVarRelease: seq<seq<nat>>, free: seq<nat>, ghost u: Uses,
                             ghost holders: seq<nat>)
      returns (freedVariables: seq<nat>, ghost holders': seq<nat>)
      requires u == Temporaries() && i < |variableOrder| && TemporaryIds() && minTemporaryVarID <= idCount
      requires u.Valid() && Releases(u, |variableOrder|, tempVarRelease) && AllInQueueOrder(u, tempVarRelease)
      requires Allocated(u, i, {}, varId, free, minTemporaryVarID, idCount) && Peak(u, i, idCount - minTemporaryVarID)
      requires Stacked(u, varId, i, {}, free, holders) && AllTakeLatest(u, varId, i)
      modifies this`varId, this`idCount
      ensures TemporaryIds() && minTemporaryVarID <= idCount
      ensures Allocated(u, i + 1, {}, varId, freedVariables, minTemporaryVarID, idCount)
      ensures Peak(u, i + 1, idCount - minTemporaryVarID)
      ensures Stacked(u, varId, i + 1, {}, freedVariables, holders') && AllTakeLatest(u, varId, i + 1)
      ensures OtherIdsKept(u, old(varId), varId)
    {
      hide Allocated, NoOverlap, HeldId, Releases, Peak, AllReleased, HeldNode, Elements, OtherIdsKept, Stacked,
        AllTakeLatest, InQueueOrder;
      ReleaseList(u, i, tempVarRelease, varId, free, minTemporaryVarID, idCount);
      freedVariables, holders' := Release(tempVarRelease[i], free, u, i, minTemporaryVarID, holders);
      freedVariables, holders' :=
        AssignTemporary(freedVariables, u, i, Elements(tempVarRelease[i]), holders');
    }

    /** The last part of `reduceTemporaryVariables`: new ids for the temporaries. */
    method ReassignIds()
      requires Temporaries().Valid() && |varId| == |lastUsageOrder| == |nodes| && TemporaryIds()
      modifies this`varId, this`idCount
      ensures |varId| == |nodes|
      ensures OtherIdsKept(Temporaries(), old(varId), varId)
      ensures forall p :: 0 <= p < |variableOrder| && Temporaries().Temporary(p) ==>
        minTemporaryVarID <= varId[variableOrder[p]] < idCount
      ensures NoOverlap(Temporaries(), varId, |variableOrder|)
      ensures minTemporaryVarID <= idCount && Peak(Temporaries(), |variableOrder|, idCount - minTemporaryVarID)
      // every temporary takes the free id that was released last
      ensures AllTakeLatest(Temporaries(), varId, |variableOrder|)
    {
      hide Allocated, NoOverlap, HeldId, Releases, Peak, AllReleased, HeldNode, Elements, TemporaryIds, Stacked,
        AllTakeLatest, AllInQueueOrder;
      ghost var u, minId := Temporaries(), minTemporaryVarID;
      var tempVarRelease := CollectReleases();
      var freedVariables: seq<nat> := [];
      ghost var holders: seq<nat> := [];
      idCount := minTemporaryVarID;
      NothingAllocated(u, varId, minId);
      NothingStacked(u, varId);
      assert OtherIdsKept(u, old(varId), varId);
      hide OtherIdsKept;
      for i := 0 to |variableOrder|
        invariant u == Temporaries() && TemporaryIds() && minId <= idCount
        invariant Allocated(u, i, {}, varId, freedVariables, minId, idCount) && Peak(u, i, idCount - minId)
        invariant |varId| == |u.lastUse| && Stacked(u, varId, i, {}, freedVariables, holders)
        invariant AllTakeLatest(u, varId, i)
        invariant OtherIdsKept(u, old(varId), varId)
      {
        ghost var before := varId;
        freedVariables, holders := ReassignStatement(i, tempVarRelease, freedVariables, u, holders);
      }
      AllAllocated(u, varId, freedVariables, minId, idCount);
    }

    ghost function Decisions(): Program
      reads this
    {
      Program(nodes, dependents, creates, variableOrder, evaluationOrder, varId, minTemporaryVarID)
    }

    /**
      The part of `generateCode` before the target language takes over: what to compute when, and where
      to keep it.
     */
    method GenerateCode(reuseIDs: bool)
      requires StraightLine()
      modifies this
      ensures Decisions().Valid() && CountsUses() && QueuedIfNeeded()
      ensures IsDepthFirst(nodes, dependents, creates, requiresVariableArgument, variableOrder)
      // the k-th independent has the id k, then come the other dependents; temporaries follow, if ids are not shared
      ensures InterfaceIds(nodes, dependents, varId, minTemporaryVarID)
      ensures !reuseIDs ==> QueueIds(dependents, variableOrder, varId, minTemporaryVarID, idCount)
      // the statements compute the dependents whatever the inputs are, or the order of the dependents is wrong
      ensures Runnable(nodes, variableOrder) && |varId| == |nodes|
      ensures (Correct(Decisions()) <==> AliasesFirst(nodes, dependents))
      // shared ids follow from the last uses of the nodes
      ensures reuseIDs ==>
        && |evaluationOrder| == |nodes| && LastUses(nodes, dependents, evaluationOrder, lastUsageOrder)
        && Temporaries().Valid() && minTemporaryVarID <= idCount && |varId| == |lastUsageOrder|
        && Peak(Temporaries(), |variableOrder|, idCount - minTemporaryVarID)
        && AllTakeLatest(Temporaries(), varId, |variableOrder|)
    {
      hide AllNumbered, Schedule, Identified, Unshared, LastUses, NoOverlap, Peak, OtherIdsKept, Program.Valid,
        Uses.Valid, TemporaryIds, IsGraph,
        CreatesForShared, QueuedIfNeeded, CountsUses, StraightLine, Correct, InOrder, AliasesFirst, Runnable,
        InterfaceIds, QueueIds, AllTakeLatest, IsDepthFirst;
      CountUses();
      DetermineVariableOrder();
      SetEvaluationOrders();
      UniqueIds(nodes, dependents, creates, variableOrder, evaluationOrder, varId, minTemporaryVarID, idCount);
      if reuseIDs {
        ghost var before := Program(nodes, dependents, creates, variableOrder, evaluationOrder, varId,
                                    minTemporaryVarID);
        DetermineLastUsages();
        ghost var u := Uses(variableOrder, dependents, lastUsageOrder);
        Statements(before);
        UsesAreValid(before, u);
        ReadyForReuse();
        ReassignIds();
        ReusedIds(before, u, varId);
        InterfaceStays(before, u, varId);
      }
      GeneratedCodeComputes(Decisions());
    }

    lemma {:induction false} InterfaceStays(before: Program, u: Uses, varId': seq<nat>)
      requires before.Valid() && u.queue == before.queue && u.dependents == before.dependents
      requires OtherIdsKept(u, before.varId, varId') && |before.varId| == |before.g|
      requires InterfaceIds(before.g, before.dependents, before.varId, before.minId)
      ensures InterfaceIds(before.g, before.dependents, varId', before.minId)
    {
      hide InterfaceIds;
      forall n | 0 <= n < |before.g| && (before.g[n].Independent? || n in before.dependents)
        ensures varId'[n] == before.varId[n]
      {
        if n in before.queue {
          OnlyOperations(before, n);
        }
      }
      InterfaceIdsKept(before.g, before.dependents, before.varId, before.minId, varId');
    }

    lemma {:induction false} ReadyForReuse()
      requires Program(nodes, dependents, creates, variableOrder, evaluationOrder, varId, minTemporaryVarID).Valid()
      ensures TemporaryIds() && |varId| == |nodes|
    {
      ghost var c := Program(nodes, dependents, creates, variableOrder, evaluationOrder, varId, minTemporaryVarID);
      forall p | 0 <= p < |variableOrder|
        ensures variableOrder[p] < |nodes|
        ensures (varId[variableOrder[p]] >= minTemporaryVarID <==> variableOrder[p] !in dependents)
      {
        TemporaryShows(c, p);
      }
    }
  }

  lemma {:induction false} OnlyOperations(c: Program, n: nat)
    requires c.Valid() && n in c.queue
    ensures n < |c.g| && c.g[n].Operator?
  {
    hide Live;
    var p :| 0 <= p < |c.queue| && c.queue[p] == n;
    QueuedNode(c.g, c.dependents, c.creates, c.queue, c.order, p);
  }

  lemma {:induction false} CountedStack(t: Tally, stack: Stack, carried: seq<Use>)
    requires t.Counted(stack, carried)
    ensures t.Sized() && IsStack(t.g, stack) && |carried| == |stack|
  {
    CountedParts(t, stack, carried);
    forall p | 0 <= p < |stack|
      ensures IsFrame(t.g, stack[p])
    {
      StackElement(t, stack, carried, p);
    }
  }

  lemma {:induction false} AliasFrames(g: Graph, n: nat)
    requires n < |g| && IsAlias(g, n)
    ensures Pushed(g, n) == [Frame(n, 0, Analyze)]
  {
    assert ArgFrames(g, n, 0) == [];
    assert ArgFrames(g, n, 1) == [Frame(n, 0, Analyze)] + ArgFrames(g, n, 0);
  }

  /** Node n is the root of a traversal, or below it. */
  ghost predicate UnderRoot(g: Graph, root: nat, n: nat) {
    IsGraph(g) && root < |g| && (n == root || Below(g, root, n))
  }

  ghost predicate AllUnder(g: Graph, root: nat, stack: Stack) {
    forall p :: 0 <= p < |stack| ==> UnderRoot(g, root, stack[p].parent)
  }

  lemma {:induction false} ArgumentsUnder(g: Graph, root: nat, f: Frame)
    requires IsGraph(g) && IsFrame(g, f) && f.parent < |g| && UnderRoot(g, root, f.parent)
    ensures UnderRoot(g, root, FrameNode(g, f)) && Below(g, root, FrameNode(g, f))
  {
    ArgIsOlder(g, f.parent, FrameNode(g, f));
    if f.parent != root {
      BelowArg(g, root, f.parent, FrameNode(g, f));
    }
  }

  lemma {:induction false} FrameUnderRoot(g: Graph, dependents: seq<nat>, i: nat, f: Frame)
    requires IsGraph(g) && i < |dependents| && IsFrame(g, f) && UnderRoot(g, dependents[i], f.parent)
    ensures Live(g, dependents, f.parent) && FrameNode(g, f) < |g| && Live(g, dependents, FrameNode(g, f))
    ensures dependents[i] < |g| && Below(g, dependents[i], FrameNode(g, f))
  {
    ArgumentsUnder(g, dependents[i], f);
    if f.parent != dependents[i] {
      BelowIsLive(g, dependents, dependents[i], f.parent);
    }
    LiveArg(g, dependents, f.parent, FrameNode(g, f));
  }

  lemma {:induction false} VisitedIsSettled(g: Graph, visited: seq<bool>, n: nat)
    requires IsGraph(g) && n < |g| == |visited| && visited[n]
    ensures Settled(g, visited, n)
  {}

  lemma {:induction false} ScheduleInRange(g: Graph, dependents: seq<nat>, creates: seq<bool>, queue: seq<nat>)
    requires Schedule(g, dependents, creates, queue)
    ensures forall p :: 0 <= p < |queue| ==> queue[p] < |g|
  {}

  lemma {:induction false} IdOfDependent(g: Graph, dependents: seq<nat>, queue: seq<nat>, varId: seq<nat>, minId: nat,
                                         idCount: nat, i: nat)
    requires Identified(g, dependents, queue, varId, minId, idCount) && i < |dependents| && dependents[i] < |g|
    ensures varId[dependents[i]] != 0 && Identified(g, dependents, queue + [dependents[i]], varId, minId, idCount)
  {}

  /** One of the first k arguments of u is t, or a name of t. */
  ghost predicate TakenBy(g: Graph, u: nat, k: nat, t: nat)
    requires IsGraph(g) && u < |g| && g[u].Operator? && k <= |g[u].args|
  {
    exists j :: 0 <= j < k && g[u].args[j].Operation? && Resolve(g, g[u].args[j].node) == t
  }

  lemma {:induction false} TakenNext(g: Graph, u: nat, k: nat)
    requires IsGraph(g) && u < |g| && g[u].Operator? && k < |g[u].args|
    ensures forall t: nat :: TakenBy(g, u, k + 1, t) <==>
      TakenBy(g, u, k, t) || (g[u].args[k].Operation? && Resolve(g, g[u].args[k].node) == t)
  {
    forall t: nat
      ensures TakenBy(g, u, k + 1, t) <==>
        TakenBy(g, u, k, t) || (g[u].args[k].Operation? && Resolve(g, g[u].args[k].node) == t)
    {
      if g[u].args[k].Operation? && Resolve(g, g[u].args[k].node) == t {
        assert k < k + 1;
      }
    }
  }

  lemma {:induction false} AllTaken(g: Graph, u: nat)
    requires IsGraph(g) && u < |g| && g[u].Operator?
    ensures forall t: nat :: TakenBy(g, u, |g[u].args|, t) <==> Takes(g, u, t)
  {
    forall t: nat
      ensures TakenBy(g, u, |g[u].args|, t) <==> Takes(g, u, t)
    {
      if TakenBy(g, u, |g[u].args|, t) {
        var j: nat :| j < |g[u].args| && g[u].args[j].Operation? && Resolve(g, g[u].args[j].node) == t;
        assert HasArg(g, u, g[u].args[j].node);
      }
      if Takes(g, u, t) {
        var a: nat :| a < |g| && HasArg(g, u, a) && Resolve(g, a) == t;
        var j :| 0 <= j < |g[u].args| && g[u].args[j] == Operation(a);
      }
    }
  }

  lemma {:induction false} NoneTaken(g: Graph, u: nat)
    requires IsGraph(g) && u < |g| && g[u].Independent?
    ensures forall t: nat :: !Takes(g, u, t)
  {}

  lemma {:induction false} ArgumentIsLive(g: Graph, dependents: seq<nat>, u: nat, k: nat)
    requires IsGraph(g) && u < |g| && g[u].Operator? && k < |g[u].args| && g[u].args[k].Operation?
    requires Live(g, dependents, u)
    ensures g[u].args[k].node < |g| && Live(g, dependents, g[u].args[k].node)
  {
    assert HasArg(g, u, g[u].args[k].node);
    LiveArg(g, dependents, u, g[u].args[k].node);
  }

  ghost predicate AllAnalyze(stack: Stack) {
    forall p :: 0 <= p < |stack| ==> stack[p].step == Analyze
  }

  lemma {:induction false} NothingNumbered(g: Graph, dependents: seq<nat>, creates: seq<bool>, queue: seq<nat>)
    requires Schedule(g, dependents, creates, queue)
    ensures Numbered(g, dependents, queue, seq(|g|, _ => 0), 0)
  {}

  lemma {:induction false} OrderSize(g: Graph, dependents: seq<nat>, creates: seq<bool>, queue: seq<nat>,
                                     order: seq<nat>)
    requires AllNumbered(g, dependents, creates, queue, order)
    ensures |order| == |g|
  {}

  lemma {:induction false} PushedAnalyze(g: Graph, dependents: seq<nat>, creates: seq<bool>, queue: seq<nat>,
                                         count: nat)
    requires Schedule(g, dependents, creates, queue) && count < |queue|
    ensures queue[count] < |g| && AllAnalyze(Pushed(g, queue[count]))
  {}

  lemma {:induction false} TopFrame(g: Graph, dependents: seq<nat>, queue: seq<nat>, order: seq<nat>, count: nat,
                                    stack: Stack)
    requires Numbering(g, dependents, queue, order, count, stack) && |stack| > 0
    ensures IsGraph(g) && |order| == |g| && FrameNode(g, stack[|stack| - 1]) < |g|
  {}

  lemma {:induction false} DependentNeedsStatement(g: Graph, dependents: seq<nat>, creates: seq<bool>,
                                                   requiresVariable: (Op, nat) -> bool, n: nat)
    requires |creates| == |g| && n < |g| && n in dependents
    ensures NeedsStatement(g, dependents, creates, requiresVariable, n) <==> g[n].Operator?
  {
    hide Required;
  }

  lemma {:induction false} DependentIsLive(g: Graph, dependents: seq<nat>)
    requires forall x :: 0 <= x < |dependents| ==> dependents[x] < |g|
    ensures forall x :: 0 <= x < |dependents| ==> Live(g, dependents, dependents[x])
  {}

  /** The nodes x, T = x * x, A = another name of T, and D = A + x, with the dependents D and A. */
  method AliasExampleRun(reuseIDs: bool) returns (handler: CodeHandler)
    ensures fresh(handler) && handler.nodes == AliasExample() && handler.dependents == [3, 2]
    // the handler decides on an order in which some dependent comes out wrong
    ensures IsGraph(handler.nodes) && Runnable(handler.nodes, handler.variableOrder)
    ensures |handler.varId| == |handler.nodes| && handler.Decisions().Valid() && !Correct(handler.Decisions())
  {
    hide AliasesFirst, Correct, Runnable, Program.Valid, CodeHandler.CountsUses, CodeHandler.QueuedIfNeeded;
    handler := new CodeHandler(AliasExample(), (n, count) => count > 1, (op, i) => false, [3, 2]);
    ExampleOrder();
    handler.GenerateCode(reuseIDs);
  }
}
