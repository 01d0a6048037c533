/** What the evaluation queue of a straight-line operation graph has to satisfy. */
module EvaluationQueue {
  import opened OperationGraph
  import opened LiveNodes

  /** `creates` answers `createsNewVariable`: an ordinary operation that is used more than once gets a variable. */
  ghost predicate CreatesForShared(g: Graph, dependents: seq<nat>, creates: seq<bool>)
    requires IsGraph(g) && |creates| == |g|
  {
    forall n: nat {:trigger Single(g, dependents, n)} ::
      n < |g| && Live(g, dependents, n) && g[n].Operator? && !IsAlias(g, n) && !creates[n] ==> Single(g, dependents, n)
  }

  /** A live node reads n at an argument for which the target language accepts nothing but a variable. */
  ghost predicate Required(g: Graph, dependents: seq<nat>, requiresVariable: (Op, nat) -> bool, n: nat) {
    exists f {:trigger IsFrame(g, f)} ::
      IsFrame(g, f) && Live(g, dependents, f.parent) && FrameNode(g, f) == n && requiresVariable(g[f.parent].op, f.arg)
  }

  /** Node n has to be computed in a statement of its own; an alias only if it is a dependent. */
  ghost predicate NeedsStatement(g: Graph, dependents: seq<nat>, creates: seq<bool>,
                                 requiresVariable: (Op, nat) -> bool, n: nat)
    requires |creates| == |g|
  {
    && n < |g| && g[n].Operator?
    && (n in dependents || (!IsAlias(g, n) && (creates[n] || Required(g, dependents, requiresVariable, n))))
  }

  /** One look at an argument is enough to know whether its node needs a statement. */
  lemma {:induction false} FrameDecides(g: Graph, dependents: seq<nat>, creates: seq<bool>,
                                        requiresVariable: (Op, nat) -> bool, f: Frame)
    requires IsGraph(g) && |creates| == |g| && IsFrame(g, f) && Live(g, dependents, f.parent) && FrameNode(g, f) < |g|
    requires CreatesForShared(g, dependents, creates) && !IsAlias(g, FrameNode(g, f))
    ensures var n := FrameNode(g, f);
      NeedsStatement(g, dependents, creates, requiresVariable, n) <==>
      g[n].Operator? && (creates[n] || requiresVariable(g[f.parent].op, f.arg))
  {
    var n := FrameNode(g, f);
    LiveArg(g, dependents, f.parent, n);
    if g[n].Operator? && !creates[n] {
      assert Single(g, dependents, n);
      hide Single, Live;
      SingleFrame(g, dependents, f, f);
      if Required(g, dependents, requiresVariable, n) {
        var h :| IsFrame(g, h) && Live(g, dependents, h.parent) && FrameNode(g, h) == n
          && requiresVariable(g[h.parent].op, h.arg);
        SingleFrame(g, dependents, f, h);
      }
    }
  }

  /** The arguments of the visited nodes are settled. */
  ghost predicate AllSettled(g: Graph, visited: seq<bool>)
    requires IsGraph(g) && |visited| == |g|
  {
    forall u: nat :: u < |g| && visited[u] ==> ArgsSettled(g, visited, u)
  }

  lemma {:induction false} SettledArg(g: Graph, visited: seq<bool>, u: nat, a: nat)
    requires IsGraph(g) && |visited| == |g| && AllSettled(g, visited)
    requires u < |g| && Settled(g, visited, u) && HasArg(g, u, a)
    ensures Settled(g, visited, a)
  {
    if visited[u] {
      assert ArgsSettled(g, visited, u);
    } else {
      OnlyTarget(g, u, a);
    }
  }

  lemma {:induction false} SettledBelow(g: Graph, visited: seq<bool>, n: nat, d: nat)
    requires IsGraph(g) && |visited| == |g| && AllSettled(g, visited)
    requires n < |g| && Settled(g, visited, n) && Below(g, n, d)
    ensures Settled(g, visited, d)
  {
    var a: nat :| a < n && HasArg(g, n, a) && (a == d || Below(g, a, d));
    SettledArg(g, visited, n, a);
    if a != d {
      SettledBelow(g, visited, a, d);
    }
  }

  /**
    The queue lists visited nodes, none twice, and every queued node comes after all the queued nodes
    it reads, directly or through nodes that are not queued; queued aliases are excepted.
   */
  ghost predicate Ordered(g: Graph, visited: seq<bool>, queue: seq<nat>) {
    && IsGraph(g) && |visited| == |g| && AllSettled(g, visited)
    && (forall p :: 0 <= p < |queue| ==> queue[p] < |g| && g[queue[p]].Operator? && visited[queue[p]])
    && (forall p, q :: 0 <= p < q < |queue| ==> queue[p] != queue[q])
    && (forall p, d: nat {:trigger Below(g, queue[p], d)} ::
          0 <= p < |queue| && Below(g, queue[p], d) && d in queue && !IsAlias(g, d) ==> d in queue[..p])
  }

  /** Nodes stay settled when one more node, all of whose arguments are, is visited. */
  lemma {:induction false} AllSettledNext(g: Graph, visited: seq<bool>, n: nat)
    requires IsGraph(g) && |visited| == |g| && AllSettled(g, visited) && n < |g| && ArgsSettled(g, visited, n)
    ensures AllSettled(g, visited[n := true])
  {
    forall u: nat, a: nat | u < |g| && visited[n := true][u] && HasArg(g, u, a)
      ensures Settled(g, visited[n := true], a)
    {
      assert ArgsSettled(g, visited, u);
      SettledKept(g, visited, visited[n := true], a);
    }
  }

  /** The next node of the queue, all of whose arguments are settled. */
  lemma {:induction false} AppendNode(g: Graph, visited: seq<bool>, queue: seq<nat>, n: nat)
    requires Ordered(g, visited, queue)
    requires n < |g| && g[n].Operator? && !visited[n] && ArgsSettled(g, visited, n)
    ensures Ordered(g, visited[n := true], queue + [n])
  {
    AllSettledNext(g, visited, n);
    hide AllSettled, ArgsSettled;
    var queue' := queue + [n];
    forall p, d: nat {:trigger Below(g, queue'[p], d)} | 0 <= p < |queue'| && Below(g, queue'[p], d) &&
             d in queue' && !IsAlias(g, d)
      ensures d in queue'[..p]
    {
      if p < |queue| {
        SettledBelow(g, visited, queue[p], d);
        assert d in queue && queue'[..p] == queue[..p];
      } else {
        BelowIsOlder(g, n, d);
        assert d in queue && queue'[..p] == queue;
      }
    }
  }

  /** A node that needs no variable. */
  lemma {:induction false} VisitNode(g: Graph, visited: seq<bool>, queue: seq<nat>, n: nat)
    requires Ordered(g, visited, queue)
    requires n < |g| && ArgsSettled(g, visited, n)
    ensures Ordered(g, visited[n := true], queue)
  {
    AllSettledNext(g, visited, n);
    hide AllSettled, ArgsSettled, Below;
  }

  /**
    The variable ids: independents and dependents have theirs from the start, below `minId`; any other
    node has one exactly if it is queued.
   */
  ghost predicate Identified(g: Graph, dependents: seq<nat>, queue: seq<nat>, varId: seq<nat>, minId: nat,
                             idCount: nat) {
    && |varId| == |g| && 0 < minId <= idCount
    && forall n :: 0 <= n < |g| ==>
         if g[n].Independent? || n in dependents then 0 < varId[n] < minId
         else if n in queue then minId <= varId[n] < idCount
         else varId[n] == 0
  }

  /** No two nodes have the same id. */
  ghost predicate Unshared(varId: seq<nat>) {
    forall n, k :: 0 <= n < k < |varId| && varId[n] != 0 ==> varId[n] != varId[k]
  }

  /** Only live nodes are visited, and exactly those of them are queued that need a statement. */
  ghost predicate Complete(g: Graph, dependents: seq<nat>, creates: seq<bool>, requiresVariable: (Op, nat) -> bool,
                           visited: seq<bool>, queue: seq<nat>)
    requires |creates| == |visited| == |g|
  {
    forall n :: 0 <= n < |g| && visited[n] ==>
      Live(g, dependents, n) && (n in queue <==> NeedsStatement(g, dependents, creates, requiresVariable, n))
  }

  /** A node enters the queue; it gets an id unless it is a dependent, which has one. */
  lemma {:induction false} IdentifyQueued(g: Graph, dependents: seq<nat>, queue: seq<nat>, varId: seq<nat>, minId: nat,
                                          idCount: nat, n: nat)
    requires Identified(g, dependents, queue, varId, minId, idCount) && Unshared(varId) && n < |g| && n !in queue
    requires g[n].Operator?
    ensures |varId| == |g|
    ensures varId[n] == 0 ==>
      Identified(g, dependents, queue + [n], varId[n := idCount], minId, idCount + 1) && Unshared(varId[n := idCount])
    ensures varId[n] != 0 ==> Identified(g, dependents, queue + [n], varId, minId, idCount)
  {
    assert n in queue + [n];
  }

  lemma {:induction false} CompleteQueued(g: Graph, dependents: seq<nat>, creates: seq<bool>,
                                          requiresVariable: (Op, nat) -> bool, visited: seq<bool>, queue: seq<nat>,
                                          n: nat)
    requires |creates| == |visited| == |g| && Complete(g, dependents, creates, requiresVariable, visited, queue)
    requires Live(g, dependents, n) && NeedsStatement(g, dependents, creates, requiresVariable, n)
    ensures Complete(g, dependents, creates, requiresVariable, visited[n := true], queue + [n])
  {
    hide Live, Required;
    assert (queue + [n])[|queue|] == n;
  }

  lemma {:induction false} CompleteVisited(g: Graph, dependents: seq<nat>, creates: seq<bool>,
                                           requiresVariable: (Op, nat) -> bool, visited: seq<bool>, queue: seq<nat>,
                                           n: nat)
    requires |creates| == |visited| == |g| && Complete(g, dependents, creates, requiresVariable, visited, queue)
    requires n < |g| && Live(g, dependents, n) && n !in queue
    requires !NeedsStatement(g, dependents, creates, requiresVariable, n)
    ensures Complete(g, dependents, creates, requiresVariable, visited[n := true], queue)
  {
    hide Live, Required;
  }

  /** A node that was not visited is not in the queue. */
  lemma {:induction false} NotQueuedYet(g: Graph, visited: seq<bool>, queue: seq<nat>, n: nat)
    requires Ordered(g, visited, queue) && n < |g| && !visited[n]
    ensures n !in queue
  {
    hide Below, AllSettled;
  }

  // ---------------------------------------------------------------------------------------------
  // Aliases that are dependents

  /** Every alias among the dependents comes before all dependents that depend on it. */
  ghost predicate AliasesFirst(g: Graph, dependents: seq<nat>)
    requires IsGraph(g)
  {
    forall i, a: nat {:trigger Below(g, dependents[i], a)} ::
      0 <= i < |dependents| && dependents[i] < |g| && a < |g| && IsAlias(g, a) && a in dependents
        && Below(g, dependents[i], a) ==>
        a in dependents[..i]
  }

  /** No statement reads a variable that is computed by a later one. */
  ghost predicate InOrder(g: Graph, queue: seq<nat>)
    requires IsGraph(g) && forall p :: 0 <= p < |queue| ==> queue[p] < |g|
  {
    forall p, d: nat {:trigger Below(g, queue[p], d)} :: 0 <= p < |queue| && Below(g, queue[p], d) && d in queue ==>
      d in queue[..p]
  }

  /** After the first i dependents: the aliases among them are queued in turn. */
  ghost predicate InTurn(g: Graph, dependents: seq<nat>, i: nat, queue: seq<nat>) {
    && IsGraph(g) && i <= |dependents|
    && (forall p :: 0 <= p < |queue| ==> queue[p] < |g|)
    && AliasesQueued(g, dependents, i, queue) && AliasesRead(g, dependents, queue)
    && (forall j :: 0 <= j < i ==> LaterAliases(g, dependents, j, queue))
  }

  /** No alias is queued before its turn. */
  ghost predicate AliasesQueued(g: Graph, dependents: seq<nat>, i: nat, queue: seq<nat>)
    requires i <= |dependents| && forall p :: 0 <= p < |queue| ==> queue[p] < |g|
  {
    forall p :: 0 <= p < |queue| && IsAlias(g, queue[p]) ==> queue[p] in dependents[..i]
  }

  /** If the dependents allow it, aliases are queued before what reads them. */
  ghost predicate AliasesRead(g: Graph, dependents: seq<nat>, queue: seq<nat>)
    requires IsGraph(g) && forall p :: 0 <= p < |queue| ==> queue[p] < |g|
  {
    AliasesFirst(g, dependents) ==>
      forall p, a: nat {:trigger Below(g, queue[p], a)} ::
        0 <= p < |queue| && a < |g| && IsAlias(g, a) && a in dependents && Below(g, queue[p], a) ==> a in queue[..p]
  }

  /** Dependent j is queued before the aliases that follow it. */
  ghost predicate LaterAliases(g: Graph, dependents: seq<nat>, j: nat, queue: seq<nat>)
    requires j < |dependents|
  {
    dependents[j] < |g| && g[dependents[j]].Operator? ==>
      forall a: nat :: a < |g| && IsAlias(g, a) && a in dependents && a !in dependents[..j + 1] ==>
        QueuedWithout(queue, dependents[j], a)
  }

  /** Node d is queued, and a is not queued before it. */
  ghost predicate QueuedWithout(queue: seq<nat>, d: nat, a: nat) {
    exists p :: 0 <= p < |queue| && queue[p] == d && a !in queue[..p]
  }

  lemma {:induction false} QueuedWithoutKept(queue: seq<nat>, n: nat, d: nat, a: nat)
    requires QueuedWithout(queue, d, a)
    ensures QueuedWithout(queue + [n], d, a)
  {
    var p :| 0 <= p < |queue| && queue[p] == d && a !in queue[..p];
    assert (queue + [n])[p] == d && (queue + [n])[..p] == queue[..p];
  }

  /** The operations among the first i dependents are queued. */
  ghost predicate Begun(g: Graph, dependents: seq<nat>, i: nat, queue: seq<nat>) {
    forall j :: 0 <= j < i && j < |dependents| && dependents[j] < |g| && g[dependents[j]].Operator? ==>
      dependents[j] in queue
  }

  lemma {:induction false} LaterAliasesKept(g: Graph, dependents: seq<nat>, j: nat, queue: seq<nat>, n: nat)
    requires j < |dependents| && LaterAliases(g, dependents, j, queue)
    ensures LaterAliases(g, dependents, j, queue + [n])
  {
    forall a: nat | QueuedWithout(queue, dependents[j], a)
      ensures QueuedWithout(queue + [n], dependents[j], a)
    {
      QueuedWithoutKept(queue, n, dependents[j], a);
    }
    hide QueuedWithout;
  }

  /** While dependent i is processed, a node below it, or itself, is queued after the aliases that it reads. */
  lemma {:induction false} AliasesReadNext(g: Graph, dependents: seq<nat>, i: nat, queue: seq<nat>, n: nat)
    requires InTurn(g, dependents, i, queue) && Begun(g, dependents, i, queue) && i < |dependents|
    requires dependents[i] < |g|
    requires n < |g| && (n == dependents[i] || Below(g, dependents[i], n))
    ensures forall p :: 0 <= p <= |queue| ==> (queue + [n])[p] < |g|
    ensures AliasesRead(g, dependents, queue + [n])
  {
    var queue' := queue + [n];
    if AliasesFirst(g, dependents) {
      forall p, a: nat {:trigger Below(g, queue'[p], a)} |
        0 <= p < |queue'| && a < |g| && IsAlias(g, a) && a in dependents && Below(g, queue'[p], a)
        ensures a in queue'[..p]
      {
        if p < |queue| {
          assert queue'[..p] == queue[..p];
        } else {
          if n != dependents[i] {
            BelowTransitive(g, dependents[i], n, a);
          }
          var j :| 0 <= j < i && dependents[..i][j] == a;
          assert a in queue && queue'[..p] == queue;
        }
      }
    }
  }

  lemma {:induction false} InTurnQueued(g: Graph, dependents: seq<nat>, i: nat, queue: seq<nat>, n: nat)
    requires InTurn(g, dependents, i, queue) && Begun(g, dependents, i, queue) && i < |dependents|
    requires dependents[i] < |g|
    requires n < |g| && Below(g, dependents[i], n) && !IsAlias(g, n)
    ensures InTurn(g, dependents, i, queue + [n]) && Begun(g, dependents, i, queue + [n])
  {
    AliasesReadNext(g, dependents, i, queue, n);
    forall j | 0 <= j < i
      ensures LaterAliases(g, dependents, j, queue + [n])
    {
      LaterAliasesKept(g, dependents, j, queue, n);
    }
    hide Below, LaterAliases, AliasesRead;
    assert forall p :: 0 <= p < |queue| ==> (queue + [n])[p] == queue[p];
  }

  /** A dependent is queued unless it was queued before or is an independent variable. */
  function AfterDependent(g: Graph, d: nat, queue: seq<nat>): seq<nat>
    requires d < |g|
  {
    if d in queue || g[d].Independent? then queue else queue + [d]
  }

  lemma {:induction false} AfterDependentIs(g: Graph, d: nat, queue: seq<nat>)
    requires d < |g|
    ensures AfterDependent(g, d, queue) == if d in queue || g[d].Independent? then queue else queue + [d]
  {}

  /** Dependent i is queued: now, or before because another one needs it. */
  lemma {:induction false} InTurnNext(g: Graph, dependents: seq<nat>, i: nat, queue: seq<nat>, queue': seq<nat>)
    requires InTurn(g, dependents, i, queue) && Begun(g, dependents, i, queue) && i < |dependents|
    requires dependents[i] < |g|
    requires queue' == AfterDependent(g, dependents[i], queue)
    ensures InTurn(g, dependents, i + 1, queue') && Begun(g, dependents, i + 1, queue')
  {
    AliasesReadNext(g, dependents, i, queue, dependents[i]);
    DependentQueued(g, dependents, i, queue, queue');
    hide AliasesRead, LaterAliases, AliasesQueued, Begun;
    forall j | 0 <= j < i
      ensures LaterAliases(g, dependents, j, queue')
    {
      LaterAliasesKept(g, dependents, j, queue, dependents[i]);
    }
  }

  lemma {:induction false} DependentInQueue(g: Graph, d: nat, queue: seq<nat>)
    requires d < |g| && g[d].Operator?
    ensures d in AfterDependent(g, d, queue)
  {
    assert (queue + [d])[|queue|] == d;
  }

  lemma {:induction false} OnlyDependentAdded(g: Graph, d: nat, queue: seq<nat>, n: nat)
    requires d < |g|
    ensures n in AfterDependent(g, d, queue) ==> n in queue || n == d
    ensures n in queue ==> n in AfterDependent(g, d, queue)
  {}

  lemma {:induction false} BegunNext(g: Graph, dependents: seq<nat>, i: nat, queue: seq<nat>)
    requires i < |dependents| && dependents[i] < |g| && Begun(g, dependents, i, queue)
    ensures Begun(g, dependents, i + 1, AfterDependent(g, dependents[i], queue))
  {
    hide AfterDependent;
    forall j | 0 <= j < i + 1 && dependents[j] < |g| && g[dependents[j]].Operator?
      ensures dependents[j] in AfterDependent(g, dependents[i], queue)
    {
      if j == i {
        DependentInQueue(g, dependents[i], queue);
      } else {
        OnlyDependentAdded(g, dependents[i], queue, dependents[j]);
      }
    }
  }

  lemma {:induction false} DependentQueued(g: Graph, dependents: seq<nat>, i: nat, queue: seq<nat>, queue': seq<nat>)
    requires i < |dependents| && dependents[i] < |g| && (forall p :: 0 <= p < |queue| ==> queue[p] < |g|)
    requires AliasesQueued(g, dependents, i, queue) && Begun(g, dependents, i, queue)
    requires queue' == AfterDependent(g, dependents[i], queue)
    ensures forall p :: 0 <= p < |queue'| ==> queue'[p] < |g|
    ensures AliasesQueued(g, dependents, i + 1, queue') && Begun(g, dependents, i + 1, queue')
    ensures LaterAliases(g, dependents, i, queue')
  {
    var d := dependents[i];
    assert dependents[..i + 1] == dependents[..i] + [d];
    BegunNext(g, dependents, i, queue);
    hide Begun;
    assert AliasesQueued(g, dependents, i + 1, queue');
    if g[d].Operator? {
      DependentInQueue(g, d, queue);
      DependentBeforeLater(g, dependents, i, queue');
    }
    hide AliasesQueued, LaterAliases;
  }

  /** Aliases that are not queued yet come after dependent i. */
  lemma {:induction false} DependentBeforeLater(g: Graph, dependents: seq<nat>, i: nat, queue: seq<nat>)
    requires i < |dependents| && (forall p :: 0 <= p < |queue| ==> queue[p] < |g|)
    requires AliasesQueued(g, dependents, i + 1, queue) && dependents[i] in queue
    ensures LaterAliases(g, dependents, i, queue)
  {
    var p :| 0 <= p < |queue| && queue[p] == dependents[i];
    forall a: nat | a < |g| && IsAlias(g, a) && a !in dependents[..i + 1]
      ensures QueuedWithout(queue, dependents[i], a)
    {
      assert a !in queue[..p];
    }
  }

  // ---------------------------------------------------------------------------------------------
  // The finished queue

  /** When all dependents are visited, so is everything that is live. */
  lemma {:induction false} LiveIsVisited(g: Graph, dependents: seq<nat>, visited: seq<bool>, n: nat)
    requires |visited| == |g| && Closed(g, visited)
    requires forall i :: 0 <= i < |dependents| ==> dependents[i] < |g| && visited[dependents[i]]
    requires Live(g, dependents, n)
    ensures n < |g| && visited[n]
    decreases |g| - n
  {
    if n !in dependents {
      var u: nat :| n < u < |g| && HasArg(g, u, n) && Live(g, dependents, u);
      LiveIsVisited(g, dependents, visited, u);
    }
  }

  lemma {:induction false} LiveIsSettled(g: Graph, dependents: seq<nat>, visited: seq<bool>, n: nat)
    requires IsGraph(g) && |visited| == |g| && AllSettled(g, visited)
    requires forall i :: 0 <= i < |dependents| ==> dependents[i] < |g| && visited[dependents[i]]
    requires Live(g, dependents, n)
    ensures n < |g| && Settled(g, visited, n)
    ensures !IsAlias(g, n) ==> visited[n]
    decreases |g| - n
  {
    if n !in dependents {
      var u: nat :| n < u < |g| && HasArg(g, u, n) && Live(g, dependents, u);
      LiveIsSettled(g, dependents, visited, u);
      SettledArg(g, visited, u, n);
    }
  }

  /** A queue made from no node at all. */
  lemma {:induction false} NothingQueued(g: Graph, dependents: seq<nat>, creates: seq<bool>,
                                         requiresVariable: (Op, nat) -> bool)
    requires IsGraph(g) && |creates| == |g|
    ensures Ordered(g, seq(|g|, _ => false), [])
    ensures Complete(g, dependents, creates, requiresVariable, seq(|g|, _ => false), [])
    ensures InTurn(g, dependents, 0, []) && Begun(g, dependents, 0, [])
  {}

  /**
    The finished queue: live nodes, each once, among them all that get variables, each after the queued
    nodes it reads; queued aliases are dependents, and excepted from the order.
   */
  ghost predicate Schedule(g: Graph, dependents: seq<nat>, creates: seq<bool>, queue: seq<nat>) {
    && IsGraph(g) && |creates| == |g|
    && (forall p :: 0 <= p < |queue| ==> queue[p] < |g| && g[queue[p]].Operator? && Live(g, dependents, queue[p]))
    && (forall p, q :: 0 <= p < q < |queue| ==> queue[p] != queue[q])
    && (forall p, d: nat {:trigger Below(g, queue[p], d)} ::
          0 <= p < |queue| && Below(g, queue[p], d) && d in queue && !IsAlias(g, d) ==> d in queue[..p])
    && (forall n: nat ::
          n < |g| && Live(g, dependents, n) && g[n].Operator? && ((creates[n] && !IsAlias(g, n)) || n in dependents) ==>
            n in queue)
    && (forall p :: 0 <= p < |queue| && IsAlias(g, queue[p]) ==> queue[p] in dependents)
  }

  /** When all dependents are visited, the queue holds exactly the live nodes that need a statement. */
  lemma {:induction false} QueueIsSchedule(g: Graph, dependents: seq<nat>, creates: seq<bool>,
                                           requiresVariable: (Op, nat) -> bool, visited: seq<bool>, queue: seq<nat>)
    requires |creates| == |visited| == |g| && Ordered(g, visited, queue)
    requires Complete(g, dependents, creates, requiresVariable, visited, queue)
    requires forall i :: 0 <= i < |dependents| ==> dependents[i] < |g| && visited[dependents[i]]
    ensures Schedule(g, dependents, creates, queue)
    ensures forall n: nat :: n in queue <==>
      Live(g, dependents, n) && NeedsStatement(g, dependents, creates, requiresVariable, n)
  {
    hide Required, Below, AllSettled;
    forall n: nat | n < |g| && Live(g, dependents, n) && (!IsAlias(g, n) || n in dependents)
      ensures visited[n]
    {
      LiveIsSettled(g, dependents, visited, n);
    }
  }

  lemma {:induction false} InOrderWhenAliasesFirst(g: Graph, dependents: seq<nat>, creates: seq<bool>, queue: seq<nat>)
    requires Schedule(g, dependents, creates, queue) && InTurn(g, dependents, |dependents|, queue)
    requires AliasesFirst(g, dependents)
    ensures InOrder(g, queue)
  {
    forall p, d: nat {:trigger Below(g, queue[p], d)} | 0 <= p < |queue| && Below(g, queue[p], d) && d in queue
      ensures d in queue[..p]
    {
      assert IsAlias(g, d) ==> d in dependents;
    }
  }

  lemma {:induction false} OutOfOrder(g: Graph, dependents: seq<nat>, creates: seq<bool>, queue: seq<nat>, i: nat,
                                      a: nat)
    requires Schedule(g, dependents, creates, queue) && InTurn(g, dependents, |dependents|, queue)
    requires i < |dependents| && dependents[i] < |g| && a < |g| && IsAlias(g, a) && a in dependents
    requires Below(g, dependents[i], a)
    requires a !in dependents[..i]
    ensures !InOrder(g, queue)
  {
    BelowIsOlder(g, dependents[i], a);
    assert dependents[..i + 1] == dependents[..i] + [dependents[i]];
    assert LaterAliases(g, dependents, i, queue) && QueuedWithout(queue, dependents[i], a);
    var p :| 0 <= p < |queue| && queue[p] == dependents[i] && a !in queue[..p];
    var j: nat :| j < |dependents| && dependents[j] == a;
    assert Live(g, dependents, a) && a in queue;
  }

  /**
    No statement reads a later one's variable exactly if every alias among the dependents comes before what depends on
    it.
   */
  lemma {:induction false} InOrderIfAliasesFirst(g: Graph, dependents: seq<nat>, creates: seq<bool>, queue: seq<nat>)
    requires Schedule(g, dependents, creates, queue) && InTurn(g, dependents, |dependents|, queue)
    ensures InOrder(g, queue) <==> AliasesFirst(g, dependents)
  {
    if AliasesFirst(g, dependents) {
      InOrderWhenAliasesFirst(g, dependents, creates, queue);
    } else {
      var i, a: nat :|
        0 <= i < |dependents| && dependents[i] < |g| && a < |g| && IsAlias(g, a) && a in dependents
        && Below(g, dependents[i], a)
        && a !in dependents[..i];
      OutOfOrder(g, dependents, creates, queue, i, a);
    }
    hide *;
  }
}
