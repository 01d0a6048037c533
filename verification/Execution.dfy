/** What the generated statements compute, and when it is what the operation graph denotes. */
module Execution {
  import opened OperationGraph
  import opened LiveNodes
  import opened EvaluationQueue
  import opened EvaluationOrder
  import opened TemporaryReuse

  /** The value of a node, for values of the independent variables. */
  ghost function Denote(g: Graph, f: Semantics, x: nat -> real, n: nat): real
    requires IsGraph(g) && n < |g|
  {
    Value(g, World(f, x, map[]), n)
  }

  /** An alias has the value of what it is a name of; other operations mean anything. */
  ghost predicate AliasMeans(f: Semantics) {
    forall v: real {:trigger f(Alias, [v])} :: f(Alias, [v]) == v
  }

  /** Variables of the generated code, by id. */
  type Memory = map<nat, real>

  function Read(mem: Memory, id: nat): real {
    if id in mem then mem[id] else 0.0
  }

  /** The value of the expression printed where node n is an operand: its variable, or the operation itself. */
  function Operand(g: Graph, f: Semantics, varId: seq<nat>, mem: Memory, n: nat): real
    requires IsGraph(g) && n < |g| == |varId|
    decreases n, 2, 0
  {
    if varId[n] != 0 || g[n].Independent? then Read(mem, varId[n]) else RightHandSide(g, f, varId, mem, n)
  }

  /** The value of the expression printed on the right hand side of the statement of node n. */
  function RightHandSide(g: Graph, f: Semantics, varId: seq<nat>, mem: Memory, n: nat): real
    requires IsGraph(g) && n < |g| == |varId| && g[n].Operator?
    decreases n, 1, 0
  {
    if IsAlias(g, n) then Operand(g, f, varId, mem, Target(g, n))
    else f(g[n].op, Operands(g, f, varId, mem, n, |g[n].args|))
  }

  function Operands(g: Graph, f: Semantics, varId: seq<nat>, mem: Memory, n: nat, k: nat): (r: seq<real>)
    requires IsGraph(g) && n < |g| == |varId| && g[n].Operator? && k <= |g[n].args|
    ensures |r| == k
    decreases n, 0, k
  {
    if k == 0 then []
    else Operands(g, f, varId, mem, n, k - 1) +
         [match g[n].args[k - 1] case Parameter(v) => v case Operation(a) => Operand(g, f, varId, mem, a)]
  }

  lemma {:induction false} OperandsAre(g: Graph, f: Semantics, varId: seq<nat>, mem: Memory, n: nat, k: nat, j: nat)
    requires IsGraph(g) && n < |g| == |varId| && g[n].Operator? && j < k <= |g[n].args|
    ensures Operands(g, f, varId, mem, n, k)[j] ==
      match g[n].args[j] case Parameter(v) => v case Operation(a) => Operand(g, f, varId, mem, a)
    decreases k
  {
    if j < k - 1 {
      OperandsAre(g, f, varId, mem, n, k - 1, j);
    }
  }

  /** An alias prints its only operand. */
  lemma {:induction false} PrintsOperation(g: Graph, f: Semantics, varId: seq<nat>, mem: Memory, n: nat)
    requires IsGraph(g) && n < |g| == |varId| && g[n].Operator? && AliasMeans(f)
    ensures RightHandSide(g, f, varId, mem, n) == f(g[n].op, Operands(g, f, varId, mem, n, |g[n].args|))
  {
    if IsAlias(g, n) {
      OperandsAre(g, f, varId, mem, n, 1, 0);
      assert Operands(g, f, varId, mem, n, 1) == [Operand(g, f, varId, mem, Target(g, n))];
    }
  }

  /** The queue lists operations. */
  ghost predicate Runnable(g: Graph, queue: seq<nat>) {
    IsGraph(g) && forall q :: 0 <= q < |queue| ==> queue[q] < |g| && g[queue[q]].Operator?
  }

  /** The first p statements, in order. */
  function Run(g: Graph, f: Semantics, varId: seq<nat>, queue: seq<nat>, mem: Memory, p: nat): Memory
    requires Runnable(g, queue) && |varId| == |g| && p <= |queue|
  {
    if p == 0 then mem
    else
      var before := Run(g, f, varId, queue, mem, p - 1);
      before[varId[queue[p - 1]] := RightHandSide(g, f, varId, before, queue[p - 1])]
  }

  /** Node n keeps its id for the whole run. */
  predicate Permanent(g: Graph, dependents: seq<nat>, n: nat)
    requires n < |g|
  {
    g[n].Independent? || n in dependents
  }

  /** Everything that source generation decided. */
  datatype Program = Program(g: Graph, dependents: seq<nat>, creates: seq<bool>, queue: seq<nat>, order: seq<nat>,
                             varId: seq<nat>, minId: nat)
  {
    /**
      Independents and dependents have ids of their own below `minId`, temporaries have ids from
      `minId` on, and other nodes have none.
     */
    ghost predicate Ids() {
      && |varId| == |order| == |g| && 0 < minId
      && (forall n :: 0 <= n < |g| && Permanent(g, dependents, n) ==> 0 < varId[n] < minId)
      && (forall n,
          m :: 0 <= n < m < |g| && Permanent(g, dependents, n) && Permanent(g, dependents, m) ==> varId[n] != varId[m])
      && (forall n :: 0 <= n < |g| && !Permanent(g, dependents, n) ==>
            if n in queue then varId[n] >= minId else varId[n] == 0)
    }

    /** No user of queue[p] is evaluated after statement q. */
    ghost predicate DeadBefore(p: nat, q: nat)
      requires IsGraph(g) && p < |queue| && |order| == |g|
    {
      forall u: nat {:trigger Takes(g, u, queue[p])} ::
        u < |g| && Live(g, dependents, u) && Takes(g, u, queue[p]) ==> order[u] <= q + 1
    }

    /** Two temporaries share an id only if the first is dead when the second is written. */
    ghost predicate Sharing()
      requires IsGraph(g) && |order| == |varId| == |g| && forall p :: 0 <= p < |queue| ==> queue[p] < |g|
    {
      forall p, q :: 0 <= p < q < |queue| && queue[p] !in dependents && queue[q] !in dependents ==>
        varId[queue[p]] == varId[queue[q]] ==> DeadBefore(p, q)
    }

    ghost predicate Valid() {
      AllNumbered(g, dependents, creates, queue, order) && Ids() && Sharing()
    }

    /** Node n is a result, or a statement after the first p reads it. */
    ghost predicate Needed(n: nat, p: nat)
      requires IsGraph(g) && |order| == |g|
    {
      n in dependents || exists u: nat {:trigger Takes(g, u, n)} ::
        u < |g| && Live(g, dependents, u) && Takes(g, u, n) && order[u] > p
    }
  }

  // ---------------------------------------------------------------------------------------------
  // Writing

  /** The id written by statement p belongs to nothing else that is needed later. */
  lemma {:induction false} WriteIsSafe(c: Program, p: nat, n: nat)
    requires c.Valid() && p < |c.queue| && n < |c.g| && n != c.queue[p]
    requires Permanent(c.g, c.dependents, n) || (n in c.queue[..p] && c.Needed(n, p + 1))
    ensures c.queue[p] < |c.g| && c.varId[n] != c.varId[c.queue[p]]
  {
    hide Below, Inlined, Supplied, Early, Live, Takes, CreatesForShared;
    var w := c.queue[p];
    assert w in c.queue;
    if !Permanent(c.g, c.dependents, n) && !Permanent(c.g, c.dependents, w) {
      var q: nat :| q < p && c.queue[..p][q] == n;
      assert c.queue[q] == n && !c.DeadBefore(q, p);
    }
  }

  /** What is needed after statement p was needed before it. */
  lemma {:induction false} NeededBefore(c: Program, n: nat, p: nat)
    requires IsGraph(c.g) && |c.order| == |c.g| && c.Needed(n, p + 1)
    ensures c.Needed(n, p)
  {
    hide Takes, Live;
  }

  lemma {:induction false} StatementOrder(c: Program, p: nat)
    requires c.Valid() && p < |c.queue|
    ensures c.queue[p] < |c.g| == |c.order| && c.g[c.queue[p]].Operator? && c.order[c.queue[p]] == p + 1
    ensures Live(c.g, c.dependents, c.queue[p]) && (IsAlias(c.g, c.queue[p]) ==> c.queue[p] in c.dependents)
  {
    QueuedNode(c.g, c.dependents, c.creates, c.queue, c.order, p);
  }

  lemma {:induction false} Statements(c: Program)
    requires c.Valid()
    ensures IsGraph(c.g) && |c.order| == |c.varId| == |c.g| == |c.creates|
    ensures Runnable(c.g, c.queue)
    ensures AllNumbered(c.g, c.dependents, c.creates, c.queue, c.order) && c.Ids()
    ensures forall p, q :: 0 <= p < q < |c.queue| ==> c.queue[p] != c.queue[q]
    ensures forall p :: 0 <= p < |c.queue| && IsAlias(c.g, c.queue[p]) ==> c.queue[p] in c.dependents
  {
    hide Below, Inlined, Supplied, Early, Live, CreatesForShared;
  }

  // ---------------------------------------------------------------------------------------------
  // What can be claimed of all values: that they are the denoted ones, or that they are spoilt

  /** The values are those denoted; or those of w, and of everything that depends on w, are `marker`. */
  datatype Claim = Denoted(x: nat -> real) | Spoilt(w: nat, marker: real)
  {
    ghost predicate Holds(g: Graph, f: Semantics, n: nat, v: real)
      requires IsGraph(g) && n < |g|
    {
      match this
      case Denoted(x) => v == Denote(g, f, x, n)
      case Spoilt(w, marker) => n == w || Below(g, n, w) ==> v == marker
    }

    /** Node n, of which the claim is not obtained from its arguments. */
    ghost predicate Exempt(n: nat) {
      Spoilt? && n == w
    }
  }

  /** The values could be those of the arguments of n. */
  ghost predicate Fits(g: Graph, f: Semantics, h: Claim, n: nat, values: seq<real>)
    requires IsGraph(g) && n < |g| && g[n].Operator?
  {
    && |values| == |g[n].args|
    && forall k :: 0 <= k < |values| ==>
         match g[n].args[k]
         case Parameter(v) => values[k] == v
         case Operation(a) => a < |g| && h.Holds(g, f, a, values[k])
  }

  /** The claim passes from arguments to operations. */
  ghost predicate Preserved(g: Graph, f: Semantics, h: Claim)
    requires IsGraph(g)
  {
    forall n: nat, values {:trigger Fits(g, f, h, n, values)} ::
      n < |g| && g[n].Operator? && !h.Exempt(n) && Fits(g, f, h, n, values) ==> h.Holds(g, f, n, f(g[n].op, values))
  }

  lemma {:induction false} ValuesAt(g: Graph, w: World, n: nat, k: nat, j: nat)
    requires IsGraph(g) && n < |g| && g[n].Operator? && j < k <= |g[n].args|
    ensures Values(g, w, n, k)[j] == match g[n].args[j] case Parameter(v) => v case Operation(a) => Value(g, w, a)
    decreases k
  {
    if j < k - 1 {
      ValuesAt(g, w, n, k - 1, j);
    }
  }

  lemma {:induction false} DenotedIsPreserved(g: Graph, f: Semantics, x: nat -> real)
    requires IsGraph(g)
    ensures Preserved(g, f, Denoted(x))
  {
    forall n: nat, values {:trigger Fits(g, f, Denoted(x), n, values)} | n < |g| && g[n].Operator? &&
             Fits(g, f, Denoted(x), n, values)
      ensures f(g[n].op, values) == Denote(g, f, x, n)
    {
      var w := World(f, x, map[]);
      forall k | 0 <= k < |values|
        ensures values[k] == Values(g, w, n, |values|)[k]
      {
        ValuesAt(g, w, n, |values|, k);
      }
      assert values == Values(g, w, n, |values|);
    }
  }

  /** After p statements: inputs are intact, and so is every computed value that is still needed. */
  ghost predicate Stored(c: Program, f: Semantics, h: Claim, mem: Memory, p: nat)
    requires IsGraph(c.g) && |c.order| == |c.varId| == |c.g|
  {
    && (forall n :: 0 <= n < |c.g| && c.g[n].Independent? ==> h.Holds(c.g, f, n, Read(mem, c.varId[n])))
    && (forall q :: 0 <= q < p && q < |c.queue| && c.queue[q] < |c.g| && c.Needed(c.queue[q], p) ==>
          h.Holds(c.g, f, c.queue[q], Read(mem, c.varId[c.queue[q]])))
  }

  /** Either nothing is read before it is computed, or the claim holds of what is read then. */
  ghost predicate EarlyReads(c: Program, f: Semantics, h: Claim, mem: Memory, p: nat)
    requires Runnable(c.g, c.queue) && |c.varId| == |c.g|
  {
    || InOrder(c.g, c.queue)
    || forall q :: p <= q < |c.queue| && IsAlias(c.g, c.queue[q]) ==> h.Holds(c.g, f, c.queue[q],
                                                                              Read(mem, c.varId[c.queue[q]]))
  }

  /** The state before statement p, which is made of nodes that have the order p + 1. */
  ghost predicate Before(c: Program, f: Semantics, h: Claim, mem: Memory, p: nat) {
    && c.Valid() && IsGraph(c.g) && |c.order| == |c.varId| == |c.g| && Runnable(c.g, c.queue)
    && AliasMeans(f) && Preserved(c.g, f, h) && (h.Spoilt? ==> h.w in c.queue)
    && Stored(c, f, h, mem, p) && EarlyReads(c, f, h, mem, p)
  }

  /** An operand that has a variable was stored by an earlier statement, or is an alias read too early. */
  lemma {:induction false} VariableStored(c: Program, f: Semantics, h: Claim, mem: Memory, p: nat, u: nat, b: nat,
                                          a: nat)
    requires Before(c, f, h, mem, p)
    requires u < |c.g| && c.order[u] == p + 1 && HasArg(c.g, u, b) && b < |c.g| && Via(c.g, c.queue, b, a)
    requires a in c.queue
    ensures a < |c.g| && c.varId[a] != 0 && h.Holds(c.g, f, a, Read(mem, c.varId[a]))
  {
    Statements(c);
    ViaLeads(c.g, c.queue, b, a);
    OrderedIsLive(c.g, c.dependents, c.creates, c.queue, c.order, u);
    var q: nat :| q < |c.queue| && c.queue[q] == a;
    HasVariable(c, a);
    ReadBefore(c, u, b, a);
    assert !IsAlias(c.g, a) ==> Takes(c.g, u, a);
    hide Program.Valid, AllNumbered, Program.Ids, Below, InOrder, Live, Takes, Preserved, Claim.Holds;
    if q < p {
      assert c.Needed(c.queue[q], p);
    }
  }

  lemma {:induction false} HasVariable(c: Program, a: nat)
    requires c.Valid() && a in c.queue
    ensures a < |c.g| == |c.varId| && c.varId[a] != 0
  {
    hide Below, Inlined, Supplied, Early, Live, CreatesForShared, Program.Sharing;
  }

  /**
    A variable that is read by the statement of u was computed before, unless it belongs to an alias and the order is
    wrong.
   */
  lemma {:induction false} ReadBefore(c: Program, u: nat, b: nat, a: nat)
    requires c.Valid() && IsGraph(c.g) && |c.order| == |c.g| && Runnable(c.g, c.queue)
    requires u < |c.g| && c.order[u] > 0 && HasArg(c.g, u, b) && b < |c.g| && Via(c.g, c.queue, b, a) && a in c.queue
    requires a < |c.g|
    ensures !IsAlias(c.g, a) || InOrder(c.g, c.queue) ==> forall q :: 0 <= q < |c.queue| && c.queue[q] == a ==>
      q < c.order[u] - 1
  {
    hide Program.Valid, AllNumbered, InOrder;
    Statements(c);
    if !IsAlias(c.g, a) || InOrder(c.g, c.queue) {
      PrintedBefore(c, u, b, a);
      var r: nat :| r < c.order[u] - 1 && c.queue[..c.order[u] - 1][r] == a;
      assert c.queue[r] == a;
    }
  }

  lemma {:induction false} PrintedBefore(c: Program, u: nat, b: nat, a: nat)
    requires c.Valid() && IsGraph(c.g) && |c.order| == |c.g| && Runnable(c.g, c.queue)
    requires u < |c.g| && c.order[u] > 0 && HasArg(c.g, u, b) && b < |c.g| && Via(c.g, c.queue, b, a) && a in c.queue
    requires a < |c.g|
    requires !IsAlias(c.g, a) || InOrder(c.g, c.queue)
    ensures c.order[u] <= |c.queue| && a in c.queue[..c.order[u] - 1]
    decreases b
  {
    hide Program.Valid, AllNumbered, InOrder, Runnable, IsGraph;
    Statements(c);
    if a == b {
      ComputedBefore(c.g, c.dependents, c.creates, c.queue, c.order, u, a);
    } else {
      AliasNumbered(c, u, b);
      PrintedBefore(c, b, Target(c.g, b), a);
      OrdersInRange(c.g, c.dependents, c.creates, c.queue, c.order);
      Earlier(c.queue, c.order[b] - 1, c.order[u] - 1, a);
    }
  }

  /** What is in a part of the queue is in a longer part. */
  lemma {:induction false} Earlier(queue: seq<nat>, i: nat, j: nat, a: nat)
    requires i <= j <= |queue| && a in queue[..i]
    ensures a in queue[..j]
  {
    var r: nat :| r < i && queue[..i][r] == a;
    assert queue[..j][r] == a;
  }

  /** An alias without a variable has an order that does not exceed that of a node that reads it. */
  lemma {:induction false} AliasNumbered(c: Program, u: nat, b: nat)
    requires c.Valid() && |c.order| == |c.g| && u < |c.g| && c.order[u] > 0 && HasArg(c.g, u, b) && b !in c.queue
    ensures b < |c.g| && 0 < c.order[b] <= c.order[u]
  {
    hide Inlined, Early, Live, CreatesForShared, Program.Ids, Program.Sharing, Schedule, Positions;
  }

  /** An operand of a statement reads as claimed, and so does what is printed within it by way of aliases. */
  lemma {:induction false} OperandHolds(c: Program, f: Semantics, h: Claim, mem: Memory, p: nat, u: nat, b: nat, a: nat)
    requires Before(c, f, h, mem, p)
    requires u < |c.g| && c.order[u] == p + 1 && HasArg(c.g, u, b) && b < |c.g| && a < |c.g| && Via(c.g, c.queue, b, a)
    ensures h.Holds(c.g, f, a, Operand(c.g, f, c.varId, mem, a))
    decreases a, 2, 0
  {
    hide Program.Valid, Stored, EarlyReads, Claim.Holds, Preserved, AllNumbered, Program.Ids, Via, Runnable, Live,
      AliasMeans;
    Statements(c);
    if c.g[a].Independent? {
      InputHolds(c, f, h, mem, p, a);
    } else if a in c.queue {
      VariableStored(c, f, h, mem, p, u, b, a);
    } else {
      NoVariable(c, u, b, a);
      if IsAlias(c.g, a) {
        ViaLeads(c.g, c.queue, b, a);
        OperandHolds(c, f, h, mem, p, u, b, Target(c.g, a));
        AliasHolds(c, f, h, mem, p, a);
      } else {
        PrintedOperation(c, u, b, a);
        RightHandSideHolds(c, f, h, mem, p, a);
      }
    }
  }

  lemma {:induction false} InputHolds(c: Program, f: Semantics, h: Claim, mem: Memory, p: nat, a: nat)
    requires Before(c, f, h, mem, p) && a < |c.g| && c.g[a].Independent?
    ensures h.Holds(c.g, f, a, Operand(c.g, f, c.varId, mem, a))
  {
    hide Program.Valid, EarlyReads, Claim.Holds, Preserved, AliasMeans, Program.Needed;
  }

  /** What the statement of u prints is live; without a variable it has no id. */
  lemma {:induction false} NoVariable(c: Program, u: nat, b: nat, a: nat)
    requires c.Valid() && IsGraph(c.g) && |c.order| == |c.g| && u < |c.g| && c.order[u] > 0 && HasArg(c.g, u, b)
    requires b < |c.g|
    requires a < |c.g| && Via(c.g, c.queue, b, a) && c.g[a].Operator? && a !in c.queue
    ensures |c.varId| == |c.g| && c.varId[a] == 0 && Live(c.g, c.dependents, a)
  {
    OrderedIsLive(c.g, c.dependents, c.creates, c.queue, c.order, u);
    ViaLeads(c.g, c.queue, b, a);
    LiveArg(c.g, c.dependents, u, b);
    LiveLeads(c.g, c.dependents, b, a);
    hide Via, Leads, Live, Below, Numbered, CreatesForShared, Program.Sharing;
  }

  lemma {:induction false} AliasHolds(c: Program, f: Semantics, h: Claim, mem: Memory, p: nat, a: nat)
    requires Before(c, f, h, mem, p) && a < |c.g| && a !in c.queue && IsAlias(c.g, a) && c.varId[a] == 0
    requires h.Holds(c.g, f, Target(c.g, a), Operand(c.g, f, c.varId, mem, Target(c.g, a)))
    ensures h.Holds(c.g, f, a, Operand(c.g, f, c.varId, mem, a))
  {
    hide Program.Valid, Stored, EarlyReads, Claim.Holds;
    var v := Operand(c.g, f, c.varId, mem, Target(c.g, a));
    assert Fits(c.g, f, h, a, [v]);
    assert f(Alias, [v]) == v;
  }

  /** An operation that is printed inside the statement of u belongs to that statement. */
  lemma {:induction false} PrintedOperation(c: Program, u: nat, b: nat, a: nat)
    requires c.Valid() && IsGraph(c.g) && |c.order| == |c.g| && u < |c.g| && c.order[u] > 0 && HasArg(c.g, u, b)
    requires b < |c.g|
    requires a < |c.g| && Via(c.g, c.queue, b, a) && c.g[a].Operator? && a !in c.queue && !IsAlias(c.g, a)
    requires Live(c.g, c.dependents, a)
    ensures c.order[a] == c.order[u]
  {
    hide AllNumbered, Via, Live, Program.Ids, Program.Sharing;
    UnqueuedIsSingle(c.g, c.dependents, c.creates, c.queue, c.order, a);
    PrintedWithin(c.g, c.dependents, c.creates, c.queue, c.order, u, b, a);
  }

  lemma {:induction false} RightHandSideHolds(c: Program, f: Semantics, h: Claim, mem: Memory, p: nat, n: nat)
    requires Before(c, f, h, mem, p)
    requires n < |c.g| && c.g[n].Operator? && c.order[n] == p + 1 && !h.Exempt(n)
    ensures h.Holds(c.g, f, n, RightHandSide(c.g, f, c.varId, mem, n))
    decreases n, 1, 0
  {
    hide Program.Valid, Stored, EarlyReads, Claim.Holds, Operands, RightHandSide, AliasMeans;
    var values := Operands(c.g, f, c.varId, mem, n, |c.g[n].args|);
    forall k | 0 <= k < |c.g[n].args|
      ensures match c.g[n].args[k]
              case Parameter(v) => values[k] == v
              case Operation(a) => a < |c.g| && h.Holds(c.g, f, a, values[k])
    {
      OperandsAre(c.g, f, c.varId, mem, n, |c.g[n].args|, k);
      if c.g[n].args[k].Operation? {
        var a := c.g[n].args[k].node;
        assert HasArg(c.g, n, a);
        ArgIsOlder(c.g, n, a);
        OperandHolds(c, f, h, mem, p, n, a, a);
      }
    }
    assert Fits(c.g, f, h, n, values);
    PrintsOperation(c.g, f, c.varId, mem, n);
  }

  /** The write of statement p keeps the claim about everything else. */
  lemma {:induction false} StoreStep(c: Program, f: Semantics, h: Claim, mem: Memory, p: nat, v: real)
    requires Before(c, f, h, mem, p) && p < |c.queue| && c.queue[p] < |c.g| && h.Holds(c.g, f, c.queue[p], v)
    ensures Before(c, f, h, mem[c.varId[c.queue[p]] := v], p + 1)
  {
    StoredNext(c, f, h, mem, p, v);
    EarlyReadsNext(c, f, h, mem, p, v);
    hide Program.Valid, Stored, EarlyReads, Preserved, AliasMeans, Claim.Holds;
  }

  lemma {:induction false} StoredNext(c: Program, f: Semantics, h: Claim, mem: Memory, p: nat, v: real)
    requires Before(c, f, h, mem, p) && p < |c.queue| && c.queue[p] < |c.g| && h.Holds(c.g, f, c.queue[p], v)
    ensures Stored(c, f, h, mem[c.varId[c.queue[p]] := v], p + 1)
  {
    hide Program.Valid, EarlyReads, Preserved, AliasMeans, Claim.Holds, Program.Needed, Runnable, IsGraph;
    WriteKeeps(c, p);
  }

  lemma {:induction false} WriteKeeps(c: Program, p: nat)
    requires c.Valid() && IsGraph(c.g) && |c.order| == |c.varId| == |c.g| && p < |c.queue| && c.queue[p] < |c.g|
    ensures forall n :: 0 <= n < |c.g| && c.g[n].Independent? ==> c.varId[n] != c.varId[c.queue[p]]
    ensures forall q :: 0 <= q < p && c.queue[q] < |c.g| && c.Needed(c.queue[q], p + 1) ==>
      c.Needed(c.queue[q], p) && c.varId[c.queue[q]] != c.varId[c.queue[p]]
  {
    Statements(c);
    hide Program.Valid, Program.Needed, AllNumbered, Program.Ids;
    forall n | 0 <= n < |c.g| && c.g[n].Independent?
      ensures c.varId[n] != c.varId[c.queue[p]]
    {
      WriteIsSafe(c, p, n);
    }
    forall q | 0 <= q < p && c.queue[q] < |c.g| && c.Needed(c.queue[q], p + 1)
      ensures c.Needed(c.queue[q], p) && c.varId[c.queue[q]] != c.varId[c.queue[p]]
    {
      assert c.queue[q] in c.queue[..p];
      NeededBefore(c, c.queue[q], p);
      WriteIsSafe(c, p, c.queue[q]);
    }
  }

  lemma {:induction false} EarlyReadsNext(c: Program, f: Semantics, h: Claim, mem: Memory, p: nat, v: real)
    requires Before(c, f, h, mem, p) && p < |c.queue| && c.queue[p] < |c.g|
    ensures EarlyReads(c, f, h, mem[c.varId[c.queue[p]] := v], p + 1)
  {
    Statements(c);
    hide Program.Valid, Stored, Preserved, AliasMeans, Claim.Holds, AllNumbered, Program.Ids, InOrder;
    forall q | p < q < |c.queue| && IsAlias(c.g, c.queue[q])
      ensures c.varId[c.queue[q]] != c.varId[c.queue[p]]
    {
      WriteIsSafe(c, p, c.queue[q]);
    }
  }

  /** The claim holds after every statement, if the statement of an exempt node makes it hold. */
  lemma {:induction false} RunHolds(c: Program, f: Semantics, h: Claim, mem: Memory, p: nat)
    requires Before(c, f, h, mem, 0) && p <= |c.queue|
    requires ExemptHolds(c, f, h, mem)
    ensures Before(c, f, h, Run(c.g, f, c.varId, c.queue, mem, p), p)
    decreases p
  {
    hide *;
    BeforeParts(c, f, h, mem, 0);
    RunStep(c.g, f, c.varId, c.queue, mem, p);
    if p > 0 {
      RunHolds(c, f, h, mem, p - 1);
      var before := Run(c.g, f, c.varId, c.queue, mem, p - 1);
      StatementHolds(c, f, h, mem, p - 1);
      StoreStep(c, f, h, before, p - 1, RightHandSide(c.g, f, c.varId, before, c.queue[p - 1]));
    }
  }

  ghost predicate ExemptHolds(c: Program, f: Semantics, h: Claim, mem: Memory)
    requires Runnable(c.g, c.queue) && |c.varId| == |c.g|
  {
    forall q :: 0 <= q < |c.queue| && h.Exempt(c.queue[q]) ==>
      h.Holds(c.g, f, c.queue[q], RightHandSide(c.g, f, c.varId, Run(c.g, f, c.varId, c.queue, mem, q), c.queue[q]))
  }

  lemma {:induction false} BeforeParts(c: Program, f: Semantics, h: Claim, mem: Memory, p: nat)
    requires Before(c, f, h, mem, p)
    ensures c.Valid() && Runnable(c.g, c.queue) && IsGraph(c.g) && |c.varId| == |c.order| == |c.g|
    ensures forall q :: 0 <= q < |c.queue| ==> c.queue[q] < |c.g| && c.g[c.queue[q]].Operator?
    ensures Stored(c, f, h, mem, p)
  {}

  lemma {:induction false} StatementHolds(c: Program, f: Semantics, h: Claim, mem: Memory, p: nat)
    requires Runnable(c.g, c.queue) && |c.varId| == |c.g| && p < |c.queue| && ExemptHolds(c, f, h, mem)
    requires Before(c, f, h, Run(c.g, f, c.varId, c.queue, mem, p), p)
    ensures h.Holds(c.g, f, c.queue[p],
                    RightHandSide(c.g, f, c.varId, Run(c.g, f, c.varId, c.queue, mem, p), c.queue[p]))
  {
    hide Program.Valid, Stored, EarlyReads, Preserved, AliasMeans, Claim.Holds, RightHandSide, Run;
    StatementOrder(c, p);
    if !h.Exempt(c.queue[p]) {
      RightHandSideHolds(c, f, h, Run(c.g, f, c.varId, c.queue, mem, p), p, c.queue[p]);
    }
  }

  lemma {:induction false} RunStep(g: Graph, f: Semantics, varId: seq<nat>, queue: seq<nat>, mem: Memory, p: nat)
    requires Runnable(g, queue) && |varId| == |g| && p <= |queue|
    ensures p == 0 ==> Run(g, f, varId, queue, mem, p) == mem
    ensures p > 0 ==>
      var before := Run(g, f, varId, queue, mem, p - 1);
      Run(g, f, varId, queue, mem, p) == before[varId[queue[p - 1]] := RightHandSide(g, f, varId, before, queue[p - 1])]
  {}

  /** In the end the claim holds of every dependent. */
  lemma {:induction false} ResultsHold(c: Program, f: Semantics, h: Claim, mem: Memory, d: nat)
    requires Before(c, f, h, mem, 0) && ExemptHolds(c, f, h, mem) && d in c.dependents
    ensures d < |c.g| && h.Holds(c.g, f, d, Read(Run(c.g, f, c.varId, c.queue, mem, |c.queue|), c.varId[d]))
  {
    hide *;
    BeforeParts(c, f, h, mem, 0);
    RunHolds(c, f, h, mem, |c.queue|);
    BeforeParts(c, f, h, Run(c.g, f, c.varId, c.queue, mem, |c.queue|), |c.queue|);
    ResultStored(c, f, h, Run(c.g, f, c.varId, c.queue, mem, |c.queue|), d);
  }

  lemma {:induction false} ResultStored(c: Program, f: Semantics, h: Claim, mem: Memory, d: nat)
    requires c.Valid() && IsGraph(c.g) && |c.varId| == |c.order| == |c.g| && Stored(c, f, h, mem, |c.queue|)
    requires d in c.dependents
    ensures d < |c.g| && h.Holds(c.g, f, d, Read(mem, c.varId[d]))
  {
    DependentQueued(c, d);
    hide Program.Valid, Claim.Holds;
    if c.g[d].Operator? {
      var q: nat :| q < |c.queue| && c.queue[q] == d;
      assert c.Needed(c.queue[q], |c.queue|);
    }
  }

  lemma {:induction false} DependentQueued(c: Program, d: nat)
    requires c.Valid() && d in c.dependents
    ensures d < |c.g| && Live(c.g, c.dependents, d) && (c.g[d].Operator? ==> d in c.queue)
  {
    hide Below, Numbered, CreatesForShared, Program.Ids, Program.Sharing;
    var i: nat :| i < |c.dependents| && c.dependents[i] == d;
  }

  // ---------------------------------------------------------------------------------------------
  // Statements in order

  ghost predicate Inputs(c: Program, x: nat -> real, mem: Memory)
    requires |c.varId| == |c.g|
  {
    forall n :: 0 <= n < |c.g| && c.g[n].Independent? ==> Read(mem, c.varId[n]) == x(c.g[n].index)
  }

  /** Dependent d ends up with the value that the graph denotes. */
  ghost predicate Computes(c: Program, f: Semantics, x: nat -> real, mem: Memory, d: nat)
    requires Runnable(c.g, c.queue) && |c.varId| == |c.g|
  {
    d < |c.g| && Read(Run(c.g, f, c.varId, c.queue, mem, |c.queue|), c.varId[d]) == Denote(c.g, f, x, d)
  }

  lemma {:induction false} OrderedCodeComputes(c: Program, f: Semantics, x: nat -> real, mem: Memory, d: nat)
    requires c.Valid() && Runnable(c.g, c.queue) && |c.varId| == |c.g| && InOrder(c.g, c.queue)
    requires AliasMeans(f) && Inputs(c, x, mem) && d in c.dependents
    ensures Computes(c, f, x, mem, d)
  {
    Statements(c);
    DenotedIsPreserved(c.g, f, x);
    hide Program.Valid, Preserved, AliasMeans, InOrder, AllNumbered, Program.Ids;
    ResultsHold(c, f, Denoted(x), mem, d);
  }

  // ---------------------------------------------------------------------------------------------
  // Statements out of order

  /** Operations that pass on a marker. */
  ghost function Spoiling(marker: real): Semantics {
    (op, values) => if op == Alias && |values| == 1 then values[0] else if marker in values then marker else 0.0
  }

  /** More than every parameter. */
  ghost function Marker(g: Graph): (r: real)
    ensures r > 0.0
    ensures forall n, k :: 0 <= n < |g| && g[n].Operator? && 0 <= k < |g[n].args| && g[n].args[k].Parameter? ==>
      g[n].args[k].value < r
  {
    if g == [] then 1.0
    else
      var last := g[|g| - 1];
      var r := Marker(g[..|g| - 1]);
      assert forall n :: 0 <= n < |g| - 1 ==> g[..|g| - 1][n] == g[n];
      if last.Operator? then AboveArgs(last.args, r) else r
  }

  ghost function AboveArgs(args: seq<Arg>, least: real): (r: real)
    ensures r >= least && forall k :: 0 <= k < |args| && args[k].Parameter? ==> args[k].value < r
  {
    if args == [] then least
    else
      var r := AboveArgs(args[..|args| - 1], least);
      var last := args[|args| - 1];
      if last.Parameter? && last.value >= r then last.value + 1.0 else r
  }

  /** No value is the marker as long as no input is. */
  lemma {:induction false} NeverMarker(g: Graph, marker: real, n: nat)
    requires IsGraph(g) && n < |g| && marker == Marker(g)
    ensures Denote(g, Spoiling(marker), _ => 0.0, n) != marker
    decreases n
  {
    var f := Spoiling(marker);
    var w := World(f, _ => 0.0, map[]);
    if g[n].Operator? {
      var values := Values(g, w, n, |g[n].args|);
      forall k | 0 <= k < |values|
        ensures values[k] != marker
      {
        ValuesAt(g, w, n, |g[n].args|, k);
        if g[n].args[k].Operation? {
          NeverMarker(g, marker, g[n].args[k].node);
        }
      }
    }
  }

  lemma {:induction false} SpoiltIsPreserved(g: Graph, marker: real, w: nat)
    requires IsGraph(g)
    ensures Preserved(g, Spoiling(marker), Spoilt(w, marker))
  {
    var f, h := Spoiling(marker), Spoilt(w, marker);
    forall n: nat, values {:trigger Fits(g, f, h, n, values)} | n < |g| && g[n].Operator? && !h.Exempt(n) &&
             Fits(g, f, h, n, values)
      ensures h.Holds(g, f, n, f(g[n].op, values))
    {
      if Below(g, n, w) {
        var a: nat :| a < n && HasArg(g, n, a) && (a == w || Below(g, a, w));
        var k: nat :| k < |g[n].args| && g[n].args[k] == Operation(a);
        assert values[k] == marker;
      }
    }
  }

  /** Statement p is the first that reads a variable, that of `late`, before it is computed. */
  ghost predicate FirstEarlyRead(c: Program, p: nat, late: nat)
    requires Runnable(c.g, c.queue)
  {
    && p < |c.queue| && late in c.queue && late !in c.queue[..p] && Below(c.g, c.queue[p], late)
    && forall q, d: nat {:trigger Below(c.g, c.queue[q], d)} ::
         0 <= q < p && d in c.queue && Below(c.g, c.queue[q], d) ==> d in c.queue[..q]
  }

  lemma {:induction false} FindEarlyRead(c: Program, p: nat, late: nat) returns (p': nat, late': nat)
    requires Runnable(c.g, c.queue)
    requires p < |c.queue| && late in c.queue && late !in c.queue[..p] && Below(c.g, c.queue[p], late)
    ensures FirstEarlyRead(c, p', late')
    decreases p
  {
    hide Below;
    if q, d: nat :| 0 <= q < p && d in c.queue && Below(c.g, c.queue[q], d) && d !in c.queue[..q] {
      p', late' := FindEarlyRead(c, q, d);
    } else {
      p', late' := p, late;
    }
  }

  /** The variables of the aliases that are not computed before statement p hold the marker. */
  ghost predicate LateMarked(c: Program, mem: Memory, p: nat, marker: real)
    requires Runnable(c.g, c.queue) && |c.varId| == |c.g|
  {
    forall q :: p <= q < |c.queue| && IsAlias(c.g, c.queue[q]) ==> Read(mem, c.varId[c.queue[q]]) == marker
  }

  /** What statement p prints on the way to `late` evaluates to the marker. */
  lemma {:induction false} MarkerReaches(c: Program, mem: Memory, p: nat, late: nat, marker: real, n: nat)
    requires c.Valid() && Runnable(c.g, c.queue) && |c.varId| == |c.g| && FirstEarlyRead(c, p, late)
    requires LateMarked(c, mem, p, marker)
    requires n < |c.g| && Below(c.g, n, late) && (n == c.queue[p] || Below(c.g, c.queue[p], n))
    requires n == c.queue[p] || n !in c.queue
    ensures c.g[n].Operator? && RightHandSide(c.g, Spoiling(marker), c.varId, mem, n) == marker
    decreases n, 0
  {
    hide Program.Valid, LateMarked, Operands, Spoiling;
    var f := Spoiling(marker);
    var a: nat :| a < n && HasArg(c.g, n, a) && (a == late || Below(c.g, a, late));
    if n != c.queue[p] {
      BelowArg(c.g, c.queue[p], n, a);
    }
    MarkerRead(c, mem, p, late, marker, a);
    if IsAlias(c.g, n) {
      OnlyTarget(c.g, n, a);
    } else {
      var k: nat :| k < |c.g[n].args| && c.g[n].args[k] == Operation(a);
      OperandsAre(c.g, f, c.varId, mem, n, |c.g[n].args|, k);
      MarkerPasses(marker, c.g[n].op, Operands(c.g, f, c.varId, mem, n, |c.g[n].args|), k);
    }
  }

  lemma {:induction false} MarkerPasses(marker: real, op: Op, values: seq<real>, k: nat)
    requires k < |values| && values[k] == marker
    ensures Spoiling(marker)(op, values) == marker
  {}

  lemma {:induction false} MarkerRead(c: Program, mem: Memory, p: nat, late: nat, marker: real, a: nat)
    requires c.Valid() && Runnable(c.g, c.queue) && |c.varId| == |c.g| && FirstEarlyRead(c, p, late)
    requires LateMarked(c, mem, p, marker)
    requires a < |c.g| && Below(c.g, c.queue[p], a) && (a == late || Below(c.g, a, late))
    ensures Operand(c.g, Spoiling(marker), c.varId, mem, a) == marker
    decreases a, 1
  {
    hide Program.Valid, LateMarked, RightHandSide, Spoiling;
    if a in c.queue {
      HasVariable(c, a);
      NotComputed(c, p, late, a);
      MarkedVariable(c, mem, p, marker, a);
    } else {
      UnqueuedHasNoId(c, p, a, late);
      MarkerReaches(c, mem, p, late, marker, a);
    }
  }

  lemma {:induction false} NotComputed(c: Program, p: nat, late: nat, a: nat)
    requires c.Valid() && Runnable(c.g, c.queue) && FirstEarlyRead(c, p, late) && a in c.queue && a < |c.g|
    requires Below(c.g, c.queue[p], a) && (a == late || Below(c.g, a, late))
    ensures a !in c.queue[..p] && IsAlias(c.g, a)
  {
    hide Program.Valid, Below;
    OnlyAliasesLate(c, p, a);
  }

  lemma {:induction false} OnlyAliasesLate(c: Program, p: nat, a: nat)
    requires c.Valid() && Runnable(c.g, c.queue) && p < |c.queue| && a in c.queue && a < |c.g|
    requires Below(c.g, c.queue[p], a)
    ensures a !in c.queue[..p] ==> IsAlias(c.g, a)
  {
    hide Below, Numbered, CreatesForShared, Program.Ids, Program.Sharing, Live;
  }

  lemma {:induction false} MarkedVariable(c: Program, mem: Memory, p: nat, marker: real, a: nat)
    requires Runnable(c.g, c.queue) && |c.varId| == |c.g| && LateMarked(c, mem, p, marker) && p < |c.queue|
    requires a in c.queue && a !in c.queue[..p] && a < |c.g| && IsAlias(c.g, a)
    ensures Read(mem, c.varId[a]) == marker
  {
    var q: nat :| q < |c.queue| && c.queue[q] == a;
  }

  lemma {:induction false} UnqueuedHasNoId(c: Program, p: nat, a: nat, late: nat)
    requires c.Valid() && Runnable(c.g, c.queue) && p < |c.queue| && a < |c.g| && a !in c.queue
    requires Below(c.g, c.queue[p], a) && Below(c.g, a, late)
    ensures |c.varId| == |c.g| && c.varId[a] == 0 && c.g[a].Operator?
  {
    StatementOrder(c, p);
    BelowIsLive(c.g, c.dependents, c.queue[p], a);
    var b: nat :| b < a && HasArg(c.g, a, b) && (b == late || Below(c.g, b, late));
    hide Below, Live, Numbered, CreatesForShared, Program.Sharing;
  }

  ghost predicate IsInputId(c: Program, id: nat) {
    exists n :: 0 <= n < |c.g| && n < |c.varId| && c.g[n].Independent? && c.varId[n] == id
  }

  /** The marker in every variable that is no input. */
  ghost function AllMarked(c: Program, marker: real): Memory {
    map id: nat | id in c.varId && !IsInputId(c, id) :: marker
  }

  lemma {:induction false} MarkedInputs(c: Program, marker: real)
    requires c.Valid() && Runnable(c.g, c.queue) && |c.varId| == |c.g|
    ensures Inputs(c, _ => 0.0, AllMarked(c, marker)) && LateMarked(c, AllMarked(c, marker), 0, marker)
  {
    Statements(c);
    hide AllNumbered, Program.Valid, Runnable;
    forall q | 0 <= q < |c.queue| && IsAlias(c.g, c.queue[q])
      ensures Read(AllMarked(c, marker), c.varId[c.queue[q]]) == marker
    {
      assert Permanent(c.g, c.dependents, c.queue[q]);
    }
  }

  /** Statements before p do not compute the aliases that come later. */
  lemma {:induction false} LateStayMarked(c: Program, f: Semantics, mem: Memory, p: nat, marker: real)
    requires c.Valid() && Runnable(c.g, c.queue) && |c.varId| == |c.g| && p <= |c.queue|
    requires LateMarked(c, mem, 0, marker)
    ensures LateMarked(c, Run(c.g, f, c.varId, c.queue, mem, p), p, marker)
  {
    hide *;
    RunStep(c.g, f, c.varId, c.queue, mem, p);
    if p > 0 {
      LateStayMarked(c, f, mem, p - 1, marker);
      QueueInRange(c);
      var before := Run(c.g, f, c.varId, c.queue, mem, p - 1);
      LateMarkedNext(c, before, p - 1, marker, RightHandSide(c.g, f, c.varId, before, c.queue[p - 1]));
    }
  }

  lemma {:induction false} QueueInRange(c: Program)
    requires Runnable(c.g, c.queue)
    ensures IsGraph(c.g) && forall q :: 0 <= q < |c.queue| ==> c.queue[q] < |c.g| && c.g[c.queue[q]].Operator?
  {}

  lemma {:induction false} LateMarkedNext(c: Program, mem: Memory, p: nat, marker: real, v: real)
    requires c.Valid() && Runnable(c.g, c.queue) && |c.varId| == |c.g| && p < |c.queue| && LateMarked(c, mem, p, marker)
    ensures LateMarked(c, mem[c.varId[c.queue[p]] := v], p + 1, marker)
  {
    Statements(c);
    hide Program.Valid, AllNumbered, Program.Ids;
    forall q | p < q < |c.queue| && IsAlias(c.g, c.queue[q])
      ensures c.varId[c.queue[q]] != c.varId[c.queue[p]]
    {
      WriteIsSafe(c, p, c.queue[q]);
    }
  }

  /** Whatever is live is a dependent or below one. */
  lemma {:induction false} LiveRoot(g: Graph, dependents: seq<nat>, n: nat) returns (d: nat)
    requires IsGraph(g) && Live(g, dependents, n)
    ensures d in dependents && n < |g| && (d == n || (d < |g| && Below(g, d, n)))
    decreases |g| - n
  {
    d := n;
    if n !in dependents {
      var u: nat :| n < u < |g| && HasArg(g, u, n) && Live(g, dependents, u);
      d := LiveRoot(g, dependents, u);
      assert Below(g, u, n);
      if d != u {
        BelowArg(g, d, u, n);
      }
    }
  }

  /** A variable that is read before it is computed spoils some dependent, for some operations and initial values. */
  lemma {:induction false} EarlyReadSpoils(c: Program) returns (f: Semantics, mem: Memory, d: nat)
    requires c.Valid() && Runnable(c.g, c.queue) && |c.varId| == |c.g| && !InOrder(c.g, c.queue)
    ensures AliasMeans(f) && Inputs(c, _ => 0.0, mem) && d in c.dependents && !Computes(c, f, _ => 0.0, mem, d)
  {
    hide Program.Valid, LateMarked, AllMarked, Denote, RightHandSide, Run, Inputs, Before, ExemptHolds, Below;
    var q, a: nat :| 0 <= q < |c.queue| && a in c.queue && a !in c.queue[..q] && Below(c.g, c.queue[q], a);
    var p, late := FindEarlyRead(c, q, a);
    var marker := Marker(c.g);
    f, mem := Spoiling(marker), AllMarked(c, marker);
    Statements(c);
    StatementOrder(c, p);
    MarkedInputs(c, marker);
    SpoiltFromStart(c, p, late, marker);
    d := LiveRoot(c.g, c.dependents, c.queue[p]);
    ResultsHold(c, f, Spoilt(c.queue[p], marker), mem, d);
    NeverMarker(c.g, marker, d);
  }

  lemma {:induction false} SpoiltFromStart(c: Program, p: nat, late: nat, marker: real)
    requires c.Valid() && Runnable(c.g, c.queue) && |c.varId| == |c.g| && FirstEarlyRead(c, p, late) && marker > 0.0
    ensures Before(c, Spoiling(marker), Spoilt(c.queue[p], marker), AllMarked(c, marker), 0)
    ensures ExemptHolds(c, Spoiling(marker), Spoilt(c.queue[p], marker), AllMarked(c, marker))
  {
    hide Program.Valid, LateMarked, AllMarked, Preserved, Spoiling, RightHandSide, Run, Stored, EarlyReads,
      ExemptHolds, AllNumbered, Program.Ids;
    Statements(c);
    MarkedInputs(c, marker);
    InputsUnspoilt(c, p, marker);
    SpoiltIsPreserved(c.g, marker, c.queue[p]);
    SpoilingKeepsAliases(marker);
    FirstIsSpoilt(c, p, late, marker);
  }

  lemma {:induction false} SpoilingKeepsAliases(marker: real)
    ensures AliasMeans(Spoiling(marker))
  {}

  lemma {:induction false} FirstIsSpoilt(c: Program, p: nat, late: nat, marker: real)
    requires c.Valid() && Runnable(c.g, c.queue) && |c.varId| == |c.g| && FirstEarlyRead(c, p, late)
    requires LateMarked(c, AllMarked(c, marker), 0, marker)
    requires forall p, q :: 0 <= p < q < |c.queue| ==> c.queue[p] != c.queue[q]
    ensures ExemptHolds(c, Spoiling(marker), Spoilt(c.queue[p], marker), AllMarked(c, marker))
  {
    hide Program.Valid, LateMarked, AllMarked, Spoiling, RightHandSide, Run;
    var f, mem := Spoiling(marker), AllMarked(c, marker);
    LateStayMarked(c, f, mem, p, marker);
    MarkerReaches(c, Run(c.g, f, c.varId, c.queue, mem, p), p, late, marker, c.queue[p]);
  }

  lemma {:induction false} InputsUnspoilt(c: Program, p: nat, marker: real)
    requires c.Valid() && Runnable(c.g, c.queue) && |c.varId| == |c.g| == |c.order| && p < |c.queue|
    requires LateMarked(c, AllMarked(c, marker), 0, marker)
    ensures Stored(c, Spoiling(marker), Spoilt(c.queue[p], marker), AllMarked(c, marker), 0)
    ensures EarlyReads(c, Spoiling(marker), Spoilt(c.queue[p], marker), AllMarked(c, marker), 0)
  {
    hide Program.Valid, AllMarked, Spoiling, InOrder;
  }

  /** Whatever the operations mean, the inputs are, and the variables hold before: every dependent is right. */
  ghost predicate Correct(c: Program)
    requires Runnable(c.g, c.queue) && |c.varId| == |c.g|
  {
    forall f: Semantics, x: nat -> real, mem: Memory, d: nat {:trigger Computes(c, f, x, mem, d)} ::
      AliasMeans(f) && Inputs(c, x, mem) && d in c.dependents ==> Computes(c, f, x, mem, d)
  }

  /**
    The generated statements give every dependent the value that the operation graph denotes exactly if
    no statement reads a variable that is computed later.
   */
  lemma {:induction false} GeneratedCodeComputes(c: Program)
    requires c.Valid()
    ensures Runnable(c.g, c.queue) && |c.varId| == |c.g|
    ensures Correct(c) <==> InOrder(c.g, c.queue)
  {
    hide Program.Valid, InOrder, Computes, AliasMeans, Inputs, Runnable;
    Statements(c);
    if InOrder(c.g, c.queue) {
      forall f: Semantics, x: nat -> real, mem: Memory, d: nat {:trigger Computes(c, f, x, mem, d)} |
        AliasMeans(f) && Inputs(c, x, mem) && d in c.dependents
        ensures Computes(c, f, x, mem, d)
      {
        OrderedCodeComputes(c, f, x, mem, d);
      }
    } else {
      var f, mem, d := EarlyReadSpoils(c);
    }
  }

  // Nodes x, T = x * x, A = another name of T, D = A + x, and the dependents D and A

  function AliasExample(): Graph {
    [Independent(0), Operator(Mul, [Operation(0), Operation(0)]), Operator(Alias, [Operation(1)]), Operator(Add,
      [Operation(2), Operation(0)])]
  }

  lemma {:induction false} ExampleValues(f: Semantics, x: real)
    requires AliasMeans(f)
    ensures IsGraph(AliasExample())
    ensures Denote(AliasExample(), f, _ => x, 3) == f(Add, [f(Mul, [x, x]), x])
  {
    var g := AliasExample();
    var w := World(f, _ => x, map[]);
    assert IsGraph(g);
    forall n, k | 1 <= n < 4 && 0 <= k < |g[n].args|
      ensures Values(g, w, n, |g[n].args|)[k] ==
        match g[n].args[k] case Parameter(v) => v case Operation(a) => Value(g, w, a)
    {
      ValuesAt(g, w, n, |g[n].args|, k);
    }
    assert Value(g, w, 0) == x;
    assert Values(g, w, 1, 2) == [x, x];
    assert Values(g, w, 2, 1) == [Value(g, w, 1)];
    assert Value(g, w, 2) == f(Alias, [Value(g, w, 1)]);
    assert Values(g, w, 3, 2) == [Value(g, w, 2), x];
  }

  lemma {:induction false} ExampleOperands(f: Semantics, mem: Memory, n: nat)
    requires n == 1 || n == 3
    ensures IsGraph(AliasExample())
    ensures RightHandSide(AliasExample(), f, [1, 4, 3, 2], mem, n) ==
      if n == 1 then f(Mul, [Read(mem, 1), Read(mem, 1)]) else f(Add, [Read(mem, 3), Read(mem, 1)])
  {
    var g := AliasExample();
    assert IsGraph(g);
    OperandsAre(g, f, [1, 4, 3, 2], mem, n, 2, 0);
    OperandsAre(g, f, [1, 4, 3, 2], mem, n, 2, 1);
    assert Operands(g, f, [1, 4, 3, 2], mem, n, 2) ==
      if n == 1 then [Read(mem, 1), Read(mem, 1)] else [Read(mem, 3), Read(mem, 1)];
  }

  lemma {:induction false} ExampleOrder()
    ensures IsGraph(AliasExample()) && !AliasesFirst(AliasExample(), [3, 2]) && Runnable(AliasExample(), [1, 3, 2])
  {
    var g, dependents := AliasExample(), [3, 2];
    assert HasArg(g, 3, 2) && Below(g, dependents[0], 2) && IsAlias(g, dependents[1]) && dependents[..0] == [];
  }

  lemma {:induction false} ExampleRun(f: Semantics, mem: Memory)
    ensures IsGraph(AliasExample()) && Runnable(AliasExample(), [1, 3, 2])
    ensures var end := Run(AliasExample(), f, [1, 4, 3, 2], [1, 3, 2], mem, 3);
      Read(end, 2) == f(Add, [Read(mem, 3), Read(mem, 1)])
  {
    ExampleOrder();
    hide RightHandSide, IsGraph, Runnable, AliasesFirst, Run;
    var g, ids, queue := AliasExample(), [1, 4, 3, 2], [1, 3, 2];
    RunStep(g, f, ids, queue, mem, 0);
    RunStep(g, f, ids, queue, mem, 1);
    RunStep(g, f, ids, queue, mem, 2);
    RunStep(g, f, ids, queue, mem, 3);
    ExampleOperands(f, Run(g, f, ids, queue, mem, 1), 3);
  }

  /** D is computed from what was in the variable of A before, because A is the later dependent. */
  lemma {:induction false} AliasReadTooEarly(f: Semantics, mem: Memory, x: real)
    requires AliasMeans(f) && Read(mem, 1) == x
    ensures IsGraph(AliasExample()) && !AliasesFirst(AliasExample(), [3, 2]) && Runnable(AliasExample(), [1, 3, 2])
    ensures Read(Run(AliasExample(), f, [1, 4, 3, 2], [1, 3, 2], mem, 3), 2) == f(Add, [Read(mem, 3), x])
    ensures Denote(AliasExample(), f, _ => x, 3) == f(Add, [f(Mul, [x, x]), x])
  {
    hide IsGraph, Runnable, AliasesFirst, Run, Denote;
    ExampleOrder();
    ExampleValues(f, x);
    ExampleRun(f, mem);
  }

  // ---------------------------------------------------------------------------------------------
  // The two ways of giving ids to temporaries

  /** Every variable has an id of its own. */
  lemma {:induction false} UniqueIds(g: Graph, dependents: seq<nat>, creates: seq<bool>, queue: seq<nat>,
                                     order: seq<nat>, varId: seq<nat>,
                                     minId: nat, idCount: nat)
    requires AllNumbered(g, dependents, creates, queue, order)
    requires Identified(g, dependents, queue, varId, minId, idCount) && Unshared(varId)
    ensures Program(g, dependents, creates, queue, order, varId, minId).Valid()
  {}

  lemma {:induction false} UsesAreValid(c: Program, u: Uses)
    requires c.Valid() && IsGraph(c.g) && |c.order| == |c.g|
    requires u.queue == c.queue && u.dependents == c.dependents && LastUses(c.g, c.dependents, c.order, u.lastUse)
    ensures u.Valid() && |u.lastUse| == |c.g|
  {
    forall p | 0 <= p < |u.queue| && u.queue[p] !in u.dependents
      ensures u.queue[p] < |u.lastUse| && p + 1 < u.lastUse[u.queue[p]] <= |u.queue|
    {
      UsedLater(c.g, c.dependents, c.creates, c.queue, c.order, u.lastUse, p);
    }
  }

  /** A queued node is a temporary exactly if its id says so. */
  lemma {:induction false} TemporaryShows(c: Program, p: nat)
    requires c.Valid() && p < |c.queue|
    ensures c.queue[p] < |c.g| && (c.varId[c.queue[p]] >= c.minId <==> c.queue[p] !in c.dependents)
  {
    assert c.queue[p] in c.queue;
  }

  /** Temporaries take new ids that they share only when the last use of one comes before the other. */
  lemma {:induction false} ReusedIds(c: Program, u: Uses, varId: seq<nat>)
    requires c.Valid() && IsGraph(c.g) && |c.order| == |c.g| && u.Valid() && u.queue == c.queue
    requires u.dependents == c.dependents
    requires LastUses(c.g, c.dependents, c.order, u.lastUse) && OtherIdsKept(u, c.varId, varId)
    requires forall p :: 0 <= p < |u.queue| && u.Temporary(p) ==> u.queue[p] < |varId| && c.minId <= varId[u.queue[p]]
    requires |varId| == |u.lastUse| && NoOverlap(u, varId, |u.queue|)
    ensures c.(varId := varId).Valid()
  {
    Statements(c);
    ReusedIdsHold(c, u, varId);
    ReusedIdsShare(c, u, varId);
    hide AllNumbered, Program.Ids, Program.Sharing;
  }

  lemma {:induction false} ReusedIdsHold(c: Program, u: Uses, varId: seq<nat>)
    requires c.Valid() && u.queue == c.queue && u.dependents == c.dependents && OtherIdsKept(u, c.varId, varId)
    requires forall p :: 0 <= p < |u.queue| && u.Temporary(p) ==> u.queue[p] < |varId| && c.minId <= varId[u.queue[p]]
    ensures c.(varId := varId).Ids()
  {
    Statements(c);
    hide AllNumbered, Program.Sharing;
    forall n | 0 <= n < |c.g| && n in c.queue && n !in c.dependents
      ensures varId[n] >= c.minId
    {
      var p: nat :| p < |c.queue| && c.queue[p] == n;
      assert u.Temporary(p);
    }
  }

  lemma {:induction false} ReusedIdsShare(c: Program, u: Uses, varId: seq<nat>)
    requires c.Valid() && IsGraph(c.g) && |c.order| == |c.g| && u.Valid() && u.queue == c.queue
    requires u.dependents == c.dependents
    requires LastUses(c.g, c.dependents, c.order, u.lastUse)
    requires |varId| == |u.lastUse| && NoOverlap(u, varId, |u.queue|)
    ensures c.(varId := varId).Sharing()
  {
    Statements(c);
    hide Live, UsedIn, AllNumbered, Program.Ids;
    forall p, q | 0 <= p < q < |c.queue| && c.queue[p] !in c.dependents && c.queue[q] !in c.dependents &&
             varId[c.queue[p]] == varId[c.queue[q]]
      ensures c.(varId := varId).DeadBefore(p, q)
    {
      assert u.Temporary(p) && u.Temporary(q) && u.lastUse[c.queue[p]] <= q + 1;
    }
  }
}
