/** The memoising evaluator that the solver uses to clone expressions with some parts replaced. */
module EvaluatorSolve {
  import opened Arithmetic
  import opened CloneReach
  import opened CloneSetting
  import opened OperationGraph
  import opened PathGraph
  import opened SingleBifurcation
  import opened Wrappers

  /** c is a right result for node n. */
  ghost predicate IsResult(s: Setting, nodes: Graph, n: nat, c: CG) {
    Accounted(s) && IsGraph(nodes) && s.g <= nodes && n < |s.g| && s.Right(nodes, n, c) && Tidy(s, nodes, n, c)
  }

  /** The results saved so far are right. */
  ghost predicate Saved(s: Setting, nodes: Graph, evals: map<nat, CG>) {
    Accounted(s) && IsGraph(nodes) && s.g <= nodes && forall n :: n in evals ==> IsResult(s, nodes, n, evals[n])
  }

  lemma {:induction false} ResultKept(s: Setting, nodes: Graph, nodes': Graph, n: nat, c: CG)
    requires IsResult(s, nodes, n, c) && IsGraph(nodes') && nodes <= nodes'
    ensures IsResult(s, nodes', n, c)
  {
    OriginalIsGraph(s);
    hide Setting.Right, Tidy, Accounted;
    s.RightKept(nodes, nodes', n, c);
    TidyKept(s, nodes, nodes', n, c);
  }

  lemma {:induction false} NothingSaved(s: Setting, nodes: Graph)
    requires Accounted(s) && IsGraph(nodes) && s.g <= nodes
    ensures Saved(s, nodes, map[]) && Once([], map[])
  {
    hide Accounted;
  }

  lemma {:induction false} SavedResult(s: Setting, nodes: Graph, evals: map<nat, CG>, n: nat)
    requires Saved(s, nodes, evals) && n in evals
    ensures IsResult(s, nodes, n, evals[n])
  {}

  /** Exactly the nodes with a saved result were evaluated, each once. */
  ghost predicate Once(evaluated: seq<nat>, evals: map<nat, CG>) {
    && (forall n :: n in evaluated <==> n in evals)
    && (forall i, j :: 0 <= i < j < |evaluated| ==> evaluated[i] != evaluated[j])
  }

  lemma {:induction false} OnceMore(evaluated: seq<nat>, evals: map<nat, CG>, n: nat, c: CG)
    requires Once(evaluated, evals) && n !in evals
    ensures Once(evaluated + [n], evals[n := c])
  {
    assert n in evaluated + [n];
  }

  lemma {:induction false} SavedKept(s: Setting, nodes: Graph, nodes': Graph, evals: map<nat, CG>)
    requires Saved(s, nodes, evals) && IsGraph(nodes') && nodes <= nodes'
    ensures Saved(s, nodes', evals)
  {
    hide IsResult;
    forall n | n in evals
      ensures IsResult(s, nodes', n, evals[n])
    {
      ResultKept(s, nodes, nodes', n, evals[n]);
    }
  }

  lemma {:induction false} SavedNext(s: Setting, nodes: Graph, evals: map<nat, CG>, n: nat, c: CG)
    requires Saved(s, nodes, evals) && IsResult(s, nodes, n, c)
    ensures Saved(s, nodes, evals[n := c])
  {
    hide IsResult;
  }

  /** Nothing saved is lost, and only nodes before n are added. */
  ghost predicate Extends(evals: map<nat, CG>, evals': map<nat, CG>, n: nat) {
    && (forall k :: k in evals ==> k in evals' && evals'[k] == evals[k])
    && (forall k :: k in evals' && k !in evals ==> k < n)
  }

  lemma {:induction false} ExtendsAgain(a: map<nat, CG>, b: map<nat, CG>, c: map<nat, CG>, n: nat, m: nat)
    requires Extends(a, b, n) && Extends(b, c, m)
    ensures Extends(a, c, if n < m then m else n)
  {}

  lemma {:induction false} ExtendsBelow(a: map<nat, CG>, b: map<nat, CG>, n: nat, m: nat)
    requires Extends(a, b, n + 1) && n < m
    ensures Extends(a, b, m)
  {}

  lemma {:induction false} NothingAdded(a: map<nat, CG>, n: nat)
    ensures Extends(a, a, n)
  {}

  /** The evaluation arrived at node n. */
  ghost predicate Arrived(s: Setting, stack: Path, n: nat) {
    Accounted(s) && s.Tracked(stack, n)
  }

  /** The node is one that is cloned. */
  ghost predicate Clones(s: Setting, stack: Path, n: nat) {
    Arrived(s, stack, n) && s.Cloning(stack, n) && s.g[n].Operator?
  }

  /** c is a right result for argument pos of node n. */
  ghost predicate OperandResult(s: Setting, nodes: Graph, n: nat, pos: nat, c: CG) {
    && Accounted(s) && IsGraph(nodes) && s.g <= nodes && n < |s.g| && s.g[n].Operator? && pos < |s.g[n].args|
    && IsCG(s.g, s.g[n].args[pos]) && s.RightOperand(nodes, s.g[n].args[pos], c)
    && TidyOperand(s, nodes, s.g[n].args[pos], c)
  }

  lemma {:induction false} OperandResultKept(s: Setting, nodes: Graph, nodes': Graph, n: nat, pos: nat, c: CG)
    requires OperandResult(s, nodes, n, pos, c) && IsGraph(nodes') && nodes <= nodes'
    ensures OperandResult(s, nodes', n, pos, c)
  {
    OriginalIsGraph(s);
    hide Setting.Right, Tidy, Accounted;
    if s.g[n].args[pos].Operation? {
      s.RightKept(nodes, nodes', s.g[n].args[pos].node, c);
      TidyKept(s, nodes, nodes', s.g[n].args[pos].node, c);
    }
  }

  // ---------------------------------------------------------------------------------------------
  // The decision about a node

  /** On a path, where there is a replacement. */
  lemma {:induction false} ReplacedOnPath(s: Setting, nodes: Graph, stack: Path, n: nat, p: Path,
                                          replace: seq<Option<CG>>)
    requires Arrived(s, stack, n) && IsGraph(nodes) && s.g <= nodes && s.mode.OnPaths? && Follows(p, stack, n)
    requires (p == s.mode.left && replace == s.mode.replaceLeft)
             || (p == s.mode.right && replace == s.mode.replaceRight)
    requires |stack| < |replace| && replace[|stack|].Some?
    ensures IsResult(s, nodes, n, replace[|stack|].value)
  {
    hide Tidy;
    forall w: World | s.Safe(w)
      ensures CGValue(nodes, w, replace[|stack|].value) == Value(s.g, s.Target(w), n)
    {
      s.TailIsZero(w, p, replace, |stack|);
    }
    ParameterIsTidy(s, nodes, n, 0.0);
  }

  /** On a path, where there is none. */
  lemma {:induction false} ClonedOnPath(s: Setting, stack: Path, n: nat, p: Path, replace: seq<Option<CG>>)
    requires Arrived(s, stack, n) && s.mode.OnPaths? && Follows(p, stack, n)
    requires (p == s.mode.left && replace == s.mode.replaceLeft)
             || (p == s.mode.right && replace == s.mode.replaceRight)
    requires |stack| < |replace| && replace[|stack|].None?
    ensures Clones(s, stack, n)
  {
    assert IsStep(s.g, p[|stack|], p[|stack| + 1].node);
  }

  lemma {:induction false} OffPaths(s: Setting, nodes: Graph, stack: Path, n: nat)
    requires Arrived(s, stack, n) && IsGraph(nodes) && s.g <= nodes && s.mode.OnPaths?
    requires !Follows(s.mode.left, stack, n) && !Follows(s.mode.right, stack, n)
    ensures IsResult(s, nodes, n, Operation(n))
  {
    s.OriginalIsRight(nodes, n);
    OriginalIsTidy(s, nodes, stack, n);
    hide Setting.Right, Tidy;
  }

  lemma {:induction false} InGraph(s: Setting, nodes: Graph, stack: Path, n: nat)
    requires Arrived(s, stack, n) && IsGraph(nodes) && s.g <= nodes && s.mode.OnGraph? && n in s.mode.graph
    ensures n in s.mode.replacement ==> IsResult(s, nodes, n, s.mode.replacement[n])
    ensures n !in s.mode.replacement ==> Clones(s, stack, n)
  {
    hide Setting.Right, Tidy;
    if n in s.mode.replacement {
      s.SubIsRight(nodes);
      SubIsTidy(s, nodes);
    } else {
      ReachesByArgument(s.g, n, s.target);
    }
  }

  lemma {:induction false} OffGraph(s: Setting, nodes: Graph, stack: Path, n: nat)
    requires Arrived(s, stack, n) && IsGraph(nodes) && s.g <= nodes && s.mode.OnGraph? && n !in s.mode.graph
    ensures IsResult(s, nodes, n, Operation(n))
  {
    s.OriginalIsRight(nodes, n);
    OriginalIsTidy(s, nodes, stack, n);
    hide Setting.Right, Tidy;
  }

  lemma {:induction false} ArrivedAtOperand(s: Setting, stack: Path, n: nat, k: nat)
    requires Clones(s, stack, n) && k < |s.g[n].args|
    ensures IsCG(s.g, s.g[n].args[k])
    ensures s.g[n].args[k].Operation? ==>
      s.g[n].args[k].node < n && Arrived(s, stack + [PathNode(n, k)], s.g[n].args[k].node)
  {
    if s.g[n].args[k].Operation? {
      s.TrackedOperand(stack, n, k);
    }
  }

  /** The results for the operands of a clone. */
  ghost predicate OperandResults(s: Setting, nodes: Graph, n: nat, cs: seq<CG>) {
    && Accounted(s) && IsGraph(nodes) && s.g <= nodes && n < |s.g| && s.g[n].Operator? && |cs| == |s.g[n].args|
    && forall k :: 0 <= k < |cs| ==> OperandResult(s, nodes, n, k, cs[k])
  }

  lemma {:induction false} ResultsAreTidy(s: Setting, nodes: Graph, n: nat, cs: seq<CG>)
    requires OperandResults(s, nodes, n, cs)
    ensures TidyOperands(s, nodes, n, cs)
  {
    hide Accounted, Tidy, Setting.Right;
    OriginalIsGraph(s);
    forall k | 0 <= k < |cs|
      ensures TidyOperand(s, nodes, s.g[n].args[k], cs[k]) && IsCG(nodes, cs[k])
    {
      assert OperandResult(s, nodes, n, k, cs[k]);
      OperandIsCG(s, nodes, n, k, cs[k]);
    }
  }

  /** The values of the operations on the results of the operands. */
  ghost predicate ComputesClone(s: Setting, g: Graph, n: nat, op: Op, r: CG, cs: seq<CG>)
    requires IsGraph(g) && IsCG(g, r) && forall k :: 0 <= k < |cs| ==> IsCG(g, cs[k])
  {
    match op
    case Add | Sub | Mul | Div => |cs| == 2 && Computes(g, s.f, n, op, r, cs[0], cs[1])
    case Alias => |cs| == 1 && r == cs[0]
    case UnMinus | Exp | Log => |cs| == 1 && ComputesUnary(g, s.f, n, op, r, cs[0])
    case Other(_) => ComputesAll(g, s.f, n, op, r, cs)
  }

  /** The operation of a cloned node on the results for its operands is a right result. */
  lemma {:induction false} CloneIsRight(s: Setting, nodes: Graph, nodes': Graph, stack: Path, n: nat, cs: seq<CG>,
                                        r: CG)
    requires Clones(s, stack, n) && OperandResults(s, nodes, n, cs) && IsGraph(nodes') && nodes <= nodes'
    requires IsCG(nodes', r) && (forall k :: 0 <= k < |cs| ==> IsCG(nodes', cs[k]))
    requires ComputesClone(s, nodes', |nodes|, s.g[n].op, r, cs)
    ensures IsGraph(s.g) && IsCG(s.g, s.sub) && s.Right(nodes', n, r)
  {
    ClonedNode(s, stack, n);
    RightOperands(s, nodes, n, cs);
    hide Accounted, Setting.Valid, Setting.Right, Setting.Cloned, OperandResults, Computes, ComputesUnary, ComputesAll,
      Setting.RightOperand, Clones;
    match s.g[n].op {
      case Add | Sub | Mul | Div => s.BinaryIsRight(nodes, nodes', n, cs[0], cs[1], r);
      case UnMinus | Alias | Exp | Log => s.UnaryIsRight(nodes, nodes', n, cs[0], r);
      case Other(_) => s.OtherIsRight(nodes, nodes', n, cs, r);
    }
  }

  lemma {:induction false} ClonedNode(s: Setting, stack: Path, n: nat)
    requires Clones(s, stack, n)
    ensures s.Valid() && IsGraph(s.g) && IsCG(s.g, s.sub) && s.Cloned(n) && n != s.target
  {
    OriginalIsGraph(s);
    s.CloningIsCloned(stack, n);
    hide Setting.Cloned, Setting.Cloning, Setting.Tracked;
  }

  lemma {:induction false} RightOperands(s: Setting, nodes: Graph, n: nat, cs: seq<CG>)
    requires OperandResults(s, nodes, n, cs) && IsGraph(s.g) && IsCG(s.g, s.sub)
    ensures forall k :: 0 <= k < |cs| ==> IsCG(s.g, s.g[n].args[k]) && s.RightOperand(nodes, s.g[n].args[k], cs[k])
  {
    hide Accounted, Setting.RightOperand, Tidy;
    forall k | 0 <= k < |cs|
      ensures IsCG(s.g, s.g[n].args[k]) && s.RightOperand(nodes, s.g[n].args[k], cs[k])
    {
      assert OperandResult(s, nodes, n, k, cs[k]);
    }
  }

  /** The clone is a right result, and the bifurcations of the new node are accounted for. */
  lemma {:induction false} CloneResult(s: Setting, nodes: Graph, nodes': Graph, done: set<nat>, stack: Path, n: nat,
                                       cs: seq<CG>, r: CG)
    requires Clones(s, stack, n) && OperandResults(s, nodes, n, cs) && IsGraph(nodes') && nodes <= nodes'
    requires IsCG(nodes', r) && (forall k :: 0 <= k < |cs| ==> IsCG(nodes', cs[k]))
    requires ComputesClone(s, nodes', |nodes|, s.g[n].op, r, cs) && Made(nodes, nodes', s.g[n].op, cs, r)
    requires Ledger(s, nodes, done, 0)
    ensures IsResult(s, nodes', n, r) && Ledger(s, nodes', done, Share(s, n))
  {
    CloneFacts(s, stack, n);
    hide Accounted, Setting.Right, Tidy, Clones, ComputesClone, OperandResults, Made, Ledger, Setting.Tracked,
      Setting.Cloning;
    CloneIsRight(s, nodes, nodes', stack, n, cs, r);
    ResultsAreTidy(s, nodes, n, cs);
    MadeIsTidy(s, nodes, nodes', n, s.g[n].op, cs, r);
    LedgerMade(s, nodes, nodes', done, stack, n, s.g[n].op, cs, r);
  }

  lemma {:induction false} CloneFacts(s: Setting, stack: Path, n: nat)
    requires Clones(s, stack, n)
    ensures Accounted(s) && IsGraph(s.g) && IsGraph(s.original) && n < |s.g| && s.g[n].Operator?
    ensures s.Tracked(stack, n) && s.Cloning(stack, n)
  {
    OriginalIsGraph(s);
  }

  // ---------------------------------------------------------------------------------------------
  // The evaluator

  /** `evalAdd`, `evalMinus`, `evalMul`, and `evalDiv` on the results of the operands. */
  method ApplyBinary(handler: NodeManager, op: Op, a: CG, b: CG) returns (r: CG)
    requires handler.Valid() && IsCG(handler.nodes, a) && IsCG(handler.nodes, b)
    requires op == Add || op == Sub || op == Mul || op == Div
    modifies handler
    ensures handler.Valid() && old(handler.nodes) <= handler.nodes && IsGraph(handler.nodes)
    ensures IsCG(handler.nodes, r) && IsCG(handler.nodes, a) && IsCG(handler.nodes, b)
    ensures Computes(handler.nodes, handler.f, |old(handler.nodes)|, op, r, a, b)
    ensures Made(old(handler.nodes), handler.nodes, op, [a, b], r)
  {
    hide Computes, IsArithmetic, WellShaped;
    match op {
      case Add => r := handler.Plus(a, b);
      case Sub => r := handler.Minus(a, b);
      case Mul => r := handler.Times(a, b);
      case Div => r := handler.Over(a, b);
    }
  }

  /** `evalUnaryMinus`, `evalAlias`, `evalExp`, and `evalLog`. */
  method ApplyUnary(handler: NodeManager, op: Op, a: CG) returns (r: CG)
    requires handler.Valid() && IsCG(handler.nodes, a) && (op == UnMinus || op == Alias || op == Exp || op == Log)
    modifies handler
    ensures handler.Valid() && old(handler.nodes) <= handler.nodes && IsGraph(handler.nodes)
    ensures IsCG(handler.nodes, r) && IsCG(handler.nodes, a) && Made(old(handler.nodes), handler.nodes, op, [a], r)
    ensures if op == Alias then r == a else ComputesUnary(handler.nodes, handler.f, |old(handler.nodes)|, op, r, a)
  {
    hide ComputesUnary, IsArithmetic, WellShaped;
    match op {
      case UnMinus => r := handler.Negate(a);
      case Alias => r := a;
      case Exp => r := handler.Call(Exp, a);
      case Log => r := handler.Call(Log, a);
    }
  }

  class EvaluatorCloneSolve {
    const handler: NodeManager
    const setting: Setting
    var evals: map<nat, CG>
    var path: Path
    var depth: nat
    // the nodes in the order in which they were evaluated
    ghost var evaluated: seq<nat>

    ghost predicate Consistent()
      reads this, handler
    {
      && handler.Valid() && handler.f == setting.f && depth == |path| && Saved(setting, handler.nodes, evals)
      && Once(evaluated, evals)
    }

    ghost predicate Valid()
      reads this, handler
    {
      Consistent() && Ledger(setting, handler.nodes, evals.Keys, 0)
    }

    /** The node was evaluated, but its result is not saved yet. */
    ghost predicate Pending(node: nat)
      reads this, handler
    {
      Consistent() && Ledger(setting, handler.nodes, evals.Keys, Share(setting, node))
    }

    constructor (handler: NodeManager, setting: Setting)
      requires handler.Valid() && handler.f == setting.f && Accounted(setting) && setting.g <= handler.nodes
      ensures this.handler == handler && this.setting == setting && path == [] && evals == map[]
    {
      this.handler, this.setting, evals, path, depth, evaluated := handler, setting, map[], [], 0, [];
    }

    lemma {:induction false} LedgerClosed()
      requires Valid()
      ensures Ledger(setting, handler.nodes, evals.Keys, 0)
    {}

    /** The steps taken before the node that is being evaluated. */
    ghost function Stack(): Path
      reads this
      requires path != []
    {
      path[..|path| - 1]
    }

    ghost predicate IsAt(node: nat)
      reads this
    {
      path != [] && path[|path| - 1].node == node
    }

    /** The evaluation is at the node of the path that has the same depth. */
    predicate IsOnPath(p: Path)
      reads this
      requires depth == |path| > 0
      ensures IsOnPath(p) <==> Follows(p, Stack(), path[|path| - 1].node)
    {
      depth - 1 < |p| && path[depth - 1].node == p[depth - 1].node && forall j :: 0 <= j < depth - 1 ==> path[j] == p[j]
    }

    /** `evalArg`. */
    method EvalArg(node: nat, pos: nat) returns (r: CG)
      requires Valid() && IsAt(node) && Clones(setting, Stack(), node) && pos < |setting.g[node].args|
      modifies this`evals, this`evaluated, this`path, this`depth, handler
      ensures Valid() && IsAt(node) && Stack() == old(Stack()) && old(handler.nodes) <= handler.nodes
      ensures Extends(old(evals), evals, node) && OperandResult(setting, handler.nodes, node, pos, r)
      decreases node, 0, 0
    {
      ArrivedAtOperand(setting, Stack(), node, pos);
      ClonesFacts(setting, Stack(), node);
      hide NodeManager.Valid, Saved, IsResult, Arrived, Ledger, Accounted, Once, OperandResult, Clones, IsCG, Extends;
      var arg := setting.g[node].args[pos];
      if arg.Operation? {
        path := path[|path| - 1 := PathNode(node, pos)];
        assert path == old(Stack()) + [PathNode(node, pos)];
        r := EvalOperations(arg.node);
        OperandIsResult(setting, handler.nodes, node, pos, r);
        ExtendsBelow(old(evals), evals, arg.node, node);
      } else {
        r := arg;
        OperandIsParameter(setting, handler.nodes, evals, node, pos);
        NothingAdded(evals, node);
      }
    }

    /** `evalOperations`: every node is evaluated once. */
    method EvalOperations(node: nat) returns (r: CG)
      requires Valid() && Arrived(setting, path, node)
      modifies this`evals, this`evaluated, this`path, this`depth, handler
      ensures Valid() && path == old(path) && old(handler.nodes) <= handler.nodes
      ensures Extends(old(evals), evals, node + 1) && node in evals && r == evals[node]
      ensures IsResult(setting, handler.nodes, node, r)
      decreases node, 3
    {
      hide NodeManager.Valid, Saved, IsResult, Arrived, Ledger, Accounted, Once;
      if node in evals {
        SavedResult(setting, handler.nodes, evals, node);
        return evals[node];
      }
      path := path + [PathNode(node, -1)];
      depth := depth + 1;
      assert Stack() == old(path);
      r := EvalOperation(node);
      // a node is not evaluated while its operands are
      assert node !in evals;
      SaveEvaluation(node, r);
      depth := depth - 1;
      path := path[..|path| - 1];
    }

    /** `saveEvaluation`. */
    method SaveEvaluation(node: nat, result: CG)
      requires Pending(node) && node !in evals && IsResult(setting, handler.nodes, node, result)
      modifies this`evals, this`evaluated
      ensures Valid() && evals == old(evals)[node := result]
    {
      hide Saved, IsResult, Ledger, NodeManager.Valid, Once;
      OnceMore(evaluated, evals, node, result);
      SavedNext(setting, handler.nodes, evals, node, result);
      LedgerDone(setting, handler.nodes, evals.Keys, node);
      assert evals[node := result].Keys == evals.Keys + {node};
      evals := evals[node := result];
      evaluated := evaluated + [node];
    }

    /** `evalOperation`: a replacement, a clone, or the node itself. */
    method EvalOperation(node: nat) returns (r: CG)
      requires Valid() && IsAt(node) && Arrived(setting, Stack(), node)
      modifies this`evals, this`evaluated, this`path, this`depth, handler
      ensures Pending(node) && IsAt(node) && Stack() == old(Stack()) && old(handler.nodes) <= handler.nodes
      ensures Extends(old(evals), evals, node) && IsResult(setting, handler.nodes, node, r)
      decreases node, 2
    {
      SavedFacts(setting, handler.nodes, evals);
      hide NodeManager.Valid, Saved, IsResult, Arrived, Ledger, Accounted, Once, Clones, Follows;
      match setting.mode {
        case OnPaths(left, right, replaceLeft, replaceRight) =>
          if IsOnPath(left) {
            r := EvalOnPath(node, left, replaceLeft);
          } else if IsOnPath(right) {
            r := EvalOnPath(node, right, replaceRight);
          } else {
            OffPaths(setting, handler.nodes, Stack(), node);
            LedgerMore(setting, handler.nodes, evals.Keys, node);
            r := Operation(node);
          }
        case OnGraph(_, graph, replacement) =>
          if node in graph {
            InGraph(setting, handler.nodes, Stack(), node);
            if node in replacement {
              LedgerMore(setting, handler.nodes, evals.Keys, node);
              r := replacement[node];
            } else {
              r := CloneOperation(node);
            }
          } else {
            OffGraph(setting, handler.nodes, Stack(), node);
            LedgerMore(setting, handler.nodes, evals.Keys, node);
            r := Operation(node);
          }
      }
    }

    method EvalOnPath(node: nat, p: Path, replace: seq<Option<CG>>) returns (r: CG)
      requires Valid() && IsAt(node) && Arrived(setting, Stack(), node) && setting.mode.OnPaths?
      requires Follows(p, Stack(), node)
      requires (p == setting.mode.left && replace == setting.mode.replaceLeft)
               || (p == setting.mode.right && replace == setting.mode.replaceRight)
      modifies this`evals, this`evaluated, this`path, this`depth, handler
      ensures Pending(node) && IsAt(node) && Stack() == old(Stack()) && old(handler.nodes) <= handler.nodes
      ensures Extends(old(evals), evals, node) && IsResult(setting, handler.nodes, node, r)
      decreases node, 2, 0
    {
      SavedFacts(setting, handler.nodes, evals);
      ReplacementsFit(setting, Stack(), node, p, replace);
      hide NodeManager.Valid, Saved, IsResult, Arrived, Ledger, Accounted, Once, Clones, Follows;
      if replace[depth - 1].Some? {
        ReplacedOnPath(setting, handler.nodes, Stack(), node, p, replace);
        LedgerMore(setting, handler.nodes, evals.Keys, node);
        r := replace[depth - 1].value;
      } else {
        ClonedOnPath(setting, Stack(), node, p, replace);
        r := CloneOperation(node);
      }
    }

    /** The evaluation of an ordinary operation, on the results of its operands. */
    method CloneOperation(node: nat) returns (r: CG)
      requires Valid() && IsAt(node) && Clones(setting, Stack(), node)
      modifies this`evals, this`evaluated, this`path, this`depth, handler
      ensures Pending(node) && IsAt(node) && Stack() == old(Stack()) && old(handler.nodes) <= handler.nodes
      ensures Extends(old(evals), evals, node) && IsResult(setting, handler.nodes, node, r)
      decreases node, 1
    {
      ClonesFacts(setting, Stack(), node);
      hide NodeManager.Valid, Saved, IsResult, Arrived, Ledger, Accounted, Once, Clones;
      var op := setting.g[node].op;
      match op {
        case Add | Sub | Mul | Div =>
          r := CloneBinary(node);
        case UnMinus | Alias | Exp | Log =>
          r := CloneUnary(node);
        case Other(_) =>
          r := CloneOther(node);
      }
    }

    method CloneBinary(node: nat) returns (r: CG)
      requires Valid() && IsAt(node) && Clones(setting, Stack(), node)
      requires var op := setting.g[node].op; op == Add || op == Sub || op == Mul || op == Div
      modifies this`evals, this`evaluated, this`path, this`depth, handler
      ensures Pending(node) && IsAt(node) && Stack() == old(Stack()) && old(handler.nodes) <= handler.nodes
      ensures Extends(old(evals), evals, node) && IsResult(setting, handler.nodes, node, r)
      decreases node, 1, 0
    {
      ClonesFacts(setting, Stack(), node);
      hide NodeManager.Valid, Saved, IsResult, Arrived, Ledger, Accounted, Once, Clones, OperandResult, OperandResults,
        Computes, Extends;
      ghost var evals0, stack := evals, Stack();
      var a := EvalArg(node, 0);
      ghost var evals1, nodes1 := evals, handler.nodes;
      var b := EvalArg(node, 1);
      ghost var nodes2 := handler.nodes;
      ExtendsAgain(evals0, evals1, evals, node, node);
      OperandResultKept(setting, nodes1, nodes2, node, 0, a);
      OperandIsCG(setting, nodes2, node, 0, a);
      OperandIsCG(setting, nodes2, node, 1, b);
      r := ApplyBinary(handler, setting.g[node].op, a, b);
      BothResults(setting, nodes2, node, a, b);
      CloneResult(setting, nodes2, handler.nodes, evals.Keys, stack, node, [a, b], r);
      SavedKept(setting, nodes2, handler.nodes, evals);
    }

    method CloneUnary(node: nat) returns (r: CG)
      requires Valid() && IsAt(node) && Clones(setting, Stack(), node)
      requires var op := setting.g[node].op; op == UnMinus || op == Alias || op == Exp || op == Log
      modifies this`evals, this`evaluated, this`path, this`depth, handler
      ensures Pending(node) && IsAt(node) && Stack() == old(Stack()) && old(handler.nodes) <= handler.nodes
      ensures Extends(old(evals), evals, node) && IsResult(setting, handler.nodes, node, r)
      decreases node, 1, 0
    {
      ClonesFacts(setting, Stack(), node);
      hide NodeManager.Valid, Saved, IsResult, Arrived, Ledger, Accounted, Once, Clones, OperandResult, OperandResults,
        ComputesUnary, Extends;
      ghost var stack := Stack();
      var a := EvalArg(node, 0);
      ghost var nodes1 := handler.nodes;
      OperandIsCG(setting, nodes1, node, 0, a);
      r := ApplyUnary(handler, setting.g[node].op, a);
      OneResult(setting, nodes1, node, a);
      CloneResult(setting, nodes1, handler.nodes, evals.Keys, stack, node, [a], r);
      SavedKept(setting, nodes1, handler.nodes, evals);
    }

    /** The results for all operands. */
    method EvalArgs(node: nat) returns (args: seq<CG>)
      requires Valid() && IsAt(node) && Clones(setting, Stack(), node)
      modifies this`evals, this`evaluated, this`path, this`depth, handler
      ensures Valid() && IsAt(node) && Stack() == old(Stack()) && old(handler.nodes) <= handler.nodes
      ensures Extends(old(evals), evals, node) && |args| == |setting.g[node].args|
      ensures SomeResults(setting, handler.nodes, node, args)
      decreases node, 0, 1
    {
      ClonesFacts(setting, Stack(), node);
      hide NodeManager.Valid, Saved, IsResult, Arrived, Ledger, Accounted, Once, Clones, SomeResults, Extends;
      ghost var evals0 := evals;
      args := [];
      NoResults(setting, handler.nodes, evals, node);
      for k := 0 to |setting.g[node].args|
        invariant Valid() && IsAt(node) && Stack() == old(Stack()) && old(handler.nodes) <= handler.nodes && |args| == k
        invariant Extends(evals0, evals, node) && SomeResults(setting, handler.nodes, node, args)
      {
        ghost var nodes1, evals1 := handler.nodes, evals;
        var a := EvalArg(node, k);
        ExtendsAgain(evals0, evals1, evals, node, node);
        OneMoreResult(setting, nodes1, handler.nodes, evals, node, args, a);
        args := args + [a];
      }
    }

    method CloneOther(node: nat) returns (r: CG)
      requires Valid() && IsAt(node) && Clones(setting, Stack(), node) && setting.g[node].op.Other?
      modifies this`evals, this`evaluated, this`path, this`depth, handler
      ensures Pending(node) && IsAt(node) && Stack() == old(Stack()) && old(handler.nodes) <= handler.nodes
      ensures Extends(old(evals), evals, node) && IsResult(setting, handler.nodes, node, r)
      decreases node, 1, 0
    {
      ClonesFacts(setting, Stack(), node);
      hide Saved, IsResult, Arrived, Ledger, Accounted, Once, OperandResult, SomeResults, OperandResults, ComputesAll,
        Clones, Extends,
        IsArithmetic, WellShaped;
      ghost var stack := Stack();
      var args := EvalArgs(node);
      ghost var nodes2 := handler.nodes;
      AllResults(setting, nodes2, evals, node, args);
      r := handler.MakeNodeOf(setting.g[node].op, args);
      CloneResult(setting, nodes2, handler.nodes, evals.Keys, stack, node, args, r);
      SavedKept(setting, nodes2, handler.nodes, evals);
    }

    /** `evaluate` for one dependent variable that is a node. */
    method Evaluate(depOld: nat) returns (depNew: CG)
      requires handler.Valid() && handler.f == setting.f && Arrived(setting, [], depOld) && setting.g <= handler.nodes
      requires setting.mode.OnGraph? ==> handler.nodes == setting.g
      modifies this`evals, this`evaluated, this`path, this`depth, handler
      ensures handler.Valid() && old(handler.nodes) <= handler.nodes && IsResult(setting, handler.nodes, depOld, depNew)
      ensures Valid() && path == [] && depth == 0
    {
      LedgerStart(setting, handler.nodes);
      NothingSaved(setting, handler.nodes);
      hide Accounted, Saved, Once, Ledger, IsResult, Arrived, IsArithmetic, WellShaped;
      evals, evaluated, path, depth := map[], [], [], 0;
      assert evals.Keys == {};
      depNew := EvalOperations(depOld);
    }
  }

  lemma {:induction false} SavedFacts(s: Setting, nodes: Graph, evals: map<nat, CG>)
    requires Saved(s, nodes, evals)
    ensures Accounted(s) && IsGraph(nodes) && s.g <= nodes
  {}

  lemma {:induction false} BothResults(s: Setting, nodes: Graph, n: nat, a: CG, b: CG)
    requires OperandResult(s, nodes, n, 0, a) && OperandResult(s, nodes, n, 1, b) && |s.g[n].args| == 2
    ensures OperandResults(s, nodes, n, [a, b])
  {
    hide Accounted, Tidy, Setting.RightOperand;
  }

  /** Results for the first operands of n. */
  ghost predicate SomeResults(s: Setting, nodes: Graph, n: nat, args: seq<CG>) {
    && n < |s.g| && s.g[n].Operator? && |args| <= |s.g[n].args|
    && forall k :: 0 <= k < |args| ==> OperandResult(s, nodes, n, k, args[k])
  }

  lemma {:induction false} NoResults(s: Setting, nodes: Graph, evals: map<nat, CG>, n: nat)
    requires Saved(s, nodes, evals) && n < |s.g| && s.g[n].Operator?
    ensures SomeResults(s, nodes, n, [])
  {}

  lemma {:induction false} OneMoreResult(s: Setting, nodes: Graph, nodes': Graph, evals: map<nat, CG>, n: nat,
                                         args: seq<CG>, a: CG)
    requires SomeResults(s, nodes, n, args) && Saved(s, nodes', evals) && nodes <= nodes'
    requires OperandResult(s, nodes', n, |args|, a)
    ensures SomeResults(s, nodes', n, args + [a])
  {
    SavedFacts(s, nodes', evals);
    hide Saved, Accounted, OperandResult;
    forall k | 0 <= k < |args|
      ensures OperandResult(s, nodes', n, k, args[k])
    {
      OperandResultKept(s, nodes, nodes', n, k, args[k]);
    }
    ResultInRange(s, nodes', n, |args|, a);
  }

  lemma {:induction false} ResultInRange(s: Setting, nodes: Graph, n: nat, k: nat, c: CG)
    requires OperandResult(s, nodes, n, k, c)
    ensures n < |s.g| && s.g[n].Operator? && k < |s.g[n].args|
  {}

  lemma {:induction false} AllResults(s: Setting, nodes: Graph, evals: map<nat, CG>, n: nat, args: seq<CG>)
    requires SomeResults(s, nodes, n, args) && Saved(s, nodes, evals) && |args| == |s.g[n].args|
    ensures OperandResults(s, nodes, n, args) && forall k :: 0 <= k < |args| ==> IsCG(nodes, args[k])
  {
    SavedFacts(s, nodes, evals);
    hide Saved, Accounted, OperandResult;
    forall k | 0 <= k < |args|
      ensures IsCG(nodes, args[k])
    {
      OperandIsCG(s, nodes, n, k, args[k]);
    }
  }

  lemma {:induction false} OneResult(s: Setting, nodes: Graph, n: nat, a: CG)
    requires OperandResult(s, nodes, n, 0, a) && |s.g[n].args| == 1
    ensures OperandResults(s, nodes, n, [a])
  {
    hide Accounted, Tidy, Setting.RightOperand;
  }

  lemma {:induction false} OperandIsResult(s: Setting, nodes: Graph, n: nat, pos: nat, c: CG)
    requires n < |s.g| && s.g[n].Operator? && pos < |s.g[n].args| && s.g[n].args[pos].Operation?
    requires IsResult(s, nodes, s.g[n].args[pos].node, c)
    ensures OperandResult(s, nodes, n, pos, c)
  {}

  lemma {:induction false} OperandIsParameter(s: Setting, nodes: Graph, evals: map<nat, CG>, n: nat, pos: nat)
    requires Saved(s, nodes, evals) && n < |s.g| && s.g[n].Operator? && pos < |s.g[n].args|
    requires s.g[n].args[pos].Parameter?
    ensures OperandResult(s, nodes, n, pos, s.g[n].args[pos])
  {}

  lemma {:induction false} OperandIsCG(s: Setting, nodes: Graph, n: nat, pos: nat, c: CG)
    requires OperandResult(s, nodes, n, pos, c)
    ensures IsCG(nodes, c)
  {}

  lemma {:induction false} ClonesFacts(s: Setting, stack: Path, n: nat)
    requires Clones(s, stack, n)
    ensures n < |s.g| && s.g[n].Operator? && TakesOperands(s.g[n].op, |s.g[n].args|)
  {}

  lemma {:induction false} ReplacementsFit(s: Setting, stack: Path, n: nat, p: Path, replace: seq<Option<CG>>)
    requires Arrived(s, stack, n) && s.mode.OnPaths? && Follows(p, stack, n)
    requires (p == s.mode.left && replace == s.mode.replaceLeft)
             || (p == s.mode.right && replace == s.mode.replaceRight)
    ensures |stack| < |replace|
  {}
}
