/** The symbolic solver. */
module Solver {
  import opened Arithmetic
  import opened CollectVariables
  import opened CollectVariableAddSubs
  import opened OperationGraph
  import opened PathCount
  import opened PathGraph
  import opened PathInversion
  import opened SingleBifurcation
  import opened Wrappers

  /** No value of the node determines its operand on the path. */
  ghost predicate Obstructs(g: Graph, s: PathNode) {
    s.node < |g| && g[s.node].Operator? && !IsUndoable(g[s.node].op, s.argIndex)
  }

  /** The way to the variable leads through an operation that cannot be undone. */
  ghost predicate IsObstructed(g: Graph, path: Path) {
    exists n :: 0 <= n < |path| - 1 && Obstructs(g, path[n])
  }

  /** What the solver refuses to undo cannot be undone. */
  lemma {:induction false} InvertsIfUndoable(g: Graph, path: Path, n: nat)
    requires IsGraph(g) && WellShaped(g) && IsPath(g, path) && n < |path| - 1
    ensures path[n].node < |g| && g[path[n].node].Operator?
    ensures CanInvert(g[path[n].node].op) <==> !Obstructs(g, path[n])
  {
    assert IsStep(g, path[n], path[n + 1].node);
    hide IsUndoable, CanInvert;
    CanInvertUndoable(g[path[n].node].op, path[n].argIndex);
  }

  /** r is the value that the operand of a node must have if the node has the value rhs. */
  ghost predicate Inverted(g: Graph, g': Graph, f: Semantics, pnodeOp: PathNode, rhs: CG, r: CG)
    requires IsGraph(g) && IsGraph(g') && IsCG(g, rhs) && IsCG(g', r)
    requires pnodeOp.node < |g| && g[pnodeOp.node].Operator?
  {
    forall w: World {:trigger CGValue(g', w, r)} :: Fits(w, f, |g|) && CanUndo(g, w, pnodeOp, CGValue(g, w, rhs)) ==>
      CGValue(g', w, r) == NextValue(g, w, pnodeOp, CGValue(g, w, rhs))
  }

  /** The step of the path inversion for one node: the value that its operand on the path must have. */
  method InvertNode(handler: NodeManager, pnodeOp: PathNode, rhs: CG) returns (r: CG)
    requires handler.Valid() && IsCG(handler.nodes, rhs)
    requires pnodeOp.node < |handler.nodes| && handler.nodes[pnodeOp.node].Operator?
    requires CanInvert(handler.nodes[pnodeOp.node].op)
    requires 0 <= pnodeOp.argIndex < |handler.nodes[pnodeOp.node].args|
    modifies handler
    ensures handler.Valid() && old(handler.nodes) <= handler.nodes && IsCG(handler.nodes, r)
    ensures Inverted(old(handler.nodes), handler.nodes, handler.f, pnodeOp, rhs, r)
  {
    hide Computes, ComputesUnary, Made, CanUndo, NextValue, Fits, IsArithmetic, TakesOperands;
    ghost var g := handler.nodes;
    var args := handler.nodes[pnodeOp.node].args;
    var op := handler.nodes[pnodeOp.node].op;
    var argIndex := pnodeOp.argIndex;
    OperandsAreOld(g, pnodeOp.node);
    match op {
      case Mul =>
        r := handler.DivideBy(rhs, args[if argIndex == 0 then 1 else 0]);
      case Div =>
        if argIndex == 0 {
          r := handler.Times(rhs, args[1]);
        } else {
          r := handler.Over(args[0], rhs);
        }
      case UnMinus =>
        r := handler.Times(rhs, Parameter(-1.0));
      case Add =>
        r := handler.Minus(rhs, args[if argIndex == 0 then 1 else 0]);
      case Alias =>
        r := rhs;
      case Sub =>
        if argIndex == 0 {
          r := handler.Plus(rhs, args[1]);
        } else {
          r := handler.Minus(args[0], rhs);
        }
      case Exp =>
        r := handler.Call(Log, rhs);
      case Log =>
        r := handler.Call(Exp, rhs);
    }
    forall w: World | Fits(w, handler.f, |g|) && CanUndo(g, w, pnodeOp, CGValue(g, w, rhs))
      ensures CGValue(handler.nodes, w, r) == NextValue(g, w, pnodeOp, CGValue(g, w, rhs))
    {
      NodeInverted(g, handler.nodes, handler.f, w, pnodeOp, rhs, r);
    }
  }

  /** The operation that undoes the operation of a path node was applied. */
  ghost predicate Undone(g: Graph, f: Semantics, n: nat, op: Op, argIndex: int, other: CG, rhs: CG, r: CG)
    requires IsGraph(g) && IsCG(g, other) && IsCG(g, rhs) && IsCG(g, r)
  {
    match op
    case Mul => Computes(g, f, n, Div, r, rhs, other)
    case Div => if argIndex == 0 then Computes(g, f, n, Mul, r, rhs, other) else Computes(g, f, n, Div, r, other, rhs)
    case UnMinus => Computes(g, f, n, Mul, r, rhs, Parameter(-1.0))
    case Add => Computes(g, f, n, Sub, r, rhs, other)
    case Sub => if argIndex == 0 then Computes(g, f, n, Add, r, rhs, other) else Computes(g, f, n, Sub, r, other, rhs)
    case Alias => r == rhs
    case Exp => ComputesUnary(g, f, n, Log, r, rhs)
    case Log => ComputesUnary(g, f, n, Exp, r, rhs)
    case Other(_) => false
  }

  /** The value of the operation that was applied. */
  ghost function AppliedInverse(f: Semantics, op: Op, argIndex: int, other: real, rhs: real): real {
    match op
    case Mul => f(Div, [rhs, other])
    case Div => if argIndex == 0 then f(Mul, [rhs, other]) else f(Div, [other, rhs])
    case UnMinus => f(Mul, [rhs, -1.0])
    case Add => f(Sub, [rhs, other])
    case Sub => if argIndex == 0 then f(Add, [rhs, other]) else f(Sub, [other, rhs])
    case Alias => rhs
    case Exp => f(Log, [rhs])
    case Log => f(Exp, [rhs])
    case Other(_) => rhs
  }

  lemma {:induction false} AppliedIsInverse(f: Semantics, op: Op, argIndex: int, other: real, rhs: real)
    requires IsArithmetic(f) && HasInverse(op, argIndex, other, rhs)
    ensures AppliedInverse(f, op, argIndex, other, rhs) == Inverse(f, op, argIndex, other, rhs)
  {
    assert rhs * -1.0 == -rhs;
  }

  lemma {:induction false} ComputedValue(g: Graph, f: Semantics, n: nat, op: Op, r: CG, a: CG, b: CG, w: World)
    requires IsGraph(g) && IsCG(g, r) && IsCG(g, a) && IsCG(g, b) && Computes(g, f, n, op, r, a, b)
    requires Fits(w, f, n) && (op == Div ==> CGValue(g, w, b) != 0.0)
    ensures CGValue(g, w, r) == f(op, [CGValue(g, w, a), CGValue(g, w, b)])
  {}

  lemma {:induction false} UndoneValue(g: Graph, f: Semantics, n: nat, op: Op, argIndex: int, other: CG, rhs: CG, r: CG,
                                       w: World)
    requires IsGraph(g) && IsCG(g, other) && IsCG(g, rhs) && IsCG(g, r) && IsArithmetic(f)
    requires Undone(g, f, n, op, argIndex, other, rhs, r) && Fits(w, f, n)
    requires HasInverse(op, argIndex, CGValue(g, w, other), CGValue(g, w, rhs))
    ensures CGValue(g, w, r) == Inverse(f, op, argIndex, CGValue(g, w, other), CGValue(g, w, rhs))
  {
    AppliedIsInverse(f, op, argIndex, CGValue(g, w, other), CGValue(g, w, rhs));
    hide Inverse, IsArithmetic, Computes, Value, Fits;
    match op {
      case Mul => ComputedValue(g, f, n, Div, r, rhs, other, w);
      case Div =>
        if argIndex == 0 {
          ComputedValue(g, f, n, Mul, r, rhs, other, w);
        } else {
          ComputedValue(g, f, n, Div, r, other, rhs, w);
        }
      case UnMinus => ComputedValue(g, f, n, Mul, r, rhs, Parameter(-1.0), w);
      case Add => ComputedValue(g, f, n, Sub, r, rhs, other, w);
      case Sub =>
        if argIndex == 0 {
          ComputedValue(g, f, n, Add, r, rhs, other, w);
        } else {
          ComputedValue(g, f, n, Sub, r, other, rhs, w);
        }
      case Alias => {}
      case Exp => {}
      case Log => {}
      case Other(_) => {}
    }
  }

  lemma {:induction false} NodeInverted(g: Graph, g': Graph, f: Semantics, w: World, pnodeOp: PathNode, rhs: CG, r: CG)
    requires IsGraph(g) && IsGraph(g') && g <= g' && WellShaped(g) && IsCG(g, rhs) && IsCG(g', r) && IsArithmetic(f)
    requires pnodeOp.node < |g| && g[pnodeOp.node].Operator? && 0 <= pnodeOp.argIndex < |g[pnodeOp.node].args|
    requires CanInvert(g[pnodeOp.node].op)
    requires Fits(w, f, |g|) && CanUndo(g, w, pnodeOp, CGValue(g, w, rhs))
    requires var args := g[pnodeOp.node].args;
      var other := if |args| == 2 then args[if pnodeOp.argIndex == 0 then 1 else 0] else Parameter(0.0);
      IsCG(g', rhs) && IsCG(g', other) && Undone(g', f, |g|, g[pnodeOp.node].op, pnodeOp.argIndex, other, rhs, r)
    ensures CGValue(g', w, r) == NextValue(g, w, pnodeOp, CGValue(g, w, rhs))
  {
    var args := g[pnodeOp.node].args;
    var other := if |args| == 2 then args[if pnodeOp.argIndex == 0 then 1 else 0] else Parameter(0.0);
    OperandsAreOld(g, pnodeOp.node);
    CGValueKept(g, g', w, rhs);
    CGValueKept(g, g', w, other);
    hide Undone, Inverse, HasInverse, CGValue, IsArithmetic;
    UndoneValue(g', f, |g|, g[pnodeOp.node].op, pnodeOp.argIndex, other, rhs, r, w);
  }

  lemma {:induction false} OperandsAreOld(g: Graph, n: nat)
    requires IsGraph(g) && WellShaped(g) && n < |g| && g[n].Operator?
    ensures TakesOperands(g[n].op, |g[n].args|)
    ensures forall k :: 0 <= k < |g[n].args| ==> IsCG(g, g[n].args[k])
  {}

  /** rhs is the value that node number n of the path must have for its first node to be zero. */
  ghost predicate SolvedTo(g0: Graph, g: Graph, f: Semantics, p: Path, n: nat, rhs: CG)
    requires IsGraph(g0) && IsGraph(g) && IsPath(g0, p) && n < |p| && IsCG(g, rhs)
  {
    forall w: World {:trigger CGValue(g, w, rhs)} :: Fits(w, f, |g0|) && Invertible(g0, w, p, 0, 0.0) ==>
      && Invertible(g0, w, p, n, CGValue(g, w, rhs))
      && Solution(g0, w, p, n, CGValue(g, w, rhs)) == Solution(g0, w, p, 0, 0.0)
  }

  lemma {:induction false} OtherValueKept(g: Graph, g': Graph, w: World, s: PathNode)
    requires IsGraph(g) && IsGraph(g') && g <= g' && s.node < |g|
    ensures OtherValue(g', w, s) == OtherValue(g, w, s)
  {
    if g[s.node].Operator? && |g[s.node].args| == 2 {
      var k := if s.argIndex == 0 then 1 else 0;
      var other := g[s.node].args[k];
      assert other.Operation? ==> other.node < s.node;
      CGValueKept(g, g', w, other);
    }
  }

  lemma {:induction false} SolvedNext(g0: Graph, g: Graph, g': Graph, f: Semantics, p: Path, n: nat, rhs: CG, r: CG)
    requires IsGraph(g0) && IsGraph(g) && IsGraph(g') && g0 <= g && IsPath(g0, p) && n < |p| - 1 && IsCG(g, rhs)
    requires IsCG(g', r)
    requires p[n].node < |g0| && g0[p[n].node].Operator?
    requires SolvedTo(g0, g, f, p, n, rhs) && Inverted(g, g', f, p[n], rhs, r)
    ensures SolvedTo(g0, g', f, p, n + 1, r)
  {
    forall w: World | Fits(w, f, |g0|) && Invertible(g0, w, p, 0, 0.0)
      ensures Invertible(g0, w, p, n + 1, CGValue(g', w, r))
      ensures Solution(g0, w, p, n + 1, CGValue(g', w, r)) == Solution(g0, w, p, 0, 0.0)
    {
      OtherValueKept(g0, g, w, p[n]);
      var y := CGValue(g, w, rhs);
      assert Invertible(g0, w, p, n, y) && Solution(g0, w, p, n, y) == Solution(g0, w, p, 0, 0.0);
    }
  }

  /** r is the solution of the equation that the first node of the path is zero. */
  ghost predicate Solves(g0: Graph, g: Graph, f: Semantics, p: Path, r: CG)
    requires IsGraph(g0) && IsGraph(g) && IsPath(g0, p) && IsCG(g, r)
  {
    forall w: World {:trigger CGValue(g, w, r)} :: Fits(w, f, |g0|) && Invertible(g0, w, p, 0, 0.0) ==>
      CGValue(g, w, r) == Solution(g0, w, p, 0, 0.0)
  }

  /** `solveFor` for a path: inverts the operations on the path, one after the other. */
  method SolveForPath(handler: NodeManager, path: Path) returns (r: Result<CG>)
    requires handler.Valid() && IsPath(handler.nodes, path)
    modifies handler
    ensures handler.Valid() && old(handler.nodes) <= handler.nodes
    ensures r.Failure? <==> IsObstructed(old(handler.nodes), path)
    ensures r.Success? ==>
      IsCG(handler.nodes, r.value) && Solves(old(handler.nodes), handler.nodes, handler.f, path, r.value)
  {
    ghost var g := handler.nodes;
    var rightHs: CG := Parameter(0.0);
    hide IsArithmetic, SolvedTo, Inverted, WellShaped, Invertible, Solution, Obstructs;
    assert SolvedTo(g, g, handler.f, path, 0, rightHs) by { SolvedFirst(g, handler.f, path); }
    for n := 0 to |path| - 1
      invariant handler.Valid() && g <= handler.nodes && IsCG(handler.nodes, rightHs)
      invariant SolvedTo(g, handler.nodes, handler.f, path, n, rightHs)
      invariant forall k :: 0 <= k < n ==> !Obstructs(g, path[k])
    {
      InvertsIfUndoable(g, path, n);
      assert IsStep(g, path[n], path[n + 1].node);
      if !CanInvert(handler.nodes[path[n].node].op) {
        return Failure("Unable to invert operation");
      }
      ghost var before, rhs := handler.nodes, rightHs;
      rightHs := InvertNode(handler, path[n], rightHs);
      SolvedNext(g, before, handler.nodes, handler.f, path, n, rhs, rightHs);
    }
    r := Success(rightHs);
  }

  lemma {:induction false} SolvedFirst(g: Graph, f: Semantics, p: Path)
    requires IsGraph(g) && IsPath(g, p)
    ensures SolvedTo(g, g, f, p, 0, Parameter(0.0))
  {}

  /**
    Substituting the result for the variable makes the expression zero, and it is the only value that
    does where the operations on the path are defined.
   */
  lemma {:induction false} ResidualIsZero(g0: Graph, g: Graph, f: Semantics, p: Path, v: nat, r: CG, w: World, t: real)
    requires IsGraph(g0) && WellShaped(g0) && IsGraph(g) && IsArithmetic(f) && IsPath(g0, p) && EndsAt(p, v)
    requires Single(g0, v, p, 0)
    requires IsCG(g, r) && Solves(g0, g, f, p, r)
    requires Fits(w, f, |g0|) && Invertible(g0, w, p, 0, 0.0) && forall j :: 0 <= j < |p| - 1 ==> p[j].node !in w.over
    ensures p[0].node < |g0|
    ensures t == CGValue(g, w, r) <==> Value(g0, At(w, v, t), p[0].node) == 0.0 && Defined(g0, At(w, v, t), p, 0)
  {
    SolutionIsUnique(g0, w, v, t, p, 0, 0.0);
  }

  // ---------------------------------------------------------------------------------------------
  // Expressions with several occurrences of the variable

  /** One collection: the nodes and the root before it, and the two paths that it joined. */
  datatype Collecting = Collecting(g: Graph, root: nat, left: Path, right: Path)

  ghost predicate IsCollecting(c: Collecting, v: nat) {
    && IsGraph(c.g) && WellShaped(c.g) && c.root < |c.g| && BothCollectable(c.g, c.left, c.right)
    && EndOf(c.left) == v < |c.g|
    && Bifurcates(c.g, v, c.left, c.right) && Reaches(c.g, c.root, c.left[0].node)
  }

  /** The world is one in which none of the collections changes the value of the expression. */
  ghost predicate KeepsAlong(trace: seq<Collecting>, f: Semantics, v: nat, w: World) {
    forall i :: 0 <= i < |trace| ==> IsCollecting(trace[i], v) && CollectWorld(trace[i].g, f, w, trace[i].root,
                                                                               trace[i].left, trace[i].right)
  }

  /** After the collections of the trace, `root` has the value that the expression had. */
  ghost predicate SameRoot(g0: Graph, expression: nat, g: Graph, root: nat, f: Semantics, v: nat,
                           trace: seq<Collecting>) {
    && IsGraph(g0) && IsGraph(g) && g0 <= g && expression < |g0| && root < |g|
    && (forall i :: 0 <= i < |trace| ==> IsCollecting(trace[i], v) && g0 <= trace[i].g)
    && forall w: World {:trigger KeepsAlong(trace, f, v, w)} :: Fits(w, f, |g0|) && KeepsAlong(trace, f, v, w) ==>
         Value(g, w, root) == Value(g0, w, expression)
  }

  lemma {:induction false} SameRootNext(g0: Graph, expression: nat, g: Graph, root: nat, f: Semantics, v: nat,
                                        trace: seq<Collecting>,
                                        c: Collecting, g': Graph, root': nat)
    requires SameRoot(g0, expression, g, root, f, v, trace) && IsCollecting(c, v) && c.g == g && c.root == root
    requires IsGraph(g') && g <= g' && root' < |g'| && Keeps(g, g', f, root, c.left, c.right, Operation(root'))
    ensures SameRoot(g0, expression, g', root', f, v, trace + [c])
  {
    forall w: World | Fits(w, f, |g0|) && KeepsAlong(trace + [c], f, v, w)
      ensures Value(g', w, root') == Value(g0, w, expression)
    {
      TraceSplits(trace, c, f, v, w);
      assert CGValue(g', w, Operation(root')) == Value(g, w, root);
    }
  }

  lemma {:induction false} TraceSplits(trace: seq<Collecting>, c: Collecting, f: Semantics, v: nat, w: World)
    requires KeepsAlong(trace + [c], f, v, w)
    ensures KeepsAlong(trace, f, v, w) && IsCollecting(c, v) && CollectWorld(c.g, f, w, c.root, c.left, c.right)
  {
    hide IsCollecting, CollectWorld;
    assert (trace + [c])[|trace|] == c;
    assert forall i :: 0 <= i < |trace| ==> trace[i] == (trace + [c])[i];
  }

  /**
    How the solver ends: with the path of the only occurrence left, with an expression with which it cannot
    go on, or with a constant.
   */
  datatype Outcome =
    | Solved(g: Graph, path: Path, trace: seq<Collecting>)
    | Stuck(g: Graph, root: nat, trace: seq<Collecting>)
    | Vanished(value: real, trace: seq<Collecting>)

  /** The result solves, by way of a path, an expression with the same value as the original one. */
  ghost predicate IsSolution(g0: Graph, expression: nat, v: nat, g: Graph, f: Semantics, s: Outcome, r: CG) {
    && s.Solved? && IsGraph(g) && IsCG(g, r) && s.g <= g && WellShaped(s.g)
    && IsGraph(s.g) && IsPath(s.g, s.path) && EndsAt(s.path, v) && Single(s.g, v, s.path, 0)
    && SameRoot(g0, expression, s.g, s.path[0].node, f, v, s.trace) && Solves(s.g, g, f, s.path, r)
  }

  /**
    The solver cannot go on: the variable is not there, there are too many bifurcations, an operation on
    the only path cannot be undone, or two occurrences cannot be joined.
   */
  ghost predicate IsStuck(g: Graph, root: nat, v: nat)
    requires IsGraph(g)
  {
    || !Reaches(g, root, v)
    || Bifurcations(g, root, v) >= 50000
    || (exists p {:trigger OnlyPath(g, root, v, p)} :: OnlyPath(g, root, v, p) && IsObstructed(g, p))
    || (exists p, q, i {:trigger Bifurcation(g, root, v, p, q, i)} ::
          Bifurcation(g, root, v, p, q, i) && CannotCollect(g, p[i..], q[i..]))
  }

  /** The solver failed for a reason. */
  ghost predicate IsObstacle(g0: Graph, expression: nat, v: nat, f: Semantics, s: Outcome) {
    match s
    case Solved(_, _, _) => false
    case Stuck(g, root, trace) => SameRoot(g0, expression, g, root, f, v, trace) && IsStuck(g, root, v)
    case Vanished(value, trace) =>
      && IsGraph(g0) && expression < |g0|
      && forall w: World {:trigger KeepsAlong(trace, f, v, w)} :: Fits(w, f, |g0|) && KeepsAlong(trace, f, v, w) ==>
           Value(g0, w, expression) == value
  }

  const MAX_BIFURCATIONS: nat := 50000

  /**
    `solveFor`: occurrences of the variable are joined until one is left, and then the operations on
    the way to it are undone.  Every round leaves fewer bifurcations.
   */
  method SolveFor(handler: NodeManager, expression: nat, v: nat) returns (r: Result<CG>, ghost s: Outcome)
    requires handler.Valid() && expression < |handler.nodes| && v < |handler.nodes|
    modifies handler
    ensures handler.Valid() && old(handler.nodes) <= handler.nodes
    ensures expression == v ==> r == Success(Operation(v))
    ensures expression != v && !Reaches(old(handler.nodes), expression, v) ==> r.Failure?
    ensures expression != v && r.Success? ==>
      IsSolution(old(handler.nodes), expression, v, handler.nodes, handler.f, s, r.value)
    ensures r.Failure? ==> IsObstacle(old(handler.nodes), expression, v, handler.f, s)
  {
    hide *;
    ghost var g0 := handler.nodes;
    s := Solved([], [], []);
    if expression == v {
      return Success(Operation(v)), s;
    }
    NodesAreGraph(handler);
    Limits();
    var root: nat := expression;
    var bifurcations: nat := SIZE_MAX;
    ghost var trace: seq<Collecting> := [];
    FirstRoot(g0, expression, handler.f, v);
    while bifurcations > 0
      invariant handler.Valid() && IsGraph(handler.nodes) && g0 <= handler.nodes && root < |handler.nodes|
      invariant SameRoot(g0, expression, handler.nodes, root, handler.f, v, trace)
      invariant trace == [] ==> root == expression && handler.nodes == g0
      invariant trace != [] ==> Reaches(g0, expression, v) && bifurcations > Bifurcations(handler.nodes, root, v)
      invariant trace == [] ==> bifurcations == SIZE_MAX
      decreases Bifurcations(handler.nodes, root, v)
    {
      ghost var g := handler.nodes;
      var oldBif := bifurcations;
      var foundGraph;
      foundGraph, bifurcations := MakePathGraph(handler.nodes, root, v, MAX_BIFURCATIONS);
      s := Stuck(g, root, trace);
      if bifurcations >= MAX_BIFURCATIONS {
        StuckForever(g0, expression, v, handler.f, s);
        return Failure("Too many bifurcations"), s;
      }
      assert oldBif > bifurcations;
      var paths, bifPos := FindSingleBifurcation(foundGraph, root, v);
      PathsAre(g, root, v, paths, bifPos);
      if paths == [] {
        StuckForever(g0, expression, v, handler.f, s);
        return Failure("The provided variable is not present in the expression"), s;
      }
      if |paths| == 1 {
        r, s := SolveOnlyPath(handler, g0, expression, root, v, paths[0], trace);
        return;
      }
      var expression2;
      expression2, s := CollectAtSplit(handler, g0, expression, root, v, paths[0], paths[1], bifPos, trace);
      if expression2.Failure? {
        return expression2, s;
      }
      if expression2.value.Parameter? {
        return Failure("The variable disappears after symbolic manipulations"), s;
      }
      trace := s.trace;
      root := expression2.value.node;
    }
    assert false;
  }

  /** Two occurrences become one, and the expression with fewer of them takes the place of the root. */
  method CollectAtSplit(handler: NodeManager, ghost g0: Graph, ghost expression: nat, root: nat, v: nat,
                        path1: Path, path2: Path, bifPos: nat, ghost trace: seq<Collecting>)
    returns (expression2: Result<CG>, ghost s: Outcome)
    requires handler.Valid() && IsGraph(handler.nodes) && root < |handler.nodes| && v < |handler.nodes|
    requires SameRoot(g0, expression, handler.nodes, root, handler.f, v, trace)
    requires Bifurcation(handler.nodes, root, v, path1, path2, bifPos) && bifPos < |path1| && bifPos < |path2|
    requires Bifurcations(handler.nodes, root, v) < MAX_BIFURCATIONS
    modifies handler
    ensures handler.Valid() && IsGraph(handler.nodes) && old(handler.nodes) <= handler.nodes
    ensures expression2.Failure? || expression2.value.Parameter? ==> IsObstacle(g0, expression, v, handler.f, s)
    ensures expression2.Success? && expression2.value.Operation? ==>
      && expression2.value.node < |handler.nodes| && s.trace != []
      && SameRoot(g0, expression, handler.nodes, expression2.value.node, handler.f, v, s.trace)
      && Bifurcations(handler.nodes, expression2.value.node, v) < Bifurcations(old(handler.nodes), root, v)
  {
    hide *;
    ghost var g := handler.nodes;
    NodesAreGraph(handler);
    expression2 := CollectVariable(handler, root, path1, path2, bifPos, v);
    SplitIsNear(g, root, v, path1, path2, bifPos);
    s := Stuck(g, root, trace);
    if expression2.Failure? {
      StuckAtSplit(g, root, v, path1, path2, bifPos);
      StuckForever(g0, expression, v, handler.f, s);
      NodesAreGraph(handler);
      return;
    }
    NodesAreGraph(handler);
    ghost var c := Collecting(g, root, path1[bifPos..], path2[bifPos..]);
    SplitIsCollecting(g, root, v, path1, path2, bifPos);
    if expression2.value.Parameter? {
      s := Vanished(expression2.value.value, trace + [c]);
      VanishedNext(g0, expression, g, root, handler.f, v, trace, c, handler.nodes, expression2.value.value);
    } else {
      s := Stuck(g, root, trace + [c]);
      ResultInGraph(handler.nodes, expression2.value);
      SameRootNext(g0, expression, g, root, handler.f, v, trace, c, handler.nodes, expression2.value.node);
    }
  }

  lemma {:induction false} Limits()
    ensures MAX_BIFURCATIONS < SIZE_MAX
  {}

  lemma {:induction false} ResultInGraph(g: Graph, c: CG)
    requires IsCG(g, c)
    ensures c.Operation? ==> c.node < |g|
  {}

  lemma {:induction false} PathsAre(g: Graph, root: nat, v: nat, paths: seq<Path>, bifPos: int)
    requires IsGraph(g) && Paths(g, root, v, paths, bifPos)
    ensures |paths| <= 2 && (paths == [] <==> !Reaches(g, root, v))
    ensures |paths| == 1 ==> OnlyPath(g, root, v, paths[0]) && |paths[0]| > 0
    ensures |paths| == 2 ==>
      bifPos >= 0 && Bifurcation(g, root, v, paths[0], paths[1], bifPos) && bifPos < |paths[0]| && bifPos < |paths[1]|
  {
    hide Single, AllSlots, Reaches;
  }

  lemma {:induction false} StuckForever(g0: Graph, expression: nat, v: nat, f: Semantics, s: Outcome)
    requires s.Stuck? && SameRoot(g0, expression, s.g, s.root, f, v, s.trace) && IsGraph(s.g)
    requires !Reaches(s.g, s.root, v) || Bifurcations(s.g, s.root, v) >= MAX_BIFURCATIONS || IsStuck(s.g, s.root, v)
    ensures IsObstacle(g0, expression, v, f, s)
  {
    hide SameRoot, Reaches, ExtraWays;
  }

  /** The way to the split is no more complicated than the way to the variable. */
  lemma {:induction false} SplitIsNear(g: Graph, root: nat, v: nat, path1: Path, path2: Path, bifPos: nat)
    requires IsGraph(g) && Bifurcation(g, root, v, path1, path2, bifPos) && Bifurcations(g, root, v) < MAX_BIFURCATIONS
    ensures bifPos < |path1| && Bifurcations(g, root, path1[bifPos].node) < 0xFFFF_FFFF_FFFF_FFFF
  {
    SplitOnTheWay(g, root, v, path1, path2, bifPos);
    FewerWaysTo(g, root, path1[bifPos].node, v, |g|);
  }

  lemma {:induction false} StuckAtSplit(g: Graph, root: nat, v: nat, path1: Path, path2: Path, bifPos: nat)
    requires IsGraph(g) && Bifurcation(g, root, v, path1, path2, bifPos) && bifPos < |path1| && bifPos < |path2|
    requires CannotCollect(g, path1[bifPos..], path2[bifPos..])
    ensures IsStuck(g, root, v)
  {
    hide CannotCollect, Reaches, ExtraWays;
  }

  /** The last round: one occurrence is left. */
  method SolveOnlyPath(handler: NodeManager, ghost g0: Graph, ghost expression: nat, ghost root: nat, v: nat,
                       path: Path, ghost trace: seq<Collecting>)
    returns (r: Result<CG>, ghost s: Outcome)
    requires handler.Valid() && IsGraph(handler.nodes) && OnlyPath(handler.nodes, root, v, path) && |path| > 0
    requires SameRoot(g0, expression, handler.nodes, root, handler.f, v, trace)
    modifies handler
    ensures handler.Valid() && old(handler.nodes) <= handler.nodes
    ensures r.Success? ==> IsSolution(g0, expression, v, handler.nodes, handler.f, s, r.value)
    ensures r.Failure? ==> IsObstacle(g0, expression, v, handler.f, s)
  {
    ghost var g := handler.nodes;
    hide SameRoot, IsArithmetic, Solves, Single, IsPath, OnlyPath, Reaches, ExtraWays, IsObstructed;
    r := SolveForPath(handler, path);
    if r.Success? {
      s := Solved(g, path, trace);
    } else {
      s := Stuck(g, root, trace);
    }
  }

  /** The expression has the value of the constant. */
  lemma {:induction false} VanishedNext(g0: Graph, expression: nat, g: Graph, root: nat, f: Semantics, v: nat,
                                        trace: seq<Collecting>,
                                        c: Collecting, g': Graph, value: real)
    requires SameRoot(g0, expression, g, root, f, v, trace) && IsCollecting(c, v) && c.g == g && c.root == root
    requires IsGraph(g') && g <= g' && Keeps(g, g', f, root, c.left, c.right, Parameter(value))
    ensures IsObstacle(g0, expression, v, f, Vanished(value, trace + [c]))
  {
    forall w: World | Fits(w, f, |g0|) && KeepsAlong(trace + [c], f, v, w)
      ensures Value(g0, w, expression) == value
    {
      TraceSplits(trace, c, f, v, w);
      assert CGValue(g', w, Parameter(value)) == Value(g, w, root);
    }
  }

  lemma {:induction false} FirstRoot(g: Graph, expression: nat, f: Semantics, v: nat)
    requires IsGraph(g) && expression < |g|
    ensures SameRoot(g, expression, g, expression, f, v, [])
  {}

  lemma {:induction false} SplitIsCollecting(g: Graph, root: nat, v: nat, path1: Path, path2: Path, bifPos: nat)
    requires IsGraph(g) && WellShaped(g) && root < |g| && Bifurcation(g, root, v, path1, path2, bifPos)
    requires BothCollectable(g, path1[bifPos..], path2[bifPos..])
    ensures IsCollecting(Collecting(g, root, path1[bifPos..], path2[bifPos..]), v)
  {
    TailsBifurcate(g, root, v, path1, path2, bifPos);
    PathLeadsTo(g, path1, bifPos);
  }

  /**
    The result of the solver is the only value of the variable that makes the expression zero, in every
    world in which the operations to undo can be undone and the collections keep the value.
   */
  lemma {:induction false} SolverIsCorrect(g0: Graph, expression: nat, v: nat, g: Graph, f: Semantics, s: Outcome,
                                           r: CG, w: World, t: real)
    requires IsGraph(g0) && v < |g0| && IsArithmetic(f) && IsSolution(g0, expression, v, g, f, s, r)
    requires w.f == f && w.over == map[] && Invertible(s.g, w, s.path, 0, 0.0) && KeepsAlong(s.trace, f, v, At(w, v, t))
    ensures expression < |g0|
    ensures t == CGValue(g, w, r) <==> Value(g0, At(w, v, t), expression) == 0.0 && Defined(s.g, At(w, v, t), s.path, 0)
  {
    hide IsArithmetic, WellShaped, Single, Invertible, KeepsAlong, Solves, Value, Defined, CGValue;
    assert Fits(At(w, v, t), f, |g0|) && Fits(w, f, |s.g|);
    ResidualIsZero(s.g, g, f, s.path, v, r, w, t);
  }

  /** What the solver returns is a solution, or the variable itself because the expression is the variable. */
  ghost predicate IsReturned(g0: Graph, expression: nat, v: nat, g: Graph, f: Semantics, s: Outcome, r: CG) {
    if expression == v then r == Operation(v) else IsSolution(g0, expression, v, g, f, s, r)
  }

  /** The solution is defined in the world. */
  ghost predicate IsDefined(expression: nat, v: nat, g: Graph, f: Semantics, s: Outcome, r: CG, w: World)
    requires IsGraph(g) && IsCG(g, r)
  {
    expression != v && s.Solved? ==>
      && IsGraph(s.g) && IsPath(s.g, s.path) && v < |s.g|
      && Invertible(s.g, w, s.path, 0, 0.0) && KeepsAlong(s.trace, f, v, At(w, v, CGValue(g, w, r)))
  }

  /**
    The value returned for the variable makes the expression zero exactly if the expression is not the
    variable itself: then the variable is returned, and the expression is zero only if it was zero before.
   */
  lemma {:induction false} ReturnedMakesZero(g0: Graph, expression: nat, v: nat, g: Graph, f: Semantics, s: Outcome,
                                             r: CG, w: World)
    requires IsGraph(g0) && IsGraph(g) && g0 <= g && expression < |g0| && v < |g0| && IsArithmetic(f) && IsCG(g, r)
    requires IsReturned(g0, expression, v, g, f, s, r)
    requires w.f == f && w.over == map[] && IsDefined(expression, v, g, f, s, r, w)
    ensures Value(g0, At(w, v, CGValue(g, w, r)), expression) == 0.0 <==> expression != v || Value(g0, w, v) == 0.0
  {
    hide IsArithmetic, Invertible, KeepsAlong, IsPath;
    if expression == v {
      ValueKept(g0, g, w, v);
    } else {
      hide Value, CGValue;
      SolverIsCorrect(g0, expression, v, g, f, s, r, w, CGValue(g, w, r));
    }
  }
}
