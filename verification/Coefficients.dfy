/** What a variable contributes to an expression along a path of sums, products and quotients. */
module Coefficients {
  import opened Arithmetic
  import opened OperationGraph
  import opened PathGraph
  import opened PathInversion
  import opened SingleBifurcation

  /** `isCollectableVariableAddSub` for one path: what may come between the split and the variable. */
  predicate IsCollectable(g: Graph, p: Path) {
    forall i :: 1 <= i < |p| - 1 ==> IsCollectableNode(g, p[i])
  }

  predicate IsCollectableNode(g: Graph, s: PathNode) {
    && s.node < |g| && g[s.node].Operator?
    && match g[s.node].op
       case Add | Sub | Mul | UnMinus | Alias => true
       case Div => s.argIndex == 0
       case _ => false
  }

  /** The result changes by `slope` times the change of the operand on the path. */
  ghost predicate IsSlope(f: Semantics, op: Op, argIndex: int, other: real, slope: real) {
    forall y, z ::
      Applied(f, op, argIndex, other, y) - Applied(f, op, argIndex, other, z) == slope * (y - z)
  }

  /** In every arithmetic the operation is affine in its operand on the path, unless the other one is zero. */
  ghost predicate IsAffine(op: Op, argIndex: int) {
    forall f: Semantics, other: real {:trigger IsArithmetic(f), HasSlope(f, op, argIndex, other)} ::
      IsArithmetic(f) && other != 0.0 ==> HasSlope(f, op, argIndex, other)
  }

  ghost predicate HasSlope(f: Semantics, op: Op, argIndex: int, other: real) {
    exists slope :: IsSlope(f, op, argIndex, other, slope)
  }

  /** The node is affine in its operand on the path. */
  ghost predicate IsAffineNode(g: Graph, s: PathNode) {
    s.node < |g| && g[s.node].Operator? && IsAffine(g[s.node].op, s.argIndex)
  }

  /** The nodes between the split and the variable are affine in what leads to the variable. */
  ghost predicate IsAffinePath(g: Graph, p: Path) {
    forall i :: 1 <= i < |p| - 1 ==> IsAffineNode(g, p[i])
  }

  /** What the operation multiplies a change of its operand on the path with. */
  ghost function Factor(g: Graph, w: World, s: PathNode, minus: bool): real
    requires IsGraph(g) && IsCollectableNode(g, s)
  {
    var other := OtherValue(g, w, s);
    match g[s.node].op
    case Add | Alias => 1.0
    case Sub => if minus then -1.0 else 1.0
    case UnMinus => -1.0
    case Mul => other
    case Div => if other != 0.0 then 1.0 / other else 0.0
  }

  /** The coefficient of the variable as far as node number k of the path. */
  ghost function Coefficient(g: Graph, w: World, p: Path, k: nat): real
    requires IsGraph(g) && IsCollectable(g, p) && 1 <= k < |p|
  {
    if k == 1 then 1.0 else Coefficient(g, w, p, k - 1) * Factor(g, w, p[k - 1], p[k - 1].argIndex == 1)
  }

  /**
    The coefficient that `collectVariableAddSub` computes: at a subtraction it looks at the argument
    index one node too early.
   */
  ghost function CollectedCoefficient(g: Graph, w: World, p: Path, k: nat): real
    requires IsGraph(g) && IsCollectable(g, p) && 1 <= k < |p|
  {
    if k == 1 then 1.0 else CollectedCoefficient(g, w, p, k - 1) * Factor(g, w, p[k - 1], p[k - 2].argIndex == 1)
  }

  /** The two agree on whether the operand of the subtraction number i of the path is the subtracted one. */
  predicate Agrees(g: Graph, p: Path, i: nat)
    requires 1 <= i < |p| && p[i].node < |g|
  {
    g[p[i].node].Operator? && g[p[i].node].op == Sub ==> (p[i - 1].argIndex == 1 <==> p[i].argIndex == 1)
  }

  /** The number of subtractions before node number k where they disagree is even. */
  predicate SignIsRight(g: Graph, p: Path, k: nat)
    requires IsCollectable(g, p) && 1 <= k < |p|
  {
    k == 1 || (SignIsRight(g, p, k - 1) <==> Agrees(g, p, k - 1))
  }

  lemma {:induction false} FactorSign(g: Graph, w: World, p: Path, i: nat)
    requires IsGraph(g) && 1 <= i < |p| - 1 && IsCollectableNode(g, p[i])
    ensures Factor(g, w, p[i], p[i - 1].argIndex == 1) ==
      if Agrees(g, p, i) then Factor(g, w, p[i], p[i].argIndex == 1) else -Factor(g, w, p[i], p[i].argIndex == 1)
  {
    hide OtherValue;
  }

  lemma {:induction false} CollectedSign(g: Graph, w: World, p: Path, k: nat)
    requires IsGraph(g) && IsCollectable(g, p) && 1 <= k < |p|
    ensures CollectedCoefficient(g, w, p, k) ==
      if SignIsRight(g, p, k) then Coefficient(g, w, p, k) else -Coefficient(g, w, p, k)
    decreases k
  {
    hide Factor, Agrees, OtherValue;
    if k > 1 {
      CollectedSign(g, w, p, k - 1);
      assert IsCollectableNode(g, p[k - 1]);
      FactorSign(g, w, p, k - 1);
      hide IsCollectable, IsCollectableNode;
    }
  }

  /** No divisor on the path is zero. */
  ghost predicate PathDivisors(g: Graph, w: World, p: Path)
    requires IsGraph(g)
  {
    forall i :: 1 <= i < |p| - 1 && p[i].node < |g| && g[p[i].node].Operator? && g[p[i].node].op == Div ==>
      OtherValue(g, w, p[i]) != 0.0
  }

  /** The values of the nodes of the path are not prescribed. */
  ghost predicate Untouched(w: World, p: Path) {
    forall i :: 0 <= i < |p| - 1 ==> p[i].node !in w.over
  }

  lemma {:induction false} AppliedTo(f: Semantics, op: Op, argIndex: int, other: real, y: real)
    requires IsArithmetic(f) && 0 <= argIndex <= 1
    requires op.Add? || op.Sub? || op.Mul? || op.UnMinus? || op.Alias? || (op.Div? && argIndex == 0 && other != 0.0)
    ensures Applied(f, op, argIndex, other, y) ==
      match op
      case Add => y + other
      case Sub => if argIndex == 0 then y - other else other - y
      case Mul => y * other
      case Div => y / other
      case UnMinus => -y
      case _ => y
  {}

  /** A change of the operand changes the result by the factor. */
  lemma {:induction false} AppliedChange(f: Semantics, op: Op, argIndex: int, other: real, y: real, z: real)
    requires IsArithmetic(f) && 0 <= argIndex <= 1
    requires op.Add? || op.Sub? || op.Mul? || op.UnMinus? || op.Alias? || (op.Div? && argIndex == 0 && other != 0.0)
    ensures Applied(f, op, argIndex, other, y) - Applied(f, op, argIndex, other, z) ==
      (match op
       case Sub => if argIndex == 1 then -1.0 else 1.0
       case UnMinus => -1.0
       case Mul => other
       case Div => 1.0 / other
       case _ => 1.0) * (y - z)
  {
    AppliedTo(f, op, argIndex, other, y);
    AppliedTo(f, op, argIndex, other, z);
    hide Applied, IsArithmetic;
    ChangeOfProduct(y, z, other);
  }

  lemma {:induction false} ChangeOfProduct(y: real, z: real, other: real)
    ensures y * other - z * other == other * (y - z)
    ensures other != 0.0 ==> y / other - z / other == 1.0 / other * (y - z)
  {
    if other != 0.0 {
      var r := 1.0 / other;
      assert r * other == 1.0;
      QuotientIs(y, other, y * r);
      QuotientIs(z, other, z * r);
      assert y * r - z * r == r * (y - z);
    }
  }

  /** The change of a node on the path when v changes from 0 to t. */
  ghost function Change(g: Graph, w: World, v: nat, t: real, n: nat): real
    requires IsGraph(g) && n < |g|
  {
    Value(g, At(w, v, t), n) - Value(g, At(w, v, 0.0), n)
  }

  lemma {:induction false} SingleStepChange(g: Graph, w: World, v: nat, t: real, s: PathNode, next: nat)
    requires IsGraph(g) && WellShaped(g) && IsArithmetic(w.f) && IsSingleStep(g, v, s, next) && IsCollectableNode(g, s)
    requires s.node !in w.over && (g[s.node].op == Div ==> OtherValue(g, w, s) != 0.0)
    ensures next < |g|
    ensures Change(g, w, v, t, s.node) == Factor(g, w, s, s.argIndex == 1) * Change(g, w, v, t, next)
  {
    hide IsSingleStep, Value, OtherValue, Applied, WellShaped, At;
    StepApplies(g, w, v, t, s, next);
    StepApplies(g, w, v, 0.0, s, next);
    AppliedChange(w.f, g[s.node].op, s.argIndex, OtherValue(g, w, s),
                  Value(g, At(w, v, t), next), Value(g, At(w, v, 0.0), next));
    hide IsArithmetic;
  }

  lemma {:induction false} StepChange(g: Graph, w: World, v: nat, t: real, p: Path, i: nat)
    requires IsGraph(g) && WellShaped(g) && IsArithmetic(w.f) && IsPath(g, p) && EndsAt(p, v) && Single(g, v, p, 1)
    requires IsCollectable(g, p)
    requires PathDivisors(g, w, p) && Untouched(w, p) && 1 <= i < |p| - 1
    ensures p[i + 1].node < |g|
    ensures Change(g, w, v, t, p[i].node) == Factor(g, w, p[i], p[i].argIndex == 1) * Change(g, w, v, t, p[i + 1].node)
  {
    hide AllSlots, IsArithmetic, Factor, Change, OtherValue, WellShaped, IsSingleStep;
    PathStep(g, v, p, i);
    assert IsCollectableNode(g, p[i]);
    hide Single, IsPath;
    SingleStepChange(g, w, v, t, p[i], p[i + 1].node);
  }

  /** The change of the first node after the split is the coefficient times the change of the variable. */
  lemma {:induction false} PathChange(g: Graph, w: World, v: nat, t: real, p: Path, k: nat)
    requires IsGraph(g) && WellShaped(g) && IsArithmetic(w.f) && IsPath(g, p) && EndsAt(p, v) && Single(g, v, p, 1)
    requires IsCollectable(g, p)
    requires PathDivisors(g, w, p) && Untouched(w, p) && 1 <= k < |p|
    ensures p[1].node < |g| && p[k].node < |g|
    ensures Change(g, w, v, t, p[1].node) == Coefficient(g, w, p, k) * Change(g, w, v, t, p[k].node)
  {
    hide AllSlots, Value, Change, Single, PathDivisors, OtherValue, IsArithmetic, Factor, WellShaped, Untouched;
    if k == 1 {
      OnPath(g, p, 1);
    } else {
      PathChange(g, w, v, t, p, k - 1);
      StepChange(g, w, v, t, p, k - 1);
      var c, change := Coefficient(g, w, p, k - 1), Change(g, w, v, t, p[k].node);
      var factor := Factor(g, w, p[k - 1], p[k - 1].argIndex == 1);
      assert c * (factor * change) == (c * factor) * change;
    }
  }

  lemma {:induction false} OnPath(g: Graph, p: Path, i: nat)
    requires IsPath(g, p) && i < |p|
    ensures p[i].node < |g|
  {
    if i < |p| - 1 {
      assert IsStep(g, p[i], p[i + 1].node);
    }
  }

  // ---------------------------------------------------------------------------------------------
  // The operations that can be collected are the affine ones

  lemma {:induction false} SlopeOf(f: Semantics, op: Op, argIndex: int, other: real) returns (slope: real)
    requires IsArithmetic(f) && 0 <= argIndex <= 1 && other != 0.0
    requires op.Add? || op.Sub? || op.Mul? || op.UnMinus? || op.Alias? || (op.Div? && argIndex == 0)
    ensures IsSlope(f, op, argIndex, other, slope)
  {
    hide IsArithmetic;
    slope := match op
      case Sub => if argIndex == 1 then -1.0 else 1.0
      case UnMinus => -1.0
      case Mul => other
      case Div => 1.0 / other
      case _ => 1.0;
    forall y, z
      ensures Applied(f, op, argIndex, other, y) - Applied(f, op, argIndex, other, z) == slope * (y - z)
    {
      AppliedChange(f, op, argIndex, other, y, z);
    }
  }

  function Square(x: seq<real>): real {
    if |x| == 1 then x[0] * x[0] else 0.0
  }

  /** Values of exponentials, logarithms, quotients by the operand, and squares. */
  lemma {:induction false} SampleValues(op: Op, argIndex: int)
    requires op.Exp? || op.Log? || op.Other? || (op.Div? && argIndex == 1)
    ensures var f := Sample(Square);
      if op.Exp? then Applied(f, op, argIndex, 1.0, 1.0) == 2.0 && Applied(f, op, argIndex, 1.0, 0.0) == 1.0
        && Applied(f, op, argIndex, 1.0, -1.0) == 0.5
      else var a, b, c := Applied(f, op, argIndex, 1.0, 1.0), Applied(f, op, argIndex, 1.0, 2.0),
                          Applied(f, op, argIndex, 1.0, 0.5);
        2.0 * (a - c) != b - a
  {
    forall y: real
      ensures op.Exp? ==> Applied(Sample(Square), op, argIndex, 1.0, y) == SampleExp(y)
      ensures op.Log? ==> Applied(Sample(Square), op, argIndex, 1.0, y) == SampleLog(y)
      ensures op.Div? && y != 0.0 ==> Applied(Sample(Square), op, argIndex, 1.0, y) == 1.0 / y
      ensures op.Other? ==> Applied(Sample(Square), op, argIndex, 1.0, y) == y * y
    {
      SampleUnary(Square, y);
      SampleBinary(Square, 1.0, y);
      SampleOther(op, y);
      hide Sample, SampleExp, SampleLog;
    }
    hide Sample, Applied;
  }

  lemma {:induction false} SampleOther(op: Op, y: real)
    ensures op.Other? ==> Sample(Square)(op, [y]) == y * y
  {
    SampleUnary(Square, y);
    hide Sample;
  }

  lemma {:induction false} NoSlope(op: Op, argIndex: int, slope: real)
    requires op.Exp? || op.Log? || op.Other? || (op.Div? && argIndex == 1)
    ensures !IsSlope(Sample(Square), op, argIndex, 1.0, slope)
  {
    SampleValues(op, argIndex);
    hide Sample, Applied;
    var f := Sample(Square);
    if IsSlope(f, op, argIndex, 1.0, slope) {
      SlopeAt(f, op, argIndex, slope, 1.0, 0.0);
      SlopeAt(f, op, argIndex, slope, 0.0, -1.0);
      SlopeAt(f, op, argIndex, slope, 2.0, 1.0);
      SlopeAt(f, op, argIndex, slope, 1.0, 0.5);
    }
  }

  lemma {:induction false} SlopeAt(f: Semantics, op: Op, argIndex: int, slope: real, y: real, z: real)
    requires IsSlope(f, op, argIndex, 1.0, slope)
    ensures Applied(f, op, argIndex, 1.0, y) - Applied(f, op, argIndex, 1.0, z) == slope * (y - z)
  {
    hide Applied;
  }

  /** What is collected are exactly the affine operations. */
  lemma {:induction false} CollectableIfAffine(g: Graph, s: PathNode)
    requires s.node < |g| && g[s.node].Operator? && (g[s.node].op.Other? || 0 <= s.argIndex <= 1)
    ensures IsCollectableNode(g, s) <==> IsAffineNode(g, s)
  {
    var op, argIndex := g[s.node].op, s.argIndex;
    hide Sample, Square, IsArithmetic, IsSlope;
    if IsCollectableNode(g, s) {
      forall f: Semantics, other: real {:trigger IsArithmetic(f), HasSlope(f, op, argIndex, other)} |
        IsArithmetic(f) && other != 0.0
        ensures HasSlope(f, op, argIndex, other)
      {
        var slope := SlopeOf(f, op, argIndex, other);
      }
    } else {
      SampleIsArithmetic(Square);
      forall slope
        ensures !IsSlope(Sample(Square), op, argIndex, 1.0, slope)
      {
        NoSlope(op, argIndex, slope);
      }
      assert !HasSlope(Sample(Square), op, argIndex, 1.0);
    }
  }

  lemma {:induction false} CollectablePathIfAffine(g: Graph, p: Path)
    requires IsGraph(g) && WellShaped(g) && IsPath(g, p)
    ensures IsCollectable(g, p) <==> IsAffinePath(g, p)
  {
    hide IsCollectableNode, IsAffineNode;
    forall i | 1 <= i < |p| - 1
      ensures IsCollectableNode(g, p[i]) <==> IsAffineNode(g, p[i])
    {
      assert IsStep(g, p[i], p[i + 1].node);
      CollectableIfAffine(g, p[i]);
    }
  }
}
