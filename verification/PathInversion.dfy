/** Solving an expression for a variable that occurs in it once: every operation on the way is undone. */
module PathInversion {
  import opened Arithmetic
  import opened OperationGraph
  import opened PathGraph
  import opened SingleBifurcation
  import opened Wrappers

  /** The same world, except that node v has the value t. */
  function At(w: World, v: nat, t: real): World {
    w.(over := w.over[v := t])
  }

  /** What does not depend on v has the same value for every value of v. */
  lemma {:induction false} Unaffected(g: Graph, w: World, v: nat, t: real, n: nat)
    requires IsGraph(g) && n < |g| && !Reaches(g, n, v)
    ensures Value(g, At(w, v, t), n) == Value(g, w, n)
    decreases n, 1, 0
  {
    if g[n].Operator? {
      UnaffectedArgs(g, w, v, t, n, |g[n].args|);
    }
  }

  lemma {:induction false} UnaffectedArgs(g: Graph, w: World, v: nat, t: real, n: nat, k: nat)
    requires IsGraph(g) && n < |g| && !Reaches(g, n, v) && g[n].Operator? && k <= |g[n].args|
    ensures Values(g, At(w, v, t), n, k) == Values(g, w, n, k)
    decreases n, 0, k
  {
    if k > 0 {
      UnaffectedArgs(g, w, v, t, n, k - 1);
      if g[n].args[k - 1].Operation? {
        var a := g[n].args[k - 1].node;
        assert HasArg(g, n, a) && !Reaches(g, a, v);
        Unaffected(g, w, v, t, a);
      }
    }
  }

  /** The other operand of a binary operation on a path; any value for other operations. */
  ghost function OtherValue(g: Graph, w: World, s: PathNode): real
    requires IsGraph(g) && s.node < |g|
  {
    if g[s.node].Operator? && |g[s.node].args| == 2 then
      var other := g[s.node].args[if s.argIndex == 0 then 1 else 0];
      if IsCG(g, other) then CGValue(g, w, other) else 0.0
    else 0.0
  }

  /** The operand that gives the operation the value rhs. */
  ghost function Inverse(f: Semantics, op: Op, argIndex: int, other: real, rhs: real): real {
    match op
    case Mul => if other != 0.0 then rhs / other else 0.0
    case Div => if argIndex == 0 then rhs * other else if rhs != 0.0 then other / rhs else 0.0
    case UnMinus => -rhs
    case Add => rhs - other
    case Sub => if argIndex == 0 then rhs + other else other - rhs
    case Alias => rhs
    case Exp => f(Log, [rhs])
    case Log => f(Exp, [rhs])
    case Other(_) => rhs
  }

  /** There is such an operand, and only one. */
  ghost predicate HasInverse(op: Op, argIndex: int, other: real, rhs: real) {
    match op
    case Mul => other != 0.0
    case Div => other != 0.0 && (argIndex == 0 || rhs != 0.0)
    case Exp => rhs > 0.0
    case Other(_) => false
    case _ => true
  }

  predicate CanInvert(op: Op) {
    !op.Other?
  }

  /** A quotient is the number whose product with the divisor is the dividend. */
  lemma {:induction false} QuotientIs(a: real, b: real, c: real)
    requires b != 0.0
    ensures a / b == c <==> a == c * b
  {
    assert a / b * b == a;
    if a == c * b {
      assert c * b / b == c;
    }
  }

  lemma {:induction false} DenominatorIs(other: real, rhs: real, y: real)
    requires other != 0.0 && rhs != 0.0
    ensures y == other / rhs <==> y != 0.0 && other / y == rhs
  {
    QuotientIs(other, rhs, y);
    if y != 0.0 {
      QuotientIs(other, y, rhs);
    }
  }

  /** The value of an operation whose operand on the path has the value y. */
  ghost function Applied(f: Semantics, op: Op, argIndex: int, other: real, y: real): real {
    if TakesOperands(op, 1) then f(op, [y]) else if argIndex == 0 then f(op, [y, other]) else f(op, [other, y])
  }

  /** The operand is one for which the operation is defined. */
  ghost predicate InDomain(op: Op, argIndex: int, y: real) {
    (op == Div && argIndex == 1 ==> y != 0.0) && (op == Log ==> y > 0.0)
  }

  lemma {:induction false} InverseUndoes(f: Semantics, op: Op, argIndex: int, other: real, rhs: real, y: real)
    requires IsArithmetic(f) && HasInverse(op, argIndex, other, rhs) && 0 <= argIndex <= 1
    ensures y == Inverse(f, op, argIndex, other, rhs) ==>
      InDomain(op, argIndex, y) && Applied(f, op, argIndex, other, y) == rhs
    ensures InDomain(op, argIndex, y) && Applied(f, op, argIndex, other, y) == rhs ==>
      y == Inverse(f, op, argIndex, other, rhs)
  {
    match op
    case Mul =>
      QuotientIs(rhs, other, y);
    case Div =>
      if argIndex == 0 {
        QuotientIs(y, other, rhs);
      } else {
        DenominatorIs(other, rhs, y);
      }
    case Exp =>
      assert f(Exp, [f(Log, [rhs])]) == rhs && f(Log, [f(Exp, [y])]) == y;
    case Log =>
      assert f(Exp, [rhs]) > 0.0 && f(Log, [f(Exp, [rhs])]) == rhs;
      assert y > 0.0 ==> f(Exp, [f(Log, [y])]) == y;
    case _ =>
  }

  // ---------------------------------------------------------------------------------------------
  // Which operations can be undone at all

  /** With this operand on the path the operation has the value rhs. */
  ghost predicate IsOperand(f: Semantics, op: Op, argIndex: int, other: real, rhs: real, y: real) {
    InDomain(op, argIndex, y) && Applied(f, op, argIndex, other, y) == rhs
  }

  ghost predicate HasOneOperand(f: Semantics, op: Op, argIndex: int, other: real, rhs: real) {
    exists y :: IsOperand(f, op, argIndex, other, rhs, y) && forall z :: IsOperand(f, op, argIndex, other, rhs, z) ==>
      z == y
  }

  /** For some other operand and some value the operand on the path is determined, whatever other operations mean. */
  ghost predicate IsUndoable(op: Op, argIndex: int) {
    exists other, rhs :: DeterminesOperand(op, argIndex, other, rhs)
  }

  ghost predicate DeterminesOperand(op: Op, argIndex: int, other: real, rhs: real) {
    forall f: Semantics :: IsArithmetic(f) ==> HasOneOperand(f, op, argIndex, other, rhs)
  }

  /** An exponential that is made of a line and a hyperbola, and its inverse. */
  function SampleExp(x: real): real {
    if x >= 0.0 then x + 1.0 else 1.0 / (1.0 - x)
  }

  function SampleLog(x: real): real {
    if x >= 1.0 then x - 1.0 else if x > 0.0 then 1.0 - 1.0 / x else 0.0
  }

  /** Arithmetic with these; c gives all other operations, and quotients with divisor zero, a value. */
  function Sample(c: seq<real> -> real): Semantics {
    (op: Op, x: seq<real>) =>
      if |x| == 2 then
        match op
        case Add => x[0] + x[1]
        case Sub => x[0] - x[1]
        case Mul => x[0] * x[1]
        case Div => if x[1] != 0.0 then x[0] / x[1] else c(x)
        case _ => c(x)
      else if |x| == 1 then
        match op
        case UnMinus => -x[0]
        case Alias => x[0]
        case Exp => SampleExp(x[0])
        case Log => SampleLog(x[0])
        case _ => c(x)
      else c(x)
  }

  lemma {:induction false} ReciprocalTwice(a: real)
    requires a > 0.0
    ensures 1.0 / a > 0.0 && 1.0 / (1.0 / a) == a && (a > 1.0 ==> 1.0 / a < 1.0) && (a < 1.0 ==> 1.0 / a > 1.0)
  {
    var b := 1.0 / a;
    assert a * b == 1.0;
    QuotientIs(1.0, b, a);
  }

  lemma {:induction false} SampleExpInverse(a: real)
    ensures SampleExp(a) > 0.0 && SampleLog(SampleExp(a)) == a
    ensures a > 0.0 ==> SampleExp(SampleLog(a)) == a
  {
    if a < 0.0 {
      ReciprocalTwice(1.0 - a);
    } else if 0.0 < a < 1.0 {
      ReciprocalTwice(a);
    }
  }

  lemma {:induction false} SampleBinary(c: seq<real> -> real, a: real, b: real)
    ensures var f := Sample(c);
      && f(Add, [a, b]) == a + b && f(Sub, [a, b]) == a - b && f(Mul, [a, b]) == a * b
      && (b != 0.0 ==> f(Div, [a, b]) == a / b)
  {
    hide SampleExp, SampleLog;
    assert |[a, b]| == 2 && [a, b][0] == a && [a, b][1] == b;
  }

  lemma {:induction false} SampleUnary(c: seq<real> -> real, a: real)
    ensures var f := Sample(c);
      && f(UnMinus, [a]) == -a && f(Alias, [a]) == a
      && f(Exp, [a]) == SampleExp(a) && f(Log, [a]) == SampleLog(a)
      && forall code :: f(Other(code), [a]) == c([a])
  {
    hide SampleExp, SampleLog;
    assert |[a]| == 1 && [a][0] == a;
  }

  lemma {:induction false} SampleUndone(c: seq<real> -> real, a: real)
    ensures var f := Sample(c);
      && f(Exp, [a]) > 0.0 && f(Log, [f(Exp, [a])]) == a && (a > 0.0 ==> f(Exp, [f(Log, [a])]) == a)
  {
    hide Sample, SampleExp, SampleLog;
    SampleUnary(c, a);
    SampleUnary(c, SampleExp(a));
    SampleUnary(c, SampleLog(a));
    SampleExpInverse(a);
  }

  lemma {:induction false} SampleBinaries(c: seq<real> -> real)
    ensures var f := Sample(c);
      && (forall a: real, b: real {:trigger f(Add, [a, b])} :: f(Add, [a, b]) == a + b)
      && (forall a: real, b: real {:trigger f(Sub, [a, b])} :: f(Sub, [a, b]) == a - b)
      && (forall a: real, b: real {:trigger f(Mul, [a, b])} :: f(Mul, [a, b]) == a * b)
      && (forall a: real, b: real {:trigger f(Div, [a, b])} :: b != 0.0 ==> f(Div, [a, b]) == a / b)
  {
    hide Sample;
    forall a: real, b: real
      ensures var f := Sample(c);
        && f(Add, [a, b]) == a + b && f(Sub, [a, b]) == a - b && f(Mul, [a, b]) == a * b
        && (b != 0.0 ==> f(Div, [a, b]) == a / b)
    {
      SampleBinary(c, a, b);
    }
  }

  lemma {:induction false} SampleUnaries(c: seq<real> -> real)
    ensures var f := Sample(c);
      && (forall a: real {:trigger f(UnMinus, [a])} :: f(UnMinus, [a]) == -a)
      && (forall a: real {:trigger f(Alias, [a])} :: f(Alias, [a]) == a)
  {
    hide Sample;
    forall a: real
      ensures Sample(c)(UnMinus, [a]) == -a && Sample(c)(Alias, [a]) == a
    {
      SampleUnary(c, a);
    }
  }

  lemma {:induction false} SamplePowers(c: seq<real> -> real)
    ensures var f := Sample(c);
      forall a: real {:trigger f(Exp, [a])} :: f(Exp, [a]) > 0.0 && f(Log, [f(Exp, [a])]) == a
  {
    hide Sample;
    forall a: real
      ensures Sample(c)(Exp, [a]) > 0.0 && Sample(c)(Log, [Sample(c)(Exp, [a])]) == a
    {
      SampleUndone(c, a);
    }
  }

  lemma {:induction false} SampleLogarithms(c: seq<real> -> real)
    ensures var f := Sample(c);
      forall a: real {:trigger f(Log, [a])} :: a > 0.0 ==> f(Exp, [f(Log, [a])]) == a
  {
    hide Sample;
    forall a: real | a > 0.0
      ensures Sample(c)(Exp, [Sample(c)(Log, [a])]) == a
    {
      SampleUndone(c, a);
    }
  }

  lemma {:induction false} SampleIsArithmetic(c: seq<real> -> real)
    ensures IsArithmetic(Sample(c))
  {
    SampleBinaries(c);
    SampleUnaries(c);
    SamplePowers(c);
    SampleLogarithms(c);
    hide Sample;
  }

  /** An operation has an inverse exactly if the operand is determined in every arithmetic. */
  lemma {:induction false} HasInverseIfDetermined(op: Op, argIndex: int, other: real, rhs: real)
    requires op.Other? || 0 <= argIndex <= 1
    ensures HasInverse(op, argIndex, other, rhs) <==> DeterminesOperand(op, argIndex, other, rhs)
  {
    if HasInverse(op, argIndex, other, rhs) {
      forall f: Semantics | IsArithmetic(f)
        ensures HasOneOperand(f, op, argIndex, other, rhs)
      {
        InverseIsOperand(f, op, argIndex, other, rhs);
      }
    } else {
      SampleIsArithmetic(_ => rhs);
      NoOneOperand(op, argIndex, other, rhs);
    }
  }

  lemma {:induction false} InverseIsOperand(f: Semantics, op: Op, argIndex: int, other: real, rhs: real)
    requires IsArithmetic(f) && HasInverse(op, argIndex, other, rhs) && 0 <= argIndex <= 1
    ensures HasOneOperand(f, op, argIndex, other, rhs)
  {
    var y := Inverse(f, op, argIndex, other, rhs);
    InverseUndoes(f, op, argIndex, other, rhs, y);
    assert IsOperand(f, op, argIndex, other, rhs, y);
    hide IsArithmetic, HasInverse, Inverse, Applied, InDomain;
    forall z | IsOperand(f, op, argIndex, other, rhs, z)
      ensures z == y
    {
      InverseUndoes(f, op, argIndex, other, rhs, z);
    }
  }

  /** Without an inverse there is no operand, or there is another one. */
  lemma {:induction false} AnotherOperand(op: Op, argIndex: int, other: real, rhs: real, y: real) returns (z: real)
    requires (op.Other? || 0 <= argIndex <= 1) && !HasInverse(op, argIndex, other, rhs)
    requires IsOperand(Sample(_ => rhs), op, argIndex, other, rhs, y)
    ensures z != y && IsOperand(Sample(_ => rhs), op, argIndex, other, rhs, z)
  {
    SampleExpInverse(y);
    hide SampleExp, SampleLog;
    z := if y == 1.0 then 2.0 else 1.0;
  }

  lemma {:induction false} NoOneOperand(op: Op, argIndex: int, other: real, rhs: real)
    requires (op.Other? || 0 <= argIndex <= 1) && !HasInverse(op, argIndex, other, rhs)
    ensures !HasOneOperand(Sample(_ => rhs), op, argIndex, other, rhs)
  {
    hide HasInverse, IsOperand, Sample;
    var f := Sample(_ => rhs);
    forall y | IsOperand(f, op, argIndex, other, rhs, y)
      ensures exists z :: IsOperand(f, op, argIndex, other, rhs, z) && z != y
    {
      var z := AnotherOperand(op, argIndex, other, rhs, y);
    }
  }

  /** What the solver undoes are exactly the operations that can be undone, in either operand. */
  lemma {:induction false} CanInvertUndoable(op: Op, argIndex: int)
    requires op.Other? || 0 <= argIndex <= 1
    ensures CanInvert(op) <==> IsUndoable(op, argIndex)
  {
    hide DeterminesOperand;
    if CanInvert(op) {
      HasInverseIfDetermined(op, argIndex, 1.0, 1.0);
    } else if other, rhs :| DeterminesOperand(op, argIndex, other, rhs) {
      HasInverseIfDetermined(op, argIndex, other, rhs);
    }
  }

  // ---------------------------------------------------------------------------------------------
  // Paths

  /** The variable to solve for is below the node, only by the argument on the path. */
  ghost predicate IsSingleStep(g: Graph, v: nat, s: PathNode, next: nat)
    requires IsGraph(g)
  {
    IsStep(g, s, next) && Reaches(g, next, v) && AllSlots(g, s.node, v) == [s.argIndex as nat]
  }

  lemma {:induction false} OtherOperand(g: Graph, w: World, v: nat, t: real, s: PathNode)
    requires IsGraph(g) && s.node < |g| && g[s.node].Operator? && |g[s.node].args| == 2 && 0 <= s.argIndex < 2
    requires AllSlots(g, s.node, v) == [s.argIndex as nat]
    ensures IsCG(g, g[s.node].args[1 - s.argIndex])
    ensures OtherValue(g, w, s) == CGValue(g, w, g[s.node].args[1 - s.argIndex]) ==
      CGValue(g, At(w, v, t), g[s.node].args[1 - s.argIndex])
  {
    var other := g[s.node].args[1 - s.argIndex];
    if other.Operation? {
      var k: nat := 1 - s.argIndex;
      assert HasArg(g, s.node, other.node);
      ArgIsOlder(g, s.node, other.node);
      assert k !in AllSlots(g, s.node, v) && !LeadsTo(g, s.node, k, v);
      Unaffected(g, w, v, t, other.node);
    }
  }

  /** The value of a node on the path, in terms of the value of the next one. */
  lemma {:induction false} StepApplies(g: Graph, w: World, v: nat, t: real, s: PathNode, next: nat)
    requires IsGraph(g) && WellShaped(g) && IsSingleStep(g, v, s, next) && CanInvert(g[s.node].op) && s.node !in w.over
    ensures next < |g| && s.node != v && 0 <= s.argIndex <= 1
    ensures Value(g, At(w, v, t), s.node) == Applied(w.f, g[s.node].op, s.argIndex, OtherValue(g, w, s),
                                                     Value(g, At(w, v, t), next))
  {
    hide AllSlots;
    assert HasArg(g, s.node, next);
    ArgIsOlder(g, s.node, next);
    ReachesIsOlder(g, next, v);
    hide Reaches;
    ValuesAre(g, At(w, v, t), s.node);
    if |g[s.node].args| == 2 {
      OtherOperand(g, w, v, t, s);
    }
    hide OtherValue;
  }

  ghost function NextValue(g: Graph, w: World, s: PathNode, rhs: real): real
    requires IsGraph(g) && s.node < |g| && g[s.node].Operator?
  {
    Inverse(w.f, g[s.node].op, s.argIndex, OtherValue(g, w, s), rhs)
  }

  ghost predicate CanUndo(g: Graph, w: World, s: PathNode, rhs: real)
    requires IsGraph(g) && s.node < |g| && g[s.node].Operator?
  {
    HasInverse(g[s.node].op, s.argIndex, OtherValue(g, w, s), rhs)
  }

  /** The value of the last node of the path for which node number i of the path has the value rhs. */
  ghost function Solution(g: Graph, w: World, p: Path, i: nat, rhs: real): real
    requires IsGraph(g) && IsPath(g, p) && i < |p|
    decreases |p| - i
  {
    if i == |p| - 1 then rhs
      else assert IsStep(g, p[i], p[i + 1].node); Solution(g, w, p, i + 1, NextValue(g, w, p[i], rhs))
  }

  /** No divisor is zero, and no logarithm of a number that is not positive is taken, on the way. */
  ghost predicate Invertible(g: Graph, w: World, p: Path, i: nat, rhs: real)
    requires IsGraph(g) && IsPath(g, p) && i < |p|
    decreases |p| - i
  {
    i == |p| - 1 ||
    (assert IsStep(g, p[i], p[i + 1].node); CanUndo(g, w, p[i], rhs)
      && Invertible(g, w, p, i + 1, NextValue(g, w, p[i], rhs)))
  }

  /** The operations on the path are defined for the operands they have in the world w. */
  ghost predicate Defined(g: Graph, w: World, p: Path, i: nat)
    requires IsGraph(g) && IsPath(g, p) && i < |p|
  {
    forall j :: i <= j < |p| - 1 ==> StepDefined(g, w, p[j], p[j + 1].node)
  }

  ghost predicate StepDefined(g: Graph, w: World, s: PathNode, next: nat)
    requires IsGraph(g)
  {
    IsStep(g, s, next) && next < |g| && InDomain(g[s.node].op, s.argIndex, Value(g, w, next))
  }

  lemma {:induction false} PathStep(g: Graph, v: nat, p: Path, i: nat)
    requires IsGraph(g) && IsPath(g, p) && EndsAt(p, v) && i < |p| - 1 && Single(g, v, p, i)
    ensures IsSingleStep(g, v, p[i], p[i + 1].node) && p[i + 1].node < |g|
  {
    hide AllSlots;
    PathReaches(g, v, p, i + 1);
    assert IsStep(g, p[i], p[i + 1].node);
    assert HasArg(g, p[i].node, p[i + 1].node);
    ArgIsOlder(g, p[i].node, p[i + 1].node);
  }

  lemma {:induction false} PathReaches(g: Graph, v: nat, p: Path, i: nat)
    requires IsGraph(g) && IsPath(g, p) && EndsAt(p, v) && i < |p|
    ensures Reaches(g, p[i].node, v)
    decreases |p| - i
  {
    if i < |p| - 1 {
      PathReaches(g, v, p, i + 1);
      assert IsStep(g, p[i], p[i + 1].node);
      assert HasArg(g, p[i].node, p[i + 1].node);
      ArgIsOlder(g, p[i].node, p[i + 1].node);
    }
  }

  /**
    If the variable occurs in the expression only along the path, then it solves the equation exactly
    when it has the value that undoes the path: that value makes the expression equal to rhs, and no
    other value for which the path is defined does.
   */
  lemma {:induction false} SolutionIsUnique(g: Graph, w: World, v: nat, t: real, p: Path, i: nat, rhs: real)
    requires IsGraph(g) && WellShaped(g) && IsArithmetic(w.f) && IsPath(g, p) && EndsAt(p, v) && i < |p|
    requires Single(g, v, p, i)
    requires Invertible(g, w, p, i, rhs) && forall j :: 0 <= j < |p| - 1 ==> p[j].node !in w.over
    ensures p[i].node < |g|
    ensures t == Solution(g, w, p, i, rhs) <==> Value(g, At(w, v, t), p[i].node) == rhs && Defined(g, At(w, v, t), p, i)
    decreases |p| - i
  {
    if i < |p| - 1 {
      PathStep(g, v, p, i);
      SolutionStep(g, w, v, t, p, i, rhs);
      SolutionIsUnique(g, w, v, t, p, i + 1, NextValue(g, w, p[i], rhs));
      DefinedStep(g, At(w, v, t), p, i);
    }
  }

  lemma {:induction false} DefinedStep(g: Graph, w: World, p: Path, i: nat)
    requires IsGraph(g) && IsPath(g, p) && i < |p| - 1 && p[i + 1].node < |g| && IsStep(g, p[i], p[i + 1].node)
    ensures Defined(g, w, p, i) <==>
      InDomain(g[p[i].node].op, p[i].argIndex, Value(g, w, p[i + 1].node)) && Defined(g, w, p, i + 1)
  {}

  lemma {:induction false} SolutionStep(g: Graph, w: World, v: nat, t: real, p: Path, i: nat, rhs: real)
    requires IsGraph(g) && WellShaped(g) && IsArithmetic(w.f) && IsPath(g, p) && i < |p| - 1
    requires p[i + 1].node < |g| && IsSingleStep(g, v, p[i], p[i + 1].node)
    requires CanUndo(g, w, p[i], rhs) && p[i].node !in w.over
    ensures var y := Value(g, At(w, v, t), p[i + 1].node);
      y == NextValue(g, w, p[i], rhs) <==>
        Value(g, At(w, v, t), p[i].node) == rhs && InDomain(g[p[i].node].op, p[i].argIndex, y)
  {
    hide AllSlots, Reaches;
    var s := p[i];
    StepApplies(g, w, v, t, s, p[i + 1].node);
    InverseUndoes(w.f, g[s.node].op, s.argIndex, OtherValue(g, w, s), rhs, Value(g, At(w, v, t), p[i + 1].node));
    hide IsArithmetic, OtherValue, Value, Inverse, Applied;
  }
}
