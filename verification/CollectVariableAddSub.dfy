/** Collecting two occurrences of a variable that are parts of the same sum or difference. */
module CollectVariableAddSubs {
  import opened Arithmetic
  import opened CloneReach
  import opened CloneSetting
  import opened Coefficients
  import opened EvaluatorSolve
  import opened OperationGraph
  import opened PathCount
  import opened PathGraph
  import opened PathInversion
  import opened SingleBifurcation
  import opened Wrappers

  // ---------------------------------------------------------------------------------------------
  // The coefficient of one occurrence

  /** c is the coefficient collected from the nodes of the path before number k, times `initial`. */
  ghost predicate IsCoefficient(g0: Graph, g: Graph, f: Semantics, p: Path, k: nat, initial: real, c: CG)
    requires IsGraph(g0) && IsGraph(g) && IsCG(g, c) && IsCollectable(g0, p) && 1 <= k < |p|
  {
    forall w: World {:trigger CGValue(g, w, c)} :: Fits(w, f, |g0|) && PathDivisors(g0, w, p) ==>
      CGValue(g, w, c) == initial * CollectedCoefficient(g0, w, p, k)
  }

  /** The operation that a node of the path stands for was applied to the coefficient. */
  ghost predicate Multiplied(g: Graph, f: Semantics, n: nat, op: Op, minus: bool, other: CG, c: CG, r: CG)
    requires IsGraph(g) && IsCG(g, other) && IsCG(g, c) && IsCG(g, r)
  {
    match op
    case Add | Alias => r == c
    case Sub => if minus then ComputesUnary(g, f, n, UnMinus, r, c) else r == c
    case UnMinus => ComputesUnary(g, f, n, UnMinus, r, c)
    case Mul => Computes(g, f, n, Mul, r, c, other)
    case Div => Computes(g, f, n, Div, r, c, other)
    case _ => false
  }

  function OtherArgument(g: Graph, s: PathNode): CG
    requires s.node < |g| && g[s.node].Operator?
  {
    if |g[s.node].args| == 2 then g[s.node].args[if s.argIndex == 0 then 1 else 0] else Parameter(0.0)
  }

  lemma {:induction false} MultipliedValue(g0: Graph, g: Graph, f: Semantics, n: nat, s: PathNode, minus: bool, c: CG,
                                           r: CG, w: World)
    requires IsGraph(g0) && WellShaped(g0) && IsGraph(g) && g0 <= g && |g0| <= n && IsCollectableNode(g0, s)
    requires IsArithmetic(f)
    requires Fits(w, f, |g0|) && IsCG(g0, OtherArgument(g0, s)) && IsCG(g, c) && IsCG(g, r)
    requires Multiplied(g, f, n, g0[s.node].op, minus, OtherArgument(g0, s), c, r)
    requires g0[s.node].op == Div ==> OtherValue(g0, w, s) != 0.0
    ensures CGValue(g, w, r) == CGValue(g, w, c) * Factor(g0, w, s, minus)
  {
    var other := OtherArgument(g0, s);
    CGValueKept(g0, g, w, other);
    assert Fits(w, f, n);
    var y, z := CGValue(g, w, c), CGValue(g, w, other);
    assert g0[s.node].op == Mul || g0[s.node].op == Div ==> z == OtherValue(g0, w, s);
    hide Value, OtherValue;
    if g0[s.node].op == Div {
      assert y / z == y * (1.0 / z);
    }
  }

  lemma {:induction false} CoefficientNext(g0: Graph, g: Graph, g': Graph, f: Semantics, p: Path, k: nat, initial: real,
                                           c: CG, r: CG)
    requires IsGraph(g0) && WellShaped(g0) && IsGraph(g) && IsGraph(g') && g0 <= g <= g' && IsArithmetic(f)
    requires IsCG(g, c) && IsCG(g', c) && IsCG(g', r) && IsCollectable(g0, p) && 1 <= k < |p| - 1
    requires IsCoefficient(g0, g, f, p, k, initial, c) && IsCollectableNode(g0, p[k])
    requires IsCG(g0, OtherArgument(g0, p[k]))
    requires Multiplied(g', f, |g|, g0[p[k].node].op, p[k - 1].argIndex == 1, OtherArgument(g0, p[k]), c, r)
    ensures IsCoefficient(g0, g', f, p, k + 1, initial, r)
  {
    forall w: World | Fits(w, f, |g0|) && PathDivisors(g0, w, p)
      ensures CGValue(g', w, r) == initial * CollectedCoefficient(g0, w, p, k + 1)
    {
      CoefficientNextIn(g0, g, g', f, p, k, initial, c, r, w);
    }
  }

  lemma {:induction false} CoefficientNextIn(g0: Graph, g: Graph, g': Graph, f: Semantics, p: Path, k: nat,
                                             initial: real, c: CG, r: CG, w: World)
    requires IsGraph(g0) && WellShaped(g0) && IsGraph(g) && IsGraph(g') && g0 <= g <= g' && IsArithmetic(f)
    requires IsCG(g, c) && IsCG(g', c) && IsCG(g', r) && IsCollectable(g0, p) && 1 <= k < |p| - 1
    requires Fits(w, f, |g0|) && PathDivisors(g0, w, p)
    requires CGValue(g, w, c) == initial * CollectedCoefficient(g0, w, p, k)
    requires IsCollectableNode(g0, p[k]) && IsCG(g0, OtherArgument(g0, p[k]))
    requires Multiplied(g', f, |g|, g0[p[k].node].op, p[k - 1].argIndex == 1, OtherArgument(g0, p[k]), c, r)
    ensures CGValue(g', w, r) == initial * CollectedCoefficient(g0, w, p, k + 1)
  {
    hide Factor, IsArithmetic, Multiplied, OtherValue, Value, CGValue, OtherArgument, IsGraph, WellShaped;
    CGValueKept(g, g', w, c);
    MultipliedValue(g0, g', f, |g|, p[k], p[k - 1].argIndex == 1, c, r, w);
  }

  /** The loop that multiplies the coefficient with what it finds on the path. */
  method CollectCoefficient(handler: NodeManager, ghost g: Graph, p: Path, initial: real) returns (c: CG)
    requires handler.Valid() && IsGraph(g) && WellShaped(g) && g <= handler.nodes && IsPath(g, p) && |p| >= 2
    requires IsCollectable(g, p)
    requires Single(g, EndOf(p), p, 1)
    modifies handler
    ensures handler.Valid() && old(handler.nodes) <= handler.nodes && IsCG(handler.nodes, c)
    ensures IsCoefficient(g, handler.nodes, handler.f, p, |p| - 1, initial, c) && Avoids(handler.nodes, c, EndOf(p))
  {
    c := Parameter(initial);
    for i := 1 to |p| - 1
      invariant handler.Valid() && old(handler.nodes) <= handler.nodes && IsCG(handler.nodes, c)
      invariant IsCoefficient(g, handler.nodes, handler.f, p, i, initial, c) && Avoids(handler.nodes, c, EndOf(p))
    {
      hide IsArithmetic, WellShaped, IsCoefficient, Computes, ComputesUnary, Avoids, Single;
      c := MultiplyCoefficient(handler, g, p, i, initial, c);
    }
  }

  method MultiplyCoefficient(handler: NodeManager, ghost g: Graph, p: Path, i: nat, ghost initial: real, c0: CG)
    returns (c: CG)
    requires IsGraph(g) && WellShaped(g) && handler.Valid() && g <= handler.nodes && IsCG(handler.nodes, c0)
    requires IsPath(g, p) && IsCollectable(g, p) && 1 <= i < |p| - 1
    requires IsCoefficient(g, handler.nodes, handler.f, p, i, initial, c0)
    requires Single(g, EndOf(p), p, 1) && Avoids(handler.nodes, c0, EndOf(p))
    modifies handler
    ensures handler.Valid() && old(handler.nodes) <= handler.nodes && IsCG(handler.nodes, c)
    ensures IsCoefficient(g, handler.nodes, handler.f, p, i + 1, initial, c) && Avoids(handler.nodes, c, EndOf(p))
  {
    ghost var before := handler.nodes;
    OtherIsCG(g, p, i);
    OtherAvoids(g, before, p, i);
    assert IsCollectableNode(g, p[i]);
    hide IsArithmetic, WellShaped, IsCoefficient, Computes, ComputesUnary, Avoids, Single, Made;
    var args := handler.nodes[p[i].node].args;
    match handler.nodes[p[i].node].op {
      case Add | Alias =>
        c := c0;
      case Sub =>
        if p[i - 1].argIndex == 1 {
          c := handler.Negate(c0);
        } else {
          c := c0;
        }
      case UnMinus =>
        c := handler.Negate(c0);
      case Mul =>
        c := handler.Times(c0, if p[i].argIndex == 0 then args[1] else args[0]);
      case Div =>
        c := handler.DivideBy(c0, args[1]);
    }
    CoefficientNext(g, before, handler.nodes, handler.f, p, i, initial, c0, c);
    CoefficientAvoids(g, before, handler.nodes, p, i, c0, c);
  }

  /** The other argument of a node on the path does not lead to the end of the path. */
  lemma {:induction false} OtherAvoids(g: Graph, g': Graph, p: Path, i: nat)
    requires IsGraph(g) && IsGraph(g') && g <= g' && IsPath(g, p) && 1 <= i < |p| - 1 && Single(g, EndOf(p), p, 1)
    requires p[i].node < |g| && g[p[i].node].Operator? && 0 <= p[i].argIndex < |g[p[i].node].args| <= 2
    requires IsCG(g, OtherArgument(g, p[i]))
    ensures Avoids(g', OtherArgument(g, p[i]), EndOf(p))
  {
    var other := OtherArgument(g, p[i]);
    CGReachesKept(g, g', other, EndOf(p));
    var k := if p[i].argIndex == 0 then 1 else 0;
    assert AllSlots(g, p[i].node, EndOf(p)) == [p[i].argIndex];
    assert !LeadsTo(g, p[i].node, k, EndOf(p));
  }

  /** A node none of whose operands leads to the variable does not lead to it. */
  lemma {:induction false} MadeAvoids(g: Graph, g': Graph, op: Op, args: seq<CG>, r: CG, v: nat)
    requires IsGraph(g) && IsGraph(g') && v < |g| && Made(g, g', op, args, r)
    requires forall k :: 0 <= k < |args| ==> IsCG(g, args[k]) && Avoids(g, args[k], v)
    ensures Avoids(g', r, v)
  {
    if r.Operation? && g' != g {
      if CGReaches(g', r, v) {
        FromNewNode(g, g', op, args, v);
        var k :| 0 <= k < |args| && CGReaches(g', args[k], v);
        CGReachesKept(g, g', args[k], v);
        assert false;
      }
    }
  }

  /** The operands of the operation applied to the coefficient. */
  ghost predicate MultipliedBy(g: Graph, g': Graph, op: Op, minus: bool, other: CG, c: CG, r: CG) {
    match op
    case Add | Alias => r == c && g' == g
    case Sub => if minus then Made(g, g', UnMinus, [c], r) else r == c && g' == g
    case UnMinus => Made(g, g', UnMinus, [c], r)
    case Mul => Made(g, g', Mul, [c, other], r)
    case Div => Made(g, g', Div, [c, other], r)
    case _ => false
  }

  lemma {:induction false} CoefficientAvoids(g0: Graph, g: Graph, g': Graph, p: Path, i: nat, c: CG, r: CG)
    requires IsGraph(g) && IsGraph(g') && g0 <= g && 1 <= i < |p| - 1 && EndOf(p) < |g| && p[i].node < |g0|
    requires g0[p[i].node].Operator?
    requires IsCG(g, c) && Avoids(g, c, EndOf(p)) && IsCG(g, OtherArgument(g0, p[i]))
    requires Avoids(g, OtherArgument(g0, p[i]), EndOf(p))
    requires MultipliedBy(g, g', g0[p[i].node].op, p[i - 1].argIndex == 1, OtherArgument(g0, p[i]), c, r)
    ensures Avoids(g', r, EndOf(p))
  {
    hide Avoids, Made;
    match g0[p[i].node].op {
      case Mul => MadeAvoids(g, g', Mul, [c, OtherArgument(g0, p[i])], r, EndOf(p));
      case Div => MadeAvoids(g, g', Div, [c, OtherArgument(g0, p[i])], r, EndOf(p));
      case UnMinus => MadeAvoids(g, g', UnMinus, [c], r, EndOf(p));
      case Sub =>
        if p[i - 1].argIndex == 1 {
          MadeAvoids(g, g', UnMinus, [c], r, EndOf(p));
        }
      case _ =>
    }
  }

  /**
    Only the operand `clean` leads to the variable, and the ways from it do not split: neither do those from the result.
   */
  lemma {:induction false} JoinSplitless(original: Graph, g: Graph, g': Graph, op: Op, args: seq<CG>, r: CG, v: nat,
                                         clean: nat)
    requires IsGraph(original) && original <= g && IsGraph(g) && IsGraph(g') && v < |original|
    requires Made(g, g', op, args, r) && clean < |args|
    requires Splitless(original, g, v, args[clean])
    requires forall k :: 0 <= k < |args| ==> IsCG(g, args[k]) && (k == clean || Avoids(g, args[k], v))
    ensures Splitless(original, g', v, r)
  {
    forall x: nat | x < |g'| && CGReaches(g', r, x) && Reaches(g', x, v)
      ensures x == v || (x >= |original| && Extra(g', x, v) == 0)
    {
      if g' != g && r == Operation(|g|) && x == |g| {
        NewNodeSplits(g, g', op, args, v, clean);
      } else {
        SplitlessBelow(original, g, g', op, args, r, v, clean, x);
      }
    }
  }

  lemma {:induction false} NewNodeSplits(g: Graph, g': Graph, op: Op, args: seq<CG>, v: nat, clean: nat)
    requires IsGraph(g) && IsGraph(g') && g' == g + [Operator(op, args)] && clean < |args|
    requires forall k :: 0 <= k < |args| ==> IsCG(g, args[k]) && (k == clean || Avoids(g, args[k], v))
    ensures Extra(g', |g|, v) == 0
  {
    hide Reaches;
    forall k: nat {:trigger LeadsTo(g', |g|, k, v)} | LeadsTo(g', |g|, k, v)
      ensures k == clean
    {
      CGReachesKept(g, g', args[k], v);
    }
    OneSlot(g', |g|, v, clean, |args|);
  }

  /** What is reached from the result by way of an operand. */
  lemma {:induction false} SplitlessBelow(original: Graph, g: Graph, g': Graph, op: Op, args: seq<CG>, r: CG, v: nat,
                                          clean: nat, x: nat)
    requires IsGraph(original) && original <= g && IsGraph(g) && IsGraph(g') && v < |original|
    requires Made(g, g', op, args, r) && clean < |args|
    requires Splitless(original, g, v, args[clean])
    requires forall k :: 0 <= k < |args| ==> IsCG(g, args[k]) && (k == clean || Avoids(g, args[k], v))
    requires CGReaches(g', r, x) && Reaches(g', x, v) && !(g' != g && x == |g|)
    ensures x < |g| && (x == v || (x >= |original| && Extra(g', x, v) == 0))
  {
    hide Extra, Splitless, Below;
    var k: nat;
    if g' != g {
      FromNewNode(g, g', op, args, x);
      k :| k < |args| && CGReaches(g', args[k], x);
    } else {
      k :| k < |args| && args[k] == r;
    }
    CGReachesKept(g, g', args[k], x);
    ReachedInRange(g, args[k], x);
    ReachesKept(g, g', x, v);
    if k != clean {
      ReachesTransitive(g, args[k].node, x, v);
      assert false;
    }
    SplitlessAt(original, g, v, args[k], x);
    AllSlotsKept(g, g', x, v);
  }

  lemma {:induction false} SplitlessAt(original: Graph, g: Graph, v: nat, c: CG, x: nat)
    requires IsGraph(g) && Splitless(original, g, v, c) && x < |g| && CGReaches(g, c, x) && Reaches(g, x, v)
    ensures x == v || (x >= |original| && Extra(g, x, v) == 0)
  {}

  /** The variable itself. */
  lemma {:induction false} VariableIsSplitless(original: Graph, g: Graph, v: nat)
    requires IsGraph(original) && IsGraph(g) && original <= g && v < |original|
    ensures Splitless(original, g, v, Operation(v))
  {
    forall x: nat | Reaches(g, v, x) && Reaches(g, x, v)
      ensures x == v
    {
      ReachesIsOlder(g, v, x);
      ReachesIsOlder(g, x, v);
    }
  }

  lemma {:induction false} OtherIsCG(g: Graph, p: Path, i: nat)
    requires IsGraph(g) && WellShaped(g) && IsCollectable(g, p) && IsPath(g, p) && 1 <= i < |p| - 1
    ensures p[i].node < |g| && g[p[i].node].Operator? && TakesOperands(g[p[i].node].op, |g[p[i].node].args|)
    ensures IsCG(g, OtherArgument(g, p[i])) && 0 <= p[i].argIndex < |g[p[i].node].args|
  {
    assert IsStep(g, p[i], p[i + 1].node);
  }

  // ---------------------------------------------------------------------------------------------
  // Two occurrences

  /** Two paths part at a node by its first two arguments on a way to v, and do not split again. */
  ghost predicate Bifurcates(g: Graph, v: nat, left: Path, right: Path)
    requires IsGraph(g)
  {
    && IsPath(g, left) && IsPath(g, right) && EndsAt(left, v) && EndsAt(right, v) && |left| >= 2 && |right| >= 2
    && Part(g, v, left[0], right[0]) && Single(g, v, left, 1) && Single(g, v, right, 1)
  }

  predicate IsSumOrDifference(g: Graph, n: nat) {
    n < |g| && g[n].Operator? && (g[n].op == Add || g[n].op == Sub)
  }

  /** The sign of the second argument. */
  function RightSign(g: Graph, n: nat): real
    requires n < |g| && g[n].Operator?
  {
    if g[n].op == Sub then -1.0 else 1.0
  }

  lemma {:induction false} SumParts(g: Graph, v: nat, left: Path, right: Path)
    requires IsGraph(g) && WellShaped(g) && Bifurcates(g, v, left, right) && IsSumOrDifference(g, left[0].node)
    ensures PathsPart(g, v, left, right) && |g[left[0].node].args| == 2
  {
    var slots := AllSlots(g, left[0].node, v);
    assert forall k :: 0 <= k < |slots| ==> LeadsTo(g, left[0].node, slots[k], v) && slots[k] < 2;
    assert |slots| <= 2;
  }

  /** What all occurrences have to satisfy in a world for the values to be related. */
  ghost predicate InWorld(g: Graph, f: Semantics, w: World, left: Path, right: Path)
    requires IsGraph(g)
  {
    && Fits(w, f, |g|) && PathDivisors(g, w, left) && PathDivisors(g, w, right) && Untouched(w, left)
    && Untouched(w, right)
  }

  ghost predicate BothCollectable(g: Graph, left: Path, right: Path) {
    |left| >= 2 && |right| >= 2 && IsCollectable(g, left) && IsCollectable(g, right) && left[0].node < |g|
      && g[left[0].node].Operator?
  }

  /** The sum of the coefficients of both occurrences. */
  ghost function TrueSum(g: Graph, w: World, left: Path, right: Path): real
    requires IsGraph(g) && BothCollectable(g, left, right)
  {
    Coefficient(g, w, left, |left| - 1) + RightSign(g, left[0].node) * Coefficient(g, w, right, |right| - 1)
  }

  ghost function CollectedSum(g: Graph, w: World, left: Path, right: Path): real
    requires IsGraph(g) && BothCollectable(g, left, right)
  {
    CollectedCoefficient(g, w, left, |left| - 1) +
      RightSign(g, left[0].node) * CollectedCoefficient(g, w, right, |right| - 1)
  }

  /** The expression changes with the variable by the sum of the coefficients. */
  lemma {:induction false} SplitChange(g: Graph, w: World, v: nat, t: real, left: Path, right: Path)
    requires IsGraph(g) && WellShaped(g) && IsArithmetic(w.f) && PathsPart(g, v, left, right)
    requires IsSumOrDifference(g, left[0].node)
    requires BothCollectable(g, left, right) && InWorld(g, w.f, w, left, right)
    ensures Change(g, w, v, t, left[0].node) == TrueSum(g, w, left, right) * t
  {
    hide Change, Coefficient, AllSlots, Single, IsPath, Value, PathDivisors, Untouched, IsArithmetic, IsCollectable,
      WellShaped, IsGraph;
    PathChange(g, w, v, t, left, |left| - 1);
    PathChange(g, w, v, t, right, |right| - 1);
    SplitNode(g, w, v, t, left, right);
    ChangeOfVariable(g, w, v, t);
    SumTimes(Coefficient(g, w, left, |left| - 1), Coefficient(g, w, right, |right| - 1), RightSign(g, left[0].node), t);
  }

  lemma {:induction false} ChangeOfVariable(g: Graph, w: World, v: nat, t: real)
    requires IsGraph(g) && v < |g|
    ensures Change(g, w, v, t, v) == t
  {}

  lemma {:induction false} SumTimes(a: real, b: real, s: real, t: real)
    ensures a * t + s * (b * t) == (a + s * b) * t
  {
    assert s * (b * t) == (s * b) * t;
  }

  lemma {:induction false} SplitNode(g: Graph, w: World, v: nat, t: real, left: Path, right: Path)
    requires IsGraph(g) && WellShaped(g) && IsArithmetic(w.f) && PathsPart(g, v, left, right)
    requires IsSumOrDifference(g, left[0].node)
    requires Untouched(w, left)
    ensures left[1].node < |g| && right[1].node < |g| && left[0].node != v
    ensures Change(g, w, v, t, left[0].node) ==
      Change(g, w, v, t, left[1].node) + RightSign(g, left[0].node) * Change(g, w, v, t, right[1].node)
  {
    hide AllSlots, Single;
    var n := left[0].node;
    assert IsStep(g, left[0], left[1].node) && IsStep(g, right[0], right[1].node);
    assert HasArg(g, n, left[1].node) && HasArg(g, n, right[1].node);
    ArgIsOlder(g, n, left[1].node);
    ArgIsOlder(g, n, right[1].node);
    PathReaches(g, v, left, 1);
    ReachesIsOlder(g, left[1].node, v);
    hide Reaches;
    ValuesAre(g, At(w, v, t), n);
    ValuesAre(g, At(w, v, 0.0), n);
  }

  /** A world already gives v its own value. */
  lemma {:induction false} AtItself(g: Graph, w: World, v: nat, n: nat)
    requires IsGraph(g) && v < |g| && n < |g|
    ensures Value(g, At(w, v, Value(g, w, v)), n) == Value(g, w, n)
    decreases n, 1, 0
  {
    if g[n].Operator? && n != v {
      AtItselfArgs(g, w, v, n, |g[n].args|);
    }
  }

  lemma {:induction false} AtItselfArgs(g: Graph, w: World, v: nat, n: nat, k: nat)
    requires IsGraph(g) && v < |g| && n < |g| && g[n].Operator? && k <= |g[n].args|
    ensures Values(g, At(w, v, Value(g, w, v)), n, k) == Values(g, w, n, k)
    decreases n, 0, k
  {
    if k > 0 {
      AtItselfArgs(g, w, v, n, k - 1);
      if g[n].args[k - 1].Operation? {
        AtItself(g, w, v, g[n].args[k - 1].node);
      }
    }
  }

  /** What is lost or gained: twice the coefficients that are collected with the wrong sign. */
  ghost function WrongSum(g: Graph, w: World, left: Path, right: Path): real
    requires IsGraph(g) && BothCollectable(g, left, right)
  {
    (if SignIsRight(g, left, |left| - 1) then 0.0 else Coefficient(g, w, left, |left| - 1)) +
    RightSign(g, left[0].node) * (if SignIsRight(g, right, |right| - 1) then 0.0
      else Coefficient(g, w, right, |right| - 1))
  }

  lemma {:induction false} CollectedIsTrueBut(g: Graph, w: World, left: Path, right: Path)
    requires IsGraph(g) && BothCollectable(g, left, right)
    ensures CollectedSum(g, w, left, right) == TrueSum(g, w, left, right) - 2.0 * WrongSum(g, w, left, right)
  {
    CollectedSign(g, w, left, |left| - 1);
    CollectedSign(g, w, right, |right| - 1);
    hide Coefficient, CollectedCoefficient, SignIsRight, BothCollectable;
  }

  // ---------------------------------------------------------------------------------------------
  // The methods

  /** The last node of the path, and the products, quotients and negations right above it, become zero. */
  method ReplaceTail(g: Graph, p: Path) returns (replace: seq<Option<CG>>)
    requires IsGraph(g) && IsPath(g, p) && |p| >= 2 && IsCollectable(g, p) && IsSumOrDifference(g, p[0].node)
    ensures ReplacesTail(g, p, replace)
    ensures forall i :: 1 <= i < |p| && replace[i].None? ==> replace[1].None?
  {
    replace := seq(|p|, _ => None)[|p| - 1 := Some(Parameter(0.0))];
    var i1 := |p| - 1;
    while i1 > 0
      invariant 0 < i1 <= |p| - 1 && |replace| == |p| && replace[|p| - 1] == Some(Parameter(0.0))
      invariant forall i :: 0 <= i < i1 ==> replace[i] == None
      invariant forall i :: i1 <= i < |p| ==> replace[i] == Some(Parameter(0.0))
      invariant forall i :: i1 <= i < |p| - 1 ==> VanishesWith(g, p[i])
      decreases i1
    {
      var i := i1 - 1;
      assert IsStep(g, p[i], p[i + 1].node);
      var op := g[p[i].node].op;
      if op == Mul || op == UnMinus || op == Div || op == Alias {
        assert i >= 1 && IsCollectableNode(g, p[i]);
        replace := replace[i := Some(Parameter(0.0))];
        i1 := i;
      } else {
        break;
      }
    }
  }

  ghost predicate SumIs(g0: Graph, g: Graph, f: Semantics, left: Path, right: Path, cSum: CG)
    requires IsGraph(g0) && IsGraph(g) && BothCollectable(g0, left, right) && IsCG(g, cSum)
  {
    forall w: World {:trigger CGValue(g, w, cSum)} :: InWorld(g0, f, w, left, right) ==>
      CGValue(g, w, cSum) == CollectedSum(g0, w, left, right)
  }

  ghost predicate RestIs(g0: Graph, g: Graph, f: Semantics, v: nat, left: Path, right: Path, e: CG)
    requires IsGraph(g0) && IsGraph(g) && |left| > 0 && left[0].node < |g0| && IsCG(g, e)
  {
    forall w: World {:trigger CGValue(g, w, e)} :: InWorld(g0, f, w, left, right) ==>
      CGValue(g, w, e) == Value(g0, At(w, v, 0.0), left[0].node)
  }

  /** The value of the collected expression: the collected coefficients times v, and what is left when v is zero. */
  ghost predicate Collected(g0: Graph, g: Graph, f: Semantics, v: nat, left: Path, right: Path, r: CG)
    requires IsGraph(g0) && IsGraph(g) && BothCollectable(g0, left, right) && v < |g0| && IsCG(g, r)
  {
    forall w: World {:trigger CGValue(g, w, r)} :: InWorld(g0, f, w, left, right) ==>
      CGValue(g, w, r) == CollectedSum(g0, w, left, right) * Value(g0, w, v) + Value(g0, At(w, v, 0.0), left[0].node)
  }

  /** The coefficients of both occurrences are added. */
  method CollectSum(handler: NodeManager, left: Path, right: Path) returns (cSum: CG)
    requires handler.Valid() && PathsPart(handler.nodes, EndOf(left), left, right)
    requires BothCollectable(handler.nodes, left, right)
    modifies handler
    ensures handler.Valid() && old(handler.nodes) <= handler.nodes && IsCG(handler.nodes, cSum)
    ensures SumIs(old(handler.nodes), handler.nodes, handler.f, left, right, cSum)
    ensures Avoids(handler.nodes, cSum, EndOf(left))
  {
    hide IsArithmetic, IsCoefficient, Computes, AllSlots, Single, IsCollectable, Avoids, Made;
    ghost var g := handler.nodes;
    var initial := if handler.nodes[left[0].node].op == Sub then -1.0 else 1.0;
    var c := CollectCoefficient(handler, g, left, 1.0);
    ghost var g1 := handler.nodes;
    cSum := handler.Plus(Parameter(0.0), c);
    ghost var g2, sum1 := handler.nodes, cSum;
    ParameterAvoids(g1, 0.0, EndOf(left));
    MadeAvoids(g1, g2, Add, [Parameter(0.0), c], cSum, EndOf(left));
    var d := CollectCoefficient(handler, g, right, initial);
    ghost var g3 := handler.nodes;
    AvoidsKept(g2, g3, sum1, EndOf(left));
    cSum := handler.Plus(cSum, d);
    MadeAvoids(g3, handler.nodes, Add, [sum1, d], cSum, EndOf(left));
    forall w: World | InWorld(g, handler.f, w, left, right)
      ensures CGValue(handler.nodes, w, cSum) == CollectedSum(g, w, left, right)
    {
      FirstSummand(g, g1, g2, handler.f, left, w, c, sum1);
      SecondSummand(g, g2, g3, handler.nodes, handler.f, left, right, w, sum1, d, cSum, initial);
    }
  }

  lemma {:induction false} AvoidsKept(g: Graph, g': Graph, c: CG, v: nat)
    requires IsGraph(g) && IsGraph(g') && g <= g' && IsCG(g, c) && Avoids(g, c, v)
    ensures Avoids(g', c, v)
  {
    CGReachesKept(g, g', c, v);
  }

  lemma {:induction false} ParameterAvoids(g: Graph, x: real, v: nat)
    requires IsGraph(g)
    ensures Avoids(g, Parameter(x), v)
  {}

  function EndOf(p: Path): nat {
    if |p| > 0 then p[|p| - 1].node else 0
  }

  lemma {:induction false} FirstSummand(g: Graph, g1: Graph, g2: Graph, f: Semantics, left: Path, w: World, c: CG,
                                        sum: CG)
    requires IsGraph(g) && IsGraph(g1) && IsGraph(g2) && g <= g1 <= g2 && IsArithmetic(f) && IsCollectable(g, left)
    requires |left| >= 2
    requires IsCG(g1, c) && IsCG(g2, c) && IsCG(g2, sum) && IsCoefficient(g, g1, f, left, |left| - 1, 1.0, c)
    requires Computes(g2, f, |g1|, Add, sum, Parameter(0.0), c) && Fits(w, f, |g|) && PathDivisors(g, w, left)
    ensures CGValue(g2, w, sum) == CollectedCoefficient(g, w, left, |left| - 1)
  {
    CGValueKept(g1, g2, w, c);
    assert Fits(w, f, |g1|);
    assert CGValue(g1, w, c) == 1.0 * CollectedCoefficient(g, w, left, |left| - 1);
    hide Value, CollectedCoefficient, PathDivisors, IsCollectable;
  }

  lemma {:induction false} SecondSummand(g: Graph, g2: Graph, g3: Graph, g4: Graph, f: Semantics, left: Path,
                                         right: Path, w: World,
                                         sum: CG, d: CG, r: CG, initial: real)
    requires IsGraph(g) && IsGraph(g2) && IsGraph(g3) && IsGraph(g4) && g <= g2 <= g3 <= g4 && IsArithmetic(f)
    requires BothCollectable(g, left, right) && initial == RightSign(g, left[0].node)
    requires IsCG(g2, sum) && IsCG(g3, sum) && IsCG(g3, d) && IsCG(g4, sum) && IsCG(g4, d) && IsCG(g4, r)
    requires CGValue(g2, w, sum) == CollectedCoefficient(g, w, left, |left| - 1)
    requires IsCoefficient(g, g3, f, right, |right| - 1, initial, d) && Computes(g4, f, |g3|, Add, r, sum, d)
    requires Fits(w, f, |g|) && PathDivisors(g, w, right)
    ensures CGValue(g4, w, r) == CollectedSum(g, w, left, right)
  {
    CGValueKept(g2, g4, w, sum);
    CGValueKept(g3, g4, w, d);
    assert Fits(w, f, |g3|);
    assert CGValue(g3, w, d) == initial * CollectedCoefficient(g, w, right, |right| - 1);
    hide Value, CollectedCoefficient, PathDivisors, IsCollectable;
  }

  /** Worlds in which the values are related are safe for the evaluation. */
  lemma {:induction false} InWorldIsSafe(s: Setting, w: World)
    requires s.Valid() && s.mode.OnPaths? && IsCollectable(s.g, s.mode.left) && IsCollectable(s.g, s.mode.right)
    requires IsSumOrDifference(s.g, s.mode.left[0].node) && InWorld(s.g, s.f, w, s.mode.left, s.mode.right)
    ensures s.Safe(w)
  {
    forall n | 0 <= n < |s.g| && s.Cloned(n)
      ensures n !in w.over && NonzeroDivisor(s.g, s.Target(w), n)
    {
      var p := if exists i :: 0 <= i < |s.mode.left| - 1 && s.mode.left[i].node == n then s.mode.left else s.mode.right;
      var i :| 0 <= i < |p| - 1 && p[i].node == n;
      ClonedDivisor(s, w, p, i);
    }
  }

  lemma {:induction false} ClonedDivisor(s: Setting, w: World, p: Path, i: nat)
    requires s.Valid() && s.mode.OnPaths? && (p == s.mode.left || p == s.mode.right) && IsCollectable(s.g, p)
    requires IsSumOrDifference(s.g, p[0].node) && i < |p| - 1 && PathDivisors(s.g, w, p) && Untouched(w, p)
    ensures p[i].node < |s.g| && p[i].node !in w.over && NonzeroDivisor(s.g, s.Target(w), p[i].node)
  {
    if i > 0 && s.g[p[i].node].op == Div && |s.g[p[i].node].args| == 2 {
      assert IsCollectableNode(s.g, p[i]);
      OtherOperand(s.g, w, s.target, CGValue(s.g, w, s.sub), p[i]);
    }
  }

  /** The split is not a sum or difference, or one of its operands is not affine in the variable. */
  ghost predicate CannotCollect(g: Graph, left: Path, right: Path)
    requires |left| > 0
  {
    || left[0].node >= |g| || !g[left[0].node].Operator?
    || (g[left[0].node].op != Add && g[left[0].node].op != Sub)
    || !IsAffinePath(g, left) || !IsAffinePath(g, right)
  }

  /** What is accepted are the affine paths. */
  lemma {:induction false} CollectedParts(g: Graph, v: nat, left: Path, right: Path)
    requires IsGraph(g) && WellShaped(g) && Bifurcates(g, v, left, right)
    ensures left[0].node < |g| && |left| >= 2 && |right| >= 2 && v < |g|
    ensures CannotCollect(g, left, right) <==>
      !(IsSumOrDifference(g, left[0].node) && IsCollectable(g, left) && IsCollectable(g, right))
    ensures !CannotCollect(g, left, right) ==>
      && BothCollectable(g, left, right) && PathsPart(g, v, left, right)
      && |g[left[0].node].args| == 2 && IsSumOrDifference(g, left[0].node)
  {
    hide AllSlots, Single, WellShaped, IsAffinePath, IsCollectable, PathsPart;
    assert IsStep(g, left[0], left[1].node) && IsStep(g, left[|left| - 2], left[|left| - 1].node);
    CollectablePathIfAffine(g, left);
    CollectablePathIfAffine(g, right);
    if IsSumOrDifference(g, left[0].node) {
      SumParts(g, v, left, right);
    }
  }

  lemma {:induction false} NodesAreGraph(handler: NodeManager)
    requires handler.Valid()
    ensures IsGraph(handler.nodes) && WellShaped(handler.nodes) && IsArithmetic(handler.f)
  {}

  /** The collected expression has the value that `Collected` describes, and nothing in it splits any more. */
  ghost predicate IsCollectedSum(g0: Graph, g: Graph, f: Semantics, v: nat, left: Path, right: Path, r: CG) {
    && IsGraph(g0) && IsGraph(g) && BothCollectable(g0, left, right) && v < |g0| <= |g| && IsCG(g, r)
    && Collected(g0, g, f, v, left, right, r) && Splitless(g0, g, v, r)
  }

  lemma {:induction false} SumIsCollected(g0: Graph, g: Graph, f: Semantics, v: nat, left: Path, right: Path, r: CG)
    requires IsGraph(g0) && IsGraph(g) && BothCollectable(g0, left, right) && v < |g0| <= |g| && IsCG(g, r)
    requires Collected(g0, g, f, v, left, right, r) && Splitless(g0, g, v, r)
    ensures IsCollectedSum(g0, g, f, v, left, right, r)
  {}

  /** `collectVariableAddSub`. */
  method CollectVariableAddSub(handler: NodeManager, pathLeft: Path, pathRight: Path) returns (r: Result<CG>)
    requires handler.Valid() && Bifurcates(handler.nodes, EndOf(pathLeft), pathLeft, pathRight)
    modifies handler
    ensures handler.Valid() && old(handler.nodes) <= handler.nodes
    // exactly sums and differences of expressions that are affine in the variable can be collected
    ensures r.Failure? <==> CannotCollect(old(handler.nodes), pathLeft, pathRight)
    ensures r.Success? ==>
      IsCollectedSum(old(handler.nodes), handler.nodes, handler.f, EndOf(pathLeft), pathLeft, pathRight, r.value)
  {
    hide *;
    NodesAreGraph(handler);
    var g := handler.nodes;
    var v := EndOf(pathLeft);
    CollectedParts(g, v, pathLeft, pathRight);
    if !IsSumOrDifference(handler.nodes, pathLeft[0].node) {
      return Failure("Invalid path! It must start with either an addition or subtraction.");
    }
    if !(IsCollectable(handler.nodes, pathLeft) && IsCollectable(handler.nodes, pathRight)) {
      return Failure("Failed to combine multiple occurrences of a variable into one expression");
    }
    var sum := CollectParts(handler, g, v, pathLeft, pathRight);
    SumIsCollected(g, handler.nodes, handler.f, v, pathLeft, pathRight, sum);
    r := Success(sum);
  }

  /** The sum of the coefficients times the variable, and what is left without the variable. */
  method CollectParts(handler: NodeManager, g: Graph, v: nat, pathLeft: Path, pathRight: Path) returns (sum: CG)
    requires handler.Valid() && g == handler.nodes && IsGraph(g) && WellShaped(g)
    requires PathsPart(g, v, pathLeft, pathRight)
    requires v < |g| && v == EndOf(pathLeft) && BothCollectable(g, pathLeft, pathRight)
    requires IsSumOrDifference(g, pathLeft[0].node) && IsCollectable(g, pathLeft) && IsCollectable(g, pathRight)
    modifies handler
    ensures handler.Valid() && g <= handler.nodes && IsGraph(handler.nodes) && IsCG(handler.nodes, sum)
    ensures Collected(g, handler.nodes, handler.f, v, pathLeft, pathRight, sum)
    ensures Splitless(g, handler.nodes, v, sum)
  {
    hide IsCollectable, Collected, SumIs, RestIs, PathsPart, Bifurcates, Avoids, Splitless, Made, Computes, AllSlots,
      Single,
      IsArithmetic, WellShaped, Value, CGValue, IsSumOrDifference;
    var cSum := CollectSum(handler, pathLeft, pathRight);
    ghost var g1 := handler.nodes;
    var expression2 := EvaluateRest(handler, g, v, pathLeft, pathRight);
    ghost var g2 := handler.nodes;
    var product := handler.Times(cSum, Operation(v));
    ghost var g3 := handler.nodes;
    sum := handler.Plus(product, expression2);
    CollectedTotal(g, g1, g2, g3, handler.nodes, handler.f, v, pathLeft, pathRight, cSum, expression2, product, sum);
    TotalIsSplitless(g, g1, g2, g3, handler.nodes, v, cSum, expression2, product, sum);
  }

  /** The expression without the variable. */
  method EvaluateRest(handler: NodeManager, g: Graph, v: nat, left: Path, right: Path) returns (expression2: CG)
    requires handler.Valid() && IsGraph(g) && WellShaped(g) && g <= handler.nodes && v < |g|
    requires PathsPart(g, v, left, right)
    requires IsSumOrDifference(g, left[0].node) && IsCollectable(g, left) && IsCollectable(g, right)
    modifies handler
    ensures handler.Valid() && old(handler.nodes) <= handler.nodes && IsCG(handler.nodes, expression2)
    ensures RestIs(g, handler.nodes, handler.f, v, left, right, expression2) && Avoids(handler.nodes, expression2, v)
  {
    hide AllSlots, Single, IsArithmetic, WellShaped;
    var replaceLeft := ReplaceTail(g, left);
    var replaceRight := ReplaceTail(g, right);
    var setting := Setting(g, handler.f, v, Parameter(0.0), OnPaths(left, right, replaceLeft, replaceRight), g, v);
    var keepCommon := replaceLeft[1].None? || replaceRight[1].None?;
    if keepCommon {
      var e := new EvaluatorCloneSolve(handler, setting);
      StartAtSplit(setting);
      expression2 := e.Evaluate(left[0].node);
      RestIsResult(setting, handler.nodes, expression2);
      RestAvoids(setting, handler.nodes, left[0].node, expression2);
    } else {
      expression2 := Parameter(0.0);
      NothingLeft(setting, handler.nodes);
    }
  }

  lemma {:induction false} StartAtSplit(s: Setting)
    requires Accounted(s) && s.mode.OnPaths?
    ensures Arrived(s, [], s.mode.left[0].node)
  {
    assert Follows(s.mode.left, [], s.mode.left[0].node);
  }

  /** What is left when the variable is zero does not lead to the variable. */
  lemma {:induction false} RestAvoids(s: Setting, nodes: Graph, n: nat, e: CG)
    requires s.mode.OnPaths? && IsResult(s, nodes, n, e) && IsGraph(nodes)
    ensures Avoids(nodes, e, s.variable)
  {
    hide Setting.Valid, Setting.Right;
    assert Reaches(nodes, s.variable, s.variable);
  }

  /** The collected coefficients times the variable, and the rest. */
  lemma {:induction false} TotalIsSplitless(g0: Graph, g1: Graph, g2: Graph, g3: Graph, g: Graph, v: nat, cSum: CG,
                                            rest: CG, product: CG, r: CG)
    requires IsGraph(g0) && IsGraph(g1) && IsGraph(g2) && IsGraph(g3) && IsGraph(g) && g0 <= g1 <= g2 <= g3 <= g
    requires v < |g0|
    requires IsCG(g1, cSum) && Avoids(g1, cSum, v) && IsCG(g2, rest) && Avoids(g2, rest, v) && IsCG(g2, cSum)
    requires IsCG(g3, product) && IsCG(g3, rest)
    requires Made(g2, g3, Mul, [cSum, Operation(v)], product) && Made(g3, g, Add, [product, rest], r)
    ensures Splitless(g0, g, v, r)
  {
    hide Avoids, Splitless, Made;
    AvoidsKept(g1, g2, cSum, v);
    VariableIsSplitless(g0, g2, v);
    JoinSplitless(g0, g2, g3, Mul, [cSum, Operation(v)], product, v, 1);
    AvoidsKept(g2, g3, rest, v);
    JoinSplitless(g0, g3, g, Add, [product, rest], r, v, 0);
  }

  lemma {:induction false} RestIsResult(s: Setting, nodes: Graph, e: CG)
    requires s.Valid() && s.mode.OnPaths? && IsCollectable(s.g, s.mode.left) && IsCollectable(s.g, s.mode.right)
    requires IsSumOrDifference(s.g, s.mode.left[0].node) && IsResult(s, nodes, s.mode.left[0].node, e)
    ensures RestIs(s.g, nodes, s.f, s.target, s.mode.left, s.mode.right, e)
  {
    hide Setting.Safe;
    forall w: World | InWorld(s.g, s.f, w, s.mode.left, s.mode.right)
      ensures CGValue(nodes, w, e) == Value(s.g, At(w, s.target, 0.0), s.mode.left[0].node)
    {
      InWorldIsSafe(s, w);
    }
  }

  /** Nothing is left when everything below both arguments vanishes with the variable. */
  lemma {:induction false} NothingLeft(s: Setting, nodes: Graph)
    requires s.Valid() && s.mode.OnPaths? && IsCollectable(s.g, s.mode.left) && IsCollectable(s.g, s.mode.right)
    requires IsGraph(nodes)
    requires IsSumOrDifference(s.g, s.mode.left[0].node) && s.mode.replaceLeft[1].Some? && s.mode.replaceRight[1].Some?
    ensures RestIs(s.g, nodes, s.f, s.target, s.mode.left, s.mode.right, Parameter(0.0))
  {
    forall w: World | InWorld(s.g, s.f, w, s.mode.left, s.mode.right)
      ensures 0.0 == Value(s.g, At(w, s.target, 0.0), s.mode.left[0].node)
    {
      NothingLeftIn(s, w);
    }
  }

  lemma {:induction false} NothingLeftIn(s: Setting, w: World)
    requires s.Valid() && s.mode.OnPaths? && IsCollectable(s.g, s.mode.left) && IsCollectable(s.g, s.mode.right)
    requires IsSumOrDifference(s.g, s.mode.left[0].node) && s.mode.replaceLeft[1].Some? && s.mode.replaceRight[1].Some?
    requires InWorld(s.g, s.f, w, s.mode.left, s.mode.right)
    ensures Value(s.g, At(w, s.target, 0.0), s.mode.left[0].node) == 0.0
  {
    InWorldIsSafe(s, w);
    var left, right := s.mode.left, s.mode.right;
    hide AllSlots, Single;
    s.TailIsZero(w, left, s.mode.replaceLeft, 1);
    s.TailIsZero(w, right, s.mode.replaceRight, 1);
    ValuesAre(s.g, At(w, s.target, 0.0), left[0].node);
  }

  lemma {:induction false} CollectedTotal(g0: Graph, g1: Graph, g2: Graph, g3: Graph, g: Graph, f: Semantics, v: nat,
                                          left: Path, right: Path,
                                          cSum: CG, rest: CG, product: CG, r: CG)
    requires IsGraph(g0) && IsGraph(g1) && IsGraph(g2) && IsGraph(g3) && IsGraph(g) && g0 <= g1 <= g2 <= g3 <= g
    requires IsArithmetic(f)
    requires v < |g0| && BothCollectable(g0, left, right)
    requires IsCG(g1, cSum) && IsCG(g3, cSum) && IsCG(g2, rest) && IsCG(g, rest) && IsCG(g3, product)
    requires IsCG(g, product) && IsCG(g, r)
    requires SumIs(g0, g1, f, left, right, cSum) && RestIs(g0, g2, f, v, left, right, rest)
    requires Computes(g3, f, |g2|, Mul, product, cSum, Operation(v)) && Computes(g, f, |g3|, Add, r, product, rest)
    ensures Collected(g0, g, f, v, left, right, r)
  {
    hide IsArithmetic, Computes, Value, IsGraph, CollectedSum, CGValue, PathDivisors, Untouched, IsCollectable;
    forall w: World | InWorld(g0, f, w, left, right)
      ensures CGValue(g, w, r) == CollectedSum(g0, w, left, right) * Value(g0, w, v) +
        Value(g0, At(w, v, 0.0), left[0].node)
    {
      assert CGValue(g1, w, cSum) == CollectedSum(g0, w, left, right);
      assert CGValue(g2, w, rest) == Value(g0, At(w, v, 0.0), left[0].node);
      TotalValue(g0, g1, g2, g3, g, f, v, w, cSum, rest, product, r);
    }
  }

  lemma {:induction false} TotalValue(g0: Graph, g1: Graph, g2: Graph, g3: Graph, g: Graph, f: Semantics, v: nat,
                                      w: World,
                                      cSum: CG, rest: CG, product: CG, r: CG)
    requires IsGraph(g0) && IsGraph(g1) && IsGraph(g2) && IsGraph(g3) && IsGraph(g) && g0 <= g1 <= g2 <= g3 <= g
    requires IsArithmetic(f)
    requires v < |g0| && Fits(w, f, |g0|)
    requires IsCG(g1, cSum) && IsCG(g3, cSum) && IsCG(g2, rest) && IsCG(g, rest) && IsCG(g3, product)
    requires IsCG(g, product) && IsCG(g, r)
    requires Computes(g3, f, |g2|, Mul, product, cSum, Operation(v)) && Computes(g, f, |g3|, Add, r, product, rest)
    ensures CGValue(g, w, r) == CGValue(g1, w, cSum) * Value(g0, w, v) + CGValue(g2, w, rest)
  {
    CGValueKept(g1, g3, w, cSum);
    CGValueKept(g2, g, w, rest);
    CGValueKept(g3, g, w, product);
    ValueKept(g0, g3, w, v);
    assert Fits(w, f, |g2|) && Fits(w, f, |g3|);
    assert CGValue(g3, w, Operation(v)) == Value(g0, w, v);
    hide Value, CGValue, IsGraph;
  }

  /**
    Collecting keeps the value of the expression exactly where the coefficients that were collected
    with the wrong sign cancel, or the variable is zero.
   */
  lemma {:induction false} CollectedIsSame(g0: Graph, g: Graph, f: Semantics, v: nat, left: Path, right: Path, r: CG,
                                           w: World)
    requires IsGraph(g0) && WellShaped(g0) && IsGraph(g) && IsArithmetic(f) && v < |g0|
    requires PathsPart(g0, v, left, right) && IsSumOrDifference(g0, left[0].node) && BothCollectable(g0, left, right)
    requires IsCG(g, r) && Collected(g0, g, f, v, left, right, r) && InWorld(g0, f, w, left, right)
    ensures CGValue(g, w, r) == Value(g0, w, left[0].node) - 2.0 * WrongSum(g0, w, left, right) * Value(g0, w, v)
    ensures CGValue(g, w, r) == Value(g0, w, left[0].node) <==> WrongSum(g0, w, left, right) * Value(g0, w, v) == 0.0
    ensures SignIsRight(g0, left, |left| - 1) && SignIsRight(g0, right, |right| - 1) ==>
      CGValue(g, w, r) == Value(g0, w, left[0].node)
  {
    hide Value, CollectedSum, TrueSum, WrongSum, PathsPart, IsCollectable, PathDivisors, Untouched, IsArithmetic,
      WellShaped, IsGraph, SignIsRight, CGValue;
    var t := Value(g0, w, v);
    SplitChange(g0, w, v, t, left, right);
    AtItself(g0, w, v, left[0].node);
    CollectedIsTrueBut(g0, w, left, right);
    NothingWrong(g0, w, left, right);
    assert CGValue(g, w, r) == CollectedSum(g0, w, left, right) * t + Value(g0, At(w, v, 0.0), left[0].node);
  }

  lemma {:induction false} NothingWrong(g: Graph, w: World, left: Path, right: Path)
    requires IsGraph(g) && BothCollectable(g, left, right)
    ensures SignIsRight(g, left, |left| - 1) && SignIsRight(g, right, |right| - 1) ==>
      WrongSum(g, w, left, right) == 0.0
  {}

  // ---------------------------------------------------------------------------------------------
  // An expression that collecting changes

  /** The expression x + (x - y). */
  function Example(): Graph {
    [Independent(0), Independent(1), Operator(Sub, [Operation(0), Operation(1)]), Operator(Add, [Operation(0),
      Operation(2)])]
  }

  function ExampleLeft(): Path {
    [PathNode(3, 0), PathNode(0, -1)]
  }

  function ExampleRight(): Path {
    [PathNode(3, 1), PathNode(2, 0), PathNode(0, -1)]
  }

  lemma {:induction false} ExampleIsGraph()
    ensures IsGraph(Example()) && WellShaped(Example())
  {}

  lemma {:induction false} ExampleLeads()
    requires IsGraph(Example())
    ensures LeadsTo(Example(), 2, 0, 0) && !LeadsTo(Example(), 2, 1, 0)
    ensures LeadsTo(Example(), 3, 0, 0) && LeadsTo(Example(), 3, 1, 0)
  {
    ReachesByArgument(Example(), 2, 0);
    hide Below;
  }

  /** The slots of a node with two arguments. */
  lemma {:induction false} TwoSlots(g: Graph, n: nat, v: nat)
    requires IsGraph(g) && n < |g| && g[n].Operator? && |g[n].args| == 2
    ensures AllSlots(g, n, v) ==
      (if LeadsTo(g, n, 0, v) then [0] else []) + (if LeadsTo(g, n, 1, v) then [1] else [])
  {
    hide LeadsTo;
    assert Slots(g, n, v, 0) == [];
    assert Slots(g, n, v, 1) == if LeadsTo(g, n, 0, v) then [0] else [];
    assert Slots(g, n, v, 2) == Slots(g, n, v, 1) + if LeadsTo(g, n, 1, v) then [1] else [];
  }

  lemma {:induction false} ExampleSlots()
    requires IsGraph(Example())
    ensures AllSlots(Example(), 2, 0) == [0] && AllSlots(Example(), 3, 0) == [0, 1]
  {
    hide LeadsTo, AllSlots, IsGraph;
    ExampleLeads();
    TwoSlots(Example(), 2, 0);
    TwoSlots(Example(), 3, 0);
  }

  lemma {:induction false} ExamplePaths()
    ensures IsGraph(Example()) && WellShaped(Example()) && PathsPart(Example(), 0, ExampleLeft(), ExampleRight())
    ensures BothCollectable(Example(), ExampleLeft(), ExampleRight()) && IsSumOrDifference(Example(), 3)
  {
    ExampleIsGraph();
    ExampleSlots();
    var g, left, right := Example(), ExampleLeft(), ExampleRight();
    assert IsStep(g, left[0], 0) && IsStep(g, right[0], 2) && IsStep(g, right[1], 0);
    assert IsCollectableNode(g, right[1]);
    assert AllSlots(g, right[1].node, 0) == [right[1].argIndex as nat];
    hide AllSlots, IsGraph, WellShaped, IsStep, IsCollectableNode, Example;
    ShortPaths(g, left, right);
  }

  lemma {:induction false} ShortPaths(g: Graph, left: Path, right: Path)
    requires IsGraph(g) && |left| == 2 && |right| == 3 && left[1].node == right[2].node == 0 < |g|
    requires IsStep(g, left[0], 0) && IsStep(g, right[0], right[1].node) && IsStep(g, right[1], 0)
    requires IsCollectableNode(g, right[1])
    requires right[1].node < |g| && right[1].argIndex >= 0
    requires AllSlots(g, right[1].node, 0) == [right[1].argIndex as nat]
    ensures IsPath(g, left) && IsPath(g, right) && EndsAt(left, 0) && EndsAt(right, 0) && Single(g, 0, left, 1)
    ensures Single(g, 0, right, 1)
    ensures IsCollectable(g, left) && IsCollectable(g, right)
  {
    hide AllSlots, IsGraph, IsStep, IsCollectableNode;
  }

  lemma {:induction false} ExampleWrongSum(f: Semantics, w: World)
    requires IsArithmetic(f) && w.over == map[] && w.f == f
    requires BothCollectable(Example(), ExampleLeft(), ExampleRight()) && IsGraph(Example())
    ensures WrongSum(Example(), w, ExampleLeft(), ExampleRight()) == 1.0
    ensures InWorld(Example(), f, w, ExampleLeft(), ExampleRight())
    ensures |Example()| == 4 && Value(Example(), w, 0) == w.x(0) && ExampleLeft()[0].node == 3
  {
    hide IsArithmetic, OtherValue;
    var g, left, right := Example(), ExampleLeft(), ExampleRight();
    assert SignIsRight(g, left, 1);
    assert !Agrees(g, right, 1) && SignIsRight(g, right, 1) && !SignIsRight(g, right, 2);
    assert Coefficient(g, w, right, 1) == 1.0 && Factor(g, w, right[1], false) == 1.0;
    assert Coefficient(g, w, right, 2) == 1.0;
  }

  /** In x + (x - y) the second x is collected with the wrong sign, so that 2 x is missing from the result. */
  lemma {:induction false} WrongSignExample(g: Graph, f: Semantics, r: CG, w: World)
    requires IsGraph(g) && IsArithmetic(f) && IsCG(g, r) && w.over == map[] && w.f == f
    requires BothCollectable(Example(), ExampleLeft(), ExampleRight()) && IsGraph(Example())
    requires Collected(Example(), g, f, 0, ExampleLeft(), ExampleRight(), r)
    ensures CGValue(g, w, r) == Value(Example(), w, 3) - 2.0 * w.x(0)
    ensures w.x(0) != 0.0 ==> CGValue(g, w, r) != Value(Example(), w, 3)
  {
    hide *;
    ExamplePaths();
    ExampleWrongSum(f, w);
    CollectedIsSame(Example(), g, f, 0, ExampleLeft(), ExampleRight(), r, w);
  }
}
