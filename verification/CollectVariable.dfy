/** Rewriting an expression so that two occurrences of a variable become one. */
module CollectVariables {
  import opened Arithmetic
  import opened CloneReach
  import opened CloneSetting
  import opened Coefficients
  import opened CollectVariableAddSubs
  import opened EvaluatorSolve
  import opened OperationGraph
  import opened PathCount
  import opened PathGraph
  import opened PathInversion
  import opened SingleBifurcation
  import opened Wrappers

  /** The allowed number of bifurcations if nothing else is said. */
  const SIZE_MAX: nat := 0xFFFF_FFFF_FFFF_FFFF

  /**
    The nodes between the expression and the split have the values of their operations, with divisors that are not zero.
   */
  ghost predicate OnTheWay(g: Graph, w: World, expression: nat, common: nat)
    requires IsGraph(g)
  {
    forall n :: 0 <= n < |g| && Reaches(g, expression, n) && Reaches(g, n, common) && n != common ==>
      n !in w.over && NonzeroDivisor(g, w, n)
  }

  /** The worlds in which collecting does not change the value of the expression. */
  ghost predicate CollectWorld(g: Graph, f: Semantics, w: World, expression: nat, left: Path, right: Path)
    requires IsGraph(g) && BothCollectable(g, left, right) && EndOf(left) < |g|
  {
    && InWorld(g, f, w, left, right) && OnTheWay(g, w, expression, left[0].node)
    && WrongSum(g, w, left, right) * Value(g, w, EndOf(left)) == 0.0
  }

  ghost predicate Keeps(g0: Graph, g: Graph, f: Semantics, expression: nat, left: Path, right: Path, r: CG)
    requires IsGraph(g0) && IsGraph(g) && BothCollectable(g0, left, right) && EndOf(left) < |g0| && expression < |g0|
    requires IsCG(g, r)
  {
    forall w: World {:trigger CGValue(g, w, r)} :: CollectWorld(g0, f, w, expression, left, right) ==>
      CGValue(g, w, r) == Value(g0, w, expression)
  }

  /** In such a world the replacement has the value of what it replaces. */
  ghost predicate SameSub(g0: Graph, s: Setting, w: World)
    requires IsGraph(g0)
  {
    s.Valid() && g0 <= s.g && s.target < |g0| && CGValue(s.g, w, s.sub) == Value(g0, w, s.target)
  }

  lemma {:induction false} TargetIsSame(g0: Graph, s: Setting, w: World, n: nat)
    requires IsGraph(g0) && SameSub(g0, s, w) && n < |g0|
    ensures Value(s.g, s.Target(w), n) == Value(g0, w, n)
  {
    ValueKept(g0, s.g, w, s.target);
    AtItself(s.g, w, s.target, n);
    ValueKept(g0, s.g, w, n);
  }

  lemma {:induction false} SafeOnTheWay(g0: Graph, s: Setting, w: World, expression: nat)
    requires IsGraph(g0) && SameSub(g0, s, w) && expression < |g0| && Fits(w, s.f, |g0|)
    requires s.mode.OnGraph? && s.mode.root == expression && OnTheWay(g0, w, expression, s.target)
    ensures s.Safe(w)
  {
    forall n | 0 <= n < |s.g| && s.Cloned(n)
      ensures n !in w.over && NonzeroDivisor(s.g, s.Target(w), n)
    {
      assert Reaches(s.g, expression, n) && Reaches(s.g, n, s.target);
      ReachesIsOlder(s.g, expression, n);
      ReachesKept(g0, s.g, expression, n);
      ReachesKept(g0, s.g, n, s.target);
      assert NonzeroDivisor(g0, w, n);
      if g0[n].Operator? && |g0[n].args| == 2 && g0[n].args[1].Operation? {
        assert g0[n].args[1].node < n;
        TargetIsSame(g0, s, w, g0[n].args[1].node);
      }
    }
  }

  lemma {:induction false} KeepsAll(g0: Graph, s: Setting, nodes: Graph, expression: nat, left: Path, right: Path,
                                    r: CG)
    requires IsGraph(g0) && WellShaped(g0) && s.Valid() && g0 <= s.g && expression < |g0| && s.mode.OnGraph?
    requires s.mode.root == expression
    requires BothCollectable(g0, left, right) && s.target == left[0].node && EndOf(left) < |g0|
    requires PathsPart(g0, EndOf(left), left, right) && IsSumOrDifference(g0, left[0].node)
    requires Collected(g0, s.g, s.f, EndOf(left), left, right, s.sub) && IsResult(s, nodes, expression, r)
    ensures Keeps(g0, nodes, s.f, expression, left, right, r)
  {
    hide Collected, WrongSum, InWorld, PathsPart, BothCollectable, OnTheWay, Setting.Safe, Setting.Valid, Value;
    forall w: World | CollectWorld(g0, s.f, w, expression, left, right)
      ensures CGValue(nodes, w, r) == Value(g0, w, expression)
    {
      KeepsIn(g0, s, nodes, expression, left, right, r, w);
    }
  }

  lemma {:induction false} KeepsIn(g0: Graph, s: Setting, nodes: Graph, expression: nat, left: Path, right: Path, r: CG,
                                   w: World)
    requires IsGraph(g0) && WellShaped(g0) && s.Valid() && g0 <= s.g && expression < |g0| && s.mode.OnGraph?
    requires s.mode.root == expression
    requires BothCollectable(g0, left, right) && s.target == left[0].node && EndOf(left) < |g0|
    requires PathsPart(g0, EndOf(left), left, right) && IsSumOrDifference(g0, left[0].node)
    requires Collected(g0, s.g, s.f, EndOf(left), left, right, s.sub) && IsResult(s, nodes, expression, r)
    requires CollectWorld(g0, s.f, w, expression, left, right)
    ensures CGValue(nodes, w, r) == Value(g0, w, expression)
  {
    hide Collected, WrongSum, PathsPart, OnTheWay, Value, AllSlots, IsArithmetic;
    CollectedIsSame(g0, s.g, s.f, EndOf(left), left, right, s.sub, w);
    assert SameSub(g0, s, w);
    SafeOnTheWay(g0, s, w, expression);
    TargetIsSame(g0, s, w, expression);
  }

  lemma {:induction false} TailIsPath(g: Graph, v: nat, p: Path, i: nat)
    requires IsGraph(g) && IsPath(g, p) && EndsAt(p, v) && i < |p| - 1 && Single(g, v, p, i + 1)
    ensures IsPath(g, p[i..]) && EndsAt(p[i..], v) && Single(g, v, p[i..], 1)
  {
    hide AllSlots;
    forall j | 0 <= j < |p[i..]| - 1
      ensures IsStep(g, p[i..][j], p[i..][j + 1].node)
    {
      assert IsStep(g, p[i + j], p[i + j + 1].node);
    }
    forall j | 1 <= j < |p[i..]| - 1
      ensures p[i..][j] == p[i + j]
    {}
  }

  lemma {:induction false} TailsBifurcate(g: Graph, expression: nat, v: nat, path1: Path, path2: Path, lastCommon: nat)
    requires IsGraph(g) && Bifurcation(g, expression, v, path1, path2, lastCommon)
    ensures Bifurcates(g, v, path1[lastCommon..], path2[lastCommon..])
    ensures EndOf(path1[lastCommon..]) == v < |g| && path1[lastCommon].node < |g|
  {
    TailIsPath(g, v, path1, lastCommon);
    TailIsPath(g, v, path2, lastCommon);
    OnPath(g, path1, lastCommon);
    hide AllSlots, Single;
  }

  /** `collectVariable`: collects below the split, and puts the result into the expression. */
  method CollectVariable(handler: NodeManager, expression: nat, path1: Path, path2: Path, lastCommon: nat,
                         ghost v: nat) returns (r: Result<CG>)
    requires handler.Valid() && expression < |handler.nodes|
    requires Bifurcation(handler.nodes, expression, v, path1, path2, lastCommon)
    modifies handler
    ensures handler.Valid() && old(handler.nodes) <= handler.nodes
    ensures EndOf(path1[lastCommon..]) == v < |old(handler.nodes)|
    ensures r.Success? ==>
      IsCG(handler.nodes, r.value) && BothCollectable(old(handler.nodes), path1[lastCommon..], path2[lastCommon..])
    ensures r.Success? ==>
      Keeps(old(handler.nodes), handler.nodes, handler.f, expression, path1[lastCommon..], path2[lastCommon..], r.value)
    // the expression gets simpler
    ensures r.Success? && r.value.Operation? ==>
      Bifurcations(handler.nodes, r.value.node, v) < Bifurcations(old(handler.nodes), expression, v)
    ensures r.Failure? <==>
      || CannotCollect(old(handler.nodes), path1[lastCommon..], path2[lastCommon..])
      || Bifurcations(old(handler.nodes), expression, path1[lastCommon].node) >= 0xFFFF_FFFF_FFFF_FFFF
  {
    var g := handler.nodes;
    TailsBifurcate(g, expression, v, path1, path2, lastCommon);
    hide Bifurcation, IsArithmetic, Collected, AllSlots, Single, Keeps, IsCollectable, CannotCollect, Bifurcates;
    var leftPath, rightPath := path1[lastCommon..], path2[lastCommon..];
    var subExpression := CollectVariableAddSub(handler, leftPath, rightPath);
    if subExpression.Failure? {
      return subExpression;
    }
    CollectedParts(g, v, leftPath, rightPath);
    SplitOnTheWay(g, expression, v, path1, path2, lastCommon);
    hide PathsPart, Splitless;
    var expression2 := ReplaceCommon(handler, g, expression, leftPath, rightPath, subExpression.value);
    return expression2;
  }

  /** The node at which the paths part is on the way, and is a bifurcation. */
  lemma {:induction false} SplitOnTheWay(g: Graph, expression: nat, v: nat, path1: Path, path2: Path, lastCommon: nat)
    requires IsGraph(g) && Bifurcation(g, expression, v, path1, path2, lastCommon)
    ensures var common := path1[lastCommon].node;
      common < |g| && common != v && Reaches(g, expression, common) && Reaches(g, common, v) && Extra(g, common, v) > 0
  {
    hide Reaches, Single;
    PathLeadsTo(g, path1, lastCommon);
    var common := path1[lastCommon].node;
    var k := AllSlots(g, common, v)[0];
    assert LeadsTo(g, common, k, v);
    hide AllSlots;
    assert HasArg(g, common, g[common].args[k].node);
    ArgIsOlder(g, common, g[common].args[k].node);
    ReachesIsOlder(g, g[common].args[k].node, v);
    ReachesByArgument(g, common, v);
  }

  lemma {:induction false} PathLeadsTo(g: Graph, p: Path, i: nat)
    requires IsGraph(g) && IsPath(g, p) && i < |p|
    ensures Reaches(g, p[0].node, p[i].node)
  {
    if i > 0 {
      PathLeadsTo(g, p, i - 1);
      assert IsStep(g, p[i - 1], p[i].node);
      assert HasArg(g, p[i - 1].node, p[i].node);
      ArgIsOlder(g, p[i - 1].node, p[i].node);
      assert Reaches(g, p[i - 1].node, p[i].node);
      ReachesTransitive(g, p[0].node, p[i - 1].node, p[i].node);
    }
  }

  /** The expression with another value for the node at which the paths part. */
  method ReplaceCommon(handler: NodeManager, g: Graph, expression: nat, left: Path, right: Path, sub: CG)
    returns (r: Result<CG>)
    requires handler.Valid() && IsGraph(g) && WellShaped(g) && g <= handler.nodes && expression < |g|
    requires IsCG(handler.nodes, sub)
    requires BothCollectable(g, left, right) && EndOf(left) < |g| && PathsPart(g, EndOf(left), left, right)
    requires IsSumOrDifference(g, left[0].node)
    requires Collected(g, handler.nodes, handler.f, EndOf(left), left, right, sub)
    requires Splitless(g, handler.nodes, EndOf(left), sub)
    requires left[0].node != EndOf(left) && Reaches(g, expression, left[0].node)
    requires Reaches(g, left[0].node, EndOf(left))
    requires Extra(g, left[0].node, EndOf(left)) > 0
    modifies handler
    ensures handler.Valid() && old(handler.nodes) <= handler.nodes
    ensures r.Success? ==>
      IsCG(handler.nodes, r.value) && Keeps(g, handler.nodes, handler.f, expression, left, right, r.value)
    ensures r.Success? && r.value.Operation? ==>
      Bifurcations(handler.nodes, r.value.node, EndOf(left)) < Bifurcations(g, expression, EndOf(left))
    ensures r.Failure? <==> Bifurcations(g, expression, left[0].node) >= SIZE_MAX
  {
    var common := left[0].node;
    WaysKept(g, handler.nodes, expression, common, |handler.nodes|);
    hide PathsPart, Collected, Keeps, BothCollectable, IsArithmetic, WellShaped, IsPathGraph, IsResult, Splitless,
      Reaches, Extra, ExtraWays,
      Setting.Valid, Accounted, Ledger, Arrived, EvaluatorCloneSolve.Valid;
    var graphToCommon, bifurcations := MakePathGraph(handler.nodes, expression, common, SIZE_MAX);
    if bifurcations >= SIZE_MAX {
      return Failure("Too many bifurcations");
    }
    var setting := Setting(handler.nodes, handler.f, common, sub,
                           OnGraph(expression, graphToCommon.graph, map[common := sub]), g, EndOf(left));
    ReplacementIsAccounted(setting, expression);
    var e := new EvaluatorCloneSolve(handler, setting);
    var expression2 := e.Evaluate(expression);
    KeepsAll(g, setting, handler.nodes, expression, left, right, expression2);
    if expression2.Operation? {
      ResultIsTidy(setting, handler.nodes, expression, expression2);
      ReplacedExpression(setting, handler.nodes, e.evals.Keys, expression2);
    }
    r := Success(expression2);
  }

  lemma {:induction false} ReplacementIsAccounted(s: Setting, expression: nat)
    requires IsGraph(s.g) && WellShaped(s.g) && IsArithmetic(s.f) && IsCG(s.g, s.sub) && s.mode.OnGraph?
    requires s.mode.root == expression
    requires IsPathGraph(s.g, expression, s.target, s.mode.graph) && s.mode.replacement == map[s.target := s.sub]
    requires IsGraph(s.original) && s.original <= s.g && expression < |s.original| && s.target < |s.original|
    requires s.variable < |s.original|
    requires Reaches(s.original, s.target, s.variable) && Splitless(s.original, s.g, s.variable, s.sub)
    ensures Accounted(s) && s.Valid() && Arrived(s, [], expression)
  {
    hide Splitless, Below;
  }

  lemma {:induction false} ResultIsTidy(s: Setting, nodes: Graph, n: nat, c: CG)
    requires IsResult(s, nodes, n, c)
    ensures IsGraph(nodes) && IsGraph(s.original) && IsGraph(s.g) && Tidy(s, nodes, n, c) && IsCG(nodes, c)
  {
    OriginalIsGraph(s);
    hide Accounted, Setting.Right;
  }

}
