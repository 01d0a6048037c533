/** What the solver's evaluator is asked to do: which nodes it clones, and which ones it replaces. */
module CloneSetting {
  import opened Arithmetic
  import opened OperationGraph
  import opened PathGraph
  import opened PathInversion
  import opened SingleBifurcation
  import opened Wrappers

  /**
    Either two paths to a variable, with replacements for some of their nodes, or the graph between a
    root and a node, with a replacement for that node.
   */
  datatype Mode =
    | OnPaths(left: Path, right: Path, replaceLeft: seq<Option<CG>>, replaceRight: seq<Option<CG>>)
    | OnGraph(root: nat, graph: Edges, replacement: map<nat, CG>)

  /** The paths leave their first node by the only two arguments that lead to the target. */
  ghost predicate PathsPart(g: Graph, target: nat, left: Path, right: Path)
    requires IsGraph(g)
  {
    && IsPath(g, left) && IsPath(g, right) && EndsAt(left, target) && EndsAt(right, target) && |left| >= 2
    && |right| >= 2
    && left[0].node == right[0].node < |g| && left[0].argIndex == 0 && right[0].argIndex == 1
    && AllSlots(g, left[0].node, target) == [0, 1]
    && Single(g, target, left, 1) && Single(g, target, right, 1)
  }

  /** Zero replaces the target and the products, quotients, and negations right above it. */
  ghost predicate ReplacesTail(g: Graph, p: Path, replace: seq<Option<CG>>)
    requires IsGraph(g) && IsPath(g, p)
  {
    && |replace| == |p| && replace[|p| - 1] == Some(Parameter(0.0)) && replace[0] == None
    && forall i :: 0 <= i < |p| - 1 && replace[i].Some? ==>
         replace[i] == Some(Parameter(0.0)) && replace[i + 1].Some? && VanishesWith(g, p[i])
  }

  /** The value of the node is zero if the operand on the path is. */
  ghost predicate VanishesWith(g: Graph, s: PathNode) {
    && s.node < |g| && g[s.node].Operator?
    && (g[s.node].op == Mul || g[s.node].op == UnMinus || g[s.node].op == Alias
         || (g[s.node].op == Div && s.argIndex == 0))
  }

  /** If node n is a quotient, its divisor is not zero. */
  ghost predicate NonzeroDivisor(g: Graph, w: World, n: nat)
    requires IsGraph(g) && n < |g|
  {
    g[n].Operator? && g[n].op == Div && |g[n].args| == 2 && IsCG(g, g[n].args[1]) ==> CGValue(g, w, g[n].args[1]) != 0.0
  }

  /** The steps `stack` lead from the first node of the path to its node number |stack|, which is n. */
  ghost predicate Follows(p: Path, stack: Path, n: nat) {
    |stack| < |p| && p[|stack|].node == n && stack == p[..|stack|]
  }

  /**
    The evaluation of the nodes `g`, under the operations `f`, as if node `target` had the value `sub`.
    The solver is about to solve for `variable`, in an expression made of the nodes `original`.
   */
  datatype Setting = Setting(g: Graph, f: Semantics, target: nat, sub: CG, mode: Mode, original: Graph, variable: nat)
  {
    ghost predicate Valid() {
      && IsGraph(g) && WellShaped(g) && IsArithmetic(f) && target < |g| && IsCG(g, sub)
      && match mode
         case OnPaths(left, right, replaceLeft, replaceRight) =>
           && sub == Parameter(0.0) && PathsPart(g, target, left, right)
           && ReplacesTail(g, left, replaceLeft) && ReplacesTail(g, right, replaceRight)
         case OnGraph(root, graph, replacement) =>
           IsPathGraph(g, root, target, graph) && replacement == map[target := sub]
    }

    /** Nodes that may be cloned. */
    ghost predicate Cloned(n: nat) {
      match mode
      case OnPaths(left, right, _, _) =>
        (exists i :: 0 <= i < |left| - 1 && left[i].node == n)
          || (exists i :: 0 <= i < |right| - 1 && right[i].node == n)
      case OnGraph(_, graph, _) => n in graph && n != target
    }

    /** The world in which the target has the value of its replacement. */
    ghost function Target(w: World): World
      requires IsGraph(g) && IsCG(g, sub)
    {
      At(w, target, CGValue(g, w, sub))
    }

    /** The worlds for which the evaluation means something: no divisor of a cloned node is zero. */
    ghost predicate Safe(w: World)
      requires IsGraph(g) && IsCG(g, sub)
    {
      Fits(w, f, |g|) && forall n :: 0 <= n < |g| && Cloned(n) ==> n !in w.over && NonzeroDivisor(g, Target(w), n)
    }

    /** c has the value that node n has when the target has the value of its replacement. */
    ghost predicate Right(nodes: Graph, n: nat, c: CG)
      requires IsGraph(g) && IsCG(g, sub) && IsGraph(nodes) && n < |g|
    {
      && IsCG(nodes, c)
      && forall w: World {:trigger CGValue(nodes, w, c)} :: Safe(w) ==> CGValue(nodes, w, c) == Value(g, Target(w), n)
    }

    /** The evaluation arrived at node n in a way that the mode accounts for. */
    ghost predicate Tracked(stack: Path, n: nat)
      requires IsGraph(g)
    {
      n < |g| &&
      match mode
      case OnPaths(left, right, _, _) => Reaches(g, n, target) ==> Follows(left, stack, n) || Follows(right, stack, n)
      case OnGraph(root, _, _) => Reaches(g, root, n)
    }

    lemma {:induction false} RightKept(nodes: Graph, nodes': Graph, n: nat, c: CG)
      requires IsGraph(g) && IsCG(g, sub) && IsGraph(nodes) && IsGraph(nodes') && nodes <= nodes' && n < |g|
      requires Right(nodes, n, c)
      ensures Right(nodes', n, c)
    {
      forall w: World | Safe(w)
        ensures CGValue(nodes', w, c) == Value(g, Target(w), n)
      {
        CGValueKept(nodes, nodes', w, c);
        assert CGValue(nodes, w, c) == Value(g, Target(w), n);
      }
    }

    /** A node that does not depend on the target is its own value. */
    lemma {:induction false} OriginalIsRight(nodes: Graph, n: nat)
      requires IsGraph(g) && IsCG(g, sub) && IsGraph(nodes) && g <= nodes && n < |g| && !Reaches(g, n, target)
      ensures Right(nodes, n, Operation(n))
    {
      forall w: World | Safe(w)
        ensures CGValue(nodes, w, Operation(n)) == Value(g, Target(w), n)
      {
        Unaffected(g, w, target, CGValue(g, w, sub), n);
        ValueKept(g, nodes, w, n);
      }
    }

    lemma {:induction false} SubIsRight(nodes: Graph)
      requires IsGraph(g) && IsCG(g, sub) && IsGraph(nodes) && g <= nodes && target < |g|
      ensures Right(nodes, target, sub)
    {
      forall w: World | Safe(w)
        ensures CGValue(nodes, w, sub) == Value(g, Target(w), target)
      {
        CGValueKept(g, nodes, w, sub);
      }
    }

    /** What is replaced on a path is zero when the target is. */
    lemma {:induction false} TailIsZero(w: World, p: Path, replace: seq<Option<CG>>, i: nat)
      requires Valid() && sub == Parameter(0.0) && Safe(w) && IsPath(g, p) && EndsAt(p, target)
      requires ReplacesTail(g, p, replace)
      requires i < |p| && replace[i].Some? && forall j :: 0 <= j < |p| - 1 ==> Cloned(p[j].node)
      ensures p[i].node < |g| && Value(g, Target(w), p[i].node) == 0.0
      decreases |p| - i
    {
      hide Cloned;
      if i < |p| - 1 {
        TailIsZero(w, p, replace, i + 1);
        assert IsStep(g, p[i], p[i + 1].node);
        StepIsZero(w, p[i], p[i + 1].node);
      }
    }

    lemma {:induction false} StepIsZero(w: World, s: PathNode, next: nat)
      requires Valid() && sub == Parameter(0.0) && Safe(w) && IsStep(g, s, next) && VanishesWith(g, s) && Cloned(s.node)
      requires next < |g|
      requires Value(g, Target(w), next) == 0.0
      ensures Value(g, Target(w), s.node) == 0.0
    {
      hide Cloned;
      var w' := Target(w);
      assert NonzeroDivisor(g, w', s.node);
      ValuesAre(g, w', s.node);
    }

    // -------------------------------------------------------------------------------------------
    // Cloning one node

    /** The evaluation is at a node of a path that is not the last one. */
    ghost predicate Cloning(stack: Path, n: nat) {
      match mode
      case OnPaths(left, right, _, _) =>
        (Follows(left, stack, n) && |stack| < |left| - 1) || (Follows(right, stack, n) && |stack| < |right| - 1)
      case OnGraph(root, graph, _) => n in graph && n != target
    }

    /** The operands of a cloned node are tracked. */
    lemma {:induction false} TrackedOperand(stack: Path, n: nat, k: nat)
      requires Valid() && Tracked(stack, n) && Cloning(stack, n)
      requires g[n].Operator? && k < |g[n].args| && g[n].args[k].Operation?
      ensures g[n].args[k].node < n && Tracked(stack + [PathNode(n, k)], g[n].args[k].node)
    {
      var a := g[n].args[k].node;
      assert HasArg(g, n, a);
      ArgIsOlder(g, n, a);
      match mode
      case OnPaths(left, right, _, _) =>
        if Reaches(g, a, target) {
          OperandFollows(left, right, stack, n, k);
        }
      case OnGraph(root, _, _) =>
        assert Reaches(g, n, a);
        ReachesTransitive(g, root, n, a);
    }

    lemma {:induction false} OperandFollows(left: Path, right: Path, stack: Path, n: nat, k: nat)
      requires IsGraph(g) && PathsPart(g, target, left, right) && n < |g|
      requires (Follows(left, stack, n) && |stack| < |left| - 1) || (Follows(right, stack, n) && |stack| < |right| - 1)
      requires LeadsTo(g, n, k, target)
      ensures Follows(left, stack + [PathNode(n, k)], g[n].args[k].node)
        || Follows(right, stack + [PathNode(n, k)], g[n].args[k].node)
    {
      assert k in AllSlots(g, n, target);
      if stack == [] {
        assert n == left[0].node;
        if k == 0 {
          FollowsNext(left, stack, n, k);
        } else {
          FollowsNext(right, stack, n, k);
        }
      } else if Follows(left, stack, n) && |stack| < |left| - 1 {
        assert AllSlots(g, n, target) == [left[|stack|].argIndex as nat];
        FollowsNext(left, stack, n, k);
      } else {
        assert AllSlots(g, n, target) == [right[|stack|].argIndex as nat];
        FollowsNext(right, stack, n, k);
      }
    }

    lemma {:induction false} FollowsNext(p: Path, stack: Path, n: nat, k: nat)
      requires IsPath(g, p) && Follows(p, stack, n) && |stack| < |p| - 1 && p[|stack|].argIndex == k
      ensures n < |g| && g[n].Operator? && k < |g[n].args| && g[n].args[k].Operation?
      ensures Follows(p, stack + [PathNode(n, k)], g[n].args[k].node)
    {
      assert IsStep(g, p[|stack|], p[|stack| + 1].node);
    }

    lemma {:induction false} CloningIsCloned(stack: Path, n: nat)
      requires Valid() && Tracked(stack, n) && Cloning(stack, n)
      ensures Cloned(n) && n != target
    {
      match mode
      case OnPaths(left, right, _, _) =>
        var p := if Follows(left, stack, n) && |stack| < |left| - 1 then left else right;
        assert IsStep(g, p[|stack|], p[|stack| + 1].node);
        PathReaches(g, target, p, |stack| + 1);
        assert HasArg(g, n, p[|stack| + 1].node);
        ArgIsOlder(g, n, p[|stack| + 1].node);
        ReachesIsOlder(g, p[|stack| + 1].node, target);
      case OnGraph(_, _, _) =>
    }

    /** The clone of an operand. */
    ghost predicate RightOperand(nodes: Graph, a: Arg, c: CG)
      requires IsGraph(g) && IsCG(g, sub) && IsGraph(nodes) && IsCG(g, a)
    {
      if a.Parameter? then c == a else Right(nodes, a.node, c)
    }

    lemma {:induction false} OperandValue(nodes: Graph, nodes': Graph, a: Arg, c: CG, w: World)
      requires IsGraph(g) && IsCG(g, sub) && IsGraph(nodes) && IsGraph(nodes') && nodes <= nodes' && IsCG(g, a)
      requires RightOperand(nodes, a, c) && Safe(w)
      ensures IsCG(nodes, c) && CGValue(nodes', w, c) == CGValue(g, Target(w), a)
    {
      CGValueKept(nodes, nodes', w, c);
    }

    lemma {:induction false} BinaryIsRight(nodes: Graph, nodes': Graph, n: nat, c0: CG, c1: CG, r: CG)
      requires Valid() && IsGraph(nodes) && IsGraph(nodes') && g <= nodes <= nodes' && n < |g| && Cloned(n)
      requires n != target
      requires g[n].Operator? && |g[n].args| == 2 && IsCG(g, g[n].args[0]) && IsCG(g, g[n].args[1])
      requires RightOperand(nodes, g[n].args[0], c0) && RightOperand(nodes, g[n].args[1], c1)
      requires IsCG(nodes', r) && IsCG(nodes', c0) && IsCG(nodes', c1)
      requires Computes(nodes', f, |nodes|, g[n].op, r, c0, c1)
      ensures Right(nodes', n, r)
    {
      forall w: World | Safe(w)
        ensures CGValue(nodes', w, r) == Value(g, Target(w), n)
      {
        OperandValue(nodes, nodes', g[n].args[0], c0, w);
        OperandValue(nodes, nodes', g[n].args[1], c1, w);
        ValuesAre(g, Target(w), n);
        assert NonzeroDivisor(g, Target(w), n) && Fits(w, f, |nodes|);
      }
    }

    lemma {:induction false} UnaryIsRight(nodes: Graph, nodes': Graph, n: nat, c: CG, r: CG)
      requires Valid() && IsGraph(nodes) && IsGraph(nodes') && g <= nodes <= nodes' && n < |g| && Cloned(n)
      requires n != target
      requires g[n].Operator? && |g[n].args| == 1 && IsCG(g, g[n].args[0]) && RightOperand(nodes, g[n].args[0], c)
      requires IsCG(nodes', r) && IsCG(nodes', c)
      requires ComputesUnary(nodes', f, |nodes|, g[n].op, r, c) || (g[n].op == Alias && r == c)
      ensures Right(nodes', n, r)
    {
      forall w: World | Safe(w)
        ensures CGValue(nodes', w, r) == Value(g, Target(w), n)
      {
        OperandValue(nodes, nodes', g[n].args[0], c, w);
        ValuesAre(g, Target(w), n);
        assert Fits(w, f, |nodes|);
      }
    }

    lemma {:induction false} OtherIsRight(nodes: Graph, nodes': Graph, n: nat, cs: seq<CG>, r: CG)
      requires Valid() && IsGraph(nodes) && IsGraph(nodes') && g <= nodes <= nodes' && n < |g| && Cloned(n)
      requires n != target
      requires g[n].Operator? && |cs| == |g[n].args|
      requires forall k :: 0 <= k < |cs| ==> IsCG(g, g[n].args[k]) && RightOperand(nodes, g[n].args[k], cs[k])
      requires IsCG(nodes', r) && (forall k :: 0 <= k < |cs| ==> IsCG(nodes', cs[k]))
      requires ComputesAll(nodes', f, |nodes|, g[n].op, r, cs)
      ensures Right(nodes', n, r)
    {
      forall w: World | Safe(w)
        ensures CGValue(nodes', w, r) == Value(g, Target(w), n)
      {
        OperandsValue(nodes, nodes', n, cs, w, |cs|);
        assert cs[..|cs|] == cs && Fits(w, f, |nodes|);
      }
    }

    lemma {:induction false} OperandsValue(nodes: Graph, nodes': Graph, n: nat, cs: seq<CG>, w: World, k: nat)
      requires Valid() && IsGraph(nodes) && IsGraph(nodes') && nodes <= nodes' && n < |g| && Safe(w)
      requires g[n].Operator? && |cs| == |g[n].args|
      requires forall i :: 0 <= i < |cs| ==> IsCG(g, g[n].args[i]) && RightOperand(nodes, g[n].args[i], cs[i])
      requires (forall i :: 0 <= i < |cs| ==> IsCG(nodes', cs[i])) && k <= |cs|
      ensures CGValues(nodes', w, cs[..k]) == Values(g, Target(w), n, k)
      decreases k
    {
      if k > 0 {
        OperandsValue(nodes, nodes', n, cs, w, k - 1);
        assert cs[..k][..k - 1] == cs[..k - 1];
        OperandValue(nodes, nodes', g[n].args[k - 1], cs[k - 1], w);
      }
    }
  }
}
