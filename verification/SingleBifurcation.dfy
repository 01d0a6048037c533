/** Paths from an expression to a target, through the graph of all ways between them. */
module SingleBifurcation {
  import opened OperationGraph
  import opened PathGraph

  ghost predicate IsStep(g: Graph, s: PathNode, next: nat) {
    s.node < |g| && g[s.node].Operator? && 0 <= s.argIndex < |g[s.node].args|
      && g[s.node].args[s.argIndex] == Operation(next)
  }

  ghost predicate IsPath(g: Graph, p: Path) {
    |p| > 0 && (forall i :: 0 <= i < |p| - 1 ==> IsStep(g, p[i], p[i + 1].node)) && p[|p| - 1].node < |g|
  }

  /** From position `from` on, every node of the path leads to the target by one argument only. */
  ghost predicate Single(g: Graph, target: nat, p: Path, from: nat)
    requires IsGraph(g)
  {
    forall i :: from <= i < |p| - 1 ==>
      p[i].node < |g| && p[i].argIndex >= 0 && AllSlots(g, p[i].node, target) == [p[i].argIndex]
  }

  ghost predicate EndsAt(p: Path, target: nat) {
    |p| > 0 && p[|p| - 1].node == target
  }

  /** One path from n to the target, or two that part at their first node. */
  ghost predicate PathsFrom(g: Graph, n: nat, target: nat, paths: seq<Path>)
    requires IsGraph(g)
  {
    && 1 <= |paths| <= 2 && (forall j :: 0 <= j < |paths| ==> IsPath(g, paths[j]) && EndsAt(paths[j], target))
    && (|paths| == 1 ==> paths[0][0].node == n && Single(g, target, paths[0], 0))
    && (|paths| == 2 ==> Parting(g, n, target, paths[0], paths[1]))
  }

  ghost predicate Parting(g: Graph, n: nat, target: nat, p: Path, q: Path)
    requires IsGraph(g) && |p| > 0 && |q| > 0
  {
    && Part(g, target, p[0], q[0]) && Reaches(g, n, p[0].node) && p[0].node != target
    && Single(g, target, p, 1) && Single(g, target, q, 1)
  }

  /** Two steps leave a node by the first two arguments that lead to the target. */
  ghost predicate Part(g: Graph, target: nat, s: PathNode, t: PathNode)
    requires IsGraph(g)
  {
    && s.node == t.node < |g|
    && var slots := AllSlots(g, s.node, target); |slots| >= 2 && s.argIndex == slots[0] && t.argIndex == slots[1]
  }

  lemma {:induction false} RecordedArgument(g: Graph, root: nat, target: nat, graph: Edges, n: nat, k: nat)
    requires IsPathGraph(g, root, target, graph) && n in graph && k in graph[n].arguments
    ensures n < |g| && n != target && g[n].Operator? && k < |g[n].args| && g[n].args[k].Operation?
    ensures g[n].args[k].node in graph && g[n].args[k].node < n && graph[n].arguments == AllSlots(g, n, target)
    ensures HasArg(g, n, g[n].args[k].node) && Reaches(g, n, g[n].args[k].node)
  {
    assert ArgumentRecorded(g, graph, n, k);
    assert HasArg(g, n, g[n].args[k].node);
    ArgIsOlder(g, n, g[n].args[k].node);
    assert Below(g, n, g[n].args[k].node);
  }

  /** A node without arguments in the graph is the target. */
  lemma {:induction false} DeadEnd(g: Graph, root: nat, target: nat, graph: Edges, n: nat)
    requires IsPathGraph(g, root, target, graph) && n in graph && graph[n].arguments == []
    ensures n == target
  {
    forall k: nat | n != target && LeadsTo(g, n, k, target)
      ensures k in AllSlots(g, n, target)
    {}
    if n != target {
      ReachesByArgument(g, n, target);
    }
  }

  /** A path grows at its start. */
  lemma {:induction false} PathBefore(g: Graph, s: PathNode, p: Path)
    requires IsPath(g, p) && IsStep(g, s, p[0].node)
    ensures IsPath(g, [s] + p)
  {
    forall i | 0 <= i < |p|
      ensures IsStep(g, ([s] + p)[i], ([s] + p)[i + 1].node)
    {
      if i > 0 {
        assert IsStep(g, p[i - 1], p[i].node);
      }
    }
  }

  lemma {:induction false} SingleBefore(g: Graph, target: nat, s: PathNode, p: Path)
    requires IsGraph(g) && Single(g, target, p, 0) && |p| > 0
    ensures Single(g, target, [s] + p, 1)
    ensures s.node < |g| && s.argIndex >= 0 && AllSlots(g, s.node, target) == [s.argIndex] ==>
      Single(g, target, [s] + p, 0)
  {
    hide AllSlots;
    forall i | 1 <= i < |p|
      ensures ([s] + p)[i] == p[i - 1]
    {}
  }

  /** `findPathUpTo`. */
  method FindPathUpTo(graph: BidirGraph, node: nat, target: nat, ghost root: nat) returns (paths: seq<Path>)
    requires IsPathGraph(graph.nodes, root, target, graph.graph) && node in graph.graph
    ensures PathsFrom(graph.nodes, node, target, paths) && |paths| > 0
    decreases node
  {
    hide AllSlots, Connected, Below, Walked, PathsFrom;
    ghost var g := graph.nodes;
    var n := node;
    RecordedInGraph(g, root, target, graph.graph, node);
    WalkStarts(g, node, target);
    var path: Path := [];
    while graph.graph[n].arguments != []
      invariant n in graph.graph && n <= node && Reaches(g, node, n)
      invariant Walked(g, node, target, path, n)
      decreases n
    {
      var edges := graph.graph[n];
      var a1Index := edges.arguments[0];
      RecordedArgument(g, root, target, graph.graph, n, a1Index);
      var a1 := graph.nodes[n].args[a1Index].node;
      if |edges.arguments| > 1 {
        paths := FindPathUpTo(graph, a1, target, root);
        if |paths| == 2 {
          PartingBelow(g, node, n, a1, target, paths);
          return;
        }
        var a2Index := edges.arguments[1];
        RecordedArgument(g, root, target, graph.graph, n, a2Index);
        var a2 := graph.nodes[n].args[a2Index].node;
        var paths2 := FindPathUpTo(graph, a2, target, root);
        if |paths2| == 2 {
          PartingBelow(g, node, n, a2, target, paths2);
          return paths2;
        }
        PartingHere(g, node, n, a1Index, a2Index, target, paths, paths2);
        return [[PathNode(n, a1Index)] + paths[0], [PathNode(n, a2Index)] + paths2[0]];
      }
      ReachesTransitive(g, node, n, a1);
      WalkOn(g, node, target, path, n, a1Index);
      path := path + [PathNode(n, a1Index)];
      n := a1;
    }
    DeadEnd(g, root, target, graph.graph, n);
    WalkEnds(g, node, target, path, n);
    paths := [path + [PathNode(n, -1)]];
  }

  lemma {:induction false} RecordedInGraph(g: Graph, root: nat, target: nat, graph: Edges, n: nat)
    requires IsPathGraph(g, root, target, graph) && n in graph
    ensures n < |g| && Reaches(g, n, n)
  {
    hide AllSlots, Connected, Below;
  }

  lemma {:induction false} WalkStarts(g: Graph, node: nat, target: nat)
    requires IsGraph(g) && node < |g|
    ensures Walked(g, node, target, [], node)
  {
    assert [] + [PathNode(node, -1)] == [PathNode(node, -1)];
  }

  /** The path walked so far from `node` leads to n. */
  ghost predicate Walked(g: Graph, node: nat, target: nat, path: Path, n: nat)
    requires IsGraph(g)
  {
    && (if path == [] then n == node else path[0].node == node)
    && Single(g, target, path + [PathNode(n, -1)], 0)
    && IsPath(g, path + [PathNode(n, -1)])
  }

  lemma {:induction false} WalkOn(g: Graph, node: nat, target: nat, path: Path, n: nat, k: nat)
    requires IsGraph(g) && Walked(g, node, target, path, n) && n < |g|
    requires g[n].Operator? && k < |g[n].args| && g[n].args[k].Operation? && g[n].args[k].node < n
    requires AllSlots(g, n, target) == [k]
    ensures Walked(g, node, target, path + [PathNode(n, k)], g[n].args[k].node)
  {
    hide AllSlots;
    var a := g[n].args[k].node;
    var p, p' := path + [PathNode(n, -1)], path + [PathNode(n, k)] + [PathNode(a, -1)];
    forall i | 0 <= i < |p'| - 1
      ensures IsStep(g, p'[i], p'[i + 1].node) && p'[i].node < |g| && p'[i].argIndex >= 0
      ensures AllSlots(g, p'[i].node, target) == [p'[i].argIndex]
    {
      if i < |path| {
        assert p'[i] == p[i] && p'[i + 1].node == p[i + 1].node;
        assert IsStep(g, p[i], p[i + 1].node) && p[i].argIndex >= 0;
        assert AllSlots(g, p[i].node, target) == [p[i].argIndex];
      }
    }
  }

  lemma {:induction false} WalkEnds(g: Graph, node: nat, target: nat, path: Path, n: nat)
    requires IsGraph(g) && Walked(g, node, target, path, n) && n == target
    ensures PathsFrom(g, node, target, [path + [PathNode(n, -1)]])
  {}

  /** Two paths that part below an argument of n part below node. */
  lemma {:induction false} PartingBelow(g: Graph, node: nat, n: nat, a: nat, target: nat, paths: seq<Path>)
    requires IsGraph(g) && Reaches(g, node, n) && n < |g| && HasArg(g, n, a) && Reaches(g, n, a)
    requires PathsFrom(g, a, target, paths) && |paths| == 2
    ensures PathsFrom(g, node, target, paths)
  {
    hide AllSlots, Single;
    ReachesTransitive(g, n, a, paths[0][0].node);
    ReachesTransitive(g, node, n, paths[0][0].node);
  }

  /** The first two recorded arguments of n lead to the target by one path each. */
  lemma {:induction false} PartingHere(g: Graph, node: nat, n: nat, k1: nat, k2: nat, target: nat, paths1: seq<Path>,
                                       paths2: seq<Path>)
    requires IsGraph(g) && Reaches(g, node, n) && n < |g| && n != target && g[n].Operator?
    requires k1 < |g[n].args| && g[n].args[k1].Operation? && PathsFrom(g, g[n].args[k1].node, target, paths1)
    requires |paths1| != 2
    requires k2 < |g[n].args| && g[n].args[k2].Operation? && PathsFrom(g, g[n].args[k2].node, target, paths2)
    requires |paths2| != 2
    requires |AllSlots(g, n, target)| >= 2 && AllSlots(g, n, target)[0] == k1 && AllSlots(g, n, target)[1] == k2
    ensures |paths1| > 0 && |paths2| > 0
    ensures PathsFrom(g, node, target, [[PathNode(n, k1)] + paths1[0], [PathNode(n, k2)] + paths2[0]])
  {
    hide AllSlots, Reaches;
    var s1, s2 := PathNode(n, k1), PathNode(n, k2);
    PathBefore(g, s1, paths1[0]);
    PathBefore(g, s2, paths2[0]);
    SingleBefore(g, target, s1, paths1[0]);
    SingleBefore(g, target, s2, paths2[0]);
  }

  // ---------------------------------------------------------------------------------------------
  // From the expression to the split

  /** Every recorded node but the root is an argument of a recorded node. */
  lemma {:induction false} HasUsage(g: Graph, root: nat, target: nat, graph: Edges, n: nat)
    requires IsPathGraph(g, root, target, graph) && n in graph && n != root
    ensures graph[n].usage != []
  {
    UserOnTheWay(g, root, n);
    var u: nat :| u < |g| && Reaches(g, root, u) && HasArg(g, u, n);
    var k: nat :| k < |g[u].args| && g[u].args[k] == Operation(n);
    ArgIsOlder(g, u, n);
    assert Below(g, u, n);
    ReachesTransitive(g, u, n, target);
    ReachesIsOlder(g, n, target);
    assert LeadsTo(g, u, k, target) && k in AllSlots(g, u, target);
    assert ArgumentRecorded(g, graph, u, k);
  }

  lemma {:induction false} UserOnTheWay(g: Graph, r: nat, n: nat)
    requires IsGraph(g) && r < |g| && Reaches(g, r, n) && n != r
    ensures exists u: nat :: u < |g| && Reaches(g, r, u) && HasArg(g, u, n)
    decreases r
  {
    var a: nat :| a < r && HasArg(g, r, a) && (a == n || Below(g, a, n));
    if a == n {
      assert Reaches(g, r, r);
    } else {
      UserOnTheWay(g, a, n);
      var u: nat :| u < |g| && Reaches(g, a, u) && HasArg(g, u, n);
      assert Reaches(g, r, a);
      ReachesTransitive(g, r, a, u);
    }
  }

  /** The way from the expression down to node n, which `below` continues. */
  ghost predicate LeadsDown(g: Graph, expression: nat, prefix: Path, n: nat) {
    && (if prefix == [] then n == expression else prefix[0].node == expression)
    && IsPath(g, prefix + [PathNode(n, -1)])
  }

  lemma {:induction false} PathJoin(g: Graph, expression: nat, prefix: Path, p: Path)
    requires |p| > 0 && LeadsDown(g, expression, prefix, p[0].node) && IsPath(g, p)
    ensures IsPath(g, prefix + p) && (prefix + p)[0].node == expression
  {
    var whole, front := prefix + p, prefix + [PathNode(p[0].node, -1)];
    forall i | 0 <= i < |whole| - 1
      ensures IsStep(g, whole[i], whole[i + 1].node)
    {
      if i < |prefix| {
        assert IsStep(g, front[i], front[i + 1].node);
        assert whole[i] == front[i] && whole[i + 1].node == front[i + 1].node;
      } else {
        assert IsStep(g, p[i - |prefix|], p[i - |prefix| + 1].node);
      }
    }
  }

  /** The nodes above n, found by following the first user of each node. */
  method FindCommonPath(graph: BidirGraph, expression: nat, target: nat, n0: nat) returns (pathCommon: Path)
    requires IsPathGraph(graph.nodes, expression, target, graph.graph) && n0 in graph.graph && n0 != expression
    ensures pathCommon != [] && LeadsDown(graph.nodes, expression, pathCommon, n0)
  {
    hide AllSlots, Reaches, Below;
    ghost var g := graph.nodes;
    var n := n0;
    pathCommon := [];
    while n != expression
      invariant n in graph.graph && n <= expression && (pathCommon == [] <==> n == n0)
      invariant Upward(g, pathCommon, n, n0)
      decreases expression - n
    {
      HasUsage(g, expression, target, graph.graph, n);
      var u := graph.graph[n].usage[0];
      assert u in graph.graph[n].usage && UsageRecorded(g, graph.graph, n, u);
      StepUp(g, u, n);
      UpwardStep(g, pathCommon, u, n, n0);
      pathCommon := [u] + pathCommon;
      n := u.node;
    }
  }

  lemma {:induction false} StepUp(g: Graph, u: PathNode, n: nat)
    requires IsGraph(g) && u.node < |g| && g[u.node].Operator? && 0 <= u.argIndex < |g[u.node].args|
    requires g[u.node].args[u.argIndex] == Operation(n)
    ensures n < u.node && IsStep(g, u, n)
  {
    assert HasArg(g, u.node, n);
    ArgIsOlder(g, u.node, n);
  }

  ghost predicate Upward(g: Graph, path: Path, n: nat, n0: nat) {
    && (if path == [] then n == n0 else path[0].node == n)
    && IsPath(g, path + [PathNode(n0, -1)])
    && n <= |g| && n0 <= n
  }

  lemma {:induction false} UpwardStep(g: Graph, path: Path, u: PathNode, n: nat, n0: nat)
    requires Upward(g, path, n, n0) && IsStep(g, u, n) && n < u.node
    ensures Upward(g, [u] + path, u.node, n0)
  {
    var p := path + [PathNode(n0, -1)];
    assert p[0].node == n;
    PathBefore(g, u, p);
    assert [u] + p == [u] + path + [PathNode(n0, -1)];
  }

  /** Two paths that are the same up to a node, leave it by different arguments, and never split again. */
  ghost predicate Bifurcation(g: Graph, expression: nat, target: nat, p: Path, q: Path, bifIndex: nat)
    requires IsGraph(g)
  {
    && IsPath(g, p) && IsPath(g, q) && p[0].node == q[0].node == expression && EndsAt(p, target) && EndsAt(q, target)
    && bifIndex < |p| - 1 && bifIndex < |q| - 1 && p[..bifIndex] == q[..bifIndex]
    && Part(g, target, p[bifIndex], q[bifIndex])
    && Single(g, target, p, bifIndex + 1) && Single(g, target, q, bifIndex + 1)
  }

  lemma {:induction false} JoinSingle(g: Graph, target: nat, prefix: Path, p: Path, from: nat)
    requires IsGraph(g) && Single(g, target, p, from)
    ensures Single(g, target, prefix + p, |prefix| + from)
  {
    hide AllSlots;
    forall i | |prefix| + from <= i < |prefix + p|
      ensures (prefix + p)[i] == p[i - |prefix|]
    {}
  }

  lemma {:induction false} JoinBifurcation(g: Graph, expression: nat, target: nat, prefix: Path, p: Path, q: Path)
    requires IsGraph(g) && IsPath(g, p) && IsPath(g, q) && EndsAt(p, target) && EndsAt(q, target)
    requires Parting(g, expression, target, p, q) && LeadsDown(g, expression, prefix, p[0].node)
    ensures Bifurcation(g, expression, target, prefix + p, prefix + q, |prefix|)
  {
    PathJoin(g, expression, prefix, p);
    PathJoin(g, expression, prefix, q);
    JoinSingle(g, target, prefix, p, 1);
    JoinSingle(g, target, prefix, q, 1);
    hide Single;
    assert |p| > 1 by {
      assert p[0].node != target;
    }
    assert |q| > 1 by {
      assert q[0].node != target;
    }
  }

  /** No path if the target is not below the expression, the only path if there is one, or else two that split once. */
  ghost predicate Paths(g: Graph, expression: nat, target: nat, paths: seq<Path>, bifIndex: int)
    requires IsGraph(g)
  {
    && |paths| <= 2 && (paths == [] <==> !Reaches(g, expression, target))
    && (|paths| == 1 ==> OnlyPath(g, expression, target, paths[0]))
    && (|paths| == 2 ==> bifIndex >= 0 && Bifurcation(g, expression, target, paths[0], paths[1], bifIndex))
  }

  ghost predicate OnlyPath(g: Graph, expression: nat, target: nat, p: Path)
    requires IsGraph(g)
  {
    IsPath(g, p) && p[0].node == expression && EndsAt(p, target) && Single(g, target, p, 0)
  }

  /** The nodes between the expression and the split are put before both paths. */
  method AddCommonPath(graph: BidirGraph, expression: nat, target: nat, paths0: seq<Path>)
    returns (paths: seq<Path>, bifIndex: nat)
    requires IsPathGraph(graph.nodes, expression, target, graph.graph)
    requires |paths0| == 2 && PathsFrom(graph.nodes, expression, target, paths0)
    ensures |paths| == 2 && Bifurcation(graph.nodes, expression, target, paths[0], paths[1], bifIndex)
  {
    hide Reaches, AllSlots, Single, Bifurcation;
    ghost var g := graph.nodes;
    var n := paths0[0][0].node;
    PartRecorded(g, expression, target, graph.graph, n);
    var pathCommon: Path := [];
    if n != expression {
      pathCommon := FindCommonPath(graph, expression, target, n);
    } else {
      assert IsPath(g, [] + [PathNode(n, -1)]);
    }
    JoinBifurcation(g, expression, target, pathCommon, paths0[0], paths0[1]);
    paths, bifIndex := [pathCommon + paths0[0], pathCommon + paths0[1]], |pathCommon|;
  }

  /** `findSingleBifurcation`. */
  method FindSingleBifurcation(graph: BidirGraph, expression: nat, target: nat)
    returns (paths: seq<Path>, bifIndex: int)
    requires IsPathGraph(graph.nodes, expression, target, graph.graph)
    ensures Paths(graph.nodes, expression, target, paths, bifIndex)
  {
    ghost var g := graph.nodes;
    bifIndex := -1;
    EndsRecorded(g, expression, target, graph.graph);
    hide Reaches, AllSlots, Single, Parting, Bifurcation;
    if target !in graph.graph {
      return [], -1;
    }
    if graph.graph[target].usage == [] {
      TargetUnused(g, expression, target, graph.graph);
      return [[PathNode(target, -1)]], -1;
    }
    paths := FindPathUpTo(graph, expression, target, expression);
    if |paths| == 2 {
      paths, bifIndex := AddCommonPath(graph, expression, target, paths);
    }
  }

  lemma {:induction false} EndsRecorded(g: Graph, expression: nat, target: nat, graph: Edges)
    requires IsPathGraph(g, expression, target, graph)
    ensures target in graph <==> Reaches(g, expression, target)
    ensures target in graph <==> expression in graph
  {
    assert Reaches(g, expression, expression) && Reaches(g, target, target);
  }

  lemma {:induction false} TargetUnused(g: Graph, expression: nat, target: nat, graph: Edges)
    requires IsPathGraph(g, expression, target, graph) && target in graph && graph[target].usage == []
    ensures target == expression && OnlyPath(g, expression, target, [PathNode(target, -1)])
  {
    if target != expression {
      HasUsage(g, expression, target, graph, target);
    }
  }

  /** The node where the paths part is recorded. */
  lemma {:induction false} PartRecorded(g: Graph, expression: nat, target: nat, graph: Edges, n: nat)
    requires IsPathGraph(g, expression, target, graph) && n < |g| && Reaches(g, expression, n) && n != target
    requires AllSlots(g, n, target) != []
    ensures n in graph
  {
    var k := AllSlots(g, n, target)[0];
    assert LeadsTo(g, n, k, target);
    ReachesByArgument(g, n, target);
  }
}
