/** The part of an operation graph that connects a root with a target. */
module PathGraph {
  import opened OperationGraph

  /** A step of a path: a node, and the argument that leads to the next node. */
  datatype PathNode = PathNode(node: nat, argIndex: int)

  type Path = seq<PathNode>

  ghost predicate Reaches(g: Graph, n: nat, target: nat)
    requires IsGraph(g)
  {
    n == target || (n < |g| && Below(g, n, target))
  }

  lemma {:induction false} BelowKept(g: Graph, g': Graph, n: nat, d: nat)
    requires IsGraph(g) && IsGraph(g') && g <= g' && n < |g|
    ensures Below(g', n, d) <==> Below(g, n, d)
    decreases n
  {
    forall a: nat | a < n
      ensures HasArg(g', n, a) <==> HasArg(g, n, a)
      ensures Below(g', a, d) <==> Below(g, a, d)
    {
      BelowKept(g, g', a, d);
    }
    if Below(g', n, d) {
      var a: nat :| a < n && HasArg(g', n, a) && (a == d || Below(g', a, d));
      assert HasArg(g, n, a);
    }
    if Below(g, n, d) {
      var a: nat :| a < n && HasArg(g, n, a) && (a == d || Below(g, a, d));
      assert HasArg(g', n, a);
    }
  }

  lemma {:induction false} ReachesKept(g: Graph, g': Graph, n: nat, d: nat)
    requires IsGraph(g) && IsGraph(g') && g <= g' && n < |g|
    ensures Reaches(g', n, d) <==> Reaches(g, n, d)
  {
    BelowKept(g, g', n, d);
  }

  /** Argument k of node n is a node that reaches the target. */
  ghost predicate LeadsTo(g: Graph, n: nat, k: int, target: nat)
    requires IsGraph(g) && n < |g|
  {
    g[n].Operator? && 0 <= k < |g[n].args| && g[n].args[k].Operation? && Reaches(g, g[n].args[k].node, target)
  }

  lemma {:induction false} ReachesByArgument(g: Graph, n: nat, target: nat)
    requires IsGraph(g) && n < |g| && n != target
    ensures Reaches(g, n, target) <==> exists k: nat :: LeadsTo(g, n, k, target)
  {
    if Below(g, n, target) {
      var a: nat :| a < n && HasArg(g, n, a) && (a == target || Below(g, a, target));
      var k: nat :| k < |g[n].args| && g[n].args[k] == Operation(a);
      assert LeadsTo(g, n, k, target);
    }
    forall k: nat | LeadsTo(g, n, k, target)
      ensures Below(g, n, target)
    {
      assert HasArg(g, n, g[n].args[k].node);
      ArgIsOlder(g, n, g[n].args[k].node);
    }
  }

  /** The arguments before argument i that lead to the target, in order. */
  ghost function Slots(g: Graph, n: nat, target: nat, i: nat): (r: seq<nat>)
    requires IsGraph(g) && n < |g|
    ensures forall p :: 0 <= p < |r| ==> r[p] < i && LeadsTo(g, n, r[p], target)
    ensures forall p, q :: 0 <= p < q < |r| ==> r[p] < r[q]
    ensures forall k: nat :: k < i && LeadsTo(g, n, k, target) ==> k in r
  {
    if i == 0 then []
    else if LeadsTo(g, n, i - 1, target) then Slots(g, n, target, i - 1) + [i - 1]
    else Slots(g, n, target, i - 1)
  }

  ghost function AllSlots(g: Graph, n: nat, target: nat): seq<nat>
    requires IsGraph(g) && n < |g|
  {
    if g[n].Operator? then Slots(g, n, target, |g[n].args|) else []
  }

  /** Node n is on a way from the root to the target, before its end. */
  ghost predicate OnWay(g: Graph, root: nat, target: nat, n: nat)
    requires IsGraph(g)
  {
    n != target && Reaches(g, root, n) && Reaches(g, n, target)
  }

  /** The arguments of n that lead to the target, but one. */
  ghost function Extra(g: Graph, n: nat, target: nat): nat
    requires IsGraph(g) && n < |g|
  {
    if |AllSlots(g, n, target)| > 0 then |AllSlots(g, n, target)| - 1 else 0
  }

  /** The bifurcations at the nodes below `limit`. */
  ghost function ExtraWays(g: Graph, root: nat, target: nat, limit: nat): nat
    requires IsGraph(g) && limit <= |g|
  {
    if limit == 0 then 0
    else ExtraWays(g, root, target, limit - 1) + if OnWay(g, root, target, limit - 1) then Extra(g, limit - 1, target)
         else 0
  }

  ghost function Bifurcations(g: Graph, root: nat, target: nat): nat
    requires IsGraph(g)
  {
    ExtraWays(g, root, target, |g|)
  }

  // ---------------------------------------------------------------------------------------------
  // The graph that is built

  /** The arguments of a node that lead to the target, and the arguments by which the node is used. */
  datatype PathNodeEdges = PathNodeEdges(arguments: seq<nat>, usage: seq<PathNode>)

  type Edges = map<nat, PathNodeEdges>

  function EdgesOf(graph: Edges, n: nat): PathNodeEdges {
    if n in graph then graph[n] else PathNodeEdges([], [])
  }

  /** Recorded edges are edges of g, and the nodes at both ends know about them. */
  ghost predicate Connected(g: Graph, graph: Edges) {
    && (forall n :: n in graph ==> n < |g|)
    && (forall n, k :: n in graph && k in graph[n].arguments ==> ArgumentRecorded(g, graph, n, k))
    && (forall m, u :: m in graph && u in graph[m].usage ==> UsageRecorded(g, graph, m, u))
  }

  ghost predicate ArgumentRecorded(g: Graph, graph: Edges, n: nat, k: nat) {
    && n in graph && n < |g| && g[n].Operator? && k < |g[n].args| && g[n].args[k].Operation?
    && g[n].args[k].node in graph && PathNode(n, k) in graph[g[n].args[k].node].usage
  }

  ghost predicate UsageRecorded(g: Graph, graph: Edges, m: nat, u: PathNode) {
    && u.node in graph && u.node < |g| && g[u.node].Operator? && 0 <= u.argIndex < |g[u.node].args|
    && u.argIndex in graph[u.node].arguments && g[u.node].args[u.argIndex] == Operation(m)
  }

  /** The graph with one more edge. */
  function WithEdge(graph: Edges, node: nat, argument: nat, aNode: nat): (r: Edges)
    requires node in graph && aNode != node
    ensures r.Keys == graph.Keys + {aNode}
    ensures r[node] == graph[node].(arguments := graph[node].arguments + [argument])
    ensures r[aNode] == EdgesOf(graph, aNode).(usage := EdgesOf(graph, aNode).usage + [PathNode(node, argument)])
    ensures forall n: nat :: n != node && n != aNode ==> EdgesOf(r, n) == EdgesOf(graph, n)
  {
    graph[node := graph[node].(arguments := graph[node].arguments + [argument])]
         [aNode := EdgesOf(graph, aNode).(usage := EdgesOf(graph, aNode).usage + [PathNode(node, argument)])]
  }

  lemma {:induction false} ConnectedNext(g: Graph, graph: Edges, node: nat, argument: nat, aNode: nat)
    requires Connected(g, graph) && node in graph && node < |g| && g[node].Operator? && argument < |g[node].args|
    requires g[node].args[argument] == Operation(aNode) && aNode < node
    ensures Connected(g, WithEdge(graph, node, argument, aNode))
  {
    var graph' := WithEdge(graph, node, argument, aNode);
    forall n, k | n in graph' && k in graph'[n].arguments
      ensures ArgumentRecorded(g, graph', n, k)
    {
      if n == node && k == argument {
        assert graph'[aNode].usage[|EdgesOf(graph, aNode).usage|] == PathNode(n, k);
      } else {
        assert ArgumentRecorded(g, graph, n, k);
      }
    }
    forall m, u | m in graph' && u in graph'[m].usage
      ensures UsageRecorded(g, graph', m, u)
    {
      if m == aNode && u == PathNode(node, argument) {
        assert graph'[node].arguments[|graph[node].arguments|] == argument;
      } else {
        assert UsageRecorded(g, graph, m, u);
      }
    }
  }

  /** What is known about a node below the one being searched. */
  ghost predicate Explored(g: Graph, target: nat, graph: Edges, visited: set<nat>, n: nat)
    requires IsGraph(g) && n < |g|
  {
    if n == target then n !in visited && EdgesOf(graph, n).arguments == []
    else if n in visited then (n in graph <==> Reaches(g, n, target))
      && EdgesOf(graph, n).arguments == AllSlots(g, n, target)
    else n !in graph
  }

  ghost predicate ExploredBelow(g: Graph, target: nat, graph: Edges, visited: set<nat>, limit: nat)
    requires IsGraph(g) && limit <= |g|
  {
    forall n :: 0 <= n < limit ==> Explored(g, target, graph, visited, n)
  }

  /** The nodes from `limit` on are as they were. */
  ghost predicate SameFrom(graph: Edges, graph': Edges, visited: set<nat>, visited': set<nat>, limit: nat) {
    forall n: nat :: n >= limit ==>
      (n in graph <==> n in graph') && (n in graph ==> graph[n] == graph'[n]) && (n in visited <==> n in visited')
  }

  /** The recorded arguments of a node, but one. */
  ghost function ExtraOf(graph: Edges, n: nat): nat {
    if |EdgesOf(graph, n).arguments| > 0 then |EdgesOf(graph, n).arguments| - 1 else 0
  }

  /** The number of additional ways. */
  ghost function ExtraArguments(graph: Edges, n: nat): nat {
    if n == 0 then 0 else ExtraArguments(graph, n - 1) + ExtraOf(graph, n - 1)
  }

  lemma {:induction false} ExtraSame(graph: Edges, graph': Edges, n: nat)
    requires forall m: nat :: m < n ==> |EdgesOf(graph, m).arguments| == |EdgesOf(graph', m).arguments|
    ensures ExtraArguments(graph, n) == ExtraArguments(graph', n)
  {
    if n > 0 {
      ExtraSame(graph, graph', n - 1);
    }
  }

  /** One more argument is recorded for node m. */
  lemma {:induction false} ExtraNext(graph: Edges, graph': Edges, n: nat, m: nat)
    requires m < n && |EdgesOf(graph', m).arguments| == |EdgesOf(graph, m).arguments| + 1
    requires forall i: nat :: i < n && i != m ==> |EdgesOf(graph, i).arguments| == |EdgesOf(graph', i).arguments|
    ensures ExtraArguments(graph', n) == ExtraArguments(graph, n) + if |EdgesOf(graph, m).arguments| > 0 then 1 else 0
  {
    if m == n - 1 {
      ExtraSame(graph, graph', n - 1);
    } else {
      ExtraNext(graph, graph', n - 1, m);
    }
  }

  class BidirGraph {
    const nodes: Graph
    var graph: Edges

    constructor (nodes: Graph)
      ensures this.nodes == nodes && graph == map[]
    {
      this.nodes, graph := nodes, map[];
    }

    /** Records argument number `argument` of a node. */
    method Connect(node: nat, argument: nat)
      requires Connected(nodes, graph) && node in graph && nodes[node].Operator? && argument < |nodes[node].args|
      requires nodes[node].args[argument].Operation? && nodes[node].args[argument].node < node
      modifies this
      ensures Connected(nodes, graph) && graph == WithEdge(old(graph), node, argument, nodes[node].args[argument].node)
    {
      var aNode := nodes[node].args[argument].node;
      ConnectedNext(nodes, graph, node, argument, aNode);
      hide Connected;
      graph := graph[node := graph[node].(arguments := graph[node].arguments + [argument])];
      graph := graph[aNode := EdgesOf(graph, aNode).(usage := EdgesOf(graph, aNode).usage +
        [PathNode(node, argument)])];
    }
  }

  /** What lies below a searched node is explored; the rest is as it was. */
  lemma {:induction false} ExploredKept(g: Graph, target: nat, graph: Edges, visited: set<nat>, graph': Edges,
                                        visited': set<nat>, a: nat, b: nat)
    requires IsGraph(g) && a <= b <= |g| && ExploredBelow(g, target, graph, visited, b)
    requires SameFrom(graph, graph', visited, visited', a) && ExploredBelow(g, target, graph', visited', a)
    ensures ExploredBelow(g, target, graph', visited', b)
  {
    hide Reaches, AllSlots;
    forall n: nat | n < b
      ensures Explored(g, target, graph', visited', n)
    {
      if n >= a {
        assert Explored(g, target, graph, visited, n);
      }
    }
  }

  lemma {:induction false} SameFromAgain(a: Edges, b: Edges, c: Edges, va: set<nat>, vb: set<nat>, vc: set<nat>,
                                         limit: nat, limit': nat)
    requires SameFrom(a, b, va, vb, limit) && SameFrom(b, c, vb, vc, limit') && limit' <= limit
    ensures SameFrom(a, c, va, vc, limit)
  {}

  /** The edge from the node being searched to an explored node. */
  lemma {:induction false} ExploredEdge(g: Graph, target: nat, graph: Edges, visited: set<nat>, node: nat,
                                        argument: nat, aNode: nat)
    requires IsGraph(g) && node <= |g| && node in graph && aNode < node
    requires ExploredBelow(g, target, graph, visited, node) && Reaches(g, aNode, target)
    requires aNode == target || aNode in visited
    ensures ExploredBelow(g, target, WithEdge(graph, node, argument, aNode), visited, node)
  {
    hide Reaches, AllSlots;
    var graph' := WithEdge(graph, node, argument, aNode);
    forall n: nat | n < node
      ensures Explored(g, target, graph', visited, n)
    {
      assert Explored(g, target, graph, visited, n);
      assert EdgesOf(graph', n).arguments == EdgesOf(graph, n).arguments;
    }
  }

  /** All arguments of a node were searched. */
  lemma {:induction false} ExploredNode(g: Graph, target: nat, graph: Edges, visited: set<nat>, node: nat)
    requires IsGraph(g) && node < |g| && ExploredBelow(g, target, graph, visited, node) && node in visited
    requires node != target
    requires EdgesOf(graph, node).arguments == AllSlots(g, node, target)
    requires node in graph <==> AllSlots(g, node, target) != []
    ensures ExploredBelow(g, target, graph, visited, node + 1)
    ensures Reaches(g, node, target) <==> AllSlots(g, node, target) != []
  {
    ReachesByArgument(g, node, target);
    hide Reaches;
    if AllSlots(g, node, target) != [] {
      assert LeadsTo(g, node, AllSlots(g, node, target)[0], target);
    }
    forall k: nat | LeadsTo(g, node, k, target)
      ensures AllSlots(g, node, target) != []
    {
      assert k in Slots(g, node, target, |g[node].args|);
    }
    assert Explored(g, target, graph, visited, node);
  }

  /** A node that no edge mentions may go. */
  lemma {:induction false} ConnectedErase(g: Graph, graph: Edges, node: nat)
    requires Connected(g, graph) && node in graph && graph[node] == PathNodeEdges([], [])
    ensures Connected(g, graph - {node})
  {
    var graph' := graph - {node};
    forall n, k | n in graph' && k in graph'[n].arguments
      ensures ArgumentRecorded(g, graph', n, k)
    {
      assert ArgumentRecorded(g, graph, n, k);
    }
    forall m, u | m in graph' && u in graph'[m].usage
      ensures UsageRecorded(g, graph', m, u)
    {
      assert UsageRecorded(g, graph, m, u);
    }
  }

  lemma {:induction false} ConnectedEnter(g: Graph, graph: Edges, node: nat)
    requires Connected(g, graph) && node !in graph && node < |g|
    ensures Connected(g, graph[node := PathNodeEdges([], [])])
  {
    var graph' := graph[node := PathNodeEdges([], [])];
    forall n, k | n in graph' && k in graph'[n].arguments
      ensures ArgumentRecorded(g, graph', n, k)
    {
      assert ArgumentRecorded(g, graph, n, k);
    }
    forall m, u | m in graph' && u in graph'[m].usage
      ensures UsageRecorded(g, graph', m, u)
    {
      assert UsageRecorded(g, graph, m, u);
    }
  }

  /** Nodes that the search marks can be reached from its root. */
  ghost predicate MarkedFrom(g: Graph, root: nat, visited: set<nat>, visited': set<nat>)
    requires IsGraph(g)
  {
    visited <= visited' && forall n :: n in visited' && n !in visited ==> Reaches(g, root, n)
  }

  lemma {:induction false} MarkedByChild(g: Graph, root: nat, child: nat, v0: set<nat>, v1: set<nat>, v2: set<nat>)
    requires IsGraph(g) && root < |g| && HasArg(g, root, child) && MarkedFrom(g, root, v0, v1)
    requires MarkedFrom(g, child, v1, v2)
    ensures MarkedFrom(g, root, v0, v2)
  {
    forall n | n in v2 && n !in v1
      ensures Reaches(g, root, n)
    {
      ArgIsOlder(g, root, child);
      assert child == n || Below(g, child, n);
    }
  }

  /** The state of a search: graph, marks, and the number of bifurcations. */
  ghost predicate Searched(g: Graph, target: nat, graph: Edges, visited: set<nat>, bifurcations: nat, max: nat,
                           limit: nat)
    requires IsGraph(g) && limit <= |g|
  {
    && Connected(g, graph) && TargetUsed(graph, target)
    && (bifurcations < max ==> ExploredBelow(g, target, graph, visited, limit))
  }

  /** The target enters the graph only as an argument. */
  ghost predicate TargetUsed(graph: Edges, target: nat) {
    target in graph ==> graph[target].usage != []
  }

  /** Nodes in the graph lead to the target, and no arguments are recorded but such as lead there. */
  ghost predicate Genuine(g: Graph, target: nat, graph: Edges, visited: set<nat>, limit: nat)
    requires IsGraph(g) && limit <= |g|
  {
    forall n: nat :: n < limit && n in graph ==> GenuineNode(g, target, graph, visited, n)
  }

  ghost predicate GenuineNode(g: Graph, target: nat, graph: Edges, visited: set<nat>, n: nat)
    requires IsGraph(g) && n < |g| && n in graph
  {
    if n == target then graph[n].arguments == []
    else n in visited && Reaches(g, n, target) && |graph[n].arguments| <= |AllSlots(g, n, target)|
  }

  lemma {:induction false} GenuineKept(g: Graph, target: nat, graph: Edges, visited: set<nat>, graph': Edges,
                                       visited': set<nat>, a: nat, b: nat)
    requires IsGraph(g) && a <= b <= |g| && Genuine(g, target, graph, visited, b)
    requires Genuine(g, target, graph', visited', a)
    requires SameFrom(graph, graph', visited, visited', a)
    ensures Genuine(g, target, graph', visited', b)
  {
    hide Reaches, AllSlots;
    forall n: nat | n < b && n in graph'
      ensures GenuineNode(g, target, graph', visited', n)
    {
      if n >= a {
        assert GenuineNode(g, target, graph, visited, n);
      }
    }
  }

  /** The recorded arguments of the node that is searched. */
  ghost predicate GenuineRoot(g: Graph, target: nat, graph: Edges, root: nat, i: nat)
    requires IsGraph(g) && root < |g|
  {
    root in graph && |graph[root].arguments| <= |Slots(g, root, target, i)|
  }

  /** The edge to the node of argument i, which leads to the target, is recorded. */
  lemma {:induction false} GenuineConnect(g: Graph, target: nat, graph: Edges, visited: set<nat>, root: nat, i: nat,
                                          aNode: nat)
    requires IsGraph(g) && root < |g| && g[root].Operator? && i < |g[root].args| && g[root].args[i] == Operation(aNode)
    requires aNode < root
    requires Genuine(g, target, graph, visited, root) && GenuineRoot(g, target, graph, root, i)
    requires Reaches(g, aNode, target)
    requires aNode == target || aNode in graph
    ensures root in graph && Genuine(g, target, WithEdge(graph, root, i, aNode), visited, root)
    ensures GenuineRoot(g, target, WithEdge(graph, root, i, aNode), root, i + 1)
  {
    var graph' := WithEdge(graph, root, i, aNode);
    assert LeadsTo(g, root, i, target);
    hide Reaches, AllSlots;
    forall n: nat | n < root && n in graph'
      ensures GenuineNode(g, target, graph', visited, n)
    {
      assert n in graph ==> GenuineNode(g, target, graph, visited, n);
      assert EdgesOf(graph', n).arguments == EdgesOf(graph, n).arguments;
    }
  }

  lemma {:induction false} GenuineMore(g: Graph, target: nat, graph: Edges, root: nat, i: nat)
    requires IsGraph(g) && root < |g| && GenuineRoot(g, target, graph, root, i)
    ensures GenuineRoot(g, target, graph, root, i + 1)
  {
    hide LeadsTo;
  }

  /** All arguments were searched: the node stays if one was recorded. */
  lemma {:induction false} GenuineEnd(g: Graph, target: nat, graph: Edges, visited: set<nat>, root: nat)
    requires IsGraph(g) && root < |g| && root != target && root in visited && Genuine(g, target, graph, visited, root)
    requires GenuineRoot(g, target, graph, root, if g[root].Operator? then |g[root].args| else 0)
    ensures graph[root].arguments != [] ==> Reaches(g, root, target) && Genuine(g, target, graph, visited, root + 1)
    ensures graph[root].arguments == [] ==> Genuine(g, target, graph - {root}, visited, root + 1)
  {
    hide Reaches, LeadsTo;
    if graph[root].arguments != [] {
      SlotsReach(g, root, target);
      assert GenuineNode(g, target, graph, visited, root);
      hide GenuineNode;
    } else {
      hide AllSlots;
      forall n: nat | n < root && n in graph
        ensures GenuineNode(g, target, graph - {root}, visited, n)
      {
        assert GenuineNode(g, target, graph, visited, n);
      }
    }
  }

  lemma {:induction false} SlotsReach(g: Graph, n: nat, target: nat)
    requires IsGraph(g) && n < |g| && n != target && AllSlots(g, n, target) != []
    ensures Reaches(g, n, target)
  {
    ReachesByArgument(g, n, target);
    hide Reaches;
    var k := AllSlots(g, n, target)[0];
    assert LeadsTo(g, n, k, target);
  }

  lemma {:induction false} GenuineStart(g: Graph, target: nat, graph: Edges, visited: set<nat>, root: nat)
    requires IsGraph(g) && root < |g| && root !in graph && Genuine(g, target, graph, visited, root + 1)
    ensures Genuine(g, target, graph[root := PathNodeEdges([], [])], visited + {root}, root)
    ensures GenuineRoot(g, target, graph[root := PathNodeEdges([], [])], root, 0)
  {
    hide Reaches, AllSlots;
    forall n: nat | n < root && n in graph
      ensures GenuineNode(g, target, graph[root := PathNodeEdges([], [])], visited + {root}, n)
    {
      assert GenuineNode(g, target, graph, visited, n);
    }
  }

  /** Below a node, before its argument is searched. */
  lemma {:induction false} GenuineBelow(g: Graph, target: nat, graph: Edges, visited: set<nat>, a: nat, b: nat)
    requires IsGraph(g) && a <= b <= |g| && Genuine(g, target, graph, visited, b)
    ensures Genuine(g, target, graph, visited, a)
  {
    hide GenuineNode;
  }

  /**
    `findPathGraph`: returns whether the root reaches the target, and records in the graph how it does.
    Once the allowed number of bifurcations is reached, what is recorded is real but incomplete.
   */
  method FindPathGraph(foundGraph: BidirGraph, root: nat, target: nat, visited0: set<nat>, bifurcations0: nat, max: nat)
    returns (found: bool, visited: set<nat>, bifurcations: nat)
    requires IsGraph(foundGraph.nodes) && root < |foundGraph.nodes|
    requires Searched(foundGraph.nodes, target, foundGraph.graph, visited0, bifurcations0, max, root + 1)
    requires Genuine(foundGraph.nodes, target, foundGraph.graph, visited0, root + 1)
    modifies foundGraph
    ensures Searched(foundGraph.nodes, target, foundGraph.graph, visited, bifurcations, max, root + 1)
    ensures Genuine(foundGraph.nodes, target, foundGraph.graph, visited, root + 1)
    ensures found ==> Reaches(foundGraph.nodes, root, target) && (root == target || root in foundGraph.graph)
    ensures bifurcations < max ==>
      (found <==> Reaches(foundGraph.nodes, root, target)) && (root == target || root in visited)
    ensures SameFrom(old(foundGraph.graph), foundGraph.graph, visited0, visited, root + 1)
    ensures MarkedFrom(foundGraph.nodes, root, visited0, visited)
    ensures bifurcations >= bifurcations0
    ensures bifurcations - bifurcations0 ==
      ExtraArguments(foundGraph.graph, |foundGraph.nodes|) - ExtraArguments(old(foundGraph.graph), |foundGraph.nodes|)
    decreases root, 2
  {
    visited, bifurcations := visited0, bifurcations0;
    if bifurcations >= max {
      return false, visited, bifurcations;
    }
    assert Explored(foundGraph.nodes, target, foundGraph.graph, visited, root);
    if root == target {
      return true, visited, bifurcations;
    }
    if root in foundGraph.graph {
      assert GenuineNode(foundGraph.nodes, target, foundGraph.graph, visited, root);
      return true, visited, bifurcations;
    }
    if root in visited {
      return false, visited, bifurcations;
    }
    found, visited, bifurcations := SearchArguments(foundGraph, root, target, visited0, bifurcations0, max);
  }

  /** While the arguments of `root` are searched; those before i are done. */
  ghost predicate Searching(g: Graph, target: nat, graph: Edges, visited: set<nat>, bifurcations: nat, max: nat,
                            root: nat, i: nat, found: bool)
    requires IsGraph(g) && root < |g|
  {
    && Connected(g, graph) && TargetUsed(graph, target) && root in graph && graph[root].usage == [] && root in visited
    && root != target
    && (found <==> graph[root].arguments != [])
    && (bifurcations < max ==>
         ExploredBelow(g, target, graph, visited, root) && graph[root].arguments == Slots(g, root, target, i))
  }

  lemma {:induction false} SearchEnd(g: Graph, target: nat, graph: Edges, visited: set<nat>, bifurcations: nat,
                                     max: nat, root: nat, found: bool)
    requires IsGraph(g) && root < |g|
    requires Searching(g, target, graph, visited, bifurcations, max, root,
                       if g[root].Operator? then |g[root].args| else 0, found)
    ensures Searched(g, target, if found then graph else graph - {root}, visited, bifurcations, max, root + 1)
    ensures bifurcations < max ==> (found <==> Reaches(g, root, target))
    ensures root in graph && (found <==> graph[root].arguments != [])
  {
    hide Reaches, LeadsTo;
    var graph' := if found then graph else graph - {root};
    if !found {
      ConnectedErase(g, graph, root);
    }
    if bifurcations < max {
      assert ExploredBelow(g, target, graph', visited, root) by {
        forall n: nat | n < root
          ensures Explored(g, target, graph', visited, n)
        {
          assert Explored(g, target, graph, visited, n);
        }
      }
      ExploredNode(g, target, graph', visited, root);
    }
  }

  /** The node is marked and enters the graph. */
  lemma {:induction false} SearchStart(g: Graph, target: nat, graph: Edges, visited: set<nat>, bifurcations: nat,
                                       max: nat, root: nat)
    requires IsGraph(g) && root < |g| && root != target && root !in graph
    requires Searched(g, target, graph, visited, bifurcations, max, root + 1)
    ensures var graph' := graph[root := PathNodeEdges([], [])];
      && Searching(g, target, graph', visited + {root}, bifurcations, max, root, 0, false)
      && SameFrom(graph, graph', visited, visited + {root}, root + 1) && MarkedFrom(g, root, visited, visited + {root})
      && ExtraArguments(graph', |g|) == ExtraArguments(graph, |g|)
  {
    var graph' := graph[root := PathNodeEdges([], [])];
    ConnectedEnter(g, graph, root);
    ExtraSame(graph, graph', |g|);
    assert Reaches(g, root, root);
    hide Connected, Reaches, AllSlots;
    if bifurcations < max {
      forall n: nat | n < root
        ensures Explored(g, target, graph', visited + {root}, n)
      {
        assert Explored(g, target, graph, visited, n);
      }
    }
  }

  lemma {:induction false} SearchSkip(g: Graph, target: nat, graph: Edges, visited: set<nat>, bifurcations: nat,
                                      max: nat, root: nat, i: nat, found: bool)
    requires IsGraph(g) && root < |g| && Searching(g, target, graph, visited, bifurcations, max, root, i, found)
    requires g[root].Operator? && i < |g[root].args| && !g[root].args[i].Operation?
    ensures Searching(g, target, graph, visited, bifurcations, max, root, i + 1, found)
  {
    hide Connected, ExploredBelow, Reaches;
  }

  lemma {:induction false} MarkedAgain(g: Graph, root: nat, v0: set<nat>, v1: set<nat>, v2: set<nat>)
    requires IsGraph(g) && MarkedFrom(g, root, v0, v1) && MarkedFrom(g, root, v1, v2)
    ensures MarkedFrom(g, root, v0, v2)
  {
    hide Reaches;
  }

  lemma {:induction false} SearchErase(graph0: Edges, graph: Edges, visited0: set<nat>, visited: set<nat>, root: nat,
                                       n: nat)
    requires root in graph && graph[root].arguments == [] && SameFrom(graph0, graph, visited0, visited, root + 1)
    ensures SameFrom(graph0, graph - {root}, visited0, visited, root + 1)
    ensures ExtraArguments(graph - {root}, n) == ExtraArguments(graph, n)
  {
    ExtraSame(graph, graph - {root}, n);
  }

  /** Before the node of argument i is searched. */
  lemma {:induction false} SearchChild(g: Graph, target: nat, graph: Edges, visited: set<nat>, bifurcations: nat,
                                       max: nat, root: nat, i: nat, found: bool, aNode: nat)
    requires IsGraph(g) && root < |g| && aNode < root
    requires Searching(g, target, graph, visited, bifurcations, max, root, i, found)
    ensures Searched(g, target, graph, visited, bifurcations, max, aNode + 1)
    ensures MarkedFrom(g, root, visited, visited)
  {}

  /** After the node of argument i was searched. */
  lemma {:induction false} SearchResume(g: Graph, target: nat, graph0: Edges, graph: Edges, visited0: set<nat>,
                                        visited: set<nat>,
                                        bifurcations0: nat, bifurcations: nat, max: nat, root: nat, i: nat,
                                        found: bool, aNode: nat, inside: bool)
    requires IsGraph(g) && root < |g| && aNode < root
    requires Searching(g, target, graph0, visited0, bifurcations0, max, root, i, found)
    requires g[root].Operator? && i < |g[root].args| && g[root].args[i] == Operation(aNode)
    requires Searched(g, target, graph, visited, bifurcations, max, aNode + 1) && bifurcations0 <= bifurcations
    requires SameFrom(graph0, graph, visited0, visited, aNode + 1)
    requires bifurcations < max ==> (inside <==> Reaches(g, aNode, target))
    ensures SameFrom(graph0, graph, visited0, visited, root + 1)
    ensures root in graph && Connected(g, graph)
    ensures inside ==> Searching(g, target, graph, visited, bifurcations, max, root, i, found)
    ensures !inside ==> Searching(g, target, graph, visited, bifurcations, max, root, i + 1, found)
  {
    hide Reaches, Connected;
    if bifurcations < max {
      ExploredKept(g, target, graph0, visited0, graph, visited, aNode + 1, root);
    }
    hide Explored, ExploredBelow;
  }

  /** The edge to the node of argument i is recorded. */
  lemma {:induction false} SearchConnect(g: Graph, target: nat, graph: Edges, visited: set<nat>, bifurcations: nat,
                                         max: nat, root: nat, i: nat, found: bool, aNode: nat)
    requires IsGraph(g) && root < |g| && aNode < root
    requires Searching(g, target, graph, visited, bifurcations, max, root, i, found)
    requires g[root].Operator? && i < |g[root].args| && g[root].args[i] == Operation(aNode)
    requires bifurcations < max ==> Reaches(g, aNode, target) && (aNode == target || aNode in visited)
    ensures root in graph && MarkedFrom(g, root, visited, visited)
    ensures Searching(g, target, WithEdge(graph, root, i, aNode), visited, bifurcations + if found then 1 else 0, max,
                      root, i + 1, true)
    ensures SameFrom(graph, WithEdge(graph, root, i, aNode), visited, visited, root + 1)
    ensures ExtraArguments(WithEdge(graph, root, i, aNode), |g|) == ExtraArguments(graph, |g|) + if found then 1 else 0
  {
    var graph' := WithEdge(graph, root, i, aNode);
    ConnectedNext(g, graph, root, i, aNode);
    ExtraNext(graph, graph', |g|, root);
    if bifurcations < max {
      ExploredEdge(g, target, graph, visited, root, i, aNode);
      assert LeadsTo(g, root, i, target);
    }
    hide Connected, Explored, ExploredBelow, Reaches;
  }

  method SearchArguments(foundGraph: BidirGraph, root: nat, target: nat, visited0: set<nat>, bifurcations0: nat,
                         max: nat)
    returns (found: bool, visited: set<nat>, bifurcations: nat)
    requires IsGraph(foundGraph.nodes) && root < |foundGraph.nodes| && root != target && root !in foundGraph.graph
    requires Searched(foundGraph.nodes, target, foundGraph.graph, visited0, bifurcations0, max, root + 1)
    requires Genuine(foundGraph.nodes, target, foundGraph.graph, visited0, root + 1)
    modifies foundGraph
    ensures Searched(foundGraph.nodes, target, foundGraph.graph, visited, bifurcations, max, root + 1)
    ensures Genuine(foundGraph.nodes, target, foundGraph.graph, visited, root + 1)
    ensures found ==> Reaches(foundGraph.nodes, root, target) && (root == target || root in foundGraph.graph)
    ensures bifurcations < max ==> (found <==> Reaches(foundGraph.nodes, root, target)) && root in visited
    ensures SameFrom(old(foundGraph.graph), foundGraph.graph, visited0, visited, root + 1)
    ensures MarkedFrom(foundGraph.nodes, root, visited0, visited)
    ensures bifurcations >= bifurcations0
    ensures bifurcations - bifurcations0 ==
      ExtraArguments(foundGraph.graph, |foundGraph.nodes|) - ExtraArguments(old(foundGraph.graph), |foundGraph.nodes|)
    decreases root, 1
  {
    hide *;
    ghost var g := foundGraph.nodes;
    ghost var graph0 := foundGraph.graph;
    SearchStart(g, target, graph0, visited0, bifurcations0, max, root);
    GenuineStart(g, target, graph0, visited0, root);
    visited, bifurcations, found := visited0 + {root}, bifurcations0, false;
    foundGraph.graph := foundGraph.graph[root := PathNodeEdges([], [])];
    if foundGraph.nodes[root].Operator? {
      var args := foundGraph.nodes[root].args;
      for i := 0 to |args|
        invariant Searching(g, target, foundGraph.graph, visited, bifurcations, max, root, i, found) && root in visited
        invariant Genuine(g, target, foundGraph.graph, visited, root)
        invariant GenuineRoot(g, target, foundGraph.graph, root, i)
        invariant SameFrom(graph0, foundGraph.graph, visited0, visited, root + 1)
        invariant MarkedFrom(g, root, visited0, visited)
        invariant bifurcations >= bifurcations0
        invariant bifurcations - bifurcations0 == ExtraArguments(foundGraph.graph, |g|) - ExtraArguments(graph0, |g|)
      {
        if args[i].Operation? {
          ghost var graph1, visited1 := foundGraph.graph, visited;
          found, visited, bifurcations := SearchArgument(foundGraph, root, i, target, visited, bifurcations, max,
                                                         found);
          SameFromAgain(graph0, graph1, foundGraph.graph, visited0, visited1, visited, root + 1, root + 1);
          MarkedAgain(g, root, visited0, visited1, visited);
        } else {
          SearchSkip(g, target, foundGraph.graph, visited, bifurcations, max, root, i, found);
          GenuineMore(g, target, foundGraph.graph, root, i);
        }
      }
    }
    SearchEnd(g, target, foundGraph.graph, visited, bifurcations, max, root, found);
    GenuineEnd(g, target, foundGraph.graph, visited, root);
    if !found {
      SearchErase(graph0, foundGraph.graph, visited0, visited, root, |g|);
      foundGraph.graph := foundGraph.graph - {root};
    }
  }

  lemma {:induction false} ArgumentIsOlder(g: Graph, n: nat, k: nat)
    requires IsGraph(g) && n < |g| && g[n].Operator? && k < |g[n].args| && g[n].args[k].Operation?
    ensures g[n].args[k].node < n && HasArg(g, n, g[n].args[k].node)
  {
    ArgIsOlder(g, n, g[n].args[k].node);
  }

  /** One argument of the node that is searched. */
  method SearchArgument(foundGraph: BidirGraph, root: nat, i: nat, target: nat, visited0: set<nat>, bifurcations0: nat,
                        max: nat, found0: bool)
    returns (found: bool, visited: set<nat>, bifurcations: nat)
    requires IsGraph(foundGraph.nodes) && root < |foundGraph.nodes| && foundGraph.nodes[root].Operator?
    requires i < |foundGraph.nodes[root].args| && foundGraph.nodes[root].args[i].Operation?
    requires Searching(foundGraph.nodes, target, foundGraph.graph, visited0, bifurcations0, max, root, i, found0)
    requires Genuine(foundGraph.nodes, target, foundGraph.graph, visited0, root)
    requires GenuineRoot(foundGraph.nodes, target, foundGraph.graph, root, i)
    modifies foundGraph
    ensures Searching(foundGraph.nodes, target, foundGraph.graph, visited, bifurcations, max, root, i + 1, found)
    ensures visited0 <= visited
    ensures Genuine(foundGraph.nodes, target, foundGraph.graph, visited, root)
    ensures GenuineRoot(foundGraph.nodes, target, foundGraph.graph, root, i + 1)
    ensures SameFrom(old(foundGraph.graph), foundGraph.graph, visited0, visited, root + 1)
    ensures MarkedFrom(foundGraph.nodes, root, visited0, visited)
    ensures bifurcations >= bifurcations0
    ensures bifurcations - bifurcations0 ==
      ExtraArguments(foundGraph.graph, |foundGraph.nodes|) - ExtraArguments(old(foundGraph.graph), |foundGraph.nodes|)
    decreases root, 0
  {
    hide *;
    ghost var g, graph0 := foundGraph.nodes, foundGraph.graph;
    var aNode := foundGraph.nodes[root].args[i].node;
    ArgumentIsOlder(g, root, i);
    SearchChild(g, target, graph0, visited0, bifurcations0, max, root, i, found0, aNode);
    GenuineBelow(g, target, graph0, visited0, aNode + 1, root);
    var inside;
    inside, visited, bifurcations := FindPathGraph(foundGraph, aNode, target, visited0, bifurcations0, max);
    ghost var graph1 := foundGraph.graph;
    SearchResume(g, target, graph0, graph1, visited0, visited, bifurcations0, bifurcations, max, root, i, found0, aNode,
                 inside);
    MarkedByChild(g, root, aNode, visited0, visited0, visited);
    GenuineKept(g, target, graph0, visited0, graph1, visited, aNode + 1, root);
    GenuineRootKept(g, target, graph0, visited0, graph1, visited, aNode + 1, root, i);
    found := found0;
    if inside {
      GenuineConnect(g, target, graph1, visited, root, i, aNode);
      foundGraph.Connect(root, i);
      SearchConnect(g, target, graph1, visited, bifurcations, max, root, i, found0, aNode);
      SameFromAgain(graph0, graph1, foundGraph.graph, visited0, visited, visited, root + 1, root + 1);
      if found {
        bifurcations := bifurcations + 1;
      } else {
        found := true;
      }
    } else {
      GenuineMore(g, target, graph1, root, i);
    }
  }

  lemma {:induction false} GenuineRootKept(g: Graph, target: nat, graph: Edges, visited: set<nat>, graph': Edges,
                                           visited': set<nat>, a: nat, root: nat, i: nat)
    requires IsGraph(g) && a <= root < |g| && SameFrom(graph, graph', visited, visited', a)
    requires GenuineRoot(g, target, graph, root, i)
    ensures GenuineRoot(g, target, graph', root, i)
  {}

  // ---------------------------------------------------------------------------------------------
  // The finished graph

  /** The graph holds exactly the nodes on the ways from the root to the target, with all arguments on such ways. */
  ghost predicate IsPathGraph(g: Graph, root: nat, target: nat, graph: Edges) {
    && IsGraph(g) && root < |g| && Connected(g, graph)
    && (forall n :: n in graph <==> Reaches(g, root, n) && Reaches(g, n, target))
    && (forall n :: n in graph ==>
          n <= root && graph[n].arguments == if n == target then [] else AllSlots(g, n, target))
  }

  lemma {:induction false} ReachesIsOlder(g: Graph, n: nat, d: nat)
    requires IsGraph(g) && Reaches(g, n, d)
    ensures d <= n
  {
    if n != d {
      BelowIsOlder(g, n, d);
    }
  }

  lemma {:induction false} ReachesTransitive(g: Graph, a: nat, b: nat, c: nat)
    requires IsGraph(g) && Reaches(g, a, b) && Reaches(g, b, c)
    ensures Reaches(g, a, c)
    decreases a
  {
    if a != b {
      var d: nat :| d < a && HasArg(g, a, d) && (d == b || Below(g, d, b));
      ReachesTransitive(g, d, b, c);
    }
  }

  /** From a recorded node, everything on a way to the target is recorded. */
  lemma {:induction false} ReachedIsRecorded(g: Graph, target: nat, graph: Edges, r: nat, n: nat)
    requires IsGraph(g) && Connected(g, graph) && r in graph && Reaches(g, r, n) && Reaches(g, n, target)
    requires forall m :: m in graph && m <= r && m != target ==> graph[m].arguments == AllSlots(g, m, target)
    ensures n in graph
    decreases r
  {
    if r != n {
      var a: nat :| a < r && HasArg(g, r, a) && (a == n || Below(g, a, n));
      var k: nat :| k < |g[r].args| && g[r].args[k] == Operation(a);
      ReachesTransitive(g, a, n, target);
      ReachesIsOlder(g, a, target);
      assert LeadsTo(g, r, k, target) && k in AllSlots(g, r, target);
      assert ArgumentRecorded(g, graph, r, k);
      ReachedIsRecorded(g, target, graph, a, n);
    }
  }

  /** A search that started with nothing, within its budget, leaves the path graph. */
  lemma {:induction false} SearchIsExact(g: Graph, root: nat, target: nat, graph: Edges, visited: set<nat>, found: bool)
    requires IsGraph(g) && root < |g| && root != target
    requires Connected(g, graph) && TargetUsed(graph, target) && ExploredBelow(g, target, graph, visited, root + 1)
    requires found <==> Reaches(g, root, target)
    requires root in visited && MarkedFrom(g, root, {}, visited) && SameFrom(map[], graph, {}, visited, root + 1)
    ensures IsPathGraph(g, root, target, graph)
  {
    forall n | n in graph
      ensures n <= root && Reaches(g, root, n) && Reaches(g, n, target)
      ensures graph[n].arguments == if n == target then [] else AllSlots(g, n, target)
    {
      assert n <= root && Explored(g, target, graph, visited, n);
      if n == target {
        var u := graph[n].usage[0];
        assert u in graph[n].usage && UsageRecorded(g, graph, n, u);
        assert HasArg(g, u.node, n);
        ArgIsOlder(g, u.node, n);
        assert u.node <= root && Explored(g, target, graph, visited, u.node);
        assert Reaches(g, u.node, n);
        ReachesTransitive(g, root, u.node, n);
      }
    }
    assert Explored(g, target, graph, visited, root);
    forall n | Reaches(g, root, n) && Reaches(g, n, target)
      ensures n in graph
    {
      ReachesTransitive(g, root, n, target);
      ReachedIsRecorded(g, target, graph, root, n);
    }
  }

  lemma {:induction false} RootIsTarget(g: Graph, root: nat)
    requires IsGraph(g) && root < |g|
    ensures IsPathGraph(g, root, root, map[root := PathNodeEdges([], [])])
  {
    forall n | Reaches(g, root, n) && Reaches(g, n, root)
      ensures n == root
    {
      ReachesIsOlder(g, root, n);
      ReachesIsOlder(g, n, root);
    }
  }

  /** The count of the search is the number of bifurcations. */
  lemma {:induction false} SearchCounts(g: Graph, root: nat, target: nat, graph: Edges, limit: nat)
    requires IsPathGraph(g, root, target, graph) && limit <= |g|
    ensures ExtraArguments(graph, limit) == ExtraWays(g, root, target, limit)
  {
    hide Reaches, AllSlots, Connected;
    if limit > 0 {
      SearchCounts(g, root, target, graph, limit - 1);
    }
  }

  lemma {:induction false} NodeRecordedAtMost(g: Graph, root: nat, target: nat, graph: Edges, visited: set<nat>, n: nat)
    requires IsGraph(g) && root < |g| && n < |g| && MarkedFrom(g, root, {}, visited)
    requires Genuine(g, target, graph, visited, root + 1) && SameFrom(map[], graph, {}, visited, root + 1)
    ensures ExtraOf(graph, n) <= if OnWay(g, root, target, n) then Extra(g, n, target) else 0
  {
    hide Reaches, AllSlots;
    if n in graph {
      assert GenuineNode(g, target, graph, visited, n);
    }
    hide Genuine;
  }

  /** What the search recorded is part of the bifurcations there are. */
  lemma {:induction false} RecordedAtMost(g: Graph, root: nat, target: nat, graph: Edges, visited: set<nat>, limit: nat)
    requires IsGraph(g) && root < |g| && limit <= |g| && MarkedFrom(g, root, {}, visited)
    requires Genuine(g, target, graph, visited, root + 1) && SameFrom(map[], graph, {}, visited, root + 1)
    ensures ExtraArguments(graph, limit) <= ExtraWays(g, root, target, limit)
  {
    hide Genuine, SameFrom, MarkedFrom, OnWay, Extra, ExtraOf;
    if limit > 0 {
      RecordedAtMost(g, root, target, graph, visited, limit - 1);
      NodeRecordedAtMost(g, root, target, graph, visited, limit - 1);
    }
  }

  /** `CodeHandler::findPathGraph`. */
  method MakePathGraph(g: Graph, root: nat, target: nat, max: nat) returns (foundGraph: BidirGraph, bifurcations: nat)
    requires IsGraph(g) && root < |g|
    ensures fresh(foundGraph) && foundGraph.nodes == g
    ensures bifurcations < max ==> IsPathGraph(g, root, target, foundGraph.graph)
    ensures bifurcations == ExtraArguments(foundGraph.graph, |g|)
    ensures bifurcations >= max <==> Bifurcations(g, root, target) >= max
    ensures bifurcations < max ==> bifurcations == Bifurcations(g, root, target)
  {
    foundGraph := new BidirGraph(g);
    bifurcations := 0;
    ExtraSame(map[], map[root := PathNodeEdges([], [])], |g|);
    NoExtraArguments(|g|);
    if root == target {
      foundGraph.graph := foundGraph.graph[root := PathNodeEdges([], [])];
      RootIsTarget(g, root);
      SearchCounts(g, root, target, foundGraph.graph, |g|);
    } else {
      assert ExploredBelow(g, target, map[], {}, root + 1) && Genuine(g, target, map[], {}, root + 1);
      hide SameFrom, MarkedFrom, Explored, ExploredBelow, Connected, Genuine, ExtraArguments, Reaches, IsPathGraph;
      assert Searched(g, target, map[], {}, 0, max, root + 1) by { NothingSearched(g, target, root, max); }
      var found, visited;
      found, visited, bifurcations := FindPathGraph(foundGraph, root, target, {}, 0, max);
      RecordedAtMost(g, root, target, foundGraph.graph, visited, |g|);
      if bifurcations < max {
        SearchIsExact(g, root, target, foundGraph.graph, visited, found);
        SearchCounts(g, root, target, foundGraph.graph, |g|);
      }
    }
  }

  lemma {:induction false} NothingSearched(g: Graph, target: nat, root: nat, max: nat)
    requires IsGraph(g) && root < |g|
    ensures Searched(g, target, map[], {}, 0, max, root + 1)
  {}

  lemma {:induction false} NoExtraArguments(n: nat)
    ensures ExtraArguments(map[], n) == 0
  {
    if n > 0 {
      NoExtraArguments(n - 1);
    }
  }
}
