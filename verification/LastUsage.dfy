/** The traversal that finds the last use of every variable. */
module LastUsage {
  import opened OperationGraph
  import opened LiveNodes
  import opened EvaluationQueue
  import opened EvaluationOrder

  /** A node on the stack: about to be analysed, or with its arguments visited. */
  datatype Visit = Visit(node: nat, step: Step)

  /** The visits for those of the first k arguments of u that were not visited yet. */
  function UnvisitedArgs(g: Graph, u: nat, visited: seq<bool>, k: nat): (r: seq<Visit>)
    requires IsGraph(g) && u < |g| && g[u].Operator? && k <= |g[u].args| && |visited| == |g|
    ensures forall q :: 0 <= q < |r| ==> r[q].step == Analyze && HasArg(g, u, r[q].node) && r[q].node < |g|
    ensures forall x :: 0 <= x < k && g[u].args[x].Operation? && !visited[g[u].args[x].node] ==>
      Visit(g[u].args[x].node, Analyze) in r
  {
    if k == 0 then []
    else
      UnvisitedArgs(g, u, visited, k - 1) +
      if g[u].args[k - 1].Operation? && !visited[g[u].args[k - 1].node] then [Visit(g[u].args[k - 1].node, Analyze)]
        else []
  }

  function Unvisited(g: Graph, u: nat, visited: seq<bool>): (r: seq<Visit>)
    requires IsGraph(g) && u < |g| && |visited| == |g|
    ensures forall q :: 0 <= q < |r| ==> r[q].step == Analyze && HasArg(g, u, r[q].node) && r[q].node < |g|
  {
    if g[u].Operator? then UnvisitedArgs(g, u, visited, |g[u].args|) else []
  }

  ghost function VisitWeight(g: Graph, s: seq<Visit>): nat
    requires IsGraph(g) && forall q :: 0 <= q < |s| ==> s[q].node < |g|
  {
    if s == [] then 0
    else VisitWeight(g, s[..|s| - 1]) + if s[|s| - 1].step == Analyze then Weight(g, s[|s| - 1].node) else 1
  }

  lemma {:induction false} VisitWeightConcat(g: Graph, s: seq<Visit>, t: seq<Visit>)
    requires IsGraph(g)
    requires (forall q :: 0 <= q < |s| ==> s[q].node < |g|) && (forall q :: 0 <= q < |t| ==> t[q].node < |g|)
    ensures VisitWeight(g, s + t) == VisitWeight(g, s) + VisitWeight(g, t)
  {
    if t == [] {
      assert s + t == s;
    } else {
      VisitWeightConcat(g, s, t[..|t| - 1]);
      assert (s + t)[..|s + t| - 1] == s + t[..|t| - 1];
    }
  }

  lemma {:induction false} UnvisitedWeight(g: Graph, u: nat, visited: seq<bool>, k: nat)
    requires IsGraph(g) && u < |g| && g[u].Operator? && k <= |g[u].args| && |visited| == |g|
    ensures VisitWeight(g, UnvisitedArgs(g, u, visited, k)) <= ArgsWeight(g, u, k)
  {
    hide Weight;
    if k > 0 {
      UnvisitedWeight(g, u, visited, k - 1);
      var before := UnvisitedArgs(g, u, visited, k - 1);
      if g[u].args[k - 1].Operation? && !visited[g[u].args[k - 1].node] {
        VisitWeightAppend(g, before, g[u].args[k - 1].node);
      } else {
        assert before + [] == before;
      }
      hide VisitWeight;
    }
  }

  lemma {:induction false} VisitWeightAppend(g: Graph, s: seq<Visit>, n: nat)
    requires IsGraph(g) && n < |g| && forall q :: 0 <= q < |s| ==> s[q].node < |g|
    ensures VisitWeight(g, s + [Visit(n, Analyze)]) == VisitWeight(g, s) + Weight(g, n)
  {
    assert (s + [Visit(n, Analyze)])[..|s|] == s;
  }

  ghost predicate Waits(s: seq<Visit>, v: Visit) {
    v in s
  }

  /** The visits are of live nodes. */
  ghost predicate LiveVisits(g: Graph, dependents: seq<nat>, s: seq<Visit>) {
    forall q :: 0 <= q < |s| ==> s[q].node < |g| && Live(g, dependents, s[q].node)
  }

  /** What the nodes in `done` read was used in their statements. */
  ghost predicate UsesKnown(g: Graph, order: seq<nat>, lastUse: seq<nat>, done: set<nat>)
    requires |order| == |lastUse| == |g| && IsGraph(g)
  {
    forall u: nat, t: nat {:trigger Takes(g, u, t)} :: u in done && u < |g| && Takes(g, u, t) ==>
      t < |g| && lastUse[t] >= order[u]
  }

  /** The arguments of visited nodes are visited or waiting. */
  ghost predicate ArgsWait(g: Graph, visited: seq<bool>, s: seq<Visit>)
    requires |visited| == |g|
  {
    forall u: nat, a: nat {:trigger HasArg(g, u, a)} :: u < |g| && visited[u] && HasArg(g, u, a) ==>
      a < |g| && (visited[a] || Waits(s, Visit(a, Analyze)))
  }

  ghost predicate DoneOrWaits(g: Graph, visited: seq<bool>, done: set<nat>, s: seq<Visit>)
    requires |visited| == |g|
  {
    forall u: nat :: u < |g| && visited[u] ==> u in done || Waits(s, Visit(u, ChildrenVisited))
  }

  /**
    `done` are the nodes whose arguments have learned about their use.  Visited nodes are done or on
    the stack, and their arguments are visited or waiting.
   */
  ghost predicate Usage(g: Graph, dependents: seq<nat>, order: seq<nat>, visited: seq<bool>, lastUse: seq<nat>,
                        done: set<nat>, s: seq<Visit>) {
    && IsGraph(g) && |order| == |visited| == |lastUse| == |g|
    && LiveVisits(g, dependents, s) && UsesKnown(g, order, lastUse, done)
    && (forall a :: 0 <= a < |g| && lastUse[a] > 0 ==> UsedIn(g, dependents, order, a, lastUse[a]))
    && ArgsWait(g, visited, s) && DoneOrWaits(g, visited, done, s)
  }

  /** The top node is marked and its unvisited arguments are pushed. */
  lemma {:induction false} UsageEnter(g: Graph, dependents: seq<nat>, order: seq<nat>, visited: seq<bool>,
                                      lastUse: seq<nat>, done: set<nat>, s: seq<Visit>)
    requires Usage(g, dependents, order, visited, lastUse, done, s) && |s| > 0 && s[|s| - 1].step == Analyze
    ensures var n := s[|s| - 1].node;
      var visited' := visited[n := true];
      var s' := s[..|s| - 1] + [Visit(n, ChildrenVisited)] + Unvisited(g, n, visited');
      Usage(g, dependents, order, visited', lastUse, done, s') && VisitWeight(g, s') < VisitWeight(g, s)
  {
    hide Live, UsedIn, UsesKnown, ArgsWait, DoneOrWaits, Waits, VisitWeight;
    var n := s[|s| - 1].node;
    EnterWaits(g, visited, done, s);
    EnterArgsWait(g, visited, s);
    PushedLive(g, dependents, n, Unvisited(g, n, visited[n := true]));
    EnterWeight(g, visited[n := true], s);
    hide Unvisited;
  }

  /** The stack after the top node, which is not visited, was entered. */
  ghost function Entered(g: Graph, visited: seq<bool>, s: seq<Visit>): seq<Visit>
    requires IsGraph(g) && |visited| == |g| && |s| > 0 && s[|s| - 1].node < |g|
  {
    var n := s[|s| - 1].node;
    s[..|s| - 1] + [Visit(n, ChildrenVisited)] + Unvisited(g, n, visited[n := true])
  }

  lemma {:induction false} StillWaits(g: Graph, visited: seq<bool>, s: seq<Visit>, v: Visit)
    requires IsGraph(g) && |visited| == |g| && |s| > 0 && s[|s| - 1].node < |g| && Waits(s, v)
    ensures v == s[|s| - 1] || Waits(Entered(g, visited, s), v)
  {
    hide Unvisited;
  }

  lemma {:induction false} EnterWaits(g: Graph, visited: seq<bool>, done: set<nat>, s: seq<Visit>)
    requires IsGraph(g) && |visited| == |g| && |s| > 0 && s[|s| - 1].node < |g| && s[|s| - 1].step == Analyze
    requires DoneOrWaits(g, visited, done, s)
    ensures DoneOrWaits(g, visited[s[|s| - 1].node := true], done, Entered(g, visited, s))
  {
    hide Unvisited, Waits;
    var n := s[|s| - 1].node;
    TopWaits(g, visited, s);
    forall u: nat | u < |g| && visited[u]
      ensures u in done || Waits(Entered(g, visited, s), Visit(u, ChildrenVisited))
    {
      if Waits(s, Visit(u, ChildrenVisited)) {
        StillWaits(g, visited, s, Visit(u, ChildrenVisited));
      }
    }
    hide Entered;
  }

  lemma {:induction false} TopWaits(g: Graph, visited: seq<bool>, s: seq<Visit>)
    requires IsGraph(g) && |visited| == |g| && |s| > 0 && s[|s| - 1].node < |g|
    ensures Waits(Entered(g, visited, s), Visit(s[|s| - 1].node, ChildrenVisited))
  {
    hide Unvisited;
    assert Entered(g, visited, s)[|s| - 1] == Visit(s[|s| - 1].node, ChildrenVisited);
  }

  /** An argument of the top node is visited or was pushed. */
  lemma {:induction false} NewArgWaits(g: Graph, visited: seq<bool>, s: seq<Visit>, a: nat)
    requires IsGraph(g) && |visited| == |g| && |s| > 0 && s[|s| - 1].node < |g| && HasArg(g, s[|s| - 1].node, a)
    ensures a < |g| && (visited[s[|s| - 1].node := true][a] || Waits(Entered(g, visited, s), Visit(a, Analyze)))
  {
    var n := s[|s| - 1].node;
    ArgIsOlder(g, n, a);
    var k :| 0 <= k < |g[n].args| && g[n].args[k] == Operation(a);
    assert !visited[n := true][a] ==> Visit(a, Analyze) in Unvisited(g, n, visited[n := true]);
    hide UnvisitedArgs;
  }

  lemma {:induction false} EnterArgsWait(g: Graph, visited: seq<bool>, s: seq<Visit>)
    requires IsGraph(g) && |visited| == |g| && |s| > 0 && s[|s| - 1].node < |g| && s[|s| - 1].step == Analyze
    requires ArgsWait(g, visited, s)
    ensures ArgsWait(g, visited[s[|s| - 1].node := true], Entered(g, visited, s))
  {
    hide Entered, Waits, HasArg;
    var n := s[|s| - 1].node;
    var visited' := visited[n := true];
    forall u: nat, a: nat {:trigger HasArg(g, u, a)} | u < |g| && visited'[u] && HasArg(g, u, a)
      ensures a < |g| && (visited'[a] || Waits(Entered(g, visited, s), Visit(a, Analyze)))
    {
      if u == n {
        NewArgWaits(g, visited, s, a);
      } else if !visited[a] {
        StillWaits(g, visited, s, Visit(a, Analyze));
      }
    }
  }

  lemma {:induction false} PushedLive(g: Graph, dependents: seq<nat>, n: nat, pushed: seq<Visit>)
    requires IsGraph(g) && n < |g| && Live(g, dependents, n)
    requires forall q :: 0 <= q < |pushed| ==> HasArg(g, n, pushed[q].node)
    ensures forall q :: 0 <= q < |pushed| ==> Live(g, dependents, pushed[q].node)
  {
    forall q | 0 <= q < |pushed|
      ensures Live(g, dependents, pushed[q].node)
    {
      LiveArg(g, dependents, n, pushed[q].node);
    }
  }

  lemma {:induction false} EnterWeight(g: Graph, visited: seq<bool>, s: seq<Visit>)
    requires IsGraph(g) && |visited| == |g| && |s| > 0 && s[|s| - 1].step == Analyze
    requires forall q :: 0 <= q < |s| ==> s[q].node < |g|
    ensures var n := s[|s| - 1].node;
      VisitWeight(g, s[..|s| - 1] + [Visit(n, ChildrenVisited)] + Unvisited(g, n, visited)) < VisitWeight(g, s)
  {
    var n := s[|s| - 1].node;
    if g[n].Operator? {
      UnvisitedWeight(g, n, visited, |g[n].args|);
    }
    ReplaceTopWeight(g, s, Unvisited(g, n, visited));
  }

  lemma {:induction false} ReplaceTopWeight(g: Graph, s: seq<Visit>, pushed: seq<Visit>)
    requires IsGraph(g) && |s| > 0 && s[|s| - 1].step == Analyze
    requires (forall q :: 0 <= q < |s| ==> s[q].node < |g|) && (forall q :: 0 <= q < |pushed| ==> pushed[q].node < |g|)
    requires VisitWeight(g, pushed) + 2 <= Weight(g, s[|s| - 1].node)
    ensures VisitWeight(g, s[..|s| - 1] + [Visit(s[|s| - 1].node, ChildrenVisited)] + pushed) < VisitWeight(g, s)
  {
    var below := s[..|s| - 1] + [Visit(s[|s| - 1].node, ChildrenVisited)];
    assert below[..|below| - 1] == s[..|s| - 1];
    VisitWeightConcat(g, below, pushed);
  }

  /** The arguments of the top node learned about their use, and the node is done. */
  lemma {:induction false} UsageLeave(g: Graph, dependents: seq<nat>, order: seq<nat>, visited: seq<bool>,
                                      lastUse: seq<nat>, done: set<nat>, s: seq<Visit>, lastUse': seq<nat>)
    requires Usage(g, dependents, order, visited, lastUse, done, s) && |s| > 0 && s[|s| - 1].step != Analyze
    requires |lastUse'| == |g|
    requires UseCounted(g, order, s[|s| - 1].node, lastUse, lastUse')
    ensures Usage(g, dependents, order, visited, lastUse', done + {s[|s| - 1].node}, s[..|s| - 1])
    ensures VisitWeight(g, s[..|s| - 1]) < VisitWeight(g, s)
  {
    hide Live, Takes;
    var n := s[|s| - 1].node;
    forall v: Visit | Waits(s, v)
      ensures v == s[|s| - 1] || Waits(s[..|s| - 1], v)
    {}
    forall t: nat | t < |g| && lastUse'[t] > 0
      ensures UsedIn(g, dependents, order, t, lastUse'[t])
    {
      if lastUse'[t] != lastUse[t] {
        assert Takes(g, n, t);
      }
    }
    forall t: nat | Takes(g, n, t)
      ensures t < |g| && lastUse'[t] >= order[n]
    {
      TakenInRange(g, n, t);
    }
  }

  lemma {:induction false} TakenInRange(g: Graph, u: nat, t: nat)
    requires IsGraph(g) && u < |g| && Takes(g, u, t)
    ensures t < |g|
  {}

  /** What node n reads, by whatever name, was used in its statement. */
  ghost predicate UseCounted(g: Graph, order: seq<nat>, n: nat, before: seq<nat>, after: seq<nat>)
    requires IsGraph(g) && n < |g| && |before| == |after| == |order| == |g|
  {
    forall t: nat :: t < |g| ==> after[t] == if Takes(g, n, t) && before[t] < order[n] then order[n] else before[t]
  }

  /** Between two traversals: everything visited is done and its arguments are visited. */
  lemma {:induction false} UsageStart(g: Graph, dependents: seq<nat>, order: seq<nat>, visited: seq<bool>,
                                      lastUse: seq<nat>, done: set<nat>, root: nat)
    requires Usage(g, dependents, order, visited, lastUse, done, []) && root < |g| && Live(g, dependents, root)
    ensures Usage(g, dependents, order, visited, lastUse, done, [Visit(root, Analyze)])
  {
    hide Live, UsedIn;
  }

  lemma {:induction false} NothingUsed(g: Graph, dependents: seq<nat>, order: seq<nat>)
    requires IsGraph(g) && |order| == |g|
    ensures Usage(g, dependents, order, seq(|g|, _ => false), seq(|g|, _ => 0), {}, [])
  {}

  /** When all dependents were visited, the last uses are known. */
  lemma {:induction false} UsageEnd(g: Graph, dependents: seq<nat>, order: seq<nat>, visited: seq<bool>,
                                    lastUse: seq<nat>, done: set<nat>)
    requires Usage(g, dependents, order, visited, lastUse, done, [])
    requires forall i :: 0 <= i < |dependents| ==> dependents[i] < |g| && visited[dependents[i]]
    ensures LastUses(g, dependents, order, lastUse)
  {
    hide UsedIn;
    assert Closed(g, visited);
    forall u: nat | u < |g| && Live(g, dependents, u)
      ensures u in done
    {
      LiveIsVisited(g, dependents, visited, u);
    }
  }
}
