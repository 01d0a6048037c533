/** The number of additional ways between two nodes, when an expression is replaced by another one. */
module PathCount {
  import opened OperationGraph
  import opened PathGraph

  // ---------------------------------------------------------------------------------------------
  // More nodes

  lemma {:induction false} LeadsToKept(g: Graph, g': Graph, n: nat, k: int, target: nat)
    requires IsGraph(g) && IsGraph(g') && g <= g' && n < |g|
    ensures LeadsTo(g', n, k, target) <==> LeadsTo(g, n, k, target)
  {
    if g[n].Operator? && 0 <= k < |g[n].args| && g[n].args[k].Operation? {
      ReachesKept(g, g', g[n].args[k].node, target);
    }
  }

  lemma {:induction false} SlotsKept(g: Graph, g': Graph, n: nat, target: nat, i: nat)
    requires IsGraph(g) && IsGraph(g') && g <= g' && n < |g|
    ensures Slots(g', n, target, i) == Slots(g, n, target, i)
  {
    if i > 0 {
      SlotsKept(g, g', n, target, i - 1);
      LeadsToKept(g, g', n, i - 1, target);
    }
  }

  lemma {:induction false} AllSlotsKept(g: Graph, g': Graph, n: nat, target: nat)
    requires IsGraph(g) && IsGraph(g') && g <= g' && n < |g|
    ensures AllSlots(g', n, target) == AllSlots(g, n, target) && Extra(g', n, target) == Extra(g, n, target)
  {
    if g[n].Operator? {
      SlotsKept(g, g', n, target, |g[n].args|);
    }
  }

  /** If every argument of n' that leads to the target corresponds to one of n, there are no more of them. */
  lemma {:induction false} FewerSlots(g: Graph, n: nat, g': Graph, n': nat, target: nat, i: nat)
    requires IsGraph(g) && IsGraph(g') && n < |g| && n' < |g'|
    requires forall k: nat {:trigger LeadsTo(g', n', k, target)} :: k < i && LeadsTo(g', n', k, target) ==>
      LeadsTo(g, n, k, target)
    ensures |Slots(g', n', target, i)| <= |Slots(g, n, target, i)|
  {
    if i > 0 {
      FewerSlots(g, n, g', n', target, i - 1);
    }
  }

  /** A node only one of whose arguments may lead to the target. */
  lemma {:induction false} OneSlot(g: Graph, n: nat, target: nat, only: nat, i: nat)
    requires IsGraph(g) && n < |g|
    requires forall k: nat {:trigger LeadsTo(g, n, k, target)} :: LeadsTo(g, n, k, target) ==> k == only
    ensures |Slots(g, n, target, i)| <= if i > only then 1 else 0
  {
    if i > 0 {
      OneSlot(g, n, target, only, i - 1);
    }
  }

  // ---------------------------------------------------------------------------------------------
  // What is counted

  /** The nodes below `limit` on the ways from the root to the target. */
  ghost function NodesOnWay(g: Graph, root: nat, target: nat, limit: nat): set<nat>
    requires IsGraph(g)
  {
    set n: nat | n < limit && OnWay(g, root, target, n)
  }

  /** The arguments, below argument i, by which node n leads to the target. */
  ghost function SlotsOf(g: Graph, n: nat, target: nat, i: nat): set<(nat, nat)>
    requires IsGraph(g) && n < |g|
  {
    set k: nat | k < i && LeadsTo(g, n, k, target) :: (n, k)
  }

  /** The steps on the ways from the root to the target that leave nodes below `limit`. */
  ghost function StepsOnWay(g: Graph, root: nat, target: nat, limit: nat): set<(nat, nat)>
    requires IsGraph(g) && limit <= |g|
  {
    set n: nat, k: nat | n < limit && OnWay(g, root, target, n) && g[n].Operator? && k < |g[n].args| &&
                         LeadsTo(g, n, k, target) :: (n, k)
  }

  lemma {:induction false} SlotsCount(g: Graph, n: nat, target: nat, i: nat)
    requires IsGraph(g) && n < |g|
    ensures |SlotsOf(g, n, target, i)| == |Slots(g, n, target, i)|
  {
    if i == 0 {
      assert SlotsOf(g, n, target, 0) == {};
    } else {
      SlotsCount(g, n, target, i - 1);
      assert SlotsOf(g, n, target, i) ==
        SlotsOf(g, n, target, i - 1) + if LeadsTo(g, n, i - 1, target) then {(n, (i - 1) as nat)} else {};
    }
  }

  lemma {:induction false} StepsNext(g: Graph, root: nat, target: nat, n: nat)
    requires IsGraph(g) && n < |g|
    ensures OnWay(g, root, target, n) ==>
      |StepsOnWay(g, root, target, n + 1)| == |StepsOnWay(g, root, target, n)| + |AllSlots(g, n, target)|
    ensures !OnWay(g, root, target, n) ==> StepsOnWay(g, root, target, n + 1) == StepsOnWay(g, root, target, n)
  {
    hide OnWay, LeadsTo, IsGraph, Slots;
    if OnWay(g, root, target, n) {
      if g[n].Operator? {
        SlotsCount(g, n, target, |g[n].args|);
        assert StepsOnWay(g, root, target, n + 1) ==
          StepsOnWay(g, root, target, n) + SlotsOf(g, n, target, |g[n].args|);
      } else {
        assert StepsOnWay(g, root, target, n + 1) == StepsOnWay(g, root, target, n);
      }
    }
  }

  lemma {:induction false} NodesNext(g: Graph, root: nat, target: nat, n: nat)
    requires IsGraph(g)
    ensures |NodesOnWay(g, root, target, n + 1)| ==
      |NodesOnWay(g, root, target, n)| + if OnWay(g, root, target, n) then 1 else 0
  {
    hide OnWay, IsGraph;
    assert NodesOnWay(g, root, target, n + 1) ==
      NodesOnWay(g, root, target, n) + if OnWay(g, root, target, n) then {n} else {};
  }

  /** A node on the way has an argument that leads to the target. */
  lemma {:induction false} OnWayLeads(g: Graph, root: nat, target: nat, n: nat)
    requires IsGraph(g) && n < |g| && OnWay(g, root, target, n)
    ensures |AllSlots(g, n, target)| == Extra(g, n, target) + 1
  {
    hide Reaches;
    ReachesByArgument(g, n, target);
    var k: nat :| LeadsTo(g, n, k, target);
    assert k in AllSlots(g, n, target);
  }

  lemma {:induction false} WaysCount(g: Graph, root: nat, target: nat, limit: nat)
    requires IsGraph(g) && limit <= |g|
    ensures |StepsOnWay(g, root, target, limit)| ==
      |NodesOnWay(g, root, target, limit)| + ExtraWays(g, root, target, limit)
  {
    if limit == 0 {
      assert StepsOnWay(g, root, target, 0) == {} && NodesOnWay(g, root, target, 0) == {};
    } else {
      var n: nat := limit - 1;
      WaysCount(g, root, target, n);
      StepsNext(g, root, target, n);
      NodesNext(g, root, target, n);
      hide OnWay, StepsOnWay, NodesOnWay, AllSlots, Extra, IsGraph;
      if OnWay(g, root, target, n) {
        OnWayLeads(g, root, target, n);
      }
    }
  }

  /** There are as many bifurcations as there are more steps than nodes on the ways between two nodes. */
  lemma {:induction false} BifurcationsCount(g: Graph, root: nat, target: nat)
    requires IsGraph(g)
    ensures Bifurcations(g, root, target) ==
      |StepsOnWay(g, root, target, |g|)| - |NodesOnWay(g, root, target, |g|)|
  {
    WaysCount(g, root, target, |g|);
  }

  // ---------------------------------------------------------------------------------------------
  // An expression in which the nodes above `common` are replaced

  /** Node n is above `common`. */
  ghost predicate Above(g: Graph, root: nat, common: nat, n: nat)
    requires IsGraph(g)
  {
    n != common && Reaches(g, root, n) && Reaches(g, n, common)
  }

  /** What a node above `common` contributes. */
  ghost function ExtraAbove(g: Graph, root: nat, common: nat, target: nat, n: nat): nat
    requires IsGraph(g) && n < |g|
  {
    if Above(g, root, common, n) then Extra(g, n, target) else 0
  }

  /** The contributions of those of the first `limit` nodes that are done. */
  ghost function Allowed(g: Graph, root: nat, common: nat, target: nat, done: set<nat>, limit: nat): nat
    requires IsGraph(g) && limit <= |g|
  {
    if limit == 0 then 0
    else
      Allowed(g, root, common, target, done, limit - 1) +
      if limit - 1 in done then ExtraAbove(g, root, common, target, limit - 1) else 0
  }

  lemma {:induction false} AllowedMore(g: Graph, root: nat, common: nat, target: nat, done: set<nat>, more: set<nat>,
                                       limit: nat)
    requires IsGraph(g) && limit <= |g| && done <= more
    ensures Allowed(g, root, common, target, done, limit) <= Allowed(g, root, common, target, more, limit)
  {
    if limit > 0 {
      AllowedMore(g, root, common, target, done, more, limit - 1);
    }
  }

  lemma {:induction false} AllowedNext(g: Graph, root: nat, common: nat, target: nat, done: set<nat>, n: nat,
                                       limit: nat)
    requires IsGraph(g) && limit <= |g| && n !in done
    ensures Allowed(g, root, common, target, done + {n}, limit) ==
      Allowed(g, root, common, target, done, limit) + if n < limit then ExtraAbove(g, root, common, target, n) else 0
  {
    hide ExtraAbove;
    if limit > 0 {
      AllowedNext(g, root, common, target, done, n, limit - 1);
    }
  }

  /** The bifurcations at the nodes from `start` on, wherever they are. */
  ghost function FreshExtra(g: Graph, target: nat, start: nat, limit: nat): nat
    requires IsGraph(g) && limit <= |g|
  {
    if limit <= start then 0 else FreshExtra(g, target, start, limit - 1) + Extra(g, limit - 1, target)
  }

  lemma {:induction false} FreshExtraKept(g: Graph, g': Graph, target: nat, start: nat, limit: nat)
    requires IsGraph(g) && IsGraph(g') && g <= g' && limit <= |g|
    ensures FreshExtra(g', target, start, limit) == FreshExtra(g, target, start, limit)
  {
    hide AllSlots, Slots, Reaches, IsGraph, Extra;
    if limit > start {
      FreshExtraKept(g, g', target, start, limit - 1);
      AllSlotsKept(g, g', limit - 1, target);
    }
  }

  /**
    The old nodes that are left do not lead to `common`, the nodes from |g| to |g1| do not split, and the
    nodes after them split no more often than those above `common` did.
   */
  ghost predicate Replaced(g: Graph, root: nat, common: nat, g1: Graph, g2: Graph, root': nat, target: nat) {
    && IsGraph(g) && IsGraph(g1) && IsGraph(g2) && g <= g1 <= g2
    && (forall n: nat {:trigger OnWay(g2, root', target, n)} :: n < |g2| && OnWay(g2, root', target, n) ==>
          (n < |g| ==> OnWay(g, root, target, n) && !Reaches(g, n, common))
            && (|g| <= n < |g1| ==> Extra(g2, n, target) == 0))
    && exists done: set<nat> {:trigger Allowed(g, root, common, target, done, |g|)} ::
         FreshExtra(g2, target, |g1|, |g2|) <= Allowed(g, root, common, target, done, |g|)
  }

  /** Old nodes: those that are left, those above `common`, and `common` itself are different ones. */
  lemma {:induction false} OldWays(g: Graph, root: nat, common: nat, g1: Graph, g2: Graph, root': nat, target: nat,
                                   done: set<nat>, limit: nat)
    requires Replaced(g, root, common, g1, g2, root', target) && limit <= |g| && common < |g|
    requires OnWay(g, root, target, common) && Extra(g, common, target) > 0
    ensures ExtraWays(g2, root', target, limit) + Allowed(g, root, common, target, done, limit) +
      (if common < limit then 1 else 0)
      <= ExtraWays(g, root, target, limit)
  {
    hide OnWay, Extra, ExtraAbove, Reaches, IsGraph, FreshExtra, AllSlots;
    if limit > 0 {
      OldWays(g, root, common, g1, g2, root', target, done, limit - 1);
      OldNode(g, root, common, g1, g2, root', target, limit - 1);
    }
  }

  lemma {:induction false} OldNode(g: Graph, root: nat, common: nat, g1: Graph, g2: Graph, root': nat, target: nat,
                                   n: nat)
    requires Replaced(g, root, common, g1, g2, root', target) && n < |g| && common < |g|
    requires OnWay(g, root, target, common) && Extra(g, common, target) > 0
    ensures (if OnWay(g2, root', target, n) then Extra(g2, n, target) else 0) +
      ExtraAbove(g, root, common, target, n) + (if n == common then 1 else 0)
      <= if OnWay(g, root, target, n) then Extra(g, n, target) else 0
  {
    AllSlotsKept(g, g2, n, target);
    hide AllSlots, FreshExtra, Allowed;
    if Above(g, root, common, n) {
      ReachesTransitive(g, n, common, target);
      ReachesIsOlder(g, n, common);
      ReachesIsOlder(g, common, target);
    }
  }

  lemma {:induction false} NewWays(g: Graph, root: nat, common: nat, g1: Graph, g2: Graph, root': nat, target: nat,
                                   limit: nat)
    requires Replaced(g, root, common, g1, g2, root', target) && |g| <= limit <= |g2|
    ensures ExtraWays(g2, root', target, limit) <= ExtraWays(g2, root', target, |g|) +
      FreshExtra(g2, target, |g1|, limit)
  {
    hide AllSlots, Reaches, Allowed, Extra;
    if limit > |g| {
      NewWays(g, root, common, g1, g2, root', target, limit - 1);
    }
  }

  /** Replacing a bifurcation by something that does not split leaves fewer bifurcations. */
  lemma {:induction false} FewerBifurcations(g: Graph, root: nat, common: nat, g1: Graph, g2: Graph, root': nat,
                                             target: nat)
    requires Replaced(g, root, common, g1, g2, root', target) && common < |g|
    requires OnWay(g, root, target, common) && Extra(g, common, target) > 0
    ensures Bifurcations(g2, root', target) < Bifurcations(g, root, target)
  {
    var done: set<nat> :| FreshExtra(g2, target, |g1|, |g2|) <= Allowed(g, root, common, target, done, |g|);
    NewWays(g, root, common, g1, g2, root', target, |g2|);
    OldWays(g, root, common, g1, g2, root', target, done, |g|);
    hide Replaced, OnWay, Extra;
  }

  // ---------------------------------------------------------------------------------------------
  // Ways to a node in between

  /** What leads to a node on the way leads to the target. */
  lemma {:induction false} FewerWaysTo(g: Graph, root: nat, common: nat, target: nat, limit: nat)
    requires IsGraph(g) && limit <= |g| && Reaches(g, common, target)
    ensures ExtraWays(g, root, common, limit) <= ExtraWays(g, root, target, limit)
  {
    hide Reaches, Extra, OnWay;
    if limit > 0 {
      FewerWaysTo(g, root, common, target, limit - 1);
      FewerAt(g, root, common, target, limit - 1);
    }
  }

  lemma {:induction false} FewerAt(g: Graph, root: nat, common: nat, target: nat, n: nat)
    requires IsGraph(g) && n < |g| && Reaches(g, common, target)
    ensures OnWay(g, root, common, n) ==> OnWay(g, root, target, n) && Extra(g, n, common) <= Extra(g, n, target)
  {
    hide Slots, Below;
    if OnWay(g, root, common, n) {
      ReachesTransitive(g, n, common, target);
      ReachesIsOlder(g, n, common);
      ReachesIsOlder(g, common, target);
      FewerSlotsTo(g, n, common, target, if g[n].Operator? then |g[n].args| else 0);
    }
  }

  lemma {:induction false} FewerSlotsTo(g: Graph, n: nat, common: nat, target: nat, i: nat)
    requires IsGraph(g) && n < |g| && Reaches(g, common, target)
    ensures |Slots(g, n, common, i)| <= |Slots(g, n, target, i)|
  {
    hide Reaches;
    if i > 0 {
      FewerSlotsTo(g, n, common, target, i - 1);
      if LeadsTo(g, n, i - 1, common) {
        ReachesTransitive(g, g[n].args[i - 1].node, common, target);
      }
    }
  }

  /** Nodes that are added later are not on the way. */
  lemma {:induction false} WaysKept(g: Graph, g': Graph, root: nat, target: nat, limit: nat)
    requires IsGraph(g) && IsGraph(g') && g <= g' && root < |g| && limit <= |g'|
    ensures ExtraWays(g', root, target, limit) == ExtraWays(g, root, target, if limit <= |g| then limit else |g|)
  {
    hide Reaches, Extra;
    if limit > 0 {
      WaysKept(g, g', root, target, limit - 1);
      ReachesKept(g, g', root, limit - 1);
      if limit - 1 < |g| {
        ReachesKept(g, g', limit - 1, target);
        AllSlotsKept(g, g', limit - 1, target);
      } else if Reaches(g', root, limit - 1) {
        ReachesIsOlder(g', root, limit - 1);
      }
    }
  }
}
