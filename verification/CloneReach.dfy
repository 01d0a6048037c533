/** How the solver's evaluator changes the ways to the variable. */
module CloneReach {
  import opened Arithmetic
  import opened CloneSetting
  import opened OperationGraph
  import opened PathCount
  import opened PathGraph
  import opened SingleBifurcation

  ghost predicate CGReaches(g: Graph, c: CG, n: nat)
    requires IsGraph(g)
  {
    c.Operation? && Reaches(g, c.node, n)
  }

  /** No way leads from c to the variable. */
  ghost predicate Avoids(g: Graph, c: CG, variable: nat)
    requires IsGraph(g)
  {
    !CGReaches(g, c, variable)
  }

  /** The ways from c to the variable do not split, and lead only through new nodes. */
  ghost predicate Splitless(original: Graph, g: Graph, variable: nat, c: CG)
    requires IsGraph(g)
  {
    && IsCG(g, c)
    && forall x: nat {:trigger CGReaches(g, c, x)} :: x < |g| && CGReaches(g, c, x) && Reaches(g, x, variable) ==>
         x == variable || (x >= |original| && Extra(g, x, variable) == 0)
  }

  /**
    The evaluation removes the variable, or replaces a node that leads to it by something in which its ways do not
    split.
   */
  ghost predicate Accounted(s: Setting) {
    && s.Valid() && IsGraph(s.original) && s.original <= s.g && s.variable < |s.original|
    && match s.mode
       case OnPaths(_, _, _, _) => s.variable == s.target
       case OnGraph(root, _, _) =>
         && root < |s.original| && s.target < |s.original| && Reaches(s.original, s.target, s.variable)
         && Splitless(s.original, s.g, s.variable, s.sub)
  }

  /** Nodes that may be on a way from a result to the variable. */
  ghost predicate Kind(s: Setting, nodes: Graph, x: nat)
    requires IsGraph(nodes) && IsGraph(s.original)
  {
    match s.mode
    case OnPaths(_, _, _, _) => false
    case OnGraph(root, _, _) =>
      if x < |s.original| then x == s.variable || (Reaches(s.original, root, x) && !Reaches(s.original, x, s.target))
      else x < |s.g| && x < |nodes| ==> Extra(nodes, x, s.variable) == 0
  }

  ghost predicate Clean(s: Setting, nodes: Graph, c: CG)
    requires IsGraph(nodes) && IsGraph(s.original)
  {
    forall x: nat {:trigger CGReaches(nodes, c, x)} :: CGReaches(nodes, c, x) && Reaches(nodes, x, s.variable) ==>
      Kind(s, nodes, x)
  }

  /** Result c for node n: clean, and it leads to the variable only if n does. */
  ghost predicate Tidy(s: Setting, nodes: Graph, n: nat, c: CG)
    requires IsGraph(nodes) && IsGraph(s.original) && IsGraph(s.g)
  {
    IsCG(nodes, c) && Clean(s, nodes, c) && (CGReaches(nodes, c, s.variable) ==> Reaches(s.g, n, s.variable))
  }

  ghost predicate TidyOperand(s: Setting, nodes: Graph, a: Arg, c: CG)
    requires IsGraph(nodes) && IsGraph(s.original) && IsGraph(s.g)
  {
    if a.Parameter? then c == a else Tidy(s, nodes, a.node, c)
  }

  lemma {:induction false} CGReachesKept(g: Graph, g': Graph, c: CG, n: nat)
    requires IsGraph(g) && IsGraph(g') && g <= g' && IsCG(g, c)
    ensures CGReaches(g', c, n) <==> CGReaches(g, c, n)
  {
    if c.Operation? {
      ReachesKept(g, g', c.node, n);
    }
  }

  lemma {:induction false} ReachedInRange(g: Graph, c: CG, n: nat)
    requires IsGraph(g) && IsCG(g, c) && CGReaches(g, c, n)
    ensures n < |g|
  {
    ReachesIsOlder(g, c.node, n);
  }

  lemma {:induction false} TidyKept(s: Setting, nodes: Graph, nodes': Graph, n: nat, c: CG)
    requires IsGraph(s.original) && IsGraph(s.g) && IsGraph(nodes) && IsGraph(nodes') && nodes <= nodes'
    requires Tidy(s, nodes, n, c)
    ensures Tidy(s, nodes', n, c)
  {
    hide Reaches, Extra, CGReaches;
    CGReachesKept(nodes, nodes', c, s.variable);
    forall x: nat | CGReaches(nodes', c, x) && Reaches(nodes', x, s.variable)
      ensures Kind(s, nodes', x)
    {
      CGReachesKept(nodes, nodes', c, x);
      ReachedInRange(nodes, c, x);
      ReachesKept(nodes, nodes', x, s.variable);
      AllSlotsKept(nodes, nodes', x, s.variable);
      assert Kind(s, nodes, x);
    }
  }

  /** A node that does not lead to the target stays as it is. */
  lemma {:induction false} OriginalIsTidy(s: Setting, nodes: Graph, stack: Path, n: nat)
    requires Accounted(s) && s.Tracked(stack, n) && IsGraph(nodes) && s.g <= nodes && !Reaches(s.g, n, s.target)
    ensures Tidy(s, nodes, n, Operation(n))
  {
    ReachesKept(s.g, nodes, n, s.variable);
    forall x: nat | CGReaches(nodes, Operation(n), x) && Reaches(nodes, x, s.variable)
      ensures Kind(s, nodes, x)
    {
      OriginalKind(s, nodes, stack, n, x);
    }
  }

  lemma {:induction false} OriginalKind(s: Setting, nodes: Graph, stack: Path, n: nat, x: nat)
    requires Accounted(s) && s.Tracked(stack, n) && IsGraph(nodes) && s.g <= nodes && !Reaches(s.g, n, s.target)
    requires Reaches(nodes, n, x) && Reaches(nodes, x, s.variable)
    ensures Kind(s, nodes, x)
  {
    hide Setting.Valid, Splitless, Below;
    ReachesIsOlder(nodes, n, x);
    ReachesKept(s.g, nodes, n, x);
    match s.mode
    case OnPaths(_, _, _, _) =>
      ReachesTransitive(nodes, n, x, s.variable);
      ReachesKept(s.g, nodes, n, s.variable);
    case OnGraph(root, _, _) =>
      ReachesIsOlder(s.g, root, n);
      ReachesKept(s.original, s.g, root, x);
      ReachesTransitive(s.g, root, n, x);
      if Reaches(s.original, x, s.target) {
        ReachesKept(s.original, s.g, x, s.target);
        ReachesTransitive(s.g, n, x, s.target);
      }
  }

  /** The replacement of the target. */
  lemma {:induction false} SubIsTidy(s: Setting, nodes: Graph)
    requires Accounted(s) && s.mode.OnGraph? && IsGraph(nodes) && s.g <= nodes
    ensures Tidy(s, nodes, s.target, s.sub)
  {
    hide Setting.Valid, Reaches, CGReaches, Extra;
    ReachesKept(s.original, s.g, s.target, s.variable);
    forall x: nat | CGReaches(nodes, s.sub, x) && Reaches(nodes, x, s.variable)
      ensures Kind(s, nodes, x)
    {
      CGReachesKept(s.g, nodes, s.sub, x);
      ReachedInRange(s.g, s.sub, x);
      ReachesKept(s.g, nodes, x, s.variable);
      AllSlotsKept(s.g, nodes, x, s.variable);
    }
  }

  lemma {:induction false} ParameterIsTidy(s: Setting, nodes: Graph, n: nat, v: real)
    requires IsGraph(nodes) && IsGraph(s.original) && IsGraph(s.g)
    ensures Tidy(s, nodes, n, Parameter(v))
  {}

  // ---------------------------------------------------------------------------------------------
  // A cloned operation

  /** The results for the operands of n. */
  ghost predicate TidyOperands(s: Setting, nodes: Graph, n: nat, cs: seq<CG>) {
    && Accounted(s) && IsGraph(nodes) && s.g <= nodes && n < |s.g| && s.g[n].Operator? && |cs| == |s.g[n].args|
    && forall k :: 0 <= k < |cs| ==> TidyOperand(s, nodes, s.g[n].args[k], cs[k]) && IsCG(nodes, cs[k])
  }

  /** An operand whose result leads to the variable leads to it. */
  lemma {:induction false} OperandLeads(s: Setting, nodes: Graph, n: nat, cs: seq<CG>, k: nat)
    requires TidyOperands(s, nodes, n, cs) && k < |cs| && CGReaches(nodes, cs[k], s.variable)
    ensures LeadsTo(s.g, n, k, s.variable)
  {
    hide Clean, Reaches, Setting.Valid, Splitless;
    assert TidyOperand(s, nodes, s.g[n].args[k], cs[k]);
  }

  lemma {:induction false} ArgumentReaches(g: Graph, n: nat, k: nat, target: nat)
    requires IsGraph(g) && n < |g| && LeadsTo(g, n, k, target)
    ensures Reaches(g, n, target)
  {
    assert HasArg(g, n, g[n].args[k].node);
    ArgIsOlder(g, n, g[n].args[k].node);
    assert Reaches(g, n, g[n].args[k].node);
    ReachesTransitive(g, n, g[n].args[k].node, target);
  }

  /** What is reached from a new node is the node itself, or is reached from an operand. */
  lemma {:induction false} FromNewNode(g: Graph, g': Graph, op: Op, cs: seq<CG>, x: nat)
    requires IsGraph(g) && IsGraph(g') && g' == g + [Operator(op, cs)] && Reaches(g', |g|, x) && x != |g|
    ensures exists k :: 0 <= k < |cs| && CGReaches(g', cs[k], x)
  {
    var a: nat :| a < |g| && HasArg(g', |g|, a) && (a == x || Below(g', a, x));
    var k :| 0 <= k < |cs| && cs[k] == Operation(a);
    assert CGReaches(g', cs[k], x);
  }

  /** The result of the operation is tidy. */
  lemma {:induction false} MadeIsTidy(s: Setting, nodes: Graph, nodes': Graph, n: nat, op: Op, cs: seq<CG>, r: CG)
    requires TidyOperands(s, nodes, n, cs) && IsGraph(nodes') && Made(nodes, nodes', op, cs, r)
    ensures Tidy(s, nodes', n, r)
  {
    if r.Parameter? {
      ParameterIsTidy(s, nodes', n, r.value);
    } else if nodes' == nodes && r in cs {
      var k :| 0 <= k < |cs| && cs[k] == r;
      FoldedIsTidy(s, nodes, n, cs, k);
    } else {
      NewIsTidy(s, nodes, nodes', n, op, cs);
    }
  }

  lemma {:induction false} FoldedIsTidy(s: Setting, nodes: Graph, n: nat, cs: seq<CG>, k: nat)
    requires TidyOperands(s, nodes, n, cs) && k < |cs|
    ensures Tidy(s, nodes, n, cs[k])
  {
    hide Setting.Valid, Splitless, Reaches, Kind;
    assert TidyOperand(s, nodes, s.g[n].args[k], cs[k]);
    if CGReaches(nodes, cs[k], s.variable) {
      OperandLeads(s, nodes, n, cs, k);
      ArgumentReaches(s.g, n, k, s.variable);
    }
  }

  lemma {:induction false} NewIsTidy(s: Setting, nodes: Graph, nodes': Graph, n: nat, op: Op, cs: seq<CG>)
    requires TidyOperands(s, nodes, n, cs) && IsGraph(nodes') && nodes' == nodes + [Operator(op, cs)]
    ensures Tidy(s, nodes', n, Operation(|nodes|))
  {
    hide Reaches, Kind, CGReaches, Setting.Valid, Splitless;
    forall x: nat | CGReaches(nodes', Operation(|nodes|), x) && Reaches(nodes', x, s.variable)
      ensures Kind(s, nodes', x)
    {
      NewKind(s, nodes, nodes', n, op, cs, x);
    }
    if CGReaches(nodes', Operation(|nodes|), s.variable) {
      NewLeads(s, nodes, nodes', n, op, cs);
    }
  }

  lemma {:induction false} NewLeads(s: Setting, nodes: Graph, nodes': Graph, n: nat, op: Op, cs: seq<CG>)
    requires TidyOperands(s, nodes, n, cs) && IsGraph(nodes') && nodes' == nodes + [Operator(op, cs)]
    requires CGReaches(nodes', Operation(|nodes|), s.variable)
    ensures Reaches(s.g, n, s.variable)
    ensures exists k: nat :: k < |cs| && CGReaches(nodes, cs[k], s.variable)
  {
    hide Setting.Valid, Splitless, Below, TidyOperand;
    FromNewNode(nodes, nodes', op, cs, s.variable);
    var k :| 0 <= k < |cs| && CGReaches(nodes', cs[k], s.variable);
    CGReachesKept(nodes, nodes', cs[k], s.variable);
    OperandLeads(s, nodes, n, cs, k);
    ArgumentReaches(s.g, n, k, s.variable);
  }

  lemma {:induction false} NewKind(s: Setting, nodes: Graph, nodes': Graph, n: nat, op: Op, cs: seq<CG>, x: nat)
    requires TidyOperands(s, nodes, n, cs) && IsGraph(nodes') && nodes' == nodes + [Operator(op, cs)]
    requires CGReaches(nodes', Operation(|nodes|), x) && Reaches(nodes', x, s.variable)
    ensures Kind(s, nodes', x)
  {
    hide Setting.Valid, Splitless, Below;
    if x == |nodes| {
      if s.mode.OnPaths? {
        NewLeads(s, nodes, nodes', n, op, cs);
        var k: nat :| k < |cs| && CGReaches(nodes, cs[k], s.variable);
        CleanOperand(s, nodes, n, cs, k, cs[k].node);
      }
    } else {
      FromNewNode(nodes, nodes', op, cs, x);
      var k :| 0 <= k < |cs| && CGReaches(nodes', cs[k], x);
      CGReachesKept(nodes, nodes', cs[k], x);
      ReachedInRange(nodes, cs[k], x);
      ReachesKept(nodes, nodes', x, s.variable);
      CleanOperand(s, nodes, n, cs, k, x);
      AllSlotsKept(nodes, nodes', x, s.variable);
    }
  }

  lemma {:induction false} CleanOperand(s: Setting, nodes: Graph, n: nat, cs: seq<CG>, k: nat, x: nat)
    requires TidyOperands(s, nodes, n, cs) && k < |cs| && CGReaches(nodes, cs[k], x) && Reaches(nodes, x, s.variable)
    ensures Kind(s, nodes, x)
  {
    hide Setting.Valid, Splitless, Reaches, Kind;
    assert TidyOperand(s, nodes, s.g[n].args[k], cs[k]);
  }

  /** A clone splits no more often than the original. */
  lemma {:induction false} CloneSplits(s: Setting, nodes: Graph, nodes': Graph, n: nat, op: Op, cs: seq<CG>)
    requires TidyOperands(s, nodes, n, cs) && IsGraph(nodes') && nodes' == nodes + [Operator(op, cs)]
    ensures Extra(nodes', |nodes|, s.variable) <= Extra(s.g, n, s.variable)
  {
    hide Setting.Valid, Splitless, Reaches, TidyOperand;
    forall k: nat {:trigger LeadsTo(nodes', |nodes|, k, s.variable)} | k < |cs| &&
             LeadsTo(nodes', |nodes|, k, s.variable)
      ensures LeadsTo(s.g, n, k, s.variable)
    {
      CGReachesKept(nodes, nodes', cs[k], s.variable);
      OperandLeads(s, nodes, n, cs, k);
    }
    FewerSlots(s.g, n, nodes', |nodes|, s.variable, |cs|);
  }

  // ---------------------------------------------------------------------------------------------
  // The bifurcations of the clones

  /** What a node may contribute when it is cloned. */
  ghost function Share(s: Setting, n: nat): nat
  {
    if s.mode.OnGraph? && IsGraph(s.original)
      && n < |s.original| then ExtraAbove(s.original, s.mode.root, s.target, s.variable, n) else 0
  }

  ghost function Shares(s: Setting, done: set<nat>): nat
  {
    if s.mode.OnGraph? && IsGraph(s.original) then Allowed(s.original, s.mode.root, s.target, s.variable, done,
                                                           |s.original|) else 0
  }

  /** The new nodes have no more bifurcations than the nodes evaluated so far, and node `current`, account for. */
  ghost predicate Ledger(s: Setting, nodes: Graph, done: set<nat>, more: nat) {
    && Accounted(s) && IsGraph(nodes) && s.g <= nodes
    && (s.mode.OnGraph? ==> FreshExtra(nodes, s.variable, |s.g|, |nodes|) <= Shares(s, done) + more)
  }

  lemma {:induction false} LedgerStart(s: Setting, nodes: Graph)
    requires Accounted(s) && IsGraph(nodes) && s.g <= nodes && (s.mode.OnGraph? ==> nodes == s.g)
    ensures Ledger(s, nodes, {}, 0)
  {
    OriginalIsGraph(s);
    hide Setting.Valid, Splitless;
  }

  lemma {:induction false} LedgerDone(s: Setting, nodes: Graph, done: set<nat>, n: nat)
    requires Ledger(s, nodes, done, Share(s, n)) && n !in done
    ensures Ledger(s, nodes, done + {n}, 0)
  {
    hide Setting.Valid, Splitless, ExtraAbove;
    if s.mode.OnGraph? {
      AllowedNext(s.original, s.mode.root, s.target, s.variable, done, n, |s.original|);
    }
  }

  lemma {:induction false} LedgerMore(s: Setting, nodes: Graph, done: set<nat>, n: nat)
    requires Ledger(s, nodes, done, 0)
    ensures Ledger(s, nodes, done, Share(s, n))
  {
    hide Accounted, FreshExtra, Shares, Share;
  }

  lemma {:induction false} OriginalIsGraph(s: Setting)
    requires Accounted(s)
    ensures IsGraph(s.original) && IsGraph(s.g) && s.Valid()
  {}

  /** One operation is cloned. */
  lemma {:induction false} LedgerMade(s: Setting, nodes: Graph, nodes': Graph, done: set<nat>, stack: Path, n: nat,
                                      op: Op, cs: seq<CG>, r: CG)
    requires Ledger(s, nodes, done, 0) && TidyOperands(s, nodes, n, cs) && IsGraph(nodes')
    requires Made(nodes, nodes', op, cs, r)
    requires IsGraph(s.g) && s.Tracked(stack, n) && s.Cloning(stack, n)
    ensures Ledger(s, nodes', done, Share(s, n))
  {
    hide *;
    LedgerMore(s, nodes, done, n);
    MadeOne(nodes, nodes', op, cs, r);
    if nodes' != nodes {
      if s.mode.OnGraph? {
        LedgerParts(s, nodes, done, 0);
        CloneSplits(s, nodes, nodes', n, op, cs);
        ClonedShare(s, stack, n);
        FreshExtraKept(nodes, nodes', s.variable, |s.g|, |nodes|);
        FreshExtraNext(nodes', s.variable, |s.g|, |nodes|);
      }
      LedgerWhole(s, nodes, nodes', done, Share(s, n));
    }
  }

  lemma {:induction false} MadeOne(g: Graph, g': Graph, op: Op, args: seq<CG>, r: CG)
    requires Made(g, g', op, args, r)
    ensures g' == g || g' == g + [Operator(op, args)]
  {}

  lemma {:induction false} LedgerParts(s: Setting, nodes: Graph, done: set<nat>, more: nat)
    requires Ledger(s, nodes, done, more)
    ensures Accounted(s) && IsGraph(nodes) && s.g <= nodes && IsGraph(s.original) && IsGraph(s.g)
    ensures s.mode.OnGraph? ==> FreshExtra(nodes, s.variable, |s.g|, |nodes|) <= Shares(s, done) + more
  {
    OriginalIsGraph(s);
    hide Accounted, FreshExtra, Shares;
  }

  lemma {:induction false} FreshExtraNext(g: Graph, target: nat, start: nat, limit: nat)
    requires IsGraph(g) && start <= limit < |g|
    ensures FreshExtra(g, target, start, limit + 1) == FreshExtra(g, target, start, limit) + Extra(g, limit, target)
  {}

  lemma {:induction false} LedgerWhole(s: Setting, nodes: Graph, nodes': Graph, done: set<nat>, more: nat)
    requires Ledger(s, nodes, done, more) && IsGraph(nodes') && nodes <= nodes'
    requires s.mode.OnGraph? ==> FreshExtra(nodes', s.variable, |s.g|, |nodes'|) <= Shares(s, done) + more
    ensures Ledger(s, nodes', done, more)
  {
    hide Accounted, FreshExtra, Shares;
  }

  lemma {:induction false} ClonedShare(s: Setting, stack: Path, n: nat)
    requires Accounted(s) && s.mode.OnGraph? && s.Tracked(stack, n) && s.Cloning(stack, n)
    ensures n < |s.g| && Extra(s.g, n, s.variable) == Share(s, n)
  {
    hide Splitless, Below, Extra;
    var root := s.mode.root;
    assert Reaches(s.g, root, n) && Reaches(s.g, n, s.target);
    ReachesIsOlder(s.g, root, n);
    ReachesKept(s.original, s.g, root, n);
    ReachesKept(s.original, s.g, n, s.target);
    AllSlotsKept(s.original, s.g, n, s.variable);
  }

  // ---------------------------------------------------------------------------------------------
  // The whole expression

  /** Replacing the split below the expression leaves fewer bifurcations. */
  lemma {:induction false} ReplacedExpression(s: Setting, nodes: Graph, done: set<nat>, r: CG)
    requires Ledger(s, nodes, done, 0) && s.mode.OnGraph? && r.Operation? && r.node < |nodes|
    requires Tidy(s, nodes, s.mode.root, r)
    requires Reaches(s.original, s.mode.root, s.target) && s.target != s.variable
    requires Extra(s.original, s.target, s.variable) > 0
    ensures Bifurcations(nodes, r.node, s.variable) < Bifurcations(s.original, s.mode.root, s.variable)
  {
    hide Setting.Valid, Splitless, Reaches, Extra, AllSlots;
    forall n: nat {:trigger OnWay(nodes, r.node, s.variable, n)} | n < |nodes| && OnWay(nodes, r.node, s.variable, n)
      ensures n < |s.original| ==> OnWay(s.original, s.mode.root, s.variable, n) && !Reaches(s.original, n, s.target)
      ensures |s.original| <= n < |s.g| ==> Extra(nodes, n, s.variable) == 0
    {
      assert CGReaches(nodes, r, n) && Kind(s, nodes, n);
      if n < |s.original| {
        ReachesKept(s.original, nodes, n, s.variable);
      }
    }
    assert Replaced(s.original, s.mode.root, s.target, s.g, nodes, r.node, s.variable);
    FewerBifurcations(s.original, s.mode.root, s.target, s.g, nodes, r.node, s.variable);
  }
}
