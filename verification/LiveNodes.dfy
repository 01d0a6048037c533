/** What has to be computed, and how often it is used. */
module LiveNodes {
  import opened OperationGraph

  /** Node n is a dependent, or an argument of a live node: it has to be computed. */
  ghost predicate Live(g: Graph, dependents: seq<nat>, n: nat)
    decreases |g| - n
  {
    && n < |g|
    && (n in dependents || exists u: nat {:trigger HasArg(g, u, n)} ::
          n < u < |g| && HasArg(g, u, n) && Live(g, dependents, u))
  }

  lemma {:induction false} LiveArg(g: Graph, dependents: seq<nat>, u: nat, a: nat)
    requires IsGraph(g) && u < |g| && HasArg(g, u, a) && Live(g, dependents, u)
    ensures a < u && Live(g, dependents, a)
  {
    ArgIsOlder(g, u, a);
  }

  lemma {:induction false} BelowIsLive(g: Graph, dependents: seq<nat>, n: nat, d: nat)
    requires IsGraph(g) && n < |g| && Live(g, dependents, n) && Below(g, n, d)
    ensures Live(g, dependents, d)
  {
    var a: nat :| a < n && HasArg(g, n, a) && (a == d || Below(g, a, d));
    LiveArg(g, dependents, n, a);
    if a != d {
      BelowIsLive(g, dependents, a, d);
    }
  }

  lemma {:induction false} LiveLeads(g: Graph, dependents: seq<nat>, a: nat, n: nat)
    requires IsGraph(g) && a < |g| && Live(g, dependents, a) && Leads(g, a, n)
    ensures Live(g, dependents, n)
  {
    if a != n {
      LiveArg(g, dependents, a, Target(g, a));
      LiveLeads(g, dependents, Target(g, a), n);
    }
  }

  /** A use of a node: as dependent number i, or as argument k of node u. */
  datatype Use = Dependent(i: nat) | Argument(u: nat, k: nat)

  /** The node that is used, by whatever name. */
  ghost predicate Names(g: Graph, dependents: seq<nat>, use: Use, n: nat)
    requires IsGraph(g)
  {
    match use
    case Dependent(i) => i < |dependents| && dependents[i] < |g| && Leads(g, dependents[i], n)
    case Argument(u, k) =>
      && u < |g| && g[u].Operator? && !IsAlias(g, u) && k < |g[u].args| && g[u].args[k].Operation?
      && Leads(g, g[u].args[k].node, n)
  }

  /** The uses of n, by itself or by a name of it: as a dependent, and by the operations that have to be computed. */
  ghost function LiveUses(g: Graph, dependents: seq<nat>, n: nat): set<Use>
    requires IsGraph(g)
  {
    (set i | 0 <= i < |dependents| && Names(g, dependents, Dependent(i), n) :: Dependent(i)) +
    (set u, k | 0 <= u < |g| && g[u].Operator? && 0 <= k < |g[u].args| && Names(g, dependents, Argument(u, k), n)
      && Live(g, dependents, u) ::
      Argument(u, k))
  }

  lemma {:induction false} IsLiveUse(g: Graph, dependents: seq<nat>, n: nat, use: Use)
    requires IsGraph(g)
    ensures use in LiveUses(g, dependents, n) <==>
      Names(g, dependents, use, n) && (use.Argument? ==> Live(g, dependents, use.u))
  {}

  lemma {:induction false} NamesDown(g: Graph, dependents: seq<nat>, n: nat, use: Use)
    requires IsGraph(g) && n < |g| && Names(g, dependents, use, n)
    ensures IsAlias(g, n) ==> Names(g, dependents, use, Target(g, n))
  {
    var a := if use.Dependent? then dependents[use.i] else g[use.u].args[use.k].node;
    LeadsDown(g, a, n);
  }

  /** What uses a name uses the node that it names. */
  lemma {:induction false} AliasUses(g: Graph, dependents: seq<nat>, n: nat)
    requires IsGraph(g) && n < |g| && IsAlias(g, n)
    ensures LiveUses(g, dependents, n) <= LiveUses(g, dependents, Target(g, n))
  {
    forall use | use in LiveUses(g, dependents, n)
      ensures use in LiveUses(g, dependents, Target(g, n))
    {
      IsLiveUse(g, dependents, n, use);
      NamesDown(g, dependents, n, use);
      IsLiveUse(g, dependents, Target(g, n), use);
    }
  }

  /** Use `use` of the node of f comes by way of f. */
  ghost predicate Carries(g: Graph, dependents: seq<nat>, f: Frame, use: Use)
    requires IsGraph(g) && IsFrame(g, f)
  {
    if IsAlias(g, f.parent) then Names(g, dependents, use, f.parent) else use == Argument(f.parent, f.arg)
  }

  /** Every use of n comes by way of one argument at most, and if n is used as a dependent, by none. */
  lemma {:induction false} CarriedOnce(g: Graph, dependents: seq<nat>, f: Frame, h: Frame, use: Use)
    requires IsGraph(g) && IsFrame(g, f) && Carries(g, dependents, f, use)
    ensures use.Dependent? ==> use.i < |dependents| && dependents[use.i] != FrameNode(g, f)
    ensures IsFrame(g, h) && Carries(g, dependents, h, use) && FrameNode(g, f) == FrameNode(g, h) ==>
      f.parent == h.parent && f.arg == h.arg
  {
    var n := FrameNode(g, f);
    ArgIsOlder(g, f.parent, n);
    if IsAlias(g, f.parent) {
      var a := if use.Dependent? then dependents[use.i] else g[use.u].args[use.k].node;
      LeadsDown(g, a, f.parent);
      if IsFrame(g, h) && Carries(g, dependents, h, use) && FrameNode(g, h) == n && IsAlias(g, h.parent) {
        LeadsOnce(g, a, f.parent, h.parent);
      }
    } else if IsFrame(g, h) && Carries(g, dependents, h, use) && FrameNode(g, h) == n && IsAlias(g, h.parent) {
      LeadsDown(g, n, h.parent);
      assert false;
    }
  }

  /** Whatever is live is used, and every argument of a live node carries a use. */
  lemma {:induction false} LiveIsUsed(g: Graph, dependents: seq<nat>, n: nat) returns (use: Use)
    requires IsGraph(g) && Live(g, dependents, n)
    ensures use in LiveUses(g, dependents, n)
    decreases |g| - n, 0
  {
    if n in dependents {
      var i: nat :| i < |dependents| && dependents[i] == n;
      use := Dependent(i);
    } else {
      var u: nat :| n < u < |g| && HasArg(g, u, n) && Live(g, dependents, u);
      var k: nat :| k < |g[u].args| && g[u].args[k] == Operation(n);
      use := FrameCarries(g, dependents, Frame(u, k, Analyze));
    }
    IsLiveUse(g, dependents, n, use);
  }

  lemma {:induction false} FrameCarries(g: Graph, dependents: seq<nat>, f: Frame) returns (use: Use)
    requires IsGraph(g) && IsFrame(g, f) && Live(g, dependents, f.parent)
    ensures Carries(g, dependents, f, use) && use in LiveUses(g, dependents, FrameNode(g, f))
    decreases |g| - f.parent, 1
  {
    var n := FrameNode(g, f);
    ArgIsOlder(g, f.parent, n);
    if IsAlias(g, f.parent) {
      use := LiveIsUsed(g, dependents, f.parent);
      IsLiveUse(g, dependents, f.parent, use);
      AliasUses(g, dependents, f.parent);
    } else {
      use := Argument(f.parent, f.arg);
      IsLiveUse(g, dependents, n, use);
    }
  }

  lemma {:induction false} TwoUses(s: set<Use>, x: Use, y: Use)
    requires x in s && y in s && x != y
    ensures |s| > 1
  {
    assert |s - {x}| == |s| - 1 && y in s - {x};
  }

  /** Node n is used at most once, by whatever name. */
  ghost predicate Single(g: Graph, dependents: seq<nat>, n: nat)
    requires IsGraph(g)
  {
    |LiveUses(g, dependents, n)| <= 1
  }

  /** A node used once is an argument once, unless it is a dependent. */
  lemma {:induction false} SingleFrame(g: Graph, dependents: seq<nat>, f: Frame, h: Frame)
    requires IsGraph(g) && IsFrame(g, f) && Live(g, dependents, f.parent) && Single(g, dependents, FrameNode(g, f))
    ensures FrameNode(g, f) !in dependents
    ensures IsFrame(g, h) && Live(g, dependents, h.parent) && FrameNode(g, f) == FrameNode(g, h) ==>
      f.parent == h.parent && f.arg == h.arg
  {
    var n := FrameNode(g, f);
    var use := FrameCarries(g, dependents, f);
    CarriedOnce(g, dependents, f, h, use);
    if n in dependents {
      var i: nat :| i < |dependents| && dependents[i] == n;
      ArgIsOlder(g, f.parent, n);
      IsLiveUse(g, dependents, n, Dependent(i));
      TwoUses(LiveUses(g, dependents, n), use, Dependent(i));
    }
    if IsFrame(g, h) && Live(g, dependents, h.parent) && n == FrameNode(g, h) {
      var other := FrameCarries(g, dependents, h);
      if use != other {
        TwoUses(LiveUses(g, dependents, n), use, other);
      }
    }
  }

  lemma {:induction false} SingleUser(g: Graph, dependents: seq<nat>, u: nat, w: nat, a: nat)
    requires IsGraph(g) && u < |g| && HasArg(g, u, a) && Live(g, dependents, u) && Single(g, dependents, a)
    requires w < |g| && HasArg(g, w, a) && Live(g, dependents, w)
    ensures u == w && a !in dependents
  {
    var k: nat :| k < |g[u].args| && g[u].args[k] == Operation(a);
    var l: nat :| l < |g[w].args| && g[w].args[l] == Operation(a);
    SingleFrame(g, dependents, Frame(u, k, Analyze), Frame(w, l, Analyze));
  }

  /** The names of a node that is used once are used once. */
  lemma {:induction false} SingleName(g: Graph, dependents: seq<nat>, u: nat)
    requires IsGraph(g) && u < |g| && IsAlias(g, u) && Single(g, dependents, Target(g, u))
    ensures Single(g, dependents, u)
  {
    AliasUses(g, dependents, u);
    SubsetSize(LiveUses(g, dependents, u), LiveUses(g, dependents, Target(g, u)));
  }

  lemma {:induction false} SubsetSize(s: set<Use>, t: set<Use>)
    requires s <= t
    ensures |s| <= |t|
  {
    assert t == s + (t - s);
  }
}
