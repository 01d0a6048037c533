/**
  Variables of the code generator and their operators.  An operator records an operation node only
  when neither operand makes the operation unnecessary.
 */
module Arithmetic {
  import opened OperationGraph

  /** A variable is a constant or the result of a managed node, like the argument of a node. */
  type CG = Arg

  ghost predicate IsArithmetic(f: Semantics) {
    && (forall a: real, b: real {:trigger f(Add, [a, b])} :: f(Add, [a, b]) == a + b)
    && (forall a: real, b: real {:trigger f(Sub, [a, b])} :: f(Sub, [a, b]) == a - b)
    && (forall a: real, b: real {:trigger f(Mul, [a, b])} :: f(Mul, [a, b]) == a * b)
    && (forall a: real, b: real {:trigger f(Div, [a, b])} :: b != 0.0 ==> f(Div, [a, b]) == a / b)
    && (forall a: real {:trigger f(UnMinus, [a])} :: f(UnMinus, [a]) == -a)
    && (forall a: real {:trigger f(Alias, [a])} :: f(Alias, [a]) == a)
    && (forall a: real {:trigger f(Exp, [a])} :: f(Exp, [a]) > 0.0 && f(Log, [f(Exp, [a])]) == a)
    && (forall a: real {:trigger f(Log, [a])} :: a > 0.0 ==> f(Exp, [f(Log, [a])]) == a)
  }

  /** The number of operands that an operation takes. */
  predicate TakesOperands(op: Op, k: nat) {
    match op
    case Add | Sub | Mul | Div => k == 2
    case UnMinus | Alias | Exp | Log => k == 1
    case Other(_) => true
  }

  ghost predicate WellShaped(g: Graph) {
    forall n :: 0 <= n < |g| && g[n].Operator? ==> TakesOperands(g[n].op, |g[n].args|)
  }

  ghost predicate IsCG(g: Graph, c: CG) {
    c.Operation? ==> c.node < |g|
  }

  ghost function CGValue(g: Graph, w: World, c: CG): real
    requires IsGraph(g) && IsCG(g, c)
  {
    match c
    case Parameter(v) => v
    case Operation(n) => Value(g, w, n)
  }

  /** A world for the operations f that prescribes the values of nodes below n only. */
  ghost predicate Fits(w: World, f: Semantics, n: nat) {
    w.f == f && forall k :: k in w.over ==> k < n
  }

  lemma {:induction false} ValuesAre(g: Graph, w: World, n: nat)
    requires IsGraph(g) && n < |g| && g[n].Operator?
    ensures forall k :: 0 <= k < |g[n].args| ==> IsCG(g, g[n].args[k])
    ensures |g[n].args| == 1 ==> Values(g, w, n, 1) == [CGValue(g, w, g[n].args[0])]
    ensures |g[n].args| == 2 ==> Values(g, w, n, 2) == [CGValue(g, w, g[n].args[0]), CGValue(g, w, g[n].args[1])]
  {
    assert Values(g, w, n, 0) == [];
    if |g[n].args| == 1 {
      assert Values(g, w, n, 1) == Values(g, w, n, 0) + [CGValue(g, w, g[n].args[0])];
    } else if |g[n].args| == 2 {
      assert Values(g, w, n, 1) == Values(g, w, n, 0) + [CGValue(g, w, g[n].args[0])];
      assert Values(g, w, n, 2) == Values(g, w, n, 1) + [CGValue(g, w, g[n].args[1])];
    }
  }

  /** New nodes do not change the values of old ones. */
  lemma {:induction false} ValueKept(g: Graph, g': Graph, w: World, n: nat)
    requires IsGraph(g) && IsGraph(g') && g <= g' && n < |g|
    ensures Value(g', w, n) == Value(g, w, n)
    decreases n, 1, 0
  {
    if g[n].Operator? {
      ValuesKept(g, g', w, n, |g[n].args|);
    }
  }

  lemma {:induction false} ValuesKept(g: Graph, g': Graph, w: World, n: nat, k: nat)
    requires IsGraph(g) && IsGraph(g') && g <= g' && n < |g| && g[n].Operator? && k <= |g[n].args|
    ensures Values(g', w, n, k) == Values(g, w, n, k)
    decreases n, 0, k
  {
    if k > 0 {
      ValuesKept(g, g', w, n, k - 1);
      if g[n].args[k - 1].Operation? {
        ValueKept(g, g', w, g[n].args[k - 1].node);
      }
    }
  }

  lemma {:induction false} CGValueKept(g: Graph, g': Graph, w: World, c: CG)
    requires IsGraph(g) && IsGraph(g') && g <= g' && IsCG(g, c)
    ensures CGValue(g', w, c) == CGValue(g, w, c)
  {
    if c.Operation? {
      ValueKept(g, g', w, c.node);
    }
  }

  /** r is the result of a binary operation in every world in which no divisor is zero. */
  ghost predicate Computes(g: Graph, f: Semantics, n: nat, op: Op, r: CG, a: CG, b: CG)
    requires IsGraph(g) && IsCG(g, r) && IsCG(g, a) && IsCG(g, b)
  {
    forall w: World {:trigger CGValue(g, w, r)} :: Fits(w, f, n) && (op == Div ==> CGValue(g, w, b) != 0.0) ==>
      CGValue(g, w, r) == f(op, [CGValue(g, w, a), CGValue(g, w, b)])
  }

  ghost predicate ComputesUnary(g: Graph, f: Semantics, n: nat, op: Op, r: CG, a: CG)
    requires IsGraph(g) && IsCG(g, r) && IsCG(g, a)
  {
    forall w: World {:trigger CGValue(g, w, r)} :: Fits(w, f, n) ==> CGValue(g, w, r) == f(op, [CGValue(g, w, a)])
  }

  ghost function CGValues(g: Graph, w: World, args: seq<CG>): (r: seq<real>)
    requires IsGraph(g) && forall k :: 0 <= k < |args| ==> IsCG(g, args[k])
    ensures |r| == |args|
  {
    if args == [] then [] else CGValues(g, w, args[..|args| - 1]) + [CGValue(g, w, args[|args| - 1])]
  }

  lemma {:induction false} ValuesAreCGValues(g: Graph, w: World, n: nat, k: nat)
    requires IsGraph(g) && n < |g| && g[n].Operator? && k <= |g[n].args|
    requires forall i :: 0 <= i < |g[n].args| ==> IsCG(g, g[n].args[i])
    ensures Values(g, w, n, k) == CGValues(g, w, g[n].args[..k])
  {
    if k > 0 {
      ValuesAreCGValues(g, w, n, k - 1);
      assert g[n].args[..k][..k - 1] == g[n].args[..k - 1];
    }
  }

  ghost predicate ComputesAll(g: Graph, f: Semantics, n: nat, op: Op, r: CG, args: seq<CG>)
    requires IsGraph(g) && IsCG(g, r) && forall k :: 0 <= k < |args| ==> IsCG(g, args[k])
  {
    forall w: World {:trigger CGValue(g, w, r)} :: Fits(w, f, n) ==> CGValue(g, w, r) == f(op, CGValues(g, w, args))
  }

  /** r is a constant, one of the operands, or a new node for the operation. */
  ghost predicate Made(g: Graph, g': Graph, op: Op, args: seq<CG>, r: CG) {
    (g' == g && (r.Parameter? || r in args)) || (g' == g + [Operator(op, args)] && r == Operation(|g|))
  }

  predicate Zero(c: CG) {
    c == Parameter(0.0)
  }

  predicate One(c: CG) {
    c == Parameter(1.0)
  }

  /** The part of a code handler that manages nodes. */
  class NodeManager {
    const f: Semantics
    var nodes: Graph

    ghost predicate Valid()
      reads this
    {
      IsGraph(nodes) && WellShaped(nodes) && IsArithmetic(f)
    }

    constructor (f: Semantics, nodes: Graph)
      requires IsGraph(nodes) && WellShaped(nodes) && IsArithmetic(f)
      ensures Valid() && this.f == f && this.nodes == nodes
    {
      this.f, this.nodes := f, nodes;
    }

    method MakeNode(op: Op, a: CG, b: CG) returns (r: CG)
      requires Valid() && IsCG(nodes, a) && IsCG(nodes, b) && TakesOperands(op, 2)
      modifies this
      ensures Valid() && nodes == old(nodes) + [Operator(op, [a, b])] && r == Operation(|old(nodes)|)
      ensures Computes(nodes, f, |old(nodes)|, op, r, a, b)
    {
      ghost var g := nodes;
      r := Operation(|nodes|);
      nodes := nodes + [Operator(op, [a, b])];
      hide IsArithmetic;
      forall w: World | Fits(w, f, |g|)
        ensures CGValue(nodes, w, r) == f(op, [CGValue(nodes, w, a), CGValue(nodes, w, b)])
      {
        ValuesAre(nodes, w, |g|);
      }
    }

    method MakeUnaryNode(op: Op, a: CG) returns (r: CG)
      requires Valid() && IsCG(nodes, a) && TakesOperands(op, 1)
      modifies this
      ensures Valid() && nodes == old(nodes) + [Operator(op, [a])] && r == Operation(|old(nodes)|)
      ensures ComputesUnary(nodes, f, |old(nodes)|, op, r, a)
    {
      ghost var g := nodes;
      r := Operation(|nodes|);
      nodes := nodes + [Operator(op, [a])];
      hide IsArithmetic;
      forall w: World | Fits(w, f, |g|)
        ensures CGValue(nodes, w, r) == f(op, [CGValue(nodes, w, a)])
      {
        ValuesAre(nodes, w, |g|);
      }
    }

    /** A node for an operation with any number of operands. */
    method MakeNodeOf(op: Op, args: seq<CG>) returns (r: CG)
      requires Valid() && (forall k :: 0 <= k < |args| ==> IsCG(nodes, args[k])) && TakesOperands(op, |args|)
      modifies this
      ensures Valid() && old(nodes) <= nodes && IsCG(nodes, r) && forall k :: 0 <= k < |args| ==> IsCG(nodes, args[k])
      ensures ComputesAll(nodes, f, |old(nodes)|, op, r, args)
      ensures nodes == old(nodes) + [Operator(op, args)] && r == Operation(|old(nodes)|)
    {
      ghost var g := nodes;
      r := Operation(|nodes|);
      nodes := nodes + [Operator(op, args)];
      hide IsArithmetic;
      forall w: World | Fits(w, f, |g|)
        ensures CGValue(nodes, w, r) == f(op, CGValues(nodes, w, args))
      {
        ValuesAreCGValues(nodes, w, |g|, |args|);
        assert args[..|args|] == args;
      }
    }

    /** `operator+` and `operator+=`. */
    method Plus(left: CG, right: CG) returns (r: CG)
      requires Valid() && IsCG(nodes, left) && IsCG(nodes, right)
      modifies this
      ensures Valid() && old(nodes) <= nodes && IsCG(nodes, r)
      ensures Computes(nodes, f, |old(nodes)|, Add, r, left, right) && Made(old(nodes), nodes, Add, [left, right], r)
      ensures Zero(left) || Zero(right) || (left.Parameter? && right.Parameter?) ==> nodes == old(nodes)
      ensures !(Zero(left) || Zero(right) || (left.Parameter? && right.Parameter?)) ==>
        r == Operation(|old(nodes)|) && nodes == old(nodes) + [Operator(Add, [left, right])]
    {
      if left.Parameter? && right.Parameter? {
        r := Parameter(left.value + right.value);
      } else if left.Parameter? && left.value == 0.0 {
        r := right;
      } else if right.Parameter? && right.value == 0.0 {
        r := left;
      } else {
        r := MakeNode(Add, left, right);
      }
    }

    /** `operator-` and `operator-=`. */
    method Minus(left: CG, right: CG) returns (r: CG)
      requires Valid() && IsCG(nodes, left) && IsCG(nodes, right)
      modifies this
      ensures Valid() && old(nodes) <= nodes && IsCG(nodes, r)
      ensures Computes(nodes, f, |old(nodes)|, Sub, r, left, right) && Made(old(nodes), nodes, Sub, [left, right], r)
      ensures Zero(right) || (left.Parameter? && right.Parameter?) ==> nodes == old(nodes)
      ensures !(Zero(right) || (left.Parameter? && right.Parameter?)) ==>
        r == Operation(|old(nodes)|) && nodes == old(nodes) + [Operator(Sub, [left, right])]
    {
      if left.Parameter? && right.Parameter? {
        r := Parameter(left.value - right.value);
      } else if right.Parameter? && right.value == 0.0 {
        r := left;
      } else {
        r := MakeNode(Sub, left, right);
      }
    }

    /** `operator*` and `operator*=`. */
    method Times(left: CG, right: CG) returns (r: CG)
      requires Valid() && IsCG(nodes, left) && IsCG(nodes, right)
      modifies this
      ensures Valid() && old(nodes) <= nodes && IsCG(nodes, r)
      ensures Computes(nodes, f, |old(nodes)|, Mul, r, left, right) && Made(old(nodes), nodes, Mul, [left, right], r)
      ensures Zero(left) || Zero(right) || One(left) || One(right) || (left.Parameter? && right.Parameter?) ==>
        nodes == old(nodes)
      ensures !(Zero(left) || Zero(right) || One(left) || One(right) || (left.Parameter? && right.Parameter?)) ==>
        r == Operation(|old(nodes)|) && nodes == old(nodes) + [Operator(Mul, [left, right])]
    {
      if left.Parameter? && right.Parameter? {
        r := Parameter(left.value * right.value);
      } else if left.Parameter? && left.value == 0.0 {
        r := Parameter(0.0);
      } else if left.Parameter? && left.value == 1.0 {
        r := right;
      } else if right.Parameter? && right.value == 0.0 {
        r := Parameter(0.0);
      } else if right.Parameter? && right.value == 1.0 {
        r := left;
      } else {
        r := MakeNode(Mul, left, right);
      }
    }

    /** `operator/=`. */
    method DivideBy(left: CG, right: CG) returns (r: CG)
      requires Valid() && IsCG(nodes, left) && IsCG(nodes, right)
      modifies this
      ensures Valid() && old(nodes) <= nodes && IsCG(nodes, r)
      ensures Computes(nodes, f, |old(nodes)|, Div, r, left, right) && Made(old(nodes), nodes, Div, [left, right], r)
      ensures Zero(left) || One(right) || (left.Parameter? && right.Parameter?) ==> nodes == old(nodes)
      ensures !(Zero(left) || One(right) || (left.Parameter? && right.Parameter?)) ==>
        r == Operation(|old(nodes)|) && nodes == old(nodes) + [Operator(Div, [left, right])]
    {
      if left.Parameter? && right.Parameter? {
        r := Parameter(Quotient(left.value, right.value));
      } else if left.Parameter? && left.value == 0.0 {
        r := left;
      } else if right.Parameter? && right.value == 1.0 {
        r := left;
      } else {
        r := MakeNode(Div, left, right);
      }
    }

    /** `operator/`, which knows more: the quotient of a variable and itself is one. */
    method Over(left: CG, right: CG) returns (r: CG)
      requires Valid() && IsCG(nodes, left) && IsCG(nodes, right)
      modifies this
      ensures Valid() && old(nodes) <= nodes && IsCG(nodes, r)
      ensures Computes(nodes, f, |old(nodes)|, Div, r, left, right) && Made(old(nodes), nodes, Div, [left, right], r)
      ensures Zero(left) || One(right) || (left.Parameter? && right.Parameter?) || (left == right) ==>
        nodes == old(nodes)
      ensures !(Zero(left) || One(right) || (left.Parameter? && right.Parameter?) || (left == right)) ==>
        r == Operation(|old(nodes)|) && nodes == old(nodes) + [Operator(Div, [left, right])]
    {
      if left.Operation? && right.Operation? && left.node == right.node {
        r := Parameter(1.0);
      } else {
        r := DivideBy(left, right);
      }
    }

    method Negate(c: CG) returns (r: CG)
      requires Valid() && IsCG(nodes, c)
      modifies this
      ensures Valid() && old(nodes) <= nodes && IsCG(nodes, r)
      ensures ComputesUnary(nodes, f, |old(nodes)|, UnMinus, r, c) && Made(old(nodes), nodes, UnMinus, [c], r)
      ensures c.Parameter? <==> nodes == old(nodes)
    {
      if c.Parameter? {
        r := Parameter(-c.value);
      } else {
        r := MakeUnaryNode(UnMinus, c);
      }
    }

    /** A function of one variable, such as `exp` or `log`. */
    method Call(op: Op, c: CG) returns (r: CG)
      requires Valid() && IsCG(nodes, c) && TakesOperands(op, 1)
      modifies this
      ensures Valid() && old(nodes) <= nodes && IsCG(nodes, r)
      ensures ComputesUnary(nodes, f, |old(nodes)|, op, r, c) && Made(old(nodes), nodes, op, [c], r)
      ensures c.Parameter? <==> nodes == old(nodes)
    {
      if c.Parameter? {
        r := Parameter(f(op, [c.value]));
      } else {
        r := MakeUnaryNode(op, c);
      }
    }
  }

  /** The quotient of two constants; division by zero stands for the infinities of the base type. */
  function Quotient(a: real, b: real): real {
    if b == 0.0 then 0.0 else a / b
  }
}
