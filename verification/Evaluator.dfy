/** The memoising evaluation of dependent variables for new values of the independent ones. */
module Evaluator {
  import opened Arithmetic
  import opened OperationGraph
  import opened PathGraph
  import opened Wrappers

  class EvaluatorOperations {
    const nodes: Graph
    const indepSize: nat
    const f: Semantics

    var indep: nat -> real
    var evals: map<nat, real>
    var path: Path
    var depth: nat
    var underEval: bool
    // the nodes in the order in which their operations were carried out
    ghost var evaluated: seq<nat>

    ghost predicate Valid()
      reads this
    {
      && IsGraph(nodes) && depth == |path|
      && (forall n :: n in evals ==> n < |nodes| && evals[n] == Value(nodes, Environment(), n))
      && (forall n :: n in evaluated <==> n in evals)
      && (forall i, j :: 0 <= i < j < |evaluated| ==> evaluated[i] != evaluated[j])
    }

    ghost function Environment(): World
      reads this
    {
      World(f, indep, map[])
    }

    constructor (nodes: Graph, indepSize: nat, f: Semantics)
      requires IsGraph(nodes)
      ensures Valid() && this.nodes == nodes && this.indepSize == indepSize && this.f == f && !underEval
    {
      this.nodes, this.indepSize, this.f := nodes, indepSize, f;
      indep, evals, path, depth, underEval, evaluated := (_: nat) => 0.0, map[], [], 0, false, [];
    }

    /** Results saved before are kept; new ones are for nodes before n. */
    twostate predicate Grew(n: nat)
      reads this
    {
      && indep == old(indep) && underEval == old(underEval)
      && (forall k :: k in old(evals) ==> k in evals)
      && (forall k :: k in evals && k !in old(evals) ==> k < n)
    }

    method EvalArg(node: nat, pos: nat) returns (r: real)
      requires Valid() && path != [] && node < |nodes| && nodes[node].Operator? && pos < |nodes[node].args|
      modifies this
      ensures Valid() && Grew(node) && |path| == old(|path|) && path[..|path| - 1] == old(path[..|path| - 1])
      ensures IsCG(nodes, nodes[node].args[pos]) && r == CGValue(nodes, Environment(), nodes[node].args[pos])
      decreases node, 0
    {
      var arg := nodes[node].args[pos];
      if arg.Operation? {
        path := path[|path| - 1 := path[|path| - 1].(argIndex := pos)];
        r := EvalOperations(arg.node);
      } else {
        r := arg.value;
      }
    }

    /** `evalOperations`: the operation of a node is carried out only if its result was not saved. */
    method EvalOperations(node: nat) returns (r: real)
      requires Valid() && node < |nodes|
      modifies this
      ensures Valid() && Grew(node + 1) && path == old(path) && depth == old(depth)
      ensures r == Value(nodes, Environment(), node)
      ensures node in evals
      decreases node, 2
    {
      if node in evals {
        return evals[node];
      }
      path := path + [PathNode(node, -1)];
      depth := depth + 1;
      r := EvalOperation(node);
      assert node !in evals;
      evals := evals[node := r];
      evaluated := evaluated + [node];
      depth := depth - 1;
      path := path[..|path| - 1];
    }

    method EvalOperation(node: nat) returns (r: real)
      requires Valid() && path != [] && node < |nodes|
      modifies this
      ensures Valid() && Grew(node) && |path| == old(|path|) && path[..|path| - 1] == old(path[..|path| - 1])
      ensures r == Value(nodes, Environment(), node)
      decreases node, 1
    {
      match nodes[node] {
        case Independent(index) =>
          r := indep(index);
        case Operator(op, args) =>
          var operands: seq<real> := [];
          for k := 0 to |args|
            invariant Valid() && Grew(node) && |path| == old(|path|) && path[..|path| - 1] == old(path[..|path| - 1])
            invariant operands == Values(nodes, Environment(), node, k)
          {
            var a := EvalArg(node, k);
            operands := operands + [a];
          }
          r := f(op, operands);
      }
    }

    /** `evaluate`: every dependent gets the value that its expression has for the new independents. */
    method Evaluate(indepNew: seq<real>, depOld: seq<CG>) returns (depNew: Result<seq<real>>)
      requires Valid() && forall i :: 0 <= i < |depOld| ==> IsCG(nodes, depOld[i])
      modifies this
      ensures Valid() && underEval == old(underEval)
      ensures depNew.Success? <==> |indepNew| == indepSize && !old(underEval)
      ensures depNew.Success? ==> path == [] && |depNew.value| == |depOld|
      ensures depNew.Success? ==> forall i :: 0 <= i < |depOld| ==>
        depNew.value[i] == CGValue(nodes, World(f, (j: nat) => if j < |indepNew| then indepNew[j] else 0.0, map[]),
                                   depOld[i])
    {
      if indepSize != |indepNew| {
        return Failure("Invalid independent variable size");
      }
      if underEval {
        return Failure("The same evaluator cannot be used for simultaneous evaluations");
      }
      underEval := true;
      evals, evaluated, depth, path := map[], [], 0, [];
      indep := (j: nat) => if j < |indepNew| then indepNew[j] else 0.0;
      ghost var world := Environment();
      var values: seq<real> := [];
      for i := 0 to |depOld|
        invariant Valid() && path == [] && underEval && Environment() == world && |values| == i
        invariant forall k :: 0 <= k < i ==> values[k] == CGValue(nodes, world, depOld[k])
      {
        var value;
        if depOld[i].Parameter? {
          value := depOld[i].value;
        } else {
          value := EvalOperations(depOld[i].node);
        }
        values := values + [value];
      }
      underEval := false;
      depNew := Success(values);
    }
  }
}
