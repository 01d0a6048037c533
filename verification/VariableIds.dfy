/** Which ids the variables have before any of them are shared: the generated source uses them as indices. */
module VariableIds {
  import opened OperationGraph
  import opened EvaluationQueue

  /** The independent variables among the first n nodes. */
  ghost function IndependentsBefore(g: Graph, n: nat): set<nat> {
    set k: nat | k < n && k < |g| && g[k].Independent?
  }

  /** The operations among the first i dependents. */
  ghost function OutputsBefore(g: Graph, dependents: seq<nat>, i: nat): set<nat>
    requires i <= |dependents|
  {
    set d: nat | d in dependents[..i] && d < |g| && g[d].Operator?
  }

  /** Dependent number i is an operation that is not among the dependents before it. */
  ghost predicate IsNewOutput(g: Graph, dependents: seq<nat>, i: nat)
    requires i < |dependents|
  {
    dependents[i] < |g| && g[dependents[i]].Operator? && dependents[i] !in dependents[..i]
  }

  /** The independents have the first ids, in their order. */
  ghost predicate InputIds(g: Graph, varId: seq<nat>) {
    |varId| == |g| && forall n :: 0 <= n < |g| && g[n].Independent? ==> varId[n] == |IndependentsBefore(g, n)| + 1
  }

  /** The first i dependents have the next ids, in the order in which they occur first. */
  ghost predicate OutputIds(g: Graph, dependents: seq<nat>, i: nat, varId: seq<nat>)
    requires i <= |dependents|
  {
    |varId| == |g| && forall j: nat :: j < i && IsNewOutput(g, dependents, j) ==>
      varId[dependents[j]] == |IndependentsBefore(g, |g|)| + |OutputsBefore(g, dependents, j)| + 1
  }

  /** The ids of the variables that a caller sees. */
  ghost predicate InterfaceIds(g: Graph, dependents: seq<nat>, varId: seq<nat>, minId: nat) {
    && InputIds(g, varId) && OutputIds(g, dependents, |dependents|, varId)
    && minId == |IndependentsBefore(g, |g|)| + |OutputsBefore(g, dependents, |dependents|)| + 1
  }

  /** The statements before p that compute temporaries. */
  ghost function TemporariesBefore(dependents: seq<nat>, queue: seq<nat>, p: nat): set<nat> {
    set q: nat | q < p && q < |queue| && queue[q] !in dependents
  }

  /** The temporaries have the ids after these, in the order of their statements. */
  ghost predicate QueueIds(dependents: seq<nat>, queue: seq<nat>, varId: seq<nat>, minId: nat, idCount: nat) {
    && (forall p: nat :: p < |queue| && queue[p] !in dependents ==>
          queue[p] < |varId| && varId[queue[p]] == minId + |TemporariesBefore(dependents, queue, p)|)
    && idCount == minId + |TemporariesBefore(dependents, queue, |queue|)|
  }

  lemma {:induction false} IndependentsNext(g: Graph, n: nat)
    requires n < |g|
    ensures |IndependentsBefore(g, n + 1)| == |IndependentsBefore(g, n)| + if g[n].Independent? then 1 else 0
  {
    assert IndependentsBefore(g, n + 1) ==
      if g[n].Independent? then IndependentsBefore(g, n) + {n} else IndependentsBefore(g, n);
  }

  lemma {:induction false} OutputsNext(g: Graph, dependents: seq<nat>, i: nat)
    requires i < |dependents|
    ensures |OutputsBefore(g, dependents, i + 1)| ==
      |OutputsBefore(g, dependents, i)| + if IsNewOutput(g, dependents, i) then 1 else 0
  {
    assert dependents[..i + 1] == dependents[..i] + [dependents[i]];
    assert OutputsBefore(g, dependents, i + 1) ==
      OutputsBefore(g, dependents, i) + if IsNewOutput(g, dependents, i) then {dependents[i]} else {};
  }

  lemma {:induction false} TemporariesKept(dependents: seq<nat>, queue: seq<nat>, n: nat, p: nat)
    requires p <= |queue|
    ensures TemporariesBefore(dependents, queue + [n], p) == TemporariesBefore(dependents, queue, p)
  {}

  lemma {:induction false} TemporariesNext(dependents: seq<nat>, queue: seq<nat>, n: nat)
    ensures |TemporariesBefore(dependents, queue + [n], |queue| + 1)| ==
      |TemporariesBefore(dependents, queue, |queue|)| + if n in dependents then 0 else 1
  {
    assert TemporariesBefore(dependents, queue + [n], |queue| + 1) ==
      TemporariesBefore(dependents, queue, |queue|) + if n in dependents then {} else {|queue|};
  }

  lemma {:induction false} NoIndependents(g: Graph)
    ensures |IndependentsBefore(g, 0)| == 0
  {
    assert IndependentsBefore(g, 0) == {};
  }

  lemma {:induction false} NoOutputs(g: Graph, dependents: seq<nat>, varId: seq<nat>)
    requires |varId| == |g|
    ensures |OutputsBefore(g, dependents, 0)| == 0 && OutputIds(g, dependents, 0, varId)
  {
    assert OutputsBefore(g, dependents, 0) == {};
  }

  lemma {:induction false} NoTemporaries(dependents: seq<nat>, varId: seq<nat>, minId: nat)
    ensures QueueIds(dependents, [], varId, minId, minId)
  {
    assert TemporariesBefore(dependents, [], 0) == {};
  }

  lemma {:induction false} SameInputIds(g: Graph, varId: seq<nat>, varId': seq<nat>)
    requires InputIds(g, varId) && |varId'| == |varId|
    requires forall n :: 0 <= n < |g| && g[n].Independent? ==> varId'[n] == varId[n]
    ensures InputIds(g, varId')
  {
    hide IndependentsBefore;
  }

  /** A dependent gets the next id, if it has none. */
  lemma {:induction false} OutputIdsNext(g: Graph, dependents: seq<nat>, i: nat, varId: seq<nat>, idCount: nat)
    requires i < |dependents| && OutputIds(g, dependents, i, varId)
    requires idCount == |IndependentsBefore(g, |g|)| + |OutputsBefore(g, dependents, i)| + 1
    ensures IsNewOutput(g, dependents, i) ==> OutputIds(g, dependents, i + 1, varId[dependents[i] := idCount])
    ensures !IsNewOutput(g, dependents, i) ==> OutputIds(g, dependents, i + 1, varId)
  {
    hide IndependentsBefore, OutputsBefore;
    if IsNewOutput(g, dependents, i) {
      forall j: nat | j < i
        ensures dependents[j] != dependents[i]
      {
        assert dependents[..i][j] == dependents[j];
      }
    }
  }

  /** After the first i dependents: no id is shared, and all ids below `idCount` were given. */
  ghost predicate IdsGiven(g: Graph, dependents: seq<nat>, i: nat, varId: seq<nat>, idCount: nat)
    requires i <= |dependents|
  {
    && InputIds(g, varId) && OutputIds(g, dependents, i, varId) && Unshared(varId)
    && idCount == |IndependentsBefore(g, |g|)| + |OutputsBefore(g, dependents, i)| + 1
    && forall k: nat :: k < |g| ==>
         if g[k].Independent? || k in dependents[..i] then 0 < varId[k] < idCount else varId[k] == 0
  }

  lemma {:induction false} InputsGiven(g: Graph, dependents: seq<nat>, varId: seq<nat>, idCount: nat)
    requires InputIds(g, varId) && idCount == |IndependentsBefore(g, |g|)| + 1
    requires forall k :: 0 <= k < |g| ==> if g[k].Independent? then 0 < varId[k] < idCount else varId[k] == 0
    requires forall n, k :: 0 <= n < k < |g| && g[n].Independent? && g[k].Independent? ==> varId[n] < varId[k]
    ensures IdsGiven(g, dependents, 0, varId, idCount)
  {
    hide IndependentsBefore;
    NoOutputs(g, dependents, varId);
  }

  lemma {:induction false} IdsGivenNext(g: Graph, dependents: seq<nat>, i: nat, varId: seq<nat>, idCount: nat)
    requires i < |dependents| && dependents[i] < |g| && IdsGiven(g, dependents, i, varId, idCount)
    ensures |varId| == |g|
    ensures varId[dependents[i]] == 0 ==>
      IdsGiven(g, dependents, i + 1, varId[dependents[i] := idCount], idCount + 1)
    ensures varId[dependents[i]] != 0 ==> IdsGiven(g, dependents, i + 1, varId, idCount)
  {
    hide IndependentsBefore, OutputsBefore, OutputIds, InputIds;
    assert dependents[..i + 1] == dependents[..i] + [dependents[i]];
    InputIdsSize(g, varId);
    OutputsNext(g, dependents, i);
    OutputIdsNext(g, dependents, i, varId, idCount);
    if varId[dependents[i]] == 0 {
      SameInputIds(g, varId, varId[dependents[i] := idCount]);
    }
  }

  lemma {:induction false} InputIdsSize(g: Graph, varId: seq<nat>)
    requires InputIds(g, varId)
    ensures |varId| == |g|
  {}

  lemma {:induction false} AllIdsGiven(g: Graph, dependents: seq<nat>, varId: seq<nat>, idCount: nat)
    requires IdsGiven(g, dependents, |dependents|, varId, idCount)
    ensures InterfaceIds(g, dependents, varId, idCount) && Unshared(varId)
    ensures Identified(g, dependents, [], varId, idCount, idCount)
  {
    hide IndependentsBefore, OutputsBefore, OutputIds;
    assert dependents[..|dependents|] == dependents;
  }

  /** A node is queued; unless it is a dependent, it gets the next id. */
  lemma {:induction false} QueueIdsNext(dependents: seq<nat>, queue: seq<nat>, varId: seq<nat>, minId: nat,
                                        idCount: nat, n: nat)
    requires QueueIds(dependents, queue, varId, minId, idCount) && n !in queue && n < |varId|
    ensures n in dependents ==> QueueIds(dependents, queue + [n], varId, minId, idCount)
    ensures n !in dependents ==> QueueIds(dependents, queue + [n], varId[n := idCount], minId, idCount + 1)
  {
    TemporariesNext(dependents, queue, n);
    forall p: nat | p <= |queue|
      ensures TemporariesBefore(dependents, queue + [n], p) == TemporariesBefore(dependents, queue, p)
    {
      TemporariesKept(dependents, queue, n, p);
    }
    hide TemporariesBefore;
    forall p: nat | p < |queue|
      ensures (queue + [n])[p] == queue[p] && queue[p] != n
    {}
  }

  /** Ids of other nodes do not matter. */
  lemma {:induction false} InterfaceIdsKept(g: Graph, dependents: seq<nat>, varId: seq<nat>, minId: nat,
                                            varId': seq<nat>)
    requires InterfaceIds(g, dependents, varId, minId) && |varId'| == |varId|
    requires forall n :: 0 <= n < |g| && (g[n].Independent? || n in dependents) ==> varId'[n] == varId[n]
    ensures InterfaceIds(g, dependents, varId', minId)
  {
    hide IndependentsBefore, OutputsBefore;
  }

  // ---------------------------------------------------------------------------------------------
  // No id is left out

  lemma {:induction false} InputWithId(g: Graph, m: nat, id: nat) returns (n: nat)
    requires m <= |g| && 1 <= id <= |IndependentsBefore(g, m)|
    ensures n < m && g[n].Independent? && |IndependentsBefore(g, n)| + 1 == id
  {
    assert IndependentsBefore(g, 0) == {};
    IndependentsNext(g, m - 1);
    if id <= |IndependentsBefore(g, m - 1)| {
      n := InputWithId(g, m - 1, id);
    } else {
      n := m - 1;
    }
  }

  lemma {:induction false} OutputWithId(g: Graph, dependents: seq<nat>, m: nat, k: nat) returns (i: nat)
    requires m <= |dependents| && 1 <= k <= |OutputsBefore(g, dependents, m)|
    ensures i < m && IsNewOutput(g, dependents, i) && |OutputsBefore(g, dependents, i)| + 1 == k
  {
    assert OutputsBefore(g, dependents, 0) == {};
    OutputsNext(g, dependents, m - 1);
    if k <= |OutputsBefore(g, dependents, m - 1)| {
      i := OutputWithId(g, dependents, m - 1, k);
    } else {
      i := m - 1;
    }
  }

  /** Every id below the first one of a temporary belongs to an independent or to a dependent. */
  lemma {:induction false} EveryIdIsUsed(g: Graph, dependents: seq<nat>, varId: seq<nat>, minId: nat, id: nat)
    returns (n: nat)
    requires InterfaceIds(g, dependents, varId, minId) && 1 <= id < minId
    ensures n < |g| == |varId| && (g[n].Independent? || n in dependents) && varId[n] == id
  {
    var inputs := |IndependentsBefore(g, |g|)|;
    if id <= inputs {
      n := InputWithId(g, |g|, id);
    } else {
      var i := OutputWithId(g, dependents, |dependents|, id - inputs);
      n := dependents[i];
    }
    hide IndependentsBefore, OutputsBefore;
  }
}
