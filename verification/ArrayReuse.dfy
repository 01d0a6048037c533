/** The part of `reduceTemporaryVariables` that gives the temporary arrays new positions. */
module ArrayReuse {
  import opened ArrayIdCompressers
  import opened ArraySpaces
  import opened Wrappers
  import TemporaryReuse
  import OperationGraph
  import LiveNodes
  import EvaluationOrder

  /**
    A statement: the elements of the array that it creates, and the arrays that it reads for the last
    time.  Arrays are named by the positions of their statements; a statement that creates no array has
    no elements.
   */
  datatype Creation = Creation(args: seq<Argument>, released: seq<nat>)

  /** The arrays that are released by the statements before j. */
  ghost function Gone(arrays: seq<Creation>, j: nat): set<nat>
    requires j <= |arrays|
  {
    if j == 0 then {} else Gone(arrays, j - 1) + TemporaryReuse.Elements(arrays[j - 1].released)
  }

  ghost function TotalSize(arrays: seq<Creation>, j: nat): nat
    requires j <= |arrays|
  {
    if j == 0 then 0 else TotalSize(arrays, j - 1) + |arrays[j - 1].args|
  }

  lemma {:induction false} TotalGrows(arrays: seq<Creation>, i: nat, j: nat)
    requires i <= j <= |arrays|
    ensures TotalSize(arrays, i) <= TotalSize(arrays, j)
  {
    if i < j {
      TotalGrows(arrays, i, j - 1);
    }
  }

  /** Statement j releases earlier arrays that were not released before, each once. */
  ghost predicate ReleasesOnce(arrays: seq<Creation>, j: nat)
    requires j < |arrays|
  {
    && (forall r :: 0 <= r < |arrays[j].released| ==>
          arrays[j].released[r] < j && arrays[j].released[r] !in Gone(arrays, j))
    && (forall r, t :: 0 <= r < t < |arrays[j].released| ==> arrays[j].released[r] != arrays[j].released[t])
  }

  /** Element p of array j is an element of another array. */
  ghost predicate IsCopy(arrays: seq<Creation>, elements: map<nat, Element>, j: nat, p: nat)
    requires j < |arrays|
  {
    p < |arrays[j].args| && arrays[j].args[p].Operation? && arrays[j].args[p].node in elements
  }

  ghost function Source(arrays: seq<Creation>, elements: map<nat, Element>, j: nat, p: nat): Element
    requires j < |arrays| && IsCopy(arrays, elements, j, p)
  {
    elements[arrays[j].args[p].node]
  }

  /** What array j reads are elements of arrays that were created before and not released yet. */
  ghost predicate ReadsCreated(arrays: seq<Creation>, elements: map<nat, Element>, j: nat)
    requires j < |arrays|
  {
    forall p: nat {:trigger IsCopy(arrays, elements, j, p)} :: IsCopy(arrays, elements, j, p) ==>
      var e := Source(arrays, elements, j, p);
      e.arrayNode < j && e.index < |arrays[e.arrayNode].args| && e.arrayNode !in Gone(arrays, j)
  }

  ghost predicate WellUsed(arrays: seq<Creation>, elements: map<nat, Element>) {
    forall j :: 0 <= j < |arrays| ==> ReleasesOnce(arrays, j) && ReadsCreated(arrays, elements, j)
  }

  // ---------------------------------------------------------------------------------------------
  // The arrays in use

  /** The cells from `start` on hold the elements. */
  ghost predicate Holds(values: seq<Option<Argument>>, start: nat, args: seq<Argument>) {
    start + |args| <= |values| && forall k :: 0 <= k < |args| ==> values[start + k] == Some(args[k])
  }

  /** The cells of array i are its own, and hold its elements. */
  ghost predicate Kept(arrays: seq<Creation>, varId: map<nat, nat>, blocks: Spaces, values: seq<Option<Argument>>,
                       i: nat) {
    && i < |arrays| && i in varId && varId[i] > 0
    && (|arrays[i].args| > 0 ==>
          varId[i] - 1 in blocks && blocks[varId[i] - 1] == |arrays[i].args|
            && Holds(values, varId[i] - 1, arrays[i].args))
  }

  /** Array i, which is in use, starts at cell b. */
  ghost predicate IsBlockOf(arrays: seq<Creation>, j: nat, gone: set<nat>, varId: map<nat, nat>, b: nat, i: nat) {
    i < j && i < |arrays| && i !in gone && |arrays[i].args| > 0 && i in varId && varId[i] == b + 1
  }

  /** The arrays before j that are not gone are kept, each at its own place. */
  ghost predicate AllKept(arrays: seq<Creation>, j: nat, gone: set<nat>, varId: map<nat, nat>, blocks: Spaces,
                          values: seq<Option<Argument>>)
  {
    && j <= |arrays| && (forall i: nat :: i in varId <==> i < j) && (forall i: nat :: i < j ==> varId[i] > 0)
    && (forall i: nat :: i < j && i !in gone ==> Kept(arrays, varId, blocks, values, i))
    && (forall i: nat, k: nat ::
          i < k < j && i !in gone && k !in gone && |arrays[i].args| > 0 && |arrays[k].args| > 0 ==>
            varId[i] != varId[k])
  }

  /** No place is taken by anything but the arrays before j that are not gone. */
  ghost predicate NothingElse(arrays: seq<Creation>, j: nat, gone: set<nat>, varId: map<nat, nat>, blocks: Spaces) {
    forall b :: b in blocks ==> exists i: nat :: IsBlockOf(arrays, j, gone, varId, b, i)
  }

  lemma {:induction false} ReleasePlace(arrays: seq<Creation>, j: nat, gone: set<nat>, varId: map<nat, nat>,
                                        blocks: Spaces, x: nat)
    requires NothingElse(arrays, j, gone, varId, blocks) && x in varId && x < |arrays| && varId[x] > 0
    ensures NothingElse(arrays, j, gone + {x}, varId,
                        if |arrays[x].args| == 0 then blocks else blocks - {varId[x] - 1})
  {
    var blocks' := if |arrays[x].args| == 0 then blocks else blocks - {varId[x] - 1};
    forall b | b in blocks'
      ensures exists i: nat :: IsBlockOf(arrays, j, gone + {x}, varId, b, i)
    {
      var i: nat :| IsBlockOf(arrays, j, gone, varId, b, i);
      assert IsBlockOf(arrays, j, gone + {x}, varId, b, i);
    }
  }

  lemma {:induction false} TakePlace(arrays: seq<Creation>, j: nat, gone: set<nat>, varId: map<nat, nat>,
                                     blocks: Spaces, start: nat, blocks': Spaces)
    requires NothingElse(arrays, j, gone, varId, blocks) && j < |arrays| && j !in gone && j !in varId
    requires blocks' == if |arrays[j].args| == 0 then blocks else blocks[start := |arrays[j].args|]
    ensures NothingElse(arrays, j + 1, gone, varId[j := start + 1], blocks')
  {
    var varId', next: nat := varId[j := start + 1], j + 1;
    forall b | b in blocks'
      ensures exists i: nat :: IsBlockOf(arrays, next, gone, varId', b, i)
    {
      if |arrays[j].args| > 0 && b == start {
        assert IsBlockOf(arrays, next, gone, varId', b, j);
      } else {
        var i: nat :| IsBlockOf(arrays, j, gone, varId, b, i);
        assert IsBlockOf(arrays, next, gone, varId', b, i);
      }
    }
  }

  lemma {:induction false} KeptWithout(arrays: seq<Creation>, varId: map<nat, nat>, blocks: Spaces,
                                       values: seq<Option<Argument>>,
                                       i: nat, b: nat)
    requires Kept(arrays, varId, blocks, values, i) && (|arrays[i].args| > 0 ==> varId[i] - 1 != b)
    ensures Kept(arrays, varId, blocks - {b}, values, i)
  {
    hide Holds;
  }

  /** Array x is released. */
  lemma {:induction false} ReleaseArray(arrays: seq<Creation>, j: nat, gone: set<nat>, varId: map<nat, nat>,
                                        blocks: Spaces,
                                        values: seq<Option<Argument>>, x: nat)
    requires AllKept(arrays, j, gone, varId, blocks, values) && x < j && x !in gone
    ensures x in varId && varId[x] > 0 && x < |arrays|
    ensures |arrays[x].args| > 0 ==> varId[x] - 1 in blocks && blocks[varId[x] - 1] == |arrays[x].args|
    ensures AllKept(arrays, j, gone + {x}, varId, if |arrays[x].args| == 0 then blocks else blocks - {varId[x] - 1},
                    values)
  {
    assert Kept(arrays, varId, blocks, values, x);
    hide Kept;
    if |arrays[x].args| > 0 {
      forall i: nat | i < j && i !in gone && i != x
        ensures Kept(arrays, varId, blocks - {varId[x] - 1}, values, i)
      {
        assert i < x || x < i;
        KeptWithout(arrays, varId, blocks, values, i, varId[x] - 1);
      }
    }
  }

  /** No cell belongs to both arrays. */
  ghost predicate Separated(a: nat, size: nat, b: nat, size': nat) {
    size == 0 || size' == 0 || a + size <= b || b + size' <= a
  }

  /** The cells from `start` on are overwritten with the elements. */
  ghost predicate Overwritten(values: seq<Option<Argument>>, args: seq<Argument>, start: nat,
                              values': seq<Option<Argument>>) {
    && |values'| == |values| && start + |args| <= |values|
    && forall c :: 0 <= c < |values| ==> values'[c] == if In(c, start, |args|) then Some(args[c - start]) else values[c]
  }

  ghost predicate Added(blocks: Spaces, start: nat, size: nat, blocks': Spaces) {
    if size == 0 then blocks' == blocks else start !in blocks && blocks' == blocks[start := size] && Apart(blocks')
  }

  /** An array goes on being kept when array j is created. */
  lemma {:induction false} KeptBeside(arrays: seq<Creation>, varId: map<nat, nat>, blocks: Spaces,
                                      values: seq<Option<Argument>>,
                                      i: nat, j: nat, start: nat, blocks': Spaces, values': seq<Option<Argument>>)
    requires Kept(arrays, varId, blocks, values, i) && j < |arrays| && i != j
    requires Added(blocks, start, |arrays[j].args|, blocks') && Overwritten(values, arrays[j].args, start, values')
    ensures Separated(varId[i] - 1, |arrays[i].args|, start, |arrays[j].args|)
    ensures Kept(arrays, varId[j := start + 1], blocks', values', i)
    ensures |arrays[i].args| > 0 && |arrays[j].args| > 0 ==> varId[i] != start + 1
  {
    if |arrays[i].args| > 0 && |arrays[j].args| > 0 {
      assert varId[i] - 1 in blocks' && start in blocks';
      assert varId[i] - 1 < start || start < varId[i] - 1;
    }
    if |arrays[i].args| > 0 {
      HoldsBeside(values, varId[i] - 1, arrays[i].args, start, arrays[j].args, values');
    }
    hide Apart, Holds, Overwritten;
  }

  lemma {:induction false} HoldsBeside(values: seq<Option<Argument>>, a: nat, args: seq<Argument>, start: nat,
                                       args': seq<Argument>,
                                       values': seq<Option<Argument>>)
    requires Holds(values, a, args) && Overwritten(values, args', start, values')
    requires Separated(a, |args|, start, |args'|)
    ensures Holds(values', a, args)
  {
    forall k | 0 <= k < |args|
      ensures values'[a + k] == Some(args[k])
    {
      assert !In(a + k, start, |args'|);
    }
  }

  lemma {:induction false} HoldsNew(values: seq<Option<Argument>>, start: nat, args: seq<Argument>,
                                    values': seq<Option<Argument>>)
    requires Overwritten(values, args, start, values')
    ensures Holds(values', start, args)
  {
    forall k | 0 <= k < |args|
      ensures values'[start + k] == Some(args[k])
    {
      assert In(start + k, start, |args|);
    }
  }

  lemma {:induction false} KeptNew(arrays: seq<Creation>, varId: map<nat, nat>, blocks: Spaces,
                                   values: seq<Option<Argument>>,
                                   j: nat, start: nat, blocks': Spaces, values': seq<Option<Argument>>)
    requires j < |arrays|
    requires Added(blocks, start, |arrays[j].args|, blocks') && Overwritten(values, arrays[j].args, start, values')
    ensures Kept(arrays, varId[j := start + 1], blocks', values', j)
  {
    HoldsNew(values, start, arrays[j].args, values');
    hide Apart, Holds, Overwritten;
  }

  /** Array j is created. */
  lemma {:induction false} CreateArray(arrays: seq<Creation>, j: nat, gone: set<nat>, varId: map<nat, nat>,
                                       blocks: Spaces,
                                       values: seq<Option<Argument>>, start: nat, blocks': Spaces,
                                       values': seq<Option<Argument>>)
    requires AllKept(arrays, j, gone, varId, blocks, values) && j < |arrays|
    requires Added(blocks, start, |arrays[j].args|, blocks') && Overwritten(values, arrays[j].args, start, values')
    ensures AllKept(arrays, j + 1, gone, varId[j := start + 1], blocks', values')
    ensures forall i: nat :: i < j && i !in gone ==>
      i in varId && varId[i] > 0 && Separated(varId[i] - 1, |arrays[i].args|, start, |arrays[j].args|)
  {
    hide Kept, Added, Overwritten, Separated;
    forall i: nat | i < j && i !in gone
      ensures Separated(varId[i] - 1, |arrays[i].args|, start, |arrays[j].args|)
      ensures Kept(arrays, varId[j := start + 1], blocks', values', i)
      ensures |arrays[i].args| > 0 && |arrays[j].args| > 0 ==> varId[i] != start + 1
    {
      KeptBeside(arrays, varId, blocks, values, i, j, start, blocks', values');
    }
    KeptNew(arrays, varId, blocks, values, j, start, blocks', values');
  }

  // ---------------------------------------------------------------------------------------------
  // When there is no room

  /** Cell c belongs to an array in use. */
  ghost predicate InUse(arrays: seq<Creation>, j: nat, gone: set<nat>, varId: map<nat, nat>, c: nat) {
    exists i: nat :: IsCellOf(arrays, j, gone, varId, c, i)
  }

  ghost predicate IsCellOf(arrays: seq<Creation>, j: nat, gone: set<nat>, varId: map<nat, nat>, c: nat, i: nat) {
    && i < j && i < |arrays| && i !in gone && i in varId && varId[i] > 0
    && varId[i] - 1 <= c < varId[i] - 1 + |arrays[i].args|
  }

  /** The cells from s to e are not in use, and to neither side there is another such cell. */
  ghost predicate IsRoom(arrays: seq<Creation>, j: nat, gone: set<nat>, varId: map<nat, nat>, cells: nat, s: nat,
                         e: nat) {
    && s <= e < cells && (forall c: nat :: s <= c <= e ==> !InUse(arrays, j, gone, varId, c))
    && (s > 0 ==> InUse(arrays, j, gone, varId, s - 1)) && (e + 1 < cells ==> InUse(arrays, j, gone, varId, e + 1))
  }

  /** Element p of array k is copied from one of the cells from s to e. */
  ghost predicate IsReadIn(arrays: seq<Creation>, elements: map<nat, Element>, varId: map<nat, nat>, k: nat, p: nat,
                           s: nat, e: nat)
    requires k < |arrays|
  {
    && IsCopy(arrays, elements, k, p) && Source(arrays, elements, k, p).arrayNode in varId
    && s <= varId[Source(arrays, elements, k, p).arrayNode] - 1 + Source(arrays, elements, k, p).index <= e
  }

  /** When array k is created, every room is too small for it or has a cell that it copies. */
  ghost predicate IsFull(arrays: seq<Creation>, elements: map<nat, Element>, varId: map<nat, nat>, k: nat, cells: nat)
    requires k < |arrays|
  {
    forall s: nat, e: nat {:trigger IsRoom(arrays, k, Gone(arrays, k + 1), varId, cells, s, e)} ::
      IsRoom(arrays, k, Gone(arrays, k + 1), varId, cells, s, e) ==>
        e - s + 1 < |arrays[k].args| || exists p: nat :: IsReadIn(arrays, elements, varId, k, p, s, e)
  }

  lemma {:induction false} UsedIsLive(arrays: seq<Creation>, j: nat, gone: set<nat>, varId: map<nat, nat>,
                                      blocks: Spaces, values: seq<Option<Argument>>, c: nat)
    requires AllKept(arrays, j, gone, varId, blocks, values) && NothingElse(arrays, j, gone, varId, blocks)
    ensures InUse(arrays, j, gone, varId, c) <==> Live(blocks, c)
  {
    hide Kept, Holds, IsBlockOf, IsCellOf;
    if i: nat :| IsCellOf(arrays, j, gone, varId, c, i) {
      CellIsLive(arrays, j, gone, varId, blocks, values, c, i);
    }
    if b :| b in blocks && b <= c < b + blocks[b] {
      var i: nat :| IsBlockOf(arrays, j, gone, varId, b, i);
      BlockIsUsed(arrays, j, gone, varId, blocks, values, c, b, i);
    }
  }

  lemma {:induction false} CellIsLive(arrays: seq<Creation>, j: nat, gone: set<nat>, varId: map<nat, nat>,
                                      blocks: Spaces, values: seq<Option<Argument>>, c: nat, i: nat)
    requires AllKept(arrays, j, gone, varId, blocks, values) && IsCellOf(arrays, j, gone, varId, c, i)
    ensures Live(blocks, c)
  {
    assert Kept(arrays, varId, blocks, values, i);
    hide AllKept, Holds;
    assert varId[i] - 1 in blocks;
  }

  lemma {:induction false} BlockIsUsed(arrays: seq<Creation>, j: nat, gone: set<nat>, varId: map<nat, nat>,
                                       blocks: Spaces, values: seq<Option<Argument>>, c: nat, b: nat, i: nat)
    requires AllKept(arrays, j, gone, varId, blocks, values) && IsBlockOf(arrays, j, gone, varId, b, i)
    requires b in blocks && b <= c < b + blocks[b]
    ensures IsCellOf(arrays, j, gone, varId, c, i)
  {
    assert Kept(arrays, varId, blocks, values, i);
    hide AllKept, Holds;
  }

  lemma {:induction false} RoomIsGap(arrays: seq<Creation>, j: nat, gone: set<nat>, varId: map<nat, nat>,
                                     blocks: Spaces, values: seq<Option<Argument>>, cells: nat, s: nat, e: nat)
    requires AllKept(arrays, j, gone, varId, blocks, values) && NothingElse(arrays, j, gone, varId, blocks)
    requires IsRoom(arrays, j, gone, varId, cells, s, e)
    ensures IsGap(blocks, cells, s, e)
  {
    hide AllKept, NothingElse, InUse, Live;
    forall c: nat
      ensures InUse(arrays, j, gone, varId, c) <==> Live(blocks, c)
    {
      UsedIsLive(arrays, j, gone, varId, blocks, values, c);
    }
  }

  /** No free space could be used for array k. */
  lemma {:induction false} NoRoom(arrays: seq<Creation>, elements: map<nat, Element>, k: nat, varId: map<nat, nat>,
                                  starts: Spaces, blocks: Spaces, cells: nat, values: seq<Option<Argument>>)
    requires k < |arrays| && AllKept(arrays, k, Gone(arrays, k + 1), varId, blocks, values)
    requires NothingElse(arrays, k, Gone(arrays, k + 1), varId, blocks) && Partition(starts, blocks, cells)
    requires Placed(arrays[k].args, elements, varId)
    requires forall s :: s in starts ==>
      || starts[s] - s + 1 < |arrays[k].args|
      || exists c :: c in BlackList(arrays[k].args, elements, varId) && s <= c <= starts[s]
    ensures IsFull(arrays, elements, varId, k, cells)
  {
    hide AllKept, NothingElse, IsRoom, IsGap, Partition, Gone, BlackList;
    forall s: nat, e: nat {:trigger IsRoom(arrays, k, Gone(arrays, k + 1), varId, cells, s, e)} |
      IsRoom(arrays, k, Gone(arrays, k + 1), varId, cells, s, e)
      ensures e - s + 1 < |arrays[k].args| || exists p: nat :: IsReadIn(arrays, elements, varId, k, p, s, e)
    {
      RoomIsGap(arrays, k, Gone(arrays, k + 1), varId, blocks, values, cells, s, e);
      GapIsSpace(starts, blocks, cells, s, e);
      if c :| c in BlackList(arrays[k].args, elements, varId) && s <= c <= e {
        BlackListHas(arrays[k].args, elements, varId, c);
        var p: nat :| Reads(arrays[k].args, elements, varId, p, c);
        assert IsReadIn(arrays, elements, varId, k, p, s, e);
      }
    }
  }

  lemma {:induction false} FullLater(arrays: seq<Creation>, elements: map<nat, Element>, varId: map<nat, nat>,
                                     k: nat, cells: nat, j: nat, id: nat)
    requires k <= j && k < |arrays| && IsFull(arrays, elements, varId, k, cells) && j !in varId
    ensures IsFull(arrays, elements, varId[j := id], k, cells)
  {
    var varId', gone := varId[j := id], Gone(arrays, k + 1);
    hide Gone;
    forall c: nat
      ensures InUse(arrays, k, gone, varId', c) <==> InUse(arrays, k, gone, varId, c)
    {
      UsedLater(arrays, k, gone, varId, j, id, c);
    }
    hide InUse;
    forall s: nat, e: nat {:trigger IsRoom(arrays, k, Gone(arrays, k + 1), varId', cells, s, e)} |
      IsRoom(arrays, k, Gone(arrays, k + 1), varId', cells, s, e)
      ensures e - s + 1 < |arrays[k].args| || exists p: nat :: IsReadIn(arrays, elements, varId', k, p, s, e)
    {
      assert IsRoom(arrays, k, Gone(arrays, k + 1), varId, cells, s, e);
      if p: nat :| IsReadIn(arrays, elements, varId, k, p, s, e) {
        assert IsReadIn(arrays, elements, varId', k, p, s, e);
      }
    }
  }

  lemma {:induction false} UsedLater(arrays: seq<Creation>, k: nat, gone: set<nat>, varId: map<nat, nat>, j: nat,
                                     id: nat, c: nat)
    requires k <= j
    ensures InUse(arrays, k, gone, varId[j := id], c) <==> InUse(arrays, k, gone, varId, c)
  {
    var varId' := varId[j := id];
    forall i: nat
      ensures IsCellOf(arrays, k, gone, varId', c, i) <==> IsCellOf(arrays, k, gone, varId, c, i)
    {}
  }

  // ---------------------------------------------------------------------------------------------
  // What holds at the end

  /** Arrays i and k have their places and share no cell. */
  ghost predicate PlacedApart(varId: map<nat, nat>, i: nat, size: nat, k: nat, size': nat) {
    && i in varId && k in varId && varId[i] > 0 && varId[k] > 0
    && Separated(varId[i] - 1, size, varId[k] - 1, size')
  }

  /** Two arrays share a cell only if the first is released at the latest by the statement that creates the second. */
  ghost predicate NoOverlap(arrays: seq<Creation>, j: nat, varId: map<nat, nat>)
    requires j <= |arrays|
  {
    forall i: nat, k: nat :: i < k < j && i !in Gone(arrays, k + 1) ==>
      PlacedApart(varId, i, |arrays[i].args|, k, |arrays[k].args|)
  }

  /** Element p of array k still is where it is copied from. */
  ghost predicate CopyThere(arrays: seq<Creation>, elements: map<nat, Element>, varId: map<nat, nat>,
                            values: seq<Option<Argument>>,
                            k: nat, p: nat)
    requires k < |arrays| && IsCopy(arrays, elements, k, p)
  {
    var e := Source(arrays, elements, k, p);
    && e.arrayNode in varId && varId[e.arrayNode] > 0 && e.arrayNode < |arrays| && e.index < |arrays[e.arrayNode].args|
    && varId[e.arrayNode] - 1 + e.index < |values|
    && values[varId[e.arrayNode] - 1 + e.index] == Some(arrays[e.arrayNode].args[e.index])
  }

  ghost predicate StillThere(arrays: seq<Creation>, elements: map<nat, Element>, varId: map<nat, nat>,
                             values: seq<Option<Argument>>, k: nat)
    requires k < |arrays|
  {
    forall p: nat {:trigger IsCopy(arrays, elements, k, p)} :: IsCopy(arrays, elements, k, p) ==>
      CopyThere(arrays, elements, varId, values, k, p)
  }

  /** The cells that array j reads are known when it is created. */
  lemma {:induction false} CopiesPlaced(arrays: seq<Creation>, elements: map<nat, Element>, j: nat, gone: set<nat>,
                                        varId: map<nat, nat>,
                                        blocks: Spaces, values: seq<Option<Argument>>)
    requires j < |arrays| && ReadsCreated(arrays, elements, j) && AllKept(arrays, j, gone, varId, blocks, values)
    ensures Placed(arrays[j].args, elements, varId)
  {
    hide Kept, Gone;
    forall p | 0 <= p < |arrays[j].args| && arrays[j].args[p].Operation? && arrays[j].args[p].node in elements
      ensures elements[arrays[j].args[p].node].arrayNode in varId
      ensures varId[elements[arrays[j].args[p].node].arrayNode] > 0
    {
      assert IsCopy(arrays, elements, j, p);
    }
  }

  lemma {:induction false} CopyIsBlackListed(args: seq<Argument>, elements: map<nat, Element>, varId: map<nat, nat>,
                                             p: nat)
    requires Placed(args, elements, varId) && p < |args| && args[p].Operation? && args[p].node in elements
    ensures varId[elements[args[p].node].arrayNode] - 1 +
      elements[args[p].node].index in BlackList(args, elements, varId)
  {
    var rest := args[..|args| - 1];
    assert Placed(rest, elements, varId);
    if p < |rest| {
      assert rest[p] == args[p];
      CopyIsBlackListed(rest, elements, varId, p);
    }
  }

  /** The cells of an array in use are among those that were ever handed out. */
  lemma {:induction false} BlockInCells(starts: Spaces, blocks: Spaces, cells: nat, b: nat, k: nat)
    requires Partition(starts, blocks, cells) && b in blocks && k < blocks[b]
    ensures b + k < cells
  {
    assert Live(blocks, b + k);
  }

  lemma {:induction false} CopySpared(arrays: seq<Creation>, elements: map<nat, Element>, j: nat, p: nat,
                                      varId: map<nat, nat>,
                                      starts: Spaces, blocks: Spaces, cells: nat, values: seq<Option<Argument>>,
                                      start: nat,
                                      values': seq<Option<Argument>>)
    requires j < |arrays| && IsCopy(arrays, elements, j, p) && Partition(starts, blocks, cells)
    requires var e := Source(arrays, elements, j, p);
      Kept(arrays, varId, blocks, values, e.arrayNode) && e.index < |arrays[e.arrayNode].args|
    requires Placed(arrays[j].args, elements, varId)
    requires Spared(BlackList(arrays[j].args, elements, varId), cells, start, |arrays[j].args|)
    requires Overwritten(values, arrays[j].args, start, values')
    ensures CopyThere(arrays, elements, varId, values', j, p)
  {
    var e := Source(arrays, elements, j, p);
    BlockInCells(starts, blocks, cells, varId[e.arrayNode] - 1, e.index);
    CopyIsBlackListed(arrays[j].args, elements, varId, p);
    hide Partition, BlackList, Placed;
    var c := varId[e.arrayNode] - 1 + e.index;
    assert values[c] == Some(arrays[e.arrayNode].args[e.index]) && !In(c, start, |arrays[j].args|);
  }

  /**
    Elements that array j copies are kept until it has been assigned, even if their array is released by its statement.
   */
  lemma {:induction false} CopiesSpared(arrays: seq<Creation>, elements: map<nat, Element>, j: nat, varId: map<nat,
                                        nat>, starts: Spaces,
                                        blocks: Spaces, cells: nat, values: seq<Option<Argument>>, start: nat,
                                        values': seq<Option<Argument>>)
    requires j < |arrays| && ReadsCreated(arrays, elements, j)
    requires AllKept(arrays, j, Gone(arrays, j), varId, blocks, values)
    requires Partition(starts, blocks, cells) && Placed(arrays[j].args, elements, varId)
    requires Spared(BlackList(arrays[j].args, elements, varId), cells, start, |arrays[j].args|)
    requires Overwritten(values, arrays[j].args, start, values')
    ensures StillThere(arrays, elements, varId, values', j)
  {
    hide Partition, BlackList, Placed, Spared, Overwritten, Kept, CopyThere, Gone;
    forall p: nat {:trigger IsCopy(arrays, elements, j, p)} | IsCopy(arrays, elements, j, p)
      ensures CopyThere(arrays, elements, varId, values', j, p)
    {
      assert Kept(arrays, varId, blocks, values, Source(arrays, elements, j, p).arrayNode);
      CopySpared(arrays, elements, j, p, varId, starts, blocks, cells, values, start, values');
    }
  }

  lemma {:induction false} NothingKept(arrays: seq<Creation>, values: seq<Option<Argument>>)
    ensures AllKept(arrays, 0, Gone(arrays, 0), map[], map[], values) && NoOverlap(arrays, 0, map[])
    ensures NothingElse(arrays, 0, Gone(arrays, 0), map[], map[])
  {}

  lemma {:induction false} NoOverlapNext(arrays: seq<Creation>, j: nat, varId: map<nat, nat>, start: nat)
    requires j < |arrays| && NoOverlap(arrays, j, varId) && forall i: nat :: i in varId <==> i < j
    requires forall i: nat :: i < j && i !in Gone(arrays, j + 1) ==>
      i in varId && varId[i] > 0 && Separated(varId[i] - 1, |arrays[i].args|, start, |arrays[j].args|)
    ensures NoOverlap(arrays, j + 1, varId[j := start + 1])
  {
    hide Gone, Separated;
    var varId' := varId[j := start + 1];
    forall i: nat, k: nat | i < k < j + 1 && i !in Gone(arrays, k + 1)
      ensures PlacedApart(varId', i, |arrays[i].args|, k, |arrays[k].args|)
    {
      assert k < j ==> PlacedApart(varId, i, |arrays[i].args|, k, |arrays[k].args|);
    }
  }

  lemma {:induction false} StillThereLater(arrays: seq<Creation>, elements: map<nat, Element>, varId: map<nat, nat>,
                                           j: nat, id: nat,
                                           values: seq<Option<Argument>>, k: nat)
    requires k < |arrays| && StillThere(arrays, elements, varId, values, k) && j !in varId
    ensures StillThere(arrays, elements, varId[j := id], values, k)
  {}

  // ---------------------------------------------------------------------------------------------
  // The run over all statements

  /** The ids of the temporary arrays as they are first issued: one for every element. */
  method IssueIds(arrays: seq<Creation>) returns (idArrayCount: nat)
    ensures idArrayCount == TotalSize(arrays, |arrays|) + 1
  {
    idArrayCount := 1;
    for j := 0 to |arrays|
      invariant idArrayCount == TotalSize(arrays, j) + 1
    {
      idArrayCount := idArrayCount + |arrays[j].args|;
    }
  }

  /** The compresser before statement j, when the arrays in `gone` were released. */
  ghost predicate Before(comp: ArrayIdCompresser, arrays: seq<Creation>, j: nat, gone: set<nat>, varId: map<nat, nat>)
    reads comp
  {
    && comp.Valid() && AllKept(arrays, j, gone, varId, comp.blocks, comp.tmpArrayValues)
    && NothingElse(arrays, j, gone, varId, comp.blocks)
    && comp.reserved == TotalSize(arrays, j) && |comp.tmpArrayValues| == TotalSize(arrays, |arrays|) + 1
  }

  method ReleaseArrays(comp: ArrayIdCompresser, arrays: seq<Creation>, j: nat, varId: map<nat, nat>)
    requires j < |arrays| && ReleasesOnce(arrays, j) && Before(comp, arrays, j, Gone(arrays, j), varId)
    modifies comp`freeArrayStartSpace, comp`freeArrayEndSpace, comp`blocks
    ensures Before(comp, arrays, j, Gone(arrays, j + 1), varId)
  {
    hide AllKept, Gone, TotalSize, NothingElse, ArrayIdCompresser.Valid;
    var released := arrays[j].released;
    ghost var gone := Gone(arrays, j);
    for r := 0 to |released|
      invariant gone == Gone(arrays, j) + TemporaryReuse.Elements(released[..r])
      invariant Before(comp, arrays, j, gone, varId)
    {
      var x := released[r];
      assert x !in released[..r];
      ReleaseArray(arrays, j, gone, varId, comp.blocks, comp.tmpArrayValues, x);
      ReleasePlace(arrays, j, gone, varId, comp.blocks, x);
      comp.AddFreeArraySpace(varId[x], |arrays[x].args|);
      assert released[..r + 1] == released[..r] + [x];
      gone := gone + {x};
    }
    assert released[..|released|] == released;
    GoneNext(arrays, j);
  }

  lemma {:induction false} GoneNext(arrays: seq<Creation>, j: nat)
    requires j < |arrays|
    ensures Gone(arrays, j + 1) == Gone(arrays, j) + TemporaryReuse.Elements(arrays[j].released)
  {}

  lemma {:induction false} BeforeParts(comp: ArrayIdCompresser, arrays: seq<Creation>, j: nat, gone: set<nat>,
                                       varId: map<nat, nat>)
    requires Before(comp, arrays, j, gone, varId)
    ensures comp.Valid() && AllKept(arrays, j, gone, varId, comp.blocks, comp.tmpArrayValues)
    ensures comp.idArrayCount > 0 && Partition(comp.freeArrayStartSpace, comp.blocks, comp.idArrayCount - 1)
    ensures j <= |arrays| && comp.reserved == TotalSize(arrays, j) && NothingElse(arrays, j, gone, varId, comp.blocks)
    ensures |comp.tmpArrayValues| == TotalSize(arrays, |arrays|) + 1
    ensures forall i: nat :: i in varId <==> i < j
  {
    comp.Named();
    hide ArrayIdCompresser.Valid, Partition, Kept, TotalSize, NothingElse;
  }

  /** The buffer is large enough for one more array. */
  lemma {:induction false} RoomForNext(arrays: seq<Creation>, j: nat)
    requires j < |arrays|
    ensures TotalSize(arrays, j) + |arrays[j].args| == TotalSize(arrays, j + 1) <= TotalSize(arrays, |arrays|)
  {
    TotalGrows(arrays, j + 1, |arrays|);
  }

  /** A new array is one more block, and its cells are overwritten. */
  lemma {:induction false} SpaceTaken(starts: Spaces, blocks: Spaces, cells: nat, blocks0: Spaces, start: nat,
                                      args: seq<Argument>,
                                      values: seq<Option<Argument>>, values': seq<Option<Argument>>)
    requires Partition(starts, blocks, cells) && cells <= |values| == |values'|
    requires |args| == 0 ==> start == 0 && blocks == blocks0
    requires |args| > 0 ==> start !in blocks0 && blocks == blocks0[start := |args|]
    requires forall c :: 0 <= c < |values| ==>
      values'[c] == if In(c, start, |args|) then Some(args[c - start]) else values[c]
    ensures Added(blocks0, start, |args|, blocks) && Overwritten(values, args, start, values')
  {
    if |args| > 0 {
      BlockInCells(starts, blocks, cells, start, |args| - 1);
    }
  }

  /** Statement j creates its array, after its releases; starts0 and blocks0 are the spaces before them. */
  method CreateNext(comp: ArrayIdCompresser, arrays: seq<Creation>, elements: map<nat, Element>, j: nat,
                    varId: map<nat, nat>,
                    ghost starts0: Spaces, ghost blocks0: Spaces)
    returns (varId': map<nat, nat>)
    requires j < |arrays| && ReadsCreated(arrays, elements, j) && Before(comp, arrays, j, Gone(arrays, j + 1), varId)
    requires AllKept(arrays, j, Gone(arrays, j), varId, blocks0, comp.tmpArrayValues)
    requires comp.idArrayCount > 0 && Partition(starts0, blocks0, comp.idArrayCount - 1)
    requires j !in Gone(arrays, j + 1)
    modifies comp
    ensures j !in varId && j in varId' && varId' == varId[j := varId'[j]]
    ensures Before(comp, arrays, j + 1, Gone(arrays, j + 1), varId')
    ensures NoOverlap(arrays, j, varId) ==> NoOverlap(arrays, j + 1, varId')
    ensures StillThere(arrays, elements, varId', comp.tmpArrayValues, j)
    // there are new cells only if there is no room among the old ones
    ensures comp.idArrayCount > old(comp.idArrayCount) ==>
      IsFull(arrays, elements, varId', j, old(comp.idArrayCount) - 1)
    ensures comp.idArrayCount >= old(comp.idArrayCount)
  {
    hide *;
    BeforeParts(comp, arrays, j, Gone(arrays, j + 1), varId);
    CopiesPlaced(arrays, elements, j, Gone(arrays, j + 1), varId, comp.blocks, comp.tmpArrayValues);
    RoomForNext(arrays, j);
    ghost var blocks, values, cells := comp.blocks, comp.tmpArrayValues, comp.idArrayCount - 1;
    ghost var starts := comp.freeArrayStartSpace;
    var arrayStart := comp.ReserveArraySpace(arrays[j].args, elements, varId);
    comp.Named();
    SpaceTaken(comp.freeArrayStartSpace, comp.blocks, comp.idArrayCount - 1, blocks, arrayStart, arrays[j].args,
               values, comp.tmpArrayValues);
    CreateArray(arrays, j, Gone(arrays, j + 1), varId, blocks, values, arrayStart, comp.blocks, comp.tmpArrayValues);
    CopiesSpared(arrays, elements, j, varId, starts0, blocks0, cells, values, arrayStart, comp.tmpArrayValues);
    StillThereLater(arrays, elements, varId, j, arrayStart + 1, comp.tmpArrayValues, j);
    if NoOverlap(arrays, j, varId) {
      NoOverlapNext(arrays, j, varId, arrayStart);
    }
    TakePlace(arrays, j, Gone(arrays, j + 1), varId, blocks, arrayStart, comp.blocks);
    if comp.idArrayCount > cells + 1 {
      NoRoom(arrays, elements, j, varId, starts, blocks, cells, values);
      FullLater(arrays, elements, varId, j, cells, j, arrayStart + 1);
    }
    varId' := varId[j := arrayStart + 1];
    BeforeNext(comp, arrays, j + 1, Gone(arrays, j + 1), varId');
  }

  lemma {:induction false} BeforeNext(comp: ArrayIdCompresser, arrays: seq<Creation>, j: nat, gone: set<nat>,
                                      varId: map<nat, nat>)
    requires j <= |arrays| && comp.Valid() && AllKept(arrays, j, gone, varId, comp.blocks, comp.tmpArrayValues)
    requires comp.reserved == TotalSize(arrays, j) && |comp.tmpArrayValues| == TotalSize(arrays, |arrays|) + 1
    requires NothingElse(arrays, j, gone, varId, comp.blocks)
    ensures Before(comp, arrays, j, gone, varId)
  {
    hide ArrayIdCompresser.Valid, AllKept, TotalSize, NothingElse;
  }

  /**
    The last loop of `reduceTemporaryVariables`, for temporary arrays.  `history` holds the elements that were
    last assigned to the cells after each statement.
   */
  method PlaceArrays(arrays: seq<Creation>, elements: map<nat, Element>)
    returns (varId: map<nat, nat>, idArrayCount: nat, ghost counts: seq<nat>, ghost history: seq<seq<Option<Argument>>>)
    requires WellUsed(arrays, elements)
    ensures forall i: nat :: i in varId <==> i < |arrays|
    // arrays that are in use at the same time share no cell
    ensures NoOverlap(arrays, |arrays|, varId)
    // nothing is overwritten while it is copied to a new array
    ensures |history| == |arrays|
    ensures forall k :: 0 <= k < |arrays| ==> StillThere(arrays, elements, varId, history[k], k)
    // there are new cells only if there is no room among the old ones
    ensures CountsCells(arrays, elements, varId, |arrays|, counts) && idArrayCount == counts[|arrays|]
    // there are no more cells than the arrays have elements
    ensures 0 < idArrayCount <= TotalSize(arrays, |arrays|) + 1
  {
    hide *;
    idArrayCount := IssueIds(arrays);
    var arrayComp := new ArrayIdCompresser(idArrayCount);
    varId, counts, history := map[], [1], [];
    NothingKept(arrays, arrayComp.tmpArrayValues);
    NothingPlaced(arrays);
    NothingCounted(arrays, elements);
    BeforeNext(arrayComp, arrays, 0, Gone(arrays, 0), varId);
    for i := 0 to |arrays|
      invariant fresh(arrayComp) && Before(arrayComp, arrays, i, Gone(arrays, i), varId) && NoOverlap(arrays, i, varId)
      invariant CountsCells(arrays, elements, varId, i, counts) && |counts| == i + 1
      invariant arrayComp.idArrayCount == counts[i]
      invariant |history| == i && forall k :: 0 <= k < i ==> StillThere(arrays, elements, varId, history[k], k)
    {
      BeforeParts(arrayComp, arrays, i, Gone(arrays, i), varId);
      UsedAt(arrays, elements, i);
      ghost var varId0, starts, blocks := varId, arrayComp.freeArrayStartSpace, arrayComp.blocks;
      ReleaseArrays(arrayComp, arrays, i, varId);
      GoneIsOlder(arrays, elements, i + 1);
      varId := CreateNext(arrayComp, arrays, elements, i, varId, starts, blocks);
      forall k | 0 <= k < i
        ensures StillThere(arrays, elements, varId, history[k], k)
      {
        StillThereLater(arrays, elements, varId0, i, varId[i], history[k], k);
      }
      CountsNext(arrays, elements, varId0, i, counts, varId[i], arrayComp.idArrayCount);
      counts := counts + [arrayComp.idArrayCount];
      history := history + [arrayComp.tmpArrayValues];
    }
    BeforeParts(arrayComp, arrays, |arrays|, Gone(arrays, |arrays|), varId);
    idArrayCount := arrayComp.idArrayCount;
    arrayComp.Named();
  }

  /** The numbers of ids before and after each of the first j arrays, and why they grow. */
  ghost predicate CountsCells(arrays: seq<Creation>, elements: map<nat, Element>, varId: map<nat, nat>, j: nat,
                              counts: seq<nat>)
  {
    && |counts| == j + 1 && j <= |arrays| && counts[0] == 1
    && (forall k :: 0 <= k < j ==> 0 < counts[k] <= counts[k + 1])
    && forall k :: 0 <= k < j && counts[k + 1] > counts[k] ==> IsFull(arrays, elements, varId, k, counts[k] - 1)
  }

  lemma {:induction false} NothingCounted(arrays: seq<Creation>, elements: map<nat, Element>)
    ensures CountsCells(arrays, elements, map[], 0, [1])
  {}

  lemma {:induction false} CountsNext(arrays: seq<Creation>, elements: map<nat, Element>, varId: map<nat, nat>, j: nat,
                                      counts: seq<nat>, id: nat, count: nat)
    requires CountsCells(arrays, elements, varId, j, counts) && j < |arrays| && j !in varId && 0 < counts[j] <= count
    requires count > counts[j] ==> IsFull(arrays, elements, varId[j := id], j, counts[j] - 1)
    ensures CountsCells(arrays, elements, varId[j := id], j + 1, counts + [count])
  {
    hide IsFull;
    forall k | 0 <= k < j && counts[k + 1] > counts[k]
      ensures IsFull(arrays, elements, varId[j := id], k, counts[k] - 1)
    {
      FullLater(arrays, elements, varId, k, counts[k] - 1, j, id);
    }
  }

  lemma {:induction false} GoneIsOlder(arrays: seq<Creation>, elements: map<nat, Element>, j: nat)
    requires WellUsed(arrays, elements) && j <= |arrays|
    ensures forall x :: x in Gone(arrays, j) ==> x + 1 < j
  {
    if j > 0 {
      GoneIsOlder(arrays, elements, j - 1);
      assert ReleasesOnce(arrays, j - 1);
    }
  }

  lemma {:induction false} UsedAt(arrays: seq<Creation>, elements: map<nat, Element>, j: nat)
    requires WellUsed(arrays, elements) && j < |arrays|
    ensures ReleasesOnce(arrays, j) && ReadsCreated(arrays, elements, j)
  {}

  lemma {:induction false} NothingPlaced(arrays: seq<Creation>)
    ensures TotalSize(arrays, 0) == 0 && Gone(arrays, 0) == {}
  {}

  // ---------------------------------------------------------------------------------------------
  // Where arrays are released

  /** Every array is read after the statement that creates it. */
  ghost predicate ReadLater(args: seq<seq<Argument>>, lastRead: seq<nat>) {
    |lastRead| == |args| && forall p :: 0 <= p < |args| && |args[p]| > 0 ==> p + 1 < lastRead[p] <= |args|
  }

  /** Where array j copies from: an array created before, which is recorded as read by statement j or a later one. */
  ghost predicate ReadRecorded(args: seq<seq<Argument>>, lastRead: seq<nat>, j: nat, e: Element) {
    e.arrayNode < j < |args| == |lastRead| && e.index < |args[e.arrayNode]| && lastRead[e.arrayNode] >= j + 1
  }

  ghost predicate ReadsRecorded(args: seq<seq<Argument>>, lastRead: seq<nat>, elements: map<nat, Element>) {
    forall j: nat, p: nat {:trigger args[j][p]} ::
      j < |args| && p < |args[j]| && args[j][p].Operation? && args[j][p].node in elements ==>
        ReadRecorded(args, lastRead, j, elements[args[j][p].node])
  }

  /** Statement j reads array x, one of the first n, for the last time. */
  predicate ReadLastBy(args: seq<seq<Argument>>, lastRead: seq<nat>, n: nat, j: nat, x: nat) {
    x < n && x < |args| && x < |lastRead| && |args[x]| > 0 && lastRead[x] == j + 1
  }

  ghost predicate ReleasedAt(args: seq<seq<Argument>>, lastRead: seq<nat>, n: nat, j: nat, released: seq<nat>) {
    && (forall x :: x in released <==> ReadLastBy(args, lastRead, n, j, x))
    && (forall r, t :: 0 <= r < t < |released| ==> released[r] != released[t])
  }

  ghost predicate Collected(args: seq<seq<Argument>>, lastRead: seq<nat>, n: nat, arrays: seq<Creation>) {
    && |arrays| == |args|
    && forall j :: 0 <= j < |arrays| ==>
         arrays[j].args == args[j] && ReleasedAt(args, lastRead, n, j, arrays[j].released)
  }

  lemma {:induction false} NothingCollected(args: seq<seq<Argument>>, lastRead: seq<nat>, arrays: seq<Creation>)
    requires |arrays| == |args| && forall j :: 0 <= j < |arrays| ==> arrays[j] == Creation(args[j], [])
    ensures Collected(args, lastRead, 0, arrays)
  {}

  /** Array n is released by the statement that reads it for the last time. */
  lemma {:induction false} CollectedNext(args: seq<seq<Argument>>, lastRead: seq<nat>, n: nat, arrays: seq<Creation>)
    requires Collected(args, lastRead, n, arrays) && n < |args| && ReadLater(args, lastRead)
    ensures |args[n]| == 0 ==> Collected(args, lastRead, n + 1, arrays)
    ensures |args[n]| > 0 ==>
      && 0 < lastRead[n] <= |arrays|
      && var j := lastRead[n] - 1;
      Collected(args, lastRead, n + 1, arrays[j := arrays[j].(released := arrays[j].released + [n])])
  {
    forall j | 0 <= j < |arrays| && !ReadLastBy(args, lastRead, n + 1, j, n)
      ensures ReleasedAt(args, lastRead, n + 1, j, arrays[j].released)
    {
      assert ReleasedAt(args, lastRead, n, j, arrays[j].released);
    }
    if |args[n]| > 0 {
      var j := lastRead[n] - 1;
      assert ReleasedAt(args, lastRead, n, j, arrays[j].released);
      assert n !in arrays[j].released;
      assert ReleasedAt(args, lastRead, n + 1, j, arrays[j].released + [n]);
    }
    hide ReleasedAt;
  }

  /** The loop that finds where temporary arrays can be released. */
  method CollectArrayReleases(args: seq<seq<Argument>>, lastRead: seq<nat>) returns (arrays: seq<Creation>)
    requires ReadLater(args, lastRead)
    ensures Collected(args, lastRead, |args|, arrays) && |arrays| == |args| == |lastRead|
    // every array that has elements is released by the statement that reads it last, and by no other
    ensures forall j: nat, x: nat {:trigger x in arrays[j].released} :: j < |arrays| ==>
      (x in arrays[j].released <==> x < |args| && |args[x]| > 0 && lastRead[x] == j + 1)
  {
    hide Collected;
    arrays := seq(|args|, i requires 0 <= i < |args| => Creation(args[i], []));
    NothingCollected(args, lastRead, arrays);
    for i := 0 to |args|
      invariant |arrays| == |args| && Collected(args, lastRead, i, arrays)
    {
      CollectedNext(args, lastRead, i, arrays);
      if |args[i]| > 0 {
        var releaseLocation := lastRead[i] - 1;
        arrays := arrays[releaseLocation :=
          arrays[releaseLocation].(released := arrays[releaseLocation].released + [i])];
      }
    }
    CollectedSize(args, lastRead, arrays);
    forall j: nat, x: nat {:trigger x in arrays[j].released} | j < |arrays|
      ensures x in arrays[j].released <==> x < |args| && |args[x]| > 0 && lastRead[x] == j + 1
    {
      ReleasedBy(args, lastRead, arrays, j, x);
    }
  }

  lemma {:induction false} ReleasedBy(args: seq<seq<Argument>>, lastRead: seq<nat>, arrays: seq<Creation>, j: nat,
                                      x: nat)
    requires Collected(args, lastRead, |args|, arrays) && ReadLater(args, lastRead) && j < |arrays|
    ensures |arrays| == |args| == |lastRead|
    ensures x in arrays[j].released <==> x < |args| && |args[x]| > 0 && lastRead[x] == j + 1
  {
    assert ReleasedAt(args, lastRead, |args|, j, arrays[j].released);
  }

  /** The arrays that are gone before statement j. */
  lemma {:induction false} GoneIs(args: seq<seq<Argument>>, lastRead: seq<nat>, arrays: seq<Creation>, j: nat, x: nat)
    requires Collected(args, lastRead, |args|, arrays) && ReadLater(args, lastRead) && j <= |arrays|
    ensures x in Gone(arrays, j) <==> x < |args| && |args[x]| > 0 && lastRead[x] <= j
  {
    if j > 0 {
      GoneIs(args, lastRead, arrays, j - 1, x);
      assert ReleasedAt(args, lastRead, |args|, j - 1, arrays[j - 1].released);
      hide Collected, ReleasedAt;
      assert x in arrays[j - 1].released <==> ReadLastBy(args, lastRead, |args|, j - 1, x);
    }
  }

  /** Every array is released once, and not before it was read for the last time. */
  lemma {:induction false} CollectedIsWellUsed(args: seq<seq<Argument>>, lastRead: seq<nat>,
                                               elements: map<nat, Element>, arrays: seq<Creation>)
    requires Collected(args, lastRead, |args|, arrays) && ReadLater(args, lastRead)
    requires ReadsRecorded(args, lastRead, elements)
    ensures WellUsed(arrays, elements)
  {
    hide Gone;
    forall j | 0 <= j < |arrays|
      ensures ReleasesOnce(arrays, j)
    {
      assert ReleasedAt(args, lastRead, |args|, j, arrays[j].released);
      forall r | 0 <= r < |arrays[j].released|
        ensures arrays[j].released[r] < j && arrays[j].released[r] !in Gone(arrays, j)
      {
        var x := arrays[j].released[r];
        assert x in arrays[j].released && ReadLastBy(args, lastRead, |args|, j, x);
        GoneIs(args, lastRead, arrays, j, x);
      }
    }
    forall j: nat, p: nat {:trigger IsCopy(arrays, elements, j, p)} | j < |arrays| && IsCopy(arrays, elements, j, p)
      ensures var e := Source(arrays, elements, j, p);
        e.arrayNode < j && e.index < |arrays[e.arrayNode].args| && e.arrayNode !in Gone(arrays, j)
    {
      assert arrays[j].args == args[j];
      assert ReadRecorded(args, lastRead, j, elements[args[j][p].node]);
      GoneIs(args, lastRead, arrays, j, Source(arrays, elements, j, p).arrayNode);
    }
    hide ReleasesOnce;
  }

  /** An array that is read after statement k has no cell in common with the array of k. */
  lemma {:induction false} ReadIsSeparated(args: seq<seq<Argument>>, lastRead: seq<nat>, arrays: seq<Creation>,
                                           varId: map<nat, nat>, i: nat, k: nat)
    requires Collected(args, lastRead, |args|, arrays) && ReadLater(args, lastRead)
    requires NoOverlap(arrays, |arrays|, varId) && i < k < |args| && lastRead[i] > k + 1
    ensures PlacedApart(varId, i, |args[i]|, k, |args[k]|)
  {
    GoneIs(args, lastRead, arrays, k + 1, i);
    assert arrays[i].args == args[i] && arrays[k].args == args[k];
    hide Gone, Separated, ReleasedAt;
  }

  /**
    The part of `reduceTemporaryVariables` for temporary arrays: `args` are the elements of the array of each
    statement, and `lastRead` is the last usage of these arrays.
   */
  method ReduceArrays(args: seq<seq<Argument>>, lastRead: seq<nat>, elements: map<nat, Element>)
    returns (varId: map<nat, nat>, idArrayCount: nat, ghost arrays: seq<Creation>, ghost counts: seq<nat>,
             ghost history: seq<seq<Option<Argument>>>)
    requires ReadLater(args, lastRead) && ReadsRecorded(args, lastRead, elements)
    ensures forall i: nat :: i in varId <==> i < |args|
    // an array that is read after another one is created shares no cell with that one
    ensures forall i: nat, k: nat :: i < k < |args| && lastRead[i] > k + 1 ==>
      PlacedApart(varId, i, |args[i]|, k, |args[k]|)
    // nothing is overwritten while it is copied to a new array
    ensures Collected(args, lastRead, |args|, arrays) && |history| == |arrays|
    ensures forall k :: 0 <= k < |arrays| ==> StillThere(arrays, elements, varId, history[k], k)
    // there are new cells only if there is no room among the old ones
    ensures CountsCells(arrays, elements, varId, |arrays|, counts) && idArrayCount == counts[|arrays|]
    // there are no more cells than the arrays have elements
    ensures 0 < idArrayCount <= TotalSize(arrays, |arrays|) + 1
  {
    hide *;
    var creations := CollectArrayReleases(args, lastRead);
    arrays := creations;
    CollectedSize(args, lastRead, creations);
    CollectedIsWellUsed(args, lastRead, elements, creations);
    varId, idArrayCount, counts, history := PlaceArrays(creations, elements);
    forall i: nat, k: nat | i < k < |args| && lastRead[i] > k + 1
      ensures PlacedApart(varId, i, |args[i]|, k, |args[k]|)
    {
      ReadIsSeparated(args, lastRead, creations, varId, i, k);
    }
  }

  lemma {:induction false} CollectedSize(args: seq<seq<Argument>>, lastRead: seq<nat>, arrays: seq<Creation>)
    requires Collected(args, lastRead, |args|, arrays) && ReadLater(args, lastRead)
    ensures |arrays| == |args| == |lastRead|
  {}

  // ---------------------------------------------------------------------------------------------
  // What the last usages of a graph say about its arrays

  /** Node c, an element of an array of statement e.arrayNode, is evaluated within statement j. */
  ghost predicate ElementNode(g: OperationGraph.Graph, dependents: seq<nat>, queue: seq<nat>, order: seq<nat>,
                              args: seq<seq<Argument>>, j: nat, c: nat, e: Element)
    requires |order| == |g|
  {
    && c < |g| && LiveNodes.Live(g, dependents, c) && order[c] == j + 1
    && e.arrayNode < |queue| == |args| && e.index < |args[e.arrayNode]|
    && OperationGraph.HasArg(g, c, queue[e.arrayNode])
  }

  /** The last usages of the queued arrays. */
  ghost function ArrayReads(queue: seq<nat>, lastUse: seq<nat>): (r: seq<nat>)
    ensures |r| == |queue| && forall p :: 0 <= p < |queue| && queue[p] < |lastUse| ==> r[p] == lastUse[queue[p]]
  {
    seq(|queue|, p requires 0 <= p < |queue| => if queue[p] < |lastUse| then lastUse[queue[p]] else 0)
  }

  /** The last usages of a graph with arrays among its temporaries are as the placing needs them. */
  lemma {:induction false} ReadsOfGraph(g: OperationGraph.Graph, dependents: seq<nat>, creates: seq<bool>,
                                        queue: seq<nat>, order: seq<nat>, lastUse: seq<nat>,
                                        args: seq<seq<Argument>>, elements: map<nat, Element>)
    requires EvaluationOrder.AllNumbered(g, dependents, creates, queue, order)
    requires OperationGraph.IsGraph(g) && |order| == |g|
    requires EvaluationOrder.LastUses(g, dependents, order, lastUse)
    requires |args| == |queue| && forall p :: 0 <= p < |queue| && |args[p]| > 0 ==> queue[p] !in dependents
    requires forall j: nat, p: nat {:trigger args[j][p]} ::
      j < |args| && p < |args[j]| && args[j][p].Operation? && args[j][p].node in elements ==>
        ElementNode(g, dependents, queue, order, args, j, args[j][p].node, elements[args[j][p].node])
    ensures ReadLater(args, ArrayReads(queue, lastUse)) && ReadsRecorded(args, ArrayReads(queue, lastUse), elements)
  {
    hide EvaluationOrder.AllNumbered, EvaluationOrder.LastUses, ElementNode;
    forall p: nat | p < |args| && |args[p]| > 0
      ensures queue[p] < |lastUse| && p + 1 < lastUse[queue[p]] <= |queue|
    {
      EvaluationOrder.UsedLater(g, dependents, creates, queue, order, lastUse, p);
      UsesLength(g, dependents, order, lastUse);
    }
    forall j: nat, p: nat {:trigger args[j][p]} |
      j < |args| && p < |args[j]| && args[j][p].Operation? && args[j][p].node in elements
      ensures ReadRecorded(args, ArrayReads(queue, lastUse), j, elements[args[j][p].node])
    {
      ElementIsRead(g, dependents, creates, queue, order, lastUse, args, j, args[j][p].node, elements[args[j][p].node]);
    }
    hide ReadRecorded;
  }

  lemma {:induction false} UsesLength(g: OperationGraph.Graph, dependents: seq<nat>, order: seq<nat>, lastUse: seq<nat>)
    requires OperationGraph.IsGraph(g) && |order| == |g| && EvaluationOrder.LastUses(g, dependents, order, lastUse)
    ensures |lastUse| == |g|
  {}

  lemma {:induction false} ElementIsRead(g: OperationGraph.Graph, dependents: seq<nat>, creates: seq<bool>,
                                         queue: seq<nat>, order: seq<nat>, lastUse: seq<nat>,
                                         args: seq<seq<Argument>>, j: nat, c: nat, e: Element)
    requires EvaluationOrder.AllNumbered(g, dependents, creates, queue, order)
    requires OperationGraph.IsGraph(g) && |order| == |g|
    requires EvaluationOrder.LastUses(g, dependents, order, lastUse)
    requires |args| == |queue| && forall p :: 0 <= p < |queue| && |args[p]| > 0 ==> queue[p] !in dependents
    requires ElementNode(g, dependents, queue, order, args, j, c, e) && j < |args|
    ensures ReadRecorded(args, ArrayReads(queue, lastUse), j, e)
  {
    hide EvaluationOrder.AllNumbered, LiveNodes.Live;
    var i := e.arrayNode;
    var a := queue[i];
    EvaluationOrder.QueuedNode(g, dependents, creates, queue, order, i);
    assert a in queue;
    EvaluationOrder.ComputedBefore(g, dependents, creates, queue, order, c, a);
    assert EvaluationOrder.Takes(g, c, a);
    hide EvaluationOrder.UsedIn;
  }
}
