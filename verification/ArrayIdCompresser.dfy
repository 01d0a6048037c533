/**
  Positions of temporary arrays inside one global array.  Released positions are reused, but a new array
  is not placed over elements that its own definition reads.
 */
module ArrayIdCompressers {
  import opened ArraySpaces
  import opened Wrappers

  datatype Argument = Parameter(value: real) | Operation(node: nat)

  /** What an array element operation reads. */
  datatype Element = Element(arrayNode: nat, index: nat)

  predicate IsSameArrayElement(oldArg: Option<Argument>, arg: Argument) {
    match oldArg
    case None => false
    case Some(Parameter(v)) => arg.Parameter? && arg.value == v
    case Some(Operation(n)) => arg.Operation? && arg.node == n
  }

  /** The cells that the arguments read. */
  ghost function BlackList(args: seq<Argument>, elements: map<nat, Element>, varId: map<nat, nat>): set<nat>
    requires Placed(args, elements, varId)
  {
    if args == [] then {}
    else
      var last := args[|args| - 1];
      BlackList(args[..|args| - 1], elements, varId) +
      if last.Operation? && last.node in elements
      then {varId[elements[last.node].arrayNode] - 1 + elements[last.node].index}
      else {}
  }

  /** The arrays that the arguments read have already been given their positions. */
  ghost predicate Placed(args: seq<Argument>, elements: map<nat, Element>, varId: map<nat, nat>) {
    forall i :: 0 <= i < |args| && args[i].Operation? && args[i].node in elements ==>
      elements[args[i].node].arrayNode in varId && varId[elements[args[i].node].arrayNode] > 0
  }

  /** The number of the first k cells from `start` on that hold the values they would be given. */
  function CommonValues(values: seq<Option<Argument>>, args: seq<Argument>, start: nat, k: nat): (r: nat)
    requires k <= |args| && start + k <= |values|
    ensures r <= k
  {
    if k == 0 then 0
    else CommonValues(values, args, start, k - 1) + if IsSameArrayElement(values[start + k - 1], args[k - 1]) then 1
         else 0
  }

  /** The cells that already hold the values they would be given. */
  ghost function Matching(values: seq<Option<Argument>>, args: seq<Argument>, start: nat, k: nat): set<nat> {
    set i: nat | i < k && i < |args| && start + i < |values| && values[start + i] == Some(args[i])
  }

  /** What is counted are the cells that need not be written. */
  lemma {:induction false} CommonValuesCount(values: seq<Option<Argument>>, args: seq<Argument>, start: nat, k: nat)
    requires k <= |args| && start + k <= |values|
    ensures CommonValues(values, args, start, k) == |Matching(values, args, start, k)|
  {
    if k == 0 {
      assert Matching(values, args, start, 0) == {};
    } else {
      var i: nat := k - 1;
      CommonValuesCount(values, args, start, i);
      assert Matching(values, args, start, k) ==
        Matching(values, args, start, i) + if values[start + i] == Some(args[i]) then {i} else {};
    }
  }

  /** All are counted exactly if the space holds the new array already. */
  lemma {:induction false} AllInCommon(values: seq<Option<Argument>>, args: seq<Argument>, start: nat, k: nat)
    requires k <= |args| && start + k <= |values|
    ensures CommonValues(values, args, start, k) == k <==> forall i :: 0 <= i < k ==> values[start + i] == Some(args[i])
  {
    if k > 0 {
      AllInCommon(values, args, start, k - 1);
    }
  }

  /** Argument i is the element of another array that is in cell c. */
  ghost predicate Reads(args: seq<Argument>, elements: map<nat, Element>, varId: map<nat, nat>, i: nat, c: int)
    requires Placed(args, elements, varId)
  {
    && i < |args| && args[i].Operation? && args[i].node in elements
    && c == varId[elements[args[i].node].arrayNode] - 1 + elements[args[i].node].index
  }

  /** The black list has the cells of the elements that are read and no others. */
  lemma {:induction false} BlackListHas(args: seq<Argument>, elements: map<nat, Element>, varId: map<nat, nat>, c: nat)
    requires Placed(args, elements, varId)
    ensures c in BlackList(args, elements, varId) <==> exists i: nat :: Reads(args, elements, varId, i, c)
  {
    if args != [] {
      var rest := args[..|args| - 1];
      assert Placed(rest, elements, varId);
      BlackListHas(rest, elements, varId, c);
      forall i: nat | i < |rest|
        ensures Reads(rest, elements, varId, i, c) <==> Reads(args, elements, varId, i, c)
      {}
      assert Reads(args, elements, varId, |rest|, c) || !Reads(args, elements, varId, |rest|, c);
    }
  }

  predicate Touches(blackList: set<nat>, start: nat, end: nat) {
    exists c :: c in blackList && start <= c <= end
  }

  /** A free space that is large enough and holds nothing that is still read. */
  predicate Candidate(starts: Spaces, blackList: set<nat>, size: nat, s: nat) {
    s in starts && s <= starts[s] && starts[s] - s + 1 >= size && !Touches(blackList, s, starts[s])
  }

  /** The state of the search: the best space so far, the values it has in common, and whether to stop. */
  datatype Choice = Choice(best: Option<nat>, common: nat, stop: bool)

  /** All free spaces fit into the values kept. */
  ghost predicate Within(starts: Spaces, limit: nat) {
    forall s :: s in starts ==> s <= starts[s] < limit
  }

  /** One more free space, the one that starts at s, is compared with the best so far. */
  function Compare(starts: Spaces, values: seq<Option<Argument>>, args: seq<Argument>, blackList: set<nat>, c: Choice,
                   s: nat): (r: Choice)
    requires Within(starts, |values|) && (c.best.Some? ==> c.best.value in starts)
    ensures r.best.Some? ==> r.best.value in starts
  {
    if c.stop || !Candidate(starts, blackList, |args|, s) then c
    else if c.best.None? then c.(best := Some(s))
    else
      var bestSpace := starts[c.best.value] - c.best.value + 1;
      var common := CommonValues(values, args, s, |args|);
      if starts[s] - s + 1 < bestSpace || common > c.common then Choice(Some(s), common, common == |args|)
      else c
  }

  /** The choice after all free spaces that start at `from` or later, last one first. */
  ghost function Search(starts: Spaces, values: seq<Option<Argument>>, args: seq<Argument>, blackList: set<nat>,
                        from: nat): (r: Choice)
    requires Within(starts, |values|) && from <= |values|
    ensures r.best.Some? ==> r.best.value in starts
    decreases |values| - from
  {
    if from == |values| then Choice(None, 0, false)
    else Compare(starts, values, args, blackList, Search(starts, values, args, blackList, from + 1), from)
  }

  /** The search finds a usable space exactly if there is one. */
  lemma {:induction false} SearchFinds(starts: Spaces, values: seq<Option<Argument>>, args: seq<Argument>,
                                       blackList: set<nat>, from: nat)
    requires Within(starts, |values|) && from <= |values|
    ensures var c := Search(starts, values, args, blackList, from);
      && (c.best.Some? ==> c.best.value >= from && Candidate(starts, blackList, |args|, c.best.value))
      && (c.best.None? ==> !c.stop && forall s :: s >= from ==> !Candidate(starts, blackList, |args|, s))
    decreases |values| - from
  {
    hide Candidate, CommonValues;
    if from == |values| {
      forall s | s >= from
        ensures !Candidate(starts, blackList, |args|, s)
      {
        NoCandidate(starts, blackList, |args|, |values|, s);
      }
    } else {
      SearchFinds(starts, values, args, blackList, from + 1);
    }
  }

  lemma {:induction false} NoCandidate(starts: Spaces, blackList: set<nat>, size: nat, limit: nat, s: nat)
    requires Within(starts, limit) && s >= limit
    ensures !Candidate(starts, blackList, size, s)
  {}

  /**
    When no usable space holds a value that could be kept, the search returns the smallest usable
    space, and of several equally small ones the last.
   */
  lemma {:induction false} SearchFindsSmallest(starts: Spaces, values: seq<Option<Argument>>, args: seq<Argument>,
                                               blackList: set<nat>, from: nat)
    requires Within(starts, |values|) && from <= |values| && |args| > 0
    requires forall s: nat :: Candidate(starts, blackList, |args|, s) ==>
      s + |args| <= |values| && CommonValues(values, args, s, |args|) == 0
    ensures var c := Search(starts, values, args, blackList, from);
      && c.common == 0 && !c.stop
      && (c.best.Some? ==> forall s :: s >= from && Candidate(starts, blackList, |args|, s) ==>
            var b := c.best.value; starts[b] - b <= starts[s] - s && (starts[b] - b == starts[s] - s ==> s <= b))
    decreases |values| - from
  {
    if from < |values| {
      SearchFindsSmallest(starts, values, args, blackList, from + 1);
      SearchFinds(starts, values, args, blackList, from + 1);
    }
  }

  /** The usable space that is visited first, which is the last one. */
  ghost predicate IsFirst(starts: Spaces, blackList: set<nat>, size: nat, s: nat) {
    Candidate(starts, blackList, size, s) && forall t :: t > s ==> !Candidate(starts, blackList, size, t)
  }

  /** The number of values that count for a space: none for the first one that is visited. */
  ghost function Score(starts: Spaces, values: seq<Option<Argument>>, args: seq<Argument>, blackList: set<nat>,
                       s: nat): nat
    requires s + |args| <= |values|
  {
    if IsFirst(starts, blackList, |args|, s) then 0 else |Matching(values, args, s, |args|)|
  }

  lemma {:induction false} CandidateFits(starts: Spaces, blackList: set<nat>, size: nat, s: nat, limit: nat)
    requires Within(starts, limit) && Candidate(starts, blackList, size, s)
    ensures s + size <= limit && s < limit && s in starts
  {}

  /** One more space, in terms of the values that count. */
  lemma {:induction false} SearchOne(starts: Spaces, values: seq<Option<Argument>>, args: seq<Argument>,
                                     blackList: set<nat>, s: nat)
    requires Within(starts, |values|) && s < |values|
    ensures var c, c' := Search(starts, values, args, blackList, s + 1), Search(starts, values, args, blackList, s);
      if c.stop || !Candidate(starts, blackList, |args|, s) then c' == c
      else
        && s + |args| <= |values| && s in starts
        && if c.best.None? then c' == c.(best := Some(s))
           else
             && c.best.value in starts
             && var common := |Matching(values, args, s, |args|)|;
             c' == if starts[s] - s < starts[c.best.value] - c.best.value || common > c.common
                   then Choice(Some(s), common, common == |args|) else c
  {
    hide Matching, CommonValues;
    if Candidate(starts, blackList, |args|, s) {
      CandidateFits(starts, blackList, |args|, s, |values|);
      CommonValuesCount(values, args, s, |args|);
    }
  }

  /** What the search remembers of the best space. */
  lemma {:induction false} SearchRemembers(starts: Spaces, values: seq<Option<Argument>>, args: seq<Argument>,
                                           blackList: set<nat>, from: nat)
    requires Within(starts, |values|) && from <= |values| && |args| > 0
    ensures var c := Search(starts, values, args, blackList, from);
      && (c.stop <==> c.common == |args|)
      && (c.best.None? ==> c.common == 0)
      && (c.best.Some? ==>
            && Candidate(starts, blackList, |args|, c.best.value) && c.best.value + |args| <= |values|
            && c.best.value >= from && c.common == Score(starts, values, args, blackList, c.best.value))
    decreases |values| - from
  {
    hide Candidate, CommonValues, Matching, Search, IsFirst;
    if from == |values| {
      SearchEnd(starts, values, args, blackList);
    } else {
      SearchRemembers(starts, values, args, blackList, from + 1);
      SearchFinds(starts, values, args, blackList, from + 1);
      SearchOne(starts, values, args, blackList, from);
      FirstOrNot(starts, blackList, |args|, from, Search(starts, values, args, blackList, from + 1).best);
    }
  }

  lemma {:induction false} FirstOrNot(starts: Spaces, blackList: set<nat>, size: nat, s: nat, before: Option<nat>)
    requires before.Some? ==> before.value > s && Candidate(starts, blackList, size, before.value)
    requires before.None? ==> forall t :: t > s ==> !Candidate(starts, blackList, size, t)
    ensures Candidate(starts, blackList, size, s) ==> (IsFirst(starts, blackList, size, s) <==> before.None?)
  {
    hide Candidate;
  }

  /** Any other space than the first one is taken only if it is better than what was found before. */
  lemma {:induction false} SearchImproves(starts: Spaces, values: seq<Option<Argument>>, args: seq<Argument>,
                                          blackList: set<nat>, from: nat, b: nat)
    requires Within(starts, |values|) && from <= |values| && |args| > 0
    requires Search(starts, values, args, blackList, from).best == Some(b) && !IsFirst(starts, blackList, |args|, b)
    ensures b < |values| && b in starts
    ensures var before := Search(starts, values, args, blackList, b + 1).best;
      && before.Some? && before.value in starts && before.value > b && before.value + |args| <= |values|
      && (starts[b] - b < starts[before.value] - before.value
          || |Matching(values, args, b, |args|)| > Score(starts, values, args, blackList, before.value))
    decreases |values| - from
  {
    hide Candidate, CommonValues, Matching, Search, IsFirst, Score;
    if from == |values| {
      SearchEnd(starts, values, args, blackList);
      assert false;
    } else {
      SearchRemembers(starts, values, args, blackList, from + 1);
      SearchFinds(starts, values, args, blackList, from + 1);
      SearchOne(starts, values, args, blackList, from);
      FirstOrNot(starts, blackList, |args|, from, Search(starts, values, args, blackList, from + 1).best);
      if Search(starts, values, args, blackList, from + 1).best == Some(b) {
        SearchImproves(starts, values, args, blackList, from + 1, b);
      }
    }
  }

  /** What is visited after the space that is taken is neither smaller nor holds more values, unless it holds all. */
  lemma {:induction false} SearchIsFinal(starts: Spaces, values: seq<Option<Argument>>, args: seq<Argument>,
                                         blackList: set<nat>, from: nat, s: nat)
    requires Within(starts, |values|) && from <= s && from <= |values| && |args| > 0
    requires Candidate(starts, blackList, |args|, s)
    requires var c := Search(starts, values, args, blackList, from); c.best.Some? && s < c.best.value
    ensures var b := Search(starts, values, args, blackList, from).best.value;
      && b in starts && s in starts && b + |args| <= |values|
      && (Score(starts, values, args, blackList, b) == |args|
          || (starts[s] - s >= starts[b] - b
              && |Matching(values, args, s, |args|)| <= Score(starts, values, args, blackList, b)))
    decreases |values| - from
  {
    hide Candidate, CommonValues, Matching, Search, Score;
    CandidateFits(starts, blackList, |args|, s, |values|);
    SearchRemembers(starts, values, args, blackList, from);
    SearchRemembers(starts, values, args, blackList, from + 1);
    SearchOne(starts, values, args, blackList, from);
    if from < s {
      SearchIsFinal(starts, values, args, blackList, from + 1, s);
    }
  }

  /**
    If some space, other than the first one that is visited, holds the new array already, then such a space is
    taken: the one that is visited first.
   */
  lemma {:induction false} SearchKeepsAll(starts: Spaces, values: seq<Option<Argument>>, args: seq<Argument>,
                                          blackList: set<nat>, from: nat, s: nat)
    requires Within(starts, |values|) && from <= s && from <= |values| && |args| > 0
    requires Candidate(starts, blackList, |args|, s) && !IsFirst(starts, blackList, |args|, s)
    requires |Matching(values, args, s, |args|)| == |args|
    ensures var best := Search(starts, values, args, blackList, from).best;
      && best.Some? && best.value >= s && !IsFirst(starts, blackList, |args|, best.value)
      && best.value + |args| <= |values| && |Matching(values, args, best.value, |args|)| == |args|
    decreases |values| - from
  {
    hide Candidate, CommonValues, Matching, Search, IsFirst;
    CandidateFits(starts, blackList, |args|, s, |values|);
    SearchRemembers(starts, values, args, blackList, from);
    SearchRemembers(starts, values, args, blackList, from + 1);
    SearchFinds(starts, values, args, blackList, from + 1);
    SearchOne(starts, values, args, blackList, from);
    FirstOrNot(starts, blackList, |args|, from, Search(starts, values, args, blackList, from + 1).best);
    MatchingBound(values, args, s);
    if from < s {
      SearchKeepsAll(starts, values, args, blackList, from + 1, s);
    } else if Search(starts, values, args, blackList, from + 1).best.Some? {
      MatchingBound(values, args, Search(starts, values, args, blackList, from + 1).best.value);
    }
  }

  lemma {:induction false} MatchingBound(values: seq<Option<Argument>>, args: seq<Argument>, start: nat)
    requires start + |args| <= |values|
    ensures |Matching(values, args, start, |args|)| <= |args|
  {
    CommonValuesCount(values, args, start, |args|);
  }

  /**
    Where an array goes that fits no free space: onto the last free space, if nothing there is still read, or behind
    all cells.
   */
  ghost function Extension(ends: Spaces, blackList: set<nat>, cells: nat): nat {
    if cells > 0 && cells - 1 in ends && (forall c :: c in blackList ==> c < ends[cells - 1]) then ends[cells - 1]
      else cells
  }

  lemma {:induction false} ExtensionIs(ends: Spaces, blackList: set<nat>, cells: nat)
    ensures cells > 0 && cells - 1 in ends && (forall c :: c in blackList ==> c < ends[cells - 1]) ==>
      Extension(ends, blackList, cells) == ends[cells - 1]
  {}

  lemma {:induction false} NoneUsable(starts: Spaces, blackList: set<nat>, size: nat, limit: nat)
    requires Within(starts, limit) && forall s :: !Candidate(starts, blackList, size, s)
    ensures forall s :: s in starts ==> starts[s] - s + 1 < size || exists c :: c in blackList && s <= c <= starts[s]
  {
    forall s | s in starts
      ensures starts[s] - s + 1 < size || exists c :: c in blackList && s <= c <= starts[s]
    {
      assert !Candidate(starts, blackList, size, s);
    }
  }

  /** The position of a new array. */
  ghost function Placement(starts: Spaces, ends: Spaces, values: seq<Option<Argument>>, args: seq<Argument>,
                           blackList: set<nat>, cells: nat): nat
    requires Within(starts, |values|)
  {
    var best := Search(starts, values, args, blackList, 0).best;
    if best.Some? then best.value else Extension(ends, blackList, cells)
  }

  lemma {:induction false} SearchEnd(starts: Spaces, values: seq<Option<Argument>>, args: seq<Argument>,
                                     blackList: set<nat>)
    requires Within(starts, |values|)
    ensures Search(starts, values, args, blackList, |values|) == Choice(None, 0, false)
  {}

  /** What one more free space changes. */
  lemma {:induction false} SearchNext(starts: Spaces, values: seq<Option<Argument>>, args: seq<Argument>,
                                      blackList: set<nat>, s: nat)
    requires Within(starts, |values|) && s < |values|
    ensures var c, c' := Search(starts, values, args, blackList, s + 1), Search(starts, values, args, blackList, s);
      if c.stop || s !in starts || starts[s] - s + 1 < |args| || Touches(blackList, s, starts[s]) then c' == c
      else if c.best.None? then c' == c.(best := Some(s))
      else var common := CommonValues(values, args, s, |args|);
        c' == if starts[s] - s < starts[c.best.value] - c.best.value || common > c.common
              then Choice(Some(s), common, common == |args|) else c
  {
    hide CommonValues, Touches;
  }

  /** The free spaces after a release, one neighbour after the other. */
  lemma {:induction false} MergedStarts(starts: Spaces, ends: Spaces, b: nat, e: nat)
    requires b <= e && (b > 0 && b - 1 in ends ==> ends[b - 1] <= e)
    ensures var before := b > 0 && b - 1 in ends;
      var a := if before then ends[b - 1] else b;
      var starts1 := if before then starts - {a} else starts;
      var starts2, z := if e + 1 in starts1 then starts1 - {e + 1}
        else starts1, if e + 1 in starts1 then starts1[e + 1] else e;
      Merged(starts, ends, b, e) == starts2[a := z]
  {}

  lemma {:induction false} MergedBack(starts: Spaces, ends: Spaces, b: nat, e: nat)
    requires b <= e && (b > 0 && b - 1 in ends ==> ends[b - 1] <= e)
    ensures var before := b > 0 && b - 1 in ends;
      var a := if before then ends[b - 1] else b;
      var starts1, ends1 := if before then starts - {a} else starts, if before then ends - {b - 1} else ends;
      var z := if e + 1 in starts1 then starts1[e + 1] else e;
      var ends2 := if e + 1 in starts1 then ends1 - {z} else ends1;
      MergedEnds(starts, ends, b, e) == ends2[z := a]
  {}

  lemma {:induction false} ShrunkIs(starts: Spaces, ends: Spaces, s: nat, size: nat)
    requires s in starts
    ensures starts[s] + 1 == s + size ==>
      Shrunk(starts, s, size) == starts - {s} && ShrunkEnds(starts, ends, s, size) == ends - {starts[s]}
    ensures starts[s] + 1 != s + size ==>
      && Shrunk(starts, s, size) == (starts - {s})[s + size := starts[s]]
      && ShrunkEnds(starts, ends, s, size) == ends[starts[s] := s + size]
  {}

  class ArrayIdCompresser {
    // free spaces by their first cell and by their last cell
    var freeArrayStartSpace: Spaces
    var freeArrayEndSpace: Spaces
    // the values last assigned to the cells
    var tmpArrayValues: seq<Option<Argument>>
    var idArrayCount: nat
    // the arrays in use, by their first cell, and the total size of all arrays ever placed
    ghost var blocks: Spaces
    ghost var reserved: nat

    ghost predicate Valid()
      reads this
    {
      && Inverse(freeArrayStartSpace, freeArrayEndSpace)
      && 0 < idArrayCount && Partition(freeArrayStartSpace, blocks, idArrayCount - 1)
      && idArrayCount - 1 <= reserved <= |tmpArrayValues|
    }

    constructor (maxArraySize: nat)
      ensures Valid() && blocks == map[] && reserved == 0 && |tmpArrayValues| == maxArraySize
    {
      freeArrayStartSpace, freeArrayEndSpace, blocks := map[], map[], map[];
      tmpArrayValues := seq(maxArraySize, _ => None);
      idArrayCount, reserved := 1, 0;
    }

    /** The parts of `Valid`. */
    lemma {:induction false} Named()
      requires Valid()
      ensures Inverse(freeArrayStartSpace, freeArrayEndSpace)
      ensures 0 < idArrayCount && Partition(freeArrayStartSpace, blocks, idArrayCount - 1)
      ensures idArrayCount - 1 <= reserved <= |tmpArrayValues|
    {}

    lemma {:induction false} Joined()
      requires Inverse(freeArrayStartSpace, freeArrayEndSpace)
      requires 0 < idArrayCount && Partition(freeArrayStartSpace, blocks, idArrayCount - 1)
      requires idArrayCount - 1 <= reserved <= |tmpArrayValues|
      ensures Valid()
    {}

    /** Cells become a free space, joined with the free spaces right before and right after them. */
    method AddSpace(start: nat, end: nat)
      requires start <= end
      requires start > 0 && start - 1 in freeArrayEndSpace ==> freeArrayEndSpace[start - 1] <= end
      modifies this`freeArrayStartSpace, this`freeArrayEndSpace
      ensures freeArrayStartSpace == Merged(old(freeArrayStartSpace), old(freeArrayEndSpace), start, end)
      ensures freeArrayEndSpace == MergedEnds(old(freeArrayStartSpace), old(freeArrayEndSpace), start, end)
    {
      hide *;
      MergedStarts(freeArrayStartSpace, freeArrayEndSpace, start, end);
      MergedBack(freeArrayStartSpace, freeArrayEndSpace, start, end);
      var arrayStart, arrayEnd := start, end;
      if arrayStart > 0 && arrayStart - 1 in freeArrayEndSpace {
        var previous: nat := arrayStart - 1;
        arrayStart := freeArrayEndSpace[previous];
        freeArrayEndSpace := freeArrayEndSpace - {previous};
        freeArrayStartSpace := freeArrayStartSpace - {arrayStart};
      }
      if arrayEnd + 1 in freeArrayStartSpace {
        var next: nat := arrayEnd + 1;
        arrayEnd := freeArrayStartSpace[next];
        freeArrayStartSpace := freeArrayStartSpace - {next};
        freeArrayEndSpace := freeArrayEndSpace - {arrayEnd};
      }
      freeArrayStartSpace := freeArrayStartSpace[arrayStart := arrayEnd];
      freeArrayEndSpace := freeArrayEndSpace[arrayEnd := arrayStart];
    }

    /** The space of the array with the given id is free again. */
    method AddFreeArraySpace(id: nat, arraySize: nat)
      requires Valid() && (arraySize > 0 ==> id > 0 && id - 1 in blocks && blocks[id - 1] == arraySize)
      modifies this`freeArrayStartSpace, this`freeArrayEndSpace, this`blocks
      ensures Valid()
      ensures blocks == if arraySize == 0 then old(blocks) else old(blocks) - {id - 1}
    {
      hide Inverse, Partition, Merged, MergedEnds;
      if arraySize == 0 {
        return;
      }
      var arrayStart: nat := id - 1;
      ReleaseSpace(freeArrayStartSpace, freeArrayEndSpace, blocks, idArrayCount - 1, arrayStart);
      SpaceBefore(freeArrayStartSpace, freeArrayEndSpace, blocks, idArrayCount - 1);
      AddSpace(arrayStart, arrayStart + arraySize - 1);
      blocks := blocks - {arrayStart};
    }

    /** The cells read by the elements of a new array. */
    method CollectBlackList(args: seq<Argument>, elements: map<nat, Element>, varId: map<nat, nat>)
      returns (blackList: set<nat>)
      requires Placed(args, elements, varId)
      ensures blackList == BlackList(args, elements, varId)
    {
      blackList := {};
      for i := 0 to |args|
        invariant blackList == BlackList(args[..i], elements, varId)
      {
        assert args[..i + 1][..i] == args[..i];
        if args[i].Operation? && args[i].node in elements {
          var element := elements[args[i].node];
          var otherArrayStart: nat := varId[element.arrayNode] - 1;
          blackList := blackList + {otherArrayStart + element.index};
        }
      }
      assert args[..|args|] == args;
    }

    method CountCommonValues(start: nat, args: seq<Argument>) returns (commonVals: nat)
      requires start + |args| <= |tmpArrayValues|
      ensures commonVals == CommonValues(tmpArrayValues, args, start, |args|)
    {
      commonVals := 0;
      for i := 0 to |args|
        invariant commonVals == CommonValues(tmpArrayValues, args, start, i)
      {
        if IsSameArrayElement(tmpArrayValues[start + i], args[i]) {
          commonVals := commonVals + 1;
        }
      }
    }

    /** The search for the best free space, from the last one to the first. */
    method FindBestFit(args: seq<Argument>, blackList: set<nat>) returns (best: Option<nat>)
      requires Valid() && |args| > 0
      ensures Within(freeArrayStartSpace, |tmpArrayValues|)
      ensures best == Search(freeArrayStartSpace, tmpArrayValues, args, blackList, 0).best
      ensures best.Some? ==> Candidate(freeArrayStartSpace, blackList, |args|, best.value)
      ensures best.None? ==> forall s :: !Candidate(freeArrayStartSpace, blackList, |args|, s)
    {
      FreeSpacesWithin(freeArrayStartSpace, blocks, idArrayCount - 1, |tmpArrayValues|);
      hide Inverse, Partition, CommonValues, IsSameArrayElement, Compare, Candidate, Touches, Search;
      SearchEnd(freeArrayStartSpace, tmpArrayValues, args, blackList);
      var start := |tmpArrayValues|;
      best := None;
      var bestCommonValues := 0;
      var stop := false;
      ghost var starts := freeArrayStartSpace;
      while start > 0 && !stop
        invariant 0 <= start <= |tmpArrayValues|
        invariant Choice(best, bestCommonValues, stop) == Search(starts, tmpArrayValues, args, blackList, start)
        decreases start
      {
        start := start - 1;
        SearchNext(starts, tmpArrayValues, args, blackList, start);
        if start !in freeArrayStartSpace {
          continue;
        }
        var end := freeArrayStartSpace[start];
        var space := end - start + 1;
        if space < |args| || Touches(blackList, start, end) {
          continue;
        }
        if best.None? {
          best := Some(start);
        } else {
          var bestSpace := freeArrayStartSpace[best.value] - best.value + 1;
          var commonVals := CountCommonValues(start, args);
          if space < bestSpace || commonVals > bestCommonValues {
            best := Some(start);
            bestCommonValues := commonVals;
            stop := bestCommonValues == |args|;
          }
        }
      }
      SearchStops(starts, tmpArrayValues, args, blackList, start);
      SearchFinds(starts, tmpArrayValues, args, blackList, 0);
    }

    /** The first cells of a free space are used. */
    method UseFreeSpace(bestStart: nat, arraySize: nat)
      requires Valid() && arraySize > 0 && reserved + arraySize <= |tmpArrayValues|
      requires bestStart in freeArrayStartSpace && bestStart + arraySize <= freeArrayStartSpace[bestStart] + 1
      modifies this`freeArrayStartSpace, this`freeArrayEndSpace, this`blocks, this`reserved
      ensures Valid() && reserved == old(reserved) + arraySize
      ensures bestStart !in old(blocks) && blocks == old(blocks)[bestStart := arraySize]
    {
      hide *;
      Named();
      UseSpace(freeArrayStartSpace, freeArrayEndSpace, blocks, idArrayCount - 1, bestStart, arraySize);
      ShrunkIs(freeArrayStartSpace, freeArrayEndSpace, bestStart, arraySize);
      var bestEnd := freeArrayStartSpace[bestStart];
      var bestSpace := bestEnd - bestStart + 1;
      freeArrayStartSpace := freeArrayStartSpace - {bestStart};
      if bestSpace == arraySize {
        freeArrayEndSpace := freeArrayEndSpace - {bestEnd};
      } else {
        var newFreeStart := bestStart + arraySize;
        freeArrayStartSpace := freeArrayStartSpace[newFreeStart := bestEnd];
        freeArrayEndSpace := freeArrayEndSpace[bestEnd := newFreeStart];
      }
      blocks := blocks[bestStart := arraySize];
      reserved := reserved + arraySize;
      Joined();
    }

    /** The free space that ends at the last cell grows. */
    method ExtendLastSpot(lastSpotStart: nat, arraySize: nat)
      requires Valid() && reserved + arraySize <= |tmpArrayValues|
      requires lastSpotStart in freeArrayStartSpace && freeArrayStartSpace[lastSpotStart] + 2 == idArrayCount
      requires arraySize > idArrayCount - 1 - lastSpotStart
      modifies this`freeArrayStartSpace, this`freeArrayEndSpace, this`idArrayCount, this`blocks, this`reserved
      ensures Valid() && reserved == old(reserved) + arraySize && idArrayCount == lastSpotStart + arraySize + 1
      ensures lastSpotStart !in old(blocks) && blocks == old(blocks)[lastSpotStart := arraySize]
    {
      GrowLast(freeArrayStartSpace, freeArrayEndSpace, blocks, idArrayCount - 1, lastSpotStart, arraySize);
      hide Inverse, Partition;
      var lastSpotEnd := freeArrayStartSpace[lastSpotStart];
      var lastSpotSize := lastSpotEnd - lastSpotStart + 1;
      freeArrayEndSpace := freeArrayEndSpace - {lastSpotEnd};
      freeArrayStartSpace := freeArrayStartSpace - {lastSpotStart};
      idArrayCount := idArrayCount + (arraySize - lastSpotSize);
      blocks := blocks[lastSpotStart := arraySize];
      reserved := reserved + arraySize;
    }

    method AddNewSpace(arraySize: nat) returns (bestStart: nat)
      requires Valid() && arraySize > 0 && reserved + arraySize <= |tmpArrayValues|
      modifies this`idArrayCount, this`blocks, this`reserved
      ensures Valid() && reserved == old(reserved) + arraySize
      ensures bestStart == old(idArrayCount) - 1 && idArrayCount == old(idArrayCount) + arraySize
      ensures bestStart !in old(blocks) && blocks == old(blocks)[bestStart := arraySize]
    {
      AppendSpace(freeArrayStartSpace, blocks, idArrayCount - 1, arraySize);
      hide Inverse, Partition;
      bestStart := idArrayCount - 1;
      idArrayCount := idArrayCount + arraySize;
      blocks := blocks[bestStart := arraySize];
      reserved := reserved + arraySize;
    }

    /** Room for a new array behind all others, joined with the last free space if that is possible. */
    method ExtendSpace(arraySize: nat, blackList: set<nat>) returns (bestStart: nat)
      requires Valid() && arraySize > 0 && reserved + arraySize <= |tmpArrayValues|
      requires forall s :: !Candidate(freeArrayStartSpace, blackList, arraySize, s)
      modifies this`freeArrayStartSpace, this`freeArrayEndSpace, this`idArrayCount, this`blocks, this`reserved
      ensures Valid() && reserved == old(reserved) + arraySize
      ensures bestStart !in old(blocks) && blocks == old(blocks)[bestStart := arraySize]
      ensures old(idArrayCount) - 1 <= bestStart + arraySize == idArrayCount - 1
      ensures forall c :: c in blackList && c < old(idArrayCount) - 1 ==> c < bestStart
      ensures bestStart == Extension(old(freeArrayEndSpace), blackList, old(idArrayCount) - 1)
    {
      LastSpace(freeArrayStartSpace, freeArrayEndSpace, blocks, idArrayCount - 1, blackList, arraySize);
      hide Inverse, Partition, Candidate;
      if idArrayCount >= 2 && idArrayCount - 2 in freeArrayEndSpace {
        var lastSpotStart := freeArrayEndSpace[idArrayCount - 2];
        if !exists c :: c in blackList && lastSpotStart <= c {
          ExtendLastSpot(lastSpotStart, arraySize);
          return lastSpotStart;
        }
      }
      bestStart := AddNewSpace(arraySize);
    }

    /** A position for a new array: the best free space, or new space if there is none. */
    method ReserveArraySpace(args: seq<Argument>, elements: map<nat, Element>, varId: map<nat, nat>)
      returns (bestStart: nat)
      requires Valid() && Placed(args, elements, varId)
      requires reserved + |args| <= |tmpArrayValues|
      modifies this
      ensures Valid() && reserved == old(reserved) + |args| && idArrayCount >= old(idArrayCount)
      ensures |args| == 0 ==> bestStart == 0 && blocks == old(blocks) && idArrayCount == old(idArrayCount)
      ensures |args| > 0 ==> bestStart !in old(blocks) && blocks == old(blocks)[bestStart := |args|]
      // nothing that the new array reads is overwritten
      ensures Spared(BlackList(args, elements, varId), old(idArrayCount) - 1, bestStart, |args|)
      // new space is taken only if every free space is too small or has a cell that the new array reads
      ensures idArrayCount > old(idArrayCount) ==> forall s :: s in old(freeArrayStartSpace) ==>
        || old(freeArrayStartSpace)[s] - s + 1 < |args|
        || exists c :: c in BlackList(args, elements, varId) && s <= c <= old(freeArrayStartSpace)[s]
      // and then no more than needed: the free space at the end is used if nothing from its start on is read
      ensures idArrayCount > old(idArrayCount) ==> bestStart + |args| == idArrayCount - 1
      ensures idArrayCount > old(idArrayCount) && old(idArrayCount) - 2 in old(freeArrayEndSpace) ==>
        (forall c :: c in BlackList(args, elements, varId) ==> c < old(freeArrayEndSpace)[old(idArrayCount) - 2]) ==>
        bestStart == old(freeArrayEndSpace)[old(idArrayCount) - 2]
      // the best free space, or else the end
      ensures |args| > 0 ==> Within(old(freeArrayStartSpace), |old(tmpArrayValues)|)
      ensures |args| > 0 ==>
        bestStart == Placement(old(freeArrayStartSpace), old(freeArrayEndSpace), old(tmpArrayValues), args,
                                                    BlackList(args, elements, varId), old(idArrayCount) - 1)
      ensures |tmpArrayValues| == old(|tmpArrayValues|)
      ensures forall c :: 0 <= c < |tmpArrayValues| ==>
        tmpArrayValues[c] == if In(c, bestStart, |args|) then Some(args[c - bestStart]) else old(tmpArrayValues[c])
    {
      hide Inverse, Partition, Candidate, Search, BlackList, Within, Extension;
      var arraySize := |args|;
      if arraySize == 0 {
        return 0;
      }
      var blackList := CollectBlackList(args, elements, varId);
      var best := FindBestFit(args, blackList);
      if best.None? {
        NoneUsable(freeArrayStartSpace, blackList, arraySize, |tmpArrayValues|);
        ExtensionIs(freeArrayEndSpace, blackList, idArrayCount - 1);
      }
      bestStart := TakeSpace(best, arraySize, blackList);
      StoreValues(bestStart, args);
    }

    method TakeSpace(best: Option<nat>, arraySize: nat, blackList: set<nat>) returns (bestStart: nat)
      requires Valid() && arraySize > 0 && reserved + arraySize <= |tmpArrayValues|
      requires best.Some? ==> Candidate(freeArrayStartSpace, blackList, arraySize, best.value)
      requires best.None? ==> forall s :: !Candidate(freeArrayStartSpace, blackList, arraySize, s)
      modifies this`freeArrayStartSpace, this`freeArrayEndSpace, this`idArrayCount, this`blocks, this`reserved
      ensures Valid() && reserved == old(reserved) + arraySize && bestStart + arraySize < idArrayCount
      ensures bestStart !in old(blocks) && blocks == old(blocks)[bestStart := arraySize]
      ensures if best.Some? then bestStart == best.value && idArrayCount == old(idArrayCount)
              else idArrayCount >= old(idArrayCount) && bestStart + arraySize == idArrayCount - 1
      ensures best.None? ==> bestStart == Extension(old(freeArrayEndSpace), blackList, old(idArrayCount) - 1)
      ensures Spared(blackList, old(idArrayCount) - 1, bestStart, arraySize)
    {
      hide Inverse, Partition, Candidate;
      if best.Some? {
        bestStart := best.value;
        CandidateIsFree(freeArrayStartSpace, blocks, idArrayCount - 1, blackList, arraySize, bestStart);
        UseFreeSpace(bestStart, arraySize);
      } else {
        bestStart := ExtendSpace(arraySize, blackList);
      }
    }

    method StoreValues(bestStart: nat, args: seq<Argument>)
      requires bestStart + |args| <= |tmpArrayValues|
      modifies this`tmpArrayValues
      ensures |tmpArrayValues| == old(|tmpArrayValues|)
      ensures forall c :: 0 <= c < |tmpArrayValues| ==>
        tmpArrayValues[c] == if In(c, bestStart, |args|) then Some(args[c - bestStart]) else old(tmpArrayValues[c])
    {
      for i := 0 to |args|
        invariant |tmpArrayValues| == old(|tmpArrayValues|)
        invariant forall c :: 0 <= c < |tmpArrayValues| ==>
          tmpArrayValues[c] == if In(c, bestStart, i) then Some(args[c - bestStart]) else old(tmpArrayValues[c])
      {
        tmpArrayValues := tmpArrayValues[bestStart + i := Some(args[i])];
      }
    }
  }

  /** A search that stopped does not change its mind. */
  lemma {:induction false} SearchStops(starts: Spaces, values: seq<Option<Argument>>, args: seq<Argument>,
                                       blackList: set<nat>, from: nat)
    requires Within(starts, |values|) && from <= |values|
    requires from == 0 || Search(starts, values, args, blackList, from).stop
    ensures Search(starts, values, args, blackList, 0) == Search(starts, values, args, blackList, from)
    decreases from
  {
    if from > 0 {
      SearchStops(starts, values, args, blackList, from - 1);
    }
  }

  lemma {:induction false} FreeSpacesWithin(starts: Spaces, blocks: Spaces, cells: nat, limit: nat)
    requires Partition(starts, blocks, cells) && cells <= limit
    ensures Within(starts, limit) && forall s :: s in starts ==> starts[s] < cells
  {
    forall s | s in starts
      ensures s <= starts[s] < cells
    {
      assert Free(starts, starts[s]);
    }
  }

  /** Cells that are still read, and are part of some space, are not in the new array. */
  ghost predicate Spared(blackList: set<nat>, cells: nat, start: nat, size: nat) {
    forall c :: c in blackList && c < cells ==> !In(c, start, size)
  }

  lemma {:induction false} CandidateIsFree(starts: Spaces, blocks: Spaces, cells: nat, blackList: set<nat>, size: nat,
                                           s: nat)
    requires Partition(starts, blocks, cells) && Candidate(starts, blackList, size, s)
    ensures s in starts && s + size <= starts[s] + 1 <= cells && Spared(blackList, cells, s, size)
  {
    FreeSpacesWithin(starts, blocks, cells, cells);
  }

  /** The last free space is too small for an array that it could hold otherwise. */
  lemma {:induction false} LastSpace(starts: Spaces, ends: Spaces, blocks: Spaces, cells: nat, blackList: set<nat>,
                                     size: nat)
    requires Inverse(starts, ends) && Partition(starts, blocks, cells)
    requires forall s :: !Candidate(starts, blackList, size, s)
    ensures cells > 0 && cells - 1 in ends ==>
      && ends[cells - 1] in starts && starts[ends[cells - 1]] == cells - 1 && ends[cells - 1] < cells
      && (size > cells - ends[cells - 1] || exists c :: c in blackList && ends[cells - 1] <= c)
  {
    if cells > 0 && cells - 1 in ends {
      assert !Candidate(starts, blackList, size, ends[cells - 1]);
    }
  }

  lemma {:induction false} SpaceBefore(starts: Spaces, ends: Spaces, blocks: Spaces, cells: nat)
    requires Inverse(starts, ends) && Partition(starts, blocks, cells)
    ensures forall e :: e in ends ==> ends[e] <= e
  {}
}
