/** The cells of the array that all temporary arrays share: free spaces and live arrays. */
module ArraySpaces {

  /** Free spaces by start (giving their last cell), or live arrays by start (giving their size). */
  type Spaces = map<nat, nat>

  /** `ends` is the inverse of `starts`. */
  ghost predicate Inverse(starts: Spaces, ends: Spaces) {
    && (forall s :: s in starts ==> starts[s] in ends && ends[starts[s]] == s)
    && (forall e :: e in ends ==> ends[e] in starts && starts[ends[e]] == e)
  }

  /** Free spaces are not empty, and there is a cell between any two. */
  ghost predicate Separate(starts: Spaces) {
    && (forall s :: s in starts ==> s <= starts[s])
    && (forall s, t :: s in starts && t in starts && s < t ==> starts[s] + 1 < t)
  }

  /** Arrays are not empty and do not overlap. */
  ghost predicate Apart(blocks: Spaces) {
    && (forall b :: b in blocks ==> blocks[b] > 0)
    && (forall b, d :: b in blocks && d in blocks && b < d ==> b + blocks[b] <= d)
  }

  ghost predicate Free(starts: Spaces, c: nat) {
    exists s :: s in starts && s <= c <= starts[s]
  }

  ghost predicate Live(blocks: Spaces, c: nat) {
    exists b :: b in blocks && b <= c < b + blocks[b]
  }

  /** Every cell is in one free space or in one live array. */
  ghost predicate Partition(starts: Spaces, blocks: Spaces, cells: nat) {
    && Separate(starts) && Apart(blocks)
    && (forall c: nat :: (Free(starts, c) || Live(blocks, c)) <==> c < cells)
    && (forall c: nat :: !(Free(starts, c) && Live(blocks, c)))
  }

  ghost predicate In(c: nat, start: nat, size: nat) {
    start <= c < start + size
  }

  /** An array is placed where no other array is. */
  lemma {:induction false} AddBlock(starts: Spaces, blocks: Spaces, cells: nat, starts': Spaces, cells': nat, s: nat,
                                    size: nat)
    requires Partition(starts, blocks, cells) && Separate(starts') && size > 0
    requires forall c: nat :: In(c, s, size) ==> !Live(blocks, c)
    requires forall c: nat :: (Free(starts', c) || Live(blocks, c) || In(c, s, size)) <==> c < cells'
    requires forall c: nat :: Free(starts', c) ==> !Live(blocks, c) && !In(c, s, size)
    ensures s !in blocks && Partition(starts', blocks[s := size], cells')
  {
    hide Free;
    assert In(s, s, size) && !Live(blocks, s);
    var blocks' := blocks[s := size];
    forall c: nat
      ensures Live(blocks', c) <==> Live(blocks, c) || In(c, s, size)
    {
      if Live(blocks, c) {
        var b :| b in blocks && b <= c < b + blocks[b];
        assert b in blocks';
      } else if In(c, s, size) {
        assert s in blocks';
      }
    }
    forall d | d in blocks
      ensures d + blocks[d] <= s || s + size <= d
    {
      if d < s {
        assert In(s, s, size) && !Live(blocks, s);
      } else {
        assert Live(blocks, d) && !In(d, s, size);
      }
    }
  }

  /** What is left of the free spaces when one of them is used from its start. */
  function Shrunk(starts: Spaces, s: nat, size: nat): Spaces
    requires s in starts
  {
    if starts[s] + 1 == s + size then starts - {s} else (starts - {s})[s + size := starts[s]]
  }

  function ShrunkEnds(starts: Spaces, ends: Spaces, s: nat, size: nat): Spaces
    requires s in starts
  {
    if starts[s] + 1 == s + size then ends - {starts[s]} else ends[starts[s] := s + size]
  }

  lemma {:induction false} UseSpace(starts: Spaces, ends: Spaces, blocks: Spaces, cells: nat, s: nat, size: nat)
    requires Inverse(starts, ends) && Partition(starts, blocks, cells)
    requires s in starts && 0 < size <= starts[s] - s + 1
    ensures Inverse(Shrunk(starts, s, size), ShrunkEnds(starts, ends, s, size))
    ensures s !in blocks && Partition(Shrunk(starts, s, size), blocks[s := size], cells)
  {
    var starts' := Shrunk(starts, s, size);
    SeparateShrunk(starts, s, size);
    InverseShrunk(starts, ends, s, size);
    hide Inverse, Shrunk, ShrunkEnds;
    forall c: nat
      ensures Free(starts', c) <==> Free(starts, c) && !In(c, s, size)
    {
      FreeShrunk(starts, s, size, c);
    }
    forall c: nat | In(c, s, size)
      ensures Free(starts, c)
    {
      assert s in starts && s <= c <= starts[s];
    }
    hide Free, Live, Inverse, Separate, Apart, In;
    AddBlock(starts, blocks, cells, starts', cells, s, size);
  }

  lemma {:induction false} InverseShrunk(starts: Spaces, ends: Spaces, s: nat, size: nat)
    requires Inverse(starts, ends) && Separate(starts) && s in starts && 0 < size <= starts[s] - s + 1
    ensures Inverse(Shrunk(starts, s, size), ShrunkEnds(starts, ends, s, size))
  {}

  lemma {:induction false} SeparateShrunk(starts: Spaces, s: nat, size: nat)
    requires Separate(starts) && s in starts && 0 < size <= starts[s] - s + 1
    ensures Separate(Shrunk(starts, s, size))
  {}

  lemma {:induction false} FreeShrunk(starts: Spaces, s: nat, size: nat, c: nat)
    requires Separate(starts) && s in starts && 0 < size <= starts[s] - s + 1
    ensures Free(Shrunk(starts, s, size), c) <==> Free(starts, c) && !In(c, s, size)
  {
    var starts' := Shrunk(starts, s, size);
    if Free(starts, c) && !In(c, s, size) {
      var t :| t in starts && t <= c <= starts[t];
      if t == s {
        assert s + size in starts';
      } else {
        assert t in starts';
      }
    }
    if Free(starts', c) {
      var t :| t in starts' && t <= c <= starts'[t];
      hide Separate, Shrunk;
      if t == s + size {
        assert s in starts && s <= c <= starts[s];
      }
    }
  }

  /** The last free space, which ends at the last cell, grows. */
  lemma {:induction false} GrowLast(starts: Spaces, ends: Spaces, blocks: Spaces, cells: nat, s: nat, size: nat)
    requires Inverse(starts, ends) && Partition(starts, blocks, cells)
    requires s in starts && starts[s] + 1 == cells && size > cells - s
    ensures Inverse(starts - {s}, ends - {starts[s]})
    ensures s !in blocks && Partition(starts - {s}, blocks[s := size], s + size)
  {
    var starts' := Shrunk(starts, s, cells - s);
    SeparateShrunk(starts, s, cells - s);
    forall c: nat
      ensures Free(starts', c) <==> Free(starts, c) && !In(c, s, cells - s)
      ensures In(c, s, cells - s) ==> Free(starts, c)
    {
      FreeShrunk(starts, s, cells - s, c);
    }
    hide Free, Live, Inverse, Separate, Apart;
    AddBlock(starts, blocks, cells, starts', s + size, s, size);
  }

  lemma {:induction false} AppendSpace(starts: Spaces, blocks: Spaces, cells: nat, size: nat)
    requires Partition(starts, blocks, cells) && size > 0
    ensures cells !in blocks && Partition(starts, blocks[cells := size], cells + size)
  {
    hide Free, Live, Separate, Apart;
    AddBlock(starts, blocks, cells, starts, cells + size, cells, size);
  }

  // ---------------------------------------------------------------------------------------------
  // Giving space back

  /** The start of the free space that ends right before cell b, or b. */
  function MergedStart(ends: Spaces, b: nat): nat {
    if b > 0 && b - 1 in ends then ends[b - 1] else b
  }

  /** The end of the free space that starts right after cell e, or e. */
  function MergedEnd(starts: Spaces, e: nat): nat {
    if e + 1 in starts then starts[e + 1] else e
  }

  function Merged(starts: Spaces, ends: Spaces, b: nat, e: nat): Spaces {
    (starts - {MergedStart(ends, b), e + 1})[MergedStart(ends, b) := MergedEnd(starts, e)]
  }

  function MergedEnds(starts: Spaces, ends: Spaces, b: nat, e: nat): Spaces {
    (ends - (if b > 0 then {b - 1} else {}) - {MergedEnd(starts, e)})[MergedEnd(starts, e) := MergedStart(ends, b)]
  }

  /** The cells of an array lie outside the free spaces. */
  lemma {:induction false} BlockIsTaken(starts: Spaces, blocks: Spaces, cells: nat, b: nat)
    requires Partition(starts, blocks, cells) && b in blocks
    ensures forall t :: t in starts ==> starts[t] < b || b + blocks[b] <= t
  {
    forall t | t in starts
      ensures starts[t] < b || b + blocks[b] <= t
    {
      var c := if t < b then b else t;
      assert starts[t] >= b && t < b + blocks[b] ==> Free(starts, c) && Live(blocks, c);
    }
  }

  /** The cells from b to e lie outside the free spaces. */
  ghost predicate Mergeable(starts: Spaces, ends: Spaces, b: nat, e: nat) {
    && Inverse(starts, ends) && Separate(starts) && b <= e
    && forall t :: t in starts ==> starts[t] < b || e < t
  }

  /** The free spaces that end and start at the cells from b to e. */
  lemma {:induction false} Neighbours(starts: Spaces, ends: Spaces, b: nat, e: nat)
    requires Mergeable(starts, ends, b, e)
    ensures var a, z := MergedStart(ends, b), MergedEnd(starts, e);
      && a <= b <= e <= z
      && (if a < b then a in starts && starts[a] == b - 1 else b > 0 ==> b - 1 !in ends)
      && (if e < z then e + 1 in starts && starts[e + 1] == z else e + 1 !in starts)
  {}

  lemma {:induction false} OtherSpace(starts: Spaces, ends: Spaces, b: nat, e: nat, t: nat)
    requires Mergeable(starts, ends, b, e)
    requires t in starts && t != MergedStart(ends, b) && t != e + 1
    ensures starts[t] + 1 < MergedStart(ends, b) || MergedEnd(starts, e) + 1 < t
    ensures starts[t] in ends && ends[starts[t]] == t
  {
    Neighbours(starts, ends, b, e);
    hide MergedStart, MergedEnd;
  }

  lemma {:induction false} InverseMergedStart(starts: Spaces, ends: Spaces, b: nat, e: nat, t: nat)
    requires Mergeable(starts, ends, b, e) && t in Merged(starts, ends, b, e)
    ensures var y := Merged(starts, ends, b, e)[t];
      y in MergedEnds(starts, ends, b, e) && MergedEnds(starts, ends, b, e)[y] == t
  {
    Neighbours(starts, ends, b, e);
    if t != MergedStart(ends, b) {
      OtherSpace(starts, ends, b, e, t);
    }
    hide Mergeable, MergedStart, MergedEnd;
  }

  lemma {:induction false} InverseMergedEnd(starts: Spaces, ends: Spaces, b: nat, e: nat, y: nat)
    requires Mergeable(starts, ends, b, e) && y in MergedEnds(starts, ends, b, e)
    ensures var t := MergedEnds(starts, ends, b, e)[y];
      t in Merged(starts, ends, b, e) && Merged(starts, ends, b, e)[t] == y
  {
    Neighbours(starts, ends, b, e);
    assert y in ends ==> ends[y] in starts && starts[ends[y]] == y;
    hide Mergeable, MergedStart, MergedEnd;
  }

  lemma {:induction false} InverseMerged(starts: Spaces, ends: Spaces, b: nat, e: nat)
    requires Mergeable(starts, ends, b, e)
    ensures Inverse(Merged(starts, ends, b, e), MergedEnds(starts, ends, b, e))
  {
    hide Mergeable, Merged, MergedEnds;
    var starts', ends' := Merged(starts, ends, b, e), MergedEnds(starts, ends, b, e);
    forall t | t in starts'
      ensures starts'[t] in ends' && ends'[starts'[t]] == t
    {
      InverseMergedStart(starts, ends, b, e, t);
    }
    forall y | y in ends'
      ensures ends'[y] in starts' && starts'[ends'[y]] == y
    {
      InverseMergedEnd(starts, ends, b, e, y);
    }
  }

  /** A space of the merged ones is an old one, or the one from the merged start on. */
  lemma {:induction false} MergedAt(starts: Spaces, ends: Spaces, b: nat, e: nat, t: nat)
    requires Mergeable(starts, ends, b, e) && t in Merged(starts, ends, b, e)
    ensures t <= Merged(starts, ends, b, e)[t]
    ensures var a, z := MergedStart(ends, b), MergedEnd(starts, e);
      if t == a then Merged(starts, ends, b, e)[t] == z
      else t in starts && Merged(starts, ends, b, e)[t] == starts[t] && (starts[t] + 1 < a || z + 1 < t)
  {
    Neighbours(starts, ends, b, e);
    if t != MergedStart(ends, b) {
      OtherSpace(starts, ends, b, e, t);
      assert Separate(starts);
    }
    hide Mergeable, MergedStart, MergedEnd;
  }

  lemma {:induction false} SeparateMerged(starts: Spaces, ends: Spaces, b: nat, e: nat)
    requires Mergeable(starts, ends, b, e)
    ensures Separate(Merged(starts, ends, b, e))
  {
    assert Separate(starts);
    hide Mergeable, Merged, MergedStart, MergedEnd;
    var starts' := Merged(starts, ends, b, e);
    forall t | t in starts'
      ensures t <= starts'[t]
    {
      MergedAt(starts, ends, b, e, t);
    }
    forall s, t | s in starts' && t in starts' && s < t
      ensures starts'[s] + 1 < t
    {
      MergedAt(starts, ends, b, e, s);
      MergedAt(starts, ends, b, e, t);
    }
  }

  lemma {:induction false} MergedFrom(starts: Spaces, ends: Spaces, b: nat, e: nat, c: nat)
    requires Mergeable(starts, ends, b, e) && (Free(starts, c) || b <= c <= e)
    ensures Free(Merged(starts, ends, b, e), c)
  {
    Neighbours(starts, ends, b, e);
    var starts' := Merged(starts, ends, b, e);
    var a, z := MergedStart(ends, b), MergedEnd(starts, e);
    assert a in starts' && starts'[a] == z;
    if !(a <= c <= z) {
      var t :| t in starts && t <= c <= starts[t];
      assert t in starts' && starts'[t] == starts[t];
    }
  }

  lemma {:induction false} FreeMerged(starts: Spaces, ends: Spaces, b: nat, e: nat, c: nat)
    requires Mergeable(starts, ends, b, e)
    ensures Free(Merged(starts, ends, b, e), c) <==> Free(starts, c) || b <= c <= e
  {
    hide Mergeable, Merged, MergedStart, MergedEnd;
    if Free(starts, c) || b <= c <= e {
      MergedFrom(starts, ends, b, e, c);
    }
    if Free(Merged(starts, ends, b, e), c) && !(b <= c <= e) {
      var t :| t in Merged(starts, ends, b, e) && t <= c <= Merged(starts, ends, b, e)[t];
      MergedAt(starts, ends, b, e, t);
      Neighbours(starts, ends, b, e);
    }
  }

  lemma {:induction false} BlockIsMergeable(starts: Spaces, ends: Spaces, blocks: Spaces, cells: nat, b: nat)
    requires Inverse(starts, ends) && Partition(starts, blocks, cells) && b in blocks
    ensures blocks[b] > 0 && Mergeable(starts, ends, b, b + blocks[b] - 1)
  {
    BlockIsTaken(starts, blocks, cells, b);
    assert Separate(starts) && Apart(blocks);
  }

  lemma {:induction false} FreeReleased(starts: Spaces, ends: Spaces, blocks: Spaces, b: nat, c: nat)
    requires b in blocks && blocks[b] > 0 && Mergeable(starts, ends, b, b + blocks[b] - 1)
    ensures Free(Merged(starts, ends, b, b + blocks[b] - 1), c) <==> Free(starts, c) || In(c, b, blocks[b])
  {
    hide Mergeable, Merged, Free;
    FreeMerged(starts, ends, b, b + blocks[b] - 1, c);
  }

  /** A live array is released, and its space joins the free spaces next to it. */
  lemma {:induction false} ReleaseSpace(starts: Spaces, ends: Spaces, blocks: Spaces, cells: nat, b: nat)
    requires Inverse(starts, ends) && Partition(starts, blocks, cells) && b in blocks
    ensures blocks[b] > 0
    ensures Inverse(Merged(starts, ends, b, b + blocks[b] - 1), MergedEnds(starts, ends, b, b + blocks[b] - 1))
    ensures Partition(Merged(starts, ends, b, b + blocks[b] - 1), blocks - {b}, cells)
  {
    hide *;
    BlockIsMergeable(starts, ends, blocks, cells, b);
    var e := b + blocks[b] - 1;
    InverseMerged(starts, ends, b, e);
    SeparateMerged(starts, ends, b, e);
    forall c: nat
      ensures Free(Merged(starts, ends, b, e), c) <==> Free(starts, c) || In(c, b, blocks[b])
    {
      FreeReleased(starts, ends, blocks, b, c);
    }
    RemoveBlock(starts, blocks, cells, Merged(starts, ends, b, e), b);
  }

  lemma {:induction false} RemoveBlock(starts: Spaces, blocks: Spaces, cells: nat, starts': Spaces, b: nat)
    requires Partition(starts, blocks, cells) && Separate(starts') && b in blocks
    requires forall c: nat :: Free(starts', c) <==> Free(starts, c) || In(c, b, blocks[b])
    ensures Partition(starts', blocks - {b}, cells)
  {
    forall c: nat
      ensures Live(blocks - {b}, c) <==> Live(blocks, c) && !In(c, b, blocks[b])
      ensures In(c, b, blocks[b]) ==> Live(blocks, c)
    {
      LiveWithout(blocks, b, c);
    }
    hide Free, Live;
  }

  lemma {:induction false} LiveWithout(blocks: Spaces, b: nat, c: nat)
    requires Apart(blocks) && b in blocks
    ensures Live(blocks - {b}, c) <==> Live(blocks, c) && !(b <= c < b + blocks[b])
  {
    if Live(blocks, c) && !(b <= c < b + blocks[b]) {
      var d :| d in blocks && d <= c < d + blocks[d];
      assert d in blocks - {b};
    }
    if Live(blocks - {b}, c) {
      var d :| d in blocks - {b} && d <= c < d + blocks[d];
      assert d in blocks;
    }
  }

  /** The cells from s to e belong to no array, and to neither side there is another such cell. */
  ghost predicate IsGap(blocks: Spaces, cells: nat, s: nat, e: nat) {
    && s <= e < cells && (forall c: nat :: s <= c <= e ==> !Live(blocks, c))
    && (s > 0 ==> Live(blocks, s - 1)) && (e + 1 < cells ==> Live(blocks, e + 1))
  }

  /** The gaps between the arrays are the free spaces. */
  lemma {:induction false} GapIsSpace(starts: Spaces, blocks: Spaces, cells: nat, s: nat, e: nat)
    requires Partition(starts, blocks, cells) && IsGap(blocks, cells, s, e)
    ensures s in starts && starts[s] == e
  {
    assert Free(starts, s);
    var t :| t in starts && t <= s <= starts[t];
    hide Live, Apart;
    SpaceCells(starts, t);
    assert forall c: nat :: s <= c <= e ==> Free(starts, c);
    assert s == 0 || !Free(starts, s - 1);
    assert !Free(starts, e + 1) && !Free(starts, starts[t] + 1);
  }

  /** The cells of a space, and the one after it. */
  lemma {:induction false} SpaceCells(starts: Spaces, t: nat)
    requires Separate(starts) && t in starts
    ensures forall c: nat :: t <= c <= starts[t] ==> Free(starts, c)
    ensures !Free(starts, starts[t] + 1)
  {}
}
