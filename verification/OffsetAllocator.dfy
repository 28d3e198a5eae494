/**
 The allocator of per-thread storage offsets: a bump pointer over a fixed arena and, once that is
 used up, free lists of power-of-two blocks that are split on demand.
 */
module OffsetAllocator {
  import opened Options
  import opened Powers

  const MIN_SIZE: nat := 4
  const MAX_SIZE: nat := 30
  const ALLOC_SIZE: nat := 16 * 0x20_0000

  /** `2^log` bytes from `offset` on. */
  datatype Block = Block(offset: nat, log: nat)

  // ---------------------------------------------------------------- coverage

  function Covers(offset: int, log: nat, x: int): nat {
    if offset <= x < offset + Pow2(log) then 1 else 0
  }

  /** How many of the blocks contain byte `x`. */
  function LiveCover(live: seq<Block>, x: int): nat {
    if live == [] then 0 else LiveCover(live[..|live| - 1], x) + Covers(live[|live| - 1].offset, live[|live| - 1].log, x)
  }

  function ListCover(offsets: seq<nat>, log: nat, x: int): nat {
    if offsets == [] then 0 else ListCover(offsets[..|offsets| - 1], log, x) + Covers(offsets[|offsets| - 1], log, x)
  }

  function FreeCover(free: seq<seq<nat>>, x: int): nat {
    if free == [] then 0 else FreeCover(free[..|free| - 1], x) + ListCover(free[|free| - 1], |free| - 1, x)
  }

  /** Byte `x` is in exactly one block, live or free, if it is below `top` and outside the gap
      `[gap, gapEnd)`, and otherwise in none. */
  predicate ByteOk(live: seq<Block>, free: seq<seq<nat>>, top: nat, gap: int, gapEnd: int, x: int) {
    LiveCover(live, x) + FreeCover(free, x) == if 0 <= x < top && !(gap <= x < gapEnd) then 1 else 0
  }

  ghost predicate Tiles(live: seq<Block>, free: seq<seq<nat>>, top: nat, gap: int, gapEnd: int) {
    forall x: int :: ByteOk(live, free, top, gap, gapEnd, x)
  }

  lemma ListPush(offsets: seq<nat>, o: nat, log: nat, x: int)
    ensures ListCover(offsets + [o], log, x) == ListCover(offsets, log, x) + Covers(o, log, x)
  {
    assert (offsets + [o])[..|offsets|] == offsets;
  }

  lemma LivePush(live: seq<Block>, b: Block, x: int)
    ensures LiveCover(live + [b], x) == LiveCover(live, x) + Covers(b.offset, b.log, x)
  {
    assert (live + [b])[..|live|] == live;
  }

  lemma {:induction false} FreeUpdate(free: seq<seq<nat>>, i: nat, l: seq<nat>, x: int)
    requires i < |free|
    ensures FreeCover(free[i := l], x) == FreeCover(free, x) - ListCover(free[i], i, x) + ListCover(l, i, x)
  {
    var n := |free| - 1;
    if i == n {
      assert free[i := l][..n] == free[..n];
    } else {
      FreeUpdate(free[..n], i, l, x);
      assert free[i := l][..n] == free[..n][i := l];
    }
  }

  lemma {:induction false} LiveRemove(live: seq<Block>, i: nat, x: int)
    requires i < |live|
    ensures LiveCover(live[..i] + live[i + 1..], x) == LiveCover(live, x) - Covers(live[i].offset, live[i].log, x)
  {
    var n := |live| - 1;
    var rest := live[..i] + live[i + 1..];
    if i == n {
      assert rest == live[..n];
    } else {
      LiveRemove(live[..n], i, x);
      assert rest[..n - 1] == live[..n][..i] + live[..n][i + 1..];
      assert rest[n - 1] == live[n];
    }
  }

  lemma {:induction false} LiveContains(live: seq<Block>, i: nat, x: int)
    requires i < |live|
    ensures LiveCover(live, x) >= Covers(live[i].offset, live[i].log, x)
  {
    if i < |live| - 1 {
      LiveContains(live[..|live| - 1], i, x);
    }
  }

  /** Two live blocks never share a byte. */
  lemma LiveDisjoint(live: seq<Block>, free: seq<seq<nat>>, top: nat, i: nat, j: nat, x: int)
    requires Tiles(live, free, top, 0, 0) && i < |live| && j < |live| && i != j
    ensures !(Covers(live[i].offset, live[i].log, x) == 1 && Covers(live[j].offset, live[j].log, x) == 1)
  {
    assert ByteOk(live, free, top, 0, 0, x);
    LiveRemove(live, i, x);
    var rest := live[..i] + live[i + 1..];
    var k := if j < i then j else j - 1;
    assert rest[k] == live[j];
    LiveContains(rest, k, x);
  }

  /** A live block lies below the bump pointer. */
  lemma LiveInside(live: seq<Block>, free: seq<seq<nat>>, top: nat, i: nat)
    requires Tiles(live, free, top, 0, 0) && i < |live|
    ensures live[i].offset + Pow2(live[i].log) <= top
  {
    var last := live[i].offset + Pow2(live[i].log) - 1;
    LiveContains(live, i, last);
    assert ByteOk(live, free, top, 0, 0, last);
  }

  /** A live block and a free one never share a byte. */
  lemma LiveFreeDisjoint(live: seq<Block>, free: seq<seq<nat>>, top: nat, i: nat, x: int)
    requires Tiles(live, free, top, 0, 0) && i < |live| && Covers(live[i].offset, live[i].log, x) == 1
    ensures FreeCover(free, x) == 0
  {
    LiveContains(live, i, x);
    assert ByteOk(live, free, top, 0, 0, x);
  }

  // ---------------------------------------------------------------- the steps on blocks

  lemma BumpTiles(live: seq<Block>, free: seq<seq<nat>>, top: nat, log: nat)
    requires Tiles(live, free, top, 0, 0)
    ensures Tiles(live + [Block(top, log)], free, top + Pow2(log), 0, 0)
  {
    var live', top' := live + [Block(top, log)], top + Pow2(log);
    forall x: int ensures ByteOk(live', free, top', 0, 0, x) {
      LivePush(live, Block(top, log), x);
      assert ByteOk(live, free, top, 0, 0, x);
    }
  }

  /** A free block of `2^index` bytes becomes a live one of `2^log`; the rest is in no block yet. */
  lemma TakeTiles(live: seq<Block>, free: seq<seq<nat>>, top: nat, index: nat, log: nat)
    requires Tiles(live, free, top, 0, 0) && index < |free| && free[index] != [] && log <= index
    ensures var l := free[index];
            var o := l[|l| - 1];
            Tiles(live + [Block(o, log)], free[index := l[..|l| - 1]], top, o + Pow2(log), o + Pow2(index))
  {
    var l := free[index];
    var o, l' := l[|l| - 1], l[..|l| - 1];
    var live', free', gap, gapEnd := live + [Block(o, log)], free[index := l'], o + Pow2(log), o + Pow2(index);
    Pow2Monotone(log, index);
    FreeInside(live, free, top, index, |l| - 1);
    forall x: int ensures ByteOk(live', free', top, gap, gapEnd, x) {
      LivePush(live, Block(o, log), x);
      FreeUpdate(free, index, l', x);
      assert ByteOk(live, free, top, 0, 0, x);
      assert ListCover(l, index, x) == ListCover(l', index, x) + Covers(o, index, x);
    }
  }

  /** Change: the first `2^i` bytes of the gap become a free block. */
  lemma ChangeTiles(live: seq<Block>, free: seq<seq<nat>>, top: nat, start: nat, end: nat, i: nat)
    requires Tiles(live, free, top, start, end) && i < |free| && start + Pow2(i) <= end <= top
    ensures Tiles(live, free[i := free[i] + [start]], top, start + Pow2(i), end)
  {
    var l, rest := free[i] + [start], start + Pow2(i);
    var free' := free[i := l];
    forall x: int ensures ByteOk(live, free', top, rest, end, x) {
      FreeUpdate(free, i, l, x);
      ListPush(free[i], start, i, x);
      assert ByteOk(live, free, top, start, end, x);
    }
  }

  lemma ClosedGap(live: seq<Block>, free: seq<seq<nat>>, top: nat, gap: int)
    requires Tiles(live, free, top, gap, gap)
    ensures Tiles(live, free, top, 0, 0)
  {
    forall x: int ensures ByteOk(live, free, top, 0, 0, x) {
      assert ByteOk(live, free, top, gap, gap, x);
    }
  }

  /** Freeing the last block moves the bump pointer back. */
  lemma UnbumpTiles(live: seq<Block>, free: seq<seq<nat>>, top: nat, i: nat)
    requires Tiles(live, free, top, 0, 0) && i < |live| && live[i].offset + Pow2(live[i].log) == top
    ensures Tiles(live[..i] + live[i + 1..], free, live[i].offset, 0, 0)
  {
    var live', top' := live[..i] + live[i + 1..], live[i].offset;
    forall x: int ensures ByteOk(live', free, top', 0, 0, x) {
      LiveRemove(live, i, x);
      assert ByteOk(live, free, top, 0, 0, x);
    }
  }

  lemma FreeTiles(live: seq<Block>, free: seq<seq<nat>>, top: nat, i: nat)
    requires Tiles(live, free, top, 0, 0) && i < |live| && live[i].log < |free|
    ensures var l := free[live[i].log];
            Tiles(live[..i] + live[i + 1..], free[live[i].log := l + [live[i].offset]], top, 0, 0)
  {
    var log, o := live[i].log, live[i].offset;
    var l := free[log] + [o];
    var live', free' := live[..i] + live[i + 1..], free[log := l];
    forall x: int ensures ByteOk(live', free', top, 0, 0, x) {
      LiveRemove(live, i, x);
      FreeUpdate(free, log, l, x);
      ListPush(free[log], o, log, x);
      assert ByteOk(live, free, top, 0, 0, x);
    }
  }

  // ---------------------------------------------------------------- the allocator

  /** The exponent of the smallest block for `size` bytes; none if that is too large. */
  method NextLog2(size: nat) returns (r: Option<nat>)
    ensures r == if size <= Pow2(MAX_SIZE - 1) then Some(LogOf(size)) else None
    ensures r.Some? ==> MIN_SIZE <= r.value && size <= Pow2(r.value) && (r.value > MIN_SIZE ==> Pow2(r.value - 1) < size)
  {
    var i := MIN_SIZE;
    while Pow2(i) < size
      invariant MIN_SIZE <= i && LogFrom(i, size) == LogOf(size)
      decreases size - Pow2(i)
    {
      i := i + 1;
    }
    LogBelow(MIN_SIZE, size, MAX_SIZE - 1);
    if i >= MAX_SIZE {
      return None;
    }
    Pow2Monotone(i, MAX_SIZE - 1);
    if i > MIN_SIZE {
      LogBelow(MIN_SIZE, size, i - 1);
    }
    return Some(i);
  }

  function LogFrom(i: nat, size: nat): nat
    decreases size - Pow2(i)
  {
    if Pow2(i) >= size then i else LogFrom(i + 1, size)
  }

  function LogOf(size: nat): nat {
    LogFrom(MIN_SIZE, size)
  }

  lemma {:induction false} LogBelow(i: nat, size: nat, k: nat)
    requires i <= k
    ensures LogFrom(i, size) <= k <==> size <= Pow2(k)
    ensures size <= Pow2(LogFrom(i, size)) && LogFrom(i, size) >= i
    decreases size - Pow2(i)
  {
    if Pow2(i) < size {
      if i < k {
        LogBelow(i + 1, size, k);
      } else {
        LogAbove(i + 1, size);
      }
    } else {
      Pow2Monotone(i, k);
    }
  }

  lemma {:induction false} LogAbove(i: nat, size: nat)
    ensures LogFrom(i, size) >= i && size <= Pow2(LogFrom(i, size))
    decreases size - Pow2(i)
  {
    if Pow2(i) < size {
      LogAbove(i + 1, size);
    }
  }

  /** The free lists after the last block of list `index` has been taken for `2^log` bytes: the rest
      of it is change, one block of every size in between, larger ones at lower offsets. */
  predicate Divided(free: seq<seq<nat>>, free': seq<seq<nat>>, index: nat, log: nat, o: nat) {
    DividedAbove(free, free', index, log, o, log)
  }

  /** The same, when only the change of size `2^low` and more has been given. */
  predicate DividedAbove(free: seq<seq<nat>>, free': seq<seq<nat>>, index: nat, log: nat, o: nat, low: nat) {
    && |free| == |free'| && log <= low <= index < |free| && free[index] != [] && o == free[index][|free[index]| - 1]
    && forall i :: 0 <= i < |free| ==>
         free'[i] == if i == index then free[i][..|free[i]| - 1]
                     else if low <= i < index then free[i] + [ChangeAt(index, log, o, i)]
                     else free[i]
  }

  /** Where the piece of size `2^i` begins. */
  function ChangeAt(index: nat, log: nat, o: nat, i: nat): nat
    requires log <= i < index
  {
    Pow2Monotone(i + 1, index);
    o + Pow2(log) + Pow2(index) - Pow2(i + 1)
  }

  lemma NextPiece(index: nat, log: nat, o: nat, i: int, start: nat, end: nat)
    requires log - 1 <= i < index && start < end == o + Pow2(index) && end - start == Pow2(i + 1) - Pow2(log)
    ensures i >= log && start == ChangeAt(index, log, o, i)
    ensures start + Pow2(i) <= end && end - (start + Pow2(i)) == Pow2(i) - Pow2(log)
  {
    Pow2Monotone(log, i);
  }

  lemma ChangeGiven(free: seq<seq<nat>>, free': seq<seq<nat>>, index: nat, log: nat, o: nat, i: nat)
    requires log <= i < index && DividedAbove(free, free', index, log, o, i + 1)
    ensures DividedAbove(free, free'[i := free'[i] + [ChangeAt(index, log, o, i)]], index, log, o, i)
  {
  }

  /** The first list from `log` on that is not empty. */
  predicate FirstWith(free: seq<seq<nat>>, log: nat, index: nat) {
    log <= index < |free| && free[index] != [] && forall i :: log <= i < index ==> free[i] == []
  }

  class PerBackend {
    var nextLoc: nat
    var freeOffsets: seq<seq<nat>>
    /** The blocks handed out and not yet returned. */
    ghost var live: seq<Block>

    ghost predicate Valid()
      reads this
    {
      && nextLoc <= ALLOC_SIZE && |freeOffsets| == MAX_SIZE
      && Tiles(live, freeOffsets, nextLoc, 0, 0)
      && forall i :: 0 <= i < |live| ==> live[i].log < MAX_SIZE
    }

    constructor ()
      ensures Valid() && live == [] && nextLoc == 0 && freeOffsets == seq(MAX_SIZE, _ => [])
    {
      nextLoc := 0;
      freeOffsets := seq(MAX_SIZE, _ => []);
      live := [];
      new;
      forall x: int ensures ByteOk(live, freeOffsets, nextLoc, 0, 0, x) {
        NothingFree(freeOffsets, x);
      }
    }

    /** Takes a block of the list `index` for `2^log` bytes and returns the rest as change. */
    method Split(index: nat, log: nat) returns (o: nat)
      requires Valid() && log <= index < MAX_SIZE && freeOffsets[index] != []
      modifies this
      ensures Valid() && nextLoc == old(nextLoc) && live == old(live) + [Block(o, log)]
      ensures Divided(old(freeOffsets), freeOffsets, index, log, o)
    {
      Pow2Monotone(log, index);
      var l := freeOffsets[index];
      o := l[|l| - 1];
      TakeTiles(live, freeOffsets, nextLoc, index, log);
      FreeInside(live, freeOffsets, nextLoc, index, |l| - 1);
      freeOffsets := freeOffsets[index := l[..|l| - 1]];
      live := live + [Block(o, log)];
      GiveChange(old(freeOffsets), index, log, o);
    }

    /** Lists the rest of the block at `o`, largest piece first. */
    method GiveChange(ghost free: seq<seq<nat>>, index: nat, log: nat, o: nat)
      requires nextLoc <= ALLOC_SIZE && |freeOffsets| == MAX_SIZE && o + Pow2(index) <= nextLoc
      requires DividedAbove(free, freeOffsets, index, log, o, index) && o + Pow2(log) <= o + Pow2(index)
      requires Tiles(live, freeOffsets, nextLoc, o + Pow2(log), o + Pow2(index))
      modifies this`freeOffsets
      ensures |freeOffsets| == MAX_SIZE && Tiles(live, freeOffsets, nextLoc, 0, 0)
      ensures Divided(free, freeOffsets, index, log, o)
    {
      var end := o + Pow2(index);
      var start := o + Pow2(log);
      var i: int := index - 1;
      while start < end
        invariant log - 1 <= i < index && start <= end <= nextLoc && |freeOffsets| == MAX_SIZE
        invariant end - start == Pow2(i + 1) - Pow2(log)
        invariant DividedAbove(free, freeOffsets, index, log, o, i + 1)
        invariant Tiles(live, freeOffsets, nextLoc, start, end)
        decreases end - start
      {
        NextPiece(index, log, o, i, start, end);
        ChangeTiles(live, freeOffsets, nextLoc, start, end, i);
        ChangeGiven(free, freeOffsets, index, log, o, i);
        freeOffsets := freeOffsets[i := freeOffsets[i] + [start]];
        start := start + Pow2(i);
        i := i - 1;
      }
      if i >= log {
        Pow2Strict(log, i + 1);
      }
      ClosedGap(live, freeOffsets, nextLoc, start);
    }

    /** An offset for `size` bytes: from the top of the arena while it lasts, then from the free
        lists. No result stands for the two ways in which the program is stopped. */
    method AllocOffset(size: nat) returns (r: Option<nat>)
      requires Valid()
      modifies this
      ensures Valid()
      ensures r.Some? ==> live == old(live) + [Block(r.value, LogOf(size))] && size <= Pow2(LogOf(size))
      ensures r.Some? && old(nextLoc) + Pow2(LogOf(size)) <= ALLOC_SIZE ==>
                && r.value == old(nextLoc) && nextLoc == old(nextLoc) + Pow2(LogOf(size))
                && freeOffsets == old(freeOffsets)
      ensures r.Some? && old(nextLoc) + Pow2(LogOf(size)) > ALLOC_SIZE ==>
                && nextLoc == old(nextLoc)
                && exists index :: FirstWith(old(freeOffsets), LogOf(size), index) &&
                                   Divided(old(freeOffsets), freeOffsets, index, LogOf(size), r.value)
      ensures r.None? ==> unchanged(this)
      ensures r.None? <==> size > Pow2(MAX_SIZE - 1) ||
                           (old(nextLoc) + Pow2(LogOf(size)) > ALLOC_SIZE &&
                            forall i :: LogOf(size) <= i < MAX_SIZE ==> old(freeOffsets)[i] == [])
    {
      var ll := NextLog2(size);
      if ll == None {
        return None;
      }
      var log := ll.value;
      LogBelow(MIN_SIZE, size, MAX_SIZE - 1);
      if nextLoc + Pow2(log) <= ALLOC_SIZE {
        BumpTiles(live, freeOffsets, nextLoc, log);
        r := Some(nextLoc);
        live := live + [Block(nextLoc, log)];
        nextLoc := nextLoc + Pow2(log);
        return;
      }
      var index := log;
      while index < MAX_SIZE && freeOffsets[index] == []
        invariant log <= index <= MAX_SIZE
        invariant forall i :: log <= i < index ==> freeOffsets[i] == []
      {
        index := index + 1;
      }
      if index == MAX_SIZE {
        return None;
      }
      assert FirstWith(freeOffsets, log, index);
      var o := Split(index, log);
      return Some(o);
    }

    /** Returns the block that was allocated at `offset` for `size` bytes. */
    method DeallocOffset(offset: nat, size: nat, ghost i: nat)
      requires Valid() && i < |live| && live[i] == Block(offset, LogOf(size)) && size <= Pow2(MAX_SIZE - 1)
      modifies this
      ensures Valid() && live == old(live)[..i] + old(live)[i + 1..]
      ensures if old(nextLoc) == offset + Pow2(LogOf(size)) then nextLoc == offset && freeOffsets == old(freeOffsets)
              else nextLoc == old(nextLoc) &&
                   freeOffsets == old(freeOffsets)[LogOf(size) := old(freeOffsets)[LogOf(size)] + [offset]]
    {
      var ll := NextLog2(size);
      var log := ll.value;
      if nextLoc == offset + Pow2(log) {
        UnbumpTiles(live, freeOffsets, nextLoc, i);
        nextLoc := offset;
      } else {
        FreeTiles(live, freeOffsets, nextLoc, i);
        freeOffsets := freeOffsets[log := freeOffsets[log] + [offset]];
      }
      live := live[..i] + live[i + 1..];
    }
  }

  lemma {:induction false} NothingFree(free: seq<seq<nat>>, x: int)
    requires forall i :: 0 <= i < |free| ==> free[i] == []
    ensures FreeCover(free, x) == 0
  {
    if free != [] {
      NothingFree(free[..|free| - 1], x);
    }
  }

  lemma {:induction false} ListContains(offsets: seq<nat>, log: nat, k: nat, x: int)
    requires k < |offsets|
    ensures ListCover(offsets, log, x) >= Covers(offsets[k], log, x)
  {
    if k < |offsets| - 1 {
      ListContains(offsets[..|offsets| - 1], log, k, x);
    }
  }

  lemma {:induction false} FreeContains(free: seq<seq<nat>>, i: nat, x: int)
    requires i < |free|
    ensures FreeCover(free, x) >= ListCover(free[i], i, x)
  {
    if i < |free| - 1 {
      FreeContains(free[..|free| - 1], i, x);
    }
  }

  /** A free block lies below the bump pointer. */
  lemma FreeInside(live: seq<Block>, free: seq<seq<nat>>, top: nat, i: nat, k: nat)
    requires Tiles(live, free, top, 0, 0) && i < |free| && k < |free[i]|
    ensures free[i][k] + Pow2(i) <= top
  {
    var last := free[i][k] + Pow2(i) - 1;
    ListContains(free[i], i, k, last);
    FreeContains(free, i, last);
    assert ByteOk(live, free, top, 0, 0, last);
  }
}
