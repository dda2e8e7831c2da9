/**
 * A block of handles: a fixed-capacity data area of
 * kHandleSizeInWords * kHandlesPerChunk words, a bump cursor and a link to
 * the next block of its chain.
 *
 * Handle addresses are abstract: a `Slot` names the block whose data area
 * holds the handle and the word offset of the handle inside that area.
 */
module HandlesBlocks {

  /** The template parameters kHandleSizeInWords and kHandlesPerChunk. */
  type Positive = n: int | n > 0 witness 1

  /** The address of a handle: a block and a word offset into its data area. */
  datatype Slot = Slot(block: HandlesBlock, offset: int)

  /** No slot occurs twice. */
  ghost predicate Distinct(slots: seq<Slot>)
  {
    forall i, j :: 0 <= i < j < |slots| ==> slots[i] != slots[j]
  }

  class HandlesBlock {
    const handleSizeInWords: Positive
    const handlesPerChunk: Positive
    var nextBlock: HandlesBlock?
    var nextHandleSlot: int

    /** The cursor stays inside the data area, on a handle boundary. */
    ghost predicate Valid()
      reads this
    {
      && 0 <= nextHandleSlot <= handleSizeInWords * handlesPerChunk
      && nextHandleSlot % handleSizeInWords == 0
    }

    constructor (next: HandlesBlock?, sizeInWords: Positive, perChunk: Positive)
      ensures Valid()
      ensures handleSizeInWords == sizeInWords && handlesPerChunk == perChunk
      ensures nextBlock == next && nextHandleSlot == 0
      ensures !IsFull() && HandleCount() == 0 && OccupiedSlots() == []
    {
      handleSizeInWords := sizeInWords;
      handlesPerChunk := perChunk;
      nextBlock := next;
      nextHandleSlot := 0;
      new;
      ProductPositive(sizeInWords, perChunk);
    }

    /** Resets the cursor so that the block can be reused. */
    method ReInit()
      modifies this`nextHandleSlot
      ensures Valid() && nextHandleSlot == 0
      ensures !IsFull() && OccupiedSlots() == []
    {
      nextHandleSlot := 0;
      ProductPositive(handleSizeInWords, handlesPerChunk);
    }

    predicate IsFull()
      reads this
      ensures Valid() ==> (IsFull() <==> HandleCount() == handlesPerChunk)
    {
      CursorCount(nextHandleSlot, handleSizeInWords, handlesPerChunk);
      nextHandleSlot >= handleSizeInWords * handlesPerChunk
    }

    /** True when the address lies inside this block's data area. */
    predicate IsValidHandle(handle: Slot)
      ensures IsValidHandle(handle) <==>
                handle.block == this && 0 <= handle.offset &&
                handle.offset / handleSizeInWords < handlesPerChunk
    {
      DivBound(handle.offset, handleSizeInWords, handlesPerChunk);
      handle.block == this && 0 <= handle.offset < handleSizeInWords * handlesPerChunk
    }

    /** Number of handles allocated in this block. */
    function HandleCount(): (count: int)
      reads this
      requires Valid()
      ensures 0 <= count <= handlesPerChunk
      ensures count * handleSizeInWords == nextHandleSlot
    {
      CursorCount(nextHandleSlot, handleSizeInWords, handlesPerChunk);
      nextHandleSlot / handleSizeInWords
    }

    /** The handles allocated so far, in allocation order. */
    function OccupiedSlots(): (slots: seq<Slot>)
      reads this
      requires Valid()
      ensures |slots| == HandleCount()
    {
      FilledSlots(this, HandleCount())
    }

    /** The allocated handles lie below the cursor, in increasing address order. */
    lemma OccupiedSlotsFacts()
      requires Valid()
      ensures forall s :: s in OccupiedSlots() ==> IsValidHandle(s) && s.offset < nextHandleSlot
      ensures forall i, j :: 0 <= i < j < |OccupiedSlots()| ==>
                OccupiedSlots()[i].offset < OccupiedSlots()[j].offset
      ensures Distinct(OccupiedSlots())
    {
      FilledSlotsFacts(this, HandleCount());
    }

    /** A full block holds every handle cell of its data area. */
    lemma FullOccupied()
      requires Valid() && IsFull()
      ensures OccupiedSlots() == FilledSlots(this, handlesPerChunk)
    {
    }

    /** Hands out the slot at the cursor and advances the cursor by one handle. */
    method AllocateHandle() returns (handle: Slot)
      requires Valid() && !IsFull()
      modifies this`nextHandleSlot
      ensures Valid()
      ensures handle == Slot(this, old(nextHandleSlot)) && IsValidHandle(handle)
      ensures nextHandleSlot == old(nextHandleSlot) + handleSizeInWords
      ensures HandleCount() == old(HandleCount()) + 1
      ensures OccupiedSlots() == old(OccupiedSlots()) + [handle]
      ensures handle !in old(OccupiedSlots())
    {
      ghost var count := HandleCount();
      ghost var before := OccupiedSlots();
      OccupiedSlotsFacts();
      assert count < handlesPerChunk;
      handle := Slot(this, nextHandleSlot);
      nextHandleSlot := nextHandleSlot + handleSizeInWords;
      assert nextHandleSlot == (count + 1) * handleSizeInWords;
      MulMonotone(count + 1, handlesPerChunk, handleSizeInWords);
      MulDivMod(count + 1, handleSizeInWords);
      FilledSlotsExtend(this, count);
      assert OccupiedSlots() == before + [handle];
    }
  }

  /**
   * Allocates from a fresh block until it is full. `observed[k]` is what
   * IsFull answers after k allocations: false for every k below
   * handlesPerChunk, true after exactly handlesPerChunk of them.
   * The ensures only fix the values of `observed`; that they are IsFull's
   * answers is what the body shows, and the verified loop derives them from
   * the contracts of the constructor (count 0), AllocateHandle (count + 1)
   * and IsFull (full exactly at count handlesPerChunk).
   */
  method FillFreshBlock(sizeInWords: Positive, perChunk: Positive)
    returns (b: HandlesBlock, slots: seq<Slot>, observed: seq<bool>)
    ensures b.Valid() && b.HandleCount() == perChunk && slots == b.OccupiedSlots()
    ensures |observed| == perChunk + 1 && observed[perChunk]
    ensures forall k :: 0 <= k < perChunk ==> !observed[k]
  {
    b := new HandlesBlock(null, sizeInWords, perChunk);
    slots, observed := [], [];
    var n := 0;
    while n < perChunk
      invariant 0 <= n <= perChunk && b.Valid() && b.HandleCount() == n
      invariant b.handleSizeInWords == sizeInWords && b.handlesPerChunk == perChunk
      invariant slots == b.OccupiedSlots()
      invariant |observed| == n && forall k :: 0 <= k < n ==> !observed[k]
    {
      observed := observed + [b.IsFull()];
      var handle := b.AllocateHandle();
      slots := slots + [handle];
      n := n + 1;
    }
    observed := observed + [b.IsFull()];
  }

  /** The first `count` handle cells of block `b`, in address order. */
  function FilledSlots(b: HandlesBlock, count: nat): seq<Slot>
  {
    seq(count, k => Slot(b, k * b.handleSizeInWords))
  }

  /** The handles of blocks that are all full, block after block. */
  function FullSlots(blocks: seq<HandlesBlock>): seq<Slot>
  {
    if blocks == [] then []
    else
      var last := blocks[|blocks| - 1];
      FullSlots(blocks[..|blocks| - 1]) + FilledSlots(last, last.handlesPerChunk)
  }

  ghost predicate DistinctBlocks(blocks: seq<HandlesBlock>)
  {
    forall i, j :: 0 <= i < j < |blocks| ==> blocks[i] != blocks[j]
  }

  // ----- arithmetic on the cursor -----

  lemma ProductPositive(a: Positive, b: Positive)
    ensures a * b > 0
  {
  }

  lemma MulMonotone(a: int, b: int, c: Positive)
    ensures a <= b <==> a * c <= b * c
  {
    assert b * c - a * c == (b - a) * c;
  }

  lemma MulDivMod(k: int, size: Positive)
    ensures (k * size) / size == k && (k * size) % size == 0
  {
    var q, r := (k * size) / size, (k * size) % size;
    assert (k - q) * size == r;
    MulMonotone(k - q, 0, size);
    MulMonotone(1, k - q, size);
  }

  /** A cursor on a handle boundary inside the data area counts whole handles. */
  lemma CursorCount(cursor: int, size: Positive, perChunk: Positive)
    ensures 0 <= cursor <= size * perChunk && cursor % size == 0 ==>
              && 0 <= cursor / size <= perChunk
              && (cursor / size) * size == cursor
              && (cursor >= size * perChunk <==> cursor / size == perChunk)
  {
    var q := cursor / size;
    MulMonotone(q, perChunk, size);
    MulMonotone(0, q, size);
    MulMonotone(perChunk, q, size);
  }

  /** An offset lies inside the data area exactly when its handle index does. */
  lemma DivBound(offset: int, size: Positive, perChunk: Positive)
    ensures 0 <= offset ==> (offset < size * perChunk <==> offset / size < perChunk)
  {
    var q := offset / size;
    assert offset == q * size + offset % size;
    MulMonotone(q + 1, perChunk, size);
    MulMonotone(perChunk, q, size);
  }

  lemma FilledSlotsExtend(b: HandlesBlock, count: nat)
    ensures FilledSlots(b, count + 1) == FilledSlots(b, count) + [Slot(b, count * b.handleSizeInWords)]
  {
  }

  lemma {:induction false} FilledSlotsFacts(b: HandlesBlock, count: nat)
    requires count <= b.handlesPerChunk
    ensures |FilledSlots(b, count)| == count
    ensures forall s :: s in FilledSlots(b, count) ==>
              s.block == b && 0 <= s.offset < count * b.handleSizeInWords && b.IsValidHandle(s)
    ensures forall i, j :: 0 <= i < j < count ==>
              FilledSlots(b, count)[i].offset < FilledSlots(b, count)[j].offset
    ensures Distinct(FilledSlots(b, count))
  {
    var r := FilledSlots(b, count);
    var size := b.handleSizeInWords;
    forall i, j | 0 <= i < j < count ensures r[i].offset < r[j].offset {
      MulMonotone(j, i, size);
    }
    MulMonotone(count, b.handlesPerChunk, size);
    assert b.handlesPerChunk * size == size * b.handlesPerChunk;
    forall s | s in r
      ensures s.block == b && 0 <= s.offset < count * size && b.IsValidHandle(s)
    {
      var k :| 0 <= k < count && r[k] == s;
      MulMonotone(0, k, size);
      MulMonotone(count, k, size);
    }
  }

  // ----- chains of blocks -----

  /** Every handle of a run of full blocks lies in one of those blocks' data areas. */
  lemma {:induction false} FullSlotsMembership(blocks: seq<HandlesBlock>)
    ensures forall s :: s in FullSlots(blocks) ==> s.block in blocks && s.block.IsValidHandle(s)
  {
    if blocks != [] {
      var last := blocks[|blocks| - 1];
      FullSlotsMembership(blocks[..|blocks| - 1]);
      FilledSlotsFacts(last, last.handlesPerChunk);
    }
  }

  /** Full blocks that are pairwise different hold pairwise different handles. */
  lemma {:induction false} FullSlotsDistinct(blocks: seq<HandlesBlock>)
    requires DistinctBlocks(blocks)
    ensures Distinct(FullSlots(blocks))
  {
    if blocks != [] {
      var init, last := blocks[..|blocks| - 1], blocks[|blocks| - 1];
      FullSlotsDistinct(init);
      FullSlotsMembership(init);
      FilledSlotsFacts(last, last.handlesPerChunk);
      DistinctConcat(FullSlots(init), FilledSlots(last, last.handlesPerChunk));
    }
  }

  /** A non-empty run of full blocks holds at least one handle. */
  lemma FullSlotsNonEmpty(blocks: seq<HandlesBlock>)
    ensures blocks != [] ==> FullSlots(blocks) != []
  {
    if blocks != [] {
      var last := blocks[|blocks| - 1];
      assert |FilledSlots(last, last.handlesPerChunk)| > 0;
    }
  }

  /** The handles of full blocks, read from the front of the run. */
  lemma {:induction false} FullSlotsCons(b: HandlesBlock, rest: seq<HandlesBlock>)
    ensures FullSlots([b] + rest) == FilledSlots(b, b.handlesPerChunk) + FullSlots(rest)
  {
    if rest == [] {
      assert ([b] + rest)[..0] == [];
    } else {
      var init, last := rest[..|rest| - 1], rest[|rest| - 1];
      assert ([b] + rest)[..|rest|] == [b] + init;
      FullSlotsCons(b, init);
    }
  }

  /** Walking one more full block of a run appends that block's handles. */
  lemma FullSlotsSnoc(blocks: seq<HandlesBlock>, lo: nat, hi: nat)
    requires lo <= hi < |blocks|
    ensures FullSlots(blocks[lo..hi + 1]) ==
              FullSlots(blocks[lo..hi]) + FilledSlots(blocks[hi], blocks[hi].handlesPerChunk)
  {
    assert blocks[lo..hi + 1][..hi - lo] == blocks[lo..hi];
  }

  lemma DistinctConcat(a: seq<Slot>, b: seq<Slot>)
    requires Distinct(a) && Distinct(b)
    requires forall s :: s in a ==> s !in b
    ensures Distinct(a + b)
  {
    forall i, j | 0 <= i < j < |a + b| ensures (a + b)[i] != (a + b)[j] {
      if j < |a| {
        assert (a + b)[i] == a[i] && (a + b)[j] == a[j];
      } else if i >= |a| {
        assert (a + b)[i] == b[i - |a|] && (a + b)[j] == b[j - |a|];
      } else {
        assert (a + b)[i] == a[i] && a[i] in a;
        assert (a + b)[j] == b[j - |a|];
      }
    }
  }

  /** A slot inserted into a run without repeats occurs nowhere else in it. */
  lemma DistinctLast(a: seq<Slot>, x: Slot)
    requires Distinct(a + [x])
    ensures x !in a
  {
    assert (a + [x])[|a|] == x;
    assert forall i :: 0 <= i < |a| ==> (a + [x])[i] == a[i];
  }

  lemma DistinctInsert(a: seq<Slot>, x: Slot, b: seq<Slot>, c: seq<Slot>)
    requires Distinct(a + [x] + b + c)
    ensures x !in a + b && x !in c
  {
    var all := a + [x] + b + c;
    assert all[|a|] == x;
    assert forall i :: 0 <= i < |a| ==> all[i] == a[i];
    assert forall i :: 0 <= i < |b| ==> all[|a| + 1 + i] == b[i];
    assert forall i :: 0 <= i < |c| ==> all[|a| + 1 + |b| + i] == c[i];
  }

}
