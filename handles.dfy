/**
 * The handle store: a growth-only chain of zone blocks and a stack-like
 * chain of scoped blocks whose first block is part of the store itself,
 * with bump allocation from the head block of each chain; and the
 * HandleScope, which records a restore point of the scoped chain and
 * returns to it on exit.
 */
module VmHandles {
  import opened HandlesBlocks

  /**
   * The restore point of an open scope: the scoped blocks up to and
   * including the block that was taking allocations, and that block's
   * cursor.
   */
  datatype Mark = Mark(blocks: seq<HandlesBlock>, slot: int)

  /** The scoped handles that are live at a restore point. */
  function MarkHandles(m: Mark): seq<Slot>
    requires m.blocks != [] && m.slot >= 0
  {
    var saved := m.blocks[|m.blocks| - 1];
    FullSlots(m.blocks[..|m.blocks| - 1]) + FilledSlots(saved, m.slot / saved.handleSizeInWords)
  }

  /** Restore point `m` comes no later than restore point `n`. */
  ghost predicate NotAfter(m: Mark, n: Mark)
  {
    |m.blocks| < |n.blocks| || (|m.blocks| == |n.blocks| && m.slot <= n.slot)
  }

  class Handles {
    const handleSizeInWords: Positive
    const handlesPerChunk: Positive
    const wordSizeInBytes: Positive

    var zoneBlocks: HandlesBlock?
    const firstScopedBlock: HandlesBlock
    var scopedBlocks: HandlesBlock

    /** The zone blocks in link order: zoneChain[0] is zoneBlocks, the newest. */
    ghost var zoneChain: seq<HandlesBlock>
    /** The scoped blocks in link order, starting with firstScopedBlock. */
    ghost var scopedChain: seq<HandlesBlock>
    /** The index of scopedBlocks in scopedChain. */
    ghost var head: nat
    /** The restore points of the open scopes, innermost last. */
    ghost var scopes: seq<Mark>
    ghost var Repr: set<object>

    ghost predicate BlockOk(b: HandlesBlock)
      reads b
    {
      b.Valid() && b.handleSizeInWords == handleSizeInWords && b.handlesPerChunk == handlesPerChunk
    }

    ghost predicate ZoneChainOk()
      reads this, zoneChain
    {
      && (zoneChain == [] <==> zoneBlocks == null)
      && (zoneChain != [] ==> zoneBlocks == zoneChain[0])
      && (forall i :: 0 <= i < |zoneChain| ==> BlockOk(zoneChain[i]))
      && (forall i {:trigger zoneChain[i].nextBlock} ::
            0 <= i < |zoneChain| - 1 ==> zoneChain[i].nextBlock == zoneChain[i + 1])
      && (zoneChain != [] ==> zoneChain[|zoneChain| - 1].nextBlock == null)
      // a zone block is linked in front only once the zone head is full
      && (forall i :: 1 <= i < |zoneChain| ==> zoneChain[i].IsFull())
      && DistinctBlocks(zoneChain)
    }

    ghost predicate ScopedChainOk()
      reads this, scopedChain
    {
      && scopedChain != [] && scopedChain[0] == firstScopedBlock
      && head < |scopedChain| && scopedBlocks == scopedChain[head]
      && (forall i :: 0 <= i < |scopedChain| ==> BlockOk(scopedChain[i]))
      && (forall i {:trigger scopedChain[i].nextBlock} ::
            0 <= i < |scopedChain| - 1 ==> scopedChain[i].nextBlock == scopedChain[i + 1])
      && scopedChain[|scopedChain| - 1].nextBlock == null
      && DistinctBlocks(scopedChain)
      // the blocks before the one taking allocations are full
      && (forall i :: 0 <= i < head ==> scopedChain[i].IsFull())
    }

    /** The restore point the scoped chain is at now. */
    ghost function CurrentMark(): Mark
      reads this, scopedBlocks
      requires head < |scopedChain|
    {
      Mark(scopedChain[..head + 1], scopedBlocks.nextHandleSlot)
    }

    /** A restore point on the current scoped chain, not after its current position. */
    ghost predicate MarkOk(m: Mark)
      reads this
    {
      && 1 <= |m.blocks| <= |scopedChain|
      && m.blocks == scopedChain[..|m.blocks|]
      && 0 <= m.slot <= handleSizeInWords * handlesPerChunk
      && m.slot % handleSizeInWords == 0
    }

    ghost predicate ScopesOk()
      reads this, scopedBlocks
      requires head < |scopedChain|
    {
      && (forall k :: 0 <= k < |scopes| ==> MarkOk(scopes[k]))
      && (forall k :: 0 <= k < |scopes| - 1 ==> NotAfter(scopes[k], scopes[k + 1]))
      && (scopes != [] ==> NotAfter(scopes[|scopes| - 1], CurrentMark()))
    }

    /** Everything but the non-emptiness of the zone blocks. */
    ghost predicate Structure()
      reads this, Repr
    {
      && this in Repr
      && (forall i :: 0 <= i < |zoneChain| ==> zoneChain[i] in Repr)
      && (forall i :: 0 <= i < |scopedChain| ==> scopedChain[i] in Repr)
      && ZoneChainOk()
      && ScopedChainOk()
      && (forall i, j :: 0 <= i < |zoneChain| && 0 <= j < |scopedChain| ==> zoneChain[i] != scopedChain[j])
      && ScopesOk()
    }

    ghost predicate Valid()
      reads this, Repr
    {
      && Structure()
      // a zone block is set up only to allocate from it at once
      && (zoneBlocks != null ==> zoneBlocks.nextHandleSlot > 0)
    }

    /** The zone handles, in the order the zone chain is walked: the zone head's, then the full blocks'. */
    ghost function ZoneHandles(): seq<Slot>
      reads this, zoneBlocks
      requires zoneChain != [] ==> zoneBlocks != null && zoneBlocks.Valid()
    {
      if zoneChain == [] then [] else zoneBlocks.OccupiedSlots() + FullSlots(zoneChain[1..])
    }

    /** The live scoped handles, in allocation order. */
    ghost function ScopedHandles(): seq<Slot>
      reads this, scopedBlocks
      requires scopedBlocks.Valid() && head <= |scopedChain|
    {
      FullSlots(scopedChain[..head]) + scopedBlocks.OccupiedSlots()
    }

    /** sizeof(HandlesBlock): one word for the link, one for the cursor, then the data area. */
    function BlockSizeInBytes(): (size: int)
      ensures size - 2 * wordSizeInBytes == handleSizeInWords * wordSizeInBytes * handlesPerChunk
      ensures size > 2 * wordSizeInBytes
    {
      ProductPositive(handleSizeInWords * handlesPerChunk, wordSizeInBytes);
      (2 + handleSizeInWords * handlesPerChunk) * wordSizeInBytes
    }

    /** The data area that BlockSizeInBytes adds to the two header words is exactly the range IsValidHandle accepts. */
    lemma BlockSizeCoversData(b: HandlesBlock, offset: int)
      requires b.handleSizeInWords == handleSizeInWords && b.handlesPerChunk == handlesPerChunk
      ensures b.IsValidHandle(Slot(b, offset)) <==>
                0 <= offset * wordSizeInBytes < BlockSizeInBytes() - 2 * wordSizeInBytes
    {
      MulMonotone(0, offset, wordSizeInBytes);
      MulMonotone(handleSizeInWords * handlesPerChunk, offset, wordSizeInBytes);
    }

    constructor (sizeInWords: Positive, perChunk: Positive, wordSize: Positive)
      ensures Valid() && fresh(Repr)
      ensures handleSizeInWords == sizeInWords && handlesPerChunk == perChunk
      ensures wordSizeInBytes == wordSize
      ensures zoneBlocks == null && scopedBlocks == firstScopedBlock
      ensures firstScopedBlock.HandleCount() == 0 && firstScopedBlock.nextBlock == null
      ensures zoneChain == [] && scopedChain == [firstScopedBlock] && scopes == []
      ensures IsEmpty()
    {
      handleSizeInWords := sizeInWords;
      handlesPerChunk := perChunk;
      wordSizeInBytes := wordSize;
      zoneBlocks := null;
      var first := new HandlesBlock(null, sizeInWords, perChunk);
      firstScopedBlock := first;
      scopedBlocks := first;
      zoneChain, scopedChain, head, scopes := [], [first], 0, [];
      Repr := {this, first};
    }

    /** True when no handle is allocated: no zone block and an empty first scoped block. */
    predicate IsEmpty()
      reads this, Repr
      requires Valid()
      ensures IsEmpty() <==> ZoneHandles() == [] && ScopedHandles() == []
    {
      FullSlotsNonEmpty(scopedChain[..head]);
      assert zoneChain != [] ==> zoneChain[0].OccupiedSlots() != [];
      zoneBlocks == null && firstScopedBlock.HandleCount() == 0 && scopedBlocks == firstScopedBlock
    }

    /** The handles of both chains are pairwise different and lie in their own chain's blocks. */
    lemma HandlesDistinct()
      requires Valid()
      ensures Distinct(ZoneHandles() + ScopedHandles()) && Distinct(ScopedHandles())
      ensures forall s :: s in ZoneHandles() ==> s.block in zoneChain && s.block.IsValidHandle(s)
      ensures forall s :: s in ScopedHandles() ==>
                s.block in scopedChain[..head + 1] && s.block.IsValidHandle(s)
    {
      var prefix := scopedChain[..head];
      var current := scopedBlocks.OccupiedSlots();
      assert DistinctBlocks(prefix);
      FullSlotsDistinct(prefix);
      FullSlotsMembership(prefix);
      scopedBlocks.OccupiedSlotsFacts();
      assert scopedBlocks !in prefix;
      DistinctConcat(FullSlots(prefix), current);
      assert scopedChain[..head + 1] == prefix + [scopedBlocks];
      if zoneChain != [] {
        var rest := zoneChain[1..];
        assert DistinctBlocks(rest);
        FullSlotsDistinct(rest);
        FullSlotsMembership(rest);
        zoneBlocks.OccupiedSlotsFacts();
        assert zoneBlocks !in rest;
        DistinctConcat(zoneBlocks.OccupiedSlots(), FullSlots(rest));
      }
      forall s | s in ZoneHandles() ensures s !in ScopedHandles() {
        assert s.block in zoneChain;
      }
      DistinctConcat(ZoneHandles(), ScopedHandles());
    }

    /** Growing the cursor of the scoped head keeps the store valid. */
    twostate lemma ScopedHeadGrown()
      requires old(Valid()) && unchanged(this)
      requires forall i :: 0 <= i < |zoneChain| ==> unchanged(zoneChain[i])
      requires forall i :: 0 <= i < |scopedChain| && i != head ==> unchanged(scopedChain[i])
      requires BlockOk(scopedBlocks) && scopedBlocks.nextBlock == old(scopedBlocks.nextBlock)
      requires old(scopedBlocks.nextHandleSlot) <= scopedBlocks.nextHandleSlot
      ensures Valid() && ZoneHandles() == old(ZoneHandles())
    {
    }

    /** Allocating `handle` in the scoped head adds just that handle, which was not live before. */
    twostate lemma ScopedHandleAdded(handle: Slot)
      requires Valid() && unchanged(this)
      requires old(zoneChain != [] ==> zoneBlocks.Valid()) && old(scopedBlocks.Valid())
      requires ZoneHandles() == old(ZoneHandles())
      requires scopedBlocks.OccupiedSlots() == old(scopedBlocks.OccupiedSlots()) + [handle]
      ensures ScopedHandles() == old(ScopedHandles()) + [handle]
      ensures handle !in old(ZoneHandles()) && handle !in old(ScopedHandles())
    {
      HandlesDistinct();
      assert ZoneHandles() + ScopedHandles() == ZoneHandles() + old(ScopedHandles()) + [handle];
      DistinctLast(ZoneHandles() + old(ScopedHandles()), handle);
    }

    /** Allocating `handle` in the scoped head keeps the store valid and adds just that handle. */
    twostate lemma ScopedHandleAllocated(handle: Slot)
      requires old(Valid()) && unchanged(this)
      requires forall b: HandlesBlock :: b in Repr && b != scopedBlocks ==> unchanged(b)
      requires BlockOk(scopedBlocks) && scopedBlocks.nextBlock == old(scopedBlocks.nextBlock)
      requires old(scopedBlocks.nextHandleSlot) <= scopedBlocks.nextHandleSlot
      requires scopedBlocks.OccupiedSlots() == old(scopedBlocks.OccupiedSlots()) + [handle]
      ensures Valid() && ZoneHandles() == old(ZoneHandles())
      ensures ScopedHandles() == old(ScopedHandles()) + [handle]
      ensures handle !in old(ZoneHandles()) && handle !in old(ScopedHandles())
    {
      assert forall i :: 0 <= i < |zoneChain| ==> zoneChain[i] in Repr && zoneChain[i] != scopedBlocks;
      assert forall i :: 0 <= i < |scopedChain| && i != head ==> scopedChain[i] in Repr && scopedChain[i] != scopedBlocks;
      ScopedHeadGrown();
      ScopedHandleAdded(handle);
    }

    /** A step that leaves the zone fields and every zone block alone keeps the zone side of the store. */
    twostate lemma ZoneSideKept()
      requires old(Structure())
      requires zoneBlocks == old(zoneBlocks) && zoneChain == old(zoneChain)
      requires forall i :: 0 <= i < |zoneChain| ==> unchanged(zoneChain[i])
      ensures ZoneChainOk() && ZoneHandles() == old(ZoneHandles())
      ensures zoneBlocks != null ==> zoneBlocks.nextHandleSlot == old(zoneBlocks.nextHandleSlot)
    {
    }

    /** Growing the cursor of the zone head, once it holds a handle, makes the store valid. */
    twostate lemma ZoneHeadGrown()
      requires old(Structure()) && unchanged(this) && zoneChain != []
      requires forall i :: 1 <= i < |zoneChain| ==> unchanged(zoneChain[i])
      requires forall i :: 0 <= i < |scopedChain| ==> unchanged(scopedChain[i])
      requires BlockOk(zoneBlocks) && zoneBlocks.nextBlock == old(zoneBlocks.nextBlock)
      requires zoneBlocks.nextHandleSlot > 0
      ensures Valid() && ScopedHandles() == old(ScopedHandles())
    {
    }

    /** Allocating `handle` in the zone head adds just that handle, which was not live before. */
    twostate lemma ZoneHandleAdded(handle: Slot)
      requires Valid() && unchanged(this) && zoneChain != []
      requires old(zoneBlocks.Valid()) && old(scopedBlocks.Valid())
      requires ScopedHandles() == old(ScopedHandles())
      requires zoneBlocks.OccupiedSlots() == old(zoneBlocks.OccupiedSlots()) + [handle]
      ensures multiset(ZoneHandles()) == multiset(old(ZoneHandles())) + multiset{handle}
      ensures handle !in old(ZoneHandles()) && handle !in old(ScopedHandles())
    {
      var before := old(zoneBlocks.OccupiedSlots());
      var rest := FullSlots(zoneChain[1..]);
      assert ZoneHandles() == before + [handle] + rest;
      HandlesDistinct();
      DistinctInsert(before, handle, rest, ScopedHandles());
    }

    /** Allocating `handle` in the zone head, once it holds a handle, makes the store valid and adds just that handle. */
    twostate lemma ZoneHandleAllocated(handle: Slot)
      requires old(Structure()) && unchanged(this) && zoneChain != []
      requires forall b: HandlesBlock :: b in Repr && b != zoneBlocks ==> unchanged(b)
      requires BlockOk(zoneBlocks) && zoneBlocks.nextBlock == old(zoneBlocks.nextBlock)
      requires zoneBlocks.nextHandleSlot > 0
      requires zoneBlocks.OccupiedSlots() == old(zoneBlocks.OccupiedSlots()) + [handle]
      ensures Valid() && ScopedHandles() == old(ScopedHandles())
      ensures multiset(ZoneHandles()) == multiset(old(ZoneHandles())) + multiset{handle}
      ensures handle !in old(ZoneHandles()) && handle !in old(ScopedHandles())
    {
      assert forall i :: 1 <= i < |zoneChain| ==> zoneChain[i] in Repr && zoneChain[i] != zoneBlocks;
      assert forall i :: 0 <= i < |scopedChain| ==> scopedChain[i] in Repr && scopedChain[i] != zoneBlocks;
      ZoneHeadGrown();
      ZoneHandleAdded(handle);
    }

    /** Linking a fresh empty block after the last scoped block keeps the store valid. */
    twostate lemma ScopedChainExtended(new block: HandlesBlock)
      requires old(Valid()) && old(scopedBlocks.nextBlock) == null && !old(allocated(block))
      requires scopedChain == old(scopedChain) + [block] && Repr == old(Repr) + {block}
      requires zoneBlocks == old(zoneBlocks) && zoneChain == old(zoneChain)
      requires scopedBlocks == old(scopedBlocks) && head == old(head) && scopes == old(scopes)
      requires forall b: HandlesBlock :: b in old(Repr) && b != scopedBlocks ==> unchanged(b)
      requires scopedBlocks.nextBlock == block
      requires scopedBlocks.nextHandleSlot == old(scopedBlocks.nextHandleSlot)
      requires BlockOk(block) && block.nextBlock == null
      ensures Valid() && (old(scopedBlocks.IsFull()) ==> scopedBlocks.IsFull())
      ensures head + 1 < |scopedChain| && scopedChain[head + 1] == block
      ensures ScopedHandles() == old(ScopedHandles()) && ZoneHandles() == old(ZoneHandles())
    {
      var n := |old(scopedChain)|;
      assert head == n - 1;
      assert forall i :: 0 <= i < |zoneChain| ==> zoneChain[i] in old(Repr) && zoneChain[i] != scopedBlocks;
      assert forall i :: 0 <= i < n && i != head ==> scopedChain[i] in old(Repr) && scopedChain[i] != scopedBlocks;
      assert scopedChain[..head] == old(scopedChain)[..head];
      assert scopedChain[..head + 1] == old(scopedChain)[..head + 1];
      assert CurrentMark() == old(CurrentMark());
      assert ZoneChainOk();
      assert forall i :: 0 <= i < n ==> old(allocated(scopedChain[i])) && scopedChain[i] != block;
      assert forall i :: 0 <= i < |zoneChain| ==> old(allocated(zoneChain[i])) && zoneChain[i] != block;
      assert forall i :: 0 <= i < n ==> BlockOk(scopedChain[i]);
      assert ScopedChainOk();
      forall k | 0 <= k < |scopes| ensures MarkOk(scopes[k]) {
        var m := scopes[k];
        assert old(MarkOk(m));
        assert scopedChain[..|m.blocks|] == old(scopedChain)[..|m.blocks|];
      }
      assert ScopesOk();
    }

    /** Linking a fresh empty block in front of a full zone head keeps everything but its non-emptiness. */
    twostate lemma ZoneChainExtended(new block: HandlesBlock)
      requires old(Valid()) && !old(allocated(block))
      requires old(zoneBlocks == null || zoneBlocks.IsFull())
      requires zoneChain == [block] + old(zoneChain) && zoneBlocks == block && Repr == old(Repr) + {block}
      requires scopedBlocks == old(scopedBlocks) && scopedChain == old(scopedChain)
      requires head == old(head) && scopes == old(scopes)
      requires forall b: HandlesBlock :: b in old(Repr) ==> unchanged(b)
      requires BlockOk(block) && block.nextBlock == old(zoneBlocks) && block.nextHandleSlot == 0
      ensures Structure()
      ensures ZoneHandles() == old(ZoneHandles()) && ScopedHandles() == old(ScopedHandles())
    {
      var oldZone := old(zoneChain);
      assert forall i :: 0 <= i < |oldZone| ==> oldZone[i] in old(Repr);
      assert forall i :: 0 <= i < |scopedChain| ==> scopedChain[i] in old(Repr);
      assert zoneChain[1..] == oldZone;
      assert forall i :: 0 <= i < |oldZone| ==> oldZone[i] != block;
      assert forall i :: 0 <= i < |scopedChain| ==> old(allocated(scopedChain[i])) && scopedChain[i] != block;
      assert forall i :: 1 <= i < |zoneChain| ==> zoneChain[i] == old(zoneChain[i - 1]);
      assert ZoneChainOk();
      assert ScopedChainOk();
      forall k | 0 <= k < |scopes| ensures MarkOk(scopes[k]) {
        assert old(MarkOk(scopes[k]));
      }
      assert CurrentMark() == old(CurrentMark());
      assert ScopesOk();
      assert block.OccupiedSlots() == [];
      if oldZone != [] {
        var full := oldZone[0];
        full.FullOccupied();
        assert old(full.OccupiedSlots()) == FilledSlots(full, handlesPerChunk);
        assert oldZone == [full] + oldZone[1..];
        FullSlotsCons(full, oldZone[1..]);
      }
    }

    /** Moving the scoped head from a full block to an empty next one keeps the live scoped handles. */
    twostate lemma ScopedHandlesKeptOnAdvance()
      requires old(head) < |old(scopedChain)| && old(scopedBlocks) == old(scopedChain)[old(head)]
      requires old(scopedBlocks.Valid()) && old(scopedBlocks.IsFull()) && unchanged(old(scopedBlocks))
      requires scopedChain == old(scopedChain) && head == old(head) + 1
      requires scopedBlocks.Valid() && scopedBlocks.nextHandleSlot == 0
      ensures ScopedHandles() == old(ScopedHandles())
    {
      var full := old(scopedBlocks);
      full.FullOccupied();
      assert scopedChain[..head] == scopedChain[..old(head)] + [full];
      assert scopedBlocks.OccupiedSlots() == [];
    }

    /** Moving the scoped head from a full block to the emptied next one keeps the store valid. */
    twostate lemma ScopedHeadAdvanced(next: HandlesBlock)
      requires old(Valid()) && old(scopedBlocks.IsFull()) && old(head) + 1 < |old(scopedChain)|
      requires zoneBlocks == old(zoneBlocks) && zoneChain == old(zoneChain)
      requires scopedChain == old(scopedChain) && scopes == old(scopes) && Repr == old(Repr)
      requires head == old(head) + 1 && scopedBlocks == scopedChain[head] && scopedBlocks == next
      requires forall b: HandlesBlock :: b in Repr && b != next ==> unchanged(b)
      requires next.nextBlock == old(next.nextBlock) && next.nextHandleSlot == 0
      ensures Valid()
      ensures ScopedHandles() == old(ScopedHandles()) && ZoneHandles() == old(ZoneHandles())
    {
      assert forall i :: 0 <= i < |zoneChain| ==> zoneChain[i] in Repr && zoneChain[i] != scopedBlocks;
      ZoneSideKept();
      assert forall i :: 0 <= i < |scopedChain| && i != head ==> scopedChain[i] in Repr && scopedChain[i] != scopedBlocks;
      assert scopedChain[old(head)].IsFull();
      assert ScopedChainOk();
      assert |CurrentMark().blocks| == head + 1;
      ScopedHandlesKeptOnAdvance();
    }

    /** Pushing the current restore point keeps the store valid. */
    twostate lemma ScopeOpened()
      requires old(Valid()) && scopes == old(scopes) + [old(CurrentMark())]
      requires zoneBlocks == old(zoneBlocks) && zoneChain == old(zoneChain) && Repr == old(Repr)
      requires scopedBlocks == old(scopedBlocks) && scopedChain == old(scopedChain) && head == old(head)
      requires forall b: HandlesBlock :: b in Repr ==> unchanged(b)
      ensures Valid()
      ensures ScopedHandles() == old(ScopedHandles()) && ZoneHandles() == old(ZoneHandles())
      ensures MarkHandles(old(CurrentMark())) == ScopedHandles()
    {
      var m := old(CurrentMark());
      assert forall i :: 0 <= i < |zoneChain| ==> zoneChain[i] in Repr;
      assert forall i :: 0 <= i < |scopedChain| ==> scopedChain[i] in Repr;
      assert m.blocks[..|m.blocks| - 1] == scopedChain[..head];
    }

    /** Popping the innermost restore point and returning to it keeps the store valid. */
    twostate lemma ScopeRestored(m: Mark)
      requires old(Valid()) && old(scopes) != [] && m == old(scopes)[|old(scopes)| - 1]
      requires zoneBlocks == old(zoneBlocks) && zoneChain == old(zoneChain)
      requires scopedChain == old(scopedChain) && Repr == old(Repr)
      requires scopes == old(scopes)[..|old(scopes)| - 1]
      requires head + 1 == |m.blocks| && scopedBlocks == scopedChain[head]
      requires forall b: HandlesBlock :: b in Repr && b != scopedBlocks ==> unchanged(b)
      requires scopedBlocks.nextBlock == old(m.blocks[|m.blocks| - 1].nextBlock) && scopedBlocks.nextHandleSlot == m.slot
      ensures Valid()
      ensures ScopedHandles() == MarkHandles(m) && ZoneHandles() == old(ZoneHandles())
    {
      assert old(MarkOk(m));
      assert forall i :: 0 <= i < |zoneChain| ==> zoneChain[i] in Repr && zoneChain[i] != scopedBlocks;
      assert forall i :: 0 <= i < |scopedChain| && i != head ==> scopedChain[i] in Repr && scopedChain[i] != scopedBlocks;
      assert m.blocks == scopedChain[..head + 1];
      assert m.blocks[..head] == scopedChain[..head];
      forall k | 0 <= k < |scopes| ensures MarkOk(scopes[k]) {
        assert old(MarkOk(scopes[k]));
      }
      assert scopes != [] ==> NotAfter(scopes[|scopes| - 1], m);
    }

    /** Allocates space for a scoped handle, moving to the next block when the head is full. */
    method AllocateScopedHandle() returns (handle: Slot)
      requires Valid()
      modifies Repr
      ensures Valid() && fresh(Repr - old(Repr))
      ensures ScopedHandles() == old(ScopedHandles()) + [handle]
      ensures ZoneHandles() == old(ZoneHandles())
      ensures handle !in old(ZoneHandles()) && handle !in old(ScopedHandles())
      ensures handle.block == scopedBlocks && scopedBlocks.IsValidHandle(handle)
      ensures head == old(head) + (if old(scopedBlocks.IsFull()) then 1 else 0)
      ensures old(scopedChain) <= scopedChain && |scopedChain| <= old(|scopedChain|) + 1
      ensures !old(scopedBlocks.IsFull()) || old(head) + 1 < old(|scopedChain|) ==> scopedChain == old(scopedChain)
      ensures zoneChain == old(zoneChain) && scopes == old(scopes)
    {
      if scopedBlocks.IsFull() {
        SetupNextScopeBlock();
      }
      label setUp:
      handle := scopedBlocks.AllocateHandle();
      ScopedHandleAllocated@setUp(handle);
    }

    /** Moves the scoped head to the next block, allocating one if the chain ends here. */
    method SetupNextScopeBlock()
      requires Valid() && scopedBlocks.IsFull()
      modifies Repr
      ensures Valid() && fresh(Repr - old(Repr))
      ensures head == old(head) + 1 && scopedBlocks.HandleCount() == 0
      ensures old(scopedChain) <= scopedChain && |scopedChain| <= old(|scopedChain|) + 1
      ensures old(head) + 1 < old(|scopedChain|) ==> scopedChain == old(scopedChain)
      ensures ScopedHandles() == old(ScopedHandles()) && ZoneHandles() == old(ZoneHandles())
      ensures zoneChain == old(zoneChain) && scopes == old(scopes)
    {
      if scopedBlocks.nextBlock == null {
        LinkScopeBlock();
      }
      label linked:
      var next := scopedBlocks.nextBlock;
      assert next == scopedChain[head + 1] && next in Repr;
      scopedBlocks := next;
      next.ReInit();
      head := head + 1;
      ScopedHeadAdvanced@linked(next);
    }

    /** Links a new empty block after the last scoped block, which is the full scoped head. */
    method LinkScopeBlock()
      requires Valid() && scopedBlocks.IsFull() && scopedBlocks.nextBlock == null
      modifies this, scopedBlocks
      ensures Valid() && fresh(Repr - old(Repr))
      ensures scopedBlocks == old(scopedBlocks) && scopedBlocks.IsFull() && head == old(head)
      ensures scopedChain == old(scopedChain) + [scopedBlocks.nextBlock]
      ensures ScopedHandles() == old(ScopedHandles()) && ZoneHandles() == old(ZoneHandles())
      ensures zoneBlocks == old(zoneBlocks) && zoneChain == old(zoneChain) && scopes == old(scopes)
    {
      var block := new HandlesBlock(null, handleSizeInWords, handlesPerChunk);
      scopedBlocks.nextBlock := block;
      scopedChain := scopedChain + [block];
      Repr := Repr + {block};
      ScopedChainExtended(block);
    }

    /** Allocates space for a zone handle, linking in a new block when there is none or it is full. */
    method AllocateHandleInZone() returns (handle: Slot)
      requires Valid()
      modifies Repr
      ensures Valid() && fresh(Repr - old(Repr))
      ensures multiset(ZoneHandles()) == multiset(old(ZoneHandles())) + multiset{handle}
      ensures ScopedHandles() == old(ScopedHandles())
      ensures handle !in old(ZoneHandles()) && handle !in old(ScopedHandles())
      ensures handle.block == zoneBlocks && zoneBlocks.IsValidHandle(handle)
      ensures old(zoneBlocks == null || zoneBlocks.IsFull()) ==> fresh(zoneBlocks) && zoneChain == [zoneBlocks] + old(zoneChain)
      ensures old(zoneBlocks != null && !zoneBlocks.IsFull()) ==> zoneChain == old(zoneChain)
      ensures scopedChain == old(scopedChain) && head == old(head) && scopes == old(scopes)
    {
      if zoneBlocks == null || zoneBlocks.IsFull() {
        SetupNextZoneBlock();
      }
      label setUp:
      handle := zoneBlocks.AllocateHandle();
      ZoneHandleAllocated@setUp(handle);
    }

    /** Allocates a new zone block and links it in as the zone head. */
    method SetupNextZoneBlock()
      requires Valid() && (zoneBlocks == null || zoneBlocks.IsFull())
      modifies this
      ensures Structure() && fresh(zoneBlocks) && Repr == old(Repr) + {zoneBlocks}
      ensures zoneChain == [zoneBlocks] + old(zoneChain) && zoneBlocks.HandleCount() == 0
      ensures ZoneHandles() == old(ZoneHandles()) && ScopedHandles() == old(ScopedHandles())
      ensures scopedBlocks == old(scopedBlocks) && scopedChain == old(scopedChain)
      ensures head == old(head) && scopes == old(scopes)
    {
      var block := new HandlesBlock(zoneBlocks, handleSizeInWords, handlesPerChunk);
      zoneBlocks := block;
      zoneChain := [block] + zoneChain;
      Repr := Repr + {block};
      ZoneChainExtended(block);
    }

    /** Drops the zone chain and truncates the scoped chain to its first, emptied block. */
    method Reset()
      requires Valid()
      modifies Repr
      ensures Valid() && Repr == {this, firstScopedBlock}
      ensures zoneChain == [] && scopedChain == [firstScopedBlock] && scopes == []
      ensures IsEmpty() && ZoneHandles() == [] && ScopedHandles() == []
    {
      zoneBlocks := null;
      firstScopedBlock.nextBlock := null;
      firstScopedBlock.ReInit();
      scopedBlocks := firstScopedBlock;
      zoneChain, scopedChain, head, scopes := [], [firstScopedBlock], 0, [];
      Repr := {this, firstScopedBlock};
    }

    /** The handles of the first `n` zone blocks, in walk order. */
    ghost function ZoneWalk(n: nat): seq<Slot>
      reads this, zoneBlocks
      requires n <= |zoneChain| && (zoneChain != [] ==> zoneBlocks != null && zoneBlocks.Valid())
    {
      if n == 0 then [] else zoneBlocks.OccupiedSlots() + FullSlots(zoneChain[1..n])
    }

    /** Walking one more zone block appends that block's handles. */
    lemma ZoneWalkStep(n: nat)
      requires Valid() && n < |zoneChain|
      ensures ZoneWalk(n + 1) == ZoneWalk(n) + zoneChain[n].OccupiedSlots()
      ensures |ZoneWalk(n + 1)| == |ZoneWalk(n)| + zoneChain[n].HandleCount()
    {
      if n == 0 {
        assert zoneChain[1..1] == [];
      } else {
        zoneChain[n].FullOccupied();
        FullSlotsSnoc(zoneChain, 1, n);
      }
    }

    /** Walking the whole zone chain yields the zone handles. */
    lemma ZoneWalkAll()
      requires Valid()
      ensures ZoneWalk(|zoneChain|) == ZoneHandles()
    {
      if zoneChain != [] {
        assert zoneChain[1..|zoneChain|] == zoneChain[1..];
      }
    }

    /** Walking one more full scoped block appends that block's handles. */
    lemma ScopedWalkStep(n: nat)
      requires Valid() && n < head
      ensures FullSlots(scopedChain[..n + 1]) == FullSlots(scopedChain[..n]) + scopedChain[n].OccupiedSlots()
    {
      scopedChain[n].FullOccupied();
      assert scopedChain[..n + 1][..n] == scopedChain[..n];
    }

    /** Number of live scoped handles: the counts of the blocks up to the scoped head. */
    method CountScopedHandles() returns (count: int)
      requires Valid()
      ensures count == |ScopedHandles()|
    {
      count := 0;
      var block := firstScopedBlock;
      ghost var i := 0;
      while block != scopedBlocks
        invariant 0 <= i <= head && block == scopedChain[i]
        invariant count == |FullSlots(scopedChain[..i])|
        decreases head - i
      {
        ScopedWalkStep(i);
        assert |FullSlots(scopedChain[..i + 1])| == count + block.HandleCount();
        count := count + block.HandleCount();
        block := block.nextBlock;
        i := i + 1;
      }
      count := count + block.HandleCount();
    }

    /** Number of zone handles: the counts of all zone blocks. */
    method CountZoneHandles() returns (count: int)
      requires Valid()
      ensures count == |ZoneHandles()|
    {
      count := 0;
      var block := zoneBlocks;
      ghost var i := 0;
      while block != null
        invariant 0 <= i <= |zoneChain|
        invariant block == if i < |zoneChain| then zoneChain[i] else null
        invariant count == |ZoneWalk(i)|
        decreases |zoneChain| - i
      {
        ZoneWalkStep(i);
        count := count + block.HandleCount();
        block := block.nextBlock;
        i := i + 1;
      }
      ZoneWalkAll();
    }

    /** Bytes held by the zone chain: one block size per zone block. */
    method ZoneHandlesCapacityInBytes() returns (capacity: int)
      requires Valid()
      ensures capacity == |zoneChain| * BlockSizeInBytes()
      ensures zoneBlocks == null ==> capacity == 0
    {
      capacity := 0;
      var block := zoneBlocks;
      ghost var i := 0;
      while block != null
        invariant 0 <= i <= |zoneChain|
        invariant block == if i < |zoneChain| then zoneChain[i] else null
        invariant capacity == i * BlockSizeInBytes()
        decreases |zoneChain| - i
      {
        capacity := capacity + BlockSizeInBytes();
        block := block.nextBlock;
        i := i + 1;
      }
    }

    /** Bytes held by the scoped chain from the scoped head to its end. */
    method ScopedHandlesCapacityInBytes() returns (capacity: int)
      requires Valid()
      ensures capacity == (|scopedChain| - head) * BlockSizeInBytes()
      ensures capacity >= BlockSizeInBytes()
    {
      capacity := 0;
      var block: HandlesBlock? := scopedBlocks;
      ghost var i := head;
      while block != null
        invariant head <= i <= |scopedChain|
        invariant block == if i < |scopedChain| then scopedChain[i] else null
        invariant capacity == (i - head) * BlockSizeInBytes()
        decreases |scopedChain| - i
      {
        assert (i + 1 - head) * BlockSizeInBytes() == (i - head) * BlockSizeInBytes() + BlockSizeInBytes();
        capacity := capacity + BlockSizeInBytes();
        block := block.nextBlock;
        i := i + 1;
      }
      assert (|scopedChain| - head) * BlockSizeInBytes() >= 1 * BlockSizeInBytes() by {
        ProductPositive(handleSizeInWords, handlesPerChunk);
        MulMonotone(1, |scopedChain| - head, BlockSizeInBytes());
      }
    }

    /** Enumerates the live scoped handles, block by block up to the scoped head. */
    method VisitScopedHandles() returns (slots: seq<Slot>)
      requires Valid()
      ensures slots == ScopedHandles()
      ensures Distinct(slots)
      ensures forall s :: s in slots ==> s.block in scopedChain && s.block.IsValidHandle(s)
    {
      slots := [];
      var block := firstScopedBlock;
      ghost var i := 0;
      while block != scopedBlocks
        invariant 0 <= i <= head && block == scopedChain[i]
        invariant slots == FullSlots(scopedChain[..i])
        decreases head - i
      {
        ScopedWalkStep(i);
        slots := slots + block.OccupiedSlots();
        block := block.nextBlock;
        i := i + 1;
      }
      slots := slots + block.OccupiedSlots();
      HandlesDistinct();
    }

    /** Enumerates every handle: the zone chain walked from its head, then the scoped handles. */
    method VisitObjectPointers() returns (slots: seq<Slot>)
      requires Valid()
      ensures slots == ZoneHandles() + ScopedHandles()
      ensures Distinct(slots)
    {
      slots := [];
      var block := zoneBlocks;
      ghost var i := 0;
      while block != null
        invariant 0 <= i <= |zoneChain|
        invariant block == if i < |zoneChain| then zoneChain[i] else null
        invariant slots == ZoneWalk(i)
        decreases |zoneChain| - i
      {
        ZoneWalkStep(i);
        slots := slots + block.OccupiedSlots();
        block := block.nextBlock;
        i := i + 1;
      }
      ZoneWalkAll();
      var scoped := VisitScopedHandles();
      slots := slots + scoped;
      HandlesDistinct();
    }

    /** True when some block of the scoped chain holds the address. */
    method IsValidScopedHandle(handle: Slot) returns (valid: bool)
      requires Valid()
      ensures valid <==> handle.block in scopedChain && handle.block.IsValidHandle(handle)
    {
      var block: HandlesBlock? := firstScopedBlock;
      ghost var i := 0;
      while block != null
        invariant 0 <= i <= |scopedChain|
        invariant block == if i < |scopedChain| then scopedChain[i] else null
        invariant forall k :: 0 <= k < i ==> !scopedChain[k].IsValidHandle(handle)
        decreases |scopedChain| - i
      {
        if block.IsValidHandle(handle) {
          return true;
        }
        block := block.nextBlock;
        i := i + 1;
      }
      return false;
    }

    /** True when some block of the zone chain holds the address. */
    method IsValidZoneHandle(handle: Slot) returns (valid: bool)
      requires Valid()
      ensures valid <==> handle.block in zoneChain && handle.block.IsValidHandle(handle)
    {
      var block := zoneBlocks;
      ghost var i := 0;
      while block != null
        invariant 0 <= i <= |zoneChain|
        invariant block == if i < |zoneChain| then zoneChain[i] else null
        invariant forall k :: 0 <= k < i ==> !zoneChain[k].IsValidHandle(handle)
        decreases |zoneChain| - i
      {
        if block.IsValidHandle(handle) {
          return true;
        }
        block := block.nextBlock;
        i := i + 1;
      }
      return false;
    }
  }

  /**
   * A handle scope: on construction it records where the scoped chain is,
   * and on exit it puts the scoped head and that block's cursor back.
   */
  class HandleScope {
    const handles: Handles
    const savedHandleBlock: HandlesBlock
    const savedHandleSlot: int
    /** The scoped blocks up to and including the saved block. */
    ghost const savedBlocks: seq<HandlesBlock>
    /** The scoped handles that were live when the scope opened. */
    ghost const savedHandles: seq<Slot>

    ghost function RestorePoint(): Mark
    {
      Mark(savedBlocks, savedHandleSlot)
    }

    ghost predicate Valid()
    {
      && savedBlocks != [] && savedBlocks[|savedBlocks| - 1] == savedHandleBlock
      && savedHandleSlot >= 0
      && savedHandles == MarkHandles(RestorePoint())
    }

    constructor (h: Handles)
      requires h.Valid()
      modifies h`scopes
      ensures Valid() && handles == h && h.Valid()
      ensures savedHandleBlock == h.scopedBlocks && savedHandleSlot == h.scopedBlocks.nextHandleSlot
      ensures savedHandles == h.ScopedHandles()
      ensures h.scopes == old(h.scopes) + [RestorePoint()]
    {
      handles := h;
      savedHandleBlock := h.scopedBlocks;
      savedHandleSlot := h.scopedBlocks.nextHandleSlot;
      savedBlocks := h.scopedChain[..h.head + 1];
      savedHandles := h.ScopedHandles();
      new;
      h.scopes := h.scopes + [RestorePoint()];
      h.ScopeOpened();
    }

    /** Puts the scoped head and its cursor back to the restore point. */
    method Exit()
      requires Valid() && handles.Valid()
      requires handles.scopes != [] && handles.scopes[|handles.scopes| - 1] == RestorePoint()
      modifies handles, savedHandleBlock`nextHandleSlot
      ensures handles.Valid() && handles.Repr == old(handles.Repr)
      ensures handles.ScopedHandles() == savedHandles
      ensures handles.ZoneHandles() == old(handles.ZoneHandles())
      ensures handles.scopes == old(handles.scopes[..|handles.scopes| - 1])
      ensures handles.scopedBlocks == savedHandleBlock && savedHandleBlock.nextHandleSlot == savedHandleSlot
      ensures handles.zoneChain == old(handles.zoneChain) && handles.scopedChain == old(handles.scopedChain)
    {
      var h := handles;
      ghost var index := |savedBlocks| - 1;
      assert h.MarkOk(RestorePoint());
      h.scopedBlocks := savedHandleBlock;
      savedHandleBlock.nextHandleSlot := savedHandleSlot;
      h.head := index;
      h.scopes := h.scopes[..|h.scopes| - 1];
      h.ScopeRestored(RestorePoint());
    }
  }
}
