# Handle allocator of the Dart VM, modelled in Dafny

This project models the handle allocator in `runtime/vm/handles.h`. Runtime code
uses handles as GC-safe slots that hold object references. The store hands
them out from two chains of fixed-capacity blocks:

- the **zone chain** (`zone_blocks_`) only grows. A new block is linked in
  front whenever the head block is missing or full. Zone handles live until
  the store is reset.
- the **scoped chain** starts at the store's own `first_scoped_block_`.
  `scoped_blocks_` points at the block that is taking allocations. A
  `HandleScope` records `(saved_handle_block_, saved_handle_slot_)` when it
  opens and puts them back when it closes. That releases every scoped handle
  allocated in between. The blocks behind the restore point stay linked and
  are reused (re-initialised) by the next allocations.

Files:

- `handles_block.dfy` (module `HandlesBlocks`):
  - the `HandlesBlock` class: a bump cursor `nextHandleSlot` over a data area
    of `handleSizeInWords * handlesPerChunk` words, and a `nextBlock` link;
  - the abstract handle address `Slot(block, offset)`;
  - the sequences of slots that a block, or a run of full blocks, holds.
- `handles.dfy` (module `VmHandles`):
  - the `Handles` store class, with ghost chains that describe the two linked
    lists;
  - the `HandleScope` class.

How the state is described:

- `zoneChain` lists the zone blocks in link order. `scopedChain` lists the
  scoped blocks from `firstScopedBlock`, and `head` is the index of
  `scopedBlocks` in it. `scopes` holds the restore points of the open scopes,
  innermost last.
- `Valid()` states the shape of the store:
  - both chains are acyclic, duplicate-free and disjoint from each other;
  - every cursor is inside its data area and on a handle boundary;
  - the scoped blocks before the head are full;
  - the zone blocks behind the zone head are full;
  - the zone head holds at least one handle;
  - the open restore points lie on the scoped chain, in order.
- `ZoneHandles()` and `ScopedHandles()` are the live handles of each chain.
  They are listed in the order in which the source walks the chains.

Every allocation is proved to leave `Valid()` intact. It adds exactly the
returned handle, and that handle was not live before. Every walk over a chain
is written as a loop over the real links, with an index into the ghost chain:

- the Count and Visit loops tie their accumulator to the handles of the
  blocks walked so far, a prefix of these sequences;
- the capacity loops tie their sum to the number of blocks walked times
  `BlockSizeInBytes()`;
- the `IsValid*` searches keep no accumulator; their invariant says that no
  block walked so far holds the address.

The header shows loop bodies only for the two capacity sums. The
other walks are declared without a body, and "## Left out" says how far
each of them is taken to run.

## Model

| member | source | states |
|---|---|---|
| HandlesBlocks.HandlesBlock.constructor | runtime/vm/handles.h:146-147 | a new block links to `next`, has cursor 0, holds no handle and is not full |
| HandlesBlocks.HandlesBlock.ReInit | runtime/vm/handles.h:150-151 | a reinitialised block has cursor 0, holds no handle and is not full; its link is kept |
| HandlesBlocks.HandlesBlock.IsFull | runtime/vm/handles.h:154-156 | the block is full exactly when its handle count has reached kHandlesPerChunk |
| HandlesBlocks.FillFreshBlock | runtime/vm/handles.h:154-171 | allocating from a new block, IsFull answers false after each of the first kHandlesPerChunk - 1 allocations and before any, and true after exactly kHandlesPerChunk; the handles handed out are exactly the block's occupied slots |
| HandlesBlocks.HandlesBlock.IsValidHandle | runtime/vm/handles.h:158-163 | an address belongs to the block exactly when it lies in that block's data area, i.e. its handle index is below kHandlesPerChunk |
| HandlesBlocks.HandlesBlock.HandleCount | runtime/vm/handles.h:184-185 | the count of active handles lies in 0..kHandlesPerChunk, and count times the handle size is the cursor |
| HandlesBlocks.HandlesBlock.OccupiedSlots | runtime/vm/handles.h:173-174 | the handles a block visit enumerates number exactly HandleCount |
| HandlesBlocks.HandlesBlock.OccupiedSlotsFacts | runtime/vm/handles.h:159-171 | every handle a block has handed out is valid for it and below its cursor; they are in strictly increasing address order and pairwise distinct |
| HandlesBlocks.HandlesBlock.AllocateHandle | runtime/vm/handles.h:165-171 | on a block that is not full, returns the slot at the cursor, which is valid for the block and not yet handed out; advances the cursor by exactly kHandleSizeInWords, appends the slot to the occupied ones and changes nothing else |
| HandlesBlocks.FullSlotsDistinct | runtime/vm/handles.h:138-143 | full blocks that are pairwise different hold pairwise different handles |
| HandlesBlocks.FullSlotsMembership | runtime/vm/handles.h:138-143 | every handle of a run of full blocks is valid for one of those blocks |
| VmHandles.Handles.constructor | runtime/vm/handles.h:56-59 | a new store has no zone block; its scoped head is the first scoped block, with count 0 and no link; it is valid and IsEmpty holds |
| VmHandles.Handles.BlockSizeInBytes | runtime/vm/handles.h:114 | sizeof(HandlesBlock) is the data area of kHandleSizeInWords * kHandlesPerChunk words plus two header words, so more than two words; BlockSizeCoversData proves that this data area is exactly the range IsValidHandle accepts |
| VmHandles.Handles.BlockSizeCoversData | runtime/vm/handles.h:159-163 | for a block of this store, a word offset is accepted by IsValidHandle exactly when its byte offset lies in the data area that BlockSizeInBytes counts beyond the two header words |
| VmHandles.Handles.IsEmpty | runtime/vm/handles.h:103-108 | the three checks hold exactly when no zone handle and no scoped handle is live |
| VmHandles.Handles.HandlesDistinct | runtime/vm/handles.h:18-27 | in a valid store all live handles, zone and scoped, are pairwise distinct, and each lies in a block of its own chain (scoped ones up to the scoped head) |
| VmHandles.Handles.AllocateScopedHandle | runtime/vm/handles.h:95-101 | returns a handle of the (possibly advanced) scoped head that was not live before; the scoped handles grow by exactly that handle at the end; zone handles, zone chain and open scopes are unchanged; the head advances exactly when it was full; the scoped chain is unchanged unless the head was both full and the last block, and then gains at most one block at its end |
| VmHandles.Handles.SetupNextScopeBlock | runtime/vm/handles.h:207-208 | moves the scoped head one block on, reusing the linked next block if there is one (then the chain is unchanged) and linking one new block otherwise; the new head holds no handle; no live handle changes |
| VmHandles.Handles.LinkScopeBlock | runtime/vm/handles.h:207-208 | when the full scoped head has no next block, links one new block after it; the head stays full and in place, the chain grows by just that block, and no live handle changes |
| VmHandles.Handles.ScopedHandleAllocated | runtime/vm/handles.h:96-101 | allocating in the scoped head keeps the store valid, adds just the new handle at the end of the scoped handles and leaves the zone handles alone |
| VmHandles.Handles.ScopedHandleAdded | runtime/vm/handles.h:166-171 | a handle appended to the scoped head's occupied slots was live neither as a zone nor as a scoped handle |
| VmHandles.Handles.ScopedChainExtended | runtime/vm/handles.h:207-208 | linking a fresh empty block after the last scoped block keeps the store valid and every live handle |
| VmHandles.Handles.ScopedHandlesKeptOnAdvance | runtime/vm/handles.h:207-208 | moving the head from a full block to the next, emptied block leaves exactly the same scoped handles live |
| VmHandles.Handles.ScopedHeadAdvanced | runtime/vm/handles.h:150-151 | moving the head from a full block to the reinitialised next block keeps the store valid and every live handle |
| VmHandles.Handles.AllocateHandleInZone | runtime/vm/handles.h:210-216 | sets up a block when the zone head is missing or full, then returns a handle of the zone head that was not live before; the zone handles grow by exactly that handle, the scoped side is unchanged; the zone chain gains a fresh block at its front exactly when the head was missing or full, and is unchanged otherwise |
| VmHandles.Handles.ZoneHandleAllocated | runtime/vm/handles.h:211-216 | allocating in the zone head keeps the store valid, adds just the new handle to the zone handles and leaves the scoped handles alone |
| VmHandles.Handles.ZoneHandleAdded | runtime/vm/handles.h:166-171 | a handle appended to the zone head's occupied slots was live neither as a zone nor as a scoped handle |
| VmHandles.Handles.SetupNextZoneBlock | runtime/vm/handles.h:218-219 | allocates a fresh empty block and links it in front of the zone chain; no live handle changes and the scoped side is untouched |
| VmHandles.Handles.ZoneChainExtended | runtime/vm/handles.h:218-219 | linking a fresh empty block in front of a full zone head keeps every live handle and the whole shape of the store except the zone head's non-emptiness |
| VmHandles.Handles.Reset | runtime/vm/handles.h:78-79 | afterwards the store is valid and empty again: no zone block, the first scoped block emptied and unlinked, no open scope |
| VmHandles.Handles.CountScopedHandles | runtime/vm/handles.h:129-130 | walks the scoped blocks from the first one up to the scoped head and returns the number of live scoped handles |
| VmHandles.Handles.CountZoneHandles | runtime/vm/handles.h:129-131 | walks the whole zone chain and returns the number of live zone handles |
| VmHandles.Handles.ZoneWalkStep | runtime/vm/handles.h:112-113 | walking one more zone block appends exactly that block's handles |
| VmHandles.Handles.ZoneHandlesCapacityInBytes | runtime/vm/handles.h:110-117 | the sum over the zone chain is the number of zone blocks times sizeof(HandlesBlock), so 0 when there is no zone block |
| VmHandles.Handles.ScopedHandlesCapacityInBytes | runtime/vm/handles.h:119-126 | the sum from the scoped head to the end of the chain is the number of those blocks times sizeof(HandlesBlock), at least one block's size |
| VmHandles.Handles.VisitScopedHandles | runtime/vm/handles.h:65-66 | enumerates exactly the live scoped handles, block by block in allocation order; they are pairwise distinct and lie in scoped blocks |
| VmHandles.Handles.VisitObjectPointers | runtime/vm/handles.h:62-63 | enumerates exactly the zone handles followed by the scoped handles, with no handle twice |
| VmHandles.Handles.IsValidScopedHandle | runtime/vm/handles.h:133-134 | true exactly when some block of the scoped chain holds the address |
| VmHandles.Handles.IsValidZoneHandle | runtime/vm/handles.h:133-135 | true exactly when some block of the zone chain holds the address |
| VmHandles.Handles.ScopeOpened | runtime/vm/handles.h:24-25 | pushing the current restore point keeps the store valid, and that restore point denotes exactly the scoped handles live now |
| VmHandles.Handles.ScopeRestored | runtime/vm/handles.h:26-27 | returning to the innermost restore point keeps the store valid, leaves exactly the scoped handles of that point live and keeps the zone handles |
| VmHandles.HandleScope.constructor | runtime/vm/handles.h:312-321 | saves the scoped head and its cursor, which denote exactly the scoped handles live now, and opens a scope on the store |
| VmHandles.HandleScope.Exit | runtime/vm/handles.h:24-27 | puts the saved block and cursor back: exactly the scoped handles live at scope entry remain (so their count is restored), zone handles and both chains are unchanged, the scope is closed |

## Left out

- Visitor callbacks: `ObjectPointerVisitor` and `HandleVisitor` (`Visit`, and the per-block `VisitObjectPointers` and `Visit`) call into the collector, whose code is not part of this model. A visit is modelled as the sequence of slots it would pass to the visitor.
- `VisitUnvisitedScopedHandles`: its "last visited" bookkeeping is not part of the class shown, so there is nothing to model it on.
- Raw addresses: `data_` pointer arithmetic, `kWordSize` and `kOffsetOfRawPtr` are replaced by abstract `Slot(block, offset)` addresses, where the offset counts words. An offset in the middle of a handle, such as `Slot(b, 1)` with two-word handles, is representable, and IsValidHandle accepts it as the source's range check accepts such an address. A byte address inside a word is not representable.
- `VmHandles.Handles.BlockSizeInBytes`: sizeof(HandlesBlock) is taken as one word for the link, one for the cursor and the data area, with the word size as a parameter. Padding is not modelled.
- `ZoneHandlesCapacityInBytes`, `ScopedHandlesCapacityInBytes`, `CountScopedHandles`, `CountZoneHandles`: integers are unbounded, so overflow of the `intptr_t` capacity sums and of the `int` handle counts is not modelled.
- Memory management is not modelled: `MallocAllocated`, out-of-memory, the destructors, `DeleteAll` and `DeleteHandleBlocks`. Dropped blocks are simply no longer reachable from the store.
- `FLAG_trace_handles` logging (I/O), the DEBUG-only zapping, `VerifyScopedHandleState`, `IsZoneHandle` and the `link_` field of `HandleScope` are not modelled.
- The static entry points `AllocateHandle(Zone*)` and `AllocateZoneHandle(Zone*)`, the friend classes and the `HANDLESCOPE` macro depend on thread and zone plumbing and are not modelled.
- `VMHandles` is one instantiation of the template: 2 (3 in DEBUG) words per handle and 63 handles per chunk. The model keeps both template parameters as arbitrary positive constants.
- The inline `first_scoped_block_` is modelled as a separately allocated block that the store references through a constant field.
- These members are modelled from their declarations and doc comments, since their bodies are not in the header:
  - `HandlesBlocks.HandlesBlock.HandleCount` (:184-185) is the cursor divided by the handle size;
  - `HandlesBlocks.HandlesBlock.ReInit` (:150-151) only rewinds the cursor;
  - `VmHandles.Handles.Reset` (:78-79) drops the zone chain and unlinks and empties the first scoped block;
  - `VmHandles.Handles.SetupNextScopeBlock` and `VmHandles.Handles.SetupNextZoneBlock` (:207-208, :218-219) move or link one block as their names say;
  - `VmHandles.Handles.CountScopedHandles` and `VmHandles.Handles.VisitScopedHandles` (:130, :66) walk from the first scoped block up to and including the scoped head. Slots behind the head were released by a scope exit and are not live;
  - `VmHandles.Handles.VisitObjectPointers` (:63) walks the whole zone chain and then the scoped blocks as above;
  - `VmHandles.Handles.CountZoneHandles` (:131) walks the whole zone chain;
  - `VmHandles.Handles.IsValidScopedHandle` (:134) walks the whole scoped chain to its end, past the head. This is the same extent as the capacity loop at :119-126, which also runs to the null link. So a released slot in a block behind the head still counts as valid;
  - `VmHandles.Handles.IsValidZoneHandle` (:135) walks the whole zone chain;
  - `VmHandles.HandleScope.constructor` and `VmHandles.HandleScope.Exit` (:314-315) save the scoped head and cursor and put them back, as the class comment at :300-309 and the saved fields describe.
- `VmHandles.Handles.SetupNextScopeBlock`: requires a full scoped head, as at its only call site. It is not specified for a head that still has room.
- `VmHandles.Handles.SetupNextZoneBlock`: requires a missing or full zone head, as at its only call site. This keeps every zone block behind the head full.
- `VmHandles.Handles.AllocateHandleInZone`: states the change of the zone handles as a multiset: one new handle, nothing else. It does not state where in the walk order the handle appears.
- `VmHandles.HandleScope.Exit`: requires that the scope is the innermost open one. Scopes are stack objects, so they close in LIFO order; the model takes this as a precondition instead of checking it.
