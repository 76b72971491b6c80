# cMemoryManager: a first-fit arena allocator, modelled in Dafny

`cMemoryManager` owns one buffer of `bytes` bytes. It carves the buffer into
regions, and each region starts with a `cMemoryChunk` header. The header
records whether the region is in use, how many payload bytes follow it, and
where the previous and next headers are in address order. `allocate` walks
that chain from the base of the buffer and takes the first free region large
enough for the request plus one more header. It splits that region and returns
the address just past the header. In memory-manager-3, `deallocate` validates a
pointer, finds its header and frees the region, merging it with a free
predecessor and a free successor. A trashing policy (`eTrashing`, a bit mask)
chooses which events poison memory. Each event has its own byte
(`eTrashingValue`): 0xCD on initialization, 0xAA on allocation and 0xDD on
deallocation.

The model has three layers.

- `Layout` sees the arena as a sequence of `Block`s (offset, payload size,
  in use). First fit, the split and the merge are functions on that
  sequence, and the manager's invariants are predicates on it:
  - the regions tile the buffer;
  - the free count is the free payload;
  - no two neighbouring regions are both free.
- `Chain` holds the headers themselves, as a map from offset to `Chunk`. It
  relates them to the block sequence through the `previous` and `next` links.
  `SplitLinks` and `CoalesceLinks` describe exactly which headers `allocate`
  and `deallocateChunk` rewrite.
- `MemoryManager3.MemoryManager` and `MemoryManager2.MemoryManager` are classes
  with the fields of the C++ class. Their methods follow the source closely,
  with two deviations. `DeallocateChunk` adds up `m_freeBytesCount` in a
  local and writes the field once at the end. memory-manager-2's `Allocate`
  replaces the branch that relinks a successor with a proof that the branch
  is never taken. Each method is proved to keep the class invariant and to
  move the block sequence by exactly the corresponding `Layout` function.

Pointers are offsets into the buffer (`Ptr = Null | At(offset)`).
`sizeof(cMemoryChunk)` is the constant `HeaderSize = 24`, the size of the
header on a 64-bit target. The buffer is an `array<bv8>`, and only the bytes
that trashing writes into it are tracked.

memory-manager-2 has the same constructor and `allocate` as memory-manager-3,
but no `deallocate`. Its arena is therefore always a run of regions in use
followed by one free tail (`AllocateOnly`). In that shape, first fit is a bump
allocator: a request succeeds exactly when the free count covers it plus a
header, and the pointer handed out is `m_totalBytesCount - m_freeBytesCount`.

## Model

| member | source | states |
|---|---|---|
| MemoryChunk.NewChunk | assets/code-samples/per-post/memory-manager-2/MemoryChunk.h:12-18 | a new header is free, unlinked, and records exactly the payload size it was given |
| TrashingOptions.Trashing.Mask | assets/code-samples/per-post/memory-manager-2/MemoryManager.h:6-21 | the eTrashing mask is zero only for NONE, and every mask lies within the three trigger bits |
| TrashingOptions.Trashing.Value | assets/code-samples/per-post/memory-manager-2/MemoryManager.h:6-11 | the poison byte is 0xFF exactly for NONE and ON_ALL |
| TrashingOptions.TriggersAreDistinctBits | assets/code-samples/per-post/memory-manager-2/MemoryManager.h:6-21 | ON_INITIALIZATION, ON_ALLOCATION and ON_DEALLOCATION are the bits 1, 2 and 4, pairwise disjoint |
| TrashingOptions.OnAllIsUnion | assets/code-samples/per-post/memory-manager-2/MemoryManager.h:11 | ON_ALL is the union of the three triggers |
| TrashingOptions.FiresExactly | assets/code-samples/per-post/memory-manager-3/MemoryManager.cpp:126 | the mask test fires for a trigger exactly when the policy is that trigger or ON_ALL; NONE never fires |
| TrashingOptions.Fires | assets/code-samples/per-post/memory-manager-3/MemoryManager.cpp:126 | the test `m_trashing & trigger` of lines 17, 126 and 268; FiresExactly states when it holds |
| TrashingOptions.DefaultFiresEveryTrigger | assets/code-samples/per-post/memory-manager-2/MemoryManager.h:23 | with the default policy ON_ALL, every event poisons |
| TrashingOptions.PoisonBytes | assets/code-samples/per-post/memory-manager-2/MemoryManager.h:31-36 | the eTrashingValue bytes are 0xCD, 0xAA and 0xDD, and 0xFF for NONE and ON_ALL |
| Memory.Poisoned | assets/code-samples/per-post/memory-manager-3/MemoryManager.cpp:128 | poisoning sets exactly the bytes of the range to the value and keeps every other byte |
| Memory.Memset | assets/code-samples/per-post/memory-manager-3/MemoryManager.cpp:128 | memset leaves the array equal to Poisoned of its old contents |
| Layout.FreeBytes | assets/code-samples/per-post/memory-manager-2/MemoryManager.h:38 | what m_freeBytesCount counts: the payload of the free regions; SplitFreeBytes, CoalesceFreeBytes and FreeBytesBound state how it moves and how far it reaches |
| Layout.Initial | assets/code-samples/per-post/memory-manager-3/MemoryManager.cpp:8-24 | the fresh arena tiles the buffer with no free neighbours, and its free bytes are the buffer less one header |
| Layout.FreeBytesBound | assets/code-samples/per-post/memory-manager-3/MemoryManager.cpp:10 | in any tiling the free payload plus one header fits in the buffer, so m_freeBytesCount cannot overflow |
| Layout.Coverage | assets/code-samples/per-post/memory-manager-3/MemoryManager.cpp:106 | headers plus payloads of a contiguous run add up to the span it covers |
| Layout.OffsetsIncrease | assets/code-samples/per-post/memory-manager-3/MemoryManager.cpp:183-187 | along the chain, every region ends no later than any later region starts |
| Layout.Fits | assets/code-samples/per-post/memory-manager-3/MemoryManager.cpp:89 | the corrected allocate guard: a free region with room for the request plus one header; SplitStaysInside states what it guarantees |
| Layout.FitsAsWritten | assets/code-samples/per-post/memory-manager-3/MemoryManager.cpp:89 | the guard as the source evaluates it, with the sum wrapping modulo 2^32; FitsAsWrittenBelowWrap and WrappedGuardAdmitsHugeRequest state where it agrees with Fits and where it does not |
| Layout.FirstFitFrom | assets/code-samples/per-post/memory-manager-3/MemoryManager.cpp:86-95 | the walk from the k-th region on: the region it stops at fits and no region before it from k on fits, and when it stops at nullptr no region from k on fits |
| Layout.FirstFit | assets/code-samples/per-post/memory-manager-3/MemoryManager.cpp:84-101 | the search yields the lowest-address region that passes the guard, and yields nothing exactly when no region passes it |
| Layout.FirstFitIsFirst | assets/code-samples/per-post/memory-manager-3/MemoryManager.cpp:86-95 | a fitting region with no fitting region before it is the one the search stops at |
| Layout.FitsAsWrittenBelowWrap | assets/code-samples/per-post/memory-manager-3/MemoryManager.cpp:89 | when `bytes + chunkSize` does not wrap, the guard as written agrees with Fits |
| Layout.WrappedGuardAdmitsHugeRequest | assets/code-samples/per-post/memory-manager-3/MemoryManager.cpp:89 | a request of 0xFFFFFFF0 bytes on a 64-byte arena passes the wrapped guard, fails Fits, and would place a header outside the buffer |
| Layout.Split | assets/code-samples/per-post/memory-manager-3/MemoryManager.cpp:103-120 | the split of allocate; SplitTiles, SplitFreeBytes and SplitNoAdjacentFree state its effect on the regions |
| Layout.SplitStaysInside | assets/code-samples/per-post/memory-manager-3/MemoryManager.cpp:89-107 | when Fits holds, the header placed by the split and the payload handed out lie inside the buffer |
| Layout.SplitTiles | assets/code-samples/per-post/memory-manager-3/MemoryManager.cpp:103-120 | after a split the regions still tile the buffer, the chosen region is in use with exactly the requested bytes, and a free remainder follows it |
| Layout.SplitFreeBytes | assets/code-samples/per-post/memory-manager-3/MemoryManager.cpp:123 | allocation removes exactly the payload plus one header from the free bytes |
| Layout.SplitNoAdjacentFree | assets/code-samples/per-post/memory-manager-3/MemoryManager.cpp:103-120 | allocation keeps "no two neighbouring regions are both free" |
| Layout.SplitKeepsLayout | assets/code-samples/per-post/memory-manager-3/MemoryManager.cpp:103-123 | a split keeps the tiling and the free-byte accounting, and keeps "no free neighbours" whenever it held before |
| Layout.ExhaustionDespiteScatteredFreeBytes | assets/code-samples/per-post/memory-manager-3/MemoryManager.cpp:97-101 | a request can fail even when the scattered free bytes add up to it, because first fit needs one region |
| Layout.MergeStart | assets/code-samples/per-post/memory-manager-3/MemoryManager.cpp:219-233 | the merge starts at the predecessor exactly when that one exists and is free |
| Layout.MergeEnd | assets/code-samples/per-post/memory-manager-3/MemoryManager.cpp:235-257 | the merge takes in the successor exactly when that one exists and is free |
| Layout.MergedBytes | assets/code-samples/per-post/memory-manager-3/MemoryManager.cpp:214-243 | newChunkFreeBytes: the freed payload plus each absorbed neighbour with its header; MergedSpanFreeBytes relates it to the free payload of the span |
| Layout.Coalesce | assets/code-samples/per-post/memory-manager-3/MemoryManager.cpp:211-265 | the merge of deallocateChunk; CoalesceTiles, CoalesceFreeBytes and CoalesceNoAdjacentFree state its effect on the regions |
| Layout.Reclaimed | assets/code-samples/per-post/memory-manager-3/MemoryManager.cpp:217-255 | what deallocateChunk adds to m_freeBytesCount; CoalesceFreeBytes states that it is exactly the growth of the free payload |
| Layout.CoalesceTiles | assets/code-samples/per-post/memory-manager-3/MemoryManager.cpp:207-271 | after a free the regions still tile the buffer, regions outside the merged span are unchanged, and the merged free region covers the whole span |
| Layout.MergedSpanFreeBytes | assets/code-samples/per-post/memory-manager-3/MemoryManager.cpp:214-243 | the merged payload is the old free payload of the span plus what the free reclaims |
| Layout.CoalesceFreeBytes | assets/code-samples/per-post/memory-manager-3/MemoryManager.cpp:217-255 | a free raises m_freeBytesCount by the payload plus one header per absorbed neighbour |
| Layout.CoalesceNoAdjacentFree | assets/code-samples/per-post/memory-manager-3/MemoryManager.cpp:219-257 | a free re-establishes "no two neighbouring regions are both free" |
| Layout.CoalesceKeepsLayout | assets/code-samples/per-post/memory-manager-3/MemoryManager.cpp:207-272 | a free keeps the tiling, "no free neighbours" and the free-byte accounting, and the merged region lies inside the buffer |
| Layout.PayloadOwner | assets/code-samples/per-post/memory-manager-3/MemoryManager.cpp:173-205 | the walk only yields an in-use region whose payload starts at the address |
| Layout.PayloadOwnerFinds | assets/code-samples/per-post/memory-manager-3/MemoryManager.cpp:180-202 | the walk finds every in-use region whose payload starts at the address, despite stopping early at the first header past it |
| Layout.Released | assets/code-samples/per-post/memory-manager-3/MemoryManager.cpp:135-148 | deallocate frees a region exactly when the pointer is non-null, in the buffer, past the first header, and the payload start of an in-use region |
| Layout.DeallocateTwiceIsNoop | assets/code-samples/per-post/memory-manager-3/MemoryManager.cpp:135-148 | freeing the same pointer a second time finds nothing to free |
| Layout.AllocateThenDeallocate | assets/code-samples/per-post/memory-manager-3/MemoryManager.cpp:80-148 | freeing the pointer just allocated releases that region and restores the arena exactly |
| Chain.HeadersLinked | assets/code-samples/per-post/memory-manager-2/MemoryChunk.h:6-10 | headers that describe each region with its neighbours form a doubly linked chain: previous and next agree pairwise, and the ends are nullptr |
| Chain.LinkedAt | assets/code-samples/per-post/memory-manager-2/MemoryChunk.h:6-10 | in a linked chain each region's header records its state, its size, and its two neighbours |
| Chain.SplitLinks | assets/code-samples/per-post/memory-manager-3/MemoryManager.cpp:105-120 | the headers allocate rewrites; SplitLinksEffect and SplitLinked state which change and that they describe Split |
| Chain.SplitLinksEffect | assets/code-samples/per-post/memory-manager-3/MemoryManager.cpp:105-120 | the split rewrites the chosen header, creates the remainder's header, and repoints the successor's previous link; every other header is unchanged |
| Chain.SplitLinked | assets/code-samples/per-post/memory-manager-3/MemoryManager.cpp:105-120 | the rewritten headers describe the split sequence of regions |
| Chain.SplitArena | assets/code-samples/per-post/memory-manager-3/MemoryManager.cpp:103-123 | from a consistent arena, the split headers, the split regions and the reduced free count form a consistent arena again |
| Chain.MergeStartAt | assets/code-samples/per-post/memory-manager-3/MemoryManager.cpp:219-223 | chunkToStartDeallocation: a free predecessor, otherwise the freed header; CoalesceAgrees states that it is the region MergeStart picks |
| Chain.MergedBytesAt | assets/code-samples/per-post/memory-manager-3/MemoryManager.cpp:214-243 | newChunkFreeBytes read off the headers; CoalesceAgrees states that it equals MergedBytes |
| Chain.ReclaimedAt | assets/code-samples/per-post/memory-manager-3/MemoryManager.cpp:217-255 | the growth of m_freeBytesCount read off the headers; CoalesceAgrees states that it equals Reclaimed |
| Chain.CoalesceLinks | assets/code-samples/per-post/memory-manager-3/MemoryManager.cpp:211-265 | the headers deallocateChunk rewrites; CoalesceLinked states that they describe Coalesce |
| Chain.CoalesceNeighbours | assets/code-samples/per-post/memory-manager-3/MemoryManager.cpp:211-257 | the neighbours deallocateChunk reaches through previous and next are the neighbouring regions |
| Chain.CoalesceAgrees | assets/code-samples/per-post/memory-manager-3/MemoryManager.cpp:211-257 | the merge start, merged size and reclaimed bytes read from the headers equal MergeStart, MergedBytes and Reclaimed on the regions |
| Chain.CoalesceLinked | assets/code-samples/per-post/memory-manager-3/MemoryManager.cpp:236-265 | the rewritten headers describe the coalesced sequence of regions |
| Chain.CoalesceArena | assets/code-samples/per-post/memory-manager-3/MemoryManager.cpp:207-265 | from a consistent arena, the merged headers, the coalesced regions and the raised free count form a consistent arena again |
| AllocateOnly.TailHoldsFreeBytes | assets/code-samples/per-post/memory-manager-2/MemoryManager.cpp:119-120 | when only the tail is free, the free count is the tail's payload |
| AllocateOnly.TailOffset | assets/code-samples/per-post/memory-manager-2/MemoryManager.cpp:100-103 | the tail's payload starts at the buffer size less the free count |
| AllocateOnly.TailFirstFit | assets/code-samples/per-post/memory-manager-2/MemoryManager.cpp:81-98 | first fit picks the tail exactly when the free count covers the request plus one header, and otherwise finds nothing |
| AllocateOnly.SplitTailKeepsShape | assets/code-samples/per-post/memory-manager-2/MemoryManager.cpp:102-117 | splitting the tail leaves regions in use followed by one free tail |
| AllocateOnly.SplitTailArena | assets/code-samples/per-post/memory-manager-2/MemoryManager.cpp:100-120 | allocating from the tail keeps a consistent arena of the same shape; the tail header ends the chain |
| MemoryManager2.MemoryManager.Valid | assets/code-samples/per-post/memory-manager-2/MemoryManager.cpp:8-130 | the invariant of the allocate-only manager: a consistent arena whose regions are all in use except a free tail; the constructor establishes it and Allocate keeps it |
| MemoryManager2.MemoryManager.constructor | assets/code-samples/per-post/memory-manager-2/MemoryManager.cpp:8-24 | the policy defaults to ON_ALL; the whole buffer is poisoned when ON_INITIALIZATION fires; it becomes one free region whose header at offset 0 holds the buffer less one header |
| MemoryManager2.MemoryManager.Allocate | assets/code-samples/per-post/memory-manager-2/MemoryManager.cpp:77-130 | succeeds exactly when the free count covers the request plus one header; returns the payload at the buffer size less the old free count; splits the tail; keeps the invariant; poisons exactly the new payload when ON_ALLOCATION fires; on failure changes nothing |
| MemoryManager2.MemoryManager.Trash | assets/code-samples/per-post/memory-manager-2/MemoryManager.cpp:16-20 | when the policy fires for the event, exactly the given range is set to the event's poison byte |
| MemoryManager3.MemoryManager.Valid | assets/code-samples/per-post/memory-manager-3/MemoryManager.cpp:8-272 | the invariant of the manager: a consistent arena with no two free neighbours; the constructor establishes it and Allocate, Deallocate and DeallocateChunk keep it |
| MemoryManager3.MemoryManager.constructor | assets/code-samples/per-post/memory-manager-3/MemoryManager.cpp:8-24 | the policy defaults to ON_ALL; the whole buffer is poisoned when ON_INITIALIZATION fires; it becomes one free region whose header at offset 0 holds the buffer less one header |
| MemoryManager3.MemoryManager.Allocate | assets/code-samples/per-post/memory-manager-3/MemoryManager.cpp:80-133 | returns nullptr and changes nothing when first fit finds no region; otherwise splits the first fit, returns the address after its header, lowers the free count by the payload plus one header, keeps the invariant, and poisons exactly the new payload when ON_ALLOCATION fires |
| MemoryManager3.MemoryManager.Deallocate | assets/code-samples/per-post/memory-manager-3/MemoryManager.cpp:135-148 | changes nothing unless Released finds a region; otherwise coalesces it, raises the free count by what it reclaims, keeps the invariant, and poisons the merged payload when ON_DEALLOCATION fires |
| MemoryManager3.MemoryManager.IsAddressInMemoryRange | assets/code-samples/per-post/memory-manager-3/MemoryManager.cpp:150-171 | true exactly for a non-null address inside the buffer and past the first header |
| MemoryManager3.MemoryManager.FindChunkForUserMemory | assets/code-samples/per-post/memory-manager-3/MemoryManager.cpp:173-205 | finds a header exactly when some in-use region's payload starts at the address, and then it is that region's header |
| MemoryManager3.MemoryManager.DeallocateChunk | assets/code-samples/per-post/memory-manager-3/MemoryManager.cpp:207-272 | the regions become Coalesce of the old regions, the free count grows by Reclaimed, the invariant holds, and exactly the merged payload is poisoned when ON_DEALLOCATION fires |
| MemoryManager3.MemoryManager.Trash | assets/code-samples/per-post/memory-manager-3/MemoryManager.cpp:267-271 | when the policy fires for the event, exactly the given range is set to the event's poison byte |
| Scenarios.ThreeAllocationsLayouts | assets/code-samples/per-post/memory-manager-3/MemoryManager.cpp:80-133 | on a 128-byte arena, three 4-byte requests are laid out at offsets 0, 28 and 56, and a request of 1000 bytes finds no region |
| Scenarios.OutOfOrderFreesLayouts | assets/code-samples/per-post/memory-manager-3/MemoryManager.cpp:207-272 | freeing the middle, then the first, then the last of those blocks merges the arena back into its initial free region |
| Scenarios.AllocateFailFree | assets/code-samples/per-post/memory-manager-3/MemoryManager.cpp:80-148 | on a 64-byte arena an 8-byte request gets address 24 and leaves 8 free bytes, a 1000-byte request fails, and the free restores 40 free bytes |
| Scenarios.AllocateUntilExhausted | assets/code-samples/per-post/memory-manager-2/MemoryManager.cpp:77-130 | on a 64-byte allocate-only arena, an 8-byte request gets address 24 and leaves a tail too small for a 1-byte request |

## Left out

- `dump` and its default of 16 bytes per row: a text rendering of the buffer that no other operation depends on.
- The destructor, `::new[]` and `::delete[]`: the buffer is an `array` owned by the object.
- The byte image of the headers: headers live in a map from offset to `Chunk`, not as bytes inside `memory`. As a result, the model's buffer still holds the initialization poison where the real buffer holds header bytes. Stale headers absorbed by a merge also stay in the map. A reader only finds them through the chain, and the chain no longer reaches them.
- The buffer's contents when ON_INITIALIZATION does not fire: `new unsigned char[bytes]` leaves them indeterminate, and the model states nothing about them.
- `eTrashing` values outside the five enumerators (a cast of an arbitrary int): the policy is a five-way datatype.
- MemoryManager3.MemoryManager.IsAddressInMemoryRange: computed on unbounded offsets. The source's `address - sizeof(cMemoryChunk)` forms a pointer before the buffer when the address lies inside the first header. That is undefined behaviour in C++, and the model does not capture it.
- MemoryManager3.MemoryManager.constructor: requires `bytes >= 24`. For a smaller buffer the source's `bytes - sizeof(cMemoryChunk)` wraps and the first header does not fit in the buffer.
- MemoryManager2.MemoryManager.constructor: requires `bytes >= 24`, for the same reason.
- MemoryManager3.MemoryManager.Allocate: evaluates the guard `bytes + chunkSize` on unbounded integers (the corrected guard; see Findings). It does not follow the wrapped `unsigned int` sum.
- MemoryManager2.MemoryManager.Allocate: evaluates the guard on unbounded integers for the same reason. The source's branch that links the new header to a successor is replaced by a proof that it is dead here: the region that fits is always the last one.
- `Chunk.bytes` is a `nat` rather than an `unsigned int`. Every stored size is bounded by the buffer size, which is a `uint32`, so no value is lost.
- Memory outside the arena: a pointer the manager did not hand out is only ever compared, never dereferenced, and the model only compares it.
- Concurrency: the class is single-threaded, and so is the model.

## Findings

| source | as written | input that shows it | evidently intended | confidence | as-written member | corrected member |
|---|---|---|---|---|---|---|
| assets/code-samples/per-post/memory-manager-3/MemoryManager.cpp:89 | `chunk->m_bytes >= (bytes + chunkSize)` adds in `unsigned int`, so the sum wraps for requests of 0xFFFFFFE8 bytes and more; memory-manager-2 has the same guard at its line 86 | `allocate(0xFFFFFFF0)` on a fresh 64-byte manager: the sum wraps to 8, the 40-byte free region passes, and the new header is placed 0xFFFFFFF0 + 24 bytes past the base, far outside the buffer | reject any request whose payload plus one header exceeds the free region | not executed | Layout.WrappedGuardAdmitsHugeRequest | Layout.SplitStaysInside |
