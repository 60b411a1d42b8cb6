# mem.c allocator in Dafny

This project models mem.c. It is a user-space allocator that manages one
region, obtained from the operating system, through an explicit free list
threaded through inline `Block` headers (a size and a `next` pointer). It
places blocks first-fit, splits a block when the remainder can hold a
header, and coalesces on free.

The region is the range of byte offsets `0..memSize`. The memory that holds
headers is a map from offset to `Header(size, next)`. `free_list` is an
optional offset. The static variables of mem.c form an immutable `State`,
and `mem_init`, `mem_alloc` and `mem_free` are pure functions from one state
to the next. `sizeof(Block)` is `H = 16`, as on an LP64 host. A list is
stated through `ListRepr(store, head, xs)`: `xs` is the whole
NULL-terminated list that starts at `head`. `Walk` is a bounded walk of the
`next` pointers.

The model follows the code as written. Where the code does not do what its
comments and the allocator's design describe, the model keeps the code's
behaviour, and the proofs state what actually happens:

- A split of a block other than the head moves `free_list` to the
  remainder, which drops every free block before it (mem.c:62-63).
- `mem_free` never links the freed block into the list. It never moves
  `free_list`, and it leaves the freed block, or the predecessor that
  absorbed it, pointing at itself (mem.c:93-105).

A second model, `Intended`, uses the same scans. It puts the remainder of a
split in its block's place, and it links a freed block in at its address
with coalescing on both sides. The corrected half of each finding below is
proved about this second model.

Modules:
- `Options`: the optional value type.
- `Blocks`: headers, the store, and the list and walk predicates.
- `Mem`: the operations as written.
- `AllocProofs` and `FreeProofs`: their properties.
- `Intended`, `IntendedProofs` and `IntendedFreeProofs`: the corrected
  allocator and the heap invariant it keeps.
- `Scenarios` and `IntendedScenarios`: concrete runs on a 4096-byte page.

Both list scans are given one step per header (`|store|` steps). A scan
that runs out of steps is reported as `Hangs`. `AllocHangsOnlyOnCycle` and
`FreeHangsOnlyOnCycle` prove that this happens only when the walk from
`free_list` revisits a header, and then the C loop never ends.

## Model

| member | source | states |
|---|---|---|
| Mem.AlignSize | mem.c:18-20 | the result is a multiple of 8, at least n and less than n + 8 |
| AllocProofs.AlignSizeLeast | mem.c:18-20 | no multiple of 8 that is at least n lies below align_size(n), so it is the least such multiple |
| AllocProofs.AlignSizeIdempotent | mem.c:18-20 | aligning twice is aligning once, and align_size(0) is 0 |
| Mem.RegionSize | mem.c:27-28 | the region is a whole number of pages, at least the request and less than one page more |
| Mem.MemInit | mem.c:22-39 | returns 0 exactly when the size is positive, no region exists and the mapping succeeds. A bad size or a second init leaves the state as it was except E_BAD_ARGS. A failed mapping still marks the region as set. On success the list is exactly one block at offset 0 of size memSize - H, with no successor, filling the region exactly |
| Scenarios.InitOnePage | mem.c:22-39 | init(1024) on a 4096-byte page gives one free block of 4080 bytes at offset 0 |
| Mem.FirstFit | mem.c:49-50 | the reference first fit: the least list index whose block holds the request, and every earlier block is too small |
| Mem.FirstFitScan | mem.c:49-71 | the loop returns a block that holds the request, with prev_block pointing at it and too small itself |
| AllocProofs.ScanFits | mem.c:49-71 | a successful scan stops at the first block of the walk that is large enough, and prev_block is the block walked just before it |
| AllocProofs.ScanNoFit | mem.c:49-71 | a scan that finds nothing has walked a whole NULL-terminated list of blocks that are all too small |
| AllocProofs.ScanSpins | mem.c:49-71 | a scan out of steps has walked one more block than it had steps, all too small |
| AllocProofs.ScanOnList | mem.c:49-71 | on a NULL-terminated list the loop agrees with the reference FirstFit, including the block before the chosen one |
| Mem.MemAlloc | mem.c:41-74 | without a fit: NULL, E_NO_SPACE and nothing else changed. With a fit: the payload is the chosen header + H, and its size becomes exactly align_size(n). The block splits exactly when it holds align_size(n) + H; the remainder then starts right after the handed-out span with the old next and ends where the block ended. Without a split, less than H surplus bytes are dropped. No header disappears |
| AllocProofs.AllocChoosesFirstFit | mem.c:41-74 | on a NULL-terminated list mem_alloc returns, and it returns NULL exactly when no block holds the aligned request; otherwise it hands out the first block in list order that does |
| AllocProofs.AllocHangsOnlyOnCycle | mem.c:49-71 | mem_alloc runs out of scan steps only when the walk from free_list revisits a header, and every block on it is too small |
| AllocProofs.AllocWholeBlockState | mem.c:58-66 | an unsplit allocation resizes the chosen block, and either moves free_list to its successor or links its predecessor past it |
| AllocProofs.AllocWholeBlock | mem.c:58-66 | after an unsplit allocation the list is the old one without the chosen block. It stays sorted, disjoint and inside the region, and the handed-out span overlaps no free block |
| AllocProofs.AllocSplitState | mem.c:52-63 | a split writes the remainder and the chosen header, and always sets free_list to the remainder, even when the chosen block is not the head |
| AllocProofs.AllocSplitBlock | mem.c:52-63 | after a split the list is the remainder followed by the blocks after the chosen one. It stays sorted, disjoint and inside the region, and the span overlaps none of it. Every free block before the chosen one is off the list |
| Scenarios.SplitAlloc | mem.c:52-63 | alloc(32) on a fresh region hands out offset 16 and leaves a 4032-byte remainder at offset 48 as the head |
| Scenarios.NonHeadSplitDropsPrefix | mem.c:62-63 | alloc(32) on the list [0 (16 bytes), 48 (4032 bytes)] moves free_list to the remainder at 96, losing the free block at 0 |
| Mem.InsertionIndex | mem.c:84-87 | the first list index whose offset is not below the freed header, with every earlier offset below it |
| Mem.InsertionScan | mem.c:84-87 | the loop stops at a block not below the freed header, with prev_block linking to it and lying below the freed header |
| FreeProofs.InsertionScanList | mem.c:84-87 | on a NULL-terminated list the loop stops at the insertion index, with prev_block the block before it |
| FreeProofs.InsertionScanLoops | mem.c:84-87 | a scan out of steps has walked one more block than it had steps, all below the freed header |
| FreeProofs.FreeHangsOnlyOnCycle | mem.c:84-87 | mem_free runs out of scan steps only when the walk from free_list revisits a header lying below the freed block |
| Mem.Release | mem.c:89-111 | free_list is never moved and no header is added. The block that ends up holding the freed bytes points at itself |
| FreeProofs.ReleaseDetached | mem.c:93-106 | without a left merge, only the freed header is written. It absorbs an adjacent successor and then points at itself |
| FreeProofs.ReleaseMerged | mem.c:90-106 | with a left merge, only the predecessor's header is written. It absorbs the freed block and an adjacent successor, then points at itself |
| Mem.MemFree | mem.c:76-114 | NULL returns -1 and changes nothing. Any other pointer that returns gives 0, keeps free_list, the region and the error, and leaves some header pointing at itself |
| FreeProofs.FreeOnListState | mem.c:76-114 | on a NULL-terminated list mem_free returns 0 and writes exactly one header: the left-adjacent predecessor, or else the freed block. That header grows by each adjacent neighbour and then points at itself |
| FreeProofs.FreeDetached | mem.c:93-105 | with no left-adjacent predecessor, the reachable list and every header on it are unchanged, and the freed block points at itself off the list |
| FreeProofs.FreeMerged | mem.c:90-105 | with a left-adjacent predecessor, it grows by H plus the freed size, plus H and the successor's size when that is adjacent, and then points at itself |
| FreeProofs.FreeMergedWalk | mem.c:102-105 | after a left merge the walk from free_list visits the blocks before the freed one and then the merged block forever |
| FreeProofs.FreeMergedNoList | mem.c:102-105 | after a left merge no NULL-terminated list starts at free_list |
| Scenarios.FreedBlockIsLost | mem.c:93-105 | alloc(4080) on a fresh region, then free(16), self-links the block, and a later alloc(8) returns NULL with E_NO_SPACE |
| Scenarios.SplitThenFree | mem.c:99-105 | freeing the 32 bytes just split off merges the remainder into the freed header, which points at itself while free_list still names the remainder |
| Intended.Alloc | mem.c:41-74 | the corrected mem_alloc: without a fit, NULL with E_NO_SPACE and nothing else changed. With a fit, the payload is a header + H whose block held the aligned request and now records exactly it. No header disappears, and the state stays well formed. The remainder is stated by IntendedAllocSplits |
| Intended.Carve | mem.c:52-66 | carving block c keeps every header key, records exactly the aligned request in c, keeps every next pointer inside a closed store, and, when the old head named a header, leaves a head that names one too |
| Intended.Insert | mem.c:89-111 | inserting a freed block keeps exactly the header keys, keeps every next pointer inside the store, and either keeps free_list or makes the freed block the head |
| Intended.Free | mem.c:76-114 | the corrected mem_free: NULL returns -1 unchanged, any other pointer returns 0, keeps every header key, and leaves a well-formed state |
| IntendedProofs.HeapMeans | mem.c:84-106 | the heap invariant that the address-order scan and the coalescing rely on is exactly: a NULL-terminated list, sorted, disjoint, inside the region, with no two neighbours byte-adjacent |
| IntendedProofs.AllocSameChoice | mem.c:49-71 | the corrected and the literal mem_alloc return in the same cases and hand out the same span |
| IntendedProofs.IntendedAllocState | mem.c:41-74 | on a list with first fit at index k, the corrected mem_alloc hands out xs[k] + H and carves xs[k] with its list predecessor as prev_block |
| IntendedProofs.CarveKeepsHeap | mem.c:52-66 | carving xs[k] keeps the heap invariant. The new list is xs with the remainder in place of xs[k] after a split, and xs without xs[k] otherwise |
| IntendedProofs.IntendedAllocHeap | mem.c:41-74 | the corrected mem_alloc on a heap leaves a heap whose list is the old one with the chosen block replaced by its remainder, or removed |
| IntendedProofs.IntendedAllocSplits | mem.c:52-59 | after a split by the corrected mem_alloc, the chosen header records exactly the aligned request and points at the remainder. The remainder keeps the old next, holds the rest of the payload, and ends where the chosen block ended |
| IntendedProofs.IntendedAllocWhole | mem.c:58-59 | after an unsplit allocation by the corrected mem_alloc, the chosen header keeps its next and records the aligned request. Fewer than H surplus bytes stop being recorded |
| IntendedProofs.IntendedAllocApart | mem.c:52-59 | the handed-out span overlaps no other free block, and after a split it ends exactly where the remainder starts |
| IntendedFreeProofs.InsertionPoint | mem.c:84-87 | on a heap the freed block is not on the list, and it lies between the block before the insertion point and the block at it |
| IntendedFreeProofs.InsertKeepsHeap | mem.c:89-111 | the corrected free keeps the heap invariant. The freed block is inserted at its address, and a byte-adjacent neighbour on either side merges with it, covering all four merge cases |
| IntendedFreeProofs.InsertCovers | mem.c:89-106 | the block that ends up holding the freed bytes ends where the freed block or its absorbed successor ended. Every other header is unchanged except the predecessor, which without a left merge now points at the freed block |
| IntendedFreeProofs.IntendedFreeState | mem.c:76-114 | on a NULL-terminated list the corrected free returns 0 and inserts between the blocks the address-order loop stops at |
| IntendedFreeProofs.IntendedFreeHeap | mem.c:76-114 | freeing a block that overlaps no free block and lies inside the region keeps the heap invariant, and the new list is the coalesced insertion of that block |
| IntendedScenarios.FreedBlockIsReused | mem.c:93-111 | with the corrected free, alloc(4080), free(16), alloc(8) hands out offset 16 again |
| IntendedScenarios.SplitThenFreeRestores | mem.c:89-111 | with the corrected allocator, alloc(32) then free restores the fresh region: one 4080-byte block at offset 0 heads the list |
| IntendedScenarios.NonHeadSplitKeepsPrefix | mem.c:62-66 | with the corrected mem_alloc, alloc(32) on [0, 48] keeps free_list at 0 and links 0 to the remainder at 96 |

## Left out

- mmap and getpagesize are foreign calls. The page size is a parameter of `MemInit`, and the outcome of the mapping is a boolean. A failed mapping is modelled as setting the region (`initialized`), because `MAP_FAILED` is not NULL.
- The region's bytes are not modelled. Only header fields are stored, so zero-filling and payload contents are out of scope.
- mem_dump and main only print or drive a demonstration.
- The `style` argument of mem_alloc is ignored by the code, and it is left out.
- The `int`/`size_t` mix is not modelled. Sizes are unbounded naturals, so a negative mem_alloc request (which wraps through `size_t`) and an overflow of `num_pages * PAGE_SIZE` in the `int` `mem_size` have no counterpart.
- `m_error` and its codes come from mem.h, which is not part of this model. They are a three-value enum; `NoFault` stands for whatever value was held before the first failure.
- Mem.MemFree: invalid pointers are undefined in the code, so it requires a header below the pointer. Double frees are modelled as whatever the code does, and the lemmas about the corrected free require that the block overlaps no free block.
- Mem.MemAlloc, Mem.MemFree: a scan that loops forever is reported as `Hangs` after `|store|` steps. The step bound is exact only because `AllocHangsOnlyOnCycle` and `FreeHangsOnlyOnCycle` show that a scan out of steps is on a cycle it never leaves.
- The accounting property (free and allocated sizes plus headers sum to the region) is not stated, because the model does not track live allocations. Conservation within one call is stated through the end offsets in `Mem.MemAlloc`, `IntendedProofs.IntendedAllocSplits`, `IntendedProofs.IntendedAllocWhole` and `IntendedFreeProofs.InsertCovers`.

## Findings

| source | as written | input that shows it | evidently intended | confidence | as-written member | corrected member |
|---|---|---|---|---|---|---|
| mem.c:93-105 | mem_free never links the freed block in: it points the freed block (or the predecessor it merged into) at itself and leaves free_list alone | init(1024) with 4096-byte pages, alloc(4080), free(16), alloc(8) | the freed block rejoins the list at its address, so alloc(8) returns 16 | not executed | Scenarios.FreedBlockIsLost | IntendedScenarios.FreedBlockIsReused |
| mem.c:62-63 | a split sets free_list to the remainder even when the chosen block is not the head | free list [0 (16 bytes), 48 (4032 bytes)] in a 4096-byte region, alloc(32) | free_list stays 0, and block 0 links to the remainder at 96 | not executed | Scenarios.NonHeadSplitDropsPrefix | IntendedScenarios.NonHeadSplitKeepsPrefix |

The general forms of the two findings are these:
- For the as-written code, `FreeProofs.FreeDetached`, `FreeProofs.FreeMergedNoList` and `AllocProofs.AllocSplitBlock` prove them on all inputs.
- For the corrected allocator, `IntendedFreeProofs.IntendedFreeHeap` and `IntendedProofs.IntendedAllocHeap` prove the intended invariant on all inputs.
