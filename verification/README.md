# Offloaded heap allocator: a verified model

The system runs a C program's `malloc`, `free` and `realloc` on a
microcontroller while a host PC does the allocator's bookkeeping. The
device owns the heap's bytes and its break (`mem_sbrk`). It sends each
request over a UART as a four-word `mem_request` (`request`, `req_id`,
`size`, `ptr`) and waits for a one-word reply. The host server keeps the
device's heap as a doubly linked list of block records (`blk_elt`) in
address order. It looks blocks up linearly or through a chaining hash table
keyed by address (`dict.c`), fits requests first-fit or best-fit, splits and
coalesces blocks, and answers with payload addresses. `SBRK` requests are
overloaded: a nonzero size grows the heap, a zero size with an address moves
the heap's origin, and two zeros end the session.

Beside the offloaded pair, the repository holds:

- a classic in-memory implicit-list allocator (`mm.c`) with boundary tags
  and first-fit placement;
- the test driver's range bookkeeping, trace reader and validity replay
  (`mcu_mdriver.c`);
- three helper scripts: a trace checker, a debugger-output extractor and a
  trace-to-header converter.

The model, file by file:

- `block_list.dfy` (`BlockList`): the address-ordered view both allocators
  are specified against. A heap is a sequence of `Block(ptr, size, alloc)`
  that tiles `[base, base + Total)`. The view has the search and split,
  merge, move and coalesce operations, and the invariant that no two free
  blocks are neighbours.
- `pc_mm.dfy`, `pc_mm_records.dfy`, `pc_mm_props.dfy` (`HostAllocator`,
  `HostRecords`, `HostProperties`): the host engine.
  - `Engine` is a class: a map from handles to records and a ghost order of
    handles, with a head sentinel and the address index.
  - Every method is proved to do to the view what a pure specification
    function does (`MallocResult`, `Freed`, `ReallocResult`, `Grown`).
  - The properties are proved about those functions.
- `dict.dfy` (`AddressIndex`): `dict.c` as a class over an array of bucket
  chains. Search, insert, delete and doubling are proved against a ghost
  key-to-value map.
- `pc_mlib.dfy`, `pc_server.dfy`, `protocol.dfy` (`HostBreak`,
  `HostServer`, `Protocol`): the host's break tracker with 32-bit wrap, the
  server loop, and the request encoding with its decode/encode round trip.
- `link.dfy`, `mcu_mlib.dfy`, `mcu_mm.dfy` (`DeviceLink`, `DeviceBreak`,
  `DeviceClient`): the device side.
  - The UART is a link that records what was sent and reads the host's
    replies from a parameter.
  - The device's break is checked against the stack pointer, which is a
    parameter too.
  - The device's allocator entry points are proved against what the host
    does with their requests.
- `mm_spec.dfy`, `mm_tags.dfy`, `mm.dfy` (`ImplicitList`, `BoundaryTags`,
  `InMemoryHeap`): `mm.c`.
  - The heap's words are an `array<nat>` indexed by byte address.
  - Header and footer words are proved to lay out a ghost block view.
  - Every operation is proved to do to that view what `MallocOutcome` and
    `ReallocOutcome` say.
- `mdriver_ranges.dfy`, `mdriver_trace.dfy`, `mdriver_eval.dfy`
  (`MallocRanges`, `TraceFile`, `ValidityCheck`): the driver's range list,
  its `sscanf`-based trace reader, proved to read back a written trace, and
  its validity replay.
- `tracechecker.dfy`, `extract_output.dfy`, `rep_to_hdr.dfy`
  (`TraceChecker`, `ExtractOutput`, `HeaderString`): the three scripts.

Details of the code that the model keeps as written:

- The host server fits first-fit through the hash index (`DICT_SEARCH 1`,
  `BEST_FIT 0`). The model keeps both switches as engine fields, so both
  search and both fit policies are proved.
- The host's adjusted size has an 8-byte minimum (`pc_mm.c:266-271`),
  while `mm.c` has a 16-byte one.
- The trace checker reports each request as line `k + 4`, where `k` is the
  request's position among the non-empty lines after the header. The model
  keeps that number.
- `read_trace` reads requests until the text ends, whatever `num_ops` says.
  `eval_mm_valid` then replays only the first `num_ops` of them.
- After a refused `malloc`, the device grows its heap by its own 4-byte
  rounding of the request. For some sizes above 4088 bytes that is 8 bytes
  less than the host needs (see Findings).
- The output extractor strips trailing `\` and `n` characters, not whole
  `\n` escapes (see Findings).

## Model

| member | source | states |
|---|---|---|
| BlockList.BlockWithinRegion | projects/offload_heap/pc_side/pc_mm.c:218-231 | in a tiled heap (each block starting where the previous one ends) every block lies inside the region from the sentinel's address to that address plus the total size |
| BlockList.TotalAppend | projects/offload_heap/pc_side/pc_mm.c:218-231 | the bytes of two runs of blocks laid end to end are the bytes of the first plus those of the second, which is how `mm_sbrk` adds `incr` to the heap size |
| BlockList.PtrIsOffset | projects/offload_heap/pc_side/pc_mm.c:218-231 | in a tiled heap each block starts at the base plus the sizes of the blocks before it, so the block `mm_sbrk` links in starts where the last one ends |
| BlockList.FindUnique | projects/offload_heap/pc_side/pc_mm.c:21-30 | in a tiled heap the linear search for a block's address finds that block and no other |
| BlockList.FindSpec | projects/offload_heap/pc_side/pc_mm.c:21-30 | the linear search finds nothing exactly when no block has the address, and otherwise a block with that address |
| BlockList.FindFrom | projects/offload_heap/pc_side/pc_mm.c:21-30 | the walk of `linear_blk_search` from block `i`: whatever it returns is a block at or after `i` whose address is `ptr` (the first such by `FindFromSpec`) |
| BlockList.FindFromSpec | projects/offload_heap/pc_side/pc_mm.c:21-30 | the walk from block `i` finds nothing exactly when no block from `i` on has the address, and otherwise the first block from `i` on that has it |
| BlockList.Find | projects/offload_heap/pc_side/pc_mm.c:21-30 | `linear_blk_search` from the first block: whatever it returns is a block whose address is `ptr`; `FindSpec` and `FindUnique` state when it finds one and which |
| BlockList.FirstFitSpec | projects/offload_heap/pc_side/pc_mm.c:83-94 | first fit finds nothing exactly when no block is free and large enough; otherwise it finds the first such block in address order |
| BlockList.FirstFitFrom | projects/offload_heap/pc_side/pc_mm.c:83-94 | the loop of `first_fit` from block `i`: whatever it returns is a block at or after `i` (free, large enough and the first such by `FirstFitFromSpec`) |
| BlockList.FirstFitFromSpec | projects/offload_heap/pc_side/pc_mm.c:83-94 | the scan from block `i` finds nothing exactly when no block from `i` on is free and large enough, and otherwise the first such block from `i` on |
| BlockList.FirstFit | projects/offload_heap/pc_side/pc_mm.c:83-94 | `first_fit` over the whole heap: whatever it returns is a block of the heap; `FirstFitSpec` proves it is the first free block large enough |
| BlockList.BestFitSpec | projects/offload_heap/pc_side/pc_mm.c:97-115 | best fit finds nothing exactly when no block fits; otherwise it finds a fitting block of least size, the earliest among equals (the strict `<` of the scan) |
| BlockList.BestFitFrom | projects/offload_heap/pc_side/pc_mm.c:97-115 | the loop of `best_fit` with the candidate so far: the result is a block of the heap, and a block replaces the candidate only when it fits and is strictly smaller (its properties are stated by `BestFitSpec`) |
| BlockList.BestFitFromSpec | projects/offload_heap/pc_side/pc_mm.c:97-115 | with the candidate so far the best among the blocks scanned, the scan finds nothing exactly when no block fits, and otherwise a fitting block of least size, the earliest among equals |
| BlockList.BestFit | projects/offload_heap/pc_side/pc_mm.c:97-115 | `best_fit` over the whole heap, starting with no candidate: whatever it returns is a block of the heap; `BestFitSpec` proves it is a smallest fitting block, the earliest among equals |
| BlockList.FindFitSpec | projects/offload_heap/pc_side/pc_mm.c:118-124 | both fit policies agree on whether some block fits, and what either returns is free and large enough |
| BlockList.FindFit | projects/offload_heap/pc_side/pc_mm.c:118-124 | `find_fit`: best fit when BEST_FIT is set and first fit otherwise; whatever it returns is a block of the heap, and `FindFitSpec` proves it fits |
| BlockList.SplitWellFormed | projects/offload_heap/pc_side/pc_mm.c:132-147 | splitting a block after `asize` bytes keeps the heap tiled, keeps its total size and adds exactly one block |
| BlockList.Split | projects/offload_heap/pc_side/pc_mm.c:132-147 | the split `place` and `shrink_blk` perform: block `i` keeps its address and bit with `asize` bytes, and a free block with the rest starts right after it; `SplitWellFormed` proves it keeps the heap tiled and its size |
| BlockList.MergeNextWellFormed | projects/offload_heap/pc_side/pc_mm.c:47-55 | `merge_next` keeps the heap tiled and its total size, and removes exactly one block |
| BlockList.MergeNext | projects/offload_heap/pc_side/pc_mm.c:47-55 | `merge_next` on the view: block `i` absorbs the size of its successor, which disappears; `MergeNextWellFormed` proves it keeps the heap tiled and its size |
| BlockList.MoveBoundaryWellFormed | projects/offload_heap/pc_side/pc_mm.c:190-199 | moving the boundary between a block and its successor keeps the heap tiled, its total size and its number of blocks |
| BlockList.MoveBoundary | projects/offload_heap/pc_side/pc_mm.c:190-199 | the first branch of `extend_blk` on the view: block `i` takes `asize` bytes of itself and its successor, which keeps the rest and its bit; `MoveBoundaryWellFormed` proves the heap stays tiled with its size |
| BlockList.AppendWellFormed | projects/offload_heap/pc_side/pc_mm.c:218-231 | a block of `incr` bytes appended where the last block ends keeps the heap tiled and adds `incr` to its total size |
| BlockList.Append | projects/offload_heap/pc_side/pc_mm.c:218-231 | the record `mm_sbrk` links in: a free block of `incr` bytes where the last block ends; `AppendWellFormed` proves the heap stays tiled and grows by `incr` |
| BlockList.SetAllocWellFormed | projects/offload_heap/pc_side/pc_mm.c:290 | flipping the allocated bit keeps the tiling and the total size |
| BlockList.SetAlloc | projects/offload_heap/pc_side/pc_mm.c:290 | the allocated bit of one block set or cleared, nothing else changed; `SetAllocWellFormed` proves the tiling and size are kept |
| BlockList.CoalesceWellFormed | projects/offload_heap/pc_side/pc_mm.c:58-79 | `coalesce`, in each of its four cases, keeps the heap tiled and its total size, and the block it leaves in place of the coalesced one exists |
| BlockList.Coalesce | projects/offload_heap/pc_side/pc_mm.c:58-79 | `coalesce` on the view, in the four cases of the code (no free neighbour, free successor, free predecessor, both); `CoalesceWellFormed` and `CoalesceNoAdjacentFree` state what it keeps |
| BlockList.CoalesceNextNoAdjacentFree | projects/offload_heap/pc_side/pc_mm.c:68-70 | merging with a free successor only leaves no two neighbouring free blocks |
| BlockList.CoalescePrevNoAdjacentFree | projects/offload_heap/pc_side/pc_mm.c:71-73 | merging into a free predecessor only leaves no two neighbouring free blocks |
| BlockList.CoalesceBothNoAdjacentFree | projects/offload_heap/pc_side/pc_mm.c:74-77 | merging with both free neighbours leaves no two neighbouring free blocks |
| BlockList.CoalesceNoAdjacentFree | projects/offload_heap/pc_side/pc_mm.c:58-79 | coalescing a free block whose neighbourhood holds the only free pairs leaves none, and the block left in its place is free |
| BlockList.PlaceNoAdjacentFree | projects/offload_heap/pc_side/pc_mm.c:127-152 | allocating a free block, whole or split, never creates two neighbouring free blocks |
| BlockList.InteriorNotAPtr | projects/offload_heap/pc_side/pc_mm.c:21-30 | an address strictly inside a block is no block's address, so the search cannot find it |
| BlockList.FreeAdjacentFreeOnlyAt | projects/offload_heap/pc_side/pc_mm.c:289-290 | marking one block free leaves neighbouring free pairs only around that block |
| BlockList.AppendAdjacentFreeOnlyAt | projects/offload_heap/pc_side/pc_mm.c:218-231 | the block `mm_sbrk` links in is free and the only one that may have a free neighbour |
| BlockList.SplitTailAdjacentFreeOnlyAt | projects/offload_heap/pc_side/pc_mm.c:161-177 | the tail `shrink_blk` carves off is free and the only block that may have a free neighbour |
| BlockList.MoveBoundaryNoAdjacentFree | projects/offload_heap/pc_side/pc_mm.c:190-199 | growing a block into its free successor, which keeps the rest, keeps the heap free of neighbouring free blocks |
| BlockList.MergeNextNoAdjacentFree | projects/offload_heap/pc_side/pc_mm.c:200-202 | folding the successor into an allocated block keeps the heap free of neighbouring free blocks |
| HostAllocator.MallocSize | projects/offload_heap/pc_side/pc_mm.c:266-271 | the adjusted size is a multiple of 8 and at least 8; a request above 8 gets its 8 bytes of overhead and less than 8 bytes of rounding, a request up to 8 gets exactly 8 |
| HostAllocator.ReallocSize | projects/offload_heap/pc_side/pc_mm.c:317-322 | `mm_realloc`'s adjusted size is a multiple of 8, at least 8 and at least the request, less than 8 bytes above a request of 8 or more, and adds no overhead |
| HostAllocator.PlaceSplitView | projects/offload_heap/pc_side/pc_mm.c:132-147 | `place`'s field updates on the block followed by the link of the new free record give the split-and-allocate of the view |
| HostAllocator.ShrinkSplitView | projects/offload_heap/pc_side/pc_mm.c:161-177 | `shrink_blk`'s size update and the link of the new free record give the split of the view |
| HostAllocator.ExtendMoveView | projects/offload_heap/pc_side/pc_mm.c:190-199 | `extend_blk`'s updates of the successor's size and address and of the block's size move the boundary between the two |
| HostAllocator.SizeBelowMax | projects/offload_heap/pc_side/pc_mm.c:101 | in a heap inside the 32-bit address space no block is as large as the starting bound `(size_t)-1` of the best-fit scan, so any fitting block replaces it |
| HostAllocator.MergeIndex | projects/offload_heap/pc_side/pc_mm.c:47-55 | the absorbed successor's address was filed under exactly its record, and after `merge_next`'s `dict_delete` nothing is filed there |
| HostAllocator.SplitIndex | projects/offload_heap/pc_side/pc_mm.c:147 | nothing was filed under the remainder's address, and after the split exactly the new record is |
| HostAllocator.MoveBoundaryIndex | projects/offload_heap/pc_side/pc_mm.c:194-197 | `extend_blk`'s `dict_delete` and `dict_insert` leave the successor's record filed under its new address only |
| HostAllocator.AppendIndex | projects/offload_heap/pc_side/pc_mm.c:224-227 | nothing was filed at the old end of the heap, and the appended record is filed there |
| HostAllocator.Engine.constructor | projects/offload_heap/pc_side/pc_mm.c:18 | the globals start zeroed: no list yet, and the policy flags fixed |
| HostAllocator.Freed | projects/offload_heap/pc_side/pc_mm.c:284-295 | `mm_free` on the view: the block at `ptr` becomes free and is coalesced, and an unknown address changes nothing; `HostProperties.FreedSpec` proves it keeps the heap tiled without neighbouring free blocks |
| HostAllocator.Grown | projects/offload_heap/pc_side/pc_mm.c:218-235 | `mm_sbrk` on the view: a free block of `incr` bytes is appended at the end of the heap and coalesced; `HostProperties.GrownSpec` proves the heap stays tiled and grows by `incr` |
| HostAllocator.MallocResult | projects/offload_heap/pc_side/pc_mm.c:255-282 | `mm_malloc` on the view: 0 and no change for a zero size or when no block fits, and otherwise the policy's block placed at the adjusted size and its address; `HostProperties.MallocSpec` proves what the answer and the new heap are |
| HostAllocator.ReallocResult | projects/offload_heap/pc_side/pc_mm.c:297-343 | `mm_realloc` on the view with the not-found guard taking effect: 0 for an unknown address, and otherwise grow in place, shrink or keep; `HostProperties.ReallocSpec` proves what it keeps |
| HostAllocator.ReallocAsWritten | projects/offload_heap/pc_side/pc_mm.c:306-313 | `mm_realloc` as written dereferences the search result before the NULL test, so an unknown address has no defined outcome (`None`); `HostProperties.ReallocGuard` proves it fails exactly for an unknown address and agrees with `ReallocResult` elsewhere |
| HostAllocator.Engine.LinearBlkSearch | projects/offload_heap/pc_side/pc_mm.c:21-30 | the walk from the sentinel's successor returns the record of the block at `ptr`, or nothing when no block has that address |
| HostAllocator.Engine.DictBlkSearch | projects/offload_heap/pc_side/pc_mm.c:33-35 | the index lookup returns the same record the walk would |
| HostAllocator.Engine.BlkSearch | projects/offload_heap/pc_side/pc_mm.c:38-44 | whichever search DICT_SEARCH selects, the record found is the one holding the block at `ptr` |
| HostAllocator.Engine.UnlinkNext | projects/offload_heap/pc_side/pc_mm.c:47-51 | the successor's record leaves the ring, the block absorbs its size, and the successor's address is the one to drop from the index |
| HostAllocator.Engine.MergeNext | projects/offload_heap/pc_side/pc_mm.c:47-55 | `merge_next` folds the successor into the block in the view, drops the successor's record and index entry, and keeps the invariant |
| HostAllocator.Engine.IndexInsert | projects/offload_heap/pc_side/pc_mm.c:147 | `dict_insert` of a record the ring already holds completes the index |
| HostAllocator.Engine.IndexMove | projects/offload_heap/pc_side/pc_mm.c:195-197 | `dict_delete` then `dict_insert` refile a moved record under its new address |
| HostAllocator.Engine.SetAllocAt | projects/offload_heap/pc_side/pc_mm.c:290 | setting one record's allocated bit changes that bit in the view and nothing else |
| HostAllocator.Engine.Coalesce | projects/offload_heap/pc_side/pc_mm.c:58-79 | `coalesce` of a free block whose neighbourhood holds the only free pairs performs the four-case merge of the view, and afterwards no two neighbours are both free |
| HostAllocator.Engine.MergeBoth | projects/offload_heap/pc_side/pc_mm.c:74-77 | the last case of `coalesce`: the block absorbs its successor, then its predecessor absorbs it |
| HostAllocator.Engine.FirstFitSearch | projects/offload_heap/pc_side/pc_mm.c:83-94 | the loop returns the record of the first-fit block of the view, or nothing when none fits |
| HostAllocator.Engine.BestFitSearch | projects/offload_heap/pc_side/pc_mm.c:97-115 | the loop returns the record of the best-fit block of the view, or nothing when none fits |
| HostAllocator.Engine.FindFitSearch | projects/offload_heap/pc_side/pc_mm.c:118-124 | `find_fit` returns what the search selected by BEST_FIT returns |
| HostAllocator.Engine.SplitPlaced | projects/offload_heap/pc_side/pc_mm.c:132-146 | the record list after `place`'s split is the placed view, with the new free record right after the block at its address |
| HostAllocator.Engine.Place | projects/offload_heap/pc_side/pc_mm.c:127-152 | `place` allocates the block at `asize` bytes and makes any remainder a new free block filed in the index; the invariant holds |
| HostAllocator.Engine.SplitShrunk | projects/offload_heap/pc_side/pc_mm.c:161-177 | the record list after `shrink_blk`'s split is the split view, with the new free record right after the block |
| HostAllocator.Engine.ShrinkSplit | projects/offload_heap/pc_side/pc_mm.c:161-177 | the split of `shrink_blk` with its index entry filed |
| HostAllocator.Engine.ShrinkBlk | projects/offload_heap/pc_side/pc_mm.c:155-182 | `shrink_blk` splits off the remainder beyond `asize` and coalesces it, or changes nothing when there is no remainder; the invariant holds |
| HostAllocator.Engine.MoveBoundaryRecords | projects/offload_heap/pc_side/pc_mm.c:190-199 | the record updates of `extend_blk`'s first branch move the boundary in the view and say under which keys to refile the successor |
| HostAllocator.Engine.ExtendMove | projects/offload_heap/pc_side/pc_mm.c:190-199 | the first branch of `extend_blk` moves the boundary and refiles the successor in the index |
| HostAllocator.Engine.ExtendBlk | projects/offload_heap/pc_side/pc_mm.c:185-203 | `extend_blk` grows the block to `asize` into its free successor, which keeps the rest or, when nothing is left, is merged away; the invariant holds |
| HostAllocator.Engine.LinkLast | projects/offload_heap/pc_side/pc_mm.c:219-231 | the new record sits at the end of the ring, at the address where the last block ends |
| HostAllocator.Engine.SbrkLink | projects/offload_heap/pc_side/pc_mm.c:219-231 | `mm_sbrk`'s new free record is linked last and filed in the index |
| HostAllocator.Engine.Sbrk | projects/offload_heap/pc_side/pc_mm.c:218-235 | `mm_sbrk` of a positive `int` growth appends a free block of `incr` bytes at the end of the heap and coalesces it; the invariant holds |
| HostAllocator.Engine.FreeRecords | projects/offload_heap/pc_side/pc_mm.c:207-213 | the loop frees every block record and keeps only the sentinel |
| HostAllocator.Engine.HeapReset | projects/offload_heap/pc_side/pc_mm.c:206-215 | `mm_heap_reset` leaves only the sentinel, closed on itself, with its address kept |
| HostAllocator.Engine.Init | projects/offload_heap/pc_side/pc_mm.c:237-253 | `mm_init` recreates the index and leaves an empty heap based at `ptr` the first time and at the old sentinel's address afterwards |
| HostAllocator.Engine.NewSentinel | projects/offload_heap/pc_side/pc_mm.c:245-249 | the first `mm_init` makes a sentinel at `ptr` of size 0, allocated and closed on itself |
| HostAllocator.Engine.Malloc | projects/offload_heap/pc_side/pc_mm.c:255-282 | `mm_malloc` answers 0 for a zero size or when nothing fits, and otherwise places the adjusted size in the block the policy finds and answers its address; the invariant holds |
| HostAllocator.Engine.PlaceFound | projects/offload_heap/pc_side/pc_mm.c:274-277 | the hit branch places the adjusted size in the found block and returns that block's address |
| HostAllocator.Engine.Free | projects/offload_heap/pc_side/pc_mm.c:284-295 | `mm_free` marks the block at `ptr` free and coalesces it, and changes nothing for an unknown address; the invariant holds |
| HostAllocator.Engine.Realloc | projects/offload_heap/pc_side/pc_mm.c:297-343 | `mm_realloc` with the not-found guard taking effect: an unknown address answers 0; a block grows in place, shrinks or stays; 0 when it cannot grow in place |
| HostAllocator.Engine.ResizeFound | projects/offload_heap/pc_side/pc_mm.c:315-342 | `mm_realloc` on a found block: grow into a free successor that has room, shrink, or keep, answering the address, or answer 0 when it cannot grow |
| HostAllocator.ReallocFound | projects/offload_heap/pc_side/pc_mm.c:315-342 | `mm_realloc` on a found block, on the view: grow into a free successor with room, shrink, or keep, answering the address, and answer 0 with nothing changed when it cannot grow in place; `HostAllocator.Engine.ResizeFound` is proved to do it |
| HostAllocator.Engine.TryExtend | projects/offload_heap/pc_side/pc_mm.c:324-334 | the block grows exactly when its successor is free and the two hold the adjusted size, and otherwise nothing changes |
| HostProperties.PlacedSpec | projects/offload_heap/pc_side/pc_mm.c:127-152 | `place` keeps the heap tiled, its total size and the no-neighbouring-free rule, and leaves the block allocated at exactly `asize` bytes |
| HostAllocator.Placed | projects/offload_heap/pc_side/pc_mm.c:127-152 | `place` on the view: the block becomes allocated, and any remainder beyond `asize` is split off as a free block; `HostProperties.PlacedSpec` states what it keeps |
| HostProperties.MallocSpec | projects/offload_heap/pc_side/pc_mm.c:255-282 | `mm_malloc` answers 0 exactly for a zero size or when no free block holds the adjusted size, and then changes nothing; otherwise it answers the address of a block that was free and large enough and is now allocated at the adjusted size |
| HostProperties.MallocFreeRoundTrip | projects/offload_heap/pc_side/pc_mm.c:255-295 | freeing what `mm_malloc` just handed out gives back the heap as it was |
| HostProperties.FreePlaced | projects/offload_heap/pc_side/pc_mm.c:284-291 | freeing the block `place` just allocated gives back the heap as it was |
| HostProperties.UnplaceCoalesce | projects/offload_heap/pc_side/pc_mm.c:58-79 | marking the placed block free and coalescing it undoes the placement, split or not |
| HostProperties.CoalesceCovers | projects/offload_heap/pc_side/pc_mm.c:58-79 | the block `coalesce` leaves starts where the merged run starts and covers the coalesced block |
| HostProperties.FreedSpec | projects/offload_heap/pc_side/pc_mm.c:284-295 | `mm_free` keeps the heap tiled, its size and the no-neighbouring-free rule; an unknown address changes nothing; a known block's bytes end up in a free block |
| HostProperties.FreeTwice | projects/offload_heap/pc_side/pc_mm.c:284-295 | freeing an address twice gives the same heap as freeing it once |
| HostProperties.FreedMerged | projects/offload_heap/pc_side/pc_mm.c:71-77 | when the freed block merges into its predecessor, its address no longer starts a block |
| HostProperties.FreedKept | projects/offload_heap/pc_side/pc_mm.c:65-70 | when the freed block keeps its place, freeing it again changes nothing |
| HostProperties.ShrunkSpec | projects/offload_heap/pc_side/pc_mm.c:155-182 | `shrink_blk` keeps the heap tiled without neighbouring free blocks and leaves an allocated block at exactly `asize` bytes |
| HostAllocator.Shrunk | projects/offload_heap/pc_side/pc_mm.c:155-182 | `shrink_blk` on the view: a remainder beyond `asize` is split off free and coalesced with its successor, and nothing changes without one; `HostProperties.ShrunkSpec` states what it keeps |
| HostProperties.ExtendedSpec | projects/offload_heap/pc_side/pc_mm.c:185-203 | `extend_blk` keeps the heap tiled without neighbouring free blocks and leaves the block at exactly `asize` bytes at its address |
| HostAllocator.Extended | projects/offload_heap/pc_side/pc_mm.c:185-203 | `extend_blk` on the view: the block grows to `asize` into its successor, which keeps the rest or, with nothing left, is merged away; `HostProperties.ExtendedSpec` states what it keeps |
| HostProperties.ReallocSpec | projects/offload_heap/pc_side/pc_mm.c:297-343 | `mm_realloc` answers 0 or `ptr`, and `ptr` exactly when the block exists and already holds the adjusted size or can grow into a free successor; on 0 nothing changes; an answered allocated block keeps its address at exactly the adjusted size |
| HostProperties.GrownSpec | projects/offload_heap/pc_side/pc_mm.c:218-235 | `mm_sbrk` grows the heap by exactly `incr` bytes, keeps it tiled without neighbouring free blocks, and ends it in a free block of at least `incr` bytes |
| HostProperties.ReallocGuard | projects/offload_heap/pc_side/pc_mm.c:306-313 | the guard as written fails (NULL dereference) exactly for an unknown address, where the intended answer is 0 with nothing changed; on known addresses the two agree |
| HostProperties.ReallocUnknownAddress | projects/offload_heap/pc_side/pc_mm.c:306-313 | a concrete heap and address on which the guard as written dereferences NULL while the intended guard answers 0 |
| AddressIndex.KeyValsAppend | projects/offload_heap/pc_side/dict.c:43-47 | the values under a key in two chains joined are those of the first chain followed by those of the second, which is what appending at the tail preserves |
| AddressIndex.RemoveFirstKeyVals | projects/offload_heap/pc_side/dict.c:113-139 | removing the first entry of a key drops exactly the first value stored under it and leaves every other key's values alone |
| AddressIndex.RemoveFirst | projects/offload_heap/pc_side/dict.c:113-139 | the chain after `dict_delete` unlinks the first entry with the key, the chain unchanged when there is none; `RemoveFirstKeyVals` states what it removes |
| AddressIndex.ModFilterKeyVals | projects/offload_heap/pc_side/dict.c:67-80 | the entries of a chain that hash to a new bucket hold, for each key of that bucket, all its values in order |
| AddressIndex.ModDouble | projects/offload_heap/pc_side/dict.c:10-20 | a key of old bucket `b` lands in new bucket `b` or `b + size` when the table doubles (`key % size`) |
| AddressIndex.InsertedFacts | projects/offload_heap/pc_side/dict.c:31-54 | inserting keeps every entry in its bucket, adds one entry, and appends the value at the end of `key`'s values only |
| AddressIndex.DeletedFacts | projects/offload_heap/pc_side/dict.c:108-140 | deleting keeps every entry in its bucket, removes one entry and the first value of `key` when `key` is present, and leaves other keys alone |
| AddressIndex.DeletedIndex | projects/offload_heap/pc_side/dict.c:108-140 | on the whole index, deletion changes only `key`'s values, losing the first |
| AddressIndex.DoubledFacts | projects/offload_heap/pc_side/dict.c:57-83 | doubling keeps every entry in its bucket of the bigger table and every key's values in order |
| AddressIndex.ProgressStep | projects/offload_heap/pc_side/dict.c:67-80 | each reinsertion of `dict_double` takes the new table one entry further and adds one entry |
| AddressIndex.ProgressEnds | projects/offload_heap/pc_side/dict.c:61-81 | the new table starts empty and, once every bucket has been reinserted, is the doubled table |
| AddressIndex.InternalInsert | projects/offload_heap/pc_side/dict.c:31-54 | `internal_dict_insert` appends the entry at the end of its bucket's chain (an empty head slot takes it) and leaves every other bucket alone |
| AddressIndex.ReinsertChain | projects/offload_heap/pc_side/dict.c:68-79 | the inner loop of `dict_double` reinserts every entry of one old bucket, in order, and the new table grows by that many entries |
| AddressIndex.ChainDelete | projects/offload_heap/pc_side/dict.c:113-139 | the chain walk removes the first entry with the key, and reports whether there was one |
| AddressIndex.Dict.constructor | projects/offload_heap/pc_side/dict.c:7 | the global starts with no table, count 0 and size 0 |
| AddressIndex.Dict.Create | projects/offload_heap/pc_side/dict.c:24-28 | `dict_create` gives 128 empty buckets, count 0, and no values under any key |
| AddressIndex.Dict.Insert | projects/offload_heap/pc_side/dict.c:86-92 | `dict_insert` appends the value to the key's values, so an earlier value still wins a search; count grows by one and the table doubles once count exceeds size |
| AddressIndex.Dict.Double | projects/offload_heap/pc_side/dict.c:57-83 | `dict_double` doubles the size, keeps the count, and keeps every key's values in order |
| AddressIndex.Dict.Search | projects/offload_heap/pc_side/dict.c:95-105 | `dict_search` returns the first value stored under the key, and NULL exactly when there is none |
| AddressIndex.Dict.Delete | projects/offload_heap/pc_side/dict.c:108-140 | `dict_delete` drops the first value stored under the key, and decrements count only when there was one |
| AddressIndex.Dict.Destroy | projects/offload_heap/pc_side/dict.c:143-158 | `dict_destroy` releases the chains and the table and leaves count and size at 0 |
| HostBreak.Wrap | projects/offload_heap/pc_side/pc_mlib.c:49-50 | reduction to a 32-bit word leaves values below 2^32 alone and always lands below 2^32 |
| HostBreak.WrapAdd | projects/offload_heap/pc_side/pc_mlib.c:50 | adding to a wrapped break and wrapping again is adding and wrapping once, so successive `mem_sbrk` calls compose |
| HostBreak.SizeStep | projects/offload_heap/pc_side/pc_mlib.c:81-84 | advancing the break by `incr` advances the wrapped heap size by `incr` |
| HostBreak.BreakTracker.constructor | projects/offload_heap/pc_side/pc_mlib.c:21-22 | both static addresses start at 0 |
| HostBreak.BreakTracker.HeapLo | projects/offload_heap/pc_side/pc_mlib.c:65-68 | `mem_heap_lo` is the start of the heap |
| HostBreak.BreakTracker.HeapHi | projects/offload_heap/pc_side/pc_mlib.c:73-76 | `mem_heap_hi` is the byte before the break, and wraps to the largest address when the break is 0 |
| HostBreak.BreakTracker.HeapSize | projects/offload_heap/pc_side/pc_mlib.c:81-84 | `mem_heapsize` is the break minus the start when the break is above it, and in every case the 32-bit distance that takes the start to the break |
| HostBreak.BreakTracker.ResetBrk | projects/offload_heap/pc_side/pc_mlib.c:36-39 | `mem_reset_brk` makes an empty heap starting at `ptr` |
| HostBreak.BreakTracker.Deinit | projects/offload_heap/pc_side/pc_mlib.c:28-31 | `mem_deinit` moves the break back to the start, leaving an empty heap |
| HostBreak.BreakTracker.SetBrk | projects/offload_heap/pc_side/pc_mlib.c:58-60 | `mem_set_brk` moves only the break |
| HostBreak.BreakTracker.Sbrk | projects/offload_heap/pc_side/pc_mlib.c:47-55 | `mem_sbrk` of a positive `int` growth returns the old break, advances the break and the heap size by `incr` (wrapping), and hands the engine the new bytes as a free block at the end of its heap |
| HostBreak.BreakTracker.Advance | projects/offload_heap/pc_side/pc_mlib.c:49-50 | the tracker's half of `mem_sbrk`: the old break is returned and the break and the heap size advance by `incr` |
| Protocol.Decode | projects/offload_heap/pc_side/pc_server.c:37-92 | the dispatch reads type 0, 1 and 2 as malloc, free and realloc; type 3 with a nonzero size as a grow, with a zero size and nonzero address as a new origin, with both zero as the end; any other type as invalid; each command carries the fields its branch reads |
| Protocol.Encode | projects/offload_heap/mcu_side/mcu_mm.c:74 | the device's compound literals leave every field the command does not name at zero |
| Protocol.DecodeEncode | projects/offload_heap/mcu_side/mcu_mm.c:74-149 | the host reads back exactly the command the device built, whenever the encoding can carry it |
| Protocol.ZeroGrowMisread | projects/offload_heap/pc_side/pc_server.c:66-88 | a grow of size 0 would be read as the end of the session, which is why the device never sends one |
| Protocol.EncodeDecode | projects/offload_heap/pc_side/pc_server.c:37-92 | every request the host reads is what the device's encoding gives for the command read, up to the fields the dispatch ignores |
| DeviceLink.Link.constructor | projects/offload_heap/mcu_side/mcu_request.c:36-40 | after set-up nothing has been sent or read |
| DeviceLink.Link.Send | projects/offload_heap/mcu_side/mcu_request.c:43-45 | `req_send` puts the request after everything sent before it and reads nothing |
| DeviceLink.Link.Receive | projects/offload_heap/mcu_side/mcu_request.c:48-50 | `req_receive` returns the host's next reply word and consumes it |
| HostServer.ServedSpec | projects/offload_heap/pc_side/pc_server.c:37-92 | one served command keeps the heap tiled without neighbouring free blocks; exactly `MALLOC` and `REALLOC` are answered, with one word; a grow adds its size, a new origin or the end empties the heap; a nonzero `MALLOC` answer is an allocated block of the new heap |
| HostServer.Served | projects/offload_heap/pc_side/pc_server.c:37-92 | the `switch` on the request type as heap and reply words: the allocator's operation for `MALLOC`, `FREE` and `REALLOC`, a growth, a new origin or the end for `SBRK`, nothing for an unknown type; `ServedSpec` states what each keeps |
| HostServer.Server.constructor | projects/offload_heap/pc_side/pc_server.c:6-17 | the globals start zeroed and the handshake word 1 is the first thing sent |
| HostServer.Server.Open | projects/offload_heap/pc_side/pc_server.c:19-27 | the first request must be an `SBRK` with a nonzero address, or the server stops (the failed assertion); then the break and the engine start an empty heap there, and nothing is sent |
| HostServer.Server.Step | projects/offload_heap/pc_side/pc_server.c:29-93 | one loop iteration changes the heap and sends the reply words as the served command says, keeps the engine's base, and ends the loop on the end request after destroying the index |
| HostServer.Server.Serve | projects/offload_heap/pc_side/pc_server.c:37-92 | the dispatch on the command: heap and reply as `Served` gives them |
| HostServer.Server.ServeHeap | projects/offload_heap/pc_side/pc_server.c:38-65 | `MALLOC`, `FREE` and `REALLOC` change the heap as the engine's operation does and send its answer for the two that answer |
| HostServer.Server.ServeBreak | projects/offload_heap/pc_side/pc_server.c:66-91 | the overloaded `SBRK` and unknown types: grow, new origin, end, or nothing, with no reply |
| HostServer.Server.ServeMalloc | projects/offload_heap/pc_side/pc_server.c:38-48 | `MALLOC` is `mm_malloc`, whose result is the reply |
| HostServer.Server.ServeFree | projects/offload_heap/pc_side/pc_server.c:49-54 | `FREE` is `mm_free`, with no reply |
| HostServer.Server.ServeRealloc | projects/offload_heap/pc_side/pc_server.c:55-65 | `REALLOC` is `mm_realloc`, whose result is the reply |
| HostServer.Server.Grow | projects/offload_heap/pc_side/pc_server.c:67-72 | `SBRK` with a nonzero size below 2^31 grows the engine's heap by that many bytes and keeps the tracker's heap size equal to the engine's total |
| HostServer.Server.SetOrigin | projects/offload_heap/pc_side/pc_server.c:74-80 | a new origin resets the break there and empties the heap, while the engine's sentinel keeps its first address |
| HostServer.Server.Finish | projects/offload_heap/pc_side/pc_server.c:81-86 | the end of the session empties the list and destroys the index (size and count 0) |
| DeviceClient.Max | projects/offload_heap/mcu_side/mcu_mm.c:18 | `MAX` is the larger of its two arguments |
| DeviceClient.ExtendBytes | projects/offload_heap/mcu_side/mcu_mm.c:25 | `extend_heap` grows by the words rounded up to an even number, a multiple of 8 bytes at most one word more than asked |
| DeviceClient.GrowthSizeAsWritten | projects/offload_heap/mcu_side/mcu_mm.c:83-87 | the adjusted size as written: one word of overhead, rounded to whole words, at least one word |
| DeviceClient.GrowBytesAsWritten | projects/offload_heap/mcu_side/mcu_mm.c:83-90 | the growth as written is a multiple of 8, at least a chunk and the word-based adjusted size, and at most one word more than their maximum |
| DeviceClient.GrowBytes | projects/offload_heap/mcu_side/mcu_mm.c:83-90 | the growth with the host's adjusted size: a multiple of 8, at least a chunk and at least what the host's `mm_malloc` looks for, and exactly one of the two |
| DeviceClient.RetryFits | projects/offload_heap/mcu_side/mcu_mm.c:78-97 | after the host refuses and takes a growth of `GrowBytes(size)`, its `mm_malloc` of the same size succeeds, whatever the heap held and whichever fit policy it uses |
| DeviceClient.RetryFitsWith | projects/offload_heap/mcu_side/mcu_mm.c:78-97 | a growth of at least the host's adjusted size makes the retried `malloc` succeed, whatever the heap held |
| DeviceClient.GrowCoversAsWritten | projects/offload_heap/mcu_side/mcu_mm.c:83-90 | the growth as written covers the host's adjusted size exactly when the size is at most 4088 bytes or leaves a remainder of 0 or 5 to 7 modulo 8; otherwise it is 8 bytes short |
| DeviceClient.RetryFitsAsWritten | projects/offload_heap/mcu_side/mcu_mm.c:78-97 | for those sizes the retry as written succeeds whatever the heap held and whichever fit policy the host uses |
| DeviceClient.RetryRefusedAsWritten | projects/offload_heap/mcu_side/mcu_mm.c:83-90 | with the growth as written, a heap of one allocated 4096-byte block and `malloc(4097)` make the device grow by 4104 bytes while the host needs 4112, so the retry is refused |
| DeviceClient.MallocRunSpec | projects/offload_heap/mcu_side/mcu_mm.c:62-103 | `mm_malloc` sends nothing exactly for a zero size; a nonzero first answer is the result; otherwise the break grows by the code's word-based growth (`GrowBytesAsWritten`), past no stack, and the size is asked once more; the host reads every request as meant |
| DeviceClient.MallocRun | projects/offload_heap/mcu_side/mcu_mm.c:62-103 | the device's `mm_malloc` as the requests it sends and its result against the host's answers: nothing for a zero size, one request answered, or a refusal, a growth of the break and a second request; `MallocRunSpec` states its properties |
| DeviceClient.ReallocRunSpec | projects/offload_heap/mcu_side/mcu_mm.c:113-145 | `mm_realloc` frees the block, as its last request, exactly when the size is zero or the host moved it; the result is the pointer when kept or when the size is zero, and otherwise a fresh `mm_malloc`'s result |
| DeviceClient.ReallocRun | projects/offload_heap/mcu_side/mcu_mm.c:113-145 | the device's `mm_realloc` as the requests it sends and its result: a NULL pointer is a `malloc`, a zero size a `FREE`, and a moved block a fresh `malloc` followed by a `FREE` of the old one; `ReallocRunSpec` states its properties |
| DeviceClient.Client.constructor | projects/offload_heap/mcu_side/mcu_mlib.c:24-25 | the client starts with a zeroed break over the given link |
| DeviceClient.Client.ExtendHeap | projects/offload_heap/mcu_side/mcu_mm.c:21-31 | `extend_heap` succeeds exactly when the even-word growth fits below the stack (or is zero), grows the break by that much and reports it to the host |
| DeviceClient.Client.Init | projects/offload_heap/mcu_side/mcu_mm.c:34-59 | `mm_init` succeeds exactly when the host's first word is the handshake 1; then the break starts at the aligned end of static data, the host is told, and the heap grows by a chunk when the stack allows |
| DeviceClient.Client.Malloc | projects/offload_heap/mcu_side/mcu_mm.c:62-103 | `mm_malloc` does on the link and to the break what `MallocRun` says, against the replies still unread, growing by the code's `MAX(asize, CHUNKSIZE)` words after a refusal |
| DeviceClient.Client.Free | projects/offload_heap/mcu_side/mcu_mm.c:106-110 | `mm_free` sends one `FREE` request and reads nothing |
| DeviceClient.Client.Realloc | projects/offload_heap/mcu_side/mcu_mm.c:113-145 | `mm_realloc` does on the link and to the break what `ReallocRun` says, its moving path growing as `mm_malloc` does |
| DeviceClient.Client.Finish | projects/offload_heap/mcu_side/mcu_mm.c:148-151 | `mm_finish` sends the request the host reads as the end of the session |
| DeviceBreak.Align | projects/offload_heap/mcu_side/mcu_mlib.c:17-18 | `ALIGN` rounds up to the next multiple of 8, less than 8 above, keeping multiples of 8 and 0 |
| DeviceBreak.OriginMessage | projects/offload_heap/mcu_side/mcu_mlib.c:37-39 | the reset message is read by the host as the new origin, or as the end of the session when the start is 0 |
| DeviceBreak.Break.constructor | projects/offload_heap/mcu_side/mcu_mlib.c:24-25 | both static addresses start at 0 |
| DeviceBreak.Break.Init | projects/offload_heap/mcu_side/mcu_mlib.c:31-41 | `mem_init` starts an empty heap at the 8-byte boundary at or after the end of static data and sends it to the host as the origin |
| DeviceBreak.Break.ResetBrk | projects/offload_heap/mcu_side/mcu_mlib.c:54-63 | `mem_reset_brk` empties the heap at the same start and tells the host |
| DeviceBreak.Break.Deinit | projects/offload_heap/mcu_side/mcu_mlib.c:46-49 | `mem_deinit` is a reset |
| DeviceBreak.Break.Sbrk | projects/offload_heap/mcu_side/mcu_mlib.c:70-98 | `mem_sbrk` of 0 returns the break and sends nothing; a growth past the stack pointer fails and changes nothing; otherwise the old break is returned, the break and the heap size grow by `incr`, and the host is sent a request it reads as that growth |
| DeviceBreak.Break.HeapLo | projects/offload_heap/mcu_side/mcu_mlib.c:103-106 | `mem_heap_lo` is the aligned start, and start plus size is the break |
| DeviceBreak.Break.HeapHiAsWritten | projects/offload_heap/mcu_side/mcu_mlib.c:111-114 | as written `mem_heap_hi` answers start plus size, the first byte after the heap |
| DeviceBreak.Break.HeapHi | projects/offload_heap/mcu_side/mcu_mlib.c:108-114 | as its comment says, the last byte of the heap: start plus size minus 1, inside the heap whenever it is not empty |
| DeviceBreak.Break.HeapSize | projects/offload_heap/mcu_side/mcu_mlib.c:119-122 | `mem_heapsize` is the distance from the start to the break |
| ImplicitList.AdjustedSize | projects/offload_heap/mm.c:254-259 | the adjusted size is a multiple of 8, at least the 16-byte minimum and the request plus 8 bytes of header and footer, and wastes fewer than 16 bytes beyond the request above the minimum |
| ImplicitList.GrowSize | projects/offload_heap/mm.c:267-268 | the growth is the adjusted size or a chunk, whichever is larger |
| ImplicitList.GrownNonEmpty | projects/offload_heap/mm.c:94-111 | growing the heap always leaves at least one block |
| ImplicitList.MallocOutcomeGrow | projects/offload_heap/mm.c:267-274 | with no block fitting, `mm_malloc` places the request in the last block of the grown heap, or returns NULL and changes nothing when the heap cannot grow |
| ImplicitList.KeepsTrans | projects/offload_heap/mm.c:243-339 | keeping every allocated block composes over successive operations |
| ImplicitList.KeepsOnFree | projects/offload_heap/mm.c:155-175 | allocating, splitting or merging free blocks keeps every allocated block where it was |
| ImplicitList.KeepsCoalesce | projects/offload_heap/mm.c:62-91 | `coalesce` merges only free blocks, so every allocated block stays |
| ImplicitList.KeepsPlace | projects/offload_heap/mm.c:155-175 | `place` in a free block keeps every allocated block |
| ImplicitList.KeepsGrown | projects/offload_heap/mm.c:94-111 | `extend_heap` keeps every allocated block |
| ImplicitList.NotLive | projects/offload_heap/mm.c:243-275 | a free block of a heap that kept the allocated blocks starts where none of them does, so `mm_malloc` never hands out a live address |
| ImplicitList.StillFound | projects/offload_heap/mm.c:243-339 | a block allocated before an operation that keeps allocated blocks is found, unchanged, at its address afterwards |
| ImplicitList.MallocKeeps | projects/offload_heap/mm.c:243-275 | `mm_malloc` changes nothing when it returns NULL, and otherwise every block allocated before is still found at its address |
| ImplicitList.FreedReleases | projects/offload_heap/mm.c:277-285 | after `mm_free` no allocated block starts at the freed address |
| ImplicitList.PlaceAtSpec | projects/offload_heap/mm.c:155-175 | `place` keeps the heap tiled, with its size and without adjacent free blocks; the block is allocated at the same address, at the adjusted size when at least 8 bytes are left over and whole otherwise, so it wastes fewer than 8 bytes; allocated blocks stay |
| ImplicitList.PlaceAt | projects/offload_heap/mm.c:155-175 | `place` of the implicit-list allocator: the block becomes allocated, split only when at least 8 bytes would be left over; `PlaceAtSpec` states what it keeps |
| ImplicitList.MallocOutcomeSpec | projects/offload_heap/mm.c:243-275 | `mm_malloc` returns NULL exactly for a zero size or when nothing fits and the heap cannot grow by the grow size, and then changes nothing; otherwise a block not live before, allocated, holding the adjusted size with fewer than 8 bytes to spare: the first fit when there is one (heap size kept), else inside the heap grown by the grow size; the heap stays tiled without adjacent free blocks and keeps every allocated block |
| ImplicitList.MallocOutcome | projects/offload_heap/mm.c:243-275 | `mm_malloc` of the implicit-list allocator on the view: NULL for a zero size; otherwise the first fit, or, when none fits, the heap grown by the grow size and the request placed in its last block, or NULL when the break cannot move; `MallocOutcomeSpec` states what that gives |
| ImplicitList.MallocFits | projects/offload_heap/mm.c:261-265 | placing in a free block that fits grants the request there, and the heap keeps its size |
| ImplicitList.MallocGrows | projects/offload_heap/mm.c:267-274 | placing at the end of the heap grown by at least the adjusted size grants the request inside the grown heap, which grows by exactly that much |
| ImplicitList.UnplaceAt | projects/offload_heap/mm.c:155-175 | freeing and coalescing a block `place` just allocated gives back the heap as it was |
| ImplicitList.MallocFreeRoundTrip | projects/offload_heap/mm.c:243-285 | `mm_free` of what `mm_malloc` handed out from a block that fitted restores the heap |
| ImplicitList.ShrinkAtSpec | projects/offload_heap/mm.c:178-196 | `shrink_blk` keeps the heap tiled with its size and without adjacent free blocks; the block shrinks to the adjusted size exactly when more than 8 bytes are left over, and is unchanged otherwise |
| ImplicitList.ShrinkAt | projects/offload_heap/mm.c:178-196 | `shrink_blk` on a live block: a remainder of more than 8 bytes is split off free and coalesced, a smaller one kept in the block; `ShrinkAtSpec` states what it keeps |
| ImplicitList.ExtendAtSpec | projects/offload_heap/mm.c:199-219 | `extend_blk` keeps the heap tiled with its size and without adjacent free blocks; the block stays allocated at its address and takes the adjusted size when more than 8 bytes of the pair are left over, and the whole pair otherwise |
| ImplicitList.ExtendAt | projects/offload_heap/mm.c:199-219 | `extend_blk` on a live block: the block takes `asize` bytes of itself and its free successor, the rest a free block when more than 8 bytes and absorbed otherwise; `ExtendAtSpec` states what it keeps |
| ImplicitList.ReallocInPlaceSpec | projects/offload_heap/mm.c:306-338 | `mm_realloc` of a live block keeps the address exactly when the block, or the block with a free successor, holds the adjusted size; then the block is still allocated there and holds the adjusted size with at most 8 bytes to spare |
| ImplicitList.ReallocMovedSpec | projects/offload_heap/mm.c:322-330 | when `mm_realloc` moves a block, the answer is an allocated block holding the adjusted size with fewer than 8 bytes to spare, and no allocated block is left at the old address |
| ImplicitList.MoveOutcome | projects/offload_heap/mm.c:322-330 | the move branch of `mm_realloc`: a fresh `mm_malloc`, then the old block freed, or NULL with nothing changed when the malloc fails; `ReallocMovedSpec` states what the moved block is |
| ImplicitList.ReallocOutcomeSpec | projects/offload_heap/mm.c:287-339 | `mm_realloc` keeps the heap tiled without adjacent free blocks, changes nothing when it answers NULL, and for a zero size frees the block and returns the pointer |
| ImplicitList.ReallocOutcome | projects/offload_heap/mm.c:287-339 | `mm_realloc` of the implicit-list allocator on the view, for NULL or a live block, branch by branch: NULL pointer mallocs, zero size frees, a block grows into a free successor, moves, shrinks or stays; `ReallocOutcomeSpec`, `ReallocInPlaceSpec` and `ReallocMovedSpec` state what it gives |
| BoundaryTags.Pack | projects/offload_heap/mm.c:39 | `PACK` of an 8-aligned size is read back by `GET_SIZE` and `GET_ALLOC` as that size and bit |
| BoundaryTags.LowBits | projects/offload_heap/mm.c:39 | the allocated bit added to an 8-aligned size is the word's remainder by 8 and by 2 |
| BoundaryTags.GetSize | projects/offload_heap/mm.c:46 | `GET_SIZE` clears the three low bits: the largest multiple of 8 not above the word |
| BoundaryTags.MaskArith | projects/offload_heap/mm.c:46-47 | on 32-bit words `& ~0x7` and `& 0x1` are the arithmetic the model reads tags with |
| BoundaryTags.PackBits | projects/offload_heap/mm.c:39-47 | on 32-bit words, `PACK` of an 8-aligned size and a 0/1 bit is split back into the two by the two masks |
| BoundaryTags.Stamp | projects/offload_heap/mm.c:75-76 | writing a block's header and then its footer tags the block and writes nothing outside it |
| BoundaryTags.StampFooterFirst | projects/offload_heap/mm.c:80-81 | writing the footer before the header, as the second case of `coalesce` does, gives the same words |
| BoundaryTags.StampPair | projects/offload_heap/mm.c:164-169 | two adjacent blocks written second then first, as `place` splits, are both tagged and nothing outside them is written |
| BoundaryTags.TaggedSplice | projects/offload_heap/mm.c:155-219 | rewriting only the words of some blocks so that the blocks replacing them are tagged leaves the whole list tagged |
| BoundaryTags.LaidSplice | projects/offload_heap/mm.c:155-219 | such a rewrite keeps the heap laid out between prologue and epilogue when the new list is well formed and covers the same bytes |
| BoundaryTags.Around | projects/offload_heap/mm.c:51-56 | around a laid-out block: its own tags, the neighbouring blocks' tags where they exist, the first block right after the prologue and the last one ending at the break |
| BoundaryTags.LaidEmpty | projects/offload_heap/mm.c:227-233 | the four words `mm_init` writes lay out an empty heap |
| BoundaryTags.ExtendWords | projects/offload_heap/mm.c:103-107 | `extend_heap`'s writes tag a free block at the old break, put a size-0 allocated header just before the new break, and write nothing else |
| BoundaryTags.FramedGrown | projects/offload_heap/mm.c:103-107 | the prologue survives those writes and the new epilogue frames the grown heap |
| BoundaryTags.LaidAppend | projects/offload_heap/mm.c:94-107 | `extend_heap`'s writes lay out the list with the new free block appended |
| BoundaryTags.LaidStamp | projects/offload_heap/mm.c:62-91 | one block's tags written over blocks it covers exactly, as `coalesce` writes them, keep the heap laid out with that block in their place |
| BoundaryTags.LaidStampPair | projects/offload_heap/mm.c:155-219 | two adjacent blocks written over blocks they cover exactly keep the heap laid out with the pair in their place |
| BoundaryTags.Neighbours | projects/offload_heap/mm.c:62-67 | the words `coalesce` reads: the block's header gives its size and bit; the footer before it gives the previous block (the prologue, allocated, for the first block) and whether it is free; the header after it gives the next block (the epilogue, allocated, after the last) and whether it is free |
| BoundaryTags.Walk | projects/offload_heap/mm.c:115-147 | a header walk from `heap_listp` meets the prologue, then every block in order, then the size-0 epilogue where it stops; each header's size leads to the next stop |
| InMemoryHeap.ExtendBytes | projects/offload_heap/mm.c:98 | `extend_heap` rounds the words up to an even count: a multiple of 8 bytes, less than 8 above the words asked, exact for an even count |
| InMemoryHeap.ExtendBytesExact | projects/offload_heap/mm.c:268-269 | a byte count that is a multiple of 8, passed as words, is grown by exactly |
| InMemoryHeap.GrownLast | projects/offload_heap/mm.c:94-111 | after `extend_heap` the last block is free and at least as large as the growth, so `place` there succeeds |
| InMemoryHeap.SpanNext | projects/offload_heap/mm.c:72-76 | the second case of `coalesce` replaces the block and its successor by the merged block |
| InMemoryHeap.SpanPrev | projects/offload_heap/mm.c:77-82 | the third case replaces the predecessor and the block by the merged block |
| InMemoryHeap.SpanBoth | projects/offload_heap/mm.c:83-88 | the fourth case replaces all three by the merged block |
| InMemoryHeap.CoalesceSpan | projects/offload_heap/mm.c:62-91 | with a free neighbour, `coalesce` replaces the block and its free neighbours by one merged block |
| InMemoryHeap.CoalesceLaid | projects/offload_heap/mm.c:62-91 | the merged block's tags lay out the coalesced list, ending at the same break, without adjacent free blocks, with the merged block where the first merged one was |
| InMemoryHeap.PlaceSplitLayout | projects/offload_heap/mm.c:160-169 | `place` splitting gives the allocated head and the free tail in the list |
| InMemoryHeap.WholeLayout | projects/offload_heap/mm.c:170-174 | using a whole block replaces it by its allocated self |
| InMemoryHeap.FirstChunk | projects/offload_heap/mm.c:235-238 | `mm_init`'s first extension makes a heap of one free chunk |
| InMemoryHeap.NextHeader | projects/offload_heap/mm.c:316-317 | the header after a block is the next block's, or the allocated epilogue's after the last block |
| InMemoryHeap.CoalesceLast | projects/offload_heap/mm.c:110 | coalescing the last block leaves the merged block last, which is where `extend_heap`'s answer points |
| InMemoryHeap.ExtendLayout | projects/offload_heap/mm.c:103-107 | `extend_heap`'s writes append a free block at the old break, the only block that may have a free neighbour, and move the break up by its size |
| InMemoryHeap.PlaceSplitLaid | projects/offload_heap/mm.c:160-169 | `place`'s writes when at least 8 bytes are left over lay out the placed list at the same break without adjacent free blocks |
| InMemoryHeap.PlaceWholeLaid | projects/offload_heap/mm.c:170-174 | `place`'s writes when fewer than 8 bytes are left over lay out the placed list |
| InMemoryHeap.ShrinkLaid | projects/offload_heap/mm.c:183-192 | `shrink_blk`'s writes lay out the split list, whose free tail is the only block that may have a free neighbour |
| InMemoryHeap.ExtendSplitLaid | projects/offload_heap/mm.c:204-212 | `extend_blk`'s writes when more than 8 bytes are left over lay out the list with the boundary moved, without adjacent free blocks |
| InMemoryHeap.ExtendWholeLaid | projects/offload_heap/mm.c:214-217 | `extend_blk`'s writes otherwise lay out the list with the pair merged into one allocated block |
| InMemoryHeap.FreeLaid | projects/offload_heap/mm.c:279-283 | `mm_free`'s writes lay out the list with the block freed, the only block that may have a free neighbour |
| InMemoryHeap.Heap.constructor | projects/offload_heap/mm.c:59 | a heap of the given bytes, with the break at its start and no blocks |
| InMemoryHeap.Heap.Put | projects/offload_heap/mm.c:43 | `PUT` changes one word |
| InMemoryHeap.Heap.Get | projects/offload_heap/mm.c:42 | `GET(p)`: the word at address `p` |
| InMemoryHeap.Heap.Ftrp | projects/offload_heap/mm.c:52 | `FTRP(bp)`: the footer address, from the size in the header |
| InMemoryHeap.Heap.NextBlkp | projects/offload_heap/mm.c:55 | `NEXT_BLKP(bp)`: the next payload, from the size in the header |
| InMemoryHeap.Heap.PrevBlkp | projects/offload_heap/mm.c:56 | `PREV_BLKP(bp)`: the previous payload, from the size in the previous footer |
| InMemoryHeap.Heap.PutTags | projects/offload_heap/mm.c:75-76 | a header and then the footer it locates: the block is stamped |
| InMemoryHeap.Heap.Sbrk | projects/offload_heap/mm.c:99-101 | the break moves by `incr` and the old break is returned, unless that passes the end of the words, when nothing changes and the answer is the failure |
| InMemoryHeap.Heap.Coalesce | projects/offload_heap/mm.c:62-91 | `coalesce` keeps the heap laid out and leaves it without adjacent free blocks; the list is the coalesced view and the merged block's payload is returned |
| InMemoryHeap.Heap.MergeWithNext | projects/offload_heap/mm.c:72-76 | the second case as the coalesced view |
| InMemoryHeap.Heap.MergeWithPrev | projects/offload_heap/mm.c:77-82 | the third case as the coalesced view, returning the previous payload |
| InMemoryHeap.Heap.MergeWithBoth | projects/offload_heap/mm.c:83-88 | the fourth case as the coalesced view, returning the previous payload |
| InMemoryHeap.Heap.JoinNext | projects/offload_heap/mm.c:74-76 | the second case's writes stamp the merged block |
| InMemoryHeap.Heap.JoinPrev | projects/offload_heap/mm.c:79-82 | the third case's writes, footer first, stamp the merged block and return the previous payload |
| InMemoryHeap.Heap.JoinBoth | projects/offload_heap/mm.c:85-88 | the fourth case's writes stamp the merged block and return the previous payload |
| InMemoryHeap.Heap.PutNextFooter | projects/offload_heap/mm.c:87 | the footer found through the next block's unchanged header completes the merged block's stamp |
| InMemoryHeap.Heap.FirstFit | projects/offload_heap/mm.c:115-126 | the header walk returns the first free block of at least `asize` bytes, or NULL |
| InMemoryHeap.Heap.BestFit | projects/offload_heap/mm.c:129-147 | the header walk returns the smallest free block of at least `asize` bytes, the earliest among equals, or NULL |
| InMemoryHeap.Heap.ExtendHeap | projects/offload_heap/mm.c:94-111 | `extend_heap` returns NULL and changes nothing when the break cannot move by the rounded size; otherwise the heap grows by that size as a free block coalesced with a free predecessor, and the merged payload is returned |
| InMemoryHeap.Heap.LayChunk | projects/offload_heap/mm.c:103-110 | the writes and the coalesce after the break moved give the grown view, whose last block is returned |
| InMemoryHeap.Heap.AppendChunk | projects/offload_heap/mm.c:103-107 | the writes append a free block at the old break, the only block that may have a free neighbour |
| InMemoryHeap.Heap.PutChunk | projects/offload_heap/mm.c:104-107 | the header, the footer and the new epilogue header are `extend_heap`'s words |
| InMemoryHeap.Heap.Place | projects/offload_heap/mm.c:155-175 | `place` keeps the heap laid out without adjacent free blocks and does to the list what the `place` view says |
| InMemoryHeap.Heap.ShrinkBlk | projects/offload_heap/mm.c:178-196 | `shrink_blk` keeps the heap laid out without adjacent free blocks and does what the `shrink_blk` view says |
| InMemoryHeap.Heap.PutSplit | projects/offload_heap/mm.c:187-192 | `shrink_blk`'s four writes stamp the free tail and then the shrunk head |
| InMemoryHeap.Heap.ExtendBlk | projects/offload_heap/mm.c:199-219 | `extend_blk` keeps the heap laid out without adjacent free blocks and does what the `extend_blk` view says |
| InMemoryHeap.Heap.ExtendSplit | projects/offload_heap/mm.c:204-213 | the splitting branch: the boundary moves, then the free remainder is coalesced |
| InMemoryHeap.Heap.ExtendWhole | projects/offload_heap/mm.c:214-218 | the other branch: the pair becomes one allocated block |
| InMemoryHeap.Heap.Free | projects/offload_heap/mm.c:277-285 | `mm_free` keeps the heap laid out without adjacent free blocks and frees and coalesces the block |
| InMemoryHeap.Heap.Init | projects/offload_heap/mm.c:221-241 | `mm_init` answers -1 when the break cannot move by 16 bytes or then by a chunk, 0 otherwise; `heap_listp` points after the padding and the prologue header, and on success the heap is one free chunk |
| InMemoryHeap.Heap.Malloc | projects/offload_heap/mm.c:243-275 | `mm_malloc` keeps the heap laid out without adjacent free blocks, and the new list and the answer are what `MallocOutcome` says, whose properties `MallocOutcomeSpec` states |
| InMemoryHeap.Heap.MallocGrow | projects/offload_heap/mm.c:267-274 | the growing end of `mm_malloc`, with the same outcome |
| InMemoryHeap.Heap.Realloc | projects/offload_heap/mm.c:287-339 | `mm_realloc` keeps the heap laid out without adjacent free blocks, and the new list and the answer are what `ReallocOutcome` says |
| InMemoryHeap.Heap.Resize | projects/offload_heap/mm.c:306-338 | the comparison of the block with the adjusted size: grow, shrink or keep |
| InMemoryHeap.Heap.ReallocGrow | projects/offload_heap/mm.c:315-330 | a block too small grows into a free successor when the pair holds the adjusted size, and otherwise moves |
| InMemoryHeap.Heap.ReallocMove | projects/offload_heap/mm.c:323-329 | moving mallocs a new block and frees the old one only when that succeeds |
| InMemoryHeap.Heap.PutPair | projects/offload_heap/mm.c:164-169 | the free tail's tags and then the allocated head's |
| MallocRanges.Check | projects/offload_heap/mcu_side/mcu_mdriver.c:277-311 | `add_range`'s checks in order: refused as misaligned exactly when the payload is not 8-aligned, as outside the heap exactly when aligned but not inside the heap's bounds, as overlapping exactly when inside but an endpoint falls in a recorded range, and added exactly when it passes all three |
| MallocRanges.FirstAt | projects/offload_heap/mcu_side/mcu_mdriver.c:335-342 | the position the `remove_range` walk stops at: the first range starting at `lo`, no earlier range starting there, or the end of the list |
| MallocRanges.RemoveFirstSpec | projects/offload_heap/mcu_side/mcu_mdriver.c:330-343 | `remove_range` takes out exactly the first range starting at `lo` and keeps the rest in order, and leaves the list alone when no range starts there |
| MallocRanges.RemoveFirst | projects/offload_heap/mcu_side/mcu_mdriver.c:330-343 | the list after `remove_range(lo)` unlinks the first range starting at `lo`; `RemoveFirstSpec` and `RemoveFirstCount` state what it removes and keeps |
| MallocRanges.RemoveFirstCount | projects/offload_heap/mcu_side/mcu_mdriver.c:330-343 | removal shortens the list by one when `lo` is recorded and by none otherwise, and never adds a range |
| MallocRanges.RemoveKeepsDisjoint | projects/offload_heap/mcu_side/mcu_mdriver.c:330-343 | removing a range keeps the list pairwise disjoint and its ranges non-empty |
| MallocRanges.EndpointHitIntersects | projects/offload_heap/mcu_side/mcu_mdriver.c:302-311 | the endpoint test never refuses wrongly: a payload it calls overlapping shares a byte with a recorded range |
| MallocRanges.EnclosingAccepted | projects/offload_heap/mcu_side/mcu_mdriver.c:302-311 | the endpoint test misses enclosure: with `[24, 31]` recorded, a 24-byte payload at 16 is added and the list stops being disjoint |
| MallocRanges.CheckDisjoint | projects/offload_heap/mcu_side/mcu_mdriver.c:302-311 | the test the comment above the loop describes: added exactly when `add_range` adds it and it shares no byte with any recorded range, so an added payload is aligned and inside the heap |
| MallocRanges.CheckDisjointKeepsDisjoint | projects/offload_heap/mcu_side/mcu_mdriver.c:313-324 | with that test, prepending an added payload keeps the list disjoint and non-empty |
| MallocRanges.RangeList.constructor | projects/offload_heap/mcu_side/mcu_mdriver.c:484 | the range list starts empty |
| MallocRanges.RangeList.AddRange | projects/offload_heap/mcu_side/mcu_mdriver.c:277-325 | `add_range` answers the checks' verdict; on success the payload's range `[lo, lo + size - 1]` is prepended, otherwise the list is left alone |
| MallocRanges.RangeList.Overlap | projects/offload_heap/mcu_side/mcu_mdriver.c:303-311 | the walk finds a hit exactly when some recorded range holds an endpoint of the payload |
| MallocRanges.RangeList.RemoveRange | projects/offload_heap/mcu_side/mcu_mdriver.c:330-343 | `remove_range` unlinks the first range starting at `lo`, as `RemoveFirstSpec` describes |
| MallocRanges.RangeList.ClearRanges | projects/offload_heap/mcu_side/mcu_mdriver.c:348-358 | `clear_ranges` leaves the list empty |
| ValidityCheck.Pattern | projects/offload_heap/mcu_side/mcu_mdriver.c:533 | the fill byte `index & 0xFF` is a byte congruent to the id modulo 256 |
| ValidityCheck.Kept | projects/offload_heap/mcu_side/mcu_mdriver.c:561-562 | the bytes that must survive a reallocation: the smaller of the old and the new size |
| ValidityCheck.Step | projects/offload_heap/mcu_side/mcu_mdriver.c:507-589 | one request, checked against the heap bounds `add_range` reads for it, keeps the sizes of the block table |
| ValidityCheck.Run | projects/offload_heap/mcu_side/mcu_mdriver.c:506-594 | the replay, each request checked against the heap bounds of its own moment, keeps the sizes of the block table |
| ValidityCheck.ReplayableFrom | projects/offload_heap/mcu_side/mcu_mdriver.c:506 | the requests from any point on still form a replayable trace |
| ValidityCheck.PassedBlocksChecked | projects/offload_heap/mcu_side/mcu_mdriver.c:512-575 | when `eval_mm_valid` answers 1, every block the allocator returned for an `ALLOC` or `REALLOC` was non-NULL, 8-aligned and inside the heap as `mem_heap_lo` and `mem_heap_hi` gave it when that request was checked, so a heap that grew during the trace is accounted for |
| ValidityCheck.PassedPrefix | projects/offload_heap/mcu_side/mcu_mdriver.c:506-594 | a trace that passes passes on every prefix too |
| ValidityCheck.GrownHeapAccepted | projects/offload_heap/mcu_side/mcu_mdriver.c:294-295 | two allocations, the second after the heap grew: the replay passes with the bounds read for each request, and would refuse the second block under the bounds of the first |
| ValidityCheck.CheckPreserved | projects/offload_heap/mcu_side/mcu_mdriver.c:563-569 | the comparison loop succeeds exactly when the first `count` bytes all hold the old fill byte |
| ValidityCheck.EvalValid | projects/offload_heap/mcu_side/mcu_mdriver.c:484-595 | `eval_mm_valid` clears the ranges and replays the first `num_ops` parsed requests (none when `num_ops` is negative) in order, stopping at the first failure; its answer, the ranges and the block table are those of `Run` on those requests from an empty list, each checked against the heap bounds read for it |
| ValidityCheck.Replayed | projects/offload_heap/mcu_side/mcu_mdriver.c:506 | the number of requests the loop replays: `num_ops`, none when it is negative (the loop test `i < num_ops` fails at once) |
| ValidityCheck.Apply | projects/offload_heap/mcu_side/mcu_mdriver.c:510-589 | one pass of the `switch` does what `Step` says |
| ValidityCheck.ApplyAlloc | projects/offload_heap/mcu_side/mcu_mdriver.c:512-538 | `ALLOC`: a NULL answer or a range refused under the current heap bounds fails; otherwise the range is added and the block and its size are recorded |
| ValidityCheck.ApplyRealloc | projects/offload_heap/mcu_side/mcu_mdriver.c:540-575 | `REALLOC`: a NULL answer fails; the old range is removed, the new one checked against the current heap bounds and added, and the first `min(old size, size)` bytes compared with the old fill byte before the block is recorded |
| TraceFile.DigitRun | projects/offload_heap/mcu_side/mcu_mdriver.c:422 | the digits a conversion reads form a prefix of the text |
| TraceFile.Blanks | projects/offload_heap/mcu_side/mcu_mdriver.c:418 | the white space a conversion skips is a prefix of the text |
| TraceFile.Number | projects/offload_heap/mcu_side/mcu_mdriver.c:422 | a number read takes at least one character and no more than the text |
| TraceFile.ScanUnsigned | projects/offload_heap/mcu_side/mcu_mdriver.c:422 | `%u` consumes at least one character and no more than the text |
| TraceFile.ScanInt | projects/offload_heap/mcu_side/mcu_mdriver.c:388 | `%d` consumes at least one character and no more than the text |
| TraceFile.ScanWord | projects/offload_heap/mcu_side/mcu_mdriver.c:418 | `%s` consumes at least one character when it does not hit the end |
| TraceFile.WordEnd | projects/offload_heap/mcu_side/mcu_mdriver.c:418 | a word is a prefix of the text, non-empty when the text starts with a non-space |
| TraceFile.NextOp | projects/offload_heap/mcu_side/mcu_mdriver.c:418-454 | one pass of the request loop moves the scan pointer forward by at least one character and stays within the text |
| TraceFile.ReadTrace | projects/offload_heap/mcu_side/mcu_mdriver.c:367-462 | `read_trace` reads what `ParseTrace` defines, whose round trip `ReadWrittenTrace` states |
| TraceFile.PrependCons | projects/offload_heap/mcu_side/mcu_mdriver.c:424-455 | storing one more request moves it from the text still to be read to the operations already stored |
| TraceFile.ReadOps | projects/offload_heap/mcu_side/mcu_mdriver.c:415-456 | the request loop reads what `ParseOps` defines |
| TraceFile.Digit | projects/offload_heap/mcu_side/mcu_mdriver.c:422 | a digit character has the value it stands for |
| TraceFile.NatText | projects/offload_heap/mcu_side/mcu_mdriver.c:422 | a printed number starts with a digit |
| TraceFile.NatTextDigits | projects/offload_heap/mcu_side/mcu_mdriver.c:422 | a printed number is all digits |
| TraceFile.Abs | projects/offload_heap/mcu_side/mcu_mdriver.c:388 | the magnitude of a header field is the field or its negation |
| TraceFile.OpsText | projects/offload_heap/mcu_side/mcu_mdriver.c:418 | the request lines start with a line break, where `%s` skips |
| TraceFile.ValueNatText | projects/offload_heap/mcu_side/mcu_mdriver.c:422 | the digits of a number read back are that number |
| TraceFile.DigitRunText | projects/offload_heap/mcu_side/mcu_mdriver.c:422 | a run of digits ends where the digits do |
| TraceFile.NumberText | projects/offload_heap/mcu_side/mcu_mdriver.c:422 | a printed number at the start of a text reads back as that number |
| TraceFile.ScanNatText | projects/offload_heap/mcu_side/mcu_mdriver.c:422 | `%u` reads back a printed number and stops at the first non-digit |
| TraceFile.ScanIntText | projects/offload_heap/mcu_side/mcu_mdriver.c:388-395 | `%d` reads back a printed integer, negative ones included, and stops at the first non-digit |
| TraceFile.ScanNonNegText | projects/offload_heap/mcu_side/mcu_mdriver.c:388 | `%d` reads back a printed non-negative integer |
| TraceFile.ScanNegText | projects/offload_heap/mcu_side/mcu_mdriver.c:388 | `%d` reads back a printed negative integer |
| TraceFile.ScanMinus | projects/offload_heap/mcu_side/mcu_mdriver.c:388 | `%d` reads a minus sign and digits as the negated value |
| TraceFile.ScanWordLetter | projects/offload_heap/mcu_side/mcu_mdriver.c:418-420 | `%s` on a line break, a letter and a space reads that letter and stops at the space |
| TraceFile.ScanField | projects/offload_heap/mcu_side/mcu_mdriver.c:422 | `%u` reads back a space-separated operand |
| TraceFile.NextOpText | projects/offload_heap/mcu_side/mcu_mdriver.c:418-455 | one request line is read back as that request, with its kind, id and size |
| TraceFile.FreeLineScans | projects/offload_heap/mcu_side/mcu_mdriver.c:437-441 | the word and the operand of an `f` line scan as written |
| TraceFile.PairLineScans | projects/offload_heap/mcu_side/mcu_mdriver.c:421-435 | the word and both operands of an `a` or `r` line scan as written |
| TraceFile.NextFree | projects/offload_heap/mcu_side/mcu_mdriver.c:437-441 | an `f` line whose operand scans gives a free of that id |
| TraceFile.NextPair | projects/offload_heap/mcu_side/mcu_mdriver.c:421-435 | an `a` or `r` line whose operands scan gives that allocation or reallocation |
| TraceFile.ParseOpsText | projects/offload_heap/mcu_side/mcu_mdriver.c:415-456 | the request lines of a trace, with the final newline, are read back as its requests in order |
| TraceFile.ParseOps | projects/offload_heap/mcu_side/mcu_mdriver.c:418-456 | the request loop of `read_trace` on the rest of the text: one operation per type word until the text ends, a malformed field or a bogus type ending it; `ParseOpsText` proves it reads back the requests a trace was written with, in canonical form |
| TraceFile.ParseHeader | projects/offload_heap/mcu_side/mcu_mdriver.c:388-395 | the four `%d` fields of the header in order, suggested heap size, ids, `num_ops` and weight, and the text after them; nothing when one is missing |
| TraceFile.ParseTrace | projects/offload_heap/mcu_side/mcu_mdriver.c:367-462 | `read_trace`: the four header integers, then the request loop, with `num_ops` kept as read and not used to bound the loop |
| TraceFile.ScanLine | projects/offload_heap/mcu_side/mcu_mdriver.c:388-395 | `%d` reads back a header field from the start of its line |
| TraceFile.ReadWrittenTrace | projects/offload_heap/mcu_side/mcu_mdriver.c:367-462 | reading a written trace gives it back: the four header fields in order and every request with its kind, id and size |
| TraceChecker.SplitOn | projects/heap/tracechecker.py:10 | `split("\n")` gives at least one piece and no piece holds the separator |
| TraceChecker.SplitJoin | projects/heap/tracechecker.py:10 | splitting loses nothing: the pieces joined with the separator give the text back |
| TraceChecker.NonEmptyParts | projects/heap/tracechecker.py:10 | the filter keeps only non-empty pieces, no more than there were |
| TraceChecker.WordLength | projects/heap/tracechecker.py:13 | a word is a prefix of non-space characters, non-empty when the text starts with one |
| TraceChecker.Words | projects/heap/tracechecker.py:13 | `split()` gives non-empty words without white space |
| TraceChecker.Slot | projects/heap/tracechecker.py:19-34 | a list index in range, negative ones counting from the end, names a slot of the table |
| TraceChecker.Zeros | projects/heap/tracechecker.py:12 | `[0] * n` is `n` free slots, none for a negative count |
| TraceChecker.PyInt | projects/heap/tracechecker.py:12 | `int(s)` as the script calls it: an optionally signed run of decimal digits between white space, and `ValueError` (`None`) for anything else |
| TraceChecker.CheckOne | projects/heap/tracechecker.py:18-36 | one pass of the loop keeps the table's size |
| TraceChecker.Complaint | projects/heap/tracechecker.py:19-36 | the line printed about request `k`, if any, judged by the state its slot is in after the requests before it: an unknown action is named, `f` or `r` of a free slot and `a` of an allocated one are flagged, each with line `k + 4` |
| TraceChecker.Checked | projects/heap/tracechecker.py:18-36 | the loop keeps the table's size |
| TraceChecker.LastState | projects/heap/tracechecker.py:20-31 | a slot's account is 0 or 1 |
| TraceChecker.TableIsLastState | projects/heap/tracechecker.py:18-36 | the loop ends in an exception exactly when some `a`, `f` or `r` names an id outside the table; otherwise each slot is allocated exactly when the last `a` or `f` on it was an `a`, and the report is the complaints in request order |
| TraceChecker.ComplaintsPrefix | projects/heap/tracechecker.py:18-36 | the complaints about the first requests depend on those requests only |
| TraceChecker.Complaints | projects/heap/tracechecker.py:18-36 | the lines the loop prints about the first `m` requests, in request order; `ComplaintsPrefix` and `ComplaintLines` state their properties |
| TraceChecker.CrashSticks | projects/heap/tracechecker.py:18-36 | after an exception the later requests change nothing |
| TraceChecker.Fields | projects/heap/tracechecker.py:13-17 | the fields give one action and one id per request line |
| TraceChecker.CheckRequests | projects/heap/tracechecker.py:18-36 | the loop updating the table in place gives the complaints, the table and the exception `Checked` defines |
| TraceChecker.CheckFile | projects/heap/tracechecker.py:9-36 | the script on a file's text does what `Script` defines: the table sized from the second non-empty line, the requests from the fifth on, then the loop |
| TraceChecker.Script | projects/heap/tracechecker.py:9-36 | the whole script on the file's text: the table sized from the second non-empty line, the requests from the fifth on, a missing or bad field raising; `CheckFile` proves the loop in place computes it |
| TraceChecker.ComplaintLines | projects/heap/tracechecker.py:22-36 | each complaint names its request's position plus four, in increasing order, so no more complaints than requests |
| ExtractOutput.FirstQuote | projects/heap/extract_output.py:10 | the first double quote of the line, with none before it, or the end when there is none |
| ExtractOutput.AfterLastQuote | projects/heap/extract_output.py:10 | the characters after the last double quote, none of them a quote |
| ExtractOutput.QuotedSpan | projects/heap/extract_output.py:10 | the greedy `".*"` match spans from the first to the last quote, and there is no match exactly when the line has fewer than two quotes |
| ExtractOutput.StripSetSpec | projects/heap/extract_output.py:10 | `rstrip("\\n")` keeps a prefix, removes only `\` and `n` characters, and what it keeps ends in neither |
| ExtractOutput.StripSet | projects/heap/extract_output.py:10 | `rstrip("\\n")` as Python reads it: every trailing `\` or `n` character is removed; `StripSetSpec` states what it keeps |
| ExtractOutput.Extract | projects/heap/extract_output.py:10 | the script prints something for a matching line exactly when the search finds a span |
| ExtractOutput.WordEndingInNTruncated | projects/heap/extract_output.py:10 | as written, `$1 = "green"` prints `gree` |
| ExtractOutput.Escapes | projects/heap/extract_output.py:10 | a run of `n` escapes is `2n` characters |
| ExtractOutput.StripEscapesSpec | projects/heap/extract_output.py:10 | the intended strip removes a run of whole `\n` escapes and nothing else, and what it keeps does not end in one |
| ExtractOutput.StripEscapes | projects/heap/extract_output.py:10 | the strip the script evidently intends: only whole trailing `\n` escapes are removed; `StripEscapesSpec` states what it keeps |
| ExtractOutput.StripEscapesKeeps | projects/heap/extract_output.py:10 | text not ending in an escape is kept whole |
| ExtractOutput.ExtractIntended | projects/heap/extract_output.py:10 | with the intended strip, a matching line prints exactly when the search finds a span, and the span is the printed text followed by whole escapes |
| ExtractOutput.WordEndingInNKept | projects/heap/extract_output.py:10 | with the intended strip, `$1 = "green"` prints `green` |
| ExtractOutput.Matching | projects/heap/extract_output.py:9 | the selected lines all mention `$1` |
| ExtractOutput.ExtractLinesFiltered | projects/heap/extract_output.py:7-10 | the loop is the extraction of the lines that mention `$1`, the others skipped |
| ExtractOutput.ExtractLines | projects/heap/extract_output.py:7-10 | the script's loop over the lines: a line without `$1` is skipped, a matching line without a quoted span raises, and otherwise the stripped span is printed; `ExtractLinesFiltered` and `ExtractLinesFollowsMatches` state its properties |
| ExtractOutput.ExtractEach | projects/heap/extract_output.py:7-10 | the extracts of the matching lines, in order, up to the first one without a span; `ExtractEachSpec` states its properties |
| ExtractOutput.ExtractEachSpec | projects/heap/extract_output.py:7-10 | extraction goes one for one and in order: it stops exactly when some line has no span, and up to there each line gives the text the script prints for it, `Extract`'s strip as written |
| ExtractOutput.ExtractLinesFollowsMatches | projects/heap/extract_output.py:5-10 | the output follows the lines mentioning `$1` one for one and in order, each printed with the script's `rstrip` (`Extract`), and the run ends in an exception exactly when one of them has no quoted span |
| ExtractOutput.ExtractAll | projects/heap/extract_output.py:5-10 | the script on the whole transcript: the text split at newlines, then the loop over its lines |
| HeaderString.Escape | projects/offload_heap/rep_to_hdr.py:11 | the escaped text holds no newline |
| HeaderString.Header | projects/offload_heap/rep_to_hdr.py:9-12 | the header is the `#define TESTSTRING "` opening, the escaped trace and a closing quote, on one line |
| HeaderString.EscapeLength | projects/offload_heap/rep_to_hdr.py:11 | escaping grows the text by one character per newline |
| HeaderString.UnescapeEscape | projects/offload_heap/rep_to_hdr.py:9-12 | for a trace without backslashes, the C compiler's reading of the literal is the trace itself |
| HeaderString.BackslashNotEscaped | projects/offload_heap/rep_to_hdr.py:11 | backslashes are not escaped: a trace holding the characters `\n` compiles to a newline |

## Left out

- Memory contents: the bytes `memset` and `memcpy` write are not modelled, except that the validity replay takes the bytes read back after a `realloc` as a parameter. The copy in the device's `mm_realloc` and the fill of fresh blocks are therefore not modelled.
- Transport and hardware: the UART and its DMA, the MPU, timers, LEDs, `VERBOSE` printing, `list_print`, `mem_pagesize`, `malloc_error`, `var_print` and `loop()` are not modelled. A bogus request letter ends reading with `BogusType`.
- The device's stack pointer and the host's replies are parameters, so the device is proved against any reply sequence. Where a result depends on the host's answers, the host's behaviour is connected to the device through `Protocol`.
- Integer widths: requests, replies and the host's break tracker are 32-bit words, and the tracker wraps as `uint32_t` does. Elsewhere sizes and addresses are unbounded, and the device heap is required to end within the 32-bit address space. Overflow in the adjusted-size arithmetic (`size + DSIZE` near `SIZE_MAX`) is not modelled. The host's `mem_sbrk` and `mm_sbrk` take `int incr`; the model takes growths below 2^31 only, as the lines below say.
- `mcu_mlib.c:77-80`: the `incr < 0` branch of the device's `mem_sbrk` cannot be reached with the unsigned argument the device passes, and is not modelled.
- The `s` and `h` requests of `read_trace` (stack and heap stress tests) end reading with `StressTest` instead of running the tests.
- `sscanf` details:
  - a field that does not scan is modelled as `Malformed`, not as the stale values C would reuse;
  - a sign before a `%u` operand is not accepted;
  - the `MAXLINE` limit on a word's length is not modelled;
  - the `path` printed in the bogus-type message is not modelled.
- `read_trace`'s `num_ops` is read but does not bound the loop, as in the code. Sizing the `ops` array from it, and the overflow when the text holds more requests, are not modelled.
- ValidityCheck.EvalValid: requires `num_ops` to be at most the number of parsed requests. With a larger header count the driver reads `ops` entries that were never written, which is not modelled.
- ValidityCheck.EvalValid: requires a positive size for every `a` or `r` request that gets a non-NULL answer, mirroring `assert(size > 0)` in `add_range` (mcu_mdriver.c:283). A zero-size request answered with a block, such as `mm_realloc(p, 0)` returning `p`, aborts the C driver there; that abort is not modelled.
- ImplicitList.ReallocOutcome: requires the pointer to be NULL or the address of a live (allocated) block, and so do `ImplicitList.ShrinkAt` and `ImplicitList.ExtendAt`. `mm_realloc` of a block that was already freed is not modelled; on one, mm.c's `shrink_blk` and `extend_blk` would mark the block allocated again (`PACK(asize, 1)` at mm.c:191-192 and mm.c:211-212, `PACK(combined_size, 1)` at mm.c:216-217).
- `config.h`, which defines the `ALIGNMENT` that the driver's `IS_ALIGNED` uses (mcu_mdriver.c:35), is not part of this model. `MallocRanges.ALIGNMENT` takes it to be 8, as mm.c:29 and mcu_mlib.c:17 define it; mcu_mm.c:9 and pc_mlib.c:17 define an `ALIGNMENT` of 4 for their own use.
- HostServer.Server.Grow: a size of 2^31 or more, which the server passes to `mem_sbrk` as a negative `int`, is not modelled. The C code would move the break backwards and give `mm_sbrk` a block whose `size_t` size is sign-extended.
- HostBreak.BreakTracker.Sbrk: takes growths below 2^31 only, for the same reason.
- HostAllocator.Engine.Sbrk: takes growths below 2^31 only, for the same reason.
- `eval_mm_valid` replays against the allocator's answers given as a parameter, each with the heap bounds `mem_heap_lo` and `mem_heap_hi` report when that answer is checked. Calling the allocator under test, and the heap growth behind those bounds, are not modelled.
- Python details:
  - universal-newline translation, Unicode white space and digits, and underscores in `int()` are not modelled;
  - printing is modelled as the sequence of messages;
  - the scripts' file I/O and their "checking file" and "check finished" lines are not modelled.
- `mm.c`: `best_fit` is modelled and proved, though `find_fit` never calls it. `mem_sbrk` for `mm.c` is not part of this model beyond its contract: it moves the break or fails at the end of the words.
- `HostServer.Server.SetOrigin`: a repeated `mm_init` keeps the sentinel record's first address, as the code does.
- `HostAllocator.ReallocResult`: an address with no block is answered with 0 and no change. The code dereferences a NULL record there (see Findings).
- `AddressIndex.Dict.Destroy`: `dict_destroy` is modelled as replacing the table with an empty one. Releasing each chain node is not modelled.

## Findings

| source | as written | input that shows it | evidently intended | confidence | as-written member | corrected member |
|---|---|---|---|---|---|---|
| projects/offload_heap/pc_side/pc_mm.c:306-313 | `blk_search` returns NULL for an unknown address and `mm_realloc` reads `search_blk->size` before testing it | heap `[Block(8, 8, true)]`, `realloc(16, 8)` | answer 0 ("Realloc ptr not found") and change nothing | not executed | HostAllocator.ReallocAsWritten, HostProperties.ReallocUnknownAddress | HostAllocator.ReallocResult, HostProperties.ReallocGuard |
| projects/offload_heap/mcu_side/mcu_mm.c:83-90 | the device sizes the growth with 4-byte words and a 4-byte overhead, less than the host's 8-byte-aligned adjusted size | host heap `[Block(8, 4096, true)]`, `malloc(4097)`: the device grows by 4104 bytes, the host needs a 4112-byte block, and the retry answers NULL | grow by at least the host's adjusted size, so the retry succeeds | not executed | DeviceClient.GrowBytesAsWritten, DeviceClient.RetryRefusedAsWritten | DeviceClient.GrowBytes, DeviceClient.RetryFits |
| projects/offload_heap/mcu_side/mcu_mlib.c:111-114 | `mem_heap_hi` returns `mem_brk`, the first byte after the heap | any non-empty heap: start 8, size 16 gives 24, outside the heap | the last heap byte, `mem_brk - 1`, as the comment says and the host's copy does | not executed | DeviceBreak.Break.HeapHiAsWritten | DeviceBreak.Break.HeapHi |
| projects/heap/extract_output.py:10 | `rstrip("\\n")` strips every trailing `\` and `n` character | the line `$1 = "green"` prints `gree` | strip only trailing `\n` escapes | not executed | ExtractOutput.Extract, ExtractOutput.WordEndingInNTruncated | ExtractOutput.ExtractIntended, ExtractOutput.WordEndingInNKept |
