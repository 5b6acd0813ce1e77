# Heap-block allocator model

A Dafny model of the block engine of a small user-space `malloc`/`free`
(`src/mem.c`). The allocator keeps one list of blocks, each a header
followed by its contents, carved from page-aligned regions mapped from the
operating system. Allocation is first-fit. While it searches, it lazily
merges free, address-adjacent neighbours, splits an oversized block it
finds, and maps a new region when it reaches the end of the list. Freeing
marks the block free and merges it forward.

The heap is a sequence of `Block(addr, cap, free)`. A block's `next`
pointer is the following element of the sequence, and the last block's
`next` is NULL. Addresses are natural numbers, and 0 is NULL. Every
pointer-mutating C function becomes a pure function from heap to heap.

The modules follow the sections of `mem.c`:

| file | module | models |
|---|---|---|
| `optional.dfy` | `Optional` | values that may be absent, such as an mmap outcome or a missing block |
| `sizes.dfy` | `Sizes` | header overhead, the capacity/size conversions, page rounding, region sizing |
| `blocks.dfy` | `Blocks` | the block and heap types, `block_after`, `block_init`, `blocks_continuous` (`BlocksContinuous`), `mergeable` (`Mergeable`), `block_is_big_enough` with the free check (`Fits`), the heap invariant (`Valid`: non-NULL, minimum capacity, no two blocks share a byte), byte accounting, used blocks |
| `merge.dfy` | `Merge` | `try_merge_with_next` and the forward-coalescing loop of `_free` |
| `split.dfy` | `Split` | `block_splittable`, `split_if_too_big` (corrected and as written) |
| `search.dfy` | `Searching` | `find_good_or_last`: a recursive reference definition, an iterative method proved equal to it, and the code as written |
| `region.dfy` | `Regions` | `region_actual_size`, `alloc_region` (corrected and as written), `heap_init` |
| `alloc.dfy` | `Alloc` | `try_memalloc_existing`, `grow_heap`, `memalloc` (corrected and as written), `_malloc` |
| `free.dfy` | `Release` | `block_get_header`, `_free`, and the malloc/free round trip |

The operating system enters only through parameters. Each call to mmap is
an `Option<nat>`: `None` is `MAP_FAILED`, and `Some(a)` is the address
returned, which may be NULL. `alloc_region` gets two of them, one per
attempt. Where validity is proved, the clearance of a new mapping from the heap is stated
as a precondition (`FreshRegion`).

Constants whose definitions live in `mem_internals.h` are fixed as follows;
`mem_internals.h` is not part of this model:
- `H = 17` is `offsetof(struct block_header, contents)`, for an 8-byte `next` pointer, an 8-byte capacity and a one-byte `is_free`.
- `RegionMinSize = 2 * 4096`.
- `PageSize = 4096` stands for `getpagesize()`.

`BlockMinCapacity = 24` is `BLOCK_MIN_CAPACITY` from `mem.c` line 46.

Where each as-written defect (see Findings) is fixed, the model makes these choices:
- **Search order.** The corrected search keeps the code's order of checks. At a block it merges the successor whenever the two are mergeable and checks the block after each merge, so it stays on the block until no merge applies. Only then does it check the block once more, and report the end or move on to the successor. It does not coalesce the whole list before checking.
- **Corrupted result.** The code never produces `BSR_CORRUPTED`. The model returns `Corrupted` exactly when the search starts outside the heap, that is, when the heap is empty.
- **Growing the heap.** Growing is followed by `try_memalloc_existing` from the old last block, as the comment on that function suggests. When the new region is adjacent to a free last block, that block absorbs the region and serves the query.
- **Region size.** `alloc_region` is corrected to size the region for the query (`region_actual_size(size_from_capacity(query))`). `heap_init`, `grow_heap` and everything built on them (`Regions.HeapInit`, `Alloc.GrowHeap`, `Alloc.GrowAndRetry`, `Alloc.Memalloc`, `Alloc.MemallocAsWritten`, `Alloc.HeapInitServes`) use the corrected version. Their statements that the new block fits the initial size or the query hold only for it. The as-written region is `Regions.AllocRegionAsWritten`.
- **As-written members.** Each as-written member models one defective passage and uses the corrected version of every other function, so that it shows that one defect alone. `Alloc.TryMemallocExistingAsWritten` is line 154 as written on the corrected search and split. `Alloc.MemallocAsWritten` is lines 180-183 as written on the corrected `try_memalloc_existing` and `grow_heap`, and hence on the corrected `alloc_region`. `Searching.FindAsWritten`, `Split.SplitAsWritten` and `Regions.AllocRegionAsWritten` stand on their own.
- **Split threshold.** The split threshold uses `max(BLOCK_MIN_CAPACITY, query)`, as the code does (line 85), not the bare query.

## Model

| member | source | states |
|---|---|---|
| Sizes.SizeFromCapacity | src/mem.c:19 | a block's size is its capacity plus the header, and converting it back gives the capacity |
| Sizes.CapacityFromSize | src/mem.c:21 | a block's capacity is its size less the H-byte header |
| Sizes.CapacitySizeRoundTrip | src/mem.c:19-21 | converting a capacity to a size and back gives the capacity, and the same holds for a size of at least H |
| Sizes.PagesCount | src/mem.c:25 | the page count is the ceiling of mem / page size: enough pages to cover mem, and one fewer would not be |
| Sizes.RoundPages | src/mem.c:27 | the rounded size is a page multiple in [mem, mem + page size) |
| Sizes.RoundPagesIsLeast | src/mem.c:25-27 | no page multiple covering mem is smaller than the rounded size |
| Sizes.RegionActualSize | src/mem.c:37 | the region size is a page multiple, covers the query and is at least RegionMinSize, being either the page rounding or RegionMinSize |
| Sizes.RegionActualSizeIsLeast | src/mem.c:37 | no page multiple covering both the query and RegionMinSize is smaller |
| Blocks.BlockInit | src/mem.c:29-35 | a fresh header is free, at the given address, and its block spans exactly the given size |
| Blocks.BlockAfter | src/mem.c:101-103 | the first address past a block is its address plus its size, header included |
| Blocks.MarkUsed | src/mem.c:178 | handing out block i changes only its free flag, which becomes false; every other block and every address and capacity is kept |
| Blocks.MarkFree | src/mem.c:201 | giving back block i changes only its free flag, which becomes true; every other block and every address and capacity is kept |
| Blocks.MarkUsedUsed | src/mem.c:178 | marking a free block used adds exactly that block to the used blocks |
| Blocks.MarkUsedKeeps | src/mem.c:178 | marking a block used changes no byte count and keeps the heap valid and clear of any block it was clear of |
| Merge.TryMergeWithNext | src/mem.c:111-121 | a merge happens iff there is a successor, both are free and the successor starts at block_after; the merged capacity is cap + next.cap + H, it ends where the successor ended, the rest of the list is the same, and bytes, used blocks, validity and clearance are kept |
| Merge.MergeAtKeeps | src/mem.c:115-121 | absorbing the successor keeps the byte count, the used blocks, validity and clearance of outside blocks |
| Merge.Coalesce | src/mem.c:202 | repeated merging keeps the blocks before the merged one, keeps its address and free flag, never shrinks it, and stops only when no merge applies |
| Merge.CoalesceKeeps | src/mem.c:202 | coalescing keeps the byte count, the used blocks, validity and clearance of outside blocks |
| Merge.CoalesceCovers | src/mem.c:202 | the coalesced block ends where the last absorbed block ended |
| Merge.CoalesceKeepsTail | src/mem.c:202 | the blocks after the absorbed run are the old ones, shifted by the number absorbed |
| Merge.CoalesceIdempotent | src/mem.c:202 | coalescing an already-coalesced block changes nothing |
| Split.SplitIfTooBig | src/mem.c:79-96 | a split happens iff the block is free and has room for max(24, q), a header and 24 more bytes; the front block is shrunk to exactly max(24, q), the remainder is a free block of at least 24 bytes that starts where the front ends and ends where the old block ended, the rest of the list is kept, and no byte is gained or lost |
| Split.SplitKeepsUsed | src/mem.c:84-96 | splitting touches no used block |
| Split.SplitKeepsValid | src/mem.c:84-96 | splitting keeps the heap valid |
| Split.SplitAvoids | src/mem.c:84-96 | the split heap stays clear of any block the heap was clear of, since both halves lie inside the old block |
| Split.SplitMergeRoundTrip | src/mem.c:84-121 | after a split the two halves are mergeable, and merging them gives back the heap before the split |
| Split.SplitAsWritten | src/mem.c:84-96 | the code as written splits on the same condition but leaves the front block whole and inserts a block at block_after of the unshrunk block, as a new list entry (see Left out for an address-adjacent successor) |
| Split.SplitAsWrittenMisplaces | src/mem.c:87-92 | on every split, the as-written result keeps the old block whole and puts the new header outside it, onto an address-adjacent successor's header |
| Split.SplitAsWrittenGainsBytes | src/mem.c:87-91 | on every split, the as-written heap of the sequence model gains SizeOf(block) - q - H bytes, and the remainder is sized from q rather than max(24, q) |
| Split.SplitAsWrittenOverlaps | src/mem.c:87-91 | on a valid two-block heap the as-written split produces overlapping blocks, while the corrected split stays valid |
| Searching.MergeKeepsAnyFits | src/mem.c:135-138 | merging at a block keeps some fitting block available from that block on |
| Searching.SearchKeepsTail | src/mem.c:134-147 | the search changes the heap only by merges: the blocks after the found one are the old ones, shifted down by the number absorbed |
| Searching.Search | src/mem.c:134-147 | the search keeps the blocks before its start, finds only a free block of at least sz bytes, returns the last block only when none fits, leaves every block it passed unfit and unmergeable, always finds a fit when one exists, and reports Corrupted exactly when the start is outside the heap |
| Searching.PassedOverSameFront | src/mem.c:134-147 | whether the search passes over the blocks before b depends only on those blocks and on b's address and free flag |
| Searching.SearchSkips | src/mem.c:134-147 | conversely to Search, on a heap where every block before b is too small and unmergeable and b fits and cannot merge, the search returns b and changes nothing |
| Searching.SearchKeeps | src/mem.c:134-147 | the search keeps the byte count, the used blocks and validity |
| Searching.SearchAvoids | src/mem.c:134-147 | the searched heap stays clear of any block the heap was clear of |
| Searching.FindGoodOrLast | src/mem.c:134-147 | the iterative search returns the same heap and result as the reference search: the first fitting block from the start, or the last block with nothing fitting from the start |
| Searching.FindAsWritten | src/mem.c:134-147 | the code as written, where falling off the end of the function is a missing result |
| Searching.FindAsWrittenFoundIsStart | src/mem.c:134-147 | the as-written search reports a found block only at the block it was called on, since every recursive result is discarded |
| Searching.FreshHeapFallsOffEnd | src/mem.c:135-147 | on any one-block heap, as after heap_init, the as-written search returns nothing; the corrected one finds the block or reports it as the end |
| Searching.DiscardedResult | src/mem.c:142-143 | on a valid four-block heap the as-written search returns nothing, although it merged a block that fits the query |
| Searching.DiscardedResultCorrected | src/mem.c:142-143 | on the same heap the corrected search finds that block |
| Regions.MapRegion | src/mem.c:53-60 | the region is invalid iff both mapping attempts fail or return NULL; otherwise it is at the first successful address and records whether the first attempt succeeded |
| Regions.AllocRegion | src/mem.c:50-65 | a mapped region is a page multiple of at least RegionMinSize and query + H bytes, and its initial block fits the query and is valid |
| Regions.AllocRegionIsLeast | src/mem.c:37 | the corrected region is the smallest page multiple holding the header, the query and RegionMinSize |
| Regions.AllocRegionAsWritten | src/mem.c:50-65 | the code as written maps at the same address, and a mapped region is RegionMinSize bytes whatever the query |
| Regions.AllocRegionAsWrittenTooSmall | src/mem.c:52 | for a query above RegionMinSize - H, the as-written region's block is too small for it, while the corrected region's block fits |
| Regions.HeapInit | src/mem.c:69-74 | on the corrected alloc_region, heap_init returns NULL iff mapping fails twice; otherwise it returns the mapped address and a valid one-block heap, with nothing in use, whose block fits the initial size |
| Alloc.TryMemallocExisting | src/mem.c:151-156 | the result is the search's; a found block fits the query and, after splitting, either has exactly max(24, q) capacity or is too small to split; the end is reported only when nothing from the start fits |
| Alloc.TryMemallocExistingKeepsFront | src/mem.c:151-156 | allocating in place keeps every block before the start |
| Alloc.TryMemallocExistingKeepsTail | src/mem.c:151-156 | after the found block come the split's remainder, if any, and then the old blocks, shifted down by the number absorbed |
| Alloc.TryMemallocExistingKeeps | src/mem.c:151-156 | allocating in place keeps the byte count, the used blocks, validity and clearance of outside blocks |
| Alloc.TryMemallocExistingAsWritten | src/mem.c:151-156 | line 154 as written, on the corrected search and split: the start block is split rather than the found one |
| Alloc.AsWrittenLeavesFoundBlockWhole | src/mem.c:152-154 | whenever the found block is past the start, the as-written version leaves the heap exactly as the search left it, with no split |
| Alloc.AsWrittenSplitsWrongBlock | src/mem.c:154 | with a used first block and a large free second block, line 154 as written on the corrected search hands out the large block whole; the corrected one splits it to the query |
| Alloc.AsWrittenSearchMissesSplitExample | src/mem.c:134-154 | on that heap the as-written search falls off its end, so line 154 is not reached as the code stands |
| Alloc.GrowHeap | src/mem.c:159-168 | on the corrected alloc_region, growing fails iff both mappings fail, and then leaves the heap unchanged; otherwise it links a block at the mapped address that fits the query right after `last`, keeping the blocks up to `last` |
| Alloc.GrowHeapKeeps | src/mem.c:159-168 | growing at the last block appends the region's block, adds exactly the region's bytes, adds no used block, and keeps the heap valid when the region is clear of it |
| Alloc.GrowAndRetry | src/mem.c:180-183 | after growing, the block handed out is used, fits the query and lies at or after the old last block |
| Alloc.GrowAndRetryValid | src/mem.c:159-183 | growing a valid heap by a region clear of it and retrying keeps it valid |
| Alloc.GrowAndRetryUsed | src/mem.c:159-183 | growing and retrying hands out exactly one block no caller held before, or nothing |
| Alloc.GrowAdjacentAbsorbs | src/mem.c:159-168 | when the region is mapped right after a free last block, the retry absorbs it and hands out that last block at its old address |
| Alloc.GrowAndRetryPassedOver | src/mem.c:159-183 | the block handed out after growth is preceded only by blocks a search from the start passes over |
| Alloc.GrowAndRetryFails | src/mem.c:180-183 | growing and retrying fails iff both mappings fail |
| Alloc.Memalloc | src/mem.c:171-186 | a returned block is in the heap, marked used, and fits the query |
| Alloc.MemallocFails | src/mem.c:171-186 | memalloc fails iff the heap is empty, or the search reaches the end and both mappings fail |
| Alloc.MemallocAsWritten | src/mem.c:171-186 | lines 180-183 as written, on the corrected try_memalloc_existing and grow_heap: on reaching the end the heap grows and NULL is returned |
| Alloc.MemallocAsWrittenDropsGrowth | src/mem.c:180-183 | whenever the search reaches the end and mapping succeeds, the as-written memalloc returns NULL with a heap one block longer, while the corrected one succeeds |
| Alloc.MemallocBytes | src/mem.c:171-186 | memalloc adds no byte unless it grows the heap, and then adds exactly the region's size |
| Alloc.MemallocValid | src/mem.c:171-186 | memalloc keeps the heap valid when a new region is clear of it |
| Alloc.MemallocUsed | src/mem.c:171-186 | a successful memalloc adds exactly one used block that no caller held before; a failed one changes no used block |
| Alloc.MemallocFound | src/mem.c:171-192 | when the search from the start finds a block, memalloc hands out that block, and _malloc returns its contents address |
| Alloc.MemallocPassedOver | src/mem.c:171-186 | the block memalloc hands out is preceded only by blocks a search from the start passes over |
| Alloc.MemallocMinCapacity | src/mem.c:84-96 | in a valid heap every block handed out has capacity at least max(24, q), so even a request for 0 bytes gets 24 |
| Alloc.HeapInitServes | src/mem.c:69-74 | on the corrected alloc_region, a heap fresh from heap_init serves a first request of up to its initial size from its own block, at the region's start plus H |
| Alloc.Malloc | src/mem.c:188-192 | _malloc returns NULL iff memalloc fails, and otherwise the contents address of the block memalloc handed out, which is at least H |
| Release.BlockGetHeader | src/mem.c:194-196 | the header lies exactly H bytes before the contents address |
| Release.HeaderContentsRoundTrip | src/mem.c:194-196 | block_get_header inverts the contents address, and vice versa |
| Release.FindHeaderValid | src/mem.c:200 | in a valid heap a block's header address designates that block and no other |
| Release.Free | src/mem.c:198-203 | freeing NULL changes nothing; otherwise the block keeps its address, becomes free, never shrinks, absorbs every mergeable successor, and the blocks before it are unchanged |
| Release.MarkFreeUsed | src/mem.c:201 | in a valid heap, marking a block free removes exactly that block from the used blocks |
| Release.FreeKeeps | src/mem.c:198-203 | freeing keeps the byte count and validity, and removes exactly the freed block from the used blocks |
| Release.MallocFreeRoundTrip | src/mem.c:188-203 | freeing what _malloc returned is allowed, restores exactly the previously used blocks, and leaves a valid heap |
| Release.MallocFreeMallocReuse | src/mem.c:188-203 | freeing what _malloc returned and asking again for the same size returns the same address, whatever the second mapping outcome |
| Release.FreeIdle | src/mem.c:199-202 | freeing NULL, or a block already free with no mergeable successor, changes nothing |

## Left out

- Memory mapping and `getpagesize()`: each mmap outcome is a parameter, and the page size is the constant 4096.
- The address hint passed to mmap (`HEAP_START`, `block_after(last)`) is left out: where a region lands is whatever the mapping outcome says. Adjacency to the old last block then follows from the addresses.
- The `extends` assignment in `grow_heap` (lines 163-164) writes a local copy that is then discarded, so it has no effect.
- The `debug_block` and `debug` declarations (lines 15-17) produce diagnostic output only.
- `src/test.c` and `src/test.h` are a test driver.
- 64-bit wrap-around of `size_t` and of pointer arithmetic is not modelled: sizes and addresses are unbounded naturals.
- Release.Free: freeing a pointer that is not the contents address of a heap block is undefined behaviour in the source. The model requires the pointer to be NULL or such an address (`Freeable`).
- Alloc.Memalloc: the heap is taken to start at its first block. `_malloc` passes `HEAP_START`, and that `heap_init` actually mapped there is not modelled.
- Alloc.MemallocValid, Alloc.MemallocUsed, Alloc.MemallocMinCapacity, Release.MallocFreeRoundTrip, Release.MallocFreeMallocReuse: these need the freshly mapped region to be clear of the existing heap (`FreshRegion`), which an mmap without `MAP_FIXED` promises but which is not modelled.
- Split.SplitAsWritten: a list entry cannot be written over another entry, and a sequence cannot be cyclic. When the block's successor starts at `block_after(block)`, the C overwrites that successor's header with one whose `next` points to itself. The model instead keeps the successor and inserts a second entry at the same address (`Split.SplitAsWrittenMisplaces`, `Split.SplitAsWrittenOverlaps`). A header written past the end of the mapped region is likewise only a new entry here.
- Split.SplitAsWrittenGainsBytes: the bytes gained are those of the sequence model. When the new header overwrites an adjacent successor, the C instead loses that successor and its list becomes cyclic, for the reason given for Split.SplitAsWritten.
- Searching.Search: there is no detection of cyclic or malformed lists. The sequence representation cannot express them, so `Corrupted` is only the "start outside the heap" case.
- Concurrency: the allocator is single-threaded global state.

## Findings

| source | as written | input that shows it | evidently intended | confidence | as-written member | corrected member |
|---|---|---|---|---|---|---|
| src/mem.c:134-147 | the loop runs only while a merge succeeds, so when the first merge fails the function ends without a return | any one-block heap, as right after heap_init | when no merge applies, check the block and then report the end or move on | not executed | Searching.FreshHeapFallsOffEnd | Searching.Search |
| src/mem.c:142-143 | the recursive call on the successor has its result discarded | blocks (1000,24,free), (1041,24,free), (5000,24,free), (5041,100,free) and a query of 100 | keep searching past the block rather than discard what the search further on finds: merge at the block and check it after each merge, move on to the successor once no merge applies, and return what the search from there finds | not executed | Searching.DiscardedResult | Searching.DiscardedResultCorrected |
| src/mem.c:154 | `split_if_too_big(block, query)` splits the start block, not the found one. This is latent: as written, the search reports a found block only at its start block (`Searching.FindAsWrittenFoundIsStart`), so the two coincide; the defect shows once the search of lines 134-147 is corrected | with the corrected search: a used 24-byte block followed by a free 1000-byte block and a query of 30 (as written, the search falls off its end on this heap, `Alloc.AsWrittenSearchMissesSplitExample`) | split `result.block` | not executed | Alloc.AsWrittenSplitsWrongBlock | Alloc.TryMemallocExisting |
| src/mem.c:87-91 | the remainder is sized from `query` rather than `capacity_query`, the found block keeps its whole capacity, and the new header is written at `block_after(block)`, past the block's end | free (4096,100) followed by used (4213,100), query 10: the new header is written over the used block's header, so the used block disappears, and the new header's `next` is its own address, so the list becomes cyclic | shrink the block to `capacity_query` and write the new header at its new end | not executed | Split.SplitAsWrittenOverlaps | Split.SplitIfTooBig |
| src/mem.c:52 | the region is sized from `offsetof(struct block_header, contents)`, not from the query | a query of 100000 gets a region of 8192 bytes | `region_actual_size(size_from_capacity(query))` | not executed | Regions.AllocRegionAsWrittenTooSmall | Regions.AllocRegion |
| src/mem.c:180-183 | after `grow_heap` the switch falls through to `return NULL` | any heap in which nothing fits, with a successful mapping | allocate from the grown heap and return that block | not executed | Alloc.MemallocAsWrittenDropsGrowth | Alloc.Memalloc |
