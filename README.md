# mm.c — a boundary-tag allocator with an explicit free list, in Dafny

`mm.c` is a malloc package for the CS:APP malloc lab. Its heap is one region that grows only at the top, through memlib's `mem_sbrk`.

- **Blocks.** The region is cut into blocks. Each block has a 4-byte header and a 4-byte footer. Each tag packs the block's byte size (a multiple of 8) with an allocated bit.
- **The free list.** Free blocks are also on a doubly linked list. Its links are the first two payload words (`NEXT_FREE`, `PREV_FREE`). `free_listp` is the list head.
- **The sentinel.** `mm_init` lays down a 16-byte *allocated* block in front of the first real block. The list ends there, and `find_fit` stops at the first block whose allocated bit is set.
- **Allocation.** `mm_malloc` rounds the request to a block size. It takes the first free block that fits (`find_fit`) and `place`s the request there. `place` splits off the rest as a free block when that rest is at least 16 bytes. On a miss, `mm_malloc` first grows the heap (`extend_heap`). In the model it grows by the larger of the block size and 4096 bytes; the code's `four` heuristic, which is not modelled (see "## Left out"), can grow it by 1024 bytes instead.
- **Release.** `mm_free` tags the block free and hands it to `coalesce`. `coalesce` merges the block with whichever address neighbours are free and pushes the merged block on the front of the list (`add_free`).
- **Reallocation.** `mm_realloc` keeps the block, shrinks it by exactly 16 bytes, grows it into a free predecessor or successor, or falls back to allocate, then free.

## How the model is built

- **`codec.dfy`, module `Codec`.** The tag word (`Word`, a 32-bit unsigned newtype). `PACK`, `GET_SIZE` and `GET_ALLOC` are written as bit operations. Also here: the size rounding of `mm_malloc` and `mm_realloc`, and `extend_heap`'s even-word rounding.
- **`layout.dfy`, module `Layout`.** Addresses are 4-byte word offsets into the heap, so `NULL` is word 0, the alignment pad. The geometry macros live here. `Tiled(m, brk, blocks)` says the heap words `m` are cut into the blocks listed in `blocks`, in address order, from the first block after the sentinel up to the epilogue header at `brk - 1`.
- **`freelist.dfy`, module `FreeList`.** The link words and `Linked(m, free, head)`. Every member's `NEXT_FREE` and `PREV_FREE` words name its neighbours in the ghost sequence `free`. The sentinel's `PREV_FREE` names the last member. Also here: the words `remove_from_free` and `add_free` write, and their effect on the list.
- **`heap.dfy`, module `Heap`.** The heap invariant `State`:
  - the heap is tiled;
  - the list is linked;
  - a block is on the list exactly when it is tagged free, except for the set `pending` of blocks that `coalesce` or `place` are about to link.

  The file proves how each kind of write (unlink, push, merge a run of blocks, split, extend) carries `State` along. It also gives `coalesce`'s four cases a closed form.
- **`operations.dfy`, module `Operations`.** The same for `place`, `mm_free` and `extend_heap`. `KeepsAllocated` says that an operation leaves every other allocated block where it was, with the same tags.
- **`resize.dfy`, module `Resize`.** The in-place paths of `mm_realloc`, and the as-written extra `place` of its fallback (see Findings).
- **`mm.dfy`, module `Mm`.** The allocator itself, as the class `Allocator`:
  - `mem` is memlib's fixed word array, and `brk` is its break;
  - `heapList` and `freeList` are the globals `heap_listp` and `free_listp`;
  - the ghost fields `blocks` and `free` mirror the layout and the list.

  Every function of `mm.c` is a method that writes `mem` word by word, as the C code does. Each method states its new words as a function of the old ones, and the ghost lemmas turn that into the invariant `Valid()`.

## Model

| member | source | states |
|---|---|---|
| Codec.Pack | mm.c:44 | PACK of an aligned size and a 0/1 bit is their sum, and GET_SIZE and GET_ALLOC give back exactly that size and bit |
| Codec.UnpackTag | mm.c:44-52 | a word holding an aligned size plus a 0/1 bit unpacks to that size and that bit |
| Codec.SizeClearsLowBits | mm.c:51 | `w & ~0x7` on a 32-bit word is `w` with its three low bits cleared |
| Codec.GetAlloc | mm.c:52 | `w & 0x1` is the low bit of the word |
| Codec.AdjustSize | mm.c:128-133 | the adjusted block size is a multiple of 8, at least 16, at least the request plus 8, below the request plus 16, and the least value with these properties |
| Codec.AdjustSizeAsWrittenAgrees | mm.c:128-133 | in 32-bit `size_t` arithmetic the rounding agrees with the unbounded one for every request below 2^32 - 15 |
| Codec.AdjustSizeAsWrittenWraps | mm.c:132 | in 32-bit arithmetic a request of 2^32 - 8 bytes rounds to a 0-byte block |
| Codec.Int32 | mm.c:204 | the `int` an integer wraps to lies in the 32-bit signed range and differs from it by a multiple of 2^32 |
| Codec.CastDiffExact | mm.c:204 | `(int)oldsize - (int)newsize` under wrap-around equals `oldsize - newsize` whenever that fits an `int` |
| Codec.CastDiffOverflows | mm.c:196-204 | a request of 2^31 - 1 bytes rounds to a new size whose cast is negative, the subtraction overflows an `int`, and the wrapped difference is still exact |
| Codec.ExtendBytes | mm.c:295 | extend_heap's byte count is a multiple of 8, the word count times 4 when that is even, and less than 8 bytes more otherwise |
| Layout.SizeSpan | mm.c:59 | a block's size in bytes is the distance to the next block of the layout (or to the epilogue) |
| Layout.NextOf | mm.c:59 | NEXT_BLKP of a block is the next block of the layout; after the last block it reaches the epilogue, a 0-byte allocated tag |
| Layout.PrevOf | mm.c:60 | PREV_BLKP, found through the footer before bp, is the previous block of the layout, or the allocated sentinel for the first block; the alloc bit in that footer is the block's own |
| Layout.DummyTags | mm.c:90-92 | the sentinel mm_init writes is a 16-byte allocated block, and it is PREV_BLKP of the first block |
| Layout.BlockFacts | mm.c:54-60 | every block of a tiled heap is well formed, at least 16 bytes, with footer equal to header, and no two blocks overlap |
| Layout.SplitBlock | mm.c:276-281 | writing the four tags of a split leaves a tiled heap with one more block, the two halves of the sizes asked for, and every other block's tags unchanged |
| Layout.MergeRun | mm.c:314-336 | writing one header and one footer over a run of adjacent blocks leaves a tiled heap where the run is one block of their total size, the rest unchanged |
| Layout.ExtendTiled | mm.c:301-303 | the new block's tags and the new epilogue header extend the tiling by one block at the old break |
| FreeList.UnlinkWordsAt | mm.c:348-358 | remove_from_free on the k-th member reads that member's true neighbours and moves free_listp to its successor exactly when k is 0 |
| FreeList.Unlink | mm.c:348-358 | after remove_from_free on the k-th member, the list is linked as the old list without that member, the others in their old order |
| FreeList.Push | mm.c:341-346 | after add_free, the list is linked as bp followed by the old list, with bp the head |
| FreeList.LinkedFrame | mm.c:62-63 | writes to words that are no member's link word and not the sentinel's PREV_FREE keep the list as it is |
| Heap.Unlinking | mm.c:348-358 | remove_from_free on a list member keeps the heap invariant with that member now tagged free but off the list, and changes no tag |
| Heap.Pushing | mm.c:341-346 | add_free of a free block that is off the list puts it at the head, keeps the heap invariant and changes no tag |
| Heap.HeapMerge | mm.c:314-336 | tagging a run of blocks with no list member inside as one block keeps the heap invariant, with the merged block pending when tagged free |
| Heap.HeapSplit | mm.c:276-281 | splitting a block that is off the list gives an allocated front part of the asked size and a free rest that is pending |
| Heap.HeapExtend | mm.c:301-303 | extend_heap's writes add one free block at the old break, pending, and keep the rest of the heap invariant |
| Heap.FirstFit | mm.c:255-264 | the index find_fit stops at: the first member of at least `asize` bytes, or the list length when none fits |
| Heap.MergedRun | mm.c:309-339 | the merged block coalesce produces covers exactly bp and its absorbed free neighbours, and its size is the sum of theirs |
| Heap.MergedFacts | mm.c:309-339 | the merged block starts at or before bp, is aligned, is at least 16 bytes and fits below the break |
| Heap.CoalesceReads | mm.c:310-312 | coalesce's reads find the true neighbours: the previous block through bp's footer-before, its alloc bit through its own footer, the next block through bp's header |
| Heap.CoalesceNextCase | mm.c:314-319 | with only the successor free, unlinking it, tagging bp over both and pushing bp gives the coalesce outcome |
| Heap.CoalescePrevCase | mm.c:321-327 | with only the predecessor free, the merged block starts at the predecessor and the result is the coalesce outcome |
| Heap.CoalesceBothCase | mm.c:329-336 | with both neighbours free, unlinking both and tagging the predecessor over all three gives the coalesce outcome |
| Heap.CoalesceAloneCase | mm.c:337 | with neither neighbour free, pushing bp alone gives the coalesce outcome |
| Heap.CoalesceCases | mm.c:309-339 | in every case coalesce leaves the heap invariant, the merged block tagged free at the head of the list, the absorbed neighbours off the list and out of the layout, and every other block unchanged |
| Operations.Retagging | mm.c:166-169 | rewriting a block's tags with its own size and a new alloc bit keeps the heap invariant, the block pending when it is now free |
| Operations.Freeing | mm.c:166-169 | mm_free's retagging of an allocated block keeps its size, makes it free and pending, and changes no other block |
| Operations.PlaceWhole | mm.c:284-287 | place without a split unlinks bp and tags it allocated at its whole size; the heap invariant holds and no other allocated block changes |
| Operations.PlaceSplit | mm.c:274-282 | place with a split unlinks bp, allocates its first `asize` bytes and leaves the rest a free block pending for coalesce |
| Operations.PlaceSplitTags | mm.c:276-281 | that split leaves bp allocated at exactly `asize` bytes, the rest a new block, and every other allocated block unchanged |
| Operations.Splitting | mm.c:276-281 | the split of a block that is off the list keeps the heap invariant with the free rest pending |
| Operations.SplittingTags | mm.c:276-281 | after the split, bp is allocated at `a` bytes, the rest is a free block of the remaining size right behind it, and other blocks keep their tags |
| Operations.CoalesceKeeps | mm.c:309-339 | coalesce leaves every allocated block other than bp in the layout with its tags |
| Operations.CoalesceReleases | mm.c:164-171 | after mm_free's coalesce, bp is no longer an allocated block |
| Operations.FreeKeeps | mm.c:164-171 | mm_free changes no allocated block other than bp |
| Operations.FreeWasNotAllocated | mm.c:143-145 | a block found on the free list was not an allocated block before, so mm_malloc never hands out a block that is in use |
| Operations.Extending | mm.c:290-307 | extend_heap's writes give a heap with one more free block of the requested size at the old break, pending, and no allocated block changed |
| Operations.InitState | mm.c:79-94 | the eight words mm_init writes form a heap with no blocks and an empty list whose head is the sentinel |
| Operations.LoneBlock | mm.c:97 | the first chunk's coalesce finds neither neighbour free and keeps the block as it is |
| Resize.Shrinking | mm.c:210-217 | the shrink by exactly 16 bytes leaves bp at the new size and pushes a 16-byte free block behind it, keeping the heap invariant |
| Resize.ShrinkingTags | mm.c:210-217 | after that shrink bp is allocated at exactly the new size and no other allocated block changes |
| Resize.GrowReads | mm.c:223-234 | realloc's two tests read the true neighbours, through bp's footer-before and header, and each holds exactly when that neighbour is free and the two blocks together make room |
| Resize.AbsorbRun | mm.c:223-239 | bp and the free neighbour it grows into are one run of the layout, starting at the lower of the two, of their total size |
| Resize.Absorbing | mm.c:223-239 | growing into a free neighbour unlinks it and tags one allocated block over both at the lower address; the heap invariant holds, the layout loses the higher block, and no other allocated block changes |
| Resize.AbsorbSteps | mm.c:225-228 | the unlink and the two tag writes of that growth stay inside the heap |
| Resize.ExtraPlaceLosesFree | mm.c:241-246 | the extra place after the fallback's mm_malloc unlinks the free block mm_malloc just pushed instead: that block stays tagged free but is no longer on the list free_listp leads to |
| Resize.SplitHeadLeavesStaleLinks | mm.c:143-144 | when mm_malloc places the list head with a split and the block after it is allocated, coalesce pushes the remainder alone, and the placed block still holds a NULL PREV_FREE and the remainder's successor: the premises of ExtraPlaceLosesFree |
| Resize.SplitHeadThenExtraPlace | mm.c:241-246 | after such a split, the extra place unlinks the remainder: it is still tagged free and on no list |
| Resize.SplitHeadRemainder | mm.c:272-282 | place's split of the list head leaves the remainder pending with an allocated block on either side and the head's old successor first on the list |
| Resize.SplitHeadWords | mm.c:274-281 | after the split, the placed block's link words still hold NULL and its old successor, which lies outside it and the remainder |
| Resize.SplitHeadTags | mm.c:276-280 | the split tags the placed block allocated at `asize` and the remainder up to the untouched header of the block that followed |
| Resize.SplitState | mm.c:272-282 | place's split of bp leaves the heap invariant with the remainder pending and both blocks in the layout |
| Resize.PushKeeps | mm.c:341-345 | add_free of a block leaves other blocks' link words alone and makes the old head its successor |
| Resize.RemainderAlone | mm.c:310-311 | the remainder's previous footer and next header are both allocated, so coalesce takes none of its merging cases |
| Mm.Allocator.Init | mm.c:79-101 | mm_init returns 0 exactly when the area holds the eight words and one 4096-byte chunk, and then the heap is one free block of 4096 bytes, the sole list member; it returns -1 otherwise |
| Mm.Allocator.Sbrk | mm.c:297 | mem_sbrk returns the old break and moves it by the request, or returns -1 and leaves it when the area would overflow |
| Mm.Allocator.RemoveFromFree | mm.c:348-358 | the words and head remove_from_free leaves, whose meaning for the list is Heap.Unlinking |
| Mm.Allocator.AddFree | mm.c:341-346 | the words add_free leaves, with bp the new head, whose meaning is Heap.Pushing |
| Mm.Allocator.FindFit | mm.c:255-264 | find_fit returns the first list member of at least `asize` bytes, or NULL when none fits |
| Mm.Allocator.PutTags | mm.c:277-278 | PUT of a header and then of the footer found through it writes exactly the block's two tags |
| Mm.Allocator.ExtendHeap | mm.c:290-307 | extend_heap returns NULL with nothing changed exactly when mem_sbrk fails; otherwise the break moves by the even-rounded size and the new block, coalesced, is on the list with at least that size |
| Mm.Allocator.PutExtendTags | mm.c:301-303 | extend_heap's three writes: the new block's tags and the new epilogue header |
| Mm.Allocator.Place | mm.c:271-288 | place leaves bp allocated with at least `asize` and fewer than `asize + 16` bytes, split or whole as its branch says, the heap invariant kept and no other allocated block changed |
| Mm.Allocator.PlaceSplitting | mm.c:276-283 | the splitting branch leaves bp allocated at exactly `asize` bytes and the rest coalesced onto the list |
| Mm.Allocator.SplitOff | mm.c:274-281 | the unlink and the four tag writes of the split, with the rest left pending |
| Mm.Allocator.PutSplitTags | mm.c:277-281 | the four tag writes of a split, the second block found through the header just written |
| Mm.Allocator.PlaceAll | mm.c:284-287 | the whole-block branch unlinks bp and tags it allocated at its own size |
| Mm.Allocator.Coalesce | mm.c:309-339 | coalesce leaves the heap invariant with the merged block first on the list and the rest of the list in its old order without the absorbed neighbours |
| Mm.Allocator.MergeNeighbours | mm.c:310-336 | coalesce up to its final add_free: the words and head of the case that applies |
| Mm.Allocator.MergeNext | mm.c:314-319 | the successor is unlinked and bp tagged free over both |
| Mm.Allocator.MergePrev | mm.c:321-327 | the predecessor is unlinked and tagged free over both, and becomes the result |
| Mm.Allocator.MergeBoth | mm.c:329-336 | both neighbours are unlinked and the predecessor, found again through its footer, is tagged free over all three |
| Mm.Allocator.Malloc | mm.c:108-155 | mm_malloc(0) returns NULL and changes nothing; otherwise it allocates a block for the rounded size |
| Mm.Allocator.Allocate | mm.c:142-154 | a hit places in the first fitting list member without growing the heap; a miss grows the heap by exactly the larger of `asize` and 4096 bytes and places the block extend_heap returns, the new block merged with a free block before it; NULL exactly when there is no fit and the heap cannot grow, and then nothing changed; a result is a newly allocated block of at least the size asked and under 16 bytes more |
| Mm.Allocator.AllocateExtending | mm.c:148-154 | the miss path: the break moves by exactly the larger of `asize` and 4096 bytes, the placed block is where the coalesced new block starts in the extended heap, and NULL leaves everything unchanged |
| Mm.Allocator.PlaceFresh | mm.c:153 | the block placed after extend_heap is newly allocated and fits the request within 16 bytes |
| Mm.Allocator.Free | mm.c:164-171 | mm_free leaves the heap invariant, bp no longer allocated, its merged block first on the list, and every other allocated block unchanged |
| Mm.Allocator.Realloc | mm.c:176-252 | a size negative as an `int` gives NULL with nothing changed; size 0 frees bp and gives NULL; a NULL bp is mm_malloc; otherwise bp is resized; in every case no allocated block other than bp changes |
| Mm.Allocator.ResizeBlock | mm.c:190-250 | the case table of mm_realloc on an allocated block: same size or a shrink other than by 16 keeps everything, a shrink by 16 splits, growth goes into a free predecessor first, then a free successor, else the block moves; a result is an allocated block of at least the new size |
| Mm.Allocator.Grow | mm.c:221-231 | growth into the predecessor when it is free and the two suffice, else into the successor under the same test, else the fallback |
| Mm.Allocator.GrowNext | mm.c:232-250 | once the predecessor did not make room: growth into the successor when it is free and the two suffice, else the fallback; either way the case of the realloc outcome that applies |
| Mm.Allocator.ShrinkSplit | mm.c:210-217 | the shrink by exactly 16 bytes: bp keeps the new size, a 16-byte free block behind it heads the list |
| Mm.Allocator.GrowInto | mm.c:223-239 | the free neighbour leaves the list and one allocated block of the combined size stands at the lower address, which is returned |
| Mm.Allocator.UnlinkBothAndTag | mm.c:331-335 | remove_from_free of the predecessor and then of the successor, the predecessor found again through bp's footer, which both unlinks must leave intact, and the two tag writes over all three blocks, which it returns |
| Mm.Allocator.UnlinkAndTag | mm.c:225-237 | remove_from_free of the neighbour, then the two tag writes over both blocks |
| Mm.Allocator.Move | mm.c:240-249 | the fallback, reached when neither neighbour makes room: NULL with nothing changed when allocating fails; otherwise a newly allocated block of at least the requested size and bp freed |

## Left out

- Payload bytes are not modelled. This covers the two `memcpy` calls of `mm_realloc` (mm.c:229, mm.c:247). The model tracks tags and link words only. So it does not capture the overlapping copy of the grow-backward path, nor the fallback's copy of `newsize` bytes out of a smaller block.
- The `four`/`extendword` heuristic of `mm_malloc` (mm.c:112-122, mm.c:135-137) is not modelled. It is tuned to particular trace request sizes. The model always extends by `MAX(asize, CHUNKSIZE)` (mm.c:139).
- The extra `place(newptr, newsize)` of the realloc fallback (mm.c:246) is not part of `Mm.Allocator.Move`. Only one of its cases is modelled, on its own: mm_malloc took the list head and split it, and the extra place then takes its non-splitting branch (`Resize.ExtraPlace`, `Resize.ExtraPlaceLosesFree`, `Resize.SplitHeadThenExtraPlace`; see Findings).
- Mm.Allocator.Move: when mm_malloc placed a block of exactly `newsize + 16` bytes whole, the extra place (mm.c:273-282) sees a difference of 16 and splits it again, pushing a 16-byte free block behind it. `Move` does not model this second split: there it leaves the block at `newsize + 16` bytes, where the code leaves `newsize` bytes.
- Mm.Allocator.Move: when the block mm_malloc took was not the list head, the extra place's `remove_from_free` follows that block's stale link words and rewrites links. This case is not modelled either.
- `mem_sbrk` and memlib are not part of this model beyond `Mm.Allocator.Sbrk`. That method grows a break inside a fixed word array, or fails. Memlib's `mem_init` is the constructor.
- The allocator is modelled on its 32-bit target: pointers and `size_t` are 4 bytes, and addresses are word offsets. The 64-bit layout, where the two links of a 16-byte block would overlap the footer, is not modelled.
- `printblock` and `checkblock` are declared but never defined, so they are not modelled. Concurrency is not modelled either: the code is single-threaded over two globals.
- Mm.Allocator.Malloc: uses the unbounded rounding `Codec.AdjustSize`, not the 32-bit one. Requests of 2^32 - 15 bytes or more differ (see Findings). For these the model fails to allocate, where the code wraps.
- Mm.Allocator.Realloc: requires `bp` to be NULL or an allocated block, and excludes `mm_realloc(NULL, 0)`. For other inputs the code has no defined behaviour: `mm_free(NULL)` reads the word before address 0.
- Mm.Allocator.Free: requires `bp` to be an allocated block. A double free or a foreign pointer is a caller error the code does not detect.
- Mm.Allocator.Init: requires a fresh memlib area (break 0). The code does not support calling `mm_init` twice.
- Mm.Allocator.ExtendHeap: requires a request of at least 16 bytes. In the model both callers pass at least 4096 bytes. With the unmodelled `four` heuristic, mm_malloc passes 1024 bytes (mm.c:135-136), even when the block size is larger.
- The model keeps heaps below 2^31 bytes (`MAX_WORDS`). So the `(int)` casts of `place` (mm.c:273) never change a value, and `place` is modelled with a plain integer difference.
- Mm.Allocator.ResizeBlock: models the `int` subtraction of mm_realloc (mm.c:204) with two's-complement wrap-around (`Codec.CastDiff`). For a request within 15 bytes below 2^31, `(int)newsize` is negative and the subtraction overflows an `int`, which C leaves undefined (`Codec.CastDiffOverflows`). Under the wrap the difference is still exact (`Codec.CastDiffExact`).
- Mm.Allocator.Allocate: on the extension path, it does not restate place's word-level outcome against the extended heap. It states the exact growth, the placed block's address, and what `Mm.Allocator.PlaceFresh` gives.
- Mm.Allocator.AllocateExtending: has the same `Allocated` contract, so the same holds: place's word-level outcome on the extended heap is not restated, only the exact growth, the placed block's address and the `Mm.Allocator.PlaceFresh` facts.
- "No two adjacent blocks are both free" is not stated or proved. The code does not keep it: the realloc shrink pushes its 16-byte remainder with `add_free` (mm.c:216) without merging it with a free successor.

Three points where `mm.c` departs from the usual explicit-list design, and which the model follows:

- `coalesce` is not the only way into the free list: the realloc shrink calls `add_free` directly (mm.c:216).
- `mm_realloc` returns NULL first when `(int)size < 0` (mm.c:178-179). `Mm.Allocator.Realloc` has that case.
- The fallback passes the already-adjusted `newsize` to `mm_malloc` (mm.c:241), which rounds it once more. `Mm.Allocator.Move` and `Mm.Allocator.Reallocated` keep that double rounding.

## Findings

| source | as written | input that shows it | evidently intended | confidence | as-written member | corrected member |
|---|---|---|---|---|---|---|
| mm.c:132 | `asize = ALIGNMENT*((size+ALIGNMENT+(ALIGNMENT-1))/ALIGNMENT)` is evaluated in 32-bit `size_t`, so `size + 15` wraps | `mm_malloc(0xFFFFFFF8)`: `size + 15` wraps to 7 and `asize` is 0, so a 0-byte block is placed | the least multiple of 8 holding the request and both tags, or NULL when no heap can hold it | not executed | Codec.AdjustSizeAsWrittenWraps | Codec.AdjustSize |
| mm.c:246 | after `mm_malloc(newsize)`, the fallback calls `place(newptr, newsize)` on the block just allocated. Its `remove_from_free` follows that block's stale link words | `mm_init(); p = mm_malloc(8); q = mm_malloc(8); mm_realloc(p, 100)`: the fallback's `mm_malloc(112)` splits the 4064-byte free block behind `q` and pushes the 3944-byte rest; the extra `place` then sets `free_listp` to the stale successor, so that 3944-byte block is free but on no list | allocate, copy, free `bp`: every free block stays on the list | not executed | Resize.SplitHeadThenExtraPlace | Mm.Allocator.Move |
