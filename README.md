# p3Heap: a boundary-tag heap allocator, modelled and verified

`p3Heap.c` manages one flat memory region as a list of blocks. Each block
begins with a 4-byte `size_status` header. The header holds the block size,
which is a multiple of 8, plus two status bits:

- the a-bit (bit 0) says the block is allocated;
- the p-bit (bit 1) says the block before it is allocated.

A free block also ends with a footer that holds its size alone. The word 1
marks the end of the heap.

The allocator has four operations:

- `init_heap` lays out one free block and the end mark;
- `balloc` pads the request to a block size, finds the best-fit free block,
  and takes it whole or splits it;
- `bfree` checks the pointer, then releases the block;
- `coalesce` merges free neighbours in one forward pass.

The model keeps the allocator's state in class `P3Heap.Heap`:

- `mem`, an `array<int>` of the heap's words from `heap_start` through the
  end mark;
- `allocSize`, for `alloc_size`;
- `initialised`, for `allocated_once`;
- a ghost `blocks: seq<Block>`, the block list that the words encode.

`Valid()` says the words lay out `blocks` (`BlockModel.Lays`):

- the blocks tile the heap with no gaps;
- every size is a multiple of 8 and at least 8;
- each p-bit matches the a-bit of the block before it, and the first block's
  p-bit is set;
- every header encodes its block, and every free footer holds its size;
- the sizes sum to `alloc_size`, and the end mark is the last word.

Each operation is a method that rewrites the words in place. Each method's
contract gives the new block list as a function of the old one. `balloc`
and `bfree` also give the new words as functions of the old words. For
`coalesce`, the contract says that every word of every allocated block is
unchanged, both for the blocks allocated before the call and for those
allocated after it (the pass keeps every allocated block, at its offset). The lemmas about those functions carry the properties.

The modules are:

- `BlockModel`: the header encoding, block offsets, and the layout invariant.
- `Allocator`: balloc's size arithmetic, its scan, and its placement on the
  block list and on the words.
- `Deallocator`: bfree's pointer checks and the release.
- `Coalescer`: one merge, and the forward pass.
- `Lifecycle`: how the operations undo one another.
- `P3Heap`: the class and its methods.

Addresses are byte offsets from `heap_start`, so the header of the block at
offset `o` is word `o / 4`. `balloc` returns `Addr(o + 4)`, and `bfree`
takes the same kind of address.

## Model

| member | source | states |
|---|---|---|
| BlockModel.EncodeDecode | p3Heap.c:167-172 | reading a header back with `v - (v & 3)`, `v & 1` and `v & 2` gives the block's size, a-bit and p-bit; no header equals the end mark 1 |
| BlockModel.Span | p3Heap.c:214-219 | a block's header word, its last word, and the next header (header word + size/4) all lie inside the heap; the last block ends right at the end mark |
| BlockModel.Walk | p3Heap.c:165-220 | in a laid-out heap, block i's header is at word Offset/4 and decodes to that block; stepping by size/4 reaches block i+1; the end mark is met exactly after the last block |
| BlockModel.LaysWalkable | p3Heap.c:165-220 | every step of the walk from heap_start to the end mark reads a real header, for every block index at once |
| Allocator.RoundUpIsNextMultiple | p3Heap.c:437-440 | `m + (q - m % q) % q` is the least multiple of q at or above m |
| Allocator.RequiredSize | p3Heap.c:145-151 | the block size for a request is a multiple of 8 in [4 + size, 4 + size + 8) |
| Allocator.PadToQuantum | p3Heap.c:145-151 | the loop that adds 1 until the size is a multiple of 8 stops at RequiredSize(size) |
| Allocator.Scan | p3Heap.c:165-220 | one iteration per call: a qualifying block met while the recorded one is allocated or too small is recorded and looked at again (`continue`); a qualifying block no larger than the recorded one replaces it; an exact fit ends the scan; once a block is found the flag stays set, and the block it ends on is the recorded one or one not yet passed |
| Allocator.ScanLeavesFittingSize | p3Heap.c:168-206 | once a block has been found, `smallest_block_size` is read only from a block that fits, so after a successful scan the chosen block fits and the size left behind is at least the block size asked for |
| Allocator.ScanCorrect | p3Heap.c:165-220 | from any state of the scan that meets the scan invariant, the scan finds a block exactly when some free block is large enough, and the block it ends on is a best fit |
| Allocator.ScanFindsBestFit | p3Heap.c:165-226 | the whole scan finds a block iff some free block fits; then the block is a free block of least qualifying size: the first of that size when the size is exact, the last of that size otherwise |
| Allocator.DecideAsWritten | p3Heap.c:222-274 | the placement as written, deciding from `smallest_block_size`: it refuses exactly when the corrected decision does and picks the same block; the fall-through where neither branch applies is never reached |
| Allocator.Decide | p3Heap.c:222-274 | the corrected placement: the chosen block is free and holds n bytes; it is taken whole when it holds exactly n, and otherwise split into n bytes and the rest |
| Allocator.Request | p3Heap.c:133-151 | balloc places only a size in (0, alloc_size], and then into a free block holding RequiredSize(size); a split takes exactly RequiredSize(size) bytes |
| Allocator.ExactAt | p3Heap.c:232-245 | the exact fit on the block list: the chosen block becomes allocated with its size and p-bit kept, the next block's p-bit is set, and the list keeps its length |
| Allocator.SplitAt | p3Heap.c:248-273 | the split on the block list: the chosen block becomes an allocated block of n bytes with its p-bit kept, followed by a free block of the rest with its p-bit set; the list grows by one |
| Allocator.ExactWords | p3Heap.c:235-244 | the exact fit adds the a-bit to the chosen header and changes no word other than that header and the next header |
| Allocator.SplitWords | p3Heap.c:251-273 | the split writes the remainder header (free size + 2) and its footer (free size), and changes no word other than those two and the chosen header |
| Allocator.ExactKeepsPayloads | p3Heap.c:235-244 | the exact fit changes no payload word of any allocated block |
| Allocator.SplitKeepsPayloads | p3Heap.c:251-273 | the split writes only inside the chosen free block, so no word of any allocated block changes |
| Allocator.DecideChoosesBestFit | p3Heap.c:223-274 | placement refuses exactly when no free block fits; otherwise it chooses a best fit, takes it whole when its size is exact, and otherwise splits it into n allocated bytes and a free remainder of at least 8 bytes that is a multiple of 8 |
| Allocator.RequestRefuses | p3Heap.c:133-226 | balloc returns NULL exactly when size <= 0, size > alloc_size, or no free block holds RequiredSize(size) |
| Allocator.DecidePlaces | p3Heap.c:232-273 | after a placement, the chosen block is allocated with exactly n bytes at the same offset and keeps its p-bit; the next block records an allocated predecessor; a split remainder is a free block of size - n with its p-bit set; the total is conserved |
| Allocator.ExactKeepsLays | p3Heap.c:232-245 | the exact-fit word writes (a-bit on; the successor's p-bit on unless it is the end mark) lay out the block list with the block allocated, and keep the total |
| Allocator.SplitKeepsLays | p3Heap.c:248-273 | the split word writes (header n+1 or n+3, remainder header free+2, remainder footer free) lay out the split block list, and keep the total |
| Allocator.StaleSizeOverrun | p3Heap.c:168-273 | counterexample: with free 32, allocated 8, free 24 and a 16-byte block size, the code as written splits the 24-byte block as if it held 32 bytes, and the remainder footer falls past the end mark; the corrected decision splits 16 + 8 |
| Allocator.StaleSizeClobber | p3Heap.c:168-273 | counterexample: with free 32, allocated 8, free 16, allocated 8, the exact 16-byte fit is "split" with a 16-byte remainder written over the next block's header; the corrected decision is an exact fit |
| Deallocator.Rejected | p3Heap.c:296-319 | bfree's checks: NULL, a header offset that is not a multiple of 8, or a header outside the heap; a heap of fewer than 4 bytes (alloc_size 0 before init_heap) accepts no address, and an accepted header lies inside the heap |
| Deallocator.FreeAt | p3Heap.c:326-339 | the release on the block list: the block becomes free with its size and p-bit kept, the next block's p-bit is cleared, and the list keeps its length |
| Deallocator.FreeWords | p3Heap.c:326-339 | the release writes the footer (the block's size) and clears the a-bit, and changes no word other than the header, the footer and the next header |
| Deallocator.FreeKeepsLays | p3Heap.c:326-339 | bfree's word writes (a-bit off; the successor's p-bit off unless it is the end mark; footer = size) lay out the block list with the block free, and keep the total |
| Deallocator.BlockStartsAccepted | p3Heap.c:309-319 | the alignment and range checks of bfree accept the header of every block of the heap |
| Coalescer.MergeAt | p3Heap.c:369-377 | one merge on the block list: block k becomes a free block of the two sizes with block k's p-bit, and the list is one shorter |
| Coalescer.MergeHeaderOnly | p3Heap.c:372 | the merge as written adds the absorbed size to the header and changes no other word |
| Coalescer.MergeWords | p3Heap.c:372-377 | the corrected merge adds the absorbed size to the header and writes the summed size to the merged footer, and changes no other word |
| Coalescer.MergeKeepsAllocated | p3Heap.c:369-377 | a merge writes only inside the two free blocks it merges, so every word of every allocated block stays as it was |
| Coalescer.Pass | p3Heap.c:366-397 | the walk from block i: merge with a free successor and look at the grown block again, or step on, until the end mark; the blocks before i are untouched, block i stays, and the list never grows |
| Coalescer.MergeKeepsLays | p3Heap.c:369-377 | adding the absorbed size to the free header, and writing the merged footer, lays out the merged block list (one free block of the summed size with the first block's p-bit), and keeps the total |
| Coalescer.HeaderOnlyMergeLeavesStaleFooter | p3Heap.c:372-373 | the merge as written leaves the merged block's footer holding the absorbed block's size instead of the merged size, so the words no longer lay out the merged heap |
| Coalescer.PassCoalesces | p3Heap.c:366-397 | coalesce's pass (merge and look again, or step on) keeps the list well formed and the total unchanged, never lengthens it, and leaves no two neighbouring free blocks |
| Coalescer.PassKeepsAllocated | p3Heap.c:366-397 | every allocated block is still in the list the pass leaves, unchanged and at the same offset: the pass merges only free blocks |
| Coalescer.PassFrame | p3Heap.c:366-397 | a word frame over the allocated blocks after the pass is one over the allocated blocks before it |
| Coalescer.PassSettled | p3Heap.c:366-397 | on a heap with no two neighbouring free blocks the pass changes nothing |
| Coalescer.PassKeepsLength | p3Heap.c:366-397 | the pass never adds blocks, and a pass that removes none changes nothing |
| Coalescer.NoMergeIffSettled | p3Heap.c:363-399 | the number of merges is 0 exactly when no two neighbouring blocks were both free |
| Lifecycle.FreeUndoesExact | p3Heap.c:232-339 | freeing the block an exact fit took gives back the original block list |
| Lifecycle.FreeWordsUndoExact | p3Heap.c:232-339 | bfree's word writes undo the exact fit's word writes, word for word |
| Lifecycle.SplitFreeMergeRestores | p3Heap.c:248-377 | a split block, once freed, is followed by its free remainder, and merging the two gives back the block list from before the split |
| Lifecycle.PlacedPointerAccepted | p3Heap.c:277-319 | the address balloc returns passes all of bfree's checks, names the placed block, and that block is allocated |
| Lifecycle.SecondPlacementApart | p3Heap.c:165-277 | two placements in a row choose different blocks whose bytes do not overlap |
| P3Heap.PageMultiple | p3Heap.c:437-458 | a positive whole number of pages, less the 8 bytes init_heap keeps back, is a multiple of 8 of at least 8 bytes |
| P3Heap.OneBlockLays | p3Heap.c:464-477 | the words init_heap writes lay out one free block of alloc_size bytes with its p-bit set |
| P3Heap.MergedHeader | p3Heap.c:372-373 | adding the absorbed size to a free header gives a header whose pure size is the sum of the two sizes |
| P3Heap.Heap.constructor | p3Heap.c:78-85 | before init_heap there is no heap (a fresh empty `mem`, so later calls may write it) and alloc_size is 0; the one-shot flag, the static `allocated_once` declared at line 412, is clear |
| P3Heap.Heap.InitHeap | p3Heap.c:421-477 | fails on a second call, on a size <= 0, or when mapping fails; on success alloc_size is the size rounded up to whole pages less 8, and the heap is one free block with its p-bit set and a footer holding its size, followed by the end mark 1; alloc_size keeps the rounded size after a failed mapping |
| P3Heap.Heap.FreshRegion | p3Heap.c:462-477 | the fresh zeroed region gets the header alloc_size + 2, the footer alloc_size, and the end mark; every other word stays 0 |
| P3Heap.Heap.FindBestFit | p3Heap.c:153-220 | the loop over the words returns the found flag, the header word of the chosen block, and the value left in smallest_block_size, each exactly as the block-level scan `ScanAll` gives it; it writes nothing |
| P3Heap.Heap.Balloc | p3Heap.c:127-279 | returns NULL and changes no word exactly when the request is refused; otherwise the blocks become those of the placement, the words change exactly by the exact-fit or split writes on the chosen block, and the returned address is the chosen block's header + 4; no payload word of a block allocated before the call changes |
| P3Heap.Heap.Place | p3Heap.c:153-277 | scan, then place: the words change exactly by the exact-fit or split writes on the best-fit block, and no payload word of an allocated block changes |
| P3Heap.Heap.Commit | p3Heap.c:228-277 | on the chosen block, an exact fit when its own size is n, a split otherwise, returning the header address + 4; no payload word of an allocated block changes |
| P3Heap.Heap.TakeWhole | p3Heap.c:232-245 | the exact-fit branch: the block list becomes ExactAt and the words ExactWords, and the heap stays laid out |
| P3Heap.Heap.SplitOff | p3Heap.c:248-273 | the split branch: the block list becomes SplitAt and the words SplitWords, and the heap stays laid out |
| P3Heap.Heap.Bfree | p3Heap.c:293-343 | returns -1 and changes nothing for NULL, a misaligned or out-of-range address, or a free block; otherwise returns 0 with the block released on the block list and on the words |
| P3Heap.Heap.Release | p3Heap.c:326-340 | clears the a-bit, clears the successor's p-bit unless it is the end mark, writes the footer, and keeps the heap laid out |
| P3Heap.Heap.Coalesce | p3Heap.c:352-400 | the blocks become Pass(old blocks); the result counts the merges; afterwards no two neighbours are free; the result is 0 exactly when none were; every word of every allocated block, of the old list and of the new, is unchanged |
| P3Heap.Heap.Sweep | p3Heap.c:352-397 | the walk from heap_start to the end mark: the blocks become Pass(old blocks), the count is the number of blocks removed, and every word of every allocated block of the new list is unchanged |
| P3Heap.Heap.Step | p3Heap.c:366-397 | one iteration: a free block with a free successor absorbs it, the words change by the merge writes, and the block is looked at again; otherwise the walk moves on and no word changes; the rest of the pass is unchanged |
| P3Heap.Heap.StepMerge | p3Heap.c:369-381 | the merge branch: the list loses the successor, the words change by the merge writes, and the cursor reads the grown block's new successor |
| P3Heap.Heap.StepOver | p3Heap.c:383-395 | the step branch: the cursor moves to the successor and reads its size and its successor, changing nothing |
| P3Heap.Heap.MergeNext | p3Heap.c:372-377 | one merge on the words: the header gains the absorbed size and the merged footer is written; the heap stays laid out |
| P3Heap.Heap.WriteMerge | p3Heap.c:372-377 | the header gains the absorbed size, the merged size is read back, and it is written to the merged footer |
| P3Heap.Heap.WriteExact | p3Heap.c:235-244 | the exact-fit writes: ExactWords |
| P3Heap.Heap.WriteSplit | p3Heap.c:251-273 | the split writes: SplitWords |
| P3Heap.Heap.WriteFree | p3Heap.c:328-339 | bfree's writes: FreeWords |

## Left out

- `getpagesize`, `open("/dev/zero")` and `mmap` are operating-system calls. The page size is a parameter of `InitHeap`. The success of opening and mapping is a boolean `mapped`, and a fresh zeroed array stands for the mapping.
- The `fprintf` diagnostics and `disp_heap` only print, so they are left out.
- Machine addresses, pointer casts and the truncation of addresses to `int` are left out. Addresses are byte offsets from `heap_start`. The 4-byte word `init_heap` skips before `heap_start` is not part of `mem`. `mem` ends with the end mark, which is the last word of the mapping: the 8 bytes `init_heap` keeps back are that skipped word and the end mark.
- `bfree` reads the header word (line 307) before the alignment check (line 310) and the range check (line 316). An address outside the mapping can therefore fault in the source, while the model returns -1 for it. The model reads the header only after the checks.
- P3Heap.Heap.Bfree: requires an address that passes the alignment and range checks to be a block's payload address. The source does not check that it points to a block start, and an interior address would corrupt the heap.
- P3Heap.Heap.Bfree: before a successful `init_heap`, requires the address to fail the checks. That holds for every address while alloc_size is 0. After a failed mapping the source leaves `alloc_size` set while `heap_start` is NULL, and an address that passed the range check would be read through NULL.
- P3Heap.Heap.Balloc: requires `init_heap` to have succeeded unless the request is refused by the size checks. After a failed mapping, the source leaves `alloc_size` set while `heap_start` is NULL, and it would then read through NULL.
- P3Heap.Heap.Coalesce: requires `init_heap` to have succeeded. Before that, the source reads the header at a NULL `heap_start` (lines 355-356).
- P3Heap.Heap.InitHeap: sizes are unbounded integers, so the 32-bit `int` overflow of `sizeOfRegion + padsize` (line 440) is not modelled. For a size within one page of `INT_MAX` the source's `alloc_size` would wrap negative, while the model succeeds with a heap of about 2^31 bytes. The other sum that could overflow, `sizeof(blockHeader) + size` in `balloc`, cannot: after a successful `init_heap`, `size <= alloc_size`, which is at least 8 bytes short of `INT_MAX`.
- P3Heap.Heap.InitHeap: requires a page size that is a multiple of 8 and larger than 8. `getpagesize` always returns such a value.
- Best-fit tie-break: the code is followed, not the first-match rule. Among free blocks of the same least size that is not an exact fit, the `<=` test (line 189) makes a later block replace an earlier one. An exact fit stops the scan at the first match (lines 200-206). `Allocator.IsBestFit` states both rules.
- `heap_start`, `alloc_size` and the static `allocated_once` are process globals in the source. They are fields of one `Heap` object here.

## Findings

| source | as written | input that shows it | evidently intended | confidence | as-written member | corrected member |
|---|---|---|---|---|---|---|
| p3Heap.c:168-273 | `smallest_block_size` is read only at the top of each scan iteration. After the exact-fit `break`, or after a replacement on the last block, the placement uses the size of the block recorded before. | blocks free 32, allocated 8, free 24 and a request of block size 16: the code splits the 24-byte block as if it held 32 and writes the remainder footer past the end mark. Blocks free 32, allocated 8, free 16, allocated 8: the exact 16-byte fit is split, and the remainder header overwrites the next block's header. | Decide from the chosen block's own size. | not executed | Allocator.StaleSizeOverrun | Allocator.DecideChoosesBestFit |
| p3Heap.c:372 | A merge updates only the merged header. The merged block's footer keeps the absorbed block's size. | any two neighbouring free blocks: after the merge, the word before the next header holds the second block's size, not the merged size | also write the merged size to the merged footer, since the function's own comment promises that footers are kept up to date | not executed | Coalescer.HeaderOnlyMergeLeavesStaleFooter | Coalescer.MergeKeepsLays |

The model of `balloc` (`Allocator.Decide`, used by `P3Heap.Heap.Place`)
decides from the chosen block's own size. `Allocator.DecideAsWritten` keeps
the decision as written, and `Allocator.StaleSizeClobber` shows its second
failure. The model of `coalesce` (`P3Heap.Heap.WriteMerge`) writes the
merged footer. `Coalescer.MergeHeaderOnly` keeps the merge as written.
