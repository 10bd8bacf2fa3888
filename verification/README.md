# A verified model of the p3Heap allocator

`p3Heap.c` is a heap allocator over a single region. The region is mapped
once by `init_heap` and carved into blocks that lie next to each other
(an implicit free list):

- Every block starts with a 4-byte `blockHeader`. The header packs the
  block size, a multiple of 8, together with two status bits: the a-bit
  (the block is allocated) and the p-bit (the block before is allocated).
- A free block also repeats its size in a footer, its last word.
- An end-mark word of value 1 closes the region.

`alloc` chooses a block by best fit. It takes the first free block whose
size matches exactly; otherwise it splits the smallest larger free block,
taking the first of several equal ones. `free_block` validates the pointer
it is given, then coalesces the block at once with a free successor and a
free predecessor.

The model keeps the source's imperative form:

- The globals `heap_start`, `alloc_size` and `heap_end`, and init_heap's
  `allocated_once`, are the fields of a class `Allocator.Heap`.
- The mapped region is an `array<int>` of 4-byte words. Word `k` holds
  the bytes at offset `4 * k` from the page-aligned start of the mapping.
- `alloc`, `free_block` and init_heap's layout are methods that write
  those words in place, step by step as the C code does.

A ghost field `blocks` holds the abstract block list. The class invariant
`Valid` states two things:

- the words of the array lay out exactly that list: a header for every
  block, a footer for every free block, the end mark at
  `heap_start + alloc_size`, and headers on offsets that are 4 modulo 8;
- the list keeps the allocator's invariants: sizes are multiples of 8 and
  at least 8, every p-bit tells the truth, and no two free blocks are
  adjacent.

Each method's contract ties the new memory and the new list to functions
on the old list: `BestFit`, `Place` (exact fit or split) and `Coalesce`.
It also states which words may change.

The model is split into modules:

- `BlockHeader`: the header word. It covers encoding and decoding, the
  bit operations the code uses (`& ~0x1`, `& ~0x2`, `| (w & 0x2)`) and
  the rounding of a request.
- `HeapLayout`: how a block list sits in the words. It also holds the
  header walk of `disp_heap`, kept as an independent reference that reads
  a block list back from memory.
- `Policy`: the allocator's decisions on the abstract block list, with
  the invariants they keep and the round trip from allocation back to free.
- `Steps` and `Words`: the bridge from the words written to the new list
  laid out. They also cover the words each operation reads.
- `Allocator`: the heap object and its methods.

## Three points where the code is subtler than it looks

- **The remainder's p-bit.** One might expect the free remainder of a
  split to get p-bit 1, since the block before it has just been allocated.
  The code instead copies the p-bit of the allocated front, which is the
  p-bit of the block that was split (`p3Heap.c:188`). In every consistent
  heap that bit is 1, because a free block always follows an allocated one
  (`Policy.FreeBlockFollowsUsed`). `Place` copies the bit, as the code does.
- **No guard on small remainders.** The comment at `p3Heap.c:99` requires
  both blocks of a split to meet the heap block requirements, so the
  remainder must be a block of at least 8 bytes. The code has no guard for
  this, and none is needed: both sizes are multiples of 8, and an equal size
  takes the exact-fit path, so the remainder is always at least 8
  (`Policy.SplitRemainder`).
- **The footer after a free.** The code writes the merged block's footer
  only when `ptr_footer < heap_end` (`p3Heap.c:273`). That guard always
  holds (`Words.MergedFooterInHeap`), so the footer is always written. When
  the merged block is the last one, its footer is the word just below the
  end mark.

## Model

| member | source | states |
|---|---|---|
| BlockHeader.ClearABit | p3Heap.c:230 | `w & ~0x1` decodes to the same block with the a-bit cleared, size and p-bit kept |
| BlockHeader.ClearPBit | p3Heap.c:268 | `w & ~0x2` decodes to the same block with the p-bit cleared, size and a-bit kept |
| BlockHeader.OrPBit | p3Heap.c:243 | `x \| (w & 0x2)` decodes to `x`'s size and a-bit, with the p-bit set exactly when `x` or `w` has it |
| BlockHeader.Pack | p3Heap.c:26-33 | the header word of a block: its size plus 2 for the p-bit plus 1 for the a-bit |
| BlockHeader.Decode | p3Heap.c:26-33 | what a word says: its size field, its a-bit (bit 0) and its p-bit (bit 1) |
| BlockHeader.SizeOf | p3Heap.c:134 | `w & ~0x3`: the word with its two status bits cleared |
| BlockHeader.ABit | p3Heap.c:145 | `(w & 0x1) != 0`: the block is allocated |
| BlockHeader.PBit | p3Heap.c:248 | `(w & 0x2) != 0`: the block before is allocated |
| BlockHeader.PBitMask | p3Heap.c:180 | `w & 0x2` is the word's two low bits minus its lowest bit, and it is 2 exactly when the p-bit of `w` is set |
| BlockHeader.PackRoundTrip | p3Heap.c:16-58 | decoding the header word of any block whose size is a multiple of 8 gives back its size, a-bit and p-bit |
| BlockHeader.PackDecode | p3Heap.c:16-58 | every word is the header of what it decodes to: encoding after decoding is the identity |
| BlockHeader.FooterDecodes | p3Heap.c:21-24 | a footer (size only) decodes as a free block with a clear p-bit and that size |
| BlockHeader.ClearABitPacks | p3Heap.c:230 | clearing the a-bit of a block's header gives the header of the freed block |
| BlockHeader.ClearPBitPacks | p3Heap.c:268 | clearing the p-bit of a block's header gives the header of the same block with p-bit 0 |
| BlockHeader.OrPBitOfSize | p3Heap.c:259 | a size ORed with another header's p-bit is the header of a free block of that size carrying that p-bit |
| BlockHeader.HeaderIsNotEndMark | p3Heap.c:39-40 | no block header equals the end mark, and the end mark has size field 0 and the a-bit set |
| BlockHeader.DocumentedExamples | p3Heap.c:42-54 | a 24-byte block encodes as 25/27 allocated and 24/26 free (p-bit 0/1), and these words decode back |
| BlockHeader.RoundUp8 | p3Heap.c:119-122 | the padded size is a multiple of 8, at least the input and less than 8 above it |
| Policy.EffectiveSize | p3Heap.c:116-122 | the block size for a request is a multiple of 8 with `size + 4 <= r < size + 12`, and a valid size for any request of at least 1 byte |
| BlockHeader.ValidSize | p3Heap.c:19 | a block size is a positive multiple of 8 (at least 8) |
| Policy.PBitsAgree | p3Heap.c:31-36 | every p-bit tells whether the block before is allocated; the first block's p-bit is set |
| Policy.NoAdjacentFree | p3Heap.c:209-210 | no two free blocks are next to each other, since free coalesces them at once |
| Policy.Consistent | p3Heap.c:18-36 | the heap invariants between calls: every size is valid, every p-bit is true and no two free blocks are adjacent; every operation is proved to keep them |
| Policy.FreeBlockFollowsUsed | p3Heap.c:209-211 | in a consistent heap a free block's p-bit is set, and the block after it is allocated with a clear p-bit |
| Policy.Fits | p3Heap.c:139-145 | a block can serve a request: it is free and at least as large as the block size asked for |
| Policy.IsBestFit | p3Heap.c:89 | block `i` is the best fit: it fits, no fitting block is smaller, and every fitting block before it is strictly larger |
| Policy.BestFit | p3Heap.c:131-168 | the block the scan picks exists and is a free block large enough for the request |
| Policy.BestFitIsBest | p3Heap.c:89 | the scan finds nothing exactly when no free block is large enough; otherwise it picks a fitting block of minimum size, the lowest-addressed of equals |
| Policy.BestFitUnique | p3Heap.c:89 | the best fit (minimum size, first among equals) is unique |
| Policy.BestFitExtend | p3Heap.c:159-163 | one step of the scan: a fitting block replaces the choice so far only when it is strictly smaller |
| Policy.ExactFitStaysBest | p3Heap.c:148-157 | once the choice so far has exactly the requested size it is the best fit of the whole heap, so stopping the scan there is correct |
| Policy.BestFitScenario | p3Heap.c:158-163 | among free blocks of 32, 64 and 48 bytes a 40-byte block takes the 48-byte one; of two equal candidates the lower one wins |
| Policy.SplitRemainder | p3Heap.c:173-176 | the remainder of a split is itself a valid block size (a multiple of 8, at least 8) |
| Policy.Place | p3Heap.c:145-192 | the block list after alloc serves block `i`: an exact fit becomes allocated and its successor gets p-bit 1; a larger block becomes an allocated front of the requested size and a free remainder, and both keep the split block's p-bit |
| Policy.PlaceExact | p3Heap.c:148-157 | an exact fit keeps the block list consistent, its length and its total size |
| Policy.PlaceSplit | p3Heap.c:173-192 | a split keeps the block list consistent and its total size, and adds one block |
| Policy.PlaceKeepsInvariants | p3Heap.c:145-192 | serving a request keeps the invariants and the total size; the served block is allocated, has the requested size and p-bit 1; blocks before it are unchanged |
| Policy.MergeLo | p3Heap.c:246-263 | the first block merged by a free: the block before when the freed block's p-bit is clear, else the freed block |
| Policy.MergeHi | p3Heap.c:238-244 | one past the last block merged by a free: the successor is included when it is a free block, and the end mark never is |
| Policy.Coalesce | p3Heap.c:229-275 | the block list after a free: blocks `MergeLo..MergeHi` become one free block whose size is their sum and whose p-bit is the leftmost block's; the block after it gets p-bit 0 |
| Policy.MergeNeighbours | p3Heap.c:238-263 | the blocks just outside the range merged by a free are allocated, so one pass of merging leaves no free neighbour |
| Policy.CoalesceShape | p3Heap.c:229-275 | after a free, earlier blocks are unchanged, the merged free block spans the merged range with the leftmost p-bit, and the next block's p-bit is cleared |
| Policy.CoalesceKeepsInvariants | p3Heap.c:229-275 | freeing an allocated block keeps the invariants (no two adjacent free blocks, p-bits true) and the total size; the merged block is free |
| Policy.CoalesceSizes | p3Heap.c:238-259 | every block left after a free has a valid size |
| Policy.CoalesceBits | p3Heap.c:265-269 | after a free every p-bit matches the block before it, and no two free blocks are adjacent |
| Policy.CoalesceSum | p3Heap.c:242-258 | the merged block's size is the sum of the merged blocks: the total size is unchanged |
| Policy.PlaceThenCoalesce | p3Heap.c:229-275 | freeing a block right after alloc served it restores the block list exactly, for an exact fit and for a split |
| Policy.ExactThenCoalesce | p3Heap.c:148-157 | freeing an exact fit restores the list: a-bit and the next p-bit go back to 0 |
| Policy.SplitThenCoalesce | p3Heap.c:173-192 | freeing the front of a split merges it with its remainder into the original block |
| Policy.FirstRequestScenario | p3Heap.c:111-195 | on a fresh 4096-byte heap (4088 bytes of blocks), 100 bytes become a 104-byte block split from the free block, leaving 3984 bytes free; freeing it restores the single 4088-byte block |
| HeapLayout.Tiled | p3Heap.c:18-33 | a block list is laid out in memory: each header packs its block, each free block ends in a footer holding its size, and the headers follow each other by their sizes |
| HeapLayout.Layout | p3Heap.c:35-40 | a whole heap: the blocks are tiled from a first header 4 modulo 8 up to the end-mark word |
| HeapLayout.Walk | p3Heap.c:394-427 | disp_heap's walk: decode each header and jump by its size until the word 1. It fails on the word 1 anywhere but at `end`, where disp_heap would stop early; it also fails where the C loop would run off the region, when it passes the end or meets a size that is not positive |
| HeapLayout.SumOfValidSizes | p3Heap.c:19 | a list of valid block sizes sums to a multiple of 8, at least 8 per block |
| HeapLayout.TiledSpan | p3Heap.c:35-40 | laid-out blocks reach from the first header to the end mark by their sizes, and every size is valid |
| HeapLayout.HeaderFacts | p3Heap.c:35-40 | header `i` lies on an offset 4 modulo 8 within the heap (the end mark when `i` is past the last block); a block's header word packs it, a free block's last word holds its size, and the next header is `size` bytes on |
| HeapLayout.WalkReadsLayout | p3Heap.c:394-427 | the header walk of disp_heap from heap_start reaches the end mark exactly and reads back the block list |
| HeapLayout.LayoutDeterminesBlocks | p3Heap.c:394-427 | two block lists laid out in the same words are equal: memory determines the blocks |
| HeapLayout.LayoutSum | p3Heap.c:336-345 | the block sizes of a laid-out heap add up to `alloc_size`, and the end mark sits on an offset 4 modulo 8 |
| HeapLayout.PayloadAligned | p3Heap.c:36-37 | a payload right after a header on an offset 4 modulo 8 is 8-byte aligned |
| HeapLayout.HeadersIncrease | p3Heap.c:136 | a block ends at or before the header of every later block: blocks do not overlap |
| Allocator.PageRound | p3Heap.c:313-318 | the mapped size is a multiple of the page size, at least the request and less than a page above it |
| Allocator.PageMultiple | p3Heap.c:313-336 | a whole number of pages (of a size divisible by 8) is divisible by 8, so `alloc_size` is a valid block size |
| Allocator.InitialLayout | p3Heap.c:336-355 | the header `alloc_size + 2`, the footer `alloc_size` and the end mark lay out one free block with p-bit 1 over the whole heap |
| Allocator.InitOffsets | p3Heap.c:340-353 | the header is word 1, the footer word `alloc_size / 4`, and the end mark the region's last word |
| Allocator.PayloadInHeap | p3Heap.c:218-223 | the payload address of any block is a multiple of 8 strictly inside the heap, so the first checks of free_block pass it |
| Allocator.PayloadUnique | p3Heap.c:226 | a payload address identifies one block |
| Allocator.NextHeaderFacts | p3Heap.c:132 | the scan's position is a header that is not the end mark, or the end of the heap once every block was seen |
| Allocator.ScanAt | p3Heap.c:131-136 | at each step the scan reads the current block's size and a-bit and finds the next header at `current + size` |
| Words.ExactFitWords | p3Heap.c:145-154 | in an exact fit, adding 1 to the free header gives the allocated header; the next-header test (`< heap_end` and p-bit clear) holds exactly when a block follows, and adding 2 then gives that block p-bit 1; the payload is 8-aligned inside the heap |
| Words.UnflaggedHeader | p3Heap.c:152-153 | adding 2 to a header with a clear p-bit sets the p-bit |
| Words.ExactFitResult | p3Heap.c:148-157 | writing the two words of an exact fit lays out `Place` of the old list, consistent, and changes no other word |
| Words.SplitWords | p3Heap.c:173-188 | in a split, the size read from the header is the block's, `eff + (w & 0x2) + 1` is the allocated front's header with the old p-bit, the remainder's header carries the same p-bit, and the three words written are distinct and in order |
| Words.SplitWritten | p3Heap.c:179-188 | after the split's three writes the front header, remainder header and remainder footer hold their new values, and every other word is unchanged |
| Words.SplitResult | p3Heap.c:173-192 | the words of a split lay out `Place` of the old list, consistent, and change no other word |
| Words.UnchangedExcept | p3Heap.c:145-192 | the frame of every memory contract: same length, and every word outside the given set keeps its value |
| Words.AllocWrites | p3Heap.c:145-192 | the words alloc writes for block `i`: the exact-fit words or the split words |
| Words.ExactWordSet | p3Heap.c:149-154 | the exact-fit words: the header and, unless it is the end mark, the next header |
| Words.SplitWordSet | p3Heap.c:180-188 | the split words: the header, the remainder's header and the remainder's footer |
| Words.FreeWrites | p3Heap.c:229-275 | the words free_block writes: the freed header, the merged header, the merged footer and, unless it is the end mark, the header after the merged block |
| Words.MergedFooterInHeap | p3Heap.c:271-275 | the merged block's footer lies inside the heap, so the guard `ptr_footer < heap_end` always holds |
| Words.FreeFactsNext | p3Heap.c:233-244 | the word after a freed block is the next header or the end mark, and it is merged exactly when it is a free block |
| Words.FreeFactsPrev | p3Heap.c:248-252 | a clear p-bit on the freed block means the previous block is free, and its footer gives its header |
| Words.NextReadsAt | p3Heap.c:229-244 | clearing the a-bit and merging a free successor leaves a free header of the merged size with the old p-bit |
| Words.NextStepReads | p3Heap.c:229-244 | what the first step of free_block reads, for block `i` of a consistent heap |
| Words.PrevStepReads | p3Heap.c:246-263 | after the first step the p-bit, the previous footer and the previous header lead to the merged block's header |
| Words.FreeWordsPrev | p3Heap.c:248-259 | the previous block's footer holds its size, and its header ORed with the merged size is the merged header |
| Words.FreeWordsAfter | p3Heap.c:265-269 | the word after the merged block has a nonzero size exactly when it is a block header, and clearing its p-bit gives that block's header with p-bit 0 |
| Words.AfterStepReads | p3Heap.c:265-275 | after merging, the next header and the footer position are where the last step of free_block writes |
| Words.FreeSpan | p3Heap.c:266-274 | the merged block's header, footer and next header are words in order inside the array |
| Words.FreedMemory | p3Heap.c:229-275 | the memory after free_block releases block `i`. The freed header holds the size up to the end of the merged range, with its own p-bit and no a-bit. The merged block's header holds the whole merged size and the leftmost p-bit. The header after the range loses its p-bit unless it is the end mark. The range's last word holds the merged size. No other word changes |
| Words.FreeResult | p3Heap.c:229-275 | the words after a free lay out `Coalesce` of the old list, consistent, and only the freed header, the merged header, the footer and the next header change |
| Steps.ExactFitStep | p3Heap.c:148-157 | the two new header words of an exact fit, all else unchanged, lay out the placed list |
| Steps.SplitStep | p3Heap.c:173-192 | the three new words of a split, all else unchanged, lay out the placed list |
| Steps.CoalesceStep | p3Heap.c:229-275 | the merged header and footer and the next header with its p-bit cleared, all else outside the merged range unchanged, lay out the coalesced list |
| Steps.MergedTile | p3Heap.c:271-275 | the merged header and footer lay out one free block whose size is the sum of the merged blocks |
| Allocator.Heap.Valid | p3Heap.c:60-74 | the globals' invariant: before init_heap they are zero with no blocks; after it, `heap_start` is offset 4, the region holds the layout of `blocks` up to the end mark at `heap_start + alloc_size`, and the block list is consistent |
| Allocator.Heap.constructor | p3Heap.c:64-74 | before init_heap the globals are NULL/zero, there are no blocks, and the heap is valid |
| Allocator.Heap.InitHeap | p3Heap.c:288-358 | -1 with nothing changed on a second call or a size not positive; otherwise 0, a region of `PageRound(size)` bytes, `alloc_size` 8 less, one free block with p-bit 1, its footer and the end mark, all other words zero |
| Allocator.Heap.MapRegion | p3Heap.c:321-345 | a fresh zero-filled region, `allocated_once` set, `heap_start` at offset 4, and `alloc_size` 8 less than the region, laid out as one free block |
| Allocator.Heap.FormatRegion | p3Heap.c:342-355 | the end mark, the header `alloc_size + 2` and the footer written into the zero region lay out one free block; no other word changes |
| Allocator.Heap.Alloc | p3Heap.c:111-195 | NULL and no change for size < 1, and NULL and no change in memory when no free block fits. Otherwise the best fit is placed, the payload address (8-aligned, inside the heap) is returned, the block list becomes `Place(..)`, only the placement's words change, and the heap stays valid |
| Allocator.Heap.FitRequest | p3Heap.c:124-194 | for a block size: NULL and no change when nothing fits, else the best fit's payload, the placed list, and changes only to the placement's words |
| Allocator.Heap.Scan | p3Heap.c:124-168 | the loop finds NULL exactly when no block fits, else the header of the best fit; it reports an exact fit exactly when that block has the requested size; it changes nothing |
| Allocator.Heap.TakeExactFit | p3Heap.c:148-157 | the exact-fit branch leaves the placed list laid out and consistent, and changes only its header and the next header |
| Allocator.Heap.ExactFitWrites | p3Heap.c:149-154 | the a-bit is added to the header, and the next header gains its p-bit unless it is the end mark |
| Allocator.Heap.SplitBlock | p3Heap.c:173-192 | the split leaves the placed list (allocated front, free remainder with footer) laid out and consistent, changing only its three words |
| Allocator.Heap.SplitWrites | p3Heap.c:174-188 | the front header, remainder footer and remainder header get their values (p-bit kept in both), and no other word changes |
| Allocator.Heap.FreeBlock | p3Heap.c:214-278 | -1 with no change for NULL, a misaligned or out-of-heap pointer, or a free block. It returns 0 exactly when the pointer is an allocated block's payload; then the block list becomes `Coalesce(..)`, only the freed header, the merged header, the footer and the next header change, and the heap stays valid |
| Allocator.Heap.ReleaseBlock | p3Heap.c:229-277 | once the block is known to be allocated, memory becomes the freed memory, which lays out the coalesced list, consistent |
| Allocator.Heap.ReleaseWords | p3Heap.c:229-275 | the three steps of the free write the freed header, the merged header, the next header's p-bit and the footer, nothing else |
| Allocator.Heap.ClearAndMergeNext | p3Heap.c:229-244 | the header loses its a-bit and absorbs a free successor's size, keeping its p-bit |
| Allocator.Heap.MergePrev | p3Heap.c:246-263 | with a clear p-bit the previous header (found through its footer) becomes the merged header with the sum of sizes and its own p-bit; otherwise nothing changes |
| Allocator.Heap.FinishRelease | p3Heap.c:265-275 | the next header loses its p-bit unless it is the end mark, and the merged block's last word becomes its footer |

## Left out

- Mapping the region: the `open` of `/dev/zero` and `mmap` are modelled as a fresh zero-filled array that is always obtained. Their failure paths (return -1) are not modelled, and `getpagesize()` is a parameter of `InitHeap`.
- Allocator.Heap.InitHeap: requires a page size of at least 16 bytes that is a multiple of 8, as every real page size is.
- The `fprintf` error messages of `init_heap` and all of `disp_heap`'s printing are output only and are left out. The walk of `disp_heap` is kept as `HeapLayout.Walk`.
- Addresses are byte offsets from the page-aligned start of the mapping, not `uintptr_t` values. The alignment test on an offset is the same as on the address.
- `int` width: sizes and offsets are unbounded integers. Overflow of `size + 4` near `INT_MAX` is not modelled. The initial `bestSize = INT_MAX` becomes "no candidate yet" (`bestFit` is NULL), which agrees with the code for every block smaller than `INT_MAX`.
- Allocator.Heap.FreeBlock: requires that `ptr`, when it is non-null, 8-aligned and inside the heap, is the payload of some block. An interior pointer, or the stale payload of a block merged into its predecessor, is outside the contract. For such a pointer the code reads an arbitrary word as a header, and the result depends on the payload bytes.
- Payload contents and stale words are left free. The layout does not describe the bytes of payloads or the old headers and footers left inside a merged block. The contracts say these words are not written, with one exception: when the freed block merges into a free predecessor, its own header is written (with the size up to the end of the merged range and no a-bit, as `Words.FreedMemory` states) and is then a stale word inside the merged block.
- Concurrency: none in the source; the model is sequential.
