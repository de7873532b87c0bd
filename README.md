# hmalloc in Dafny

A model of `hmalloc`, a first-fit heap allocator built on the program break.
`hmalloc(size)` rounds the request up with `ALIGN`. It then walks an
address-ordered, doubly-linked list of `mbheader` records stored inline in
the heap and reuses the first free block that is large enough. It splits
that block when the remainder can hold a header plus one aligned unit.
When no block fits, it raises the break with `sbrk` and appends a new tail
block. `hfree(p)` silently ignores NULL, unknown pointers and double frees
(except a second free of a released tail block; see Findings).
It marks a non-tail block free. For the tail block, it lowers the break past
that block and every free block directly before it, and resets `heap_start`
to NULL when the heap becomes empty.

The project has six modules:

- `Align` (align.dfy) defines `ALIGN`, `AL_HDR_SZ` and `MIN_BLOCK_SZ` from
  hmalloc.h.
  - `size_t` is 64 bits wide.
  - `ALIGN` is written as the source writes it: a wrapping addition, then a
    bitwise AND with the complement of `alignof(max_align_t) - 1`. The AND
    is defined bit by bit on naturals.
  - `alignof(max_align_t)` (a power of two, given by its exponent) and
    `sizeof(mbheader)` are the parameters of `Config`.
- `Blocks` (blocks.dfy) holds the data model and the specification functions.
  - It defines the `mbheader` record (`Header`) and the heap (`Heap`).
    A heap is `heap_start`, the break, the headers by address, and a ghost
    list order.
  - It defines the well-formedness invariant `WellFormed`. The blocks tile
    `[heap_start, brk)` without gaps. `hdr_prev`/`hdr_next` follow list
    order. The first `prev` and the last `next` are NULL. Payload sizes are
    aligned.
  - It defines `hmalloc` and `hfree` as functions on heap values (`Malloc`,
    `Free`).
- `BlockFacts`, `MallocFacts` and `FreeFacts` prove properties of those
  functions.
- `Hmalloc` (hmalloc.dfy) holds the class `Allocator`.
  - Its fields are `heap_start`, the break and the header map.
  - Its methods run the source's loops: the first-fit scan, the split, the
    growth and the validation walk. `hfree`'s backward walk updates
    `hdr_next` in place and accumulates `shift`.
  - Each method is proved to compute the corresponding specification
    function and to keep the invariant.

Addresses are natural numbers. NULL is `None`. `sbrk(delta)` is the method
`Sbrk`: it moves the break within `[0, brkLimit]` and fails otherwise.
`brkLimit` is below 2^64.

Two behaviours of the code are kept as written:

- `ALIGN(0) == 0` (hmalloc.h:30-31, hmalloc.c:18), so `hmalloc(0)` serves a
  block with a 0-byte payload (`Align.AlignZero`).
- The tail release leaves the surviving last block's `hdr_next` set
  (hmalloc.c:169-181). It is modelled as written in
  `Blocks.ReleaseTailAsWritten`. The allocator class runs the corrected
  release; see Findings.

`Free` and every lemma about it in `FreeFacts` describe hfree with the
corrected tail release. The source's own hfree is `Blocks.FreeAsWritten`.

## Model

| member | source | states |
|---|---|---|
| Align.AlignToRoundsDown | hmalloc.h:30-31 | The bitwise AND with `~(A-1)` clears the low bits: ALIGN(size) is `(size + A - 1) mod 2^64` rounded down to a multiple of A |
| Align.BitAndClearsLowBits | hmalloc.h:30-31 | AND with a mask of ones from bit k up to bit n removes exactly `y mod 2^k` from `y` |
| Align.AlignIsMultiple | hmalloc.h:30-31 | ALIGN(size) is a multiple of `alignof(max_align_t)` for every size_t, wrapping included |
| Align.AlignRoundsUp | hmalloc.h:30-31 | When `size + A - 1` does not overflow, `size <= ALIGN(size) < size + A` and the result is a multiple of A |
| Align.AlignIdempotent | hmalloc.h:30-31 | Without overflow, ALIGN(ALIGN(size)) == ALIGN(size), and the second ALIGN does not overflow either |
| Align.AlignOfMultiple | hmalloc.h:30-31 | ALIGN leaves a multiple of A unchanged |
| Align.AlignZero | hmalloc.h:30-31 | ALIGN(0) == 0, so hmalloc(0) asks for a 0-byte payload |
| Align.AlignWrapsAtSizeMax | hmalloc.h:30-31 | With A > 1, ALIGN(SIZE_MAX) wraps to 0 |
| Align.HeaderSizeAligned | hmalloc.h:36 | AL_HDR_SZ is a multiple of A, at least sizeof(mbheader), less than sizeof(mbheader) + A, and at least A |
| Align.MinBlockIsHeaderPlusUnit | hmalloc.h:41 | MIN_BLOCK_SZ == AL_HDR_SZ + A, because ALIGN(sizeof(char)) == A |
| Align.GeometryValid | hmalloc.h:36-41 | The three sizes satisfy what the block list relies on: unit >= 1, an aligned header of at least one unit, and MIN_BLOCK_SZ = header + unit |
| Align.OverflowingRequest | hmalloc.h:30-31 | The request 2^64 - AL_HDR_SZ is a size_t that ALIGN leaves unchanged, so `ALIGN(size) + AL_HDR_SZ` is exactly 2^64 |
| Blocks.FirstFit | hmalloc.c:42-87 | The index returned is that of a free block of at least `need` bytes, and no block before it fits; it is the list length when none fits |
| Blocks.RunStart | hmalloc.c:169-178 | The backward walk stops at j <= i: every block from j up to i is free, and block j-1 (if any) is occupied |
| BlockFacts.EndBefore | hmalloc.c:56-57 | In a well-formed heap, each block ends at or before the start of every later block |
| BlockFacts.Disjoint | hmalloc.c:56-57 | No two blocks overlap, and addresses strictly increase along the list |
| BlockFacts.WithinHeap | hmalloc.c:34-42 | Every block lies between heap_start and the break |
| BlockFacts.OffsetAligned | hmalloc.c:77 | Every header and every payload address lies a multiple of A past heap_start |
| BlockFacts.NullNextIsTail | hmalloc.c:161 | A header with NULL hdr_next is the last block of the list |
| BlockFacts.LinkedAt | hmalloc.h:22-23 | Block i's hdr_prev and hdr_next are its list neighbours; they are NULL exactly at the first and the last block |
| BlockFacts.Ordered | hmalloc.c:42-87 | List order is address order |
| BlockFacts.BelowIsPrefix | hmalloc.c:181 | The headers below block j's address are exactly the blocks before j, so lowering the break to it keeps those and no others |
| BlockFacts.FlagWellFormed | hmalloc.c:48 | Setting or clearing one block's free flag keeps the heap well formed (used for line 48 and lines 190-193) |
| BlockFacts.NonEmptyBreak | hmalloc.c:42 | A started heap is empty exactly when the break equals heap_start, which is the scan's `prog_brk != heap_start` test |
| BlockFacts.NotListed | hmalloc.c:141-149 | An address that no list entry has is not a header in the heap |
| MallocFacts.CaptureWellFormed | hmalloc.c:23-27 | Capturing the break as heap_start keeps the heap well formed and changes nothing else; when heap_start was NULL the list is empty |
| MallocFacts.BreakIsFresh | hmalloc.c:93 | No header lies at or above the break, so the block placed at the old break is new |
| MallocFacts.GrowLinked | hmalloc.c:105-115 | After the new tail is written and linked, list and links are consistent: the new block's prev is the old last block, whose next is the new block |
| MallocFacts.GrowWellFormed | hmalloc.c:93-118 | Appending an aligned block of `need` bytes at the break and raising the break by need + AL_HDR_SZ keeps the heap well formed |
| MallocFacts.TakeWholeWellFormed | hmalloc.c:46-51 | Reusing a fitting block without splitting keeps the heap well formed |
| MallocFacts.TakeWholeKeeps | hmalloc.c:48-51 | Without a split, the reused block only becomes occupied; it keeps its full payload and everything else is unchanged |
| MallocFacts.SplitFresh | hmalloc.c:56-57 | The new header at hdr + AL_HDR_SZ + need lies strictly inside the split block and is not an existing header; the old successor is the next list entry |
| MallocFacts.OccupySplit | hmalloc.c:51-74 | After a split: the block has payload need, is occupied and points forward to the new header; the new header is free with payload old - need - AL_HDR_SZ and sits between the block and its old successor; the successor's prev points to it; no other header changes |
| MallocFacts.SplitIndex | hmalloc.c:56-61 | Inserting the new header after position k keeps earlier entries and shifts later ones by one |
| MallocFacts.ReuseSplits | hmalloc.c:51-74 | The split reuse produces exactly the heap described by OccupySplit, with the new header inserted after the block in list order |
| MallocFacts.SplitRemainderHoldsUnit | hmalloc.c:51-68 | The header a split creates is free and its payload is at least A bytes, because the split test compares with MIN_BLOCK_SZ = AL_HDR_SZ + A |
| MallocFacts.SplitListed | hmalloc.c:56-68 | After a split the headers in memory are exactly the listed ones |
| MallocFacts.SplitKeeps | hmalloc.c:51-74 | A split changes no other block's payload; it changes only the old successor's prev |
| MallocFacts.SplitEndAt | hmalloc.c:56-65 | After a split, every block still ends where the next one begins |
| MallocFacts.SplitEndsAtBreak | hmalloc.c:51-74 | After a split the list still starts at heap_start and ends at the break: the total span is preserved |
| MallocFacts.SplitTiled | hmalloc.c:51-74 | After a split the blocks tile the heap with no gap and no overlap |
| MallocFacts.SplitLinkBefore | hmalloc.c:51-74 | Blocks before the split one keep correct links |
| MallocFacts.SplitLinkMiddle | hmalloc.c:60-68 | The split block and the new header are linked to each other and to their neighbours in both directions |
| MallocFacts.SplitLinkAfter | hmalloc.c:71-74 | Blocks after the new header have correct links, including the old successor whose prev now points at the new header |
| MallocFacts.SplitLinked | hmalloc.c:51-74 | After a split, all links follow list order |
| MallocFacts.SplitAligned | hmalloc.c:60-65 | After a split, all payload sizes are still multiples of A |
| MallocFacts.SplitWellFormed | hmalloc.c:51-74 | Splitting keeps the heap well formed |
| MallocFacts.RemainderAligned | hmalloc.c:64-65 | The remainder old - need - AL_HDR_SZ is a multiple of A |
| MallocFacts.FirstFitIsFirst | hmalloc.c:42-87 | If block k fits and no earlier block does, the first-fit index is k |
| MallocFacts.MallocWellFormed | hmalloc.c:10-119 | hmalloc keeps the heap well formed on every path (reuse, split, growth, failed growth), and heap_start is set afterwards |
| MallocFacts.MallocServes | hmalloc.c:46-118 | A non-NULL result points AL_HDR_SZ past an occupied header whose payload is at least `need` and less than need + MIN_BLOCK_SZ |
| MallocFacts.MallocServesSize | hmalloc.c:18-118 | When ALIGN(size) does not wrap, a non-NULL result of hmalloc(size) points at an occupied payload of at least `size` bytes |
| MallocFacts.SplitKeepsPrefix | hmalloc.c:42-87 | A split leaves the list up to the split block, and the headers visited before it, unchanged |
| MallocFacts.ReuseKeepsPrefix | hmalloc.c:42-78 | Reuse keeps the break, heap_start, the list prefix up to the chosen block, and every header before it |
| MallocFacts.MallocFirstFit | hmalloc.c:42-78 | When block k is the first fitting block, hmalloc returns its payload address, does not move the break and leaves the blocks before it unchanged |
| MallocFacts.MallocReuses | hmalloc.c:42-78 | When block k is the first fit, hmalloc is exactly the reuse of block k |
| MallocFacts.MallocGrows | hmalloc.c:89-118 | When nothing fits and sbrk succeeds, the break rises by exactly need + AL_HDR_SZ, the new block is appended at the old break, and the result is old break + AL_HDR_SZ; when sbrk fails, the result is NULL and only heap_start capture happened |
| MallocFacts.MallocGrowth | hmalloc.c:89-118 | When nothing fits, hmalloc is exactly the append at the break, or NULL with nothing but heap_start changed |
| MallocFacts.MallocNull | hmalloc.c:93-99 | hmalloc returns NULL if and only if no block fits and the break cannot be raised; then no header and no link changes |
| MallocFacts.MallocAligned | hmalloc.c:77 | Every returned pointer lies a multiple of A past heap_start |
| MallocFacts.MallocAsWrittenAgrees | hmalloc.c:93 | When need + AL_HDR_SZ is below 2^63, the source's intptr_t cast is harmless and the as-written hmalloc equals the model |
| MallocFacts.MallocOverflowAsWritten | hmalloc.c:93-118 | For need + AL_HDR_SZ == 2^64 the as-written call sbrk(0) succeeds and hmalloc returns a pointer while the break does not move, which breaks well-formedness; the model returns NULL |
| FreeFacts.CutLinked | hmalloc.c:169-178 | Cutting the list after block j-1 and clearing that block's hdr_next leaves consistent links |
| FreeFacts.CutWellFormed | hmalloc.c:169-188 | Lowering the break to block j and clearing the new last block's hdr_next leaves a well-formed, started heap |
| FreeFacts.ReleaseTailMap | hmalloc.c:169-181 | After the release, the headers are those below the first released block, with the surviving last block's hdr_next cleared |
| FreeFacts.ReleaseTailCuts | hmalloc.c:161-188 | A tail release whose run stops at an occupied block cuts the list there |
| FreeFacts.BelowKeeps | hmalloc.c:181 | Blocks before the surviving last block stay in memory and are distinct from it |
| FreeFacts.ReleaseTailEmpties | hmalloc.c:185-188 | When the free run reaches the first block, the heap becomes empty: heap_start is NULL and the break returns to the old heap_start |
| FreeFacts.ReleaseTailWellFormed | hmalloc.c:161-188 | The corrected tail release keeps the heap well formed |
| FreeFacts.PresentStarted | hmalloc.c:139-149 | A heap with a header in it is started and non-empty |
| FreeFacts.FreeWellFormed | hmalloc.c:123-194 | hfree with the corrected tail release keeps the heap well formed for every argument Hfree accepts |
| FreeFacts.FreeMarks | hmalloc.c:126-155 | Unless p is the occupied tail: NULL and unknown pointers change nothing; a known pointer only gets its free flag set (a no-op when already free); break, heap_start and list are unchanged |
| FreeFacts.FreeReleasesTrailingRun | hmalloc.c:161-188 | Freeing the occupied tail removes its header; it lowers the break to the start of the maximal run of free blocks before it, all of which are dropped; heap_start becomes NULL iff the run reaches the first block; a surviving last block is occupied and has NULL hdr_next |
| FreeFacts.ReleaseTailDropsLast | hmalloc.c:181 | The freed tail's header no longer exists after the release |
| FreeFacts.FreeIdempotent | hmalloc.c:152-155 | With the corrected tail release, hfree(p); hfree(p) equals hfree(p). The source as written is not idempotent; see Findings row 1 |
| FreeFacts.FreeSettles | hmalloc.c:126-155 | With the corrected tail release, a second hfree(p) on the result of the first is a no-op |
| FreeFacts.ReleaseTailKeepsLive | hmalloc.c:169-178 | An occupied block before the tail survives the release, still occupied, with the same payload |
| FreeFacts.FreeKeepsOthers | hmalloc.c:123-194 | With the corrected tail release, hfree(p) keeps every other occupied block present, occupied and the same size; p's own block is gone or free afterwards |
| FreeFacts.FreeTailKeeps | hmalloc.c:161-188 | A tail release keeps every other occupied block |
| FreeFacts.AppendCutKeeps | hmalloc.c:112-115 | Undoing an append restores each earlier header exactly |
| FreeFacts.TailFacts | hmalloc.c:161 | The break is not a header, the last block is distinct from the others, and its hdr_next is NULL |
| FreeFacts.AppendCutRestores | hmalloc.c:93-118 | Cutting an appended block off again gives back the original heap |
| FreeFacts.ReleaseUndoesGrowth | hmalloc.c:161-188 | Releasing a block just appended restores the heap before the append. This holds after an occupied tail, or onto an empty list whose heap_start is NULL |
| FreeFacts.FreeUndoesGrowth | hmalloc.c:89-194 | If hmalloc grows the heap and the result is passed straight to hfree, the heap is back where it was. This holds given an occupied tail, or an empty list whose heap_start is NULL |
| FreeFacts.FreeAfterGrowthFromCapturedEmpty | hmalloc.c:185-188 | On an empty list whose heap_start is already set (a first growth failed), growing and then freeing empties the heap with heap_start NULL, which differs from the heap before |
| FreeFacts.StaleLinkAsWritten | hmalloc.c:169-181 | In the source's tail release, when the walk stops at an occupied block, that block's hdr_next still points at the new break, where no header exists; the heap is not well formed |
| FreeFacts.FreeAfterGrowthAsWritten | hmalloc.c:161-181 | After a growth onto an occupied tail, the source's hfree does not restore the previous heap, but the corrected one does |
| Hmalloc.Allocator.constructor | hmalloc.c:6 | heap_start starts as NULL, with no headers and the break at its initial, non-zero address |
| Hmalloc.Allocator.Sbrk | hmalloc.c:93-99 | sbrk moves the break by delta and returns the old break, or fails and leaves the break alone when the new break is out of range |
| Hmalloc.Allocator.Hmalloc | hmalloc.c:10-119 | The method keeps the invariant and computes exactly Malloc of the old state with need = ALIGN(size), so all of MallocFacts holds of it |
| Hmalloc.Allocator.Scan | hmalloc.c:37-87 | The loop stops at list position i. Every earlier block does not fit. Either `cur` is block i and fits, or the list ran out and `last` is the last block |
| Hmalloc.Allocator.TakeBlock | hmalloc.c:46-77 | The header writes for a reused block produce exactly Reuse |
| Hmalloc.Allocator.Grow | hmalloc.c:89-118 | On sbrk success: the new tail is appended exactly as Append says, and the result is old break + AL_HDR_SZ. On failure: NULL, and the state is unchanged |
| Hmalloc.Allocator.Hfree | hmalloc.c:123-194 | The method keeps the invariant and computes exactly Free of the old state |
| Hmalloc.Allocator.Lookup | hmalloc.c:135-149 | The validation walk finds the header iff it is in the heap |
| Hmalloc.Allocator.LowerBreak | hmalloc.c:161-189 | The tail release keeps the invariant and computes exactly the corrected ReleaseTail |
| Hmalloc.Allocator.WalkBack | hmalloc.c:163-178 | The backward walk ends at the first block of the maximal free run before the tail: the returned header is the block at position k. The headers have the same addresses as before and differ from the old ones only in hdr_next. Lowering the break by the accumulated shift gives ReleaseTail's break and list. heap_start is reset exactly when the stopping block has no hdr_prev |
| Hmalloc.Reused | hmalloc.c:46-77 | A reuse of the first fitting block is Malloc's result and keeps the heap well formed |
| Hmalloc.Grown | hmalloc.c:89-118 | The growth path, successful or not, is Malloc's result and keeps the heap well formed |
| Hmalloc.TakeWhole | hmalloc.c:48 | Clearing only the free flag is Reuse when the block does not split |
| Hmalloc.TakeSplit | hmalloc.c:48-74 | The sequence of header writes on lines 48-74 is Reuse when the block splits |
| Hmalloc.ScanStart | hmalloc.c:37-40 | The scan starts at heap_start with hdr_last NULL |
| Hmalloc.ScanAt | hmalloc.c:42-46 | A non-NULL hdr_curr is the header of the block at the current list position |
| Hmalloc.ScanStep | hmalloc.c:84-86 | Following hdr_next from a non-fitting block moves to the next list position, with hdr_last the block just left |
| Hmalloc.ScanEnd | hmalloc.c:42 | When the scan runs out, no block fits and hdr_last is the last block (NULL for an empty list) |
| Hmalloc.WalkStart | hmalloc.c:165-167 | The walk starts at the tail with shift equal to its span |
| Hmalloc.WalkStep | hmalloc.c:169-177 | A step to a free predecessor moves one position back, clears that block's hdr_next and adds its span to shift |
| Hmalloc.WalkEnd | hmalloc.c:169 | The walk stops exactly at the start of the maximal free run before the tail |
| Hmalloc.RunStartIs | hmalloc.c:169-178 | A position j whose run to i is all free and whose predecessor is occupied (or absent) is where the walk stops |
| Hmalloc.WalkRelease | hmalloc.c:169-188 | When the walk stops at the start of the free run, `brk - shift` and the headers below it, with the survivor's hdr_next cleared, are exactly the corrected release, which is well formed |
| Hmalloc.FreeBranches | hmalloc.c:141-193 | hfree's four branches: unknown header and already-free header are no-ops, a header with a successor is only marked free, and a header without one is the tail and is released |
| Hmalloc.BelowStep | hmalloc.c:175-177 | When the walk moves the cut down to q, the header it just rewrote at q lies at the cut, so the headers below the new cut are those of the original heap |
| Hmalloc.BelowAfterUpdate | hmalloc.c:175 | Updating a header below the bound commutes with dropping the headers above it |

## Left out

- Payload bytes and real memory are not modelled: addresses are natural numbers, and the heap holds only headers. No pointer casts are modelled.
- sbrk is a break counter with a limit. `sbrk(0)` and the final shrink are assumed to succeed, as the source assumes (hmalloc.c:25-26, hmalloc.c:34-35, hmalloc.c:180-181).
- The platform values `alignof(max_align_t)` and `sizeof(mbheader)` are parameters. The layout of `mbheader` in memory is not modelled: only its size is used.
- Concurrency is not modelled; the code is single-threaded.
- The `int free` field is a boolean. The source only writes 0 and 1 and tests `== 1` or non-zero.
- hfree's `shift` is held as a non-negative integer that the break is lowered by, not as a negated `size_t` cast to `intptr_t`.
- Hmalloc.Allocator.Hfree: requires a non-empty block list when p is not NULL. The source dereferences heap_start, or memory at the break, when the list is empty (hmalloc.c:139-143).
- Hmalloc.Allocator.Hmalloc: requires `size < 2^64` (a size_t). It serves a size whose ALIGN wraps (size > SIZE_MAX - A + 1) with the wrapped, smaller need, as the source does (Align.AlignWrapsAtSizeMax); no correction of that wrap is modelled. MallocFacts.MallocServesSize gives at least `size` bytes only for sizes where ALIGN does not wrap.
- Hmalloc.Allocator.constructor: requires the initial break to be above 0. A break at address 0 would make heap_start == NULL after its capture (hmalloc.c:23-27), which no hosted program break is.
- Hmalloc.Allocator.Hmalloc: implements the corrected growth step of the second Findings row. An sbrk increment that would be 2^64 or more, or negative after the intptr_t cast, is a failed growth (NULL).
- Hmalloc.Allocator.LowerBreak: implements the corrected tail release of the first Findings row. It also clears the surviving last block's hdr_next, so the invariant holds after every hfree.
- The source's later reads of headers beyond the break through the stale link (a scan in hmalloc, or the validation walk in hfree) have no meaning in the model. FreeFacts.StaleLinkAsWritten exposes the dangling link only.
- Hmalloc.Allocator.LowerBreak: reads the stopping block's hdr_prev after the break has been lowered past that block, as the source does (hmalloc.c:181-185). The header then lies in memory already given back, at heap_start when the heap empties. The model reads it from the header map before that map is trimmed. It thereby assumes released memory keeps its contents, as the source does.
- The scan is a separate method that stops at the first fitting block. The header writes for that block are done by TakeBlock after the loop, not inside it.

## Findings

| source | as written | input that shows it | evidently intended | confidence | as-written member | corrected member |
|---|---|---|---|---|---|---|
| hmalloc.c:169-181 | The backward walk sets hdr_next to NULL only on the free blocks it discards. The occupied block where it stops keeps hdr_next pointing at the released tail's header, which now lies at the new break. | `a = hmalloc(1); b = hmalloc(1); hfree(b);`: a's header is last but its hdr_next is still b's header address. A later `hfree(a)` only marks it free instead of lowering the break, and a later hmalloc scan follows the link past the break. With `hfree(b); hfree(b)`, the second call finds b through that link. It reads b's free flag as 0, because the tail path never sets it, and b's hdr_next as NULL. It then releases b again, lowering the break below the end of the live block a. So a double free is not a no-op. | The surviving last block ends the list: its hdr_next is NULL. | not executed | FreeFacts.StaleLinkAsWritten | Hmalloc.Allocator.LowerBreak |
| hmalloc.c:93 | `(intptr_t)(al_payload_sz + AL_HDR_SZ)` is computed modulo 2^64 and then cast. A request of 2^64 - AL_HDR_SZ, which ALIGN leaves unchanged, becomes sbrk(0). That succeeds, and hmalloc returns a block of about 2^64 bytes that occupies no memory. Sums from 2^63 up become a negative, shrinking increment. | `hmalloc(SIZE_MAX + 1 - AL_HDR_SZ)` when no free block fits | Growth fails and hmalloc returns NULL when need + AL_HDR_SZ cannot be added to the break | not executed | MallocFacts.MallocOverflowAsWritten | MallocFacts.MallocNull |
