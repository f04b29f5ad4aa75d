# QIMalloc in Dafny

A model of QIMalloc ("quick incremental memory allocator"), a bump
allocator for WebAssembly linear memory. The allocator keeps one cursor.
Each request is served this way:

- The size is rounded up to a multiple of the alignment.
- On first use the cursor, 0 until then, is set to the end of the mapped
  memory.
- If the block does not fit, the memory is grown by the missing 64 KiB pages.
- The cursor moves past the block, and the block's start is returned.

Freeing does nothing.

Files:

- `host.dfy` (module `Wasm32`): the host linear memory. It is a page count
  with a growth limit. `memory_size` reads the count. `memory_grow` returns
  the old count, or `usize::MAX` when the limit would be passed.
- `qimalloc.dfy` (module `Allocator`):
  - `round_to_align` and the page arithmetic.
  - Pure specification functions for `alloc_pages`, `alloc_impl` and
    `GlobalAlloc::alloc`.
  - The class `QIMalloc`, whose methods rewrite the cursor field and grow
    the host memory in place. Each method is proved to follow its
    specification function.
- `properties.dfy` (module `AllocatorProperties`): what the allocator
  promises, proved about the specification functions. This covers single
  requests and any sequence of requests (`Serve`).
- `overflow.dfy` (module `UsizeOverflow`): the same allocation step with
  wasm32's 32-bit wrapping arithmetic, as the code performs it.

Arithmetic in the main model is on unbounded naturals. The host never maps
more than 65536 pages (4 GiB), so a request that would end beyond that is
refused by `memory_grow`. The 32-bit code instead wraps; see "## Findings".

The model follows the code, including where it does less than an
allocator is usually expected to:

- Only the size is rounded, never the address (src/lib.rs:69, :92). A
  returned address is aligned only when the cursor already was. This holds
  for the first request and for runs with one alignment dividing the page
  size (`AlignedWhenBaseAligned`, `FirstRequestAligned`, `ServeAligned`).
  `UnalignedAfterSmallerAlignment` shows that `alloc(1, 1)` then
  `alloc(8, 8)` returns an odd address.
- A request that reaches the capacity check starts the cursor (line 77).
  The cursor keeps that value even when page growth then fails.
- The cursor starts at the end of mapped memory. When no page is mapped,
  that end is address 0. The first block is then handed out at 0, and
  `GlobalAlloc::alloc` reports that success as null
  (`FirstBlockOnEmptyMemoryIsNull`). With any page mapped, null means
  failure exactly (`NullExactlyOnFailure`).

## Model

| member | source | states |
|---|---|---|
| `Allocator.RoundToAlign` | src/lib.rs:48-54 | the result is at least `size`, a multiple of `align`, and less than `align` above `size` |
| `Allocator.RoundToAlignLeast` | src/lib.rs:48-54 | no multiple of `align` that is at least `size` is smaller than the rounded size |
| `Allocator.RoundToAlignIdempotent` | src/lib.rs:48-54 | rounding an already rounded size changes nothing |
| `Allocator.PagesNeeded` | src/lib.rs:85-86 | the pages requested are at least one, cover `total` bytes, and one fewer would not |
| `Wasm32.GrowSentinelExact` | src/lib.rs:96-101 | `memory_grow` returns the sentinel exactly when the host maximum would be passed; otherwise it returns the old page count and adds the pages |
| `Wasm32.Grow` | src/lib.rs:96-101 | `memory_grow` as a function: it never shrinks the memory and never changes the host maximum |
| `Wasm32.LinearMemory.MemorySize` | src/lib.rs:72 | returns the number of mapped pages |
| `Wasm32.LinearMemory.MemoryGrow` | src/lib.rs:96 | grows the memory in place as `Grow` specifies and keeps it valid |
| `Allocator.AllocPagesSpec` | src/lib.rs:95-103 | `alloc_pages` as a function: on success the address is the old mapped end, where the new pages begin; on a valid memory a refusal leaves the memory unchanged; the memory never shrinks |
| `Allocator.AllocImplSpec` | src/lib.rs:64-93 | `alloc_impl` as a function of cursor and memory: the cursor and the page count never decrease and the maximum is kept; a success returns the base and moves the cursor past it (the exact promises are the `AllocatorProperties` lemmas) |
| `Allocator.AllocSpec` | src/lib.rs:118-123 | `alloc` as a function: the same state change as `alloc_impl`, and a non-null pointer is always the address of a successful `alloc_impl` |
| `Allocator.QIMalloc.INIT` | src/lib.rs:60-62 | the cursor starts at 0, the "not yet started" value |
| `Allocator.QIMalloc.AllocImpl` | src/lib.rs:64-93 | the new cursor, the new host memory and the result are those of `AllocImplSpec` on the old cursor and memory |
| `Allocator.QIMalloc.AllocPages` | src/lib.rs:95-103 | one `memory_grow` call; the sentinel becomes the error, otherwise the result is the old page count times the page size |
| `Allocator.QIMalloc.Alloc` | src/lib.rs:118-123 | the state change of `alloc_impl`, with the address on success and null on error |
| `Allocator.QIMalloc.Dealloc` | src/lib.rs:124 | changes no state, whatever pointer and layout it is given |
| `AllocatorProperties.RejectsEmptyRequest` | src/lib.rs:65-67 | zero size or zero alignment returns the error; cursor and memory are unchanged |
| `AllocatorProperties.FirstRequestStartsAtMappedEnd` | src/lib.rs:71-78 | on first use the cursor becomes the mapped end, and stays there if the request fails; a success returns that address |
| `AllocatorProperties.SuccessAdvancesCursor` | src/lib.rs:82-92 | on success the address is the cursor before the call, and the new cursor is that plus the rounded size |
| `AllocatorProperties.FittingRequestSucceeds` | src/lib.rs:82-92 | a block that fits in the mapped memory is always served, without growing memory |
| `AllocatorProperties.GrowsByExactPages` | src/lib.rs:84-88 | a block that does not fit grows memory by exactly `ceil(needed / PAGE_SIZE) - cur_pages` pages; afterwards the cursor is mapped and one page fewer would not cover it; on refusal memory is unchanged and the cursor stays at its base |
| `AllocatorProperties.FailsExactlyBeyondMaximum` | src/lib.rs:64-93 | a request fails if and only if it is empty or its block would end beyond the host's maximum memory |
| `AllocatorProperties.AllocPreservesValid` | src/lib.rs:64-93 | every request keeps the memory mapped up to the cursor; it never moves the cursor back or shrinks the memory |
| `AllocatorProperties.ExternalGrowthPreservesValid` | src/lib.rs:72 | growth by someone else between requests keeps that invariant, since the capacity is read afresh on every call |
| `AllocatorProperties.AlignedWhenBaseAligned` | src/lib.rs:69-92 | the address and the new cursor are multiples of `align` when the cursor already was |
| `AllocatorProperties.FirstRequestAligned` | src/lib.rs:72-78 | the first request is aligned for every alignment that divides the page size |
| `AllocatorProperties.UnalignedAfterSmallerAlignment` | src/lib.rs:69-92 | `alloc(1, 1)` then `alloc(8, 8)` returns the odd address 65537 |
| `AllocatorProperties.ConsecutiveBlocksAdjacent` | src/lib.rs:82-92 | two successes in a row are exactly the first's rounded size apart |
| `AllocatorProperties.ThreePagesForTwoPagesAndAByte` | src/lib.rs:84-88 | from an empty memory, `alloc(2 * PAGE_SIZE + 1, 1)` grows memory to three pages |
| `AllocatorProperties.NullExactlyOnFailure` | src/lib.rs:118-123 | `alloc` returns null iff `alloc_impl` fails or returns address 0, which happens only on the first request with no page mapped |
| `AllocatorProperties.FirstBlockOnEmptyMemoryIsNull` | src/lib.rs:72-92 | with no page mapped, `alloc(8, 8)` maps a page and moves the cursor to 8, yet returns null |
| `AllocatorProperties.AllocKeepsBase` | src/lib.rs:72-92 | a request never moves back the address at which the next block would start |
| `AllocatorProperties.ServeBounds` | src/lib.rs:72-92 | over any sequence of requests the invariant holds and the cursor never decreases; each block starts at or after the starting base (from `INIT`, the end of the memory mapped before the first request) and ends at or before the final cursor |
| `AllocatorProperties.ServeDisjoint` | src/lib.rs:82-92 | the blocks handed out over any sequence of requests are in address order, pairwise disjoint and inside mapped memory |
| `AllocatorProperties.ServeAligned` | src/lib.rs:69-92 | with one alignment dividing the page size for every request, every block is aligned |
| `UsizeOverflow.AllocImplAsWritten` | src/lib.rs:69-92 | `alloc_impl` with 32-bit wrapping arithmetic: a success returns an address and sets a cursor that are both below 2^32 |
| `UsizeOverflow.CursorWrapsBackwards` | src/lib.rs:82-92 | in 32-bit arithmetic a valid 2 GiB request wraps the cursor backwards and returns a block past mapped memory; the unbounded model refuses it |
| `UsizeOverflow.FullMemoryRefusesFittingRequest` | src/lib.rs:73-87 | in 32-bit arithmetic a full 4 GiB memory reads as ending at 0, so a fitting request is refused; the unbounded model serves it |
| `UsizeOverflow.LastPageNeverGrown` | src/lib.rs:84-87 | in 32-bit arithmetic the page count of lines 85-86 wraps for a block ending in the last page, so growth is refused; the unbounded model grows one page and serves it |
| `UsizeOverflow.AsWrittenAgreesBelowLimit` | src/lib.rs:69-92 | below 65536 pages, for blocks ending a page short of 4 GiB, the 32-bit code and the unbounded model agree |

## Left out

- The `memory_size` and `memory_grow` intrinsics are foreign code. They are modelled as the `LinearMemory` page counter with a fixed maximum of at most 65536 pages.
- `memory_grow` refuses exactly when the fixed maximum would be passed. A real host may also refuse below its maximum (for lack of address space); the model does not capture that. The "only if" half of `FailsExactlyBeyondMaximum` rests on this choice.
- `UnsafeCell` and the raw-pointer casts are not modelled. The cursor is a plain `nat` field, and addresses are naturals with null as 0.
- `unsafe impl Sync` and any concurrent use are not modelled. Every call runs alone.
- The non-wasm32 `alloc_impl` stub is not modelled; it only calls `unimplemented!()`.
- The `nightly` feature choice of `AllocErr` is not modelled; there is one error value.
- `Layout`'s guarantee that the alignment is a power of two is not assumed. The code does not rely on it, so the model accepts any alignment.
- Memory contents are not modelled. Reads and writes through returned pointers are outside the allocator.
- Allocator.QIMalloc.AllocImpl: computes on unbounded naturals, not 32-bit `usize`. Its contract therefore does not show the wrap-around of lines 73, 82, 85, 86 and 92; `UsizeOverflow` models that separately.
- Allocator.RoundToAlign: does not model the overflow of `size + (align - size % align)` near `usize::MAX`. At the call of line 69 a valid `Layout` never gets there. At the call of line 85 it does (see "## Findings"); `UsizeOverflow.AllocImplAsWritten` models that wrap.

## Findings

| source | as written | input that shows it | evidently intended | confidence | as-written member | corrected member |
|---|---|---|---|---|---|---|
| src/lib.rs:82 | `*ptr + size` is computed in 32-bit `usize` and wraps, so no page is requested and the cursor moves backwards | cursor 0xFFFE_FFF0, 65535 of 65536 pages mapped, `alloc(0x7FFF_FFFF, 1)` returns 0xFFFE_FFF0 and sets the cursor to 0x7FFE_FFEF | refuse a block that cannot fit below 4 GiB (null) and keep the cursor | not executed; proved on the 32-bit model | `UsizeOverflow.CursorWrapsBackwards` | `AllocatorProperties.FailsExactlyBeyondMaximum` |
| src/lib.rs:73 | `cur_pages * PAGE_SIZE` wraps to 0 when all 65536 pages are mapped, and line 86 then underflows | cursor 0x1000_0000, 65536 pages mapped, `alloc(16, 1)` fails | serve a block that fits in mapped memory | not executed; proved on the 32-bit model | `UsizeOverflow.FullMemoryRefusesFittingRequest` | `AllocatorProperties.FittingRequestSucceeds` |
| src/lib.rs:85 | `round_to_align(total_bytes_needed, PAGE_SIZE)` wraps to 0 for a total past 0xFFFF_0000, and line 86 then underflows, so the last of the 65536 pages can never be grown | cursor not started, 65535 of 65536 pages mapped, `alloc(1, 1)` fails | grow the one missing page and return 0xFFFF_0000 | not executed; proved on the 32-bit model | `UsizeOverflow.LastPageNeverGrown` | `AllocatorProperties.GrowsByExactPages` |
