# rubicon: memory-layout primitives, modelled in Dafny

rubicon is a toolkit for steering the Linux page allocator. It can place a
chosen physical page where the kernel will pick it for its next page-table
allocation. This project models the toolkit's memory-mapping layer:

- `src/rubicon.cpp`:
  - the page-alignment test;
  - strided address generation;
  - enumeration of the pages of a buddy block (`pages_in_span`);
  - mapping and unmapping page lists one page at a time;
  - the per-CPU-list flush (`pcp_evict`);
  - the block merge built from these;
  - the size of the memory-exhaustion mapping.
- `src/page_block.cpp`: acquiring a physically contiguous 4 MiB block by
  draining memory, choosing a candidate block and moving it to a fixed
  virtual address (`get_page_block_once`, `get_4mb_block`).
- `src/pt_spray.cpp`: page-table spraying and unspraying.

The files are:

- `platform.dfy`: module `Platform`.
  - The 64-bit word. `uintptr_t`, `size_t` and `unsigned long` all wrap at 2^64, and `Wrap` makes that explicit.
  - The constants of `src/rubicon.hpp`.
  - An integer bitwise AND, with the lemma that masking with 2^k - 1 keeps the remainder modulo 2^k.
- `os.dfy`: module `Os`, the kernel as the toolkit sees it.
  - A `Process` class whose `mapped` field is the set of page addresses currently mapped.
  - A ghost `trace` of every memory-mapping system call issued.
  - One method per system call the core uses (`mmap` of a fixed shared page, `mmap` of anonymous memory, `munmap`, `mremap`).
  - Each call may fail, and the outcome is chosen nondeterministically. A misaligned address is refused and changes nothing, and so does an `mremap` with an empty length or overlapping ranges. A failed fixed-address `mmap`, or a failed `mremap` whose arguments pass those checks, may already have removed what was mapped at its destination; any other failed call leaves the mappings unchanged.
- `rubicon.dfy`: module `Rubicon`, the functions of `src/rubicon.cpp`.
  - Exceptions become a `Status`/`Result` value. `InvalidArgument` carries one reason per failed argument check (`map_pages` and `unmap_pages` share the page-misalignment reason); `SystemError` stands for `std::system_error`.
  - Loops become methods proved equal to a specification function (`Strided`, `Span`), or proved to add or remove exactly the pages handled so far.
- `page_block.dfy`: module `PageBlock`, the functions of `src/page_block.cpp`.
  - The virtual-to-physical translation is a parameter: one total function for the drained mapping and one for the mapping after the move.
- `pt_spray.dfy`: module `PtSpray`, the functions of `src/pt_spray.cpp`.

When the drain mapping fails, `get_page_block_once` prints a message and exits the process (`src/page_block.cpp:19-22`); `GetPageBlockOnce` returns `Exited` and `Get4MbBlock` stops.

## Model

| member | source | states |
|---|---|---|
| Rubicon.IsPageAligned | src/rubicon.cpp:29-31 | masking with `PAGE_SIZE - 1` gives zero exactly when the address is a multiple of the page size |
| Rubicon.StridedAddresses | src/rubicon.cpp:33-61 | the loop returns exactly `Strided`: the validation result, or `count` addresses `base + stride * i` with 64-bit wrap-around |
| Rubicon.StridedValidation | src/rubicon.cpp:36-51 | success iff `count == 0` or stride non-zero, stride a page multiple and base aligned; each error iff its check is the first to fail, in source order |
| Rubicon.StridedAligned | src/rubicon.cpp:48-58 | a successful result has `count` elements, all page-aligned, even where the arithmetic wraps |
| Rubicon.StridedIncreasing | src/rubicon.cpp:56-58 | when the last address stays below 2^64, element `i` is exactly `base + stride * i` and the sequence strictly increases |
| Rubicon.StridedDistinct | src/rubicon.cpp:56-58 | for any base, when `stride * (count - 1)` is below 2^64, no address appears twice, even where the addresses wrap |
| Rubicon.PagesInSpan | src/rubicon.cpp:64-81 | the pointer-stepping loop returns exactly `Span`: refusal of a misaligned base, else the pages from `base` up to `base + (PAGE_SIZE << order)` with wrap-around |
| Rubicon.SpanMisaligned | src/rubicon.cpp:67-69 | the result is an error iff the base is misaligned, and the error is `InvalidArgument` for the base |
| Rubicon.ShiftFits | src/rubicon.cpp:71 | for order below 52 the shifted page size fits in 64 bits |
| Rubicon.ShiftOutOfWord | src/rubicon.cpp:71 | a shift that leaves 64 bits produces a span of zero |
| Rubicon.SpanPages | src/rubicon.cpp:71-78 | for an aligned block below 2^64: `2^order` pages, element `i` at `base + i * PAGE_SIZE`, aligned, each one page after the previous |
| Rubicon.SpanAtTop | src/rubicon.cpp:71-77 | for an aligned block reaching 2^64 the result is an empty list, not an error |
| Rubicon.SpanAligned | src/rubicon.cpp:77-78 | every returned page is page-aligned |
| Rubicon.MapPages | src/rubicon.cpp:83-100 | stops at the first misaligned page (`InvalidArgument`) or failed `mmap` (`SystemError`); exactly the pages before it are added to the mapping (a failing `mmap` may also have removed what was at its page), nothing is rolled back, and exactly those pages (plus the failing one for `SystemError`) were passed to `mmap`, in order |
| Rubicon.UnmapPages | src/rubicon.cpp:102-114 | the same for `munmap`: exactly the pages before the stopping point are removed, every other address keeps its state |
| Rubicon.PcpEvict | src/rubicon.cpp:19-27 | maps the 32 MiB push region and unmaps it if the map worked; returns 0 or -1, and -1 with nothing left behind when the map fails; when the unmap fails, exactly the mapped 32 MiB region is left behind; otherwise the process's mappings are unchanged |
| Rubicon.BlockMerge | src/rubicon.cpp:116-123 | a misaligned target is refused with no call issued; otherwise the block's pages are unmapped in order; the flush runs iff every unmap succeeded and `order != 0`; its result is ignored; the new mappings are the old ones minus the unmapped pages, plus the flush region only when the flush's own unmap failed |
| Rubicon.ExhaustPagesSizeBytes | src/rubicon.cpp:125-127 | available bytes minus the 256 MiB reserve when there are at least that many; otherwise a wrapped value within 256 MiB of 2^64 |
| Os.Process.MmapFixed | src/rubicon.cpp:90-93 | a misaligned address fails and changes nothing; on success exactly that page is added; on failure at most that page is removed; the call is logged |
| Os.Process.MunmapPage | src/rubicon.cpp:109 | a misaligned address fails; on success exactly that page is removed; the call is logged |
| Os.Process.MmapAnon | src/rubicon.cpp:20-21 | an empty length fails; on success a fresh aligned region disjoint from every existing mapping is added; the call is logged |
| Os.Process.Munmap | src/rubicon.cpp:26 | a misaligned, empty or overflowing range fails; on success exactly its pages are removed; the call is logged |
| Os.Process.Mremap | src/page_block.cpp:45-47 | success requires aligned, non-overlapping ranges and a fully mapped source; the source pages are removed and the destination pages added; a misaligned address, an empty length or overlapping ranges fail and change nothing; any other failure removes at most destination pages; the call is logged |
| PageBlock.DrainSize | src/page_block.cpp:9-13 | available bytes minus the 3 GiB reserve when there are at least that many, a value within 3 GiB of 2^64 otherwise; always a page multiple |
| PageBlock.CandidatePlacement | src/page_block.cpp:30-38 | for a drain below 2^64, the candidate 4 MiB block lies inside the drain iff the drain holds the last page, its physical offset and one block; it then ends where the last page's physical block begins |
| PageBlock.LinearCandidateAligned | src/page_block.cpp:30-38 | when the drain is physically linear and holds the candidate, the candidate's first page starts a 4 MiB physical block |
| PageBlock.AlignedLinearBlockAccepted | src/page_block.cpp:53-61 | a physically linear block whose first frame starts a 4 MiB block passes the contiguity check |
| PageBlock.LinearAttemptAccepted | src/page_block.cpp:24-61 | a linear drain holding the candidate, with frames kept by the move, yields a block that passes the check |
| PageBlock.AcceptanceIsHeuristic | src/page_block.cpp:57-61 | a block with correct end frames and scattered interior passes the check although it is not linear for any offset |
| PageBlock.GetPageBlockOnce | src/page_block.cpp:11-64 | exits with the mappings unchanged if the drain cannot be mapped; otherwise issues map drain, move candidate, unmap drain in that order; returns `address` iff the move succeeded and the check passed, `MAP_FAILED` otherwise; states the new mappings exactly for each combination of move and unmap succeeding or failing (a fresh drain, the candidate moved to `address`, possibly taking pages of earlier mappings when it lies outside the drain, the drain released); the moved block stays mapped outside the drain |
| PageBlock.Get4MbBlock | src/page_block.cpp:66-74 | never returns `MAP_FAILED`: a returned pointer is `address`, whose block passed the check in attempt `k` and is mapped outside that attempt's drain; every earlier attempt returned `MAP_FAILED`; it keeps retrying iff every attempt failed; the trace is the attempts' call logs in order; the mappings after each attempt follow from those before it as in `GetPageBlockOnce` (unchanged on exit; fresh drain, candidate moved to `address`, drain released when its unmap succeeded) |
| PtSpray.SlotDistinct | src/pt_spray.cpp:9-10 | slots reachable by the `unsigned` counter are pairwise distinct, even where the addition wraps |
| PtSpray.SlotWindow | src/pt_spray.cpp:10 | slot `i` is at offset 0 of the `i`-th 2 MiB window after `start` |
| PtSpray.FirstSlotApart | src/pt_spray.cpp:24-25 | slot 0 is none of the slots the unspray loop visits |
| PtSpray.SprayThenUnspray | src/pt_spray.cpp:8-33 | a complete spray then a complete unspray leave the prior mappings minus the later slots, plus slot 0; of the sprayed slots exactly slot 0 remains |
| PtSpray.PtSprayTables | src/pt_spray.cpp:8-21 | maps slots in ascending order and stops at the first failure; 0 iff all slots were mapped; the slots before the failing one stay mapped, no later slot is attempted, and the failing slot may have lost what was mapped there; returns 0 or -1 |
| PtSpray.PtUnsprayTables | src/pt_spray.cpp:23-33 | with at most one slot does nothing and returns 0; otherwise unmaps slots 1, 2, ... in order and stops at the first failure; exactly the slots before it are removed; slot 0 is never unmapped |

## Left out

- The PA translation (`rubench_va_to_pa`) is a parameter. Its own failure path, which exits the process, is not modelled; the kernel module it queries is not part of this model.
- The file descriptor passed to `map_pages` and kept in `pt_spray_args_t` is not tracked: the model records which page is mapped, not what backs it.
- `errno` and the message strings of the exceptions are not modelled. Each `invalid_argument` message becomes one `Reason` tag.
- The effect of `pcp_evict` on the kernel's per-CPU free lists cannot be observed through mappings and is not modelled. Only its calls and their effect on the address space are.
- Rubicon.PagesInSpan and Rubicon.BlockMerge require `order < 64`, because shifting a 64-bit value by 64 or more places is undefined in C++.
- Rubicon.ExhaustPagesSizeBytes requires the `long` product to be in range: signed overflow is undefined in C++.
- PageBlock.DrainSize requires only that the page count fits in a `long`, the type `sysconf` returns. `PAGE_SIZE` is `unsigned long`, so the product and the subtraction are unsigned and wrap, which `Wrap` models.
- Rubicon.Span: allocation failure is not modelled. `pages.reserve(span / PAGE_SIZE)` reserves `2^order` entries even when the loop then adds none (a block that reaches 2^64), and may throw `std::bad_alloc` or `std::length_error`; Rubicon.PagesInSpan, Rubicon.SpanMisaligned, Rubicon.SpanPages, Rubicon.SpanAtTop and Rubicon.BlockMerge assume the reservation succeeds.
- Rubicon.Strided: allocation failure is not modelled. `addrs.reserve(count)` throws `std::length_error` above the vector's maximum size (about 2^60 elements) and `std::bad_alloc` when memory runs out, so the success case of Rubicon.StridedValidation holds only when the allocation succeeds.
- PageBlock.Get4MbBlock: the source loops until an attempt succeeds, with no bound. The model runs over a finite list of per-attempt observations (available pages and translations) and returns `StillRetrying` when the list is exhausted, so it does not state that the loop terminates.
- PageBlock.GetPageBlockOnce: when `mremap` fails, the source passes `MAP_FAILED` to the PA translation. The model does the same but says nothing about the translated values in that case.
- PtSpray.SprayArgs gives `nr_tables` 32 bits. The definition of `pt_spray_args_t` is not part of this model, and a wider count would make the `unsigned` counter wrap and the loop never end.
- `random_pages_in_block` and `erase_pages` are not part of this model: no source file defines them.
- `pt_install`, `migratetype_escalation`, the file-based `evict_pcp`, the benchmark driver (`src/rubench.cpp`), the test programs and the scripts are outside the modelled core.
- Concurrency with other processes, which can invalidate every heuristic here, is not modelled. The model is single-threaded, as the toolkit is.
