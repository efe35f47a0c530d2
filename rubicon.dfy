/**
 * The page-set utilities and memory-mapping primitives of the toolkit:
 * alignment test, strided address generation, enumeration of the pages of a
 * buddy block, mapping and unmapping page lists one page at a time, the
 * per-CPU-list flush and the block merge built from them.
 */
module Rubicon {
  import opened Platform
  import opened Os

  /** Why an argument was refused: one tag per failed argument check (both page loops share `PageMisaligned`). */
  datatype Reason = ZeroStride | StrideNotPageMultiple | BaseMisaligned | PageMisaligned

  /** The two exception types the primitives throw. */
  datatype Error = InvalidArgument(reason: Reason) | SystemError

  datatype Result<T> = Ok(value: T) | Err(error: Error)

  /** Outcome of a primitive that returns nothing or throws. */
  datatype Status = Done | Failed(error: Error)

  /** Reserve that `exhaust_pages_size_bytes` leaves free: 256 MiB. */
  const EXHAUST_RESERVE: u64 := 0x1000_0000

  // ---------------------------------------------------------------------
  // Alignment

  /** `is_page_aligned`: the low twelve bits of the address are clear. */
  function IsPageAligned(addr: u64): (b: bool)
    ensures b <==> addr % PAGE_SIZE == 0
  {
    AndLowMask(addr, 12);
    Pow2Values();
    BitAnd(addr, PAGE_SIZE - 1) == 0
  }

  // ---------------------------------------------------------------------
  // strided_addresses

  /**
   * What `strided_addresses(base, count, stride)` returns: no validation at
   * all for `count == 0`; otherwise the three checks in their source order,
   * then `count` addresses `base + stride * i` computed in 64-bit arithmetic.
   */
  function Strided(base: u64, count: u64, stride: u64): Result<seq<u64>>
  {
    if count == 0 then Ok([])
    else if stride == 0 then Err(InvalidArgument(ZeroStride))
    else if stride % PAGE_SIZE != 0 then Err(InvalidArgument(StrideNotPageMultiple))
    else if !IsPageAligned(base) then Err(InvalidArgument(BaseMisaligned))
    else Ok(seq(count, i => Wrap(base + stride * i)))
  }

  /** `strided_addresses`: validate, then fill the vector in a counting loop. */
  method StridedAddresses(base: u64, count: u64, stride: u64) returns (r: Result<seq<u64>>)
    ensures r == Strided(base, count, stride)
  {
    if count == 0 {
      return Ok([]);
    }
    if stride == 0 {
      return Err(InvalidArgument(ZeroStride));
    }
    if stride % PAGE_SIZE != 0 {
      return Err(InvalidArgument(StrideNotPageMultiple));
    }
    var start := base;
    if !IsPageAligned(start) {
      return Err(InvalidArgument(BaseMisaligned));
    }
    var addrs: seq<u64> := [];
    var i: u64 := 0;
    while i < count
      invariant i <= count && |addrs| == i
      invariant forall j :: 0 <= j < i ==> addrs[j] == Wrap(start + stride * j)
    {
      addrs := addrs + [Wrap(start + stride * i)];
      i := i + 1;
    }
    assert addrs == seq(count, j => Wrap(base + stride * j));
    return Ok(addrs);
  }

  /**
   * `strided_addresses` succeeds exactly when `count` is zero or all three
   * checks pass, and an error names the first check that failed.
   */
  lemma StridedValidation(base: u64, count: u64, stride: u64)
    ensures Strided(base, count, stride).Ok?
            <==> count == 0 || (stride != 0 && stride % PAGE_SIZE == 0 && base % PAGE_SIZE == 0)
    ensures Strided(base, count, stride) == Err(InvalidArgument(ZeroStride))
            <==> count > 0 && stride == 0
    ensures Strided(base, count, stride) == Err(InvalidArgument(StrideNotPageMultiple))
            <==> count > 0 && stride != 0 && stride % PAGE_SIZE != 0
    ensures Strided(base, count, stride) == Err(InvalidArgument(BaseMisaligned))
            <==> count > 0 && stride != 0 && stride % PAGE_SIZE == 0 && base % PAGE_SIZE != 0
  {
  }

  /** Every address `strided_addresses` returns is page-aligned, wrap-around or not. */
  lemma StridedAligned(base: u64, count: u64, stride: u64)
    requires Strided(base, count, stride).Ok?
    ensures |Strided(base, count, stride).value| == count
    ensures forall i :: 0 <= i < count ==> IsPageAligned(Strided(base, count, stride).value[i])
  {
    var s := Strided(base, count, stride).value;
    forall i | 0 <= i < count
      ensures IsPageAligned(s[i])
    {
      if count > 0 {
        MultipleOfPage(stride, i);
        WrapKeepsAlignment(base + stride * i);
      }
    }
  }

  /**
   * When the last address does not pass 2^64, element `i` is exactly
   * `base + stride * i` and the addresses strictly increase, so none repeats.
   */
  lemma StridedIncreasing(base: u64, count: u64, stride: u64)
    requires Strided(base, count, stride).Ok? && count > 0
    requires base + stride * (count - 1) < WORD
    ensures var s := Strided(base, count, stride).value;
            |s| == count
            && (forall i :: 0 <= i < count ==> s[i] == base + stride * i)
            && (forall i, j :: 0 <= i < j < count ==> s[i] < s[j])
  {
    var s := Strided(base, count, stride).value;
    forall i | 0 <= i < count
      ensures s[i] == base + stride * i
    {
      if i < count - 1 {
        MulMonotone(stride, i, count - 1);
      }
    }
    forall i, j | 0 <= i < j < count
      ensures s[i] < s[j]
    {
      MulStrict(stride, i, j);
      if j < count - 1 {
        MulMonotone(stride, j, count - 1);
      }
    }
  }

  /**
   * A strided sequence whose total stride stays below 2^64 has no
   * duplicates, whatever the base, even where the addresses wrap.
   */
  lemma StridedDistinct(base: u64, count: u64, stride: u64, i: nat, j: nat)
    requires Strided(base, count, stride).Ok? && count > 0
    requires stride * (count - 1) < WORD
    requires i < count && j < count && i != j
    ensures Strided(base, count, stride).value[i] != Strided(base, count, stride).value[j]
  {
    var s := Strided(base, count, stride).value;
    var lo, hi := if i < j then i else j, if i < j then j else i;
    assert s[lo] == Wrap(base + stride * lo) && s[hi] == Wrap(base + stride * hi);
    StrideGap(stride, count, lo, hi);
    WrapInjective(base + stride * lo, stride * (hi - lo));
  }

  lemma StrideGap(stride: nat, count: nat, lo: nat, hi: nat)
    requires stride > 0 && lo < hi < count
    requires stride * (count - 1) < WORD
    ensures 0 < stride * (hi - lo) < WORD
    ensures stride * hi == stride * lo + stride * (hi - lo)
  {
    MulStrict(stride, 0, hi - lo);
    if hi - lo < count - 1 {
      MulMonotone(stride, hi - lo, count - 1);
    }
  }

  // ---------------------------------------------------------------------
  // pages_in_span

  /** `PAGE_SIZE << order` in 64-bit arithmetic. */
  function SpanBytes(order: u64): u64
  {
    Wrap(PAGE_SIZE * Pow2(order))
  }

  /**
   * What `pages_in_span(base, order)` returns: an error for a misaligned
   * base; otherwise the pages from `base` while below `last = base + span`,
   * where both the shift and the addition wrap at 2^64.
   */
  function Span(base: u64, order: u64): Result<seq<u64>>
  {
    if !IsPageAligned(base) then Err(InvalidArgument(BaseMisaligned))
    else
      var last := Wrap(base + SpanBytes(order));
      var n := if base < last then (last - base) / PAGE_SIZE else 0;
      Ok(seq(n, i => Wrap(base + i * PAGE_SIZE)))
  }

  /** `pages_in_span`: a loop stepping a page pointer from `base` up to `last`. */
  method PagesInSpan(base: u64, order: u64) returns (r: Result<seq<u64>>)
    requires order < 64
    ensures r == Span(base, order)
  {
    var first := base;
    if !IsPageAligned(first) {
      return Err(InvalidArgument(BaseMisaligned));
    }
    var span := Wrap(PAGE_SIZE * Pow2(order));
    var last := Wrap(first + span);
    SpanEndAligned(first, order);
    var pages: seq<u64> := [];
    var p := first;
    while p < last
      invariant first <= p && p % PAGE_SIZE == 0
      invariant first < last ==> p <= last
      invariant first >= last ==> pages == []
      invariant p == first + |pages| * PAGE_SIZE
      invariant forall j :: 0 <= j < |pages| ==> pages[j] == first + j * PAGE_SIZE
      decreases last - p
    {
      AlignedGap(p, last);
      pages := pages + [p];
      p := Wrap(p + PAGE_SIZE);
    }
    StepsMatchSpan(first, order, pages);
    return Ok(pages);
  }

  /** The end of a block starting at an aligned base is aligned, wrapped or not. */
  lemma SpanEndAligned(base: u64, order: u64)
    requires base % PAGE_SIZE == 0
    ensures Wrap(base + SpanBytes(order)) % PAGE_SIZE == 0
  {
    MultipleOfPage(PAGE_SIZE, Pow2(order));
    WrapKeepsAlignment(PAGE_SIZE * Pow2(order));
    WrapKeepsAlignment(base + SpanBytes(order));
  }

  /** The pages the loop collected, from `base` up to `last`, are the ones `Span` describes. */
  lemma StepsMatchSpan(base: u64, order: u64, pages: seq<u64>)
    requires base % PAGE_SIZE == 0
    requires var last := Wrap(base + SpanBytes(order));
      && (base >= last ==> pages == [])
      && (base < last ==> base + |pages| * PAGE_SIZE == last)
    requires forall j :: 0 <= j < |pages| ==> pages[j] == base + j * PAGE_SIZE
    ensures Ok(pages) == Span(base, order)
  {
    var last := Wrap(base + SpanBytes(order));
    var n := if base < last then (last - base) / PAGE_SIZE else 0;
    if base < last {
      ModUnique(last - base, PAGE_SIZE, |pages|, 0);
    }
    assert |pages| == n;
    forall j | 0 <= j < n
      ensures pages[j] == Wrap(base + j * PAGE_SIZE)
    {
    }
    assert pages == seq(n, j => Wrap(base + j * PAGE_SIZE));
  }

  /** A misaligned base is refused. */
  lemma SpanMisaligned(base: u64, order: u64)
    ensures Span(base, order).Err? <==> base % PAGE_SIZE != 0
    ensures Span(base, order).Err? ==> Span(base, order).error == InvalidArgument(BaseMisaligned)
  {
  }

  lemma SpanBytesExact(order: u64)
    requires PAGE_SIZE * Pow2(order) < WORD
    ensures SpanBytes(order) == PAGE_SIZE * Pow2(order)
  {
  }

  /**
   * For an aligned base whose block ends below 2^64, `pages_in_span` returns
   * the `2^order` pages of the block in ascending order, each one page after
   * the one before.
   */
  lemma SpanPages(base: u64, order: u64)
    requires base % PAGE_SIZE == 0
    requires base + PAGE_SIZE * Pow2(order) < WORD
    ensures Span(base, order).Ok?
    ensures var s := Span(base, order).value;
            |s| == Pow2(order)
            && (forall i :: 0 <= i < |s| ==> s[i] == base + i * PAGE_SIZE && s[i] % PAGE_SIZE == 0)
            && (forall i :: 0 < i < |s| ==> s[i] == s[i - 1] + PAGE_SIZE)
  {
    SpanBytesExact(order);
    var n := Pow2(order);
    ModUnique(PAGE_SIZE * n, PAGE_SIZE, n, 0);
    var s := Span(base, order).value;
    assert |s| == n;
    forall i | 0 <= i < n
      ensures s[i] == base + i * PAGE_SIZE && s[i] % PAGE_SIZE == 0
    {
      MulMonotone(PAGE_SIZE, i, n);
      MultipleOfPage(PAGE_SIZE, i);
    }
  }

  /**
   * When the block would reach or pass 2^64, `last` wraps to or below `base`
   * and `pages_in_span` returns no page at all, without an error.
   */
  lemma SpanAtTop(base: u64, order: u64)
    requires base % PAGE_SIZE == 0
    requires base + PAGE_SIZE * Pow2(order) >= WORD
    ensures Span(base, order) == Ok([])
  {
    var span := SpanBytes(order);
    if PAGE_SIZE * Pow2(order) >= WORD {
      ShiftOutOfWord(order);
      assert Wrap(base + span) == base;
    } else {
      assert span == PAGE_SIZE * Pow2(order);
      ModUnique(base + span, WORD, 1, base + span - WORD);
      assert Wrap(base + span) < base;
    }
    assert Span(base, order).value == [];
  }

  /** Shifting the page size fewer than 52 places stays within 64 bits. */
  lemma ShiftFits(order: nat)
    ensures order < 52 ==> PAGE_SIZE * Pow2(order) < WORD
  {
    if order < 52 {
      Pow2Values();
      Pow2Grows(order, 52);
      MulStrict(PAGE_SIZE, Pow2(order), Pow2(52));
    }
  }

  /** Shifting the page size 52 or more places leaves nothing in 64 bits. */
  lemma ShiftOutOfWord(order: u64)
    requires PAGE_SIZE * Pow2(order) >= WORD
    ensures SpanBytes(order) == 0
  {
    ShiftFits(order);
    Pow2Values();
    Pow2Add(52, order - 52);
    var m := Pow2(order - 52);
    assert PAGE_SIZE * Pow2(order) == PAGE_SIZE * (Pow2(52) * m);
    assert PAGE_SIZE * (Pow2(52) * m) == (PAGE_SIZE * Pow2(52)) * m;
    ModUnique(PAGE_SIZE * Pow2(order), WORD, m, 0);
  }

  /** Every page `pages_in_span` returns is page-aligned. */
  lemma SpanAligned(base: u64, order: u64)
    requires Span(base, order).Ok?
    ensures forall i :: 0 <= i < |Span(base, order).value| ==> IsPageAligned(Span(base, order).value[i])
  {
    var s := Span(base, order).value;
    forall i | 0 <= i < |s|
      ensures IsPageAligned(s[i])
    {
      MultipleOfPage(PAGE_SIZE, i);
      WrapKeepsAlignment(base + i * PAGE_SIZE);
    }
  }

  // ---------------------------------------------------------------------
  // map_pages / unmap_pages

  /** The `mmap` calls `map_pages` issues for a list of pages. */
  function MapCalls(pages: seq<u64>): seq<Syscall>
  {
    seq(|pages|, i requires 0 <= i < |pages| => MapFixed(pages[i]))
  }

  /** The `munmap` calls `unmap_pages` issues for a list of pages. */
  function UnmapCalls(pages: seq<u64>): seq<Syscall>
  {
    seq(|pages|, i requires 0 <= i < |pages| => Unmap(pages[i], PAGE_SIZE))
  }

  /** How many system calls a page loop issued: the failing call counts, a refused page does not. */
  function Issued(st: Status, k: nat): nat
  {
    if st == Failed(SystemError) then k + 1 else k
  }

  /**
   * `map_pages`: for each page in order, refuse it if misaligned, else map
   * it; the first refusal or failed `mmap` ends the loop. Pages before the
   * `k`-th are mapped by then, nothing is rolled back, and no page after the
   * `k`-th is touched; a failed `mmap` may have removed the old mapping at
   * the `k`-th page.
   */
  method MapPages(proc: Process, pages: seq<u64>) returns (st: Status, ghost k: nat)
    modifies proc
    ensures k <= |pages|
    ensures st == Done <==> k == |pages|
    ensures st != Done ==> st == if IsPageAligned(pages[k]) then Failed(SystemError)
                                 else Failed(InvalidArgument(PageMisaligned))
    ensures forall j :: 0 <= j < k ==> IsPageAligned(pages[j])
    ensures st != Failed(SystemError) ==> proc.mapped == old(proc.mapped) + Elems(pages[..k])
    ensures st == Failed(SystemError) ==>
              old(proc.mapped) + Elems(pages[..k]) - {pages[k]} <= proc.mapped <= old(proc.mapped) + Elems(pages[..k])
    ensures proc.trace == old(proc.trace) + MapCalls(pages[..Issued(st, k)])
  {
    var i := 0;
    while i < |pages|
      invariant i <= |pages|
      invariant forall j :: 0 <= j < i ==> IsPageAligned(pages[j])
      invariant proc.mapped == old(proc.mapped) + Elems(pages[..i])
      invariant proc.trace == old(proc.trace) + MapCalls(pages[..i])
    {
      var page := pages[i];
      if !IsPageAligned(page) {
        st, k := Failed(InvalidArgument(PageMisaligned)), i;
        return;
      }
      var ok := proc.MmapFixed(page);
      assert MapCalls(pages[..i + 1]) == MapCalls(pages[..i]) + [MapFixed(page)];
      if !ok {
        st, k := Failed(SystemError), i;
        return;
      }
      ElemsSnoc(pages, i);
      i := i + 1;
    }
    assert pages[..i] == pages;
    st, k := Done, i;
  }

  /**
   * `unmap_pages`: the same loop with `munmap`. Pages before the `k`-th are
   * unmapped, every other address keeps its state.
   */
  method UnmapPages(proc: Process, pages: seq<u64>) returns (st: Status, ghost k: nat)
    modifies proc
    ensures k <= |pages|
    ensures st == Done <==> k == |pages|
    ensures st != Done ==> st == if IsPageAligned(pages[k]) then Failed(SystemError)
                                 else Failed(InvalidArgument(PageMisaligned))
    ensures forall j :: 0 <= j < k ==> IsPageAligned(pages[j])
    ensures proc.mapped == old(proc.mapped) - Elems(pages[..k])
    ensures proc.trace == old(proc.trace) + UnmapCalls(pages[..Issued(st, k)])
  {
    var i := 0;
    while i < |pages|
      invariant i <= |pages|
      invariant forall j :: 0 <= j < i ==> IsPageAligned(pages[j])
      invariant proc.mapped == old(proc.mapped) - Elems(pages[..i])
      invariant proc.trace == old(proc.trace) + UnmapCalls(pages[..i])
    {
      var p := pages[i];
      if !IsPageAligned(p) {
        st, k := Failed(InvalidArgument(PageMisaligned)), i;
        return;
      }
      var ok := proc.MunmapPage(p);
      assert UnmapCalls(pages[..i + 1]) == UnmapCalls(pages[..i]) + [Unmap(p, PAGE_SIZE)];
      if !ok {
        st, k := Failed(SystemError), i;
        return;
      }
      ElemsSnoc(pages, i);
      i := i + 1;
    }
    assert pages[..i] == pages;
    st, k := Done, i;
  }

  // ---------------------------------------------------------------------
  // pcp_evict and block_merge

  /** The calls one per-CPU-list flush issues: map the push region, then unmap it if that worked. */
  ghost predicate IsFlush(calls: seq<Syscall>)
  {
    calls == [MapAnon(PCP_PUSH_SIZE)]
    || (|calls| == 2 && calls[0] == MapAnon(PCP_PUSH_SIZE)
        && calls[1].Unmap? && calls[1].len == PCP_PUSH_SIZE)
  }

  /**
   * `pcp_evict`: map a 32 MiB populated anonymous region and free it again.
   * Returns -1 when the mapping fails, otherwise what `munmap` returns; a
   * region that could not be unmapped stays behind as `residue`.
   */
  method PcpEvict(proc: Process) returns (rc: int, ghost calls: seq<Syscall>, ghost residue: set<u64>)
    modifies proc
    ensures rc == 0 || rc == -1
    ensures IsFlush(calls) && proc.trace == old(proc.trace) + calls
    ensures calls == [MapAnon(PCP_PUSH_SIZE)] ==> rc == -1 && residue == {}
    ensures |calls| == 2 && rc == -1 ==> residue == Region(calls[1].addr, PCP_PUSH_SIZE)
    ensures rc == 0 ==> residue == {}
    ensures residue !! old(proc.mapped)
    ensures proc.mapped == old(proc.mapped) + residue
  {
    var ok, flush := proc.MmapAnon(PCP_PUSH_SIZE);
    if !ok {
      return -1, [MapAnon(PCP_PUSH_SIZE)], {};
    }
    var freed := proc.Munmap(flush, PCP_PUSH_SIZE);
    calls := [MapAnon(PCP_PUSH_SIZE), Unmap(flush, PCP_PUSH_SIZE)];
    if freed {
      rc, residue := 0, {};
    } else {
      rc, residue := -1, Region(flush, PCP_PUSH_SIZE);
    }
  }

  /**
   * `block_merge(target, order)`: unmap the `2^order` pages of the block at
   * `target`, then flush the per-CPU list only when `order != 0`. A
   * misaligned target is refused before any call; a failed `munmap`
   * propagates and skips the flush.
   */
  method BlockMerge(proc: Process, target: u64, order: u64)
    returns (st: Status, ghost k: nat, ghost flush: seq<Syscall>, ghost residue: set<u64>)
    requires order < 64
    modifies proc
    ensures !IsPageAligned(target) ==>
              st == Failed(InvalidArgument(BaseMisaligned))
              && proc.mapped == old(proc.mapped) && proc.trace == old(proc.trace)
    ensures IsPageAligned(target) ==>
              var pages := Span(target, order).value;
              && k <= |pages|
              && (st == Done <==> k == |pages|)
              && (st != Done ==> st == Failed(SystemError))
              && proc.mapped == old(proc.mapped) - Elems(pages[..k]) + residue
              && proc.trace == old(proc.trace) + UnmapCalls(pages[..Issued(st, k)]) + flush
    ensures flush != [] <==> st == Done && order != 0
    ensures flush != [] ==> IsFlush(flush)
    ensures flush == [] ==> residue == {}
    ensures flush == [MapAnon(PCP_PUSH_SIZE)] ==> residue == {}
    ensures |flush| == 2 ==> residue == {} || residue == Region(flush[1].addr, PCP_PUSH_SIZE)
    ensures IsPageAligned(target) ==> residue !! (old(proc.mapped) - Elems(Span(target, order).value[..k]))
  {
    var pages;
    pages := PagesInSpan(target, order);
    if pages.Err? {
      st, k, flush, residue := Failed(pages.error), 0, [], {};
      return;
    }
    SpanAligned(target, order);
    st, k := UnmapPages(proc, pages.value);
    flush, residue := [], {};
    if st != Done {
      return;
    }
    if order != 0 {
      var rc;
      rc, flush, residue := PcpEvict(proc);
    }
  }

  // ---------------------------------------------------------------------
  // exhaust_pages_size_bytes

  /**
   * `exhaust_pages_size_bytes`: available physical memory in bytes minus a
   * 256 MiB reserve. The product is a `long`; the subtraction is unsigned,
   * so with less than the reserve available the result wraps to a value
   * within 256 MiB of 2^64.
   */
  function ExhaustPagesSizeBytes(avphys: int, pageSize: int): (r: u64)
    requires -LONG_LIMIT <= avphys * pageSize < LONG_LIMIT
    ensures avphys * pageSize >= EXHAUST_RESERVE ==> r + EXHAUST_RESERVE == avphys * pageSize
    ensures 0 <= avphys * pageSize < EXHAUST_RESERVE ==> r >= WORD - EXHAUST_RESERVE
  {
    Wrap(avphys * pageSize - EXHAUST_RESERVE)
  }
}
