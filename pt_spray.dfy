/**
 * Page-table spray: map one shared page at the start of each of `nr_tables`
 * consecutive 2 MiB windows, so that the kernel has to allocate one page
 * table per window; unspray: unmap them again, all but the first.
 */
module PtSpray {
  import opened Platform
  import opened Os

  /** 2^32: the loop counters are `unsigned`. */
  const UINT_LIMIT: int := 0x1_0000_0000

  type u32 = x: int | 0 <= x < UINT_LIMIT

  /** `pt_spray_args_t` without the file descriptor, which the model does not track. */
  datatype SprayArgs = SprayArgs(start: u64, nrTables: u32)

  /** Slot `i`: the address `start + kX86_64PageTableSpan * i`, in 64-bit arithmetic. */
  function Slot(start: u64, i: nat): u64
  {
    Wrap(start + PAGE_TABLE_SPAN * i)
  }

  /** The slots with index in [lo, hi). */
  ghost function Slots(start: u64, lo: nat, hi: nat): set<u64>
  {
    set i: nat | lo <= i < hi :: Slot(start, i)
  }

  /** The `mmap` calls for slots lo, ..., hi - 1, in that order. */
  ghost function SlotMaps(start: u64, lo: nat, hi: nat): seq<Syscall>
    requires lo <= hi
  {
    seq(hi - lo, j requires 0 <= j < hi - lo => MapFixed(Slot(start, lo + j)))
  }

  /** The `munmap` calls for slots lo, ..., hi - 1, in that order. */
  ghost function SlotUnmaps(start: u64, lo: nat, hi: nat): seq<Syscall>
    requires lo <= hi
  {
    seq(hi - lo, j requires 0 <= j < hi - lo => Unmap(Slot(start, lo + j), PAGE_SIZE))
  }

  // ---------------------------------------------------------------------
  // Slot geometry

  lemma WrapSub(a: int, b: int)
    ensures Wrap(Wrap(a) - b) == Wrap(a - b)
  {
    DivMod(a, WORD);
    ModUnique(Wrap(a) - b, WORD, (a - b) / WORD - a / WORD, Wrap(a - b));
  }

  lemma SpanTimesCount(i: nat)
    requires i < UINT_LIMIT
    ensures PAGE_TABLE_SPAN * i < WORD
  {
    MulMonotone(PAGE_TABLE_SPAN, i, UINT_LIMIT);
  }

  /** Slots reachable by an `unsigned` counter are pairwise distinct, even where they wrap. */
  lemma SlotDistinct(start: u64, i: nat, j: nat)
    requires i < UINT_LIMIT && j < UINT_LIMIT && i != j
    ensures Slot(start, i) != Slot(start, j)
  {
    var lo, hi := if i < j then i else j, if i < j then j else i;
    SpanTimesCount(hi - lo);
    MulStrict(PAGE_TABLE_SPAN, 0, hi - lo);
    assert start + PAGE_TABLE_SPAN * hi == (start + PAGE_TABLE_SPAN * lo) + PAGE_TABLE_SPAN * (hi - lo);
    WrapInjective(start + PAGE_TABLE_SPAN * lo, PAGE_TABLE_SPAN * (hi - lo));
  }

  /** Slot `i` lies in the `i`-th 2 MiB window after `start`, at its first byte. */
  lemma SlotWindow(start: u64, i: nat)
    requires i < UINT_LIMIT
    ensures Wrap(Slot(start, i) - start) / PAGE_TABLE_SPAN == i
    ensures Wrap(Slot(start, i) - start) % PAGE_TABLE_SPAN == 0
  {
    WrapSub(start + PAGE_TABLE_SPAN * i, start);
    SpanTimesCount(i);
    ModUnique(Wrap(Slot(start, i) - start), PAGE_TABLE_SPAN, i, 0);
  }

  /** The first slot is not among the later ones. */
  lemma FirstSlotApart(start: u64, n: nat)
    requires n <= UINT_LIMIT
    ensures Slot(start, 0) !in Slots(start, 1, n)
  {
    forall i: nat | 1 <= i < n
      ensures Slot(start, i) != Slot(start, 0)
    {
      SlotDistinct(start, 0, i);
    }
  }

  lemma SlotsSnoc(start: u64, lo: nat, hi: nat)
    requires lo <= hi
    ensures Slots(start, lo, hi + 1) == Slots(start, lo, hi) + {Slot(start, hi)}
  {
  }

  /**
   * A complete spray followed by a complete unspray leaves the address space
   * as it was, minus whatever sat at the later slots beforehand, plus the
   * first slot; of the sprayed slots exactly the first remains.
   */
  lemma SprayThenUnspray(m: set<u64>, start: u64, n: nat)
    requires 1 <= n <= UINT_LIMIT
    ensures (m + Slots(start, 0, n)) - Slots(start, 1, n) == (m - Slots(start, 1, n)) + {Slot(start, 0)}
    ensures ((m + Slots(start, 0, n)) - Slots(start, 1, n)) * Slots(start, 0, n) == {Slot(start, 0)}
  {
    FirstSlotApart(start, n);
    assert Slots(start, 0, n) == {Slot(start, 0)} + Slots(start, 1, n) by {
      forall a | a in Slots(start, 0, n)
        ensures a in {Slot(start, 0)} + Slots(start, 1, n)
      {
        var i: nat :| 0 <= i < n && a == Slot(start, i);
        if i > 0 {
          assert a in Slots(start, 1, n);
        }
      }
    }
  }

  // ---------------------------------------------------------------------
  // The two loops

  /**
   * `pt_spray_tables`: map slots 0, 1, ... in order and stop at the first
   * failure. Returns 0 exactly when every slot was mapped; on failure at
   * slot `k` the slots before it stay mapped, slot `k` was attempted (and
   * may have lost what was mapped there) and no later slot was.
   */
  method PtSprayTables(proc: Process, args: SprayArgs) returns (rc: int, ghost k: nat)
    modifies proc
    ensures rc == 0 || rc == -1
    ensures k <= args.nrTables
    ensures rc == 0 <==> k == args.nrTables
    ensures rc == 0 ==> proc.mapped == old(proc.mapped) + Slots(args.start, 0, k)
    ensures rc == -1 ==>
              old(proc.mapped) + Slots(args.start, 0, k) - {Slot(args.start, k)} <= proc.mapped
              <= old(proc.mapped) + Slots(args.start, 0, k)
    ensures proc.trace == old(proc.trace) + SlotMaps(args.start, 0, if rc == 0 then k else k + 1)
  {
    var i := 0;
    while i < args.nrTables
      invariant i <= args.nrTables
      invariant proc.mapped == old(proc.mapped) + Slots(args.start, 0, i)
      invariant proc.trace == old(proc.trace) + SlotMaps(args.start, 0, i)
    {
      var addr := Wrap(args.start + PAGE_TABLE_SPAN * i);
      var ok := proc.MmapFixed(addr);
      assert SlotMaps(args.start, 0, i + 1) == SlotMaps(args.start, 0, i) + [MapFixed(addr)];
      if !ok {
        rc, k := -1, i;
        return;
      }
      SlotsSnoc(args.start, 0, i);
      i := i + 1;
    }
    rc, k := 0, i;
  }

  /**
   * `pt_unspray_tables`: unmap slots 1, 2, ... in order and stop at the
   * first failure; slot 0 is kept. With at most one slot nothing happens.
   * Slots [1, k) are removed; 0 is returned exactly when that is every slot
   * but the first, and on failure slot `k` was attempted and no later slot.
   */
  method PtUnsprayTables(proc: Process, args: SprayArgs) returns (rc: int, ghost k: nat)
    modifies proc
    ensures rc == 0 || rc == -1
    ensures 1 <= k && (k <= args.nrTables || k == 1)
    ensures rc == 0 <==> k >= args.nrTables
    ensures args.nrTables <= 1 ==> rc == 0 && proc.mapped == old(proc.mapped) && proc.trace == old(proc.trace)
    ensures proc.mapped == old(proc.mapped) - Slots(args.start, 1, k)
    ensures proc.trace == old(proc.trace) + SlotUnmaps(args.start, 1, if rc == 0 then k else k + 1)
    ensures Slot(args.start, 0) in old(proc.mapped) ==> Slot(args.start, 0) in proc.mapped
  {
    FirstSlotApart(args.start, args.nrTables);
    var i := 1;
    while i < args.nrTables
      invariant 1 <= i && (i <= args.nrTables || i == 1)
      invariant proc.mapped == old(proc.mapped) - Slots(args.start, 1, i)
      invariant proc.trace == old(proc.trace) + SlotUnmaps(args.start, 1, i)
    {
      var addr := Wrap(args.start + PAGE_TABLE_SPAN * i);
      var ok := proc.MunmapPage(addr);
      assert SlotUnmaps(args.start, 1, i + 1) == SlotUnmaps(args.start, 1, i) + [Unmap(addr, PAGE_SIZE)];
      if !ok {
        rc, k := -1, i;
        FirstSlotApart(args.start, i);
        return;
      }
      SlotsSnoc(args.start, 1, i);
      i := i + 1;
    }
    rc, k := 0, i;
    FirstSlotApart(args.start, i);
  }
}
