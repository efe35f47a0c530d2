/**
 * Acquisition of a physically contiguous 4 MiB block: drain free memory so
 * that the buddy allocator has to split large blocks, take the last drained
 * page's physical address, walk back to the start of the 4 MiB-aligned
 * physical block before it, move that virtual range to a fixed address and
 * check heuristically (first and last page only) that it is contiguous.
 *
 * The virtual-to-physical translation is a parameter: a total function from
 * virtual page address to physical address, one for the drained mapping and
 * one for the mapping after the move.
 */
module PageBlock {
  import opened Platform
  import opened Os

  /** `ZONE_RESERVE`: memory left undrained so the system stays alive, 3 GiB. */
  const ZONE_RESERVE: u64 := 0xc000_0000
  /** `block_size`: two page blocks, 4 MiB. */
  const BLOCK_SIZE: u64 := 2 * PAGE_BLOCK_SIZE

  /**
   * `drain_size`: all available physical pages, in bytes, minus the reserve,
   * computed in `unsigned long`. With less than the reserve available the
   * subtraction wraps to a size no mapping can have.
   */
  function DrainSize(avphys: int): (r: u64)
    requires -LONG_LIMIT <= avphys < LONG_LIMIT
    ensures ZONE_RESERVE <= PAGE_SIZE * avphys < WORD ==> r + ZONE_RESERVE == PAGE_SIZE * avphys
    ensures 0 <= PAGE_SIZE * avphys < ZONE_RESERVE ==> r >= WORD - ZONE_RESERVE
    ensures r % PAGE_SIZE == 0
  {
    MultipleOfPage(PAGE_SIZE, avphys);
    WrapKeepsAlignment(PAGE_SIZE * avphys - ZONE_RESERVE);
    Wrap(PAGE_SIZE * avphys - ZONE_RESERVE)
  }

  /** `drain_end`: the last page of the drained mapping. */
  function DrainEnd(drain: u64, drainSize: u64): u64
  {
    Wrap(drain + drainSize - PAGE_SIZE)
  }

  /**
   * `page_block_aligned`: from the last drained page, step back by its
   * physical offset inside its 4 MiB block and then by one more block.
   */
  function Candidate(drainEnd: u64, drainEndPhys: u64): u64
  {
    Wrap(drainEnd - drainEndPhys % BLOCK_SIZE - BLOCK_SIZE)
  }

  /** The contiguity heuristic: the first page starts a 4 MiB physical block and the last page ends one. */
  predicate Accepted(startPhys: u64, endPhys: u64)
  {
    startPhys % BLOCK_SIZE == 0 && endPhys % BLOCK_SIZE == BLOCK_SIZE - PAGE_SIZE
  }

  /** The translation `pa` maps [lo, hi) onto physical memory at a constant offset `delta`. */
  ghost predicate LinearOn(pa: u64 -> u64, lo: int, hi: int, delta: int)
  {
    forall v: u64 :: lo <= v < hi ==> pa(v) == v + delta
  }

  /** After the move, each page of the block at `address` is backed by the frame that backed the same offset from `candidate`. */
  ghost predicate Relocated(paBlock: u64 -> u64, address: u64, paDrain: u64 -> u64, candidate: u64)
  {
    forall v: u64 :: address <= v < address + BLOCK_SIZE ==> paBlock(v) == paDrain(Wrap(candidate + (v - address)))
  }

  // ---------------------------------------------------------------------
  // Where the candidate lies

  /**
   * For a drained mapping that does not wrap, the candidate block lies inside
   * the drained mapping exactly when the drain is large enough to hold the
   * last page, the physical offset of that page and one whole block; it then
   * ends where the last page's 4 MiB physical block begins.
   */
  lemma CandidatePlacement(drain: u64, drainSize: u64, phys: u64)
    requires PAGE_SIZE <= drainSize && drain + drainSize <= WORD
    ensures var c := Candidate(DrainEnd(drain, drainSize), phys);
      (drain <= c && c + BLOCK_SIZE <= drain + drainSize)
        <==> drainSize >= PAGE_SIZE + BLOCK_SIZE + phys % BLOCK_SIZE
    ensures var c := Candidate(DrainEnd(drain, drainSize), phys);
      drainSize >= PAGE_SIZE + BLOCK_SIZE + phys % BLOCK_SIZE ==>
        c + phys % BLOCK_SIZE + BLOCK_SIZE == DrainEnd(drain, drainSize)
  {
    var e := DrainEnd(drain, drainSize);
    assert e == drain + drainSize - PAGE_SIZE;
    var x := e - phys % BLOCK_SIZE - BLOCK_SIZE;
    if x < 0 {
      ModUnique(x, WORD, -1, x + WORD);
      assert Candidate(e, phys) == x + WORD;
    } else {
      assert Candidate(e, phys) == x;
    }
  }

  /**
   * If the drained mapping is physically linear, the candidate's first page
   * starts a 4 MiB physical block.
   */
  lemma LinearCandidateAligned(drain: u64, drainSize: u64, pa: u64 -> u64, delta: int)
    requires PAGE_SIZE <= drainSize && drain + drainSize <= WORD
    requires LinearOn(pa, drain, drain + drainSize, delta)
    requires drainSize >= PAGE_SIZE + BLOCK_SIZE + pa(DrainEnd(drain, drainSize)) % BLOCK_SIZE
    ensures pa(Candidate(DrainEnd(drain, drainSize), pa(DrainEnd(drain, drainSize)))) % BLOCK_SIZE == 0
  {
    var e := DrainEnd(drain, drainSize);
    var pe := pa(e);
    var c := Candidate(e, pe);
    CandidatePlacement(drain, drainSize, pe);
    assert pa(e) == e + delta;
    assert pa(c) == c + delta;
    DivMod(pe, BLOCK_SIZE);
    assert pa(c) == (pe / BLOCK_SIZE - 1) * BLOCK_SIZE;
    ModUnique(pa(c), BLOCK_SIZE, pe / BLOCK_SIZE - 1, 0);
  }

  /** A physically linear block whose first page starts a 4 MiB block passes the heuristic. */
  lemma AlignedLinearBlockAccepted(pa: u64 -> u64, a: u64, delta: int)
    requires a + BLOCK_SIZE <= WORD
    requires LinearOn(pa, a, a + BLOCK_SIZE, delta)
    requires pa(a) % BLOCK_SIZE == 0
    ensures Accepted(pa(a), pa(a + BLOCK_SIZE - PAGE_SIZE))
  {
    var last := a + BLOCK_SIZE - PAGE_SIZE;
    assert pa(last) == pa(a) + (BLOCK_SIZE - PAGE_SIZE);
    DivMod(pa(a), BLOCK_SIZE);
    ModUnique(pa(last), BLOCK_SIZE, pa(a) / BLOCK_SIZE, BLOCK_SIZE - PAGE_SIZE);
  }

  /**
   * The heuristic accepts the layout it was designed for: when the
   * drained mapping is physically linear, holds the candidate block, and the
   * move keeps every frame, the moved block passes the check.
   */
  lemma LinearAttemptAccepted(drain: u64, drainSize: u64, paDrain: u64 -> u64, delta: int,
                              paBlock: u64 -> u64, address: u64)
    requires PAGE_SIZE <= drainSize && drain + drainSize <= WORD
    requires LinearOn(paDrain, drain, drain + drainSize, delta)
    requires drainSize >= PAGE_SIZE + BLOCK_SIZE + paDrain(DrainEnd(drain, drainSize)) % BLOCK_SIZE
    requires address + BLOCK_SIZE <= WORD
    requires Relocated(paBlock, address, paDrain,
                       Candidate(DrainEnd(drain, drainSize), paDrain(DrainEnd(drain, drainSize))))
    ensures Accepted(paBlock(address), paBlock(address + BLOCK_SIZE - PAGE_SIZE))
  {
    var e := DrainEnd(drain, drainSize);
    var c := Candidate(e, paDrain(e));
    CandidatePlacement(drain, drainSize, paDrain(e));
    LinearCandidateAligned(drain, drainSize, paDrain, delta);
    forall v: u64 | address <= v < address + BLOCK_SIZE
      ensures paBlock(v) == v + (c + delta - address)
    {
      assert Wrap(c + (v - address)) == c + (v - address);
    }
    AlignedLinearBlockAccepted(paBlock, address, c + delta - address);
  }

  /** A translation that looks right at both ends of the block and nowhere else. */
  function Scattered(a: u64): u64 -> u64
  {
    (v: u64) => if v == a then 0 else if v == Wrap(a + BLOCK_SIZE - PAGE_SIZE) then BLOCK_SIZE - PAGE_SIZE else 2 * BLOCK_SIZE
  }

  /**
   * The heuristic can be fooled: a block whose ends are right but whose
   * interior is scattered over physical memory is accepted, although it is
   * not physically linear.
   */
  lemma AcceptanceIsHeuristic(a: u64, delta: int)
    requires a + BLOCK_SIZE <= WORD
    ensures Accepted(Scattered(a)(a), Scattered(a)(a + BLOCK_SIZE - PAGE_SIZE))
    ensures !LinearOn(Scattered(a), a, a + BLOCK_SIZE, delta)
  {
    var pa := Scattered(a);
    var last: u64 := a + BLOCK_SIZE - PAGE_SIZE;
    assert Wrap(a + BLOCK_SIZE - PAGE_SIZE) == last;
    assert pa(a) == 0 && pa(last) == BLOCK_SIZE - PAGE_SIZE;
    assert pa(a + PAGE_SIZE) == 2 * BLOCK_SIZE;
  }

  // ---------------------------------------------------------------------
  // One attempt and the retry loop

  /** How an attempt ends: with a pointer, or by terminating the process. */
  datatype Attempt = Returned(ptr: u64) | Exited | StillRetrying

  /** What the system reports to one attempt: available pages and the two translations. */
  datatype Observation = Observation(avphys: int, paDrain: u64 -> u64, paBlock: u64 -> u64)

  predicate InLongRange(obs: seq<Observation>)
  {
    forall i :: 0 <= i < |obs| ==> -LONG_LIMIT <= obs[i].avphys < LONG_LIMIT
  }

  /**
   * The calls one attempt issues, given how it ended: only the drain mapping
   * when the process exits, else the drain mapping, the move of the
   * candidate computed from the drain's last page to `address`, and the
   * unmapping of that drain.
   */
  ghost predicate AttemptLog(calls: seq<Syscall>, outcome: Attempt, obs: Observation, address: u64)
    requires -LONG_LIMIT <= obs.avphys < LONG_LIMIT
  {
    var size := DrainSize(obs.avphys);
    if outcome == Exited then calls == [MapAnon(size)]
    else
      && |calls| == 3
      && calls[0] == MapAnon(size)
      && calls[2].Unmap? && calls[2].len == size
      && var end := DrainEnd(calls[2].addr, size);
         calls[1] == Remap(Candidate(end, obs.paDrain(end)), BLOCK_SIZE, address)
  }

  /**
   * The mappings after one attempt, from those before it (`m0`), the fresh
   * drain `D`, the candidate range `C` and the destination `A`: a successful
   * move takes `C` away and brings `A`, a failed one may have removed `A`;
   * a successful unmap then removes the drain.
   */
  ghost predicate MappingsAfter(m0: set<u64>, m: set<u64>, D: set<u64>, C: set<u64>, A: set<u64>,
                                moved: bool, freed: bool)
  {
    && (moved && freed ==> m == (m0 - C) + (A - D))
    && (moved && !freed ==> m == m0 + D - C + A)
    && (!moved && freed ==> m0 - A <= m <= m0)
    && (!moved && !freed ==> m0 + D - A <= m <= m0 + D)
  }

  /**
   * The mappings before (`m0`) and after (`m1`) one attempt whose calls are
   * `calls`: untouched when the process exits, otherwise `MappingsAfter` for
   * the drain and the candidate named by those calls, with the drain fresh
   * and a moved candidate taken from the drain or from earlier mappings.
   */
  ghost predicate AttemptEffect(m0: set<u64>, m1: set<u64>, calls: seq<Syscall>, outcome: Attempt,
                                address: u64, moved: bool, freed: bool)
  {
    if outcome == Exited then m1 == m0
    else
      && |calls| == 3 && calls[1].Remap? && calls[2].Unmap?
      && var D, C := Region(calls[2].addr, calls[2].len), Region(calls[1].from, BLOCK_SIZE);
         && D !! m0
         && (moved ==> C <= m0 + D)
         && MappingsAfter(m0, m1, D, C, Region(address, BLOCK_SIZE), moved, freed)
  }

  /** The step-by-step effect of the three calls yields `MappingsAfter`, because the drain was fresh. */
  lemma MappingsAfterAttempt(m0: set<u64>, m1: set<u64>, m2: set<u64>, m3: set<u64>,
                             D: set<u64>, C: set<u64>, A: set<u64>, moved: bool, freed: bool)
    requires m1 == m0 + D && D !! m0
    requires moved ==> m2 == m1 - C + A
    requires !moved ==> m1 - A <= m2 <= m1
    requires m3 == if freed then m2 - D else m2
    ensures MappingsAfter(m0, m3, D, C, A, moved, freed)
    ensures moved ==> A - D <= m3
  {
  }

  /**
   * `get_page_block_once`. When the drain cannot be mapped the process
   * exits. Otherwise the call sequence is fixed (map the drain, move the
   * candidate block, unmap the drain), and the result is `address` exactly
   * when the move succeeded and the moved block passed the heuristic,
   * `MAP_FAILED` otherwise.
   *
   * The new mappings are given case by case. The move takes whatever is
   * mapped at the candidate range: pages of the drain, but also pages of
   * earlier mappings when the candidate lies outside the drain. A failed
   * move may have unmapped the destination. Unmapping the drain may fail,
   * in which case the drain stays.
   */
  method GetPageBlockOnce(proc: Process, address: u64, avphys: int,
                          paDrain: u64 -> u64, paBlock: u64 -> u64)
    returns (r: Attempt, ghost drain: u64, ghost candidate: u64, ghost moved: bool, ghost freed: bool,
             ghost calls: seq<Syscall>)
    requires -LONG_LIMIT <= avphys < LONG_LIMIT
    modifies proc
    ensures r.Returned? || r == Exited
    ensures proc.trace == old(proc.trace) + calls
    ensures AttemptLog(calls, r, Observation(avphys, paDrain, paBlock), address)
    ensures AttemptEffect(old(proc.mapped), proc.mapped, calls, r, address, moved, freed)
    ensures r == Exited ==> proc.mapped == old(proc.mapped) && calls == [MapAnon(DrainSize(avphys))]
    ensures r.Returned? ==>
      var size := DrainSize(avphys);
      var end := DrainEnd(drain, size);
      && candidate == Candidate(end, paDrain(end))
      && calls == [MapAnon(size), Remap(candidate, BLOCK_SIZE, address), Unmap(drain, size)]
      && (r.ptr != MAP_FAILED <==>
            moved && Accepted(paBlock(address), paBlock(Wrap(address + BLOCK_SIZE - PAGE_SIZE))))
      && (r.ptr != MAP_FAILED ==> r.ptr == address)
    ensures r.Returned? ==>
      var D := Region(drain, DrainSize(avphys));
      && D !! old(proc.mapped)
      && (moved ==> Region(candidate, BLOCK_SIZE) <= old(proc.mapped) + D)
      && MappingsAfter(old(proc.mapped), proc.mapped, D, Region(candidate, BLOCK_SIZE),
                       Region(address, BLOCK_SIZE), moved, freed)
      && (moved ==> Region(address, BLOCK_SIZE) - D <= proc.mapped)
  {
    var drainSize := DrainSize(avphys);
    var ok, drainBase := proc.MmapAnon(drainSize);
    drain, candidate, moved, freed := drainBase, 0, false, false;
    calls := [MapAnon(drainSize)];
    if !ok {
      // the failure is reported and the process exits
      r := Exited;
      return;
    }
    ghost var m1 := proc.mapped;
    var blockSize := BLOCK_SIZE;
    var drainEnd := Wrap(drainBase + drainSize - PAGE_SIZE);
    var drainEndPhys := paDrain(drainEnd);
    var pageBlockAligned := Wrap(drainEnd - drainEndPhys % blockSize - blockSize);
    candidate := pageBlockAligned;
    var remapped := proc.Mremap(pageBlockAligned, blockSize, address);
    moved := remapped;
    var pageBlock := if remapped then address else MAP_FAILED;
    ghost var m2 := proc.mapped;
    var unmapped := proc.Munmap(drainBase, drainSize);
    freed := unmapped;
    calls := calls + [Remap(pageBlockAligned, blockSize, address), Unmap(drainBase, drainSize)];
    MappingsAfterAttempt(old(proc.mapped), m1, m2, proc.mapped, Region(drainBase, drainSize),
                         Region(pageBlockAligned, blockSize), Region(address, blockSize), remapped, unmapped);
    var startPhys := paBlock(pageBlock);
    var endPhys := paBlock(Wrap(pageBlock + blockSize - PAGE_SIZE));
    if startPhys % blockSize == 0 && endPhys % blockSize == blockSize - PAGE_SIZE {
      r := Returned(pageBlock);
    } else {
      r := Returned(MAP_FAILED);
    }
  }

  /** The per-attempt call lists, one after the other. */
  ghost function Concat(logs: seq<seq<Syscall>>): seq<Syscall>
  {
    if |logs| == 0 then [] else Concat(logs[..|logs| - 1]) + logs[|logs| - 1]
  }

  /** Appending one attempt's outcome and calls keeps the log well formed. */
  lemma LogStep(outcomes: seq<Attempt>, logs: seq<seq<Syscall>>, attempts: seq<Observation>, address: u64,
                once: Attempt, calls: seq<Syscall>)
    requires InLongRange(attempts) && |outcomes| == |logs| < |attempts|
    requires forall j :: 0 <= j < |logs| ==> AttemptLog(logs[j], outcomes[j], attempts[j], address)
    requires AttemptLog(calls, once, attempts[|logs|], address)
    ensures forall j :: 0 <= j < |logs| + 1 ==>
              AttemptLog((logs + [calls])[j], (outcomes + [once])[j], attempts[j], address)
    ensures Concat(logs + [calls]) == Concat(logs) + calls
  {
    assert (logs + [calls])[..|logs|] == logs;
  }

  /** Appending one attempt's effect keeps the chain of mapping states well formed. */
  lemma EffectStep(states: seq<set<u64>>, logs: seq<seq<Syscall>>, outcomes: seq<Attempt>,
                   moves: seq<bool>, frees: seq<bool>, address: u64,
                   m: set<u64>, calls: seq<Syscall>, once: Attempt, moved: bool, freed: bool)
    requires |states| == |logs| + 1 && |outcomes| == |moves| == |frees| == |logs|
    requires forall j :: 0 <= j < |logs| ==>
               AttemptEffect(states[j], states[j + 1], logs[j], outcomes[j], address, moves[j], frees[j])
    requires AttemptEffect(states[|logs|], m, calls, once, address, moved, freed)
    ensures forall j :: 0 <= j < |logs| + 1 ==>
              AttemptEffect((states + [m])[j], (states + [m])[j + 1], (logs + [calls])[j],
                            (outcomes + [once])[j], address, (moves + [moved])[j], (frees + [freed])[j])
  {
  }

  /**
   * `get_4mb_block`: repeat single attempts while they return `MAP_FAILED`.
   * The attempts are driven by a finite list of observations; when every one
   * of them fails the loop is still retrying. Every attempt before the `k`-th
   * returned `MAP_FAILED`; the calls of all attempts made appear in order.
   * A returned pointer is never `MAP_FAILED`: it is `address`, the block
   * there passed the heuristic in attempt `k` and is mapped, except where it
   * overlaps that attempt's freed drain. The mappings are stated after every
   * attempt: `states[j + 1]` follows from `states[j]` by `AttemptEffect`.
   */
  method Get4MbBlock(proc: Process, address: u64, attempts: seq<Observation>)
    returns (r: Attempt, ghost k: nat, ghost outcomes: seq<Attempt>, ghost logs: seq<seq<Syscall>>,
             ghost states: seq<set<u64>>, ghost moves: seq<bool>, ghost frees: seq<bool>)
    requires InLongRange(attempts)
    modifies proc
    ensures k <= |attempts|
    ensures r == StillRetrying <==> k == |attempts|
    ensures |outcomes| == |logs| == if r == StillRetrying then k else k + 1
    ensures forall j :: 0 <= j < k ==> outcomes[j] == Returned(MAP_FAILED)
    ensures r != StillRetrying ==> outcomes[k] == r
    ensures forall j :: 0 <= j < |logs| ==> AttemptLog(logs[j], outcomes[j], attempts[j], address)
    ensures proc.trace == old(proc.trace) + Concat(logs)
    ensures |states| == |logs| + 1 && |moves| == |frees| == |logs|
    ensures states[0] == old(proc.mapped) && states[|logs|] == proc.mapped
    ensures forall j :: 0 <= j < |logs| ==>
              AttemptEffect(states[j], states[j + 1], logs[j], outcomes[j], address, moves[j], frees[j])
    ensures r.Returned? ==>
      && r.ptr == address && r.ptr != MAP_FAILED
      && Accepted(attempts[k].paBlock(address),
                  attempts[k].paBlock(Wrap(address + BLOCK_SIZE - PAGE_SIZE)))
      && |logs[k]| == 3 && logs[k][2].Unmap?
      && Region(address, BLOCK_SIZE) - Region(logs[k][2].addr, DrainSize(attempts[k].avphys)) <= proc.mapped
  {
    var i := 0;
    outcomes, logs := [], [];
    states, moves, frees := [proc.mapped], [], [];
    while i < |attempts|
      invariant i <= |attempts|
      invariant |outcomes| == |logs| == |moves| == |frees| == i && |states| == i + 1
      invariant states[0] == old(proc.mapped) && states[i] == proc.mapped
      invariant forall j :: 0 <= j < i ==>
                  AttemptEffect(states[j], states[j + 1], logs[j], outcomes[j], address, moves[j], frees[j])
      invariant forall j :: 0 <= j < i ==> outcomes[j] == Returned(MAP_FAILED)
      invariant forall j :: 0 <= j < i ==> AttemptLog(logs[j], outcomes[j], attempts[j], address)
      invariant proc.trace == old(proc.trace) + Concat(logs)
    {
      var obs := attempts[i];
      var once, drain, candidate, moved, freed, calls :=
        GetPageBlockOnce(proc, address, obs.avphys, obs.paDrain, obs.paBlock);
      LogStep(outcomes, logs, attempts, address, once, calls);
      EffectStep(states, logs, outcomes, moves, frees, address, proc.mapped, calls, once, moved, freed);
      outcomes, logs := outcomes + [once], logs + [calls];
      states, moves, frees := states + [proc.mapped], moves + [moved], frees + [freed];
      if once != Returned(MAP_FAILED) {
        r, k := once, i;
        return;
      }
      i := i + 1;
    }
    r, k := StillRetrying, i;
  }
}
