/**
 * The part of the kernel interface the toolkit drives: its own virtual
 * address space, seen as the set of page addresses currently mapped, and
 * the memory-mapping system calls that change it.
 *
 * Every system call may fail for reasons the process cannot see (memory
 * pressure, mapping-count limits); each method below therefore chooses its
 * outcome nondeterministically: it refuses a misaligned address or an empty
 * length, and on failure it leaves the mappings as they were, except that a
 * failed fixed-address `mmap` or `mremap` may already have removed what was
 * at its destination. Every call, successful or not, is appended to
 * `trace`, so that callers can state which calls were attempted and in what
 * order.
 */
module Os {
  import opened Platform

  /** A system call issued by the toolkit, as recorded in the call log. */
  datatype Syscall =
    | MapFixed(addr: u64)                  // mmap(addr, PAGE_SIZE, RW, MAP_FIXED | MAP_SHARED | MAP_POPULATE, fd, 0)
    | MapAnon(len: u64)                    // mmap(NULL, len, RW, MAP_PRIVATE | MAP_ANONYMOUS | MAP_POPULATE, -1, 0)
    | Unmap(addr: u64, len: u64)           // munmap(addr, len)
    | Remap(from: u64, len: u64, to: u64)  // mremap(from, len, len, MREMAP_FIXED | MREMAP_MAYMOVE, to)

  /** The kernel's own alignment requirement on the address argument. */
  predicate KernelAligned(a: int)
  {
    a % PAGE_SIZE == 0
  }

  /** The pages of the virtual range [base, base + len). */
  function Region(base: u64, len: u64): set<u64>
  {
    set a: u64 | base <= a < base + len && a % PAGE_SIZE == 0
  }

  /** The addresses listed in a sequence. */
  ghost function Elems(s: seq<u64>): set<u64>
  {
    set a | a in s
  }

  lemma ElemsSnoc(s: seq<u64>, k: nat)
    requires k < |s|
    ensures Elems(s[..k + 1]) == Elems(s[..k]) + {s[k]}
  {
    assert s[..k + 1] == s[..k] + [s[k]];
  }

  class Process {
    /** Page addresses currently mapped in this process (kept by the kernel). */
    var mapped: set<u64>
    /** Every memory-mapping system call issued so far, oldest first. */
    ghost var trace: seq<Syscall>

    /**
     * Map one shared page of a file at exactly `addr`, replacing what was
     * there. A failure may still have removed the old mapping at `addr`.
     */
    method MmapFixed(addr: u64) returns (ok: bool)
      modifies this
      ensures !KernelAligned(addr) ==> !ok
      ensures ok ==> mapped == old(mapped) + {addr}
      ensures !ok ==> old(mapped) - {addr} <= mapped <= old(mapped)
      ensures !KernelAligned(addr) ==> mapped == old(mapped)
      ensures trace == old(trace) + [MapFixed(addr)]
    {
      ok := *;
      ok := ok && KernelAligned(addr);
      if ok {
        mapped := mapped + {addr};
      } else {
        // a failed fixed mapping may already have torn down what was at `addr`
        var clobbered: bool := *;
        if clobbered && KernelAligned(addr) {
          mapped := mapped - {addr};
        }
      }
      trace := trace + [MapFixed(addr)];
    }

    /** Unmap the single page at `addr`. Unmapping a page that is not mapped succeeds. */
    method MunmapPage(addr: u64) returns (ok: bool)
      modifies this
      ensures !KernelAligned(addr) ==> !ok
      ensures mapped == if ok then old(mapped) - {addr} else old(mapped)
      ensures trace == old(trace) + [Unmap(addr, PAGE_SIZE)]
    {
      ok := *;
      ok := ok && KernelAligned(addr);
      if ok {
        mapped := mapped - {addr};
      }
      trace := trace + [Unmap(addr, PAGE_SIZE)];
    }

    /** Map `len` bytes of fresh anonymous memory at an address of the kernel's choosing. */
    method MmapAnon(len: u64) returns (ok: bool, base: u64)
      modifies this
      ensures len == 0 ==> !ok
      ensures ok ==> KernelAligned(base) && base + len <= WORD && Region(base, len) !! old(mapped)
      ensures mapped == if ok then old(mapped) + Region(base, len) else old(mapped)
      ensures trace == old(trace) + [MapAnon(len)]
    {
      ok, base := *, *;
      ok := ok && len > 0 && KernelAligned(base) && base + len <= WORD && Region(base, len) !! mapped;
      if ok {
        mapped := mapped + Region(base, len);
      }
      trace := trace + [MapAnon(len)];
    }

    /** Unmap every page of [addr, addr + len). */
    method Munmap(addr: u64, len: u64) returns (ok: bool)
      modifies this
      ensures !KernelAligned(addr) || len == 0 || addr + len > WORD ==> !ok
      ensures mapped == if ok then old(mapped) - Region(addr, len) else old(mapped)
      ensures trace == old(trace) + [Unmap(addr, len)]
    {
      ok := *;
      ok := ok && KernelAligned(addr) && len > 0 && addr + len <= WORD;
      if ok {
        mapped := mapped - Region(addr, len);
      }
      trace := trace + [Unmap(addr, len)];
    }

    /**
     * Move the pages of [from, from + len) to [to, to + len) without copying:
     * whatever was mapped at the destination is replaced, the source range is
     * left unmapped. The whole source range must be mapped and the two ranges
     * must not overlap. A failure may already have unmapped the destination.
     */
    method Mremap(from: u64, len: u64, to: u64) returns (ok: bool)
      modifies this
      ensures ok ==> KernelAligned(from) && KernelAligned(to) && len > 0
      ensures ok ==> from + len <= WORD && to + len <= WORD
      ensures ok ==> Region(from, len) <= old(mapped) && Region(from, len) !! Region(to, len)
      ensures ok ==> mapped == old(mapped) - Region(from, len) + Region(to, len)
      ensures !KernelAligned(from) || !KernelAligned(to) || len == 0 || !(Region(from, len) !! Region(to, len)) ==>
                !ok && mapped == old(mapped)
      ensures !ok ==> old(mapped) - Region(to, len) <= mapped <= old(mapped)
      ensures trace == old(trace) + [Remap(from, len, to)]
    {
      ok := *;
      ok := ok && KernelAligned(from) && KernelAligned(to) && len > 0
            && from + len <= WORD && to + len <= WORD
            && Region(from, len) <= mapped && Region(from, len) !! Region(to, len);
      if ok {
        mapped := mapped - Region(from, len) + Region(to, len);
      } else {
        // once the arguments pass the kernel's checks, the destination is
        // unmapped before the source range is looked up
        var clobbered: bool := *;
        if clobbered && KernelAligned(from) && KernelAligned(to) && len > 0 && Region(from, len) !! Region(to, len) {
          mapped := mapped - Region(to, len);
        }
      }
      trace := trace + [Remap(from, len, to)];
    }
  }
}
