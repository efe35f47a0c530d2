/**
 * The machine the toolkit runs on: 64-bit unsigned words (`uintptr_t`,
 * `size_t`, `unsigned long`), the constants of the shared header and the
 * bit-level fact behind the page-alignment test.
 */
module Platform {

  /** 2^64: every `uintptr_t`, `size_t` and `unsigned long` value is below it. */
  const WORD: int := 0x1_0000_0000_0000_0000

  type u64 = x: int | 0 <= x < WORD

  /** The largest `long` plus one: `sysconf` returns a `long`. */
  const LONG_LIMIT: int := 0x8000_0000_0000_0000

  /** `PAGE_SIZE`: 4 KiB. */
  const PAGE_SIZE: u64 := 0x1000
  /** `PCP_PUSH_SIZE`: the 32 MiB region the per-CPU-list flush maps and frees. */
  const PCP_PUSH_SIZE: u64 := 0x200_0000
  /** `kX86_64PageTableSpan`: virtual range covered by one x86-64 page table, 2 MiB. */
  const PAGE_TABLE_SPAN: u64 := 0x20_0000
  /** `kPageBlockSize`: the allocator's page block, 2 MiB. */
  const PAGE_BLOCK_SIZE: u64 := 0x20_0000
  /** `MAP_FAILED`, i.e. `(void*)-1`. */
  const MAP_FAILED: u64 := WORD - 1

  /** Unsigned 64-bit wrap-around of a mathematical integer. */
  function Wrap(x: int): (r: u64)
    ensures 0 <= x < WORD ==> r == x
  {
    x % WORD
  }

  function Pow2(n: nat): (r: nat)
    ensures r >= 1
  {
    if n == 0 then 1 else 2 * Pow2(n - 1)
  }

  /** Bitwise AND of two non-negative integers, bit by bit from the least significant. */
  function BitAnd(x: nat, y: nat): nat
  {
    if x == 0 || y == 0 then 0
    else 2 * BitAnd(x / 2, y / 2) + (if x % 2 == 1 && y % 2 == 1 then 1 else 0)
  }

  // ---- small facts of integer division used below ----

  lemma DivMod(a: int, d: int)
    requires d > 0
    ensures a == (a / d) * d + a % d && 0 <= a % d < d
  {
  }

  lemma MulAtLeast(a: int, d: int)
    requires a >= 1 && d > 0
    ensures a * d >= d
  {
    if a > 1 {
      MulAtLeast(a - 1, d);
      assert a * d == (a - 1) * d + d;
    }
  }

  /** Quotient and remainder are unique. */
  lemma ModUnique(x: int, d: int, q: int, r: int)
    requires d > 0 && 0 <= r < d && x == q * d + r
    ensures x % d == r && x / d == q
  {
    var q', r' := x / d, x % d;
    assert x == q' * d + r';
    assert q' * d - q * d == (q' - q) * d;
    if q' > q {
      MulAtLeast(q' - q, d);
    } else if q' < q {
      assert q * d - q' * d == (q - q') * d;
      MulAtLeast(q - q', d);
    }
  }

  lemma AndStepLow(x: nat, m: nat, p: nat)
    requires x > 0 && p >= 1 && m == 2 * (p - 1) + 1
    ensures BitAnd(x, m) == 2 * BitAnd(x / 2, p - 1) + x % 2
  {
    ModUnique(m, 2, p - 1, 1);
  }

  lemma HalfSplit(x: nat, p: nat, q: int, r: int)
    requires p >= 1 && x / 2 == q * p + r
    ensures x == q * (2 * p) + (2 * r + x % 2)
  {
  }

  lemma AndMaskStep(x: nat, p: nat)
    requires x > 0 && p >= 1
    requires BitAnd(x / 2, p - 1) == (x / 2) % p
    ensures BitAnd(x, 2 * p - 1) == x % (2 * p)
  {
    var h := x / 2;
    var q, r := h / p, h % p;
    DivMod(h, p);
    AndStepLow(x, 2 * p - 1, p);
    HalfSplit(x, p, q, r);
    ModUnique(x, 2 * p, q, 2 * r + x % 2);
  }

  /** Masking with 2^k - 1 keeps exactly the remainder modulo 2^k. */
  lemma {:induction false} AndLowMask(x: nat, k: nat)
    ensures BitAnd(x, Pow2(k) - 1) == x % Pow2(k)
  {
    if k == 0 {
      assert Pow2(k) - 1 == 0;
    } else if x == 0 {
      assert BitAnd(x, Pow2(k) - 1) == 0;
    } else {
      var p := Pow2(k - 1);
      assert Pow2(k) == 2 * p;
      AndLowMask(x / 2, k - 1);
      AndMaskStep(x, p);
    }
  }

  lemma Pow2Add(a: nat, b: nat)
    ensures Pow2(a + b) == Pow2(a) * Pow2(b)
  {
    if b > 0 {
      Pow2Add(a, b - 1);
      assert Pow2(a + b) == 2 * Pow2(a + b - 1);
      assert Pow2(a) * Pow2(b) == Pow2(a) * (2 * Pow2(b - 1)) == 2 * (Pow2(a) * Pow2(b - 1));
    }
  }

  lemma Pow2Twelve()
    ensures Pow2(12) == 0x1000
  {
    assert Pow2(1) == 2;
    Pow2Add(1, 1);
    assert Pow2(2) == 4;
    Pow2Add(2, 2);
    assert Pow2(4) == 16;
    Pow2Add(4, 4);
    assert Pow2(8) == 256;
    Pow2Add(8, 4);
  }

  lemma Pow2FiftyTwo()
    ensures Pow2(52) == 0x10_0000_0000_0000
  {
    Pow2Twelve();
    Pow2Add(12, 12);
    assert Pow2(24) == 0x100_0000;
    Pow2Add(24, 24);
    assert Pow2(48) == 0x1_0000_0000_0000;
    Pow2Add(48, 4);
    assert Pow2(4) == 16;
  }

  lemma Pow2Values()
    ensures Pow2(12) == PAGE_SIZE as int && Pow2(52) * PAGE_SIZE == WORD
  {
    Pow2Twelve();
    Pow2FiftyTwo();
  }

  /** Wrapping keeps page alignment, because 2^64 is a multiple of the page size. */
  lemma WrapKeepsAlignment(x: int)
    requires x % PAGE_SIZE == 0
    ensures Wrap(x) % PAGE_SIZE == 0
  {
    var c := 0x10_0000_0000_0000;
    assert WORD == c * PAGE_SIZE;
    DivMod(x, WORD);
    var q := x / WORD;
    assert x % WORD == x - q * WORD;
    assert q * WORD == (q * c) * PAGE_SIZE;
    DivMod(x, PAGE_SIZE);
    assert x % WORD == (x / PAGE_SIZE - q * c) * PAGE_SIZE;
    ModUnique(x % WORD, PAGE_SIZE, x / PAGE_SIZE - q * c, 0);
  }

  lemma MultipleOfPage(a: int, n: int)
    requires a % PAGE_SIZE == 0
    ensures (a * n) % PAGE_SIZE == 0
  {
    DivMod(a, PAGE_SIZE);
    var q := a / PAGE_SIZE;
    assert a * n == (q * n) * PAGE_SIZE;
    ModUnique(a * n, PAGE_SIZE, q * n, 0);
  }

  lemma MulMonotone(a: nat, i: nat, j: nat)
    requires i < j
    ensures a * i <= a * j
  {
    assert a * j == a * i + a * (j - i);
  }

  lemma MulStrict(a: nat, i: nat, j: nat)
    requires a > 0 && i < j
    ensures a * i < a * j
  {
    assert a * j == a * i + a * (j - i);
    MulAtLeast(j - i, a);
  }

  /** Two distinct page-aligned addresses are at least a page apart. */
  lemma AlignedGap(p: int, q: int)
    requires p % PAGE_SIZE == 0 && q % PAGE_SIZE == 0 && p < q
    ensures p + PAGE_SIZE <= q
  {
    DivMod(p, PAGE_SIZE);
    DivMod(q, PAGE_SIZE);
  }

  lemma Pow2Grows(a: nat, b: nat)
    requires a < b
    ensures Pow2(a) < Pow2(b)
  {
    if a + 1 < b {
      Pow2Grows(a, b - 1);
    }
  }

  /** Two words that differ by less than 2^64 stay different after wrapping. */
  lemma WrapInjective(x: int, d: int)
    requires 0 < d < WORD
    ensures Wrap(x + d) != Wrap(x)
  {
    DivMod(x, WORD);
    DivMod(x + d, WORD);
    var m := (x + d) / WORD - x / WORD;
    assert Wrap(x + d) - Wrap(x) == d - m * WORD;
    if m >= 1 {
      MulAtLeast(m, WORD);
    }
  }
}
