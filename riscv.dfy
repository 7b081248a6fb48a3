/**
 * Sv39 address and page-table-entry arithmetic of the kernel (include/riscv.h).
 *
 * Every macro of the header is a shift/mask/or on a 64-bit unsigned value. The
 * model keeps such values as integers in [0, 2^64) (`u64`) and writes each
 * operator out: a right shift by k is division by 2^k, a left shift is a
 * multiplication reduced modulo 2^64 where the C shift drops high bits, a mask
 * of low bits is a remainder, and `|` is the bitwise `BitOr` defined below.
 * The formats are those of the RISC-V Privileged Architecture v1.12: the Sv39
 * page-table entry and virtual address of section 4.4 and the satp register of
 * section 4.1.11.
 */
module RiscV {

  const TWO_32: int := 0x1_0000_0000
  const TWO_64: int := 0x1_0000_0000_0000_0000

  /** C's `uint64_t`. */
  type u64 = x: int | 0 <= x < TWO_64

  /** C's `int` (32-bit, two's complement). */
  type i32 = x: int | -0x8000_0000 <= x < 0x8000_0000

  /** The conversion of a 64-bit value to `int`: its low 32 bits, as two's complement. */
  function ToI32(x: u64): (r: i32)
    ensures r % TWO_32 == x % TWO_32
    ensures x < 0x8000_0000 ==> r == x
  {
    var low := x % TWO_32;
    if low < 0x8000_0000 then low else low - TWO_32
  }

  /** The conversion of an `int` to `uint64_t`: sign extension, then reinterpretation. */
  function ToU64(x: i32): (r: u64)
    ensures r == x % TWO_64
    ensures r % TWO_32 == x % TWO_32
    ensures x >= 0 <==> r < 0x8000_0000
  {
    if x < 0 then x + TWO_64 else x
  }

  /** Storing an `int` in a 64-bit register and reading it back as `int` gives it back. */
  lemma I32RoundTrip(x: i32)
    ensures ToI32(ToU64(x)) == x
  {
    if x < 0 {
      DivUnique(x + TWO_64, TWO_32, TWO_32 - 1, x + TWO_32);
    }
  }

  const PGSIZE: int := 4096
  const PGSHIFT: nat := 12

  /** Physical memory layout of the QEMU virt platform. */
  const KERNBASE: u64 := 0x8000_0000
  const PHYSTOP: u64 := 0x8800_0000
  const UART0: u64 := 0x1000_0000

  /** Page-table-entry flag bits. */
  const PTE_V: u64 := 1
  const PTE_R: u64 := 2
  const PTE_W: u64 := 4
  const PTE_X: u64 := 8
  const PTE_U: u64 := 16

  /** The largest size that PGROUNDUP can round without wrapping past 2^64. */
  const MAX_ROUNDABLE: u64 := 0xFFFF_FFFF_FFFF_F000

  function Pow2(k: nat): (p: nat)
    ensures p >= 1
  {
    if k == 0 then 1 else 2 * Pow2(k - 1)
  }

  /** Bit `k` of `x`. */
  predicate Bit(x: nat, k: nat) {
    (x / Pow2(k)) % 2 == 1
  }

  /** C's `|` on unsigned values, one bit at a time from the least significant. */
  function BitOr(a: nat, b: nat): nat
    decreases a + b
  {
    if a == 0 then b
    else if b == 0 then a
    else 2 * BitOr(a / 2, b / 2) + (if a % 2 == 1 || b % 2 == 1 then 1 else 0)
  }

  lemma {:induction false} Pow2Add(a: nat, b: nat)
    ensures Pow2(a + b) == Pow2(a) * Pow2(b)
  {
    if a > 0 {
      Pow2Add(a - 1, b);
      assert Pow2(a + b) == 2 * Pow2(a - 1 + b);
    }
  }

  /** The powers of two below 2^32 that the address layout uses. */
  lemma Pow2Small()
    ensures Pow2(10) == 1024 && Pow2(12) == 4096 && Pow2(16) == 0x1_0000
    ensures Pow2(21) == 0x20_0000 && Pow2(26) == 0x400_0000 && Pow2(27) == 0x800_0000
    ensures Pow2(30) == 0x4000_0000
  {
    assert Pow2(10) == 1024;
    Pow2Add(10, 2);
    Pow2Add(10, 6);
    Pow2Add(16, 5);
    Pow2Add(16, 10);
    Pow2Add(26, 1);
    Pow2Add(26, 4);
  }

  /** 2^64, the modulus of the 64-bit registers. */
  lemma Pow2Word()
    ensures Pow2(64) == TWO_64
  {
    assert Pow2(16) == 0x1_0000 by {
      Pow2Small();
    }
    Pow2Add(16, 16);
    assert Pow2(32) == TWO_32;
    Pow2Add(32, 32);
  }

  lemma MulSub(a: int, b: int, d: int)
    ensures (a - b) * d == a * d - b * d
  {
  }

  lemma MulAtLeast(a: int, d: int)
    requires a >= 1 && d > 0
    ensures a * d >= d
  {
  }

  lemma DivUnique(x: int, d: int, q: int, r: int)
    requires d > 0 && x == q * d + r && 0 <= r < d
    ensures x / d == q && x % d == r
  {
    var q', r' := x / d, x % d;
    assert x == q' * d + r';
    MulSub(q, q', d);
    if q > q' {
      MulAtLeast(q - q', d);
    } else if q < q' {
      MulAtLeast(q' - q, d);
    }
  }

  /** Dividing by a then by b is dividing by a * b, and the remainder splits digit-wise. */
  lemma DivSplit(x: nat, a: nat, b: nat)
    requires a > 0 && b > 0
    ensures x / (a * b) == (x / a) / b
    ensures x % (a * b) == x % a + a * ((x / a) % b)
  {
    var q, r := x / a, x % a;
    var q2, r2 := q / b, q % b;
    assert x == q * a + r;
    assert q == q2 * b + r2;
    assert x == q2 * (a * b) + (r2 * a + r) by {
      assert q * a == (q2 * b + r2) * a;
      assert (q2 * b + r2) * a == q2 * (a * b) + r2 * a;
    }
    assert r2 * a + r < a * b by {
      assert r2 <= b - 1;
      assert r2 * a <= (b - 1) * a;
      assert (b - 1) * a == a * b - a;
    }
    DivUnique(x, a * b, q2, r2 * a + r);
  }

  lemma DivPow2Step(x: nat, k: nat)
    ensures (x / 2) / Pow2(k) == x / Pow2(k + 1)
  {
    var p := Pow2(k);
    assert Pow2(k + 1) == 2 * p;
    var q := (x / 2) / p;
    var r := (x / 2) % p;
    assert x / 2 == q * p + r && 0 <= r < p;
    assert x == 2 * q * p + (2 * r + x % 2);
    assert 0 <= 2 * r + x % 2 < 2 * p;
    DivUnique(x, 2 * p, q, 2 * r + x % 2);
  }

  /** Each bit of an OR is the OR of the operands' bits. */
  lemma {:induction false} BitOrBits(a: nat, b: nat, k: nat)
    ensures Bit(BitOr(a, b), k) <==> Bit(a, k) || Bit(b, k)
    decreases a + b
  {
    if a == 0 {
      assert a / Pow2(k) == 0;
    } else if b == 0 {
      assert b / Pow2(k) == 0;
    } else {
      var low := if a % 2 == 1 || b % 2 == 1 then 1 else 0;
      var o := BitOr(a / 2, b / 2);
      assert BitOr(a, b) == 2 * o + low;
      if k > 0 {
        BitOrBits(a / 2, b / 2, k - 1);
        assert Bit(a, k) == Bit(a / 2, k - 1) by {
          DivPow2Step(a, k - 1);
        }
        assert Bit(b, k) == Bit(b / 2, k - 1) by {
          DivPow2Step(b, k - 1);
        }
        assert Bit(BitOr(a, b), k) == Bit(o, k - 1) by {
          DivPow2Step(BitOr(a, b), k - 1);
          assert BitOr(a, b) / 2 == o;
        }
      }
    }
  }

  /** 2^j has exactly bit j set. */
  lemma Pow2Bit(j: nat, k: nat)
    ensures Bit(Pow2(j), k) <==> j == k
  {
    if j >= k {
      Pow2Add(j - k, k);
      DivUnique(Pow2(j), Pow2(k), Pow2(j - k), 0);
      if j > k {
        assert Pow2(j - k) == 2 * Pow2(j - k - 1);
      }
    } else {
      Pow2Add(j, k - j);
      assert Pow2(k - j) == 2 * Pow2(k - j - 1);
      DivUnique(Pow2(j), Pow2(k), 0, Pow2(j));
    }
  }

  lemma {:induction false} Pow2Increases(j: nat, k: nat)
    requires j < k
    ensures Pow2(j) < Pow2(k)
    decreases k
  {
    if j < k - 1 {
      Pow2Increases(j, k - 1);
    }
  }

  /** `x | (1 << j)`: bit j is set and every other bit is kept. */
  lemma SetBit(x: u64, j: nat)
    requires j < 64
    ensures BitOr(x, Pow2(j)) < TWO_64
    ensures forall k :: Bit(BitOr(x, Pow2(j)), k) <==> Bit(x, k) || k == j
  {
    assert BitOr(x, Pow2(j)) < TWO_64 by {
      Pow2Word();
      Pow2Increases(j, 64);
      BitOrBound(x, Pow2(j), 64);
    }
    forall k
      ensures Bit(BitOr(x, Pow2(j)), k) <==> Bit(x, k) || k == j
    {
      BitOrBits(x, Pow2(j), k);
      Pow2Bit(j, k);
    }
  }

  /** OR-ing a value below 2^k into a multiple of 2^k is addition: the bits are disjoint. */
  lemma {:induction false} BitOrDisjoint(a: nat, b: nat, k: nat)
    requires a % Pow2(k) == 0 && b < Pow2(k)
    ensures BitOr(a, b) == a + b
    decreases k
  {
    if a != 0 && b != 0 {
      var p := Pow2(k - 1);
      assert Pow2(k) == 2 * p;
      var m := a / Pow2(k);
      DivUnique(a, Pow2(k), m, 0);
      assert a == 2 * (m * p);
      assert a % 2 == 0 && a / 2 == m * p;
      DivUnique(a / 2, p, m, 0);
      BitOrDisjoint(a / 2, b / 2, k - 1);
    }
  }

  /** An OR of two values below 2^k stays below 2^k. */
  lemma {:induction false} BitOrBound(a: nat, b: nat, k: nat)
    requires a < Pow2(k) && b < Pow2(k)
    ensures BitOr(a, b) < Pow2(k)
    decreases k
  {
    if a != 0 && b != 0 {
      BitOrBound(a / 2, b / 2, k - 1);
    }
  }

  predicate PageAligned(a: int) {
    a % PGSIZE == 0
  }

  /** PGROUNDDOWN(a) = a & ~(PGSIZE - 1): the page that contains `a`. */
  function PgRoundDown(a: u64): (r: u64)
    ensures PageAligned(r)
    ensures r <= a < r + PGSIZE
  {
    a / PGSIZE * PGSIZE
  }

  /**
   * PGROUNDUP(sz) = (sz + PGSIZE - 1) & ~(PGSIZE - 1): the first page boundary
   * at or above `sz`. The addition wraps in C, so for a size in the last
   * partial page of the address space the result is 0.
   */
  function PgRoundUp(sz: u64): (r: u64)
    ensures PageAligned(r)
    ensures sz <= MAX_ROUNDABLE ==> sz <= r < sz + PGSIZE
    ensures sz > MAX_ROUNDABLE ==> r == 0
  {
    ((sz + PGSIZE - 1) % TWO_64) / PGSIZE * PGSIZE
  }

  /**
   * PTE2PPN(pte) = (pte >> 10) << 12: despite its name the macro yields the
   * physical address an entry points to. The left shift of a 64-bit value
   * drops the two top bits of the page number field.
   */
  function PteToPa(pte: u64): (pa: u64)
    ensures PageAligned(pa)
  {
    (pte / 1024 * PGSIZE) % TWO_64
  }

  /** PPN2PTE(pa) = (pa >> 12) << 10: the entry bits that hold the page number of `pa`. */
  function PaToPte(pa: u64): (pte: u64)
    ensures pte % 1024 == 0
    ensures pte < 0x4000_0000_0000_0000
  {
    pa / PGSIZE * 1024
  }

  /** VPN_SHIFT(level) = 12 + 9 * level: where the level's index sits in a virtual address. */
  function VpnShift(level: nat): nat
  {
    12 + 9 * level
  }

  /**
   * `va >> VPN_SHIFT(level)`, written as the 12-bit page offset dropped and
   * then 9 more bits per level; VpnBitsIsShift shows it is the same shift.
   */
  function VpnBits(va: u64, level: nat): nat
    decreases level
  {
    if level == 0 then va / PGSIZE else VpnBits(va, level - 1) / 512
  }

  /** VPN_MASK(va, level) = (va >> VPN_SHIFT(level)) & 0x1FF: the level's index into a node. */
  function Vpn(va: u64, level: nat): (idx: nat)
    ensures idx < 512
  {
    VpnBits(va, level) % 512
  }

  /** Dropping 12 bits and then 9 per level is the shift by VPN_SHIFT(level). */
  lemma {:induction false} VpnBitsIsShift(va: u64, level: nat)
    ensures VpnBits(va, level) == va / Pow2(VpnShift(level))
    decreases level
  {
    if level == 0 {
      Pow2Small();
    } else {
      VpnBitsIsShift(va, level - 1);
      Pow2Add(VpnShift(level - 1), 9);
      assert Pow2(9) == 512;
      DivSplit(va, Pow2(VpnShift(level - 1)), 512);
    }
  }

  /** MAKE_SATP(pagetable) = (pagetable >> 12) | (8 << 60). */
  function MakeSatp(pt: u64): (satp: u64)
    ensures satp / 0x1000_0000_0000_0000 == 8
    ensures pt < 0x100_0000_0000_0000 ==> satp % 0x1000_0000_0000 == pt / PGSIZE
    ensures (satp / 0x1000_0000_0000) % 0x1_0000 == 0 <==> pt < 0x100_0000_0000_0000
  {
    SatpFacts(pt);
    BitOr(pt / PGSIZE, 0x8000_0000_0000_0000)
  }

  lemma SatpFacts(pt: u64)
    ensures BitOr(pt / PGSIZE, 0x8000_0000_0000_0000) == 0x8000_0000_0000_0000 + pt / PGSIZE
    ensures 0x8000_0000_0000_0000 + pt / PGSIZE < TWO_64
    ensures (0x8000_0000_0000_0000 + pt / PGSIZE) / 0x1000_0000_0000_0000 == 8
    ensures pt < 0x100_0000_0000_0000 ==>
      (0x8000_0000_0000_0000 + pt / PGSIZE) % 0x1000_0000_0000 == pt / PGSIZE
    ensures ((0x8000_0000_0000_0000 + pt / PGSIZE) / 0x1000_0000_0000) % 0x1_0000 == 0
      <==> pt < 0x100_0000_0000_0000
  {
    var hi := 0x8000_0000_0000_0000;
    var pn := pt / PGSIZE;
    assert pn < 0x10_0000_0000_0000;
    assert BitOr(hi, pn) == hi + pn by {
      assert Pow2(52) == 0x10_0000_0000_0000 by {
        Pow2Small();
        Pow2Add(26, 26);
      }
      DivUnique(hi, 0x10_0000_0000_0000, 0x800, 0);
      BitOrDisjoint(hi, pn, 52);
    }
    BitOrCommutes(pn, hi);
    var s := hi + pn;
    DivUnique(s, 0x1000_0000_0000_0000, 8, pn);
    var q := pn / 0x1000_0000_0000;
    DivUnique(pn, 0x1000_0000_0000, q, pn % 0x1000_0000_0000);
    DivUnique(s, 0x1000_0000_0000, 0x8_0000 + q, pn % 0x1000_0000_0000);
    assert q < 0x100;
    DivUnique(0x8_0000 + q, 0x1_0000, 8, q);
    assert q == 0 <==> pt < 0x100_0000_0000_0000;
  }

  lemma {:induction false} BitOrCommutes(a: nat, b: nat)
    ensures BitOr(a, b) == BitOr(b, a)
    decreases a + b
  {
    if a != 0 && b != 0 {
      BitOrCommutes(a / 2, b / 2);
    }
  }

  /** Round trip: the address stored in an entry is the page of the address given. */
  lemma PteRoundTrip(pa: u64)
    ensures PteToPa(PaToPte(pa)) == PgRoundDown(pa)
    ensures PageAligned(pa) ==> PteToPa(PaToPte(pa)) == pa
  {
    var pn := pa / PGSIZE;
    assert PaToPte(pa) / 1024 == pn;
  }

  /**
   * PPN2PTE(pa) has bits 0-9 clear, so OR-ing flag bits into it is addition
   * and PTE2PPN of the result is the page of `pa` whatever the flags.
   */
  lemma FlagsPreserveAddress(pa: u64, flags: nat)
    requires flags < 1024
    ensures BitOr(PaToPte(pa), flags) == PaToPte(pa) + flags
    ensures PteToPa(PaToPte(pa) + flags) == PgRoundDown(pa)
  {
    var pn := pa / PGSIZE;
    assert Pow2(10) == 1024;
    BitOrDisjoint(PaToPte(pa), flags, 10);
    DivUnique(PaToPte(pa) + flags, 1024, pn, flags);
    assert pn * PGSIZE == PgRoundDown(pa) <= pa;
    DivUnique(pn * PGSIZE, TWO_64, 0, pn * PGSIZE);
  }

  /**
   * The level indices are disjoint slices of bits 12-38 of the address:
   * together they rebuild those 27 bits exactly.
   */
  lemma VpnSlicesRebuildPageNumber(va: u64)
    ensures (va / PGSIZE) % Pow2(27) == Vpn(va, 0) + Vpn(va, 1) * 512 + Vpn(va, 2) * 262144
  {
    var q := va / 4096;
    var v0, v1, v2 := Vpn(va, 0), Vpn(va, 1), Vpn(va, 2);
    assert Pow2(27) == 0x800_0000 by {
      Pow2Small();
    }
    assert v0 == q % 512;
    assert v1 == (q / 512) % 512;
    assert v2 == ((q / 512) / 512) % 512;
    var lo := q % 134217728;
    assert lo == v0 + 512 * ((q / 512) % 262144) by {
      DivSplit(q, 512, 262144);
    }
    assert (q / 512) % 262144 == v1 + 512 * v2 by {
      DivSplit(q / 512, 512, 512);
    }
  }
}
