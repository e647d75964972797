/** 64-bit address arithmetic of the S3 file driver: the overflow checks
    `ADDR_OVERFLOW`, `SIZE_OVERFLOW` and `REGION_OVERFLOW` that guard every read.

    `haddr_t`, `hsize_t`, `size_t` and `HDoff_t` are all taken to be 64 bits wide.
    Unsigned values are naturals below 2^64; wrap-around of `+`, the bitwise `&`
    and `~`, and the cast of an unsigned value to the signed `HDoff_t` are all
    written out explicitly. */
module Bounds {

  const TWO63: int := 0x8000_0000_0000_0000
  const TWO64: int := 0x1_0000_0000_0000_0000

  /** An unsigned 64-bit value (`haddr_t`, `hsize_t`, `size_t`, `unsigned long long`). */
  type u64 = x: int | 0 <= x < TWO64

  /** Width in bits of the signed file-offset type `HDoff_t`. */
  const OFF_BITS: nat := 64

  /** `MAXADDR`: `((haddr_t)1 << (8*sizeof(HDoff_t) - 1)) - 1`, the largest offset the
      signed offset type can hold. */
  const MAXADDR: u64 := TWO63 - 1

  /** `HADDR_UNDEF`: the all-ones address that marks an undefined address. */
  const HADDR_UNDEF: u64 := TWO64 - 1

  function Pow2(n: nat): (r: nat)
    ensures r >= 1
  {
    if n == 0 then 1 else 2 * Pow2(n - 1)
  }

  /** Bitwise AND of two naturals, one bit at a time from the least significant. */
  function BitAnd(x: nat, y: nat): (r: nat)
    decreases x
  {
    if x == 0 || y == 0 then 0
    else 2 * BitAnd(x / 2, y / 2) + (if x % 2 == 1 && y % 2 == 1 then 1 else 0)
  }

  /** Bitwise complement of the low `n` bits of `x`. */
  function BitNot(x: nat, n: nat): (r: nat)
  {
    if n == 0 then 0 else 2 * BitNot(x / 2, n - 1) + (1 - x % 2)
  }

  /** `~x` on a 64-bit unsigned value. */
  function Not64(x: u64): (r: u64)
    ensures x + r == TWO64 - 1
  {
    Pow2Values();
    BitNotComplement(x, 64);
    BitNot(x, 64)
  }

  /** Unsigned 64-bit addition, which wraps modulo 2^64. */
  function Add64(a: u64, b: u64): (r: u64)
    ensures a + b < TWO64 ==> r == a + b
    ensures a + b >= TWO64 ==> r == a + b - TWO64
  {
    (a + b) % TWO64
  }

  /** The cast `(HDoff_t)x`: the two's-complement reading of a 64-bit pattern. */
  function Signed64(x: u64): (r: int)
    ensures -TWO63 <= r < TWO63
    ensures r % TWO64 == x % TWO64
  {
    if x < TWO63 then x else x - TWO64
  }

  /** `ADDR_OVERFLOW(A)`: the address is undefined or has a bit set above `MAXADDR`. */
  function AddrOverflow(a: u64): (r: bool)
    ensures r <==> a > MAXADDR
    ensures a == HADDR_UNDEF ==> r
  {
    MaskHighBit(a);
    HADDR_UNDEF == a || BitAnd(a, Not64(MAXADDR)) != 0
  }

  /** `SIZE_OVERFLOW(Z)`: the size has a bit set above `MAXADDR`. */
  function SizeOverflow(z: u64): (r: bool)
    ensures r <==> z > MAXADDR
  {
    MaskHighBit(z);
    BitAnd(z, Not64(MAXADDR)) != 0
  }

  /** `REGION_OVERFLOW(A,Z)`: the region `[A, A+Z)` cannot be addressed by a signed
      offset. The four clauses of the macro together say exactly that the
      mathematical sum `A + Z` exceeds `MAXADDR`. */
  function RegionOverflow(a: u64, z: u64): (r: bool)
    ensures r <==> a + z > MAXADDR
  {
    AddrOverflow(a) || SizeOverflow(z) || HADDR_UNDEF == Add64(a, z)
    || Signed64(Add64(a, z)) < Signed64(a)
  }

  /** Bit `k` of `x`. */
  function Bit(x: nat, k: nat): (b: nat)
  {
    if k == 0 then x % 2 else Bit(x / 2, k - 1)
  }

  lemma {:induction false} Pow2Add(m: nat, n: nat)
    ensures Pow2(m + n) == Pow2(m) * Pow2(n)
  {
    if m > 0 {
      Pow2Add(m - 1, n);
      assert Pow2(m + n) == 2 * Pow2(m - 1 + n);
    }
  }

  lemma Pow2Values()
    ensures Pow2(63) == TWO63
    ensures Pow2(64) == TWO64
    ensures MAXADDR == Pow2(OFF_BITS - 1) - 1
  {
    assert Pow2(8) == 0x100;
    Pow2Add(8, 8);
    Pow2Add(16, 16);
    Pow2Add(32, 31);
    Pow2Add(32, 32);
    assert Pow2(31) == 0x8000_0000 by {
      Pow2Add(16, 15);
      assert Pow2(15) == 0x8000 by { Pow2Add(8, 7); }
    }
  }

  /** AND with the single bit `2^k` keeps exactly bit `k`. */
  lemma {:induction false} BitAndPow2(x: nat, k: nat)
    ensures Bit(x, k) <= 1
    ensures BitAnd(x, Pow2(k)) == if Bit(x, k) == 1 then Pow2(k) else 0
  {
    if x == 0 {
      BitOfZero(k);
    } else if k == 0 {
      assert BitAnd(x, 1) == 2 * BitAnd(x / 2, 0) + (if x % 2 == 1 then 1 else 0);
    } else {
      var p := Pow2(k - 1);
      var q := Pow2(k);
      assert q == 2 * p;
      assert q / 2 == p && q % 2 == 0;
      assert BitAnd(x, q) == 2 * BitAnd(x / 2, p);
      BitAndPow2(x / 2, k - 1);
      assert Bit(x, k) == Bit(x / 2, k - 1);
    }
  }

  lemma {:induction false} BitOfZero(k: nat)
    ensures Bit(0, k) == 0
  {
    if k > 0 {
      BitOfZero(k - 1);
    }
  }

  /** Below `2^(k+1)`, bit `k` is set exactly from `2^k` upwards. */
  lemma {:induction false} TopBit(x: nat, k: nat)
    requires x < 2 * Pow2(k)
    ensures Bit(x, k) == 1 <==> x >= Pow2(k)
    ensures Bit(x, k) <= 1
  {
    if k > 0 {
      TopBit(x / 2, k - 1);
    }
  }

  /** The low `n` bits of `~x` are `2^n - 1 - x`. */
  lemma {:induction false} BitNotComplement(x: nat, n: nat)
    requires x < Pow2(n)
    ensures BitNot(x, n) == Pow2(n) - 1 - x
  {
    if n > 0 {
      assert x / 2 < Pow2(n - 1);
      BitNotComplement(x / 2, n - 1);
      assert x == 2 * (x / 2) + x % 2;
    }
  }

  /** `x & ~MAXADDR` is nonzero exactly when the sign bit of `x` is set. */
  lemma MaskHighBit(x: u64)
    ensures BitAnd(x, Not64(MAXADDR)) != 0 <==> x >= TWO63
  {
    Pow2Values();
    assert Not64(MAXADDR) == Pow2(63);
    BitAndPow2(x, 63);
    TopBit(x, 63);
  }

  /** Once both operands are at most `MAXADDR`, the sum never wraps and never hits
      `HADDR_UNDEF`; only the signed comparison can still fire, and it fires
      exactly when the sum leaves the signed range. */
  lemma RegionOverflowWithinRange(a: u64, z: u64)
    requires a <= MAXADDR && z <= MAXADDR
    ensures Add64(a, z) == a + z
    ensures HADDR_UNDEF != Add64(a, z)
    ensures a + z <= MAXADDR ==> !RegionOverflow(a, z)
    ensures Signed64(Add64(a, z)) < Signed64(a) <==> RegionOverflow(a, z)
  {
  }

  /** Every address with its top bit set overflows, `HADDR_UNDEF` among them; no
      address or size up to `MAXADDR` does. */
  lemma OverflowThresholds(x: u64)
    ensures AddrOverflow(x) <==> x >= TWO63
    ensures SizeOverflow(x) <==> x >= TWO63
    ensures AddrOverflow(HADDR_UNDEF) && SizeOverflow(HADDR_UNDEF)
  {
  }
}
