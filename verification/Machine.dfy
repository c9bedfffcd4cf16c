/** The machine arithmetic of the kernel sources: unsigned widths that wrap, signed
    reinterpretation of a 32-bit word, C's truncating division, powers of two and the
    position of the highest set bit. */
module Machine {

  const TWO8: int := 0x100
  const TWO16: int := 0x1_0000
  const TWO32: int := 0x1_0000_0000
  const TWO64: int := 0x1_0000_0000_0000_0000
  const TWO40: int := 0x100_0000_0000

  type u8 = x: int | 0 <= x < TWO8
  type u16 = x: int | 0 <= x < TWO16
  type u32 = x: int | 0 <= x < TWO32
  type u64 = x: int | 0 <= x < TWO64

  function Wrap16(x: int): u16 { x % TWO16 }

  function Wrap32(x: int): u32 { x % TWO32 }

  function Wrap64(x: int): u64 { x % TWO64 }

  /** A 32-bit word read as a signed number, the cast `(s32)` of the sources. */
  function Signed32(x: u32): int {
    if x < TWO32 / 2 then x else x - TWO32
  }

  function Min(x: int, y: int): int {
    if x <= y then x else y
  }

  function Max(x: int, y: int): int {
    if x >= y then x else y
  }

  /** C's `x / d` for a positive divisor: the quotient is truncated toward zero. */
  function TruncDiv(x: int, d: int): (q: int)
    requires d > 0
    ensures -d < x - q * d < d
    ensures q * x >= 0
  {
    if x >= 0 then
      QuotientIs(x, d);
      x / d
    else
      QuotientIs(-x, d);
      -((-x) / d)
  }

  lemma QuotientIs(x: int, d: int)
    requires x >= 0 && d > 0
    ensures x / d >= 0 && 0 <= x - x / d * d < d && x / d * x >= 0
  {
    assert x == x / d * d + x % d;
    MulLe(0, x / d, x);
  }

  function Pow2(n: nat): (p: nat)
    ensures p >= 1
  {
    if n == 0 then 1 else 2 * Pow2(n - 1)
  }

  lemma {:induction false} Pow2Adds(m: nat, n: nat)
    ensures Pow2(m + n) == Pow2(m) * Pow2(n)
  {
    if m > 0 {
      Pow2Adds(m - 1, n);
      assert Pow2(m + n) == 2 * Pow2(m - 1 + n);
    }
  }

  lemma {:induction false} Pow2Grows(m: nat, n: nat)
    requires m <= n
    ensures Pow2(m) <= Pow2(n)
  {
    if m < n {
      Pow2Grows(m, n - 1);
    }
  }

  lemma Pow2Small()
    ensures Pow2(1) == 2 && Pow2(2) == 4 && Pow2(3) == 8 && Pow2(4) == 16 && Pow2(5) == 32 && Pow2(6) == 64
  {
    assert Pow2(1) == 2 * Pow2(0);
    assert Pow2(3) == 2 * Pow2(2) && Pow2(5) == 2 * Pow2(4);
  }

  lemma Pow2Values()
    ensures Pow2(1) == 2 && Pow2(3) == 8 && Pow2(6) == 64 && Pow2(9) == 512
    ensures Pow2(10) == 1024 && Pow2(20) == 1048576
    ensures Pow2(32) == TWO32 && Pow2(40) == TWO40 && Pow2(64) == TWO64
  {
    Pow2Small();
    assert Pow2(10) == 2 * Pow2(9) == 4 * Pow2(8) == 8 * Pow2(7) == 16 * Pow2(6);
    Pow2Adds(10, 10);
    Pow2Adds(20, 10);
    assert Pow2(32) == 2 * Pow2(31) == 4 * Pow2(30);
    Pow2Adds(30, 10);
    Pow2Adds(32, 32);
  }

  /** The remainder is the one number below the divisor that completes a multiple. */
  lemma RemainderIs(x: int, d: int, q: int, r: int)
    requires d > 0 && x == q * d + r && 0 <= r < d
    ensures x % d == r
  {
    QuotientBounds(x, d, q, q + 1);
    assert x / d == q;
  }

  lemma WrapId(x: int)
    requires 0 <= x < TWO32
    ensures Wrap32(x) == x
  {
  }

  lemma WrapId16(x: int)
    requires 0 <= x < TWO16
    ensures Wrap16(x) == x
  {
  }

  lemma WrapId64(x: int)
    requires 0 <= x < TWO64
    ensures Wrap64(x) == x
  {
  }

  lemma WrapAdds(x: int, y: int)
    ensures Wrap32(Wrap32(x) + y) == Wrap32(x + y)
  {
  }

  lemma WrapSubtracts(x: int, y: int)
    ensures Wrap32(x - Wrap32(y)) == Wrap32(x - y)
  {
  }

  lemma MulLe(x: int, y: int, d: int)
    requires x <= y && d >= 0
    ensures x * d <= y * d
  {
  }

  /** The quotient is the one number whose multiple of d reaches a without passing it. */
  lemma QuotientBounds(a: int, d: int, lo: int, hi: int)
    requires d > 0 && lo * d <= a < hi * d
    ensures lo <= a / d < hi
  {
    var q := a / d;
    assert q * d <= a < (q + 1) * d;
    assert lo < q + 1 by { if q + 1 <= lo { MulLe(q + 1, lo, d); } }
    assert q < hi by { if hi <= q { MulLe(hi, q, d); } }
  }

  /** The kernel's `fls64`: one more than the position of the highest set bit, 0 for 0. */
  function Fls(a: nat): (b: nat)
    ensures a == 0 <==> b == 0
    ensures a > 0 ==> Pow2(b - 1) <= a < Pow2(b)
  {
    if a == 0 then 0 else 1 + Fls(a / 2)
  }

  lemma FlsIs(a: nat, b: nat)
    requires b > 0 && Pow2(b - 1) <= a < Pow2(b)
    ensures Fls(a) == b
  {
    if Fls(a) < b {
      Pow2Grows(Fls(a), b - 1);
    } else if b < Fls(a) {
      Pow2Grows(b, Fls(a) - 1);
    }
  }
}
