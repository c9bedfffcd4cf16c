/** The fixed-point cube root of src/tcp_scubic.c: a 64-entry table indexed by the leading
    bits of the argument, then one Newton step, all in 32-bit arithmetic. The error bounds
    hold for every 64-bit argument. */
module RootTable {
  import opened Machine
  import opened NewtonStep

  /** The table `v`: for x in 0..63 about 64 times the cube root of x, less 10. */
  function Table(x: nat): (v: u8)
    requires x < 64
  {
    match x
    case 0 => 0 case 1 => 54 case 2 => 54 case 3 => 54
    case 4 => 118 case 5 => 118 case 6 => 118 case 7 => 118
    case 8 => 123 case 9 => 129 case 10 => 134 case 11 => 138
    case 12 => 143 case 13 => 147 case 14 => 151 case 15 => 156
    case 16 => 157 case 17 => 161 case 18 => 164 case 19 => 168
    case 20 => 170 case 21 => 173 case 22 => 176 case 23 => 179
    case 24 => 181 case 25 => 185 case 26 => 187 case 27 => 190
    case 28 => 192 case 29 => 194 case 30 => 197 case 31 => 199
    case 32 => 200 case 33 => 202 case 34 => 204 case 35 => 206
    case 36 => 209 case 37 => 211 case 38 => 213 case 39 => 215
    case 40 => 217 case 41 => 219 case 42 => 221 case 43 => 222
    case 44 => 224 case 45 => 225 case 46 => 227 case 47 => 229
    case 48 => 231 case 49 => 232 case 50 => 234 case 51 => 236
    case 52 => 237 case 53 => 239 case 54 => 240 case 55 => 242
    case 56 => 244 case 57 => 245 case 58 => 246 case 59 => 248
    case 60 => 250 case 61 => 251 case 62 => 252 case _ => 254
  }

  /** `((b * 84) >> 8) - 1`: a third of the bit length, less one. */
  function ShiftFor(bits: nat): int { bits * 84 / 256 - 1 }

  /** The estimate `((u32)((v[shift] + 10) << b)) >> 6` from a table entry. */
  function Estimate(entry: int, b: nat): int {
    Wrap32((entry + 10) * Pow2(b)) / 64
  }

  /** The rest of the Newton step, `((2 * x + q) * 341) >> 10` for the quotient
      q = a / (x * (x - 1)), with every 32-bit truncation written out. */
  function Refine(x: int, q: int): u32 {
    Wrap32(Wrap32(2 * x + Wrap32(q)) * 341) / 1024
  }

  /** The same with unbounded integers. */
  function RefineUnbounded(x: int, q: int): int { (2 * x + q) * 341 / 1024 }

  /** The quotient of the Newton step, `div64_u64(a, (u64)x * (u64)(x - 1))`. */
  function Quotient(a: u64, x: int): int
    requires x > 1
  {
    a / (x * (x - 1))
  }

  /** The leading bits of the argument, the table index. */
  function LeadingBits(a: u64): int
    requires Fls(a) >= 7
  {
    a / Pow2(3 * ShiftFor(Fls(a)))
  }

  /** The root of an argument of at least 64. The lemmas called here are what the table
      access and the division need: the index is in range and the divisor positive. */
  function LongRoot(a: u64): u32
    requires Fls(a) >= 7
  {
    LeadingBitsInRange(a);
    EstimateOfRow(LeadingBits(a), ShiftFor(Fls(a)));
    var x := Estimate(Table(LeadingBits(a)), ShiftFor(Fls(a)));
    Refine(x, Quotient(a, x))
  }

  function CubicRoot(a: u64): u32 {
    if Fls(a) < 7 then
      ShortIsBelow64(a);
      (Table(a) + 35) / 64
    else
      LongRoot(a)
  }

  lemma ShortIsBelow64(a: u64)
    requires Fls(a) < 7
    ensures a < 64
  {
    Pow2Values();
    Pow2Grows(Fls(a), 6);
  }

  lemma AtMost64Bits(a: u64)
    ensures Fls(a) <= 64
  {
    if Fls(a) > 64 {
      Pow2Values();
      Pow2Grows(64, Fls(a) - 1);
    }
  }

  /** The shift leaves four to six leading bits. */
  lemma ShiftLeaves(bits: int)
    requires 7 <= bits <= 64
    ensures 1 <= ShiftFor(bits) <= 20
    ensures 4 <= bits - 3 * ShiftFor(bits) <= 6
  {
  }

  /** The shift amount fits, and the shifted argument is a row 8..63 of the table. */
  lemma LeadingBitsInRange(a: u64)
    requires Fls(a) >= 7
    ensures 1 <= ShiftFor(Fls(a)) <= 20
    ensures 8 <= LeadingBits(a) < 64
  {
    AtMost64Bits(a);
    ShiftLeaves(Fls(a));
    var e, k := 3 * ShiftFor(Fls(a)), Fls(a) - 3 * ShiftFor(Fls(a));
    Pow2Adds(k - 1, e);
    Pow2Adds(k, e);
    Pow2Grows(3, k - 1);
    Pow2Grows(k, 6);
    Pow2Small();
    BitsBound(a, Pow2(e), Pow2(k - 1), Pow2(k));
  }

  lemma BitsBound(a: int, d: int, lo: int, hi: int)
    requires d > 0 && lo * d <= a < hi * d && 8 <= lo && hi <= 64
    ensures 8 <= a / d < 64
  {
    QuotientBounds(a, d, lo, hi);
  }

  lemma EstimateOfRow(s: nat, b: nat)
    requires 8 <= s < 64 && 1 <= b <= 20
    ensures Estimate(Table(s), b) == (Table(s) + 10) * Pow2(b) / 64 >= 4
  {
    TableRow(s);
    EstimateFits(Table(s), b);
  }

  /** What the proofs need of row s with t = v[s] + 10: the cube of t is near the
      arguments the row serves, also after t has lost its low three or four bits. */
  predicate GoodRow(s: int, t: int) {
    && 133 <= t <= 264
    && 17 * Cube(t) <= 20 * 262144 * s
    && 4 * 262144 * (s + 1) <= 5 * Cube(t - 7)
    && 4 * 64 * (s + 1) <= 5 * Cube(t / 16)
  }

  lemma TableRow(s: nat)
    requires 8 <= s < 64
    ensures GoodRow(s, Table(s) + 10)
  {
  }

  lemma EstimateFits(entry: int, b: nat)
    requires 123 <= entry <= 254 && 1 <= b <= 20
    ensures Estimate(entry, b) == (entry + 10) * Pow2(b) / 64 >= 4
  {
    assert 2 <= Pow2(b) <= 1048576 by {
      Pow2Grows(1, b);
      Pow2Grows(b, 20);
      Pow2Values();
    }
    EntryTimes(entry, Pow2(b));
  }

  lemma EntryTimes(entry: int, p: int)
    requires 123 <= entry <= 254 && 2 <= p <= 1048576
    ensures Wrap32((entry + 10) * p) == (entry + 10) * p >= 266
  {
    MulLe(133, entry + 10, p);
    MulLe(entry + 10, 264, p);
  }

  /** An estimate x serves the arguments in [lo, hi) when their ratio to the cube c of x
      stays between 0.85 and 1.25. */
  predicate Serves(c: int, lo: int, hi: int) {
    17 * c <= 20 * lo && 4 * hi <= 5 * c
  }

  lemma ServesScaled(c: int, lo: int, hi: int, k: int)
    requires Serves(c, lo, hi) && k > 0
    ensures Serves(c * k, lo * k, hi * k)
  {
    MulLe(17 * c, 20 * lo, k);
    MulLe(4 * hi, 5 * c, k);
  }

  lemma EstimateServes(s: int, t: int, p: int)
    requires GoodRow(s, t) && p > 0 && (p % 64 == 0 || p in {4, 8, 16, 32})
    ensures Serves(Cube(t * p / 64), s * Cube(p), (s + 1) * Cube(p))
  {
    if p % 64 == 0 {
      LargeShiftServes(s, t, p / 64);
    } else {
      SmallShiftServes(s, t, 64 / p);
    }
  }

  lemma LargeShiftServes(s: int, t: int, q: int)
    requires GoodRow(s, t) && q > 0
    ensures Serves(Cube(t * (64 * q) / 64), s * Cube(64 * q), (s + 1) * Cube(64 * q))
  {
    CubeOfProduct(t, q);
    CubeOfProduct(64, q);
    assert t * (64 * q) / 64 == t * q by { assert t * (64 * q) == 64 * (t * q); }
    assert Cube(q) > 0 by { CubeLe(1, q); }
    RowServes(s, t);
    ServesLarge(Cube(t), s, Cube(q));
  }

  lemma RowServes(s: int, t: int)
    requires GoodRow(s, t)
    ensures Serves(Cube(t), 262144 * s, 262144 * (s + 1))
  {
    CubeLe(t - 7, t);
  }

  lemma ServesLarge(c: int, s: int, k: int)
    requires Serves(c, 262144 * s, 262144 * (s + 1)) && k > 0
    ensures Serves(c * k, s * (262144 * k), (s + 1) * (262144 * k))
  {
    ServesScaled(c, 262144 * s, 262144 * (s + 1), k);
    Reassociate(s, 262144, k);
    Reassociate(s + 1, 262144, k);
  }

  lemma Reassociate(x: int, y: int, z: int)
    ensures x * (y * z) == (y * x) * z
  {
  }

  lemma SmallShiftServes(s: int, t: int, d: int)
    requires GoodRow(s, t) && d in {2, 4, 8, 16}
    ensures Serves(Cube(t * (64 / d) / 64), s * Cube(64 / d), (s + 1) * Cube(64 / d))
  {
    ShiftDivides(t, d);
    TruncatedRow(s, t, d, t / d);
    Descale(Cube(t / d), s, Cube(d), Cube(64 / d));
  }

  lemma ShiftDivides(t: int, d: int)
    requires d in {2, 4, 8, 16}
    ensures t * (64 / d) / 64 == t / d
    ensures Cube(d) * Cube(64 / d) == 262144 && Cube(d) > 0
  {
    if d == 2 {
    } else if d == 4 {
    } else if d == 8 {
    } else {
      assert d == 16;
    }
  }

  lemma Descale(c: int, s: int, k: int, p: int)
    requires k > 0 && k * p == 262144
    requires 17 * (k * c) <= 20 * 262144 * s && 4 * 262144 * (s + 1) <= 5 * (k * c)
    ensures Serves(c, s * p, (s + 1) * p)
  {
    Reassociate(s, p, k);
    Reassociate(s + 1, p, k);
    CancelLe(17 * c, 20 * (s * p), k);
    CancelLe(4 * ((s + 1) * p), 5 * c, k);
  }

  lemma TruncatedRow(s: int, t: int, d: int, x: int)
    requires GoodRow(s, t) && d in {2, 4, 8, 16} && x == t / d
    ensures 17 * (Cube(d) * Cube(x)) <= 20 * 262144 * s
    ensures 4 * 262144 * (s + 1) <= 5 * (Cube(d) * Cube(x))
  {
    CubeLe(d * x, t);
    CubeOfProduct(d, x);
    if d < 16 {
      CubeLe(t - 7, d * x);
    }
  }

  /** The root is within half a percent, and one, of the true root from above, and within
      a thousandth, and 1.34, from below. */
  predicate RootError(a: int, r: int) {
    && Cube(1023) * a < Cube(1024 * r + 1364)
    && (r > 0 ==> Cube(200 * (r - 1)) <= Cube(201) * a)
  }

  lemma ErrorBelow(a: int, sum: int)
    requires sum >= 0 && 27 * a < Cube(sum + 1)
    ensures Cube(1023) * a < Cube(1024 * (sum * 341 / 1024) + 1364)
  {
    CubeLe(341 * (sum + 1), 1024 * (sum * 341 / 1024) + 1364);
    CubeOfProduct(341, sum + 1);
  }

  lemma ErrorAbove(a: int, sum: int)
    requires sum >= 3 && 100 * Cube(sum - 3) <= 2748 * a
    ensures var r := sum * 341 / 1024; r > 0 ==> Cube(200 * (r - 1)) <= Cube(201) * a
  {
    var r := sum * 341 / 1024;
    if r > 0 {
      CubeLe(1024 * (200 * (r - 1)), 68200 * (sum - 3));
      CubeOfProduct(1024, 200 * (r - 1));
      CubeOfProduct(68200, sum - 3);
    }
  }

  lemma SumIsSmall(a: int, sum: int)
    requires a < TWO64 && 100 * Cube(sum - 3) <= 2748 * a
    ensures sum < 12000000
  {
    if sum >= 12000000 {
      CubeLe(11999997, sum - 3);
    }
  }

  lemma RefineIsExact(x: int, q: int)
    requires x >= 0 && q >= 0 && 2 * x + q < 12000000
    ensures Refine(x, q) == RefineUnbounded(x, q)
  {
    WrapId(q);
    WrapId(2 * x + q);
    WrapId((2 * x + q) * 341);
  }

  lemma QuotientMeans(a: u64, x: int)
    requires x >= 4
    ensures var q := Quotient(a, x);
      q >= 0 && q * (x * (x - 1)) <= a < (q + 1) * (x * (x - 1))
  {
    MulLe(4, x, x - 1);
    DivisionMeans(a, x * (x - 1));
  }

  lemma DivisionMeans(a: int, d: int)
    requires a >= 0 && d > 0
    ensures a / d >= 0 && (a / d) * d <= a < (a / d + 1) * d
  {
  }

  lemma ErrorOfRefine(a: u64, x: int, q: int)
    requires x >= 4 && q >= 0 && q * (x * (x - 1)) <= a < (q + 1) * (x * (x - 1))
    requires 17 * Cube(x) <= 20 * a && 4 * a <= 5 * Cube(x)
    ensures Refine(x, q) == RefineUnbounded(x, q)
    ensures RootError(a, Refine(x, q))
  {
    StepFromBelow(a, x, q);
    StepFromAbove(a, x, q);
    SumIsSmall(a, 2 * x + q);
    RefineIsExact(x, q);
    ErrorBelow(a, 2 * x + q);
    ErrorAbove(a, 2 * x + q);
  }

  /** Which arguments below 512 each coarse estimate serves. */
  predicate CoarseRange(a: int, x: int) {
    || (x == 4 && 64 <= a < 112)
    || (x == 5 && 112 <= a < 200)
    || (x == 6 && 184 <= a < 336)
    || (x == 7 && 296 <= a < 512)
    || (x == 8 && 440 <= a < 512)
  }

  lemma CoarseRow(a: int, t: int)
    requires GoodRow(a / 8, t) && 64 <= a < 512
    ensures CoarseRange(a, t / 32)
  {
    if t < 160 {
      CubeLe(t / 16, 9);
    } else if t < 192 {
      CubeLe(160, t);
      CubeLe(t / 16, 11);
    } else if t < 224 {
      CubeLe(192, t);
      CubeLe(t / 16, 13);
    } else if t < 256 {
      CubeLe(224, t);
    } else {
      CubeLe(256, t);
    }
  }

  lemma CoarseRoot(a: int, x: int, q: int)
    requires CoarseRange(a, x)
    requires q >= 0 && q * (x * (x - 1)) <= a < (q + 1) * (x * (x - 1))
    ensures 2 * x + q < 30
    ensures 1 <= RefineUnbounded(x, q) <= 8 && Cube(RefineUnbounded(x, q) - 1) <= a
  {
    CoarseQuotient(a, x, q);
    var r := RefineUnbounded(x, q);
    if r == 8 {
      assert Cube(7) == 343;
    } else if r == 7 {
      assert Cube(6) == 216;
    } else if r == 6 {
      assert Cube(5) == 125;
    } else {
      CubeLe(r - 1, 4);
    }
  }

  lemma CoarseQuotient(a: int, x: int, q: int)
    requires CoarseRange(a, x)
    requires q >= 0 && q * (x * (x - 1)) <= a < (q + 1) * (x * (x - 1))
    ensures 5 <= q && 2 * x + q <= 26
    ensures 2 * x + q >= 18 ==> a >= 125
    ensures 2 * x + q >= 21 ==> a >= 216
    ensures 2 * x + q >= 24 ==> a >= 343
  {
    if x == 4 {
    } else if x == 5 {
    } else if x == 6 {
    } else if x == 7 {
    }
  }

  lemma CoarseUpper(a: int, r: int)
    requires 1 <= r <= 8 && 0 <= Cube(r - 1) <= a
    ensures Cube(200 * (r - 1)) <= Cube(201) * a
  {
    CubeOfProduct(200, r - 1);
  }

  /** Arguments below 512 have estimates so coarse that the quarter bound fails; there
      the result less one is simply no larger than the root. */
  lemma ErrorOfCoarse(a: u64, x: int, q: int)
    requires CoarseRange(a, x)
    requires q >= 0 && q * (x * (x - 1)) <= a < (q + 1) * (x * (x - 1))
    ensures Refine(x, q) == RefineUnbounded(x, q)
    ensures RootError(a, Refine(x, q))
  {
    CoarseRoot(a, x, q);
    StepFromBelow(a, x, q);
    RefineIsExact(x, q);
    CoarseSum(a, 2 * x + q, RefineUnbounded(x, q));
  }

  lemma CoarseSum(a: int, sum: int, r: int)
    requires sum >= 0 && 27 * a < Cube(sum + 1) && r == sum * 341 / 1024
    requires 1 <= r <= 8 && Cube(r - 1) <= a
    ensures RootError(a, r)
  {
    ErrorBelow(a, sum);
    CubeLe(0, r - 1);
    CoarseUpper(a, r);
  }

  predicate ShortRange(a: int, r: int) {
    || (r == 0 && a == 0)
    || (r == 1 && 1 <= a < 4)
    || (r == 2 && 4 <= a < 16)
    || (r == 3 && 16 <= a < 42)
    || (r == 4 && 42 <= a < 64)
  }

  lemma ShortRoot(a: int)
    requires 0 <= a < 64
    ensures ShortRange(a, (Table(a) + 35) / 64)
  {
  }

  lemma ShortError(a: int, r: int)
    requires 0 <= a < 64 && r == (Table(a) + 35) / 64
    ensures RootError(a, r)
  {
    ShortRoot(a);
    ShortRangeError(a, r);
  }

  lemma ShortRangeError(a: int, r: int)
    requires ShortRange(a, r)
    ensures RootError(a, r)
  {
    if r == 0 {
    } else if r == 1 {
    } else if r == 2 {
    } else if r == 3 {
    }
  }

  /** Started from x, the step loses nothing to 32 bits and lands near the root. */
  predicate Sound(a: u64, x: int) {
    && x >= 4
    && Refine(x, Quotient(a, x)) == RefineUnbounded(x, Quotient(a, x))
    && RootError(a, Refine(x, Quotient(a, x)))
  }

  lemma FineError(a: u64, s: int, t: int, p: int, k: int)
    requires GoodRow(s, t) && p > 0 && (p % 64 == 0 || p in {4, 8, 16, 32})
    requires k == Cube(p) && k > 0 && s == a / k
    requires t * p / 64 >= 4
    ensures Sound(a, t * p / 64)
  {
    var x := t * p / 64;
    DivisionMeans(a, k);
    QuotientMeans(a, x);
    EstimateServes(s, t, p);
    ErrorOfRefine(a, x, Quotient(a, x));
  }

  lemma CoarseError(a: u64, t: int)
    requires 64 <= a < 512 && GoodRow(a / 8, t)
    ensures Sound(a, t / 32)
  {
    CoarseRow(a, t);
    QuotientMeans(a, t / 32);
    ErrorOfCoarse(a, t / 32, Quotient(a, t / 32));
  }

  lemma PowerOfShift(b: nat)
    requires b >= 2
    ensures Pow2(3 * b) == Cube(Pow2(b))
    ensures Pow2(b) % 64 == 0 || Pow2(b) in {4, 8, 16, 32}
  {
    Pow2Adds(b, 2 * b);
    Pow2Adds(b, b);
    ShiftIsCoarse(b);
  }

  lemma ShiftIsCoarse(b: nat)
    requires b >= 2
    ensures Pow2(b) % 64 == 0 || Pow2(b) in {4, 8, 16, 32}
  {
    Pow2Small();
    if b >= 6 {
      Pow2Adds(6, b - 6);
      RemainderIs(Pow2(b), 64, Pow2(b - 6), 0);
    }
  }

  lemma SmallestShift(a: u64)
    requires Fls(a) >= 7
    ensures a >= 64
    ensures ShiftFor(Fls(a)) == 1 ==> a < 512
  {
    Pow2Values();
    Pow2Grows(6, Fls(a) - 1);
    if ShiftFor(Fls(a)) == 1 {
      Pow2Grows(Fls(a), 9);
    }
  }

  lemma RowError(a: u64, s: int, t: int, b: int)
    requires GoodRow(s, t) && 1 <= b && s == a / Pow2(3 * b)
    requires a >= 64 && (b == 1 ==> a < 512)
    requires t * Pow2(b) / 64 >= 4
    ensures Sound(a, t * Pow2(b) / 64)
  {
    if b == 1 {
      FirstShift(t, s, a);
      CoarseError(a, t);
    } else {
      PowerOfShift(b);
      FineError(a, s, t, Pow2(b), Pow2(3 * b));
    }
  }

  lemma FirstShift(t: int, s: int, a: int)
    requires s == a / Pow2(3)
    ensures t * Pow2(1) / 64 == t / 32 && s == a / 8
  {
    Pow2Values();
  }

  /** The estimate, with nothing truncated to 32 bits. */
  function UnboundedEstimate(a: u64): int
    requires Fls(a) >= 7
  {
    LeadingBitsInRange(a);
    (Table(LeadingBits(a)) + 10) * Pow2(ShiftFor(Fls(a))) / 64
  }

  /** No 32-bit truncation in the root ever takes effect, the divisor x * (x - 1) is at
      least 12, and the result is near the cube root. */
  lemma LongRootError(a: u64)
    requires Fls(a) >= 7
    ensures UnboundedEstimate(a) >= 4
    ensures LongRoot(a) == RefineUnbounded(UnboundedEstimate(a), Quotient(a, UnboundedEstimate(a)))
    ensures RootError(a, LongRoot(a))
  {
    LeadingBitsInRange(a);
    SmallestShift(a);
    var s, b := LeadingBits(a), ShiftFor(Fls(a));
    TableRow(s);
    EstimateOfRow(s, b);
    RowError(a, s, Table(s) + 10, b);
  }

  /** No argument leads the table astray: for every 64-bit a the result is close to the
      cube root on both sides. */
  lemma CubicRootError(a: u64)
    ensures RootError(a, CubicRoot(a))
  {
    if Fls(a) < 7 {
      ShortIsBelow64(a);
      ShortError(a, CubicRoot(a));
    } else {
      LongRootError(a);
    }
  }

  lemma RootAbove(a: int, r: int, c: nat)
    requires r >= 0 && Cube(c) <= a && Cube(1023) * a < Cube(1024 * r + 1364)
    ensures 1023 * c < 1024 * r + 1364
  {
    CubeOfProduct(1023, c);
    CubeReflectsLess(1023 * c, 1024 * r + 1364);
  }

  lemma RootBelow(a: int, r: int, c: nat)
    requires a < Cube(c + 1) && Cube(200 * (r - 1)) <= Cube(201) * a
    ensures 200 * (r - 1) < 201 * (c + 1)
  {
    CubeOfProduct(201, c + 1);
    CubeReflectsLess(200 * (r - 1), 201 * (c + 1));
  }

  /** Against the integer cube root c: the result is at most half a percent plus two
      above it, and at most a thousandth plus two below it. */
  lemma NearIntegerRoot(a: u64, c: nat)
    requires Cube(c) <= a < Cube(c + 1)
    ensures 200 * (CubicRoot(a) - 1) < 201 * (c + 1)
    ensures 1023 * c < 1024 * CubicRoot(a) + 1364
  {
    CubicRootError(a);
    var r := CubicRoot(a);
    RootAbove(a, r, c);
    if r > 0 {
      RootBelow(a, r, c);
    }
  }
}
