/** The cube root of src/tcp_scubic.c once more, for arguments large enough that the table's
    estimate is exact to the last bit: how much the result can exceed the root, to a small
    fraction of a percent. */
module SharpRoot {
  import opened Machine
  import opened NewtonStep
  import opened RootTable

  // ------------------------------------------------------------ the step

  /** Below c by at most 9/64 of it, the mean inequality is off by little. */
  lemma SharpGapWhenSmaller(c: int, e: int)
    requires 0 <= 64 * e <= 9 * c
    ensures 1000 * ((e * e) * (9 * c - e)) <= 204 * (c * c * (c - e))
  {
    EdgeIsLargest(c, e);
    MulLe(4096 * (e * (9 * c - e)), 5103 * (c * c), e);
    MulLe(64 * e, 9 * c, c * c);
    assert 4096 * ((e * e) * (9 * c - e)) <= 5103 * (c * c * e);
    assert 64 * (c * c * e) <= 9 * (c * c * c);
    assert c * c * (c - e) == c * c * c - c * c * e;
  }

  lemma EdgeIsLargest(c: int, e: int)
    requires 0 <= 64 * e <= 9 * c
    ensures 4096 * (e * (9 * c - e)) <= 5103 * (c * c)
  {
    MulNonNeg(9 * c - 64 * e, 567 * c - 64 * e);
    assert (9 * c - 64 * e) * (567 * c - 64 * e) == 5103 * (c * c) - 4096 * (e * (9 * c - e));
  }

  lemma SharpGapWhenLarger(c: int, d: int)
    requires 0 <= 1000 * d <= 3 * c
    ensures 1000 * ((d * d) * (9 * c + d)) <= 204 * (c * c * (c + d))
  {
    LargerSquare(c, d);
    LargerProduct(c, d);
    LargerSum(c, d);
    LargerChain((d * d) * (9 * c + d), c * (d * d), c * c * d, c * c * (c + d));
  }

  lemma LargerChain(m: int, e: int, f: int, h: int)
    requires m <= 10 * e && 1000 * e <= 3 * f && 0 <= f <= h
    ensures 1000 * m <= 204 * h
  {
  }

  lemma LargerProduct(c: int, d: int)
    requires 0 <= d <= c
    ensures (d * d) * (9 * c + d) <= 10 * (c * (d * d))
  {
    MulLe(9 * c + d, 10 * c, d * d);
  }

  lemma LargerSum(c: int, d: int)
    requires c >= 0 && d >= 0
    ensures 0 <= c * c * d <= c * c * (c + d)
  {
    MulNonNeg(c, c);
    MulNonNeg(c * c, d);
    MulLe(d, c + d, c * c);
  }

  lemma LargerSquare(c: int, d: int)
    requires 0 <= 1000 * d <= 3 * c
    ensures 1000 * (c * (d * d)) <= 3 * (c * c * d)
  {
    MulLe(1000 * d, 3 * c, d);
    MulLe(1000 * (d * d), 3 * (c * d), c);
  }

  /** For a between 55/64 of c and 0.3 percent above it. */
  lemma SharpGap(c: int, a: int)
    requires c >= 0 && 55 * c <= 64 * a && 1000 * a <= 1003 * c
    ensures 1000 * Cube(2 * c + a) <= 27204 * (c * c * a)
  {
    MeanGap(c, a);
    if a >= c {
      SharpGapWhenLarger(c, a - c);
      assert (c - a) * (c - a) == (a - c) * (a - c);
    } else {
      SharpGapWhenSmaller(c, c - a);
    }
  }

  lemma QuotientNearEstimate(a: int, x: int, q: int)
    requires x >= 100 && q >= 0 && q * (x * (x - 1)) <= a && 1000 * a <= 1003 * Cube(x)
    ensures 50 * q <= 51 * x
  {
    if 50 * q > 51 * x {
      MulLe(51 * x + 1, 50 * q, x * (x - 1));
      assert (51 * x + 1) * (x * (x - 1)) == 51 * Cube(x) - 50 * (x * x) - x;
      MulLe(100, x, x);
      MulLe(100, x, x * x);
    }
  }

  lemma SharpSum(a: int, x: int, q: int)
    requires x >= 100 && q >= 0 && 50 * q <= 51 * x && q * (x * (x - 1)) <= a
    ensures (50 * (2 * x + q) - 51) * (x * x) <= 50 * (2 * Cube(x) + a)
  {
    assert q * (x * (x - 1)) == q * (x * x) - q * x;
    MulLe(50 * q, 51 * x, x);
    assert (50 * (2 * x + q) - 51) * (x * x) == 100 * Cube(x) + 50 * (q * (x * x)) - 51 * (x * x);
  }

  lemma CancelSharp(u: int, m: int, a: int, k: int, c: int)
    requires k == c * c > 0 && u * k <= 125000 * m && 1000 * m <= 27204 * (c * c * a)
    ensures u <= 3400500 * a
  {
    assert c * c * a == a * k;
    CancelLe(u, 3400500 * a, k);
  }

  /** From an estimate whose cube exceeds a by at most 9/55 and falls short by at most 0.3
      percent, the step overshoots by at most a quarter of a percent. */
  lemma SharpStep(a: int, x: int, q: int)
    requires x >= 100 && q >= 0 && q * (x * (x - 1)) <= a
    requires 55 * Cube(x) <= 64 * a && 1000 * a <= 1003 * Cube(x)
    ensures Cube(50 * (2 * x + q) - 51) <= 3400500 * a
  {
    var w, c := 50 * (2 * x + q) - 51, Cube(x);
    QuotientNearEstimate(a, x, q);
    SharpSum(a, x, q);
    SixthPower(x);
    MulNonNeg(w, x * x);
    CubeLe(w * (x * x), 50 * (2 * c + a));
    CubeOfProduct(50, 2 * c + a);
    SharpGap(c, a);
    CubeOfProduct(w, x * x);
    CancelSharp(Cube(w), Cube(2 * c + a), a, c * c, c);
  }

  // ------------------------------------------------------------ the root

  /** The result exceeds the root by at most 0.154 percent and a third. */
  predicate SharpError(a: int, r: int) {
    Cube(51200 * r - 17391) <= 134836017310500 * a
  }

  lemma SharpRefine(a: int, sum: int)
    requires sum >= 100 && Cube(50 * sum - 51) <= 3400500 * a
    ensures SharpError(a, sum * 341 / 1024)
  {
    var r := sum * 341 / 1024;
    CubeLe(51200 * r - 17391, 341 * (50 * sum - 51));
    CubeOfProduct(341, 50 * sum - 51);
  }

  /** What the sharper bound needs of row s with t = v[s] + 10. */
  predicate SharpRow(s: int, t: int) {
    55 * Cube(t) <= 64 * (262144 * s) && 1000 * (262144 * (s + 1)) <= 1003 * Cube(t)
  }

  lemma SharpTableRow(s: nat)
    requires 8 <= s < 64
    ensures SharpRow(s, Table(s) + 10)
  {
  }

  /** A shift that is a multiple of 64 makes the estimate t * m exactly. */
  lemma ExactEstimate(t: int, m: int)
    ensures t * (64 * m) / 64 == t * m
  {
    assert t * (64 * m) == 64 * (t * m);
  }

  lemma SharpServes(a: int, s: int, c: int, k: int)
    requires 55 * c <= 64 * (262144 * s) && 1000 * (262144 * (s + 1)) <= 1003 * c
    requires k > 0 && s * (262144 * k) <= a < (s + 1) * (262144 * k)
    ensures 55 * (c * k) <= 64 * a && 1000 * a <= 1003 * (c * k)
  {
    MulLe(55 * c, 64 * (262144 * s), k);
    MulLe(1000 * (262144 * (s + 1)), 1003 * c, k);
    Reassociate(s, 262144, k);
    Reassociate(s + 1, 262144, k);
  }

  lemma SharpEstimate(a: u64, s: int, t: int, m: int)
    requires 8 <= s && SharpRow(s, t) && t >= 100 && m > 0 && s == a / Cube(64 * m)
    ensures Cube(64 * m) > 0
    ensures 55 * Cube(t * m) <= 64 * a && 1000 * a <= 1003 * Cube(t * m)
  {
    CubeOfProduct(64, m);
    CubeOfProduct(t, m);
    assert Cube(m) > 0 by { CubeLe(1, m); }
    DivisionMeans(a, Cube(64 * m));
    SharpServes(a, s, Cube(t), Cube(m));
  }

  lemma SharpFromRow(a: u64, s: int, t: int, m: int)
    requires 8 <= s && SharpRow(s, t) && t >= 100 && m > 0
    requires s == a / Cube(64 * m)
    ensures t * m >= 100
    ensures SharpError(a, RefineUnbounded(t * m, Quotient(a, t * m)))
  {
    MulLe(1, m, t);
    var x := t * m;
    SharpEstimate(a, s, t, m);
    QuotientMeans(a, x);
    SharpStep(a, x, Quotient(a, x));
    SharpRefine(a, 2 * x + Quotient(a, x));
  }

  /** From 2^33 on the shift is a multiple of 64. */
  lemma LargeShift(a: u64)
    requires a >= 8589934592
    ensures Fls(a) >= 34 && ShiftFor(Fls(a)) >= 10
  {
    if Fls(a) < 34 {
      Pow2Grows(Fls(a), 33);
      assert Pow2(33) == 8589934592 by { Pow2Values(); assert Pow2(33) == 2 * Pow2(32); }
    }
  }

  lemma ShiftOfSixtyFours(b: nat) returns (m: nat)
    requires b >= 6
    ensures m > 0 && Pow2(b) == 64 * m && Pow2(3 * b) == Cube(64 * m)
  {
    m := Pow2(b - 6);
    Pow2Small();
    Pow2Adds(6, b - 6);
    PowerOfShift(b);
  }

  /** For every argument from 2^33 on, the result exceeds the real root by at most 0.154
      percent and a third. */
  lemma CubicRootIsSharp(a: u64)
    requires a >= 8589934592
    ensures SharpError(a, CubicRoot(a))
  {
    LargeShift(a);
    LeadingBitsInRange(a);
    LongRootError(a);
    var s, b := LeadingBits(a), ShiftFor(Fls(a));
    var t := Table(s) + 10;
    TableRow(s);
    SharpTableRow(s);
    var m := ShiftOfSixtyFours(b);
    ExactEstimate(t, m);
    SharpFromRow(a, s, t, m);
  }
}
