/** Openings of an epoch from which the curve of src/tcp_scubic.c wraps, computed with the
    kernel's own arithmetic. */
module CubicWitnesses {
  import opened Machine
  import opened NewtonStep
  import opened RootTable
  import opened CubicCurve

  lemma RootFrom(a: u64, s: nat, b: nat, x: int, q: int)
    requires Fls(a) >= 7 && ShiftFor(Fls(a)) == b
    requires LeadingBits(a) == s < 64
    requires Estimate(Table(s), b) == x > 1 && Quotient(a, x) == q
    ensures CubicRoot(a) == Refine(x, q)
  {
  }

  lemma Powers()
    ensures Pow2(11) == 2048 && Pow2(13) == 8192
    ensures Pow2(33) == 8589934592 && Pow2(36) == 68719476736 && Pow2(37) == 137438953472
    ensures Pow2(15) == 32768 && Pow2(45) == 35184372088832
    ensures Pow2(48) == 281474976710656 && Pow2(49) == 562949953421312
    ensures Pow2(39) == 549755813888 && Pow2(42) == 4398046511104 && Pow2(43) == 8796093022208
  {
    Pow2Values();
    Pow2Small();
    assert Pow2(11) == 2 * Pow2(10);
    Pow2Adds(3, 10);
    assert Pow2(33) == 2 * Pow2(32);
    Pow2Adds(33, 3);
    assert Pow2(37) == 2 * Pow2(36);
    Pow2Adds(33, 6);
    Pow2Adds(39, 3);
    assert Pow2(43) == 2 * Pow2(42);
    Pow2Adds(5, 10);
    Pow2Adds(42, 3);
    Pow2Adds(42, 6);
    assert Pow2(49) == 2 * Pow2(48);
  }

  // ------------------------------------------------------ the default bic_scale

  lemma DefaultStep(a: u64)
    requires a == 4950484059742
    ensures Quotient(a, 17792) == 15639 && Refine(17792, 15639) == 17057
  {
  }

  lemma DefaultRow(a: u64)
    requires a == 4950484059742
    ensures Fls(a) == 43 && ShiftFor(43) == 13 && LeadingBits(a) == 9
    ensures Estimate(Table(9), 13) == 17792
  {
    Powers();
    FlsIs(a, 43);
    DefaultLeads(a, Pow2(39), Pow2(13));
  }

  lemma DefaultLeads(a: u64, d: int, p: int)
    requires a == 4950484059742 && d == 549755813888 && p == 8192
    ensures a / d == 9 && Wrap32((129 + 10) * p) / 64 == 17792
  {
  }

  lemma DefaultRoot(a: u64)
    requires a == 4950484059742
    ensures CubicRoot(a) == 17057
  {
    DefaultRow(a);
    DefaultStep(a);
    RootFrom(a, 9, 13, 17792, 15639);
  }

  lemma DefaultTime(factor: int, gap: int)
    requires factor * gap == 4950484059742
    ensures PlateauTime(factor, gap) == 17057
  {
    DefaultRoot(factor * gap);
  }

  lemma DefaultTarget(s: int, k: int)
    requires s == 410 && k == 17057
    ensures Target(s, 1848, k, 0) == TWO32 - 2
  {
    assert Cube(k) == 4962584884193;
    DeltaIsExact(s, k);
  }

  /** With the default bic_scale, a flow that opens an epoch at window 2 below a plateau of
      1848 has a target of more than four billion packets. */
  lemma UnsafeOpeningWraps()
    ensures Accepted(41) && 2 < 1848 <= MAX_WINDOW && !SafeOpening(1848, 2)
    ensures Target(RttScale(41), 1848, PlateauTime(CubeFactor(41), 1846), 0) == TWO32 - 2
  {
    DefaultTime(CubeFactor(41), 1846);
    DefaultTarget(RttScale(41), PlateauTime(CubeFactor(41), 1846));
  }

  // ------------------------------------------------------ the least favourable row

  /** The row of the table with the largest overshoot, 15, at the start of its range. */
  lemma WorstStep(a: u64)
    requires a == 128873917183
    ensures Quotient(a, 5312) == 4568 && Refine(5312, 4568) == 5059
  {
  }

  lemma WorstRow(a: u64)
    requires a == 128873917183
    ensures Fls(a) == 37 && ShiftFor(37) == 11 && LeadingBits(a) == 15
    ensures Estimate(Table(15), 11) == 5312
  {
    Powers();
    FlsIs(a, 37);
    WorstLeads(a, Pow2(33), Pow2(11));
  }

  lemma WorstLeads(a: u64, d: int, p: int)
    requires a == 128873917183 && d == 8589934592 && p == 2048
    ensures a / d == 15 && Wrap32((156 + 10) * p) / 64 == 5312
  {
  }

  lemma WorstRoot(a: u64)
    requires a == 128873917183
    ensures CubicRoot(a) == 5059
  {
    WorstRow(a);
    WorstStep(a);
    RootFrom(a, 15, 11, 5312, 4568);
  }

  lemma WorstTime(factor: int, gap: int)
    requires factor * gap == 128873917183
    ensures PlateauTime(factor, gap) == 5059
  {
    WorstRoot(factor * gap);
  }

  lemma WorstTarget(s: int, k: int)
    requires s == 5520 && k == 5059
    ensures Delta(s, k) == 650 && Target(s, 649, k, 0) == TWO32 - 1
  {
    assert Cube(k) == 129477420379;
    DeltaIsExact(s, k);
  }

  /** At bic_scale 552, an epoch that opens at window 2 below a plateau of 649 has a first
      delta of 650, and a target of 2^32 - 1. */
  lemma WorstRowOpening()
    ensures Accepted(552) && 2 < 649 <= MAX_WINDOW && !SafeOpening(649, 2)
    ensures Delta(RttScale(552), PlateauTime(CubeFactor(552), 647)) == 650
    ensures Target(RttScale(552), 649, PlateauTime(CubeFactor(552), 647), 0) == TWO32 - 1
  {
    WorstTime(CubeFactor(552), 647);
    WorstTarget(RttScale(552), PlateauTime(CubeFactor(552), 647));
  }

  // ------------------------------------------------------ the same row, at two million

  lemma LargeStep(a: u64)
    requires a == 527815388721280
    ensures Quotient(a, 84992) == 73068 && Refine(84992, 73068) == 80938
  {
  }

  lemma LargeRow(a: u64)
    requires a == 527815388721280
    ensures Fls(a) == 49 && ShiftFor(49) == 15 && LeadingBits(a) == 15
    ensures Estimate(Table(15), 15) == 84992
  {
    Powers();
    FlsIs(a, 49);
    LargeLeads(a, Pow2(45), Pow2(15));
  }

  lemma LargeLeads(a: u64, d: int, p: int)
    requires a == 527815388721280 && d == 35184372088832 && p == 32768
    ensures a / d == 15 && Wrap32((156 + 10) * p) / 64 == 84992
  {
  }

  lemma LargeRoot(a: u64)
    requires a == 527815388721280
    ensures CubicRoot(a) == 80938
  {
    LargeRow(a);
    LargeStep(a);
    RootFrom(a, 15, 15, 84992, 73068);
  }

  lemma LargeTime(factor: int, gap: int)
    requires factor * gap == 527815388721280
    ensures PlateauTime(factor, gap) == 80938
  {
    LargeRoot(factor * gap);
  }

  lemma LargeDelta(s: int, k: int)
    requires s == 4150 && k == 80938
    ensures Delta(s, k) == 2001269
  {
    assert Cube(k) == 530221587853672;
    DeltaIsExact(s, k);
  }

  /** At bic_scale 415, an epoch that opens at window 7812, which is 4/1024 of two million,
      below a plateau of two million has a first delta of 2001269. */
  lemma LargeUnsafeOpening()
    ensures Accepted(415) && 7812 < 2_000_000 <= MAX_WINDOW && !SafeOpening(2_000_000, 7812)
    ensures Delta(RttScale(415), PlateauTime(CubeFactor(415), 1_992_188)) == 2001269
  {
    LargeTime(CubeFactor(415), 1_992_188);
    LargeDelta(RttScale(415), PlateauTime(CubeFactor(415), 1_992_188));
  }
}
