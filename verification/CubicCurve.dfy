/** The window curve of src/tcp_scubic.c: the scale factors derived from bic_scale, the
    time K to the plateau, and the target window at each instant, in the fixed-point units
    of the kernel (time in 1/1024 second). The theorems compose the cube-root error with the
    two scale factors. */
module CubicCurve {
  import opened Machine
  import opened NewtonStep
  import opened RootTable
  import opened SharpRoot

  /** The largest window for which the theorems are stated; the source asks for less than
      a million packets. */
  const MAX_WINDOW: int := 16_000_000

  /** What scubic_set_params accepts for either parameter. */
  predicate Accepted(v: int) { 1 <= v < 1024 }

  /** `cube_factor`: 2^40 divided by `bic_scale * 10`. */
  function CubeFactor(bicScale: int): int
    requires bicScale > 0
  {
    TWO40 / (bicScale * 10)
  }

  /** `cube_rtt_scale`. */
  function RttScale(bicScale: int): int { bicScale * 10 }

  /** `bic_K`: the time from the start of an epoch to the plateau. */
  function PlateauTime(factor: int, gap: int): u32 { CubicRoot(Wrap64(factor * gap)) }

  /** `(cube_rtt_scale * offs * offs * offs) >> 40`, kept in 32 bits. */
  function Delta(scale: int, offs: int): u32 {
    Wrap32(Wrap64(scale * Cube(offs)) / TWO40)
  }

  /** `bic_target` at time t of an epoch with the given origin point and K. */
  function Target(scale: int, origin: int, k: int, t: int): u32 {
    if t < k then Wrap32(origin - Delta(scale, k - t)) else Wrap32(origin + Delta(scale, t - k))
  }

  // ---------------------------------------------------------------- the plateau time

  /** From 302 on, losing one costs the cube no more than a percent. */
  lemma OneLess(k: int)
    requires k >= 302
    ensures 27270901 * Cube(k) <= 27543608 * Cube(k - 1)
  {
    CubeLe(301 * k, 302 * (k - 1));
    CubeOfProduct(301, k);
    CubeOfProduct(302, k - 1);
  }

  lemma ChainUpper(ck: int, cu: int, a: int)
    requires 27270901 * ck <= 27543608 * cu && 8000000 * cu <= 8120601 * a && a >= 0
    ensures 100 * ck <= 103 * a
  {
  }

  /** From 455 on, the rounding below the root costs the cube no more than a percent. */
  lemma LittleMore(k: int)
    requires k >= 455
    ensures Cube(1024 * k + 1364) <= 1083206683 * Cube(k)
  {
    CubeLe(1024 * k + 1364, 1027 * k);
    CubeOfProduct(1027, k);
  }

  lemma ChainLower(ck: int, above: int, a: int)
    requires 1070599167 * a < above <= 1083206683 * ck && a >= 0
    ensures 1000 * ck >= 988 * a
  {
  }

  lemma RootIsLarge(a: u64)
    requires a >= 100_000_000
    ensures CubicRoot(a) >= 455
  {
    CubicRootError(a);
    assert Cube(464) == 99897344;
    RootAbove(a, CubicRoot(a), 464);
  }

  lemma RootFromBelow(a: u64)
    ensures 1070599167 * a < Cube(1024 * CubicRoot(a) + 1364)
  {
    CubicRootError(a);
    assert Cube(1023) == 1070599167;
  }

  lemma CubeOfRootAtLeast(a: u64)
    requires a >= 100_000_000
    ensures 1000 * Cube(CubicRoot(a)) >= 988 * a
  {
    RootFromBelow(a);
    RootIsLarge(a);
    LittleMore(CubicRoot(a));
    ChainLower(Cube(CubicRoot(a)), Cube(1024 * CubicRoot(a) + 1364), a);
  }

  lemma CubeOfRootAtMost(a: u64)
    requires a >= 100_000_000
    ensures 100 * Cube(CubicRoot(a)) <= 103 * a
  {
    CubicRootError(a);
    RootIsLarge(a);
    OneLess(CubicRoot(a));
    CubeOfProduct(200, CubicRoot(a) - 1);
    ChainUpper(Cube(CubicRoot(a)), Cube(CubicRoot(a) - 1), a);
  }

  /** The cube of the root of a large argument is the argument to 1.2 percent below and 3
      percent above. */
  lemma CubeOfRoot(a: u64)
    requires a >= 100_000_000
    ensures 100 * Cube(CubicRoot(a)) <= 103 * a
    ensures 1000 * Cube(CubicRoot(a)) >= 988 * a
  {
    CubeOfRootAtMost(a);
    CubeOfRootAtLeast(a);
  }

  // ------------------------------------------------- the curve where an epoch starts

  /** K for the gap wmax - cwnd, with no 64-bit overflow for windows up to MAX_WINDOW. */
  lemma ProductBounds(bicScale: int, gap: int)
    requires Accepted(bicScale) && 1 <= gap <= MAX_WINDOW
    ensures 100_000_000 <= CubeFactor(bicScale) * gap < TWO64
  {
    assert 107_000_000 <= CubeFactor(bicScale) <= 109951162777;
    MulLe(1, gap, CubeFactor(bicScale));
    MulLe(gap, MAX_WINDOW, CubeFactor(bicScale));
  }

  /** The two scale factors are inverse up to their rounding. */
  lemma FactorsCancel(bicScale: int, gap: int)
    requires Accepted(bicScale) && gap >= 0
    ensures RttScale(bicScale) * (CubeFactor(bicScale) * gap) <= TWO40 * gap
    ensures RttScale(bicScale) * (CubeFactor(bicScale) * gap) >= (TWO40 - 10230) * gap
  {
    var s, f := RttScale(bicScale), CubeFactor(bicScale);
    DivisionMeans(TWO40, s);
    assert f * s == s * f;
    MulLe(s * f, TWO40, gap);
    MulLe(TWO40 - 10230, s * f, gap);
    assert s * (f * gap) == (s * f) * gap;
  }

  lemma ScaleChain(s: int, c: int, a: int, gap: int)
    requires s > 0 && gap >= 0
    requires 988 * a <= 1000 * c && 100 * c <= 103 * a
    requires (TWO40 - 10230) * gap <= s * a <= TWO40 * gap
    ensures 987 * TWO40 * gap <= 1000 * (s * c)
    ensures 100 * (s * c) <= 103 * TWO40 * gap
  {
    MulLe(988 * a, 1000 * c, s);
    MulLe(100 * c, 103 * a, s);
  }

  /** The scaled cube of the plateau time is the gap, to 1.3 percent below and 3 above. */
  ghost predicate Matches(s: int, k: int, gap: int) {
    && s >= 0 && k >= 0
    && 987 * TWO40 * gap <= 1000 * (s * Cube(k))
    && 100 * (s * Cube(k)) <= 103 * TWO40 * gap
  }

  lemma PlateauCube(bicScale: int, gap: int)
    requires Accepted(bicScale) && 1 <= gap <= MAX_WINDOW
    ensures var a, k := CubeFactor(bicScale) * gap, PlateauTime(CubeFactor(bicScale), gap);
      100 * Cube(k) <= 103 * a && 1000 * Cube(k) >= 988 * a
  {
    var a := CubeFactor(bicScale) * gap;
    ProductBounds(bicScale, gap);
    WrapId64(a);
    WordRoot(a, Wrap64(a));
  }

  lemma WordRoot(a: int, w: u64)
    requires a == w >= 100_000_000
    ensures 100 * Cube(CubicRoot(w)) <= 103 * a && 1000 * Cube(CubicRoot(w)) >= 988 * a
  {
    CubeOfRoot(w);
  }

  /** Composition of the cube-root error with both scale factors: the cube of K, scaled,
      is the gap to the plateau, to 1.3 percent below and 3 percent above. */
  lemma PlateauMatchesGap(bicScale: int, gap: int)
    requires Accepted(bicScale) && 1 <= gap <= MAX_WINDOW
    ensures Matches(RttScale(bicScale), PlateauTime(CubeFactor(bicScale), gap), gap)
  {
    PlateauCube(bicScale, gap);
    FactorsCancel(bicScale, gap);
    var a, k := CubeFactor(bicScale) * gap, PlateauTime(CubeFactor(bicScale), gap);
    ScaleChain(RttScale(bicScale), Cube(k), a, gap);
  }

  lemma DeltaIsExact(scale: int, offs: int)
    requires 0 <= scale * Cube(offs) < TWO64
    ensures Delta(scale, offs) == scale * Cube(offs) / TWO40
    ensures TWO40 * Delta(scale, offs) <= scale * Cube(offs) < TWO40 * (Delta(scale, offs) + 1)
    ensures 0 <= Delta(scale, offs) < 16_777_216
  {
    WrapId64(scale * Cube(offs));
  }

  /** Where an epoch starts, the curve stands the gap below its plateau: to 1.3 percent
      and one packet below, and to 3 percent above. */
  lemma DeltaAtStart(bicScale: int, gap: int)
    requires Accepted(bicScale) && 1 <= gap <= MAX_WINDOW
    ensures var d := Delta(RttScale(bicScale), PlateauTime(CubeFactor(bicScale), gap));
      987 * gap - 1000 < 1000 * d && 100 * d <= 103 * gap
  {
    PlateauMatchesGap(bicScale, gap);
    StartChain(RttScale(bicScale), PlateauTime(CubeFactor(bicScale), gap), gap);
  }

  lemma StartChain(s: int, k: int, gap: int)
    requires 1 <= gap <= MAX_WINDOW
    requires 987 * TWO40 * gap <= 1000 * (s * Cube(k))
    requires 100 * (s * Cube(k)) <= 103 * TWO40 * gap
    ensures 0 <= s * Cube(k) < TWO64
    ensures 987 * gap - 1000 < 1000 * Delta(s, k) && 100 * Delta(s, k) <= 103 * gap
  {
    DeltaIsExact(s, k);
  }

  // -------------------------------------------------------------- the whole curve

  /** At time t nothing overflows: not the 64-bit cube, and not the 32-bit difference or
      sum with the origin point. */
  predicate Fits(scale: int, origin: int, k: int, t: int) {
    && 0 <= scale * Cube(Distance(k, t)) < TWO64
    && 0 <= origin < TWO32 - 16_777_216
    && (t < k ==> Delta(scale, k - t) <= origin)
  }

  function Distance(k: int, t: int): int { if t < k then k - t else t - k }

  /** While nothing overflows the target is the cubic W(t) = C (t - K)^3 + origin of
      section 4.1 of RFC 8312, truncated toward the origin point to a whole packet. */
  lemma TargetIsCubic(scale: int, origin: int, k: int, t: int)
    requires Fits(scale, origin, k, t)
    ensures var w := Target(scale, origin, k, t);
      if t < k then TWO40 * (origin - w) <= scale * Cube(k - t) < TWO40 * (origin - w + 1)
      else TWO40 * (w - origin) <= scale * Cube(t - k) < TWO40 * (w - origin + 1)
  {
    DeltaIsExact(scale, Distance(k, t));
    if t < k {
      WrapId(origin - Delta(scale, k - t));
    } else {
      WrapId(origin + Delta(scale, t - k));
    }
  }

  lemma TargetAtPlateau(scale: int, origin: u32, k: int)
    ensures Target(scale, origin, k, k) == origin
  {
    assert Cube(0) == 0;
  }

  lemma ScaledCubeLe(scale: int, x: int, y: int)
    requires scale >= 0 && 0 <= x <= y
    ensures scale * Cube(x) <= scale * Cube(y)
  {
    CubeLe(x, y);
    MulLe(Cube(x), Cube(y), scale);
  }

  lemma TargetSide(scale: int, origin: int, k: int, t: int)
    requires Fits(scale, origin, k, t) && scale >= 0
    ensures t < k ==> Target(scale, origin, k, t) <= origin
    ensures t >= k ==> Target(scale, origin, k, t) >= origin
  {
    TargetIsCubic(scale, origin, k, t);
    ScaledCubeLe(scale, 0, Distance(k, t));
  }

  /** The target never decreases in time, below the plateau, above it or across it. */
  lemma TargetMonotone(scale: int, origin: int, k: int, t1: int, t2: int)
    requires scale >= 0 && t1 <= t2
    requires Fits(scale, origin, k, t1) && Fits(scale, origin, k, t2)
    ensures Target(scale, origin, k, t1) <= Target(scale, origin, k, t2)
  {
    TargetSide(scale, origin, k, t1);
    TargetSide(scale, origin, k, t2);
    if t2 < k || k <= t1 {
      TargetIsCubic(scale, origin, k, t1);
      TargetIsCubic(scale, origin, k, t2);
      if t2 < k {
        ScaledCubeLe(scale, k - t2, k - t1);
      } else {
        ScaledCubeLe(scale, t1 - k, t2 - k);
      }
    }
  }

  // ------------------------------------------------------ how far the curve overshoots

  lemma RootAtLeast(a: u64, c: nat)
    requires Cube(c) <= a
    ensures 1023 * c < 1024 * CubicRoot(a) + 1364
  {
    CubicRootError(a);
    RootAbove(a, CubicRoot(a), c);
  }

  lemma ScaledCubes(x: int, r: int, y: int, u: int)
    requires 0 <= x * r <= y * u
    ensures Cube(x) * Cube(r) <= Cube(y) * Cube(u)
  {
    CubeLe(x * r, y * u);
    CubeOfProduct(x, r);
    CubeOfProduct(y, u);
  }

  lemma LargeChain(c: int, above: int, a: int)
    requires Cube(511955) * c <= Cube(10) * above && above <= 134836017310500 * a && a >= 0
    ensures 1024 * c <= 1029 * a
  {
    assert Cube(511955) == 134182341670308875 && Cube(10) == 1000;
  }

  /** From 3870^3 on the cube of the root exceeds the argument by less than 5/1024. */
  lemma CubeOfLargeRoot(a: u64)
    requires a >= 57960603000
    ensures 1024 * Cube(CubicRoot(a)) <= 1029 * a
  {
    assert Cube(3870) == 57960603000;
    RootAtLeast(a, 3870);
    CubicRootIsSharp(a);
    ScaledCubes(511955, CubicRoot(a), 10, 51200 * CubicRoot(a) - 17391);
    LargeChain(Cube(CubicRoot(a)), Cube(51200 * CubicRoot(a) - 17391), a);
  }

  lemma MiddleChain(c: int, above: int, a: int)
    requires Cube(51192) * c <= Cube(1) * above && above <= 134836017310500 * a && a >= 0
    ensures 2000 * c <= 2011 * a
  {
    assert Cube(51192) == 134154823269888 && Cube(1) == 1;
  }

  /** From 2200^3 on it does so by at most 11/2000. */
  lemma CubeOfMiddleRoot(a: u64)
    requires a >= 10648000000
    ensures 2000 * Cube(CubicRoot(a)) <= 2011 * a
  {
    assert Cube(2200) == 10648000000;
    RootAtLeast(a, 2200);
    CubicRootIsSharp(a);
    ScaledCubes(51192, CubicRoot(a), 1, 51200 * CubicRoot(a) - 17391);
    MiddleChain(Cube(CubicRoot(a)), Cube(51200 * CubicRoot(a) - 17391), a);
  }

  /** An overshoot of the root, scaled, in packets. */
  lemma ScaledOvershoot(s: int, k: int, a: int, gap: int, n: int, d: int)
    requires s > 0 && 0 <= gap <= MAX_WINDOW && s * a <= TWO40 * gap
    requires 0 < d <= n && 100 * n <= 103 * d && 0 <= d * Cube(k) <= n * a
    ensures d * Delta(s, k) <= n * gap
  {
    ScaledProducts(s, Cube(k), a, TWO40 * gap, n, d);
    OvershootChain(s * Cube(k), TWO40 * gap, n, d);
    DeltaIsExact(s, k);
    DeltaChain(Delta(s, k), s * Cube(k), gap, n, d);
  }

  lemma ScaledProducts(s: int, c: int, a: int, t: int, n: int, d: int)
    requires s > 0 && n > 0 && s * a <= t && 0 <= d * c <= n * a
    ensures 0 <= d * (s * c) <= t * n
  {
    MulLe(0, d * c, s);
    MulLe(d * c, n * a, s);
    MulLe(s * a, t, n);
    Exchange(d, c, s);
    Exchange(n, a, s);
  }

  lemma Exchange(x: int, y: int, z: int)
    ensures x * y * z == x * (z * y) == z * y * x
  {
  }

  lemma OvershootChain(sc: int, scaled: int, n: int, d: int)
    requires 0 < d <= n && 100 * n <= 103 * d && 0 <= d * sc <= scaled * n && scaled >= 0
    ensures 0 <= 100 * sc <= 103 * scaled
  {
    MulLe(100 * n, 103 * d, scaled);
    CancelLe(100 * sc, 103 * scaled, d);
    CancelLe(0, sc, d);
  }

  lemma DeltaChain(delta: int, sc: int, gap: int, n: int, d: int)
    requires d > 0 && TWO40 * delta <= sc && d * sc <= TWO40 * gap * n
    ensures d * delta <= n * gap
  {
    MulLe(TWO40 * delta, sc, d);
    Exchange(TWO40, delta, d);
    Exchange(TWO40, gap, n);
    CancelLe(d * delta, n * gap, TWO40);
  }

  /** At most two packets more than the gap below 540, and less than 5/1024 from there on. */
  predicate SmallOvershoot(gap: int, d: int) {
    if gap < 540 then d <= gap + 2 else 1024 * d <= 1029 * gap
  }

  /** The first delta of an epoch exceeds the gap by at most two packets below 540, and by
      less than 5/1024 from there on. */
  lemma OvershootIsSmall(bicScale: int, gap: int)
    requires Accepted(bicScale) && 1 <= gap <= MAX_WINDOW
    ensures SmallOvershoot(gap, Delta(RttScale(bicScale), PlateauTime(CubeFactor(bicScale), gap)))
  {
    if gap < 100 {
      DeltaAtStart(bicScale, gap);
    } else {
      var f := CubeFactor(bicScale);
      assert 107_478_813 <= f;
      ProductBounds(bicScale, gap);
      FactorsCancel(bicScale, gap);
      WrapId64(f * gap);
      if gap < 540 {
        MulLe(100, gap, f);
        SharpDelta(bicScale, f * gap, gap, 2011, 2000);
      } else {
        MulLe(540, gap, f);
        SharpDelta(bicScale, f * gap, gap, 1029, 1024);
      }
    }
  }

  lemma SharpDelta(bicScale: int, a: u64, gap: int, n: int, d: int)
    requires Accepted(bicScale) && 0 <= gap <= MAX_WINDOW && RttScale(bicScale) * a <= TWO40 * gap
    requires (n == 2011 && d == 2000 && a >= 10648000000) || (n == 1029 && d == 1024 && a >= 57960603000)
    ensures d * Delta(RttScale(bicScale), CubicRoot(a)) <= n * gap
  {
    if d == 2000 {
      CubeOfMiddleRoot(a);
    } else {
      CubeOfLargeRoot(a);
    }
    CubeLe(0, CubicRoot(a));
    MulLe(0, Cube(CubicRoot(a)), d);
    ScaledOvershoot(RttScale(bicScale), CubicRoot(a), a, gap, n, d);
  }

  // ------------------------------------------------------ an epoch below its plateau

  /** The windows at which an epoch can open without its curve ever dipping below zero,
      whatever the accepted bic_scale: from two packets on, those of at least about a 205th
      of the plateau. */
  predicate SafeOpening(wmax: int, cwnd: int) {
    if cwnd >= 2 then 5 * (wmax - cwnd) < 1024 * (cwnd + 1) else 3 * wmax <= 103 * cwnd
  }

  lemma DeltaShrinks(scale: int, x: int, y: int)
    requires scale >= 0 && 0 <= x <= y && scale * Cube(y) < TWO64
    ensures 0 <= scale * Cube(x) < TWO64
    ensures Delta(scale, x) <= Delta(scale, y)
  {
    ScaledCubeLe(scale, 0, x);
    ScaledCubeLe(scale, x, y);
    DeltaIsExact(scale, x);
    DeltaIsExact(scale, y);
  }

  /** No step of a curve up to its plateau overflows. */
  ghost predicate NoWrap(s: int, wmax: int, k: int) {
    forall t :: 0 <= t <= k ==> Fits(s, wmax, k, t)
  }

  /** The same for the epoch that opens at a window below its plateau. */
  ghost predicate CurveIsSafe(bicScale: int, wmax: int, cwnd: int)
    requires bicScale > 0
  {
    NoWrap(RttScale(bicScale), wmax, PlateauTime(CubeFactor(bicScale), wmax - cwnd))
  }

  /** Whatever the opening, the whole curve up to the plateau is free of wraps exactly if
      its first delta is no larger than the plateau. */
  lemma SafeExactlyWhen(bicScale: int, wmax: int, cwnd: int)
    requires Accepted(bicScale) && 0 <= cwnd < wmax <= MAX_WINDOW
    ensures CurveIsSafe(bicScale, wmax, cwnd)
       <==> Delta(RttScale(bicScale), PlateauTime(CubeFactor(bicScale), wmax - cwnd)) <= wmax
  {
    PlateauMatchesGap(bicScale, wmax - cwnd);
    MatchDecides(RttScale(bicScale), PlateauTime(CubeFactor(bicScale), wmax - cwnd), wmax, wmax - cwnd);
  }

  lemma MatchDecides(s: int, k: int, wmax: int, gap: int)
    requires Matches(s, k, gap) && 1 <= gap <= MAX_WINDOW && 0 < wmax <= MAX_WINDOW
    ensures NoWrap(s, wmax, k) <==> Delta(s, k) <= wmax
  {
    StartChain(s, k, gap);
    FirstDeltaDecides(s, k, wmax);
  }

  lemma FirstDeltaDecides(s: int, k: int, wmax: int)
    requires s >= 0 && k >= 0 && 0 < wmax <= MAX_WINDOW && s * Cube(k) < TWO64
    ensures NoWrap(s, wmax, k) <==> Delta(s, k) <= wmax
  {
    if Delta(s, k) <= wmax {
      forall t | 0 <= t <= k ensures Fits(s, wmax, k, t) {
        DeltaShrinks(s, k - t, k);
      }
    } else if k > 0 {
      assert !Fits(s, wmax, k, 0);
    } else {
      DeltaIsExact(s, 0);
    }
  }

  /** From a safe opening the subtraction `bic_origin_point - delta` wraps at no instant
      before the plateau, whatever the accepted bic_scale. */
  lemma NeverWraps(bicScale: int, wmax: int, cwnd: int)
    requires Accepted(bicScale) && 0 <= cwnd < wmax <= MAX_WINDOW && SafeOpening(wmax, cwnd)
    ensures CurveIsSafe(bicScale, wmax, cwnd)
  {
    var k := PlateauOf(bicScale, wmax - cwnd);
    SmallOvershootFits(RttScale(bicScale), k, wmax, cwnd);
  }

  lemma PlateauOf(bicScale: int, gap: int) returns (k: int)
    requires Accepted(bicScale) && 1 <= gap <= MAX_WINDOW
    ensures k == PlateauTime(CubeFactor(bicScale), gap)
    ensures Matches(RttScale(bicScale), k, gap) && SmallOvershoot(gap, Delta(RttScale(bicScale), k))
  {
    PlateauMatchesGap(bicScale, gap);
    OvershootIsSmall(bicScale, gap);
    k := PlateauTime(CubeFactor(bicScale), gap);
  }

  lemma SmallOvershootFits(s: int, k: int, wmax: int, cwnd: int)
    requires 0 <= cwnd < wmax <= MAX_WINDOW && SafeOpening(wmax, cwnd)
    requires Matches(s, k, wmax - cwnd) && SmallOvershoot(wmax - cwnd, Delta(s, k))
    ensures NoWrap(s, wmax, k)
  {
    MatchDecides(s, k, wmax, wmax - cwnd);
    StartChain(s, k, wmax - cwnd);
    StaysBelow(wmax, cwnd, Delta(s, k));
  }

  lemma StaysBelow(wmax: int, cwnd: int, d: int)
    requires 0 <= cwnd < wmax && SafeOpening(wmax, cwnd) && 100 * d <= 103 * (wmax - cwnd)
    requires SmallOvershoot(wmax - cwnd, d)
    ensures d <= wmax
  {
  }

  /** The epoch's curve as a whole: it starts at the current window to within three
      percent of the gap and one packet, climbs without falling as long as the 64-bit cube
      does not overflow, and meets the origin point at K. */
  lemma EpochCurve(bicScale: int, wmax: int, cwnd: int)
    requires Accepted(bicScale) && 0 <= cwnd < wmax <= MAX_WINDOW && SafeOpening(wmax, cwnd)
    ensures var s, k := RttScale(bicScale), PlateauTime(CubeFactor(bicScale), wmax - cwnd);
      && 100 * (cwnd - Target(s, wmax, k, 0)) <= 3 * (wmax - cwnd)
      && 1000 * (Target(s, wmax, k, 0) - cwnd) < 13 * (wmax - cwnd) + 1000
      && Target(s, wmax, k, k) == wmax
      && (forall t1, t2 :: 0 <= t1 <= t2 && s * Cube(Distance(k, t2)) < TWO64 ==>
            Target(s, wmax, k, t1) <= Target(s, wmax, k, t2))
  {
    var s, k := RttScale(bicScale), PlateauTime(CubeFactor(bicScale), wmax - cwnd);
    PlateauMatchesGap(bicScale, wmax - cwnd);
    NeverWraps(bicScale, wmax, cwnd);
    TargetAtPlateau(s, wmax, k);
    MatchOpens(s, k, wmax, cwnd);
    forall t1, t2 | 0 <= t1 <= t2 && s * Cube(Distance(k, t2)) < TWO64
      ensures Target(s, wmax, k, t1) <= Target(s, wmax, k, t2)
    {
      CurveClimbs(s, k, wmax, t1, t2);
    }
  }

  lemma CurveClimbs(s: int, k: int, wmax: int, t1: int, t2: int)
    requires s >= 0 && 0 <= wmax <= MAX_WINDOW && NoWrap(s, wmax, k)
    requires 0 <= t1 <= t2 && s * Cube(Distance(k, t2)) < TWO64
    ensures Target(s, wmax, k, t1) <= Target(s, wmax, k, t2)
  {
    CurveFits(s, k, wmax, t2);
    if t1 > k {
      ScaledCubeLe(s, t1 - k, t2 - k);
    }
    CurveFits(s, k, wmax, t1);
    TargetMonotone(s, wmax, k, t1, t2);
  }

  lemma CurveFits(s: int, k: int, wmax: int, t: int)
    requires s >= 0 && 0 <= wmax <= MAX_WINDOW && NoWrap(s, wmax, k)
    requires 0 <= t && (t > k ==> s * Cube(Distance(k, t)) < TWO64)
    ensures Fits(s, wmax, k, t)
  {
    if t > k {
      ScaledCubeLe(s, 0, Distance(k, t));
    }
  }

  lemma MatchOpens(s: int, k: int, wmax: int, cwnd: int)
    requires 0 <= cwnd < wmax <= MAX_WINDOW && Matches(s, k, wmax - cwnd) && NoWrap(s, wmax, k)
    ensures 100 * (cwnd - Target(s, wmax, k, 0)) <= 3 * (wmax - cwnd)
    ensures 1000 * (Target(s, wmax, k, 0) - cwnd) < 13 * (wmax - cwnd) + 1000
  {
    StartChain(s, k, wmax - cwnd);
    assert Fits(s, wmax, k, 0);
    OpeningTarget(s, wmax, k);
  }

  lemma OpeningTarget(s: int, wmax: int, k: int)
    requires k >= 0 && Fits(s, wmax, k, 0)
    ensures Target(s, wmax, k, 0) == wmax - Delta(s, k)
  {
    if k > 0 {
      WrapId(wmax - Delta(s, k));
    } else {
      DeltaIsExact(s, 0);
      WrapId(wmax + Delta(s, 0));
    }
  }
}
