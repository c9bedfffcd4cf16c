/** Newton's step for a cube root, bounded on both sides in integers. From any positive x
    the step x -> (2x + a/x^2) / 3 lands at or above the root of a; from an x whose cube is
    within a quarter of a it lands at most half a percent above. */
module NewtonStep {
  import opened Machine

  function Cube(x: int): int { x * x * x }

  lemma MulNonNeg(x: int, y: int)
    requires x >= 0 && y >= 0
    ensures x * y >= 0
  {
  }

  lemma CancelLe(x: int, y: int, k: int)
    requires k > 0 && x * k <= y * k
    ensures x <= y
  {
    if x > y {
      MulLe(y + 1, x, k);
    }
  }

  lemma CubeOfProduct(x: int, y: int)
    ensures Cube(x * y) == Cube(x) * Cube(y)
  {
  }

  lemma CubeLe(x: int, y: int)
    requires 0 <= x <= y
    ensures Cube(x) <= Cube(y)
  {
    MulLe(x, y, x);
    MulLe(x, y, y);
    MulLe(x * x, y * y, x);
    MulLe(x, y, y * y);
  }

  lemma CubeReflectsLess(x: int, y: int)
    requires y >= 0 && Cube(x) < Cube(y)
    ensures x < y
  {
    if y <= x {
      CubeLe(y, x);
    }
  }

  /** By how much the cube of the mean exceeds the product. */
  lemma MeanGap(x: int, y: int)
    ensures Cube(2 * x + y) - 27 * (x * x * y) == ((x - y) * (x - y)) * (8 * x + y)
  {
  }

  /** The arithmetic-geometric mean inequality for x, x and y. */
  lemma AmGm(x: int, y: int)
    requires x >= 0 && y >= 0
    ensures Cube(2 * x + y) >= 27 * (x * x * y)
  {
    MeanGap(x, y);
    MulNonNeg((x - y) * (x - y), 8 * x + y);
  }

  /** Three times the step's result, plus one, exceeds three times the root. */
  lemma StepFromBelow(a: int, x: int, q: int)
    requires x >= 2 && q >= 0 && a < (q + 1) * (x * (x - 1))
    ensures 27 * a < Cube(2 * x + q + 1)
  {
    AmGm(x, q + 1);
    assert x * (x - 1) == x * x - x;
    MulLe(x * (x - 1), x * x, q + 1);
    assert 27 * a < 27 * (x * x * (q + 1));
  }

  lemma GapWhenLarger(c: int, d: int)
    requires 0 <= 4 * d <= c
    ensures 100 * ((d * d) * (9 * c + d)) <= 48 * (c * c * (c + d))
  {
    MulLe(4 * d, c, d);
    MulLe(4 * (9 * c + d), 37 * c, d * d);
    MulLe(4 * (d * d), c * d, c);
    MulLe(4 * d, c, c * c);
    assert 16 * ((d * d) * (9 * c + d)) <= 37 * (c * d * c);
    assert c * c * (c + d) == c * c * c + c * c * d;
    assert c * c * c >= 4 * (c * c * d);
  }

  lemma GapWhenSmaller(c: int, e: int)
    requires 0 <= 20 * e <= 3 * c
    ensures 100 * ((e * e) * (9 * c - e)) <= 48 * (c * c * (c - e))
  {
    MulLe(20 * e, 3 * c, e);
    MulLe(9 * c - e, 9 * c, e * e);
    MulLe(20 * (e * e), 3 * c * e, c);
    MulLe(20 * e, 3 * c, c * c);
    assert 20 * ((e * e) * (9 * c - e)) <= 27 * (c * e * c);
    assert c * c * (c - e) == c * c * c - c * c * e;
  }

  /** When a is within [0.85c, 1.25c] the mean inequality is nearly an equality. */
  lemma GapIsSmall(c: int, a: int)
    requires c >= 0 && 17 * c <= 20 * a && 4 * a <= 5 * c
    ensures 100 * Cube(2 * c + a) <= 2748 * (c * c * a)
  {
    MeanGap(c, a);
    if a >= c {
      GapWhenLarger(c, a - c);
      assert (c - a) * (c - a) == (a - c) * (a - c);
    } else {
      GapWhenSmaller(c, c - a);
    }
  }

  lemma QuotientNotLarge(a: int, x: int, q: int)
    requires x >= 4 && q >= 0 && q * (x * (x - 1)) <= a && 4 * a <= 5 * Cube(x)
    ensures q <= 3 * x
  {
    if q > 3 * x {
      MulLe(3 * x + 1, q, x * (x - 1));
      assert (3 * x + 1) * (x * (x - 1)) == 3 * Cube(x) - 2 * (x * x) - x;
      MulLe(4, x, x);
      MulLe(4, x, x * x);
    }
  }

  lemma SumTimesSquare(a: int, x: int, q: int)
    requires x >= 4 && 0 <= q <= 3 * x && q * (x * (x - 1)) <= a
    ensures (2 * x + q - 3) * (x * x) <= 2 * Cube(x) + a
  {
    assert q * (x * (x - 1)) == q * (x * x) - q * x;
    MulLe(q, 3 * x, x);
    assert (2 * x + q - 3) * (x * x) == 2 * Cube(x) + q * (x * x) - 3 * (x * x);
  }

  lemma SixthPower(x: int)
    requires x >= 4
    ensures Cube(x * x) == Cube(x) * Cube(x) > 0
  {
    MulLe(4, x, x);
    MulLe(4, x, x * x);
    MulLe(4, Cube(x), Cube(x));
    CubeOfProduct(x, x);
  }

  lemma CancelSixthPower(u: int, a: int, k: int, c: int)
    requires k == c * c > 0 && 100 * (u * k) <= 2748 * (c * c * a)
    ensures 100 * u <= 2748 * a
  {
    assert c * c * a == a * k;
    CancelLe(100 * u, 2748 * a, k);
  }

  /** From a near start the step overshoots three times the root by little. */
  lemma StepFromAbove(a: int, x: int, q: int)
    requires x >= 4 && q >= 0 && q * (x * (x - 1)) <= a
    requires 17 * Cube(x) <= 20 * a && 4 * a <= 5 * Cube(x)
    ensures 100 * Cube(2 * x + q - 3) <= 2748 * a
  {
    var w, c := 2 * x + q - 3, Cube(x);
    QuotientNotLarge(a, x, q);
    SumTimesSquare(a, x, q);
    SixthPower(x);
    MulNonNeg(w, x * x);
    CubeLe(w * (x * x), 2 * c + a);
    GapIsSmall(c, a);
    CubeOfProduct(w, x * x);
    CancelSixthPower(Cube(w), a, c * c, c);
  }
}
