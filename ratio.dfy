/** Facts about the exact ratio `a / b` of two counts, as the statistics
    compute it. */
module Ratio {

  /** A count out of a positive total lies in [0, 1]; it is 0 exactly for a
      zero count, 1 exactly for the whole total. */
  lemma UnitRatio(a: int, b: int)
    requires 0 <= a <= b
    requires 0 < b
    ensures 0.0 <= a as real / b as real <= 1.0
    ensures a as real / b as real == 0.0 <==> a == 0
    ensures a as real / b as real == 1.0 <==> a == b
    ensures 0 < a ==> 0.0 < a as real / b as real
  {
    var q := a as real / b as real;
    assert q * b as real == a as real;
  }

  /** Dividing by the same positive total keeps the order of two counts. */
  lemma RatioMonotone(a: int, c: int, b: int)
    requires a <= c
    requires 0 < b
    ensures a as real / b as real <= c as real / b as real
  {
    var p, q := a as real / b as real, c as real / b as real;
    assert p * b as real == a as real;
    assert q * b as real == c as real;
  }

  /** A non-negative count over a positive total is non-negative, and 0
      exactly for a zero count. */
  lemma NonNegativeRatio(a: int, b: int)
    requires 0 <= a
    requires 0 < b
    ensures 0.0 <= a as real / b as real
    ensures a as real / b as real == 0.0 <==> a == 0
  {
    var q := a as real / b as real;
    assert q * b as real == a as real;
  }

  /** A positive count over a positive total is positive. */
  lemma PositiveRatio(a: int, b: int)
    requires 0 < a && 0 < b
    ensures 0.0 < a as real / b as real
  {
    var q := a as real / b as real;
    assert q * b as real == a as real;
  }

  /** The sign of `a / b`: at most 0 exactly when `a` is 0 or the two have
      opposite signs. */
  lemma RatioSign(a: int, b: int)
    requires b != 0
    ensures a as real / b as real <= 0.0 <==> a == 0 || (a < 0 <==> 0 < b)
  {
    var q := a as real / b as real;
    assert q * b as real == a as real;
  }

  /** Dividing by a positive number keeps the sign. */
  lemma QuotientSign(p: real, q: real)
    requires 0.0 < q
    ensures p / q <= 0.0 <==> p <= 0.0
  {
    assert (p / q) * q == p;
  }

  /** Comparing two ratios by cross-multiplying. */
  lemma RatioCompare(a: int, b: int, c: int, d: int)
    requires 0 < b && 0 < d
    requires a * d <= c * b
    ensures a as real / b as real <= c as real / d as real
  {
    var p, q := a as real / b as real, c as real / d as real;
    assert p * b as real == a as real;
    assert q * d as real == c as real;
    assert (a * d) as real == a as real * d as real;
    assert (c * b) as real == c as real * b as real;
    assert p * (b as real * d as real) <= q * (b as real * d as real);
  }

  /** A ratio whose numerator times `k` reaches the denominator, times `k`,
      is at least 1. */
  lemma RatioTimesAtLeastOne(a: int, b: int, k: int)
    requires 0 < b
    requires b <= a * k
    ensures (a as real / b as real) * k as real >= 1.0
  {
    var q := a as real / b as real;
    assert q * b as real == a as real;
    assert (a * k) as real == a as real * k as real;
    assert q * k as real * b as real == a as real * k as real;
  }

  // ---------------------------------------------------------------------------
  // Integer products

  lemma {:induction false} MulMonotone(a: int, b: int, k: nat)
    requires a <= b
    ensures a * k <= b * k
  {
    if k > 0 {
      MulMonotone(a, b, k - 1);
      assert a * k == a * (k - 1) + a;
      assert b * k == b * (k - 1) + b;
    }
  }

  lemma MulSucc(c: int, d: int)
    ensures c * d + d == (c + 1) * d
    ensures d * c + d == d * (c + 1)
  {
  }

  lemma ProductPositive(a: int, b: int)
    requires a > 0 && b > 0
    ensures a * b > 0
  {
    MulMonotone(1, a, b);
  }
}
