/**
 Closed-form mean and variance of the number of runs when NA positive and
 NB non-positive residuals are ordered at random. The divisions are exact
 rational divisions; the standard deviation (a square root) is not modelled,
 only the fact that its argument is never negative.
 */
module Moments {

  /** Mean run count 1 + 2 * NA * NB / N, with NB = N - NA. */
  function ExpectedRuns(n: int, npos: int): (e: real)
    requires n >= 1
    ensures 0 <= npos <= n ==> 1.0 <= e <= 1.0 + (n as real) / 2.0
  {
    var nneg := n - npos;
    MeanBounds(n, npos);
    1.0 + (2 * npos * nneg) as real / n as real
  }

  /** 0 <= 2 NA NB / N <= N / 2 whenever 0 <= NA <= N. */
  lemma MeanBounds(n: int, npos: int)
    requires n >= 1
    ensures 0 <= npos <= n ==>
      0.0 <= (2 * npos * (n - npos)) as real / n as real <= (n as real) / 2.0
  {
    if 0 <= npos <= n {
      ProductBound(npos, n - npos);
      RatioBounds((2 * npos * (n - npos)) as real, n as real, (n as real) / 2.0);
    }
  }

  /** Variance of the run count 2 NA NB (2 NA NB - N) / (N^2 (N - 1)). */
  function RunsVariance(n: int, npos: int): (v: real)
    requires n >= 2
    ensures 0 <= npos <= n ==> v >= 0.0
  {
    var nneg := n - npos;
    VarianceSigns(n, npos);
    (2 * npos * nneg * (2 * npos * nneg - n)) as real / (n * n * (n - 1)) as real
  }

  /** The variance's denominator is positive and, for 0 <= NA <= N, so is
      its quotient. */
  lemma VarianceSigns(n: int, npos: int)
    requires n >= 2
    ensures 0 <= npos <= n ==>
      (2 * npos * (n - npos) * (2 * npos * (n - npos) - n)) as real / (n * n * (n - 1)) as real >= 0.0
  {
    var nneg := n - npos;
    var num := 2 * npos * nneg * (2 * npos * nneg - n);
    var den := n * n * (n - 1);
    assert den > 0 by { assert n * n > 0; }
    if 0 <= npos <= n {
      VarianceNumeratorSign(npos, nneg);
      assert npos + nneg == n;
      assert num >= 0;
      RatioBounds(num as real, den as real, num as real / den as real + 1.0);
    }
  }

  /** 4ab <= (a + b)^2: the mean never exceeds 1 + N / 2. */
  lemma ProductBound(a: int, b: int)
    requires 0 <= a && 0 <= b
    ensures 0 <= 2 * a * b
    ensures ((2 * a * b) as real) <= ((a + b) as real / 2.0) * ((a + b) as real)
  {
    assert (a + b) * (a + b) == 4 * a * b + (a - b) * (a - b);
    assert (a - b) * (a - b) >= 0;
    assert 4 * (2 * a * b) <= 2 * ((a + b) * (a + b));
    assert ((a + b) as real / 2.0) * ((a + b) as real) == ((a + b) * (a + b)) as real / 2.0;
  }

  /** Bounds on a quotient by a positive divisor, stated by multiplying out. */
  lemma RatioBounds(x: real, d: real, y: real)
    requires d > 0.0 && 0.0 <= x <= y * d
    ensures 0.0 <= x / d <= y
  {
    var q := x / d;
    assert q * d == x;
    if q > y {
      assert q * d > y * d;
    }
  }

  /** 2ab (2ab - (a + b)) >= 0 for non-negative a and b: either one count
      is zero, or both are at least one and then 2ab >= a + b. */
  lemma VarianceNumeratorSign(a: int, b: int)
    ensures 0 <= a && 0 <= b ==> 2 * a * b * (2 * a * b - (a + b)) >= 0
    ensures 1 <= a && 1 <= b ==> 2 * a * b >= a + b
  {
    var x := 2 * a * b;
    if 1 <= a && 1 <= b {
      ProductAtLeast(a, b);
      ProductAtLeast(b, a);
      assert x == 2 * (a * b) && a * b == b * a;
      ProductNonNegative(x, x - (a + b));
    } else if 0 <= a && 0 <= b {
      assert a * b == 0;
      assert x == 0;
    }
  }

  lemma ProductNonNegative(x: int, y: int)
    requires 0 <= x && 0 <= y
    ensures x * y >= 0
  {
  }

  lemma ProductAtLeast(x: int, y: int)
    requires 0 <= x && 1 <= y
    ensures x * y >= x
  {
    ProductNonNegative(x, y - 1);
    assert x * y == x * (y - 1) + x;
  }

  /** Exchanging the roles of positives and non-positives leaves the mean unchanged. */
  lemma ExpectedRunsSymmetric(n: int, npos: int)
    requires n >= 1
    ensures ExpectedRuns(n, npos) == ExpectedRuns(n, n - npos)
  {
    assert npos * (n - npos) == (n - npos) * (n - (n - npos));
  }

  /** Exchanging the roles of positives and non-positives leaves the variance unchanged. */
  lemma RunsVarianceSymmetric(n: int, npos: int)
    requires n >= 2
    ensures RunsVariance(n, npos) == RunsVariance(n, n - npos)
  {
    assert npos * (n - npos) == (n - npos) * (n - (n - npos));
  }

  /** The variance vanishes exactly when one sign is absent or when the
      sequence is one positive and one non-positive residual. */
  lemma RunsVarianceZeroIff(n: int, npos: int)
    requires n >= 2 && 0 <= npos <= n
    ensures RunsVariance(n, npos) == 0.0 <==> npos == 0 || npos == n || (n == 2 && npos == 1)
  {
    var a, b := npos, n - npos;
    var num := 2 * a * b * (2 * a * b - n);
    var den := n * n * (n - 1);
    VarianceDenominatorPositive(n);
    VarianceNumeratorZeroIff(a, b, n);
    QuotientZeroIff(num as real, den as real);
    assert RunsVariance(n, npos) == num as real / den as real;
  }

  lemma VarianceDenominatorPositive(n: int)
    requires n >= 2
    ensures n * n * (n - 1) > 0
  {
    assert n * n > 0;
  }

  lemma QuotientZeroIff(x: real, d: real)
    requires d > 0.0
    ensures x / d == 0.0 <==> x == 0.0
  {
    assert (x / d) * d == x;
  }

  /** The numerator 2ab (2ab - (a + b)) vanishes only at the three cases. */
  lemma VarianceNumeratorZeroIff(a: int, b: int, n: int)
    requires a >= 0 && b >= 0 && n == a + b
    ensures 2 * a * b * (2 * a * b - n) == 0 <==> a == 0 || b == 0 || (a == 1 && b == 1)
  {
    var x := 2 * a * b;
    ProductZeroIff(2 * a, b);
    ProductZeroIff(x, x - n);
    if 1 <= a && 1 <= b {
      assert x - n == a * (b - 1) + b * (a - 1);
      ProductZeroIff(a, b - 1);
      ProductZeroIff(b, a - 1);
      assert a * (b - 1) >= 0 && b * (a - 1) >= 0;
    }
  }

  lemma ProductZeroIff(x: int, y: int)
    ensures x * y == 0 <==> x == 0 || y == 0
  {
  }

  /** The worked examples: (N, NA) = (5, 3) and the smallest case (2, 1). */
  lemma ExampleMoments()
    ensures ExpectedRuns(5, 3) == 17.0 / 5.0
    ensures RunsVariance(5, 3) == 84.0 / 100.0
    ensures ExpectedRuns(2, 1) == 2.0
    ensures RunsVariance(2, 1) == 0.0
  {
  }
}
