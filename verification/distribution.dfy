/**
 The exact distribution of the run count, whose terms the p-value sums,
 set against the closed-form mean the test reports: with both signs
 present, sum_i i * p_i over i = 0 .. N is exactly 1 + 2 NA NB / N.
 */
module Distribution {
  import opened Binomial
  import opened Moments
  import opened PValue

  /** Sum of i * RunWeight(a, b, i) for i = 0 .. r: the numerator of the
      distribution's mean. */
  function MomentSum(a: int, b: int, r: int): int
    decreases r
  {
    if r < 0 then 0 else MomentSum(a, b, r - 1) + r * RunWeight(a, b, r)
  }

  /** k * p for a count k >= 0, as the k-fold sum p + ... + p. */
  function Multiple(k: int, p: real): real
    decreases k
  {
    if k <= 0 then 0.0 else Multiple(k - 1, p) + p
  }

  /** The k-fold sum is the product k * p. */
  lemma {:induction false} MultipleIsProduct(k: int, p: real)
    requires k >= 0
    ensures Multiple(k, p) == (k as real) * p
  {
    if k > 0 {
      MultipleIsProduct(k - 1, p);
      assert (k as real) * p == ((k - 1) as real) * p + p;
    }
  }

  /** k copies of w / d add up to (k * w) / d. */
  lemma {:induction false} MultipleOfRatio(k: int, w: int, d: real)
    requires k >= 0 && d != 0.0
    ensures Multiple(k, w as real / d) == (k * w) as real / d
  {
    if k > 0 {
      MultipleOfRatio(k - 1, w, d);
      AddRatios((k - 1) * w, w, d);
      assert (k - 1) * w + w == k * w;
    }
  }

  lemma AddRatios(x: int, y: int, d: real)
    requires d != 0.0
    ensures x as real / d + y as real / d == (x + y) as real / d
  {
  }

  /** Mean of the run count over the terms i = 0 .. r: sum of i * p_i, each
      i * p_i written as the i-fold sum Multiple(i, p_i), which
      MultipleIsProduct identifies with the product (i as real) * p_i. */
  function MeanOfTerms(n: int, npos: int, r: int): real
    requires 0 <= npos <= n
    decreases r
  {
    if r < 0 then 0.0 else MeanOfTerms(n, npos, r - 1) + Multiple(r, Term(n, npos, r))
  }

  /** The arithmetic of one pair of counts 2t - 1 and 2t: the odd weight wo
      and the even weight we = 2e, whose sum is x1 y1 + x2 y2 by Pascal's
      rule, contribute their run counts times the weights. */
  lemma MomentPairAlgebra(t: int, wo: int, we: int, x1: int, y1: int, x2: int, y2: int, e: int)
    requires wo + we == x1 * y1 + x2 * y2 && we == 2 * e
    ensures (2 * t - 1) * wo + 2 * t * we
         == 2 * ((t - 1) * x1 * y1) + 2 * ((t - 1) * x2 * y2) + x1 * y1 + x2 * y2 + 2 * e
  {
    calc {
      (2 * t - 1) * wo + 2 * t * we;
      (2 * t - 1) * (wo + we) + we;
      (2 * t - 1) * (x1 * y1 + x2 * y2) + 2 * e;
      2 * ((t - 1) * x1 * y1) + 2 * ((t - 1) * x2 * y2) + x1 * y1 + x2 * y2 + 2 * e;
    }
  }

  lemma Twice(x: int, y: int)
    ensures 2 * x * y == 2 * (x * y)
  {
  }

  /** The counts 2t - 1 and 2t together add to the moment sum the terms
      that the weighted and plain cross sums gain at index t - 1. */
  lemma MomentPairIncrement(a: int, b: int, t: int)
    requires a >= 1 && b >= 1 && t >= 1
    ensures MomentSum(a, b, 2 * t) == MomentSum(a, b, 2 * t - 2)
      + 2 * ((t - 1) * Comb(a, t - 1) * Comb(b - 1, t - 1))
      + 2 * ((t - 1) * Comb(a - 1, t - 1) * Comb(b, t - 1))
      + Comb(a, t - 1) * Comb(b - 1, t - 1) + Comb(a - 1, t - 1) * Comb(b, t - 1)
      + 2 * (Comb(a - 1, t - 1) * Comb(b - 1, t - 1))
  {
    var wo, we := RunWeight(a, b, 2 * t - 1), RunWeight(a, b, 2 * t);
    var x1, y1 := Comb(a, t - 1), Comb(b - 1, t - 1);
    var x2, y2 := Comb(a - 1, t - 1), Comb(b, t - 1);
    PairWeight(a, b, t);
    EvenWeight(a, b, t);
    Twice(x2, y1);
    MomentPairAlgebra(t, wo, we, x1, y1, x2, y2, x2 * y1);
    assert MomentSum(a, b, 2 * t) == MomentSum(a, b, 2 * t - 1) + 2 * t * we;
    assert MomentSum(a, b, 2 * t - 1) == MomentSum(a, b, 2 * t - 2) + (2 * t - 1) * wo;
  }

  /** Moment sum through the even index 2t as cross sums of binomials. */
  predicate PairsIdentity(a: int, b: int, t: int)
  {
    MomentSum(a, b, 2 * t)
      == 2 * WeightedCrossSum(a, b - 1, t) + 2 * WeightedCrossSum(a - 1, b, t)
       + CrossSum(a, b - 1, t) + CrossSum(a - 1, b, t) + 2 * CrossSum(a - 1, b - 1, t)
  }

  /** The cross sums gain one term per step. */
  lemma CrossSumsStep(x: int, y: int, t: int)
    requires t >= 1
    ensures CrossSum(x, y, t) == CrossSum(x, y, t - 1) + Comb(x, t - 1) * Comb(y, t - 1)
    ensures WeightedCrossSum(x, y, t) == WeightedCrossSum(x, y, t - 1) + (t - 1) * Comb(x, t - 1) * Comb(y, t - 1)
  {
  }

  lemma PairsAlgebra(m: int, m0: int, p: int, q: int, u: int, v: int, w: int,
                     p0: int, q0: int, u0: int, v0: int, w0: int,
                     p1: int, q1: int, u1: int, v1: int, w1: int)
    requires m == m0 + 2 * p + 2 * q + u + v + 2 * w
    requires m0 == 2 * p0 + 2 * q0 + u0 + v0 + 2 * w0
    requires p1 == p0 + p && q1 == q0 + q && u1 == u0 + u && v1 == v0 + v && w1 == w0 + w
    ensures m == 2 * p1 + 2 * q1 + u1 + v1 + 2 * w1
  {
  }

  /** The identity carries over from 2t - 2 to 2t. */
  lemma PairsStep(a: int, b: int, t: int)
    requires a >= 1 && b >= 1 && t >= 1
    requires PairsIdentity(a, b, t - 1)
    ensures PairsIdentity(a, b, t)
  {
    MomentPairIncrement(a, b, t);
    CrossSumsStep(a, b - 1, t);
    CrossSumsStep(a - 1, b, t);
    CrossSumsStep(a - 1, b - 1, t);
    PairsAlgebra(MomentSum(a, b, 2 * t), MomentSum(a, b, 2 * t - 2),
      (t - 1) * Comb(a, t - 1) * Comb(b - 1, t - 1), (t - 1) * Comb(a - 1, t - 1) * Comb(b, t - 1),
      Comb(a, t - 1) * Comb(b - 1, t - 1), Comb(a - 1, t - 1) * Comb(b, t - 1), Comb(a - 1, t - 1) * Comb(b - 1, t - 1),
      WeightedCrossSum(a, b - 1, t - 1), WeightedCrossSum(a - 1, b, t - 1),
      CrossSum(a, b - 1, t - 1), CrossSum(a - 1, b, t - 1), CrossSum(a - 1, b - 1, t - 1),
      WeightedCrossSum(a, b - 1, t), WeightedCrossSum(a - 1, b, t),
      CrossSum(a, b - 1, t), CrossSum(a - 1, b, t), CrossSum(a - 1, b - 1, t));
  }

  /** Summing i * weight pair by pair up to an even index, in terms of
      plain and weighted cross sums of binomials. */
  lemma {:induction false} MomentSumPairs(a: int, b: int, t: int)
    requires a >= 1 && b >= 1 && t >= 0
    ensures PairsIdentity(a, b, t)
  {
    var k := 0;
    while k < t
      invariant 0 <= k <= t
      invariant PairsIdentity(a, b, k)
    {
      k := k + 1;
      PairsStep(a, b, k);
    }
  }

  /** The step past a + b adds nothing to the moment sum. */
  lemma MomentZeroBeyond(a: int, b: int, r: int)
    requires a >= 0 && b >= 0 && r > a + b
    ensures MomentSum(a, b, r) == MomentSum(a, b, r - 1)
  {
    WeightVanishesBeyond(a, b, r);
  }

  /** Past index a + b the moment sums no longer change. */
  lemma {:induction false} MomentSumSettles(a: int, b: int, r: int)
    requires a >= 0 && b >= 0 && r >= a + b
    ensures MomentSum(a, b, r) == MomentSum(a, b, a + b)
  {
    var k := r;
    while k > a + b
      invariant a + b <= k <= r
      invariant MomentSum(a, b, r) == MomentSum(a, b, k)
    {
      MomentZeroBeyond(a, b, k);
      k := k - 1;
    }
  }

  lemma MomentTotalAlgebra(a: int, c22: int, c21: int, c11: int, c10: int, cn: int)
    requires c11 == c22 + c21 && cn == c11 + c10
    ensures 2 * (a * c22) + 2 * ((a - 1) * c21) + c11 + c10 + 2 * c21 == cn + 2 * a * c11
  {
    calc {
      2 * (a * c22) + 2 * ((a - 1) * c21) + c11 + c10 + 2 * c21;
      2 * a * (c22 + c21) + c11 + c10;
      cn + 2 * a * c11;
    }
  }

  /** The cross sums of the moment sum through N, in closed form. */
  lemma CrossSumsInBinomials(a: int, b: int)
    requires a >= 1 && b >= 1
    ensures 2 * WeightedCrossSum(a, b - 1, a + b) + 2 * WeightedCrossSum(a - 1, b, a + b)
          + CrossSum(a, b - 1, a + b) + CrossSum(a - 1, b, a + b) + 2 * CrossSum(a - 1, b - 1, a + b)
         == 2 * (a * Comb(a + b - 2, b - 2)) + 2 * ((a - 1) * Comb(a + b - 2, b - 1))
          + Comb(a + b - 1, b - 1) + Comb(a + b - 1, b) + 2 * Comb(a + b - 2, b - 1)
  {
    var n := a + b;
    WeightedCrossSumClosedForm(a, b - 1, n);
    WeightedCrossSumClosedForm(a - 1, b, n);
    CrossSumClosedForm(a, b - 1, n);
    CrossSumClosedForm(a - 1, b, n);
    CrossSumClosedForm(a - 1, b - 1, n);
  }

  /** The moment sum through N in terms of binomials over N - 1 and N - 2. */
  lemma MomentSumInBinomials(a: int, b: int)
    requires a >= 1 && b >= 1
    ensures MomentSum(a, b, a + b)
         == 2 * (a * Comb(a + b - 2, b - 2)) + 2 * ((a - 1) * Comb(a + b - 2, b - 1))
          + Comb(a + b - 1, b - 1) + Comb(a + b - 1, b) + 2 * Comb(a + b - 2, b - 1)
  {
    MomentSumSettles(a, b, 2 * (a + b));
    MomentSumPairs(a, b, a + b);
    CrossSumsInBinomials(a, b);
  }

  /** The numerator of the mean in closed form: with both signs present,
      sum_i i * weight(i) == C(N, NA) + 2 NA C(N - 1, NB - 1). */
  lemma MomentTotal(a: int, b: int)
    requires a >= 1 && b >= 1
    ensures MomentSum(a, b, a + b) == Comb(a + b, a) + 2 * a * Comb(a + b - 1, b - 1)
  {
    var n := a + b;
    MomentSumInBinomials(a, b);
    Pascal(n - 1, b - 1);
    Pascal(n, b);
    Symmetry(n, b);
    MomentTotalAlgebra(a, Comb(n - 2, b - 2), Comb(n - 2, b - 1), Comb(n - 1, b - 1), Comb(n - 1, b), Comb(n, a));
  }

  /** Adding the k-th term to the mean adds k times the k-th weight to the
      numerator. */
  lemma MeanRatioStep(n: int, npos: int, k: int)
    requires 0 <= npos <= n && k >= 0
    requires MeanOfTerms(n, npos, k - 1) == MomentSum(npos, n - npos, k - 1) as real / Comb(n, npos) as real
    ensures MeanOfTerms(n, npos, k) == MomentSum(npos, n - npos, k) as real / Comb(n, npos) as real
  {
    var d := Comb(n, npos) as real;
    assert Term(n, npos, k) == RunWeight(npos, n - npos, k) as real / d;
    MultipleOfRatio(k, RunWeight(npos, n - npos, k), d);
    AddRatios(MomentSum(npos, n - npos, k - 1), k * RunWeight(npos, n - npos, k), d);
  }

  /** The mean over the terms is the moment sum over C(N, NA). */
  lemma {:induction false} MeanOfTermsIsRatio(n: int, npos: int, r: int)
    requires 0 <= npos <= n
    ensures MeanOfTerms(n, npos, r) == MomentSum(npos, n - npos, r) as real / Comb(n, npos) as real
    decreases r
  {
    if r >= 0 {
      MeanOfTermsIsRatio(n, npos, r - 1);
      MeanRatioStep(n, npos, r);
    }
  }

  /** Two fractions with positive denominators are equal when their cross
      products are. */
  lemma CrossMultiply(x: int, c: int, y: int, m: int)
    requires c > 0 && m > 0 && x * m == y * c
    ensures x as real / c as real == y as real / m as real
  {
    var u, v := x as real / c as real, y as real / m as real;
    assert u * (c as real) == x as real;
    assert v * (m as real) == y as real;
    assert (u * (c as real)) * (m as real) == (v * (m as real)) * (c as real);
    assert (u - v) * ((c as real) * (m as real)) == 0.0;
  }

  lemma SplitRatio(c: int, x: int)
    requires c > 0
    ensures (c + x) as real / c as real == 1.0 + x as real / c as real
  {
    var cr, xr := c as real, x as real;
    assert (c + x) as real == cr + xr;
    assert (cr + xr) / cr == cr / cr + xr / cr;
    assert cr / cr == 1.0;
  }

  lemma MeanCrossProducts(a: int, b: int, n: int, c: int, k: int)
    requires b * c == n * k
    ensures (2 * a * k) * n == (2 * a * b) * c
  {
    calc {
      (2 * a * k) * n;
      2 * a * (n * k);
      2 * a * (b * c);
      (2 * a * b) * c;
    }
  }

  /** The closed-form mean of the test is the mean of the exact
      distribution: with 1 <= NA <= N - 1, sum_{i=0}^{N} i * p_i equals
      1 + 2 NA NB / N. Each i * p_i enters MeanOfTerms as Multiple(i, p_i),
      equal to (i as real) * p_i by MultipleIsProduct. */
  lemma MeanMatchesExpectedRuns(n: int, npos: int)
    requires 1 <= npos <= n - 1
    ensures MeanOfTerms(n, npos, n) == ExpectedRuns(n, npos)
  {
    var a, b := npos, n - npos;
    MeanOfTermsIsRatio(n, npos, n);
    MomentTotal(a, b);
    Absorption(n, b);
    Symmetry(n, b);
    var c, k := Comb(n, a), Comb(n - 1, b - 1);
    assert b * c == n * k;
    MeanCrossProducts(a, b, n, c, k);
    SplitRatio(c, 2 * a * k);
    CrossMultiply(2 * a * k, c, 2 * a * b, n);
  }

  /** The worked example (N, NA) = (5, 3): the moment sum is
      2 * 2 + 3 * 3 + 4 * 4 + 5 * 1 = 34 over C(5, 3) = 10, so the mean of
      the distribution is 34 / 10 = 17 / 5, the closed form's value. */
  lemma ExampleMean()
    ensures MomentSum(3, 2, 5) == 34
    ensures MeanOfTerms(5, 3, 5) == 17.0 / 5.0
  {
    MomentTotal(3, 2);
    MeanMatchesExpectedRuns(5, 3);
    ExampleMoments();
  }
}
