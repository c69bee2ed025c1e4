/**
 The exact cumulative p-value of the run test: the probability, when NA
 positive and NB non-positive residuals are ordered at random, of observing
 at most r runs. Each term is a ratio of exact binomial products to
 C(N, NA); terms and sums are exact rationals.
 */
module PValue {
  import opened Binomial

  /** Numerator of the i-th term: with s = i / 2, an even count is
      2 C(NA-1, s-1) C(NB-1, s-1); with s = (i + 1) / 2, an odd count is
      C(NA-1, s-2) C(NB-1, s-1) + C(NA-1, s-1) C(NB-1, s-2). */
  function RunWeight(a: int, b: int, i: nat): (w: nat)
  {
    if i % 2 == 0 then
      var s := i / 2;
      2 * Comb(a - 1, s - 1) * Comb(b - 1, s - 1)
    else
      var s := (i + 1) / 2;
      Comb(a - 1, s - 2) * Comb(b - 1, s - 1) + Comb(a - 1, s - 1) * Comb(b - 1, s - 2)
  }

  /** The i-th term of the sum: RunWeight over the denominator C(N, NA). */
  function Term(n: int, npos: int, i: nat): (p: real)
    requires 0 <= npos <= n
    ensures p >= 0.0
  {
    RunWeight(npos, n - npos, i) as real / Comb(n, npos) as real
  }

  /** Cumulative p-value: the terms for i = 0 .. r (none when r < 0). */
  function CumulativeProbability(n: int, npos: int, r: int): (psum: real)
    requires 0 <= npos <= n
    ensures psum >= 0.0
    decreases r
  {
    if r < 0 then 0.0 else CumulativeProbability(n, npos, r - 1) + Term(n, npos, r)
  }

  /** Sum of the numerators for i = 0 .. r. */
  function WeightSum(a: int, b: int, r: int): int
    decreases r
  {
    if r < 0 then 0 else WeightSum(a, b, r - 1) + RunWeight(a, b, r)
  }

  /** The summation loop of the source: for i = 0 .. r, the i-th term is
      computed from exact binomials and added to psum. */
  method ExactPValue(n: int, npos: int, r: int) returns (psum: real)
    requires 0 <= npos <= n
    ensures psum == CumulativeProbability(n, npos, r)
  {
    psum := 0.0;
    var denom := Comb(n, npos);
    var i := 0;
    while i <= r
      invariant 0 <= i <= if r >= 0 then r + 1 else 0
      invariant psum == CumulativeProbability(n, npos, i - 1)
    {
      var p := ComputeTerm(n, npos, denom, i);
      psum := psum + p;
      i := i + 1;
    }
    assert i - 1 == r || (r < 0 && i == 0);
  }

  /** One pass of the loop body: the even formula with s = i / 2 or the odd
      formula with s = (i + 1) / 2, divided by the denominator. */
  method ComputeTerm(n: int, npos: int, denom: nat, i: nat) returns (p: real)
    requires 0 <= npos <= n && denom == Comb(n, npos)
    ensures p == Term(n, npos, i)
  {
    var nneg := n - npos;
    var w: nat;
    if i % 2 == 0 {
      var s := i / 2;
      w := 2 * Comb(npos - 1, s - 1) * Comb(nneg - 1, s - 1);
      assert i == 2 * s;
      EvenWeight(npos, nneg, s);
    } else {
      var s := (i + 1) / 2;
      w := Comb(npos - 1, s - 2) * Comb(nneg - 1, s - 1) + Comb(npos - 1, s - 1) * Comb(nneg - 1, s - 2);
      assert i == 2 * s - 1;
      OddWeight(npos, nneg, s);
    }
    assert w == RunWeight(npos, nneg, i);
    p := w as real / denom as real;
  }

  /** No arrangement has zero runs, and none with both signs present has
      one: the first two terms vanish. */
  lemma FirstTermsVanish(a: int, b: int)
    ensures RunWeight(a, b, 0) == 0
    ensures RunWeight(a, b, 1) == 0
  {
  }

  /** The weights are symmetric in the two sign counts. */
  lemma RunWeightSymmetric(a: int, b: int, i: nat)
    ensures RunWeight(a, b, i) == RunWeight(b, a, i)
  {
  }

  /** With only one sign present every weight vanishes (C(-1, k) == 0). */
  lemma OneSidedWeightsVanish(a: int, b: int, i: nat)
    requires a == 0 || b == 0
    ensures RunWeight(a, b, i) == 0
  {
  }

  /** No arrangement has more runs than residuals, nor more than
      2 min(a, b) + 1 runs. */
  lemma WeightVanishesBeyond(a: int, b: int, i: nat)
    requires a >= 0 && b >= 0
    ensures i > a + b ==> RunWeight(a, b, i) == 0
    ensures i > 2 * a + 1 || i > 2 * b + 1 ==> RunWeight(a, b, i) == 0
  {
    if i % 2 == 0 {
      EvenWeight(a, b, i / 2);
    } else {
      OddWeight(a, b, (i + 1) / 2);
    }
  }

  /** The sum step past a + b adds nothing. */
  lemma WeightZeroBeyond(a: int, b: int, r: int)
    requires a >= 0 && b >= 0 && r > a + b
    ensures WeightSum(a, b, r) == WeightSum(a, b, r - 1)
  {
    WeightVanishesBeyond(a, b, r);
  }

  lemma OddWeight(a: int, b: int, t: int)
    requires t >= 1
    ensures RunWeight(a, b, 2 * t - 1)
         == Comb(a - 1, t - 2) * Comb(b - 1, t - 1) + Comb(a - 1, t - 1) * Comb(b - 1, t - 2)
  {
    assert (2 * t - 1) % 2 == 1 && (2 * t - 1 + 1) / 2 == t;
  }

  lemma EvenWeight(a: int, b: int, t: int)
    requires t >= 0
    ensures RunWeight(a, b, 2 * t) == 2 * Comb(a - 1, t - 1) * Comb(b - 1, t - 1)
  {
    assert (2 * t) % 2 == 0 && (2 * t) / 2 == t;
  }

  lemma PairAlgebra(a1: int, a2: int, b1: int, b2: int)
    ensures (a2 * b1 + a1 * b2) + 2 * a1 * b1 == (a1 + a2) * b1 + a1 * (b1 + b2)
  {
  }

  lemma ProductPositiveIff(x: nat, y: nat)
    ensures x * y > 0 <==> x > 0 && y > 0
  {
  }

  /** An even count 2s has arrangements exactly when each sign can supply s runs. */
  lemma EvenWeightPositiveIff(a: int, b: int, s: int)
    requires s >= 0
    ensures RunWeight(a, b, 2 * s) > 0 <==> 1 <= s <= a && s <= b
  {
    EvenWeight(a, b, s);
    ProductPositiveIff(Comb(a - 1, s - 1), Comb(b - 1, s - 1));
    ProductPositiveIff(2, Comb(a - 1, s - 1));
    ProductPositiveIff(2 * Comb(a - 1, s - 1), Comb(b - 1, s - 1));
  }

  /** An odd count 2s - 1 has arrangements exactly when one sign can supply
      s runs and the other s - 1. */
  lemma OddWeightPositiveIff(a: int, b: int, s: int)
    requires s >= 1
    ensures RunWeight(a, b, 2 * s - 1) > 0 <==>
      2 <= s && ((s <= a + 1 && s <= b) || (s <= a && s <= b + 1))
  {
    OddWeight(a, b, s);
    ProductPositiveIff(Comb(a - 1, s - 2), Comb(b - 1, s - 1));
    ProductPositiveIff(Comb(a - 1, s - 1), Comb(b - 1, s - 2));
  }

  /** The support of the run-count distribution: a weight is positive
      exactly when 2 <= i <= a + b and neither sign would need more than
      its count of runs, i <= 2a + 1 and i <= 2b + 1. */
  lemma RunWeightPositiveIff(a: int, b: int, i: nat)
    requires a >= 0 && b >= 0
    ensures RunWeight(a, b, i) > 0 <==> 2 <= i <= a + b && i <= 2 * a + 1 && i <= 2 * b + 1
  {
    if i % 2 == 0 {
      var s := i / 2;
      assert i == 2 * s;
      EvenWeightPositiveIff(a, b, s);
    } else {
      var s := (i + 1) / 2;
      assert i == 2 * s - 1;
      OddWeightPositiveIff(a, b, s);
    }
  }

  /** A run count inside the support has a positive term. */
  lemma TermPositiveInSupport(n: int, npos: int, r: nat)
    requires 0 <= npos <= n
    requires 2 <= r <= n && r <= 2 * npos + 1 && r <= 2 * (n - npos) + 1
    ensures Term(n, npos, r) > 0.0
  {
    RunWeightPositiveIff(npos, n - npos, r);
    TermPositiveIff(n, npos, r);
  }

  /** A term is positive exactly when its weight is. */
  lemma TermPositiveIff(n: int, npos: int, i: nat)
    requires 0 <= npos <= n
    ensures Term(n, npos, i) > 0.0 <==> RunWeight(npos, n - npos, i) > 0
  {
    var w, d := RunWeight(npos, n - npos, i) as real, Comb(n, npos) as real;
    assert d > 0.0;
    assert (w / d) * d == w;
  }

  /** An odd and the following even weight together: Pascal's rule merges
      the four products into two. */
  lemma PairWeight(a: int, b: int, t: int)
    requires a >= 1 && b >= 1 && t >= 1
    ensures RunWeight(a, b, 2 * t - 1) + RunWeight(a, b, 2 * t)
         == Comb(a, t - 1) * Comb(b - 1, t - 1) + Comb(a - 1, t - 1) * Comb(b, t - 1)
  {
    OddWeight(a, b, t);
    EvenWeight(a, b, t);
    Pascal(a, t - 1);
    Pascal(b, t - 1);
    PairAlgebra(Comb(a - 1, t - 1), Comb(a - 1, t - 2), Comb(b - 1, t - 1), Comb(b - 1, t - 2));
  }

  /** Summing the weights pair by pair up to an even index. */
  lemma {:induction false} WeightSumPairs(a: int, b: int, t: int)
    requires a >= 1 && b >= 1 && t >= 0
    ensures WeightSum(a, b, 2 * t) == CrossSum(a, b - 1, t) + CrossSum(a - 1, b, t)
    decreases t
  {
    if t == 0 {
      FirstTermsVanish(a, b);
    } else {
      WeightSumPairs(a, b, t - 1);
      PairWeight(a, b, t);
      assert WeightSum(a, b, 2 * t) == WeightSum(a, b, 2 * (t - 1)) + RunWeight(a, b, 2 * t - 1) + RunWeight(a, b, 2 * t);
    }
  }

  /** Past index a + b the partial sums no longer change. */
  lemma {:induction false} WeightSumSettles(a: int, b: int, r: int)
    requires a >= 0 && b >= 0 && r >= a + b
    ensures WeightSum(a, b, r) == WeightSum(a, b, a + b)
  {
    var n := a + b;
    var k := r;
    while k > n
      invariant n <= k <= r
      invariant WeightSum(a, b, r) == WeightSum(a, b, k)
      decreases k
    {
      WeightZeroBeyond(a, b, k);
      k := k - 1;
    }
  }

  /** The weights for i = 0 .. N add up to C(N, NA) when both signs are
      present: they count all arrangements by their number of runs. */
  lemma WeightTotal(a: int, b: int)
    requires a >= 1 && b >= 1
    ensures WeightSum(a, b, a + b) == Comb(a + b, a)
  {
    var n := a + b;
    WeightSumSettles(a, b, 2 * n);
    WeightSumPairs(a, b, n);
    CrossSumClosedForm(a, b - 1, n);
    CrossSumClosedForm(b, a - 1, n);
    CrossSumSymmetric(a - 1, b, n);
    Symmetry(n - 1, b - 1);
    Pascal(n, a);
  }

  lemma {:induction false} CrossSumSymmetric(x: int, y: int, t: int)
    ensures CrossSum(x, y, t) == CrossSum(y, x, t)
    decreases t
  {
    if t > 0 {
      CrossSumSymmetric(x, y, t - 1);
    }
  }

  lemma RatioStep(p: real, x: int, y: int, d: real)
    requires d != 0.0 && p == x as real / d
    ensures p + y as real / d == (x + y) as real / d
  {
  }

  /** The cumulative p-value is the partial weight sum over C(N, NA). */
  lemma {:induction false} CumulativeIsRatio(n: int, npos: int, r: int)
    requires 0 <= npos <= n
    ensures CumulativeProbability(n, npos, r) == WeightSum(npos, n - npos, r) as real / Comb(n, npos) as real
    decreases r
  {
    if r >= 0 {
      CumulativeIsRatio(n, npos, r - 1);
      CumulativeRatioStep(n, npos, r);
    }
  }

  /** Adding the k-th term to the sum adds the k-th weight to the numerator. */
  lemma CumulativeRatioStep(n: int, npos: int, k: int)
    requires 0 <= npos <= n && k >= 0
    requires CumulativeProbability(n, npos, k - 1) == WeightSum(npos, n - npos, k - 1) as real / Comb(n, npos) as real
    ensures CumulativeProbability(n, npos, k) == WeightSum(npos, n - npos, k) as real / Comb(n, npos) as real
  {
    var d := Comb(n, npos) as real;
    var w := RunWeight(npos, n - npos, k);
    assert CumulativeProbability(n, npos, k) == CumulativeProbability(n, npos, k - 1) + w as real / d;
    assert WeightSum(npos, n - npos, k) == WeightSum(npos, n - npos, k - 1) + w;
    RatioStep(CumulativeProbability(n, npos, k - 1), WeightSum(npos, n - npos, k - 1), w, d);
  }

  /** Normalisation: with both signs present the terms for i = 0 .. N form
      a probability mass function, so the sum up to r = N is exactly 1. */
  lemma Normalization(n: int, npos: int)
    requires 1 <= npos <= n - 1
    ensures CumulativeProbability(n, npos, n) == 1.0
  {
    var a, b := npos, n - npos;
    CumulativeIsRatio(n, a, n);
    WeightTotal(a, b);
    assert a + b == n;
    UnitRatio(WeightSum(a, b, n), Comb(n, a));
  }

  lemma UnitRatio(x: int, d: int)
    requires x == d && d > 0
    ensures x as real / d as real == 1.0
  {
  }

  /** The p-value grows with the observed run count. */
  lemma {:induction false} CumulativeMonotone(n: int, npos: int, r: int, r': int)
    requires 0 <= npos <= n && r <= r'
    ensures CumulativeProbability(n, npos, r) <= CumulativeProbability(n, npos, r')
    decreases r' - r
  {
    if r < r' {
      CumulativeMonotone(n, npos, r, r' - 1);
    }
  }

  /** With both signs present the p-value is 1 once r reaches N. */
  lemma CumulativeSaturates(n: int, npos: int, r: int)
    requires 1 <= npos <= n - 1 && r >= n
    ensures CumulativeProbability(n, npos, r) == 1.0
  {
    CumulativeIsRatio(n, npos, r);
    WeightSumSettles(npos, n - npos, r);
    Normalization(n, npos);
    CumulativeIsRatio(n, npos, n);
  }

  /** With one sign absent every term vanishes, so the sum as written is 0
      for every r, not 1. */
  lemma {:induction false} OneSidedCumulativeIsZero(n: int, npos: int, r: int)
    requires npos == 0 || npos == n
    requires 0 <= npos <= n
    ensures CumulativeProbability(n, npos, r) == 0.0
    decreases r
  {
    if r >= 0 {
      OneSidedCumulativeIsZero(n, npos, r - 1);
      OneSidedWeightsVanish(npos, n - npos, r);
    }
  }

  /** The cumulative p-value is a probability for every N, NA and r. */
  lemma CumulativeIsProbability(n: int, npos: int, r: int)
    requires 0 <= npos <= n
    ensures 0.0 <= CumulativeProbability(n, npos, r) <= 1.0
  {
    if npos == 0 || npos == n {
      OneSidedCumulativeIsZero(n, npos, r);
    } else if r <= n {
      CumulativeMonotone(n, npos, r, n);
      Normalization(n, npos);
    } else {
      CumulativeSaturates(n, npos, r);
    }
  }

  /** With both signs present the p-value is positive from r = 2 on, the
      smallest run count such a sequence can have. */
  lemma CumulativePositive(n: int, npos: int, r: int)
    requires 1 <= npos <= n - 1 && r >= 2
    ensures CumulativeProbability(n, npos, r) > 0.0
  {
    CumulativeMonotone(n, npos, 2, r);
    EvenWeight(npos, n - npos, 1);
    CombEdges(npos - 1, 0);
    CombEdges(n - npos - 1, 0);
    assert RunWeight(npos, n - npos, 2) == 2;
    var d := Comb(n, npos) as real;
    assert d > 0.0;
    assert Term(n, npos, 2) == 2.0 / d;
    assert CumulativeProbability(n, npos, 2) == CumulativeProbability(n, npos, 1) + Term(n, npos, 2);
  }

  /** The worked example (N, NA) = (5, 3): C(5, 3) == 10 and the numerators
      for i = 0 .. 5 are 0, 0, 2, 3, 4, 1, so the terms are 0, 0, 2/10, 3/10,
      4/10, 1/10 and add up to 1. */
  lemma ExampleTerms()
    ensures Comb(5, 3) == 10
    ensures [RunWeight(3, 2, 0), RunWeight(3, 2, 1), RunWeight(3, 2, 2),
             RunWeight(3, 2, 3), RunWeight(3, 2, 4), RunWeight(3, 2, 5)] == [0, 0, 2, 3, 4, 1]
  {
  }
}
