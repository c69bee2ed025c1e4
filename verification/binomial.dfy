/**
 Exact binomial coefficients, as the run test evaluates them with
 arbitrary-precision integers, together with the identities the exact
 p-value relies on: Pascal's rule, symmetry, the factorial formula and
 Vandermonde's convolution.
 */
module Binomial {

  /** C(n, k) with the out-of-range convention of the exact integer
      evaluation: the coefficient vanishes when n < 0, k < 0 or k > n. */
  function Comb(n: int, k: int): (c: nat)
    ensures c > 0 <==> 0 <= k <= n
    decreases n
  {
    if n < 0 || k < 0 || k > n then 0
    else if k == 0 || k == n then 1
    else Comb(n - 1, k - 1) + Comb(n - 1, k)
  }

  /** The conventions at the edges of the table: row 0 of any row that
      exists is 1, and every coefficient with a negative argument is 0. */
  lemma CombEdges(n: int, k: int)
    ensures n >= 0 ==> Comb(n, 0) == 1 && Comb(n, n) == 1
    ensures n < 0 || k < 0 || k > n ==> Comb(n, k) == 0
  {
  }

  /** Pascal's rule holds for every k once the row index is positive,
      including the edges where one of the two summands vanishes. */
  lemma Pascal(n: int, k: int)
    requires n >= 1
    ensures Comb(n, k) == Comb(n - 1, k - 1) + Comb(n - 1, k)
  {
  }

  /** C(n, k) == C(n, n - k) for every n and k. */
  lemma {:induction false} Symmetry(n: int, k: int)
    ensures Comb(n, k) == Comb(n, n - k)
    decreases n
  {
    if n >= 1 && 0 < k < n {
      Symmetry(n - 1, k - 1);
      Symmetry(n - 1, k);
      Pascal(n, n - k);
    }
  }

  function Fact(n: nat): (f: nat)
    ensures f >= 1
  {
    if n == 0 then 1 else n * Fact(n - 1)
  }

  /** The arithmetic step of the factorial formula: with fk = k * fk1 and
      fr = (n - k) * fr1, the two Pascal summands contribute k and n - k
      copies of the previous row's factorial. */
  lemma FactorialStep(n: int, k: int, a: int, b: int, fk1: int, fr1: int, prev: int)
    requires a * fk1 * ((n - k) * fr1) == prev
    requires b * (k * fk1) * fr1 == prev
    ensures (a + b) * (k * fk1) * ((n - k) * fr1) == n * prev
  {
    calc {
      (a + b) * (k * fk1) * ((n - k) * fr1);
      a * (k * fk1) * ((n - k) * fr1) + b * (k * fk1) * ((n - k) * fr1);
      k * (a * fk1 * ((n - k) * fr1)) + (n - k) * (b * (k * fk1) * fr1);
      k * prev + (n - k) * prev;
    }
  }

  /** The recursive coefficient agrees with the closed form n! / (k! (n-k)!). */
  lemma {:induction false} FactorialFormula(n: nat, k: int)
    requires 0 <= k <= n
    ensures Comb(n, k) * Fact(k) * Fact(n - k) == Fact(n)
  {
    if k == 0 || k == n {
    } else {
      FactorialFormula(n - 1, k - 1);
      FactorialFormula(n - 1, k);
      var a, b := Comb(n - 1, k - 1), Comb(n - 1, k);
      var fk1, fr1 := Fact(k - 1), Fact(n - 1 - k);
      assert Comb(n, k) == a + b;
      assert Fact(k) == k * fk1;
      assert Fact(n - k) == (n - k) * fr1;
      assert n - 1 - (k - 1) == n - k;
      FactorialStep(n, k, a, b, fk1, fr1, Fact(n - 1));
    }
  }

  /** Vandermonde sum: the first t terms of sum_j C(x, j) * C(y, m - j). */
  function ConvolutionSum(x: int, y: int, m: int, t: int): int
    decreases t
  {
    if t <= 0 then 0
    else ConvolutionSum(x, y, m, t - 1) + Comb(x, t - 1) * Comb(y, m - (t - 1))
  }

  /** The same sum with the first factor's lower index shifted down by one:
      the first t terms of sum_j C(x, j - 1) * C(y, m - j). */
  function ShiftedConvolutionSum(x: int, y: int, m: int, t: int): int
    decreases t
  {
    if t <= 0 then 0
    else ShiftedConvolutionSum(x, y, m, t - 1) + Comb(x, t - 2) * Comb(y, m - (t - 1))
  }

  lemma {:induction false} ConvolutionFromEmptyRow(y: int, m: int, t: int)
    ensures ConvolutionSum(0, y, m, t) == if t >= 1 then Comb(y, m) else 0
    decreases t
  {
    if t >= 2 {
      ConvolutionFromEmptyRow(y, m, t - 1);
    }
  }

  lemma Distribute(p: int, q: int, c: int)
    ensures (p + q) * c == p * c + q * c
  {
  }

  /** Pascal's rule applied to every term of the sum at row x + 1. */
  lemma {:induction false} ConvolutionSplit(x: int, y: int, m: int, t: int)
    requires x >= 0
    ensures ConvolutionSum(x + 1, y, m, t)
         == ConvolutionSum(x, y, m, t) + ShiftedConvolutionSum(x, y, m, t)
    decreases t
  {
    if t > 0 {
      ConvolutionSplit(x, y, m, t - 1);
      var c := Comb(y, m - (t - 1));
      var p, q := Comb(x, t - 1), Comb(x, t - 2);
      Pascal(x + 1, t - 1);
      Distribute(p, q, c);
      assert ConvolutionSum(x + 1, y, m, t) == ConvolutionSum(x + 1, y, m, t - 1) + (p + q) * c;
    }
  }

  /** Re-indexing the shifted sum: its first term vanishes and the rest is
      an ordinary convolution for m - 1. */
  lemma {:induction false} ConvolutionShift(x: int, y: int, m: int, t: int)
    requires t >= 1
    ensures ShiftedConvolutionSum(x, y, m, t) == ConvolutionSum(x, y, m - 1, t - 1)
    decreases t
  {
    if t >= 2 {
      ConvolutionShift(x, y, m, t - 1);
    }
  }

  /** Vandermonde's identity: sum_{j=0}^{t-1} C(x, j) * C(y, m - j) == C(x + y, m)
      once the sum reaches past j == m. */
  lemma {:induction false} Vandermonde(x: int, y: int, m: int, t: int)
    requires x >= 0 && y >= 0 && t >= 0 && t > m
    ensures ConvolutionSum(x, y, m, t) == Comb(x + y, m)
    decreases x
  {
    if x == 0 {
      ConvolutionFromEmptyRow(y, m, t);
    } else if t == 0 {
    } else {
      ConvolutionSplit(x - 1, y, m, t);
      Vandermonde(x - 1, y, m, t);
      ConvolutionShift(x - 1, y, m, t);
      Vandermonde(x - 1, y, m - 1, t - 1);
      Pascal(x + y, m);
    }
  }

  /** The first t terms of sum_j C(x, j) * C(y, j). */
  function CrossSum(x: int, y: int, t: int): int
    decreases t
  {
    if t <= 0 then 0
    else CrossSum(x, y, t - 1) + Comb(x, t - 1) * Comb(y, t - 1)
  }

  lemma {:induction false} CrossSumIsConvolution(x: int, y: int, t: int)
    requires y >= 0
    ensures CrossSum(x, y, t) == ConvolutionSum(x, y, y, t)
    decreases t
  {
    if t > 0 {
      CrossSumIsConvolution(x, y, t - 1);
      Symmetry(y, t - 1);
    }
  }

  /** sum_j C(x, j) * C(y, j) == C(x + y, y) once the sum covers j == y. */
  lemma CrossSumClosedForm(x: int, y: int, t: int)
    requires x >= 0 && y >= 0 && t > y
    ensures CrossSum(x, y, t) == Comb(x + y, y)
  {
    CrossSumIsConvolution(x, y, t);
    Vandermonde(x, y, y, t);
  }

  /** Absorption: k C(n, k) == n C(n - 1, k - 1) for every k once n >= 1. */
  lemma {:induction false} Absorption(n: int, k: int)
    requires n >= 1
    ensures k * Comb(n, k) == n * Comb(n - 1, k - 1)
    decreases n
  {
    if n >= 2 && 0 < k < n {
      Absorption(n - 1, k - 1);
      Absorption(n - 1, k);
      Pascal(n, k);
      Pascal(n - 1, k - 1);
      AbsorptionStep(n, k, Comb(n - 1, k - 1), Comb(n - 1, k), Comb(n - 2, k - 2), Comb(n - 2, k - 1));
    }
  }

  /** The arithmetic of one absorption step, over the four coefficients
      c11 = C(n-1, k-1), c10 = C(n-1, k), c22 = C(n-2, k-2), c21 = C(n-2, k-1). */
  lemma AbsorptionStep(n: int, k: int, c11: int, c10: int, c22: int, c21: int)
    requires c11 == c22 + c21
    requires (k - 1) * c11 == (n - 1) * c22
    requires k * c10 == (n - 1) * c21
    ensures k * (c11 + c10) == n * c11
  {
    calc {
      k * (c11 + c10);
      (k - 1) * c11 + c11 + k * c10;
      (n - 1) * c22 + c11 + (n - 1) * c21;
      (n - 1) * (c22 + c21) + c11;
      n * c11;
    }
  }

  /** The first t terms of sum_j j * C(x, j) * C(y, j). */
  function WeightedCrossSum(x: int, y: int, t: int): int
    decreases t
  {
    if t <= 0 then 0
    else WeightedCrossSum(x, y, t - 1) + (t - 1) * Comb(x, t - 1) * Comb(y, t - 1)
  }

  /** With an empty first row every weighted term vanishes. */
  lemma {:induction false} WeightedCrossSumOfEmptyRow(y: int, t: int)
    ensures WeightedCrossSum(0, y, t) == 0
    decreases t
  {
    if t > 0 {
      WeightedCrossSumOfEmptyRow(y, t - 1);
    }
  }

  /** Absorbing the weight j into C(x, j) turns the weighted sum into a
      shifted convolution. */
  lemma {:induction false} WeightedCrossSumAbsorbed(x: int, y: int, t: int)
    requires x >= 1 && y >= 0
    ensures WeightedCrossSum(x, y, t) == x * ShiftedConvolutionSum(x - 1, y, y, t)
    decreases t
  {
    if t > 0 {
      WeightedCrossSumAbsorbed(x, y, t - 1);
      Absorption(x, t - 1);
      Symmetry(y, t - 1);
      AbsorbedTerm(x, t - 1, Comb(x, t - 1), Comb(x - 1, t - 2), Comb(y, t - 1),
        ShiftedConvolutionSum(x - 1, y, y, t - 1));
    }
  }

  lemma AbsorbedTerm(x: int, j: int, cx: int, cx1: int, cy: int, prev: int)
    requires j * cx == x * cx1
    ensures x * prev + j * cx * cy == x * (prev + cx1 * cy)
  {
    calc {
      x * prev + j * cx * cy;
      x * prev + (j * cx) * cy;
      x * prev + (x * cx1) * cy;
      x * (prev + cx1 * cy);
    }
  }

  /** sum_j j C(x, j) C(y, j) == x C(x + y - 1, y - 1) once the sum covers j == y. */
  lemma WeightedCrossSumClosedForm(x: int, y: int, t: int)
    requires x >= 0 && y >= 0 && t > y
    ensures WeightedCrossSum(x, y, t) == x * Comb(x + y - 1, y - 1)
  {
    if x == 0 {
      WeightedCrossSumOfEmptyRow(y, t);
    } else {
      WeightedCrossSumAbsorbed(x, y, t);
      ConvolutionShift(x - 1, y, y, t);
      Vandermonde(x - 1, y, y - 1, t - 1);
    }
  }
}
