# Wald–Wolfowitz run test, modelled in Dafny

This project models the computational core of the `RunTest` script. Given the
ordered residuals of a fit, the script does three things:

- It counts the runs: maximal blocks of consecutive residuals that share a sign.
  A residual is positive when it is strictly greater than `0.0`; zero counts as non-positive.
- It computes the closed-form mean and variance of the run count when the signs are ordered at random.
- It sums the exact Wald–Wolfowitz probability of observing at most the observed number of runs.
  This sum uses exact binomial coefficients `C(n, k)` that vanish outside `0 <= k <= n`.

Modules, one per component:

- `Binomial` (`binomial.dfy`): exact binomials with that convention.
  It also proves Pascal's rule, symmetry, the factorial formula and Vandermonde's identity.
- `RunCounter` (`run_counter.dfy`): sign classification, positive count, run count and the decomposition into maximal runs.
  `CountRuns` is the counting loop itself. It starts from the sentinel `-2`, so the first residual always opens a run.
- `Moments` (`moments.dfy`): mean `1 + 2·NA·NB/N` and variance `2·NA·NB·(2·NA·NB − N)/(N²·(N−1))`, as exact rationals.
- `PValue` (`pvalue.dfy`): the even and odd term formulas and the cumulative sum.
  `ExactPValue` is the summation loop itself. The module proves normalisation: with both signs present, the terms for `i = 0 .. N` sum to exactly 1.
- `Distribution` (`distribution.dfy`): the mean of the exact run-count distribution, sum of `i·p_i`.
  With both signs present it equals the closed-form mean `1 + 2·NA·NB/N` that the script reports.
- `RunTest` (`run_test.dfy`): the script's computation in order (`Evaluate`).

Conventions:

- Residuals are `seq<real>`. The script only ever compares them with `0.0`.
- Terms and sums are exact rationals (`real`). The script converts each term to a float before adding it; the model does not.
- `N` is the number of residuals, `NA` the number of positives, `NB = N − NA`, and `r` the number of runs.

Two behaviours of the script are kept as written:

- With fewer than two residuals, the computation from line 37 on stops with a division by zero at the mean (N = 0) or the variance (N = 1).
  It has no error handling of its own. The model therefore states `N >= 2` as a precondition of `Evaluate` and of the variance, and `N >= 1` for the mean.
  It does not model an error result.
- When one sign is absent (`NA = 0` or `NB = 0`), every term contains a factor `C(−1, ·) = 0`.
  So the code's sum is 0 for every `r`, not 1. `PValue.OneSidedCumulativeIsZero` proves this.
  Normalisation is claimed only when both signs are present.

## Model

| member | source | states |
|---|---|---|
| Binomial.Comb | RunTest.py:83 | the exact coefficient is positive exactly when 0 <= k <= n and is zero otherwise, so the denominator C(N, NA) is positive for 0 <= NA <= N |
| Binomial.CombEdges | RunTest.py:87 | C(n, 0) = C(n, n) = 1 for n >= 0; C(n, k) = 0 when n < 0, k < 0 or k > n |
| Binomial.Pascal | RunTest.py:93 | Pascal's rule C(n, k) = C(n−1, k−1) + C(n−1, k) for every k once n >= 1, edges included |
| Binomial.Symmetry | RunTest.py:83 | C(n, k) = C(n, n − k) for all integers n, k |
| Binomial.FactorialFormula | RunTest.py:79 | the coefficient equals n! / (k! (n−k)!): C(n, k)·k!·(n−k)! = n! for 0 <= k <= n |
| Binomial.Vandermonde | RunTest.py:84-96 | sum over j of C(x, j)·C(y, m−j) equals C(x+y, m); this identity yields the normalisation of the terms |
| Binomial.CrossSumClosedForm | RunTest.py:84-96 | sum over j of C(x, j)·C(y, j) equals C(x+y, y) once the sum covers j = y |
| Binomial.Absorption | RunTest.py:85-93 | k·C(n, k) = n·C(n−1, k−1) for every k once n >= 1 |
| Binomial.WeightedCrossSumClosedForm | RunTest.py:84-96 | sum over j of j·C(x, j)·C(y, j) equals x·C(x+y−1, y−1) once the sum covers j = y |
| RunCounter.SignValue | RunTest.py:43-47 | a residual is classed 1 exactly when it is strictly greater than 0.0 and 0 otherwise, so zero counts as non-positive |
| RunCounter.CountPositive | RunTest.py:43-45 | npos, accumulated one residual at a time, is the number of indices whose residual is strictly greater than 0.0, and so at most N |
| RunCounter.CountPositiveExtremes | RunTest.py:43-47 | npos = N exactly when all residuals are positive; npos = 0 exactly when none is (zero counts as non-positive) |
| RunCounter.NumRuns | RunTest.py:38-50 | the run count is 0 for no residuals and lies between 1 and N otherwise |
| RunCounter.Runs | RunTest.py:40-50 | the residuals split into non-empty, single-sign blocks that concatenate back to the input, neighbouring blocks differ in sign, and there are NumRuns of them |
| RunCounter.RunDecompositionUnique | RunTest.py:40-50 | any split into maximal same-sign blocks is the one Runs builds, so the run count does not depend on how the sequence is scanned |
| RunCounter.DecompositionStep | RunTest.py:40-50 | any split into maximal runs is the split of the sequence without its last residual, with that residual added back the way the scan adds it |
| RunCounter.RunCountOfAnyDecomposition | RunTest.py:38-50 | every split into maximal same-sign blocks has exactly nrun blocks |
| RunCounter.CountRuns | RunTest.py:38-50 | the counting loop with the -2 sentinel yields npos = CountPositive, nrun = 1 + number of adjacent sign changes (0 when empty), and nrun = number of maximal runs |
| RunCounter.OneRunIffSameSign | RunTest.py:40-50 | a non-empty sequence has exactly one run exactly when all residuals share a classification |
| RunCounter.AllRunsIffAlternating | RunTest.py:48-50 | a non-empty sequence has N runs exactly when every adjacent pair differs in classification |
| RunCounter.BothSignsAtLeastTwoRuns | RunTest.py:43-50 | when both signs occur there are at least two runs |
| RunCounter.RunsBoundedBySignCounts | RunTest.py:43-50 | runs alternate in sign: r <= 2·NA + 1 − [last positive] and r <= 2·NB + [last positive] |
| RunCounter.RunsBoundedByMinority | RunTest.py:43-50 | r <= 2·min(NA, NB) + 1 |
| RunCounter.ExampleCounts | RunTest.py:41-50 | [1, 2, −1, −3, 0.5] gives npos = 3 and nrun = 3; [0.0] gives npos = 0 |
| Moments.ExpectedRuns | RunTest.py:64 | the mean 1 + 2·NA·NB/N lies between 1 and 1 + N/2 when 0 <= NA <= N |
| Moments.RunsVariance | RunTest.py:65-66 | the variance is non-negative whenever N >= 2 and 0 <= NA <= N, so the square root taken next is defined |
| Moments.ExpectedRunsSymmetric | RunTest.py:64 | exchanging NA and NB leaves the mean unchanged |
| Moments.RunsVarianceSymmetric | RunTest.py:65 | exchanging NA and NB leaves the variance unchanged |
| Moments.RunsVarianceZeroIff | RunTest.py:65 | the variance is zero exactly when NA = 0, NB = 0, or N = 2 with NA = 1 |
| Moments.ExampleMoments | RunTest.py:64-65 | (N, NA) = (5, 3) gives mean 17/5 and variance 84/100; (2, 1) gives mean 2 and variance 0 |
| PValue.Term | RunTest.py:85-93 | every term is non-negative |
| PValue.CumulativeProbability | RunTest.py:82-96 | the cumulative sum is non-negative |
| PValue.ExactPValue | RunTest.py:82-96 | the summation loop with its even/odd split returns exactly the sum of the terms for i = 0 .. r |
| PValue.RunWeight | RunTest.py:85-93 | the numerator of term i: 2·C(NA−1, s−1)·C(NB−1, s−1) for even i = 2s, C(NA−1, s−2)·C(NB−1, s−1) + C(NA−1, s−1)·C(NB−1, s−2) for odd i = 2s−1; its contract only gives a natural number, and its meaning (support, symmetry, total C(N, NA)) is stated by RunWeightPositiveIff, RunWeightSymmetric and WeightTotal |
| PValue.FirstTermsVanish | RunTest.py:85-93 | the terms for i = 0 and i = 1 are zero for all NA, NB |
| PValue.RunWeightSymmetric | RunTest.py:85-93 | each numerator is unchanged when NA and NB are exchanged |
| PValue.OneSidedWeightsVanish | RunTest.py:85-93 | with NA = 0 or NB = 0 every numerator is zero |
| PValue.WeightVanishesBeyond | RunTest.py:85-93 | numerators vanish for i > N and for i > 2·min(NA, NB) + 1 |
| PValue.RunWeightPositiveIff | RunTest.py:85-93 | a numerator is positive exactly when 2 <= i <= N, i <= 2·NA + 1 and i <= 2·NB + 1 |
| PValue.TermPositiveIff | RunTest.py:87-93 | a term is positive exactly when its numerator is |
| PValue.TermPositiveInSupport | RunTest.py:85-93 | a run count r with 2 <= r <= N, r <= 2·NA + 1 and r <= 2·NB + 1 has a positive term |
| PValue.WeightTotal | RunTest.py:83-96 | with NA, NB >= 1 the numerators for i = 0 .. N add up to the denominator C(N, NA) |
| PValue.CumulativeIsRatio | RunTest.py:82-96 | the cumulative sum equals the partial sum of numerators divided by C(N, NA) |
| PValue.Normalization | RunTest.py:82-97 | with 1 <= NA <= N − 1 the sum up to r = N is exactly 1 |
| PValue.CumulativeMonotone | RunTest.py:84-96 | the cumulative sum never decreases as r grows |
| PValue.CumulativeSaturates | RunTest.py:84-96 | with both signs present the sum is exactly 1 for every r >= N |
| PValue.OneSidedCumulativeIsZero | RunTest.py:82-96 | with NA = 0 or NA = N the sum is 0 for every r |
| PValue.CumulativeIsProbability | RunTest.py:82-97 | the cumulative sum lies in [0, 1] for every N, NA and r |
| PValue.CumulativePositive | RunTest.py:84-96 | with both signs present the sum is positive from r = 2 on |
| PValue.ExampleTerms | RunTest.py:83-93 | (N, NA) = (5, 3): C(5, 3) = 10 and the numerators for i = 0 .. 5 are 0, 0, 2, 3, 4, 1, so the terms are 0, 0, 2/10, 3/10, 4/10, 1/10 |
| Distribution.MomentSumPairs | RunTest.py:84-96 | summing i times the numerator over the odd and even counts 2t−1 and 2t gives twice two weighted cross sums plus three plain cross sums of binomials |
| Distribution.MomentSumSettles | RunTest.py:85-93 | i times the numerator adds nothing past i = NA + NB |
| Distribution.MomentTotal | RunTest.py:84-96 | with NA, NB >= 1, the sum of i times the numerator for i = 0 .. N is C(N, NA) + 2·NA·C(N−1, NB−1) |
| Distribution.MeanOfTermsIsRatio | RunTest.py:84-96 | the sum of i·p_i up to r equals the sum of i times the numerators divided by C(N, NA) |
| Distribution.MeanMatchesExpectedRuns | RunTest.py:64-96 | with 1 <= NA <= N − 1, the mean of the exact distribution, sum of i·p_i over i = 0 .. N, is exactly the closed-form mean 1 + 2·NA·NB/N |
| Distribution.ExampleMean | RunTest.py:64-93 | (N, NA) = (5, 3): the sum of i times the numerators is 34, and the distribution's mean is 34/10 = 17/5 |
| RunTest.Evaluate | RunTest.py:37-97 | the script's computation gives 1 <= r <= N, a non-negative variance, and a p-value in [0, 1] that is 0 exactly when one sign is absent; when both are present the observed r has positive probability |
| RunTest.ObservedRunsInSupport | RunTest.py:41-96 | when both signs occur, the term for the observed run count is positive: the counter never reports a count outside the support of the exact distribution |

## Left out

- `runTestArgs.py`: command-line parsing and echoing of the arguments. There is no logic in it.
- Reading the residual file (`RunTest.py:31-35`) is I/O. The model takes the residuals as a `seq<real>`.
  Non-numeric entries that the reader turns into NaN are not representable. The script's `> 0.0` test would class them as non-positive.
- All printing and the `infolevel` verbosity switch (`RunTest.py:27-29, 51-52, 54-57, 67-68, 88-89, 94-95, 97-98`) are output only.
  Scaling the p-value by 100 for display is also output formatting.
- Floating point is not modelled. This covers the `float(...)` conversion of each term (`RunTest.py:87, 93`) and the float accumulation of `psum` (`RunTest.py:90, 96`).
  Both are modelled as exact rational arithmetic, so rounding is not captured.
- The standard deviation `np.sqrt(variancer)` (`RunTest.py:66`) is not modelled. Only the non-negativity of its argument is proved.
- Fewer than two residuals: the script fails with a division by zero, and the model excludes this by precondition instead of modelling the failure.
- Moments.RunsVariance: its contract gives non-negativity, symmetry and the zero cases. It does not state that the closed form equals the variance of the exact distribution. The matching identity for the mean is proved (`Distribution.MeanMatchesExpectedRuns`); the second moment is not.
- PValue.RunWeight: its own contract states only that a numerator is a natural number. Its support, symmetry and total are separate lemmas (`RunWeightPositiveIff`, `RunWeightSymmetric`, `WeightTotal`), because clauses on the function itself are instantiated in every proof that mentions a numerator and make those proofs far more expensive.
