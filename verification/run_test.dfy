/**
 The run test as a whole: count the runs of the residuals, derive the
 closed-form mean and variance of the run count, and sum the exact
 probability of observing at most the observed number of runs.
 */
module RunTest {
  import opened RunCounter
  import opened Moments
  import opened PValue

  /** Everything the test reports about one residual sequence. */
  datatype Summary = Summary(stats: RunStatistics, expected: real, variance: real, pValue: real)

  /** The script's computation in order. Two residuals at least are needed:
      with fewer, the divisions by N and by N - 1 fail. */
  method Evaluate(residuals: seq<real>) returns (summary: Summary)
    requires |residuals| >= 2
    ensures summary.stats.n == |residuals|
    ensures summary.stats.npos == CountPositive(residuals)
    ensures summary.stats.nrun == |Runs(residuals)|
    ensures 1 <= summary.stats.nrun <= summary.stats.n
    ensures summary.expected == ExpectedRuns(summary.stats.n, summary.stats.npos)
    ensures summary.variance == RunsVariance(summary.stats.n, summary.stats.npos)
    ensures summary.variance >= 0.0
    ensures summary.pValue == CumulativeProbability(summary.stats.n, summary.stats.npos, summary.stats.nrun)
    ensures 0.0 <= summary.pValue <= 1.0
    ensures summary.pValue == 0.0 <==> summary.stats.npos == 0 || summary.stats.nneg() == 0
    ensures 0 < summary.stats.npos < summary.stats.n ==>
      Term(summary.stats.n, summary.stats.npos, summary.stats.nrun) > 0.0
  {
    var stats := CountRuns(residuals);
    var n, npos, r := stats.n, stats.npos, stats.nrun;
    var expected := ExpectedRuns(n, npos);
    var variance := RunsVariance(n, npos);
    var pValue := ExactPValue(n, npos, r);
    CumulativeIsProbability(n, npos, r);
    if npos == 0 || npos == n {
      OneSidedCumulativeIsZero(n, npos, r);
    } else {
      BothSignsAtLeastTwoRuns(residuals);
      CumulativePositive(n, npos, r);
      ObservedRunsInSupport(residuals);
    }
    summary := Summary(stats, expected, variance, pValue);
  }

  /** The observed run count always has positive probability under the
      exact distribution when both signs occur: it lies in the support. */
  lemma ObservedRunsInSupport(residuals: seq<real>)
    requires 0 < CountPositive(residuals) < |residuals|
    ensures Term(|residuals|, CountPositive(residuals), NumRuns(residuals)) > 0.0
  {
    BothSignsAtLeastTwoRuns(residuals);
    RunsBoundedByMinority(residuals);
    TermPositiveInSupport(|residuals|, CountPositive(residuals), NumRuns(residuals));
  }
}
