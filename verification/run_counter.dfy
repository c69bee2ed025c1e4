/**
 The run counter: one pass over the residuals that classifies each value as
 positive (strictly greater than zero) or not, counts the positives and
 counts the runs, a run being a maximal block of consecutive residuals with
 the same classification.
 */
module RunCounter {

  /** The classification of one residual: 1 when it is strictly positive,
      0 otherwise, so that a residual equal to zero counts as non-positive. */
  function SignValue(x: real): (v: int)
    ensures v == 0 || v == 1
    ensures v == 1 <==> x > 0.0
  {
    if x > 0.0 then 1 else 0
  }

  /** The previous-sign register starts at a value that is neither sign, so
      the first residual always opens a run. */
  const NoPrevious: int := -2

  /** Observed counts: the number of residuals, of positive residuals and of runs. */
  datatype RunStatistics = RunStatistics(n: nat, npos: nat, nrun: nat)
  {
    /** Number of non-positive residuals. */
    function nneg(): int
    {
      n - npos
    }
  }

  /** Indices of the positive residuals: an independent description of npos. */
  function PositiveIndices(s: seq<real>): set<int>
  {
    set i | 0 <= i < |s| && s[i] > 0.0
  }

  /** Number of residuals strictly greater than zero, accumulated one
      residual at a time: it is the number of positive indices. */
  function CountPositive(s: seq<real>): (npos: nat)
    ensures npos == |PositiveIndices(s)|
    ensures npos <= |s|
    decreases |s|
  {
    if |s| == 0 then 0
    else
      PositiveIndicesOfExtension(s);
      CountPositive(s[..|s| - 1]) + SignValue(s[|s| - 1])
  }

  /** The positive indices of a sequence are those of its prefix plus, when
      the last residual is positive, the last index. */
  lemma PositiveIndicesOfExtension(s: seq<real>)
    requires |s| > 0
    ensures |PositiveIndices(s)| == |PositiveIndices(s[..|s| - 1])| + SignValue(s[|s| - 1])
  {
    var init := s[..|s| - 1];
    var last := if s[|s| - 1] > 0.0 then {|s| - 1} else {};
    assert PositiveIndices(s) == PositiveIndices(init) + last;
    assert |s| - 1 !in PositiveIndices(init);
  }

  /** Number of adjacent pairs whose classifications differ. */
  function SignChanges(s: seq<real>): (c: nat)
    ensures |s| >= 1 ==> c <= |s| - 1
    decreases |s|
  {
    if |s| <= 1 then 0
    else SignChanges(s[..|s| - 1]) + (if SignValue(s[|s| - 1]) != SignValue(s[|s| - 2]) then 1 else 0)
  }

  /** The number of runs: none for an empty sequence, otherwise one run
      opened by the first residual plus one per sign change. */
  function NumRuns(s: seq<real>): (r: nat)
    ensures |s| == 0 ==> r == 0
    ensures |s| >= 1 ==> 1 <= r <= |s|
  {
    if |s| == 0 then 0 else 1 + SignChanges(s)
  }

  /** Every residual of b has the classification of its first one. */
  predicate SameSign(b: seq<real>)
  {
    forall i :: 0 <= i < |b| ==> SignValue(b[i]) == SignValue(b[0])
  }

  /** Adjacent residuals always differ in classification. */
  predicate Alternating(s: seq<real>)
  {
    forall j :: 1 <= j < |s| ==> SignValue(s[j]) != SignValue(s[j - 1])
  }

  function Last<T>(s: seq<T>): T
    requires |s| > 0
  {
    s[|s| - 1]
  }

  /** Concatenation of a sequence of blocks. */
  function Flatten(bs: seq<seq<real>>): seq<real>
    decreases |bs|
  {
    if |bs| == 0 then [] else Flatten(bs[..|bs| - 1]) + Last(bs)
  }

  /** Neighbouring blocks differ in sign where they meet. */
  ghost predicate Maximal(bs: seq<seq<real>>)
  {
    forall j, k :: 0 <= j && k == j + 1 && k < |bs| && |bs[j]| > 0 && |bs[k]| > 0 ==>
      SignValue(Last(bs[j])) != SignValue(bs[k][0])
  }

  /** bs cuts s into runs: the blocks concatenate to s, each block is
      non-empty and of one sign, and neighbouring blocks differ in sign,
      so that no block can be extended. */
  ghost predicate IsRunDecomposition(bs: seq<seq<real>>, s: seq<real>)
  {
    && Flatten(bs) == s
    && (forall k :: 0 <= k < |bs| ==> |bs[k]| > 0 && SameSign(bs[k]))
    && Maximal(bs)
  }

  /** A residual of the last run's sign extends that run. */
  lemma ExtendLastRun(bs: seq<seq<real>>, s: seq<real>, x: real)
    requires IsRunDecomposition(bs, s) && |bs| > 0
    requires SignValue(Last(Last(bs))) == SignValue(x)
    ensures IsRunDecomposition(bs[..|bs| - 1] + [Last(bs) + [x]], s + [x])
  {
    var init := bs[..|bs| - 1];
    var ext := init + [Last(bs) + [x]];
    assert ext[..|ext| - 1] == init;
    assert bs == init + [Last(bs)];
    assert Flatten(bs) == Flatten(init) + Last(bs);
    assert Flatten(ext) == Flatten(init) + (Last(bs) + [x]);
    forall k | 0 <= k < |ext|
      ensures |ext[k]| > 0 && SameSign(ext[k])
    {
      if k == |ext| - 1 {
        assert ext[k] == Last(bs) + [x];
        assert SameSign(Last(bs));
      } else {
        assert ext[k] == bs[k];
      }
    }
    forall j, k | 0 <= j && k == j + 1 && k < |ext| && |ext[j]| > 0 && |ext[k]| > 0
      ensures SignValue(Last(ext[j])) != SignValue(ext[k][0])
    {
      assert ext[j] == bs[j];
      assert ext[k][0] == bs[k][0];
    }
  }

  /** A residual of the other sign (or the first residual) opens a run. */
  lemma OpenRun(bs: seq<seq<real>>, s: seq<real>, x: real)
    requires IsRunDecomposition(bs, s)
    requires |bs| > 0 ==> SignValue(Last(Last(bs))) != SignValue(x)
    ensures IsRunDecomposition(bs + [[x]], s + [x])
  {
    var ext := bs + [[x]];
    assert ext[..|ext| - 1] == bs;
    forall j, k | 0 <= j && k == j + 1 && k < |ext| && |ext[j]| > 0 && |ext[k]| > 0
      ensures SignValue(Last(ext[j])) != SignValue(ext[k][0])
    {
      if k < |bs| {
        assert ext[j] == bs[j] && ext[k] == bs[k];
      }
    }
  }

  /** One step of the left-to-right construction: x extends the last run
      when it has that run's sign, and opens a new run otherwise. */
  function AddResidual(bs: seq<seq<real>>, x: real): seq<seq<real>>
  {
    if |bs| > 0 && |Last(bs)| > 0 && SignValue(Last(Last(bs))) == SignValue(x)
    then bs[..|bs| - 1] + [Last(bs) + [x]]
    else bs + [[x]]
  }

  lemma AddResidualKeepsDecomposition(bs: seq<seq<real>>, s: seq<real>, x: real)
    requires IsRunDecomposition(bs, s)
    ensures IsRunDecomposition(AddResidual(bs, x), s + [x])
  {
    if |bs| > 0 && SignValue(Last(Last(bs))) == SignValue(x) {
      ExtendLastRun(bs, s, x);
    } else {
      OpenRun(bs, s, x);
    }
  }

  /** The runs of s, built left to right. */
  function Runs(s: seq<real>): (bs: seq<seq<real>>)
    ensures IsRunDecomposition(bs, s)
    ensures |bs| == NumRuns(s)
    ensures |s| > 0 ==> |bs| > 0 && |Last(bs)| > 0 && Last(Last(bs)) == Last(s)
    decreases |s|
  {
    if |s| == 0 then []
    else
      var prev := Runs(s[..|s| - 1]);
      AddResidualStep(prev, s);
      AddResidual(prev, Last(s))
  }

  /** Adding the last residual to the runs of the prefix gives runs of the
      whole sequence, one more exactly when the classification changes. */
  lemma AddResidualStep(prev: seq<seq<real>>, s: seq<real>)
    requires |s| > 0
    requires IsRunDecomposition(prev, s[..|s| - 1]) && |prev| == NumRuns(s[..|s| - 1])
    requires |s| > 1 ==> |prev| > 0 && |Last(prev)| > 0 && Last(Last(prev)) == s[|s| - 2]
    ensures IsRunDecomposition(AddResidual(prev, Last(s)), s)
    ensures |AddResidual(prev, Last(s))| == NumRuns(s)
    ensures |AddResidual(prev, Last(s))| > 0 && |Last(AddResidual(prev, Last(s)))| > 0
    ensures Last(Last(AddResidual(prev, Last(s)))) == Last(s)
  {
    var p, x := s[..|s| - 1], Last(s);
    assert s == p + [x];
    AddResidualKeepsDecomposition(prev, p, x);
    if |s| == 1 {
      assert |prev| == 0;
    }
  }

  /** The scan of the source, one residual at a time: the positives are
      counted and a run is opened whenever the classification differs from
      the one remembered for the previous residual. */
  method CountRuns(residuals: seq<real>) returns (stats: RunStatistics)
    ensures stats.n == |residuals|
    ensures stats.npos == CountPositive(residuals)
    ensures stats.nrun == NumRuns(residuals)
    ensures stats.nrun == |Runs(residuals)|
  {
    var npos := 0;
    var nrun := 0;
    var previous := NoPrevious;
    var i := 0;
    while i < |residuals|
      invariant 0 <= i <= |residuals|
      invariant npos == CountPositive(residuals[..i])
      invariant nrun == NumRuns(residuals[..i])
      invariant previous == if i == 0 then NoPrevious else SignValue(residuals[i - 1])
    {
      var residual := residuals[i];
      var value;
      if residual > 0.0 {
        npos := npos + 1;
        value := 1;
      } else {
        value := 0;
      }
      if value != previous {
        nrun := nrun + 1;
        previous := value;
      }
      assert residuals[..i + 1][..i] == residuals[..i];
      i := i + 1;
    }
    assert residuals[..i] == residuals;
    stats := RunStatistics(|residuals|, npos, nrun);
  }

  /** npos reaches its extremes exactly on sequences of one sign. */
  lemma {:induction false} CountPositiveExtremes(s: seq<real>)
    ensures CountPositive(s) == |s| <==> forall i :: 0 <= i < |s| ==> s[i] > 0.0
    ensures CountPositive(s) == 0 <==> forall i :: 0 <= i < |s| ==> s[i] <= 0.0
    decreases |s|
  {
    if |s| > 0 {
      var init := s[..|s| - 1];
      CountPositiveExtremes(init);
      assert forall i :: 0 <= i < |init| ==> init[i] == s[i];
    }
  }

  /** A sequence forms a single run exactly when every residual has the
      classification of the first. */
  lemma {:induction false} OneRunIffSameSign(s: seq<real>)
    requires |s| >= 1
    ensures NumRuns(s) == 1 <==> SameSign(s)
    decreases |s|
  {
    if |s| >= 2 {
      var init := s[..|s| - 1];
      OneRunIffSameSign(init);
      assert forall i :: 0 <= i < |init| ==> init[i] == s[i];
      if SameSign(s) {
        assert SameSign(init);
      }
      if NumRuns(s) == 1 {
        assert SignValue(s[|s| - 1]) == SignValue(s[|s| - 2]);
      }
    }
  }

  /** A sequence has as many runs as residuals exactly when every adjacent
      pair differs in classification. */
  lemma {:induction false} AllRunsIffAlternating(s: seq<real>)
    requires |s| >= 1
    ensures NumRuns(s) == |s| <==> Alternating(s)
    decreases |s|
  {
    if |s| >= 2 {
      var init := s[..|s| - 1];
      AllRunsIffAlternating(init);
      assert forall i :: 0 <= i < |init| ==> init[i] == s[i];
      if Alternating(s) {
        assert Alternating(init);
      }
    }
  }

  /** When both classifications occur there are at least two runs. */
  lemma BothSignsAtLeastTwoRuns(s: seq<real>)
    requires 0 < CountPositive(s) < |s|
    ensures NumRuns(s) >= 2
  {
    CountPositiveExtremes(s);
    OneRunIffSameSign(s);
  }

  /** Runs alternate in sign, so each sign has at least every other run:
      the run count is at most 2 * npos + 1, or 2 * npos when the last
      residual is positive, and symmetrically for the non-positives. */
  lemma {:induction false} RunsBoundedBySignCounts(s: seq<real>)
    requires |s| >= 1
    ensures NumRuns(s) <= 2 * CountPositive(s) + 1 - SignValue(Last(s))
    ensures NumRuns(s) <= 2 * (|s| - CountPositive(s)) + SignValue(Last(s))
    decreases |s|
  {
    if |s| >= 2 {
      RunsBoundedBySignCounts(s[..|s| - 1]);
    }
  }

  /** The observed run count never exceeds 2 * min(NA, NB) + 1. */
  lemma RunsBoundedByMinority(s: seq<real>)
    ensures NumRuns(s) <= 2 * CountPositive(s) + 1
    ensures NumRuns(s) <= 2 * (|s| - CountPositive(s)) + 1
  {
    if |s| >= 1 {
      RunsBoundedBySignCounts(s);
    }
  }

  /** Removing the last residual from a decomposition leaves a
      decomposition of the prefix: the last run is shortened, or dropped
      when it held only that residual. */
  lemma DropLastResidual(bs: seq<seq<real>>, s: seq<real>)
    requires IsRunDecomposition(bs, s) && |s| > 0
    ensures |bs| > 0
    ensures |Last(bs)| == 1 ==> IsRunDecomposition(bs[..|bs| - 1], s[..|s| - 1])
    ensures |Last(bs)| > 1 ==>
      IsRunDecomposition(bs[..|bs| - 1] + [Last(bs)[..|Last(bs)| - 1]], s[..|s| - 1])
    ensures Last(Last(bs)) == Last(s)
  {
    var init, L := bs[..|bs| - 1], Last(bs);
    assert s == Flatten(init) + L;
    assert |L| > 0;
    if |L| > 1 {
      ShortenLastRun(bs, s);
    } else {
      DropSingletonRun(bs, s);
    }
  }

  /** Shortening a last run of several residuals leaves a decomposition of
      the prefix. */
  lemma ShortenLastRun(bs: seq<seq<real>>, s: seq<real>)
    requires IsRunDecomposition(bs, s) && |bs| > 0 && |Last(bs)| > 1
    ensures IsRunDecomposition(bs[..|bs| - 1] + [Last(bs)[..|Last(bs)| - 1]], s[..|s| - 1])
  {
    var init, L := bs[..|bs| - 1], Last(bs);
    var cut := init + [L[..|L| - 1]];
    assert cut[..|cut| - 1] == init;
    assert s == Flatten(init) + L;
    assert s[..|s| - 1] == Flatten(init) + L[..|L| - 1];
    forall k | 0 <= k < |cut|
      ensures |cut[k]| > 0 && SameSign(cut[k])
    {
      if k < |init| {
        assert cut[k] == bs[k];
      } else {
        assert SameSign(bs[k]);
      }
    }
    forall j, k | 0 <= j && k == j + 1 && k < |cut| && |cut[j]| > 0 && |cut[k]| > 0
      ensures SignValue(Last(cut[j])) != SignValue(cut[k][0])
    {
      assert cut[j] == bs[j];
      assert cut[k][0] == bs[k][0];
    }
  }

  /** Dropping a last run of one residual leaves a decomposition of the
      prefix. */
  lemma DropSingletonRun(bs: seq<seq<real>>, s: seq<real>)
    requires IsRunDecomposition(bs, s) && |bs| > 0 && |Last(bs)| == 1
    ensures IsRunDecomposition(bs[..|bs| - 1], s[..|s| - 1])
  {
    var init, L := bs[..|bs| - 1], Last(bs);
    assert s == Flatten(init) + L;
    assert s[..|s| - 1] == Flatten(init);
    forall j, k | 0 <= j && k == j + 1 && k < |init| && |init[j]| > 0 && |init[k]| > 0
      ensures SignValue(Last(init[j])) != SignValue(init[k][0])
    {
      assert init[j] == bs[j] && init[k] == bs[k];
    }
  }

  /** A decomposition whose blocks are all non-empty covers at least one
      residual per block. */
  lemma {:induction false} FlattenCoversBlocks(bs: seq<seq<real>>)
    requires forall k :: 0 <= k < |bs| ==> |bs[k]| > 0
    ensures |Flatten(bs)| >= |bs|
    decreases |bs|
  {
    if |bs| > 0 {
      FlattenCoversBlocks(bs[..|bs| - 1]);
    }
  }

  /** The decomposition into maximal runs is unique, so the run count is a
      property of the sequence and not of the way it is scanned. */
  lemma {:induction false} RunDecompositionUnique(bs: seq<seq<real>>, s: seq<real>)
    requires IsRunDecomposition(bs, s)
    ensures bs == Runs(s)
    decreases |s|
  {
    FlattenCoversBlocks(bs);
    if |s| > 0 {
      var p, x := s[..|s| - 1], Last(s);
      DecompositionStep(bs, s);
      RunDecompositionUnique(DropLastOfRuns(bs), p);
      assert Runs(s) == AddResidual(Runs(p), x);
    }
  }

  /** A decomposition with its last residual removed: the last run is
      shortened, or dropped when it held only that residual. */
  function DropLastOfRuns(bs: seq<seq<real>>): seq<seq<real>>
    requires |bs| > 0
  {
    var init, L := bs[..|bs| - 1], Last(bs);
    if |L| > 1 then init + [L[..|L| - 1]] else init
  }

  /** Every decomposition is the decomposition of its prefix with the last
      residual added back. */
  lemma DecompositionStep(bs: seq<seq<real>>, s: seq<real>)
    requires IsRunDecomposition(bs, s) && |s| > 0
    ensures |bs| > 0
    ensures IsRunDecomposition(DropLastOfRuns(bs), s[..|s| - 1])
    ensures bs == AddResidual(DropLastOfRuns(bs), Last(s))
  {
    DropLastResidual(bs, s);
    if |Last(bs)| > 1 {
      LongLastRunIsExtension(bs, Last(s));
    } else {
      SingletonLastRunIsOpened(bs, Last(s));
    }
  }

  /** A last run of more than one residual is the shortened run extended. */
  lemma LongLastRunIsExtension(bs: seq<seq<real>>, x: real)
    requires |bs| > 0 && |Last(bs)| > 1 && SameSign(Last(bs)) && Last(Last(bs)) == x
    ensures bs == AddResidual(bs[..|bs| - 1] + [Last(bs)[..|Last(bs)| - 1]], x)
  {
    var L := Last(bs);
    var cut := bs[..|bs| - 1] + [L[..|L| - 1]];
    assert cut[..|cut| - 1] == bs[..|bs| - 1];
    assert Last(cut) == L[..|L| - 1];
    assert L == L[..|L| - 1] + [x];
    assert SignValue(L[|L| - 2]) == SignValue(L[0]) == SignValue(x);
    assert bs == bs[..|bs| - 1] + [L];
  }

  /** A last run of the single residual x was opened after the other runs. */
  lemma SingletonLastRunIsOpened(bs: seq<seq<real>>, x: real)
    requires |bs| > 0 && Last(bs) == [x]
    requires forall k :: 0 <= k < |bs| ==> |bs[k]| > 0
    requires Maximal(bs)
    ensures bs == AddResidual(bs[..|bs| - 1], x)
  {
    var init := bs[..|bs| - 1];
    if |init| > 0 {
      var j, k := |bs| - 2, |bs| - 1;
      assert |bs[j]| > 0 && |bs[k]| > 0;
      assert SignValue(Last(bs[j])) != SignValue(bs[k][0]);
      assert Last(init) == bs[j];
    }
    assert bs == init + [[x]];
  }

  /** Every decomposition of s into maximal runs has NumRuns(s) blocks. */
  lemma RunCountOfAnyDecomposition(bs: seq<seq<real>>, s: seq<real>)
    requires IsRunDecomposition(bs, s)
    ensures |bs| == NumRuns(s)
  {
    RunDecompositionUnique(bs, s);
  }

  /** The worked example: [1, 2, -1, -3, 0.5] has three positives and three runs. */
  lemma ExampleCounts()
    ensures CountPositive([1.0, 2.0, -1.0, -3.0, 0.5]) == 3
    ensures NumRuns([1.0, 2.0, -1.0, -3.0, 0.5]) == 3
    ensures CountPositive([0.0]) == 0
  {
    var s1, s2, s3, s4, s5 := [1.0], [1.0, 2.0], [1.0, 2.0, -1.0], [1.0, 2.0, -1.0, -3.0], [1.0, 2.0, -1.0, -3.0, 0.5];
    assert s2[..1] == s1 && s3[..2] == s2 && s4[..3] == s3 && s5[..4] == s4;
    assert CountPositive(s1) == 1 && SignChanges(s1) == 0;
    assert CountPositive(s2) == 2 && SignChanges(s2) == 0;
    assert CountPositive(s3) == 2 && SignChanges(s3) == 1;
    assert CountPositive(s4) == 2 && SignChanges(s4) == 1;
    assert CountPositive(s5) == 3 && SignChanges(s5) == 2;
  }
}
