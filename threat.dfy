/** Weighted threat aggregation (HW1_task2.py). Each department carries a list
    of integer threat scores and an importance weight; the aggregated threat is
    the importance-weighted average of the departments' mean scores. The score
    generator draws integers from a half-open range clamped to [0, 90]; only
    the arithmetic of that range is modelled here, not the draw. Arithmetic is
    over exact reals. */
module ThreatAggregation {

  datatype Department = Department(name: string, scores: seq<int>, importance: real)

  /** Every department has at least one score, so its mean is defined. */
  predicate AllScored(ds: seq<Department>) {
    forall i :: 0 <= i < |ds| ==> |ds[i].scores| > 0
  }

  /** Every department has a positive importance. */
  predicate AllImportant(ds: seq<Department>) {
    forall i :: 0 <= i < |ds| ==> ds[i].importance > 0.0
  }

  function Sum(xs: seq<int>): int {
    if |xs| == 0 then 0 else xs[0] + Sum(xs[1..])
  }

  /** `np.mean` of a non-empty list of scores: the value that, counted once
      per score, makes up their sum. */
  function Mean(xs: seq<int>): (r: real)
    requires |xs| > 0
    ensures r * |xs| as real == Sum(xs) as real
  {
    Sum(xs) as real / |xs| as real
  }

  /** `total_weighted_score`: the sum of importance times mean score. */
  function WeightedSum(ds: seq<Department>): real
    requires AllScored(ds)
  {
    if |ds| == 0 then 0.0
    else ds[0].importance * Mean(ds[0].scores) + WeightedSum(ds[1..])
  }

  /** `total_importance`: the sum of the importances. When every importance is
      positive it is positive exactly when there is a department, so the
      division that follows is defined. */
  function TotalImportance(ds: seq<Department>): (r: real)
    ensures AllImportant(ds) ==> (r > 0.0 <==> |ds| > 0)
  {
    if |ds| == 0 then 0.0 else ds[0].importance + TotalImportance(ds[1..])
  }

  /** `calculate_aggregated_threat`. The code divides by the total importance
      and takes the mean of each score list without checking either, so both
      are preconditions here. The result is the weighted mean: weighting it by
      the total importance gives back the weighted sum. */
  function AggregatedThreat(ds: seq<Department>): (r: real)
    requires AllScored(ds) && TotalImportance(ds) != 0.0
    ensures r * TotalImportance(ds) == WeightedSum(ds)
  {
    WeightedSum(ds) / TotalImportance(ds)
  }

  /** Scores in [lo, hi] sum to between n * lo and n * hi. */
  lemma {:induction false} SumBounds(xs: seq<int>, lo: int, hi: int)
    requires forall k :: 0 <= k < |xs| ==> lo <= xs[k] <= hi
    ensures |xs| * lo <= Sum(xs) <= |xs| * hi
  {
    if |xs| > 0 {
      SumBounds(xs[1..], lo, hi);
    }
  }

  /** A quotient by a positive number lies between lo and hi when the dividend
      lies between lo and hi times it. */
  lemma QuotientBounds(a: real, b: real, lo: real, hi: real)
    requires b > 0.0 && lo * b <= a <= hi * b
    ensures lo <= a / b <= hi
  {
    assert (a / b) * b == a;
  }

  /** The mean of scores in [lo, hi] lies in [lo, hi]. */
  lemma MeanBounds(xs: seq<int>, lo: int, hi: int)
    requires |xs| > 0
    requires forall k :: 0 <= k < |xs| ==> lo <= xs[k] <= hi
    ensures lo as real <= Mean(xs) <= hi as real
  {
    SumBounds(xs, lo, hi);
    QuotientBounds(Sum(xs) as real, |xs| as real, lo as real, hi as real);
  }

  /** With positive importances, means of at least lo give a weighted sum of
      at least lo times the total importance. */
  lemma {:induction false} WeightedSumAtLeast(ds: seq<Department>, lo: real)
    requires AllScored(ds) && AllImportant(ds)
    requires forall i :: 0 <= i < |ds| ==> lo <= Mean(ds[i].scores)
    ensures lo * TotalImportance(ds) <= WeightedSum(ds)
  {
    if |ds| > 0 {
      WeightedSumAtLeast(ds[1..], lo);
      AddAtLeast(ds[0].importance, Mean(ds[0].scores), TotalImportance(ds[1..]), WeightedSum(ds[1..]),
                 TotalImportance(ds), WeightedSum(ds), lo);
    }
  }

  /** With positive importances, means of at most hi give a weighted sum of
      at most hi times the total importance. */
  lemma {:induction false} WeightedSumAtMost(ds: seq<Department>, hi: real)
    requires AllScored(ds) && AllImportant(ds)
    requires forall i :: 0 <= i < |ds| ==> Mean(ds[i].scores) <= hi
    ensures WeightedSum(ds) <= hi * TotalImportance(ds)
  {
    if |ds| > 0 {
      WeightedSumAtMost(ds[1..], hi);
      AddAtLeast(ds[0].importance, -Mean(ds[0].scores), TotalImportance(ds[1..]), -WeightedSum(ds[1..]),
                 TotalImportance(ds), -WeightedSum(ds), -hi);
    }
  }

  /** Adding a term w * m with w > 0 and m at least lo to a sum s of at least
      lo times its weight t gives a sum s' of at least lo times the new weight
      t'. */
  lemma AddAtLeast(w: real, m: real, t: real, s: real, t': real, s': real, lo: real)
    requires w > 0.0 && lo <= m && lo * t <= s
    requires t' == w + t && s' == w * m + s
    ensures lo * t' <= s'
  {
    assert lo * w <= w * m;
    assert lo * (w + t) == lo * w + lo * t;
  }

  /** A weighted average lies between the smallest and the largest department
      mean when every importance is positive. */
  lemma {:induction false} AggregatedWithinMeans(ds: seq<Department>, lo: real, hi: real)
    requires |ds| > 0 && AllScored(ds) && AllImportant(ds)
    requires forall i :: 0 <= i < |ds| ==> lo <= Mean(ds[i].scores) <= hi
    ensures TotalImportance(ds) > 0.0
    ensures lo <= AggregatedThreat(ds) <= hi
  {
    WeightedSumAtLeast(ds, lo);
    WeightedSumAtMost(ds, hi);
    QuotientBounds(WeightedSum(ds), TotalImportance(ds), lo, hi);
  }

  /** Scores in [0, 90] and positive importances give an aggregated threat in
      [0, 90], which is what every functional test checks. */
  lemma AggregatedWithinScoreRange(ds: seq<Department>)
    requires |ds| > 0 && AllScored(ds) && AllImportant(ds)
    requires forall i, k :: 0 <= i < |ds| && 0 <= k < |ds[i].scores| ==> 0 <= ds[i].scores[k] <= 90
    ensures TotalImportance(ds) > 0.0
    ensures 0.0 <= AggregatedThreat(ds) <= 90.0
  {
    forall i | 0 <= i < |ds|
      ensures 0.0 <= Mean(ds[i].scores) <= 90.0
    {
      MeanBounds(ds[i].scores, 0, 90);
    }
    AggregatedWithinMeans(ds, 0.0, 90.0);
  }

  /** A single department's aggregated threat is its own mean score. */
  lemma SingleDepartment(d: Department)
    requires |d.scores| > 0 && d.importance != 0.0
    ensures AggregatedThreat([d]) == Mean(d.scores)
  {
    assert [d][1..] == [];
    var m := Mean(d.scores);
    assert WeightedSum([d]) == d.importance * m;
    assert TotalImportance([d]) == d.importance;
    Cancel(d.importance, AggregatedThreat([d]), m);
  }

  /** A non-zero factor cancels from both sides of a product. */
  lemma Cancel(w: real, a: real, b: real)
    requires w != 0.0 && a * w == w * b
    ensures a == b
  {
    assert (a - b) * w == 0.0;
  }

  /** Only the scores and the importances are read; renaming a department
      changes nothing. */
  lemma {:induction false} NamesIrrelevant(ds: seq<Department>, es: seq<Department>)
    requires |ds| == |es| && AllScored(ds)
    requires forall i :: 0 <= i < |ds| ==> ds[i].scores == es[i].scores && ds[i].importance == es[i].importance
    ensures AllScored(es)
    ensures WeightedSum(ds) == WeightedSum(es) && TotalImportance(ds) == TotalImportance(es)
    ensures TotalImportance(ds) != 0.0 ==> AggregatedThreat(ds) == AggregatedThreat(es)
  {
    if |ds| > 0 {
      NamesIrrelevant(ds[1..], es[1..]);
    }
  }

  /** The worked example: means 20 and 50 with importances 3 and 2 give
      (3 * 20 + 2 * 50) / (3 + 2) = 32. */
  lemma TwoDepartmentExample()
    ensures AggregatedThreat([Department("DeptA", [10, 20, 30], 3.0), Department("DeptB", [40, 50, 60], 2.0)])
      == (3.0 * 20.0 + 2.0 * 50.0) / (3.0 + 2.0)
  {
    var a, b := Department("DeptA", [10, 20, 30], 3.0), Department("DeptB", [40, 50, 60], 2.0);
    assert Sum(a.scores) == 60 && Sum(b.scores) == 150;
    assert [a, b][1..] == [b];
  }

  /** The half-open range `[low, high)` handed to the random draw. */
  datatype SampleBounds = SampleBounds(low: int, high: int)

  /** `generate_random_data`'s bounds: mean minus variance, but not below 0,
      up to mean plus variance inclusive, but below 90. */
  function SampleRange(mean: int, variance: int): (r: SampleBounds)
    ensures r.low >= 0 && r.low >= mean - variance && (r.low == 0 || r.low == mean - variance)
    ensures r.high <= 90 && r.high <= mean + variance + 1 && (r.high == 90 || r.high == mean + variance + 1)
  {
    SampleBounds(if mean - variance >= 0 then mean - variance else 0,
                 if mean + variance + 1 <= 90 then mean + variance + 1 else 90)
  }

  /** Any value the draw can return lies in [0, 89] and within the variance
      of the mean. */
  lemma SampleWithinBounds(mean: int, variance: int, v: int)
    requires SampleRange(mean, variance).low <= v < SampleRange(mean, variance).high
    ensures 0 <= v <= 89
    ensures mean - variance <= v <= mean + variance
  {
  }

  /** The range holds at least one value exactly when the variance is
      non-negative and the window [mean - variance, mean + variance] meets
      [0, 89]. */
  lemma SampleRangeNonEmpty(mean: int, variance: int)
    ensures SampleRange(mean, variance).low < SampleRange(mean, variance).high
      <==> variance >= 0 && mean - variance <= 89 && mean + variance >= 0
  {
  }

  /** The generator as written can never draw 90: the exclusive upper bound
      is clamped to 90 rather than to 91. With mean 85 and variance 5 the
      value 90 lies within the variance of the mean and inside [0, 90], yet
      falls outside the range handed to the draw. */
  lemma NinetyNeverDrawn(mean: int, variance: int)
    ensures !(SampleRange(mean, variance).low <= 90 < SampleRange(mean, variance).high)
    ensures 85 - 5 <= 90 <= 85 + 5 && SampleRange(85, 5) == SampleBounds(80, 90)
  {
  }

  /** The range the generator evidently means: every integer within the
      variance of the mean that also lies in [0, 90], both ends included. The
      inclusive upper end is clamped to 90 before the one is added. */
  function IntendedSampleRange(mean: int, variance: int): (r: SampleBounds)
    ensures r.low == SampleRange(mean, variance).low
    ensures r.high <= 91 && r.high <= mean + variance + 1 && (r.high == 91 || r.high == mean + variance + 1)
  {
    SampleBounds(if mean - variance >= 0 then mean - variance else 0,
                 (if mean + variance <= 90 then mean + variance else 90) + 1)
  }

  /** A value can be drawn from the intended range exactly when it lies in
      [0, 90] and within the variance of the mean. */
  lemma IntendedSampleMembership(mean: int, variance: int, v: int)
    ensures IntendedSampleRange(mean, variance).low <= v < IntendedSampleRange(mean, variance).high
      <==> 0 <= v <= 90 && mean - variance <= v <= mean + variance
  {
  }

  /** The two ranges differ in the value 90 only. */
  lemma AsWrittenDiffersOnlyAtNinety(mean: int, variance: int, v: int)
    ensures SampleRange(mean, variance).low <= v < SampleRange(mean, variance).high
      <==> IntendedSampleRange(mean, variance).low <= v < IntendedSampleRange(mean, variance).high && v != 90
  {
  }

  /** Scores every one of which lies in the intended range of
      `generate_random_data(mean, variance, num_samples)`; by
      `AsWrittenDiffersOnlyAtNinety` this includes every draw of the code as
      written. */
  predicate Generated(scores: seq<int>, mean: int, variance: int) {
    forall k :: 0 <= k < |scores| ==>
      IntendedSampleRange(mean, variance).low <= scores[k] < IntendedSampleRange(mean, variance).high
  }

  /** The functional tests: departments whose scores come from the generator
      (with at least one sample each) and whose importances are positive get
      an aggregated threat in [0, 90]. */
  lemma GeneratedScenario(ds: seq<Department>, means: seq<int>, variances: seq<int>)
    requires |ds| > 0 && |means| == |ds| && |variances| == |ds|
    requires AllScored(ds) && AllImportant(ds)
    requires forall i :: 0 <= i < |ds| ==> Generated(ds[i].scores, means[i], variances[i])
    ensures TotalImportance(ds) > 0.0
    ensures 0.0 <= AggregatedThreat(ds) <= 90.0
  {
    forall i, k | 0 <= i < |ds| && 0 <= k < |ds[i].scores|
      ensures 0 <= ds[i].scores[k] <= 90
    {
      IntendedSampleMembership(means[i], variances[i], ds[i].scores[k]);
    }
    AggregatedWithinScoreRange(ds);
  }
}
