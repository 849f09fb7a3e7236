# Homework algorithms, modelled and proved in Dafny

This project models three small computations from a Python homework
repository and proves what each one computes.

- **In-place merge** (`Solution.merge`, `merge.dfy`, module `MergeSorted`).
  `nums1` holds m live values followed by n free slots, and `nums2` holds n
  values. Three indices walk backwards, and the larger of `nums1[p1]` and
  `nums2[p2]` goes to `nums1[p]`; on a tie the value from `nums2` goes. A slice
  assignment then copies whatever is left of `nums2` to the front. `Merge` is
  a method on `array<int>` with the original loop, proved against the pure
  function `Merged`. `Merged` itself is proved to be:
  - the right length;
  - a permutation of its inputs;
  - sorted when its inputs are sorted.

  The ghost predicate `OnPath` describes the index pairs the loop visits.
  Through `OnPathStep` it feeds the loop invariant that the slots already
  written, `nums1[p + 1..m + n]`, hold their final values. A second invariant says that `nums1[..p1 + 1]`, the part still to be
  read, still holds the input. It is preserved because a write goes to
  `p == p1 + p2 + 1`, and `p2 >= 0` inside the loop puts `p` above `p1`. So no
  write lands on an unread value.
- **Longest continuous increasing run** (`Solution.findLengthOfLCIS`,
  `lcis.dfy`, module `LongestIncreasingRun`). `FindLengthOfLcis` keeps the
  original scan with its `current` and `longest` counters. It is proved equal
  to `LongestRun`, which is built from the runs ending at each index. The
  lemmas show that `LongestRun` is the length of the longest strictly
  increasing window: one window has that length and none is longer.
- **Weighted threat aggregation** (`calculate_aggregated_threat` and the
  range arithmetic of `generate_random_data`, `threat.dfy`, module
  `ThreatAggregation`). Both sums and the division are over exact reals. The
  lemmas prove that the result is a weighted average. It lies between the
  smallest and the largest department mean, and in [0, 90] when the scores
  do. The sampling range `[max(mean - variance, 0), min(mean + variance + 1, 90))`
  is modelled as integer arithmetic.

The edge cases of the merge follow from `Merge`'s postcondition together with
`MergedWithEmpty`:
- with n = 0, `nums1[..m]` is unchanged;
- with m = 0, `nums1[..n]` becomes `nums2[..n]`.

## Model

| member | source | states |
|---|---|---|
| MergeSorted.Merge | HW_task1-2.py:2-17 | afterwards `nums1[..m+n]` is the merge of the old `nums1[..m]` and `nums2[..n]`; every slot of `nums1` from m+n on is unchanged; only `nums1` is written; the loop ends because p1 + p2 decreases |
| MergeSorted.AssignSlice | HW_task1-2.py:17 | the slice assignment puts `src[..k]` over `dst[..k]` and leaves the rest of `dst` as it was |
| MergeSorted.MergedUpTo | HW_task1-2.py:7-17 | what the reverse merge builds from `xs[..i]` and `ys[..j]`: the last slot gets the larger last candidate, the one of `ys` on a tie, and once one side is used up the rest is the other side; it has exactly i + j elements |
| MergeSorted.Merged | HW_task1-2.py:4-17 | the whole merge of `nums1[..m]` and `nums2[..n]`, the value `Merge` leaves in `nums1[..m+n]`; it fills exactly m + n slots |
| MergeSorted.MergedUpToPermutation | HW_task1-2.py:7-14 | the part merged from `xs[..i]` and `ys[..j]` has exactly their elements, sorted or not |
| MergeSorted.MergedPermutation | HW_task1-2.py:7-17 | the multiset of the merge is the multiset of `nums1[..m]` plus that of `nums2[..n]` |
| MergeSorted.MergedUpToBounded | HW_task1-2.py:7-14 | a bound on every element of both prefixes bounds every element of their partial merge; when both inputs are sorted, as in `MergedUpToSorted`, this makes each value placed at least every value still unplaced |
| MergeSorted.MergedUpToSorted | HW_task1-2.py:7-14 | sorted inputs give a sorted partial merge |
| MergeSorted.MergedSorted | HW_task1-2.py:4-17 | sorted `nums1[..m]` and `nums2[..n]` give a sorted merge |
| MergeSorted.MergedWithEmpty | HW_task1-2.py:4-17 | merging with an empty `nums2` gives `nums1[..m]`, and merging into an empty `nums1` gives `nums2[..n]` |
| MergeSorted.OnPathPrefix | HW_task1-2.py:7-14 | at every pair (p1 + 1, p2 + 1) the loop reaches, what is still to be merged is exactly the front of the final merge |
| MergeSorted.OnPathStep | HW_task1-2.py:8-13 | while both sides are non-empty, slot p of the merge gets the larger of `nums1[p1]` and `nums2[p2]`, and the `nums2` value on a tie |
| MergeSorted.OnPathExit | HW_task1-2.py:7-17 | when `nums2` runs out, the unread prefix of `nums1` is already in place and the slice copy is empty; when `nums1` runs out, the front of the merge is exactly `nums2[..p2+1]` |
| LongestIncreasingRun.FindLengthOfLcis | HW1_task1-1.py:2-21 | the scan returns `LongestRun(nums)`, which is 0 for an empty list; `current` is the run ending at i - 1, and `longest` is the best run that ended before it began |
| LongestIncreasingRun.RunEndingAt | HW1_task1-1.py:14-18 | the run ending at index i has length between 1 and i + 1 |
| LongestIncreasingRun.BestBefore | HW1_task1-1.py:10-18 | the best run ending before j is at most j, and 0 exactly when j is 0 |
| LongestIncreasingRun.RunEndingAtWindow | HW1_task1-1.py:14-15 | a window ending at i is strictly increasing if and only if it is no longer than the run ending at i |
| LongestIncreasingRun.RunInside | HW1_task1-1.py:14-15 | inside the run ending at i, the run ending at an earlier index counts from the same start |
| LongestIncreasingRun.BestBeforeSplit | HW1_task1-1.py:16-21 | the best run so far is the larger of the best run that ended before the current one began and the current run, which justifies `max(longest, current_length)` on a break and at the end |
| LongestIncreasingRun.BestBeforeWindow | HW1_task1-1.py:13-21 | every increasing window ending by j is no longer than the best run before j, and one has exactly that length |
| LongestIncreasingRun.LongestRunIsLongestWindow | HW1_task1-1.py:13-21 | the result is the length of a strictly increasing window, and no strictly increasing window is longer |
| LongestIncreasingRun.LongestRun | HW1_task1-1.py:2-21 | the longest run anywhere in the list, the value the scan returns; it is 0 exactly for an empty list and otherwise between 1 and the list's length |
| LongestIncreasingRun.StrictlyIncreasingGivesLength | HW1_task1-1.py:13-21 | a strictly increasing list of length k gives k, so the final `max` counts the run that reaches the last element |
| LongestIncreasingRun.AllEqualGivesOne | HW1_task1-1.py:14-18 | equal neighbours break a run, so a non-empty list of equal values gives 1 |
| ThreatAggregation.Mean | HW1_task2.py:11 | `np.mean` of a non-empty score list over exact reals: the mean times the number of scores is their sum |
| ThreatAggregation.WeightedSum | HW1_task2.py:11 | `total_weighted_score`, the sum of importance times mean score over the departments; `WeightedSumAtLeast` and `WeightedSumAtMost` bound it |
| ThreatAggregation.AggregatedThreat | HW1_task2.py:9-13 | `calculate_aggregated_threat`: the weighted sum divided by the total importance, defined when every score list is non-empty and the total is not 0; times the total importance it gives back the weighted sum |
| ThreatAggregation.MeanBounds | HW1_task2.py:11 | the mean of scores in [lo, hi] lies in [lo, hi] |
| ThreatAggregation.WeightedSumAtLeast | HW1_task2.py:11-12 | with positive importances and every mean at least lo, the weighted sum is at least lo times the total importance |
| ThreatAggregation.WeightedSumAtMost | HW1_task2.py:11-12 | with positive importances and every mean at most hi, the weighted sum is at most hi times the total importance |
| ThreatAggregation.TotalImportance | HW1_task2.py:12 | `total_importance`, the sum of the importances; when every importance is positive it is positive exactly when the list is non-empty, so line 13 does not divide by zero |
| ThreatAggregation.AggregatedWithinMeans | HW1_task2.py:9-13 | with positive importances, the aggregated threat lies between the smallest and the largest department mean |
| ThreatAggregation.AggregatedWithinScoreRange | HW1_task2.py:9-13 | with positive importances and all scores in [0, 90], the aggregated threat lies in [0, 90] |
| ThreatAggregation.SingleDepartment | HW1_task2.py:11-13 | a single department's aggregated threat is its own mean score |
| ThreatAggregation.NamesIrrelevant | HW1_task2.py:11-13 | departments that differ only in their names give the same sums and, when the total importance is not 0, the same aggregated threat |
| ThreatAggregation.TwoDepartmentExample | HW1_task2.py:30-37 | the departments of the unit test give (3 * 20 + 2 * 50) / (3 + 2) |
| ThreatAggregation.SampleRange | HW1_task2.py:7 | the lower bound is at least 0 and at least mean - variance and equals one of them; the exclusive upper bound is at most 90 and at most mean + variance + 1 and equals one of them |
| ThreatAggregation.SampleWithinBounds | HW1_task2.py:5-7 | any value in the range lies in [0, 89] and within the variance of the mean |
| ThreatAggregation.SampleRangeNonEmpty | HW1_task2.py:7 | the range holds a value if and only if the variance is non-negative and [mean - variance, mean + variance] meets [0, 89] |
| ThreatAggregation.NinetyNeverDrawn | HW1_task2.py:7 | the range as written never contains 90, although with mean 85 and variance 5 the value 90 is within the variance of the mean |
| ThreatAggregation.IntendedSampleRange | HW1_task2.py:5-7 | the corrected range has the same lower bound, and an exclusive upper bound of at most 91 and at most mean + variance + 1, equal to one of them |
| ThreatAggregation.IntendedSampleMembership | HW1_task2.py:5-7 | a value is in the corrected range if and only if it lies in [0, 90] and within the variance of the mean |
| ThreatAggregation.AsWrittenDiffersOnlyAtNinety | HW1_task2.py:7 | a value is in the range as written if and only if it is in the corrected range and is not 90 |
| ThreatAggregation.GeneratedScenario | HW1_task2.py:41-111 | departments with at least one generated score each and positive importances get an aggregated threat in [0, 90], as every functional test checks |

## Left out

- `HW_task3.py` is not part of this model. It is floating-point trigonometry, and its tests compare only approximately.
- The random draw `np.random.randint` is left out: it is nondeterministic and lives in a foreign library. Only the bounds handed to it are modelled. So is the length of the returned array, which the test at `HW1_task2.py:26` checks.
- `numpy` floating point is not modelled; sums, means and the division are over exact reals. `AggregatedThreat` requires a non-zero total importance and a non-empty score list for every department. What the code does in the cases it excludes:
  - An empty department list makes both sums the Python int 0, and `0 / 0` raises `ZeroDivisionError`.
  - A non-empty list whose importances sum to 0 divides a numpy float by 0. This gives `inf` or `nan` with a warning.
  - An empty score list makes `np.mean` return `nan` with a warning.
- `TwoDepartmentExample` follows the test at `HW1_task2.py:36`: (3 * 20 + 2 * 50) / 5 = 32.
- Scores are integers, as the generator produces and the tests use; lists of float scores are not modelled.
- `Merge` requires `nums1` and `nums2` to be different arrays. Calling the Python method with the same list twice is not modelled.
- `Merge` requires `m + n <= len(nums1)` and `n <= len(nums2)`. The code trusts its caller on these; what Python would do otherwise (an `IndexError`, or negative indices wrapping around) is not modelled.
- The `Solution` classes hold no state. Their methods are modelled as module-level members.
- The `unittest` classes and the `__main__` runner are test harness. They serve only as evidence for `TwoDepartmentExample` and `GeneratedScenario`.
- The scan's input is a `seq`, which no member can change. This matches the source, which only reads the list.

## Findings

| source | as written | input that shows it | evidently intended | confidence | as-written member | corrected member |
|---|---|---|---|---|---|---|
| HW1_task2.py:7 | The exclusive upper bound `min(mean + variance + 1, 90)` is clamped to 90, so 90 can never be drawn. | mean 85, variance 5, as in the test at HW1_task2.py:105: the range is [80, 90), although 90 is within the variance of the mean and the docstring promises scores in [0, 90] | every integer in [max(mean - variance, 0), min(mean + variance, 90)] can be drawn, with exclusive bound `min(mean + variance, 90) + 1` | medium, not executed | ThreatAggregation.NinetyNeverDrawn | ThreatAggregation.IntendedSampleRange |

`Generated`, and with it `GeneratedScenario`, uses the corrected range.
`AsWrittenDiffersOnlyAtNinety` shows that every draw from the code as written
also lies in the corrected range.
