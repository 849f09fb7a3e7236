/** Length of the longest continuous strictly increasing run of a list
    (HW1_task1-1.py, `Solution.findLengthOfLCIS`). One left-to-right scan keeps
    the length of the run that ends at the previous index and the best length
    among the runs that have already ended. */
module LongestIncreasingRun {

  function Max(a: int, b: int): int {
    if a >= b then a else b
  }

  /** `s[lo..hi]` is strictly increasing: every neighbour is larger than the
      one before it. Windows of length 0 and 1 qualify. */
  predicate IncreasingWindow(s: seq<int>, lo: nat, hi: nat)
    requires lo <= hi <= |s|
  {
    forall k :: lo <= k < hi - 1 ==> s[k] < s[k + 1]
  }

  /** The length of the strictly increasing run that ends at index i. A run is
      broken by a neighbour that is smaller or equal, since the comparison is
      strict. */
  function RunEndingAt(s: seq<int>, i: nat): (r: nat)
    requires i < |s|
    ensures 1 <= r <= i + 1
  {
    if i == 0 || s[i - 1] >= s[i] then 1 else RunEndingAt(s, i - 1) + 1
  }

  /** The longest run that ends before index j; 0 when j is 0. */
  function BestBefore(s: seq<int>, j: nat): (r: nat)
    requires j <= |s|
    ensures r <= j
    ensures r == 0 <==> j == 0
  {
    if j == 0 then 0 else Max(BestBefore(s, j - 1), RunEndingAt(s, j - 1))
  }

  /** The value `findLengthOfLCIS` promises: the longest run anywhere in `s`.
      An empty list gives 0; any other list gives between 1 and its length. */
  function LongestRun(s: seq<int>): (r: nat)
    ensures r == 0 <==> |s| == 0
    ensures r <= |s|
  {
    BestBefore(s, |s|)
  }

  /** The run ending at i is the longest increasing window ending there: a
      window `s[lo..i + 1]` is increasing exactly when it is no longer than that
      run. */
  lemma {:induction false} RunEndingAtWindow(s: seq<int>, i: nat, lo: nat)
    requires lo <= i < |s|
    ensures IncreasingWindow(s, lo, i + 1) <==> i + 1 - lo <= RunEndingAt(s, i)
    decreases i
  {
    if lo < i {
      RunEndingAtWindow(s, i - 1, lo);
      assert IncreasingWindow(s, lo, i + 1) <==> IncreasingWindow(s, lo, i) && s[i - 1] < s[i];
    }
  }

  /** Inside the run that ends at i, the run ending at each earlier index k
      counts from the same start. */
  lemma {:induction false} RunInside(s: seq<int>, i: nat, k: nat)
    requires k <= i < |s| && i + 1 - RunEndingAt(s, i) <= k
    ensures RunEndingAt(s, k) == RunEndingAt(s, i) - (i - k)
    decreases i - k
  {
    if k < i {
      RunInside(s, i - 1, k);
    }
  }

  /** The runs ending inside the current run are no longer than it, so the best
      before j is the best among runs that ended before it started, or the
      current run itself. */
  lemma {:induction false} BestBeforeSplit(s: seq<int>, i: nat, j: nat)
    requires 0 < i <= |s| && i - RunEndingAt(s, i - 1) <= j <= i
    ensures BestBefore(s, j) == Max(BestBefore(s, i - RunEndingAt(s, i - 1)), j - (i - RunEndingAt(s, i - 1)))
    decreases j
  {
    var start := i - RunEndingAt(s, i - 1);
    if j > start {
      BestBeforeSplit(s, i, j - 1);
      RunInside(s, i - 1, j - 1);
    }
  }

  /** Every increasing window that ends at or before j is no longer than
      `BestBefore(s, j)`, and one of them has exactly that length. */
  lemma {:induction false} BestBeforeWindow(s: seq<int>, j: nat)
    requires j <= |s|
    ensures forall lo, hi :: 0 <= lo <= hi <= j && IncreasingWindow(s, lo, hi) ==> hi - lo <= BestBefore(s, j)
    ensures exists lo, hi :: 0 <= lo <= hi <= j && IncreasingWindow(s, lo, hi) && hi - lo == BestBefore(s, j)
    decreases j
  {
    if j == 0 {
      assert IncreasingWindow(s, 0, 0);
    } else {
      BestBeforeWindow(s, j - 1);
      var c := RunEndingAt(s, j - 1);
      forall lo, hi | 0 <= lo <= hi <= j && IncreasingWindow(s, lo, hi)
        ensures hi - lo <= BestBefore(s, j)
      {
        if lo < hi == j {
          RunEndingAtWindow(s, j - 1, lo);
        }
      }
      if BestBefore(s, j) != BestBefore(s, j - 1) {
        RunEndingAtWindow(s, j - 1, j - c);
        assert IncreasingWindow(s, j - c, j);
      }
    }
  }

  /** The result is the length of the longest strictly increasing window of
      `s`: some window has that length and none is longer. */
  lemma LongestRunIsLongestWindow(s: seq<int>)
    ensures forall lo, hi :: 0 <= lo <= hi <= |s| && IncreasingWindow(s, lo, hi) ==> hi - lo <= LongestRun(s)
    ensures exists lo, hi :: 0 <= lo <= hi <= |s| && IncreasingWindow(s, lo, hi) && hi - lo == LongestRun(s)
  {
    BestBeforeWindow(s, |s|);
  }

  /** A strictly increasing list of length k gives k: the run that reaches the
      last element counts. */
  lemma StrictlyIncreasingGivesLength(s: seq<int>)
    requires forall k :: 0 <= k < |s| - 1 ==> s[k] < s[k + 1]
    ensures LongestRun(s) == |s|
  {
    LongestRunIsLongestWindow(s);
    assert IncreasingWindow(s, 0, |s|);
  }

  /** Equal neighbours break a run: a non-empty list of equal elements gives 1. */
  lemma AllEqualGivesOne(s: seq<int>)
    requires |s| > 0
    requires forall k :: 0 <= k < |s| ==> s[k] == s[0]
    ensures LongestRun(s) == 1
  {
    LongestRunIsLongestWindow(s);
    forall lo, hi | 0 <= lo && lo + 2 <= hi <= |s|
      ensures !IncreasingWindow(s, lo, hi)
    {
      assert s[lo] == s[lo + 1];
    }
  }

  /** The scan. `current` is the run that ends at index i - 1 and `longest`
      the best among the runs that ended before it began (1 while none has);
      the final `max` brings in the run that reaches the last element. */
  method FindLengthOfLcis(nums: seq<int>) returns (r: int)
    ensures r == LongestRun(nums)
  {
    if |nums| == 0 {
      return 0;
    }
    var longest := 1;
    var current := 1;
    for i := 1 to |nums|
      invariant current == RunEndingAt(nums, i - 1)
      invariant longest == Max(1, BestBefore(nums, i - current))
    {
      if nums[i] > nums[i - 1] {
        current := current + 1;
      } else {
        BestBeforeSplit(nums, i, i);
        longest := Max(longest, current);
        current := 1;
      }
    }
    BestBeforeSplit(nums, |nums|, |nums|);
    return Max(longest, current);
  }
}
