/** In-place merge of two sorted integer arrays (HW_task1-2.py, `Solution.merge`).
    `nums1` holds m live elements followed by room for n more; `nums2` holds n
    elements. Three indices walk backwards and the larger candidate is written
    to the tail of `nums1`; whatever is left of `nums2` is then copied to the
    front in one slice assignment. */
module MergeSorted {

  predicate Sorted(s: seq<int>) {
    forall i, j :: 0 <= i < j < |s| ==> s[i] <= s[j]
  }

  /** What the reverse merge builds from `xs[..i]` and `ys[..j]`, with i and j
      playing the parts of p1 + 1 and p2 + 1: the last slot receives the larger
      of `xs[i - 1]` and `ys[j - 1]`, and on a tie the element of `ys` (the
      `else` branch taken when `nums1[p1] > nums2[p2]` fails). Once either side
      is used up, the other one is what remains. */
  function MergedUpTo(xs: seq<int>, ys: seq<int>, i: nat, j: nat): (r: seq<int>)
    requires i <= |xs| && j <= |ys|
    ensures |r| == i + j
    decreases i + j
  {
    if i == 0 then ys[..j]
    else if j == 0 then xs[..i]
    else if xs[i - 1] > ys[j - 1] then MergedUpTo(xs, ys, i - 1, j) + [xs[i - 1]]
    else MergedUpTo(xs, ys, i, j - 1) + [ys[j - 1]]
  }

  /** The whole merge of `xs` and `ys`; it fills exactly |xs| + |ys| slots. */
  function Merged(xs: seq<int>, ys: seq<int>): (r: seq<int>)
    ensures |r| == |xs| + |ys|
  {
    MergedUpTo(xs, ys, |xs|, |ys|)
  }

  /** The partial merge is a permutation of the two prefixes, sorted or not. */
  lemma {:induction false} MergedUpToPermutation(xs: seq<int>, ys: seq<int>, i: nat, j: nat)
    requires i <= |xs| && j <= |ys|
    ensures multiset(MergedUpTo(xs, ys, i, j)) == multiset(xs[..i]) + multiset(ys[..j])
    decreases i + j
  {
    if i == 0 || j == 0 {
      EmptyPrefix(xs, i);
      EmptyPrefix(ys, j);
    } else if xs[i - 1] > ys[j - 1] {
      MergedUpToPermutation(xs, ys, i - 1, j);
      AppendLast(xs, i, multiset(ys[..j]), MergedUpTo(xs, ys, i - 1, j), MergedUpTo(xs, ys, i, j));
    } else {
      MergedUpToPermutation(xs, ys, i, j - 1);
      AppendLast(ys, j, multiset(xs[..i]), MergedUpTo(xs, ys, i, j - 1), MergedUpTo(xs, ys, i, j));
    }
  }

  lemma EmptyPrefix(s: seq<int>, k: nat)
    requires k <= |s|
    ensures k == 0 ==> multiset(s[..k]) == multiset{}
  {
  }

  /** Moving the last element of `s[..k]` onto the end of a sequence that holds
      `s[..k - 1]` and `other` keeps it holding `s[..k]` and `other`. */
  lemma AppendLast(s: seq<int>, k: nat, other: multiset<int>, rest: seq<int>, whole: seq<int>)
    requires 0 < k <= |s|
    requires multiset(rest) == multiset(s[..k - 1]) + other
    requires whole == rest + [s[k - 1]]
    ensures multiset(whole) == multiset(s[..k]) + other
  {
    assert s[..k] == s[..k - 1] + [s[k - 1]];
  }

  /** The merge is a permutation of its two inputs: nothing is lost, duplicated
      or invented, whether or not the inputs are sorted. */
  lemma MergedPermutation(xs: seq<int>, ys: seq<int>)
    ensures multiset(Merged(xs, ys)) == multiset(xs) + multiset(ys)
  {
    MergedUpToPermutation(xs, ys, |xs|, |ys|);
    assert xs[..|xs|] == xs && ys[..|ys|] == ys;
  }

  /** A bound on both prefixes bounds the partial merge. */
  lemma MergedUpToBounded(xs: seq<int>, ys: seq<int>, i: nat, j: nat, b: int)
    requires i <= |xs| && j <= |ys|
    requires forall k :: 0 <= k < i ==> xs[k] <= b
    requires forall k :: 0 <= k < j ==> ys[k] <= b
    ensures forall k :: 0 <= k < |MergedUpTo(xs, ys, i, j)| ==> MergedUpTo(xs, ys, i, j)[k] <= b
  {
    var r := MergedUpTo(xs, ys, i, j);
    MergedUpToPermutation(xs, ys, i, j);
    forall k | 0 <= k < |r|
      ensures r[k] <= b
    {
      assert r[k] in multiset(r);
      if r[k] in xs[..i] {
        var t :| 0 <= t < i && xs[..i][t] == r[k];
      } else {
        assert r[k] in multiset(ys[..j]);
        var t :| 0 <= t < j && ys[..j][t] == r[k];
      }
    }
  }

  lemma SortedAppend(s: seq<int>, x: int)
    requires Sorted(s)
    requires forall k :: 0 <= k < |s| ==> s[k] <= x
    ensures Sorted(s + [x])
  {
  }

  /** Sorted inputs give a sorted partial merge. */
  lemma {:induction false} MergedUpToSorted(xs: seq<int>, ys: seq<int>, i: nat, j: nat)
    requires i <= |xs| && j <= |ys|
    requires Sorted(xs) && Sorted(ys)
    ensures Sorted(MergedUpTo(xs, ys, i, j))
    decreases i + j
  {
    if i == 0 || j == 0 {
    } else if xs[i - 1] > ys[j - 1] {
      MergedUpToSorted(xs, ys, i - 1, j);
      MergedUpToBounded(xs, ys, i - 1, j, xs[i - 1]);
      SortedAppend(MergedUpTo(xs, ys, i - 1, j), xs[i - 1]);
    } else {
      MergedUpToSorted(xs, ys, i, j - 1);
      MergedUpToBounded(xs, ys, i, j - 1, ys[j - 1]);
      SortedAppend(MergedUpTo(xs, ys, i, j - 1), ys[j - 1]);
    }
  }

  /** Two sorted inputs give a sorted merge. */
  lemma MergedSorted(xs: seq<int>, ys: seq<int>)
    requires Sorted(xs) && Sorted(ys)
    ensures Sorted(Merged(xs, ys))
  {
    MergedUpToSorted(xs, ys, |xs|, |ys|);
  }

  /** Merging with nothing: with n == 0 nums1 keeps its m elements, and with
      m == 0 the result is nums2's n elements. */
  lemma MergedWithEmpty(xs: seq<int>, ys: seq<int>)
    ensures Merged(xs, []) == xs
    ensures Merged([], ys) == ys
  {
    assert xs[..|xs|] == xs && ys[..|ys|] == ys;
  }

  /** The pairs (i, j) = (p1 + 1, p2 + 1) the loop passes through: it starts
      at (|xs|, |ys|) and, while both are positive, steps down in `xs` when
      `xs[i - 1] > ys[j - 1]` and in `ys` otherwise. */
  ghost predicate OnPath(xs: seq<int>, ys: seq<int>, i: nat, j: nat)
    requires i <= |xs| && j <= |ys|
    decreases |xs| - i + |ys| - j
  {
    (i == |xs| && j == |ys|)
    || (i < |xs| && 0 < j && xs[i] > ys[j - 1] && OnPath(xs, ys, i + 1, j))
    || (0 < i && j < |ys| && xs[i - 1] <= ys[j] && OnPath(xs, ys, i, j + 1))
  }

  /** On the path, what is still to be merged is exactly the front of the
      whole merge, so the slots from i + j on already hold their final values. */
  lemma {:induction false} OnPathPrefix(xs: seq<int>, ys: seq<int>, i: nat, j: nat)
    requires i <= |xs| && j <= |ys| && OnPath(xs, ys, i, j)
    ensures MergedUpTo(xs, ys, i, j) == Merged(xs, ys)[..i + j]
    decreases |xs| - i + |ys| - j
  {
    if i == |xs| && j == |ys| {
    } else if i < |xs| && 0 < j && xs[i] > ys[j - 1] && OnPath(xs, ys, i + 1, j) {
      OnPathPrefix(xs, ys, i + 1, j);
      var front := Merged(xs, ys)[..i + 1 + j];
      assert Merged(xs, ys)[..i + j] == front[..i + j];
    } else {
      OnPathPrefix(xs, ys, i, j + 1);
      var front := Merged(xs, ys)[..i + j + 1];
      assert Merged(xs, ys)[..i + j] == front[..i + j];
    }
  }

  /** One iteration of the loop, on the specification side: at a point of the
      path where both sides are non-empty, slot i + j - 1 of the merge receives
      the larger last candidate, the one of `ys` on a tie. */
  lemma OnPathStep(xs: seq<int>, ys: seq<int>, i: nat, j: nat)
    requires 0 < i <= |xs| && 0 < j <= |ys| && OnPath(xs, ys, i, j)
    ensures i + j <= |Merged(xs, ys)|
    ensures Merged(xs, ys)[i + j - 1] == if xs[i - 1] > ys[j - 1] then xs[i - 1] else ys[j - 1]
  {
    OnPathPrefix(xs, ys, i, j);
    var front := Merged(xs, ys)[..i + j];
    assert Merged(xs, ys)[i + j - 1] == front[i + j - 1];
  }

  /** The path ends where one side is used up. If `ys` ran out, the front of
      the merge is the unread prefix of `xs`, which is already in place and the
      slice copy is empty; if `xs` ran out, it is exactly `ys[..j]`, which the
      slice copy puts in front. */
  lemma OnPathExit(xs: seq<int>, ys: seq<int>, i: nat, j: nat)
    requires i <= |xs| && j <= |ys| && (i == 0 || j == 0) && OnPath(xs, ys, i, j)
    ensures i + j <= |Merged(xs, ys)|
    ensures j == 0 ==> forall k :: 0 <= k < i ==> Merged(xs, ys)[k] == xs[k]
    ensures i == 0 ==> forall k :: 0 <= k < j ==> Merged(xs, ys)[k] == ys[k]
  {
    OnPathPrefix(xs, ys, i, j);
    var front := Merged(xs, ys)[..i + j];
    assert forall k :: 0 <= k < i + j ==> Merged(xs, ys)[k] == front[k];
  }

  /** Python's slice assignment `dst[:k] = src[:k]`: one parallel copy of the
      first k elements of `src` over the first k of `dst`. */
  method AssignSlice(dst: array<int>, src: array<int>, k: int)
    requires 0 <= k <= dst.Length && k <= src.Length && dst != src
    modifies dst
    ensures forall t :: 0 <= t < k ==> dst[t] == src[t]
    ensures forall t :: k <= t < dst.Length ==> dst[t] == old(dst[t])
  {
    forall t | 0 <= t < k {
      dst[t] := src[t];
    }
  }

  /** The in-place merge. `nums1[..m]` and `nums2[..n]` are the two inputs;
      afterwards `nums1[..m + n]` is their merge, and `nums2` and every slot of
      `nums1` from m + n on are untouched. */
  method Merge(nums1: array<int>, m: int, nums2: array<int>, n: int)
    requires 0 <= m && 0 <= n && m + n <= nums1.Length && n <= nums2.Length
    requires nums1 != nums2
    modifies nums1
    ensures nums1[..m + n] == Merged(old(nums1[..m]), nums2[..n])
    ensures nums1[m + n..] == old(nums1[m + n..])
  {
    ghost var xs, ys := nums1[..m], nums2[..n];
    ghost var whole := Merged(xs, ys);
    var p1, p2, p := m - 1, n - 1, m + n - 1;
    while p1 >= 0 && p2 >= 0
      invariant -1 <= p1 < m && -1 <= p2 < n && p == p1 + p2 + 1
      // the part of nums1 still to be read is the input: no write has landed on
      // it, since p == p1 + p2 + 1 > p1 while p2 >= 0
      invariant forall k :: 0 <= k <= p1 ==> nums1[k] == xs[k]
      invariant OnPath(xs, ys, p1 + 1, p2 + 1)
      // the slots already written hold their final values
      invariant forall k :: p < k < m + n ==> nums1[k] == whole[k]
      invariant forall k :: m + n <= k < nums1.Length ==> nums1[k] == old(nums1[k])
      decreases p1 + p2
    {
      OnPathStep(xs, ys, p1 + 1, p2 + 1);
      if nums1[p1] > nums2[p2] {
        nums1[p] := nums1[p1];
        p1 := p1 - 1;
      } else {
        nums1[p] := nums2[p2];
        p2 := p2 - 1;
      }
      p := p - 1;
    }
    OnPathExit(xs, ys, p1 + 1, p2 + 1);
    AssignSlice(nums1, nums2, p2 + 1);
  }
}
