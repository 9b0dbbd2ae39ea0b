/** `mergeWithCount` and `mergeSortWithCount`: a merge of two sorted ranges
    that counts cross pairs, and the merge sort built on it that counts the
    pairs `i < j` with `a[i] >= a[j]`. The in-place range and the output
    buffer are modelled as sequences returned to the caller. */
module MergeSort {
  import opened Counting

  /** A rearranged range together with the number of pairs counted while
      producing it. */
  datatype Counted = Counted(items: seq<int>, count: nat)

  /** `mergeWithCount`: merges the sorted ranges `first` and `second`. On a
      tie (`!(first[i] < second[j])`) the element of `second` is taken and the
      elements of `first` not yet consumed are counted, so the count is the
      number of pairs `(a, b)`, `a` from `first`, `b` from `second`, with
      `a >= b`. */
  function MergeWithCount(first: seq<int>, second: seq<int>): (r: Counted)
    requires Sorted(first) && Sorted(second)
    ensures Sorted(r.items)
    ensures multiset(r.items) == multiset(first) + multiset(second)
    ensures r.count == Cross(first, second)
  {
    assert first[0..] == first && second[0..] == second;
    MergeFrom(first, second, 0, 0)
  }

  /** One turn of the merge loop per call: `i` and `j` are the positions of
      the `first` and `second` cursors, and the result is what the loop still
      writes to the buffer and adds to the count from there on. */
  function MergeFrom(first: seq<int>, second: seq<int>, i: nat, j: nat): (r: Counted)
    requires Sorted(first) && Sorted(second)
    requires i <= |first| && j <= |second|
    ensures Sorted(r.items)
    ensures multiset(r.items) == multiset(first[i..]) + multiset(second[j..])
    ensures r.count == Cross(first[i..], second[j..])
    ensures |r.items| > 0 ==>
      (i < |first| && r.items[0] == first[i]) || (j < |second| && r.items[0] == second[j])
    decreases |first| - i + |second| - j
  {
    if i == |first| && j == |second| then
      CrossEmptyLeft(second[j..]);
      Counted([], 0)
    else if j == |second| || (i < |first| && first[i] < second[j]) then
      // `second == secondEnd`, or `*first < *second`: take from `first`
      var rest := MergeFrom(first, second, i + 1, j);
      TakeFirst(first, second, i, j, rest.items);
      Counted([first[i]] + rest.items, rest.count)
    else
      // `first == firstEnd` (where `|first| - i` is 0), or a tie or a smaller
      // element in `second`: take from `second` and count what is left of `first`
      var rest := MergeFrom(first, second, i, j + 1);
      TakeSecond(first, second, i, j, rest.items);
      Counted([second[j]] + rest.items, rest.count + (|first| - i))
  }

  /** Taking `first[i]` in front of `rest`, the merge of what remains, keeps
      the buffer sorted and adds no cross pair: every element of `second[j..]`
      is greater than `first[i]`. */
  lemma TakeFirst(first: seq<int>, second: seq<int>, i: nat, j: nat, rest: seq<int>)
    requires Sorted(first) && Sorted(second)
    requires i < |first| && j <= |second|
    requires j < |second| ==> first[i] < second[j]
    requires Sorted(rest)
    requires multiset(rest) == multiset(first[i + 1..]) + multiset(second[j..])
    requires |rest| > 0 ==>
      (i + 1 < |first| && rest[0] == first[i + 1]) || (j < |second| && rest[0] == second[j])
    ensures Sorted([first[i]] + rest)
    ensures multiset([first[i]] + rest) == multiset(first[i..]) + multiset(second[j..])
    ensures Cross(first[i..], second[j..]) == Cross(first[i + 1..], second[j..])
  {
    assert first[i..] == [first[i]] + first[i + 1..];
    assert multiset([first[i]] + rest) == multiset{first[i]} + multiset(rest);
    assert forall k :: 0 <= k < |second[j..]| ==> first[i] < second[j..][k];
    CountAtMostNone(second[j..], first[i]);
  }

  /** Taking `second[j]` in front of `rest` keeps the buffer sorted and adds
      one cross pair for every element still left in `first`, all of which
      are at least `second[j]`. */
  lemma TakeSecond(first: seq<int>, second: seq<int>, i: nat, j: nat, rest: seq<int>)
    requires Sorted(first) && Sorted(second)
    requires i <= |first| && j < |second|
    requires i < |first| ==> second[j] <= first[i]
    requires Sorted(rest)
    requires multiset(rest) == multiset(first[i..]) + multiset(second[j + 1..])
    requires |rest| > 0 ==>
      (i < |first| && rest[0] == first[i]) || (j + 1 < |second| && rest[0] == second[j + 1])
    ensures Sorted([second[j]] + rest)
    ensures multiset([second[j]] + rest) == multiset(first[i..]) + multiset(second[j..])
    ensures Cross(first[i..], second[j..]) == Cross(first[i..], second[j + 1..]) + (|first| - i)
  {
    assert second[j..] == [second[j]] + second[j + 1..];
    assert multiset([second[j]] + rest) == multiset{second[j]} + multiset(rest);
    CrossAppendRight(first[i..], [second[j]], second[j + 1..]);
    CrossSingleton(first[i..], second[j]);
    assert forall k :: 0 <= k < |first[i..]| ==> second[j] <= first[i..][k];
    CountAtLeastAll(first[i..], second[j]);
  }

  /** `mergeSortWithCount`: sorts `a` by splitting it at `|a| / 2`, sorting
      both halves, and merging them; also returns the number of pairs `i < j`
      with `a[i] >= a[j]` in the ORIGINAL order. Ranges of fewer than two
      elements are left as they are and count nothing. */
  function MergeSortWithCount(a: seq<int>): (r: Counted)
    ensures Sorted(r.items)
    ensures multiset(r.items) == multiset(a)
    ensures r.count == Inversions(a)
    decreases |a|
  {
    if |a| <= 1 then
      Counted(a, 0)
    else
      var middle := |a| / 2;
      var left := MergeSortWithCount(a[..middle]);
      var right := MergeSortWithCount(a[middle..]);
      var merged := MergeWithCount(left.items, right.items);
      MergeSortCount(a, middle, left.items, right.items);
      Counted(merged.items, left.count + right.count + merged.count)
  }

  /** The count of `a` splits into the counts of its halves plus the cross
      pairs, and the cross pairs do not change when each half is sorted. */
  lemma MergeSortCount(a: seq<int>, middle: nat, left: seq<int>, right: seq<int>)
    requires middle <= |a|
    requires multiset(left) == multiset(a[..middle]) && multiset(right) == multiset(a[middle..])
    ensures Inversions(a) == Inversions(a[..middle]) + Inversions(a[middle..]) + Cross(left, right)
    ensures multiset(a) == multiset(left) + multiset(right)
  {
    assert a == a[..middle] + a[middle..];
    InversionsAppend(a[..middle], a[middle..]);
    CrossPermLeft(a[..middle], left, a[middle..]);
    CrossPermRight(left, a[middle..], right);
  }
}
