/** `derangementsCount`: the number of inversions of the image, counted by
    merge-sorting a copy. Values are immutable, so the receiver is unchanged
    by construction. */
module InversionCount {
  import opened Counting
  import opened MergeSort
  import opened Permutations

  /** `derangementsCount()`: runs `mergeSortWithCount` over a copy of the
      image and returns its count. */
  function DerangementsCount(p: Permutation): (r: nat)
    ensures r == Inversions(p.image)
    ensures r <= Pairs(Size(p))
  {
    var sorted := MergeSortWithCount(p.image);
    InversionsBound(p.image);
    sorted.count
  }

  /** The identity has no inversion. */
  lemma IdentityCount(n: nat)
    ensures DerangementsCount(Identity(n)) == 0
  {
    AscendingHasNoInversions(Identity(n).image);
  }

  /** The image `n - 1, ..., 1, 0`: every pair is inverted. */
  function Reversed(n: nat): (r: Permutation)
    ensures Valid(r) && Size(r) == n
    ensures forall i :: 0 <= i < n ==> r.image[i] + i == n - 1
  {
    Permutation(seq(n, i requires 0 <= i < n => n - 1 - i))
  }

  lemma ReversedCount(n: nat)
    ensures DerangementsCount(Reversed(n)) == Pairs(n)
  {
    DescendingHasAllInversions(Reversed(n).image);
  }

  /** On a valid permutation the pairs counted are exactly the strict
      inversions `i < j` with `image[i] > image[j]`: no two values are equal. */
  lemma CountIsStrict(p: Permutation)
    requires Valid(p)
    ensures DerangementsCount(p) == StrictInversions(p.image)
  {
    StrictWhenDistinct(p.image);
  }

  /** Number of pairs `i < j` with `s[i] > s[j]`. */
  function StrictInversions(s: seq<int>): nat {
    if |s| == 0 then 0 else CountBelow(s[1..], s[0]) + StrictInversions(s[1..])
  }

  /** Number of elements of `s` below `x`. */
  function CountBelow(s: seq<int>, x: int): nat {
    if |s| == 0 then 0 else (if s[0] < x then 1 else 0) + CountBelow(s[1..], x)
  }

  lemma {:induction false} StrictWhenDistinct(s: seq<int>)
    requires forall i, j :: 0 <= i < j < |s| ==> s[i] != s[j]
    ensures Inversions(s) == StrictInversions(s)
  {
    if |s| > 0 {
      BelowWhenAbsent(s[1..], s[0]);
      StrictWhenDistinct(s[1..]);
    }
  }

  lemma {:induction false} BelowWhenAbsent(s: seq<int>, x: int)
    requires forall k :: 0 <= k < |s| ==> s[k] != x
    ensures CountAtMost(s, x) == CountBelow(s, x)
  {
    if |s| > 0 {
      BelowWhenAbsent(s[1..], x);
    }
  }
}
