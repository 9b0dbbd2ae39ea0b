/** The generic range helpers of the header: exchanging two elements and
    reversing a closed range. Arrays are modelled as sequences, and each helper
    returns the new contents of the range it would have written in place. */
module Helpers {

  /** `swap(left, right)`: exchanges the elements at positions `i` and `j`;
      when both name the same position nothing changes. */
  function Swap<T>(s: seq<T>, i: nat, j: nat): (r: seq<T>)
    requires i < |s| && j < |s|
    ensures |r| == |s|
    ensures r[i] == s[j] && r[j] == s[i]
    ensures forall k :: 0 <= k < |s| && k != i && k != j ==> r[k] == s[k]
    ensures multiset(r) == multiset(s)
  {
    if i != j then s[i := s[j]][j := s[i]] else s
  }

  /** Exchanging the same two positions twice restores the sequence. */
  lemma SwapTwice<T>(s: seq<T>, i: nat, j: nat)
    requires i < |s| && j < |s|
    ensures Swap(Swap(s, i, j), i, j) == s
  {
    var t := Swap(Swap(s, i, j), i, j);
    assert forall k :: 0 <= k < |s| ==> t[k] == s[k];
  }

  /** `reverse(start, stop)`: while `start < stop`, exchanges the two
      elements and moves both ends one step inwards. `hi` is the position of
      the LAST element of the range (the source's `stop` is inclusive). */
  function Reverse<T>(s: seq<T>, lo: nat, hi: int): (r: seq<T>)
    requires lo <= |s| && -1 <= hi < |s|
    ensures |r| == |s|
    ensures forall k :: lo <= k <= hi ==> r[k] == s[lo + hi - k]
    ensures forall k :: 0 <= k < |s| && (k < lo || hi < k) ==> r[k] == s[k]
    ensures multiset(r) == multiset(s)
    decreases hi - lo
  {
    if lo < hi then Reverse(Swap(s, lo, hi), lo + 1, hi - 1) else s
  }

  /** Reversing the same range twice restores the sequence. */
  lemma ReverseTwice<T>(s: seq<T>, lo: nat, hi: int)
    requires lo <= |s| && -1 <= hi < |s|
    ensures Reverse(Reverse(s, lo, hi), lo, hi) == s
  {
    var t := Reverse(Reverse(s, lo, hi), lo, hi);
    assert forall k :: 0 <= k < |s| ==> t[k] == s[k];
  }
}
