/** Reference definitions for what the merge helpers count: elements on one
    side of a threshold, cross pairs between two ranges, and pairs `i < j` of
    one range with `s[i] >= s[j]`. Each count is a plain recursion over the
    sequence, independent of any sorting, so that the merge-based counters can
    be proved against it. */
module Counting {

  predicate Sorted(s: seq<int>) {
    forall i, j :: 0 <= i < j < |s| ==> s[i] <= s[j]
  }

  /** Number of elements of `s` that are at most `x`. */
  function CountAtMost(s: seq<int>, x: int): nat {
    if |s| == 0 then 0 else (if s[0] <= x then 1 else 0) + CountAtMost(s[1..], x)
  }

  /** Number of elements of `s` that are at least `x`. */
  function CountAtLeast(s: seq<int>, x: int): nat {
    if |s| == 0 then 0 else (if s[0] >= x then 1 else 0) + CountAtLeast(s[1..], x)
  }

  /** Number of pairs `(a, b)` with `a` from `left`, `b` from `right` and `a >= b`. */
  function Cross(left: seq<int>, right: seq<int>): nat {
    if |left| == 0 then 0 else CountAtMost(right, left[0]) + Cross(left[1..], right)
  }

  /** Number of pairs `i < j` with `s[i] >= s[j]`. On a sequence of distinct
      values these are exactly its inversions. */
  function Inversions(s: seq<int>): nat {
    if |s| == 0 then 0 else CountAtMost(s[1..], s[0]) + Inversions(s[1..])
  }

  lemma {:induction false} CountAtMostAppend(a: seq<int>, b: seq<int>, x: int)
    ensures CountAtMost(a + b, x) == CountAtMost(a, x) + CountAtMost(b, x)
  {
    if |a| > 0 {
      assert (a + b)[1..] == a[1..] + b;
      CountAtMostAppend(a[1..], b, x);
    } else {
      assert a + b == b;
    }
  }

  lemma {:induction false} CountAtLeastAppend(a: seq<int>, b: seq<int>, x: int)
    ensures CountAtLeast(a + b, x) == CountAtLeast(a, x) + CountAtLeast(b, x)
  {
    if |a| > 0 {
      assert (a + b)[1..] == a[1..] + b;
      CountAtLeastAppend(a[1..], b, x);
    } else {
      assert a + b == b;
    }
  }

  /** Splitting `t` around position `k` into the part before, the element and
      the part after. */
  lemma SplitAt(t: seq<int>, k: nat)
    requires k < |t|
    ensures t == t[..k] + [t[k]] + t[k + 1..]
  {
  }

  /** Removing the first element of `s` and a matching element of a
      rearrangement `t` leaves rearrangements of each other. */
  lemma RemoveMatching<T>(s: seq<T>, t: seq<T>, k: nat)
    requires multiset(s) == multiset(t) && |s| > 0 && k < |t| && t[k] == s[0]
    ensures multiset(s[1..]) == multiset(t[..k] + t[k + 1..])
  {
    assert s == [s[0]] + s[1..];
    assert t == t[..k] + [t[k]] + t[k + 1..];
    assert multiset(s[1..]) == multiset(s) - multiset{s[0]};
    assert multiset(t[..k] + t[k + 1..]) == multiset(t) - multiset{t[k]};
  }

  /** `CountAtMost` depends only on the multiset of elements. */
  lemma {:induction false} CountAtMostPerm(s: seq<int>, t: seq<int>, x: int)
    requires multiset(s) == multiset(t)
    ensures CountAtMost(s, x) == CountAtMost(t, x)
    decreases |s|
  {
    if |s| > 0 {
      assert s[0] in multiset(t) by { assert s[0] in multiset(s); }
      var k :| 0 <= k < |t| && t[k] == s[0];
      SplitAt(t, k);
      var rest := t[..k] + t[k + 1..];
      CountAtMostAppend(t[..k] + [t[k]], t[k + 1..], x);
      CountAtMostAppend(t[..k], [t[k]], x);
      CountAtMostAppend(t[..k], t[k + 1..], x);
      RemoveMatching(s, t, k);
      CountAtMostPerm(s[1..], rest, x);
    } else {
      assert |t| == |multiset(t)| == 0;
    }
  }

  lemma {:induction false} CrossAppendRight(a: seq<int>, b: seq<int>, c: seq<int>)
    ensures Cross(a, b + c) == Cross(a, b) + Cross(a, c)
  {
    if |a| > 0 {
      CountAtMostAppend(b, c, a[0]);
      CrossAppendRight(a[1..], b, c);
    }
  }

  lemma {:induction false} CrossAppendLeft(a: seq<int>, b: seq<int>, c: seq<int>)
    ensures Cross(a + b, c) == Cross(a, c) + Cross(b, c)
  {
    if |a| > 0 {
      assert (a + b)[1..] == a[1..] + b;
      CrossAppendLeft(a[1..], b, c);
    } else {
      assert a + b == b;
    }
  }

  lemma CrossEmptyLeft(b: seq<int>)
    ensures Cross([], b) == 0
  {
  }

  /** Against a single element `y`, the cross count is the number of elements
      of `a` that are at least `y`. */
  lemma {:induction false} CrossSingleton(a: seq<int>, y: int)
    ensures Cross(a, [y]) == CountAtLeast(a, y)
  {
    if |a| > 0 {
      assert CountAtMost([y], a[0]) == (if y <= a[0] then 1 else 0) by {
        assert [y][1..] == [];
      }
      CrossSingleton(a[1..], y);
    }
  }

  /** `Cross` depends only on the multiset of its right operand. */
  lemma {:induction false} CrossPermRight(a: seq<int>, b: seq<int>, b': seq<int>)
    requires multiset(b) == multiset(b')
    ensures Cross(a, b) == Cross(a, b')
  {
    if |a| > 0 {
      CountAtMostPerm(b, b', a[0]);
      CrossPermRight(a[1..], b, b');
    }
  }

  /** `Cross` depends only on the multiset of its left operand. */
  lemma {:induction false} CrossPermLeft(a: seq<int>, a': seq<int>, b: seq<int>)
    requires multiset(a) == multiset(a')
    ensures Cross(a, b) == Cross(a', b)
    decreases |a|
  {
    if |a| > 0 {
      assert a[0] in multiset(a') by { assert a[0] in multiset(a); }
      var k :| 0 <= k < |a'| && a'[k] == a[0];
      SplitAt(a', k);
      var rest := a'[..k] + a'[k + 1..];
      CrossAppendLeft(a'[..k] + [a'[k]], a'[k + 1..], b);
      CrossAppendLeft(a'[..k], [a'[k]], b);
      CrossAppendLeft(a'[..k], a'[k + 1..], b);
      RemoveMatching(a, a', k);
      CrossPermLeft(a[1..], rest, b);
    } else {
      assert |a'| == |multiset(a')| == 0;
    }
  }

  /** The pairs of a concatenation are the pairs inside each part plus the
      cross pairs between them. */
  lemma {:induction false} InversionsAppend(a: seq<int>, b: seq<int>)
    ensures Inversions(a + b) == Inversions(a) + Inversions(b) + Cross(a, b)
  {
    if |a| > 0 {
      assert (a + b)[1..] == a[1..] + b;
      CountAtMostAppend(a[1..], b, a[0]);
      InversionsAppend(a[1..], b);
    } else {
      assert a + b == b;
    }
  }

  /** When `x` does not occur in `s`, every element is either at most `x` or
      at least `x`, never both. */
  lemma {:induction false} CountAroundAbsent(s: seq<int>, x: int)
    requires forall k :: 0 <= k < |s| ==> s[k] != x
    ensures CountAtMost(s, x) + CountAtLeast(s, x) == |s|
  {
    if |s| > 0 {
      CountAroundAbsent(s[1..], x);
    }
  }

  /** The number of pairs `i < j` below `n`. */
  function Pairs(n: nat): (r: nat)
    ensures r == n * (n - 1) / 2
  {
    if n == 0 then 0
    else
      var r := Pairs(n - 1) + (n - 1);
      assert (n - 1) * (n - 2) + 2 * (n - 1) == n * (n - 1);
      r
  }

  /** Every pair is counted at most once: a sequence of length `n` has at
      most `n (n - 1) / 2` counted pairs. */
  lemma {:induction false} InversionsBound(s: seq<int>)
    ensures Inversions(s) <= Pairs(|s|)
  {
    if |s| > 0 {
      InversionsBound(s[1..]);
      CountAtMostLength(s[1..], s[0]);
    }
  }

  lemma {:induction false} CountAtMostLength(s: seq<int>, x: int)
    ensures CountAtMost(s, x) <= |s|
  {
    if |s| > 0 {
      CountAtMostLength(s[1..], x);
    }
  }

  /** A strictly increasing sequence has no counted pair. */
  lemma {:induction false} AscendingHasNoInversions(s: seq<int>)
    requires forall i, j :: 0 <= i < j < |s| ==> s[i] < s[j]
    ensures Inversions(s) == 0
  {
    if |s| > 0 {
      CountAtMostNone(s[1..], s[0]);
      AscendingHasNoInversions(s[1..]);
    }
  }

  lemma {:induction false} CountAtMostNone(s: seq<int>, x: int)
    requires forall k :: 0 <= k < |s| ==> x < s[k]
    ensures CountAtMost(s, x) == 0
  {
    if |s| > 0 {
      CountAtMostNone(s[1..], x);
    }
  }

  lemma {:induction false} CountAtMostAll(s: seq<int>, x: int)
    requires forall k :: 0 <= k < |s| ==> s[k] <= x
    ensures CountAtMost(s, x) == |s|
  {
    if |s| > 0 {
      CountAtMostAll(s[1..], x);
    }
  }

  lemma {:induction false} CountAtLeastAll(s: seq<int>, x: int)
    requires forall k :: 0 <= k < |s| ==> x <= s[k]
    ensures CountAtLeast(s, x) == |s|
  {
    if |s| > 0 {
      CountAtLeastAll(s[1..], x);
    }
  }

  /** A strictly decreasing sequence of length `n` has all `n (n - 1) / 2`
      pairs counted. */
  lemma {:induction false} DescendingHasAllInversions(s: seq<int>)
    requires forall i, j :: 0 <= i < j < |s| ==> s[i] > s[j]
    ensures Inversions(s) == Pairs(|s|)
  {
    if |s| > 0 {
      CountAtMostAll(s[1..], s[0]);
      DescendingHasAllInversions(s[1..]);
    }
  }
}
