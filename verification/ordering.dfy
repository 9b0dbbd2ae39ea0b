/** The comparison operators. `==` compares size and then every entry;
    `<` is the lexicographic order of the images, except that a permutation
    of a smaller size is below every permutation of a larger one. The derived
    operators are negations and swaps of these two. */
module Ordering {
  import opened Permutations

  // ---------------------------------------------------------------------
  // operator== and operator!=

  /** The loop of `operator==` from position `i` on. */
  function EqualFrom(a: seq<nat>, b: seq<nat>, i: nat): (r: bool)
    requires |a| == |b| && i <= |a|
    ensures r <==> a[i..] == b[i..]
    decreases |a| - i
  {
    if i == |a| then
      true
    else if a[i] != b[i] then
      false
    else
      var r := EqualFrom(a, b, i + 1);
      assert a[i..] == [a[i]] + a[i + 1..] && b[i..] == [b[i]] + b[i + 1..];
      r
  }

  /** `operator==`: false when the sizes differ, otherwise true exactly when
      every entry agrees. */
  function Equal(p: Permutation, q: Permutation): (r: bool)
    ensures r <==> p == q
  {
    if Size(p) != Size(q) then
      false
    else
      var r := EqualFrom(p.image, q.image, 0);
      assert p.image[0..] == p.image && q.image[0..] == q.image;
      r
  }

  /** `operator!=`. */
  function NotEqual(p: Permutation, q: Permutation): (r: bool)
    ensures r <==> p != q
  {
    !Equal(p, q)
  }

  // ---------------------------------------------------------------------
  // operator< and the operators built on it

  /** `a` and `b` agree before position `i` and `a` is smaller there. */
  ghost predicate SmallerAt(a: seq<nat>, b: seq<nat>, i: nat) {
    i < |a| && i < |b| && a[..i] == b[..i] && a[i] < b[i]
  }

  /** `operator<` can be evaluated: the loop runs over the left operand and
      reads the right one at the same positions, so it stays within the
      right operand unless that operand is shorter and equal to the start of
      the left one. */
  ghost predicate Comparable(p: Permutation, q: Permutation) {
    Size(q) < Size(p) ==> p.image[..Size(q)] != q.image
  }

  /** The loop of `operator<` from position `i` on. */
  function LessFrom(a: seq<nat>, b: seq<nat>, i: nat): (r: bool)
    requires i <= |b| <= |a| && a[..i] == b[..i]
    requires |b| < |a| ==> a[..|b|] != b
    ensures r <==> exists j :: i <= j && SmallerAt(a, b, j)
    decreases |a| - i
  {
    if i == |a| then
      false
    else if a[i] < b[i] then
      assert SmallerAt(a, b, i);
      true
    else if a[i] > b[i] then
      assert forall j :: i < j ==> !SmallerAt(a, b, j) by {
        forall j | i < j && j < |a| && j < |b|
          ensures a[..j] != b[..j]
        {
          assert a[..j][i] != b[..j][i];
        }
      }
      false
    else
      assert a[..i + 1] == b[..i + 1];
      LessFrom(a, b, i + 1)
  }

  /** `operator<`: true when `p` has fewer elements; otherwise true exactly
      when, at the first position where the images differ, `p` has the
      smaller entry. */
  function Less(p: Permutation, q: Permutation): (r: bool)
    requires Comparable(p, q)
    ensures r <==> Size(p) < Size(q) || exists j :: SmallerAt(p.image, q.image, j)
  {
    if Size(p) < Size(q) then
      true
    else
      LessFrom(p.image, q.image, 0)
  }

  /** `operator>`: `q < p`. */
  function Greater(p: Permutation, q: Permutation): (r: bool)
    requires Comparable(q, p)
    ensures r <==> Size(q) < Size(p) || exists j :: SmallerAt(q.image, p.image, j)
  {
    Less(q, p)
  }

  /** `operator<=`: not `p > q`. So `q` is not shorter than `p` and is not
      the smaller one at their first difference; for one size, this is
      `p < q` or `p == q`. */
  function LessEq(p: Permutation, q: Permutation): (r: bool)
    requires Comparable(q, p)
    ensures r <==> !(Size(q) < Size(p) || exists j :: SmallerAt(q.image, p.image, j))
    ensures Size(p) == Size(q) ==> (r <==> Less(p, q) || p == q)
  {
    if Size(p) == Size(q) then
      Trichotomy(p, q);
      !Greater(p, q)
    else
      !Greater(p, q)
  }

  /** `operator>=`: not `p < q`. So `p` is not shorter than `q` and is not
      the smaller one at their first difference; for one size, this is
      `p > q` or `p == q`. */
  function GreaterEq(p: Permutation, q: Permutation): (r: bool)
    requires Comparable(p, q)
    ensures r <==> !(Size(p) < Size(q) || exists j :: SmallerAt(p.image, q.image, j))
    ensures Size(p) == Size(q) ==> (r <==> Greater(p, q) || p == q)
  {
    if Size(p) == Size(q) then
      Trichotomy(p, q);
      !Less(p, q)
    else
      !Less(p, q)
  }

  /** Among permutations of one size exactly one of `p < q`, `p == q` and
      `p > q` holds. */
  lemma Trichotomy(p: Permutation, q: Permutation)
    requires Size(p) == Size(q)
    ensures Less(p, q) || Equal(p, q) || Greater(p, q)
    ensures !(Less(p, q) && Equal(p, q))
    ensures !(Less(p, q) && Greater(p, q))
    ensures !(Equal(p, q) && Greater(p, q))
  {
    var a, b := p.image, q.image;
    if a != b {
      var i := FirstDifference(a, b, 0);
      if a[i] < b[i] {
        assert SmallerAt(a, b, i);
      } else {
        assert SmallerAt(b, a, i);
      }
    }
    if Less(p, q) && Greater(p, q) {
      var i: nat :| SmallerAt(a, b, i);
      SmallerAtAsymmetric(a, b, i);
      assert false;
    }
  }

  /** Once `a` is smaller than `b` at their first difference, `b` is
      smaller than `a` at no position. */
  lemma SmallerAtAsymmetric(a: seq<nat>, b: seq<nat>, i: nat)
    requires SmallerAt(a, b, i)
    ensures forall j: nat :: !SmallerAt(b, a, j)
  {
  }

  /** The first position at or after `i` where two different sequences of
      one length disagree. */
  lemma {:induction false} FirstDifference(a: seq<nat>, b: seq<nat>, i: nat) returns (k: nat)
    requires |a| == |b| && i <= |a| && a[..i] == b[..i] && a != b
    ensures i <= k < |a| && a[..k] == b[..k] && a[k] != b[k]
    decreases |a| - i
  {
    if a[i] != b[i] {
      k := i;
    } else {
      assert a[..i + 1] == b[..i + 1];
      k := FirstDifference(a, b, i + 1);
    }
  }

  /** `<` is transitive on permutations of one size. */
  lemma LessTransitive(p: Permutation, q: Permutation, r: Permutation)
    requires Size(p) == Size(q) == Size(r)
    requires Less(p, q) && Less(q, r)
    ensures Less(p, r)
  {
    var a, b, c := p.image, q.image, r.image;
    var i: nat :| SmallerAt(a, b, i);
    var j: nat :| SmallerAt(b, c, j);
    var k: nat := if i < j then i else j;
    assert a[..k] == c[..k] by {
      assert a[..k] == a[..i][..k] && b[..k] == b[..i][..k];
      assert b[..k] == b[..j][..k] && c[..k] == c[..j][..k];
    }
    if i < j {
      assert b[..j][i] == c[..j][i];
    } else if j < i {
      assert a[..i][j] == b[..i][j];
    }
    assert SmallerAt(a, c, k);
  }
}
