/** The `Permutation` value type and its group algebra: identity, the two
    composition operators, `inverse`, and `operator()` applied to a caller's
    array. A `Permutation` is its image sequence: `size_` is `|image|` and
    `data_[i]` is `image[i]`. Values are immutable, so copying and assignment
    are plain value copies; an operator that changes its receiver in place is a
    function returning the receiver's new value. */
module Permutations {
  import opened Helpers

  /** `image[i]` is the element `i` is sent to. */
  datatype Permutation = Permutation(image: seq<nat>)

  predicate InRange(s: seq<nat>) {
    forall i :: 0 <= i < |s| ==> s[i] < |s|
  }

  predicate Injective(s: seq<nat>) {
    forall i, j :: 0 <= i < |s| && 0 <= j < |s| && s[i] == s[j] ==> i == j
  }

  /** `s` is a bijection of `[0, |s|)` onto itself. */
  predicate IsPerm(s: seq<nat>) {
    InRange(s) && Injective(s)
  }

  /** The class invariant the header documents but never checks: the image
      array holds every value of `[0, size_)` exactly once. */
  predicate Valid(p: Permutation) {
    IsPerm(p.image)
  }

  function Size(p: Permutation): nat {
    |p.image|
  }

  // ---------------------------------------------------------------------
  // Pigeonhole: an injective map of `[0, n)` into `[0, n)` is onto.

  /** An injective sequence whose values lie below `n` has at most `n`
      elements. */
  lemma {:induction false} InjectiveBound(s: seq<nat>, n: nat)
    requires Injective(s)
    requires forall i :: 0 <= i < |s| ==> s[i] < n
    ensures |s| <= n
    decreases n
  {
    if |s| > 0 {
      assert s[0] < n;
      if k :| 0 <= k < |s| && s[k] == n - 1 {
        var t := s[..k] + s[k + 1..];
        assert forall i :: 0 <= i < |t| ==> t[i] == s[if i < k then i else i + 1];
        InjectiveBound(t, n - 1);
      } else {
        InjectiveBound(s, n - 1);
      }
    }
  }

  /** Every value of `[0, |s|)` is the image of some position. */
  lemma Surjective(s: seq<nat>, v: nat)
    requires IsPerm(s) && v < |s|
    ensures exists i :: 0 <= i < |s| && s[i] == v
  {
    var n := |s|;
    if forall i :: 0 <= i < n ==> s[i] != v {
      // move the value `n - 1` onto the missing `v`: still injective, now below `n - 1`
      var t := seq(n, i requires 0 <= i < n => if s[i] == n - 1 then v else s[i]);
      if v == n - 1 {
        InjectiveBound(s, n - 1);
      } else {
        InjectiveBound(t, n - 1);
      }
      assert false;
    }
  }

  /** The position holding the value `v`. */
  ghost function PositionOf(s: seq<nat>, v: nat): (i: nat)
    requires IsPerm(s) && v < |s|
    ensures i < |s| && s[i] == v
  {
    Surjective(s, v);
    var i :| 0 <= i < |s| && s[i] == v; i
  }

  /** A sequence with no repeated value holds each value at most once. */
  lemma {:induction false} InjectiveCount(s: seq<nat>, v: nat)
    requires Injective(s)
    ensures multiset(s)[v] <= 1
  {
    if |s| > 0 {
      var s' := s[..|s| - 1];
      assert s == s' + [s[|s| - 1]];
      InjectiveCount(s', v);
      if s[|s| - 1] == v {
        assert v !in s';
      }
    }
  }

  /** A value found at two positions is counted at least twice. */
  lemma RepeatCount(t: seq<nat>, a: nat, b: nat)
    requires a < b < |t| && t[a] == t[b]
    ensures multiset(t)[t[a]] >= 2
  {
    assert t == t[..a] + [t[a]] + t[a + 1..b] + [t[b]] + t[b + 1..];
  }

  /** A rearrangement of a permutation is a permutation. */
  lemma RearrangedIsPerm(s: seq<nat>, t: seq<nat>)
    requires IsPerm(s) && |t| == |s| && multiset(t) == multiset(s)
    ensures IsPerm(t)
  {
    forall i | 0 <= i < |t|
      ensures t[i] < |t|
    {
      assert t[i] in multiset(s);
    }
    forall a, b | 0 <= a < |t| && 0 <= b < |t| && t[a] == t[b]
      ensures a == b
    {
      if a < b {
        RepeatCount(t, a, b);
        InjectiveCount(s, t[a]);
        assert false;
      } else if b < a {
        RepeatCount(t, b, a);
        InjectiveCount(s, t[a]);
        assert false;
      }
    }
  }

  /** Exchanging two positions of a permutation gives a permutation. */
  lemma SwapIsPerm(s: seq<nat>, i: nat, j: nat)
    requires IsPerm(s) && i < |s| && j < |s|
    ensures IsPerm(Swap(s, i, j))
  {
    RearrangedIsPerm(s, Swap(s, i, j));
  }

  /** Two permutations of one size hold the same values. */
  lemma SameValues(a: seq<nat>, b: seq<nat>)
    requires IsPerm(a) && IsPerm(b) && |a| == |b|
    ensures multiset(a) == multiset(b)
  {
    SortedByTranspositions(a, 0);
    SortedByTranspositions(b, 0);
  }

  /** Fixing the first position that `s` moves by one transposition at a
      time ends at the identity without changing the values held. */
  lemma {:induction false} SortedByTranspositions(s: seq<nat>, k: nat)
    requires IsPerm(s) && k <= |s|
    requires forall x :: 0 <= x < k ==> s[x] == x
    ensures multiset(s) == multiset(seq(|s|, i => i))
    decreases |s| - k
  {
    if k == |s| {
      assert s == seq(|s|, i => i);
    } else if s[k] == k {
      SortedByTranspositions(s, k + 1);
    } else {
      var j := PositionOf(s, k);
      SwapIsPerm(s, k, j);
      SortedByTranspositions(Swap(s, k, j), k + 1);
    }
  }

  // ---------------------------------------------------------------------
  // Construction

  /** `Permutation(n)`: the identity of size `n`. */
  function Identity(n: nat): (r: Permutation)
    ensures Valid(r) && Size(r) == n
    ensures forall i :: 0 <= i < n ==> r.image[i] == i
  {
    Permutation(seq(n, i => i))
  }

  /** `Permutation(n, raw)`: the first `n` entries of the caller's array,
      taken as they are; whether they form a permutation is not checked. */
  function FromRaw(n: nat, raw: seq<nat>): (r: Permutation)
    requires n <= |raw|
    ensures Size(r) == n
    ensures forall i :: 0 <= i < n ==> r.image[i] == raw[i]
  {
    Permutation(raw[..n])
  }

  /** Building from the image of `p`, followed by anything, gives back `p`;
      and the result is a permutation exactly when the entries read are. */
  lemma FromRawRoundTrip(p: Permutation, extra: seq<nat>)
    ensures FromRaw(Size(p), p.image + extra) == p
    ensures Valid(FromRaw(Size(p), p.image + extra)) <==> Valid(p)
  {
    assert (p.image + extra)[..Size(p)] == p.image;
  }

  // ---------------------------------------------------------------------
  // Composition

  /** `a *= b`: when `b` is another object of the same size, `a[i]` becomes
      `b[a[i]]` (first `a`, then `b`). When `b` IS `a` (`sameObject`) or the
      sizes differ, `a` is left as it is. */
  function ComposeAssign(a: Permutation, b: Permutation, sameObject: bool): (r: Permutation)
    requires Valid(a) && Valid(b)
    requires sameObject ==> a == b
    ensures Valid(r) && Size(r) == Size(a)
    ensures sameObject || Size(a) != Size(b) ==> r == a
    ensures !sameObject && Size(a) == Size(b) ==>
      forall i :: 0 <= i < Size(a) ==> r.image[i] == b.image[a.image[i]]
  {
    if sameObject || Size(a) != Size(b) then
      a
    else
      Permutation(seq(Size(a), i requires 0 <= i < Size(a) => b.image[a.image[i]]))
  }

  /** `a * b`: a copy of `b` composed in place with `a`, so the result maps
      `i` to `a[b[i]]` (first `b`, then `a`) -- the opposite order from `*=`.
      With sizes that differ the copy of `b` is returned unchanged. */
  function Compose(a: Permutation, b: Permutation): (r: Permutation)
    requires Valid(a) && Valid(b)
    ensures Valid(r) && Size(r) == Size(b)
    ensures Size(a) != Size(b) ==> r == b
    ensures Size(a) == Size(b) ==> forall i :: 0 <= i < Size(a) ==> r.image[i] == a.image[b.image[i]]
  {
    ComposeAssign(b, a, false)
  }

  /** The identity is neutral on both sides of `*`. */
  lemma ComposeIdentity(p: Permutation)
    requires Valid(p)
    ensures Compose(Identity(Size(p)), p) == p
    ensures Compose(p, Identity(Size(p))) == p
  {
    var id := Identity(Size(p));
    assert Compose(id, p).image == p.image;
    assert Compose(p, id).image == p.image;
  }

  /** `*` is associative on permutations of one size. */
  lemma ComposeAssociative(a: Permutation, b: Permutation, c: Permutation)
    requires Valid(a) && Valid(b) && Valid(c)
    requires Size(a) == Size(b) == Size(c)
    ensures Compose(Compose(a, b), c) == Compose(a, Compose(b, c))
  {
    assert Compose(Compose(a, b), c).image == Compose(a, Compose(b, c)).image;
  }

  /** `a *= b` and `a * b` compose in opposite orders: `a *= b` leaves `a`
      equal to `b * a`. */
  lemma ComposeAssignIsReversedCompose(a: Permutation, b: Permutation)
    requires Valid(a) && Valid(b) && Size(a) == Size(b)
    ensures ComposeAssign(a, b, false) == Compose(b, a)
  {
    assert ComposeAssign(a, b, false).image == Compose(b, a).image;
  }

  // ---------------------------------------------------------------------
  // Inverse

  /** The loop `temp[data_[i]] = i` for `i` from the given position on. */
  function InverseFill(s: seq<nat>, acc: seq<nat>, i: nat): (r: seq<nat>)
    requires IsPerm(s) && |acc| == |s| && i <= |s|
    ensures |r| == |s|
    ensures forall k :: i <= k < |s| ==> r[s[k]] == k
    ensures forall v :: 0 <= v < |s| && v !in s[i..] ==> r[v] == acc[v]
    decreases |s| - i
  {
    if i == |s| then
      acc
    else
      var r := InverseFill(s, acc[s[i] := i], i + 1);
      forall k | i < k < |s|
        ensures s[k] in s[i + 1..]
      {
        assert s[i + 1..][k - (i + 1)] == s[k];
      }
      assert s[i] !in s[i + 1..];
      r
  }

  /** `inverse()`: a permutation of size below two is its own inverse and is
      returned as it is; otherwise `temp[data_[i]] = i` for every `i`. */
  function Inverse(p: Permutation): (r: Permutation)
    requires Valid(p)
    ensures Valid(r) && Size(r) == Size(p)
    ensures forall i :: 0 <= i < Size(p) ==> r.image[p.image[i]] == i
    ensures forall v :: 0 <= v < Size(p) ==> p.image[r.image[v]] == v
  {
    if Size(p) < 2 then
      p
    else
      var q := InverseFill(p.image, p.image, 0);
      InverseIsPerm(p.image, q);
      Permutation(q)
  }

  /** A sequence that undoes a permutation on every position is a
      permutation that the original undoes in turn. */
  lemma InverseIsPerm(s: seq<nat>, q: seq<nat>)
    requires IsPerm(s) && |q| == |s|
    requires forall i :: 0 <= i < |s| ==> q[s[i]] == i
    ensures IsPerm(q)
    ensures forall v :: 0 <= v < |s| ==> s[q[v]] == v
  {
    forall v | 0 <= v < |s|
      ensures q[v] < |s| && s[q[v]] == v
    {
      var i := PositionOf(s, v);
      assert q[v] == i;
    }
  }

  /** `p * p.inverse()` and `p.inverse() * p` are both the identity. */
  lemma ComposeInverse(p: Permutation)
    requires Valid(p)
    ensures Compose(p, Inverse(p)) == Identity(Size(p))
    ensures Compose(Inverse(p), p) == Identity(Size(p))
  {
    assert Compose(p, Inverse(p)).image == Identity(Size(p)).image;
    assert Compose(Inverse(p), p).image == Identity(Size(p)).image;
  }

  /** Inverting twice gives back the permutation. */
  lemma InverseInvolution(p: Permutation)
    requires Valid(p)
    ensures Inverse(Inverse(p)) == p
  {
    var q := Inverse(p);
    var qq := Inverse(q);
    forall i | 0 <= i < Size(p)
      ensures qq.image[i] == p.image[i]
    {
      assert q.image[p.image[i]] == i;
      assert qq.image[q.image[p.image[i]]] == p.image[i];
    }
    assert qq.image == p.image;
  }

  // ---------------------------------------------------------------------
  // operator(): permuting a caller's array

  /** The loop `object[data_[i]] = cobject[i]` from position `i` on. */
  function ApplyFill<T>(s: seq<nat>, saved: seq<T>, obj: seq<T>, i: nat): (r: seq<T>)
    requires IsPerm(s) && |s| <= |saved| && |s| <= |obj| && i <= |s|
    ensures |r| == |obj|
    ensures forall k :: i <= k < |s| ==> r[s[k]] == saved[k]
    ensures forall v :: 0 <= v < |obj| && v !in s[i..] ==> r[v] == obj[v]
    decreases |s| - i
  {
    if i == |s| then
      obj
    else
      var r := ApplyFill(s, saved, obj[s[i] := saved[i]], i + 1);
      forall k | i < k < |s|
        ensures s[k] in s[i + 1..]
      {
        assert s[i + 1..][k - (i + 1)] == s[k];
      }
      assert s[i] !in s[i + 1..];
      r
  }

  /** `operator()(object)`: copies the first `size_` elements aside, then
      moves the element at position `i` to position `data_[i]`. Elements past
      `size_` are not touched. */
  function Apply<T>(p: Permutation, obj: seq<T>): (r: seq<T>)
    requires Valid(p) && Size(p) <= |obj|
    ensures |r| == |obj|
    ensures forall i :: 0 <= i < Size(p) ==> r[p.image[i]] == obj[i]
    ensures forall k :: Size(p) <= k < |obj| ==> r[k] == obj[k]
  {
    var r := ApplyFill(p.image, obj[..Size(p)], obj, 0);
    assert forall k :: Size(p) <= k < |obj| ==> k !in p.image[0..];
    r
  }

  /** Applying `p` and then `p.inverse()` restores the caller's array. */
  lemma ApplyInverse<T>(p: Permutation, obj: seq<T>)
    requires Valid(p) && Size(p) <= |obj|
    ensures Apply(Inverse(p), Apply(p, obj)) == obj
  {
    var q := Inverse(p);
    var y := Apply(p, obj);
    var z := Apply(q, y);
    forall i | 0 <= i < Size(p)
      ensures z[i] == obj[i]
    {
      assert q.image[p.image[i]] == i;
      assert z[q.image[p.image[i]]] == y[p.image[i]];
    }
  }

  /** Applying `a` and then `b` is applying the value `a *= b` leaves in
      `a`: this is the order `*=` composes in. */
  lemma ApplyComposeAssign<T>(a: Permutation, b: Permutation, obj: seq<T>)
    requires Valid(a) && Valid(b) && Size(a) == Size(b) <= |obj|
    ensures Apply(b, Apply(a, obj)) == Apply(ComposeAssign(a, b, false), obj)
  {
    var c := ComposeAssign(a, b, false);
    var y := Apply(a, obj);
    var z := Apply(b, y);
    var w := Apply(c, obj);
    forall v | 0 <= v < Size(a)
      ensures z[v] == w[v]
    {
      var i := PositionOf(c.image, v);
      assert z[b.image[a.image[i]]] == y[a.image[i]];
    }
  }
}
