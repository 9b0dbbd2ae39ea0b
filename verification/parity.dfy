/** `isOdd` and `isEven`. The parity of a permutation is the parity of its
    number of inversions. `isOdd` instead walks every cycle once and toggles a
    flag on each step after the first; the proof follows a ghost copy of the
    image that each toggle rearranges by one transposition, until it is the
    identity. */
module Parity {
  import opened Helpers
  import opened Counting
  import opened Permutations

  /** The permutation with image `s` is odd: it has an odd number of
      inversions. */
  predicate OddInversions(s: seq<int>) {
    Inversions(s) % 2 == 1
  }

  // ---------------------------------------------------------------------
  // A transposition flips the parity

  /** The inversions of `[x] + M + [y]`, split by where the pair lies. */
  lemma InversionsAround(x: int, M: seq<int>, y: int)
    ensures Inversions([x] + M + [y]) ==
      CountAtMost(M, x) + (if y <= x then 1 else 0) + Inversions(M) + CountAtLeast(M, y)
  {
    var t := [x] + M + [y];
    assert t[1..] == M + [y];
    CountAtMostAppend(M, [y], x);
    assert CountAtMost([y], x) == (if y <= x then 1 else 0) by {
      assert [y][1..] == [];
    }
    InversionsAppend(M, [y]);
    assert Inversions([y]) == 0 by {
      assert [y][1..] == [];
    }
    CrossSingleton(M, y);
  }

  /** Exchanging two different values with no copy of either between them
      changes the number of inversions by an odd amount. */
  lemma SwapFlipsOrdered(s: seq<int>, i: nat, j: nat)
    requires i < j < |s|
    requires s[i] != s[j]
    requires forall k :: i < k < j ==> s[k] != s[i] && s[k] != s[j]
    ensures OddInversions(Swap(s, i, j)) != OddInversions(s)
  {
    var x, y := s[i], s[j];
    var P, M, Q := s[..i], s[i + 1..j], s[j + 1..];
    assert s == P + ([x] + M + [y] + Q);
    SwapSplit(s, i, j);
    assert forall k :: 0 <= k < |M| ==> M[k] == s[i + 1 + k];
    ExchangeIsOdd(P, x, M, y, Q);
  }

  /** The sequence after an exchange, cut at the two positions. */
  lemma SwapSplit(s: seq<int>, i: nat, j: nat)
    requires i < j < |s|
    ensures Swap(s, i, j) == s[..i] + ([s[j]] + s[i + 1..j] + [s[i]] + s[j + 1..])
  {
    var t := Swap(s, i, j);
    var u := s[..i] + ([s[j]] + s[i + 1..j] + [s[i]] + s[j + 1..]);
    forall k | 0 <= k < |s|
      ensures t[k] == u[k]
    {
      if k < i {
        assert u[k] == s[..i][k];
      } else if k <= j {
        assert u[k] == ([s[j]] + s[i + 1..j] + [s[i]])[k - i];
      } else {
        assert u[k] == s[j + 1..][k - j - 1];
      }
    }
  }

  /** The inversion counts of `P + [x] + M + [y] + Q` and of
      `P + [y] + M + [x] + Q` add up to an odd number. */
  lemma ExchangeIsOdd(P: seq<int>, x: int, M: seq<int>, y: int, Q: seq<int>)
    requires x != y
    requires forall k :: 0 <= k < |M| ==> M[k] != x && M[k] != y
    ensures Inversions(P + ([x] + M + [y] + Q)) % 2 != Inversions(P + ([y] + M + [x] + Q)) % 2
  {
    var c := ExchangeSum(P, x, M, y, Q);
    OddSum(Inversions(P + ([x] + M + [y] + Q)), Inversions(P + ([y] + M + [x] + Q)), c);
  }

  lemma ExchangeSum(P: seq<int>, x: int, M: seq<int>, y: int, Q: seq<int>) returns (c: int)
    requires x != y
    requires forall k :: 0 <= k < |M| ==> M[k] != x && M[k] != y
    ensures Inversions(P + ([x] + M + [y] + Q)) + Inversions(P + ([y] + M + [x] + Q)) == 2 * c + 1
  {
    var T, T' := [x] + M + [y], [y] + M + [x];
    assert [x] + M + [y] + Q == T + Q && [y] + M + [x] + Q == T' + Q;
    InversionsAppend(P, T + Q);
    InversionsAppend(P, T' + Q);
    InversionsAppend(T, Q);
    InversionsAppend(T', Q);
    assert multiset(T) == multiset(T');
    CrossPermLeft(T, T', Q);
    CrossPermRight(P, T + Q, T' + Q);
    assert Inversions(T) + Inversions(T') == 2 * Inversions(M) + 2 * |M| + 1 by {
      InversionsAround(x, M, y);
      InversionsAround(y, M, x);
      CountAroundAbsent(M, x);
      CountAroundAbsent(M, y);
    }
    c := Inversions(P) + Inversions(Q) + Cross(P, T + Q) + Cross(T, Q) + Inversions(M) + |M|;
  }

  lemma OddSum(a: int, b: int, c: int)
    requires a + b == 2 * c + 1
    ensures a % 2 != b % 2
  {
  }

  /** On a permutation, every transposition of two different positions
      flips the parity. */
  lemma SwapFlipsParity(s: seq<nat>, i: nat, j: nat)
    requires IsPerm(s) && i < |s| && j < |s| && i != j
    ensures OddInversions(Swap(s, i, j)) != OddInversions(s)
  {
    if i < j {
      SwapFlipsOrdered(s, i, j);
    } else {
      assert Swap(s, i, j) == Swap(s, j, i);
      SwapFlipsOrdered(s, j, i);
    }
  }

  /** The identity is even. */
  lemma IdentityIsEven(n: nat)
    ensures !OddInversions(Identity(n).image)
  {
    AscendingHasNoInversions(Identity(n).image);
  }

  // ---------------------------------------------------------------------
  // isOdd

  /** Number of unvisited positions. */
  function Unvisited(used: seq<bool>): (r: nat)
    ensures r <= |used|
  {
    if |used| == 0 then 0 else (if used[0] then 0 else 1) + Unvisited(used[1..])
  }

  lemma {:induction false} VisitOne(used: seq<bool>, j: nat)
    requires j < |used| && !used[j]
    ensures Unvisited(used[j := true]) == Unvisited(used) - 1
  {
    if j > 0 {
      assert used[j := true][1..] == used[1..][j - 1 := true];
      VisitOne(used[1..], j - 1);
    }
  }

  /** The state the walk keeps: visited positions other than `i` are fixed
      points of `w`, unvisited ones still hold the original image, and the
      flag `res` records how the parity of `w` has moved away from that of
      `s`. */
  ghost predicate Tracking(s: seq<nat>, used: seq<bool>, w: seq<nat>, res: bool, i: nat) {
    |used| == |s| && |w| == |s| && IsPerm(w)
    && (forall x :: 0 <= x < |s| && used[x] && x != i ==> w[x] == x)
    && (forall x :: 0 <= x < |s| && !used[x] ==> w[x] == s[x])
    && OddInversions(w) == (OddInversions(s) != res)
  }

  /** One turn of the inner walk: `j`, the point `w` sends `i` to, is not
      visited yet, and exchanging `i` and `j` in `w` fixes `j` and flips the
      parity. */
  lemma TrackStep(s: seq<nat>, used: seq<bool>, w: seq<nat>, res: bool, i: nat, j: nat)
    requires Tracking(s, used, w, res, i)
    requires i < |s| && j < |s| && j != i && w[i] == j && used[i]
    ensures !used[j] && Unvisited(used[j := true]) < Unvisited(used)
    ensures Tracking(s, used[j := true], Swap(w, i, j), !res, i)
    ensures Swap(w, i, j)[i] == s[j]
  {
    // `j` is not visited yet: otherwise `w[j] == j == w[i]`
    assert !used[j];
    VisitOne(used, j);
    SwapFlipsParity(w, i, j);
    SwapIsPerm(w, i, j);
  }

  /** `isOdd()`: visits each cycle once from its least position, toggling the
      result for each of the cycle's elements after the first, so it toggles
      `length - 1` times per cycle. */
  method IsOdd(p: Permutation) returns (res: bool)
    requires Valid(p)
    ensures res == OddInversions(p.image)
  {
    var s := p.image;
    var n := |s|;
    var used := seq(n, _ => false);
    res := false;
    ghost var w := s;
    var i := 0;
    while i < n
      invariant i <= n
      invariant Tracking(s, used, w, res, n)
      invariant forall x :: 0 <= x < i ==> used[x]
    {
      if !used[i] {
        used, w, res := WalkCycle(s, used, w, res, i);
      }
      i := i + 1;
    }
    assert w == Identity(n).image;
    IdentityIsEven(n);
  }

  /** The inner loop of `isOdd()`: marks the cycle through the unvisited
      position `i`, toggling the result once per further element. */
  method WalkCycle(s: seq<nat>, used: seq<bool>, ghost w: seq<nat>, res: bool, i: nat)
    returns (used': seq<bool>, ghost w': seq<nat>, res': bool)
    requires i < |s| && Tracking(s, used, w, res, |s|) && !used[i]
    requires forall x :: 0 <= x < i ==> used[x]
    ensures Tracking(s, used', w', res', |s|)
    ensures forall x :: 0 <= x <= i ==> used'[x]
  {
    used', w', res' := used[i := true], w, res;
    var j := s[i];
    while j != i
      invariant Tracking(s, used', w', res', i)
      invariant j < |s| && w'[i] == j && used'[i]
      invariant forall x :: 0 <= x < i ==> used'[x]
      decreases Unvisited(used')
    {
      TrackStep(s, used', w', res', i, j);
      w' := Swap(w', i, j);
      used' := used'[j := true];
      res' := !res';
      j := s[j];
    }
  }

  /** `isEven()`: the negation of `isOdd()`. */
  method IsEven(p: Permutation) returns (even: bool)
    requires Valid(p)
    ensures even == !OddInversions(p.image)
  {
    var odd := IsOdd(p);
    even := !odd;
  }

  // ---------------------------------------------------------------------
  // Parity of a composition

  /** The parity of `a * b` is the sum of the parities of `a` and `b`. */
  lemma ComposeParity(a: Permutation, b: Permutation)
    requires Valid(a) && Valid(b) && Size(a) == Size(b)
    ensures OddInversions(Compose(a, b).image) == (OddInversions(a.image) != OddInversions(b.image))
  {
    ComposeParityFrom(a, b, 0);
  }

  /** Exchanging two positions of `b` exchanges the same two positions of
      `a * b`. */
  lemma SwapCompose(a: Permutation, b: Permutation, k: nat, j: nat)
    requires Valid(a) && Valid(b) && Size(a) == Size(b) && k < Size(b) && j < Size(b)
    ensures IsPerm(Swap(b.image, k, j))
    ensures Compose(a, Permutation(Swap(b.image, k, j))).image == Swap(Compose(a, b).image, k, j)
  {
    SwapIsPerm(b.image, k, j);
  }

  /** Induction on the fixed prefix of `b`: the first position `k` that `b`
      moves is fixed by exchanging, in `b`, the positions `k` and the one `b`
      sends to `k`; that exchange is one transposition of `b` and of `a * b`
      alike. */
  lemma {:induction false} ComposeParityFrom(a: Permutation, b: Permutation, k: nat)
    requires Valid(a) && Valid(b) && Size(a) == Size(b) && k <= Size(b)
    requires forall x :: 0 <= x < k ==> b.image[x] == x
    ensures OddInversions(Compose(a, b).image) == (OddInversions(a.image) != OddInversions(b.image))
    decreases Size(b) - k
  {
    var n := Size(b);
    if k == n {
      assert b == Identity(n);
      ComposeIdentity(a);
      IdentityIsEven(n);
    } else if b.image[k] == k {
      ComposeParityFrom(a, b, k + 1);
    } else {
      var j := PositionOf(b.image, k);
      var b' := Permutation(Swap(b.image, k, j));
      SwapIsPerm(b.image, k, j);
      SwapFlipsParity(b.image, k, j);
      var c := Compose(a, b).image;
      SwapCompose(a, b, k, j);
      SwapFlipsParity(c, k, j);
      ComposeParityFrom(a, b', k + 1);
    }
  }
}
