/** Iterating a permutation from one point, and the cycle through that
    point. `pow` walks each cycle once; these are the facts about walking that
    its correctness rests on. */
module Cycles {
  import opened Permutations

  /** `x` after `k` applications of `s`. */
  function Iter(s: seq<nat>, k: nat, x: nat): (r: nat)
    requires IsPerm(s) && x < |s|
    ensures r < |s|
  {
    if k == 0 then x else s[Iter(s, k - 1, x)]
  }

  lemma {:induction false} IterAdd(s: seq<nat>, a: nat, b: nat, x: nat)
    requires IsPerm(s) && x < |s|
    ensures Iter(s, a + b, x) == Iter(s, b, Iter(s, a, x))
    decreases b
  {
    if b > 0 {
      IterAdd(s, a, b - 1, x);
    }
  }

  /** Two iterates that meet differ by a walk that returns to `x`. */
  lemma {:induction false} IterCancel(s: seq<nat>, a: nat, b: nat, x: nat)
    requires IsPerm(s) && x < |s| && a <= b
    requires Iter(s, a, x) == Iter(s, b, x)
    ensures Iter(s, b - a, x) == x
    decreases a
  {
    if a > 0 {
      assert s[Iter(s, a - 1, x)] == s[Iter(s, b - 1, x)];
      IterCancel(s, a - 1, b - 1, x);
    }
  }

  /** Some walk of length in `[1, |s|]` returns to `x`: the `|s| + 1`
      iterates `0 .. |s|` cannot all differ. */
  lemma Returns(s: seq<nat>, x: nat)
    requires IsPerm(s) && x < |s|
    ensures exists k :: 1 <= k <= |s| && Iter(s, k, x) == x
  {
    var n := |s|;
    var t := seq(n + 1, k requires 0 <= k <= n => Iter(s, k, x));
    if Injective(t) {
      InjectiveBound(t, n);
      assert false;
    }
    var a, b :| 0 <= a < |t| && 0 <= b < |t| && t[a] == t[b] && a != b;
    if a < b {
      IterCancel(s, a, b, x);
      assert Iter(s, b - a, x) == x;
    } else {
      IterCancel(s, b, a, x);
      assert Iter(s, a - b, x) == x;
    }
  }

  /** The length of the cycle through `x`: the least `L >= 1` with
      `Iter(s, L, x) == x`. Computed as the `pow` loop does: start with
      `count = 1` at `j = s[x]` and step until `j` is back at `x`. */
  function CycleLength(s: seq<nat>, x: nat): (L: nat)
    requires IsPerm(s) && x < |s|
    ensures 1 <= L <= |s|
    ensures Iter(s, L, x) == x
    ensures forall k :: 1 <= k < L ==> Iter(s, k, x) != x
  {
    Walk(s, x, s[x], 1)
  }

  /** One step of the counting walk: `j` is `count` steps from `x` and no
      earlier step returned to `x`. */
  function Walk(s: seq<nat>, x: nat, j: nat, count: nat): (L: nat)
    requires IsPerm(s) && x < |s| && 1 <= count
    requires j == Iter(s, count, x)
    requires forall k :: 1 <= k < count ==> Iter(s, k, x) != x
    ensures count <= L <= |s|
    ensures Iter(s, L, x) == x
    ensures forall k :: 1 <= k < L ==> Iter(s, k, x) != x
    decreases |s| - count
  {
    assert count <= |s| && (j != x ==> count < |s|) by {
      Returns(s, x);
      var k :| 1 <= k <= |s| && Iter(s, k, x) == x;
      assert count <= k && (j != x ==> count < k);
    }
    if j == x then count else Walk(s, x, s[j], count + 1)
  }

  /** Walking a whole number of rounds returns to the start. */
  lemma {:induction false} IterRounds(s: seq<nat>, x: nat, q: nat)
    requires IsPerm(s) && x < |s|
    ensures Iter(s, CycleLength(s, x) * q, x) == x
  {
    if q > 0 {
      var L := CycleLength(s, x);
      MulPred(L, q);
      IterAdd(s, L * (q - 1), L, x);
      IterRounds(s, x, q - 1);
    }
  }

  lemma MulPred(L: int, q: int)
    ensures L * q == L * (q - 1) + L
  {
  }

  /** Only the number of steps modulo the cycle length matters. */
  lemma IterMod(s: seq<nat>, k: nat, x: nat)
    requires IsPerm(s) && x < |s|
    ensures Iter(s, k, x) == Iter(s, k % CycleLength(s, x), x)
  {
    var L := CycleLength(s, x);
    var q, r := DivMod(k, L);
    IterAdd(s, L * q, r, x);
    IterRounds(s, x, q);
  }

  /** Euclidean division of a natural number by a positive one. */
  lemma DivMod(k: nat, L: nat) returns (q: nat, r: nat)
    requires L >= 1
    ensures q == k / L && r == k % L && k == L * q + r
  {
    q, r := k / L, k % L;
  }

  /** Step counts congruent modulo the cycle length reach the same point. */
  lemma IterCongruent(s: seq<nat>, a: nat, b: nat, x: nat)
    requires IsPerm(s) && x < |s|
    requires a % CycleLength(s, x) == b % CycleLength(s, x)
    ensures Iter(s, a, x) == Iter(s, b, x)
  {
    IterMod(s, a, x);
    IterMod(s, b, x);
  }

  /** The first `L` iterates are pairwise different. */
  lemma CycleDistinct(s: seq<nat>, x: nat, a: nat, b: nat)
    requires IsPerm(s) && x < |s|
    requires a < b < CycleLength(s, x)
    ensures Iter(s, a, x) != Iter(s, b, x)
  {
    if Iter(s, a, x) == Iter(s, b, x) {
      IterCancel(s, a, b, x);
      assert false;
    }
  }

  /** Every point of a cycle lies on a cycle of the same length. */
  lemma SameCycleLength(s: seq<nat>, x: nat, k: nat)
    requires IsPerm(s) && x < |s|
    ensures CycleLength(s, Iter(s, k, x)) == CycleLength(s, x)
  {
    var y := Iter(s, k, x);
    var L := CycleLength(s, x);
    var M := CycleLength(s, y);
    IterAdd(s, k, L, x);
    IterAdd(s, L, k, x);
    assert Iter(s, L, y) == y;
    IterAdd(s, k, M, x);
    IterCancel(s, k, k + M, x);
    assert Iter(s, M, x) == x;
  }

  /** Euclidean remainders of numbers that differ by a multiple agree. */
  lemma ModShift(y: int, L: int, q: int)
    requires L >= 1
    ensures (y + L * q) % L == y % L
  {
    assert y == L * (y / L) + y % L;
    assert y + L * q == L * (y / L + q) + y % L;
    ModUnique(y + L * q, L, y / L + q, y % L);
  }

  lemma Euclid(a: int, L: int)
    requires L >= 1
    ensures a == L * (a / L) + a % L && 0 <= a % L < L
  {
  }

  lemma ModUnique(a: int, L: int, q: int, r: int)
    requires L >= 1 && a == L * q + r && 0 <= r < L
    ensures a % L == r
  {
    var k := q - a / L;
    assert L * k == a % L - r by {
      assert a == L * (a / L) + a % L;
      assert L * k == L * q - L * (a / L);
    }
    MulBound(L, k);
  }

  lemma MulBound(L: int, k: int)
    requires L >= 1
    ensures k >= 1 ==> L * k >= L
    ensures k <= -1 ==> L * k <= -L
  {
    if k >= 1 {
      assert L * k == L + L * (k - 1);
      assert L * (k - 1) >= 0;
    } else if k <= -1 {
      assert L * k == -L + L * (k + 1);
      assert L * (k + 1) <= 0;
    }
  }
}
