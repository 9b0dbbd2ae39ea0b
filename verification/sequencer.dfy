/** `next()` and `previous()`: the neighbouring permutations in
    lexicographic order, found by one procedure parameterised by the
    direction. `next()` looks for the last ascent, exchanges its left entry
    with the smallest larger entry to its right and reverses the tail;
    `previous()` does the same with every comparison reversed. When there is
    no such position the permutation is returned unchanged: there is no
    wrap-around. */
module Sequencer {
  import opened Helpers
  import opened Permutations
  import opened Ordering

  /** `MT_next` or `MT_previous`. */
  datatype Direction = Next | Previous

  function Flip(d: Direction): (f: Direction)
    ensures f != d
  {
    match d
    case Next => Previous
    case Previous => Next
  }

  /** The comparison the direction uses: `<` for `next`, `>` for
      `previous`. */
  predicate Before(d: Direction, x: int, y: int) {
    match d
    case Next => x < y
    case Previous => x > y
  }

  /** The entry at `m` is before its right neighbour. */
  predicate Ascent(d: Direction, s: seq<nat>, m: int) {
    0 <= m < |s| - 1 && Before(d, s[m], s[m + 1])
  }

  /** No entry is before its right neighbour: the last arrangement in the
      direction `d`. */
  predicate Last(d: Direction, s: seq<nat>) {
    forall m :: 0 <= m < |s| ==> !Ascent(d, s, m)
  }

  // ---------------------------------------------------------------------
  // getNextOrPreviousPermutation

  /** The outer loop: scans `iter` down from `size_ - 2` and stops at the
      first (that is, the rightmost) position whose entry is before its right
      neighbour; -1 when there is none. */
  function FindPivot(s: seq<nat>, d: Direction, iter: int): (k: int)
    requires -1 <= iter <= |s| - 2
    ensures -1 <= k <= iter
    ensures k >= 0 ==> Ascent(d, s, k)
    ensures forall m :: k < m <= iter ==> !Ascent(d, s, m)
    decreases iter + 1
  {
    if iter < 0 then -1
    else if Before(d, s[iter], s[iter + 1]) then iter
    else FindPivot(s, d, iter - 1)
  }

  /** The inner loop from position `j` on: `best` moves to `j` when
      `s[j]` lies strictly between `s[k]` and `s[best]`, so the result is the
      first position, among `best` and those from `j` on that come after
      `s[k]`, holding the entry nearest to `s[k]`. */
  function FindTarget(s: seq<nat>, d: Direction, k: nat, best: nat, j: nat): (e: nat)
    requires k < best < |s| && best <= j <= |s|
    requires Before(d, s[k], s[best])
    ensures k < e < |s| && Before(d, s[k], s[e])
    ensures forall t :: (t == best || j <= t < |s|) && Before(d, s[k], s[t]) ==> !Before(d, s[t], s[e])
    decreases |s| - j
  {
    if j == |s| then best
    else if Before(d, s[j], s[best]) && Before(d, s[k], s[j]) then FindTarget(s, d, k, j, j + 1)
    else FindTarget(s, d, k, best, j + 1)
  }

  /** The pivot of `s`: its last ascent, or -1 when it has none. */
  function Pivot(s: seq<nat>, d: Direction): (k: int)
    ensures -1 <= k
    ensures k >= 0 ==> Ascent(d, s, k)
    ensures forall m :: k < m ==> !Ascent(d, s, m)
    ensures k < 0 <==> Last(d, s)
  {
    if |s| < 2 then -1 else FindPivot(s, d, |s| - 2)
  }

  /** The target for the pivot `k`: among the entries after `k` that come
      after `s[k]`, the first holding the one nearest to `s[k]`. */
  function Target(s: seq<nat>, d: Direction, k: nat): (e: nat)
    requires Ascent(d, s, k)
    ensures k < e < |s| && Before(d, s[k], s[e])
    ensures forall t :: k < t < |s| && Before(d, s[k], s[t]) ==> !Before(d, s[t], s[e])
  {
    FindTarget(s, d, k, k + 1, k + 1)
  }

  /** The exchange of the pivot `k` with the target `e`, then the reversal
      of everything after `k`. */
  function Rearrange(s: seq<nat>, k: nat, e: nat): (t: seq<nat>)
    requires k < e < |s|
    ensures |t| == |s| && multiset(t) == multiset(s)
  {
    Reverse(Swap(s, k, e), k + 1, |s| - 1)
  }

  /** Where each entry of the rearrangement comes from: the prefix stays,
      the target moves to the pivot, and the tail is read backwards with the
      pivot's old entry in the target's place. */
  lemma RearrangeShape(s: seq<nat>, k: nat, e: nat)
    requires k < e < |s|
    ensures var t := Rearrange(s, k, e);
      t[..k] == s[..k] && t[k] == s[e] &&
      forall x :: k < x < |s| ==> t[x] == (if |s| + k - x == e then s[k] else s[|s| + k - x])
  {
    var t := Rearrange(s, k, e);
    var w := Swap(s, k, e);
    assert t[..k] == s[..k];
  }

  /** `getNextOrPreviousPermutation(m)`: a copy of `p`; below size two, or
      when no position is before its right neighbour, the copy is returned
      as it is. Otherwise the pivot is exchanged with the target and the
      entries after the pivot are reversed. */
  function Step(p: Permutation, d: Direction): (r: Permutation)
    ensures Size(r) == Size(p)
    ensures multiset(r.image) == multiset(p.image)
    ensures Last(d, p.image) ==> r == p
    ensures !Last(d, p.image) ==> (Pivot(p.image, d) >= 0 &&
      r.image == Rearrange(p.image, Pivot(p.image, d), Target(p.image, d, Pivot(p.image, d))))
  {
    var s, n := p.image, Size(p);
    if n < 2 then
      p
    else
      var k := FindPivot(s, d, n - 2);
      if k < 0 then
        p
      else
        Permutation(Rearrange(s, k, Target(s, d, k)))
  }

  /** A step keeps a permutation valid. */
  lemma StepKeepsValid(p: Permutation, d: Direction)
    requires Valid(p)
    ensures Valid(Step(p, d))
  {
    RearrangedIsPerm(p.image, Step(p, d).image);
  }

  // ---------------------------------------------------------------------
  // Lexicographic order in a direction

  /** `a` and `b` agree before `i`, and at `i` the entry of `a` is before
      that of `b` in the direction's order: `operator<`'s first difference,
      read from `a` for `next` and from `b` for `previous`. */
  ghost predicate LexAt(d: Direction, a: seq<nat>, b: seq<nat>, i: nat) {
    match d
    case Next => SmallerAt(a, b, i)
    case Previous => SmallerAt(b, a, i)
  }

  ghost predicate LexBefore(d: Direction, a: seq<nat>, b: seq<nat>) {
    exists i: nat :: LexAt(d, a, b, i)
  }

  /** Reversing the direction swaps the arguments. */
  lemma LexFlip(d: Direction, a: seq<nat>, b: seq<nat>)
    ensures LexBefore(d, a, b) <==> LexBefore(Flip(d), b, a)
  {
    if LexBefore(d, a, b) {
      var i: nat :| LexAt(d, a, b, i);
      assert LexAt(Flip(d), b, a, i);
    }
    if LexBefore(Flip(d), b, a) {
      var i: nat :| LexAt(Flip(d), b, a, i);
      assert LexAt(d, a, b, i);
    }
  }

  /** The order is asymmetric, hence irreflexive. */
  lemma LexAsymmetric(d: Direction, a: seq<nat>, b: seq<nat>)
    ensures LexBefore(d, a, b) ==> !LexBefore(d, b, a)
  {
    if LexBefore(d, a, b) {
      var i: nat :| LexAt(d, a, b, i);
      forall j: nat | j < |a| && j < |b|
        ensures !(b[..j] == a[..j] && Before(d, b[j], a[j]))
      {
        if j < i {
          assert a[..i][j] == b[..i][j];
        } else if i < j {
          assert b[..j][i] != a[..j][i];
        }
      }
    }
  }

  /** Dropping an agreeing prefix keeps the first difference. */
  lemma LexDrop(d: Direction, a: seq<nat>, b: seq<nat>, c: nat, i: nat)
    requires c <= i && LexAt(d, a, b, i)
    ensures LexAt(d, a[c..], b[c..], i - c)
  {
    assert a[c..][..i - c] == a[..i][c..] && b[c..][..i - c] == b[..i][c..];
  }

  /** Putting an agreeing prefix back in front keeps the first difference. */
  lemma LexLift(d: Direction, a: seq<nat>, b: seq<nat>, c: nat, j: nat)
    requires c <= |a| && c <= |b| && a[..c] == b[..c]
    requires LexAt(d, a[c..], b[c..], j)
    ensures LexAt(d, a, b, c + j)
  {
    assert a[..c + j] == a[..c] + a[c..][..j];
    assert b[..c + j] == b[..c] + b[c..][..j];
  }

  /** Sequences with the same values that agree on a prefix have the same
      values after it. */
  lemma SuffixValues(a: seq<nat>, b: seq<nat>, c: nat)
    requires c <= |a| && c <= |b| && a[..c] == b[..c]
    requires multiset(a) == multiset(b)
    ensures multiset(a[c..]) == multiset(b[c..])
  {
    assert a == a[..c] + a[c..] && b == b[..c] + b[c..];
    assert multiset(a[c..]) == multiset(a) - multiset(a[..c]);
    assert multiset(b[c..]) == multiset(b) - multiset(b[..c]);
  }

  /** Sequences with the same values and the same first entry have the
      same values after it. */
  lemma TailValues(a: seq<nat>, b: seq<nat>)
    requires |a| > 0 && |b| > 0 && a[0] == b[0] && multiset(a) == multiset(b)
    ensures multiset(a[1..]) == multiset(b[1..])
  {
    assert a == [a[0]] + a[1..] && b == [b[0]] + b[1..];
    assert multiset(a[1..]) == multiset(a) - multiset{a[0]};
    assert multiset(b[1..]) == multiset(b) - multiset{b[0]};
  }

  /** Sequences with the same values: an entry of one is found in the
      other. */
  lemma FindValue(a: seq<nat>, b: seq<nat>, i: nat) returns (m: nat)
    requires multiset(a) == multiset(b) && i < |b|
    ensures m < |a| && a[m] == b[i]
  {
    assert b[i] in multiset(b);
    m :| 0 <= m < |a| && a[m] == b[i];
  }

  /** From `c` on, every entry is before every later one. */
  predicate AscendingFrom(d: Direction, s: seq<nat>, c: nat) {
    forall a, b :: c <= a < b < |s| ==> Before(d, s[a], s[b])
  }

  /** An arrangement in increasing order (in direction `d`) comes first
      among the arrangements of its values. */
  lemma {:induction false} AscendingFirst(d: Direction, a: seq<nat>, b: seq<nat>)
    requires |a| == |b| && multiset(a) == multiset(b)
    requires forall i, j :: 0 <= i < j < |a| ==> Before(d, a[i], a[j])
    ensures a == b || LexBefore(d, a, b)
  {
    if a != b {
      if a[0] == b[0] {
        TailValues(a, b);
        assert a == [a[0]] + a[1..] && b == [b[0]] + b[1..];
        AscendingFirst(d, a[1..], b[1..]);
        var j: nat :| LexAt(d, a[1..], b[1..], j);
        assert a[..1] == b[..1];
        LexLift(d, a, b, 1, j);
      } else {
        var m := FindValue(a, b, 0);
        assert LexAt(d, a, b, 0);
      }
    }
  }

  /** An arrangement in decreasing order (in direction `d`) comes last
      among the arrangements of its values. */
  lemma {:induction false} DescendingLast(d: Direction, a: seq<nat>, b: seq<nat>)
    requires |a| == |b| && multiset(a) == multiset(b)
    requires forall i, j :: 0 <= i < j < |a| ==> Before(d, a[j], a[i])
    ensures forall i: nat :: !LexAt(d, a, b, i)
  {
    if |a| > 0 {
      var m := FindValue(a, b, 0);
      assert !LexAt(d, a, b, 0);
      if a[0] == b[0] {
        TailValues(a, b);
        DescendingLast(d, a[1..], b[1..]);
        forall i: nat | 0 < i
          ensures !LexAt(d, a, b, i)
        {
          if i < |a| && a[..i] == b[..i] {
            assert a[1..][..i - 1] == b[1..][..i - 1];
            assert !LexAt(d, a[1..], b[1..], i - 1);
          }
        }
      } else {
        forall i: nat | 0 < i < |a|
          ensures a[..i] != b[..i]
        {
          assert a[..i][0] != b[..i][0];
        }
      }
    }
  }

  /** Adjacent entries in decreasing order, and no repeated value, make the
      whole range decreasing. */
  lemma DescendingRun(d: Direction, s: seq<nat>, k: int)
    requires Injective(s) && -1 <= k
    requires forall m :: k < m ==> !Ascent(d, s, m)
    ensures forall a, b :: k < a < b < |s| ==> Before(d, s[b], s[a])
  {
    forall a, b | k < a < b < |s|
      ensures Before(d, s[b], s[a])
    {
      DescendingPair(d, s, k, a, b);
    }
  }

  lemma {:induction false} DescendingPair(d: Direction, s: seq<nat>, k: int, a: int, b: int)
    requires Injective(s) && -1 <= k
    requires forall m :: k < m ==> !Ascent(d, s, m)
    requires k < a < b < |s|
    ensures Before(d, s[b], s[a])
    decreases b - a
  {
    if a + 1 < b {
      DescendingPair(d, s, k, a, b - 1);
      DescendingPair(d, s, k, b - 1, b);
    } else {
      assert !Ascent(d, s, a);
      assert s[a] != s[b];
    }
  }

  // ---------------------------------------------------------------------
  // What a step does

  /** A last arrangement has nothing after it. */
  lemma LastIsMaximal(d: Direction, s: seq<nat>, t: seq<nat>)
    requires IsPerm(s) && Last(d, s)
    requires |t| == |s| && multiset(t) == multiset(s)
    ensures !LexBefore(d, s, t)
  {
    DescendingRun(d, s, -1);
    DescendingLast(d, s, t);
  }

  /** The pivot and target of a step that changes something, with the facts
      the two loops establish about them. */
  lemma StepParts(p: Permutation, d: Direction) returns (k: nat, e: nat)
    requires Valid(p) && !Last(d, p.image)
    ensures k < e < Size(p)
    ensures Step(p, d).image == Rearrange(p.image, k, e)
    ensures Before(d, p.image[k], p.image[e])
    ensures forall t :: k < t < Size(p) && Before(d, p.image[k], p.image[t]) ==>
      !Before(d, p.image[t], p.image[e])
    ensures forall a, b :: k < a < b < Size(p) ==> Before(d, p.image[b], p.image[a])
  {
    var s := p.image;
    k := Pivot(s, d);
    e := Target(s, d, k);
    DescendingRun(d, s, k);
  }

  /** A step that changes something moves strictly forward. */
  lemma StepAdvances(p: Permutation, d: Direction)
    requires Valid(p) && !Last(d, p.image)
    ensures LexBefore(d, p.image, Step(p, d).image)
  {
    var k, e := StepParts(p, d);
    var s := p.image;
    RearrangeShape(s, k, e);
    assert LexAt(d, s, Rearrange(s, k, e), k);
  }

  /** The entries after the pivot come out in increasing order. */
  lemma TailAscending(d: Direction, s: seq<nat>, k: nat, e: nat)
    requires IsPerm(s) && k < e < |s|
    requires Before(d, s[k], s[e])
    requires forall t :: k < t < |s| && Before(d, s[k], s[t]) ==> !Before(d, s[t], s[e])
    requires forall a, b :: k < a < b < |s| ==> Before(d, s[b], s[a])
    ensures AscendingFrom(d, Rearrange(s, k, e), k + 1)
  {
    var n := |s|;
    var r := Rearrange(s, k, e);
    RearrangeShape(s, k, e);
    forall a, b | k < a < b < n
      ensures Before(d, r[a], r[b])
    {
      var x, y := n + k - b, n + k - a;
      // `r[a]` comes from position `y`, `r[b]` from `x`, and `x < y`
      if y == e {
        assert Before(d, s[e], s[x]);
      } else if x == e {
        assert s[y] != s[k];
      }
    }
  }

  /** A step that changes something reaches the NEAREST later arrangement of
      the same values: any `t` after `p` is the result or comes after it. */
  lemma StepIsNearest(p: Permutation, d: Direction, t: seq<nat>)
    requires Valid(p) && |t| == Size(p) && multiset(t) == multiset(p.image)
    requires LexBefore(d, p.image, t)
    ensures !Last(d, p.image)
    ensures Step(p, d).image == t || LexBefore(d, Step(p, d).image, t)
  {
    var s := p.image;
    if Last(d, s) {
      LastIsMaximal(d, s, t);
      assert false;
    }
    var k, e := StepParts(p, d);
    var i: nat :| LexAt(d, s, t, i);
    if i < k {
      NearestBeforePivot(d, s, t, k, e, i);
    } else if i > k {
      NearestAfterPivot(d, s, t, k, i);
    } else {
      NearestAtPivot(d, s, t, k, e);
    }
  }

  /** The case where `t` first differs from `p` before the pivot. */
  lemma NearestBeforePivot(d: Direction, s: seq<nat>, t: seq<nat>, k: nat, e: nat, i: nat)
    requires k < e < |s| && i < k && LexAt(d, s, t, i)
    ensures LexAt(d, Rearrange(s, k, e), t, i)
  {
    var r := Rearrange(s, k, e);
    RearrangeShape(s, k, e);
    assert r[..i] == r[..k][..i] && s[..i] == s[..k][..i];
    assert r[i] == r[..k][i];
  }

  /** `t` cannot first differ from `p` after the pivot: the entries there
      are in decreasing order, the last arrangement of their values. */
  lemma NearestAfterPivot(d: Direction, s: seq<nat>, t: seq<nat>, k: nat, i: nat)
    requires k < i && |t| == |s| && multiset(t) == multiset(s)
    requires forall a, b :: k < a < b < |s| ==> Before(d, s[b], s[a])
    ensures !LexAt(d, s, t, i)
  {
    if LexAt(d, s, t, i) {
      assert s[..k + 1] == t[..k + 1] by {
        assert s[..k + 1] == s[..i][..k + 1] && t[..k + 1] == t[..i][..k + 1];
      }
      SuffixValues(s, t, k + 1);
      LexDrop(d, s, t, k + 1, i);
      DescendingLast(d, s[k + 1..], t[k + 1..]);
      assert false;
    }
  }

  /** The case where `t` first differs from `p` at the pivot. */
  lemma NearestAtPivot(d: Direction, s: seq<nat>, t: seq<nat>, k: nat, e: nat)
    requires IsPerm(s) && |t| == |s| && multiset(t) == multiset(s)
    requires k < e < |s| && LexAt(d, s, t, k)
    requires Before(d, s[k], s[e])
    requires forall x :: k < x < |s| && Before(d, s[k], s[x]) ==> !Before(d, s[x], s[e])
    requires forall a, b :: k < a < b < |s| ==> Before(d, s[b], s[a])
    ensures Rearrange(s, k, e) == t || LexBefore(d, Rearrange(s, k, e), t)
  {
    if t[k] != s[e] {
      PivotBelowTarget(d, s, t, k, e);
    } else {
      PivotAtTarget(d, s, t, k, e);
    }
  }

  /** `t` puts at the pivot a value other than the target's: it must be
      further from `s[k]`, so the rearrangement comes first. */
  lemma PivotBelowTarget(d: Direction, s: seq<nat>, t: seq<nat>, k: nat, e: nat)
    requires |t| == |s| && multiset(t) == multiset(s)
    requires k < e < |s| && LexAt(d, s, t, k) && t[k] != s[e]
    requires forall x :: k < x < |s| && Before(d, s[k], s[x]) ==> !Before(d, s[x], s[e])
    ensures LexAt(d, Rearrange(s, k, e), t, k)
  {
    RearrangeShape(s, k, e);
    // `t[k]` is one of the values after the pivot that come after `s[k]`
    SuffixValues(s, t, k);
    var m' := FindValue(s[k..], t[k..], 0);
    var m := k + m';
    assert s[m] == t[k] && k < m;
  }

  /** `t` puts the target's value at the pivot: the rest of the
      rearrangement is in increasing order, so it comes first among the
      arrangements that agree up to the pivot. */
  lemma PivotAtTarget(d: Direction, s: seq<nat>, t: seq<nat>, k: nat, e: nat)
    requires IsPerm(s) && |t| == |s| && multiset(t) == multiset(s)
    requires k < e < |s| && LexAt(d, s, t, k) && t[k] == s[e]
    requires Before(d, s[k], s[e])
    requires forall x :: k < x < |s| && Before(d, s[k], s[x]) ==> !Before(d, s[x], s[e])
    requires forall a, b :: k < a < b < |s| ==> Before(d, s[b], s[a])
    ensures Rearrange(s, k, e) == t || LexBefore(d, Rearrange(s, k, e), t)
  {
    PrefixAtTarget(s, t, k, e);
    TailAscending(d, s, k, e);
    FirstAfterPrefix(d, Rearrange(s, k, e), t, k + 1);
  }

  /** The rearrangement and `t` agree up to and including the pivot. */
  lemma PrefixAtTarget(s: seq<nat>, t: seq<nat>, k: nat, e: nat)
    requires k < e < |s| == |t| && t[..k] == s[..k] && t[k] == s[e]
    ensures Rearrange(s, k, e)[..k + 1] == t[..k + 1]
  {
    var r := Rearrange(s, k, e);
    RearrangeShape(s, k, e);
    assert r[..k + 1] == r[..k] + [r[k]] && t[..k + 1] == t[..k] + [t[k]];
  }

  /** Among arrangements that agree on a prefix, one increasing after it
      comes first. */
  lemma FirstAfterPrefix(d: Direction, r: seq<nat>, t: seq<nat>, c: nat)
    requires c <= |r| == |t| && r[..c] == t[..c] && multiset(r) == multiset(t)
    requires AscendingFrom(d, r, c)
    ensures r == t || LexBefore(d, r, t)
  {
    SuffixValues(r, t, c);
    AscendingFirst(d, r[c..], t[c..]);
    if r[c..] == t[c..] {
      assert r == r[..c] + r[c..] && t == t[..c] + t[c..];
    } else {
      var j: nat :| LexAt(d, r[c..], t[c..], j);
      LexLift(d, r, t, c, j);
    }
  }

  /** A step leaves a permutation unchanged exactly when it is the last
      arrangement in its direction. */
  lemma UnchangedIffLast(p: Permutation, d: Direction)
    requires Valid(p)
    ensures Step(p, d) == p <==> Last(d, p.image)
  {
    if !Last(d, p.image) {
      StepAdvances(p, d);
      LexAsymmetric(d, p.image, Step(p, d).image);
    }
  }

  /** A step that is not at the last arrangement in its direction is undone
      by a step in the other direction. */
  lemma StepRoundTrip(p: Permutation, d: Direction)
    requires Valid(p) && !Last(d, p.image)
    ensures Step(Step(p, d), Flip(d)) == p
  {
    var s := p.image;
    var r := Step(p, d);
    StepKeepsValid(p, d);
    UnchangedIffLast(p, d);
    StepAdvances(p, d);
    LexFlip(d, s, r.image);
    StepIsNearest(r, Flip(d), s);
    var q := Step(r, Flip(d));
    if q != p {
      // `q` would lie strictly between `p` and `r`
      StepKeepsValid(r, Flip(d));
      LexFlip(d, s, q.image);
      StepAdvances(r, Flip(d));
      LexFlip(Flip(d), r.image, q.image);
      assert Flip(Flip(d)) == d;
      StepIsNearest(p, d, q.image);
      LexAsymmetric(d, q.image, r.image);
      assert false;
    }
  }

  // ---------------------------------------------------------------------
  // next, previous, ++ and --

  /** `next()`. */
  function NextPermutation(p: Permutation): (r: Permutation)
    ensures Size(r) == Size(p) && (Valid(p) ==> Valid(r))
  {
    if Valid(p) then StepKeepsValid(p, Next); Step(p, Next) else Step(p, Next)
  }

  /** `previous()`. */
  function PreviousPermutation(p: Permutation): (r: Permutation)
    ensures Size(r) == Size(p) && (Valid(p) ==> Valid(r))
  {
    if Valid(p) then StepKeepsValid(p, Previous); Step(p, Previous) else Step(p, Previous)
  }

  /** The direction's order is `operator<` for `next` and `operator>` for
      `previous`. */
  lemma LexIsLess(a: Permutation, b: Permutation)
    requires Size(a) == Size(b)
    ensures LexBefore(Next, a.image, b.image) <==> Less(a, b)
    ensures LexBefore(Previous, a.image, b.image) <==> Greater(a, b)
  {
    if LexBefore(Next, a.image, b.image) {
      var i: nat :| LexAt(Next, a.image, b.image, i);
      assert SmallerAt(a.image, b.image, i);
    }
    if Less(a, b) {
      var i: nat :| SmallerAt(a.image, b.image, i);
      assert LexAt(Next, a.image, b.image, i);
    }
    if LexBefore(Previous, a.image, b.image) {
      var i: nat :| LexAt(Previous, a.image, b.image, i);
      assert SmallerAt(b.image, a.image, i);
    }
    if Greater(a, b) {
      var i: nat :| SmallerAt(b.image, a.image, i);
      assert LexAt(Previous, a.image, b.image, i);
    }
  }

  /** `next()` is the least permutation of the same size greater than `p`
      under `operator<`; the greatest one is returned unchanged. */
  lemma NextIsSuccessor(p: Permutation, t: Permutation)
    requires Valid(p) && Valid(t) && Size(t) == Size(p)
    ensures NextPermutation(p) == p || Less(p, NextPermutation(p))
    ensures Less(p, t) ==> NextPermutation(p) != p && LessEq(NextPermutation(p), t)
  {
    var r := NextPermutation(p);
    UnchangedIffLast(p, Next);
    if r != p {
      StepAdvances(p, Next);
      LexIsLess(p, r);
    }
    if Less(p, t) {
      LexIsLess(p, t);
      SameValues(t.image, p.image);
      StepIsNearest(p, Next, t.image);
      LexIsLess(r, t);
    }
  }

  /** `previous()` is the greatest permutation of the same size less than
      `p`; the least one is returned unchanged. */
  lemma PreviousIsPredecessor(p: Permutation, t: Permutation)
    requires Valid(p) && Valid(t) && Size(t) == Size(p)
    ensures PreviousPermutation(p) == p || Greater(p, PreviousPermutation(p))
    ensures Greater(p, t) ==> PreviousPermutation(p) != p && GreaterEq(PreviousPermutation(p), t)
  {
    var r := PreviousPermutation(p);
    UnchangedIffLast(p, Previous);
    if r != p {
      StepAdvances(p, Previous);
      LexIsLess(p, r);
    }
    if Greater(p, t) {
      LexIsLess(p, t);
      SameValues(t.image, p.image);
      StepIsNearest(p, Previous, t.image);
      LexIsLess(r, t);
      Trichotomy(r, t);
    }
  }

  /** `next()` undoes `previous()` and the other way round, unless the step
      had nothing to do. */
  lemma NextPreviousRoundTrip(p: Permutation)
    requires Valid(p)
    ensures NextPermutation(p) != p ==> PreviousPermutation(NextPermutation(p)) == p
    ensures PreviousPermutation(p) != p ==> NextPermutation(PreviousPermutation(p)) == p
  {
    UnchangedIffLast(p, Next);
    UnchangedIffLast(p, Previous);
    if NextPermutation(p) != p {
      StepRoundTrip(p, Next);
    }
    if PreviousPermutation(p) != p {
      StepRoundTrip(p, Previous);
    }
  }

  /** The receiver after an increment or decrement operator, and the value
      the operator returns. */
  datatype Updated = Updated(receiver: Permutation, value: Permutation)

  /** `operator++()`: the receiver becomes `next()` and is returned. */
  function PreIncrement(p: Permutation): (u: Updated)
    ensures u.receiver == NextPermutation(p) && u.value == u.receiver && Size(u.receiver) == Size(p)
    ensures Valid(p) ==> Valid(u.receiver)
  {
    var r := NextPermutation(p); Updated(r, r)
  }

  /** `operator++(int)`: the receiver becomes `next()`; its old value is
      returned. */
  function PostIncrement(p: Permutation): (u: Updated)
    ensures u.receiver == NextPermutation(p) && u.value == p && Size(u.receiver) == Size(p)
    ensures Valid(p) ==> Valid(u.receiver)
  {
    Updated(NextPermutation(p), p)
  }

  /** `operator--()`: the receiver becomes `previous()` and is returned. */
  function PreDecrement(p: Permutation): (u: Updated)
    ensures u.receiver == PreviousPermutation(p) && u.value == u.receiver && Size(u.receiver) == Size(p)
    ensures Valid(p) ==> Valid(u.receiver)
  {
    var r := PreviousPermutation(p); Updated(r, r)
  }

  /** `operator--(int)`: the receiver becomes `previous()`; its old value is
      returned. */
  function PostDecrement(p: Permutation): (u: Updated)
    ensures u.receiver == PreviousPermutation(p) && u.value == p && Size(u.receiver) == Size(p)
    ensures Valid(p) ==> Valid(u.receiver)
  {
    Updated(PreviousPermutation(p), p)
  }

  /** `p++` followed by `--p` restores the receiver and returns the value
      `p` had; likewise `p--` followed by `++p`. The prefix and postfix forms
      leave the receiver in the same state. */
  lemma IncrementDecrement(p: Permutation)
    requires Valid(p)
    ensures PostIncrement(p).receiver == PreIncrement(p).value
    ensures PostDecrement(p).receiver == PreDecrement(p).value
    ensures NextPermutation(p) != p ==>
      PostIncrement(p).value == p && PreDecrement(PostIncrement(p).receiver).receiver == p
    ensures PreviousPermutation(p) != p ==>
      PostDecrement(p).value == p && PreIncrement(PostDecrement(p).receiver).receiver == p
  {
    NextPreviousRoundTrip(p);
  }
}
