/** `pow(degree)`: raising a permutation to an integer power by walking each
    cycle once. The reference meaning of `p^d` is repeated composition (and
    the inverse's power for negative `d`); the cycle walk is proved to agree
    with it. */
module Power {
  import opened Permutations
  import opened Cycles

  /** `static_cast<unsigned int>(-1)`: the marker for a position of the
      result whose image is not yet known. */
  const Unset: nat := 0xFFFF_FFFF

  /** The largest value of the C++ `int` that holds the degree and the
      cycle length. */
  const IntMax: int := 0x7FFF_FFFF

  /** `p^d` by its definition: the identity for `d == 0`, `p * p^(d - 1)`
      above, and the inverse's power `-d` below. */
  function Power(p: Permutation, d: int): (r: Permutation)
    requires Valid(p)
    ensures Valid(r) && Size(r) == Size(p)
    decreases if d < 0 then 1 - d else d
  {
    if d < 0 then Power(Inverse(p), -d)
    else if d == 0 then Identity(Size(p))
    else Compose(p, Power(p, d - 1))
  }

  /** A non-negative power sends `x` along `d` steps of `p`. */
  lemma {:induction false} PowerIter(p: Permutation, d: nat, x: nat)
    requires Valid(p) && x < Size(p)
    ensures Power(p, d).image[x] == Iter(p.image, d, x)
  {
    if d > 0 {
      PowerIter(p, d - 1, x);
    }
  }

  lemma PowerOne(p: Permutation)
    requires Valid(p)
    ensures Power(p, 1) == p
  {
    ComposeIdentity(p);
  }

  lemma PowerMinusOne(p: Permutation)
    requires Valid(p)
    ensures Power(p, -1) == Inverse(p)
  {
    PowerOne(Inverse(p));
  }

  /** `p^L` fixes every point of a cycle of length `L`. */
  lemma PowerCycleLengthFixes(p: Permutation, x: nat)
    requires Valid(p) && x < Size(p)
    ensures Power(p, CycleLength(p.image, x)).image[x] == x
  {
    PowerIter(p, CycleLength(p.image, x), x);
  }

  /** Where `pow` sends `x`: `d mod L` steps along the cycle through `x`,
      `L` being that cycle's length. */
  ghost function PowImage(s: seq<nat>, d: int, x: nat): nat
    requires IsPerm(s) && x < |s|
  {
    Iter(s, d % CycleLength(s, x), x)
  }

  /** For every degree the cycle walk agrees with the definition of `p^d`. */
  lemma PowByCycles(p: Permutation, d: int, x: nat)
    requires Valid(p) && x < Size(p)
    ensures Power(p, d).image[x] == PowImage(p.image, d, x)
  {
    if d >= 0 {
      var k: nat := d;
      PowerIter(p, k, x);
      IterMod(p.image, k, x);
      assert Power(p, d).image[x] == Iter(p.image, k, x);
      assert Iter(p.image, k, x) == PowImage(p.image, d, x);
    } else {
      var k: nat := 0 - d;
      assert Power(p, d) == Power(Inverse(p), k);
      PowerIter(Inverse(p), k, x);
      InverseIter(p, k, x);
      BackwardWalk(p.image, d, x);
      IterInjective(p.image, k, Power(p, d).image[x], PowImage(p.image, d, x));
    }
  }

  /** `k` steps of the inverse are undone by `k` steps of `p`. */
  lemma InverseIter(p: Permutation, k: nat, x: nat)
    requires Valid(p) && x < Size(p)
    ensures Iter(p.image, k, Iter(Inverse(p).image, k, x)) == x
  {
    var q := Inverse(p);
    UndoIter(p.image, q.image, k, x);
  }

  /** `k` steps of a right inverse `q` of `s` are undone by `k` steps of
      `s`. */
  lemma {:induction false} UndoIter(s: seq<nat>, q: seq<nat>, k: nat, x: nat)
    requires IsPerm(s) && IsPerm(q) && |q| == |s| && x < |s|
    requires forall v :: 0 <= v < |s| ==> s[q[v]] == v
    ensures Iter(s, k, Iter(q, k, x)) == x
  {
    if k > 0 {
      var w := Iter(q, k - 1, x);
      var z := Iter(q, k, x);
      assert z == q[w];
      UndoIter(s, q, k - 1, x);
      IterFirst(s, k, z);
    }
  }

  /** Walking `d mod L` steps forward and then `-d` more steps returns to
      `x`, for a negative `d`. */
  lemma BackwardWalk(s: seq<nat>, d: int, x: nat)
    requires IsPerm(s) && x < |s| && d < 0
    ensures Iter(s, 0 - d, PowImage(s, d, x)) == x
  {
    var L := CycleLength(s, x);
    var e: nat := d % L;
    var k: nat := 0 - d;
    IterAdd(s, e, k, x);
    Euclid(d, L);
    assert e + k == L * (d / L) * -1 + 0 by {
      assert e == d - L * (d / L);
    }
    NegatedRounds(L, d / L);
    IterCongruent(s, e + k, 0, x);
  }

  /** A multiple of `L` leaves no remainder. */
  lemma NegatedRounds(L: int, q: int)
    requires L >= 1
    ensures (L * q * -1) % L == 0 % L
  {
    ModShift(0, L, -q);
    assert L * q * -1 == 0 + L * -q;
  }

  /** The first of `k` steps. */
  lemma IterFirst(s: seq<nat>, k: nat, a: nat)
    requires IsPerm(s) && a < |s| && k > 0
    ensures Iter(s, k, a) == Iter(s, k - 1, s[a])
  {
    IterAdd(s, 1, k - 1, a);
    assert Iter(s, 1, a) == s[a];
  }

  /** `k` steps of `p` from two points meet only if the points are equal. */
  lemma {:induction false} IterInjective(s: seq<nat>, k: nat, a: nat, b: nat)
    requires IsPerm(s) && a < |s| && b < |s|
    requires Iter(s, k, a) == Iter(s, k, b)
    ensures a == b
  {
    if k > 0 {
      IterFirst(s, k, a);
      IterFirst(s, k, b);
      IterInjective(s, k - 1, s[a], s[b]);
    }
  }

  /** C++ `%` on `int`: the quotient is truncated toward zero, so a negative
      dividend leaves a remainder that is zero or negative. */
  function TruncMod(a: int, b: int): (r: int)
    requires b >= 1
    ensures a >= 0 ==> r == a % b
    ensures a < 0 ==> -b < r <= 0
  {
    if a >= 0 then a % b else -((-a) % b)
  }

  /** For a non-negative dividend, and for any dividend with divisor 1, C++
      and Euclidean remainders agree. */
  lemma TruncModAgrees(a: int, b: int)
    requires b >= 1
    ensures a >= 0 || b == 1 ==> TruncMod(a, b) == a % b
  {
  }

  /** The step count `(degree + count - 1) % count` as the source computes
      it, with C++ `%`. From `degree >= -1` on it is the Euclidean remainder
      and so a valid number of steps. */
  function LeadAsWritten(degree: int, count: int): (c: int)
    requires count >= 1
    ensures degree >= -1 ==> 0 <= c < count && c == (degree + count - 1) % count
  {
    TruncModAgrees(degree + count - 1, count);
    TruncMod(degree + count - 1, count)
  }

  /** For `degree = -3` on a cycle of length 3 the source's step count is
      negative, so the loop `for (; count; --count)` does not reach zero; the
      walk needs 2 steps. Whether a degree below -1 goes wrong depends on the
      cycle: `degree = -2` fails on a 2-cycle but is right on a 3-cycle. */
  lemma LeadAsWrittenNegative()
    ensures LeadAsWritten(-3, 3) == -1 && LeadCorrected(-3, 3) == 2
    ensures LeadAsWritten(-2, 2) == -1 && LeadCorrected(-2, 2) == 1
    ensures LeadAsWritten(-2, 3) == 0 == LeadCorrected(-2, 3)
  {
    assert TruncMod(-1, 3) == -((1) % 3);
    assert TruncMod(-1, 2) == -((1) % 2);
  }

  /** The step count with the Euclidean remainder: one step short of
      `degree mod count`, for every degree. */
  function LeadCorrected(degree: int, count: int): (c: nat)
    requires count >= 1
    ensures c < count && (c + 1) % count == degree % count
  {
    ModStep(degree, count, 0);
    Euclid(degree, count);
    ModUnique(degree % count, count, 0, degree % count);
    (degree + count - 1) % count
  }

  /** With `count` the length of the cycle through `i`, the source's step
      count is `(degree + L - 1) mod L`. */
  lemma LeadAsWrittenAt(s: seq<nat>, degree: int, i: nat, count: int)
    requires IsPerm(s) && i < |s| && -1 <= degree && count == CycleLength(s, i)
    ensures LeadAsWritten(degree, count) == (degree + CycleLength(s, i) - 1) % CycleLength(s, i)
  {
  }

  lemma LeadCorrectedAt(s: seq<nat>, degree: int, i: nat, count: int)
    requires IsPerm(s) && i < |s| && count == CycleLength(s, i)
    ensures LeadCorrected(degree, count) == (degree + CycleLength(s, i) - 1) % CycleLength(s, i)
  {
  }

  /** `pow(degree)`: every position starts at the marker. For each position
      `i` still marked, count the length `L` of its cycle, advance a second
      cursor `two` by `(degree + L - 1) % L` steps, then walk the cycle with
      `one` from `i`, writing `data_[two]` at `one` and advancing both until
      `one` reaches a position already written. The C++ `int` arithmetic
      needs `degree + L - 1` to fit, and a degree below `-1` can leave a
      negative step count. */
  method Pow(p: Permutation, degree: int) returns (r: Permutation)
    requires Valid(p)
    requires -1 <= degree && degree + Size(p) - 1 <= IntMax && Size(p) <= IntMax
    ensures Valid(r) && Size(r) == Size(p)
    ensures forall x :: 0 <= x < Size(p) ==>
      r.image[x] == Iter(p.image, degree % CycleLength(p.image, x), x)
    ensures r == Power(p, degree)
  {
    var s := p.image;
    var n := |s|;
    var temp: seq<nat> := seq(n, _ => Unset);
    assert p == Permutation(s);
    ghost var target := Power(Permutation(s), degree).image;
    var i := 0;
    while i < n
      invariant i <= n && |temp| == n
      invariant Written(target, temp)
      invariant Closed(s, temp)
      invariant forall x :: 0 <= x < i ==> temp[x] != Unset
    {
      temp := Visit(s, degree, target, temp, i);
      i := i + 1;
    }
    r := Permutation(temp);
    PowAllWritten(p, degree, temp);
  }

  /** `pow(degree)` with the step count taken as a Euclidean remainder,
      which is what a negative degree needs: the result is `p^degree` for
      every degree in the range of `int`. */
  method PowCorrected(p: Permutation, degree: int) returns (r: Permutation)
    requires Valid(p)
    requires -IntMax - 1 <= degree && degree + Size(p) - 1 <= IntMax && Size(p) <= IntMax
    ensures Valid(r) && Size(r) == Size(p)
    ensures forall x :: 0 <= x < Size(p) ==>
      r.image[x] == Iter(p.image, degree % CycleLength(p.image, x), x)
    ensures r == Power(p, degree)
  {
    var s := p.image;
    var n := |s|;
    var temp: seq<nat> := seq(n, _ => Unset);
    assert p == Permutation(s);
    ghost var target := Power(Permutation(s), degree).image;
    var i := 0;
    while i < n
      invariant i <= n && |temp| == n
      invariant Written(target, temp)
      invariant Closed(s, temp)
      invariant forall x :: 0 <= x < i ==> temp[x] != Unset
    {
      temp := VisitCorrected(s, degree, target, temp, i);
      i := i + 1;
    }
    r := Permutation(temp);
    PowAllWritten(p, degree, temp);
  }

  /** One turn of the outer loop of `pow`: a marked position `i` gets its
      whole cycle written; a written one is left alone. */
  method Visit(s: seq<nat>, degree: int, ghost target: seq<nat>, temp: seq<nat>, i: nat)
    returns (r: seq<nat>)
    requires IsPerm(s) && i < |s| && |temp| == |s| && |s| <= IntMax
    requires -1 <= degree && degree + |s| - 1 <= IntMax
    requires target == Power(Permutation(s), degree).image
    requires Written(target, temp) && Closed(s, temp)
    requires forall x :: 0 <= x < i ==> temp[x] != Unset
    ensures |r| == |s| && Written(target, r) && Closed(s, r)
    ensures forall x :: 0 <= x <= i ==> r[x] != Unset
  {
    if temp[i] == Unset {
      var count := CountCycle(s, i);
      LeadAsWrittenAt(s, degree, i, count);
      var lead := LeadAsWritten(degree, count);
      r := FillFrom(s, degree, target, temp, i, lead);
    } else {
      r := temp;
    }
  }

  /** The same turn with the corrected step count. */
  method VisitCorrected(s: seq<nat>, degree: int, ghost target: seq<nat>, temp: seq<nat>, i: nat)
    returns (r: seq<nat>)
    requires IsPerm(s) && i < |s| && |temp| == |s| && |s| <= IntMax
    requires -IntMax - 1 <= degree && degree + |s| - 1 <= IntMax
    requires target == Power(Permutation(s), degree).image
    requires Written(target, temp) && Closed(s, temp)
    requires forall x :: 0 <= x < i ==> temp[x] != Unset
    ensures |r| == |s| && Written(target, r) && Closed(s, r)
    ensures forall x :: 0 <= x <= i ==> r[x] != Unset
  {
    if temp[i] == Unset {
      var count := CountCycle(s, i);
      LeadCorrectedAt(s, degree, i, count);
      var lead := LeadCorrected(degree, count);
      r := FillFrom(s, degree, target, temp, i, lead);
    } else {
      r := temp;
    }
  }

  /** The body of the outer loop for a marked position `i`, once the step
      count `lead` is known: advance `two` by `lead` steps and write the
      whole cycle through `i`. */
  method FillFrom(s: seq<nat>, degree: int, ghost target: seq<nat>, temp: seq<nat>, i: nat, lead: int)
    returns (r: seq<nat>)
    requires IsPerm(s) && i < |s| && |temp| == |s| && |s| <= IntMax
    requires lead == (degree + CycleLength(s, i) - 1) % CycleLength(s, i)
    requires target == Power(Permutation(s), degree).image
    requires Written(target, temp) && Closed(s, temp) && temp[i] == Unset
    requires forall x :: 0 <= x < i ==> temp[x] != Unset
    ensures |r| == |s| && Written(target, r) && Closed(s, r)
    ensures forall x :: 0 <= x <= i ==> r[x] != Unset
  {
    var two := Advance(s, i, lead);
    AlignedPower(s, degree, i, two);
    r := FillCycle(s, target, temp, i, two);
    forall x | 0 <= x < i
      ensures r[x] != Unset
    {
      assert temp[x] != Unset;
    }
  }

  /** Once every position is written, the result is `p^degree`. */
  lemma PowAllWritten(p: Permutation, d: int, temp: seq<nat>)
    requires Valid(p) && |temp| == Size(p)
    requires Written(Power(p, d).image, temp)
    requires forall x :: 0 <= x < Size(p) ==> temp[x] != Unset
    ensures temp == Power(p, d).image
    ensures forall x :: 0 <= x < Size(p) ==>
      temp[x] == Iter(p.image, d % CycleLength(p.image, x), x)
  {
    forall x | 0 <= x < Size(p)
      ensures temp[x] == Power(p, d).image[x] == Iter(p.image, d % CycleLength(p.image, x), x)
    {
      PowByCycles(p, d, x);
    }
  }

  /** Every written position of `temp` holds its value in `target`. */
  ghost predicate Written(target: seq<nat>, temp: seq<nat>) {
    |temp| == |target| && forall x :: 0 <= x < |temp| ==> temp[x] == Unset || temp[x] == target[x]
  }

  /** The written positions are closed under `s`: whole cycles are written at
      a time. */
  ghost predicate Closed(s: seq<nat>, temp: seq<nat>)
    requires IsPerm(s) && |temp| == |s|
  {
    forall x {:trigger s[x]} :: 0 <= x < |s| && temp[x] != Unset ==> temp[s[x]] != Unset
  }

  /** The counting loop: `count` starts at 1 with `j = data_[i]` and grows
      until `j` is back at `i`, giving the length of the cycle through `i`. */
  method CountCycle(s: seq<nat>, i: nat) returns (count: nat)
    requires IsPerm(s) && i < |s|
    ensures count == CycleLength(s, i)
  {
    count := 1;
    var j := s[i];
    while j != i
      invariant 1 <= count <= CycleLength(s, i)
      invariant j == Iter(s, count, i)
      decreases CycleLength(s, i) - count
    {
      j := s[j];
      count := count + 1;
    }
  }

  /** The advancing loop: `two` starts at `i` and takes `steps` steps of `s`,
      counting `steps` down to zero. */
  method Advance(s: seq<nat>, i: nat, steps: int) returns (two: nat)
    requires IsPerm(s) && i < |s| && steps >= 0
    ensures two == Iter(s, steps, i)
  {
    var count := steps;
    two := i;
    while count != 0
      invariant 0 <= count <= steps
      invariant two == Iter(s, steps - count, i)
    {
      two := s[two];
      count := count - 1;
    }
  }

  /** `ahead` is as far along the cycle through `i` as each image under the
      target is from its point: walking both together, `s` of the `ahead`
      walker is the target's value at the `i` walker. */
  ghost predicate Aligned(s: seq<nat>, target: seq<nat>, i: nat, ahead: nat)
    requires IsPerm(s) && i < |s| && ahead < |s|
  {
    |target| == |s| && forall k: nat :: s[Iter(s, k, ahead)] == target[Iter(s, k, i)]
  }

  /** Advancing `(d + L - 1) mod L` steps from `i` aligns with `p^d`. */
  lemma AlignedPower(s: seq<nat>, d: int, i: nat, ahead: nat)
    requires IsPerm(s) && i < |s|
    requires ahead == Iter(s, (d + CycleLength(s, i) - 1) % CycleLength(s, i), i)
    ensures Aligned(s, Power(Permutation(s), d).image, i, ahead)
  {
    forall k: nat
      ensures s[Iter(s, k, ahead)] == Power(Permutation(s), d).image[Iter(s, k, i)]
    {
      WriteValue(s, d, i, ahead, k);
    }
  }

  /** The filling loop: `one` walks the cycle from the marked position `i`
      and `two` walks `(d + L - 1) mod L` steps ahead of it; `data_[two]` is
      written at `one` until `one` reaches a written position, which is `i`
      again after the whole cycle. */
  method FillCycle(s: seq<nat>, ghost target: seq<nat>, temp: seq<nat>, i: nat, ahead: nat)
    returns (r: seq<nat>)
    requires IsPerm(s) && i < |s| && |temp| == |s| && |s| <= IntMax && ahead < |s|
    requires Aligned(s, target, i, ahead)
    requires Written(target, temp) && Closed(s, temp) && temp[i] == Unset
    ensures |r| == |s| && Written(target, r) && Closed(s, r)
    ensures r[i] != Unset
    ensures forall x :: 0 <= x < |s| && temp[x] != Unset ==> r[x] != Unset
  {
    r := temp;
    var one := i;
    var two := ahead;
    ghost var m: nat := 0;
    FillStart(s, target, temp, i, ahead);
    while r[one] == Unset
      invariant Filling(s, target, temp, i, ahead, r, m, one, two)
      decreases CycleLength(s, i) - m
    {
      FillStep(s, target, temp, i, ahead, r, m, one, two);
      r := r[one := s[two]];
      one := s[one];
      two := s[two];
      m := m + 1;
    }
    FillEnd(s, target, temp, i, ahead, r, m, one, two);
  }

  /** The state of the filling loop after `m` turns: `one` and `two` have
      taken `m` steps from `i` and from `ahead`, and every written value is
      the target's. */
  ghost predicate Filling(s: seq<nat>, target: seq<nat>, temp: seq<nat>, i: nat, ahead: nat,
                          r: seq<nat>, m: nat, one: nat, two: nat)
    requires IsPerm(s) && i < |s| && ahead < |s| && |temp| == |s|
  {
    && |r| == |s| && m <= CycleLength(s, i)
    && one == Iter(s, m, i) && two == Iter(s, m, ahead)
    && Written(target, r)
    && CycleFront(s, temp, i, r, m)
  }

  /** What is written after `m` turns: the first `m` points of the cycle
      through `i` are written and the rest are not, the only written point
      whose successor is unwritten is the last one written, and nothing
      written before has been unwritten. */
  ghost predicate CycleFront(s: seq<nat>, temp: seq<nat>, i: nat, r: seq<nat>, m: nat)
    requires IsPerm(s) && i < |s| && |temp| == |s| && |r| == |s|
  {
    && (forall k :: 0 <= k < m ==> r[Iter(s, k, i)] != Unset)
    && (forall k :: m <= k < CycleLength(s, i) ==> r[Iter(s, k, i)] == Unset)
    && (forall x {:trigger s[x]} :: 0 <= x < |s| && r[x] != Unset && (m == 0 || x != Iter(s, m - 1, i)) ==>
          r[s[x]] != Unset)
    && (forall x :: 0 <= x < |s| && temp[x] != Unset ==> r[x] != Unset)
  }

  lemma FillStart(s: seq<nat>, target: seq<nat>, temp: seq<nat>, i: nat, ahead: nat)
    requires IsPerm(s) && i < |s| && |temp| == |s|
    requires Written(target, temp) && Closed(s, temp) && temp[i] == Unset
    requires ahead < |s|
    ensures Filling(s, target, temp, i, ahead, temp, 0, i, ahead)
  {
    CycleUnset(s, temp, i);
  }

  /** One turn of the filling loop keeps its state description. */
  lemma FillStep(s: seq<nat>, target: seq<nat>, temp: seq<nat>, i: nat, ahead: nat,
                 r: seq<nat>, m: nat, one: nat, two: nat)
    requires IsPerm(s) && i < |s| && |temp| == |s| && |s| <= IntMax && ahead < |s|
    requires Aligned(s, target, i, ahead)
    requires Filling(s, target, temp, i, ahead, r, m, one, two)
    requires r[one] == Unset
    ensures m < CycleLength(s, i)
    ensures Filling(s, target, temp, i, ahead, r[one := s[two]], m + 1, s[one], s[two])
  {
    var L := CycleLength(s, i);
    assert m < L by {
      assert Iter(s, 0, i) == i && Iter(s, L, i) == i;
      assert m > 0 ==> r[Iter(s, 0, i)] != Unset;
    }
    assert s[Iter(s, m, ahead)] == target[Iter(s, m, i)];
    assert s[two] == Iter(s, m + 1, ahead);
    FrontStep(s, temp, i, r, m, s[two]);
  }

  /** Writing a value at the next point of the cycle moves the front on. */
  lemma FrontStep(s: seq<nat>, temp: seq<nat>, i: nat, r: seq<nat>, m: nat, v: nat)
    requires IsPerm(s) && i < |s| && |temp| == |s| && |r| == |s|
    requires m < CycleLength(s, i) && v != Unset
    requires CycleFront(s, temp, i, r, m)
    ensures s[Iter(s, m, i)] == Iter(s, m + 1, i)
    ensures CycleFront(s, temp, i, r[Iter(s, m, i) := v], m + 1)
  {
    var L := CycleLength(s, i);
    var one := Iter(s, m, i);
    var r' := r[one := v];
    assert forall k :: 0 <= k < m + 1 ==> r'[Iter(s, k, i)] != Unset;
    assert forall k :: m + 1 <= k < L ==> r'[Iter(s, k, i)] == Unset by {
      forall k | m + 1 <= k < L
        ensures r'[Iter(s, k, i)] == Unset
      {
        CycleDistinct(s, i, m, k);
      }
    }
    assert s[Iter(s, m - 1, i)] == one <== m > 0;
  }

  /** When `one` meets a written point the whole cycle is written. */
  lemma FillEnd(s: seq<nat>, target: seq<nat>, temp: seq<nat>, i: nat, ahead: nat,
                r: seq<nat>, m: nat, one: nat, two: nat)
    requires IsPerm(s) && i < |s| && |temp| == |s| && ahead < |s|
    requires Filling(s, target, temp, i, ahead, r, m, one, two)
    requires r[one] != Unset
    ensures |r| == |s| && Written(target, r) && Closed(s, r)
    ensures r[i] != Unset
    ensures forall x :: 0 <= x < |s| && temp[x] != Unset ==> r[x] != Unset
  {
    var L := CycleLength(s, i);
    assert m == L;
    assert Iter(s, 0, i) == i && Iter(s, L, i) == i;
    assert s[Iter(s, L - 1, i)] == i;
  }

  /** On entry to a marked position `i`, its whole cycle is still marked:
      the written positions are closed under `s`, so one written point of the
      cycle would have led back to `i`. */
  lemma CycleUnset(s: seq<nat>, temp: seq<nat>, i: nat)
    requires IsPerm(s) && i < |s| && |temp| == |s|
    requires forall x :: 0 <= x < |s| && temp[x] != Unset ==> temp[s[x]] != Unset
    requires temp[i] == Unset
    ensures forall k :: temp[Iter(s, k, i)] == Unset
  {
    forall k: nat
      ensures temp[Iter(s, k, i)] == Unset
    {
      if temp[Iter(s, k, i)] != Unset {
        var t, q := RoundUp(k, CycleLength(s, i));
        WrittenForward(s, temp, i, k, t);
        IterRounds(s, i, q);
        assert false;
      }
    }
  }

  /** Some number of further steps makes `k` a whole number of rounds. */
  lemma RoundUp(k: nat, L: nat) returns (t: nat, q: nat)
    requires L >= 1
    ensures k + t == L * q
  {
    t, q := (L - 1) * k, k;
  }

  lemma {:induction false} WrittenForward(s: seq<nat>, temp: seq<nat>, i: nat, k: nat, t: nat)
    requires IsPerm(s) && i < |s| && |temp| == |s|
    requires forall x :: 0 <= x < |s| && temp[x] != Unset ==> temp[s[x]] != Unset
    requires temp[Iter(s, k, i)] != Unset
    ensures temp[Iter(s, k + t, i)] != Unset
  {
    if t > 0 {
      WrittenForward(s, temp, i, k, t - 1);
    }
  }

  /** The value the fill loop writes at `one = Iter(s, m, i)` is `s[two]`,
      `two` being `m` steps past `ahead`; it is where `p^d` sends `one`. */
  lemma PowStep(s: seq<nat>, d: int, i: nat, ahead: nat, m: nat)
    requires IsPerm(s) && i < |s|
    requires ahead == Iter(s, (d + CycleLength(s, i) - 1) % CycleLength(s, i), i)
    ensures s[Iter(s, m, ahead)] == PowImage(s, d, Iter(s, m, i))
  {
    var L := CycleLength(s, i);
    Euclid(d + L - 1, L);
    Euclid(d, L);
    var c0: nat := (d + L - 1) % L;
    var e: nat := d % L;
    var y := Iter(s, m, i);
    var n1: nat := c0 + m;
    var n2: nat := n1 + 1;
    var n3: nat := m + e;
    assert Iter(s, n1, i) == Iter(s, m, ahead) by {
      IterAdd(s, c0, m, i);
    }
    assert s[Iter(s, n1, i)] == Iter(s, n2, i);
    assert Iter(s, n2, i) == Iter(s, n3, i) by {
      ModStep(d, L, m);
      IterCongruent(s, n2, n3, i);
    }
    assert Iter(s, n3, i) == Iter(s, e, y) by {
      IterAdd(s, m, e, i);
    }
    assert PowImage(s, d, y) == Iter(s, e, y) by {
      SameCycleLength(s, i, m);
    }
  }

  /** The fill loop writes at `one` the image of `one` under `p^d`. */
  lemma WriteValue(s: seq<nat>, d: int, i: nat, ahead: nat, m: nat)
    requires IsPerm(s) && i < |s|
    requires ahead == Iter(s, (d + CycleLength(s, i) - 1) % CycleLength(s, i), i)
    ensures s[Iter(s, m, ahead)] == Power(Permutation(s), d).image[Iter(s, m, i)]
  {
    PowStep(s, d, i, ahead, m);
    PowByCycles(Permutation(s), d, Iter(s, m, i));
  }

  /** Advancing `(d + L - 1) mod L` steps and then one more is advancing
      `d mod L` steps, up to whole rounds of the cycle. */
  lemma ModStep(d: int, L: int, m: int)
    requires L >= 1
    ensures ((d + L - 1) % L + m + 1) % L == (m + d % L) % L
  {
    var c0, e := (d + L - 1) % L, d % L;
    var q1, q2 := (d + L - 1) / L, d / L;
    Euclid(d + L - 1, L);
    Euclid(d, L);
    var k := q2 + 1 - q1;
    Distribute(L, q2, q1);
    assert c0 + m + 1 == (m + e) + L * k;
    ModShift(m + e, L, k);
  }

  lemma Distribute(L: int, a: int, b: int)
    ensures L * (a + 1 - b) == L * a + L - L * b
  {
  }
}
