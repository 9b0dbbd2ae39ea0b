# Permutation — a Dafny model

This project models the header `permutation.h`: a `Permutation` class that
holds a permutation of `0 .. n-1` as an array `data_` of size `size_`. It
also covers the generic helpers the class uses: `swap`, `reverse`,
`mergeWithCount` and `mergeSortWithCount`. A `Permutation` is the immutable
datatype `Permutations.Permutation(image)`: `image[i]` is `data_[i]`, and
`Permutations.Size` is `size_`, which `getElementsCount()` returns. An
operator that changes its receiver in place (`*=`, `++`, `--`) is a function
that returns the receiver's new value, together with the value the operator
returns when it returns one.

The modules follow the header's structure:

- `Helpers` (helpers.dfy): `swap` and `reverse` on a sequence.
- `Counting` (counting.dfy): the counted pairs. `Inversions(s)` is the number
  of pairs `i < j` with `s[i] >= s[j]`, and `Cross` is the number of such
  pairs across two ranges.
- `MergeSort` (merge_sort.dfy): `mergeWithCount` and `mergeSortWithCount`.
- `Permutations` (permutation.dfy): the datatype, the validity predicate,
  both constructors, `*=`, `*`, `inverse()` and `operator()`.
- `InversionCount` (inversion_count.dfy): `derangementsCount()`.
- `Cycles` (cycles.dfy): walking a permutation from one point, and the
  length of the cycle through that point.
- `Power` (power.dfy): `pow(degree)`. The reference meaning of `p^d` is
  repeated composition.
- `Parity` (parity.dfy): `isOdd()` and `isEven()`, and the parity of a
  composition.
- `Ordering` (ordering.dfy): `==`, `!=`, `<`, `>`, `<=` and `>=`.
- `Sequencer` (sequencer.dfy): `getNextOrPreviousPermutation`, `next()`,
  `previous()`, and the prefix and postfix `++` and `--`.

The model follows the code where it departs from what the operators'
names or the usual conventions suggest:

- `a * b` maps `i` to `a[b[i]]`.
- `a *= b` sets `a[i]` to `b[a[i]]`, which is the opposite order.
- `a * b` on operands of different sizes returns a copy of the RIGHT operand.
- The merge takes from the second range on a tie and counts the tie. The
  count therefore includes equal pairs, and the merge is not stable.
- The target search of `next()`/`previous()` keeps the FIRST extreme
  position it finds. For the distinct entries of a valid permutation, this
  is the only such position.
- `next()` of the last permutation and `previous()` of the first are the
  permutation itself. There is no wrap-around.

## Model

| member | source | states |
|---|---|---|
| Helpers.Swap | permutation.h:10-20 | the two positions exchange their elements, every other position keeps its element, and the contents are a rearrangement of the input; the same position twice changes nothing |
| Helpers.SwapTwice | permutation.h:10-20 | exchanging the same two positions twice restores the sequence |
| Helpers.Reverse | permutation.h:22-26 | inside the closed range `[lo, hi]`, position `k` receives the element from `lo + hi - k`; outside it nothing moves; the contents are a rearrangement |
| Helpers.ReverseTwice | permutation.h:22-26 | reversing the same range twice restores the sequence |
| MergeSort.MergeWithCount | permutation.h:28-46 | the merge of two sorted ranges is sorted and holds exactly their elements; the count is the number of pairs `(a, b)` with `a` from the first range, `b` from the second and `a >= b` |
| MergeSort.MergeFrom | permutation.h:34-44 | from cursor positions `i`, `j`, the rest of the loop writes a sorted merge of the remaining elements, starts with one of the two cursor elements, and adds exactly the remaining cross pairs |
| MergeSort.MergeSortWithCount | permutation.h:48-68 | the range comes back sorted and rearranged; the count is the number of pairs `i < j` of the ORIGINAL order with `a[i] >= a[j]` |
| MergeSort.MergeSortCount | permutation.h:50-65 | the pairs of a range split into those inside each half plus the cross pairs, and sorting each half does not change the cross pairs |
| Counting.InversionsBound | permutation.h:48-68 | at most `n (n - 1) / 2` pairs of a range of length `n` are counted |
| InversionCount.DerangementsCount | permutation.h:151-155 | the result is the number of inversions of the image, at most `n (n - 1) / 2` |
| InversionCount.IdentityCount | permutation.h:151-155 | the identity has no inversion |
| InversionCount.ReversedCount | permutation.h:151-155 | the reversed permutation `n-1, ..., 0` has all `n (n - 1) / 2` pairs inverted |
| InversionCount.CountIsStrict | permutation.h:151-155 | on a valid permutation the pairs counted are exactly the strict inversions `image[i] > image[j]` |
| Permutations.Identity | permutation.h:126-130 | the permutation of size `n` that sends every `i` to itself, and it is valid |
| Permutations.FromRaw | permutation.h:132-137 | a permutation of size `n` whose entries are the first `n` entries of the array, unchecked |
| Permutations.FromRawRoundTrip | permutation.h:132-137 | building from a permutation's own entries (and anything after them) gives it back, and the result is valid exactly when the entries form a permutation |
| Permutations.ComposeAssign | permutation.h:209-222 | when the operands are different objects of one size, `a[i]` becomes `b[a[i]]`; when they are the same object or their sizes differ, `a` is unchanged; validity is kept |
| Permutations.Compose | permutation.h:224-228 | the result sends `i` to `a[b[i]]` and is valid; with sizes that differ it is the right operand |
| Permutations.ComposeIdentity | permutation.h:224-228 | the identity is neutral on both sides of `*` |
| Permutations.ComposeAssociative | permutation.h:224-228 | `*` is associative on permutations of one size |
| Permutations.ComposeAssignIsReversedCompose | permutation.h:209-228 | `a *= b` leaves `a` equal to `b * a` |
| Permutations.Inverse | permutation.h:307-317 | the result is a valid permutation of the same size that undoes `p` on both sides: `r[p[i]] == i` and `p[r[v]] == v` |
| Permutations.ComposeInverse | permutation.h:307-317 | `p * p.inverse()` and `p.inverse() * p` are both the identity |
| Permutations.InverseInvolution | permutation.h:307-317 | inverting twice gives back the permutation |
| Permutations.Apply | permutation.h:363-373 | the element at position `i` of the array moves to position `data_[i]`; positions past `size_` are untouched |
| Permutations.ApplyInverse | permutation.h:363-373 | applying `p` and then `p.inverse()` restores the array |
| Permutations.ApplyComposeAssign | permutation.h:363-373 | applying `a` and then `b` is the same as applying the value `a *= b` leaves in `a` |
| Cycles.CycleLength | permutation.h:172-174 | the least `L >= 1` with `L` steps from `x` back at `x`, at most the size |
| Cycles.IterMod | permutation.h:172-179 | only the number of steps modulo the cycle length matters |
| Power.CountCycle | permutation.h:172-174 | the counting loop ends with the length of the cycle through `i` |
| Power.Advance | permutation.h:177-179 | the countdown loop moves `two` exactly `steps` steps along the permutation |
| Power.FillCycle | permutation.h:181-182 | after the filling loop position `i` is written, earlier writes are kept, every written position holds its value in `p^degree`, and the written positions are closed under the permutation (whole cycles) |
| Power.PowByCycles | permutation.h:161-185 | for EVERY integer degree, `p^d` sends `x` to `d mod L` steps along its cycle of length `L` |
| Power.PowerOne | permutation.h:161-185 | `p^1` is `p` |
| Power.PowerMinusOne | permutation.h:161-185 | `p^-1` is `p.inverse()` |
| Power.PowerCycleLengthFixes | permutation.h:161-185 | `p^L` fixes every point of a cycle of length `L` |
| Power.Pow | permutation.h:161-185 | for `degree >= -1`, the result is valid and sends `x` to `degree mod L` steps along its cycle, which is `p^degree` |
| Power.LeadAsWritten | permutation.h:175 | for `degree >= -1` the step count, computed with C++ `%`, is in `[0, L)` and equals `(degree + L - 1) mod L` |
| Power.LeadAsWrittenNegative | permutation.h:175-179 | for `degree = -3` and a 3-cycle the step count as written is `-1`, where the walk needs 2; for `degree = -2` it is `-1` on a 2-cycle, but right (0) on a 3-cycle |
| Power.LeadCorrected | permutation.h:175 | the Euclidean step count is in `[0, L)` and is one short of `degree mod L` for every degree |
| Power.PowCorrected | permutation.h:161-185 | with the Euclidean step count the result is `p^degree` for every `int` degree, including those below `-1` |
| Parity.SwapFlipsParity | permutation.h:198-201 | exchanging two different positions of a permutation flips the parity of its number of inversions |
| Parity.IdentityIsEven | permutation.h:187-207 | the identity is even |
| Parity.IsOdd | permutation.h:187-207 | the cycle walk's toggled flag is true exactly when the number of inversions is odd |
| Parity.WalkCycle | permutation.h:194-203 | walking one unvisited cycle marks it visited and keeps the flag equal to the parity of the transpositions done so far |
| Parity.IsEven | permutation.h:157-159 | true exactly when the number of inversions is even |
| Parity.ComposeParity | permutation.h:187-207 | `a * b` is odd exactly when one of `a` and `b` is odd |
| Ordering.EqualFrom | permutation.h:323-325 | the loop from `i` on is true exactly when the two images agree from `i` on |
| Ordering.Equal | permutation.h:319-328 | `==` holds exactly when the two permutations are the same value (size and every entry) |
| Ordering.NotEqual | permutation.h:330-332 | `!=` holds exactly when the permutations differ |
| Ordering.LessFrom | permutation.h:338-344 | the loop from `i` on is true exactly when some later position is the first difference and the left entry there is smaller |
| Ordering.Less | permutation.h:334-345 | `<` holds exactly when the left operand is shorter, or at the first difference its entry is smaller |
| Ordering.Greater | permutation.h:347-349 | `>` holds exactly when the right operand is shorter, or at the first difference its entry is smaller |
| Ordering.LessEq | permutation.h:351-353 | `p <= q` holds exactly when `q` is not shorter than `p` and not smaller at their first difference; for one size, exactly when `p < q` or `p == q` |
| Ordering.GreaterEq | permutation.h:355-357 | `p >= q` holds exactly when `p` is not shorter than `q` and not smaller at their first difference; for one size, exactly when `p > q` or `p == q` |
| Ordering.Trichotomy | permutation.h:334-349 | for one size exactly one of `<`, `==` and `>` holds |
| Ordering.LessTransitive | permutation.h:334-345 | `<` is transitive on permutations of one size |
| Sequencer.FindPivot | permutation.h:254-256 | the scan stops at the rightmost position whose entry comes before its right neighbour in the direction's order, or gives -1 when none does |
| Sequencer.FindTarget | permutation.h:257-263 | the target lies after the pivot, comes after the pivot's entry, and is the nearest such entry in the direction's order |
| Sequencer.RearrangeShape | permutation.h:265-266 | after the exchange and the tail reversal, the prefix is unchanged, the pivot holds the target's entry, and each tail position holds the mirrored entry |
| Sequencer.Step | permutation.h:247-272 | the result keeps the size and the values; it is the input exactly when there is no pivot, and otherwise it is the exchange plus reversal at the pivot and target |
| Sequencer.StepKeepsValid | permutation.h:247-272 | a step keeps a permutation valid |
| Sequencer.StepAdvances | permutation.h:247-272 | a step that changes the permutation moves it strictly forward in the direction's lexicographic order |
| Sequencer.StepIsNearest | permutation.h:247-272 | every arrangement of the same values after `p` is the step's result or comes after it |
| Sequencer.UnchangedIffLast | permutation.h:247-272 | a step leaves `p` unchanged exactly when no entry comes before its right neighbour |
| Sequencer.StepRoundTrip | permutation.h:247-272 | when some entry comes before its right neighbour, a step in one direction is undone by a step in the other |
| Sequencer.LexIsLess | permutation.h:334-349 | the direction's lexicographic order is `<` for `next` and `>` for `previous` |
| Sequencer.NextPermutation | permutation.h:274-276 | `next()` keeps the size and keeps a valid permutation valid |
| Sequencer.NextIsSuccessor | permutation.h:274-276 | `next()` is `p` itself or greater than it, and every permutation greater than `p` is `>=` `next()` |
| Sequencer.PreviousPermutation | permutation.h:290-292 | `previous()` keeps the size and keeps a valid permutation valid |
| Sequencer.PreviousIsPredecessor | permutation.h:290-292 | `previous()` is `p` itself or less than it, and every permutation less than `p` is `<=` `previous()` |
| Sequencer.NextPreviousRoundTrip | permutation.h:274-292 | `previous()` undoes a `next()` that moved, and `next()` undoes a `previous()` that moved |
| Sequencer.PreIncrement | permutation.h:278-281 | `++p` makes the receiver `next()` of its old value and returns it; the size is kept, and validity too |
| Sequencer.PostIncrement | permutation.h:283-288 | `p++` makes the receiver `next()` of its old value and returns the old value; the size is kept, and validity too |
| Sequencer.PreDecrement | permutation.h:294-298 | `--p` makes the receiver `previous()` of its old value and returns it; the size is kept, and validity too |
| Sequencer.PostDecrement | permutation.h:300-305 | `p--` makes the receiver `previous()` of its old value and returns the old value; the size is kept, and validity too |
| Sequencer.IncrementDecrement | permutation.h:278-305 | prefix and postfix forms leave the receiver in the same state, and `p++` followed by `--p` (or `p--` followed by `++p`) restores `p` when the first step moved |

## Left out

- `operator<<` writes to a stream. It is output only and is not modelled.
- Memory management is not modelled, because values are immutable and there is nothing to allocate or free. This covers `new`/`delete`, the destructor, the copy constructor with its self-copy check, and `operator=`. A copy is the same value, so `derangementsCount()` cannot change its receiver.
- `operator[]` and `getElementsCount()` have no member of their own. They are `p.image[i]` and `Permutations.Size(p)`.
- Machine integers are not modelled. Sizes, entries and counts are unbounded naturals. The unsigned marker `static_cast<unsigned int>(-1)` is `Power.Unset`, and the `int` range matters only in `pow`.
- Permutations.FromRaw: the entries are naturals, so converting an arbitrary `T` to `unsigned int` is not modelled.
- Permutations.ComposeAssign, Permutations.Compose, Permutations.Inverse, Permutations.Apply: these require valid operands. Validity is the class invariant: every object holds each value of `[0, size_)` exactly once, and the raw constructor leaves this to its caller. The model promises nothing about an operand whose in-range entries repeat. The C++ code still runs on one: `a *= b` reads the same entry of `b` twice, so its result repeats a value; `operator()` writes some position twice; and `inverse()` of `[0, 0]` gives `[1, 0]`. Only an entry of `size_` or more makes the C++ code index out of bounds.
- Power.Pow: requires `-1 <= degree`, and requires `degree + size - 1` to fit in an `int`. A lower degree can make the step count negative on some cycles, and the countdown then runs away. Examples are `pow(-3)` of a 3-cycle, or `pow(-2)` with a 2-cycle present; see Findings and `Power.PowCorrected`. The bound `-1 <= degree` also excludes lower degrees that the code handles correctly, such as `pow(-2)` of a 3-cycle (`Power.LeadAsWrittenNegative`).
- Ordering.Less, Ordering.Greater, Ordering.LessEq, Ordering.GreaterEq: these require the operands to be comparable, meaning the right operand of `<` is not shorter than the left one while equal to its start. In that case the C++ loop reads past the end of the right operand.
- Parity.IsOdd: states parity as the parity of the number of inversions. It does not state the equivalent "size minus number of cycles" form that the loop follows.
- Sequencer.NextIsSuccessor, Sequencer.PreviousIsPredecessor, Sequencer.StepIsNearest, Sequencer.StepRoundTrip, Sequencer.NextPreviousRoundTrip, Sequencer.IncrementDecrement: these are stated for valid permutations only. For an invalid input only size and contents are stated (`Sequencer.Step`).
- Parity.ComposeParity: stated for operands of one size. Otherwise `*` returns the right operand.

## Findings

| source | as written | input that shows it | evidently intended | confidence | as-written member | corrected member |
|---|---|---|---|---|---|---|
| permutation.h:175-179 | the step count is `(degree + count - 1) % count` with C++ `%`, which truncates toward zero, followed by `for (; count; --count)` | `pow(-3)` of a 3-cycle: the step count is `(-3 + 3 - 1) % 3 == -1`, so the countdown never reaches zero | a Euclidean remainder, so that the count is `2` and `pow(-3)` is the inverse cubed | high; not executed | Power.LeadAsWrittenNegative | Power.PowCorrected |
