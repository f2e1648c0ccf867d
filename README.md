# Insertion sort over an inclusive index range, in Dafny

This project models the insertion sort of the `algorithms` repository
(`sorting/comparison-sort/insertion-sort/insertion-sort.js`). The model covers
four pieces:

- `sort(array, lo, hi)` sorts the inclusive range `[lo, hi]` of an array in
  place and returns the same array;
- `sorted(array, lo, hi)` reports whether that range is in order;
- `less(a, b)` is the strict comparison both use;
- `shiftRight(array, i)` copies one element a slot to the right.

When `lo` is missing it stands for 0. When `hi` is missing it stands for the
last index.

The project has four modules:

- `Order` (Order.dfy) defines the comparison `Less` and the order predicate
  `SortedBy`. Elements of any type `T` are compared through an integer key.
  The numeric arrays of the original are the instance `T = int` with the
  identity key `Numeric`. On that instance `Less` is exactly `<`, as lemma
  `NumericLessIsLessThan` shows. The generic key gives stability real content:
  elements with equal keys can still be told apart.
- `InsertionSpec` (InsertionSpec.dfy) is a functional reference for the
  algorithm, together with the theorems about it:
  - `Insert` places an element into a sorted sequence, scanning from the right
    as the inner loop does;
  - `SortSeq` inserts each element in turn, as the outer loop does;
  - `SortRange` sorts the slice `[lo, hi]` and leaves the rest alone;
  - `NoDescent` is exactly what `sorted` checks.

  The lemmas prove that the result is sorted, is a permutation of the range and
  is unchanged outside it. They also prove that the sort is stable and
  idempotent, that already sorted input is left alone, and exactly when
  `sorted` holds after `sort`.
- `InsertionSort` (InsertionSort.dfy) holds the imperative operations on a
  Dafny `array`:
  - `ShiftRight`;
  - `Sorted`, a read-only loop with an early return;
  - `Sort`, whose outer loop calls `InsertBackward`, the body of one outer
    iteration: the saved `temp`, the inner loop's right shifts and the final
    write.

  Each method is proved against the functional reference: `Sort` ends with
  `a[..] == SortRange(key, old(a[..]), lo, hi)`, and `Sorted` answers
  `NoDescent`.
- `Demo` (Demo.dfy) holds the example runs at the end of the source file
  (`[5, 2, 1, 3, 4]`, sorted whole and on `[1, 3]`) and a few more concrete
  cases, both as lemmas and as a method that runs the array operations.

**The `array[-1]` read in `sorted`.** `sorted` compares each index `i` of the
range with `i - 1`. At `i = 0` the original reads `array[-1]`, which is
`undefined`, and `x < undefined` is false. So `NoDescent` checks only indices
`i >= 1`. When `lo > 0` the first comparison reaches the element just before the
range. So the comments on `sorted` ("Checks whether passed array is sorted",
line 43) and on `sort` ("@return {Array} sorted array", line 75) do not give
two things a reader might expect:

- `sorted(sort(a, lo, hi), lo, hi)` does not always hold;
- a one-element range is not always sorted.

The model follows the code. `SortThenNoDescent` states exactly when `sorted`
holds after `sort`. `DemoRangeNotSorted` and `DemoSingleNotSorted` show inputs
where it does not.

**Out-of-range bounds.** The code has no range check. The model states `0 <= lo` and `hi < array.length` (after
defaulting) as preconditions. Any `lo > hi` within those bounds is an empty
range that both operations accept; `sort` does nothing on it and `sorted`
returns true.

## Model

| member | source | states |
|---|---|---|
| Order.Less | sorting/comparison-sort/insertion-sort/insertion-sort.js:38-40 | `less(a, b)`: a is strictly less than b, compared through the key |
| Order.LessIsStrictWeakOrder | sorting/comparison-sort/insertion-sort/insertion-sort.js:38-40 | the key order `less` is a strict weak order: irreflexive, asymmetric and transitive, with incomparability transitive |
| Order.NumericLessIsLessThan | sorting/comparison-sort/insertion-sort/insertion-sort.js:38-40 | on numbers `less(a, b)` is `a < b`, and two numbers neither of which is less are equal |
| InsertionSort.LoOrDefault | sorting/comparison-sort/insertion-sort/insertion-sort.js:53-55 | a missing `lo` stands for 0 (the same defaulting is at lines 81-83) |
| InsertionSort.HiOrDefault | sorting/comparison-sort/insertion-sort/insertion-sort.js:57-59 | a missing `hi` stands for n - 1, the last index (the same defaulting is at lines 85-87) |
| InsertionSort.ShiftRight | sorting/comparison-sort/insertion-sort/insertion-sort.js:28-30 | index i + 1 receives the old element at i; every other index keeps its element |
| InsertionSort.Sorted | sorting/comparison-sort/insertion-sort/insertion-sort.js:49-68 | with `lo`/`hi` defaulted to 0 and length - 1, returns true iff no index i of [lo, hi] with i >= 1 holds an element less than the one at i - 1; reads the array only |
| InsertionSort.InsertBackward | sorting/comparison-sort/insertion-sort/insertion-sort.js:90-96 | one outer-loop pass: if [lo, i - 1] held the first i - lo elements of the range, sorted, and the rest was original, then afterwards [lo, i] holds the first i - lo + 1 sorted and the rest is still original |
| InsertionSort.PassInserts | sorting/comparison-sort/insertion-sort/insertion-sort.js:92-96 | the array a pass leaves behind is the saved element inserted into the sorted prefix at the first slot from the right whose element it is not less than |
| InsertionSort.PassPlaces | sorting/comparison-sort/insertion-sort/insertion-sort.js:92-96 | after the shifts and the final write, the array is the prefix with the saved element placed at j + 1 and the passed elements one slot to the right |
| InsertionSort.OuterStep | sorting/comparison-sort/insertion-sort/insertion-sort.js:89-97 | inserting the element at i into the sorted [l, i - 1] keeps the outer-loop invariant for i + 1 |
| InsertionSort.FirstPass | sorting/comparison-sort/insertion-sort/insertion-sort.js:89 | the range [lo, lo] counts as already sorted before the first pass |
| InsertionSort.LastPass | sorting/comparison-sort/insertion-sort/insertion-sort.js:89-99 | when the outer loop ends (or never starts because the range is empty) the array is SortRange of the original |
| InsertionSort.Sort | sorting/comparison-sort/insertion-sort/insertion-sort.js:77-100 | returns the same array, whose contents are now SortRange(original contents, lo, hi) with `lo`/`hi` defaulted to 0 and length - 1 |
| InsertionSpec.Insert | sorting/comparison-sort/insertion-sort/insertion-sort.js:90-96 | inserting one element makes the sequence one longer; its placement is stated by InsertAt and InsertPosition |
| InsertionSpec.SortSeq | sorting/comparison-sort/insertion-sort/insertion-sort.js:89-97 | sorting keeps the length; what it computes is stated by the SortSeq lemmas |
| InsertionSpec.InsertAt | sorting/comparison-sort/insertion-sort/insertion-sort.js:92-96 | if every element from m on is strictly greater than x and the one before m is not, inserting x puts it exactly at m |
| InsertionSpec.InsertPosition | sorting/comparison-sort/insertion-sort/insertion-sort.js:92-96 | there is always such a stopping point m: the scan from the right passes exactly the elements strictly greater than x |
| InsertionSpec.InsertPermutes | sorting/comparison-sort/insertion-sort/insertion-sort.js:90-96 | inserting x adds x to the multiset and loses nothing |
| InsertionSpec.InsertSorted | sorting/comparison-sort/insertion-sort/insertion-sort.js:90-96 | inserting into a sorted sequence gives a sorted sequence |
| InsertionSpec.InsertWithKey | sorting/comparison-sort/insertion-sort/insertion-sort.js:92 | inserting never moves x in front of an element with an equal key: for each key, the elements with that key keep their order and x goes last among them |
| InsertionSpec.WithKeyPlaced | sorting/comparison-sort/insertion-sort/insertion-sort.js:92 | placing x in front of elements with strictly greater keys appends it to its own key's subsequence |
| InsertionSpec.SortSeqExtend | sorting/comparison-sort/insertion-sort/insertion-sort.js:89-97 | sorting one more element of a range is inserting it into the sorted shorter range |
| InsertionSpec.SortSeqSorted | sorting/comparison-sort/insertion-sort/insertion-sort.js:89-97 | the sorted sequence is non-decreasing |
| InsertionSpec.SortSeqPermutes | sorting/comparison-sort/insertion-sort/insertion-sort.js:89-97 | the sorted sequence is a permutation of its input |
| InsertionSpec.SortSeqStable | sorting/comparison-sort/insertion-sort/insertion-sort.js:89-97 | the sort is stable: for every key, the elements with that key appear in the same order before and after |
| InsertionSpec.SortSeqOfSorted | sorting/comparison-sort/insertion-sort/insertion-sort.js:92 | already sorted input is returned unchanged: no pass moves anything |
| InsertionSpec.SortSeqIdempotent | sorting/comparison-sort/insertion-sort/insertion-sort.js:89-97 | sorting twice is sorting once |
| InsertionSpec.AdjacentOrderedIsSorted | sorting/comparison-sort/insertion-sort/insertion-sort.js:61-65 | adjacent pairs in order on [lo, hi] means every pair in order |
| InsertionSpec.NoDescentMeaning | sorting/comparison-sort/insertion-sort/insertion-sort.js:61-67 | `sorted` holds iff the range is non-decreasing and, when lo >= 1 and the range is not empty, its first element is not less than the one before it |
| InsertionSpec.NoDescentTrivial | sorting/comparison-sort/insertion-sort/insertion-sort.js:61-67 | `sorted` holds on an empty range and on any range that ends at index 0 |
| InsertionSpec.SortRangeFrame | sorting/comparison-sort/insertion-sort/insertion-sort.js:89-97 | sorting [lo, hi] keeps the length, changes no index outside the range, and puts the sorted old slice in the range |
| InsertionSpec.SortRangeSpec | sorting/comparison-sort/insertion-sort/insertion-sort.js:77-100 | after `sort`, [lo, hi] is non-decreasing and a permutation of its old contents, and everything outside is unchanged |
| InsertionSpec.SortRangeStable | sorting/comparison-sort/insertion-sort/insertion-sort.js:92 | within [lo, hi], elements with equal keys keep their relative order |
| InsertionSpec.SortRangeOfSorted | sorting/comparison-sort/insertion-sort/insertion-sort.js:89-97 | a range that is already sorted is left unchanged |
| InsertionSpec.SortRangeIdempotent | sorting/comparison-sort/insertion-sort/insertion-sort.js:77-100 | sorting the same range twice gives what sorting it once gives |
| InsertionSpec.SortWholeRange | sorting/comparison-sort/insertion-sort/insertion-sort.js:81-87 | with the default bounds, `sort` sorts the whole array |
| InsertionSpec.SortedAfterWholeSort | sorting/comparison-sort/insertion-sort/insertion-sort.js:102-104 | `sorted` with default bounds holds after `sort` with default bounds |
| InsertionSpec.SortThenNoDescent | sorting/comparison-sort/insertion-sort/insertion-sort.js:61-67 | `sorted(sort(a, lo, hi), lo, hi)` holds iff lo = 0, the range is empty, or no element of the range is less than the element just before it |
| Demo.WholePass1 | sorting/comparison-sort/insertion-sort/insertion-sort.js:102-103 | step 1 of DemoWholeArray, the first pass on [5, 2, 1, 3, 4]: [5, 2] becomes [2, 5] |
| Demo.WholePass2 | sorting/comparison-sort/insertion-sort/insertion-sort.js:102-103 | step 2 of DemoWholeArray, the second pass: [5, 2, 1] becomes [1, 2, 5] |
| Demo.WholePass3 | sorting/comparison-sort/insertion-sort/insertion-sort.js:102-103 | step 3 of DemoWholeArray, the third pass: [5, 2, 1, 3] becomes [1, 2, 3, 5] |
| Demo.WholePass4 | sorting/comparison-sort/insertion-sort/insertion-sort.js:102-103 | step 4 of DemoWholeArray, the last pass: [5, 2, 1, 3, 4] becomes [1, 2, 3, 4, 5] |
| Demo.DemoWholeArray | sorting/comparison-sort/insertion-sort/insertion-sort.js:102-105 | `sort([5, 2, 1, 3, 4])` is [1, 2, 3, 4, 5] and `sorted` holds on it |
| Demo.RangePass1 | sorting/comparison-sort/insertion-sort/insertion-sort.js:107-108 | step 1 of DemoRange, the first pass on the range [2, 1, 3]: [2, 1] becomes [1, 2] |
| Demo.RangePass2 | sorting/comparison-sort/insertion-sort/insertion-sort.js:107-108 | step 2 of DemoRange, the second pass: [2, 1, 3] becomes [1, 2, 3] |
| Demo.DemoRange | sorting/comparison-sort/insertion-sort/insertion-sort.js:107-109 | `sort([5, 2, 1, 3, 4], 1, 3)` is [5, 1, 2, 3, 4] |
| Demo.DemoRangeNotSorted | sorting/comparison-sort/insertion-sort/insertion-sort.js:61-67 | on [5, 1, 2, 3, 4], `sorted(a, 1, 3)` is false, because it compares index 1 with the 5 before the range |
| Demo.DemoAlreadySorted | sorting/comparison-sort/insertion-sort/insertion-sort.js:89-97 | `sort([1, 2, 3])` leaves it unchanged |
| Demo.DemoAllEqual | sorting/comparison-sort/insertion-sort/insertion-sort.js:92 | `sort([3, 3, 3])` leaves it unchanged |
| Demo.DemoAllEqualSorted | sorting/comparison-sort/insertion-sort/insertion-sort.js:61-67 | `sorted([3, 3, 3])` is true |
| Demo.DemoEmpty | sorting/comparison-sort/insertion-sort/insertion-sort.js:77-100 | `sort([])` is [] and `sorted([])` is true |
| Demo.DemoSingleNotSorted | sorting/comparison-sort/insertion-sort/insertion-sort.js:61-67 | the one-element range [1, 1] of [2, 1] fails `sorted` |

## Left out

- Elements are integers, or any type with an integer key. The original compares
  JavaScript numbers with `<`. Floating point, `NaN` and comparisons of mixed or
  `undefined` values are not modelled.
- Out-of-range reads and writes are excluded by preconditions. The original
  allows `lo < 0` or `hi >= length`, which read `undefined` or grow the array.
  The out-of-range read `array[-1]` that `sorted` makes when `lo` is 0 is modelled
  as "no comparison at index 0".
- The example code is not modelled as output. The `console.log` calls and the
  enclosing immediately-invoked function wrapper have no counterpart. The
  example inputs appear as lemmas and as `Demo.DemoRun`.
- The running-time claims (linear on sorted input, quadratic in general) are
  not modelled, because they are not functional properties.
- InsertionSort.Sort: its contract ties the new contents to `SortRange` and
  states nothing more. That the range is sorted, a permutation of its old
  contents, unchanged outside and stable is proved about `SortRange` by
  `SortRangeSpec` and `SortRangeStable`.
- InsertionSpec.Insert and InsertionSpec.SortSeq: their own contracts state only
  lengths. What they compute is stated by the lemmas named after them.
- The body of one outer iteration of `sort` is a method of its own,
  `InsertBackward`, rather than code nested inside `Sort`'s loop. It holds the
  save into `temp` (line 90), the inner loop with its shifts (lines 92-94) and
  the final write (line 96), with the same control flow, reads and writes.
