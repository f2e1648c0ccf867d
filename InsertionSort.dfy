/**
 * The in-place insertion sort over an inclusive index range [lo, hi] and the
 * read-only check that a range is sorted. Each method is proved against the
 * functional reference in InsertionSpec.
 *
 * A missing `lo` stands for 0 and a missing `hi` for the last index, as in
 * the original's optional arguments.
 */
module InsertionSort {
  import opened Order
  import opened InsertionSpec

  datatype Option<T> = None | Some(value: T)

  /** `lo`, or 0 when it is missing. */
  function LoOrDefault(lo: Option<int>): int {
    match lo
    case None => 0
    case Some(l) => l
  }

  /** `hi`, or n - 1 (the last index of an array of length n) when it is missing. */
  function HiOrDefault(hi: Option<int>, n: int): int {
    match hi
    case None => n - 1
    case Some(h) => h
  }

  /** `shiftRight(array, i)`: the element at i is copied one slot to the right,
      overwriting the element at i + 1; nothing else changes. */
  method ShiftRight<T>(a: array<T>, i: int)
    requires 0 <= i && i + 1 < a.Length
    modifies a
    ensures a[i + 1] == old(a[i])
    ensures forall k :: 0 <= k < a.Length && k != i + 1 ==> a[k] == old(a[k])
  {
    a[i + 1] := a[i];
  }

  /** `sorted(array, lo, hi)`: scans i from lo to hi and answers false at the
      first element strictly less than its predecessor. At index 0 there is
      no predecessor and nothing is compared. */
  method Sorted<T>(a: array<T>, key: T -> int, lo: Option<int>, hi: Option<int>) returns (r: bool)
    requires 0 <= LoOrDefault(lo) && HiOrDefault(hi, a.Length) < a.Length
    ensures r == NoDescent(key, a[..], LoOrDefault(lo), HiOrDefault(hi, a.Length))
  {
    var l, h := LoOrDefault(lo), HiOrDefault(hi, a.Length);
    var i := l;
    while i <= h
      invariant l <= i
      invariant l <= h + 1 ==> i <= h + 1
      invariant forall k :: l <= k < i && k <= h && 1 <= k ==> !Less(key, a[k], a[k - 1])
    {
      if 1 <= i && Less(key, a[i], a[i - 1]) {
        return false;
      }
      i := i + 1;
    }
    return true;
  }

  /** The array as the outer loop leaves it before handling index i: s0 with
      the range [lo, i - 1] replaced by its own elements in sorted order. */
  ghost function AfterPasses<T>(key: T -> int, s0: seq<T>, lo: int, i: int): (r: seq<T>)
    requires 0 <= lo <= i <= |s0|
    ensures |r| == |s0|
  {
    s0[..lo] + SortSeq(key, s0[lo..i]) + s0[i..]
  }

  /** One pass of the outer loop of `sort`: the element at i is saved, every
      element of [lo, i - 1] it is strictly less than moves one slot right
      (the scan stops at the first element it is not less than), and the
      saved element fills the freed slot. If [lo, i - 1] held the first
      i - lo elements of the range of s0 in sorted order, [lo, i] then holds
      the first i - lo + 1 in sorted order, and nothing else has changed. */
  method InsertBackward<T>(a: array<T>, key: T -> int, lo: int, i: int, ghost s0: seq<T>)
    requires 0 <= lo < i < a.Length == |s0|
    requires a[..] == AfterPasses(key, s0, lo, i)
    modifies a
    ensures a[..] == AfterPasses(key, s0, lo, i + 1)
  {
    ghost var before := a[..];
    var temp := a[i];
    var j := i - 1;
    while j >= lo && Less(key, temp, a[j])
      invariant lo - 1 <= j < i
      invariant forall k :: 0 <= k < a.Length && !(j + 1 <= k <= i) ==> a[k] == before[k]
      invariant forall k :: j + 2 <= k <= i ==> a[k] == before[k - 1] && Less(key, temp, a[k])
      decreases j
    {
      ShiftRight(a, j);
      j := j - 1;
    }
    a[j + 1] := temp;
    PassInserts(key, s0, before, a[..], lo, i, j);
  }

  /** What one pass leaves behind is the insertion of the saved element: the
      elements after the stopping point moved one slot right, each strictly
      greater than the saved one, and the element at the stopping point (if
      the scan did not run off the range) is not. */
  lemma PassInserts<T>(key: T -> int, s0: seq<T>, before: seq<T>, after: seq<T>, lo: int, i: int, j: int)
    requires 0 <= lo < i < |s0| == |before| == |after| && lo - 1 <= j < i
    requires before == AfterPasses(key, s0, lo, i)
    requires after[j + 1] == before[i]
    requires forall k :: 0 <= k < |after| && !(j + 1 <= k <= i) ==> after[k] == before[k]
    requires forall k :: j + 2 <= k <= i ==> after[k] == before[k - 1] && Less(key, before[i], after[k])
    requires j < lo || !Less(key, before[i], before[j])
    ensures after == AfterPasses(key, s0, lo, i + 1)
  {
    var t, x, m := before[lo..i], before[i], j + 1 - lo;
    PassPlaces(before, after, lo, i, j);
    forall k | m <= k < |t|
      ensures Less(key, x, t[k])
    {
      assert after[k + 1 + lo] == t[k];
    }
    InsertAt(key, t, x, m);
    OuterStep(key, s0, before, after, lo, i);
  }

  /** The array after a pass, as a sequence: the saved element at j + 1, the
      elements it passed one slot further right. */
  lemma PassPlaces<T>(before: seq<T>, after: seq<T>, lo: int, i: int, j: int)
    requires 0 <= lo < i < |before| == |after| && lo - 1 <= j < i
    requires after[j + 1] == before[i]
    requires forall k :: 0 <= k < |after| && !(j + 1 <= k <= i) ==> after[k] == before[k]
    requires forall k :: j + 2 <= k <= i ==> after[k] == before[k - 1]
    ensures after == before[..lo] + (before[lo..i][..j + 1 - lo] + [before[i]] + before[lo..i][j + 1 - lo..]) + before[i + 1..]
  {
    var t, m := before[lo..i], j + 1 - lo;
    var inserted := t[..m] + [before[i]] + t[m..];
    forall k | lo <= k < lo + |inserted|
      ensures after[k] == inserted[k - lo]
    {
      if k < j + 1 {
        assert inserted[k - lo] == t[k - lo];
      } else if j + 1 < k {
        assert inserted[k - lo] == t[k - 1 - lo];
      }
    }
    Splice(after, before, inserted, lo);
  }

  /** x is y with the slots from lo on overwritten by mid, when they agree
      elementwise that way. */
  lemma Splice<T>(x: seq<T>, y: seq<T>, mid: seq<T>, lo: int)
    requires |x| == |y| && 0 <= lo && lo + |mid| <= |x|
    requires forall k :: 0 <= k < |x| && !(lo <= k < lo + |mid|) ==> x[k] == y[k]
    requires forall k :: lo <= k < lo + |mid| ==> x[k] == mid[k - lo]
    ensures x == y[..lo] + mid + y[lo + |mid|..]
  {
  }

  /** The outer loop's invariant is kept by one pass: if [l, i - 1] held the
      sorted first i - l elements of the range, then [l, i] holds the sorted
      first i - l + 1. */
  lemma OuterStep<T>(key: T -> int, s0: seq<T>, before: seq<T>, after: seq<T>, l: int, i: int)
    requires 0 <= l < i < |s0|
    requires before == AfterPasses(key, s0, l, i)
    requires after == before[..l] + Insert(key, before[l..i], before[i]) + before[i + 1..]
    ensures after == AfterPasses(key, s0, l, i + 1)
  {
    var t := SortSeq(key, s0[l..i]);
    assert before[..l] == s0[..l] && before[l..i] == t;
    assert before[i] == s0[i] && before[i + 1..] == s0[i + 1..];
    SortSeqExtend(key, s0, l, i);
  }

  /** Before the first pass, [l, l] holds its one element, trivially sorted. */
  lemma FirstPass<T>(key: T -> int, s0: seq<T>, l: int)
    requires 0 <= l < |s0|
    ensures s0 == AfterPasses(key, s0, l, l + 1)
  {
    assert s0[l..l + 1][..0] == [];
  }

  /** After the last pass, [l, h] holds the whole range sorted; an empty range
      was never touched. */
  lemma LastPass<T>(key: T -> int, s0: seq<T>, cur: seq<T>, l: int, h: int)
    requires 0 <= l && h < |s0|
    requires l <= h ==> cur == AfterPasses(key, s0, l, h + 1)
    requires h < l ==> cur == s0
    ensures cur == SortRange(key, s0, l, h)
  {
  }

  /** `sort(array, lo, hi)`: sorts the range [lo, hi] in place and returns the
      same array. For each i from lo + 1 to hi in turn, the element at i is
      inserted into the already sorted range [lo, i - 1]. What the result is
      (sorted, a permutation of the range, unchanged outside it, stable) is
      proved about SortRange in InsertionSpec. */
  method Sort<T>(a: array<T>, key: T -> int, lo: Option<int>, hi: Option<int>) returns (b: array<T>)
    requires 0 <= LoOrDefault(lo) && HiOrDefault(hi, a.Length) < a.Length
    modifies a
    ensures b == a
    ensures a[..] == SortRange(key, old(a[..]), LoOrDefault(lo), HiOrDefault(hi, a.Length))
  {
    var l, h := LoOrDefault(lo), HiOrDefault(hi, a.Length);
    ghost var s0 := a[..];
    if l <= h {
      FirstPass(key, s0, l);
    }
    var i := l + 1;
    while i <= h
      invariant l < i
      invariant l <= h ==> i <= h + 1 && a[..] == AfterPasses(key, s0, l, i)
      invariant h < l ==> a[..] == s0
    {
      InsertBackward(a, key, l, i, s0);
      i := i + 1;
    }
    LastPass(key, s0, a[..], l, h);
    return a;
  }
}
