/**
 * A functional reference for the insertion sort over an inclusive index
 * range, and the properties the in-place algorithm inherits from it:
 * sortedness, permutation, stability, idempotence and the frame. It also
 * states what the `sorted` check reports.
 */
module InsertionSpec {
  import opened Order

  /** Inserts x the way one pass of the inner loop does: x moves left past
      every trailing element it is strictly less than, and stops at the first
      one it is not less than. */
  function Insert<T>(key: T -> int, t: seq<T>, x: T): (r: seq<T>)
    ensures |r| == |t| + 1
    decreases |t|
  {
    if t == [] || !Less(key, x, t[|t| - 1]) then t + [x]
    else Insert(key, t[..|t| - 1], x) + [t[|t| - 1]]
  }

  /** The outer loop: the elements are inserted one after another, from the
      first to the last, into the already sorted prefix. */
  function SortSeq<T>(key: T -> int, s: seq<T>): (r: seq<T>)
    ensures |r| == |s|
  {
    if s == [] then []
    else Insert(key, SortSeq(key, s[..|s| - 1]), s[|s| - 1])
  }

  /** The elements of s whose key is v, in their order in s. */
  function WithKey<T>(key: T -> int, v: int, s: seq<T>): seq<T> {
    if s == [] then []
    else WithKey(key, v, s[..|s| - 1]) + (if key(s[|s| - 1]) == v then [s[|s| - 1]] else [])
  }

  /** The elements of s at the inclusive index range [lo, hi]; empty when hi < lo. */
  function Slice<T>(s: seq<T>, lo: int, hi: int): (r: seq<T>)
    requires 0 <= lo && hi < |s|
    ensures |r| == if lo <= hi then hi - lo + 1 else 0
    ensures forall k :: 0 <= k < |r| ==> r[k] == s[lo + k]
  {
    if lo <= hi then s[lo..hi + 1] else []
  }

  /** `sort(array, lo, hi)` on values: the range [lo, hi] is replaced by its
      insertion-sorted contents; an empty range leaves everything as it is. */
  function SortRange<T>(key: T -> int, s: seq<T>, lo: int, hi: int): (r: seq<T>)
    requires 0 <= lo && hi < |s|
  {
    if lo <= hi then s[..lo] + SortSeq(key, s[lo..hi + 1]) + s[hi + 1..] else s
  }

  /** What `sorted(array, lo, hi)` reports: no index i of [lo, hi] with i >= 1
      holds an element strictly less than the one at i - 1. At i == lo this
      compares with the element just before the range when there is one; at
      index 0 there is nothing before it and the comparison never fails. */
  predicate NoDescent<T>(key: T -> int, s: seq<T>, lo: int, hi: int)
    requires hi < |s|
  {
    forall i :: lo <= i <= hi && 1 <= i ==> !Less(key, s[i], s[i - 1])
  }

  // ---------------------------------------------------------------------
  // Insert

  /** Where the inner loop stops decides the result: if x is less than every
      element from m on, and m is 0 or x is not less than the element at
      m - 1, then x lands at index m. */
  lemma {:induction false} InsertAt<T>(key: T -> int, t: seq<T>, x: T, m: nat)
    requires m <= |t|
    requires forall k :: m <= k < |t| ==> Less(key, x, t[k])
    requires m == 0 || !Less(key, x, t[m - 1])
    ensures Insert(key, t, x) == t[..m] + [x] + t[m..]
  {
    if m < |t| {
      var front, last := t[..|t| - 1], t[|t| - 1];
      assert Less(key, x, last);
      assert Insert(key, t, x) == Insert(key, front, x) + [last];
      InsertAt(key, front, x, m);
      assert front[..m] == t[..m];
      assert front[m..] + [last] == t[m..];
    } else {
      assert t[..m] == t && t[m..] == [];
    }
  }

  /** The position that Insert chooses exists: every element after it is
      strictly greater than x, the one before it (if any) is not. */
  lemma {:induction false} InsertPosition<T>(key: T -> int, t: seq<T>, x: T) returns (m: nat)
    ensures m <= |t|
    ensures forall k :: m <= k < |t| ==> Less(key, x, t[k])
    ensures m == 0 || !Less(key, x, t[m - 1])
    ensures Insert(key, t, x) == t[..m] + [x] + t[m..]
  {
    if t == [] || !Less(key, x, t[|t| - 1]) {
      m := |t|;
    } else {
      m := InsertPosition(key, t[..|t| - 1], x);
    }
    InsertAt(key, t, x, m);
  }

  /** Insert loses no element and adds only x. */
  lemma InsertPermutes<T>(key: T -> int, t: seq<T>, x: T)
    ensures multiset(Insert(key, t, x)) == multiset(t) + multiset{x}
  {
    var m := InsertPosition(key, t, x);
    assert t == t[..m] + t[m..];
  }

  /** Inserting into a sorted sequence keeps it sorted. */
  lemma InsertSorted<T>(key: T -> int, t: seq<T>, x: T)
    requires SortedBy(key, t)
    ensures SortedBy(key, Insert(key, t, x))
  {
    var m := InsertPosition(key, t, x);
    var r := Insert(key, t, x);
    assert forall k :: 0 <= k < |r| ==> r[k] == if k < m then t[k] else if k == m then x else t[k - 1];
  }

  /** Insert appends x to the elements of key v when x has that key, and
      changes nothing else about them: x never passes an element of equal key. */
  lemma InsertWithKey<T>(key: T -> int, t: seq<T>, x: T, v: int)
    ensures WithKey(key, v, Insert(key, t, x)) == WithKey(key, v, t) + (if key(x) == v then [x] else [])
  {
    var m := InsertPosition(key, t, x);
    WithKeyPlaced(key, v, t[..m], x, t[m..]);
    assert t[..m] + t[m..] == t;
  }

  // ---------------------------------------------------------------------
  // WithKey

  lemma {:induction false} WithKeyAppend<T>(key: T -> int, v: int, a: seq<T>, b: seq<T>)
    ensures WithKey(key, v, a + b) == WithKey(key, v, a) + WithKey(key, v, b)
  {
    if b == [] {
      assert a + b == a;
    } else {
      assert (a + b)[..|a + b| - 1] == a + b[..|b| - 1];
      WithKeyAppend(key, v, a, b[..|b| - 1]);
    }
  }

  /** Placing x in front of elements that all have a greater key appends x to
      the elements of its own key and leaves the others alone. */
  lemma WithKeyPlaced<T>(key: T -> int, v: int, before: seq<T>, x: T, after: seq<T>)
    requires forall k :: 0 <= k < |after| ==> key(x) < key(after[k])
    ensures WithKey(key, v, before + [x] + after) == WithKey(key, v, before + after) + (if key(x) == v then [x] else [])
  {
    WithKeyAppend(key, v, before + [x], after);
    WithKeyAppend(key, v, before, after);
    assert WithKey(key, v, before + [x]) == WithKey(key, v, before) + (if key(x) == v then [x] else []) by {
      assert (before + [x])[..|before|] == before;
    }
    if key(x) == v {
      WithKeyNone(key, v, after);
    }
  }

  lemma {:induction false} WithKeyNone<T>(key: T -> int, v: int, s: seq<T>)
    requires forall k :: 0 <= k < |s| ==> key(s[k]) != v
    ensures WithKey(key, v, s) == []
  {
    if s != [] {
      WithKeyNone(key, v, s[..|s| - 1]);
    }
  }

  // ---------------------------------------------------------------------
  // SortSeq

  /** Sorting one more element of a range is inserting it into the sorted
      shorter range: the step of the outer loop. */
  lemma SortSeqExtend<T>(key: T -> int, s: seq<T>, lo: int, i: int)
    requires 0 <= lo <= i < |s|
    ensures SortSeq(key, s[lo..i + 1]) == Insert(key, SortSeq(key, s[lo..i]), s[i])
  {
    assert s[lo..i + 1][..i - lo] == s[lo..i];
  }

  /** The result of the sort is sorted. */
  lemma {:induction false} SortSeqSorted<T>(key: T -> int, s: seq<T>)
    ensures SortedBy(key, SortSeq(key, s))
  {
    if s != [] {
      SortSeqSorted(key, s[..|s| - 1]);
      InsertSorted(key, SortSeq(key, s[..|s| - 1]), s[|s| - 1]);
    }
  }

  /** The result of the sort is a permutation of its input. */
  lemma {:induction false} SortSeqPermutes<T>(key: T -> int, s: seq<T>)
    ensures multiset(SortSeq(key, s)) == multiset(s)
  {
    if s != [] {
      SortSeqPermutes(key, s[..|s| - 1]);
      InsertPermutes(key, SortSeq(key, s[..|s| - 1]), s[|s| - 1]);
      assert s == s[..|s| - 1] + [s[|s| - 1]];
    }
  }

  /** The sort is stable: for every key, the elements with that key keep
      their relative order. */
  lemma {:induction false} SortSeqStable<T>(key: T -> int, s: seq<T>, v: int)
    ensures WithKey(key, v, SortSeq(key, s)) == WithKey(key, v, s)
  {
    if s != [] {
      SortSeqStable(key, s[..|s| - 1], v);
      InsertWithKey(key, SortSeq(key, s[..|s| - 1]), s[|s| - 1], v);
    }
  }

  /** Already sorted input is left exactly as it is: no insertion moves. */
  lemma {:induction false} SortSeqOfSorted<T>(key: T -> int, s: seq<T>)
    requires SortedBy(key, s)
    ensures SortSeq(key, s) == s
  {
    if s != [] {
      var front, x := s[..|s| - 1], s[|s| - 1];
      assert SortedBy(key, front);
      SortSeqOfSorted(key, front);
      assert front == [] || !Less(key, x, front[|front| - 1]);
      assert SortSeq(key, s) == front + [x];
      assert s == front + [x];
    }
  }

  /** Sorting twice is sorting once. */
  lemma SortSeqIdempotent<T>(key: T -> int, s: seq<T>)
    ensures SortSeq(key, SortSeq(key, s)) == SortSeq(key, s)
  {
    SortSeqSorted(key, s);
    SortSeqOfSorted(key, SortSeq(key, s));
  }

  // ---------------------------------------------------------------------
  // NoDescent, the meaning of `sorted`

  /** Adjacent pairs in order on [lo, hi] means every pair in order. */
  lemma {:induction false} AdjacentOrderedIsSorted<T>(key: T -> int, s: seq<T>, lo: int, hi: int)
    requires 0 <= lo && hi < |s|
    requires forall i :: lo < i <= hi ==> key(s[i - 1]) <= key(s[i])
    ensures SortedBy(key, Slice(s, lo, hi))
  {
    if lo < hi {
      AdjacentOrderedIsSorted(key, s, lo, hi - 1);
      var t := Slice(s, lo, hi - 1);
      var u := Slice(s, lo, hi);
      forall i, j | 0 <= i < j < |u|
        ensures key(u[i]) <= key(u[j])
      {
        if j < |u| - 1 {
          assert u[i] == t[i] && u[j] == t[j];
        } else if i < j - 1 {
          assert u[i] == t[i] && u[j - 1] == t[j - 1];
        }
      }
    }
  }

  /** `sorted(array, lo, hi)` is true exactly when the range is non-decreasing
      and, if the range is non-empty and does not start at index 0, its first
      element is not less than the element just before it. */
  lemma NoDescentMeaning<T>(key: T -> int, s: seq<T>, lo: int, hi: int)
    requires 0 <= lo && hi < |s|
    ensures NoDescent(key, s, lo, hi) <==>
            SortedBy(key, Slice(s, lo, hi)) && (1 <= lo <= hi ==> !Less(key, s[lo], s[lo - 1]))
  {
    if NoDescent(key, s, lo, hi) {
      AdjacentOrderedIsSorted(key, s, lo, hi);
    }
    if SortedBy(key, Slice(s, lo, hi)) && (1 <= lo <= hi ==> !Less(key, s[lo], s[lo - 1])) {
      forall i | lo < i <= hi
        ensures !Less(key, s[i], s[i - 1])
      {
        assert Slice(s, lo, hi)[i - 1 - lo] == s[i - 1];
        assert Slice(s, lo, hi)[i - lo] == s[i];
      }
    }
  }

  /** An empty range, or a single-element range at index 0, is always sorted. */
  lemma NoDescentTrivial<T>(key: T -> int, s: seq<T>, lo: int, hi: int)
    requires 0 <= lo && hi < |s|
    requires hi < lo || hi == 0
    ensures NoDescent(key, s, lo, hi)
  {
  }

  // ---------------------------------------------------------------------
  // SortRange

  /** What sorting [lo, hi] does: the length is kept, every index outside the
      range keeps its element, and the range holds SortSeq of the old range.
      That this is sorted, a permutation and stable is SortRangeSpec and
      SortRangeStable. */
  lemma SortRangeFrame<T>(key: T -> int, s: seq<T>, lo: int, hi: int)
    requires 0 <= lo && hi < |s|
    ensures |SortRange(key, s, lo, hi)| == |s|
    ensures forall k :: 0 <= k < |s| && !(lo <= k <= hi) ==> SortRange(key, s, lo, hi)[k] == s[k]
    ensures Slice(SortRange(key, s, lo, hi), lo, hi) == SortSeq(key, Slice(s, lo, hi))
  {
    var r := SortRange(key, s, lo, hi);
    if lo <= hi {
      var sorted := SortSeq(key, s[lo..hi + 1]);
      assert r[lo..hi + 1] == sorted;
    } else {
      assert SortSeq(key, []) == [];
    }
  }

  /** The contract of `sort(array, lo, hi)` on values: r, the result of sorting
      [lo, hi] in s, has the length of s, agrees with s at every index outside
      the range, and holds at [lo, hi] a non-decreasing permutation of the old
      contents of the range. */
  lemma SortRangeSpec<T>(key: T -> int, s: seq<T>, r: seq<T>, lo: int, hi: int)
    requires 0 <= lo && hi < |s|
    requires r == SortRange(key, s, lo, hi)
    ensures |r| == |s|
    ensures forall k :: 0 <= k < |s| && !(lo <= k <= hi) ==> r[k] == s[k]
    ensures SortedBy(key, Slice(r, lo, hi))
    ensures multiset(Slice(r, lo, hi)) == multiset(Slice(s, lo, hi))
  {
    SortRangeFrame(key, s, lo, hi);
    SortSeqSorted(key, Slice(s, lo, hi));
    SortSeqPermutes(key, Slice(s, lo, hi));
  }

  /** Stability on the range: for every key v, the elements of the range with
      key v appear in the same order before and after. */
  lemma SortRangeStable<T>(key: T -> int, s: seq<T>, lo: int, hi: int, v: int)
    requires 0 <= lo && hi < |s|
    ensures WithKey(key, v, Slice(SortRange(key, s, lo, hi), lo, hi)) == WithKey(key, v, Slice(s, lo, hi))
  {
    SortRangeFrame(key, s, lo, hi);
    SortSeqStable(key, Slice(s, lo, hi), v);
  }

  /** A range that is already sorted is left unchanged. */
  lemma SortRangeOfSorted<T>(key: T -> int, s: seq<T>, lo: int, hi: int)
    requires 0 <= lo && hi < |s|
    requires SortedBy(key, Slice(s, lo, hi))
    ensures SortRange(key, s, lo, hi) == s
  {
    if lo <= hi {
      SortSeqOfSorted(key, Slice(s, lo, hi));
      RangeSplitsBack(s, lo, hi);
    }
  }

  /** Cutting s around [lo, hi] and gluing the pieces back gives s. */
  lemma RangeSplitsBack<T>(s: seq<T>, lo: int, hi: int)
    requires 0 <= lo <= hi < |s|
    ensures s[..lo] + s[lo..hi + 1] + s[hi + 1..] == s
  {
  }

  /** Sorting the same range twice is sorting it once. */
  lemma SortRangeIdempotent<T>(key: T -> int, s: seq<T>, lo: int, hi: int)
    requires 0 <= lo && hi < |s|
    ensures |SortRange(key, s, lo, hi)| == |s|
    ensures SortRange(key, SortRange(key, s, lo, hi), lo, hi) == SortRange(key, s, lo, hi)
  {
    SortRangeSpec(key, s, SortRange(key, s, lo, hi), lo, hi);
    SortRangeOfSorted(key, SortRange(key, s, lo, hi), lo, hi);
  }

  /** The whole-array call sorts everything. */
  lemma SortWholeRange<T>(key: T -> int, s: seq<T>)
    ensures SortRange(key, s, 0, |s| - 1) == SortSeq(key, s)
  {
    if s != [] {
      assert s[..0] == [] && s[0..|s|] == s && s[|s|..] == [];
    }
  }

  /** After the whole-array call, `sorted` with no range holds. */
  lemma SortedAfterWholeSort<T>(key: T -> int, s: seq<T>)
    ensures NoDescent(key, SortSeq(key, s), 0, |s| - 1)
  {
    var r := SortSeq(key, s);
    assert Slice(r, 0, |s| - 1) == r;
    SortSeqSorted(key, s);
    NoDescentMeaning(key, r, 0, |s| - 1);
  }

  /** `sorted` after `sort` on the same range: true exactly when the range
      starts at index 0, is empty, or the element before it is not greater than
      any element of the range. */
  lemma SortThenNoDescent<T>(key: T -> int, s: seq<T>, lo: int, hi: int)
    requires 0 <= lo && hi < |s|
    ensures |SortRange(key, s, lo, hi)| == |s|
    ensures NoDescent(key, SortRange(key, s, lo, hi), lo, hi) <==>
            (lo == 0 || hi < lo || forall k :: lo <= k <= hi ==> !Less(key, s[k], s[lo - 1]))
  {
    var r := SortRange(key, s, lo, hi);
    SortRangeSpec(key, s, r, lo, hi);
    NoDescentMeaning(key, r, lo, hi);
    if 1 <= lo <= hi {
      var rs, ss := Slice(r, lo, hi), Slice(s, lo, hi);
      assert r[lo - 1] == s[lo - 1];
      // The first element of the sorted range is one of the old range's elements.
      assert rs[0] in multiset(ss) by {
        assert rs[0] in multiset(rs);
      }
      var w :| 0 <= w < |ss| && ss[w] == rs[0];
      assert r[lo] == s[lo + w];
      // Every old element of the range is somewhere in the sorted range.
      forall k | lo <= k <= hi
        ensures key(r[lo]) <= key(s[k])
      {
        assert ss[k - lo] in multiset(rs) by {
          assert ss[k - lo] in multiset(ss);
        }
        var p :| 0 <= p < |rs| && rs[p] == ss[k - lo];
        assert rs[0] == r[lo];
      }
    }
  }
}
