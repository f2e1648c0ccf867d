/**
 * The two example runs at the end of the original, on numbers: the
 * whole-array sort of [5, 2, 1, 3, 4], and the sort of its range [1, 3].
 */
module Demo {
  import opened Order
  import opened InsertionSpec
  import opened InsertionSort

  /** The first pass of the whole-array sort: 2 moves in front of 5. */
  lemma WholePass1()
    ensures SortSeq(Numeric, [5, 2]) == [2, 5]
  {
    assert [5, 2][..1] == [5] && [5][..0] == [];
    InsertAt(Numeric, [5], 2, 0);
  }

  /** The second pass: 1 moves in front of 2 and 5. */
  lemma WholePass2()
    ensures SortSeq(Numeric, [5, 2, 1]) == [1, 2, 5]
  {
    WholePass1();
    assert [5, 2, 1][..2] == [5, 2];
    InsertAt(Numeric, [2, 5], 1, 0);
  }

  /** The third pass: 3 moves in front of 5 only. */
  lemma WholePass3()
    ensures SortSeq(Numeric, [5, 2, 1, 3]) == [1, 2, 3, 5]
  {
    WholePass2();
    assert [5, 2, 1, 3][..3] == [5, 2, 1];
    InsertAt(Numeric, [1, 2, 5], 3, 2);
  }

  /** The fourth and last pass: 4 moves in front of 5 only. */
  lemma WholePass4()
    ensures SortSeq(Numeric, [5, 2, 1, 3, 4]) == [1, 2, 3, 4, 5]
  {
    WholePass3();
    assert [5, 2, 1, 3, 4][..4] == [5, 2, 1, 3];
    InsertAt(Numeric, [1, 2, 3, 5], 4, 3);
  }

  /** `sort(a1)` gives [1, 2, 3, 4, 5], on which `sorted(a1)` is true. */
  lemma DemoWholeArray()
    ensures SortRange(Numeric, [5, 2, 1, 3, 4], 0, 4) == [1, 2, 3, 4, 5]
    ensures NoDescent(Numeric, [1, 2, 3, 4, 5], 0, 4)
  {
    WholePass4();
    SortWholeRange(Numeric, [5, 2, 1, 3, 4]);
    SortedAfterWholeSort(Numeric, [5, 2, 1, 3, 4]);
  }

  /** The first pass of the sort of the range [1, 3] of [5, 2, 1, 3, 4],
      whose contents are [2, 1, 3]: 1 moves in front of 2. */
  lemma RangePass1()
    ensures SortSeq(Numeric, [2, 1]) == [1, 2]
  {
    assert [2, 1][..1] == [2] && [2][..0] == [];
    InsertAt(Numeric, [2], 1, 0);
  }

  /** The second and last pass: 3 stays where it is. */
  lemma RangePass2()
    ensures SortSeq(Numeric, [2, 1, 3]) == [1, 2, 3]
  {
    RangePass1();
    assert [2, 1, 3][..2] == [2, 1];
    InsertAt(Numeric, [1, 2], 3, 2);
  }

  /** `sort(a2, 1, 3)` gives [5, 1, 2, 3, 4]: only indices 1 to 3 move. */
  lemma DemoRange()
    ensures SortRange(Numeric, [5, 2, 1, 3, 4], 1, 3) == [5, 1, 2, 3, 4]
  {
    var s := [5, 2, 1, 3, 4];
    RangePass2();
    assert s[1..4] == [2, 1, 3] && s[..1] == [5] && s[4..] == [4];
  }

  /** On that result `sorted(a2, 1, 3)` is false, because it compares index 1
      with the 5 just before the range. */
  lemma DemoRangeNotSorted()
    ensures !NoDescent(Numeric, [5, 1, 2, 3, 4], 1, 3)
  {
    var r := [5, 1, 2, 3, 4];
    assert Less(Numeric, r[1], r[0]);
  }

  /** An already sorted array is left as it is. */
  lemma DemoAlreadySorted()
    ensures SortRange(Numeric, [1, 2, 3], 0, 2) == [1, 2, 3]
  {
    assert Slice([1, 2, 3], 0, 2) == [1, 2, 3];
    SortRangeOfSorted(Numeric, [1, 2, 3], 0, 2);
  }

  /** Equal elements are left as they are. */
  lemma DemoAllEqual()
    ensures SortRange(Numeric, [3, 3, 3], 0, 2) == [3, 3, 3]
  {
    assert Slice([3, 3, 3], 0, 2) == [3, 3, 3];
    SortRangeOfSorted(Numeric, [3, 3, 3], 0, 2);
  }

  /** All-equal elements pass `sorted`. */
  lemma DemoAllEqualSorted()
    ensures NoDescent(Numeric, [3, 3, 3], 0, 2)
  {
    var s := [3, 3, 3];
    assert forall i :: 0 <= i < |s| ==> s[i] == 3;
  }

  /** The empty array: nothing to sort, and `sorted` holds. */
  lemma DemoEmpty()
    ensures SortRange(Numeric, [], 0, -1) == []
    ensures NoDescent(Numeric, [], 0, -1)
  {
  }

  /** A one-element range that is not at index 0 can fail `sorted`: [1, 1]
      of [2, 1] compares 1 with the 2 before the range. */
  lemma DemoSingleNotSorted()
    ensures !NoDescent(Numeric, [2, 1], 1, 1)
  {
    var r := [2, 1];
    assert Less(Numeric, r[1], r[0]);
  }

  /** The example runs on arrays, through the methods' contracts. */
  method DemoRun() {
    var a1 := new int[] [5, 2, 1, 3, 4];
    assert a1[..] == [5, 2, 1, 3, 4];
    var b1 := Sort(a1, Numeric, None, None);
    DemoWholeArray();
    assert a1[..] == [1, 2, 3, 4, 5];
    var ok1 := Sorted(a1, Numeric, None, None);
    assert b1 == a1 && ok1;

    var a2 := new int[] [5, 2, 1, 3, 4];
    assert a2[..] == [5, 2, 1, 3, 4];
    var b2 := Sort(a2, Numeric, Some(1), Some(3));
    DemoRange();
    DemoRangeNotSorted();
    assert a2[..] == [5, 1, 2, 3, 4];
    var ok2 := Sorted(a2, Numeric, Some(1), Some(3));
    assert b2 == a2 && !ok2;
  }
}
