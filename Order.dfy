/**
 * The comparison primitive of the insertion sort and the orders built on it.
 *
 * Elements of any type T are compared through an integer key. The numeric
 * arrays of the original are the instance T = int with the identity key, for
 * which Less(key, a, b) is exactly `a < b`.
 */
module Order {

  /** `less(a, b)`: true iff a is strictly less than b. */
  predicate Less<T>(key: T -> int, a: T, b: T) {
    key(a) < key(b)
  }

  /** The identity key: the numeric elements of the original. */
  function Numeric(x: int): int {
    x
  }

  /** Less is a strict weak order: irreflexive, asymmetric, transitive, and
      "neither is less than the other" is transitive as well. */
  lemma LessIsStrictWeakOrder<T>(key: T -> int, a: T, b: T, c: T)
    ensures !Less(key, a, a)
    ensures Less(key, a, b) ==> !Less(key, b, a)
    ensures Less(key, a, b) && Less(key, b, c) ==> Less(key, a, c)
    ensures !Less(key, a, b) && !Less(key, b, a) && !Less(key, b, c) && !Less(key, c, b)
            ==> !Less(key, a, c) && !Less(key, c, a)
  {
  }

  /** On numbers, Less is the strict total order `<`. */
  lemma NumericLessIsLessThan(a: int, b: int)
    ensures Less(Numeric, a, b) <==> a < b
    ensures !Less(Numeric, a, b) && !Less(Numeric, b, a) ==> a == b
  {
  }

  /** Every pair of positions of s is in non-decreasing key order. */
  predicate SortedBy<T>(key: T -> int, s: seq<T>) {
    forall i, j :: 0 <= i < j < |s| ==> key(s[i]) <= key(s[j])
  }
}
