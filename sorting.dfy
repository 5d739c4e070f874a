/**
 * The in-place sorts of the generator: dbc2c sorts the messages by identifier
 * and each message's signals by decreasing length, and multiplexor_switch
 * sorts a message's signals by switch value.  All three go through qsort with
 * a three-way comparator; qsort is not stable, so all that is promised is a
 * sorted permutation of the input.
 */
module Sorting {
  import opened Signals

  /** The elements of s are in non-decreasing order of their keys. */
  predicate SortedBy<T>(s: seq<T>, key: T -> int)
  {
    forall p, q :: 0 <= p < q < |s| ==> key(s[p]) <= key(s[q])
  }

  /** The first n elements of a are in non-decreasing order of their keys, leaving out position skip. */
  ghost predicate SortedExcept<T>(a: array<T>, n: int, skip: int, key: T -> int)
    reads a
  {
    forall p, q :: 0 <= p < q < n && q < a.Length && p != skip && q != skip ==> key(a[p]) <= key(a[q])
  }

  /** Sorts a in place by key: the result is ordered and a permutation of the input. */
  method SortByKey<T>(a: array<T>, key: T -> int)
    modifies a
    ensures SortedBy(a[..], key)
    ensures multiset(a[..]) == multiset(old(a[..]))
  {
    var i := 0;
    while i < a.Length
      invariant 0 <= i <= a.Length
      invariant SortedExcept(a, i, -1, key)
      invariant multiset(a[..]) == multiset(old(a[..]))
    {
      Sift(a, i, key);
      i := i + 1;
    }
  }

  /** Moves a[i] down into the sorted prefix a[..i]. */
  method Sift<T>(a: array<T>, i: int, key: T -> int)
    requires 0 <= i < a.Length
    requires SortedExcept(a, i, -1, key)
    modifies a
    ensures SortedExcept(a, i + 1, -1, key)
    ensures multiset(a[..]) == multiset(old(a[..]))
  {
    var j := i;
    while j > 0 && key(a[j - 1]) > key(a[j])
      invariant 0 <= j <= i
      invariant multiset(a[..]) == multiset(old(a[..]))
      invariant SortedExcept(a, i + 1, j, key)
      invariant forall q :: j < q <= i ==> key(a[j]) < key(a[q])
    {
      Swap(a, j);
      j := j - 1;
    }
  }

  /** Exchanges a[j - 1] and a[j]. */
  method Swap<T>(a: array<T>, j: int)
    requires 0 < j < a.Length
    modifies a
    ensures a[..] == old(a[..])[j - 1 := old(a[j])][j := old(a[j - 1])]
    ensures multiset(a[..]) == multiset(old(a[..]))
  {
    a[j - 1], a[j] := a[j], a[j - 1];
  }

  // ---------------------------------------------------------------------------
  // The comparators handed to qsort.

  /** c is a three-way comparison of x with y: negative, zero or positive as x is below, equal to or above y. */
  predicate ThreeWay(c: int, x: int, y: int)
  {
    (c < 0 <==> x < y) && (c == 0 <==> x == y) && (c > 0 <==> x > y)
  }

  /** cmp_signal orders signals by switch value. */
  function CmpSignal(lhs: Signal, rhs: Signal): (c: int)
    ensures ThreeWay(c, lhs.switchval, rhs.switchval)
  {
    if lhs.switchval < rhs.switchval then -1
    else if lhs.switchval > rhs.switchval then 1
    else 0
  }

  /** signal_compare_function orders signals by decreasing bit length. */
  function SignalCompare(a: Signal, b: Signal): (c: int)
    ensures ThreeWay(c, b.bitLength, a.bitLength)
  {
    if a.bitLength < b.bitLength then 1
    else if a.bitLength == b.bitLength then 0
    else -1
  }

  /** The sort key each comparator orders by: qsort with the comparator and SortByKey with the key agree on which order is sorted. */
  lemma ComparatorKeys(a: Signal, b: Signal)
    ensures CmpSignal(a, b) <= 0 <==> SwitchKey(a) <= SwitchKey(b)
    ensures SignalCompare(a, b) <= 0 <==> LengthKey(a) <= LengthKey(b)
  {
  }

  function SwitchKey(s: Signal): int
  {
    s.switchval
  }

  /** Decreasing length is increasing negated length. */
  function LengthKey(s: Signal): int
  {
    -(s.bitLength as int)
  }
}
