/**
 * `Array.prototype.sort` with a comparator that compares one string key of
 * each element, ascending or descending. The comparator's `localeCompare` is
 * replaced by the code-point order `Text.Le`.
 */
module Sorting {
  import opened Text

  /** `x` may stand before `y` in the sorted output. */
  predicate InOrder<T>(key: T -> string, descending: bool, x: T, y: T) {
    if descending then Le(key(y), key(x)) else Le(key(x), key(y))
  }

  predicate SortedBy<T>(key: T -> string, descending: bool, s: seq<T>) {
    forall i, j :: 0 <= i < j < |s| ==> InOrder(key, descending, s[i], s[j])
  }

  lemma InOrderTotal<T>(key: T -> string, descending: bool, x: T, y: T)
    ensures InOrder(key, descending, x, y) || InOrder(key, descending, y, x)
  {
    LeTotal(key(x), key(y));
  }

  lemma InOrderTransitive<T>(key: T -> string, descending: bool, x: T, y: T, z: T)
    requires InOrder(key, descending, x, y) && InOrder(key, descending, y, z)
    ensures InOrder(key, descending, x, z)
  {
    if descending { LeTransitive(key(z), key(y), key(x)); } else { LeTransitive(key(x), key(y), key(z)); }
  }

  method Swap<T>(a: array<T>, i: nat, j: nat)
    requires i < a.Length && j < a.Length
    modifies a
    ensures a[..] == old(a[..])[i := old(a[j])][j := old(a[i])]
    ensures multiset(a[..]) == old(multiset(a[..]))
  {
    a[i], a[j] := a[j], a[i];
  }

  /** Insertion sort in place: only elements strictly out of order are
      swapped, so the result is sorted and a permutation of the input. */
  method SortInPlace<T>(a: array<T>, key: T -> string, descending: bool)
    modifies a
    ensures SortedBy(key, descending, a[..])
    ensures multiset(a[..]) == old(multiset(a[..]))
  {
    if a.Length == 0 { return; }
    var i := 1;
    while i < a.Length
      invariant 1 <= i <= a.Length
      invariant forall k, m :: 0 <= k < m < i ==> InOrder(key, descending, a[k], a[m])
      invariant multiset(a[..]) == old(multiset(a[..]))
    {
      InsertBack(a, i, key, descending);
      i := i + 1;
    }
  }

  /** One pass of the insertion sort: `a[i]` moves back past every element
      strictly after it in the order, so that `a[..i + 1]` is sorted. */
  method InsertBack<T>(a: array<T>, i: nat, key: T -> string, descending: bool)
    requires i < a.Length
    requires forall k, m :: 0 <= k < m < i ==> InOrder(key, descending, a[k], a[m])
    modifies a
    ensures forall k, m :: 0 <= k < m <= i ==> InOrder(key, descending, a[k], a[m])
    ensures multiset(a[..]) == old(multiset(a[..]))
  {
    var j := i;
    while j > 0 && !InOrder(key, descending, a[j - 1], a[j])
      invariant 0 <= j <= i
      invariant forall k, m :: 0 <= k < m <= i && k != j && m != j ==> InOrder(key, descending, a[k], a[m])
      invariant forall m :: j < m <= i ==> InOrder(key, descending, a[j], a[m])
      invariant multiset(a[..]) == old(multiset(a[..]))
    {
      InOrderTotal(key, descending, a[j - 1], a[j]);
      Swap(a, j - 1, j);
      j := j - 1;
    }
    forall k, m | 0 <= k < m <= i ensures InOrder(key, descending, a[k], a[m]) {
      if m == j && k < j - 1 {
        InOrderTransitive(key, descending, a[k], a[j - 1], a[j]);
      }
    }
  }

  /** Sorts a copy of `s` (`[...s].sort(...)`). */
  method SortedCopy<T>(s: seq<T>, key: T -> string, descending: bool) returns (r: seq<T>)
    ensures SortedBy(key, descending, r)
    ensures multiset(r) == multiset(s)
  {
    var a := new T[|s|](i requires 0 <= i < |s| => s[i]);
    assert a[..] == s;
    SortInPlace(a, key, descending);
    r := a[..];
  }

  /** A permutation has the same length and the same elements. */
  lemma PermutationMembers<T>(r: seq<T>, s: seq<T>)
    requires multiset(r) == multiset(s)
    ensures |r| == |s|
    ensures forall x :: x in r <==> x in s
  {
    assert |multiset(r)| == |multiset(s)|;
    forall x ensures x in r <==> x in s {
      assert x in r <==> x in multiset(r);
      assert x in s <==> x in multiset(s);
    }
  }
}
