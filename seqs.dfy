/**
 * Sequence facts used by the list derivations: `Array.prototype.filter`,
 * distinctness under a key, and what a permutation keeps.
 */
module Seqs {

  /** `Array.prototype.filter`, written so that appending one element is one
      unfolding. */
  function Filter<T>(s: seq<T>, p: T -> bool): (r: seq<T>)
    ensures |r| <= |s|
    ensures forall k :: 0 <= k < |r| ==> p(r[k])
  {
    if s == [] then [] else Filter(s[..|s| - 1], p) + (if p(s[|s| - 1]) then [s[|s| - 1]] else [])
  }

  lemma FilterAppend<T>(s: seq<T>, x: T, p: T -> bool)
    ensures Filter(s + [x], p) == Filter(s, p) + (if p(x) then [x] else [])
  {
    assert (s + [x])[..|s|] == s;
  }

  /** Filtering a concatenation filters each half. */
  lemma {:induction false} FilterConcat<T>(a: seq<T>, b: seq<T>, p: T -> bool)
    ensures Filter(a + b, p) == Filter(a, p) + Filter(b, p)
    decreases |b|
  {
    if b == [] {
      assert a + b == a;
    } else {
      var n := |b| - 1;
      FilterConcat(a, b[..n], p);
      assert a + b == (a + b[..n]) + [b[n]];
      assert b == b[..n] + [b[n]];
      FilterAppend(a + b[..n], b[n], p);
      FilterAppend(b[..n], b[n], p);
    }
  }

  /** A property every element has survives filtering. */
  lemma {:induction false} FilterPreserves<T>(s: seq<T>, p: T -> bool, q: T -> bool)
    requires forall k :: 0 <= k < |s| ==> q(s[k])
    ensures forall k :: 0 <= k < |Filter(s, p)| ==> q(Filter(s, p)[k])
  {
    if s != [] {
      FilterPreserves(s[..|s| - 1], p, q);
    }
  }

  /** `idx` lists, in increasing order, positions of `s` holding the elements of `r`. */
  ghost predicate Embeds<T>(r: seq<T>, s: seq<T>, idx: seq<nat>) {
    && |idx| == |r|
    && (forall k :: 0 <= k < |idx| ==> idx[k] < |s| && r[k] == s[idx[k]])
    && (forall k, m :: 0 <= k < m < |idx| ==> idx[k] < idx[m])
  }

  /** The filtered list is the subsequence of the input made of exactly the
      positions whose element passes the test, in their original order. */
  lemma {:induction false} FilterPositions<T>(s: seq<T>, p: T -> bool) returns (idx: seq<nat>)
    ensures Embeds(Filter(s, p), s, idx)
    ensures forall q :: 0 <= q < |s| ==> (p(s[q]) <==> q in idx)
  {
    if s == [] {
      idx := [];
    } else {
      var n := |s| - 1;
      var front := s[..n];
      var idx0 := FilterPositions(front, p);
      var r0 := Filter(front, p);
      forall k | 0 <= k < |idx0| ensures idx0[k] < n && r0[k] == s[idx0[k]] {
        assert front[idx0[k]] == s[idx0[k]];
      }
      if p(s[n]) {
        idx := idx0 + [n];
        var r := r0 + [s[n]];
        assert Filter(s, p) == r;
        assert forall k :: 0 <= k < |idx0| ==> idx[k] == idx0[k] && r[k] == r0[k];
      } else {
        idx := idx0;
        assert Filter(s, p) == r0;
      }
      forall q | 0 <= q < |s| ensures p(s[q]) <==> q in idx {
        if q < n {
          assert s[q] == front[q];
        }
      }
    }
  }

  /** Nothing passes, nothing is kept. */
  lemma {:induction false} FilterNone<T>(s: seq<T>, p: T -> bool)
    requires forall i :: 0 <= i < |s| ==> !p(s[i])
    ensures Filter(s, p) == []
  {
    if s != [] {
      FilterNone(s[..|s| - 1], p);
    }
  }

  /** Every element of the input that passes the test appears in the output. */
  lemma FilterKeeps<T>(s: seq<T>, p: T -> bool, x: T)
    requires x in s && p(x)
    ensures x in Filter(s, p)
  {
    var idx := FilterPositions(s, p);
    var q :| 0 <= q < |s| && s[q] == x;
    var k :| 0 <= k < |idx| && idx[k] == q;
    assert Filter(s, p)[k] == x;
  }

  /** The output holds only elements of the input. */
  lemma FilterSubset<T>(s: seq<T>, p: T -> bool, x: T)
    requires x in Filter(s, p)
    ensures x in s
  {
    var idx := FilterPositions(s, p);
    var k :| 0 <= k < |Filter(s, p)| && Filter(s, p)[k] == x;
    assert s[idx[k]] == x;
  }

  /** No two elements share the same key. */
  predicate DistinctBy<T, K(==)>(s: seq<T>, f: T -> K) {
    forall i, j :: 0 <= i < j < |s| ==> f(s[i]) != f(s[j])
  }

  lemma {:induction false} DistinctCountsAtMostOne<T, K>(s: seq<T>, f: T -> K, x: T)
    requires DistinctBy(s, f)
    ensures multiset(s)[x] <= 1
  {
    if s != [] {
      var n := |s| - 1;
      assert s == s[..n] + [s[n]];
      DistinctCountsAtMostOne(s[..n], f, x);
      if s[n] == x {
        assert x !in s[..n];
      }
    }
  }

  lemma TwiceCountsTwo<T>(s: seq<T>, i: nat, j: nat)
    requires i < j < |s|
    ensures s[i] == s[j] ==> multiset(s)[s[i]] >= 2
  {
    assert s == s[..j] + s[j..];
    assert s[i] == s[..j][i];
    assert s[j] == s[j..][0];
    assert multiset(s) == multiset(s[..j]) + multiset(s[j..]);
  }

  /** Under distinct keys, two members with the same key are the same member. */
  lemma SameKeySameElement<T, K>(s: seq<T>, f: T -> K, x: T, y: T)
    requires DistinctBy(s, f) && x in s && y in s
    ensures f(x) == f(y) ==> x == y
  {
    var p :| 0 <= p < |s| && s[p] == x;
    var q :| 0 <= q < |s| && s[q] == y;
  }

  /** Reordering keeps keys distinct. */
  lemma PermutationDistinct<T, K>(r: seq<T>, s: seq<T>, f: T -> K)
    requires DistinctBy(s, f) && multiset(r) == multiset(s)
    ensures DistinctBy(r, f)
  {
    forall i, j | 0 <= i < j < |r| ensures f(r[i]) != f(r[j]) {
      PermutationMember(r, s, r[i]);
      PermutationMember(r, s, r[j]);
      SameKeySameElement(s, f, r[i], r[j]);
      TwiceCountsTwo(r, i, j);
      DistinctCountsAtMostOne(s, f, r[i]);
    }
  }

  /** Elements of a permutation are elements of the original. */
  lemma PermutationMember<T>(r: seq<T>, s: seq<T>, x: T)
    requires multiset(r) == multiset(s)
    ensures x in r <==> x in s
  {
    assert x in r <==> x in multiset(r);
  }
}
