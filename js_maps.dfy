/**
 * A JavaScript `Map` (or a plain object used as a record): entries in
 * insertion order with distinct keys. `set` on a present key replaces the
 * value where it stands; on a new key it appends.
 */
module JsMaps {
  import opened Seqs

  function KeyOf<K, V>(entry: (K, V)): K {
    entry.0
  }

  predicate DistinctKeys<K(==), V>(e: seq<(K, V)>) {
    DistinctBy(e, KeyOf)
  }

  /** Position of the entry with key `k`, or -1. */
  function FindKey<K(==), V>(e: seq<(K, V)>, k: K): (r: int)
    ensures -1 <= r < |e|
    ensures r >= 0 ==> e[r].0 == k
    ensures r == -1 <==> forall t :: 0 <= t < |e| ==> e[t].0 != k
  {
    if e == [] then -1
    else if e[|e| - 1].0 == k then |e| - 1
    else FindKey(e[..|e| - 1], k)
  }

  /** `map.set(k, v)`. */
  function Put<K(==), V>(e: seq<(K, V)>, k: K, v: V): (r: seq<(K, V)>)
    ensures DistinctKeys(e) ==> DistinctKeys(r)
    ensures |r| == |e| + (if FindKey(e, k) < 0 then 1 else 0)
  {
    var t := FindKey(e, k);
    if t < 0 then e + [(k, v)] else e[t := (k, v)]
  }

  /** The entries hold exactly the pairs of the finite map `m`. */
  ghost predicate Represents<K, V>(e: seq<(K, V)>, m: map<K, V>) {
    && DistinctKeys(e)
    && (forall t :: 0 <= t < |e| ==> e[t].0 in m && m[e[t].0] == e[t].1)
    && (forall k :: k in m ==> FindKey(e, k) >= 0)
  }

  lemma PutRepresents<K, V>(e: seq<(K, V)>, m: map<K, V>, k: K, v: V)
    requires Represents(e, m)
    ensures Represents(Put(e, k, v), m[k := v])
  {
    var r := Put(e, k, v);
    var m' := m[k := v];
    var t := FindKey(e, k);
    var at := if t < 0 then |e| else t;
    assert r[at] == (k, v);
    forall i | 0 <= i < |r| && i != at ensures r[i] == e[i] && e[i].0 != k {
      if t >= 0 { assert KeyOf(e[i]) != KeyOf(e[t]); }
    }
    forall k' | k' in m' ensures FindKey(r, k') >= 0 {
      if k' != k {
        var i := FindKey(e, k');
        assert r[i].0 == k';
      } else {
        assert r[at].0 == k';
      }
    }
  }

  /** A pair is an entry exactly when the map has it. */
  lemma RepresentsMember<K, V>(e: seq<(K, V)>, m: map<K, V>, k: K, v: V)
    requires Represents(e, m)
    ensures (k, v) in e <==> k in m && m[k] == v
  {
    if k in m && m[k] == v {
      assert e[FindKey(e, k)] == (k, v);
    }
  }

  /** The record built by visiting `xs` in order and setting `key(x)` to
      `val(x)`: a later element with the same key overwrites an earlier one. */
  function LastWins<T, K, V>(xs: seq<T>, key: T -> K, val: T -> V): map<K, V> {
    if xs == [] then map[]
    else LastWins(xs[..|xs| - 1], key, val)[key(xs[|xs| - 1]) := val(xs[|xs| - 1])]
  }

  lemma LastWinsAppend<T, K, V>(xs: seq<T>, x: T, key: T -> K, val: T -> V)
    ensures LastWins(xs + [x], key, val) == LastWins(xs, key, val)[key(x) := val(x)]
  {
    assert (xs + [x])[..|xs|] == xs;
  }

  /** Every key of some element is present; its value comes from the last
      element that has it. */
  lemma {:induction false} LastWinsLookup<T, K, V>(xs: seq<T>, key: T -> K, val: T -> V, k: K)
    ensures k in LastWins(xs, key, val) <==> exists i :: 0 <= i < |xs| && key(xs[i]) == k
    ensures forall i :: 0 <= i < |xs| && key(xs[i]) == k &&
                        (forall j :: i < j < |xs| ==> key(xs[j]) != k) ==>
                        k in LastWins(xs, key, val) && LastWins(xs, key, val)[k] == val(xs[i])
  {
    if xs != [] {
      var n := |xs| - 1;
      var front := xs[..n];
      LastWinsLookup(front, key, val, k);
      if k != key(xs[n]) {
        if exists i :: 0 <= i < |xs| && key(xs[i]) == k {
          var i :| 0 <= i < |xs| && key(xs[i]) == k;
          assert key(front[i]) == k;
        }
        forall i | 0 <= i < |xs| && key(xs[i]) == k && (forall j :: i < j < |xs| ==> key(xs[j]) != k)
          ensures k in LastWins(xs, key, val) && LastWins(xs, key, val)[k] == val(xs[i])
        {
          assert front[i] == xs[i];
          assert forall j :: i < j < |front| ==> key(front[j]) != k by {
            forall j | i < j < |front| ensures key(front[j]) != k {
              assert front[j] == xs[j];
            }
          }
        }
      }
    }
  }
}
