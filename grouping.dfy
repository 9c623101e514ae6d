/**
 * `groupedDeliveries`: the filtered deliveries put into titled buckets by
 * carrier or by status, the buckets sorted by title.
 */
module Grouping {
  import opened Text
  import opened Seqs
  import opened Sorting
  import opened JsMaps
  import opened Derivations

  /** The `group` search parameter: `none`, `carrier` or `status`. */
  datatype GroupMode = NoGroup | ByCarrier | ByStatus

  datatype Bucket = Bucket(title: string, items: seq<Decorated>)

  /** The bucket an item belongs in: its carrier code, or `unknown` when it
      has none; or its status value. */
  function GroupKey(mode: GroupMode, x: Decorated): (r: string)
    ensures mode == ByCarrier ==> r != "" && (x.carrierCode != "" ==> r == x.carrierCode)
    ensures mode == ByCarrier && x.carrierCode == "" ==> r == "unknown"
    ensures mode != ByCarrier ==> r == x.status.value
  {
    if mode == ByCarrier then (if x.carrierCode == "" then "unknown" else x.carrierCode)
    else x.status.value
  }

  /** The title a bucket gets from the item that opens it. */
  function GroupTitle(mode: GroupMode, x: Decorated): string {
    if mode == ByCarrier then x.carrierName else x.status.labelText
  }

  function KeyIs(mode: GroupMode, k: string): Decorated -> bool {
    x => GroupKey(mode, x) == k
  }

  /** The map of buckets after the items `xs`, in insertion order: an item
      joins the bucket of its key, or opens a new one at the end. */
  function Collect(mode: GroupMode, xs: seq<Decorated>): (r: seq<(string, Bucket)>)
    ensures |r| <= |xs|
    ensures r == [] <==> xs == []
  {
    if xs == [] then []
    else
      var n := |xs| - 1;
      Join(Collect(mode, xs[..n]), mode, xs[n])
  }

  /** One step of the `forEach`: `existing.items.push(item)` or
      `grouped.set(key, { title, items: [item] })`. */
  function Join(e: seq<(string, Bucket)>, mode: GroupMode, x: Decorated): (r: seq<(string, Bucket)>)
    ensures FindKey(e, GroupKey(mode, x)) >= 0 ==> |r| == |e|
    ensures FindKey(e, GroupKey(mode, x)) < 0 ==> |r| == |e| + 1 && r[|e|].1 == Bucket(GroupTitle(mode, x), [x])
  {
    var k := GroupKey(mode, x);
    var t := FindKey(e, k);
    if t >= 0 then e[t := (k, Bucket(e[t].1.title, e[t].1.items + [x]))]
    else e + [(k, Bucket(GroupTitle(mode, x), [x]))]
  }

  /** Each bucket holds exactly the items with its key, in their order,
      and is titled after the first of them. */
  ghost predicate BucketsExact(mode: GroupMode, xs: seq<Decorated>, e: seq<(string, Bucket)>) {
    forall t :: 0 <= t < |e| ==>
      && e[t].1.items == Filter(xs, KeyIs(mode, e[t].0))
      && e[t].1.items != []
      && e[t].1.title == GroupTitle(mode, e[t].1.items[0])
  }

  /** Every item's key has a bucket. */
  ghost predicate Covered(mode: GroupMode, xs: seq<Decorated>, e: seq<(string, Bucket)>) {
    forall i :: 0 <= i < |xs| ==> FindKey(e, GroupKey(mode, xs[i])) >= 0
  }

  /** The bucket map is right for the items `xs`. */
  ghost predicate WellGrouped(mode: GroupMode, xs: seq<Decorated>, e: seq<(string, Bucket)>) {
    DistinctKeys(e) && BucketsExact(mode, xs, e) && Covered(mode, xs, e)
  }

  lemma {:induction false} CollectWellGrouped(mode: GroupMode, xs: seq<Decorated>)
    ensures WellGrouped(mode, xs, Collect(mode, xs))
  {
    if xs != [] {
      var n := |xs| - 1;
      var e := Collect(mode, xs[..n]);
      CollectWellGrouped(mode, xs[..n]);
      assert xs[..n] + [xs[n]] == xs;
      if FindKey(e, GroupKey(mode, xs[n])) >= 0 {
        JoinExisting(mode, xs[..n], e, xs[n]);
      } else {
        JoinNew(mode, xs[..n], e, xs[n]);
      }
    }
  }

  /** Buckets whose key differs from the new item's keep their items. */
  lemma OtherBucketsKeep(mode: GroupMode, xs: seq<Decorated>, e: seq<(string, Bucket)>, x: Decorated)
    requires BucketsExact(mode, xs, e)
    ensures forall u :: 0 <= u < |e| && e[u].0 != GroupKey(mode, x) ==>
              Filter(xs + [x], KeyIs(mode, e[u].0)) == e[u].1.items
  {
    forall u | 0 <= u < |e| && e[u].0 != GroupKey(mode, x)
      ensures Filter(xs + [x], KeyIs(mode, e[u].0)) == e[u].1.items
    {
      FilterAppend(xs, x, KeyIs(mode, e[u].0));
    }
  }

  lemma JoinExisting(mode: GroupMode, xs: seq<Decorated>, e: seq<(string, Bucket)>, x: Decorated)
    requires WellGrouped(mode, xs, e)
    requires FindKey(e, GroupKey(mode, x)) >= 0
    ensures WellGrouped(mode, xs + [x], Join(e, mode, x))
  {
    var r := Join(e, mode, x);
    assert DistinctKeys(r) by {
      assert |r| == |e| && forall u :: 0 <= u < |r| ==> r[u].0 == e[u].0;
      forall i, j | 0 <= i < j < |r| ensures KeyOf(r[i]) != KeyOf(r[j]) {
        assert KeyOf(e[i]) != KeyOf(e[j]);
      }
    }
    JoinExistingBuckets(mode, xs, e, x);
    JoinExistingCovered(mode, xs, e, x);
  }

  lemma JoinExistingBuckets(mode: GroupMode, xs: seq<Decorated>, e: seq<(string, Bucket)>, x: Decorated)
    requires DistinctKeys(e) && BucketsExact(mode, xs, e)
    requires FindKey(e, GroupKey(mode, x)) >= 0
    ensures BucketsExact(mode, xs + [x], Join(e, mode, x))
  {
    var k := GroupKey(mode, x);
    var t := FindKey(e, k);
    var r := Join(e, mode, x);
    OtherBucketsKeep(mode, xs, e, x);
    FilterAppend(xs, x, KeyIs(mode, k));
    forall u | 0 <= u < |r|
      ensures r[u].1.items == Filter(xs + [x], KeyIs(mode, r[u].0))
      ensures r[u].1.items != [] && r[u].1.title == GroupTitle(mode, r[u].1.items[0])
    {
      if u == t {
        assert r[u].1.items[0] == e[u].1.items[0];
      } else {
        assert KeyOf(e[u]) != KeyOf(e[t]);
        assert r[u] == e[u];
      }
    }
  }

  lemma JoinExistingCovered(mode: GroupMode, xs: seq<Decorated>, e: seq<(string, Bucket)>, x: Decorated)
    requires Covered(mode, xs, e)
    requires FindKey(e, GroupKey(mode, x)) >= 0
    ensures Covered(mode, xs + [x], Join(e, mode, x))
  {
    var t := FindKey(e, GroupKey(mode, x));
    var r := Join(e, mode, x);
    assert |r| == |e| && forall u :: 0 <= u < |r| ==> r[u].0 == e[u].0;
    forall i | 0 <= i < |xs + [x]| ensures FindKey(r, GroupKey(mode, (xs + [x])[i])) >= 0 {
      var key := GroupKey(mode, (xs + [x])[i]);
      var u := if i < |xs| then FindKey(e, GroupKey(mode, xs[i])) else t;
      assert r[u].0 == key;
    }
  }

  lemma JoinNew(mode: GroupMode, xs: seq<Decorated>, e: seq<(string, Bucket)>, x: Decorated)
    requires WellGrouped(mode, xs, e)
    requires FindKey(e, GroupKey(mode, x)) < 0
    ensures WellGrouped(mode, xs + [x], Join(e, mode, x))
  {
    var r := Join(e, mode, x);
    assert DistinctKeys(r) by {
      var k := GroupKey(mode, x);
      assert r == e + [(k, Bucket(GroupTitle(mode, x), [x]))];
      forall i, j | 0 <= i < j < |r| ensures KeyOf(r[i]) != KeyOf(r[j]) {
        if j < |e| { assert KeyOf(e[i]) != KeyOf(e[j]); }
      }
    }
    JoinNewBuckets(mode, xs, e, x);
    JoinNewCovered(mode, xs, e, x);
  }

  /** A fresh key: only the new item has it. */
  lemma NewKeyAlone(mode: GroupMode, xs: seq<Decorated>, e: seq<(string, Bucket)>, x: Decorated)
    requires Covered(mode, xs, e)
    requires FindKey(e, GroupKey(mode, x)) < 0
    ensures Filter(xs + [x], KeyIs(mode, GroupKey(mode, x))) == [x]
  {
    var k := GroupKey(mode, x);
    forall i | 0 <= i < |xs| ensures !KeyIs(mode, k)(xs[i]) {
      assert e[FindKey(e, GroupKey(mode, xs[i]))].0 == GroupKey(mode, xs[i]);
    }
    FilterNone(xs, KeyIs(mode, k));
    FilterAppend(xs, x, KeyIs(mode, k));
  }

  lemma JoinNewBuckets(mode: GroupMode, xs: seq<Decorated>, e: seq<(string, Bucket)>, x: Decorated)
    requires BucketsExact(mode, xs, e) && Covered(mode, xs, e)
    requires FindKey(e, GroupKey(mode, x)) < 0
    ensures BucketsExact(mode, xs + [x], Join(e, mode, x))
  {
    var k := GroupKey(mode, x);
    var r := Join(e, mode, x);
    assert r == e + [(k, Bucket(GroupTitle(mode, x), [x]))];
    NewKeyAlone(mode, xs, e, x);
    OtherBucketsKeep(mode, xs, e, x);
    forall u | 0 <= u < |r|
      ensures r[u].1.items == Filter(xs + [x], KeyIs(mode, r[u].0))
      ensures r[u].1.items != [] && r[u].1.title == GroupTitle(mode, r[u].1.items[0])
    {
      if u < |e| {
        assert r[u] == e[u];
      }
    }
  }

  lemma JoinNewCovered(mode: GroupMode, xs: seq<Decorated>, e: seq<(string, Bucket)>, x: Decorated)
    requires Covered(mode, xs, e)
    requires FindKey(e, GroupKey(mode, x)) < 0
    ensures Covered(mode, xs + [x], Join(e, mode, x))
  {
    var r := Join(e, mode, x);
    assert r == e + [(GroupKey(mode, x), Bucket(GroupTitle(mode, x), [x]))];
    forall i | 0 <= i < |xs + [x]| ensures FindKey(r, GroupKey(mode, (xs + [x])[i])) >= 0 {
      var key := GroupKey(mode, (xs + [x])[i]);
      var u := if i < |xs| then FindKey(e, GroupKey(mode, xs[i])) else |e|;
      assert r[u].0 == key;
    }
  }

  /** `Array.from(grouped.values())`. */
  function Values(e: seq<(string, Bucket)>): (r: seq<Bucket>)
    ensures |r| == |e| && forall t :: 0 <= t < |e| ==> r[t] == e[t].1
  {
    seq(|e|, t requires 0 <= t < |e| => e[t].1)
  }

  function TitleOf(b: Bucket): string {
    b.title
  }

  /** The key shared by the items of a bucket. */
  function BucketKey(mode: GroupMode): Bucket -> string {
    (b: Bucket) => if b.items == [] then "" else GroupKey(mode, b.items[0])
  }

  /** `groupedDeliveries`: no buckets when grouping is off; otherwise the
      buckets built in one pass over the items, sorted by title. */
  method GroupDeliveries(mode: GroupMode, items: seq<Decorated>) returns (buckets: seq<Bucket>)
    ensures mode == NoGroup ==> buckets == []
    ensures mode != NoGroup ==> SortedBy(TitleOf, false, buckets)
    ensures mode != NoGroup ==> multiset(buckets) == multiset(Values(Collect(mode, items)))
  {
    if mode == NoGroup {
      return [];
    }
    var grouped: seq<(string, Bucket)> := [];
    for i := 0 to |items|
      invariant grouped == Collect(mode, items[..i])
    {
      assert items[..i + 1][..i] == items[..i];
      grouped := Join(grouped, mode, items[i]);
    }
    assert items[..|items|] == items;
    buckets := SortedCopy(Values(grouped), TitleOf, false);
  }

  /** Each bucket, whatever its place after sorting, is non-empty, holds
      exactly the items sharing its key in their original order, and is
      titled after its first item. */
  lemma BucketsAreKeyClasses(mode: GroupMode, items: seq<Decorated>, buckets: seq<Bucket>, b: Bucket)
    requires multiset(buckets) == multiset(Values(Collect(mode, items)))
    requires b in buckets
    ensures b.items != []
    ensures b.items == Filter(items, KeyIs(mode, GroupKey(mode, b.items[0])))
    ensures b.title == GroupTitle(mode, b.items[0])
  {
    var e := Collect(mode, items);
    CollectWellGrouped(mode, items);
    PermutationMember(buckets, Values(e), b);
    var t :| 0 <= t < |e| && Values(e)[t] == b;
    assert KeyIs(mode, e[t].0)(b.items[0]);
  }

  /** No two buckets share a key. */
  lemma BucketKeysDistinct(mode: GroupMode, items: seq<Decorated>, buckets: seq<Bucket>)
    requires multiset(buckets) == multiset(Values(Collect(mode, items)))
    ensures DistinctBy(buckets, BucketKey(mode))
  {
    var e := Collect(mode, items);
    var v := Values(e);
    CollectWellGrouped(mode, items);
    forall t | 0 <= t < |v| ensures BucketKey(mode)(v[t]) == e[t].0 {
      assert KeyIs(mode, e[t].0)(v[t].items[0]);
    }
    forall i, j | 0 <= i < j < |v| ensures BucketKey(mode)(v[i]) != BucketKey(mode)(v[j]) {
      assert KeyOf(e[i]) != KeyOf(e[j]);
    }
    PermutationDistinct(buckets, v, BucketKey(mode));
  }

  /** Every item lands in some bucket. */
  lemma EveryItemGrouped(mode: GroupMode, items: seq<Decorated>, buckets: seq<Bucket>, i: nat)
    requires multiset(buckets) == multiset(Values(Collect(mode, items)))
    requires i < |items|
    ensures exists b :: b in buckets && items[i] in b.items
  {
    var e := Collect(mode, items);
    CollectWellGrouped(mode, items);
    var t := FindKey(e, GroupKey(mode, items[i]));
    FilterKeeps(items, KeyIs(mode, e[t].0), items[i]);
    PermutationMember(buckets, Values(e), e[t].1);
    assert Values(e)[t] == e[t].1;
  }

  /** ... and in only one. */
  lemma ItemInOneBucket(mode: GroupMode, items: seq<Decorated>, buckets: seq<Bucket>, x: Decorated, b: Bucket, c: Bucket)
    requires multiset(buckets) == multiset(Values(Collect(mode, items)))
    requires b in buckets && c in buckets
    requires x in b.items && x in c.items
    ensures b == c
  {
    BucketsAreKeyClasses(mode, items, buckets, b);
    BucketsAreKeyClasses(mode, items, buckets, c);
    var p :| 0 <= p < |b.items| && b.items[p] == x;
    var q :| 0 <= q < |c.items| && c.items[q] == x;
    assert BucketKey(mode)(b) == GroupKey(mode, x) == BucketKey(mode)(c);
    BucketKeysDistinct(mode, items, buckets);
    SameKeySameElement(buckets, BucketKey(mode), b, c);
  }

  /** The number of items over all buckets. */
  function Total(bs: seq<Bucket>): nat {
    if bs == [] then 0 else Total(bs[..|bs| - 1]) + |bs[|bs| - 1].items|
  }

  lemma {:induction false} TotalAppend(a: seq<Bucket>, b: seq<Bucket>)
    ensures Total(a + b) == Total(a) + Total(b)
  {
    if b != [] {
      var n := |b| - 1;
      assert (a + b)[..|a + b| - 1] == a + b[..n];
      TotalAppend(a, b[..n]);
    } else {
      assert a + b == a;
    }
  }

  lemma TotalUpdate(bs: seq<Bucket>, t: nat, v: Bucket)
    requires t < |bs|
    ensures Total(bs[t := v]) + |bs[t].items| == Total(bs) + |v.items|
  {
    assert bs == bs[..t] + [bs[t]] + bs[t + 1..];
    assert bs[t := v] == bs[..t] + [v] + bs[t + 1..];
    TotalAppend(bs[..t] + [bs[t]], bs[t + 1..]);
    TotalAppend(bs[..t], [bs[t]]);
    TotalAppend(bs[..t] + [v], bs[t + 1..]);
    TotalAppend(bs[..t], [v]);
  }

  /** Reordering the buckets keeps the total. */
  lemma {:induction false} TotalPermutation(r: seq<Bucket>, s: seq<Bucket>)
    requires multiset(r) == multiset(s)
    ensures Total(r) == Total(s)
    decreases |s|
  {
    if s == [] {
      assert |r| == |multiset(r)| == 0;
    } else {
      var n := |s| - 1;
      var x := s[n];
      assert s == s[..n] + [x];
      assert x in multiset(r);
      var i :| 0 <= i < |r| && r[i] == x;
      var rest := r[..i] + r[i + 1..];
      assert r == r[..i] + [x] + r[i + 1..];
      assert multiset(rest) == multiset(r) - multiset{x};
      TotalPermutation(rest, s[..n]);
      TotalAppend(r[..i] + [x], r[i + 1..]);
      TotalAppend(r[..i], [x]);
      TotalAppend(r[..i], r[i + 1..]);
    }
  }

  lemma {:induction false} CollectTotal(mode: GroupMode, xs: seq<Decorated>)
    ensures Total(Values(Collect(mode, xs))) == |xs|
  {
    if xs != [] {
      var n := |xs| - 1;
      var e := Collect(mode, xs[..n]);
      CollectTotal(mode, xs[..n]);
      JoinTotal(e, mode, xs[n]);
    }
  }

  /** One step of the grouping adds one item to the buckets. */
  lemma JoinTotal(e: seq<(string, Bucket)>, mode: GroupMode, x: Decorated)
    ensures Total(Values(Join(e, mode, x))) == Total(Values(e)) + 1
  {
    var t := FindKey(e, GroupKey(mode, x));
    var v := Values(Join(e, mode, x));
    if t >= 0 {
      assert v == Values(e)[t := Bucket(e[t].1.title, e[t].1.items + [x])];
      TotalUpdate(Values(e), t, Bucket(e[t].1.title, e[t].1.items + [x]));
    } else {
      assert v == Values(e) + [Bucket(GroupTitle(mode, x), [x])];
      TotalAppend(Values(e), [Bucket(GroupTitle(mode, x), [x])]);
    }
  }

  /** The bucket sizes add up to the number of items grouped. */
  lemma BucketSizesSum(mode: GroupMode, items: seq<Decorated>, buckets: seq<Bucket>)
    requires multiset(buckets) == multiset(Values(Collect(mode, items)))
    ensures Total(buckets) == |items|
  {
    TotalPermutation(buckets, Values(Collect(mode, items)));
    CollectTotal(mode, items);
  }
}
