/**
 * The lists the dashboard derives from the fetched deliveries, the carrier
 * directory and the search state: the sorted and decorated deliveries, the
 * carrier name directory, the options of the two filter menus, and the
 * filtered list.
 */
module Derivations {
  import opened Wrappers
  import opened Text
  import opened Seqs
  import opened Sorting
  import opened JsMaps
  import opened Parcel
  import opened Status
  import opened CarrierResolution

  /** The sort key: `date_expected ?? estimate?.arrival ?? ''`. */
  function ExpectedDate(d: Delivery): string {
    d.dateExpected.GetOr(d.estimateArrival.GetOr(""))
  }

  /** `sortedDeliveries`: a copy sorted by expected date, latest first. */
  method SortDeliveries(deliveries: seq<Delivery>) returns (sorted: seq<Delivery>)
    ensures SortedBy(ExpectedDate, true, sorted)
    ensures multiset(sorted) == multiset(deliveries)
  {
    sorted := SortedCopy(deliveries, ExpectedDate, true);
  }

  /** In the sorted list, everything after an undated delivery is undated
      too: deliveries without a date come last. */
  lemma UndatedLast(sorted: seq<Delivery>, i: nat, j: nat)
    requires SortedBy(ExpectedDate, true, sorted) && i < j < |sorted|
    requires ExpectedDate(sorted[i]) == ""
    ensures ExpectedDate(sorted[j]) == ""
  {
    assert InOrder(ExpectedDate, true, sorted[i], sorted[j]);
    LeEmpty(ExpectedDate(sorted[j]));
  }

  function CodeOf(c: Carrier): string {
    NormalizeCode(Some(c.code))
  }

  function CarrierNameOf(c: Carrier): string {
    c.name
  }

  /** The name directory: each normalised code maps to the name of the last
      carrier that has it. */
  function NameDirectory(carriers: seq<Carrier>): map<string, string> {
    LastWins(carriers, CodeOf, CarrierNameOf)
  }

  /** `carrierNameByCode`: a record filled by a pass over the directory. */
  method CarrierNameByCode(carriers: seq<Carrier>) returns (names: map<string, string>)
    ensures names == NameDirectory(carriers)
  {
    names := map[];
    for i := 0 to |carriers|
      invariant names == NameDirectory(carriers[..i])
    {
      NameDirectoryStep(carriers, i);
      names := names[CodeOf(carriers[i]) := carriers[i].name];
    }
    assert carriers[..|carriers|] == carriers;
  }

  /** One more carrier sets its own code, overriding any earlier name. */
  lemma NameDirectoryStep(carriers: seq<Carrier>, i: nat)
    requires i < |carriers|
    ensures NameDirectory(carriers[..i + 1]) == NameDirectory(carriers[..i])[CodeOf(carriers[i]) := carriers[i].name]
  {
    assert carriers[..i + 1] == carriers[..i] + [carriers[i]];
    LastWinsAppend(carriers[..i], carriers[i], CodeOf, CarrierNameOf);
  }

  /** A code is in the directory exactly when some carrier normalises to
      it, and its name is the last such carrier's. */
  lemma DirectoryLookup(carriers: seq<Carrier>, code: string)
    ensures code in NameDirectory(carriers) <==> exists i :: 0 <= i < |carriers| && CodeOf(carriers[i]) == code
    ensures forall i :: 0 <= i < |carriers| && CodeOf(carriers[i]) == code &&
                        (forall j :: i < j < |carriers| ==> CodeOf(carriers[j]) != code) ==>
                        NameDirectory(carriers)[code] == carriers[i].name
  {
    LastWinsLookup(carriers, CodeOf, CarrierNameOf, code);
  }

  /** A delivery with what the dashboard derives from it. */
  datatype Decorated = Decorated(delivery: Delivery, carrierCode: string, carrierName: string, status: StatusMeta)

  function Decorate(d: Delivery, names: map<string, string>): (r: Decorated)
    ensures r.delivery == d && r.carrierName != ""
  {
    Decorated(d, ResolveCarrierCode(d), ResolveCarrierName(d, names), StatusMetaOf(d.status, d.statusCode))
  }

  /** `decoratedDeliveries`. */
  function DecorateAll(deliveries: seq<Delivery>, names: map<string, string>): (r: seq<Decorated>)
    ensures |r| == |deliveries|
    ensures forall i :: 0 <= i < |r| ==> r[i] == Decorate(deliveries[i], names)
  {
    seq(|deliveries|, i requires 0 <= i < |deliveries| => Decorate(deliveries[i], names))
  }

  // ----- The carrier menu -----

  /** Entries of a `Map` after `set(key(x), val(x))` for each `x` in turn. */
  function PutAll<T>(xs: seq<T>, key: T -> string, val: T -> string): (r: seq<(string, string)>)
    ensures DistinctKeys(r)
    ensures Represents(r, LastWins(xs, key, val))
  {
    if xs == [] then []
    else
      var n := |xs| - 1;
      var e := PutAll(xs[..n], key, val);
      PutRepresents(e, LastWins(xs[..n], key, val), key(xs[n]), val(xs[n]));
      Put(e, key(xs[n]), val(xs[n]))
  }

  /** The loop that fills a `Map` with `set`. */
  method PutEach<T>(xs: seq<T>, key: T -> string, val: T -> string) returns (e: seq<(string, string)>)
    ensures e == PutAll(xs, key, val)
  {
    e := [];
    for i := 0 to |xs|
      invariant e == PutAll(xs[..i], key, val)
    {
      assert xs[..i + 1][..i] == xs[..i];
      e := Put(e, key(xs[i]), val(xs[i]));
    }
    assert xs[..|xs|] == xs;
  }

  /** The second pass of `carrierOptions`: an element's code is added, with
      its name, when the code is not empty and not yet present. Existing
      entries stay as they are. */
  function AddMissing<T>(e: seq<(string, string)>, xs: seq<T>, code: T -> string, name: T -> string)
    : (r: seq<(string, string)>)
    ensures e <= r
  {
    if xs == [] then e
    else
      var n := |xs| - 1;
      var r := AddMissing(e, xs[..n], code, name);
      if code(xs[n]) == "" || FindKey(r, code(xs[n])) >= 0 then r
      else r + [(code(xs[n]), name(xs[n]))]
  }

  lemma {:induction false} AddMissingDistinct<T>(e: seq<(string, string)>, xs: seq<T>, code: T -> string, name: T -> string)
    requires DistinctKeys(e)
    ensures DistinctKeys(AddMissing(e, xs, code, name))
  {
    if xs != [] {
      var n := |xs| - 1;
      AddMissingDistinct(e, xs[..n], code, name);
    }
  }

  /** Every element with a non-empty code has its code among the entries. */
  lemma {:induction false} AddMissingCovers<T>(e: seq<(string, string)>, xs: seq<T>, code: T -> string, name: T -> string)
    ensures forall i :: 0 <= i < |xs| && code(xs[i]) != "" ==> FindKey(AddMissing(e, xs, code, name), code(xs[i])) >= 0
  {
    if xs != [] {
      var n := |xs| - 1;
      var r := AddMissing(e, xs[..n], code, name);
      AddMissingCovers(e, xs[..n], code, name);
      assert forall i :: 0 <= i < n ==> xs[..n][i] == xs[i];
      var r' := AddMissing(e, xs, code, name);
      if r' != r {
        assert r'[|r|].0 == code(xs[n]);
      }
      forall i | 0 <= i < n && code(xs[i]) != "" ensures FindKey(r', code(xs[i])) >= 0 {
        assert r'[FindKey(r, code(xs[i]))] == r[FindKey(r, code(xs[i]))];
      }
    }
  }

  /** `entry` is the code and name of the first element with that code,
      a code that is not empty and not among the entries `e`. */
  ghost predicate NewEntry<T>(e: seq<(string, string)>, entry: (string, string), xs: seq<T>,
                              code: T -> string, name: T -> string) {
    && entry.0 != "" && FindKey(e, entry.0) < 0
    && exists i :: 0 <= i < |xs| && code(xs[i]) == entry.0 && name(xs[i]) == entry.1 &&
                   forall j :: 0 <= j < i ==> code(xs[j]) != entry.0
  }

  /** Each added entry comes from the first element with its code, and
      was not present before. */
  lemma {:induction false} AddMissingNew<T>(e: seq<(string, string)>, xs: seq<T>, code: T -> string, name: T -> string)
    ensures forall t :: |e| <= t < |AddMissing(e, xs, code, name)| ==>
              NewEntry(e, AddMissing(e, xs, code, name)[t], xs, code, name)
  {
    if xs != [] {
      var n := |xs| - 1;
      var front := xs[..n];
      var r := AddMissing(e, front, code, name);
      AddMissingNew(e, front, code, name);
      var r' := AddMissing(e, xs, code, name);
      forall t | |e| <= t < |r'| ensures NewEntry(e, r'[t], xs, code, name) {
        if t < |r| {
          assert r'[t] == r[t];
          assert NewEntry(e, r[t], front, code, name);
          var i :| 0 <= i < |front| && code(front[i]) == r[t].0 && name(front[i]) == r[t].1 &&
                   forall j :: 0 <= j < i ==> code(front[j]) != r[t].0;
          assert front[i] == xs[i];
          assert forall j :: 0 <= j < i ==> front[j] == xs[j];
        } else {
          assert r'[t] == (code(xs[n]), name(xs[n]));
          forall u | 0 <= u < |e| ensures e[u].0 != r'[t].0 {
            assert e[u] == r[u];
          }
          AddMissingCovers(e, front, code, name);
          forall j | 0 <= j < n ensures code(xs[j]) != code(xs[n]) {
            assert front[j] == xs[j];
          }
        }
      }
    }
  }

  function CodeOfItem(x: Decorated): string {
    x.carrierCode
  }

  function NameOfItem(x: Decorated): string {
    x.carrierName
  }

  /** The entries of `carrierOptions`'s map before sorting. */
  function OptionEntries(carriers: seq<Carrier>, items: seq<Decorated>): seq<(string, string)> {
    AddMissing(PutAll(carriers, CodeOf, CarrierNameOf), items, CodeOfItem, NameOfItem)
  }

  /** `Array.from(map.entries()).map(([code, name]) => ({ code, name }))`. */
  function AsCarriers(e: seq<(string, string)>): (r: seq<Carrier>)
    ensures |r| == |e|
    ensures forall t :: 0 <= t < |e| ==> r[t] == Carrier(e[t].0, e[t].1)
  {
    seq(|e|, t requires 0 <= t < |e| => Carrier(e[t].0, e[t].1))
  }

  /** `carrierOptions`: the directory's carriers, then the carriers of
      deliveries the directory lacks, sorted by name. */
  method CarrierOptions(carriers: seq<Carrier>, items: seq<Decorated>) returns (options: seq<Carrier>)
    ensures SortedBy(CarrierNameOf, false, options)
    ensures multiset(options) == multiset(AsCarriers(OptionEntries(carriers, items)))
  {
    var entries := PutEach(carriers, CodeOf, CarrierNameOf);
    entries := AddMissingLoop(entries, items);
    options := SortedCopy(AsCarriers(entries), CarrierNameOf, false);
  }

  /** The `forEach` over the decorated deliveries. */
  method AddMissingLoop(e: seq<(string, string)>, items: seq<Decorated>) returns (r: seq<(string, string)>)
    ensures r == AddMissing(e, items, CodeOfItem, NameOfItem)
  {
    r := e;
    for i := 0 to |items|
      invariant r == AddMissing(e, items[..i], CodeOfItem, NameOfItem)
    {
      assert items[..i + 1][..i] == items[..i];
      var x := items[i];
      if x.carrierCode != "" && FindKey(r, x.carrierCode) < 0 {
        r := r + [(x.carrierCode, x.carrierName)];
      }
    }
    assert items[..|items|] == items;
  }

  function OptionCode(c: Carrier): string {
    c.code
  }

  /** The menu has one option per code, and the entries behind it are
      distinct by code. */
  lemma CarrierOptionsDistinct(carriers: seq<Carrier>, items: seq<Decorated>, options: seq<Carrier>)
    requires multiset(options) == multiset(AsCarriers(OptionEntries(carriers, items)))
    ensures DistinctBy(options, OptionCode)
  {
    var e0 := PutAll(carriers, CodeOf, CarrierNameOf);
    var e := OptionEntries(carriers, items);
    AddMissingDistinct(e0, items, CodeOfItem, NameOfItem);
    var cs := AsCarriers(e);
    assert DistinctBy(cs, OptionCode) by {
      forall i, j | 0 <= i < j < |cs| ensures OptionCode(cs[i]) != OptionCode(cs[j]) {
        assert KeyOf(e[i]) != KeyOf(e[j]);
      }
    }
    PermutationDistinct(options, cs, OptionCode);
  }

  /** Every directory code is offered under its directory name, and every
      non-empty code a delivery resolved to is offered. */
  lemma CarrierOptionsCover(carriers: seq<Carrier>, items: seq<Decorated>, options: seq<Carrier>)
    requires multiset(options) == multiset(AsCarriers(OptionEntries(carriers, items)))
    ensures forall k :: k in NameDirectory(carriers) ==> Carrier(k, NameDirectory(carriers)[k]) in options
    ensures forall i :: 0 <= i < |items| && items[i].carrierCode != "" ==>
              exists o :: o in options && o.code == items[i].carrierCode
  {
    var e0 := PutAll(carriers, CodeOf, CarrierNameOf);
    var e := OptionEntries(carriers, items);
    var cs := AsCarriers(e);
    PermutationMembers(options, cs);
    forall k | k in NameDirectory(carriers) ensures Carrier(k, NameDirectory(carriers)[k]) in options {
      var t := FindKey(e0, k);
      assert e[t] == e0[t];
      assert cs[t] == Carrier(k, NameDirectory(carriers)[k]);
    }
    AddMissingCovers(e0, items, CodeOfItem, NameOfItem);
    forall i | 0 <= i < |items| && items[i].carrierCode != ""
      ensures exists o :: o in options && o.code == items[i].carrierCode
    {
      assert CodeOfItem(items[i]) != "";
      var t := FindKey(e, CodeOfItem(items[i]));
      assert cs[t] in options;
    }
  }

  /** Nothing else is offered: an option is a directory code, or the
      non-empty code and resolved name of the first delivery with that
      code. */
  lemma CarrierOptionsOnly(carriers: seq<Carrier>, items: seq<Decorated>, options: seq<Carrier>)
    requires multiset(options) == multiset(AsCarriers(OptionEntries(carriers, items)))
    ensures forall o :: o in options ==>
              || (o.code in NameDirectory(carriers) && o.name == NameDirectory(carriers)[o.code])
              || (o.code != "" && exists i :: 0 <= i < |items| && items[i].carrierCode == o.code &&
                                              items[i].carrierName == o.name &&
                                              forall j :: 0 <= j < i ==> items[j].carrierCode != o.code)
  {
    var e0 := PutAll(carriers, CodeOf, CarrierNameOf);
    var e := OptionEntries(carriers, items);
    var cs := AsCarriers(e);
    PermutationMembers(options, cs);
    AddMissingNew(e0, items, CodeOfItem, NameOfItem);
    forall o | o in options
      ensures || (o.code in NameDirectory(carriers) && o.name == NameDirectory(carriers)[o.code])
              || (o.code != "" && exists i :: 0 <= i < |items| && items[i].carrierCode == o.code &&
                                              items[i].carrierName == o.name &&
                                              forall j :: 0 <= j < i ==> items[j].carrierCode != o.code)
    {
      var t :| 0 <= t < |cs| && cs[t] == o;
      if t < |e0| {
        assert e[t] == e0[t];
      } else {
        assert NewEntry(e0, e[t], items, CodeOfItem, NameOfItem);
        var i :| 0 <= i < |items| && CodeOfItem(items[i]) == e[t].0 && NameOfItem(items[i]) == e[t].1 &&
                 forall j :: 0 <= j < i ==> CodeOfItem(items[j]) != e[t].0;
      }
    }
  }

  // ----- The status menu -----

  datatype StatusOption = StatusOption(value: string, caption: string)

  function ValueOfItem(x: Decorated): string {
    x.status.value
  }

  function CaptionOfItem(x: Decorated): string {
    x.status.labelText
  }

  function CaptionOf(o: StatusOption): string {
    o.caption
  }

  function OptionValue(o: StatusOption): string {
    o.value
  }

  function AsStatusOptions(e: seq<(string, string)>): (r: seq<StatusOption>)
    ensures |r| == |e|
    ensures forall t :: 0 <= t < |e| ==> r[t] == StatusOption(e[t].0, e[t].1)
  {
    seq(|e|, t requires 0 <= t < |e| => StatusOption(e[t].0, e[t].1))
  }

  /** The status of each delivery, by value; a later delivery's label
      replaces an earlier one's. */
  function StatusLabels(items: seq<Decorated>): map<string, string> {
    LastWins(items, ValueOfItem, CaptionOfItem)
  }

  /** `statusOptions`: one option per status value, sorted by label. */
  method StatusOptions(items: seq<Decorated>) returns (options: seq<StatusOption>)
    ensures SortedBy(CaptionOf, false, options)
    ensures multiset(options) == multiset(AsStatusOptions(PutAll(items, ValueOfItem, CaptionOfItem)))
  {
    var entries := PutEach(items, ValueOfItem, CaptionOfItem);
    options := SortedCopy(AsStatusOptions(entries), CaptionOf, false);
  }

  /** The status menu offers each status value once. */
  lemma StatusOptionsDistinct(items: seq<Decorated>, options: seq<StatusOption>)
    requires multiset(options) == multiset(AsStatusOptions(PutAll(items, ValueOfItem, CaptionOfItem)))
    ensures DistinctBy(options, OptionValue)
  {
    var e := PutAll(items, ValueOfItem, CaptionOfItem);
    var os := AsStatusOptions(e);
    forall i, j | 0 <= i < j < |os| ensures OptionValue(os[i]) != OptionValue(os[j]) {
      assert KeyOf(e[i]) != KeyOf(e[j]);
    }
    PermutationDistinct(options, os, OptionValue);
  }

  /** The status menu offers each delivery's status value, under the label
      of the last delivery with that value, and nothing else. */
  lemma StatusOptionsContents(items: seq<Decorated>, options: seq<StatusOption>)
    requires multiset(options) == multiset(AsStatusOptions(PutAll(items, ValueOfItem, CaptionOfItem)))
    ensures forall o :: o in options <==> o.value in StatusLabels(items) && o.caption == StatusLabels(items)[o.value]
    ensures forall i :: 0 <= i < |items| ==> items[i].status.value in StatusLabels(items)
  {
    var e := PutAll(items, ValueOfItem, CaptionOfItem);
    var m := StatusLabels(items);
    var os := AsStatusOptions(e);
    PermutationMembers(options, os);
    forall o: StatusOption ensures o in options <==> o.value in m && o.caption == m[o.value] {
      StatusOptionEntry(e, o);
      RepresentsMember(e, m, o.value, o.caption);
    }
    forall i | 0 <= i < |items| ensures items[i].status.value in m {
      LastWinsLookup(items, ValueOfItem, CaptionOfItem, ValueOfItem(items[i]));
    }
  }

  lemma StatusOptionEntry(e: seq<(string, string)>, o: StatusOption)
    ensures o in AsStatusOptions(e) <==> (o.value, o.caption) in e
  {
    var os := AsStatusOptions(e);
    if o in os {
      var t :| 0 <= t < |os| && os[t] == o;
      assert e[t] == (o.value, o.caption);
    }
    if (o.value, o.caption) in e {
      var t :| 0 <= t < |e| && e[t] == (o.value, o.caption);
      assert os[t] == o;
    }
  }

  // ----- Filtering -----

  /** An empty filter matches everything. */
  predicate Matches(carrierFilter: string, statusFilter: string, x: Decorated) {
    && (carrierFilter == "" || x.carrierCode == carrierFilter)
    && (statusFilter == "" || x.status.value == statusFilter)
  }

  function MatchTest(carrierFilter: string, statusFilter: string): Decorated -> bool {
    x => Matches(carrierFilter, statusFilter, x)
  }

  /** `filteredDeliveries`. */
  function FilterDeliveries(items: seq<Decorated>, carrierFilter: string, statusFilter: string): (r: seq<Decorated>)
    ensures |r| <= |items|
    ensures forall k :: 0 <= k < |r| ==> Matches(carrierFilter, statusFilter, r[k])
  {
    Filter(items, MatchTest(carrierFilter, statusFilter))
  }

  /** The filtered list is the subsequence of the deliveries that match
      both filters, in their order. */
  lemma FilteredExactly(items: seq<Decorated>, carrierFilter: string, statusFilter: string) returns (idx: seq<nat>)
    ensures Embeds(FilterDeliveries(items, carrierFilter, statusFilter), items, idx)
    ensures forall q :: 0 <= q < |items| ==> (Matches(carrierFilter, statusFilter, items[q]) <==> q in idx)
    ensures forall k :: 0 <= k < |FilterDeliveries(items, carrierFilter, statusFilter)| ==>
              Matches(carrierFilter, statusFilter, FilterDeliveries(items, carrierFilter, statusFilter)[k])
  {
    idx := FilterPositions(items, MatchTest(carrierFilter, statusFilter));
  }

  /** With both filters empty nothing is filtered out. */
  lemma {:induction false} NoFilterKeepsAll(items: seq<Decorated>)
    ensures FilterDeliveries(items, "", "") == items
  {
    if items != [] {
      var n := |items| - 1;
      NoFilterKeepsAll(items[..n]);
      assert items[..n] + [items[n]] == items;
    }
  }
}
