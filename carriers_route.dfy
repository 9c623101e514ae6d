/**
 * `GET /api/carriers`: the Parcel API's directory of supported carriers,
 * reduced to `{ code, name }` pairs sorted by name. The directory arrives
 * either as a list of carrier objects or as a record from code to name.
 */
module CarriersRoute {
  import opened Wrappers
  import opened Text
  import opened Json
  import opened Http
  import opened Seqs
  import opened Sorting

  const CarriersUrl: string := "https://api.parcel.app/external/supported_carriers.json"
  const CacheForADay: string := "public, max-age=86400"

  datatype Carrier = Carrier(code: string, name: string)

  /** One element of the list shape; either field may be missing. */
  datatype Listed = Listed(code: Option<string>, name: Option<string>)

  /** The parsed directory: a list, or the entries of a record in the order
      `Object.entries` yields them. */
  datatype Directory = ListShape(items: seq<Listed>) | RecordShape(entries: seq<(string, Value)>)

  function NameOf(c: Carrier): string {
    c.name
  }

  /** The code is trimmed and lower-cased, the name trimmed. */
  predicate Normalized(c: Carrier) {
    IsTrimmed(c.code) && IsLower(c.code) && IsTrimmed(c.name)
  }

  /** Both parts present: the filter the route applies. */
  predicate Usable(c: Carrier) {
    |c.code| > 0 && |c.name| > 0
  }

  function FromListed(x: Listed): (c: Carrier)
    ensures Normalized(c)
  {
    LowerKeepsTrimmed(if x.code.Some? then Trim(x.code.value) else "");
    LowerIsLower(if x.code.Some? then Trim(x.code.value) else "");
    Carrier(if x.code.Some? then Lower(Trim(x.code.value)) else "",
            if x.name.Some? then Trim(x.name.value) else "")
  }

  function FromEntry(entry: (string, Value)): (c: Carrier)
    ensures Normalized(c)
  {
    LowerKeepsTrimmed(Trim(entry.0));
    LowerIsLower(Trim(entry.0));
    Carrier(Lower(Trim(entry.0)), Trim(ToJsString(entry.1)))
  }

  function Size(d: Directory): nat {
    match d
    case ListShape(items) => |items|
    case RecordShape(entries) => |entries|
  }

  /** The mapped list before filtering, one candidate per element or entry. */
  function Mapped(d: Directory): (r: seq<Carrier>)
    ensures |r| == Size(d)
    ensures forall k :: 0 <= k < |r| ==> Normalized(r[k])
  {
    match d
    case ListShape(items) => seq(|items|, i requires 0 <= i < |items| => FromListed(items[i]))
    case RecordShape(entries) => seq(|entries|, i requires 0 <= i < |entries| => FromEntry(entries[i]))
  }

  /** The carriers the route keeps, in directory order. */
  function Candidates(d: Directory): (r: seq<Carrier>)
    ensures |r| <= Size(d)
    ensures forall k :: 0 <= k < |r| ==> Usable(r[k]) && Normalized(r[k])
  {
    FilterPreserves(Mapped(d), Usable, Normalized);
    Filter(Mapped(d), Usable)
  }

  /** The success body `{ carriers: [{ code, name }, …] }`. */
  function CarriersBody(carriers: seq<Carrier>): Value {
    Obj([("carriers", Arr(seq(|carriers|, i requires 0 <= i < |carriers| =>
                                Obj([("code", Str(carriers[i].code)), ("name", Str(carriers[i].name))]))))])
  }

  /** The handler, given the upstream status and parsed body (`None` for
      `null` or a body that does not parse). On success it also returns the
      carrier list it serialised. */
  method Get(status: int, data: Option<Directory>) returns (r: Exchange, carriers: seq<Carrier>)
    ensures r.call == Some(Call("GET", CarriersUrl, [], None))
    ensures !(200 <= status <= 299) ==> r.response == Failure(status, "Failed to load carriers") && carriers == []
    ensures 200 <= status <= 299 && data.None? ==> r.response == Failure(502, "Failed to load carriers") && carriers == []
    ensures 200 <= status <= 299 && data.Some? ==>
              && r.response == Response(200, CarriersBody(carriers), None, Some(CacheForADay))
              && SortedBy(NameOf, false, carriers)
              && multiset(carriers) == multiset(Candidates(data.value))
  {
    var call := Call("GET", CarriersUrl, [], None);
    var ok := 200 <= status <= 299;
    if !ok || data.None? {
      carriers := [];
      r := Exchange(Some(call), Failure(if ok then 502 else status, "Failed to load carriers"));
      return;
    }
    carriers := SortedCopy(Candidates(data.value), NameOf, false);
    r := Exchange(Some(call), Response(200, CarriersBody(carriers), None, Some(CacheForADay)));
  }

  /** Every carrier the route returns has a non-empty trimmed lower-case
      code and a non-empty trimmed name, and there are at most as many as
      directory entries. */
  lemma ReturnedCarriersClean(d: Directory, carriers: seq<Carrier>)
    requires multiset(carriers) == multiset(Candidates(d))
    ensures |carriers| <= Size(d)
    ensures forall c :: c in carriers ==> Usable(c) && Normalized(c)
  {
    PermutationMembers(carriers, Candidates(d));
    forall c | c in carriers ensures Usable(c) && Normalized(c) {
      FilterSubset(Mapped(d), Usable, c);
    }
  }

  /** Candidates keep exactly the usable mapped entries, in order. */
  lemma CandidatesExactly(d: Directory, c: Carrier)
    ensures c in Candidates(d) <==> c in Mapped(d) && Usable(c)
  {
    if c in Mapped(d) && Usable(c) {
      FilterKeeps(Mapped(d), Usable, c);
    }
    if c in Candidates(d) {
      FilterSubset(Mapped(d), Usable, c);
    }
  }

  /** `{"ups": "UPS", "fedex": "FedEx"}` yields FedEx before UPS. */
  lemma RecordExample(carriers: seq<Carrier>)
    requires multiset(carriers) == multiset(Candidates(RecordShape([("ups", Str("UPS")), ("fedex", Str("FedEx"))])))
    requires SortedBy(NameOf, false, carriers)
    ensures carriers == [Carrier("fedex", "FedEx"), Carrier("ups", "UPS")]
  {
    RecordExampleCandidates();
    assert !Le("UPS", "FedEx");
    SortedPair(carriers, Carrier("fedex", "FedEx"), Carrier("ups", "UPS"));
  }

  lemma RecordExampleCandidates()
    ensures Candidates(RecordShape([("ups", Str("UPS")), ("fedex", Str("FedEx"))]))
            == [Carrier("ups", "UPS"), Carrier("fedex", "FedEx")]
  {
    var ups := Carrier("ups", "UPS");
    var fedex := Carrier("fedex", "FedEx");
    CleanLiterals();
    PlainEntry("ups", "UPS");
    PlainEntry("fedex", "FedEx");
    MappedPair(("ups", Str("UPS")), ("fedex", Str("FedEx")));
    UsableTwo(ups, fedex);
  }

  lemma CleanLiterals()
    ensures IsTrimmed("ups") && IsLower("ups") && IsTrimmed("UPS")
    ensures IsTrimmed("fedex") && IsLower("fedex") && IsTrimmed("FedEx")
  {
  }

  lemma MappedPair(a: (string, Value), b: (string, Value))
    ensures Mapped(RecordShape([a, b])) == [FromEntry(a)] + [FromEntry(b)]
  {
  }

  lemma UsableTwo(x: Carrier, y: Carrier)
    requires Usable(x) && Usable(y)
    ensures Filter([x] + [y], Usable) == [x, y]
  {
    FilterAppend([x], y, Usable);
    FilterAppend([], x, Usable);
    assert [x] == [] + [x];
  }

  /** An entry that is already clean maps to itself. */
  lemma PlainEntry(code: string, name: string)
    requires IsTrimmed(code) && IsLower(code) && IsTrimmed(name)
    ensures FromEntry((code, Str(name))) == Carrier(code, name)
  {
    TrimOfTrimmed(code);
    TrimOfTrimmed(name);
    LowerOfLower(code);
  }

  /** A sorted permutation of two elements whose keys are strictly
      ordered is that order. */
  lemma SortedPair(carriers: seq<Carrier>, x: Carrier, y: Carrier)
    requires multiset(carriers) == multiset([y, x]) && SortedBy(NameOf, false, carriers)
    requires !Le(y.name, x.name)
    ensures carriers == [x, y]
  {
    PermutationMembers(carriers, [y, x]);
    LeReflexive(x.name);
    assert carriers[0] in carriers && carriers[1] in carriers;
    assert InOrder(NameOf, false, carriers[0], carriers[1]);
    TwiceCountsTwo(carriers, 0, 1);
    assert multiset([y, x])[x] == 1 && multiset([y, x])[y] == 1;
  }
}
