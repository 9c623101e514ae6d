/**
 * Which carrier a delivery belongs to and what the dashboard calls it and
 * the delivery. Each answer is the first usable value along a fixed chain
 * of fields.
 */
module CarrierResolution {
  import opened Wrappers
  import opened Text
  import opened Parcel

  /** `normalizeCode`: trimmed and lower-cased, `""` when absent. */
  function NormalizeCode(value: Option<string>): (r: string)
    ensures IsTrimmed(r) && IsLower(r)
    ensures value.None? ==> r == ""
  {
    if value.None? then ""
    else
      LowerKeepsTrimmed(Trim(value.value));
      LowerIsLower(Trim(value.value));
      Lower(Trim(value.value))
  }

  /** A trimmed lower-case code is its own normal form. */
  lemma NormalizeCodeFixed(code: string)
    requires IsTrimmed(code) && IsLower(code)
    ensures NormalizeCode(Some(code)) == code
  {
    TrimOfTrimmed(code);
    LowerOfLower(code);
  }

  lemma NormalizeCodeIdempotent(value: Option<string>)
    ensures NormalizeCode(Some(NormalizeCode(value))) == NormalizeCode(value)
  {
    NormalizeCodeFixed(NormalizeCode(value));
  }

  /** `a || b || …` over strings, from position `from`: the first non-empty
      one, or `""`. */
  function FirstNonEmpty(values: seq<string>, from: nat): (r: string)
    requires from <= |values|
    ensures r == "" <==> forall i :: from <= i < |values| ==> values[i] == ""
    decreases |values| - from
  {
    if from == |values| then ""
    else if values[from] != "" then values[from]
    else FirstNonEmpty(values, from + 1)
  }

  /** A non-empty result is the first non-empty value. */
  lemma {:induction false} FirstNonEmptyIsFirst(values: seq<string>, from: nat) returns (i: nat)
    requires from <= |values| && FirstNonEmpty(values, from) != ""
    ensures from <= i < |values| && values[i] == FirstNonEmpty(values, from)
    ensures forall j :: from <= j < i ==> values[j] == ""
    decreases |values| - from
  {
    if values[from] != "" {
      i := from;
    } else {
      i := FirstNonEmptyIsFirst(values, from + 1);
    }
  }

  /** The fields after `carrier`, in the order they are tried. */
  function CodeFields(d: Delivery): seq<Option<string>> {
    [d.carrierCode, if d.carrier.CObj? then d.carrier.code else None,
     d.carrierSlug, d.carrierId, d.provider, d.shipper]
  }

  function NormalizedCodes(d: Delivery): (r: seq<string>)
    ensures |r| == 6
    ensures forall i :: 0 <= i < 6 ==> r[i] == NormalizeCode(CodeFields(d)[i])
  {
    var fields := CodeFields(d);
    seq(6, i requires 0 <= i < 6 => NormalizeCode(fields[i]))
  }

  /** `resolveCarrierCode`: a string `carrier` decides outright, even when
      blank; otherwise the first field whose normal form is not empty. */
  function ResolveCarrierCode(d: Delivery): (r: string)
    ensures d.carrier.CStr? ==> r == NormalizeCode(Some(d.carrier.s))
    ensures !d.carrier.CStr? ==> r == FirstNonEmpty(NormalizedCodes(d), 0)
  {
    if d.carrier.CStr? then NormalizeCode(Some(d.carrier.s))
    else FirstNonEmpty(NormalizedCodes(d), 0)
  }

  /** The resolved code is always in normal form, so normalising it again
      changes nothing. */
  lemma ResolvedCodeIsNormal(d: Delivery)
    ensures IsTrimmed(ResolveCarrierCode(d)) && IsLower(ResolveCarrierCode(d))
    ensures NormalizeCode(Some(ResolveCarrierCode(d))) == ResolveCarrierCode(d)
  {
    var codes := NormalizedCodes(d);
    var r := ResolveCarrierCode(d);
    if !d.carrier.CStr? && r != "" {
      var i := FirstNonEmptyIsFirst(codes, 0);
    }
    NormalizeCodeFixed(r);
  }

  /** Without a string `carrier`, the code comes from the first field of the
      chain that has one, and is empty only when none has. */
  lemma CodeFromFirstField(d: Delivery, k: nat)
    requires !d.carrier.CStr? && k < 6
    requires NormalizeCode(CodeFields(d)[k]) != ""
    requires forall j :: 0 <= j < k ==> NormalizeCode(CodeFields(d)[j]) == ""
    ensures ResolveCarrierCode(d) == NormalizeCode(CodeFields(d)[k])
  {
    var codes := NormalizedCodes(d);
    assert codes[k] != "";
    var i := FirstNonEmptyIsFirst(codes, 0);
    assert i == k;
  }

  /** `resolveCarrierName`: the embedded carrier's name, then the directory
      entry for the resolved code, then the code in upper case, then
      `Unknown`; never empty. */
  function ResolveCarrierName(d: Delivery, names: map<string, string>): (r: string)
    ensures r != ""
    ensures d.carrier.CObj? && d.carrier.name.Some? && d.carrier.name.value != "" ==> r == d.carrier.name.value
    ensures !(d.carrier.CObj? && d.carrier.name.Some? && d.carrier.name.value != "") ==>
              var code := ResolveCarrierCode(d);
              && (code != "" && code in names && names[code] != "" ==> r == names[code])
              && (code != "" && (code !in names || names[code] == "") ==> r == Upper(code))
              && (code == "" ==> r == "Unknown")
  {
    if d.carrier.CObj? && d.carrier.name.Some? && d.carrier.name.value != "" then d.carrier.name.value
    else
      var code := ResolveCarrierCode(d);
      if code != "" && code in names && names[code] != "" then names[code]
      else if code != "" then Upper(code)
      else "Unknown"
  }

  /** The first present, non-blank candidate at or after `from`, trimmed. */
  function FirstNonBlank(candidates: seq<Option<string>>, from: nat): (r: Option<string>)
    requires from <= |candidates|
    ensures r.None? <==> forall i :: from <= i < |candidates| ==> candidates[i].None? || IsBlank(candidates[i].value)
    ensures r.Some? ==> r.value != "" && IsTrimmed(r.value)
    decreases |candidates| - from
  {
    if from == |candidates| then None
    else if candidates[from].Some? && Trim(candidates[from].value) != "" then
      TrimEmptyIffBlank(candidates[from].value);
      Some(Trim(candidates[from].value))
    else
      TrimEmptyIffBlank(if candidates[from].Some? then candidates[from].value else "");
      FirstNonBlank(candidates, from + 1)
  }

  /** A result is the first present, non-blank candidate, trimmed. */
  lemma {:induction false} FirstNonBlankIsFirst(candidates: seq<Option<string>>, from: nat) returns (i: nat)
    requires from <= |candidates| && FirstNonBlank(candidates, from).Some?
    ensures from <= i < |candidates| && candidates[i].Some? && !IsBlank(candidates[i].value)
    ensures FirstNonBlank(candidates, from).value == Trim(candidates[i].value)
    ensures forall j :: from <= j < i ==> candidates[j].None? || IsBlank(candidates[j].value)
    decreases |candidates| - from
  {
    if candidates[from].Some? {
      TrimEmptyIffBlank(candidates[from].value);
    }
    if candidates[from].Some? && !IsBlank(candidates[from].value) {
      i := from;
    } else {
      i := FirstNonBlankIsFirst(candidates, from + 1);
    }
  }

  /** The fields a title may come from, in order. */
  function TitleFields(d: Delivery): seq<Option<string>> {
    [d.title, d.name, d.description, d.displayName, d.itemName, d.merchant]
  }

  /** The title `resolveDeliveryTitle` shows: the first non-blank field,
      trimmed; else `Package` and the tracking number; else `Package`. */
  function DeliveryTitle(d: Delivery): (r: string)
    ensures r != ""
    ensures FirstNonBlank(TitleFields(d), 0).Some? ==> r == FirstNonBlank(TitleFields(d), 0).value
    ensures FirstNonBlank(TitleFields(d), 0).None? ==>
              r == if d.trackingNumber.Some? && d.trackingNumber.value != "" then "Package " + d.trackingNumber.value
                   else "Package"
  {
    match FirstNonBlank(TitleFields(d), 0)
    case Some(t) => t
    case None =>
      if d.trackingNumber.Some? && d.trackingNumber.value != "" then "Package " + d.trackingNumber.value
      else "Package"
  }

  /** `resolveDeliveryTitle`: walks the candidate fields and returns at the
      first non-blank one. */
  method ResolveDeliveryTitle(d: Delivery) returns (title: string)
    ensures title == DeliveryTitle(d)
    ensures title != ""
  {
    var candidates := TitleFields(d);
    var i := 0;
    while i < |candidates|
      invariant 0 <= i <= |candidates|
      invariant FirstNonBlank(candidates, i) == FirstNonBlank(candidates, 0)
    {
      var candidate := candidates[i];
      if candidate.Some? && Trim(candidate.value) != "" {
        return Trim(candidate.value);
      }
      i := i + 1;
    }
    if d.trackingNumber.Some? && d.trackingNumber.value != "" {
      title := "Package " + d.trackingNumber.value;
    } else {
      title := "Package";
    }
  }
}
