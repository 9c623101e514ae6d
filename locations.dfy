/**
 * Where a delivery is: the location of one tracking event, and the latest
 * usable location over a delivery's events.
 */
module Locations {
  import opened Wrappers
  import opened Text
  import opened Seqs
  import opened Parcel

  /** A part worth showing: a string that is not blank. */
  predicate Present(part: Option<string>) {
    part.Some? && !IsBlank(part.value)
  }

  /** The texts of the kept parts, trimmed. */
  function Texts(kept: seq<Option<string>>): (r: seq<string>)
    requires forall k :: 0 <= k < |kept| ==> Present(kept[k])
    ensures |r| == |kept|
  {
    assert forall k :: 0 <= k < |kept| ==> kept[k].Some? by {
      forall k | 0 <= k < |kept| ensures kept[k].Some? {
        assert Present(kept[k]);
      }
    }
    seq(|kept|, i requires 0 <= i < |kept| && kept[i].Some? => Trim(kept[i].value))
  }

  /** The present parts, trimmed and joined with `, `; `None` when no part
      is present. */
  function JoinedParts(parts: seq<Option<string>>): (r: Option<string>)
    ensures r.None? <==> forall i :: 0 <= i < |parts| ==> !Present(parts[i])
    ensures r.Some? ==> r.value != "" && IsTrimmed(r.value)
  {
    var kept := Filter(parts, Present);
    PresentKept(parts);
    if kept == [] then None
    else
      var trimmed := Texts(kept);
      assert forall k :: 0 <= k < |trimmed| ==> trimmed[k] != [] && IsTrimmed(trimmed[k]) by {
        forall k | 0 <= k < |trimmed| ensures trimmed[k] != [] && IsTrimmed(trimmed[k]) {
          TrimEmptyIffBlank(kept[k].value);
        }
      }
      JoinTrimmed(trimmed, ", ");
      JoinNonEmpty(trimmed, ", ");
      Some(JoinWith(trimmed, ", "))
  }

  /** One step of reading parts left to right: a present part is appended,
      trimmed, after `, ` (or starts the text); any other part is skipped. */
  function Extend(acc: Option<string>, part: Option<string>): (r: Option<string>)
    ensures r.None? <==> acc.None? && !Present(part)
    ensures acc.Some? ==> r.Some? && acc.value <= r.value
  {
    if !Present(part) then acc
    else if acc.None? then Some(Trim(part.value))
    else Some(acc.value + ", " + Trim(part.value))
  }

  /** Joining the parts is reading them left to right with `Extend`. */
  lemma JoinedPartsSnoc(parts: seq<Option<string>>, part: Option<string>)
    ensures JoinedParts(parts + [part]) == Extend(JoinedParts(parts), part)
  {
    FilterAppend(parts, part, Present);
    var kept := Filter(parts, Present);
    if Present(part) {
      var more := kept + [part];
      assert Texts(more) == Texts(kept) + [Trim(part.value)];
      assert more[|kept|] == part;
      if kept != [] {
        JoinSnoc(Texts(kept), Trim(part.value), ", ");
      } else {
        assert Texts(more) == [Trim(part.value)];
      }
    } else {
      assert Filter(parts + [part], Present) == kept;
    }
  }

  lemma PresentKept(parts: seq<Option<string>>)
    ensures Filter(parts, Present) == [] <==> forall i :: 0 <= i < |parts| ==> !Present(parts[i])
  {
    if exists i :: 0 <= i < |parts| && Present(parts[i]) {
      var i :| 0 <= i < |parts| && Present(parts[i]);
      FilterKeeps(parts, Present, parts[i]);
    }
  }

  /** City, state and country joined: each present part in that order,
      trimmed, separated by `, `. */
  function JoinedThree(city: Option<string>, state: Option<string>, country: Option<string>): (r: Option<string>)
    ensures r.None? <==> !Present(city) && !Present(state) && !Present(country)
    ensures r.Some? ==> r.value != "" && IsTrimmed(r.value)
    ensures r == Extend(Extend(Extend(None, city), state), country)
  {
    var parts := [city, state, country];
    assert parts[0] == city && parts[1] == state && parts[2] == country;
    assert [city] == [] + [city] && [city, state] == [city] + [state] && parts == [city, state] + [country];
    JoinedPartsSnoc([], city);
    JoinedPartsSnoc([city], state);
    JoinedPartsSnoc([city, state], country);
    JoinedParts(parts)
  }

  /** The text of a non-blank string, trimmed. */
  function TrimmedText(s: string): (r: Option<string>)
    ensures r.Some? <==> !IsBlank(s)
    ensures r.Some? ==> r.value == Trim(s) && r.value != "" && IsTrimmed(r.value)
  {
    TrimEmptyIffBlank(s);
    if Trim(s) == "" then None else Some(Trim(s))
  }

  /** `getEventLocation`: a non-blank string location; else the location
      object's name, display name, or joined city, state and country; else
      the event's own city, state and country; else `None`. */
  function EventLocation(e: Event): (r: Option<string>)
    ensures r.Some? ==> r.value != "" && IsTrimmed(r.value)
    ensures e.location.LStr? && !IsBlank(e.location.s) ==> r == Some(Trim(e.location.s))
    ensures e.location.LObj? && Present(e.location.name) ==> r == Some(Trim(e.location.name.value))
    ensures e.location.LObj? && !Present(e.location.name) && Present(e.location.displayName) ==>
              r == Some(Trim(e.location.displayName.value))
    ensures e.location.LObj? && !Present(e.location.name) && !Present(e.location.displayName) &&
            JoinedThree(e.location.city, e.location.state, e.location.country).Some? ==>
              r == JoinedThree(e.location.city, e.location.state, e.location.country)
    ensures !(e.location.LStr? && !IsBlank(e.location.s)) &&
            !(e.location.LObj? && (Present(e.location.name) || Present(e.location.displayName) ||
                                   JoinedThree(e.location.city, e.location.state, e.location.country).Some?)) ==>
              r == JoinedThree(e.city, e.state, e.country)
    ensures r.None? <==>
              && !(e.location.LStr? && !IsBlank(e.location.s))
              && !(e.location.LObj? && (Present(e.location.name) || Present(e.location.displayName) ||
                                        Present(e.location.city) || Present(e.location.state) ||
                                        Present(e.location.country)))
              && !Present(e.city) && !Present(e.state) && !Present(e.country)
  {
    var own := JoinedThree(e.city, e.state, e.country);
    match e.location
    case LStr(s) =>
      if TrimmedText(s).Some? then TrimmedText(s) else own
    case LObj(name, displayName, city, state, country) =>
      if name.Some? && TrimmedText(name.value).Some? then TrimmedText(name.value)
      else if displayName.Some? && TrimmedText(displayName.value).Some? then TrimmedText(displayName.value)
      else if JoinedThree(city, state, country).Some? then JoinedThree(city, state, country)
      else own
    case LNone => own
  }

  /** The reading of the last element that has one. */
  function Latest<T>(xs: seq<T>, read: T -> Option<string>): (r: Option<string>)
    ensures r.None? <==> forall k :: 0 <= k < |xs| ==> read(xs[k]).None?
    ensures r.Some? ==> exists i :: 0 <= i < |xs| && read(xs[i]) == r &&
                                    forall k :: i < k < |xs| ==> read(xs[k]).None?
  {
    if xs == [] then None
    else
      var n := |xs| - 1;
      if read(xs[n]).Some? then read(xs[n])
      else
        var front := xs[..n];
        assert forall k :: 0 <= k < n ==> front[k] == xs[k];
        Latest(front, read)
  }

  /** The location of the latest event that has one. */
  function LatestEventLocation(events: seq<Event>): Option<string> {
    Latest(events, EventLocation)
  }

  /** What `getCurrentLocation` returns for a delivery, or for none. */
  function CurrentLocationOf(d: Option<Delivery>): (r: Option<string>)
    ensures d.None? ==> r.None?
    ensures r.Some? ==> r.value != "" && IsTrimmed(r.value)
    ensures d.Some? && LatestEventLocation(d.value.events.GetOr([])).Some? ==>
              r == LatestEventLocation(d.value.events.GetOr([]))
    ensures d.Some? && LatestEventLocation(d.value.events.GetOr([])).None? ==>
              r == if d.value.location.Some? then TrimmedText(d.value.location.value) else None
  {
    if d.None? then None
    else
      match LatestEventLocation(d.value.events.GetOr([]))
      case Some(place) => Some(place)
      case None => if d.value.location.Some? then TrimmedText(d.value.location.value) else None
  }

  /** `getCurrentLocation`: scans the events from the latest back and stops
      at the first that has a location; falls back to the delivery's own
      string location. */
  method GetCurrentLocation(d: Option<Delivery>) returns (r: Option<string>)
    ensures r == CurrentLocationOf(d)
  {
    if d.None? {
      return None;
    }
    r := ScanBack(d.value.events.GetOr([]), EventLocation);
    if r.None? {
      if d.value.location.Some? {
        r := TrimmedText(d.value.location.value);
      }
    }
  }

  /** The descending index loop of `getCurrentLocation`. */
  method ScanBack<T>(xs: seq<T>, read: T -> Option<string>) returns (r: Option<string>)
    ensures r == Latest(xs, read)
  {
    var index := |xs| - 1;
    while index >= 0
      invariant -1 <= index < |xs|
      invariant Latest(xs[..index + 1], read) == Latest(xs, read)
    {
      var front := xs[..index + 1];
      assert front[..index] == xs[..index] && front[index] == xs[index];
      r := read(xs[index]);
      if r.Some? {
        return;
      }
      index := index - 1;
    }
    assert xs[..0] == [];
    r := None;
  }

  /** The current location is trimmed and never empty; it comes from an
      event with no later event that has a location, and the delivery's own
      field counts only when no event has one. */
  lemma CurrentLocationIsLatest(d: Delivery)
    ensures var r := CurrentLocationOf(Some(d));
            var events := d.events.GetOr([]);
            && (r.Some? ==> r.value != "" && IsTrimmed(r.value))
            && (LatestEventLocation(events).Some? ==>
                  exists i :: 0 <= i < |events| && EventLocation(events[i]) == r &&
                              forall k :: i < k < |events| ==> EventLocation(events[k]).None?)
            && (LatestEventLocation(events).None? ==>
                  r == if d.location.Some? then TrimmedText(d.location.value) else None)
    ensures CurrentLocationOf(None) == None
  {
  }
}
