/**
 * The dashboard's own state and the decisions it takes on it: the URL
 * search state and `patchSearch`, the count of active filters, the card
 * key, the Escape key, the refresh of the open delivery, how the three
 * client fetches read the route responses, and which error is shown.
 */
module Dashboard {
  import opened Wrappers
  import opened Json
  import opened Http
  import opened Parcel
  import opened Status
  import opened Derivations
  import opened Grouping
  import Session
  import DeliveriesRoute
  import AddDeliveryRoute
  import CarriersRoute

  // ---------------------------------------------------------------------
  // URL search state

  /** The `mode` search parameter. */
  datatype ViewMode = Active | Recent

  /** The `/app` search state; an absent filter is `None`. */
  datatype Search = Search(mode: ViewMode, group: GroupMode, carrier: Option<string>, status: Option<string>)

  /** The argument of `patchSearch`: only the fields it names change. */
  datatype SearchPatch = SearchPatch(mode: Option<ViewMode>, group: Option<GroupMode>,
                                     carrier: Option<string>, status: Option<string>)

  /** `selectedCarrierFilter`: `search.carrier ?? ''`. */
  function CarrierFilter(s: Search): string {
    s.carrier.GetOr("")
  }

  /** `selectedStatusFilter`: `search.status ?? ''`. */
  function StatusFilter(s: Search): string {
    s.status.GetOr("")
  }

  /** `text || undefined`. */
  function OrUndefined(text: string): (r: Option<string>)
    ensures r.Some? <==> text != ""
    ensures r.GetOr("") == text
  {
    if text == "" then None else Some(text)
  }

  /** One filter of `patchSearch`: a patched value replaces the current one,
      and an empty filter leaves the URL. */
  function NextFilter(patched: Option<string>, current: string): (r: Option<string>)
    ensures r != Some("")
    ensures r.GetOr("") == patched.GetOr(current)
  {
    if patched.Some? then OrUndefined(patched.value) else OrUndefined(current)
  }

  /** `patchSearch`: the search state it navigates to. */
  function PatchSearch(s: Search, p: SearchPatch): (r: Search)
    ensures p.mode.Some? ==> r.mode == p.mode.value
    ensures p.mode.None? ==> r.mode == s.mode
    ensures p.group.Some? ==> r.group == p.group.value
    ensures p.group.None? ==> r.group == s.group
    ensures r.carrier != Some("") && r.status != Some("")
    ensures CarrierFilter(r) == p.carrier.GetOr(CarrierFilter(s))
    ensures StatusFilter(r) == p.status.GetOr(StatusFilter(s))
  {
    Search(p.mode.GetOr(s.mode), p.group.GetOr(s.group),
           NextFilter(p.carrier, CarrierFilter(s)), NextFilter(p.status, StatusFilter(s)))
  }

  /** A patch applied after `first`: its own fields win. */
  function Then(first: SearchPatch, second: SearchPatch): SearchPatch {
    SearchPatch(if second.mode.Some? then second.mode else first.mode,
                if second.group.Some? then second.group else first.group,
                if second.carrier.Some? then second.carrier else first.carrier,
                if second.status.Some? then second.status else first.status)
  }

  /** Two patches in a row are one patch whose later fields win; in
      particular applying the same patch twice changes nothing more. */
  lemma PatchThen(s: Search, p: SearchPatch, q: SearchPatch)
    ensures PatchSearch(PatchSearch(s, p), q) == PatchSearch(s, Then(p, q))
    ensures PatchSearch(PatchSearch(s, p), p) == PatchSearch(s, p)
  {
    assert Then(p, p) == p;
  }

  /** An empty patch only drops empty filters from the URL. */
  lemma EmptyPatchKeeps(s: Search)
    requires s.carrier != Some("") && s.status != Some("")
    ensures PatchSearch(s, SearchPatch(None, None, None, None)) == s
  {
  }

  /** The "Clear" button of the filter panel. */
  const ClearAll: SearchPatch := SearchPatch(None, Some(NoGroup), Some(""), Some(""))

  /** `activeFilterCount`: grouping, carrier filter and status filter count
      one each when set. */
  function ActiveFilterCount(s: Search): (r: nat)
    ensures r <= 3
    ensures r == 0 <==> s.group == NoGroup && CarrierFilter(s) == "" && StatusFilter(s) == ""
  {
    (if s.group != NoGroup then 1 else 0) +
    (if CarrierFilter(s) != "" then 1 else 0) +
    (if StatusFilter(s) != "" then 1 else 0)
  }

  /** After "Clear" nothing is active, and the list shows every delivery,
      ungrouped; the view mode is kept. */
  lemma ClearShowsAll(s: Search, items: seq<Decorated>)
    ensures ActiveFilterCount(PatchSearch(s, ClearAll)) == 0
    ensures PatchSearch(s, ClearAll).mode == s.mode
    ensures var c := PatchSearch(s, ClearAll);
            FilterDeliveries(items, CarrierFilter(c), StatusFilter(c)) == items
  {
    NoFilterKeepsAll(items);
  }

  // ---------------------------------------------------------------------
  // Card key

  /** The React key of a delivery card: the id, else the tracking number,
      else the carrier code and status value joined by `-`. The key follows
      the first present identifier; the fallback is never empty, ends with
      the status value and has the `-` right after the carrier code. */
  function CardKey(item: Decorated): (r: string)
    ensures item.delivery.id.Some? ==> r == item.delivery.id.value
    ensures item.delivery.id.None? && item.delivery.trackingNumber.Some? ==>
              r == item.delivery.trackingNumber.value
    ensures item.delivery.id.None? && item.delivery.trackingNumber.None? ==>
              && |r| == |item.carrierCode| + 1 + |item.status.value|
              && r[|r| - |item.status.value|..] == item.status.value
              && r[..|item.carrierCode|] == item.carrierCode
              && r[|item.carrierCode|] == '-'
  {
    match item.delivery.id
    case Some(id) => id
    case None =>
      match item.delivery.trackingNumber
      case Some(t) => t
      case None => item.carrierCode + "-" + item.status.value
  }

  // ---------------------------------------------------------------------
  // Escape key

  /** Which overlays are open: the detail modal (a delivery is selected),
      the add modal and the filter panel. */
  datatype Overlays = Overlays(detail: bool, add: bool, filter: bool)

  function OpenCount(o: Overlays): nat {
    (if o.detail then 1 else 0) + (if o.add then 1 else 0) + (if o.filter then 1 else 0)
  }

  /** What one Escape press does to the overlays: it changes them exactly
      when one is open, and never opens one. */
  function CloseTopmost(o: Overlays): (r: Overlays)
    ensures r == o <==> OpenCount(o) == 0
    ensures OpenCount(r) <= OpenCount(o)
  {
    if o.detail then o.(detail := false)
    else if o.add then o.(add := false)
    else if o.filter then o.(filter := false)
    else o
  }

  /** Escape closes exactly one overlay when any is open, opens none, and
      closes the first open one in the order detail, add, filter. */
  lemma EscapeClosesFirstOpen(o: Overlays)
    ensures OpenCount(CloseTopmost(o)) == if OpenCount(o) == 0 then 0 else OpenCount(o) - 1
    ensures var r := CloseTopmost(o);
            (r.detail ==> o.detail) && (r.add ==> o.add) && (r.filter ==> o.filter)
    ensures var r := CloseTopmost(o);
            (o.add && !r.add ==> !o.detail) && (o.filter && !r.filter ==> !o.detail && !o.add)
  {
  }

  /** `n` Escape presses. */
  function Escapes(o: Overlays, n: nat): Overlays
    decreases n
  {
    if n == 0 then o else Escapes(CloseTopmost(o), n - 1)
  }

  /** As many presses as there are open overlays close them all. */
  lemma {:induction false} EscapesCloseAll(o: Overlays)
    ensures Escapes(o, OpenCount(o)) == Overlays(false, false, false)
    decreases OpenCount(o)
  {
    if OpenCount(o) > 0 {
      EscapeClosesFirstOpen(o);
      EscapesCloseAll(CloseTopmost(o));
    }
  }

  // ---------------------------------------------------------------------
  // Refresh of the selected delivery

  /** `items.find(item => item.tracking_number === trackingNumber)`. */
  function FindTracking(items: seq<Delivery>, trackingNumber: string, from: nat): (r: Option<Delivery>)
    requires from <= |items|
    ensures r.None? <==> forall k :: from <= k < |items| ==> items[k].trackingNumber != Some(trackingNumber)
    ensures r.Some? ==> exists k :: from <= k < |items| && items[k] == r.value &&
                          items[k].trackingNumber == Some(trackingNumber) &&
                          forall m :: from <= m < k ==> items[m].trackingNumber != Some(trackingNumber)
    decreases |items| - from
  {
    if from == |items| then None
    else if items[from].trackingNumber == Some(trackingNumber) then Some(items[from])
    else FindTracking(items, trackingNumber, from + 1)
  }

  /** The selection after the refresh effect ran on the fetched list. */
  function Refreshed(selected: Option<Delivery>, items: seq<Delivery>): (r: Option<Delivery>)
    ensures r.Some? == selected.Some?
    ensures r.Some? ==> r.value.trackingNumber == selected.value.trackingNumber
  {
    if selected.None? || selected.value.trackingNumber.None? || selected.value.trackingNumber.value == "" then selected
    else
      match FindTracking(items, selected.value.trackingNumber.value, 0)
      case Some(d) => Some(d)
      case None => selected
  }

  /** The refresh keeps a selection and its tracking number; a new record
      comes from the list and is the first there with that number; without
      a tracking number, or without a match, nothing changes. */
  lemma RefreshKeepsTracking(selected: Option<Delivery>, items: seq<Delivery>)
    ensures var r := Refreshed(selected, items);
            && r.Some? == selected.Some?
            && (r.Some? ==> r.value.trackingNumber == selected.value.trackingNumber)
            && (r != selected ==> r.value in items)
    ensures selected.Some? && selected.value.trackingNumber.Some? && selected.value.trackingNumber.value != "" ==>
              var t := selected.value.trackingNumber;
              || (Refreshed(selected, items) == selected && forall k :: 0 <= k < |items| ==> items[k].trackingNumber != t)
              || exists k :: 0 <= k < |items| && items[k] == Refreshed(selected, items).value &&
                             forall m :: 0 <= m < k ==> items[m].trackingNumber != t
  {
  }

  /** Running the refresh again on the same list changes nothing. */
  lemma RefreshIdempotent(selected: Option<Delivery>, items: seq<Delivery>)
    ensures Refreshed(Refreshed(selected, items), items) == Refreshed(selected, items)
  {
    var r := Refreshed(selected, items);
    if r != selected {
      var t := selected.value.trackingNumber.value;
      var k :| 0 <= k < |items| && items[k] == r.value && items[k].trackingNumber == Some(t) &&
               forall m :: 0 <= m < k ==> items[m].trackingNumber != Some(t);
      assert FindTracking(items, t, 0) == Some(items[k]) by {
        var d := FindTracking(items, t, 0);
        var j :| 0 <= j < |items| && items[j] == d.value && items[j].trackingNumber == Some(t) &&
                 forall m :: 0 <= m < j ==> items[m].trackingNumber != Some(t);
        assert j == k;
      }
    }
  }

  // ---------------------------------------------------------------------
  // The component's state

  /** The `useState` slots of the dashboard that its handlers change. */
  class DashboardState {
    var selected: Option<Delivery>
    var addOpen: bool
    var filterOpen: bool
    var trackingNumber: string
    var carrierCode: string
    var title: string

    /** The first render: nothing open, an empty form. */
    constructor ()
      ensures selected == None && !addOpen && !filterOpen
      ensures trackingNumber == "" && carrierCode == "" && title == ""
    {
      selected := None;
      addOpen := false;
      filterOpen := false;
      trackingNumber := "";
      carrierCode := "";
      title := "";
    }

    function Open(): Overlays
      reads this
    {
      Overlays(selected.Some?, addOpen, filterOpen)
    }

    /** The `keydown` listener. */
    method OnKey(key: string)
      modifies this
      ensures Open() == if key == "Escape" then CloseTopmost(old(Open())) else old(Open())
      ensures selected == if key == "Escape" then None else old(selected)
      ensures trackingNumber == old(trackingNumber) && carrierCode == old(carrierCode) && title == old(title)
    {
      if key != "Escape" {
        return;
      }
      if selected.Some? {
        selected := None;
        return;
      }
      if addOpen {
        addOpen := false;
        return;
      }
      if filterOpen {
        filterOpen := false;
      }
    }

    /** The effect that re-reads the open delivery from a new list. */
    method RefreshSelected(data: Option<seq<Delivery>>)
      modifies this
      ensures selected == Refreshed(old(selected), data.GetOr([]))
      ensures addOpen == old(addOpen) && filterOpen == old(filterOpen)
      ensures trackingNumber == old(trackingNumber) && carrierCode == old(carrierCode) && title == old(title)
    {
      if selected.None? || selected.value.trackingNumber.None? || selected.value.trackingNumber.value == "" {
        return;
      }
      var refreshed := FindTracking(data.GetOr([]), selected.value.trackingNumber.value, 0);
      if refreshed.Some? {
        selected := refreshed;
      }
    }

    /** `onSuccess` of the add mutation: the form is emptied and the modal
        closes; the selection and the filter panel stay. */
    method OnAddSuccess()
      modifies this
      ensures trackingNumber == "" && carrierCode == "" && title == "" && !addOpen
      ensures selected == old(selected) && filterOpen == old(filterOpen)
    {
      trackingNumber := "";
      carrierCode := "";
      title := "";
      addOpen := false;
    }
  }

  // ---------------------------------------------------------------------
  // Client fetches

  /** What a client fetch throws: `UnauthorizedError`, an `Error` with a
      message, or the `TypeError` of reading a property of `null`. */
  datatype ClientError = Unauthorized | Failed(message: string) | NullData

  datatype Fetched = Loaded(items: seq<Value>) | Threw(error: ClientError)

  /** `new Error(data?.error ?? fallback).message`. */
  function ThrownMessage(data: Value, fallback: string): (r: string)
    ensures data.Obj? && Get(data.fields, "error").Some? && !Get(data.fields, "error").value.Null? ==>
              r == ToJsString(Get(data.fields, "error").value)
    ensures !data.Obj? || Get(data.fields, "error").None? || Get(data.fields, "error").value.Null? ==>
              r == fallback
  {
    if data.Obj? then
      match Get(data.fields, "error")
      case Some(e) => if e.Null? then fallback else ToJsString(e)
      case None => fallback
    else fallback
  }

  /** `Array.isArray(data[key]) ? data[key] : []` on non-null `data`. */
  function ListField(data: Value, key: string): (r: seq<Value>)
    ensures data.Obj? && Get(data.fields, key).Some? && Get(data.fields, key).value.Arr? ==>
              r == Get(data.fields, key).value.items
    ensures !(data.Obj? && Get(data.fields, key).Some? && Get(data.fields, key).value.Arr?) ==> r == []
  {
    if data.Obj? then
      match Get(data.fields, key)
      case Some(Arr(items)) => items
      case _ => []
    else []
  }

  /** `fetchDeliveries`, given the response of `/api/deliveries`. */
  function FetchDeliveries(r: Response): (f: Fetched)
    ensures f == Threw(Unauthorized) <==> r.status == 401
    ensures f.Threw? && f.error.Failed? <==> !r.Ok() && r.status != 401
    ensures f.Threw? && f.error.Failed? ==> f.error.message == ThrownMessage(r.body, "Failed to load deliveries")
    ensures f.Loaded? ==> r.Ok() && f.items == ListField(r.body, "deliveries")
    ensures f == Threw(NullData) <==> r.Ok() && r.body.Null?
  {
    if r.status == 401 then Threw(Unauthorized)
    else if !r.Ok() then Threw(Failed(ThrownMessage(r.body, "Failed to load deliveries")))
    else if r.body.Null? then Threw(NullData)
    else Loaded(ListField(r.body, "deliveries"))
  }

  /** `fetchCarriers`, given the response of `/api/carriers`. */
  function FetchCarriers(r: Response): (f: Fetched)
    ensures f.Threw? <==> r.Ok() && r.body.Null?
    ensures f.Threw? ==> f.error == NullData
    ensures !r.Ok() ==> f == Loaded([])
    ensures r.Ok() && f.Loaded? ==> f.items == ListField(r.body, "carriers")
  {
    if !r.Ok() then Loaded([])
    else if r.body.Null? then Threw(NullData)
    else Loaded(ListField(r.body, "carriers"))
  }

  /** `addDeliveryRequest`, given the response of `/api/add-delivery`:
      the error it throws, if any. */
  function AddDeliveryRequest(r: Response): (e: Option<ClientError>)
    ensures e.None? <==> r.Ok()
    ensures e == Some(Unauthorized) <==> r.status == 401
    ensures e.Some? && e.value.Failed? ==> e.value.message == ThrownMessage(r.body, "Failed to add delivery")
    ensures e != Some(NullData)
  {
    if r.status == 401 then Some(Unauthorized)
    else if !r.Ok() then Some(Failed(ThrownMessage(r.body, "Failed to add delivery")))
    else None
  }

  /** A failure the route builds reaches the client with its own message. */
  lemma RouteMessageSurvives(status: int, message: string, fallback: string)
    ensures ThrownMessage(Failure(status, message).body, fallback) == message
  {
    assert Get([("error", Str(message))], "error") == Some(Str(message));
  }

  /** From the deliveries route to the dashboard: without a credential, or
      when the Parcel API refuses the key, the user is sent to sign in; any
      other upstream failure shows the route's message, so the client's
      own fallback never appears; a list in the reply reaches the client. */
  lemma DeliveriesEndToEnd(cookie: Option<string>, filterMode: Option<string>, reply: Upstream)
    ensures var f := FetchDeliveries(DeliveriesRoute.Get(cookie, filterMode, reply).response);
            && (Session.GetParcelApiKey(cookie).None? ==> f == Threw(Unauthorized))
            && (Session.GetParcelApiKey(cookie).Some? && reply.status == 401 ==> f == Threw(Unauthorized))
            && (Session.GetParcelApiKey(cookie).Some? && !reply.Ok() && reply.status != 401 ==>
                  f == Threw(Failed(UpstreamError(reply.data, "Failed to fetch deliveries from Parcel API"))))
            && (Session.GetParcelApiKey(cookie).Some? && reply.Ok() ==>
                  f == if reply.data.Null? then Threw(NullData) else Loaded(ListField(reply.data, "deliveries")))
  {
    if Session.GetParcelApiKey(cookie).Some? && !reply.Ok() {
      RouteMessageSurvives(reply.status, UpstreamError(reply.data, "Failed to fetch deliveries from Parcel API"),
                           "Failed to load deliveries");
    }
  }

  /** From the add-delivery route to the dashboard. */
  lemma AddDeliveryEndToEnd(cookie: Option<string>, body: Option<AddDeliveryRoute.AddRequest>, reply: Upstream)
    ensures var e := AddDeliveryRequest(AddDeliveryRoute.Post(cookie, body, reply).response);
            && (Session.GetParcelApiKey(cookie).None? ==> e == Some(Unauthorized))
            && (Session.GetParcelApiKey(cookie).Some? &&
                (body.None? || TrimmedField(body.value.trackingNumber).None?) ==>
                  e == Some(Failed("trackingNumber is required")))
            && (AddDeliveryRoute.Post(cookie, body, reply).call.Some? && reply.status == 401 ==>
                  e == Some(Unauthorized))
            && (AddDeliveryRoute.Post(cookie, body, reply).call.Some? && !reply.Ok() && reply.status != 401 ==>
                  e == Some(Failed(UpstreamError(reply.data, "Failed to add delivery"))))
            && (AddDeliveryRoute.Post(cookie, body, reply).call.Some? && reply.Ok() ==> e.None?)
  {
    RouteMessageSurvives(400, "trackingNumber is required", "Failed to add delivery");
    if AddDeliveryRoute.Post(cookie, body, reply).call.Some? && !reply.Ok() {
      RouteMessageSurvives(reply.status, UpstreamError(reply.data, "Failed to add delivery"), "Failed to add delivery");
    }
  }

  /** A string property of an object, `""` when it is missing or not a
      string. */
  function StringProp(v: Value, key: string): string {
    if v.Obj? then
      match Get(v.fields, key)
      case Some(Str(s)) => s
      case _ => ""
    else ""
  }

  /** How the dashboard reads one carrier object of the list. */
  function ReadCarrier(v: Value): Carrier {
    Carrier(StringProp(v, "code"), StringProp(v, "name"))
  }

  function ReadCarriers(f: Fetched): seq<Carrier> {
    if f.Threw? then []
    else seq(|f.items|, i requires 0 <= i < |f.items| => ReadCarrier(f.items[i]))
  }

  /** From the carriers route to the dashboard: on success the client reads
      back exactly the list the route sent, in its order; on failure it has
      no directory. */
  lemma CarriersEndToEnd(status: int, data: Option<CarriersRoute.Directory>,
                         r: Exchange, carriers: seq<CarriersRoute.Carrier>)
    requires 200 <= status <= 299 && data.Some? ==>
               r.response == Response(200, CarriersRoute.CarriersBody(carriers), None, Some(CarriersRoute.CacheForADay))
    requires !(200 <= status <= 299 && data.Some?) ==> !r.response.Ok()
    ensures var f := FetchCarriers(r.response);
            && (200 <= status <= 299 && data.Some? ==>
                  ReadCarriers(f) == seq(|carriers|, i requires 0 <= i < |carriers| =>
                                           Carrier(carriers[i].code, carriers[i].name)))
            && (!(200 <= status <= 299 && data.Some?) ==> f == Loaded([]))
  {
    if 200 <= status <= 299 && data.Some? {
      var body := CarriersRoute.CarriersBody(carriers);
      assert Get(body.fields, "carriers") == Some(body.fields[0].1);
      var f := FetchCarriers(r.response);
      forall i | 0 <= i < |carriers|
        ensures ReadCarrier(f.items[i]) == Carrier(carriers[i].code, carriers[i].name)
      {
        var fields := f.items[i].fields;
        assert fields == [("code", Str(carriers[i].code)), ("name", Str(carriers[i].name))];
        assert Get(fields, "code") == Some(Str(carriers[i].code)) by {
          assert Get(fields[..1], "code") == Some(Str(carriers[i].code));
        }
      }
    }
  }

  // ---------------------------------------------------------------------
  // Errors on screen

  /** `error`: the deliveries error unless it is the sign-in case, else the
      add error under the same condition. */
  function DisplayedError(deliveriesError: Option<ClientError>, addError: Option<ClientError>): (r: Option<ClientError>)
    ensures r.Some? ==> r.value != Unauthorized
    ensures r.Some? ==> r == deliveriesError || r == addError
    ensures deliveriesError.Some? && deliveriesError.value != Unauthorized ==> r == deliveriesError
    ensures r.None? ==> (deliveriesError.None? || deliveriesError == Some(Unauthorized)) &&
                        (addError.None? || addError == Some(Unauthorized))
  {
    if deliveriesError.Some? && deliveriesError.value != Unauthorized then deliveriesError
    else if addError.Some? && addError.value != Unauthorized then addError
    else None
  }

  /** The two effects that navigate to the sign-in page. */
  predicate SignInRequired(deliveriesError: Option<ClientError>, addError: Option<ClientError>)
    ensures !SignInRequired(deliveriesError, addError) ==>
              DisplayedError(deliveriesError, addError) == if deliveriesError.Some? then deliveriesError else addError
  {
    deliveriesError == Some(Unauthorized) || addError == Some(Unauthorized)
  }

  /** Every error is dealt with: it is shown, or it sends the user to sign
      in; an `Unauthorized` error is never shown. */
  lemma EveryErrorSurfaces(deliveriesError: Option<ClientError>, addError: Option<ClientError>)
    ensures deliveriesError.Some? || addError.Some? ==>
              DisplayedError(deliveriesError, addError).Some? || SignInRequired(deliveriesError, addError)
    ensures DisplayedError(deliveriesError, addError) != Some(Unauthorized)
  {
  }
}
