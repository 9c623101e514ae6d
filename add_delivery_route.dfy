/**
 * `POST /api/add-delivery`: validates the form the dashboard posts and
 * forwards it to the Parcel API with the signed-in user's key.
 */
module AddDeliveryRoute {
  import opened Wrappers
  import opened Text
  import opened Json
  import opened Http
  import Session

  const AddDeliveryUrl: string := "https://api.parcel.app/external/add-delivery/"

  /** The JSON request body, when it parses. */
  datatype AddRequest = AddRequest(trackingNumber: Option<string>, carrierCode: Option<string>, title: Option<string>)

  /** `Some(s)` as a JSON string, `None` as `null`. */
  function OrNull(text: Option<string>): Value {
    if text.Some? then Str(text.value) else Null
  }

  /** The JSON body sent upstream. */
  function Payload(trackingNumber: string, body: AddRequest): (r: Value)
    ensures r.Obj? && |r.fields| == 3
    ensures r.fields[0] == ("tracking_number", Str(trackingNumber))
    ensures r.fields[1].0 == "carrier_code" && r.fields[2].0 == "title"
    ensures r.fields[1].1 == Null <==> body.carrierCode.None? || IsBlank(body.carrierCode.value)
    ensures r.fields[2].1 == Null <==> body.title.None? || IsBlank(body.title.value)
    ensures r.fields[1].1 != Null ==> r.fields[1].1 == Str(Trim(body.carrierCode.value))
    ensures r.fields[2].1 != Null ==> r.fields[2].1 == Str(Trim(body.title.value))
  {
    Obj([("tracking_number", Str(trackingNumber)),
         ("carrier_code", OrNull(TrimmedField(body.carrierCode))),
         ("title", OrNull(TrimmedField(body.title)))])
  }

  function AddCall(apiKey: string, trackingNumber: string, body: AddRequest): Call {
    Call("POST", AddDeliveryUrl, [("api-key", apiKey), ("content-type", "application/json")],
         Some(Payload(trackingNumber, body)))
  }

  /** The handler. The credential is checked before the body is read, and the
      body before anything is sent upstream. */
  function Post(cookie: Option<string>, body: Option<AddRequest>, reply: Upstream): (r: Exchange)
    ensures Session.GetParcelApiKey(cookie).None? ==>
              r == Exchange(None, Failure(401, "Not authenticated"))
    ensures Session.GetParcelApiKey(cookie).Some? && (body.None? || TrimmedField(body.value.trackingNumber).None?) ==>
              r == Exchange(None, Failure(400, "trackingNumber is required"))
    ensures r.call.Some? <==>
              Session.GetParcelApiKey(cookie).Some? && body.Some? && TrimmedField(body.value.trackingNumber).Some?
    ensures r.call.Some? ==>
              r.call.value == AddCall(Session.GetParcelApiKey(cookie).value,
                                      TrimmedField(body.value.trackingNumber).value, body.value)
    ensures r.call.Some? && !reply.Ok() ==>
              r.response == Failure(reply.status, UpstreamError(reply.data, "Failed to add delivery"))
    ensures r.call.Some? && reply.Ok() ==> r.response == Response(200, reply.data, None, None)
  {
    match Session.GetParcelApiKey(cookie)
    case None => Exchange(None, Failure(401, "Not authenticated"))
    case Some(apiKey) =>
      var trackingNumber := if body.None? then None else TrimmedField(body.value.trackingNumber);
      if trackingNumber.None? then Exchange(None, Failure(400, "trackingNumber is required"))
      else
        var call := AddCall(apiKey, trackingNumber.value, body.value);
        if !reply.Ok() then Exchange(Some(call), Failure(reply.status, UpstreamError(reply.data, "Failed to add delivery")))
        else Exchange(Some(call), Response(200, reply.data, None, None))
  }

  /** What goes upstream: the key verbatim, a non-empty trimmed tracking
      number, and carrier code and title trimmed or `null` when blank. */
  lemma OutboundPayload(cookie: Option<string>, body: Option<AddRequest>, reply: Upstream)
    requires Post(cookie, body, reply).call.Some?
    ensures var c := Post(cookie, body, reply).call.value;
            && c.headers[0] == ("api-key", Session.GetParcelApiKey(cookie).value)
            && c.body.Some? && c.body.value.Obj?
            && var f := c.body.value.fields;
            && |f| == 3
            && f[0].0 == "tracking_number" && f[0].1.Str?
            && f[0].1.s == Trim(body.value.trackingNumber.value) && f[0].1.s != "" && IsTrimmed(f[0].1.s)
            && f[1].0 == "carrier_code"
            && (f[1].1 == Null <==> body.value.carrierCode.None? || IsBlank(body.value.carrierCode.value))
            && (f[1].1 != Null ==> f[1].1 == Str(Trim(body.value.carrierCode.value)))
            && f[2].0 == "title"
            && (f[2].1 == Null <==> body.value.title.None? || IsBlank(body.value.title.value))
            && (f[2].1 != Null ==> f[2].1 == Str(Trim(body.value.title.value)))
  {
  }

  /** A failed upstream reply keeps its status; a string `error` property
      reaches the client verbatim, any other failure says
      `Failed to add delivery`. */
  lemma FailureKeepsStatus(cookie: Option<string>, body: AddRequest, status: int,
                           fields: seq<(string, Value)>, message: string)
    requires Session.GetParcelApiKey(cookie).Some? && TrimmedField(body.trackingNumber).Some?
    requires !(200 <= status <= 299)
    ensures var r := Post(cookie, Some(body), Upstream(status, Obj(fields + [("error", Str(message))]))).response;
            r.status == status && ErrorMessage(r) == Some(message)
    ensures ErrorMessage(Post(cookie, Some(body), Upstream(status, Null)).response) == Some("Failed to add delivery")
  {
    UpstreamErrorVerbatim(fields, message, "Failed to add delivery");
  }
}
