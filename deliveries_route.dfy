/**
 * `GET /api/deliveries`: forwards the listing request to the Parcel API
 * with the signed-in user's key.
 */
module DeliveriesRoute {
  import opened Wrappers
  import opened Json
  import opened Http
  import Session

  const DeliveriesBase: string := "https://api.parcel.app/external/deliveries/?filter_mode="

  /** `normalizeFilterMode`: the query parameter `filter_mode`, or `None`
      when absent, reduced to the two modes the Parcel API knows. */
  function NormalizeFilterMode(input: Option<string>): (r: string)
    ensures r == "recent" || r == "active"
    ensures r == "recent" <==> input == Some("recent")
  {
    if input == Some("recent") then "recent" else "active"
  }

  /** The upstream request for a given key and requested mode. */
  function ListCall(apiKey: string, filterMode: Option<string>): Call {
    Call("GET", DeliveriesBase + NormalizeFilterMode(filterMode), [("api-key", apiKey)], None)
  }

  /** The handler: refuse without a credential before any upstream request;
      otherwise pass the upstream status and body through, replacing a
      failed body by its `error` property or a fixed message. */
  function Get(cookie: Option<string>, filterMode: Option<string>, reply: Upstream): (r: Exchange)
    ensures Session.GetParcelApiKey(cookie).None? <==> r.call.None?
    ensures r.call.None? ==> r.response == Failure(401, "Not authenticated")
    ensures r.call.Some? ==> r.call == Some(ListCall(Session.GetParcelApiKey(cookie).value, filterMode))
    ensures r.call.Some? && !reply.Ok() ==>
              r.response == Failure(reply.status, UpstreamError(reply.data, "Failed to fetch deliveries from Parcel API"))
    ensures r.call.Some? && reply.Ok() ==> r.response == Response(200, reply.data, None, None)
  {
    match Session.GetParcelApiKey(cookie)
    case None => Exchange(None, Failure(401, "Not authenticated"))
    case Some(apiKey) =>
      var call := ListCall(apiKey, filterMode);
      if !reply.Ok() then
        Exchange(Some(call), Failure(reply.status, UpstreamError(reply.data, "Failed to fetch deliveries from Parcel API")))
      else Exchange(Some(call), Response(200, reply.data, None, None))
  }

  /** Whatever the client asks for, the upstream URL names one of the two
      modes, and the key travels as the `api-key` header. */
  lemma UpstreamModeIsKnown(cookie: Option<string>, filterMode: Option<string>, reply: Upstream)
    requires Get(cookie, filterMode, reply).call.Some?
    ensures var c := Get(cookie, filterMode, reply).call.value;
            && (c.url == DeliveriesBase + "active" || c.url == DeliveriesBase + "recent")
            && c.headers == [("api-key", Session.GetParcelApiKey(cookie).value)]
  {
  }

  /** A failed upstream reply keeps its status; a string `error` property
      reaches the client verbatim. */
  lemma FailureKeepsStatus(cookie: Option<string>, filterMode: Option<string>, status: int,
                           fields: seq<(string, Value)>, message: string)
    requires Session.GetParcelApiKey(cookie).Some?
    requires !(200 <= status <= 299)
    ensures var r := Get(cookie, filterMode, Upstream(status, Obj(fields + [("error", Str(message))]))).response;
            r.status == status && ErrorMessage(r) == Some(message)
  {
    UpstreamErrorVerbatim(fields, message, "Failed to fetch deliveries from Parcel API");
  }
}
