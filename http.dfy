/**
 * What a route handler sees and decides. A handler's single upstream
 * `fetch` is split in two: the request it would send (`Call`) and the reply
 * it gets (`Upstream`), which the model takes as an input and reads only
 * when the call is made.
 */
module Http {
  import opened Wrappers
  import opened Text
  import opened Json

  /** A fetched upstream reply: its status and its body as `json()` parsed it
      (`Null` also when parsing fails). */
  datatype Upstream = Upstream(status: int, data: Value) {
    /** `Response.ok`: a status in the range 200 to 299. */
    predicate Ok() {
      200 <= status <= 299
    }
  }

  /** An outbound request: verb, URL, headers in order, and the JSON body. */
  datatype Call = Call(verb: string, url: string, headers: seq<(string, string)>, body: Option<Value>)

  /** `Response.json(body, init)` with the two headers the routes set. */
  datatype Response = Response(status: int, body: Value, setCookie: Option<string>, cacheControl: Option<string>) {
    /** `response.ok` as the browser reports it. */
    predicate Ok() {
      200 <= status <= 299
    }
  }

  /** The upstream request the handler made, if any, and its reply to the
      client. */
  datatype Exchange = Exchange(call: Option<Call>, response: Response)

  /** `{ error: message }`. */
  function ErrorBody(message: string): Value {
    Obj([("error", Str(message))])
  }

  /** `{ ok: true }`. */
  function OkBody(): Value {
    Obj([("ok", Bool(true))])
  }

  function Failure(status: int, message: string): Response {
    Response(status, ErrorBody(message), None, None)
  }

  /** The error message a failed response carries, if its body is an
      `{ error }` object. */
  function ErrorMessage(r: Response): Option<string> {
    if r.body.Obj? && |r.body.fields| == 1 && r.body.fields[0].0 == "error" && r.body.fields[0].1.Str?
    then Some(r.body.fields[0].1.s)
    else None
  }

  /** `field?.trim()` read for truthiness, as in `field?.trim() || null`:
      the trimmed text when the field is present and not blank. */
  function TrimmedField(field: Option<string>): (r: Option<string>)
    ensures r.Some? <==> field.Some? && !IsBlank(field.value)
    ensures r.Some? ==> r.value == Trim(field.value) && r.value != "" && IsTrimmed(r.value)
  {
    match field
    case None => None
    case Some(s) =>
      TrimEmptyIffBlank(s);
      if Trim(s) == "" then None else Some(Trim(s))
  }
}
