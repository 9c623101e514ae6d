/**
 * Parsed JSON bodies, as `response.json()` and `request.json()` hand them to
 * the route handlers, and JavaScript's `String(value)` on them. Numbers are
 * integers here.
 */
module Json {
  import opened Wrappers
  import opened Text

  datatype Value =
    | Null
    | Bool(b: bool)
    | Num(n: int)
    | Str(s: string)
    | Arr(items: seq<Value>)
    | Obj(fields: seq<(string, Value)>)

  /** Property `key` of a parsed object. `JSON.parse` keeps the last of
      repeated keys, so the lookup scans from the back. */
  function Get(fields: seq<(string, Value)>, key: string): (r: Option<Value>)
    ensures r.None? <==> forall i :: 0 <= i < |fields| ==> fields[i].0 != key
    ensures r.Some? ==> exists i :: 0 <= i < |fields| && fields[i] == (key, r.value) &&
                                    forall j :: i < j < |fields| ==> fields[j].0 != key
  {
    if fields == [] then None
    else if fields[|fields| - 1].0 == key then Some(fields[|fields| - 1].1)
    else Get(fields[..|fields| - 1], key)
  }

  /** `String(value)`: arrays join their elements with `,` (a `null` element
      gives the empty string) and every object reads `[object Object]`. */
  function ToJsString(v: Value): string
    decreases v
  {
    match v
    case Null => "null"
    case Bool(b) => if b then "true" else "false"
    case Num(n) => IntToString(n)
    case Str(s) => s
    case Arr(items) =>
      JoinWith(seq(|items|, i requires 0 <= i < |items| =>
                            if items[i].Null? then "" else ToJsString(items[i])), ",")
    case Obj(_) => "[object Object]"
  }

  /** The message a route reports for a failed upstream call: the body's
      `error` property as a string when the body is an object that has one,
      otherwise `fallback`. */
  function UpstreamError(data: Value, fallback: string): (r: string)
    ensures data.Obj? && Get(data.fields, "error").Some? ==>
              r == ToJsString(Get(data.fields, "error").value)
    ensures !data.Obj? || Get(data.fields, "error").None? ==> r == fallback
  {
    if data.Obj? then
      match Get(data.fields, "error")
      case Some(e) => ToJsString(e)
      case None => fallback
    else fallback
  }

  /** An upstream error given as a string is reported verbatim; any other
      body shape without an `error` property gives the fallback. */
  lemma UpstreamErrorVerbatim(fields: seq<(string, Value)>, message: string, fallback: string)
    ensures UpstreamError(Obj(fields + [("error", Str(message))]), fallback) == message
    ensures UpstreamError(Obj([]), fallback) == fallback
  {
    var f := fields + [("error", Str(message))];
    assert f[|f| - 1] == ("error", Str(message));
  }
}
