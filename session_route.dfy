/**
 * `/api/session`: POST signs in by storing the API key in the session
 * cookie, DELETE signs out by clearing it. Neither contacts the Parcel API.
 */
module SessionRoute {
  import opened Wrappers
  import opened Text
  import opened Http
  import Session

  /** The JSON request body of POST, when it parses: `{ apiKey? }`. */
  datatype SignIn = SignIn(apiKey: Option<string>)

  /** The cookie gets `Secure` exactly when the request came over HTTPS;
      `protocol` is the request URL's scheme with its colon. */
  predicate IsSecure(protocol: string) {
    protocol == "https:"
  }

  /** POST: a body that does not parse, or an `apiKey` that is missing or
      blank, is refused with 400; otherwise the trimmed key is stored. */
  function Post(protocol: string, body: Option<SignIn>): (r: Response)
    ensures r.status == 200 || r.status == 400
    ensures r.status == 400 <==> body.None? || TrimmedField(body.value.apiKey).None?
    ensures r.status == 400 ==> r == Failure(400, "API key is required")
    ensures r.status == 200 ==>
              && r.body == OkBody()
              && r.cacheControl.None?
              && r.setCookie == Some(Session.SessionCookie(Trim(body.value.apiKey.value), IsSecure(protocol)))
  {
    var key := if body.None? then None else TrimmedField(body.value.apiKey);
    if key.None? then Failure(400, "API key is required")
    else Response(200, OkBody(), Some(Session.SessionCookie(key.value, IsSecure(protocol))), None)
  }

  /** DELETE: always succeeds and clears the cookie; no credential needed. */
  function Delete(protocol: string): (r: Response)
    ensures r.status == 200 && r.body == OkBody() && r.cacheControl.None?
    ensures r.setCookie == Some(Session.ClearSessionCookie(IsSecure(protocol)))
  {
    Response(200, OkBody(), Some(Session.ClearSessionCookie(IsSecure(protocol))), None)
  }

  /** After a successful POST, the browser sends the cookie back and the
      server reads the trimmed key, which is never empty. */
  lemma PostThenRead(protocol: string, body: Option<SignIn>)
    requires Post(protocol, body).status == 200
    ensures var key := Trim(body.value.apiKey.value);
            && key != ""
            && Session.GetParcelApiKey(Some(Session.NameValuePart(Post(protocol, body).setCookie.value))) == Some(key)
  {
    var key := Trim(body.value.apiKey.value);
    Session.RoundTripAlone(key, IsSecure(protocol));
  }

  /** After DELETE, sending back the cookie it set reads as signed out, even
      after an earlier session cookie in the same header. */
  lemma DeleteThenRead(protocol: string, others: string)
    ensures Session.GetParcelApiKey(Some(Session.NameValuePart(Delete(protocol).setCookie.value))) == None
    ensures Session.GetParcelApiKey(Some(others + ";" + Session.NameValuePart(Delete(protocol).setCookie.value))) == None
  {
    Session.ClearedReadsAbsent(IsSecure(protocol));
    Session.ClearedOverridesEarlier(others, IsSecure(protocol));
  }

  /** Both handlers mark the cookie `Secure` exactly for HTTPS requests. */
  lemma SecureOnlyOverHttps(protocol: string, body: Option<SignIn>)
    ensures Post(protocol, body).status == 200 ==>
              ("Secure" in Session.Attributes(Post(protocol, body).setCookie.value) <==> protocol == "https:")
    ensures "Secure" in Session.Attributes(Delete(protocol).setCookie.value) <==> protocol == "https:"
  {
    if Post(protocol, body).status == 200 {
      Session.SecureExactlyWhenAsked(Trim(body.value.apiKey.value), IsSecure(protocol));
    } else {
      Session.SecureExactlyWhenAsked("", IsSecure(protocol));
    }
  }
}
