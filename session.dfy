/**
 * The credential cookie codec: the user's API key travels in one cookie,
 * `parcel_api_key`, whose value is the percent-encoded key. The `Cookie`
 * request header is read the way `parseCookies` reads it: split on `;`,
 * each item trimmed, and cut at its first `=`. The `Set-Cookie` values
 * carry the attributes of section 4.1.2 of RFC 6265.
 * A request is represented by its `Cookie` header, absent or present.
 */
module Session {
  import opened Wrappers
  import opened Text
  import PercentCodec

  const CookieName: string := "parcel_api_key"

  /** One trimmed item of the header, split at its first `=`: the name before
      it and the value, which may itself contain `=`, after it. */
  function CookiePair(item: string): (r: Option<(string, string)>)
    ensures r.Some? ==> item == r.value.0 + "=" + r.value.1 && '=' !in r.value.0
    ensures r.None? <==> '=' !in item
  {
    var i := IndexOf(item, '=');
    if i < 0 then None
    else
      assert item == item[..i] + "=" + item[i + 1..];
      Some((item[..i], item[i + 1..]))
  }

  /** The cookie one raw item of the header carries: the item is trimmed, and
      an empty item or one without `=` carries none. */
  function ItemCookie(item: string): Option<(string, string)> {
    var cookie := Trim(item);
    if cookie == "" then None else CookiePair(cookie)
  }

  /** Records one cookie, replacing an earlier value of the same name. */
  function Store(jar: map<string, string>, cookie: Option<(string, string)>): map<string, string> {
    match cookie
    case None => jar
    case Some((name, value)) => jar[name := value]
  }

  /** The record built from the header's items, visited in order. */
  function ItemsJar(items: seq<string>): map<string, string> {
    Fold(items, ItemCookie)
  }

  /** The record built by storing, in order, the cookie `read` finds in each item. */
  function Fold(items: seq<string>, read: string -> Option<(string, string)>): map<string, string> {
    if items == [] then map[] else Store(Fold(items[..|items| - 1], read), read(items[|items| - 1]))
  }

  lemma FoldSnoc(items: seq<string>, item: string, read: string -> Option<(string, string)>)
    ensures Fold(items + [item], read) == Store(Fold(items, read), read(item))
  {
    assert (items + [item])[..|items|] == items;
  }

  /** What `parseCookies` returns for a header. */
  function CookieJar(header: Option<string>): map<string, string> {
    if header.None? || header.value == "" then map[] else ItemsJar(Split(header.value, ';'))
  }

  /** `parseCookies`: splits on `;`, then folds the items into a record. */
  method ParseCookies(header: Option<string>) returns (jar: map<string, string>)
    ensures jar == CookieJar(header)
    ensures header.None? || header == Some("") ==> jar == map[]
  {
    if header.None? || header.value == "" {
      return map[];
    }
    jar := ReduceItems(Split(header.value, ';'));
  }

  /** The `map`/`filter`/`reduce` chain of `parseCookies`: trims each item,
      skips empty items and items without `=`, and stores each name with the
      text after its first `=`. */
  method ReduceItems(items: seq<string>) returns (jar: map<string, string>)
    ensures jar == ItemsJar(items)
  {
    jar := map[];
    var i := 0;
    while i < |items|
      invariant 0 <= i <= |items|
      invariant jar == ItemsJar(items[..i])
    {
      assert items[..i + 1] == items[..i] + [items[i]];
      FoldSnoc(items[..i], items[i], ItemCookie);
      ItemCookieSteps(items[i]);
      var before := jar;
      var cookie := Trim(items[i]);
      if cookie != "" {
        var separator := IndexOf(cookie, '=');
        if separator >= 0 {
          jar := jar[cookie[..separator] := cookie[separator + 1..]];
        }
      }
      assert jar == Store(before, ItemCookie(items[i]));
      i := i + 1;
    }
    assert items[..i] == items;
  }

  /** `ItemCookie` step by step, as the `map`/`filter`/`reduce` chain takes it. */
  lemma ItemCookieSteps(item: string)
    ensures var cookie := Trim(item);
            && (cookie == "" || IndexOf(cookie, '=') < 0 ==> ItemCookie(item).None?)
            && (cookie != "" && IndexOf(cookie, '=') >= 0 ==>
                  ItemCookie(item) == Some((cookie[..IndexOf(cookie, '=')], cookie[IndexOf(cookie, '=') + 1..])))
  {
  }

  /** An item that names `name` before its first `=`. */
  predicate SetsName(item: string, name: string) {
    ItemCookie(item).Some? && ItemCookie(item).value.0 == name
  }

  /** An item `name=value` (after trimming) carries that cookie, whatever
      `value` contains. */
  lemma ItemCookieOf(item: string, name: string, value: string)
    requires Trim(item) == name + "=" + value && '=' !in name
    ensures ItemCookie(item) == Some((name, value))
  {
    var t := Trim(item);
    assert t[|name|] == '=';
    forall m | 0 <= m < |name| ensures t[m] != '=' {
      assert t[m] == name[m];
    }
    IndexOfFirst(t, '=', |name|);
    assert t[..|name|] == name;
    assert t[|name| + 1..] == value;
  }

  /** An item without `=` carries no cookie. */
  lemma ItemCookieNone(item: string)
    requires '=' !in item
    ensures ItemCookie(item) == None
  {
    var i, j := TrimSlice(item);
    forall k | 0 <= k < |Trim(item)| ensures Trim(item)[k] != '=' {
      assert Trim(item)[k] == item[i + k];
    }
  }

  /** Later items that do not set `name` do not change its entry. */
  lemma ItemsJarUntouched(items: seq<string>, later: seq<string>, name: string)
    requires forall k :: 0 <= k < |later| ==> !SetsName(later[k], name)
    ensures name in ItemsJar(items + later) <==> name in ItemsJar(items)
    ensures name in ItemsJar(items) ==> ItemsJar(items + later)[name] == ItemsJar(items)[name]
  {
    FoldUntouched(items, later, ItemCookie, name);
  }

  lemma {:induction false} FoldUntouched(items: seq<string>, later: seq<string>,
                                         read: string -> Option<(string, string)>, name: string)
    requires forall k :: 0 <= k < |later| ==> read(later[k]).None? || read(later[k]).value.0 != name
    ensures name in Fold(items + later, read) <==> name in Fold(items, read)
    ensures name in Fold(items, read) ==> Fold(items + later, read)[name] == Fold(items, read)[name]
  {
    if later == [] {
      assert items + later == items;
    } else {
      var n := |later| - 1;
      var front := later[..n];
      FoldUntouched(items, front, read, name);
      var all := items + later;
      assert all[..|all| - 1] == items + front;
      assert all[|all| - 1] == later[n];
    }
  }

  /** Appending one more item to a header applies that item last. */
  lemma CookieJarAppend(prefix: string, item: string)
    requires ';' !in item
    ensures CookieJar(Some(prefix + ";" + item)) == Store(CookieJar(Some(prefix)), ItemCookie(item))
  {
    var items := Split(prefix, ';');
    assert prefix + ";" + item == prefix + [';'] + item;
    SplitAppend(prefix, ';', item);
    SplitNone(item, ';');
    FoldSnoc(items, item, ItemCookie);
    if prefix == "" {
      SplitNone(prefix, ';');
      FoldSnoc([], "", ItemCookie);
      assert [] + [""] == [""];
      assert ItemCookie("") == None;
    }
  }

  /** Items without `=` are ignored, and an item `name=value` (the value may
      contain `=`) overrides whatever earlier items said about `name`. */
  lemma CookieJarLaterWins(prefix: string, item: string)
    requires ';' !in item
    ensures '=' !in item ==> CookieJar(Some(prefix + ";" + item)) == CookieJar(Some(prefix))
    ensures forall name, value :: Trim(item) == name + "=" + value && '=' !in name ==>
      CookieJar(Some(prefix + ";" + item)) == CookieJar(Some(prefix))[name := value]
  {
    CookieJarAppend(prefix, item);
    if '=' !in item {
      ItemCookieNone(item);
    }
    forall name, value | Trim(item) == name + "=" + value && '=' !in name
      ensures CookieJar(Some(prefix + ";" + item)) == CookieJar(Some(prefix))[name := value]
    {
      ItemCookieOf(item, name, value);
    }
  }

  /** A header made of one item holds just that item's cookie. */
  lemma SingleItem(item: string)
    requires ';' !in item && item != ""
    ensures CookieJar(Some(item)) == Store(map[], ItemCookie(item))
  {
    SplitNone(item, ';');
    FoldSnoc([], item, ItemCookie);
    assert [] + [item] == [item];
  }

  /** `getParcelApiKey`: the decoded cookie value, or `None` when the cookie
      is absent, empty, or not valid percent-encoding. */
  function GetParcelApiKey(header: Option<string>): (r: Option<string>)
    ensures r.Some? <==>
      && CookieName in CookieJar(header) && CookieJar(header)[CookieName] != ""
      && PercentCodec.Decode(CookieJar(header)[CookieName]).Some?
    ensures r.Some? ==> r == PercentCodec.Decode(CookieJar(header)[CookieName])
  {
    var jar := CookieJar(header);
    if CookieName !in jar || jar[CookieName] == "" then None
    else PercentCodec.Decode(jar[CookieName])
  }

  /** A `Set-Cookie` value: the `name=value` part followed by each attribute
      after a `; ` separator. */
  function WithAttributes(nameValue: string, attributes: seq<string>): string {
    if attributes == [] then nameValue
    else WithAttributes(nameValue, attributes[..|attributes| - 1]) + "; " + attributes[|attributes| - 1]
  }

  /** The `name=value` part of a `Set-Cookie` value: its first `;`-separated
      item, which is what a user agent stores and sends back in `Cookie`. */
  function NameValuePart(setCookie: string): (r: string)
    ensures ';' !in r
  {
    SplitJoin(setCookie, ';');
    Split(setCookie, ';')[0]
  }

  /** The attributes of a `Set-Cookie` value: the `;`-separated items after
      the `name=value` part, trimmed. */
  function Attributes(setCookie: string): seq<string> {
    var items := Split(setCookie, ';');
    seq(|items| - 1, k requires 0 <= k < |items| - 1 => Trim(items[k + 1]))
  }

  /** Attribute text that reads back unchanged: not empty, no `;`, no white
      space at either end. */
  predicate PlainAttributes(attributes: seq<string>) {
    forall k :: 0 <= k < |attributes| ==>
      attributes[k] != "" && ';' !in attributes[k] && IsTrimmed(attributes[k])
  }

  /** The pieces `split(';')` cuts a `Set-Cookie` value into: the name-value
      part, then each attribute behind the blank of its separator. */
  lemma {:induction false} SplitWithAttributes(nameValue: string, attributes: seq<string>)
    requires ';' !in nameValue && PlainAttributes(attributes)
    ensures var items := Split(WithAttributes(nameValue, attributes), ';');
      && |items| == |attributes| + 1 && items[0] == nameValue
      && forall k :: 0 <= k < |attributes| ==> items[k + 1] == [' '] + attributes[k]
  {
    if attributes != [] {
      var n := |attributes| - 1;
      var front, last := attributes[..n], attributes[n];
      assert PlainAttributes(front) by {
        forall k | 0 <= k < |front| ensures front[k] != "" && ';' !in front[k] && IsTrimmed(front[k]) {
          assert front[k] == attributes[k];
        }
      }
      SplitWithAttributes(nameValue, front);
      var w := WithAttributes(nameValue, front);
      SplitOneMore(w, last);
      var before := Split(w, ';');
      var items := Split(WithAttributes(nameValue, attributes), ';');
      assert items == before + [[' '] + last];
      forall k | 0 <= k < |attributes| ensures items[k + 1] == [' '] + attributes[k] {
        if k < n {
          assert items[k + 1] == before[k + 1];
          assert attributes[k] == front[k];
        }
      }
    } else {
      SplitNone(nameValue, ';');
    }
  }

  /** One more attribute adds one more piece. */
  lemma SplitOneMore(setCookie: string, attribute: string)
    requires ';' !in attribute
    ensures Split(setCookie + "; " + attribute, ';') == Split(setCookie, ';') + [[' '] + attribute]
  {
    var piece := [' '] + attribute;
    assert setCookie + "; " + attribute == setCookie + [';'] + piece;
    SplitAppend(setCookie, ';', piece);
    SplitNone(piece, ';');
  }

  /** A `Set-Cookie` value built from plain attributes reads back as its
      name-value part and exactly those attributes, in order. */
  lemma ReadBack(nameValue: string, attributes: seq<string>)
    requires ';' !in nameValue && PlainAttributes(attributes)
    ensures NameValuePart(WithAttributes(nameValue, attributes)) == nameValue
    ensures Attributes(WithAttributes(nameValue, attributes)) == attributes
  {
    SplitWithAttributes(nameValue, attributes);
    var items := Split(WithAttributes(nameValue, attributes), ';');
    var read := Attributes(WithAttributes(nameValue, attributes));
    assert |read| == |attributes|;
    forall k | 0 <= k < |attributes| ensures read[k] == attributes[k] {
      assert read[k] == Trim(items[k + 1]);
      TrimAfterBlank(attributes[k]);
    }
  }

  /** The attributes `sessionCookie` writes. */
  function SessionAttributes(secure: bool): seq<string> {
    ["Path=/", "HttpOnly", "SameSite=Lax", "Max-Age=2592000"] + (if secure then ["Secure"] else [])
  }

  /** The attributes `clearSessionCookie` writes. */
  function ClearAttributes(secure: bool): seq<string> {
    ["Path=/", "HttpOnly", "SameSite=Lax", "Max-Age=0"] + (if secure then ["Secure"] else [])
  }

  lemma SessionAttributesPlain(secure: bool)
    ensures PlainAttributes(SessionAttributes(secure)) && PlainAttributes(ClearAttributes(secure))
  {
    var common := ["Path=/", "HttpOnly", "SameSite=Lax"];
    PlainWords(common + ["Max-Age=2592000", "Secure"]);
    PlainWords(common + ["Max-Age=0", "Secure"]);
    assert SessionAttributes(secure) <= common + ["Max-Age=2592000", "Secure"];
    assert ClearAttributes(secure) <= common + ["Max-Age=0", "Secure"];
  }

  /** Non-empty words of ASCII letters, digits, `-`, `.`, `/` and `=` are
      plain attributes (`-` to `9` is the run `-./0123456789`). */
  lemma PlainWords(words: seq<string>)
    requires forall k :: 0 <= k < |words| ==> words[k] != ""
    requires forall k, m :: 0 <= k < |words| && 0 <= m < |words[k]| ==>
               || 'A' <= words[k][m] <= 'Z' || 'a' <= words[k][m] <= 'z'
               || '-' <= words[k][m] <= '9' || words[k][m] == '='
    ensures PlainAttributes(words)
  {
  }

  /** `sessionCookie`: the `Set-Cookie` value that stores the key for thirty
      days (2592000 seconds). */
  function SessionCookie(apiKey: string, secure: bool): (r: string)
    ensures NameValuePart(r) == KeyItem(PercentCodec.Encode(apiKey))
    ensures Attributes(r) == ["Path=/", "HttpOnly", "SameSite=Lax", "Max-Age=2592000"] +
                             (if secure then ["Secure"] else [])
  {
    var nameValue := KeyItem(PercentCodec.Encode(apiKey));
    EncodedValuePlain(apiKey);
    KeyItemCookie(PercentCodec.Encode(apiKey));
    SessionAttributesPlain(secure);
    ReadBack(nameValue, SessionAttributes(secure));
    WithAttributes(nameValue, SessionAttributes(secure))
  }

  /** `clearSessionCookie`: an empty value that expires at once. */
  function ClearSessionCookie(secure: bool): (r: string)
    ensures NameValuePart(r) == KeyItem("")
    ensures Attributes(r) == ["Path=/", "HttpOnly", "SameSite=Lax", "Max-Age=0"] +
                             (if secure then ["Secure"] else [])
  {
    KeyItemCookie("");
    SessionAttributesPlain(secure);
    ReadBack(KeyItem(""), ClearAttributes(secure));
    WithAttributes(KeyItem(""), ClearAttributes(secure))
  }

  /** The `Secure` attribute is present exactly when asked for. */
  lemma SecureExactlyWhenAsked(apiKey: string, secure: bool)
    ensures "Secure" in Attributes(SessionCookie(apiKey, secure)) <==> secure
    ensures "Secure" in Attributes(ClearSessionCookie(secure)) <==> secure
  {
    var a := Attributes(SessionCookie(apiKey, secure));
    var b := Attributes(ClearSessionCookie(secure));
    if secure {
      assert a[4] == "Secure" && b[4] == "Secure";
    }
  }

  /** The `Cookie` item that sets the credential cookie to `value`. */
  function KeyItem(value: string): string {
    CookieName + "=" + value
  }

  /** A value that travels unchanged inside one `Cookie` item. */
  predicate PlainValue(value: string) {
    ';' !in value && (value == "" || !IsSpace(value[|value| - 1]))
  }

  lemma KeyItemCookie(value: string)
    requires PlainValue(value)
    ensures ';' !in KeyItem(value)
    ensures ItemCookie(KeyItem(value)) == Some((CookieName, value))
  {
    var item := KeyItem(value);
    KeyItemNoSemicolon(value);
    KeyItemTrimmed(value);
    TrimOfTrimmed(item);
    assert '=' !in CookieName;
    ItemCookieOf(item, CookieName, value);
  }

  lemma KeyItemNoSemicolon(value: string)
    requires ';' !in value
    ensures ';' !in KeyItem(value)
  {
    var item := KeyItem(value);
    forall k | 0 <= k < |item| ensures item[k] != ';' {
      if k > |CookieName| {
        assert item[k] == value[k - |CookieName| - 1];
      }
    }
  }

  lemma KeyItemTrimmed(value: string)
    requires value == "" || !IsSpace(value[|value| - 1])
    ensures IsTrimmed(KeyItem(value))
  {
    var item := KeyItem(value);
    assert item[0] == 'p';
    if value != "" {
      assert item[|item| - 1] == value[|value| - 1];
    } else {
      assert item[|item| - 1] == '=';
    }
  }

  /** A character of the encoded alphabet is neither `;` nor white space. */
  lemma EncodedCharPlain(c: char)
    requires PercentCodec.Unreserved(c) || c == '%'
    ensures c != ';' && !IsSpace(c)
  {
  }

  /** The percent-encoded key is a plain value, and not empty for a non-empty key. */
  lemma EncodedValuePlain(apiKey: string)
    ensures PlainValue(PercentCodec.Encode(apiKey))
    ensures apiKey != "" ==> PercentCodec.Encode(apiKey) != ""
  {
    var e := PercentCodec.Encode(apiKey);
    PercentCodec.EncodeAlphabet(apiKey);
    forall k | 0 <= k < |e| ensures e[k] != ';' {
      EncodedCharPlain(e[k]);
    }
    if e != [] {
      EncodedCharPlain(e[|e| - 1]);
    }
  }

  /** The header holding only the credential item. */
  lemma KeyItemAlone(value: string)
    requires PlainValue(value)
    ensures CookieJar(Some(KeyItem(value))) == map[CookieName := value]
  {
    KeyItemCookie(value);
    SingleItem(KeyItem(value));
  }

  /** The credential item sent after other items. */
  lemma KeyItemLast(prefix: string, value: string)
    requires PlainValue(value)
    ensures CookieJar(Some(prefix + ";" + KeyItem(value))) == CookieJar(Some(prefix))[CookieName := value]
  {
    KeyItemCookie(value);
    CookieJarAppend(prefix, KeyItem(value));
  }

  /** Items joined with `;` read back item by item. */
  lemma JoinedHeader(parts: seq<string>)
    requires parts != [] && parts[0] != ""
    requires forall k :: 0 <= k < |parts| ==> ';' !in parts[k]
    ensures CookieJar(Some(JoinWith(parts, ";"))) == ItemsJar(parts)
  {
    SplitOfJoin(parts, ';');
    JoinNonEmpty(parts, ";");
  }

  /** The credential item sent before items that do not set it again. */
  lemma KeyItemFirst(value: string, later: seq<string>)
    requires PlainValue(value)
    requires forall k :: 0 <= k < |later| ==> ';' !in later[k] && !SetsName(later[k], CookieName)
    ensures var jar := CookieJar(Some(JoinWith([KeyItem(value)] + later, ";")));
      CookieName in jar && jar[CookieName] == value
  {
    var item := KeyItem(value);
    var parts := [item] + later;
    KeyItemCookie(value);
    forall k | 0 <= k < |parts| ensures ';' !in parts[k] {
      if k > 0 { assert parts[k] == later[k - 1]; }
    }
    JoinedHeader(parts);
    FoldSnoc([], item, ItemCookie);
    assert [] + [item] == [item];
    ItemsJarUntouched([item], later, CookieName);
  }

  /** Round trip, alone: sending back the name-value part of
      `SessionCookie(k, _)` as the whole `Cookie` header yields `k`. */
  lemma RoundTripAlone(apiKey: string, secure: bool)
    requires apiKey != ""
    ensures GetParcelApiKey(Some(NameValuePart(SessionCookie(apiKey, secure)))) == Some(apiKey)
  {
    var value := PercentCodec.Encode(apiKey);
    EncodedValuePlain(apiKey);
    KeyItemAlone(value);
    PercentCodec.DecodeEncode(apiKey);
  }

  /** Round trip, after other cookies: whatever the header said before, the
      session cookie's item, sent last, yields `k`. */
  lemma RoundTripAfterOthers(others: string, apiKey: string, secure: bool)
    requires apiKey != ""
    ensures GetParcelApiKey(Some(others + ";" + NameValuePart(SessionCookie(apiKey, secure)))) == Some(apiKey)
  {
    var value := PercentCodec.Encode(apiKey);
    EncodedValuePlain(apiKey);
    KeyItemLast(others, value);
    PercentCodec.DecodeEncode(apiKey);
  }

  /** Round trip, before other cookies: `k` comes back as long as no later
      item sets `parcel_api_key` again. */
  lemma RoundTripBeforeOthers(apiKey: string, secure: bool, later: seq<string>)
    requires apiKey != ""
    requires forall k :: 0 <= k < |later| ==> ';' !in later[k] && !SetsName(later[k], CookieName)
    ensures GetParcelApiKey(Some(JoinWith([NameValuePart(SessionCookie(apiKey, secure))] + later, ";")))
            == Some(apiKey)
  {
    var value := PercentCodec.Encode(apiKey);
    EncodedValuePlain(apiKey);
    KeyItemFirst(value, later);
    PercentCodec.DecodeEncode(apiKey);
  }

  /** Sending back the cleared cookie alone reads as signed out. */
  lemma ClearedReadsAbsent(secure: bool)
    ensures GetParcelApiKey(Some(NameValuePart(ClearSessionCookie(secure)))) == None
  {
    KeyItemAlone("");
  }

  /** The cleared cookie, sent after an earlier session cookie in the same
      header, still reads as signed out. */
  lemma ClearedOverridesEarlier(others: string, secure: bool)
    ensures GetParcelApiKey(Some(others + ";" + NameValuePart(ClearSessionCookie(secure)))) == None
  {
    KeyItemLast(others, "");
  }

  /** A key cookie whose value holds a malformed escape gives no key, even
      after text that decodes: `decodeURIComponent` throws and the reader
      returns `null`. */
  lemma MalformedKeyReadsAbsent(prefix: string, t: string, u: string)
    requires PlainValue(t + u)
    requires PercentCodec.Decode(t).Some? && PercentCodec.Decode(u) == None
    ensures GetParcelApiKey(Some(prefix + ";" + KeyItem(t + u))) == None
  {
    KeyItemLast(prefix, t + u);
    PercentCodec.DecodeRejectsAfter(t, u);
  }

  /** The same for a header holding only the key cookie, `parcel_api_key=%zz`. */
  lemma MalformedKeyExample()
    ensures GetParcelApiKey(Some(KeyItem("%zz"))) == None
  {
    KeyItemAlone("%zz");
    PercentCodec.DecodeRejectsEscapes();
  }
}
