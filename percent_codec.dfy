/**
 * `encodeURIComponent` and `decodeURIComponent` as the ECMAScript standard
 * defines them (section 19.2.6 of ECMA-262): every character outside the
 * unreserved set is written as the `%HH` escapes of its UTF-8 bytes
 * (RFC 3629), hexadecimal digits in upper case; decoding reads the escapes
 * back and fails (the `URIError`, here `None`) on a malformed escape or an
 * invalid UTF-8 sequence.
 */
module PercentCodec {
  import opened Wrappers

  /** The characters `encodeURIComponent` leaves as they are. */
  predicate Unreserved(c: char) {
    ('A' <= c <= 'Z') || ('a' <= c <= 'z') || ('0' <= c <= '9') ||
    c == '-' || c == '_' || c == '.' || c == '!' || c == '~' || c == '*' ||
    c == '\'' || c == '(' || c == ')'
  }

  predicate IsByte(b: int) {
    0 <= b < 256
  }

  predicate AllBytes(bs: seq<int>) {
    forall k :: 0 <= k < |bs| ==> IsByte(bs[k])
  }

  function HexDigit(d: int): (c: char)
    requires 0 <= d < 16
    ensures Unreserved(c)
  {
    if d < 10 then ('0' as int + d) as char else ('A' as int + d - 10) as char
  }

  function HexValue(c: char): Option<int> {
    if '0' <= c <= '9' then Some(c as int - '0' as int)
    else if 'A' <= c <= 'F' then Some(c as int - 'A' as int + 10)
    else if 'a' <= c <= 'f' then Some(c as int - 'a' as int + 10)
    else None
  }

  /** The escape `%HH` of one byte. */
  function Escape(b: int): (r: string)
    requires IsByte(b)
    ensures |r| == 3
  {
    ['%', HexDigit(b / 16), HexDigit(b % 16)]
  }

  function EscapeAll(bs: seq<int>): (r: string)
    requires AllBytes(bs)
    ensures |r| == 3 * |bs|
  {
    if bs == [] then [] else Escape(bs[0]) + EscapeAll(bs[1..])
  }

  /** The UTF-8 encoding of one code point. */
  function Utf8(c: char): (bs: seq<int>)
    ensures 1 <= |bs| <= 4 && AllBytes(bs)
  {
    var n := c as int;
    if n < 0x80 then [n]
    else if n < 0x800 then [0xC0 + n / 64, 0x80 + n % 64]
    else if n < 0x10000 then [0xE0 + n / 4096, 0x80 + (n / 64) % 64, 0x80 + n % 64]
    else [0xF0 + n / 262144, 0x80 + (n / 4096) % 64, 0x80 + (n / 64) % 64, 0x80 + n % 64]
  }

  function EncodeChar(c: char): string {
    if Unreserved(c) then [c] else EscapeAll(Utf8(c))
  }

  /** `encodeURIComponent`. */
  function Encode(s: string): (r: string)
    ensures |r| >= |s|
  {
    if s == [] then [] else EncodeChar(s[0]) + Encode(s[1..])
  }

  /** The byte written as `%HH` at the start of `s`, if there is one. */
  function ReadEscape(s: string): (r: Option<int>)
    ensures r.Some? ==> IsByte(r.value)
  {
    if |s| < 3 || s[0] != '%' then None
    else match (HexValue(s[1]), HexValue(s[2]))
      case (Some(h), Some(l)) => Some(16 * h + l)
      case _ => None
  }

  /** `count` consecutive escapes at the start of `s`. */
  function ReadEscapes(s: string, count: nat): (r: Option<seq<int>>)
    ensures r.Some? ==> |r.value| == count && AllBytes(r.value) && 3 * count <= |s|
  {
    if count == 0 then Some([])
    else match ReadEscape(s)
      case None => None
      case Some(b) =>
        match ReadEscapes(s[3..], count - 1)
        case None => None
        case Some(rest) => Some([b] + rest)
  }

  /** The length of the UTF-8 sequence a leading byte announces (its number
      of leading one bits), or 0 when that number is not 2, 3 or 4. */
  function SequenceLength(b: int): nat {
    if 0xC0 <= b < 0xE0 then 2
    else if 0xE0 <= b < 0xF0 then 3
    else if 0xF0 <= b < 0xF8 then 4
    else 0
  }

  predicate IsContinuation(b: int) {
    0x80 <= b < 0xC0
  }

  /** The code point a multi-byte sequence spells out. */
  function Utf8Value(bs: seq<int>): int
    requires 2 <= |bs| <= 4
  {
    if |bs| == 2 then (bs[0] - 0xC0) * 64 + (bs[1] - 0x80)
    else if |bs| == 3 then (bs[0] - 0xE0) * 4096 + (bs[1] - 0x80) * 64 + (bs[2] - 0x80)
    else (bs[0] - 0xF0) * 262144 + (bs[1] - 0x80) * 4096 + (bs[2] - 0x80) * 64 + (bs[3] - 0x80)
  }

  /** Not overlong, not a surrogate, not past U+10FFFF. */
  predicate ValidScalar(cp: int, n: nat) {
    && cp >= (if n == 2 then 0x80 else if n == 3 then 0x800 else 0x10000)
    && cp <= 0x10FFFF
    && !(0xD800 <= cp <= 0xDFFF)
  }

  function Prepend(c: char, r: Option<string>): (p: Option<string>)
    ensures p.Some? == r.Some?
    ensures p.Some? ==> p.value == [c] + r.value
  {
    match r
    case None => None
    case Some(t) => Some([c] + t)
  }

  /** `decodeURIComponent`; `None` stands for the `URIError` it throws. */
  function Decode(s: string): (r: Option<string>)
    ensures '%' !in s ==> r == Some(s)
    ensures r.Some? ==> |r.value| <= |s|
    decreases |s|
  {
    if s == [] then Some([])
    else if s[0] != '%' then
      assert s == [s[0]] + s[1..];
      Prepend(s[0], Decode(s[1..]))
    else match ReadEscape(s)
      case None => None
      case Some(b) =>
        if b < 0x80 then Prepend(b as char, Decode(s[3..]))
        else
          var n := SequenceLength(b);
          if n == 0 then None
          else match ReadEscapes(s, n)
            case None => None
            case Some(bs) =>
              if !(forall k :: 1 <= k < n ==> IsContinuation(bs[k])) then None
              else if !ValidScalar(Utf8Value(bs), n) then None
              else Prepend(Utf8Value(bs) as char, Decode(s[3 * n..]))
  }

  lemma HexRoundTrip(d: int)
    requires 0 <= d < 16
    ensures HexValue(HexDigit(d)) == Some(d)
  {
  }

  lemma ReadEscapeOf(b: int, rest: string)
    requires IsByte(b)
    ensures ReadEscape(Escape(b) + rest) == Some(b)
    ensures (Escape(b) + rest)[3..] == rest
  {
    HexRoundTrip(b / 16);
    HexRoundTrip(b % 16);
  }

  lemma {:induction false} ReadEscapesOf(bs: seq<int>, rest: string)
    requires AllBytes(bs)
    ensures ReadEscapes(EscapeAll(bs) + rest, |bs|) == Some(bs)
  {
    if bs != [] {
      var tail := EscapeAll(bs[1..]) + rest;
      assert EscapeAll(bs) + rest == Escape(bs[0]) + tail;
      ReadEscapeOf(bs[0], tail);
      ReadEscapesOf(bs[1..], rest);
      assert [bs[0]] + bs[1..] == bs;
    }
  }

  /** The UTF-8 bytes of a code point decode back to it. */
  lemma Utf8Decodes(c: char)
    ensures |Utf8(c)| == 1 ==> Utf8(c)[0] == c as int && c as int < 0x80
    ensures |Utf8(c)| > 1 ==>
      && SequenceLength(Utf8(c)[0]) == |Utf8(c)|
      && (forall k :: 1 <= k < |Utf8(c)| ==> IsContinuation(Utf8(c)[k]))
      && Utf8Value(Utf8(c)) == c as int
      && ValidScalar(c as int, |Utf8(c)|)
  {
    var n := c as int;
    if n >= 0x10000 {
      Utf8Four(n);
    } else if n >= 0x800 {
      Utf8Three(n);
    } else if n >= 0x80 {
      Utf8Two(n);
    }
  }

  lemma Utf8Two(n: int)
    requires 0x80 <= n < 0x800
    ensures 0xC0 <= 0xC0 + n / 64 < 0xE0 && 0x80 <= 0x80 + n % 64 < 0xC0
    ensures (n / 64) * 64 + n % 64 == n
  {
  }

  lemma Utf8Three(n: int)
    requires 0x800 <= n < 0x10000
    ensures 0xE0 <= 0xE0 + n / 4096 < 0xF0
    ensures 0x80 <= 0x80 + (n / 64) % 64 < 0xC0 && 0x80 <= 0x80 + n % 64 < 0xC0
    ensures (n / 4096) * 4096 + ((n / 64) % 64) * 64 + n % 64 == n
  {
    assert n / 64 == (n / 4096) * 64 + (n / 64) % 64;
  }

  lemma Utf8Four(n: int)
    requires 0x10000 <= n < 0x110000
    ensures 0xF0 <= 0xF0 + n / 262144 < 0xF8
    ensures 0x80 <= 0x80 + (n / 4096) % 64 < 0xC0
    ensures 0x80 <= 0x80 + (n / 64) % 64 < 0xC0 && 0x80 <= 0x80 + n % 64 < 0xC0
    ensures (n / 262144) * 262144 + ((n / 4096) % 64) * 4096 + ((n / 64) % 64) * 64 + n % 64 == n
  {
    assert n / 64 == (n / 4096) * 64 + (n / 64) % 64;
    assert n / 4096 == (n / 262144) * 64 + (n / 4096) % 64;
  }

  /** What `Decode` sees at the start of escaped bytes followed by `rest`. */
  lemma EscapedLayout(bs: seq<int>, rest: string)
    requires AllBytes(bs) && bs != []
    ensures var s := EscapeAll(bs) + rest;
      && s != [] && s[0] == '%'
      && ReadEscape(s) == Some(bs[0])
      && ReadEscapes(s, |bs|) == Some(bs)
      && s[3 * |bs|..] == rest
  {
    var e := EscapeAll(bs);
    var s := e + rest;
    assert s[|e|..] == rest;
    ReadEscapesOf(bs, rest);
  }

  lemma DecodeEscapedChar(c: char, rest: string)
    requires !Unreserved(c)
    ensures Decode(EscapeAll(Utf8(c)) + rest) == Prepend(c, Decode(rest))
  {
    var bs := Utf8(c);
    Utf8Decodes(c);
    EscapedLayout(bs, rest);
    if |bs| == 1 {
      assert bs[0] as char == c;
    } else {
      assert Utf8Value(bs) as char == c;
    }
  }

  lemma DecodeEncodedChar(c: char, rest: string)
    ensures Decode(EncodeChar(c) + rest) == Prepend(c, Decode(rest))
  {
    if Unreserved(c) {
      assert (EncodeChar(c) + rest)[1..] == rest;
    } else {
      DecodeEscapedChar(c, rest);
    }
  }

  /** Decoding what `Encode` produced gives back the original text. */
  lemma {:induction false} DecodeEncode(s: string)
    ensures Decode(Encode(s)) == Some(s)
  {
    if s != [] {
      DecodeEncodedChar(s[0], Encode(s[1..]));
      DecodeEncode(s[1..]);
      assert [s[0]] + s[1..] == s;
    }
  }

  /** The encoding consists of unreserved characters and `%` only: no `;`,
      no `=`, no white space. */
  lemma {:induction false} EncodeAlphabet(s: string)
    ensures forall k :: 0 <= k < |Encode(s)| ==> Unreserved(Encode(s)[k]) || Encode(s)[k] == '%'
  {
    if s != [] {
      EncodeAlphabet(s[1..]);
      EscapeAllAlphabet(Utf8(s[0]));
      var e := Encode(s);
      var head := EncodeChar(s[0]);
      forall k | 0 <= k < |e| ensures Unreserved(e[k]) || e[k] == '%' {
        if k >= |head| { assert e[k] == Encode(s[1..])[k - |head|]; }
      }
    }
  }

  lemma {:induction false} EscapeAllAlphabet(bs: seq<int>)
    requires AllBytes(bs)
    ensures forall k :: 0 <= k < |EscapeAll(bs)| ==> Unreserved(EscapeAll(bs)[k]) || EscapeAll(bs)[k] == '%'
  {
    if bs != [] {
      EscapeAllAlphabet(bs[1..]);
      var e := EscapeAll(bs);
      forall k | 0 <= k < |e| ensures Unreserved(e[k]) || e[k] == '%' {
        if k >= 3 { assert e[k] == EscapeAll(bs[1..])[k - 3]; }
      }
    }
  }

  /** An escape read from a text is read the same with more text after it. */
  lemma ReadEscapeExtend(t: string, u: string)
    requires ReadEscape(t).Some?
    ensures ReadEscape(t + u) == ReadEscape(t)
    ensures (t + u)[3..] == t[3..] + u
  {
    assert (t + u)[0] == t[0] && (t + u)[1] == t[1] && (t + u)[2] == t[2];
  }

  lemma {:induction false} ReadEscapesExtend(t: string, u: string, count: nat)
    requires ReadEscapes(t, count).Some?
    ensures ReadEscapes(t + u, count) == ReadEscapes(t, count)
  {
    if count > 0 {
      ReadEscapeExtend(t, u);
      ReadEscapesExtend(t[3..], u, count - 1);
    }
  }

  /** Decoding works piece by piece: after text that decodes, the rest is
      decoded on its own, and the whole fails exactly when the rest does. */
  lemma {:induction false} DecodeConcat(t: string, u: string)
    requires Decode(t).Some?
    ensures Decode(t + u).Some? <==> Decode(u).Some?
    ensures Decode(u).Some? ==> Decode(t + u).value == Decode(t).value + Decode(u).value
    decreases |t|, 1
  {
    if t == [] {
      assert t + u == u;
    } else if t[0] != '%' {
      assert (t + u)[0] == t[0] && (t + u)[1..] == t[1..] + u;
      DecodeConcat(t[1..], u);
      if Decode(u).Some? {
        ConsAppend(t[0], Decode(t[1..]).value, Decode(u).value);
      }
    } else {
      var b := ReadEscape(t).value;
      ReadEscapeExtend(t, u);
      if b < 0x80 {
        DecodeConcat(t[3..], u);
        if Decode(u).Some? {
          ConsAppend(b as char, Decode(t[3..]).value, Decode(u).value);
        }
      } else {
        DecodeConcatSequence(t, u);
      }
    }
  }

  /** The case of DecodeConcat where `t` starts with a multi-byte sequence. */
  lemma {:induction false} DecodeConcatSequence(t: string, u: string)
    requires Decode(t).Some? && t != [] && t[0] == '%' && ReadEscape(t).value >= 0x80
    ensures Decode(t + u).Some? <==> Decode(u).Some?
    ensures Decode(u).Some? ==> Decode(t + u).value == Decode(t).value + Decode(u).value
    decreases |t|, 0
  {
    var n := SequenceLength(ReadEscape(t).value);
    var bs := ReadEscapes(t, n).value;
    assert (t + u)[0] == '%';
    ReadEscapeExtend(t, u);
    ReadEscapesExtend(t, u, n);
    assert (t + u)[3 * n..] == t[3 * n..] + u;
    DecodeConcat(t[3 * n..], u);
    if Decode(u).Some? {
      ConsAppend(Utf8Value(bs) as char, Decode(t[3 * n..]).value, Decode(u).value);
    }
  }

  lemma ConsAppend(c: char, a: string, b: string)
    ensures [c] + (a + b) == [c] + a + b
  {
  }

  /** The ways an escape at the start of the text makes decoding fail: a
      `%` without two hexadecimal digits; a byte that cannot lead a UTF-8
      sequence (a continuation byte 0x80-0xBF, or 0xF8 and up); a missing
      or malformed follow-up escape; a follow-up byte that is not a
      continuation byte; an overlong form, a surrogate, or a value past
      U+10FFFF. */
  lemma DecodeRejects(s: string)
    requires s != [] && s[0] == '%'
    ensures (|s| < 3 || HexValue(s[1]).None? || HexValue(s[2]).None?) ==> Decode(s) == None
    ensures ReadEscape(s).Some? && (0x80 <= ReadEscape(s).value < 0xC0 || 0xF8 <= ReadEscape(s).value) ==>
              Decode(s) == None
    ensures ReadEscape(s).Some? && 0xC0 <= ReadEscape(s).value < 0xF8 ==>
              var n := SequenceLength(ReadEscape(s).value);
              ReadEscapes(s, n).None? ==> Decode(s) == None
    ensures ReadEscape(s).Some? && 0xC0 <= ReadEscape(s).value < 0xF8 ==>
              var n := SequenceLength(ReadEscape(s).value);
              ReadEscapes(s, n).Some? ==>
                var bs := ReadEscapes(s, n).value;
                var cp := Utf8Value(bs);
                && ((exists k :: 1 <= k < n && !IsContinuation(bs[k])) ==> Decode(s) == None)
                && (cp < (if n == 2 then 0x80 else if n == 3 then 0x800 else 0x10000) ==> Decode(s) == None)
                && (0xD800 <= cp <= 0xDFFF ==> Decode(s) == None)
                && (cp > 0x10FFFF ==> Decode(s) == None)
  {
  }

  /** Failing inputs: a `%` without two hexadecimal digits. */
  lemma DecodeRejectsEscapes()
    ensures Decode("%") == None && Decode("%4") == None && Decode("%zz") == None
  {
  }

  /** Failing inputs: bytes that cannot lead a sequence. */
  lemma DecodeRejectsLeads()
    ensures Decode("%80") == None && Decode("%BF") == None && Decode("%F8") == None
  {
  }

  /** Failing inputs: a missing, malformed or non-continuation follow-up. */
  lemma DecodeRejectsFollowUps()
    ensures Decode("%C3") == None && Decode("%C3A9") == None && Decode("%C3%41") == None
  {
  }

  /** Failing input: the overlong two-byte form of U+0000. */
  lemma DecodeRejectsOverlong()
    ensures Decode("%C0%80") == None
  {
  }

  /** Failing input: the surrogate U+D800. */
  lemma DecodeRejectsSurrogate()
    ensures Decode("%ED%A0%80") == None
  {
  }

  /** Failing input: U+110000, past the last code point. */
  lemma DecodeRejectsPastMax()
    ensures Decode("%F4%90%80%80") == None
  {
  }

  /** A malformed escape fails the whole text, after any text that decodes. */
  lemma DecodeRejectsAfter(t: string, u: string)
    requires Decode(t).Some? && Decode(u) == None
    ensures Decode(t + u) == None
  {
    DecodeConcat(t, u);
  }
}
