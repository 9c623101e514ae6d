# better-parcel-web, modelled in Dafny

better-parcel-web is a small web front end for the Parcel delivery-tracking
service. A browser dashboard lists the user's deliveries. A thin server layer
keeps the user's Parcel API key in an HTTP-only cookie and forwards three calls
to the Parcel API:

- the delivery list;
- the supported-carrier directory;
- adding a delivery.

This project models the parts of that system that decide what the user sees
and what the upstream service is sent:

- **`Session`** covers the session cookie. `parseCookies` reads the `Cookie`
  header. `getParcelApiKey` decodes the key from it. `sessionCookie` and
  `clearSessionCookie` build the `Set-Cookie` values. Proved: what the
  sign-in route writes, the next request reads back. After sign-out, the
  request reads nothing.
- **`PercentCodec`** covers `encodeURIComponent` and `decodeURIComponent`,
  with full UTF-8. Proved: decoding an encoded string gives it back. An
  encoded key never contains a `;` or white space.
- **`SessionRoute`, `CarriersRoute`, `DeliveriesRoute` and
  `AddDeliveryRoute`** cover the four server handlers.
  - Each is a function from the request (cookie header, body, protocol) and
    the upstream reply to the outbound call and the response.
  - The carrier handler is a method. It sorts its list in place.
- **`Status`, `CarrierResolution` and `Locations`** cover the dashboard's
  normalisers. These turn loosely shaped delivery records into:
  - a status label, CSS class and filter value;
  - a carrier code and display name;
  - a title;
  - the most recent location.
- **`Derivations` and `Grouping`** cover the dashboard's list derivations:
  - the sort by expected date;
  - the carrier directory;
  - the carrier and status filter options, as JavaScript `Map`s;
  - the filter;
  - grouping into titled buckets.
- **`Dashboard`** covers the dashboard's own state and handlers:
  - the URL search state and `patchSearch`;
  - the active-filter count;
  - the card key;
  - the Escape handler and the selected-delivery refresh;
  - clearing the form after a successful add;
  - how each HTTP response becomes a value or a thrown error;
  - which error is displayed.

  The React `useState` cells the handlers update are fields of the class
  `Dashboard.DashboardState`.

Supporting modules:

- `Text` models JavaScript `trim` with the exact ECMAScript white-space set, plus
  `split`, `join`, ASCII case mapping, `String(number)` and code-point
  order.
- `JsMaps` models an insertion-ordered JavaScript `Map` or object.
- `Json` models a parsed JSON body and `String(value)`.
- `Http` models requests, responses and `Response.ok`.
- `Sorting` is an in-place array sort, proved sorted and a permutation.
- `Seqs` models `Array.prototype.filter`.
- `Parcel` holds the delivery record types.

Three behaviours of the code that the model keeps as written:

- **Upstream failures.** The routes forward the upstream status and the
  upstream body's own `error` field, converted with `String`. There is no
  table of messages by status; the route's generic message is used only
  when that field is absent.
- **Carrier code order.** The dashboard reads a delivery's carrier code in
  this order:
  1. A string `carrier` wins outright.
  2. Otherwise the first non-empty of `carrier_code`, `carrier.code`,
     `carrier_slug`, `carrier_id`, `provider` and `shipper`, each trimmed and
     lower-cased.
- **Status text.** The free-text status is used whenever the status code is
  not one of the nine known codes, including when some other code is
  present.

## Model

| member | source | states |
|---|---|---|
| Session.CookiePair | src/lib/session.ts:11-14 | an item with an `=` splits at its first `=` into a name without `=` and the rest; an item without `=` is skipped |
| Session.ParseCookies | src/lib/session.ts:3-18 | the jar built by the loop is the fold of the trimmed, non-empty `;`-items; a missing or empty header gives the empty jar |
| Session.ReduceItems | src/lib/session.ts:10-17 | the `reduce` loop computes the jar of all items, a later item overwriting an earlier one with the same name |
| Session.FoldSnoc | src/lib/session.ts:10-17 | folding one more item stores that item's cookie on top of the jar so far |
| Session.ItemCookieOf | src/lib/session.ts:8-15 | an item whose trimmed text is `name=value` (name free of `=`) yields exactly that pair |
| Session.ItemCookieNone | src/lib/session.ts:11-12 | an item with no `=` contributes nothing |
| Session.ItemsJarUntouched | src/lib/session.ts:10-17 | later items that do not set a name leave that name's presence and value unchanged |
| Session.FoldUntouched | src/lib/session.ts:10-17 | the same, for any item reader |
| Session.CookieJarAppend | src/lib/session.ts:6-17 | appending `;item` to a header stores that item's cookie on top of the prefix's jar |
| Session.CookieJarLaterWins | src/lib/session.ts:12-15 | a later `name=value` overrides the earlier value of the same name; a later item without `=` changes nothing |
| Session.SingleItem | src/lib/session.ts:6-17 | a header of one item holds just that item's cookie |
| Session.GetParcelApiKey | src/lib/session.ts:20-30 | a key is returned exactly when the cookie is present, non-empty and valid percent-encoding, and it is the decoded value |
| Session.MalformedKeyReadsAbsent | src/lib/session.ts:20-30 | a key cookie holding a malformed escape, after text that decodes, gives no key, whatever cookies come before it |
| Session.MalformedKeyExample | src/lib/session.ts:20-30 | the header `parcel_api_key=%zz` gives no key |
| Session.NameValuePart | src/lib/session.ts:32-35 | the `name=value` part a browser keeps from a `Set-Cookie` value never contains `;` |
| Session.SplitWithAttributes | src/lib/session.ts:32-40 | splitting a cookie on `;` gives the name-value part, then each attribute behind its single space |
| Session.SplitOneMore | src/lib/session.ts:33-34 | appending `; attribute` adds exactly one more `;`-item |
| Session.ReadBack | src/lib/session.ts:32-40 | reading a built `Set-Cookie` value gives back its name-value part and its attribute list |
| Session.SessionAttributesPlain | src/lib/session.ts:33-39 | every attribute the session and clearing cookies use is non-empty, trimmed and free of `;` |
| Session.PlainWords | src/lib/session.ts:34 | non-empty words drawn from ASCII letters, digits, `-`, `.`, `/` and `=` are valid attributes |
| Session.SessionCookie | src/lib/session.ts:32-35 | the cookie carries `parcel_api_key=` and the encoded key, then `Path=/`, `HttpOnly`, `SameSite=Lax`, a 30-day `Max-Age`, and `Secure` exactly when asked |
| Session.ClearSessionCookie | src/lib/session.ts:37-40 | the clearing cookie carries an empty `parcel_api_key` value, the same attributes with `Max-Age=0`, and `Secure` exactly when asked |
| Session.SecureExactlyWhenAsked | src/lib/session.ts:33-39 | `Secure` appears among the attributes if and only if the flag is set, for both cookies |
| Session.KeyItemCookie | src/lib/session.ts:34 | the `parcel_api_key=value` item of a plain value holds no `;` and parses back to that name and value |
| Session.KeyItemNoSemicolon | src/lib/session.ts:34 | the key item holds no `;` when its value holds none |
| Session.KeyItemTrimmed | src/lib/session.ts:34 | the key item is already trimmed when its value does not end in white space |
| Session.EncodedCharPlain | src/lib/session.ts:34 | characters `encodeURIComponent` emits are neither `;` nor white space |
| Session.EncodedValuePlain | src/lib/session.ts:34 | the encoded key is a plain cookie value, non-empty when the key is |
| Session.KeyItemAlone | src/lib/session.ts:3-18 | a header holding only the key item parses to exactly that one cookie |
| Session.KeyItemLast | src/lib/session.ts:12-15 | a key item after other cookies sets the key, whatever came before |
| Session.JoinedHeader | src/lib/session.ts:6-17 | a header joined from `;`-free parts parses as the jar of those parts |
| Session.KeyItemFirst | src/lib/session.ts:6-17 | a key item followed by cookies that never set the key keeps the key's value |
| Session.RoundTripAlone | src/lib/session.ts:20-35 | the cookie built for a non-empty key reads back as that key |
| Session.RoundTripAfterOthers | src/lib/session.ts:20-35 | the same, when other cookies precede it in the header |
| Session.RoundTripBeforeOthers | src/lib/session.ts:20-35 | the same, when cookies that do not set the key follow it |
| Session.ClearedReadsAbsent | src/lib/session.ts:20-40 | after the clearing cookie the key reads as absent |
| Session.ClearedOverridesEarlier | src/lib/session.ts:20-40 | the clearing cookie hides an earlier key value in the same header |
| PercentCodec.HexDigit | src/lib/session.ts:34 | a hex digit is an unreserved character |
| PercentCodec.Escape | src/lib/session.ts:34 | one byte becomes a three-character `%XX` escape |
| PercentCodec.EscapeAll | src/lib/session.ts:34 | n bytes become 3n characters |
| PercentCodec.Utf8 | src/lib/session.ts:34 | a character encodes to one to four bytes |
| PercentCodec.Encode | src/lib/session.ts:34 | encoding never shortens a string |
| PercentCodec.ReadEscape | src/lib/session.ts:26 | a decoded escape is a byte |
| PercentCodec.ReadEscapes | src/lib/session.ts:26 | reading n escapes yields n bytes from 3n characters |
| PercentCodec.HexRoundTrip | src/lib/session.ts:26-34 | a written hex digit reads back as its value |
| PercentCodec.ReadEscapeOf | src/lib/session.ts:26-34 | an escape written for a byte reads back as that byte |
| PercentCodec.ReadEscapesOf | src/lib/session.ts:26-34 | escapes written for a byte sequence read back as that sequence |
| PercentCodec.Utf8Decodes | src/lib/session.ts:26-34 | the UTF-8 bytes of a character have a valid lead byte, continuation bytes and no overlong form, and decode to its code point |
| PercentCodec.Utf8Two | src/lib/session.ts:34 | two-byte lead and continuation bytes are in range and recombine to the code point |
| PercentCodec.Utf8Three | src/lib/session.ts:34 | the same for three-byte sequences |
| PercentCodec.Utf8Four | src/lib/session.ts:34 | the same for four-byte sequences |
| PercentCodec.EscapedLayout | src/lib/session.ts:26-34 | an escaped run starts with `%`, reads back byte by byte, and leaves the rest of the text untouched |
| PercentCodec.Decode | src/lib/session.ts:26 | text without `%` decodes to itself; a decoded text is never longer than its input |
| PercentCodec.ReadEscapeExtend | src/lib/session.ts:26 | an escape is read the same with more text after it |
| PercentCodec.ReadEscapesExtend | src/lib/session.ts:26 | a run of escapes is read the same with more text after it |
| PercentCodec.DecodeConcat | src/lib/session.ts:26 | after text that decodes, the rest decodes on its own: the whole succeeds exactly when the rest does, and its result is the two results concatenated |
| PercentCodec.DecodeConcatSequence | src/lib/session.ts:26 | the same, for text that starts with a multi-byte sequence |
| PercentCodec.DecodeRejects | src/lib/session.ts:25-29 | decoding fails (the caught `URIError`) on a `%` without two hexadecimal digits, a lead byte 0x80-0xBF or 0xF8 and up, a missing or malformed follow-up escape, a follow-up byte that is not a continuation byte, an overlong form, a surrogate, or a value past U+10FFFF |
| PercentCodec.DecodeRejectsEscapes | src/lib/session.ts:25-29 | `%`, `%4` and `%zz` fail |
| PercentCodec.DecodeRejectsLeads | src/lib/session.ts:25-29 | `%80`, `%BF` and `%F8` fail |
| PercentCodec.DecodeRejectsFollowUps | src/lib/session.ts:25-29 | `%C3`, `%C3A9` and `%C3%41` fail |
| PercentCodec.DecodeRejectsOverlong | src/lib/session.ts:25-29 | the overlong `%C0%80` fails |
| PercentCodec.DecodeRejectsSurrogate | src/lib/session.ts:25-29 | the surrogate `%ED%A0%80` fails |
| PercentCodec.DecodeRejectsPastMax | src/lib/session.ts:25-29 | `%F4%90%80%80`, past U+10FFFF, fails |
| PercentCodec.DecodeRejectsAfter | src/lib/session.ts:25-29 | a failing escape fails the whole text, after any text that decodes |
| PercentCodec.DecodeEscapedChar | src/lib/session.ts:26-34 | decoding the escapes of one reserved character gives that character, then decodes the rest |
| PercentCodec.DecodeEncodedChar | src/lib/session.ts:26-34 | decoding one encoded character gives it back, then decodes the rest |
| PercentCodec.DecodeEncode | src/lib/session.ts:26-34 | `decodeURIComponent(encodeURIComponent(s))` is `s`, for every string |
| PercentCodec.EncodeAlphabet | src/lib/session.ts:34 | an encoded string holds only unreserved characters and `%` |
| PercentCodec.EscapeAllAlphabet | src/lib/session.ts:34 | an escaped run holds only hex digits and `%` |
| SessionRoute.Post | src/routes/api/session.ts:7-28 | status 400 with `API key is required` exactly when the trimmed key is missing or blank; otherwise 200 `{ok: true}` with the session cookie for the trimmed key, `Secure` when the protocol is `https:` |
| SessionRoute.Delete | src/routes/api/session.ts:29-41 | always 200 `{ok: true}` with the clearing cookie, `Secure` when the protocol is `https:` |
| SessionRoute.PostThenRead | src/routes/api/session.ts:12-24 | after a successful sign-in, the cookie it sets reads back as the trimmed, non-empty key |
| SessionRoute.DeleteThenRead | src/routes/api/session.ts:29-41 | after sign-out, no key is read, even when an earlier cookie carried one |
| SessionRoute.SecureOnlyOverHttps | src/routes/api/session.ts:17-37 | both cookies carry `Secure` if and only if the request came over `https:` |
| CarriersRoute.FromListed | src/routes/api/carriers.ts:37-40 | a carrier from the list shape has a trimmed lower-case code and a trimmed name |
| CarriersRoute.FromEntry | src/routes/api/carriers.ts:43-46 | a carrier from the record shape has a trimmed lower-case code and a trimmed `String(name)` |
| CarriersRoute.Mapped | src/routes/api/carriers.ts:35-47 | the mapping keeps one carrier per input entry, each normalised |
| CarriersRoute.Get | src/routes/api/carriers.ts:15-59 | the fixed upstream URL; a non-2xx status is passed on and a missing body gives 502, both with `Failed to load carriers`; otherwise 200 with a one-day cache header and the usable carriers sorted by name, a permutation of the candidates |
| CarriersRoute.ReturnedCarriersClean | src/routes/api/carriers.ts:35-49 | every returned carrier is normalised with non-empty code and name, and there are no more than input entries |
| CarriersRoute.Candidates | src/routes/api/carriers.ts:35-47 | no more candidates than directory entries; each is usable and normalised |
| CarriersRoute.CandidatesExactly | src/routes/api/carriers.ts:41-47 | a carrier is a candidate if and only if it is mapped and both fields are non-empty |
| CarriersRoute.RecordExample | src/routes/api/carriers.ts:42-49 | the record `{ups: "UPS", fedex: "FedEx"}` is returned as FedEx then UPS |
| CarriersRoute.RecordExampleCandidates | src/routes/api/carriers.ts:42-47 | before sorting, that record gives UPS then FedEx |
| CarriersRoute.MappedPair | src/routes/api/carriers.ts:42-46 | a two-entry record maps entry by entry |
| CarriersRoute.UsableTwo | src/routes/api/carriers.ts:47 | two usable carriers both survive the filter, in order |
| CarriersRoute.PlainEntry | src/routes/api/carriers.ts:43-46 | an already clean record entry maps to itself |
| CarriersRoute.SortedPair | src/routes/api/carriers.ts:49 | a sorted permutation of two carriers puts the smaller name first |
| DeliveriesRoute.NormalizeFilterMode | src/routes/api/deliveries.ts:6-8 | the mode is `recent` exactly when the parameter is `recent`, and `active` otherwise |
| DeliveriesRoute.Get | src/routes/api/deliveries.ts:13-44 | no upstream call and 401 `Not authenticated` exactly when there is no key; otherwise one GET with the key header and normalised mode; an upstream failure passes on its status and error, otherwise 200 with the upstream body |
| DeliveriesRoute.UpstreamModeIsKnown | src/routes/api/deliveries.ts:19-30 | the upstream URL always ends in `active` or `recent`, and the only header is the key |
| DeliveriesRoute.FailureKeepsStatus | src/routes/api/deliveries.ts:32-40 | an upstream failure body with an `error` string reaches the client with that status and that message |
| AddDeliveryRoute.Post | src/routes/api/add-delivery.ts:13-52 | 401 without a key; 400 `trackingNumber is required` when the trimmed number is missing or blank; otherwise one POST to the fixed URL with key and JSON content-type headers; failure passes on status and error, success gives 200 with the upstream body |
| AddDeliveryRoute.Payload | src/routes/api/add-delivery.ts:26-37 | three fields in order: the tracking number; carrier code and title, each null exactly when missing or blank and otherwise trimmed |
| AddDeliveryRoute.OutboundPayload | src/routes/api/add-delivery.ts:26-37 | the payload holds the trimmed non-empty tracking number; carrier code and title are null exactly when missing or blank, otherwise trimmed |
| AddDeliveryRoute.FailureKeepsStatus | src/routes/api/add-delivery.ts:41-48 | an upstream `error` string reaches the client with the upstream status; a failure without a body gives `Failed to add delivery` |
| Json.Get | src/routes/api/deliveries.ts:32-36 | a field lookup finds the last field with that key, and nothing exactly when no field has it |
| Json.UpstreamError | src/routes/api/deliveries.ts:32-36 | an object body with an `error` field gives `String(error)`, anything else gives the fallback |
| Json.UpstreamErrorVerbatim | src/routes/api/add-delivery.ts:42-46 | a string `error` is forwarded verbatim; an empty object gives the fallback |
| Http.TrimmedField | src/routes/api/add-delivery.ts:20-30 | `field?.trim()` is truthy exactly when the field is present and not blank, and it is the trimmed text |
| Status.Squash | src/components/parcel-dashboard.tsx:92-93 | after replacing runs, each matched character is a single space never followed by another; the last character is kept or becomes a space |
| Status.SquashSnoc | src/components/parcel-dashboard.tsx:92-93 | one more character is kept when unmatched, vanishes when it continues a run, and becomes one space when it opens a run |
| Status.SquashRun | src/components/parcel-dashboard.tsx:92-93 | a non-empty run of matched characters becomes exactly one space |
| Status.SquashConcat | src/components/parcel-dashboard.tsx:92-93 | when a concatenation does not split a run, each side is replaced in place: squashing the whole is squashing each side and concatenating |
| Status.SquashRunBetween | src/components/parcel-dashboard.tsx:92-93 | a run between two unmatched characters becomes exactly one space, and the text on either side is replaced on its own |
| Status.SquashSeparators | src/components/parcel-dashboard.tsx:92-93 | replacing runs of `_`/`-` and then runs of white space is the same as replacing runs of either kind at once |
| Status.Words | src/components/parcel-dashboard.tsx:90-95 | the words of a status text, its maximal runs of characters that are neither `_`/`-` nor white space, in order; a text ending in such a character has at least one |
| Status.WordsNone | src/components/parcel-dashboard.tsx:90-95 | a text has no words exactly when every character is a separator |
| Status.WordsSnoc | src/components/parcel-dashboard.tsx:90-95 | one more character: a separator adds no word, a word character extends the last word when it follows one and otherwise starts a new word |
| Status.JoinExtendLast | src/components/parcel-dashboard.tsx:90-95 | joining with spaces after extending the last word extends the joined text by that character |
| Status.JoinedSnoc | src/components/parcel-dashboard.tsx:90-95 | the words joined by single spaces grow by nothing for a separator, by the character when it continues a word, and otherwise by a space and the character (no space before the first word) |
| Status.JoinedEnds | src/components/parcel-dashboard.tsx:90-95 | the joined words are empty exactly when there is no word, and otherwise start and end with a word character |
| Status.SquashedWords | src/components/parcel-dashboard.tsx:92-93 | replacing every run of separators gives the words joined by single spaces, with one extra space in front when the text starts with a separator and one at the end when a separator follows the last word |
| Status.SquashedWordsWord | src/components/parcel-dashboard.tsx:92-93 | the inductive step of SquashedWords for a word character |
| Status.JoinedWord | src/components/parcel-dashboard.tsx:92-93 | appending a word character to that layout gives the layout of the longer text |
| Status.SquashedWordsSep | src/components/parcel-dashboard.tsx:92-93 | the inductive step of SquashedWords for a separator |
| Status.NormalizedWords | src/components/parcel-dashboard.tsx:90-95 | replacing `_`/`-` runs, then white-space runs, then trimming gives exactly the words joined by single spaces |
| Status.SquashSurvivors | src/components/parcel-dashboard.tsx:92-93 | every character that is neither matched nor a space survives, in order; the result has one character per unmatched input character plus one space per run |
| Status.SquashLength | src/components/parcel-dashboard.tsx:92-93 | the length of the result is the number of unmatched characters plus the number of runs |
| Status.SquashKeepsText | src/components/parcel-dashboard.tsx:92-93 | the characters of any class that excludes the matched ones and the space come through unchanged and in order |
| Status.TrimKeepsText | src/components/parcel-dashboard.tsx:94 | trimming keeps every non-white-space character, in order |
| Status.WordlessIsEmpty | src/components/parcel-dashboard.tsx:93-94 | trimmed text free of `_` and `-` is empty exactly when it has no word character |
| Status.SquashFixed | src/components/parcel-dashboard.tsx:92-93 | replacing runs in text that has none changes nothing |
| Status.SquashedFront | src/components/parcel-dashboard.tsx:92-93 | a prefix of squashed text is squashed |
| Status.SquashKeepsOut | src/components/parcel-dashboard.tsx:92-93 | the replacement introduces no character that was absent, other than a space |
| Status.TrimKeepsSquashed | src/components/parcel-dashboard.tsx:93-94 | trimming keeps the text squashed |
| Status.TrimKeepsOut | src/components/parcel-dashboard.tsx:94 | trimming introduces no new character |
| Status.NormalizeStatusText | src/components/parcel-dashboard.tsx:90-95 | the result is the input's words (maximal runs of characters that are neither `_`/`-` nor white space) joined by single spaces, so `in_transit` becomes `in transit`; it is trimmed, free of `_` and `-`, and has no two white-space characters in a row; every word character survives, in order; it is empty exactly when the input has no word character |
| Status.NormalizeIdempotent | src/components/parcel-dashboard.tsx:90-95 | normalising twice is normalising once |
| Status.NumericCode | src/components/parcel-dashboard.tsx:102-107 | a string code is numeric only when its trimmed text is all digits, and then the value is not negative |
| Status.TextMeta | src/components/parcel-dashboard.tsx:117-124 | a text status gets the unknown class and a lower-case value |
| Status.StatusMetaOf | src/components/parcel-dashboard.tsx:101-132 | a known code gives its label, class and decimal value; otherwise non-blank status text, then non-blank code text, each normalised; otherwise Unknown |
| Status.StatusMetaClasses | src/components/parcel-dashboard.tsx:101-132 | the class is a specific one if and only if the code is known, and the filter value is always lower case |
| Status.DigitStringsAgree | src/components/parcel-dashboard.tsx:102-115 | a padded digit string and the number it spells give the same status, whatever the text |
| Status.SevenExample | src/components/parcel-dashboard.tsx:66-115 | code `" 07"` beats the text `in_transit` and gives Exception, `status-exception`, value `7` |
| CarrierResolution.NormalizeCode | src/components/parcel-dashboard.tsx:97-99 | the result is trimmed and lower case, and empty for a missing value |
| CarrierResolution.NormalizeCodeFixed | src/components/parcel-dashboard.tsx:97-99 | an already trimmed lower-case code is unchanged |
| CarrierResolution.NormalizeCodeIdempotent | src/components/parcel-dashboard.tsx:97-99 | normalising twice is normalising once |
| CarrierResolution.FirstNonEmpty | src/components/parcel-dashboard.tsx:206-215 | the `or`-chain is empty if and only if every candidate is empty |
| CarrierResolution.FirstNonEmptyIsFirst | src/components/parcel-dashboard.tsx:206-215 | a non-empty result is the first non-empty candidate |
| CarrierResolution.NormalizedCodes | src/components/parcel-dashboard.tsx:206-215 | the six candidates are the normalised fields, in the code's order |
| CarrierResolution.ResolveCarrierCode | src/components/parcel-dashboard.tsx:199-216 | a string carrier wins outright; otherwise the first non-empty normalised candidate |
| CarrierResolution.ResolvedCodeIsNormal | src/components/parcel-dashboard.tsx:199-216 | the resolved code is trimmed, lower case, and a fixed point of normalisation |
| CarrierResolution.CodeFromFirstField | src/components/parcel-dashboard.tsx:206-215 | when field k is the first with a non-empty code, the resolved code is that field's |
| CarrierResolution.ResolveCarrierName | src/components/parcel-dashboard.tsx:218-233 | a carrier object's non-empty name wins; then the directory's non-empty name for the code; then the upper-cased code; then `Unknown`; never empty |
| CarrierResolution.FirstNonBlank | src/components/parcel-dashboard.tsx:246-250 | no candidate is found if and only if all are missing or blank; a found one is trimmed and non-empty |
| CarrierResolution.FirstNonBlankIsFirst | src/components/parcel-dashboard.tsx:246-250 | a found title is the trim of the first non-blank candidate |
| CarrierResolution.DeliveryTitle | src/components/parcel-dashboard.tsx:235-257 | the first non-blank title field, else `Package <tracking number>`, else `Package`; never empty |
| CarrierResolution.ResolveDeliveryTitle | src/components/parcel-dashboard.tsx:235-257 | the loop returns the title the definition gives |
| Locations.JoinedParts | src/components/parcel-dashboard.tsx:163-169 | no location exactly when no part is present; a joined one is trimmed and non-empty |
| Locations.Extend | src/components/parcel-dashboard.tsx:163-169 | one step of the join: the text so far is kept as a prefix, and there is text afterwards exactly when there was before or the part is present |
| Locations.JoinedPartsSnoc | src/components/parcel-dashboard.tsx:163-169 | joining parts plus one more is extending the join of the parts by that part, so the join is the fold of the trimmed present parts |
| Locations.PresentKept | src/components/parcel-dashboard.tsx:163-165 | the filter is empty exactly when no part is present |
| Locations.JoinedThree | src/components/parcel-dashboard.tsx:172-178 | the location is city, state and country, trimmed, the present ones joined by `, ` in that order; none exactly when none is present |
| Locations.TrimmedText | src/components/parcel-dashboard.tsx:146-147 | text gives a location exactly when it is not blank, and it is the trimmed text |
| Locations.EventLocation | src/components/parcel-dashboard.tsx:145-181 | a non-blank string location wins; then an object's name, its display name, its joined city, state and country; then the event's own joined city, state and country; none exactly when every source is missing or blank; any result is trimmed and non-empty |
| Locations.Latest | src/components/parcel-dashboard.tsx:187-190 | none exactly when no event has a location; otherwise the location of the last event that has one |
| Locations.ScanBack | src/components/parcel-dashboard.tsx:187-190 | the backward loop returns that latest location |
| Locations.CurrentLocationOf | src/components/parcel-dashboard.tsx:183-197 | no delivery gives none; the latest event location wins, else the delivery's own trimmed non-blank location; any result is trimmed and non-empty |
| Locations.GetCurrentLocation | src/components/parcel-dashboard.tsx:183-197 | the method returns the current location of the delivery |
| Locations.CurrentLocationIsLatest | src/components/parcel-dashboard.tsx:183-197 | the latest event with a location wins, else the delivery's own trimmed location; no delivery gives none |
| Derivations.SortDeliveries | src/components/parcel-dashboard.tsx:435-443 | the copy is ordered by expected date, latest first, and is a permutation of the input |
| Derivations.UndatedLast | src/components/parcel-dashboard.tsx:438-441 | once an undated delivery appears, every later one is undated |
| Derivations.CarrierNameByCode | src/components/parcel-dashboard.tsx:445-450 | the reduce loop builds the code-to-name directory |
| Derivations.NameDirectoryStep | src/components/parcel-dashboard.tsx:445-450 | one more carrier sets its code to its name, overriding any earlier one |
| Derivations.DirectoryLookup | src/components/parcel-dashboard.tsx:445-450 | a code is in the directory exactly when some carrier normalises to it, and it maps to the last such carrier's name |
| Derivations.Decorate | src/components/parcel-dashboard.tsx:452-458 | a decorated delivery keeps the delivery and has a non-empty carrier name |
| Derivations.DecorateAll | src/components/parcel-dashboard.tsx:452-459 | one decorated item per sorted delivery, in order |
| Derivations.PutAll | src/components/parcel-dashboard.tsx:462-466 | the `Map` built by `set` has distinct keys and holds the last value per key |
| Derivations.PutEach | src/components/parcel-dashboard.tsx:464-466 | the `forEach` loop builds that `Map` |
| Derivations.AddMissing | src/components/parcel-dashboard.tsx:468-473 | adding missing codes keeps every existing entry in place |
| Derivations.AddMissingDistinct | src/components/parcel-dashboard.tsx:468-473 | adding missing codes keeps keys distinct |
| Derivations.AddMissingCovers | src/components/parcel-dashboard.tsx:468-473 | every non-empty item code ends up in the `Map` |
| Derivations.AddMissingNew | src/components/parcel-dashboard.tsx:468-473 | every added entry has a non-empty code absent before, and the name of the first item with that code |
| Derivations.AsCarriers | src/components/parcel-dashboard.tsx:475-476 | one option per `Map` entry, in order |
| Derivations.AddMissingLoop | src/components/parcel-dashboard.tsx:468-473 | the `forEach` loop adds the missing codes |
| Derivations.CarrierOptions | src/components/parcel-dashboard.tsx:461-478 | the options are sorted by name and are a permutation of the `Map`'s entries |
| Derivations.CarrierOptionsDistinct | src/components/parcel-dashboard.tsx:461-478 | no code appears twice among the options |
| Derivations.CarrierOptionsCover | src/components/parcel-dashboard.tsx:461-478 | every directory entry is an option, and every non-empty delivery carrier code has one |
| Derivations.CarrierOptionsOnly | src/components/parcel-dashboard.tsx:461-478 | every option is a directory entry, or the code and name of the first delivery with that code |
| Derivations.AsStatusOptions | src/components/parcel-dashboard.tsx:487-488 | one option per `Map` entry, in order |
| Derivations.StatusOptions | src/components/parcel-dashboard.tsx:480-490 | the options are sorted by label and are a permutation of the `Map`'s entries |
| Derivations.StatusOptionsDistinct | src/components/parcel-dashboard.tsx:480-490 | no value appears twice among the options |
| Derivations.StatusOptionsContents | src/components/parcel-dashboard.tsx:480-490 | an option is present exactly when its value occurs with that as its last label, and every delivery's value occurs |
| Derivations.StatusOptionEntry | src/components/parcel-dashboard.tsx:487-488 | an option is present exactly when its pair is a `Map` entry |
| Derivations.FilterDeliveries | src/components/parcel-dashboard.tsx:492-499 | the filtered list is no longer than the input and every kept delivery matches both filters |
| Derivations.FilteredExactly | src/components/parcel-dashboard.tsx:492-499 | the filtered list is the in-order subsequence of exactly the items that match both filters, an empty filter matching all |
| Derivations.NoFilterKeepsAll | src/components/parcel-dashboard.tsx:494-495 | with both filters empty, nothing is removed |
| Grouping.GroupKey | src/components/parcel-dashboard.tsx:507 | by carrier the key is the carrier code, or `unknown` when it is empty, and so never empty; by status it is the status value |
| Grouping.Collect | src/components/parcel-dashboard.tsx:504-516 | there are no more buckets than items, and none exactly when there are no items |
| Grouping.Join | src/components/parcel-dashboard.tsx:510-515 | an item with a known key keeps the number of buckets; one with a new key appends a bucket titled after it that holds only it |
| Grouping.CollectWellGrouped | src/components/parcel-dashboard.tsx:504-516 | the `Map` built has distinct keys; each bucket is exactly the items with its key, in order, titled by its first item; every item's key is present |
| Grouping.OtherBucketsKeep | src/components/parcel-dashboard.tsx:510-515 | adding an item leaves the other keys' buckets as they were |
| Grouping.JoinExisting | src/components/parcel-dashboard.tsx:510-512 | pushing onto an existing bucket keeps the grouping exact |
| Grouping.JoinExistingBuckets | src/components/parcel-dashboard.tsx:510-512 | each bucket stays exactly its key's items after a push |
| Grouping.JoinExistingCovered | src/components/parcel-dashboard.tsx:510-512 | every item stays in some bucket after a push |
| Grouping.JoinNew | src/components/parcel-dashboard.tsx:513-515 | opening a new bucket keeps the grouping exact |
| Grouping.NewKeyAlone | src/components/parcel-dashboard.tsx:513-515 | an item with a new key is the only one with it so far |
| Grouping.JoinNewBuckets | src/components/parcel-dashboard.tsx:513-515 | each bucket stays exactly its key's items after a new bucket |
| Grouping.JoinNewCovered | src/components/parcel-dashboard.tsx:513-515 | every item stays in some bucket after a new bucket |
| Grouping.Values | src/components/parcel-dashboard.tsx:518 | `values()` lists the buckets in insertion order |
| Grouping.GroupDeliveries | src/components/parcel-dashboard.tsx:501-519 | no grouping gives no buckets; otherwise the buckets are sorted by title and are a permutation of the `Map`'s values |
| Grouping.BucketsAreKeyClasses | src/components/parcel-dashboard.tsx:504-518 | each returned bucket is non-empty, holds exactly the items sharing its first item's key, and is titled by that item |
| Grouping.BucketKeysDistinct | src/components/parcel-dashboard.tsx:504-518 | no two buckets share a key |
| Grouping.EveryItemGrouped | src/components/parcel-dashboard.tsx:504-518 | every filtered item lands in some bucket |
| Grouping.ItemInOneBucket | src/components/parcel-dashboard.tsx:504-518 | no item lands in two buckets |
| Grouping.TotalUpdate | src/components/parcel-dashboard.tsx:511-512 | replacing one bucket changes the total by the size difference |
| Grouping.TotalAppend | src/components/parcel-dashboard.tsx:513-514 | totals add up over concatenation |
| Grouping.TotalPermutation | src/components/parcel-dashboard.tsx:518 | sorting the buckets keeps the total |
| Grouping.CollectTotal | src/components/parcel-dashboard.tsx:504-516 | the buckets together hold as many items as were grouped |
| Grouping.JoinTotal | src/components/parcel-dashboard.tsx:510-515 | each item adds exactly one to the total of the bucket sizes |
| Grouping.BucketSizesSum | src/components/parcel-dashboard.tsx:501-519 | the bucket sizes of the returned list add up to the number of filtered items |
| JsMaps.FindKey | src/components/parcel-dashboard.tsx:470 | `has` finds the position of the key, or reports that no entry has it |
| JsMaps.Put | src/components/parcel-dashboard.tsx:465 | `set` keeps keys distinct and grows the `Map` only for a new key |
| JsMaps.PutRepresents | src/components/parcel-dashboard.tsx:465 | `set` on the entries matches updating the map |
| JsMaps.RepresentsMember | src/components/parcel-dashboard.tsx:475 | an entry is listed exactly when the `Map` holds that value for that key |
| JsMaps.LastWinsAppend | src/components/parcel-dashboard.tsx:446-447 | assigning one more key overwrites that key only |
| JsMaps.LastWinsLookup | src/components/parcel-dashboard.tsx:446-447 | a key is present exactly when some element has it, and holds the last such element's value |
| Sorting.InOrderTotal | src/components/parcel-dashboard.tsx:441 | any two elements are comparable |
| Sorting.InOrderTransitive | src/components/parcel-dashboard.tsx:441 | the order is transitive |
| Sorting.SortInPlace | src/routes/api/carriers.ts:49 | the array ends sorted by the key and is a permutation of its old contents |
| Sorting.InsertBack | src/routes/api/carriers.ts:49 | one insertion pass extends the sorted prefix by one element and keeps the array a permutation |
| Sorting.SortedCopy | src/components/parcel-dashboard.tsx:438 | sorting a copy gives a sorted permutation |
| Sorting.PermutationMembers | src/components/parcel-dashboard.tsx:438 | a permutation has the same length and members |
| Dashboard.OrUndefined | src/components/parcel-dashboard.tsx:419-421 | `text \|\| undefined` is present exactly when the text is non-empty, and reads back as the text |
| Dashboard.NextFilter | src/components/parcel-dashboard.tsx:418-421 | the next filter is never the empty string and reads as the patched value, else the current one |
| Dashboard.PatchSearch | src/components/parcel-dashboard.tsx:408-433 | mode and group take the patch or keep the current; each filter reads as the patched value or the current one, and an empty filter is dropped |
| Dashboard.PatchThen | src/components/parcel-dashboard.tsx:408-433 | two patches in a row equal their merge, later fields winning; applying a patch twice is applying it once |
| Dashboard.EmptyPatchKeeps | src/components/parcel-dashboard.tsx:408-433 | an empty patch leaves a clean search unchanged |
| Dashboard.ActiveFilterCount | src/components/parcel-dashboard.tsx:533-536 | at most three, and zero exactly when there is no grouping and both filters are empty |
| Dashboard.ClearShowsAll | src/components/parcel-dashboard.tsx:660 | Clear keeps the mode, brings the count to zero and lets every delivery through |
| Dashboard.CardKey | src/components/parcel-dashboard.tsx:565 | the key is the id, else the tracking number, else carrier code, `-`, status value |
| Dashboard.CloseTopmost | src/components/parcel-dashboard.tsx:385-402 | Escape changes the overlays exactly when one is open and never opens one |
| Dashboard.EscapeClosesFirstOpen | src/components/parcel-dashboard.tsx:385-402 | Escape closes exactly one open overlay, if any, opens none, and closes the detail view first, then the add form, then the filter panel |
| Dashboard.EscapesCloseAll | src/components/parcel-dashboard.tsx:385-402 | as many Escapes as open overlays close them all |
| Dashboard.FindTracking | src/components/parcel-dashboard.tsx:376-378 | `find` returns the first delivery with the tracking number, or none exactly when none has it |
| Dashboard.Refreshed | src/components/parcel-dashboard.tsx:373-383 | the refreshed selection is present exactly when the old one is, with the same tracking number |
| Dashboard.RefreshKeepsTracking | src/components/parcel-dashboard.tsx:373-383 | the refresh keeps a selection present or absent, keeps its tracking number, and replaces it only with the first listed delivery carrying that number |
| Dashboard.RefreshIdempotent | src/components/parcel-dashboard.tsx:373-383 | refreshing twice against the same data is refreshing once |
| Dashboard.DashboardState.constructor | src/components/parcel-dashboard.tsx:323-328 | nothing selected, no overlay open, empty form |
| Dashboard.DashboardState.OnKey | src/components/parcel-dashboard.tsx:385-402 | Escape closes the topmost open overlay and clears the selection; any other key changes nothing; the form is untouched |
| Dashboard.DashboardState.RefreshSelected | src/components/parcel-dashboard.tsx:373-383 | the selection becomes its refresh against the loaded list, or an empty list; overlays and form are untouched |
| Dashboard.DashboardState.OnAddSuccess | src/components/parcel-dashboard.tsx:351-356 | the form fields are cleared and the add modal closed; selection and filter panel are untouched |
| Dashboard.ThrownMessage | src/components/parcel-dashboard.tsx:273-278 | a present, non-null `error` field gives its text, anything else the fallback |
| Dashboard.ListField | src/components/parcel-dashboard.tsx:280-281 | the field's array when it is an array, else the empty list |
| Dashboard.FetchDeliveries | src/components/parcel-dashboard.tsx:266-282 | status 401 and only it throws Unauthorized; any other failure throws the body's `error` or `Failed to load deliveries`; a success with a null body throws; a loaded list is the `deliveries` array or empty |
| Dashboard.FetchCarriers | src/components/parcel-dashboard.tsx:284-290 | never Unauthorized; a failure gives the empty list; a success with a null body throws; otherwise the `carriers` array or empty |
| Dashboard.AddDeliveryRequest | src/components/parcel-dashboard.tsx:292-317 | no error exactly on success; Unauthorized exactly on 401; any other failure throws the body's `error` or `Failed to add delivery` |
| Dashboard.RouteMessageSurvives | src/components/parcel-dashboard.tsx:273-278 | a route's `{error}` body reaches the client as that message |
| Dashboard.DeliveriesEndToEnd | src/components/parcel-dashboard.tsx:266-282 | through the deliveries route: no key or an upstream 401 ends in Unauthorized; another upstream failure ends in the upstream error or the route's fallback; success loads the `deliveries` array |
| Dashboard.AddDeliveryEndToEnd | src/components/parcel-dashboard.tsx:292-317 | through the add route: no key or an upstream 401 ends in Unauthorized; a blank number ends in `trackingNumber is required`; another failure ends in the upstream error or fallback; success has no error |
| Dashboard.CarriersEndToEnd | src/components/parcel-dashboard.tsx:284-290 | through the carriers route: the carriers the route returns reach the dashboard unchanged; any route failure gives an empty list |
| Dashboard.DisplayedError | src/components/parcel-dashboard.tsx:538-546 | never Unauthorized; the deliveries error wins; otherwise the add error; none only when both are absent or Unauthorized |
| Dashboard.SignInRequired | src/components/parcel-dashboard.tsx:361-371 | when neither error is Unauthorized, the deliveries error is displayed, else the add error |
| Dashboard.EveryErrorSurfaces | src/components/parcel-dashboard.tsx:361-371 | every error either is displayed or sends the user to sign-in |
| Text.Trim | src/lib/session.ts:8 | the result has no leading or trailing white space and is no longer than the input |
| Text.TrimSlice | src/lib/session.ts:8 | the result is the slice left after removing white space from both ends |
| Text.TrimIdempotent | src/lib/session.ts:8 | trimming twice is trimming once |
| Text.TrimPadded | src/components/parcel-dashboard.tsx:94 | trimming blank padding around trimmed text gives that text back |
| Text.TrimEmptyIffBlank | src/routes/api/session.ts:12-13 | trimming gives the empty string exactly when the text is blank |
| Text.Lower | src/components/parcel-dashboard.tsx:98 | same length, each ASCII capital replaced by its small letter and everything else kept |
| Text.Upper | src/components/parcel-dashboard.tsx:231 | same length, each ASCII small letter replaced by its capital and everything else kept |
| Text.Split | src/lib/session.ts:7 | `split` always gives at least one piece |
| Text.SplitJoin | src/lib/session.ts:7 | no piece holds the separator, and joining the pieces gives the text back |
| Text.SplitOfJoin | src/lib/session.ts:7 | splitting separator-free parts joined by the separator gives the parts back |
| Text.DigitsOfNat | src/components/parcel-dashboard.tsx:113 | the decimal text of a number reads back as that number |
| Text.LeTotal | src/components/parcel-dashboard.tsx:441 | code-point order is total |
| Text.LeTransitive | src/components/parcel-dashboard.tsx:441 | code-point order is transitive |
| Text.LeAntisymmetric | src/components/parcel-dashboard.tsx:441 | code-point order is antisymmetric |

## Left out

- Network I/O, `fetch`, timing and React scheduling are out of scope.
  - Each upstream reply and each response to the browser is a parameter or a result value.
  - Query caching, re-fetch after invalidation, and races between effects are not modelled.
- URL parsing is out of scope. Each route receives the protocol or the `filter_mode` parameter already extracted.
- The URL search-parameter validation in `src/routes/app.tsx` is not part of this model. The search state is taken as given.
- Navigation to `/sign-in` is not modelled. `Dashboard.SignInRequired` states when it happens.
- `formatDate` is not modelled. It depends on the `Intl` date formatter.
- `onAddDelivery` and `onSignOut` only pass the form fields, or a DELETE, to the modelled calls. They are not modelled separately.
- Rendering is not modelled, apart from the card key and the Clear button's patch.
- Decoding an arbitrary JSON body into the model's records is not modelled. A field of an unexpected JavaScript type is read as absent, where the source throws a `TypeError` or behaves otherwise:
  - `Parcel.Delivery`: calling `trim` on a number, for example, throws.
  - `SessionRoute.SignIn`: with `{"apiKey": 5}`, `body?.apiKey?.trim()` throws and the handler fails (src/routes/api/session.ts:12). The model reads the key as absent and answers 400.
  - `AddDeliveryRoute.AddRequest`: the same holds for a non-string `trackingNumber`, `carrierCode` or `title` (src/routes/api/add-delivery.ts:20,28-29). The model answers 400 for the number and sends `null` for the other two.
  - `CarriersRoute.Listed`: a `null` list element, or a non-string `code` or `name`, throws (src/routes/api/carriers.ts:37-38).
  - `CarriersRoute.Directory` holds only a list or an object. The source passes any other non-null body to `Object.entries` (src/routes/api/carriers.ts:42). A JSON string gives one carrier per character, coded by its index (`"ab"` gives codes `0` and `1`); a number or a boolean gives `[]`. Neither is modelled.
- Object keys such as `__proto__` are not modelled. `Object.entries` lists integer-like keys first; the record shape of the carrier directory keeps the body's order.
- Sorting.SortInPlace: `localeCompare` is replaced by code-point order. The sort is proved sorted and a permutation; its stability is not proved, so the order of equal-key elements is left open in Derivations.SortDeliveries, Derivations.CarrierOptions, Derivations.StatusOptions, Grouping.GroupDeliveries and CarriersRoute.Get.
- Text.Lower, Text.Upper: `toLowerCase` and `toUpperCase` are modelled for ASCII letters only.
- PercentCodec.Encode: a lone surrogate in the API key makes `encodeURIComponent` throw a `URIError`. A Dafny `char` is a Unicode scalar value, so such a string cannot be expressed and the throw is not modelled.
- JSON numbers and numeric status codes are integers only (`Json.Num`, `Parcel.SNum`). `String(2.5)` and a fractional status code that falls through to the status text are not modelled.
- Dashboard.FetchDeliveries: a throw from `response.json()` on a 2xx response is merged with a null body as `NullData`. The engine's `TypeError` message is not modelled.
- In the source, building a response with a status outside 200–599, or with a body for a null-body status, throws. This is not modelled.
