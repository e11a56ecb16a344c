# SAML login bridge: decoding and token strings

A model of the logic inside a small Express server. The server signs users in
through a SAML identity provider with passport-saml and sends them back to a
frontend. The model covers three pieces:

- `urlDecodeBase64` (src/utils.ts). It takes a URL-safe text and returns it
  with '-' turned into '+' and '_' into '/'. It does this by round-tripping the
  input through a UTF-8 buffer, percent-escaping every code unit and calling
  `decodeURIComponent`. It returns `undefined` when that call throws.
- The `/login` routes (src/server.ts). After successful SAML
  authentication (`passport.authenticate('saml', …)`), the GET handler
  redirects to `${baseURL}/login`. The POST handler builds a demo access
  token of the form `header.payload.signature` and redirects to
  `complete?frontend=…&saml=…&access_token=…`.
- The passport callbacks (src/config/passport.ts). The verify callback
  appends each user object to the module-level `savedUsers` array once.
  Serialize and deserialize hand the user object through unchanged.

The POST handler puts a fixed-format bearer token directly into the
redirect URL; no code exchange takes place.

How JavaScript values are represented:

- Strings are sequences of UTF-16 code units (`JsString.Unit`). Lone
  surrogates are therefore representable.
- `Buffer.from(s).toString()` replaces each lone surrogate with U+FFFD
  (`Utf16.ToWellFormed`).
- `decodeURIComponent` follows the Decode operation of ECMA-262 with an empty
  reserved set (`Uri.DecodeFrom`). An escaped octet sequence is accepted
  exactly when it appears in the well-formed table of section 4 of RFC 3629.
  Any other sequence throws a URIError, which the model writes as `None`.
- Base64 is the padded alphabet of section 4 of RFC 4648.

The model reproduces two behaviours of `urlDecodeBase64` as the code has
them:

- Only the low byte of each code unit survives: `('00' + hex).slice(-2)`
  keeps the last two hexadecimal digits.
- '.' is matched by `/[-_.]/g` but has no entry in `b64Chars`. The
  callback's `undefined` is therefore inserted as the nine characters
  "undefined".

## Model

| member | source | states |
|---|---|---|
| Utils.UrlDecodeBase64 | src/utils.ts:5-20 | the whole function: well-formed round trip, percent escaping, `decodeURIComponent`, `undefined` on a throw, then the URL-character replacement; its properties are the `UrlDecodeBase64…` lemmas below |
| Utils.PercentEncode | src/utils.ts:10-14 | the split/map/join stage; specified by PercentEncodeIsLowByteEscapes |
| Utils.PercentUnit | src/utils.ts:12 | the escape of one unit; specified by PercentUnitIsLowByteEscape |
| Utils.ReplaceUrlChars | src/utils.ts:15 | `replace(/[-_.]/g, …)` with the `b64Chars` lookup; specified by the `Replace…` lemmas below |
| Uri.DecodeURIComponent | src/utils.ts:8 | `decodeURIComponent`, `None` for a URIError; specified by Uri.DecodeEscaped and Uri.DecodeWithoutEscapes |
| Utf16.ToWellFormed | src/utils.ts:9 | `Buffer.from(…).toString()` on a string; specified by ToWellFormedAt and the `ToWellFormed…` lemmas below |
| Utf16.ToWellFormedAt | src/utils.ts:9 | the round trip keeps the length; each unit is kept when it is not a surrogate or is part of a surrogate pair, and becomes U+FFFD otherwise |
| Utils.UrlDecodeBase64Stages | src/utils.ts:5-20 | the function equals UTF-8 decoding of the low bytes of the well-formed input, then the URL-character replacement; it is undefined exactly when those bytes are not UTF-8 |
| Utils.PercentEncodeIsLowByteEscapes | src/utils.ts:10-14 | splitting into units, mapping each to `'%'` plus its last two hex digits and joining gives the percent escapes of the units' low bytes |
| Utils.PercentUnitIsLowByteEscape | src/utils.ts:12 | one unit becomes '%' followed by the two hex digits of its low byte |
| Hex.TwoLowDigits | src/utils.ts:12 | `('00' + n.toString(16)).slice(-2)` is the two lower-case hex digits of `n mod 256` |
| Utils.OnlyLowBytesMatter | src/utils.ts:12 | two inputs whose well-formed units agree in their low bytes give the same result |
| Utils.OnlyLowByteOfUnitCounts | src/utils.ts:12 | U+0141 comes out as 'A' (0x41) |
| Utils.LowBytes | src/utils.ts:12 | one byte per unit, each the unit modulo 256 |
| Utf16.ToWellFormedShape | src/utils.ts:9 | the UTF-8 buffer round trip keeps the length and changes only surrogates, each to U+FFFD |
| Utf16.ToWellFormedIsWellFormed | src/utils.ts:9 | the round trip's result has no unpaired surrogate |
| Utf16.ToWellFormedKeepsWellFormed | src/utils.ts:9 | well-formed text passes the round trip unchanged |
| Uri.DecodeEscaped | src/utils.ts:8-14 | `decodeURIComponent` of the percent escapes of bytes `b` is the UTF-16 encoding of `b` decoded as UTF-8, and throws exactly when `b` is ill-formed |
| Uri.DecodeWithoutEscapes | src/utils.ts:8 | text without '%' is returned unchanged by `decodeURIComponent` |
| Utf8.DecodeEncode | src/utils.ts:8 | UTF-8 decoding inverts encoding of any sequence of Unicode scalar values |
| Utf8.EncodeDecode | src/utils.ts:8 | a successful decode re-encodes to the same bytes |
| Utf8.WellFormedIsEncoding | src/utils.ts:8 | every well-formed octet sequence is the encoding of the scalar value it carries |
| Utf8.LoneHighByteRejected | src/utils.ts:8 | a byte of 0x80 or above between ASCII bytes makes decoding fail |
| Utils.LoneHighUnitIsUndefined | src/utils.ts:7-19 | a unit whose low byte is 0x80 or above, between ASCII units, makes the function return `undefined` |
| Utils.Latin1LetterIsUndefined | src/utils.ts:7-19 | the single character U+00E9 gives `undefined` |
| Utils.ReplaceSingle | src/utils.ts:6-15 | '-' becomes '+', '_' becomes '/', '.' becomes "undefined", every other unit stays |
| Utils.ReplaceConcat | src/utils.ts:15 | the replacement works unit by unit and distributes over concatenation |
| Utils.ReplaceLength | src/utils.ts:15 | the output is longer than the input by eight units per '.' |
| Utils.ReplaceWithoutDots | src/utils.ts:15 | without '.', each unit is translated in place |
| Utils.ReplaceRemovesUrlChars | src/utils.ts:15 | the output contains no '-', '_' or '.' |
| Utils.ReplaceNothingToReplace | src/utils.ts:15 | text with none of '-', '_', '.' is unchanged |
| Utils.UrlDecodeBase64Ascii | src/utils.ts:5-20 | ASCII input (including '%') never fails, and the result is the input with the URL characters replaced |
| Utils.UrlDecodeBase64NoUrlChars | src/utils.ts:15 | a defined result contains no '-', '_' or '.' |
| Utils.UrlDecodeBase64Idempotent | src/utils.ts:5-20 | on ASCII input, decoding the result again gives the same result |
| Utils.UrlDecodeBase64KeepsLength | src/utils.ts:5-20 | ASCII input without '.' gives a result of the same length |
| Base64.Encode | src/server.ts:60 | `Buffer.from(…).toString('base64')`; specified by the `Base64…` lemmas below |
| Base64.DecodeEncode | src/server.ts:60 | decoding the base64 text of any bytes gives the bytes back |
| Base64.EncodeDecode | src/server.ts:60 | any text the strict decoder accepts is the encoding of what it decodes to |
| Base64.EncodeLength | src/server.ts:60 | the encoding of `n` bytes has `4 * ceil(n / 3)` units |
| Base64.EncodeAlphabet | src/server.ts:60 | every unit of the encoding is from the base64 alphabet or '=' |
| Base64.EncodeInjective | src/server.ts:60 | distinct byte sequences have distinct encodings |
| Base64.EncodeLacksSeparators | src/server.ts:60 | the encoding contains neither '.' nor '&' |
| Server.AccessToken | src/server.ts:58-63 | `${alg}.${payload}.${signature}` with the payload in base64; specified by TokenSegments, PayloadSegment and TokenLacksAmpersand |
| Server.LoginToken | src/server.ts:57-63 | the token built from a user's `nameID`; specified by LoginTokenDistinguishesUsers |
| Server.LoginStartRedirect | src/server.ts:48 | the GET handler's redirect; specified by LoginStartTarget |
| Server.LoginCompleteRedirect | src/server.ts:54-64 | the POST handler's redirect; specified by LoginCompleteParameters |
| Server.TokenSegments | src/server.ts:58-63 | the token has exactly two dots; splitting on them gives the fixed header, the base64 payload and the fixed signature |
| Server.FixedSegmentsAreLiterals | src/server.ts:58-62 | the first and last segments are the literal texts of the source, the same for every user |
| Server.PayloadSegment | src/server.ts:57-63 | the token's middle segment has the base64 length and alphabet and decodes to the payload bytes |
| Server.LoginTokenDistinguishesUsers | src/server.ts:57-63 | equal name identifiers give equal tokens; with an injective payload serializer, distinct ones give distinct payload segments |
| Server.TokenLacksAmpersand | src/server.ts:63 | a token contains no '&' |
| Server.LoginCompleteParameters | src/server.ts:54-64 | the redirect has status 302; when the base URL has no '&', its '&'-pieces are the frontend, `saml=login` and `access_token=` plus the token, and the token's payload decodes to the user's serialized identity |
| Server.LoginStartTarget | src/server.ts:48 | the GET redirect goes to the base URL followed by "/login", or to "undefined/login" when no base URL is set |
| Passport.UserRegistry.Verify | src/config/passport.ts:30-36 | the user is pushed onto `savedUsers` exactly when it is not already included (by identity), `savedUsers` stays free of duplicates, and `done(null, user)` is called |
| Passport.AppendIfAbsent | src/config/passport.ts:31-33 | the list after one verify callback; specified by AppendIfAbsentKeepsDistinct, and Verify's new `savedUsers` is this value |
| Passport.AppendIfAbsentKeepsDistinct | src/config/passport.ts:31-33 | one callback keeps the list duplicate-free, leaves the user in it, and repeating it changes nothing |
| Passport.AfterLoginsSpec | src/config/passport.ts:30-36 | after any sequence of logins the array is duplicate-free, keeps its earlier entries in order, and holds exactly the users seen |
| Passport.SerializeUser | src/config/passport.ts:8-11 | `done(null, expressUser)`; specified by SessionRoundTrip |
| Passport.DeserializeUser | src/config/passport.ts:13-17 | `done(null, expressUser)`; specified by SessionRoundTrip |
| Passport.SessionRoundTrip | src/config/passport.ts:8-17 | serializing and then deserializing a user gives back the same object, without error |

## Left out

- The `passport.authenticate('saml', …)` middleware of both routes (src/server.ts:47, 53) is not modelled: the redirect to the identity provider, the validation of the assertion and its `failureRedirect: '/'` (src/config/config.ts:10) are passport-saml's work, so the model starts after a successful authentication.
- `generateBearerToken` and `parseState` (src/utils.ts:23-33) are not called by the login routes. They depend on `jsonwebtoken` and `JSON.parse`, which are not part of this model.
- `JSON.stringify({ custom: { email: nameID } })` and its UTF-8 encoding are a function parameter (`Server.PayloadEncoder`). JSON escaping is not modelled. Where distinct users must give distinct payloads, the parameter is required to be injective.
- Server.LoginCompleteParameters: the model stops at the string passed to `res.redirect`. Express's escaping of the Location header is not modelled. Neither is the decoding of '+' as a space by query-string parsers, which would alter a token whose payload contains '+'.
- The SAML strategy's configuration and assertion validation, the session middleware, CORS headers, request logging, the `console.info` calls in `serializeUser` and `deserializeUser` (src/config/passport.ts:9, 14), the `/complete` page and the HTTP listener are I/O and framework plumbing.
- Environment variables come in as parameters: the frontend base URL is an `Option<Text>`, where `None` is an unset variable.
- Passport.Profile: only `nameID` is modelled, as a string. Other profile fields are left out, and so is a `nameID` that is not a string.
