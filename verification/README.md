# Pudu Cloud request signing, in Dafny

This project models the request-signing engine of `PuduClient`, the client of
the Pudu Open Platform robot API. Every request is signed with HMAC-SHA1. The
client builds a six-line signing string from these fields:

- the `x-date` header;
- the upper-cased method;
- the two media types;
- a content digest, which is base 64 of the hex MD5 of the compact JSON body,
  and only for `POST`;
- a signed path, which is the URL path without its environment prefix plus the
  normalised query.

It then sends the key and the base 64 MAC in an `Authorization` header, beside
`Host`, `Accept`, `Content-Type` and `x-date`. The server recomputes the same
string, so every byte of it matters.

The model is functional. Strings are `seq<char>` and bytes are a `byte` subset
type. The clock, the HTTP transport and the hash primitives are parameters:

- `now` is a `DateTime`;
- `network` is a function from the prepared `Dispatch` to a `Response`;
- MD5 and HMAC-SHA1 are fields of `Signing.Primitives`, known only by their
  16- and 20-byte output lengths.

The Python library functions the code relies on are modelled in their own
modules, each with an inverse or a reference definition proved against it:

| module | models |
|---|---|
| `Text` | `join`, `split`, `split(c, 1)`, `replace`, `rstrip`, `startswith`, `upper` |
| `Ordering` | `sorted` on keys |
| `Query` | `parse_qs` and the normaliser |
| `Utf8` | `encode("utf-8")` |
| `Hex` | `hexdigest` |
| `Base64` | `b64encode` |
| `Decimal` | `str(int)` and `%02d` |
| `Json` | `json.dumps(..., separators=(",", ":"))` |
| `JsonParse` | reading compact JSON back (section 2 of RFC 8259, without whitespace), the inverse of `Json` |
| `HttpDate` | `strftime("%a, %d %b %Y %H:%M:%S GMT")` |

Errors are the values of `Errors.Error`, one per exception the code raises.

The code departs from what its own validation suggests in one place, and the
model follows the code. `__init__` (pudu_client.py:24-32) tests `base_url` for emptiness before it strips trailing
slashes. So a base URL made only of slashes is accepted and leaves an empty base
URL behind (`Client.SlashOnlyBaseUrl`).

Query normalisation is not idempotent in general. A bare empty key beside other
keys breaks it: `=&a=1` normalises to `&a=1`, because the piece `=` gives the
key `""` with a blank value, which renders as the empty text, and `&a=1` then
normalises to `a=1` (`QueryExamples.EmptyKeyNotIdempotent`). `Query.NormalizeIdempotent` therefore assumes that no bare
empty key occurs (`Query.NoBareEmptyKey`). That condition is sufficient, not
necessary: `=` alone normalises to the empty query, which is its own
normalisation (`QueryExamples.LoneEmptyKey`).

## Model

| member | source | states |
|---|---|---|
| Client.NewClient | pudu_client.py:23-32 | construction fails, with the missing-credentials error, exactly when the key, the secret or the base URL is empty; the key and secret are kept; the stored base URL is the given one with its trailing run of `/` removed and no longer ends in `/` |
| Client.SlashOnlyBaseUrl | pudu_client.py:24-32 | a base URL of `/` passes validation and is stored as the empty string, because the test comes before the strip |
| Text.Upper | pudu_client.py:332 | `method.upper()` for ASCII letters: same length, no lower-case ASCII letter left, each lower-case letter replaced by its upper-case form and every other character kept |
| Text.UpperIdempotent | pudu_client.py:332 | upper-casing an upper-cased method changes nothing |
| Client.BodyJson | pudu_client.py:333-356 | the body text is ASCII, braced as an object, is exactly `{}` when the body is missing or empty, and reads back as a JSON document to the body, a missing one as the empty object |
| Signing.HasEnvironmentPrefix | pudu_client.py:340 | a path that passes the environment test starts with `/` and has at least five characters, so dropping its first character is defined |
| Signing.PrefixTestExtends | pudu_client.py:340 | the test looks only at the front of the path: a matching path still matches whatever follows it |
| Signing.PrefixTestExamples | pudu_client.py:340 | the test is on characters, not segments: `/testing/robots` and `/release/v1` match, while `/tes`, `test/x` and `/api/test` do not |
| Signing.PathOrRoot | pudu_client.py:337 | the signed path's base is never empty: the URL path itself when there is one, and `/` exactly for an empty or root path |
| Signing.StripEnvironmentPrefix | pudu_client.py:337-341 | a path without the `/release`, `/test`, `/prepub` prefix is unchanged; a prefixed path fails with the malformed-path error exactly when it has no `/` after its first character; otherwise the result is the suffix of the path starting at its second `/`, so only the first segment is lost |
| Signing.SigningPath | pudu_client.py:337-347 | an empty URL path signs as `/`; the strip error is passed on; the result starts with the stripped path and is either that path alone or that path, `?` and the normalised query; for a path without `?`, the result contains `?` exactly when the query and its normalisation are both non-empty |
| Signing.SigningPathAvoids | pudu_client.py:337-347 | the signed path holds no character absent from the URL's path and query other than `/`, `?`, `=`, `,`, `&` and space |
| Signing.ContentMd5 | pudu_client.py:351-358 | the digest is empty for every method but `POST`; for `POST` it is 44 characters of padded base 64, and it is the only text that decodes as base 64 to the UTF-8 bytes of the hex MD5 of the body, so those bytes fix every character |
| Signing.ContentMd5Recovers | pudu_client.py:356-358 | decoding the `POST` digest as base 64, then as UTF-8, then as hex gives back the MD5 of the body's UTF-8 bytes |
| Signing.SigningString | pudu_client.py:361-373 | the string starts with `x-date: `; when no field holds a line feed, splitting it at line feeds gives exactly the six lines date, method, two media types, digest, path, in that order |
| Signing.Signature | pudu_client.py:376-381 | the signature is 28 characters of padded base 64 that decode to the HMAC-SHA1 of the signing string's UTF-8 bytes under the secret's UTF-8 bytes, and no other text decodes to that MAC, so the MAC fixes every character sent |
| Signing.Authorization | pudu_client.py:383-388 | reading the Authorization header back gives exactly the key and the 28-character signature that were put in, whatever characters the key holds |
| Signing.ParseAuthorizationSound | pudu_client.py:383-388 | a header value from which a key and signature are read is exactly the header written for them, with a 28-character signature |
| Signing.HostOrEmpty | pudu_client.py:391 | the Host value is empty exactly when `urlparse` found no host name or an empty one, and otherwise is that host name |
| Signing.Headers | pudu_client.py:390-396 | the header names are exactly Host, Accept, Content-Type, x-date, Authorization in that order; Host carries the host name or `""`; each other header carries the value given for it |
| Client.Prepare | pudu_client.py:332-403 | preparation fails exactly when the strip fails or the upper-cased method is neither `GET` nor `POST`; the strip error comes first, then the unsupported-method error naming the upper-cased method; on success the dispatch URL is the given URL untouched, the dispatch is a `GET` exactly for `GET`, a `POST` carries the body text, and the headers are the five of the header map with the formatted date |
| Client.SignatureCoversRequest | pudu_client.py:332-401 | for a URL as `urlparse` splits it, the Authorization header of a prepared request names the client's key and carries a signature that decodes to the HMAC-SHA1, under the secret, of a string whose six lines are the `x-date` header sent, the method, the two media types, the digest of the content sent (empty for `GET`) and the signed path |
| Client.Classify | pudu_client.py:405-415 | a status outside 200-299 is an error carrying the status and the body text; a successful JSON answer is returned as parsed; a successful non-JSON answer becomes the object with `raw` set to the text and `status_code` set to the status |
| Client.Request | pudu_client.py:398-415 | only composes `Client.Prepare` and `Client.Classify`: a preparation error is passed on, and otherwise the network's answer to the prepared dispatch is classified; its end-to-end meaning is stated by `Client.RequestOutcome` |
| Client.RequestOutcome | pudu_client.py:332-415 | for every network, a request fails exactly when the strip fails, the upper-cased method is neither `GET` nor `POST`, or the server answers the prepared dispatch outside 200-299; the strip error comes first, then the unsupported-method error; the upstream error occurs exactly for a non-2xx answer and carries its status and text; a success is a 2xx answer, returned as parsed when it is JSON; the dispatch goes to the given URL, is a `GET` exactly for `GET`, and, for a URL as `urlparse` splits it, is signed for the method and the signed path, which holds `?` exactly when the URL has a query that does not normalise to the empty text |
| Client.FailedPreparationSendsNothing | pudu_client.py:340-403 | when preparation fails, the outcome is the same whatever the network would answer, so nothing is sent |
| Query.ParsePiece | pudu_client.py:430 | a piece is split at its first `=` into name and value, a piece without `=` gives a blank value, and `+` reads as a space in both halves |
| Query.ParsePieces | pudu_client.py:430 | the pieces give exactly one pair per non-empty piece, in order, each parsed on its own; no more pairs than pieces |
| Query.ParseQuery | pudu_client.py:430 | the pairs are exactly one per non-empty `&`-separated piece of the query, in order, each piece parsed on its own; no parsed name holds `&`, `=` or `+` and no value holds `&` or `+`; the empty query parses to nothing |
| Query.Group | pudu_client.py:430-434 | the grouped keys are strictly ascending, so each appears once, and they are exactly the parsed query's keys; each key carries its non-blank values in their original order |
| Query.Render | pudu_client.py:440 | no entries render as the empty text; when no entry text holds `&`, splitting the rendering at `&` gives back the entry texts in order |
| Query.NormalizeQuery | pudu_client.py:427-440 | for every query: an empty query, or one without any non-empty piece, normalises to the empty text; otherwise splitting the result at `&` gives exactly the entry texts of the grouped parse, one per key in ascending order, so the text is determined for every query, a bare empty key included; when no bare empty key occurs, the normalised query also parses back to one pair per key carrying that key's non-blank values joined with `,` |
| Query.EntryText | pudu_client.py:435-438 | an entry with no non-blank value is written as the bare key, without `=`; otherwise as the key, `=` and the values joined with `,` |
| Query.ValuesOf | pudu_client.py:430 | a value is collected for a key exactly when some pair named by that key carries it, and there are no more values than pairs |
| Query.ValuesOfAppend | pudu_client.py:430 | the values of earlier pairs come before those of later pairs, so values keep their order of appearance |
| Query.NonBlank | pudu_client.py:434 | a value is kept exactly when it is one of the given values and is not empty, and no more values are kept than given; with `Query.NonBlankAppend` this fixes the kept list exactly |
| Query.NonBlankAppend | pudu_client.py:434 | dropping blanks keeps the remaining values in their order |
| Query.NormalizeIdempotent | pudu_client.py:427-440 | normalising a normalised query changes nothing, when the query has no bare empty key |
| Query.SameGroupingSameNormal | pudu_client.py:430-440 | two parses with the same keys and the same values per key normalise alike |
| Query.SwapDistinctKeys | pudu_client.py:430-440 | swapping two adjacent pieces with different keys does not change the normalised query |
| Query.NormalizeAvoids | pudu_client.py:427-440 | the normalised query holds no character absent from the query other than space, `=`, `,` and `&` |
| QueryExamples.BareKey | pudu_client.py:435-438 | a key `k` without `=`, `&` or `+` given only a blank value (`k=`) normalises to the bare `k` |
| QueryExamples.MergedValues | pudu_client.py:430-438 | two pieces with the same plain key and non-blank values `v1`, `v2` normalise to `k=v1,v2`, values in their original order |
| QueryExamples.SortedKeys | pudu_client.py:430-440 | for plain keys `a` before `b`, `b=vb&a=va&a=` normalises to `a=va&b=vb`: the blank value is dropped and the keys are sorted |
| QueryExamples.EmptyKeyNotIdempotent | pudu_client.py:427-440 | for a plain key `k` and value `v`, `=&k=v` normalises to `&k=v`, which normalises to `k=v`: normalising twice differs from normalising once |
| QueryExamples.LoneEmptyKey | pudu_client.py:427-440 | `=` normalises to the empty query, and normalising again changes nothing |
| QueryExamples.EmptyKeyExample | pudu_client.py:427-440 | `=&a=1` normalises to `&a=1`, and `&a=1` normalises to `a=1` |
| QueryExamples.BareKeyExample | pudu_client.py:437-438 | `d=` normalises to `d` |
| QueryExamples.MergedExample | pudu_client.py:433-436 | `c=1&c=2` normalises to `c=1,2` |
| QueryExamples.SortedExample | pudu_client.py:433-440 | `b=2&a=1&a=` normalises to `a=1&b=2` |
| Ordering.SortUnique | pudu_client.py:433 | the sorted keys are strictly ascending and are exactly the given keys |
| Ordering.AscendingUnique | pudu_client.py:433 | two strictly ascending sequences with the same elements are equal, so the sorted key order is the only one |
| Ordering.LessTotal | pudu_client.py:433 | any two different keys are ordered one way or the other |
| Text.Join | pudu_client.py:364-373 | joining no parts gives the empty text, and a join of parts begins with the first part; `Text.SplitJoin` makes it the inverse of splitting |
| Text.JoinSplit | pudu_client.py:364-373 | joining the pieces of a split with its separator gives back the string |
| Text.Split | pudu_client.py:430 | `str.split` on one character gives at least one piece and no piece holds the separator; `Text.JoinSplit` makes joining the pieces give back the string |
| Text.SplitJoin | pudu_client.py:364-373 | splitting a join of separator-free parts gives back the parts |
| Text.SplitOnce | pudu_client.py:341 | `split(c, 1)` yields a pair exactly when `c` occurs; the string is the head, `c` and the tail, and the head lacks `c` |
| Text.RStrip | pudu_client.py:32 | the result is a prefix of the input that does not end in the character, and everything removed is that character |
| Utf8.Encode | pudu_client.py:357 | the UTF-8 encoding has between one and four bytes per character, and no byte is 0xF5 or above |
| Utf8.DecodeEncode | pudu_client.py:357-378 | decoding the UTF-8 encoding of any string gives the string back |
| Utf8.EncodeAscii | pudu_client.py:358 | an ASCII string encodes to one byte per character, each its code |
| Hex.DecodeEncode | pudu_client.py:357 | decoding the lower-case hex of any bytes gives the bytes back |
| Hex.Encode | pudu_client.py:357 | the hex text is twice as long as the bytes and made only of lower-case hex digits |
| Base64.Encode | pudu_client.py:358-381 | the encoding is 4 characters per started 3-byte group and is correctly padded |
| Base64.DecodeEncode | pudu_client.py:358-381 | decoding the base 64 of any bytes gives the bytes back |
| Base64.EncodeDecode | pudu_client.py:358-381 | any text the decoder accepts is the encoding of what it decodes to, because the decoder refuses non-zero bits before the padding |
| Base64.DecodeInjective | pudu_client.py:358-381 | two texts that decode to the same bytes are the same text |
| Base64.OnlyEncodingDecodes | pudu_client.py:358-381 | a text decodes to some bytes exactly when it is their encoding, so the encoder's output is fixed by the bytes |
| Base64.NonZeroPadBitsRefused | pudu_client.py:358 | `QR==`, whose unused bits are not zero, is refused, while `A` encodes as `QQ==` |
| Json.EscapeChar | pudu_client.py:356 | an escaped character is ASCII; it stays itself exactly when it is printable ASCII other than `"` and `\`, and is otherwise a backslash escape |
| Json.Serialize | pudu_client.py:356 | the compact JSON text is pure ASCII, so its UTF-8 bytes are one per character |
| JsonParse.EscapeRoundTrip | pudu_client.py:356 | every backslash escape written for a character, including a `\u` surrogate pair beyond the Basic Multilingual Plane, reads back as that character and leaves what follows |
| JsonParse.ParseCharsEscape | pudu_client.py:356 | the escaped characters of any string, then the closing quote, read back as exactly that string, whatever text follows |
| JsonParse.ParseIntToString | pudu_client.py:356 | the decimal text of any integer, negative ones included, reads back as that number when a delimiter or nothing follows |
| JsonParse.ParseSerialize | pudu_client.py:356 | reading a value from the compact text of any body, followed by a delimiter or nothing, gives the body and leaves exactly what followed |
| JsonParse.ParseOfSerialize | pudu_client.py:356 | the compact text of any body parses, as a whole document, to that body |
| JsonParse.SerializeInjective | pudu_client.py:356 | two bodies with the same compact text are equal, so the hashed text determines the body |
| HttpDate.Format | pudu_client.py:361 | a date with a four-digit year formats to exactly 29 characters |
| HttpDate.ParseFormat | pudu_client.py:361 | reading a formatted date back gives the date |
| HttpDate.NextDayOrdinal | pudu_client.py:361 | the day after a date has the next ordinal and the next weekday, so the weekday name follows the calendar |
| HttpDate.FormatSingleLine | pudu_client.py:361-366 | a formatted date holds no line feed, so it fills exactly one line of the signing string |
| HttpDate.ReferenceDateFormat | pudu_client.py:361 | 2 January 2006 15:04:05 formats as `Mon, 02 Jan 2006 15:04:05 GMT` |
| Decimal.NatToString | pudu_client.py:361 | the decimal text of a number is digits only, without a leading zero, and denotes the number |

## Left out

- `main.py` is not part of this model. It holds the web routes and the schemas around the client.
- The per-endpoint wrappers, from `health_check` to `recharge_v2`, are left out. They only build a URL and call `_request`.
- The HTTP transport is a parameter, `network` in `Client.Request`, which always answers. It stands for the async `httpx` client and the network. Timeouts (the client's 10-second limit) and connection failures are not modelled: the program raises them as `httpx` exceptions out of `_request`, and the model cannot produce that outcome. `close()` is left out too.
- The clock is a parameter, `now` in `Client.Prepare`.
- `urlparse` is not modelled. The caller passes the host name, path and query of the URL as `Client.UrlParts`, and the URL itself travels untouched to the dispatch. `Client.FromUrlParse` records what the signature lemma assumes about `urlparse`: its parts hold no line feed, and the path holds no `?`.
- Percent-decoding is not modelled. Neither the `unquote` of the query before normalisation nor the one inside `parse_qs` is modelled, and both act as the identity. The `+`-to-space step of `parse_qs` is modelled.
- `Client.SignatureCoversRequest`: the six-line layout holds only because percent-decoding is not modelled. The program signs the percent-decoded query (pudu_client.py:345), so a query holding `%0A` puts a real line feed into the signed path, and the program's signing string then has seven lines. Such queries are outside this lemma's promise.
- `Query.ParseQuery`: does not model percent-decoding, so a query holding `%` escapes parses to its escaped text.
- `Utf8.Encode`: never fails. A Dafny `char` is a Unicode scalar value, while a Python `str` can hold a lone surrogate; a secret read from the environment with undecodable bytes holds one. For such a string, encoding the secret, the signing string or the body raises `UnicodeEncodeError` (pudu_client.py:357, 377 and 378). That error path is not modelled, so `Signing.Signature` and `Signing.ContentMd5` always succeed.
- MD5, SHA-1 and HMAC are uninterpreted fields of `Signing.Primitives`, with only their output lengths known.
- `Text.Upper`: upper-cases ASCII letters only. Python's `str.upper` also maps non-ASCII letters and can lengthen a string, as with `ß`. Outside ASCII the model keeps the character.
- `Json.Serialize`: covers null, booleans, integers, strings, arrays and objects. Floats are not modelled, and neither is the order of keys beyond the order given.
- `HttpDate.Format`: renders years below 1000 without padding. The 29-character length is promised only for four-digit years, which are the only ones the clock produces in practice.
- The response body is given already parsed, as `Response.json`. `JsonParse` reads back only the compact text `Json.Serialize` writes; whitespace, fractions and exponents, which a response may hold, are refused.
- The text of the `RuntimeError` is left out. The error keeps the status and the body text as fields instead.
