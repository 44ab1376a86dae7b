# API.php: a verified model of a minimal PHP REST base class

`API.php` holds one abstract class, `API`. A concrete API extends it with one
public method per endpoint. For every request the class does the following:

- The constructor sends three CORS and content-type headers. It splits the
  rewritten request path into an endpoint, an optional verb and positional
  arguments. It resolves the effective HTTP method, honouring a POST override
  header. It then picks the request parameters that method reads and
  sanitises them with `trim(strip_tags(...))`.
- `processAPI` calls the endpoint's method. It turns a returned value, a
  thrown exception or a missing endpoint into a status and a body.
- `_response` sends the HTTP status line with the phrase of RFC 2616
  section 6.1.1. It JSON-encodes the body and then rewrites every
  `\uXXXX` escape of the JSON text (RFC 8259 section 7) into the UTF-8 bytes
  (RFC 3629 section 3) of its 16-bit value.

The Dafny project models this in eight modules:

| module | file | what it holds |
|---|---|---|
| `Wrappers` | wrappers.dfy | `Option` and `Result` |
| `Php` | php.dfy | the PHP library behaviour the class relies on. `rtrim($s, '/')`, `explode`/`implode`, `trim`, `strip_tags`, `is_numeric`, string truthiness and integer-to-string conversion, as functions with their own lemmas |
| `Sanitizer` | sanitizer.dfy | request values as a recursive datatype, the sanitiser as a specification function, and `_cleanInputs` as a method with a loop over the keys |
| `StatusCatalog` | status_catalog.dfy | the reason-phrase table of `_requestStatus` and the status line |
| `UnicodeEscapes` | unicode_escapes.dfy | UTF-8 encoding; the `\u` post-pass as the code writes it (`RegexUnescape`, computed by the scan `ReplaceUnicodeEscapes` that `_response` runs) and as evidently intended (`JsonUnescape`, computed by the scan `DecodeUnicodeEscapes`) |
| `Request` | request.dfy | the route, the effective method and the payload as pure functions of the request |
| `Dispatcher` | dispatcher.dfy | `processAPI`'s choice of status and body as a pure function of a handler map |
| `RestApi` | rest_api.dfy | the class itself. Its fields are the request properties, the headers sent so far and the log entries written so far. It has a constructor, `ProcessApi` and `Response` |

The host environment becomes parameters of the constructor:

- the rewritten path (`$_REQUEST['request']`);
- the request method;
- the optional `X-HTTP-Method` header;
- the query and form parameters;
- the raw body;
- the server protocol;
- `json_encode`, as a function from values to text.

Each `header()` call appends to the `headers` field. Each `write_log` call
appends a `LogEntry` to the `log` field. A handler is a total function from
the argument list to "returned a value" or "threw (message, code)".

Three consequences of the code are worth stating up front:

- `rtrim` removes only trailing slashes, so a path with a leading slash
  (`/files/process/12`) has the empty endpoint
  (`Request.LeadingSlashGivesEmptyEndpoint`). For the first name of the path
  to become the endpoint, the caller must pass the path without a leading
  slash.
- Sanitising is not idempotent for a leaf whose cleaned form ends in `<`.
  `"x< "` cleans to `"x<"`, and that cleans to `"x"`
  (`Sanitizer.CleanNotIdempotent`). Idempotence is proved for every other
  value (`Sanitizer.SanitizeIdempotent`).
- The missing-endpoint body is the bare string `"No Endpoint: <endpoint>"`,
  not an error object (`Dispatcher.BogusEndpoint`).

The class runs the `\u` post-pass as the code writes it. For text without a
backslash that pass turns `json_encode` output into the literal UTF-8 form
(`UnicodeEscapes.RegexPostPassUndoesEscapingWithoutBackslash`). A backslash
in the text can break it; the corrected pass is modelled beside it, and the
difference is recorded under "## Findings".

## Model

| member | source | states |
|---|---|---|
| `Php.RTrimSlashes` | API.php:53 | the result is a prefix of the input that does not end in '/'; everything removed is '/' |
| `Php.RTrimSlashesAppended` | API.php:53 | appending any run of '/' to a string does not change its right-trimmed form |
| `Php.Explode` | API.php:53 | at least one piece; no piece holds the separator; joining the pieces with it gives the input back |
| `Php.ExplodeImplode` | API.php:53 | splitting the join of separator-free parts gives exactly those parts (explode and implode are inverse) |
| `Php.Trim` | API.php:143 | neither end of the result is a trim character, and the result is no longer than the input |
| `Php.TrimIsSlice` | API.php:143 | what `trim` keeps is one contiguous slice of its input, and everything cut off before or after it is a trim character |
| `Php.TrimOfTrimmed` | API.php:143 | text with no trim character at either end is its own `trim` |
| `Php.StripTags` | API.php:143 | the result is no longer than the input and is plain text: no NUL byte, and every '<' followed by whitespace |
| `Php.StripTagsLeavesPlainText` | API.php:143 | at every nesting level, what `strip_tags` keeps holds no NUL byte and no '<' that could open a tag |
| `Php.StripTagsOfPlainText` | API.php:143 | text without NUL bytes in which every '<' is followed by whitespace passes `strip_tags` unchanged |
| `Php.StripTagsDropsNul` | API.php:143 | a NUL byte in text is removed: "a\0b" becomes "ab" |
| `Php.IsNumeric` | API.php:57 | the empty string is not numeric |
| `Php.DigitsAreNumeric` | API.php:57 | every non-empty run of decimal digits is numeric, so such a segment is an argument and never a verb |
| `Php.NumericWithSpace` | API.php:57 | " 42 " is numeric: whitespace may surround the number |
| `Php.NumericSignedFraction` | API.php:57 | "-1.5" is numeric: a sign and a fraction are accepted |
| `Php.NumericBarePoint` | API.php:57 | ".5" and "1." are numeric: one digit on either side of the point is enough |
| `Php.NumericExponent` | API.php:57 | "2e-3" is numeric: a signed exponent is accepted |
| `Php.NotNumericWithoutDigits` | API.php:57 | "." and "abc" are not numeric, so either one is shifted as a verb |
| `Php.NotNumericDanglingExponent` | API.php:57 | "1e" is not numeric: an exponent needs digits |
| `Php.NotNumericHex` | API.php:57 | "0x1A" is not numeric: hexadecimal is refused |
| `Php.NotNumericTwoNumbers` | API.php:57 | "1 2" is not numeric: space may not appear inside the number |
| `Php.DecimalRoundTrip` | API.php:123 | the decimal digits of a natural number read back as that number |
| `Php.Truthy` | API.php:111 | a truthy string is non-empty, and every string of two or more bytes ("00" included) is truthy |
| `Php.IntToString` | API.php:123 | the string form of an integer has no leading zero and reads back as the integer, after a '-' when it is negative |
| `Request.Segments` | API.php:53 | the segments of the path hold no '/' and join back into the right-trimmed path |
| `Request.ParsePath` | API.php:53-59 | endpoint, shifted verb and arguments are the path's segments in order and join back into the right-trimmed path; a verb is shifted exactly when a second segment exists and is not numeric |
| `Request.EndpointIsFirstSegment` | API.php:53-55 | the endpoint is the right-trimmed path up to its first '/'; an empty path gives the empty endpoint |
| `Request.ParseJoinedSegments` | API.php:53-59 | for any '/'-free segments whose last one is non-empty, the route of their join is first segment, then verb exactly when the second is not numeric, then the rest |
| `Request.ParseWithVerb` | API.php:53-59 | "files/process/12" gives endpoint "files", verb "process", arguments ["12"] |
| `Request.ParseNumericSecondSegment` | API.php:57 | "files/12" shifts no verb and keeps "12" as the first argument |
| `Request.ParseEmptyVerb` | API.php:57-58 | in "a//b" the empty second segment is not numeric and becomes the verb |
| `Request.EndpointTextMayRecurInArgs` | API.php:55-58 | endpoint and verb leave the arguments by position only: "a/1/a" has the argument "a" |
| `Request.TrailingSlashesIgnored` | API.php:53 | appending any number of '/' to the path leaves the route unchanged |
| `Request.LeadingSlashGivesEmptyEndpoint` | API.php:53-55 | a path that starts with '/' has the empty endpoint |
| `Request.EffectiveMethod` | API.php:61-72 | the request fails exactly for POST with a header other than DELETE or PUT, with "Unexpected Header"; for POST with an accepted header the method is the header's value; without POST or without a header the method is kept |
| `Request.OverrideExamples` | API.php:64-71 | POST with DELETE gives DELETE, with PUT gives PUT, with anything else fails; GET ignores the header |
| `Request.SelectPayload` | API.php:74-91 | no payload exactly for a method other than DELETE, POST, GET and PUT; an accepted payload has no `request` key; it has a body exactly for PUT, and that body is the raw input |
| `Request.AcceptedPayloadSanitisesSource` | API.php:74-91 | an accepted payload has the keys of the method's source (form for DELETE and POST, query for GET and PUT) except `request`, each value sanitised |
| `Sanitizer.Clean` | API.php:143 | a cleaned leaf is no longer than the input and has no trim character at either end |
| `Sanitizer.Sanitize` | API.php:135-146 | a scalar stays a scalar no longer than before; an array stays an array with exactly its keys |
| `Sanitizer.SanitizeEntries` | API.php:137-141 | sanitising an array keeps exactly its keys |
| `Sanitizer.SanitizeKeepsShape` | API.php:135-146 | the sanitised value has the same keys at every level and the same nesting as the input |
| `Sanitizer.SanitizeCleansLeaves` | API.php:135-146 | at every key path the sanitised value holds a leaf exactly where the input does, and it is `trim(strip_tags(the input's leaf))` |
| `Sanitizer.NoLeafHasEdgeWhitespace` | API.php:143 | no leaf of a sanitised value starts or ends with a trim character |
| `Sanitizer.CleanIdempotent` | API.php:143 | cleaning a cleaned leaf changes nothing unless the cleaned leaf ends in '<' |
| `Sanitizer.CleanNotIdempotent` | API.php:143 | "x< " cleans to "x<", which cleans to "x" |
| `Sanitizer.SanitizeIdempotent` | API.php:135-146 | sanitising twice is sanitising once when no sanitised leaf ends in '<' |
| `Sanitizer.CleanInputs` | API.php:135-146 | the loop over the keys with its recursive calls returns exactly the sanitised value |
| `StatusCatalog.StatusTable` | API.php:150-192 | an entry exists only for codes from 100 to 505, and it is a non-empty phrase |
| `StatusCatalog.TableHoldsListedCodes` | API.php:150-192 | the table has an entry exactly for the 41 codes of RFC 2616 section 6.1.1 (with 306), and every entry is a truthy phrase |
| `StatusCatalog.RequestStatus` | API.php:193 | the phrase is never empty; a listed code gets its own entry; every other code gets "Internal Server Error" |
| `StatusCatalog.InternalServerErrorExactly` | API.php:186-193 | "Internal Server Error" is returned for 500 and for the unlisted codes, and for no other code |
| `StatusCatalog.RequestStatusExamples` | API.php:166-173 | 403 is "Forbidden", 404 "Not Found", 405 "Method Not Allowed", 306 "(Unused)", 0 "Internal Server Error" |
| `StatusCatalog.StatusLine` | API.php:123 | the line starts with the protocol and a space and ends with a space and the status's phrase |
| `StatusCatalog.StatusLineSpellsCode` | API.php:123 | between those two spaces the line holds the status code in decimal |
| `Dispatcher.ErrorMessage` | API.php:111 | the error text is never empty: the exception's message when truthy, else the phrase of its code |
| `Dispatcher.ErrorStatus` | API.php:113 | the error status is never 0: the exception's code when non-zero, and 500 for code 0 |
| `Dispatcher.Dispatch` | API.php:97-117 | the status is never 0; no handler gives 404 with the bare string "No Endpoint: " + endpoint; a returning handler gives 200 with its value |
| `Dispatcher.ThrownErrorReply` | API.php:106-114 | a throwing handler gives the code or 500 and an object with the single key "error", holding the message when truthy and the code's phrase otherwise |
| `Dispatcher.NotFoundExactlyWithoutHandler` | API.php:97-117 | unless a handler itself throws 404, the status is 404 exactly when no handler exists |
| `Dispatcher.BogusEndpoint` | API.php:117 | endpoint "bogus" without a handler gives 404 and "No Endpoint: bogus" |
| `Dispatcher.ForbiddenAction` | API.php:109-114 | a handler throwing ("Forbidden action", 403) gives 403 with that message |
| `Dispatcher.EmptyError` | API.php:109-114 | a handler throwing ("", 0) gives 500 with "Internal Server Error" |
| `Dispatcher.ZeroMessageIsFalsy` | API.php:111 | the message "0" is falsy, so code 404 reports "Not Found" instead |
| `UnicodeEscapes.HexDigit` | API.php:128 | the digit written for a value below 16 is a hex digit that reads back as that value |
| `UnicodeEscapes.Hex4` | API.php:128 | the four hex digits of a 16-bit value read back (`pack('H*', ...)`) as that value |
| `UnicodeEscapes.Utf8` | API.php:128 | the UTF-8 form of a 16-bit value is 1 byte below 0x80, 2 below 0x800, else 3, each below 0x100 |
| `UnicodeEscapes.Utf8RoundTrip` | API.php:128 | decoding the UTF-8 bytes of a 16-bit value gives the value back |
| `UnicodeEscapes.RegexUnescape` | API.php:127-129 | the post-pass as written never lengthens the text: each six-byte escape becomes at most three bytes |
| `UnicodeEscapes.JsonUnescape` | API.php:127-129 | the corrected post-pass never lengthens the text either |
| `UnicodeEscapes.NoEscapeUnchanged` | API.php:127-129 | text holding no backslash-u-hex4 run comes out of either post-pass unchanged |
| `UnicodeEscapes.RegexAgreesWithoutDoubleBackslash` | API.php:127-129 | on text without an escaped backslash the post-pass as written equals the intended one |
| `UnicodeEscapes.ReplaceUnicodeEscapes` | API.php:127-129 | the scan `preg_replace_callback` performs returns the post-pass as written: each backslash-u-hex4 match becomes its UTF-8 bytes, every other byte is copied in order |
| `UnicodeEscapes.DecodeUnicodeEscapes` | API.php:127-129 | the corrected scan returns the intended post-pass: escapes are read whole, so a `\\` pair is copied and only real `\u` escapes are decoded |
| `UnicodeEscapes.IntendedPostPassUndoesUnicodeEscaping` | API.php:125-129 | for every string of BMP text characters, the corrected post-pass of its `json_encode` is the same JSON string with non-ASCII characters as UTF-8 |
| `UnicodeEscapes.EncodeCharsSingleBackslashes` | API.php:125 | for text without a backslash, every backslash `json_encode` writes is followed by a byte other than a backslash |
| `UnicodeEscapes.RegexPostPassUndoesEscapingWithoutBackslash` | API.php:125-129 | for every string of BMP text characters without a backslash, the post-pass as written of its `json_encode` is the same JSON string with non-ASCII characters as UTF-8 |
| `UnicodeEscapes.EncodeString` | API.php:125 | `json_encode` of a string starts and ends with a double quote |
| `UnicodeEscapes.EncodeCharsIsAscii` | API.php:125 | what `json_encode` writes inside the quotes is pure ASCII: every non-ASCII character is escaped, which is why the post-pass exists |
| `UnicodeEscapes.EncodeBackslashU0041` | API.php:125 | `json_encode` writes the PHP string `\u0041` (a backslash, then "u0041") as "\\u0041" |
| `UnicodeEscapes.RegexDecodesAfterEscapedBackslash` | API.php:127-129 | the regex post-pass turns "\\u0041" into "\A" |
| `UnicodeEscapes.RegexPostPassCorruptsEscapedBackslash` | API.php:125-129 | for that string the post-pass as written no longer spells the encoded string, while the intended one does |
| `UnicodeEscapes.AccentLiteral` | API.php:128 | "é" spelled as a JSON string with UTF-8 is the bytes C3 A9 between quotes |
| `UnicodeEscapes.AccentExample` | API.php:125-129 | the post-pass as written turns the encoding of "é" into the bytes C3 A9 between quotes |
| `RestApi.SplitRequestPath` | API.php:53-59 | the two shifts leave endpoint, verb ("" when none is shifted) and arguments as `ParsePath` gives them |
| `RestApi.ResolveMethod` | API.php:61-72 | the method and the thrown exception are those of `EffectiveMethod` |
| `RestApi.LoadPayload` | API.php:74-91 | payload, body and the 405 decision are those of `SelectPayload`; an unknown method leaves payload and body empty |
| `RestApi.Api.constructor` | API.php:47-92 | the three headers are sent first; the route fields are as parsed; a bad override header leaves the exception and no payload; otherwise the method is the effective one, and an unknown method adds the 405 status line while a known one sets the payload and the body |
| `RestApi.Api.Response` | API.php:121-132 | exactly one header is sent, the status line; the result is the post-pass as written (`RegexUnescape`) of the encoded data |
| `RestApi.Api.ProcessApi` | API.php:95-118 | one log entry exactly when a handler exists; one status line for the status of `Dispatch`; the result is the post-pass as written of the encoding of `Dispatch`'s body |

## Left out

- `ini_set` and `error_reporting` (API.php:3-5) have no effect on the modelled logic.
- `header()` and the superglobals are I/O. Headers are recorded in a sequence field; `$_REQUEST`, `$_SERVER`, `$_GET` and `$_POST` are parameters.
- A missing `$_REQUEST['request']` reads as null in PHP, which `rtrim` treats as "". The caller of the model passes "" for it.
- `file_get_contents("php://input")` is I/O. The raw body is a parameter.
- The `Log` class is not part of this model. A log write is recorded as a `LogEntry` with the level, method, endpoint and payload. The JSON text of the log line is not built.
- `json_encode` is a library serialiser. It is the `encode` parameter of the object. Only its escaping of string characters is modelled, and only in `UnicodeEscapes`, for the property of the post-pass.
- `UnicodeEscapes.EncodeChar`: characters below U+0020 and characters outside the Basic Multilingual Plane (which `json_encode` writes as surrogate pairs) are outside the modelled text.
- `UnicodeEscapes.Utf8`: for a surrogate value 0xD800-0xDFFF `mb_convert_encoding` writes a substitute character. The model writes the three-byte form. The two post-passes are stated over any 16-bit value.
- PHP reflection (`method_exists`, `$this->{$this->endpoint}`) becomes a map from endpoint name to handler. Case-insensitive method names and the reachability of the class's own methods (`processAPI`, `_response`, ...) as endpoints are not modelled. Handlers are total and have no side effects.
- A thrown `Exception` from the constructor becomes the `exception` field. `ProcessApi` requires that none was thrown, since PHP never creates the object in that case.
- After the 405 branch PHP goes on to `unset` an undefined property. The model leaves the payload empty and records only the 405 status line. The JSON text that `_response` computes there is discarded by the code and is not kept by the model either.
- PHP arrays are ordered maps whose keys may be integers. The model uses `map<string, Value>`, so key order and integer keys are not modelled.
- `Php.StripTags`: only tag brackets and the removal of NUL bytes are modelled. The quote, comment, `<?` and `<!` states of `strip_tags` and its allowed-tags argument are not.
- `Php.IsNumeric`: follows PHP 8, with optional leading and trailing whitespace, a sign, digits with an optional decimal point and an optional exponent. Hexadecimal, octal, binary and `INF`/`NAN` forms are not numeric in PHP 8 either.
- Integers are unbounded. PHP's 64-bit integers only matter for status codes, which are small.

## Findings

| source | as written | input that shows it | evidently intended | confidence | as-written member | corrected member |
|---|---|---|---|---|---|---|
| API.php:127-129 | the pattern backslash-u-hex4 also matches at the second backslash of an escaped backslash, so the post-pass decodes text that `json_encode` wrote as a literal backslash followed by `u0041` | the PHP string `\u0041` (a backslash, then "u0041"): `json_encode` writes "\\u0041", and the post-pass turns it into "\A", which is no longer the encoded string | decode only real `\u` escapes and copy every other two-byte escape such as `\\` whole | not executed | `UnicodeEscapes.RegexPostPassCorruptsEscapedBackslash` | `UnicodeEscapes.IntendedPostPassUndoesUnicodeEscaping` |
