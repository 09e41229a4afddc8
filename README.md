# A Dafny model of the xss request sanitiser

The Go package `xss` is gin middleware that strips markup from the user-supplied
text of an HTTP request and writes the request body back in its original
encoding. A `Defender` holds a list of skip fields (names that are never
sanitised) and a bluemonday policy. `XssRemove` picks a handler from the
method, `Content-Type` and `Content-Length`:

- a JSON body is decoded and re-serialised by hand (`ConstructJson`,
  `buildJsonApplyPolicy`, `unravelSlice`, `jsonToStringMap`);
- a URL-encoded form is re-encoded from its parsed fields;
- a multipart form is re-framed part by part;
- a GET query is rewritten in place.

This project models that core: the Defender and its options, the routing
decision, and the four re-encoders. Each re-encoder is a method that builds its
output in a loop, as the Go code does, and is proved equal to a recursive
function of the configuration and the input. Lemmas about those functions state
what the output looks like.

Modules, one file each:

- `Values` (`values.dfy`): the decoded JSON tree and the codec outcomes.
- `Foreign` (`foreign.dfy`): the library functions the code calls, as function
  values.
- `Text` (`text.dfy`): joining, the `Truncate(Len()-1)` idiom, and
  `strings.Index`.
- `Options` (`options.dfy`): the Defender's configuration and option.go.
- `JsonCodec`, `FormCodec`, `MultipartCodec`: what each handler writes, as
  functions, and lemmas about the results.
- `Dispatch` (`dispatch.dfy`): the routing in `XssRemove`.
- `Query` (`query.dfy`): the `url.Values` map that `HandleGETRequest`
  rewrites.
- `Xss` (`defender.dfy`): the `Defender` class. Its fields are `skipFields` and
  `policy`. It has the two constructors, the option closures and the loop-based
  handlers.

How the model stands in for things outside the package:

- **The policy.** bluemonday's `Sanitize` is the Defender's field
  `policy: string -> string`. The multipart handler calls a fresh
  `bluemonday.StrictPolicy()` instead, so it is a separate function,
  `Lib.strictSanitize`.
- **Other library calls.** `strconv.Quote`-style quoting (`Lib.quote`), fmt's
  `%q` of a decoded array or object (`Lib.formatQ`) and `url.QueryEscape`
  (`Lib.queryEscape`) are function values in a `Lib` record. fmt's `%q` of a
  skipped key's value is `JsonCodec.SkipText`. A string is quoted with
  `Lib.quote`, and so is a `json.Number`, because it has a `String` method. fmt
  has no `%q` for nil or a bool, so it writes its bad-verb text: `%!q(<nil>)`,
  `%!q(bool=true)` or `%!q(bool=false)`. None of these is valid JSON. Arrays and
  objects go through `Lib.formatQ`. Every method and
  function that needs them takes that record as a parameter. No property
  depends on what those functions compute.
- **Decoded input.** A decoded JSON object is a sequence of (key, value)
  pairs in whatever order Go's map iteration visits them. The same holds for
  the fields of a parsed form. Every property is proved for any such order.
- **Bytes.** Go strings and byte buffers are all `string`, one character per
  byte.

## Behaviour of the code worth knowing

These are facts of the Go code that the model keeps:

- An empty JSON object is written as `}`, not `{}`, because `Truncate` removes
  the opening brace (`ConstructJsonShape`). An empty nested array likewise
  becomes `]`.
- The multipart handler ignores the configured skip fields and the configured
  policy. It exempts only the literal name `password` and always sanitises with
  the strict policy.
- The GET rewriter does not keep every value of a key that is not skipped.
  `Set` inside the loop overwrites, so only the sanitised last value remains.
- When a content type has no `boundary=`, `strings.Index` returns -1, so the
  boundary is the content type from position 8 onward. A content type shorter
  than 8 characters would make the slice panic; the model returns
  `BoundaryOutOfRange` for it.
- A top-level JSON array that holds a non-object panics in a type assertion.
  The model returns the error `NonObjectElement`.

## Model

| member | source | states |
|---|---|---|
| `Options.Apply` | option.go:7-16 | SetSkipFields replaces the skip list with exactly its arguments and keeps the policy; SetPolicy replaces the policy and keeps the skip list |
| `Options.ApplyAll` | xss.go:33-35 | the configuration after running the option closures left to right, each on what the earlier ones left |
| `Options.ApplyAllSnoc` | xss.go:33-35 | applying one more option after a list is applying it to the configuration the list produced |
| `Options.ApplyAllLastWriterWins` | xss.go:31-37 | after the options run left to right, each field holds what the last option touching it set, or its initial value if none did |
| `Options.DefaultSkipFieldsArePassword` | xss.go:26-29 | DefaultDefender's skip list is exactly ["password"] whatever options are passed; its policy is the last SetPolicy among them, if any |
| `Xss.Defender.NewDefender` | xss.go:31-37 | the new Defender's state is the given policy with an empty skip list, with every option applied in order |
| `Xss.Defender.DefaultDefender` | xss.go:26-29 | a fresh Defender built from the strict policy and the options followed by SetSkipFields("password"); its skip list is ["password"] |
| `Xss.Defender.SetSkipFields` | option.go:7-10 | the skip list becomes exactly the given list; the policy is unchanged |
| `Xss.Defender.SetPolicy` | option.go:13-16 | the policy becomes the given one; the skip list is unchanged |
| `Xss.Defender.ApplyOption` | xss.go:34 | running one option closure changes the state as Options.Apply says |
| `Dispatch.Route` | xss.go:65-87 | JSON exactly for POST/PUT/PATCH with content type application/json and length > 1; form exactly for those methods with the exact form type; multipart exactly for those methods with a type containing multipart/form-data; the query rewriter exactly for GET; nothing otherwise. The length is the value strconv.Atoi returns, whose error is ignored: 0 on a syntax error, the clamped extreme on overflow |
| `Dispatch.FormTypeIsNotMultipart` | xss.go:71-75 | the form content type does not contain the multipart one, so the order of the two tests does not matter |
| `Text.Index` | xss.go:180 | the position of the first occurrence of the pattern, or -1 exactly when there is none |
| `Text.DropTrailingSeparator` | xss.go:121 | writing an opening text, every item followed by a one-character separator, then truncating the last character gives the opening text and the items joined by the separator |
| `JsonCodec.SkipText` | xss.go:322 | fmt's %q of a skipped key's raw value: a string or a json.Number is quoted; nil and a bool become fmt's bad-verb text starting with %!q(; an array or object goes through formatQ |
| `JsonCodec.ValueText` | xss.go:256-286 | what buildJsonApplyPolicy writes for a value before its ',': an object ends in '}' and an array in ']' |
| `JsonCodec.ConstructJson` | xss.go:307-338 | the text of an object: it always ends in '}'; it is longer than one character, and starts with '{', exactly when the object has an entry |
| `JsonCodec.ItemText` | xss.go:291-301 | what unravelSlice writes for one element: an object or a sanitised, quoted string, each with a ','; nothing for any other element |
| `JsonCodec.UnravelSlice` | xss.go:288-305 | the text of a nested array; it always ends in ']' |
| `JsonCodec.EntriesBufferTerminated` | xss.go:311-334 | the loop of ConstructJson writes every entry followed by exactly one ',' |
| `JsonCodec.EntryTextsAt` | xss.go:311-333 | entry i is the raw key in quotes and ':', then fmt's %q of the raw value when the key equals a skip field, and otherwise the value encoded through the policy |
| `JsonCodec.ConstructJsonShape` | xss.go:307-338 | a non-empty object is '{' + its entries joined by ',' + '}' with no trailing comma; an empty object is just '}' |
| `JsonCodec.SkippedObjectIgnoresPolicy` | xss.go:318-330 | an object whose every key is a skip field is written the same under any two policies: its values never reach Sanitize |
| `JsonCodec.SkippedEntriesIgnorePolicy` | xss.go:318-330 | the entries of such an object are written the same under any two policies |
| `JsonCodec.Kept` | xss.go:291-301 | the elements unravelSlice keeps are exactly the objects and strings, never more than the input holds |
| `JsonCodec.ItemsBufferTerminated` | xss.go:291-301 | the loop of unravelSlice writes each object and string, in order and each with one ',', and nothing for any other element |
| `JsonCodec.UnravelSliceShape` | xss.go:288-305 | a nested array is '[' + its kept elements joined by ',' + ']'; with nothing kept it is just ']' |
| `JsonCodec.ObjectsBufferTerminated` | xss.go:115-120 | the array loop of jsonToStringMap writes each object followed by one ',' |
| `JsonCodec.JsonToStringMap` | xss.go:105-126 | the error is "Unknown Content Type Received" exactly for a top-level value that is neither an object nor an array; a non-object array element is an error; the result is Ok exactly for an object or an array of objects |
| `JsonCodec.JsonToStringMapShape` | xss.go:105-126 | a top-level object is written by ConstructJson; a top-level array of objects is '[' + the objects joined by ',' + ']', or ']' when empty; any other top-level value is UnknownContentType |
| `JsonCodec.ResanitizeIsStable` | xss.go:256-305 | with an idempotent policy, replacing every string and number leaf not under a skipped key by its sanitised text leaves the output byte-identical, so those leaves reach the output only through the policy |
| `JsonCodec.ResanitizeEntriesIsStable` | xss.go:311-334 | the same for the entries of an object, where values under skipped keys are left raw |
| `JsonCodec.ResanitizeItemsIsStable` | xss.go:291-301 | the same for the elements of a nested array |
| `Xss.Defender.IsSkipField` | xss.go:318-327 | the scan over the skip list finds the key exactly when it equals (case-sensitively) one of the skip fields |
| `Xss.Defender.ConstructJson` | xss.go:307-339 | the buffer the loop builds equals JsonCodec.ConstructJson of the Defender's state |
| `Xss.Defender.BuildJsonApplyPolicy` | xss.go:256-286 | the text of a value followed by exactly one ',': an object or array recursively; a number as Sanitize(text), unquoted; a string as Quote(Sanitize(s)); nil as null; a bool as Sanitize("true"/"false") |
| `Xss.Defender.UnravelSlice` | xss.go:288-305 | the buffer the loop builds equals JsonCodec.UnravelSlice of the Defender's state |
| `Xss.Defender.JsonToStringMap` | xss.go:105-126 | the result equals JsonCodec.JsonToStringMap of the Defender's state, error cases included |
| `FormCodec.FieldText` | xss.go:148-162 | one field: its key, '=', and its first value escaped, sanitised first unless the key is a skip field |
| `FormCodec.EncodeForm` | xss.go:145-172 | the new body: the encode buffer without its last '&' when it holds more than one character, else the original body |
| `FormCodec.FormBufferTerminated` | xss.go:146-164 | the encode loop writes every field as k= and its escaped value, each followed by exactly one '&' |
| `FormCodec.EncodeFormShape` | xss.go:145-172 | the new body is the fields joined by '&' with no trailing '&'; the original body comes back unchanged exactly when there are no fields |
| `FormCodec.EncodeFormUsesFirstValuesOnly` | xss.go:146-162 | only the first value of each key matters; two forms with the same keys and first values encode identically |
| `FormCodec.SameFirstValuesSameBuffer` | xss.go:146-164 | the same for the buffer before the final truncation |
| `Xss.Defender.HandleXFormEncoded` | xss.go:145-172 | the body the loop produces equals FormCodec.EncodeForm: skip fields are escaped raw, other fields are sanitised before escaping |
| `MultipartCodec.Boundary` | xss.go:180 | when the content type contains "boundary=", the boundary is the rest of it after the first occurrence; without one it is the content type from position 8 on; a content type shorter than 8 with no such parameter is an error |
| `MultipartCodec.PartText` | xss.go:205-226 | what one part becomes: the delimiter line, then a file part's name, file name, media type (default application/octet-stream) and raw bytes, or a text field's name and its text strictly sanitised unless the name is "password" |
| `MultipartCodec.PartTextDelimited` | xss.go:205-226 | every part's text starts with the delimiter line --boundary CRLF and ends with CRLF |
| `MultipartCodec.Frames` | xss.go:186-227 | the loop over the parts read: the first part whose copy failed or that is empty aborts with its error |
| `MultipartCodec.Reconstruct` | xss.go:177-234 | the boundary, or its error, then the first 100 parts framed and the closing delimiter --boundary--CRLF |
| `MultipartCodec.PartTextsAt` | xss.go:205-226 | the i-th framed text is that of the i-th part read |
| `MultipartCodec.FramesOutcome` | xss.go:186-227 | the loop succeeds exactly when every part read was copied and is non-empty, and then writes the parts' texts in order; otherwise the error is that of the first bad part |
| `MultipartCodec.ReconstructShape` | xss.go:177-234 | the body is the framed first 100 parts followed by --boundary--CRLF, an error if one of them is unreadable or empty, and the same whatever follows the hundredth part |
| `MultipartCodec.ExemptPartsIgnoreSanitizer` | xss.go:206-225 | file parts and the text field named exactly "password" never pass through the strict policy: their bytes are framed unchanged under any sanitiser |
| `Xss.Defender.WritePart` | xss.go:205-226 | one part is written as --boundary CRLF, then for a file its name, filename and Content-Type (default application/octet-stream) and its bytes unchanged, and for a text field its name and its text sanitised unless the name is "password" |
| `Xss.Defender.HandleMultiPartFormData` | xss.go:177-235 | the body the loop produces equals MultipartCodec.Reconstruct, error cases included |
| `Xss.Defender.SkipFieldSet` | xss.go:239-242 | the map built from the skip list holds true exactly for the skip fields |
| `Xss.Defender.ReplaceValues` | xss.go:247-250 | Del followed by one Set per value leaves only the sanitised last value, or removes the key when its list is empty |
| `Xss.Defender.HandleGETRequest` | xss.go:237-251 | no key is added; skip-field keys keep their whole value list; every other key ends with exactly one value, the sanitised last one, whatever the iteration order |
| `Query.VisitKey` | xss.go:243-250 | one turn of the loop on a key: a skipped key is left alone, any other keeps only its sanitised last value or is gone; no other key changes |
| `Query.RevisitIsStable` | xss.go:243-250 | a second visit of an already-rewritten key that is not skipped sanitises its one value again; with an idempotent policy the map does not change |
| `Query.QueryValues.Del` | xss.go:247 | Values.Del removes the key |
| `Query.QueryValues.Set` | xss.go:249 | Values.Set leaves the key with exactly the one value |

The loop methods also call small step lemmas that unfold one turn of each loop. They
keep the proofs within the verifier's budget and state nothing new, so they have no
row: `JsonCodec.EntriesBufferStep`, `JsonCodec.ItemsBufferStep`,
`JsonCodec.ObjectsBufferStep`, `FormCodec.FormBufferStep`, `Query.SkipStep`,
`Query.ReplaceStep` and `Query.AllVisited`.

## Left out

- Gin plumbing is out: `RemoveXSS`, `removeXSS`, `ctx.Abort`/`ctx.Next`, and installing the new body with `ioutil.NopCloser`. It is framework I/O. Each handler's new body is its result.
- `HandleJson` and `decodeJson` are out. JSON decoding is library code, so the model starts from the decoded tree and leaves out the "not a valid json" error.
- The `float64` case of `buildJsonApplyPolicy` is left out. It is floating point and cannot happen when decoding with `UseNumber`. The `default` case is the `Bool` and `Null` cases, because the tree has no other kinds.
- `HandleXFormEncoded` model starts from the fields `url.ParseQuery` produces. It leaves out the early return for a nil body, a body read error and a parse error, which are I/O and library parsing. It requires every field to have a value, as ParseQuery guarantees.
- `HandleMultiPartFormData` model starts from the parts the multipart reader yields. The sequence ends where `NextPart` first fails. Part header parsing is library code; a failed body copy is the part's `copyFailed` flag.
- `HandleGETRequest` does not model the final `queryParams.Encode()` into `RawQuery`, which is library code. The method visits each original key once (`Distinct(order)`). Go's range can also produce a key that `Set` re-inserted during the loop. `Query.RevisitIsStable` shows that such a second visit changes nothing when the policy is idempotent. For any other policy the key ends up sanitised twice, which the method's contract does not cover.
- `Lib.quote`, `Lib.formatQ`, `Lib.queryEscape`, `Lib.strictSanitize` and the policy are arbitrary functions. The escaping and sanitising rules of fmt, net/url and bluemonday are not modelled.
- `FilterXSS`, `BodyWriter` and `BuildNewBody` (filter_xss.go) are not part of this model. They capture the response and reuse `jsonToStringMap`, which is modelled.
