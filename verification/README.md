# util.ts helpers in Dafny

This project models the pure helpers of `util.ts` from the `util-js`
package and proves what they promise:

- the string sanitizers: `isEmpty`, `isEmptyOr`, the character-class
  filters `onlyNumbers`, `onlyAplha` and `onlyAplhaDot`, `limitText` and
  `onlyEmail`;
- the substring tests `includes` and `includesArr`;
- the request helpers: `postBearer`, the content-type dispatch of
  `readRequestBody`, and the chunk-copy loop of `streamToArrayBuffer`;
- the collection helpers `getUniqueListBy` and `shuffle`;
- the UTF-16/base64 codec `toBinary`/`fromBinary`, with the `btoa`/`atob`
  pair it relies on.

JavaScript strings are sequences of UTF-16 code units (`bv16`), so lone
surrogates and U+0000 are ordinary values. Typed-array bytes are `bv8`. A
dynamically typed argument is `Nullable`: `null`, `undefined`, or the
value's string conversion. A thrown exception is the `Err` case of a
`Result`, named by its JavaScript error type.

Modules, one per concern:

| module | file | models |
|---|---|---|
| `Wrappers` | wrappers.dfy | `Option` and `Result` |
| `JsStrings` | jsstrings.dfy | code units, `trim`, `indexOf`, ASCII lower-casing |
| `Seqs` | seqs.dfy | order-preserving filtering |
| `Filters` | filters.dfy | `onlyNumbers`, `onlyAplha`, `onlyAplhaDot`, `limitText` |
| `Validators` | validators.dfy | `isEmpty`, `isEmptyOr`, `includes`, `includesArr`, `onlyEmail` |
| `OrderedMaps` | orderedmaps.dfy | a JavaScript `Map` or object as an insertion-ordered list of pairs |
| `UniqueList` | uniquelist.dfy | `getUniqueListBy` |
| `Shuffle` | shuffle.dfy | `shuffle` |
| `Http` | http.dfy | `postBearer`, `readRequestBody` |
| `Streams` | streams.dfy | `streamToArrayBuffer` |
| `Base64` | base64.dfy | `btoa`, `atob` |
| `Binary` | binary.dfy | `toBinary`, `fromBinary` |

Behaviour modelled as written, though it may surprise a caller:

- The `alpha` class has lower-case `ç` but not upper-case `Ç` (U+00C7).
- `\\.` in the `alphaDot` class admits a backslash as well as a dot.
- The filters run on `new String(text)`, which always gets its argument. So `null` is filtered as the text "null" and `undefined` as the text "undefined": `onlyAplha(undefined)`, `onlyAplhaDot(undefined)` and `limitText(undefined)` are "undefined".
- `isEmpty` compares case-sensitively, so "NULL" is not empty.
- Header names in `postBearer` are compared exactly. A caller's `content-type` therefore adds a header next to the default `Content-Type` instead of replacing it.
- For a text body, `readRequestBody` returns `{text: request.text()}`, a promise it never awaits (`Http.TextPromise`).

## Model

| member | source | states |
|---|---|---|
| Validators.IsEmpty | util.ts:3-9 | true exactly for `null`, `undefined`, or a value whose trimmed text is "", "null", "undefined" or "unknown"; every all-whitespace text is empty |
| Validators.IsEmptyIgnoresPadding | util.ts:7-8 | whitespace added around a text never changes whether it is empty |
| Validators.IsEmptyOr | util.ts:11-13 | the fallback exactly when the value is empty, the value's own text otherwise |
| Validators.IsEmptyOrResult | util.ts:11-13 | with a non-empty fallback the result never looks empty, and applying `isEmptyOr` twice equals applying it once |
| JsStrings.Trim | util.ts:7 | the result is an infix of the text with only whitespace around it, and neither of its ends is whitespace |
| JsStrings.TrimUnique | util.ts:7 | those two properties determine the trimmed text uniquely |
| JsStrings.TrimPadded | util.ts:7 | trimming ignores any whitespace padding added on either side |
| Filters.OnlyNumbers | util.ts:15-17 | the result holds only ASCII digits and is no longer than the text |
| Filters.OnlyAlpha | util.ts:22-24 | the result holds only code units of the `alpha` class and is no longer than the text |
| Filters.OnlyAlphaDot | util.ts:26-28 | the result holds only code units of the `alphaDot` class and is no longer than the text |
| Seqs.FilterSelectsExactly | util.ts:15-28 | deleting the code units outside a class keeps each code unit inside it exactly as often as the text holds it |
| Filters.FiltersSelectExactly | util.ts:15-28 | each of the three filters keeps every code unit of its class exactly as often as the text (`null` read as "null") holds it |
| Filters.NullishFilters | util.ts:15-28 | `null` and `undefined` are filtered as the words "null" and "undefined": no digits, and the letter filters return the whole word |
| Filters.NullishLimitText | util.ts:30-36 | `limitText(null)` is "null" and `limitText(undefined)` is "undefined" |
| Filters.FiltersKeepOrder | util.ts:15-28 | each filter of a concatenation is the concatenation of the filtered parts, so kept code units stay in order |
| Filters.FiltersFixClassText | util.ts:15-28 | a filter leaves a text unchanged if and only if all of it lies in the class |
| Filters.FiltersIdempotent | util.ts:15-28 | filtering twice equals filtering once, for each of the three filters |
| Filters.AlphaWithinAlphaDot | util.ts:19-20 | `onlyAplha` after `onlyAplhaDot` equals `onlyAplha`; on text without dots and backslashes the two filters agree |
| Filters.AlphaDotTrimmableIsSpace | util.ts:20 | the only `alphaDot` code unit that `trim` removes is the space |
| Filters.LimitText | util.ts:30-36 | at most `limit` long (empty for a negative limit); a prefix of the trimmed `alphaDot` text; the whole of it when it fits; exactly `limit` long when it does not; never starts with whitespace |
| Filters.Substring | util.ts:33 | `substring` for integer arguments: both ends clamped to `0..|s|` and swapped when start exceeds end, giving the slice between them |
| Filters.LimitTextKeepsClass | util.ts:30-36 | the result lies in the `alphaDot` class |
| Validators.MatchesEmail | util.ts:40 | true if and only if the whole text splits as local part, `@`, domain, `.` and a TLD of 2 to 4 letters |
| Validators.EmailSplitIsUnique | util.ts:40 | a matching split can only be at the first `@` and the last `.` |
| Validators.OnlyEmail | util.ts:38-45 | a result exactly when the text is a string matching the pattern; the result has the text's length, no upper-case letter, and each code unit equal to the text's or its lower-case form |
| JsStrings.ToLowerAscii | util.ts:40 | same length; no ASCII upper-case letter left; A-Z moved to a-z and every other code unit kept |
| JsStrings.IndexOf | util.ts:155 | -1 exactly when the item does not occur; otherwise the first offset where it occurs |
| Validators.Includes | util.ts:154-156 | a TypeError exactly for `undefined`; true exactly when the value is a string containing the item |
| Validators.IncludesExtends | util.ts:154-156 | the empty item is in every string; an included item stays included in any text around the string |
| Validators.IncludesArr | util.ts:145-152 | false exactly when every element gives false; otherwise the outcome of the first element that does not give false |
| Http.PostBearer | util.ts:104-125 | defaults first; distinct header names preserved; the method rule; a body exactly when there is data, and it is the data's JSON text |
| Http.DefaultHeaderValues | util.ts:105-109 | the defaults carry `Bearer <apikey>` and ask for `application/json` twice |
| Http.PostBearerHeader | util.ts:111-116 | each header is the caller's last value for that name, or the default when the caller gave none |
| Http.ImplicitMethodMatchesBody | util.ts:119-123 | without an explicit method, the request has a body exactly when its method is POST, and none exactly when it is GET |
| Http.ReadRequestBody | util.ts:73-95 | GET gives `{text: ''}`; JSON exactly for a JSON content type that parses; a form exactly for a form content type that parses; the unawaited text promise exactly for any other content type, a missing one included |
| Http.ReadFormField | util.ts:81-86 | each field of a parsed form holds the last value the form gave that name |
| Streams.FlattenPrefix | util.ts:173-174 | the bytes of the first chunks begin the bytes of all chunks |
| Streams.StreamToArrayBuffer | util.ts:164-177 | a RangeError exactly for a negative size or a stream longer than the size; otherwise exactly `size` bytes, the stream's bytes first and zeros after them |
| Shuffle.FisherYatesPermutes | util.ts:211-226 | whatever the draws, the shuffle is a permutation of its input |
| Shuffle.FisherYatesKeepsTail | util.ts:215-223 | positions at or above `currentIndex` are never written again |
| Shuffle.FirstDrawEndsLast | util.ts:218-223 | the element of the first draw ends up in the last position |
| Shuffle.StayingDrawsKeepOrder | util.ts:218-223 | draws that each pick `currentIndex - 1` leave the array unchanged |
| Shuffle.Shuffle | util.ts:207-226 | the caller's array is shuffled in place and returned as the same object; its new contents are the Fisher-Yates result for the given draws and a permutation of the old ones |
| OrderedMaps.PutLookup | util.ts:230 | after `set`, the set key holds the new value and every other key keeps its old one |
| OrderedMaps.PutAllLookup | util.ts:111-116 | after copying entries, a key they mention holds its last value there, and every other key keeps its old value |
| UniqueList.PutAllSummarizes | util.ts:230 | the `Map` built from the pairs has one entry per key, in first-occurrence order, each holding that key's last item |
| UniqueList.GetUniqueListByOrThrow | util.ts:228-231 | a TypeError exactly when some item is `null` or `undefined`; otherwise the unique list of the items |
| UniqueList.GetUniqueListBy | util.ts:228-231 | every item's key comes from the input, and every input key is represented; each item is the last input item with its key; items follow the order of their keys' first occurrence |
| Base64.Btoa | util.ts:239 | 4 characters for every started 3 bytes, all from the alphabet or `=` |
| Base64.Atob | util.ts:243 | an InvalidCharacterError exactly when, with whitespace and padding removed, the length leaves remainder 1 modulo 4 or a code unit is off the alphabet |
| Base64.AtobBtoa | util.ts:239-243 | decoding the encoding of any byte sequence gives it back |
| Binary.LittleEndian | util.ts:234-239 | the byte view of a `Uint16Array` holding the string has two bytes per code unit |
| Binary.LittleEndianAt | util.ts:234-239 | byte 2i of that view is the low byte of code unit i and byte 2i+1 its high byte |
| Binary.CodeUnits | util.ts:243-249 | the `Uint16Array` view of an even number of bytes has one code unit per two bytes |
| Binary.CodeUnitsAt | util.ts:243-249 | code unit i of that view joins byte 2i (low) and byte 2i+1 (high) |
| Binary.ToBinary | util.ts:233-240 | 4·⌈2n/3⌉ characters for a string of n code units, all from the alphabet or `=` |
| Binary.FromBinary | util.ts:242-250 | an error when decoding fails; a RangeError for an odd byte count; otherwise half as many code units as bytes, whose little-endian bytes are the decoded ones |
| Binary.FromBinaryToBinary | util.ts:233-250 | `fromBinary(toBinary(s)) == s` for every string, the empty one and ones with U+0000 or lone surrogates included |

## Left out

- `promiseTimeoutRace`, `sleep` and `fetchWithTimeout` are left out. They race promises against timers, and the model has no time or concurrency.
- `downloadBlob` is left out because it is network I/O.
- `getRandomInt` is left out because it is floating-point arithmetic on `Math.random`.
- `randomHEX` is left out because it depends on the host's `crypto.subtle.digest` and `getRandomValues`.
- `JSON_HEADER`, `TEXT_HEADER`, `HTML_HEADER`, `corsHeaders` and the `HTTP_*` factories are left out. They are constants and host `Response` objects.
- `console.error` logging is left out because it is output only.
- The reads `request.json()`, `request.formData()` and `request.text()` are host I/O. Their outcomes are parameters of `Http.ReadRequestBody`.
- `JSON.stringify` is the opaque parameter `stringify` of `Http.PostBearer`.
- The stream reader is replaced by the sequence of chunks it yields.
- `Math.random` in `shuffle` is replaced by the sequence of indices it yields.
- Arguments that are neither strings, `null` nor `undefined` appear only through their string conversion. That is exact for `isEmpty`, `isEmptyOr` and the filters, which convert with `text + ''` or `new String`.
- Validators.Includes: a number, boolean or plain object as `str` has no `indexOf`, so the source throws a TypeError, and an array searches its elements; the model only takes strings, `null` and `undefined`.
- Validators.OnlyEmail: a number, boolean or plain object has no `match`, so the source catches the TypeError and returns `null`; the model only takes strings, `null` and `undefined`.
- Http.PostBearer: `data` is `None` when it is falsy. A falsy value that is not `null` or `undefined` (`0`, `""`, `false`) is not told apart from a missing one.
- Http.PostBearer: `headers` is a list of string pairs. The ordering JavaScript gives to integer-like property names is not modelled.
- Http.ReadRequestBody: form values are strings. `File` values are not modelled.
- Http.ReadRequestBody: the form's fields are copied into a plain object. The ordering JavaScript gives to integer-like property names and the special handling of a `__proto__` field are not modelled.
- UniqueList.GetUniqueListBy: its items are never `null` or `undefined`; the TypeError `item[key]` throws on such an item is modelled by `UniqueList.GetUniqueListByOrThrow`.
- UniqueList.GetUniqueListBy: keys are compared with Dafny equality, not `SameValueZero`, so `NaN` and signed zeros are not modelled. `keyOf` stands for `item[key]`.
- Streams.StreamToArrayBuffer: sizes are integers. The truncation of fractional sizes and the allocation failure of very large ones are not modelled.
- Base64.Btoa: takes bytes, not a Latin-1 string. So its InvalidCharacterError on code units above 0xFF cannot arise, and `toBinary` never feeds it one.
- Binary.FromBinary: the argument-count limit of `String.fromCharCode(...)` on very long inputs is not modelled, and neither is the byte order of the host (little-endian is assumed).
- Binary.ToBinary: typed arrays are taken to be little-endian, and the argument-count limit of `String.fromCharCode(...bytes)` on very long inputs is not modelled.
