# iTravel Guide: gateway and offline quiz, modelled in Dafny

This project models three pieces of the iTravel Guide repository and proves
properties about them.

- The edge gateway (`src/index.js`). It is a Cloudflare-Workers-style `fetch`
  handler that relays chat requests to the Gemini `generateContent` endpoint.
  For one request it does the following, in this order:
  - it derives the CORS headers from an exact three-entry origin whitelist;
  - it answers an OPTIONS preflight;
  - it rejects other methods (405), other paths (404), unparseable bodies
    (400 "Invalid JSON") and bodies without usable contents (400 "Missing
    contents");
  - it rejects the request when the API key is missing (500);
  - it calls upstream, and retries once after a 5xx answer;
  - it classifies the final outcome into 502, the upstream's own error status,
    or 200.

  The handler is the total function `Gateway.Handle`. Its inputs are the
  request, the environment and an upstream *oracle*: the sequence of outcomes
  the successive `fetch` calls would yield. It returns the response and the
  list of upstream calls it made, or `Uncaught` when the TypeError that
  `String(body.prompt)` can throw (line 53) escapes the handler.
- The offline fill-in-the-blank generator (`QuestionGenerator.kt`). It splits a
  text into candidate sentences and visits them in the order a random index
  stream names them, each at most once. Each visited sentence becomes a
  question: its longest word (longer than 3 characters, the first one on ties)
  is blanked, and a language label is put in front. `kotlin.random.Random` is
  replaced by the stream of indices it returns (`draws`). The loop
  (`GenerateQuestions`) is proved equal to a loop-free reference (`Generate`):
  the questions of the distinct drawn sentences, in first-draw order, cut at
  `maxQuestions`.
- The bilingual accessors of `Place.kt`. These are coordinate defaults and
  selectors between the Vietnamese and the English fields.

Supporting modules:
- `Json` holds parsed JSON values and the JavaScript semantics the gateway
  relies on: `v?.key`, truthiness, `a || b` and `String(v)`. A number is the
  decimal it denotes, `mantissa * 10^exponent`, and `String` follows
  Number::toString of ECMA-262 (section 6.1.6.1.20) on that decimal.
  `String(v)` throws a TypeError when `v`, or an element of an array reached
  from `v`, is an object with an own `toString` member. JSON cannot make that
  member callable, and the inherited `valueOf` returns an object. So neither
  `toString` nor `valueOf` yields a primitive, and OrdinaryToPrimitive
  (section 7.1.1.1 of ECMA-262) throws.
- `NumberText` reads the text of a number back as a decimal numeral
  `digits[.digits][e(+|-)digits]`. It shows that the text denotes the number
  it was made from. In fraction and exponent notation the digits read back
  carry no trailing zero.
- `KText` holds the Kotlin/JVM string functions the generator uses:
  `isWhitespace`, `trim`, `isBlank`, `split(' ')`, the regex split on
  `[.!?]\s+`, `indexOf` and literal `replaceFirst`.

Reading of the source:
- Lines 11-12 of `QuestionGenerator.kt` write `"[.!?]\s+"` and
  `"[À-ỹ\w']+"` as plain Kotlin string literals. Kotlin has no `\s`
  or `\w` escapes. The model reads them as the regex classes they are meant to
  be, and takes the OpenJDK java.util.regex reading of those classes: `\s` is
  `[ \t\n\x0B\f\r]` and `\w` is `[a-zA-Z_0-9]`. On Android, java.util.regex
  is backed by ICU, whose `\s` and `\w` are the Unicode classes: there `\s`
  also matches other Unicode spaces and `\w` other Unicode letters and digits.
  The model does not follow that reading.
- `buildQuestion` filters the words with `.ifEmpty { return null }` and then
  takes `maxByOrNull`. The model shows that this picks the same word as "the
  first longest word, when it is longer than 3"
  (`QuestionGenerator.PickTargetIsLongestIfLong`).

## Model

| member | source | states |
|---|---|---|
| Json.LastMember | src/index.js:43 | a key's value is that of its last member, and a key with no member is undefined |
| Json.Prop | src/index.js:51-55 | `v?.key` is undefined except on an object, where it is the key's last member |
| Json.FalsyValues | src/index.js:52 | undefined, null, false, 0 and "" are the only falsy values |
| Json.Or | src/index.js:55 | the logical or of `a` and `b` is `a` when `a` is truthy and `b` otherwise |
| Json.ToJsString | src/index.js:53 | `String(v)` throws iff `v` or an element of an array reached from it is an object with an own `toString`; null, booleans, numbers and strings give their text, another object "[object Object]", the empty array "" |
| Json.ArrayStringJoins | src/index.js:53 | an array's string is its elements' strings joined by ",", null elements as "", and it throws when one element's string throws |
| Json.StripZeros | src/index.js:53 | removing trailing zeros from the digits keeps the value `s * 10^e` and leaves no trailing zero |
| Json.DigitsDenote | src/index.js:53 | the digit string of `n` denotes `n` |
| Json.NumberToString | src/index.js:53 | a number's string is never empty and starts with "-" iff the number is negative |
| Json.IntegersPrintPlain | src/index.js:53 | a non-negative integer below 10^21 given with a non-negative exponent is written as its plain decimal digits |
| Json.IntegersPrintPlainScaled | src/index.js:53 | an integer below 10^21 given with a negative exponent, its mantissa carrying the extra zeros as in `50e-1`, is also written as its plain decimal digits |
| Json.ValueDecidesString | src/index.js:53 | the string depends only on the value: trailing zeros moved from the mantissa into the exponent do not change it |
| NumberText.NumberToStringReadsBack | src/index.js:53 | the text of a positive number, read as digits with an optional point and fraction digits and an optional `e`, sign and exponent digits, gives a decimal with the same normal form. In fraction or exponent notation it is exactly the normal form, so its digits end in a non-zero digit; in plain notation its exponent is 0 |
| NumberText.NumberToStringDenotes | src/index.js:53 | for every number, positive, zero or negative, the text reads back as a decimal with the same value |
| NumberText.NormalFormsAgree | src/index.js:53 | two decimals with the same normal form denote the same number |
| Cors.AllowedOrigin | src/index.js:6-12 | an origin is echoed exactly when the header is present and is one of the three whitelisted strings, compared exactly; it is then the header itself |
| Cors.CorsHeaders | src/index.js:6-19 | `Access-Control-Allow-Origin` is present iff the origin is whitelisted, and then equals it; Methods "POST, OPTIONS", Headers "Content-Type" and Max-Age "86400" are always present, and there is no other header |
| Gateway.ModelName | src/index.js:67 | the model is the `model` query parameter when it is present and non-empty, "gemini-1.5-flash" otherwise |
| Gateway.Handle | src/index.js:22-116 | the handler ends in an uncaught exception, with no reply and no call, iff a POST to the path with a parsed body reaches the prompt fallback and `String(body.prompt)` throws; every reply carries the CORS headers; Content-Type `application/json` is present iff the method is not OPTIONS; status 204 iff OPTIONS, with a null body and no call; calls happen iff every check passed; at most two calls, two iff the first answer is retryable; every call is the same request |
| GatewayProperties.PreflightIgnoresEverythingElse | src/index.js:22-24 | the OPTIONS reply depends on the Origin header only, whatever the path, body, key and upstream |
| GatewayProperties.MethodCheckedFirst | src/index.js:26-31 | a method other than OPTIONS and POST gets 405 "Method Not Allowed" with no call, whatever the path, body or key |
| GatewayProperties.ContentsCheckedBeforeKey | src/index.js:59-74 | a body that normalisation rejects gets 400 "Missing contents" with no call, whatever the key and the upstream |
| GatewayProperties.MissingKeyMakesNoCall | src/index.js:68-74 | a valid request with an absent or empty key gets 500 "Missing GEMINI_API_KEY" and makes no upstream call |
| GatewayProperties.RejectionsIdentifyTheirCheck | src/index.js:26-74 | each rejection's status and message occur iff its own check is the first to fail; no other path, upstream replies included, yields the same pair |
| GatewayProperties.AdmittedCallCarries | src/index.js:51-91 | each upstream call carries the chosen model, the configured key and the body `{contents, generationConfig}` of the normalised request |
| GatewayProperties.ThrowingPromptEscapes | src/index.js:51-74 | when `String(body.prompt)` throws, the handler ends uncaught before the key is read: no reply and no call, whatever the key and the upstream |
| GatewayProperties.PromptObjectEscapes | src/index.js:51-53 | a POST of `{"prompt": {"toString": t}}` to the path ends uncaught |
| GatewayProperties.LastAttemptDecides | src/index.js:78-116 | once admitted, the reply is the classification of the last attempt made |
| GatewayProperties.ThrowIsNotRetried | src/index.js:79-100 | a first call that throws is not retried and gives 502 "Upstream error: " followed by the error's message (its name when the message is empty) |
| GatewayProperties.FirstAnswerBelow500 | src/index.js:86-116 | a first answer below 500 is not retried; a 2xx gives 200 with the body verbatim, any other status is passed through |
| GatewayProperties.ServerErrorRetriedOnce | src/index.js:86-111 | a 5xx first answer causes exactly one retry, and the retry's answer is what the client sees |
| Normalizer.PromptMessage | src/index.js:53 | the user message throws iff `String(prompt)` throws; a string prompt is taken verbatim |
| Normalizer.ResolvedContents | src/index.js:51-54 | a truthy `contents` is kept verbatim and the prompt is never converted; only a falsy `contents` with a truthy `prompt` becomes one user message holding `String(prompt)`, or throws when that conversion throws; otherwise the result is falsy |
| Normalizer.GenerationConfig | src/index.js:55-57 | a truthy `generationConfig` is forwarded unchanged; otherwise the whole default object is used |
| Normalizer.Normalize | src/index.js:51-64 | normalisation throws iff the prompt fallback runs and `String(prompt)` throws; the body is accepted iff `contents` is a truthy non-empty array, or `contents` is falsy and `prompt` truthy with a string form; the accepted contents are the given array or the message holding that string, never empty |
| Normalizer.EmptyContentsIgnoresPrompt | src/index.js:51-64 | `{contents: [], prompt}` is rejected: the empty array is truthy, so the prompt fallback does not run |
| Normalizer.NonArrayContentsRejected | src/index.js:51-64 | a truthy non-array `contents` is rejected even when a prompt is present |
| Normalizer.PromptOnly | src/index.js:51-57 | a body with only a truthy prompt becomes one user message holding its string form, with the default generation settings, or throws when that conversion throws; a string prompt is taken verbatim |
| Normalizer.PromptWithOwnToStringThrows | src/index.js:51-53 | `{prompt: {toString: t}}`, and a prompt array whose last element is such an object, make normalisation throw |
| Upstream.ErrorText | src/index.js:96 | the text of a thrown error is its message when that is non-empty, and otherwise the error's string form, which is then its name |
| Upstream.Settle | src/index.js:94-100 | the last attempt gives an answer iff it returned and its body parsed; a throw or a parse failure gives its error text |
| Upstream.Fetch | src/index.js:78-100 | one or two calls, two iff the first returned a non-ok status of at least 500; the outcome is the settling of the last attempt |
| Upstream.FetchLoop | src/index.js:78-94 | the retry written as a loop bounded by two attempts makes the same calls and ends in the same state as `Fetch` |
| Classify.Details | src/index.js:106 | `data?.error` when it is truthy, otherwise the whole upstream body |
| Classify.ClassifyFinal | src/index.js:95-116 | unreachable gives 502 "Upstream error: …"; a non-ok answer keeps its status with `{error: "Gemini API error", status, details}`; a 2xx answer gives 200 with the body verbatim; the headers are CORS plus JSON Content-Type |
| KText.BlankIffTrimsToEmpty | android-app/app/src/main/java/com/itravelguide/data/QuestionGenerator.kt:19 | a text is blank iff it trims to the empty string |
| KText.Trim | android-app/app/src/main/java/com/itravelguide/data/QuestionGenerator.kt:24 | the trimmed string is the slice of the input left after its leading and trailing whitespace; it neither starts nor ends with whitespace |
| KText.TrimIdempotent | android-app/app/src/main/java/com/itravelguide/data/QuestionGenerator.kt:24 | trimming twice is trimming once |
| KText.NewlinesToSpaces | android-app/app/src/main/java/com/itravelguide/data/QuestionGenerator.kt:22 | every newline becomes a space and every other character is kept |
| KText.SplitOnSize | android-app/app/src/main/java/com/itravelguide/data/QuestionGenerator.kt:25 | `split(' ')` gives one more piece than there are spaces, empty pieces included |
| KText.SplitIsRegexSplit | android-app/app/src/main/java/com/itravelguide/data/QuestionGenerator.kt:21-23 | the sentence split reassembles the text; each delimiter is a whole `[.!?]\s+` match taken at the leftmost place and greedy; empty pieces are kept |
| KText.IndexOf | android-app/app/src/main/java/com/itravelguide/data/QuestionGenerator.kt:57 | the first position where the target occurs, or -1 when it occurs nowhere |
| KText.ReplaceFirst | android-app/app/src/main/java/com/itravelguide/data/QuestionGenerator.kt:57 | only the first literal occurrence is replaced and the rest of the string is kept; with no occurrence the string is unchanged |
| QuestionGenerator.QualifyingComplete | android-app/app/src/main/java/com/itravelguide/data/QuestionGenerator.kt:24-25 | no trimmed piece with at least six space-separated parts is dropped |
| QuestionGenerator.QualifyingTrimmed | android-app/app/src/main/java/com/itravelguide/data/QuestionGenerator.kt:24-25 | every kept sentence is already trimmed |
| QuestionGenerator.Candidates | android-app/app/src/main/java/com/itravelguide/data/QuestionGenerator.kt:21-26 | the candidate list is never empty |
| QuestionGenerator.QualifyingInOrder | android-app/app/src/main/java/com/itravelguide/data/QuestionGenerator.kt:24-25 | the qualifying sentences are, in text order, exactly the trims of the pieces whose trim has at least six space-separated parts |
| QuestionGenerator.QualifyingEmpty | android-app/app/src/main/java/com/itravelguide/data/QuestionGenerator.kt:24-26 | no sentence qualifies iff no piece's trim has at least six space-separated parts |
| QuestionGenerator.CandidatesShape | android-app/app/src/main/java/com/itravelguide/data/QuestionGenerator.kt:21-26 | every candidate is trimmed; either every candidate has at least six space-separated parts, or the list is exactly the trimmed text; the fallback to the trimmed text is taken when no piece qualifies, and otherwise the candidates are the qualifying pieces |
| QuestionGenerator.WordsAreRuns | android-app/app/src/main/java/com/itravelguide/data/QuestionGenerator.kt:50-52 | the word tokens are, in order, the text of the runs of word characters |
| QuestionGenerator.RunsFrom | android-app/app/src/main/java/com/itravelguide/data/QuestionGenerator.kt:50-52 | each run lies in the text, holds only word characters and ends before a non-word character or at the end |
| QuestionGenerator.RunsLeftMaximal | android-app/app/src/main/java/com/itravelguide/data/QuestionGenerator.kt:50-52 | no run can be extended to the left |
| QuestionGenerator.RunsOrdered | android-app/app/src/main/java/com/itravelguide/data/QuestionGenerator.kt:50-52 | the runs come left to right with a gap between them |
| QuestionGenerator.RunsCover | android-app/app/src/main/java/com/itravelguide/data/QuestionGenerator.kt:50-52 | every word character lies in some run |
| QuestionGenerator.FirstLongest | android-app/app/src/main/java/com/itravelguide/data/QuestionGenerator.kt:56 | `maxByOrNull` picks an element no shorter than any other and strictly longer than every earlier one |
| QuestionGenerator.LongWords | android-app/app/src/main/java/com/itravelguide/data/QuestionGenerator.kt:53-54 | every kept word is one of the words and longer than 3; every word longer than 3 is kept; nothing is kept iff no word is longer than 3 |
| QuestionGenerator.PickTargetIsLongestIfLong | android-app/app/src/main/java/com/itravelguide/data/QuestionGenerator.kt:50-56 | filtering out short words before `maxByOrNull` picks the first longest word overall whenever that word is longer than 3, and nothing otherwise |
| QuestionGenerator.Target | android-app/app/src/main/java/com/itravelguide/data/QuestionGenerator.kt:50-56 | there is no target iff no word token is longer than 3; otherwise the target is longer than 3 and is the first longest token |
| QuestionGenerator.TargetOccurs | android-app/app/src/main/java/com/itravelguide/data/QuestionGenerator.kt:56-57 | the target word always occurs literally in its sentence |
| QuestionGenerator.BuildQuestion | android-app/app/src/main/java/com/itravelguide/data/QuestionGenerator.kt:49-64 | null iff there is no target word; otherwise the language label followed by the sentence with its first literal occurrence of the target replaced by "_____" |
| QuestionGenerator.QuestionIffLongWord | android-app/app/src/main/java/com/itravelguide/data/QuestionGenerator.kt:50-56 | a sentence gives a question iff one of its word tokens is longer than 3 characters |
| QuestionGenerator.QuestionBlanksFirstOccurrence | android-app/app/src/main/java/com/itravelguide/data/QuestionGenerator.kt:56-63 | the question is the label, the sentence up to the first occurrence of the target, "_____", and the rest of the sentence after that occurrence; no earlier occurrence exists |
| QuestionGenerator.Generate | android-app/app/src/main/java/com/itravelguide/data/QuestionGenerator.kt:14-47 | blank text gives no question; never more than `maxQuestions` questions, and none when it is not positive |
| QuestionGenerator.GenerateQuestions | android-app/app/src/main/java/com/itravelguide/data/QuestionGenerator.kt:14-47 | the loop returns exactly the reference result; a loop that stops before the stream runs out stops because it has `maxQuestions` questions or has used every sentence |
| QuestionGenerator.DrawQuestions | android-app/app/src/main/java/com/itravelguide/data/QuestionGenerator.kt:33-46 | the draw loop yields the questions of the distinct drawn sentences in first-draw order, cut at `maxQuestions` |
| QuestionGenerator.DedupPrefix | android-app/app/src/main/java/com/itravelguide/data/QuestionGenerator.kt:36-38 | the sentences visited after some draws are a prefix of those visited after all of them |
| QuestionGenerator.DedupSaturated | android-app/app/src/main/java/com/itravelguide/data/QuestionGenerator.kt:36-38 | draws of already used indices change nothing |
| QuestionGenerator.GenerateAtMostOncePerSentence | android-app/app/src/main/java/com/itravelguide/data/QuestionGenerator.kt:33-44 | there are never more questions than candidate sentences |
| QuestionGenerator.GenerateAsksBuiltQuestions | android-app/app/src/main/java/com/itravelguide/data/QuestionGenerator.kt:39-63 | every question is the built question of some candidate sentence and starts with the label of the chosen language |
| QuestionGenerator.GenerateCoversAll | android-app/app/src/main/java/com/itravelguide/data/QuestionGenerator.kt:33-46 | when the stream names every sentence and `maxQuestions` does not bind, each sentence that has a question is asked about exactly once |
| Places.PositionFromCoordinates | android-app/app/src/main/java/com/itravelguide/data/Place.kt:31-32 | latitude and longitude are the first two coordinates, 0.0 when missing; further coordinates are ignored |
| Places.ViewFields | android-app/app/src/main/java/com/itravelguide/data/Place.kt:35-45 | the Vietnamese view is `name`, `intro`, `readUrl`, `novelUrl`, `novelTitle`; the English view is `name`, `introEn`, `readUrlEn`, `novelUrlEn`, `novelTitleEn` |
| Places.LanguagesIndependent | android-app/app/src/main/java/com/itravelguide/data/Place.kt:35-45 | changing one language's fields leaves the other language's view unchanged; the display name is the same in both languages |

## Left out

- The runtime objects of the gateway are not modelled: `URL` parsing, `Request`
  and `Response` objects, `JSON.parse` and `JSON.stringify`, and the endpoint
  string with `encodeURIComponent`. A request is given by its method, path,
  Origin header, `model` query parameter and parse outcome. A call is
  recorded as its model, key and JSON body.
- What the Workers runtime answers when an exception escapes the handler is
  not modelled. The handler then makes no reply of its own and no upstream
  call, and the model records only that (`Uncaught`).
- The network is an oracle of outcomes. Each handler call needs at least two
  outcomes, because it may make two `fetch` calls.
- Request method names are compared as given. Upper-casing of standard method
  names is done by the runtime and is not modelled.
- The gateway's numbers are exact decimals. The binary double rounding of
  `JSON.parse` and Number::toString is left out: it is floating point.
- Null-body statuses are not modelled. An upstream 304 would be passed
  through, and the `Response` constructor rejects a body with that status. The
  model returns the response it would build.
- The text handling is modelled on Unicode scalar values. Kotlin counts UTF-16
  units. The word class `[À-ỹ\w']` lies inside the Basic
  Multilingual Plane, so the lengths the generator compares are the same.
- The random generator and its seed are left out, because they are library
  internals. The seed is the sum of the letter codes of the NFD form of the
  first 64 characters. The random stream is a parameter (`draws`), so equal
  arguments give equal results by construction.
- QuestionGenerator.GenerateQuestions: the stream of draws is finite. When it
  runs out, the loop stops early, which the real generator never does; the
  method returns how many draws it used.
- `maxQuestions` is a parameter; its default of 5 is not modelled.
- `latLng`, the Google Maps `LatLng` built from the coordinates, is left out.
  Coordinates are reals, not doubles.
- The UI composables and activities, view models, repositories, asset I/O and
  the second `Place` record of the other app module are not part of this
  model.
