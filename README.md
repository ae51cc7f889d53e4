# Ktor2Curl request formatter, modelled in Dafny

Ktor2Curl is a Ktor client plugin. Before each request is sent, it logs an
equivalent `curl` command line. This project models the formatter that builds
that line: `generateCurl`, `HeadersBuilder.onHeaders` and `Any.onRequestBody`.
It proves what the formatter promises about exclusion, masking, the
Content-Type fallback, the body rendering and the layout of the command.

Files and modules:

- `wrappers.dfy` (`Wrappers`): `Option`, which stands for Kotlin's nullable values and the elvis operator.
- `text.dfy` (`Text`): Kotlin's `Char.isWhitespace`, `isBlank` and `joinToString`.
- `headers.dfy` (`Headers`): `onHeaders`. The method `OnHeaders` keeps the source's loop, its early return and its `containsContentType` flag. It is proved equal to the specification function `HeaderEvents`, and the lemmas are about that function.
- `body.dfy` (`Body`): `onRequestBody` as a pure function over a datatype of body kinds.
- `curl.dfy` (`Curl`): `generateCurl`. The method `GenerateCurl` appends segment after segment to one growing string, like `buildString` does. It is proved equal to the specification function `CurlCommand`, and the lemmas are about that function.

Callbacks are modelled as a trace. `onHeaders` takes two callbacks. In the
model, `OnHeaders` returns the list of calls it makes: `EmitHeader(key, values)`
for each `onEachHeader` call and `NoContentType` for an `onNoContentTypeHeader`
call, in order. `GenerateCurl` then replays the list and appends what each
callback in `generateCurl` would append. `onRequestBody` calls its callback at
most once, so it is modelled as returning the string it would pass (`Some`),
or `None` when it makes no call.

Three behaviours of the code worth spelling out:

- With no headers, the fallback still fires. Its text comes from Ktor's `request.contentType()`, which reads the same header collection, so with no headers the declared type is null and nothing is added. `NoHeadersNoBody` states this as a requirement that the declared type is blank. That is what Ktor guarantees for an empty collection, so the command is then just `curl -X <METHOD> "<url>"`.
- An excluded Content-Type header, or one whose name differs in case, does not suppress the fallback. Ktor still reads the declared type from that header, so the fallback puts a Content-Type segment back into the command (`ExcludedContentTypeStillSynthesized`). For `application/json` Ktor's `.contentType` yields only `application`.
- The code has six body branches. A bare `String` body has its own branch, and it renders the same way as the "other" branch would.

## Model

| member | source | states |
|---|---|---|
| Text.BlankIffAllWhitespace | shared/src/commonMain/kotlin/io/github/kabirnayeem99/ktor2curl/CurlCommandGenerator.kt:81 | `isBlank` holds exactly when every character is whitespace (so the empty string is blank) |
| Text.JoinConcat | shared/src/commonMain/kotlin/io/github/kabirnayeem99/ktor2curl/CurlCommandGenerator.kt:29 | joining two non-empty value lists puts one separator between their joins, so insertion order is kept |
| Text.JoinSnoc | shared/src/commonMain/kotlin/io/github/kabirnayeem99/ktor2curl/CurlCommandGenerator.kt:29 | appending a value appends `sep` and then that value to the join |
| Headers.SurvivingMember | shared/src/commonMain/kotlin/io/github/kabirnayeem99/ktor2curl/CurlCommandGenerator.kt:53 | an entry survives `filterNot` exactly when it is in the collection and its name is not excluded |
| Headers.SurvivingAppend | shared/src/commonMain/kotlin/io/github/kabirnayeem99/ktor2curl/CurlCommandGenerator.kt:53 | filtering distributes over concatenation, so the surviving entries keep their relative order |
| Headers.SurvivingNoneExcluded | shared/src/commonMain/kotlin/io/github/kabirnayeem99/ktor2curl/CurlCommandGenerator.kt:53 | with no name excluded, every entry is passed on unchanged and in order |
| Headers.OnHeaders | shared/src/commonMain/kotlin/io/github/kabirnayeem99/ktor2curl/CurlCommandGenerator.kt:40-62 | the loop, including the early return for an empty collection, produces exactly the trace `HeaderEvents`: one header call per surviving entry in entry order, then the fallback unless a surviving name is "Content-Type" |
| Headers.EmittedHeaders | shared/src/commonMain/kotlin/io/github/kabirnayeem99/ktor2curl/CurlCommandGenerator.kt:53-58 | every header call names a non-excluded entry of the collection; a masked name carries exactly `["[masked]"]`, any other name its own values from the collection; so exclusion wins over masking |
| Headers.EveryKeptEntryEmitted | shared/src/commonMain/kotlin/io/github/kabirnayeem99/ktor2curl/CurlCommandGenerator.kt:53-58 | every non-excluded entry gets its header call, masked or not |
| Headers.FallbackOnce | shared/src/commonMain/kotlin/io/github/kabirnayeem99/ktor2curl/CurlCommandGenerator.kt:52-61 | the fallback fires exactly once when no surviving name is exactly "Content-Type", zero times otherwise, and when it fires it is the last call |
| Headers.ContentTypeSuppressesFallback | shared/src/commonMain/kotlin/io/github/kabirnayeem99/ktor2curl/CurlCommandGenerator.kt:59-61 | a non-excluded "Content-Type" entry suppresses the fallback, even when its name is masked |
| Headers.ContentTypeCaseSensitive | shared/src/commonMain/kotlin/io/github/kabirnayeem99/ktor2curl/CurlCommandGenerator.kt:59 | a header named "content-type" does not count as Content-Type: it is emitted and the fallback still fires |
| Headers.EmptyHeaders | shared/src/commonMain/kotlin/io/github/kabirnayeem99/ktor2curl/CurlCommandGenerator.kt:47-50 | an empty collection yields only the fallback call |
| Headers.ExampleExcluded | shared/src/commonTest/kotlin/io/github/kabirnayeem99/ktor2curl/CurlCommandGeneratorTest.kt:162-181 | with "Authorization" excluded, exactly Content-Type and then User-Agent are emitted, with their values, and there is no fallback |
| Body.OnRequestBody | shared/src/commonMain/kotlin/io/github/kabirnayeem99/ktor2curl/CurlCommandGenerator.kt:64-82 | never passes a blank string; empty content gives no call; multipart gives "[request body omitted]" whatever its parts; text, byte, string and other bodies pass their own text exactly when it is not blank |
| Curl.GenerateCurl | shared/src/commonMain/kotlin/io/github/kabirnayeem99/ktor2curl/CurlCommandGenerator.kt:12-38 | the string built step by step equals `CurlCommand`: method prefix, the header trace's segments, the quoted URL, the `-d` segment |
| Curl.CommandLayout | shared/src/commonMain/kotlin/io/github/kabirnayeem99/ktor2curl/CurlCommandGenerator.kt:19-35 | the command is `curl -X <METHOD>`, then one header segment per surviving entry, then the fallback segment only when no surviving name is Content-Type, then ` "<url>"`, then the `-d` segment, in that order |
| Curl.EmittedText | shared/src/commonMain/kotlin/io/github/kabirnayeem99/ktor2curl/CurlCommandGenerator.kt:28-30 | each emitted header becomes its own ` -H "<key>: <joined values>"` segment, in entry order |
| Curl.FallbackSegmentShape | shared/src/commonMain/kotlin/io/github/kabirnayeem99/ktor2curl/CurlCommandGenerator.kt:24-27 | the fallback appends nothing when the declared type is missing or blank; otherwise it appends a single-valued Content-Type header segment |
| Curl.ExcludedContentTypeStillSynthesized | shared/src/commonMain/kotlin/io/github/kabirnayeem99/ktor2curl/CurlCommandGenerator.kt:24-27 | when the only header is "Content-Type" and it is excluded, the fallback still emits a Content-Type segment with the declared type, and nothing else stands between the method and the URL |
| Curl.MissingContentTypeSynthesized | shared/src/commonMain/kotlin/io/github/kabirnayeem99/ktor2curl/CurlCommandGenerator.kt:24-27 | with no surviving Content-Type entry and a non-blank declared type, exactly one synthesized Content-Type segment stands after the emitted headers and before the URL |
| Curl.DataSegmentIff | shared/src/commonMain/kotlin/io/github/kabirnayeem99/ktor2curl/CurlCommandGenerator.kt:35 | the `-d '<body>'` segment is present exactly when the rendered body is not blank, and it carries that rendering |
| Curl.MultipartData | shared/src/commonMain/kotlin/io/github/kabirnayeem99/ktor2curl/CurlCommandGenerator.kt:77 | a multipart body always yields ` -d '[request body omitted]'` and never its parts |
| Curl.NoHeadersNoBody | shared/src/commonMain/kotlin/io/github/kabirnayeem99/ktor2curl/CurlCommandGenerator.kt:19-35 | with no headers, a blank declared type and a blank body, the command is just `curl -X <METHOD> "<url>"` |
| Curl.CommandNeverBlank | shared/src/commonMain/kotlin/io/github/kabirnayeem99/ktor2curl/KtorToCurl.kt:11 | the command is never blank, so the plugin's `isNotBlank` guard always lets it through to the logger |
| Curl.ExampleGetNoHeaders | shared/src/commonTest/kotlin/io/github/kabirnayeem99/ktor2curl/CurlCommandGeneratorTest.kt:25-34 | GET with no headers and an empty body gives `curl -X GET "<url>"` |
| Curl.ExamplePostBody | shared/src/commonTest/kotlin/io/github/kabirnayeem99/ktor2curl/CurlCommandGeneratorTest.kt:37-47 | POST with no headers and the string body `key=value` gives `curl -X POST "<url>" -d 'key=value'` |
| Curl.ExamplePostBodyExcludedHeader | shared/src/commonTest/kotlin/io/github/kabirnayeem99/ktor2curl/CurlCommandGeneratorTest.kt:37-47 | a variant of that test with an "Authorization" header that is excluded: POST with "Authorization" excluded and the string body `key=value` gives `curl -X POST "<url>" -d 'key=value'` |
| Curl.ExampleMultipleValues | shared/src/commonTest/kotlin/io/github/kabirnayeem99/ktor2curl/CurlCommandGeneratorTest.kt:139-156 | two Accept values are rendered as `-H "Accept: application/json; text/html"` |

## Left out

- The plugin wiring in `KtorToCurl.kt` and the configuration holder `KtorToCurlConfig.kt` are not modelled. These are `createClientPlugin`, the suspending `onRequest` hook, the logger sink and its defaults. Only the `isNotBlank` guard before logging is covered, by `CommandNeverBlank`.
- `coroutineScope` around the builder is left out. The formatter never suspends, so it has no concurrency to model.
- Calls into Ktor are inputs. `request.method.value`, `request.url.buildString()`, `HeadersBuilder.entries()` and `request.contentType()?.contentType` become plain parameters. Ktor derives the declared content type from the request's own headers. In Ktor, `ContentType.contentType` is only the primary type, such as "application". The model takes whatever string that expression yields as an opaque `Option<string>`. Ktor's `ContentType.parse` throws on a Content-Type value without a `/`; that error path is not modelled.
- How Ktor groups header values is not modelled. `HeadersBuilder` merges values under one name and compares names case-insensitively. The model takes the entries as an arbitrary sequence of (name, values) pairs, with the case-sensitive set lookups that the formatter itself does.
- UTF-8 decoding is left out. The bytes of `TextContent` and `ByteArrayContent` are carried as already-decoded strings. An unknown body carries the result of its `toString()`.
- Kotlin's `Char.isWhitespace` is modelled over a fixed character set: Unicode categories Zs, Zl and Zp as of current Unicode, plus U+0009..U+000D and U+001C..U+001F. Future Unicode versions are not tracked.
- Shell quoting is not modelled. The code does not escape `"` in header values or `'` in bodies, so no round-trip or shell-safety property is claimed.
