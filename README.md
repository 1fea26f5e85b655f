# Failure-message classifier and download naming of the concerto CLI client

This project models, in Dafny, the two pieces of real logic in the transport
layer of the concerto command-line client:

- **the failure-message classifier** of `utils/utils.go`. For an HTTP status of
  300 or more, `CheckReturnCode` turns the response body into one
  human-readable message. The first matching body shape wins:
  1. an HTML page (`<html>`) gives the text of its `<title>`;
  2. a `{"errors":{...}}` envelope gives the words of the first comma segment
     of the object, with the characters `, : { } " ] [` stripped;
  3. a `{"error":"..."}` envelope gives the quoted value;
  4. anything else is reported verbatim.

  Extraction goes through `ScrapeErrorMessage`, which falls back to
  `Error executing operation`. The process exit through `log.Fatal` is
  replaced by returning the report `HTTP request failed: [<message>]`.
- **the download naming of `GetFile`** in `webservice/http.go`. The file name
  is the quoted `filename` parameter of the `Content-Disposition` header,
  read as the text from `filename="` to the next quote. This is narrower than
  the quoted-string form of section 4.1 of RFC 6266: quoted-pair escapes are
  not decoded (`filename="a\"b"` gives `a\`), `filename*` is ignored, and
  `filename="` also matches at the end of a longer parameter name such as
  `xfilename="`. The destination is `directoryPath + "/" + fileName`, and
  every request goes to `ApiEndpoint + endpoint`.

Modules, one per concern:

- `Wrappers` holds `Option` and `Result`.
- `Text` holds the parts of Go's `strings` package the classifier uses:
  `Contains`, the first element of `Split(s, ",")`, `FieldsFunc` and `Join`.
  Strings are sequences of runes.
- `Regexp` models the fixed patterns as `open(X*?)close`, where `X` is any
  character but one stop character. Go's `.` does not match a newline, and
  the class `[^"]` excludes the quote. The model follows Go's leftmost-first
  semantics. The match is the one that starts earliest, and Go moves to a
  later start when the group would have to cross a newline. Among matches at
  that start, a lazy group takes the shortest one. The three patterns of
  `utils/utils.go` are lazy. The `Content-Disposition` pattern
  `filename="([^"]*){1}"` is greedy, but its closing quote is also its stop
  character, so a match can close at one index only
  (`Regexp.StopClosedMatchUnique`, `Http.FileNameCloseIsUnique`) and the
  greedy and the lazy reading give the same group. `Find` and `Capture` are
  proved against the declarative predicates `MatchAt` and `FirstMatch`. No
  general regular-expression engine is modelled.
- `Utils` models `ScrapeErrorMessage`, the separator function `f` and the
  message computed by `CheckReturnCode`.
- `Http` models `FileName`, `DestinationPath` and `RequestUrl`. Its
  `Webservice` class holds the configuration and has `Post`, `Get` and
  `GetFile`. The network round trip is a `transport` function passed to each
  call; `canCreate` says whether `os.Create` succeeds and `canWrite` whether
  `io.Copy` can write to the created file.

Notes on the source's behaviour:

- The `{"error":` branch uses the pattern `{"error":"(.*?)"}`. That pattern
  closes on `"}`, not on the next quote, so `{"error":"bad","code":"x"}` is
  reported as `bad","code":"x` (`Utils.ErrorValue`).
- The client has only `Post`, `Get` and `GetFile`.
- `Post` never reads the response and returns no error for a status of 300 or
  more. `Get` and `GetFile` do not look at the status either.

## Model

| member | source | states |
|---|---|---|
| `Text.Contains` | utils/utils.go:45 | `strings.Contains` holds exactly when the needle occurs at some index |
| `Text.FirstSegment` | utils/utils.go:52-55 | `Split(s, ",")[0]` is the prefix of `s` before the first comma, or all of `s` when there is no comma |
| `Text.Fields` | utils/utils.go:57 | every field `FieldsFunc` returns is non-empty and holds no separator |
| `Text.FieldsConcat` | utils/utils.go:57-58 | the fields, joined with an empty glue, are exactly `s` with its separators deleted |
| `Text.FieldsSplitAtSeparator` | utils/utils.go:57 | a separator splits the field list: `Fields(a + [c] + b) == Fields(a) + Fields(b)` |
| `Text.FieldsOfWord` | utils/utils.go:57 | a non-empty run without separators is one field |
| `Text.SeparatorsSkipped` | utils/utils.go:57 | leading separators produce no field |
| `Text.Join` | utils/utils.go:58 | `strings.Join` of no words is empty and of one word is that word; otherwise it starts with the first word |
| `Text.JoinSnoc` | utils/utils.go:58 | one more word adds exactly one glue and the word: `Join(ws + [w], sep) == Join(ws, sep) + sep + w`; with `Text.Join`'s contract this fixes `Join` on every input |
| `Text.JoinEndsWithLast` | utils/utils.go:58 | a join of at least one word ends with the last word |
| `Text.JoinLength` | utils/utils.go:58 | the joined length is the words' total length plus one glue per neighbouring pair |
| `Text.FieldsKeepAbsence` | utils/utils.go:57 | every field is made of characters of the input, so a character the input lacks is in no field |
| `Text.JoinNoneSatisfy` | utils/utils.go:58 | joining separator-free words with a separator-free glue adds no separator |
| `Regexp.Find` | utils/utils.go:21 | `FindStringSubmatch` finds Go's leftmost-first match when there is one, and none only when no match exists |
| `Regexp.Capture` | utils/utils.go:21-28 | group 1 is present exactly when some match exists, and is then the text between the literals of a leftmost-first match (which is unique) |
| `Regexp.FirstMatchUnique` | utils/utils.go:21 | at most one match is leftmost-first |
| `Regexp.CaptureAvoidsStop` | utils/utils.go:46 | the captured group never holds the character the pattern's class excludes |
| `Regexp.CaptureAt` | utils/utils.go:21 | a match with no earlier opening literal and no earlier closing literal is the one captured |
| `Regexp.CaptureEnvelope` | utils/utils.go:21 | round trip: a value wrapped in the pattern's literals is captured back unchanged |
| `Regexp.StopClosedMatchUnique` | webservice/http.go:16 | when the closing literal is the excluded character, a match closes at one position only |
| `Utils.IsSeparator` | utils/utils.go:40-42 | the separator function `f` holds for exactly the seven characters `, : { } " ] [`, and not for the space or the newline |
| `Utils.ScrapeErrorMessage` | utils/utils.go:18-32 | no match gives `Error executing operation`; otherwise the result is group 1 of the leftmost-first match; with a `.`-based pattern the result holds no newline |
| `Utils.ErrorsMessage` | utils/utils.go:48-58 | the `errors` branch's message holds none of the seven separators and no newline; `Utils.ErrorsEnvelopeMessage` and `Utils.ErrorsFirstMember` give its value |
| `Utils.Message` | utils/utils.go:37-63 | a message holding a newline is the body itself, since every scraped message is one line; the branch lemmas `Utils.UnmarkedBodyVerbatim`, `Utils.HtmlPageMessage`, `Utils.ErrorsEnvelopeMessage` and `Utils.ErrorEnvelopeMessage` pin down its value in each branch |
| `Utils.CheckReturnCode` | utils/utils.go:34-67 | below 300 nothing is reported; from 300 on the report is `HTTP request failed: [` + message + `]` |
| `Utils.ReportDeterminesMessage` | utils/utils.go:66 | two failure reports are equal exactly when their messages are, whatever the statuses |
| `Utils.UnmarkedBodyVerbatim` | utils/utils.go:45-66 | a body with none of the three markers is its own message |
| `Utils.HtmlPageMessage` | utils/utils.go:45-47 | an HTML page wins over the JSON shapes; its message is the leftmost-first `<title>` text, or the fallback; it holds no newline |
| `Utils.ErrorsEnvelopeMessage` | utils/utils.go:48-58 | the `errors` message is the words of the first comma segment of the match joined by spaces, or the fallback when nothing matches |
| `Utils.ErrorsMessageStripped` | utils/utils.go:40-58 | once separators and spaces are deleted, the `errors` message and the first comma segment of the match are the same text: the branch loses, adds and reorders nothing else |
| `Utils.WordSurvivesErrorsBranch` | utils/utils.go:52-58 | a word without separators, such as the fallback, passes the split and join unchanged |
| `Utils.ErrorsFirstMember` | utils/utils.go:48-58 | `{"errors":{"k":"m",...}}` gives `k m`: only the first member is reported |
| `Utils.ErrorEnvelopeMessage` | utils/utils.go:60-62 | the `error` message is the text between `{"error":"` and the first following `"}`, or the fallback |
| `Utils.ErrorValue` | utils/utils.go:60-62 | `{"error":"v"}` gives `v`, including a `v` that holds quotes |
| `Utils.HtmlTitleExample` | utils/utils.go:45-47 | `<html><head><title>Not Found</title></head></html>` gives `Not Found` |
| `Utils.HtmlWithoutTitleExample` | utils/utils.go:45-47 | a page without a `<title>` gives `Error executing operation` |
| `Utils.PlainTextExample` | utils/utils.go:65-66 | `plain text failure` is reported verbatim |
| `Http.FileName` | webservice/http.go:97-102 | the file name exists exactly when the pattern matches, is then the text of the leftmost match, and never contains `"` |
| `Http.FileNameFromFirstOccurrence` | webservice/http.go:102 | the name is the text between the first `filename="` and the next `"` |
| `Http.FileNameRoundTrip` | webservice/http.go:16 | `attachment; filename="n"` yields `n` for every quote-free `n` |
| `Http.FileNameCloseIsUnique` | webservice/http.go:16 | the greedy `[^"]*` group and the shortest group coincide |
| `Http.DestinationPath` | webservice/http.go:106 | the path is the directory, one `/`, then the file name, and the name is recoverable from it |
| `Http.RequestUrl` | webservice/http.go:71 | the URL is the endpoint base followed directly by the endpoint, with no separator inserted |
| `Http.RequestUrlInjective` | webservice/http.go:89 | distinct endpoints reach distinct URLs |
| `Http.HeaderGet` | webservice/http.go:102 | an absent header reads as the empty string |
| `Http.Webservice.constructor` | webservice/http.go:23-35 | the service keeps the configuration it is built from |
| `Http.Webservice.Post` | webservice/http.go:54-66 | the JSON body is POSTed to `ApiEndpoint + endpoint`; only a transport failure is an error |
| `Http.Webservice.Get` | webservice/http.go:68-84 | the body is returned whatever the status; a transport or body-read failure is an error |
| `Http.Webservice.GetFile` | webservice/http.go:86-121 | no file name is a checked error, not a crash; a failed create, body read or write is an error; on success the path is `directoryPath/fileName` and the body is what gets written |

## Left out

- TLS client construction (`httpClient`, webservice/http.go:37-52): the key pair loading, `InsecureSkipVerify` and the transport are library calls. The HTTP client is the `transport` parameter.
- Configuration loading in `NewWebService` (webservice/http.go:23-35): the constructor takes the configuration value.
- Network round trips, reading bodies, `os.Create` and `io.Copy`: these are I/O. They are the `transport`, `canCreate` and `canWrite` parameters. A partially written file after a failed copy is not modelled.
- `transport` is a function, so two identical requests in one call sequence would get the same answer. No call in the source issues a request twice.
- `log.Fatal` in `CheckError` and `CheckReturnCode` (utils/utils.go:14, 66) and every `log.Debugf`: process exit becomes a returned report, and logging is dropped.
- `Exists` (utils/utils.go:70-73) is a file-system query.
- The regexp compile-error branch and the `len(scrapped) < 2` test (utils/utils.go:20-23): the patterns are fixed, compile, and have one group. The same goes for the unreachable `err` test at webservice/http.go:103-105.
- Byte-to-string conversion: a body is taken as a sequence of runes. The decoding of invalid UTF-8 is not modelled.
- Http.HeaderGet: header names are taken as already canonical; the case-insensitive lookup of `Header.Get` is not modelled.
- Http.Webservice.Post: the response status is not part of the model, because the source never reads it.
- blueprint/templates/templates.go, settings/cloud_accounts/cloud_accounts.go and firewall/iptables.go are not part of this model. They are command-line glue, JSON marshalling, table printing and shell invocations.
