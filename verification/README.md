# minimal-api, modelled in Dafny

This project models the core of minimal-api, a small thread-pooled HTTP
server written in Rust, and proves properties of the model. The core
covers these parts:

- **the `http` library**:
  - status texts;
  - request lines;
  - the JSON-style `Respond` encoder;
  - responses with their envelope and wire frame;
  - routes with their five canned responses.
- **the `time` library**:
  - leap years and month lengths;
  - epoch days to a calendar date;
  - the `YYYY-MM-DDTHH:MM:SS` timestamp.
- **the `logger` library**:
  - ANSI colour codes;
  - severities and their order;
  - the write-once threshold;
  - the filter and the printed line.
- **the older `http` layer kept in the server crate's source tree** (src/http): status, response and request. The crate never compiles it (see "## Left out").
- **its build-time `ServerConfig`**.
- **the mock responses it serves at `/Services/Session/GenerateSessionId`**.

Modelling conventions, used throughout:

- Strings are ASCII `seq<char>`, so `|s|` is the byte length that Rust's
  `len` reports.
- A `panic!`, `unwrap` or `expect` failure is the `None` of an `Option`.
  In `ServerConfig::new` it is the `Failure` of a `Result` that names the
  check that fired.
- Effects become values:
  - the clock reading is a parameter;
  - a `TcpStream` write is the byte string it would write;
  - a `println!` is the text it would print;
  - the logger's `OnceLock` is an explicit cell value that every call
    takes and returns.
- A `HashMap` is iterated in an unspecified order, so its encoding takes
  the order as a sequence of entries. `Respond.Enumerates` ties that
  sequence to the map. Every property of a map encoding holds for every
  order.
- The server's older map encoder writes `"k":"v", ` for each entry and
  then trims trailing commas. That trim never removes anything, because
  every entry ends in a space. A non-empty map therefore ends in `", }`.
  The model keeps this behaviour (`LegacyResponse.MapJsonKeepsSeparator`).

Files:

| file | modules |
|---|---|
| `strings.dfy` | `Strings`: join, split, decimal printing and `usize` parsing |
| `status.dfy` | `HttpConstants`, `HttpStatus` |
| `request.dfy` | `HttpRequest` |
| `respond.dfy` | `Respond` |
| `response.dfy` | `HttpResponse` |
| `route.dfy` | `HttpRoute` |
| `time.dfy` | `Time` |
| `logger.dfy` | `LogColors`, `LogSeverities`, `Logger` |
| `legacy_http.dfy` | `LegacyStatus`, `LegacyResponse`, `LegacyRequest` |
| `server_config.dfy` | `ServerConfiguration` |
| `mock.dfy` | `MockResponses` |

## Model

Functions that only compute have no row of their own, and the rows of the lemmas and members that state their properties stand in for them:

- `Respond.GetJson` (`StringsJson`, `ObjectJson`, `ScalarRoundTrips`);
- `LegacyResponse.MapJson` (`MapJsonKeepsSeparator`);
- `LegacyStatus.Text` (`AgreesWithLibrary`);
- `Time.IsLeapYearUtc` (`DaysInYear`, `FebruaryFollowsLeapYears`);
- `Time.YmdAsWritten` (`AsWrittenPanicWindow`, `AsWrittenDrift`, `DaysSinceEpochToYmd`);
- `Time.FormatSimpleDate` (`FormatSimpleDateReadsBack`);
- `HttpResponse.Envelope` (`EnvelopeLayout`, `RenderBody`);
- `HttpResponse.Display` (`SendMatchesDisplay`);
- `Logger.LogLine` (`LogLineLength`, `LogLineRoundTrip`);
- `LogColors.Code` (`CodeShape`, `CodeInjective`, `ColorOfCodeInverse`).

| member | source | states |
|---|---|---|
| HttpStatus.Text | libs/http/src/status.rs:18-29 | no status text contains a carriage return or a line feed, so it cannot break the status line |
| HttpStatus.Code | libs/http/src/status.rs:18-29 | every status code is a three-digit HTTP code between 100 and 599 |
| HttpStatus.CodeHeadsText | libs/http/src/status.rs:21-25 | every text starts with its numeric code printed in decimal |
| HttpStatus.TextShape | libs/http/src/status.rs:21-25 | every text is three digits, one space, then upper-case words separated by single spaces |
| HttpStatus.TextInjective | libs/http/src/status.rs:20-26 | distinct statuses print distinct texts |
| HttpStatus.ConstantsDenoteVariants | libs/http/src/status.rs:10-16 | the five associated constants print the five expected texts |
| HttpStatus.OnlyOkIsSuccess | libs/http/src/status.rs:21-25 | a text starts with '2' exactly when the status is `Ok` |
| HttpRequest.New | libs/http/src/request.rs:13-18 | a built request keeps the given path and method |
| HttpRequest.Get | libs/http/src/request.rs:20-22 | the `get` line reads back as method `GET` and exactly the given path |
| HttpRequest.Post | libs/http/src/request.rs:24-26 | the `post` line reads back as method `POST` and exactly the given path |
| HttpRequest.Put | libs/http/src/request.rs:28-30 | the `put` line reads back as method `PUT` and exactly the given path |
| HttpRequest.Delete | libs/http/src/request.rs:32-34 | the `delete` line reads back as method `DELETE` and exactly the given path |
| HttpRequest.RequestLineRoundTrip | libs/http/src/request.rs:20-34 | parsing a built request line recovers its method and path, whatever the path holds |
| HttpRequest.RequestLineMentions | libs/http/src/request.rs:20-34 | every request line contains its method, its path and `HTTP/` |
| HttpRequest.MethodsHaveNoSpace | libs/http/src/methods.rs:1-11 | none of the four method names contains a space |
| HttpRequest.BuildersDistinct | libs/http/src/request.rs:20-34 | each builder is one-to-one in the path, and no two builders ever produce the same line |
| HttpRequest.RequestLineSplits | libs/http/src/request.rs:20-34 | for a path without spaces, splitting the line on spaces yields exactly method, path and version |
| Respond.StringsJson | libs/http/src/respond.rs:55-66 | a string vector encodes as its elements, unchanged, joined by single commas inside brackets, with no trailing comma; the empty vector gives `[]` |
| Respond.ObjectJson | libs/http/src/respond.rs:69-80 | a map encodes as its `"key":value` entries joined by single commas inside braces, with no trailing comma |
| Respond.ScalarRoundTrips | libs/http/src/respond.rs:20-52 | strings come back by unquoting, booleans read back as `true`/`false`, and a `u8` reads back from its one to three digits |
| Respond.StringsSplitBack | libs/http/src/respond.rs:55-66 | when no element contains a comma, splitting the bracket contents on commas recovers the vector |
| Respond.CollectEnumerates | src/routes/mock/session.rs:8-13 | entries with distinct keys, collected into a map, form one enumeration of that map |
| Respond.EnumerationsSameLength | libs/http/src/respond.rs:69-80 | any two iteration orders of the same map have the same number of entries and the same total text length |
| Respond.EnumerationListsReference | libs/http/src/respond.rs:69-80 | any two iteration orders of one map list the same entries: each entry of one is an entry of the other |
| Respond.ObjectLength | libs/http/src/respond.rs:69-80 | the encoded length of a map is the same for every iteration order: entry texts, plus commas, plus braces |
| Respond.EntriesAppear | libs/http/src/respond.rs:69-80 | every key of the map appears with its value in the encoding, whatever the order |
| Respond.SameMapEncodings | libs/http/src/respond.rs:69-80 | two orders of one map give encodings of equal length, both braced, each containing every entry |
| Respond.ObjectSplitsIntoEntries | libs/http/src/respond.rs:69-80 | when no entry contains a comma, splitting the brace contents on commas yields the entry texts in order |
| HttpResponse.StatusOfText | libs/http/src/status.rs:18-29 | a status read back from a text prints that same text |
| HttpResponse.StatusOfTextInverse | libs/http/src/status.rs:18-29 | reading back the text of any status gives that status |
| HttpResponse.FrameRoundTrip | libs/http/src/response.rs:130-138 | a client that parses the status line, reads `Content-Length` and takes that many bytes recovers exactly the status and the body |
| HttpResponse.EnvelopeLayout | libs/http/src/response.rs:142-151 | the envelope is 34 bytes longer than its three fields together, and the content follows `{"content":` directly |
| HttpResponse.RenderBody | libs/http/src/response.rs:142-151 | a raw body is the content itself; an enveloped body starts with `{"content":` followed by the content |
| HttpResponse.Len | libs/http/src/response.rs:165-167 | the length is the content length when raw, and the three fields plus 34 bytes otherwise |
| HttpResponse.IsEmpty | libs/http/src/response.rs:181-183 | a response is empty only when it is raw and its content is empty; an envelope is never empty |
| HttpResponse.FramedDeclaresBodyLength | libs/http/src/response.rs:130-138 | the stored header of a built response parses back to its status and exactly its rendered body |
| HttpResponse.AddHttpHeaders | libs/http/src/response.rs:130-138 | adding headers changes only the header, and the header becomes a correctly framed copy of the body |
| HttpResponse.New | libs/http/src/response.rs:118-126 | a new response keeps its status, content and time, and its header is correctly framed |
| HttpResponse.NewAt | libs/http/src/response.rs:118-126 | with the clock reading in seconds, the constructor panics exactly on the last twelve days of each year, because `Date::new` does; otherwise the response keeps status, content and the reading, and is correctly framed |
| HttpResponse.Ok | libs/http/src/response.rs:39-41 | the success response carries `Ok`, its content and a correct frame for either raw flag |
| HttpResponse.NotFound | libs/http/src/response.rs:54-60 | the not-found response carries its fixed quoted message under a correct 404 frame |
| HttpResponse.BadRequest | libs/http/src/response.rs:73-75 | the bad-request response carries its fixed quoted message under a correct 400 frame |
| HttpResponse.UnprocessableEntity | libs/http/src/response.rs:89-95 | the 422 response carries its fixed quoted message under a correct frame |
| HttpResponse.ServerError | libs/http/src/response.rs:108-114 | the 500 response carries its fixed quoted message under a correct frame |
| HttpResponse.Send | libs/http/src/response.rs:201-217 | the written bytes parse back to the status and the rendered body |
| HttpResponse.SendMatchesDisplay | libs/http/src/response.rs:201-225 | sending with the flag the response was built with writes exactly what `Display` prints |
| HttpResponse.RawFlagOnlyChangesHeader | libs/http/src/response.rs:118-151 | the raw and enveloped builds of one response differ only in their header, and the two headers differ |
| HttpRoute.New | libs/http/src/route.rs:33-50 | a route has five actions: the success response with the given content first, then 404, 400, 422 and 500, every one correctly framed |
| HttpRoute.Actions | libs/http/src/route.rs:42-48 | the five canned responses, success first and then 404, 400, 422 and 500, each correctly framed |
| HttpRoute.ActionWellFramed | libs/http/src/route.rs:42-48 | each action's header parses back to that action's status and body |
| HttpRoute.NewRequestLine | libs/http/src/route.rs:35-41 | a route's request line parses to the method it was built for, or to `GET` for an unknown method, with the given path |
| HttpRoute.GetPrimaryRoute | libs/http/src/route.rs:29-31 | the primary route exists exactly when there is an action, and it is the first action |
| HttpRoute.WrappersUseTheirMethod | libs/http/src/route.rs:13-27 | each of the four wrappers builds the request line of its own method |
| HttpRoute.PrimaryRouteIsSuccess | libs/http/src/route.rs:29-31 | for a built route, `get_primary_route` never panics and returns the success response with the route's content |
| HttpRoute.ErrorActionsAreFixed | libs/http/src/route.rs:42-48 | actions two to five are the fixed error constructors, the same for every method, path and success content |
| HttpRoute.UnknownMethodFallsBackToGet | libs/http/src/route.rs:35-41 | an unknown method name builds the same route as `get` |
| Time.DaysInYear | libs/time/src/date.rs:45-55 | a year has 366 days exactly when it is a leap year, and 365 otherwise |
| Time.DaysInMonthUtc | libs/time/src/date.rs:57-70 | months 1 to 12 have between 28 and 31 days; any other month panics |
| Time.FebruaryFollowsLeapYears | libs/time/src/date.rs:57-70 | February has 29 days exactly in leap years, and every other month has at least 30 |
| Time.MonthTable | libs/time/src/date.rs:57-70 | the year's twelve month lengths, January first, each as `days_in_month_utc` gives it |
| Time.MonthsSumToYear | libs/time/src/date.rs:49-70 | the twelve month lengths add up to the length of the year |
| Time.YearOf | libs/time/src/date.rs:24-30 | the year loop ends with a day index inside its year, and the skipped years plus that index equal the input |
| Time.YearOfInverse | libs/time/src/date.rs:24-30 | a day index inside a year, counted from an earlier year, is found again by the year loop |
| Time.MonthDayAsWritten | libs/time/src/date.rs:32-40 | when the month loop as written returns, its month is between 1 and 12 and its day is smaller than that month's length |
| Time.MonthDayAsWrittenIsWalk | libs/time/src/date.rs:32-37 | the source's month loop is a walk over the month table that steps one day short per month |
| Time.ShrunkWalkPanics | libs/time/src/date.rs:32-37 | the short-stepping walk panics whenever the day lies past the shortened span of the table |
| Time.ShrunkWalkMeaning | libs/time/src/date.rs:32-40 | when the short-stepping walk returns `(m, day)`, month `m` is the one whose shortened span holds the day |
| Time.AsWrittenPanicWindow | libs/time/src/date.rs:22-43 | the conversion as written panics exactly on the last twelve days of every year |
| Time.AsWrittenDrift | libs/time/src/date.rs:22-43 | when the conversion as written returns a date, that date lies `month - 1` days after the true one |
| Time.AsWrittenMisdatesJanuary31 | libs/time/src/date.rs:34-35 | epoch day 30 is 31 January 1970, but the source returns 1 February 1970 |
| Time.AsWrittenPanicsOnDecember20 | libs/time/src/date.rs:34-35 | epoch day 353 is 20 December 1970, but the source's month loop runs past December and panics |
| Time.DaysSinceEpochToYmd | libs/time/src/date.rs:22-43 | the source's two loops, with their invariants, compute the as-written conversion; a returned date has a month from 1 to 12 and a day below the month's length |
| Time.Walk | libs/time/src/date.rs:32-37 | the corrected month loop lands on a month and a day within that month, and the days before it plus the day equal the input |
| Time.WalkInverse | libs/time/src/date.rs:32-37 | started at any earlier month, the corrected walk finds a month and day again from their offset |
| Time.YmdCorrected | libs/time/src/date.rs:22-43 | the corrected conversion always returns a valid date whose epoch-day count is the input |
| Time.DateRoundTrip | libs/time/src/date.rs:22-43 | every valid date survives the trip through epoch days and back |
| Time.ClockOf | libs/time/src/date.rs:92-94 | hours, minutes and seconds are in range and add back up to the remaining seconds |
| Time.PaddedField | libs/time/src/date.rs:96-99 | a `{:0w}` field of a number below `10^w` is exactly `w` digits and reads back as the number |
| Time.TimestampRoundTrip | libs/time/src/date.rs:96-99 | the `YYYY-MM-DDTHH:MM:SS` text is 19 bytes and reads back to its date and clock, for years below 10000 |
| Time.SecondsDecomposition | libs/time/src/date.rs:85-94 | whole days and the clock of the remaining seconds add back up to the seconds |
| Time.FormatSimpleDateReadsBack | libs/time/src/date.rs:72-100 | the formatter panics exactly when the month loop does; otherwise its text reads back to the loop's date and the clock |
| Time.CorrectedTimestampDenotesInstant | libs/time/src/date.rs:72-100 | with the corrected conversion, the text denotes the instant it was made from |
| Time.NewDate | libs/time/src/date.rs:10-16 | `Date::new` panics exactly when the conversion does; otherwise it stores the given seconds, and for years below 10000 its text reads back to the loop's date and the clock of those seconds |
| LogColors.CodeShape | libs/logger/src/log_color.rs:16-31 | every colour code is ESC, `[`, digits and semicolons, then `m`, five to seven bytes long |
| LogColors.ColorOfCode | libs/logger/src/log_color.rs:16-31 | a colour read back from a code prints that same code |
| LogColors.CodeInjective | libs/logger/src/log_color.rs:16-31 | the ten colours print ten distinct codes |
| LogColors.ColorOfCodeInverse | libs/logger/src/log_color.rs:16-31 | reading back any colour's code gives that colour |
| LogColors.Bright | libs/logger/src/log_color.rs:3-14 | the bright variant of a base colour is neither a base colour nor white nor grey |
| LogColors.BrightInsertsBold | libs/logger/src/log_color.rs:19-26 | each bright code is its base code with `;1` inserted before the final `m` |
| LogSeverities.OrderIsTotal | libs/logger/src/log_severity.rs:3-9 | the derived order is total, antisymmetric and transitive, with `Debug` least and `Error` greatest |
| LogSeverities.DeclarationOrder | libs/logger/src/log_severity.rs:3-9 | `Debug` < `Info` < `Warning` < `Error` |
| LogSeverities.Label | libs/logger/src/log_severity.rs:22-31 | every label is four or five characters long |
| LogSeverities.Color | libs/logger/src/log_severity.rs:11-19 | every severity prints in a bright colour |
| LogSeverities.SeverityOfColor | libs/logger/src/log_severity.rs:11-19 | a severity read back from a colour has that colour |
| LogSeverities.ColorAndLabelInjective | libs/logger/src/log_severity.rs:11-31 | distinct severities have distinct colours and distinct labels, and the colour reads back to the severity |
| LogSeverities.PaddedLabel | libs/logger/src/lib.rs:184-186 | the `{: <7}` cell of `[label]` is exactly seven bytes: the bracketed label, then spaces |
| Logger.GetLoggingSeverity | libs/logger/src/lib.rs:54-56 | an empty cell reads `Info` and then holds it; a full cell reads its value and is left unchanged |
| Logger.SetLoggingSeverity | libs/logger/src/lib.rs:216-218 | setting succeeds exactly on an empty cell, which then holds the new value; a failed set changes nothing |
| Logger.Log | libs/logger/src/lib.rs:181-191 | a message is printed exactly when its severity is at or above the threshold (`Info` if none was ever set), as its line plus a newline; afterwards the cell holds that threshold |
| Logger.LogDebug | libs/logger/src/lib.rs:76-83 | a debug message is printed only under a `Debug` threshold; the printed text is its line plus a newline, and afterwards the cell holds the threshold |
| Logger.LogInfo | libs/logger/src/lib.rs:103-110 | an info message is printed unless the threshold is `Warning` or `Error`; the printed text is its line plus a newline, and afterwards the cell holds the threshold |
| Logger.LogWarning | libs/logger/src/lib.rs:130-137 | a warning is printed unless the threshold is `Error`; the printed text is its line plus a newline, and afterwards the cell holds the threshold |
| Logger.LogError | libs/logger/src/lib.rs:139-163 | an error is printed at every threshold |
| Logger.LogLineLength | libs/logger/src/lib.rs:183-189 | a printed line is the message plus 29 bytes |
| Logger.LogLineRoundTrip | libs/logger/src/lib.rs:183-189 | every printed line reads back to its severity and its message, whatever the message holds |
| Logger.DefaultIsInfo | libs/logger/src/lib.rs:54-56 | with no threshold ever set, only `Debug` messages are filtered out |
| Logger.LogBeforeSetPinsDefault | libs/logger/src/lib.rs:54-56 | once a message has been logged, setting the threshold fails and the threshold stays `Info` |
| Logger.SetIsWriteOnce | libs/logger/src/lib.rs:216-218 | a second set always fails and leaves the threshold the first call decided |
| Logger.RunWhileHolding | libs/logger/src/lib.rs:181-218 | once a threshold is held, any sequence of calls prints exactly the messages at or above it, and no set changes it |
| Logger.RunFromStart | libs/logger/src/lib.rs:181-218 | from an empty cell, a sequence of calls prints exactly the messages at or above the threshold fixed by the first call |
| Logger.InfoSuppressesDebug | libs/logger/src/lib.rs:206-218 | after setting `Info` first, no debug message is ever printed |
| LegacyStatus.ToLibrary | src/http/status.rs:1-4 | each older status maps to the library status `Ok` or `NotFound` |
| LegacyStatus.AgreesWithLibrary | src/http/status.rs:11-19 | the older texts equal the library's texts for the same status, the two texts differ, and the constants denote their variants |
| LegacyResponse.Quote | src/http/response.rs:100-104 | a quoted string is two bytes longer and unquotes back to the original |
| LegacyResponse.MapJsonKeepsSeparator | src/http/response.rs:106-116 | trimming commas removes nothing, so a non-empty map ends in `", }` and an empty one is `{}` |
| LegacyResponse.StringResponse | src/http/response.rs:59-65 | the stored content unquotes to the given text; the status and time are the given ones |
| LegacyResponse.ObjectResponse | src/http/response.rs:67-76 | the stored content is every entry, as `"key":"value"` followed by `, `, in iteration order inside braces; the comma trim removes nothing, so it is `{}` for an empty map and otherwise runs from `{"` to `", }` |
| LegacyResponse.RespondBody | src/http/response.rs:78-85 | the older body is byte for byte the library's envelope for the same content, status and time |
| LegacyResponse.Len | src/http/response.rs:87-89 | the length is the three fields plus 34 bytes |
| LegacyResponse.IsEmpty | src/http/response.rs:91-93 | a response body is never empty |
| LegacyResponse.FrameIsLibraryFrame | src/http/response.rs:38-56 | the older frame is the library's frame of the same status and body |
| LegacyResponse.Ok | src/http/response.rs:36-44 | the bytes parse back to status 200 and the envelope of the quoted contents |
| LegacyResponse.NotFound | src/http/response.rs:46-57 | the bytes parse back to status 404 and the envelope of the quoted fixed message |
| LegacyResponse.OkMatchesLibrary | src/http/response.rs:36-57 | `ok` writes what the library sends for the quoted content, while the two not-found messages differ by a full stop |
| LegacyRequest.New | src/http/request.rs:3-15 | a built request keeps the given path and method, and is the request the library builds from them |
| LegacyRequest.GetSplits | src/http/request.rs:17-19 | the GET line splits into method, path and version, and with the library's version it is the library's GET line |
| ServerConfiguration.New | src/environment/server.rs:33-53 | the configuration aborts with a non-numeric `WORKERS` exactly when that text does not parse, before any other check; then an empty IP, an empty port and zero workers abort, in that order; an accepted configuration is valid and stored verbatim |
| ServerConfiguration.NewAcceptsValid | src/environment/server.rs:33-53 | every valid configuration is accepted from its decimal worker count, and comes back unchanged |
| ServerConfiguration.AddressRoundTrip | src/environment/server.rs:67-69 | when the port has no colon, splitting the address at its last colon recovers the IP and the port |
| MockResponses.Fields | src/routes/mock/base_response.rs:47-85 | a response exposes nine named fields |
| MockResponses.GetDefaultResponse | src/routes/mock/base_response.rs:47-86 | the default map is enumerated by the nine fields in declaration order |
| MockResponses.FieldNamesDistinct | src/routes/mock/base_response.rs:47-85 | the nine field names are pairwise distinct, so the map loses no entry |
| MockResponses.DefaultValuesEncode | src/routes/mock/base_response.rs:19-29 | the default encodes its flag as `true`, its numbers as `0`, its strings as `""` and its dictionaries as `[]` |
| MockResponses.DefaultResponseJson | src/routes/mock/base_response.rs:47-86 | every iteration order of the default map has nine entries, is braced, is as long as the declaration order, and contains every field's entry |
| MockResponses.SessionEntries | src/routes/mock/session.rs:8-13 | the session response chains ten entries |
| MockResponses.SessionMap | src/routes/mock/session.rs:8-13 | the collected session map is enumerated by the session entry followed by the nine default fields |
| MockResponses.SessionKeysDistinct | src/routes/mock/session.rs:8-13 | no default field is named `SessionId`, so the collection replaces nothing |
| MockResponses.CreateNewSessionId | src/routes/mock/session.rs:6-15 | in any iteration order the body has ten entries, is braced, has the same length, and contains `"SessionId":"1234567890ABCDEF"` |
| MockResponses.SessionBodyIsEntries | src/routes/mock/session.rs:6-15 | in any iteration order the body contains each of the ten chained entries, and splitting it on commas gives exactly the entries of that order, each one of the ten, so nothing else is in it |

## Left out

- Threads, the worker pool, the job queue and the TCP listener (src/server): concurrency and sockets are outside a functional model.
- Writing to the `TcpStream`: `HttpResponse.Send` is the byte string that `send` writes, and I/O errors are not modelled.
- `println!`: `Logger.Log` returns the text it would print.
- The system clock:
  - `Date::new` and every response constructor take the seconds or the `Date` as a parameter;
  - `HttpRoute.Readings` holds the five readings of `Route::new`;
  - the "before the epoch" error branch of the formatter cannot arise, because seconds are a `nat`.
- `env!` in `ServerConfig::new`: the three texts are parameters. `ServerConfig::default` and `Date::default` only forward to `new`.
- The attribute macros (libs/attributes, libs/http_attributes) and the raw-GET registration of the session route. Only the body the route serves is modelled.
- libs/logger/src/logger.rs: an older logger that lib.rs does not use; its severity comparison is reversed.
- src/routes/index.rs and src/environment/app.rs: routing glue outside this model.
- Route::new at route.rs:43 passes one argument to `Response::ok`, which takes two. The model uses `false` for the missing raw flag, as every other canned response does.
- src/http/request.rs takes `HTTP_VERSION` and `GET` from src/http/constants.rs and src/http/methods.rs. Those files are not part of this model, so `LegacyRequest.Get` takes the version as a parameter and uses the library's `GET`.
- src/http is not compiled into the server: src/lib.rs declares only the `server`, `environment` and `routes` modules, and nothing declares `mod http`. Its imports also name modules the crate lacks (`crate::time::date::Date` in src/http/response.rs, `crate::http::constants` in src/http/request.rs). The `LegacyStatus`, `LegacyResponse` and `LegacyRequest` modules model that source text as written. `Time.Date` stands in for the missing `crate::time::date::Date`. `LegacyResponse.OkMatchesLibrary` compares that text with the library; it does not describe code the server runs.
- The older `Status` is declared twice, once in src/http/status.rs and once in src/http/response.rs, with identical variants and texts. It is modelled once.
- The `T: ToString`/`U: ToString` map of the older layer is modelled with string keys and values.
- HttpResponse.New: takes the `Date` as a parameter, so it and the canned constructors (`Ok`, `NotFound`, `BadRequest`, `UnprocessableEntity`, `ServerError`) are modelled only for readings where `Time.NewDate` succeeds. In the source they panic on the last twelve days of every year, because `Date::new` does. `HttpResponse.NewAt` states that window.
- HttpRoute.New: takes five `Date` readings, so it is modelled only for readings where `Time.NewDate` succeeds. `Route::new` panics whenever one of its five `Date::new` calls falls in the last twelve days of a year.
- Non-ASCII text: strings are sequences of characters, and a character counts as one byte. A multi-byte UTF-8 character in the content would make the source's `Content-Length` (a byte count) larger than the length the model computes.
- Time.DaysSinceEpochToYmd: the year is an unbounded integer. The source's `i32` year would overflow only past year 2^31, which needs timestamps around 6.8e16 seconds.
- Time.FormatSimpleDateReadsBack: read-back is stated only for years below 10000. Past that, `{:04}` prints five or more digits and the fixed-width reader does not apply.
- Time.TimestampRoundTrip: stated for years below 10000, for the same reason.
- Time.NewDate: the read-back of the stored text is stated for years below 10000, for the same reason.
- Time.CorrectedTimestampDenotesInstant: stated for years below 10000, for the same reason.

## Findings

| source | as written | input that shows it | evidently intended | confidence | as-written member | corrected member |
|---|---|---|---|---|---|---|
| libs/time/src/date.rs:34-35 | the month loop compares the remaining days with, and subtracts, the month length minus one | epoch day 30 (31 January 1970) gives 1 February 1970; epoch day 353 (20 December 1970) runs past December into `days_in_month_utc(1970, 13)` and panics | compare with and subtract the whole month length, so that every epoch day maps to its calendar date | high, not executed | Time.AsWrittenMisdatesJanuary31, Time.AsWrittenPanicsOnDecember20 | Time.YmdCorrected, Time.DateRoundTrip |
