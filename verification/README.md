# KimaiBot, modelled in Dafny

KimaiBot is a small Windows daemon that logs in to a Kimai timesheet site
and submits one fixed timesheet entry a day. Commands reach it through a
named pipe. This project models the five pieces of it that carry logic of
their own, each on its own, because the code does not build as a whole:

- **`KimaiHttpClient.Authentify`** (`http_client.dfy`, with the .NET string
  and number primitives it uses in `text.dfy` and `int32_text.dfy`). It reads
  the user id out of the login page. It finds the first `userID`, then the
  first `=` after it, skips two characters, and reads up to `;`, a space or
  the end. A span over 20 characters is rejected; otherwise the trimmed span
  goes to `int.TryParse`. Every failure, including an exception, becomes `-1`.
- **The time fields of `AddEntryComboRnD`** (`http_client.dfy`,
  `time_span.dfy`): `TimeSpan` addition with its 64-bit overflow check, and
  the `hh\:mm\:ss` rendering. That rendering drops whole days and the sign.
- **The two command dispatchers**, `KimaiBot.HandleCommand`
  (`kimai_bot.dfy`) and `KimaiServer.HandleCommand` (`kimai_server.dfy`),
  with their shared vocabulary in `commands.dfy`. Each is a pure step from a
  session to a reply, a new session and the remote calls made. The session
  is the timer's state (started, interval, number of `Elapsed` handlers),
  the number of cookie resets, and whether the `HttpClientHandler` has sent
  a request. Both logouts replace the handler's `CookieContainer`, and .NET
  refuses that once the handler has sent a request: the setter throws
  `InvalidOperationException`, which nothing catches. So a logout after any
  login attempt faults, and in `KimaiBot` it never reaches `timer.Stop()`.
- **The command queue of `PipeServer`** (`pipe_server.dfy`): the read loop
  that appends decoded chunks, and `GetRequest`, which pops the oldest one.
- **The daily loop of the auto-entry service**
  (`background_service.dfy`): authenticate on the first iteration only,
  submit an entry on every iteration, and wait a day between iterations.

Remote calls (the HTTP round trips) are inputs of type `Remote`: a call
either returns a boolean or raises. Where the source does not catch the
exception, the model reports a fault: no reply, and the state is unchanged
except that the handler is marked as having sent a request.
Where it does catch it, the model follows the catch. In particular,
`AddEntryComboRnD` in `KimaiBotService/HttpClient.cs` computes
`startTime + duration` before its `try`. A sum outside the 64-bit tick
range therefore throws out of the method, although POST failures are
caught. `HttpClient.AddEntryComboRnD` models this as `Raised`.

Pages are sequences of Unicode characters, while .NET strings index UTF-16
code units. Only relative positions matter to the parser, with two
exceptions. The first is the 20-character cap; the line for
`HttpClient.ExtractUserId` under "Left out" covers it. The second is that
the value starts two code units after the `=`. When a character outside the
Basic Multilingual Plane follows the `=`, that lands inside its surrogate
pair, and the model follows .NET there (`SurrogatePairSplit`).

`KimaiBot` calls the zero-argument `Authenticate()` and
`AddEntryComboRnD()`. Only the client in `KimaiBotService/KimaiHttpClient.cs`
has them, so the bot is modelled against that client. That client's posted
credentials are its readonly fields, both `""`, and none of its calls is
guarded.

## Model

| member | source | states |
|---|---|---|
| Text.IndexOf | KimaiBotService/HttpClient.cs:43 | the result is the first index at or after the start where the pattern occurs, and `None` exactly when it occurs nowhere from there |
| Text.IndexOfAny | KimaiBotService/HttpClient.cs:51-59 | the result is the first index at or after the start holding one of the characters; `None` means no such character remains; a start past the end is excluded, as .NET throws there |
| Text.Trim | KimaiBotService/HttpClient.cs:63 | the result is a contiguous slice of the input; everything cut on either side is white space; the result neither starts nor ends with white space; text without white space is unchanged |
| Text.Split | KimaiBotService/KimaiBot.cs:18 | `Split(' ')` yields at least one piece, even for the empty string; no piece holds the separator; the pieces joined with the separator give back the input |
| Text.SplitUnique | KimaiBotService/KimaiBot.cs:18 | any separator-free pieces that join back to the text are exactly its split, so the split is the one way to cut the text at its separators |
| Int32Text.FormatInt32 | KimaiBotService/HttpClient.cs:96 | `int.ToString()` gives 1 to 11 characters: digits, with a leading minus sign exactly for negative numbers, and no leading zeros (only zero itself starts with `0`); with `ParseFormatRoundTrip` this fixes the canonical text |
| Int32Text.ParseInt32 | KimaiBotService/HttpClient.cs:66-69 | `int.TryParse` succeeds only on text holding at least one decimal digit |
| Int32Text.ParseFormatRoundTrip | KimaiBotService/HttpClient.cs:66 | parsing the rendering of any 32-bit integer gives that integer back |
| Int32Text.ParseDigits | KimaiBotService/HttpClient.cs:66-69 | a run of digits parses to the number it denotes exactly when that number fits in an `int`; overflow is a parse failure |
| Int32Text.ParseNeedsDigit | KimaiBotService/HttpClient.cs:66-69 | text without a digit never parses, the empty span included |
| Int32Text.ParseLayout | KimaiBotService/HttpClient.cs:66-69 | text made of white space, an optional `+` or `-`, a run of digits (leading zeros allowed) and a tail parses exactly when the tail is white space followed only by NULs, and then to the signed value of the digits, or fails when that overflows; so `1-2` and `42abc` fail |
| Int32Text.ParseNoDigits | KimaiBotService/HttpClient.cs:66-69 | when no digit follows the leading white space and the optional sign, parsing fails; with `ParseLayout` this decides every text |
| Int32Text.ParseSignedDigits | KimaiBotService/HttpClient.cs:66-69 | an explicit sign before digits is honoured: `+42` reads 42 and `-007` reads -7 |
| Int32Text.ParseRejectsForeign | KimaiBotService/HttpClient.cs:66-69 | a character that is not a digit, white space, a sign or NUL anywhere in the text makes parsing fail, as in `0x1A` |
| TimeSpans.Add | KimaiBotService/HttpClient.cs:92 | the sum of two spans exists exactly when the mathematical sum fits in 64-bit ticks, and then equals it; the wrap-around sign check decides this |
| TimeSpans.FormatHms | KimaiBotService/HttpClient.cs:91-93 | `hh\:mm\:ss` is two digits, a colon, two digits, a colon, two digits, with minutes and seconds below 60; read back as seconds, it is the second of the day of the span's magnitude, always less than one day |
| TimeSpans.HmsUnique | KimaiBotService/HttpClient.cs:91-93 | two `hh:mm:ss` texts that denote the same number of seconds are the same text |
| TimeSpans.FormatHmsSameSecond | KimaiBotService/HttpClient.cs:91-93 | two spans render to the same `hh:mm:ss` text exactly when they fall on the same second of the day |
| TimeSpans.FormatSkipsDays | KimaiBotService/HttpClient.cs:91-93 | adding any number of whole days to a non-negative span leaves its `hh:mm:ss` text unchanged |
| TimeSpans.EndIsSumModuloDay | KimaiBotService/HttpClient.cs:91-93 | for non-negative whole-second spans, the end time's second of the day is the start's plus the duration's, modulo one day |
| HttpClient.ExtractUserId | KimaiBotService/HttpClient.cs:43-69 | parsing reports a missing marker exactly when `userID` occurs nowhere in the page; it reports a value starting past the end only when the page ends in `=` |
| HttpClient.Authentify | KimaiBotService/HttpClient.cs:36-73 | a failed POST, a caught exception and every parse failure all give `-1`; a successful parse is returned as it is, so any result other than `-1` is the value parsed from the page |
| HttpClient.ValueSpan | KimaiBotService/HttpClient.cs:43-63 | only the first `userID` counts; the value starts two characters after the first `=` following it, whatever those characters are, provided the first is one UTF-16 code unit; it ends at the first `;` or space, or at the end of the page |
| HttpClient.SurrogatePairSplit | KimaiBotService/HttpClient.cs:56-69 | a character outside the Basic Multilingual Plane right after the `=` makes the value start at the second half of its surrogate pair, which neither `Trim` removes nor `int.TryParse` accepts, so the page yields `-1` whatever follows |
| HttpClient.EqualsAtEnd | KimaiBotService/HttpClient.cs:56-57 | a `=` as the page's last character puts the start past the end; the exception this raises is caught and gives `-1` |
| HttpClient.NoEqualsAfterMarker | KimaiBotService/HttpClient.cs:51-53 | with no `=` at or after the first `userID`, parsing fails |
| HttpClient.LongValueRejected | KimaiBotService/HttpClient.cs:60-61 | a value longer than 20 characters gives `-1` even when it would parse |
| HttpClient.UserIdRoundTrip | KimaiBotService/HttpClient.cs:43-69 | a page showing `userID = <id>` followed by a delimiter or the end yields that id, for every 32-bit id |
| HttpClient.MinusOneLooksLikeFailure | KimaiBotService/HttpClient.cs:66-69 | a page whose user id really is -1 parses successfully, yet `Authentify` answers exactly as it does for a failure |
| HttpClient.EntryFieldsFor | KimaiBotService/HttpClient.cs:91-96 | the entry fields exist exactly when `startTime + duration` does not overflow; the user id field is the canonical `ToString()` text of the id and parses back to it; start, end and duration fields are `hh:mm:ss` texts of the seconds of the day of start, start + duration and duration |
| HttpClient.AddEntryComboRnD | KimaiBotService/HttpClient.cs:81-111 | the call throws exactly when the time sum overflows; it returns `true` exactly when the fields exist and the status is 2xx; a POST that throws gives `false` |
| Commands.Args | KimaiBotService/KimaiBot.cs:18 | a request always splits into at least one word |
| Commands.VerbIsFirstWord | KimaiBotService/KimaiBot.cs:18-26 | the verb is the request's text up to its first space, or the whole request when it has none |
| Commands.ElapsedCalls | KimaiBotService/KimaiBot.cs:35-37 | one `Elapsed` event calls `AddEntryComboRnD` once per subscribed handler while every call returns; a stopped timer makes no call; every call but the last returned, and the calls stop before the last handler only when the last call made threw |
| Commands.ReturningHandlersCompose | KimaiBotService/KimaiBot.cs:35-37 | handlers whose calls return do not affect the later ones: the calls of a handler list are those of its returning prefix followed by those of the rest |
| KimaiBot.HandleCommand | KimaiBotService/KimaiBot.cs:16-63 | "No command provided." is never the reply; a login with fewer than three words faults before any call; otherwise a login posts the client's own credentials, not the request's, and marks the handler as having sent a request; it replies "Successfully logged in." exactly when authentication returns true, and then starts the timer with a one-day interval and one more handler; a failed login changes nothing else; a throwing authentication gives no reply and leaves the timer untouched; once a request has been sent a logout throws and changes nothing, the timer keeps running; before that a logout stops the timer but keeps every handler and resets the cookies; `addEntry` posts, and replies "Successfully added entry." whatever the entry call returned, and gives no reply when it throws; any other verb replies "Invalid command." and changes nothing; an escaping exception changes nothing but the mark; the timer stays consistent |
| KimaiBot.EmptyRequestIsInvalid | KimaiBotService/KimaiBot.cs:18-24 | the empty request is one empty verb, so it gets "Invalid command.", not "No command provided." |
| KimaiBot.ArgumentsIgnored | KimaiBotService/KimaiBot.cs:28-32 | two requests with the same verb, and both or neither having three words, behave identically: the user name and password in the request matter nowhere |
| KimaiBot.HandlersCountLogins | KimaiBotService/KimaiBot.cs:32-37 | after any run of requests, the number of `Elapsed` handlers has grown by the number of successful logins |
| KimaiBot.RunKeepsConsistent | KimaiBotService/KimaiBot.cs:32-50 | over any run of requests, a running timer has a handler, and a timer with a handler has a one-day interval |
| KimaiBot.TimerNeverStops | KimaiBotService/KimaiBot.cs:32-52 | once the timer runs it keeps running over any later requests, logouts included, because a running timer means a request has been sent, and every later logout throws before `timer.Stop()` |
| KimaiBot.ReloginDoublesEntries | KimaiBotService/KimaiBot.cs:28-52 | after log in, log out, log in, the logout has thrown and the timer runs with two handlers, so one `Elapsed` event submits two entries |
| KimaiServer.HandleCommand | KimaiAutoEntryApp/KimaiServer.cs:42-95 | a null request and `help` get the help text; a login with fewer than three words faults before any call; otherwise a login posts the readonly `""` credentials and marks the handler as having sent a request; it replies "Successfully logged in." exactly when authentication returns true, and then starts the timer with a one-day interval and one more handler; a failed login changes nothing else; a throwing authentication gives no reply and changes nothing but the mark; once a request has been sent a logout throws and changes nothing; before that it resets only the cookies; a running timer keeps running; `addEntry` and every other unknown verb reply "Invalid command." and change nothing |
| KimaiServer.LogoutAfterLoginFaults | KimaiAutoEntryApp/KimaiServer.cs:63-86 | after a login, whatever its authentication did, a logout throws: no reply, and nothing changes |
| KimaiServer.AddEntryIsInvalid | KimaiAutoEntryApp/KimaiServer.cs:44-48 | `addEntry` is named in the comment, yet the dispatcher answers it "Invalid command." and changes nothing |
| KimaiServer.ArgumentsIgnored | KimaiAutoEntryApp/KimaiServer.cs:63-67 | the user name and password in a login request never influence the outcome |
| KimaiServer.HandlersCountLogins | KimaiAutoEntryApp/KimaiServer.cs:67-72 | after any run of requests, the number of `Elapsed` handlers has grown by the number of successful logins |
| KimaiServer.TimerNeverStops | KimaiAutoEntryApp/KimaiServer.cs:67-86 | once the timer is started it stays started and consistent over any later requests, logouts included |
| PipeServer.ServerLoop | KimaiBotService/PipeServer.cs:54-75 | the queue afterwards is the old queue followed by one decoded command per non-empty read, in order, up to the first zero-byte read; the loop reports a disconnect exactly when a zero-byte read occurs |
| PipeServer.DisconnectEndsReading | KimaiBotService/PipeServer.cs:61-62 | nothing read after a zero-byte read reaches the queue |
| PipeServer.BrokenReadIgnored | KimaiBotService/PipeServer.cs:71-74 | a read that raises an `IOException` leaves the queue as if it had not happened, and the loop goes on |
| PipeServer.AppendedSplits | KimaiBotService/PipeServer.cs:59-68 | before any disconnect, the commands from two stretches of reads are those of the first followed by those of the second |
| PipeServer.GetRequest | KimaiBotService/PipeServer.cs:78-88 | an empty queue gives `""` and stays empty; otherwise the oldest command is returned and removed, and the remaining commands keep their order |
| PipeServer.FirstInFirstOut | KimaiBotService/PipeServer.cs:15-88 | for any interleaving of arrivals and `GetRequest`s, the commands handed out followed by those still queued are the initial queue followed by the arrivals: nothing is lost, duplicated or reordered |
| BackgroundService.Execute | KimaiAutoEntryApp/WindowsBackgroundService.cs:7-31 | with no exception, the loop's events are exactly the reference schedule; it faults exactly when a call made throws, and then its events are the schedule up to and including that first throwing call |
| BackgroundService.SchedulePrefix | KimaiAutoEntryApp/WindowsBackgroundService.cs:11-30 | the events of the first n iterations are a prefix of the events of all iterations |
| BackgroundService.ScheduleShape | KimaiAutoEntryApp/WindowsBackgroundService.cs:9-30 | n iterations give 2n + 1 events: the authentication first, then each iteration's entry submission and a one-day delay; no later event authenticates |
| BackgroundService.EventPositions | KimaiAutoEntryApp/WindowsBackgroundService.cs:14-29 | authentication happens at position 0 only, whether or not it succeeded; every odd position is an entry submission and every later even one a one-day delay |

## Left out

- HTTP transport is left out: `PostAsync`, `FormUrlEncodedContent`, cookies and response bodies. Their outcomes are inputs: `Remote`, `PostResult`, and the page text as `Option<string>`.
- The constant payload fields and the `dd.MM.yyyy` day fields are left out, because they depend on `DateTime.Now` and the culture. The whole of `KimaiAutoEntryApp/KimaiService.cs` is left out too: it holds only fixed payloads.
- Console logging and `ILogger` messages are left out; they change no state.
- Text.IndexOf: compares ordinally, whereas `IndexOf(string)` in .NET is culture-sensitive. Culture-specific matching rules are not modelled.
- Int32Text.ParseInt32: models the invariant culture's signs and `NumberStyles.Integer`. Other cultures' sign strings are not modelled.
- Int32Text.FormatInt32: writes a negative number with `-`, the invariant culture's sign. .NET uses the current culture's `NegativeSign`, which is U+2212 in some cultures. Other cultures are not modelled.
- HttpClient.ExtractUserId: the 20-character cap counts characters, while .NET counts UTF-16 code units. The two differ only for a value holding a character outside the Basic Multilingual Plane. Such a value never parses, so the page gives `-1` either way; only the reason differs.
- PipeServer.ServerLoop: `Encoding.UTF8.GetString` is the parameter `decode`. Pipe creation, security, `WaitForConnection`, `Start`, `Stop` and `SendResponse` are left out as I/O. Reads beyond the modelled list are not represented.
- `KimaiServer.HandlePipeServer` is left out as pipe I/O: it waits for a connection, reads one line, passes it to `HandleCommand` (which is modelled), writes the reply and disconnects.
- Real timer threads, thread pools and the unsynchronised `commandList` shared between threads are left out. Requests, `Elapsed` events and queue operations are modelled one at a time.
- BackgroundService.Execute: the number of iterations started before cancellation is the length of its input. The `TaskCanceledException` that a cancelled `Task.Delay` raises is not modelled; it only ends the loop at the same point.
- `KimaiBot.Start`, `KimaiBotService/KimaiCmdServer.cs`, `KimaiBotService/KimaiServer.cs` and `KimaiBotService/WindowsBackgroundService.cs` are left out. They call members that do not exist, so they have no behaviour to model.
- The console client, its command-line parsing library and its pipe client are not part of this model, and neither are `KimaiAutoEntryCmdClient`, both `Program.cs` files (service installation through `sc.exe`), or `UserPrefs` (JSON and file I/O).
- TimeSpans.FormatSkipsDays and TimeSpans.EndIsSumModuloDay: stated only for non-negative spans, and the latter only for whole seconds. `FormatHms` itself covers every span, negative ones by their magnitude.
