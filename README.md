# qflowsync in Dafny

qflowsync copies the submissions of a QingFlow form into a Lark (Feishu) bitable. Each sync
cycle runs the same steps:

1. It fetches the form's submissions page by page, newest first.
2. It flattens each submission into a `title → text` record.
3. It writes every record to the table. A record updates the row whose business id
   ("编号") matches, or creates a new row when none does.

The client also keeps its session cookies in a small text file between runs.

This project models the deterministic logic around the network calls and proves properties of
it. The modules are:

- `GoStrings` (`go_strings.dfy`) covers the parts of Go's `strings` and `fmt` that the tool relies on:
  - `TrimSpace`, with Go's white-space set;
  - `Split` and `SplitN(…, 2)` with a one-character separator, and `Join`;
  - `Contains`;
  - `%d` formatting.
- `QFlowTypes` (`qflow_types.dfy`) holds the request and response shapes of the form's filter endpoint.
- `QFlow` (`qflow.dfy`) is the form client:
  - `Map`, which flattens a page into records: blacklisted titles are dropped, the first value is
    kept, later titles win, and a permalink goes under "URL";
  - the cookie-file loader and the text `Close` writes back;
  - the page-filter request that `GetValue` builds, and how `GetValue` handles the reply.
- `CivilTime` (`civil_time.dfy`) is Go's `time.ParseInLocation("2006-01-02 15:04:05", v, +08:00)`
  followed by `UnixMilli`. It is written as a parser plus exact days-from-civil arithmetic.
- `Lark` (`lark.dfy`) is the table sink:
  - `parseFields` trims the keys, turns the two timestamp fields into epoch milliseconds, and
    wraps "URL" as a link;
  - the remote table is a `Sink` class. Its fields are the index from business id to record id
    and the log of requests sent. Its methods are `RecordExists`, `UpdateRecord`, `CreateRecord`
    and `WriteRecord`.
- `SyncJob` (`sync_job.dfy`) is the `job` closure:
  - the page count;
  - the fan-out over pages and records, run as loops that log fetches and writes;
  - the `WaitGroup` counter;
  - the dry run.

What the model takes as parameters instead of calling out:

- Network replies and limiter waits are given to each operation as parameters:
  - `send` is the HTTP round trip;
  - `waited` says whether a rate limiter's wait succeeded;
  - an `Outcome` tells each table call how it went;
  - `writeFails` says which writes fail.
- Go's map iteration order is a parameter `order`.
- The current time is a parameter `now`.

Nothing here runs the original program.

## Model

| member | source | states |
|---|---|---|
| GoStrings.TrimSpace | qflow.go:47 | the result has no white space at either end, and is the slice of the input after its leading white space, with only white space after it |
| GoStrings.Split | qflow.go:46 | one more piece than the text has separators, and no piece holds the separator |
| GoStrings.Join | qflow.go:116 | `strings.Join` with a one-character separator; specified by `JoinSplit` and `SplitJoin` as the inverse of `Split` |
| GoStrings.JoinSplit | qflow.go:46 | joining the pieces of a split with the separator gives back the text |
| GoStrings.SplitJoin | qflow.go:116 | splitting a join of pieces that hold no separator gives back the pieces |
| GoStrings.SplitN2 | qflow.go:48 | two pieces exactly when the separator occurs; then the text is first piece, separator, second piece, and the first piece holds no separator |
| GoStrings.ContainsAt | qflow.go:83 | `Contains` holds exactly when the substring occurs at some position |
| GoStrings.FormatIntRoundTrip | qflow.go:99 | `%d` of an integer is non-empty and reads back as the same integer |
| QFlow.KeepAnswer | qflow.go:81-89 | the keyword loop with early return keeps an answer exactly when its title contains neither blacklisted keyword |
| QFlow.KeptAnswers | qflow.go:81-89 | the `lo.Filter` step of `Map`, in order; specified by `KeptAnswersMembers`, `KeptValue` and `LastKeptWins` |
| QFlow.KeptAnswersMembers | qflow.go:81-89 | the filter keeps exactly the answers whose title is not blacklisted, and never adds any |
| QFlow.SliceToMap | qflow.go:91-97 | the `lo.SliceToMap` step of `Map`, later titles overwriting earlier ones; specified by `SliceToMapKeys` and `LastKeptWins` |
| QFlow.SliceToMapKeys | qflow.go:91-97 | the record's keys are exactly the titles of the answers |
| QFlow.ItemRecord | qflow.go:99 | every record holds "URL" mapped to the permalink with the apply id |
| QFlow.MapResponse | qflow.go:79-103 | one record per submission of the page, in the page's order |
| QFlow.RecordKeys | qflow.go:74-99 | a key is in a record exactly when it is "URL" or the title of an answer that is not blacklisted |
| QFlow.KeptValue | qflow.go:91-97 | a kept title other than "URL" holds the first value of the last answer with that title, so a later answer overwrites an earlier one |
| QFlow.LastKeptWins | qflow.go:91-97 | the same for the map built from the kept answers, before "URL" is stored |
| QFlow.OnlyShownValuesMatter | qflow.go:91-97 | two submissions whose answers agree on title and first `value` give the same record, so `dataValue` and later values are never used |
| QFlow.PermalinkCarriesApplyId | qflow.go:99 | the permalink is the fixed share-view prefix followed by the apply id, which reads back unchanged |
| QFlow.ParseCookie | qflow.go:47-58 | a trimmed piece with '=' is split at its first '=' (the value may hold '='), otherwise it becomes a cookie with that name and an empty value |
| QFlow.LoadCookies | qflow.go:46-59 | k ';' characters give k+1 cookies, the i-th parsed from the i-th piece |
| QFlow.ParseCookieText | qflow.go:46-59 | a storable cookie written as "name=value" parses back to itself |
| QFlow.SaveCookies | qflow.go:105-116 | the text `Close` writes: each cookie's "name=value" joined with ';'; specified by `SaveLoadRoundTrip` and `EmptyJarReloadsAsNamelessCookie` |
| QFlow.SaveLoadRoundTrip | qflow.go:106-116 | saving a non-empty list of storable cookies and loading the text gives back the same cookies in order |
| QFlow.EmptyJarReloadsAsNamelessCookie | qflow.go:106-116 | an empty jar is saved as "", which loads as one cookie with empty name and value |
| QFlow.NewClient | qflow.go:29-72 | a missing cookie file gives no cookies; open and read failures are errors; otherwise the cookies are those loaded from the file's text |
| QFlow.FilterRequestFor | qflow.go:132-141 | the filter has the given page number and size, type 8, the single sort on question 3 (type 4, descending), no queries and a null query key |
| QFlow.GetValue | qflow.go:126-169 | a cancelled wait is an error before any request; otherwise the filter request for the page is posted to the view's filter URI; no response and an undecodable body are errors, and a decoded reply is returned without checking its code |
| CivilTime.DaysIn | lark.go:64 | every month has 28 to 31 days |
| CivilTime.DaysFromCivil | lark.go:70 | the day number of a date counted from 1970-01-01; specified by `DaysBeforeYearCounts`, `DaysBeforeMonthCounts`, `UnixEpochIsDayZero` and `NextDayIsOneLater` |
| CivilTime.UnixMillis | lark.go:70 | `UnixMilli` of a reading at +08:00: the day number in seconds plus the time of day, less eight hours, in milliseconds; specified with the lemmas for `DaysFromCivil` and `ExampleTimestamp` |
| CivilTime.DaysBeforeYearCounts | lark.go:64-70 | the closed-form day count before a year equals the sum of the lengths of all earlier years |
| CivilTime.DaysBeforeMonthCounts | lark.go:64-70 | the month table equals the sum of the lengths of the earlier months of the year |
| CivilTime.UnixEpochIsDayZero | lark.go:70 | 1970-01-01 is day 0 |
| CivilTime.NextDayIsOneLater | lark.go:64-70 | consecutive calendar days, across month and year ends, get consecutive day numbers |
| CivilTime.ParseLocal | lark.go:64 | `time.ParseInLocation` with the layout "2006-01-02 15:04:05": whatever it accepts is a real date and time; specified further by `ParseFormat`, `MonthRejectedOf`, `DayRejectedOf`, `HourRejectedOf` and `ExampleTimestamp` |
| CivilTime.ParseIsValid | lark.go:64 | every accepted text is a real date and time: four-digit year, month 1-12, a day of that month, hour < 24, minute and second < 60 |
| CivilTime.MonthOutOfRangeRejected | lark.go:64 | a month outside 1-12 is a parse error |
| CivilTime.DayOutOfRangeRejected | lark.go:64 | a day beyond the month's length is a parse error |
| CivilTime.MonthRejectedOf | lark.go:64 | a text in the layout whose month is outside 1-12 does not parse, whatever follows the month |
| CivilTime.DayRejectedOf | lark.go:64 | a text in the layout whose day is past the end of its month does not parse, whatever follows the day |
| CivilTime.ClockRejected | lark.go:64 | a date followed by a blank and a clock part that does not parse is a parse error |
| CivilTime.HourRejectedOf | lark.go:64 | a text in the layout with a real date and an hour from 24 to 99 does not parse, whatever follows the hour |
| CivilTime.ParseFormat | lark.go:64 | every valid reading written in the layout parses back to itself |
| CivilTime.ExampleTimestamp | lark.go:63-70 | "2024-11-24 20:15:35" parses to that reading, which is 1732450535000 ms since the epoch at +08:00 |
| Lark.TimestampMillis | lark.go:62-70 | a timestamp field's value: the reading's Unix milliseconds, or the current time when it does not parse; specified by `TimestampOfLayout`, `UnparsableTimestampIsNow` and the unparsable examples |
| Lark.FieldValueOf | lark.go:61-77 | the two timestamp keys give milliseconds, "URL" gives a link holding the value unchanged, every other key keeps its text |
| Lark.MapEntries | lark.go:60-78 | `lo.MapEntries` over the keys in a given order; specified by `MapEntriesKeys` and `LastEntryWins` |
| Lark.ParseFields | lark.go:59-79 | `parseFields` for one iteration order of the map; specified by `ParseFieldsKeys`, `UniqueKeyField`, `OrderIrrelevant`, `PlainFieldUnchanged` and `PermalinkSentAsLink` |
| Lark.MapEntriesKeys | lark.go:60-78 | the output keys are the trimmed keys of the entries visited |
| Lark.ParseFieldsKeys | lark.go:59-79 | the output keys are exactly the trimmed input keys |
| Lark.LastEntryWins | lark.go:60-78 | an entry that no later entry with the same trimmed key overwrites keeps its own rewritten value |
| Lark.UniqueKeyField | lark.go:60-78 | a key that no other key trims to is rewritten from its own value, whatever the order |
| Lark.OrderIrrelevant | lark.go:60-78 | when no two keys trim alike, every iteration order gives the same fields |
| Lark.SameEntry | lark.go:60-78 | under the same condition, a field written by one order is written with the same value by any other |
| Lark.PlainFieldUnchanged | lark.go:61-77 | an already trimmed key other than the timestamp keys and "URL" keeps its text unchanged |
| Lark.PermalinkSentAsLink | lark.go:71-74 | the permalink `Map` stores under "URL" reaches the table as a link, unless another key trims to "URL" |
| Lark.TimestampOfLayout | lark.go:62-70 | a timestamp field written in the layout becomes that instant's Unix milliseconds |
| Lark.ExampleTimestampField | lark.go:63-70 | the example timestamp becomes 1732450535000 |
| Lark.UnparsableTimestampIsNow | lark.go:64-68 | an unparsable timestamp is not an error; the field becomes the current time |
| Lark.MonthThirteenIsUnparsable | lark.go:64-68 | "2024-13-01 00:00:00" does not parse, so as an update time it is sent as the current time |
| Lark.NovemberThirtyFirstIsUnparsable | lark.go:64-68 | "2024-11-31 00:00:00" does not parse, so as an update time it is sent as the current time |
| Lark.HourTwentyFourIsUnparsable | lark.go:64-68 | "2024-11-24 24:00:00" does not parse, so as an update time it is sent as the current time |
| Lark.ErrorOf | lark.go:84-121 | a call returns an error exactly when it was not delivered with a success response |
| Lark.Sink.RecordExists | lark.go:84-122 | on a limiter, transport or response error: (false, "", err), and the request is sent unless the limiter failed; otherwise found exactly when a row has the id, with that row's record id; the table is unchanged |
| Lark.Sink.UpdateRecord | lark.go:127-153 | sends the update unless the limiter failed, returns the call's error, and leaves the index unchanged |
| Lark.Sink.CreateRecord | lark.go:158-182 | sends the create unless the limiter failed; only a successful create adds a row, indexed by its "编号" text, and returns the new record id |
| Lark.Sink.WriteRecord | lark.go:36-55 | no "编号": nothing is sent and nil is returned; a failed search returns its error with no write; a found id is updated with the parsed fields and never created; a missing id is created and never updated; only the create branch adds a row |
| Lark.CreatedRowIsFound | lark.go:47-54 | whatever the table held before, a delivered create indexes the new record id under the record's own "编号" (when no other key trims to "编号"); by `WriteRecord`'s contract, a later write of the record whose search is delivered then takes the update branch |
| SyncJob.PageCount | main.go:75 | the page count is the least n with total <= 50 n |
| SyncJob.PageCountOfCount | main.go:75 | for total >= 0 it is (total + 49) / 50 |
| SyncJob.PageCountPositive | main.go:75 | there is at least one page exactly when total >= 1 |
| SyncJob.PageFetches | main.go:77-81 | the fetches (GetValue calls) for pages lo..hi are page lo+k at position k, all with size 50 |
| SyncJob.FailingMembers | main.go:64-67 | the failed writes are exactly the written records whose write fails |
| SyncJob.WritePage | main.go:55-72 | every record of a page is written once, in order; failures are collected without stopping the others; the page's own counter drains to zero |
| SyncJob.FetchLaterPages | main.go:77-89 | the goroutines for pages 2..N fetch exactly pages 2..N with size 50, write the records of every page that arrived in page order, collect the failed writes, and call `Done` once each, N-1 times in all |
| SyncJob.Job | main.go:46-99 | a failed page-1 fetch ends the cycle with that one fetch started and no writes; otherwise pages 1..N are fetched and the planned records are written; the counter ends at N minus the goroutines started, and the WaitGroup panics exactly when it goes negative |
| SyncJob.FetchPlanIsEachPageOnce | main.go:49-94 | pages 1..N are each fetched once (one GetValue call each), in order, with size 50: one fetch per goroutine started |
| SyncJob.HundredTwentyInThreeFetches | main.go:75-81 | 120 submissions take three GetValue calls |
| SyncJob.PagesSplit | main.go:77-89 | the records of a page range are those before a page, that page's, then those after |
| SyncJob.PageIsolation | main.go:81-87 | each later page's records form one block of the writes; a failed fetch empties only its own block |
| SyncJob.CounterBalancedIff | main.go:74-96 | for a non-negative page count, the counter ends at zero exactly when total >= 1 |
| SyncJob.EmptyFormUnbalancesCounter | main.go:74-96 | total 0 gives Add(0) and one Done: the counter ends at -1 |
| SyncJob.CounterTrace | main.go:74-96 | after Add(a) and k Dones the counter reads a - k |
| SyncJob.JobCounterIsTraceEnd | main.go:74-96 | the counter `Job` ends with is the last value of the trace of `Add(pageNum)` and one `Done` per goroutine started, and it is negative exactly when some value of the trace is |
| SyncJob.CorrectedCounterDrains | main.go:74-96 | with the corrected Add, one per goroutine started, the counter is never negative and ends at zero for every total |
| SyncJob.AsWrittenCounterGoesNegative | main.go:74-96 | with Add(pageNum) as written, an empty form drives the counter to -1 |
| SyncJob.DryRun | main.go:33-44 | the dry run fetches page 1 with size 1; a fetch error is fatal, an empty page panics on `[0]`, and otherwise it shows the first submission's record |

## Left out

- Rate limiters (`golang.org/x/time/rate`) are left out. The model keeps only whether a wait
  succeeded, as a parameter.
  - The comments above three limiters disagree with their rates: 20/s against 15/s for the
    existence check, and 50/s against 40/s for each of the update and create limiters.
  - Blocking and timing are not modelled.
- HTTP, JSON encoding and decoding, and the Lark SDK are left out. Replies are parameters.
  - `http.NewRequestWithContext` failing on a malformed URI is not modelled.
  - A JSON marshal failure is not modelled.
- Goroutines, the scheduler, blocking in `WaitGroup.Wait`, and context deadlines are left out.
  - The fan-out runs in one fixed launch order: pages 2..N, then page 1. Interleavings are not
    modelled.
  - Only the counter arithmetic of the WaitGroup is kept.
- The ticker loop of `main` (main.go:101-109) is left out, because it is driven by the wall clock.
- `config.go` (configuration file loading) and `utils.go` (logger setup) are not part of this model.
- Logging is not part of this model.
- The cookie jar is left out:
  - what `cookiejar` accepts, filters or reorders between load and save is not modelled;
  - `http.Cookie.String` is taken to be "name=value", without its sanitising and quoting;
  - file I/O is reduced to the cases `NewClient` distinguishes.
- Lark.Sink: the remote table is an index from business id to one record id.
  - Duplicate rows with the same id are not modelled. The source takes the first search hit.
  - The field contents of a row are not modelled.
  - An update that changes a row's "编号" does not re-index the row.
  - Record ids returned by a create are a parameter.
- SyncJob.PageCount: integer ceiling division replaces `math.Ceil` on `float64`. They differ
  only for totals beyond 2^53, which the model does not bound.
- SyncJob.Job: each write's outcome is a parameter `writeFails` of the record, so two equal records in one cycle (a submission that shifts onto a second page while the cycle runs) share an outcome. The table calls themselves are
  modelled in `Lark.Sink.WriteRecord`, not inside the job.
- CivilTime.ParseLocal: only the fixed layout is modelled, with the leniencies Go's parser
  applies to it:
  - a one- or two-digit hour;
  - one or more blanks for the layout's space;
  - optional fractional seconds after a '.' or ',', truncated to milliseconds.
  - Go's other layout features are not modelled. Years are limited to the four digits the layout
    requires.
- The response `code` is never inspected by `GetValue`. The model keeps it as data and does not
  check it either.

## Findings

| source | as written | input that shows it | evidently intended | confidence | as-written member | corrected member |
|---|---|---|---|---|---|---|
| main.go:75-94 | `wg.Add(pageNum)`, but one goroutine per page 2..pageNum plus one for page 1 each call `Done` | a form with no submissions (`total == 0`): pageNum is 0, `Add(0)`, then page 1's goroutine calls `Done` and the counter reaches -1, which panics with "negative WaitGroup counter" | add one per goroutine started, `max(pageNum-1, 0) + 1`, so the counter drains to zero for every total | not executed | SyncJob.AsWrittenCounterGoesNegative | SyncJob.CorrectedCounterDrains |
