# dota-api-crawler, modelled in Dafny

The crawler walks Dota 2 match identifiers downwards, from `startId` to
`endId + 1`. For each one it fetches the match details from the Steam Web API
and inserts one row into the SQLite table `matches`. The row holds the
identifier, the HTTP status, the error message from the body's
`result.error` field and the raw body. The model covers the three pieces of
logic in `Program.cs`:

- **Argument handling** (`Main`). `Arguments.ParseArgs` is the decision tree:
  no argument, a `startId` that is not a ulong, or an `endId` that is not a
  ulong. The end identifier defaults to 1. `Program.Launch` is `Main` itself:
  it returns the error line before any crawl, or runs the crawl.
  `ulong.TryParse` is an idealised decimal parser bounded by 2^64 − 1
  (`UInt64.TryParse`).
- **Response classification**. `Classify.ErrorMessage` maps the JSON
  library's answer to the stored message. A parse exception gives
  `"Invalid JSON"`, a `result.error` that is absent or null gives NULL, and
  anything else is the string unchanged. `Crawler.RowFor` builds the row.
- **The crawl loop** (`Start`). `Crawler.Start` is the `for` loop over a
  `Store.MatchStore`. That class is the table: committed rows, the rows staged
  by the open transaction, and `BeginTransaction`/`Insert`/`Commit`/`Dispose`.
  `Start` is proved equal to the function `Crawler.Crawl`. The lemmas in
  `CrawlProperties` are about that function. They cover the identifiers
  visited (strictly descending, exactly `startId - endId` of them), one delay
  per finished iteration, and no retry. They also cover the error paths and
  the table only growing.

The network, the JSON library and the database engine's own failures are
inputs (`Crawler.Env`):
- `fetch` gives a response (status code and body) or an exception from the
  HTTP client;
- `parse` is the JSON library's answer for a body;
- `insertFault` and `commitFault` are engine failures other than the UNIQUE
  constraint.

The UNIQUE constraint on `matchId` is part of the store. It is checked when
the row is inserted, as SQLite does for UNIQUE constraints under its default
ABORT conflict policy. So an identifier already in the table makes
`ExecuteNonQuery` (line 131) fail with code 19. That call is outside the
`try` that guards the commit, so the crawl ends
(`CrawlProperties.RerunEndsAtRecordedId`). The code-19 branch of the `catch`
(lines 137-142) is reached only when the commit itself fails with code 19.
The model then leaves the table unchanged and goes on
(`CrawlProperties.SwallowedCommitLeavesNoRow`, `CrawlProperties.CommitFailureAtStart`).

Other facts about the program that the model keeps:
- The crawler has no retry or cooldown: an exception from the fetch ends the crawl.
- A non-200 status is stored like any other.
- The body is stored with its newlines (line 122 is commented out).
- Re-running over recorded identifiers ends at the first one, as described above.

## Model

| member | source | states |
|---|---|---|
| `UInt64.TryParse` | dota-api-crawler/Program.cs:32 | `ulong.TryParse`: the value of a non-empty digit string that fits in 64 bits, otherwise nothing; its properties are `TryParseToDecimal`, `TryParseRejectsOverflow`, `ShortDecimalParses` and `TryParseLeadingZero` |
| `UInt64.TryParseToDecimal` | dota-api-crawler/Program.cs:32 | every ulong's decimal text parses back to the same ulong |
| `UInt64.TryParseRejectsOverflow` | dota-api-crawler/Program.cs:32 | a decimal number above 2^64 − 1 is refused, not wrapped |
| `UInt64.ShortDecimalParses` | dota-api-crawler/Program.cs:32 | every string of at most 19 digits parses, to its decimal value |
| `UInt64.TryParseLeadingZero` | dota-api-crawler/Program.cs:32 | a leading zero does not change what a decimal parses to |
| `UInt64.ToDecimalValue` | dota-api-crawler/Program.cs:32 | the canonical decimal text of n is all digits and has value n |
| `Arguments.ParseArgs` | dota-api-crawler/Program.cs:24-45 | refused for missing arguments exactly when there are none; for `startId` exactly when `args[0]` does not parse; for `endId` exactly when `args[0]` parses, `args[1]` is present and does not; otherwise accepted with the parsed `startId`, and `endId` parsed from `args[1]` or 1 when absent |
| `Arguments.ParseArgsOfDecimals` | dota-api-crawler/Program.cs:30-47 | two decimal ulongs are accepted as the range, whatever arguments follow |
| `Arguments.ParseArgsDefaultEnd` | dota-api-crawler/Program.cs:30-38 | one decimal ulong gives the range down to the default end 1 |
| `Arguments.ParseArgsEndOverflow` | dota-api-crawler/Program.cs:38-44 | an `endId` above 2^64 − 1 is refused even after a valid `startId` |
| `Arguments.ErrorText` | dota-api-crawler/Program.cs:26-42 | the three lines written to the error stream, one per refusal; `Program.Launch` returns the one for the refusal `ParseArgs` gives |
| `Program.Launch` | dota-api-crawler/Program.cs:22-48 | on refused arguments: the matching error line, no request, table unchanged; on accepted ones: exactly the crawl of the parsed range |
| `Classify.ErrorMessage` | dota-api-crawler/Program.cs:112-128 | NULL exactly when the body parses and `result.error` is absent or null; `"Invalid JSON"` when parsing throws; otherwise the extracted string unchanged |
| `Crawler.RowFor` | dota-api-crawler/Program.cs:107-130 | the row inserted for a fetched identifier; `CrawlProperties.CrawlRows` proves that every new row carries the identifier, the status code whatever it is, the body unmodified and the classified message |
| `Classify.InvalidJsonIndistinguishable` | dota-api-crawler/Program.cs:115-130 | the stored `errorMessage` cannot tell a parse failure from a `result.error` of "Invalid JSON": with the same status the two rows agree on every column but `rawJson`, and only `rawJson` tells them apart |
| `Classify.ParsedAnswerRecoverable` | dota-api-crawler/Program.cs:115-128 | for parsed bodies the stored message determines the `result.error` token |
| `Store.MatchStore.constructor` | dota-api-crawler/Program.cs:62 | the opened table holds the given rows, with no transaction open |
| `Store.MatchStore.BeginTransaction` | dota-api-crawler/Program.cs:99 | opens a transaction with nothing staged; the committed rows are unchanged |
| `Store.MatchStore.Insert` | dota-api-crawler/Program.cs:131 | an identifier already committed or staged is refused with code 19 (the UNIQUE check); otherwise the engine's fault, if any, is reported; the row is staged exactly when there is no error, and the committed rows do not change |
| `Store.MatchStore.Commit` | dota-api-crawler/Program.cs:135 | with no fault the staged rows join the table and no existing row changes; a failure commits nothing |
| `Store.MatchStore.Dispose` | dota-api-crawler/Program.cs:99-148 | leaving the `using` block rolls back whatever was not committed |
| `Crawler.Step` | dota-api-crawler/Program.cs:89-148 | one iteration goes on exactly when the fetch returned, the identifier is new, the insert succeeds and the commit succeeds or fails with 19; it adds the row only on a clean commit; a failure names the identifier; a fetch exception always stops |
| `Crawler.Visit` | dota-api-crawler/Program.cs:89-148 | the loop body on the store does what `Step` says: the new table on success, the failure and an unchanged table otherwise |
| `Crawler.Crawl` | dota-api-crawler/Program.cs:87-151 | the whole `for` loop as a function of the committed rows; `Crawler.Start` is proved equal to it, and `CrawlTrace`, `CrawlVisits`, `CrawlRows`, `CrawlRecordsRange`, `SwallowedCommitLeavesNoRow` and `RerunEndsAtRecordedId` state its properties |
| `Crawler.Start` | dota-api-crawler/Program.cs:87-151 | the loop leaves the table, trace and outcome that `Crawl` gives for the old table; the ulong decrement never goes below 0 |
| `CrawlProperties.Descending` | dota-api-crawler/Program.cs:87 | the loop's identifiers: `startId − endId` of them (none when `startId <= endId`), the i-th being `startId − i`, strictly descending |
| `CrawlProperties.PacedCounts` | dota-api-crawler/Program.cs:89-150 | a paced trace requests exactly its identifiers and waits once per identifier |
| `CrawlProperties.CrawlTrace` | dota-api-crawler/Program.cs:87-151 | empty range: nothing happens; a completed crawl is one request and one delay per identifier, descending; an abort at k follows the same pattern above k and ends with the request for k, whose iteration fails on the final table |
| `CrawlProperties.CrawlVisits` | dota-api-crawler/Program.cs:87-150 | a completed crawl requests exactly `Descending(startId, endId)` and waits `startId − endId` times; an aborted one requests down to the failing id and waits once per id above it |
| `CrawlProperties.CrawlRows` | dota-api-crawler/Program.cs:99-148 | the table only grows and no existing row changes; each new row is for a fetched identifier in range and carries that id, its status, its body and its classified message; after an abort only ids above the failing one are new |
| `CrawlProperties.CrawlRecordsRange` | dota-api-crawler/Program.cs:87-148 | with new identifiers and no failures the crawl completes and the table gains exactly one row for each identifier of the range |
| `CrawlProperties.SwallowedCommitLeavesNoRow` | dota-api-crawler/Program.cs:133-142 | an identifier whose commit fails with code 19 gets no row |
| `CrawlProperties.CommitFailureAtStart` | dota-api-crawler/Program.cs:133-147 | a commit failing with 19 continues with the next identifier; any other code ends the crawl with the table unchanged |
| `CrawlProperties.FetchFailureAtStart` | dota-api-crawler/Program.cs:91-93 | an exception from the fetch is not retried: the crawl ends after that one request with the table unchanged |
| `CrawlProperties.RerunEndsAtRecordedId` | dota-api-crawler/Program.cs:131-147 | crawling again a range whose first identifier a completed crawl recorded ends at once with an insert failure of code 19 |

## Left out

- HTTP client setup, the `Accept` and `User-Agent` headers (lines 18-20, 80-83), the URL with the API key from `STEAM_API_KEY`, and the I/O of `GetAsync`/`ReadAsStringAsync` (lines 91-95): network I/O. A fetch is an input that gives a status and body or an exception. An exception from reading the body is folded into that exception.
- `SQLitePCL.Batteries.Init`, the connection string, opening the connection and the schema bootstrap from `schema.sql` when the file is missing (lines 52-78, 85): file and database I/O. The store starts from a given table.
- The SQLite engine: only the UNIQUE constraint on `matchId` is modelled. Every other insert or commit failure is an input per identifier.
- `schema.sql` is not part of this model. The model assumes it declares `matchId` UNIQUE with SQLite's default ABORT conflict policy, as the comment at line 141 says. With `ON CONFLICT IGNORE` or `REPLACE` in the schema, the insert of a recorded identifier would succeed or replace the row, and `CrawlProperties.RerunEndsAtRecordedId` would not describe the program.
- The binding of `matchId` at line 107: SQLite integers are signed 64-bit, so an identifier of 2^63 or more is not stored as its `ulong` value. The model keys the table by the full `ULong` value, up to 2^64 − 1.
- Newtonsoft JSON parsing and `SelectToken("$.result.error")`: a foreign library. Its answer for a body is an input: the parse threw, or the token is absent or a string.
- `Classify.ErrorMessage`: does not model `Value<string>()` on an object or array token, which throws an `InvalidCastException` that the `catch (JsonReaderException)` at line 117 does not catch and so ends the crawl. A number or boolean token is converted to its text, which the model takes as the string the library gives.
- `UInt64.TryParse`: the whitespace, sign and culture leniency of `ulong.TryParse` is library behaviour that is not visible. The parser accepts exactly non-empty ASCII digit strings whose value fits in 64 bits.
- `async`/`await`, the timing of `Task.Delay`, and console output (lines 26, 34, 42, 89, 97): timing and I/O with no logical content. The delay is an event in the trace, and the error line of `Main` is returned.
- The HTTP status is an integer, which is how the `HttpStatusCode` value is bound to the parameter.
