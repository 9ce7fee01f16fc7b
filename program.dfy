/**
 * `Main`: check the arguments, reporting the first problem and stopping,
 * then run `Start` over the range they give.
 */
module Program {
  import opened Wrappers
  import opened UInt64
  import opened Arguments
  import opened Store
  import opened Crawler

  /** What `Main` ends with: a line on the error stream, or the end of a crawl. */
  datatype RunResult = UsageError(message: string) | Crawled(outcome: Outcome)

  method Launch(programName: string, args: seq<string>, store: MatchStore, env: Env)
    returns (result: RunResult, trace: seq<Event>)
    requires store.Valid() && !store.inTransaction
    modifies store
    ensures store.Valid() && !store.inTransaction
    ensures ParseArgs(args).Refused? ==>
              && result == UsageError(ErrorText(ParseArgs(args).error, programName))
              && trace == []
              && store.rows == old(store.rows)
    ensures ParseArgs(args).Accepted? ==>
              && result.Crawled?
              && var range := ParseArgs(args).range;
              Crawl(old(store.rows), range.startId, range.endId, env)
              == CrawlResult(store.rows, trace, result.outcome)
  {
    trace := [];
    if |args| < 1 {
      return UsageError(ErrorText(MissingArguments, programName)), [];
    }
    var endId: ULong := DefaultEndId;
    var parsedStart := TryParse(args[0]);
    if parsedStart.None? {
      return UsageError(ErrorText(StartIdNotULong, programName)), [];
    }
    var startId := parsedStart.value;
    if |args| >= 2 {
      var parsedEnd := TryParse(args[1]);
      if parsedEnd.None? {
        return UsageError(ErrorText(EndIdNotULong, programName)), [];
      }
      endId := parsedEnd.value;
    }
    var outcome;
    outcome, trace := Start(store, startId, endId, env);
    result := Crawled(outcome);
  }
}
