/**
 * The crawl loop of `Start`: for each identifier from `startId` down to
 * `endId + 1`, fetch the match, insert its row in a transaction, commit, and
 * wait `CrawlWaitTime` milliseconds. A fetch failure or an insert failure
 * ends the crawl; a commit failure ends it unless its code is 19.
 */
module Crawler {
  import opened Wrappers
  import opened UInt64
  import opened Classify
  import opened Store

  /** Milliseconds waited after each identifier. */
  const CrawlWaitTime: int := 1000

  /** What fetching one identifier gives: a response, or an exception from the HTTP client. */
  datatype Fetch = Received(response: Response) | Thrown

  /**
   * Everything the crawl learns from outside, per identifier: the HTTP
   * fetch, the JSON library's answer for a body, and the engine failures
   * (besides the UNIQUE check) of the insert and of the commit.
   */
  datatype Env = Env(
    fetch: ULong -> Fetch,
    parse: string -> JsonAnswer,
    insertFault: ULong -> Option<int>,
    commitFault: ULong -> Option<int>)

  /** The exception that leaves `Start`, with the identifier being crawled. */
  datatype Failure =
    | FetchFailed(matchId: ULong)
    | InsertFailed(matchId: ULong, code: int)
    | CommitFailed(matchId: ULong, code: int)

  datatype Outcome = Completed | Aborted(failure: Failure)

  /** The observable effects of the loop, in order: one request per identifier, one delay per finished iteration. */
  datatype Event = Request(matchId: ULong) | Delay(ms: int)

  /** How one iteration ends: the loop goes on with these committed rows, or stops. */
  datatype StepResult = Next(rows: Rows) | Stop(failure: Failure)

  /** The table, the trace and the outcome of a whole crawl. */
  datatype CrawlResult = CrawlResult(rows: Rows, trace: seq<Event>, outcome: Outcome)

  /** The row bound to the INSERT for a fetched identifier. */
  function RowFor(matchId: ULong, response: Response, env: Env): MatchRow {
    NewRow(matchId, response, env.parse(response.body))
  }

  /** The body of the `for` loop for one identifier, given the committed rows. */
  function Step(rows: Rows, matchId: ULong, env: Env): (r: StepResult)
    ensures r.Stop? ==> r.failure.matchId == matchId
    ensures r.Next? <==>
              && env.fetch(matchId).Received?
              && matchId !in rows
              && env.insertFault(matchId).None?
              && env.commitFault(matchId) in {None, Some(ConstraintViolation)}
    ensures r.Next? ==>
              r.rows == if env.commitFault(matchId).None?
                        then rows[matchId := RowFor(matchId, env.fetch(matchId).response, env)]
                        else rows
    ensures r == Stop(FetchFailed(matchId)) <==> env.fetch(matchId).Thrown?
  {
    match env.fetch(matchId)
    case Thrown => Stop(FetchFailed(matchId))
    case Received(response) =>
      match InsertError(rows.Keys, matchId, env.insertFault(matchId))
      case Some(code) => Stop(InsertFailed(matchId, code))
      case None =>
        match env.commitFault(matchId)
        case None => Next(rows[matchId := RowFor(matchId, response, env)])
        case Some(code) =>
          if code == ConstraintViolation then Next(rows) else Stop(CommitFailed(matchId, code))
  }

  function Prepend(events: seq<Event>, r: CrawlResult): CrawlResult {
    CrawlResult(r.rows, events + r.trace, r.outcome)
  }

  /** What `Start` does from `matchId` down, as a function of the committed rows. */
  function Crawl(rows: Rows, matchId: ULong, endId: ULong, env: Env): CrawlResult
    decreases matchId
  {
    if matchId <= endId then CrawlResult(rows, [], Completed)
    else match Step(rows, matchId, env)
      case Stop(failure) => CrawlResult(rows, [Request(matchId)], Aborted(failure))
      case Next(rows') =>
        Prepend([Request(matchId), Delay(CrawlWaitTime)], Crawl(rows', matchId - 1, endId, env))
  }

  /** One pass of the loop body: fetch, insert in a transaction, commit, dispose. */
  method Visit(store: MatchStore, matchId: ULong, env: Env) returns (failure: Option<Failure>)
    requires store.Valid() && !store.inTransaction
    modifies store
    ensures store.Valid() && !store.inTransaction
    ensures match Step(old(store.rows), matchId, env)
            case Next(rows) => failure == None && store.rows == rows
            case Stop(f) => failure == Some(f) && store.rows == old(store.rows)
  {
    var fetched := env.fetch(matchId);
    if fetched.Thrown? {
      return Some(FetchFailed(matchId));
    }
    var response := fetched.response;
    store.BeginTransaction();
    var row := RowFor(matchId, response, env);
    var inserted := store.Insert(row, env.insertFault(matchId));
    if inserted.Some? {
      store.Dispose();
      return Some(InsertFailed(matchId, inserted.value));
    }
    var committed := store.Commit(env.commitFault(matchId));
    store.Dispose();
    if committed.Some? && committed.value != ConstraintViolation {
      return Some(CommitFailed(matchId, committed.value));
    }
    failure := None;
  }

  /** `Start` over an open store, with its `for` loop. */
  method Start(store: MatchStore, startId: ULong, endId: ULong, env: Env)
    returns (outcome: Outcome, trace: seq<Event>)
    requires store.Valid() && !store.inTransaction
    modifies store
    ensures store.Valid() && !store.inTransaction
    ensures Crawl(old(store.rows), startId, endId, env) == CrawlResult(store.rows, trace, outcome)
  {
    ghost var rows0 := store.rows;
    outcome := Completed;
    trace := [];
    var matchId: ULong := startId;
    while matchId > endId
      invariant store.Valid() && !store.inTransaction
      invariant Crawl(rows0, startId, endId, env) == Prepend(trace, Crawl(store.rows, matchId, endId, env))
      decreases matchId
    {
      ghost var before := store.rows;
      ghost var prefix := trace;
      var failure := Visit(store, matchId, env);
      trace := trace + [Request(matchId)];
      if failure.Some? {
        outcome := Aborted(failure.value);
        return;
      }
      trace := trace + [Delay(CrawlWaitTime)];
      assert trace == prefix + [Request(matchId), Delay(CrawlWaitTime)];
      matchId := matchId - 1;
    }
  }
}
