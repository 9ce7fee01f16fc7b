/**
 * What the crawl of `Start` guarantees, stated over `Crawler.Crawl`: the
 * identifiers it visits and the pacing between them, how it ends, and how
 * the table grows.
 */
module CrawlProperties {
  import opened Wrappers
  import opened UInt64
  import opened Classify
  import opened Store
  import opened Crawler

  /** The identifiers `startId, startId - 1, ..., endId + 1`. */
  function Descending(startId: ULong, endId: ULong): (ids: seq<ULong>)
    decreases startId
    ensures |ids| == if startId > endId then startId - endId else 0
    ensures forall i :: 0 <= i < |ids| ==> ids[i] == startId - i
    ensures forall i, j :: 0 <= i < j < |ids| ==> ids[i] > ids[j]
  {
    if startId <= endId then [] else [startId] + Descending(startId - 1, endId)
  }

  /** A request for each identifier, each followed by one delay of `CrawlWaitTime`. */
  function Paced(ids: seq<ULong>): seq<Event> {
    if ids == [] then [] else [Request(ids[0]), Delay(CrawlWaitTime)] + Paced(ids[1..])
  }

  /** The identifiers requested in a trace, in order. */
  function Requested(trace: seq<Event>): seq<ULong> {
    if trace == [] then []
    else (if trace[0].Request? then [trace[0].matchId] else []) + Requested(trace[1..])
  }

  /** The number of delays in a trace. */
  function Delays(trace: seq<Event>): nat {
    if trace == [] then 0 else (if trace[0].Delay? then 1 else 0) + Delays(trace[1..])
  }

  lemma {:induction false} TraceAppend(a: seq<Event>, b: seq<Event>)
    ensures Requested(a + b) == Requested(a) + Requested(b)
    ensures Delays(a + b) == Delays(a) + Delays(b)
  {
    if a != [] {
      assert (a + b)[1..] == a[1..] + b;
      TraceAppend(a[1..], b);
    } else {
      assert a + b == b;
    }
  }

  /** A paced trace requests exactly its identifiers and waits once per identifier. */
  lemma {:induction false} PacedCounts(ids: seq<ULong>)
    ensures Requested(Paced(ids)) == ids
    ensures Delays(Paced(ids)) == |ids|
  {
    if ids != [] {
      var head := [Request(ids[0]), Delay(CrawlWaitTime)];
      TraceAppend(head, Paced(ids[1..]));
      assert Requested(head) == [ids[0]] by {
        assert head[1..] == [Delay(CrawlWaitTime)];
      }
      assert Delays(head) == 1 by {
        assert head[1..] == [Delay(CrawlWaitTime)];
      }
      PacedCounts(ids[1..]);
    }
  }

  lemma PacedDescending(m: ULong, k: ULong)
    requires k < m
    ensures Paced(Descending(m, k)) == [Request(m), Delay(CrawlWaitTime)] + Paced(Descending(m - 1, k))
  {
    assert Descending(m, k)[1..] == Descending(m - 1, k);
  }

  /**
   * The trace of a crawl: nothing for an empty range; a request and a delay
   * for every identifier of the range, in descending order, when it
   * completes; and when it aborts at `k`, the same for the identifiers above
   * `k` and a last request for `k`, with the failure being what that
   * iteration meets on the final table (there is no retry).
   */
  lemma {:induction false} CrawlTrace(rows: Rows, matchId: ULong, endId: ULong, env: Env)
    decreases matchId
    ensures var r := Crawl(rows, matchId, endId, env);
      && (matchId <= endId ==> r == CrawlResult(rows, [], Completed))
      && (r.outcome.Completed? ==> r.trace == Paced(Descending(matchId, endId)))
      && (r.outcome.Aborted? ==>
            var k := r.outcome.failure.matchId;
            && endId < k <= matchId
            && r.trace == Paced(Descending(matchId, k)) + [Request(k)]
            && Step(r.rows, k, env) == Stop(r.outcome.failure))
  {
    if matchId > endId {
      match Step(rows, matchId, env)
      case Stop(f) =>
        assert Descending(matchId, matchId) == [];
      case Next(rows') =>
        CrawlTrace(rows', matchId - 1, endId, env);
        var r := Crawl(rows', matchId - 1, endId, env);
        if r.outcome.Completed? {
          PacedDescending(matchId, endId);
        } else {
          PacedDescending(matchId, r.outcome.failure.matchId);
        }
    }
  }

  /**
   * A completed crawl makes exactly `startId - endId` requests, one per
   * identifier in strictly descending order, and as many delays; an aborted
   * one stops at the identifier that failed, after one delay per identifier
   * above it.
   */
  lemma CrawlVisits(rows: Rows, startId: ULong, endId: ULong, env: Env)
    ensures var r := Crawl(rows, startId, endId, env);
      && (r.outcome.Completed? ==>
            && Requested(r.trace) == Descending(startId, endId)
            && Delays(r.trace) == (if startId > endId then startId - endId else 0))
      && (r.outcome.Aborted? ==>
            var k := r.outcome.failure.matchId;
            && Requested(r.trace) == Descending(startId, k) + [k]
            && Delays(r.trace) == startId - k)
  {
    CrawlTrace(rows, startId, endId, env);
    var r := Crawl(rows, startId, endId, env);
    if r.outcome.Completed? {
      PacedCounts(Descending(startId, endId));
    } else {
      var k := r.outcome.failure.matchId;
      PacedCounts(Descending(startId, k));
      TraceAppend(Paced(Descending(startId, k)), [Request(k)]);
      assert Requested([Request(k)]) == [k] by {
        assert [Request(k)][1..] == [];
      }
      assert Delays([Request(k)]) == 0 by {
        assert [Request(k)][1..] == [];
      }
    }
  }

  /**
   * The table only grows: every row present before is still there and
   * unchanged, and every new row belongs to an identifier of the range that
   * was fetched, carrying that identifier, the response's status code
   * whatever it was, its body unmodified and the classified error message.
   * After an abort at `k`, only identifiers above `k` have new rows.
   */
  lemma {:induction false} CrawlRows(rows: Rows, matchId: ULong, endId: ULong, env: Env)
    decreases matchId
    ensures var r := Crawl(rows, matchId, endId, env);
      && (forall k :: k in rows ==> k in r.rows && r.rows[k] == rows[k])
      && (forall k :: k in r.rows && k !in rows ==>
            && endId < k <= matchId
            && env.fetch(k).Received?
            && var response := env.fetch(k).response;
            && r.rows[k].matchId == k
            && r.rows[k].httpStatusCode == response.statusCode
            && r.rows[k].rawJson == response.body
            && r.rows[k].errorMessage == ErrorMessage(env.parse(response.body)))
      && (r.outcome.Aborted? ==>
            forall k :: k in r.rows && k !in rows ==> r.outcome.failure.matchId < k)
  {
    if matchId > endId {
      match Step(rows, matchId, env)
      case Stop(f) =>
      case Next(rows') =>
        CrawlRows(rows', matchId - 1, endId, env);
        CrawlTrace(rows', matchId - 1, endId, env);
    }
  }

  /** An identifier the crawl records without any failure. */
  ghost predicate Clean(rows: Rows, env: Env, k: ULong) {
    && env.fetch(k).Received?
    && k !in rows
    && env.insertFault(k).None?
    && env.commitFault(k).None?
  }

  /**
   * When every identifier of the range is new and nothing fails, the crawl
   * completes and adds a row for exactly the identifiers of the range.
   */
  lemma {:induction false} CrawlRecordsRange(rows: Rows, matchId: ULong, endId: ULong, env: Env)
    requires forall k: ULong :: endId < k <= matchId ==> Clean(rows, env, k)
    decreases matchId
    ensures var r := Crawl(rows, matchId, endId, env);
      && r.outcome == Completed
      && (forall k :: k in r.rows <==> k in rows || endId < k <= matchId)
      && (forall k: ULong :: endId < k <= matchId ==>
            env.fetch(k).Received? && r.rows[k] == RowFor(k, env.fetch(k).response, env))
  {
    if matchId > endId {
      assert Clean(rows, env, matchId);
      var rows' := rows[matchId := RowFor(matchId, env.fetch(matchId).response, env)];
      assert Step(rows, matchId, env) == Next(rows');
      forall k: ULong | endId < k <= matchId - 1
        ensures Clean(rows', env, k)
      {
        assert Clean(rows, env, k);
      }
      CrawlRecordsRange(rows', matchId - 1, endId, env);
      CrawlRows(rows', matchId - 1, endId, env);
    }
  }

  /**
   * A commit that fails with code 19 is swallowed: the crawl goes on, and
   * the identifier gets no row.
   */
  lemma {:induction false} SwallowedCommitLeavesNoRow(rows: Rows, matchId: ULong, endId: ULong, env: Env, k: ULong)
    requires k !in rows
    requires env.commitFault(k) == Some(ConstraintViolation)
    decreases matchId
    ensures k !in Crawl(rows, matchId, endId, env).rows
  {
    if matchId > endId {
      match Step(rows, matchId, env)
      case Stop(f) =>
      case Next(rows') =>
        SwallowedCommitLeavesNoRow(rows', matchId - 1, endId, env, k);
    }
  }

  /** The commit of the first identifier: code 19 continues with the next identifier, any other code ends the crawl. */
  lemma CommitFailureAtStart(rows: Rows, startId: ULong, endId: ULong, env: Env, code: int)
    requires startId > endId
    requires env.fetch(startId).Received? && startId !in rows && env.insertFault(startId).None?
    requires env.commitFault(startId) == Some(code)
    ensures code == ConstraintViolation ==>
              Crawl(rows, startId, endId, env)
              == Prepend([Request(startId), Delay(CrawlWaitTime)], Crawl(rows, startId - 1, endId, env))
    ensures code != ConstraintViolation ==>
              Crawl(rows, startId, endId, env)
              == CrawlResult(rows, [Request(startId)], Aborted(CommitFailed(startId, code)))
  {
  }

  /** An exception from the fetch is not retried: it ends the crawl with nothing stored. */
  lemma FetchFailureAtStart(rows: Rows, startId: ULong, endId: ULong, env: Env)
    requires startId > endId && env.fetch(startId).Thrown?
    ensures Crawl(rows, startId, endId, env)
            == CrawlResult(rows, [Request(startId)], Aborted(FetchFailed(startId)))
  {
  }

  /**
   * Crawling again a range whose first identifier was recorded by a
   * completed crawl ends at once: the INSERT fails with code 19 outside the
   * try block that guards the commit.
   */
  lemma {:induction false} RerunEndsAtRecordedId(rows: Rows, startId: ULong, endId: ULong, env: Env)
    requires startId > endId
    requires env.commitFault(startId).None?
    requires Crawl(rows, startId, endId, env).outcome.Completed?
    ensures var r := Crawl(rows, startId, endId, env);
      Crawl(r.rows, startId, endId, env)
      == CrawlResult(r.rows, [Request(startId)], Aborted(InsertFailed(startId, ConstraintViolation)))
  {
    match Step(rows, startId, env)
    case Stop(f) =>
    case Next(rows') =>
      CrawlRows(rows', startId - 1, endId, env);
  }
}
