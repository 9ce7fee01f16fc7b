/**
 * The command-line checks `Main` performs before it starts a crawl:
 * `startId` is required and must be a ulong, `endId` is optional, must be a
 * ulong when given, and defaults to 1. Arguments after the second are ignored.
 */
module Arguments {
  import opened Wrappers
  import opened UInt64

  const DefaultEndId: ULong := 1

  /** The three ways `Main` refuses its arguments, in the order it checks them. */
  datatype ArgError = MissingArguments | StartIdNotULong | EndIdNotULong

  /** The range `Start` is called with. */
  datatype CrawlRange = CrawlRange(startId: ULong, endId: ULong)

  datatype ArgResult = Refused(error: ArgError) | Accepted(range: CrawlRange)

  function ParseArgs(args: seq<string>): (r: ArgResult)
    ensures r == Refused(MissingArguments) <==> |args| < 1
    ensures r == Refused(StartIdNotULong) <==> |args| >= 1 && TryParse(args[0]).None?
    ensures r == Refused(EndIdNotULong) <==>
              |args| >= 2 && TryParse(args[0]).Some? && TryParse(args[1]).None?
    ensures r.Accepted? ==>
              && TryParse(args[0]) == Some(r.range.startId)
              && (|args| == 1 ==> r.range.endId == DefaultEndId)
              && (|args| >= 2 ==> TryParse(args[1]) == Some(r.range.endId))
  {
    if |args| < 1 then Refused(MissingArguments)
    else match TryParse(args[0])
      case None => Refused(StartIdNotULong)
      case Some(startId) =>
        if |args| >= 2 then
          match TryParse(args[1])
          case None => Refused(EndIdNotULong)
          case Some(endId) => Accepted(CrawlRange(startId, endId))
        else Accepted(CrawlRange(startId, DefaultEndId))
  }

  /** The line `Main` writes to the error stream for each refusal. */
  function ErrorText(e: ArgError, programName: string): string {
    match e
    case MissingArguments => "Missing arguments. " + programName + " startId [endId]"
    case StartIdNotULong => "Argument startId has to be an ulong."
    case EndIdNotULong => "Argument endId has to be an ulong."
  }

  /** Both identifiers written in decimal are accepted as given. */
  lemma ParseArgsOfDecimals(startId: ULong, endId: ULong, rest: seq<string>)
    ensures ParseArgs([ToDecimal(startId), ToDecimal(endId)] + rest)
            == Accepted(CrawlRange(startId, endId))
  {
    TryParseToDecimal(startId);
    TryParseToDecimal(endId);
  }

  /** With the start identifier alone, the crawl runs down to the default end. */
  lemma ParseArgsDefaultEnd(startId: ULong)
    ensures ParseArgs([ToDecimal(startId)]) == Accepted(CrawlRange(startId, DefaultEndId))
  {
    TryParseToDecimal(startId);
  }

  /** An end identifier past 2^64 - 1 is refused even when the start is valid. */
  lemma ParseArgsEndOverflow(startId: ULong, endId: nat)
    requires endId > MaxULong
    ensures ParseArgs([ToDecimal(startId), ToDecimal(endId)]) == Refused(EndIdNotULong)
  {
    TryParseToDecimal(startId);
    TryParseRejectsOverflow(endId);
  }
}
