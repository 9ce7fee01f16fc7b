/**
 * The row built for one fetched match: the identifier, the HTTP status and the
 * body as received, and the error message taken from the body's
 * `result.error` field.
 */
module Classify {
  import opened Wrappers
  import opened UInt64

  /** The message stored when the body is not JSON. */
  const InvalidJsonMessage: string := "Invalid JSON"

  /**
   * What the JSON library reports for a body: `JObject.Parse` threw a
   * `JsonReaderException`, or it parsed and `$.result.error` gave a string
   * (Some; a number or boolean token is converted to its text) or null
   * (None, for a token that is absent or holds JSON `null`).
   */
  datatype JsonAnswer = Invalid | Parsed(error: Option<string>)

  /** A received HTTP response: its status code, whatever it is, and its body text. */
  datatype Response = Response(statusCode: int, body: string)

  /**
   * A row of the `matches` table; `errorMessage == None` is the NULL column
   * (`DBNull.Value`).
   */
  datatype MatchRow = MatchRow(
    matchId: ULong,
    httpStatusCode: int,
    errorMessage: Option<string>,
    rawJson: string)

  function ErrorMessage(answer: JsonAnswer): (r: Option<string>)
    ensures r == None <==> answer == Parsed(None)
    ensures answer == Invalid ==> r == Some(InvalidJsonMessage)
    ensures answer.Parsed? ==> r == answer.error
  {
    match answer
    case Invalid => Some(InvalidJsonMessage)
    case Parsed(error) => error
  }

  /** The parameters bound to the INSERT for `matchId`. */
  function NewRow(matchId: ULong, response: Response, answer: JsonAnswer): MatchRow {
    MatchRow(matchId, response.statusCode, ErrorMessage(answer), response.body)
  }

  /**
   * The stored `errorMessage` cannot tell a body that is not JSON from a
   * body whose `result.error` is "Invalid JSON": for two responses with the
   * same status the rows agree on every column but `rawJson`, and only
   * `rawJson` can tell them apart.
   */
  lemma InvalidJsonIndistinguishable(matchId: ULong, notJson: Response, errorBody: Response)
    requires notJson.statusCode == errorBody.statusCode
    ensures var a := NewRow(matchId, notJson, Invalid);
            var b := NewRow(matchId, errorBody, Parsed(Some(InvalidJsonMessage)));
            && a.matchId == b.matchId
            && a.httpStatusCode == b.httpStatusCode
            && a.errorMessage == b.errorMessage
            && (a == b <==> notJson.body == errorBody.body)
  {
  }

  /**
   * Apart from that collision, the stored message determines the library's
   * answer: two parsed answers that store the same message are the same.
   */
  lemma ParsedAnswerRecoverable(a: JsonAnswer, b: JsonAnswer)
    requires a.Parsed? && b.Parsed?
    requires ErrorMessage(a) == ErrorMessage(b)
    ensures a == b
  {
  }
}
