/**
 * What the route handlers share: the caller the authentication middleware attaches, the
 * role sets the authorization middleware is configured with, and the responses.
 */
module Http {
  import opened Values

  datatype Role = Admin | Teacher | StudentRole | Parent | Staff

  /** The authenticated caller: the numeric user id carried by the token, and its role. */
  datatype Caller = Caller(id: int, role: Role)

  /** A JSON response body. */
  datatype Body =
    | One(row: Record)
    | Many(rows: seq<Record>, count: int)
    | GradeReport(grades: seq<Record>, average: Option<real>, count: int)
    | Enrolled(student: Record, user: Record)
    | Message(text: string)
    | Failure(text: string)

  datatype Response = Response(status: int, body: Body)

  /** `parseInt(q) || d`: the default when the text does not parse (NaN) or parses to 0. */
  function QueryOr(q: Option<int>, d: int): (r: int)
    ensures q.Some? && q.value != 0 ==> r == q.value
    ensures q.None? || q.value == 0 ==> r == d
  {
    match q
    case Some(n) => if n != 0 then n else d
    case None => d
  }

  /** The catch block: any error the store raises becomes 500. */
  function ServerError(text: string): Response {
    Response(500, Failure(text))
  }

  function NotFound(text: string): Response {
    Response(404, Failure(text))
  }
}
