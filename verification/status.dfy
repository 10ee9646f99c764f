/** The header literals and method names the HTTP library formats into
    every request line and response (libs/http/src/constants.rs and
    libs/http/src/methods.rs). */
module HttpConstants {
  const HTTP_VERSION: string := "HTTP/1.1"
  const CONTENT_LENGTH: string := "Content-Length"
  const CONTENT_TYPE: string := "Content-Type"
  const CONTENT_JSON: string := "application/json"

  const GET: string := "GET"
  const POST: string := "POST"
  const PUT: string := "PUT"
  const DELETE: string := "DELETE"
}

/** The closed set of response outcomes and their wire text. */
module HttpStatus {
  import opened Strings

  datatype Status = Ok | BadRequest | NotFound | UnprocessableEntity | ServerError

  // The associated constants of `Status`.
  const OK: Status := Ok
  const BAD_REQUEST: Status := BadRequest
  const NOT_FOUND: Status := NotFound
  const UNPROCESSABLE_ENTITY: Status := UnprocessableEntity
  const SERVER_ERROR: Status := ServerError

  predicate IsUpper(c: char)
  {
    'A' <= c <= 'Z'
  }

  /** From index `i` on, `t` is a reason phrase: upper-case words
      separated by single spaces, ending in a letter. */
  predicate ReasonFrom(t: string, i: nat)
    decreases |t| - i
  {
    i < |t| && IsUpper(t[i]) &&
    (i + 1 == |t| || if t[i + 1] == ' ' then ReasonFrom(t, i + 2) else ReasonFrom(t, i + 1))
  }

  /** A status line's text: three digits, one space, then a reason phrase. */
  predicate IsStatusText(t: string)
  {
    |t| >= 5 && IsDigit(t[0]) && IsDigit(t[1]) && IsDigit(t[2]) && t[3] == ' ' && ReasonFrom(t, 4)
  }

  /** The `Display` text of a status. */
  function Text(s: Status): (t: string)
    ensures '\r' !in t && '\n' !in t
  {
    match s
    case Ok => "200 OK"
    case BadRequest => "400 BAD REQUEST"
    case NotFound => "404 NOT FOUND"
    case UnprocessableEntity => "422 UNPROCESSABLE ENTITY"
    case ServerError => "500 INTERNAL SERVER ERROR"
  }

  /** The numeric code at the head of the text. */
  function Code(s: Status): (c: nat)
    ensures 100 <= c < 600
  {
    match s
    case Ok => 200
    case BadRequest => 400
    case NotFound => 404
    case UnprocessableEntity => 422
    case ServerError => 500
  }

  /** The code printed in decimal is the first three characters of the
      text. */
  lemma CodeHeadsText(s: Status)
    ensures Decimal(Code(s)) == Text(s)[..3]
  {
    match s
    case Ok => assert Decimal(200) == "200";
    case BadRequest => assert Decimal(400) == "400";
    case NotFound => assert Decimal(404) == "404";
    case UnprocessableEntity => assert Decimal(422) == "422";
    case ServerError => assert Decimal(500) == "500";
  }

  /** Every status text is a three-digit code, a space and an upper-case
      reason phrase. */
  lemma TextShape(s: Status)
    ensures IsStatusText(Text(s))
  {
    match s
    case Ok => ShortTextsWellFormed();
    case BadRequest => ShortTextsWellFormed();
    case NotFound => ShortTextsWellFormed();
    case UnprocessableEntity => UnprocessableTextWellFormed();
    case ServerError => ServerErrorTextWellFormed();
  }

  lemma ShortTextsWellFormed()
    ensures IsStatusText("200 OK")
    ensures IsStatusText("400 BAD REQUEST")
    ensures IsStatusText("404 NOT FOUND")
  {
  }

  lemma UnprocessableTextWellFormed()
    ensures IsStatusText("422 UNPROCESSABLE ENTITY")
  {
  }

  lemma ServerErrorTextWellFormed()
    ensures IsStatusText("500 INTERNAL SERVER ERROR")
  {
  }

  /** No two statuses share a wire text. */
  lemma TextInjective(a: Status, b: Status)
    ensures Text(a) == Text(b) ==> a == b
  {
    if Text(a) == Text(b) {
      assert Text(a)[..3] == Text(b)[..3];
      assert Text(a)[4] == Text(b)[4];
    }
  }

  /** The associated constants name the variant of the same name. */
  lemma ConstantsDenoteVariants()
    ensures Text(OK) == "200 OK" && Text(BAD_REQUEST) == "400 BAD REQUEST"
    ensures Text(NOT_FOUND) == "404 NOT FOUND"
    ensures Text(UNPROCESSABLE_ENTITY) == "422 UNPROCESSABLE ENTITY"
    ensures Text(SERVER_ERROR) == "500 INTERNAL SERVER ERROR"
  {
  }

  /** `Ok` is the only success status: the only text starting with '2'. */
  lemma OnlyOkIsSuccess(s: Status)
    ensures Text(s)[0] == '2' <==> s == Ok
  {
  }
}
