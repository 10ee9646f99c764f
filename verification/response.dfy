/** The HTTP response of the `http` library (libs/http/src/response.rs):
    the JSON envelope around the content, and the status line and headers
    whose `Content-Length` counts the body that follows them.

    `Date::new()` reads the clock; here the timestamp is a parameter of
    every constructor. Writing to the `TcpStream` is the byte string that
    `send` would write. */
module HttpResponse {
  import opened Strings
  import opened HttpConstants
  import HttpStatus
  type Status = HttpStatus.Status
  import opened Time

  datatype Response = Response(header: string, content: string, status: Status, time: Date)

  // -----------------------------------------------------------------------
  // The wire frame: status line, two headers, blank line, body
  // -----------------------------------------------------------------------

  const STATUS_PREFIX: string := HTTP_VERSION + " "
  const LENGTH_PREFIX: string := "\r\n" + CONTENT_LENGTH + ": "
  const TYPE_AND_BLANK_LINE: string := "\r\n" + CONTENT_TYPE + ": " + CONTENT_JSON + "\r\n\r\n"

  /** The status line and headers announcing a body of `length` bytes. */
  function ResponseStart(status: Status, length: nat): string
  {
    STATUS_PREFIX + HttpStatus.Text(status) + LENGTH_PREFIX + Decimal(length) + TYPE_AND_BLANK_LINE
  }

  /** The headers followed by the body they announce. */
  function Frame(status: Status, body: string): string
  {
    ResponseStart(status, |body|) + body
  }

  /** The status whose wire text is `t`, if any. */
  function StatusOfText(t: string): (r: Option<Status>)
    ensures r.Some? ==> HttpStatus.Text(r.value) == t
  {
    if t == HttpStatus.Text(HttpStatus.Ok) then Some(HttpStatus.Ok)
    else if t == HttpStatus.Text(HttpStatus.BadRequest) then Some(HttpStatus.BadRequest)
    else if t == HttpStatus.Text(HttpStatus.NotFound) then Some(HttpStatus.NotFound)
    else if t == HttpStatus.Text(HttpStatus.UnprocessableEntity) then Some(HttpStatus.UnprocessableEntity)
    else if t == HttpStatus.Text(HttpStatus.ServerError) then Some(HttpStatus.ServerError)
    else None
  }

  lemma StatusOfTextInverse(s: Status)
    ensures StatusOfText(HttpStatus.Text(s)) == Some(s)
  {
    var r := StatusOfText(HttpStatus.Text(s));
    HttpStatus.TextInjective(r.value, s);
  }

  /** A client's reading of a frame: the status from the status line, the
      declared length from `Content-Length`, and the body, which must be
      exactly that many bytes long. */
  function ParseFrame(s: string): Option<(Status, string)>
  {
    if !StartsWith(s, STATUS_PREFIX) then None
    else ParseStatusLine(s[|STATUS_PREFIX|..])
  }

  /** The status text up to the first carriage return, then the headers. */
  function ParseStatusLine(t: string): Option<(Status, string)>
  {
    if '\r' !in t then None
    else
      var i := IndexOf(t, '\r');
      match StatusOfText(t[..i])
      case None => None
      case Some(status) =>
        match ParseHeaders(t[i..])
        case None => None
        case Some(body) => Some((status, body))
  }

  /** `Content-Length`, then the body it announces. */
  function ParseHeaders(h: string): Option<string>
  {
    if !StartsWith(h, LENGTH_PREFIX) then None
    else ParseLength(h[|LENGTH_PREFIX|..])
  }

  /** The declared length, the `Content-Type` header and the blank line,
      then a body of exactly the declared length. */
  function ParseLength(a: string): Option<string>
  {
    if '\r' !in a then None
    else
      var j := IndexOf(a, '\r');
      var digits := a[..j];
      var rest := a[j..];
      if |digits| == 0 || !AllDigits(digits) || !StartsWith(rest, TYPE_AND_BLANK_LINE) then None
      else
        var body := rest[|TYPE_AND_BLANK_LINE|..];
        if DigitsValue(digits) != |body| then None else Some(body)
  }

  lemma DigitsHaveNoCr(s: string)
    requires AllDigits(s)
    ensures '\r' !in s
  {
  }

  /** Cutting `a + b` at its first carriage return splits it back into
      `a` and `b` when only `b` holds one, at its head. */
  lemma CutAtCr(a: string, b: string)
    requires '\r' !in a && |b| > 0 && b[0] == '\r'
    ensures '\r' in a + b
    ensures IndexOf(a + b, '\r') == |a|
    ensures (a + b)[..|a|] == a && (a + b)[|a|..] == b
  {
    assert a + b == a + ['\r'] + b[1..];
    IndexOfAfterFree(a, '\r', b[1..]);
  }

  lemma DropPrefix(p: string, s: string)
    ensures StartsWith(p + s, p) && (p + s)[|p|..] == s
  {
    assert (p + s)[..|p|] == p;
  }

  lemma HeaderLiteralsStartWithCr()
    ensures |LENGTH_PREFIX| > 0 && LENGTH_PREFIX[0] == '\r'
    ensures |TYPE_AND_BLANK_LINE| > 0 && TYPE_AND_BLANK_LINE[0] == '\r'
  {
  }

  lemma ParseLengthReadsBody(body: string)
    ensures ParseLength(Decimal(|body|) + (TYPE_AND_BLANK_LINE + body)) == Some(body)
  {
    var d := Decimal(|body|);
    HeaderLiteralsStartWithCr();
    DigitsHaveNoCr(d);
    CutAtCr(d, TYPE_AND_BLANK_LINE + body);
    DropPrefix(TYPE_AND_BLANK_LINE, body);
    DecimalRoundTrip(|body|);
  }

  lemma ParseHeadersReadsBody(body: string)
    ensures ParseHeaders(LENGTH_PREFIX + (Decimal(|body|) + (TYPE_AND_BLANK_LINE + body))) == Some(body)
  {
    DropPrefix(LENGTH_PREFIX, Decimal(|body|) + (TYPE_AND_BLANK_LINE + body));
    ParseLengthReadsBody(body);
  }

  /** The status line splits at the carriage return that opens the headers. */
  lemma ParseStatusLineSplits(text: string, headers: string, status: Status, body: string)
    requires '\r' !in text && StatusOfText(text) == Some(status)
    requires ParseHeaders(headers) == Some(body)
    ensures ParseStatusLine(text + headers) == Some((status, body))
  {
    assert StartsWith(headers, LENGTH_PREFIX);
    HeaderLiteralsStartWithCr();
    assert headers[..|LENGTH_PREFIX|] == LENGTH_PREFIX;
    assert headers[0] == LENGTH_PREFIX[0];
    CutAtCr(text, headers);
  }

  lemma ParseFrameSplits(afterVersion: string, status: Status, body: string)
    requires ParseStatusLine(afterVersion) == Some((status, body))
    ensures ParseFrame(STATUS_PREFIX + afterVersion) == Some((status, body))
  {
    DropPrefix(STATUS_PREFIX, afterVersion);
  }

  lemma FrameNests(a: string, b: string, c: string, d: string, e: string, f: string)
    ensures a + b + c + d + e + f == a + (b + (c + (d + (e + f))))
  {
  }

  /** Reading a frame gives back its status and its body: the declared
      `Content-Length` is exactly the body's byte count. */
  lemma FrameRoundTrip(status: Status, body: string)
    ensures ParseFrame(Frame(status, body)) == Some((status, body))
  {
    var text := HttpStatus.Text(status);
    var headers := LENGTH_PREFIX + (Decimal(|body|) + (TYPE_AND_BLANK_LINE + body));
    FrameNests(STATUS_PREFIX, text, LENGTH_PREFIX, Decimal(|body|), TYPE_AND_BLANK_LINE, body);
    ParseHeadersReadsBody(body);
    StatusOfTextInverse(status);
    ParseStatusLineSplits(text, headers, status, body);
    ParseFrameSplits(text + headers, status, body);
  }

  // -----------------------------------------------------------------------
  // The body
  // -----------------------------------------------------------------------

  const ENVELOPE_CONTENT: string := "{\"content\":"
  const ENVELOPE_STATUS: string := ",\"status\":\""
  const ENVELOPE_TIME: string := "\",\"time\":\""
  const ENVELOPE_END: string := "\"}"

  /** The JSON object wrapped around non-raw content. The content is
      pasted in as it is: it is expected to be JSON text already. */
  function Envelope(content: string, status: Status, formatted: string): string
  {
    ENVELOPE_CONTENT + content + ENVELOPE_STATUS + HttpStatus.Text(status) + ENVELOPE_TIME + formatted + ENVELOPE_END
  }

  /** The envelope costs 34 bytes on top of its three fields, and the
      content sits right after the opening `{"content":`. */
  lemma EnvelopeLayout(content: string, status: Status, formatted: string)
    ensures |Envelope(content, status, formatted)| == |content| + |HttpStatus.Text(status)| + |formatted| + 34
    ensures StartsWith(Envelope(content, status, formatted), ENVELOPE_CONTENT + content)
  {
    var e := Envelope(content, status, formatted);
    assert e == (ENVELOPE_CONTENT + content) + (ENVELOPE_STATUS + HttpStatus.Text(status) + ENVELOPE_TIME + formatted + ENVELOPE_END);
  }

  /** `render_body`. */
  function RenderBody(r: Response, raw: bool): (body: string)
    ensures raw ==> body == r.content
    ensures !raw ==> StartsWith(body, ENVELOPE_CONTENT + r.content)
  {
    if raw then r.content
    else
      EnvelopeLayout(r.content, r.status, r.time.formatted);
      Envelope(r.content, r.status, r.time.formatted)
  }

  /** `len`: the byte count of the rendered body. */
  function Len(r: Response, raw: bool): (n: nat)
    ensures raw ==> n == |r.content|
    ensures !raw ==> n == |r.content| + |HttpStatus.Text(r.status)| + |r.time.formatted| + 34
  {
    if !raw then EnvelopeLayout(r.content, r.status, r.time.formatted); |RenderBody(r, raw)|
    else |RenderBody(r, raw)|
  }

  /** `is_empty`: only a raw response with empty content has an empty
      body; the envelope never is. */
  function IsEmpty(r: Response, raw: bool): (b: bool)
    ensures b <==> raw && r.content == ""
  {
    Len(r, raw) == 0
  }

  /** The header of `r` is the frame of the body rendered with `raw`. */
  predicate Framed(r: Response, raw: bool)
  {
    r.header == Frame(r.status, RenderBody(r, raw))
  }

  /** A framed response's header reads back to its status and body: its
      `Content-Length` is exactly the body's byte count. */
  lemma FramedDeclaresBodyLength(r: Response, raw: bool)
    requires Framed(r, raw)
    ensures ParseFrame(r.header) == Some((r.status, RenderBody(r, raw)))
  {
    FrameRoundTrip(r.status, RenderBody(r, raw));
  }

  /** `add_http_headers`: the header becomes the whole frame, and nothing
      else changes. */
  function AddHttpHeaders(r: Response, raw: bool): (out: Response)
    ensures out.content == r.content && out.status == r.status && out.time == r.time
    ensures Framed(out, raw)
  {
    r.(header := ResponseStart(r.status, Len(r, raw)) + RenderBody(r, raw))
  }

  /** `Response::new`, with the timestamp `Date::new()` would read as a
      parameter. */
  function New(status: Status, contents: string, raw: bool, time: Date): (r: Response)
    ensures r.content == contents && r.status == status && r.time == time
    ensures Framed(r, raw)
  {
    AddHttpHeaders(Response("", contents, status, time), raw)
  }

  /** `Response::new` with the clock reading in seconds: `Date::new()`
      panics on the last twelve days of every year, and so does every
      constructor that calls it. */
  function NewAt(status: Status, contents: string, raw: bool, seconds: nat): (r: Option<Response>)
    ensures var (year, dayOfYear) := YearOf(seconds / SECONDS_PER_DAY, EPOCH_YEAR);
      r.None? <==> dayOfYear >= DaysInYear(year) - 12
    ensures r.Some? ==> r.value.content == contents && r.value.status == status
    ensures r.Some? ==> r.value.time.timestamp == seconds && Framed(r.value, raw)
  {
    AsWrittenPanicWindow(seconds / SECONDS_PER_DAY);
    match NewDate(seconds)
    case None => None
    case Some(d) => Some(New(status, contents, raw, d))
  }

  function Ok(contents: string, raw: bool, time: Date): (r: Response)
    ensures r.status == HttpStatus.Ok && r.content == contents
    ensures Framed(r, raw)
  {
    New(HttpStatus.Ok, contents, raw, time)
  }

  const NOT_FOUND_CONTENT: string := "\"That doesn't exist on the menu\""
  const BAD_REQUEST_CONTENT: string := "\"Are you sure about that?\""
  const UNPROCESSABLE_ENTITY_CONTENT: string := "\"I don't know how to handle those inputs, Hal.\""
  const SERVER_ERROR_CONTENT: string := "\"The server did not like that one\""

  function NotFound(time: Date): (r: Response)
    ensures r.status == HttpStatus.NotFound && r.content == NOT_FOUND_CONTENT
    ensures Framed(r, false)
  {
    New(HttpStatus.NotFound, NOT_FOUND_CONTENT, false, time)
  }

  function BadRequest(time: Date): (r: Response)
    ensures r.status == HttpStatus.BadRequest && r.content == BAD_REQUEST_CONTENT
    ensures Framed(r, false)
  {
    New(HttpStatus.BadRequest, BAD_REQUEST_CONTENT, false, time)
  }

  function UnprocessableEntity(time: Date): (r: Response)
    ensures r.status == HttpStatus.UnprocessableEntity && r.content == UNPROCESSABLE_ENTITY_CONTENT
    ensures Framed(r, false)
  {
    New(HttpStatus.UnprocessableEntity, UNPROCESSABLE_ENTITY_CONTENT, false, time)
  }

  function ServerError(time: Date): (r: Response)
    ensures r.status == HttpStatus.ServerError && r.content == SERVER_ERROR_CONTENT
    ensures Framed(r, false)
  {
    New(HttpStatus.ServerError, SERVER_ERROR_CONTENT, false, time)
  }

  /** The bytes `send` writes: the headers for the body rendered now, then
      that body. */
  function Send(r: Response, raw: bool): (bytes: string)
    ensures ParseFrame(bytes) == Some((r.status, RenderBody(r, raw)))
  {
    FrameRoundTrip(r.status, RenderBody(r, raw));
    var body := RenderBody(r, raw);
    ResponseStart(r.status, |body|) + body
  }

  /** `Display` prints the stored header. */
  function Display(r: Response): string
  {
    r.header
  }

  /** Sending with the flag a response was built with writes exactly what
      its `Display` shows. */
  lemma SendMatchesDisplay(status: Status, contents: string, raw: bool, time: Date)
    ensures var r := New(status, contents, raw, time); Send(r, raw) == Display(r)
  {
  }

  /** The flag changes only the header, and the raw and enveloped headers
      of the same response always differ. */
  lemma RawFlagOnlyChangesHeader(status: Status, contents: string, time: Date)
    ensures var a, b := New(status, contents, true, time), New(status, contents, false, time);
      && a.(header := "") == b.(header := "")
      && a.header != b.header
  {
    var a, b := New(status, contents, true, time), New(status, contents, false, time);
    FramedDeclaresBodyLength(a, true);
    FramedDeclaresBodyLength(b, false);
    EnvelopeLayout(contents, status, time.formatted);
  }
}
