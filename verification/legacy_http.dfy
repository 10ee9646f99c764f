/** The status of the server crate's own, older HTTP layer
    (src/http/status.rs; src/http/response.rs declares the same enum
    again, with the same two variants and texts, and it is modelled once). */
module LegacyStatus {
  import HttpStatus

  datatype Status = Ok | NotFound

  // The associated constants of `Status`.
  const OK: Status := Ok
  const NOTFOUND: Status := NotFound

  /** `Display`. */
  function Text(s: Status): string
  {
    match s
    case Ok => "200 OK"
    case NotFound => "404 NOT FOUND"
  }

  /** The library status with the same meaning. */
  function ToLibrary(s: Status): (l: HttpStatus.Status)
    ensures l == HttpStatus.Ok || l == HttpStatus.NotFound
  {
    match s
    case Ok => HttpStatus.Ok
    case NotFound => HttpStatus.NotFound
  }

  /** The older layer prints the library's texts, so both put the same
      status line on the wire; the two texts differ, and the constants
      denote their variants. */
  lemma AgreesWithLibrary(a: Status, b: Status)
    ensures Text(a) == HttpStatus.Text(ToLibrary(a))
    ensures Text(a) == Text(b) ==> a == b
    ensures OK.Ok? && NOTFOUND.NotFound?
  {
    if Text(a) == Text(b) {
      assert Text(a)[0] == Text(b)[0];
    }
  }
}

/** Responses of the older HTTP layer (src/http/response.rs): the same
    envelope and frame as the library, built from quoted content or from
    a map whose entries are all quoted.

    `Date::new()` reads the clock; here the timestamp is a parameter. */
module LegacyResponse {
  import opened Strings
  import opened HttpConstants
  import HttpStatus
  import HttpResponse
  import Respond
  import opened Time
  import LegacyStatus
  type Status = LegacyStatus.Status

  datatype Response = Response(content: string, status: Status, time: Date)

  /** `Respond for String`: the text between double quotes, unescaped. */
  function Quote(s: string): (t: string)
    ensures |t| == |s| + 2
    ensures Respond.Unquote(t) == Some(s)
  {
    var t := "\"" + s + "\"";
    assert t[1..|t| - 1] == s;
    t
  }

  /** One map entry: key and value both quoted. */
  function PairText(key: string, value: string): string
  {
    Quote(key) + ":" + Quote(value)
  }

  function PairTexts(entries: seq<(string, string)>): (r: seq<string>)
    ensures |r| == |entries|
    ensures forall i :: 0 <= i < |entries| ==> r[i] == PairText(entries[i].0, entries[i].1)
  {
    seq(|entries|, i requires 0 <= i < |entries| => PairText(entries[i].0, entries[i].1))
  }

  const PAIR_SEPARATOR: string := ", "

  /** `Respond for HashMap<T, U>`, with the map given by its entries in
      iteration order. */
  function MapJson(entries: seq<(string, string)>): string
  {
    "{" + TrimEndMatches(Terminated(PairTexts(entries), PAIR_SEPARATOR), ',') + "}"
  }

  /** Every entry is followed by `, `, which ends in a space, so trimming
      trailing commas removes nothing: a non-empty map ends in `", }` and
      an empty one is `{}`. */
  lemma MapJsonKeepsSeparator(entries: seq<(string, string)>)
    ensures MapJson(entries) == "{" + Terminated(PairTexts(entries), PAIR_SEPARATOR) + "}"
    ensures |entries| == 0 ==> MapJson(entries) == "{}"
    ensures |entries| > 0 ==> EndsWith(MapJson(entries), "\", }")
  {
    var ts := PairTexts(entries);
    if |entries| > 0 {
      TerminatedEndsWithLast(ts, PAIR_SEPARATOR);
      var last := ts[|ts| - 1];
      assert last[|last| - 1] == '"';
      QuoteThenSeparator(Terminated(ts, PAIR_SEPARATOR), last);
    }
  }

  /** A text ending in a quoted piece and `, ` survives the comma trim, and
      closing it with a brace ends it in `", }`. */
  lemma QuoteThenSeparator(body: string, last: string)
    requires |last| > 0 && last[|last| - 1] == '"'
    requires EndsWith(body, last + PAIR_SEPARATOR)
    ensures TrimEndMatches(body, ',') == body
    ensures EndsWith("{" + body + "}", "\", }")
  {
    var n := |body|;
    assert body[n - |last| - 2..] == last + PAIR_SEPARATOR;
    assert body[n - 3] == '"' && body[n - 2] == ',' && body[n - 1] == ' ';
    var t := "{" + body + "}";
    assert t[|t| - 4..] == [body[n - 3], body[n - 2], body[n - 1], '}'];
  }

  /** `string_response`. */
  function StringResponse(content: string, status: Status, at: Date): (r: Response)
    ensures Respond.Unquote(r.content) == Some(content)
    ensures r.status == status && r.time == at
  {
    Response(Quote(content), status, at)
  }

  /** `object_response`. */
  function ObjectResponse(entries: seq<(string, string)>, status: Status, at: Date): (r: Response)
    ensures r.content == "{" + Terminated(PairTexts(entries), PAIR_SEPARATOR) + "}"
    ensures |entries| == 0 ==> r.content == "{}"
    ensures |entries| > 0 ==> StartsWith(r.content, "{\"") && EndsWith(r.content, "\", }")
    ensures r.status == status && r.time == at
  {
    MapJsonKeepsSeparator(entries);
    Response(MapJson(entries), status, at)
  }

  /** `respond`: the content, status and formatted time in a JSON object. */
  function RespondBody(r: Response): (body: string)
    ensures body == HttpResponse.Envelope(r.content, LegacyStatus.ToLibrary(r.status), r.time.formatted)
  {
    LegacyStatus.AgreesWithLibrary(r.status, r.status);
    EnvelopeSpelling(r.content, LegacyStatus.Text(r.status), r.time.formatted);
    "{" + "\"content\":" + r.content + ",\"status\":\"" + LegacyStatus.Text(r.status)
      + "\",\"time\":\"" + r.time.formatted + "\"" + "}"
  }

  /** The literal pieces of `respond` spell the library's envelope. */
  lemma EnvelopeSpelling(content: string, status: string, formatted: string)
    ensures "{" + "\"content\":" + content + ",\"status\":\"" + status + "\",\"time\":\"" + formatted + "\"" + "}"
      == HttpResponse.ENVELOPE_CONTENT + content + HttpResponse.ENVELOPE_STATUS + status
         + HttpResponse.ENVELOPE_TIME + formatted + HttpResponse.ENVELOPE_END
  {
    assert "{" + "\"content\":" == HttpResponse.ENVELOPE_CONTENT;
    assert formatted + "\"" + "}" == formatted + HttpResponse.ENVELOPE_END;
  }

  /** `len`: the body's byte count, 34 bytes over its three fields. */
  function Len(r: Response): (n: nat)
    ensures n == |r.content| + |LegacyStatus.Text(r.status)| + |r.time.formatted| + 34
  {
    HttpResponse.EnvelopeLayout(r.content, LegacyStatus.ToLibrary(r.status), r.time.formatted);
    LegacyStatus.AgreesWithLibrary(r.status, r.status);
    |RespondBody(r)|
  }

  /** `is_empty`: the envelope is never empty. */
  function IsEmpty(r: Response): (b: bool)
    ensures !b
  {
    Len(r) == 0
  }

  /** The status line, the two headers and the body, as `ok` and
      `not_found` format them. */
  function FrameOf(r: Response): string
  {
    HTTP_VERSION + " " + LegacyStatus.Text(r.status) + "\r\n" + CONTENT_LENGTH + ": " + Decimal(Len(r))
      + "\r\n" + CONTENT_TYPE + ": " + CONTENT_JSON + "\r\n\r\n" + RespondBody(r)
  }

  /** The older layer's frame is the library's frame of the same status and
      body. */
  lemma FrameIsLibraryFrame(r: Response)
    ensures FrameOf(r) == HttpResponse.Frame(LegacyStatus.ToLibrary(r.status), RespondBody(r))
  {
    LegacyStatus.AgreesWithLibrary(r.status, r.status);
  }

  /** `ok`: a 200 frame around the quoted contents. */
  function Ok(contents: string, at: Date): (bytes: string)
    ensures HttpResponse.ParseFrame(bytes)
      == Some((HttpStatus.Ok, RespondBody(StringResponse(contents, LegacyStatus.Ok, at))))
  {
    var r := StringResponse(contents, LegacyStatus.Ok, at);
    FrameIsLibraryFrame(r);
    HttpResponse.FrameRoundTrip(HttpStatus.Ok, RespondBody(r));
    FrameOf(r)
  }

  const NOT_FOUND_MESSAGE: string := "That doesn't exist on the menu."

  /** `not_found`: a 404 frame around the quoted fixed message. */
  function NotFound(at: Date): (bytes: string)
    ensures HttpResponse.ParseFrame(bytes)
      == Some((HttpStatus.NotFound, RespondBody(StringResponse(NOT_FOUND_MESSAGE, LegacyStatus.NotFound, at))))
  {
    var r := StringResponse(NOT_FOUND_MESSAGE, LegacyStatus.NotFound, at);
    FrameIsLibraryFrame(r);
    HttpResponse.FrameRoundTrip(HttpStatus.NotFound, RespondBody(r));
    FrameOf(r)
  }

  /** `ok` writes exactly what the library sends for the quoted content,
      while the two layers' not-found messages differ by a full stop. */
  lemma OkMatchesLibrary(contents: string, at: Date)
    ensures Ok(contents, at) == HttpResponse.Send(HttpResponse.Ok(Quote(contents), false, at), false)
    ensures Quote(NOT_FOUND_MESSAGE) != HttpResponse.NOT_FOUND_CONTENT
  {
    var r := StringResponse(contents, LegacyStatus.Ok, at);
    FrameIsLibraryFrame(r);
    assert |Quote(NOT_FOUND_MESSAGE)| != |HttpResponse.NOT_FOUND_CONTENT|;
  }
}

/** Request lines of the older HTTP layer (src/http/request.rs). Its
    `HTTP_VERSION` comes from src/http/constants.rs, which is not part of
    this model, so the version is a parameter; `GET` is the method name
    the library uses. */
module LegacyRequest {
  import opened Strings
  import opened HttpConstants
  import HttpRequest

  /** The struct has the library's two fields, so the library's type is
      reused. */
  type Request = HttpRequest.Request

  /** `Request::new`: the same request the library builds. */
  function New(path: string, httpMethod: string): (r: Request)
    ensures r.path == path && r.httpMethod == httpMethod
    ensures r == HttpRequest.New(path, httpMethod)
  {
    HttpRequest.Request(path, httpMethod)
  }

  /** `Request::get`. */
  function Get(path: string, version: string): string
  {
    GET + " " + path + " " + version
  }

  /** Without spaces in the path or the version, the line splits on spaces
      into exactly the method, the path and the version; with the library's
      version it is the library's `GET` line. */
  lemma GetSplits(path: string, version: string)
    requires ' ' !in path && ' ' !in version
    ensures Split(Get(path, version), ' ') == [GET, path, version]
    ensures version == HTTP_VERSION ==> Get(path, version) == HttpRequest.Get(path)
  {
    assert ' ' !in GET;
    SplitThree(GET, path, version, ' ');
  }
}
