/** Request lines of the `http` library (libs/http/src/request.rs): a
    method, a path and the protocol version, separated by single spaces. */
module HttpRequest {
  import opened Strings
  import opened HttpConstants

  datatype Request = Request(path: string, httpMethod: string)

  /** `Request::new`. */
  function New(path: string, httpMethod: string): (r: Request)
    ensures r.path == path && r.httpMethod == httpMethod
  {
    Request(path, httpMethod)
  }

  const VERSION_SUFFIX: string := " " + HTTP_VERSION

  /** `{METHOD} {path} {HTTP_VERSION}`. */
  function RequestLine(httpMethod: string, path: string): string
  {
    httpMethod + " " + path + VERSION_SUFFIX
  }

  /** `Request::get`: a line that reads back as `GET` and the path. */
  function Get(path: string): (line: string)
    ensures ParseRequestLine(line) == Some((GET, path))
  {
    MethodsHaveNoSpace();
    RequestLineRoundTrip(GET, path);
    RequestLine(GET, path)
  }

  /** `Request::post`: a line that reads back as `POST` and the path. */
  function Post(path: string): (line: string)
    ensures ParseRequestLine(line) == Some((POST, path))
  {
    MethodsHaveNoSpace();
    RequestLineRoundTrip(POST, path);
    RequestLine(POST, path)
  }

  /** `Request::put`: a line that reads back as `PUT` and the path. */
  function Put(path: string): (line: string)
    ensures ParseRequestLine(line) == Some((PUT, path))
  {
    MethodsHaveNoSpace();
    RequestLineRoundTrip(PUT, path);
    RequestLine(PUT, path)
  }

  /** `Request::delete`: a line that reads back as `DELETE` and the path. */
  function Delete(path: string): (line: string)
    ensures ParseRequestLine(line) == Some((DELETE, path))
  {
    MethodsHaveNoSpace();
    RequestLineRoundTrip(DELETE, path);
    RequestLine(DELETE, path)
  }

  /** Reads a request line back: the method runs up to the first space,
      the path up to the final ` HTTP/1.1`. */
  function ParseRequestLine(line: string): Option<(string, string)>
  {
    if ' ' !in line then None
    else
      var i := IndexOf(line, ' ');
      var rest := line[i + 1..];
      if !EndsWith(rest, VERSION_SUFFIX) then None
      else Some((line[..i], rest[..|rest| - |VERSION_SUFFIX|]))
  }

  /** A request line gives back its method and its path, whatever the path
      holds, as long as the method has no space in it. */
  lemma RequestLineRoundTrip(httpMethod: string, path: string)
    requires ' ' !in httpMethod
    ensures ParseRequestLine(RequestLine(httpMethod, path)) == Some((httpMethod, path))
  {
    var line := RequestLine(httpMethod, path);
    var tail := path + VERSION_SUFFIX;
    assert line == httpMethod + [' '] + tail;
    IndexOfAfterFree(httpMethod, ' ', tail);
    assert line[|httpMethod| + 1..] == tail;
    assert line[..|httpMethod|] == httpMethod;
    assert tail[|tail| - |VERSION_SUFFIX|..] == VERSION_SUFFIX;
    assert tail[..|tail| - |VERSION_SUFFIX|] == path;
  }

  /** Every request line mentions its method, its path and the protocol. */
  lemma RequestLineMentions(httpMethod: string, path: string)
    ensures var line := RequestLine(httpMethod, path);
      Contains(line, httpMethod) && Contains(line, path) && Contains(line, "HTTP/")
  {
    var line := RequestLine(httpMethod, path);
    var m, p := |httpMethod|, |path|;
    assert line == httpMethod + " " + path + " " + HTTP_VERSION;
    assert OccursAt(httpMethod, line, 0);
    assert line[m + 1..m + 1 + p] == path;
    assert OccursAt(path, line, m + 1);
    assert line[m + p + 2..m + p + 7] == "HTTP/";
    assert OccursAt("HTTP/", line, m + p + 2);
  }

  lemma MethodsHaveNoSpace()
    ensures ' ' !in GET && ' ' !in POST && ' ' !in PUT && ' ' !in DELETE
  {
  }

  /** The four builders are one-to-one and never agree: a request line
      names exactly one method and one path. */
  lemma BuildersDistinct(p: string, q: string)
    ensures Get(p) == Get(q) ==> p == q
    ensures Post(p) == Post(q) ==> p == q
    ensures Put(p) == Put(q) ==> p == q
    ensures Delete(p) == Delete(q) ==> p == q
    ensures Get(p) != Post(q) && Get(p) != Put(q) && Get(p) != Delete(q)
    ensures Post(p) != Put(q) && Post(p) != Delete(q) && Put(p) != Delete(q)
  {
    MethodsHaveNoSpace();
    RequestLineRoundTrip(GET, p);
    RequestLineRoundTrip(GET, q);
    RequestLineRoundTrip(POST, p);
    RequestLineRoundTrip(POST, q);
    RequestLineRoundTrip(PUT, p);
    RequestLineRoundTrip(PUT, q);
    RequestLineRoundTrip(DELETE, q);
    RequestLineRoundTrip(DELETE, p);
  }

  /** Without spaces in the path, the line splits on spaces into exactly
      method, path and version. */
  lemma RequestLineSplits(httpMethod: string, path: string)
    requires ' ' !in httpMethod && ' ' !in path
    ensures Split(RequestLine(httpMethod, path), ' ') == [httpMethod, path, HTTP_VERSION]
  {
    assert RequestLine(httpMethod, path) == httpMethod + [' '] + path + [' '] + HTTP_VERSION;
    assert ' ' !in HTTP_VERSION;
    SplitThree(httpMethod, path, HTTP_VERSION, ' ');
  }
}
