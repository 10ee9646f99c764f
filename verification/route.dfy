/** Routes of the `http` library (libs/http/src/route.rs): a request line
    and the five canned responses a handler can answer with, the success
    response first.

    Each of the five response constructors reads the clock through
    `Date::new()`; here the five readings are a parameter. */
module HttpRoute {
  import opened Strings
  import opened HttpConstants
  import HttpStatus
  import HttpRequest
  import HttpResponse
  import opened Time

  type Response = HttpResponse.Response

  datatype Route = Route(request: string, actions: seq<Response>)

  /** The clock readings of the five constructors, in call order. */
  datatype Readings = Readings(ok: Date, notFound: Date, badRequest: Date, unprocessable: Date, serverError: Date)

  /** The request line for a method name; an unknown name falls back to
      `GET`. */
  function RequestFor(httpMethod: string, path: string): string
  {
    if httpMethod == GET then HttpRequest.Get(path)
    else if httpMethod == POST then HttpRequest.Post(path)
    else if httpMethod == PUT then HttpRequest.Put(path)
    else if httpMethod == DELETE then HttpRequest.Delete(path)
    else HttpRequest.Get(path)
  }

  predicate KnownMethod(httpMethod: string)
  {
    httpMethod == GET || httpMethod == POST || httpMethod == PUT || httpMethod == DELETE
  }

  /** `Route::new`. The success response is built with the raw flag off:
      the call at route.rs:43 passes only the content, and `false` is the
      flag every other canned response uses. */
  function New(httpMethod: string, path: string, okResponse: string, at: Readings): (r: Route)
    ensures |r.actions| == 5
    ensures r.actions[0].status == HttpStatus.Ok && r.actions[0].content == okResponse
    ensures r.actions[1].status == HttpStatus.NotFound
    ensures r.actions[2].status == HttpStatus.BadRequest
    ensures r.actions[3].status == HttpStatus.UnprocessableEntity
    ensures r.actions[4].status == HttpStatus.ServerError
    ensures forall i :: 0 <= i < 5 ==> HttpResponse.Framed(r.actions[i], false)
  {
    Route(RequestFor(httpMethod, path), Actions(okResponse, at))
  }

  /** The five canned responses of a route, the success response first. */
  function Actions(okResponse: string, at: Readings): (a: seq<Response>)
    ensures |a| == 5
    ensures a[0].status == HttpStatus.Ok && a[0].content == okResponse
    ensures a[1].status == HttpStatus.NotFound
    ensures a[2].status == HttpStatus.BadRequest
    ensures a[3].status == HttpStatus.UnprocessableEntity
    ensures a[4].status == HttpStatus.ServerError
    ensures forall i :: 0 <= i < 5 ==> HttpResponse.Framed(a[i], false)
  {
    [ HttpResponse.Ok(okResponse, false, at.ok),
      HttpResponse.NotFound(at.notFound),
      HttpResponse.BadRequest(at.badRequest),
      HttpResponse.UnprocessableEntity(at.unprocessable),
      HttpResponse.ServerError(at.serverError) ]
  }

  /** Every action of a built route carries a header whose
      `Content-Length` is the byte count of the enveloped body after it. */
  lemma ActionWellFramed(httpMethod: string, path: string, okResponse: string, at: Readings, i: nat)
    requires i < 5
    ensures var a := New(httpMethod, path, okResponse, at).actions[i];
      HttpResponse.ParseFrame(a.header) == Some((a.status, HttpResponse.RenderBody(a, false)))
  {
    HttpResponse.FramedDeclaresBodyLength(New(httpMethod, path, okResponse, at).actions[i], false);
  }

  /** The request line of a built route names the method it was built for,
      or `GET` for an unknown method name, and the path it was given. */
  lemma NewRequestLine(httpMethod: string, path: string, okResponse: string, at: Readings)
    ensures HttpRequest.ParseRequestLine(New(httpMethod, path, okResponse, at).request)
      == Some((if KnownMethod(httpMethod) then httpMethod else GET, path))
  {
    HttpRequest.MethodsHaveNoSpace();
    HttpRequest.RequestLineRoundTrip(if KnownMethod(httpMethod) then httpMethod else GET, path);
  }

  function Get(path: string, okResponse: string, at: Readings): Route
  {
    New(GET, path, okResponse, at)
  }

  function Post(path: string, okResponse: string, at: Readings): Route
  {
    New(POST, path, okResponse, at)
  }

  function Put(path: string, okResponse: string, at: Readings): Route
  {
    New(PUT, path, okResponse, at)
  }

  function Delete(path: string, okResponse: string, at: Readings): Route
  {
    New(DELETE, path, okResponse, at)
  }

  /** `get_primary_route`; `None` is the `unwrap` panic on a route without
      actions. */
  function GetPrimaryRoute(r: Route): (resp: Option<Response>)
    ensures resp.Some? <==> |r.actions| > 0
    ensures resp.Some? ==> resp.value == r.actions[0]
  {
    if |r.actions| == 0 then None else Some(r.actions[0])
  }

  /** The four wrappers build the request line of their own method, and the
      primary response of any built route is its success response. */
  lemma WrappersUseTheirMethod(path: string, okResponse: string, at: Readings)
    ensures HttpRequest.ParseRequestLine(Get(path, okResponse, at).request) == Some((GET, path))
    ensures HttpRequest.ParseRequestLine(Post(path, okResponse, at).request) == Some((POST, path))
    ensures HttpRequest.ParseRequestLine(Put(path, okResponse, at).request) == Some((PUT, path))
    ensures HttpRequest.ParseRequestLine(Delete(path, okResponse, at).request) == Some((DELETE, path))
  {
    NewRequestLine(GET, path, okResponse, at);
    NewRequestLine(POST, path, okResponse, at);
    NewRequestLine(PUT, path, okResponse, at);
    NewRequestLine(DELETE, path, okResponse, at);
  }

  /** A built route never panics on `get_primary_route`, and the response
      it returns is the success response carrying the route's content. */
  lemma PrimaryRouteIsSuccess(httpMethod: string, path: string, okResponse: string, at: Readings)
    ensures var p := GetPrimaryRoute(New(httpMethod, path, okResponse, at));
      p.Some? && p.value.status == HttpStatus.Ok && p.value.content == okResponse
  {
  }

  /** The four error actions are the fixed constructors, whatever the
      method, the path and the success content. */
  lemma ErrorActionsAreFixed(httpMethod: string, path: string, okResponse: string,
                             otherMethod: string, otherPath: string, otherResponse: string, at: Readings)
    ensures var a := New(httpMethod, path, okResponse, at).actions;
      && a[1] == HttpResponse.NotFound(at.notFound)
      && a[2] == HttpResponse.BadRequest(at.badRequest)
      && a[3] == HttpResponse.UnprocessableEntity(at.unprocessable)
      && a[4] == HttpResponse.ServerError(at.serverError)
      && a[1..] == New(otherMethod, otherPath, otherResponse, at).actions[1..]
  {
  }

  /** An unknown method name builds the same route as `GET`. */
  lemma UnknownMethodFallsBackToGet(httpMethod: string, path: string, okResponse: string, at: Readings)
    requires !KnownMethod(httpMethod)
    ensures New(httpMethod, path, okResponse, at) == Get(path, okResponse, at)
  {
  }
}
