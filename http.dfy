/** Requests, responses and handlers of the web server, the token filter and the
    exact-path router with its fixed route table. A handler is a total function
    from requests to responses; nothing here has state or effects. */
module Http {
  import opened KotlinStrings
  import opened WebServer

  datatype Status = Ok | Forbidden | NotFound

  /** The numeric code each status carries. */
  function StatusCode(s: Status): (code: int)
    ensures code == 200 <==> s == Ok
    ensures code == 403 <==> s == Forbidden
    ensures code == 404 <==> s == NotFound
  {
    match s
    case Ok => 200
    case Forbidden => 403
    case NotFound => 404
  }

  /** The status codes are distinct, so a code names its status. */
  lemma StatusCodeInjective(s: Status, t: Status)
    ensures StatusCode(s) == StatusCode(t) ==> s == t
  {
  }

  /** A request: the raw URL and an authentication token, empty unless given. */
  datatype Request = Request(url: string, authToken: string := "")

  /** A response: a status and a body, empty unless given. */
  datatype Response = Response(status: Status, body: string := "")

  type Handler = Request -> Response

  /** The fixed pages ignore the request: each answers one status and one body. */
  function HomepageHandler(req: Request): (rp: Response)
    ensures rp.status == Ok && rp.body == "This is Imperial."
  {
    Response(Ok, "This is Imperial.")
  }

  function DoCHandler(req: Request): (rp: Response)
    ensures rp.status == Ok && rp.body == "This is DoC."
  {
    Response(Ok, "This is DoC.")
  }

  /** The fallback of the router: NOT_FOUND with the default empty body. */
  function NotFoundHandler(req: Request): (rp: Response)
    ensures rp.status == NotFound && rp.body == ""
  {
    Response(NotFound)
  }

  function RestrictedPageHandler(req: Request): (rp: Response)
    ensures rp.status == Ok && rp.body == "This is very secret."
  {
    Response(Ok, "This is very secret.")
  }

  /** The second home-page handler, declared beside the URL parser and used by no route;
      it answers exactly as the routed one does. */
  function HomePageHandler(request: Request): (rp: Response)
    ensures rp == HomepageHandler(request)
  {
    Response(Ok, "This is Imperial.")
  }

  /** The greeting for an optional name. */
  function Greeting(name: Option<string>): (g: string)
    ensures g == "Hello, " + (if name.Some? then name.value else "World") + "!"
  {
    match name
    case None => "Hello, World!"
    case Some(n) => "Hello, " + n + "!"
  }

  /** What the hello handler answers, stated on the list of query pairs: the greeting
      uses the value of the last `name` pair, and it is upper-cased when the last
      `style` pair has the value "shouting". The status is always OK. */
  function Hello(req: Request): (rp: Response)
    ensures rp.status == Ok
  {
    var ps := QueryParams(req.url);
    var greeting := Greeting(LastValue(ps, "name"));
    Response(Ok, if LastValue(ps, "style") == Some("shouting") then Uppercase(greeting) else greeting)
  }

  /** The hello handler as the server runs it: start from the default response, turn the
      query pairs into a map (a later pair wins), then set the body from `name` and,
      after that, upper-case the current body when `style` is "shouting". */
  method HelloHandler(req: Request) returns (rp: Response)
    ensures rp.status == Ok
    ensures rp == Hello(req)
  {
    rp := Response(Ok, "Hello, World!");
    var ps := QueryParams(req.url);
    var pm := ToMap(ps);
    ToMapLast(ps, "name");
    ToMapLast(ps, "style");
    if "name" in pm {
      var name := pm["name"];
      rp := rp.(body := "Hello, " + name + "!");
    }
    assert rp == Response(Ok, Greeting(LastValue(ps, "name")));
    if "style" in pm {
      if pm["style"] == "shouting" {
        rp := rp.(body := Uppercase(rp.body));
      }
    }
  }

  /** With no `name` pair and no final `style=shouting`, the body is the default greeting. */
  lemma HelloDefault(req: Request)
    requires forall i :: 0 <= i < |QueryParams(req.url)| ==> QueryParams(req.url)[i].0 != "name"
    requires LastValue(QueryParams(req.url), "style") != Some("shouting")
    ensures Hello(req) == Response(Ok, "Hello, World!")
  {
  }

  /** The body greets the value of the last `name` pair, upper-cased exactly when the
      last `style` pair says "shouting". */
  lemma HelloNamed(req: Request, i: nat, n: string)
    requires var ps := QueryParams(req.url);
      i < |ps| && ps[i] == ("name", n) && forall j :: i < j < |ps| ==> ps[j].0 != "name"
    ensures LastValue(QueryParams(req.url), "style") != Some("shouting") ==>
      Hello(req).body == "Hello, " + n + "!"
    ensures LastValue(QueryParams(req.url), "style") == Some("shouting") ==>
      Hello(req).body == Uppercase("Hello, " + n + "!")
  {
    LastValueAt(QueryParams(req.url), "name", i, n);
    HelloBody(req);
  }

  /** The body of the hello handler's answer, from the last `name` and `style` values
      (the unfolding of `Hello`, kept apart so that its callers stay cheap to verify). */
  lemma HelloBody(req: Request)
    ensures var ps := QueryParams(req.url);
      Hello(req).body == if LastValue(ps, "style") == Some("shouting") then Uppercase(Greeting(LastValue(ps, "name")))
                         else Greeting(LastValue(ps, "name"))
  {
  }

  /** The token filter: a request whose token equals `token` is passed to `wrapped`
      and answered by it unchanged; any other request, the default empty token
      included, is answered FORBIDDEN with an empty body without calling `wrapped`. */
  function RequireToken(token: string, wrapped: Handler): (h: Handler)
    ensures forall req: Request :: req.authToken == token ==> h(req) == wrapped(req)
    ensures forall req: Request :: req.authToken != token ==> h(req) == Response(Forbidden, "")
  {
    (req: Request) => if req.authToken == token then wrapped(req) else Response(Forbidden)
  }

  /** The route table: exact paths to handlers, for exactly four paths. */
  function RouteMap(): (m: map<string, Handler>)
    ensures m.Keys == {"/", "/computing", "/say-hello", "/exam-marks"}
  {
    map[
      "/" := HomepageHandler,
      "/computing" := DoCHandler,
      "/say-hello" := Hello,
      "/exam-marks" := RequireToken("password1", RestrictedPageHandler)
    ]
  }

  /** The router over a table: the handler stored under the request's exact path
      answers it; a path not in the table is answered NOT_FOUND with an empty body. */
  function ConfigureRoutes(m: map<string, Handler>): (app: Handler)
    ensures forall req: Request :: Path(req.url) in m ==> app(req) == m[Path(req.url)](req)
    ensures forall req: Request :: Path(req.url) !in m ==> app(req) == Response(NotFound, "")
  {
    (req: Request) => Dispatch(m, req)
  }

  /** One request through the router: `getOrDefault` on the request's path, with the
      not-found handler as the default. */
  function Dispatch(m: map<string, Handler>, req: Request): (rp: Response)
    ensures Path(req.url) in m ==> rp == m[Path(req.url)](req)
    ensures Path(req.url) !in m ==> rp == Response(NotFound, "")
  {
    var p := Path(req.url);
    if p in m then m[p](req) else NotFoundHandler(req)
  }

  /** Dispatch looks at nothing but the path: two requests with the same path are
      answered by the same table entry, or both NOT_FOUND. */
  lemma DispatchByPath(m: map<string, Handler>, r1: Request, r2: Request)
    requires Path(r1.url) == Path(r2.url)
    ensures Path(r1.url) in m ==>
      ConfigureRoutes(m)(r1) == m[Path(r1.url)](r1) && ConfigureRoutes(m)(r2) == m[Path(r1.url)](r2)
    ensures Path(r1.url) !in m ==>
      ConfigureRoutes(m)(r1) == ConfigureRoutes(m)(r2) == Response(NotFound, "")
  {
  }

  /** What a lookup in `RouteMap` answers for the two fixed pages. The answer `rp` is a
      parameter so that `Route` can name its lookup once; this keeps `Route` cheap to verify. */
  lemma RouteMapPages(p: string, req: Request, rp: Response)
    requires p in RouteMap() ==> rp == RouteMap()[p](req)
    ensures p == "/" ==> rp == Response(Ok, "This is Imperial.")
    ensures p == "/computing" ==> rp == Response(Ok, "This is DoC.")
  {
  }

  /** What a lookup in `RouteMap` answers for the hello page. */
  lemma RouteMapHello(p: string, req: Request, rp: Response)
    requires p in RouteMap() ==> rp == RouteMap()[p](req)
    ensures p == "/say-hello" ==> rp == Hello(req)
  {
  }

  /** What a lookup in `RouteMap` answers for the exam-marks page, by token. */
  lemma RouteMapExam(p: string, req: Request, rp: Response)
    requires p in RouteMap() ==> rp == RouteMap()[p](req)
    ensures p == "/exam-marks" && req.authToken == "password1" ==> rp == Response(Ok, "This is very secret.")
    ensures p == "/exam-marks" && req.authToken != "password1" ==> rp == Response(Forbidden, "")
  {
    assert p == "/exam-marks" ==> rp == RequireToken("password1", RestrictedPageHandler)(req);
  }

  /** The server's entry point: the router over `RouteMap`. */
  function Route(req: Request): (rp: Response)
    ensures Path(req.url) == "/" ==> rp == Response(Ok, "This is Imperial.")
    ensures Path(req.url) == "/computing" ==> rp == Response(Ok, "This is DoC.")
    ensures Path(req.url) == "/say-hello" ==> rp == Hello(req)
    ensures Path(req.url) == "/exam-marks" && req.authToken == "password1" ==>
      rp == Response(Ok, "This is very secret.")
    ensures Path(req.url) == "/exam-marks" && req.authToken != "password1" ==>
      rp == Response(Forbidden, "")
    ensures Path(req.url) !in {"/", "/computing", "/say-hello", "/exam-marks"} ==>
      rp == Response(NotFound, "")
  {
    var p, rp := Path(req.url), ConfigureRoutes(RouteMap())(req);
    RouteMapPages(p, req, rp);
    RouteMapHello(p, req, rp);
    RouteMapExam(p, req, rp);
    ConfigureRoutes(RouteMap())(req)
  }
}
