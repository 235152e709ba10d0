/** The server's router: the method and segment 1 of the path pick the
    handler, whose response is what gets written back. */
module Router {
  import opened Wrappers
  import opened Text
  import opened Requests
  import opened Responses
  import opened Handlers

  /** The handler a request is dispatched to. */
  datatype Handler = StaticPageHandler | WebServiceHandler | PageNotFoundHandler

  /** `Router::route`'s choice of handler; `None` is the index panic of a
      GET whose path has no `/`. */
  function Route(req: HttpRequest): (h: Option<Handler>)
    ensures h.None? <==> req.httpMethod == Get && '/' !in req.resource.path
    ensures req.httpMethod != Get ==> h == Some(PageNotFoundHandler)
    ensures h == Some(WebServiceHandler) <==> req.httpMethod == Get && |Segments(req)| >= 2 && Segments(req)[1] == "api"
    ensures h == Some(StaticPageHandler) <==> req.httpMethod == Get && |Segments(req)| >= 2 && Segments(req)[1] != "api"
  {
    match req.httpMethod
    case Get =>
      var route := Segments(req);
      if |route| < 2 then None
      else if route[1] == "api" then Some(WebServiceHandler)
      else Some(StaticPageHandler)
    case Post => Some(PageNotFoundHandler)
    case Uninitialized => Some(PageNotFoundHandler)
  }

  /** The response `Router::route` sends for `req`. */
  function Respond(req: HttpRequest, files: map<string, string>, ordersJson: string): (r: Option<HttpResponse>)
    ensures r.None? <==> Route(req).None?
    ensures r.Some? ==> r.value.statusCode == "200" || r.value.statusCode == "404"
  {
    match Route(req)
    case None => None
    case Some(StaticPageHandler) => StaticPage(req, files)
    case Some(WebServiceHandler) => Some(WebService(req, files, ordersJson))
    case Some(PageNotFoundHandler) => Some(PageNotFound(req, files))
  }

  /** The choice depends on nothing but the method and the path. */
  lemma RouteDependsOnMethodAndPath(req1: HttpRequest, req2: HttpRequest)
    requires req1.httpMethod == req2.httpMethod && req1.resource == req2.resource
    ensures Route(req1) == Route(req2)
  {
  }

  /** POST and unrecognised methods get the 404 page whatever the path. */
  lemma RespondNonGet(req: HttpRequest, files: map<string, string>, ordersJson: string)
    requires req.httpMethod != Get
    ensures Respond(req, files, ordersJson) == Some(PageNotFound(req, files))
  {
  }

  /** The segments of a path written as `/`-joined segments. */
  lemma PathSegments(req: HttpRequest, segments: seq<string>)
    requires |segments| >= 1 && forall i :: 0 <= i < |segments| ==> '/' !in segments[i]
    requires req.resource.path == Join(segments, '/')
    ensures Segments(req) == segments
  {
    SplitJoin(segments, '/');
  }

  /** GET / is a static page (segment 1 is empty): the index page. */
  lemma RouteRoot(req: HttpRequest, files: map<string, string>, ordersJson: string)
    requires req.httpMethod == Get && req.resource.path == "/"
    ensures Route(req) == Some(StaticPageHandler)
    ensures Respond(req, files, ordersJson) == Some(New("200", None, LoadFile(files, "index.html")))
  {
    assert Join(["", ""], '/') == "/";
    PathSegments(req, ["", ""]);
  }

  /** GET /apix is a static page: only a segment equal to "api" selects the
      web service. */
  lemma RouteApix(req: HttpRequest)
    requires req.httpMethod == Get && req.resource.path == "/apix"
    ensures Route(req) == Some(StaticPageHandler)
  {
    assert Join(["", "apix"], '/') == "/apix";
    PathSegments(req, ["", "apix"]);
  }

  /** A GET whose path is /<any>/shipping/orders/... reaches the web service
      only through segment 1 "api", and is answered with the orders as JSON. */
  lemma RespondOrders(req: HttpRequest, files: map<string, string>, ordersJson: string)
    requires req.httpMethod == Get
    requires |Segments(req)| > 3 && Segments(req)[1] == "api"
    requires Segments(req)[2] == "shipping" && Segments(req)[3] == "orders"
    ensures Respond(req, files, ordersJson)
         == Some(New("200", Some(map["Content-Type" := "application/json"]), Some(ordersJson)))
  {
  }

  /** GET /api/shipping/orders (see `OrdersPathSegments`) answers with the
      orders as JSON. */
  lemma RouteOrders(req: HttpRequest, files: map<string, string>, ordersJson: string)
    requires req.httpMethod == Get && Segments(req) == ["", "api", "shipping", "orders"]
    ensures Route(req) == Some(WebServiceHandler)
    ensures Respond(req, files, ordersJson)
         == Some(New("200", Some(map["Content-Type" := "application/json"]), Some(ordersJson)))
  {
    RespondOrders(req, files, ordersJson);
  }

  /** GET /api/shipping (see `ShippingPathSegments`) reaches the web service
      but has only three segments, so it is 404. */
  lemma RouteShortApi(req: HttpRequest, files: map<string, string>, ordersJson: string)
    requires req.httpMethod == Get && Segments(req) == ["", "api", "shipping"]
    ensures Route(req) == Some(WebServiceHandler)
    ensures Respond(req, files, ordersJson) == Some(PageNotFound(req, files))
  {
  }

  lemma OrdersPathSegments()
    ensures Split("/api/shipping/orders", '/') == ["", "api", "shipping", "orders"]
  {
    assert Join(["", "api", "shipping", "orders"], '/') == "/api/shipping/orders";
    SplitJoin(["", "api", "shipping", "orders"], '/');
  }

  lemma ShippingPathSegments()
    ensures Split("/api/shipping", '/') == ["", "api", "shipping"]
  {
    assert Join(["", "api", "shipping"], '/') == "/api/shipping";
    SplitJoin(["", "api", "shipping"], '/');
  }
}
