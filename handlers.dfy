/** The three request handlers of the server: a 404 page, static files
    from the public directory, and the orders web service. File contents
    and the orders document are inputs of the model. */
module Handlers {
  import opened Wrappers
  import opened Text
  import opened Requests
  import opened Responses

  /** `load_file`: the content of the named file of the public directory,
      or nothing when it cannot be read. `files` maps file names to contents. */
  function LoadFile(files: map<string, string>, name: string): (content: Option<string>)
    ensures content.Some? <==> name in files
    ensures content.Some? ==> content.value == files[name]
  {
    if name in files then Some(files[name]) else None
  }

  /** The `/`-separated segments of the request's path. */
  function Segments(req: HttpRequest): (route: seq<string>)
    ensures |route| >= 1
  {
    Split(req.resource.path, '/')
  }

  /** The segments are the `/`-free pieces that, joined by `/`, give the
      path back: one more than the path has `/`s. */
  lemma SegmentsOfPath(req: HttpRequest)
    ensures |Segments(req)| == multiset(req.resource.path)['/'] + 1
    ensures forall i :: 0 <= i < |Segments(req)| ==> '/' !in Segments(req)[i]
    ensures Join(Segments(req), '/') == req.resource.path
  {
    SplitCount(req.resource.path, '/');
    JoinSplit(req.resource.path, '/');
  }

  /** `PageNotFoundHandler::handler`: 404 with the default headers and the
      404 page, whatever the request. The other handlers answer with the
      same `new("404", None, load_file("404.html"))`. */
  function PageNotFound(req: HttpRequest, files: map<string, string>): (r: HttpResponse)
    ensures r.statusCode == "404" && r.statusText == "Not Found"
    ensures r.headers == Some(DefaultHeaders)
    ensures Body(r) == (if "404.html" in files then files["404.html"] else "")
  {
    New("404", None, LoadFile(files, "404.html"))
  }

  /** The Content-Type of a static file, from its name. */
  function ContentType(name: string): (t: string)
    ensures t == "text/css" <==> EndsWith(name, ".css")
    ensures t == "text/javascript" <==> !EndsWith(name, ".css") && EndsWith(name, ".js")
    ensures t == "text/html" <==> !EndsWith(name, ".css") && !EndsWith(name, ".js")
  {
    if EndsWith(name, ".css") then "text/css"
    else if EndsWith(name, ".js") then "text/javascript"
    else "text/html"
  }

  /** `StaticPageHandler::handler`: segment 1 names the page; `None` is the
      index panic on a path without `/`. */
  function StaticPage(req: HttpRequest, files: map<string, string>): (r: Option<HttpResponse>)
    ensures r.None? <==> '/' !in req.resource.path
    ensures r.Some? ==> r.value.statusCode == "200" || r.value.statusCode == "404"
  {
    var route := Segments(req);
    if |route| < 2 then None
    else match route[1]
      case "" => Some(New("200", None, LoadFile(files, "index.html")))
      case "health" => Some(New("200", None, LoadFile(files, "health.html")))
      case other =>
        match LoadFile(files, other)
        case Some(content) => Some(New("200", Some(map["Content-Type" := ContentType(other)]), Some(content)))
        case None => Some(PageNotFound(req, files))
  }

  /** `WebServiceHandler::handler`: `/<any>/shipping/orders/...` answers with
      the orders document as JSON, every other path with the 404 page. */
  function WebService(req: HttpRequest, files: map<string, string>, ordersJson: string): (r: HttpResponse)
    ensures r.statusCode == "200" || r.statusCode == "404"
  {
    var route := Segments(req);
    if |route| <= 3 then PageNotFound(req, files)
    else if route[2] == "shipping" && route[3] == "orders" then
      New("200", Some(map["Content-Type" := "application/json"]), Some(ordersJson))
    else PageNotFound(req, files)
  }

  // ---------------------------------------------------------------------
  // What the static page handler answers

  /** The site root and the health page are 200 with the default headers,
      even when their file is absent (the body is then empty). */
  lemma StaticRootAndHealth(req: HttpRequest, files: map<string, string>)
    requires |Segments(req)| >= 2
    requires Segments(req)[1] == "" || Segments(req)[1] == "health"
    ensures var name := if Segments(req)[1] == "" then "index.html" else "health.html";
            StaticPage(req, files) == Some(New("200", None, LoadFile(files, name)))
            && StaticPage(req, files).value.headers == Some(DefaultHeaders)
            && Body(StaticPage(req, files).value) == (if name in files then files[name] else "")
  {
  }

  /** Any other segment 1 that names an existing file is 200 with that file
      as body and a Content-Type chosen by its suffix. */
  lemma StaticFile(req: HttpRequest, files: map<string, string>)
    requires |Segments(req)| >= 2
    requires Segments(req)[1] != "" && Segments(req)[1] != "health" && Segments(req)[1] in files
    ensures StaticPage(req, files).Some?
    ensures var r := StaticPage(req, files).value;
            r.statusCode == "200" && r.statusText == "OK"
            && r.headers == Some(map["Content-Type" := ContentType(Segments(req)[1])])
            && Body(r) == files[Segments(req)[1]]
  {
  }

  /** A missing file gets exactly the response of the 404 handler. */
  lemma StaticMissingIsNotFound(req: HttpRequest, files: map<string, string>)
    requires |Segments(req)| >= 2
    requires Segments(req)[1] != "" && Segments(req)[1] != "health" && Segments(req)[1] !in files
    ensures StaticPage(req, files) == Some(PageNotFound(req, files))
  {
  }

  /** Only segment 1 matters: requests that agree on it get the same answer,
      whatever the rest of the path, method, headers or body. */
  lemma StaticUsesSegmentOne(req1: HttpRequest, req2: HttpRequest, files: map<string, string>)
    requires |Segments(req1)| >= 2 && |Segments(req2)| >= 2
    requires Segments(req1)[1] == Segments(req2)[1]
    ensures StaticPage(req1, files) == StaticPage(req2, files)
  {
  }

  // ---------------------------------------------------------------------
  // What the web service answers

  /** A path with at most two `/`, so at most three segments, is 404. */
  lemma WebServiceShortPath(req: HttpRequest, files: map<string, string>, ordersJson: string)
    requires multiset(req.resource.path)['/'] <= 2
    ensures WebService(req, files, ordersJson) == PageNotFound(req, files)
  {
    SplitCount(req.resource.path, '/');
  }

  /** Segments 2 and 3 equal to "shipping" and "orders" give 200 with the
      orders as JSON; segment 1 and any later segments are not looked at. */
  lemma WebServiceOrders(req: HttpRequest, files: map<string, string>, ordersJson: string)
    requires |Segments(req)| > 3
    requires Segments(req)[2] == "shipping" && Segments(req)[3] == "orders"
    ensures var r := WebService(req, files, ordersJson);
            r.statusCode == "200" && r.statusText == "OK"
            && r.headers == Some(map["Content-Type" := "application/json"])
            && Body(r) == ordersJson
  {
  }

  /** Every other path of four or more segments is 404. */
  lemma WebServiceOtherPath(req: HttpRequest, files: map<string, string>, ordersJson: string)
    requires |Segments(req)| > 3
    requires !(Segments(req)[2] == "shipping" && Segments(req)[3] == "orders")
    ensures WebService(req, files, ordersJson) == PageNotFound(req, files)
  {
  }
}
