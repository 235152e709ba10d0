/** Properties of the whole exchange: a request written by a client, read
    by the parser, routed, answered and written back. */
module Exchange {
  import opened Wrappers
  import opened Text
  import opened Requests
  import opened Responses
  import opened Handlers
  import opened Router

  /** `process_header_line` reads each "key:value" line that `headers()`
      writes back as the entry it was written from, when keys have no colon
      and keys and values no surrounding whitespace; and `HttpRequest::from`
      takes such a line for that header whenever it does not mention "HTTP". */
  lemma ResponseHeadersReadBack(m: map<string, string>, order: seq<string>)
    requires IsKeyOrder(order, m)
    requires forall k :: k in m ==> ':' !in k && IsTrimmed(k) && IsTrimmed(m[k])
    ensures forall i :: 0 <= i < |order| ==>
      ProcessHeaderLine(EntryLines(m, order)[i]) == (order[i], m[order[i]])
    ensures forall i :: 0 <= i < |order| && !Contains(EntryLines(m, order)[i], "HTTP") ==>
      Classify(EntryLines(m, order)[i]) == HeaderLine(order[i], m[order[i]])
  {
    forall i | 0 <= i < |order|
      ensures ProcessHeaderLine(EntryLines(m, order)[i]) == (order[i], m[order[i]])
      ensures Contains(EntryLines(m, order)[i], ":")
    {
      var k := order[i];
      HeaderLineSplits(k, m[k]);
      TrimOfTrimmed(k);
      TrimOfTrimmed(m[k]);
      assert OccursAt(k + ":" + m[k], ":", |k|);
    }
  }

  /** A well-formed POST request, once parsed, is answered with the 404 page. */
  lemma PostGetsNotFound(p: string, v: string, entries: seq<(string, string)>, body: string,
                         files: map<string, string>, ordersJson: string)
    requires p != [] && NoWhitespace(p) && v != [] && NoWhitespace(v)
    requires Contains(Unwords(["POST", p, v]), "HTTP")
    requires forall i :: 0 <= i < |entries| ==> WellFormedEntry(entries[i]) && '\n' !in HeaderText(entries[i])
    requires WellFormedBody(body) && '\n' !in body
    ensures var req := HttpRequest(Post, VersionFrom(v), Path(p), Entered(map[], entries), body);
            Parse(CrlfTerminated(RequestLines("POST", p, v, entries, body))) == Some(req)
            && Respond(req, files, ordersJson) == Some(PageNotFound(req, files))
  {
    PostIsWord();
    ThreeWords("POST", p, v);
    ParseRequestText("POST", p, v, entries, body);
    RespondNonGet(HttpRequest(Post, VersionFrom(v), Path(p), Entered(map[], entries), body), files, ordersJson);
  }

  /** A well-formed GET of /api/shipping/orders, once parsed, is answered
      with 200 and the orders as JSON, whatever the headers and body. */
  lemma OrdersRequestGetsJson(v: string, entries: seq<(string, string)>, body: string,
                              files: map<string, string>, ordersJson: string)
    requires v != [] && NoWhitespace(v)
    requires Contains(Unwords(["GET", "/api/shipping/orders", v]), "HTTP")
    requires forall i :: 0 <= i < |entries| ==> WellFormedEntry(entries[i]) && '\n' !in HeaderText(entries[i])
    requires WellFormedBody(body) && '\n' !in body
    ensures var req := HttpRequest(Get, VersionFrom(v), Path("/api/shipping/orders"), Entered(map[], entries), body);
            Parse(CrlfTerminated(RequestLines("GET", "/api/shipping/orders", v, entries, body))) == Some(req)
            && Respond(req, files, ordersJson)
               == Some(New("200", Some(map["Content-Type" := "application/json"]), Some(ordersJson)))
  {
    OrdersRequestWords();
    ThreeWords("GET", "/api/shipping/orders", v);
    ParseRequestText("GET", "/api/shipping/orders", v, entries, body);
    var req := HttpRequest(Get, VersionFrom(v), Path("/api/shipping/orders"), Entered(map[], entries), body);
    OrdersPathSegments();
    RouteOrders(req, files, ordersJson);
  }

  /** Word facts about the request lines above, proved apart from the
      parse that uses them. */
  lemma ThreeWords(m: string, p: string, v: string)
    requires m != [] && NoWhitespace(m) && p != [] && NoWhitespace(p) && v != [] && NoWhitespace(v)
    ensures forall w :: w in [m, p, v] ==> w != [] && NoWhitespace(w)
  {
  }

  lemma PostIsWord()
    ensures "POST" != [] && NoWhitespace("POST")
  {
  }

  lemma OrdersRequestWords()
    ensures "GET" != [] && NoWhitespace("GET")
    ensures "/api/shipping/orders" != [] && NoWhitespace("/api/shipping/orders")
  {
  }
}
