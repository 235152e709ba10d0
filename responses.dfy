/** The response side of the `http` crate: building an `HttpResponse` and
    writing it out as the text sent on the wire. */
module Responses {
  import opened Wrappers
  import opened Text

  /** An HTTP response; the header map is absent until `new` supplies one. */
  datatype HttpResponse = HttpResponse(
    version: string,
    statusCode: string,
    statusText: string,
    headers: Option<map<string, string>>,
    body: Option<string>)

  /** `HttpResponse::default()`: HTTP/1.1 200 OK, no headers and no body. */
  function Default(): (r: HttpResponse)
    ensures r.version == "HTTP/1.1" && r.statusCode == "200" && r.statusText == StatusText(r.statusCode)
    ensures r.headers.None? && r.body.None?
  {
    HttpResponse("HTTP/1.1", "200", "OK", None, None)
  }

  /** The status text `new` gives a code; unknown codes read as "Not Found". */
  function StatusText(code: string): (text: string)
    ensures text == "OK" <==> code == "200"
    ensures text == "Bad Request" <==> code == "400"
    ensures text == "Internal Server Error" <==> code == "500"
    ensures text == "Not Found" <==> code != "200" && code != "400" && code != "500"
  {
    match code
    case "200" => "OK"
    case "400" => "Bad Request"
    case "404" => "Not Found"
    case "500" => "Internal Server Error"
    case _ => "Not Found"
  }

  /** The headers `new` supplies when the caller gives none. */
  const DefaultHeaders: map<string, string> := map["Content-Type" := "text/html"]

  /** `HttpResponse::new`: a default response with the code and body set,
      the given headers (or a Content-Type of text/html) and the status text
      looked up from the code. */
  function New(code: string, headers: Option<map<string, string>>, body: Option<string>): (r: HttpResponse)
    ensures r.version == "HTTP/1.1" && r.statusCode == code && r.body == body
    ensures r.statusText == StatusText(code)
    ensures headers.Some? ==> r.headers == headers
    ensures headers.None? ==> r.headers == Some(map["Content-Type" := "text/html"])
  {
    var response := Default();
    var response := response.(statusCode := code);
    var response := response.(body := body);
    var response := response.(headers := match headers
      case Some(_) => headers
      case None => Some(DefaultHeaders));
    response.(statusText := StatusText(response.statusCode))
  }

  /** `body()`: the stored body, or the empty string when there is none. */
  function Body(r: HttpResponse): (b: string)
    ensures r.body.None? ==> b == ""
    ensures r.body.Some? ==> b == r.body.value
  {
    match r.body
    case Some(v) => v
    case None => ""
  }

  // ---------------------------------------------------------------------
  // The header block

  /** An order in which a hash map may hand out its keys: each key exactly once. */
  ghost predicate IsKeyOrder(order: seq<string>, m: map<string, string>) {
    (forall i, j :: 0 <= i < j < |order| ==> order[i] != order[j])
    && (forall k :: k in m <==> k in order)
  }

  /** One header as `headers()` writes it: key, colon, value, with no space. */
  function EntryLines(m: map<string, string>, order: seq<string>): (lines: seq<string>)
    requires forall k :: k in order ==> k in m
    ensures |lines| == |order|
    ensures forall i :: 0 <= i < |order| ==> lines[i] == order[i] + ":" + m[order[i]]
  {
    seq(|order|, i requires 0 <= i < |order| => order[i] + ":" + m[order[i]])
  }

  /** `headers()` for one iteration order of the map. */
  function HeaderBlock(m: map<string, string>, order: seq<string>): string
    requires forall k :: k in order ==> k in m
  {
    CrlfTerminated(EntryLines(m, order))
  }

  /** The text `headers()` writes, read line by line, is the header lines
      in iteration order, when no key or value holds a line feed. */
  lemma HeaderBlockLines(m: map<string, string>, order: seq<string>)
    requires IsKeyOrder(order, m)
    requires forall k :: k in m ==> '\n' !in k && '\n' !in m[k]
    ensures Lines(HeaderBlock(m, order)) == EntryLines(m, order)
  {
    var lines := EntryLines(m, order);
    forall i | 0 <= i < |lines| ensures '\n' !in lines[i] {
      assert lines[i] == order[i] + ":" + m[order[i]];
    }
    LinesOfCrlfTerminated(lines);
  }

  /** `headers()`: the map is unwrapped (absent headers panic) and each
      entry is appended in whatever order the map hands them out. */
  method Headers(r: HttpResponse) returns (block: Option<string>, ghost order: seq<string>)
    ensures r.headers.None? ==> block.None?
    ensures r.headers.Some? ==> IsKeyOrder(order, r.headers.value) && block == Some(HeaderBlock(r.headers.value, order))
  {
    if r.headers.None? {
      return None, [];
    }
    var m := r.headers.value;
    var remaining := m.Keys;
    var headerString := "";
    order := [];
    while remaining != {}
      invariant forall k :: k in order ==> k in m
      invariant forall k :: k in m <==> k in order || k in remaining
      invariant forall k :: k in order ==> k !in remaining
      invariant forall i, j :: 0 <= i < j < |order| ==> order[i] != order[j]
      invariant headerString == HeaderBlock(m, order)
      decreases |remaining|
    {
      var k :| k in remaining;
      CrlfTerminatedSnoc(EntryLines(m, order), k + ":" + m[k]);
      assert EntryLines(m, order + [k]) == EntryLines(m, order) + [k + ":" + m[k]];
      headerString := headerString + (k + ":" + m[k]) + "\r\n";
      order := order + [k];
      remaining := remaining - {k};
    }
    block := Some(headerString);
  }

  // ---------------------------------------------------------------------
  // From<HttpResponse> for String

  function StatusLine(r: HttpResponse): string {
    r.version + " " + r.statusCode + " " + r.statusText
  }

  function ContentLengthLine(r: HttpResponse): string {
    "Content-Length: " + Decimal(Utf8Length(Body(r)))
  }

  /** The text sent for `r` when its headers come out in `order`: status
      line, header block, Content-Length (the body's length in bytes), an
      empty line, the body. Absent headers make `headers()` panic. */
  function ToWire(r: HttpResponse, order: seq<string>): (w: Option<string>)
    requires r.headers.Some? ==> IsKeyOrder(order, r.headers.value)
    ensures w.Some? <==> r.headers.Some?
  {
    match r.headers
    case None => None
    case Some(m) =>
      Some(StatusLine(r) + "\r\n" + HeaderBlock(m, order) + ContentLengthLine(r) + "\r\n\r\n" + Body(r))
  }

  // ---------------------------------------------------------------------
  // What the written response says

  /** A key order names each key once, so it is as long as the map. */
  lemma KeyOrderLength(order: seq<string>, m: map<string, string>)
    requires IsKeyOrder(order, m)
    ensures |order| == |m|
  {
    assert m.Keys == set k | k in order;
    DistinctCard(order);
  }

  /** A sequence without repetitions has as many distinct elements as entries. */
  lemma {:induction false} DistinctCard(order: seq<string>)
    requires forall i, j :: 0 <= i < j < |order| ==> order[i] != order[j]
    ensures |set k | k in order| == |order|
    decreases |order|
  {
    if order != [] {
      var n := |order|;
      var init, last := order[..n - 1], order[n - 1];
      assert (set k | k in order) == (set k | k in init) + {last} by {
        assert order == init + [last];
      }
      assert last !in (set k | k in init) by {
        forall i | 0 <= i < n - 1 ensures init[i] != last {
          assert init[i] == order[i];
        }
      }
      assert forall i, j :: 0 <= i < j < |init| ==> init[i] != init[j] by {
        assert forall i :: 0 <= i < |init| ==> init[i] == order[i];
      }
      DistinctCard(init);
    }
  }

  /** A map with one key can hand it out in one order only. */
  lemma SingletonKeyOrder(order: seq<string>, k: string, v: string)
    requires IsKeyOrder(order, map[k := v])
    ensures order == [k]
  {
    KeyOrderLength(order, map[k := v]);
    assert order[0] in map[k := v];
  }

  /** The default response has no headers, so serialising it panics. */
  lemma DefaultDoesNotSerialise(order: seq<string>)
    ensures ToWire(Default(), order) == None
  {
  }

  /** A response made by `new` always has headers and always serialises. */
  lemma NewSerialises(code: string, headers: Option<map<string, string>>, body: Option<string>, order: seq<string>)
    requires IsKeyOrder(order, New(code, headers, body).headers.value)
    ensures ToWire(New(code, headers, body), order).Some?
  {
  }

  /** The head of the written response, line by line. */
  function HeadLines(r: HttpResponse, order: seq<string>): seq<string>
    requires r.headers.Some? && IsKeyOrder(order, r.headers.value)
  {
    [StatusLine(r)] + EntryLines(r.headers.value, order) + [ContentLengthLine(r), ""]
  }

  lemma HeadText(r: HttpResponse, order: seq<string>)
    requires r.headers.Some? && IsKeyOrder(order, r.headers.value)
    ensures ToWire(r, order) == Some(CrlfTerminated(HeadLines(r, order)) + Body(r))
  {
    var entries := EntryLines(r.headers.value, order);
    var tail := [ContentLengthLine(r), ""];
    assert CrlfTerminated(HeadLines(r, order))
        == CrlfTerminated([StatusLine(r)]) + CrlfTerminated(entries) + CrlfTerminated(tail) by {
      CrlfTerminatedAppend([StatusLine(r)] + entries, tail);
      CrlfTerminatedAppend([StatusLine(r)], entries);
    }
    assert CrlfTerminated([StatusLine(r)]) == StatusLine(r) + "\r\n" by {
      assert [StatusLine(r)][1..] == [];
    }
    assert CrlfTerminated(tail) == ContentLengthLine(r) + "\r\n" + ("" + "\r\n") by {
      assert tail[1..] == [""] && [""][1..] == [];
    }
    WireRegroups(StatusLine(r), CrlfTerminated(entries), ContentLengthLine(r), Body(r));
  }

  /** The association of the written parts, stated over variables so that
      the parts are not unfolded. */
  lemma WireRegroups(s: string, h: string, c: string, b: string)
    ensures s + "\r\n" + h + c + "\r\n\r\n" + b == (s + "\r\n") + h + (c + "\r\n" + ("" + "\r\n")) + b
  {
    assert "\r\n\r\n" == "\r\n" + ("" + "\r\n");
  }

  /** No line break inside the status line or any header. */
  ghost predicate SingleLineFields(r: HttpResponse) {
    '\n' !in r.version && '\n' !in r.statusCode && '\n' !in r.statusText
    && (r.headers.Some? ==> forall k :: k in r.headers.value ==> '\n' !in k && '\n' !in r.headers.value[k])
  }

  /** A reader of the written response finds the status line, one
      "key:value" line per header, a Content-Length that reads back as the
      body's length in bytes, the empty line, and then exactly the body. */
  lemma ReadWire(r: HttpResponse, order: seq<string>)
    requires r.headers.Some? && IsKeyOrder(order, r.headers.value)
    requires SingleLineFields(r)
    ensures exists head :: ToWire(r, order) == Some(head + Body(r))
                        && Lines(head) == [StatusLine(r)] + EntryLines(r.headers.value, order) + [ContentLengthLine(r), ""]
    ensures exists d :: ContentLengthLine(r) == "Content-Length: " + d
                     && (forall i :: 0 <= i < |d| ==> IsDigit(d[i])) && DecimalValue(d) == Utf8Length(Body(r))
  {
    HeadText(r, order);
    var lines := HeadLines(r, order);
    forall i | 0 <= i < |lines| ensures '\n' !in lines[i] {
      if i == 0 {
        assert lines[0] == r.version + " " + r.statusCode + " " + r.statusText;
      } else if i <= |order| {
        assert lines[i] == order[i - 1] + ":" + r.headers.value[order[i - 1]];
      } else if i == |order| + 1 {
        var d := Decimal(Utf8Length(Body(r)));
        assert lines[i] == "Content-Length: " + d;
        assert forall j :: 0 <= j < |d| ==> d[j] != '\n';
      }
    }
    LinesOfCrlfTerminated(lines);
    DecimalRoundTrip(Utf8Length(Body(r)));
  }

  // ---------------------------------------------------------------------
  // The repository's response test

  lemma NewOkResponse()
    ensures New("200", None, Some("xxxx"))
         == HttpResponse("HTTP/1.1", "200", "OK", Some(map["Content-Type" := "text/html"]), Some("xxxx"))
  {
  }

  lemma OkEntryLines(order: seq<string>)
    requires IsKeyOrder(order, map["Content-Type" := "text/html"])
    ensures EntryLines(map["Content-Type" := "text/html"], order) == ["Content-Type:text/html"]
  {
    SingletonKeyOrder(order, "Content-Type", "text/html");
    assert "Content-Type" + ":" + "text/html" == "Content-Type:text/html";
  }

  lemma OkStatusLine()
    ensures StatusLine(New("200", None, Some("xxxx"))) == "HTTP/1.1 200 OK"
  {
    assert "HTTP/1.1" + " " + "200" + " " + "OK" == "HTTP/1.1 200 OK";
  }

  lemma OkContentLength()
    ensures ContentLengthLine(New("200", None, Some("xxxx"))) == "Content-Length: 4"
  {
    assert IsAscii("xxxx");
    assert Utf8Length("xxxx") == 4;
    assert Decimal(4) == "4";
  }

  /** The test's second assertion: the built response and the expected one
      are written alike, and both are the status line `HTTP/1.1 200 OK`, the
      one header, `Content-Length: 4` and the empty line, then `xxxx`,
      whatever order the one-entry map is iterated in. */
  lemma OkResponseWire(order: seq<string>)
    requires IsKeyOrder(order, map["Content-Type" := "text/html"])
    ensures ToWire(New("200", None, Some("xxxx")), order)
         == ToWire(HttpResponse("HTTP/1.1", "200", "OK", Some(map["Content-Type" := "text/html"]), Some("xxxx")), order)
    ensures ToWire(New("200", None, Some("xxxx")), order)
         == Some(CrlfTerminated(["HTTP/1.1 200 OK", "Content-Type:text/html", "Content-Length: 4", ""]) + "xxxx")
  {
    var r := New("200", None, Some("xxxx"));
    NewOkResponse();
    HeadText(r, order);
    OkEntryLines(order);
    OkStatusLine();
    OkContentLength();
    assert HeadLines(r, order) == ["HTTP/1.1 200 OK", "Content-Type:text/html", "Content-Length: 4", ""];
  }
}
