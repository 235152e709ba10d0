/** The request parser: raw request text to a structured request. Each line
    is classified on its own — a line containing "HTTP" is the request line,
    otherwise a line containing ':' is a header, anything else is the body —
    and a later line of a kind overwrites what an earlier one set. */
module Requests {
  import opened Wrappers
  import opened Text

  datatype Method = Get | Post | Uninitialized

  datatype Version = V1_1 | V2_0 | Uninitialized

  datatype Resource = Path(path: string)

  datatype HttpRequest = HttpRequest(
    httpMethod: Method,
    version: Version,
    resource: Resource,
    headers: map<string, string>,
    body: string)

  /** `Method::from`: never fails; unknown tokens give `Uninitialized`. */
  function MethodFrom(s: string): (m: Method)
    ensures m == Get <==> s == "GET"
    ensures m == Post <==> s == "POST"
    ensures m == Method.Uninitialized <==> s != "GET" && s != "POST"
  {
    if s == "GET" then Get
    else if s == "POST" then Post
    else Method.Uninitialized
  }

  /** `Version::from`: only "HTTP/1.1" is recognised; `V2_0` is never produced. */
  function VersionFrom(s: string): (v: Version)
    ensures v == V1_1 <==> s == "HTTP/1.1"
    ensures v != V2_0
  {
    if s == "HTTP/1.1" then V1_1 else Version.Uninitialized
  }

  /** `process_req_line`: the first three words are method, path and version;
      fewer than three words is the `unwrap` panic, here `None`. */
  function ProcessReqLine(s: string): (r: Option<(Method, Resource, Version)>)
    ensures r.None? <==> |SplitWhitespace(s)| < 3
    ensures r.Some? ==> r.value.1.path != [] && NoWhitespace(r.value.1.path)
  {
    var words := SplitWhitespace(s);
    if |words| < 3 then None
    else Some((MethodFrom(words[0]), Path(words[1]), VersionFrom(words[2])))
  }

  /** `process_header_line`: split at the first ':' and trim both sides. */
  function ProcessHeaderLine(s: string): (r: (string, string))
    ensures IsTrimmed(r.0) && IsTrimmed(r.1)
    ensures ':' in s ==> ':' !in r.0
    ensures ':' !in s ==> r == ("", "")
  {
    match SplitOnce(s, ':')
    case Some((k, v)) =>
      TrimKeeps(k, ':');
      (Trim(k), Trim(v))
    case None => ("", "")
  }

  /** The request line takes its three fields from exactly the first three
      words; words after the third are ignored. */
  lemma ReqLineOfWords(m: string, p: string, v: string, extra: seq<string>)
    requires forall w :: w in [m, p, v] + extra ==> w != [] && NoWhitespace(w)
    ensures ProcessReqLine(Unwords([m, p, v] + extra))
         == Some((MethodFrom(m), Path(p), VersionFrom(v)))
  {
    var words := [m, p, v] + extra;
    assert forall i :: 0 <= i < |words| ==> words[i] in words;
    SplitWhitespaceUnwords(words);
  }

  /** However the words are spaced — several spaces, tabs, whitespace at
      either end — the request line takes its fields from the first three. */
  lemma ReqLineOfSpacedWords(seps: seq<string>, words: seq<string>)
    requires WellSpaced(seps, words) && |words| >= 3
    ensures ProcessReqLine(Spaced(seps, words))
         == Some((MethodFrom(words[0]), Path(words[1]), VersionFrom(words[2])))
  {
    SplitWhitespaceSpaced(seps, words);
  }

  lemma SpacedThree(a: string, b: string, c: string, d: string, x: string, y: string, z: string)
    ensures Spaced([a, b, c, d], [x, y, z]) == a + x + (b + y + (c + z + d))
  {
    assert [a, b, c, d][1..] == [b, c, d] && [b, c, d][1..] == [c, d] && [c, d][1..] == [d];
    assert [x, y, z][1..] == [y, z] && [y, z][1..] == [z] && [z][1..] == [];
    assert Spaced([d], []) == d;
    assert Spaced([c, d], [z]) == c + z + d;
    assert Spaced([b, c, d], [y, z]) == b + y + (c + z + d);
  }

  lemma TabbedSeparators()
    ensures WellSpaced(["", "  ", "\t", ""], ["GET", "/sd", "HTTP/1.1"])
  {
    var seps, words := ["", "  ", "\t", ""], ["GET", "/sd", "HTTP/1.1"];
    assert AllWhitespace(seps[1]) && AllWhitespace(seps[2]);
    assert NoWhitespace(words[0]) && NoWhitespace(words[1]) && NoWhitespace(words[2]);
  }

  lemma TabbedText()
    ensures Spaced(["", "  ", "\t", ""], ["GET", "/sd", "HTTP/1.1"]) == "GET  /sd\tHTTP/1.1"
  {
    SpacedThree("", "  ", "\t", "", "GET", "/sd", "HTTP/1.1");
    assert "" + "GET" + ("  " + "/sd" + ("\t" + "HTTP/1.1" + "")) == "GET  /sd\tHTTP/1.1";
  }

  /** Two spaces and a tab between the words read like single spaces. */
  lemma ReqLineOfTabbedText()
    ensures ProcessReqLine("GET  /sd\tHTTP/1.1") == Some((Get, Path("/sd"), V1_1))
  {
    TabbedSeparators();
    TabbedText();
    ReqLineOfSpacedWords(["", "  ", "\t", ""], ["GET", "/sd", "HTTP/1.1"]);
  }

  /** A header line splits at its first ':' and both sides are trimmed. */
  lemma HeaderLineSplits(a: string, b: string)
    requires ':' !in a
    ensures ProcessHeaderLine(a + ":" + b) == (Trim(a), Trim(b))
  {
    SplitOnceIff(a + ":" + b, ':', a, b);
  }

  /** The common form "Key: Value" gives back key and value. */
  lemma HeaderLineOfEntry(k: string, v: string)
    requires ':' !in k && IsTrimmed(k) && IsTrimmed(v)
    ensures ProcessHeaderLine(k + ": " + v) == (k, v)
  {
    assert k + ": " + v == k + ":" + (" " + v);
    HeaderLineSplits(k, " " + v);
    TrimOfTrimmed(k);
    TrimPadded(" ", v, []);
    assert " " + v + [] == " " + v;
  }

  // ---------------------------------------------------------------------
  // HttpRequest::from

  /** What one line of the request is taken for. */
  datatype LineKind =
    | RequestLine(m: Method, r: Resource, v: Version)
    | MalformedRequestLine
    | HeaderLine(key: string, value: string)
    | BodyLine(text: string)

  /** The three-way test of the parsing loop: "HTTP" first, then ':',
      then anything else. */
  function Classify(line: string): LineKind {
    if Contains(line, "HTTP") then
      match ProcessReqLine(line)
      case None => MalformedRequestLine
      case Some((m, r, v)) => RequestLine(m, r, v)
    else if Contains(line, ":") then
      var (k, v) := ProcessHeaderLine(line);
      HeaderLine(k, v)
    else
      BodyLine(line)
  }

  /** What each kind of line is: the request line is any line mentioning
      "HTTP" (malformed when it has fewer than three words), a header is a
      line with a ':' but no "HTTP", and everything else is body text. */
  lemma ClassifyKinds(line: string)
    ensures Classify(line).RequestLine? || Classify(line).MalformedRequestLine? <==> Contains(line, "HTTP")
    ensures Classify(line).MalformedRequestLine? <==> Contains(line, "HTTP") && |SplitWhitespace(line)| < 3
    ensures Classify(line).HeaderLine? <==> !Contains(line, "HTTP") && ':' in line
    ensures Classify(line).HeaderLine? ==>
      IsTrimmed(Classify(line).key) && IsTrimmed(Classify(line).value) && ':' !in Classify(line).key
    ensures Classify(line).BodyLine? <==> !Contains(line, "HTTP") && ':' !in line
    ensures Classify(line).BodyLine? ==> Classify(line).text == line
    ensures Classify(line).RequestLine? ==>
      ProcessReqLine(line) == Some((Classify(line).m, Classify(line).r, Classify(line).v))
    ensures Classify(line).HeaderLine? ==>
      ProcessHeaderLine(line) == (Classify(line).key, Classify(line).value)
  {
    ContainsChar(line, ':');
  }

  function ClassifyAll(lines: seq<string>): (kinds: seq<LineKind>)
    ensures |kinds| == |lines|
    ensures forall i :: 0 <= i < |lines| ==> kinds[i] == Classify(lines[i])
  {
    seq(|lines|, i requires 0 <= i < |lines| => Classify(lines[i]))
  }

  /** The values the parser starts from. */
  const Initial := HttpRequest(Method.Uninitialized, Version.Uninitialized, Path(""), map[], "")

  /** One iteration of the parsing loop: a later line overwrites. */
  function Apply(acc: HttpRequest, kind: LineKind): (r: Option<HttpRequest>)
    ensures r.None? <==> kind.MalformedRequestLine?
    ensures r.Some? && !kind.RequestLine? ==>
      r.value.httpMethod == acc.httpMethod && r.value.resource == acc.resource && r.value.version == acc.version
    ensures r.Some? && !kind.HeaderLine? ==> r.value.headers == acc.headers
    ensures r.Some? && !kind.BodyLine? ==> r.value.body == acc.body
    ensures r.Some? && kind.RequestLine? ==>
      r.value.httpMethod == kind.m && r.value.resource == kind.r && r.value.version == kind.v
    ensures r.Some? && kind.HeaderLine? ==> r.value.headers == acc.headers[kind.key := kind.value]
    ensures r.Some? && kind.BodyLine? ==> r.value.body == kind.text
  {
    match kind
    case RequestLine(m, r, v) => Some(acc.(httpMethod := m, resource := r, version := v))
    case MalformedRequestLine => None
    case HeaderLine(k, v) => Some(acc.(headers := acc.headers[k := v]))
    case BodyLine(l) => Some(acc.(body := l))
  }

  /** The parsing loop as a left fold; `None` is the panic of a malformed
      request line. */
  function Fold(kinds: seq<LineKind>): Option<HttpRequest> {
    if kinds == [] then Some(Initial)
    else match Fold(kinds[..|kinds| - 1])
      case None => None
      case Some(acc) => Apply(acc, kinds[|kinds| - 1])
  }

  function ParseLines(lines: seq<string>): Option<HttpRequest> {
    Fold(ClassifyAll(lines))
  }

  /** `HttpRequest::from(String)`: it panics exactly when some line
      mentions "HTTP" but has fewer than three words. */
  function Parse(req: string): (r: Option<HttpRequest>)
    ensures r.None? <==> exists i :: 0 <= i < |Lines(req)| && Contains(Lines(req)[i], "HTTP") && |SplitWhitespace(Lines(req)[i])| < 3
  {
    var lines := Lines(req);
    var kinds := ClassifyAll(lines);
    FoldFailsIff(kinds);
    assert MalformedRequestLine in kinds <==> exists i :: 0 <= i < |kinds| && kinds[i] == MalformedRequestLine;
    ParseLines(lines)
  }

  lemma FoldSnoc(kinds: seq<LineKind>, k: LineKind)
    ensures Fold(kinds + [k]) == match Fold(kinds) case None => None case Some(acc) => Apply(acc, k)
  {
    assert (kinds + [k])[..|kinds|] == kinds;
  }

  lemma FoldPrefixStep(kinds: seq<LineKind>, i: nat)
    requires i < |kinds|
    ensures Fold(kinds[..i + 1]) == match Fold(kinds[..i]) case None => None case Some(acc) => Apply(acc, kinds[i])
  {
    assert kinds[..i + 1] == kinds[..i] + [kinds[i]];
    FoldSnoc(kinds[..i], kinds[i]);
  }

  /** The loop of `HttpRequest::from`, updating the five parsed values in place. */
  method FromString(req: string) returns (r: Option<HttpRequest>)
    ensures r == Parse(req)
  {
    var lines := Lines(req);
    ghost var kinds := ClassifyAll(lines);
    var parsedMethod: Method := Method.Uninitialized;
    var parsedVersion: Version := Version.Uninitialized;
    var parsedResource := Path("");
    var parsedHeaders: map<string, string> := map[];
    var parsedBody := "";
    var i := 0;
    while i < |lines|
      invariant i <= |lines|
      invariant Fold(kinds[..i])
             == Some(HttpRequest(parsedMethod, parsedVersion, parsedResource, parsedHeaders, parsedBody))
    {
      var line := lines[i];
      FoldPrefixStep(kinds, i);
      if Contains(line, "HTTP") {
        var reqLine := ProcessReqLine(line);
        if reqLine.None? {
          FoldFailsIff(kinds);
          return None;
        }
        var (m, res, v) := reqLine.value;
        parsedMethod, parsedResource, parsedVersion := m, res, v;
      } else if Contains(line, ":") {
        var (key, value) := ProcessHeaderLine(line);
        parsedHeaders := parsedHeaders[key := value];
      } else {
        parsedBody := line;
      }
      i := i + 1;
    }
    assert kinds[..i] == kinds;
    r := Some(HttpRequest(parsedMethod, parsedVersion, parsedResource, parsedHeaders, parsedBody));
  }

  // ---------------------------------------------------------------------
  // What the parse yields, line by line

  /** The parse fails exactly when some request line has fewer than three words. */
  lemma {:induction false} FoldFailsIff(kinds: seq<LineKind>)
    ensures Fold(kinds).None? <==> MalformedRequestLine in kinds
  {
    if kinds != [] {
      var init := kinds[..|kinds| - 1];
      FoldFailsIff(init);
      assert kinds == init + [kinds[|kinds| - 1]];
    }
  }

  ghost predicate IsLastRequestLine(kinds: seq<LineKind>, j: int) {
    0 <= j < |kinds| && kinds[j].RequestLine?
    && forall j' :: j < j' < |kinds| ==> !kinds[j'].RequestLine?
  }

  /** Method, path and version come from the last request line, and keep
      their initial values when there is none. */
  lemma FoldRequestLine(kinds: seq<LineKind>, r: HttpRequest)
    requires Fold(kinds) == Some(r)
    ensures (forall j :: 0 <= j < |kinds| ==> !kinds[j].RequestLine?)
            ==> r.httpMethod == Method.Uninitialized && r.version == Version.Uninitialized && r.resource == Path("")
    ensures forall j :: IsLastRequestLine(kinds, j) ==> kinds[j] == RequestLine(r.httpMethod, r.resource, r.version)
  {
    if forall j :: 0 <= j < |kinds| ==> !kinds[j].RequestLine? {
      FoldNoRequestLine(kinds, r);
    }
    FoldLastRequestLine(kinds, r);
  }

  lemma {:induction false} FoldNoRequestLine(kinds: seq<LineKind>, r: HttpRequest)
    requires Fold(kinds) == Some(r)
    requires forall j :: 0 <= j < |kinds| ==> !kinds[j].RequestLine?
    ensures r.httpMethod == Method.Uninitialized && r.version == Version.Uninitialized && r.resource == Path("")
  {
    if kinds != [] {
      var init := kinds[..|kinds| - 1];
      FoldFailsIff(kinds);
      FoldFailsIff(init);
      FoldLast(kinds);
      assert forall j :: 0 <= j < |init| ==> init[j] == kinds[j];
      FoldNoRequestLine(init, Fold(init).value);
    }
  }

  lemma {:induction false} FoldLastRequestLine(kinds: seq<LineKind>, r: HttpRequest)
    requires Fold(kinds) == Some(r)
    ensures forall j :: IsLastRequestLine(kinds, j) ==> kinds[j] == RequestLine(r.httpMethod, r.resource, r.version)
  {
    if kinds != [] {
      var n := |kinds|;
      var init, last := kinds[..n - 1], kinds[n - 1];
      FoldFailsIff(kinds);
      FoldFailsIff(init);
      var acc := Fold(init).value;
      FoldLast(kinds);
      if !last.RequestLine? {
        FoldLastRequestLine(init, acc);
        forall j | IsLastRequestLine(kinds, j)
          ensures kinds[j] == RequestLine(r.httpMethod, r.resource, r.version)
        {
          assert IsLastRequestLine(init, j) by {
            assert forall j' :: j < j' < n - 1 ==> init[j'] == kinds[j'];
          }
        }
      }
    }
  }

  ghost predicate IsLastHeaderLine(kinds: seq<LineKind>, j: int) {
    0 <= j < |kinds| && kinds[j].HeaderLine?
    && forall j' :: j < j' < |kinds| && kinds[j'].HeaderLine? ==> kinds[j'].key != kinds[j].key
  }

  /** The header map holds exactly the keys of the header lines, each with the
      value of the last header line that has that key. */
  lemma FoldHeaders(kinds: seq<LineKind>, r: HttpRequest)
    requires Fold(kinds) == Some(r)
    ensures forall k :: k in r.headers <==> exists j :: 0 <= j < |kinds| && kinds[j].HeaderLine? && kinds[j].key == k
    ensures forall j :: IsLastHeaderLine(kinds, j) ==> kinds[j].key in r.headers && r.headers[kinds[j].key] == kinds[j].value
  {
    FoldHeaderKeys(kinds, r);
    FoldHeaderValues(kinds, r);
  }

  ghost predicate HasHeaderKey(kinds: seq<LineKind>, k: string) {
    exists j :: 0 <= j < |kinds| && kinds[j].HeaderLine? && kinds[j].key == k
  }

  lemma HasHeaderKeySnoc(init: seq<LineKind>, last: LineKind, k: string)
    ensures HasHeaderKey(init + [last], k) <==> HasHeaderKey(init, k) || (last.HeaderLine? && last.key == k)
  {
    var kinds := init + [last];
    if HasHeaderKey(kinds, k) && !(last.HeaderLine? && last.key == k) {
      var j :| 0 <= j < |kinds| && kinds[j].HeaderLine? && kinds[j].key == k;
      assert j < |init| && init[j] == kinds[j];
    }
    if HasHeaderKey(init, k) {
      var j :| 0 <= j < |init| && init[j].HeaderLine? && init[j].key == k;
      assert kinds[j] == init[j];
    }
    if last.HeaderLine? && last.key == k {
      assert kinds[|init|] == last;
    }
  }

  /** The last step of the fold, when the steps before it succeed. */
  lemma FoldLast(kinds: seq<LineKind>)
    requires kinds != [] && Fold(kinds[..|kinds| - 1]).Some?
    ensures Fold(kinds) == Apply(Fold(kinds[..|kinds| - 1]).value, kinds[|kinds| - 1])
  {
  }

  lemma {:induction false} FoldHeaderKeys(kinds: seq<LineKind>, r: HttpRequest)
    requires Fold(kinds) == Some(r)
    ensures forall k :: k in r.headers <==> HasHeaderKey(kinds, k)
  {
    if kinds != [] {
      var n := |kinds|;
      var init, last := kinds[..n - 1], kinds[n - 1];
      FoldFailsIff(kinds);
      FoldFailsIff(init);
      var acc := Fold(init).value;
      FoldLast(kinds);
      FoldHeaderKeys(init, acc);
      assert kinds == init + [last];
      forall k ensures k in r.headers <==> HasHeaderKey(kinds, k) {
        HasHeaderKeySnoc(init, last, k);
      }
    }
  }

  lemma {:induction false} FoldHeaderValues(kinds: seq<LineKind>, r: HttpRequest)
    requires Fold(kinds) == Some(r)
    ensures forall j :: IsLastHeaderLine(kinds, j) ==> kinds[j].key in r.headers && r.headers[kinds[j].key] == kinds[j].value
  {
    if kinds != [] {
      var n := |kinds|;
      var init, last := kinds[..n - 1], kinds[n - 1];
      FoldFailsIff(kinds);
      FoldFailsIff(init);
      var acc := Fold(init).value;
      FoldLast(kinds);
      FoldHeaderValues(init, acc);
      forall j | IsLastHeaderLine(kinds, j)
        ensures kinds[j].key in r.headers && r.headers[kinds[j].key] == kinds[j].value
      {
        if j < n - 1 {
          assert IsLastHeaderLine(init, j) by {
            assert forall j' :: j < j' < n - 1 ==> init[j'] == kinds[j'];
          }
        }
      }
    }
  }

  ghost predicate IsLastBodyLine(kinds: seq<LineKind>, j: int) {
    0 <= j < |kinds| && kinds[j].BodyLine?
    && forall j' :: j < j' < |kinds| ==> !kinds[j'].BodyLine?
  }

  /** The body is the last line that is neither request line nor header —
      an empty line included — and empty when there is none. */
  lemma {:induction false} FoldBody(kinds: seq<LineKind>, r: HttpRequest)
    requires Fold(kinds) == Some(r)
    ensures (forall j :: 0 <= j < |kinds| ==> !kinds[j].BodyLine?) ==> r.body == ""
    ensures forall j :: IsLastBodyLine(kinds, j) ==> r.body == kinds[j].text
  {
    if kinds != [] {
      var n := |kinds|;
      var init, last := kinds[..n - 1], kinds[n - 1];
      var acc := Fold(init).value;
      FoldBody(init, acc);
      if !last.BodyLine? {
        assert r.body == acc.body;
        forall j | IsLastBodyLine(kinds, j) ensures r.body == kinds[j].text {
          assert IsLastBodyLine(init, j);
        }
      }
    }
  }

  // ---------------------------------------------------------------------
  // Classifying well-formed lines

  /** Three words containing "HTTP" form a request line with those fields. */
  lemma ClassifyRequestLine(m: string, p: string, v: string)
    requires forall w :: w in [m, p, v] ==> w != [] && NoWhitespace(w)
    requires Contains(Unwords([m, p, v]), "HTTP")
    ensures Classify(Unwords([m, p, v])) == RequestLine(MethodFrom(m), Path(p), VersionFrom(v))
  {
    ReqLineOfWords(m, p, v, []);
    assert [m, p, v] + [] == [m, p, v];
  }

  /** "Key: Value" without "HTTP" in it is a header line with that key and value. */
  lemma ClassifyHeaderLine(k: string, v: string)
    requires ':' !in k && IsTrimmed(k) && IsTrimmed(v)
    requires !Contains(k + ": " + v, "HTTP")
    ensures Classify(k + ": " + v) == HeaderLine(k, v)
  {
    HeaderLineOfEntry(k, v);
    assert OccursAt(k + ": " + v, ":", |k|);
  }

  /** An empty line is a body line. */
  lemma ClassifyEmptyLine()
    ensures Classify("") == BodyLine("")
  {
  }

  /** A line mentioning "HTTP" with fewer than three words is taken for a
      request line and makes the parse panic, header or not. */
  lemma ClassifyShortHttpLine(line: string)
    requires Contains(line, "HTTP") && |SplitWhitespace(line)| < 3
    ensures Classify(line) == MalformedRequestLine
  {
  }

  lemma UpgradeHeaderText()
    ensures Unwords(["Upgrade:", "HTTP/2.0"]) == "Upgrade: HTTP/2.0"
  {
    assert ["Upgrade:", "HTTP/2.0"][1..] == ["HTTP/2.0"];
  }

  lemma UpgradeHeaderWords()
    ensures |SplitWhitespace("Upgrade: HTTP/2.0")| == 2
  {
    var words := ["Upgrade:", "HTTP/2.0"];
    assert words[0] != [] && NoWhitespace(words[0]) && words[1] != [] && NoWhitespace(words[1]);
    SplitWhitespaceUnwords(words);
    UpgradeHeaderText();
  }

  lemma UpgradeHeaderMentionsHttp()
    ensures Contains("Upgrade: HTTP/2.0", "HTTP")
  {
    assert OccursAt("Upgrade: HTTP/2.0", "HTTP", 9);
  }

  /** So the header "Upgrade: HTTP/2.0" anywhere in a request makes
      `HttpRequest::from` panic. */
  lemma UpgradeHeaderPanics(lines: seq<string>)
    requires "Upgrade: HTTP/2.0" in lines
    ensures ParseLines(lines) == None
  {
    UpgradeHeaderWords();
    UpgradeHeaderMentionsHttp();
    ClassifyShortHttpLine("Upgrade: HTTP/2.0");
    var i :| 0 <= i < |lines| && lines[i] == "Upgrade: HTTP/2.0";
    assert ClassifyAll(lines)[i] == MalformedRequestLine;
    FoldFailsIff(ClassifyAll(lines));
  }

  // ---------------------------------------------------------------------
  // Classifying literal lines

  /** A literal header line: `absent` is a letter of "HTTP" the line lacks. */
  lemma ClassifyHeaderText(line: string, k: string, v: string, absent: char)
    requires line == k + ": " + v
    requires ':' !in k && IsTrimmed(k) && IsTrimmed(v)
    requires absent in "HTTP" && absent !in line
    ensures Classify(line) == HeaderLine(k, v)
  {
    var i :| 0 <= i < 4 && "HTTP"[i] == absent;
    MissingCharNotContained(line, "HTTP", i);
    ClassifyHeaderLine(k, v);
  }

  /** A literal request line with "HTTP" at position `at`. */
  lemma ClassifyRequestText(line: string, m: string, p: string, v: string, at: int)
    requires line == Unwords([m, p, v])
    requires forall w :: w in [m, p, v] ==> w != [] && NoWhitespace(w)
    requires OccursAt(line, "HTTP", at)
    ensures Classify(line) == RequestLine(MethodFrom(m), Path(p), VersionFrom(v))
  {
    ClassifyRequestLine(m, p, v);
  }

  // ---------------------------------------------------------------------
  // A request read end to end

  /** Stated over variables so that the three lines are classified apart
      from the literals they are later given. */
  lemma ClassifyThree(a: string, b: string, c: string)
    ensures ClassifyAll([a, b, c]) == [Classify(a), Classify(b), Classify(c)]
  {
  }

  lemma SmallRequestText()
    ensures "GET /sd HTTP/1.1\r\nUser-Agent: X\r\n\r\n"
         == CrlfTerminated(["GET /sd HTTP/1.1", "User-Agent: X", ""])
  {
  }

  lemma SmallRequestLines()
    ensures Lines("GET /sd HTTP/1.1\r\nUser-Agent: X\r\n\r\n") == ["GET /sd HTTP/1.1", "User-Agent: X", ""]
  {
    SmallRequestText();
    LinesOfCrlfTerminated(["GET /sd HTTP/1.1", "User-Agent: X", ""]);
  }

  lemma SmallRequestKinds()
    ensures ClassifyAll(["GET /sd HTTP/1.1", "User-Agent: X", ""])
         == [RequestLine(Get, Path("/sd"), V1_1), HeaderLine("User-Agent", "X"), BodyLine("")]
  {
    SmallRequestLine();
    SmallRequestHeader();
    ClassifyEmptyLine();
    ClassifyThree("GET /sd HTTP/1.1", "User-Agent: X", "");
  }

  lemma GetSdUnwords()
    ensures Unwords(["GET", "/sd", "HTTP/1.1"]) == "GET /sd HTTP/1.1"
  {
    var m, p, v := "GET", "/sd", "HTTP/1.1";
    assert Unwords([m, p, v]) == m + " " + (p + " " + v) by {
      assert [m, p, v][1..] == [p, v] && [p, v][1..] == [v];
      assert Unwords([v]) == v;
      assert Unwords([p, v]) == p + " " + v;
    }
    assert m + " " + (p + " " + v) == "GET /sd HTTP/1.1";
  }

  lemma SmallRequestLine()
    ensures Classify("GET /sd HTTP/1.1") == RequestLine(Get, Path("/sd"), V1_1)
  {
    GetSdUnwords();
    ClassifyRequestText("GET /sd HTTP/1.1", "GET", "/sd", "HTTP/1.1", 8);
  }

  lemma SmallRequestHeader()
    ensures Classify("User-Agent: X") == HeaderLine("User-Agent", "X")
  {
    ClassifyHeaderText("User-Agent: X", "User-Agent", "X", 'H');
  }

  lemma SmallRequestFold()
    ensures Fold([RequestLine(Get, Path("/sd"), V1_1), HeaderLine("User-Agent", "X"), BodyLine("")])
         == Some(HttpRequest(Get, V1_1, Path("/sd"), map["User-Agent" := "X"], ""))
  {
    var k0 := RequestLine(Get, Path("/sd"), V1_1);
    var k1 := HeaderLine("User-Agent", "X");
    var k2 := BodyLine("");
    FoldSnoc([], k0);
    FoldSnoc([k0], k1);
    FoldSnoc([k0, k1], k2);
    assert [] + [k0] == [k0];
    assert [k0] + [k1] == [k0, k1];
    assert [k0, k1] + [k2] == [k0, k1, k2];
  }

  /** A request line, one header and the blank line that ends the head. */
  lemma ParseSmallRequest()
    ensures Parse("GET /sd HTTP/1.1\r\nUser-Agent: X\r\n\r\n")
         == Some(HttpRequest(Get, V1_1, Path("/sd"), map["User-Agent" := "X"], ""))
  {
    SmallRequestLines();
    SmallRequestKinds();
    SmallRequestFold();
  }

  // ---------------------------------------------------------------------
  // A request written out and read back

  /** A header as a client writes it: "Key: Value". */
  function HeaderText(e: (string, string)): string {
    e.0 + ": " + e.1
  }

  function HeaderTexts(entries: seq<(string, string)>): (lines: seq<string>)
    ensures |lines| == |entries|
    ensures forall i :: 0 <= i < |entries| ==> lines[i] == HeaderText(entries[i])
  {
    seq(|entries|, i requires 0 <= i < |entries| => HeaderText(entries[i]))
  }

  function HeaderKinds(entries: seq<(string, string)>): (kinds: seq<LineKind>)
    ensures |kinds| == |entries|
    ensures forall i :: 0 <= i < |entries| ==> kinds[i] == HeaderLine(entries[i].0, entries[i].1)
  {
    seq(|entries|, i requires 0 <= i < |entries| => HeaderLine(entries[i].0, entries[i].1))
  }

  lemma HeaderKindsSnoc(entries: seq<(string, string)>)
    requires entries != []
    ensures HeaderKinds(entries)
         == HeaderKinds(entries[..|entries| - 1]) + [HeaderLine(entries[|entries| - 1].0, entries[|entries| - 1].1)]
  {
  }

  /** The lines of a request: request line, headers, an empty line, then
      the body when there is one. */
  function RequestLines(m: string, p: string, v: string, entries: seq<(string, string)>, body: string): seq<string> {
    [Unwords([m, p, v])] + HeaderTexts(entries) + [""] + (if body == "" then [] else [body])
  }

  /** Headers entered one after another into a map: a later entry with the
      same key replaces an earlier one. */
  function Entered(m: map<string, string>, entries: seq<(string, string)>): map<string, string> {
    if entries == [] then m
    else Entered(m, entries[..|entries| - 1])[entries[|entries| - 1].0 := entries[|entries| - 1].1]
  }

  /** The key is entered with this value and not replaced afterwards. */
  ghost predicate IsLastEntry(entries: seq<(string, string)>, j: int) {
    0 <= j < |entries| && forall j' :: j < j' < |entries| ==> entries[j'].0 != entries[j].0
  }

  /** Entering headers adds exactly their keys. */
  lemma {:induction false} EnteredKeys(m: map<string, string>, entries: seq<(string, string)>)
    ensures forall k :: k in Entered(m, entries) <==> k in m || exists j :: 0 <= j < |entries| && entries[j].0 == k
  {
    if entries != [] {
      var n := |entries|;
      var init := entries[..n - 1];
      EnteredKeys(m, init);
      forall k ensures k in Entered(m, entries) <==> k in m || exists j :: 0 <= j < n && entries[j].0 == k {
        if exists j :: 0 <= j < n && entries[j].0 == k {
          var j :| 0 <= j < n && entries[j].0 == k;
          if j < n - 1 {
            assert init[j].0 == k;
          }
        }
        if k in Entered(m, init) && !(k in m) {
          var j :| 0 <= j < n - 1 && init[j].0 == k;
          assert entries[j].0 == k;
        }
      }
    }
  }

  /** Each entered key holds the value of its last entry. */
  lemma {:induction false} EnteredLastWins(m: map<string, string>, entries: seq<(string, string)>)
    ensures forall j :: IsLastEntry(entries, j) ==>
      entries[j].0 in Entered(m, entries) && Entered(m, entries)[entries[j].0] == entries[j].1
  {
    if entries != [] {
      var n := |entries|;
      var init := entries[..n - 1];
      EnteredLastWins(m, init);
      forall j | IsLastEntry(entries, j)
        ensures entries[j].0 in Entered(m, entries) && Entered(m, entries)[entries[j].0] == entries[j].1
      {
        if j < n - 1 {
          assert IsLastEntry(init, j);
        }
      }
    }
  }

  /** A key no entry names keeps its value. */
  lemma {:induction false} EnteredKeeps(m: map<string, string>, entries: seq<(string, string)>, k: string)
    requires k in m && forall j :: 0 <= j < |entries| ==> entries[j].0 != k
    ensures k in Entered(m, entries) && Entered(m, entries)[k] == m[k]
  {
    if entries != [] {
      EnteredKeeps(m, entries[..|entries| - 1], k);
    }
  }

  /** Header lines fold into the map as `Entered` enters them. */
  lemma {:induction false} FoldHeaderKinds(kinds: seq<LineKind>, entries: seq<(string, string)>, acc: HttpRequest)
    requires Fold(kinds) == Some(acc)
    ensures Fold(kinds + HeaderKinds(entries)) == Some(acc.(headers := Entered(acc.headers, entries)))
  {
    if entries != [] {
      var n := |entries|;
      var init := entries[..n - 1];
      var last := HeaderLine(entries[n - 1].0, entries[n - 1].1);
      var prefix := kinds + HeaderKinds(init);
      assert kinds + HeaderKinds(entries) == prefix + [last] by {
        HeaderKindsSnoc(entries);
      }
      assert Fold(prefix) == Some(acc.(headers := Entered(acc.headers, init))) by {
        FoldHeaderKinds(kinds, init, acc);
      }
      FoldSnoc(prefix, last);
      assert Entered(acc.headers, entries) == Entered(acc.headers, init)[last.key := last.value];
    } else {
      assert kinds + HeaderKinds(entries) == kinds;
    }
  }

  /** The kinds of a written request fold to its fields. */
  lemma FoldRequestKinds(k0: LineKind, entries: seq<(string, string)>, body: string)
    requires k0.RequestLine?
    ensures Fold([k0] + HeaderKinds(entries) + [BodyLine("")] + (if body == "" then [] else [BodyLine(body)]))
         == Some(HttpRequest(k0.m, k0.v, k0.r, Entered(map[], entries), body))
  {
    var acc := HttpRequest(k0.m, k0.v, k0.r, map[], "");
    FoldSnoc([], k0);
    assert [] + [k0] == [k0];
    FoldHeaderKinds([k0], entries, acc);
    var heads := [k0] + HeaderKinds(entries);
    FoldSnoc(heads, BodyLine(""));
    if body != "" {
      FoldSnoc(heads + [BodyLine("")], BodyLine(body));
    } else {
      assert heads + [BodyLine("")] + [] == heads + [BodyLine("")];
    }
  }

  ghost predicate WellFormedEntry(e: (string, string)) {
    ':' !in e.0 && IsTrimmed(e.0) && IsTrimmed(e.1) && !Contains(HeaderText(e), "HTTP")
  }

  ghost predicate WellFormedBody(body: string) {
    !Contains(body, "HTTP") && !Contains(body, ":")
  }

  lemma ClassifyAllAppend(a: seq<string>, b: seq<string>)
    ensures ClassifyAll(a + b) == ClassifyAll(a) + ClassifyAll(b)
  {
  }

  lemma ClassifyHeaderTexts(entries: seq<(string, string)>)
    requires forall i :: 0 <= i < |entries| ==> WellFormedEntry(entries[i])
    ensures ClassifyAll(HeaderTexts(entries)) == HeaderKinds(entries)
  {
    forall i | 0 <= i < |entries|
      ensures Classify(HeaderText(entries[i])) == HeaderLine(entries[i].0, entries[i].1)
    {
      ClassifyHeaderLine(entries[i].0, entries[i].1);
    }
  }

  lemma ClassifyBody(body: string)
    requires WellFormedBody(body)
    ensures Classify(body) == BodyLine(body)
  {
  }

  lemma ClassifyPieces(l0: string, heads: seq<string>, body: string, k0: LineKind, headKinds: seq<LineKind>)
    requires Classify(l0) == k0 && ClassifyAll(heads) == headKinds
    requires body != "" ==> Classify(body) == BodyLine(body)
    ensures ClassifyAll([l0] + heads + [""] + (if body == "" then [] else [body]))
         == [k0] + headKinds + [BodyLine("")] + (if body == "" then [] else [BodyLine(body)])
  {
    var tail := if body == "" then [] else [body];
    ClassifyAllAppend([l0] + heads + [""], tail);
    ClassifyAllAppend([l0] + heads, [""]);
    ClassifyAllAppend([l0], heads);
    assert ClassifyAll([l0]) == [k0];
    assert ClassifyAll([""]) == [BodyLine("")] by {
      ClassifyEmptyLine();
    }
    assert ClassifyAll(tail) == (if body == "" then [] else [BodyLine(body)]);
  }

  /** A request written as request line, headers, empty line and body is
      read back as its method, path, version, entered headers and body. */
  lemma ParseRequestLines(m: string, p: string, v: string, entries: seq<(string, string)>, body: string)
    requires forall w :: w in [m, p, v] ==> w != [] && NoWhitespace(w)
    requires Contains(Unwords([m, p, v]), "HTTP")
    requires forall i :: 0 <= i < |entries| ==> WellFormedEntry(entries[i])
    requires WellFormedBody(body)
    ensures ParseLines(RequestLines(m, p, v, entries, body))
         == Some(HttpRequest(MethodFrom(m), VersionFrom(v), Path(p), Entered(map[], entries), body))
  {
    var k0 := RequestLine(MethodFrom(m), Path(p), VersionFrom(v));
    ClassifyRequestLine(m, p, v);
    ClassifyHeaderTexts(entries);
    if body != "" {
      ClassifyBody(body);
    }
    ClassifyPieces(Unwords([m, p, v]), HeaderTexts(entries), body, k0, HeaderKinds(entries));
    FoldRequestKinds(k0, entries, body);
  }

  /** A whitespace-free word holds no line break. */
  lemma NoNewlineInWord(w: string)
    requires NoWhitespace(w)
    ensures '\n' !in w
  {
  }

  lemma RequestLinesOneLineEach(m: string, p: string, v: string, entries: seq<(string, string)>, body: string)
    requires NoWhitespace(m) && NoWhitespace(p) && NoWhitespace(v)
    requires forall i :: 0 <= i < |entries| ==> '\n' !in HeaderText(entries[i])
    requires '\n' !in body
    ensures forall i :: 0 <= i < |RequestLines(m, p, v, entries, body)| ==> '\n' !in RequestLines(m, p, v, entries, body)[i]
  {
    var lines := RequestLines(m, p, v, entries, body);
    NoNewlineInWord(m);
    NoNewlineInWord(p);
    NoNewlineInWord(v);
    assert [m, p, v][1..] == [p, v] && [p, v][1..] == [v];
    assert Unwords([v]) == v;
    assert Unwords([p, v]) == p + " " + v;
    assert Unwords([m, p, v]) == m + " " + Unwords([p, v]);
    forall i | 0 <= i < |lines| ensures '\n' !in lines[i] {
      if 1 <= i <= |entries| {
        assert lines[i] == HeaderText(entries[i - 1]);
      }
    }
  }

  /** The same, read from the CRLF-terminated text of the request. */
  lemma ParseRequestText(m: string, p: string, v: string, entries: seq<(string, string)>, body: string)
    requires forall w :: w in [m, p, v] ==> w != [] && NoWhitespace(w)
    requires Contains(Unwords([m, p, v]), "HTTP")
    requires forall i :: 0 <= i < |entries| ==> WellFormedEntry(entries[i]) && '\n' !in HeaderText(entries[i])
    requires WellFormedBody(body) && '\n' !in body
    ensures Parse(CrlfTerminated(RequestLines(m, p, v, entries, body)))
         == Some(HttpRequest(MethodFrom(m), VersionFrom(v), Path(p), Entered(map[], entries), body))
  {
    var lines := RequestLines(m, p, v, entries, body);
    assert m in [m, p, v] && p in [m, p, v] && v in [m, p, v];
    RequestLinesOneLineEach(m, p, v, entries, body);
    LinesOfCrlfTerminated(lines);
    ParseRequestLines(m, p, v, entries, body);
  }

  lemma RequestLinesWithBody(m: string, p: string, v: string, entries: seq<(string, string)>, body: string)
    requires body != ""
    ensures RequestLines(m, p, v, entries, "") + [body] == RequestLines(m, p, v, entries, body)
  {
  }

  /** The same when the body is not followed by a line ending, as a body
      usually arrives. */
  lemma ParseRequestTextUnterminated(m: string, p: string, v: string, entries: seq<(string, string)>, body: string)
    requires forall w :: w in [m, p, v] ==> w != [] && NoWhitespace(w)
    requires Contains(Unwords([m, p, v]), "HTTP")
    requires forall i :: 0 <= i < |entries| ==> WellFormedEntry(entries[i]) && '\n' !in HeaderText(entries[i])
    requires WellFormedBody(body) && '\n' !in body && body != ""
    ensures Parse(CrlfTerminated(RequestLines(m, p, v, entries, "")) + body)
         == Some(HttpRequest(MethodFrom(m), VersionFrom(v), Path(p), Entered(map[], entries), body))
  {
    var head := RequestLines(m, p, v, entries, "");
    assert Lines(CrlfTerminated(head) + body) == RequestLines(m, p, v, entries, body) by {
      assert m in [m, p, v] && p in [m, p, v] && v in [m, p, v];
      RequestLinesOneLineEach(m, p, v, entries, "");
      LinesOfUnterminated(head, body);
      RequestLinesWithBody(m, p, v, entries, body);
    }
    ParseRequestLines(m, p, v, entries, body);
  }

  // ---------------------------------------------------------------------
  // The request of the repository's parsing test

  const PostmanEntries: seq<(string, string)> := [
    ("User-Agent", "PostmanRuntime/7.28.4"),
    ("Accept", "*/*"),
    ("Postman-Token", "529edce1-9249-4a63-96b4-127cb0f57a83"),
    ("Host", "159.75.96.101:7879"),
    ("Accept-Encoding", "gzip, deflate, br"),
    ("Connection", "keep-alive")]

  const PostmanHeaders: map<string, string> := map[
    "Host" := "159.75.96.101:7879",
    "User-Agent" := "PostmanRuntime/7.28.4",
    "Postman-Token" := "529edce1-9249-4a63-96b4-127cb0f57a83",
    "Accept-Encoding" := "gzip, deflate, br",
    "Connection" := "keep-alive",
    "Accept" := "*/*"]

  /** A key and value that are trimmed, have no line break, whose key has no
      colon, and that both lack the letter `absent` of "HTTP". */
  predicate PlainText(k: string, v: string, absent: char) {
    ':' !in k && IsTrimmed(k) && IsTrimmed(v)
    && absent in "HTTP" && absent !in k && absent !in v
    && '\n' !in k && '\n' !in v
  }

  /** Such an entry is well formed: its header line cannot mention "HTTP". */
  lemma PlainEntry(k: string, v: string, absent: char)
    requires PlainText(k, v, absent)
    ensures WellFormedEntry((k, v)) && '\n' !in HeaderText((k, v))
  {
    var i :| 0 <= i < 4 && "HTTP"[i] == absent;
    MissingCharNotContained(HeaderText((k, v)), "HTTP", i);
  }

  lemma PostmanEntry0()
    ensures PlainText(PostmanEntries[0].0, PostmanEntries[0].1, 'H')
  {
    UserAgentPlain();
  }

  /** The character facts about one long literal, proved on their own. */
  lemma UserAgentPlain()
    ensures 'H' !in "PostmanRuntime/7.28.4"
    ensures '\n' !in "PostmanRuntime/7.28.4"
  {
  }

  lemma PostmanEntry1()
    ensures PlainText(PostmanEntries[1].0, PostmanEntries[1].1, 'H')
  {
  }

  lemma PostmanEntry2()
    ensures PlainText(PostmanEntries[2].0, PostmanEntries[2].1, 'H')
  {
    PostmanTokenPlain();
  }

  /** The character facts about one long literal, proved on their own. */
  lemma PostmanTokenPlain()
    ensures 'H' !in "529edce1-9249-4a63-96b4-127cb0f57a83"
    ensures '\n' !in "529edce1-9249-4a63-96b4-127cb0f57a83"
  {
  }

  lemma PostmanEntry3()
    ensures PlainText(PostmanEntries[3].0, PostmanEntries[3].1, 'T')
  {
  }

  lemma PostmanEntry4()
    ensures PlainText(PostmanEntries[4].0, PostmanEntries[4].1, 'H')
  {
    EncodingPlain();
  }

  /** The character facts about one long literal, proved on their own. */
  lemma EncodingPlain()
    ensures 'H' !in "gzip, deflate, br"
    ensures '\n' !in "gzip, deflate, br"
  {
  }

  lemma PostmanEntry5()
    ensures PlainText(PostmanEntries[5].0, PostmanEntries[5].1, 'H')
  {
  }

  lemma PostmanEntriesPlain()
    ensures forall i :: 0 <= i < |PostmanEntries| ==> WellFormedEntry(PostmanEntries[i]) && '\n' !in HeaderText(PostmanEntries[i])
  {
    forall i | 0 <= i < |PostmanEntries|
      ensures WellFormedEntry(PostmanEntries[i]) && '\n' !in HeaderText(PostmanEntries[i])
    {
      var c := if i == 3 then 'T' else 'H';
      if i == 0 { PostmanEntry0(); }
      else if i == 1 { PostmanEntry1(); }
      else if i == 2 { PostmanEntry2(); }
      else if i == 3 { PostmanEntry3(); }
      else if i == 4 { PostmanEntry4(); }
      else { PostmanEntry5(); }
      PlainEntry(PostmanEntries[i].0, PostmanEntries[i].1, c);
    }
  }

  lemma EnteredSnoc(m: map<string, string>, entries: seq<(string, string)>, e: (string, string))
    ensures Entered(m, entries + [e]) == Entered(m, entries)[e.0 := e.1]
  {
    assert (entries + [e])[..|entries|] == entries;
  }

  lemma PostmanEntered()
    ensures Entered(map[], PostmanEntries) == PostmanHeaders
  {
    var e := PostmanEntries;
    assert e == [] + [e[0]] + [e[1]] + [e[2]] + [e[3]] + [e[4]] + [e[5]];
    EnteredSnoc(map[], [], e[0]);
    EnteredSnoc(map[], [] + [e[0]], e[1]);
    EnteredSnoc(map[], [] + [e[0]] + [e[1]], e[2]);
    EnteredSnoc(map[], [] + [e[0]] + [e[1]] + [e[2]], e[3]);
    EnteredSnoc(map[], [] + [e[0]] + [e[1]] + [e[2]] + [e[3]], e[4]);
    EnteredSnoc(map[], [] + [e[0]] + [e[1]] + [e[2]] + [e[3]] + [e[4]], e[5]);
  }

  lemma GetSdWords()
    ensures forall w :: w in ["GET", "/sd", "HTTP/1.1"] ==> w != [] && NoWhitespace(w)
    ensures Contains(Unwords(["GET", "/sd", "HTTP/1.1"]), "HTTP")
  {
    GetSdUnwords();
    assert OccursAt("GET /sd HTTP/1.1", "HTTP", 8);
  }

  /** The repository's parsing test: the Postman request yields GET, HTTP/1.1,
      the path "/sd" and exactly its six headers. */
  lemma ParsePostmanRequest()
    ensures Parse(CrlfTerminated(RequestLines("GET", "/sd", "HTTP/1.1", PostmanEntries, "")))
         == Some(HttpRequest(Get, V1_1, Path("/sd"), PostmanHeaders, ""))
  {
    GetSdWords();
    PostmanEntriesPlain();
    PostmanEntered();
    ParseRequestText("GET", "/sd", "HTTP/1.1", PostmanEntries, "");
  }
}
