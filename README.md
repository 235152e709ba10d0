# A minimal HTTP/1.1 server, parse → route → respond

This project models and verifies the request/response core of a small Rust
HTTP/1.1 server:

- **Request parser.** The `http` crate's `HttpRequest::from(String)` reads a
  raw request line by line. A line that contains `"HTTP"` is the request line:
  its first three words are the method, the path and the version. Otherwise
  a line that contains `":"` is a header, split at its first colon with both
  sides trimmed. Any other line is the body. Later lines overwrite earlier
  ones.
- **Response builder.** `HttpResponse::new` fills in the status text from a
  fixed table and a default `Content-Type: text/html` header. The
  `From<HttpResponse> for String` conversion writes the status line, one
  `key:value` line per header, a `Content-Length` (the body's length in
  bytes), an empty line and the body.
- **Router.** `Router::route` picks one of three handlers from the method
  and segment 1 of the `/`-split path. Only `GET` with segment 1 equal to
  `api` goes to the web service; any other `GET` is served as a static page,
  and every other method gets the 404 page.
- **Handlers.** The handlers turn path segments into a status (always 200 or
  404), a content type and a body. The 404 page, static files named by
  segment 1, and the orders document on `/<any>/shipping/orders` are the
  three outcomes.

## Modelling decisions

- **Modules.** `Wrappers` holds `Option`. `Text` holds the Rust string
  operations the core relies on: `contains`, `trim`, `split_whitespace`,
  `split_once`, `split`, `lines`, `ends_with`, `len` and `{}` formatting of
  a number. `Requests`, `Responses`, `Handlers` and `Router` follow the
  four source files. `Exchange` holds properties of the pipeline as a whole.
- **Panics.** Every `unwrap` or index that can panic in the source makes
  the modelled operation return `None`:
  - a request line with fewer than three words (`Requests.ProcessReqLine`);
  - `headers()` on a response without a header map (`Responses.Headers`,
    `Responses.ToWire`);
  - segment 1 of a path with no `/` (`Router.Route`, `Handlers.StaticPage`).
- **The parsing loop.** It is the method `Requests.FromString`, which keeps
  the five mutable `parsed_*` variables. It is proved equal to a left fold
  (`Requests.Fold` over `Requests.ClassifyAll`), and the fold's meaning is
  stated by lemmas: the last request line, the last value per header key,
  the last body line.
- **Header order.** `HashMap` iteration order is an explicit key order. The
  predicate `IsKeyOrder` says it names every key exactly once. The method
  `Responses.Headers` picks keys one at a time as the `for` loop receives
  them.
- **Strings.** Strings are sequences of characters. Whitespace for `trim`
  and `split_whitespace` is Unicode `White_Space`, as Rust's
  `char::is_whitespace` has it. `Content-Length` is the UTF-8 length, so no
  ASCII assumption is needed.
- **Files and JSON.** File loading is a map from file name to content in
  the public directory. The serialised orders document is an opaque string.

The body is whatever was assigned last. `parsed_body` is assigned on every
line that is neither a request line nor a header, including the empty line
that ends the head (http/src/httprequest.rs:67-68). So a request with no
body text has body `""` (`Requests.FoldBody`).

A consequence of the `"HTTP"` test that the model makes visible: a header
whose value mentions `HTTP` is read as a request line. If it has fewer than
three words, as `Upgrade: HTTP/2.0` has, the parser panics
(`Requests.UpgradeHeaderPanics`).

## Model

| member | source | states |
|---|---|---|
| Text.Contains | http/src/httprequest.rs:59-64 | `contains` is true exactly when the pattern occurs at some position |
| Text.ContainsChar | http/src/httprequest.rs:64 | `contains(":")` holds exactly when the line has a `:` |
| Text.MissingCharNotContained | http/src/httprequest.rs:59 | a string that lacks one character of the pattern does not contain the pattern |
| Text.Trim | http/src/httprequest.rs:98-99 | `trim` leaves no whitespace at either end |
| Text.TrimDecomposes | http/src/httprequest.rs:98-99 | the input is whitespace, then the trimmed string, then whitespace |
| Text.TrimmedAway | http/src/httprequest.rs:98-99 | names the whitespace removed at the front and at the back |
| Text.TrimKeeps | http/src/httprequest.rs:98-99 | a character missing from the input is missing from its trim |
| Text.TrimPadded | http/src/httprequest.rs:98-99 | trimming whitespace-padded text with no whitespace at its ends gives that text back |
| Text.SplitWhitespace | http/src/httprequest.rs:82 | `split_whitespace` yields only non-empty words without whitespace |
| Text.SplitWhitespaceUnwords | http/src/httprequest.rs:82-85 | splitting words joined by single spaces gives the words back |
| Text.SplitWhitespaceSpaced | http/src/httprequest.rs:82-85 | words with whitespace runs of any length and kind between them, and optional runs at either end, split back into exactly those words |
| Text.SpacingOf | http/src/httprequest.rs:82 | every string is its `split_whitespace` words laid out between whitespace runs, non-empty between two words |
| Text.SplitWhitespaceDecomposes | http/src/httprequest.rs:82 | such a layout of the words always exists |
| Text.IndexOf | http/src/httprequest.rs:93 | the position of the first occurrence of the character, or none when it does not occur |
| Text.SplitOnce | http/src/httprequest.rs:93 | `split_once(c)` fails exactly when there is no `c`; otherwise the string is the first part, `c`, the second part, and the first part has no `c` |
| Text.SplitOnceIff | http/src/httprequest.rs:93 | `split_once(c)` gives `(a, b)` exactly when the string is `a`, `c`, `b` and `a` has no `c` |
| Text.Split | httpserver/src/router.rs:14 | `split(c)` gives at least one piece, and no piece holds `c` |
| Text.SplitCount | httpserver/src/router.rs:14 | `split(c)` gives one more piece than there are `c`s |
| Text.JoinSplit | httpserver/src/handler.rs:37 | joining the pieces of `split` with the separator gives the string back |
| Text.SplitJoin | httpserver/src/handler.rs:37 | splitting pieces without the separator, joined by it, gives the pieces back |
| Text.Lines | http/src/httprequest.rs:58 | no line returned by `lines` holds a line feed |
| Text.LinesOfCrlfTerminated | http/src/httprequest.rs:58 | reading CRLF-terminated lines with `lines` gives the lines back |
| Text.LinesOfLine | http/src/httprequest.rs:58 | text without a line feed is a single line, kept whole |
| Text.LinesAtNewline | http/src/httprequest.rs:58 | the first line ends at the first line feed, with one carriage return before it removed, so LF and CRLF endings read alike |
| Text.LinesOfUnterminated | http/src/httprequest.rs:58 | CRLF-terminated lines followed by a last line with no ending read back as all those lines |
| Text.Utf8Length | http/src/httpresponse.rs:35 | `len` counts UTF-8 bytes: between one and four per character, one per character for ASCII |
| Text.EndsWith | httpserver/src/handler.rs:44-46 | `ends_with` holds exactly when the string is something followed by the suffix |
| Text.Decimal | http/src/httpresponse.rs:30 | `{}` of a number is a non-empty digit string with no leading zero |
| Text.DecimalRoundTrip | http/src/httpresponse.rs:30 | reading the written number back gives the number |
| Requests.MethodFrom | http/src/httprequest.rs:10-17 | `GET` is `Get`, `POST` is `Post`, every other token is `Uninitialized`, and the conversion never fails |
| Requests.VersionFrom | http/src/httprequest.rs:26-33 | only `HTTP/1.1` is `V1_1`; `V2_0` is never produced |
| Requests.ProcessReqLine | http/src/httprequest.rs:81-91 | the request line panics exactly when it has fewer than three words; otherwise the path is a non-empty word without whitespace |
| Requests.ProcessHeaderLine | http/src/httprequest.rs:92-103 | key and value are trimmed; a line with a `:` gives a key without one; a line without `:` gives two empty strings |
| Requests.ReqLineOfWords | http/src/httprequest.rs:81-91 | method, path and version are the first three words of the line, and later words are ignored |
| Requests.ReqLineOfSpacedWords | http/src/httprequest.rs:81-91 | the same however the words are spaced (several spaces, tabs, whitespace at the ends): the fields are the first three words |
| Requests.ReqLineOfTabbedText | http/src/httprequest.rs:81-91 | `GET  /sd<TAB>HTTP/1.1`, with two spaces and a tab, reads as `Get`, `/sd`, `V1_1` |
| Requests.HeaderLineSplits | http/src/httprequest.rs:92-103 | a header line splits at its first `:` and both sides are trimmed |
| Requests.HeaderLineOfEntry | http/src/httprequest.rs:92-103 | `Key: Value` with a colon-free key and no surrounding whitespace reads as `(Key, Value)` |
| Requests.ClassifyKinds | http/src/httprequest.rs:59-69 | a line is a request line exactly when it mentions `HTTP` (malformed exactly when it then has fewer than three words), and its fields are what `process_req_line` returns; it is a header exactly when it has a `:` and no `HTTP`, and its key and value are what `process_header_line` returns, trimmed and with a `:`-free key; otherwise it is body text, unchanged |
| Requests.Apply | http/src/httprequest.rs:59-69 | one loop step fails exactly on a malformed request line; a request line sets method, path and version to its fields and changes nothing else, a header inserts its key and value into the map and changes nothing else, a body line sets the body to its text and changes nothing else |
| Requests.Parse | http/src/httprequest.rs:50-79 | `from` panics exactly when some line mentions `HTTP` and has fewer than three words |
| Requests.FromString | http/src/httprequest.rs:50-79 | the loop over the lines, with its mutable parsed values, computes the fold |
| Requests.FoldFailsIff | http/src/httprequest.rs:59-60 | parsing panics exactly when some line taken for a request line has fewer than three words |
| Requests.FoldRequestLine | http/src/httprequest.rs:52-54 | method, path and version come from the last request line; with none they stay `Uninitialized`, `Uninitialized` and `""` |
| Requests.FoldHeaders | http/src/httprequest.rs:64-66 | the header map has exactly the keys of the header lines, each with the value of its last line |
| Requests.FoldBody | http/src/httprequest.rs:56 | the body is the last line with neither `HTTP` nor `:`, an empty line included, and `""` when there is none |
| Requests.ClassifyRequestLine | http/src/httprequest.rs:59-63 | three words that contain `HTTP` form a request line with those fields |
| Requests.ClassifyHeaderLine | http/src/httprequest.rs:64-66 | a `Key: Value` line without `HTTP` is a header line with that key and value |
| Requests.ClassifyShortHttpLine | http/src/httprequest.rs:59-60 | a line that mentions `HTTP` and has fewer than three words is a malformed request line, even if it has a colon |
| Requests.UpgradeHeaderPanics | http/src/httprequest.rs:59-60 | a request holding the header `Upgrade: HTTP/2.0` makes the parser panic |
| Requests.ParseSmallRequest | http/src/httprequest.rs:50-79 | a request line, one header and the empty line parse to `Get`, `V1_1`, `/sd` and that one header |
| Requests.EnteredKeys | http/src/httprequest.rs:66 | inserting headers one by one adds exactly their keys |
| Requests.EnteredLastWins | http/src/httprequest.rs:66 | each inserted key holds the value of its last insertion |
| Requests.EnteredKeeps | http/src/httprequest.rs:66 | a key that no insertion names keeps its value |
| Requests.FoldHeaderKinds | http/src/httprequest.rs:64-66 | consecutive header lines fold into the map as the insertions do |
| Requests.ParseRequestLines | http/src/httprequest.rs:50-79 | a request written as request line, headers, empty line and body is read back as its method, path, version, headers and body |
| Requests.ParseRequestText | http/src/httprequest.rs:50-79 | the same for the CRLF-terminated text of that request |
| Requests.ParseRequestTextUnterminated | http/src/httprequest.rs:50-79 | the same when the body is not followed by a line ending |
| Requests.ParsePostmanRequest | http/src/httprequest.rs:120-140 | the test's Postman request parses to `Get`, `V1_1`, `/sd` and exactly its six headers |
| Responses.StatusText | http/src/httpresponse.rs:58-64 | 200, 400 and 500 get `OK`, `Bad Request` and `Internal Server Error`; every other code, 404 included, gets `Not Found` |
| Responses.Default | http/src/httpresponse.rs:14-24 | `HTTP/1.1`, code `200` with its own status text, no headers and no body |
| Responses.New | http/src/httpresponse.rs:42-66 | version `HTTP/1.1`, the given code and body, the table's status text; the given headers are kept, and absent headers become exactly `Content-Type: text/html` |
| Responses.Body | http/src/httpresponse.rs:93-98 | the stored body, or `""` when there is none |
| Responses.EntryLines | http/src/httpresponse.rs:87-88 | one `key:value` line, with no space, per key of the iteration order, in that order |
| Responses.HeaderBlockLines | http/src/httpresponse.rs:84-91 | reading the header block line by line gives back those header lines, when no key or value holds a line feed |
| Responses.Headers | http/src/httpresponse.rs:84-91 | the loop over the map writes `key:value` and CRLF for every entry, once each, in the map's iteration order; absent headers panic |
| Responses.ToWire | http/src/httpresponse.rs:26-39 | writing the response succeeds exactly when it has a header map |
| Responses.KeyOrderLength | http/src/httpresponse.rs:87 | an iteration order visits as many keys as the map has |
| Responses.SingletonKeyOrder | http/src/httpresponse.rs:87 | a one-entry map has one iteration order |
| Responses.DefaultDoesNotSerialise | http/src/httpresponse.rs:14-24 | the default response has no headers, so writing it panics |
| Responses.NewSerialises | http/src/httpresponse.rs:50-57 | a response made by `new` always has headers and can always be written |
| Responses.HeadText | http/src/httpresponse.rs:29-37 | the written response is the CRLF-terminated status line, header lines, Content-Length line and empty line, then the body |
| Responses.ReadWire | http/src/httpresponse.rs:29-37 | a reader finds the status line, the header lines, a Content-Length that reads back as the body's byte length, the empty line, then exactly the body |
| Responses.NewOkResponse | http/src/httpresponse.rs:105-117 | `new("200", None, Some("xxxx"))` equals the test's expected response |
| Responses.OkResponseWire | http/src/httpresponse.rs:118 | the built and the expected response are written alike, as the CRLF-terminated lines `HTTP/1.1 200 OK`, `Content-Type:text/html`, `Content-Length: 4` and the empty line followed by `xxxx`, whatever the iteration order |
| Handlers.LoadFile | httpserver/src/handler.rs:8-14 | a file's content is found exactly when the file exists |
| Handlers.SegmentsOfPath | httpserver/src/handler.rs:37 | the segments are `/`-free, one more than the `/`s in the path, and join with `/` back into the path |
| Handlers.PageNotFound | httpserver/src/handler.rs:28-32 | always 404 with the default headers and the `404.html` content, or an empty body when that file is absent |
| Handlers.ContentType | httpserver/src/handler.rs:44-50 | `text/css` for a `.css` name, otherwise `text/javascript` for `.js`, otherwise `text/html` |
| Handlers.StaticPage | httpserver/src/handler.rs:34-57 | panics exactly on a path without `/`, and otherwise answers 200 or 404 |
| Handlers.StaticRootAndHealth | httpserver/src/handler.rs:39-40 | segment `""` and segment `health` give 200 with `index.html` and `health.html` respectively, even when the file is absent |
| Handlers.StaticFile | httpserver/src/handler.rs:41-51 | any other existing file gives 200, the file as body and a Content-Type chosen by the suffix |
| Handlers.StaticMissingIsNotFound | httpserver/src/handler.rs:53 | a missing file gets exactly the 404 handler's response |
| Handlers.StaticUsesSegmentOne | httpserver/src/handler.rs:37-41 | two requests that agree on segment 1 get the same answer |
| Handlers.WebService | httpserver/src/handler.rs:69-85 | the web service always answers 200 or 404 |
| Handlers.WebServiceShortPath | httpserver/src/handler.rs:73-75 | a path with at most two `/` (at most three segments) gets the 404 page |
| Handlers.WebServiceOrders | httpserver/src/handler.rs:76-81 | segments 2 and 3 `shipping`/`orders` give 200, `application/json` and the orders document; segment 1 is not checked |
| Handlers.WebServiceOtherPath | httpserver/src/handler.rs:82 | any other segment 2 and 3 gives the 404 page |
| Router.Route | httpserver/src/router.rs:10-25 | non-GET methods select the 404 handler; a GET panics exactly when its path has no `/`, selects the web service exactly when segment 1 is `api`, and otherwise selects static pages |
| Router.Respond | httpserver/src/router.rs:11-22 | the response fails only when routing fails, and is always 200 or 404 |
| Router.RouteDependsOnMethodAndPath | httpserver/src/router.rs:11-22 | the choice depends only on the method and the path |
| Router.RespondNonGet | httpserver/src/router.rs:21 | POST and `Uninitialized` get the 404 page whatever the path |
| Router.PathSegments | httpserver/src/router.rs:14 | a path written as `/`-joined segments splits back into them |
| Router.RouteRoot | httpserver/src/router.rs:15-17 | `GET /` has segment 1 `""`, goes to static pages and gets the index page |
| Router.RouteApix | httpserver/src/router.rs:15-17 | `GET /apix` goes to static pages, since only `api` selects the web service |
| Router.RespondOrders | httpserver/src/router.rs:16 | a GET of `/api/shipping/orders/...` gets the orders document as JSON |
| Router.OrdersPathSegments | httpserver/src/router.rs:14 | `/api/shipping/orders` has the segments `""`, `api`, `shipping`, `orders` |
| Router.ShippingPathSegments | httpserver/src/router.rs:14 | `/api/shipping` has the segments `""`, `api`, `shipping` |
| Router.RouteOrders | httpserver/src/router.rs:16 | a GET of that path goes to the web service and gets 200 with the orders as JSON |
| Router.RouteShortApi | httpserver/src/router.rs:16 | a GET of `/api/shipping` goes to the web service but gets the 404 page |
| Exchange.ResponseHeadersReadBack | http/src/httpresponse.rs:88 | `process_header_line` reads each `key:value` line written by `headers()` as the entry it came from, when keys are `:`-free and keys and values trimmed; `from` takes such a line for that header when the line does not mention `HTTP` |
| Exchange.PostGetsNotFound | httpserver/src/router.rs:21 | a well-formed POST, once parsed, is answered with the 404 page |
| Exchange.OrdersRequestGetsJson | httpserver/src/handler.rs:76-81 | a well-formed GET of `/api/shipping/orders`, once parsed, is answered with the orders as JSON whatever its headers and body |

## Left out

- The TCP server and client binaries and the server's `main` are left out:
  they are socket I/O and start-up only, and they use a server module that
  is not part of this model.
- `send_response` and the stream write at the end of `Router::route` are
  left out because they are I/O. The model stops at the response value and
  its text (`Responses.ToWire`).
- `load_file` reads an environment variable and the filesystem. It is
  replaced by a map from file name to content (`Handlers.LoadFile`), so the
  public directory's location is not modelled.
- `load_json`, `serde_json::to_string` and the `OrderStatus` record are left
  out. Reading, parsing and encoding JSON is outside the model, so the orders
  body is an opaque string parameter, and the `unwrap` panics of
  `load_json` are left out.
- `HashMap` iteration order is not modelled. Every duplicate-free order of
  the keys is allowed (`Responses.IsKeyOrder`), and `ToWire` takes the order
  as a parameter.
- `HttpRequest`'s `HashMap` is a Dafny `map`, so hashing and capacity are not
  modelled.
- Lifetimes, borrowing and `Clone` are left out. Responses are values.
- Requests.ParsePostmanRequest: states the parse of `CrlfTerminated` of the
  test's eight lines, which spells out the test's content string. The model
  does not prove that the 200-character literal equals it character by
  character; the shorter `Requests.ParseSmallRequest` does state its parse
  on the literal text.
- Router.RouteOrders and Router.RouteShortApi: these take the path by its
  segments. `Router.OrdersPathSegments` and
  `Router.ShippingPathSegments` prove that the literal paths have those
  segments.
