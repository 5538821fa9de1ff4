/**
 * The connection handler (src/lib.rs, `handle_connection`): read one buffer,
 * parse it, serve a GET from the file cache, and compose the response.
 *
 * The socket is replaced by its observable effect: the bytes one `read`
 * delivered (None for a read error) and the response it would write (None
 * when nothing is written).  Bytes are modelled one `char` each.
 */
module Server {
  import opened Wrappers
  import opened Strings
  import opened Config
  import opened Http
  import opened FileStore

  /** VERSION SP CODE SP REASON CRLF CRLF, the Status-Line of section 6.1 of RFC 2616 and an empty line. */
  function StatusHead(code: HttpStatusCode): (head: string)
    ensures |head| >= 13 && head[..9] == HTTP_PROTO_VERSION + " "
    ensures head[|head| - 4..] == CRLF + CRLF
  {
    HTTP_PROTO_VERSION + " " + NatToString(code.Value().0) + " " + code.Value().1 + CRLF + CRLF
  }

  /** The response to a served GET: the 200 head followed by the body, no headers. */
  function OkResponse(body: string): (response: string)
    ensures |response| >= |body| + 12 && response[|response| - |body|..] == body
    ensures DecimalValue(response[9..12]) == 200
  {
    StatusHeadCode(HttpOk);
    var head := StatusHead(HttpOk);
    assert (head + body)[9..12] == head[9..12];
    head + body
  }

  /** The response to a rejected request: the head alone. */
  function ErrorResponse(e: HttpStatusCode): (response: string)
    ensures |response| >= 12 && DecimalValue(response[9..12]) == e.Value().0
    ensures response[|response| - 4..] == CRLF + CRLF
  {
    StatusHeadCode(e);
    StatusHead(e)
  }

  /** The numerals of the statuses the handler writes. */
  lemma CodeNumerals()
    ensures NatToString(200) == "200"
    ensures NatToString(400) == "400"
    ensures NatToString(404) == "404"
    ensures NatToString(501) == "501"
  {
    assert NatToString(20) == "20";
    assert NatToString(40) == "40";
    assert NatToString(50) == "50";
  }

  /** The 200 response: version, code and reason separated by spaces, an empty line, then the page. */
  lemma OkResponseText(body: string)
    ensures OkResponse(body) == "HTTP/1.1" + " " + "200" + " " + "OK" + "\r\n" + "\r\n" + body
    ensures OkResponse(body)[19..] == body
  {
    CodeNumerals();
  }

  /** The exact error responses of the parser's three rejections. */
  lemma BadRequestText()
    ensures ErrorResponse(BadRequest) == "HTTP/1.1" + " " + "400" + " " + "Bad request" + "\r\n" + "\r\n"
  {
    CodeNumerals();
  }

  lemma NotFoundText()
    ensures ErrorResponse(NotFound) == "HTTP/1.1" + " " + "404" + " " + "Not found" + "\r\n" + "\r\n"
  {
    CodeNumerals();
  }

  lemma NotImplementedText()
    ensures ErrorResponse(NotImplemented) == "HTTP/1.1" + " " + "501" + " " + "Not implemented" + "\r\n" + "\r\n"
  {
    CodeNumerals();
  }

  /** Characters 9 to 11 of a head with a three-digit number read back as that number. */
  lemma HeadNumeral(n: nat, reason: string)
    requires 100 <= n < 1000
    ensures |HTTP_PROTO_VERSION + " " + NatToString(n) + " " + reason + CRLF + CRLF| >= 12
    ensures DecimalValue((HTTP_PROTO_VERSION + " " + NatToString(n) + " " + reason + CRLF + CRLF)[9..12]) == n
  {
    var numeral := NatToString(n);
    NatToStringLength3(n);
    DecimalRoundTrip(n);
    var pre := HTTP_PROTO_VERSION + " ";
    var post := " " + reason + CRLF + CRLF;
    assert |pre| == 9;
    assert pre + numeral + " " + reason + CRLF + CRLF == pre + numeral + post;
    assert (pre + numeral + post)[9..12] == numeral;
  }

  lemma StatusHeadCode(code: HttpStatusCode)
    ensures |StatusHead(code)| >= 12
    ensures DecimalValue(StatusHead(code)[9..12]) == code.Value().0
  {
    var v := code.Value();
    HeadNumeral(v.0, v.1);
  }

  /** Distinct statuses never share an error response. */
  lemma ErrorResponseInjective(a: HttpStatusCode, b: HttpStatusCode)
    ensures ErrorResponse(a) == ErrorResponse(b) ==> a == b
  {
    StatusHeadCode(a);
    StatusHeadCode(b);
    StatusNumbersDistinct(a, b);
  }

  /** A 200 response is never mistaken for an error response, whatever the page. */
  lemma OkResponseIsNotError(b: HttpStatusCode, body: string)
    requires b != HttpOk
    ensures OkResponse(body) != ErrorResponse(b)
  {
    StatusHeadCode(b);
    StatusHeadCode(HttpOk);
    StatusNumbersDistinct(HttpOk, b);
    assert OkResponse(body)[9..12] == StatusHead(HttpOk)[9..12];
  }

  /** The 1024-byte read buffer: what the read delivered, then the zero bytes it was initialised with. */
  function Buffer(data: seq<char>): (buf: seq<char>)
    requires |data| <= BUF_SIZE
    ensures |buf| == BUF_SIZE && buf[..|data|] == data
    ensures forall i :: |data| <= i < BUF_SIZE ==> buf[i] == NUL
  {
    data + seq(BUF_SIZE - |data|, _ => NUL)
  }

  /**
   * What serving needs of the disk: a parsed GET names a readable file, as
   * the unwraps on `File::open` and `read_to_string` demand.
   */
  predicate Servable(parsed: Result<HttpRequest, HttpStatusCode>, fs: FileSystem)
  {
    parsed.Ok? && parsed.value.httpMethod == GET ==> PathString(parsed.value.reqUri.file) in fs
  }

  /** What the handler does with a parse outcome: the response written, and the cache entries afterwards. */
  function Serve(parsed: Result<HttpRequest, HttpStatusCode>, fs: FileSystem,
                 entries: map<string, EntryState>, now: Time): (r: (Option<string>, map<string, EntryState>))
    requires Servable(parsed, fs)
    ensures entries.Keys <= r.1.Keys
    ensures parsed.Err? ==> r.0.Some? && r.1 == entries
    ensures r.0.None? <==> parsed.Ok? && parsed.value.httpMethod != GET
    ensures parsed.Ok? && parsed.value.httpMethod == GET ==>
      r.1.Keys == entries.Keys + {PathString(parsed.value.reqUri.file)}
  {
    match parsed
    case Err(e) => (Some(ErrorResponse(e)), entries)
    case Ok(req) =>
      if req.httpMethod == GET then
        var key := PathString(req.reqUri.file);
        var read := ReadOf(OpenOf(entries, key), key, fs, now);
        (Some(OkResponse(read.0)), read.1)
      else
        (None, entries)
  }

  /** What the handler demands of one delivered buffer. */
  predicate Acceptable(received: Option<seq<char>>, canon: Canonicalizer, fs: FileSystem)
    requires canon(DOC_ROOT).Some?
  {
    received.Some? ==> |received.value| <= BUF_SIZE && Servable(ParseRequest(Buffer(received.value), canon), fs)
  }

  /** Specification of `handle_connection`: from what one read delivered to the response and the new cache. */
  function Respond(received: Option<seq<char>>, canon: Canonicalizer, fs: FileSystem,
                   entries: map<string, EntryState>, now: Time): (r: (Option<string>, map<string, EntryState>))
    requires canon(DOC_ROOT).Some?
    requires Acceptable(received, canon, fs)
    ensures entries.Keys <= r.1.Keys
    ensures received.None? ==> r == (None, entries)
  {
    match received
    case None => (None, entries)
    case Some(data) => Serve(ParseRequest(Buffer(data), canon), fs, entries, now)
  }

  /** The `match request` of `handle_connection`: serve a GET from the cache, or write the error head. */
  method ServeRequest(cache: FileCache, request: Result<HttpRequest, HttpStatusCode>, fs: FileSystem, now: Time)
    returns (response: Option<string>)
    requires cache.Valid()
    requires Servable(request, fs)
    modifies cache, cache.store.Values
    ensures cache.Valid()
    ensures (response, cache.Entries()) == Serve(request, fs, old(cache.Entries()), now)
  {
    ghost var before := cache.Entries();
    match request {
      case Ok(req) =>
        match req.httpMethod {
          case GET =>
            var key := PathString(req.reqUri.file);
            cache.Open(key, fs);
            ghost var afterOpen := cache.Entries();
            assert afterOpen == OpenOf(before, key);
            var indexPage := cache.Read(key, fs, now);
            ghost var read := ReadOf(afterOpen, key, fs, now);
            assert (indexPage, cache.Entries()) == read;
            response := Some(OkResponse(indexPage));
          case _ =>
            response := None;
        }
      case Err(e) =>
        response := Some(ErrorResponse(e));
    }
  }

  /** The zeroed 1024-byte buffer after one successful read of `data` into it. */
  method ReadIntoBuffer(data: seq<char>) returns (buf: array<char>)
    requires |data| <= BUF_SIZE
    ensures fresh(buf)
    ensures buf[..] == Buffer(data)
  {
    buf := new char[BUF_SIZE](_ => NUL);
    forall i | 0 <= i < |data| {
      buf[i] := data[i];
    }
  }

  /** The first half of `handle_connection`: fill the zeroed buffer, decode it and parse it. */
  method ReceiveRequest(data: seq<char>, canon: Canonicalizer) returns (request: Result<HttpRequest, HttpStatusCode>)
    requires |data| <= BUF_SIZE
    requires canon(DOC_ROOT).Some?
    ensures request == ParseRequest(Buffer(data), canon)
  {
    var buf := ReadIntoBuffer(data);
    request := Parse(buf[..], canon);
  }

  /** `handle_connection`: answer one connection from what a single read delivered. */
  method HandleConnection(cache: FileCache, received: Option<seq<char>>, canon: Canonicalizer,
                          fs: FileSystem, now: Time) returns (response: Option<string>)
    requires cache.Valid()
    requires canon(DOC_ROOT).Some?
    requires Acceptable(received, canon, fs)
    modifies cache, cache.store.Values
    ensures cache.Valid()
    ensures (response, cache.Entries()) == Respond(received, canon, fs, old(cache.Entries()), now)
  {
    if received.None? {
      return None;
    }
    var request := ReceiveRequest(received.value, canon);
    ghost var before := cache.Entries();
    assert Respond(received, canon, fs, before, now) == Serve(request, fs, before, now);
    response := ServeRequest(cache, request, fs, now);
  }

  /** Nothing is written exactly when the read failed: every parsed request is a GET. */
  lemma SilentOnlyOnReadError(received: Option<seq<char>>, canon: Canonicalizer, fs: FileSystem,
                              entries: map<string, EntryState>, now: Time)
    requires canon(DOC_ROOT).Some?
    requires Acceptable(received, canon, fs)
    ensures Respond(received, canon, fs, entries, now).0.None? <==> received.None?
    ensures received.None? ==> Respond(received, canon, fs, entries, now).1 == entries
  {
  }

  /**
   * A served GET answers 200 with the file as the cache holds it: the
   * cached text when the entry is populated, otherwise the file read now.
   */
  lemma GetServesFile(data: seq<char>, canon: Canonicalizer, fs: FileSystem,
                      entries: map<string, EntryState>, now: Time)
    requires canon(DOC_ROOT).Some?
    requires Acceptable(Some(data), canon, fs)
    requires AllConsistent(entries)
    requires ParseRequest(Buffer(data), canon).Ok?
    ensures var key := PathString(ParseRequest(Buffer(data), canon).value.reqUri.file);
      && key in fs
      && Respond(Some(data), canon, fs, entries, now).0 == Some(OkResponse(
           if key in entries && entries[key].contents.Some? then entries[key].contents.value else fs[key]))
      && key in Respond(Some(data), canon, fs, entries, now).1
      && AllConsistent(Respond(Some(data), canon, fs, entries, now).1)
  {
    var key := PathString(ParseRequest(Buffer(data), canon).value.reqUri.file);
    OpenThenRead(entries, key, fs, now);
  }

  /**
   * A rejected request gets the head of its status alone, one of 400, 404
   * and 501, and leaves the cache alone.
   */
  lemma ErrorServesHead(data: seq<char>, canon: Canonicalizer, fs: FileSystem,
                        entries: map<string, EntryState>, now: Time)
    requires canon(DOC_ROOT).Some?
    requires Acceptable(Some(data), canon, fs)
    requires ParseRequest(Buffer(data), canon).Err?
    ensures var e := ParseRequest(Buffer(data), canon).error;
      && e in {BadRequest, NotFound, NotImplemented}
      && Respond(Some(data), canon, fs, entries, now) == (Some(ErrorResponse(e)), entries)
  {
  }

  /** Serving the same parse outcome twice, with no invalidation in between, gives the same response. */
  lemma ServeTwiceSame(parsed: Result<HttpRequest, HttpStatusCode>, fs1: FileSystem, fs2: FileSystem,
                       entries: map<string, EntryState>, now1: Time, now2: Time)
    requires Servable(parsed, fs1) && Servable(parsed, fs2)
    requires AllConsistent(entries)
    ensures Serve(parsed, fs2, Serve(parsed, fs1, entries, now1).1, now2).0 == Serve(parsed, fs1, entries, now1).0
  {
    if parsed.Ok? && parsed.value.httpMethod == GET {
      var key := PathString(parsed.value.reqUri.file);
      var after := ReadOf(OpenOf(entries, key), key, fs1, now1).1;
      ReadTwiceSame(OpenOf(entries, key), key, fs1, now1, fs2, now2);
      OpenEnsuresEntry(after, key);
    }
  }

  /**
   * The same request answered twice with no invalidation in between gets
   * the same response, even if the disk changed in the meantime.
   */
  lemma RespondTwiceSame(data: seq<char>, canon: Canonicalizer, fs1: FileSystem, fs2: FileSystem,
                         entries: map<string, EntryState>, now1: Time, now2: Time)
    requires canon(DOC_ROOT).Some?
    requires Acceptable(Some(data), canon, fs1) && Acceptable(Some(data), canon, fs2)
    requires AllConsistent(entries)
    ensures Respond(Some(data), canon, fs2, Respond(Some(data), canon, fs1, entries, now1).1, now2).0
         == Respond(Some(data), canon, fs1, entries, now1).0
  {
    ServeTwiceSame(ParseRequest(Buffer(data), canon), fs1, fs2, entries, now1, now2);
  }

  /** The request line the parser sees is the text before the first CRLF of what was read. */
  lemma BufferedRequestLine(line: string, rest: string)
    requires '\r' !in line && NUL !in line
    requires |line + CRLF + rest| <= BUF_SIZE
    ensures RequestLine(Buffer(line + CRLF + rest)) == Split(line, " ")
  {
    var pad := seq(BUF_SIZE - |line + CRLF + rest|, _ => NUL);
    assert Buffer(line + CRLF + rest) == line + CRLF + (rest + pad);
    FirstKeptLine(line, rest + pad);
  }

  /** A word of a request line: no space, and nothing that ends the line or marks padding. */
  predicate Word(w: string)
  {
    forall i :: 0 <= i < |w| ==> w[i] != ' ' && w[i] != '\r' && w[i] != NUL
  }

  /** The text of a request whose request line is `token target version`, followed by `rest`. */
  function RequestText(token: string, target: string, version: string, rest: string): string
  {
    token + " " + target + " " + version + CRLF + rest
  }

  /** A request line of three words decides the parse outcome; the rest of the buffer only feeds the headers. */
  lemma ParsedByRequestLine(token: string, target: string, version: string, rest: string, canon: Canonicalizer)
    requires canon(DOC_ROOT).Some?
    requires Word(token) && Word(target) && Word(version)
    requires |RequestText(token, target, version, rest)| <= BUF_SIZE
    ensures var parsed := ParseRequest(Buffer(RequestText(token, target, version, rest)), canon);
      var outcome := ParseRequestLine([token, target, version], canon);
      && parsed.Err? == outcome.Err?
      && (parsed.Err? ==> parsed.error == outcome.error)
      && (parsed.Ok? ==> parsed.value.httpMethod == outcome.value.httpMethod
                         && parsed.value.reqUri.file == outcome.value.reqUri.file)
  {
    var line := token + " " + target + " " + version;
    assert '\r' !in line && NUL !in line;
    BufferedRequestLine(line, rest);
    ThreeTokens(token, target, version);
  }

  /** A request whose line is three words is served as that line alone decides. */
  lemma RespondByRequestLine(token: string, target: string, version: string, rest: string,
                             canon: Canonicalizer, fs: FileSystem, entries: map<string, EntryState>, now: Time)
    requires canon(DOC_ROOT).Some?
    requires Word(token) && Word(target) && Word(version)
    requires |RequestText(token, target, version, rest)| <= BUF_SIZE
    ensures Acceptable(Some(RequestText(token, target, version, rest)), canon, fs)
        <==> Servable(ParseRequestLine([token, target, version], canon), fs)
    ensures Servable(ParseRequestLine([token, target, version], canon), fs) ==>
      Respond(Some(RequestText(token, target, version, rest)), canon, fs, entries, now)
      == Serve(ParseRequestLine([token, target, version], canon), fs, entries, now)
  {
    var text := RequestText(token, target, version, rest);
    ParsedByRequestLine(token, target, version, rest, canon);
    var parsed := ParseRequest(Buffer(text), canon);
    var outcome := ParseRequestLine([token, target, version], canon);
    assert Servable(parsed, fs) <==> Servable(outcome, fs);
    if Servable(outcome, fs) {
      assert Respond(Some(text), canon, fs, entries, now) == Serve(parsed, fs, entries, now);
      if parsed.Ok? {
        assert PathString(parsed.value.reqUri.file) == PathString(outcome.value.reqUri.file);
      }
    }
  }

  /** `GET / v` and `GET /index.html v` get the same response and leave the cache alike. */
  lemma RootServedAsIndex(version: string, rest: string, canon: Canonicalizer, fs: FileSystem,
                          entries: map<string, EntryState>, now: Time)
    requires canon(DOC_ROOT).Some?
    requires Word(version)
    requires |RequestText("GET", "/" + DEFAULT_INDEX, version, rest)| <= BUF_SIZE
    requires Servable(Resolve(DEFAULT_INDEX, canon), fs)
    ensures Acceptable(Some(RequestText("GET", "/", version, rest)), canon, fs)
      && Acceptable(Some(RequestText("GET", "/" + DEFAULT_INDEX, version, rest)), canon, fs)
      && Respond(Some(RequestText("GET", "/", version, rest)), canon, fs, entries, now)
         == Respond(Some(RequestText("GET", "/" + DEFAULT_INDEX, version, rest)), canon, fs, entries, now)
  {
    var index := "/" + DEFAULT_INDEX;
    assert Word("GET") && Word("/") && Word(index);
    RootRequestIsIndexRequest(version, canon);
    assert |RequestText("GET", "/", version, rest)| <= BUF_SIZE;
    RespondByRequestLine("GET", "/", version, rest, canon, fs, entries, now);
    RespondByRequestLine("GET", index, version, rest, canon, fs, entries, now);
  }

  /** The words of the example request lines below. */
  lemma ScenarioWords()
    ensures Word("GET") && Word("POST") && Word("BOGUS") && Word("HTTP/1.1")
    ensures Word("/") && Word("/missing.html") && Word("/../secret")
  {
  }

  /** A root whose index.html holds "hi": `GET /` is answered with that page and caches it. */
  lemma IndexScenario(canon: Canonicalizer, root: Path, fs: FileSystem, now: Time)
    requires canon(DOC_ROOT) == Some(root)
    requires canon(DOC_ROOT + DEFAULT_INDEX) == Some(root + [DEFAULT_INDEX])
    requires fs == map[PathString(root + [DEFAULT_INDEX]) := "hi"]
    ensures Acceptable(Some(RequestText("GET", "/", "HTTP/1.1", CRLF)), canon, fs)
      && Respond(Some(RequestText("GET", "/", "HTTP/1.1", CRLF)), canon, fs, map[], now)
         == (Some("HTTP/1.1" + " " + "200" + " " + "OK" + "\r\n" + "\r\n" + "hi"),
             map[PathString(root + [DEFAULT_INDEX]) := EntryState(Some("hi"), Some(now))])
  {
    ScenarioWords();
    var file := root + [DEFAULT_INDEX];
    var key := PathString(file);
    var outcome := ParseRequestLine(["GET", "/", "HTTP/1.1"], canon);
    assert outcome.Ok? && outcome.value.httpMethod == GET && outcome.value.reqUri.file == file by {
      MethodDispatch(["GET", "/", "HTTP/1.1"], canon);
      RootIsDefaultIndex();
      assert root <= file;
    }
    RespondByRequestLine("GET", "/", "HTTP/1.1", CRLF, canon, fs, map[], now);
    FirstReadLoads(map[], key, fs, now);
    assert map[][key := EntryState(Some("hi"), Some(now))] == map[key := EntryState(Some("hi"), Some(now))];
    OkResponseText("hi");
  }

  /** A target that does not canonicalise is answered 404 and the cache is untouched. */
  lemma MissingScenario(canon: Canonicalizer, fs: FileSystem, entries: map<string, EntryState>, now: Time)
    requires canon(DOC_ROOT).Some?
    requires canon(DOC_ROOT + "missing.html").None?
    ensures Acceptable(Some(RequestText("GET", "/missing.html", "HTTP/1.1", CRLF)), canon, fs)
      && Respond(Some(RequestText("GET", "/missing.html", "HTTP/1.1", CRLF)), canon, fs, entries, now)
         == (Some("HTTP/1.1" + " " + "404" + " " + "Not found" + "\r\n" + "\r\n"), entries)
  {
    ScenarioWords();
    assert ParseRequestLine(["GET", "/missing.html", "HTTP/1.1"], canon) == Err(NotFound) by {
      MethodDispatch(["GET", "/missing.html", "HTTP/1.1"], canon);
      assert Candidate("/missing.html") == "missing.html";
    }
    RespondByRequestLine("GET", "/missing.html", "HTTP/1.1", CRLF, canon, fs, entries, now);
    NotFoundText();
  }

  /** A target that canonicalises outside the document root is answered 400. */
  lemma TraversalScenario(canon: Canonicalizer, root: Path, outside: Path, fs: FileSystem,
                          entries: map<string, EntryState>, now: Time)
    requires canon(DOC_ROOT) == Some(root)
    requires canon(DOC_ROOT + "../secret") == Some(outside) && !(root <= outside)
    ensures Acceptable(Some(RequestText("GET", "/../secret", "HTTP/1.1", CRLF)), canon, fs)
      && Respond(Some(RequestText("GET", "/../secret", "HTTP/1.1", CRLF)), canon, fs, entries, now)
         == (Some("HTTP/1.1" + " " + "400" + " " + "Bad request" + "\r\n" + "\r\n"), entries)
  {
    ScenarioWords();
    assert ParseRequestLine(["GET", "/../secret", "HTTP/1.1"], canon) == Err(BadRequest) by {
      MethodDispatch(["GET", "/../secret", "HTTP/1.1"], canon);
      assert Candidate("/../secret") == "../secret";
    }
    RespondByRequestLine("GET", "/../secret", "HTTP/1.1", CRLF, canon, fs, entries, now);
    BadRequestText();
  }

  /** An unknown method token is answered 400. */
  lemma UnknownMethodScenario(canon: Canonicalizer, fs: FileSystem, entries: map<string, EntryState>, now: Time)
    requires canon(DOC_ROOT).Some?
    ensures Acceptable(Some(RequestText("BOGUS", "/", "HTTP/1.1", CRLF)), canon, fs)
      && Respond(Some(RequestText("BOGUS", "/", "HTTP/1.1", CRLF)), canon, fs, entries, now)
         == (Some("HTTP/1.1" + " " + "400" + " " + "Bad request" + "\r\n" + "\r\n"), entries)
  {
    ScenarioWords();
    assert ParseRequestLine(["BOGUS", "/", "HTTP/1.1"], canon) == Err(BadRequest) by {
      MethodDispatch(["BOGUS", "/", "HTTP/1.1"], canon);
      assert MethodOf("BOGUS").None?;
    }
    RespondByRequestLine("BOGUS", "/", "HTTP/1.1", CRLF, canon, fs, entries, now);
    BadRequestText();
  }

  /** A known method other than GET is answered 501. */
  lemma PostScenario(canon: Canonicalizer, fs: FileSystem, entries: map<string, EntryState>, now: Time)
    requires canon(DOC_ROOT).Some?
    ensures Acceptable(Some(RequestText("POST", "/", "HTTP/1.1", CRLF)), canon, fs)
      && Respond(Some(RequestText("POST", "/", "HTTP/1.1", CRLF)), canon, fs, entries, now)
         == (Some("HTTP/1.1" + " " + "501" + " " + "Not implemented" + "\r\n" + "\r\n"), entries)
  {
    ScenarioWords();
    assert ParseRequestLine(["POST", "/", "HTTP/1.1"], canon) == Err(NotImplemented) by {
      MethodDispatch(["POST", "/", "HTTP/1.1"], canon);
      assert MethodOf("POST") == Some(POST);
    }
    RespondByRequestLine("POST", "/", "HTTP/1.1", CRLF, canon, fs, entries, now);
    NotImplementedText();
  }
}
