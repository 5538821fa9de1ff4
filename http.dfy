/**
 * The request parser (src/http/mod.rs): request text to a GET request for a
 * file inside the document root, or to the status code that rejects it.
 *
 * `std::fs::canonicalize` touches the disk; it is the parameter `canon`, a
 * function from a path string to the components of the canonical absolute
 * path, or None when the path does not exist.  `PathBuf::starts_with` is the
 * sequence-prefix test on components.
 */
module Http {
  import opened Wrappers
  import opened Strings
  import opened Config

  const CRLF: string := "\r\n"

  datatype HttpMethod = GET | POST | UPDATE | DELETE | CONNECT | TRACE | HEAD | OPTION

  datatype HttpStatusCode =
    | Continue | HttpOk | BadRequest | Unauthorized | Forbidden
    | NotFound | InternalServerError | NotImplemented
  {
    /** The status code and reason phrase written on the status line. */
    function Value(): (r: (nat, string))
      ensures 100 <= r.0 < 600
    {
      match this
      case Continue => (100, "Continue")
      case HttpOk => (200, "OK")
      case BadRequest => (400, "Bad request")
      case Unauthorized => (401, "Unauthorized")
      case Forbidden => (403, "Forbidden")
      case NotFound => (404, "Not found")
      case InternalServerError => (500, "Internal server error")
      case NotImplemented => (501, "Not implemented")
    }
  }

  /** Distinct statuses carry distinct numbers, so the number identifies the status. */
  lemma StatusNumbersDistinct(a: HttpStatusCode, b: HttpStatusCode)
    ensures a != b ==> a.Value().0 != b.Value().0
  {
  }

  /** The components of an absolute canonical path, below the filesystem root. */
  type Path = seq<string>

  /** `std::fs::canonicalize`, as seen by the server. */
  type Canonicalizer = string -> Option<Path>

  /** `Path::to_str` of an absolute path: `/` then the components separated by `/`. */
  function PathString(p: Path): string
  {
    if p == [] then "/" else ComponentsString(p)
  }

  function ComponentsString(p: Path): string
  {
    if p == [] then "" else "/" + p[0] + ComponentsString(p[1..])
  }

  datatype ReqUri = ReqUri(uri: string, file: Path)

  datatype HttpRequest = HttpRequest(
    httpMethod: HttpMethod,
    reqUri: ReqUri,
    protoVer: string,
    headers: Option<map<string, string>>)

  /**
   * `HttpRequest::new`: the `uri` is the file's path string with every
   * occurrence of the document root string removed.
   */
  function NewRequest(httpMethod: HttpMethod, file: Path, protoVer: string,
                      headers: Option<map<string, string>>): (r: HttpRequest)
    ensures r.httpMethod == httpMethod && r.reqUri.file == file
    ensures r.protoVer == protoVer && r.headers == headers
    ensures !Contains(PathString(file), DOC_ROOT) ==> r.reqUri.uri == PathString(file)
  {
    ReplaceAbsent(PathString(file), DOC_ROOT, "");
    HttpRequest(httpMethod, ReqUri(Replace(PathString(file), DOC_ROOT, ""), file), protoVer, headers)
  }

  /**
   * `replace` strips the document root string at its first occurrence and
   * at every later one: a path string made of `a`, the root string and `b`,
   * where no occurrence starts inside `a`, loses that occurrence and the
   * ones in `b`.
   */
  lemma NewRequestStripsRoot(httpMethod: HttpMethod, file: Path, protoVer: string,
                             headers: Option<map<string, string>>, a: string, b: string)
    requires PathString(file) == a + DOC_ROOT + b
    requires forall j :: 0 <= j < |a| ==> !OccursAt(PathString(file), DOC_ROOT, j)
    ensures NewRequest(httpMethod, file, protoVer, headers).reqUri.uri == a + Replace(b, DOC_ROOT, "")
  {
    var s := PathString(file);
    ReplaceFirst(a, DOC_ROOT, b, "");
    assert Replace(s, DOC_ROOT, "") == a + "" + Replace(b, DOC_ROOT, "");
    assert a + "" == a;
  }

  /** No occurrence of the root string starts before the `./html/` of `/a.b/c./html/d`. */
  lemma DottedPathPrefix()
    ensures forall j :: 0 <= j < 6 ==> !OccursAt("/a.b/c./html/d", DOC_ROOT, j)
  {
    var s := "/a.b/c./html/d";
    forall j | 0 <= j < 6
      ensures !OccursAt(s, DOC_ROOT, j)
    {
      assert s[j..j + |DOC_ROOT|][0] == s[j] && s[j..j + |DOC_ROOT|][1] == s[j + 1];
    }
  }

  /** The path string `/a.b/c./html/d` has the uri `/a.b/cd`: a `.` before the root string does not stop its removal. */
  lemma DottedPathUri()
    ensures NewRequest(GET, ["a.b", "c.", "html", "d"], HTTP_PROTO_VERSION, None).reqUri.uri == "/a.b/cd"
  {
    var file: Path := ["a.b", "c.", "html", "d"];
    assert PathString(file) == "/a.b/c./html/d" == "/a.b/c" + DOC_ROOT + "d";
    DottedPathPrefix();
    NewRequestStripsRoot(GET, file, HTTP_PROTO_VERSION, None, "/a.b/c", "d");
    SplitWhole("d", DOC_ROOT);
  }

  /** A path component as a file system names it: no `/`, and no `.` at its end. */
  predicate PlainComponent(c: string)
  {
    '/' !in c && (|c| == 0 || c[|c| - 1] != '.')
  }

  /** No `.` in `s` is immediately followed by `/`. */
  predicate NoDotSlashIn(s: string)
  {
    forall i :: 0 <= i < |s| - 1 ==> !(s[i] == '.' && s[i + 1] == '/')
  }

  /** In the string of plain components, no `.` is ever followed by `/`. */
  lemma {:induction false} NoDotSlash(p: Path)
    requires forall k :: 0 <= k < |p| ==> PlainComponent(p[k])
    ensures NoDotSlashIn(ComponentsString(p))
  {
    if p != [] {
      var c, t := p[0], ComponentsString(p[1..]);
      NoDotSlash(p[1..]);
      assert NoDotSlashIn(t);
      var s := ComponentsString(p);
      assert s == "/" + c + t;
      assert t == [] || t[0] == '/';
      assert PlainComponent(c);
      forall i | 0 <= i < |s| - 1
        ensures !(s[i] == '.' && s[i + 1] == '/')
      {
        if i == 0 {
          assert s[0] == '/';
        } else if i < |c| {
          assert s[i + 1] == c[i] && c[i] in c;
        } else if i == |c| {
          assert s[i] == c[|c| - 1];
        } else {
          var j := i - 1 - |c|;
          assert s[i] == t[j] && s[i + 1] == t[j + 1];
          assert 0 <= j < |t| - 1;
          assert !(t[j] == '.' && t[j + 1] == '/');
        }
      }
    }
  }

  /**
   * For a path of plain components the document root string never occurs,
   * so the `uri` is the whole absolute path string, not a root-relative one.
   */
  lemma PlainPathUri(httpMethod: HttpMethod, file: Path, protoVer: string,
                     headers: Option<map<string, string>>)
    requires forall k :: 0 <= k < |file| ==> PlainComponent(file[k])
    ensures NewRequest(httpMethod, file, protoVer, headers).reqUri.uri == PathString(file)
  {
    var s := PathString(file);
    NoDotSlash(file);
    assert file != [] ==> NoDotSlashIn(s);
    assert file != [] ==> s == ComponentsString(file);
    forall i
      ensures !OccursAt(s, DOC_ROOT, i)
    {
      if 0 <= i && i + |DOC_ROOT| <= |s| {
        assert s[i..i + |DOC_ROOT|][0] == s[i] && s[i..i + |DOC_ROOT|][1] == s[i + 1];
      }
    }
  }

  /** The lines of the request, dropping those that carry NUL padding from the read buffer. */
  function DropPadded(lines: seq<string>): (kept: seq<string>)
    ensures |kept| <= |lines|
    ensures forall l :: l in kept ==> l in lines && NUL !in l
    ensures forall k :: 0 <= k < |lines| && NUL !in lines[k] ==> lines[k] in kept
    ensures |lines| > 0 && NUL !in lines[0] ==> |kept| > 0 && kept[0] == lines[0]
  {
    if lines == [] then []
    else (if NUL in Trim(lines[0]) then [] else [lines[0]]) + DropPadded(lines[1..])
  }

  /** Dropping is an in-order filter: it distributes over concatenation ... */
  lemma {:induction false} DropPaddedAppend(a: seq<string>, b: seq<string>)
    ensures DropPadded(a + b) == DropPadded(a) + DropPadded(b)
  {
    if a != [] {
      assert (a + b)[0] == a[0];
      assert (a + b)[1..] == a[1..] + b;
      DropPaddedAppend(a[1..], b);
      var head := if NUL in Trim(a[0]) then [] else [a[0]];
      assert DropPadded(a + b) == head + DropPadded(a[1..] + b);
      assert DropPadded(a) == head + DropPadded(a[1..]);
      assert head + (DropPadded(a[1..]) + DropPadded(b)) == (head + DropPadded(a[1..])) + DropPadded(b);
    } else {
      assert a + b == b;
    }
  }

  /** ... and keeps a single line exactly when it is free of NUL. */
  lemma DropPaddedOne(line: string)
    ensures DropPadded([line]) == if NUL in line then [] else [line]
  {
    assert [line][1..] == [];
  }

  /** A text without NUL padding loses no line. */
  lemma {:induction false} DropPaddedClean(lines: seq<string>)
    requires forall k :: 0 <= k < |lines| ==> NUL !in lines[k]
    ensures DropPadded(lines) == lines
  {
    if lines != [] {
      assert NUL !in Trim(lines[0]);
      DropPaddedClean(lines[1..]);
    }
  }

  /** The CRLF-separated lines of the request that survive the NUL filter. */
  function KeptLines(request: string): (kept: seq<string>)
    ensures forall l :: l in kept ==> NUL !in l && !Contains(l, CRLF)
    ensures NUL !in request ==> Join(kept, CRLF) == request
  {
    var lines := Split(request, CRLF);
    if NUL !in request then
      assert forall k :: 0 <= k < |lines| ==> NUL !in lines[k] by {
        forall k | 0 <= k < |lines|
          ensures NUL !in lines[k]
        {
          JoinedPart(lines, CRLF, k);
        }
      }
      DropPaddedClean(lines);
      DropPadded(lines)
    else
      DropPadded(lines)
  }

  /** One header pair: the line cut at its first space, or ("none", "none") without one. */
  function HeaderPair(line: string): (kv: (string, string))
    ensures ' ' in line ==> line == kv.0 + " " + kv.1 && ' ' !in kv.0
    ensures ' ' !in line ==> kv == ("none", "none")
  {
    FirstChar(line, ' ');
    match IndexFrom(line, " ", 0)
    case None => ("none", "none")
    case Some(i) => (line[..i], line[i + 1..])
  }

  /** `collect` into a hash map: the pairs inserted in order, so a later pair wins on a repeated key. */
  function Collect(pairs: seq<(string, string)>): (m: map<string, string>)
    ensures forall k :: 0 <= k < |pairs| ==> pairs[k].0 in m
  {
    if pairs == [] then map[]
    else
      var kv := pairs[|pairs| - 1];
      Collect(pairs[..|pairs| - 1])[kv.0 := kv.1]
  }

  /** Every key of a collected map comes from the last pair that carries it, with that pair's value. */
  lemma {:induction false} CollectSource(pairs: seq<(string, string)>, key: string) returns (k: nat)
    requires key in Collect(pairs)
    ensures k < |pairs| && pairs[k] == (key, Collect(pairs)[key])
    ensures forall j :: k < j < |pairs| ==> pairs[j].0 != key
  {
    assert |pairs| > 0;
    var n := |pairs| - 1;
    var init := pairs[..n];
    if pairs[n].0 == key {
      k := n;
    } else {
      assert key in Collect(init) && Collect(pairs)[key] == Collect(init)[key];
      k := CollectSource(init, key);
      assert forall j :: 0 <= j < n ==> pairs[j] == init[j];
    }
  }

  /** The header map: each kept line cut into a pair, then collected; every line's key is present. */
  function HeaderMap(lines: seq<string>): (m: map<string, string>)
    ensures forall j :: 0 <= j < |lines| ==> HeaderPair(lines[j]).0 in m
  {
    var pairs := seq(|lines|, i requires 0 <= i < |lines| => HeaderPair(lines[i]));
    assert forall j :: 0 <= j < |lines| ==> pairs[j].0 == HeaderPair(lines[j]).0;
    Collect(pairs)
  }

  /** Every header comes from the last line that carries its key, with that line's value. */
  lemma HeaderMapSource(lines: seq<string>, key: string) returns (k: nat)
    requires key in HeaderMap(lines)
    ensures k < |lines| && HeaderPair(lines[k]) == (key, HeaderMap(lines)[key])
    ensures forall j :: k < j < |lines| ==> HeaderPair(lines[j]).0 != key
  {
    var pairs := seq(|lines|, i requires 0 <= i < |lines| => HeaderPair(lines[i]));
    assert forall j :: 0 <= j < |lines| ==> pairs[j] == HeaderPair(lines[j]);
    k := CollectSource(pairs, key);
  }

  function MethodName(m: HttpMethod): string
  {
    match m
    case GET => "GET"
    case POST => "POST"
    case UPDATE => "UPDATE"
    case DELETE => "DELETE"
    case CONNECT => "CONNECT"
    case TRACE => "TRACE"
    case HEAD => "HEAD"
    case OPTION => "OPTION"
  }

  /** The method named by the first token of the request line, if it is one the server knows. */
  function MethodOf(token: string): (m: Option<HttpMethod>)
    ensures m.Some? ==> MethodName(m.value) == token
  {
    if token == "GET" then Some(GET)
    else if token == "POST" then Some(POST)
    else if token == "UPDATE" then Some(UPDATE)
    else if token == "DELETE" then Some(DELETE)
    else if token == "CONNECT" then Some(CONNECT)
    else if token == "TRACE" then Some(TRACE)
    else if token == "HEAD" then Some(HEAD)
    else if token == "OPTION" then Some(OPTION)
    else None
  }

  lemma MethodNameRoundTrip(m: HttpMethod)
    ensures MethodOf(MethodName(m)) == Some(m)
  {
  }

  /**
   * The request target after the two rewrites of `parse_get`: `/` becomes
   * the default index, then one leading `/` is dropped from a longer target.
   */
  function Candidate(target: string): (c: string)
    ensures target == "/" ==> c == DEFAULT_INDEX
    ensures target != "/" && |target| > 1 && target[0] == '/' ==> "/" + c == target
    ensures target != "/" && !(|target| > 1 && target[0] == '/') ==> c == target
  {
    var t := if target == "/" then DEFAULT_INDEX else target;
    if |t| > 1 && t[0] == '/' then t[1..] else t
  }

  /** `/` and `/index.html` name the same candidate path. */
  lemma RootIsDefaultIndex()
    ensures Candidate("/") == Candidate("/" + DEFAULT_INDEX) == DEFAULT_INDEX
  {
  }

  /** The end of `parse_get`: canonicalise under the document root and confine the result to it. */
  function Resolve(candidate: string, canon: Canonicalizer): (r: Result<HttpRequest, HttpStatusCode>)
    requires canon(DOC_ROOT).Some?
    ensures r == Err(NotFound) <==> canon(DOC_ROOT + candidate).None?
    ensures r == Err(BadRequest) <==>
      canon(DOC_ROOT + candidate).Some? && !(canon(DOC_ROOT).value <= canon(DOC_ROOT + candidate).value)
    ensures r.Ok? ==> Some(r.value.reqUri.file) == canon(DOC_ROOT + candidate)
    ensures r.Ok? ==> canon(DOC_ROOT).value <= r.value.reqUri.file
    ensures r.Ok? ==> r.value.httpMethod == GET && r.value.protoVer == HTTP_PROTO_VERSION && r.value.headers == None
    ensures r.Ok? <==>
      canon(DOC_ROOT + candidate).Some? && canon(DOC_ROOT).value <= canon(DOC_ROOT + candidate).value
    ensures r.Err? ==> r.error in {NotFound, BadRequest}
  {
    match canon(DOC_ROOT + candidate)
    case None => Err(NotFound)
    case Some(uriPath) =>
      var docRootPath := canon(DOC_ROOT).value;
      if !(docRootPath <= uriPath) then Err(BadRequest)
      else Ok(NewRequest(GET, uriPath, HTTP_PROTO_VERSION, None))
  }

  /** `parse_get`, which rewrites the target token of the request line in place. */
  method ParseGet(reqVec: array<string>, canon: Canonicalizer) returns (r: Result<HttpRequest, HttpStatusCode>)
    requires reqVec.Length > 1
    requires canon(DOC_ROOT).Some?
    modifies reqVec
    ensures reqVec[..] == old(reqVec[..])[1 := Candidate(old(reqVec[1]))]
    ensures r == Resolve(Candidate(old(reqVec[1])), canon)
  {
    if reqVec[1] == "/" {
      reqVec[1] := DEFAULT_INDEX;
    }
    if |reqVec[1]| > 1 && reqVec[1][0] == '/' {
      reqVec[1] := reqVec[1][1..];
    }
    match canon(DOC_ROOT + reqVec[1]) {
      case None =>
        return Err(NotFound);
      case Some(uriPath) =>
        var docRootPath := canon(DOC_ROOT).value;
        if !(docRootPath <= uriPath) {
          return Err(BadRequest);
        }
        return Ok(NewRequest(GET, uriPath, HTTP_PROTO_VERSION, None));
    }
  }

  /** The request line's tokens (split on every space), from the first kept line. */
  function RequestLine(request: string): (tokens: seq<string>)
    ensures |tokens| == 0 <==> |KeptLines(request)| == 0
    ensures |tokens| > 0 ==> Join(tokens, " ") == KeptLines(request)[0]
    ensures forall k :: 0 <= k < |tokens| ==> !Contains(tokens[k], " ")
  {
    var rawHeaders := KeptLines(request);
    if |rawHeaders| == 0 then [] else Split(rawHeaders[0], " ")
  }

  /** Dispatch on the request line: arity check, then the method token. */
  function ParseRequestLine(reqVec: seq<string>, canon: Canonicalizer): (r: Result<HttpRequest, HttpStatusCode>)
    requires canon(DOC_ROOT).Some?
    ensures |reqVec| < 3 ==> r == Err(BadRequest)
    ensures r.Ok? ==> |reqVec| >= 3 && reqVec[0] == "GET"
    ensures r.Err? ==> r.error in {BadRequest, NotFound, NotImplemented}
  {
    if |reqVec| < 3 then Err(BadRequest)
    else
      match MethodOf(reqVec[0])
      case None => Err(BadRequest)
      case Some(GET) => Resolve(Candidate(reqVec[1]), canon)
      case Some(_) => Err(NotImplemented)
  }

  /** Specification of `HttpRequest::parse`. */
  function ParseRequest(request: string, canon: Canonicalizer): (r: Result<HttpRequest, HttpStatusCode>)
    requires canon(DOC_ROOT).Some?
    ensures r.Ok? ==> r.value.httpMethod == GET && r.value.protoVer == HTTP_PROTO_VERSION
    ensures r.Ok? ==> canon(DOC_ROOT).value <= r.value.reqUri.file
    ensures r.Ok? ==> r.value.headers == Some(HeaderMap(KeptLines(request)))
    ensures r.Err? ==> r.error in {BadRequest, NotFound, NotImplemented}
    ensures var tokens := RequestLine(request);
      r.Ok? <==> |tokens| >= 3 && tokens[0] == "GET" && Resolve(Candidate(tokens[1]), canon).Ok?
    ensures var tokens := RequestLine(request);
      r.Ok? ==> |tokens| >= 3 && Some(r.value.reqUri.file) == canon(DOC_ROOT + Candidate(tokens[1]))
  {
    match ParseRequestLine(RequestLine(request), canon)
    case Ok(hr) => Ok(NewRequest(hr.httpMethod, hr.reqUri.file, hr.protoVer, Some(HeaderMap(KeptLines(request)))))
    case Err(e) => Err(e)
  }

  /** Parsing agrees with dispatching the request line's tokens: same status, method and file. */
  lemma ParseAgreesWithRequestLine(request: string, canon: Canonicalizer)
    requires canon(DOC_ROOT).Some?
    ensures var outcome := ParseRequestLine(RequestLine(request), canon);
      var r := ParseRequest(request, canon);
      && (r.Err? <==> outcome.Err?)
      && (r.Err? ==> r.error == outcome.error)
      && (r.Ok? ==> r.value.httpMethod == outcome.value.httpMethod && r.value.reqUri.file == outcome.value.reqUri.file)
  {
  }

  /** The `match req_vec[0]` of `HttpRequest::parse`, on the token vector as a mutable array. */
  method Dispatch(tokens: seq<string>, canon: Canonicalizer) returns (result: Result<HttpRequest, HttpStatusCode>)
    requires canon(DOC_ROOT).Some?
    requires |tokens| >= 3
    ensures result == ParseRequestLine(tokens, canon)
  {
    var reqVec := new string[|tokens|](i requires 0 <= i < |tokens| => tokens[i]);
    assert reqVec[..] == tokens;
    match MethodOf(reqVec[0]) {
      case Some(GET) =>
        result := ParseGet(reqVec, canon);
      case Some(_) =>
        result := Err(NotImplemented);
      case None =>
        result := Err(BadRequest);
    }
  }

  /** `HttpRequest::parse`. */
  method Parse(request: string, canon: Canonicalizer) returns (r: Result<HttpRequest, HttpStatusCode>)
    requires canon(DOC_ROOT).Some?
    ensures r == ParseRequest(request, canon)
  {
    var rawHeaders := KeptLines(request);
    var reqHeaders := HeaderMap(rawHeaders);
    var tokens := if |rawHeaders| == 0 then [] else Split(rawHeaders[0], " ");
    assert tokens == RequestLine(request);
    if |tokens| < 3 {
      return Err(BadRequest);
    }
    var result := Dispatch(tokens, canon);
    match result {
      case Ok(hr) =>
        r := Ok(NewRequest(hr.httpMethod, hr.reqUri.file, hr.protoVer, Some(reqHeaders)));
      case Err(e) =>
        r := Err(e);
    }
  }


  /** A request line of fewer than three tokens, i.e. fewer than two spaces, is a bad request. */
  lemma ShortRequestLine(request: string, canon: Canonicalizer)
    requires canon(DOC_ROOT).Some?
    ensures |RequestLine(request)| < 3 <==>
      |KeptLines(request)| == 0 || Count(KeptLines(request)[0], ' ') < 2
    ensures |RequestLine(request)| < 3 ==> ParseRequest(request, canon) == Err(BadRequest)
  {
    if |KeptLines(request)| > 0 {
      SplitCharCount(KeptLines(request)[0], ' ');
    }
  }

  /** Dispatch on the method token: unknown is a bad request, every known method but GET is not implemented. */
  lemma MethodDispatch(reqVec: seq<string>, canon: Canonicalizer)
    requires canon(DOC_ROOT).Some?
    requires |reqVec| >= 3
    ensures MethodOf(reqVec[0]).None? ==> ParseRequestLine(reqVec, canon) == Err(BadRequest)
    ensures MethodOf(reqVec[0]).Some? && reqVec[0] != "GET" ==> ParseRequestLine(reqVec, canon) == Err(NotImplemented)
    ensures reqVec[0] == "GET" ==> ParseRequestLine(reqVec, canon) == Resolve(Candidate(reqVec[1]), canon)
    ensures ParseRequestLine(reqVec, canon).Ok? ==> reqVec[0] == "GET"
  {
  }

  /** The first kept line is the text before the first CRLF when that text has no CR and no NUL. */
  lemma FirstKeptLine(line: string, rest: string)
    requires '\r' !in line && NUL !in line
    ensures |KeptLines(line + CRLF + rest)| > 0 && KeptLines(line + CRLF + rest)[0] == line
    ensures RequestLine(line + CRLF + rest) == Split(line, " ")
  {
    SplitFirst(line, CRLF, rest);
  }

  /** A line of three space-free words splits into exactly those words. */
  lemma ThreeTokens(a: string, b: string, c: string)
    requires ' ' !in a && ' ' !in b && ' ' !in c
    ensures Split(a + " " + b + " " + c, " ") == [a, b, c]
  {
    assert a + " " + b + " " + c == a + " " + (b + " " + c);
    SplitFirst(a, " ", b + " " + c);
    SplitFirst(b, " ", c);
    SplitWhole(c, " ");
  }

  /** A well-formed GET line resolves its target's candidate path. */
  lemma GetLine(target: string, version: string, canon: Canonicalizer)
    requires canon(DOC_ROOT).Some?
    requires ' ' !in target && ' ' !in version
    ensures ParseRequestLine(Split("GET" + " " + target + " " + version, " "), canon)
         == Resolve(Candidate(target), canon)
  {
    ThreeTokens("GET", target, version);
    assert MethodOf("GET") == Some(GET);
  }

  /** `GET / v` and `GET /index.html v` parse to the same outcome, that of the default index. */
  lemma RootRequestIsIndexRequest(version: string, canon: Canonicalizer)
    requires canon(DOC_ROOT).Some?
    ensures ParseRequestLine(["GET", "/", version], canon) == Resolve(DEFAULT_INDEX, canon)
    ensures ParseRequestLine(["GET", "/" + DEFAULT_INDEX, version], canon) == Resolve(DEFAULT_INDEX, canon)
  {
    MethodDispatch(["GET", "/", version], canon);
    MethodDispatch(["GET", "/" + DEFAULT_INDEX, version], canon);
    RootIsDefaultIndex();
  }
}
