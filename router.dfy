/**
 * The routing of HandleConnection, as a function from a parsed request and
 * the served directory to the response and the directory afterwards.
 *
 * The directory is a map from file names to contents.  Whether creating or
 * reading a file fails for reasons other than a missing name (a name that
 * denotes the directory itself, permissions, a full disk) is a parameter,
 * Faults.
 */
module Router {
  import opened Wrappers
  import opened Bytes
  import opened Parser
  import opened HttpResponse
  import RequestProperties

  /** The served directory: file name to file contents. */
  type Files = map<seq<byte>, seq<byte>>

  /** Which filesystem calls fail although the name would allow them. */
  datatype Faults = Faults(createFails: bool, readFails: bool)

  /** The response of one connection and the directory after it. */
  datatype Outcome = Outcome(response: Response, files: Files)

  const STATUS_OK: seq<byte> := Octets("200 OK")
  const STATUS_CREATED: seq<byte> := Octets("201 Created")
  const STATUS_NOT_FOUND: seq<byte> := Octets("404 NotFound")
  const CONTENT_TYPE: seq<byte> := Octets("Content-Type")
  const TEXT_PLAIN: seq<byte> := Octets("text/plain")
  const OCTET_STREAM: seq<byte> := Octets("application/octet-stream")
  const USER_AGENT: seq<byte> := Octets("User-Agent")
  const POST: seq<byte> := Octets("POST")
  const ROOT_PATH: seq<byte> := Octets("/")
  const USER_AGENT_PATH: seq<byte> := Octets("/user-agent")
  const ECHO_PREFIX: seq<byte> := Octets("/echo")
  const ECHO_DIR: seq<byte> := Octets("/echo/")
  const FILES_PREFIX: seq<byte> := Octets("/files")
  const FILES_DIR: seq<byte> := Octets("/files/")

  /** "404 NotFound" with no fields and no content. */
  function NotFound(): Response {
    Response(STATUS_NOT_FOUND, [], None)
  }

  /** "200 OK" with no fields and no content, the answer to "/". */
  function PlainOk(): Response {
    Response(STATUS_OK, [], None)
  }

  /** "200 OK" carrying content of the given type, announced with its length. */
  function WithContent(contentType: seq<byte>, content: seq<byte>): Response {
    Response(STATUS_OK, [Field(CONTENT_TYPE, contentType), Field(CONTENT_LENGTH, Decimal(|content|))], Some(content))
  }

  /** "201 Created", announcing a length n but carrying no content. */
  function Created(n: nat): Response {
    Response(STATUS_CREATED, [Field(CONTENT_TYPE, TEXT_PLAIN), Field(CONTENT_LENGTH, Decimal(n))], None)
  }

  /**
   * ReadEchoMessage: the text after the first "/echo/", trimmed; empty when
   * there is none.  A message is a piece of the path after "/echo/", with no
   * white space at its ends.
   */
  function ReadEchoMessage(path: seq<byte>): (m: seq<byte>)
    ensures m != [] ==> Cut(path, ECHO_DIR).found && |ECHO_DIR| + |m| <= |path|
    ensures m != [] ==> !IsSpace(m[0]) && !IsSpace(m[|m| - 1])
  {
    TrimSpace(Cut(path, ECHO_DIR).after)
  }

  /**
   * The file name of a /files request: the text after the first "/files/",
   * trimmed; empty when there is none.
   */
  function FileName(path: seq<byte>): (name: seq<byte>)
    ensures name != [] ==> Cut(path, FILES_DIR).found && |FILES_DIR| + |name| <= |path|
    ensures name != [] ==> !IsSpace(name[0]) && !IsSpace(name[|name| - 1])
  {
    TrimSpace(Cut(path, FILES_DIR).after)
  }

  /** The User-Agent header, or the empty string (Go's zero value) when it is absent. */
  function UserAgent(headers: Headers): seq<byte> {
    if USER_AGENT in headers then headers[USER_AGENT] else []
  }

  /**
   * HandleFilePost: create (or truncate) the file and write the body into it.
   * It answers 404 exactly when creating fails, and then the directory is
   * unchanged; otherwise the file holds the body and no other file changes.
   */
  function FilePost(files: Files, name: seq<byte>, body: seq<byte>, faults: Faults): (out: Outcome)
    ensures out.response == NotFound() <==> faults.createFails
    ensures faults.createFails ==> out.files == files
    ensures !faults.createFails ==> out.files.Keys == files.Keys + {name} && out.files[name] == body
    ensures forall k | k in files && k != name :: k in out.files && out.files[k] == files[k]
  {
    if faults.createFails then Outcome(NotFound(), files)
    else Outcome(Created(|body|), files[name := body])
  }

  /**
   * HandleFileGet: Stat fails for a missing name, then ReadFile may fail.
   * Content is sent exactly when the file exists and can be read, and it is
   * the file's contents; every failure is a 404.
   */
  function FileGet(files: Files, name: seq<byte>, faults: Faults): (r: Response)
    ensures r.content.Some? <==> name in files && !faults.readFails
    ensures r.content.Some? ==> r.content.value == files[name] && r.status == STATUS_OK
    ensures r.content.None? ==> r == NotFound()
  {
    if name !in files then NotFound()
    else if faults.readFails then NotFound()
    else WithContent(OCTET_STREAM, files[name])
  }

  /**
   * The routing of HandleConnection: the first matching rule wins.  The
   * status is one of the three the server writes, and the directory either
   * stays as it was or gains the body of a POST under "/files".
   */
  function Route(req: Request, files: Files, faults: Faults): (out: Outcome)
    ensures out.response.status in {STATUS_OK, STATUS_CREATED, STATUS_NOT_FOUND}
    ensures out.files == files
         || (req.verb == POST && HasPrefix(req.path, FILES_PREFIX)
             && out.files == files[FileName(req.path) := req.body])
  {
    if req.path == ROOT_PATH then Outcome(PlainOk(), files)
    else if req.path == USER_AGENT_PATH then Outcome(WithContent(TEXT_PLAIN, UserAgent(req.headers)), files)
    else if HasPrefix(req.path, ECHO_PREFIX) then Outcome(WithContent(TEXT_PLAIN, ReadEchoMessage(req.path)), files)
    else if HasPrefix(req.path, FILES_PREFIX) then
      var name := FileName(req.path);
      if req.verb == POST then
        var out := FilePost(files, name, req.body, faults);
        assert out == if faults.createFails then Outcome(NotFound(), files)
                      else Outcome(Created(|req.body|), files[name := req.body]);
        out
      else Outcome(FileGet(files, name, faults), files)
    else Outcome(NotFound(), files)
  }

  // ---------------------------------------------------------------------
  // The octets of each response, in the chunks the source writes
  // ---------------------------------------------------------------------

  /** "HTTP/1.1 404 NotFound\r\n\r\n". */
  lemma NotFoundWire()
    ensures Wire(NotFound()) == Octets("HTTP/1.1 404 NotFound\r\n\r\n")
  {
    assert Wire(NotFound()) == STATUS_PREFIX + STATUS_NOT_FOUND + CRLF + CRLF;
  }

  /** "HTTP/1.1 200 OK\r\n\r\n". */
  lemma PlainOkWire()
    ensures Wire(PlainOk()) == Octets("HTTP/1.1 200 OK\r\n\r\n")
  {
    assert Wire(PlainOk()) == STATUS_PREFIX + STATUS_OK + CRLF + CRLF;
  }

  /** The lines of a two-field response, written field by field. */
  lemma TwoFieldWire(status: seq<byte>, contentType: seq<byte>, length: seq<byte>, content: Option<seq<byte>>)
    ensures Wire(Response(status, [Field(CONTENT_TYPE, contentType), Field(CONTENT_LENGTH, length)], content))
         == STATUS_PREFIX + status + CRLF
          + (CONTENT_TYPE + FIELD_SEP + contentType + CRLF)
          + (CONTENT_LENGTH + FIELD_SEP) + length + (CRLF + CRLF)
          + ContentPart(content)
  {
    var fields := [Field(CONTENT_TYPE, contentType), Field(CONTENT_LENGTH, length)];
    var typeLine := CONTENT_TYPE + FIELD_SEP + contentType + CRLF;
    var lengthLine := CONTENT_LENGTH + FIELD_SEP + length + CRLF;
    assert fields[1..] == [Field(CONTENT_LENGTH, length)];
    assert FieldLines(fields[1..][1..]) == [];
    assert FieldLines(fields[1..]) == lengthLine;
    assert FieldLines(fields) == typeLine + lengthLine;
    assert lengthLine + CRLF == (CONTENT_LENGTH + FIELD_SEP) + length + (CRLF + CRLF);
  }

  /**
   * A 200 response with content is "HTTP/1.1 200 OK\r\n", "Content-Type:
   * <type>\r\n", "Content-Length: <n>", "\r\n\r\n", the content and "\r\n",
   * n being the content's length in octets.
   */
  lemma WithContentWire(contentType: seq<byte>, content: seq<byte>)
    ensures Wire(WithContent(contentType, content))
         == Octets("HTTP/1.1 200 OK\r\n")
          + (Octets("Content-Type: ") + contentType + CRLF)
          + Octets("Content-Length: ") + Decimal(|content|)
          + Octets("\r\n\r\n")
          + (content + CRLF)
  {
    TwoFieldWire(STATUS_OK, contentType, Decimal(|content|), Some(content));
    Chunks();
  }

  /** The same octets, grouped as the six writes of HandleFileGet. */
  lemma WithContentChunks(contentType: seq<byte>, content: seq<byte>)
    ensures Wire(WithContent(contentType, content))
         == Octets("HTTP/1.1 200 OK\r\n")
          + (Octets("Content-Type: ") + contentType + CRLF)
          + (Octets("Content-Length: ") + Decimal(|content|))
          + Octets("\r\n\r\n")
          + (content + Octets("\r\n"))
  {
    WithContentWire(contentType, content);
    Chunks();
    RegroupSix(Octets("HTTP/1.1 200 OK\r\n"), Octets("Content-Type: ") + contentType + CRLF,
      Octets("Content-Length: "), Decimal(|content|), Octets("\r\n\r\n"), content + CRLF);
  }

  /** The constant chunks the source writes, in terms of the response's parts. */
  lemma Chunks()
    ensures STATUS_PREFIX + STATUS_OK + CRLF == Octets("HTTP/1.1 200 OK\r\n")
    ensures STATUS_PREFIX + STATUS_CREATED + CRLF == Octets("HTTP/1.1 201 Created\r\n")
    ensures CONTENT_TYPE + FIELD_SEP == Octets("Content-Type: ")
    ensures CONTENT_LENGTH + FIELD_SEP == Octets("Content-Length: ")
    ensures CRLF + CRLF == Octets("\r\n\r\n")
    ensures CRLF == Octets("\r\n")
  {
  }

  /** The two content types, as the source writes their lines. */
  lemma ContentTypeLines()
    ensures Octets("Content-Type: ") + TEXT_PLAIN + CRLF == Octets("Content-Type: text/plain\r\n")
    ensures Octets("Content-Type: ") + OCTET_STREAM + CRLF == Octets("Content-Type: application/octet-stream\r\n")
  {
  }

  /**
   * A 201 response is "HTTP/1.1 201 Created\r\n", "Content-Type:
   * text/plain\r\n" and "Content-Length: <n>\r\n\r\n", with nothing after.
   */
  lemma CreatedWire(n: nat)
    ensures Wire(Created(n))
         == Octets("HTTP/1.1 201 Created\r\n")
          + Octets("Content-Type: text/plain\r\n")
          + (Octets("Content-Length: ") + Decimal(n) + Octets("\r\n\r\n"))
  {
    TwoFieldWire(STATUS_CREATED, TEXT_PLAIN, Decimal(n), None);
    Chunks();
    ContentTypeLines();
  }

  // ---------------------------------------------------------------------
  // ReadEchoMessage
  // ---------------------------------------------------------------------

  /** With "/echo/" in the path, the message is the trimmed text after its first occurrence. */
  lemma EchoMessageAfterFirst(path: seq<byte>)
    requires Index(path, ECHO_DIR).Some?
    ensures var k := Index(path, ECHO_DIR).value;
      k + |ECHO_DIR| <= |path| && ReadEchoMessage(path) == TrimSpace(path[k + |ECHO_DIR|..])
  {
    var k := Index(path, ECHO_DIR).value;
    var pre, rest := path[..k], path[k + |ECHO_DIR|..];
    assert path == pre + ECHO_DIR + rest;
    CutAfter(pre, ECHO_DIR, rest);
  }

  /** Without "/echo/" in the path, the message is empty. */
  lemma EchoMessageAbsent(path: seq<byte>)
    requires Index(path, ECHO_DIR).None?
    ensures ReadEchoMessage(path) == []
  {
    TrimSpaceOf([], [], []);
  }

  /** A message without white space at its ends, sent as "/echo/<message>", comes back unchanged. */
  lemma EchoMessageOf(m: seq<byte>)
    requires m != [] ==> !IsSpace(m[0]) && !IsSpace(m[|m| - 1])
    ensures ReadEchoMessage(ECHO_DIR + m) == m
  {
    CutAfter([], ECHO_DIR, m);
    assert [] + ECHO_DIR + m == ECHO_DIR + m;
    TrimSpaceOf([], m, []);
    assert [] + m + [] == m;
  }

  /** A file name without white space at its ends, sent as "/files/<name>", is that name. */
  lemma FileNameOf(name: seq<byte>)
    requires name != [] ==> !IsSpace(name[0]) && !IsSpace(name[|name| - 1])
    ensures FileName(FILES_DIR + name) == name
  {
    CutAfter([], FILES_DIR, name);
    assert [] + FILES_DIR + name == FILES_DIR + name;
    TrimSpaceOf([], name, []);
    assert [] + name + [] == name;
  }

  // ---------------------------------------------------------------------
  // The routes, first match wins
  // ---------------------------------------------------------------------

  /** A path under "/files" matches none of the earlier rules. */
  lemma FilesPathPassesEarlierRules(path: seq<byte>)
    requires HasPrefix(path, FILES_PREFIX)
    ensures path != ROOT_PATH && path != USER_AGENT_PATH && !HasPrefix(path, ECHO_PREFIX)
  {
    assert path[1] == FILES_PREFIX[1] == 102;
    assert USER_AGENT_PATH[1] == 117 && ECHO_PREFIX[1] == 101;
    assert |path| >= 6 > |ROOT_PATH|;
  }

  /** The path "/" is answered with "HTTP/1.1 200 OK\r\n\r\n". */
  lemma RouteRoot(req: Request, files: Files, faults: Faults)
    requires req.path == ROOT_PATH
    ensures var out := Route(req, files, faults);
      Wire(out.response) == Octets("HTTP/1.1 200 OK\r\n\r\n") && out.files == files
  {
    PlainOkWire();
  }

  /**
   * The User-Agent the route echoes is the value of the last header line
   * with that key.
   */
  lemma UserAgentOfLastLine(ls: seq<seq<byte>>, i: nat)
    requires RequestProperties.Keyed(ls) && i < |ls|
    requires HeaderKey(ls[i]) == USER_AGENT
    requires RequestProperties.KeyAvoided(ls, i + 1, USER_AGENT)
    ensures UserAgent(RequestProperties.EnterAll(map[], ls)) == HeaderValue(ls[i])
  {
    RequestProperties.LastLineWins(map[], ls, i);
  }

  /** Without a User-Agent line the route echoes the empty string. */
  lemma UserAgentAbsent(ls: seq<seq<byte>>)
    requires RequestProperties.Keyed(ls)
    requires RequestProperties.KeyAvoided(ls, 0, USER_AGENT)
    ensures UserAgent(RequestProperties.EnterAll(map[], ls)) == []
  {
    RequestProperties.KeyUntouched(map[], ls, USER_AGENT);
  }

  /** The path "/user-agent" is answered with the User-Agent header's value as text. */
  lemma RouteUserAgent(req: Request, files: Files, faults: Faults)
    requires req.path == USER_AGENT_PATH
    ensures var out := Route(req, files, faults);
      var agent := UserAgent(req.headers);
      && out.files == files
      && Wire(out.response)
         == Octets("HTTP/1.1 200 OK\r\n") + Octets("Content-Type: text/plain\r\n")
          + Octets("Content-Length: ") + Decimal(|agent|) + Octets("\r\n\r\n") + (agent + CRLF)
  {
    assert req.path != ROOT_PATH;
    WithContentWire(TEXT_PLAIN, UserAgent(req.headers));
    ContentTypeLines();
  }

  /** A path beginning "/echo" (other than the two above) is answered with the echo message as text. */
  lemma RouteEcho(req: Request, files: Files, faults: Faults)
    requires req.path != ROOT_PATH && req.path != USER_AGENT_PATH && HasPrefix(req.path, ECHO_PREFIX)
    ensures var out := Route(req, files, faults);
      var message := ReadEchoMessage(req.path);
      && out.files == files
      && Wire(out.response)
         == Octets("HTTP/1.1 200 OK\r\n") + Octets("Content-Type: text/plain\r\n")
          + Octets("Content-Length: ") + Decimal(|message|) + Octets("\r\n\r\n") + (message + CRLF)
  {
    WithContentWire(TEXT_PLAIN, ReadEchoMessage(req.path));
    ContentTypeLines();
  }

  /**
   * POST to a path under "/files" stores the body under the file name and
   * answers 201 announcing the body's length; when the file cannot be
   * created it answers 404 and stores nothing.
   */
  lemma RouteFilePost(req: Request, files: Files, faults: Faults)
    requires HasPrefix(req.path, FILES_PREFIX) && req.verb == POST
    ensures var out := Route(req, files, faults);
      if faults.createFails then
        Wire(out.response) == Octets("HTTP/1.1 404 NotFound\r\n\r\n") && out.files == files
      else
        && out.files == files[FileName(req.path) := req.body]
        && Wire(out.response)
           == Octets("HTTP/1.1 201 Created\r\n") + Octets("Content-Type: text/plain\r\n")
            + (Octets("Content-Length: ") + Decimal(|req.body|) + Octets("\r\n\r\n"))
  {
    FilesPathPassesEarlierRules(req.path);
    NotFoundWire();
    CreatedWire(|req.body|);
  }

  /**
   * Any other method on a path under "/files" reads the file: its contents
   * as an octet stream when it exists and can be read, 404 otherwise; the
   * directory is unchanged.
   */
  lemma RouteFileGet(req: Request, files: Files, faults: Faults)
    requires HasPrefix(req.path, FILES_PREFIX) && req.verb != POST
    ensures var out := Route(req, files, faults);
      var name := FileName(req.path);
      && out.files == files
      && (name in files && !faults.readFails ==>
           Wire(out.response)
           == Octets("HTTP/1.1 200 OK\r\n") + Octets("Content-Type: application/octet-stream\r\n")
            + Octets("Content-Length: ") + Decimal(|files[name]|) + Octets("\r\n\r\n") + (files[name] + CRLF))
      && (name !in files || faults.readFails ==>
           Wire(out.response) == Octets("HTTP/1.1 404 NotFound\r\n\r\n"))
  {
    FilesPathPassesEarlierRules(req.path);
    var name := FileName(req.path);
    NotFoundWire();
    if name in files {
      WithContentWire(OCTET_STREAM, files[name]);
      ContentTypeLines();
    }
  }

  /** Every other path is answered with "HTTP/1.1 404 NotFound\r\n\r\n". */
  lemma RouteNotFound(req: Request, files: Files, faults: Faults)
    requires req.path != ROOT_PATH && req.path != USER_AGENT_PATH
    requires !HasPrefix(req.path, ECHO_PREFIX) && !HasPrefix(req.path, FILES_PREFIX)
    ensures var out := Route(req, files, faults);
      Wire(out.response) == Octets("HTTP/1.1 404 NotFound\r\n\r\n") && out.files == files
  {
    NotFoundWire();
  }

  /**
   * Only a POST under "/files" whose file can be created changes the
   * directory, and it changes exactly one entry, to the request body.
   */
  lemma OnlyFilePostWrites(req: Request, files: Files, faults: Faults)
    ensures Route(req, files, faults).files
         == if req.verb == POST && HasPrefix(req.path, FILES_PREFIX) && !faults.createFails
            then files[FileName(req.path) := req.body]
            else files
  {
    if HasPrefix(req.path, FILES_PREFIX) {
      FilesPathPassesEarlierRules(req.path);
      FilesRouteWrites(req, files, faults);
    } else {
      OtherRoutesKeepFiles(req, files, faults);
    }
  }

  /** A request under "/files" writes the file exactly when it is a POST whose file can be created. */
  lemma FilesRouteWrites(req: Request, files: Files, faults: Faults)
    requires HasPrefix(req.path, FILES_PREFIX)
    requires req.path != ROOT_PATH && req.path != USER_AGENT_PATH && !HasPrefix(req.path, ECHO_PREFIX)
    ensures Route(req, files, faults).files
         == if req.verb == POST && !faults.createFails then files[FileName(req.path) := req.body] else files
  {
  }

  /** Paths outside "/files" leave the directory unchanged. */
  lemma OtherRoutesKeepFiles(req: Request, files: Files, faults: Faults)
    requires !HasPrefix(req.path, FILES_PREFIX)
    ensures Route(req, files, faults).files == files
  {
    var out := Route(req, files, faults);
    if req.path == ROOT_PATH {
      assert out == Outcome(PlainOk(), files);
    } else if req.path == USER_AGENT_PATH {
      assert out == Outcome(WithContent(TEXT_PLAIN, UserAgent(req.headers)), files);
    } else if HasPrefix(req.path, ECHO_PREFIX) {
      assert out == Outcome(WithContent(TEXT_PLAIN, ReadEchoMessage(req.path)), files);
    } else {
      assert out == Outcome(NotFound(), files);
    }
  }

  /** Posting a body to a file and then getting that file returns the posted body. */
  lemma PostThenGet(post: Request, get: Request, files: Files, faults: Faults)
    requires post.verb == POST && HasPrefix(post.path, FILES_PREFIX)
    requires get.verb != POST && HasPrefix(get.path, FILES_PREFIX)
    requires FileName(post.path) == FileName(get.path)
    requires !faults.createFails && !faults.readFails
    ensures Route(get, Route(post, files, faults).files, faults).response == WithContent(OCTET_STREAM, post.body)
    ensures ReadReply(Wire(Route(get, Route(post, files, faults).files, faults).response))
         == Some(Reply(STATUS_OK, WithContent(OCTET_STREAM, post.body).fields, post.body, CRLF))
  {
    FilesPathPassesEarlierRules(post.path);
    FilesPathPassesEarlierRules(get.path);
    var name := FileName(get.path);
    var stored := Route(post, files, faults).files;
    assert stored == files[name := post.body];
    assert Route(get, stored, faults).response == FileGet(stored, name, faults);
    ContentTypesReadable();
    ReadWithContent(OCTET_STREAM, post.body);
  }

  // ---------------------------------------------------------------------
  // What an HTTP/1.1 client reads back
  // ---------------------------------------------------------------------

  /** The fixed parts of the server's responses can be read back. */
  lemma ConstantsWellFormed()
    ensures CR !in STATUS_OK && CR !in STATUS_CREATED && CR !in STATUS_NOT_FOUND
    ensures COLON !in CONTENT_TYPE && CR !in CONTENT_TYPE
    ensures COLON !in CONTENT_LENGTH && CR !in CONTENT_LENGTH
    ensures CR !in TEXT_PLAIN && CR !in OCTET_STREAM
    ensures CONTENT_TYPE != CONTENT_LENGTH
  {
    StatusesWellFormed();
    FieldNamesWellFormed();
    ContentTypesReadable();
    FieldNamesDiffer();
  }

  /** The status lines hold no "\r". */
  lemma StatusesWellFormed()
    ensures CR !in STATUS_OK && CR !in STATUS_CREATED && CR !in STATUS_NOT_FOUND
  {
  }

  /** The field names hold neither ':' nor "\r". */
  lemma FieldNamesWellFormed()
    ensures COLON !in CONTENT_TYPE && CR !in CONTENT_TYPE
    ensures COLON !in CONTENT_LENGTH && CR !in CONTENT_LENGTH
  {
  }

  /** Content-Type is not Content-Length. */
  lemma FieldNamesDiffer()
    ensures CONTENT_TYPE != CONTENT_LENGTH
  {
    assert CONTENT_TYPE[8] != CONTENT_LENGTH[8];
  }

  /**
   * A 200 response with content is read back with exactly its content; the
   * closing "\r\n" is left over after it.
   */
  lemma ReadWithContent(contentType: seq<byte>, content: seq<byte>)
    requires CR !in contentType
    ensures ReadReply(Wire(WithContent(contentType, content)))
         == Some(Reply(STATUS_OK, WithContent(contentType, content).fields, content, CRLF))
  {
    var r := WithContent(contentType, content);
    ConstantsWellFormed();
    DigitsNotSpace(Decimal(|content|));
    assert FieldWellFormed(r.fields[0]) && FieldWellFormed(r.fields[1]);
    DeclaredDecimal(r.fields[0], |content|, []);
    assert r.fields == [r.fields[0], Field(CONTENT_LENGTH, Decimal(|content|))] + [];
    ReadFramed(r, content);
  }

  /**
   * A 201 response announces the posted body's length but carries no
   * content, so a client completes it only when the body was empty.
   */
  lemma ReadCreated(n: nat)
    ensures ReadReply(Wire(Created(n))).None? <==> n > 0
    ensures n == 0 ==> ReadReply(Wire(Created(n))) == Some(Reply(STATUS_CREATED, Created(n).fields, [], []))
  {
    var r := Created(n);
    ConstantsWellFormed();
    DigitsNotSpace(Decimal(n));
    assert FieldWellFormed(r.fields[0]) && FieldWellFormed(r.fields[1]);
    DeclaredDecimal(r.fields[0], n, []);
    assert r.fields == [r.fields[0], Field(CONTENT_LENGTH, Decimal(n))] + [];
    ReadAnnouncedButMissing(r, n);
    if n == 0 {
      ReadHead(r);
    }
  }

  /** "200 OK" without content and "404 NotFound" are read back with no content and nothing left over. */
  lemma ReadBareResponses()
    ensures ReadReply(Wire(PlainOk())) == Some(Reply(STATUS_OK, [], [], []))
    ensures ReadReply(Wire(NotFound())) == Some(Reply(STATUS_NOT_FOUND, [], [], []))
  {
    ConstantsWellFormed();
    ReadBare(PlainOk());
    ReadBare(NotFound());
  }

  /**
   * Every response the router produces can be read by a client, except a
   * 201 for a non-empty body, whose announced content never arrives.
   */
  lemma EveryResponseReadable(req: Request, files: Files, faults: Faults)
    ensures var out := Route(req, files, faults);
      ReadReply(Wire(out.response)).None?
      <==> req.verb == POST && HasPrefix(req.path, FILES_PREFIX) && !faults.createFails && |req.body| > 0
  {
    if HasPrefix(req.path, FILES_PREFIX) {
      FilesResponseReadable(req, files, faults);
    } else {
      OtherResponseReadable(req, files, faults);
    }
  }

  /** Under "/files", only a 201 for a non-empty body cannot be read. */
  lemma FilesResponseReadable(req: Request, files: Files, faults: Faults)
    requires HasPrefix(req.path, FILES_PREFIX)
    ensures var out := Route(req, files, faults);
      ReadReply(Wire(out.response)).None? <==> req.verb == POST && !faults.createFails && |req.body| > 0
  {
    FilesPathPassesEarlierRules(req.path);
    var name := FileName(req.path);
    var out := Route(req, files, faults);
    ReadBareResponses();
    if req.verb == POST {
      assert out == FilePost(files, name, req.body, faults);
      ReadCreated(|req.body|);
    } else {
      assert out.response == FileGet(files, name, faults);
      if name in files {
        ContentTypesReadable();
        ReadWithContent(OCTET_STREAM, files[name]);
      }
    }
  }

  /** Every response outside "/files" can be read. */
  lemma OtherResponseReadable(req: Request, files: Files, faults: Faults)
    requires !HasPrefix(req.path, FILES_PREFIX)
    ensures ReadReply(Wire(Route(req, files, faults).response)).Some?
  {
    var out := Route(req, files, faults);
    ContentTypesReadable();
    ReadBareResponses();
    if req.path == ROOT_PATH {
      assert out.response == PlainOk();
    } else if req.path == USER_AGENT_PATH {
      assert out.response == WithContent(TEXT_PLAIN, UserAgent(req.headers));
      ReadWithContent(TEXT_PLAIN, UserAgent(req.headers));
    } else if HasPrefix(req.path, ECHO_PREFIX) {
      assert out.response == WithContent(TEXT_PLAIN, ReadEchoMessage(req.path));
      ReadWithContent(TEXT_PLAIN, ReadEchoMessage(req.path));
    } else {
      assert out.response == NotFound();
    }
  }

  /** The content types hold no "\r". */
  lemma ContentTypesReadable()
    ensures CR !in TEXT_PLAIN && CR !in OCTET_STREAM
  {
  }

  // ---------------------------------------------------------------------
  // A session
  // ---------------------------------------------------------------------

  /**
   * POST /files/test.txt with body "hello" into an empty directory answers
   * 201 with Content-Length 5; a following GET of the same file answers
   * with the five octets "hello".
   */
  lemma PostHelloThenGet()
    ensures var post := Request(POST, Octets("/files/test.txt"), Octets("HTTP/1.1"), map[], Octets("hello"));
      var get := Request(Octets("GET"), Octets("/files/test.txt"), Octets("HTTP/1.1"), map[], []);
      var faults := Faults(false, false);
      var posted := Route(post, map[], faults);
      && posted.files == map[Octets("test.txt") := Octets("hello")]
      && Wire(posted.response)
         == Octets("HTTP/1.1 201 Created\r\n") + Octets("Content-Type: text/plain\r\n")
          + Octets("Content-Length: 5\r\n\r\n")
      && Wire(Route(get, posted.files, faults).response)
         == Octets("HTTP/1.1 200 OK\r\n") + Octets("Content-Type: application/octet-stream\r\n")
          + Octets("Content-Length: 5") + Octets("\r\n\r\n") + (Octets("hello") + CRLF)
  {
    PostHello();
    GetHello();
  }

  /** The POST of the session. */
  lemma PostHello()
    ensures var post := Request(POST, Octets("/files/test.txt"), Octets("HTTP/1.1"), map[], Octets("hello"));
      var posted := Route(post, map[], Faults(false, false));
      && posted.files == map[Octets("test.txt") := Octets("hello")]
      && Wire(posted.response)
         == Octets("HTTP/1.1 201 Created\r\n") + Octets("Content-Type: text/plain\r\n")
          + Octets("Content-Length: 5\r\n\r\n")
  {
    var path, name, hello := Octets("/files/test.txt"), Octets("test.txt"), Octets("hello");
    var post := Request(POST, path, Octets("HTTP/1.1"), map[], hello);
    TestFilePath();
    FilesPathPassesEarlierRules(path);
    assert Route(post, map[], Faults(false, false)) == Outcome(Created(5), map[name := hello]);
    assert Decimal(5) == Octets("5");
    CreatedWire(5);
    LengthFiveChunks();
  }

  /** The GET of the session, once test.txt holds "hello". */
  lemma GetHello()
    ensures var get := Request(Octets("GET"), Octets("/files/test.txt"), Octets("HTTP/1.1"), map[], []);
      Wire(Route(get, map[Octets("test.txt") := Octets("hello")], Faults(false, false)).response)
      == Octets("HTTP/1.1 200 OK\r\n") + Octets("Content-Type: application/octet-stream\r\n")
       + Octets("Content-Length: 5") + Octets("\r\n\r\n") + (Octets("hello") + CRLF)
  {
    GetHelloRoute();
    HelloLength();
    ContentTypeLines();
    LengthFiveChunks();
    WithContentDigits(OCTET_STREAM, Octets("hello"), Octets("Content-Type: application/octet-stream\r\n"),
                      Octets("5"), Octets("Content-Length: 5"));
  }

  /** A 200 response with content, given its Content-Type line, its length's digits and its Content-Length text. */
  lemma WithContentDigits(contentType: seq<byte>, content: seq<byte>, typeLine: seq<byte>, digits: seq<byte>, lengthText: seq<byte>)
    requires Octets("Content-Type: ") + contentType + CRLF == typeLine
    requires Decimal(|content|) == digits
    requires Octets("Content-Length: ") + digits == lengthText
    ensures Wire(WithContent(contentType, content))
         == Octets("HTTP/1.1 200 OK\r\n") + typeLine + lengthText + Octets("\r\n\r\n") + (content + CRLF)
  {
    WithContentWire(contentType, content);
    var a, c, e := Octets("HTTP/1.1 200 OK\r\n"), Octets("Content-Length: "), Octets("\r\n\r\n");
    RegroupSix(a, typeLine, c, digits, e, content + CRLF);
  }

  /** "hello" has five octets, and %d writes 5 as the single digit "5". */
  lemma HelloLength()
    ensures |Octets("hello")| == 5 && Decimal(5) == Octets("5")
  {
  }

  /** The GET of the session is routed to the file read, which finds "hello". */
  lemma GetHelloRoute()
    ensures var get := Request(Octets("GET"), Octets("/files/test.txt"), Octets("HTTP/1.1"), map[], []);
      Route(get, map[Octets("test.txt") := Octets("hello")], Faults(false, false)).response
      == WithContent(OCTET_STREAM, Octets("hello"))
  {
    var path := Octets("/files/test.txt");
    TestFilePath();
    FilesPathPassesEarlierRules(path);
  }

  /** The request path of the session, its file name and method. */
  lemma TestFilePath()
    ensures HasPrefix(Octets("/files/test.txt"), FILES_PREFIX)
    ensures FileName(Octets("/files/test.txt")) == Octets("test.txt")
    ensures |Octets("hello")| == 5
    ensures Octets("GET") != POST
  {
    var name := Octets("test.txt");
    assert Octets("/files/test.txt") == FILES_DIR + name;
    assert Octets("/files/test.txt")[..|FILES_PREFIX|] == FILES_PREFIX;
    FileNameOf(name);
    GetIsNotPost();
  }

  /** "GET" is not "POST". */
  lemma GetIsNotPost()
    ensures Octets("GET") != POST
  {
    assert Octets("GET")[0] != POST[0];
  }

  /** "Content-Length: " followed by the digit 5, alone and with the blank line. */
  lemma LengthFiveChunks()
    ensures Octets("Content-Length: ") + Octets("5") == Octets("Content-Length: 5")
    ensures Octets("Content-Length: ") + Octets("5") + Octets("\r\n\r\n") == Octets("Content-Length: 5\r\n\r\n")
  {
    OctetsAppend("Content-Length: ", "5");
    assert "Content-Length: " + "5" == "Content-Length: 5";
    OctetsAppend("Content-Length: 5", "\r\n\r\n");
    assert "Content-Length: 5" + "\r\n\r\n" == "Content-Length: 5\r\n\r\n";
  }
}
