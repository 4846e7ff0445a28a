/**
 * The connection handler: reads the request from the connection, routes
 * it, and writes the response chunk by chunk, creating and reading files
 * in the served directory on the way.
 *
 * Each method is proved against the routing function: what it appends to
 * the connection is Wire of the response Route chooses, and the directory
 * afterwards is the one Route gives.
 */
module Server {
  import opened Wrappers
  import opened Bytes
  import opened Parser
  import opened HttpResponse
  import opened Router

  /**
   * A client connection: the octets the client sent, those written back,
   * and whether the program called Close on it.  The socket closing when
   * the process ends is not recorded.
   */
  class Conn {
    const received: seq<byte>
    var sent: seq<byte>
    var closed: bool

    constructor (received: seq<byte>)
      ensures this.received == received && sent == [] && !closed
    {
      this.received := received;
      sent := [];
      closed := false;
    }

    /** net.Conn.Write: the octets go out after those already written. */
    method Write(data: seq<byte>)
      modifies this
      ensures sent == old(sent) + data && closed == old(closed)
    {
      sent := sent + data;
    }

    /** net.Conn.Close: records that Close was called; nothing more is written. */
    method Close()
      modifies this
      ensures closed && sent == old(sent)
    {
      closed := true;
    }
  }

  /** The served directory, and the faults its filesystem shows. */
  class FileStore {
    var files: Files
    const faults: Faults

    constructor (files: Files, faults: Faults)
      ensures this.files == files && this.faults == faults
    {
      this.files := files;
      this.faults := faults;
    }

    /** os.Create: creates the file, or truncates an existing one, unless creation fails. */
    method Create(name: seq<byte>) returns (ok: bool)
      modifies this
      ensures ok == !faults.createFails
      ensures files == if ok then old(files)[name := []] else old(files)
    {
      ok := !faults.createFails;
      if ok {
        files := files[name := []];
      }
    }

    /** File.Write: the data goes after what the file already holds. */
    method Write(name: seq<byte>, data: seq<byte>)
      requires name in files
      modifies this
      ensures files == old(files)[name := old(files)[name] + data]
    {
      files := files[name := files[name] + data];
    }

    /** os.Stat: succeeds exactly for an existing name. */
    method Stat(name: seq<byte>) returns (ok: bool)
      ensures ok <==> name in files
    {
      ok := name in files;
    }

    /** os.ReadFile: the contents of an existing name, unless reading fails. */
    method ReadFile(name: seq<byte>) returns (data: seq<byte>, ok: bool)
      ensures ok <==> name in files && !faults.readFails
      ensures ok ==> data == files[name]
    {
      if name in files && !faults.readFails {
        return files[name], true;
      }
      return [], false;
    }
  }

  /**
   * The six writes of a 200 response with content: status line,
   * Content-Type line, "Content-Length: <n>", the blank line, the content
   * and a closing "\r\n".
   */
  method WriteWithContent(conn: Conn, contentType: seq<byte>, content: seq<byte>)
    modifies conn
    ensures conn.sent == old(conn.sent) + Wire(WithContent(contentType, content))
    ensures conn.closed == old(conn.closed)
  {
    ghost var start := conn.sent;
    var statusLine := Octets("HTTP/1.1 200 OK\r\n");
    var typeLine := Octets("Content-Type: ") + contentType + CRLF;
    var contentLength := Octets("Content-Length: ") + Decimal(|content|);
    var blank := Octets("\r\n\r\n");
    var closing := Octets("\r\n");
    conn.Write(statusLine);
    conn.Write(typeLine);
    conn.Write(contentLength);
    conn.Write(blank);
    conn.Write(content);
    conn.Write(closing);
    WithContentChunks(contentType, content);
    AppendSixChunks(start, statusLine, typeLine, contentLength, blank, content, closing);
  }

  /**
   * HandleFilePost: creates the file and writes the body into it, then
   * answers 201; when the file cannot be created it answers 404.
   */
  method HandleFilePost(req: Request, conn: Conn, store: FileStore, filename: seq<byte>)
    modifies conn, store
    ensures var out := FilePost(old(store.files), filename, req.body, store.faults);
      conn.sent == old(conn.sent) + Wire(out.response) && store.files == out.files
    ensures conn.closed == old(conn.closed)
  {
    var ok := store.Create(filename);
    if !ok {
      conn.Write(Octets("HTTP/1.1 404 NotFound\r\n\r\n"));
      NotFoundWire();
      return;
    }
    store.Write(filename, req.body);
    assert [] + req.body == req.body;
    ghost var start := conn.sent;
    var statusLine := Octets("HTTP/1.1 201 Created\r\n");
    var typeLine := Octets("Content-Type: text/plain\r\n");
    var contentLength := Octets("Content-Length: ") + Decimal(|req.body|) + Octets("\r\n\r\n");
    conn.Write(statusLine);
    conn.Write(typeLine);
    conn.Write(contentLength);
    CreatedWire(|req.body|);
    AppendChunks(start, statusLine, typeLine, contentLength);
  }

  /**
   * HandleFileGet: answers 404 when the name does not exist or cannot be
   * read, and otherwise the file's contents as an octet stream.
   */
  method HandleFileGet(conn: Conn, store: FileStore, filename: seq<byte>)
    modifies conn
    ensures conn.sent == old(conn.sent) + Wire(FileGet(store.files, filename, store.faults))
    ensures conn.closed == old(conn.closed)
  {
    var found := store.Stat(filename);
    if !found {
      conn.Write(Octets("HTTP/1.1 404 NotFound\r\n\r\n"));
      NotFoundWire();
      return;
    }
    var data, ok := store.ReadFile(filename);
    if !ok {
      conn.Write(Octets("HTTP/1.1 404 NotFound\r\n\r\n"));
      NotFoundWire();
      return;
    }
    WriteWithContent(conn, OCTET_STREAM, data);
  }

  /**
   * The routing part of HandleConnection: the first matching rule writes
   * its response, and a POST under "/files" writes the file.
   */
  method Respond(req: Request, conn: Conn, store: FileStore)
    modifies conn, store
    ensures var out := Route(req, old(store.files), store.faults);
      conn.sent == old(conn.sent) + Wire(out.response) && store.files == out.files
    ensures conn.closed == old(conn.closed)
  {
    if req.path == ROOT_PATH {
      conn.Write(Octets("HTTP/1.1 200 OK\r\n\r\n"));
      PlainOkWire();
    } else if req.path == USER_AGENT_PATH {
      var agent := if USER_AGENT in req.headers then req.headers[USER_AGENT] else [];
      WriteWithContent(conn, TEXT_PLAIN, agent);
    } else if HasPrefix(req.path, ECHO_PREFIX) {
      var message := ReadEchoMessage(req.path);
      WriteWithContent(conn, TEXT_PLAIN, message);
    } else if HasPrefix(req.path, FILES_PREFIX) {
      var filename := Cut(req.path, FILES_DIR).after;
      filename := TrimSpace(filename);
      if req.verb == POST {
        HandleFilePost(req, conn, store, filename);
      } else {
        HandleFileGet(conn, store, filename);
      }
    } else {
      conn.Write(Octets("HTTP/1.1 404 NotFound\r\n\r\n"));
      NotFoundWire();
    }
  }

  /**
   * Leaving the process on a parse error: os.Exit skips the deferred Close
   * call, while the panic of a malformed header line runs it.
   */
  method Exit(conn: Conn, e: ParseError)
    modifies conn
    ensures conn.sent == old(conn.sent)
    ensures conn.closed == (old(conn.closed) || e == MalformedHeader)
  {
    if e == MalformedHeader {
      conn.Close();
    }
  }

  /**
   * HandleConnection: a request that cannot be read ends the process.  A
   * missing request line or a short one goes through os.Exit, which skips
   * the deferred Close (the socket is then closed by the process ending,
   * which `closed` does not record); a malformed header line makes Go
   * panic, and the panic runs the deferred Close first.  Nothing is written
   * either way.  Otherwise the routed response is written and Close called.
   */
  method HandleConnection(conn: Conn, store: FileStore) returns (exited: bool)
    modifies conn, store
    ensures match ParseRequest(conn.received)
      case Err(e) =>
        && exited && conn.sent == old(conn.sent)
        && conn.closed == (old(conn.closed) || e == MalformedHeader)
        && store.files == old(store.files)
      case Ok(req) =>
        var out := Route(req, old(store.files), store.faults);
        && !exited && conn.sent == old(conn.sent) + Wire(out.response) && conn.closed
        && store.files == out.files
  {
    var parsed := ReadRequest(conn.received);
    match parsed
    case Err(e) =>
      Exit(conn, e);
      exited := true;
    case Ok(req) =>
      Respond(req, conn, store);
      conn.Close();
      exited := false;
  }
}
