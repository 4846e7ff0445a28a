/**
 * The request parser of the server: ReadRequest turns the octets that a
 * client sent on one connection into a Request (method, path, version,
 * header map, body) or a parse error.
 *
 * ParseRequest is the specification; ReadRequest is the step-by-step
 * parser, reading line after line through a bufio-style reader, assigning
 * into the header map, and collecting the body one octet at a time.
 */
module Parser {
  import opened Wrappers
  import opened Bytes
  import opened BufReader

  /** Header names as received (not case-folded) to trimmed values. */
  type Headers = map<seq<byte>, seq<byte>>

  /** A parsed request; `verb` is the request method (GET, POST, ...). */
  datatype Request = Request(
    verb: seq<byte>,
    path: seq<byte>,
    httpVersion: seq<byte>,
    headers: Headers,
    body: seq<byte>)

  datatype ParseError =
    | ReadFailed          // the input ended before the request line's '\n'
    | InvalidRequestLine  // fewer than three space-separated tokens
    | MalformedHeader     // a header line without ':' (an index-out-of-range panic in Go)

  /** The header map and the octets that follow the blank line. */
  datatype HeaderBlock = HeaderBlock(headers: Headers, body: seq<byte>)

  /** A header line's key: its text before the first ':', untrimmed. */
  function HeaderKey(line: seq<byte>): (k: seq<byte>)
    requires COLON in line
    ensures COLON !in k && HasPrefix(line, k + [COLON])
  {
    SplitByCut(line, COLON);
    var c := Cut(line, [COLON]);
    assert line[..|c.before| + 1] == c.before + [COLON];
    Split(line, COLON)[0]
  }

  /** A header line's value: its text between the first and the second ':' (or the end), trimmed. */
  function HeaderValue(line: seq<byte>): (v: seq<byte>)
    requires COLON in line
    ensures COLON !in v
    ensures v != [] ==> !IsSpace(v[0]) && !IsSpace(v[|v| - 1])
  {
    var part := Split(line, COLON)[1];
    var v := TrimSpace(part);
    assert forall i | 0 <= i < |v| :: v[i] == part[LeadingSpace(part) + i];
    v
  }

  /**
   * The header loop: reads lines from s, entering each into h, until a
   * line that is exactly "\r\n"; a line without ':' (including the empty
   * line at the end of the input) is an error.
   */
  function ReadHeaders(s: seq<byte>, h: Headers): (r: Result<HeaderBlock, ParseError>)
    ensures r.Err? ==> r.error == MalformedHeader
    ensures r.Ok? ==> |r.value.body| + 2 <= |s| && EndsWith(s, r.value.body)
    ensures r.Ok? ==> h.Keys <= r.value.headers.Keys
    decreases |s|
  {
    var l := SplitLine(s, LF);
    if l.text == CRLF then
      EndsWithAppend(l.text, l.rest, l.rest);
      Ok(HeaderBlock(h, l.rest))
    else if COLON !in l.text then Err(MalformedHeader)
    else
      var r := ReadHeaders(l.rest, h[HeaderKey(l.text) := HeaderValue(l.text)]);
      if r.Ok? then
        EndsWithAppend(l.text, l.rest, r.value.body);
        r
      else r
  }

  /** The request line with white space trimmed from both ends (twice, as the source does). */
  function RequestLine(input: seq<byte>): (line: seq<byte>)
    ensures |line| <= |input|
    ensures line != [] ==> !IsSpace(line[0]) && !IsSpace(line[|line| - 1])
  {
    TrimSpace(TrimSpace(SplitLine(input, LF).text))
  }

  /** What ReadRequest produces from the complete input of a connection. */
  function ParseRequest(input: seq<byte>): (r: Result<Request, ParseError>)
    ensures r == Err(ReadFailed) <==> LF !in input
    ensures r.Ok? ==> |r.value.body| < |input| && EndsWith(input, r.value.body)
  {
    var first := SplitLine(input, LF);
    if first.eof then Err(ReadFailed)
    else
      var parts := Split(RequestLine(input), SP);
      if |parts| < 3 then Err(InvalidRequestLine)
      else
        match ReadHeaders(first.rest, map[])
        case Err(e) => Err(e)
        case Ok(block) =>
          EndsWithAppend(first.text, first.rest, block.body);
          Ok(Request(parts[0], parts[1], parts[2], block.headers, block.body))
  }

  /**
   * The header loop of ReadRequest: reads lines until "\r\n", entering each
   * line's key and value into the header map as it goes.
   */
  method ReadHeaderLines(reader: Reader) returns (r: Result<Headers, ParseError>)
    requires reader.Valid()
    modifies reader
    ensures reader.Valid()
    ensures match ReadHeaders(old(reader.Unread()), map[])
      case Err(e) => r == Err(e)
      case Ok(block) => r == Ok(block.headers) && reader.Unread() == block.body
  {
    ghost var start := reader.Unread();
    var headers: Headers := map[];
    while true
      invariant reader.Valid()
      invariant ReadHeaders(reader.Unread(), headers) == ReadHeaders(start, map[])
      decreases |reader.Unread()|
    {
      ghost var before := reader.Unread();
      var line, eof := reader.ReadString(LF);
      if line == CRLF {
        assert ReadHeaders(before, headers) == Ok(HeaderBlock(headers, reader.Unread()));
        break;
      }
      var parts := Split(line, COLON);
      if |parts| < 2 {
        // Go indexes parts[1] here and panics.
        assert ReadHeaders(before, headers) == Err(MalformedHeader);
        return Err(MalformedHeader);
      }
      assert ReadHeaders(before, headers) == ReadHeaders(reader.Unread(), headers[HeaderKey(line) := HeaderValue(line)]);
      headers := headers[parts[0] := TrimSpace(parts[1])];
    }
    return Ok(headers);
  }

  /**
   * The body loop of ReadRequest: appends every buffered octet to the body,
   * one at a time.  Its error branch cannot be taken: ReadByte only fails
   * when nothing is buffered.
   */
  method ReadBody(reader: Reader) returns (body: seq<byte>)
    requires reader.Valid()
    modifies reader
    ensures reader.Valid()
    ensures body == old(reader.Unread()) && reader.Unread() == []
  {
    ghost var start := reader.pos;
    body := [];
    while reader.Buffered() > 0
      invariant reader.Valid()
      invariant start <= reader.pos
      invariant body == reader.buf[start..reader.pos]
      decreases reader.Buffered()
    {
      var b, err := reader.ReadByte();
      if err {
        assert false;
      }
      body := body + [b];
    }
  }

  /** ReadRequest, over a connection whose whole input `input` has arrived. */
  method ReadRequest(input: seq<byte>) returns (r: Result<Request, ParseError>)
    ensures r == ParseRequest(input)
  {
    var reader := new Reader(input);
    var line, eof := reader.ReadString(LF);
    if eof {
      return Err(ReadFailed);
    }
    assert line == SplitLine(input, LF).text;

    line := TrimSpace(line);
    line := TrimSpace(line);
    var parts := Split(line, SP);
    if |parts| < 3 {
      return Err(InvalidRequestLine);
    }
    var verb, path, httpVersion := parts[0], parts[1], parts[2];

    var headers := ReadHeaderLines(reader);
    if headers.Err? {
      return Err(headers.error);
    }
    var body := ReadBody(reader);
    r := Ok(Request(verb, path, httpVersion, headers.value, body));
  }
}
