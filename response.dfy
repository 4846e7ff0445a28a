/**
 * Responses as the server writes them, and their partner: a client that
 * reads a response back the way HTTP/1.1 frames it, taking exactly as many
 * content octets as the Content-Length field announces.
 *
 * The server writes a status line "HTTP/1.1 <status>\r\n", one line
 * "<name>: <value>\r\n" per header field, a blank line "\r\n" and, on the
 * routes that carry content, the content followed by one more "\r\n".
 */
module HttpResponse {
  import opened Wrappers
  import opened Bytes

  /** A header field of a response. */
  datatype Field = Field(name: seq<byte>, value: seq<byte>)

  /**
   * A response: the status code with its reason phrase, the header fields in
   * the order written, and the content, if the route sends any.
   */
  datatype Response = Response(status: seq<byte>, fields: seq<Field>, content: Option<seq<byte>>)

  const STATUS_PREFIX: seq<byte> := Octets("HTTP/1.1 ")
  const FIELD_SEP: seq<byte> := Octets(": ")
  const CONTENT_LENGTH: seq<byte> := Octets("Content-Length")

  /** The header field lines, each "<name>: <value>\r\n". */
  function FieldLines(fields: seq<Field>): seq<byte>
  {
    if fields == [] then []
    else fields[0].name + FIELD_SEP + fields[0].value + CRLF + FieldLines(fields[1..])
  }

  /** What follows the blank line: the content and its closing "\r\n", or nothing. */
  function ContentPart(content: Option<seq<byte>>): seq<byte>
  {
    match content
    case None => []
    case Some(b) => b + CRLF
  }

  /** The octets written to the connection for r. */
  function Wire(r: Response): seq<byte>
  {
    STATUS_PREFIX + r.status + CRLF + FieldLines(r.fields) + CRLF + ContentPart(r.content)
  }

  /**
   * What is written begins with the status line, and ends with the content
   * and "\r\n", or, without content, with the blank line right after the
   * last line of the head.
   */
  lemma WireFrame(r: Response)
    ensures HasPrefix(Wire(r), STATUS_PREFIX + r.status + CRLF)
    ensures r.content.Some? ==> EndsWith(Wire(r), r.content.value + CRLF)
    ensures r.content.None? ==> EndsWith(Wire(r), CRLF + CRLF)
  {
    var head := STATUS_PREFIX + r.status + CRLF;
    var w := Wire(r);
    assert w == head + (FieldLines(r.fields) + CRLF + ContentPart(r.content));
    assert w[..|head|] == head;
    HeadEnds(head, r.fields);
    match r.content
    case None =>
      assert w == head + FieldLines(r.fields) + CRLF;
    case Some(b) =>
      EndsWithAppend(head + FieldLines(r.fields) + CRLF, b + CRLF, b + CRLF);
  }

  /** A status line followed by field lines and the blank line ends in two "\r\n". */
  lemma HeadEnds(head: seq<byte>, fields: seq<Field>)
    requires EndsWith(head, CRLF)
    ensures EndsWith(head + FieldLines(fields) + CRLF, CRLF + CRLF)
  {
    var s := head + FieldLines(fields);
    if fields != [] {
      FieldLinesEnd(fields);
      EndsWithAppend(head, FieldLines(fields), CRLF);
    }
    assert EndsWith(s, CRLF);
    assert (s + CRLF)[|s + CRLF| - 4..] == s[|s| - 2..] + CRLF;
  }

  /** Field lines, when there are any, end in "\r\n". */
  lemma {:induction false} FieldLinesEnd(fields: seq<Field>)
    requires fields != []
    ensures EndsWith(FieldLines(fields), CRLF)
    decreases |fields|
  {
    var line := fields[0].name + FIELD_SEP + fields[0].value + CRLF;
    if fields[1..] == [] {
      assert FieldLines(fields) == line + [];
    } else {
      FieldLinesEnd(fields[1..]);
      EndsWithAppend(line, FieldLines(fields[1..]), CRLF);
    }
  }

  // ---------------------------------------------------------------------
  // The client side
  // ---------------------------------------------------------------------

  /**
   * What a client reads: status, header fields, the content framed by
   * Content-Length, and whatever octets follow that content.
   */
  datatype Reply = Reply(status: seq<byte>, fields: seq<Field>, content: seq<byte>, leftover: seq<byte>)

  /** The status after "HTTP/1.1 " up to the first "\r\n", and the octets after that line. */
  function ReadStatusLine(wire: seq<byte>): Option<(seq<byte>, seq<byte>)>
  {
    if !HasPrefix(wire, STATUS_PREFIX) then None
    else
      var line := Cut(wire[|STATUS_PREFIX|..], CRLF);
      if line.found then Some((line.before, line.after)) else None
  }

  /** Header field lines up to the blank line, and the octets after the blank line. */
  function ReadFields(s: seq<byte>): Option<(seq<Field>, seq<byte>)>
    decreases |s|
  {
    var line := Cut(s, CRLF);
    if !line.found then None
    else if line.before == [] then Some(([], line.after))
    else
      var f := Cut(line.before, FIELD_SEP);
      if !f.found then None
      else
        match ReadFields(line.after)
        case None => None
        case Some(more) => Some(([Field(f.before, f.after)] + more.0, more.1))
  }

  predicate AllDigits(ds: seq<byte>) {
    forall i | 0 <= i < |ds| :: IsDigit(ds[i])
  }

  /** The length the first Content-Length field announces, if that field holds a number. */
  function DeclaredLength(fields: seq<Field>): Option<nat>
  {
    if fields == [] then None
    else if fields[0].name == CONTENT_LENGTH then
      if fields[0].value != [] && AllDigits(fields[0].value) then Some(DecimalValue(fields[0].value)) else None
    else DeclaredLength(fields[1..])
  }

  /**
   * A client reading one response: without a Content-Length there is no
   * content; with one, the response is incomplete until that many octets
   * have followed the blank line.
   */
  function ReadReply(wire: seq<byte>): Option<Reply>
  {
    match ReadStatusLine(wire)
    case None => None
    case Some(statusLine) =>
      match ReadFields(statusLine.1)
      case None => None
      case Some(head) =>
        var n := match DeclaredLength(head.0) case None => 0 case Some(n) => n;
        if |head.1| < n then None
        else Some(Reply(statusLine.0, head.0, head.1[..n], head.1[n..]))
  }

  // ---------------------------------------------------------------------
  // Reading back what the server writes
  // ---------------------------------------------------------------------

  /** A field line can be read back: no ':' in the name, no '\r' anywhere. */
  ghost predicate FieldWellFormed(f: Field) {
    COLON !in f.name && CR !in f.name && CR !in f.value
  }

  /** A response whose status line and field lines can be read back. */
  ghost predicate WellFormed(r: Response) {
    && CR !in r.status
    && forall i {:trigger r.fields[i]} | 0 <= i < |r.fields| :: FieldWellFormed(r.fields[i])
  }

  /** A line without '\r' is cut at the "\r\n" that ends it. */
  lemma CutLine(line: seq<byte>, t: seq<byte>)
    requires CR !in line
    ensures Cut(line + CRLF + t, CRLF) == CutParts(line, t, true)
  {
    var s := line + CRLF + t;
    forall j | 0 <= j < |line|
      ensures !OccursAt(s, CRLF, j)
    {
      assert s[j..j + 2][0] == line[j];
    }
    CutAfter(line, CRLF, t);
  }

  /** A field line is cut at the ": " that follows its name. */
  lemma CutField(name: seq<byte>, value: seq<byte>)
    requires COLON !in name
    ensures Cut(name + FIELD_SEP + value, FIELD_SEP) == CutParts(name, value, true)
  {
    var s := name + FIELD_SEP + value;
    assert FIELD_SEP[0] == COLON;
    forall j | 0 <= j < |name|
      ensures !OccursAt(s, FIELD_SEP, j)
    {
      assert s[j..j + 2][0] == name[j];
    }
    CutAfter(name, FIELD_SEP, value);
  }

  /** Field lines followed by the blank line are read back as the same fields. */
  lemma {:induction false} ReadFieldLines(fields: seq<Field>, t: seq<byte>)
    requires forall i {:trigger fields[i]} | 0 <= i < |fields| :: FieldWellFormed(fields[i])
    ensures ReadFields(FieldLines(fields) + CRLF + t) == Some((fields, t))
    decreases |fields|
  {
    if fields == [] {
      assert FieldLines(fields) + CRLF + t == [] + CRLF + t;
      CutLine([], t);
    } else {
      var f := fields[0];
      assert FieldWellFormed(f);
      var line := f.name + FIELD_SEP + f.value;
      var tail := FieldLines(fields[1..]) + CRLF + t;
      assert FieldLines(fields) + CRLF + t == line + CRLF + tail;
      assert CR !in FIELD_SEP;
      CutLine(line, tail);
      CutField(f.name, f.value);
      ReadFieldLines(fields[1..], t);
      assert [f] + fields[1..] == fields;
    }
  }

  /** The head of a written response (status line, fields, blank line) is read back exactly. */
  lemma ReadHead(r: Response)
    requires WellFormed(r)
    ensures ReadStatusLine(Wire(r)) == Some((r.status, FieldLines(r.fields) + CRLF + ContentPart(r.content)))
    ensures ReadFields(FieldLines(r.fields) + CRLF + ContentPart(r.content)) == Some((r.fields, ContentPart(r.content)))
  {
    var rest := FieldLines(r.fields) + CRLF + ContentPart(r.content);
    var wire := Wire(r);
    assert wire == STATUS_PREFIX + (r.status + CRLF + rest);
    assert wire[|STATUS_PREFIX|..] == r.status + CRLF + rest;
    CutLine(r.status, rest);
    ReadFieldLines(r.fields, ContentPart(r.content));
  }

  /**
   * A response whose Content-Length announces exactly its content is read
   * back whole: same status, same fields, the content, and then the closing
   * "\r\n" left over.
   */
  lemma ReadFramed(r: Response, b: seq<byte>)
    requires WellFormed(r)
    requires r.content == Some(b) && DeclaredLength(r.fields) == Some(|b|)
    ensures ReadReply(Wire(r)) == Some(Reply(r.status, r.fields, b, CRLF))
  {
    ReadHead(r);
    assert (b + CRLF)[..|b|] == b && (b + CRLF)[|b|..] == CRLF;
  }

  /** A response without Content-Length and without content is read back with no content and nothing left over. */
  lemma ReadBare(r: Response)
    requires WellFormed(r)
    requires r.content == None && DeclaredLength(r.fields) == None
    ensures ReadReply(Wire(r)) == Some(Reply(r.status, r.fields, [], []))
  {
    ReadHead(r);
  }

  /**
   * A response without content that announces a positive Content-Length
   * never completes: the client waits for octets that are not sent.
   */
  lemma ReadAnnouncedButMissing(r: Response, n: nat)
    requires WellFormed(r)
    requires r.content == None && DeclaredLength(r.fields) == Some(n)
    ensures ReadReply(Wire(r)).None? <==> n > 0
  {
    ReadHead(r);
  }

  /** The decimal that %d writes is announced back as the same length. */
  lemma DeclaredDecimal(f: Field, n: nat, more: seq<Field>)
    requires f.name != CONTENT_LENGTH
    ensures DeclaredLength([f, Field(CONTENT_LENGTH, Decimal(n))] + more) == Some(n)
  {
    var fs := [f, Field(CONTENT_LENGTH, Decimal(n))] + more;
    assert fs[1..][0] == Field(CONTENT_LENGTH, Decimal(n));
    DecimalRoundTrip(n);
  }
}
