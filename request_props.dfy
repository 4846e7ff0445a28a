/**
 * What the request parser guarantees: when it rejects a request line, what
 * method, path and version are, how header lines fill the header map, where
 * the header block ends, and that the body is the rest of the input.
 */
module RequestProperties {
  import opened Wrappers
  import opened Bytes
  import opened BufReader
  import opened Parser

  /**
   * One header line as the loop reads it: ending in its only '\n', not the
   * blank line "\r\n", and holding a ':'.
   */
  ghost predicate IsHeaderLine(l: seq<byte>) {
    && |l| > 0 && l[|l| - 1] == LF && LF !in l[..|l| - 1]
    && l != CRLF
    && COLON in l
  }

  /** Every line of ls is a header line. */
  ghost predicate HeaderLines(ls: seq<seq<byte>>) {
    forall i {:trigger ls[i]} | 0 <= i < |ls| :: IsHeaderLine(ls[i])
  }

  /** Every line of ls holds a ':', so that it has a key and a value. */
  ghost predicate Keyed(ls: seq<seq<byte>>) {
    forall i {:trigger ls[i]} | 0 <= i < |ls| :: COLON in ls[i]
  }

  /** The lines one after the other. */
  function Concat(ls: seq<seq<byte>>): seq<byte> {
    if ls == [] then [] else ls[0] + Concat(ls[1..])
  }

  /** The header map after entering the lines ls, in order, into h. */
  function EnterAll(h: Headers, ls: seq<seq<byte>>): Headers
    requires Keyed(ls)
    decreases |ls|
  {
    if ls == [] then h else EnterAll(h[HeaderKey(ls[0]) := HeaderValue(ls[0])], ls[1..])
  }

  // ---------------------------------------------------------------------
  // The request line
  // ---------------------------------------------------------------------

  /**
   * A complete request line is rejected with "invalid request line" exactly
   * when, once trimmed, it holds fewer than two spaces (so fewer than three
   * tokens).
   */
  lemma InvalidRequestLineIff(input: seq<byte>)
    requires LF in input
    ensures ParseRequest(input) == Err(InvalidRequestLine) <==> Count(RequestLine(input), SP) < 2
  {
  }

  /**
   * line begins with the tokens a, b and c separated by single seps, and
   * whatever follows them begins with sep.
   */
  ghost predicate BeginsWithTokens(line: seq<byte>, sep: byte, a: seq<byte>, b: seq<byte>, c: seq<byte>) {
    var n := |a| + |b| + |c| + 2;
    && n <= |line|
    && line[..n] == a + [sep] + b + [sep] + c
    && (n < |line| ==> line[n] == sep)
  }

  /**
   * On success, method, path and version are the first three space-free
   * tokens of the trimmed request line, in order; anything after the third
   * token starts with a space and is ignored.
   */
  lemma RequestLineTokens(input: seq<byte>, req: Request)
    requires ParseRequest(input) == Ok(req)
    ensures SP !in req.verb && SP !in req.path && SP !in req.httpVersion
    ensures BeginsWithTokens(RequestLine(input), SP, req.verb, req.path, req.httpVersion)
  {
    OkTokens(input, req);
    FirstThreeTokens(RequestLine(input), SP, req.verb, req.path, req.httpVersion);
  }

  /** A parsed request carries the first three tokens of its request line. */
  lemma OkTokens(input: seq<byte>, req: Request)
    requires ParseRequest(input) == Ok(req)
    ensures var parts := Split(RequestLine(input), SP);
      && |parts| >= 3
      && parts[0] == req.verb && parts[1] == req.path && parts[2] == req.httpVersion
  {
    var first := SplitLine(input, LF);
    var parts := Split(RequestLine(input), SP);
    assert !first.eof && |parts| >= 3;
    var block := ReadHeaders(first.rest, map[]);
    assert block.Ok?;
    assert req == Request(parts[0], parts[1], parts[2], block.value.headers, block.value.body);
  }

  /** The first three pieces of a split, put back together, begin the original. */
  lemma FirstThreeTokens(line: seq<byte>, sep: byte, a: seq<byte>, b: seq<byte>, c: seq<byte>)
    requires var parts := Split(line, sep); |parts| >= 3 && parts[0] == a && parts[1] == b && parts[2] == c
    ensures sep !in a && sep !in b && sep !in c
    ensures BeginsWithTokens(line, sep, a, b, c)
  {
    var parts := Split(line, sep);
    assert sep !in parts[0] && sep !in parts[1] && sep !in parts[2];
    var rest := Join(parts[2..], sep);
    assert Join(parts, sep) == parts[0] + [sep] + Join(parts[1..], sep);
    assert parts[1..][1..] == parts[2..];
    assert Join(parts[1..], sep) == parts[1] + [sep] + rest;
    assert parts[2..][1..] == parts[3..];
    var n := |parts[0]| + |parts[1]| + |parts[2]| + 2;
    if |parts| == 3 {
      assert rest == parts[2];
    } else {
      assert rest == parts[2] + [sep] + Join(parts[3..], sep);
    }
    assert line == parts[0] + [sep] + parts[1] + [sep] + rest;
  }

  // ---------------------------------------------------------------------
  // The header block
  // ---------------------------------------------------------------------

  /**
   * A header line's key is its text before the first ':' and its value is
   * the trimmed text between the first ':' and the next one (or the end of
   * the line, whose "\r\n" the trimming removes).
   */
  lemma HeaderKeyValueByCut(line: seq<byte>)
    requires COLON in line
    ensures var c := Cut(line, [COLON]);
      && c.found
      && line == HeaderKey(line) + [COLON] + c.after
      && COLON !in HeaderKey(line)
      && HeaderValue(line) == TrimSpace(Cut(c.after, [COLON]).before)
  {
    var c := Cut(line, [COLON]);
    SplitByCut(line, COLON);
    SplitByCut(c.after, COLON);
    var d := Cut(c.after, [COLON]);
    assert Split(line, COLON)[1] == Split(c.after, COLON)[0];
    assert Split(c.after, COLON)[0] == d.before;
  }

  /** One header line is entered into the map, and reading goes on after it. */
  lemma ReadOneHeaderLine(l: seq<byte>, rest: seq<byte>, h: Headers)
    requires IsHeaderLine(l)
    ensures ReadHeaders(l + rest, h) == ReadHeaders(rest, h[HeaderKey(l) := HeaderValue(l)])
  {
    var text := l[..|l| - 1];
    assert l == text + [LF];
    SplitLineAt(text, LF, rest);
  }

  /** Reading whole header lines enters them into the map one after another. */
  lemma {:induction false} ReadHeadersSkipsLines(ls: seq<seq<byte>>, s: seq<byte>, h: Headers)
    requires HeaderLines(ls)
    ensures ReadHeaders(Concat(ls) + s, h) == ReadHeaders(s, EnterAll(h, ls))
    decreases |ls|
  {
    if ls != [] {
      var l, tail := ls[0], ls[1..];
      assert IsHeaderLine(l);
      ConcatStep(ls, s);
      ReadOneHeaderLine(l, Concat(tail) + s, h);
      ReadHeadersSkipsLines(tail, s, h[HeaderKey(l) := HeaderValue(l)]);
    } else {
      assert Concat(ls) + s == s;
    }
  }

  /** The lines followed by s are the first line, then the other lines followed by s. */
  lemma ConcatStep(ls: seq<seq<byte>>, s: seq<byte>)
    requires ls != []
    ensures Concat(ls) + s == ls[0] + (Concat(ls[1..]) + s)
  {
    AppendThree(ls[0], Concat(ls[1..]), s);
  }

  /**
   * The header block ends at the first line that is exactly "\r\n": with
   * header lines ls before it, the map holds those lines and everything
   * after the blank line, whatever it looks like, is left over as the body.
   */
  lemma HeaderBlockOfLines(ls: seq<seq<byte>>, body: seq<byte>, h: Headers)
    requires HeaderLines(ls)
    ensures ReadHeaders(Concat(ls) + CRLF + body, h) == Ok(HeaderBlock(EnterAll(h, ls), body))
  {
    var pre, rest, h' := Concat(ls), CRLF + body, EnterAll(h, ls);
    ReadHeadersSkipsLines(ls, rest, h);
    BlankLineEndsBlock(body, h');
    AppendThree(pre, CRLF, body);
  }

  /** The blank line ends the header block; everything after it is the body. */
  lemma BlankLineEndsBlock(body: seq<byte>, h: Headers)
    ensures ReadHeaders(CRLF + body, h) == Ok(HeaderBlock(h, body))
  {
    BlankLine(body);
  }

  /** "\r\n" is read as one line. */
  lemma BlankLine(body: seq<byte>)
    ensures SplitLine(CRLF + body, LF) == Line(CRLF, body, false)
  {
    SplitLineAt([CR], LF, body);
    assert [CR] + [LF] + body == CRLF + body;
    assert [CR] + [LF] == CRLF;
  }

  /**
   * A line after the header lines that is neither blank nor holds a ':' is
   * an error; so is input that ends before the blank line.
   */
  lemma MalformedHeaderLine(ls: seq<seq<byte>>, s: seq<byte>, h: Headers)
    requires HeaderLines(ls)
    requires SplitLine(s, LF).text != CRLF && COLON !in SplitLine(s, LF).text
    ensures ReadHeaders(Concat(ls) + s, h) == Err(MalformedHeader)
  {
    ReadHeadersSkipsLines(ls, s, h);
  }

  /**
   * Input that ends before the blank line is rejected: after complete
   * header lines, whatever remains holds no '\n' (it may be empty, or a
   * partial header line with or without ':').
   */
  lemma MissingBlankLine(ls: seq<seq<byte>>, t: seq<byte>, h: Headers)
    requires HeaderLines(ls)
    requires LF !in t
    ensures ReadHeaders(Concat(ls) + t, h) == Err(MalformedHeader)
  {
    ReadHeadersSkipsLines(ls, t, h);
    UnterminatedHeaderLine(t, EnterAll(h, ls));
  }

  /** A last line without '\n' is rejected, whether or not it holds ':'. */
  lemma UnterminatedHeaderLine(t: seq<byte>, h: Headers)
    requires LF !in t
    ensures ReadHeaders(t, h) == Err(MalformedHeader)
  {
    SplitLineToEnd(t, LF);
    assert t != CRLF by {
      assert CRLF[1] == LF;
    }
    if COLON in t {
      var h' := h[HeaderKey(t) := HeaderValue(t)];
      assert ReadHeaders(t, h) == ReadHeaders([], h');
      SplitLineToEnd([], LF);
    }
  }

  /**
   * Last write wins: the value under a key is the value of the last line
   * with that key.
   */
  lemma LastLineWins(h: Headers, ls: seq<seq<byte>>, i: nat)
    requires Keyed(ls)
    requires i < |ls|
    requires KeyAvoided(ls, i + 1, HeaderKey(ls[i]))
    ensures HeaderKey(ls[i]) in EnterAll(h, ls)
    ensures EnterAll(h, ls)[HeaderKey(ls[i])] == HeaderValue(ls[i])
  {
    EnterAllPairs(h, ls);
    var es := Entries(ls);
    forall j | i < j < |es|
      ensures es[j].0 != es[i].0
    {
      assert es[j].0 == HeaderKey(ls[j]);
    }
    LastPairWins(h, es, i);
  }

  /** A key that no line carries keeps whatever the map held before. */
  lemma KeyUntouched(h: Headers, ls: seq<seq<byte>>, k: seq<byte>)
    requires Keyed(ls)
    requires KeyAvoided(ls, 0, k)
    ensures (k in EnterAll(h, ls)) == (k in h)
    ensures k in h ==> EnterAll(h, ls)[k] == h[k]
  {
    EnterAllPairs(h, ls);
    var es := Entries(ls);
    forall j | 0 <= j < |es|
      ensures es[j].0 != k
    {
      assert es[j].0 == HeaderKey(ls[j]);
    }
    PairUntouched(h, es, k);
  }

  /** No line of ls from position `from` on carries the key k. */
  ghost predicate KeyAvoided(ls: seq<seq<byte>>, from: nat, k: seq<byte>)
    requires Keyed(ls)
  {
    forall j {:trigger HeaderKey(ls[j])} | from <= j < |ls| :: HeaderKey(ls[j]) != k
  }

  /** The (key, value) entries that the lines ls make, in order. */
  function Entries(ls: seq<seq<byte>>): seq<(seq<byte>, seq<byte>)>
    requires Keyed(ls)
  {
    seq(|ls|, i requires 0 <= i < |ls| => (HeaderKey(ls[i]), HeaderValue(ls[i])))
  }

  /** The map after entering the entries es, in order, into h. */
  function EnterPairs(h: Headers, es: seq<(seq<byte>, seq<byte>)>): Headers
    decreases |es|
  {
    if es == [] then h else EnterPairs(h[es[0].0 := es[0].1], es[1..])
  }

  /** Entering the lines is entering their entries. */
  lemma {:induction false} EnterAllPairs(h: Headers, ls: seq<seq<byte>>)
    requires Keyed(ls)
    ensures EnterAll(h, ls) == EnterPairs(h, Entries(ls))
    decreases |ls|
  {
    if ls != [] {
      EntriesTail(ls);
      EnterAllPairs(h[HeaderKey(ls[0]) := HeaderValue(ls[0])], ls[1..]);
    }
  }

  /** The entries of a non-empty run are its first line's entry, then the entries of the rest. */
  lemma EntriesTail(ls: seq<seq<byte>>)
    requires Keyed(ls) && ls != []
    ensures Keyed(ls[1..])
    ensures Entries(ls)[0] == (HeaderKey(ls[0]), HeaderValue(ls[0]))
    ensures Entries(ls)[1..] == Entries(ls[1..])
  {
    TailKeyed(ls);
    var tail := ls[1..];
    var es, et := Entries(ls), Entries(tail);
    forall j | 0 <= j < |tail|
      ensures es[1..][j] == et[j]
    {
      assert tail[j] == ls[j + 1];
      assert es[1..][j] == es[j + 1];
    }
    assert es[1..] == et;
  }

  /** The entry of position i survives when no later entry has its key. */
  lemma {:induction false} LastPairWins(h: Headers, es: seq<(seq<byte>, seq<byte>)>, i: nat)
    requires i < |es|
    requires forall j | i < j < |es| :: es[j].0 != es[i].0
    ensures es[i].0 in EnterPairs(h, es)
    ensures EnterPairs(h, es)[es[i].0] == es[i].1
    decreases |es|
  {
    var h' := h[es[0].0 := es[0].1];
    if i == 0 {
      PairUntouched(h', es[1..], es[0].0);
    } else {
      assert es[1..][i - 1] == es[i];
      LastPairWins(h', es[1..], i - 1);
    }
  }

  /** A key that no entry has keeps whatever the map held before. */
  lemma {:induction false} PairUntouched(h: Headers, es: seq<(seq<byte>, seq<byte>)>, k: seq<byte>)
    requires forall j | 0 <= j < |es| :: es[j].0 != k
    ensures (k in EnterPairs(h, es)) == (k in h)
    ensures k in h ==> EnterPairs(h, es)[k] == h[k]
    decreases |es|
  {
    if es != [] {
      PairUntouched(h[es[0].0 := es[0].1], es[1..], k);
    }
  }

  /** The lines after the first of a run of keyed lines are keyed. */
  lemma TailKeyed(ls: seq<seq<byte>>)
    requires Keyed(ls) && ls != []
    ensures Keyed(ls[1..])
  {
    forall j | 0 <= j < |ls| - 1
      ensures COLON in ls[1..][j]
    {
      assert ls[1..][j] == ls[j + 1];
    }
  }

  // ---------------------------------------------------------------------
  // Whole requests
  // ---------------------------------------------------------------------

  /**
   * A request written out as "<method> <path> <version>\r\n", header lines,
   * "\r\n" and a body is read back exactly: the three tokens, the headers
   * the lines enter, and the body octets unchanged and in order.
   */
  lemma ParseFormattedRequest(verb: seq<byte>, path: seq<byte>, version: seq<byte>,
                              ls: seq<seq<byte>>, body: seq<byte>)
    requires SP !in verb && SP !in path && SP !in version
    requires LF !in verb && LF !in path && LF !in version
    requires verb != [] && !IsSpace(verb[0])
    requires version != [] && !IsSpace(version[|version| - 1])
    requires HeaderLines(ls)
    ensures ParseRequest(verb + [SP] + path + [SP] + version + CRLF + Concat(ls) + CRLF + body)
         == Ok(Request(verb, path, version, EnterAll(map[], ls), body))
  {
    var line := verb + [SP] + path + [SP] + version;
    var pre := Concat(ls);
    var afterLine := pre + CRLF + body;
    TokensLine(verb, path, version);
    FirstLine(line, afterLine);
    SplitThree(verb, path, version, SP);
    HeaderBlockOfLines(ls, body, map[]);
    ParseOk(line + CRLF + afterLine, line + CRLF, afterLine, verb, path, version,
            HeaderBlock(EnterAll(map[], ls), body));
    RequestOctets(line, pre, body);
  }

  /** Three tokens without '\n' joined by spaces make a line without '\n' and without white space at its ends. */
  lemma TokensLine(verb: seq<byte>, path: seq<byte>, version: seq<byte>)
    requires LF !in verb && LF !in path && LF !in version
    requires verb != [] && !IsSpace(verb[0])
    requires version != [] && !IsSpace(version[|version| - 1])
    ensures var line := verb + [SP] + path + [SP] + version;
      && LF !in line && line != [] && !IsSpace(line[0]) && !IsSpace(line[|line| - 1])
  {
    var line := verb + [SP] + path + [SP] + version;
    assert line[0] == verb[0];
    assert line[|line| - 1] == version[|version| - 1];
  }

  /** The octets of a formatted request, grouped as request line, "\r\n" and the rest. */
  lemma RequestOctets(line: seq<byte>, pre: seq<byte>, body: seq<byte>)
    ensures line + CRLF + pre + CRLF + body == line + CRLF + (pre + CRLF + body)
  {
  }

  /**
   * ParseRequest succeeds with the three tokens and the header block when
   * the first line is complete, splits into those tokens, and the header
   * loop finds the block in the rest.
   */
  lemma ParseOk(input: seq<byte>, text: seq<byte>, rest: seq<byte>,
                a: seq<byte>, b: seq<byte>, c: seq<byte>, block: HeaderBlock)
    requires SplitLine(input, LF) == Line(text, rest, false)
    requires Split(RequestLine(input), SP) == [a, b, c]
    requires ReadHeaders(rest, map[]) == Ok(block)
    ensures ParseRequest(input) == Ok(Request(a, b, c, block.headers, block.body))
  {
  }

  /** A request line without '\n', not beginning or ending in white space, is read back as it is. */
  lemma FirstLine(line: seq<byte>, afterLine: seq<byte>)
    requires LF !in line && line != [] && !IsSpace(line[0]) && !IsSpace(line[|line| - 1])
    ensures SplitLine(line + CRLF + afterLine, LF) == Line(line + CRLF, afterLine, false)
    ensures RequestLine(line + CRLF + afterLine) == line
  {
    FirstLineSplit(line, afterLine);
    TrimmedLine(line);
  }

  /** A line without '\n' followed by "\r\n" is read up to and including that "\r\n". */
  lemma FirstLineSplit(line: seq<byte>, afterLine: seq<byte>)
    requires LF !in line
    ensures SplitLine(line + CRLF + afterLine, LF) == Line(line + CRLF, afterLine, false)
  {
    var t := line + [CR];
    assert LF !in t;
    SplitLineAt(t, LF, afterLine);
    LineEnd(line, afterLine);
  }

  /** "\r\n" is '\r' and then '\n'. */
  lemma LineEnd(line: seq<byte>, afterLine: seq<byte>)
    ensures line + [CR] + [LF] == line + CRLF
    ensures line + [CR] + [LF] + afterLine == line + CRLF + afterLine
  {
    assert [CR] + [LF] == CRLF;
  }

  /** Trimming a line with its "\r\n", twice, gives back a line without white space at its ends. */
  lemma TrimmedLine(line: seq<byte>)
    requires line != [] && !IsSpace(line[0]) && !IsSpace(line[|line| - 1])
    ensures TrimSpace(TrimSpace(line + CRLF)) == line
  {
    TrimSpaceOf([], line, CRLF);
    assert [] + line + CRLF == line + CRLF;
    TrimSpaceOf([], line, []);
    assert [] + line + [] == line;
  }

  /** Three sep-free tokens joined by sep split back into the three tokens. */
  lemma SplitThree(a: seq<byte>, b: seq<byte>, c: seq<byte>, sep: byte)
    requires sep !in a && sep !in b && sep !in c
    ensures Split(a + [sep] + b + [sep] + c, sep) == [a, b, c]
  {
    var bc := b + [sep] + c;
    SplitNoSeparator(c, sep);
    SplitAtFirst(b, sep, c);
    assert Split(bc, sep) == [b, c];
    assert a + [sep] + b + [sep] + c == a + [sep] + bc;
    SplitAtFirst(a, sep, bc);
    assert [a] + [b, c] == [a, b, c];
  }
}
