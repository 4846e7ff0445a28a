/**
 * The part of Go's bufio.Reader that ReadRequest uses, over a connection
 * whose whole input has already arrived: ReadString, Buffered and ReadByte.
 */
module BufReader {
  import opened Bytes

  /** What ReadString(delim) yields: the line, what stays unread, and whether it hit the end. */
  datatype Line = Line(text: seq<byte>, rest: seq<byte>, eof: bool)

  /**
   * The line that ReadString(delim) returns from s: everything up to and
   * including the first delim, or, when s holds no delim, all of s together
   * with the end-of-input error.
   */
  function SplitLine(s: seq<byte>, delim: byte): (l: Line)
    ensures l.text + l.rest == s
    ensures l.eof <==> delim !in s
    ensures l.eof ==> l.rest == []
    ensures !l.eof ==> |l.text| > 0 && l.text[|l.text| - 1] == delim && delim !in l.text[..|l.text| - 1]
    decreases |s|
  {
    if s == [] then Line([], [], true)
    else if s[0] == delim then Line([delim], s[1..], false)
    else
      var l := SplitLine(s[1..], delim);
      assert ([s[0]] + l.text)[1..] == l.text;
      Line([s[0]] + l.text, l.rest, l.eof)
  }

  /** A line that ends in delim and holds no other delim is read whole. */
  lemma {:induction false} SplitLineAt(line: seq<byte>, delim: byte, rest: seq<byte>)
    requires delim !in line
    ensures SplitLine(line + [delim] + rest, delim) == Line(line + [delim], rest, false)
  {
    var s := line + [delim] + rest;
    if line == [] {
      assert s == [delim] + rest && s[0] == delim && s[1..] == rest;
    } else {
      assert s[0] == line[0] != delim;
      assert s[1..] == line[1..] + [delim] + rest;
      SplitLineAt(line[1..], delim, rest);
      assert SplitLine(s, delim) == Line([line[0]] + (line[1..] + [delim]), rest, false);
      assert [line[0]] + (line[1..] + [delim]) == line + [delim];
    }
  }

  /** Input without delim is read to its end, with the end-of-input error. */
  lemma SplitLineToEnd(s: seq<byte>, delim: byte)
    requires delim !in s
    ensures SplitLine(s, delim) == Line(s, [], true)
  {
  }

  /** The line ends at the first delim, found at index k. */
  lemma SplitLineAtIndex(s: seq<byte>, delim: byte, k: nat)
    requires k < |s| && s[k] == delim && forall j | 0 <= j < k :: s[j] != delim
    ensures SplitLine(s, delim) == Line(s[..k + 1], s[k + 1..], false)
  {
    assert delim !in s[..k];
    assert s == s[..k] + [delim] + s[k + 1..];
    assert s[..k + 1] == s[..k] + [delim];
    SplitLineAt(s[..k], delim, s[k + 1..]);
  }

  /** A reader over input that has fully arrived; pos is how much of it was consumed. */
  class Reader {
    const buf: seq<byte>
    var pos: nat

    ghost predicate Valid()
      reads this
    {
      pos <= |buf|
    }

    /** The octets not read yet. */
    function Unread(): seq<byte>
      reads this
      requires Valid()
    {
      buf[pos..]
    }

    /** bufio.NewReader over a connection whose input is `input`. */
    constructor (input: seq<byte>)
      ensures Valid() && buf == input && Unread() == input
    {
      buf := input;
      pos := 0;
    }

    /** Reader.ReadString: reads up to and including delim, or to the end with an error. */
    method ReadString(delim: byte) returns (line: seq<byte>, eof: bool)
      requires Valid()
      modifies this
      ensures Valid()
      ensures SplitLine(old(Unread()), delim) == Line(line, Unread(), eof)
    {
      var s := buf[pos..];
      var n := ScanTo(delim);
      if n < |s| {
        SplitLineAtIndex(s, delim, n);
        line, eof := s[..n + 1], false;
        assert s[n + 1..] == buf[pos + n + 1..];
        pos := pos + n + 1;
      } else {
        SplitLineToEnd(s, delim);
        line, eof := s, true;
        pos := |buf|;
      }
    }

    /** The index in the unread octets of the first delim, or their number when there is none. */
    method ScanTo(delim: byte) returns (n: nat)
      requires Valid()
      ensures n <= |Unread()|
      ensures forall j | 0 <= j < n :: Unread()[j] != delim
      ensures n < |Unread()| ==> Unread()[n] == delim
    {
      var s := buf[pos..];
      n := 0;
      while n < |s| && s[n] != delim
        invariant n <= |s|
        invariant forall j | 0 <= j < n :: s[j] != delim
      {
        n := n + 1;
      }
    }

    /** Reader.Buffered: the number of octets that can be read without waiting. */
    function Buffered(): (n: nat)
      reads this
      requires Valid()
      ensures n == |Unread()|
    {
      |buf| - pos
    }

    /** Reader.ReadByte: the next octet, or an error at the end of the input. */
    method ReadByte() returns (b: byte, err: bool)
      requires Valid()
      modifies this
      ensures Valid()
      ensures err <==> old(Unread()) == []
      ensures err ==> Unread() == old(Unread())
      ensures !err ==> b == old(Unread())[0] && Unread() == old(Unread())[1..]
    {
      if pos == |buf| {
        return 0, true;
      }
      b, err := buf[pos], false;
      pos := pos + 1;
    }
  }
}
