/**
 * Octets and the handful of Go library operations on them that the server
 * uses: strings.TrimSpace, strings.Split, strings.Index, strings.Cut,
 * strings.HasPrefix and fmt's %d verb.  Go strings are byte sequences, so
 * every string of the server is a `seq<byte>` here.
 */
module Bytes {
  import opened Wrappers

  /** One octet, as Go's `byte`. */
  newtype byte = x: int | 0 <= x < 256

  /** The octets of an ASCII string literal. */
  function Octets(s: string): (r: seq<byte>)
    ensures |r| == |s|
  {
    seq(|s|, i requires 0 <= i < |s| => (s[i] as int % 256) as byte)
  }

  /** The octets of two literals written one after the other. */
  lemma OctetsAppend(a: string, b: string)
    ensures Octets(a + b) == Octets(a) + Octets(b)
  {
  }

  /** Three pieces, with the last two taken together. */
  lemma AppendThree(a: seq<byte>, b: seq<byte>, c: seq<byte>)
    ensures a + b + c == a + (b + c)
  {
  }

  /** Appending chunks one after another appends their concatenation. */
  lemma AppendChunks(start: seq<byte>, a: seq<byte>, b: seq<byte>, c: seq<byte>)
    ensures start + a + b + c == start + (a + b + c)
  {
  }

  /** The same for the six chunks of a response with content. */
  lemma AppendSixChunks(start: seq<byte>, a: seq<byte>, b: seq<byte>, c: seq<byte>, d: seq<byte>, e: seq<byte>, f: seq<byte>)
    ensures start + a + b + c + d + e + f == start + (a + b + c + d + (e + f))
  {
  }

  /** Six pieces, with the third and fourth taken together. */
  lemma RegroupSix(a: seq<byte>, b: seq<byte>, c: seq<byte>, d: seq<byte>, e: seq<byte>, f: seq<byte>)
    ensures a + b + c + d + e + f == a + b + (c + d) + e + f
  {
  }

  const TAB: byte := 9
  const LF: byte := 10
  const CR: byte := 13
  const SP: byte := 32
  const COLON: byte := 58
  const CRLF: seq<byte> := [CR, LF]

  // ---------------------------------------------------------------------
  // strings.TrimSpace, restricted to ASCII white space
  // ---------------------------------------------------------------------

  /** Go's ASCII white space: '\t', '\n', '\v', '\f', '\r' and ' '. */
  predicate IsSpace(b: byte) {
    b == SP || TAB <= b <= CR
  }

  ghost predicate AllSpace(s: seq<byte>) {
    forall i | 0 <= i < |s| :: IsSpace(s[i])
  }

  /** The number of white-space octets that s starts with. */
  function LeadingSpace(s: seq<byte>): (n: nat)
    ensures n <= |s| && AllSpace(s[..n])
    ensures n < |s| ==> !IsSpace(s[n])
    decreases |s|
  {
    if s != [] && IsSpace(s[0]) then 1 + LeadingSpace(s[1..]) else 0
  }

  /** The number of white-space octets that s ends with. */
  function TrailingSpace(s: seq<byte>): (n: nat)
    ensures n <= |s| && AllSpace(s[|s| - n..])
    ensures n < |s| ==> !IsSpace(s[|s| - n - 1])
    decreases |s|
  {
    if s != [] && IsSpace(s[|s| - 1]) then
      var front := s[..|s| - 1];
      var m := TrailingSpace(front);
      assert s[|s| - (m + 1)..] == front[|front| - m..] + [s[|s| - 1]];
      1 + m
    else 0
  }

  /**
   * strings.TrimSpace: s with its leading and trailing white space removed.
   * The result is the slice of s that starts after the leading white space;
   * everything of s around it is white space, and the result neither starts
   * nor ends with white space.
   */
  function TrimSpace(s: seq<byte>): (r: seq<byte>)
    ensures LeadingSpace(s) + |r| <= |s|
    ensures r == s[LeadingSpace(s)..LeadingSpace(s) + |r|]
    ensures AllSpace(s[LeadingSpace(s) + |r|..])
    ensures r != [] ==> !IsSpace(r[0]) && !IsSpace(r[|r| - 1])
  {
    var t := s[LeadingSpace(s)..];
    t[..|t| - TrailingSpace(t)]
  }

  /**
   * TrimSpace takes exactly the white space around m off: m is what is left
   * of pre + m + post when pre and post are white space and m neither
   * starts nor ends with white space.
   */
  lemma TrimSpaceOf(pre: seq<byte>, m: seq<byte>, post: seq<byte>)
    requires AllSpace(pre) && AllSpace(post)
    requires m != [] ==> !IsSpace(m[0]) && !IsSpace(m[|m| - 1])
    ensures TrimSpace(pre + m + post) == m
  {
    var s := pre + m + post;
    if m == [] {
      assert s == pre + post;
      AllSpaceLeading(pre + post);
      assert s[|s|..] == [];
    } else {
      assert s == pre + (m + post);
      LeadingSpaceOf(pre, m + post);
      var t := s[|pre|..];
      assert t == m + post;
      TrailingSpaceOf(m, post);
      assert t[..|t| - |post|] == m;
    }
  }

  /** A string of white space is all leading white space. */
  lemma {:induction false} AllSpaceLeading(s: seq<byte>)
    requires AllSpace(s)
    ensures LeadingSpace(s) == |s|
    decreases |s|
  {
    if s != [] {
      assert IsSpace(s[0]);
      AllSpaceLeading(s[1..]);
    }
  }

  /** The leading white space of pre + rest is pre, when rest starts with something else. */
  lemma {:induction false} LeadingSpaceOf(pre: seq<byte>, rest: seq<byte>)
    requires AllSpace(pre) && rest != [] && !IsSpace(rest[0])
    ensures LeadingSpace(pre + rest) == |pre|
    decreases |pre|
  {
    var s := pre + rest;
    if pre == [] {
      assert s == rest;
    } else {
      assert IsSpace(s[0]);
      assert s[1..] == pre[1..] + rest;
      LeadingSpaceOf(pre[1..], rest);
    }
  }

  /** The trailing white space of rest + post is post, when rest ends with something else. */
  lemma {:induction false} TrailingSpaceOf(rest: seq<byte>, post: seq<byte>)
    requires AllSpace(post) && rest != [] && !IsSpace(rest[|rest| - 1])
    ensures TrailingSpace(rest + post) == |post|
    decreases |post|
  {
    var s := rest + post;
    if post == [] {
      assert s == rest;
    } else {
      assert IsSpace(s[|s| - 1]);
      var front := post[..|post| - 1];
      assert s[..|s| - 1] == rest + front;
      TrailingSpaceOf(rest, front);
    }
  }

  /** Trimming twice is trimming once. */
  lemma TrimSpaceIdempotent(s: seq<byte>)
    ensures TrimSpace(TrimSpace(s)) == TrimSpace(s)
  {
    var r := TrimSpace(s);
    TrimSpaceOf([], r, []);
    assert [] + r + [] == r;
  }

  // ---------------------------------------------------------------------
  // strings.Split with a one-octet separator, and its inverse strings.Join
  // ---------------------------------------------------------------------

  /** How often b occurs in s. */
  function Count(s: seq<byte>, b: byte): (n: nat)
    ensures n == 0 <==> b !in s
    ensures n <= |s|
  {
    if s == [] then 0 else (if s[0] == b then 1 else 0) + Count(s[1..], b)
  }

  /** strings.Join: the parts with sep between each two neighbours. */
  function Join(parts: seq<seq<byte>>, sep: byte): seq<byte>
  {
    if |parts| == 0 then []
    else if |parts| == 1 then parts[0]
    else parts[0] + [sep] + Join(parts[1..], sep)
  }

  /**
   * strings.Split: s cut at every occurrence of sep.  There is one part more
   * than there are separators, no part contains sep, and joining the parts
   * with sep gives s back.
   */
  function Split(s: seq<byte>, sep: byte): (parts: seq<seq<byte>>)
    ensures |parts| == Count(s, sep) + 1
    ensures forall i | 0 <= i < |parts| :: sep !in parts[i]
    ensures Join(parts, sep) == s
    decreases |s|
  {
    if s == [] then [[]]
    else
      var rest := Split(s[1..], sep);
      if s[0] == sep then
        JoinEmptyFirst(rest, sep);
        [[]] + rest
      else
        JoinExtendFirst(s[0], rest, sep);
        [[s[0]] + rest[0]] + rest[1..]
  }

  /** An empty first part puts a separator in front of the join of the others. */
  lemma JoinEmptyFirst(rest: seq<seq<byte>>, sep: byte)
    requires rest != []
    ensures Join([[]] + rest, sep) == [sep] + Join(rest, sep)
  {
    assert ([[]] + rest)[1..] == rest;
  }

  /** Putting b in front of the first part puts b in front of the join. */
  lemma JoinExtendFirst(b: byte, rest: seq<seq<byte>>, sep: byte)
    requires rest != []
    ensures var parts := [[b] + rest[0]] + rest[1..];
      && |parts| == |rest| && parts[0] == [b] + rest[0]
      && (forall i | 0 < i < |parts| :: parts[i] == rest[i])
      && Join(parts, sep) == [b] + Join(rest, sep)
  {
    var parts := [[b] + rest[0]] + rest[1..];
    assert parts[1..] == rest[1..];
  }

  lemma {:induction false} SplitNoSeparator(p: seq<byte>, sep: byte)
    requires sep !in p
    ensures Split(p, sep) == [p]
    decreases |p|
  {
    if p != [] {
      SplitNoSeparator(p[1..], sep);
      assert [p[0]] + p[1..] == p;
    }
  }

  lemma {:induction false} SplitAtFirst(p: seq<byte>, sep: byte, t: seq<byte>)
    requires sep !in p
    ensures Split(p + [sep] + t, sep) == [p] + Split(t, sep)
    decreases |p|
  {
    var s := p + [sep] + t;
    if p == [] {
      assert s[1..] == t;
    } else {
      assert s[1..] == p[1..] + [sep] + t;
      SplitAtFirst(p[1..], sep, t);
      var rest := Split(s[1..], sep);
      assert rest[0] == p[1..] && rest[1..] == Split(t, sep);
      assert s[0] == p[0] != sep;
      assert [p[0]] + p[1..] == p;
    }
  }

  /** Split undoes Join when no part holds the separator. */
  lemma {:induction false} SplitJoin(parts: seq<seq<byte>>, sep: byte)
    requires |parts| >= 1
    requires forall i | 0 <= i < |parts| :: sep !in parts[i]
    ensures Split(Join(parts, sep), sep) == parts
    decreases |parts|
  {
    if |parts| == 1 {
      SplitNoSeparator(parts[0], sep);
    } else {
      SplitJoin(parts[1..], sep);
      SplitAtFirst(parts[0], sep, Join(parts[1..], sep));
      assert [parts[0]] + parts[1..] == parts;
    }
  }

  // ---------------------------------------------------------------------
  // strings.Index, strings.Cut and strings.HasPrefix
  // ---------------------------------------------------------------------

  /** sep occurs in s at index i. */
  predicate OccursAt(s: seq<byte>, sep: seq<byte>, i: nat) {
    i + |sep| <= |s| && s[i..i + |sep|] == sep
  }

  /** The first index at or after `from` where sep occurs in s. */
  function IndexFrom(s: seq<byte>, sep: seq<byte>, from: nat): (k: Option<nat>)
    ensures k.Some? ==> from <= k.value && OccursAt(s, sep, k.value)
    ensures k.Some? ==> forall j | from <= j < k.value :: !OccursAt(s, sep, j)
    ensures k.None? ==> forall j | from <= j :: !OccursAt(s, sep, j)
    decreases |s| - from
  {
    if from + |sep| > |s| then None
    else if s[from..from + |sep|] == sep then Some(from)
    else IndexFrom(s, sep, from + 1)
  }

  /** strings.Index: the first index where sep occurs in s, if any. */
  function Index(s: seq<byte>, sep: seq<byte>): (k: Option<nat>)
    ensures k.Some? ==> OccursAt(s, sep, k.value)
    ensures k.Some? ==> forall j | 0 <= j < k.value :: !OccursAt(s, sep, j)
    ensures k.None? ==> forall j :: !OccursAt(s, sep, j)
  {
    IndexFrom(s, sep, 0)
  }

  /** What strings.Cut returns: the text before and after sep, and whether sep was found. */
  datatype CutParts = CutParts(before: seq<byte>, after: seq<byte>, found: bool)

  /**
   * strings.Cut: s around the first occurrence of sep.  When sep occurs, s is
   * before + sep + after and sep does not start anywhere inside before; when
   * it does not, before is all of s and after is empty.
   */
  function Cut(s: seq<byte>, sep: seq<byte>): (c: CutParts)
    ensures c.found ==> s == c.before + sep + c.after
    ensures c.found ==> forall j | 0 <= j < |c.before| :: !OccursAt(s, sep, j)
    ensures !c.found ==> c.before == s && c.after == []
    ensures !c.found <==> forall j :: !OccursAt(s, sep, j)
  {
    match Index(s, sep)
    case Some(k) =>
      assert s == s[..k] + sep + s[k + |sep|..];
      CutParts(s[..k], s[k + |sep|..], true)
    case None => CutParts(s, [], false)
  }

  /** Cut finds sep right after a prefix in which sep does not start. */
  lemma CutAfter(p: seq<byte>, sep: seq<byte>, t: seq<byte>)
    requires forall j | 0 <= j < |p| :: !OccursAt(p + sep + t, sep, j)
    ensures Cut(p + sep + t, sep) == CutParts(p, t, true)
  {
    var s := p + sep + t;
    assert OccursAt(s, sep, |p|) by {
      assert s[|p|..|p| + |sep|] == sep;
    }
    var c := Cut(s, sep);
    assert |c.before| <= |p|;
    assert c.before == s[..|p|] == p;
    assert c.after == s[|p| + |sep|..] == t;
  }

  /** A one-octet separator occurs exactly where that octet is. */
  lemma OccursAtOctet(s: seq<byte>, b: byte, j: nat)
    ensures OccursAt(s, [b], j) <==> j < |s| && s[j] == b
  {
    if j < |s| {
      assert s[j..j + 1] == [s[j]];
    }
  }

  /**
   * Split and Cut agree: the first part of Split is the text before the
   * first separator, and the other parts are the split of the text after it.
   */
  lemma SplitByCut(s: seq<byte>, sep: byte)
    ensures var c := Cut(s, [sep]);
      && (c.found <==> sep in s)
      && (c.found ==> Split(s, sep) == [c.before] + Split(c.after, sep))
      && (!c.found ==> Split(s, sep) == [s])
  {
    var c := Cut(s, [sep]);
    if sep in s {
      var j :| 0 <= j < |s| && s[j] == sep;
      OccursAtOctet(s, sep, j);
      assert c.found;
      assert sep !in c.before by {
        forall i | 0 <= i < |c.before|
          ensures c.before[i] != sep
        {
          OccursAtOctet(s, sep, i);
          assert s[i] == c.before[i];
        }
      }
      SplitAtFirst(c.before, sep, c.after);
    } else {
      forall j: nat
        ensures !OccursAt(s, [sep], j)
      {
        OccursAtOctet(s, sep, j);
      }
      SplitNoSeparator(s, sep);
    }
  }

  /** strings.HasPrefix. */
  predicate HasPrefix(s: seq<byte>, prefix: seq<byte>) {
    |prefix| <= |s| && s[..|prefix|] == prefix
  }

  /**
   * HasPrefix holds exactly when s is prefix followed by some text, and then
   * Cut finds prefix at the very start, with that text after it.
   */
  lemma HasPrefixCut(s: seq<byte>, prefix: seq<byte>)
    ensures HasPrefix(s, prefix) <==> exists t :: s == prefix + t
    ensures HasPrefix(s, prefix) ==> Cut(s, prefix) == CutParts([], s[|prefix|..], true)
  {
    if HasPrefix(s, prefix) {
      var t := s[|prefix|..];
      assert s == [] + prefix + t;
      CutAfter([], prefix, t);
    }
  }

  /** s ends with suffix. */
  ghost predicate EndsWith(s: seq<byte>, suffix: seq<byte>) {
    |suffix| <= |s| && s[|s| - |suffix|..] == suffix
  }

  /** Whatever b ends with, a + b ends with too. */
  lemma EndsWithAppend(a: seq<byte>, b: seq<byte>, suffix: seq<byte>)
    requires EndsWith(b, suffix)
    ensures EndsWith(a + b, suffix)
  {
    assert (a + b)[|a + b| - |suffix|..] == b[|b| - |suffix|..];
  }

  // ---------------------------------------------------------------------
  // fmt's %d verb on a length, and the decimal value of digits
  // ---------------------------------------------------------------------

  /** An ASCII digit, '0' (48) to '9' (57). */
  predicate IsDigit(b: byte) {
    48 <= b <= 57
  }

  /** The decimal digits of n without leading zeros, as fmt.Sprintf("%d", n) writes them. */
  function Decimal(n: nat): (ds: seq<byte>)
    ensures 1 <= |ds|
    ensures forall i | 0 <= i < |ds| :: IsDigit(ds[i])
    ensures |ds| > 1 ==> ds[0] != 48
  {
    if n < 10 then [(48 + n) as byte]
    else Decimal(n / 10) + [(48 + n % 10) as byte]
  }

  /** The number that a sequence of decimal digits denotes. */
  function DecimalValue(ds: seq<byte>): nat
    requires forall i | 0 <= i < |ds| :: IsDigit(ds[i])
  {
    if ds == [] then 0
    else
      assert IsDigit(ds[|ds| - 1]);
      10 * DecimalValue(ds[..|ds| - 1]) + (ds[|ds| - 1] as int - 48)
  }

  /** Reading the digits that %d wrote gives the number back. */
  lemma {:induction false} DecimalRoundTrip(n: nat)
    ensures DecimalValue(Decimal(n)) == n
    decreases n
  {
    var ds := Decimal(n);
    if n >= 10 {
      DecimalRoundTrip(n / 10);
      assert ds[..|ds| - 1] == Decimal(n / 10);
    }
  }

  /** Digits are neither white space nor line breaks. */
  lemma DigitsNotSpace(ds: seq<byte>)
    requires forall i | 0 <= i < |ds| :: IsDigit(ds[i])
    ensures LF !in ds && CR !in ds && COLON !in ds
    ensures ds != [] ==> !IsSpace(ds[0]) && !IsSpace(ds[|ds| - 1])
  {
  }
}
