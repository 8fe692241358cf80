/**
 `parse` scans the deaths of an incomplete last line and still keeps that
 line as the remainder, so the next call scans it again. The corrected parse
 hands `parse` only the complete lines and keeps the incomplete last line
 for later, untouched.
 */
module CompleteLines {
  import opened Wrappers
  import opened Scan
  import opened Events
  import opened Parser
  import opened ParserProps

  /**
   As written: a buffer holding one incomplete line, neither start nor end,
   whose deaths are reported without a panic, is kept whole as the
   remainder, so a second call on that remainder (nothing new appended)
   reports the same deaths again.
   */
  lemma IncompleteDeathReported(v: Version, buf: seq<byte>, pt: TimeParser)
    requires NoByte(buf, NL) && !Contains(buf, START) && !Contains(buf, END)
    requires HandleDeaths(v, buf, pt).panic.None? && HandleDeaths(v, buf, pt).events != []
    ensures var r := Parse(v, buf, pt);
      && r.end == Remainder(buf) && r.events == HandleDeaths(v, buf, pt).events
      && Parse(v, r.end.rest, pt).events == r.events
  {
    ParseNoStart(v, buf, pt);
    FindNone(buf, END);
    TailWithoutEnd(v, buf, pt);
  }

  /** Where the complete lines of `buf` end: just past its last newline, or 0. */
  function Cut(buf: seq<byte>): (n: nat)
    ensures n <= |buf| && NoByte(buf[n..], NL)
    ensures n == 0 || buf[n - 1] == NL
  {
    var r := KeepLastLine(buf);
    assert buf[|buf| - |r|..] == r;
    |buf| - |r|
  }

  /**
   The corrected parse: `parse` on the complete lines only; the incomplete
   last line is appended to the remainder unparsed.
   */
  function ParseComplete(v: Version, buf: seq<byte>, pt: TimeParser): (r: Parsed)
  {
    var cut := Cut(buf);
    var p := Parse(v, buf[..cut], pt);
    match p.end
    case Remainder(rest) => Parsed(p.events, Remainder(rest + buf[cut..]))
    case Panicked(_) => p
  }

  /** An empty buffer parses to nothing. */
  lemma ParseEmpty(v: Version, pt: TimeParser)
    ensures Parse(v, [], pt) == Parsed([], Remainder([]))
  {
    ParseNoStart(v, [], pt);
    FindNone([], END);
    NoDeathLines(v, [], pt);
    TailWithoutEnd(v, [], pt);
  }

  /** A lone incomplete line is kept as it is and nothing is reported from it. */
  lemma ParseCompleteWaits(v: Version, buf: seq<byte>, pt: TimeParser)
    requires NoByte(buf, NL)
    ensures ParseComplete(v, buf, pt) == Parsed([], Remainder(buf))
  {
    assert KeepLastLine(buf) == buf;
    assert buf[..Cut(buf)] == [];
    ParseEmpty(v, pt);
    assert [] + buf[0..] == buf;
  }

  /** On a buffer that ends with a newline, or is empty, the correction changes nothing. */
  lemma ParseCompleteAgrees(v: Version, buf: seq<byte>, pt: TimeParser)
    requires buf == [] || buf[|buf| - 1] == NL
    ensures ParseComplete(v, buf, pt) == Parse(v, buf, pt)
  {
    var cut := Cut(buf);
    assert buf[..cut] == buf;
    match Parse(v, buf, pt).end {
      case Remainder(rest) => assert rest + buf[cut..] == rest;
      case Panicked(_) =>
    }
  }

  /**
   Off the early-return path, `parse` on complete lines keeps nothing: only
   an incomplete last line would be kept, and there is none.
   */
  lemma LinesKeepNothing(v: Version, lines: seq<byte>, pt: TimeParser)
    requires !Closed(lines) && Parse(v, lines, pt).end.Remainder?
    requires lines == [] || lines[|lines| - 1] == NL
    ensures Parse(v, lines, pt).end.rest == []
  {
    ParseRemainderIsSuffix(v, lines, pt);
    ParseOpenRemainderHasNoNewline(v, lines, pt);
  }

  /**
   Unless the last start is already closed, what the corrected parse keeps is
   the incomplete last line alone, and a second call on it with nothing new
   appended reports nothing and keeps it again.
   */
  lemma ParseCompleteIdempotent(v: Version, buf: seq<byte>, pt: TimeParser)
    requires !Closed(buf[..Cut(buf)])
    requires ParseComplete(v, buf, pt).end.Remainder?
    ensures ParseComplete(v, buf, pt).end.rest == buf[Cut(buf)..]
    ensures var r := ParseComplete(v, buf, pt).end.rest;
      ParseComplete(v, r, pt) == Parsed([], Remainder(r))
  {
    var cut := Cut(buf);
    var lines := buf[..cut];
    ParseCompleteRest(v, buf, pt);
    CutEndsLine(buf);
    LinesKeepNothing(v, lines, pt);
    assert [] + buf[cut..] == buf[cut..];
    ParseCompleteWaits(v, buf[cut..], pt);
  }

  /** The complete lines are empty or end with a newline. */
  lemma CutEndsLine(buf: seq<byte>)
    ensures var lines := buf[..Cut(buf)]; lines == [] || lines[|lines| - 1] == NL
  {
    if Cut(buf) > 0 {
      assert buf[..Cut(buf)][Cut(buf) - 1] == buf[Cut(buf) - 1];
    }
  }

  /** What the corrected parse keeps: what `parse` keeps of the complete lines, then the incomplete line. */
  lemma ParseCompleteRest(v: Version, buf: seq<byte>, pt: TimeParser)
    requires ParseComplete(v, buf, pt).end.Remainder?
    ensures Parse(v, buf[..Cut(buf)], pt).end.Remainder?
    ensures ParseComplete(v, buf, pt).end.rest == Parse(v, buf[..Cut(buf)], pt).end.rest + buf[Cut(buf)..]
  {
  }
}
