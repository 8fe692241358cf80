/** What one call of the parser promises, for both versions of it. */
module ParserProps {
  import opened Wrappers
  import opened Scan
  import opened Flags
  import opened Events
  import opened Parser

  predicate OnlyDeaths(es: seq<Event>) {
    forall k | 0 <= k < |es| :: es[k].PlayerDeath?
  }

  function CountStarts(es: seq<Event>): nat {
    if es == [] then 0 else (if es[0].EncounterStart? then 1 else 0) + CountStarts(es[1..])
  }

  function CountEnds(es: seq<Event>): nat {
    if es == [] then 0 else (if es[0].EncounterEnd? then 1 else 0) + CountEnds(es[1..])
  }

  lemma {:induction false} CountsAppend(a: seq<Event>, b: seq<Event>)
    ensures CountStarts(a + b) == CountStarts(a) + CountStarts(b)
    ensures CountEnds(a + b) == CountEnds(a) + CountEnds(b)
  {
    if a != [] {
      assert (a + b)[0] == a[0];
      assert (a + b)[1..] == a[1..] + b;
      CountsAppend(a[1..], b);
    } else {
      assert a + b == b;
    }
  }

  lemma {:induction false} CountsOfDeaths(es: seq<Event>)
    requires OnlyDeaths(es)
    ensures CountStarts(es) == 0 && CountEnds(es) == 0
  {
    if es != [] {
      assert OnlyDeaths(es[1..]) by {
        forall k | 0 <= k < |es| - 1 ensures es[1..][k].PlayerDeath? {
          assert es[1..][k] == es[k + 1];
        }
      }
      CountsOfDeaths(es[1..]);
    }
  }

  /** The line of the last `ENCOUNTER_START`, to the end of the buffer. */
  function StartLine(buf: seq<byte>): (line: seq<byte>)
    requires Contains(buf, START)
    ensures IsSuffix(line, buf)
  {
    RFindNone(buf, START);
    buf[LineStart(buf, RFind(buf, START).value)..]
  }

  /** The call returns early: the last start is followed by an end from its line on. */
  predicate Closed(buf: seq<byte>) {
    Contains(buf, START) && Contains(StartLine(buf), END)
  }

  /** With a start, `parse` goes on from the line of the last one. */
  lemma ParseWithStart(v: Version, buf: seq<byte>, pt: TimeParser)
    requires Contains(buf, START)
    ensures Parse(v, buf, pt) == ParseFromStart(v, StartLine(buf), pt)
  {
    RFindNone(buf, START);
  }

  /** Without a start, `parse` is its second half. */
  lemma ParseNoStart(v: Version, buf: seq<byte>, pt: TimeParser)
    requires !Contains(buf, START)
    ensures Parse(v, buf, pt) == ParseTail(v, buf, pt)
  {
    RFindNone(buf, START);
  }

  /** With an end after the start, nothing is emitted and the buffer skips past the end's line. */
  lemma FromStartClosed(v: Version, line: seq<byte>, pt: TimeParser)
    requires Contains(line, END)
    ensures ParseFromStart(v, line, pt) == Parsed([], Remainder(SkipEncounterEnd(v, line).1))
  {
    SkipEncounterEndSpec(v, line);
  }

  /** An open start line with a timestamp and a name: the start, then the tail after the start line. */
  lemma FromStartOpen(v: Version, line: seq<byte>, pt: TimeParser, dt: Time, rest: seq<byte>, name: seq<byte>)
    requires !Contains(line, END)
    requires DatetimeFromLine(line, pt) == Some((dt, rest)) && EncounterFromLine(rest) == Some(name)
    ensures var next := SkipToNextLine(rest); var t := ParseTail(v, next, pt);
      && ParseFromStart(v, line, pt) == Parsed([EncounterStart(dt, name)] + t.events, t.end)
      && IsSuffix(next, line) && !Contains(next, END)
  {
    SkipEncounterEndSpec(v, line);
    var next := SkipToNextLine(rest);
    SuffixTrans(next, rest, line);
    NotContainsSuffix(line, next, END);
  }

  /** An open start line whose timestamp or name is malformed: the call panics, emitting nothing. */
  lemma FromStartPanics(v: Version, line: seq<byte>, pt: TimeParser)
    requires !Contains(line, END)
    requires DatetimeFromLine(line, pt).None? || EncounterFromLine(DatetimeFromLine(line, pt).value.1).None?
    ensures ParseFromStart(v, line, pt).events == [] && ParseFromStart(v, line, pt).end.Panicked?
  {
    SkipEncounterEndSpec(v, line);
  }

  lemma TailWithEnd(v: Version, buf: seq<byte>, pt: TimeParser, e: nat)
    requires Find(buf, END) == Some(e)
    ensures var r := ParseTail(v, buf, pt); var d := HandleDeaths(v, buf[..e], pt);
      && (d.panic.None? ==> r.end.Remainder? && r.events == d.events + [EncounterEnd])
      && (r.end.Remainder? ==> IsSuffix(r.end.rest, buf) && NoByte(r.end.rest, NL))
      && (d.panic.Some? ==> r == Parsed(d.events, Panicked(d.panic.value)))
  {
    var d := HandleDeaths(v, buf[..e], pt);
    if d.panic.None? {
      var a := SkipToNextLine(buf[e..]);
      SuffixTrans(a, buf[e..], buf);
      SuffixTrans(KeepLastLine(a), a, buf);
    }
  }

  lemma TailWithoutEnd(v: Version, buf: seq<byte>, pt: TimeParser)
    requires Find(buf, END).None?
    ensures var r := ParseTail(v, buf, pt); var d := HandleDeaths(v, buf, pt);
      && r.events == d.events
      && (d.panic.None? <==> r.end.Remainder?)
      && (r.end.Remainder? ==> r.end.rest == KeepLastLine(buf))
  {
  }

  /**
   The second half of `parse` only emits deaths, followed by one
   `EncounterEnd` exactly when the buffer holds `ENCOUNTER_END` and no death
   line panicked; its remainder is a newline-free suffix.
   */
  lemma ParseTailShape(v: Version, buf: seq<byte>, pt: TimeParser)
    ensures var r := ParseTail(v, buf, pt);
      && (r.end.Remainder? ==> IsSuffix(r.end.rest, buf) && NoByte(r.end.rest, NL))
      && (r.end.Remainder? && Contains(buf, END) ==>
            |r.events| > 0 && r.events[|r.events| - 1] == EncounterEnd
            && OnlyDeaths(r.events[..|r.events| - 1]))
      && (r.end.Panicked? || !Contains(buf, END) ==> OnlyDeaths(r.events))
  {
    FindNone(buf, END);
    match Find(buf, END)
    case Some(e) =>
      TailWithEnd(v, buf, pt, e);
      TailEventsWithEnd(v, buf, pt, e);
    case None =>
      TailWithoutEnd(v, buf, pt);
  }

  lemma TailEventsWithEnd(v: Version, buf: seq<byte>, pt: TimeParser, e: nat)
    requires Find(buf, END) == Some(e)
    ensures var r := ParseTail(v, buf, pt);
      && (r.end.Remainder? ==>
            |r.events| > 0 && r.events[|r.events| - 1] == EncounterEnd
            && OnlyDeaths(r.events[..|r.events| - 1]))
      && (r.end.Panicked? ==> OnlyDeaths(r.events))
  {
    TailWithEnd(v, buf, pt, e);
    var r := ParseTail(v, buf, pt);
    var d := HandleDeaths(v, buf[..e], pt);
    if d.panic.None? {
      DeathsThenEnd(r.events, d.events);
    }
  }

  lemma DeathsThenEnd(es: seq<Event>, ds: seq<Event>)
    requires es == ds + [EncounterEnd] && OnlyDeaths(ds)
    ensures |es| > 0 && es[|es| - 1] == EncounterEnd && OnlyDeaths(es[..|es| - 1])
  {
    assert es[..|es| - 1] == ds;
  }

  /** A remainder of the second half of the call, when there is one, is a newline-free suffix. */
  lemma TailRemainder(v: Version, buf: seq<byte>, pt: TimeParser)
    requires ParseTail(v, buf, pt).end.Remainder?
    ensures IsSuffix(ParseTail(v, buf, pt).end.rest, buf) && NoByte(ParseTail(v, buf, pt).end.rest, NL)
  {
    ParseTailShape(v, buf, pt);
  }

  /** From the start line on, a remainder is a suffix of that line. */
  lemma FromStartRemainder(v: Version, line: seq<byte>, pt: TimeParser)
    requires ParseFromStart(v, line, pt).end.Remainder?
    ensures IsSuffix(ParseFromStart(v, line, pt).end.rest, line)
    ensures !Contains(line, END) ==> NoByte(ParseFromStart(v, line, pt).end.rest, NL)
  {
    if Contains(line, END) {
      FromStartClosed(v, line, pt);
    } else if DatetimeFromLine(line, pt).None? || EncounterFromLine(DatetimeFromLine(line, pt).value.1).None? {
      FromStartPanics(v, line, pt);
    } else {
      var (dt, rest) := DatetimeFromLine(line, pt).value;
      var name := EncounterFromLine(rest).value;
      FromStartOpen(v, line, pt, dt, rest, name);
      var next := SkipToNextLine(rest);
      TailRemainder(v, next, pt);
      SuffixTrans(ParseTail(v, next, pt).end.rest, next, line);
    }
  }

  /** Every remainder `parse` returns is a suffix of its input. */
  lemma ParseRemainderIsSuffix(v: Version, buf: seq<byte>, pt: TimeParser)
    requires Parse(v, buf, pt).end.Remainder?
    ensures IsSuffix(Parse(v, buf, pt).end.rest, buf)
  {
    if Contains(buf, START) {
      ParseWithStart(v, buf, pt);
      var line := StartLine(buf);
      FromStartRemainder(v, line, pt);
      SuffixTrans(Parse(v, buf, pt).end.rest, line, buf);
    } else {
      ParseNoStart(v, buf, pt);
      TailRemainder(v, buf, pt);
    }
  }

  /**
   When the last start is already closed, the call emits nothing at all and
   keeps what follows the line of the last `ENCOUNTER_END` (which may still
   hold complete lines); no `ENCOUNTER_END` is left in it.
   */
  lemma ParseClosedEmitsNothing(v: Version, buf: seq<byte>, pt: TimeParser)
    requires Closed(buf)
    ensures var r := Parse(v, buf, pt);
      && r.events == [] && r.end.Remainder?
      && IsSuffix(r.end.rest, buf) && !Contains(r.end.rest, END)
      && r.end.rest == SkipEncounterEnd(v, StartLine(buf)).1
  {
    var line := StartLine(buf);
    ParseWithStart(v, buf, pt);
    FromStartClosed(v, line, pt);
    SkipEncounterEndSpec(v, line);
    SuffixTrans(SkipEncounterEnd(v, line).1, line, buf);
  }

  /** Off the early-return path, the remainder holds no newline: only an incomplete last line is kept. */
  lemma ParseOpenRemainderHasNoNewline(v: Version, buf: seq<byte>, pt: TimeParser)
    requires !Closed(buf) && Parse(v, buf, pt).end.Remainder?
    ensures NoByte(Parse(v, buf, pt).end.rest, NL)
  {
    if Contains(buf, START) {
      ParseWithStart(v, buf, pt);
      FromStartRemainder(v, StartLine(buf), pt);
    } else {
      ParseNoStart(v, buf, pt);
      TailRemainder(v, buf, pt);
    }
  }

  /** The tail of a call holds at most one `EncounterEnd` and no start. */
  lemma TailCounts(v: Version, buf: seq<byte>, pt: TimeParser)
    ensures CountStarts(ParseTail(v, buf, pt).events) == 0
    ensures CountEnds(ParseTail(v, buf, pt).events) <= 1
    ensures !Contains(buf, END) ==> CountEnds(ParseTail(v, buf, pt).events) == 0
  {
    FindNone(buf, END);
    match Find(buf, END) {
      case Some(e) =>
        TailWithEnd(v, buf, pt, e);
        var d := HandleDeaths(v, buf[..e], pt);
        EventCounts(ParseTail(v, buf, pt).events, d.events);
      case None =>
        TailWithoutEnd(v, buf, pt);
        CountsOfDeaths(ParseTail(v, buf, pt).events);
    }
  }

  /** Deaths, possibly followed by one end, count no start and at most one end. */
  lemma EventCounts(es: seq<Event>, ds: seq<Event>)
    requires OnlyDeaths(ds) && (es == ds || es == ds + [EncounterEnd])
    ensures CountStarts(es) == 0 && CountEnds(es) <= 1
  {
    CountsOfDeaths(ds);
    CountsAppend(ds, [EncounterEnd]);
  }

  lemma FromStartCounts(v: Version, line: seq<byte>, pt: TimeParser)
    ensures var r := ParseFromStart(v, line, pt);
      CountStarts(r.events) + CountEnds(r.events) <= 1
  {
    if Contains(line, END) {
      FromStartClosed(v, line, pt);
    } else if DatetimeFromLine(line, pt).None? || EncounterFromLine(DatetimeFromLine(line, pt).value.1).None? {
      FromStartPanics(v, line, pt);
    } else {
      var (dt, rest) := DatetimeFromLine(line, pt).value;
      var name := EncounterFromLine(rest).value;
      FromStartOpen(v, line, pt, dt, rest, name);
      var next := SkipToNextLine(rest);
      TailCounts(v, next, pt);
      CountsAppend([EncounterStart(dt, name)], ParseTail(v, next, pt).events);
    }
  }

  /**
   One call emits at most one `EncounterStart` and at most one
   `EncounterEnd`, and never both.
   */
  lemma ParseAtMostOneStartOrEnd(v: Version, buf: seq<byte>, pt: TimeParser)
    ensures var r := Parse(v, buf, pt);
      CountStarts(r.events) + CountEnds(r.events) <= 1
  {
    if Contains(buf, START) {
      ParseWithStart(v, buf, pt);
      FromStartCounts(v, StartLine(buf), pt);
    } else {
      ParseNoStart(v, buf, pt);
      TailCounts(v, buf, pt);
    }
  }

  /**
   An open encounter: the call emits the start first, with the timestamp and
   the underscored name of the start line, and after it only deaths.
   */
  lemma ParseOpenEncounter(v: Version, buf: seq<byte>, pt: TimeParser)
    requires Contains(buf, START) && !Closed(buf)
    requires DatetimeFromLine(StartLine(buf), pt).Some?
    requires EncounterFromLine(DatetimeFromLine(StartLine(buf), pt).value.1).Some?
    ensures var r := Parse(v, buf, pt); var (t, rest) := DatetimeFromLine(StartLine(buf), pt).value;
      && |r.events| > 0
      && r.events[0] == EncounterStart(t, EncounterFromLine(rest).value)
      && OnlyDeaths(r.events[1..])
  {
    var line := StartLine(buf);
    var (dt, rest) := DatetimeFromLine(line, pt).value;
    var name := EncounterFromLine(rest).value;
    ParseWithStart(v, buf, pt);
    FromStartOpen(v, line, pt, dt, rest, name);
    var next := SkipToNextLine(rest);
    ParseTailShape(v, next, pt);
    StartThenDeaths(Parse(v, buf, pt).events, EncounterStart(dt, name), ParseTail(v, next, pt).events);
  }

  lemma StartThenDeaths(es: seq<Event>, start: Event, ds: seq<Event>)
    requires es == [start] + ds && OnlyDeaths(ds)
    ensures |es| > 0 && es[0] == start && OnlyDeaths(es[1..])
  {
    assert es[1..] == ds;
  }

  /**
   Without a start, the deaths before the first `ENCOUNTER_END` are emitted,
   then one `EncounterEnd`; deaths after that end are not looked at.
   */
  lemma ParseWithoutStart(v: Version, buf: seq<byte>, pt: TimeParser)
    requires !Contains(buf, START)
    ensures var r := Parse(v, buf, pt);
      match Find(buf, END)
      case Some(e) =>
        var d := HandleDeaths(v, buf[..e], pt);
        d.panic.None? ==> r.events == d.events + [EncounterEnd]
      case None => r.events == HandleDeaths(v, buf, pt).events
  {
    ParseNoStart(v, buf, pt);
    match Find(buf, END)
    case Some(e) => TailWithEnd(v, buf, pt, e);
    case None => TailWithoutEnd(v, buf, pt);
  }

  /**
   Only the last start counts: everything before its line is dropped without
   effect, the call behaves as if the buffer began at that line.
   */
  lemma ParseDiscardsBeforeLastStart(v: Version, buf: seq<byte>, pt: TimeParser)
    requires Contains(buf, START)
    ensures Parse(v, buf, pt) == Parse(v, StartLine(buf), pt)
  {
    var b := StartLine(buf);
    StartLineStartsAtStart(buf);
    ParseWithStart(v, buf, pt);
    ParseWithStart(v, b, pt);
  }

  /** The start line is its own start line. */
  lemma StartLineStartsAtStart(buf: seq<byte>)
    requires Contains(buf, START)
    ensures Contains(StartLine(buf), START) && StartLine(StartLine(buf)) == StartLine(buf)
  {
    RFindNone(buf, START);
    var s := RFind(buf, START).value;
    var ls := LineStart(buf, s);
    var b := buf[ls..];
    LastInSuffix(buf, START, s, ls);
    RFindNone(b, START);
    assert b[..s - ls] == buf[ls..s];
    assert NoByte(b[..s - ls], NL);
    assert LineStart(b, s - ls) == 0;
    assert b[0..] == b;
  }

  /** The last occurrence keeps its place, shifted, in a suffix that holds it. */
  lemma LastInSuffix(buf: seq<byte>, pat: seq<byte>, s: nat, ls: nat)
    requires RFind(buf, pat) == Some(s) && ls <= s
    ensures RFind(buf[ls..], pat) == Some(s - ls)
  {
    RFindLast(buf, pat);
    var b := buf[ls..];
    assert OccursAt(b, pat, s - ls) by {
      forall t | 0 <= t < |pat|
        ensures b[s - ls + t] == pat[t]
      {
        assert b[s - ls + t] == buf[s + t];
      }
    }
    forall j | 0 <= j <= |b|
      ensures OccursAt(b, pat, j) ==> RFind(b, pat).Some? && j <= s - ls
    {
      FindBeforeLast(b, pat, |b| + 1, j);
      if OccursAt(b, pat, j) {
        assert buf[ls..|buf|] == b;
        OccursInSlice(buf, pat, ls, |buf|, j);
      }
    }
    RFindLast(b, pat);
  }

  /** A buffer without `UNIT_DIED` yields no deaths and no panic. */
  lemma NoDeathLines(v: Version, buf: seq<byte>, pt: TimeParser)
    requires !Contains(buf, UNIT_DIED)
    ensures HandleDeaths(v, buf, pt) == Deaths([], None)
  {
    FindIterFromOccurs(buf, UNIT_DIED, 0);
    assert DeathsIn(v, buf, pt) == [];
  }

  /**
   The two versions differ only in how deaths are reported: on a buffer
   without `UNIT_DIED` they behave identically.
   */
  lemma VersionsAgreeWithoutDeaths(buf: seq<byte>, pt: TimeParser)
    requires !Contains(buf, UNIT_DIED)
    ensures Parse(Current, buf, pt) == Parse(Legacy, buf, pt)
  {
    if Contains(buf, START) {
      ParseWithStart(Current, buf, pt);
      ParseWithStart(Legacy, buf, pt);
      var line := StartLine(buf);
      NotContainsSuffix(buf, line, UNIT_DIED);
      FromStartVersionsAgree(line, pt);
    } else {
      ParseNoStart(Current, buf, pt);
      ParseNoStart(Legacy, buf, pt);
      TailVersionsAgree(buf, pt);
    }
  }

  lemma FromStartVersionsAgree(line: seq<byte>, pt: TimeParser)
    requires !Contains(line, UNIT_DIED)
    ensures ParseFromStart(Current, line, pt) == ParseFromStart(Legacy, line, pt)
  {
    if Contains(line, END) {
      FromStartClosed(Current, line, pt);
      FromStartClosed(Legacy, line, pt);
    } else if DatetimeFromLine(line, pt).None? || EncounterFromLine(DatetimeFromLine(line, pt).value.1).None? {
      FromStartPanics(Current, line, pt);
      FromStartPanics(Legacy, line, pt);
    } else {
      var (dt, rest) := DatetimeFromLine(line, pt).value;
      var name := EncounterFromLine(rest).value;
      FromStartOpen(Current, line, pt, dt, rest, name);
      FromStartOpen(Legacy, line, pt, dt, rest, name);
      var next := SkipToNextLine(rest);
      NotContainsSuffix(line, next, UNIT_DIED);
      TailVersionsAgree(next, pt);
    }
  }

  /** The second half of `parse` agrees between the versions on a buffer without `UNIT_DIED`. */
  lemma TailVersionsAgree(buf: seq<byte>, pt: TimeParser)
    requires !Contains(buf, UNIT_DIED)
    ensures ParseTail(Current, buf, pt) == ParseTail(Legacy, buf, pt)
  {
    FindNone(buf, END);
    match Find(buf, END) {
      case Some(e) =>
        NotContainsSlice(buf, UNIT_DIED, 0, e);
        assert buf[..e] == buf[0..e];
        NoDeathLines(Current, buf[..e], pt);
        NoDeathLines(Legacy, buf[..e], pt);
        TailWithEnd(Current, buf, pt, e);
        TailWithEnd(Legacy, buf, pt, e);
      case None =>
        NoDeathLines(Current, buf, pt);
        NoDeathLines(Legacy, buf, pt);
        TailWithoutEnd(Current, buf, pt);
        TailWithoutEnd(Legacy, buf, pt);
    }
  }

  /**
   What a death line yields: no timestamp, no `,Player-` after it, no quoted
   name after that, or the victim, whose fields start at the first
   `,Player-` after the timestamp.
   */
  lemma VictimOfSpec(line: seq<byte>, pt: TimeParser)
    ensures var r := VictimOf(line, pt);
      && (r.NoTime? <==> DatetimeFromLine(line, pt).None?)
      && (r.NoPlayer? <==> DatetimeFromLine(line, pt).Some? && !Contains(DatetimeFromLine(line, pt).value.1, PLAYER))
      && (r.Victim? ==>
            var (t, rest) := DatetimeFromLine(line, pt).value;
            && r.time == t && IsSuffix(r.fields, rest) && Find(rest, PLAYER).Some?
            && r.fields == rest[Find(rest, PLAYER).value..]
            && NameField(r.fields) == Some((r.name, r.flagstart)))
  {
    match DatetimeFromLine(line, pt) {
      case None =>
      case Some((dt, rest)) => FindNone(rest, PLAYER);
    }
  }

  /**
   The quoted name: the bytes strictly between the first two double quotes,
   with none in between; the flag field starts two bytes past the closing
   quote. A field with fewer than two quotes has no name.
   */
  lemma NameFieldSpec(fields: seq<byte>)
    ensures NameField(fields).None? <==> AtMostOne(fields, QUOTE)
    ensures NameField(fields).Some? ==>
      var (name, flagstart) := NameField(fields).value;
      && flagstart >= |name| + 3 && fields[flagstart - 2] == QUOTE && fields[flagstart - 3 - |name|] == QUOTE
      && name == fields[flagstart - 2 - |name|..flagstart - 2] && NoByte(name, QUOTE)
      && NoByte(fields[..flagstart - 3 - |name|], QUOTE)
  {
    FirstTwoNone(fields, QUOTE);
  }

  /**
   The encounter name is the text between the first two double quotes of
   the line, blanks turned into underscores; there is none without two
   quotes.
   */
  lemma EncounterFromLineSpec(line: seq<byte>)
    ensures EncounterFromLine(line).None? <==> AtMostOne(line, QUOTE)
    ensures EncounterFromLine(line).Some? ==>
      var name := EncounterFromLine(line).value;
      var raw := NameField(line).value.0;
      && NameField(line).Some? && |name| == |raw| && NoByte(name, SPACE) && NoByte(name, QUOTE)
      && forall i | 0 <= i < |raw| :: name[i] == (if raw[i] == SPACE then UNDERSCORE else raw[i])
  {
    NameFieldSpec(line);
  }

  /**
   The current parser's filter only removes deaths: every death it reports,
   the legacy parser reports too, with the same time and name.
   */
  lemma CurrentDeathIsLegacyDeath(buf: seq<byte>, idx: nat, pt: TimeParser)
    requires OccursAt(buf, UNIT_DIED, idx)
    ensures DeathAt(Current, buf, idx, pt).Emit? ==>
      DeathAt(Legacy, buf, idx, pt) == DeathAt(Current, buf, idx, pt)
  {
    var line := buf[LineStart(buf, idx)..LineEnd(buf, idx)];
    DeathLineLong(buf, idx);
    match VictimOf(line, pt) {
      case Victim(dt, name, fields, flagstart) =>
        assert DeathAt(Legacy, buf, idx, pt) == Emit(dt, name);
      case _ =>
    }
  }

  /** The decoded flag word of the player named on the death line at `idx`, if it decodes. */
  function DeathFlag(buf: seq<byte>, idx: nat, pt: TimeParser): Option<i32>
    requires OccursAt(buf, UNIT_DIED, idx)
  {
    match VictimOf(buf[LineStart(buf, idx)..LineEnd(buf, idx)], pt)
    case Victim(_, _, fields, flagstart) => FlagField(fields, flagstart)
    case _ => None
  }

  /**
   A `UNIT_DIED` line the legacy parser reports is reported by the current
   parser exactly when its flag word has both `ControlPlayer` and
   `TypePlayer` and one of its last two bytes is `0`; otherwise it is
   skipped, or the call panics when the flag word does not decode.
   */
  lemma CurrentDeathFilter(buf: seq<byte>, idx: nat, pt: TimeParser)
    requires OccursAt(buf, UNIT_DIED, idx)
    requires DeathAt(Legacy, buf, idx, pt).Emit?
    ensures LineEnd(buf, idx) >= 2
    ensures DeathAt(Current, buf, idx, pt) ==
      match DeathFlag(buf, idx, pt)
      case None => Crash(PlayerFlags)
      case Some(flag) =>
        if HasFlag(flag, ControlPlayer) && HasFlag(flag, TypePlayer) && EndsWithZero(buf, LineEnd(buf, idx))
        then DeathAt(Legacy, buf, idx, pt)
        else Skip
  {
    DeathLineLong(buf, idx);
  }

  /**
   The legacy parser reports every `UNIT_DIED` line that names a player after
   its timestamp, with that timestamp and the first quoted name after
   `,Player-`; a line without `,Player-` is skipped.
   */
  lemma LegacyReportsEveryPlayer(buf: seq<byte>, idx: nat, pt: TimeParser)
    requires OccursAt(buf, UNIT_DIED, idx)
    requires DatetimeFromLine(buf[LineStart(buf, idx)..LineEnd(buf, idx)], pt).Some?
    ensures var (t, rest) := DatetimeFromLine(buf[LineStart(buf, idx)..LineEnd(buf, idx)], pt).value;
      var d := DeathAt(Legacy, buf, idx, pt);
      && (!Contains(rest, PLAYER) <==> d.Skip?)
      && (Contains(rest, PLAYER) && NameField(rest[Find(rest, PLAYER).value..]).Some? ==>
            d == Emit(t, NameField(rest[Find(rest, PLAYER).value..]).value.0))
  {
    var line := buf[LineStart(buf, idx)..LineEnd(buf, idx)];
    var rest := DatetimeFromLine(line, pt).value.1;
    VictimOfSpec(line, pt);
    LegacyDeathOfVictim(buf, idx, pt);
    FindNone(rest, PLAYER);
    if Contains(rest, PLAYER) && NameField(rest[Find(rest, PLAYER).value..]).Some? {
      VictimNamed(line, pt);
    }
  }

  /** The legacy parser's verdict on a death line follows from its victim alone. */
  lemma LegacyDeathOfVictim(buf: seq<byte>, idx: nat, pt: TimeParser)
    requires OccursAt(buf, UNIT_DIED, idx)
    ensures var vic := VictimOf(buf[LineStart(buf, idx)..LineEnd(buf, idx)], pt);
      var d := DeathAt(Legacy, buf, idx, pt);
      && (vic.NoPlayer? <==> d.Skip?)
      && (vic.Victim? ==> d == Emit(vic.time, vic.name))
  {
  }

  /** A line with a timestamp, `,Player-` after it and a quoted name after that has a victim. */
  lemma VictimNamed(line: seq<byte>, pt: TimeParser)
    requires DatetimeFromLine(line, pt).Some?
    requires var rest := DatetimeFromLine(line, pt).value.1;
      Find(rest, PLAYER).Some? && NameField(rest[Find(rest, PLAYER).value..]).Some?
    ensures VictimOf(line, pt).Victim?
  {
  }

  /**
   `handle_deaths` works through its occurrences in order: collecting two
   runs of outcomes is collecting the first, then, unless it panicked, the
   second.
   */
  lemma {:induction false} CollectAppend(a: seq<Death>, b: seq<Death>)
    ensures var ra := Collect(a); var rb := Collect(b);
      Collect(a + b) == if ra.panic.Some? then ra else Deaths(ra.events + rb.events, rb.panic)
  {
    if a == [] {
      assert a + b == b;
    } else {
      assert (a + b)[0] == a[0];
      assert (a + b)[1..] == a[1..] + b;
      CollectAppend(a[1..], b);
      if a[0].Emit? {
        var ra, rb := Collect(a[1..]), Collect(b);
        assert [PlayerDeath(a[0].time, a[0].name)] + (ra.events + rb.events)
            == ([PlayerDeath(a[0].time, a[0].name)] + ra.events) + rb.events;
      }
    }
  }

  /** One outcome on its own: a reported death, nothing, or the panic. */
  lemma CollectOne(d: Death)
    ensures Collect([d]) == match d
      case Emit(t, name) => Deaths([PlayerDeath(t, name)], None)
      case Skip => Deaths([], None)
      case Crash(p) => Deaths([], Some(p))
  {
    assert [d][1..] == [];
  }
}
