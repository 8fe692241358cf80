/**
 The incremental combat-log parser. One call takes the unconsumed bytes of the
 log, emits the encounter and death events found in them, and leaves the
 suffix of the buffer that a later call has to look at again.

 Two versions of the parser exist: `Current` (src/parser/mod.rs) filters
 deaths by the unit flags and the trailing "unconscious" field, `Legacy`
 (src/parser.rs) reports every player death. Everything else is shared.

 A call of the source that panics (an `expect` on a malformed line, a slice
 out of range) ends in `Panicked`: the events sent before the panic have
 already reached the channel and are kept.
 */
module Parser {
  import opened Wrappers
  import opened Scan
  import opened Flags
  import opened Events

  /**
   The chrono parse of a timestamp (`%-m/%-d/%Y %H:%M:%S%.f`), left abstract;
   `None` stands for text that is not UTF-8 or not in that format.
   */
  type TimeParser = seq<byte> -> Option<Time>

  datatype Version = Current | Legacy

  /** Which `expect` of the source failed. */
  datatype Panic = TimeFormat | NameFormat | PlayerName | PlayerFlags

  datatype End = Remainder(rest: seq<byte>) | Panicked(reason: Panic)

  datatype Parsed = Parsed(events: seq<Event>, end: End)

  /** `ENCOUNTER_START` */
  const START: seq<byte> := [69, 78, 67, 79, 85, 78, 84, 69, 82, 95, 83, 84, 65, 82, 84]
  /** `ENCOUNTER_END` */
  const END: seq<byte> := [69, 78, 67, 79, 85, 78, 84, 69, 82, 95, 69, 78, 68]
  /** `UNIT_DIED` */
  const UNIT_DIED: seq<byte> := [85, 78, 73, 84, 95, 68, 73, 69, 68]
  /** `,Player-` */
  const PLAYER: seq<byte> := [44, 80, 108, 97, 121, 101, 114, 45]
  const UNDERSCORE: byte := 95

  /** `skip_to_next_line`: the bytes after the first newline, or nothing. */
  function SkipToNextLine(buf: seq<byte>): (r: seq<byte>)
    ensures IsSuffix(r, buf)
    ensures NoByte(buf, NL) ==> r == []
    ensures !NoByte(buf, NL) ==>
      var cut := |buf| - |r|; 0 < cut && buf[cut - 1] == NL && NoByte(buf[..cut - 1], NL)
  {
    if buf == [] then buf
    else match Memchr(buf, NL)
      case Some(n) => if n == |buf| - 1 then [] else buf[n + 1..]
      case None => []
  }

  /** The final step of `parse`: keep only what follows the last newline. */
  function KeepLastLine(buf: seq<byte>): (r: seq<byte>)
    ensures IsSuffix(r, buf) && NoByte(r, NL)
    ensures NoByte(buf, NL) ==> r == buf
    ensures !NoByte(buf, NL) ==> |r| < |buf| && buf[|buf| - |r| - 1] == NL
  {
    match Memrchr(buf, NL)
    case Some(n) => buf[n + 1..]
    case None => buf
  }

  /** Index where the line holding position `idx` starts. */
  function LineStart(buf: seq<byte>, idx: nat): (ls: nat)
    requires idx <= |buf|
    ensures ls <= idx && NoByte(buf[ls..idx], NL)
    ensures ls == 0 || buf[ls - 1] == NL
  {
    match Memrchr(buf[..idx], NL)
    case Some(n) =>
      assert buf[n + 1..idx] == buf[..idx][n + 1..];
      n + 1
    case None =>
      assert buf[0..idx] == buf[..idx];
      0
  }

  /** Index of the newline ending the line holding position `idx`, or the end of the buffer. */
  function LineEnd(buf: seq<byte>, idx: nat): (le: nat)
    requires idx <= |buf|
    ensures idx <= le <= |buf| && NoByte(buf[idx..le], NL)
    ensures le == |buf| || buf[le] == NL
  {
    match Memchr(buf[idx..], NL)
    case Some(e) =>
      assert buf[idx..idx + e] == buf[idx..][..e];
      e + idx
    case None => |buf|
  }

  /** The last `ENCOUNTER_START`, found as `find_iter(..).last()`. */
  function LastStart(buf: seq<byte>): (r: Option<nat>)
    ensures r == RFind(buf, START)
  {
    StartBorderFree();
    LastOfFindIterIsRFind(buf, START);
    Last(FindIter(buf, START))
  }

  /**
   The last `ENCOUNTER_END`: `rfind_iter(..).next()` in the current parser,
   `find_iter(..).last()` in the legacy one; both find the same position.
   */
  function LastEnd(v: Version, buf: seq<byte>): (r: Option<nat>)
    ensures r == RFind(buf, END)
  {
    match v
    case Current => RFind(buf, END)
    case Legacy =>
      EndBorderFree();
      LastOfFindIterIsRFind(buf, END);
      Last(FindIter(buf, END))
  }

  /**
   `skip_encounter_end`: whether `ENCOUNTER_END` occurs, and the buffer
   advanced just past the line holding its last occurrence (unchanged when
   there is none).
   */
  function SkipEncounterEnd(v: Version, buf: seq<byte>): (r: (bool, seq<byte>))
    ensures r.0 <==> RFind(buf, END).Some?
    ensures !r.0 ==> r.1 == buf
    ensures r.0 ==> IsSuffix(r.1, buf)
  {
    match LastEnd(v, buf)
    case None => (false, buf)
    case Some(e) => (true, SkipToNextLine(buf[e..]))
  }

  /**
   What `skip_encounter_end` cuts off: it reports an end exactly when the
   buffer holds one, and then cuts the buffer up to and including the newline
   that ends the line of the last `ENCOUNTER_END` (all of it when that line is
   the last), so that no `ENCOUNTER_END` is left.
   */
  lemma SkipEncounterEndSpec(v: Version, buf: seq<byte>)
    ensures SkipEncounterEnd(v, buf).0 <==> Contains(buf, END)
    ensures SkipEncounterEnd(v, buf).0 ==>
      var e, r := RFind(buf, END).value, SkipEncounterEnd(v, buf).1; var cut := |buf| - |r|;
      && e < cut && NoByte(buf[e..cut - 1], NL) && (r == [] || buf[cut - 1] == NL)
      && !Contains(r, END)
  {
    RFindNone(buf, END);
    if RFind(buf, END).Some? {
      var e := RFind(buf, END).value;
      var rest := SkipToNextLine(buf[e..]);
      assert SkipEncounterEnd(v, buf).1 == rest;
      SkipToNextLineCut(buf, e);
      NoEndAfterLast(buf, e, |buf| - |rest|);
      assert buf[|buf| - |rest|..] == rest;
    }
  }

  /** Skipping to the next line from `e` drops the rest of `e`'s line and its newline. */
  lemma SkipToNextLineCut(buf: seq<byte>, e: nat)
    requires e < |buf|
    ensures var r := SkipToNextLine(buf[e..]); var cut := |buf| - |r|;
      e < cut && NoByte(buf[e..cut - 1], NL) && (r == [] || buf[cut - 1] == NL)
  {
    var rest := SkipToNextLine(buf[e..]);
    assert buf[e..][..|buf[e..]| - |rest| - 1] == buf[e..|buf| - |rest| - 1] by {
      if rest != [] {
        assert |buf[e..]| - |rest| >= 1;
      }
    }
  }

  /** Nothing after the last occurrence of `ENCOUNTER_END` is another one. */
  lemma NoEndAfterLast(buf: seq<byte>, e: nat, cut: nat)
    requires RFind(buf, END) == Some(e) && e < cut <= |buf|
    ensures !Contains(buf[cut..], END)
  {
    RFindLast(buf, END);
    forall j | 0 <= j <= |buf[cut..]| && OccursAt(buf[cut..], END, j)
      ensures OccursAt(buf, END, cut + j)
    {
      assert buf[cut..] == buf[cut..|buf|];
      OccursInSlice(buf, END, cut, |buf|, j);
    }
  }

  /**
   `datetime_from_line`: the timestamp is the text before the line's second
   blank; the line is advanced to that blank (it starts with it), although the
   source's doc comment says the line is left alone.
   */
  function DatetimeFromLine(line: seq<byte>, pt: TimeParser): (r: Option<(Time, seq<byte>)>)
    ensures r.Some? ==> IsSuffix(r.value.1, line)
  {
    match FirstTwo(line, SPACE)
    case None => None
    case Some((_, second)) =>
      match pt(line[..second])
      case None => None
      case Some(t) => Some((t, line[second..]))
  }

  /**
   The timestamp `datetime_from_line` reads is the text before the second
   blank, holding exactly one blank, and the rest starts at that blank; a line
   with fewer than two blanks has no timestamp.
   */
  lemma DatetimeFromLineSpec(line: seq<byte>, pt: TimeParser)
    ensures var r := DatetimeFromLine(line, pt);
      && (r.Some? ==>
            var rest := r.value.1;
            && |rest| > 0 && rest[0] == SPACE
            && OneBlank(line[..|line| - |rest|]) && pt(line[..|line| - |rest|]) == Some(r.value.0))
      && (AtMostOne(line, SPACE) ==> r.None?)
  {
    FirstTwoNone(line, SPACE);
    if FirstTwo(line, SPACE).Some? {
      var (first, second) := FirstTwo(line, SPACE).value;
      var stamp := line[..second];
      assert NoByte(stamp[..first], SPACE) by {
        assert stamp[..first] == line[..first];
      }
      assert NoByte(stamp[first + 1..], SPACE) by {
        assert stamp[first + 1..] == line[first + 1..second];
      }
      assert OneBlank(stamp) by {
        assert stamp[first] == SPACE;
      }
      if pt(stamp).Some? {
        var rest := line[second..];
        assert DatetimeFromLine(line, pt) == Some((pt(stamp).value, rest));
        assert line[..|line| - |rest|] == stamp;
      }
    }
  }

  /**
   The converse: when the line has a first and a second blank, the call
   fails exactly when the time parser rejects the text before the second
   blank, and otherwise yields that time and the line from the second blank.
   */
  lemma DatetimeFromLineOfStamp(line: seq<byte>, pt: TimeParser, first: nat, second: nat)
    requires first < second < |line| && line[first] == SPACE && line[second] == SPACE
    requires NoByte(line[..first], SPACE) && NoByte(line[first + 1..second], SPACE)
    ensures DatetimeFromLine(line, pt).None? <==> pt(line[..second]).None?
    ensures pt(line[..second]).Some? ==>
      DatetimeFromLine(line, pt) == Some((pt(line[..second]).value, line[second..]))
  {
    FirstTwoNone(line, SPACE);
    assert !AtMostOne(line, SPACE);
    var (a, b) := FirstTwo(line, SPACE).value;
    assert a == first;
    assert b == second;
  }

  /** `s` holds exactly one blank. */
  predicate OneBlank(s: seq<byte>) {
    exists i | 0 <= i < |s| :: s[i] == SPACE && NoByte(s[..i], SPACE) && NoByte(s[i + 1..], SPACE)
  }

  /** Every blank of `s` replaced by an underscore. */
  function Underscored(s: seq<byte>): (r: seq<byte>)
    ensures |r| == |s| && NoByte(r, SPACE)
    ensures forall i | 0 <= i < |s| :: r[i] == (if s[i] == SPACE then UNDERSCORE else s[i])
  {
    seq(|s|, i requires 0 <= i < |s| => if s[i] == SPACE then UNDERSCORE else s[i])
  }

  /**
   `encounter_from_line`: the bytes between the first two double quotes, with
   every blank mapped to an underscore; no name without two quotes.
   */
  function EncounterFromLine(line: seq<byte>): (r: Option<seq<byte>>)
  {
    match FirstTwo(line, QUOTE)
    case None => None
    case Some((open, close)) => Some(Underscored(line[open + 1..close]))
  }

  /** What one `UNIT_DIED` occurrence contributes. */
  datatype Death = Emit(time: Time, name: seq<byte>) | Skip | Crash(reason: Panic)

  /** What the death line says about the dead unit, up to the flag word. */
  datatype Victim =
    | NoTime
    | NoPlayer
    | NoName
    | Victim(time: Time, name: seq<byte>, fields: seq<byte>, flagstart: nat)

  /**
   The common part of the loop body of `handle_deaths`: the timestamp of the
   line, then, when `,Player-` follows it, the player named between the next
   two double quotes.
   */
  function VictimOf(line: seq<byte>, pt: TimeParser): (r: Victim)
  {
    match DatetimeFromLine(line, pt)
    case None => NoTime
    case Some((dt, rest)) =>
      match Find(rest, PLAYER)
      case None => NoPlayer
      case Some(p) =>
        match NameField(rest[p..])
        case None => NoName
        case Some((name, flagstart)) => Victim(dt, name, rest[p..], flagstart)
  }

  /**
   The body of the loop in `handle_deaths` for the occurrence at `idx`: the
   line around it is cut out and its victim read. The legacy parser reports
   every player; the current one decodes the flag word after the name and
   reports the death only for a player-controlled unit of player type whose
   line ends in `0` (the last or second-to-last byte, to allow for `\r\n`).
   */
  function DeathAt(v: Version, buf: seq<byte>, idx: nat, pt: TimeParser): (r: Death)
    requires OccursAt(buf, UNIT_DIED, idx)
  {
    var le := LineEnd(buf, idx);
    match VictimOf(buf[LineStart(buf, idx)..le], pt)
    case NoTime => Crash(TimeFormat)
    case NoPlayer => Skip
    case NoName => Crash(PlayerName)
    case Victim(dt, name, fields, flagstart) =>
      if v == Legacy then Emit(dt, name)
      else
        match FlagField(fields, flagstart)
        case None => Crash(PlayerFlags)
        case Some(flag) =>
          DeathLineLong(buf, idx);
          if HasFlag(flag, ControlPlayer) && HasFlag(flag, TypePlayer) && EndsWithZero(buf, le)
          then Emit(dt, name)
          else Skip
  }

  /**
   The player name between the first two double quotes of `fields`, and the
   index two bytes past the closing quote (past the quote and the comma),
   where the flag field starts.
   */
  function NameField(fields: seq<byte>): (r: Option<(seq<byte>, nat)>)
  {
    match FirstTwo(fields, QUOTE)
    case None => None
    case Some((open, close)) => Some((fields[open + 1..close], close + 2))
  }

  /** The flag word: from `flagstart` up to the next comma, `0x` and hexadecimal. */
  function FlagField(fields: seq<byte>, flagstart: nat): (r: Option<i32>)
    ensures r.Some? ==>
      && flagstart <= |fields| && Memchr(fields[flagstart..], COMMA).Some?
      && ParseFlagField(fields[flagstart..flagstart + Memchr(fields[flagstart..], COMMA).value]) == r
  {
    if flagstart > |fields| then None
    else match Memchr(fields[flagstart..], COMMA)
      case None => None
      case Some(flagend) => ParseFlagField(fields[flagstart..flagstart + flagend])
  }

  /** `buffer[lineend - 1] == b'0' || buffer[lineend - 2] == b'0'`. */
  predicate EndsWithZero(buf: seq<byte>, le: nat)
    requires 2 <= le <= |buf|
  {
    buf[le - 1] == ZERO || buf[le - 2] == ZERO
  }

  /** A death line reaches at least nine bytes past its start, so `lineend - 2` is in range. */
  lemma DeathLineLong(buf: seq<byte>, idx: nat)
    requires OccursAt(buf, UNIT_DIED, idx)
    ensures idx + |UNIT_DIED| <= LineEnd(buf, idx)
  {
    forall t | idx <= t < idx + |UNIT_DIED|
      ensures buf[t] != NL
    {
      assert buf[t] == UNIT_DIED[t - idx];
    }
  }

  /** The outcome of `handle_deaths`: the deaths sent, and the panic that stopped it, if any. */
  datatype Deaths = Deaths(events: seq<Event>, panic: Option<Panic>)

  /**
   The loop of `handle_deaths` over the outcomes of its occurrences, in order:
   each reported death is sent, and the first panic ends the loop.
   */
  function Collect(ds: seq<Death>): (r: Deaths)
    ensures forall n | 0 <= n < |r.events| :: r.events[n].PlayerDeath?
    ensures |r.events| <= |ds|
  {
    if ds == [] then Deaths([], None)
    else match ds[0]
      case Crash(p) => Deaths([], Some(p))
      case Skip => Collect(ds[1..])
      case Emit(t, name) =>
        var rest := Collect(ds[1..]);
        Deaths([PlayerDeath(t, name)] + rest.events, rest.panic)
  }

  /** The outcome of every `UNIT_DIED` of `buf`, left to right. */
  function DeathsIn(v: Version, buf: seq<byte>, pt: TimeParser): (ds: seq<Death>)
    ensures |ds| == |FindIter(buf, UNIT_DIED)|
  {
    var idxs := FindIter(buf, UNIT_DIED);
    FindIterFromOccurs(buf, UNIT_DIED, 0);
    seq(|idxs|, n requires 0 <= n < |idxs| => DeathAt(v, buf, idxs[n], pt))
  }

  /** `handle_deaths`. */
  function HandleDeaths(v: Version, buf: seq<byte>, pt: TimeParser): (r: Deaths)
    ensures forall n | 0 <= n < |r.events| :: r.events[n].PlayerDeath?
  {
    Collect(DeathsIn(v, buf, pt))
  }

  /**
   The second half of `parse`: the deaths before the first `ENCOUNTER_END`
   and that end, or the deaths of the whole buffer when there is no end; then
   only the text after the last newline is kept.
   */
  function ParseTail(v: Version, buf: seq<byte>, pt: TimeParser): (r: Parsed)
  {
    match Find(buf, END)
    case Some(e) =>
      var d := HandleDeaths(v, buf[..e], pt);
      if d.panic.Some? then Parsed(d.events, Panicked(d.panic.value))
      else Parsed(d.events + [EncounterEnd], Remainder(KeepLastLine(SkipToNextLine(buf[e..]))))
    case None =>
      var d := HandleDeaths(v, buf, pt);
      if d.panic.Some? then Parsed(d.events, Panicked(d.panic.value))
      else Parsed(d.events, Remainder(KeepLastLine(buf)))
  }

  /**
   `Parser::parse`. The last `ENCOUNTER_START` moves the buffer to the start of
   its line, and the call goes on from there; without a start, only the
   second half runs.
   */
  function Parse(v: Version, buf: seq<byte>, pt: TimeParser): (r: Parsed)
  {
    match LastStart(buf)
    case None => ParseTail(v, buf, pt)
    case Some(s) => ParseFromStart(v, buf[LineStart(buf, s)..], pt)
  }

  /**
   `parse` once the buffer starts at the line of the last `ENCOUNTER_START`:
   if an `ENCOUNTER_END` follows from there on, the encounter is already over
   and the call returns at once, emitting nothing. Otherwise it emits the
   start and goes on after the start line.
   */
  function ParseFromStart(v: Version, line: seq<byte>, pt: TimeParser): (r: Parsed)
  {
    var (closed, after) := SkipEncounterEnd(v, line);
    if closed then Parsed([], Remainder(after))
    else match DatetimeFromLine(line, pt)
      case None => Parsed([], Panicked(TimeFormat))
      case Some((dt, rest)) =>
        match EncounterFromLine(rest)
        case None => Parsed([], Panicked(NameFormat))
        case Some(name) =>
          var t := ParseTail(v, SkipToNextLine(rest), pt);
          Parsed([EncounterStart(dt, name)] + t.events, t.end)
  }

  lemma StartBorderFree()
    ensures BorderFree(START)
  {
    forall d | 0 < d < |START|
      ensures START[d..] != START[..|START| - d]
    {
      if d == 7 {
        assert START[d..][1] != START[..|START| - d][1];
      } else {
        assert START[d..][0] != START[..|START| - d][0];
      }
    }
  }

  lemma EndBorderFree()
    ensures BorderFree(END)
  {
    forall d | 0 < d < |END|
      ensures END[d..] != END[..|END| - d]
    {
      if d == 7 {
        assert END[d..][1] != END[..|END| - d][1];
      } else if d == 10 {
        assert END[d..][2] != END[..|END| - d][2];
      } else {
        assert END[d..][0] != END[..|END| - d][0];
      }
    }
  }

  lemma UnitDiedBorderFree()
    ensures BorderFree(UNIT_DIED)
  {
    forall d | 0 < d < |UNIT_DIED|
      ensures UNIT_DIED[d..] != UNIT_DIED[..|UNIT_DIED| - d]
    {
      assert UNIT_DIED[d..][0] != UNIT_DIED[..|UNIT_DIED| - d][0];
    }
  }
}
