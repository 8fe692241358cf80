/**
 Where the parser finds a player's name: both versions of `handle_deaths`
 search for the quotes inside the death's own line (src/parser/mod.rs:84-91,
 src/parser.rs:71-80), so no name they report holds a newline.
 */
module DeathNames {
  import opened Wrappers
  import opened Scan
  import opened Events
  import opened Parser
  import opened ParserProps
  import opened CompleteLines

  /** No death among `es` names its player with a newline in the name. */
  predicate NamesFree(es: seq<Event>) {
    forall n | 0 <= n < |es| :: es[n].PlayerDeath? ==> NoByte(es[n].name, NL)
  }

  lemma NamesFreeAppend(a: seq<Event>, b: seq<Event>)
    requires NamesFree(a) && NamesFree(b)
    ensures NamesFree(a + b)
  {
    forall n | 0 <= n < |a + b| && (a + b)[n].PlayerDeath?
      ensures NoByte((a + b)[n].name, NL)
    {
      if n < |a| {
        assert (a + b)[n] == a[n];
      } else {
        assert (a + b)[n] == b[n - |a|];
      }
    }
  }

  lemma NoByteSlice(s: seq<byte>, b: byte, i: nat, j: nat)
    requires NoByte(s, b) && i <= j <= |s|
    ensures NoByte(s[i..j], b)
  {
    forall k | 0 <= k < j - i
      ensures s[i..j][k] != b
    {
      assert s[i..j][k] == s[i + k];
    }
  }

  /** The line `handle_deaths` cuts out around an index holds no newline. */
  lemma LineHasNoNewline(buf: seq<byte>, idx: nat)
    requires idx <= |buf|
    ensures NoByte(buf[LineStart(buf, idx)..LineEnd(buf, idx)], NL)
  {
    var ls, le := LineStart(buf, idx), LineEnd(buf, idx);
    forall k | 0 <= k < le - ls
      ensures buf[ls..le][k] != NL
    {
      if ls + k < idx {
        assert buf[ls..le][k] == buf[ls..idx][k];
      } else {
        assert buf[ls..le][k] == buf[idx..le][k - (idx - ls)];
      }
    }
  }

  /** The victim of a line without a newline has a name without one. */
  lemma VictimNameOnLine(line: seq<byte>, pt: TimeParser)
    requires NoByte(line, NL)
    ensures VictimOf(line, pt).Victim? ==> NoByte(VictimOf(line, pt).name, NL)
  {
    match DatetimeFromLine(line, pt) {
      case None =>
      case Some((dt, rest)) =>
        NoByteSlice(line, NL, |line| - |rest|, |line|);
        assert NoByte(rest, NL) by {
          assert rest == line[|line| - |rest|..|line|];
        }
        match Find(rest, PLAYER) {
          case None =>
          case Some(p) =>
            FindFirst(rest, PLAYER);
            var fields := rest[p..];
            NoByteSlice(rest, NL, p, |rest|);
            assert fields == rest[p..|rest|];
            match FirstTwo(fields, QUOTE) {
              case None =>
              case Some((open, close)) =>
                NoByteSlice(fields, NL, open + 1, close);
            }
        }
    }
  }

  /** A death one occurrence reports names its player without a newline. */
  lemma DeathNameOnLine(v: Version, buf: seq<byte>, idx: nat, pt: TimeParser)
    requires OccursAt(buf, UNIT_DIED, idx)
    ensures DeathAt(v, buf, idx, pt).Emit? ==> NoByte(DeathAt(v, buf, idx, pt).name, NL)
  {
    LineHasNoNewline(buf, idx);
    VictimNameOnLine(buf[LineStart(buf, idx)..LineEnd(buf, idx)], pt);
    LegacyNameIsVictims(buf, idx, pt);
    CurrentDeathIsLegacyDeath(buf, idx, pt);
  }

  /** A legacy death is reported for the victim of its line, under the victim's name. */
  lemma LegacyNameIsVictims(buf: seq<byte>, idx: nat, pt: TimeParser)
    requires OccursAt(buf, UNIT_DIED, idx)
    ensures var vic := VictimOf(buf[LineStart(buf, idx)..LineEnd(buf, idx)], pt);
      DeathAt(Legacy, buf, idx, pt).Emit? ==> vic.Victim? && DeathAt(Legacy, buf, idx, pt).name == vic.name
  {
  }

  lemma {:induction false} CollectNames(ds: seq<Death>)
    requires forall k | 0 <= k < |ds| :: ds[k].Emit? ==> NoByte(ds[k].name, NL)
    ensures NamesFree(Collect(ds).events)
    decreases |ds|
  {
    if ds != [] {
      assert forall k | 0 <= k < |ds[1..]| :: ds[1..][k] == ds[k + 1];
      CollectNames(ds[1..]);
      if ds[0].Emit? {
        NamesFreeAppend([PlayerDeath(ds[0].time, ds[0].name)], Collect(ds[1..]).events);
      }
    }
  }

  /** No death `handle_deaths` sends has a newline in its name. */
  lemma HandleDeathsNames(v: Version, buf: seq<byte>, pt: TimeParser)
    ensures NamesFree(HandleDeaths(v, buf, pt).events)
  {
    var idxs := FindIter(buf, UNIT_DIED);
    var ds := DeathsIn(v, buf, pt);
    FindIterFromOccurs(buf, UNIT_DIED, 0);
    forall k | 0 <= k < |ds| && ds[k].Emit?
      ensures NoByte(ds[k].name, NL)
    {
      DeathNameOnLine(v, buf, idxs[k], pt);
    }
    CollectNames(ds);
  }

  lemma ParseTailNames(v: Version, buf: seq<byte>, pt: TimeParser)
    ensures NamesFree(ParseTail(v, buf, pt).events)
  {
    match Find(buf, END) {
      case Some(e) =>
        HandleDeathsNames(v, buf[..e], pt);
        NamesFreeAppend(HandleDeaths(v, buf[..e], pt).events, [EncounterEnd]);
      case None =>
        HandleDeathsNames(v, buf, pt);
    }
  }

  lemma ParseFromStartNames(v: Version, line: seq<byte>, pt: TimeParser)
    ensures NamesFree(ParseFromStart(v, line, pt).events)
  {
    var (closed, after) := SkipEncounterEnd(v, line);
    if !closed {
      match DatetimeFromLine(line, pt) {
        case None =>
        case Some((dt, rest)) =>
          match EncounterFromLine(rest) {
            case None =>
            case Some(name) =>
              ParseTailNames(v, SkipToNextLine(rest), pt);
              NamesFreeAppend([EncounterStart(dt, name)], ParseTail(v, SkipToNextLine(rest), pt).events);
          }
      }
    }
  }

  /** Every death `parse` reports, in either version, names its player without a newline. */
  lemma ParseNames(v: Version, buf: seq<byte>, pt: TimeParser)
    ensures NamesFree(Parse(v, buf, pt).events)
  {
    match LastStart(buf) {
      case None => ParseTailNames(v, buf, pt);
      case Some(s) => ParseFromStartNames(v, buf[LineStart(buf, s)..], pt);
    }
  }

  /** The same holds for the corrected parse. */
  lemma ParseCompleteNames(v: Version, buf: seq<byte>, pt: TimeParser)
    ensures NamesFree(ParseComplete(v, buf, pt).events)
  {
    ParseNames(v, buf[..Cut(buf)], pt);
  }
}
