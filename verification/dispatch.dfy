/**
 The dispatch loop of `main` (src/lib.rs): events are taken one at a time,
 in the order received, and drive the recorder; an I/O error ends the loop.
 */
module Dispatch {
  import opened Wrappers
  import opened Scan
  import opened Events
  import opened Chapters
  import opened Recorder
  import Parser
  import ParserProps
  import DeathNames
  import Dirwatcher

  /** The loop: the recorder, whether the loop still runs, and the actions asked for so far, in order. */
  datatype Loop = Loop(recorder: Recorder, running: bool, actions: seq<Action>)

  /**
   One event. `pid` is the process id the capture gets should this event
   start one; `fmt` is chrono's file-name formatting.
   */
  function Step(l: Loop, e: Event, fmt: Time -> seq<byte>, pid: nat): Loop {
    if !l.running then l
    else match e
      case EncounterStart(time, name) =>
        var (r, a) := StartRecording(l.recorder, time, name, fmt, pid);
        Loop(r, true, l.actions + [a])
      case EncounterEnd =>
        var (r, acts) := StopRecording(l.recorder);
        Loop(r, true, l.actions + acts)
      case PlayerDeath(time, name) =>
        (match l.recorder.recording
         case None => l
         case Some(rec) => l.(recorder := l.recorder.(recording := Some(AddDeath(rec, time, name)))))
      case IoErr(_) => l.(running := false)
  }

  /** The events in the order received; the `i`-th event of the stream spawns, if it does, with id `pid(i)`. */
  function Run(l: Loop, es: seq<Event>, fmt: Time -> seq<byte>, pid: nat -> nat, i: nat): Loop
    decreases |es|
  {
    if es == [] then l else Run(Step(l, es[0], fmt, pid(i)), es[1..], fmt, pid, i + 1)
  }

  /** Events are handled strictly one after the other: running two batches is running the first, then the second. */
  lemma {:induction false} RunAppend(l: Loop, a: seq<Event>, b: seq<Event>, fmt: Time -> seq<byte>, pid: nat -> nat, i: nat)
    ensures Run(l, a + b, fmt, pid, i) == Run(Run(l, a, fmt, pid, i), b, fmt, pid, i + |a|)
    decreases |a|
  {
    if a == [] {
      assert a + b == b;
    } else {
      assert (a + b)[0] == a[0];
      assert (a + b)[1..] == a[1..] + b;
      RunAppend(Step(l, a[0], fmt, pid(i)), a[1..], b, fmt, pid, i + 1);
    }
  }

  /** A loop that has stopped ignores every further event. */
  lemma {:induction false} RunStopped(l: Loop, es: seq<Event>, fmt: Time -> seq<byte>, pid: nat -> nat, i: nat)
    requires !l.running
    ensures Run(l, es, fmt, pid, i) == l
    decreases |es|
  {
    if es != [] {
      RunStopped(l, es[1..], fmt, pid, i + 1);
    }
  }

  /**
   An I/O error ends the loop: nothing after it is processed, and the
   recorder and the actions are those from before the error.
   */
  lemma IoErrEndsLoop(l: Loop, a: seq<Event>, err: IoError, b: seq<Event>, fmt: Time -> seq<byte>, pid: nat -> nat, i: nat)
    ensures var before := Run(l, a, fmt, pid, i);
      var after := Run(l, a + [IoErr(err)] + b, fmt, pid, i);
      && !after.running && after.recorder == before.recorder && after.actions == before.actions
  {
    RunAppend(l, a, [IoErr(err)] + b, fmt, pid, i);
    assert a + [IoErr(err)] + b == a + ([IoErr(err)] + b);
    var before := Run(l, a, fmt, pid, i);
    var stopped := Step(before, IoErr(err), fmt, pid(i + |a|));
    assert ([IoErr(err)] + b)[1..] == b;
    RunStopped(stopped, b, fmt, pid, i + |a| + 1);
  }

  /** A death with nothing recording is dropped: the loop is unchanged. */
  lemma IdleDeathDropped(l: Loop, time: Time, name: seq<byte>, fmt: Time -> seq<byte>, pid: nat)
    requires l.recorder.recording.None?
    ensures Step(l, PlayerDeath(time, name), fmt, pid) == l
  {
  }

  /**
   A start while recording replaces the recording without stopping it: the
   only action is the new capture's spawn, and the old process is neither
   interrupted nor waited for.
   */
  lemma StartOverwrites(l: Loop, time: Time, name: seq<byte>, fmt: Time -> seq<byte>, pid: nat)
    requires l.running
    ensures var l' := Step(l, EncounterStart(time, name), fmt, pid);
      && l'.running && l'.recorder.recording.Some? && l'.recorder.recording.value.deaths == []
      && l'.recorder.recording.value.starttime == time && l'.recorder.recording.value.process == pid
      && |l'.actions| == |l.actions| + 1 && l'.actions[..|l.actions|] == l.actions
      && l'.actions[|l.actions|].Spawn?
  {
    assert (l.actions + [StartRecording(l.recorder, time, name, fmt, pid).1])[..|l.actions|] == l.actions;
  }

  /** An end stops the recording; with nothing recording it does nothing at all. */
  lemma EndStops(l: Loop, fmt: Time -> seq<byte>, pid: nat)
    requires l.running
    ensures var l' := Step(l, EncounterEnd, fmt, pid);
      && l'.running && l'.recorder.recording.None?
      && (l.recorder.recording.None? ==> l' == l)
  {
    assert l.actions + [] == l.actions;
  }

  /** The deaths among `es`, in order. */
  function DeathsOf(es: seq<Event>): seq<Death>
    decreases |es|
  {
    if es == [] then []
    else match es[0]
      case PlayerDeath(time, name) => [(time, name)] + DeathsOf(es[1..])
      case _ => DeathsOf(es[1..])
  }

  /**
   Deaths the parser sends can always be read back from the chapter file:
   their names hold no newline, so each chapter stays on its two lines.
   */
  lemma {:induction false} ParsedNamesOnOneLine(es: seq<Event>)
    requires DeathNames.NamesFree(es)
    ensures NamesOnOneLine(DeathsOf(es))
    decreases |es|
  {
    if es != [] {
      assert DeathNames.NamesFree(es[1..]) by {
        forall n | 0 <= n < |es[1..]| && es[1..][n].PlayerDeath?
          ensures NoByte(es[1..][n].name, NL)
        {
          assert es[1..][n] == es[n + 1];
        }
      }
      ParsedNamesOnOneLine(es[1..]);
      if es[0].PlayerDeath? {
        var rest := DeathsOf(es[1..]);
        assert DeathsOf(es) == [(es[0].time, es[0].name)] + rest;
        assert forall k | 0 < k < |DeathsOf(es)| :: DeathsOf(es)[k] == rest[k - 1];
      }
    }
  }

  /** While recording, deaths are appended to the recording in the order received, and nothing else changes. */
  lemma {:induction false} DeathsAppended(l: Loop, es: seq<Event>, fmt: Time -> seq<byte>, pid: nat -> nat, i: nat)
    requires l.running && l.recorder.recording.Some? && ParserProps.OnlyDeaths(es)
    ensures var l' := Run(l, es, fmt, pid, i);
      && l'.running && l'.actions == l.actions && l'.recorder.recording.Some?
      && l'.recorder == l.recorder.(recording := Some(AddDeaths(l.recorder.recording.value, DeathsOf(es))))
    decreases |es|
  {
    if es != [] {
      var l1 := Step(l, es[0], fmt, pid(i));
      assert ParserProps.OnlyDeaths(es[1..]) by {
        forall j | 0 <= j < |es[1..]| ensures es[1..][j].PlayerDeath? {
          assert es[1..][j] == es[j + 1];
        }
      }
      DeathsAppended(l1, es[1..], fmt, pid, i + 1);
    }
  }

  lemma RunOne(l: Loop, e: Event, fmt: Time -> seq<byte>, pid: nat -> nat, i: nat)
    ensures Run(l, [e], fmt, pid, i) == Step(l, e, fmt, pid(i))
  {
    assert [e][1..] == [];
  }

  /** A start, deaths, an end: the spawn of the start, then what stopping the recording with those deaths asks for. */
  lemma EncounterSteps(l: Loop, time: Time, name: seq<byte>, deaths: seq<Event>, fmt: Time -> seq<byte>, pid: nat -> nat, i: nat)
    requires l.running && ParserProps.OnlyDeaths(deaths)
    ensures var (r1, spawn) := StartRecording(l.recorder, time, name, fmt, pid(i));
      var r2 := r1.(recording := Some(AddDeaths(r1.recording.value, DeathsOf(deaths))));
      Run(l, [EncounterStart(time, name)] + deaths + [EncounterEnd], fmt, pid, i) ==
        Loop(StopRecording(r2).0, true, l.actions + [spawn] + StopRecording(r2).1)
  {
    var start := [EncounterStart(time, name)];
    RunOne(l, EncounterStart(time, name), fmt, pid, i);
    RunAppend(l, start, deaths, fmt, pid, i);
    RunAppend(l, start + deaths, [EncounterEnd], fmt, pid, i);
    var l1 := Step(l, EncounterStart(time, name), fmt, pid(i));
    DeathsAppended(l1, deaths, fmt, pid, i + 1);
    var l2 := Run(l1, deaths, fmt, pid, i + 1);
    RunOne(l2, EncounterEnd, fmt, pid, i + 1 + |deaths|);
  }

  /**
   A whole encounter, start, deaths, end, with mkvmerge available: the loop
   spawns the capture, then interrupts and waits for it, writes a chapter
   file that reads back as one chapter per death in order, numbered from 1
   and timed from the start, and merges the very video the capture wrote.
   */
  lemma EncounterRecorded(l: Loop, time: Time, name: seq<byte>, deaths: seq<Event>, fmt: Time -> seq<byte>, pid: nat -> nat, i: nat)
    requires l.running && l.recorder.mkvmerge.Some? && ParserProps.OnlyDeaths(deaths) && NamesOnOneLine(DeathsOf(deaths))
    ensures var l' := Run(l, [EncounterStart(time, name)] + deaths + [EncounterEnd], fmt, pid, i);
      && l'.running && l'.recorder.recording.None? && |l'.actions| == |l.actions| + 5
      && l'.actions[..|l.actions|] == l.actions
    ensures var l' := Run(l, [EncounterStart(time, name)] + deaths + [EncounterEnd], fmt, pid, i);
      var acts := l'.actions[|l.actions|..];
      var ds := DeathsOf(deaths);
      && acts[0].Spawn? && acts[1] == Interrupt(pid(i)) && acts[2] == Wait(pid(i))
      && acts[3].WriteFile? && acts[4].Run? && |acts[0].args| == 24 && |acts[4].args| == 5
      && acts[4].args[4] == acts[0].args[23]
      && var chapters := ReadChapters(acts[3].contents);
      && chapters.Some? && |chapters.value| == |ds|
      && forall k | 0 <= k < |ds| :: chapters.value[k] == Chapter(k + 1, ds[k].0 - time, ds[k].1)
  {
    EncounterSteps(l, time, name, deaths, fmt, pid, i);
    var (r1, spawn) := StartRecording(l.recorder, time, name, fmt, pid(i));
    StartRecordingSpec(l.recorder, time, name, fmt, pid(i));
    var ds := DeathsOf(deaths);
    var r2 := r1.(recording := Some(AddDeaths(r1.recording.value, ds)));
    AddDeathsKeepsAll(r1.recording.value, ds);
    StartThenStop(l.recorder, time, name, fmt, pid(i), ds);
    var stop := StopRecording(r2).1;
    ActionsAfter(l.actions, spawn, stop);
  }

  lemma ActionsAfter(before: seq<Action>, spawn: Action, stop: seq<Action>)
    ensures (before + [spawn] + stop)[..|before|] == before
    ensures (before + [spawn] + stop)[|before|..] == [spawn] + stop
  {
  }

  /**
   The follower and the loop together: when setting up the watches fails,
   the loop ends on that error with the recorder as the earlier events left
   it, and nothing the follower would have read afterwards reaches it.
   */
  lemma WatchFailureEndsLoop(l: Loop, w: Dirwatcher.Watcher, a: seq<Dirwatcher.Input>, err: IoError, b: seq<Dirwatcher.Input>,
                             parse: Dirwatcher.BufferParse, fmt: Time -> seq<byte>, pid: nat -> nat, i: nat)
    requires Dirwatcher.Watch(w, a, parse).0.alive
    ensures var before := Run(l, Dirwatcher.Watch(w, a, parse).1, fmt, pid, i);
      var after := Run(l, Dirwatcher.Watch(w, a + [Dirwatcher.WatchFailed(err)] + b, parse).1, fmt, pid, i);
      && !after.running && after.recorder == before.recorder && after.actions == before.actions
  {
    Dirwatcher.ErrorEndsStream(w, a, err, b, parse);
    var es := Dirwatcher.Watch(w, a, parse).1;
    IoErrEndsLoop(l, es, err, [], fmt, pid, i);
    assert es + [IoErr(err)] + [] == es + [IoErr(err)];
  }
}
