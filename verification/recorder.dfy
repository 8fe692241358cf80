/**
 The recorder (src/recorder.rs): at most one recording at a time, the
 deaths it collects, and what starting and stopping it asks of the outside
 world. Spawning the screen recorder, the interrupt, the wait, the chapter
 file and the mkvmerge run are not performed here: they are returned as
 `Action`s, with the exact command lines and paths the source builds.
 */
module Recorder {
  import opened Wrappers
  import opened Scan
  import opened Events
  import opened Chapters

  const SLASH: byte := 47
  const UNDERSCORE: byte := 95

  /** A running capture: when it started, its file name, the deaths seen so far, the recorder's process id. */
  datatype Recording = Recording(starttime: Time, filename: seq<byte>, deaths: seq<Death>, process: nat)

  datatype Recorder = Recorder(viddir: seq<byte>, command: seq<byte>, mkvmerge: Option<seq<byte>>, recording: Option<Recording>)

  /** What the recorder asks the operating system to do. */
  datatype Action =
    | Spawn(program: seq<byte>, args: seq<seq<byte>>)
    | Interrupt(pid: nat)
    | Wait(pid: nat)
    | WriteFile(path: seq<byte>, contents: seq<byte>)
    | Run(program: seq<byte>, args: seq<seq<byte>>)

  /**
   `Recorder::new`: no recording yet; mkvmerge is kept only when it is
   executable (`executable` stands for the check in the configuration code).
   */
  function NewRecorder(viddir: seq<byte>, command: seq<byte>, mkvmerge: seq<byte>, executable: seq<byte> -> bool): (r: Recorder)
    ensures r.recording.None? && r.viddir == viddir && r.command == command
    ensures r.mkvmerge.Some? <==> executable(mkvmerge)
    ensures r.mkvmerge.Some? ==> r.mkvmerge.value == mkvmerge
  {
    Recorder(viddir, command, if executable(mkvmerge) then Some(mkvmerge) else None, None)
  }

  /** `Recording::new`: a recording starts with no deaths. */
  function NewRecording(starttime: Time, filename: seq<byte>, process: nat): (r: Recording)
    ensures r.deaths == [] && r.starttime == starttime && r.filename == filename && r.process == process
  {
    Recording(starttime, filename, [], process)
  }

  /** `add_death`: the death goes at the end; nothing else changes. */
  function AddDeath(r: Recording, time: Time, name: seq<byte>): (r': Recording)
    ensures r'.deaths == r.deaths + [(time, name)]
    ensures r'.starttime == r.starttime && r'.filename == r.filename && r'.process == r.process
  {
    r.(deaths := r.deaths + [(time, name)])
  }

  /** Deaths added one by one, in order. */
  function AddDeaths(r: Recording, ds: seq<Death>): Recording
    decreases |ds|
  {
    if ds == [] then r else AddDeaths(AddDeath(r, ds[0].0, ds[0].1), ds[1..])
  }

  /** Adding deaths one by one keeps them all, in the order given, behind the earlier ones. */
  lemma {:induction false} AddDeathsKeepsAll(r: Recording, ds: seq<Death>)
    ensures AddDeaths(r, ds).deaths == r.deaths + ds
    ensures AddDeaths(r, ds).starttime == r.starttime && AddDeaths(r, ds).filename == r.filename
    ensures AddDeaths(r, ds).process == r.process
    decreases |ds|
  {
    if ds != [] {
      AddDeathsKeepsAll(AddDeath(r, ds[0].0, ds[0].1), ds[1..]);
      assert r.deaths + [ds[0]] + ds[1..] == r.deaths + ds;
    }
  }

  /**
   `add_death` and `create_chapters` agree: the chapter text after one more
   death is the text before it followed by one more chapter, numbered after
   the others and timed from the recording's start.
   */
  lemma AddDeathChapters(r: Recording, time: Time, name: seq<byte>)
    ensures CreateChapters(AddDeath(r, time, name).deaths, r.starttime) ==
      CreateChapters(r.deaths, r.starttime) + Render(Chapter(|r.deaths| + 1, time - r.starttime, name))
  {
    ChaptersAppend(r.deaths, time, name, r.starttime);
  }

  /** `{datetimestr}_{filename}`: `fmt` stands for chrono's `%Y%m%d_%H%M%S`. */
  function FileName(time: Time, name: seq<byte>, fmt: Time -> seq<byte>): seq<byte> {
    fmt(time) + [UNDERSCORE] + name
  }

  /** `{viddir}/{filename}` followed by `suffix`. */
  function InDir(viddir: seq<byte>, filename: seq<byte>, suffix: seq<byte>): seq<byte> {
    viddir + [SLASH] + filename + suffix
  }

  function VideoFile(viddir: seq<byte>, filename: seq<byte>): seq<byte> {
    InDir(viddir, filename, Ascii(".mkv"))
  }

  function ChapterFile(viddir: seq<byte>, filename: seq<byte>): seq<byte> {
    InDir(viddir, filename, Ascii(".txt"))
  }

  function FinalFile(viddir: seq<byte>, filename: seq<byte>): seq<byte> {
    InDir(viddir, filename, Ascii("_final.mkv"))
  }

  /** The screen recorder's command line, writing to `out`. */
  function CaptureArgs(out: seq<byte>): seq<seq<byte>> {
    [Ascii("-w"), Ascii("DisplayPort-0"), Ascii("-c"), Ascii("mkv"), Ascii("-k"), Ascii("hevc"),
     Ascii("-ac"), Ascii("opus"), Ascii("-f"), Ascii("60"), Ascii("-cursor"), Ascii("yes"),
     Ascii("-restore-portal-session"), Ascii("yes"), Ascii("-cr"), Ascii("limited"),
     Ascii("-encoder"), Ascii("gpu"), Ascii("-q"), Ascii("very_high"),
     Ascii("-a"), Ascii("device:default_output"), Ascii("-o"), out]
  }

  /** mkvmerge's command line: the chapter file, the output, the captured video. */
  function MergeArgs(viddir: seq<byte>, filename: seq<byte>): seq<seq<byte>> {
    [Ascii("--chapters"), ChapterFile(viddir, filename), Ascii("-o"), FinalFile(viddir, filename), VideoFile(viddir, filename)]
  }

  /**
   `start_recording`: spawns the capture (its process id is `pid`) and makes
   a fresh recording the current one, whatever was recording before.
   */
  function StartRecording(r: Recorder, time: Time, name: seq<byte>, fmt: Time -> seq<byte>, pid: nat): (res: (Recorder, Action))
  {
    var filename := FileName(time, name, fmt);
    (r.(recording := Some(NewRecording(time, filename, pid))), Spawn(r.command, CaptureArgs(VideoFile(r.viddir, filename))))
  }

  /**
   `stop_recording`: with nothing recording, nothing happens. Otherwise the
   recording is taken away, its process interrupted and waited for, and,
   when mkvmerge is available, the chapter file written and the merge run.
   */
  function StopRecording(r: Recorder): (res: (Recorder, seq<Action>))
  {
    match r.recording
    case None => (r, [])
    case Some(rec) =>
      var stop := [Interrupt(rec.process), Wait(rec.process)];
      var merge := match r.mkvmerge
        case None => []
        case Some(m) =>
          [WriteFile(ChapterFile(r.viddir, rec.filename), CreateChapters(rec.deaths, rec.starttime)),
           Run(m, MergeArgs(r.viddir, rec.filename))];
      (r.(recording := None), stop + merge)
  }

  /**
   Starting replaces the recording: the new one has no deaths, starts at
   the event's time, is named after the time and the encounter, and the
   capture writes the video into the video directory under that name.
   Nothing else about the recorder changes.
   */
  lemma StartRecordingSpec(r: Recorder, time: Time, name: seq<byte>, fmt: Time -> seq<byte>, pid: nat)
    ensures var (r', a) := StartRecording(r, time, name, fmt, pid);
      && r'.recording.Some? && r'.recording.value.deaths == [] && r'.recording.value.starttime == time
      && r'.recording.value.process == pid
      && r'.recording.value.filename == fmt(time) + [UNDERSCORE] + name
      && r'.viddir == r.viddir && r'.command == r.command && r'.mkvmerge == r.mkvmerge
      && a.Spawn? && a.program == r.command && |a.args| == 24
      && a.args[22] == Ascii("-o") && a.args[23] == r.viddir + [SLASH] + r'.recording.value.filename + Ascii(".mkv")
  {
  }

  /** Stopping when nothing records changes nothing and does nothing. */
  lemma StopIdle(r: Recorder)
    requires r.recording.None?
    ensures StopRecording(r) == (r, [])
  {
  }

  /**
   Stopping a recording clears it, interrupts and waits for its process
   before anything else, and merges only when mkvmerge is available: then
   the chapter file holds the recording's chapters and the merge reads that
   file and the video the capture was told to write, and writes
   `<viddir>/<filename>_final.mkv`, a different file.
   */
  lemma StopRecordingSpec(r: Recorder)
    requires r.recording.Some?
    ensures var (r', acts) := StopRecording(r); var rec := r.recording.value;
      && r'.recording.None? && r'.viddir == r.viddir && r'.command == r.command && r'.mkvmerge == r.mkvmerge
      && |acts| >= 2 && acts[0] == Interrupt(rec.process) && acts[1] == Wait(rec.process)
      && (r.mkvmerge.None? <==> |acts| == 2)
      && (r.mkvmerge.Some? ==>
            && |acts| == 4
            && acts[2] == WriteFile(ChapterFile(r.viddir, rec.filename), CreateChapters(rec.deaths, rec.starttime))
            && acts[3].Run? && acts[3].program == r.mkvmerge.value
            && |acts[3].args| == 5
            && acts[3].args[0] == Ascii("--chapters") && acts[3].args[1] == acts[2].path
            && acts[3].args[2] == Ascii("-o") && acts[3].args[3] == r.viddir + [SLASH] + rec.filename + Ascii("_final.mkv")
            && acts[3].args[4] == VideoFile(r.viddir, rec.filename)
            && acts[3].args[3] != acts[3].args[4])
  {
    var rec := r.recording.value;
    FinalIsNotVideo(r.viddir, rec.filename);
  }

  /**
   A recorder fresh from `Recorder::new` merges exactly when the configured
   mkvmerge is executable: its first recording stops with the interrupt and
   the wait alone otherwise, and with that very mkvmerge run when it is.
   */
  lemma FreshRecorderMerges(viddir: seq<byte>, command: seq<byte>, mkvmerge: seq<byte>, executable: seq<byte> -> bool,
                            time: Time, name: seq<byte>, fmt: Time -> seq<byte>, pid: nat)
    ensures var r := NewRecorder(viddir, command, mkvmerge, executable);
      var (r1, spawn) := StartRecording(r, time, name, fmt, pid);
      var (r2, acts) := StopRecording(r1);
      && spawn.Spawn? && spawn.program == command && r2.recording.None?
      && (|acts| == 4 <==> executable(mkvmerge)) && (|acts| == 2 <==> !executable(mkvmerge))
      && (executable(mkvmerge) ==> acts[3].Run? && acts[3].program == mkvmerge)
  {
    var r := NewRecorder(viddir, command, mkvmerge, executable);
    StartRecordingSpec(r, time, name, fmt, pid);
    StopRecordingSpec(StartRecording(r, time, name, fmt, pid).0);
  }

  /** The merge output and the captured video are different files. */
  lemma FinalIsNotVideo(viddir: seq<byte>, filename: seq<byte>)
    ensures FinalFile(viddir, filename) != VideoFile(viddir, filename)
  {
    assert |FinalFile(viddir, filename)| == |VideoFile(viddir, filename)| + 6;
  }

  /**
   A start followed by a stop merges the very file the capture wrote, and the
   chapter file, read back, holds one chapter per death added in between, in
   order, numbered from 1 and timed from the start.
   */
  lemma StartThenStop(r: Recorder, time: Time, name: seq<byte>, fmt: Time -> seq<byte>, pid: nat, ds: seq<Death>)
    requires r.mkvmerge.Some? && NamesOnOneLine(ds)
    ensures var (r1, spawn) := StartRecording(r, time, name, fmt, pid);
      var r2 := r1.(recording := Some(AddDeaths(r1.recording.value, ds)));
      var (_, acts) := StopRecording(r2);
      && |acts| == 4 && acts[3].Run? && acts[3].args[4] == spawn.args[23]
      && var chapters := ReadChapters(acts[2].contents);
      && chapters.Some? && |chapters.value| == |ds|
      && forall k | 0 <= k < |ds| :: chapters.value[k] == Chapter(k + 1, ds[k].0 - time, ds[k].1)
  {
    var (r1, spawn) := StartRecording(r, time, name, fmt, pid);
    var rec := AddDeaths(r1.recording.value, ds);
    AddDeathsKeepsAll(r1.recording.value, ds);
    assert rec.deaths == ds;
    var r2 := r1.(recording := Some(rec));
    StopRecordingSpec(r2);
    ReadCreateChapters(ds, time);
  }
}
