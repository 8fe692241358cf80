# progrs combat-log recorder, modelled in Dafny

progrs follows the combat log World of Warcraft writes while it is being written.
It turns the log into encounter-start, encounter-end and player-death events and
records the screen for every boss encounter. When the recording stops, it writes a
chapter file with one chapter per death and merges it into the video with mkvmerge.

This project models the following parts:

- **The incremental parser.** It comes in two versions. `Current` is
  `src/parser/mod.rs`, with the unit-flag death filter of `src/parser/flags.rs`.
  `Legacy` is `src/parser.rs`, which reports every player death. The model covers
  the byte scanners it is built from, the flag decoding and the bit test.
- **The recorder.** This is the recording state, the file names and command lines
  it builds, and the chapter text.
- **The dispatch loop of `main`.**
- **The log follower's pure parts.** These are the choice of the newest log file,
  opening at the end, the prefix filter on created files, and the bookkeeping of
  the unconsumed buffer around each parse. The follower is stated for any parse
  that leaves a suffix of its buffer. It is then instantiated twice: with `parse`
  as the source calls it, and with the correction of the finding below.

Bytes are `bv8`. Timestamps are integer milliseconds. The chrono parse and format
functions are parameters (`pt`, `fmt`).

A panic of the source is an explicit outcome, never a precondition. This covers an
`expect` on a malformed line, a slice out of range, and a directory that cannot be
listed. For the parser the outcome is `Panicked(reason)`, and the events sent
before the panic are kept. For the follower, its tokio task ends.

Processes, signals and file writes are not performed. The recorder returns them as
`Action`s that carry the exact paths and argument lists the source builds.

Files and modules:

- `scan.dfy`: `Wrappers` and `Scan` (memchr, memrchr, memmem find and rfind as
  index searches).
- `events.dfy`: `Events`.
- `flags.dfy`: `Flags`.
- `parser.dfy`: `Parser`.
- `parser_props.dfy`: `ParserProps`.
- `complete_lines.dfy`: `CompleteLines`, the finding below.
- `death_names.dfy`: `DeathNames`, why no reported name holds a newline.
- `chapters.dfy`: `Decimal` and `Chapters`, the chapter text and a reader for it.
- `recorder.dfy`: `Recorder`.
- `dispatch.dfy`: `Dispatch`.
- `dirwatcher.dfy`: `Dirwatcher`.

## Behaviour worth noting

- **Merging.** The merge runs whenever mkvmerge is configured. The capture's exit
  status is never inspected (src/recorder.rs:100-103). The intermediate files are
  not removed, because the removal is commented out (src/recorder.rs:121-122).
- **Chapter labels.** A chapter's name line holds the bare player name
  (src/recorder.rs:161).
- **Event kinds.** The events are encounter start, encounter end, player death
  and I/O error; nothing else reaches the loop (src/events.rs:6-12).
- **Start while recording.** A start overwrites a running recording without
  stopping it (src/recorder.rs:75-76).
- **File rotation.** A newly created log file keeps the unconsumed buffer
  (src/dirwatcher.rs:49, 76). The old file's leftover bytes are parsed in front of
  the new file's content.
- **`datetime_from_line`.** It advances the line past the timestamp, although its
  doc comment says it does not (src/parser/mod.rs:171-180).

## Model

| member | source | states |
|---|---|---|
| Scan.Memchr | src/parser/mod.rs:82-83 | the index of the first occurrence of the byte, none before it; `None` exactly when the byte does not occur |
| Scan.Memrchr | src/parser/mod.rs:80-81 | the index of the last occurrence of the byte, none after it; `None` exactly when the byte does not occur |
| Scan.FirstTwo | src/parser/mod.rs:160-162 | a `memchr` followed by a `memchr` past it finds the first two occurrences, with none before or between them |
| Scan.FirstTwoNone | src/parser/mod.rs:160-162 | the second search fails exactly when the byte occurs at most once |
| Scan.FindFirst | src/parser/mod.rs:54 | `find_iter(..).next()` is an occurrence, and no occurrence starts before it |
| Scan.FindNone | src/parser/mod.rs:54 | `find_iter(..).next()` is `None` exactly when the marker does not occur |
| Scan.RFindLast | src/parser/mod.rs:125-127 | `rfind_iter(..).next()` is an occurrence, and no occurrence starts after it |
| Scan.RFindNone | src/parser/mod.rs:125-127 | `rfind_iter(..).next()` is `None` exactly when the marker does not occur |
| Scan.FindIterFromOccurs | src/parser/mod.rs:77-79 | every index `find_iter` yields is an occurrence |
| Scan.FindIterFromApart | src/parser/mod.rs:77-79 | the yielded occurrences increase and do not overlap |
| Scan.FindIterComplete | src/parser/mod.rs:77-79 | for a marker that cannot overlap itself, `find_iter` yields an index exactly when the marker occurs there |
| Scan.LastOfFindIterIsRFind | src/parser/mod.rs:30-32 | `find_iter(..).last()` is the last occurrence, so both versions of `skip_encounter_end` find the same end |
| Scan.OccurrencesApart | src/parser/mod.rs:77 | two occurrences of a marker that cannot overlap itself are at least its length apart |
| Parser.StartBorderFree | src/parser/mod.rs:30 | `ENCOUNTER_START` cannot overlap itself |
| Parser.EndBorderFree | src/parser/mod.rs:54 | `ENCOUNTER_END` cannot overlap itself |
| Parser.UnitDiedBorderFree | src/parser/mod.rs:77 | `UNIT_DIED` cannot overlap itself |
| Parser.SkipToNextLine | src/parser/mod.rs:137-152 | the result is a suffix; it is empty when there is no newline, and otherwise starts just past the first newline |
| Parser.KeepLastLine | src/parser/mod.rs:64-71 | the result is a newline-free suffix: the whole buffer when it holds no newline, otherwise what follows the last newline |
| Parser.LineStart | src/parser/mod.rs:80-81 | the start of the line around an index: just past a newline, or 0, with no newline up to the index |
| Parser.LineEnd | src/parser/mod.rs:82-83 | the end of the line around an index: a newline or the end of the buffer, with no newline from the index on |
| Parser.LastStart | src/parser/mod.rs:30-32 | the last `ENCOUNTER_START` |
| Parser.LastEnd | src/parser/mod.rs:125-127 | the last `ENCOUNTER_END`, for both versions |
| Parser.SkipEncounterEnd | src/parser/mod.rs:124-134 | it answers true exactly when `ENCOUNTER_END` occurs; then it leaves a suffix, and otherwise the buffer unchanged |
| Parser.SkipEncounterEndSpec | src/parser/mod.rs:124-134 | on true, the buffer starts right after the line of the last `ENCOUNTER_END` and no `ENCOUNTER_END` is left |
| Parser.SkipToNextLineCut | src/parser/mod.rs:137-152 | skipping from an index cuts just past the first newline at or after it, or at the end |
| Parser.NoEndAfterLast | src/parser/mod.rs:124-134 | past the last `ENCOUNTER_END` no `ENCOUNTER_END` occurs |
| Parser.DatetimeFromLine | src/parser/mod.rs:172-183 | the rest of the line it leaves is a suffix of the line |
| Parser.DatetimeFromLineSpec | src/parser/mod.rs:172-180 | the timestamp is the text up to the second blank, with exactly one blank, read by the time parser; the line advances to the second blank; a line with fewer than two blanks panics |
| Parser.DatetimeFromLineOfStamp | src/parser/mod.rs:172-180 | with a first and a second blank, the call fails exactly when the time parser rejects the text before the second blank, and otherwise gives that time and the line from the second blank |
| Parser.Underscored | src/parser/mod.rs:163-166 | same length; every blank becomes `_` and every other byte is kept |
| Parser.DeathLineLong | src/parser/mod.rs:105-106 | a death line reaches at least past `UNIT_DIED`, so `lineend - 2` never underflows |
| Parser.Collect | src/parser/mod.rs:79-119 | the loop of `handle_deaths` sends only `PlayerDeath` events, at most one per occurrence |
| Parser.HandleDeaths | src/parser/mod.rs:76-120 | `handle_deaths` sends only `PlayerDeath` events |
| ParserProps.CountsOfDeaths | src/parser/mod.rs:76-120 | a run of deaths holds no start and no end |
| ParserProps.StartLine | src/parser/mod.rs:33-36 | the buffer rewound to the line of the last start is a suffix of it |
| ParserProps.ParseWithStart | src/parser/mod.rs:30-37 | with a start, `parse` goes on from the line of the last start |
| ParserProps.ParseNoStart | src/parser/mod.rs:54-71 | without a start, `parse` is its second half alone |
| ParserProps.FromStartClosed | src/parser/mod.rs:39-41 | when an end follows the last start line, the call emits nothing and keeps what follows the last end line |
| ParserProps.FromStartOpen | src/parser/mod.rs:43-51 | otherwise it emits the start with its time and name, then what the second half emits on the lines after the start line |
| ParserProps.FromStartPanics | src/parser/mod.rs:44-45 | a start line without a timestamp or a quoted name panics before anything is sent |
| ParserProps.TailWithEnd | src/parser/mod.rs:54-58 | with an end, the deaths before the first end are reported, then one `EncounterEnd`; a panic among them stops the call |
| ParserProps.TailWithoutEnd | src/parser/mod.rs:59-71 | without an end, all deaths are reported and only the text after the last newline is kept |
| ParserProps.ParseTailShape | src/parser/mod.rs:54-71 | the second half emits deaths, then at most one final `EncounterEnd`; what it keeps is a newline-free suffix |
| ParserProps.TailEventsWithEnd | src/parser/mod.rs:54-58 | with an end, the events are deaths followed by one `EncounterEnd` |
| ParserProps.TailRemainder | src/parser/mod.rs:64-71 | the remainder of the second half is a newline-free suffix |
| ParserProps.FromStartRemainder | src/parser/mod.rs:39-71 | from a start line, the remainder is a suffix, and it is newline-free unless the call returned early |
| ParserProps.ParseRemainderIsSuffix | src/parser/mod.rs:24 | whatever the path, the remainder is a suffix of the input |
| ParserProps.ParseClosedEmitsNothing | src/parser/mod.rs:32-41 | when the last start is closed, the call emits nothing and keeps a suffix holding no `ENCOUNTER_END` |
| ParserProps.ParseOpenRemainderHasNoNewline | src/parser/mod.rs:64-71 | off the early return, the remainder holds no newline |
| ParserProps.TailCounts | src/parser/mod.rs:54-62 | the second half emits no start and at most one end, and no end when there is none in the buffer |
| ParserProps.EventCounts | src/parser/mod.rs:54-62 | deaths, possibly followed by one end, hold no start and at most one end |
| ParserProps.FromStartCounts | src/parser/mod.rs:39-62 | from a start line, at most one start or end is emitted |
| ParserProps.ParseAtMostOneStartOrEnd | src/parser/mod.rs:32-62 | one call emits at most one `EncounterStart` or one `EncounterEnd`, never both |
| ParserProps.ParseOpenEncounter | src/parser/mod.rs:43-51 | an open last start is emitted first, with the time and name of its line, followed by deaths only |
| ParserProps.ParseWithoutStart | src/parser/mod.rs:54-62 | without a start, the deaths before the first end are emitted in order and then one end; without an end, all deaths are emitted |
| ParserProps.ParseDiscardsBeforeLastStart | src/parser/mod.rs:30-37 | everything before the line of the last start is dropped unseen: parsing from that line gives the same result |
| ParserProps.StartLineStartsAtStart | src/parser/mod.rs:33-36 | the rewound buffer still holds the start and rewinding it again changes nothing |
| ParserProps.NoDeathLines | src/parser/mod.rs:77-79 | without `UNIT_DIED`, `handle_deaths` sends nothing and does not panic |
| ParserProps.VersionsAgreeWithoutDeaths | src/parser.rs:17-60 | without death lines, the two versions of `parse` give the same result |
| ParserProps.FromStartVersionsAgree | src/parser.rs:17-60 | from a start line without death lines, the two versions agree |
| ParserProps.TailVersionsAgree | src/parser.rs:42-59 | the second halves of the two versions agree on a buffer without death lines |
| ParserProps.VictimOfSpec | src/parser/mod.rs:85-91 | a death line has no time, no `,Player-`, or else a victim whose fields start at the first `,Player-` after the timestamp and whose name is its quoted field |
| ParserProps.NameFieldSpec | src/parser/mod.rs:89-93 | the name is the bytes strictly between the first two double quotes, and the flag field starts two bytes past the closing one; with fewer than two quotes the call panics |
| ParserProps.EncounterFromLineSpec | src/parser/mod.rs:159-169 | the encounter is the quoted name with each blank replaced by `_`, same length, other bytes unchanged; with fewer than two quotes the call panics |
| ParserProps.CurrentDeathIsLegacyDeath | src/parser/mod.rs:108-117 | every death the current parser reports, the legacy parser reports identically |
| ParserProps.CurrentDeathFilter | src/parser/mod.rs:87-117 | the current parser reports a legacy death exactly when the flag word has both `ControlPlayer` and `TypePlayer` and one of the last two bytes of the line is `0`; a bad flag word panics |
| ParserProps.LegacyReportsEveryPlayer | src/parser.rs:62-84 | a timestamped death line is skipped exactly when it lacks `,Player-`; otherwise it is reported with its time and the first quoted name after `,Player-` |
| ParserProps.LegacyDeathOfVictim | src/parser.rs:73-83 | the legacy verdict follows from the victim alone: skipped without a player, reported with its time and name |
| ParserProps.VictimNamed | src/parser.rs:73-79 | a line with a timestamp, `,Player-` and a quoted name after it has a victim |
| ParserProps.CollectAppend | src/parser/mod.rs:79-119 | deaths are reported in the order of their occurrences, and the first panic ends the loop |
| ParserProps.CollectOne | src/parser/mod.rs:108-117 | one occurrence sends its death, nothing, or panics |
| CompleteLines.IncompleteDeathReported | src/parser/mod.rs:64-71 | as written: a lone incomplete death line is reported and kept whole, so the next call reports it again |
| CompleteLines.Cut | src/parser/mod.rs:64-71 | the split point just past the last newline; nothing after it is a complete line |
| CompleteLines.ParseEmpty | src/parser/mod.rs:29-72 | an empty buffer gives no events and an empty remainder |
| CompleteLines.ParseCompleteWaits | src/parser/mod.rs:64-71 | corrected: a lone incomplete line is kept as it is, and nothing is reported from it |
| CompleteLines.ParseCompleteAgrees | src/parser/mod.rs:29-72 | corrected: on a buffer that ends with a newline, the correction changes nothing |
| CompleteLines.LinesKeepNothing | src/parser/mod.rs:64-71 | off the early return, `parse` on complete lines keeps nothing |
| CompleteLines.ParseCompleteIdempotent | src/parser/mod.rs:64-71 | corrected: the remainder is exactly the incomplete last line, and parsing it again with nothing appended reports nothing and keeps it |
| CompleteLines.CutEndsLine | src/parser/mod.rs:64-71 | the complete lines are empty or end with a newline |
| CompleteLines.ParseCompleteRest | src/parser/mod.rs:64-71 | the corrected remainder is what `parse` keeps of the complete lines, then the incomplete line |
| Flags.Bit | src/parser/flags.rs:1-4 | each flag is a single power of two |
| Flags.Unsigned | src/parser/flags.rs:10-14 | the two's-complement word of an `i32`, equal to it when it is not negative |
| Flags.BitAndPow2 | src/parser/flags.rs:11-13 | and-ing with a power of two keeps exactly that binary digit |
| Flags.HasFlagIsBitTest | src/parser/flags.rs:10-14 | `has_flag` holds exactly when the flag's binary digit of the word is set |
| Flags.FlagExamples | src/parser/flags.rs:20-33 | `0x514` has both flags, `0x100` only `ControlPlayer`, `0x400` only `TypePlayer` |
| Flags.ParseFlagField | src/parser/mod.rs:96-99 | a decoded flag field starts with `0x` |
| Flags.FromStrRadix16 | src/parser/mod.rs:99 | a string decodes exactly when it is an optional `+` or `-` and then at least one hexadecimal digit whose signed value lies in the `i32` range, and then to that signed value |
| Flags.HexValueDigits | src/parser/mod.rs:99 | a digit string decodes exactly when every byte of it is a hexadecimal digit, either case |
| Flags.FromStrRadix16Bare | src/parser/mod.rs:99 | unsigned digits decode to their value when it is below 2^31 |
| Flags.FromStrRadix16Plus | src/parser/mod.rs:99 | behind `+`, digits decode to their value when it is below 2^31 |
| Flags.FromStrRadix16Minus | src/parser/mod.rs:99 | behind `-`, digits decode to their negated value down to -2^31 |
| Flags.FromStrRadix16OfSigned | src/parser/mod.rs:99 | the hexadecimal digits of any magnitude read back under either sign, `i32::MIN` included |
| Flags.HexValueOfToHex | src/parser/mod.rs:99 | hexadecimal digits decode to the number they encode |
| Flags.ParseFlagFieldOfHex | src/parser/mod.rs:96-99 | `0x` and the hexadecimal digits of a non-negative `i32` decode to that value |
| Flags.WithParseExample | src/parser/flags.rs:35-45 | `"0x514"` decodes to 1300, which has both flags |
| Decimal.TruncDivRem | src/recorder.rs:155-158 | chrono's truncating quotient and remainder rebuild the dividend, and the remainder takes the dividend's sign |
| Decimal.ValueOfDigits | src/recorder.rs:153 | the decimal digits of a number read back as that number |
| Decimal.PaddedShape | src/recorder.rs:153 | `{:02}` output is at least the width long, is digits with a leading `-` exactly for a negative number |
| Decimal.ReadPadded | src/recorder.rs:153 | reading a zero-padded numeral gives back the number, whatever the width and sign |
| Chapters.SplitJoined | src/recorder.rs:153 | text joined at a separator it does not contain splits back into its parts |
| Chapters.TimeFieldsOfNonNegative | src/recorder.rs:150-158 | for a delta d ≥ 0 the fields are d / 3600000 hours, not reduced modulo 24, then (d / 60000) % 60, (d / 1000) % 60 and d % 1000 |
| Chapters.TimeFieldsRebuild | src/recorder.rs:150-158 | for any delta the fields add back up to it, each field lies within its range, and all fields have the delta's sign |
| Chapters.ReadTimeText | src/recorder.rs:153-158 | the `HH:MM:SS.mmm` text reads back as the delta it was made from |
| Chapters.ReadEntryOf | src/recorder.rs:151-162 | a chapter's time line and name line read back as that chapter: its index, its offset and its name unchanged |
| Chapters.NoNewlineInLines | src/recorder.rs:151-162 | neither line of a chapter holds a newline unless the name does |
| Chapters.RenderReads | src/recorder.rs:151-162 | a chapter renders as its two newline-ended lines, and they read back as that chapter |
| Chapters.ReadRendered | src/recorder.rs:149-163 | the lines of a run of chapters, one after the other, read back as that run |
| Chapters.ReadCreateChapters | src/recorder.rs:146-166 | the chapter file reads back as one chapter per death, in order, numbered from 1, timed from the start, labelled with the bare name |
| Chapters.ChaptersAppend | src/recorder.rs:149-162 | one more death adds its two lines at the end, numbered after the others, and changes nothing before them |
| Recorder.AddDeathsKeepsAll | src/recorder.rs:142-144 | deaths added one by one are all kept, in order, behind the earlier ones |
| Recorder.AddDeathChapters | src/recorder.rs:142-166 | after one more death the chapter text is the old text plus one more chapter |
| Recorder.StartRecordingSpec | src/recorder.rs:50-77 | the recording is replaced by a fresh one named `fmt(time)_name`, with no deaths; the capture writes `<viddir>/<filename>.mkv`; nothing else changes |
| Recorder.StopIdle | src/recorder.rs:80-83 | stopping when idle does nothing |
| Recorder.StopRecordingSpec | src/recorder.rs:79-125 | stopping clears the recording, interrupts and then waits for the capture; the chapter file and the merge follow only with mkvmerge; the merge gets `--chapters` with the chapter file it was written to, `-o` with `<viddir>/<filename>_final.mkv`, and the captured video, which is a different file |
| Recorder.FreshRecorderMerges | src/recorder.rs:31-48 | a recorder fresh from `Recorder::new` spawns the configured command, and its first stop runs the configured mkvmerge exactly when it is executable, otherwise only interrupts and waits |
| Recorder.FinalIsNotVideo | src/recorder.rs:107-108 | the merge output is never the captured video |
| Recorder.StartThenStop | src/recorder.rs:50-125 | the merge reads the file the capture was told to write, and the chapter file reads back as the deaths added in between |
| Dispatch.RunAppend | src/lib.rs:29-50 | events are handled strictly one after the other |
| Dispatch.RunStopped | src/lib.rs:44-47 | once the loop has ended, no event is processed |
| Dispatch.IoErrEndsLoop | src/lib.rs:44-47 | an `IoErr` ends the loop: nothing after it changes the recorder or asks for an action |
| Dispatch.IdleDeathDropped | src/lib.rs:39-43 | a death with nothing recording is dropped |
| Dispatch.StartOverwrites | src/lib.rs:35-37 | a start always starts a fresh recording and only spawns; a running capture is neither stopped nor waited for |
| Dispatch.EndStops | src/lib.rs:38 | an end stops the recording, and does nothing at all when idle |
| Dispatch.ParsedNamesOnOneLine | src/recorder.rs:151-162 | deaths whose names hold no newline, as the parser's are, meet the condition under which the chapter file reads back |
| Dispatch.DeathsAppended | src/lib.rs:39-43 | while recording, deaths are appended in the order received, and nothing else changes |
| Dispatch.EncounterSteps | src/lib.rs:29-50 | a start, deaths and an end give the spawn, then what stopping the recording with those deaths asks for |
| Dispatch.EncounterRecorded | src/lib.rs:29-50 | a whole encounter with mkvmerge gives spawn, interrupt, wait, chapter file, merge; the chapters read back as the deaths, and the merge reads the captured video |
| Dispatch.WatchFailureEndsLoop | src/dirwatcher.rs:52-57 | a failure to set up the watches ends the loop with the recorder as the earlier events left it |
| Dirwatcher.NewestFile | src/dirwatcher.rs:129-150 | the name of a regular file with the prefix whose modification time is maximal, the last such on ties; the error exactly when no entry qualifies |
| Dirwatcher.NewestUnique | src/dirwatcher.rs:140-145 | at most one entry is the newest, so the choice is determined |
| Dirwatcher.At | src/dirwatcher.rs:25-45 | a directory that cannot be listed panics; no log file is an error; otherwise the newest log is opened at its end, or the open error is returned |
| Dirwatcher.OpenedAtEnd | src/dirwatcher.rs:31 | opened at the end, nothing of the existing content is left to read |
| Dirwatcher.After | src/dirwatcher.rs:107 | after `read_to_end` nothing is left to read and the position never moves back |
| Dirwatcher.ReadGrowing | src/dirwatcher.rs:107 | two reads of a growing file read what one read would, with nothing lost or read twice |
| Dirwatcher.Drain | src/dirwatcher.rs:112-117 | the kept bytes are a suffix of the buffer, exactly the slice the parser left |
| Dirwatcher.AsWritten | src/dirwatcher.rs:108-110 | the follower's parse as the source calls it: `parse` of src/parser/mod.rs, which leaves a suffix of the buffer |
| Dirwatcher.Corrected | src/dirwatcher.rs:108-110 | the same parse restricted to complete lines, which also leaves a suffix |
| Dirwatcher.AsWrittenKeepsSuffix | src/parser/mod.rs:24 | `parse` only advances the start of its slice, so what it leaves is a suffix of the buffer |
| Dirwatcher.CorrectedKeepsSuffix | src/dirwatcher.rs:108-117 | so does the corrected parse, so `drain` keeps exactly what it left |
| Dirwatcher.ParseCompleteSuffix | src/dirwatcher.rs:108-110 | what the corrected parse leaves is a suffix of its input |
| Dirwatcher.OnModifySpec | src/dirwatcher.rs:106-120 | for any parse that leaves a suffix: the file is read to its end; the events are those of parsing the kept bytes followed by the new ones; the buffer keeps exactly what that parse left, or the follower ends on a panic |
| Dirwatcher.FirstModifySkipsOld | src/dirwatcher.rs:31 | the first modification after opening parses only what was appended since |
| Dirwatcher.CreatedReadsAll | src/dirwatcher.rs:62-81 | a created log file is followed from offset 0, parsed whole behind the previous file's leftover bytes |
| Dirwatcher.CreatedIgnored | src/dirwatcher.rs:65-79 | a created file without the prefix is ignored |
| Dirwatcher.ErrorsEndTask | src/dirwatcher.rs:52-74 | failing to open the new file, or to set up the watches, sends that error alone and ends the follower |
| Dirwatcher.StepsAppend | src/dirwatcher.rs:51-89 | inputs are handled one after the other |
| Dirwatcher.DeadStaysSilent | src/dirwatcher.rs:52-74 | an ended task sends nothing more |
| Dirwatcher.WatchAppend | src/dirwatcher.rs:51-89 | watching two batches of inputs is watching the first, then the second |
| Dirwatcher.WatchTwo | src/dirwatcher.rs:82-85 | two modifications are handled one after the other, their events in order |
| Dirwatcher.ReparsesKept | src/dirwatcher.rs:106-117 | a line the parse keeps whole is parsed again on the next modification, with nothing appended, and its events are sent twice |
| Dirwatcher.FollowerReportsTwice | src/dirwatcher.rs:106-117 | as written, a death line appended without its newline is reported on one modification and again on the next |
| Dirwatcher.FollowerWaits | src/dirwatcher.rs:106-117 | corrected, the same line is not reported while its newline is missing, and it waits in the buffer |
| DeathNames.LineHasNoNewline | src/parser/mod.rs:80-84 | the line cut out around a death holds no newline |
| DeathNames.VictimNameOnLine | src/parser/mod.rs:85-91 | the name read off a line without a newline holds none |
| DeathNames.LegacyNameIsVictims | src/parser.rs:71-82 | a legacy death is reported under the name of its line's victim |
| DeathNames.DeathNameOnLine | src/parser/mod.rs:79-117 | a death one occurrence reports, in either version, names its player without a newline |
| DeathNames.CollectNames | src/parser/mod.rs:79-119 | the loop sends no name holding a newline |
| DeathNames.HandleDeathsNames | src/parser/mod.rs:76-120 | no death `handle_deaths` sends has a newline in its name |
| DeathNames.ParseTailNames | src/parser/mod.rs:54-62 | the same for the second half of `parse` |
| DeathNames.ParseFromStartNames | src/parser/mod.rs:39-62 | the same from a start line |
| DeathNames.ParseNames | src/parser/mod.rs:29-72 | no death `parse` reports, in either version, has a newline in its name |
| DeathNames.ParseCompleteNames | src/parser/mod.rs:29-72 | the same for the corrected parse |
| Dirwatcher.ErrorEndsStream | src/dirwatcher.rs:52-57 | a watch failure is the last event sent |

## Left out

- I/O, inotify, the tokio task and the bounded channel are left out. The follower
  receives its inputs as a sequence: a file was created (with the outcome of opening
  it), the followed file was modified (with its contents), or setting up the watches
  failed. The channel is lossless and ordered, so events are a sequence.
- Matching inotify events to their watch descriptor is left out. A `Modified`
  input always means the followed file changed, and a `Created` input always comes
  from the directory watch (src/dirwatcher.rs:62, 82).
- The follower sets the watches up again after every followed creation, and
  whenever the event stream ends or yields an error (src/dirwatcher.rs:51-60, 77).
  The model does not track this. A failure of any such setup is a `WatchFailed`
  input, which may come at any point.
- The panics of `read_to_end`, of `seek` and of sending on the channel are not
  modelled. Nor is the second metadata read inside `max_by_key`, which could fail
  if a file vanished between the two reads (src/dirwatcher.rs:107, 125, 141-144).
  The model reads metadata once.
- Spawning the screen recorder, the interrupt, the wait, the chapter-file write and
  the mkvmerge run are returned as `Action`s and not performed. Their own panics are
  left out, and so are the pid conversion and the printed diagnostics. The process
  id is a parameter.
- chrono's parsing of log timestamps and formatting of file names are parameters.
  Durations are whole milliseconds, so sub-millisecond precision is not modelled.
- UTF-8 validation and `from_utf8_lossy` are left out. Names are bytes. A failed
  `from_utf8` of the timestamp is folded into the time parser's `None`.
- `src/config.rs` is not part of this model. `executable` is a parameter of
  `NewRecorder`.
- The stop sequence runs in a detached tokio task: interrupt, wait, chapter file,
  merge (src/recorder.rs:91-124). Its actions can therefore interleave with those
  of later events, such as the next encounter's spawn. `Dispatch.Loop.actions`
  lists them in the order they were requested, as if the stop ran at once.
- Chapters.ReadCreateChapters: the read-back is stated only for names without a
  newline, because a newline in a name splits its chapter line. Every name the
  parser reports meets this condition (`DeathNames.ParseNames`,
  `Dispatch.ParsedNamesOnOneLine`).
- Chapters.RenderReads: stated only for a name without a newline, for the same
  reason and with the same guarantee from the parser.
- Recorder.StartThenStop: the read-back of the chapter file is stated only for
  names without a newline, for the same reason and with the same guarantee.
- Dispatch.EncounterRecorded: the read-back of the chapter file is stated only for
  names without a newline, for the same reason and with the same guarantee.
- CompleteLines.ParseCompleteIdempotent: stated only when the last start of the
  complete lines is not already closed. In that case the source's early return
  keeps lines after the end, which later calls look at again by design.

## Findings

| source | as written | input that shows it | evidently intended | confidence | as-written member | corrected member |
|---|---|---|---|---|---|---|
| src/parser/mod.rs:54-71 | `handle_deaths` scans the whole buffer, including an incomplete last line. That line is then kept as the remainder, because the `memrchr` finds no newline, so the next call scans it again and reports its death a second time. src/parser.rs:42-59 has the same code. | the legacy parser given `1/2/2024 10:00:00.000  UNIT_DIED,0x0,Player-1-2,"Name-Realm",0x511,0x0,0` with no trailing newline reports the death, keeps the whole line, and reports it again on the next modification | only complete lines are parsed and the incomplete last line waits for its newline, so no event is sent twice | not executed | CompleteLines.IncompleteDeathReported | CompleteLines.ParseCompleteIdempotent |
