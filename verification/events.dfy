/** The events the log follower sends to the dispatch loop (src/events.rs). */
module Events {
  import opened Scan

  /** A point on the log's clock, in milliseconds. */
  type Time = int

  /** The payload of an I/O failure, kept abstract. */
  datatype IoError = IoError(message: seq<byte>)

  datatype Event =
    | EncounterStart(time: Time, name: seq<byte>)
    | EncounterEnd
    | PlayerDeath(time: Time, name: seq<byte>)
    | IoErr(error: IoError)
}
