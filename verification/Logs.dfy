/** A committed log, each command with the clock reading of the replica that applies it. */
module Logs {
  import opened Metadata

  datatype LogEntry = LogEntry(cmd: Command, now: Time)

  type Log = seq<LogEntry>

  /** The state after a log, starting from m. */
  function After(m: Meta, log: Log): Meta {
    if log == [] then m
    else
      var last := log[|log| - 1];
      Apply(After(m, log[..|log| - 1]), last.cmd, last.now).0
  }

  /** What each command of the log reports. */
  function Outcomes(m: Meta, log: Log): seq<Outcome> {
    if log == [] then []
    else
      var init, last := log[..|log| - 1], log[|log| - 1];
      Outcomes(m, init) + [Apply(After(m, init), last.cmd, last.now).1]
  }
}
