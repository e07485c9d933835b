/** The messages and errors the command queues exchange
    (src/errors.rs, src/command/queue_message.rs,
    src/command/execution_report.rs). */
module Messages {
  import opened Paths

  /** `ProgramErrors`, plus `BadInternalState`, which src/command/queue.rs
      returns although src/errors.rs does not declare it. */
  datatype ProgramError =
    | FileWatchError(what: string)
    | FileError(file: string, what: string)
    | CommandParseError(command: string, what: string)
    | EmptyCommand
    | CommandExecutionError(what: string)
    | InternalError(what: string)
    | ChannelReceiveError(what: string)
    | BadInternalState

  /** `QueueMessage`: what the watcher sends to the queue. `AddFile`
      carries the updated file and the watched path it was found under. */
  datatype QueueMessage = Abort | RestartBackoff | AddFile(file: Path, watch: Path)

  /** What one `try_recv` on the queue's channel yields. */
  datatype Received = Message(message: QueueMessage) | Empty | Disconnected

  /** `ExecStart`: the number of a dispatched command and the base names
      of the files it runs for. */
  datatype ExecStart = ExecStart(commandNumber: nat, files: seq<string>)

  /** A command handed to a worker: its number and its full argument
      vector (program first). */
  datatype Invocation = Invocation(commandNumber: nat, argv: seq<string>)
}
