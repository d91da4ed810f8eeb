/** What the session driver tells the user interface. */
module SessionEvents {
  import opened Prelude

  datatype SessionState = Connecting | Authenticated | ShellOpen | Closed | Failed(message: string)

  datatype SessionEvent =
    | StateChanged(state: SessionState)
    | Output(bytes: seq<Byte>)
    | Stderr(bytes: seq<Byte>)
    | ExitStatus(status: nat)
    | Error(message: string)
    | DriverClosed
}
