/**
 A session as two processes, the driver task and the user interface, joined by two bounded FIFO queues.
 A label is one atomic step of either process together with what the environment decides in it.
 */
module Session {
  import opened Prelude
  import opened SessionEvents
  import opened Transport

  datatype SessionInput = Bytes(data: seq<Byte>) | Resize(cols: nat, rows: nat) | Disconnect

  const INPUT_CAPACITY := 64
  const EVENT_CAPACITY := 256

  /** Where the driver task stands; an `Announce...` or `Report...` stands before an `event_tx.send`. */
  datatype Driver =
    | AnnounceConnecting
    | ConnectingClient
    | AnnounceAuthenticated
    | OpeningShell
    | AnnounceShellOpen
    | Selecting
    | Writing(data: seq<Byte>)
    | ReportWriteError(message: string)
    | Resizing(cols: nat, rows: nat)
    | ReportResizeError(message: string)
    | ClosingChannel
    | Forwarding(event: SessionEvent)
    | DisconnectingClient
    | AnnounceClosed
    | ReportFailure(message: string, authenticated: bool)
    | AnnounceFailed(message: string, authenticated: bool)
    | DroppingClient
    | Finishing
    | Done

  /** The user interface: in its `select!`, inside `input.send`, or returned (which drops the handle). */
  datatype Ui = Polling | Sending(input: SessionInput, quit: bool) | Gone

  /** A call of the SSH library, whatever comes of it. */
  datatype Call =
    | Connect
    | OpenChannel
    | Write(data: seq<Byte>)
    | ChangeSize(cols: nat, rows: nat)
    | CloseChannel
    | DisconnectClient

  /** `taken`, `calls`, `writes`, `emitted`, `delivered` and `received` record what has happened so far. */
  datatype System = System(
    driver: Driver, ui: Ui, inputs: seq<SessionInput>, events: seq<SessionEvent>, inbox: seq<ChannelMsg>,
    taken: seq<SessionInput>, calls: seq<Call>, writes: seq<seq<Byte>>,
    emitted: seq<SessionEvent>, delivered: seq<SessionEvent>, received: seq<ChannelMsg>)

  function Init(inbox: seq<ChannelMsg>): System {
    System(AnnounceConnecting, Polling, [], [], inbox, [], [], [], [], [], [])
  }

  datatype Outcome = Success | Failure(message: string)

  datatype Label =
    | EmitEvent
    | CallReturns(outcome: Outcome)
    | TakeInput
    | TakeMessage
    | AbortDriver
    | UserAsks(request: SessionInput, quit: bool)
    | UserLeaves
    | PushInput
    | ReceiveEvent

  /** The event that the driver is about to send, if it is about to send one. */
  function Outgoing(d: Driver): Option<SessionEvent> {
    match d
    case AnnounceConnecting => Some(StateChanged(Connecting))
    case AnnounceAuthenticated => Some(StateChanged(Authenticated))
    case AnnounceShellOpen => Some(StateChanged(ShellOpen))
    case ReportWriteError(m) => Some(Error(m))
    case ReportResizeError(m) => Some(Error(m))
    case Forwarding(e) => Some(e)
    case AnnounceClosed => Some(StateChanged(Closed))
    case ReportFailure(m, _) => Some(Error(m))
    case AnnounceFailed(m, _) => Some(StateChanged(Failed(m)))
    case Finishing => Some(DriverClosed)
    case _ => None
  }

  /** Where the driver goes after sending; only the forwarding of remote output looks at the result. */
  function AfterSend(d: Driver, sent: bool): Driver
    requires Outgoing(d).Some?
  {
    match d
    case AnnounceConnecting => ConnectingClient
    case AnnounceAuthenticated => OpeningShell
    case AnnounceShellOpen => Selecting
    case ReportWriteError(_) => DisconnectingClient
    case ReportResizeError(_) => Selecting
    case Forwarding(_) => if sent then Selecting else DisconnectingClient
    case AnnounceClosed => Finishing
    case ReportFailure(m, a) => AnnounceFailed(m, a)
    case AnnounceFailed(_, a) => if a then DroppingClient else Finishing
    case Finishing => Done
  }

  /** Is the driver inside a call of the SSH library? */
  predicate Calling(d: Driver) {
    d.ConnectingClient? || d.OpeningShell? || d.Writing? || d.Resizing? || d.ClosingChannel?
    || d.DisconnectingClient? || d.DroppingClient?
  }

  function CallOf(d: Driver): Call
    requires Calling(d)
  {
    match d
    case ConnectingClient => Connect
    case OpeningShell => OpenChannel
    case Writing(data) => Write(data)
    case Resizing(cols, rows) => ChangeSize(cols, rows)
    case ClosingChannel => CloseChannel
    case DisconnectingClient | DroppingClient => DisconnectClient
  }

  function AfterCall(d: Driver, outcome: Outcome): Driver
    requires Calling(d)
  {
    match d
    case ConnectingClient =>
      (match outcome case Success => AnnounceAuthenticated case Failure(m) => ReportFailure(m, false))
    case OpeningShell => (match outcome case Success => AnnounceShellOpen case Failure(m) => ReportFailure(m, true))
    case Writing(_) => (match outcome case Success => Selecting case Failure(m) => ReportWriteError(m))
    case Resizing(_, _) => (match outcome case Success => Selecting case Failure(m) => ReportResizeError(m))
    case ClosingChannel => DisconnectingClient
    case DisconnectingClient => AnnounceClosed
    case DroppingClient => Finishing
  }

  function AfterInput(input: SessionInput): Driver {
    match input
    case Bytes(data) => Writing(data)
    case Resize(cols, rows) => Resizing(cols, rows)
    case Disconnect => ClosingChannel
  }

  function AfterMessage(event: Option<SshEvent>): Driver {
    match event
    case None => DisconnectingClient
    case Some(ShellData(d)) => Forwarding(Output(d))
    case Some(ShellStderr(d)) => Forwarding(Stderr(d))
    case Some(ShellEof) => Selecting
    case Some(ShellExit(s)) => Forwarding(ExitStatus(s))
    case Some(ShellClosed) => DisconnectingClient
  }

  predicate Enabled(s: System, l: Label) {
    match l
    case EmitEvent => Outgoing(s.driver).Some? && (s.ui.Gone? || |s.events| < EVENT_CAPACITY)
    case CallReturns(_) => Calling(s.driver)
    case TakeInput => s.driver.Selecting? && (s.inputs != [] || s.ui.Gone?)
    case TakeMessage => s.driver.Selecting?
    case AbortDriver => s.ui.Gone? && !s.driver.Done?
    case UserAsks(request, quit) => s.ui.Polling? && (quit ==> request.Disconnect?)
    case UserLeaves => s.ui.Polling?
    case PushInput => s.ui.Sending? && (s.driver.Done? || |s.inputs| < INPUT_CAPACITY)
    case ReceiveEvent => s.ui.Polling? && (s.events != [] || s.driver.Done?)
  }

  function Do(s: System, l: Label): System
    requires Enabled(s, l)
  {
    match l
    case EmitEvent =>
      var e := Outgoing(s.driver).value;
      if s.ui.Gone? then s.(driver := AfterSend(s.driver, false))
      else s.(driver := AfterSend(s.driver, true), events := s.events + [e], emitted := s.emitted + [e])
    case CallReturns(outcome) =>
      s.(driver := AfterCall(s.driver, outcome), calls := s.calls + [CallOf(s.driver)],
         writes := if s.driver.Writing? && outcome.Success? then s.writes + [s.driver.data] else s.writes)
    case TakeInput =>
      if s.inputs == [] then s.(driver := DisconnectingClient)
      else s.(driver := AfterInput(s.inputs[0]), inputs := s.inputs[1..], taken := s.taken + [s.inputs[0]])
    case TakeMessage =>
      var n := Consumed(s.inbox);
      s.(driver := AfterMessage(FirstEvent(s.inbox)), inbox := s.inbox[n..], received := s.received + s.inbox[..n])
    case AbortDriver => s.(driver := Done)
    case UserAsks(request, quit) => s.(ui := Sending(request, quit))
    case UserLeaves => s.(ui := Gone)
    case PushInput =>
      s.(ui := if s.ui.quit then Gone else Polling,
         inputs := if s.driver.Done? then s.inputs else s.inputs + [s.ui.input])
    case ReceiveEvent =>
      if s.events == [] then s.(ui := Gone)
      else
        s.(events := s.events[1..], delivered := s.delivered + [s.events[0]],
           ui := if s.events[0].DriverClosed? then Gone else Polling)
  }

  /** `s'` is reached from `s` by the steps `labels`. */
  ghost predicate Reaches(s: System, labels: seq<Label>, s': System)
    decreases labels
  {
    if labels == [] then s' == s
    else Enabled(s, labels[0]) && Reaches(Do(s, labels[0]), labels[1..], s')
  }

  lemma {:induction false} ReachesConcat(s: System, a: seq<Label>, m: System, b: seq<Label>, e: System)
    requires Reaches(s, a, m) && Reaches(m, b, e)
    ensures Reaches(s, a + b, e)
    decreases a
  {
    if a == [] {
      assert a + b == b;
    } else {
      assert (a + b)[1..] == a[1..] + b;
      ReachesConcat(Do(s, a[0]), a[1..], m, b, e);
    }
  }

  lemma ReachesOne(s: System, l: Label)
    requires Enabled(s, l)
    ensures Reaches(s, [l], Do(s, l))
  {
    assert [l][1..] == [];
    assert Reaches(Do(s, l), [], Do(s, l));
  }
}
