/** What holds over every run of a session: the language of its events and the conservation of its traffic. */
module SessionSafety {
  import opened Prelude
  import opened SessionEvents
  import opened Transport
  import opened Session
  import AppSpec

  // ---- the language of the events ---------------------------------------------------------------

  predicate IsIo(e: SessionEvent) {
    e.Output? || e.Stderr? || e.ExitStatus? || e.Error?
  }

  predicate AllIo(t: seq<SessionEvent>) {
    forall i :: 0 <= i < |t| ==> IsIo(t[i])
  }

  const GREETING := [StateChanged(Connecting), StateChanged(Authenticated), StateChanged(ShellOpen)]

  /** The events of a session that fails before the shell is open. */
  function FailedTrace(authenticated: bool, message: string): seq<SessionEvent> {
    (if authenticated then GREETING[..2] else GREETING[..1])
    + [Error(message), StateChanged(Failed(message)), DriverClosed]
  }

  function OpenedTrace(io: seq<SessionEvent>): seq<SessionEvent> {
    GREETING + io + [StateChanged(Closed), DriverClosed]
  }

  /** The event traces of whole sessions. */
  ghost predicate IsComplete(t: seq<SessionEvent>) {
    || (exists authenticated, message :: t == FailedTrace(authenticated, message))
    || (exists io :: AllIo(io) && t == OpenedTrace(io))
  }

  /** Beginnings of whole traces. */
  ghost predicate IsLegal(t: seq<SessionEvent>) {
    exists rest :: IsComplete(t + rest)
  }

  /** What has been emitted while the driver stands at `d` and somebody listens. */
  ghost predicate Phase(d: Driver, t: seq<SessionEvent>) {
    match d
    case AnnounceConnecting => t == []
    case ConnectingClient => t == GREETING[..1]
    case AnnounceAuthenticated => t == GREETING[..1]
    case OpeningShell => t == GREETING[..2]
    case AnnounceShellOpen => t == GREETING[..2]
    case ReportFailure(_, a) => t == if a then GREETING[..2] else GREETING[..1]
    case AnnounceFailed(m, a) => t == (if a then GREETING[..2] else GREETING[..1]) + [Error(m)]
    case DroppingClient => exists m :: t + [DriverClosed] == FailedTrace(true, m)
    case Finishing => IsComplete(t + [DriverClosed])
    case Done => IsComplete(t)
    case Forwarding(e) => GREETING <= t && AllIo(t[3..]) && IsIo(e) && !e.Error?
    case _ => GREETING <= t && AllIo(t[3..])
  }

  lemma OpenedIsComplete(t: seq<SessionEvent>)
    requires GREETING <= t && AllIo(t[3..])
    ensures IsComplete(t + [StateChanged(Closed)] + [DriverClosed])
  {
    assert t + [StateChanged(Closed)] + [DriverClosed] == OpenedTrace(t[3..]);
  }

  lemma PrefixIsLegal(t: seq<SessionEvent>, whole: seq<SessionEvent>)
    requires t <= whole && IsComplete(whole)
    ensures IsLegal(t)
  {
    assert t + whole[|t|..] == whole;
  }

  lemma PhaseIsLegal(d: Driver, t: seq<SessionEvent>)
    requires Phase(d, t)
    ensures IsLegal(t)
  {
    match d
    case AnnounceConnecting | ConnectingClient | AnnounceAuthenticated =>
      PrefixIsLegal(t, FailedTrace(false, ""));
    case OpeningShell | AnnounceShellOpen =>
      PrefixIsLegal(t, FailedTrace(true, ""));
    case ReportFailure(m, a) =>
      PrefixIsLegal(t, FailedTrace(a, m));
    case AnnounceFailed(m, a) =>
      PrefixIsLegal(t, FailedTrace(a, m));
    case DroppingClient | Finishing =>
      PrefixIsLegal(t, t + [DriverClosed]);
    case Done =>
      PrefixIsLegal(t, t);
    case _ =>
      OpenedIsComplete(t);
      PrefixIsLegal(t, t + [StateChanged(Closed)] + [DriverClosed]);
  }

  lemma SendKeepsPhase(d: Driver, t: seq<SessionEvent>)
    requires Phase(d, t) && Outgoing(d).Some?
    ensures Phase(AfterSend(d, true), t + [Outgoing(d).value])
  {
    var e := Outgoing(d).value;
    match d
    case AnnounceFailed(m, a) =>
      assert t + [e] + [DriverClosed] == FailedTrace(a, m);
    case AnnounceClosed =>
      OpenedIsComplete(t);
    case ReportWriteError(_) | ReportResizeError(_) | Forwarding(_) =>
      assert (t + [e])[3..] == t[3..] + [e];
    case _ =>
  }

  // ---- traffic ----------------------------------------------------------------------------------

  function Payloads(inputs: seq<SessionInput>): seq<seq<Byte>> {
    if inputs == [] then []
    else if inputs[0].Bytes? then [inputs[0].data] + Payloads(inputs[1..])
    else Payloads(inputs[1..])
  }

  /** The inputs before the first request to disconnect. */
  function UntilDisconnect(inputs: seq<SessionInput>): seq<SessionInput> {
    if inputs == [] || inputs[0].Disconnect? then [] else [inputs[0]] + UntilDisconnect(inputs[1..])
  }

  /** The byte strings that the user asked to send before asking to disconnect. */
  function Typed(inputs: seq<SessionInput>): seq<seq<Byte>> {
    Payloads(UntilDisconnect(inputs))
  }

  lemma {:induction false} PayloadsConcat(a: seq<SessionInput>, b: seq<SessionInput>)
    ensures Payloads(a + b) == Payloads(a) + Payloads(b)
  {
    if a == [] {
      assert a + b == b;
    } else {
      assert (a + b)[1..] == a[1..] + b;
      PayloadsConcat(a[1..], b);
    }
  }

  lemma {:induction false} UntilDisconnectConcat(a: seq<SessionInput>, b: seq<SessionInput>)
    ensures UntilDisconnect(a + b) == UntilDisconnect(a) + (if Disconnect in a then [] else UntilDisconnect(b))
  {
    if a == [] {
      assert a + b == b;
    } else if !a[0].Disconnect? {
      assert (a + b)[1..] == a[1..] + b;
      UntilDisconnectConcat(a[1..], b);
      assert Disconnect in a <==> Disconnect in a[1..];
    }
  }

  lemma TypedConcat(a: seq<SessionInput>, b: seq<SessionInput>)
    ensures Typed(a) <= Typed(a + b)
    ensures Disconnect !in a ==> Typed(a + b) == Typed(a) + Typed(b)
  {
    var tail := if Disconnect in a then [] else UntilDisconnect(b);
    UntilDisconnectConcat(a, b);
    PayloadsConcat(UntilDisconnect(a), tail);
  }

  lemma TypedSnoc(a: seq<SessionInput>, x: SessionInput)
    requires Disconnect !in a
    ensures Typed(a + [x]) == Typed(a) + (if x.Bytes? then [x.data] else [])
  {
    TypedConcat(a, [x]);
    assert [x][1..] == [];
    assert UntilDisconnect([x]) == if x.Disconnect? then [] else [x];
    assert Payloads([x]) == (if x.Bytes? then [x.data] else []) + Payloads([]);
  }

  predicate IsRemoteOutput(e: SessionEvent) {
    e.Output? || e.Stderr? || e.ExitStatus?
  }

  /** The remote's output among the events. */
  function RemoteOutput(t: seq<SessionEvent>): seq<SessionEvent> {
    if t == [] then []
    else if IsRemoteOutput(t[0]) then [t[0]] + RemoteOutput(t[1..])
    else RemoteOutput(t[1..])
  }

  lemma {:induction false} RemoteOutputConcat(a: seq<SessionEvent>, b: seq<SessionEvent>)
    ensures RemoteOutput(a + b) == RemoteOutput(a) + RemoteOutput(b)
  {
    if a == [] {
      assert a + b == b;
    } else {
      assert (a + b)[1..] == a[1..] + b && (a + b)[0] == a[0];
      RemoteOutputConcat(a[1..], b);
    }
  }

  lemma RemoteOutputSnoc(t: seq<SessionEvent>, e: SessionEvent)
    ensures RemoteOutput(t + [e]) == RemoteOutput(t) + (if IsRemoteOutput(e) then [e] else [])
  {
    RemoteOutputConcat(t, [e]);
    assert [e][1..] == [];
  }

  /** Is the driver in its I/O loop, still taking inputs and messages? */
  predicate InLoop(d: Driver) {
    d.Selecting? || d.Writing? || d.Resizing? || d.ReportResizeError? || d.Forwarding?
  }

  predicate BeforeLoop(d: Driver) {
    d.AnnounceConnecting? || d.ConnectingClient? || d.AnnounceAuthenticated? || d.OpeningShell? || d.AnnounceShellOpen?
    || d.ReportFailure? || d.AnnounceFailed? || d.DroppingClient?
  }

  /** Writes so far against inputs taken so far. */
  ghost predicate InputInvariant(s: System) {
    && (BeforeLoop(s.driver) ==> s.taken == [] && s.writes == [])
    && (InLoop(s.driver) ==> Disconnect !in s.taken)
    && (InLoop(s.driver) ==> Typed(s.taken) == s.writes + (if s.driver.Writing? then [s.driver.data] else []))
    && s.writes <= Typed(s.taken)
  }

  /** Output events so far against messages received so far. */
  ghost predicate OutputInvariant(s: System) {
    && (BeforeLoop(s.driver) ==> s.received == [])
    && (InLoop(s.driver) ==> Close !in s.received)
    && RemoteOutput(s.emitted) <= Told(s.received)
    && (!s.ui.Gone? ==>
          Told(s.received) == RemoteOutput(s.emitted) + (if s.driver.Forwarding? then [s.driver.event] else []))
    && (s.driver.Forwarding? ==> IsRemoteOutput(s.driver.event))
  }

  ghost predicate QueueInvariant(s: System) {
    && s.emitted == s.delivered + s.events
    && |s.inputs| <= INPUT_CAPACITY && |s.events| <= EVENT_CAPACITY
    && (!s.ui.Gone? ==> DriverClosed !in s.delivered)
  }

  ghost predicate TraceInvariant(s: System) {
    && IsLegal(s.emitted)
    && (!s.ui.Gone? ==> Phase(s.driver, s.emitted))
  }

  ghost predicate Invariant(s: System) {
    InputInvariant(s) && OutputInvariant(s) && QueueInvariant(s) && TraceInvariant(s)
  }

  lemma StepKeepsInputs(s: System, l: Label)
    requires InputInvariant(s) && Enabled(s, l)
    ensures InputInvariant(Do(s, l))
  {
    if l.TakeInput? && s.inputs != [] {
      TypedSnoc(s.taken, s.inputs[0]);
    }
  }

  lemma EmitKeepsOutputs(s: System)
    requires OutputInvariant(s) && Enabled(s, EmitEvent)
    ensures OutputInvariant(Do(s, EmitEvent))
  {
    RemoteOutputSnoc(s.emitted, Outgoing(s.driver).value);
  }

  /** What the messages used up by one event tell is what the driver forwards next. */
  lemma ForwardedIsTold(inbox: seq<ChannelMsg>)
    ensures var d := AfterMessage(FirstEvent(inbox));
            && Told(inbox[..Consumed(inbox)]) == (if d.Forwarding? then [d.event] else [])
            && (d.Forwarding? ==> IsRemoteOutput(d.event))
            && (InLoop(d) ==> Close !in inbox[..Consumed(inbox)])
  {
    ToldOfConsumed(inbox);
  }

  /** From `s` to `s'` the driver took messages that tell exactly the event it is now forwarding. */
  ghost predicate TookMessages(s: System, s': System) {
    && s.driver.Selecting? && !BeforeLoop(s'.driver)
    && s'.emitted == s.emitted && s'.ui == s.ui
    && Told(s'.received) == Told(s.received) + (if s'.driver.Forwarding? then [s'.driver.event] else [])
    && (s'.driver.Forwarding? ==> IsRemoteOutput(s'.driver.event))
    && (InLoop(s'.driver) ==> Close !in s'.received)
  }

  lemma TookMessagesKeepsOutputs(s: System, s': System)
    requires OutputInvariant(s) && TookMessages(s, s')
    ensures OutputInvariant(s')
  {
  }

  lemma TakeMessageTakes(s: System)
    requires s.driver.Selecting? && Close !in s.received
    ensures TookMessages(s, Do(s, TakeMessage))
  {
    ToldConcat(s.received, s.inbox[..Consumed(s.inbox)]);
    ForwardedIsTold(s.inbox);
  }

  lemma TakeMessageKeepsOutputs(s: System)
    requires OutputInvariant(s) && Enabled(s, TakeMessage)
    ensures OutputInvariant(Do(s, TakeMessage))
  {
    TakeMessageTakes(s);
    TookMessagesKeepsOutputs(s, Do(s, TakeMessage));
  }

  lemma StepKeepsOutputs(s: System, l: Label)
    requires OutputInvariant(s) && Enabled(s, l)
    ensures OutputInvariant(Do(s, l))
  {
    match l
    case EmitEvent =>
      EmitKeepsOutputs(s);
    case TakeMessage =>
      TakeMessageKeepsOutputs(s);
    case _ =>
  }

  lemma StepKeepsQueues(s: System, l: Label)
    requires QueueInvariant(s) && Enabled(s, l)
    ensures QueueInvariant(Do(s, l))
  {
    if l.ReceiveEvent? && s.events != [] {
      assert s.events == [s.events[0]] + s.events[1..];
    }
  }

  lemma StepKeepsTrace(s: System, l: Label)
    requires TraceInvariant(s) && Enabled(s, l)
    ensures TraceInvariant(Do(s, l))
  {
    if !s.ui.Gone? {
      if l.EmitEvent? {
        SendKeepsPhase(s.driver, s.emitted);
      }
      var s' := Do(s, l);
      if !s'.ui.Gone? {
        PhaseIsLegal(s'.driver, s'.emitted);
      }
    }
  }

  lemma StepKeepsInvariant(s: System, l: Label)
    requires Invariant(s) && Enabled(s, l)
    ensures Invariant(Do(s, l))
  {
    StepKeepsInputs(s, l);
    StepKeepsOutputs(s, l);
    StepKeepsQueues(s, l);
    StepKeepsTrace(s, l);
  }

  lemma {:induction false} RunsKeepInvariant(s: System, labels: seq<Label>, s': System)
    requires Invariant(s) && Reaches(s, labels, s')
    ensures Invariant(s')
    decreases labels
  {
    if labels != [] {
      StepKeepsInvariant(s, labels[0]);
      RunsKeepInvariant(Do(s, labels[0]), labels[1..], s');
    }
  }

  lemma InitialInvariant(inbox: seq<ChannelMsg>)
    ensures Invariant(Init(inbox))
  {
    PhaseIsLegal(AnnounceConnecting, []);
  }

  // ---- the results ------------------------------------------------------------------------------

  lemma ReachedInvariant(inbox: seq<ChannelMsg>, labels: seq<Label>, s: System)
    requires Reaches(Init(inbox), labels, s)
    ensures InputInvariant(s) && OutputInvariant(s) && QueueInvariant(s) && TraceInvariant(s)
  {
    InitialInvariant(inbox);
    RunsKeepInvariant(Init(inbox), labels, s);
  }

  lemma DeliveredIsLegal(s: System)
    requires QueueInvariant(s) && IsLegal(s.emitted)
    ensures IsLegal(s.delivered) && s.delivered <= s.emitted
  {
    var rest :| IsComplete(s.emitted + rest);
    assert s.delivered + (s.events + rest) == s.emitted + rest;
  }

  /** Every emitted trace begins a legal one; a driver that ran to its end emitted a whole one. */
  lemma EmittedIsLegal(inbox: seq<ChannelMsg>, labels: seq<Label>, s: System)
    requires Reaches(Init(inbox), labels, s)
    ensures IsLegal(s.emitted) && IsLegal(s.delivered)
    ensures s.delivered <= s.emitted
    ensures s.driver.Done? && !s.ui.Gone? ==> IsComplete(s.emitted)
  {
    ReachedInvariant(inbox, labels, s);
    DeliveredIsLegal(s);
  }

  predicate NoneCloses(t: seq<SessionEvent>) {
    forall i :: 0 <= i < |t| ==> !t[i].DriverClosed?
  }

  lemma OpenedEndsOnce(io: seq<SessionEvent>)
    requires AllIo(io)
    ensures exists head :: NoneCloses(head) && OpenedTrace(io) == head + [DriverClosed]
  {
    assert NoneCloses(GREETING + io);
    assert NoneCloses(GREETING + io + [StateChanged(Closed)]);
    assert OpenedTrace(io) == GREETING + io + [StateChanged(Closed)] + [DriverClosed];
  }

  lemma FailedEndsOnce(authenticated: bool, message: string)
    ensures exists head :: NoneCloses(head) && FailedTrace(authenticated, message) == head + [DriverClosed]
  {
    var greeting := if authenticated then GREETING[..2] else GREETING[..1];
    assert NoneCloses(greeting + [Error(message), StateChanged(Failed(message))]);
    assert FailedTrace(authenticated, message)
        == greeting + [Error(message), StateChanged(Failed(message))] + [DriverClosed];
  }

  lemma WholeEndsOnce(w: seq<SessionEvent>)
    requires IsComplete(w)
    ensures exists head :: NoneCloses(head) && w == head + [DriverClosed]
  {
    if authenticated, message :| w == FailedTrace(authenticated, message) {
      FailedEndsOnce(authenticated, message);
    } else {
      var io :| AllIo(io) && w == OpenedTrace(io);
      OpenedEndsOnce(io);
    }
  }

  /** `Closed` is the last event of a trace, and there is no other. */
  lemma ClosedIsLast(t: seq<SessionEvent>, i: nat)
    requires IsLegal(t) && i < |t| && t[i].DriverClosed?
    ensures i == |t| - 1 && IsComplete(t)
  {
    var rest :| IsComplete(t + rest);
    WholeEndsOnce(t + rest);
    var head :| NoneCloses(head) && t + rest == head + [DriverClosed];
    assert (t + rest)[i] == t[i];
    assert rest == [];
    assert t + rest == t;
  }

  /** The inputs that have been accepted from the user interface, in order. */
  function Accepted(s: System): seq<SessionInput> {
    s.taken + s.inputs
  }

  /** Successful writes are, in order, a beginning of what was typed before any request to disconnect. */
  lemma WritesAreTyped(inbox: seq<ChannelMsg>, labels: seq<Label>, s: System)
    requires Reaches(Init(inbox), labels, s)
    ensures s.writes <= Typed(Accepted(s))
    ensures s.driver.Selecting? ==> s.writes == Typed(s.taken)
  {
    ReachedInvariant(inbox, labels, s);
    TypedConcat(s.taken, s.inputs);
  }

  /** Once the driver has taken a request to disconnect, nothing is written any more. */
  lemma {:induction false} NothingAfterDisconnect(inbox: seq<ChannelMsg>, labels: seq<Label>, s: System,
                                                  more: seq<Label>, s': System)
    requires Reaches(Init(inbox), labels, s) && Disconnect in s.taken
    requires Reaches(s, more, s')
    ensures s'.writes == s.writes
    decreases more
  {
    ReachedInvariant(inbox, labels, s);
    if more != [] {
      var next := Do(s, more[0]);
      ReachesOne(s, more[0]);
      ReachesConcat(Init(inbox), labels, s, [more[0]], next);
      NothingAfterDisconnect(inbox, labels + [more[0]], next, more[1..], s');
    }
  }

  /** A step of the queue of inputs appends at most one, at its end. */
  lemma StepKeepsOrder(s: System, l: Label)
    requires Enabled(s, l)
    ensures Accepted(Do(s, l)) == Accepted(s) + (if l.PushInput? && !s.driver.Done? then [s.ui.input] else [])
  {
    if l.TakeInput? && s.inputs != [] {
      assert s.inputs == [s.inputs[0]] + s.inputs[1..];
    }
  }

  /** The inputs that the user interface hands over successfully during a run. */
  function Pushed(s: System, labels: seq<Label>): seq<SessionInput>
    decreases labels
  {
    if labels == [] || !Enabled(s, labels[0]) then []
    else
      (if labels[0].PushInput? && !s.driver.Done? then [s.ui.input] else []) + Pushed(Do(s, labels[0]), labels[1..])
  }

  /** Over any run, what the driver has taken and what still waits for it is what was handed over, in order. */
  lemma {:induction false} InputsStayInOrder(s: System, labels: seq<Label>, s': System)
    requires Reaches(s, labels, s')
    ensures Accepted(s') == Accepted(s) + Pushed(s, labels)
    decreases labels
  {
    if labels != [] {
      StepKeepsOrder(s, labels[0]);
      InputsStayInOrder(Do(s, labels[0]), labels[1..], s');
    }
  }

  // ---- errors -----------------------------------------------------------------------------------

  /** Is the driver on its way out of, or never to enter, its I/O loop? */
  predicate Ending(d: Driver) {
    d.ReportWriteError? || d.ClosingChannel? || Leaving(d)
    || d.ReportFailure? || d.AnnounceFailed? || d.DroppingClient?
  }

  predicate Leaving(d: Driver) {
    d.DisconnectingClient? || d.AnnounceClosed? || d.Finishing? || d.Done?
  }

  predicate NoIo(t: seq<SessionEvent>) {
    forall i :: 0 <= i < |t| ==> !IsIo(t[i])
  }

  lemma StepKeepsEnding(s: System, l: Label)
    requires Ending(s.driver) && Enabled(s, l)
    ensures var s' := Do(s, l);
            && Ending(s'.driver) && s'.taken == s.taken && s'.writes == s.writes && s'.received == s.received
            && RemoteOutput(s'.emitted) == RemoteOutput(s.emitted)
  {
    if l.EmitEvent? {
      RemoteOutputSnoc(s.emitted, Outgoing(s.driver).value);
    }
  }

  /** A driver on its way out takes, writes, receives and forwards nothing more. */
  lemma {:induction false} EndingStays(s: System, labels: seq<Label>, s': System)
    requires Ending(s.driver) && Reaches(s, labels, s')
    ensures Ending(s'.driver) && s'.taken == s.taken && s'.writes == s.writes && s'.received == s.received
    ensures RemoteOutput(s'.emitted) == RemoteOutput(s.emitted)
    decreases labels
  {
    if labels != [] {
      StepKeepsEnding(s, labels[0]);
      EndingStays(Do(s, labels[0]), labels[1..], s');
    }
  }

  ghost predicate NeverSelects(s: System) {
    forall labels, s' :: Reaches(s, labels, s') ==> !s'.driver.Selecting?
  }

  /** The driver is about to report an error to somebody. */
  predicate ReportsError(s: System) {
    Outgoing(s.driver).Some? && Outgoing(s.driver).value.Error? && Enabled(s, EmitEvent)
  }

  /** A failed resize: once it is reported the driver is back in its select!, with nothing lost. */
  lemma ResizeErrorIsNotFatal(s: System)
    requires s.driver.ReportResizeError? && Enabled(s, EmitEvent)
    ensures var s' := Do(s, EmitEvent);
            && s'.driver.Selecting? && s'.inputs == s.inputs && s'.inbox == s.inbox && s'.writes == s.writes
            && (!s.ui.Gone? ==> s'.emitted == s.emitted + [Error(s.driver.message)])
  {
  }

  /** An error ends the session exactly if it reports anything but a failed resize. */
  lemma ErrorIsFatalIff(inbox: seq<ChannelMsg>, before: seq<Label>, s: System)
    requires Reaches(Init(inbox), before, s) && ReportsError(s)
    ensures NeverSelects(s) <==> !s.driver.ReportResizeError?
  {
    ReachedInvariant(inbox, before, s);
    if s.driver.ReportResizeError? {
      ReachesOne(s, EmitEvent);
      ResizeErrorIsNotFatal(s);
    } else {
      assert Ending(s.driver);
      forall labels, s' | Reaches(s, labels, s')
        ensures !s'.driver.Selecting?
      {
        EndingStays(s, labels, s');
      }
    }
  }

  lemma {:induction false} LeavingEmitsNoIo(s: System, labels: seq<Label>, s': System)
    requires Leaving(s.driver) && Reaches(s, labels, s')
    ensures s.emitted <= s'.emitted && NoIo(s'.emitted[|s.emitted|..])
    decreases labels
  {
    if labels != [] {
      var next := Do(s, labels[0]);
      LeavingEmitsNoIo(next, labels[1..], s');
      if labels[0].EmitEvent? && !s.ui.Gone? {
        assert s'.emitted[|s.emitted|..] == [s'.emitted[|s.emitted|]] + s'.emitted[|next.emitted|..];
      }
    }
  }

  /** A failed write: its error is the last I/O event that is emitted, and nothing more is taken or written. */
  lemma {:induction false} WriteErrorIsLast(s: System, labels: seq<Label>, s': System)
    requires s.driver.ReportWriteError? && Reaches(s, labels, s')
    ensures s'.taken == s.taken && s'.writes == s.writes && s'.received == s.received
    ensures s.emitted <= s'.emitted
    ensures var more := s'.emitted[|s.emitted|..];
            NoIo(more) || (more[0] == Error(s.driver.message) && NoIo(more[1..]))
    decreases labels
  {
    EndingStays(s, labels, s');
    if labels != [] {
      var next := Do(s, labels[0]);
      if next.driver.ReportWriteError? {
        WriteErrorIsLast(next, labels[1..], s');
      } else {
        LeavingEmitsNoIo(next, labels[1..], s');
        if labels[0].EmitEvent? && !s.ui.Gone? {
          assert s'.emitted[|s.emitted|..][1..] == s'.emitted[|next.emitted|..];
        }
      }
    }
  }

  lemma {:induction false} InboxIsSplit(inbox: seq<ChannelMsg>, s: System, labels: seq<Label>, s': System)
    requires s.received + s.inbox == inbox && Reaches(s, labels, s')
    ensures s'.received + s'.inbox == inbox
    decreases labels
  {
    if labels != [] {
      var next := Do(s, labels[0]);
      if labels[0].TakeMessage? {
        var n := Consumed(s.inbox);
        assert s.inbox == s.inbox[..n] + s.inbox[n..];
      }
      InboxIsSplit(inbox, next, labels[1..], s');
    }
  }

  /**
   Output events are, in order, a beginning of what the channel's messages up to its close tell; while
   somebody listens, nothing received is missing but the event being forwarded.
   */
  lemma OutputIsConserved(inbox: seq<ChannelMsg>, labels: seq<Label>, s: System)
    requires Reaches(Init(inbox), labels, s)
    ensures RemoteOutput(s.delivered) <= RemoteOutput(s.emitted) <= Told(inbox)
    ensures !s.ui.Gone? ==>
      Told(s.received) == RemoteOutput(s.emitted) + (if s.driver.Forwarding? then [s.driver.event] else [])
  {
    ReachedInvariant(inbox, labels, s);
    InboxIsSplit(inbox, Init(inbox), labels, s);
    ToldConcat(s.received, s.inbox);
    RemoteOutputConcat(s.delivered, s.events);
  }

  // ---- the application's view -------------------------------------------------------------------

  lemma {:induction false} OscsKeepState(a: AppSpec.AppState, events: seq<AppSpec.Osc.OscEvent>)
    ensures AppSpec.OnOscs(a, events).state == a.state && AppSpec.OnOscs(a, events).closed == a.closed
    decreases events
  {
    if events != [] {
      OscsKeepState(AppSpec.OnOsc(a, events[0]), events[1..]);
    }
  }

  lemma EventOnState(a: AppSpec.AppState, e: SessionEvent, vt: AppSpec.Vt)
    ensures AppSpec.OnSessionEvent(a, e, vt).state == if e.StateChanged? then e.state else a.state
    ensures AppSpec.OnSessionEvent(a, e, vt).closed == (a.closed || e.DriverClosed?)
  {
    if e.Output? || e.Stderr? {
      var (scan, events) := AppSpec.Osc.Run(AppSpec.Osc.PAYLOAD_CAP, a.scan, e.bytes);
      OscsKeepState(a.(vt := vt, scan := scan, pendingOsc := []), a.pendingOsc + events);
    }
  }

  /** The state last announced, starting from `state`. */
  function LastState(state: SessionState, events: seq<SessionEvent>): SessionState
    decreases events
  {
    if events == [] then state
    else LastState(if events[0].StateChanged? then events[0].state else state, events[1..])
  }

  lemma {:induction false} LastStateSnoc(state: SessionState, events: seq<SessionEvent>, e: SessionEvent)
    ensures LastState(state, events + [e]) == if e.StateChanged? then e.state else LastState(state, events)
    decreases events
  {
    if events == [] {
      assert events + [e] == [e] && [e][1..] == [];
      assert LastState(state, [e]) == LastState(if e.StateChanged? then e.state else state, []);
    } else {
      assert (events + [e])[1..] == events[1..] + [e];
      LastStateSnoc(if events[0].StateChanged? then events[0].state else state, events[1..], e);
    }
  }

  lemma {:induction false} LastStateOfSuffix(state: SessionState, prefix: seq<SessionEvent>, final: SessionState)
    ensures LastState(state, prefix + [StateChanged(final), DriverClosed]) == final
    decreases prefix
  {
    if prefix == [] {
      var tail := [StateChanged(final), DriverClosed];
      assert prefix + tail == tail;
      assert tail[1..] == [DriverClosed] && [DriverClosed][1..] == [];
      assert LastState(final, [DriverClosed]) == LastState(final, []);
    } else {
      assert (prefix + [StateChanged(final), DriverClosed])[1..] == prefix[1..] + [StateChanged(final), DriverClosed];
      LastStateOfSuffix(if prefix[0].StateChanged? then prefix[0].state else state, prefix[1..], final);
    }
  }

  lemma CompleteEndsClosedOrFailed(state: SessionState, t: seq<SessionEvent>)
    requires IsComplete(t)
    ensures LastState(state, t).Closed? || LastState(state, t).Failed?
  {
    if authenticated, message :| t == FailedTrace(authenticated, message) {
      var prefix := (if authenticated then GREETING[..2] else GREETING[..1]) + [Error(message)];
      assert t == prefix + [StateChanged(Failed(message)), DriverClosed];
      LastStateOfSuffix(state, prefix, Failed(message));
    } else {
      var io :| AllIo(io) && t == OpenedTrace(io);
      LastStateOfSuffix(state, GREETING + io, Closed);
    }
  }
}
