/** Which calls of the SSH library a session makes: what the user asked for, once each and in order. */
module RemoteCalls {
  import opened Prelude
  import opened SessionEvents
  import opened Session
  import Transport
  import Safety = SessionSafety

  /** The calls that the inputs ask for. */
  function Asked(inputs: seq<SessionInput>): seq<Call> {
    if inputs == [] then []
    else
      (match inputs[0]
       case Bytes(data) => [Write(data)]
       case Resize(cols, rows) => [ChangeSize(cols, rows)]
       case Disconnect => [CloseChannel])
      + Asked(inputs[1..])
  }

  lemma {:induction false} AskedSnoc(inputs: seq<SessionInput>, x: SessionInput)
    ensures Asked(inputs + [x]) == Asked(inputs) + Asked([x])
  {
    if inputs == [] {
      assert inputs + [x] == [x];
    } else {
      assert (inputs + [x])[1..] == inputs[1..] + [x];
      AskedSnoc(inputs[1..], x);
    }
  }

  const OPENED := [Connect, OpenChannel]

  /** The calls of a whole session that took these inputs. */
  predicate IsWhole(calls: seq<Call>, taken: seq<SessionInput>) {
    || calls == [Connect]
    || calls == OPENED + [DisconnectClient]
    || calls == OPENED + Asked(taken) + [DisconnectClient]
  }

  /** The calls made while the driver stands at `d`. */
  predicate Phase(d: Driver, taken: seq<SessionInput>, calls: seq<Call>) {
    match d
    case AnnounceConnecting | ConnectingClient => calls == []
    case AnnounceAuthenticated | OpeningShell => calls == [Connect]
    case ReportFailure(_, a) => calls == if a then OPENED else [Connect]
    case AnnounceFailed(_, a) => calls == if a then OPENED else [Connect]
    case DroppingClient => calls == OPENED
    case AnnounceShellOpen => calls == OPENED && taken == []
    case Writing(data) => calls + [Write(data)] == OPENED + Asked(taken)
    case Resizing(cols, rows) => calls + [ChangeSize(cols, rows)] == OPENED + Asked(taken)
    case ClosingChannel => calls + [CloseChannel] == OPENED + Asked(taken)
    case Selecting | ReportWriteError(_) | ReportResizeError(_) | Forwarding(_) | DisconnectingClient =>
      calls == OPENED + Asked(taken)
    case AnnounceClosed => calls == OPENED + Asked(taken) + [DisconnectClient]
    case Finishing | Done => IsWhole(calls, taken)
  }

  ghost predicate CallInvariant(s: System) {
    && (Safety.BeforeLoop(s.driver) ==> s.taken == [])
    && (!(s.driver.Done? && s.ui.Gone?) ==> Phase(s.driver, s.taken, s.calls))
  }

  lemma TakenAsks(d: Driver, taken: seq<SessionInput>, calls: seq<Call>, x: SessionInput)
    requires d.Selecting? && Phase(d, taken, calls)
    ensures Phase(AfterInput(x), taken + [x], calls)
  {
    AskedSnoc(taken, x);
    assert [x][1..] == [] && Asked([]) == [];
    match x
    case Bytes(data) => assert Asked([x]) == [Write(data)];
    case Resize(cols, rows) => assert Asked([x]) == [ChangeSize(cols, rows)];
    case Disconnect => assert Asked([x]) == [CloseChannel];
  }

  lemma CallKeepsPhase(d: Driver, taken: seq<SessionInput>, calls: seq<Call>, outcome: Outcome)
    requires Calling(d) && Phase(d, taken, calls)
    requires Safety.BeforeLoop(d) ==> taken == []
    ensures Phase(AfterCall(d, outcome), taken, calls + [CallOf(d)])
  {
  }

  lemma SendKeepsPhase(d: Driver, taken: seq<SessionInput>, calls: seq<Call>, sent: bool)
    requires Outgoing(d).Some? && Phase(d, taken, calls)
    ensures Phase(AfterSend(d, sent), taken, calls)
  {
  }

  lemma StepKeepsCalls(s: System, l: Label)
    requires CallInvariant(s) && Enabled(s, l)
    ensures CallInvariant(Do(s, l))
  {
    match l
    case EmitEvent => SendKeepsPhase(s.driver, s.taken, s.calls, !s.ui.Gone?);
    case CallReturns(outcome) => CallKeepsPhase(s.driver, s.taken, s.calls, outcome);
    case TakeInput =>
      if s.inputs != [] {
        TakenAsks(s.driver, s.taken, s.calls, s.inputs[0]);
      }
    case _ =>
  }

  lemma {:induction false} RunsKeepCalls(s: System, labels: seq<Label>, s': System)
    requires CallInvariant(s) && Reaches(s, labels, s')
    ensures CallInvariant(s')
    decreases labels
  {
    if labels != [] {
      StepKeepsCalls(s, labels[0]);
      RunsKeepCalls(Do(s, labels[0]), labels[1..], s');
    }
  }

  /**
   Over every run: back in its loop the driver has connected, opened the shell, and made exactly the calls that
   the inputs taken so far asked for, in their order. A driver that ended on its own has closed the channel
   exactly if it was asked to, and has disconnected last if it ever was authenticated.
   */
  lemma CallsAreAskedFor(inbox: seq<Transport.ChannelMsg>, labels: seq<Label>, s: System)
    requires Reaches(Init(inbox), labels, s)
    ensures s.driver.Selecting? ==> s.calls == [Connect, OpenChannel] + Asked(s.taken)
    ensures s.driver.AnnounceClosed? ==> s.calls == [Connect, OpenChannel] + Asked(s.taken) + [DisconnectClient]
    ensures s.driver.Done? && !s.ui.Gone? ==>
      || s.calls == [Connect]
      || s.calls == [Connect, OpenChannel, DisconnectClient]
      || s.calls == [Connect, OpenChannel] + Asked(s.taken) + [DisconnectClient]
  {
    RunsKeepCalls(Init(inbox), labels, s);
    assert OPENED + [DisconnectClient] == [Connect, OpenChannel, DisconnectClient];
  }
}
