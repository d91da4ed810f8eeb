/**
 The driver as the sequential task it is written as, proved to take only steps of the session's transition
 system. Between any two of its steps the user interface may act; at any await the task may be parked and
 never resumed, which is how an execution that is cut short, blocked or aborted appears here.
 */
module DriverTask {
  import opened Prelude
  import opened SessionEvents
  import opened Transport
  import opened Session
  import Safety = SessionSafety

  /** The driver waits at an `await`: for room in a full queue, or for a library call to return. */
  predicate Parked(s: System) {
    (Outgoing(s.driver).Some? && !Enabled(s, EmitEvent)) || Calling(s.driver)
  }

  /** The state that both tasks share, with the steps taken so far. */
  class Shared {
    var s: System
    ghost var trace: seq<Label>
    const inbox: seq<ChannelMsg>

    ghost predicate Valid()
      reads this
    {
      Reaches(Init(inbox), trace, s)
    }

    constructor (inbox: seq<ChannelMsg>)
      ensures Valid() && this.inbox == inbox && s == Init(inbox)
    {
      this.inbox := inbox;
      s := Init(inbox);
      trace := [];
    }

    method Step(l: Label)
      requires Valid() && Enabled(s, l)
      modifies this
      ensures Valid() && s == Do(old(s), l) && trace == old(trace) + [l]
    {
      var next := Do(s, l);
      ReachesOne(s, l);
      ReachesConcat(Init(inbox), trace, s, [l], next);
      s := next;
      trace := trace + [l];
    }

    /** The user interface does whatever it likes for a while. */
    method UiActs()
      requires Valid()
      modifies this
      ensures Valid() && s.driver == old(s.driver)
      ensures s.emitted == old(s.emitted) && s.writes == old(s.writes) && s.taken == old(s.taken)
      ensures s.calls == old(s.calls)
      ensures old(s.ui.Gone?) ==> s.ui.Gone?
      ensures |trace| >= |old(trace)|
    {
      var steps: nat := *;
      while steps > 0
        invariant Valid() && s.driver == old(s.driver)
        invariant s.emitted == old(s.emitted) && s.writes == old(s.writes) && s.taken == old(s.taken)
        invariant s.calls == old(s.calls)
        invariant old(s.ui.Gone?) ==> s.ui.Gone?
        invariant |trace| >= |old(trace)|
      {
        var request: SessionInput := *;
        if {
          case s.ui.Polling? => Step(UserAsks(request, request.Disconnect?));
          case s.ui.Polling? => Step(UserAsks(request, false));
          case s.ui.Polling? => Step(UserLeaves);
          case Enabled(s, PushInput) => Step(PushInput);
          case Enabled(s, ReceiveEvent) => Step(ReceiveEvent);
          case true =>
        }
        steps := steps - 1;
      }
    }

    /** `event_tx.send(e).await`: whether a receiver was there, or `None` if the task stays parked. */
    method SendEvent(e: SessionEvent) returns (sent: Option<bool>)
      requires Valid() && Outgoing(s.driver) == Some(e)
      modifies this
      ensures Valid()
      ensures sent.Some? ==> s.driver == AfterSend(old(s.driver), sent.value) && (sent.value <==> !s.ui.Gone?)
      ensures sent.None? ==> Parked(s)
      ensures sent == Some(true) ==> s.emitted == old(s.emitted) + [e]
      ensures sent != Some(true) ==> s.emitted == old(s.emitted)
      ensures s.taken == old(s.taken) && s.writes == old(s.writes) && |trace| >= |old(trace)|
      ensures s.calls == old(s.calls)
    {
      UiActs();
      if !Enabled(s, EmitEvent) {
        return None;
      }
      var listening := !s.ui.Gone?;
      Step(EmitEvent);
      return Some(listening);
    }

    /** A call of the SSH library; `None` if it never returns. */
    method CallLibrary() returns (outcome: Option<Outcome>)
      requires Valid() && Calling(s.driver)
      modifies this
      ensures Valid()
      ensures outcome.Some? ==> s.driver == AfterCall(old(s.driver), outcome.value)
      ensures outcome.None? ==> Parked(s)
      ensures s.calls == old(s.calls) + if outcome.Some? then [CallOf(old(s.driver))] else []
      ensures s.writes == old(s.writes)
              + (if old(s.driver).Writing? && outcome.Some? && outcome.value.Success? then [old(s.driver).data] else [])
      ensures s.emitted == old(s.emitted) && s.taken == old(s.taken) && |trace| >= |old(trace)|
    {
      UiActs();
      var result: Outcome := *;
      if * {
        return None;
      }
      Step(CallReturns(result));
      return Some(result);
    }

    /** One input that `recv` yielded; the result says whether the loop ends, and how. */
    method HandleInput(cmd: SessionInput) returns (goOn: Option<bool>, userDisconnected: bool)
      requires Valid() && s.driver == AfterInput(cmd)
      requires s.taken != [] && s.taken[|s.taken| - 1] == cmd
      modifies this
      ensures Valid()
      ensures goOn == Some(true) ==> s.driver.Selecting?
      ensures goOn == Some(false) ==> s.driver.DisconnectingClient?
      ensures userDisconnected ==> goOn == Some(false)
      ensures goOn.Some? ==> (userDisconnected <==> cmd.Disconnect?)
      ensures goOn.None? ==> Parked(s)
      ensures goOn.Some? && cmd.Bytes? ==> (goOn.value <==> s.writes == old(s.writes) + [cmd.data])
      ensures goOn.Some? && cmd.Resize? ==> goOn.value
      ensures !cmd.Bytes? ==> s.writes == old(s.writes)
      ensures goOn.Some? ==>
        s.calls == old(s.calls)
        + match cmd
          case Bytes(data) => [Write(data)]
          case Resize(cols, rows) => [ChangeSize(cols, rows)]
          case Disconnect => [CloseChannel]
      ensures s.taken == old(s.taken) && |trace| >= |old(trace)|
    {
      match cmd
      case Bytes(_) =>
        var written := CallLibrary();
        if written.None? {
          return None, false;
        }
        if written.value.Failure? {
          var reported := SendEvent(Error(written.value.message));
          return if reported.Some? then Some(false) else None, false;
        }
        return Some(true), false;
      case Resize(_, _) =>
        var resized := CallLibrary();
        if resized.None? {
          return None, false;
        }
        if resized.value.Failure? {
          var reported := SendEvent(Error(resized.value.message));
          return if reported.Some? then Some(true) else None, false;
        }
        return Some(true), false;
      case Disconnect =>
        var closed := CallLibrary();
        return if closed.Some? then Some(false) else None, closed.Some?;
    }

    /** One event of the remote shell; the result says whether the loop goes on. */
    method HandleRemote(ev: Option<SshEvent>) returns (goOn: Option<bool>)
      requires Valid() && s.driver == AfterMessage(ev)
      modifies this
      ensures Valid()
      ensures goOn == Some(true) ==> s.driver.Selecting?
      ensures goOn == Some(false) ==> s.driver.DisconnectingClient?
      ensures goOn.None? ==> Parked(s)
      ensures goOn.Some? ==>
        (goOn.value <==> ev.Some? && !ev.value.ShellClosed? && (ev.value.ShellEof? || !s.ui.Gone?))
      ensures s.taken == old(s.taken) && s.writes == old(s.writes) && |trace| >= |old(trace)|
      ensures s.calls == old(s.calls)
    {
      match ev
      case None | Some(ShellClosed) =>
        return Some(false);
      case Some(ShellEof) =>
        return Some(true);
      case Some(ShellData(d)) =>
        goOn := SendEvent(Output(d));
      case Some(ShellStderr(d)) =>
        goOn := SendEvent(Stderr(d));
      case Some(ShellExit(status)) =>
        goOn := SendEvent(ExitStatus(status));
    }

    /**
     The `select!` loop, followed for `rounds` rounds. If it ends, it tells whether the user asked to
     disconnect; if it does not, the driver is parked or still in its loop after that many rounds.
     */
    method IoLoop(rounds: nat) returns (userDisconnected: Option<bool>)
      requires Valid() && s.driver.Selecting? && Disconnect !in s.taken
      modifies this
      ensures Valid()
      ensures userDisconnected.Some? ==>
        s.driver.DisconnectingClient? && (userDisconnected.value <==> Disconnect in s.taken)
      ensures userDisconnected.None? ==>
        Parked(s) || (s.driver.Selecting? && |trace| >= |old(trace)| + rounds)
    {
      for round := 0 to rounds
        invariant Valid() && s.driver.Selecting? && Disconnect !in s.taken
        invariant |trace| >= |old(trace)| + round
      {
        UiActs();
        var goOn: Option<bool>;
        var inputFirst: bool := *;
        if inputFirst && Enabled(s, TakeInput) {
          if s.inputs == [] {
            Step(TakeInput);
            return Some(false);
          }
          var cmd := s.inputs[0];
          Step(TakeInput);
          var disconnected;
          goOn, disconnected := HandleInput(cmd);
          if disconnected {
            return Some(true);
          }
        } else {
          var ev := FirstEvent(s.inbox);
          Step(TakeMessage);
          goOn := HandleRemote(ev);
        }
        if goOn.None? {
          return None;
        }
        if !goOn.value {
          return Some(false);
        }
      }
      return None;
    }

    /** The three messages of a session that fails before its shell is open. */
    method ReportAndClose(message: string, authenticated: bool) returns (finished: bool)
      requires Valid() && s.driver == ReportFailure(message, authenticated)
      modifies this
      ensures Valid()
      ensures if finished then s.driver.Done? else Parked(s)
    {
      var reported := SendEvent(Error(message));
      if reported.None? {
        return false;
      }
      finished := AnnounceAndClose(message, authenticated);
    }

    method AnnounceAndClose(message: string, authenticated: bool) returns (finished: bool)
      requires Valid() && s.driver == AnnounceFailed(message, authenticated)
      modifies this
      ensures Valid()
      ensures if finished then s.driver.Done? else Parked(s)
    {
      var failed := SendEvent(StateChanged(Failed(message)));
      if failed.None? {
        return false;
      }
      if authenticated {
        var dropped := CallLibrary();
        if dropped.None? {
          return false;
        }
      }
      var closed := SendEvent(DriverClosed);
      return closed.Some?;
    }

    /** The whole task: connect, open the shell, run the loop, take leave. */
    method Run(rounds: nat) returns (finished: bool)
      requires Valid() && s.driver.AnnounceConnecting?
      modifies this
      ensures Valid()
      ensures if finished then s.driver.Done? else Parked(s) || (s.driver.Selecting? && |trace| >= rounds)
      ensures Safety.IsLegal(s.emitted)
      ensures finished && !s.ui.Gone? ==> Safety.IsComplete(s.emitted)
      ensures s.writes <= Safety.Typed(Safety.Accepted(s))
      ensures Safety.RemoteOutput(s.emitted) <= Told(inbox)
    {
      finished := RunToEnd(rounds);
      Safety.EmittedIsLegal(inbox, trace, s);
      Safety.WritesAreTyped(inbox, trace, s);
      Safety.OutputIsConserved(inbox, trace, s);
    }

    method RunToEnd(rounds: nat) returns (finished: bool)
      requires Valid() && s.driver.AnnounceConnecting?
      modifies this
      ensures Valid()
      ensures if finished then s.driver.Done? else Parked(s) || (s.driver.Selecting? && |trace| >= rounds)
    {
      Safety.ReachedInvariant(inbox, trace, s);
      var connecting := SendEvent(StateChanged(Connecting));
      if connecting.None? {
        return false;
      }
      var client := CallLibrary();
      if client.None? {
        return false;
      }
      if client.value.Failure? {
        finished := ReportAndClose(client.value.message, false);
        return;
      }
      finished := RunClient(rounds);
    }

    /** The task once it has a client. */
    method RunClient(rounds: nat) returns (finished: bool)
      requires Valid() && s.driver.AnnounceAuthenticated? && s.taken == []
      modifies this
      ensures Valid()
      ensures if finished then s.driver.Done? else Parked(s) || (s.driver.Selecting? && |trace| >= rounds)
    {
      var authenticated := SendEvent(StateChanged(Authenticated));
      if authenticated.None? {
        return false;
      }
      var session := CallLibrary();
      if session.None? {
        return false;
      }
      if session.value.Failure? {
        finished := ReportAndClose(session.value.message, true);
        return;
      }
      finished := RunShell(rounds);
    }

    /** The task once it has a shell. */
    method RunShell(rounds: nat) returns (finished: bool)
      requires Valid() && s.driver.AnnounceShellOpen? && s.taken == []
      modifies this
      ensures Valid()
      ensures if finished then s.driver.Done? else Parked(s) || (s.driver.Selecting? && |trace| >= rounds)
    {
      var shellOpen := SendEvent(StateChanged(ShellOpen));
      if shellOpen.None? {
        return false;
      }
      var userDisconnected := IoLoop(rounds);
      if userDisconnected.None? {
        return false;
      }
      finished := TakeLeave();
    }

    method TakeLeave() returns (finished: bool)
      requires Valid() && s.driver.DisconnectingClient?
      modifies this
      ensures Valid()
      ensures if finished then s.driver.Done? else Parked(s)
    {
      var disconnected := CallLibrary();
      if disconnected.None? {
        return false;
      }
      var announced := SendEvent(StateChanged(Closed));
      if announced.None? {
        return false;
      }
      var closed := SendEvent(DriverClosed);
      return closed.Some?;
    }
  }
}
