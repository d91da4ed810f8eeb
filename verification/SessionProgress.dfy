/** When a session can make progress: the one deadlock of its two queues, and termination otherwise. */
module SessionProgress {
  import opened Prelude
  import opened SessionEvents
  import opened Transport
  import opened Session
  import Safety = SessionSafety

  /** The steps that only the user can cause. */
  predicate IsUserStep(l: Label) {
    l.UserAsks? || l.UserLeaves?
  }

  /** Nothing happens any more unless the user acts. */
  ghost predicate IsStuck(s: System) {
    forall l: Label :: !IsUserStep(l) ==> !Enabled(s, l)
  }

  predicate IsFinished(s: System) {
    s.ui.Gone? && s.driver.Done?
  }

  /** Each process waits for the other to make room: both queues are full. */
  predicate IsDeadlocked(s: System) {
    && s.ui.Sending? && |s.inputs| == INPUT_CAPACITY
    && Outgoing(s.driver).Some? && |s.events| == EVENT_CAPACITY
  }

  /** A step that some process can take. */
  lemma NextStep(s: System) returns (l: Label)
    requires |s.inputs| <= INPUT_CAPACITY && |s.events| <= EVENT_CAPACITY
    requires !IsFinished(s) && !IsDeadlocked(s)
    ensures Enabled(s, l) && !IsUserStep(l)
  {
    if s.ui.Gone? {
      return AbortDriver;
    }
    if s.driver.Selecting? {
      return TakeMessage;
    }
    if Calling(s.driver) {
      return CallReturns(Success);
    }
    if s.ui.Sending? && (s.driver.Done? || |s.inputs| < INPUT_CAPACITY) {
      return PushInput;
    }
    if s.driver.Done? || |s.events| == EVENT_CAPACITY {
      return ReceiveEvent;
    }
    return EmitEvent;
  }

  /** A driver in its select! whose queue of inputs is empty leaves its loop exactly if nobody can send any more. */
  lemma EmptyQueueEndsLoopIff(s: System)
    requires s.driver.Selecting? && s.inputs == []
    ensures Enabled(s, TakeInput) <==> s.ui.Gone?
    ensures Enabled(s, TakeInput) ==> Do(s, TakeInput).driver.DisconnectingClient?
  {
  }

  /** A driver that nobody listens to any more goes on to its end by itself, without the remote and unaborted. */
  lemma AbandonedDriverGoesOn(s: System) returns (l: Label)
    requires s.ui.Gone? && !s.driver.Done?
    ensures Enabled(s, l) && (l.EmitEvent? || l.CallReturns? || l.TakeInput?)
  {
    if s.driver.Selecting? {
      return TakeInput;
    }
    return if Calling(s.driver) then CallReturns(Success) else EmitEvent;
  }

  lemma DeadlockIsStuck(s: System)
    requires IsDeadlocked(s)
    ensures IsStuck(s)
  {
  }

  lemma FinishedIsStuck(s: System)
    requires IsFinished(s)
    ensures IsStuck(s)
  {
  }

  /** The only unfinished states without a next step are those with both processes blocked on full queues. */
  lemma StuckIffDeadlocked(inbox: seq<ChannelMsg>, labels: seq<Label>, s: System)
    requires Reaches(Init(inbox), labels, s)
    ensures IsStuck(s) <==> IsDeadlocked(s) || IsFinished(s)
  {
    Safety.InitialInvariant(inbox);
    Safety.RunsKeepInvariant(Init(inbox), labels, s);
    if IsDeadlocked(s) {
      DeadlockIsStuck(s);
    } else if IsFinished(s) {
      FinishedIsStuck(s);
    } else {
      var l := NextStep(s);
    }
  }

  // ---- what a deadlock takes --------------------------------------------------------------------

  /** The requests that the user made during a schedule. */
  function Requests(labels: seq<Label>): nat {
    if labels == [] then 0 else (if labels[0].UserAsks? then 1 else 0) + Requests(labels[1..])
  }

  /** The events that the driver sent. */
  function Sendings(labels: seq<Label>): nat {
    if labels == [] then 0 else (if labels[0].EmitEvent? then 1 else 0) + Sendings(labels[1..])
  }

  lemma {:induction false} CountsConcat(a: seq<Label>, b: seq<Label>)
    ensures Requests(a + b) == Requests(a) + Requests(b)
    ensures Sendings(a + b) == Sendings(a) + Sendings(b)
  {
    if a == [] {
      assert a + b == b;
    } else {
      assert (a + b)[1..] == a[1..] + b;
      CountsConcat(a[1..], b);
    }
  }

  lemma CountsOne(l: Label)
    ensures Requests([l]) == if l.UserAsks? then 1 else 0
    ensures Sendings([l]) == if l.EmitEvent? then 1 else 0
  {
    assert [l][1..] == [];
  }

  function Handed(s: System): nat {
    |s.inputs| + if s.ui.Sending? then 1 else 0
  }

  lemma {:induction false} QueuesAreCounted(s: System, labels: seq<Label>, s': System)
    requires Reaches(s, labels, s')
    ensures Handed(s') <= Handed(s) + Requests(labels)
    ensures |s'.emitted| <= |s.emitted| + Sendings(labels)
    decreases labels
  {
    if labels != [] {
      QueuesAreCounted(Do(s, labels[0]), labels[1..], s');
    }
  }

  /** No deadlock with fewer than 65 requests of the user, nor with fewer than 256 events of the driver. */
  lemma DeadlockTakes(inbox: seq<ChannelMsg>, labels: seq<Label>, s: System)
    requires Reaches(Init(inbox), labels, s) && IsDeadlocked(s)
    ensures Requests(labels) >= 65 && Sendings(labels) >= 256
  {
    QueuesAreCounted(Init(inbox), labels, s);
    Safety.ReachedInvariant(inbox, labels, s);
  }

  // ---- the deadlock can happen ------------------------------------------------------------------

  predicate AllData(inbox: seq<ChannelMsg>) {
    forall i :: 0 <= i < |inbox| ==> inbox[i].Data?
  }

  /** The driver forwards `n` messages that nobody reads. */
  lemma {:induction false} FillEvents(s: System, n: nat) returns (labels: seq<Label>, s': System)
    requires s.driver.Selecting? && !s.ui.Gone? && AllData(s.inbox)
    requires |s.events| + n <= EVENT_CAPACITY && n <= |s.inbox|
    ensures Reaches(s, labels, s') && Requests(labels) == 0 && Sendings(labels) == n
    ensures s'.driver.Selecting? && s'.ui == s.ui && s'.inputs == s.inputs && AllData(s'.inbox)
    ensures |s'.events| == |s.events| + n && |s'.inbox| == |s.inbox| - n
    decreases n
  {
    if n == 0 {
      return [], s;
    }
    assert s.inbox[0].Data?;
    var taken := Do(s, TakeMessage);
    var forwarded := Do(taken, EmitEvent);
    var rest, end := FillEvents(forwarded, n - 1);
    labels := [TakeMessage, EmitEvent] + rest;
    s' := end;
    assert labels[1..] == [EmitEvent] + rest && labels[1..][1..] == rest;
    assert Reaches(taken, labels[1..], end);
  }

  /** The user types `n` times while the driver is busy. */
  lemma {:induction false} FillInputs(s: System, request: SessionInput, n: nat) returns (labels: seq<Label>, s': System)
    requires s.ui.Polling? && !s.driver.Done? && |s.inputs| + n <= INPUT_CAPACITY
    ensures Reaches(s, labels, s') && Requests(labels) == n && Sendings(labels) == 0
    ensures s'.ui.Polling? && s'.driver == s.driver && s'.events == s.events && |s'.inputs| == |s.inputs| + n
    decreases n
  {
    if n == 0 {
      return [], s;
    }
    var asked := Do(s, UserAsks(request, false));
    var pushed := Do(asked, PushInput);
    var rest, end := FillInputs(pushed, request, n - 1);
    labels := [UserAsks(request, false), PushInput] + rest;
    s' := end;
    assert labels[1..] == [PushInput] + rest && labels[1..][1..] == rest;
    assert Reaches(asked, labels[1..], end);
  }

  /** The driver connects and opens its shell before anything else happens. */
  lemma OpenShell(inbox: seq<ChannelMsg>) returns (labels: seq<Label>, s: System)
    ensures Reaches(Init(inbox), labels, s) && Requests(labels) == 0 && Sendings(labels) == 3
    ensures s.driver.Selecting? && s.ui.Polling? && s.inputs == [] && |s.events| == 3 && s.inbox == inbox
  {
    var connecting := [EmitEvent, CallReturns(Success)];
    var s0 := Init(inbox);
    var s1 := Do(s0, EmitEvent);
    var s2 := Do(s1, CallReturns(Success));
    var s3 := Do(s2, EmitEvent);
    var s4 := Do(s3, CallReturns(Success));
    s := Do(s4, EmitEvent);
    TwoSteps(s0, EmitEvent, CallReturns(Success));
    TwoSteps(s2, EmitEvent, CallReturns(Success));
    ReachesOne(s4, EmitEvent);
    CountsOne(EmitEvent);
    ReachesConcat(s0, connecting, s2, connecting, s4);
    CountsConcat(connecting, connecting);
    ReachesConcat(s0, connecting + connecting, s4, [EmitEvent], s);
    CountsConcat(connecting + connecting, [EmitEvent]);
    labels := connecting + connecting + [EmitEvent];
  }

  lemma TwoSteps(s: System, a: Label, b: Label)
    requires Enabled(s, a) && Enabled(Do(s, a), b)
    ensures Reaches(s, [a, b], Do(Do(s, a), b))
    ensures Requests([a, b]) == Requests([a]) + Requests([b]) && Sendings([a, b]) == Sendings([a]) + Sendings([b])
    ensures Requests([a]) == (if a.UserAsks? then 1 else 0) && Sendings([a]) == (if a.EmitEvent? then 1 else 0)
    ensures Requests([b]) == (if b.UserAsks? then 1 else 0) && Sendings([b]) == (if b.EmitEvent? then 1 else 0)
  {
    ReachesOne(s, a);
    ReachesOne(Do(s, a), b);
    ReachesConcat(s, [a], Do(s, a), [b], Do(Do(s, a), b));
    CountsConcat([a], [b]);
    CountsOne(a);
    CountsOne(b);
    assert [a] + [b] == [a, b];
  }

  /** The driver ends up with a message that it cannot forward, the queue of events being full. */
  lemma BlockDriver(inbox: seq<ChannelMsg>) returns (labels: seq<Label>, s: System)
    requires |inbox| >= 254 && AllData(inbox)
    ensures Reaches(Init(inbox), labels, s) && Requests(labels) == 0 && Sendings(labels) == 256
    ensures s.ui.Polling? && s.inputs == [] && s.driver.Forwarding? && |s.events| == EVENT_CAPACITY
  {
    var opening, shell := OpenShell(inbox);
    var filling, full := FillEvents(shell, 253);
    ReachesConcat(Init(inbox), opening, shell, filling, full);
    CountsConcat(opening, filling);
    assert full.inbox[0].Data?;
    s := Do(full, TakeMessage);
    ReachesOne(full, TakeMessage);
    labels := opening + filling + [TakeMessage];
    ReachesConcat(Init(inbox), opening + filling, full, [TakeMessage], s);
    CountsConcat(opening + filling, [TakeMessage]);
    CountsOne(TakeMessage);
  }

  /**
   A burst of 254 output messages and 65 key presses that the interface handles first (its select! is
   biased towards them) can lock the session up; no fewer requests or events could.
   */
  lemma DeadlockIsReachable(inbox: seq<ChannelMsg>, request: SessionInput)
    requires |inbox| >= 254 && AllData(inbox)
    ensures exists labels, s ::
      Reaches(Init(inbox), labels, s) && IsDeadlocked(s) && Requests(labels) == 65 && Sendings(labels) == 256
  {
    var blocking, blocked := BlockDriver(inbox);
    var typing, typed := FillInputs(blocked, request, 64);
    ReachesConcat(Init(inbox), blocking, blocked, typing, typed);
    CountsConcat(blocking, typing);
    var last := UserAsks(request, false);
    var locked := Do(typed, last);
    ReachesOne(typed, last);
    CountsOne(last);
    ReachesConcat(Init(inbox), blocking + typing, typed, [last], locked);
    CountsConcat(blocking + typing, [last]);
    assert IsDeadlocked(locked);
  }

  // ---- termination ------------------------------------------------------------------------------

  /** How much the driver can still do before it needs an input or a message. */
  function DriverWork(d: Driver): nat {
    match d
    case AnnounceConnecting => 16
    case ConnectingClient => 14
    case AnnounceAuthenticated => 13
    case OpeningShell => 11
    case AnnounceShellOpen => 10
    case Selecting => 8
    case Writing(_) => 11
    case ReportWriteError(_) => 7
    case Resizing(_, _) => 11
    case ReportResizeError(_) => 10
    case ClosingChannel => 6
    case Forwarding(_) => 10
    case DisconnectingClient => 5
    case AnnounceClosed => 4
    case ReportFailure(_, _) => 7
    case AnnounceFailed(_, _) => 5
    case DroppingClient => 3
    case Finishing => 2
    case Done => 0
  }

  function UiWork(ui: Ui): nat {
    match ui
    case Sending(_, _) => 6
    case Polling => 1
    case Gone => 0
  }

  function Work(s: System): nat {
    DriverWork(s.driver) + UiWork(s.ui) + 4 * |s.inputs| + |s.events| + 3 * |s.inbox|
  }

  lemma StepDecreasesWork(s: System, l: Label)
    requires Enabled(s, l) && !IsUserStep(l)
    ensures Work(Do(s, l)) < Work(s)
  {
    if l.TakeMessage? {
      ToldOfConsumed(s.inbox);
    }
  }

  predicate NoUserSteps(labels: seq<Label>) {
    forall i :: 0 <= i < |labels| ==> !IsUserStep(labels[i])
  }

  /** Without the user, every schedule is short: each step uses up some of the remaining work. */
  lemma {:induction false} SchedulesAreBounded(s: System, labels: seq<Label>, s': System)
    requires Reaches(s, labels, s') && NoUserSteps(labels)
    ensures |labels| + Work(s') <= Work(s)
    decreases labels
  {
    if labels != [] {
      assert !IsUserStep(labels[0]);
      StepDecreasesWork(s, labels[0]);
      assert forall i :: 0 <= i < |labels[1..]| ==> labels[1..][i] == labels[i + 1];
      SchedulesAreBounded(Do(s, labels[0]), labels[1..], s');
    }
  }

  /** The interface is listening, or has left because it was told that the driver is done. */
  ghost predicate Listening(s: System) {
    && Safety.Invariant(s)
    && (s.ui.Polling? || (s.ui.Gone? && s.delivered != [] && s.delivered[|s.delivered| - 1].DriverClosed?))
  }

  lemma CompleteHasClosed(t: seq<SessionEvent>)
    requires Safety.IsComplete(t)
    ensures DriverClosed in t
  {
    Safety.WholeEndsOnce(t);
  }

  /** While somebody listens, an event queue is not left empty by a driver that is done. */
  lemma DoneLeavesClosed(s: System)
    requires Safety.QueueInvariant(s) && Safety.TraceInvariant(s) && s.ui.Polling? && s.driver.Done?
    ensures s.events != []
  {
    CompleteHasClosed(s.emitted);
    assert s.events == [] ==> s.emitted == s.delivered;
  }

  lemma StepKeepsListening(s: System, l: Label)
    requires Listening(s) && Enabled(s, l) && !IsUserStep(l)
    ensures Listening(Do(s, l))
  {
    Safety.StepKeepsInvariant(s, l);
    if l.ReceiveEvent? && s.driver.Done? {
      DoneLeavesClosed(s);
    }
  }

  lemma {:induction false} RunsKeepListening(s: System, labels: seq<Label>, s': System)
    requires Listening(s) && Reaches(s, labels, s') && NoUserSteps(labels)
    ensures Listening(s')
    decreases labels
  {
    if labels != [] {
      assert !IsUserStep(labels[0]);
      StepKeepsListening(s, labels[0]);
      assert forall i :: 0 <= i < |labels[1..]| ==> labels[1..][i] == labels[i + 1];
      RunsKeepListening(Do(s, labels[0]), labels[1..], s');
    }
  }

  /**
   From any reachable state with the interface in its select!, and with no further user action: every
   schedule takes at most `Work(s)` steps, and it can only end with both processes finished and `Closed`
   received as the last event.
   */
  lemma EveryScheduleReceivesClosed(inbox: seq<ChannelMsg>, before: seq<Label>, s: System,
                                    labels: seq<Label>, s': System)
    requires Reaches(Init(inbox), before, s) && s.ui.Polling?
    requires Reaches(s, labels, s') && NoUserSteps(labels)
    ensures |labels| <= Work(s)
    ensures IsStuck(s') <==> IsFinished(s')
    ensures IsFinished(s') ==> s'.delivered != [] && s'.delivered[|s'.delivered| - 1].DriverClosed?
  {
    Safety.InitialInvariant(inbox);
    Safety.RunsKeepInvariant(Init(inbox), before, s);
    SchedulesAreBounded(s, labels, s');
    RunsKeepListening(s, labels, s');
    ReachesConcat(Init(inbox), before, s, labels, s');
    StuckIffDeadlocked(inbox, before + labels, s');
  }
}
