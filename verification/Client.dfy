/**
 The user interface task: its `select!` loop, with the application, the history and the session it drives.
 Whatever the driver does in between, the loop keeps the books of the two tasks together: what the
 application asked to send is what the session was given, and what the session delivered is what the
 application has seen.
 */
module Client {
  import opened Prelude
  import opened SessionEvents
  import opened AppEffects
  import opened AppRuns
  import opened LockstepRuns
  import opened EndToEnd
  import A = App
  import AppSpec
  import H = History
  import Keys
  import LineEditor
  import L = Lockstep
  import Mouse
  import Paste
  import S = Session
  import Safety = SessionSafety
  import D = DriverTask
  import Transport

  /** Events of the terminal in which the client runs; `moved` is what the emulator shows after a resize. */
  datatype TerminalEvent =
    | KeyEvent(key: Keys.Key, released: bool)
    | MouseEvent(mouse: Mouse.MouseEvent)
    | PasteEvent(text: string)
    | ResizeEvent(cols: nat, rows: nat, moved: AppSpec.Vt)
    | OtherEvent

  /** The remote's terminal modes that the handler of terminal events looks at. */
  datatype Modes = Modes(sgrMouse: bool, bracketedPaste: bool)

  /** The input that `input.send` is still waiting to hand over. */
  function InFlight(ui: S.Ui): seq<S.SessionInput> {
    match ui
    case Sending(input, _) => [input]
    case _ => []
  }

  /** What was accepted and is being handed over against what the application asked to send. */
  ghost predicate Balanced(s: S.System, submitted: seq<S.SessionInput>) {
    && Safety.Accepted(s) <= submitted
    && (!s.driver.Done? ==> Safety.Accepted(s) + InFlight(s.ui) == submitted)
  }

  /** What the application shows against what the session has delivered. */
  ghost predicate Informed(a: AppSpec.AppState, s: S.System) {
    && a.state == Safety.LastState(Connecting, s.delivered)
    && (a.closed <==> DriverClosed in s.delivered)
  }

  const DETACHED := "session driver has terminated"

  /** The interface waits in `input.send` for room in a full queue. */
  predicate Parked(s: S.System) {
    s.ui.Sending? && !S.Enabled(s, S.PushInput)
  }

  /** What the application goes through when bytes cannot be handed over. */
  function Undelivered(s: S.System): seq<Input> {
    if s.driver.Done? then [SendFailed(DETACHED)] else []
  }

  /** The bytes that a mouse event sends; the wheel scrolls locally unless the alternate screen is shown. */
  function MouseBytes(mouse: Mouse.MouseEvent, modes: Modes, altScreen: bool): seq<Byte> {
    if (mouse.kind.ScrollUp? || mouse.kind.ScrollDown?) && !altScreen then [] else Mouse.Report(mouse, modes.sgrMouse)
  }

  ghost predicate IsKeyResponse(key: Keys.Key, env: AppSpec.Env, s: S.System, response: seq<Input>) {
    && response != []
    && response[0].KeyPress? && response[0].key == key && response[0].stamp == AppSpec.InsertedAt(env)
    && (response[1..] == [] || response[1..] == Undelivered(s))
  }

  /** The wheel scrolls locally outside the alternate screen; every other report that there is goes to the remote. */
  lemma MouseBytesIff(mouse: Mouse.MouseEvent, modes: Modes, altScreen: bool)
    ensures MouseBytes(mouse, modes, altScreen) != []
       <==> && modes.sgrMouse && !mouse.kind.ScrollLeft? && !mouse.kind.ScrollRight? && !mouse.kind.Moved?
            && (mouse.kind.ScrollUp? || mouse.kind.ScrollDown? ==> altScreen)
    ensures MouseBytes(mouse, modes, altScreen) != [] ==>
      MouseBytes(mouse, modes, altScreen) == Mouse.Report(mouse, true)
  {
    Mouse.ReportedIff(mouse, modes.sgrMouse);
  }

  /** What the application goes through on an event of the terminal, after which the session is `s`. */
  ghost predicate IsResponse(ev: TerminalEvent, modes: Modes, altScreen: bool, env: AppSpec.Env, s: S.System,
                             response: seq<Input>)
  {
    match ev
    case KeyEvent(key, released) =>
      if released then response == [] else IsKeyResponse(key, env, s, response)
    case MouseEvent(mouse) =>
      var bytes := MouseBytes(mouse, modes, altScreen);
      response == if bytes == [] then [] else [Forwarded(bytes)] + Undelivered(s)
    case PasteEvent(text) => response == [Forwarded(Paste.Pasted(text, modes.bracketedPaste))] + Undelivered(s)
    case ResizeEvent(cols, rows, moved) =>
      response == [ResizeAsked(cols, rows)] + if Parked(s) then [] else [Resized(moved)]
    case OtherEvent => response == []
  }

  class Client {
    const app: A.App
    const history: H.History
    const link: D.Shared
    ghost const start: World
    ghost var inputs: seq<Input>

    ghost predicate Consistent()
      reads this, app, history, link
    {
      app.Valid() && history.Valid() && link.Valid()
    }

    ghost function Now(): World
      requires Consistent()
      reads this, app, app.terminal, app.terminal.scanner, history, link
    {
      World(app.View(), history.rows)
    }

    ghost predicate Valid()
      reads this, app, app.terminal, app.terminal.scanner, history, link
    {
      && Consistent()
      && AppRuns.Invariant(start) && AppRuns.Reaches(start, inputs, Now())
      && Balanced(link.s, SubmittedBy(start, inputs))
      && Informed(app.View(), link.s)
    }

    constructor (host: string, user: string, vt: AppSpec.Vt, history: H.History, inbox: seq<Transport.ChannelMsg>)
      requires history.Valid()
      ensures Valid() && fresh(app) && fresh(app.terminal) && fresh(app.terminal.scanner) && fresh(link)
      ensures this.history == history && link.inbox == inbox
      ensures start == World(AppSpec.NewApp(host, user, vt), history.rows) && inputs == []
      ensures link.s.ui.Polling?
    {
      app := new A.App(host, user, vt);
      this.history := history;
      link := new D.Shared(inbox);
      start := World(AppSpec.NewApp(host, user, vt), history.rows);
      inputs := [];
    }

    /** The driver does whatever it likes for a while. */
    method DriverActs()
      requires link.Valid()
      modifies link
      ensures link.Valid() && link.s.ui == old(link.s.ui) && link.s.delivered == old(link.s.delivered)
      ensures Safety.Accepted(link.s) == old(Safety.Accepted(link.s))
      ensures old(link.s.driver.Done?) ==> link.s.driver.Done?
    {
      var steps: nat := *;
      while steps > 0
        invariant link.Valid() && link.s.ui == old(link.s.ui) && link.s.delivered == old(link.s.delivered)
        invariant Safety.Accepted(link.s) == old(Safety.Accepted(link.s))
        invariant old(link.s.driver.Done?) ==> link.s.driver.Done?
      {
        var outcome: S.Outcome := *;
        var l: S.Label;
        if {
          case true => l := S.EmitEvent;
          case true => l := S.CallReturns(outcome);
          case true => l := S.TakeInput;
          case true => l := S.TakeMessage;
        }
        if S.Enabled(link.s, l) {
          Safety.StepKeepsOrder(link.s, l);
          link.Step(l);
        }
        steps := steps - 1;
      }
    }

    /** `input.send(request).await`: whether the driver was still there, or `None` if the task stays parked. */
    method SendInput(request: S.SessionInput, quit: bool) returns (accepted: Option<bool>)
      requires link.Valid() && link.s.ui.Polling? && (quit ==> request.Disconnect?)
      modifies link
      ensures link.Valid() && link.s.delivered == old(link.s.delivered)
      ensures accepted.Some? ==> link.s.ui == if quit then S.Gone else S.Polling
      ensures accepted == Some(true) ==> Safety.Accepted(link.s) == old(Safety.Accepted(link.s)) + [request]
      ensures accepted != Some(true) ==> Safety.Accepted(link.s) == old(Safety.Accepted(link.s))
      ensures accepted.Some? ==> (accepted.value <==> !link.s.driver.Done?)
      ensures accepted.None? ==> link.s.ui == S.Sending(request, quit) && Parked(link.s)
      ensures old(link.s.driver.Done?) ==> link.s.driver.Done?
    {
      link.Step(S.UserAsks(request, quit));
      DriverActs();
      if !S.Enabled(link.s, S.PushInput) {
        return None;
      }
      var attached := !link.s.driver.Done?;
      Safety.StepKeepsOrder(link.s, S.PushInput);
      link.Step(S.PushInput);
      return Some(attached);
    }

    /** Hands over a request that the books already list as submitted. */
    method Submit(request: S.SessionInput, quit: bool, ghost submitted: seq<S.SessionInput>)
      returns (accepted: Option<bool>)
      requires link.Valid() && link.s.ui.Polling? && (quit ==> request.Disconnect?)
      requires Balanced(link.s, submitted)
      modifies link
      ensures link.Valid() && link.s.delivered == old(link.s.delivered)
      ensures Balanced(link.s, submitted + [request])
      ensures accepted.Some? ==> link.s.ui == if quit then S.Gone else S.Polling
      ensures if accepted.Some? then accepted.value <==> !link.s.driver.Done? else Parked(link.s)
    {
      assert Safety.Accepted(link.s) + [] == Safety.Accepted(link.s);
      accepted := SendInput(request, quit);
      assert Safety.Accepted(link.s) + [] == Safety.Accepted(link.s);
    }

    /** `send_bytes`, and the error shown when the driver is gone. */
    method SendBytes(bytes: seq<Byte>, ghost submitted: seq<S.SessionInput>) returns (parked: bool)
      requires Consistent() && link.s.ui.Polling? && AppRuns.Invariant(start)
      requires AppRuns.Reaches(start, inputs, Now()) && Informed(app.View(), link.s)
      requires Balanced(link.s, submitted) && SubmittedBy(start, inputs) == submitted + [S.Bytes(bytes)]
      modifies this`inputs, app`lastError, link
      ensures Valid() && if parked then Parked(link.s) else link.s.ui.Polling?
      ensures inputs == old(inputs) + Undelivered(link.s)
      ensures app.lastError == if link.s.driver.Done? then Some("session driver has terminated") else old(app.lastError)
    {
      var accepted := Submit(S.Bytes(bytes), false, submitted);
      if accepted == Some(false) {
        ShowDetached();
      }
      parked := accepted.None?;
    }

    method ShowDetached()
      requires Valid()
      modifies this`inputs, app`lastError
      ensures Valid() && inputs == old(inputs) + [SendFailed(DETACHED)]
      ensures app.lastError == Some("session driver has terminated")
    {
      ghost var w := Now();
      ghost var failed := SendFailed(DETACHED);
      OneQuietEvent(start, inputs, w, failed);
      app.lastError := Some(DETACHED);
      inputs := inputs + [failed];
    }

    /** The application reacts to a key; the books list what it asks for, which is still to be handed over. */
    method PressKey(key: Keys.Key, env: AppSpec.Env) returns (action: AppSpec.Action)
      requires Valid() && link.s.ui.Polling?
      modifies this`inputs, app, history
      ensures Consistent() && AppRuns.Reaches(start, inputs, Now()) && Informed(app.View(), link.s)
      ensures action.Quit? <==> IsQuitKey(key)
      ensures |inputs| == |old(inputs)| + 1 && old(inputs) <= inputs
      ensures var pressed := inputs[|old(inputs)|];
              pressed.KeyPress? && pressed.key == key && pressed.stamp == AppSpec.InsertedAt(env)
      ensures SubmittedBy(start, inputs)
           == old(SubmittedBy(start, inputs))
              + Requested(action)
    {
      ghost var w := Now();
      ghost var answer;
      action, answer := app.OnKey(key, history, env);
      ghost var pressed := KeyPress(key, answer, AppSpec.InsertedAt(env));
      assert Now() == Apply(w, pressed);
      ActionsAre(w.app, key, answer);
      OneMoreKey(start, inputs, w, key, answer, AppSpec.InsertedAt(env));
      inputs := inputs + [pressed];
    }

    /** Hands over what the application asked for; the books already list it. */
    method HandOver(action: AppSpec.Action, ghost submitted: seq<S.SessionInput>) returns (quit: bool, parked: bool)
      requires Consistent() && link.s.ui.Polling? && AppRuns.Invariant(start)
      requires AppRuns.Reaches(start, inputs, Now()) && Informed(app.View(), link.s)
      requires Balanced(link.s, submitted) && SubmittedBy(start, inputs) == submitted + Requested(action)
      modifies this`inputs, app`lastError, link
      ensures Valid()
      ensures if parked then Parked(link.s) else link.s.ui == if quit then S.Gone else S.Polling
      ensures inputs == old(inputs) + if action.Send? then Undelivered(link.s) else []
      ensures quit <==> action.Quit?
    {
      quit, parked := false, false;
      match action
      case Send(bytes) =>
        parked := SendBytes(bytes, submitted);
      case Quit =>
        var accepted := Submit(S.Disconnect, true, submitted);
        quit, parked := true, accepted.None?;
      case ToggleMouseCapture | CopyToClipboard | NoAction =>
        assert submitted + [] == submitted;
    }

    method HandleKey(key: Keys.Key, env: AppSpec.Env) returns (quit: bool, parked: bool)
      requires Valid() && link.s.ui.Polling?
      modifies this`inputs, app, history, link
      ensures Valid()
      ensures if parked then Parked(link.s) else link.s.ui == if quit then S.Gone else S.Polling
      ensures old(inputs) <= inputs
      ensures IsKeyResponse(key, env, link.s, inputs[|old(inputs)|..])
      ensures quit <==> IsQuitKey(key)
    {
      ghost var submitted := SubmittedBy(start, inputs);
      var action := PressKey(key, env);
      quit, parked := HandOver(action, submitted);
    }

    method HandleMouse(mouse: Mouse.MouseEvent, modes: Modes) returns (parked: bool)
      requires Valid() && link.s.ui.Polling?
      modifies this`inputs, app`lastError, link
      ensures Valid() && if parked then Parked(link.s) else link.s.ui.Polling?
      ensures var bytes := MouseBytes(mouse, modes, app.terminal.vt.altScreen);
              inputs == old(inputs) + if bytes == [] then [] else [Forwarded(bytes)] + Undelivered(link.s)
    {
      if (mouse.kind.ScrollUp? || mouse.kind.ScrollDown?) && !app.terminal.vt.altScreen {
        return false;
      }
      var bytes := Mouse.EncodeMouse(mouse, modes.sgrMouse);
      if bytes == [] {
        return false;
      }
      parked := Forward(bytes);
    }

    /** Mouse reports and pasted text go to the remote past the shadow line. */
    method Forward(bytes: seq<Byte>) returns (parked: bool)
      requires Valid() && link.s.ui.Polling?
      modifies this`inputs, app`lastError, link
      ensures Valid() && if parked then Parked(link.s) else link.s.ui.Polling?
      ensures inputs == old(inputs) + ([Forwarded(bytes)] + Undelivered(link.s))
    {
      ghost var submitted := SubmittedBy(start, inputs);
      OneMoreEvent(start, inputs, Now(), Forwarded(bytes));
      inputs := inputs + [Forwarded(bytes)];
      parked := SendBytes(bytes, submitted);
    }

    method HandleResize(cols: nat, rows: nat, moved: AppSpec.Vt) returns (parked: bool)
      requires Valid() && link.s.ui.Polling?
      modifies this`inputs, app.terminal, link
      ensures Valid() && if parked then Parked(link.s) else link.s.ui.Polling?
      ensures inputs == old(inputs) + ([ResizeAsked(cols, rows)] + if parked then [] else [Resized(moved)])
      ensures app.terminal.vt == if parked then old(app.terminal.vt) else moved
    {
      ghost var w := Now();
      ghost var submitted := SubmittedBy(start, inputs);
      OneMoreEvent(start, inputs, w, ResizeAsked(cols, rows));
      inputs := inputs + [ResizeAsked(cols, rows)];
      var (vtCols, vtRows) := VtDims(cols, rows);
      var accepted := Submit(S.Resize(vtCols, vtRows), false, submitted);
      parked := accepted.None?;
      if !parked {
        ShowResized(moved);
      }
    }

    /** The emulator takes the new size. */
    method ShowResized(moved: AppSpec.Vt)
      requires Valid()
      modifies this`inputs, app.terminal`vt
      ensures Valid() && inputs == old(inputs) + [Resized(moved)] && app.terminal.vt == moved
    {
      ghost var w := Now();
      OneQuietEvent(start, inputs, w, Resized(moved));
      app.terminal.vt := moved;
      inputs := inputs + [Resized(moved)];
      assert Now() == Apply(w, Resized(moved));
    }

    /** Another program records a command into the same history. */
    method OthersRecord(entry: H.Row, env: AppSpec.Env)
      requires Valid()
      modifies this`inputs, history
      ensures Valid()
      ensures (history.rows == old(history.rows) && inputs == old(inputs)) || exists row ::
        history.rows == old(history.rows) + [row] && inputs == old(inputs) + [RecordedElsewhere(row)]
    {
      ghost var w := Now();
      var recorded := history.Record(entry, env.now, env.insertFails);
      if recorded.Ok? {
        ghost var other := RecordedElsewhere(H.Stored(entry, env.now, recorded.value));
        OneQuietEvent(start, inputs, w, other);
        inputs := inputs + [other];
        assert Now() == Apply(w, other);
      }
    }

    /** One event of the local terminal: whether the user quits, and whether the task stays parked. */
    method HandleTerminalEvent(ev: TerminalEvent, modes: Modes, env: AppSpec.Env) returns (quit: bool, parked: bool)
      requires Valid() && link.s.ui.Polling?
      modifies this`inputs, app, app.terminal, history, link
      ensures Valid()
      ensures if parked then Parked(link.s) else link.s.ui == if quit then S.Gone else S.Polling
      ensures old(inputs) <= inputs
      ensures IsResponse(ev, modes, old(app.terminal.vt.altScreen), env, link.s, inputs[|old(inputs)|..])
      ensures quit <==> ev.KeyEvent? && !ev.released && IsQuitKey(ev.key)
    {
      quit, parked := false, false;
      match ev {
        case KeyEvent(key, released) =>
          if !released {
            quit, parked := HandleKey(key, env);
          }
        case MouseEvent(mouse) =>
          parked := HandleMouse(mouse, modes);
        case PasteEvent(text) =>
          parked := Forward(Paste.Pasted(text, modes.bracketedPaste));
        case ResizeEvent(cols, rows, moved) =>
          parked := HandleResize(cols, rows, moved);
        case OtherEvent =>
      }
    }

    /** One event of the session; `vt` is what the emulator shows after it. */
    method HandleSessionEvent(vt: AppSpec.Vt)
      requires Valid() && link.s.ui.Polling? && link.s.events != []
      modifies this`inputs, app, app.terminal, app.terminal.scanner, link
      ensures Valid()
      ensures link.s.ui == if old(link.s.events[0]).DriverClosed? then S.Gone else S.Polling
      ensures inputs == old(inputs) + [FromSession(old(link.s.events[0]), vt)]
      ensures link.s.delivered == old(link.s.delivered) + [old(link.s.events[0])]
    {
      ghost var w := Now();
      var ev := link.s.events[0];
      Safety.EventOnState(app.View(), ev, vt);
      Safety.LastStateSnoc(Connecting, link.s.delivered, ev);
      OneQuietEvent(start, inputs, w, FromSession(ev, vt));
      Safety.StepKeepsOrder(link.s, S.ReceiveEvent);
      link.Step(S.ReceiveEvent);
      app.OnSessionEvent(ev, vt);
      inputs := inputs + [FromSession(ev, vt)];
      assert Now() == Apply(w, FromSession(ev, vt));
    }

    /** An application that knows its driver has exited shows the state Closed or Failed. */
    lemma ClosedMeansEnded()
      requires Valid()
      ensures app.closed ==> app.state.Closed? || app.state.Failed?
    {
      if app.closed {
        Safety.EmittedIsLegal(link.inbox, link.trace, link.s);
        var i :| 0 <= i < |link.s.delivered| && link.s.delivered[i] == DriverClosed;
        Safety.ClosedIsLast(link.s.delivered, i);
        Safety.CompleteEndsClosedOrFailed(Connecting, link.s.delivered);
      }
    }

    /** As long as only keys that keep lockstep are pressed, the remote shows what the shadow showed. */
    lemma RemoteAgrees(ed: LineEditor.Editor)
      requires Valid() && InStep(start, ed) && AllKeepStep(start, inputs)
      ensures exists k :: ShowsPast(start, inputs, ed, k, link.s.writes)
      ensures link.s.driver.Selecting? && link.s.inputs == [] && link.s.ui.Polling? ==>
        L.Shows(LineEditor.FeedAll(ed, Flatten(link.s.writes)), Now().app.line, Now().app.cursor)
    {
      RemoteShowsShadow(start, inputs, Now(), ed, link.inbox, link.trace, link.s);
      assert Safety.Accepted(link.s) + [] == Safety.Accepted(link.s);
      assert link.s.taken + [] == link.s.taken;
    }

    /** The whole task, followed for up to `rounds` rounds of its loop. */
    method Drive(rounds: nat) returns (finished: bool)
      requires Valid() && link.s.ui.Polling?
      modifies this`inputs, app, app.terminal, app.terminal.scanner, history, link
      ensures Valid()
      ensures if finished then link.s.ui.Gone? else link.s.ui.Polling? || Parked(link.s)
      ensures AppRuns.Invariant(Now())
      ensures app.closed ==> app.state.Closed? || app.state.Failed?
    {
      finished := Loop(rounds);
      AppRuns.RunsKeepInvariant(start, inputs, Now());
      ClosedMeansEnded();
    }

    /** The driver gets its turn while the loop waits, and other programs record commands. */
    method Wait()
      requires Valid() && link.s.ui.Polling?
      modifies this`inputs, history, link
      ensures Valid() && link.s.ui.Polling?
    {
      ghost var before := Now();
      DriverActs();
      assert Now() == before;
      var others: nat := *;
      while others > 0
        invariant Valid() && link.s.ui.Polling?
      {
        var entry: H.Row := *;
        var env: AppSpec.Env := *;
        OthersRecord(entry, env);
        others := others - 1;
      }
    }

    /** The loop ends because nothing more can come from the terminal or from the session. */
    method Leave(streamEnded: bool)
      requires Valid() && link.s.ui.Polling?
      requires streamEnded || (link.s.driver.Done? && link.s.events == [])
      modifies link
      ensures Valid() && link.s.ui.Gone?
    {
      link.Step(if streamEnded then S.UserLeaves else S.ReceiveEvent);
    }

    method Loop(rounds: nat) returns (finished: bool)
      requires Valid() && link.s.ui.Polling?
      modifies this`inputs, app, app.terminal, app.terminal.scanner, history, link
      ensures Valid()
      ensures if finished then link.s.ui.Gone? else link.s.ui.Polling? || Parked(link.s)
    {
      for round := 0 to rounds
        invariant Valid() && link.s.ui.Polling?
      {
        Wait();
        var ev: Option<TerminalEvent> := *;
        if ev.Some? {
          var modes: Modes := *;
          var env: AppSpec.Env := *;
          var quit, parked := HandleTerminalEvent(ev.value, modes, env);
          if parked {
            return false;
          }
          if quit {
            return true;
          }
        } else if link.s.events != [] {
          var vt: AppSpec.Vt := *;
          HandleSessionEvent(vt);
          if link.s.ui.Gone? {
            return true;
          }
        } else {
          var streamEnded: bool := *;
          if streamEnded || link.s.driver.Done? {
            Leave(streamEnded);
            return true;
          }
        }
      }
      return false;
    }
  }

  /** What an action hands to the session. */
  function Requested(action: AppSpec.Action): seq<S.SessionInput> {
    match action
    case Send(bytes) => [S.Bytes(bytes)]
    case Quit => [S.Disconnect]
    case ToggleMouseCapture | CopyToClipboard | NoAction => []
  }

  lemma OneMoreKey(start: World, inputs: seq<Input>, w: World, key: Keys.Key, answer: Option<string>,
                   stamp: Option<nat>)
    requires AppRuns.Invariant(start) && AppRuns.Reaches(start, inputs, w)
    requires w.app.cursor <= |w.app.line| && IsPossible(w, KeyPress(key, answer, stamp))
    ensures AppRuns.Reaches(start, inputs + [KeyPress(key, answer, stamp)], Apply(w, KeyPress(key, answer, stamp)))
    ensures var (after, action) := AppSpec.OnKey(w.app, key, answer);
            && after.state == w.app.state && after.closed == w.app.closed
            && SubmittedBy(start, inputs + [KeyPress(key, answer, stamp)])
            == SubmittedBy(start, inputs) + Requested(action)
  {
    AppRuns.RunsKeepInvariant(start, inputs, w);
    SubmittedAre(w, KeyPress(key, answer, stamp));
    KeyKeepsState(w.app, key, answer);
    OneMoreEvent(start, inputs, w, KeyPress(key, answer, stamp));
  }

  lemma KeyKeepsState(a: AppSpec.AppState, key: Keys.Key, answer: Option<string>)
    requires a.cursor <= |a.line|
    ensures AppSpec.OnKey(a, key, answer).0.state == a.state && AppSpec.OnKey(a, key, answer).0.closed == a.closed
  {
  }

  /** An event that submits nothing leaves the account of what was submitted as it is. */
  lemma OneQuietEvent(start: World, inputs: seq<Input>, w: World, input: Input)
    requires AppRuns.Invariant(start) && AppRuns.Reaches(start, inputs, w)
    requires !input.KeyPress? && !input.Forwarded? && !input.ResizeAsked?
    ensures AppRuns.Invariant(w) && AppRuns.Reaches(start, inputs + [input], Apply(w, input))
    ensures SubmittedBy(start, inputs + [input]) == SubmittedBy(start, inputs)
  {
    AppRuns.RunsKeepInvariant(start, inputs, w);
    OneMoreEvent(start, inputs, w, input);
    assert Submitted(w, input) == [];
  }
}
