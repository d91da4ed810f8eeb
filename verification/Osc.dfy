/**
 The scanner that picks working-directory reports (OSC 7) and prompt markers (OSC 133) out of the
 bytes of the remote terminal. OSC is section 8.3.89 and its terminator ST section 8.3.143 of ECMA-48;
 BEL is accepted as a terminator as xterm does.
 */
module Osc {
  import opened Prelude
  import FileUrl

  datatype OscEvent =
    | PromptStart
    | PromptEnd
    | CommandStart
    | CommandEnd
    | Cwd(path: string)

  datatype ScanState = Plain | Esc | InOsc | OscMaybeSt

  /** The scanner between two bytes. */
  datatype Scan = Scan(state: ScanState, payload: seq<Byte>)

  const INITIAL := Scan(Plain, [])

  const BEL: Byte := 0x07
  const ESC: Byte := 0x1b
  const BRACKET: Byte := 0x5d
  const BACKSLASH: Byte := 0x5c
  const PAYLOAD_CAP: Option<nat> := Some(4096)
  const CWD_PREFIX: seq<Byte> := [0x37, 0x3b]  // 7;
  const MARKER_PREFIX: seq<Byte> := [0x31, 0x33, 0x33, 0x3b]  // 133;

  /** The event, if any, that a complete payload announces. */
  function Dispatch(payload: seq<Byte>): seq<OscEvent> {
    if CWD_PREFIX <= payload then
      match FileUrl.FilePath(payload[|CWD_PREFIX|..])
      case Some(path) => [Cwd(path)]
      case None => []
    else if MARKER_PREFIX <= payload && |payload| > |MARKER_PREFIX| then
      match payload[|MARKER_PREFIX|]
      case 0x41 => [PromptStart]
      case 0x42 => [PromptEnd]
      case 0x43 => [CommandStart]
      case 0x44 => [CommandEnd]
      case _ => []
    else
      []
  }

  /** Is there room for one more payload byte? `None` stands for a buffer without bound. */
  predicate HasRoom(cap: Option<nat>, payload: seq<Byte>) {
    cap.None? || |payload| < cap.value
  }

  /** One byte through a scanner that keeps at most `cap` payload bytes. */
  function Step(cap: Option<nat>, s: Scan, b: Byte): (Scan, seq<OscEvent>) {
    match s.state
    case Plain =>
      (if b == ESC then s.(state := Esc) else s, [])
    case Esc =>
      (if b == BRACKET then Scan(InOsc, []) else s.(state := Plain), [])
    case InOsc =>
      if b == BEL then (INITIAL, Dispatch(s.payload))
      else if b == ESC then (s.(state := OscMaybeSt), [])
      else if HasRoom(cap, s.payload) then (s.(payload := s.payload + [b]), [])
      else (s, [])
    case OscMaybeSt =>
      (INITIAL, if b == BACKSLASH then Dispatch(s.payload) else [])
  }

  /** All of `bytes` through the scanner: the state reached and the events met, in order. */
  function Run(cap: Option<nat>, s: Scan, bytes: seq<Byte>): (Scan, seq<OscEvent>)
    decreases bytes
  {
    if bytes == [] then
      (s, [])
    else
      var (s1, first) := Step(cap, s, bytes[0]);
      var (s2, rest) := Run(cap, s1, bytes[1..]);
      (s2, first + rest)
  }

  lemma {:induction false} RunConcat(cap: Option<nat>, s: Scan, a: seq<Byte>, b: seq<Byte>)
    ensures var (s1, ea) := Run(cap, s, a);
            var (s2, eb) := Run(cap, s1, b);
            Run(cap, s, a + b) == (s2, ea + eb)
    decreases a
  {
    if a == [] {
      assert a + b == b;
      assert Run(cap, s, a + b).1 == [] + Run(cap, s, b).1;
    } else {
      assert (a + b)[1..] == a[1..] + b;
      var (s1, first) := Step(cap, s, a[0]);
      RunConcat(cap, s1, a[1..], b);
      var (s2, ea) := Run(cap, s1, a[1..]);
      var (s3, eb) := Run(cap, s2, b);
      assert first + (ea + eb) == (first + ea) + eb;
    }
  }

  /** The scanner object: it keeps its state across calls and appends to the caller's event list. */
  class OscScanner {
    var state: ScanState
    var payload: seq<Byte>

    function View(): Scan
      reads this
    {
      Scan(state, payload)
    }

    constructor ()
      ensures View() == INITIAL
    {
      state := Plain;
      payload := [];
    }

    method DispatchInto(out: seq<OscEvent>) returns (out': seq<OscEvent>)
      ensures out' == out + Dispatch(payload)
    {
      out' := out;
      if CWD_PREFIX <= payload {
        var path := FileUrl.ParseFileUrl(payload[|CWD_PREFIX|..]);
        if path.Some? {
          out' := out' + [Cwd(path.value)];
        }
      } else if MARKER_PREFIX <= payload {
        var rest := payload[|MARKER_PREFIX|..];
        if rest != [] {
          match rest[0]
          case 0x41 => out' := out' + [PromptStart];
          case 0x42 => out' := out' + [PromptEnd];
          case 0x43 => out' := out' + [CommandStart];
          case 0x44 => out' := out' + [CommandEnd];
          case _ =>
        }
      }
    }

    method ScanBytes(bytes: seq<Byte>, out: seq<OscEvent>) returns (out': seq<OscEvent>)
      modifies this
      ensures View() == Run(PAYLOAD_CAP, old(View()), bytes).0
      ensures out' == out + Run(PAYLOAD_CAP, old(View()), bytes).1
    {
      out' := out;
      assert bytes[..|bytes|] == bytes;
      for i := 0 to |bytes|
        invariant View() == Run(PAYLOAD_CAP, old(View()), bytes[..i]).0
        invariant out' == out + Run(PAYLOAD_CAP, old(View()), bytes[..i]).1
      {
        ghost var before := View();
        ghost var outBefore := out';
        var b := bytes[i];
        match state {
          case Plain =>
            if b == ESC {
              state := Esc;
            }
          case Esc =>
            if b == BRACKET {
              payload := [];
              state := InOsc;
            } else {
              state := Plain;
            }
          case InOsc =>
            if b == BEL {
              out' := DispatchInto(out');
              payload := [];
              state := Plain;
            } else if b == ESC {
              state := OscMaybeSt;
            } else if HasRoom(PAYLOAD_CAP, payload) {
              payload := payload + [b];
            }
          case OscMaybeSt =>
            if b == BACKSLASH {
              out' := DispatchInto(out');
            }
            payload := [];
            state := Plain;
        }
        assert View() == Step(PAYLOAD_CAP, before, b).0;
        assert out' == outBefore + Step(PAYLOAD_CAP, before, b).1;
        RunSnoc(PAYLOAD_CAP, old(View()), bytes[..i], b);
        assert bytes[..i + 1] == bytes[..i] + [b];
      }
    }
  }

  lemma RunSnoc(cap: Option<nat>, s: Scan, bytes: seq<Byte>, b: Byte)
    ensures var (s1, events) := Run(cap, s, bytes);
            var (s2, more) := Step(cap, s1, b);
            Run(cap, s, bytes + [b]) == (s2, events + more)
  {
    RunConcat(cap, s, bytes, [b]);
    var s1 := Run(cap, s, bytes).0;
    var (s2, more) := Step(cap, s1, b);
    assert Run(cap, s2, []) == (s2, []);
    assert [b][1..] == [];
    assert more + [] == more;
    assert Run(cap, s1, [b]) == (s2, more);
  }
}
