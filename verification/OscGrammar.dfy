/**
 What the scanner recognises, said without a state machine: a recursive parser over whole strings, and
 the proofs that the streaming scanner agrees with it however the input is cut, that its bounded buffer
 refines an unbounded one, and that it resynchronises.
 */
module OscGrammar {
  import opened Prelude
  import opened Osc

  /** Length of the longest prefix of `s` without BEL and ESC. */
  function BodyLength(s: seq<Byte>): (n: nat)
    ensures n <= |s|
    ensures BEL !in s[..n] && ESC !in s[..n]
    ensures n < |s| ==> s[n] == BEL || s[n] == ESC
  {
    if s == [] || s[0] == BEL || s[0] == ESC then 0
    else
      var n := 1 + BodyLength(s[1..]);
      assert s[..n] == [s[0]] + s[1..][..n - 1];
      n
  }

  function Capped(cap: Option<nat>, s: seq<Byte>): seq<Byte> {
    if cap.Some? && |s| > cap.value then s[..cap.value] else s
  }

  /**
   The recursive parser. Everything up to an ESC is skipped, and the byte after the ESC with it, whatever
   it is (another ESC included), unless that byte opens an OSC. An OSC body ends at the first BEL or ESC;
   BEL and ESC-backslash complete it, ESC with any other byte abandons it.
   */
  function Parse(cap: Option<nat>, s: seq<Byte>): (Scan, seq<OscEvent>)
    decreases |s|
  {
    var i := FirstIndex(s, ESC);
    if i == |s| then
      (INITIAL, [])
    else if i + 1 == |s| then
      (Scan(Esc, []), [])
    else if s[i + 1] != BRACKET then
      Parse(cap, s[i + 2..])
    else
      var body := s[i + 2..];
      var n := BodyLength(body);
      ParseEnd(cap, Capped(cap, body[..n]), body[n..])
  }

  /** The parser behind an OSC body that collected `payload`; `s` is empty or starts with BEL or ESC. */
  function ParseEnd(cap: Option<nat>, payload: seq<Byte>, s: seq<Byte>): (Scan, seq<OscEvent>)
    decreases |s|
  {
    if s == [] then
      (Scan(InOsc, payload), [])
    else if s[0] == BEL then
      var (final, events) := Parse(cap, s[1..]);
      (final, Dispatch(payload) + events)
    else if |s| == 1 then
      (Scan(OscMaybeSt, payload), [])
    else
      var (final, events) := Parse(cap, s[2..]);
      (final, (if s[1] == BACKSLASH then Dispatch(payload) else []) + events)
  }

  // ---- the scanner agrees with the parser -------------------------------------------------------

  /** A byte that announces nothing only changes the state. */
  lemma RunQuiet(cap: Option<nat>, s: Scan, bytes: seq<Byte>)
    requires bytes != [] && Step(cap, s, bytes[0]).1 == []
    ensures Run(cap, s, bytes) == Run(cap, Step(cap, s, bytes[0]).0, bytes[1..])
  {
    var r := Run(cap, Step(cap, s, bytes[0]).0, bytes[1..]);
    assert [] + r.1 == r.1;
  }

  lemma {:induction false} SkipsPlain(cap: Option<nat>, s: seq<Byte>)
    requires ESC !in s
    ensures Run(cap, INITIAL, s) == (INITIAL, [])
  {
    if s != [] {
      assert s[0] in s;
      RunQuiet(cap, INITIAL, s);
      SkipsPlain(cap, s[1..]);
    }
  }

  lemma CappedSnoc(cap: Option<nat>, s: seq<Byte>, b: Byte)
    ensures Capped(cap, s + [b]) == if HasRoom(cap, Capped(cap, s)) then Capped(cap, s) + [b] else Capped(cap, s)
  {
  }

  lemma {:induction false} CollectsBody(cap: Option<nat>, collected: seq<Byte>, s: seq<Byte>)
    requires BEL !in s && ESC !in s
    ensures Run(cap, Scan(InOsc, Capped(cap, collected)), s) == (Scan(InOsc, Capped(cap, collected + s)), [])
    decreases s
  {
    if s == [] {
      assert collected + s == collected;
    } else {
      assert s[0] in s;
      CappedSnoc(cap, collected, s[0]);
      RunQuiet(cap, Scan(InOsc, Capped(cap, collected)), s);
      CollectsBody(cap, collected + [s[0]], s[1..]);
      assert collected + [s[0]] + s[1..] == collected + s;
    }
  }

  lemma RunOne(cap: Option<nat>, s: Scan, b: Byte)
    ensures Run(cap, s, [b]) == Step(cap, s, b)
  {
    var (s1, first) := Step(cap, s, b);
    assert [b][1..] == [];
    assert Run(cap, s1, []) == (s1, []);
    assert first + [] == first;
  }

  lemma RunTwo(cap: Option<nat>, s: Scan, a: Byte, b: Byte)
    ensures var (s1, first) := Step(cap, s, a);
            var (s2, second) := Step(cap, s1, b);
            Run(cap, s, [a, b]) == (s2, first + second)
  {
    RunOne(cap, s, a);
    RunOne(cap, Step(cap, s, a).0, b);
    RunConcat(cap, s, [a], [b]);
    assert [a, b] == [a] + [b];
  }

  /** The scanner computes exactly what the recursive parser computes. */
  lemma {:induction false} ScannerIsParser(cap: Option<nat>, s: seq<Byte>)
    ensures Run(cap, INITIAL, s) == Parse(cap, s)
    decreases |s|, 1
  {
    var i := FirstIndex(s, ESC);
    var plain := s[..i];
    SkipsPlain(cap, plain);
    RunConcat(cap, INITIAL, plain, s[i..]);
    assert s == plain + s[i..];
    var r := Run(cap, INITIAL, s[i..]);
    assert [] + r.1 == r.1;
    if i < |s| {
      ScannerIsParserAtEsc(cap, s, i);
    }
  }

  lemma ScannerIsParserAtEsc(cap: Option<nat>, s: seq<Byte>, i: nat)
    requires i == FirstIndex(s, ESC) && i < |s|
    ensures Run(cap, INITIAL, s[i..]) == Parse(cap, s)
    decreases |s|, 0
  {
    RunQuiet(cap, INITIAL, s[i..]);
    assert s[i..][1..] == s[i + 1..];
    if i + 1 < |s| {
      RunQuiet(cap, Scan(Esc, []), s[i + 1..]);
      assert s[i + 1..][1..] == s[i + 2..];
      if s[i + 1] != BRACKET {
        ScannerIsParser(cap, s[i + 2..]);
      } else {
        var body := s[i + 2..];
        var n := BodyLength(body);
        RunAfterBody(cap, body[..n], body[n..]);
        assert body == body[..n] + body[n..];
        ScannerIsParserAtEnd(cap, Capped(cap, body[..n]), body[n..]);
      }
    }
  }

  lemma RunAfterBody(cap: Option<nat>, body: seq<Byte>, tail: seq<Byte>)
    requires BEL !in body && ESC !in body
    ensures Run(cap, Scan(InOsc, []), body + tail) == Run(cap, Scan(InOsc, Capped(cap, body)), tail)
  {
    CollectsBody(cap, [], body);
    assert [] + body == body;
    RunConcat(cap, Scan(InOsc, []), body, tail);
    var r := Run(cap, Scan(InOsc, Capped(cap, body)), tail);
    assert [] + r.1 == r.1;
  }

  lemma ScannerIsParserAtEnd(cap: Option<nat>, payload: seq<Byte>, s: seq<Byte>)
    requires s != [] ==> s[0] == BEL || s[0] == ESC
    ensures Run(cap, Scan(InOsc, payload), s) == ParseEnd(cap, payload, s)
    decreases |s|, 1
  {
    if s != [] {
      if s[0] == BEL {
        ScannerIsParser(cap, s[1..]);
      } else {
        RunQuiet(cap, Scan(InOsc, payload), s);
        if |s| > 1 {
          assert s[1..][1..] == s[2..];
          ScannerIsParser(cap, s[2..]);
        }
      }
    }
  }

  /** Successive `scan` calls on the pieces of an input. */
  function RunChunks(cap: Option<nat>, s: Scan, chunks: seq<seq<Byte>>): (Scan, seq<OscEvent>)
    decreases chunks
  {
    if chunks == [] then
      (s, [])
    else
      var (s1, first) := Run(cap, s, chunks[0]);
      var (s2, rest) := RunChunks(cap, s1, chunks[1..]);
      (s2, first + rest)
  }

  lemma {:induction false} ChunksAreConcatenation(cap: Option<nat>, s: Scan, chunks: seq<seq<Byte>>)
    ensures RunChunks(cap, s, chunks) == Run(cap, s, Flatten(chunks))
    decreases chunks
  {
    if chunks != [] {
      ChunksAreConcatenation(cap, Run(cap, s, chunks[0]).0, chunks[1..]);
      RunConcat(cap, s, chunks[0], Flatten(chunks[1..]));
    }
  }

  /** However a byte string is cut into scan calls, the scanner yields the parse of the uncut string. */
  lemma StreamingIsParsing(chunks: seq<seq<Byte>>)
    ensures RunChunks(PAYLOAD_CAP, INITIAL, chunks) == Parse(PAYLOAD_CAP, Flatten(chunks))
  {
    ChunksAreConcatenation(PAYLOAD_CAP, INITIAL, chunks);
    ScannerIsParser(PAYLOAD_CAP, Flatten(chunks));
  }

  // ---- the payload buffer -----------------------------------------------------------------------

  /** What holds of the scanner's fields between any two bytes. */
  ghost predicate BufferInvariant(cap: Option<nat>, s: Scan) {
    && (cap.Some? ==> |s.payload| <= cap.value)
    && BEL !in s.payload && ESC !in s.payload
    && (s.state.Plain? || s.state.Esc? ==> s.payload == [])
  }

  lemma {:induction false} BufferInvariantHolds(cap: Option<nat>, s: Scan, bytes: seq<Byte>)
    requires BufferInvariant(cap, s)
    ensures BufferInvariant(cap, Run(cap, s, bytes).0)
    decreases bytes
  {
    if bytes != [] {
      BufferInvariantHolds(cap, Step(cap, s, bytes[0]).0, bytes[1..]);
    }
  }

  function CappedScan(cap: Option<nat>, s: Scan): Scan {
    s.(payload := Capped(cap, s.payload))
  }

  /** The prompt markers among `events`. */
  function Markers(events: seq<OscEvent>): seq<OscEvent> {
    if events == [] then []
    else (if events[0].Cwd? then [] else [events[0]]) + Markers(events[1..])
  }

  lemma {:induction false} MarkersConcat(a: seq<OscEvent>, b: seq<OscEvent>)
    ensures Markers(a + b) == Markers(a) + Markers(b)
  {
    if a == [] {
      assert a + b == b;
    } else {
      assert (a + b)[1..] == a[1..] + b;
      MarkersConcat(a[1..], b);
    }
  }

  /** Five bytes of payload decide which prompt marker, if any, is announced. */
  lemma MarkersSurviveCap(cap: Option<nat>, payload: seq<Byte>)
    requires cap.Some? ==> cap.value >= 5
    ensures Markers(Dispatch(Capped(cap, payload))) == Markers(Dispatch(payload))
  {
    var c := Capped(cap, payload);
    assert c == payload || (|c| >= 5 && c == payload[..|c|]);
    assert CWD_PREFIX <= c <==> CWD_PREFIX <= payload;
    assert MARKER_PREFIX <= c <==> MARKER_PREFIX <= payload;
    assert forall p :: Markers([Cwd(p)]) == [];
  }

  /** Every payload collected while reading `bytes` fits the buffer. */
  ghost predicate PayloadsFit(cap: Option<nat>, s: Scan, bytes: seq<Byte>) {
    forall k :: 0 <= k <= |bytes| ==>
      Capped(cap, Run(None, s, bytes[..k]).0.payload) == Run(None, s, bytes[..k]).0.payload
  }

  lemma CapRefinesStep(cap: Option<nat>, s: Scan, b: Byte)
    requires cap.Some? ==> cap.value >= 5
    ensures Step(cap, CappedScan(cap, s), b).0 == CappedScan(cap, Step(None, s, b).0)
    ensures Markers(Step(cap, CappedScan(cap, s), b).1) == Markers(Step(None, s, b).1)
  {
    if s.state.InOsc? {
      CappedSnoc(cap, s.payload, b);
    }
    if s.state.InOsc? || s.state.OscMaybeSt? {
      MarkersSurviveCap(cap, s.payload);
    }
  }

  /** The bounded scanner tracks the unbounded one, truncating its payload and losing no prompt marker. */
  lemma {:induction false} CapRefines(cap: Option<nat>, s: Scan, bytes: seq<Byte>)
    requires cap.Some? ==> cap.value >= 5
    ensures Run(cap, CappedScan(cap, s), bytes).0 == CappedScan(cap, Run(None, s, bytes).0)
    ensures Markers(Run(cap, CappedScan(cap, s), bytes).1) == Markers(Run(None, s, bytes).1)
    decreases bytes
  {
    if bytes != [] {
      var (s1, u) := Step(None, s, bytes[0]);
      CapRefinesStep(cap, s, bytes[0]);
      CapRefines(cap, s1, bytes[1..]);
      MarkersConcat(u, Run(None, s1, bytes[1..]).1);
      MarkersConcat(Step(cap, CappedScan(cap, s), bytes[0]).1, Run(cap, CappedScan(cap, s1), bytes[1..]).1);
    }
  }

  /** As long as every payload fits, the bound cannot be noticed at all. */
  lemma {:induction false} CapUnnoticed(cap: Option<nat>, s: Scan, bytes: seq<Byte>)
    requires PayloadsFit(cap, s, bytes)
    ensures Run(cap, s, bytes) == Run(None, s, bytes)
    decreases bytes
  {
    assert bytes[..0] == [];
    assert Run(None, s, bytes[..0]).0.payload == s.payload;
    if bytes != [] {
      var s1 := Step(None, s, bytes[0]).0;
      assert bytes[..1] == [bytes[0]];
      RunOne(None, s, bytes[0]);
      assert Run(None, s, bytes[..1]).0.payload == s1.payload;
      assert Step(cap, s, bytes[0]) == Step(None, s, bytes[0]);
      forall k | 0 <= k <= |bytes[1..]|
        ensures Capped(cap, Run(None, s1, bytes[1..][..k]).0.payload) == Run(None, s1, bytes[1..][..k]).0.payload
      {
        assert bytes[..k + 1][1..] == bytes[1..][..k];
        assert Run(None, s, bytes[..k + 1]).0 == Run(None, s1, bytes[..k + 1][1..]).0;
      }
      CapUnnoticed(cap, s1, bytes[1..]);
    }
  }

  // ---- resynchronisation ------------------------------------------------------------------------

  /** One BEL brings every reachable state back to the initial one. */
  lemma BelResynchronises(cap: Option<nat>, garbage: seq<Byte>, more: seq<Byte>)
    ensures Run(cap, INITIAL, garbage + [BEL]).0 == INITIAL
    ensures Run(cap, INITIAL, garbage + [BEL] + more)
         == (Run(cap, INITIAL, more).0, Run(cap, INITIAL, garbage + [BEL]).1 + Run(cap, INITIAL, more).1)
  {
    BufferInvariantHolds(cap, INITIAL, garbage);
    RunConcat(cap, INITIAL, garbage, [BEL]);
    RunOne(cap, Run(cap, INITIAL, garbage).0, BEL);
    RunConcat(cap, INITIAL, garbage + [BEL], more);
  }
}
