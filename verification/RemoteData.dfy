/** What the remote said and what the user interface is told: the same bytes, on the same streams, in order. */
module RemoteData {
  import opened Prelude
  import opened SessionEvents
  import opened Transport
  import S = Session
  import Safety = SessionSafety

  datatype Stream = OutStream | ErrStream | StatusStream

  /** What a message of the channel adds to a stream: its data, or the number of an exit status. */
  function MessageData(stream: Stream, msg: ChannelMsg): seq<int> {
    match (stream, msg)
    case (OutStream, Data(data)) => data
    case (ErrStream, ExtendedData(ext, data)) => if ext == 1 then data else []
    case (StatusStream, ExitStatusMsg(status)) => [status]
    case _ => []
  }

  /** What the messages before the channel's close say on a stream. */
  function Said(stream: Stream, msgs: seq<ChannelMsg>): seq<int> {
    if msgs == [] || msgs[0] == Close then [] else MessageData(stream, msgs[0]) + Said(stream, msgs[1..])
  }

  function EventData(stream: Stream, e: SessionEvent): seq<int> {
    match (stream, e)
    case (OutStream, Output(bytes)) => bytes
    case (ErrStream, Stderr(bytes)) => bytes
    case (StatusStream, ExitStatus(status)) => [status]
    case _ => []
  }

  /** What the events tell of a stream. */
  function Heard(stream: Stream, t: seq<SessionEvent>): seq<int> {
    if t == [] then [] else EventData(stream, t[0]) + Heard(stream, t[1..])
  }

  lemma {:induction false} HeardConcat(stream: Stream, a: seq<SessionEvent>, b: seq<SessionEvent>)
    ensures Heard(stream, a + b) == Heard(stream, a) + Heard(stream, b)
  {
    if a == [] {
      assert a + b == b;
    } else {
      assert (a + b)[1..] == a[1..] + b;
      HeardConcat(stream, a[1..], b);
    }
  }

  lemma HeardOfPrefix(stream: Stream, a: seq<SessionEvent>, b: seq<SessionEvent>)
    requires a <= b
    ensures Heard(stream, a) <= Heard(stream, b)
  {
    HeardConcat(stream, a, b[|a|..]);
    assert a + b[|a|..] == b;
  }

  lemma {:induction false} HeardOfOutput(stream: Stream, t: seq<SessionEvent>)
    ensures Heard(stream, Safety.RemoteOutput(t)) == Heard(stream, t)
  {
    if t != [] {
      HeardOfOutput(stream, t[1..]);
      if Safety.IsRemoteOutput(t[0]) {
        assert ([t[0]] + Safety.RemoteOutput(t[1..]))[1..] == Safety.RemoteOutput(t[1..]);
      }
    }
  }

  lemma ToldOne(msg: ChannelMsg)
    requires msg != Close
    ensures Told([msg])
         == match msg
            case Data(data) => [Output(data)]
            case ExtendedData(ext, data) => if ext == 1 then [Stderr(data)] else []
            case ExitStatusMsg(status) => [ExitStatus(status)]
            case _ => []
  {
    assert [msg][1..] == [];
  }

  lemma ToldOfOne(stream: Stream, msg: ChannelMsg)
    requires msg != Close
    ensures Heard(stream, Told([msg])) == MessageData(stream, msg)
  {
    ToldOne(msg);
    var told := Told([msg]);
    if told != [] {
      HeardOfOne(stream, told[0]);
      assert told == [told[0]];
    }
  }

  /** Telling the messages of a channel neither adds to what they say nor takes anything from it. */
  lemma {:induction false} ToldIsSaid(stream: Stream, msgs: seq<ChannelMsg>)
    ensures Heard(stream, Told(msgs)) == Said(stream, msgs)
  {
    if msgs != [] && msgs[0] != Close {
      var rest := msgs[1..];
      assert msgs == [msgs[0]] + rest;
      ToldConcat([msgs[0]], rest);
      HeardConcat(stream, Told([msgs[0]]), Told(rest));
      ToldOfOne(stream, msgs[0]);
      ToldIsSaid(stream, rest);
    }
  }

  /**
   Over every run and for each stream: the bytes that the events carry are, in order, a beginning of those that
   the channel's messages carry before its close; while somebody listens, only the event just being forwarded
   is missing of what was received.
   */
  lemma BytesAreConserved(stream: Stream, inbox: seq<ChannelMsg>, labels: seq<S.Label>, s: S.System)
    requires S.Reaches(S.Init(inbox), labels, s)
    ensures Heard(stream, s.delivered) <= Heard(stream, s.emitted) <= Said(stream, inbox)
    ensures !s.ui.Gone? ==>
      Said(stream, s.received)
      == Heard(stream, s.emitted) + if s.driver.Forwarding? then EventData(stream, s.driver.event) else []
  {
    Safety.OutputIsConserved(inbox, labels, s);
    Safety.EmittedIsLegal(inbox, labels, s);
    HeardOfPrefix(stream, s.delivered, s.emitted);
    HeardOfPrefix(stream, Safety.RemoteOutput(s.emitted), Told(inbox));
    HeardOfOutput(stream, s.emitted);
    ToldIsSaid(stream, inbox);
    if !s.ui.Gone? {
      ToldIsSaid(stream, s.received);
      if s.driver.Forwarding? {
        HeardConcat(stream, Safety.RemoteOutput(s.emitted), [s.driver.event]);
        HeardOfOne(stream, s.driver.event);
      } else {
        assert Safety.RemoteOutput(s.emitted) + [] == Safety.RemoteOutput(s.emitted);
      }
    }
  }

  lemma HeardOfOne(stream: Stream, e: SessionEvent)
    ensures Heard(stream, [e]) == EventData(stream, e)
  {
    assert [e][1..] == [];
  }

  // ---- which messages matter --------------------------------------------------------------------

  /** Data of other extended streams, window adjustments, request replies and the like. */
  predicate IsIgnored(msg: ChannelMsg) {
    msg.Unhandled? || (msg.ExtendedData? && msg.ext != 1)
  }

  /** How many messages at the beginning are ignored. */
  function Ignored(inbox: seq<ChannelMsg>): (n: nat)
    ensures n <= |inbox|
  {
    if inbox == [] || !IsIgnored(inbox[0]) then 0 else 1 + Ignored(inbox[1..])
  }

  lemma {:induction false} IgnoredIsSkipped(inbox: seq<ChannelMsg>)
    ensures var n := Ignored(inbox);
            && Consumed(inbox) == (if n < |inbox| then n + 1 else n)
            && FirstEvent(inbox) == (if n < |inbox| then EventOf(inbox[n]) else None)
  {
    if inbox != [] && IsIgnored(inbox[0]) {
      IgnoredIsSkipped(inbox[1..]);
    }
  }

  /**
   What the driver does about the channel's next message that is not ignored: it forwards data and exit
   statuses as they are, goes on at the end of a stream, and leaves its loop on a close or when there is none.
   */
  lemma NextMessageMeans(s: S.System)
    requires s.driver.Selecting?
    ensures var n := Ignored(s.inbox);
            var s' := S.Do(s, S.TakeMessage);
            if n == |s.inbox| then s'.driver.DisconnectingClient? && s'.inbox == []
            else
              && s'.inbox == s.inbox[n + 1..]
              && match s.inbox[n]
                 case Data(data) => s'.driver == S.Forwarding(Output(data))
                 case ExtendedData(_, data) => s'.driver == S.Forwarding(Stderr(data))
                 case Eof => s'.driver.Selecting?
                 case ExitStatusMsg(status) => s'.driver == S.Forwarding(ExitStatus(status))
                 case Close => s'.driver.DisconnectingClient?
                 case Unhandled => false
  {
    IgnoredIsSkipped(s.inbox);
    NotIgnored(s.inbox);
  }

  lemma {:induction false} NotIgnored(inbox: seq<ChannelMsg>)
    ensures Ignored(inbox) < |inbox| ==> !IsIgnored(inbox[Ignored(inbox)])
  {
    if inbox != [] && IsIgnored(inbox[0]) {
      NotIgnored(inbox[1..]);
    }
  }
}
