/** The remote end of a session: one channel, whose messages are filtered into shell events. */
module Transport {
  import opened Prelude
  import opened SessionEvents

  datatype ChannelMsg =
    | Data(data: seq<Byte>)
    | ExtendedData(ext: nat, data: seq<Byte>)
    | Eof
    | ExitStatusMsg(status: nat)
    | Close
    | Unhandled

  datatype SshEvent =
    | ShellData(data: seq<Byte>)
    | ShellStderr(data: seq<Byte>)
    | ShellEof
    | ShellExit(status: nat)
    | ShellClosed

  /** The shell event of a message; window adjustments, request replies and the like have none. */
  function EventOf(msg: ChannelMsg): Option<SshEvent> {
    match msg
    case Data(d) => Some(ShellData(d))
    case ExtendedData(ext, d) => if ext == 1 then Some(ShellStderr(d)) else None
    case Eof => Some(ShellEof)
    case ExitStatusMsg(s) => Some(ShellExit(s))
    case Close => Some(ShellClosed)
    case Unhandled => None
  }

  /** How many messages the next event uses up: those without an event, and the one that has it. */
  function Consumed(inbox: seq<ChannelMsg>): (n: nat)
    ensures n <= |inbox|
  {
    if inbox == [] then 0
    else if EventOf(inbox[0]).Some? then 1
    else 1 + Consumed(inbox[1..])
  }

  /** The event of the first message that has one. */
  function FirstEvent(inbox: seq<ChannelMsg>): Option<SshEvent> {
    if inbox == [] then None
    else if EventOf(inbox[0]).Some? then EventOf(inbox[0])
    else FirstEvent(inbox[1..])
  }

  /** The channel of one session: `inbox` holds what it will still yield before it is closed and drained. */
  class SshSession {
    var inbox: seq<ChannelMsg>

    constructor (inbox: seq<ChannelMsg>)
      ensures this.inbox == inbox
    {
      this.inbox := inbox;
    }

    /** `Channel::wait`. */
    method Wait() returns (msg: Option<ChannelMsg>)
      modifies this
      ensures old(inbox) == [] ==> msg.None? && inbox == []
      ensures old(inbox) != [] ==> msg == Some(old(inbox)[0]) && inbox == old(inbox)[1..]
    {
      if inbox == [] {
        return None;
      }
      msg := Some(inbox[0]);
      inbox := inbox[1..];
    }

    method NextEvent() returns (event: Option<SshEvent>)
      modifies this
      ensures event == FirstEvent(old(inbox))
      ensures inbox == old(inbox)[Consumed(old(inbox))..]
    {
      while true
        invariant FirstEvent(inbox) == FirstEvent(old(inbox))
        invariant Consumed(inbox) <= Consumed(old(inbox)) && |inbox| <= |old(inbox)|
        invariant inbox == old(inbox)[Consumed(old(inbox)) - Consumed(inbox)..]
        decreases |inbox|
      {
        var msg := Wait();
        if msg.None? {
          return None;
        }
        if EventOf(msg.value).Some? {
          return EventOf(msg.value);
        }
      }
    }
  }

  /** What the user interface is told about the messages of a channel, up to its close. */
  function Told(msgs: seq<ChannelMsg>): seq<SessionEvent> {
    if msgs == [] || msgs[0].Close? then []
    else
      (match EventOf(msgs[0])
       case Some(ShellData(d)) => [Output(d)]
       case Some(ShellStderr(d)) => [Stderr(d)]
       case Some(ShellExit(s)) => [ExitStatus(s)]
       case _ => [])
      + Told(msgs[1..])
  }

  lemma {:induction false} ToldConcat(a: seq<ChannelMsg>, b: seq<ChannelMsg>)
    ensures Told(a) <= Told(a + b)
    ensures Close !in a ==> Told(a + b) == Told(a) + Told(b)
  {
    if a == [] {
      assert a + b == b;
    } else {
      assert (a + b)[1..] == a[1..] + b;
      ToldConcat(a[1..], b);
    }
  }

  /** The messages used up by one event tell at most that event. */
  lemma {:induction false} ToldOfConsumed(inbox: seq<ChannelMsg>)
    ensures Told(inbox[..Consumed(inbox)])
         == match FirstEvent(inbox)
            case Some(ShellData(d)) => [Output(d)]
            case Some(ShellStderr(d)) => [Stderr(d)]
            case Some(ShellExit(s)) => [ExitStatus(s)]
            case _ => []
    ensures FirstEvent(inbox) != Some(ShellClosed) ==> Close !in inbox[..Consumed(inbox)]
    ensures FirstEvent(inbox).Some? ==> Consumed(inbox) > 0
    ensures FirstEvent(inbox).None? ==> Consumed(inbox) == |inbox|
  {
    if inbox != [] {
      var n := Consumed(inbox);
      assert inbox[..n][1..] == inbox[1..][..n - 1];
      assert inbox[..n][0] == inbox[0];
      if EventOf(inbox[0]).Some? {
        assert inbox[..1] == [inbox[0]];
      } else {
        ToldOfConsumed(inbox[1..]);
        assert inbox[..n] == [inbox[0]] + inbox[1..][..n - 1];
      }
    }
  }
}
