/** The connection, endpoint and session objects the server updates in place, step by step as the machine does. */
module WsConnection {
  import opened Wrappers
  import opened Bytes
  import opened WsFrame
  import S = WsSend
  import R = WsRead
  import E = WsEngine

  lemma IssueSplit(closed: bool, call: E.Call, rest: seq<E.Call>)
    ensures E.Issue(closed, [call] + rest) == E.Issue(closed, [call]) + E.Issue(closed || call.SendClose?, rest)
  {
    var after := closed || call.SendClose?;
    assert ([call] + rest)[1..] == rest && [call][1..] == [];
    assert E.Issue(after, []) == [];
    match call
    case Send(op, payload, cb) =>
      assert E.Issue(closed, [call]) == [E.MakeSend(op, payload, cb)];
    case SendClose(status, reason, cb) =>
      var frame := E.MakeSend(E.CLOSE_OPCODE, E.ClosePayload(status, reason), cb);
      assert E.Issue(closed, [call]) == if closed then [] else [frame];
  }

  /** Making the first of some calls leaves the rest to be made. */
  lemma OneCall(st: S.State, closed: bool, call: E.Call, rest: seq<E.Call>)
    ensures var st' := S.PostAll(st, E.Issue(closed, [call]));
            S.PostAll(st', E.Issue(closed || call.SendClose?, rest)) == S.PostAll(st, E.Issue(closed, [call] + rest))
    ensures match call
            case Send(op, payload, cb) =>
              S.PostAll(st, E.Issue(closed, [call])) == S.PostSend(st, E.MakeSend(op, payload, cb))
            case SendClose(status, reason, cb) =>
              S.PostAll(st, E.Issue(closed, [call])) ==
              if closed then st else S.PostSend(st, E.MakeSend(E.CLOSE_OPCODE, E.ClosePayload(status, reason), cb))
  {
    assert ([call] + rest)[1..] == rest && [call][1..] == [];
    var first := E.Issue(closed, [call]);
    var more := E.Issue(closed || call.SendClose?, rest);
    IssueSplit(closed, call, rest);
    Assoc(st.appends, first, more);
    Assoc(st.posted, first, more);
    S.PostNothing(st);
  }

  class Connection {
    var sendQueue: seq<S.SendData>
    var closed: bool
    // The strand and the socket this connection has work on.
    var appends: seq<S.SendData>
    var tasks: seq<S.Task>
    var writes: seq<S.Write>
    // What has happened so far.
    ghost var wire: bytes
    ghost var sent: nat
    ghost var posted: seq<S.SendData>
    ghost var log: seq<S.Outcome>
    ghost var fired: seq<(nat, bool)>

    constructor ()
      ensures SendState() == S.INITIAL && !closed
    {
      sendQueue, closed, appends, tasks, writes := [], false, [], [], [];
      wire, sent, posted, log, fired := [], 0, [], [], [];
    }

    ghost function SendState(): S.State
      reads this
    {
      S.State(appends, sendQueue, tasks, writes, wire, sent, posted, log, fired, false)
    }

    method Send(opcode: byte, payload: bytes, callback: Option<nat>)
      modifies this
      ensures closed == old(closed)
      ensures SendState() == S.PostSend(old(SendState()), E.MakeSend(opcode, payload, callback))
    {
      var header := BuildHeader(opcode, |payload|);
      var data := S.SendData(header, payload, callback);
      appends := appends + [data];
      posted := posted + [data];
    }

    method SendClose(status: int, reason: bytes, callback: Option<nat>)
      modifies this
      ensures closed
      ensures SendState() ==
              if old(closed) then old(SendState())
              else S.PostSend(old(SendState()), E.MakeSend(E.CLOSE_OPCODE, E.ClosePayload(status, reason), callback))
    {
      if closed { return; }
      closed := true;
      var payload := [(status / 256) % 256, status % 256] + reason;
      Send(E.CLOSE_OPCODE, payload, callback);
    }

    /** Application code calls into the server, one call after the other. */
    method MakeCalls(calls: seq<E.Call>)
      modifies this
      ensures closed == E.Closing(old(closed), calls)
      ensures SendState() == S.PostAll(old(SendState()), E.Issue(old(closed), calls))
    {
      var k := 0;
      assert calls[0..] == calls;
      while k < |calls|
        invariant k <= |calls|
        invariant closed == E.Closing(old(closed), calls[..k])
        invariant S.PostAll(SendState(), E.Issue(closed, calls[k..])) ==
                  S.PostAll(old(SendState()), E.Issue(old(closed), calls))
      {
        ghost var before, wasClosed := SendState(), closed;
        assert calls[..k + 1] == calls[..k] + [calls[k]];
        assert calls[k..][1..] == calls[k + 1..];
        match calls[k] {
          case Send(opcode, payload, callback) => Send(opcode, payload, callback);
          case SendClose(status, reason, callback) => SendClose(status, reason, callback);
        }
        OneCall(before, wasClosed, calls[k], calls[k + 1..]);
        assert [calls[k]] + calls[k + 1..] == calls[k..];
        k := k + 1;
      }
      assert calls[..k] == calls;
      S.PostNothing(SendState());
    }

    method SendFromQueue()
      modifies this`tasks
      ensures tasks == old(tasks) + [S.StartWrite]
    {
      tasks := tasks + [S.StartWrite];
    }

    /** The lambda `send` posts on the strand. */
    method RunAppend()
      requires appends != []
      modifies this
      ensures closed == old(closed)
      ensures SendState() == S.AppendStep(old(SendState()))
    {
      sendQueue := sendQueue + [appends[0]];
      appends := appends[1..];
      if |sendQueue| == 1 {
        SendFromQueue();
      }
    }

    method RunCallback(ok: bool, calls: seq<E.Call>)
      requires sendQueue != [] && (sendQueue[0].callback.None? ==> calls == [])
      modifies this
      ensures closed == E.Closing(old(closed), calls)
      ensures SendState() == S.Fire(old(SendState()), ok, E.Issue(old(closed), calls))
    {
      if sendQueue[0].callback.Some? {
        fired := fired + [(sendQueue[0].callback.value, ok)];
        MakeCalls(calls);
      }
    }

    method FinishFront(calls: seq<E.Call>)
      requires sendQueue != [] && (sendQueue[0].callback.None? ==> calls == [])
      modifies this
      ensures closed == E.Closing(old(closed), calls)
      ensures SendState() == S.EraseStep(S.Fire(old(SendState()), true, E.Issue(old(closed), calls)))
    {
      RunCallback(true, calls);
      log := log + [S.Completed(sendQueue[0])];
      sent := 0;
      sendQueue := sendQueue[1..];
      if |sendQueue| > 0 {
        SendFromQueue();
      }
    }

    method FailFront(calls: seq<E.Call>)
      requires sendQueue != [] && (sendQueue[0].callback.None? ==> calls == [])
      modifies this
      ensures closed == E.Closing(old(closed), calls)
      ensures SendState() == S.ClearStep(S.Fire(old(SendState()), false, E.Issue(old(closed), calls)))
    {
      RunCallback(false, calls);
      log := log + [S.Failed(sendQueue[0], sent)] + S.AllDiscarded(sendQueue[1..]);
      sent := 0;
      sendQueue := [];
    }

    /** A ready handler of the write chain runs; `calls` is what the frame's callback does. */
    method RunHandler(i: nat, calls: seq<E.Call>)
      requires i < |tasks| && sendQueue != []
      requires E.RunsCallback(SendState(), i, calls)
      modifies this
      ensures closed == E.Closing(old(closed), calls)
      ensures SendState() ==
              S.RunTask(old(SendState()).(tasks := S.RemoveAt(old(tasks), i)), old(tasks[i]),
                        E.Issue(old(closed), calls))
    {
      var task := tasks[i];
      tasks := tasks[..i] + tasks[i + 1..];
      match task {
        case StartWrite => writes := writes + [S.Write(true, sendQueue[0].header)];
        case HeaderDone(ok) =>
          if ok {
            writes := writes + [S.Write(false, sendQueue[0].payload)];
          } else {
            FailFront(calls);
          }
        case MessageDone(ok) =>
          if ok {
            FinishFront(calls);
          } else {
            FailFront(calls);
          }
      }
    }

    /** The socket takes some bytes of a write. */
    method WriteSome(i: nat, n: nat)
      requires S.Enabled(SendState(), S.Progress(i, n))
      modifies this
      ensures closed == old(closed)
      ensures SendState() == S.Step(old(SendState()), S.Progress(i, n))
    {
      wire := wire + writes[i].rest[..n];
      sent := sent + n;
      writes := writes[i := writes[i].(rest := writes[i].rest[n..])];
    }

    /** A write ends and its handler becomes ready. */
    method EndWrite(i: nat, ok: bool)
      requires S.Enabled(SendState(), S.Finish(i, ok))
      modifies this
      ensures closed == old(closed)
      ensures SendState() == S.Step(old(SendState()), S.Finish(i, ok))
    {
      tasks := tasks + [if writes[i].ofHeader then S.HeaderDone(ok) else S.MessageDone(ok)];
      writes := writes[..i] + writes[i + 1..];
    }
  }

  lemma Distribute(high: nat, low: nat, p: nat)
    ensures high * (256 * p) + low * p == (high * 256 + low) * p
  {}

  lemma ShiftIn(bs: bytes, c: nat)
    requires c < |bs|
    ensures FromBigEndian(bs[..c]) * Pow256(|bs| - c) + bs[c] * Pow256(|bs| - 1 - c) ==
            FromBigEndian(bs[..c + 1]) * Pow256(|bs| - 1 - c)
  {
    assert bs[..c + 1][..c] == bs[..c];
    Distribute(FromBigEndian(bs[..c]), bs[c], Pow256(|bs| - 1 - c));
  }

  /** The bytes of a length, added up with each one shifted to its place. */
  method ReadLength(lengthBytes: bytes) returns (length: nat)
    ensures length == FromBigEndian(lengthBytes)
  {
    length := 0;
    var c := 0;
    while c < |lengthBytes|
      invariant c <= |lengthBytes|
      invariant length == FromBigEndian(lengthBytes[..c]) * Pow256(|lengthBytes| - c)
    {
      ShiftIn(lengthBytes, c);
      length := length + lengthBytes[c] * Pow256(|lengthBytes| - 1 - c);
      c := c + 1;
    }
    assert lengthBytes[..c] == lengthBytes;
  }

  method Unmask(data: bytes, mask: bytes) returns (payload: bytes)
    requires |mask| == 4
    ensures payload == ApplyMask(data, mask)
  {
    payload := [];
    for c := 0 to |data|
      invariant |payload| == c && forall i :: 0 <= i < c ==> payload[i] == Xor(data[i], mask[i % 4])
    {
      payload := payload + [Xor(data[c], mask[c % 4])];
    }
  }

  class Endpoint {
    const handlers: E.Handlers
    var connections: set<Connection>

    constructor (handlers: E.Handlers)
      ensures this.handlers == handlers && connections == {}
    {
      this.handlers := handlers;
      connections := {};
    }
  }

  /** What the asynchronous reads of one accepted connection carry along. */
  class Session {
    const connection: Connection
    const endpoint: Endpoint
    var life: E.Life
    var socket: bytes
    var readBuffer: bytes
    var got: nat
    var phase: R.Phase
    var residue: bytes             // what the handshake read past its end
    var trace: seq<E.Notice>       // the endpoint's callbacks, as called
    ghost var out: seq<R.Action>
    ghost var consumed: bytes
    ghost var partial: bytes
    ghost var stream: bytes
    ghost var notices: seq<E.Notice>

    constructor (connection: Connection, endpoint: Endpoint)
      requires connection.SendState() == S.INITIAL && !connection.closed && connection !in endpoint.connections
      ensures this.connection == connection && this.endpoint == endpoint
      ensures Abs() == E.Init(endpoint.handlers)
    {
      this.connection, this.endpoint := connection, endpoint;
      life, socket, readBuffer, got, phase, trace := E.Handshaking, [], [], 0, R.First, [];
      residue, out, consumed, partial, stream, notices := [], [], [], [], [], [];
    }

    ghost function ReadState(): R.State
      reads this
    {
      R.State(socket, readBuffer, got, phase, out, consumed, partial, stream)
    }

    ghost function Abs(): E.Engine
      reads this, connection, endpoint
    {
      E.Engine(endpoint.handlers, life, residue, connection.SendState(), ReadState(), connection.closed,
               connection in endpoint.connections, notices, trace)
    }

    /** No other connection's membership changes. */
    twostate predicate OthersStay()
      reads endpoint
    {
      endpoint.connections - {connection} == old(endpoint.connections) - {connection}
    }

    method Notify(n: E.Notice)
      modifies this
      ensures Abs() == E.Notify(old(Abs()), n)
    {
      notices := notices + [n];
      if E.IsSet(endpoint.handlers, n) {
        trace := trace + [n];
      }
    }

    method ConnectionOpen()
      modifies this, endpoint
      ensures Abs() == E.Open(old(Abs())) && OthersStay()
    {
      endpoint.connections := endpoint.connections + {connection};
      Notify(E.OnOpen);
    }

    /** `connection_close` and `connection_error`. */
    method ConnectionLeave(n: E.Notice)
      modifies this, endpoint
      ensures Abs() == E.Leave(old(Abs()), n) && OthersStay()
    {
      endpoint.connections := endpoint.connections - {connection};
      Notify(n);
    }

    /** The read loop begins on the buffer the handshake left. */
    method StartReading()
      modifies this`socket, this`readBuffer, this`got, this`phase, this`out, this`consumed, this`partial, this`stream
      ensures ReadState() == R.Start(residue)
    {
      socket, readBuffer, got, phase := [], residue, 0, R.First;
      out, consumed, partial, stream := [], [], [], residue;
    }

    method HandshakeWritten(ok: bool)
      requires E.Enabled(Abs(), E.HandshakeWritten(ok))
      modifies this, endpoint
      ensures Abs() == E.Step(old(Abs()), E.HandshakeWritten(ok)) && OthersStay()
    {
      if ok {
        life := E.Serving;
        StartReading();
        ConnectionOpen();
      } else {
        life := E.Aborted;
        ConnectionLeave(E.OnError);
      }
    }

    /** write_handshake: the request line and headers are parsed, and `leftover` is what remains in the buffer. */
    method Answer(leftover: bytes, accepted: bool)
      requires E.Enabled(Abs(), E.Answer(leftover, accepted))
      modifies this
      ensures Abs() == E.Step(old(Abs()), E.Answer(leftover, accepted))
    {
      residue := leftover;
      life := if accepted then E.Answering else E.Refused;
    }

    method Arrive(bs: bytes)
      requires life.Serving?
      modifies this
      ensures Abs() == E.Step(old(Abs()), E.Reading(R.Arrive(bs)))
    {
      socket := socket + bs;
      stream := stream + bs;
    }

    method Transfer(n: nat)
      requires life.Serving? && R.Enabled(ReadState(), R.Transfer(n))
      modifies this
      ensures Abs() == E.Step(old(Abs()), E.Reading(R.Transfer(n)))
    {
      readBuffer := readBuffer + socket[..n];
      socket := socket[n..];
      got := got + n;
    }

    method ReadFailed()
      requires life.Serving? && R.Reading(phase)
      modifies this, endpoint
      ensures Abs() == E.Step(old(Abs()), E.Reading(R.Fail)) && OthersStay()
    {
      phase := R.Failed;
      out := out + [R.Error];
      ConnectionLeave(E.OnError);
    }

    method Continue(next: R.Phase, taken: bytes)
      requires !next.First?
      modifies this
      ensures Abs() == old(Abs()).(read := old(ReadState()).(phase := next, partial := old(partial) + taken))
    {
      phase := next;
      partial := partial + taken;
    }

    /** Finish a frame: the loop goes on with the next one, or has closed. */
    method Finish(next: R.Phase, taken: bytes, action: R.Action)
      modifies this
      ensures Abs() == old(Abs()).(read := old(ReadState()).(phase := next, out := old(out) + [action],
                                   partial := if next.First? then [] else old(partial) + taken))
    {
      phase := next;
      out := out + [action];
      partial := if next.First? then [] else partial + taken;
    }

    /** What handling some taken bytes makes of the engine. */
    static ghost function After(e: E.Engine, phase: R.Phase, taken: bytes): E.Engine
      requires R.Reading(phase) && |taken| == R.Need(phase)
    {
      var (next, actions) := R.Handle(phase, taken);
      E.ActAll(e.(read := e.read.(phase := next, out := e.read.out + actions,
                                  partial := if next.First? then [] else e.read.partial + taken)), actions)
    }

    /** send_close, then connection_close. */
    method Close(status: nat, reason: bytes)
      modifies this, connection, endpoint
      ensures Abs() == E.Act(old(Abs()), R.Close(status, reason)) && OthersStay()
    {
      var calls := [E.SendClose(status, reason, E.NO_OP)];
      connection.MakeCalls(calls);
      ConnectionLeave(E.OnClose(status, reason));
    }

    method FirstBytes(taken: bytes)
      requires |taken| == 2
      modifies this, connection, endpoint
      ensures Abs() == After(old(Abs()), R.First, taken) && OthersStay()
    {
      if taken[1] < 128 {
        Finish(R.Closed, taken, R.Close(1002, R.UNMASKED_REASON));
        Close(1002, R.UNMASKED_REASON);
      } else {
        var length := taken[1] % 128;
        Continue(if length == 126 then R.Length2(taken[0])
                 else if length == 127 then R.Length8(taken[0])
                 else R.Body(taken[0], length), taken);
      }
    }

    method Length2Bytes(opcode: byte, taken: bytes)
      requires |taken| == 2
      modifies this, connection, endpoint
      ensures Abs() == After(old(Abs()), R.Length2(opcode), taken) && OthersStay()
    {
      var length := ReadLength(taken);
      assert out + [] == out;
      Continue(R.Body(opcode, length), taken);
    }

    method Length8Bytes(opcode: byte, taken: bytes)
      requires |taken| == 8
      modifies this, connection, endpoint
      ensures Abs() == After(old(Abs()), R.Length8(opcode), taken) && OthersStay()
    {
      assert out + [] == out;
      if R.ReadableLength(taken) {
        var length := ReadLength(taken);
        Continue(R.Body(opcode, length), taken);
      } else {
        Continue(R.Unspecified, taken);
      }
    }

    /** The read state behind a frame that did something. */
    static ghost function Finished(r: R.State, taken: bytes, a: R.Action): R.State {
      r.(phase := if a.Close? then R.Closed else R.First, out := r.out + [a],
         partial := if a.Close? then r.partial + taken else [])
    }

    static lemma AfterBody(e: E.Engine, opcode: byte, taken: bytes, payload: bytes)
      requires |taken| >= 4 && payload == ApplyMask(taken[4..], taken[..4])
      ensures var a := R.React(Frame(opcode, payload));
              After(e, R.Body(opcode, |taken| - 4), taken) == E.Act(e.(read := Finished(e.read, taken, a)), a)
    {}

    /** An empty pong. */
    method SendPong(opcode: byte)
      modifies this, connection
      ensures Abs() == E.Act(old(Abs()), R.Pong(opcode))
    {
      var calls := [E.Send(opcode, [], None)];
      connection.MakeCalls(calls);
    }

    method Content(opcode: byte, taken: bytes)
      requires |taken| >= 4
      modifies this, connection, endpoint
      ensures Abs() == After(old(Abs()), R.Body(opcode, |taken| - 4), taken) && OthersStay()
    {
      var payload := Unmask(taken[4..], taken[..4]);
      AfterBody(Abs(), opcode, taken, payload);
      if opcode % 16 == 8 {
        var status: nat, reason := 0, payload;
        if |payload| >= 2 {
          status, reason := R.Status(payload[0], payload[1]), payload[2..];
        }
        Finish(R.Closed, taken, R.Close(status, reason));
        Close(status, reason);
      } else if opcode % 16 == 9 {
        Finish(R.First, taken, R.Pong((opcode + 1) % 256));
        SendPong((opcode + 1) % 256);
      } else {
        Finish(R.First, taken, R.Deliver(opcode, payload));
        Notify(E.OnMessage(opcode, payload));
      }
    }

    /** The outstanding read has all its bytes: its handler takes them and acts. */
    method ReadDone()
      requires life.Serving? && R.Enabled(ReadState(), R.Complete)
      modifies this, connection, endpoint
      ensures Abs() == E.Step(old(Abs()), E.Reading(R.Complete)) && OthersStay()
    {
      var taken := readBuffer[..got];
      readBuffer := readBuffer[got..];
      got := 0;
      consumed := consumed + taken;
      match phase {
        case First => FirstBytes(taken);
        case Length2(opcode) => Length2Bytes(opcode, taken);
        case Length8(opcode) => Length8Bytes(opcode, taken);
        case Body(opcode, length) => Content(opcode, taken);
      }
    }

    /** A completion handler of the write chain runs on the strand, and its callback with it. */
    method RunHandler(i: nat, calls: seq<E.Call>)
      requires E.Enabled(Abs(), E.RunHandler(i, calls)) && connection.sendQueue != []
      modifies this, connection
      ensures Abs() == E.Step(old(Abs()), E.RunHandler(i, calls))
    {
      connection.RunHandler(i, calls);
    }

    method App(call: E.Call)
      requires E.Enabled(Abs(), E.App(call))
      modifies this, connection
      ensures Abs() == E.Step(old(Abs()), E.App(call))
    {
      connection.MakeCalls([call]);
    }
  }
}
