/**
 * A whole WebSocket connection: handshake, read loop, outgoing queue, close handshake and membership of the
 * endpoint's set, driven by any interleaving of arrivals, writes, strand handlers and application calls.
 */
module WsEngine {
  import opened Wrappers
  import opened Bytes
  import opened WsFrame
  import S = WsSend
  import R = WsRead

  const CLOSE_OPCODE: byte := 136

  /** A call into the server from application code. */
  datatype Call =
    | Send(opcode: byte, payload: bytes, callback: Option<nat>)
    | SendClose(status: int, reason: bytes, callback: Option<nat>)

  datatype Notice = OnOpen | OnMessage(opcode: byte, payload: bytes) | OnClose(status: int, reason: bytes) | OnError

  /** Which of the endpoint's callbacks are set. */
  datatype Handlers = Handlers(onopen: bool, onmessage: bool, onclose: bool, onerror: bool)

  datatype Life = Handshaking | Answering | Refused | Serving | Aborted

  datatype Engine = Engine(
    handlers: Handlers,
    life: Life,
    residue: bytes,                 // history: what the handshake read past its end
    send: S.State,
    read: R.State,
    closed: bool,                   // Connection::closed
    member: bool,                   // the connection is in the endpoint's set
    notices: seq<Notice>,           // history: callback sites reached
    trace: seq<Notice>              // history: callbacks run
  )

  function Init(handlers: Handlers): Engine {
    Engine(handlers, Handshaking, [], S.INITIAL, R.Start([]), false, false, [], [])
  }

  datatype Event =
    | Answer(residue: bytes, accepted: bool)    // write_handshake: an endpoint matched and accepted, or not
    | HandshakeWritten(ok: bool)
    | Reading(read: R.Event)
    | Writing(write: S.Event)                      // Append, Progress, Finish
    | RunHandler(task: nat, calls: seq<Call>)   // a write handler runs; its callback may call the server
    | App(call: Call)

  /** The payload of a close frame: the status in two bytes, then the reason. */
  function ClosePayload(status: int, reason: bytes): bytes {
    [(status / 256) % 256, status % 256] + reason
  }

  function MakeSend(opcode: byte, payload: bytes, callback: Option<nat>): S.SendData {
    S.SendData(FrameHeader(opcode, |payload|), payload, callback)
  }

  /** The frames some calls enqueue, given whether a close has been sent before them. */
  function Issue(closed: bool, calls: seq<Call>): seq<S.SendData>
    decreases |calls|
  {
    if calls == [] then []
    else
      match calls[0]
      case Send(op, payload, cb) => [MakeSend(op, payload, cb)] + Issue(closed, calls[1..])
      case SendClose(status, reason, cb) =>
        (if closed then [] else [MakeSend(CLOSE_OPCODE, ClosePayload(status, reason), cb)]) + Issue(true, calls[1..])
  }

  predicate Closing(closed: bool, calls: seq<Call>) {
    closed || exists c <- calls :: c.SendClose?
  }

  function MarkCalls(e: Engine, calls: seq<Call>): Engine {
    e.(closed := Closing(e.closed, calls))
  }

  /** Calls made outside a write handler post their frames on the strand. */
  function MakeCalls(e: Engine, calls: seq<Call>): Engine {
    MarkCalls(e, calls).(send := S.PostAll(e.send, Issue(e.closed, calls)))
  }

  predicate IsSet(h: Handlers, n: Notice) {
    match n
    case OnOpen => h.onopen
    case OnMessage(_, _) => h.onmessage
    case OnClose(_, _) => h.onclose
    case OnError => h.onerror
  }

  function Notify(e: Engine, n: Notice): Engine {
    e.(notices := e.notices + [n], trace := if IsSet(e.handlers, n) then e.trace + [n] else e.trace)
  }

  function Open(e: Engine): Engine { Notify(e.(member := true), OnOpen) }

  function Leave(e: Engine, n: Notice): Engine { Notify(e.(member := false), n) }

  /** The empty callback the read loop passes to send_close. */
  const NO_OP: Option<nat> := Some(0)

  /** What a read step means for the connection. */
  function Act(e: Engine, a: R.Action): Engine {
    match a
    case Deliver(op, payload) => Notify(e, OnMessage(op, payload))
    case Pong(op) => MakeCalls(e, [Send(op, [], None)])
    case Close(status, reason) => Leave(MakeCalls(e, [SendClose(status, reason, NO_OP)]), OnClose(status, reason))
    case Error => Leave(e, OnError)
  }

  predicate Reachable(e: Engine) { e.life.Serving? || e.life.Aborted? }

  /** Only a handler that calls a callback makes calls. */
  predicate RunsCallback(s: S.State, i: nat, calls: seq<Call>)
    requires i < |s.tasks|
  {
    calls == [] ||
    (s.queue != [] && s.queue[0].callback.Some? && s.tasks[i] != S.StartWrite && s.tasks[i] != S.HeaderDone(true))
  }

  predicate Enabled(e: Engine, ev: Event) {
    match ev
    case Answer(_, _) => e.life.Handshaking?
    case HandshakeWritten(_) => e.life.Answering?
    case Reading(r) => e.life.Serving? && R.Enabled(e.read, r)
    case Writing(s) => !s.Post? && !s.Run? && S.Enabled(e.send, s)
    case RunHandler(i, calls) => S.Enabled(e.send, S.Run(i, Issue(e.closed, calls))) && RunsCallback(e.send, i, calls)
    case App(_) => Reachable(e)
  }

  /** The actions a read event adds. */
  function NewActions(r: R.State, ev: R.Event): seq<R.Action>
    requires R.Enabled(r, ev)
  {
    match ev
    case Complete => R.Handle(r.phase, r.buffer[..r.got]).1
    case Fail => [R.Error]
    case _ => []
  }

  function ActAll(e: Engine, actions: seq<R.Action>): Engine {
    if actions == [] then e else Act(e, actions[0])
  }

  function Step(e: Engine, ev: Event): Engine
    requires Enabled(e, ev)
  {
    match ev
    case Answer(residue, accepted) => e.(life := if accepted then Answering else Refused, residue := residue)
    case HandshakeWritten(true) => Open(e.(life := Serving, read := R.Start(e.residue)))
    case HandshakeWritten(false) => Leave(e.(life := Aborted), OnError)
    case Reading(r) => ActAll(e.(read := R.Step(e.read, r)), NewActions(e.read, r))
    case Writing(s) => e.(send := S.Step(e.send, s))
    case RunHandler(i, calls) => MarkCalls(e, calls).(send := S.Step(e.send, S.Run(i, Issue(e.closed, calls))))
    case App(call) => MakeCalls(e, [call])
  }

  predicate ValidRun(e: Engine, evs: seq<Event>)
    decreases |evs|
  {
    evs == [] || (Enabled(e, evs[0]) && ValidRun(Step(e, evs[0]), evs[1..]))
  }

  function Exec(e: Engine, evs: seq<Event>): Engine
    requires ValidRun(e, evs)
    decreases |evs|
  {
    if evs == [] then e else Exec(Step(e, evs[0]), evs[1..])
  }
}
