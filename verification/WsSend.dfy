/**
 * The outgoing queue of a WebSocket connection as a state machine. Handlers posted on the strand and
 * asynchronous writes are kept as collections, so nothing here presumes that there is only one of them.
 */
module WsSend {
  import opened Wrappers
  import opened Bytes

  /** A queued frame. The callback is an identity: which function object is called, if any. */
  datatype SendData = SendData(header: bytes, payload: bytes, callback: Option<nat>) {
    function Wire(): bytes { header + payload }
  }

  /** Handlers of the write chain that are ready to run on the strand. */
  datatype Task = StartWrite | HeaderDone(ok: bool) | MessageDone(ok: bool)

  /** An asynchronous write under way, with the bytes it has not yet put on the socket. */
  datatype Write = Write(ofHeader: bool, rest: bytes)

  /** What became of a frame that has left the queue; a failed one had `sent` bytes written. */
  datatype Outcome = Completed(data: SendData) | Failed(data: SendData, sent: nat) | Discarded(data: SendData)

  datatype State = State(
    appends: seq<SendData>,         // posted by `send`, not yet in the queue
    queue: seq<SendData>,           // send_queue
    tasks: seq<Task>,               // ready handlers
    writes: seq<Write>,             // writes on the socket
    wire: bytes,                    // everything ever written to the socket
    sent: nat,                      // history: bytes written since the last StartWrite
    posted: seq<SendData>,          // history: every `send`, in call order
    log: seq<Outcome>,              // history: frames that left the queue
    fired: seq<(nat, bool)>,        // history: callbacks run, with success or failure
    broken: bool                    // begin() was taken on an empty queue
  )

  const INITIAL := State([], [], [], [], [], 0, [], [], [], false)

  datatype Event =
    | Post(data: SendData)                       // `send` is called
    | Append                                     // the strand runs the oldest posted append
    | Run(task: nat, sends: seq<SendData>)       // the strand runs a handler whose callback calls `send`
    | Progress(write: nat, count: nat)           // a write puts bytes on the socket
    | Finish(write: nat, ok: bool)               // a write ends; only a drained one may succeed

  predicate Enabled(st: State, ev: Event) {
    match ev
    case Post(_) => true
    case Append => st.appends != []
    case Run(i, sends) =>
      && i < |st.tasks|
      && (st.tasks[i].StartWrite? || st.tasks[i] == HeaderDone(true) ==> sends == [])
      && (st.queue != [] && st.queue[0].callback == None ==> sends == [])
    case Progress(i, n) => i < |st.writes| && 0 < n <= |st.writes[i].rest|
    case Finish(i, ok) => i < |st.writes| && (ok ==> st.writes[i].rest == [])
  }

  function RemoveAt<T>(s: seq<T>, i: nat): seq<T>
    requires i < |s|
  {
    s[..i] + s[i + 1..]
  }

  function PostSend(st: State, d: SendData): State {
    st.(appends := st.appends + [d], posted := st.posted + [d])
  }

  function PostAll(st: State, ds: seq<SendData>): State {
    st.(appends := st.appends + ds, posted := st.posted + ds)
  }

  lemma PostNothing(st: State)
    ensures PostAll(st, []) == st
  {
    assert st.appends + [] == st.appends && st.posted + [] == st.posted;
  }

  /** The lambda `send` posts: append, and start the chain if the queue was empty. */
  function AppendStep(st: State): State
    requires st.appends != []
  {
    var st := st.(queue := st.queue + [st.appends[0]], appends := st.appends[1..]);
    if |st.queue| == 1 then st.(tasks := st.tasks + [StartWrite]) else st
  }

  /** The callback of the front frame, if it has one, is called with the outcome. */
  function Fire(st: State, ok: bool, sends: seq<SendData>): State
    requires st.queue != []
  {
    if st.queue[0].callback.Some? then
      PostAll(st, sends).(fired := st.fired + [(st.queue[0].callback.value, ok)])
    else st
  }

  function AllDiscarded(ds: seq<SendData>): seq<Outcome> {
    if ds == [] then [] else [Discarded(ds[0])] + AllDiscarded(ds[1..])
  }

  /** The failing front frame and everything behind it leave the queue. */
  function ClearStep(st: State): State
    requires st.queue != []
  {
    st.(queue := [], sent := 0, log := st.log + [Failed(st.queue[0], st.sent)] + AllDiscarded(st.queue[1..]))
  }

  /** A completed front frame leaves the queue, and the next one, if any, is started. */
  function EraseStep(st: State): State
    requires st.queue != []
  {
    var st := st.(queue := st.queue[1..], sent := 0, log := st.log + [Completed(st.queue[0])]);
    if st.queue != [] then st.(tasks := st.tasks + [StartWrite]) else st
  }

  function RunTask(st: State, task: Task, sends: seq<SendData>): State {
    if st.queue == [] then st.(broken := true)
    else
      match task
      case StartWrite => st.(writes := st.writes + [Write(true, st.queue[0].header)])
      case HeaderDone(true) => st.(writes := st.writes + [Write(false, st.queue[0].payload)])
      case MessageDone(true) => EraseStep(Fire(st, true, sends))
      case _ => ClearStep(Fire(st, false, sends))
  }

  function Step(st: State, ev: Event): State
    requires Enabled(st, ev)
  {
    match ev
    case Post(d) => PostSend(st, d)
    case Append => AppendStep(st)
    case Run(i, sends) => RunTask(st.(tasks := RemoveAt(st.tasks, i)), st.tasks[i], sends)
    case Progress(i, n) =>
      var w := st.writes[i];
      st.(writes := st.writes[i := w.(rest := w.rest[n..])], wire := st.wire + w.rest[..n], sent := st.sent + n)
    case Finish(i, ok) =>
      st.(writes := RemoveAt(st.writes, i),
          tasks := st.tasks + [if st.writes[i].ofHeader then HeaderDone(ok) else MessageDone(ok)])
  }

  /** Whole runs from a given state. */
  predicate ValidRun(st: State, evs: seq<Event>)
    decreases |evs|
  {
    evs == [] || (Enabled(st, evs[0]) && ValidRun(Step(st, evs[0]), evs[1..]))
  }

  function Exec(st: State, evs: seq<Event>): State
    requires ValidRun(st, evs)
    decreases |evs|
  {
    if evs == [] then st else Exec(Step(st, evs[0]), evs[1..])
  }

  // ---- The invariant -------------------------------------------------------------------------------

  function Frames(log: seq<Outcome>): seq<SendData> {
    if log == [] then [] else Frames(log[..|log| - 1]) + [log[|log| - 1].data]
  }

  /** The first n bytes of a frame on the socket. */
  function SentPart(d: SendData, n: nat): bytes {
    if n <= |d.Wire()| then d.Wire()[..n] else d.Wire()
  }

  /** The bytes a departed frame left on the socket. */
  function Trace(o: Outcome): bytes {
    match o
    case Completed(d) => d.Wire()
    case Failed(d, n) => SentPart(d, n)
    case Discarded(_) => []
  }

  function Traces(log: seq<Outcome>): bytes {
    if log == [] then [] else Traces(log[..|log| - 1]) + Trace(log[|log| - 1])
  }

  /** The callback calls the departed frames account for: one for a completed or failed frame that has one. */
  function Calls(log: seq<Outcome>): seq<(nat, bool)> {
    if log == [] then []
    else
      var o := log[|log| - 1];
      Calls(log[..|log| - 1]) +
      if o.Discarded? || o.data.callback.None? then [] else [(o.data.callback.value, o.Completed?)]
  }

  /** Exactly one start, header write or message write is pending for a non-empty queue, none otherwise. */
  predicate SingleWriter(st: State) {
    |st.tasks| + |st.writes| == if st.queue == [] then 0 else 1
  }

  predicate TaskProgress(t: Task, sent: nat, header: nat, total: nat) {
    match t
    case StartWrite => sent == 0
    case HeaderDone(ok) => if ok then sent == header else sent <= header
    case MessageDone(ok) => if ok then sent == total else header <= sent <= total
  }

  predicate WriteProgress(w: Write, sent: nat, h: bytes, p: bytes) {
    if w.ofHeader then sent <= |h| && w.rest == h[sent..]
    else |h| <= sent <= |h| + |p| && w.rest == p[sent - |h|..]
  }

  /** The pending step agrees with the number of bytes of the front frame that are on the socket. */
  predicate FrontProgress(st: State) {
    if st.queue == [] then st.sent == 0
    else
      var h, p := st.queue[0].header, st.queue[0].payload;
      && (st.tasks != [] ==> TaskProgress(st.tasks[0], st.sent, |h|, |h| + |p|))
      && (st.writes != [] ==> WriteProgress(st.writes[0], st.sent, h, p))
  }

  function FrontTrace(st: State): bytes {
    if st.queue == [] then [] else Trace(Failed(st.queue[0], st.sent))
  }

  predicate Control(st: State) {
    !st.broken && SingleWriter(st) && FrontProgress(st)
  }

  /** The socket holds what the departed frames left, then the part of the front frame sent so far. */
  predicate WireExact(st: State) {
    st.wire == Traces(st.log) + FrontTrace(st)
  }

  /** Every frame sent is departed, queued or about to be appended, in call order, and callbacks match. */
  predicate Accounted(st: State) {
    && st.posted == Frames(st.log) + st.queue + st.appends
    && st.fired == Calls(st.log)
  }

  predicate Inv(st: State) {
    Control(st) && WireExact(st) && Accounted(st)
  }

  lemma LogOne(log: seq<Outcome>, o: Outcome)
    ensures Traces(log + [o]) == Traces(log) + Trace(o)
    ensures Calls(log + [o]) ==
            Calls(log) + if o.Discarded? || o.data.callback.None? then [] else [(o.data.callback.value, o.Completed?)]
    ensures Frames(log + [o]) == Frames(log) + [o.data]
  {
    assert (log + [o])[..|log + [o]| - 1] == log;
  }

  lemma {:induction false} LogDiscarded(log: seq<Outcome>, ds: seq<SendData>)
    ensures Traces(log + AllDiscarded(ds)) == Traces(log)
    ensures Calls(log + AllDiscarded(ds)) == Calls(log)
    ensures Frames(log + AllDiscarded(ds)) == Frames(log) + ds
    decreases |ds|
  {
    if ds == [] {
      assert log + AllDiscarded(ds) == log;
    } else {
      var log' := log + [Discarded(ds[0])];
      Assoc(log, [Discarded(ds[0])], AllDiscarded(ds[1..]));
      LogOne(log, Discarded(ds[0]));
      LogDiscarded(log', ds[1..]);
      Assoc(Frames(log), [ds[0]], ds[1..]);
      assert [ds[0]] + ds[1..] == ds;
    }
  }

  lemma RunKeepsControl(st: State, i: nat, sends: seq<SendData>)
    requires Control(st) && Enabled(st, Run(i, sends))
    ensures Control(Step(st, Run(i, sends)))
  {}

  lemma AppendKeepsControl(st: State)
    requires Control(st) && st.appends != []
    ensures Control(AppendStep(st))
  {}

  lemma OtherKeepsControl(st: State, ev: Event)
    requires Control(st) && Enabled(st, ev) && (ev.Post? || ev.Progress? || ev.Finish?)
    ensures Control(Step(st, ev))
  {}

  /** Reading and writing the queue: what one step does to the pending work. */
  lemma StepKeepsControl(st: State, ev: Event)
    requires Control(st) && Enabled(st, ev)
    ensures Control(Step(st, ev))
  {
    match ev
    case Run(i, sends) => RunKeepsControl(st, i, sends);
    case Append => AppendKeepsControl(st);
    case _ => OtherKeepsControl(st, ev);
  }

  /** More frames sent by a callback go to the end of the account and of the waiting appends alike. */
  lemma Regroup<T>(all: seq<T>, before: seq<T>, waiting: seq<T>, more: seq<T>)
    requires all == before + waiting
    ensures all + more == before + (waiting + more)
  {}

  /** A failing front frame leaves its prefix on the socket; everything queued behind it leaves nothing. */
  lemma ClearKeepsWire(st: State, sends: seq<SendData>)
    requires WireExact(st) && st.queue != []
    ensures WireExact(ClearStep(Fire(st, false, sends)))
  {
    var failed := Failed(st.queue[0], st.sent);
    LogOne(st.log, failed);
    LogDiscarded(st.log + [failed], st.queue[1..]);
    var st' := ClearStep(Fire(st, false, sends));
    assert FrontTrace(st') == [];
    assert st'.wire == Traces(st'.log);
  }

  lemma ClearKeepsAccount(st: State, sends: seq<SendData>)
    requires Accounted(st) && st.queue != []
    ensures Accounted(ClearStep(Fire(st, false, sends)))
  {
    var front, tail := st.queue[0], st.queue[1..];
    var failed := Failed(front, st.sent);
    LogOne(st.log, failed);
    LogDiscarded(st.log + [failed], tail);
    var st' := ClearStep(Fire(st, false, sends));
    Assoc(Frames(st.log), [front], tail);
    assert [front] + tail == st.queue;
    var before := Frames(st.log) + st.queue;
    assert Frames(st'.log) == before;
    assert Frames(st'.log) + st'.queue == before by { assert before + [] == before; }
    Regroup(st.posted, before, st.appends, sends);
  }

  lemma NothingSent(st: State)
    requires st.sent == 0
    ensures FrontTrace(st) == []
    ensures st.wire == Traces(st.log) ==> WireExact(st)
  {
    assert Traces(st.log) + [] == Traces(st.log);
  }

  lemma WholeFrameSent(st: State)
    requires st.queue != [] && st.sent == |st.queue[0].Wire()|
    ensures FrontTrace(st) == st.queue[0].Wire()
  {}

  lemma EraseKeepsWire(st: State, sends: seq<SendData>)
    requires WireExact(st) && st.queue != [] && st.sent == |st.queue[0].Wire()|
    ensures WireExact(EraseStep(Fire(st, true, sends)))
  {
    LogOne(st.log, Completed(st.queue[0]));
    WholeFrameSent(st);
    NothingSent(EraseStep(Fire(st, true, sends)));
  }

  /** The front frame moves from the queue to the end of the log; callbacks follow. */
  lemma FrontToLog(log: seq<Outcome>, queue: seq<SendData>)
    requires queue != []
    ensures var log' := log + [Completed(queue[0])];
            && Frames(log') + queue[1..] == Frames(log) + queue
            && Calls(log') == Calls(log) + if queue[0].callback.None? then [] else [(queue[0].callback.value, true)]
  {
    LogOne(log, Completed(queue[0]));
    Assoc(Frames(log), [queue[0]], queue[1..]);
    assert [queue[0]] + queue[1..] == queue;
  }

  lemma EraseKeepsAccount(st: State, sends: seq<SendData>)
    requires Accounted(st) && st.queue != []
    ensures Accounted(EraseStep(Fire(st, true, sends)))
  {
    FrontToLog(st.log, st.queue);
    Regroup(st.posted, Frames(st.log) + st.queue, st.appends, sends);
  }

  lemma TakeMore(s: bytes, i: nat, n: nat)
    requires i + n <= |s|
    ensures s[..i + n] == s[..i] + s[i..][..n]
  {}

  lemma DropSum(h: bytes, p: bytes, i: nat)
    requires |h| <= i <= |h| + |p|
    ensures (h + p)[i..] == p[i - |h|..]
  {}

  lemma DropLeft(h: bytes, p: bytes, i: nat, n: nat)
    requires i <= |h| && n <= |h[i..]|
    ensures (h + p)[i..][..n] == h[i..][..n]
  {}

  /** The bytes a write puts on the socket are the next ones of the front frame. */
  lemma ProgressExtendsFront(w: Write, sent: nat, d: SendData, n: nat)
    requires WriteProgress(w, sent, d.header, d.payload) && n <= |w.rest|
    ensures sent + n <= |d.Wire()| && d.Wire()[..sent + n] == d.Wire()[..sent] + w.rest[..n]
  {
    if w.ofHeader {
      DropLeft(d.header, d.payload, sent, n);
    } else {
      DropSum(d.header, d.payload, sent);
    }
    TakeMore(d.Wire(), sent, n);
  }

  lemma ProgressKeepsWire(st: State, n: nat)
    requires Control(st) && WireExact(st) && |st.writes| == 1 && 0 < n <= |st.writes[0].rest|
    ensures WireExact(Step(st, Progress(0, n)))
  {
    var w, d := st.writes[0], st.queue[0];
    ProgressExtendsFront(w, st.sent, d, n);
    var st' := Step(st, Progress(0, n));
    assert FrontTrace(st') == FrontTrace(st) + w.rest[..n];
    Assoc(Traces(st.log), FrontTrace(st), w.rest[..n]);
  }

  lemma AppendKeepsAccount(st: State)
    requires Accounted(st) && st.appends != []
    ensures Accounted(AppendStep(st))
  {
    var next, later := st.appends[0], st.appends[1..];
    assert st.appends == [next] + later;
    Assoc(Frames(st.log) + st.queue, [next], later);
    Assoc(Frames(st.log), st.queue, [next]);
  }

  lemma AppendKeepsWire(st: State)
    requires Control(st) && WireExact(st) && st.appends != []
    ensures WireExact(AppendStep(st))
  {
    assert FrontTrace(AppendStep(st)) == FrontTrace(st);
  }

  lemma RunKeepsWire(st: State, i: nat, sends: seq<SendData>)
    requires Control(st) && WireExact(st) && Enabled(st, Run(i, sends))
    ensures WireExact(Step(st, Run(i, sends)))
  {
    var task := st.tasks[i];
    var st0 := st.(tasks := RemoveAt(st.tasks, i));
    if task == HeaderDone(false) || task == MessageDone(false) {
      ClearKeepsWire(st0, sends);
    } else if task == MessageDone(true) {
      EraseKeepsWire(st0, sends);
    }
  }

  lemma RunKeepsAccount(st: State, i: nat, sends: seq<SendData>)
    requires Control(st) && Accounted(st) && Enabled(st, Run(i, sends))
    ensures Accounted(Step(st, Run(i, sends)))
  {
    var task := st.tasks[i];
    var st0 := st.(tasks := RemoveAt(st.tasks, i));
    if task == HeaderDone(false) || task == MessageDone(false) {
      ClearKeepsAccount(st0, sends);
    } else if task == MessageDone(true) {
      EraseKeepsAccount(st0, sends);
    }
  }

  lemma StepKeepsWire(st: State, ev: Event)
    requires Control(st) && WireExact(st) && Enabled(st, ev)
    ensures WireExact(Step(st, ev))
  {
    match ev
    case Append => AppendKeepsWire(st);
    case Run(i, sends) => RunKeepsWire(st, i, sends);
    case Progress(i, n) => ProgressKeepsWire(st, n);
    case _ =>
  }

  lemma StepKeepsAccount(st: State, ev: Event)
    requires Control(st) && Accounted(st) && Enabled(st, ev)
    ensures Accounted(Step(st, ev))
  {
    match ev
    case Post(d) => Regroup(st.posted, Frames(st.log) + st.queue, st.appends, [d]);
    case Append => AppendKeepsAccount(st);
    case Run(i, sends) => RunKeepsAccount(st, i, sends);
    case _ =>
  }

  /** Every step of the machine keeps the invariant. */
  lemma StepKeepsInv(st: State, ev: Event)
    requires Inv(st) && Enabled(st, ev)
    ensures Inv(Step(st, ev))
  {
    StepKeepsControl(st, ev);
    StepKeepsWire(st, ev);
    StepKeepsAccount(st, ev);
  }

  lemma {:induction false} RunKeepsInv(st: State, evs: seq<Event>)
    requires Inv(st) && ValidRun(st, evs)
    ensures Inv(Exec(st, evs))
    decreases |evs|
  {
    if evs != [] {
      StepKeepsInv(st, evs[0]);
      RunKeepsInv(Step(st, evs[0]), evs[1..]);
    }
  }
}
