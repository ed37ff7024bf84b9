/** The close handshake over whole runs, as posted and as the client sees it on the wire. */
module WsCloseTheorems {
  import opened Wrappers
  import opened Bytes
  import opened WsFrame
  import S = WsSend
  import ST = WsSendTheorems
  import R = WsRead
  import RT = WsReadTheorems
  import opened WsEngine
  import opened WsEngineTheorems

  function Replies(a: R.Action): seq<Call> {
    match a
    case Pong(op) => [Send(op, [], None)]
    case Close(status, reason) => [SendClose(status, reason, NO_OP)]
    case _ => []
  }

  /** The calls a step makes into the server: the application's, or the read loop's own. */
  function CallsOf(e: Engine, ev: Event): seq<Call>
    requires Enabled(e, ev)
  {
    match ev
    case Reading(r) => (var added := NewActions(e.read, r); if added == [] then [] else Replies(added[0]))
    case RunHandler(_, calls) => calls
    case App(call) => [call]
    case _ => []
  }

  lemma NothingAdded(e: Engine)
    ensures e.send.posted + [] == e.send.posted
  {}

  lemma ReadIssues(e: Engine, r: R.Event)
    requires Enabled(e, Reading(r))
    ensures var e', calls := Step(e, Reading(r)), CallsOf(e, Reading(r));
            && e'.send.posted == e.send.posted + Issue(e.closed, calls)
            && e'.closed == Closing(e.closed, calls)
  {
    NothingAdded(e);
  }

  lemma HandlerPosts(s: S.State, i: nat, sends: seq<S.SendData>)
    requires S.Enabled(s, S.Run(i, sends))
    requires sends == [] || (s.queue != [] && s.tasks[i] != S.StartWrite && s.tasks[i] != S.HeaderDone(true))
    ensures S.Step(s, S.Run(i, sends)).posted == s.posted + sends
  {
    assert s.posted + [] == s.posted;
  }

  lemma HandlerIssues(e: Engine, i: nat, calls: seq<Call>)
    requires Enabled(e, RunHandler(i, calls))
    ensures var e' := Step(e, RunHandler(i, calls));
            && e'.send.posted == e.send.posted + Issue(e.closed, calls)
            && e'.closed == Closing(e.closed, calls)
  {
    HandlerPosts(e.send, i, Issue(e.closed, calls));
  }

  lemma StepIssues(e: Engine, ev: Event)
    requires Enabled(e, ev)
    ensures var e', calls := Step(e, ev), CallsOf(e, ev);
            && e'.send.posted == e.send.posted + Issue(e.closed, calls)
            && e'.closed == Closing(e.closed, calls)
  {
    NothingAdded(e);
    match ev
    case Reading(r) => ReadIssues(e, r);
    case RunHandler(i, calls) => HandlerIssues(e, i, calls);
    case _ =>
  }

  /** The application's part of an event, which is what a run's assumptions speak of. */
  function AppCalls(ev: Event): seq<Call> {
    match ev
    case RunHandler(_, calls) => calls
    case App(call) => [call]
    case _ => []
  }

  /** The opcode byte of a close frame, whatever its flags. */
  predicate ClosesWith(opcode: byte) { opcode % 16 == 8 }

  predicate IsRawClose(c: Call) { c.Send? && ClosesWith(c.opcode) }

  /** The calls of the application during a run. */
  function AllAppCalls(evs: seq<Event>): seq<Call> {
    if evs == [] then [] else AppCalls(evs[0]) + AllAppCalls(evs[1..])
  }

  /** How many of some calls write a close frame with `send` itself. */
  function RawCloses(calls: seq<Call>): nat {
    if calls == [] then 0 else (if IsRawClose(calls[0]) then 1 else 0) + RawCloses(calls[1..])
  }

  predicate IsCloseSend(d: S.SendData) { d.header != [] && ClosesWith(d.header[0]) }

  function CloseSends(ds: seq<S.SendData>): seq<S.SendData> {
    if ds == [] then [] else (if IsCloseSend(ds[0]) then [ds[0]] else []) + CloseSends(ds[1..])
  }

  lemma {:induction false} CloseSendsConcat(a: seq<S.SendData>, b: seq<S.SendData>)
    ensures CloseSends(a + b) == CloseSends(a) + CloseSends(b)
  {
    if a == [] {
      assert a + b == b;
    } else {
      TailOfConcat(a, b);
      CloseSendsConcat(a[1..], b);
      Assoc(if IsCloseSend(a[0]) then [a[0]] else [], CloseSends(a[1..]), CloseSends(b));
    }
  }

  lemma CloseSendsOne(d: S.SendData, more: seq<S.SendData>)
    ensures CloseSends([d] + more) == (if IsCloseSend(d) then [d] else []) + CloseSends(more)
  {
    assert ([d] + more)[1..] == more;
  }

  lemma {:induction false} IssuedAreBuilt(closed: bool, calls: seq<Call>)
    ensures forall d <- Issue(closed, calls) :: ST.Built(d)
    decreases |calls|
  {
    if calls != [] {
      IssuedAreBuilt(closed || calls[0].SendClose?, calls[1..]);
    }
  }

  /** The bytes of a short close frame: final, opcode 8, unmasked, then the status, high byte first, and the reason. */
  lemma CloseFrameBytes(status: nat, reason: bytes, callback: Option<nat>)
    requires status < 0x1_0000 && |reason| < 124
    ensures MakeSend(CLOSE_OPCODE, ClosePayload(status, reason), callback).Wire() ==
            [0x88, 2 + |reason|, status / 256, status % 256] + reason
  {
    assert ClosePayload(status, reason) == [status / 256, status % 256] + reason;
  }

  /** The frames some calls send, given whether the connection is marked closed. */
  function CallFrames(closed: bool, calls: seq<Call>): seq<Frame>
    decreases |calls|
  {
    if calls == [] then []
    else
      match calls[0]
      case Send(opcode, payload, _) => [Frame(opcode, payload)] + CallFrames(closed, calls[1..])
      case SendClose(status, reason, _) =>
        (if closed then [] else [Frame(0x88, [(status / 256) % 256, status % 256] + reason)]) +
        CallFrames(true, calls[1..])
  }

  lemma NothingInFront(ds: seq<S.SendData>, fs: seq<Frame>)
    ensures [] + ds == ds && [] + fs == fs
  {}

  lemma FramesOfSnoc(ds: seq<S.SendData>, d: S.SendData)
    ensures ST.FramesOf(ds + [d]) == ST.FramesOf(ds) + [ST.FrameOf(d)]
  {
    assert (ds + [d])[..|ds + [d]| - 1] == ds;
  }

  lemma FramesOfOne(d: S.SendData)
    ensures ST.FramesOf([d]) == [ST.FrameOf(d)]
  {
    assert [d][..0] == [];
    assert ST.FramesOf([d]) == ST.FramesOf([]) + [ST.FrameOf(d)];
  }

  lemma {:induction false} FramesOfCons(d: S.SendData, ds: seq<S.SendData>)
    ensures ST.FramesOf([d] + ds) == [ST.FrameOf(d)] + ST.FramesOf(ds)
  {
    if ds == [] {
      assert [d] + ds == [d];
      FramesOfOne(d);
    } else {
      var init, last := ds[..|ds| - 1], ds[|ds| - 1];
      InitAndLast(ds);
      Assoc([d], init, [last]);
      FramesOfCons(d, init);
      FramesOfSnoc([d] + init, last);
      FramesOfSnoc(init, last);
      Assoc([ST.FrameOf(d)], ST.FramesOf(init), [ST.FrameOf(last)]);
    }
  }

  lemma IssuedSend(closed: bool, calls: seq<Call>)
    requires calls != [] && calls[0].Send?
    requires ST.FramesOf(Issue(closed, calls[1..])) == CallFrames(closed, calls[1..])
    ensures ST.FramesOf(Issue(closed, calls)) == CallFrames(closed, calls)
  {
    FramesOfCons(MakeSend(calls[0].opcode, calls[0].payload, calls[0].callback), Issue(closed, calls[1..]));
  }

  lemma IssuedSendClose(closed: bool, calls: seq<Call>)
    requires calls != [] && calls[0].SendClose?
    requires ST.FramesOf(Issue(true, calls[1..])) == CallFrames(true, calls[1..])
    ensures ST.FramesOf(Issue(closed, calls)) == CallFrames(closed, calls)
  {
    var payload := ClosePayload(calls[0].status, calls[0].reason);
    FramesOfCons(MakeSend(CLOSE_OPCODE, payload, calls[0].callback), Issue(true, calls[1..]));
    NothingInFront(Issue(true, calls[1..]), CallFrames(true, calls[1..]));
  }

  /** What is posted for some calls are their frames, in call order. */
  lemma {:induction false} IssuedFrames(closed: bool, calls: seq<Call>)
    ensures ST.FramesOf(Issue(closed, calls)) == CallFrames(closed, calls)
    decreases |calls|
  {
    if calls != [] {
      IssuedFrames(closed || calls[0].SendClose?, calls[1..]);
      if calls[0].Send? {
        IssuedSend(closed, calls);
      } else {
        IssuedSendClose(closed, calls);
      }
    }
  }

  predicate PostedBuilt(e: Engine) { forall d <- e.send.posted :: ST.Built(d) }

  lemma {:induction false} RunKeepsBuilt(e: Engine, evs: seq<Event>)
    requires ValidRun(e, evs) && PostedBuilt(e)
    ensures PostedBuilt(Exec(e, evs))
    decreases |evs|
  {
    if evs != [] {
      StepIssues(e, evs[0]);
      IssuedAreBuilt(e.closed, CallsOf(e, evs[0]));
      RunKeepsBuilt(Step(e, evs[0]), evs[1..]);
    }
  }

  /** The close frames among some frames. */
  function CloseFrames(fs: seq<Frame>): seq<Frame> {
    if fs == [] then []
    else CloseFrames(fs[..|fs| - 1]) + if ClosesWith(fs[|fs| - 1].opcode) then [fs[|fs| - 1]] else []
  }

  lemma CloseSendsSnoc(ds: seq<S.SendData>, d: S.SendData)
    ensures CloseSends(ds + [d]) == if IsCloseSend(d) then CloseSends(ds) + [d] else CloseSends(ds)
  {
    CloseSendsConcat(ds, [d]);
    CloseSendsOne(d, []);
    assert [d] + [] == [d] && CloseSends(ds) + [] == CloseSends(ds);
  }

  lemma CloseFramesSnoc(fs: seq<Frame>, f: Frame)
    ensures CloseFrames(fs + [f]) == if ClosesWith(f.opcode) then CloseFrames(fs) + [f] else CloseFrames(fs)
  {
    assert (fs + [f])[..|fs + [f]| - 1] == fs;
  }

  lemma CloseFramesStep(ds: seq<S.SendData>, d: S.SendData)
    requires ST.Built(d) && CloseFrames(ST.FramesOf(ds)) == ST.FramesOf(CloseSends(ds))
    ensures CloseFrames(ST.FramesOf(ds + [d])) == ST.FramesOf(CloseSends(ds + [d]))
  {
    CloseSendsSnoc(ds, d);
    FramesOfSnoc(ds, d);
    CloseFramesSnoc(ST.FramesOf(ds), ST.FrameOf(d));
    FramesOfSnoc(CloseSends(ds), d);
  }

  lemma {:induction false} CloseFramesMatch(ds: seq<S.SendData>)
    requires forall d <- ds :: ST.Built(d)
    ensures CloseFrames(ST.FramesOf(ds)) == ST.FramesOf(CloseSends(ds))
  {
    if ds != [] {
      var init, last := ds[..|ds| - 1], ds[|ds| - 1];
      assert ds == init + [last] && last in ds;
      CloseFramesMatch(init);
      CloseFramesStep(init, last);
    }
  }

  lemma CloseSendsOfPrefix(ds: seq<S.SendData>, k: nat)
    requires k <= |ds| && forall d <- ds :: ST.Built(d)
    ensures |CloseFrames(ST.FramesOf(ds[..k]))| <= |CloseSends(ds)|
  {
    assert ds == ds[..k] + ds[k..];
    CloseSendsConcat(ds[..k], ds[k..]);
    CloseFramesMatch(ds[..k]);
  }

  // ---- How many close frames are posted -------------------------------------------------------------

  lemma ClosingFirst(closed: bool, calls: seq<Call>)
    requires calls != []
    ensures Closing(closed, calls) <==> calls[0].SendClose? || Closing(closed, calls[1..])
  {
    assert calls == [calls[0]] + calls[1..];
  }

  /** The close frames some calls enqueue: one for each raw one, and one if they are the first to close. */
  lemma {:induction false} CountIssued(closed: bool, calls: seq<Call>)
    ensures |CloseSends(Issue(closed, calls))| ==
            RawCloses(calls) + if !closed && Closing(closed, calls) then 1 else 0
    decreases |calls|
  {
    if calls != [] {
      ClosingFirst(closed, calls);
      match calls[0]
      case Send(op, payload, cb) =>
        CountIssued(closed, calls[1..]);
        CloseSendsOne(MakeSend(op, payload, cb), Issue(closed, calls[1..]));
      case SendClose(status, reason, cb) =>
        CountIssued(true, calls[1..]);
        CloseSendsOne(MakeSend(CLOSE_OPCODE, ClosePayload(status, reason), cb), Issue(true, calls[1..]));
        if closed {
          assert Issue(closed, calls) == [] + Issue(true, calls[1..]) == Issue(true, calls[1..]);
        }
    }
  }

  lemma {:induction false} RawClosesConcat(a: seq<Call>, b: seq<Call>)
    ensures RawCloses(a + b) == RawCloses(a) + RawCloses(b)
  {
    if a == [] {
      assert a + b == b;
    } else {
      assert (a + b)[1..] == a[1..] + b;
      RawClosesConcat(a[1..], b);
    }
  }

  /** The read loop makes no raw close call: a pong's opcode byte is its ping's plus one. */
  lemma NoRawReply(e: Engine, ev: Event)
    requires Enabled(e, ev)
    ensures RawCloses(CallsOf(e, ev)) == RawCloses(AppCalls(ev))
  {
    if ev.Reading? && CallsOf(e, ev) != [] {
      assert CallsOf(e, ev)[1..] == [];
    }
  }

  function Marked(e: Engine): nat { if e.closed then 1 else 0 }

  lemma StepCountsCloses(e: Engine, ev: Event)
    requires Enabled(e, ev)
    ensures var e' := Step(e, ev);
            |CloseSends(e'.send.posted)| + Marked(e) ==
            |CloseSends(e.send.posted)| + RawCloses(AppCalls(ev)) + Marked(e')
  {
    var calls := CallsOf(e, ev);
    StepIssues(e, ev);
    CountIssued(e.closed, calls);
    NoRawReply(e, ev);
    CloseSendsConcat(e.send.posted, Issue(e.closed, calls));
  }

  lemma {:induction false} RunCountsCloses(e: Engine, evs: seq<Event>)
    requires ValidRun(e, evs)
    ensures var e' := Exec(e, evs);
            |CloseSends(e'.send.posted)| + Marked(e) ==
            |CloseSends(e.send.posted)| + RawCloses(AllAppCalls(evs)) + Marked(e')
    decreases |evs|
  {
    if evs != [] {
      StepCountsCloses(e, evs[0]);
      RunCountsCloses(Step(e, evs[0]), evs[1..]);
      RawClosesConcat(AppCalls(evs[0]), AllAppCalls(evs[1..]));
    }
  }

  /** The read loop has closed. */
  predicate LoopClosed(e: Engine) { e.life.Serving? && RT.Closes(e.read.out) != [] }

  /** The connection is marked closed if the application closed it, `own`, or the read loop did, and only then. */
  predicate MarkInv(e: Engine, own: bool) { e.closed <==> own || LoopClosed(e) }

  predicate OwnClose(calls: seq<Call>) { exists c <- calls :: c.SendClose? }

  lemma RepliesClose(a: R.Action)
    ensures OwnClose(Replies(a)) <==> a.Close?
  {
    if a.Close? {
      assert Replies(a)[0] in Replies(a);
    }
  }

  lemma ReadingMarks(e: Engine, r: R.Event, own: bool)
    requires Enabled(e, Reading(r)) && MarkInv(e, own)
    ensures MarkInv(Step(e, Reading(r)), own)
  {
    StepIssues(e, Reading(r));
    NewActionsShape(e.read, r);
    var added := NewActions(e.read, r);
    if added == [] {
      assert e.read.out + [] == e.read.out;
    } else {
      assert added == [added[0]];
      DeliveredAppend(e.read.out, added[0]);
      RepliesClose(added[0]);
    }
  }

  lemma StepMarks(e: Engine, ev: Event, own: bool)
    requires Enabled(e, ev) && MarkInv(e, own)
    ensures MarkInv(Step(e, ev), own || OwnClose(AppCalls(ev)))
  {
    if ev.Reading? {
      ReadingMarks(e, ev.read, own);
    } else {
      StepIssues(e, ev);
    }
  }

  lemma OwnCloseConcat(a: seq<Call>, b: seq<Call>)
    ensures OwnClose(a + b) <==> OwnClose(a) || OwnClose(b)
  {
    assert forall c :: c in a + b <==> c in a || c in b;
  }

  lemma {:induction false} RunMarks(e: Engine, evs: seq<Event>, own: bool)
    requires ValidRun(e, evs) && MarkInv(e, own)
    ensures MarkInv(Exec(e, evs), own || OwnClose(AllAppCalls(evs)))
    decreases |evs|
  {
    if evs != [] {
      StepMarks(e, evs[0], own);
      RunMarks(Step(e, evs[0]), evs[1..], own || OwnClose(AppCalls(evs[0])));
      OwnCloseConcat(AppCalls(evs[0]), AllAppCalls(evs[1..]));
    }
  }

  /**
   * Over every run, whatever the application does: beside the close frames it writes with `send` itself exactly one
   * is posted if it called `send_close` or the read loop closed, and none otherwise; the connection is then marked
   * closed, and only then.
   */
  lemma CloseSentOnce(h: Handlers, evs: seq<Event>)
    requires ValidRun(Init(h), evs)
    ensures var e := Exec(Init(h), evs);
            && (e.closed <==> OwnClose(AllAppCalls(evs)) || LoopClosed(e))
            && |CloseSends(e.send.posted)| == RawCloses(AllAppCalls(evs)) + if e.closed then 1 else 0
  {
    RunCountsCloses(Init(h), evs);
    RunMarks(Init(h), evs, false);
  }

  /** The application never writes a close frame with `send` itself. */
  predicate NoRawClose(evs: seq<Event>) { forall c <- AllAppCalls(evs) :: !IsRawClose(c) }

  lemma {:induction false} NoneRaw(calls: seq<Call>)
    requires forall c <- calls :: !IsRawClose(c)
    ensures RawCloses(calls) == 0
  {
    if calls != [] {
      assert calls[0] in calls && forall c <- calls[1..] :: c in calls;
      NoneRaw(calls[1..]);
    }
  }

  /**
   * Whatever the interleaving, until a write fails an RFC 6455 client reads from the wire exactly the first
   * frames sent, in call order, and among them at most one close frame, as long as the application leaves
   * closing to `send_close`.
   */
  lemma ClientReadsAtMostOneClose(h: Handlers, evs: seq<Event>)
    requires ValidRun(Init(h), evs) && NoRawClose(evs)
    requires var s := Exec(Init(h), evs).send;
             ST.NoFailure(s.log) && forall d <- s.posted :: |d.payload| < MAX_LENGTH
    ensures var s := Exec(Init(h), evs).send;
            && ST.WholeFrames(s) <= |s.posted|
            && ParseStream(s.wire) == Stream(ST.FramesOf(s.posted[..ST.WholeFrames(s)]), Incomplete)
            && |CloseFrames(ParseStream(s.wire).frames)| <= 1
  {
    FromInit(h, evs);
    RunKeepsBuilt(Init(h), evs);
    CloseSentOnce(h, evs);
    NoneRaw(AllAppCalls(evs));
    var s := Exec(Init(h), evs).send;
    var ss :| S.ValidRun(S.INITIAL, ss) && S.Exec(S.INITIAL, ss) == s;
    ST.ClientReadsSends(ss);
    CloseSendsOfPrefix(s.posted, ST.WholeFrames(s));
  }

  /** Once everything sent is written, the client has read all of it. */
  lemma DrainedIsRead(s: S.State)
    requires SendReachable(s) && ST.NoFailure(s.log) && ST.Drained(s) && forall d <- s.posted :: ST.Framed(d)
    ensures ParseStream(s.wire) == Stream(ST.FramesOf(s.posted), Incomplete)
  {
    var ss :| S.ValidRun(S.INITIAL, ss) && S.Exec(S.INITIAL, ss) == s;
    ST.ClientReadsSends(ss);
    ST.Conservation(ss);
    assert s.posted[..|s.log|] == s.posted;
  }

  // ---- A close frame that does not come back --------------------------------------------------------

  lemma RunCons(e: Engine, ev: Event, more: seq<Event>)
    requires Enabled(e, ev) && ValidRun(Step(e, ev), more)
    ensures ValidRun(e, [ev] + more) && Exec(e, [ev] + more) == Exec(Step(e, ev), more)
  {
    assert ([ev] + more)[1..] == more;
  }

  lemma OneByteIssue()
    ensures Issue(false, Replies(R.Close(0, [7]))) == [MakeSend(CLOSE_OPCODE, [0, 0, 7], NO_OP)]
  {
    var call := SendClose(0, [7], NO_OP);
    assert [call][1..] == [];
    assert ClosePayload(0, [7]) == [0, 0, 7];
  }

  /** The payload of a close frame that waits in the buffer behind its mask is read, and the close answered. */
  lemma OneByteRead(e: Engine, mask: RT.Key)
    requires e.life.Serving? && !e.closed && e.send.posted == []
    requires e.read.phase == R.Body(CLOSE_OPCODE, 1) && e.read.got == 5 && e.read.buffer == mask + ApplyMask([7], mask)
    ensures Enabled(e, Reading(R.Complete))
    ensures Step(e, Reading(R.Complete)).send.posted == [MakeSend(CLOSE_OPCODE, [0, 0, 7], NO_OP)]
    ensures Step(e, Reading(R.Complete)).read.stream == e.read.stream
  {
    var taken := e.read.buffer[..e.read.got];
    assert taken == e.read.buffer && taken[..4] == mask && taken[4..] == ApplyMask([7], mask);
    MaskInvolution([7], mask);
    assert NewActions(e.read, R.Complete) == [R.Close(0, [7])];
    StepIssues(e, Reading(R.Complete));
    OneByteIssue();
  }

  /** The frame has arrived as a whole; reading it takes two reads. */
  lemma OneByteArrived(e: Engine, mask: RT.Key) returns (evs: seq<Event>)
    requires e.life.Serving? && !e.closed && e.send.posted == [] && e.read.phase == R.First && e.read.got == 0
    requires e.read.buffer == [] && e.read.socket == [CLOSE_OPCODE, 129] + (mask + ApplyMask([7], mask))
    ensures ValidRun(e, evs) && Exec(e, evs).send.posted == [MakeSend(CLOSE_OPCODE, [0, 0, 7], NO_OP)]
    ensures Exec(e, evs).read.stream == e.read.stream
  {
    var body := mask + ApplyMask([7], mask);
    var e1 := Step(e, Reading(R.Transfer(2)));
    assert e1.read.buffer == [CLOSE_OPCODE, 129] && e1.read.socket == body;
    var e2 := Step(e1, Reading(R.Complete));
    assert e1.read.buffer[..2] == e1.read.buffer;
    assert e2.read.phase == R.Body(CLOSE_OPCODE, 1) && e2.read.buffer == [] && e2.read.socket == body;
    var e3 := Step(e2, Reading(R.Transfer(5)));
    assert e3.read.buffer == body;
    OneByteRead(e3, mask);
    RunCons(e3, Reading(R.Complete), []);
    RunCons(e2, Reading(R.Transfer(5)), [Reading(R.Complete)] + []);
    RunCons(e1, Reading(R.Complete), [Reading(R.Transfer(5))] + ([Reading(R.Complete)] + []));
    evs := [Reading(R.Complete)] + ([Reading(R.Transfer(5))] + ([Reading(R.Complete)] + []));
    RunCons(e, Reading(R.Transfer(2)), evs);
    evs := [Reading(R.Transfer(2))] + evs;
  }

  /** A client that closes with the one byte 7 for a payload is answered with the three bytes 0 0 7. */
  lemma CloseIsNotEchoed(h: Handlers, mask: RT.Key) returns (evs: seq<Event>)
    ensures ValidRun(Init(h), evs)
    ensures Exec(Init(h), evs).read.stream == RT.EncodeMasked(RT.Masked(Frame(CLOSE_OPCODE, [7]), mask))
    ensures Exec(Init(h), evs).send.posted == [MakeSend(CLOSE_OPCODE, [0, 0, 7], NO_OP)]
  {
    var bs := [CLOSE_OPCODE, 129] + (mask + ApplyMask([7], mask));
    assert bs == RT.EncodeMasked(RT.Masked(Frame(CLOSE_OPCODE, [7]), mask));
    var e1 := Step(Init(h), Answer([], true));
    var e2 := Step(e1, HandshakeWritten(true));
    var e3 := Step(e2, Reading(R.Arrive(bs)));
    assert e3.read.socket == bs && e3.read.stream == bs;
    var more := OneByteArrived(e3, mask);
    RunCons(e2, Reading(R.Arrive(bs)), more);
    RunCons(e1, HandshakeWritten(true), [Reading(R.Arrive(bs))] + more);
    evs := [HandshakeWritten(true)] + ([Reading(R.Arrive(bs))] + more);
    RunCons(Init(h), Answer([], true), evs);
    evs := [Answer([], true)] + evs;
  }
}
