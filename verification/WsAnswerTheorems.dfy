/** What a client reads from a server, whatever the application sends meanwhile: bytes in, bytes out. */
module WsAnswerTheorems {
  import opened Wrappers
  import opened Bytes
  import opened WsFrame
  import S = WsSend
  import ST = WsSendTheorems
  import R = WsRead
  import RT = WsReadTheorems
  import opened WsEngine
  import opened WsEngineTheorems
  import opened WsCloseTheorems

  // ---- Two sequences interleaved -------------------------------------------------------------------

  /** s consists of a and b, each in its own order. */
  predicate IsMerge<T(==)>(s: seq<T>, a: seq<T>, b: seq<T>) {
    if s == [] then a == b == []
    else
      var init, last := s[..|s| - 1], s[|s| - 1];
      || (a != [] && a[|a| - 1] == last && IsMerge(init, a[..|a| - 1], b))
      || (b != [] && b[|b| - 1] == last && IsMerge(init, a, b[..|b| - 1]))
  }

  lemma MergeLeftOne<T>(s: seq<T>, a: seq<T>, b: seq<T>, x: T)
    requires IsMerge(s, a, b)
    ensures IsMerge(s + [x], a + [x], b)
  {
    InitOfConcat(s, x);
    InitOfConcat(a, x);
  }

  lemma MergeRightOne<T>(s: seq<T>, a: seq<T>, b: seq<T>, x: T)
    requires IsMerge(s, a, b)
    ensures IsMerge(s + [x], a, b + [x])
  {
    InitOfConcat(s, x);
    InitOfConcat(b, x);
  }

  lemma MoveOne<T>(s: seq<T>, more: seq<T>)
    requires more != []
    ensures (s + [more[0]]) + more[1..] == s + more
  {}

  lemma {:induction false} MergeLeft<T>(s: seq<T>, a: seq<T>, b: seq<T>, more: seq<T>)
    requires IsMerge(s, a, b)
    ensures IsMerge(s + more, a + more, b)
    decreases |more|
  {
    if more == [] {
      assert s + more == s && a + more == a;
    } else {
      MergeLeftOne(s, a, b, more[0]);
      MergeLeft(s + [more[0]], a + [more[0]], b, more[1..]);
      MoveOne(s, more);
      MoveOne(a, more);
    }
  }

  lemma {:induction false} MergeRight<T>(s: seq<T>, a: seq<T>, b: seq<T>, more: seq<T>)
    requires IsMerge(s, a, b)
    ensures IsMerge(s + more, a, b + more)
    decreases |more|
  {
    if more == [] {
      assert s + more == s && b + more == b;
    } else {
      MergeRightOne(s, a, b, more[0]);
      MergeRight(s + [more[0]], a, b + [more[0]], more[1..]);
      MoveOne(s, more);
      MoveOne(b, more);
    }
  }

  lemma {:induction false} MergeWithNothing<T>(s: seq<T>, b: seq<T>)
    requires IsMerge(s, [], b)
    ensures s == b
  {
    if s != [] {
      MergeWithNothing(s[..|s| - 1], b[..|b| - 1]);
      InitAndLast(s);
      InitAndLast(b);
    }
  }

  /** What is sent interleaved is read interleaved. */
  lemma {:induction false} FramesMerge(s: seq<S.SendData>, a: seq<S.SendData>, b: seq<S.SendData>)
    requires IsMerge(s, a, b)
    ensures IsMerge(ST.FramesOf(s), ST.FramesOf(a), ST.FramesOf(b))
  {
    if s != [] {
      var init, last := s[..|s| - 1], s[|s| - 1];
      InitAndLast(s);
      FramesOfSnoc(init, last);
      if a != [] && a[|a| - 1] == last && IsMerge(init, a[..|a| - 1], b) {
        FramesMerge(init, a[..|a| - 1], b);
        InitAndLast(a);
        FramesOfSnoc(a[..|a| - 1], last);
        MergeLeftOne(ST.FramesOf(init), ST.FramesOf(a[..|a| - 1]), ST.FramesOf(b), ST.FrameOf(last));
      } else {
        FramesMerge(init, a, b[..|b| - 1]);
        InitAndLast(b);
        FramesOfSnoc(b[..|b| - 1], last);
        MergeRightOne(ST.FramesOf(init), ST.FramesOf(a), ST.FramesOf(b[..|b| - 1]), ST.FrameOf(last));
      }
    }
  }

  // ---- The application's sends and the read loop's --------------------------------------------------

  /** The frames the application's calls post over a run, in call order. */
  function FromApp(e: Engine, evs: seq<Event>): seq<S.SendData>
    requires ValidRun(e, evs)
    decreases |evs|
  {
    if evs == [] then [] else Issue(e.closed, AppCalls(evs[0])) + FromApp(Step(e, evs[0]), evs[1..])
  }

  /** The frames these calls send, in call order. */
  function AppFrames(e: Engine, evs: seq<Event>): seq<Frame>
    requires ValidRun(e, evs)
    decreases |evs|
  {
    if evs == [] then [] else CallFrames(e.closed, AppCalls(evs[0])) + AppFrames(Step(e, evs[0]), evs[1..])
  }

  lemma {:induction false} FramesOfJoin(a: seq<S.SendData>, b: seq<S.SendData>)
    ensures ST.FramesOf(a + b) == ST.FramesOf(a) + ST.FramesOf(b)
    decreases |a|
  {
    if a == [] {
      assert a + b == b && ST.FramesOf(a) + ST.FramesOf(b) == ST.FramesOf(b);
    } else {
      TailOfConcat(a, b);
      assert a == [a[0]] + a[1..] && a + b == [a[0]] + (a[1..] + b);
      FramesOfJoin(a[1..], b);
      FramesOfCons(a[0], a[1..]);
      FramesOfCons(a[0], a[1..] + b);
      Assoc([ST.FrameOf(a[0])], ST.FramesOf(a[1..]), ST.FramesOf(b));
    }
  }

  lemma {:induction false} AppFramesAre(e: Engine, evs: seq<Event>)
    requires ValidRun(e, evs)
    ensures ST.FramesOf(FromApp(e, evs)) == AppFrames(e, evs)
    decreases |evs|
  {
    if evs != [] {
      AppFramesAre(Step(e, evs[0]), evs[1..]);
      IssuedFrames(e.closed, AppCalls(evs[0]));
      FramesOfJoin(Issue(e.closed, AppCalls(evs[0])), FromApp(Step(e, evs[0]), evs[1..]));
    }
  }

  /** The calls the application makes until the read loop closes. */
  function CallsBeforeClose(e: Engine, evs: seq<Event>): seq<Call>
    requires ValidRun(e, evs)
    decreases |evs|
  {
    if evs == [] || e.read.phase.Closed? then []
    else AppCalls(evs[0]) + CallsBeforeClose(Step(e, evs[0]), evs[1..])
  }

  /** The application calls `send_close` before the read loop does. */
  predicate AppClosesFirst(e: Engine, evs: seq<Event>)
    requires ValidRun(e, evs)
  {
    OwnClose(CallsBeforeClose(e, evs))
  }

  /** What the read loop posts for an action, given whether the connection is marked closed. */
  function ReplyTo(closed: bool, a: R.Action): seq<S.SendData> { Issue(closed, Replies(a)) }

  function RepliesTo(closed: bool, out: seq<R.Action>): seq<S.SendData> {
    if out == [] then [] else RepliesTo(closed, out[..|out| - 1]) + ReplyTo(closed, out[|out| - 1])
  }

  lemma RepliesAppend(closed: bool, out: seq<R.Action>, a: R.Action)
    ensures RepliesTo(closed, out + [a]) == RepliesTo(closed, out) + ReplyTo(closed, a)
  {
    InitOfConcat(out, a);
  }

  lemma IssueOne(closed: bool, call: Call)
    ensures Issue(closed, [call]) ==
            match call
            case Send(op, payload, cb) => [MakeSend(op, payload, cb)]
            case SendClose(status, reason, cb) =>
              if closed then [] else [MakeSend(CLOSE_OPCODE, ClosePayload(status, reason), cb)]
  {
    assert [call][1..] == [];
    assert Issue(closed, []) == Issue(true, []) == [];
  }

  lemma ReplyIs(closed: bool, a: R.Action)
    ensures ReplyTo(closed, a) ==
            match a
            case Pong(op) => [MakeSend(op, [], None)]
            case Close(status, reason) =>
              if closed then [] else [MakeSend(CLOSE_OPCODE, ClosePayload(status, reason), NO_OP)]
            case _ => []
  {
    match a
    case Pong(op) => IssueOne(closed, Send(op, [], None));
    case Close(status, reason) => IssueOne(closed, SendClose(status, reason, NO_OP));
    case _ =>
  }

  lemma {:induction false} SameReplies(closed: bool, out: seq<R.Action>)
    requires forall i :: 0 <= i < |out| ==> !out[i].Close?
    ensures RepliesTo(closed, out) == RepliesTo(false, out)
  {
    if out != [] {
      SameReplies(closed, out[..|out| - 1]);
      ReplyIs(closed, out[|out| - 1]);
      ReplyIs(false, out[|out| - 1]);
    }
  }

  /**
   * What the read loop has posted answers its actions; `own` says whether the application closed first, which until
   * the loop closes is what the mark says.
   */
  predicate LoopInv(e: Engine, loop: seq<S.SendData>, own: bool) {
    && (!e.life.Serving? ==> e.read.out == [] && !e.read.phase.Closed?)
    && loop == RepliesTo(own, e.read.out)
    && (!e.read.phase.Closed? ==> (e.closed <==> own) && forall i :: 0 <= i < |e.read.out| ==> !e.read.out[i].Close?)
  }

  /** A close action is exactly what closes the read loop. */
  lemma CloseClosesLoop(r: R.State, ev: R.Event)
    requires R.Enabled(r, ev)
    ensures var added, r' := NewActions(r, ev), R.Step(r, ev);
            && (added == [] ==> (r'.phase.Closed? <==> r.phase.Closed?))
            && (added != [] ==> added == [added[0]] && !r.phase.Closed? && (r'.phase.Closed? <==> added[0].Close?))
            && r'.out == r.out + added
  {
    assert r.out + [] == r.out;
  }

  lemma ReadingStep(e: Engine, r: R.Event)
    requires Enabled(e, Reading(r))
    ensures var e' := Step(e, Reading(r));
            e'.life.Serving? && e'.read == R.Step(e.read, r) && e'.closed == Closing(e.closed, CallsOf(e, Reading(r)))
  {
    StepIssues(e, Reading(r));
    NewActionsShape(e.read, r);
  }

  lemma RepliesMark(closed: bool, a: R.Action)
    ensures Closing(closed, Replies(a)) <==> closed || a.Close?
  {
    if a.Close? {
      assert Replies(a)[0] in Replies(a);
    }
  }

  lemma ReadingKeepsLoop(e: Engine, r: R.Event, loop: seq<S.SendData>, own: bool)
    requires Enabled(e, Reading(r)) && LoopInv(e, loop, own)
    ensures LoopInv(Step(e, Reading(r)), loop + Issue(e.closed, CallsOf(e, Reading(r))), own)
  {
    var added := NewActions(e.read, r);
    CloseClosesLoop(e.read, r);
    ReadingStep(e, r);
    if added == [] {
      assert e.read.out + [] == e.read.out && loop + [] == loop;
    } else {
      RepliesMark(e.closed, added[0]);
      RepliesAppend(own, e.read.out, added[0]);
    }
  }

  /** Events other than reads leave the loop's history as it is. */
  lemma OthersKeepLoop(e: Engine, ev: Event, loop: seq<S.SendData>, own: bool)
    requires Enabled(e, ev) && !ev.Reading? && LoopInv(e, loop, own)
    ensures LoopInv(Step(e, ev), loop, own || (!e.read.phase.Closed? && OwnClose(AppCalls(ev))))
  {
    StepIssues(e, ev);
    if !e.read.phase.Closed? {
      SameReplies(own, e.read.out);
      SameReplies(own || OwnClose(AppCalls(ev)), e.read.out);
    }
  }

  /** Once the loop has closed, nothing is counted any more. */
  lemma ClosedStays(e: Engine, evs: seq<Event>)
    requires evs != [] && ValidRun(e, evs)
    requires e.read.phase.Closed? ==> Step(e, evs[0]).read.phase.Closed?
    ensures AppClosesFirst(e, evs) <==>
            !e.read.phase.Closed? && (OwnClose(AppCalls(evs[0])) || AppClosesFirst(Step(e, evs[0]), evs[1..]))
  {
    if !e.read.phase.Closed? {
      OwnCloseConcat(AppCalls(evs[0]), CallsBeforeClose(Step(e, evs[0]), evs[1..]));
    }
  }

  lemma NothingFromReading(e: Engine, evs: seq<Event>)
    requires evs != [] && ValidRun(e, evs) && evs[0].Reading?
    ensures FromApp(e, evs) == FromApp(Step(e, evs[0]), evs[1..])
    ensures AppClosesFirst(e, evs) <==> AppClosesFirst(Step(e, evs[0]), evs[1..])
  {
    var more := FromApp(Step(e, evs[0]), evs[1..]);
    assert [] + more == more;
    CloseClosesLoop(e.read, evs[0].read);
    ReadingStep(e, evs[0].read);
    ClosedStays(e, evs);
  }

  lemma OtherIsApp(e: Engine, evs: seq<Event>)
    requires evs != [] && ValidRun(e, evs) && !evs[0].Reading?
    requires e.read.phase.Closed? ==> Step(e, evs[0]).read.phase.Closed?
    ensures FromApp(e, evs) == Issue(e.closed, CallsOf(e, evs[0])) + FromApp(Step(e, evs[0]), evs[1..])
    ensures AppClosesFirst(e, evs) <==>
            !e.read.phase.Closed? && (OwnClose(AppCalls(evs[0])) || AppClosesFirst(Step(e, evs[0]), evs[1..]))
  {
    ClosedStays(e, evs);
  }

  /** Whatever happens, what is posted is what the application and the loop post, each in its order. */
  lemma {:induction false} RunMerges(e: Engine, evs: seq<Event>, app: seq<S.SendData>, loop: seq<S.SendData>, own: bool)
    returns (loop': seq<S.SendData>)
    requires ValidRun(e, evs) && IsMerge(e.send.posted, app, loop) && LoopInv(e, loop, own)
    ensures IsMerge(Exec(e, evs).send.posted, app + FromApp(e, evs), loop')
    ensures LoopInv(Exec(e, evs), loop', own || AppClosesFirst(e, evs))
    decreases |evs|
  {
    if evs == [] {
      loop' := loop;
      assert app + [] == app;
    } else {
      var ev := evs[0];
      var issued, e' := Issue(e.closed, CallsOf(e, ev)), Step(e, ev);
      StepIssues(e, ev);
      if ev.Reading? {
        MergeRight(e.send.posted, app, loop, issued);
        ReadingKeepsLoop(e, ev.read, loop, own);
        loop' := RunMerges(e', evs[1..], app, loop + issued, own);
        NothingFromReading(e, evs);
      } else {
        MergeLeft(e.send.posted, app, loop, issued);
        OthersKeepLoop(e, ev, loop, own);
        loop' := RunMerges(e', evs[1..], app + issued, loop, own || (!e.read.phase.Closed? && OwnClose(AppCalls(ev))));
        OtherIsApp(e, evs);
        Assoc(app, issued, FromApp(e', evs[1..]));
      }
    }
  }

  // ---- The answers as frames -----------------------------------------------------------------------

  /** The answer to a close frame: its own payload if that holds a status, else the status 0 and the payload. */
  function CloseAnswer(payload: bytes): Frame {
    Frame(0x88, if |payload| >= 2 then payload else [0, 0] + payload)
  }

  /**
   * An empty pong for each ping, and at the first close frame its answer and nothing more; without that answer if
   * the server has closed already.
   */
  function ExpectedAnswers(closed: bool, ms: seq<RT.Masked>): seq<Frame> {
    if ms == [] then []
    else
      var f := ms[0].frame;
      if RT.IsClose(f) then if closed then [] else [CloseAnswer(f.payload)]
      else (if RT.IsPing(f) then [Frame(RT.PongOpcode(f.opcode), [])] else []) + ExpectedAnswers(closed, ms[1..])
  }

  function AnswerFrames(closed: bool, out: seq<R.Action>): seq<Frame> {
    if out == [] then [] else ST.FramesOf(ReplyTo(closed, out[0])) + AnswerFrames(closed, out[1..])
  }

  lemma FramesOfConcat(ds: seq<S.SendData>, closed: bool, a: R.Action)
    ensures ST.FramesOf(ds + ReplyTo(closed, a)) == ST.FramesOf(ds) + ST.FramesOf(ReplyTo(closed, a))
  {
    var more := ReplyTo(closed, a);
    ReplyIs(closed, a);
    if more == [] {
      assert ds + more == ds;
    } else {
      FramesOfSnoc(ds, more[0]);
      FramesOfOne(more[0]);
      assert more == [more[0]];
    }
  }

  lemma {:induction false} AnswersAppend(closed: bool, out: seq<R.Action>, a: R.Action)
    ensures AnswerFrames(closed, out + [a]) == AnswerFrames(closed, out) + ST.FramesOf(ReplyTo(closed, a))
  {
    if out == [] {
      assert ([] + [a])[1..] == [];
    } else {
      TailOfConcat(out, [a]);
      AnswersAppend(closed, out[1..], a);
      Assoc(ST.FramesOf(ReplyTo(closed, out[0])), AnswerFrames(closed, out[1..]), ST.FramesOf(ReplyTo(closed, a)));
    }
  }

  lemma AnswersGrow(closed: bool, out: seq<R.Action>, a: R.Action)
    requires ST.FramesOf(RepliesTo(closed, out)) == AnswerFrames(closed, out)
    ensures ST.FramesOf(RepliesTo(closed, out + [a])) == AnswerFrames(closed, out + [a])
  {
    RepliesAppend(closed, out, a);
    FramesOfConcat(RepliesTo(closed, out), closed, a);
    AnswersAppend(closed, out, a);
  }

  lemma {:induction false} RepliesAreAnswers(closed: bool, out: seq<R.Action>)
    ensures ST.FramesOf(RepliesTo(closed, out)) == AnswerFrames(closed, out)
  {
    if out != [] {
      var init, last := out[..|out| - 1], out[|out| - 1];
      RepliesAreAnswers(closed, init);
      AnswersGrow(closed, init, last);
      InitAndLast(out);
    }
  }

  /** The payload of a close action is put together again, or gets the status 0 in front. */
  lemma CloseReply(payload: bytes)
    ensures ClosePayload(RT.CloseStatus(payload), RT.CloseReason(payload)) == CloseAnswer(payload).payload
  {
    RT.ReactIs(Frame(CLOSE_OPCODE, payload));
    StatusBytes(payload);
    if |payload| < 2 {
      assert ClosePayload(0, payload) == [0, 0] + payload;
    }
  }

  lemma ReplyFrame(closed: bool, f: Frame)
    ensures ST.FramesOf(ReplyTo(closed, R.React(f))) ==
            if RT.IsClose(f) then if closed then [] else [CloseAnswer(f.payload)]
            else if RT.IsPing(f) then [Frame(RT.PongOpcode(f.opcode), [])] else []
  {
    RT.ReactIs(f);
    ReplyIs(closed, R.React(f));
    if RT.IsClose(f) {
      CloseReply(f.payload);
      FramesOfOne(MakeSend(CLOSE_OPCODE, CloseAnswer(f.payload).payload, NO_OP));
    } else if RT.IsPing(f) {
      FramesOfOne(MakeSend(RT.PongOpcode(f.opcode), [], None));
    }
  }

  lemma {:induction false} AnswersToFrames(closed: bool, ms: seq<RT.Masked>)
    requires forall m <- ms :: RT.Readable(m)
    ensures AnswerFrames(closed, R.Decode(RT.EncodeAllMasked(ms))) == ExpectedAnswers(closed, ms)
  {
    if ms == [] {
      R.DecodeNothing([]);
    } else {
      assert ms[0] in ms;
      var f, rest := ms[0].frame, RT.EncodeAllMasked(ms[1..]);
      RT.MaskedRoundTrip(ms[0], rest);
      RT.DecodeWhole(RT.EncodeAllMasked(ms), f, rest);
      AnswersToFrames(closed, ms[1..]);
      ReplyFrame(closed, f);
      RT.ReactIs(f);
      var a := R.React(f);
      assert [a][1..] == [] && ([a] + R.Decode(rest))[1..] == R.Decode(rest);
    }
  }

  lemma LoopAnswers(residue: bytes, r: R.State, ms: seq<RT.Masked>, closed: bool)
    requires ReadReachable(residue, r) && RT.Idle(r) && r.stream == RT.EncodeAllMasked(ms)
    requires forall m <- ms :: RT.Readable(m)
    ensures ST.FramesOf(RepliesTo(closed, r.out)) == ExpectedAnswers(closed, RT.Seen(ms, |residue|))
  {
    var rs :| R.ValidRun(R.Start(residue), rs) && R.Exec(R.Start(residue), rs) == r;
    RT.SeenIsDecoded(residue, ms, rs);
    RT.SeenIsPrefix(ms, |residue|);
    AnswersToFrames(closed, RT.Seen(ms, |residue|));
    RepliesAreAnswers(closed, r.out);
  }

  lemma PostedMerge(h: Handlers, evs: seq<Event>) returns (loop: seq<S.SendData>)
    requires ValidRun(Init(h), evs)
    ensures var e, own := Exec(Init(h), evs), AppClosesFirst(Init(h), evs);
            && IsMerge(e.send.posted, FromApp(Init(h), evs), loop)
            && loop == RepliesTo(own, e.read.out)
  {
    loop := RunMerges(Init(h), evs, [], [], false);
    assert [] + FromApp(Init(h), evs) == FromApp(Init(h), evs);
  }

  /** A client that has read all that was written, after all it sent has been handled. */
  predicate Settled(e: Engine, ms: seq<RT.Masked>) {
    && e.life.Serving? && RT.Idle(e.read) && e.read.stream == RT.EncodeAllMasked(ms)
    && ST.NoFailure(e.send.log) && ST.Drained(e.send)
  }

  /**
   * Bytes in, bytes out, whatever else the application sends and whenever it closes: a client whose frames have all
   * arrived, in whatever pieces, and to which everything posted has been written, in whatever pieces, reads from the
   * wire exactly the application's frames and the server's answers, each in their order: an empty pong for each of
   * its pings up to its first close frame, then the answer to that, unless the application closed before. Of its
   * frames those count that end before the last bytes, as many as the handshake left over.
   */
  lemma ServerAnswersClient(h: Handlers, evs: seq<Event>, ms: seq<RT.Masked>)
    requires ValidRun(Init(h), evs) && Settled(Exec(Init(h), evs), ms) && forall m <- ms :: RT.Readable(m)
    requires forall d <- Exec(Init(h), evs).send.posted :: |d.payload| < MAX_LENGTH
    ensures var e := Exec(Init(h), evs);
            && ParseStream(e.send.wire).tail == Incomplete
            && IsMerge(ParseStream(e.send.wire).frames, AppFrames(Init(h), evs),
                       ExpectedAnswers(AppClosesFirst(Init(h), evs), RT.Seen(ms, |e.residue|)))
    ensures Exec(Init(h), evs).residue == [] ==> RT.Seen(ms, |Exec(Init(h), evs).residue|) == ms
  {
    FromInit(h, evs);
    RunKeepsBuilt(Init(h), evs);
    var e := Exec(Init(h), evs);
    var loop := PostedMerge(h, evs);
    LoopAnswers(e.residue, e.read, ms, AppClosesFirst(Init(h), evs));
    DrainedIsRead(e.send);
    FramesMerge(e.send.posted, FromApp(Init(h), evs), loop);
    AppFramesAre(Init(h), evs);
    RT.SeenIsPrefix(ms, |e.residue|);
  }

  // ---- A silent application ------------------------------------------------------------------------

  lemma {:induction false} AnswersAreSmall(closed: bool, ms: seq<RT.Masked>)
    requires forall m <- ms :: RT.Readable(m)
    ensures forall f <- ExpectedAnswers(closed, ms) :: |f.payload| < MAX_LENGTH
  {
    if ms != [] {
      assert ms[0] in ms;
      AnswersAreSmall(closed, ms[1..]);
    }
  }

  lemma {:induction false} PayloadsOf(ds: seq<S.SendData>)
    requires forall f <- ST.FramesOf(ds) :: |f.payload| < MAX_LENGTH
    ensures forall d <- ds :: |d.payload| < MAX_LENGTH
  {
    if ds != [] {
      var init, last := ds[..|ds| - 1], ds[|ds| - 1];
      assert ST.FramesOf(ds)[|ST.FramesOf(init)|] == ST.FrameOf(last);
      assert forall f <- ST.FramesOf(init) :: f in ST.FramesOf(ds);
      PayloadsOf(init);
      assert ds == init + [last];
    }
  }

  lemma {:induction false} SilentSendsNothing(e: Engine, evs: seq<Event>)
    requires ValidRun(e, evs) && AllAppCalls(evs) == []
    ensures FromApp(e, evs) == [] && CallsBeforeClose(e, evs) == []
    decreases |evs|
  {
    if evs != [] {
      assert AllAppCalls(evs) == AppCalls(evs[0]) + AllAppCalls(evs[1..]);
      SilentSendsNothing(Step(e, evs[0]), evs[1..]);
    }
  }

  /** If the application makes no calls, the client reads the answers and nothing else, whatever their sizes. */
  lemma SilentServerAnswers(h: Handlers, evs: seq<Event>, ms: seq<RT.Masked>)
    requires ValidRun(Init(h), evs) && Settled(Exec(Init(h), evs), ms) && forall m <- ms :: RT.Readable(m)
    requires AllAppCalls(evs) == []
    ensures var e := Exec(Init(h), evs);
            ParseStream(e.send.wire) == Stream(ExpectedAnswers(false, RT.Seen(ms, |e.residue|)), Incomplete)
  {
    var e := Exec(Init(h), evs);
    FromInit(h, evs);
    SilentSendsNothing(Init(h), evs);
    var loop := PostedMerge(h, evs);
    MergeWithNothing(e.send.posted, loop);
    LoopAnswers(e.residue, e.read, ms, false);
    RT.SeenIsPrefix(ms, |e.residue|);
    AnswersAreSmall(false, RT.Seen(ms, |e.residue|));
    PayloadsOf(e.send.posted);
    ServerAnswersClient(h, evs, ms);
    AppFramesAre(Init(h), evs);
    MergeWithNothing(ParseStream(e.send.wire).frames, ExpectedAnswers(false, RT.Seen(ms, |e.residue|)));
  }

  // ---- The close handshake -------------------------------------------------------------------------

  /** The application never closes by itself. */
  predicate NoOwnClose(evs: seq<Event>) { !OwnClose(AllAppCalls(evs)) }

  /** The first close frame a client sends. */
  function FirstCloseFrame(ms: seq<RT.Masked>): Option<Frame> {
    if ms == [] then None else if RT.IsClose(ms[0].frame) then Some(ms[0].frame) else FirstCloseFrame(ms[1..])
  }

  /** The close frames a client ought to read after sending the given frames. */
  function ExpectedClose(ms: seq<RT.Masked>): seq<Frame> {
    match FirstCloseFrame(ms)
    case None => []
    case Some(f) => [CloseAnswer(f.payload)]
  }

  lemma {:induction false} CloseFramesConcat(a: seq<Frame>, b: seq<Frame>)
    ensures CloseFrames(a + b) == CloseFrames(a) + CloseFrames(b)
  {
    if b == [] {
      assert a + b == a && CloseFrames(a) + [] == CloseFrames(a);
    } else {
      var init, last := b[..|b| - 1], b[|b| - 1];
      InitAndLast(b);
      Assoc(a, init, [last]);
      CloseFramesConcat(a, init);
      CloseFramesSnoc(a + init, last);
      CloseFramesSnoc(init, last);
      Assoc(CloseFrames(a), CloseFrames(init), [last]);
    }
  }

  lemma CloseFramesOfOne(f: Frame)
    ensures CloseFrames([f]) == if ClosesWith(f.opcode) then [f] else []
  {
    CloseFramesSnoc([], f);
    assert [] + [f] == [f];
  }

  lemma PongNibble(ping: byte)
    ensures RT.PongOpcode(ping) % 16 == 10
  {
    var high: int := ping / 16;
    assert (high * 16 + 10) % 16 == 10;
  }

  lemma NoCloseInFront(f: Frame, fs: seq<Frame>)
    requires !ClosesWith(f.opcode)
    ensures CloseFrames([f] + fs) == CloseFrames(fs)
  {
    CloseFramesOfOne(f);
    CloseFramesConcat([f], fs);
    assert [] + CloseFrames(fs) == CloseFrames(fs);
  }

  lemma {:induction false} CloseAmongAnswers(ms: seq<RT.Masked>)
    ensures CloseFrames(ExpectedAnswers(false, ms)) == ExpectedClose(ms)
  {
    if ms != [] {
      var f, more := ms[0].frame, ExpectedAnswers(false, ms[1..]);
      if RT.IsClose(f) {
        CloseFramesOfOne(CloseAnswer(f.payload));
      } else {
        CloseAmongAnswers(ms[1..]);
        if RT.IsPing(f) {
          PongNibble(f.opcode);
          NoCloseInFront(Frame(RT.PongOpcode(f.opcode), []), more);
        } else {
          assert [] + more == more;
        }
      }
    }
  }

  lemma {:induction false} CloseOfMerge(s: seq<Frame>, a: seq<Frame>, b: seq<Frame>)
    requires IsMerge(s, a, b) && CloseFrames(a) == []
    ensures CloseFrames(s) == CloseFrames(b)
  {
    if s != [] {
      var init, last := s[..|s| - 1], s[|s| - 1];
      if a != [] && a[|a| - 1] == last && IsMerge(init, a[..|a| - 1], b) {
        CloseOfMerge(init, a[..|a| - 1], b);
      } else {
        CloseOfMerge(init, a, b[..|b| - 1]);
      }
    }
  }

  lemma OwnOfConcat(a: seq<Call>, b: seq<Call>)
    requires !OwnClose(a + b)
    ensures !OwnClose(a) && !OwnClose(b)
  {
    OwnCloseConcat(a, b);
  }

  lemma {:induction false} AppLeavesClosing(e: Engine, evs: seq<Event>)
    requires ValidRun(e, evs) && NoOwnClose(evs) && RawCloses(AllAppCalls(evs)) == 0
    ensures !AppClosesFirst(e, evs) && CloseSends(FromApp(e, evs)) == []
    ensures forall d <- FromApp(e, evs) :: ST.Built(d)
    decreases |evs|
  {
    if evs != [] {
      var calls, more := AppCalls(evs[0]), AllAppCalls(evs[1..]);
      OwnOfConcat(calls, more);
      RawClosesConcat(calls, more);
      AppLeavesClosing(Step(e, evs[0]), evs[1..]);
      CountIssued(e.closed, calls);
      IssuedAreBuilt(e.closed, calls);
      CloseSendsConcat(Issue(e.closed, calls), FromApp(Step(e, evs[0]), evs[1..]));
      OwnCloseConcat(calls, CallsBeforeClose(Step(e, evs[0]), evs[1..]));
    }
  }

  lemma AppFramesLeaveClosing(h: Handlers, evs: seq<Event>)
    requires ValidRun(Init(h), evs) && NoOwnClose(evs) && NoRawClose(evs)
    ensures !AppClosesFirst(Init(h), evs) && CloseFrames(ST.FramesOf(FromApp(Init(h), evs))) == []
  {
    NoneRaw(AllAppCalls(evs));
    AppLeavesClosing(Init(h), evs);
    CloseFramesMatch(FromApp(Init(h), evs));
  }

  /**
   * End to end, bytes in and bytes out: whatever else the application sends, as long as it leaves closing to the
   * server, such a client reads no close frame if it sent none, and otherwise exactly one, the answer to its first;
   * its payload is the client's if and only if that has the two bytes of a status.
   */
  lemma CloseHandshakeCompletes(h: Handlers, evs: seq<Event>, ms: seq<RT.Masked>)
    requires ValidRun(Init(h), evs) && Settled(Exec(Init(h), evs), ms) && forall m <- ms :: RT.Readable(m)
    requires NoOwnClose(evs) && NoRawClose(evs)
    requires forall d <- Exec(Init(h), evs).send.posted :: |d.payload| < MAX_LENGTH
    ensures var e := Exec(Init(h), evs);
            CloseFrames(ParseStream(e.send.wire).frames) == ExpectedClose(RT.Seen(ms, |e.residue|))
    ensures match FirstCloseFrame(RT.Seen(ms, |Exec(Init(h), evs).residue|))
            case None => true
            case Some(f) => CloseAnswer(f.payload).payload == f.payload <==> |f.payload| >= 2
  {
    var e := Exec(Init(h), evs);
    var seen := RT.Seen(ms, |e.residue|);
    AppFramesLeaveClosing(h, evs);
    ServerAnswersClient(h, evs, ms);
    AppFramesAre(Init(h), evs);
    CloseOfMerge(ParseStream(e.send.wire).frames, AppFrames(Init(h), evs), ExpectedAnswers(false, seen));
    CloseAmongAnswers(seen);
  }
}
