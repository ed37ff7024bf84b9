/** What a whole connection guarantees over every run, whatever the network and the application do. */
module WsEngineTheorems {
  import opened Wrappers
  import opened Bytes
  import opened WsFrame
  import S = WsSend
  import ST = WsSendTheorems
  import R = WsRead
  import RT = WsReadTheorems
  import opened WsEngine

  // ---- Every engine run contains a run of each part ------------------------------------------------

  ghost predicate SendReachable(s: S.State) {
    exists evs :: S.ValidRun(S.INITIAL, evs) && S.Exec(S.INITIAL, evs) == s
  }

  ghost predicate ReadReachable(residue: bytes, r: R.State) {
    exists evs :: R.ValidRun(R.Start(residue), evs) && R.Exec(R.Start(residue), evs) == r
  }

  lemma SendStep(s: S.State, ev: S.Event)
    requires SendReachable(s) && S.Enabled(s, ev)
    ensures SendReachable(S.Step(s, ev))
  {
    var evs :| S.ValidRun(S.INITIAL, evs) && S.Exec(S.INITIAL, evs) == s;
    assert [ev][1..] == [];
    ST.ExecAppend(S.INITIAL, evs, [ev]);
    assert S.Exec(s, [ev]) == S.Step(s, ev);
  }

  lemma {:induction false} SendPosts(s: S.State, ds: seq<S.SendData>)
    requires SendReachable(s)
    ensures SendReachable(S.PostAll(s, ds))
    decreases |ds|
  {
    if ds == [] {
      assert s.appends + [] == s.appends && s.posted + [] == s.posted;
    } else {
      SendStep(s, S.Post(ds[0]));
      SendPosts(S.PostSend(s, ds[0]), ds[1..]);
      assert s.appends + [ds[0]] + ds[1..] == s.appends + ds;
      assert s.posted + [ds[0]] + ds[1..] == s.posted + ds;
    }
  }

  lemma ReadStep(residue: bytes, r: R.State, ev: R.Event)
    requires ReadReachable(residue, r) && R.Enabled(r, ev)
    ensures ReadReachable(residue, R.Step(r, ev))
  {
    var evs :| R.ValidRun(R.Start(residue), evs) && R.Exec(R.Start(residue), evs) == r;
    assert [ev][1..] == [];
    RT.ExecAppend(R.Start(residue), evs, [ev]);
    assert R.Exec(r, [ev]) == R.Step(r, ev);
  }

  ghost predicate Projects(e: Engine) {
    SendReachable(e.send) && (e.life.Serving? ==> ReadReachable(e.residue, e.read))
  }

  lemma ActKeepsParts(e: Engine, actions: seq<R.Action>)
    requires SendReachable(e.send)
    ensures var e' := ActAll(e, actions);
            SendReachable(e'.send) && e'.read == e.read && e'.life == e.life && e'.residue == e.residue
  {
    if actions != [] {
      match actions[0]
      case Pong(op) => SendPosts(e.send, Issue(e.closed, [Send(op, [], None)]));
      case Close(status, reason) => SendPosts(e.send, Issue(e.closed, [SendClose(status, reason, NO_OP)]));
      case _ =>
    }
  }

  lemma StepProjects(e: Engine, ev: Event)
    requires Projects(e) && Enabled(e, ev)
    ensures Projects(Step(e, ev))
  {
    match ev
    case HandshakeWritten(ok) =>
      if ok {
        assert R.ValidRun(R.Start(e.residue), []) && R.Exec(R.Start(e.residue), []) == R.Start(e.residue);
      }
    case Reading(r) =>
      ReadStep(e.residue, e.read, r);
      ActKeepsParts(e.(read := R.Step(e.read, r)), NewActions(e.read, r));
    case Writing(s) => SendStep(e.send, s);
    case RunHandler(i, calls) => SendStep(e.send, S.Run(i, Issue(e.closed, calls)));
    case App(call) => SendPosts(e.send, Issue(e.closed, [call]));
    case _ =>
  }

  // ---- Life cycle ----------------------------------------------------------------------------------

  function NoticeOf(a: R.Action): seq<Notice> {
    match a
    case Deliver(op, payload) => [OnMessage(op, payload)]
    case Pong(_) => []
    case Close(status, reason) => [OnClose(status, reason)]
    case Error => [OnError]
  }

  function NoticesOf(out: seq<R.Action>): seq<Notice> {
    if out == [] then [] else NoticesOf(out[..|out| - 1]) + NoticeOf(out[|out| - 1])
  }

  function Visible(h: Handlers, ns: seq<Notice>): seq<Notice> {
    if ns == [] then []
    else Visible(h, ns[..|ns| - 1]) + if IsSet(h, ns[|ns| - 1]) then [ns[|ns| - 1]] else []
  }

  predicate Ending(n: Notice) { n.OnClose? || n.OnError? }

  predicate Terminal(a: R.Action) { a.Close? || a.Error? }

  /** Only the last thing a read loop does can end it, and it has ended exactly if it did that. */
  predicate OutShape(r: R.State) {
    && (forall i :: 0 <= i < |r.out| - 1 ==> !Terminal(r.out[i]))
    && ((r.phase.Closed? || r.phase.Failed?) <==> r.out != [] && Terminal(r.out[|r.out| - 1]))
  }

  predicate LifeInv(e: Engine) {
    && e.trace == Visible(e.handlers, e.notices)
    && match e.life
       case Aborted => e.notices == [OnError] && !e.member
       case Serving =>
         && OutShape(e.read)
         && e.notices == [OnOpen] + NoticesOf(e.read.out)
         && (e.member <==> !e.read.phase.Closed? && !e.read.phase.Failed?)
       case _ => e.notices == [] && !e.member
  }

  lemma NotifyIsVisible(e: Engine, n: Notice)
    requires e.trace == Visible(e.handlers, e.notices)
    ensures var e' := Notify(e, n); e'.trace == Visible(e'.handlers, e'.notices)
  {
    var ns := e.notices + [n];
    assert ns[..|ns| - 1] == e.notices;
  }

  /** A read event adds at most one action, and ends the loop exactly with a close or an error. */
  lemma NewActionsShape(r: R.State, ev: R.Event)
    requires R.Enabled(r, ev)
    ensures var added := NewActions(r, ev);
            && |added| <= 1 && R.Step(r, ev).out == r.out + added
            && (added != [] ==> R.Reading(r.phase))
            && var r' := R.Step(r, ev);
               (r'.phase.Closed? || r'.phase.Failed?) <==>
               (if added != [] then Terminal(added[0]) else r.phase.Closed? || r.phase.Failed?)
  {
    assert r.out + [] == r.out;
  }

  lemma ReadKeepsOutShape(r: R.State, ev: R.Event)
    requires R.Enabled(r, ev) && OutShape(r)
    ensures OutShape(R.Step(r, ev))
  {
    NewActionsShape(r, ev);
    assert r.out + [] == r.out;
  }

  lemma NoticesExtend(out: seq<R.Action>, a: R.Action)
    ensures [OnOpen] + NoticesOf(out + [a]) == ([OnOpen] + NoticesOf(out)) + NoticeOf(a)
  {
    assert (out + [a])[..|out + [a]| - 1] == out;
  }

  /** A notice, and the membership it leaves, are all an action adds to the life cycle. */
  predicate Noticed(e: Engine, e': Engine, ns: seq<Notice>, member: bool) {
    && e'.trace == Visible(e'.handlers, e'.notices) && e'.notices == e.notices + ns && e'.member == member
    && e'.read == e.read && e'.life == e.life && e'.handlers == e.handlers
  }

  lemma LeaveNotifies(e: Engine, e0: Engine, n: Notice)
    requires e.trace == Visible(e.handlers, e.notices)
    requires e0.trace == e.trace && e0.notices == e.notices && e0.handlers == e.handlers
    requires e0.read == e.read && e0.life == e.life
    ensures Noticed(e, Leave(e0, n), [n], false)
  {
    NotifyIsVisible(e0.(member := false), n);
  }

  /** An action is noticed as it should be, whatever else it does. */
  lemma ActNotifies(e: Engine, a: R.Action)
    requires e.trace == Visible(e.handlers, e.notices)
    ensures Noticed(e, Act(e, a), NoticeOf(a), e.member && !Terminal(a))
  {
    match a
    case Deliver(op, payload) => NotifyIsVisible(e, OnMessage(op, payload));
    case Pong(_) => assert e.notices + [] == e.notices;
    case Close(status, reason) =>
      LeaveNotifies(e, MakeCalls(e, [SendClose(status, reason, NO_OP)]), OnClose(status, reason));
    case Error => LeaveNotifies(e, e, OnError);
  }

  /** One action more keeps the life cycle, whatever made the state e' what it is. */
  lemma LifeAfter(e: Engine, e': Engine, a: R.Action)
    requires LifeInv(e) && e.life.Serving? && R.Reading(e.read.phase)
    requires e'.life.Serving? && e'.trace == Visible(e'.handlers, e'.notices) && OutShape(e'.read)
    requires e'.read.out == e.read.out + [a] && e'.notices == e.notices + NoticeOf(a)
    requires e'.member == (e.member && !Terminal(a))
    ensures LifeInv(e')
  {
    NoticesExtend(e.read.out, a);
  }

  lemma ActingKeepsLife(e: Engine, r: R.Event)
    requires LifeInv(e) && e.life.Serving? && R.Enabled(e.read, r) && NewActions(e.read, r) != []
    requires OutShape(R.Step(e.read, r))
    ensures LifeInv(Step(e, Reading(r)))
  {
    NewActionsShape(e.read, r);
    var a := NewActions(e.read, r)[0];
    assert NewActions(e.read, r) == [a];
    var r' := R.Step(e.read, r);
    ActNotifies(e.(read := r'), a);
    LifeAfter(e, Act(e.(read := r'), a), a);
  }

  lemma ReadingKeepsLife(e: Engine, r: R.Event)
    requires LifeInv(e) && e.life.Serving? && R.Enabled(e.read, r)
    ensures LifeInv(Step(e, Reading(r)))
  {
    ReadKeepsOutShape(e.read, r);
    NewActionsShape(e.read, r);
    if NewActions(e.read, r) == [] {
      assert e.read.out + [] == e.read.out;
    } else {
      ActingKeepsLife(e, r);
    }
  }

  lemma OpeningKeepsLife(e: Engine)
    requires LifeInv(e) && e.life.Answering?
    ensures LifeInv(Step(e, HandshakeWritten(true)))
  {
    NotifyIsVisible(e.(life := Serving, read := R.Start(e.residue), member := true), OnOpen);
  }

  lemma AbortKeepsLife(e: Engine)
    requires LifeInv(e) && e.life.Answering?
    ensures LifeInv(Step(e, HandshakeWritten(false)))
  {
    NotifyIsVisible(e.(life := Aborted, member := false), OnError);
  }

  /** Calls and writes change nothing the life cycle speaks of. */
  predicate SameLife(e: Engine, e': Engine) {
    && e'.life == e.life && e'.read == e.read && e'.member == e.member && e'.handlers == e.handlers
    && e'.notices == e.notices && e'.trace == e.trace
  }

  lemma OthersKeepLife(e: Engine, ev: Event)
    requires Enabled(e, ev) && (ev.Writing? || ev.RunHandler? || ev.App?)
    ensures SameLife(e, Step(e, ev))
  {}

  lemma AnswerKeepsLife(e: Engine, residue: bytes, accepted: bool)
    requires LifeInv(e) && e.life.Handshaking?
    ensures LifeInv(Step(e, Answer(residue, accepted)))
  {}

  lemma StepKeepsLife(e: Engine, ev: Event)
    requires LifeInv(e) && Enabled(e, ev)
    ensures LifeInv(Step(e, ev))
  {
    match ev
    case Answer(residue, accepted) => AnswerKeepsLife(e, residue, accepted);
    case HandshakeWritten(true) => OpeningKeepsLife(e);
    case HandshakeWritten(false) => AbortKeepsLife(e);
    case Reading(r) => ReadingKeepsLife(e, r);
    case _ => OthersKeepLife(e, ev);
  }

  // ---- The invariant -------------------------------------------------------------------------------

  ghost predicate Inv(e: Engine) {
    Projects(e) && LifeInv(e)
  }

  lemma {:induction false} RunKeepsInv(e: Engine, evs: seq<Event>)
    requires Inv(e) && ValidRun(e, evs)
    ensures Inv(Exec(e, evs)) && Exec(e, evs).handlers == e.handlers
    decreases |evs|
  {
    if evs != [] {
      StepProjects(e, evs[0]);
      StepKeepsLife(e, evs[0]);
      RunKeepsInv(Step(e, evs[0]), evs[1..]);
    }
  }

  lemma FromInit(h: Handlers, evs: seq<Event>)
    requires ValidRun(Init(h), evs)
    ensures Inv(Exec(Init(h), evs)) && Exec(Init(h), evs).handlers == h
  {
    assert S.ValidRun(S.INITIAL, []) && S.Exec(S.INITIAL, []) == S.INITIAL;
    RunKeepsInv(Init(h), evs);
  }

  // ---- The theorems --------------------------------------------------------------------------------

  /** Nothing; or one error; or an open, then messages, then at most one close or error and nothing after. */
  predicate LifeShape(t: seq<Notice>) {
    || t == []
    || t == [OnError]
    || (t[0] == OnOpen && forall i :: 1 <= i < |t| ==> t[i].OnMessage? || (i == |t| - 1 && Ending(t[i])))
  }

  lemma {:induction false} NoticesShape(out: seq<R.Action>)
    requires forall i :: 0 <= i < |out| - 1 ==> !Terminal(out[i])
    ensures var ns := NoticesOf(out);
            && (forall i :: 0 <= i < |ns| ==> ns[i].OnMessage? || (i == |ns| - 1 && Ending(ns[i])))
            && (ns != [] && Ending(ns[|ns| - 1]) <==> out != [] && Terminal(out[|out| - 1]))
  {
    if out != [] {
      NoticesShape(out[..|out| - 1]);
    }
  }

  /** With all callbacks set, all that is noticed is run. */
  lemma {:induction false} AllVisible(ns: seq<Notice>)
    ensures Visible(Handlers(true, true, true, true), ns) == ns
  {
    if ns != [] {
      AllVisible(ns[..|ns| - 1]);
    }
  }

  lemma ServingShape(ns: seq<Notice>)
    requires forall i :: 0 <= i < |ns| ==> ns[i].OnMessage? || (i == |ns| - 1 && Ending(ns[i]))
    ensures var t := [OnOpen] + ns;
            LifeShape(t) && (Ending(t[|t| - 1]) <==> ns != [] && Ending(ns[|ns| - 1]))
  {}

  lemma LifeIsShaped(e: Engine)
    requires LifeInv(e)
    ensures LifeShape(e.notices) && e.trace == Visible(e.handlers, e.notices)
    ensures e.member <==> e.notices != [] && e.notices[0] == OnOpen && !Ending(e.notices[|e.notices| - 1])
  {
    if e.life.Serving? {
      NoticesShape(e.read.out);
      ServingShape(NoticesOf(e.read.out));
    }
  }

  /** The callback of a notice is set. */
  predicate CallbackSet(h: Handlers, n: Notice) {
    && (n.OnOpen? ==> h.onopen) && (n.OnMessage? ==> h.onmessage)
    && (n.OnClose? ==> h.onclose) && (n.OnError? ==> h.onerror)
  }

  lemma {:induction false} VisibleIs(h: Handlers, ns: seq<Notice>, n: Notice)
    ensures n in Visible(h, ns) <==> n in ns && CallbackSet(h, n)
  {
    if ns != [] {
      VisibleIs(h, ns[..|ns| - 1], n);
      assert n in ns <==> n in ns[..|ns| - 1] || n == ns[|ns| - 1];
    }
  }

  /** An error is noticed exactly when the handshake's answer or a read fails. */
  predicate IsFailure(ev: Event) { ev == HandshakeWritten(false) || ev == Reading(R.Fail) }

  lemma ReadingErrs(e: Engine, r: R.Event)
    requires Enabled(e, Reading(r))
    ensures OnError in Step(e, Reading(r)).notices <==> OnError in e.notices || r.Fail?
  {}

  lemma StepErrs(e: Engine, ev: Event)
    requires Enabled(e, ev)
    ensures OnError in Step(e, ev).notices <==> OnError in e.notices || IsFailure(ev)
  {
    if ev.Reading? {
      ReadingErrs(e, ev.read);
    }
  }

  lemma {:induction false} RunErrs(e: Engine, evs: seq<Event>)
    requires ValidRun(e, evs)
    ensures OnError in Exec(e, evs).notices <==> OnError in e.notices || exists ev <- evs :: IsFailure(ev)
    decreases |evs|
  {
    if evs != [] {
      StepErrs(e, evs[0]);
      RunErrs(Step(e, evs[0]), evs[1..]);
      assert evs == [evs[0]] + evs[1..];
    }
  }

  /**
   * Over every run `onerror` is reached exactly if the handshake's answer or a read failed, and every callback is run
   * if it is reached and set, and not otherwise.
   */
  lemma CallbacksExactly(h: Handlers, evs: seq<Event>, n: Notice)
    requires ValidRun(Init(h), evs)
    ensures var e := Exec(Init(h), evs);
            && (OnError in e.notices <==> HandshakeWritten(false) in evs || Reading(R.Fail) in evs)
            && (n in e.trace <==> n in e.notices && CallbackSet(h, n))
  {
    FromInit(h, evs);
    RunErrs(Init(h), evs);
    VisibleIs(h, Exec(Init(h), evs).notices, n);
  }

  /**
   * Over every run the callbacks reached follow the life cycle, the ones run are those of them that are
   * set, and the connection is in its endpoint's set exactly between the open and the close or error.
   */
  lemma LifeCycle(h: Handlers, evs: seq<Event>)
    requires ValidRun(Init(h), evs)
    ensures var e := Exec(Init(h), evs);
            && LifeShape(e.notices)
            && e.trace == Visible(h, e.notices)
            && (h == Handlers(true, true, true, true) ==> e.trace == e.notices)
            && (e.member <==> e.notices != [] && e.notices[0] == OnOpen && !Ending(e.notices[|e.notices| - 1]))
  {
    FromInit(h, evs);
    var e := Exec(Init(h), evs);
    LifeIsShaped(e);
    AllVisible(e.notices);
  }

  function MessagesOf(ns: seq<Notice>): seq<Frame> {
    if ns == [] then []
    else
      MessagesOf(ns[..|ns| - 1]) +
      if ns[|ns| - 1].OnMessage? then [Frame(ns[|ns| - 1].opcode, ns[|ns| - 1].payload)] else []
  }

  lemma {:induction false} DeliveredAppend(out: seq<R.Action>, a: R.Action)
    ensures RT.Delivered(out + [a]) == RT.Delivered(out) + if a.Deliver? then [Frame(a.opcode, a.payload)] else []
    ensures RT.Closes(out + [a]) == RT.Closes(out) + if a.Close? then [a] else []
  {
    if out != [] {
      assert (out + [a])[1..] == out[1..] + [a];
      DeliveredAppend(out[1..], a);
    } else {
      RT.ActionsOfOne(a, []);
      assert out + [a] == [a] + [];
    }
  }

  lemma MessagesAppend(ns: seq<Notice>, n: Notice)
    ensures MessagesOf(ns + [n]) == MessagesOf(ns) + if n.OnMessage? then [Frame(n.opcode, n.payload)] else []
  {
    assert (ns + [n])[..|ns + [n]| - 1] == ns;
  }

  lemma {:induction false} MessagesAreDelivered(out: seq<R.Action>)
    ensures MessagesOf([OnOpen] + NoticesOf(out)) == RT.Delivered(out)
  {
    if out == [] {
      assert [OnOpen][..0] == [];
      assert [OnOpen] + NoticesOf(out) == [OnOpen];
    } else {
      var init, last := out[..|out| - 1], out[|out| - 1];
      MessagesAreDelivered(init);
      assert init + [last] == out;
      DeliveredAppend(init, last);
      var before := [OnOpen] + NoticesOf(init);
      if last.Pong? {
        assert [OnOpen] + NoticesOf(out) == before;
      } else {
        assert [OnOpen] + NoticesOf(out) == before + [NoticeOf(last)[0]];
        MessagesAppend(before, NoticeOf(last)[0]);
      }
    }
  }

  /** With `onmessage` set, every message noticed is handed to it. */
  lemma {:induction false} VisibleMessages(h: Handlers, ns: seq<Notice>)
    requires h.onmessage
    ensures MessagesOf(Visible(h, ns)) == MessagesOf(ns)
  {
    if ns != [] {
      var init, last := ns[..|ns| - 1], ns[|ns| - 1];
      VisibleMessages(h, init);
      if IsSet(h, last) {
        MessagesAppend(Visible(h, init), last);
      } else {
        assert Visible(h, init) + [] == Visible(h, init) && MessagesOf(init) + [] == MessagesOf(init);
      }
    }
  }

  lemma LoopDelivers(residue: bytes, r: R.State, ms: seq<RT.Masked>)
    requires ReadReachable(residue, r) && RT.Idle(r) && r.stream == RT.EncodeAllMasked(ms)
    requires forall m <- ms :: RT.Readable(m)
    ensures RT.Delivered(r.out) == RT.WithoutPings(RT.BeforeClose(RT.Seen(ms, |residue|)))
    ensures RT.Closes(r.out) == RT.FirstClose(RT.Seen(ms, |residue|))
    ensures residue == [] ==> RT.Seen(ms, |residue|) == ms
  {
    var rs :| R.ValidRun(R.Start(residue), rs) && R.Exec(R.Start(residue), rs) == r;
    RT.MessagesArriveIntact(residue, ms, rs);
  }

  /**
   * End to end: whatever the application sends meanwhile and however the client's masked frames arrive,
   * once the read loop is idle the site that calls `onmessage`, and `onmessage` if it is set, has been given exactly
   * the non-ping frames before the first close, in order, unmasked, of the frames that end before the last bytes, as
   * many as the handshake left over.
   */
  lemma MessagesReachTheApplication(h: Handlers, evs: seq<Event>, ms: seq<RT.Masked>)
    requires ValidRun(Init(h), evs)
    requires var e := Exec(Init(h), evs);
             e.life.Serving? && RT.Idle(e.read) && e.read.stream == RT.EncodeAllMasked(ms)
    requires forall m <- ms :: RT.Readable(m)
    ensures var e := Exec(Init(h), evs);
            && MessagesOf(e.notices) == RT.WithoutPings(RT.BeforeClose(RT.Seen(ms, |e.residue|)))
            && (h.onmessage ==> MessagesOf(e.trace) == RT.WithoutPings(RT.BeforeClose(RT.Seen(ms, |e.residue|))))
    ensures Exec(Init(h), evs).residue == [] ==> RT.Seen(ms, |Exec(Init(h), evs).residue|) == ms
  {
    FromInit(h, evs);
    var e := Exec(Init(h), evs);
    LoopDelivers(e.residue, e.read, ms);
    MessagesAreDelivered(e.read.out);
    if h.onmessage {
      VisibleMessages(h, e.notices);
    }
  }

  function OnCloses(ns: seq<Notice>): seq<Notice> {
    if ns == [] then []
    else OnCloses(ns[..|ns| - 1]) + if ns[|ns| - 1].OnClose? then [ns[|ns| - 1]] else []
  }

  function AsOnClose(closes: seq<R.Action>): seq<Notice> {
    if closes == [] then []
    else
      var last := closes[|closes| - 1];
      AsOnClose(closes[..|closes| - 1]) + if last.Close? then [OnClose(last.status, last.reason)] else []
  }

  lemma OnClosesAppend(ns: seq<Notice>, n: Notice)
    ensures OnCloses(ns + [n]) == OnCloses(ns) + if n.OnClose? then [n] else []
  {
    assert (ns + [n])[..|ns + [n]| - 1] == ns;
  }

  lemma AsOnCloseAppend(closes: seq<R.Action>, a: R.Action)
    requires a.Close?
    ensures AsOnClose(closes + [a]) == AsOnClose(closes) + [OnClose(a.status, a.reason)]
  {
    assert (closes + [a])[..|closes + [a]| - 1] == closes;
  }

  lemma OnClosesStep(before: seq<Notice>, closes: seq<R.Action>, a: R.Action)
    requires OnCloses(before) == AsOnClose(closes)
    ensures OnCloses(before + NoticeOf(a)) == AsOnClose(closes + if a.Close? then [a] else [])
  {
    assert before + [] == before && closes + [] == closes;
    match a
    case Close(status, reason) =>
      OnClosesAppend(before, OnClose(status, reason));
      AsOnCloseAppend(closes, a);
    case Deliver(op, payload) => OnClosesAppend(before, OnMessage(op, payload));
    case Pong(_) =>
    case Error => OnClosesAppend(before, OnError);
  }

  lemma {:induction false} ClosesAreNoticed(out: seq<R.Action>)
    ensures OnCloses([OnOpen] + NoticesOf(out)) == AsOnClose(RT.Closes(out))
  {
    if out == [] {
      assert [OnOpen] + [] == [OnOpen] && [OnOpen][..0] == [];
    } else {
      var init, last := out[..|out| - 1], out[|out| - 1];
      ClosesAreNoticed(init);
      InitAndLast(out);
      DeliveredAppend(init, last);
      NoticesExtend(init, last);
      OnClosesStep([OnOpen] + NoticesOf(init), RT.Closes(init), last);
    }
  }

  /** `onclose` is reached once if the client closed, with the status and the reason of its first close frame. */
  lemma CloseReachesTheApplication(h: Handlers, evs: seq<Event>, ms: seq<RT.Masked>)
    requires ValidRun(Init(h), evs)
    requires var e := Exec(Init(h), evs);
             e.life.Serving? && RT.Idle(e.read) && e.read.stream == RT.EncodeAllMasked(ms)
    requires forall m <- ms :: RT.Readable(m)
    ensures var e := Exec(Init(h), evs);
            OnCloses(e.notices) == AsOnClose(RT.FirstClose(RT.Seen(ms, |e.residue|)))
  {
    FromInit(h, evs);
    var e := Exec(Init(h), evs);
    LoopDelivers(e.residue, e.read, ms);
    ClosesAreNoticed(e.read.out);
  }

  lemma StatusBytes(payload: bytes)
    ensures |payload| >= 2 ==> ClosePayload(R.Status(payload[0], payload[1]), payload[2..]) == payload
    ensures |payload| < 2 ==> ClosePayload(0, payload) != payload
  {
    if |payload| >= 2 {
      assert payload == [payload[0], payload[1]] + payload[2..];
    } else {
      assert |ClosePayload(0, payload)| == 2 + |payload|;
    }
  }

  /**
   * A received close frame is answered, unless a close was sent before, by exactly one frame; its payload
   * is the received one if and only if that has the two bytes of a status.
   */
  lemma CloseIsEchoed(e: Engine, mask: RT.Key, payload: bytes)
    requires Enabled(e, Reading(R.Complete)) && !e.closed
    requires e.read.phase.Body? && e.read.phase.opcode % 16 == 8
    requires e.read.buffer[..e.read.got] == mask + ApplyMask(payload, mask)
    ensures var e' := Step(e, Reading(R.Complete));
            && e'.closed && !e'.member
            && exists reply ::
                 && e'.send == S.PostAll(e.send, [MakeSend(CLOSE_OPCODE, reply, NO_OP)])
                 && (reply == payload <==> |payload| >= 2)
  {
    var taken := e.read.buffer[..e.read.got];
    assert taken[..4] == mask && taken[4..] == ApplyMask(payload, mask);
    MaskInvolution(payload, mask);
    var a := R.React(Frame(e.read.phase.opcode, payload));
    assert NewActions(e.read, R.Complete) == [a];
    var reply := ClosePayload(a.status, a.reason);
    var call := SendClose(a.status, a.reason, NO_OP);
    assert Issue(false, [call]) == [MakeSend(CLOSE_OPCODE, reply, NO_OP)] + Issue(true, []);
    StatusBytes(payload);
  }
}
