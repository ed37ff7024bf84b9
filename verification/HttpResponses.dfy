/**
 * The responses of one HTTP connection: who still holds each of them, the writes on it, the deleter that
 * flushes it, and the request that is read after the flush. Nothing presumes that there is only one.
 */
module HttpResponses {
  import opened Wrappers
  import opened HttpHead
  import HttpContent

  /**
   * What the deleter looks at in a request: the headers, and the number stof gives for the version, if it gives one.
   */
  datatype Request = Request(headers: seq<Header>, version: Option<real>)

  predicate AsksToClose(headers: seq<Header>) {
    exists h <- headers :: HttpContent.SameName(h.0, "Connection") && HttpContent.SameName(h.1, "close")
  }

  /** Another request is read behind this one: version 1.1 or later, and no header field asks to close. */
  predicate KeepsAlive(r: Request) { r.version.Some? && !AsksToClose(r.headers) && r.version.value > 1.05 }

  /** Version 1.1 or later, and no field named connection with the value close, both in letters of any case. */
  predicate Persists(r: Request) {
    && r.version.Some? && r.version.value > 1.05
    && forall h <- r.headers :: !(HttpContent.InAnyCase(h.0, "connection") && HttpContent.InAnyCase(h.1, "close"))
  }

  lemma ConnectionInAnyCase(s: string)
    ensures HttpContent.SameName(s, "Connection") <==> HttpContent.InAnyCase(s, "connection")
  {
    HttpContent.SameNameExactly("Connection", "connection");
    HttpContent.SameNameExactly(s, "connection");
  }

  lemma KeepsAliveIs(r: Request)
    ensures KeepsAlive(r) <==> Persists(r)
  {
    forall s: string
      ensures HttpContent.SameName(s, "Connection") <==> HttpContent.InAnyCase(s, "connection")
    {
      ConnectionInAnyCase(s);
    }
    forall s: string ensures HttpContent.SameName(s, "close") <==> HttpContent.InAnyCase(s, "close") {
      HttpContent.SameNameExactly(s, "close");
    }
  }

  /** Four requests: of these only the first, of version 1.1 and without a field, keeps the connection. */
  lemma PlainRequestPersists(one: Request, two: Request, three: Request, four: Request)
    requires one == Request([], Some(1.1)) && two == Request([("connection", "CLOSE")], Some(1.1))
    requires three == Request([], Some(1.0)) && four == Request([], None)
    ensures KeepsAlive(one) && !KeepsAlive(two) && !KeepsAlive(three) && !KeepsAlive(four)
  {
    var h := ("connection", "CLOSE");
    assert h in two.headers && HttpContent.InAnyCase(h.0, "connection");
    assert HttpContent.InAnyCase(h.1, "close");
    KeepsAliveIs(two);
  }

  datatype Stage = Live | Flushing | Flushed(ok: bool)

  /** `app` references are the handler's and its callbacks', `pending` ones belong to unfinished sends. */
  datatype Response = Response(request: Request, app: nat, pending: nat, stage: Stage)

  datatype State = State(
    pendingReads: nat,                 // request reads under way
    responses: seq<Response>,     // in the order of their requests
    wire: seq<nat>,               // history: for each piece written, the response it belongs to
    flushes: seq<nat>             // history: the responses whose deleter has run
  )

  const INITIAL := State(1, [], [], [])

  datatype Event =
    | Accepted(request: Request)                     // a request is parsed and its handler called
    | Refused                                        // a request is malformed or has no handler
    | Copy(k: nat)
    | Release(k: nat)
    | Send(k: nat)
    | Written(k: nat)                                // a send or flush puts a piece on the socket
    | SendDone(k: nat, ok: bool)
    | FlushDone(k: nat, ok: bool)

  predicate Enabled(st: State, ev: Event) {
    match ev
    case Accepted(_) => st.pendingReads > 0
    case Refused => st.pendingReads > 0
    case Copy(k) => k < |st.responses| && st.responses[k].app > 0
    case Release(k) => k < |st.responses| && st.responses[k].app > 0
    case Send(k) => k < |st.responses| && st.responses[k].app > 0
    case Written(k) => k < |st.responses| && (st.responses[k].pending > 0 || st.responses[k].stage.Flushing?)
    case SendDone(k, _) => k < |st.responses| && st.responses[k].pending > 0
    case FlushDone(k, _) => k < |st.responses| && st.responses[k].stage.Flushing?
  }

  /** The last reference is gone: the deleter runs and flushes the response. */
  function Settle(st: State, k: nat, r: Response): State
    requires k < |st.responses|
  {
    if r.app + r.pending == 0 then
      st.(responses := st.responses[k := r.(stage := Flushing)], flushes := st.flushes + [k])
    else st.(responses := st.responses[k := r])
  }

  function Step(st: State, ev: Event): State
    requires Enabled(st, ev)
  {
    match ev
    case Accepted(request) =>
      st.(pendingReads := st.pendingReads - 1, responses := st.responses + [Response(request, 1, 0, Live)])
    case Refused => st.(pendingReads := st.pendingReads - 1)
    case Copy(k) => var r := st.responses[k]; st.(responses := st.responses[k := r.(app := r.app + 1)])
    case Release(k) => var r := st.responses[k]; Settle(st, k, r.(app := r.app - 1))
    case Send(k) => var r := st.responses[k]; st.(responses := st.responses[k := r.(pending := r.pending + 1)])
    case Written(k) => st.(wire := st.wire + [k])
    case SendDone(k, _) => var r := st.responses[k]; Settle(st, k, r.(pending := r.pending - 1))
    case FlushDone(k, ok) =>
      var next := st.(responses := st.responses[k := st.responses[k].(stage := Flushed(ok))]);
      if ok && KeepsAlive(st.responses[k].request) then next.(pendingReads := st.pendingReads + 1) else next
  }

  predicate ValidRun(st: State, evs: seq<Event>)
    decreases |evs|
  {
    evs == [] || (Enabled(st, evs[0]) && ValidRun(Step(st, evs[0]), evs[1..]))
  }

  function Exec(st: State, evs: seq<Event>): State
    requires ValidRun(st, evs)
    decreases |evs|
  {
    if evs == [] then st else Exec(Step(st, evs[0]), evs[1..])
  }

  // ---- The invariant -------------------------------------------------------------------------------

  /** Only the last response can be unfinished, and only while no request is being read. */
  predicate OneAtATime(st: State) {
    && (forall k :: 0 <= k < |st.responses| - 1 ==> st.responses[k].stage == Flushed(true))
    && st.pendingReads <= 1
    && (st.pendingReads == 1 && st.responses != [] ==> st.responses[|st.responses| - 1].stage == Flushed(true))
  }

  /** A response is live exactly as long as something refers to it. */
  predicate Referenced(st: State) {
    forall k :: 0 <= k < |st.responses| ==>
      (st.responses[k].stage.Live? <==> st.responses[k].app + st.responses[k].pending > 0)
  }

  function UpTo(n: nat): seq<nat> { if n == 0 then [] else UpTo(n - 1) + [n - 1] }

  /** How many responses have been flushed. */
  function FlushCount(st: State): nat {
    if st.responses != [] && st.responses[|st.responses| - 1].stage.Live? then |st.responses| - 1 else |st.responses|
  }

  /** Every response that is no longer live has been flushed, once and in order. */
  predicate FlushedInOrder(st: State) {
    st.flushes == UpTo(FlushCount(st))
  }

  /** Only the last request can be one that does not keep the connection, and then no other is read. */
  predicate KeptAlive(st: State) {
    && (forall k :: 0 <= k < |st.responses| - 1 ==> KeepsAlive(st.responses[k].request))
    && (st.pendingReads > 0 && st.responses != [] ==> KeepsAlive(st.responses[|st.responses| - 1].request))
  }

  predicate Sorted(s: seq<nat>) { forall i, j :: 0 <= i < j < |s| ==> s[i] <= s[j] }

  predicate WireInOrder(st: State) {
    Sorted(st.wire) && forall t <- st.wire :: t < |st.responses|
  }

  predicate Inv(st: State) {
    OneAtATime(st) && Referenced(st) && FlushedInOrder(st) && WireInOrder(st) && KeptAlive(st)
  }

  lemma OnlyLast(st: State, k: nat)
    requires OneAtATime(st) && k < |st.responses| && !st.responses[k].stage.Flushed?
    ensures k == |st.responses| - 1 && st.pendingReads == 0
  {}

  /** The same response, at the same stage as far as references go. */
  predicate SameRequest(r: Response, r': Response) { r'.request == r.request && r'.stage == r.stage }

  /** Counting the last response's references changes nothing else. */
  lemma ReferencesKeepInv(st: State, k: nat, r: Response)
    requires Inv(st) && k == |st.responses| - 1 && SameRequest(st.responses[k], r)
    requires r.stage.Live? <==> r.app + r.pending > 0
    ensures Inv(st.(responses := st.responses[k := r]))
  {}

  lemma FlushKeepsInv(st: State, k: nat, r: Response)
    requires Inv(st) && k == |st.responses| - 1 && st.pendingReads == 0 && st.responses[k].stage.Live?
    requires r.request == st.responses[k].request && r.stage.Flushing? && r.app + r.pending == 0
    ensures Inv(st.(responses := st.responses[k := r], flushes := st.flushes + [k]))
  {
    assert UpTo(k + 1) == UpTo(k) + [k];
  }

  lemma SettleKeepsInv(st: State, k: nat, r: Response)
    requires Inv(st) && k == |st.responses| - 1 && st.pendingReads == 0 && st.responses[k].stage.Live?
    requires SameRequest(st.responses[k], r)
    ensures Inv(Settle(st, k, r))
  {
    if r.app + r.pending == 0 {
      FlushKeepsInv(st, k, r.(stage := Flushing));
    } else {
      ReferencesKeepInv(st, k, r);
    }
  }

  lemma AcceptedKeepsInv(st: State, request: Request)
    requires Inv(st) && st.pendingReads > 0
    ensures Inv(Step(st, Accepted(request)))
  {}

  lemma FlushDoneKeepsInv(st: State, k: nat, ok: bool)
    requires Inv(st) && Enabled(st, FlushDone(k, ok))
    ensures Inv(Step(st, FlushDone(k, ok)))
  {
    OnlyLast(st, k);
  }

  lemma WrittenKeepsInv(st: State, k: nat)
    requires Inv(st) && Enabled(st, Written(k))
    ensures Inv(Step(st, Written(k)))
  {
    OnlyLast(st, k);
    assert forall i :: 0 <= i < |st.wire| ==> st.wire[i] in st.wire;
  }

  lemma StepKeepsInv(st: State, ev: Event)
    requires Inv(st) && Enabled(st, ev)
    ensures Inv(Step(st, ev))
  {
    match ev
    case Accepted(request) => AcceptedKeepsInv(st, request);
    case Refused =>
    case Copy(k) =>
      OnlyLast(st, k);
      ReferencesKeepInv(st, k, st.responses[k].(app := st.responses[k].app + 1));
    case Release(k) =>
      OnlyLast(st, k);
      SettleKeepsInv(st, k, st.responses[k].(app := st.responses[k].app - 1));
    case Send(k) =>
      OnlyLast(st, k);
      ReferencesKeepInv(st, k, st.responses[k].(pending := st.responses[k].pending + 1));
    case SendDone(k, _) =>
      OnlyLast(st, k);
      SettleKeepsInv(st, k, st.responses[k].(pending := st.responses[k].pending - 1));
    case Written(k) => WrittenKeepsInv(st, k);
    case FlushDone(k, ok) => FlushDoneKeepsInv(st, k, ok);
  }

  lemma {:induction false} RunKeepsInv(st: State, evs: seq<Event>)
    requires Inv(st) && ValidRun(st, evs)
    ensures Inv(Exec(st, evs))
    decreases |evs|
  {
    if evs != [] {
      StepKeepsInv(st, evs[0]);
      RunKeepsInv(Step(st, evs[0]), evs[1..]);
    }
  }

  // ---- The theorems --------------------------------------------------------------------------------

  /** The responses whose pieces are written during a run, piece by piece. */
  function Pieces(evs: seq<Event>): seq<nat> {
    if evs == [] then [] else (if evs[0].Written? then [evs[0].k] else []) + Pieces(evs[1..])
  }

  lemma {:induction false} WireIsPieces(st: State, evs: seq<Event>)
    requires ValidRun(st, evs)
    ensures Exec(st, evs).wire == st.wire + Pieces(evs)
    decreases |evs|
  {
    if evs != [] {
      WireIsPieces(Step(st, evs[0]), evs[1..]);
    }
  }

  /** Over every run, whatever handlers do with their responses, these go out in the order of the requests. */
  lemma ResponsesLeaveInOrder(evs: seq<Event>)
    requires ValidRun(INITIAL, evs)
    ensures Exec(INITIAL, evs).wire == Pieces(evs)
    ensures forall i, j :: 0 <= i < j < |Pieces(evs)| ==> Pieces(evs)[i] <= Pieces(evs)[j]
  {
    RunKeepsInv(INITIAL, evs);
    WireIsPieces(INITIAL, evs);
    assert [] + Pieces(evs) == Pieces(evs);
  }

  // What has happened to the k-th response during a run.

  function Copies(evs: seq<Event>, k: nat): nat {
    if evs == [] then 0 else (if evs[0] == Copy(k) then 1 else 0) + Copies(evs[1..], k)
  }

  function Releases(evs: seq<Event>, k: nat): nat {
    if evs == [] then 0 else (if evs[0] == Release(k) then 1 else 0) + Releases(evs[1..], k)
  }

  function Sends(evs: seq<Event>, k: nat): nat {
    if evs == [] then 0 else (if evs[0] == Send(k) then 1 else 0) + Sends(evs[1..], k)
  }

  function SendsDone(evs: seq<Event>, k: nat): nat {
    if evs == [] then 0
    else (if evs[0] == SendDone(k, true) || evs[0] == SendDone(k, false) then 1 else 0) + SendsDone(evs[1..], k)
  }

  /** The application's references; the first is made with the response. */
  function AppOf(st: State, k: nat): nat { if k < |st.responses| then st.responses[k].app else 1 }

  function PendingOf(st: State, k: nat): nat { if k < |st.responses| then st.responses[k].pending else 0 }

  lemma StepCounts(st: State, ev: Event, k: nat)
    requires Enabled(st, ev)
    ensures var st' := Step(st, ev);
            && |st.responses| <= |st'.responses|
            && AppOf(st', k) + (if ev == Release(k) then 1 else 0) == AppOf(st, k) + (if ev == Copy(k) then 1 else 0)
            && PendingOf(st', k) + (if ev == SendDone(k, true) || ev == SendDone(k, false) then 1 else 0) ==
               PendingOf(st, k) + (if ev == Send(k) then 1 else 0)
  {}

  lemma {:induction false} RunCounts(st: State, evs: seq<Event>, k: nat)
    requires ValidRun(st, evs)
    ensures AppOf(Exec(st, evs), k) + Releases(evs, k) == AppOf(st, k) + Copies(evs, k)
    ensures PendingOf(Exec(st, evs), k) + SendsDone(evs, k) == PendingOf(st, k) + Sends(evs, k)
    decreases |evs|
  {
    if evs != [] {
      StepCounts(st, evs[0], k);
      RunCounts(Step(st, evs[0]), evs[1..], k);
    }
  }

  lemma {:induction false} UpToAt(n: nat)
    ensures |UpTo(n)| == n && forall i :: 0 <= i < n ==> UpTo(n)[i] == i
  {
    if n > 0 { UpToAt(n - 1); }
  }

  lemma {:induction false} InUpTo(n: nat, k: nat)
    ensures k in UpTo(n) <==> k < n
  {
    if n > 0 {
      InUpTo(n - 1, k);
    }
  }

  lemma FlushedExactly(st: State, k: nat)
    requires Inv(st) && k < |st.responses|
    ensures k in st.flushes <==> st.responses[k].app + st.responses[k].pending == 0
    ensures forall i, j :: 0 <= i < j < |st.flushes| ==> st.flushes[i] != st.flushes[j]
  {
    InUpTo(FlushCount(st), k);
    UpToAt(FlushCount(st));
    assert k < FlushCount(st) <==> !st.responses[k].stage.Live?;
  }

  /**
   * The deleter runs once for each response that nothing refers to any more and for no other, and by then
   * every send on it has completed.
   */
  lemma FlushedOnceAfterSends(evs: seq<Event>, k: nat)
    requires ValidRun(INITIAL, evs) && k < |Exec(INITIAL, evs).responses|
    ensures var st := Exec(INITIAL, evs);
            && (k in st.flushes <==> st.responses[k].app + st.responses[k].pending == 0)
            && (forall i, j :: 0 <= i < j < |st.flushes| ==> st.flushes[i] != st.flushes[j])
            && (k in st.flushes ==> !Enabled(st, Send(k)) && !Enabled(st, SendDone(k, true)))
  {
    RunKeepsInv(INITIAL, evs);
    FlushedExactly(Exec(INITIAL, evs), k);
  }

  /**
   * Counted by what happened: a response's deleter has run exactly if it and each copy of it have been released and
   * every send on it has completed.
   */
  lemma FlushedWhenReleased(evs: seq<Event>, k: nat)
    requires ValidRun(INITIAL, evs) && k < |Exec(INITIAL, evs).responses|
    ensures k in Exec(INITIAL, evs).flushes <==>
            Releases(evs, k) == 1 + Copies(evs, k) && SendsDone(evs, k) == Sends(evs, k)
    ensures Releases(evs, k) <= 1 + Copies(evs, k) && SendsDone(evs, k) <= Sends(evs, k)
  {
    FlushedOnceAfterSends(evs, k);
    RunCounts(INITIAL, evs, k);
  }

  /** A request is read only when every earlier response has been flushed, with success. */
  lemma NextRequestAfterFlush(evs: seq<Event>, request: Request)
    requires ValidRun(INITIAL, evs)
    ensures var st := Exec(INITIAL, evs);
            Enabled(st, Accepted(request)) ==>
              forall k :: 0 <= k < |st.responses| ==> st.responses[k].stage == Flushed(true)
  {
    RunKeepsInv(INITIAL, evs);
  }

  /** The requests accepted during a run. */
  function Requests(evs: seq<Event>): seq<Request> {
    if evs == [] then [] else (if evs[0].Accepted? then [evs[0].request] else []) + Requests(evs[1..])
  }

  function RequestsOf(rs: seq<Response>): seq<Request> { seq(|rs|, k requires 0 <= k < |rs| => rs[k].request) }

  lemma StepRecords(st: State, ev: Event)
    requires Enabled(st, ev)
    ensures RequestsOf(Step(st, ev).responses) ==
            RequestsOf(st.responses) + if ev.Accepted? then [ev.request] else []
  {}

  lemma {:induction false} RunRecords(st: State, evs: seq<Event>)
    requires ValidRun(st, evs)
    ensures RequestsOf(Exec(st, evs).responses) == RequestsOf(st.responses) + Requests(evs)
    decreases |evs|
  {
    if evs != [] {
      StepRecords(st, evs[0]);
      RunRecords(Step(st, evs[0]), evs[1..]);
    }
  }

  lemma RequestCount(evs: seq<Event>)
    requires ValidRun(INITIAL, evs)
    ensures |Exec(INITIAL, evs).responses| == |Requests(evs)|
  {
    RunRecords(INITIAL, evs);
    assert RequestsOf([]) + Requests(evs) == Requests(evs);
  }

  /** The responses are those to the requests accepted, in order. */
  lemma ResponseTo(evs: seq<Event>, k: nat)
    requires ValidRun(INITIAL, evs) && k < |Exec(INITIAL, evs).responses|
    ensures k < |Requests(evs)| && Exec(INITIAL, evs).responses[k].request == Requests(evs)[k]
  {
    RunRecords(INITIAL, evs);
    var rs := Exec(INITIAL, evs).responses;
    assert RequestsOf([]) + Requests(evs) == Requests(evs);
    assert RequestsOf(rs)[k] == rs[k].request;
  }

  /**
   * Over every run, all requests but the last accepted one had a version above 1.05 and no field named connection with
   * the value close, in letters of any case: behind one that has, or has no such version, no other is accepted.
   */
  lemma OnlyLastMayClose(evs: seq<Event>, k: nat)
    requires ValidRun(INITIAL, evs) && k + 1 < |Requests(evs)|
    ensures Persists(Requests(evs)[k])
  {
    RunKeepsInv(INITIAL, evs);
    RequestCount(evs);
    ResponseTo(evs, k);
    KeepsAliveIs(Requests(evs)[k]);
  }

  lemma AllFlushed(st: State, k: nat, ok: bool, i: nat)
    requires Inv(st) && Enabled(st, FlushDone(k, ok)) && i < |Step(st, FlushDone(k, ok)).responses|
    ensures var r := Step(st, FlushDone(k, ok)).responses[i]; r.stage.Flushed? && r.app + r.pending == 0
  {
    OnlyLast(st, k);
    StepKeepsInv(st, FlushDone(k, ok));
    if i < |st.responses| - 1 {
      assert st.responses[i].stage.Flushed?;
    }
  }

  lemma AfterFlush(st: State, k: nat, ok: bool, ev: Event)
    requires Inv(st) && Enabled(st, FlushDone(k, ok))
    ensures Enabled(Step(st, FlushDone(k, ok)), ev) <==>
            ok && KeepsAlive(st.responses[k].request) && (ev.Accepted? || ev.Refused?)
  {
    OnlyLast(st, k);
    var st' := Step(st, FlushDone(k, ok));
    forall i: nat | i < |st'.responses|
      ensures st'.responses[i].stage.Flushed? && st'.responses[i].app + st'.responses[i].pending == 0
    {
      AllFlushed(st, k, ok, i);
    }
  }

  /** The flush of the k-th response lets another request be read. */
  ghost predicate GoesOn(evs: seq<Event>, k: nat, ok: bool) {
    ok && k < |Requests(evs)| && Persists(Requests(evs)[k])
  }

  /**
   * After the flush of a response something can still happen exactly if it succeeded and the request keeps the
   * connection, and then only another request being read; otherwise nothing ever happens again.
   */
  lemma ConnectionEnds(evs: seq<Event>, k: nat, ok: bool, ev: Event, more: seq<Event>)
    requires ValidRun(INITIAL, evs) && Enabled(Exec(INITIAL, evs), FlushDone(k, ok))
    ensures Enabled(Step(Exec(INITIAL, evs), FlushDone(k, ok)), ev) <==>
            GoesOn(evs, k, ok) && (ev.Accepted? || ev.Refused?)
    ensures !GoesOn(evs, k, ok) && ValidRun(Step(Exec(INITIAL, evs), FlushDone(k, ok)), more) ==> more == []
  {
    RunKeepsInv(INITIAL, evs);
    ResponseTo(evs, k);
    KeepsAliveIs(Requests(evs)[k]);
    AfterFlush(Exec(INITIAL, evs), k, ok, ev);
    if more != [] {
      AfterFlush(Exec(INITIAL, evs), k, ok, more[0]);
    }
  }

  /** A request that is malformed or has no handler ends the connection. */
  lemma RefusalEnds(evs: seq<Event>, more: seq<Event>)
    requires ValidRun(INITIAL, evs) && Enabled(Exec(INITIAL, evs), Refused)
    ensures ValidRun(Step(Exec(INITIAL, evs), Refused), more) ==> more == []
  {
    RunKeepsInv(INITIAL, evs);
    var st := Exec(INITIAL, evs);
    forall k | 0 <= k < |st.responses|
      ensures st.responses[k].stage.Flushed? && st.responses[k].app + st.responses[k].pending == 0
    {
      NextRequestAfterFlush(evs, Request([], None));
    }
  }
}
