/** What the queue machine guarantees over every run from a fresh connection. */
module WsSendTheorems {
  import opened Wrappers
  import opened Bytes
  import opened WsFrame
  import opened WsSend

  /** The queue is never begun when empty, and it has exactly one pending step when it is not. */
  lemma SingleWriterAlways(evs: seq<Event>)
    requires ValidRun(INITIAL, evs)
    ensures var st := Exec(INITIAL, evs);
            !st.broken && |st.tasks| + |st.writes| == if st.queue == [] then 0 else 1
  {
    RunKeepsInv(INITIAL, evs);
  }

  function WireAll(ds: seq<SendData>): bytes {
    if ds == [] then [] else WireAll(ds[..|ds| - 1]) + ds[|ds| - 1].Wire()
  }

  predicate NoFailure(log: seq<Outcome>) {
    forall o <- log :: o.Completed?
  }

  lemma {:induction false} TracesOfCompleted(log: seq<Outcome>)
    requires NoFailure(log)
    ensures Traces(log) == WireAll(Frames(log))
  {
    if log != [] {
      var init, last := log[..|log| - 1], log[|log| - 1];
      assert last in log;
      TracesOfCompleted(init);
      var ds := Frames(log);
      assert ds[..|ds| - 1] == Frames(init);
    }
  }

  lemma {:induction false} FramesAt(log: seq<Outcome>)
    ensures |Frames(log)| == |log|
    ensures forall i :: 0 <= i < |log| ==> Frames(log)[i] == log[i].data
  {
    if log != [] {
      var init := log[..|log| - 1];
      FramesAt(init);
      forall i | 0 <= i < |log| ensures Frames(log)[i] == log[i].data {
        if i < |log| - 1 { assert log[i] == init[i]; }
      }
    }
  }

  /**
   * Until a write fails, the socket holds the frames of the first |log| sends, whole and in the order of
   * the calls, followed by the first `sent` bytes of the next one: frames never interleave.
   */
  lemma WireIsPrefixOfSends(evs: seq<Event>)
    requires ValidRun(INITIAL, evs) && NoFailure(Exec(INITIAL, evs).log)
    ensures var st := Exec(INITIAL, evs);
            && |st.log| + |st.queue| <= |st.posted|
            && st.queue == st.posted[|st.log|..|st.log| + |st.queue|]
            && st.wire == WireAll(st.posted[..|st.log|]) +
                          if st.queue == [] then [] else SentPart(st.posted[|st.log|], st.sent)
  {
    RunKeepsInv(INITIAL, evs);
    var st := Exec(INITIAL, evs);
    FramesAt(st.log);
    TracesOfCompleted(st.log);
    assert st.posted[..|st.log|] == Frames(st.log);
  }

  // ---- Failures ------------------------------------------------------------------------------------

  /** Discarded frames stand right behind a failed one or behind another discarded one. */
  predicate DiscardsFollowFailure(log: seq<Outcome>) {
    forall i :: 0 <= i < |log| && log[i].Discarded? ==> i > 0 && !log[i - 1].Completed?
  }

  lemma {:induction false} AllDiscardedAt(ds: seq<SendData>)
    ensures |AllDiscarded(ds)| == |ds|
    ensures forall i :: 0 <= i < |ds| ==> AllDiscarded(ds)[i] == Discarded(ds[i])
  {
    if ds != [] { AllDiscardedAt(ds[1..]); }
  }

  lemma FailureKeepsDiscards(log: seq<Outcome>, d: SendData, n: nat, tail: seq<SendData>)
    requires DiscardsFollowFailure(log)
    ensures DiscardsFollowFailure(log + [Failed(d, n)] + AllDiscarded(tail))
  {
    AllDiscardedAt(tail);
  }

  lemma StepKeepsDiscards(st: State, ev: Event)
    requires Inv(st) && Enabled(st, ev) && DiscardsFollowFailure(st.log)
    ensures DiscardsFollowFailure(Step(st, ev).log)
  {
    if ev.Run? {
      var front, tail := st.queue[0], st.queue[1..];
      FailureKeepsDiscards(st.log, front, st.sent, tail);
      assert DiscardsFollowFailure(st.log + [Completed(front)]);
    }
  }

  lemma {:induction false} RunKeepsDiscards(st: State, evs: seq<Event>)
    requires Inv(st) && ValidRun(st, evs) && DiscardsFollowFailure(st.log)
    ensures DiscardsFollowFailure(Exec(st, evs).log)
    decreases |evs|
  {
    if evs != [] {
      StepKeepsDiscards(st, evs[0]);
      StepKeepsInv(st, evs[0]);
      RunKeepsDiscards(Step(st, evs[0]), evs[1..]);
    }
  }

  lemma AccountParts(st: State)
    requires Accounted(st)
    ensures |st.posted| == |st.log| + |st.queue| + |st.appends|
    ensures forall i :: 0 <= i < |st.log| ==> st.log[i].data == st.posted[i]
    ensures st.posted[|st.log|..] == st.queue + st.appends
  {
    FramesAt(st.log);
  }

  // ---- Failures discard the queue -------------------------------------------------------------------

  /** A write has failed and its handler is ready. */
  predicate FailureReady(st: State, i: nat) {
    i < |st.tasks| && (st.tasks[i] == HeaderDone(false) || st.tasks[i] == MessageDone(false))
  }

  /** From position n on the log holds the failure of the first frame and the discards of the others. */
  predicate FailsFrom(log: seq<Outcome>, n: nat, queue: seq<SendData>, sent: nat) {
    && queue != [] && n + |queue| <= |log| && log[n] == Failed(queue[0], sent)
    && forall k :: 1 <= k < |queue| ==> log[n + k] == Discarded(queue[k])
  }

  lemma FailureIsLogged(st: State)
    requires st.queue != []
    ensures FailsFrom(ClearStep(st).log, |st.log|, st.queue, st.sent)
    ensures |ClearStep(st).log| == |st.log| + |st.queue| && st.log <= ClearStep(st).log
  {
    var tail := st.queue[1..];
    AllDiscardedAt(tail);
    var log := st.log + [Failed(st.queue[0], st.sent)] + AllDiscarded(tail);
    forall k | 1 <= k < |st.queue| ensures log[|st.log| + k] == Discarded(st.queue[k]) {
      assert log[|st.log| + k] == AllDiscarded(tail)[k - 1];
    }
  }

  lemma FailureStep(st: State, i: nat, sends: seq<SendData>)
    requires Inv(st) && FailureReady(st, i) && Enabled(st, Run(i, sends))
    ensures var st' := Step(st, Run(i, sends));
            && st'.queue == [] && st'.tasks == [] && st'.writes == []
            && FailsFrom(st'.log, |st.log|, st.queue, st.sent) && |st'.log| == |st.log| + |st.queue|
  {
    var st0 := st.(tasks := RemoveAt(st.tasks, i));
    assert st0.tasks == [];
    FailureIsLogged(Fire(st0, false, sends));
  }

  /**
   * When a write has failed, the chain stops: the whole queue is emptied, with one failed frame and every other one
   * discarded, and nothing is written or due any more.
   */
  lemma FailureDiscardsQueue(evs: seq<Event>, i: nat, sends: seq<SendData>)
    requires ValidRun(INITIAL, evs)
    requires FailureReady(Exec(INITIAL, evs), i) && Enabled(Exec(INITIAL, evs), Run(i, sends))
    ensures var st := Exec(INITIAL, evs); var st' := Step(st, Run(i, sends));
            && st'.queue == [] && st'.tasks == [] && st'.writes == []
            && FailsFrom(st'.log, |st.log|, st.queue, st.sent) && |st'.log| == |st.log| + |st.queue|
  {
    RunKeepsInv(INITIAL, evs);
    FailureStep(Exec(INITIAL, evs), i, sends);
  }

  lemma StepExtendsLog(st: State, ev: Event)
    requires Enabled(st, ev)
    ensures st.log <= Step(st, ev).log
  {
    if ev.Run? {
      var st0 := st.(tasks := RemoveAt(st.tasks, ev.task));
      if st.queue != [] {
        FailureIsLogged(Fire(st0, false, ev.sends));
      }
    }
  }

  lemma {:induction false} RunExtendsLog(st: State, evs: seq<Event>)
    requires ValidRun(st, evs)
    ensures st.log <= Exec(st, evs).log
    decreases |evs|
  {
    if evs != [] {
      StepExtendsLog(st, evs[0]);
      RunExtendsLog(Step(st, evs[0]), evs[1..]);
    }
  }

  lemma {:induction false} RunSplits(st: State, evs: seq<Event>, n: nat)
    requires ValidRun(st, evs) && n <= |evs|
    ensures ValidRun(st, evs[..n]) && ValidRun(Exec(st, evs[..n]), evs[n..])
    ensures Exec(st, evs) == Exec(Exec(st, evs[..n]), evs[n..])
    decreases n
  {
    if n == 0 {
      assert evs[..0] == [] && evs[0..] == evs;
    } else {
      RunSplits(Step(st, evs[0]), evs[1..], n - 1);
      assert evs[..n][1..] == evs[1..][..n - 1] && evs[n..] == evs[1..][n - 1..];
    }
  }

  /** At step n of the run the handler of a failed write runs. */
  predicate FailureAt(evs: seq<Event>, n: nat) {
    && n < |evs| && ValidRun(INITIAL, evs[..n]) && evs[n].Run? && FailureReady(Exec(INITIAL, evs[..n]), evs[n].task)
  }

  /** The frames queued at step n stay logged as one failed and the others discarded. */
  predicate DiscardedAt(evs: seq<Event>, n: nat)
    requires n <= |evs| && ValidRun(INITIAL, evs) && ValidRun(INITIAL, evs[..n])
  {
    var st := Exec(INITIAL, evs[..n]);
    FailsFrom(Exec(INITIAL, evs).log, |st.log|, st.queue, st.sent)
  }

  lemma FailureLasts(evs: seq<Event>, n: nat)
    requires ValidRun(INITIAL, evs) && FailureAt(evs, n)
    ensures DiscardedAt(evs, n)
  {
    RunSplits(INITIAL, evs, n);
    var st := Exec(INITIAL, evs[..n]);
    assert evs[n..][0] == evs[n];
    FailureDiscardsQueue(evs[..n], evs[n].task, evs[n].sends);
    RunExtendsLog(Step(st, evs[n]), evs[n..][1..]);
  }

  /**
   * Every frame sent is exactly one of: completed, failed, discarded behind a failure, queued, or about to
   * be queued; reading these off in that order gives back the sends in call order. Whenever a write failed during
   * the run, all frames queued behind its frame were discarded and stay so.
   */
  lemma Conservation(evs: seq<Event>)
    requires ValidRun(INITIAL, evs)
    ensures var st := Exec(INITIAL, evs);
            && |st.posted| == |st.log| + |st.queue| + |st.appends|
            && (forall i :: 0 <= i < |st.log| ==> st.log[i].data == st.posted[i])
            && st.posted[|st.log|..] == st.queue + st.appends
            && DiscardsFollowFailure(st.log)
    ensures forall n: nat :: FailureAt(evs, n) ==> DiscardedAt(evs, n)
  {
    RunKeepsInv(INITIAL, evs);
    RunKeepsDiscards(INITIAL, evs);
    AccountParts(Exec(INITIAL, evs));
    forall n: nat | FailureAt(evs, n) ensures DiscardedAt(evs, n) {
      FailureLasts(evs, n);
    }
  }

  // ---- Callbacks ------------------------------------------------------------------------------------

  /** Callback identities are distinct between the sends of a run. */
  predicate DistinctCallbacks(ds: seq<SendData>) {
    forall i, j :: 0 <= i < j < |ds| && ds[i].callback.Some? ==> ds[i].callback != ds[j].callback
  }

  lemma {:induction false} CallsAre(log: seq<Outcome>, c: nat, ok: bool)
    ensures (c, ok) in Calls(log) <==>
            exists i :: 0 <= i < |log| && !log[i].Discarded? && log[i].data.callback == Some(c) &&
                        log[i].Completed? == ok
  {
    if log != [] {
      var init, last := log[..|log| - 1], log[|log| - 1];
      CallsAre(init, c, ok);
      if i :| 0 <= i < |log| && !log[i].Discarded? && log[i].data.callback == Some(c) && log[i].Completed? == ok {
        if i < |log| - 1 { assert init[i] == log[i]; }
      }
      assert forall i :: 0 <= i < |init| ==> init[i] == log[i];
    }
  }

  lemma {:induction false} CallsDistinct(log: seq<Outcome>)
    requires DistinctCallbacks(Frames(log))
    ensures forall i, j :: 0 <= i < j < |Calls(log)| ==> Calls(log)[i].0 != Calls(log)[j].0
  {
    if log != [] {
      var init, last := log[..|log| - 1], log[|log| - 1];
      FramesAt(log);
      FramesAt(init);
      CallsDistinct(init);
      forall i | 0 <= i < |Calls(init)|
        ensures last.data.callback != Some(Calls(init)[i].0)
      {
        CallsAre(init, Calls(init)[i].0, Calls(init)[i].1);
        assert (Calls(init)[i].0, Calls(init)[i].1) in Calls(init);
        var k :| 0 <= k < |init| && init[k].data.callback == Some(Calls(init)[i].0);
        assert Frames(log)[k].callback == Some(Calls(init)[i].0);
        assert Frames(log)[|log| - 1].callback == last.data.callback;
      }
    }
  }

  lemma LogIsPrefix(st: State)
    requires Accounted(st)
    ensures |st.log| <= |st.posted| && Frames(st.log) == st.posted[..|st.log|]
    ensures DistinctCallbacks(st.posted) ==> DistinctCallbacks(Frames(st.log))
  {
    FramesAt(st.log);
  }

  /** No callback runs twice, whatever fails. */
  lemma CallbacksFireOnce(evs: seq<Event>)
    requires ValidRun(INITIAL, evs) && DistinctCallbacks(Exec(INITIAL, evs).posted)
    ensures var fired := Exec(INITIAL, evs).fired;
            forall i, j :: 0 <= i < j < |fired| ==> fired[i].0 != fired[j].0
  {
    RunKeepsInv(INITIAL, evs);
    LogIsPrefix(Exec(INITIAL, evs));
    CallsDistinct(Exec(INITIAL, evs).log);
  }

  lemma CallsOfFrame(log: seq<Outcome>, posted: seq<SendData>, i: nat, c: nat)
    requires |log| <= |posted| && Frames(log) == posted[..|log|] && DistinctCallbacks(posted)
    requires i < |posted| && posted[i].callback == Some(c)
    ensures (c, true) in Calls(log) <==> i < |log| && log[i].Completed?
    ensures (c, false) in Calls(log) <==> i < |log| && log[i].Failed?
  {
    FramesAt(log);
    CallsAre(log, c, true);
    CallsAre(log, c, false);
    forall k | 0 <= k < |log| && log[k].data.callback == Some(c) ensures k == i {
      assert posted[k] == Frames(log)[k];
    }
  }

  /**
   * The callback of the i-th send has run with success exactly when its frame completed, with an error
   * exactly when its frame failed at the front, and not at all while queued or if discarded.
   */
  lemma CallbackTellsOutcome(evs: seq<Event>, i: nat, c: nat)
    requires ValidRun(INITIAL, evs) && DistinctCallbacks(Exec(INITIAL, evs).posted)
    requires var st := Exec(INITIAL, evs); i < |st.posted| && st.posted[i].callback == Some(c)
    ensures var st := Exec(INITIAL, evs);
            && ((c, true) in st.fired <==> i < |st.log| && st.log[i].Completed?)
            && ((c, false) in st.fired <==> i < |st.log| && st.log[i].Failed?)
  {
    RunKeepsInv(INITIAL, evs);
    var st := Exec(INITIAL, evs);
    LogIsPrefix(st);
    CallsOfFrame(st.log, st.posted, i, c);
  }

  /** The position in the call order of the frame a callback belongs to. */
  ghost predicate FiredAt(st: State, k: nat, i: nat) {
    k < |st.fired| && i < |st.posted| && st.posted[i].callback == Some(st.fired[k].0)
  }

  lemma {:induction false} CallsOrdered(log: seq<Outcome>, k: nat, l: nat, i: nat, j: nat)
    requires DistinctCallbacks(Frames(log)) && k < l < |Calls(log)| && i < |log| && j < |log|
    requires log[i].data.callback == Some(Calls(log)[k].0) && log[j].data.callback == Some(Calls(log)[l].0)
    ensures i < j
  {
    FramesAt(log);
    var init, last := log[..|log| - 1], log[|log| - 1];
    FramesAt(init);
    assert Frames(log)[i].callback == Some(Calls(log)[k].0);
    assert Frames(log)[j].callback == Some(Calls(log)[l].0);
    CallsAre(init, Calls(log)[k].0, Calls(log)[k].1);
    assert Calls(log)[k] in Calls(init);
    var i' :| 0 <= i' < |init| && init[i'].data.callback == Some(Calls(log)[k].0);
    assert Frames(log)[i'].callback == Frames(log)[i].callback;
    assert i == i';
    if l < |Calls(init)| {
      CallsAre(init, Calls(log)[l].0, Calls(log)[l].1);
      assert Calls(log)[l] in Calls(init);
      var j' :| 0 <= j' < |init| && init[j'].data.callback == Some(Calls(log)[l].0);
      assert Frames(log)[j'].callback == Frames(log)[j].callback;
      assert j == j';
      assert DistinctCallbacks(Frames(init)) by {
        assert Frames(init) == Frames(log)[..|init|];
      }
      CallsOrdered(init, k, l, i, j);
    } else {
      assert last.data.callback == Some(Calls(log)[l].0);
      assert Frames(log)[|log| - 1].callback == Frames(log)[j].callback;
    }
  }

  lemma PositionInLog(st: State, k: nat, i: nat)
    requires Accounted(st) && DistinctCallbacks(st.posted) && FiredAt(st, k, i)
    ensures i < |st.log| && st.log[i].data.callback == Some(st.fired[k].0)
  {
    LogIsPrefix(st);
    FramesAt(st.log);
    var (c, ok) := st.fired[k];
    assert (c, ok) in Calls(st.log);
    CallsAre(st.log, c, ok);
    CallsOfFrame(st.log, st.posted, i, c);
  }

  /** Callbacks run in the order in which their frames were sent. */
  lemma CallbacksInOrder(evs: seq<Event>, k: nat, l: nat, i: nat, j: nat)
    requires ValidRun(INITIAL, evs) && DistinctCallbacks(Exec(INITIAL, evs).posted)
    requires FiredAt(Exec(INITIAL, evs), k, i) && FiredAt(Exec(INITIAL, evs), l, j) && k < l
    ensures i < j
  {
    RunKeepsInv(INITIAL, evs);
    var st := Exec(INITIAL, evs);
    LogIsPrefix(st);
    FramesAt(st.log);
    PositionInLog(st, k, i);
    PositionInLog(st, l, j);
    CallsOrdered(st.log, k, l, i, j);
  }

  // ---- Progress ------------------------------------------------------------------------------------

  function Weight(ds: seq<SendData>, each: nat): nat {
    if ds == [] then 0 else Weight(ds[..|ds| - 1], each) + |ds[|ds| - 1].Wire()| + each
  }

  lemma {:induction false} WeightSplit(ds: seq<SendData>, each: nat)
    requires ds != []
    ensures Weight(ds, each) == |ds[0].Wire()| + each + Weight(ds[1..], each)
  {
    if |ds| == 1 {
    } else {
      var init := ds[..|ds| - 1];
      WeightSplit(init, each);
      assert ds[1..][..|ds[1..]| - 1] == init[1..];
    }
  }

  /** Pending steps of the front frame beside the bytes still to write. */
  function StepsLeft(st: State): nat {
    if st.tasks != [] then
      match st.tasks[0] case StartWrite => 6 case HeaderDone(_) => 4 case MessageDone(_) => 2
    else if st.writes != [] then if st.writes[0].ofHeader then 5 else 3
    else 6
  }

  function Rank(st: State): int {
    Weight(st.appends, 8) + Weight(st.queue, 7) - st.sent - (6 - StepsLeft(st))
  }

  lemma SentWithinFront(st: State)
    requires Inv(st)
    ensures st.sent <= if st.queue == [] then 0 else |st.queue[0].Wire()|
  {}

  lemma RankIsNat(st: State)
    requires Inv(st)
    ensures Rank(st) >= 0
  {
    SentWithinFront(st);
    if st.queue != [] { WeightSplit(st.queue, 7); }
  }

  lemma WeightAppend(ds: seq<SendData>, d: SendData, each: nat)
    ensures Weight(ds + [d], each) == Weight(ds, each) + |d.Wire()| + each
  {
    assert (ds + [d])[..|ds + [d]| - 1] == ds;
  }

  lemma AppendSteps(st: State)
    requires Inv(st) && st.appends != []
    ensures var st' := AppendStep(st);
            && st'.queue == st.queue + [st.appends[0]] && st'.appends == st.appends[1..] && st'.sent == st.sent
            && StepsLeft(st') == StepsLeft(st)
  {}

  lemma AppendRank(st: State)
    requires Inv(st) && st.appends != []
    ensures Rank(AppendStep(st)) < Rank(st)
  {
    WeightSplit(st.appends, 8);
    WeightAppend(st.queue, st.appends[0], 7);
    AppendSteps(st);
  }

  lemma EraseRank(st: State)
    requires Inv(st) && st.tasks == [MessageDone(true)] && st.queue != []
    ensures Rank(EraseStep(Fire(st.(tasks := []), true, []))) < Rank(st)
  {
    SentWithinFront(st);
    WeightSplit(st.queue, 7);
    PostNothing(st.(tasks := []));
  }

  lemma ClearRank(st: State)
    requires Inv(st) && |st.tasks| == 1 && !st.tasks[0].StartWrite? && st.queue != []
    ensures Rank(ClearStep(Fire(st.(tasks := []), false, []))) < Rank(st)
  {
    SentWithinFront(st);
    WeightSplit(st.queue, 7);
    PostNothing(st.(tasks := []));
  }

  lemma RunRank(st: State)
    requires Inv(st) && |st.tasks| == 1 && st.queue != []
    ensures Rank(Step(st, Run(0, []))) < Rank(st)
  {
    assert RemoveAt(st.tasks, 0) == [];
    var st0 := st.(tasks := []);
    match st.tasks[0]
    case MessageDone(true) => EraseRank(st);
    case HeaderDone(true) =>
    case StartWrite =>
    case _ => ClearRank(st);
  }

  /** Without new sends every step, successful or not, brings the queue closer to empty. */
  lemma RankDecreases(st: State, ev: Event)
    requires Inv(st) && Enabled(st, ev) && !ev.Post? && (ev.Run? ==> ev.sends == [])
    ensures Rank(Step(st, ev)) < Rank(st)
  {
    match ev
    case Append => AppendRank(st);
    case Run(i, _) =>
      assert st.queue != [];
      RunRank(st);
    case _ =>
      SentWithinFront(st);
  }

  /** A step that needs nothing from outside: some write can move or some handler can run. */
  function NextStep(st: State): Event {
    if st.tasks != [] then Run(0, [])
    else if st.writes != [] then
      if st.writes[0].rest == [] then Finish(0, true) else Progress(0, |st.writes[0].rest|)
    else Append
  }

  /** No wake-up is lost: while any frame is queued or waiting to be, the chain can take a step. */
  lemma NeverStuck(evs: seq<Event>)
    requires ValidRun(INITIAL, evs)
    ensures var st := Exec(INITIAL, evs);
            st.queue != [] || st.appends != [] ==> Enabled(st, NextStep(st))
  {
    RunKeepsInv(INITIAL, evs);
  }

  predicate Drained(st: State) { st.queue == [] && st.appends == [] }

  predicate Failing(st: State) {
    st.tasks != [] && (st.tasks[0] == HeaderDone(false) || st.tasks[0] == MessageDone(false))
  }

  lemma NextRunIsClean(st: State)
    requires Inv(st) && !Failing(st) && NoFailure(st.log) && st.tasks != []
    ensures Enabled(st, Run(0, []))
    ensures var st' := Step(st, Run(0, [])); !Failing(st') && NoFailure(st'.log) && st'.posted == st.posted
  {
    assert st.posted + [] == st.posted;
    assert RemoveAt(st.tasks, 0) == [];
  }

  lemma NextStepIsClean(st: State)
    requires Inv(st) && !Failing(st) && NoFailure(st.log) && !Drained(st)
    ensures Enabled(st, NextStep(st))
    ensures var st' := Step(st, NextStep(st)); !Failing(st') && NoFailure(st'.log) && st'.posted == st.posted
  {
    if st.tasks != [] {
      NextRunIsClean(st);
    } else {
      assert st.posted + [] == st.posted;
    }
  }

  lemma NextStepSucceeds(st: State)
    requires Inv(st) && !Failing(st) && NoFailure(st.log) && !Drained(st)
    ensures Enabled(st, NextStep(st))
    ensures var st' := Step(st, NextStep(st));
            Inv(st') && !Failing(st') && NoFailure(st'.log) && st'.posted == st.posted && 0 <= Rank(st') < Rank(st)
  {
    var ev := NextStep(st);
    NextStepIsClean(st);
    StepKeepsInv(st, ev);
    RankDecreases(st, ev);
    RankIsNat(Step(st, ev));
  }

  /** Left alone on a working socket, the chain sends everything there is to send. */
  lemma {:induction false} DrainsFrom(st: State) returns (evs: seq<Event>)
    requires Inv(st) && !Failing(st) && NoFailure(st.log)
    ensures ValidRun(st, evs)
    ensures var st' := Exec(st, evs);
            Drained(st') && NoFailure(st'.log) && st'.posted == st.posted
    decreases Rank(st)
  {
    if Drained(st) {
      evs := [];
    } else {
      NextStepSucceeds(st);
      var more := DrainsFrom(Step(st, NextStep(st)));
      evs := [NextStep(st)] + more;
      assert evs[1..] == more;
    }
  }

  lemma {:induction false} ExecAppend(st: State, evs: seq<Event>, more: seq<Event>)
    requires ValidRun(st, evs) && ValidRun(Exec(st, evs), more)
    ensures ValidRun(st, evs + more) && Exec(st, evs + more) == Exec(Exec(st, evs), more)
    decreases |evs|
  {
    if evs == [] {
      assert evs + more == more;
    } else {
      assert (evs + more)[1..] == evs[1..] + more;
      ExecAppend(Step(st, evs[0]), evs[1..], more);
    }
  }

  /** Every run in which no write has failed can be continued until each frame sent is on the socket, whole. */
  lemma EverythingCanBeSent(evs: seq<Event>) returns (more: seq<Event>)
    requires ValidRun(INITIAL, evs)
    requires var st := Exec(INITIAL, evs); NoFailure(st.log) && !Failing(st)
    ensures ValidRun(INITIAL, evs + more)
    ensures Exec(INITIAL, evs + more).wire == WireAll(Exec(INITIAL, evs).posted)
  {
    RunKeepsInv(INITIAL, evs);
    more := DrainsFrom(Exec(INITIAL, evs));
    ExecAppend(INITIAL, evs, more);
    WireIsPrefixOfSends(evs + more);
    Conservation(evs + more);
    var st := Exec(INITIAL, evs + more);
    assert st.posted[..|st.log|] == st.posted;
    assert WireAll(st.posted) + [] == WireAll(st.posted);
  }

  // ---- The wire as RFC 6455 reads it ---------------------------------------------------------------

  /** The frame carries the header `send` builds for it. */
  predicate Built(d: SendData) {
    d.header != [] && d.header == FrameHeader(d.header[0], |d.payload|)
  }

  /** It is also small enough for the standard, whose lengths have 63 bits. */
  predicate Framed(d: SendData) { Built(d) && |d.payload| < MAX_LENGTH }

  function FrameOf(d: SendData): Frame {
    Frame(if d.header == [] then 0 else d.header[0], d.payload)
  }

  function FramesOf(ds: seq<SendData>): (fs: seq<Frame>)
    ensures |fs| == |ds|
  {
    if ds == [] then [] else FramesOf(ds[..|ds| - 1]) + [FrameOf(ds[|ds| - 1])]
  }

  lemma {:induction false} WireAllEncodes(ds: seq<SendData>)
    requires forall d <- ds :: Framed(d)
    ensures WireAll(ds) == EncodeAll(FramesOf(ds))
  {
    if ds != [] {
      var init, last := ds[..|ds| - 1], ds[|ds| - 1];
      assert last in ds;
      WireAllEncodes(init);
      EncodeAllAppend(FramesOf(init), FrameOf(last));
    }
  }

  /** How many frames are on the socket in full: the departed ones, and the front one if it is all sent. */
  function WholeFrames(st: State): nat {
    |st.log| + if st.queue != [] && st.sent == |st.queue[0].Wire()| then 1 else 0
  }

  lemma FrontIsBounded(evs: seq<Event>)
    requires ValidRun(INITIAL, evs)
    ensures var st := Exec(INITIAL, evs); st.queue == [] || st.sent <= |st.queue[0].Wire()|
  {
    RunKeepsInv(INITIAL, evs);
    SentWithinFront(Exec(INITIAL, evs));
  }

  lemma {:induction false} FramedAreSendable(ds: seq<SendData>)
    requires forall d <- ds :: Framed(d)
    ensures Sendable(FramesOf(ds))
  {
    if ds != [] {
      assert ds[|ds| - 1] in ds;
      FramedAreSendable(ds[..|ds| - 1]);
    }
  }

  lemma WholeThenCut(ds: seq<SendData>, cut: bytes)
    requires (forall d <- ds :: Framed(d)) && ParseFrame(cut) == Incomplete
    ensures ParseStream(WireAll(ds) + cut) == Stream(FramesOf(ds), Incomplete)
  {
    WireAllEncodes(ds);
    FramedAreSendable(ds);
    StreamRoundTrip(FramesOf(ds), cut);
  }

  lemma NoneUnderWay(posted: seq<SendData>, n: nat, wire: bytes)
    requires n <= |posted| && (forall d <- posted :: Framed(d)) && wire == WireAll(posted[..n]) + []
    ensures ParseStream(wire) == Stream(FramesOf(posted[..n]), Incomplete)
  {
    WholeThenCut(posted[..n], []);
  }

  lemma OneUnderWay(posted: seq<SendData>, n: nat, sent: nat, wire: bytes)
    requires n < |posted| && (forall d <- posted :: Framed(d)) && sent < |posted[n].Wire()|
    requires wire == WireAll(posted[..n]) + SentPart(posted[n], sent)
    ensures ParseStream(wire) == Stream(FramesOf(posted[..n]), Incomplete)
  {
    assert posted[n] in posted;
    assert posted[n].Wire() == Encode(FrameOf(posted[n]));
    FramePrefixIncomplete(FrameOf(posted[n]), sent);
    WholeThenCut(posted[..n], SentPart(posted[n], sent));
  }

  lemma OneAllSent(posted: seq<SendData>, n: nat, sent: nat, wire: bytes)
    requires n < |posted| && (forall d <- posted :: Framed(d)) && sent == |posted[n].Wire()|
    requires wire == WireAll(posted[..n]) + SentPart(posted[n], sent)
    ensures ParseStream(wire) == Stream(FramesOf(posted[..n + 1]), Incomplete)
  {
    assert posted[..n + 1][..n] == posted[..n];
    assert SentPart(posted[n], sent) == posted[n].Wire();
    assert wire == WireAll(posted[..n + 1]) + [];
    WholeThenCut(posted[..n + 1], []);
  }

  lemma ClientReads(posted: seq<SendData>, n: nat, more: bool, sent: nat, wire: bytes)
    requires forall d <- posted :: Framed(d)
    requires n <= |posted| && (more ==> n < |posted| && sent <= |posted[n].Wire()|)
    requires wire == WireAll(posted[..n]) + if more then SentPart(posted[n], sent) else []
    ensures var k := n + if more && sent == |posted[n].Wire()| then 1 else 0;
            ParseStream(wire) == Stream(FramesOf(posted[..k]), Incomplete)
  {
    if !more {
      NoneUnderWay(posted, n, wire);
    } else if sent < |posted[n].Wire()| {
      OneUnderWay(posted, n, sent, wire);
    } else {
      OneAllSent(posted, n, sent, wire);
    }
  }

  /**
   * Until a write fails, a client that follows RFC 6455 reads from the socket exactly the frames of the
   * first sends, in call order with their opcodes and payloads, and then waits for more.
   */
  lemma ClientReadsSends(evs: seq<Event>)
    requires ValidRun(INITIAL, evs) && NoFailure(Exec(INITIAL, evs).log)
    requires forall d <- Exec(INITIAL, evs).posted :: Framed(d)
    ensures var st := Exec(INITIAL, evs);
            && WholeFrames(st) <= |st.posted|
            && ParseStream(st.wire) == Stream(FramesOf(st.posted[..WholeFrames(st)]), Incomplete)
  {
    WireIsPrefixOfSends(evs);
    FrontIsBounded(evs);
    var st := Exec(INITIAL, evs);
    ClientReads(st.posted, |st.log|, st.queue != [], st.sent, st.wire);
  }
}
