/**
 * The read loop of a WebSocket connection as a state machine over arriving bytes, and the plain decoder
 * it agrees with however the bytes are cut up.
 */
module WsRead {
  import opened Bytes
  import opened WsFrame

  /** What the loop does with a message: hand it over, answer a ping, or close. */
  datatype Action =
    | Deliver(opcode: byte, payload: bytes)
    | Pong(opcode: byte)
    | Close(status: nat, reason: bytes)
    | Error

  /** Which asynchronous read is outstanding, if any. */
  datatype Phase =
    | First
    | Length2(opcode: byte)
    | Length8(opcode: byte)
    | Body(opcode: byte, length: nat)
    | Closed
    | Failed
    | Unspecified      // a 64-bit length of 2^31 or more: no value can be told for the source's shifts

  datatype State = State(
    socket: bytes,          // arrived, not yet transferred
    buffer: bytes,          // read_buffer
    got: nat,               // bytes the outstanding read has transferred
    phase: Phase,
    out: seq<Action>,       // history: what the loop has done
    consumed: bytes,        // history: bytes taken out of read_buffer
    partial: bytes,         // history: the part of `consumed` that belongs to the frame being read
    stream: bytes           // history: the handshake residue and everything that arrived
  )

  /** The state in which the handshake leaves the connection: `residue` was read past its end. */
  function Start(residue: bytes): State {
    State([], residue, 0, First, [], [], [], residue)
  }

  datatype Event = Arrive(bs: bytes) | Transfer(count: nat) | Spurious | Complete | Fail

  /** How many bytes the outstanding read waits for. */
  function Need(phase: Phase): nat {
    match phase
    case First => 2
    case Length2(_) => 2
    case Length8(_) => 8
    case Body(_, n) => 4 + n
    case _ => 0
  }

  predicate Reading(phase: Phase) { phase.First? || phase.Length2? || phase.Length8? || phase.Body? }

  predicate Enabled(st: State, ev: Event) {
    match ev
    case Arrive(_) => true
    case Transfer(n) => 0 < n <= |st.socket| && st.got + n <= Need(st.phase)
    case Spurious => st.phase == First && st.got == 0    // a first read that ends with nothing and no error
    case Complete => Reading(st.phase) && st.got == Need(st.phase) && st.got <= |st.buffer|
    case Fail => Reading(st.phase)
  }

  function CharByte(c: char): byte { var code := c as int; code % 256 }

  function Ascii(s: string): bytes {
    seq(|s|, i requires 0 <= i < |s| => CharByte(s[i]))
  }

  const UNMASKED_REASON: bytes := Ascii("message from client not masked")

  /**
   * A 64-bit length that can be read. The source shifts each promoted byte by 56 down to 0 bits, and from 32 on that
   * has no defined value, whatever the byte: a zero byte shifted so is taken as zero here, any other one makes the
   * length unspecified, as does the top bit of the byte that is shifted by 24.
   */
  predicate ReadableLength(bs: bytes)
    requires |bs| == 8
  {
    bs[0] == bs[1] == bs[2] == bs[3] == 0 && bs[4] < 128
  }

  function Status(high: nat, low: nat): nat { high * 256 + low }

  /** What the loop does with a whole unmasked message. */
  function React(f: Frame): Action {
    if f.opcode % 16 == 8 then
      if |f.payload| >= 2 then Close(Status(f.payload[0], f.payload[1]), f.payload[2..]) else Close(0, f.payload)
    else if f.opcode % 16 == 9 then Pong((f.opcode + 1) % 256)
    else Deliver(f.opcode, f.payload)
  }

  /** The handler of a finished read, given the bytes it takes out of the buffer. */
  function Handle(phase: Phase, taken: bytes): (Phase, seq<Action>)
    requires Reading(phase) && |taken| == Need(phase)
  {
    match phase
    case First =>
      if taken[1] < 128 then (Closed, [Close(1002, UNMASKED_REASON)])
      else if taken[1] % 128 == 126 then (Length2(taken[0]), [])
      else if taken[1] % 128 == 127 then (Length8(taken[0]), [])
      else (Body(taken[0], taken[1] % 128), [])
    case Length2(op) => (Body(op, FromBigEndian(taken)), [])
    case Length8(op) => if ReadableLength(taken) then (Body(op, FromBigEndian(taken)), []) else (Unspecified, [])
    case Body(op, n) =>
      var action := React(Frame(op, ApplyMask(taken[4..], taken[..4])));
      (if action.Close? then Closed else First, [action])
  }

  function Step(st: State, ev: Event): State
    requires Enabled(st, ev)
  {
    match ev
    case Arrive(bs) => st.(socket := st.socket + bs, stream := st.stream + bs)
    case Transfer(n) => st.(socket := st.socket[n..], buffer := st.buffer + st.socket[..n], got := st.got + n)
    case Spurious => st
    case Fail => st.(phase := Failed, out := st.out + [Error])
    case Complete =>
      var taken := st.buffer[..st.got];
      var (phase, actions) := Handle(st.phase, taken);
      st.(buffer := st.buffer[st.got..], got := 0, phase := phase, out := st.out + actions,
          consumed := st.consumed + taken, partial := if phase.First? then [] else st.partial + taken)
  }

  predicate ValidRun(st: State, evs: seq<Event>)
    decreases |evs|
  {
    evs == [] || (Enabled(st, evs[0]) && ValidRun(Step(st, evs[0]), evs[1..]))
  }

  function Exec(st: State, evs: seq<Event>): State
    requires ValidRun(st, evs)
    decreases |evs|
  {
    if evs == [] then st else Exec(Step(st, evs[0]), evs[1..])
  }

  // ---- The decoder ---------------------------------------------------------------------------------

  datatype ClientParse = Whole(frame: Frame, rest: bytes) | More | NotMasked | BadLength

  function ParseBody(opcode: byte, n: nat, bs: bytes): (p: ClientParse)
    ensures p.Whole? ==> |p.rest| <= |bs|
  {
    if |bs| < 4 + n then More else Whole(Frame(opcode, ApplyMask(bs[4..4 + n], bs[..4])), bs[4 + n..])
  }

  /** The next masked client frame of a byte string. */
  function ParseClient(bs: bytes): (p: ClientParse)
    ensures p.Whole? ==> |p.rest| < |bs|
  {
    if |bs| < 2 then More
    else if bs[1] < 128 then NotMasked
    else if bs[1] % 128 == 126 then
      if |bs| < 4 then More else ParseBody(bs[0], FromBigEndian(bs[2..4]), bs[4..])
    else if bs[1] % 128 == 127 then
      if |bs| < 10 then More
      else if !ReadableLength(bs[2..10]) then BadLength
      else ParseBody(bs[0], FromBigEndian(bs[2..10]), bs[10..])
    else ParseBody(bs[0], bs[1] % 128, bs[2..])
  }

  /** Everything the loop ought to do with a byte stream: frame by frame, up to the first close. */
  function Decode(bs: bytes): seq<Action>
    decreases |bs|
  {
    match ParseClient(bs)
    case Whole(f, rest) => if React(f).Close? then [React(f)] else [React(f)] + Decode(rest)
    case NotMasked => [Close(1002, UNMASKED_REASON)]
    case _ => []
  }

  // ---- The invariant -------------------------------------------------------------------------------

  /** No byte is lost or duplicated, and the handshake residue stays as long as it was. */
  predicate Conserved(st: State, residue: nat) {
    && st.consumed + st.buffer + st.socket == st.stream
    && |st.buffer| == residue + st.got
    && (Reading(st.phase) ==> st.got <= Need(st.phase))
  }

  predicate BodyReady(op: byte, n: nat, partial: bytes) {
    && |partial| >= 2 && partial[0] == op && partial[1] >= 128
    && if partial[1] == 254 then |partial| == 4 && n == FromBigEndian(partial[2..])
       else if partial[1] == 255 then
         |partial| == 10 && ReadableLength(partial[2..]) && n == FromBigEndian(partial[2..])
       else |partial| == 2 && n == partial[1] % 128
  }

  /** The bytes of the frame read so far are what brought the loop into its phase. */
  predicate PartialMatches(phase: Phase, partial: bytes) {
    match phase
    case First => partial == []
    case Length2(op) => |partial| == 2 && partial[0] == op && partial[1] == 254
    case Length8(op) => |partial| == 2 && partial[0] == op && partial[1] == 255
    case Body(op, n) => BodyReady(op, n, partial)
    case Unspecified => |partial| == 10 && partial[1] == 255 && !ReadableLength(partial[2..])
    case _ => true
  }

  function Then(done: bytes, more: bytes): bytes { done + more }

  /** Having read `done`, whole frames only, the loop has done `out` and goes on with whatever follows. */
  ghost predicate Settled(done: bytes, out: seq<Action>) {
    forall more: bytes {:trigger Then(done, more)} :: Decode(Then(done, more)) == out + Decode(more)
  }

  /** Having read `done`, the loop has done `out` and nothing that follows makes a difference. */
  ghost predicate Final(done: bytes, out: seq<Action>) {
    forall more: bytes {:trigger Then(done, more)} :: Decode(Then(done, more)) == out
  }

  lemma SettledAt(done: bytes, out: seq<Action>, more: bytes)
    requires Settled(done, out)
    ensures Decode(done + more) == out + Decode(more)
  {
    assert Then(done, more) == done + more;
  }

  lemma FinalAt(done: bytes, out: seq<Action>, more: bytes)
    requires Final(done, out)
    ensures Decode(done + more) == out
  {
    assert Then(done, more) == done + more;
  }

  ghost predicate Faithful(st: State) {
    match st.phase
    case Closed => Final(st.consumed, st.out)
    case Failed =>
      && st.out != [] && st.out[|st.out| - 1] == Error
      && |st.partial| <= |st.consumed|
      && Settled(st.consumed[..|st.consumed| - |st.partial|], st.out[..|st.out| - 1])
    case _ =>
      && |st.partial| <= |st.consumed|
      && st.partial == st.consumed[|st.consumed| - |st.partial|..]
      && Settled(st.consumed[..|st.consumed| - |st.partial|], st.out)
      && PartialMatches(st.phase, st.partial)
  }

  lemma ParseAfterBodyHeader(op: byte, n: nat, partial: bytes, more: bytes)
    requires BodyReady(op, n, partial)
    ensures ParseClient(partial + more) == ParseBody(op, n, more)
  {
    var bs := partial + more;
    assert bs[|partial|..] == more;
    assert bs[2..|partial|] == partial[2..];
  }

  lemma DecodeNothing(bs: bytes)
    requires ParseClient(bs) == More || ParseClient(bs) == BadLength
    ensures Decode(bs) == []
  {}

  lemma ShortHeader(bs: bytes)
    requires |bs| < 2 || (bs[1] == 254 && |bs| < 4) || (bs[1] == 255 && |bs| < 10)
    ensures ParseClient(bs) == More
  {}

  lemma PartialAt<T>(partial: seq<T>, more: seq<T>, i: nat)
    requires i < |partial|
    ensures (partial + more)[i] == partial[i]
  {}

  /** A frame that is being read and still lacks bytes does nothing yet. */
  lemma PartialIsMore(phase: Phase, partial: bytes, more: bytes)
    requires Reading(phase) && PartialMatches(phase, partial) && |more| < Need(phase)
    ensures Decode(partial + more) == []
  {
    if phase.Body? {
      ParseAfterBodyHeader(phase.opcode, phase.length, partial, more);
    } else {
      if !phase.First? { PartialAt(partial, more, 1); }
      ShortHeader(partial + more);
    }
    DecodeNothing(partial + more);
  }

  lemma UnspecifiedIsSilent(partial: bytes, more: bytes)
    requires PartialMatches(Unspecified, partial)
    ensures Decode(partial + more) == []
  {
    PartialAt(partial, more, 1);
    assert (partial + more)[2..10] == partial[2..];
    DecodeNothing(partial + more);
  }

  lemma SettledThen(done: bytes, out: seq<Action>, frame: bytes, more: bytes)
    requires Settled(done, out)
    ensures Decode(done + frame + more) == out + Decode(frame + more)
  {
    Assoc(done, frame, more);
    SettledAt(done, out, frame + more);
  }

  lemma SettledGrows(done: bytes, out: seq<Action>, frame: bytes, action: Action)
    requires Settled(done, out) && Settled(frame, [action])
    ensures Settled(done + frame, out + [action])
  {
    forall more: bytes ensures Decode(Then(done + frame, more)) == out + [action] + Decode(more) {
      SettledThen(done, out, frame, more);
      SettledAt(frame, [action], more);
      Assoc(out, [action], Decode(more));
    }
  }

  lemma FinalGrows(done: bytes, out: seq<Action>, frame: bytes, action: Action)
    requires Settled(done, out) && Final(frame, [action])
    ensures Final(done + frame, out + [action])
  {
    forall more: bytes ensures Decode(Then(done + frame, more)) == out + [action] {
      SettledThen(done, out, frame, more);
      FinalAt(frame, [action], more);
    }
  }

  lemma BodyTaken(op: byte, n: nat, partial: bytes, taken: bytes, more: bytes)
    requires BodyReady(op, n, partial) && |taken| == 4 + n
    ensures ParseClient(partial + taken + more) == Whole(Frame(op, ApplyMask(taken[4..], taken[..4])), more)
  {
    assert partial + taken + more == partial + (taken + more);
    ParseAfterBodyHeader(op, n, partial, taken + more);
    var bs := taken + more;
    assert bs[4..4 + n] == taken[4..] && bs[..4] == taken[..4] && bs[4 + n..] == more;
  }

  /** A whole frame has its effect, and the decoder goes on behind it unless it closes. */
  lemma WholeFrame(op: byte, n: nat, partial: bytes, taken: bytes)
    requires BodyReady(op, n, partial) && |taken| == 4 + n
    ensures var a := React(Frame(op, ApplyMask(taken[4..], taken[..4])));
            if a.Close? then Final(partial + taken, [a]) else Settled(partial + taken, [a])
  {
    var a := React(Frame(op, ApplyMask(taken[4..], taken[..4])));
    forall more: bytes
      ensures Decode(Then(partial + taken, more)) == if a.Close? then [a] else [a] + Decode(more)
    {
      BodyTaken(op, n, partial, taken, more);
    }
  }

  lemma UnmaskedIsFinal(taken: bytes)
    requires |taken| == 2 && taken[1] < 128
    ensures Final(taken, [Close(1002, UNMASKED_REASON)])
  {}

  /** The frame under way: what was consumed before it began, and its own bytes. */
  function Done(st: State): bytes
    requires |st.partial| <= |st.consumed|
  {
    st.consumed[..|st.consumed| - |st.partial|]
  }

  lemma StepConserves(st: State, ev: Event, residue: nat)
    requires Conserved(st, residue) && Enabled(st, ev)
    ensures Conserved(Step(st, ev), residue)
  {
    match ev
    case Transfer(n) =>
      assert st.socket == st.socket[..n] + st.socket[n..];
      Assoc(st.consumed + st.buffer, st.socket[..n], st.socket[n..]);
      Assoc(st.consumed, st.buffer, st.socket[..n]);
    case Complete =>
      assert st.buffer == st.buffer[..st.got] + st.buffer[st.got..];
      Assoc(st.consumed, st.buffer[..st.got], st.buffer[st.got..]);
    case Arrive(bs) =>
      Assoc(st.consumed + st.buffer, st.socket, bs);
    case _ =>
  }

  lemma LengthTaken(partial: bytes, taken: bytes)
    requires |partial| == 2
    ensures var bs := partial + taken;
            |bs| == 2 + |taken| && bs[0] == partial[0] && bs[1] == partial[1] && bs[2..] == taken
  {}

  lemma HeaderTaken(phase: Phase, partial: bytes, taken: bytes)
    requires (phase.First? || phase.Length2? || phase.Length8?) && |taken| == Need(phase)
    requires PartialMatches(phase, partial) && !Handle(phase, taken).0.Closed?
    ensures PartialMatches(Handle(phase, taken).0, partial + taken)
    ensures Handle(phase, taken).1 == [] && !Handle(phase, taken).0.First?
  {
    match phase
    case First => assert partial + taken == taken;
    case Length2(_) => LengthTaken(partial, taken);
    case Length8(_) => LengthTaken(partial, taken);
  }

  lemma SettledAtStart()
    ensures Settled([], [])
  {
    forall more: bytes ensures Decode(Then([], more)) == [] + Decode(more) {
      assert Then([], more) == more;
    }
  }

  lemma BodyEffect(op: byte, n: nat, done: bytes, out: seq<Action>, partial: bytes, taken: bytes)
    requires Settled(done, out) && BodyReady(op, n, partial) && |taken| == 4 + n
    ensures var (phase, actions) := Handle(Body(op, n), taken);
            if phase.Closed? then Final(done + (partial + taken), out + actions)
            else phase.First? && Settled(done + (partial + taken), out + actions)
  {
    WholeFrame(op, n, partial, taken);
    var (phase, actions) := Handle(Body(op, n), taken);
    if phase.Closed? {
      FinalGrows(done, out, partial + taken, actions[0]);
    } else {
      SettledGrows(done, out, partial + taken, actions[0]);
    }
  }

  lemma BetweenFrames(st: State)
    requires st.phase.First? || st.phase.Closed?
    requires st.phase.Closed? ==> Final(st.consumed, st.out)
    requires st.phase.First? ==> st.partial == [] && Settled(st.consumed, st.out)
    ensures Faithful(st)
  {
    assert st.consumed[..|st.consumed|] == st.consumed && st.consumed[|st.consumed|..] == [];
  }

  /** A finished message read: the frame takes effect, and the next one begins unless it closed. */
  lemma BodyIsFaithful(st: State)
    requires Faithful(st) && Enabled(st, Complete) && st.phase.Body?
    ensures Faithful(Step(st, Complete))
  {
    var taken := st.buffer[..st.got];
    var done := Done(st);
    assert done + st.partial == st.consumed;
    Assoc(done, st.partial, taken);
    BodyEffect(st.phase.opcode, st.phase.length, done, st.out, st.partial, taken);
    BetweenFrames(Step(st, Complete));
  }

  lemma UnmaskedIsFaithful(st: State)
    requires Faithful(st) && Enabled(st, Complete) && st.phase.First? && st.buffer[1] < 128
    ensures Faithful(Step(st, Complete))
  {
    var taken := st.buffer[..st.got];
    UnmaskedIsFinal(taken);
    assert Done(st) == st.consumed;
    FinalGrows(st.consumed, st.out, taken, Close(1002, UNMASKED_REASON));
  }

  lemma HeaderStep(st: State)
    requires Enabled(st, Complete) && !Handle(st.phase, st.buffer[..st.got]).0.First?
    requires Handle(st.phase, st.buffer[..st.got]).1 == []
    ensures var st', taken := Step(st, Complete), st.buffer[..st.got];
            && st'.consumed == st.consumed + taken && st'.partial == st.partial + taken && st'.out == st.out
            && st'.phase == Handle(st.phase, taken).0
  {
    assert st.out + [] == st.out;
  }

  lemma SplitBack<T>(a: seq<T>, b: seq<T>)
    ensures (a + b)[..|a + b| - |b|] == a && (a + b)[|a + b| - |b|..] == b
  {}

  /** More bytes of a frame leave what came before it as it was. */
  lemma StillInFrame(done: bytes, partial: bytes, taken: bytes, consumed: bytes, out: seq<Action>, st: State)
    requires done + partial == consumed && Settled(done, out)
    requires st.consumed == consumed + taken && st.partial == partial + taken && st.out == out
    requires PartialMatches(st.phase, st.partial) && !st.phase.Closed? && !st.phase.Failed?
    ensures Faithful(st)
  {
    Assoc(done, partial, taken);
    SplitBack(done, partial + taken);
  }

  /** A finished header read does nothing yet. */
  lemma HeaderIsFaithful(st: State)
    requires Faithful(st) && Enabled(st, Complete) && !st.phase.Body?
    requires st.phase.First? ==> st.buffer[1] >= 128
    ensures Faithful(Step(st, Complete))
  {
    var taken := st.buffer[..st.got];
    HeaderTaken(st.phase, st.partial, taken);
    HeaderStep(st);
    StillInFrame(Done(st), st.partial, taken, st.consumed, st.out, Step(st, Complete));
  }

  lemma FailIsFaithful(st: State)
    requires Faithful(st) && Reading(st.phase)
    ensures Faithful(Step(st, Fail))
  {
    assert (st.out + [Error])[..|st.out|] == st.out;
  }

  lemma StepIsFaithful(st: State, ev: Event)
    requires Faithful(st) && Enabled(st, ev)
    ensures Faithful(Step(st, ev))
  {
    match ev
    case Complete =>
      if st.phase.Body? { BodyIsFaithful(st); }
      else if st.phase.First? && st.buffer[1] < 128 { UnmaskedIsFaithful(st); }
      else { HeaderIsFaithful(st); }
    case Fail => FailIsFaithful(st);
    case _ =>
  }

  lemma {:induction false} RunInvariant(st: State, evs: seq<Event>, residue: nat)
    requires Conserved(st, residue) && Faithful(st) && ValidRun(st, evs)
    ensures Conserved(Exec(st, evs), residue) && Faithful(Exec(st, evs))
    decreases |evs|
  {
    if evs != [] {
      StepConserves(st, evs[0], residue);
      StepIsFaithful(st, evs[0]);
      RunInvariant(Step(st, evs[0]), evs[1..], residue);
    }
  }

  lemma FromStart(residue: bytes, evs: seq<Event>)
    requires ValidRun(Start(residue), evs)
    ensures Conserved(Exec(Start(residue), evs), |residue|) && Faithful(Exec(Start(residue), evs))
  {
    SettledAtStart();
    RunInvariant(Start(residue), evs, |residue|);
  }
}
