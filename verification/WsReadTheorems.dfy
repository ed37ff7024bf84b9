/** What the read loop guarantees over every run, and the frames of section 5.3 of RFC 6455 it understands. */
module WsReadTheorems {
  import opened Bytes
  import opened WsFrame
  import opened WsRead

  /**
   * Every read takes out of the buffer exactly as many bytes as it put in: the bytes left over from the
   * handshake keep their number, and what is consumed is always a prefix of that residue and the arrivals.
   */
  lemma ResidueStaysConstant(residue: bytes, evs: seq<Event>)
    requires ValidRun(Start(residue), evs)
    ensures var st := Exec(Start(residue), evs);
            && |st.buffer| == |residue| + st.got
            && st.consumed + st.buffer + st.socket == st.stream
            && st.consumed <= st.stream
  {
    FromStart(residue, evs);
    var st := Exec(Start(residue), evs);
    Assoc(st.consumed, st.buffer, st.socket);
  }

  lemma {:induction false} ExecAppend(st: State, evs: seq<Event>, more: seq<Event>)
    requires ValidRun(st, evs) && ValidRun(Exec(st, evs), more)
    ensures ValidRun(st, evs + more) && Exec(st, evs + more) == Exec(Exec(st, evs), more)
    decreases |evs|
  {
    if evs == [] {
      assert evs + more == more;
    } else {
      assert (evs + more)[1..] == evs[1..] + more;
      ExecAppend(Step(st, evs[0]), evs[1..], more);
    }
  }

  /** The loop's actions proper, without a final read error. */
  function Actions(st: State): seq<Action> {
    if st.phase.Failed? && st.out != [] then st.out[..|st.out| - 1] else st.out
  }

  lemma SettledIsPrefix(done: bytes, out: seq<Action>, more: bytes)
    requires Settled(done, out)
    ensures out <= Decode(done + more)
  {
    SettledAt(done, out, more);
  }

  lemma ConsumedIsAhead(st: State, rest: bytes)
    requires Faithful(st)
    ensures Actions(st) <= Decode(st.consumed + rest)
  {
    if st.phase.Closed? {
      FinalAt(st.consumed, st.out, rest);
    } else {
      var done, partial := Done(st), st.consumed[|Done(st)|..];
      assert done + partial == st.consumed;
      Assoc(done, partial, rest);
      SettledIsPrefix(done, Actions(st), partial + rest);
    }
  }

  /** At any moment of any run the loop has done nothing but a prefix of what the whole stream asks for. */
  lemma NeverAheadOfStream(residue: bytes, evs: seq<Event>)
    requires ValidRun(Start(residue), evs)
    ensures var st := Exec(Start(residue), evs); Actions(st) <= Decode(st.stream)
  {
    FromStart(residue, evs);
    var st := Exec(Start(residue), evs);
    Assoc(st.consumed, st.buffer, st.socket);
    ConsumedIsAhead(st, st.buffer + st.socket);
  }

  /** Nothing is left to transfer and no handler is due. */
  predicate Idle(st: State) {
    && !st.phase.Failed?
    && (Reading(st.phase) ==> st.socket == [] && st.got < Need(st.phase))
  }

  lemma KeepBack(consumed: bytes, tail: bytes, residue: nat)
    requires residue <= |tail|
    ensures (consumed + tail)[..|consumed + tail| - residue] == consumed + tail[..|tail| - residue]
  {}

  /** A frame under way that lacks bytes, or has an unspecified length, does nothing. */
  lemma FrameIsSilent(phase: Phase, partial: bytes, more: bytes)
    requires (Reading(phase) || phase.Unspecified?) && PartialMatches(phase, partial)
    requires Reading(phase) ==> |more| < Need(phase)
    ensures Decode(partial + more) == []
  {
    if phase.Unspecified? {
      UnspecifiedIsSilent(partial, more);
    } else {
      PartialIsMore(phase, partial, more);
    }
  }

  /** The bytes after those consumed do nothing if too few of them have been transferred for the next read. */
  lemma IdleTailIsSilent(st: State, more: bytes)
    requires Faithful(st) && Idle(st) && (Reading(st.phase) ==> |more| < Need(st.phase))
    ensures Decode(st.consumed + more) == st.out
  {
    if st.phase.Closed? {
      FinalAt(st.consumed, st.out, more);
    } else {
      FrameIsSilent(st.phase, st.partial, more);
      assert Done(st) + st.partial == st.consumed;
      SettledThen(Done(st), st.out, st.partial, more);
      assert st.out + [] == st.out;
    }
  }

  lemma TailKept(st: State, residue: nat) returns (more: bytes)
    requires Conserved(st, residue) && Idle(st)
    ensures residue <= |st.stream| && st.stream[..|st.stream| - residue] == st.consumed + more
    ensures Reading(st.phase) ==> |more| < Need(st.phase)
  {
    var tail := st.buffer + st.socket;
    Assoc(st.consumed, st.buffer, st.socket);
    KeepBack(st.consumed, tail, residue);
    more := tail[..|tail| - residue];
  }

  lemma IdleHasDecoded(st: State, residue: nat)
    requires Conserved(st, residue) && Faithful(st) && Idle(st)
    ensures residue <= |st.stream| && st.out == Decode(st.stream[..|st.stream| - residue])
  {
    var more := TailKept(st, residue);
    IdleTailIsSilent(st, more);
  }

  /**
   * Once everything that arrived has been handled, the loop has done exactly what the stream without its
   * last |residue| bytes asks for, however the bytes were cut up on arrival. With nothing left over from
   * the handshake that is the whole stream.
   */
  lemma IdleHasDecodedEverything(residue: bytes, evs: seq<Event>)
    requires ValidRun(Start(residue), evs) && Idle(Exec(Start(residue), evs))
    ensures var st := Exec(Start(residue), evs);
            |residue| <= |st.stream| && st.out == Decode(st.stream[..|st.stream| - |residue|])
  {
    FromStart(residue, evs);
    IdleHasDecoded(Exec(Start(residue), evs), |residue|);
  }

  // ---- Masked client frames ------------------------------------------------------------------------

  type Key = k: bytes | |k| == 4 witness [0, 0, 0, 0]

  /** A client frame with its masking key. */
  datatype Masked = Masked(frame: Frame, mask: Key)

  const MAX_READABLE: nat := 0x8000_0000

  predicate Readable(m: Masked) {
    |m.frame.payload| < MAX_READABLE
  }

  /** The frame header with the mask bit set, in the shortest form. */
  function ClientHeader(opcode: byte, n: nat): bytes {
    if n < 126 then [opcode, 128 + n]
    else if n <= 0xffff then [opcode, 254] + BigEndian(n, 2)
    else [opcode, 255] + BigEndian(n, 8)
  }

  function EncodeMasked(m: Masked): bytes {
    ClientHeader(m.frame.opcode, |m.frame.payload|) + m.mask + ApplyMask(m.frame.payload, m.mask)
  }

  function EncodeAllMasked(ms: seq<Masked>): bytes {
    if ms == [] then [] else EncodeMasked(ms[0]) + EncodeAllMasked(ms[1..])
  }

  lemma FourBytes(bs: bytes)
    requires |bs| == 4
    ensures FromBigEndian(bs) == 0 <==> bs[0] == bs[1] == bs[2] == bs[3] == 0
  {
    FromBigEndianOne(bs);
    FromBigEndianOne(bs[..3]);
    FromBigEndianOne(bs[..2]);
    FromBigEndianOne(bs[..1]);
    assert bs[..3][..2] == bs[..2] && bs[..2][..1] == bs[..1] && bs[..1][..0] == [];
  }

  /**
   * With zero bytes shifted by any count taken as zero, the source's 64-bit length reader gives a value exactly for
   * lengths below 2^31.
   */
  lemma ReadableExactlyBelow2To31(bs: bytes)
    requires |bs| == 8
    ensures ReadableLength(bs) <==> FromBigEndian(bs) < MAX_READABLE
  {
    FromBigEndianOne(bs);
    FromBigEndianOne(bs[..7]);
    FromBigEndianOne(bs[..6]);
    assert bs[..7][..6] == bs[..6] && bs[..6][..5] == bs[..5] && bs[..5][..4] == bs[..4];
    FromBigEndianOne(bs[..5]);
    var high := FromBigEndian(bs[..4]);
    assert high == 0 <==> bs[0] == bs[1] == bs[2] == bs[3] == 0 by { FourBytes(bs[..4]); }
    var b4: int, b5: int, b6: int, b7: int := bs[4], bs[5], bs[6], bs[7];
    assert FromBigEndian(bs) == high * 0x1_0000_0000 + b4 * 0x100_0000 + b5 * 0x1_0000 + b6 * 256 + b7;
  }

  lemma BodyRoundTrip(opcode: byte, payload: bytes, mask: bytes, rest: bytes)
    requires |mask| == 4
    ensures ParseBody(opcode, |payload|, mask + ApplyMask(payload, mask) + rest) == Whole(Frame(opcode, payload), rest)
  {
    var bs := mask + ApplyMask(payload, mask) + rest;
    assert bs[4..4 + |payload|] == ApplyMask(payload, mask) && bs[..4] == mask && bs[4 + |payload|..] == rest;
    MaskInvolution(payload, mask);
  }

  lemma TwoByteHeader(opcode: byte, n: nat, more: bytes)
    requires n <= 0xffff
    ensures ParseClient([opcode, 254] + BigEndian(n, 2) + more) == ParseBody(opcode, n, more)
  {
    Pow256Values();
    BigEndianRoundTrip(n, 2);
    Parts(opcode, 254, BigEndian(n, 2), more);
  }

  lemma LongHeader(bs: bytes, l: bytes, more: bytes)
    requires |bs| >= 10 && bs[1] == 255 && bs[2..10] == l && bs[10..] == more && ReadableLength(l)
    ensures ParseClient(bs) == ParseBody(bs[0], FromBigEndian(l), more)
  {}

  lemma EightByteHeader(opcode: byte, n: nat, more: bytes)
    requires n < MAX_READABLE
    ensures ParseClient([opcode, 255] + BigEndian(n, 8) + more) == ParseBody(opcode, n, more)
  {
    var l := BigEndian(n, 8);
    Pow256Values();
    BigEndianRoundTrip(n, 8);
    ReadableExactlyBelow2To31(l);
    Parts(opcode, 255, l, more);
    LongHeader([opcode, 255] + l + more, l, more);
  }

  lemma HeaderRoundTrip(opcode: byte, n: nat, more: bytes)
    requires n < MAX_READABLE
    ensures ParseClient(ClientHeader(opcode, n) + more) == ParseBody(opcode, n, more)
  {
    if n < 126 {
      Parts(opcode, 128 + n, [], more);
      assert ClientHeader(opcode, n) + more == [opcode, 128 + n] + [] + more;
    } else if n <= 0xffff {
      TwoByteHeader(opcode, n, more);
    } else {
      EightByteHeader(opcode, n, more);
    }
  }

  /** A masked frame is taken apart into the frame the client meant, whatever follows it. */
  lemma MaskedRoundTrip(m: Masked, rest: bytes)
    requires Readable(m)
    ensures ParseClient(EncodeMasked(m) + rest) == Whole(m.frame, rest)
  {
    var n := |m.frame.payload|;
    var header, masked := ClientHeader(m.frame.opcode, n), ApplyMask(m.frame.payload, m.mask);
    HeaderRoundTrip(m.frame.opcode, n, m.mask + masked + rest);
    BodyRoundTrip(m.frame.opcode, m.frame.payload, m.mask, rest);
    Assoc(header, m.mask, masked);
    Assoc(header, m.mask + masked, rest);
  }

  lemma {:induction false} ZeroBits(b: nat, k: nat)
    requires b < Pow2(k)
    ensures XorBits(0, b, k) == b
  {
    if k > 0 {
      ZeroBits(b / 2, k - 1);
    }
  }

  lemma ZeroUnderMask(b: byte)
    ensures Xor(0, b) == b
  {
    assert Pow2(8) == 256 by { assert Pow2(4) == 16; }
    ZeroBits(b, 8);
  }

  lemma MaskOfZeros(n: nat, key: Key, c: nat)
    requires c < n
    ensures ApplyMask(seq(n, _ => 0), key)[c] == key[c % 4]
  {
    ZeroUnderMask(key[c % 4]);
  }

  /** A client frame of zeros ends with its key, repeated from the first byte on. */
  lemma ZerosShowTheKey(opcode: byte, n: nat, key: Key, c: nat)
    requires c < n
    ensures var bs := EncodeMasked(Masked(Frame(opcode, seq(n, _ => 0)), key));
            |bs| >= n + 4 && bs[|bs| - n - 4..|bs| - n] == key && bs[|bs| - n + c] == key[c % 4]
  {
    var zeros: bytes := seq(n, _ => 0);
    var header, body := ClientHeader(opcode, n), ApplyMask(zeros, key);
    var bs := EncodeMasked(Masked(Frame(opcode, zeros), key));
    assert bs == header + key + body;
    MaskOfZeros(n, key, c);
  }

  lemma HelloStart()
    ensures Xor(0x7f, 0x37) == 0x48 && Xor(0x9f, 0xfa) == 0x65
  {
    XorByNibbles(0x7f, 0x37);
    XorByNibbles(0x9f, 0xfa);
  }

  lemma HelloEnd()
    ensures Xor(0x4d, 0x21) == 0x6c && Xor(0x51, 0x3d) == 0x6c && Xor(0x58, 0x37) == 0x6f
  {
    XorByNibbles(0x4d, 0x21);
    XorByNibbles(0x51, 0x3d);
    XorByNibbles(0x58, 0x37);
  }

  lemma MaskedFive(masked: bytes, key: Key)
    requires |masked| == 5
    ensures ApplyMask(masked, key) ==
            [Xor(masked[0], key[0]), Xor(masked[1], key[1]), Xor(masked[2], key[2]), Xor(masked[3], key[3]),
             Xor(masked[4], key[0])]
  {}

  lemma ShortFrame(opcode: byte, key: Key, masked: bytes)
    requires |masked| < 126
    ensures ParseClient([opcode, 128 + |masked|] + key + masked) == Whole(Frame(opcode, ApplyMask(masked, key)), [])
  {
    var bs := [opcode, 128 + |masked|] + key + masked;
    assert bs[2..] == key + masked && (key + masked)[..4] == key && (key + masked)[4..] == masked;
    assert masked[..|masked|] == masked;
  }

  /** The masked "Hello" of section 5.7 of RFC 6455, under the key 0x37 0xfa 0x21 0x3d. */
  lemma MaskedHello(masked: bytes, key: Key)
    requires masked == [0x7f, 0x9f, 0x4d, 0x51, 0x58] && key == [0x37, 0xfa, 0x21, 0x3d]
    ensures ApplyMask(masked, key) == [0x48, 0x65, 0x6c, 0x6c, 0x6f]
    ensures ParseClient([0x81, 0x85] + key + masked) == Whole(Frame(0x81, [0x48, 0x65, 0x6c, 0x6c, 0x6f]), [])
  {
    ShortFrame(0x81, key, masked);
    MaskedFive(masked, key);
    HelloStart();
    HelloEnd();
  }

  predicate IsClose(f: Frame) { f.opcode % 16 == 8 }

  predicate IsPing(f: Frame) { f.opcode % 16 == 9 }

  /** The frames before the first close frame. */
  function BeforeClose(ms: seq<Masked>): seq<Frame> {
    if ms == [] || IsClose(ms[0].frame) then [] else [ms[0].frame] + BeforeClose(ms[1..])
  }

  function WithoutPings(fs: seq<Frame>): seq<Frame> {
    if fs == [] then [] else (if IsPing(fs[0]) then [] else [fs[0]]) + WithoutPings(fs[1..])
  }

  /** The messages handed to `onmessage`, as frames. */
  function Delivered(out: seq<Action>): seq<Frame> {
    if out == [] then []
    else (if out[0].Deliver? then [Frame(out[0].opcode, out[0].payload)] else []) + Delivered(out[1..])
  }

  function Closes(out: seq<Action>): seq<Action> {
    if out == [] then [] else (if out[0].Close? then [out[0]] else []) + Closes(out[1..])
  }

  /** Section 5.5.1 of RFC 6455: a close frame's status is its first two bytes; 0 stands for none. */
  function CloseStatus(payload: bytes): nat {
    if |payload| < 2 then 0 else FromBigEndian(payload[..2])
  }

  function CloseReason(payload: bytes): bytes {
    if |payload| < 2 then payload else payload[2..]
  }

  /** The status and reason of the first close frame. */
  function FirstClose(ms: seq<Masked>): seq<Action> {
    if ms == [] then []
    else if IsClose(ms[0].frame) then [Close(CloseStatus(ms[0].frame.payload), CloseReason(ms[0].frame.payload))]
    else FirstClose(ms[1..])
  }

  /** The opcode bytes of the pongs sent. */
  function Pongs(out: seq<Action>): bytes {
    if out == [] then [] else (if out[0].Pong? then [out[0].opcode] else []) + Pongs(out[1..])
  }

  /** The opcode byte of a pong with the flags of its ping. */
  function PongOpcode(ping: byte): byte { ping / 16 * 16 + 10 }

  function PongsFor(fs: seq<Frame>): bytes {
    if fs == [] then [] else (if IsPing(fs[0]) then [PongOpcode(fs[0].opcode)] else []) + PongsFor(fs[1..])
  }

  /** What a message does, in the standard's terms. */
  lemma ReactIs(f: Frame)
    ensures React(f) == if IsClose(f) then Close(CloseStatus(f.payload), CloseReason(f.payload))
                        else if IsPing(f) then Pong(PongOpcode(f.opcode))
                        else Deliver(f.opcode, f.payload)
  {
    if |f.payload| >= 2 {
      var two := f.payload[..2];
      assert two[..1][..0] == [] && two[..1] == [two[0]];
      assert FromBigEndian(two[..1]) == two[0];
      assert FromBigEndian(two) == FromBigEndian(two[..1]) * 256 + two[1];
    }
    if IsPing(f) {
      var op: int := f.opcode;
      assert op + 1 == op / 16 * 16 + 10;
    }
  }

  lemma DecodeWhole(bs: bytes, f: Frame, rest: bytes)
    requires ParseClient(bs) == Whole(f, rest)
    ensures Decode(bs) == if React(f).Close? then [React(f)] else [React(f)] + Decode(rest)
  {}

  lemma ActionsOfOne(a: Action, more: seq<Action>)
    ensures Delivered([a] + more) == (if a.Deliver? then [Frame(a.opcode, a.payload)] else []) + Delivered(more)
    ensures Closes([a] + more) == (if a.Close? then [a] else []) + Closes(more)
    ensures Pongs([a] + more) == (if a.Pong? then [a.opcode] else []) + Pongs(more)
  {
    assert ([a] + more)[1..] == more;
  }

  /** Decoding what a client sends gives back its non-ping frames up to its first close, and that close. */
  lemma {:induction false} DecodeRoundTrip(ms: seq<Masked>)
    requires forall m <- ms :: Readable(m)
    ensures Delivered(Decode(EncodeAllMasked(ms))) == WithoutPings(BeforeClose(ms))
    ensures Closes(Decode(EncodeAllMasked(ms))) == FirstClose(ms)
    ensures Pongs(Decode(EncodeAllMasked(ms))) == PongsFor(BeforeClose(ms))
  {
    if ms == [] {
      DecodeNothing([]);
    } else {
      assert ms[0] in ms;
      var f, rest := ms[0].frame, EncodeAllMasked(ms[1..]);
      MaskedRoundTrip(ms[0], rest);
      DecodeWhole(EncodeAllMasked(ms), f, rest);
      DecodeRoundTrip(ms[1..]);
      ReactIs(f);
      if IsClose(f) {
        ActionsOfOne(React(f), []);
        assert [React(f)] + [] == [React(f)];
      } else {
        ActionsOfOne(React(f), Decode(rest));
        assert ([f] + BeforeClose(ms[1..]))[1..] == BeforeClose(ms[1..]);
      }
    }
  }

  /** An unmasked frame is refused: status 1002, and the reason the source gives. */
  lemma {:induction false} UnmaskedIsRefused(ms: seq<Masked>, more: bytes)
    requires (forall m <- ms :: Readable(m) && !IsClose(m.frame)) && |more| >= 2 && more[1] < 128
    ensures Decode(EncodeAllMasked(ms) + more) ==
            Decode(EncodeAllMasked(ms)) + [Close(1002, Ascii("message from client not masked"))]
  {
    if ms == [] {
      DecodeNothing([]);
      assert EncodeAllMasked(ms) + more == more;
    } else {
      assert ms[0] in ms && forall m <- ms[1..] :: m in ms;
      var first, rest := EncodeMasked(ms[0]), EncodeAllMasked(ms[1..]);
      UnmaskedIsRefused(ms[1..], more);
      Assoc(first, rest, more);
      MaskedRoundTrip(ms[0], rest);
      MaskedRoundTrip(ms[0], rest + more);
      DecodeWhole(first + rest, ms[0].frame, rest);
      DecodeWhole(first + (rest + more), ms[0].frame, rest + more);
      ReactIs(ms[0].frame);
      Assoc([React(ms[0].frame)], Decode(rest), [Close(1002, Ascii("message from client not masked"))]);
    }
  }

  // ---- A stream cut short ---------------------------------------------------------------------------

  lemma ShortMask(opcode: byte, n: nat, bs: bytes)
    requires |bs| < 4 + n
    ensures ParseBody(opcode, n, bs) == More
  {}

  lemma HeaderCut(opcode: byte, n: nat, k: nat)
    requires k < |ClientHeader(opcode, n)|
    ensures ParseClient(ClientHeader(opcode, n)[..k]) == More
  {
    var header := ClientHeader(opcode, n);
    if k >= 2 {
      assert header[..k][1] == header[1];
    }
    ShortHeader(header[..k]);
  }

  lemma CutBehind(header: bytes, body: bytes, k: nat)
    requires |header| <= k <= |header| + |body|
    ensures (header + body)[..k] == header + body[..k - |header|]
  {}

  lemma CutWithin(header: bytes, body: bytes, k: nat)
    requires k <= |header|
    ensures (header + body)[..k] == header[..k]
  {}

  /** A masked frame cut short anywhere is waited for. */
  lemma MaskedPrefixIsMore(m: Masked, k: nat)
    requires Readable(m) && k < |EncodeMasked(m)|
    ensures ParseClient(EncodeMasked(m)[..k]) == More
  {
    var op, n := m.frame.opcode, |m.frame.payload|;
    var header, body := ClientHeader(op, n), m.mask + ApplyMask(m.frame.payload, m.mask);
    Assoc(header, m.mask, ApplyMask(m.frame.payload, m.mask));
    if k < |header| {
      CutWithin(header, body, k);
      HeaderCut(op, n, k);
    } else {
      CutBehind(header, body, k);
      HeaderRoundTrip(op, n, body[..k - |header|]);
      ShortMask(op, n, body[..k - |header|]);
    }
  }

  /** The frames that lie wholly within the first n bytes. */
  function FitIn(ms: seq<Masked>, n: nat): seq<Masked> {
    if ms == [] || |EncodeMasked(ms[0])| > n then [] else [ms[0]] + FitIn(ms[1..], n - |EncodeMasked(ms[0])|)
  }

  lemma {:induction false} FitInIsPrefix(ms: seq<Masked>, n: nat)
    ensures FitIn(ms, n) <= ms
  {
    if ms != [] && |EncodeMasked(ms[0])| <= n {
      FitInIsPrefix(ms[1..], n - |EncodeMasked(ms[0])|);
      assert ms == [ms[0]] + ms[1..];
    }
  }

  /** All frames fit exactly if all bytes are there. */
  lemma {:induction false} AllFit(ms: seq<Masked>, n: nat)
    ensures FitIn(ms, n) == ms <==> |EncodeAllMasked(ms)| <= n
    ensures FitIn(ms, n) != ms ==> |FitIn(ms, n)| < |ms|
  {
    if ms != [] && |EncodeMasked(ms[0])| <= n {
      AllFit(ms[1..], n - |EncodeMasked(ms[0])|);
      assert ms == [ms[0]] + ms[1..];
    }
  }

  lemma SameBehindFrame(m: Masked, a: bytes, b: bytes)
    requires Readable(m) && Decode(a) == Decode(b)
    ensures Decode(EncodeMasked(m) + a) == Decode(EncodeMasked(m) + b)
  {
    MaskedRoundTrip(m, a);
    MaskedRoundTrip(m, b);
    DecodeWhole(EncodeMasked(m) + a, m.frame, a);
    DecodeWhole(EncodeMasked(m) + b, m.frame, b);
  }

  /** What a stream cut after n bytes asks for is what its whole frames ask for. */
  lemma {:induction false} DecodeCut(ms: seq<Masked>, n: nat)
    requires n <= |EncodeAllMasked(ms)| && forall m <- ms :: Readable(m)
    ensures Decode(EncodeAllMasked(ms)[..n]) == Decode(EncodeAllMasked(FitIn(ms, n)))
  {
    if ms == [] {
    } else {
      assert ms[0] in ms;
      var first, rest := EncodeMasked(ms[0]), EncodeAllMasked(ms[1..]);
      if |first| > n {
        CutWithin(first, rest, n);
        MaskedPrefixIsMore(ms[0], n);
        DecodeNothing(first[..n]);
        DecodeNothing([]);
      } else {
        var k := n - |first|;
        CutBehind(first, rest, n);
        DecodeCut(ms[1..], k);
        assert FitIn(ms, n)[1..] == FitIn(ms[1..], k);
        SameBehindFrame(ms[0], rest[..k], EncodeAllMasked(FitIn(ms[1..], k)));
      }
    }
  }

  /** The frames of a stream that an idle loop has handled: those that end before the last `residue` bytes. */
  function Seen(ms: seq<Masked>, residue: nat): (seen: seq<Masked>) {
    var n := |EncodeAllMasked(ms)|;
    FitIn(ms, if residue <= n then n - residue else 0)
  }

  lemma SeenIsPrefix(ms: seq<Masked>, residue: nat)
    ensures Seen(ms, residue) <= ms && (residue == 0 ==> Seen(ms, residue) == ms)
    ensures (forall m <- ms :: Readable(m)) ==> forall m <- Seen(ms, residue) :: Readable(m)
  {
    var n := |EncodeAllMasked(ms)|;
    var k := if residue <= n then n - residue else 0;
    FitInIsPrefix(ms, k);
    AllFit(ms, k);
    assert forall m <- FitIn(ms, k) :: m in ms;
  }

  /** An idle loop has done what the frames it has seen ask for. */
  lemma SeenIsDecoded(residue: bytes, ms: seq<Masked>, evs: seq<Event>)
    requires ValidRun(Start(residue), evs) && Idle(Exec(Start(residue), evs))
    requires Exec(Start(residue), evs).stream == EncodeAllMasked(ms) && forall m <- ms :: Readable(m)
    ensures Exec(Start(residue), evs).out == Decode(EncodeAllMasked(Seen(ms, |residue|)))
  {
    IdleHasDecodedEverything(residue, evs);
    DecodeCut(ms, |EncodeAllMasked(ms)| - |residue|);
  }

  /**
   * For every list of masked frames, however their bytes arrive: when the loop has nothing left to do it
   * has handed over exactly the non-ping frames before the first close, in order, each with its own opcode
   * byte and unmasked payload, has closed with that close frame's status and reason if there was one, and
   * has answered each ping before it; all this for the frames that end before the last bytes, as many as
   * were left over from the handshake, and so for all of them if nothing was.
   */
  lemma MessagesArriveIntact(residue: bytes, ms: seq<Masked>, evs: seq<Event>)
    requires forall m <- ms :: Readable(m)
    requires ValidRun(Start(residue), evs) && Idle(Exec(Start(residue), evs))
    requires Exec(Start(residue), evs).stream == EncodeAllMasked(ms)
    ensures var st, seen := Exec(Start(residue), evs), Seen(ms, |residue|);
            && Delivered(st.out) == WithoutPings(BeforeClose(seen))
            && Closes(st.out) == FirstClose(seen)
            && Pongs(st.out) == PongsFor(BeforeClose(seen))
    ensures residue == [] ==> Seen(ms, |residue|) == ms
  {
    SeenIsDecoded(residue, ms, evs);
    SeenIsPrefix(ms, |residue|);
    DecodeRoundTrip(Seen(ms, |residue|));
  }

  /** The frames up to the first close frame, which is one of them. */
  function ThroughClose(ms: seq<Masked>): seq<Masked> {
    if ms == [] then [] else if IsClose(ms[0].frame) then [ms[0]] else [ms[0]] + ThroughClose(ms[1..])
  }

  /** Each of these frames is handed over, answered or closes. */
  lemma {:induction false} PartsCount(ms: seq<Masked>)
    ensures |WithoutPings(BeforeClose(ms))| + |PongsFor(BeforeClose(ms))| + |FirstClose(ms)| == |ThroughClose(ms)|
  {
    if ms != [] && !IsClose(ms[0].frame) {
      PartsCount(ms[1..]);
      assert ([ms[0].frame] + BeforeClose(ms[1..]))[1..] == BeforeClose(ms[1..]);
    }
  }

  lemma ThroughFirst(ms: seq<Masked>)
    requires ms != []
    ensures |EncodeAllMasked(ThroughClose(ms))| ==
            |EncodeMasked(ms[0])| +
            if IsClose(ms[0].frame) then 0 else |EncodeAllMasked(ThroughClose(ms[1..]))|
  {
    if IsClose(ms[0].frame) {
      assert [ms[0]][1..] == [];
    } else {
      assert ([ms[0]] + ThroughClose(ms[1..]))[1..] == ThroughClose(ms[1..]);
    }
  }

  lemma FitFirst(ms: seq<Masked>, n: nat)
    requires ms != [] && |EncodeMasked(ms[0])| <= n
    ensures var more := FitIn(ms[1..], n - |EncodeMasked(ms[0])|);
            if IsClose(ms[0].frame) then
              BeforeClose(FitIn(ms, n)) == BeforeClose(ms) && FirstClose(FitIn(ms, n)) == FirstClose(ms)
            else
              && BeforeClose(FitIn(ms, n)) == [ms[0].frame] + BeforeClose(more)
              && FirstClose(FitIn(ms, n)) == FirstClose(more)
  {
    assert FitIn(ms, n)[1..] == FitIn(ms[1..], n - |EncodeMasked(ms[0])|);
  }

  /** If they all fit, what fits asks for the same as the whole list. */
  lemma {:induction false} AllThroughClose(ms: seq<Masked>, n: nat)
    requires |EncodeAllMasked(ThroughClose(ms))| <= n
    ensures BeforeClose(FitIn(ms, n)) == BeforeClose(ms) && FirstClose(FitIn(ms, n)) == FirstClose(ms)
  {
    if ms != [] {
      ThroughFirst(ms);
      FitFirst(ms, n);
      if !IsClose(ms[0].frame) {
        AllThroughClose(ms[1..], n - |EncodeMasked(ms[0])|);
      }
    }
  }

  /** If they do not, fewer of them fit. */
  lemma {:induction false} FewerThroughClose(ms: seq<Masked>, n: nat)
    requires |EncodeAllMasked(ThroughClose(ms))| > n
    ensures |ThroughClose(FitIn(ms, n))| < |ThroughClose(ms)|
  {
    if |EncodeMasked(ms[0])| <= n {
      ThroughFirst(ms);
      FewerThroughClose(ms[1..], n - |EncodeMasked(ms[0])|);
      assert FitIn(ms, n)[1..] == FitIn(ms[1..], n - |EncodeMasked(ms[0])|);
    }
  }

  /** What two lists of frames ask for is the same. */
  predicate SameWork(a: seq<Masked>, b: seq<Masked>) {
    && WithoutPings(BeforeClose(a)) == WithoutPings(BeforeClose(b))
    && PongsFor(BeforeClose(a)) == PongsFor(BeforeClose(b))
    && FirstClose(a) == FirstClose(b)
  }

  lemma SameWorkSameCount(a: seq<Masked>, b: seq<Masked>)
    requires SameWork(a, b)
    ensures |ThroughClose(a)| == |ThroughClose(b)|
  {
    PartsCount(a);
    PartsCount(b);
  }

  /** What fits asks for all the work exactly if everything through the first close fits. */
  lemma SameWorkExactly(ms: seq<Masked>, n: nat)
    ensures SameWork(FitIn(ms, n), ms) <==> |EncodeAllMasked(ThroughClose(ms))| <= n
  {
    if |EncodeAllMasked(ThroughClose(ms))| <= n {
      AllThroughClose(ms, n);
    } else {
      FewerThroughClose(ms, n);
      if SameWork(FitIn(ms, n), ms) {
        SameWorkSameCount(FitIn(ms, n), ms);
      }
    }
  }

  lemma ResidueFits(residue: bytes, evs: seq<Event>)
    requires ValidRun(Start(residue), evs) && Idle(Exec(Start(residue), evs))
    ensures |residue| <= |Exec(Start(residue), evs).stream|
  {
    IdleHasDecodedEverything(residue, evs);
  }

  /**
   * An idle loop has done all that a list of frames asks for exactly if behind the first close frame, or behind the
   * last frame if there is none, at least as many bytes have arrived as were left over from the handshake.
   */
  lemma AllHandledExactly(residue: bytes, ms: seq<Masked>, evs: seq<Event>)
    requires forall m <- ms :: Readable(m)
    requires ValidRun(Start(residue), evs) && Idle(Exec(Start(residue), evs))
    requires Exec(Start(residue), evs).stream == EncodeAllMasked(ms)
    ensures var out := Exec(Start(residue), evs).out;
            && Delivered(out) == WithoutPings(BeforeClose(ms)) && Pongs(out) == PongsFor(BeforeClose(ms))
            && Closes(out) == FirstClose(ms)
            <==> |residue| + |EncodeAllMasked(ThroughClose(ms))| <= |EncodeAllMasked(ms)|
  {
    ResidueFits(residue, evs);
    MessagesArriveIntact(residue, ms, evs);
    SameWorkExactly(ms, |EncodeAllMasked(ms)| - |residue|);
  }

  /** A frame that arrived together with the handshake is held back: nothing is under way, and nothing was done. */
  lemma FrameIsHeldBack(m: Masked)
    ensures Idle(Start(EncodeMasked(m))) && Start(EncodeMasked(m)).stream == EncodeAllMasked([m])
    ensures Start(EncodeMasked(m)).out == []
  {
    assert [m][1..] == [];
  }

  // ---- Progress -------------------------------------------------------------------------------------

  function Min(a: nat, b: nat): nat { if a < b then a else b }

  /** Left alone, the loop gets to the end of what has arrived. */
  lemma {:induction false} BecomesIdle(st: State, residue: nat) returns (evs: seq<Event>)
    requires Conserved(st, residue) && !st.phase.Failed?
    ensures ValidRun(st, evs) && Idle(Exec(st, evs)) && Exec(st, evs).stream == st.stream
    decreases |st.socket|, st.got
  {
    if Idle(st) {
      evs := [];
    } else {
      var ev := if st.got == Need(st.phase) then Complete else Transfer(Min(|st.socket|, Need(st.phase) - st.got));
      StepConserves(st, ev, residue);
      var more := BecomesIdle(Step(st, ev), residue);
      evs := [ev] + more;
      assert evs[1..] == more;
    }
  }

  /** Every run in which no read has failed can be continued until all that has arrived is handled. */
  lemma EverythingCanBeHandled(residue: bytes, evs: seq<Event>) returns (more: seq<Event>)
    requires ValidRun(Start(residue), evs) && !Exec(Start(residue), evs).phase.Failed?
    ensures ValidRun(Start(residue), evs + more) && Idle(Exec(Start(residue), evs + more))
    ensures Exec(Start(residue), evs + more).stream == Exec(Start(residue), evs).stream
  {
    FromStart(residue, evs);
    more := BecomesIdle(Exec(Start(residue), evs), |residue|);
    ExecAppend(Start(residue), evs, more);
  }
}
