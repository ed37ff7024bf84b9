/** Frames of section 5.2 of RFC 6455: the header the server writes, and the standard's own reading of it. */
module WsFrame {
  import opened Bytes

  datatype Frame = Frame(opcode: byte, payload: bytes)

  /** The header `send` puts before a payload of the given length (never masked). */
  function FrameHeader(opcode: byte, length: nat): bytes {
    if length < 126 then [opcode, length]
    else if length <= 0xffff then [opcode, 126] + BigEndian(length, 2)
    else [opcode, 127] + BigEndian(length, 8)
  }

  lemma BigEndianTwo(n: nat)
    requires n < 0x1_0000
    ensures BigEndian(n, 2) == [n / 256, n % 256]
  {
    assert BigEndian(n / 256, 1) == BigEndian(n / 256 / 256, 0) + [n / 256 % 256];
  }

  lemma BigEndianSplit(n: nat, k: nat)
    ensures BigEndian(n, k + 2) == BigEndian(n / 256 / 256, k) + [n / 256 % 256] + [n % 256]
  {
    assert BigEndian(n, k + 2) == BigEndian(n / 256, k + 1) + [n % 256];
  }

  lemma {:induction false} BigEndianZero(k: nat)
    ensures BigEndian(0, k) == seq(k, _ => 0)
  {
    if k > 0 {
      BigEndianZero(k - 1);
    }
  }

  /** The headers of section 5.7 of RFC 6455: a text of 5 bytes, 256 bytes and 64 KiB of binary data. */
  lemma HeaderExamples()
    ensures FrameHeader(0x81, 5) == [0x81, 0x05]
    ensures FrameHeader(0x82, 256) == [0x82, 0x7e, 0x01, 0x00]
    ensures FrameHeader(0x82, 0x1_0000) == [0x82, 0x7f, 0, 0, 0, 0, 0, 1, 0, 0]
  {
    BigEndianTwo(256);
    BigEndianSplit(0x1_0000, 6);
    BigEndianSplit(1, 4);
    BigEndianZero(4);
  }

  function Encode(f: Frame): bytes {
    FrameHeader(f.opcode, |f.payload|) + f.payload
  }

  function EncodeAll(fs: seq<Frame>): bytes {
    if fs == [] then [] else Encode(fs[0]) + EncodeAll(fs[1..])
  }

  const MAX_LENGTH: nat := 0x8000_0000_0000_0000

  /** The length bytes, shifted out one at a time, highest first. */
  method PutLength(length: nat, numBytes: nat) returns (bs: bytes)
    ensures bs == BigEndian(length, numBytes)
  {
    bs := [];
    var c := numBytes;
    while c > 0
      invariant 0 <= c <= numBytes
      invariant bs == BigEndian(ShiftRight(length, c), numBytes - c)
    {
      c := c - 1;
      BigEndianShift(length, c, numBytes - c - 1);
      bs := bs + [ShiftRight(length, c) % 256];
    }
  }

  method BuildHeader(opcode: byte, length: nat) returns (header: bytes)
    ensures header == FrameHeader(opcode, length)
  {
    header := [opcode];
    if length >= 126 {
      var numBytes;
      if length > 0xffff {
        numBytes := 8;
        header := header + [127];
      } else {
        numBytes := 2;
        header := header + [126];
      }
      var lengthBytes := PutLength(length, numBytes);
      header := header + lengthBytes;
    } else {
      header := header + [length];
    }
  }

  datatype Parse = Parsed(frame: Frame, rest: bytes) | Incomplete | Malformed

  function TakePayload(opcode: byte, length: nat, rest: bytes): Parse {
    if |rest| < length then Incomplete else Parsed(Frame(opcode, rest[..length]), rest[length..])
  }

  /**
   * What a client following section 5.2 of RFC 6455 makes of the next server frame: a mask bit, a length
   * that is not in its shortest form and a 64-bit length with its top bit set are all errors.
   */
  function ParseFrame(bs: bytes): (p: Parse)
    ensures p.Parsed? ==> |p.rest| < |bs|
  {
    if |bs| < 2 then Incomplete
    else if bs[1] >= 128 then Malformed
    else if bs[1] < 126 then TakePayload(bs[0], bs[1], bs[2..])
    else if bs[1] == 126 then
      if |bs| < 4 then Incomplete
      else if FromBigEndian(bs[2..4]) < 126 then Malformed
      else TakePayload(bs[0], FromBigEndian(bs[2..4]), bs[4..])
    else if |bs| < 10 then Incomplete
    else if !(0x1_0000 <= FromBigEndian(bs[2..10]) < MAX_LENGTH) then Malformed
    else TakePayload(bs[0], FromBigEndian(bs[2..10]), bs[10..])
  }

  datatype Stream = Stream(frames: seq<Frame>, tail: Parse)

  /** All the frames at the start of a byte stream, and why reading stopped. */
  function ParseStream(bs: bytes): Stream
    decreases |bs|
  {
    match ParseFrame(bs)
    case Parsed(f, rest) =>
      var s := ParseStream(rest); s.(frames := [f] + s.frames)
    case other => Stream([], other)
  }

  /** The parts of a frame with length bytes l, as they sit in a stream. */
  lemma Parts(opcode: byte, b: byte, l: bytes, p: bytes)
    ensures var bs := [opcode, b] + l + p;
            |bs| == 2 + |l| + |p| && bs[0] == opcode && bs[1] == b && bs[2..2 + |l|] == l && bs[2 + |l|..] == p
  {}

  lemma OneByteLength(opcode: byte, n: nat, more: bytes)
    requires n < 126
    ensures ParseFrame([opcode, n] + more) == TakePayload(opcode, n, more)
  {
    Parts(opcode, n, [], more);
    assert [opcode, n] + [] == [opcode, n];
  }

  lemma TwoByteLength(opcode: byte, n: nat, more: bytes)
    requires 126 <= n <= 0xffff
    ensures ParseFrame([opcode, 126] + BigEndian(n, 2) + more) == TakePayload(opcode, n, more)
  {
    Pow256Values();
    BigEndianRoundTrip(n, 2);
    Parts(opcode, 126, BigEndian(n, 2), more);
  }

  lemma EightByteLength(opcode: byte, n: nat, more: bytes)
    requires 0xffff < n < MAX_LENGTH
    ensures ParseFrame([opcode, 127] + BigEndian(n, 8) + more) == TakePayload(opcode, n, more)
  {
    Pow256Values();
    BigEndianRoundTrip(n, 8);
    Parts(opcode, 127, BigEndian(n, 8), more);
  }

  /** A header delimits its frame by itself. */
  lemma HeaderRead(opcode: byte, n: nat, more: bytes)
    requires n < MAX_LENGTH
    ensures ParseFrame(FrameHeader(opcode, n) + more) == TakePayload(opcode, n, more)
  {
    if n < 126 {
      OneByteLength(opcode, n, more);
    } else if n <= 0xffff {
      TwoByteLength(opcode, n, more);
    } else {
      EightByteLength(opcode, n, more);
    }
  }

  lemma PayloadRead(opcode: byte, payload: bytes, rest: bytes)
    ensures TakePayload(opcode, |payload|, payload + rest) == Parsed(Frame(opcode, payload), rest)
  {
    assert (payload + rest)[..|payload|] == payload && (payload + rest)[|payload|..] == rest;
  }

  /** A written frame is read back, whatever follows it. */
  lemma FrameRoundTrip(f: Frame, rest: bytes)
    requires |f.payload| < MAX_LENGTH
    ensures ParseFrame(Encode(f) + rest) == Parsed(f, rest)
  {
    var header := FrameHeader(f.opcode, |f.payload|);
    HeaderRead(f.opcode, |f.payload|, f.payload + rest);
    PayloadRead(f.opcode, f.payload, rest);
    Assoc(header, f.payload, rest);
  }

  lemma JoinParts(h: bytes, tail: bytes, n: nat)
    requires n <= |tail|
    ensures h + tail == (h + tail[..n]) + tail[n..]
  {}

  lemma Split2(bs: bytes, l: nat)
    requires 2 + l <= |bs|
    ensures bs == [bs[0], bs[1]] + bs[2..2 + l] + bs[2 + l..]
  {}

  /** Conversely, whatever the standard reads as a frame is exactly what the server writes for that frame. */
  lemma FrameSound(bs: bytes)
    requires ParseFrame(bs).Parsed?
    ensures var p := ParseFrame(bs); bs == Encode(p.frame) + p.rest && |p.frame.payload| < MAX_LENGTH
  {
    var p := ParseFrame(bs);
    var l := if bs[1] < 126 then 0 else if bs[1] == 126 then 2 else 8;
    Pow256Values();
    FromBigEndianRoundTrip(bs[2..2 + l]);
    Split2(bs, l);
    assert FrameHeader(bs[0], |p.frame.payload|) == [bs[0], bs[1]] + bs[2..2 + l];
    JoinParts([bs[0], bs[1]] + bs[2..2 + l], bs[2 + l..], |p.frame.payload|);
  }

  lemma CutParts(opcode: byte, b: byte, l: bytes, p: bytes, k: nat)
    requires k < 2 + |l| + |p|
    ensures var bs := ([opcode, b] + l + p)[..k];
            && |bs| == k && (k >= 2 ==> bs[0] == opcode && bs[1] == b)
            && (k >= 2 + |l| ==> bs[2..2 + |l|] == l && |bs[2 + |l|..]| < |p|)
  {}

  /** A frame cut short is never mistaken for a frame or an error: the standard waits for more. */
  lemma FramePrefixIncomplete(f: Frame, k: nat)
    requires |f.payload| < MAX_LENGTH && k < |Encode(f)|
    ensures ParseFrame(Encode(f)[..k]) == Incomplete
  {
    var n := |f.payload|;
    Pow256Values();
    if n < 126 {
      CutParts(f.opcode, n, [], f.payload, k);
      assert Encode(f) == [f.opcode, n] + [] + f.payload;
    } else if n <= 0xffff {
      CutParts(f.opcode, 126, BigEndian(n, 2), f.payload, k);
      BigEndianRoundTrip(n, 2);
    } else {
      CutParts(f.opcode, 127, BigEndian(n, 8), f.payload, k);
      BigEndianRoundTrip(n, 8);
    }
  }

  predicate Sendable(fs: seq<Frame>) {
    forall f <- fs :: |f.payload| < MAX_LENGTH
  }

  lemma {:induction false} EncodeAllAppend(fs: seq<Frame>, f: Frame)
    ensures EncodeAll(fs + [f]) == EncodeAll(fs) + Encode(f)
  {
    if fs == [] {
      assert ([] + [f])[1..] == [];
    } else {
      assert (fs + [f])[1..] == fs[1..] + [f];
      EncodeAllAppend(fs[1..], f);
    }
  }

  /** Reading a stream goes through ParseFrame's verdict on its start only. */
  lemma StreamStep(bs: bytes, f: Frame, rest: bytes)
    requires ParseFrame(bs) == Parsed(f, rest)
    ensures ParseStream(bs) == ParseStream(rest).(frames := [f] + ParseStream(rest).frames)
  {}

  lemma StreamStop(bs: bytes)
    requires ParseFrame(bs) == Incomplete
    ensures ParseStream(bs) == Stream([], Incomplete)
  {}

  lemma StreamGrows(f: Frame, rest: bytes, fs: seq<Frame>)
    requires |f.payload| < MAX_LENGTH && ParseStream(rest) == Stream(fs, Incomplete)
    ensures ParseStream(Encode(f) + rest) == Stream([f] + fs, Incomplete)
  {
    FrameRoundTrip(f, rest);
    StreamStep(Encode(f) + rest, f, rest);
  }

  lemma EncodeAllSplit(fs: seq<Frame>, cut: bytes)
    requires fs != []
    ensures EncodeAll(fs) + cut == Encode(fs[0]) + (EncodeAll(fs[1..]) + cut)
  {}

  /** Any number of whole frames and a cut-off one read back as exactly those frames and nothing else. */
  lemma {:induction false} StreamRoundTrip(fs: seq<Frame>, cut: bytes)
    requires Sendable(fs) && ParseFrame(cut) == Incomplete
    ensures ParseStream(EncodeAll(fs) + cut) == Stream(fs, Incomplete)
  {
    if fs == [] {
      assert EncodeAll(fs) + cut == cut;
      StreamStop(cut);
    } else {
      StreamRoundTrip(fs[1..], cut);
      StreamGrows(fs[0], EncodeAll(fs[1..]) + cut, fs[1..]);
      EncodeAllSplit(fs, cut);
    }
  }
}
