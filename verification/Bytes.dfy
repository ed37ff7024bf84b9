/** Bytes, big-endian numbers and the bytewise exclusive or that masks a payload. */
module Bytes {
  type byte = n: int | 0 <= n < 256

  type bytes = seq<byte>

  lemma Assoc<T>(a: seq<T>, b: seq<T>, c: seq<T>)
    ensures (a + b) + c == a + (b + c)
  {}

  lemma TailOfConcat<T>(a: seq<T>, b: seq<T>)
    requires a != []
    ensures (a + b)[0] == a[0] && (a + b)[1..] == a[1..] + b
  {}

  lemma InitOfConcat<T>(a: seq<T>, x: T)
    ensures (a + [x])[..|a + [x]| - 1] == a && (a + [x])[|a + [x]| - 1] == x
  {}

  lemma InitAndLast<T>(s: seq<T>)
    requires s != []
    ensures s[..|s| - 1] + [s[|s| - 1]] == s
  {}

  function Pow256(k: nat): (p: nat)
    ensures p > 0
  {
    if k == 0 then 1 else 256 * Pow256(k - 1)
  }

  lemma Pow256Values()
    ensures Pow256(1) == 0x100 && Pow256(2) == 0x1_0000
    ensures Pow256(4) == 0x1_0000_0000 && Pow256(8) == 0x1_0000_0000_0000_0000
  {
    assert Pow256(2) == 256 * Pow256(1);
    assert Pow256(3) == 256 * Pow256(2);
    assert Pow256(4) == 256 * Pow256(3);
    assert Pow256(5) == 256 * Pow256(4);
    assert Pow256(6) == 256 * Pow256(5);
    assert Pow256(7) == 256 * Pow256(6);
  }

  /** The k least significant base-256 digits of n, most significant first. */
  function BigEndian(n: nat, k: nat): (bs: bytes)
    ensures |bs| == k
  {
    if k == 0 then [] else BigEndian(n / 256, k - 1) + [n % 256]
  }

  /** The number a byte string denotes, most significant byte first. */
  function FromBigEndian(bs: bytes): nat {
    if bs == [] then 0 else FromBigEndian(bs[..|bs| - 1]) * 256 + bs[|bs| - 1]
  }

  lemma {:induction false} BigEndianRoundTrip(n: nat, k: nat)
    requires n < Pow256(k)
    ensures FromBigEndian(BigEndian(n, k)) == n
  {
    if k > 0 {
      BigEndianRoundTrip(n / 256, k - 1);
      var bs := BigEndian(n, k);
      assert bs[..|bs| - 1] == BigEndian(n / 256, k - 1);
    }
  }

  lemma {:induction false} FromBigEndianRoundTrip(bs: bytes)
    ensures FromBigEndian(bs) < Pow256(|bs|)
    ensures BigEndian(FromBigEndian(bs), |bs|) == bs
  {
    if bs != [] {
      FromBigEndianRoundTrip(bs[..|bs| - 1]);
      assert FromBigEndian(bs) / 256 == FromBigEndian(bs[..|bs| - 1]);
      assert bs == bs[..|bs| - 1] + [bs[|bs| - 1]];
    }
  }

  lemma FromBigEndianOne(bs: bytes)
    requires bs != []
    ensures FromBigEndian(bs) == FromBigEndian(bs[..|bs| - 1]) * 256 + bs[|bs| - 1]
  {}

  /** Two bytes denote a number with the first as its high byte. */
  lemma FromTwoBytes(high: byte, low: byte)
    ensures FromBigEndian([high, low]) == high * 256 + low
  {
    assert [high, low][..1] == [high] && [high][..0] == [];
    FromBigEndianOne([high, low]);
    FromBigEndianOne([high]);
  }

  /** A byte in front of others counts as many times as they have values. */
  lemma {:induction false} FromBigEndianFirst(b: byte, bs: bytes)
    ensures FromBigEndian([b] + bs) == b * Pow256(|bs|) + FromBigEndian(bs)
  {
    if bs == [] {
      assert [b] + bs == [b] && [b][..0] == [];
    } else {
      var init, last := bs[..|bs| - 1], bs[|bs| - 1];
      assert ([b] + bs)[..|[b] + bs| - 1] == [b] + init;
      FromBigEndianFirst(b, init);
    }
  }

  /** n >> (8 * c). */
  function ShiftRight(n: nat, c: nat): nat {
    if c == 0 then n else ShiftRight(n / 256, c - 1)
  }

  lemma {:induction false} ShiftRightOneMore(n: nat, c: nat)
    ensures ShiftRight(n, c + 1) == ShiftRight(n, c) / 256
  {
    if c > 0 { ShiftRightOneMore(n / 256, c - 1); }
  }

  /** Writing the byte at position c extends the number written so far by one digit. */
  lemma BigEndianShift(n: nat, c: nat, k: nat)
    ensures BigEndian(ShiftRight(n, c), k + 1) == BigEndian(ShiftRight(n, c + 1), k) + [ShiftRight(n, c) % 256]
  {
    ShiftRightOneMore(n, c);
  }

  /** Exclusive or of the k low bits of two numbers. */
  function XorBits(a: nat, b: nat, k: nat): nat {
    if k == 0 then 0 else (a + b) % 2 + 2 * XorBits(a / 2, b / 2, k - 1)
  }

  /** Bit j of a number, bit 0 being the lowest. */
  function BitAt(n: nat, j: nat): nat { if j == 0 then n % 2 else BitAt(n / 2, j - 1) }

  lemma BitInvolution(a: nat, b: nat, high: nat)
    ensures ((a + b) % 2 + 2 * high + b) % 2 == a % 2
    ensures ((a + b) % 2 + 2 * high) / 2 == high
  {}

  lemma BitsDiffer(a: nat, b: nat, high: nat)
    ensures ((a + b) % 2 + 2 * high) % 2 == 1 <==> a % 2 != b % 2
  {}

  lemma HalvesFrom(a: nat, b: nat, k: nat)
    ensures XorBits(a, b, k + 1) == (a + b) % 2 + 2 * XorBits(a / 2, b / 2, k)
  {}

  /** A bit of the exclusive or is set exactly if it differs between the two. */
  lemma {:induction false} XorBitsAt(a: nat, b: nat, k: nat, j: nat)
    requires j < k
    ensures BitAt(XorBits(a, b, k), j) == 1 <==> BitAt(a, j) != BitAt(b, j)
  {
    var high := XorBits(a / 2, b / 2, k - 1);
    HalvesFrom(a, b, k - 1);
    if j == 0 {
      BitsDiffer(a, b, high);
    } else {
      BitInvolution(a, b, high);
      XorBitsAt(a / 2, b / 2, k - 1, j - 1);
      assert BitAt(XorBits(a, b, k), j) == BitAt(high, j - 1);
    }
  }

  function Pow2(k: nat): nat {
    if k == 0 then 1 else 2 * Pow2(k - 1)
  }

  lemma {:induction false} XorBitsBound(a: nat, b: nat, k: nat)
    ensures XorBits(a, b, k) < Pow2(k)
  {
    if k > 0 { XorBitsBound(a / 2, b / 2, k - 1); }
  }

  lemma {:induction false} XorBitsInvolution(a: nat, b: nat, k: nat)
    requires a < Pow2(k)
    ensures XorBits(XorBits(a, b, k), b, k) == a
  {
    if k > 0 {
      XorBitsInvolution(a / 2, b / 2, k - 1);
      BitInvolution(a, b, XorBits(a / 2, b / 2, k - 1));
    }
  }

  function Xor(a: byte, b: byte): byte {
    XorBitsBound(a, b, 8);
    assert Pow2(8) == 256 by { assert Pow2(4) == 16; }
    XorBits(a, b, 8)
  }

  /** Exclusive or of two numbers below 16. */
  function XorNibble(a: nat, b: nat): nat {
    (a + b) % 2 + 2 * ((a / 2 + b / 2) % 2) + 4 * ((a / 4 + b / 4) % 2) + 8 * ((a / 8 + b / 8) % 2)
  }

  lemma XorFourBits(a: nat, b: nat)
    ensures XorBits(a, b, 4) == XorNibble(a, b)
  {
    assert XorBits(a / 8, b / 8, 1) == (a / 8 + b / 8) % 2;
    assert a / 4 / 2 == a / 8 && b / 4 / 2 == b / 8 && a / 2 / 2 == a / 4 && b / 2 / 2 == b / 4;
    assert XorBits(a / 4, b / 4, 2) == (a / 4 + b / 4) % 2 + 2 * XorBits(a / 8, b / 8, 1);
    assert XorBits(a / 2, b / 2, 3) == (a / 2 + b / 2) % 2 + 2 * XorBits(a / 4, b / 4, 2);
  }

  lemma {:induction false} XorHalves(a: nat, b: nat)
    ensures XorBits(a, b, 8) == XorBits(a, b, 4) + 16 * XorBits(a / 16, b / 16, 4)
  {
    HalvesFrom(a, b, 7);
    HalvesFrom(a / 2, b / 2, 6);
    HalvesFrom(a / 4, b / 4, 5);
    HalvesFrom(a / 8, b / 8, 4);
    HalvesFrom(a, b, 3);
    HalvesFrom(a / 2, b / 2, 2);
    HalvesFrom(a / 4, b / 4, 1);
    HalvesFrom(a / 8, b / 8, 0);
    assert a / 2 / 2 == a / 4 && b / 2 / 2 == b / 4 && a / 4 / 2 == a / 8 && b / 4 / 2 == b / 8;
    assert a / 8 / 2 == a / 16 && b / 8 / 2 == b / 16;
  }

  lemma XorByNibbles(a: byte, b: byte)
    ensures Xor(a, b) == XorNibble(a, b) + 16 * XorNibble(a / 16, b / 16)
  {
    XorHalves(a, b);
    XorFourBits(a, b);
    XorFourBits(a / 16, b / 16);
  }

  lemma XorInvolution(a: byte, b: byte)
    ensures Xor(Xor(a, b), b) == a
  {
    assert Pow2(8) == 256 by { assert Pow2(4) == 16; }
    XorBitsInvolution(a, b, 8);
  }

  /** The payload with byte c combined with byte c % 4 of the mask. */
  function ApplyMask(payload: bytes, mask: bytes): (r: bytes)
    requires |mask| == 4
    ensures |r| == |payload|
  {
    seq(|payload|, c requires 0 <= c < |payload| => Xor(payload[c], mask[c % 4]))
  }

  /** Bit j of a masked byte differs from the payload's exactly if it is set in the mask byte of the payload byte. */
  lemma MaskedBit(payload: bytes, mask: bytes, c: nat, j: nat)
    requires |mask| == 4 && c < |payload| && j < 8
    ensures BitAt(ApplyMask(payload, mask)[c], j) == 1 <==>
            BitAt(payload[c], j) != BitAt(mask[c % 4], j)
  {
    XorBitsAt(payload[c], mask[c % 4], 8, j);
  }

  /** Masking twice with one key restores the payload. */
  lemma MaskInvolution(payload: bytes, mask: bytes)
    requires |mask| == 4
    ensures ApplyMask(ApplyMask(payload, mask), mask) == payload
  {
    forall c | 0 <= c < |payload|
      ensures ApplyMask(ApplyMask(payload, mask), mask)[c] == payload[c]
    {
      XorInvolution(payload[c], mask[c % 4]);
    }
  }
}
