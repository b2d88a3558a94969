// SHA-1 as FIPS 180-1 states it: the standard that sha.c is proved against.
module Sha1Spec {
  import opened HashBuffer
  import opened Rotation

  datatype Hash = Hash(a: bv32, b: bv32, c: bv32, d: bv32, e: bv32)

  const INIT := Hash(0x67452301, 0xefcdab89, 0x98badcfe, 0x10325476, 0xc3d2e1f0)

  function BigEndianWord(b0: byte, b1: byte, b2: byte, b3: byte): bv32 {
    ((b0 as bv32) << 24) | ((b1 as bv32) << 16) | ((b2 as bv32) << 8) | (b3 as bv32)
  }

  function Mix(w3: bv32, w8: bv32, w14: bv32, w16: bv32): bv32 {
    Rol1(w3 ^ w8 ^ w14 ^ w16)
  }

  // Section 7, steps a and b: the word sequence of a block.
  function W(block: seq<byte>, t: nat): bv32
    requires |block| == 64
  {
    if t < 16 then BigEndianWord(block[4 * t], block[4 * t + 1], block[4 * t + 2], block[4 * t + 3])
    else Mix(W(block, t - 3), W(block, t - 8), W(block, t - 14), W(block, t - 16))
  }

  // Section 5: the functions f(t; B, C, D).
  function Choice(b: bv32, c: bv32, d: bv32): bv32 { (b & c) | (!b & d) }
  function Parity(b: bv32, c: bv32, d: bv32): bv32 { b ^ c ^ d }
  function Majority(b: bv32, c: bv32, d: bv32): bv32 { (b & c) | (b & d) | (c & d) }

  function F(t: nat, b: bv32, c: bv32, d: bv32): bv32 {
    if t < 20 then Choice(b, c, d) else if t < 40 then Parity(b, c, d) else if t < 60 then Majority(b, c, d) else Parity(b, c, d)
  }

  // Section 6: the constants K(t).
  function K(t: nat): bv32 {
    if t < 20 then 0x5a827999
    else if t < 40 then 0x6ed9eba1
    else if t < 60 then 0x8f1bbcdc
    else 0xca62c1d6
  }

  // ---- What these mean, bit by bit and as numbers ----

  // The first function takes c where b is set, and d elsewhere.
  lemma ChoiceMeans(b: bv32, c: bv32, d: bv32)
    ensures Choice(b, c, d) & b == c & b && Choice(b, c, d) & !b == d & !b
  {
  }

  lemma ParityMeans(b: bv32, c: bv32, d: bv32)
    ensures Parity(b, c, d) ^ b ^ c ^ d == 0
  {
  }

  // The third takes what b and c agree on, and d where they differ.
  lemma MajorityMeans(b: bv32, c: bv32, d: bv32)
    ensures Majority(b, c, d) & !(b ^ c) == b & !(b ^ c) && Majority(b, c, d) & (b ^ c) == d & (b ^ c)
  {
  }

  // The constants are the square roots of 2, 3, 5 and 10, times 2^30 and rounded down.
  lemma ConstantsMean(t: nat)
    ensures t < 20 ==> K(t) == 0x5a827999
    ensures 0x5a827999 * 0x5a827999 <= 2 * 0x1000_0000_0000_0000 < 0x5a82799a * 0x5a82799a
    ensures 20 <= t < 40 ==> K(t) == 0x6ed9eba1
    ensures 0x6ed9eba1 * 0x6ed9eba1 <= 3 * 0x1000_0000_0000_0000 < 0x6ed9eba2 * 0x6ed9eba2
    ensures 40 <= t < 60 ==> K(t) == 0x8f1bbcdc
    ensures 0x8f1bbcdc * 0x8f1bbcdc <= 5 * 0x1000_0000_0000_0000 < 0x8f1bbcdd * 0x8f1bbcdd
    ensures 60 <= t < 80 ==> K(t) == 0xca62c1d6
    ensures 0xca62c1d6 * 0xca62c1d6 <= 10 * 0x1000_0000_0000_0000 < 0xca62c1d7 * 0xca62c1d7
  {
  }

  // The initial value by bytes, the low byte first: they count up by 0x22, then down, and
  // the last four go down by 0x0f.
  lemma InitMeans()
    ensures INIT.a == BigEndianWord(0x67, 0x45, 0x23, 0x01) && INIT.b == BigEndianWord(0xef, 0xcd, 0xab, 0x89)
    ensures INIT.c == BigEndianWord(0x98, 0xba, 0xdc, 0xfe) && INIT.d == BigEndianWord(0x10, 0x32, 0x54, 0x76)
    ensures INIT.e == BigEndianWord(0xc3, 0xd2, 0xe1, 0xf0)
  {
  }

  function Temp(rotated: bv32, f: bv32, e: bv32, w: bv32, k: bv32): bv32 {
    rotated + f + e + w + k
  }

  // Section 7, step d: all registers move on by one.
  function Step(h: Hash, t: nat, w: bv32): Hash {
    Hash(Temp(Rol5(h.a), F(t, h.b, h.c, h.d), h.e, w, K(t)), h.a, Rol30(h.b), h.c, h.d)
  }

  function Steps(h: Hash, block: seq<byte>, n: nat): Hash
    requires |block| == 64
  {
    if n == 0 then h else Step(Steps(h, block, n - 1), n - 1, W(block, n - 1))
  }

  // Section 7, step e.
  function AddHash(h: Hash, r: Hash): Hash {
    Hash(h.a + r.a, h.b + r.b, h.c + r.c, h.d + r.d, h.e + r.e)
  }

  function Compress(h: Hash, block: seq<byte>): Hash {
    if |block| != 64 then h else AddHash(h, Steps(h, block, 80))
  }

  // Section 4: the message, a one bit, zeros, and the length in bits in 64 bits.
  function Padded(msg: seq<byte>): (p: seq<byte>)
    ensures |p| % 64 == 0
  {
    assert (|msg| + PadLength(|msg|) + 8) % 64 == 0;
    msg + Fill(PadLength(|msg|)) + BigEndian32(BitsHigh(|msg|)) + BigEndian32(BitsLow(|msg|))
  }

  lemma PaddedMeans(msg: seq<byte>) returns (digits: seq<nat>)
    ensures PaddedRight(msg, Padded(msg), digits) && BigEndianNumber(digits) == 8 * |msg| % 0x1_0000_0000_0000_0000
  {
    hide BigEndianNumber, Spells, Digits32, BigEndian32, Fill, PadLength, BitsHigh, BitsLow, PaddedRight;
    var n, m := BitsHigh(|msg|), BitsLow(|msg|);
    digits := Digits32(n) + Digits32(m);
    LengthDigits(|msg|);
    Word32Spelled(n);
    Word32Spelled(m);
    SpellsJoined(BigEndian32(n), Digits32(n), BigEndian32(m), Digits32(m));
    PadMeans(msg, BigEndian32(n) + BigEndian32(m), digits);
    assert Padded(msg) == msg + Fill(PadLength(|msg|)) + (BigEndian32(n) + BigEndian32(m));
  }

  function WordBytes(x: bv32): seq<byte> {
    [((x >> 24) & 0xff) as byte, ((x >> 16) & 0xff) as byte, ((x >> 8) & 0xff) as byte, (x & 0xff) as byte]
  }

  // The digest writes every word with its highest byte first.
  lemma WordBytesMean(x: bv32)
    ensures var s := WordBytes(x); |s| == 4 && BigEndianWord(s[0], s[1], s[2], s[3]) == x
  {
  }

  function Digest(msg: seq<byte>): seq<byte> {
    var h := Fold(Compress, INIT, Padded(msg));
    WordBytes(h.a) + WordBytes(h.b) + WordBytes(h.c) + WordBytes(h.d) + WordBytes(h.e)
  }
}
