// sha_process_block: eighty rounds in five rotating registers, with the word
// sequence kept in a circular buffer of sixteen words.
module Sha1Block {
  import opened HashBuffer
  import opened Sha1Spec
  import opened Rotation

  function NotSwap(n: bv32): bv32 {
    (n << 24) | ((n & 0xff00) << 8) | ((n >> 8) & 0xff00) | (n >> 24)
  }

  // A 32-bit load on a little-endian machine.
  function NativeWord(b0: byte, b1: byte, b2: byte, b3: byte): bv32 {
    (b0 as bv32) | ((b1 as bv32) << 8) | ((b2 as bv32) << 16) | ((b3 as bv32) << 24)
  }

  lemma SwappedLoad(b0: byte, b1: byte, b2: byte, b3: byte)
    ensures NotSwap(NativeWord(b0, b1, b2, b3)) == BigEndianWord(b0, b1, b2, b3)
  {
  }

  // The round functions as sha.c computes them.
  function F1(b: bv32, c: bv32, d: bv32): bv32 { d ^ (b & (c ^ d)) }
  function F2(b: bv32, c: bv32, d: bv32): bv32 { b ^ c ^ d }
  function F3(b: bv32, c: bv32, d: bv32): bv32 { (b & c) | (d & (b | c)) }
  function F4(b: bv32, c: bv32, d: bv32): bv32 { b ^ c ^ d }

  function RoundF(t: nat, b: bv32, c: bv32, d: bv32): bv32 {
    if t < 20 then F1(b, c, d) else if t < 40 then F2(b, c, d) else if t < 60 then F3(b, c, d) else F4(b, c, d)
  }

  lemma ChoiceBits(b: bv32, c: bv32, d: bv32)
    ensures d ^ (b & (c ^ d)) == (b & c) | (!b & d)
  {
  }

  lemma SameChoice(b: bv32, c: bv32, d: bv32)
    ensures F1(b, c, d) == Choice(b, c, d)
  {
    ChoiceBits(b, c, d);
  }

  lemma SameParity(b: bv32, c: bv32, d: bv32)
    ensures F2(b, c, d) == Parity(b, c, d) && F4(b, c, d) == Parity(b, c, d)
  {
  }

  lemma MajorityBits(b: bv32, c: bv32, d: bv32)
    ensures (b & c) | (d & (b | c)) == (b & c) | (b & d) | (c & d)
  {
  }

  lemma SameMajority(b: bv32, c: bv32, d: bv32)
    ensures F3(b, c, d) == Majority(b, c, d)
  {
    MajorityBits(b, c, d);
  }

  lemma RoundFunctions(t: nat, b: bv32, c: bv32, d: bv32)
    ensures RoundF(t, b, c, d) == F(t, b, c, d)
  {
    hide Choice, Parity, Majority, F1, F2, F3, F4;
    SameChoice(b, c, d);
    SameParity(b, c, d);
    SameMajority(b, c, d);
  }

  // What a round adds to the fifth register, in the order of the macro.
  function Accumulate(e: bv32, rotated: bv32, f: bv32, k: bv32, w: bv32): bv32 {
    e + (rotated + f + k + w)
  }

  lemma SumOrder(e: bv32, rotated: bv32, f: bv32, k: bv32, w: bv32)
    ensures Accumulate(e, rotated, f, k, w) == Temp(rotated, f, e, w, k)
  {
  }

  // The macro R: the register named e takes the new value, b is rotated in place.
  method R(ghost h: Hash, a: bv32, b: bv32, c: bv32, d: bv32, e: bv32, t: nat, w: bv32) returns (e': bv32, b': bv32)
    requires h == Hash(a, b, c, d, e)
    ensures Hash(e', a, b', c, d) == Step(h, t, w)
  {
    hide F, K, RoundF, Rol5, Rol30, Accumulate, Temp;
    e' := Accumulate(e, Rol5(a), RoundF(t, b, c, d), K(t), w);
    b' := Rol30(b);
    RoundFunctions(t, b, c, d);
    SumOrder(e, Rol5(a), F(t, b, c, d), K(t), w);
  }

  // The sixteen words before `next` (or the first sixteen) are in the buffer.
  ghost predicate Scheduled(x: array<bv32>, block: seq<byte>, next: nat)
    requires x.Length == 16 && |block| == 64
    reads x
  {
    next >= 16 && forall i :: next - 16 <= i < next ==> x[i % 16] == W(block, i)
  }

  // The next word, out of four words of the window in the order of the macro.
  function MixInPlace(x16: bv32, x14: bv32, x8: bv32, x3: bv32): bv32 {
    Rol1(x16 ^ x14 ^ x8 ^ x3)
  }

  lemma XorOrder(w3: bv32, w8: bv32, w14: bv32, w16: bv32)
    ensures MixInPlace(w16, w14, w8, w3) == Mix(w3, w8, w14, w16)
  {
    assert w16 ^ w14 ^ w8 ^ w3 == w3 ^ w8 ^ w14 ^ w16;
  }

  lemma WStep(block: seq<byte>, t: nat)
    requires |block| == 64 && t >= 16
    ensures W(block, t) == Mix(W(block, t - 3), W(block, t - 8), W(block, t - 14), W(block, t - 16))
  {
  }

  // The macro M: the next word overwrites the one sixteen before it.
  method M(x: array<bv32>, ghost block: seq<byte>, t: nat) returns (w: bv32)
    requires x.Length == 16 && |block| == 64 && Scheduled(x, block, t)
    modifies x
    ensures w == W(block, t) && Scheduled(x, block, t + 1)
  {
    hide W, Mix, MixInPlace;
    assert x[(t - 16) % 16] == W(block, t - 16) && (t - 16) % 16 == t % 16;
    assert x[(t - 14) % 16] == W(block, t - 14);
    assert x[(t - 8) % 16] == W(block, t - 8);
    assert x[(t - 3) % 16] == W(block, t - 3);
    w := MixInPlace(x[t % 16], x[(t - 14) % 16], x[(t - 8) % 16], x[(t - 3) % 16]);
    WStep(block, t);
    XorOrder(W(block, t - 3), W(block, t - 8), W(block, t - 14), W(block, t - 16));
    x[t % 16] := w;
  }

  // One word for round t: loaded for the first sixteen, then computed.
  method NextWord(x: array<bv32>, ghost block: seq<byte>, t: nat) returns (w: bv32)
    requires x.Length == 16 && |block| == 64 && Scheduled(x, block, if t < 16 then 16 else t)
    modifies x
    ensures w == W(block, t) && Scheduled(x, block, if t < 15 then 16 else t + 1)
  {
    if t < 16 {
      w := x[t];
    } else {
      w := M(x, block, t);
    }
  }

  method LoadWords(block: seq<byte>) returns (x: array<bv32>)
    requires |block| == 64
    ensures fresh(x) && x.Length == 16 && Scheduled(x, block, 16)
  {
    x := new bv32[16];
    for t := 0 to 16
      invariant forall i :: 0 <= i < t ==> x[i] == W(block, i)
    {
      hide NotSwap, NativeWord, BigEndianWord;
      x[t] := NotSwap(NativeWord(block[4 * t], block[4 * t + 1], block[4 * t + 2], block[4 * t + 3]));
      SwappedLoad(block[4 * t], block[4 * t + 1], block[4 * t + 2], block[4 * t + 3]);
    }
  }

  lemma NoSteps(h: Hash, block: seq<byte>)
    requires |block| == 64
    ensures Steps(h, block, 0) == h
  {
  }

  method CompressBlock(h: Hash, block: seq<byte>) returns (r: Hash)
    requires |block| == 64
    ensures r == Compress(h, block)
  {
    hide Scheduled, W, Step, Steps, AddHash;
    NoSteps(h, block);
    var x := LoadWords(block);
    var a, b, c, d, e := h.a, h.b, h.c, h.d, h.e;
    var t := 0;
    while t < 80
      invariant 0 <= t <= 80 && t % 5 == 0
      invariant fresh(x) && x.Length == 16 && Scheduled(x, block, if t < 16 then 16 else t)
      invariant Hash(a, b, c, d, e) == Steps(h, block, t)
    {
      a, b, c, d, e := FiveRounds(h, block, x, t, a, b, c, d, e);
      t := t + 5;
    }
    r := AddHash(h, Hash(a, b, c, d, e));
  }

  // Five rounds, after which every register has its own name back.
  method FiveRounds(ghost h: Hash, ghost block: seq<byte>, x: array<bv32>, t: nat,
                    a0: bv32, b0: bv32, c0: bv32, d0: bv32, e0: bv32)
    returns (a: bv32, b: bv32, c: bv32, d: bv32, e: bv32)
    requires x.Length == 16 && |block| == 64 && Scheduled(x, block, if t < 16 then 16 else t)
    requires Hash(a0, b0, c0, d0, e0) == Steps(h, block, t)
    modifies x
    ensures Scheduled(x, block, if t + 5 < 16 then 16 else t + 5)
    ensures Hash(a, b, c, d, e) == Steps(h, block, t + 5)
  {
    hide Step, W, Scheduled;
    a, b, c, d, e := a0, b0, c0, d0, e0;
    var w := NextWord(x, block, t);
    e, b := R(Steps(h, block, t), a, b, c, d, e, t, w);
    w := NextWord(x, block, t + 1);
    d, a := R(Steps(h, block, t + 1), e, a, b, c, d, t + 1, w);
    w := NextWord(x, block, t + 2);
    c, e := R(Steps(h, block, t + 2), d, e, a, b, c, t + 2, w);
    w := NextWord(x, block, t + 3);
    b, d := R(Steps(h, block, t + 3), c, d, e, a, b, t + 3, w);
    w := NextWord(x, block, t + 4);
    a, c := R(Steps(h, block, t + 4), b, c, d, e, a, t + 4, w);
  }
}
