// What the streaming digests of sha.c and md5.c have in common: a block function
// folded over a padded message, a partly filled block, and a two-word byte count.
module HashBuffer {
  type byte = bv8

  const WORD: nat := 0x1_0000_0000
  const DWORD: nat := 0x1_0000_0000_0000_0000

  // The block function applied to one 64-byte block of the message after another.
  function Fold<H>(f: (H, seq<byte>) -> H, h: H, data: seq<byte>): H
    requires |data| % 64 == 0
    decreases |data|
  {
    if data == [] then h else Fold(f, f(h, data[..64]), data[64..])
  }

  lemma {:induction false} FoldConcat<H>(f: (H, seq<byte>) -> H, h: H, a: seq<byte>, b: seq<byte>)
    requires |a| % 64 == 0 && |b| % 64 == 0
    ensures Fold(f, h, a + b) == Fold(f, Fold(f, h, a), b)
    decreases |a|
  {
    if a == [] {
      assert a + b == b;
    } else {
      assert (a + b)[..64] == a[..64] && (a + b)[64..] == a[64..] + b;
      FoldConcat(f, f(h, a[..64]), a[64..], b);
    }
  }

  // The state of a digest: the whole blocks of the message were folded into
  // `chain`, the bytes after them wait in `buf`.
  ghost predicate Represents<H>(f: (H, seq<byte>) -> H, init: H, chain: H, buf: seq<byte>, msg: seq<byte>) {
    && |buf| <= |msg| && (|msg| - |buf|) % 64 == 0
    && chain == Fold(f, init, msg[..|msg| - |buf|])
    && buf == msg[|msg| - |buf|..]
  }

  lemma Sum64(a: nat, b: nat)
    requires a % 64 == 0 && b % 64 == 0
    ensures (a + b) % 64 == 0
  {
  }

  lemma RepresentsNothing<H>(f: (H, seq<byte>) -> H, init: H)
    ensures Represents(f, init, init, [], [])
  {
  }

  // Bytes may be buffered ...
  lemma Buffered<H>(f: (H, seq<byte>) -> H, init: H, chain: H, buf: seq<byte>, msg: seq<byte>, more: seq<byte>)
    requires Represents(f, init, chain, buf, msg)
    ensures Represents(f, init, chain, buf + more, msg + more)
  {
    var n := |msg| - |buf|;
    assert (msg + more)[..n] == msg[..n];
  }

  lemma WaitingLength<H>(f: (H, seq<byte>) -> H, init: H, chain: H, buf: seq<byte>, msg: seq<byte>)
    requires Represents(f, init, chain, buf, msg)
    ensures |buf| <= |msg| && (|msg| - |buf|) % 64 == 0
  {
  }

  lemma FlushedPrefix(msg: seq<byte>, blocks: seq<byte>, rest: seq<byte>)
    requires |blocks + rest| <= |msg| && msg[|msg| - |blocks + rest|..] == blocks + rest
    ensures msg[..|msg| - |rest|] == msg[..|msg| - |blocks + rest|] + blocks
    ensures msg[|msg| - |rest|..] == rest
  {
    var n := |msg| - |blocks + rest|;
    assert msg == msg[..n] + (blocks + rest);
    assert msg == (msg[..n] + blocks) + rest;
  }

  // ... and whole blocks of the buffer folded, at any time.
  lemma Flushed<H>(f: (H, seq<byte>) -> H, init: H, chain: H, blocks: seq<byte>, rest: seq<byte>, msg: seq<byte>)
    requires |blocks| % 64 == 0 && Represents(f, init, chain, blocks + rest, msg)
    ensures Represents(f, init, Fold(f, chain, blocks), rest, msg)
  {
    var n := |msg| - |blocks + rest|;
    Sum64(n, |blocks|);
    assert msg[..|msg| - |rest|] == msg[..n] + blocks && msg[|msg| - |rest|..] == rest by { FlushedPrefix(msg, blocks, rest); }
    FoldConcat(f, init, msg[..n], blocks);
  }

  // Whole blocks that arrive when nothing is buffered need not pass the buffer.
  lemma Direct<H>(f: (H, seq<byte>) -> H, init: H, chain: H, msg: seq<byte>, blocks: seq<byte>)
    requires |blocks| % 64 == 0 && Represents(f, init, chain, [], msg)
    ensures Represents(f, init, Fold(f, chain, blocks), [], msg + blocks)
  {
    Buffered(f, init, chain, [], msg, blocks);
    assert [] + blocks == blocks + [];
    Flushed(f, init, chain, blocks, [], msg + blocks);
  }

  // ---- The byte count in two 32-bit words ----

  function Count(total0: nat, total1: nat): nat {
    total1 * WORD + total0
  }

  // The low word after adding a length, and the high word, which moves on when the low
  // word has become smaller than that length.
  function AddLow(total0: nat, len: nat): (r: nat)
    ensures r < WORD
  {
    (total0 + len) % WORD
  }

  function AddHigh(total0: nat, total1: nat, len: nat): nat {
    if AddLow(total0, len) < len then (total1 + 1) % WORD else total1
  }

  lemma CountAdds(total0: nat, total1: nat, len: nat)
    requires total0 < WORD && total1 < WORD && len < WORD
    ensures Count(AddLow(total0, len), AddHigh(total0, total1, len)) == (Count(total0, total1) + len) % DWORD
  {
    if total0 + len < WORD {
    } else {
      assert AddLow(total0, len) == total0 + len - WORD;
    }
  }

  // The counter holds n modulo 2^64.
  ghost predicate CountIs(total0: nat, total1: nat, n: nat) {
    Count(total0, total1) == n % DWORD
  }

  lemma CountMoves(total0: nat, total1: nat, n: nat, len: nat)
    requires total0 < WORD && total1 < WORD && len < WORD && CountIs(total0, total1, n)
    ensures CountIs(AddLow(total0, len), AddHigh(total0, total1, len), n + len)
  {
    CountAdds(total0, total1, len);
    var k, c := n / DWORD, Count(total0, total1);
    assert n == k * DWORD + c;
    hide Count, AddLow, AddHigh;
    WholeTurns(k, c + len);
  }

  lemma WholeTurns(k: nat, x: nat)
    ensures (k * DWORD + x) % DWORD == x % DWORD
  {
  }

  // A single length of 2^32 or more always carries exactly one, which is right only
  // when its high word and the true carry add up to one.
  lemma CountAddsExactly(total0: nat, total1: nat, len: nat)
    requires total0 < WORD && total1 < WORD
    ensures Count(AddLow(total0, len), AddHigh(total0, total1, len)) == (Count(total0, total1) + len) % DWORD
       <==> len < WORD || (len / WORD + (total0 + len % WORD) / WORD) % WORD == 1
  {
    if len < WORD {
      CountAdds(total0, total1, len);
    } else {
      var q, r := len / WORD, len % WORD;
      var carry := (total0 + r) / WORD;
      var low := (total0 + r) % WORD;
      assert total0 + len == (q + carry) * WORD + low;
      Quotient(total0 + len, q + carry, low);
      assert AddLow(total0, len) == low;
      assert Count(total0, total1) + len == (total1 + q + carry) * WORD + low;
      HighWord(total1 + q + carry, low);
      assert AddHigh(total0, total1, len) == (total1 + 1) % WORD;
      CarryOne(total1, q + carry);
    }
  }

  // Twice 2^32 bytes at once are counted as 2^32.
  lemma LongPieceMiscounted()
    ensures var len := 2 * WORD;
      Count(AddLow(0, len), AddHigh(0, 0, len)) == WORD && WORD != (Count(0, 0) + len) % DWORD
  {
  }

  lemma CarryOne(high: nat, c: nat)
    ensures (high + c) % WORD == (high + 1) % WORD <==> c % WORD == 1
  {
  }

  lemma HighWord(high: nat, low: nat)
    requires low < WORD
    ensures (high * WORD + low) % DWORD == (high % WORD) * WORD + low
  {
  }

  // ---- Padding (section 3.1 of RFC 1321, section 4 of FIPS 180-1) ----

  // One 0x80 byte and as many zeros as bring the length to 56 modulo 64.
  function PadLength(n: nat): (pad: nat)
    ensures 1 <= pad <= 64 && (n + pad) % 64 == 56
  {
    var r := n % 64;
    if r < 56 then 56 - r else 120 - r
  }

  function Fill(pad: nat): (s: seq<byte>)
    ensures |s| == pad
  {
    seq(pad, i => if i == 0 then 0x80 else 0)
  }

  function ByteOf(n: nat): byte {
    (n % 256) as byte
  }

  function BigEndian32(n: nat): (s: seq<byte>)
    ensures |s| == 4
  {
    [ByteOf(n / 0x100_0000), ByteOf(n / 0x1_0000), ByteOf(n / 0x100), ByteOf(n)]
  }

  function LittleEndian32(n: nat): (s: seq<byte>)
    ensures |s| == 4
  {
    [ByteOf(n), ByteOf(n / 0x100), ByteOf(n / 0x1_0000), ByteOf(n / 0x100_0000)]
  }

  // ---- The same as numbers ----

  // The number with the given digits to the base 256, the first one counting most.
  function BigEndianNumber(ds: seq<nat>): nat {
    if ds == [] then 0 else BigEndianNumber(ds[..|ds| - 1]) * 256 + ds[|ds| - 1]
  }

  // The number with the given digits, the first one counting least.
  function LittleEndianNumber(ds: seq<nat>): nat {
    if ds == [] then 0 else ds[0] + 256 * LittleEndianNumber(ds[1..])
  }

  // The bytes are these digits.
  ghost predicate Spells(s: seq<byte>, ds: seq<nat>) {
    |s| == |ds| && forall i :: 0 <= i < |s| ==> ds[i] < 256 && s[i] == ByteOf(ds[i])
  }

  lemma ByteMeans(d: nat)
    requires d < 256
    ensures ByteOf(d) == d as byte
  {
  }

  lemma SpellsJoined(s: seq<byte>, ds: seq<nat>, u: seq<byte>, es: seq<nat>)
    requires Spells(s, ds) && Spells(u, es)
    ensures Spells(s + u, ds + es)
  {
    hide ByteOf;
  }

  lemma BigEndianNext(s: seq<nat>, x: nat)
    ensures BigEndianNumber(s + [x]) == BigEndianNumber(s) * 256 + x
  {
    assert (s + [x])[..|s|] == s;
  }

  lemma LittleEndianNext(x: nat, s: seq<nat>)
    ensures LittleEndianNumber([x] + s) == x + 256 * LittleEndianNumber(s)
  {
    assert ([x] + s)[1..] == s;
  }

  // Four more digits at the end, and four digits in front.
  lemma BigEndianFour(s: seq<nat>, a: nat, b: nat, c: nat, d: nat)
    ensures BigEndianNumber(s + [a, b, c, d]) == (((BigEndianNumber(s) * 256 + a) * 256 + b) * 256 + c) * 256 + d
  {
    hide BigEndianNumber;
    var s1 := s + [a];
    var s2 := s1 + [b];
    var s3 := s2 + [c];
    BigEndianNext(s, a);
    BigEndianNext(s1, b);
    BigEndianNext(s2, c);
    BigEndianNext(s3, d);
    assert s3 + [d] == s + [a, b, c, d];
  }

  lemma LittleEndianFour(a: nat, b: nat, c: nat, d: nat, s: seq<nat>)
    ensures LittleEndianNumber([a, b, c, d] + s) == a + 256 * (b + 256 * (c + 256 * (d + 256 * LittleEndianNumber(s))))
  {
    hide LittleEndianNumber;
    var s1 := [d] + s;
    var s2 := [c] + s1;
    var s3 := [b] + s2;
    LittleEndianNext(d, s);
    LittleEndianNext(c, s1);
    LittleEndianNext(b, s2);
    LittleEndianNext(a, s3);
    assert [a] + s3 == [a, b, c, d] + s;
  }

  function Digits32(n: nat): (ds: seq<nat>)
    ensures |ds| == 4
  {
    [n / 0x100_0000 % 256, n / 0x1_0000 % 256, n / 0x100 % 256, n % 256]
  }

  function Backwards(ds: seq<nat>): (r: seq<nat>)
    requires |ds| == 4
    ensures |r| == 4
  {
    [ds[3], ds[2], ds[1], ds[0]]
  }

  lemma DividedTwice(n: nat)
    ensures n / 0x1_0000 == n / 256 / 256 && n / 0x100_0000 == n / 256 / 256 / 256
  {
  }

  lemma Digits(n: nat)
    ensures ((n / 0x100_0000 % 256 * 256 + n / 0x1_0000 % 256) * 256 + n / 0x100 % 256) * 256 + n % 256 == n % WORD
  {
    DividedTwice(n);
    var q1 := n / 256;
    var q2 := q1 / 256;
    var q3 := q2 / 256;
    var q4, d0, d1, d2, d3 := q3 / 256, n % 256, q1 % 256, q2 % 256, q3 % 256;
    assert n == q1 * 256 + d0 && q1 == q2 * 256 + d1 && q2 == q3 * 256 + d2 && q3 == q4 * 256 + d3;
    FourDigits(n, q4, d0, d1, d2, d3);
  }

  lemma FourDigits(n: nat, q: nat, d0: nat, d1: nat, d2: nat, d3: nat)
    requires d0 < 256 && d1 < 256 && d2 < 256 && d3 < 256
    requires n == (((q * 256 + d3) * 256 + d2) * 256 + d1) * 256 + d0
    ensures n % WORD == ((d3 * 256 + d2) * 256 + d1) * 256 + d0
  {
    Quotient(n, q, ((d3 * 256 + d2) * 256 + d1) * 256 + d0);
  }

  // A word of 32 bits is written with its digits; behind other digits, or in front of
  // others, they make up a number.
  lemma Word32Numbers(n: nat, s: seq<nat>)
    ensures BigEndianNumber(s + Digits32(n)) == BigEndianNumber(s) * WORD + n % WORD
    ensures LittleEndianNumber(Backwards(Digits32(n)) + s) == n % WORD + WORD * LittleEndianNumber(s)
  {
    var d0, d1, d2, d3 := n % 256, n / 0x100 % 256, n / 0x1_0000 % 256, n / 0x100_0000 % 256;
    assert Digits32(n) == [d3, d2, d1, d0] && Backwards(Digits32(n)) == [d0, d1, d2, d3];
    hide BigEndianNumber, LittleEndianNumber, Digits32, Backwards;
    BigEndianFour(s, d3, d2, d1, d0);
    LittleEndianFour(d0, d1, d2, d3, s);
    Digits(n);
  }

  lemma FourSpelled(a: nat, b: nat, c: nat, d: nat)
    requires a < 256 && b < 256 && c < 256 && d < 256
    ensures Spells([ByteOf(a), ByteOf(b), ByteOf(c), ByteOf(d)], [a, b, c, d])
  {
    hide ByteOf;
  }

  lemma SameDigit(n: nat)
    ensures ByteOf(n % 256) == ByteOf(n)
  {
  }

  lemma Word32Spelled(n: nat)
    ensures Spells(BigEndian32(n), Digits32(n)) && Spells(LittleEndian32(n), Backwards(Digits32(n)))
  {
    hide Spells, ByteOf;
    SameDigit(n);
    SameDigit(n / 0x100);
    SameDigit(n / 0x1_0000);
    SameDigit(n / 0x100_0000);
    var d0, d1, d2, d3 := n % 256, n / 0x100 % 256, n / 0x1_0000 % 256, n / 0x100_0000 % 256;
    FourSpelled(d3, d2, d1, d0);
    FourSpelled(d0, d1, d2, d3);
  }

  // The length of a message in bits, in eight digits.
  lemma LengthDigits(n: nat)
    ensures BigEndianNumber(Digits32(BitsHigh(n)) + Digits32(BitsLow(n))) == 8 * n % 0x1_0000_0000_0000_0000
    ensures LittleEndianNumber(Backwards(Digits32(BitsLow(n))) + Backwards(Digits32(BitsHigh(n)))) == 8 * n % 0x1_0000_0000_0000_0000
  {
    TwoWords(n);
    assert BigEndianNumber([]) == 0 && LittleEndianNumber([]) == 0;
    hide BigEndianNumber, LittleEndianNumber, Digits32, Backwards, BitsHigh, BitsLow;
    var high, low := BitsHigh(n), BitsLow(n);
    Word32Numbers(high, []);
    Word32Numbers(low, Digits32(high));
    Word32Numbers(low, Backwards(Digits32(high)));
    assert [] + Digits32(high) == Digits32(high) && Backwards(Digits32(high)) + [] == Backwards(Digits32(high));
  }

  // A message as sections 3.1 and 3.2 of RFC 1321 and section 4 of FIPS 180-1 pad it, told
  // by position: a one bit, zeros, and eight digits, in the fewest blocks that hold all that.
  ghost predicate PaddedRight(msg: seq<byte>, p: seq<byte>, digits: seq<nat>) {
    && |p| % 64 == 0 && |msg| + 9 <= |p| < |msg| + 9 + 64
    && p[..|msg|] == msg && p[|msg|] == 0x80
    && (forall i :: |msg| < i < |p| - 8 ==> p[i] == 0)
    && |digits| == 8 && Spells(p[|p| - 8..], digits)
  }

  lemma TwoWords(n: nat)
    ensures BitsHigh(n) % WORD * WORD + BitsLow(n) % WORD == 8 * n % DWORD
  {
    HighWord(8 * n / WORD, 8 * n % WORD);
  }

  lemma PadMeans(msg: seq<byte>, tail: seq<byte>, digits: seq<nat>)
    requires |tail| == 8 && Spells(tail, digits)
    ensures PaddedRight(msg, msg + Fill(PadLength(|msg|)) + tail, digits)
  {
    var p, pad := msg + Fill(PadLength(|msg|)) + tail, PadLength(|msg|);
    assert p[|msg|] == Fill(pad)[0];
    forall i | |msg| < i < |p| - 8 ensures p[i] == 0 {
      assert p[i] == Fill(pad)[i - |msg|];
    }
    assert p[|p| - 8..] == tail;
  }

  // The low and the high word of the length in bits, modulo 2^64.
  function BitsLow(bytes: nat): nat { bytes * 8 % WORD }
  function BitsHigh(bytes: nat): nat { bytes * 8 / WORD % WORD }

  // Both words as the code computes them from the two words of the byte count; the
  // bits joined by `|` do not overlap.
  function ShiftLow(total0: nat): (r: nat)
    ensures r < WORD
  {
    total0 * 8 % WORD
  }

  function ShiftHigh(total0: nat, total1: nat): (r: nat)
    requires total0 < WORD && total1 < WORD
    ensures r < WORD
  {
    assert total1 * 8 % WORD == total1 % 0x2000_0000 * 8;
    total1 * 8 % WORD + total0 / 0x2000_0000
  }

  lemma Quotient(n: nat, q: nat, r: nat)
    requires n == q * WORD + r && r < WORD
    ensures n / WORD == q && n % WORD == r
  {
  }

  lemma BitLength(total0: nat, total1: nat, bytes: nat)
    requires total0 < WORD && total1 < WORD && Count(total0, total1) == bytes % DWORD
    ensures ShiftLow(total0) == BitsLow(bytes) && ShiftHigh(total0, total1) == BitsHigh(bytes)
    ensures total1 * 8 % WORD % 8 == 0 && total0 / 0x2000_0000 < 8
  {
    var k := bytes / DWORD;
    assert bytes == k * DWORD + total1 * WORD + total0;
    var c, low := total0 / 0x2000_0000, total0 % 0x2000_0000 * 8;
    assert total0 * 8 == c * WORD + low;
    var d, mid := total1 / 0x2000_0000, total1 % 0x2000_0000 * 8;
    assert total1 * 8 == d * WORD + mid;
    Quotient(total0 * 8, c, low);
    Quotient(total1 * 8, d, mid);
    var high := k * WORD * 8 + total1 * 8 + c;
    assert bytes * 8 == high * WORD + low;
    Quotient(bytes * 8, high, low);
    Quotient(high, k * 8 + d, mid + c);
  }

  // NOTSWAP on a number: its four bytes in the opposite order.
  function Reversed32(n: nat): (r: nat)
    requires n < WORD
    ensures r < WORD
  {
    n % 0x100 * 0x100_0000 + n / 0x100 % 0x100 * 0x1_0000 + n / 0x1_0000 % 0x100 * 0x100 + n / 0x100_0000
  }

  // A little-endian store of the reversed number writes it big-endian.
  lemma ReversedStore(n: nat)
    requires n < WORD
    ensures LittleEndian32(Reversed32(n)) == BigEndian32(n)
  {
    hide ByteOf, Reversed32;
    var b0, b1, b2, b3 := n % 0x100, n / 0x100 % 0x100, n / 0x1_0000 % 0x100, n / 0x100_0000;
    var r := Reversed32(n);
    assert r == b0 * 0x100_0000 + b1 * 0x1_0000 + b2 * 0x100 + b3 by { Reversed32Bytes(n); }
    FourBytes(b0, b1, b2, b3, r);
    SameByte(r, n / 0x100_0000);
    SameByte(r / 0x100, n / 0x1_0000);
    SameByte(r / 0x1_0000, n / 0x100);
    SameByte(r / 0x100_0000, n);
  }

  lemma Reversed32Bytes(n: nat)
    requires n < WORD
    ensures Reversed32(n) == n % 0x100 * 0x100_0000 + n / 0x100 % 0x100 * 0x1_0000 + n / 0x1_0000 % 0x100 * 0x100 + n / 0x100_0000
  {
  }

  lemma FourBytes(b0: nat, b1: nat, b2: nat, b3: nat, r: nat)
    requires b0 < 0x100 && b1 < 0x100 && b2 < 0x100 && b3 < 0x100
    requires r == b0 * 0x100_0000 + b1 * 0x1_0000 + b2 * 0x100 + b3
    ensures r % 0x100 == b3
    ensures r / 0x100 == b0 * 0x1_0000 + b1 * 0x100 + b2
    ensures r / 0x1_0000 == b0 * 0x100 + b1
    ensures r / 0x100_0000 == b0
    ensures r / 0x100 % 0x100 == b2 && r / 0x1_0000 % 0x100 == b1
  {
  }

  lemma SameByte(a: nat, b: nat)
    requires a % 0x100 == b % 0x100
    ensures ByteOf(a) == ByteOf(b)
  {
  }

  // Copying bytes to a place in a buffer.
  method CopyInto(dst: array<byte>, at: nat, src: seq<byte>)
    requires at + |src| <= dst.Length
    modifies dst
    ensures dst[..] == old(dst[..at]) + src + old(dst[at + |src|..])
  {
    for i := 0 to |src|
      invariant dst[..at] == old(dst[..at])
      invariant dst[at..at + i] == src[..i]
      invariant dst[at + i..] == old(dst[at + i..])
    {
      dst[at + i] := src[i];
    }
  }

  lemma FinalWords(total0: nat, total1: nat, bytes: nat)
    requires total0 < WORD && total1 < WORD
    ensures (total0 + bytes) % WORD == AddLow(total0, bytes)
    ensures (if AddLow(total0, bytes) < bytes then (total1 + 1) % WORD else total1) == AddHigh(total0, total1, bytes)
  {
  }

  // Folding what waits, with the padding, folds the whole padded message.
  lemma LastBlocks<H>(f: (H, seq<byte>) -> H, init: H, chain: H, waiting: seq<byte>, tail: seq<byte>, msg: seq<byte>)
    requires Represents(f, init, chain, waiting, msg) && |waiting + tail| % 64 == 0
    ensures |msg + tail| % 64 == 0 && Fold(f, chain, waiting + tail) == Fold(f, init, msg + tail)
  {
    Buffered(f, init, chain, waiting, msg, tail);
    assert waiting + tail == (waiting + tail) + [];
    Flushed(f, init, chain, waiting + tail, [], msg + tail);
    assert (msg + tail)[..|msg + tail|] == msg + tail;
  }

  lemma SamePad(n: nat, bytes: nat)
    requires bytes <= 64 && bytes <= n && (n - bytes) % 64 == 0
    ensures (if bytes >= 56 then 64 + 56 - bytes else 56 - bytes) == PadLength(n)
  {
    Rest64(n, bytes);
  }

  lemma Rest64(n: nat, bytes: nat)
    requires bytes <= 64 && bytes <= n && (n - bytes) % 64 == 0
    ensures n % 64 == if bytes == 64 then 0 else bytes
  {
    var q := (n - bytes) / 64;
    if bytes == 64 {
      assert n == 64 * (q + 1) + 0;
    } else {
      assert n == 64 * q + bytes;
    }
  }

  lemma FinalCount(total0: nat, total1: nat, n: nat, bytes: nat)
    requires total0 < WORD && total1 < WORD && bytes <= 64 && bytes <= n && CountIs(total0, total1, n - bytes)
    ensures var t0, t1 := AddLow(total0, bytes), AddHigh(total0, total1, bytes);
      ShiftLow(t0) == BitsLow(n) && ShiftHigh(t0, t1) == BitsHigh(n)
  {
    CountMoves(total0, total1, n - bytes, bytes);
    BitLength(AddLow(total0, bytes), AddHigh(total0, total1, bytes), n);
  }

  // The message cut into pieces.
  function Joined(chunks: seq<seq<byte>>): seq<byte> {
    if chunks == [] then [] else Joined(chunks[..|chunks| - 1]) + chunks[|chunks| - 1]
  }
}
