// checksum_ip of net.c: the Internet checksum of RFC 1071.
module Checksum {
  const WORD := 0x1_0000
  const MAX := 0xFFFF

  type byte = b: int | 0 <= b < 256

  // The sum of the 16-bit words as a little-endian machine reads them; a last odd
  // byte counts by itself.
  function Sum(data: seq<byte>): nat {
    if data == [] then 0
    else if |data| == 1 then data[0] as int
    else data[0] as int + 256 * (data[1] as int) + Sum(data[2..])
  }

  method ChecksumIp(addr: seq<byte>) returns (r: nat)
    ensures r <= MAX
    ensures (Sum(addr) + r) % MAX == 0
    ensures r == MAX <==> Sum(addr) == 0
    ensures r == OnesComplement(Sum(addr))
  {
    var sum: int, rest := 0, addr;
    while |rest| > 1
      invariant sum + Sum(rest) == Sum(addr)
      decreases |rest|
    {
      sum := sum + rest[0] as int + 256 * (rest[1] as int);
      rest := rest[2..];
    }
    if |rest| > 0 {
      sum := sum + rest[0] as int;
    }
    while sum / WORD != 0
      invariant 0 <= sum && sum % MAX == Sum(addr) % MAX && (sum == 0 <==> Sum(addr) == 0)
      decreases sum
    {
      FoldOnce(sum);
      sum := sum % WORD + sum / WORD;
    }
    r := MAX - sum;
    Congruent(sum, Sum(addr));
  }

  // Folding the high half onto the low half ends, keeps the value modulo 2^16 - 1,
  // and makes nothing zero.
  lemma FoldOnce(sum: nat)
    requires sum >= WORD
    ensures var next := sum % WORD + sum / WORD; 0 < next < sum && next % MAX == sum % MAX
  {
    var h, l := sum / WORD, sum % WORD;
    assert sum == h * MAX + (h + l);
  }

  // The value the checksum has, without folding: what is missing to a multiple of
  // 2^16 - 1, and all ones for a sum of zero.
  function OnesComplement(sum: nat): nat {
    if sum == 0 then MAX else (MAX - sum % MAX) % MAX
  }

  lemma Congruent(sum: nat, total: nat)
    requires sum <= MAX && sum % MAX == total % MAX && (sum == 0 <==> total == 0)
    ensures MAX - sum == OnesComplement(total)
    ensures (total + (MAX - sum)) % MAX == 0
  {
    assert total == total / MAX * MAX + total % MAX;
  }

  // The checksum field, of two bytes at an even position.
  function Stored(data: seq<byte>, at: nat, r: nat): seq<byte>
    requires at + 2 <= |data| && r <= MAX
  {
    data[..at] + [r % 256, r / 256] + data[at + 2..]
  }

  lemma {:induction false} SumSplits(a: seq<byte>, b: seq<byte>)
    requires |a| % 2 == 0
    ensures Sum(a + b) == Sum(a) + Sum(b)
    decreases |a|
  {
    if a == [] {
      assert a + b == b;
    } else {
      assert (a + b)[2..] == a[2..] + b;
      SumSplits(a[2..], b);
    }
  }

  // The example of section 3 of RFC 1071, in little-endian words: the sum folds to 0xf2dd.
  lemma Example()
    ensures OnesComplement(Sum([0x00, 0x01, 0xf2, 0x03, 0xf4, 0xf5, 0xf6, 0xf7])) == 0xffff - 0xf2dd
  {
    var s: seq<byte> := [0x00, 0x01, 0xf2, 0x03, 0xf4, 0xf5, 0xf6, 0xf7];
    assert s[2..] == [0xf2, 0x03, 0xf4, 0xf5, 0xf6, 0xf7] && s[4..] == [0xf4, 0xf5, 0xf6, 0xf7] && s[6..] == [0xf6, 0xf7];
    assert s[2..][2..] == s[4..] && s[4..][2..] == s[6..] && s[6..][2..] == [];
  }

  // A packet whose zeroed field receives the checksum has checksum zero: that is how
  // its receiver recognises it.
  lemma StoredVerifies(data: seq<byte>, at: nat)
    requires at % 2 == 0 && at + 2 <= |data| && data[at] == 0 && data[at + 1] == 0
    ensures OnesComplement(Sum(Stored(data, at, OnesComplement(Sum(data))))) == 0
  {
    var r := OnesComplement(Sum(data));
    SumStored(data, at, r);
    var s := Sum(data);
    Congruent2(s);
  }

  lemma Congruent2(s: nat)
    ensures OnesComplement(s + OnesComplement(s)) == 0
  {
    assert s == s / MAX * MAX + s % MAX;
  }

  lemma SumStored(data: seq<byte>, at: nat, r: nat)
    requires at % 2 == 0 && at + 2 <= |data| && data[at] == 0 && data[at + 1] == 0 && r <= MAX
    ensures Sum(Stored(data, at, r)) == Sum(data) + r
  {
    var front, back := data[..at], data[at + 2..];
    var zero, field: seq<byte> := [0, 0], [r % 256, r / 256];
    assert data == front + (zero + back) && Stored(data, at, r) == front + (field + back);
    SumSplits(front, zero + back);
    SumSplits(front, field + back);
    SumPair(0, 0, back);
    SumPair(r % 256, r / 256, back);
  }

  lemma SumPair(a: byte, b: byte, back: seq<byte>)
    ensures Sum([a, b] + back) == a as int + 256 * (b as int) + Sum(back)
  {
    assert ([a, b] + back)[2..] == back;
  }
}
