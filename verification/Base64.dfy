// http/base64.c over bytes; text is a sequence of character codes.
module Base64 {
  type byte = bv8
  type Text = seq<bv8>

  const PAD: bv8 := 61

  // The function encode: A-Z, a-z, 0-9, + and /.
  function Encode(u: bv8): bv8 {
    if u < 26 then 65 + u
    else if u < 52 then 97 + (u - 26)
    else if u < 62 then 48 + (u - 52)
    else if u == 62 then 43
    else 47
  }

  function Decode(c: bv8): bv8 {
    if 65 <= c <= 90 then c - 65
    else if 97 <= c <= 122 then c - 97 + 26
    else if 48 <= c <= 57 then c - 48 + 52
    else if c == 43 then 62
    else 63
  }

  predicate IsBase64(c: bv8) {
    65 <= c <= 90 || 97 <= c <= 122 || 48 <= c <= 57 || c == 43 || c == 47 || c == PAD
  }

  // Three bytes cut into four numbers of six bits, and joined again.
  function Cut1(b1: byte): bv8 { b1 >> 2 }
  function Cut2(b1: byte, b2: byte): bv8 { ((b1 & 0x3) << 4) | (b2 >> 4) }
  function Cut3(b2: byte, b3: byte): bv8 { ((b2 & 0xf) << 2) | (b3 >> 6) }
  function Cut4(b3: byte): bv8 { b3 & 0x3f }
  function Join1(b1: bv8, b2: bv8): byte { (b1 << 2) | (b2 >> 4) }
  function Join2(b2: bv8, b3: bv8): byte { ((b2 & 0xf) << 4) | (b3 >> 2) }
  function Join3(b3: bv8, b4: bv8): byte { ((b3 & 0x3) << 6) | b4 }

  // One group of up to three bytes becomes four characters.
  function EncodeGroup(src: seq<byte>): (r: Text)
    requires 1 <= |src| <= 3
    ensures |r| == 4
  {
    var b1 := src[0];
    var b2 := if 1 < |src| then src[1] else 0;
    var b3 := if 2 < |src| then src[2] else 0;
    [Encode(Cut1(b1)),
     Encode(Cut2(b1, b2)),
     if 1 < |src| then Encode(Cut3(b2, b3)) else PAD,
     if 2 < |src| then Encode(Cut4(b3)) else PAD]
  }

  // Four characters become one to three bytes.
  function DecodeGroup(c1: bv8, c2: bv8, c3: bv8, c4: bv8): seq<byte> {
    var b1, b2, b3, b4 := Decode(c1), Decode(c2), Decode(c3), Decode(c4);
    [Join1(b1, b2)] + (if c3 != PAD then [Join2(b2, b3)] else []) + (if c4 != PAD then [Join3(b3, b4)] else [])
  }

  // ---- The code, group after group ----

  function Encoded(src: seq<byte>): Text {
    if src == [] then []
    else if |src| <= 3 then EncodeGroup(src)
    else EncodeGroup(src[..3]) + Encoded(src[3..])
  }

  // Missing characters of the last group count as 'A'.
  function CharAt(buf: Text, k: nat): bv8 {
    if k < |buf| then buf[k] else 65
  }

  function Decoded(buf: Text): seq<byte>
    decreases |buf|
  {
    if buf == [] then []
    else DecodeGroup(buf[0], CharAt(buf, 1), CharAt(buf, 2), CharAt(buf, 3))
         + (if |buf| <= 4 then [] else Decoded(buf[4..]))
  }

  function Kept(src: Text): Text {
    if src == [] then [] else (if IsBase64(src[0]) then [src[0]] else []) + Kept(src[1..])
  }

  // The data up to its first zero byte, which is what a size of zero asks for.
  function UpToZero(src: seq<byte>): seq<byte> {
    if src == [] || src[0] == 0 then [] else [src[0]] + UpToZero(src[1..])
  }

  // encode_base64. The buffer has room for size*4/3+4 characters, all zero at first;
  // a zero is left behind the text.
  method EncodeBase64(size: nat, src: seq<byte>) returns (text: Text, room: nat)
    requires size <= |src|
    ensures var data := if size == 0 then UpToZero(src) else src[..size];
      text == Encoded(data) && room == |data| * 4 / 3 + 4 && |text| < room
  {
    var data := if size == 0 then UpToZero(src) else src[..size];
    room := |data| * 4 / 3 + 4;
    EncodedLength(data);
    text := EncodeGroups(data, room);
  }

  // The loop of encode_base64, in a buffer of the given size.
  method EncodeGroups(data: seq<byte>, room: nat) returns (text: Text)
    requires |Encoded(data)| < room
    ensures text == Encoded(data)
  {
    NothingEncoded();
    hide Encoded, EncodeGroup;
    var out := new bv8[room];
    var p, i := 0, 0;
    assert data[0..] == data && out[..0] == [];
    while i < |data|
      invariant p <= |Encoded(data)|
      invariant out[..p] + Encoded(From(data, i)) == Encoded(data)
    {
      GroupStep(data, i);
      ghost var before := out[..p];
      p := PutGroup(out, p, data, i);
      assert before + (EncodeGroup(GroupAt(data, i)) + Encoded(From(data, i + 3))) == out[..p] + Encoded(From(data, i + 3));
      i := i + 3;
    }
    text := out[..p];
    assert From(data, i) == [];
    assert text + [] == text;
  }

  lemma NothingEncoded()
    ensures Encoded([]) == []
  {
  }

  function From<T>(data: seq<T>, i: nat): seq<T> {
    if i <= |data| then data[i..] else []
  }

  function GroupAt(data: seq<byte>, i: nat): (g: seq<byte>)
    requires i < |data|
    ensures 1 <= |g| <= 3
  {
    if i + 3 <= |data| then data[i..i + 3] else data[i..]
  }

  lemma GroupStep(data: seq<byte>, i: nat)
    requires i < |data|
    ensures Encoded(From(data, i)) == EncodeGroup(GroupAt(data, i)) + Encoded(From(data, i + 3))
    ensures |Encoded(From(data, i))| >= 4
  {
    var rest := data[i..];
    if |rest| > 3 {
      assert rest[..3] == data[i..i + 3] && rest[3..] == data[i + 3..];
    } else {
      assert From(data, i + 3) == [] && rest == GroupAt(data, i);
    }
  }

  // The body of the loop of encode_base64.
  method PutGroup(out: array<bv8>, p: nat, data: seq<byte>, i: nat) returns (p': nat)
    requires i < |data| && p + 4 <= out.Length
    modifies out
    ensures p' == p + 4 && out[..p'] == old(out[..p]) + EncodeGroup(GroupAt(data, i))
  {
    hide Encode, Cut1, Cut2, Cut3, Cut4;
    var b1, b2, b3 := data[i], 0, 0;
    if i + 1 < |data| { b2 := data[i + 1]; }
    if i + 2 < |data| { b3 := data[i + 2]; }
    out[p] := Encode(Cut1(b1));
    out[p + 1] := Encode(Cut2(b1, b2));
    out[p + 2] := if i + 1 < |data| then Encode(Cut3(b2, b3)) else PAD;
    out[p + 3] := if i + 2 < |data| then Encode(Cut4(b3)) else PAD;
    p' := p + 4;
    assert out[p..p'] == EncodeGroup(GroupAt(data, i));
    assert out[..p'] == out[..p] + out[p..p'];
  }

  // The text and its terminator fit, with nothing to spare when size mod 3 is 1.
  lemma {:induction false} EncodedLength(src: seq<byte>)
    ensures |Encoded(src)| == (|src| + 2) / 3 * 4
    ensures |Encoded(src)| + 1 <= |src| * 4 / 3 + 4
    ensures |src| % 3 == 1 ==> |Encoded(src)| + 1 == |src| * 4 / 3 + 4
    decreases |src|
  {
    hide EncodeGroup;
    if |src| > 3 {
      EncodedLength(src[3..]);
      var n := |src[3..]|;
      assert |src| == n + 3 && |Encoded(src)| == |Encoded(src[3..])| + 4;
      hide Encoded;
      assert (n + 3 + 2) / 3 == (n + 2) / 3 + 1;
      assert (n + 3) * 4 / 3 == n * 4 / 3 + 4;
    }
  }

  // decode_base64: other characters are ignored, and the text ends at its first zero.
  method DecodeBase64(src: Text) returns (dest: seq<byte>)
    ensures dest == Decoded(Kept(UpToZero(src)))
  {
    var buf: Text := [];
    var k := 0;
    ghost var text := UpToZero(src);
    UpToZeroAt(src);
    while k < |src| && src[k] != 0
      invariant k <= |text| <= |src|
      invariant buf + Kept(text[k..]) == Kept(text)
    {
      assert text[k..][0] == src[k] && text[k..][1..] == text[k + 1..];
      if IsBase64(src[k]) {
        assert buf + ([src[k]] + Kept(text[k + 1..])) == buf + [src[k]] + Kept(text[k + 1..]);
        buf := buf + [src[k]];
      }
      k := k + 1;
    }
    assert buf + [] == buf;
    dest := DecodeGroups(buf);
  }

  method DecodeGroups(buf: Text) returns (dest: seq<byte>)
    ensures dest == Decoded(buf)
  {
    NothingDecoded();
    hide Decoded, DecodeGroup;
    dest := [];
    var k := 0;
    assert buf[0..] == buf;
    while k < |buf|
      invariant dest + Decoded(From(buf, k)) == Decoded(buf)
    {
      var c1, c2, c3, c4 := buf[k], 65, 65, 65;
      if k + 1 < |buf| { c2 := buf[k + 1]; }
      if k + 2 < |buf| { c3 := buf[k + 2]; }
      if k + 3 < |buf| { c4 := buf[k + 3]; }
      DecodeStep(buf, k);
      assert dest + (DecodeGroup(c1, c2, c3, c4) + Decoded(From(buf, k + 4)))
          == dest + DecodeGroup(c1, c2, c3, c4) + Decoded(From(buf, k + 4));
      dest := dest + DecodeGroup(c1, c2, c3, c4);
      k := k + 4;
    }
    assert From(buf, k) == [] && dest + [] == dest;
  }

  lemma NothingDecoded()
    ensures Decoded([]) == []
  {
  }

  lemma DecodeStep(buf: Text, k: nat)
    requires k < |buf|
    ensures Decoded(From(buf, k))
         == DecodeGroup(buf[k], CharAt(buf, k + 1), CharAt(buf, k + 2), CharAt(buf, k + 3)) + Decoded(From(buf, k + 4))
  {
    hide DecodeGroup;
    var rest := buf[k..];
    assert CharAt(rest, 1) == CharAt(buf, k + 1) && CharAt(rest, 2) == CharAt(buf, k + 2) && CharAt(rest, 3) == CharAt(buf, k + 3);
    if |rest| > 4 {
      assert rest[4..] == buf[k + 4..];
    } else {
      assert From(buf, k + 4) == [];
    }
  }

  lemma {:induction false} UpToZeroAt(src: Text)
    ensures |UpToZero(src)| <= |src| && src[..|UpToZero(src)|] == UpToZero(src)
    ensures 0 !in UpToZero(src)
    ensures |UpToZero(src)| < |src| ==> src[|UpToZero(src)|] == 0
  {
    if src != [] && src[0] != 0 {
      UpToZeroAt(src[1..]);
      assert src == [src[0]] + src[1..];
    }
  }

  // ---- What the letters and the groups mean ----

  // Table 1 of RFC 4648.
  const UPPER: string := "ABCDEFGHIJKLMNOPQRSTUVWXYZ"
  const LOWER: string := "abcdefghijklmnopqrstuvwxyz"
  const DIGITS: string := "0123456789"
  const ALPHABET: string := UPPER + LOWER + DIGITS + "+/"

  // The character of a value of six bits is its letter in the table.
  predicate Codes(c: bv8, u: nat) {
    u < |ALPHABET| && c as int == ALPHABET[u] as int
  }

  lemma LetterMeans(u: bv8)
    requires u < 64
    ensures |ALPHABET| == 64 && Codes(Encode(u), u as nat)
  {
    assert UPPER[25] == 'Z' && LOWER[25] == 'z' && DIGITS[9] == '9';
    EncodeNumber(u);
    LetterNumber(u as nat);
  }

  function LetterCode(k: int): int {
    if k < 26 then 65 + k else if k < 52 then 71 + k else if k < 62 then k - 4 else if k == 62 then 43 else 47
  }

  lemma EncodeNumber(u: bv8)
    requires u < 64
    ensures Encode(u) as int == LetterCode(u as int)
  {
  }

  lemma LetterNumber(k: nat)
    requires k < 64
    ensures |ALPHABET| == 64 && ALPHABET[k] as int == LetterCode(k)
  {
    assert |UPPER| == |LOWER| == 26 && |DIGITS| == 10 && |"+/"| == 2;
    if k < 26 {
      assert ALPHABET[k] == UPPER[k];
    } else if k < 52 {
      assert ALPHABET[k] == LOWER[k - 26];
    } else if k < 62 {
      assert ALPHABET[k] == DIGITS[k - 52];
    } else {
      assert ALPHABET[k] == "+/"[k - 62];
    }
  }

  // What the decoder keeps are the letters of the table and the padding.
  lemma KeptMeans(c: bv8)
    ensures IsBase64(c) <==> c == PAD || exists k: nat :: Codes(c, k)
  {
    assert IsBase64(PAD);
    hide IsBase64, Encode, Decode, Codes;
    if IsBase64(c) && c != PAD {
      Recoded(c);
      LetterMeans(Decode(c));
      assert Codes(c, Decode(c) as nat);
    }
    forall k: nat | Codes(c, k) ensures IsBase64(c) {
      LetterKept(c, k);
    }
  }

  lemma Recoded(c: bv8)
    requires IsBase64(c) && c != PAD
    ensures Decode(c) < 64 && Encode(Decode(c)) == c
  {
  }

  lemma InTable(c: bv8, k: nat)
    requires Codes(c, k)
    ensures k < 64 && c as int == LetterCode(k)
  {
    hide LetterCode;
    LetterNumber(0);
    LetterNumber(k);
  }

  lemma OfNumber(k: nat) returns (u: bv8)
    requires k < 64
    ensures u < 64 && u as nat == k
  {
    u := k as bv8;
  }

  lemma LetterKept(c: bv8, k: nat)
    requires Codes(c, k)
    ensures IsBase64(c)
  {
    hide *;
    InTable(c, k);
    var u := OfNumber(k);
    EncodeNumber(u);
    SameCode(c, Encode(u));
    Alphabet(u);
  }

  lemma SameCode(a: bv8, b: bv8)
    requires a as int == b as int
    ensures a == b
  {
    assert a as int as bv8 == a && b as int as bv8 == b;
  }

  // Three bytes, and four values of six bits, as one number of 24 bits.
  function OfBytes(b1: byte, b2: byte, b3: byte): bv24 {
    (b1 as bv24 << 16) | (b2 as bv24 << 8) | b3 as bv24
  }

  function OfSixes(u1: bv8, u2: bv8, u3: bv8, u4: bv8): bv24 {
    (u1 as bv24 << 18) | (u2 as bv24 << 12) | (u3 as bv24 << 6) | u4 as bv24
  }

  lemma CutValue(b1: byte, b2: byte, b3: byte)
    ensures OfSixes(Cut1(b1), Cut2(b1, b2), Cut3(b2, b3), Cut4(b3)) == OfBytes(b1, b2, b3)
  {
  }

  // A group is spelled by the letters of its number, a byte that is not there counting as
  // zero; of one byte the last two letters are padding, of two bytes the last one.
  lemma GroupMeans(src: seq<byte>) returns (u1: bv8, u2: bv8, u3: bv8, u4: bv8)
    requires 1 <= |src| <= 3
    ensures u1 < 64 && u2 < 64 && u3 < 64 && u4 < 64
    ensures OfSixes(u1, u2, u3, u4)
         == OfBytes(src[0], if 1 < |src| then src[1] else 0, if 2 < |src| then src[2] else 0)
    ensures var g := EncodeGroup(src);
      && Codes(g[0], u1 as nat) && Codes(g[1], u2 as nat)
      && (if 1 < |src| then Codes(g[2], u3 as nat) else g[2] == PAD)
      && (if 2 < |src| then Codes(g[3], u4 as nat) else g[3] == PAD)
  {
    var b1 := src[0];
    var b2 := if 1 < |src| then src[1] else 0;
    var b3 := if 2 < |src| then src[2] else 0;
    u1, u2, u3, u4 := Cut1(b1), Cut2(b1, b2), Cut3(b2, b3), Cut4(b3);
    SixBits(b1, b2, b3);
    CutValue(b1, b2, b3);
    LetterMeans(u1);
    LetterMeans(u2);
    LetterMeans(u3);
    LetterMeans(u4);
    hide Encode, Codes, Cut1, Cut2, Cut3, Cut4, OfBytes, OfSixes;
  }

  lemma Behind(g: Text, t: Text, p: nat)
    requires |g| == 4 && p + 4 <= |t|
    ensures (g + t)[p + 4..p + 8] == t[p..p + 4]
  {
  }

  lemma {:induction false} GroupsFrom(src: seq<byte>, i: nat, k: nat)
    requires i + 3 * k < |src|
    ensures 4 * k + 4 <= |Encoded(From(src, i))|
    ensures Encoded(From(src, i))[4 * k..4 * k + 4] == EncodeGroup(GroupAt(src, i + 3 * k))
    decreases k
  {
    hide Encoded, EncodeGroup, GroupAt, From;
    GroupStep(src, i);
    if k > 0 {
      GroupsFrom(src, i + 3, k - 1);
      Behind(EncodeGroup(GroupAt(src, i)), Encoded(From(src, i + 3)), 4 * (k - 1));
    }
  }

  // The four characters from 4 * k on spell the bytes from 3 * k on.
  lemma GroupsInOrder(src: seq<byte>, k: nat)
    requires 3 * k < |src|
    ensures 4 * k + 4 <= |Encoded(src)| && Encoded(src)[4 * k..4 * k + 4] == EncodeGroup(GroupAt(src, 3 * k))
  {
    GroupsFrom(src, 0, k);
    assert From(src, 0) == src;
  }

  // ---- Round trip ----

  lemma Alphabet(u: bv8)
    requires u < 64
    ensures Decode(Encode(u)) == u && IsBase64(Encode(u)) && Encode(u) != PAD && Encode(u) != 0
  {
  }

  lemma SixBits(b1: byte, b2: byte, b3: byte)
    ensures Cut1(b1) < 64 && Cut2(b1, b2) < 64 && Cut3(b2, b3) < 64 && Cut4(b3) < 64
  {
  }

  lemma Rejoined(b1: byte, b2: byte, b3: byte)
    ensures Join1(Cut1(b1), Cut2(b1, b2)) == b1
    ensures Join2(Cut2(b1, b2), Cut3(b2, b3)) == b2
    ensures Join3(Cut3(b2, b3), Cut4(b3)) == b3
  {
  }

  lemma GroupRoundTrip(src: seq<byte>)
    requires 1 <= |src| <= 3
    ensures var g := EncodeGroup(src); DecodeGroup(g[0], g[1], g[2], g[3]) == src
    ensures forall c :: c in EncodeGroup(src) ==> IsBase64(c)
  {
    assert IsBase64(PAD);
    var b1 := src[0];
    var b2 := if 1 < |src| then src[1] else 0;
    var b3 := if 2 < |src| then src[2] else 0;
    SixBits(b1, b2, b3);
    Rejoined(b1, b2, b3);
    Alphabet(Cut1(b1));
    Alphabet(Cut2(b1, b2));
    Alphabet(Cut3(b2, b3));
    Alphabet(Cut4(b3));
    hide Encode, Decode, IsBase64, Cut1, Cut2, Cut3, Cut4, Join1, Join2, Join3;
  }

  lemma {:induction false} DecodedEncoded(src: seq<byte>)
    ensures Decoded(Encoded(src)) == src
    ensures forall c :: c in Encoded(src) ==> IsBase64(c)
    decreases |src|
  {
    if src != [] {
      if |src| <= 3 {
        GroupRoundTrip(src);
      } else {
        GroupRoundTrip(src[..3]);
        DecodedEncoded(src[3..]);
        var g, r := EncodeGroup(src[..3]), Encoded(src[3..]);
        EncodedLength(src[3..]);
        assert (g + r)[4..] == r;
        assert src[..3] + src[3..] == src;
      }
    }
  }

  // The text is t with characters inserted that are not of the alphabet.
  predicate Inserted(t: Text, text: Text) {
    if text == [] then t == []
    else
      || (t != [] && text[0] == t[0] && Inserted(t[1..], text[1..]))
      || (!IsBase64(text[0]) && Inserted(t, text[1..]))
  }

  lemma {:induction false} InsertedKept(t: Text, text: Text)
    requires Inserted(t, text) && forall c :: c in t ==> IsBase64(c)
    ensures Kept(text) == t
  {
    if text != [] {
      if IsBase64(text[0]) {
        InsertedKept(t[1..], text[1..]);
        assert t == [t[0]] + t[1..];
      } else {
        assert t == [] || t[0] != text[0] by {
          assert t != [] ==> t[0] in t;
        }
        InsertedKept(t, text[1..]);
      }
    }
  }

  lemma {:induction false} NothingCut(text: Text)
    requires 0 !in text
    ensures UpToZero(text) == text
  {
    if text != [] {
      assert 0 !in text[1..];
      NothingCut(text[1..]);
      assert text == [text[0]] + text[1..];
    }
  }

  lemma {:induction false} InsertedSelf(t: Text)
    ensures Inserted(t, t)
  {
    if t != [] { InsertedSelf(t[1..]); }
  }

  // What decode_base64 makes of an encoding is the data again, and whatever characters
  // outside the alphabet, but no terminator, were inserted into the text.
  lemma RoundTrip(src: seq<byte>, text: Text)
    requires 0 !in text && Inserted(Encoded(src), text)
    ensures Decoded(Kept(UpToZero(text))) == src
  {
    DecodedEncoded(src);
    NothingCut(text);
    InsertedKept(Encoded(src), text);
  }

  // The encoding itself is such a text.
  lemma PlainRoundTrip(src: seq<byte>)
    ensures 0 !in Encoded(src) && Inserted(Encoded(src), Encoded(src))
    ensures Decoded(Kept(UpToZero(Encoded(src)))) == src
  {
    DecodedEncoded(src);
    assert !IsBase64(0);
    InsertedSelf(Encoded(src));
    RoundTrip(src, Encoded(src));
  }

  // A terminator in front of it ends the text before anything is decoded.
  lemma CutAtZero(src: seq<byte>)
    ensures Decoded(Kept(UpToZero([0] + Encoded(src)))) == []
  {
  }
}
