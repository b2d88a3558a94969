// url_encode and url_decode of util.c, on bytes.
module UrlCodec {
  type byte = b: int | 0 <= b < 256

  const PERCENT: byte := 0x25
  const PLUS: byte := 0x2B
  const SPACE: byte := 0x20

  // A string of C: no zero inside.
  predicate IsText(s: seq<byte>) {
    0 !in s
  }

  predicate IsXdigit(c: byte) {
    0x30 <= c <= 0x39 || 0x41 <= c <= 0x46 || 0x61 <= c <= 0x66
  }

  // The characters that are unsafe one by one: brackets, braces, quotes and the like.
  predicate Listed(c: byte) {
    c == 0x3C || c == 0x3E || c == 0x22 || c == 0x23 || c == 0x7B || c == 0x7D || c == 0x7C
    || c == 0x5C || c == 0x5E || c == 0x7E || c == 0x5B || c == 0x5D || c == 0x60
  }

  // They are the characters of this text.
  lemma ListedMeans(c: byte)
    ensures Listed(c) <==> exists i :: 0 <= i < |UNSAFE| && UNSAFE[i] as int == c
  {
    assert UNSAFE[0] == '<' && UNSAFE[1] == '>' && UNSAFE[2] == '"' && UNSAFE[3] == '#' && UNSAFE[4] == '{';
    assert UNSAFE[5] == '}' && UNSAFE[6] == '|' && UNSAFE[7] == '\\' && UNSAFE[8] == '^' && UNSAFE[9] == '~';
    assert UNSAFE[10] == '[' && UNSAFE[11] == ']' && UNSAFE[12] == '`';
  }

  const UNSAFE: string := "<>\"#{}|\\^~[]`"

  // An escape stands at the beginning.
  predicate Escape(s: seq<byte>) {
    |s| >= 3 && s[0] == PERCENT && IsXdigit(s[1]) && IsXdigit(s[2])
  }

  // is_unsafe: the first character has to be escaped; an escape already there is kept.
  predicate Unsafe(s: seq<byte>)
    requires s != []
  {
    s[0] < 33 || s[0] > 176 || (s[0] == PERCENT && !Escape(s)) || Listed(s[0])
  }

  function HexChar(d: byte): (c: byte)
    requires d < 16
    ensures IsXdigit(c)
  {
    if d < 10 then 0x30 + d else 0x41 + d - 10
  }

  // A character of C that is signed.
  function Signed(c: byte): int {
    if c < 128 then c else c - 256
  }

  // Bit 5 cleared, which makes a letter upper case.
  function Upper(c: byte): byte {
    if c / 32 % 2 == 1 then c - 32 else c
  }

  function Digit(c: byte): int {
    if Signed(c) >= 0x41 then Upper(c) - 0x41 + 10 else Signed(c) - 0x30
  }

  // x2c, of any two characters, reduced to one byte.
  function X2c(a: byte, b: byte): byte {
    (Digit(a) * 16 + Digit(b)) % 256
  }

  const HEX: string := "0123456789ABCDEF"
  const HEX_LOWER: string := "0123456789abcdef"

  predicate HexDigit(c: byte, k: nat) {
    k < |HEX| == |HEX_LOWER| && (c == HEX[k] as int || c == HEX_LOWER[k] as int)
  }

  // The hex digits written and read: capitals are written, both are read.
  lemma HexMeans(k: nat, c: byte)
    requires k < 16
    ensures |HEX| == |HEX_LOWER| == 16 && HexChar(k) == HEX[k] as int
    ensures HexDigit(c, k) ==> IsXdigit(c) && Digit(c) == k
  {
  }

  lemma XdigitMeans(c: byte)
    ensures IsXdigit(c) <==> exists k: nat :: HexDigit(c, k)
  {
    if IsXdigit(c) {
      HexMeans(Digit(c), c);
      assert HexDigit(c, Digit(c));
    }
    forall k: nat | HexDigit(c, k) ensures IsXdigit(c) {
      HexMeans(k, c);
    }
  }

  // An escape is read as the number its two digits write in base 16.
  lemma EscapeMeans(s: seq<byte>, j: nat, k: nat)
    requires Escape(s) && HexDigit(s[1], j) && HexDigit(s[2], k)
    ensures j < 16 && k < 16 && Unescaped(s) == [16 * j + k] + Unescaped(s[3..])
  {
    hide HexDigit, X2c;
    ReadAs(s[1], s[2], j, k);
  }

  lemma ReadAs(a: byte, b: byte, j: nat, k: nat)
    requires HexDigit(a, j) && HexDigit(b, k)
    ensures j < 16 && k < 16 && X2c(a, b) == 16 * j + k
  {
    hide Digit, IsXdigit, HexDigit;
    FewDigits(a, j);
    FewDigits(b, k);
    HexMeans(j, a);
    HexMeans(k, b);
  }

  lemma FewDigits(c: byte, k: nat)
    requires HexDigit(c, k)
    ensures k < 16
  {
  }

  lemma HexRoundTrip(c: byte)
    ensures X2c(HexChar(c / 16), HexChar(c % 16)) == c
  {
    DigitOfHex(c / 16);
    DigitOfHex(c % 16);
    hide HexChar, Digit;
    assert c / 16 * 16 + c % 16 == c;
  }

  lemma DigitOfHex(d: byte)
    requires d < 16
    ensures Digit(HexChar(d)) == d
  {
  }

  // What one character is written as.
  function Written(s: seq<byte>): (r: seq<byte>)
    requires s != []
    ensures 1 <= |r| <= 3
  {
    if Unsafe(s) then [PERCENT, HexChar(s[0] / 16), HexChar(s[0] % 16)] else [s[0]]
  }

  function Encoded(s: seq<byte>): seq<byte> {
    if s == [] then [] else Written(s) + Encoded(s[1..])
  }

  function Spaced(s: seq<byte>): (r: seq<byte>)
    ensures |r| == |s| && forall i :: 0 <= i < |s| ==> r[i] == if s[i] == PLUS then SPACE else s[i]
  {
    seq(|s|, i requires 0 <= i < |s| => if s[i] == PLUS then SPACE else s[i])
  }

  function Unescaped(s: seq<byte>): seq<byte> {
    if s == [] then []
    else if s[0] == PERCENT then
      if |s| < 3 then [] else [X2c(s[1], s[2])] + Unescaped(s[3..])
    else [s[0]] + Unescaped(s[1..])
  }

  function Decoded(s: seq<byte>): seq<byte> {
    Unescaped(Spaced(s))
  }

  // No escape is cut off by the end.
  predicate Complete(s: seq<byte>) {
    if s == [] then true
    else if s[0] == PERCENT then |s| >= 3 && Complete(s[3..])
    else Complete(s[1..])
  }

  // ---- The loops ----

  lemma {:induction false} EncodedRoom(s: seq<byte>)
    ensures |Encoded(s)| <= 3 * |s|
  {
    if s != [] { EncodedRoom(s[1..]); }
  }

  lemma EncodedStep(s: seq<byte>, x: nat)
    requires x < |s|
    ensures Encoded(s[x..]) == Written(s[x..]) + Encoded(s[x + 1..])
  {
    assert s[x..][1..] == s[x + 1..];
  }

  method UrlEncode(uri: seq<byte>) returns (text: seq<byte>)
    requires IsText(uri)
    ensures text == Encoded(uri) && IsText(text)
  {
    hide Encoded, Unsafe;
    var str := new byte[3 * |uri| + 1];
    EncodedRoom(uri);
    var x, y := 0, 0;
    assert uri[0..] == uri && str[..0] == [];
    while x < |uri|
      invariant x <= |uri| && y <= |Encoded(uri)| && str[..y] + Encoded(uri[x..]) == Encoded(uri)
    {
      EncodedStep(uri, x);
      ghost var before := str[..y];
      y := Write(str, y, uri[x..]);
      assert before + (Written(uri[x..]) + Encoded(uri[x + 1..])) == str[..y] + Encoded(uri[x + 1..]);
      x := x + 1;
    }
    str[y] := 0;
    NothingEncoded();
    assert uri[x..] == [];
    text := str[..y];
    EncodedText(uri);
  }

  lemma NothingEncoded()
    ensures Encoded([]) == []
  {
  }

  method Write(str: array<byte>, y: nat, rest: seq<byte>) returns (y': nat)
    requires rest != [] && y + |Written(rest)| <= str.Length
    modifies str
    ensures y' == y + |Written(rest)| && str[..y'] == old(str[..y]) + Written(rest)
  {
    hide Unsafe, HexChar;
    if Unsafe(rest) {
      str[y] := PERCENT;
      str[y + 1] := HexChar(rest[0] / 16);
      str[y + 2] := HexChar(rest[0] % 16);
      y' := y + 3;
    } else {
      str[y] := rest[0];
      y' := y + 1;
    }
    assert str[..y'] == str[..y] + str[y..y'];
  }

  method ReplaceChar(url: array<byte>, n: nat)
    requires n < url.Length && url[n] == 0 && 0 !in url[..n]
    modifies url
    ensures url[..n] == Spaced(old(url[..n])) && url[n] == 0
  {
    ghost var s := url[..n];
    var i := 0;
    while url[i] != 0
      invariant i <= n && url[n] == 0 && url[i..n] == s[i..] && url[..i] == Spaced(s)[..i]
      decreases n - i
    {
      assert i < n && url[i] == url[i..n][0] == s[i];
      if url[i] == PLUS {
        url[i] := SPACE;
      }
      assert url[i + 1..n] == s[i..][1..];
      i := i + 1;
    }
    assert i == n;
    assert url[..n] == Spaced(s)[..n];
  }

  // ---- What url_decode reads ----

  // The positions that the scan reads from position y on, counted from the beginning of a
  // text with its terminator at |s|: an escape is read whole, and the scan ends at the
  // terminator, or at the first step beyond it.
  function Reads(s: seq<byte>, y: nat): (r: set<nat>)
    ensures y in r
    decreases if y < |s| then |s| - y else 0
  {
    if y >= |s| then {y}
    else if s[y] == PERCENT then {y, y + 1, y + 2} + Reads(s, y + 3)
    else {y} + Reads(s, y + 1)
  }

  predicate Inside(r: set<nat>, n: nat) {
    forall p :: p in r ==> p <= n
  }

  lemma InsideBoth(a: set<nat>, b: set<nat>, n: nat)
    ensures Inside(a + b, n) <==> Inside(a, n) && Inside(b, n)
  {
    assert forall p :: p in a || p in b ==> p in a + b;
  }

  // The scan stays inside the text and its terminator if and only if no escape is cut off.
  lemma {:induction false} ReadsInside(s: seq<byte>, y: nat)
    requires y <= |s|
    ensures Inside(Reads(s, y), |s|) <==> Complete(s[y..])
    decreases |s| - y
  {
    if y < |s| {
      var t := s[y..];
      assert t[1..] == s[y + 1..];
      if s[y] == PERCENT {
        InsideBoth({y, y + 1, y + 2}, Reads(s, y + 3), |s|);
        if y + 3 <= |s| {
          assert t[3..] == s[y + 3..];
          ReadsInside(s, y + 3);
        } else {
          assert !Inside(Reads(s, y + 3), |s|) by { assert y + 3 in Reads(s, y + 3); }
        }
      } else {
        InsideBoth({y}, Reads(s, y + 1), |s|);
        ReadsInside(s, y + 1);
      }
    }
  }

  lemma DecodeReads(s: seq<byte>)
    ensures Inside(Reads(Spaced(s), 0), |s|) <==> Complete(s)
  {
    assert Spaced(s)[0..] == Spaced(s);
    ReadsInside(Spaced(s), 0);
    SpacedComplete(s);
  }

  // A text of one percent sign is scanned past its terminator.
  lemma CutEscape()
    ensures !Complete([PERCENT]) && 2 in Reads(Spaced([PERCENT]), 0)
  {
  }

  // url_decode, in place: the reading position y is never behind the writing position x.
  // `inside` is false where the program would read behind the text.
  method UrlDecode(url: array<byte>, n: nat) returns (len: nat, inside: bool)
    requires n < url.Length && url[n] == 0 && IsText(url[..n])
    modifies url
    ensures inside <==> Inside(Reads(Spaced(old(url[..n])), 0), n)
    ensures inside ==> len <= n && url[..len] == Decoded(old(url[..n])) && url[len] == 0
  {
    ghost var s := Spaced(url[..n]);
    ReplaceChar(url, n);
    assert IsText(s) && s[0..] == s;
    ReadsInside(s, 0);
    len, inside := Unescape(url, n, s);
  }

  method Unescape(url: array<byte>, n: nat, ghost s: seq<byte>) returns (x: nat, inside: bool)
    requires n < url.Length && url[n] == 0 && url[..n] == s && IsText(s)
    modifies url
    ensures inside <==> Complete(s)
    ensures inside ==> x <= n && url[..x] == Unescaped(s) && url[x] == 0
  {
    hide Unescaped, Complete, X2c;
    NothingUnescaped();
    x := 0;
    var y := 0;
    assert s[0..] == s && url[..0] == [];
    while url[y] != 0
      invariant x <= y <= n && url[n] == 0 && url[y..n] == s[y..] && Complete(s[y..]) == Complete(s)
      invariant url[..x] + Unescaped(s[y..]) == Unescaped(s)
      decreases n - y
    {
      DecodeStep(s, y);
      assert url[y] == s[y..][0];
      ghost var before := url[..x];
      if url[y] == PERCENT {
        if y + 3 > n {
          return 0, false;
        }
        assert url[y + 1] == s[y..][1] && url[y + 2] == s[y..][2];
        url[x] := X2c(url[y + 1], url[y + 2]);
        assert before + ([url[x]] + Unescaped(s[y + 3..])) == url[..x + 1] + Unescaped(s[y + 3..]);
        y := y + 2;
      } else {
        url[x] := url[y];
        assert before + ([url[x]] + Unescaped(s[y + 1..])) == url[..x + 1] + Unescaped(s[y + 1..]);
      }
      x, y := x + 1, y + 1;
    }
    assert y == n;
    assert s[n..] == [];
    url[x] := 0;
    inside := true;
  }

  lemma NothingUnescaped()
    ensures Unescaped([]) == [] && Complete([])
  {
  }

  lemma DecodeStep(s: seq<byte>, y: nat)
    requires y < |s|
    ensures s[y] == PERCENT && y + 3 > |s| ==> !Complete(s[y..])
    ensures s[y] == PERCENT && y + 3 <= |s| ==>
      && Complete(s[y..]) == Complete(s[y + 3..])
      && Unescaped(s[y..]) == [X2c(s[y + 1], s[y + 2])] + Unescaped(s[y + 3..])
    ensures s[y] != PERCENT ==>
      Complete(s[y..]) == Complete(s[y + 1..]) && Unescaped(s[y..]) == [s[y]] + Unescaped(s[y + 1..])
  {
    var t := s[y..];
    assert t[1..] == s[y + 1..];
    if |t| >= 3 { assert t[3..] == s[y + 3..]; }
  }

  lemma {:induction false} SpacedComplete(s: seq<byte>)
    ensures Complete(Spaced(s)) <==> Complete(s)
    decreases |s|
  {
    if s != [] {
      if s[0] == PERCENT {
        if |s| >= 3 {
          assert Spaced(s)[3..] == Spaced(s[3..]);
          SpacedComplete(s[3..]);
        }
      } else {
        assert Spaced(s)[1..] == Spaced(s[1..]);
        SpacedComplete(s[1..]);
      }
    }
  }

  // ---- Round trip ----

  // What decoding makes of an encoded text: escapes that were there are resolved, and
  // a plus becomes a space.
  function Resolved(s: seq<byte>): seq<byte> {
    if s == [] then []
    else if Escape(s) then [X2c(s[1], s[2])] + Resolved(s[3..])
    else [if s[0] == PLUS then SPACE else s[0]] + Resolved(s[1..])
  }

  lemma SpacedConcat(a: seq<byte>, b: seq<byte>)
    ensures Spaced(a + b) == Spaced(a) + Spaced(b)
  {
  }

  // Unescaping one written character, with more text behind it.
  lemma WrittenResolved(s: seq<byte>, rest: seq<byte>)
    requires s != [] && !Escape(s)
    ensures Decoded(Written(s) + rest) == [if s[0] == PLUS then SPACE else s[0]] + Decoded(rest)
    ensures Complete(Written(s) + rest) <==> Complete(rest)
  {
    hide X2c;
    SpacedConcat(Written(s), rest);
    HexRoundTrip(s[0]);
    var t := Spaced(Written(s)) + Spaced(rest);
    if Unsafe(s) {
      assert Spaced(Written(s)) == Written(s);
      assert t[3..] == Spaced(rest) && (Written(s) + rest)[3..] == rest;
    } else {
      assert t[1..] == Spaced(rest) && (Written(s) + rest)[1..] == rest;
    }
  }

  lemma KeptResolved(s: seq<byte>, rest: seq<byte>)
    requires Escape(s)
    ensures Decoded(s[..3] + rest) == [X2c(s[1], s[2])] + Decoded(rest)
    ensures Complete(s[..3] + rest) <==> Complete(rest)
  {
    hide X2c;
    SpacedConcat(s[..3], rest);
    assert Spaced(s[..3]) == s[..3];
    assert (s[..3] + Spaced(rest))[3..] == Spaced(rest) && (s[..3] + rest)[3..] == rest;
  }

  // An escape is written as it is.
  lemma EscapeEncoded(s: seq<byte>)
    requires Escape(s)
    ensures Encoded(s) == s[..3] + Encoded(s[3..])
  {
    var t, u := s[1..], s[2..];
    assert t[1..] == u && u[1..] == s[3..];
    assert !Unsafe(s) && !Unsafe(t) && !Unsafe(u);
    assert Encoded(s) == [s[0]] + Encoded(t) && Encoded(t) == [t[0]] + Encoded(u) && Encoded(u) == [u[0]] + Encoded(s[3..]);
    hide Encoded, Unsafe;
    assert s[..3] == [s[0]] + [t[0]] + [u[0]];
  }

  lemma {:induction false} EncodedResolved(s: seq<byte>)
    ensures Decoded(Encoded(s)) == Resolved(s) && Complete(Encoded(s))
    decreases |s|
  {
    hide Decoded, X2c;
    if s == [] {
      assert Decoded([]) == [] by { NothingDecoded(); }
    } else if Escape(s) {
      EncodedResolved(s[3..]);
      EscapeEncoded(s);
      KeptResolved(s, Encoded(s[3..]));
    } else {
      EncodedResolved(s[1..]);
      WrittenResolved(s, Encoded(s[1..]));
    }
  }

  lemma NothingDecoded()
    ensures Decoded([]) == []
  {
    assert Spaced([]) == [];
  }

  // Neither a plus nor an escape.
  predicate Plain(s: seq<byte>) {
    PLUS !in s && forall i :: 0 <= i < |s| ==> !Escape(s[i..])
  }

  lemma {:induction false} ResolvedPlain(s: seq<byte>)
    ensures |Resolved(s)| <= |s|
    ensures Resolved(s) == s <==> Plain(s)
    decreases |s|
  {
    if s != [] {
      assert s[0..] == s;
      if Escape(s) {
        ResolvedPlain(s[3..]);
      } else {
        ResolvedPlain(s[1..]);
        PlainTail(s);
        assert s == [s[0]] + s[1..];
        assert Resolved(s)[1..] == Resolved(s[1..]);
      }
    }
  }

  lemma PlainTail(s: seq<byte>)
    requires s != [] && !Escape(s)
    ensures Plain(s) <==> s[0] != PLUS && Plain(s[1..])
  {
    hide Escape;
    assert s[0..] == s;
    if Plain(s) {
      forall i | 0 <= i < |s[1..]| ensures !Escape(s[1..][i..]) {
        assert s[1..][i..] == s[i + 1..];
      }
      assert forall c :: c in s[1..] ==> c in s;
    }
    if s[0] != PLUS && Plain(s[1..]) {
      forall i | 0 <= i < |s| ensures !Escape(s[i..]) {
        if i > 0 { assert s[i..] == s[1..][i - 1..]; }
      }
      assert s == [s[0]] + s[1..];
    }
  }

  lemma {:induction false} EncodedText(s: seq<byte>)
    requires IsText(s)
    ensures IsText(Encoded(s))
  {
    if s != [] {
      assert s[0] in s && forall c :: c in s[1..] ==> c in s;
      EncodedText(s[1..]);
    }
  }

  // Decoding an encoded text gives it back exactly when it has no plus and no escape.
  lemma RoundTrip(s: seq<byte>)
    requires IsText(s)
    ensures IsText(Encoded(s)) && Complete(Encoded(s))
    ensures Decoded(Encoded(s)) == s <==> Plain(s)
  {
    EncodedText(s);
    EncodedResolved(s);
    ResolvedPlain(s);
  }

  // What is encoded has only characters of 33 to 176 that are not listed.
  lemma {:induction false} EncodedSafe(s: seq<byte>)
    ensures forall c :: c in Encoded(s) ==> 33 <= c <= 176 && !Listed(c)
  {
    if s != [] {
      EncodedSafe(s[1..]);
      if Unsafe(s) {
        HexSafe(s[0] / 16);
        HexSafe(s[0] % 16);
      }
    }
  }

  lemma HexSafe(d: byte)
    requires d < 16
    ensures 33 <= HexChar(d) <= 176 && !Listed(HexChar(d)) && HexChar(d) != PERCENT
  {
  }

  // A safe character is left as it is.
  lemma SafeKept(c: byte, s: seq<byte>)
    requires 33 <= c <= 176 && !Listed(c) && c != PERCENT
    ensures Encoded([c] + s) == [c] + Encoded(s)
  {
    assert ([c] + s)[1..] == s;
  }

  // A plus comes back as a space.
  lemma PlusLost()
    ensures !Plain([PLUS]) && Decoded(Encoded([PLUS])) == [SPACE]
  {
    EncodedResolved([PLUS]);
    assert [PLUS][1..] == [];
  }

  lemma WrittenAgain(s: seq<byte>, rest: seq<byte>)
    requires s != [] && !Escape(s)
    ensures Encoded(Written(s) + rest) == Written(s) + Encoded(rest)
  {
    var t := Written(s) + rest;
    if Unsafe(s) {
      assert t[..3] == Written(s) && t[3..] == rest;
      EscapeEncoded(t);
    } else {
      assert s[0] != PERCENT && !Unsafe(t) && t[1..] == rest;
    }
  }

  // Encoding a text that is encoded already changes nothing.
  lemma {:induction false} EncodedFixed(s: seq<byte>)
    ensures Encoded(Encoded(s)) == Encoded(s)
    decreases |s|
  {
    if s == [] {
    } else if Escape(s) {
      EncodedFixed(s[3..]);
      EscapeEncoded(s);
      var t := s[..3] + Encoded(s[3..]);
      assert t[..3] == s[..3] && t[3..] == Encoded(s[3..]);
      EscapeEncoded(t);
    } else {
      EncodedFixed(s[1..]);
      WrittenAgain(s, Encoded(s[1..]));
    }
  }
}
