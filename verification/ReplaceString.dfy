// util.c: counting and replacing a substring; alert.c: line ends of a mail.
module ReplaceString {
  import opened Options

  predicate MatchesAt(s: string, p: nat, word: string) {
    p + |word| <= |s| && s[p..p + |word|] == word
  }

  // There the text is what stands before it, the word, and a rest.
  lemma MatchMeans(s: string, p: nat, word: string)
    ensures MatchesAt(s, p, word) <==> p + |word| <= |s| && s == s[..p] + word + s[p + |word|..]
  {
    if p + |word| <= |s| {
      assert s == s[..p] + s[p..p + |word|] + s[p + |word|..];
      if s == s[..p] + word + s[p + |word|..] {
        assert s[p..p + |word|] == (s[..p] + word + s[p + |word|..])[p..p + |word|];
      }
    }
  }

  // strstr from position p on: the first match, or |s| + 1 for none.
  function StrStr(s: string, p: nat, word: string): (r: nat)
    requires p <= |s|
    ensures p <= r
    ensures r <= |s| ==> MatchesAt(s, r, word)
    ensures forall q :: p <= q < r && q <= |s| ==> !MatchesAt(s, q, word)
    ensures r <= |s| || r == |s| + 1
    decreases |s| - p
  {
    if MatchesAt(s, p, word) then p
    else if p == |s| then |s| + 1
    else StrStr(s, p + 1, word)
  }

  // All matches from p on, overlapping ones included.
  function Matches(s: string, p: nat, word: string): nat
    requires p <= |s|
    decreases |s| - p
  {
    (if MatchesAt(s, p, word) then 1 else 0) + (if p == |s| then 0 else Matches(s, p + 1, word))
  }

  // `inside` is false when the search would go on behind the terminator, which happens
  // exactly for the empty word: it matches everywhere, the end included.
  method CountWords(s: string, word: string) returns (i: nat, inside: bool)
    ensures inside <==> word != ""
    ensures inside ==> i == Matches(s, 0, word)
  {
    i := 0;
    var p := StrStr(s, 0, word);
    SkipToMatch(s, 0, p, word);
    while p <= |s|
      invariant 0 <= p <= |s| + 1 && (p <= |s| ==> MatchesAt(s, p, word)) && (word == "" ==> p <= |s|)
      invariant Matches(s, 0, word) == i + (if p <= |s| then Matches(s, p, word) else 0)
      decreases |s| + 1 - p
    {
      i := i + 1;
      if p == |s| {
        return i, false;
      }
      ghost var from := p + 1;
      p := StrStr(s, p + 1, word);
      SkipToMatch(s, from, p, word);
    }
    inside := true;
  }

  lemma {:induction false} SkipToMatch(s: string, p: nat, r: nat, word: string)
    requires p <= |s| && p <= r <= |s| + 1
    requires forall q :: p <= q < r && q <= |s| ==> !MatchesAt(s, q, word)
    ensures Matches(s, p, word) == if r <= |s| then Matches(s, r, word) else 0
    decreases r - p
  {
    if p < r && p < |s| {
      SkipToMatch(s, p + 1, r, word);
    }
  }

  // Replacement from left to right, without looking at replaced text again.
  function Replaced(s: string, old_: string, new_: string): string
    requires old_ != ""
    decreases |s|
  {
    if s == "" then ""
    else if MatchesAt(s, 0, old_) then new_ + Replaced(s[|old_|..], old_, new_)
    else [s[0]] + Replaced(s[1..], old_, new_)
  }

  // How many replacements that makes.
  function Replacements(s: string, old_: string): nat
    requires old_ != ""
    decreases |s|
  {
    if s == "" then 0
    else if MatchesAt(s, 0, old_) then 1 + Replacements(s[|old_|..], old_)
    else Replacements(s[1..], old_)
  }

  lemma MatchesInTail(s: string, k: nat, p: nat, word: string)
    requires k <= |s| && p <= |s| - k
    ensures MatchesAt(s[k..], p, word) == MatchesAt(s, k + p, word)
  {
    if k + p + |word| <= |s| {
      assert s[k..][p..p + |word|] == s[k + p..k + p + |word|];
    }
  }

  lemma {:induction false} MatchesTail(s: string, k: nat, p: nat, word: string)
    requires k <= |s| && p <= |s| - k
    ensures Matches(s[k..], p, word) == Matches(s, k + p, word)
    decreases |s| - k - p
  {
    MatchesInTail(s, k, p, word);
    if p < |s| - k {
      MatchesTail(s, k, p + 1, word);
    }
  }

  lemma {:induction false} MatchesMonotone(s: string, p: nat, r: nat, word: string)
    requires p <= r <= |s|
    ensures Matches(s, r, word) <= Matches(s, p, word)
    decreases r - p
  {
    if p < r { MatchesMonotone(s, p + 1, r, word); }
  }

  // No more replacements are made than matches were counted.
  lemma {:induction false} CountSuffices(s: string, old_: string)
    requires old_ != ""
    ensures Replacements(s, old_) <= Matches(s, 0, old_)
    decreases |s|
  {
    if s != "" {
      if MatchesAt(s, 0, old_) {
        CountSuffices(s[|old_|..], old_);
        MatchesTail(s, |old_|, 0, old_);
        MatchesMonotone(s, 1, |old_|, old_);
      } else {
        CountSuffices(s[1..], old_);
        MatchesTail(s, 1, 0, old_);
      }
    }
  }

  lemma OneMore(n: nat, d: int)
    ensures (1 + n) * d == d + n * d
  {
  }

  lemma AtMost(n: nat, m: nat, d: int)
    requires n <= m
    ensures d > 0 ==> n * d <= d * m
    ensures d <= 0 ==> n * d <= 0
  {
  }

  lemma {:induction false} ReplacedLength(s: string, old_: string, new_: string)
    requires old_ != ""
    ensures |Replaced(s, old_, new_)| == |s| + Replacements(s, old_) * (|new_| - |old_|)
    decreases |s|
  {
    hide MatchesAt;
    if s != "" {
      if MatchesAt(s, 0, old_) {
        AtLeast(s, old_);
        ReplacedLength(s[|old_|..], old_, new_);
        OneMore(Replacements(s[|old_|..], old_), |new_| - |old_|);
      } else {
        ReplacedLength(s[1..], old_, new_);
      }
    }
  }

  lemma AtLeast(s: string, word: string)
    requires MatchesAt(s, 0, word)
    ensures |word| <= |s|
  {
  }

  // The room that replace_string allocates is enough for the result.
  lemma RoomSuffices(s: string, old_: string, new_: string)
    requires old_ != ""
    ensures var d := |new_| - |old_|;
      |Replaced(s, old_, new_)| <= |s| + (if d > 0 then d * Matches(s, 0, old_) else 0)
  {
    ReplacedLength(s, old_, new_);
    CountSuffices(s, old_);
    AtMost(Replacements(s, old_), Matches(s, 0, old_), |new_| - |old_|);
  }

  lemma NoMatchInTail(s: string, p: nat, word: string)
    requires s != "" && 1 <= p <= |s| + 1
    requires forall q :: 0 <= q < p && q <= |s| ==> !MatchesAt(s, q, word)
    ensures forall q :: 0 <= q < p - 1 && q <= |s| - 1 ==> !MatchesAt(s[1..], q, word)
  {
    forall q | 0 <= q < p - 1 && q <= |s| - 1 ensures !MatchesAt(s[1..], q, word) {
      MatchesInTail(s, 1, q, word);
      assert !MatchesAt(s, q + 1, word);
    }
  }

  lemma ReplacedLater(s: string, old_: string, new_: string)
    requires old_ != "" && s != "" && !MatchesAt(s, 0, old_)
    ensures Replaced(s, old_, new_) == [s[0]] + Replaced(s[1..], old_, new_)
  {
  }

  lemma Regrouped(a: string, b: string, c: string, d: string)
    ensures a + (b + c + d) == (a + b) + c + d
  {
  }

  lemma ReplacedHere(s: string, old_: string, new_: string)
    requires old_ != "" && MatchesAt(s, 0, old_)
    ensures Replaced(s, old_, new_) == s[..0] + new_ + Replaced(s[0 + |old_|..], old_, new_)
  {
    assert s[..0] + new_ == new_;
  }

  lemma OneInFront(s: string, p: nat, n: nat)
    requires 1 <= p && p + n <= |s|
    ensures s[1..][p - 1 + n..] == s[p + n..] && [s[0]] + s[1..][..p - 1] == s[..p]
  {
  }

  // Copying up to the first match and going on after it is what Replaced does.
  lemma {:induction false} ReplacedFirst(s: string, p: nat, old_: string, new_: string)
    requires old_ != "" && p <= |s| && MatchesAt(s, p, old_)
    requires forall q :: 0 <= q < p ==> !MatchesAt(s, q, old_)
    ensures Replaced(s, old_, new_) == s[..p] + new_ + Replaced(s[p + |old_|..], old_, new_)
    decreases |s|
  {
    hide Replaced;
    if p == 0 {
      ReplacedHere(s, old_, new_);
    } else {
      NoMatchInTail(s, p, old_);
      MatchesInTail(s, 1, p - 1, old_);
      assert !MatchesAt(s, 0, old_);
      ReplacedLater(s, old_, new_);
      ReplacedFirst(s[1..], p - 1, old_, new_);
      OneInFront(s, p, |old_|);
      hide MatchesAt;
      Regrouped([s[0]], s[1..][..p - 1], new_, Replaced(s[p + |old_|..], old_, new_));
    }
  }

  lemma {:induction false} ReplacedNone(s: string, old_: string, new_: string)
    requires old_ != "" && forall q :: 0 <= q <= |s| ==> !MatchesAt(s, q, old_)
    ensures Replaced(s, old_, new_) == s
    decreases |s|
  {
    if s != "" {
      NoMatchInTail(s, |s| + 1, old_);
      ReplacedNone(s[1..], old_, new_);
      assert !MatchesAt(s, 0, old_);
    }
  }

  // strcat into an allocated buffer, with its terminator: the room is a precondition.
  method StrCat(buf: array<char>, len: nat, s: string) returns (len': nat)
    requires len + |s| < buf.Length
    modifies buf
    ensures len' == len + |s| && buf[..len'] == old(buf[..len]) + s
  {
    for i := 0 to |s|
      invariant buf[..len] == old(buf[..len]) && buf[len..len + i] == s[..i]
    {
      buf[len + i] := s[i];
    }
    len' := len + |s|;
    buf[len'] := '\0';
    assert buf[len..len'] == s;
    assert buf[..len'] == buf[..len] + buf[len..len'];
  }

  // Counting, and with it the whole replacement, stays inside the text exactly when there
  // is something to look for.
  method Replace(src: string, old_: string, new_: string) returns (r: string, inside: bool)
    ensures inside <==> old_ != ""
    ensures inside ==> r == Replaced(src, old_, new_)
  {
    hide Replaced, Matches;
    var i;
    i, inside := CountWords(src, old_);
    if !inside {
      return src, false;
    }
    var d := |new_| - |old_|;
    RoomSuffices(src, old_, new_);
    if i == 0 {
      NothingToReplace(src, old_, new_);
      return src, true;
    }
    if d > 0 {
      d := d * i;
    } else {
      d := 0;
    }
    assert d >= 0;
    var buf := new char[|src| + d + 1];
    var len: nat, q := 0, src;
    var p := StrStr(q, 0, old_);
    while p <= |q|
      invariant fresh(buf) && buf.Length == |src| + d + 1 && len < buf.Length && p == StrStr(q, 0, old_)
      invariant buf[..len] + Replaced(q, old_, new_) == Replaced(src, old_, new_)
      decreases |q|
    {
      ReplacedFirst(q, p, old_, new_);
      Regrouped(buf[..len], q[..p], new_, Replaced(q[p + |old_|..], old_, new_));
      len := StrCat(buf, len, q[..p]);
      len := StrCat(buf, len, new_);
      q := q[p + |old_|..];
      p := StrStr(q, 0, old_);
    }
    ReplacedNone(q, old_, new_);
    len := StrCat(buf, len, q);
    r := buf[..len];
  }

  lemma NothingToReplace(src: string, old_: string, new_: string)
    requires old_ != "" && Matches(src, 0, old_) == 0
    ensures Replaced(src, old_, new_) == src
  {
    forall q | 0 <= q <= |src| ensures !MatchesAt(src, q, old_) {
      MatchesMonotone(src, 0, q, old_);
    }
    ReplacedNone(src, old_, new_);
  }

  // ---- Line ends ----

  const CRLF := "\r\n"
  const LF := "\n"

  function Normalized(s: string): string {
    Replaced(Replaced(s, CRLF, LF), LF, CRLF)
  }

  // A carriage return before every line feed that lacks one, and no other change.
  function WithReturns(s: string, afterCr: bool): string {
    if s == "" then ""
    else if s[0] == '\n' && !afterCr then CRLF + WithReturns(s[1..], false)
    else [s[0]] + WithReturns(s[1..], s[0] == '\r')
  }

  lemma {:induction false} NormalizedMeans(s: string)
    ensures Normalized(s) == WithReturns(s, false)
    decreases |s|
  {
    if s != "" {
      if MatchesAt(s, 0, CRLF) {
        FirstIsCrlf(s);
        NormalizedMeans(s[2..]);
        PrefixLf(Replaced(s[2..], CRLF, LF));
        assert s[1..][1..] == s[2..] && s[1..][0] == '\n';
        assert WithReturns(s[1..], true) == ['\n'] + WithReturns(s[2..], false);
        assert ['\r'] + (['\n'] + WithReturns(s[2..], false)) == CRLF + WithReturns(s[2..], false);
      } else {
        NormalizedMeans(s[1..]);
        var rest := Replaced(s[1..], CRLF, LF);
        if s[0] == '\n' {
          PrefixLf(rest);
          assert [s[0]] + rest == LF + rest;
        } else {
          PrefixOther(s[0], rest);
          if s[0] == '\r' { NotAfterCr(s); }
        }
      }
    }
  }

  lemma FirstIsLf(s: string)
    ensures MatchesAt(s, 0, LF) <==> s != "" && s[0] == '\n'
  {
    if s != "" { assert s[0..1] == [s[0]]; }
  }

  lemma FirstIsCrlf(s: string)
    ensures MatchesAt(s, 0, CRLF) <==> |s| >= 2 && s[0] == '\r' && s[1] == '\n'
  {
    if |s| >= 2 { assert s[0..2] == [s[0], s[1]]; }
  }

  lemma PrefixLf(rest: string)
    ensures Replaced(LF + rest, LF, CRLF) == CRLF + Replaced(rest, LF, CRLF)
  {
    assert (LF + rest)[0..1] == LF && (LF + rest)[1..] == rest;
  }

  lemma PrefixOther(c: char, rest: string)
    requires c != '\n'
    ensures Replaced([c] + rest, LF, CRLF) == [c] + Replaced(rest, LF, CRLF)
  {
    var s := [c] + rest;
    assert s[0] == c && s[1..] == rest;
    FirstIsLf(s);
  }

  lemma NotAfterCr(s: string)
    requires s != "" && s[0] == '\r' && !MatchesAt(s, 0, CRLF)
    ensures WithReturns(s[1..], true) == WithReturns(s[1..], false)
  {
    FirstIsCrlf(s);
  }

  // Every line feed stands behind a carriage return.
  predicate AllReturned(s: string, afterCr: bool) {
    forall i :: 0 <= i < |s| ==> ReturnedAt(s, i, afterCr)
  }

  predicate ReturnedAt(s: string, i: nat, afterCr: bool)
    requires i < |s|
  {
    s[i] == '\n' ==> if i == 0 then afterCr else s[i - 1] == '\r'
  }

  lemma {:induction false} WithReturnsRight(s: string, afterCr: bool)
    ensures AllReturned(WithReturns(s, afterCr), afterCr)
  {
    if s != "" {
      var r := WithReturns(s, afterCr);
      if s[0] == '\n' && !afterCr {
        WithReturnsRight(s[1..], false);
        assert r[0] == '\r' && r[1] == '\n' && r[2..] == WithReturns(s[1..], false);
        forall i | 0 <= i < |r| ensures ReturnedAt(r, i, afterCr) {
          if i >= 2 {
            assert r[i] == r[2..][i - 2] && (i > 2 ==> r[i - 1] == r[2..][i - 3]);
            assert ReturnedAt(r[2..], i - 2, false);
          }
        }
      } else {
        WithReturnsRight(s[1..], s[0] == '\r');
        assert r[0] == s[0] && r[1..] == WithReturns(s[1..], s[0] == '\r');
        forall i | 0 <= i < |r| ensures ReturnedAt(r, i, afterCr) {
          if i >= 1 {
            assert r[i] == r[1..][i - 1] && (i > 1 ==> r[i - 1] == r[1..][i - 2]);
            assert ReturnedAt(r[1..], i - 1, s[0] == '\r');
          }
        }
      }
    }
  }

  lemma {:induction false} WithReturnsFixed(s: string, afterCr: bool)
    requires AllReturned(s, afterCr)
    ensures WithReturns(s, afterCr) == s
  {
    if s != "" {
      var rest, cr := s[1..], s[0] == '\r';
      forall i | 0 <= i < |rest| ensures ReturnedAt(rest, i, cr) {
        assert ReturnedAt(s, i + 1, afterCr);
      }
      WithReturnsFixed(s[1..], s[0] == '\r');
      assert ReturnedAt(s, 0, afterCr);
      assert [s[0]] + s[1..] == s;
    }
  }

  // Normalisation puts a return before every line feed, and doing it again changes
  // nothing.
  lemma NormalizedRight(s: string)
    ensures AllReturned(Normalized(s), false)
    ensures Normalized(Normalized(s)) == Normalized(s)
  {
    NormalizedMeans(s);
    WithReturnsRight(s, false);
    NormalizedMeans(Normalized(s));
    WithReturnsFixed(Normalized(s), false);
  }

  class Mail {
    var message: string
    var optMessage: Option<string>

    constructor (message: string, optMessage: Option<string>)
      ensures this.message == message && this.optMessage == optMessage
    {
      this.message, this.optMessage := message, optMessage;
    }

    method ReplaceBareLinefeed()
      modifies this
      ensures message == Normalized(old(message))
      ensures optMessage == match old(optMessage) case None => None case Some(s) => Some(Normalized(s))
    {
      var m, inside := Replace(message, CRLF, LF);
      m, inside := Replace(m, LF, CRLF);
      message := m;
      if optMessage.Some? {
        var s;
        s, inside := Replace(optMessage.value, CRLF, LF);
        s, inside := Replace(s, LF, CRLF);
        optMessage := Some(s);
      }
    }
  }
}
