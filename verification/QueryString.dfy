// The query-string scanner of http/processor.c.
module QueryString {
  datatype Token = NoToken | Key | Value
  datatype Parameter = Parameter(name: string, value: string)
  datatype Result = Parsed(params: seq<Parameter>) | Failed

  // A position at or behind the end reads the terminating zero.
  function At(s: string, i: nat): char {
    if i < |s| then s[i] else '\0'
  }

  // A string of C: no zero inside.
  predicate IsText(s: string) {
    '\0' !in s
  }

  // ---- What one call of the scanner does, as a function ----

  // The first position from p on where an '=' stands or follows; |s| if there is none.
  function Stop(s: string, p: nat): (r: nat)
    requires p <= |s|
    ensures p <= r <= |s|
    decreases |s| - p
  {
    if p == |s| || At(s, p + 1) == '=' || s[p] == '=' then p else Stop(s, p + 1)
  }

  // The first '&' from p on, or the end.
  function NextAmp(s: string, p: nat): (r: nat)
    requires p <= |s|
    ensures p <= r <= |s| && (r < |s| ==> s[r] == '&') && '&' !in s[p..r]
    decreases |s| - p
  {
    if p == |s| || s[p] == '&' then p else NextAmp(s, p + 1)
  }

  // get_next_token: the token, its text, and the new cursor.
  function NextToken(s: string, i: nat): (r: (Token, string, nat))
    requires i <= |s|
    ensures i <= r.2 <= |s| && (r.0 != NoToken ==> i < r.2)
  {
    var p := Stop(s, i);
    if p == |s| then (NoToken, "", p)
    else if At(s, p + 1) == '=' then (Key, s[i..p + 1], p + 1)
    else
      var q := NextAmp(s, p);
      if q < |s| then (Value, s[i + 1..q], q + 1) else (Value, s[i + 1..q], q)
  }

  method GetNextToken(s: string, cursor: nat) returns (token: Token, r: string, cursor': nat)
    requires IsText(s) && cursor <= |s|
    ensures (token, r, cursor') == NextToken(s, cursor)
  {
    var i := cursor;
    cursor' := cursor;
    while At(s, cursor') != '\0'
      invariant i <= cursor' <= |s| && Stop(s, cursor') == Stop(s, i)
      decreases |s| - cursor'
    {
      if At(s, cursor' + 1) == '=' {
        cursor' := cursor' + 1;
        return Key, s[i..cursor'], cursor';
      }
      if At(s, cursor') == '=' {
        ghost var p := cursor';
        while At(s, cursor') != '\0' && At(s, cursor') != '&'
          invariant p <= cursor' <= |s| && NextAmp(s, cursor') == NextAmp(s, p)
          decreases |s| - cursor'
        {
          cursor' := cursor' + 1;
        }
        if At(s, cursor') == '&' {
          r := s[i + 1..cursor'];
          cursor' := cursor' + 1;
        } else {
          r := s[i + 1..cursor'];
        }
        return Value, r, cursor';
      }
      cursor' := cursor' + 1;
    }
    return NoToken, "", cursor';
  }

  // ---- parse_parameters, as a function ----

  // The parameters found from a position on, given the key that waits for a value.
  function ParseFrom(s: string, i: nat, key: string, hasKey: bool, head: seq<Parameter>): Result
    requires i <= |s|
    decreases |s| - i
  {
    var (token, text, next) := NextToken(s, i);
    match token
    case NoToken => Parsed(head)
    case Key => ParseFrom(s, next, text, true, head)
    case Value => if !hasKey then Failed else ParseFrom(s, next, "", false, [Parameter(key, text)] + head)
  }

  function Parse(s: string): Result {
    ParseFrom(s, 0, "", false, [])
  }

  method ParseParameters(s: string) returns (r: Result)
    requires IsText(s)
    ensures r == Parse(s)
  {
    var cursor, key, hasKey, head := 0, "", false, [];
    while true
      invariant cursor <= |s| && ParseFrom(s, cursor, key, hasKey, head) == Parse(s)
      decreases |s| - cursor
    {
      var token, value, next := GetNextToken(s, cursor);
      cursor := next;
      if token == NoToken {
        break;
      }
      if token == Key {
        key, hasKey := value, true;
      } else {
        if !hasKey {
          return Failed;
        }
        head := [Parameter(key, value)] + head;
        key, hasKey := "", false;
      }
    }
    return Parsed(head);
  }

  // ---- Printing and parsing ----

  function PrintOne(p: Parameter): string {
    p.name + "=" + p.value
  }

  function Print(ps: seq<Parameter>): string {
    if ps == [] then ""
    else if |ps| == 1 then PrintOne(ps[0])
    else PrintOne(ps[0]) + "&" + Print(ps[1..])
  }

  function Reversed(ps: seq<Parameter>): seq<Parameter> {
    if ps == [] then [] else Reversed(ps[1..]) + [ps[0]]
  }

  // The parameters a query string can carry: a name has a character and no '=' (or
  // is a single '='), a value has no '&' and does not begin with '='.
  predicate Carried(p: Parameter) {
    && p.name != "" && ('=' !in p.name || p.name == "=")
    && '&' !in p.value && (p.value == "" || p.value[0] != '=')
  }

  predicate AllCarried(ps: seq<Parameter>) {
    forall k :: 0 <= k < |ps| ==> Carried(ps[k])
  }

  lemma {:induction false} StopAtKey(s: string, i: nat, k: nat)
    requires i + k < |s| && k > 0 && s[i + k] == '=' && '=' !in s[i..i + k]
    ensures Stop(s, i) == i + k - 1
    decreases k
  {
    assert s[i..i + k][0] == s[i];
    if k > 1 {
      assert s[i..i + k][1] == s[i + 1];
      assert s[i..i + k][1..] == s[i + 1..i + k];
      StopAtKey(s, i + 1, k - 1);
    }
  }

  lemma {:induction false} AmpAfter(s: string, p: nat, k: nat)
    requires p + k <= |s| && '&' !in s[p..p + k] && (p + k == |s| || s[p + k] == '&')
    ensures NextAmp(s, p) == p + k
    decreases k
  {
    if k > 0 {
      assert s[p..p + k][0] == s[p];
      assert s[p..p + k][1..] == s[p + 1..p + k];
      AmpAfter(s, p + 1, k - 1);
    }
  }

  lemma KeyToken(s: string, i: nat, name: string)
    requires name != "" && ('=' !in name || name == "=")
    requires i + |name| < |s| && s[i..i + |name|] == name && s[i + |name|] == '='
    ensures NextToken(s, i) == (Key, name, i + |name|)
  {
    if name == "=" {
      assert s[i..i + 1][0] == s[i];
    } else {
      StopAtKey(s, i, |name|);
    }
  }

  lemma FirstAside(s: string, i: nat, e: nat)
    requires i < e <= |s|
    ensures s[i..e] == [s[i]] + s[i + 1..e]
  {
  }

  lemma ValueToken(s: string, i: nat, value: string)
    requires '&' !in value && (value == "" || value[0] != '=')
    requires var e := i + 1 + |value|; e <= |s| && s[i] == '=' && s[i + 1..e] == value && (e == |s| || s[e] == '&')
    ensures var e := i + 1 + |value|; NextToken(s, i) == (Value, value, if e < |s| then e + 1 else e)
  {
    var e := i + 1 + |value|;
    if value != "" { assert s[i + 1..e][0] == s[i + 1]; }
    assert At(s, i + 1) != '=' && Stop(s, i) == i;
    assert '&' !in s[i..e] by { FirstAside(s, i, e); }
    AmpAfter(s, i, e - i);
  }

  lemma PrintedParts(s: string, i: nat, p: Parameter)
    requires i + |PrintOne(p)| <= |s| && s[i..i + |PrintOne(p)|] == PrintOne(p)
    ensures var k, e := i + |p.name|, i + |PrintOne(p)|;
      e == k + 1 + |p.value| && s[i..k] == p.name && s[k] == '=' && s[k + 1..e] == p.value
  {
    var k, e := |p.name|, i + |PrintOne(p)|;
    var t := s[i..e];
    assert s[i..i + k] == t[..k] == p.name;
    assert s[i + k] == t[k] == '=';
    assert s[i + k + 1..e] == t[k + 1..] == p.value;
  }

  // One printed parameter at position i, followed by '&' or by the end, is scanned as
  // its key and its value.
  lemma OneParameter(s: string, i: nat, p: Parameter, head: seq<Parameter>)
    requires Carried(p)
    requires var e := i + |PrintOne(p)|; e <= |s| && s[i..e] == PrintOne(p) && (e == |s| || s[e] == '&')
    ensures var e := i + |PrintOne(p)|;
      ParseFrom(s, i, "", false, head) == ParseFrom(s, if e < |s| then e + 1 else e, "", false, [p] + head)
  {
    hide NextToken;
    var k, e := |p.name|, i + |PrintOne(p)|;
    PrintedParts(s, i, p);
    KeyToken(s, i, p.name);
    ValueToken(s, i + k, p.value);
    assert ParseFrom(s, i, "", false, head) == ParseFrom(s, i + k, p.name, true, head);
  }

  lemma PrintSplits(s: string, i: nat, ps: seq<Parameter>)
    requires ps != [] && i <= |s| && s[i..] == Print(ps)
    ensures var e := i + |PrintOne(ps[0])|;
      && e <= |s| && s[i..e] == PrintOne(ps[0])
      && (|ps| == 1 ==> e == |s|)
      && (|ps| > 1 ==> e < |s| && s[e] == '&' && s[e + 1..] == Print(ps[1..]))
  {
    var t, n := s[i..], |PrintOne(ps[0])|;
    assert s[i..i + n] == t[..n];
    if |ps| > 1 {
      assert t == PrintOne(ps[0]) + "&" + Print(ps[1..]);
      assert s[i + n] == t[n] && s[i + n + 1..] == t[n + 1..];
    }
  }

  // At the end of the string nothing more is scanned.
  lemma ParseEnd(s: string, head: seq<Parameter>)
    ensures ParseFrom(s, |s|, "", false, head) == Parsed(head)
  {
    assert Stop(s, |s|) == |s|;
  }

  lemma PrintNothing(ps: seq<Parameter>)
    requires |ps| == 0
    ensures Print(ps) == ""
  {
  }

  // The first of the printed parameters is scanned, and the others are left.
  lemma FirstParameter(s: string, i: nat, ps: seq<Parameter>, head: seq<Parameter>) returns (next: nat)
    requires ps != [] && AllCarried(ps) && i <= |s| && s[i..] == Print(ps)
    ensures next <= |s| && s[next..] == Print(ps[1..]) && AllCarried(ps[1..])
    ensures ParseFrom(s, i, "", false, head) == ParseFrom(s, next, "", false, [ps[0]] + head)
  {
    hide ParseFrom, PrintOne, Carried, NextToken, Print;
    var e := i + |PrintOne(ps[0])|;
    PrintSplits(s, i, ps);
    OneParameter(s, i, ps[0], head);
    next := if e < |s| then e + 1 else e;
    if |ps| == 1 {
      assert s[next..] == "";
      PrintNothing(ps[1..]);
    }
  }

  lemma {:induction false} RoundTripFrom(s: string, i: nat, ps: seq<Parameter>, head: seq<Parameter>)
    requires AllCarried(ps) && i <= |s| && s[i..] == Print(ps)
    ensures ParseFrom(s, i, "", false, head) == Parsed(Reversed(ps) + head)
    decreases |ps|
  {
    hide ParseFrom, AllCarried, NextToken;
    if ps == [] {
      assert i == |s|;
      ParseEnd(s, head);
      assert Reversed(ps) + head == head;
    } else {
      var next := FirstParameter(s, i, ps, head);
      RoundTripFrom(s, next, ps[1..], [ps[0]] + head);
      assert Reversed(ps[1..]) + ([ps[0]] + head) == Reversed(ps) + head;
    }
  }

  // ---- What parsing can yield ----

  // Where the scanner stopped there was no '=' before.
  lemma {:induction false} StopMeans(s: string, i: nat)
    requires i <= |s|
    ensures var p := Stop(s, i);
      && '=' !in s[i..p]
      && (p < |s| && i < p ==> s[p] != '=')
      && (p < |s| ==> At(s, p + 1) == '=' || s[p] == '=')
    decreases |s| - i
  {
    if i < |s| && At(s, i + 1) != '=' && s[i] != '=' {
      StopMeans(s, i + 1);
      var p := Stop(s, i + 1);
      assert s[i..p] == [s[i]] + s[i + 1..p];
    }
  }

  // What one call of the scanner takes off any text: a key stands in front of an '=', which
  // is left; a value stands behind one, up to the next '&' or the end; and when there is
  // no token, there is no '=' any more.
  lemma TokenMeans(s: string, i: nat)
    requires i <= |s|
    ensures var (token, text, next) := NextToken(s, i);
      && (token == Key ==> next < |s| && s[next] == '=' && s[i..next] == text)
      && (token == Value ==> s[i..next] == "=" + text + (if s[next - 1] == '&' then "&" else "")
                             && (s[next - 1] != '&' ==> next == |s|))
      && (token == NoToken ==> '=' !in s[i..])
  {
    StopMeans(s, i);
    var p := Stop(s, i);
    if p < |s| && At(s, p + 1) != '=' {
      var q := NextAmp(s, p);
      assert q > p;
      assert s[i..q] == [s[i]] + s[i + 1..q];
      if q < |s| {
        assert s[i..q + 1] == s[i..q] + [s[q]];
      } else {
        assert s[p..q][q - 1 - p] == s[q - 1];
      }
    }
  }

  lemma TokenCarried(s: string, i: nat)
    requires i <= |s|
    ensures var (token, text, next) := NextToken(s, i);
      && (token == Key ==> text != "" && ('=' !in text || text == "="))
      && (token == Value ==> '&' !in text && (text == "" || text[0] != '='))
  {
    StopMeans(s, i);
    var p := Stop(s, i);
    if p < |s| {
      if At(s, p + 1) == '=' {
        assert s[i..p + 1] == s[i..p] + [s[p]];
      } else {
        assert p == i;
        var q := NextAmp(s, p);
        assert forall c :: c in s[i + 1..q] ==> c in s[p..q];
      }
    }
  }

  lemma {:induction false} ParsedCarried(s: string, i: nat, key: string, hasKey: bool, head: seq<Parameter>)
    requires i <= |s| && AllCarried(head)
    requires hasKey ==> key != "" && ('=' !in key || key == "=")
    ensures var r := ParseFrom(s, i, key, hasKey, head); r.Parsed? ==> AllCarried(r.params)
    decreases |s| - i
  {
    TokenCarried(s, i);
    var (token, text, next) := NextToken(s, i);
    if token == Key {
      ParsedCarried(s, next, text, true, head);
    } else if token == Value && hasKey {
      ParsedCarried(s, next, "", false, [Parameter(key, text)] + head);
    }
  }

  lemma {:induction false} ReversedCarried(ps: seq<Parameter>)
    ensures AllCarried(Reversed(ps)) ==> AllCarried(ps)
  {
    if ps != [] && AllCarried(Reversed(ps)) {
      var r := Reversed(ps[1..]);
      assert forall k :: 0 <= k < |r| ==> (r + [ps[0]])[k] == r[k];
      assert (r + [ps[0]])[|r|] == ps[0];
      ReversedCarried(ps[1..]);
      forall k | 0 <= k < |ps| ensures Carried(ps[k]) {
        if k > 0 { assert ps[k] == ps[1..][k - 1]; }
      }
    }
  }

  // Names and values are strings of C.
  predicate AllText(ps: seq<Parameter>) {
    forall k :: 0 <= k < |ps| ==> IsText(ps[k].name) && IsText(ps[k].value)
  }

  lemma {:induction false} PrintedText(ps: seq<Parameter>)
    requires AllText(ps)
    ensures IsText(Print(ps))
  {
    if |ps| > 1 { PrintedText(ps[1..]); }
  }

  // A parameter without a name is not found again: the text begins with its value.
  lemma NamelessFails(value: string)
    requires IsText(value) && '&' !in value && (value == "" || value[0] != '=')
    ensures Print([Parameter("", value)]) == "=" + value && Parse("=" + value) == Failed
  {
    var s := "=" + value;
    assert s[0 + 1..0 + 1 + |value|] == value;
    ValueToken(s, 0, value);
  }

  // Parsing the printed parameters gives them back, the last one first, exactly when
  // every parameter is one a query string can carry.
  lemma RoundTrip(ps: seq<Parameter>)
    requires AllText(ps)
    ensures IsText(Print(ps))
    ensures Parse(Print(ps)) == Parsed(Reversed(ps)) <==> AllCarried(ps)
  {
    PrintedText(ps);
    var s := Print(ps);
    if AllCarried(ps) {
      assert s[0..] == s;
      RoundTripFrom(s, 0, ps, []);
      assert Reversed(ps) + [] == Reversed(ps);
    }
    ParsedCarried(s, 0, "", false, []);
    ReversedCarried(ps);
  }
}
