// The syntax highlighter of Highlightor.cs: overlapping matches are removed, the code
// is cut at the others.
module Highlighter {
  import opened Options

  datatype Match = Match(index: nat, length: nat, kind: string)

  function CompareTo(x: Match, y: Match): int {
    if x.index < y.index then -1
    else if x.index > y.index then 1
    else if x.length < y.length then -1
    else if x.length > y.length then 1
    else 0
  }

  // y starts inside x.
  predicate Contains(x: Match, y: Match) {
    x.index <= y.index && x.index + x.length > y.index
  }

  predicate Sorted(ms: seq<Match>) {
    forall i: nat, j: nat :: i < j < |ms| ==> CompareTo(ms[i], ms[j]) <= 0
  }

  // ---- Which matches stay ----

  // A match stays if it does not start inside an earlier one that stays.
  ghost predicate Kept(ms: seq<Match>, i: nat)
    requires i < |ms|
    decreases i
  {
    forall j :: 0 <= j < i && Kept(ms, j) ==> !Contains(ms[j], ms[i])
  }

  // The matches that stay among those from position a on.
  ghost function KeptFrom(ms: seq<Match>, a: nat): seq<Match>
    requires a <= |ms|
    decreases |ms| - a
  {
    if a == |ms| then [] else (if Kept(ms, a) then [ms[a]] else []) + KeptFrom(ms, a + 1)
  }

  // Each match ends before the next ones start.
  predicate Separate(ms: seq<Match>) {
    forall i: nat, j: nat :: i < j < |ms| ==> ms[i].index + ms[i].length <= ms[j].index
  }

  lemma {:induction false} KeptFromMember(ms: seq<Match>, a: nat, x: Match)
    requires a <= |ms| && x in KeptFrom(ms, a)
    ensures exists i :: a <= i < |ms| && Kept(ms, i) && ms[i] == x
    decreases |ms| - a
  {
    if !(Kept(ms, a) && ms[a] == x) {
      KeptFromMember(ms, a + 1, x);
    }
  }

  lemma {:induction false} KeptFromHas(ms: seq<Match>, a: nat, i: nat)
    requires a <= i < |ms| && Kept(ms, i)
    ensures ms[i] in KeptFrom(ms, a)
    decreases |ms| - a
  {
    if a < i {
      KeptFromHas(ms, a + 1, i);
    }
  }

  // What stays is separate.
  lemma {:induction false} KeptSeparate(ms: seq<Match>, a: nat)
    requires Sorted(ms) && a <= |ms|
    ensures Separate(KeptFrom(ms, a))
    decreases |ms| - a
  {
    if a < |ms| {
      KeptSeparate(ms, a + 1);
      var rest := KeptFrom(ms, a + 1);
      if Kept(ms, a) {
        forall j | 0 <= j < |rest| ensures ms[a].index + ms[a].length <= rest[j].index {
          KeptFromMember(ms, a + 1, rest[j]);
          var i :| a + 1 <= i < |ms| && Kept(ms, i) && ms[i] == rest[j];
          KeptApart(ms, a, i);
        }
      }
      hide Sorted, Kept;
    }
  }

  lemma KeptApart(ms: seq<Match>, i: nat, j: nat)
    requires Sorted(ms) && i < j < |ms| && Kept(ms, i) && Kept(ms, j)
    ensures ms[i].index + ms[i].length <= ms[j].index
  {
    assert !Contains(ms[i], ms[j]);
  }

  // Sorted by place, and at one place the shorter first.
  lemma SortedMeans(ms: seq<Match>)
    ensures Sorted(ms) <==> forall i: nat, j: nat :: i < j < |ms| ==>
      ms[i].index < ms[j].index || (ms[i].index == ms[j].index && ms[i].length <= ms[j].length)
  {
  }

  // A match goes exactly when the position it starts at is taken by an earlier match that
  // stays.
  lemma KeptMeans(ms: seq<Match>, j: nat)
    requires j < |ms|
    ensures Kept(ms, j) <==> forall i :: 0 <= i < j && Kept(ms, i) ==>
      !(ms[i].index <= ms[j].index <= ms[i].index + ms[i].length - 1)
  {
  }

  // A list whose matches do not overlap is left unchanged.
  lemma SeparateKept(ms: seq<Match>)
    requires Separate(ms)
    ensures KeptFrom(ms, 0) == ms
  {
    forall j | 0 <= j < |ms| ensures Kept(ms, j) {
      forall i | 0 <= i < j && Kept(ms, i) ensures !Contains(ms[i], ms[j]) {
      }
    }
    KeptRun(ms, 0, |ms|);
    assert ms[0..|ms|] == ms && KeptFrom(ms, |ms|) == [];
  }

  // A position of the text that a match takes.
  predicate Takes(m: Match, p: nat) {
    m.index <= p < m.index + m.length
  }

  // Every match that goes, if it takes any position, takes one that a remaining match has.
  lemma GoneOverlaps(ms: seq<Match>, j: nat) returns (r: Match, p: nat)
    requires Sorted(ms) && j < |ms| && !Kept(ms, j) && ms[j].length > 0
    ensures r in KeptFrom(ms, 0) && Takes(r, p) && Takes(ms[j], p)
  {
    var i :| 0 <= i < j && Kept(ms, i) && Contains(ms[i], ms[j]);
    KeptFromHas(ms, 0, i);
    r, p := ms[i], ms[j].index;
  }

  // No position is taken by two remaining matches.
  lemma TakenOnce(ms: seq<Match>, i: nat, j: nat, p: nat)
    requires Sorted(ms) && i < j < |KeptFrom(ms, 0)|
    ensures !(Takes(KeptFrom(ms, 0)[i], p) && Takes(KeptFrom(ms, 0)[j], p))
  {
    KeptSeparate(ms, 0);
  }

  // What goes starts inside exactly one of the matches that stay.
  lemma GoneInsideOne(ms: seq<Match>, j: nat)
    requires Sorted(ms) && j < |ms| && !Kept(ms, j)
    ensures exists i :: 0 <= i < j && Kept(ms, i) && Contains(ms[i], ms[j])
    ensures forall i: nat, k: nat :: i < k < |ms| && Kept(ms, i) && Kept(ms, k) ==> !(Contains(ms[i], ms[j]) && Contains(ms[k], ms[j]))
  {
    forall i: nat, k: nat | i < k < |ms| && Kept(ms, i) && Kept(ms, k)
      ensures !(Contains(ms[i], ms[j]) && Contains(ms[k], ms[j]))
    {
      assert !Contains(ms[i], ms[k]);
    }
  }

  predicate LiesInside(x: Match, y: Match) {
    x.index <= y.index && y.index + y.length <= x.index + x.length
  }

  // Every dropped match lies inside the one that stays and that it starts in.
  ghost predicate OnlyInnerGone(ms: seq<Match>) {
    forall i: nat, j: nat :: i < |ms| && j < |ms| && Kept(ms, i) && !Kept(ms, j) && Contains(ms[i], ms[j]) ==>
      LiesInside(ms[i], ms[j])
  }

  // y starts inside x and ends behind it.
  predicate SticksOut(x: Match, y: Match) {
    Contains(x, y) && y.index + y.length > x.index + x.length
  }

  // Match i starts inside no earlier one.
  predicate Free(ms: seq<Match>, i: nat)
    requires i < |ms|
  {
    forall k :: 0 <= k < i ==> !Contains(ms[k], ms[i])
  }

  // No match starts inside an earlier one that is free and ends behind it.
  predicate FreeHold(ms: seq<Match>) {
    forall i: nat, j: nat :: i < j < |ms| && Free(ms, i) ==> !SticksOut(ms[i], ms[j])
  }

  // In such a list the matches that stay are the free ones: what an earlier one swallows,
  // a free one swallows too.
  lemma {:induction false} KeptIsFree(ms: seq<Match>, i: nat)
    requires Sorted(ms) && FreeHold(ms) && i < |ms|
    ensures Kept(ms, i) <==> Free(ms, i)
    decreases i
  {
    if Kept(ms, i) {
      forall k | 0 <= k < i ensures !Contains(ms[k], ms[i]) {
        if Contains(ms[k], ms[i]) && !Kept(ms, k) {
          var m :| 0 <= m < k && Kept(ms, m) && Contains(ms[m], ms[k]);
          KeptIsFree(ms, m);
        }
      }
    }
  }

  // Only matches inside remaining ones are dropped if and only if no match starts inside a
  // free one in front of it and ends behind it.
  lemma OnlyInnerExactly(ms: seq<Match>)
    requires Sorted(ms)
    ensures OnlyInnerGone(ms) <==> FreeHold(ms)
  {
    if OnlyInnerGone(ms) {
      forall i: nat, j: nat | i < j < |ms| && Free(ms, i) ensures !SticksOut(ms[i], ms[j]) {
        assert Kept(ms, i) && (Contains(ms[i], ms[j]) ==> !Kept(ms, j));
      }
    }
    if FreeHold(ms) {
      forall i: nat, j: nat | i < |ms| && j < |ms| && Kept(ms, i) && !Kept(ms, j) && Contains(ms[i], ms[j])
        ensures LiesInside(ms[i], ms[j])
      {
        KeptIsFree(ms, i);
        assert i != j && (i < j ==> !SticksOut(ms[i], ms[j]));
      }
    }
  }

  // It holds in particular when no match at all starts inside an earlier one and ends behind it.
  lemma NoneSticksOut(ms: seq<Match>)
    requires Sorted(ms) && forall i: nat, j: nat :: i < j < |ms| ==> !SticksOut(ms[i], ms[j])
    ensures OnlyInnerGone(ms)
  {
    OnlyInnerExactly(ms);
  }

  // Of two matches at the same place the shorter one sorts first and wins, and the longer
  // one is dropped although it does not lie inside.
  lemma ShorterStays(x: Match, y: Match)
    requires x.index == y.index && 0 < x.length < y.length
    ensures Sorted([x, y]) && KeptFrom([x, y], 0) == [x] && !OnlyInnerGone([x, y])
  {
    var ms := [x, y];
    assert Kept(ms, 0) && Contains(ms[0], ms[1]) && !Kept(ms, 1);
    assert KeptFrom(ms, 2) == [];
    assert KeptFrom(ms, 1) == [];
  }

  lemma Prepended(ms: seq<Match>, a: nat, b: nat, rest: seq<Match>)
    requires a < b <= |ms|
    ensures [ms[a]] + (ms[a + 1..b] + rest) == ms[a..b] + rest
  {
  }

  lemma {:induction false} KeptRun(ms: seq<Match>, a: nat, b: nat)
    requires a <= b <= |ms| && forall i :: a <= i < b ==> Kept(ms, i)
    ensures KeptFrom(ms, a) == ms[a..b] + KeptFrom(ms, b)
    decreases b - a
  {
    if a < b {
      assert Kept(ms, a) && KeptFrom(ms, a) == [ms[a]] + KeptFrom(ms, a + 1);
      hide Kept, KeptFrom;
      KeptRun(ms, a + 1, b);
      Prepended(ms, a, b, KeptFrom(ms, b));
    } else {
      assert ms[a..b] == [];
    }
  }

  // ---- CleanMatches ----

  // The positions starting inside one of the matches before n that stay.
  ghost predicate Doomed(ms: seq<Match>, n: nat, j: nat)
    requires n <= |ms| && j < |ms|
  {
    exists i :: 0 <= i < n && i < j && Kept(ms, i) && Contains(ms[i], ms[j])
  }

  predicate Ascending(xs: seq<nat>) {
    forall i: nat, j: nat :: i < j < |xs| ==> xs[i] < xs[j]
  }

  // Nothing behind a match that stays was doomed by an earlier one.
  lemma DoomedBefore(ms: seq<Match>, i: nat, d: nat)
    requires Sorted(ms) && i < |ms| && d < |ms| && Kept(ms, i) && Doomed(ms, i, d)
    ensures d < i
  {
    var k :| 0 <= k < i && k < d && Kept(ms, k) && Contains(ms[k], ms[d]);
    assert !Contains(ms[k], ms[i]);
  }

  // The round of the outer loop for a match that stays: what starts inside it is listed.
  method ListInside(ms: seq<Match>, n: nat, deleteItem: seq<nat>) returns (r: seq<nat>)
    requires Sorted(ms) && n < |ms| && Kept(ms, n)
    requires Ascending(deleteItem)
    requires forall d: nat :: d in deleteItem <==> d < |ms| && Doomed(ms, n, d)
    ensures Ascending(r)
    ensures forall d: nat :: d in r <==> d < |ms| && Doomed(ms, n + 1, d)
  {
    forall d | d in deleteItem ensures d < n {
      DoomedBefore(ms, n, d);
    }
    hide Kept, Contains, Sorted;
    r := deleteItem;
    assert forall k :: 0 <= k < |r| ==> r[k] in deleteItem;
    for j := n + 1 to |ms|
      invariant Ascending(r)
      invariant forall k :: 0 <= k < |r| ==> r[k] < j
      invariant forall d: nat :: d in r <==> d in deleteItem || (n < d < j && Contains(ms[n], ms[d]))
    {
      if Contains(ms[n], ms[j]) {
        r := r + [j];
      }
    }
  }

  // The listed positions, in ascending order.
  method ListDoomed(ms: seq<Match>) returns (deleteItem: seq<nat>)
    requires Sorted(ms)
    ensures Ascending(deleteItem)
    ensures forall d: nat :: d in deleteItem <==> d < |ms| && !Kept(ms, d)
  {
    deleteItem := [];
    for i := 0 to |ms|
      invariant Ascending(deleteItem)
      invariant forall d: nat :: d in deleteItem <==> d < |ms| && Doomed(ms, i, d)
    {
      assert Kept(ms, i) <==> !Doomed(ms, i, i);
      if i !in deleteItem {
        deleteItem := ListInside(ms, i, deleteItem);
      }
    }
    assert forall d: nat :: d < |ms| ==> (Kept(ms, d) <==> !Doomed(ms, |ms|, d));
  }

  // ---- The coloured text ----

  datatype Piece = Plain(text: string) | Tagged(kind: string, text: string) | NewLine

  function Rendered(ps: seq<Piece>): string {
    if ps == [] then ""
    else (match ps[0] case Plain(t) => t case Tagged(_, t) => t case NewLine => "\n") + Rendered(ps[1..])
  }

  lemma {:induction false} RenderedConcat(ps: seq<Piece>, qs: seq<Piece>)
    ensures Rendered(ps + qs) == Rendered(ps) + Rendered(qs)
  {
    if ps == [] {
      assert ps + qs == qs;
    } else {
      assert (ps + qs)[1..] == ps[1..] + qs;
      RenderedConcat(ps[1..], qs);
    }
  }

  // The first line break at or behind p, or the end.
  function NextBreak(s: string, p: nat): (r: nat)
    requires p <= |s|
    ensures p <= r <= |s| && '\n' !in s[p..r] && (r < |s| ==> s[r] == '\n')
    decreases |s| - p
  {
    if p == |s| || s[p] == '\n' then p else NextBreak(s, p + 1)
  }

  // A match of several lines, from position p on, line by line.
  function LinePieces(kind: string, v: string, p: nat): seq<Piece>
    requires p <= |v|
    decreases |v| - p
  {
    var q := NextBreak(v, p);
    [Tagged(kind, v[p..q]), NewLine] + if q < |v| then LinePieces(kind, v, q + 1) else []
  }

  function MatchPieces(kind: string, v: string): seq<Piece> {
    if '\n' in v then LinePieces(kind, v, 0) else [Tagged(kind, v)]
  }

  predicate Within(ms: seq<Match>, code: string, pos: nat) {
    forall i :: 0 <= i < |ms| ==> pos <= ms[i].index && ms[i].index + ms[i].length <= |code|
  }

  function TextOf(m: Match, code: string): string
    requires m.index + m.length <= |code|
  {
    code[m.index..m.index + m.length]
  }

  // The code from a position on, cut at the matches.
  function Cut(code: string, ms: seq<Match>, pos: nat): seq<Piece>
    requires Within(ms, code, pos) && Separate(ms) && pos <= |code|
    decreases |ms|
  {
    if ms == [] then [Plain(code[pos..])]
    else
      [Plain(code[pos..ms[0].index])] + MatchPieces(ms[0].kind, TextOf(ms[0], code))
      + Cut(code, ms[1..], ms[0].index + ms[0].length)
  }

  lemma CutStep(ps: seq<Piece>, code: string, ms: seq<Match>, pos: nat)
    requires ms != [] && Within(ms, code, pos) && Separate(ms) && pos <= |code|
    ensures var m := ms[0];
      ps + Cut(code, ms, pos)
      == ps + [Plain(code[pos..m.index])] + MatchPieces(m.kind, TextOf(m, code)) + Cut(code, ms[1..], m.index + m.length)
  {
  }

  lemma CutEnd(code: string, pos: nat)
    requires pos <= |code|
    ensures Cut(code, [], pos) == [Plain(code[pos..])]
  {
  }

  // The text of the matches that has more than one line.
  function Broken(code: string, ms: seq<Match>): nat
    requires forall i :: 0 <= i < |ms| ==> ms[i].index + ms[i].length <= |code|
  {
    if ms == [] then 0 else (if '\n' in TextOf(ms[0], code) then 1 else 0) + Broken(code, ms[1..])
  }

  lemma RenderedOne(x: Piece)
    ensures Rendered([x]) == match x case Plain(t) => t case Tagged(_, t) => t case NewLine => "\n"
  {
    assert [x][1..] == [] && Rendered([]) == "";
  }

  lemma RenderedLine(kind: string, t: string)
    ensures Rendered([Tagged(kind, t), NewLine]) == t + "\n"
  {
    assert [Tagged(kind, t), NewLine] == [Tagged(kind, t)] + [NewLine];
    RenderedConcat([Tagged(kind, t)], [NewLine]);
    RenderedOne(Tagged(kind, t));
    RenderedOne(NewLine);
  }

  // Every line of a match is followed by a line break, the last one too.
  lemma {:induction false} LinesRendered(kind: string, v: string, p: nat)
    requires p <= |v|
    ensures Rendered(LinePieces(kind, v, p)) == v[p..] + "\n"
    decreases |v| - p
  {
    hide Rendered, LinePieces, NextBreak;
    LineStep(kind, v, p);
    var q := NextBreak(v, p);
    RenderedLine(kind, v[p..q]);
    if q < |v| {
      LinesRendered(kind, v, q + 1);
      LinesJoin(kind, v[p..q], LinePieces(kind, v, q + 1), v[q + 1..]);
      LineSplit(v, p, q);
    } else {
      assert v[p..] == v[p..q];
    }
  }

  lemma LinesJoin(kind: string, t: string, rest: seq<Piece>, u: string)
    requires Rendered(rest) == u + "\n"
    ensures Rendered([Tagged(kind, t), NewLine] + rest) == (t + "\n") + (u + "\n")
  {
    hide Rendered;
    RenderedLine(kind, t);
    RenderedConcat([Tagged(kind, t), NewLine], rest);
  }

  lemma LineStep(kind: string, v: string, p: nat)
    requires p <= |v|
    ensures var q, line := NextBreak(v, p), [Tagged(kind, v[p..NextBreak(v, p)]), NewLine];
      LinePieces(kind, v, p) == if q < |v| then line + LinePieces(kind, v, q + 1) else line
  {
  }

  lemma LineSplit(v: string, p: nat, q: nat)
    requires p <= q < |v| && v[q] == '\n'
    ensures v[p..] + "\n" == (v[p..q] + "\n") + (v[q + 1..] + "\n")
  {
  }

  lemma MatchRendered(kind: string, v: string)
    ensures Rendered(MatchPieces(kind, v)) == v + if '\n' in v then "\n" else ""
  {
    if '\n' in v {
      LinesRendered(kind, v, 0);
    } else {
      RenderedOne(Tagged(kind, v));
    }
  }

  // The coloured text is the code, plus one line break for every match of several lines.
  lemma {:induction false} CutRendered(code: string, ms: seq<Match>, pos: nat)
    requires Within(ms, code, pos) && Separate(ms) && pos <= |code|
    ensures |Rendered(Cut(code, ms, pos))| == |code| - pos + Broken(code, ms)
    ensures Broken(code, ms) == 0 ==> Rendered(Cut(code, ms, pos)) == code[pos..]
    decreases |ms|
  {
    hide Rendered, MatchPieces;
    if ms == [] {
      RenderedOne(Plain(code[pos..]));
    } else {
      var m, e := ms[0], ms[0].index + ms[0].length;
      CutRendered(code, ms[1..], e);
      MatchRendered(m.kind, TextOf(m, code));
      hide Cut, Broken, Within, Separate;
      ThreeRendered(Plain(code[pos..m.index]), MatchPieces(m.kind, TextOf(m, code)), Cut(code, ms[1..], e));
      assert code[pos..] == code[pos..m.index] + TextOf(m, code) + code[e..];
    }
  }

  lemma ThreeRendered(x: Piece, ys: seq<Piece>, zs: seq<Piece>)
    requires x.Plain?
    ensures Rendered([x] + ys + zs) == x.text + Rendered(ys) + Rendered(zs)
  {
    RenderedConcat([x] + ys, zs);
    RenderedConcat([x], ys);
    RenderedOne(x);
  }

  // No text is lost or added exactly when no match has several lines.
  lemma TextKept(code: string, ms: seq<Match>)
    requires Within(ms, code, 0) && Separate(ms)
    ensures Rendered(Cut(code, ms, 0)) == code
       <==> forall i :: 0 <= i < |ms| ==> '\n' !in TextOf(ms[i], code)
  {
    CutRendered(code, ms, 0);
    assert code[0..] == code;
    BrokenNone(code, ms);
  }

  // A match that is a line break gets another one behind it.
  lemma BreakAdded(kind: string)
    ensures Rendered(Cut("\n", [Match(0, 1, kind)], 0)) != "\n"
  {
    var ms := [Match(0, 1, kind)];
    assert TextOf(ms[0], "\n")[0] == '\n';
    TextKept("\n", ms);
  }

  // No match that stays has several lines.
  ghost predicate KeptOneLined(ms: seq<Match>, code: string)
    requires Within(ms, code, 0)
  {
    forall i: nat :: i < |ms| && Kept(ms, i) ==> '\n' !in TextOf(ms[i], code)
  }

  lemma KeptLines(ms: seq<Match>, code: string)
    requires Within(ms, code, 0) && Within(KeptFrom(ms, 0), code, 0)
    ensures var r := KeptFrom(ms, 0);
      KeptOneLined(ms, code) <==> forall i :: 0 <= i < |r| ==> '\n' !in TextOf(r[i], code)
  {
    var r := KeptFrom(ms, 0);
    forall k | 0 <= k < |r| ensures exists i: nat :: i < |ms| && Kept(ms, i) && ms[i] == r[k] {
      KeptFromMember(ms, 0, r[k]);
    }
    forall i: nat | i < |ms| && Kept(ms, i) ensures exists k :: 0 <= k < |r| && r[k] == ms[i] {
      KeptFromHas(ms, 0, i);
    }
  }

  lemma {:induction false} BrokenNone(code: string, ms: seq<Match>)
    requires forall i :: 0 <= i < |ms| ==> ms[i].index + ms[i].length <= |code|
    ensures Broken(code, ms) == 0 <==> forall i :: 0 <= i < |ms| ==> '\n' !in TextOf(ms[i], code)
  {
    if ms != [] {
      BrokenNone(code, ms[1..]);
      if Broken(code, ms) == 0 {
        forall i | 0 <= i < |ms| ensures '\n' !in TextOf(ms[i], code) {
          if i > 0 { assert ms[i] == ms[1..][i - 1]; }
        }
      } else if '\n' !in TextOf(ms[0], code) {
        var i :| 0 <= i < |ms[1..]| && '\n' in TextOf(ms[1..][i], code);
        assert ms[i + 1] == ms[1..][i];
      }
    }
  }

  // No coloured piece has a line break.
  lemma {:induction false} LinesUnbroken(kind: string, v: string, p: nat)
    requires p <= |v|
    ensures forall x :: x in LinePieces(kind, v, p) && x.Tagged? ==> '\n' !in x.text && x.kind == kind
    decreases |v| - p
  {
    if NextBreak(v, p) < |v| {
      LinesUnbroken(kind, v, NextBreak(v, p) + 1);
    }
  }

  lemma {:induction false} CutUnbroken(code: string, ms: seq<Match>, pos: nat)
    requires Within(ms, code, pos) && Separate(ms) && pos <= |code|
    ensures forall x :: x in Cut(code, ms, pos) && x.Tagged? ==> '\n' !in x.text
    decreases |ms|
  {
    if ms != [] {
      LinesUnbroken(ms[0].kind, TextOf(ms[0], code), 0);
      CutUnbroken(code, ms[1..], ms[0].index + ms[0].length);
    }
  }

  // ---- The colour of every letter ----

  datatype Letter = Letter(letter: char, colour: Option<string>)

  function Same(t: string, colour: Option<string>): seq<Letter> {
    seq(|t|, i requires 0 <= i < |t| => Letter(t[i], colour))
  }

  function Painted(ps: seq<Piece>): seq<Letter> {
    if ps == [] then []
    else PaintedOne(ps[0]) + Painted(ps[1..])
  }

  function PaintedOne(x: Piece): seq<Letter> {
    match x
    case Plain(t) => Same(t, None)
    case Tagged(kind, t) => Same(t, Some(kind))
    case NewLine => Same("\n", None)
  }

  lemma {:induction false} PaintedIsRendered(ps: seq<Piece>)
    ensures |Painted(ps)| == |Rendered(ps)|
    ensures forall i :: 0 <= i < |Painted(ps)| ==> Painted(ps)[i].letter == Rendered(ps)[i]
  {
    if ps != [] { PaintedIsRendered(ps[1..]); }
  }

  lemma {:induction false} PaintedConcat(ps: seq<Piece>, qs: seq<Piece>)
    ensures Painted(ps + qs) == Painted(ps) + Painted(qs)
  {
    if ps == [] {
      assert ps + qs == qs;
    } else {
      assert (ps + qs)[1..] == ps[1..] + qs;
      PaintedConcat(ps[1..], qs);
    }
  }

  lemma PaintedSingle(x: Piece)
    ensures Painted([x]) == PaintedOne(x)
  {
    assert [x][1..] == [] && Painted([]) == [];
  }

  // A text all in its colour, but for its line breaks.
  function Coloured(kind: string, v: string): seq<Letter> {
    seq(|v|, i requires 0 <= i < |v| => Letter(v[i], if v[i] == '\n' then None else Some(kind)))
  }

  lemma OneLine(kind: string, v: string)
    requires '\n' !in v
    ensures Same(v, Some(kind)) == Coloured(kind, v)
  {
  }

  lemma {:induction false} LinesPainted(kind: string, v: string, p: nat)
    requires p <= |v|
    ensures Painted(LinePieces(kind, v, p)) == Coloured(kind, v[p..]) + Same("\n", None)
    decreases |v| - p
  {
    hide Painted, LinePieces, NextBreak, Coloured, Same;
    var q := NextBreak(v, p);
    var line := [Tagged(kind, v[p..q]), NewLine];
    LineStep(kind, v, p);
    LinePainted(kind, v[p..q]);
    if q < |v| {
      LinesPainted(kind, v, q + 1);
      PaintedConcat(line, LinePieces(kind, v, q + 1));
      ColouredLines(kind, v, p, q);
    } else {
      assert v[p..q] == v[p..];
    }
  }

  lemma LinePainted(kind: string, t: string)
    requires '\n' !in t
    ensures Painted([Tagged(kind, t), NewLine]) == Coloured(kind, t) + Same("\n", None)
  {
    hide Coloured, Same, Painted;
    assert [Tagged(kind, t), NewLine] == [Tagged(kind, t)] + [NewLine];
    PaintedConcat([Tagged(kind, t)], [NewLine]);
    PaintedSingle(Tagged(kind, t));
    PaintedSingle(NewLine);
    OneLine(kind, t);
  }

  lemma ColouredLines(kind: string, v: string, p: nat, q: nat)
    requires p <= q < |v| && v[q] == '\n'
    ensures Coloured(kind, v[p..q]) + Same("\n", None) + Coloured(kind, v[q + 1..]) == Coloured(kind, v[p..])
  {
  }

  lemma MatchPainted(kind: string, v: string)
    ensures Painted(MatchPieces(kind, v)) == Coloured(kind, v) + if '\n' in v then Same("\n", None) else []
  {
    if '\n' in v {
      LinesPainted(kind, v, 0);
    } else {
      PaintedSingle(Tagged(kind, v));
      OneLine(kind, v);
    }
  }

  predicate StandsAt(out: seq<Letter>, at: int, x: Letter) {
    0 <= at < |out| && out[at] == x
  }

  // Every letter of the code stands in the coloured text, moved by one line break for
  // each match of several lines in front of it. It has the colour of the match it is in:
  // none outside the matches, and none if it is a line break itself.
  lemma {:induction false} LetterColoured(code: string, ms: seq<Match>, pos: nat, p: nat) returns (k: nat)
    requires Within(ms, code, pos) && Separate(ms) && pos <= p < |code|
    ensures k <= |ms| && forall i :: 0 <= i < k ==> ms[i].index + ms[i].length <= p
    ensures k < |ms| ==> p < ms[k].index + ms[k].length
    ensures StandsAt(Painted(Cut(code, ms, pos)), p - pos + Broken(code, ms[..k]), Letter(code[p],
      if k < |ms| && ms[k].index <= p && code[p] != '\n' then Some(ms[k].kind) else None))
    decreases |ms|
  {
    hide StandsAt, Painted, UpToEnd, TextOf, Cut, Separate, Within;
    if ms == [] {
      k := 0;
      ShownLast(code, pos, p);
    } else {
      var m, e := ms[0], ms[0].index + ms[0].length;
      TailFits(code, ms, pos);
      var rest := Painted(Cut(code, ms[1..], e));
      CutPainted(code, ms, pos);
      if p < e {
        k := 0;
        assert Broken(code, ms[..0]) == 0;
        hide Broken;
        FirstPainted(code, m, pos, p);
        InFront(UpToEnd(code, m, pos), rest, p - pos);
      } else {
        var j := LetterColoured(code, ms[1..], e, p);
        k := j + 1;
        BrokenPast(code, ms, k);
        hide Broken;
        assert forall i :: 0 < i < k ==> ms[i] == ms[1..][i - 1];
        assert j < |ms[1..]| ==> ms[1..][j] == ms[k];
        Behind(UpToEnd(code, m, pos), rest, p - e + Broken(code, ms[1..][..j]), Letter(code[p],
          if k < |ms| && ms[k].index <= p && code[p] != '\n' then Some(ms[k].kind) else None));
      }
    }
  }

  lemma TailFits(code: string, ms: seq<Match>, pos: nat)
    requires ms != [] && Within(ms, code, pos) && Separate(ms)
    ensures forall i :: 0 <= i < |ms| ==> ms[i].index + ms[i].length <= |code|
    ensures pos <= ms[0].index && ms[0].index + ms[0].length <= |code|
    ensures Within(ms[1..], code, ms[0].index + ms[0].length) && Separate(ms[1..])
  {
  }

  lemma CutFirst(code: string, ms: seq<Match>, pos: nat)
    requires ms != [] && Within(ms, code, pos) && Separate(ms) && pos <= |code|
    ensures var m := ms[0];
      Cut(code, ms, pos) == [Plain(code[pos..m.index])] + MatchPieces(m.kind, TextOf(m, code))
                            + Cut(code, ms[1..], m.index + m.length)
  {
  }

  lemma ShownLast(code: string, pos: nat, p: nat)
    requires pos <= p < |code|
    ensures StandsAt(Painted(Cut(code, [], pos)), p - pos, Letter(code[p], None))
  {
    PaintedSingle(Plain(code[pos..]));
  }

  lemma InFront(a: seq<Letter>, b: seq<Letter>, i: nat)
    requires i < |a|
    ensures StandsAt(a + b, i, a[i])
  {
  }

  lemma Behind(a: seq<Letter>, b: seq<Letter>, i: int, x: Letter)
    requires StandsAt(b, i, x)
    ensures StandsAt(a + b, |a| + i, x)
  {
  }

  // What is shown of the code from pos to the end of a match.
  function UpToEnd(code: string, m: Match, pos: nat): (r: seq<Letter>)
    requires pos <= m.index && m.index + m.length <= |code|
    ensures |r| == m.index + m.length - pos + if '\n' in TextOf(m, code) then 1 else 0
  {
    Same(code[pos..m.index], None)
    + (Coloured(m.kind, TextOf(m, code)) + if '\n' in TextOf(m, code) then Same("\n", None) else [])
  }

  lemma FirstPainted(code: string, m: Match, pos: nat, p: nat)
    requires pos <= m.index && pos <= p < m.index + m.length <= |code|
    ensures UpToEnd(code, m, pos)[p - pos]
         == Letter(code[p], if m.index <= p && code[p] != '\n' then Some(m.kind) else None)
  {
    if p < m.index {
      assert UpToEnd(code, m, pos)[p - pos] == Same(code[pos..m.index], None)[p - pos];
    } else {
      assert UpToEnd(code, m, pos)[p - pos] == Coloured(m.kind, TextOf(m, code))[p - m.index];
    }
  }

  lemma CutPainted(code: string, ms: seq<Match>, pos: nat)
    requires ms != [] && Within(ms, code, pos) && Separate(ms) && pos <= |code|
    ensures var m, e := ms[0], ms[0].index + ms[0].length;
      Painted(Cut(code, ms, pos)) == UpToEnd(code, m, pos) + Painted(Cut(code, ms[1..], e))
  {
    var m, e := ms[0], ms[0].index + ms[0].length;
    hide Cut, Separate, Within, MatchPieces, Painted, Same, Coloured;
    TailFits(code, ms, pos);
    var x, ys, zs := Plain(code[pos..m.index]), MatchPieces(m.kind, TextOf(m, code)), Cut(code, ms[1..], e);
    CutFirst(code, ms, pos);
    MatchPainted(m.kind, TextOf(m, code));
    ThreePainted(x, ys, zs);
    assert PaintedOne(x) + Painted(ys) == UpToEnd(code, m, pos);
  }

  lemma ThreePainted(x: Piece, ys: seq<Piece>, zs: seq<Piece>)
    ensures Painted([x] + ys + zs) == PaintedOne(x) + Painted(ys) + Painted(zs)
  {
    PaintedConcat([x] + ys, zs);
    PaintedConcat([x], ys);
    PaintedSingle(x);
  }

  lemma BrokenPast(code: string, ms: seq<Match>, k: nat)
    requires 0 < k <= |ms| && forall i :: 0 <= i < |ms| ==> ms[i].index + ms[i].length <= |code|
    ensures Broken(code, ms[..k]) == (if '\n' in TextOf(ms[0], code) then 1 else 0) + Broken(code, ms[1..][..k - 1])
  {
    assert ms[..k][1..] == ms[1..][..k - 1];
  }

  class Highlightor {
    var matches: seq<Match>

    constructor (sorted: seq<Match>)
      ensures matches == sorted
    {
      matches := sorted;
    }

    method CleanMatches()
      requires Sorted(matches)
      modifies this
      ensures matches == KeptFrom(old(matches), 0)
    {
      var deleteItem := ListDoomed(matches);
      RemoveListed(deleteItem);
    }

    // The listed matches are removed from the last one on.
    method RemoveListed(deleteItem: seq<nat>)
      requires Ascending(deleteItem)
      requires forall d: nat :: d in deleteItem <==> d < |matches| && !Kept(matches, d)
      modifies this
      ensures matches == KeptFrom(old(matches), 0)
    {
      ghost var ms := matches;
      hide Kept, KeptFrom, Ascending, LeftOver;
      var i := |deleteItem|;
      NothingRemoved(ms, deleteItem);
      while i > 0
        invariant 0 <= i <= |deleteItem| && LeftOver(ms, deleteItem, i, matches)
      {
        i := i - 1;
        RemovalStep(ms, deleteItem, i, matches);
        RemoveAt(deleteItem[i]);
      }
      AllRemoved(ms, deleteItem, matches);
    }

    method RemoveAt(d: nat)
      requires d < |matches|
      modifies this
      ensures matches == old(matches)[..d] + old(matches)[d + 1..]
    {
      matches := matches[..d] + matches[d + 1..];
    }

    // The loop of HighLight that builds the text out of the matches.
    method Colour(code: string) returns (ps: seq<Piece>)
      requires Within(matches, code, 0) && Separate(matches)
      ensures ps == Cut(code, matches, 0)
    {
      hide Cut, MatchPieces, TextOf;
      ps := [];
      var curPos := 0;
      assert matches[0..] == matches;
      for i := 0 to |matches|
        invariant 0 <= curPos <= |code| && forall k :: i <= k < |matches| ==> curPos <= matches[k].index
        invariant ps + Cut(code, matches[i..], curPos) == Cut(code, matches, 0)
      {
        var m := matches[i];
        assert forall k :: i < k < |matches| ==> m.index + m.length <= matches[k].index;
        assert matches[i..][0] == m && matches[i..][1..] == matches[i + 1..];
        CutStep(ps, code, matches[i..], curPos);
        ps := ps + [Plain(code[curPos..m.index])];
        var lines := AddMatch(m.kind, TextOf(m, code));
        ps := ps + lines;
        curPos := m.length + m.index;
      }
      assert matches[|matches|..] == [];
      CutEnd(code, curPos);
      ps := ps + [Plain(code[curPos..])];
    }

    // HighLight from the sorted matches on.
    method HighLight(code: string) returns (ps: seq<Piece>)
      requires Sorted(matches) && Within(matches, code, 0)
      modifies this
      ensures matches == KeptFrom(old(matches), 0) && Within(matches, code, 0) && Separate(matches)
      ensures ps == Cut(code, matches, 0)
      ensures Rendered(ps) == code <==> KeptOneLined(old(matches), code)
      ensures forall x :: x in ps && x.Tagged? ==> '\n' !in x.text
    {
      ghost var ms := matches;
      CleanMatches();
      KeptSeparate(ms, 0);
      forall i | 0 <= i < |matches| ensures matches[i] in ms {
        KeptFromMember(ms, 0, matches[i]);
      }
      ps := Colour(code);
      TextKept(code, matches);
      KeptLines(ms, code);
      CutUnbroken(code, matches, 0);
    }
  }

  // The matches after the removal of the listed ones from the i-th on.
  ghost predicate LeftOver(ms: seq<Match>, xs: seq<nat>, i: nat, now: seq<Match>)
    requires i <= |xs|
  {
    CleanFrom(ms, if i < |xs| then xs[i] else |ms|, now)
  }

  // From position e on only what stays is left.
  ghost predicate CleanFrom(ms: seq<Match>, e: nat, now: seq<Match>) {
    e <= |ms| && now == ms[..e] + KeptFrom(ms, e)
  }

  lemma NothingRemoved(ms: seq<Match>, xs: seq<nat>)
    ensures LeftOver(ms, xs, |xs|, ms)
  {
    assert KeptFrom(ms, |ms|) == [];
  }

  lemma RemovalStep(ms: seq<Match>, xs: seq<nat>, i: nat, now: seq<Match>)
    requires Ascending(xs) && forall d: nat :: d in xs <==> d < |ms| && !Kept(ms, d)
    requires i < |xs| && LeftOver(ms, xs, i + 1, now)
    ensures xs[i] < |now| && LeftOver(ms, xs, i, now[..xs[i]] + now[xs[i] + 1..])
  {
    hide Kept, KeptFrom;
    var d, e := xs[i], if i + 1 < |xs| then xs[i + 1] else |ms|;
    assert d in xs && d < e <= |ms|;
    hide CleanFrom, Ascending;
    KeptBetween(ms, xs, i, d, e);
    Removal(ms, d, e, now);
  }

  lemma KeptBetween(ms: seq<Match>, xs: seq<nat>, i: nat, d: nat, e: nat)
    requires Ascending(xs) && forall d: nat :: d in xs <==> d < |ms| && !Kept(ms, d)
    requires i < |xs| && d == xs[i] && d < e <= |ms| && e == if i + 1 < |xs| then xs[i + 1] else |ms|
    ensures KeptFrom(ms, d) == ms[d + 1..e] + KeptFrom(ms, e)
  {
    hide Ascending, KeptFrom;
    assert d in xs;
    GoneFrom(ms, d);
    hide Kept;
    KeptBehind(ms, xs, i, d + 1, e);
  }

  lemma AllRemoved(ms: seq<Match>, xs: seq<nat>, now: seq<Match>)
    requires Ascending(xs) && forall d: nat :: d in xs <==> d < |ms| && !Kept(ms, d)
    requires LeftOver(ms, xs, 0, now)
    ensures now == KeptFrom(ms, 0)
  {
    hide Kept, KeptFrom, Ascending;
    var e := if 0 < |xs| then xs[0] else |ms|;
    KeptBehind(ms, xs, -1, 0, e);
    assert ms[..e] == ms[0..e];
  }

  lemma Removal(ms: seq<Match>, d: nat, e: nat, now: seq<Match>)
    requires d < e <= |ms| && CleanFrom(ms, e, now)
    requires KeptFrom(ms, d) == ms[d + 1..e] + KeptFrom(ms, e)
    ensures d < |now| && CleanFrom(ms, d, now[..d] + now[d + 1..])
  {
    hide KeptFrom;
    assert now[..d] == ms[..d];
    assert now[d + 1..] == ms[d + 1..e] + KeptFrom(ms, e);
  }

  lemma GoneFrom(ms: seq<Match>, d: nat)
    requires d < |ms| && !Kept(ms, d)
    ensures KeptFrom(ms, d) == KeptFrom(ms, d + 1)
  {
  }

  // All that stands between two neighbours of the list stays.
  lemma KeptBehind(ms: seq<Match>, xs: seq<nat>, i: int, a: nat, e: nat)
    requires Ascending(xs) && forall d: nat :: d in xs <==> d < |ms| && !Kept(ms, d)
    requires -1 <= i < |xs| && a == (if i < 0 then 0 else xs[i] + 1)
    requires a <= e <= |ms| && e == if i + 1 < |xs| then xs[i + 1] else |ms|
    ensures KeptFrom(ms, a) == ms[a..e] + KeptFrom(ms, e)
  {
    hide Kept;
    forall k | a <= k < e ensures Kept(ms, k) {
      NotListed(xs, i, k, |ms|);
    }
    KeptRun(ms, a, e);
  }

  // Between two neighbours of an ascending list nothing is listed.
  lemma NotListed(xs: seq<nat>, i: int, k: nat, bound: nat)
    requires Ascending(xs) && -1 <= i < |xs| && (i >= 0 ==> xs[i] < k)
    requires k < if i + 1 < |xs| then xs[i + 1] else bound
    requires i + 1 == |xs| || xs[i + 1] <= bound
    ensures k !in xs
  {
    forall j | 0 <= j < |xs| ensures xs[j] != k {
      if j <= i {
        assert xs[j] <= xs[i];
      } else {
        assert xs[j] >= xs[i + 1];
      }
    }
  }

  method AddMatch(kind: string, v: string) returns (ps: seq<Piece>)
    ensures ps == MatchPieces(kind, v)
  {
    hide NextBreak, LinePieces;
    var cur := NextBreak(v, 0);
    if cur < |v| {
      var localPos := 0;
      ps := [];
      assert '\n' in v;
      while cur < |v|
        invariant localPos <= cur <= |v| && cur == NextBreak(v, localPos)
        invariant ps + LinePieces(kind, v, localPos) == LinePieces(kind, v, 0)
        decreases |v| - cur
      {
        LineStep(kind, v, localPos);
        ps := ps + [Tagged(kind, v[localPos..cur]), NewLine];
        localPos := cur + 1;
        cur := NextBreak(v, localPos);
      }
      LineStep(kind, v, localPos);
      assert v[localPos..cur] == v[localPos..];
      ps := ps + [Tagged(kind, v[localPos..]), NewLine];
    } else {
      assert v[0..cur] == v && '\n' !in v;
      ps := [Tagged(kind, v)];
    }
  }
}
