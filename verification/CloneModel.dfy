// Blocks, clone pairs, and what it means for two blocks to be clones.
module CloneModel {
  import opened TermBags

  datatype InputBlock = InputBlock(
    id: nat, fileid: nat, startline: int, endline: int,
    numOriginalTokens: nat,
    tokens: seq<TermFrequency>)

  // A block ready for detection: its terms in global order, each marked as being
  // in the prefix or not, with the same terms as a map.
  datatype Block = Block(
    id: nat, fileid: nat, startline: int, endline: int,
    terms: seq<TermFrequency>,
    inPrefix: seq<bool>,
    termMap: map<string, nat>,
    numTokens: nat)

  datatype Clone = Clone(
    fileid1: nat, startline1: int, endline1: int,
    fileid2: nat, startline2: int, endline2: int)

  // The fragment with the smaller file, first line, last line comes first.
  function MakeClone(fileid1: nat, startline1: int, endline1: int, fileid2: nat, startline2: int, endline2: int): Clone {
    if fileid1 < fileid2 || (fileid1 == fileid2 &&
         (startline1 < startline2 || (startline1 == startline2 && endline1 <= endline2)))
    then Clone(fileid1, startline1, endline1, fileid2, startline2, endline2)
    else Clone(fileid2, startline2, endline2, fileid1, startline1, endline1)
  }

  // A pair is written the same way whichever block finds it.
  lemma CloneUnordered(f1: nat, s1: int, e1: int, f2: nat, s2: int, e2: int)
    ensures MakeClone(f1, s1, e1, f2, s2, e2) == MakeClone(f2, s2, e2, f1, s1, e1)
  {
  }

  // Block.doesOverlap: which of its three cases holds does not matter below.
  predicate DoesOverlap(fileid: nat, startline: int, endline: int, fileid': nat, startline': int, endline': int) {
    fileid == fileid' &&
    (startline' <= startline <= endline'
     || startline' <= endline <= endline'
     || (startline <= startline' && endline' <= endline))
  }

  predicate InLines(line: int, startline: int, endline: int) {
    startline <= line <= endline
  }

  // For blocks of at least one line it says that some line lies in both.
  lemma OverlapMeaning(f1: nat, s1: int, e1: int, f2: nat, s2: int, e2: int)
    requires s1 <= e1 && s2 <= e2
    ensures DoesOverlap(f1, s1, e1, f2, s2, e2) <==> f1 == f2 && exists line: int :: InLines(line, s1, e1) && InLines(line, s2, e2)
    ensures DoesOverlap(f1, s1, e1, f2, s2, e2) == DoesOverlap(f2, s2, e2, f1, s1, e1)
  {
    if DoesOverlap(f1, s1, e1, f2, s2, e2) {
      var line := if s1 <= s2 then s2 else s1;
      assert InLines(line, s1, e1) && InLines(line, s2, e2);
    }
  }

  function Ceil(x: real): int {
    -((-x).Floor)
  }

  // Rounding up: the smallest whole number that is not below x.
  lemma RoundsUp(x: real, n: int)
    ensures n >= Ceil(x) <==> n as real >= x
  {
    var f := (-x).Floor;
    assert f as real <= -x < f as real + 1.0;
    if n >= -f {
      assert n as real >= (-f) as real;
    } else {
      assert n as real <= (-f) as real - 1.0;
    }
  }

  // How many tokens have to be shared.
  function Threshold(numTokens: nat, sim: real): int {
    Ceil(numTokens as real * sim)
  }

  lemma ThresholdMonotone(m: nat, n: nat, sim: real)
    requires m <= n
    ensures sim >= 0.0 ==> Threshold(m, sim) <= Threshold(n, sim)
    ensures sim < 0.0 ==> Threshold(m, sim) <= 0
  {
    var x, y := m as real, n as real;
    if sim >= 0.0 {
      assert x * sim <= y * sim;
    } else {
      assert x * sim <= 0.0;
    }
  }

  function Max(a: nat, b: nat): nat { if a > b then a else b }

  // The similarity the detector promises: the tokens two bags share, counted with
  // multiplicity, are at least the given ratio of the larger one.
  ghost predicate Similar(a: multiset<string>, b: multiset<string>, sim: real) {
    |a * b| as real >= Max(|a|, |b|) as real * sim
  }

  // The whole number of tokens that the program compares with decides the same.
  lemma SimilarIsThreshold(a: multiset<string>, b: multiset<string>, sim: real)
    ensures Similar(a, b, sim) <==> |a * b| >= Threshold(Max(|a|, |b|), sim)
  {
    RoundsUp(Max(|a|, |b|) as real * sim, |a * b|);
  }

  // What the detector reports: similar, and sharing at least one token, which
  // matters only when the threshold is not positive.
  ghost predicate Reportable(a: multiset<string>, b: multiset<string>, sim: real) {
    |a * b| >= 1 && Similar(a, b, sim)
  }

  // With a threshold of at least one token the two are the same.
  lemma ReportableIsSimilar(a: multiset<string>, b: multiset<string>, sim: real)
    requires Threshold(Max(|a|, |b|), sim) >= 1
    ensures Reportable(a, b, sim) <==> Similar(a, b, sim)
  {
    SimilarIsThreshold(a, b, sim);
  }

  // Otherwise two blocks without a common token are similar, but not reported.
  lemma NothingSharedSimilar(sim: real)
    requires sim <= 0.0
    ensures Similar(multiset{"a"}, multiset{"b"}, sim) && !Reportable(multiset{"a"}, multiset{"b"}, sim)
  {
    assert multiset{"a"} * multiset{"b"} == multiset{};
  }

  ghost predicate ValidBlock(b: Block) {
    && WellFormed(b.terms)
    && |b.inPrefix| == |b.terms|
    && b.numTokens == |Bag(b.terms)|
    && (forall t :: t in b.termMap <==> t in Bag(b.terms))
    && (forall t :: t in b.termMap ==> b.termMap[t] == Bag(b.terms)[t])
  }

  // The prefix is the first numTokens - ceil(numTokens * sim) + 1 tokens.
  function PrefixLength(numTokens: nat, sim: real): int {
    numTokens - Threshold(numTokens, sim) + 1
  }

  // Behind the prefix there are fewer tokens than have to be shared, and with one token
  // more there would be enough: it cannot be shorter.
  lemma PrefixIsLeast(numTokens: nat, sim: real)
    ensures var behind := numTokens - PrefixLength(numTokens, sim);
      (behind as real) < numTokens as real * sim <= (behind + 1) as real
  {
    var x, k := numTokens as real * sim, Threshold(numTokens, sim);
    RoundsUp(x, k);
    RoundsUp(x, k - 1);
  }

  ghost predicate Prefixed(b: Block, sim: real) {
    ValidBlock(b) && forall k :: 0 <= k < |b.terms| ==>
      b.inPrefix[k] == (|Bag(b.terms[..k])| < PrefixLength(b.numTokens, sim))
  }

  ghost predicate PrefixTerm(b: Block, t: string) {
    |b.inPrefix| == |b.terms| && exists k :: 0 <= k < |b.terms| && b.inPrefix[k] && b.terms[k].term == t
  }

  // ---- The global order of terms ----

  // String.compareTo on code units.
  predicate LexBefore(a: string, b: string) {
    b != [] && (a == [] || a[0] < b[0] || (a[0] == b[0] && LexBefore(a[1..], b[1..])))
  }

  lemma {:induction false} LexTotal(a: string, b: string)
    ensures a == b || LexBefore(a, b) || LexBefore(b, a)
    ensures !(LexBefore(a, b) && LexBefore(b, a)) && !LexBefore(a, a)
  {
    if a != [] && b != [] && a[0] == b[0] {
      LexTotal(a[1..], b[1..]);
      assert a == [a[0]] + a[1..] && b == [b[0]] + b[1..];
    }
    if a != [] {
      LexTotal(a[1..], a[1..]);
    }
  }

  lemma {:induction false} LexTransitive(a: string, b: string, c: string)
    requires LexBefore(a, b) && LexBefore(b, c)
    ensures LexBefore(a, c)
  {
    if a != [] && a[0] == b[0] && b[0] == c[0] {
      LexTransitive(a[1..], b[1..], c[1..]);
    }
  }

  function Frequency(gtf: map<string, nat>, t: string): nat {
    if t in gtf then gtf[t] else 0
  }

  // GTFTermFreqComparator: rarer terms first, ties by the text of the term.
  predicate Before(gtf: map<string, nat>, s: string, t: string) {
    Frequency(gtf, s) < Frequency(gtf, t) || (Frequency(gtf, s) == Frequency(gtf, t) && LexBefore(s, t))
  }

  // In the order of the texts a is in front of b if it ends before the two differ, or if
  // its letter is the smaller one where they differ first.
  lemma {:induction false} LexMeans(a: string, b: string)
    ensures LexBefore(a, b)
       <==> exists n: nat :: n <= |a| && n < |b| && a[..n] == b[..n] && (n == |a| || a[n] < b[n])
  {
    if a != [] && b != [] && a[0] == b[0] {
      LexMeans(a[1..], b[1..]);
      if n: nat :| n <= |a| - 1 && n < |b| - 1 && a[1..][..n] == b[1..][..n] && (n == |a| - 1 || a[1..][n] < b[1..][n]) {
        FirstDiffers(a, b, n);
        assert a[..n + 1] == b[..n + 1];
      }
      if n: nat :| n <= |a| && n < |b| && a[..n] == b[..n] && (n == |a| || a[n] < b[n]) {
        FirstDiffers(a, b, n - 1);
        assert a[1..][..n - 1] == b[1..][..n - 1];
      }
    } else if b != [] && (a == [] || a[0] < b[0]) {
      assert a[..0] == b[..0];
    } else if n: nat :| n <= |a| && n < |b| && a[..n] == b[..n] && (n == |a| || a[n] < b[n]) {
      assert n > 0 ==> a[..n][0] == b[..n][0];
    }
  }

  lemma FirstDiffers(a: string, b: string, n: nat)
    requires n < |a| && n < |b| && a[0] == b[0]
    ensures a[1..][..n] == b[1..][..n] <==> a[..n + 1] == b[..n + 1]
  {
    assert a[..n + 1] == [a[0]] + a[1..][..n] && b[..n + 1] == [b[0]] + b[1..][..n];
    assert a[1..][..n] == a[..n + 1][1..] && b[1..][..n] == b[..n + 1][1..];
  }

  // A rarer term is always in front of a more frequent one.
  lemma RarerFirst(gtf: map<string, nat>, s: string, t: string)
    ensures Frequency(gtf, s) < Frequency(gtf, t) ==> Before(gtf, s, t) && !Before(gtf, t, s)
    ensures Frequency(gtf, s) == Frequency(gtf, t) ==> (Before(gtf, s, t) <==> LexBefore(s, t))
  {
  }

  lemma BeforeTotal(gtf: map<string, nat>, s: string, t: string)
    ensures s == t || Before(gtf, s, t) || Before(gtf, t, s)
    ensures !(Before(gtf, s, t) && Before(gtf, t, s)) && !Before(gtf, s, s)
  {
    LexTotal(s, t);
    LexTotal(s, s);
  }

  lemma BeforeTransitive(gtf: map<string, nat>, s: string, t: string, u: string)
    requires Before(gtf, s, t) && Before(gtf, t, u)
    ensures Before(gtf, s, u)
  {
    if LexBefore(s, t) && LexBefore(t, u) {
      LexTransitive(s, t, u);
    }
  }

  ghost predicate Sorted(gtf: map<string, nat>, tfs: seq<TermFrequency>) {
    forall i, j :: 0 <= i < j < |tfs| ==> Before(gtf, tfs[i].term, tfs[j].term)
  }

  // ---- Prefix filtering loses nothing ----

  // If the first term that b shares with a bag lies outside b's prefix, too few
  // tokens are left to reach even b's own threshold.
  lemma TooLate(b: Block, sim: real, other: multiset<string>, k: nat)
    requires Prefixed(b, sim) && k < |b.terms| && !b.inPrefix[k]
    requires forall i :: 0 <= i < k ==> b.terms[i].term !in other
    ensures |Bag(b.terms) * other| < Threshold(b.numTokens, sim)
  {
    hide Threshold, Bag;
    var before, after := Bag(b.terms[..k]), Bag(b.terms[k..]);
    assert |before| >= PrefixLength(b.numTokens, sim);
    assert b.terms == b.terms[..k] + b.terms[k..];
    BagConcat(b.terms[..k], b.terms[k..]);
    forall t ensures t !in before * other {
      BagTerms(b.terms[..k], t);
    }
    assert before * other == multiset{};
    SharedBounds(before, after, other);
  }

  lemma NothingShared(b: Block, other: multiset<string>)
    requires ValidBlock(b) && forall i :: 0 <= i < |b.terms| ==> b.terms[i].term !in other
    ensures |Bag(b.terms) * other| == 0
  {
    forall t ensures t !in Bag(b.terms) * other {
      BagTerms(b.terms, t);
    }
    assert Bag(b.terms) * other == multiset{};
  }

  lemma FirstShared(b: Block, other: multiset<string>) returns (k: nat)
    requires ValidBlock(b) && |Bag(b.terms) * other| >= 1
    ensures k < |b.terms| && b.terms[k].term in other
    ensures forall i :: 0 <= i < k ==> b.terms[i].term !in other
  {
    assert exists i :: 0 <= i < |b.terms| && b.terms[i].term in other by {
      if forall i :: 0 <= i < |b.terms| ==> b.terms[i].term !in other { NothingShared(b, other); }
    }
    k := 0;
    while b.terms[k].term !in other
      invariant k < |b.terms|
      invariant forall i :: 0 <= i < k ==> b.terms[i].term !in other
      decreases |b.terms| - k
    {
      k := k + 1;
    }
  }

  // Both blocks see the same first shared term.
  lemma SameFirst(gtf: map<string, nat>, p: Block, q: Block, k: nat, m: nat)
    requires ValidBlock(p) && ValidBlock(q) && Sorted(gtf, p.terms) && Sorted(gtf, q.terms)
    requires k < |p.terms| && p.terms[k].term in Bag(q.terms)
    requires forall i :: 0 <= i < k ==> p.terms[i].term !in Bag(q.terms)
    requires m < |q.terms| && q.terms[m].term in Bag(p.terms)
    requires forall i :: 0 <= i < m ==> q.terms[i].term !in Bag(p.terms)
    ensures p.terms[k].term == q.terms[m].term
  {
    hide Before, Bag;
    var s, t := p.terms[k].term, q.terms[m].term;
    BagTerms(p.terms, t);
    BagTerms(q.terms, s);
    BagTerms(p.terms, s);
    BagTerms(q.terms, t);
    var i :| 0 <= i < |p.terms| && p.terms[i].term == t;
    var j :| 0 <= j < |q.terms| && q.terms[j].term == s;
    BeforeTotal(gtf, s, t);
    assert i >= k && j >= m;
  }

  // Two blocks the detector should report share a term in both their prefixes:
  // the first term, in the global order, that they share at all.
  lemma PrefixesMeet(gtf: map<string, nat>, p: Block, q: Block, sim: real)
    requires Prefixed(p, sim) && Prefixed(q, sim)
    requires Sorted(gtf, p.terms) && Sorted(gtf, q.terms)
    requires Reportable(Bag(p.terms), Bag(q.terms), sim)
    ensures exists t :: PrefixTerm(p, t) && PrefixTerm(q, t)
  {
    var a, b := Bag(p.terms), Bag(q.terms);
    IntersectionSize(a, b);
    SimilarIsThreshold(a, b, sim);
    hide Similar;
    var k := FirstShared(p, b);
    var m := FirstShared(q, a);
    SameFirst(gtf, p, q, k, m);
    ThresholdMonotone(p.numTokens, Max(|a|, |b|), sim);
    ThresholdMonotone(q.numTokens, Max(|a|, |b|), sim);
    if !p.inPrefix[k] { TooLate(p, sim, b, k); }
    if !q.inPrefix[m] { TooLate(q, sim, a, m); }
    assert PrefixTerm(p, p.terms[k].term) && PrefixTerm(q, p.terms[k].term);
  }

  // A clone is written as its two fragments, the one first that comes first by file, first
  // line and last line.
  lemma CloneLines(f1: nat, s1: int, e1: int, f2: nat, s2: int, e2: int)
    ensures var c := MakeClone(f1, s1, e1, f2, s2, e2);
      && (c == Clone(f1, s1, e1, f2, s2, e2) || c == Clone(f2, s2, e2, f1, s1, e1))
      && c.fileid1 <= c.fileid2
      && (c.fileid1 == c.fileid2 ==> c.startline1 <= c.startline2)
      && (c.fileid1 == c.fileid2 && c.startline1 == c.startline2 ==> c.endline1 <= c.endline2)
  {
  }

  // Conversely a common prefix term is a shared token.
  lemma MeetingShares(p: Block, q: Block, t: string)
    requires ValidBlock(p) && ValidBlock(q) && PrefixTerm(p, t) && PrefixTerm(q, t)
    ensures |Bag(p.terms) * Bag(q.terms)| >= 1
  {
    BagTerms(p.terms, t);
    BagTerms(q.terms, t);
    assert t in Bag(p.terms) * Bag(q.terms);
  }
}
