// The clone detection pipeline: count terms, sort and prefix the blocks, index
// them by prefix term, query the index with every block.
module CloneDetection {
  import opened TermBags
  import opened CloneModel

  // GTFHashMap: how often each term occurs in the blocks added so far.
  class TermCounts {
    var counts: map<string, nat>

    constructor ()
      ensures counts == map[]
    {
      counts := map[];
    }

    method Add(term: string, num: nat)
      modifies this
      ensures counts == old(counts)[term := Frequency(old(counts), term) + num]
    {
      counts := counts[term := (if term in counts then counts[term] + num else num)];
    }
  }

  ghost function BagOfAll(blocks: seq<InputBlock>): multiset<string> {
    if blocks == [] then multiset{}
    else BagOfAll(blocks[..|blocks| - 1]) + Bag(blocks[|blocks| - 1].tokens)
  }

  lemma OneToken(tokens: seq<TermFrequency>, k: nat)
    requires k < |tokens|
    ensures forall t ::
      Bag(tokens[..k + 1])[t] == Bag(tokens[..k])[t] + if t == tokens[k].term then tokens[k].frequency else 0
  {
    assert tokens[..k + 1][..k] == tokens[..k];
  }

  lemma OneBlock(blocks: seq<InputBlock>, i: nat)
    requires i < |blocks|
    ensures BagOfAll(blocks[..i + 1]) == BagOfAll(blocks[..i]) + Bag(blocks[i].tokens)
  {
    assert blocks[..i + 1][..i] == blocks[..i];
  }

  // GTFBuilder.run: every block of the input is counted, approved or not.
  method BuildTermCounts(blocks: seq<InputBlock>) returns (gtf: TermCounts)
    ensures fresh(gtf)
    ensures forall t :: Frequency(gtf.counts, t) == BagOfAll(blocks)[t]
  {
    gtf := new TermCounts();
    assert forall t :: Frequency(gtf.counts, t) == 0 == BagOfAll(blocks[..0])[t];
    hide BagOfAll;
    for i := 0 to |blocks|
      invariant fresh(gtf)
      invariant forall t :: Frequency(gtf.counts, t) == BagOfAll(blocks[..i])[t]
    {
      var tokens := blocks[i].tokens;
      NoTokens();
      assert tokens[..0] == [];
      hide Bag;
      for k := 0 to |tokens|
        invariant fresh(gtf)
        invariant forall t :: Frequency(gtf.counts, t) == BagOfAll(blocks[..i])[t] + Bag(tokens[..k])[t]
      {
        OneToken(tokens, k);
        gtf.Add(tokens[k].term, tokens[k].frequency);
      }
      assert tokens[..|tokens|] == tokens;
      OneBlock(blocks, i);
    }
    assert blocks[..|blocks|] == blocks;
  }

  // InputBlock.sort: some order that the comparator accepts.
  method SortTerms(gtf: map<string, nat>, tfs: seq<TermFrequency>) returns (r: seq<TermFrequency>)
    requires WellFormed(tfs)
    ensures multiset(r) == multiset(tfs) && Sorted(gtf, r)
  {
    hide Before, WellFormed;
    r := [];
    assert Sorted(gtf, r);
    hide Sorted;
    for k := 0 to |tfs|
      invariant multiset(r) == multiset(tfs[..k]) && Sorted(gtf, r)
    {
      var x, p := tfs[k], 0;
      while p < |r| && Before(gtf, r[p].term, x.term)
        invariant p <= |r|
        invariant forall i :: 0 <= i < p ==> Before(gtf, r[i].term, x.term)
      {
        p := p + 1;
      }
      InsertKeepsSorted(gtf, r, p, x, tfs, k);
      Inserted(r, p, x);
      assert tfs[..k + 1] == tfs[..k] + [x];
      r := r[..p] + [x] + r[p..];
    }
    assert tfs[..|tfs|] == tfs;
  }

  lemma Inserted(r: seq<TermFrequency>, p: nat, x: TermFrequency)
    requires p <= |r|
    ensures multiset(r[..p] + [x] + r[p..]) == multiset(r) + multiset{x}
  {
    assert r == r[..p] + r[p..];
  }

  lemma InsertKeepsSorted(gtf: map<string, nat>, r: seq<TermFrequency>, p: nat, x: TermFrequency, tfs: seq<TermFrequency>, k: nat)
    requires Sorted(gtf, r) && p <= |r| && k < |tfs| && x == tfs[k] && WellFormed(tfs)
    requires multiset(r) == multiset(tfs[..k])
    requires forall i :: 0 <= i < p ==> Before(gtf, r[i].term, x.term)
    requires p < |r| ==> !Before(gtf, r[p].term, x.term)
    ensures Sorted(gtf, r[..p] + [x] + r[p..])
  {
    if p < |r| {
      assert r[p] in multiset(r);
      BeforeTotal(gtf, r[p].term, x.term);
      forall i | p < i < |r| ensures Before(gtf, x.term, r[i].term) {
        BeforeTransitive(gtf, x.term, r[p].term, r[i].term);
      }
    }
  }

  ghost predicate SameBlock(ib: InputBlock, b: Block) {
    && b.id == ib.id && b.fileid == ib.fileid && b.startline == ib.startline && b.endline == ib.endline
    && Bag(b.terms) == Bag(ib.tokens)
  }

  lemma NoTokens()
    ensures Bag([]) == multiset{}
  {
  }

  lemma BagNext(terms: seq<TermFrequency>, k: nat)
    requires WellFormed(terms) && k < |terms|
    ensures |Bag(terms[..k + 1])| == |Bag(terms[..k])| + terms[k].frequency
    ensures terms[k].frequency > 0 && terms[k].term !in Bag(terms[..k])
    ensures forall t :: Bag(terms[..k + 1])[t] == if t == terms[k].term then terms[k].frequency else Bag(terms[..k])[t]
  {
    assert terms[..k + 1][..k] == terms[..k];
    BagTerms(terms[..k], terms[k].term);
    CopiesCount(terms[k], multiset{});
  }

  // The map and the token count of the Block constructor.
  method CountAndMap(terms: seq<TermFrequency>) returns (numTokens: nat, termMap: map<string, nat>)
    requires WellFormed(terms)
    ensures numTokens == |Bag(terms)|
    ensures forall t :: t in termMap <==> t in Bag(terms)
    ensures forall t :: t in termMap ==> termMap[t] == Bag(terms)[t]
  {
    hide Bag, Copies, WellFormed;
    numTokens, termMap := 0, map[];
    NoTokens();
    assert terms[..0] == [];
    for k := 0 to |terms|
      invariant numTokens == |Bag(terms[..k])|
      invariant forall t :: t in termMap <==> t in Bag(terms[..k])
      invariant forall t :: t in termMap ==> termMap[t] == Bag(terms[..k])[t]
    {
      BagNext(terms, k);
      numTokens := numTokens + terms[k].frequency;
      termMap := termMap[terms[k].term := terms[k].frequency];
    }
    assert terms[..|terms|] == terms;
  }

  // MyPrefixer.prefix: once the prefix is used up, no later term is in it.
  method MarkPrefix(terms: seq<TermFrequency>, prefixLength: int) returns (inPrefix: seq<bool>)
    ensures |inPrefix| == |terms|
    ensures forall i :: 0 <= i < |terms| ==> inPrefix[i] == (|Bag(terms[..i])| < prefixLength)
  {
    var num, isPrefixTerm := 0, true;
    inPrefix := [];
    for k := 0 to |terms|
      invariant num == |Bag(terms[..k])|
      invariant |inPrefix| == k
      invariant forall i :: 0 <= i < k ==> inPrefix[i] == (|Bag(terms[..i])| < prefixLength)
      invariant !isPrefixTerm ==> num >= prefixLength
    {
      if num >= prefixLength {
        isPrefixTerm := false;
      }
      assert terms[..k + 1][..k] == terms[..k];
      CopiesCount(terms[k], multiset{});
      num := num + terms[k].frequency;
      inPrefix := inPrefix + [isPrefixTerm];
    }
  }

  // The sorted terms of a block, marked and made ready for detection.
  method Prefix(ib: InputBlock, terms: seq<TermFrequency>, sim: real) returns (b: Block)
    requires WellFormed(terms) && Bag(terms) == Bag(ib.tokens)
    ensures SameBlock(ib, b) && Prefixed(b, sim) && b.terms == terms
  {
    var numTokens, termMap := CountAndMap(terms);
    var inPrefix := MarkPrefix(terms, PrefixLength(numTokens, sim));
    b := Block(ib.id, ib.fileid, ib.startline, ib.endline, terms, inPrefix, termMap, numTokens);
  }

  lemma PermutationWellFormed(a: seq<TermFrequency>, b: seq<TermFrequency>)
    requires WellFormed(a) && multiset(a) == multiset(b)
    ensures WellFormed(b)
  {
    forall i | 0 <= i < |b| ensures b[i].frequency > 0 {
      assert b[i] in multiset(a);
    }
    forall i, j | 0 <= i < j < |b| ensures b[i].term != b[j].term {
      assert b[i] in multiset(a) && b[j] in multiset(a);
      if b[i] == b[j] {
        assert b == b[..i] + [b[i]] + b[i + 1..j] + [b[j]] + b[j + 1..];
        assert multiset(b)[b[i]] >= 2;
        OnlyOnce(a, b[i]);
      }
    }
  }

  lemma {:induction false} OnlyOnce(a: seq<TermFrequency>, x: TermFrequency)
    requires WellFormed(a)
    ensures multiset(a)[x] <= 1
  {
    if a != [] {
      var front, last := a[..|a| - 1], a[|a| - 1];
      assert x in front ==> x != last;
      OnlyOnce(front, x);
      hide WellFormed;
      assert a == front + [last];
    }
  }

  // Sorting and prefixing one block.
  method Prepare(gtf: TermCounts, ib: InputBlock, sim: real) returns (b: Block)
    requires WellFormed(ib.tokens)
    ensures SameBlock(ib, b) && Prefixed(b, sim) && Sorted(gtf.counts, b.terms)
  {
    var terms := SortTerms(gtf.counts, ib.tokens);
    BagPermutation(terms, ib.tokens);
    PermutationWellFormed(ib.tokens, terms);
    b := Prefix(ib, terms, sim);
  }

  // ConcurrentHashMapIndex: for each term the blocks that have it in their prefix.
  class Index {
    var lists: map<string, seq<Block>>

    constructor ()
      ensures Holds({})
    {
      lists := map[];
    }

    ghost predicate Holds(blocks: set<Block>)
      reads this
    {
      && (forall t, b :: t in lists && b in lists[t] ==> b in blocks && PrefixTerm(b, t))
      && (forall t, b :: b in blocks && PrefixTerm(b, t) ==> t in lists && b in lists[t])
    }

    method Put(block: Block, ghost blocks: set<Block>)
      requires Holds(blocks) && |block.inPrefix| == |block.terms|
      modifies this
      ensures Holds(blocks + {block})
    {
      for k := 0 to |block.terms|
        invariant forall t, b :: t in lists && b in lists[t] ==> b in blocks + {block} && PrefixTerm(b, t)
        invariant forall t, b :: b in blocks && PrefixTerm(b, t) ==> t in lists && b in lists[t]
        invariant forall i :: 0 <= i < k && block.inPrefix[i] ==> block.terms[i].term in lists && block in lists[block.terms[i].term]
      {
        if block.inPrefix[k] {
          var term := block.terms[k].term;
          var list := if term in lists then lists[term] else [];
          lists := lists[term := list + [block]];
        }
      }
    }
  }

  predicate Overlaps(q: Block, c: Block) {
    DoesOverlap(q.fileid, q.startline, q.endline, c.fileid, c.startline, c.endline)
  }

  ghost predicate ClonePair(q: Block, c: Block, sim: real) {
    q.id >= c.id && !Overlaps(q, c) && Similar(Bag(q.terms), Bag(c.terms), sim)
  }

  // HeuristicCloneDetector.isClone. `fellThrough` tells that the loop ended without
  // a decision, where the program complains about itself.
  method IsClone(q: Block, c: Block, sim: real) returns (r: bool, fellThrough: bool)
    requires ValidBlock(q) && ValidBlock(c)
    ensures r <==> ClonePair(q, c, sim)
    ensures fellThrough ==> q.terms == [] && c.terms == []
  {
    fellThrough := false;
    if q.id < c.id {
      return false, false;
    }
    if Overlaps(q, c) {
      return false, false;
    }
    var max, min := c, q;
    if q.numTokens > c.numTokens {
      max, min := q, c;
    }
    var threshold := Threshold(max.numTokens, sim);
    IntersectionSize(Bag(q.terms), Bag(c.terms));
    SimilarIsThreshold(Bag(q.terms), Bag(c.terms), sim);
    if min.numTokens < threshold {
      return false, false;
    }
    r, fellThrough := Scan(max, min, threshold);
  }

  // Tokens of the first k terms that are shared with b, and tokens of the others.
  ghost function SharedIn(terms: seq<TermFrequency>, k: nat, b: multiset<string>): nat
    requires k <= |terms|
  {
    |Bag(terms[..k]) * b|
  }

  ghost function TokensFrom(terms: seq<TermFrequency>, k: nat): nat
    requires k <= |terms|
  {
    |Bag(terms[k..])|
  }

  // The loop of isClone over the terms of the larger block: it stops as soon as
  // the answer is certain.
  method Scan(max: Block, min: Block, threshold: int) returns (r: bool, fellThrough: bool)
    requires ValidBlock(max) && ValidBlock(min) && min.numTokens <= max.numTokens
    ensures r <==> |Bag(max.terms) * Bag(min.terms)| >= threshold
    ensures fellThrough <==> max.terms == []
    ensures fellThrough ==> min.terms == []
  {
    hide SharedIn, TokensFrom, Bag;
    var sharedTokens, remainingTokens := 0, max.numTokens;
    ghost var bag := Bag(min.terms);
    ScanEnds(max.terms, bag);
    for k := 0 to |max.terms|
      invariant sharedTokens == SharedIn(max.terms, k, bag)
      invariant remainingTokens == TokensFrom(max.terms, k)
      invariant k > 0 ==> sharedTokens < threshold <= sharedTokens + remainingTokens
    {
      var be := max.terms[k];
      ScanStep(max.terms, k, bag);
      ScanBounds(max.terms, k + 1, bag);
      BagTerms(min.terms, be.term);
      if be.term in min.termMap {
        var minFreq := min.termMap[be.term];
        sharedTokens := sharedTokens + (if minFreq < be.frequency then minFreq else be.frequency);
      }
      remainingTokens := remainingTokens - be.frequency;
      if sharedTokens >= threshold {
        return true, false;
      }
      if sharedTokens + remainingTokens < threshold {
        return false, false;
      }
    }
    if min.terms != [] {
      NonemptyBag(min.terms);
    }
    return sharedTokens >= threshold, true;
  }

  lemma NonemptyBag(terms: seq<TermFrequency>)
    requires WellFormed(terms) && terms != []
    ensures |Bag(terms)| > 0
  {
    BagTerms(terms, terms[0].term);
  }

  lemma ScanEnds(terms: seq<TermFrequency>, b: multiset<string>)
    ensures SharedIn(terms, 0, b) == 0 && TokensFrom(terms, 0) == |Bag(terms)|
    ensures SharedIn(terms, |terms|, b) == |Bag(terms) * b| && TokensFrom(terms, |terms|) == 0
  {
    assert terms[0..] == terms && terms[..|terms|] == terms;
    assert multiset{} * b == multiset{};
  }

  lemma ScanStep(terms: seq<TermFrequency>, k: nat, b: multiset<string>)
    requires WellFormed(terms) && k < |terms|
    ensures SharedIn(terms, k + 1, b) == SharedIn(terms, k, b)
                                       + (if terms[k].frequency < b[terms[k].term] then terms[k].frequency else b[terms[k].term])
    ensures TokensFrom(terms, k) == terms[k].frequency + TokensFrom(terms, k + 1)
  {
    assert terms[..k + 1][..k] == terms[..k];
    BagTerms(terms[..k], terms[k].term);
    SharedStep(Bag(terms[..k]), terms[k], b);
    CopiesCount(terms[k], b);
    TokensStep(terms, k);
  }

  lemma TokensStep(terms: seq<TermFrequency>, k: nat)
    requires k < |terms|
    ensures TokensFrom(terms, k) == terms[k].frequency + TokensFrom(terms, k + 1)
  {
    assert terms[k..] == [terms[k]] + terms[k + 1..];
    BagConcat([terms[k]], terms[k + 1..]);
    CopiesCount(terms[k], multiset{});
    assert [terms[k]][..0] == [] && Bag([terms[k]]) == Copies(terms[k]);
  }

  lemma ScanBounds(terms: seq<TermFrequency>, k: nat, b: multiset<string>)
    requires k <= |terms|
    ensures SharedIn(terms, k, b) <= |Bag(terms) * b| <= SharedIn(terms, k, b) + TokensFrom(terms, k)
  {
    assert terms == terms[..k] + terms[k..];
    BagConcat(terms[..k], terms[k..]);
    SharedBounds(Bag(terms[..k]), Bag(terms[k..]), b);
  }

  ghost predicate PrefixesShareTerm(p: Block, q: Block) {
    exists t :: PrefixTerm(p, t) && PrefixTerm(q, t)
  }

  // The candidate set of detectClones: every indexed block with a prefix term of q.
  method Candidates(q: Block, index: Index, ghost blocks: set<Block>) returns (candidates: set<Block>)
    requires index.Holds(blocks) && ValidBlock(q)
    requires forall i, j :: 0 <= i < j < |q.terms| && q.inPrefix[j] ==> q.inPrefix[i]
    ensures candidates <= blocks
    ensures forall b :: b in candidates <==> b in blocks && PrefixesShareTerm(q, b)
  {
    candidates := {};
    var k := 0;
    while k < |q.terms| && q.inPrefix[k]
      invariant k <= |q.terms|
      invariant forall i :: 0 <= i < k ==> q.inPrefix[i]
      invariant forall b :: b in candidates ==> b in blocks && PrefixesShareTerm(q, b)
      invariant forall b, i :: b in blocks && 0 <= i < k && PrefixTerm(b, q.terms[i].term) ==> b in candidates
    {
      var term := q.terms[k].term;
      if term in index.lists {
        forall b | b in index.lists[term] ensures b in blocks && PrefixesShareTerm(q, b) {
          assert PrefixTerm(q, term) && PrefixTerm(b, term);
        }
        candidates := candidates + (set b | b in index.lists[term]);
      }
      k := k + 1;
    }
    forall b | b in blocks && PrefixesShareTerm(q, b) ensures b in candidates {
      var t :| PrefixTerm(q, t) && PrefixTerm(b, t);
      var i :| 0 <= i < |q.terms| && q.inPrefix[i] && q.terms[i].term == t;
      assert i < k;
    }
  }

  function ClonesOf(q: Block, found: seq<Block>): seq<Clone> {
    seq(|found|, k requires 0 <= k < |found| =>
      MakeClone(q.fileid, q.startline, q.endline, found[k].fileid, found[k].startline, found[k].endline))
  }

  // The blocks that are clones of q and share a prefix term with it, each once.
  ghost predicate Found(q: Block, blocks: set<Block>, sim: real, found: seq<Block>) {
    && (forall i, j :: 0 <= i < j < |found| ==> found[i] != found[j])
    && (forall b :: b in found <==> b in blocks && PrefixesShareTerm(q, b) && ClonePair(q, b, sim))
  }

  // detectClones: the clones of q in the index, each once, in no particular order.
  method DetectClones(q: Block, index: Index, sim: real, ghost blocks: set<Block>) returns (clones: seq<Clone>)
    requires Prefixed(q, sim) && index.Holds(blocks)
    requires forall b :: b in blocks ==> ValidBlock(b)
    ensures exists found :: Found(q, blocks, sim, found) && clones == ClonesOf(q, found)
  {
    hide PrefixesShareTerm, ClonePair, Prefixed, ValidBlock, index.Holds;
    PrefixIsInitial(q, sim);
    var candidates := Candidates(q, index, blocks);
    clones := [];
    ghost var found: seq<Block> := [];
    var rest := candidates;
    while rest != {}
      invariant rest <= candidates && clones == ClonesOf(q, found)
      invariant forall i, j :: 0 <= i < j < |found| ==> found[i] != found[j]
      invariant forall b :: b in found <==> b in candidates - rest && ClonePair(q, b, sim)
      decreases rest
    {
      var c :| c in rest;
      rest := rest - {c};
      var isClone, _ := IsClone(q, c, sim);
      if isClone {
        clones := clones + [MakeClone(q.fileid, q.startline, q.endline, c.fileid, c.startline, c.endline)];
        found := found + [c];
      }
    }
    assert Found(q, blocks, sim, found);
  }

  lemma PrefixIsInitial(b: Block, sim: real)
    requires Prefixed(b, sim)
    ensures ValidBlock(b) && forall i, j :: 0 <= i < j < |b.terms| && b.inPrefix[j] ==> b.inPrefix[i]
  {
    forall i, j | 0 <= i < j < |b.terms| && b.inPrefix[j] ensures b.inPrefix[i] {
      assert b.terms[..j] == b.terms[..i] + b.terms[i..j];
      BagConcat(b.terms[..i], b.terms[i..j]);
      SizeMonotone(Bag(b.terms[..i]), Bag(b.terms[..j]));
    }
  }

  // Looking only at shared prefix terms changes nothing but the pairs without any
  // shared token.
  lemma DetectsExactly(gtf: map<string, nat>, q: Block, c: Block, sim: real)
    requires Prefixed(q, sim) && Prefixed(c, sim) && Sorted(gtf, q.terms) && Sorted(gtf, c.terms)
    ensures PrefixesShareTerm(q, c) && ClonePair(q, c, sim)
       <==> q.id >= c.id && !Overlaps(q, c) && Reportable(Bag(q.terms), Bag(c.terms), sim)
  {
    if PrefixesShareTerm(q, c) {
      var t :| PrefixTerm(q, t) && PrefixTerm(c, t);
      MeetingShares(q, c, t);
    }
    if Reportable(Bag(q.terms), Bag(c.terms), sim) {
      PrefixesMeet(gtf, q, c, sim);
    }
  }
}
