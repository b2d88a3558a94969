// Whole runs of the detector: one index over everything, or one partition of the
// input after another.
module ClonePipeline {
  import opened TermBags
  import opened CloneModel
  import opened CloneDetection

  datatype Requirements = Requirements(minLines: int, maxLines: int, minTokens: int, maxTokens: int)

  const INT_MAX: int := 0x7FFF_FFFF

  // SizeRequirements: a maximum of zero means no maximum.
  predicate Approves(req: Requirements, b: InputBlock) {
    var maxLines := if req.maxLines != 0 then req.maxLines else INT_MAX;
    var maxTokens := if req.maxTokens != 0 then req.maxTokens else INT_MAX;
    && req.minTokens <= b.numOriginalTokens <= maxTokens
    && req.minLines <= b.endline - b.startline + 1 <= maxLines
  }

  // A block passes if it has enough tokens and lines, and not too many where a maximum is set.
  lemma ApprovesMeans(req: Requirements, b: InputBlock)
    requires b.numOriginalTokens <= INT_MAX && b.endline - b.startline < INT_MAX
    ensures Approves(req, b) <==>
      && !(b.numOriginalTokens < req.minTokens) && !(b.endline < b.startline + req.minLines - 1)
      && (req.maxTokens == 0 || !(b.numOriginalTokens > req.maxTokens))
      && (req.maxLines == 0 || !(b.endline >= b.startline + req.maxLines))
  {
  }

  // What the block writer guarantees: ids are unique, and term lists are term lists.
  ghost predicate ValidInput(inputs: seq<InputBlock>) {
    && (forall i :: 0 <= i < |inputs| ==> WellFormed(inputs[i].tokens))
    && (forall i, j :: 0 <= i < j < |inputs| ==> inputs[i].id != inputs[j].id)
  }

  predicate InputsOverlap(a: InputBlock, b: InputBlock) {
    DoesOverlap(a.fileid, a.startline, a.endline, b.fileid, b.startline, b.endline)
  }

  // The pairs a run is meant to report, found by the block with the larger id.
  ghost predicate Wanted(inputs: seq<InputBlock>, req: Requirements, sim: real, i: nat, j: nat) {
    && i < |inputs| && j < |inputs|
    && Approves(req, inputs[i]) && Approves(req, inputs[j])
    && inputs[i].id >= inputs[j].id
    && !InputsOverlap(inputs[i], inputs[j])
    && Reportable(Bag(inputs[i].tokens), Bag(inputs[j].tokens), sim)
  }

  function CloneOf(a: InputBlock, b: InputBlock): Clone {
    MakeClone(a.fileid, a.startline, a.endline, b.fileid, b.startline, b.endline)
  }

  ghost predicate NoDuplicates(pairs: seq<(nat, nat)>) {
    forall m, n :: 0 <= m < n < |pairs| ==> pairs[m] != pairs[n]
  }

  ghost predicate WrittenAs(inputs: seq<InputBlock>, pairs: seq<(nat, nat)>, clones: seq<Clone>) {
    |clones| == |pairs| && forall n :: 0 <= n < |pairs| ==>
      pairs[n].0 < |inputs| && pairs[n].1 < |inputs| && clones[n] == CloneOf(inputs[pairs[n].0], inputs[pairs[n].1])
  }

  // Block b is input ib, approved, sorted and prefixed.
  ghost predicate MadeFrom(ib: InputBlock, req: Requirements, gtf: map<string, nat>, sim: real, b: Block) {
    Approves(req, ib) && SameBlock(ib, b) && Prefixed(b, sim) && Sorted(gtf, b.terms)
  }

  // The blocks made from the approved inputs from lo up to hi: queue[k] is made
  // from input from[k].
  ghost predicate Indexed(inputs: seq<InputBlock>, req: Requirements, gtf: map<string, nat>, sim: real,
                          lo: nat, hi: nat, queue: seq<Block>, from: seq<nat>)
  {
    && lo <= hi <= |inputs| && |queue| == |from|
    && (forall k, l :: 0 <= k < l < |from| ==> from[k] != from[l])
    && (forall i :: i in from <==> lo <= i < hi && Approves(req, inputs[i]))
    && (forall k :: 0 <= k < |queue| ==> from[k] < |inputs| && MadeFrom(inputs[from[k]], req, gtf, sim, queue[k]))
  }

  ghost function Blocks(queue: seq<Block>): set<Block> {
    set b | b in queue
  }

  // Every block of the index was made from one input.
  lemma OriginOf(inputs: seq<InputBlock>, req: Requirements, gtf: map<string, nat>, sim: real,
                 lo: nat, hi: nat, queue: seq<Block>, from: seq<nat>, b: Block) returns (j: nat)
    requires Indexed(inputs, req, gtf, sim, lo, hi, queue, from) && b in Blocks(queue)
    ensures lo <= j < hi <= |inputs| && MadeFrom(inputs[j], req, gtf, sim, b)
  {
    var k :| 0 <= k < |queue| && queue[k] == b;
    j := from[k];
    assert j in from;
  }

  lemma BlockOf(inputs: seq<InputBlock>, req: Requirements, gtf: map<string, nat>, sim: real,
                lo: nat, hi: nat, queue: seq<Block>, from: seq<nat>, j: nat) returns (b: Block)
    requires Indexed(inputs, req, gtf, sim, lo, hi, queue, from) && lo <= j < hi && Approves(req, inputs[j])
    ensures b in Blocks(queue) && MadeFrom(inputs[j], req, gtf, sim, b)
  {
    assert j in from;
    var k :| 0 <= k < |from| && from[k] == j;
    b := queue[k];
  }

  lemma DifferentInputs(inputs: seq<InputBlock>, req: Requirements, gtf: map<string, nat>, sim: real,
                        lo: nat, hi: nat, queue: seq<Block>, from: seq<nat>, j: nat, k: nat, b: Block, c: Block)
    requires ValidInput(inputs) && Indexed(inputs, req, gtf, sim, lo, hi, queue, from)
    requires b in Blocks(queue) && c in Blocks(queue) && b != c
    requires j < |inputs| && k < |inputs| && SameBlock(inputs[j], b) && SameBlock(inputs[k], c)
    ensures j != k
  {
    hide Prefixed, Sorted, Approves, WellFormed, Bag;
    var m :| 0 <= m < |queue| && queue[m] == b;
    var n :| 0 <= n < |queue| && queue[n] == c;
    assert MadeFrom(inputs[from[m]], req, gtf, sim, b) && MadeFrom(inputs[from[n]], req, gtf, sim, c);
    OneInput(inputs, from[m], j, b);
    OneInput(inputs, from[n], k, c);
  }

  lemma OneInput(inputs: seq<InputBlock>, j: nat, k: nat, b: Block)
    requires ValidInput(inputs) && j < |inputs| && k < |inputs|
    requires SameBlock(inputs[j], b) && SameBlock(inputs[k], b)
    ensures j == k
  {
  }

  // Finding block c with block q is finding a wanted pair of inputs.
  lemma FoundIsWanted(inputs: seq<InputBlock>, req: Requirements, gtf: map<string, nat>, sim: real,
                      q: Block, i: nat, c: Block, j: nat)
    requires i < |inputs| && MadeFrom(inputs[i], req, gtf, sim, q)
    requires j < |inputs| && MadeFrom(inputs[j], req, gtf, sim, c)
    ensures PrefixesShareTerm(q, c) && ClonePair(q, c, sim) <==> Wanted(inputs, req, sim, i, j)
  {
    hide Prefixed, Sorted, PrefixesShareTerm, ClonePair, Reportable;
    DetectsExactly(gtf, q, c, sim);
  }

  lemma BlocksValid(inputs: seq<InputBlock>, req: Requirements, gtf: map<string, nat>, sim: real,
                    lo: nat, hi: nat, queue: seq<Block>, from: seq<nat>)
    requires Indexed(inputs, req, gtf, sim, lo, hi, queue, from)
    ensures forall b :: b in Blocks(queue) ==> ValidBlock(b)
  {
    forall b | b in Blocks(queue) ensures ValidBlock(b) {
      var j := OriginOf(inputs, req, gtf, sim, lo, hi, queue, from, b);
    }
  }

  // Queries the index with the block made from input i.
  method Query(inputs: seq<InputBlock>, req: Requirements, gtf: TermCounts, sim: real, index: Index,
               ghost lo: nat, ghost hi: nat, ghost queue: seq<Block>, ghost from: seq<nat>, q: Block, ghost i: nat)
    returns (clones: seq<Clone>, ghost pairs: seq<(nat, nat)>)
    requires ValidInput(inputs) && i < |inputs| && MadeFrom(inputs[i], req, gtf.counts, sim, q)
    requires index.Holds(Blocks(queue)) && Indexed(inputs, req, gtf.counts, sim, lo, hi, queue, from)
    ensures WrittenAs(inputs, pairs, clones) && NoDuplicates(pairs)
    ensures forall a: nat, b: nat :: (a, b) in pairs <==> a == i && lo <= b < hi && Wanted(inputs, req, sim, a, b)
  {
    assert Prefixed(q, sim);
    hide *;
    BlocksValid(inputs, req, gtf.counts, sim, lo, hi, queue, from);
    clones := DetectClones(q, index, sim, Blocks(queue));
    ghost var found :| Found(q, Blocks(queue), sim, found) && clones == ClonesOf(q, found);
    pairs := PairUp(inputs, req, gtf.counts, sim, lo, hi, queue, from, q, i, found);
  }

  ghost predicate Matched(inputs: seq<InputBlock>, req: Requirements, sim: real, lo: nat, hi: nat,
                          i: nat, j: nat, c: Block) {
    lo <= j < hi <= |inputs| && SameBlock(inputs[j], c) && Wanted(inputs, req, sim, i, j)
  }

  lemma MatchOne(inputs: seq<InputBlock>, req: Requirements, gtf: map<string, nat>, sim: real,
                 lo: nat, hi: nat, queue: seq<Block>, from: seq<nat>, q: Block, i: nat, c: Block)
    returns (j: nat)
    requires i < |inputs| && MadeFrom(inputs[i], req, gtf, sim, q)
    requires Indexed(inputs, req, gtf, sim, lo, hi, queue, from)
    requires c in Blocks(queue) && PrefixesShareTerm(q, c) && ClonePair(q, c, sim)
    ensures Matched(inputs, req, sim, lo, hi, i, j, c)
  {
    hide Prefixed, Sorted, PrefixesShareTerm, ClonePair, Wanted, Approves;
    j := OriginOf(inputs, req, gtf, sim, lo, hi, queue, from, c);
    FoundIsWanted(inputs, req, gtf, sim, q, i, c, j);
  }

  // The inputs the found blocks were made from.
  lemma MatchAll(inputs: seq<InputBlock>, req: Requirements, gtf: map<string, nat>, sim: real,
                 lo: nat, hi: nat, queue: seq<Block>, from: seq<nat>, q: Block, i: nat, found: seq<Block>)
    returns (js: seq<nat>)
    requires i < |inputs| && MadeFrom(inputs[i], req, gtf, sim, q)
    requires Indexed(inputs, req, gtf, sim, lo, hi, queue, from)
    requires forall b :: b in found ==> b in Blocks(queue) && PrefixesShareTerm(q, b) && ClonePair(q, b, sim)
    ensures |js| == |found| && forall n :: 0 <= n < |js| ==> Matched(inputs, req, sim, lo, hi, i, js[n], found[n])
  {
    hide *;
    js := [];
    for k := 0 to |found|
      invariant |js| == k && forall n :: 0 <= n < k ==> Matched(inputs, req, sim, lo, hi, i, js[n], found[n])
    {
      assert found[k] in found;
      var j := MatchOne(inputs, req, gtf, sim, lo, hi, queue, from, q, i, found[k]);
      js := js + [j];
    }
  }

  lemma MatchFor(inputs: seq<InputBlock>, req: Requirements, gtf: map<string, nat>, sim: real,
                 lo: nat, hi: nat, queue: seq<Block>, from: seq<nat>, q: Block, i: nat,
                 found: seq<Block>, js: seq<nat>, b: nat)
    returns (k: nat)
    requires ValidInput(inputs) && i < |inputs| && MadeFrom(inputs[i], req, gtf, sim, q)
    requires Indexed(inputs, req, gtf, sim, lo, hi, queue, from)
    requires forall c :: c in found <==> c in Blocks(queue) && PrefixesShareTerm(q, c) && ClonePair(q, c, sim)
    requires |js| == |found| && forall n :: 0 <= n < |js| ==> Matched(inputs, req, sim, lo, hi, i, js[n], found[n])
    requires lo <= b < hi && Wanted(inputs, req, sim, i, b)
    ensures k < |js| && js[k] == b
  {
    var c := BlockOf(inputs, req, gtf, sim, lo, hi, queue, from, b);
    FoundIsWanted(inputs, req, gtf, sim, q, i, c, b);
    hide Indexed, ValidInput, Prefixed, Sorted, PrefixesShareTerm, ClonePair, Wanted, Approves;
    k :| 0 <= k < |found| && found[k] == c;
    OneInput(inputs, b, js[k], c);
  }

  // The found blocks, as pairs of inputs.
  lemma PairUp(inputs: seq<InputBlock>, req: Requirements, gtf: map<string, nat>, sim: real,
               lo: nat, hi: nat, queue: seq<Block>, from: seq<nat>, q: Block, i: nat, found: seq<Block>)
    returns (pairs: seq<(nat, nat)>)
    requires ValidInput(inputs) && i < |inputs| && MadeFrom(inputs[i], req, gtf, sim, q)
    requires Indexed(inputs, req, gtf, sim, lo, hi, queue, from)
    requires Found(q, Blocks(queue), sim, found)
    ensures WrittenAs(inputs, pairs, ClonesOf(q, found)) && NoDuplicates(pairs)
    ensures forall a: nat, b: nat :: (a, b) in pairs <==> a == i && lo <= b < hi && Wanted(inputs, req, sim, a, b)
  {
    var js := MatchAll(inputs, req, gtf, sim, lo, hi, queue, from, q, i, found);
    pairs := seq(|js|, k requires 0 <= k < |js| => (i, js[k]));
    hide Indexed, ValidInput, Prefixed, Sorted, PrefixesShareTerm, ClonePair, Wanted, Approves, Bag, MakeClone;
    forall m, n | 0 <= m < n < |pairs| ensures pairs[m] != pairs[n] {
      assert found[m] in found && found[n] in found;
      DifferentInputs(inputs, req, gtf, sim, lo, hi, queue, from, js[m], js[n], found[m], found[n]);
    }
    forall b: nat | lo <= b < hi && Wanted(inputs, req, sim, i, b) ensures (i, b) in pairs {
      var k := MatchFor(inputs, req, gtf, sim, lo, hi, queue, from, q, i, found, js, b);
      assert pairs[k] == (i, b);
    }
  }

  // The output of the queries made from a set of inputs, against an index over
  // the inputs from lo up to hi.
  ghost predicate PairsFor(inputs: seq<InputBlock>, req: Requirements, sim: real, lo: nat, hi: nat,
                           asked: set<nat>, pairs: seq<(nat, nat)>, clones: seq<Clone>)
  {
    && WrittenAs(inputs, pairs, clones) && NoDuplicates(pairs)
    && (forall a: nat, b: nat :: (a, b) in pairs <==> a in asked && lo <= b < hi && Wanted(inputs, req, sim, a, b))
  }

  lemma AppendQuery(inputs: seq<InputBlock>, req: Requirements, sim: real, lo: nat, hi: nat, asked: set<nat>,
                    pairs: seq<(nat, nat)>, clones: seq<Clone>, i: nat, more: seq<(nat, nat)>, moreClones: seq<Clone>)
    requires PairsFor(inputs, req, sim, lo, hi, asked, pairs, clones)
    requires i !in asked && WrittenAs(inputs, more, moreClones) && NoDuplicates(more)
    requires forall a: nat, b: nat :: (a, b) in more <==> a == i && lo <= b < hi && Wanted(inputs, req, sim, a, b)
    ensures PairsFor(inputs, req, sim, lo, hi, asked + {i}, pairs + more, clones + moreClones)
  {
    hide Wanted;
    forall m, n | 0 <= m < n < |pairs + more| ensures (pairs + more)[m] != (pairs + more)[n] {
      if m < |pairs| <= n {
        assert pairs[m] in pairs && more[n - |pairs|] in more;
        assert pairs[m] == (pairs[m].0, pairs[m].1) && more[n - |pairs|] == (more[n - |pairs|].0, more[n - |pairs|].1);
      }
    }
  }

  lemma IndexedStep(inputs: seq<InputBlock>, req: Requirements, gtf: map<string, nat>, sim: real,
                    lo: nat, j: nat, b: Block, queue: seq<Block>, from: seq<nat>)
    requires j < |inputs| && Indexed(inputs, req, gtf, sim, lo, j, queue, from)
    requires MadeFrom(inputs[j], req, gtf, sim, b)
    ensures Indexed(inputs, req, gtf, sim, lo, j + 1, queue + [b], from + [j])
    ensures Blocks(queue + [b]) == Blocks(queue) + {b}
  {
  }

  // BlockIndexer.run over the inputs from lo up to hi.
  method IndexBlocks(inputs: seq<InputBlock>, req: Requirements, gtf: TermCounts, sim: real, lo: nat, hi: nat)
    returns (index: Index, queue: seq<Block>, ghost from: seq<nat>)
    requires ValidInput(inputs) && lo <= hi <= |inputs|
    ensures fresh(index) && index.Holds(Blocks(queue))
    ensures Indexed(inputs, req, gtf.counts, sim, lo, hi, queue, from)
  {
    index := new Index();
    queue, from := [], [];
    assert Blocks(queue) == {};
    ghost var counts := gtf.counts;
    for j := lo to hi
      invariant fresh(index) && index.Holds(Blocks(queue)) && gtf.counts == counts
      invariant Indexed(inputs, req, counts, sim, lo, j, queue, from)
    {
      if Approves(req, inputs[j]) {
        var b := Prepare(gtf, inputs[j], sim);
        IndexedStep(inputs, req, counts, sim, lo, j, b, queue, from);
        index.Put(b, Blocks(queue));
        queue, from := queue + [b], from + [j];
      }
    }
  }

  // The queries from the indexed blocks themselves.
  method QueryIndexed(inputs: seq<InputBlock>, req: Requirements, gtf: TermCounts, sim: real, index: Index,
                      lo: nat, hi: nat, queue: seq<Block>, ghost from: seq<nat>)
    returns (clones: seq<Clone>, ghost pairs: seq<(nat, nat)>)
    requires ValidInput(inputs)
    requires index.Holds(Blocks(queue)) && Indexed(inputs, req, gtf.counts, sim, lo, hi, queue, from)
    ensures PairsFor(inputs, req, sim, lo, hi, Asked(from), pairs, clones)
  {
    clones, pairs := [], [];
    NothingAsked(inputs, req, sim, lo, hi);
    ghost var asked: set<nat> := {};
    hide Wanted, MadeFrom, PairsFor, WrittenAs, NoDuplicates, Approves, ValidInput;
    for k := 0 to |queue|
      invariant PairsFor(inputs, req, sim, lo, hi, asked, pairs, clones)
      invariant forall i :: i in asked <==> i in from[..k]
    {
      var more; ghost var morePairs;
      more, morePairs := Query(inputs, req, gtf, sim, index, lo, hi, queue, from, queue[k], from[k]);
      AppendQuery(inputs, req, sim, lo, hi, asked, pairs, clones, from[k], morePairs, more);
      clones, pairs, asked := clones + more, pairs + morePairs, asked + {from[k]};
    }
    assert from[..|queue|] == from;
    assert asked == Asked(from);
  }

  ghost function Asked(from: seq<nat>): set<nat> {
    set i | i in from
  }

  // The inputs queried once all before i have been looked at.
  ghost function AskedBefore(inputs: seq<InputBlock>, req: Requirements, lo: nat, i: nat): set<nat>
    requires i <= |inputs|
  {
    set a | lo <= a < i && Approves(req, inputs[a])
  }

  lemma AskedIndexed(inputs: seq<InputBlock>, req: Requirements, gtf: map<string, nat>, sim: real,
                     lo: nat, hi: nat, queue: seq<Block>, from: seq<nat>)
    requires Indexed(inputs, req, gtf, sim, lo, hi, queue, from)
    ensures Asked(from) == AskedBefore(inputs, req, lo, hi)
  {
  }

  lemma AskedStep(inputs: seq<InputBlock>, req: Requirements, lo: nat, i: nat)
    requires lo <= i < |inputs|
    ensures AskedBefore(inputs, req, lo, i + 1) == AskedBefore(inputs, req, lo, i) + (if Approves(req, inputs[i]) then {i} else {})
    ensures !Approves(req, inputs[i]) ==> AskedBefore(inputs, req, lo, i + 1) == AskedBefore(inputs, req, lo, i)
    ensures i !in AskedBefore(inputs, req, lo, i)
  {
  }

  // One index, queried by the blocks in it and by every block after them.
  method Round(inputs: seq<InputBlock>, req: Requirements, sim: real, lo: nat, hi: nat)
    returns (clones: seq<Clone>, ghost pairs: seq<(nat, nat)>)
    requires ValidInput(inputs) && lo <= hi <= |inputs|
    ensures WrittenAs(inputs, pairs, clones) && NoDuplicates(pairs)
    ensures forall a: nat, b: nat :: (a, b) in pairs <==> lo <= a && lo <= b < hi && Wanted(inputs, req, sim, a, b)
  {
    forall i | 0 <= i < |inputs| ensures WellFormed(inputs[i].tokens) {}
    hide *;
    var gtf := BuildTermCounts(inputs[lo..hi]);
    var index, queue;
    ghost var from;
    index, queue, from := IndexBlocks(inputs, req, gtf, sim, lo, hi);
    clones, pairs := QueryIndexed(inputs, req, gtf, sim, index, lo, hi, queue, from);
    AskedIndexed(inputs, req, gtf.counts, sim, lo, hi, queue, from);
    for i := hi to |inputs|
      invariant index.Holds(Blocks(queue)) && Indexed(inputs, req, gtf.counts, sim, lo, hi, queue, from)
      invariant PairsFor(inputs, req, sim, lo, hi, AskedBefore(inputs, req, lo, i), pairs, clones)
    {
      AskedStep(inputs, req, lo, i);
      if Approves(req, inputs[i]) {
        var q := Prepare(gtf, inputs[i], sim);
        IsMadeFrom(inputs[i], req, gtf.counts, sim, q);
        var more; ghost var morePairs;
        more, morePairs := Query(inputs, req, gtf, sim, index, lo, hi, queue, from, q, i);
        AppendQuery(inputs, req, sim, lo, hi, AskedBefore(inputs, req, lo, i), pairs, clones, i, morePairs, more);
        clones, pairs := clones + more, pairs + morePairs;
      }
    }
    AllAsked(inputs, req, sim, lo, hi, pairs, clones);
  }

  lemma NothingAsked(inputs: seq<InputBlock>, req: Requirements, sim: real, lo: nat, hi: nat)
    ensures PairsFor(inputs, req, sim, lo, hi, {}, [], [])
  {
  }

  lemma IsMadeFrom(ib: InputBlock, req: Requirements, gtf: map<string, nat>, sim: real, b: Block)
    requires Approves(req, ib) && SameBlock(ib, b) && Prefixed(b, sim) && Sorted(gtf, b.terms)
    ensures MadeFrom(ib, req, gtf, sim, b)
  {
  }

  lemma AllAsked(inputs: seq<InputBlock>, req: Requirements, sim: real, lo: nat, hi: nat,
                 pairs: seq<(nat, nat)>, clones: seq<Clone>)
    requires PairsFor(inputs, req, sim, lo, hi, AskedBefore(inputs, req, lo, |inputs|), pairs, clones)
    ensures WrittenAs(inputs, pairs, clones) && NoDuplicates(pairs)
    ensures forall a: nat, b: nat :: (a, b) in pairs <==> lo <= a && lo <= b < hi && Wanted(inputs, req, sim, a, b)
  {
    hide Reportable, InputsOverlap;
  }

  // The clones written are the wanted pairs, each once, in some order.
  ghost predicate Reports(inputs: seq<InputBlock>, req: Requirements, sim: real, clones: seq<Clone>) {
    exists pairs: seq<(nat, nat)> :: Lists(inputs, req, sim, pairs, clones)
  }

  ghost predicate Lists(inputs: seq<InputBlock>, req: Requirements, sim: real, pairs: seq<(nat, nat)>, clones: seq<Clone>) {
    && WrittenAs(inputs, pairs, clones) && NoDuplicates(pairs)
    && forall a: nat, b: nat :: (a, b) in pairs <==> Wanted(inputs, req, sim, a, b)
  }

  // The same for partitions: a pair counts if its query stands in or after the
  // partition of the candidate.
  ghost predicate ReportsInPartitions(inputs: seq<InputBlock>, req: Requirements, sim: real, size: nat, clones: seq<Clone>)
    requires size > 0
  {
    exists pairs: seq<(nat, nat)> :: ListsInPartitions(inputs, req, sim, size, pairs, clones)
  }

  ghost predicate ListsInPartitions(inputs: seq<InputBlock>, req: Requirements, sim: real, size: nat,
                                    pairs: seq<(nat, nat)>, clones: seq<Clone>)
    requires size > 0
  {
    && WrittenAs(inputs, pairs, clones) && NoDuplicates(pairs)
    && forall a: nat, b: nat :: (a, b) in pairs <==> PartitionStart(b, size) <= a && Wanted(inputs, req, sim, a, b)
  }

  // SelfCloneDetection: one round over the whole input. Every wanted pair is
  // written, exactly once, and nothing else is.
  method Detect(inputs: seq<InputBlock>, req: Requirements, sim: real) returns (clones: seq<Clone>)
    requires ValidInput(inputs)
    ensures Reports(inputs, req, sim, clones)
  {
    ghost var pairs;
    clones, pairs := Round(inputs, req, sim, 0, |inputs|);
    EveryWantedIsBelow(inputs, req, sim);
    hide Wanted, WrittenAs, NoDuplicates;
    assert Lists(inputs, req, sim, pairs, clones);
  }

  // The first input of the partition that holds input b.
  function PartitionStart(b: nat, size: nat): (start: nat)
    requires size > 0
    ensures start <= b < start + size
  {
    if b < size then 0 else size + PartitionStart(b - size, size)
  }

  // SelfPartitionedCloneDetection: index one partition after another and query
  // each with its own blocks and the blocks after it.
  method DetectPartitioned(inputs: seq<InputBlock>, req: Requirements, sim: real, size: nat) returns (clones: seq<Clone>)
    requires ValidInput(inputs) && size > 0
    ensures ReportsInPartitions(inputs, req, sim, size, clones)
  {
    hide Wanted, PartitionStart;
    clones := [];
    ghost var pairs: seq<(nat, nat)> := [];
    var blockPosition, endReached := 0, false;
    ghost var round := 0;
    while !endReached
      invariant blockPosition == if endReached then |inputs| else round * size
      invariant blockPosition <= |inputs|
      invariant WrittenAs(inputs, pairs, clones) && NoDuplicates(pairs)
      invariant forall a: nat, b: nat :: (a, b) in pairs <==> b < blockPosition && PartitionStart(b, size) <= a && Wanted(inputs, req, sim, a, b)
      decreases !endReached, |inputs| - blockPosition
    {
      var next := blockPosition + size;
      endReached := next > |inputs|;
      if endReached {
        next := |inputs|;
      }
      var more; ghost var morePairs;
      more, morePairs := Round(inputs, req, sim, blockPosition, next);
      forall b: nat | blockPosition <= b < next ensures PartitionStart(b, size) == blockPosition {
        StartOf(b, round, size);
      }
      AppendRound(inputs, req, sim, size, blockPosition, next, pairs, clones, morePairs, more);
      clones, pairs := clones + more, pairs + morePairs;
      blockPosition, round := next, round + 1;
    }
    EveryWantedIsBelow(inputs, req, sim);
    assert ListsInPartitions(inputs, req, sim, size, pairs, clones);
  }

  lemma EveryWantedIsBelow(inputs: seq<InputBlock>, req: Requirements, sim: real)
    ensures forall a: nat, b: nat :: Wanted(inputs, req, sim, a, b) ==> b < |inputs|
  {
  }

  lemma {:induction false} StartOf(b: nat, round: nat, size: nat)
    requires size > 0 && round * size <= b < round * size + size
    ensures PartitionStart(b, size) == round * size
  {
    if round > 0 {
      assert round * size == (round - 1) * size + size;
      StartOf(b - size, round - 1, size);
    }
  }

  lemma AppendRound(inputs: seq<InputBlock>, req: Requirements, sim: real, size: nat, lo: nat, hi: nat,
                    pairs: seq<(nat, nat)>, clones: seq<Clone>, more: seq<(nat, nat)>, moreClones: seq<Clone>)
    requires size > 0 && lo <= hi
    requires WrittenAs(inputs, pairs, clones) && NoDuplicates(pairs)
    requires forall a: nat, b: nat :: (a, b) in pairs <==> b < lo && PartitionStart(b, size) <= a && Wanted(inputs, req, sim, a, b)
    requires WrittenAs(inputs, more, moreClones) && NoDuplicates(more)
    requires forall a: nat, b: nat :: (a, b) in more <==> lo <= a && lo <= b < hi && Wanted(inputs, req, sim, a, b)
    requires forall b: nat :: lo <= b < hi ==> PartitionStart(b, size) == lo
    ensures WrittenAs(inputs, pairs + more, clones + moreClones) && NoDuplicates(pairs + more)
    ensures forall a: nat, b: nat :: (a, b) in pairs + more <==> b < hi && PartitionStart(b, size) <= a && Wanted(inputs, req, sim, a, b)
  {
    hide Wanted, PartitionStart;
    forall m, n | 0 <= m < n < |pairs + more| ensures (pairs + more)[m] != (pairs + more)[n] {
      if m < |pairs| <= n {
        var x, y := pairs[m], more[n - |pairs|];
        assert (x.0, x.1) in pairs && (y.0, y.1) in more;
      }
    }
  }

  function Without<T>(s: seq<T>, k: nat): (r: seq<T>)
    requires k < |s|
    ensures |r| == |s| - 1
    ensures forall i :: 0 <= i < k ==> r[i] == s[i]
    ensures forall i :: k <= i < |r| ==> r[i] == s[i + 1]
  {
    s[..k] + s[k + 1..]
  }

  lemma WithoutBag<T>(s: seq<T>, k: nat)
    requires k < |s|
    ensures multiset(s) == multiset(Without(s, k)) + multiset{s[k]}
  {
    assert s == s[..k] + [s[k]] + s[k + 1..];
  }

  lemma WithoutPair(inputs: seq<InputBlock>, pairs: seq<(nat, nat)>, clones: seq<Clone>, k: nat)
    requires WrittenAs(inputs, pairs, clones) && k < |pairs|
    ensures WrittenAs(inputs, Without(pairs, k), Without(clones, k))
  {
    hide CloneOf;
  }

  lemma WithoutElement(pairs: seq<(nat, nat)>, k: nat)
    requires NoDuplicates(pairs) && k < |pairs|
    ensures NoDuplicates(Without(pairs, k))
    ensures forall x :: x in Without(pairs, k) <==> x in pairs && x != pairs[k]
  {
    var r := Without(pairs, k);
    forall x | x in pairs && x != pairs[k] ensures x in r {
      var i :| 0 <= i < |pairs| && pairs[i] == x;
      assert x == r[if i < k then i else i - 1];
    }
  }

  lemma {:induction false} SamePairs(inputs: seq<InputBlock>, pairs: seq<(nat, nat)>, clones: seq<Clone>,
                                     pairs': seq<(nat, nat)>, clones': seq<Clone>)
    requires WrittenAs(inputs, pairs, clones) && NoDuplicates(pairs)
    requires WrittenAs(inputs, pairs', clones') && NoDuplicates(pairs')
    requires forall x :: x in pairs <==> x in pairs'
    ensures multiset(clones) == multiset(clones')
    decreases |pairs|
  {
    assert pairs' != [] ==> pairs'[0] in pairs';
    if pairs != [] {
      assert pairs[0] in pairs;
      var k :| 0 <= k < |pairs'| && pairs'[k] == pairs[0];
      assert clones[0] == clones'[k];
      WithoutPair(inputs, pairs, clones, 0);
      WithoutPair(inputs, pairs', clones', k);
      WithoutElement(pairs, 0);
      WithoutElement(pairs', k);
      WithoutBag(clones, 0);
      WithoutBag(clones', k);
      hide WrittenAs, NoDuplicates, Without;
      SamePairs(inputs, Without(pairs, 0), Without(clones, 0), Without(pairs', k), Without(clones', k));
    }
  }

  // Any two runs that report the wanted pairs write the same clones.
  lemma SameReports(inputs: seq<InputBlock>, req: Requirements, sim: real, clones: seq<Clone>, clones': seq<Clone>)
    requires Reports(inputs, req, sim, clones) && Reports(inputs, req, sim, clones')
    ensures multiset(clones) == multiset(clones')
  {
    hide Wanted;
    var pairs :| Lists(inputs, req, sim, pairs, clones);
    var pairs' :| Lists(inputs, req, sim, pairs', clones');
    assert forall x: (nat, nat) :: x in pairs <==> (x.0, x.1) in pairs';
    SamePairs(inputs, pairs, clones, pairs', clones');
  }

  // The block writer numbers blocks in the order it writes them. Then partitions of
  // any size report what a single index reports.
  lemma PartitionsLoseNothing(inputs: seq<InputBlock>, req: Requirements, sim: real, size: nat, clones: seq<Clone>)
    requires size > 0
    requires forall a, b :: 0 <= a < b < |inputs| ==> inputs[a].id < inputs[b].id
    requires ReportsInPartitions(inputs, req, sim, size, clones)
    ensures Reports(inputs, req, sim, clones)
  {
    hide Reportable, InputsOverlap, Approves;
    var pairs :| ListsInPartitions(inputs, req, sim, size, pairs, clones);
    forall a: nat, b: nat | Wanted(inputs, req, sim, a, b) ensures PartitionStart(b, size) <= a {
      assert b <= a;
    }
    hide Wanted, WrittenAs, NoDuplicates;
    assert Lists(inputs, req, sim, pairs, clones);
  }

  ghost predicate LosesNothing(inputs: seq<InputBlock>, req: Requirements, sim: real, size: nat)
    requires size > 0
  {
    forall i: nat, j: nat :: Wanted(inputs, req, sim, i, j) ==> PartitionStart(j, size) <= i
  }

  lemma {:induction false} SubsetFits(p: seq<(nat, nat)>, q: seq<(nat, nat)>)
    requires NoDuplicates(p) && NoDuplicates(q) && |p| == |q| && forall x :: x in p ==> x in q
    ensures forall x :: x in q ==> x in p
    decreases |p|
  {
    if p != [] {
      assert p[0] in p;
      var k :| 0 <= k < |q| && q[k] == p[0];
      WithoutElement(p, 0);
      WithoutElement(q, k);
      SubsetFits(Without(p, 0), Without(q, k));
    }
  }

  // What a run with partitions writes is a report of all wanted pairs exactly when no
  // wanted pair is queried in front of its candidate's partition.
  lemma ReportsExactly(inputs: seq<InputBlock>, req: Requirements, sim: real, size: nat, clones: seq<Clone>)
    requires size > 0 && ReportsInPartitions(inputs, req, sim, size, clones)
    ensures Reports(inputs, req, sim, clones) <==> LosesNothing(inputs, req, sim, size)
  {
    hide Wanted;
    var pairs :| ListsInPartitions(inputs, req, sim, size, pairs, clones);
    if LosesNothing(inputs, req, sim, size) {
      assert Lists(inputs, req, sim, pairs, clones);
    }
    if Reports(inputs, req, sim, clones) {
      var all :| Lists(inputs, req, sim, all, clones);
      forall x: (nat, nat) | x in pairs ensures x in all {
        assert (x.0, x.1) in pairs;
      }
      SubsetFits(pairs, all);
    }
  }

  // ---- Which ids keep partitions from losing pairs ----

  // Blocks with the given ids, in this order, and any content.
  ghost predicate WithIds(inputs: seq<InputBlock>, ids: seq<nat>) {
    && |inputs| == |ids|
    && forall i :: 0 <= i < |ids| ==> inputs[i].id == ids[i] && WellFormed(inputs[i].tokens)
  }

  // With partitions of the given size, every run over blocks with these ids reports all
  // wanted pairs.
  ghost predicate NeverLoses(ids: seq<nat>, size: nat)
    requires size > 0
  {
    forall inputs, req, sim, clones ::
      WithIds(inputs, ids) && ReportsInPartitions(inputs, req, sim, size, clones) ==> Reports(inputs, req, sim, clones)
  }

  // No block has a larger id than one of a later partition.
  predicate IdsFit(ids: seq<nat>, size: nat)
    requires size > 0
  {
    forall i: nat, j: nat :: i < |ids| && j < |ids| && ids[i] > ids[j] ==> PartitionStart(j, size) <= i
  }

  predicate DistinctIds(ids: seq<nat>) {
    forall i: nat, j: nat :: i < j < |ids| ==> ids[i] != ids[j]
  }

  predicate AscendingIds(ids: seq<nat>) {
    forall i: nat, j: nat :: i < j < |ids| ==> ids[i] < ids[j]
  }

  // The same token in every block, and every block in a file of its own.
  function Alike(ids: seq<nat>): seq<InputBlock> {
    seq(|ids|, k requires 0 <= k < |ids| => InputBlock(ids[k], k, 1, 1, 1, [TermFrequency("t", 1)]))
  }

  const ANY: Requirements := Requirements(0, 0, 0, 0)

  lemma AlikeReportable()
    ensures var a := Bag([TermFrequency("t", 1)]); Reportable(a, a, 1.0)
  {
    var tf := TermFrequency("t", 1);
    BagOne(tf);
    CopiesCount(tf, Copies(tf));
    CopiesCount(tf, multiset{});
  }

  // Alike blocks are wanted pairs whenever the ids allow it.
  lemma AlikeWanted(ids: seq<nat>)
    ensures WithIds(Alike(ids), ids)
    ensures forall i: nat, j: nat :: Wanted(Alike(ids), ANY, 1.0, i, j) <==> i < |ids| && j < |ids| && i != j && ids[i] >= ids[j]
  {
    AlikeReportable();
    hide Reportable, Bag;
  }

  lemma {:induction false} InSomeOrder(s: set<(nat, nat)>) returns (p: seq<(nat, nat)>)
    ensures NoDuplicates(p) && forall x :: x in p <==> x in s
    decreases s
  {
    p := [];
    if s != {} {
      var x :| x in s;
      var rest := InSomeOrder(s - {x});
      p := [x] + rest;
    }
  }

  // A run with partitions has something to write, whatever the input.
  lemma SomeReport(inputs: seq<InputBlock>, req: Requirements, sim: real, size: nat) returns (clones: seq<Clone>)
    requires size > 0
    ensures ReportsInPartitions(inputs, req, sim, size, clones)
  {
    EveryWantedIsBelow(inputs, req, sim);
    var n := |inputs|;
    var s := set i: nat, j: nat | i < n && j < n && PartitionStart(j, size) <= i && Wanted(inputs, req, sim, i, j) :: (i, j);
    var pairs := InSomeOrder(s);
    assert forall k :: 0 <= k < |pairs| ==> pairs[k] in pairs;
    clones := seq(|pairs|, k requires 0 <= k < |pairs| => CloneOf(inputs[pairs[k].0], inputs[pairs[k].1]));
    assert forall i: nat, j: nat :: Wanted(inputs, req, sim, i, j) ==> i < n && j < n;
    hide Wanted, PartitionStart, CloneOf;
    assert ListsInPartitions(inputs, req, sim, size, pairs, clones);
  }

  // Partitions of a given size lose no pair, whatever the blocks contain, if and only if
  // the ids fit that size.
  lemma PartitionsLose(ids: seq<nat>, size: nat)
    requires DistinctIds(ids) && size > 0
    ensures NeverLoses(ids, size) <==> IdsFit(ids, size)
  {
    hide Reports, ReportsInPartitions;
    if IdsFit(ids, size) {
      forall inputs, req, sim, clones | WithIds(inputs, ids) && ReportsInPartitions(inputs, req, sim, size, clones)
        ensures Reports(inputs, req, sim, clones)
      {
        FittingLosesNothing(inputs, ids, req, sim, size);
        ReportsExactly(inputs, req, sim, size, clones);
      }
    }
    if NeverLoses(ids, size) {
      var inputs := Alike(ids);
      AlikeWanted(ids);
      var clones := SomeReport(inputs, ANY, 1.0, size);
      assert Reports(inputs, ANY, 1.0, clones);
      ReportsExactly(inputs, ANY, 1.0, size, clones);
      hide Wanted, Alike;
      forall i: nat, j: nat | i < |ids| && j < |ids| && ids[i] > ids[j] ensures PartitionStart(j, size) <= i {
        assert Wanted(inputs, ANY, 1.0, i, j);
      }
    }
  }

  lemma FittingLosesNothing(inputs: seq<InputBlock>, ids: seq<nat>, req: Requirements, sim: real, size: nat)
    requires DistinctIds(ids) && size > 0 && IdsFit(ids, size) && WithIds(inputs, ids)
    ensures LosesNothing(inputs, req, sim, size)
  {
    hide Reportable, InputsOverlap, Approves, WellFormed;
    forall i: nat, j: nat | Wanted(inputs, req, sim, i, j) ensures PartitionStart(j, size) <= i {
      assert inputs[i].id == ids[i] && inputs[j].id == ids[j];
    }
  }

  // They do so for every size if and only if ids ascend with the position.
  lemma AscendingNeverLoses(ids: seq<nat>)
    requires DistinctIds(ids)
    ensures (forall size: nat :: size > 0 ==> NeverLoses(ids, size)) <==> AscendingIds(ids)
  {
    hide NeverLoses;
    forall size: nat | size > 0 ensures NeverLoses(ids, size) <==> IdsFit(ids, size) {
      PartitionsLose(ids, size);
    }
    if AscendingIds(ids) {
      forall size: nat | size > 0 ensures IdsFit(ids, size) {
        forall i: nat, j: nat | i < |ids| && j < |ids| && ids[i] > ids[j] ensures PartitionStart(j, size) <= i {
          assert j <= i;
        }
      }
    }
    if forall size: nat :: size > 0 ==> NeverLoses(ids, size) {
      forall i: nat, j: nat | i < j < |ids| ensures ids[i] < ids[j] {
        assert NeverLoses(ids, j) && IdsFit(ids, j);
        assert PartitionStart(j, j) == j + PartitionStart(0, j);
      }
    }
  }

  // Two alike blocks with ids 1 and 0, in partitions of one block: the second partition
  // is never queried with the first block, so nothing is written, and a pair is lost.
  lemma TwoBlocksLost()
    ensures var inputs := Alike([1, 0]);
      ReportsInPartitions(inputs, ANY, 1.0, 1, []) && !Reports(inputs, ANY, 1.0, [])
  {
    var inputs := Alike([1, 0]);
    AlikeWanted([1, 0]);
    hide Wanted, Alike;
    assert PartitionStart(1, 1) == 1 + PartitionStart(0, 1);
    assert ListsInPartitions(inputs, ANY, 1.0, 1, [], []);
    ReportsExactly(inputs, ANY, 1.0, 1, []);
    assert Wanted(inputs, ANY, 1.0, 0, 1);
  }
}
