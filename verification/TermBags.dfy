// Term-frequency lists and the bags of tokens they stand for.
module TermBags {

  datatype TermFrequency = TermFrequency(term: string, frequency: nat)

  // The bag of tokens a list stands for.
  function Bag(tfs: seq<TermFrequency>): multiset<string> {
    if tfs == [] then multiset{}
    else Bag(tfs[..|tfs| - 1]) + Copies(tfs[|tfs| - 1])
  }

  function Copies(tf: TermFrequency): multiset<string> {
    multiset{}[tf.term := tf.frequency]
  }

  // What a parsed code block guarantees: no term twice, none with frequency zero.
  ghost predicate WellFormed(tfs: seq<TermFrequency>) {
    && (forall i, j :: 0 <= i < j < |tfs| ==> tfs[i].term != tfs[j].term)
    && (forall i :: 0 <= i < |tfs| ==> tfs[i].frequency > 0)
  }

  lemma {:induction false} BagConcat(a: seq<TermFrequency>, b: seq<TermFrequency>)
    ensures Bag(a + b) == Bag(a) + Bag(b)
  {
    if b == [] {
      assert a + b == a;
    } else {
      assert (a + b)[..|a + b| - 1] == a + b[..|b| - 1];
      BagConcat(a, b[..|b| - 1]);
    }
  }

  lemma {:induction false} BagTerms(tfs: seq<TermFrequency>, t: string)
    requires WellFormed(tfs)
    ensures t in Bag(tfs) <==> exists i :: 0 <= i < |tfs| && tfs[i].term == t
    ensures forall i :: 0 <= i < |tfs| && tfs[i].term == t ==> Bag(tfs)[t] == tfs[i].frequency
  {
    if tfs != [] {
      var front := tfs[..|tfs| - 1];
      BagTerms(front, t);
      if tfs[|tfs| - 1].term == t {
        assert forall i :: 0 <= i < |front| ==> front[i].term != t;
      } else {
        assert Bag(tfs)[t] == Bag(front)[t];
        forall i | 0 <= i < |tfs| && tfs[i].term == t ensures i < |front| && front[i].term == t {}
      }
    }
  }

  lemma CopiesCount(tf: TermFrequency, b: multiset<string>)
    ensures |Copies(tf)| == tf.frequency
    ensures |Copies(tf) * b| == if tf.frequency < b[tf.term] then tf.frequency else b[tf.term]
  {
    var n := if tf.frequency < b[tf.term] then tf.frequency else b[tf.term];
    assert Copies(tf) * b == multiset{}[tf.term := n];
  }

  // Scanning one more element of the list adds the smaller of its two frequencies.
  lemma SharedStep(a: multiset<string>, tf: TermFrequency, b: multiset<string>)
    requires tf.term !in a
    ensures |(a + Copies(tf)) * b| == |a * b| + |Copies(tf) * b|
  {
    assert (a + Copies(tf)) * b == a * b + Copies(tf) * b;
  }

  // The tokens still to be scanned bound what can still be shared.
  lemma SharedBounds(a: multiset<string>, rest: multiset<string>, b: multiset<string>)
    ensures |a * b| <= |(a + rest) * b| <= |a * b| + |rest|
  {
    var all := (a + rest) * b;
    assert all == a * b + (all - a * b);
    assert rest == (all - a * b) + (rest - (all - a * b));
  }

  lemma IntersectionSize(a: multiset<string>, b: multiset<string>)
    ensures a * b == b * a && |a * b| <= |a| && |a * b| <= |b|
  {
    assert a == a * b + (a - b);
    assert b == a * b + (b - a);
  }

  lemma SizeMonotone(a: multiset<string>, b: multiset<string>)
    requires a <= b
    ensures |a| <= |b|
  {
    assert b == a + (b - a);
  }

  lemma RemoveAt(b: seq<TermFrequency>, k: nat)
    requires k < |b|
    ensures Bag(b) == Bag(b[..k] + b[k + 1..]) + Copies(b[k])
  {
    hide Bag, Copies;
    var front, rest := b[..k], b[k + 1..];
    assert b == front + ([b[k]] + rest);
    BagConcat(front, [b[k]] + rest);
    BagConcat([b[k]], rest);
    BagConcat(front, rest);
    BagOne(b[k]);
  }

  lemma BagOne(tf: TermFrequency)
    ensures Bag([tf]) == Copies(tf)
  {
    assert [tf][..0] == [] && Bag([]) == multiset{};
  }

  lemma MultisetRemoveAt(b: seq<TermFrequency>, k: nat)
    requires k < |b|
    ensures multiset(b[..k] + b[k + 1..]) == multiset(b) - multiset{b[k]}
  {
    assert b == b[..k] + [b[k]] + b[k + 1..];
  }

  lemma {:induction false} BagPermutation(a: seq<TermFrequency>, b: seq<TermFrequency>)
    requires multiset(a) == multiset(b)
    ensures Bag(a) == Bag(b)
    decreases |a|
  {
    if a == [] {
      assert |multiset(b)| == 0;
    } else {
      var n := |a| - 1;
      assert a[n] in multiset(a);
      var k :| 0 <= k < |b| && b[k] == a[n];
      RemoveAt(a, n);
      RemoveAt(b, k);
      MultisetRemoveAt(a, n);
      MultisetRemoveAt(b, k);
      BagPermutation(a[..n] + a[n + 1..], b[..k] + b[k + 1..]);
    }
  }

  // The InputBlock constructor: a list of tokens becomes a list of terms with their
  // frequencies, in no particular order, standing for the same bag.
  method CountTerms(tokens: seq<string>) returns (tfs: seq<TermFrequency>)
    ensures WellFormed(tfs) && Bag(tfs) == multiset(tokens)
  {
    var counts: map<string, nat> := map[];
    for i := 0 to |tokens|
      invariant forall t :: t in counts <==> t in multiset(tokens[..i])
      invariant forall t :: t in counts ==> counts[t] == multiset(tokens[..i])[t]
    {
      assert tokens[..i + 1] == tokens[..i] + [tokens[i]];
      var t := tokens[i];
      counts := counts[t := (if t in counts then counts[t] + 1 else 1)];
    }
    assert tokens[..|tokens|] == tokens;
    tfs := ListCounts(counts);
  }

  method ListCounts(counts: map<string, nat>) returns (tfs: seq<TermFrequency>)
    requires forall t :: t in counts ==> counts[t] > 0
    ensures WellFormed(tfs)
    ensures forall t :: Bag(tfs)[t] == if t in counts then counts[t] else 0
  {
    tfs := [];
    var rest := counts.Keys;
    ghost var done: set<string> := {};
    WellFormedEmpty();
    while rest != {}
      invariant rest !! done && rest + done == counts.Keys && WellFormed(tfs)
      invariant forall t :: Bag(tfs)[t] == if t in done then counts[t] else 0
      decreases rest
    {
      var t :| t in rest;
      AppendTerm(tfs, TermFrequency(t, counts[t]));
      hide Bag, WellFormed;
      tfs := tfs + [TermFrequency(t, counts[t])];
      rest, done := rest - {t}, done + {t};
    }
  }

  lemma WellFormedEmpty()
    ensures WellFormed([]) && Bag([]) == multiset{}
  {
  }

  lemma AppendTerm(tfs: seq<TermFrequency>, tf: TermFrequency)
    requires WellFormed(tfs) && tf.frequency > 0 && Bag(tfs)[tf.term] == 0
    ensures WellFormed(tfs + [tf])
    ensures forall t :: Bag(tfs + [tf])[t] == Bag(tfs)[t] + (if t == tf.term then tf.frequency else 0)
  {
    assert (tfs + [tf])[..|tfs|] == tfs;
    BagTerms(tfs, tf.term);
  }
}
