// The service dependency graph of monit: what one configured service says about
// itself, when two names are the same, and reachability along "depends on".
module ServiceGraph {

  // The part of a service the control file fixes (struct myservice, monitor.h).
  // dependsOn holds the names in `dependantlist`: the services this one needs.
  datatype Config = Config(
    name: string,
    isProcess: bool,
    hasStart: bool,
    hasStop: bool,
    dependsOn: seq<string>)

  function Lower(c: char): char {
    if 'A' <= c <= 'Z' then ((c as int) + 32) as char else c
  }

  function Fold(s: string): string {
    seq(|s|, i requires 0 <= i < |s| => Lower(s[i]))
  }

  // The macro IS: names and actions are compared without regard to ASCII case.
  predicate Is(a: string, b: string) {
    Fold(a) == Fold(b)
  }

  // Two letters are the same but for their case.
  predicate SameLetter(a: char, b: char) {
    || a == b
    || ('A' <= a <= 'Z' && b as int == a as int + 32)
    || ('A' <= b <= 'Z' && a as int == b as int + 32)
  }

  lemma IsMeans(a: string, b: string)
    ensures Is(a, b) <==> |a| == |b| && forall i :: 0 <= i < |a| ==> SameLetter(a[i], b[i])
  {
    if Is(a, b) {
      assert |Fold(a)| == |Fold(b)|;
      forall i | 0 <= i < |a| ensures SameLetter(a[i], b[i]) {
        assert Fold(a)[i] == Fold(b)[i];
      }
    }
  }

  // What the control-file parser guarantees: names are unique and every
  // name that is depended on is the name of some service.
  ghost predicate Wired(g: seq<Config>) {
    && (forall i, j :: 0 <= i < j < |g| ==> !Is(g[i].name, g[j].name))
    && (forall i, d :: 0 <= i < |g| && d in g[i].dependsOn ==> exists j :: 0 <= j < |g| && Is(g[j].name, d))
  }

  // Service i directly depends on service j.
  ghost predicate Needs(g: seq<Config>, i: nat, j: nat) {
    i < |g| && j < |g| && exists d :: d in g[i].dependsOn && Is(d, g[j].name)
  }

  ghost function DirectNeeds(g: seq<Config>, i: nat): set<nat> {
    set j: nat | j < |g| && Needs(g, i, j)
  }

  // The services named by the first k entries of dependsOn.
  ghost function ResolvedUpTo(g: seq<Config>, i: nat, k: nat): set<nat>
    requires i < |g| && k <= |g[i].dependsOn|
  {
    set j: nat | j < |g| && NamedBefore(g, i, k, j)
  }

  ghost predicate NamedBefore(g: seq<Config>, i: nat, k: nat, j: nat)
    requires i < |g| && j < |g| && k <= |g[i].dependsOn|
  {
    exists n :: 0 <= n < k && Is(g[i].dependsOn[n], g[j].name)
  }

  lemma ResolvedStep(g: seq<Config>, i: nat, k: nat, p: nat)
    requires Wired(g) && i < |g| && k < |g[i].dependsOn| && p < |g| && Is(g[p].name, g[i].dependsOn[k])
    ensures ResolvedUpTo(g, i, k + 1) == ResolvedUpTo(g, i, k) + {p}
  {
    forall j: nat | j < |g| && Is(g[i].dependsOn[k], g[j].name) ensures j == p {}
  }

  lemma ResolvedAll(g: seq<Config>, i: nat)
    requires i < |g|
    ensures ResolvedUpTo(g, i, |g[i].dependsOn|) == DirectNeeds(g, i)
  {
  }

  ghost predicate Path(g: seq<Config>, p: seq<nat>) {
    |p| >= 2 && forall k :: 0 <= k < |p| - 1 ==> Needs(g, p[k], p[k + 1])
  }

  // Service i depends on service j, directly or through others.
  ghost predicate Reaches(g: seq<Config>, i: nat, j: nat) {
    exists p :: Path(g, p) && p[0] == i && p[|p| - 1] == j
  }

  ghost predicate Acyclic(g: seq<Config>) {
    forall i: nat :: i < |g| ==> !Reaches(g, i, i)
  }

  // Every service i depends on, transitively.
  ghost function Prerequisites(g: seq<Config>, i: nat): set<nat> {
    set j: nat | j < |g| && Reaches(g, i, j)
  }

  // Every service that depends on i, transitively.
  ghost function Dependants(g: seq<Config>, i: nat): set<nat> {
    set j: nat | j < |g| && Reaches(g, j, i)
  }

  lemma ReachesStep(g: seq<Config>, i: nat, j: nat)
    requires Needs(g, i, j)
    ensures Reaches(g, i, j)
  {
    assert Path(g, [i, j]);
  }

  lemma ReachesTrans(g: seq<Config>, i: nat, j: nat, k: nat)
    requires Reaches(g, i, j) && Reaches(g, j, k)
    ensures Reaches(g, i, k)
  {
    var p :| Path(g, p) && p[0] == i && p[|p| - 1] == j;
    var q :| Path(g, q) && q[0] == j && q[|q| - 1] == k;
    var r := p + q[1..];
    forall n | 0 <= n < |r| - 1
      ensures Needs(g, r[n], r[n + 1])
    {
      if n >= |p| - 1 {
        assert r[n] == q[n - (|p| - 1)] && r[n + 1] == q[n + 1 - (|p| - 1)];
      }
    }
    assert Path(g, r);
  }

  lemma ReachesFirst(g: seq<Config>, i: nat, k: nat) returns (j: nat)
    requires Reaches(g, i, k)
    ensures Needs(g, i, j) && (j == k || Reaches(g, j, k))
  {
    var p :| Path(g, p) && p[0] == i && p[|p| - 1] == k;
    j := p[1];
    if |p| > 2 {
      assert Path(g, p[1..]);
    }
  }

  lemma ReachesLast(g: seq<Config>, i: nat, k: nat) returns (j: nat)
    requires Reaches(g, i, k)
    ensures Needs(g, j, k) && (i == j || Reaches(g, i, j))
  {
    var p :| Path(g, p) && p[0] == i && p[|p| - 1] == k;
    j := p[|p| - 2];
    if |p| > 2 {
      assert Path(g, p[..|p| - 1]);
    }
  }

  lemma ReachesInRange(g: seq<Config>, i: nat, j: nat)
    requires Reaches(g, i, j)
    ensures i < |g| && j < |g|
  {
    var a := ReachesFirst(g, i, j);
    var b := ReachesLast(g, i, j);
  }

  ghost predicate ViaChild(g: seq<Config>, i: nat, c: nat, x: nat) {
    exists k: nat :: k < c && Needs(g, k, i) && (x == k || Reaches(g, x, k))
  }

  // The dependants found from the children of i with an index below c.
  ghost function DependantsUpTo(g: seq<Config>, i: nat, c: nat): set<nat> {
    set x: nat | x < |g| && ViaChild(g, i, c, x)
  }

  lemma DependantsUpToStep(g: seq<Config>, i: nat, c: nat)
    requires c < |g|
    ensures Needs(g, c, i) ==> DependantsUpTo(g, i, c + 1) == DependantsUpTo(g, i, c) + ({c} + Dependants(g, c))
    ensures !Needs(g, c, i) ==> DependantsUpTo(g, i, c + 1) == DependantsUpTo(g, i, c)
  {
  }

  lemma DependantsComplete(g: seq<Config>, i: nat)
    ensures DependantsUpTo(g, i, |g|) == Dependants(g, i)
  {
    forall x: nat | x < |g|
      ensures x in DependantsUpTo(g, i, |g|) <==> x in Dependants(g, i)
    {
      if x in Dependants(g, i) {
        var k := ReachesLast(g, x, i);
        assert k < |g| && Needs(g, k, i);
      }
      if x in DependantsUpTo(g, i, |g|) {
        var k: nat :| k < |g| && Needs(g, k, i) && (x == k || Reaches(g, x, k));
        ReachesStep(g, k, i);
        if x != k { ReachesTrans(g, x, k, i); }
      }
    }
  }

  // Going up one edge strictly shrinks the set of dependants: why do_depend ends.
  lemma DependantsShrink(g: seq<Config>, c: nat, i: nat)
    requires Acyclic(g) && Needs(g, c, i)
    ensures Dependants(g, c) < Dependants(g, i)
  {
    ReachesStep(g, c, i);
    forall x | x in Dependants(g, c) ensures x in Dependants(g, i) {
      ReachesTrans(g, x, c, i);
    }
    assert c in Dependants(g, i) && c !in Dependants(g, c);
  }
}
