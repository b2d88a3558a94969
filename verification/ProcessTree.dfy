// process.c and process_common.c: the process table linked into a tree in place,
// and the totals of every subtree.
module ProcessTree {
  import opened Options

  // One entry of the table. A pointer to an entry is its position.
  datatype Entry = Entry(
    pid: int,
    ppid: int,
    visited: bool,
    memKbyte: int,
    childrenSum: int,
    memKbyteSum: int,
    parent: Option<nat>,
    children: seq<nat>)

  // The table as the system-dependent code leaves it: nothing is linked, and no
  // process is listed twice. Entries that could not be read have pid 0.
  ghost predicate RawTable(t: seq<Entry>) {
    && (forall i :: 0 <= i < |t| ==> !t[i].visited && t[i].childrenSum == 0 && t[i].memKbyteSum == 0
                                     && t[i].parent.None? && t[i].children == [])
    && (forall i, j :: 0 <= i < j < |t| && t[i].pid == t[j].pid ==> t[i].pid == 0)
  }

  // findprocess, as a function of the table.
  function Find(t: seq<Entry>, pid: int): (r: Option<nat>)
    ensures r.Some? ==> pid != 0 && r.value < |t| && t[r.value].pid == pid
    ensures r.None? && pid != 0 ==> forall i :: 0 <= i < |t| ==> t[i].pid != pid
  {
    if pid == 0 then None else FindFrom(t, pid, 0)
  }

  function FindFrom(t: seq<Entry>, pid: int, i: nat): (r: Option<nat>)
    requires i <= |t|
    ensures r.Some? ==> i <= r.value < |t| && t[r.value].pid == pid
    ensures r.None? ==> forall k :: i <= k < |t| ==> t[k].pid != pid
    decreases |t| - i
  {
    if i == |t| then None else if t[i].pid == pid then Some(i) else FindFrom(t, pid, i + 1)
  }

  method FindProcess(pid: int, pt: array<Entry>) returns (r: Option<nat>)
    ensures r == Find(pt[..], pid)
  {
    if pid == 0 {
      return None;
    }
    var i := 0;
    while i < pt.Length
      invariant 0 <= i <= pt.Length
      invariant FindFrom(pt[..], pid, 0) == FindFrom(pt[..], pid, i)
    {
      if pid == pt[i].pid {
        return Some(i);
      }
      i := i + 1;
    }
    return None;
  }

  // ---- Which entries are linked, said of the raw table ----

  // Entry i is invalidated when it is visited: its parent is not in the table or was
  // invalidated before it, or it has no pid itself.
  ghost predicate Invalidated(t: seq<Entry>, i: nat)
    requires i < |t|
    decreases i
  {
    t[i].ppid != 0 &&
    match Find(t, t[i].ppid)
    case None => true
    case Some(p) => t[i].pid == 0 || (p < i && Invalidated(t, p))
  }

  // Entry i is linked below entry p.
  ghost predicate Linked(t: seq<Entry>, i: nat, p: nat) {
    i < |t| && p < |t| && !Invalidated(t, i) && Find(t, t[i].ppid) == Some(p)
  }

  // The children of p among the first n entries, in table order.
  ghost function Children(t: seq<Entry>, p: nat, n: nat): (cs: seq<nat>)
    ensures forall k :: 0 <= k < |cs| ==> cs[k] < n
  {
    if n == 0 then [] else Children(t, p, n - 1) + (if Linked(t, n - 1, p) then [n - 1] else [])
  }

  // The parent pointer of entry i: set whenever a live parent was found.
  ghost function ParentOf(t: seq<Entry>, i: nat): Option<nat>
    requires i < |t|
  {
    match Find(t, t[i].ppid)
    case None => None
    case Some(p) => if p < i && Invalidated(t, p) then None else Some(p)
  }

  // Entry i after the first n entries were linked.
  ghost function AfterLinking(t: seq<Entry>, i: nat, n: nat): Entry
    requires i < |t|
  {
    t[i].(pid := if i < n && Invalidated(t, i) then 0 else t[i].pid,
          parent := if i < n then ParentOf(t, i) else None,
          children := Children(t, i, n))
  }

  lemma FindUnique(t: seq<Entry>, pid: int, i: nat)
    requires RawTable(t) && i < |t| && t[i].pid == pid && pid != 0
    ensures Find(t, pid) == Some(i)
  {
  }

  // Looking a parent up in the half-linked table.
  lemma FindAfter(t: seq<Entry>, u: seq<Entry>, n: nat, pid: int)
    requires RawTable(t) && n <= |t| == |u|
    requires forall i :: 0 <= i < |t| ==> u[i] == AfterLinking(t, i, n)
    ensures Find(u, pid) == match Find(t, pid)
                            case None => None
                            case Some(p) => if p < n && Invalidated(t, p) then None else Some(p)
  {
    var r, s := Find(t, pid), Find(u, pid);
    if s.Some? {
      assert u[s.value].pid == pid != 0;
      FindUnique(t, pid, s.value);
    }
    if r.Some? && !(r.value < n && Invalidated(t, r.value)) {
      assert u[r.value].pid == pid;
    }
  }

  method ConnectChild(pt: array<Entry>, parent: nat, child: nat) returns (ok: bool)
    requires parent < pt.Length && child < pt.Length
    modifies pt
    ensures ok == (old(pt[parent].pid) != 0 && old(pt[child].pid) != 0)
    ensures pt[..] == if ok then old(pt[..])[parent := old(pt[parent]).(children := old(pt[parent].children) + [child])] else old(pt[..])
  {
    if pt[parent].pid == 0 || pt[child].pid == 0 {
      return false;
    }
    pt[parent] := pt[parent].(children := pt[parent].children + [child]);
    return true;
  }

  // The loop of initprocesstree.
  method LinkTable(pt: array<Entry>)
    requires RawTable(pt[..])
    modifies pt
    ensures forall i :: 0 <= i < pt.Length ==> pt[i] == AfterLinking(old(pt[..]), i, pt.Length)
  {
    ghost var t := pt[..];
    for i := 0 to pt.Length
      invariant forall k :: 0 <= k < pt.Length ==> pt[k] == AfterLinking(t, k, i)
    {
      LinkOne(pt, t, i);
    }
  }

  method LinkOne(pt: array<Entry>, ghost t: seq<Entry>, i: nat)
    requires RawTable(t) && i < pt.Length == |t|
    requires forall k :: 0 <= k < pt.Length ==> pt[k] == AfterLinking(t, k, i)
    modifies pt
    ensures forall k :: 0 <= k < pt.Length ==> pt[k] == AfterLinking(t, k, i + 1)
  {
    if pt[i].ppid == 0 {
      return;
    }
    var p := FindProcess(pt[i].ppid, pt);
    FindAfter(t, pt[..], i, pt[i].ppid);
    if p.None? {
      pt[i] := pt[i].(pid := 0);
      return;
    }
    pt[i] := pt[i].(parent := p);
    var ok := ConnectChild(pt, p.value, i);
    if !ok {
      pt[i] := pt[i].(pid := 0);
    }
  }

  lemma {:induction false} ChildrenExact(t: seq<Entry>, p: nat, n: nat)
    ensures forall i: nat :: i in Children(t, p, n) <==> i < n && Linked(t, i, p)
    ensures forall a, b :: 0 <= a < b < |Children(t, p, n)| ==> Children(t, p, n)[a] < Children(t, p, n)[b]
  {
    if n > 0 {
      ChildrenExact(t, p, n - 1);
    }
  }

  ghost predicate ExactlyOnce(cs: seq<nat>, i: nat) {
    exists k :: 0 <= k < |cs| && cs[k] == i && i !in cs[..k] && i !in cs[k + 1..]
  }

  // After linking, an entry is a root or invalidated and in no list, or it stands
  // exactly once in the list of its own parent and in no other.
  lemma LinkedOnce(t: seq<Entry>, i: nat, p: nat)
    requires i < |t| && p < |t|
    ensures Linked(t, i, p) <==> t[i].ppid != 0 && !Invalidated(t, i) && ParentOf(t, i) == Some(p)
    ensures Linked(t, i, p) ==> ExactlyOnce(Children(t, p, |t|), i)
    ensures !Linked(t, i, p) ==> i !in Children(t, p, |t|)
    ensures t[i].ppid == 0 || Invalidated(t, i) || exists q :: Linked(t, i, q)
  {
    var cs := Children(t, p, |t|);
    ChildrenExact(t, p, |t|);
    if Linked(t, i, p) {
      assert i in cs;
      var k :| 0 <= k < |cs| && cs[k] == i;
      assert cs[k] == i && i !in cs[..k] && i !in cs[k + 1..];
    }
    if t[i].ppid != 0 && !Invalidated(t, i) {
      assert Linked(t, i, Find(t, t[i].ppid).value);
    }
  }

  // ---- Subtrees ----

  ghost predicate LinkPath(t: seq<Entry>, p: seq<nat>) {
    |p| >= 2 && forall k :: 0 <= k < |p| - 1 ==> Linked(t, p[k], p[k + 1])
  }

  // x is a proper descendant of r.
  ghost predicate Below(t: seq<Entry>, x: nat, r: nat) {
    exists p :: LinkPath(t, p) && p[0] == x && p[|p| - 1] == r
  }

  // Going up from r does not come back to r.
  ghost predicate OnNoLoop(t: seq<Entry>, r: nat) {
    !Below(t, r, r)
  }

  ghost predicate In(t: seq<Entry>, x: nat, r: nat) {
    x < |t| && (x == r || Below(t, x, r))
  }

  ghost function Subtree(t: seq<Entry>, r: nat): set<nat> {
    set x: nat | x < |t| && In(t, x, r)
  }

  lemma BelowStep(t: seq<Entry>, x: nat, p: nat)
    requires Linked(t, x, p)
    ensures Below(t, x, p)
  {
    assert LinkPath(t, [x, p]);
  }

  lemma BelowFirst(t: seq<Entry>, x: nat, r: nat) returns (p: nat)
    requires Below(t, x, r)
    ensures Linked(t, x, p) && In(t, p, r)
  {
    var q :| LinkPath(t, q) && q[0] == x && q[|q| - 1] == r;
    p := q[1];
    if |q| > 2 {
      assert LinkPath(t, q[1..]);
    }
  }

  lemma BelowLast(t: seq<Entry>, x: nat, r: nat) returns (c: nat)
    requires Below(t, x, r)
    ensures Linked(t, c, r) && In(t, x, c)
  {
    var q :| LinkPath(t, q) && q[0] == x && q[|q| - 1] == r;
    c := q[|q| - 2];
    assert Linked(t, q[0], q[1]);
    if |q| > 2 {
      assert LinkPath(t, q[..|q| - 1]);
    }
  }

  lemma BelowExtend(t: seq<Entry>, x: nat, c: nat, r: nat)
    requires In(t, x, c) && Linked(t, c, r)
    ensures Below(t, x, r)
  {
    if x == c {
      BelowStep(t, c, r);
    } else {
      var q :| LinkPath(t, q) && q[0] == x && q[|q| - 1] == c;
      assert LinkPath(t, q + [r]);
    }
  }

  // Whatever lies below both a and b puts one of them below the other: parents are
  // unique.
  lemma {:induction false} Comparable(t: seq<Entry>, q: seq<nat>, x: nat, a: nat, b: nat)
    requires In(t, x, b) && q != [] && q[0] == x && q[|q| - 1] == a
    requires forall k :: 0 <= k < |q| - 1 ==> Linked(t, q[k], q[k + 1])
    ensures In(t, a, b) || Below(t, b, a)
    decreases |q|
  {
    if |q| > 1 {
      if x == b {
        assert LinkPath(t, q);
      } else {
        var p := BelowFirst(t, x, b);
        assert Linked(t, q[0], q[1]);
        assert p == q[1];
        Comparable(t, q[1..], p, a, b);
      }
    }
  }

  lemma SubtreesComparable(t: seq<Entry>, x: nat, a: nat, b: nat)
    requires In(t, x, a) && In(t, x, b)
    ensures In(t, a, b) || Below(t, b, a)
  {
    if x == a {
    } else {
      var q :| LinkPath(t, q) && q[0] == x && q[|q| - 1] == a;
      Comparable(t, q, x, a, b);
    }
  }

  // Two children of one parent have disjoint subtrees, and neither holds the parent.
  lemma SiblingsDisjoint(t: seq<Entry>, c: nat, d: nat, r: nat, x: nat)
    requires OnNoLoop(t, r) && Linked(t, c, r) && Linked(t, d, r) && c != d && In(t, x, c)
    ensures !In(t, x, d)
  {
    if In(t, x, d) {
      SubtreesComparable(t, x, c, d);
      if In(t, c, d) {
        var p := BelowFirst(t, c, d);
        BelowExtend(t, r, d, r);
      } else {
        var p := BelowFirst(t, d, c);
        BelowExtend(t, r, c, r);
      }
    }
  }

  lemma ParentOutside(t: seq<Entry>, c: nat, r: nat)
    requires OnNoLoop(t, r) && Linked(t, c, r)
    ensures r !in Subtree(t, c)
  {
    if In(t, r, c) { BelowExtend(t, r, c, r); }
  }

  // A loop through a child is one through its parent, and the other way round.
  lemma SameLoop(t: seq<Entry>, c: nat, r: nat)
    requires Linked(t, c, r)
    ensures OnNoLoop(t, r) ==> OnNoLoop(t, c)
    ensures OnNoLoop(t, c) ==> r !in Subtree(t, c)
  {
    if Below(t, c, c) {
      var p := BelowFirst(t, c, c);
      BelowExtend(t, r, c, r);
    }
    if In(t, r, c) {
      BelowExtend(t, r, c, r);
      if r != c {
        var q :| LinkPath(t, q) && q[0] == r && q[|q| - 1] == c;
        assert LinkPath(t, [c] + q);
      }
    }
  }

  // A process without a parent is on no loop.
  lemma RootOnNoLoop(t: seq<Entry>, r: nat)
    requires r < |t| && t[r].ppid == 0
    ensures OnNoLoop(t, r)
  {
    if Below(t, r, r) { var p := BelowFirst(t, r, r); }
  }

  // Entry r and the subtrees of its first k children.
  ghost function UpTo(t: seq<Entry>, r: nat, k: nat): set<nat>
    requires k <= |Children(t, r, |t|)|
  {
    set x: nat | x < |t| && InUpTo(t, r, k, x)
  }

  ghost predicate InUpTo(t: seq<Entry>, r: nat, k: nat, x: nat)
    requires k <= |Children(t, r, |t|)|
  {
    x == r || exists j :: 0 <= j < k && In(t, x, Children(t, r, |t|)[j])
  }

  lemma UpToStep(t: seq<Entry>, r: nat, k: nat)
    requires OnNoLoop(t, r) && r < |t| && k < |Children(t, r, |t|)|
    ensures var c := Children(t, r, |t|)[k];
      && Linked(t, c, r)
      && UpTo(t, r, k + 1) == UpTo(t, r, k) + Subtree(t, c)
      && UpTo(t, r, k) !! Subtree(t, c)
  {
    ChildrenExact(t, r, |t|);
    var c := Children(t, r, |t|)[k];
    assert c in Children(t, r, |t|);
    forall x | In(t, x, c) ensures !InUpTo(t, r, k, x) {
      NotYet(t, r, k, x);
    }
    forall x ensures InUpTo(t, r, k + 1, x) <==> InUpTo(t, r, k, x) || In(t, x, c) {
    }
    hide InUpTo, In, Children;
  }

  lemma NotYet(t: seq<Entry>, r: nat, k: nat, x: nat)
    requires OnNoLoop(t, r) && r < |t| && k < |Children(t, r, |t|)| && In(t, x, Children(t, r, |t|)[k])
    ensures !InUpTo(t, r, k, x)
  {
    ChildrenExact(t, r, |t|);
    hide OnNoLoop, Children, In, Linked;
    var cs := Children(t, r, |t|);
    var c := cs[k];
    assert c in cs;
    if x == r {
      ParentOutside(t, c, r);
    } else if InUpTo(t, r, k, x) {
      var j :| 0 <= j < k && In(t, x, cs[j]);
      assert cs[j] in cs;
      SiblingsDisjoint(t, c, cs[j], r, x);
    }
  }

  lemma UpToAll(t: seq<Entry>, r: nat)
    requires r < |t|
    ensures UpTo(t, r, 0) == {r}
    ensures UpTo(t, r, |Children(t, r, |t|)|) == Subtree(t, r)
  {
    ChildrenExact(t, r, |t|);
    var cs := Children(t, r, |t|);
    forall x: nat | x < |t| ensures InUpTo(t, r, |cs|, x) <==> In(t, x, r) {
      if x != r && InUpTo(t, r, |cs|, x) {
        var j :| 0 <= j < |cs| && In(t, x, cs[j]);
        assert cs[j] in cs;
        BelowExtend(t, x, cs[j], r);
      }
      if Below(t, x, r) {
        var c := BelowLast(t, x, r);
        assert c in cs;
      }
    }
  }

  // ---- Totals ----

  // The memory of the entries in s among the first n.
  ghost function Memory(t: seq<Entry>, s: set<nat>, n: nat): int
    requires n <= |t|
  {
    if n == 0 then 0 else Memory(t, s, n - 1) + (if n - 1 in s then t[n - 1].memKbyte else 0)
  }

  lemma {:induction false} MemoryAdds(t: seq<Entry>, a: set<nat>, b: set<nat>, n: nat)
    requires n <= |t| && a !! b
    ensures Memory(t, a + b, n) == Memory(t, a, n) + Memory(t, b, n)
  {
    if n > 0 { MemoryAdds(t, a, b, n - 1); }
  }

  lemma {:induction false} MemoryOne(t: seq<Entry>, r: nat, n: nat)
    requires n <= |t| && r < |t|
    ensures Memory(t, {r}, n) == if r < n then t[r].memKbyte else 0
  {
    if n > 0 { MemoryOne(t, r, n - 1); }
  }

  // What the totals of entry i are meant to be: the number of its proper
  // descendants, and the memory of its whole subtree.
  ghost predicate RightTotals(t: seq<Entry>, i: nat, e: Entry) {
    && e.visited
    && e.childrenSum == |Subtree(t, i)| - 1
    && e.memKbyteSum == Memory(t, Subtree(t, i), |t|)
  }

  // The table is linked as the raw table says; only flags and totals may differ.
  ghost predicate Shaped(t: seq<Entry>, u: seq<Entry>) {
    |u| == |t| && forall i :: 0 <= i < |t| ==> SameShape(AfterLinking(t, i, |t|), u[i])
  }

  ghost predicate SameShape(e: Entry, f: Entry) {
    e == f.(visited := e.visited, childrenSum := e.childrenSum, memKbyteSum := e.memKbyteSum)
  }

  ghost function Unvisited(u: seq<Entry>): set<nat> {
    set i: nat | i < |u| && !u[i].visited
  }

  // The children loop of fillprocesstree after k children: s was the table before
  // entry x was touched.
  ghost predicate Filling(t: seq<Entry>, x: nat, k: nat, s: seq<Entry>, u: seq<Entry>)
    requires k <= |Children(t, x, |t|)| && x < |t| == |s| == |u|
  {
    && u[x].visited
    && u[x].childrenSum == |Children(t, x, |t|)| - k + |UpTo(t, x, k)| - 1
    && u[x].memKbyteSum == Memory(t, UpTo(t, x, k), |t|)
    && (forall i :: i in UpTo(t, x, k) && i != x ==> RightTotals(t, i, u[i]))
    && (forall i :: 0 <= i < |t| && i !in UpTo(t, x, k) ==> u[i] == s[i])
  }

  // What a call of fillprocesstree leaves behind: right totals below and at x, and
  // the totals of x added to those of its parent.
  ghost predicate Filled(t: seq<Entry>, x: nat, s: seq<Entry>, u: seq<Entry>)
    requires x < |t| == |s| == |u|
  {
    && (forall i :: i in Subtree(t, x) ==> RightTotals(t, i, u[i]))
    && (forall i :: 0 <= i < |t| && i !in Subtree(t, x) ==> u[i] == PassedUp(t, x, i, s[i]))
  }

  ghost function PassedUp(t: seq<Entry>, x: nat, i: nat, e: Entry): Entry
    requires x < |t|
  {
    if ParentOf(t, x) != Some(i) then e
    else e.(childrenSum := e.childrenSum + |Subtree(t, x)| - 1,
            memKbyteSum := e.memKbyteSum + Memory(t, Subtree(t, x), |t|))
  }

  // A live entry on no loop, whose subtree has not been visited.
  ghost predicate Ready(t: seq<Entry>, x: nat, s: seq<Entry>)
    requires x < |t| == |s|
  {
    OnNoLoop(t, x) && s[x].pid != 0 && forall i :: i in Subtree(t, x) ==> !s[i].visited
  }

  lemma FillingStarts(t: seq<Entry>, x: nat, s: seq<Entry>, u: seq<Entry>)
    requires x < |t| == |s| && Shaped(t, s)
    requires u == s[x := s[x].(visited := true, childrenSum := |s[x].children|, memKbyteSum := s[x].memKbyte)]
    ensures Shaped(t, u) && Filling(t, x, 0, s, u)
    ensures Unvisited(u) == Unvisited(s) - {x}
  {
    UpToAll(t, x);
    MemoryOne(t, x, |t|);
  }

  lemma FillingStep(t: seq<Entry>, x: nat, k: nat, s: seq<Entry>, u: seq<Entry>, v: seq<Entry>)
    requires OnNoLoop(t, x) && x < |t| == |s| == |u| == |v| && k < |Children(t, x, |t|)|
    requires Filling(t, x, k, s, u) && Filled(t, Children(t, x, |t|)[k], u, v)
    ensures Filling(t, x, k + 1, s, v)
  {
    hide OnNoLoop, Linked, Invalidated, Memory, RightTotals;
    var c := Children(t, x, |t|)[k];
    UpToStep(t, x, k);
    LinkedOnce(t, c, x);
    assert ParentOf(t, c) == Some(x) && x in UpTo(t, x, k);
    MemoryAdds(t, UpTo(t, x, k), Subtree(t, c), |t|);
    hide UpTo, Subtree, ParentOf;
  }

  lemma FillingReady(t: seq<Entry>, x: nat, k: nat, s: seq<Entry>, u: seq<Entry>)
    requires x < |t| == |s| == |u| && k < |Children(t, x, |t|)|
    requires Shaped(t, u) && Ready(t, x, s) && Filling(t, x, k, s, u)
    ensures Ready(t, Children(t, x, |t|)[k], u)
  {
    var c := Children(t, x, |t|)[k];
    UpToStep(t, x, k);
    forall i | i in Subtree(t, c) ensures !u[i].visited {
      BelowExtend(t, i, c, x);
      assert i in Subtree(t, x);
    }
    FindAlive(t, c, x);
    SameLoop(t, c, x);
  }

  lemma FindAlive(t: seq<Entry>, c: nat, p: nat)
    requires Linked(t, c, p)
    ensures AfterLinking(t, c, |t|).pid != 0
  {
  }

  // The totals of x once all its children are done.
  lemma TotalsAt(t: seq<Entry>, x: nat, s: seq<Entry>, u: seq<Entry>)
    requires x < |t| == |s| == |u| && Filling(t, x, |Children(t, x, |t|)|, s, u)
    ensures x in Subtree(t, x) && forall i :: i in Subtree(t, x) ==> RightTotals(t, i, u[i])
    ensures forall i :: 0 <= i < |t| && i !in Subtree(t, x) ==> u[i] == s[i]
  {
    UpToAll(t, x);
    assert In(t, x, x);
    hide UpTo, Memory, Children, Below;
  }

  // The last lines of fillprocesstree pass the totals on to the parent.
  lemma FillingEnds(t: seq<Entry>, x: nat, s: seq<Entry>, u: seq<Entry>, v: seq<Entry>)
    requires x < |t| == |s| == |u| && Shaped(t, u) && Ready(t, x, s) && Shaped(t, s)
    requires Filling(t, x, |Children(t, x, |t|)|, s, u)
    requires v == AddToParent(u, x)
    ensures Filled(t, x, s, v)
  {
    TotalsAt(t, x, s, u);
    ParentElsewhere(t, x, s);
    ShapedParent(t, u, x);
    assert u[x].childrenSum == |Subtree(t, x)| - 1 && u[x].memKbyteSum == Memory(t, Subtree(t, x), |t|);
    hide *;
    forall i | 0 <= i < |t| ensures v[i] == PassedUp(t, x, i, u[i]) && (ParentOf(t, x) != Some(i) ==> v[i] == u[i]) {
      AddedTo(t, x, u, i);
    }
    FilledFrom(t, x, s, u, v);
  }

  lemma ShapedParent(t: seq<Entry>, u: seq<Entry>, x: nat)
    requires Shaped(t, u) && x < |t|
    ensures |u| == |t| && u[x].parent == ParentOf(t, x)
  {
  }

  lemma ParentElsewhere(t: seq<Entry>, x: nat, s: seq<Entry>)
    requires x < |t| == |s| && Shaped(t, s) && Ready(t, x, s)
    ensures ParentOf(t, x).Some? ==> ParentOf(t, x).value < |t| && ParentOf(t, x).value !in Subtree(t, x)
  {
    match ParentOf(t, x)
    case None =>
    case Some(p) =>
      LinkedOnce(t, x, p);
      assert Linked(t, x, p);
      SameLoop(t, x, p);
  }

  lemma AddedTo(t: seq<Entry>, x: nat, u: seq<Entry>, i: nat)
    requires x < |t| == |u| && i < |u| && u[x].parent == ParentOf(t, x)
    requires u[x].childrenSum == |Subtree(t, x)| - 1 && u[x].memKbyteSum == Memory(t, Subtree(t, x), |t|)
    ensures |AddToParent(u, x)| == |u| && AddToParent(u, x)[i] == PassedUp(t, x, i, u[i])
    ensures ParentOf(t, x) != Some(i) ==> AddToParent(u, x)[i] == u[i]
  {
    hide Subtree, Memory, ParentOf;
  }

  lemma FilledFrom(t: seq<Entry>, x: nat, s: seq<Entry>, u: seq<Entry>, v: seq<Entry>)
    requires x < |t| == |s| == |u| == |v|
    requires forall i :: i in Subtree(t, x) ==> i < |t| && ParentOf(t, x) != Some(i) && RightTotals(t, i, u[i])
    requires forall i :: 0 <= i < |t| && i !in Subtree(t, x) ==> u[i] == s[i]
    requires forall i :: 0 <= i < |t| ==>
      v[i] == PassedUp(t, x, i, u[i]) && (ParentOf(t, x) != Some(i) ==> v[i] == u[i])
    ensures Filled(t, x, s, v)
  {
    hide Subtree, ParentOf, RightTotals, PassedUp, Memory;
  }

  function AddToParent(u: seq<Entry>, x: nat): seq<Entry>
    requires x < |u|
  {
    match u[x].parent
    case None => u
    case Some(p) =>
      if p < |u| then u[p := u[p].(childrenSum := u[p].childrenSum + u[x].childrenSum,
                                   memKbyteSum := u[p].memKbyteSum + u[x].memKbyteSum)]
      else u
  }

  lemma ShapedPointers(t: seq<Entry>, u: seq<Entry>, x: nat)
    requires Shaped(t, u) && x < |u|
    ensures |t| == |u| && u[x].children == Children(t, x, |t|)
    ensures u[x].parent.Some? ==> u[x].parent.value < |u|
    ensures Shaped(t, AddToParent(u, x)) && Unvisited(AddToParent(u, x)) == Unvisited(u)
  {
  }

  // fillprocesstree: ends on every table, by the visited flags, and gets the totals
  // right on every live tree.
  method FillProcessTree(pt: array<Entry>, x: nat, ghost t: seq<Entry>)
    requires x < pt.Length && Shaped(t, pt[..])
    modifies pt
    ensures Shaped(t, pt[..]) && Unvisited(pt[..]) <= Unvisited(old(pt[..]))
    ensures old(Ready(t, x, pt[..])) ==> Filled(t, x, old(pt[..]), pt[..])
    decreases Unvisited(pt[..]), 0
  {
    ghost var s := pt[..];
    if pt[x].pid == 0 || pt[x].visited {
      assert x in Subtree(t, x);
      return;
    }
    pt[x] := pt[x].(visited := true, childrenSum := |pt[x].children|, memKbyteSum := pt[x].memKbyte);
    assert pt[..] == s[x := pt[x]];
    FillingStarts(t, x, s, pt[..]);
    assert x in Unvisited(s);
    hide Shaped, Ready, Filling, Filled, Unvisited, Subtree;
    FillChildren(pt, x, t, s);
    ghost var u := pt[..];
    ShapedPointers(t, u, x);
    PassUp(pt, x);
    if Ready(t, x, s) { FillingEnds(t, x, s, u, pt[..]); }
  }

  method PassUp(pt: array<Entry>, x: nat)
    requires x < pt.Length && (pt[x].parent.Some? ==> pt[x].parent.value < pt.Length)
    modifies pt
    ensures pt[..] == AddToParent(old(pt[..]), x)
  {
    if pt[x].parent != None {
      var p := pt[x].parent.value;
      pt[p] := pt[p].(childrenSum := pt[p].childrenSum + pt[x].childrenSum,
                      memKbyteSum := pt[p].memKbyteSum + pt[x].memKbyteSum);
    }
  }

  method FillChildren(pt: array<Entry>, x: nat, ghost t: seq<Entry>, ghost s: seq<Entry>)
    requires x < pt.Length == |t| == |s| && Shaped(t, pt[..])
    requires Ready(t, x, s) ==> Filling(t, x, 0, s, pt[..])
    modifies pt
    ensures Shaped(t, pt[..]) && Unvisited(pt[..]) <= Unvisited(old(pt[..]))
    ensures Ready(t, x, s) ==> Filling(t, x, |Children(t, x, |t|)|, s, pt[..])
    decreases Unvisited(pt[..]), 1
  {
    ShapedPointers(t, pt[..], x);
    var children := pt[x].children;
    hide Shaped, Filling, Filled, Unvisited;
    for k := 0 to |children|
      invariant Shaped(t, pt[..]) && Unvisited(pt[..]) <= Unvisited(old(pt[..]))
      invariant Ready(t, x, s) ==> Filling(t, x, k, s, pt[..])
    {
      ghost var u := pt[..];
      if Ready(t, x, s) { FillingReady(t, x, k, s, u); }
      FillProcessTree(pt, children[k], t);
      if Ready(t, x, s) { FillingStep(t, x, k, s, u, pt[..]); }
    }
  }

  // The process everything descends from: pid 1, unless its own entry was invalidated.
  ghost function Root(t: seq<Entry>): Option<nat> {
    match Find(t, 1)
    case None => None
    case Some(r) => if Invalidated(t, r) then None else Some(r)
  }

  lemma LinkedTable(t: seq<Entry>, u: seq<Entry>)
    requires RawTable(t) && |u| == |t|
    requires forall i :: 0 <= i < |t| ==> u[i] == AfterLinking(t, i, |t|)
    ensures Shaped(t, u) && Find(u, 1) == Root(t)
    ensures Root(t).Some? && OnNoLoop(t, Root(t).value) ==> Ready(t, Root(t).value, u)
  {
    FindAfter(t, u, |t|, 1);
    assert forall i :: 0 <= i < |t| ==> !t[i].visited;
  }

  // initprocesstree: after it, every process below pid 1 has the right totals, unless
  // pid 1 is on a loop; loops elsewhere in the table do no harm. The program aborts
  // (`ok` is false) exactly when there is a table but no pid 1 in it.
  method InitProcessTree(pt: array<Entry>) returns (ok: bool)
    requires RawTable(pt[..])
    modifies pt
    ensures ok <==> pt.Length == 0 || Root(old(pt[..])).Some?
    ensures Shaped(old(pt[..]), pt[..])
    ensures Root(old(pt[..])).Some? && OnNoLoop(old(pt[..]), Root(old(pt[..])).value) ==>
              forall i :: i in Subtree(old(pt[..]), Root(old(pt[..])).value) ==> RightTotals(old(pt[..]), i, pt[i])
  {
    ghost var t := pt[..];
    if pt.Length <= 0 {
      return true;
    }
    LinkTable(pt);
    LinkedTable(t, pt[..]);
    hide Shaped, Ready, OnNoLoop, RightTotals, AfterLinking;
    var r := FindProcess(1, pt);
    if r.None? {
      return false;
    }
    ok := true;
    FillProcessTree(pt, r.value, t);
  }
}
