// check_depend and validate_depend of p.y: which dependency graphs the parser accepts.
module DependCheck {
  import opened ServiceGraph
  import opened Control

  datatype Target = NotDefined | Target(service: nat)

  ghost predicate Distinct(g: seq<Config>) {
    forall i, j :: 0 <= i < j < |g| ==> !Is(g[i].name, g[j].name)
  }

  // get_service: the first service of that name.
  function FindFrom(g: seq<Config>, name: string, i: nat): (t: Target)
    requires i <= |g|
    ensures t.Target? ==> i <= t.service < |g| && Is(g[t.service].name, name)
    ensures t.NotDefined? ==> forall j :: i <= j < |g| ==> !Is(g[j].name, name)
    decreases |g| - i
  {
    if i == |g| then NotDefined else if Is(g[i].name, name) then Target(i) else FindFrom(g, name, i + 1)
  }

  function Find(g: seq<Config>, name: string): (t: Target)
    ensures t.Target? ==> t.service < |g| && Is(g[t.service].name, name)
    ensures t.NotDefined? ==> forall j :: 0 <= j < |g| ==> !Is(g[j].name, name)
  {
    FindFrom(g, name, 0)
  }

  // Where the entries ks of the dependency lists lead from service r: entry ks[0] of the
  // list of r, entry ks[1] of the list of the service named there, and so on.
  function Follow(g: seq<Config>, r: nat, ks: seq<nat>): (t: Target)
    requires r < |g|
    ensures t.Target? ==> t.service < |g|
    decreases |ks|
  {
    if ks == [] then Target(r)
    else
      var k := ks[|ks| - 1];
      match Follow(g, r, ks[..|ks| - 1])
      case NotDefined => NotDefined
      case Target(x) => if k < |g[x].dependsOn| then Find(g, g[x].dependsOn[k]) else NotDefined
  }

  ghost predicate NamesResolve(g: seq<Config>, x: nat)
    requires x < |g|
  {
    forall k :: 0 <= k < |g[x].dependsOn| ==> Find(g, g[x].dependsOn[k]).Target?
  }

  // Two different ways lead from r to the same service.
  ghost predicate Meet(g: seq<Config>, r: nat, ks: seq<nat>, ls: seq<nat>)
    requires r < |g|
  {
    ks != [] && ls != [] && ks != ls && Follow(g, r, ks).Target? && Follow(g, r, ks) == Follow(g, r, ls)
  }

  // What the walk from r must not find: a name that no service has, or a service that
  // two ways lead to.
  ghost predicate Sound(g: seq<Config>, r: nat)
    requires r < |g|
  {
    && (forall ks :: Follow(g, r, ks).Target? ==> NamesResolve(g, Follow(g, r, ks).service))
    && (forall ks, ls :: !Meet(g, r, ks, ls))
  }

  ghost predicate AllSound(g: seq<Config>) {
    forall r: nat :: r < |g| ==> Sound(g, r)
  }

  // ---- The walk ----

  predicate Begins(a: seq<nat>, b: seq<nat>) {
    |a| <= |b| && b[..|a|] == a
  }

  // The services met so far, each with the way it was met on.
  ghost predicate Recorded(g: seq<Config>, r: nat, met: map<nat, seq<nat>>)
    requires r < |g|
  {
    forall x :: x in met ==> met[x] != [] && Follow(g, r, met[x]) == Target(x)
  }

  ghost predicate Grows(met: map<nat, seq<nat>>, met': map<nat, seq<nat>>) {
    forall x :: x in met ==> x in met' && met'[x] == met[x]
  }

  // Every way that begins with `route` and goes on was recorded.
  ghost predicate Done(g: seq<Config>, r: nat, route: seq<nat>, met: map<nat, seq<nat>>)
    requires r < |g|
  {
    forall ls :: Begins(route, ls) && Follow(g, r, ls).Target? ==> DoneAt(g, r, route, ls, met)
  }

  ghost predicate DoneAt(g: seq<Config>, r: nat, route: seq<nat>, ls: seq<nat>, met: map<nat, seq<nat>>)
    requires r < |g| && Follow(g, r, ls).Target?
  {
    var x := Follow(g, r, ls).service;
    NamesResolve(g, x) && (ls != route ==> x in met && met[x] == ls)
  }

  // What is recorded beyond met was met through the first k entries at the end of route.
  ghost predicate MetThrough(route: seq<nat>, k: nat, met: map<nat, seq<nat>>, met': map<nat, seq<nat>>) {
    forall x :: x in met' && x !in met ==> |route| < |met'[x]| && Begins(route, met'[x]) && met'[x][|route|] < k
  }

  ghost predicate Untouched(route: seq<nat>, met: map<nat, seq<nat>>) {
    forall x :: x in met ==> met[x] == route || !Begins(route, met[x])
  }

  lemma DoneGrows(g: seq<Config>, r: nat, route: seq<nat>, met: map<nat, seq<nat>>, met': map<nat, seq<nat>>)
    requires r < |g| && Done(g, r, route, met) && Grows(met, met')
    ensures Done(g, r, route, met')
  {
    forall ls | Begins(route, ls) && Follow(g, r, ls).Target? ensures DoneAt(g, r, route, ls, met') {
      assert DoneAt(g, r, route, ls, met);
    }
  }

  lemma {:induction false} FollowPrefix(g: seq<Config>, r: nat, ks: seq<nat>, n: nat)
    requires r < |g| && n <= |ks| && Follow(g, r, ks).Target?
    ensures Follow(g, r, ks[..n]).Target?
    decreases |ks|
  {
    if n < |ks| {
      assert ks[..|ks| - 1][..n] == ks[..n];
      FollowPrefix(g, r, ks[..|ks| - 1], n);
    } else {
      assert ks[..n] == ks;
    }
  }

  lemma FollowStep(g: seq<Config>, r: nat, ks: seq<nat>, k: nat)
    requires r < |g| && Follow(g, r, ks).Target?
    ensures var x := Follow(g, r, ks).service;
      Follow(g, r, ks + [k]) == if k < |g[x].dependsOn| then Find(g, g[x].dependsOn[k]) else NotDefined
  {
    assert (ks + [k])[..|ks|] == ks;
  }

  // The way through entry k of the list at the end of route is recorded, and all behind it.
  ghost predicate Entered(g: seq<Config>, r: nat, route: seq<nat>, k: nat, met: map<nat, seq<nat>>)
    requires r < |g|
  {
    && Follow(g, r, route + [k]).Target?
    && Done(g, r, route + [k], met) && DoneAt(g, r, [], route + [k], met)
  }

  lemma EnteredGrows(g: seq<Config>, r: nat, route: seq<nat>, k: nat, met: map<nat, seq<nat>>, met': map<nat, seq<nat>>)
    requires r < |g| && Entered(g, r, route, k, met) && Grows(met, met')
    ensures Entered(g, r, route, k, met')
  {
    DoneGrows(g, r, route + [k], met, met');
  }

  // A service met before: the way recorded for it is another one.
  lemma MetAgain(g: seq<Config>, r: nat, route: seq<nat>, k: nat, met: map<nat, seq<nat>>, met': map<nat, seq<nat>>)
    requires r < |g| && Follow(g, r, route + [k]).Target? && Follow(g, r, route + [k]).service in met'
    requires Recorded(g, r, met') && Grows(met, met') && Untouched(route, met) && MetThrough(route, k, met, met')
    ensures !Sound(g, r)
  {
    var ls := route + [k];
    var x := Follow(g, r, ls).service;
    assert ls[..|route|] == route && ls[|route|] == k;
    assert met'[x] != ls;
    assert Meet(g, r, met'[x], ls);
  }

  lemma NothingMet(route: seq<nat>, met: map<nat, seq<nat>>)
    ensures Grows(met, met) && MetThrough(route, 0, met, met)
  {
  }

  lemma BeginsEntry(route: seq<nat>, k: nat, ls: seq<nat>)
    ensures Begins(route + [k], ls) <==> |route| < |ls| && Begins(route, ls) && ls[|route|] == k
  {
    if |route| < |ls| {
      assert ls[..|route| + 1] == ls[..|route|] + [ls[|route|]];
      assert ls[..|route| + 1][..|route|] == ls[..|route|];
    }
  }

  lemma Undefined(g: seq<Config>, r: nat, route: seq<nat>, k: nat)
    requires r < |g| && Follow(g, r, route).Target? && k < |g[Follow(g, r, route).service].dependsOn|
    requires Find(g, g[Follow(g, r, route).service].dependsOn[k]).NotDefined?
    ensures !Sound(g, r)
  {
  }

  lemma WalkBegins(g: seq<Config>, r: nat)
    requires r < |g|
    ensures Follow(g, r, []) == Target(r) && Recorded(g, r, map[]) && Untouched([], map[])
  {
  }

  // A service met for the first time is recorded with the way to it.
  lemma MeetNew(g: seq<Config>, r: nat, route: seq<nat>, k: nat, met: map<nat, seq<nat>>, met': map<nat, seq<nat>>)
    requires r < |g| && Follow(g, r, route + [k]).Target? && Follow(g, r, route + [k]).service !in met'
    requires Recorded(g, r, met') && Grows(met, met') && Untouched(route, met) && MetThrough(route, k, met, met')
    ensures var now := met'[Follow(g, r, route + [k]).service := route + [k]];
      Recorded(g, r, now) && Untouched(route + [k], now)
  {
    hide Follow;
    var now := met'[Follow(g, r, route + [k]).service := route + [k]];
    forall x | x in now ensures now[x] == route + [k] || !Begins(route + [k], now[x]) {
      BeginsEntry(route, k, now[x]);
    }
  }

  // The walk behind entry k came to its end.
  lemma EntryDone(g: seq<Config>, r: nat, route: seq<nat>, k: nat,
                  met: map<nat, seq<nat>>, before: map<nat, seq<nat>>, after: map<nat, seq<nat>>)
    requires r < |g| && Follow(g, r, route + [k]).Target? && Follow(g, r, route + [k]).service !in before
    requires Grows(met, before) && MetThrough(route, k, met, before)
    requires forall n: nat :: n < k ==> Entered(g, r, route, n, before)
    requires var now := before[Follow(g, r, route + [k]).service := route + [k]];
      Grows(now, after) && exists m: nat :: MetThrough(route + [k], m, now, after)
    requires Done(g, r, route + [k], after)
    ensures Grows(met, after) && MetThrough(route, k + 1, met, after)
    ensures forall n: nat :: n < k + 1 ==> Entered(g, r, route, n, after)
  {
    var dp := Follow(g, r, route + [k]).service;
    var now := before[dp := route + [k]];
    assert Begins(route + [k], route + [k]) && DoneAt(g, r, route + [k], route + [k], after);
    assert now[dp] == route + [k] && after[dp] == route + [k];
    hide Follow, Done;
    var m: nat :| MetThrough(route + [k], m, now, after);
    forall x | x in after && x !in met ensures |route| < |after[x]| && Begins(route, after[x]) && after[x][|route|] < k + 1 {
      BeginsEntry(route, k, after[x]);
    }
    assert Grows(before, after);
    forall n: nat | n < k ensures Entered(g, r, route, n, after) {
      EnteredGrows(g, r, route, n, before, after);
    }
  }

  // When the ways through all entries of a list are done, so is the way to the list.
  lemma DoneAll(g: seq<Config>, r: nat, route: seq<nat>, met: map<nat, seq<nat>>)
    requires r < |g| && Follow(g, r, route).Target?
    requires forall k: nat :: k < |g[Follow(g, r, route).service].dependsOn| ==> Entered(g, r, route, k, met)
    ensures Done(g, r, route, met)
  {
    var s := Follow(g, r, route).service;
    forall k | 0 <= k < |g[s].dependsOn| ensures Find(g, g[s].dependsOn[k]).Target? {
      assert Entered(g, r, route, k, met);
      FollowStep(g, r, route, k);
    }
    forall ls | Begins(route, ls) && Follow(g, r, ls).Target? ensures DoneAt(g, r, route, ls, met) {
      if |ls| == |route| {
        assert ls == ls[..|route|] == route;
      } else {
        var k := ls[|route|];
        assert ls[..|route| + 1] == route + [k];
        FollowPrefix(g, r, ls, |route| + 1);
        FollowStep(g, r, route, k);
        assert Entered(g, r, route, k, met);
        assert DoneAt(g, r, [], route + [k], met) && DoneAt(g, r, route + [k], ls, met);
      }
    }
  }

  class Parser {
    const services: seq<Service>

    constructor (services: seq<Service>)
      ensures this.services == services
    {
      this.services := services;
    }

    ghost function Graph(): seq<Config> {
      seq(|services|, i requires 0 <= i < |services| => services[i].cfg)
    }

    ghost predicate Valid() {
      && (forall i, j :: 0 <= i < j < |services| ==> services[i] != services[j])
      && Distinct(Graph())
    }

    ghost function Met(): set<nat>
      reads services
    {
      set i: nat | i < |services| && services[i].dependVisited
    }

    ghost function Unmet(): set<nat>
      reads services
    {
      set i: nat | i < |services| && !services[i].dependVisited
    }

    ghost function Visited(): set<nat>
      reads services
    {
      set i: nat | i < |services| && services[i].visited
    }

    method GetService(name: string) returns (t: Target)
      ensures t == Find(Graph(), name)
    {
      for i := 0 to |services|
        invariant FindFrom(Graph(), name, i) == Find(Graph(), name)
      {
        if Is(services[i].cfg.name, name) {
          return Target(i);
        }
      }
      return NotDefined;
    }

    method ResetDepend()
      requires Valid()
      modifies services
      ensures Met() == {} && Visited() == {}
    {
      for i := 0 to |services|
        invariant forall j :: 0 <= j < i ==> !services[j].visited && !services[j].dependVisited
      {
        services[i].visited := false;
        services[i].dependVisited := false;
      }
    }

    method Mark(dp: nat)
      requires Valid() && dp < |services| && !services[dp].dependVisited
      modifies services[dp]
      ensures Met() == old(Met()) + {dp} && Visited() == old(Visited()) && Unmet() < old(Unmet())
    {
      services[dp].dependVisited := true;
      assert dp in old(Unmet()) && dp !in Unmet();
    }

    method MarkVisited(s: nat)
      requires Valid() && s < |services|
      modifies services[s]
      ensures Met() == old(Met()) && Visited() == old(Visited()) + {s} && Unmet() == old(Unmet())
    {
      services[s].visited := true;
    }

    // validate_depend: `route` is the way from the root r to service s. The program exits
    // where `ok` is false.
    method ValidateDepend(s: nat, ghost r: nat, ghost route: seq<nat>, ghost met: map<nat, seq<nat>>)
      returns (ok: bool, ghost met': map<nat, seq<nat>>)
      requires Valid() && s < |services| && r < |services| && Follow(Graph(), r, route) == Target(s)
      requires Recorded(Graph(), r, met) && met.Keys == Met() && Untouched(route, met)
      requires Visited() <= Met() && !services[s].visited
      modifies services
      ensures Unmet() <= old(Unmet())
      ensures ok ==> Recorded(Graph(), r, met') && met'.Keys == Met() && Visited() <= Met() + {s}
      ensures ok ==> Grows(met, met') && MetThrough(route, |services[s].cfg.dependsOn|, met, met')
      ensures ok ==> Done(Graph(), r, route, met')
      ensures !ok ==> !Sound(Graph(), r)
      decreases Unmet()
    {
      hide Recorded, Grows, Done, DoneAt, MetThrough, Untouched, Entered, Follow, Sound;
      ghost var g := Graph();
      met' := met;
      NothingMet(route, met);
      if services[s].visited {
        return true, met';
      }
      var names := services[s].cfg.dependsOn;
      for k := 0 to |names|
        invariant Unmet() <= old(Unmet())
        invariant Recorded(g, r, met') && met'.Keys == Met() && Visited() <= Met()
        invariant Grows(met, met') && MetThrough(route, k, met, met')
        invariant forall n: nat :: n < k ==> Entered(g, r, route, n, met')
      {
        var t := GetService(names[k]);
        FollowStep(g, r, route, k);
        if t.NotDefined? {
          Undefined(g, r, route, k);
          return false, met';
        }
        var dp := t.service;
        assert services[dp].dependVisited <==> dp in Met();
        assert services[dp].visited <==> dp in Visited();
        if services[dp].dependVisited {
          MetAgain(g, r, route, k, met, met');
          return false, met';
        }
        ghost var before, now := met', met'[dp := route + [k]];
        MeetNew(g, r, route, k, met, met');
        Mark(dp);
        ok, met' := ValidateDepend(dp, r, route + [k], now);
        if !ok {
          return false, met';
        }
        EntryDone(g, r, route, k, met, before, met');
      }
      DoneAll(g, r, route, met');
      MarkVisited(s);
      return true, met';
    }

    // The first half of check_depend: a walk from every service, with fresh flags.
    method CheckDepend() returns (ok: bool)
      requires Valid() && Met() == {} && Visited() == {}
      modifies services
      ensures ok <==> AllSound(Graph())
      ensures ok ==> Met() == {} && Visited() == {}
    {
      hide Recorded, Grows, Done, MetThrough, Untouched, Follow, Sound, Distinct;
      ghost var g := Graph();
      for s := 0 to |services|
        invariant Met() == {} && Visited() == {}
        invariant forall r: nat :: r < s ==> Sound(g, r)
      {
        assert s !in Visited();
        if !services[s].visited {
          ghost var met;
          WalkBegins(g, s);
          ok, met := ValidateDepend(s, s, [], map[]);
          if !ok {
            return false;
          }
          DoneSound(g, s, met);
          ResetDepend();
        }
      }
      return true;
    }
  }

  // A walk that came to its end has met every service on one way only.
  lemma DoneSound(g: seq<Config>, r: nat, met: map<nat, seq<nat>>)
    requires r < |g| && Done(g, r, [], met)
    ensures Sound(g, r)
  {
    forall ks | Follow(g, r, ks).Target? ensures DoneAt(g, r, [], ks, met) {
      assert Begins([], ks);
    }
  }

  // ---- What an accepted graph is good for ----

  lemma {:induction false} FollowConcat(g: seq<Config>, r: nat, a: seq<nat>, b: seq<nat>)
    requires r < |g| && Follow(g, r, a).Target?
    ensures Follow(g, r, a + b) == Follow(g, Follow(g, r, a).service, b)
    decreases |b|
  {
    if b == [] {
      assert a + b == a;
    } else {
      FollowConcat(g, r, a, b[..|b| - 1]);
      assert (a + b)[..|a + b| - 1] == a + b[..|b| - 1];
    }
  }

  lemma EntryOf(g: seq<Config>, i: nat, j: nat) returns (k: nat)
    requires Distinct(g) && Needs(g, i, j)
    ensures i < |g| && Follow(g, i, [k]) == Target(j)
  {
    var d :| d in g[i].dependsOn && Is(d, g[j].name);
    k :| 0 <= k < |g[i].dependsOn| && g[i].dependsOn[k] == d;
    assert [k][..0] == [] && Follow(g, i, []) == Target(i);
  }

  // Every chain of dependencies is a way through the lists.
  lemma {:induction false} RouteOf(g: seq<Config>, p: seq<nat>) returns (ks: seq<nat>)
    requires Distinct(g) && Path(g, p)
    ensures p[0] < |g| && ks != [] && Follow(g, p[0], ks) == Target(p[|p| - 1])
    decreases |p|
  {
    var n := |p| - 1;
    assert Needs(g, p[n - 1], p[n]);
    var k := EntryOf(g, p[n - 1], p[n]);
    if n == 1 {
      ks := [k];
    } else {
      assert Path(g, p[..n]);
      var front := RouteOf(g, p[..n]);
      FollowConcat(g, p[0], front, [k]);
      ks := front + [k];
    }
  }

  // What the commands of control.c need holds of every accepted graph: all names are
  // names of services, and there is no loop.
  lemma AcceptedIsAcyclic(g: seq<Config>)
    requires Distinct(g) && AllSound(g)
    ensures Wired(g) && Acyclic(g)
  {
    forall i, d | 0 <= i < |g| && d in g[i].dependsOn ensures exists j :: 0 <= j < |g| && Is(g[j].name, d) {
      assert Sound(g, i) && Follow(g, i, []) == Target(i) && NamesResolve(g, i);
      var k :| 0 <= k < |g[i].dependsOn| && g[i].dependsOn[k] == d;
      assert Is(g[Find(g, d).service].name, d);
    }
    forall i: nat | i < |g| ensures !Reaches(g, i, i) {
      if Reaches(g, i, i) {
        var p :| Path(g, p) && p[0] == i && p[|p| - 1] == i;
        var ks := RouteOf(g, p);
        FollowConcat(g, i, ks, ks);
        assert Sound(g, i) && Meet(g, i, ks, ks + ks);
      }
    }
  }

  lemma FindIs(g: seq<Config>, j: nat)
    requires Distinct(g) && j < |g|
    ensures Find(g, g[j].name) == Target(j)
  {
  }

  // The other way round a graph without loops may be refused: two services share a
  // prerequisite, and one service needs both.
  lemma DiamondRefused(a: Config, b: Config, c: Config, d: Config)
    requires Distinct([a, b, c, d])
    requires a.dependsOn == [b.name, c.name] && b.dependsOn == [d.name] && c.dependsOn == [d.name] && d.dependsOn == []
    ensures Wired([a, b, c, d]) && Acyclic([a, b, c, d]) && !AllSound([a, b, c, d])
  {
    DiamondMeets([a, b, c, d]);
    DiamondRises([a, b, c, d]);
    RisesAcyclic([a, b, c, d]);
  }

  ghost predicate Diamond(g: seq<Config>) {
    && Distinct(g) && |g| == 4
    && g[0].dependsOn == [g[1].name, g[2].name] && g[1].dependsOn == [g[3].name]
    && g[2].dependsOn == [g[3].name] && g[3].dependsOn == []
  }

  lemma DiamondMeets(g: seq<Config>)
    requires Diamond(g)
    ensures !AllSound(g)
  {
    FindIs(g, 1);
    FindIs(g, 2);
    FindIs(g, 3);
    hide Distinct, Find;
    assert Follow(g, 0, []) == Target(0);
    FollowStep(g, 0, [], 0);
    FollowStep(g, 0, [], 1);
    assert [] + [0] == [0] && [] + [1] == [1];
    hide Follow;
    FollowStep(g, 0, [0], 0);
    FollowStep(g, 0, [1], 0);
    assert ([0] + [0])[0] == 0 && ([1] + [0])[0] == 1;
    assert Meet(g, 0, [0] + [0], [1] + [0]);
    assert !Sound(g, 0);
  }

  lemma DiamondRises(g: seq<Config>)
    requires Diamond(g)
    ensures Rises(g) && Wired(g)
  {
    hide Fold;
    forall i: nat, j: nat | Needs(g, i, j) ensures i < j {
      var d :| d in g[i].dependsOn && Is(d, g[j].name);
    }
  }

  ghost predicate Rises(g: seq<Config>) {
    forall i: nat, j: nat :: Needs(g, i, j) ==> i < j
  }

  // Where services only need later ones there is no loop.
  lemma {:induction false} RisesFar(g: seq<Config>, p: seq<nat>)
    requires Rises(g) && Path(g, p)
    ensures p[0] < p[|p| - 1]
    decreases |p|
  {
    var n := |p| - 1;
    assert Needs(g, p[n - 1], p[n]);
    if n > 1 {
      assert Path(g, p[..n]);
      RisesFar(g, p[..n]);
    }
  }

  lemma RisesAcyclic(g: seq<Config>)
    requires Rises(g)
    ensures Acyclic(g)
  {
    forall i: nat | i < |g| ensures !Reaches(g, i, i) {
      if Reaches(g, i, i) {
        var p :| Path(g, p) && p[0] == i && p[|p| - 1] == i;
        RisesFar(g, p);
      }
    }
  }

  lemma AllNamed(g: seq<Config>, x: nat)
    requires Wired(g) && x < |g|
    ensures NamesResolve(g, x)
  {
    forall k | 0 <= k < |g[x].dependsOn| ensures Find(g, g[x].dependsOn[k]).Target? {
      assert g[x].dependsOn[k] in g[x].dependsOn;
    }
  }

  // A way leads along dependencies.
  lemma {:induction false} WayReaches(g: seq<Config>, r: nat, ks: seq<nat>)
    requires r < |g| && ks != [] && Follow(g, r, ks).Target?
    ensures Reaches(g, r, Follow(g, r, ks).service)
    decreases |ks|
  {
    var front, k := ks[..|ks| - 1], ks[|ks| - 1];
    FollowPrefix(g, r, ks, |ks| - 1);
    var x, y := Follow(g, r, front).service, Follow(g, r, ks).service;
    assert g[x].dependsOn[k] in g[x].dependsOn && SameIs(g[y].name, g[x].dependsOn[k]);
    ReachesStep(g, x, y);
    if front != [] {
      WayReaches(g, r, front);
      ReachesTrans(g, r, x, y);
    }
  }

  predicate SameIs(a: string, b: string) {
    Is(a, b) && Is(b, a)
  }

  // With lists of one entry at most, a way consists of zeros.
  lemma {:induction false} OnlyZeros(g: seq<Config>, r: nat, ks: seq<nat>)
    requires r < |g| && Follow(g, r, ks).Target? && forall i :: 0 <= i < |g| ==> |g[i].dependsOn| <= 1
    ensures forall k :: 0 <= k < |ks| ==> ks[k] == 0
    decreases |ks|
  {
    if ks != [] {
      FollowPrefix(g, r, ks, |ks| - 1);
      OnlyZeros(g, r, ks[..|ks| - 1]);
    }
  }

  lemma OneWay(g: seq<Config>, r: nat, ks: seq<nat>, ls: seq<nat>)
    requires r < |g| && |ks| <= |ls| && Meet(g, r, ks, ls) && forall i :: 0 <= i < |g| ==> |g[i].dependsOn| <= 1
    ensures !Acyclic(g)
  {
    OnlyZeros(g, r, ks);
    OnlyZeros(g, r, ls);
    var x, rest := Follow(g, r, ks).service, ls[|ks|..];
    assert ls == ks + rest;
    FollowConcat(g, r, ks, rest);
    assert |ks| == |ls| ==> ks == ls;
    assert |rest| > 0;
    WayReaches(g, x, rest);
  }

  // Where every service needs at most one other, the lists are chains: such a graph is
  // accepted exactly when it has no loop. Two services may need the same one.
  lemma ChainsAccepted(g: seq<Config>)
    requires Wired(g) && forall i :: 0 <= i < |g| ==> |g[i].dependsOn| <= 1
    ensures AllSound(g) <==> Acyclic(g)
  {
    if AllSound(g) {
      AcceptedIsAcyclic(g);
    }
    if Acyclic(g) {
      forall r: nat | r < |g| ensures Sound(g, r) {
        forall x: nat | x < |g| ensures NamesResolve(g, x) {
          AllNamed(g, x);
        }
        forall ks, ls ensures !Meet(g, r, ks, ls) {
          if Meet(g, r, ks, ls) {
            if |ks| <= |ls| { OneWay(g, r, ks, ls); } else { OneWay(g, r, ls, ks); }
          }
        }
      }
    }
  }
}
