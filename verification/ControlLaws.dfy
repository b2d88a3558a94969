// What a whole command achieves when the flags were reset before it, and what a
// whole run of `control` over the service list keeps.
module ControlLaws {
  import opened ServiceGraph
  import opened ControlSpec

  ghost predicate Fresh(s: State) {
    s.visited == {} && s.dependVisited == {}
  }

  // Every transitive prerequisite of a started service comes before it.
  ghost predicate StartOrder(g: seq<Config>, ws: seq<nat>) {
    forall k, y {:trigger Reaches(g, ws[k], y)} :: 0 <= k < |ws| && Reaches(g, ws[k], y) ==> y in ws[..k]
  }

  // Every transitive dependant of a stopped service comes before it.
  ghost predicate StopOrder(g: seq<Config>, ws: seq<nat>) {
    forall k, y {:trigger Reaches(g, y, ws[k])} :: 0 <= k < |ws| && Reaches(g, y, ws[k]) ==> y in ws[..k]
  }

  lemma StartOrderHolds(g: seq<Config>, ws: seq<nat>)
    requires PrerequisitesFirst(g, ws, {})
    ensures StartOrder(g, ws)
  {
    forall k, y | 0 <= k < |ws| && Reaches(g, ws[k], y) ensures y in ws[..k] {
      PrerequisitesFirstTrans(g, ws, {}, k, y);
    }
  }

  lemma StopOrderHolds(g: seq<Config>, ws: seq<nat>)
    requires DependantsFirst(g, ws, {})
    ensures StopOrder(g, ws)
  {
    forall k, y | 0 <= k < |ws| && Reaches(g, y, ws[k]) ensures y in ws[..k] {
      DependantsFirstTrans(g, ws, k, y);
    }
  }

  // What starting service i has to bring up: i, its dependants, and all they need.
  ghost function Closure(g: seq<Config>, i: nat): set<nat> {
    set x: nat | x < |g| && InClosure(g, i, x)
  }

  ghost predicate InClosure(g: seq<Config>, i: nat, x: nat) {
    x == i || Reaches(g, i, x) || Reaches(g, x, i) || exists d :: Reaches(g, d, i) && Reaches(g, d, x)
  }

  // One lowering walk, seen from flags that were reset.
  lemma LoweredLaw(g: seq<Config>, os: Oracle, covered: set<nat>, s0: State, s1: State)
    requires Lowered(g, os, Stopping, covered, s0, s1) && s0.dependVisited == {}
    ensures Extends(s0, s1)
    ensures Enumerates(Whos(News(s0, s1)), covered) && StopOrder(g, Whos(News(s0, s1)))
    ensures forall e :: e in News(s0, s1) ==> StopEvent(g, os, e)
    ensures s1.monitored == s0.monitored - covered && s1.visited == s0.visited
  {
    assert covered - s0.dependVisited == covered;
    StopOrderHolds(g, Whos(News(s0, s1)));
  }

  // In such an order nothing can follow the service everything else depends on.
  lemma TargetIsLast(g: seq<Config>, i: nat, ws: seq<nat>)
    requires Enumerates(ws, Dependants(g, i) + {i}) && StopOrder(g, ws)
    ensures ws != [] && ws[|ws| - 1] == i
  {
    assert i in ws;
    var k :| 0 <= k < |ws| && ws[k] == i;
    assert forall x :: x in ws ==> x == i || Reaches(g, x, ws[k]);
    assert ws[|ws| - 1] in ws;
    assert ws[|ws| - 1] in ws[..k] + [i];
  }

  // "stop": the target and its dependants are stopped, each once, dependants first.
  lemma StopLaw(g: seq<Config>, os: Oracle, i: nat, s0: State, s1: State)
    requires i < |g| && s0.dependVisited == {}
    requires Handled(g, os, "stop", i, s0, s1)
    requires !g[i].isProcess || g[i].hasStop
    ensures Extends(s0, s1)
    ensures var ws := Whos(News(s0, s1));
      && Enumerates(ws, Dependants(g, i) + {i})
      && StopOrder(g, ws)
      && ws != [] && ws[|ws| - 1] == i
    ensures forall e :: e in News(s0, s1) ==> StopEvent(g, os, e)
    ensures InTime(g, News(s0, s1), |s0.questions|, s1.questions)
    ensures AllMeant(g, os, News(s0, s1), |s0.questions|, s1.questions)
    ensures AllDown(g, os, Dependants(g, i) + {i}, News(s0, s1), |s0.questions|, s1.questions)
    ensures s1.monitored == s0.monitored - (Dependants(g, i) + {i})
  {
    LoweredLaw(g, os, Dependants(g, i) + {i}, s0, s1);
    TargetIsLast(g, i, Whos(News(s0, s1)));
    OnlyStops(g, os, News(s0, s1), Dependants(g, i) + {i}, |s0.questions|, s1.questions);
  }

  // One raising walk from a set of roots, seen from flags that were reset.
  lemma RaisedLaw(g: seq<Config>, os: Oracle, w: Walk, roots: set<nat>, s0: State, s1: State)
    requires Raised(g, os, w, roots, s0, s1) && s0.visited == {}
    ensures forall x :: x in s1.visited <==> x in roots || exists r :: r in roots && Reaches(g, r, x)
  {
    assert s1.visited - s0.visited == s1.visited;
    forall x, r | r in roots && Reaches(g, r, x) ensures x in s1.visited {
      ReachableFromClosed(g, s1.visited, r, x);
    }
  }

  lemma ClosureIsRaised(g: seq<Config>, i: nat, v: set<nat>)
    requires i < |g|
    requires forall x :: x in v <==> x in {i} + Dependants(g, i) || exists r :: r in {i} + Dependants(g, i) && Reaches(g, r, x)
    ensures v == Closure(g, i)
  {
    forall x: nat ensures x in v <==> x in Closure(g, i) {
      if x in v && x !in {i} + Dependants(g, i) {
        var r :| r in {i} + Dependants(g, i) && Reaches(g, r, x);
        ReachesInRange(g, r, x);
      }
      if x in Closure(g, i) && x != i && !Reaches(g, i, x) && !Reaches(g, x, i) {
        var d :| Reaches(g, d, i) && Reaches(g, d, x);
        ReachesInRange(g, d, x);
        assert d in {i} + Dependants(g, i);
      }
      if Reaches(g, i, x) { assert i in {i} + Dependants(g, i); }
    }
  }

  // do_start on the target and then on everything that depends on it.
  lemma StartedAllLaw(g: seq<Config>, os: Oracle, i: nat, s0: State, s1: State)
    requires i < |g| && Acyclic(g) && s0.visited == {}
    requires StartedAll(g, os, i, s0, s1)
    ensures Extends(s0, s1) && s1.visited == Closure(g, i)
    ensures Enumerates(Whos(News(s0, s1)), Closure(g, i)) && StartOrder(g, Whos(News(s0, s1)))
    ensures forall e :: e in News(s0, s1) ==> StartEvent(g, os, e)
    ensures s1.monitored == s0.monitored + Closure(g, i) && s1.dependVisited == s0.dependVisited
  {
    var m: State :| Raised(g, os, Starting, {i}, s0, m) && Raised(g, os, Starting, Dependants(g, i), m, s1);
    RaisedCompose(g, os, Starting, {i}, Dependants(g, i), s0, m, s1);
    RaisedLaw(g, os, Starting, {i} + Dependants(g, i), s0, s1);
    ClosureIsRaised(g, i, s1.visited);
    assert s1.visited - s0.visited == s1.visited;
    StartOrderHolds(g, Whos(News(s0, s1)));
  }

  // "start": every dependant is stopped, dependants first, before anything is
  // started; then the target, its dependants and all they need are started, each
  // once and after everything it needs.
  lemma StartLaw(g: seq<Config>, os: Oracle, i: nat, s0: State, s1: State) returns (stops: seq<Event>, starts: seq<Event>)
    requires i < |g| && Acyclic(g) && Fresh(s0)
    requires Handled(g, os, "start", i, s0, s1)
    requires !g[i].isProcess || (g[i].hasStart && !os(|s0.questions|, i))
    ensures Extends(s0, s1) && News(s0, s1) == stops + starts
    ensures Enumerates(Whos(stops), Dependants(g, i)) && StopOrder(g, Whos(stops))
    ensures forall e :: e in stops ==> StopEvent(g, os, e)
    ensures Enumerates(Whos(starts), Closure(g, i)) && StartOrder(g, Whos(starts))
    ensures forall e :: e in starts ==> StartEvent(g, os, e)
    ensures InTime(g, stops + starts, |s0.questions|, s1.questions)
    ensures AllMeant(g, os, stops + starts, |s0.questions|, s1.questions)
    ensures AllDown(g, os, Dependants(g, i), stops + starts, |s0.questions|, s1.questions)
    ensures AllUp(g, os, Closure(g, i), stops + starts, |s0.questions|, s1.questions)
    ensures s1.monitored == s0.monitored + Closure(g, i)
  {
    HandledInTime(g, os, "start", i, s0, s1);
    hide Lowered, StartedAll, Enumerates, StopOrder, StartOrder, Acyclic, InTime;
    var asked := if g[i].isProcess then s0.(questions := s0.questions + [i]) else s0;
    var m: State :| Lowered(g, os, Stopping, Dependants(g, i), asked, m) && StartedAll(g, os, i, m, s1);
    LoweredLaw(g, os, Dependants(g, i), asked, m);
    StartedAllLaw(g, os, i, m, s1);
    NewsConcat(asked, m, s1);
    stops, starts := News(asked, m), News(m, s1);
    assert Dependants(g, i) <= Closure(g, i);
    StopsThenStarts(g, os, stops, Dependants(g, i), starts, Closure(g, i), |s0.questions|, s1.questions);
  }

  // Everything a command stops it starts again.
  lemma StoppedIsStarted(g: seq<Config>, i: nat, monitored: set<nat>)
    requires i < |g|
    ensures Dependants(g, i) + {i} <= Closure(g, i)
    ensures monitored - (Dependants(g, i) + {i}) + Closure(g, i) == monitored + Closure(g, i)
  {
  }

  lemma StopsTargetLast(g: seq<Config>, os: Oracle, i: nat, s0: State, m: State)
    requires i < |g| && s0.dependVisited == {} && Lowered(g, os, Stopping, Dependants(g, i) + {i}, s0, m)
    ensures Extends(s0, m)
    ensures var es := News(s0, m);
      es != [] && es[|es| - 1].who == i && es[|es| - 1].Stopped? && es[|es| - 1].ok == StopSucceeded(i, s0, m)
  {
    LoweredLaw(g, os, Dependants(g, i) + {i}, s0, m);
    hide Lowered, Enumerates, StopOrder, Prerequisites;
    var es := News(s0, m);
    TargetIsLast(g, i, Whos(es));
    var e := es[|es| - 1];
    assert e in es && e.who == Whos(es)[|es| - 1] && e == m.history[|m.history| - 1];
  }

  lemma RestartHandled(g: seq<Config>, os: Oracle, i: nat, s0: State, s1: State) returns (m: State)
    requires i < |g| && Handled(g, os, "restart", i, s0, s1)
    requires !g[i].isProcess || (g[i].hasStart && g[i].hasStop)
    ensures Lowered(g, os, Stopping, Dependants(g, i) + {i}, s0, m)
    ensures if StopSucceeded(i, s0, m) then StartedAll(g, os, i, m, s1) else s1 == m
  {
    hide Lowered, StartedAll, StopSucceeded, Acyclic, Dependants;
    m :| Lowered(g, os, Stopping, Dependants(g, i) + {i}, s0, m)
      && (if StopSucceeded(i, s0, m) then StartedAll(g, os, i, m, s1) else s1 == m);
  }

  // "restart": the target is the last service stopped; when its stop fails,
  // nothing is started, and otherwise everything is started again.
  lemma RestartLaw(g: seq<Config>, os: Oracle, i: nat, s0: State, s1: State) returns (stops: seq<Event>, starts: seq<Event>)
    requires i < |g| && Acyclic(g) && Fresh(s0)
    requires Handled(g, os, "restart", i, s0, s1)
    requires !g[i].isProcess || (g[i].hasStart && g[i].hasStop)
    ensures Extends(s0, s1) && News(s0, s1) == stops + starts
    ensures Enumerates(Whos(stops), Dependants(g, i) + {i}) && StopOrder(g, Whos(stops))
    ensures forall e :: e in stops ==> StopEvent(g, os, e)
    ensures InTime(g, stops + starts, |s0.questions|, s1.questions)
    ensures AllMeant(g, os, stops + starts, |s0.questions|, s1.questions)
    ensures AllDown(g, os, Dependants(g, i) + {i}, stops + starts, |s0.questions|, s1.questions)
    ensures stops != [] && stops[|stops| - 1].who == i && stops[|stops| - 1].Stopped?
    ensures !stops[|stops| - 1].ok ==> starts == [] && s1.monitored == s0.monitored - (Dependants(g, i) + {i})
    ensures stops[|stops| - 1].ok ==>
      && Enumerates(Whos(starts), Closure(g, i)) && StartOrder(g, Whos(starts))
      && (forall e :: e in starts ==> StartEvent(g, os, e))
      && AllUp(g, os, Closure(g, i), stops + starts, |s0.questions|, s1.questions)
      && s1.monitored == s0.monitored + Closure(g, i)
  {
    hide Handled, Lowered, StartedAll, Enumerates, StopOrder, StartOrder, Acyclic, StartEvent, StopEvent, Closure, Dependants, InTime;
    HandledInTime(g, os, "restart", i, s0, s1);
    var cs := Dependants(g, i) + {i};
    var m := RestartHandled(g, os, i, s0, s1);
    LoweredLaw(g, os, cs, s0, m);
    StopsTargetLast(g, os, i, s0, m);
    stops, starts := News(s0, m), [];
    hide StopSucceeded;
    if stops[|stops| - 1].ok {
      StartedAllLaw(g, os, i, m, s1);
      NewsConcat(s0, m, s1);
      starts := News(m, s1);
      StoppedIsStarted(g, i, s0.monitored);
      StopsThenStarts(g, os, stops, cs, starts, Closure(g, i), |s0.questions|, s1.questions);
    } else {
      assert stops + [] == stops;
      OnlyStops(g, os, stops, cs, |s0.questions|, s1.questions);
    }
  }

  lemma MonitorHandled(g: seq<Config>, os: Oracle, i: nat, s0: State, s1: State)
    requires i < |g| && Handled(g, os, "monitor", i, s0, s1)
    ensures Raised(g, os, Monitoring, {i}, s0, s1)
  {
    OneCommand("monitor");
    SameName("monitor");
    hide Is, Raised, Lowered, StartedAll;
  }

  lemma ReachedFrom(g: seq<Config>, i: nat, v: set<nat>)
    requires i < |g|
    requires forall x :: x in v <==> x in {i} || exists r :: r in {i} && Reaches(g, r, x)
    ensures v == {i} + Prerequisites(g, i)
  {
    forall x: nat ensures x in v <==> x in {i} + Prerequisites(g, i) {
      if Reaches(g, i, x) {
        ReachesInRange(g, i, x);
        assert i in {i};
      }
    }
  }

  // "monitor", on any graph: exactly the target and what it needs are monitored.
  lemma MonitorLaw(g: seq<Config>, os: Oracle, i: nat, s0: State, s1: State)
    requires i < |g| && s0.visited == {}
    requires Handled(g, os, "monitor", i, s0, s1)
    ensures s1.monitored == s0.monitored + {i} + Prerequisites(g, i)
    ensures s1.history == s0.history && s1.dependVisited == s0.dependVisited
  {
    MonitorHandled(g, os, i, s0, s1);
    RaisedLaw(g, os, Monitoring, {i}, s0, s1);
    ReachedFrom(g, i, s1.visited);
    assert s1.visited - s0.visited == s1.visited;
    hide Handled, Reaches, Prerequisites;
  }

  // "unmonitor": exactly the target and what depends on it are unmonitored.
  lemma UnmonitorLaw(g: seq<Config>, os: Oracle, i: nat, s0: State, s1: State)
    requires i < |g| && s0.dependVisited == {}
    requires Handled(g, os, "unmonitor", i, s0, s1)
    ensures s1.monitored == s0.monitored - ({i} + Dependants(g, i))
    ensures s1.history == s0.history && s1.visited == s0.visited
  {
    var cs := Dependants(g, i) + {i};
    assert Lowered(g, os, Unmonitoring, cs, s0, s1);
    assert cs - s0.dependVisited == cs == {i} + Dependants(g, i);
  }

  // ---- A whole run of `control` over the service list ----

  function Starts(es: seq<Event>): seq<Event> {
    if es == [] then [] else (if es[0].Started? then [es[0]] else []) + Starts(es[1..])
  }

  function Stops(es: seq<Event>): seq<Event> {
    if es == [] then [] else (if es[0].Stopped? then [es[0]] else []) + Stops(es[1..])
  }

  lemma Assoc(a: seq<Event>, b: seq<Event>, c: seq<Event>)
    ensures a + (b + c) == a + b + c
  {
  }

  lemma {:induction false} FiltersConcat(a: seq<Event>, b: seq<Event>)
    ensures Starts(a + b) == Starts(a) + Starts(b)
    ensures Stops(a + b) == Stops(a) + Stops(b)
  {
    if a == [] {
      assert a + b == b;
    } else {
      FiltersConcat(a[1..], b);
      assert (a + b)[1..] == a[1..] + b && (a + b)[0] == a[0];
      Assoc(if a[0].Started? then [a[0]] else [], Starts(a[1..]), Starts(b));
      Assoc(if a[0].Stopped? then [a[0]] else [], Stops(a[1..]), Stops(b));
    }
  }

  lemma {:induction false} FiltersUniform(es: seq<Event>)
    ensures (forall e :: e in es ==> e.Started?) ==> Starts(es) == es && Stops(es) == []
    ensures (forall e :: e in es ==> e.Stopped?) ==> Stops(es) == es && Starts(es) == []
  {
    if es != [] {
      assert forall e :: e in es[1..] ==> e in es;
      FiltersUniform(es[1..]);
    }
  }

  ghost predicate NeverStoppedAfterStart(es: seq<Event>) {
    forall p, q :: 0 <= p < q < |es| && es[p].Started? && es[q].Stopped? ==> es[p].who != es[q].who
  }

  // What a run keeps: so far the visited services were started and the
  // depend-visited ones stopped, each once and in order, and no service was
  // stopped after it had been started.
  ghost predicate RunKeeps(g: seq<Config>, os: Oracle, es: seq<Event>, s: State) {
    && (forall e :: e in es ==> StartEvent(g, os, e) || StopEvent(g, os, e))
    && Enumerates(Whos(Starts(es)), s.visited) && PrerequisitesFirst(g, Whos(Starts(es)), {})
    && Enumerates(Whos(Stops(es)), s.dependVisited) && DependantsFirst(g, Whos(Stops(es)), {})
    && NeverStoppedAfterStart(es)
    && StartedWithin(es, s.visited)
  }

  ghost predicate StartedWithin(es: seq<Event>, v: set<nat>) {
    forall p :: 0 <= p < |es| && es[p].Started? ==> es[p].who in v
  }

  lemma AppendStops(es: seq<Event>, ns: seq<Event>, v: set<nat>)
    requires NeverStoppedAfterStart(es) && StartedWithin(es, v)
    requires forall q :: 0 <= q < |ns| ==> ns[q].Stopped? && Whos(ns)[q] !in v
    ensures NeverStoppedAfterStart(es + ns) && StartedWithin(es + ns, v)
  {
  }

  lemma AppendStarts(es: seq<Event>, ns: seq<Event>, v: set<nat>, v': set<nat>)
    requires NeverStoppedAfterStart(es) && StartedWithin(es, v) && v <= v'
    requires forall q :: 0 <= q < |ns| ==> ns[q].Started? && Whos(ns)[q] in v'
    ensures NeverStoppedAfterStart(es + ns) && StartedWithin(es + ns, v')
  {
  }

  lemma VisitedClosed(g: seq<Config>, os: Oracle, es: seq<Event>, s: State, x: nat, y: nat)
    requires RunKeeps(g, os, es, s) && x in s.visited && Reaches(g, x, y)
    ensures y in s.visited
  {
    var ws := Whos(Starts(es));
    var k :| 0 <= k < |ws| && ws[k] == x;
    PrerequisitesFirstTrans(g, ws, {}, k, y);
    assert y in ws;
  }

  lemma LoweringKeeps(g: seq<Config>, os: Oracle, covered: set<nat>, es: seq<Event>, s0: State, s1: State)
    requires RunKeeps(g, os, es, s0) && Lowered(g, os, Stopping, covered, s0, s1)
    requires covered !! s0.visited
    ensures RunKeeps(g, os, es + News(s0, s1), s1)
    ensures Extends(s0, s1) && s1.visited == s0.visited && s1.dependVisited == s0.dependVisited + covered
    ensures s1.monitored == s0.monitored - (covered - s0.dependVisited)
  {
    var ns := News(s0, s1);
    FiltersConcat(es, ns);
    FiltersUniform(ns);
    WhosConcat(Stops(es), Stops(ns));
    EnumeratesConcat(Whos(Stops(es)), s0.dependVisited, Whos(ns), covered - s0.dependVisited);
    assert s0.dependVisited + (covered - s0.dependVisited) == s1.dependVisited;
    DependantsFirstConcat(g, Whos(Stops(es)), Whos(ns), {}, s0.dependVisited);
    assert Starts(es) + [] == Starts(es);
    forall q | 0 <= q < |ns| ensures ns[q].Stopped? && Whos(ns)[q] !in s0.visited {
      assert ns[q] in ns && Whos(ns)[q] in Whos(ns);
    }
    AppendStops(es, ns, s0.visited);
  }

  lemma RaisingKeeps(g: seq<Config>, os: Oracle, roots: set<nat>, es: seq<Event>, s0: State, s1: State)
    requires Acyclic(g) && RunKeeps(g, os, es, s0) && Raised(g, os, Starting, roots, s0, s1)
    ensures RunKeeps(g, os, es + News(s0, s1), s1)
  {
    var ns := News(s0, s1);
    FiltersConcat(es, ns);
    FiltersUniform(ns);
    WhosConcat(Starts(es), Starts(ns));
    EnumeratesConcat(Whos(Starts(es)), s0.visited, Whos(ns), s1.visited - s0.visited);
    assert s0.visited + (s1.visited - s0.visited) == s1.visited;
    PrerequisitesFirstConcat(g, Whos(Starts(es)), Whos(ns), {}, s0.visited);
    assert Stops(es) + [] == Stops(es);
    forall q | 0 <= q < |ns| ensures ns[q].Started? && Whos(ns)[q] in s1.visited {
      assert ns[q] in ns && Whos(ns)[q] in Whos(ns);
    }
    AppendStarts(es, ns, s0.visited, s1.visited);
    hide NeverStoppedAfterStart, StartedWithin;
  }

  lemma StartedAllKeeps(g: seq<Config>, os: Oracle, i: nat, es: seq<Event>, s0: State, s1: State)
    requires Acyclic(g) && RunKeeps(g, os, es, s0) && StartedAll(g, os, i, s0, s1)
    ensures Extends(s0, s1) && RunKeeps(g, os, es + News(s0, s1), s1)
    ensures i < |g| ==> s1.visited == s0.visited + Closure(g, i)
    ensures s0.dependVisited == s1.dependVisited
    ensures s1.monitored == s0.monitored + (s1.visited - s0.visited)
  {
    hide RunKeeps, Acyclic, Prerequisites;
    var m: State :| Raised(g, os, Starting, {i}, s0, m) && Raised(g, os, Starting, Dependants(g, i), m, s1);
    RaisingKeeps(g, os, {i}, es, s0, m);
    RaisingKeeps(g, os, Dependants(g, i), es + News(s0, m), m, s1);
    NewsConcat(s0, m, s1);
    assert es + News(s0, m) + News(m, s1) == es + (News(s0, m) + News(m, s1));
    if i < |g| {
      VisitsClosure(g, os, i, s0, m, s1);
      ClosureVisited(g, os, i, es + News(s0, s1), s1);
    }
  }

  lemma VisitsClosure(g: seq<Config>, os: Oracle, i: nat, s0: State, m: State, s1: State)
    requires i < |g| && Raised(g, os, Starting, {i}, s0, m) && Raised(g, os, Starting, Dependants(g, i), m, s1)
    ensures s0.visited + {i} + Dependants(g, i) <= s1.visited <= s0.visited + Closure(g, i)
  {
    forall x | x in s1.visited && x !in s0.visited ensures x in Closure(g, i) {
      if x in m.visited {
        assert x in m.visited - s0.visited;
      } else {
        assert x in s1.visited - m.visited;
      }
    }
  }

  lemma ClosureVisited(g: seq<Config>, os: Oracle, i: nat, es: seq<Event>, s: State)
    requires i < |g| && RunKeeps(g, os, es, s) && {i} + Dependants(g, i) <= s.visited
    ensures Closure(g, i) <= s.visited
  {
    hide RunKeeps;
    assert i in {i};
    forall x | x in Closure(g, i) ensures x in s.visited {
      if Reaches(g, i, x) {
        VisitedClosed(g, os, es, s, i, x);
      } else if x != i && !Reaches(g, x, i) {
        var d :| Reaches(g, d, i) && Reaches(g, d, x);
        ReachesInRange(g, d, x);
        assert d in Dependants(g, i);
        VisitedClosed(g, os, es, s, d, x);
      }
    }
  }

  lemma SameFlagsKeep(g: seq<Config>, os: Oracle, es: seq<Event>, s0: State, s1: State)
    requires RunKeeps(g, os, es, s0) && s1.visited == s0.visited && s1.dependVisited == s0.dependVisited
    ensures RunKeeps(g, os, es, s1)
  {
  }

  // A service not started yet has no started dependant: stopping those is safe.
  lemma DependantsUntouched(g: seq<Config>, os: Oracle, i: nat, es: seq<Event>, s: State)
    requires RunKeeps(g, os, es, s) && i !in s.visited
    ensures Dependants(g, i) + {i} !! s.visited
  {
    forall x | x in Dependants(g, i) ensures x !in s.visited {
      if x in s.visited { VisitedClosed(g, os, es, s, x, i); }
    }
  }

  lemma StartKeeps(g: seq<Config>, os: Oracle, i: nat, es: seq<Event>, s0: State, s1: State)
    requires i < |g| && Acyclic(g) && RunKeeps(g, os, es, s0) && i !in s0.visited
    requires Handled(g, os, "start", i, s0, s1)
    ensures Extends(s0, s1) && RunKeeps(g, os, es + News(s0, s1), s1)
    ensures LeftAlone(g, os, i, s0, s1) || Brought(g, i, s0, s1)
    ensures s0.monitored + {i} + (s1.visited - s0.visited) <= s1.monitored
  {
    hide Raised, Lowered, StartedAll, Acyclic, RunKeeps, Prerequisites, Dependants, Closure;
    var asked := if g[i].isProcess then s0.(questions := s0.questions + [i]) else s0;
    if g[i].isProcess && (os(|s0.questions|, i) || !g[i].hasStart) {
      assert es + News(s0, s1) == es;
      SameFlagsKeep(g, os, es, s0, s1);
    } else {
      var m: State :| Lowered(g, os, Stopping, Dependants(g, i), asked, m) && StartedAll(g, os, i, m, s1);
      SameFlagsKeep(g, os, es, s0, asked);
      StopStartKeeps(g, os, i, es, asked, m, s1);
    }
  }

  // The dependants are stopped, and then everything is started.
  lemma StopStartKeeps(g: seq<Config>, os: Oracle, i: nat, es: seq<Event>, s0: State, m: State, s1: State)
    requires i < |g| && Acyclic(g) && RunKeeps(g, os, es, s0) && i !in s0.visited
    requires Lowered(g, os, Stopping, Dependants(g, i), s0, m) && StartedAll(g, os, i, m, s1)
    ensures Extends(s0, s1) && RunKeeps(g, os, es + News(s0, s1), s1) && Brought(g, i, s0, s1)
    ensures s0.monitored + {i} + (s1.visited - s0.visited) <= s1.monitored
  {
    hide Raised, Lowered, StartedAll, Acyclic, RunKeeps, Prerequisites, Dependants, Closure;
    DependantsUntouched(g, os, i, es, s0);
    LoweringKeeps(g, os, Dependants(g, i), es, s0, m);
    StartedAllKeeps(g, os, i, es + News(s0, m), m, s1);
    MonitoredAgain(g, i, s0.monitored, s0.dependVisited, s0.visited);
    NewsConcat(s0, m, s1);
    Assoc(es, News(s0, m), News(m, s1));
  }

  // A process without start method, or found running, and nothing else.
  ghost predicate LeftAlone(g: seq<Config>, os: Oracle, i: nat, s0: State, s1: State)
    requires i < |g|
  {
    && g[i].isProcess && (!g[i].hasStart || FoundRunning(os, s1.questions, i, |s0.questions|))
    && s1.visited == s0.visited && s1.dependVisited == s0.dependVisited
  }

  // Everything that depends on i was stopped, and all of i's closure started.
  ghost predicate Brought(g: seq<Config>, i: nat, s0: State, s1: State) {
    s1.visited == s0.visited + Closure(g, i) && s1.dependVisited == s0.dependVisited + Dependants(g, i)
  }

  // What is stopped on the way is monitored again with all else that is started.
  lemma MonitoredAgain(g: seq<Config>, i: nat, monitored: set<nat>, stopped: set<nat>, visited: set<nat>)
    requires i < |g| && Dependants(g, i) + {i} !! visited
    ensures var after := monitored - (Dependants(g, i) - stopped) + (visited + Closure(g, i) - visited);
      monitored + {i} + (visited + Closure(g, i) - visited) <= after
  {
    DependantsInClosure(g, i);
    hide Dependants, Closure;
    assert i in {i};
  }

  lemma DependantsInClosure(g: seq<Config>, i: nat)
    requires i < |g|
    ensures Dependants(g, i) + {i} <= Closure(g, i)
  {
  }

  lemma StopKeeps(g: seq<Config>, os: Oracle, i: nat, es: seq<Event>, s0: State, s1: State)
    requires i < |g| && RunKeeps(g, os, es, s0) && i !in s0.visited
    requires Handled(g, os, "stop", i, s0, s1)
    ensures Extends(s0, s1) && RunKeeps(g, os, es + News(s0, s1), s1)
    ensures s0.visited == s1.visited
    ensures s1.dependVisited == s0.dependVisited + if g[i].isProcess && !g[i].hasStop then {} else Dependants(g, i) + {i}
    ensures s1.monitored <= s0.monitored
    ensures s0.dependVisited !! s0.monitored ==> s1.dependVisited + {i} !! s1.monitored
  {
    hide RunKeeps, Lowered, Dependants;
    if g[i].isProcess && !g[i].hasStop {
      assert es + News(s0, s1) == es;
      SameFlagsKeep(g, os, es, s0, s1);
    } else {
      DependantsUntouched(g, os, i, es, s0);
      LoweringKeeps(g, os, Dependants(g, i) + {i}, es, s0, s1);
    }
  }

  lemma RestartKeeps(g: seq<Config>, os: Oracle, i: nat, es: seq<Event>, s0: State, s1: State)
    requires i < |g| && Acyclic(g) && RunKeeps(g, os, es, s0) && i !in s0.visited
    requires Handled(g, os, "restart", i, s0, s1)
    ensures Extends(s0, s1) && RunKeeps(g, os, es + News(s0, s1), s1)
    ensures s0.visited <= s0.monitored ==> s1.visited <= s1.monitored
    ensures s0.monitored - s1.monitored <= s1.dependVisited
    ensures s1.monitored - s0.monitored <= s1.visited + {i}
    ensures s1.visited == s0.visited || s1.visited == s0.visited + Closure(g, i)
    ensures s1.dependVisited == s0.dependVisited + if LacksMethod(g[i]) then {} else Dependants(g, i) + {i}
    ensures LacksMethod(g[i]) ==> s1.visited == s0.visited && i in s1.monitored
    ensures !LacksMethod(g[i]) && s1.visited != s0.visited + Closure(g, i) ==>
      StopFailed(es + News(s0, s1), i) && i !in s1.monitored
  {
    DependantsInClosure(g, i);
    hide Raised, Lowered, StartedAll, Acyclic, RunKeeps, Prerequisites, Dependants, Closure;
    if g[i].isProcess && (!g[i].hasStart || !g[i].hasStop) {
      assert es + News(s0, s1) == es;
      SameFlagsKeep(g, os, es, s0, s1);
    } else {
      var m: State :| Lowered(g, os, Stopping, Dependants(g, i) + {i}, s0, m)
        && (if StopSucceeded(i, s0, m) then StartedAll(g, os, i, m, s1) else s1 == m);
      DependantsUntouched(g, os, i, es, s0);
      LoweringKeeps(g, os, Dependants(g, i) + {i}, es, s0, m);
      if !StopSucceeded(i, s0, m) {
        FailedStop(g, os, i, es, s0, m);
      } else {
        StartedAllKeeps(g, os, i, es + News(s0, m), m, s1);
        NewsConcat(s0, m, s1);
        Assoc(es, News(s0, m), News(m, s1));
      }
    }
  }

  // Asked about process i after the first c0 questions, the operating system once said
  // that it runs.
  ghost predicate FoundRunning(os: Oracle, qs: seq<nat>, i: nat, c0: nat) {
    exists n: nat :: c0 <= n < |qs| && qs[n] == i && os(n, i)
  }

  predicate LacksMethod(c: Config) {
    c.isProcess && (!c.hasStart || !c.hasStop)
  }

  ghost predicate StopFailed(es: seq<Event>, i: nat) {
    exists e :: e in es && e.Stopped? && e.who == i && !e.ok
  }

  // The services that the targets of a run bring up.
  ghost predicate StartedFor(g: seq<Config>, ts: set<nat>, visited: set<nat>) {
    forall x :: x in visited <==> exists t :: t in ts && x in Closure(g, t)
  }

  // The services that depend on a target of a run, and the targets too where they are
  // stopped themselves.
  ghost predicate StoppedFor(g: seq<Config>, ts: set<nat>, themselves: bool, stopped: set<nat>) {
    forall x :: x in stopped <==> exists t :: t in ts && (x in Dependants(g, t) || (themselves && x == t))
  }

  // What a "start" run with targets ts leaves of the first n services: all are monitored,
  // and all were started but the processes without a start method or found running.
  // Exactly the dependants of targets were stopped, and all of those were started again.
  ghost predicate StartDone(g: seq<Config>, os: Oracle, ts: set<nat>, n: nat, c0: nat, s: State)
    requires n <= |g|
  {
    && s.dependVisited <= s.visited <= s.monitored
    && (forall t :: t in ts ==> t < n)
    && StartedFor(g, ts, s.visited) && StoppedFor(g, ts, false, s.dependVisited)
    && forall i: nat :: i < n ==>
      && i in s.monitored
      && (i in s.visited || (g[i].isProcess && (!g[i].hasStart || FoundRunning(os, s.questions, i, c0))))
  }

  ghost predicate StartCovers(g: seq<Config>, os: Oracle, n: nat, c0: nat, s: State)
    requires n <= |g|
  {
    exists ts: set<nat> :: StartDone(g, os, ts, n, c0, s)
  }

  function StopTargets(g: seq<Config>, n: nat): set<nat>
    requires n <= |g|
  {
    set t: nat | t < n && (!g[t].isProcess || g[t].hasStop)
  }

  // A "stop" run starts nothing and leaves none of them monitored; stopped are exactly
  // those that are no processes without stop method, and all that depends on them.
  ghost predicate StopCovers(g: seq<Config>, n: nat, s: State)
    requires n <= |g|
  {
    && s.visited == {} && s.dependVisited !! s.monitored
    && StoppedFor(g, StopTargets(g, n), true, s.dependVisited)
    && forall i: nat :: i < n ==> i !in s.monitored
  }

  // A "restart" run with targets ts: exactly the targets and what depends on them were
  // stopped. The stop of the targets in `failed` did not succeed; for the others all they
  // bring up was started. Whatever is no target was started for one, or lacks a method.
  ghost predicate RestartDone(g: seq<Config>, ts: set<nat>, failed: set<nat>, n: nat, es: seq<Event>, s: State)
    requires n <= |g|
  {
    && s.visited <= s.monitored
    && (forall t :: t in ts ==> t < n && !LacksMethod(g[t]))
    && StartedFor(g, ts - failed, s.visited) && StoppedFor(g, ts, true, s.dependVisited)
    && (forall t :: t in failed ==> t in ts && StopFailed(es, t) && (t in s.visited || t !in s.monitored))
    && forall i: nat :: i < n && i !in ts && i !in s.visited ==>
      LacksMethod(g[i]) && (i in s.monitored || i in s.dependVisited)
  }

  ghost predicate RestartCovers(g: seq<Config>, n: nat, es: seq<Event>, s: State)
    requires n <= |g|
  {
    exists ts: set<nat>, failed: set<nat> :: RestartDone(g, ts, failed, n, es, s)
  }

  // Whatever a restart run stopped and did not start again depends on a service whose own
  // stop failed, or is one.
  lemma NotRestarted(g: seq<Config>, n: nat, es: seq<Event>, s: State, x: nat) returns (t: nat)
    requires n <= |g| && RestartCovers(g, n, es, s) && x in s.dependVisited && x !in s.visited
    ensures StopFailed(es, t) && (x == t || Reaches(g, x, t))
  {
    var ts: set<nat>, failed: set<nat> :| RestartDone(g, ts, failed, n, es, s);
    t :| t in ts && (x in Dependants(g, t) || x == t);
    if t !in failed {
      DependantsInClosure(g, t);
    }
  }

  // Which services a run has dealt with, and how, since c0 questions were asked.
  ghost predicate RunCovers(g: seq<Config>, os: Oracle, action: string, n: nat, c0: nat, es: seq<Event>, s: State)
    requires n <= |g|
  {
    && (Is(action, "start") ==> StartCovers(g, os, n, c0, s))
    && (Is(action, "stop") ==> StopCovers(g, n, s))
    && (Is(action, "restart") ==> RestartCovers(g, n, es, s))
  }

  // The stops of a run, with those just added.
  lemma StopsSoFar(g: seq<Config>, os: Oracle, es: seq<Event>, ns: seq<Event>, s: State)
    requires RunKeeps(g, os, es + ns, s) && forall e :: e in ns ==> e.Stopped?
    ensures StopOrder(g, Whos(Stops(es)) + Whos(ns)) && Enumerates(Whos(Stops(es)) + Whos(ns), s.dependVisited)
  {
    FiltersConcat(es, ns);
    FiltersUniform(ns);
    WhosConcat(Stops(es), ns);
    hide NeverStoppedAfterStart, StartedWithin, PrerequisitesFirst;
    StopOrderHolds(g, Whos(Stops(es + ns)));
  }

  lemma JustStopped(g: seq<Config>, os: Oracle, i: nat, s0: State, m: State)
    requires i < |g| && Extends(s0, m) && i !in s0.dependVisited
    requires Lowered(g, os, Stopping, Dependants(g, i) + {i}, s0, m)
    ensures var ns := News(s0, m);
      && (forall e :: e in ns ==> e.Stopped?) && i in Whos(ns)
      && (forall x :: x in Whos(ns) ==> x == i || Reaches(g, x, i))
  {
    assert i in Dependants(g, i) + {i} - s0.dependVisited;
  }

  lemma TargetStoppedLast(g: seq<Config>, os: Oracle, i: nat, es: seq<Event>, s0: State, m: State)
    requires i < |g| && Extends(s0, m) && RunKeeps(g, os, es + News(s0, m), m) && i !in s0.dependVisited
    requires Lowered(g, os, Stopping, Dependants(g, i) + {i}, s0, m)
    ensures var ns := News(s0, m); ns != [] && (forall e :: e in ns ==> e.Stopped?) && Whos(ns)[|ns| - 1] == i
  {
    hide RunKeeps, Lowered, Dependants, Reaches, StopOrder, Enumerates;
    JustStopped(g, os, i, s0, m);
    StopsSoFar(g, os, es, News(s0, m), m);
    LastOfAll(g, i, Whos(Stops(es)), Whos(News(s0, m)), m.dependVisited);
  }

  // When the target was stopped just now without success, the history tells.
  lemma FailedStop(g: seq<Config>, os: Oracle, i: nat, es: seq<Event>, s0: State, m: State)
    requires i < |g| && Extends(s0, m) && RunKeeps(g, os, es + News(s0, m), m)
    requires Lowered(g, os, Stopping, Dependants(g, i) + {i}, s0, m) && !StopSucceeded(i, s0, m)
    ensures StopFailed(es + News(s0, m), i)
  {
    hide RunKeeps, Lowered, Dependants;
    TargetStoppedLast(g, os, i, es, s0, m);
    LastEvent(s0, m);
    var e := News(s0, m)[|News(s0, m)| - 1];
    assert e in es + News(s0, m) && e.Stopped? && e.who == i && !e.ok;
  }

  lemma LastEvent(s0: State, m: State)
    requires Extends(s0, m) && News(s0, m) != []
    ensures var ns := News(s0, m); var e := ns[|ns| - 1];
      e == m.history[|m.history| - 1] && e.who == Whos(ns)[|ns| - 1] && e in ns
  {
  }

  lemma LastOfAll(g: seq<Config>, i: nat, before: seq<nat>, ws: seq<nat>, stopped: set<nat>)
    requires i in ws && StopOrder(g, before + ws) && Enumerates(before + ws, stopped)
    requires forall x :: x in ws ==> x == i || Reaches(g, x, i)
    ensures ws[|ws| - 1] == i
  {
    var all := before + ws;
    var k :| 0 <= k < |ws| && ws[k] == i;
    assert all[|before| + k] == i;
    var last := ws[|ws| - 1];
    assert last in ws && all[|all| - 1] == last;
    var front := all[..|before| + k];
    assert last == i || last in front;
  }

  lemma HandledExtends(g: seq<Config>, os: Oracle, action: string, i: nat, s0: State, s1: State)
    requires i < |g| && Handled(g, os, action, i, s0, s1)
    ensures Extends(s0, s1)
  {
    hide Acyclic;
  }

  lemma StartedAllInTime(g: seq<Config>, os: Oracle, i: nat, s0: State, s1: State)
    requires StartedAll(g, os, i, s0, s1)
    ensures Extends(s0, s1) && InTime(g, News(s0, s1), |s0.questions|, s1.questions)
  {
    var m: State :| Raised(g, os, Starting, {i}, s0, m) && Raised(g, os, Starting, Dependants(g, i), m, s1);
    NewsConcat(s0, m, s1);
    hide Acyclic, Dependants, Reaches;
    InTimeConcat(g, News(s0, m), |s0.questions|, m.questions, News(m, s1), |m.questions|, s1.questions);
  }

  // Every command decides by answers to its own questions.
  lemma HandledInTime(g: seq<Config>, os: Oracle, action: string, i: nat, s0: State, s1: State)
    requires i < |g| && Handled(g, os, action, i, s0, s1)
    ensures InTime(g, News(s0, s1), |s0.questions|, s1.questions)
  {
    HandledExtends(g, os, action, i, s0, s1);
    hide Acyclic, StartedAll, Is, Dependants, Reaches, StopSucceeded;
    if Is(action, "start") {
      var asked := if g[i].isProcess then s0.(questions := s0.questions + [i]) else s0;
      if !(g[i].isProcess && (os(|s0.questions|, i) || !g[i].hasStart)) {
        var m: State :| Lowered(g, os, Stopping, Dependants(g, i), asked, m) && StartedAll(g, os, i, m, s1);
        StopThenStart(g, os, i, Dependants(g, i), asked, m, s1);
        hide Lowered;
        InTimeConcat(g, [], |s0.questions|, asked.questions, News(asked, s1), |asked.questions|, s1.questions);
        assert [] + News(asked, s1) == News(s0, s1);
      }
    } else if Is(action, "restart") && !Is(action, "stop") && !LacksMethod(g[i]) {
      var m: State :| Lowered(g, os, Stopping, Dependants(g, i) + {i}, s0, m)
        && (if StopSucceeded(i, s0, m) then StartedAll(g, os, i, m, s1) else s1 == m);
      if StopSucceeded(i, s0, m) { StopThenStart(g, os, i, Dependants(g, i) + {i}, s0, m, s1); }
    }
  }

  lemma StopThenStart(g: seq<Config>, os: Oracle, i: nat, covered: set<nat>, s0: State, m: State, s1: State)
    requires Lowered(g, os, Stopping, covered, s0, m) && StartedAll(g, os, i, m, s1)
    ensures Extends(s0, s1) && InTime(g, News(s0, s1), |s0.questions|, s1.questions)
  {
    hide StartedAll;
    StartedAllInTime(g, os, i, m, s1);
    NewsConcat(s0, m, s1);
    InTimeConcat(g, News(s0, m), |s0.questions|, m.questions, News(m, s1), |m.questions|, s1.questions);
  }

  lemma CommandKeeps(g: seq<Config>, os: Oracle, action: string, i: nat, c0: nat, es: seq<Event>, s0: State, s1: State)
    requires i < |g| && Acyclic(g) && RunKeeps(g, os, es, s0) && i !in s0.visited
    requires Acts(action) && Handled(g, os, action, i, s0, s1)
    requires c0 <= |s0.questions| && RunCovers(g, os, action, i, c0, es, s0)
    ensures RunKeeps(g, os, es + News(s0, s1), s1)
    ensures RunCovers(g, os, action, i + 1, c0, es + News(s0, s1), s1)
  {
    hide RunKeeps, Acyclic, Raised, Lowered, StartedAll, Closure, Dependants, StartedFor, StoppedFor;
    OneAction(action);
    if Is(action, "start") {
      StartKeeps(g, os, i, es, s0, s1);
      StartCoversStep(g, os, i, c0, s0, s1);
    } else if Is(action, "stop") {
      assert Handled(g, os, "stop", i, s0, s1);
      StopKeeps(g, os, i, es, s0, s1);
      StopCoversStep(g, i, s0, s1);
    } else {
      assert Handled(g, os, "restart", i, s0, s1);
      RestartKeeps(g, os, i, es, s0, s1);
      RestartCoversStep(g, i, es, News(s0, s1), s0, s1);
    }
  }

  lemma OneAction(action: string)
    ensures Is(action, "start") ==> !Is(action, "stop") && !Is(action, "restart")
    ensures Is(action, "stop") ==> !Is(action, "restart")
  {
    assert |Fold("start")| == 5 && |Fold("stop")| == 4 && |Fold("restart")| == 7;
  }

  lemma StartedForMore(g: seq<Config>, ts: set<nat>, i: nat, v0: set<nat>, v1: set<nat>)
    requires StartedFor(g, ts, v0) && v1 == v0 + Closure(g, i)
    ensures StartedFor(g, ts + {i}, v1)
  {
    hide Closure;
    forall x | x in v1 ensures exists t :: t in ts + {i} && x in Closure(g, t) {
      if x in v0 {
        var t :| t in ts && x in Closure(g, t);
        assert t in ts + {i};
      } else {
        assert i in ts + {i};
      }
    }
  }

  lemma StoppedForMore(g: seq<Config>, ts: set<nat>, i: nat, themselves: bool, d0: set<nat>, d1: set<nat>)
    requires StoppedFor(g, ts, themselves, d0)
    requires d1 == d0 + Dependants(g, i) + if themselves then {i} else {}
    ensures StoppedFor(g, ts + {i}, themselves, d1)
  {
    hide Dependants;
    forall x | x in d1 ensures exists t :: t in ts + {i} && (x in Dependants(g, t) || (themselves && x == t)) {
      if x in d0 {
        var t :| t in ts && (x in Dependants(g, t) || (themselves && x == t));
        assert t in ts + {i};
      } else {
        assert i in ts + {i};
      }
    }
  }

  lemma StartCoversStep(g: seq<Config>, os: Oracle, i: nat, c0: nat, s0: State, s1: State)
    requires i < |g| && c0 <= |s0.questions| && s0.questions <= s1.questions && StartCovers(g, os, i, c0, s0)
    requires s0.monitored + {i} + (s1.visited - s0.visited) <= s1.monitored
    requires LeftAlone(g, os, i, s0, s1) || Brought(g, i, s0, s1)
    ensures StartCovers(g, os, i + 1, c0, s1)
  {
    forall j | FoundRunning(os, s0.questions, j, c0) ensures FoundRunning(os, s1.questions, j, c0) {
      var n: nat :| c0 <= n < |s0.questions| && s0.questions[n] == j && os(n, j);
      assert s1.questions[n] == j;
    }
    if FoundRunning(os, s1.questions, i, |s0.questions|) {
      var n: nat :| |s0.questions| <= n < |s1.questions| && s1.questions[n] == i && os(n, i);
    }
    hide FoundRunning;
    var ts: set<nat> :| StartDone(g, os, ts, i, c0, s0);
    if LeftAlone(g, os, i, s0, s1) {
      assert StartDone(g, os, ts, i + 1, c0, s1);
    } else {
      DependantsInClosure(g, i);
      StartedForMore(g, ts, i, s0.visited, s1.visited);
      StoppedForMore(g, ts, i, false, s0.dependVisited, s1.dependVisited);
      hide StartedFor, StoppedFor, Closure, Dependants;
      assert i in {i};
      assert StartDone(g, os, ts + {i}, i + 1, c0, s1);
    }
  }

  lemma StopCoversStep(g: seq<Config>, i: nat, s0: State, s1: State)
    requires i < |g| && StopCovers(g, i, s0)
    requires s0.visited == s1.visited && s1.monitored <= s0.monitored
    requires s1.dependVisited == s0.dependVisited + if g[i].isProcess && !g[i].hasStop then {} else Dependants(g, i) + {i}
    requires s1.dependVisited + {i} !! s1.monitored
    ensures StopCovers(g, i + 1, s1)
  {
    assert i in {i};
    if g[i].isProcess && !g[i].hasStop {
      assert StopTargets(g, i + 1) == StopTargets(g, i);
    } else {
      assert StopTargets(g, i + 1) == StopTargets(g, i) + {i};
      StoppedForMore(g, StopTargets(g, i), i, true, s0.dependVisited, s1.dependVisited);
    }
    hide StoppedFor, StopTargets, Dependants;
  }

  // What a restart of one more service does to those before it.
  ghost predicate RestartMoves(i: nat, s0: State, s1: State) {
    && s0.visited <= s1.visited <= s1.monitored && s0.dependVisited <= s1.dependVisited
    && s0.monitored - s1.monitored <= s1.dependVisited && s1.monitored - s0.monitored <= s1.visited + {i}
  }

  lemma FailedStays(es: seq<Event>, ns: seq<Event>, t: nat)
    requires StopFailed(es, t)
    ensures StopFailed(es + ns, t)
  {
    var e :| e in es && e.Stopped? && e.who == t && !e.ok;
    assert e in es + ns;
  }

  lemma RestartSame(g: seq<Config>, ts: set<nat>, failed: set<nat>, i: nat, es: seq<Event>, ns: seq<Event>, s0: State, s1: State)
    requires i < |g| && RestartDone(g, ts, failed, i, es, s0) && RestartMoves(i, s0, s1)
    ensures forall t :: t in failed ==> t in ts && StopFailed(es + ns, t) && (t in s1.visited || t !in s1.monitored)
    ensures forall j: nat :: j < i && j !in ts && j !in s1.visited ==> LacksMethod(g[j]) && (j in s1.monitored || j in s1.dependVisited)
  {
    hide StartedFor, StoppedFor, LacksMethod, StopFailed;
    forall t | t in failed ensures StopFailed(es + ns, t) && (t in s1.visited || t !in s1.monitored) {
      FailedStays(es, ns, t);
      assert t !in {i};
      assert t in s1.monitored && t !in s0.monitored ==> t in s1.monitored - s0.monitored;
    }
    forall j: nat | j < i && j !in ts && j !in s1.visited ensures j in s1.monitored || j in s1.dependVisited {
      assert j in s0.monitored && j !in s1.monitored ==> j in s0.monitored - s1.monitored;
    }
  }

  lemma RestartCoversStep(g: seq<Config>, i: nat, es: seq<Event>, ns: seq<Event>, s0: State, s1: State)
    requires i < |g| && RestartCovers(g, i, es, s0) && RestartMoves(i, s0, s1)
    requires s1.visited == s0.visited || s1.visited == s0.visited + Closure(g, i)
    requires s1.dependVisited == s0.dependVisited + if LacksMethod(g[i]) then {} else Dependants(g, i) + {i}
    requires LacksMethod(g[i]) ==> s1.visited == s0.visited && i in s1.monitored
    requires !LacksMethod(g[i]) && s1.visited != s0.visited + Closure(g, i) ==> StopFailed(es + ns, i) && i !in s1.monitored
    ensures RestartCovers(g, i + 1, es + ns, s1)
  {
    hide StartedFor, StoppedFor, Closure, Dependants, LacksMethod, StopFailed;
    var ts: set<nat>, failed: set<nat> :| RestartDone(g, ts, failed, i, es, s0);
    RestartSame(g, ts, failed, i, es, ns, s0, s1);
    if LacksMethod(g[i]) {
      assert s1.dependVisited == s0.dependVisited;
      assert RestartDone(g, ts, failed, i + 1, es + ns, s1);
    } else {
      StoppedForMore(g, ts, i, true, s0.dependVisited, s1.dependVisited);
      if s1.visited == s0.visited + Closure(g, i) {
        StartedForMore(g, ts - failed, i, s0.visited, s1.visited);
        RestartTarget(g, ts, failed, i, es + ns, s1);
      } else {
        RestartFailure(g, ts, failed, i, es + ns, s1);
      }
    }
  }

  lemma RestartTarget(g: seq<Config>, ts: set<nat>, failed: set<nat>, i: nat, es: seq<Event>, s: State)
    requires i < |g| && s.visited <= s.monitored && !LacksMethod(g[i]) && failed <= ts
    requires forall t :: t in ts ==> t < i && !LacksMethod(g[t])
    requires StartedFor(g, ts - failed + {i}, s.visited) && StoppedFor(g, ts + {i}, true, s.dependVisited)
    requires forall t :: t in failed ==> StopFailed(es, t) && (t in s.visited || t !in s.monitored)
    requires forall j: nat :: j < i && j !in ts && j !in s.visited ==> LacksMethod(g[j]) && (j in s.monitored || j in s.dependVisited)
    ensures RestartCovers(g, i + 1, es, s)
  {
    hide StartedFor, StoppedFor, LacksMethod, StopFailed;
    assert ts + {i} - failed == ts - failed + {i};
    assert RestartDone(g, ts + {i}, failed, i + 1, es, s);
  }

  lemma RestartFailure(g: seq<Config>, ts: set<nat>, failed: set<nat>, i: nat, es: seq<Event>, s: State)
    requires i < |g| && s.visited <= s.monitored && !LacksMethod(g[i]) && failed <= ts
    requires forall t :: t in ts ==> t < i && !LacksMethod(g[t])
    requires StartedFor(g, ts - failed, s.visited) && StoppedFor(g, ts + {i}, true, s.dependVisited)
    requires forall t :: t in failed ==> StopFailed(es, t) && (t in s.visited || t !in s.monitored)
    requires StopFailed(es, i) && i !in s.monitored
    requires forall j: nat :: j < i && j !in ts && j !in s.visited ==> LacksMethod(g[j]) && (j in s.monitored || j in s.dependVisited)
    ensures RestartCovers(g, i + 1, es, s)
  {
    hide StartedFor, StoppedFor, LacksMethod, StopFailed;
    assert ts + {i} - (failed + {i}) == ts - failed;
    assert RestartDone(g, ts + {i}, failed + {i}, i + 1, es, s);
  }

  predicate Acts(action: string) {
    Is(action, "start") || Is(action, "stop") || Is(action, "restart")
  }

  // The actions that call do_depend, which needs a graph without loops to end.
  predicate Depends(action: string) {
    Acts(action) || Is(action, "unmonitor")
  }

  lemma OneCommand(action: string)
    ensures Is(action, "monitor") ==> !Acts(action) && !Is(action, "unmonitor")
    ensures Is(action, "unmonitor") ==> !Acts(action)
  {
    assert Fold("monitor")[0] == 'm' && Fold("restart")[0] == 'r';
    assert |Fold("monitor")| == 7 && |Fold("unmonitor")| == 9;
    assert |Fold("start")| == 5 && |Fold("stop")| == 4 && |Fold("restart")| == 7;
  }

  // A run of "monitor" so far, from flags that were reset in s0.
  ghost predicate MonitoredUpTo(s0: State, n: nat, s: State) {
    && s.history == s0.history && s.monitored == s0.monitored + s.visited
    && forall i: nat :: i < n ==> i in s.visited
  }

  lemma MonitorStep(g: seq<Config>, os: Oracle, action: string, i: nat, s0: State, s1: State, s2: State)
    requires i < |g| && Is(action, "monitor") && MonitoredUpTo(s0, i, s1)
    requires Handled(g, os, action, i, s1, s2)
    ensures MonitoredUpTo(s0, i + 1, s2)
  {
    OneCommand(action);
    hide Is;
    assert Raised(g, os, Monitoring, {i}, s1, s2);
    assert i in {i};
  }

  // A run of "unmonitor" so far: every service is handled, since none is visited.
  ghost predicate UnmonitoredUpTo(s0: State, n: nat, s: State) {
    && s.history == s0.history && s.visited == {} && s.monitored == s0.monitored - s.dependVisited
    && forall i: nat :: i < n ==> i in s.dependVisited
  }

  lemma UnmonitorStep(g: seq<Config>, os: Oracle, action: string, i: nat, s0: State, s1: State, s2: State)
    requires i < |g| && Is(action, "unmonitor") && UnmonitoredUpTo(s0, i, s1)
    requires Handled(g, os, action, i, s1, s2)
    ensures UnmonitoredUpTo(s0, i + 1, s2)
  {
    OneCommand(action);
    hide Is;
    assert Lowered(g, os, Unmonitoring, Dependants(g, i) + {i}, s1, s2);
  }

  lemma RunBegins(g: seq<Config>, os: Oracle, s: State)
    requires Fresh(s)
    ensures RunKeeps(g, os, [], s)
  {
  }

  // A run over the first n services, from s0 to s.
  ghost predicate RunSoFar(g: seq<Config>, os: Oracle, action: string, n: nat, s0: State, s: State)
    requires n <= |g|
  {
    && Extends(s0, s) && InTime(g, News(s0, s), |s0.questions|, s.questions)
    && (Acts(action) ==> RunKeeps(g, os, News(s0, s), s) && RunCovers(g, os, action, n, |s0.questions|, News(s0, s), s))
    && (Is(action, "monitor") ==> MonitoredUpTo(s0, n, s))
    && (Is(action, "unmonitor") ==> UnmonitoredUpTo(s0, n, s))
  }

  // Nothing starts in a "stop" run, and all services end monitored or none does.
  lemma RunEnds(g: seq<Config>, os: Oracle, action: string, s0: State, s: State)
    requires RunSoFar(g, os, action, |g|, s0, s)
    ensures Is(action, "start") ==> forall i: nat :: i < |g| ==> i in s.monitored
    ensures Is(action, "stop") ==> forall i: nat :: i < |g| ==> i !in s.monitored
    ensures Is(action, "stop") ==> forall e :: e in News(s0, s) ==> e.Stopped?
    ensures Is(action, "monitor") ==> forall i: nat :: i < |g| ==> i in s.monitored
    ensures Is(action, "unmonitor") ==> forall i: nat :: i < |g| ==> i !in s.monitored
    ensures Acts(action) ==> RunKeeps(g, os, News(s0, s), s) && RunCovers(g, os, action, |g|, |s0.questions|, News(s0, s), s)
    ensures Is(action, "monitor") || Is(action, "unmonitor") ==> s.history == s0.history
    ensures Extends(s0, s) && InTime(g, News(s0, s), |s0.questions|, s.questions)
    ensures Acts(action) ==> RunMeant(g, os, News(s0, s), |s0.questions|, s)
  {
    if Acts(action) { RunMeans(g, os, News(s0, s), s, |s0.questions|); }
    hide Is, PrerequisitesFirst, DependantsFirst, NeverStoppedAfterStart;
    var es := News(s0, s);
    if Is(action, "stop") {
      forall k | 0 <= k < |es| ensures !es[k].Started? {
      }
    }
  }

  lemma SameName(name: string)
    ensures Is(name, name)
  {
  }

  lemma RunStarts(g: seq<Config>, os: Oracle, action: string, s: State)
    requires Fresh(s)
    ensures RunSoFar(g, os, action, 0, s, s)
  {
    RunBegins(g, os, s);
    assert News(s, s) == [];
    hide Closure, Dependants, RunKeeps;
    assert StartDone(g, os, {}, 0, |s.questions|, s);
    assert RestartDone(g, {}, {}, 0, [], s);
  }

  lemma RunStep(g: seq<Config>, os: Oracle, action: string, i: nat, s0: State, s1: State, s2: State)
    requires i < |g| && i !in s1.visited && (Depends(action) ==> Acyclic(g))
    requires RunSoFar(g, os, action, i, s0, s1) && Handled(g, os, action, i, s1, s2)
    ensures RunSoFar(g, os, action, i + 1, s0, s2)
  {
    hide Acts, Is, Handled, RunKeeps, RunCovers, Acyclic, MonitoredUpTo, UnmonitoredUpTo;
    HandledExtends(g, os, action, i, s1, s2);
    NewsConcat(s0, s1, s2);
    HandledInTime(g, os, action, i, s1, s2);
    InTimeConcat(g, News(s0, s1), |s0.questions|, s1.questions, News(s1, s2), |s1.questions|, s2.questions);
    hide InTime;
    if Acts(action) { CommandKeeps(g, os, action, i, |s0.questions|, News(s0, s1), s1, s2); }
    if Is(action, "monitor") { MonitorStep(g, os, action, i, s0, s1, s2); }
    if Is(action, "unmonitor") { UnmonitorStep(g, os, action, i, s0, s1, s2); }
  }

  // A service that an earlier command visited needs no command of its own.
  lemma RunSkips(g: seq<Config>, os: Oracle, action: string, i: nat, s0: State, s: State)
    requires i < |g| && i in s.visited && RunSoFar(g, os, action, i, s0, s)
    ensures RunSoFar(g, os, action, i + 1, s0, s)
  {
    hide RunKeeps, Is, StartedFor, StoppedFor, LacksMethod;
    if Is(action, "start") {
      var ts: set<nat> :| StartDone(g, os, ts, i, |s0.questions|, s);
      assert StartDone(g, os, ts, i + 1, |s0.questions|, s);
    }
    if Is(action, "restart") {
      var ts: set<nat>, failed: set<nat> :| RestartDone(g, ts, failed, i, News(s0, s), s);
      assert RestartDone(g, ts, failed, i + 1, News(s0, s), s);
    }
  }

  // What actions mean once each of them is right and in time.
  ghost predicate AllMeant(g: seq<Config>, os: Oracle, es: seq<Event>, c0: nat, qs: seq<nat>) {
    forall e :: e in es ==> Meant(g, os, e, c0, qs)
  }

  lemma EventsMean(g: seq<Config>, os: Oracle, es: seq<Event>, c0: nat, qs: seq<nat>)
    requires InTime(g, es, c0, qs) && forall e :: e in es ==> StartEvent(g, os, e) || StopEvent(g, os, e)
    ensures AllMeant(g, os, es, c0, qs)
  {
    forall e | e in es ensures Meant(g, os, e, c0, qs) {
      EventMeans(g, os, e, c0, qs);
    }
  }

  lemma StartedUp(g: seq<Config>, os: Oracle, es: seq<Event>, c0: nat, qs: seq<nat>, e: Event)
    requires e in es && e.Started? && Meant(g, os, e, c0, qs)
    ensures e.who < |g| && BroughtUp(g, os, e.who, es, c0, qs)
  {
    if e.spawned { assert Started(e.who, e.asked, true) == e; }
  }

  lemma StoppedDown(g: seq<Config>, os: Oracle, es: seq<Event>, c0: nat, qs: seq<nat>, e: Event)
    requires e in es && e.Stopped? && Meant(g, os, e, c0, qs)
    ensures e.who < |g| && BroughtDown(g, os, e.who, es, c0, qs)
  {
    if e.spawned { assert Stopped(e.who, e.asked, true, e.last, e.ok) == e; }
  }

  // All these services were brought up, or down.
  ghost predicate AllUp(g: seq<Config>, os: Oracle, xs: set<nat>, es: seq<Event>, c0: nat, qs: seq<nat>) {
    forall x :: x in xs ==> x < |g| && BroughtUp(g, os, x, es, c0, qs)
  }

  ghost predicate AllDown(g: seq<Config>, os: Oracle, xs: set<nat>, es: seq<Event>, c0: nat, qs: seq<nat>) {
    forall x :: x in xs ==> x < |g| && BroughtDown(g, os, x, es, c0, qs)
  }

  // The services of a list of starts are up, those of a list of stops are down.
  lemma ListedUp(g: seq<Config>, os: Oracle, starts: seq<Event>, xs: set<nat>, es: seq<Event>, c0: nat, qs: seq<nat>)
    requires AllMeant(g, os, es, c0, qs) && Enumerates(Whos(starts), xs)
    requires forall e :: e in starts ==> e.Started? && e in es
    ensures AllUp(g, os, xs, es, c0, qs)
  {
    forall x | x in xs ensures x < |g| && BroughtUp(g, os, x, es, c0, qs) {
      assert x in Whos(starts);
      var k :| 0 <= k < |starts| && starts[k].who == x;
      StartedUp(g, os, es, c0, qs, starts[k]);
    }
  }

  lemma ListedDown(g: seq<Config>, os: Oracle, stops: seq<Event>, xs: set<nat>, es: seq<Event>, c0: nat, qs: seq<nat>)
    requires AllMeant(g, os, es, c0, qs) && Enumerates(Whos(stops), xs)
    requires forall e :: e in stops ==> e.Stopped? && e in es
    ensures AllDown(g, os, xs, es, c0, qs)
  {
    forall x | x in xs ensures x < |g| && BroughtDown(g, os, x, es, c0, qs) {
      assert x in Whos(stops);
      var k :| 0 <= k < |stops| && stops[k].who == x;
      StoppedDown(g, os, es, c0, qs, stops[k]);
    }
  }

  lemma OnlyStops(g: seq<Config>, os: Oracle, stops: seq<Event>, down: set<nat>, c0: nat, qs: seq<nat>)
    requires InTime(g, stops, c0, qs) && Enumerates(Whos(stops), down) && forall e :: e in stops ==> StopEvent(g, os, e)
    ensures AllMeant(g, os, stops, c0, qs) && AllDown(g, os, down, stops, c0, qs)
  {
    EventsMean(g, os, stops, c0, qs);
    ListedDown(g, os, stops, down, stops, c0, qs);
  }

  lemma StopsThenStarts(g: seq<Config>, os: Oracle, stops: seq<Event>, down: set<nat>, starts: seq<Event>, up: set<nat>,
                        c0: nat, qs: seq<nat>)
    requires InTime(g, stops + starts, c0, qs) && Enumerates(Whos(stops), down) && Enumerates(Whos(starts), up)
    requires (forall e :: e in stops ==> StopEvent(g, os, e)) && forall e :: e in starts ==> StartEvent(g, os, e)
    ensures AllMeant(g, os, stops + starts, c0, qs)
    ensures AllDown(g, os, down, stops + starts, c0, qs) && AllUp(g, os, up, stops + starts, c0, qs)
  {
    EventsMean(g, os, stops + starts, c0, qs);
    hide AllMeant, Enumerates;
    ListedDown(g, os, stops, down, stops + starts, c0, qs);
    ListedUp(g, os, starts, up, stops + starts, c0, qs);
  }

  lemma {:induction false} FilteredIn(es: seq<Event>)
    ensures forall e :: e in Starts(es) ==> e.Started? && e in es
    ensures forall e :: e in Stops(es) ==> e.Stopped? && e in es
  {
    if es != [] {
      FilteredIn(es[1..]);
    }
  }

  // What a whole run has done to the services it visited and stopped.
  ghost predicate RunMeant(g: seq<Config>, os: Oracle, es: seq<Event>, c0: nat, s: State) {
    && AllMeant(g, os, es, c0, s.questions)
    && AllUp(g, os, s.visited, es, c0, s.questions) && AllDown(g, os, s.dependVisited, es, c0, s.questions)
  }

  lemma RunMeans(g: seq<Config>, os: Oracle, es: seq<Event>, s: State, c0: nat)
    requires RunKeeps(g, os, es, s) && InTime(g, es, c0, s.questions)
    ensures RunMeant(g, os, es, c0, s)
  {
    EventsMean(g, os, es, c0, s.questions);
    FilteredIn(es);
    hide AllMeant, PrerequisitesFirst, DependantsFirst, NeverStoppedAfterStart, StartedWithin, Enumerates, InTime;
    ListedUp(g, os, Starts(es), s.visited, es, c0, s.questions);
    ListedDown(g, os, Stops(es), s.dependVisited, es, c0, s.questions);
  }

  // What the whole run promises about order, along whole chains of dependencies.
  lemma RunLaw(g: seq<Config>, os: Oracle, es: seq<Event>, s: State)
    requires RunKeeps(g, os, es, s)
    ensures Enumerates(Whos(Starts(es)), s.visited) && StartOrder(g, Whos(Starts(es)))
    ensures Enumerates(Whos(Stops(es)), s.dependVisited) && StopOrder(g, Whos(Stops(es)))
    ensures NeverStoppedAfterStart(es)
  {
    StartOrderHolds(g, Whos(Starts(es)));
    StopOrderHolds(g, Whos(Stops(es)));
  }
}
