// What a walk over the dependency graph does to the flags of the services and to
// the history of start and stop actions, stated on values; control.c is proved
// against these relations, and the promises of its comments follow from them.
module ControlSpec {
  import opened ServiceGraph

  // One effective start or stop. `asked` is the number of the question whether the
  // process runs, `last` that of the question that ended the wait for a stopped process.
  datatype Event =
    | Started(who: nat, asked: nat, spawned: bool)
    | Stopped(who: nat, asked: nat, spawned: bool, last: nat, ok: bool)

  // The flags as sets of services, the questions put to the operating system (each by the
  // service it was about), and the actions.
  datatype State = State(
    visited: set<nat>,
    dependVisited: set<nat>,
    monitored: set<nat>,
    questions: seq<nat>,
    history: seq<Event>)

  datatype Walk = Starting | Stopping | Monitoring | Unmonitoring

  // Is service s running, at the n-th time anyone asks?
  type Oracle = (nat, nat) -> bool

  function Whos(es: seq<Event>): seq<nat> {
    seq(|es|, k requires 0 <= k < |es| => es[k].who)
  }

  ghost predicate Enumerates(ws: seq<nat>, s: set<nat>) {
    && (forall a, b :: 0 <= a < b < |ws| ==> ws[a] != ws[b])
    && (forall x :: x in ws <==> x in s)
  }

  // Everything a started service needs was done before it ...
  ghost predicate PrerequisitesFirst(g: seq<Config>, ws: seq<nat>, done: set<nat>) {
    forall k, y {:trigger Needs(g, ws[k], y)} :: 0 <= k < |ws| && Needs(g, ws[k], y) ==> y in done || y in ws[..k]
  }

  // ... and everything that needs a stopped service was done before it.
  ghost predicate DependantsFirst(g: seq<Config>, ws: seq<nat>, done: set<nat>) {
    forall k, y {:trigger Needs(g, y, ws[k])} :: 0 <= k < |ws| && Needs(g, y, ws[k]) ==> y in done || y in ws[..k]
  }

  // A start command is run exactly for a service that has one and is not a
  // process that already runs.
  ghost predicate StartEvent(g: seq<Config>, os: Oracle, e: Event) {
    && e.Started? && e.who < |g|
    && e.spawned == (g[e.who].hasStart && (!g[e.who].isProcess || !os(e.asked, e.who)))
  }

  // A stop command is run exactly for a service that has one and is not a
  // process that no longer runs; it fails only for a process still running.
  ghost predicate StopEvent(g: seq<Config>, os: Oracle, e: Event) {
    && e.Stopped? && e.who < |g|
    && e.spawned == (g[e.who].hasStop && (!g[e.who].isProcess || os(e.asked, e.who)))
    && e.ok == !(e.spawned && g[e.who].isProcess && os(e.last, e.who))
  }

  // An action that came after the first c0 of the questions qs: if it depends on whether
  // the process runs, that was asked about this very service, and when it waits for a
  // stopped process, nothing else is asked up to the last question of the wait.
  ghost predicate Timed(g: seq<Config>, e: Event, c0: nat, qs: seq<nat>) {
    && e.who < |g| && c0 <= e.asked <= |qs|
    && (e.Started? && g[e.who].isProcess && g[e.who].hasStart ==> e.asked < |qs| && qs[e.asked] == e.who)
    && (e.Stopped? && g[e.who].isProcess && g[e.who].hasStop ==> e.asked < |qs| && qs[e.asked] == e.who)
    && (e.Stopped? && g[e.who].isProcess && e.spawned ==>
      e.asked < e.last < |qs| && forall n :: e.asked <= n <= e.last ==> qs[n] == e.who)
  }

  ghost predicate InTime(g: seq<Config>, es: seq<Event>, c0: nat, qs: seq<nat>) {
    forall e :: e in es ==> Timed(g, e, c0, qs)
  }

  // What an action means, case by case. A start command is run for a service that has one,
  // unless the service is a process and the answer to the question about it was that it
  // runs. A stop command is run for a service that has one, unless it is a process and the
  // answer was that it does not run; it failed exactly when, at the end of the wait, the
  // process still ran.
  ghost predicate Meant(g: seq<Config>, os: Oracle, e: Event, c0: nat, qs: seq<nat>) {
    && e.who < |g|
    && match e
       case Started(x, asked, spawned) =>
         && (!g[x].hasStart ==> !spawned)
         && (g[x].hasStart && !g[x].isProcess ==> spawned)
         && (g[x].hasStart && g[x].isProcess ==>
           c0 <= asked < |qs| && qs[asked] == x && if os(asked, x) then !spawned else spawned)
       case Stopped(x, asked, spawned, last, ok) =>
         && (!g[x].hasStop ==> !spawned && ok)
         && (g[x].hasStop && !g[x].isProcess ==> spawned && ok)
         && (g[x].hasStop && g[x].isProcess ==>
           && c0 <= asked < |qs| && qs[asked] == x
           && if os(asked, x) then spawned && asked < last < |qs| && qs[last] == x && (if os(last, x) then !ok else ok)
              else !spawned && ok)
  }

  lemma EventMeans(g: seq<Config>, os: Oracle, e: Event, c0: nat, qs: seq<nat>)
    requires (StartEvent(g, os, e) || StopEvent(g, os, e)) && Timed(g, e, c0, qs)
    ensures Meant(g, os, e, c0, qs)
  {
  }

  // Service x has been brought up: its start command was run, or it has none, or it is a
  // process and the answer to a question about it was that it runs.
  ghost predicate BroughtUp(g: seq<Config>, os: Oracle, x: nat, es: seq<Event>, c0: nat, qs: seq<nat>)
    requires x < |g|
  {
    || !g[x].hasStart
    || (exists n: nat :: Started(x, n, true) in es)
    || (g[x].isProcess && exists n: nat :: c0 <= n < |qs| && qs[n] == x && os(n, x))
  }

  // Service x has been brought down: its stop command was run, or it has none, or it is a
  // process and the answer to a question about it was that it does not run.
  ghost predicate BroughtDown(g: seq<Config>, os: Oracle, x: nat, es: seq<Event>, c0: nat, qs: seq<nat>)
    requires x < |g|
  {
    || !g[x].hasStop
    || (exists n: nat, last: nat, ok :: Stopped(x, n, true, last, ok) in es)
    || (g[x].isProcess && exists n: nat :: c0 <= n < |qs| && qs[n] == x && !os(n, x))
  }

  lemma InTimeConcat(g: seq<Config>, a: seq<Event>, c0: nat, qs: seq<nat>, b: seq<Event>, c1: nat, qs': seq<nat>)
    requires InTime(g, a, c0, qs) && InTime(g, b, c1, qs') && c0 <= c1 && qs <= qs'
    ensures InTime(g, a + b, c0, qs')
  {
  }

  lemma InTimeOne(g: seq<Config>, e: Event, c0: nat, qs: seq<nat>)
    requires Timed(g, e, c0, qs)
    ensures InTime(g, [e], c0, qs)
  {
  }

  ghost predicate Extends(s0: State, s1: State) {
    s0.history <= s1.history && s0.questions <= s1.questions
  }

  function News(s0: State, s1: State): seq<Event>
    requires |s0.history| <= |s1.history|
  {
    s1.history[|s0.history|..]
  }

  // A walk of do_start or do_monitor calls from the services in `roots`.
  ghost predicate Raised(g: seq<Config>, os: Oracle, w: Walk, roots: set<nat>, s0: State, s1: State) {
    var added := s1.visited - s0.visited;
    && s0.visited <= s1.visited && roots <= s1.visited
    && (forall x :: x in added ==> x < |g| && (x in roots || exists r :: r in roots && Reaches(g, r, x)))
    && (forall x, y :: x in added && Needs(g, x, y) ==> y in s1.visited)
    && s1.dependVisited == s0.dependVisited
    && s1.monitored == s0.monitored + added
    && Extends(s0, s1)
    && (w.Monitoring? ==> s1.history == s0.history && s1.questions == s0.questions)
    && (w.Starting? ==>
      && InTime(g, News(s0, s1), |s0.questions|, s1.questions)
      && (forall e :: e in News(s0, s1) ==> StartEvent(g, os, e))
      && Enumerates(Whos(News(s0, s1)), added)
      && (Acyclic(g) ==> PrerequisitesFirst(g, Whos(News(s0, s1)), s0.visited)))
  }

  // A walk of do_stop or do_unmonitor calls that covers exactly `covered`.
  ghost predicate Lowered(g: seq<Config>, os: Oracle, w: Walk, covered: set<nat>, s0: State, s1: State) {
    var added := covered - s0.dependVisited;
    && s1.visited == s0.visited
    && s1.dependVisited == s0.dependVisited + covered
    && s1.monitored == s0.monitored - added
    && Extends(s0, s1)
    && (w.Unmonitoring? ==> s1.history == s0.history && s1.questions == s0.questions)
    && (w.Stopping? ==>
      && InTime(g, News(s0, s1), |s0.questions|, s1.questions)
      && (forall e :: e in News(s0, s1) ==> StopEvent(g, os, e))
      && Enumerates(Whos(News(s0, s1)), added)
      && DependantsFirst(g, Whos(News(s0, s1)), s0.dependVisited))
  }

  lemma WhosConcat(a: seq<Event>, b: seq<Event>)
    ensures Whos(a + b) == Whos(a) + Whos(b)
  {
  }

  lemma NewsConcat(s0: State, s1: State, s2: State)
    requires Extends(s0, s1) && Extends(s1, s2)
    ensures Extends(s0, s2) && News(s0, s2) == News(s0, s1) + News(s1, s2)
    ensures Whos(News(s0, s2)) == Whos(News(s0, s1)) + Whos(News(s1, s2))
  {
    WhosConcat(News(s0, s1), News(s1, s2));
  }

  lemma EnumeratesConcat(a: seq<nat>, s: set<nat>, b: seq<nat>, t: set<nat>)
    requires Enumerates(a, s) && Enumerates(b, t) && s !! t
    ensures Enumerates(a + b, s + t)
  {
    forall i, j | 0 <= i < j < |a + b| ensures (a + b)[i] != (a + b)[j] {
      if i < |a| <= j {
        assert a[i] in s && b[j - |a|] in t;
      }
    }
    forall x ensures x in a + b <==> x in s + t {}
  }

  lemma PrerequisitesFirstConcat(g: seq<Config>, a: seq<nat>, b: seq<nat>, done: set<nat>, more: set<nat>)
    requires PrerequisitesFirst(g, a, done) && PrerequisitesFirst(g, b, more)
    requires forall y :: y in more ==> y in done || y in a
    ensures PrerequisitesFirst(g, a + b, done)
  {
    forall k, y | 0 <= k < |a + b| && Needs(g, (a + b)[k], y)
      ensures y in done || y in (a + b)[..k]
    {
      if k < |a| {
        assert (a + b)[..k] == a[..k];
      } else {
        assert (a + b)[..k] == a + b[..k - |a|];
      }
    }
  }

  lemma DependantsFirstConcat(g: seq<Config>, a: seq<nat>, b: seq<nat>, done: set<nat>, more: set<nat>)
    requires DependantsFirst(g, a, done) && DependantsFirst(g, b, more)
    requires forall y :: y in more ==> y in done || y in a
    ensures DependantsFirst(g, a + b, done)
  {
    forall k, y | 0 <= k < |a + b| && Needs(g, y, (a + b)[k])
      ensures y in done || y in (a + b)[..k]
    {
      if k < |a| {
        assert (a + b)[..k] == a[..k];
      } else {
        assert (a + b)[..k] == a + b[..k - |a|];
      }
    }
  }

  lemma RaisedNothing(g: seq<Config>, os: Oracle, w: Walk, s: State)
    ensures Raised(g, os, w, {}, s, s)
  {
  }

  lemma RaisedCompose(g: seq<Config>, os: Oracle, w: Walk,
                      r1: set<nat>, r2: set<nat>, s0: State, s1: State, s2: State)
    requires Raised(g, os, w, r1, s0, s1) && Raised(g, os, w, r2, s1, s2)
    ensures Raised(g, os, w, r1 + r2, s0, s2)
  {
    var f1, f2 := s1.visited - s0.visited, s2.visited - s1.visited;
    assert s2.visited - s0.visited == f1 + f2;
    NewsConcat(s0, s1, s2);
    if w.Starting? {
      InTimeConcat(g, News(s0, s1), |s0.questions|, s1.questions, News(s1, s2), |s1.questions|, s2.questions);
      var a, b := Whos(News(s0, s1)), Whos(News(s1, s2));
      EnumeratesConcat(a, f1, b, f2);
      if Acyclic(g) {
        PrerequisitesFirstConcat(g, a, b, s0.visited, s1.visited);
      }
    }
  }

  // A service that was visited before is left alone.
  lemma RaisedVisited(g: seq<Config>, os: Oracle, w: Walk, i: nat, s: State)
    requires i in s.visited
    ensures Raised(g, os, w, {i}, s, s)
  {
    assert s.visited - s.visited == {} && News(s, s) == [];
  }

  // do_start and do_monitor mark a service, walk over what it needs, then act on
  // it: s0 -mark-> sa -walk-> sb -act-> s1.
  lemma RaisedNode(g: seq<Config>, os: Oracle, w: Walk, i: nat, roots: set<nat>,
                   s0: State, sa: State, sb: State, s1: State)
    requires w.Starting? || w.Monitoring?
    requires i < |g| && i !in s0.visited
    requires sa == s0.(visited := s0.visited + {i})
    requires forall y :: Needs(g, i, y) <==> y in roots
    requires Raised(g, os, w, roots, sa, sb)
    requires s1.visited == sb.visited && s1.dependVisited == sb.dependVisited
    requires s1.monitored == sb.monitored + {i}
    requires w.Monitoring? ==> s1.history == sb.history && s1.questions == sb.questions
    requires w.Starting? ==> sb.questions <= s1.questions && exists e: Event ::
      e.who == i && StartEvent(g, os, e) && Timed(g, e, |sb.questions|, s1.questions) && s1.history == sb.history + [e]
    ensures Raised(g, os, w, {i}, s0, s1)
  {
    NodeReaches(g, os, w, i, roots, sa, sb);
    if w.Starting? {
      var e: Event :| e.who == i && StartEvent(g, os, e) && Timed(g, e, |sb.questions|, s1.questions) && s1.history == sb.history + [e];
      NodeEvents(g, os, i, roots, s0, sa, sb, s1, e);
    }
    hide StartEvent, Timed, InTime, Enumerates, PrerequisitesFirst, Reaches, Acyclic;
    assert s1.visited - s0.visited == sb.visited - sa.visited + {i};
  }

  lemma NodeReaches(g: seq<Config>, os: Oracle, w: Walk, i: nat, roots: set<nat>, sa: State, sb: State)
    requires Raised(g, os, w, roots, sa, sb) && forall y :: Needs(g, i, y) <==> y in roots
    ensures forall x :: x in sb.visited - sa.visited ==> x < |g| && Reaches(g, i, x)
  {
    forall x | x in sb.visited - sa.visited
      ensures x < |g| && Reaches(g, i, x)
    {
      if x in roots {
        ReachesStep(g, i, x);
      } else {
        var r :| r in roots && Reaches(g, r, x);
        ReachesStep(g, i, r);
        ReachesTrans(g, i, r, x);
      }
    }
  }

  lemma NodeEvents(g: seq<Config>, os: Oracle, i: nat, roots: set<nat>,
                   s0: State, sa: State, sb: State, s1: State, e: Event)
    requires i < |g| && i !in s0.visited && sa == s0.(visited := s0.visited + {i})
    requires (forall y :: Needs(g, i, y) <==> y in roots) && Raised(g, os, Starting, roots, sa, sb)
    requires s1.visited == sb.visited && sb.questions <= s1.questions && s1.history == sb.history + [e]
    requires e.who == i && StartEvent(g, os, e) && Timed(g, e, |sb.questions|, s1.questions)
    requires forall x :: x in sb.visited - sa.visited ==> Reaches(g, i, x)
    ensures Extends(s0, s1) && InTime(g, News(s0, s1), |s0.questions|, s1.questions)
    ensures forall e :: e in News(s0, s1) ==> StartEvent(g, os, e)
    ensures Enumerates(Whos(News(s0, s1)), s1.visited - s0.visited)
    ensures Acyclic(g) ==> PrerequisitesFirst(g, Whos(News(s0, s1)), s0.visited)
  {
    var fa, ws := sb.visited - sa.visited, Whos(News(sa, sb));
    assert s1.visited - s0.visited == fa + {i};
    assert News(s0, s1) == News(sa, sb) + [e];
    InTimeOne(g, e, |sb.questions|, s1.questions);
    InTimeConcat(g, News(sa, sb), |sa.questions|, sb.questions, [e], |sb.questions|, s1.questions);
    hide InTime, Timed, StartEvent;
    WhosConcat(News(sa, sb), [e]);
    assert Whos([e]) == [i];
    EnumeratesConcat(ws, fa, [i], {i});
    if Acyclic(g) {
      hide Acyclic, Reaches, PrerequisitesFirst;
      assert forall y :: Needs(g, i, y) ==> y in s0.visited + {i} + fa;
      NodeLast(g, i, ws, fa, s0.visited);
    }
  }

  // A service comes last in the order of everything it reaches.
  lemma NodeLast(g: seq<Config>, i: nat, ws: seq<nat>, reached: set<nat>, done: set<nat>)
    requires Acyclic(g) && i < |g| && Enumerates(ws, reached) && PrerequisitesFirst(g, ws, done + {i})
    requires forall x :: x in reached ==> Reaches(g, i, x)
    requires forall y :: Needs(g, i, y) ==> y in done + {i} + reached
    ensures PrerequisitesFirst(g, ws + [i], done)
  {
    forall k, y | 0 <= k < |ws| && Needs(g, ws[k], y)
      ensures y in done || y in ws[..k]
    {
      if y == i {
        assert ws[k] in reached;
        ReachesStep(g, ws[k], i);
        ReachesTrans(g, i, ws[k], i);
      }
    }
    forall y | Needs(g, i, y) ensures y in done || y in ws {
      if y == i { ReachesStep(g, i, i); }
    }
    PrerequisitesFirstConcat(g, ws, [i], done, done + reached);
  }

  lemma LoweredNothing(g: seq<Config>, os: Oracle, w: Walk, s: State)
    ensures Lowered(g, os, w, {}, s, s)
  {
    assert s.monitored - {} == s.monitored;
  }

  lemma LoweredCompose(g: seq<Config>, os: Oracle, w: Walk,
                       c1: set<nat>, c2: set<nat>, s0: State, s1: State, s2: State)
    requires Lowered(g, os, w, c1, s0, s1) && Lowered(g, os, w, c2, s1, s2)
    ensures Lowered(g, os, w, c1 + c2, s0, s2)
  {
    var f1, f2 := c1 - s0.dependVisited, c2 - s1.dependVisited;
    assert (c1 + c2) - s0.dependVisited == f1 + f2;
    NewsConcat(s0, s1, s2);
    if w.Stopping? {
      InTimeConcat(g, News(s0, s1), |s0.questions|, s1.questions, News(s1, s2), |s1.questions|, s2.questions);
      var a, b := Whos(News(s0, s1)), Whos(News(s1, s2));
      EnumeratesConcat(a, f1, b, f2);
      DependantsFirstConcat(g, a, b, s0.dependVisited, s1.dependVisited);
    }
  }

  // What do_stop does to one service, whatever happened before.
  ghost predicate StoppedOne(g: seq<Config>, os: Oracle, i: nat, s0: State, s1: State) {
    if i in s0.dependVisited then s1 == s0 else
      && s1.visited == s0.visited
      && s1.dependVisited == s0.dependVisited + {i}
      && s1.monitored == s0.monitored - {i}
      && s0.questions <= s1.questions && (forall n :: |s0.questions| <= n < |s1.questions| ==> s1.questions[n] == i)
      && |s1.history| == |s0.history| + 1 && s0.history <= s1.history
      && s1.history[|s0.history|].who == i && StopEvent(g, os, s1.history[|s0.history|])
      && Timed(g, s1.history[|s0.history|], |s0.questions|, s1.questions)
  }

  // What do_unmonitor does to one service.
  ghost predicate UnmonitoredOne(i: nat, s0: State, s1: State) {
    s1 == if i in s0.dependVisited then s0
          else s0.(dependVisited := s0.dependVisited + {i}, monitored := s0.monitored - {i})
  }

  lemma DependantsLowered(g: seq<Config>, os: Oracle, w: Walk, i: nat, s0: State, s1: State)
    requires Lowered(g, os, w, Dependants(g, i), s0, s1)
    ensures forall y :: Needs(g, y, i) ==> y in s1.dependVisited
  {
    forall y | Needs(g, y, i) ensures y in s1.dependVisited {
      ReachesStep(g, y, i);
      assert y in Dependants(g, i);
    }
  }

  // Acting on a service whose dependants are done extends the walk by it.
  lemma LoweredNode(g: seq<Config>, os: Oracle, w: Walk, i: nat, s0: State, s1: State)
    requires i < |g|
    requires (w.Stopping? && StoppedOne(g, os, i, s0, s1)) || (w.Unmonitoring? && UnmonitoredOne(i, s0, s1))
    requires forall y :: Needs(g, y, i) ==> y in s0.dependVisited
    ensures Lowered(g, os, w, {i}, s0, s1)
  {
    if i in s0.dependVisited {
      assert {i} - s0.dependVisited == {};
      assert s0.dependVisited + {i} == s0.dependVisited && s0.monitored - {} == s0.monitored;
    } else {
      assert {i} - s0.dependVisited == {i};
      if w.Stopping? {
        assert News(s0, s1) == [s1.history[|s0.history|]];
        assert Whos(News(s0, s1)) == [i];
      }
    }
  }

  // Order along one edge is order along every path.
  lemma PrerequisitesFirstTrans(g: seq<Config>, ws: seq<nat>, done: set<nat>, k: nat, y: nat)
    requires PrerequisitesFirst(g, ws, done) && k < |ws| && Reaches(g, ws[k], y)
    requires forall x, z :: x in done && Needs(g, x, z) ==> z in done
    ensures y in done || y in ws[..k]
    decreases k
  {
    var j := ReachesFirst(g, ws[k], y);
    if j != y {
      if j in done {
        ReachableFromClosed(g, done, j, y);
      } else {
        var m :| 0 <= m < k && ws[m] == j;
        PrerequisitesFirstTrans(g, ws, done, m, y);
        assert ws[..m] <= ws[..k];
      }
    }
  }

  lemma ReachableFromClosed(g: seq<Config>, done: set<nat>, j: nat, y: nat)
    requires forall x, z :: x in done && Needs(g, x, z) ==> z in done
    requires j in done && Reaches(g, j, y)
    ensures y in done
  {
    var p :| Path(g, p) && p[0] == j && p[|p| - 1] == y;
    var n := 0;
    while n < |p| - 1
      invariant 0 <= n < |p| && p[n] in done
    {
      n := n + 1;
    }
  }

  lemma DependantsFirstTrans(g: seq<Config>, ws: seq<nat>, k: nat, y: nat)
    requires DependantsFirst(g, ws, {}) && k < |ws| && Reaches(g, y, ws[k])
    ensures y in ws[..k]
    decreases k
  {
    var j := ReachesLast(g, y, ws[k]);
    if j != y {
      var m :| 0 <= m < k && ws[m] == j;
      DependantsFirstTrans(g, ws, m, y);
      assert ws[..m] <= ws[..k];
    }
  }

  // What one command for service i does, from the flags and the history it finds.
  ghost predicate Handled(g: seq<Config>, os: Oracle, action: string, i: nat, s0: State, s1: State)
    requires i < |g|
  {
    if Is(action, "start") then
      var asked := if g[i].isProcess then s0.(questions := s0.questions + [i]) else s0;
      if g[i].isProcess && (os(|s0.questions|, i) || !g[i].hasStart) then
        s1 == asked.(monitored := s0.monitored + {i})
      else
        exists m: State :: Lowered(g, os, Stopping, Dependants(g, i), asked, m) && StartedAll(g, os, i, m, s1)
    else if Is(action, "stop") then
      if g[i].isProcess && !g[i].hasStop then
        s1 == s0.(monitored := s0.monitored - {i})
      else
        Lowered(g, os, Stopping, Dependants(g, i) + {i}, s0, s1)
    else if Is(action, "restart") then
      if g[i].isProcess && (!g[i].hasStart || !g[i].hasStop) then
        s1 == s0.(monitored := s0.monitored + {i})
      else
        exists m: State :: Lowered(g, os, Stopping, Dependants(g, i) + {i}, s0, m)
          && (if StopSucceeded(i, s0, m) then StartedAll(g, os, i, m, s1) else s1 == m)
    else if Is(action, "monitor") then
      Raised(g, os, Monitoring, {i}, s0, s1)
    else if Is(action, "unmonitor") then
      Lowered(g, os, Unmonitoring, Dependants(g, i) + {i}, s0, s1)
    else
      s1 == s0
  }

  // The target is started with what it needs, and then what depends on it.
  ghost predicate StartedAll(g: seq<Config>, os: Oracle, i: nat, s0: State, s1: State) {
    exists m: State :: Raised(g, os, Starting, {i}, s0, m) && Raised(g, os, Starting, Dependants(g, i), m, s1)
  }

  // do_stop reports failure only when it stopped the target just now and the
  // process outlived the wait; the target is the last one stopped.
  predicate StopSucceeded(i: nat, s0: State, m: State) {
    i in s0.dependVisited || (m.history != [] && m.history[|m.history| - 1].Stopped? && m.history[|m.history| - 1].ok)
  }
}
