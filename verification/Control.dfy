// control.c: commands that start, stop, monitor or unmonitor a service together
// with the services it depends on and the services that depend on it.
module Control {
  import opened ServiceGraph
  import opened ControlSpec
  import opened ControlLaws

  class Service {
    const cfg: Config
    var visited: bool
    var dependVisited: bool
    var doMonitor: bool

    constructor (cfg: Config)
      ensures this.cfg == cfg && !visited && !dependVisited && doMonitor
    {
      this.cfg := cfg;
      visited, dependVisited, doMonitor := false, false, true;
    }
  }

  // The service list, and the operating system as an oracle: `os` answers the
  // n-th question whether a process runs, `interrupted` stands for Run.stopped.
  // `questions` tells for every question so far which service it was about.
  class Monit {
    const services: seq<Service>
    const os: Oracle
    const interrupted: nat -> bool
    const pollTime: nat
    var questions: seq<nat>
    ghost var history: seq<Event>

    constructor (services: seq<Service>, os: Oracle, interrupted: nat -> bool, pollTime: nat)
      ensures this.services == services && this.os == os
      ensures questions == [] && history == []
    {
      this.services, this.os, this.interrupted, this.pollTime := services, os, interrupted, pollTime;
      questions, history := [], [];
    }

    ghost function Graph(): seq<Config> {
      seq(|services|, i requires 0 <= i < |services| => services[i].cfg)
    }

    ghost predicate Valid() {
      && (forall i, j :: 0 <= i < j < |services| ==> services[i] != services[j])
      && Wired(Graph())
    }

    ghost function Snap(): State
      reads this, services
    {
      State(
        (set i: nat | i < |services| && services[i].visited),
        (set i: nat | i < |services| && services[i].dependVisited),
        (set i: nat | i < |services| && services[i].doMonitor),
        questions,
        history)
    }

    ghost function Unvisited(): set<nat>
      reads services
    {
      set i: nat | i < |services| && !services[i].visited
    }

    method IsProcessRunning(i: nat) returns (running: bool)
      requires i < |services|
      modifies this`questions
      ensures questions == old(questions) + [i] && running == os(|old(questions)|, i)
    {
      running := os(|questions|, i);
      questions := questions + [i];
    }

    method GetService(name: string) returns (i: nat)
      requires Valid()
      ensures i <= |services|
      ensures i < |services| ==> Is(services[i].cfg.name, name)
      ensures i == |services| ==> forall j :: 0 <= j < |services| ==> !Is(services[j].cfg.name, name)
    {
      i := 0;
      while i < |services| && !Is(services[i].cfg.name, name)
        invariant i <= |services|
        invariant forall j :: 0 <= j < i ==> !Is(services[j].cfg.name, name)
      {
        i := i + 1;
      }
    }

    method MonitorSet(i: nat)
      requires Valid() && i < |services|
      modifies services[i]
      ensures Snap() == old(Snap()).(monitored := old(Snap()).monitored + {i})
    {
      if !services[i].doMonitor {
        services[i].doMonitor := true;
      }
    }

    method MonitorUnset(i: nat)
      requires Valid() && i < |services|
      modifies services[i]
      ensures Snap() == old(Snap()).(monitored := old(Snap()).monitored - {i})
    {
      if services[i].doMonitor {
        services[i].doMonitor := false;
      }
    }

    method ResetDepend()
      requires Valid()
      modifies services
      ensures Snap() == old(Snap()).(visited := {}, dependVisited := {})
    {
      var i := 0;
      while i < |services|
        invariant 0 <= i <= |services|
        invariant forall j :: 0 <= j < i ==> !services[j].visited && !services[j].dependVisited
        invariant forall j :: 0 <= j < |services| ==> services[j].doMonitor == old(services[j].doMonitor)
        invariant questions == old(questions) && history == old(history)
      {
        services[i].visited := false;
        services[i].dependVisited := false;
        i := i + 1;
      }
    }

    // The calls of do_start on everything service i needs.
    method StartPrerequisites(i: nat)
      requires Valid() && i < |services|
      requires services[i].visited
      modifies this, services
      ensures Raised(Graph(), os, Starting, DirectNeeds(Graph(), i), old(Snap()), Snap())
      ensures Unvisited() <= old(Unvisited())
      decreases Unvisited(), 1
    {
      hide Raised;
      ghost var g, sa := Graph(), Snap();
      var needs := services[i].cfg.dependsOn;
      var k := 0;
      ghost var roots: set<nat> := {};
      RaisedNothing(g, os, Starting, sa);
      while k < |needs|
        invariant 0 <= k <= |needs|
        invariant Raised(g, os, Starting, roots, sa, Snap())
        invariant roots == ResolvedUpTo(g, i, k)
        invariant Unvisited() <= old(Unvisited())
      {
        ghost var sk := Snap();
        var p := GetService(needs[k]);
        assert needs[k] in g[i].dependsOn;
        DoStart(p);
        RaisedCompose(g, os, Starting, roots, {p}, sa, sk, Snap());
        ResolvedStep(g, i, k, p);
        roots := roots + {p};
        k := k + 1;
      }
      ResolvedAll(g, i);
    }

    method DoStart(i: nat)
      requires Valid() && i < |services|
      modifies this, services
      ensures Raised(Graph(), os, Starting, {i}, old(Snap()), Snap())
      ensures Unvisited() <= old(Unvisited())
      decreases Unvisited(), 0
    {
      hide Raised, Acyclic;
      ghost var g, s0 := Graph(), Snap();
      if services[i].visited {
        RaisedVisited(g, os, Starting, i, s0);
        return;
      }
      services[i].visited := true;
      ghost var sa := Snap();
      assert sa == s0.(visited := s0.visited + {i});
      assert i in old(Unvisited()) && i !in Unvisited();
      StartPrerequisites(i);
      ghost var sb := Snap();
      var asked, spawned := |questions|, false;
      if services[i].cfg.hasStart {
        var running := false;
        if services[i].cfg.isProcess {
          running := IsProcessRunning(i);
        }
        spawned := !running;
      }
      history := history + [Started(i, asked, spawned)];
      MonitorSet(i);
      RaisedNode(g, os, Starting, i, DirectNeeds(g, i), s0, sa, sb, Snap());
    }

    method MonitorPrerequisites(i: nat)
      requires Valid() && i < |services|
      requires services[i].visited
      modifies this, services
      ensures Raised(Graph(), os, Monitoring, DirectNeeds(Graph(), i), old(Snap()), Snap())
      ensures Unvisited() <= old(Unvisited())
      decreases Unvisited(), 1
    {
      hide Raised;
      ghost var g, sa := Graph(), Snap();
      var needs := services[i].cfg.dependsOn;
      var k := 0;
      ghost var roots: set<nat> := {};
      RaisedNothing(g, os, Monitoring, sa);
      while k < |needs|
        invariant 0 <= k <= |needs|
        invariant Raised(g, os, Monitoring, roots, sa, Snap())
        invariant roots == ResolvedUpTo(g, i, k)
        invariant Unvisited() <= old(Unvisited())
      {
        ghost var sk := Snap();
        var p := GetService(needs[k]);
        assert needs[k] in g[i].dependsOn;
        DoMonitor(p);
        RaisedCompose(g, os, Monitoring, roots, {p}, sa, sk, Snap());
        ResolvedStep(g, i, k, p);
        roots := roots + {p};
        k := k + 1;
      }
      ResolvedAll(g, i);
    }

    method DoMonitor(i: nat)
      requires Valid() && i < |services|
      modifies this, services
      ensures Raised(Graph(), os, Monitoring, {i}, old(Snap()), Snap())
      ensures Unvisited() <= old(Unvisited())
      decreases Unvisited(), 0
    {
      hide Raised, Acyclic;
      ghost var g, s0 := Graph(), Snap();
      if services[i].visited {
        RaisedVisited(g, os, Monitoring, i, s0);
        return;
      }
      services[i].visited := true;
      ghost var sa := Snap();
      assert sa == s0.(visited := s0.visited + {i});
      assert i in old(Unvisited()) && i !in Unvisited();
      MonitorPrerequisites(i);
      ghost var sb := Snap();
      MonitorSet(i);
      RaisedNode(g, os, Monitoring, i, DirectNeeds(g, i), s0, sa, sb, Snap());
    }

    // Polls until the process is gone, the poll time is used up, or monit stops; then the
    // answer to one last question decides.
    method WaitStop(i: nat) returns (gone: bool, last: nat)
      requires i < |services|
      modifies this`questions
      ensures old(questions) <= questions && |questions| == last + 1
      ensures forall n :: |old(questions)| <= n < |questions| ==> questions[n] == i
      ensures gone == !os(last, i)
      ensures |old(questions)| <= last <= |old(questions)| + pollTime
      ensures forall n :: |old(questions)| <= n < last - 1 ==> os(n, i)
      ensures last < |old(questions)| + pollTime ==> interrupted(last) || (last > |old(questions)| && !os(last - 1, i))
    {
      var tries := pollTime;
      while tries > 0 && !interrupted(|questions|)
        invariant old(questions) <= questions && |questions| == |old(questions)| + pollTime - tries
        invariant forall n :: |old(questions)| <= n < |questions| ==> questions[n] == i && os(n, i)
      {
        tries := tries - 1;
        var running := IsProcessRunning(i);
        if !running { break; }
      }
      last := |questions|;
      var running := IsProcessRunning(i);
      gone := !running;
    }

    method DoStop(i: nat) returns (ok: bool)
      requires Valid() && i < |services|
      modifies this, services
      ensures StoppedOne(Graph(), os, i, old(Snap()), Snap())
      ensures ok == StopSucceeded(i, old(Snap()), Snap())
    {
      ghost var g, s0 := Graph(), Snap();
      if services[i].dependVisited {
        return true;
      }
      services[i].dependVisited := true;
      assert Snap() == s0.(dependVisited := s0.dependVisited + {i});
      MonitorUnset(i);
      var asked, last, spawned := |questions|, |questions|, false;
      ok := true;
      if services[i].cfg.hasStop {
        var running := true;
        if services[i].cfg.isProcess {
          running := IsProcessRunning(i);
        }
        if running {
          spawned := true;
          if services[i].cfg.isProcess {
            ok, last := WaitStop(i);
          }
        }
      }
      history := history + [Stopped(i, asked, spawned, last, ok)];
    }

    method DoUnmonitor(i: nat)
      requires Valid() && i < |services|
      modifies services
      ensures UnmonitoredOne(i, old(Snap()), Snap())
    {
      ghost var s0 := Snap();
      if services[i].dependVisited {
        return;
      }
      services[i].dependVisited := true;
      assert Snap() == s0.(dependVisited := s0.dependVisited + {i});
      MonitorUnset(i);
    }

    // The inner loop of do_depend: does some entry of c's list name service i?
    method NamesService(c: nat, i: nat) returns (found: bool)
      requires Valid() && c < |services| && i < |services|
      ensures found <==> Needs(Graph(), c, i)
    {
      var needs := services[c].cfg.dependsOn;
      found := false;
      for d := 0 to |needs|
        invariant !found
        invariant forall n :: 0 <= n < d ==> !Is(needs[n], services[i].cfg.name)
      {
        if Is(needs[d], services[i].cfg.name) {
          assert needs[d] in Graph()[c].dependsOn;
          return true;
        }
      }
    }

    // do_depend(s, "start") and do_depend(s, "monitor"): each service that depends
    // on i is raised before the services that depend on it.
    method RaiseDependants(i: nat, w: Walk)
      requires Valid() && i < |services| && Acyclic(Graph())
      requires w.Starting? || w.Monitoring?
      modifies this, services
      ensures Raised(Graph(), os, w, Dependants(Graph(), i), old(Snap()), Snap())
      decreases Dependants(Graph(), i)
    {
      hide Raised, Acyclic;
      ghost var g, s0 := Graph(), Snap();
      RaisedNothing(g, os, w, s0);
      assert DependantsUpTo(g, i, 0) == {};
      for c := 0 to |services|
        invariant Raised(g, os, w, DependantsUpTo(g, i, c), s0, Snap())
      {
        ghost var s1 := Snap();
        var found := NamesService(c, i);
        if found {
          if w.Starting? {
            DoStart(c);
          } else {
            DoMonitor(c);
          }
          ghost var s2 := Snap();
          DependantsShrink(g, c, i);
          RaiseDependants(c, w);
          RaisedCompose(g, os, w, {c}, Dependants(g, c), s1, s2, Snap());
          RaisedCompose(g, os, w, DependantsUpTo(g, i, c), {c} + Dependants(g, c), s0, s1, Snap());
        }
        DependantsUpToStep(g, i, c);
      }
      DependantsComplete(g, i);
    }

    // do_depend(s, "stop") and do_depend(s, "unmonitor"): each service that depends
    // on i is lowered after the services that depend on it.
    method LowerDependants(i: nat, w: Walk)
      requires Valid() && i < |services| && Acyclic(Graph())
      requires w.Stopping? || w.Unmonitoring?
      modifies this, services
      ensures Lowered(Graph(), os, w, Dependants(Graph(), i), old(Snap()), Snap())
      decreases Dependants(Graph(), i)
    {
      hide Lowered, Acyclic;
      ghost var g, s0 := Graph(), Snap();
      LoweredNothing(g, os, w, s0);
      assert DependantsUpTo(g, i, 0) == {};
      for c := 0 to |services|
        invariant Lowered(g, os, w, DependantsUpTo(g, i, c), s0, Snap())
      {
        ghost var s1 := Snap();
        var found := NamesService(c, i);
        if found {
          DependantsShrink(g, c, i);
          LowerDependants(c, w);
          var ok := LowerLast(c, w, s1);
          assert Dependants(g, c) + {c} == {c} + Dependants(g, c);
          LoweredCompose(g, os, w, DependantsUpTo(g, i, c), {c} + Dependants(g, c), s0, s1, Snap());
        }
        DependantsUpToStep(g, i, c);
      }
      DependantsComplete(g, i);
    }

    // do_stop or do_unmonitor on a service whose dependants were lowered since s0.
    method LowerLast(i: nat, w: Walk, ghost s0: State) returns (ok: bool)
      requires Valid() && i < |services| && Acyclic(Graph())
      requires w.Stopping? || w.Unmonitoring?
      requires Lowered(Graph(), os, w, Dependants(Graph(), i), s0, Snap())
      modifies this, services
      ensures Lowered(Graph(), os, w, Dependants(Graph(), i) + {i}, s0, Snap())
      ensures w.Stopping? ==> ok == StopSucceeded(i, s0, Snap())
    {
      ghost var g, s1 := Graph(), Snap();
      DependantsLowered(g, os, w, i, s0, s1);
      hide Lowered;
      if w.Stopping? {
        ok := DoStop(i);
      } else {
        DoUnmonitor(i);
        ok := true;
      }
      LoweredNode(g, os, w, i, s1, Snap());
      LoweredCompose(g, os, w, Dependants(g, i), {i}, s0, s1, Snap());
    }

    method CheckStart(i: nat)
      requires Valid() && Acyclic(Graph()) && i < |services|
      modifies this, services
      ensures Handled(Graph(), os, "start", i, old(Snap()), Snap())
    {
      hide Raised, Lowered, Acyclic;
      ghost var g, s0 := Graph(), Snap();
      if services[i].cfg.isProcess {
        var running := IsProcessRunning(i);
        if running || !services[i].cfg.hasStart {
          MonitorSet(i);
          return;
        }
      }
      ghost var asked := Snap();
      assert asked == if g[i].isProcess then s0.(questions := s0.questions + [i]) else s0;
      LowerDependants(i, Stopping);
      ghost var m := Snap();
      StartTarget(i);
      assert Lowered(g, os, Stopping, Dependants(g, i), asked, m) && StartedAll(g, os, i, m, Snap());
    }

    // do_start(s) followed by do_depend(s, "start").
    method StartTarget(i: nat)
      requires Valid() && Acyclic(Graph()) && i < |services|
      modifies this, services
      ensures StartedAll(Graph(), os, i, old(Snap()), Snap())
    {
      hide Raised, Acyclic;
      DoStart(i);
      ghost var m := Snap();
      RaiseDependants(i, Starting);
    }

    method CheckStop(i: nat)
      requires Valid() && Acyclic(Graph()) && i < |services|
      modifies this, services
      ensures Handled(Graph(), os, "stop", i, old(Snap()), Snap())
    {
      hide Lowered, Acyclic;
      ghost var s0 := Snap();
      if services[i].cfg.isProcess && !services[i].cfg.hasStop {
        MonitorUnset(i);
        return;
      }
      LowerDependants(i, Stopping);
      var ok := LowerLast(i, Stopping, s0);
    }

    method CheckRestart(i: nat)
      requires Valid() && Acyclic(Graph()) && i < |services|
      modifies this, services
      ensures Handled(Graph(), os, "restart", i, old(Snap()), Snap())
    {
      hide Raised, Lowered, Acyclic;
      ghost var s0 := Snap();
      if services[i].cfg.isProcess && (!services[i].cfg.hasStart || !services[i].cfg.hasStop) {
        MonitorSet(i);
        return;
      }
      LowerDependants(i, Stopping);
      var ok := LowerLast(i, Stopping, s0);
      ghost var m := Snap();
      if ok {
        StartTarget(i);
      }
    }

    // Handles a command for one service. A name that no service has is ignored.
    method CheckService(name: string, action: string)
      requires Valid() && (Depends(action) ==> Acyclic(Graph()))
      modifies this, services
      ensures (forall j :: 0 <= j < |services| ==> !Is(Graph()[j].name, name)) ==> Snap() == old(Snap())
      ensures forall i: nat :: i < |services| && Is(Graph()[i].name, name) ==>
                Handled(Graph(), os, action, i, old(Snap()), Snap())
    {
      hide Handled, Acyclic, Lowered, Raised;
      var i := GetService(name);
      if i == |services| {
        return;
      }
      assert Is(Graph()[i].name, name);
      Command(i, action);
    }

    // The commands for the service that was found.
    method Command(i: nat, action: string)
      requires Valid() && (Depends(action) ==> Acyclic(Graph())) && i < |services|
      modifies this, services
      ensures Handled(Graph(), os, action, i, old(Snap()), Snap())
    {
      hide Acyclic, Lowered, Raised;
      if Is(action, "start") {
        CheckStart(i);
      } else if Is(action, "stop") {
        CheckStop(i);
      } else if Is(action, "restart") {
        CheckRestart(i);
      } else if Is(action, "monitor") {
        DoMonitor(i);
      } else if Is(action, "unmonitor") {
        ghost var s0 := Snap();
        LowerDependants(i, Unmonitoring);
        var ok := LowerLast(i, Unmonitoring, s0);
      }
    }

    // Handles a command for every service that no earlier step has visited.
    method ControlAll(action: string)
      requires Valid() && (Depends(action) ==> Acyclic(Graph()))
      modifies this, services
      ensures Fresh(Snap()) && Extends(old(Snap()), Snap())
      ensures Fresh(old(Snap())) && Is(action, "monitor") ==>
                Snap().history == old(history) && forall i :: 0 <= i < |services| ==> services[i].doMonitor
      ensures Fresh(old(Snap())) && Is(action, "unmonitor") ==>
                Snap().history == old(history) && forall i :: 0 <= i < |services| ==> !services[i].doMonitor
      ensures Fresh(old(Snap())) && Is(action, "start") ==> forall i :: 0 <= i < |services| ==> services[i].doMonitor
      ensures Fresh(old(Snap())) && Is(action, "stop") ==>
                && (forall i :: 0 <= i < |services| ==> !services[i].doMonitor)
                && (forall e :: e in News(old(Snap()), Snap()) ==> e.Stopped?)
      ensures Fresh(old(Snap())) ==> InTime(Graph(), News(old(Snap()), Snap()), |old(questions)|, questions)
      ensures Fresh(old(Snap())) && Acts(action) ==> exists last: State ::
        && RunKeeps(Graph(), os, News(old(Snap()), Snap()), last)
        && RunCovers(Graph(), os, action, |services|, |old(questions)|, News(old(Snap()), Snap()), last)
        && RunMeant(Graph(), os, News(old(Snap()), Snap()), |old(questions)|, last)
        && Snap() == last.(visited := {}, dependVisited := {})
    {
      hide RunKeeps, RunMeant, RunCovers, Handled, Acyclic, Lowered, Acts, Depends, Is;
      ghost var g, s0 := Graph(), Snap();
      if Fresh(s0) { RunStarts(g, os, action, s0); }
      for i := 0 to |services|
        invariant Extends(s0, Snap())
        invariant Fresh(s0) ==> RunSoFar(g, os, action, i, s0, Snap())
      {
        ghost var s1 := Snap();
        if !services[i].visited {
          CheckService(services[i].cfg.name, action);
          SameName(g[i].name);
          HandledExtends(g, os, action, i, s1, Snap());
          if Fresh(s0) {
            RunStep(g, os, action, i, s0, s1, Snap());
          }
        } else if Fresh(s0) {
          RunSkips(g, os, action, i, s0, s1);
        }
      }
      ghost var last := Snap();
      if Fresh(s0) { RunEnds(g, os, action, s0, last); }
      ResetDepend();
      forall i: nat | i < |services|
        ensures Fresh(s0) && Is(action, "start") ==> services[i].doMonitor
        ensures Fresh(s0) && Is(action, "stop") ==> !services[i].doMonitor
        ensures Fresh(s0) && Is(action, "monitor") ==> services[i].doMonitor
        ensures Fresh(s0) && Is(action, "unmonitor") ==> !services[i].doMonitor
      {
        assert services[i].doMonitor <==> i in Snap().monitored;
      }
    }
  }
}
