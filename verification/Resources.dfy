// The resource limits of validate.c: a counter that rises with every check that
// matches the limit and falls with every check that does not.
module Resources {
  // What happens to the counter of one resource.
  datatype Event = Checked(matches: bool) | Reset

  // ---- What the counter is for ----

  // Matching minus non-matching checks.
  function Balance(ms: seq<bool>): int {
    if ms == [] then 0 else Balance(ms[..|ms| - 1]) + if ms[|ms| - 1] then 1 else -1
  }

  // c is the largest balance of a suffix, the empty one included.
  ghost predicate Largest(ms: seq<bool>, c: int) {
    && (exists i :: 0 <= i <= |ms| && Balance(ms[i..]) == c)
    && (forall i :: 0 <= i <= |ms| ==> Balance(ms[i..]) <= c)
  }

  // Over some latest stretch the matching checks outnumber the others by max.
  ghost predicate Exceeds(ms: seq<bool>, max: int) {
    exists i :: 0 <= i <= |ms| && Balance(ms[i..]) >= max
  }

  // The checks since the last reset; a check that fails starts anew.
  ghost function Window(h: seq<Event>, max: int): seq<bool> {
    if h == [] || h[|h| - 1].Reset? then []
    else
      var w := Window(h[..|h| - 1], max) + [h[|h| - 1].matches];
      if Exceeds(w, max) then [] else w
  }

  // The last event is a check that fails.
  ghost predicate Fails(h: seq<Event>, max: int) {
    && h != [] && h[|h| - 1].Checked?
    && Exceeds(Window(h[..|h| - 1], max) + [h[|h| - 1].matches], max)
  }

  ghost predicate Passes(h: seq<Event>, max: int) {
    h != [] && h[|h| - 1].Checked? && !Fails(h, max)
  }

  // The latest check, if there was one, failed.
  ghost predicate LastFailed(h: seq<Event>, max: int) {
    h != [] && if h[|h| - 1].Reset? then LastFailed(h[..|h| - 1], max) else Fails(h, max)
  }

  // The last event is a check that fails after one that did not: the action is taken.
  ghost predicate Acted(h: seq<Event>, max: int) {
    Fails(h, max) && !LastFailed(h[..|h| - 1], max)
  }

  // ---- The counter ----

  datatype Counter = Counter(cycle: int, handled: bool)

  function Counted(cycle: int, matches: bool): int {
    if !matches && cycle > 0 then cycle - 1 else if matches then cycle + 1 else cycle
  }

  function Step(c: Counter, e: Event, max: int): Counter {
    match e
    case Reset => c.(cycle := 0)
    case Checked(m) => if Counted(c.cycle, m) >= max then Counter(0, true) else Counter(Counted(c.cycle, m), false)
  }

  function Run(h: seq<Event>, max: int): Counter {
    if h == [] then Counter(0, false) else Step(Run(h[..|h| - 1], max), h[|h| - 1], max)
  }

  lemma LargestStep(ms: seq<bool>, c: int, m: bool)
    requires Largest(ms, c)
    ensures Largest(ms + [m], Counted(c, m))
  {
    var ns, d := ms + [m], if m then 1 else -1;
    assert Balance(ms[|ms|..]) == 0;
    assert Balance(ns[|ns|..]) == 0;
    forall i | 0 <= i <= |ms| ensures Balance(ns[i..]) == Balance(ms[i..]) + d {
      assert ns[i..] == ms[i..] + [m];
    }
    var i :| 0 <= i <= |ms| && Balance(ms[i..]) == c;
    assert Balance(ns[i..]) == c + d;
  }

  lemma LargestExceeds(ms: seq<bool>, c: int, max: int)
    requires Largest(ms, c)
    ensures Exceeds(ms, max) <==> c >= max
  {
    var i :| 0 <= i <= |ms| && Balance(ms[i..]) == c;
    assert c >= max ==> Balance(ms[i..]) >= max;
  }

  // The counter is the largest excess of matching over other checks since the last
  // reset, and the flag tells that the latest check failed.
  lemma {:induction false} CounterIsExcess(h: seq<Event>, max: int)
    ensures Largest(Window(h, max), Run(h, max).cycle)
    ensures Run(h, max).handled == LastFailed(h, max)
  {
    assert Largest([], 0) by {
      assert Balance([][0..]) == 0;
    }
    if h != [] {
      var front, e := h[..|h| - 1], h[|h| - 1];
      CounterIsExcess(front, max);
      if e.Checked? {
        var w, c := Window(front, max), Run(front, max).cycle;
        LargestStep(w, c, e.matches);
        LargestExceeds(w + [e.matches], Counted(c, e.matches), max);
      }
    }
  }

  // A check fails exactly when the excess reaches max.
  lemma FailsExactly(h: seq<Event>, m: bool, max: int)
    ensures Fails(h + [Checked(m)], max) <==> Counted(Run(h, max).cycle, m) >= max
    ensures Acted(h + [Checked(m)], max) <==> Counted(Run(h, max).cycle, m) >= max && !Run(h, max).handled
  {
    assert (h + [Checked(m)])[..|h|] == h;
    CounterIsExcess(h, max);
    LargestStep(Window(h, max), Run(h, max).cycle, m);
    LargestExceeds(Window(h, max) + [m], Counted(Run(h, max).cycle, m), max);
  }

  // Between polls the counter stays in 0..max-1, for every max that can be passed at all.
  lemma {:induction false} StaysBelow(h: seq<Event>, max: int)
    ensures 0 <= Run(h, max).cycle
    ensures max >= 1 ==> Run(h, max).cycle < max
  {
    if h != [] {
      StaysBelow(h[..|h| - 1], max);
    }
  }

  lemma {:induction false} LastFailedSince(h: seq<Event>, i: nat, max: int)
    requires i <= |h| && LastFailed(h[..i], max)
    requires forall k :: i < k <= |h| ==> !Passes(h[..k], max)
    ensures LastFailed(h, max)
    decreases |h|
  {
    assert h[..|h|] == h;
    if i < |h| {
      var front := h[..|h| - 1];
      assert front[..i] == h[..i];
      forall k | i < k <= |front| ensures !Passes(front[..k], max) {
        assert front[..k] == h[..k];
      }
      LastFailedSince(front, i, max);
    }
  }

  // Between two checks that are acted on one check passes.
  lemma ActedApart(h: seq<Event>, i: nat, j: nat, max: int)
    requires i < j <= |h| && Acted(h[..i], max) && Acted(h[..j], max)
    ensures exists k :: i < k < j && Passes(h[..k], max)
  {
    var g := h[..j - 1];
    assert g[..i] == h[..i] && h[..j][..j - 1] == g;
    if forall k :: i < k < j ==> !Passes(h[..k], max) {
      forall k | i < k <= |g| ensures !Passes(g[..k], max) {
        assert g[..k] == h[..k];
      }
      LastFailedSince(g, i, max);
    }
  }

  // How many checks of a history match.
  function Matching(h: seq<Event>): nat {
    if h == [] then 0 else Matching(h[..|h| - 1]) + if h[|h| - 1] == Checked(true) then 1 else 0
  }

  // After a failing check the counter is at most the number of later matches.
  lemma {:induction false} CycleSince(h: seq<Event>, i: nat, max: int)
    requires i <= |h| && Fails(h[..i], max)
    ensures Run(h, max).cycle <= Matching(h[i..])
    decreases |h|
  {
    assert h[..|h|] == h;
    if i == |h| {
      FailsExactly(h[..i - 1], h[i - 1].matches, max);
      assert h[..i - 1] + [Checked(h[i - 1].matches)] == h;
    } else {
      assert h[..|h| - 1][..i] == h[..i];
      CycleSince(h[..|h| - 1], i, max);
      StaysBelow(h[..|h| - 1], max);
      assert h[i..][..|h[i..]| - 1] == h[..|h| - 1][i..];
    }
  }

  // From one failing check to the next there are at least max matching ones.
  lemma FailuresApart(h: seq<Event>, i: nat, j: nat, max: int)
    requires i < j <= |h| && Fails(h[..i], max) && Fails(h[..j], max)
    ensures Matching(h[i..j]) >= max
  {
    var g, m := h[..j - 1], h[j - 1].matches;
    assert g[..i] == h[..i] && g + [Checked(m)] == h[..j];
    hide Fails, Run;
    CycleSince(g, i, max);
    StaysBelow(g, max);
    FailsExactly(g, m, max);
    assert h[i..j][..j - i - 1] == g[i..] && h[i..j][j - i - 1] == h[j - 1];
  }

  // With max at least 2 a failure never follows a failure directly.
  lemma {:induction false} FailureThenPass(h: seq<Event>, max: int)
    requires max >= 2 && LastFailed(h, max)
    ensures Run(h, max).cycle == 0
  {
    if h[|h| - 1].Checked? {
      assert h[..|h| - 1] + [Checked(h[|h| - 1].matches)] == h;
      FailsExactly(h[..|h| - 1], h[|h| - 1].matches, max);
    }
  }

  ghost predicate AllActed(max: int) {
    forall h: seq<Event> :: Fails(h, max) ==> Acted(h, max)
  }

  // Every failure is acted on exactly when max is at least 2: with smaller ones, failing
  // checks follow each other directly and only the first is acted on.
  lemma EveryFailureActed(max: int)
    ensures AllActed(max) <==> max >= 2
  {
    if max >= 2 {
      forall h: seq<Event> | Fails(h, max) ensures Acted(h, max) {
        var front := h[..|h| - 1];
        assert front + [Checked(h[|h| - 1].matches)] == h;
        FailsExactly(front, h[|h| - 1].matches, max);
        if LastFailed(front, max) { FailureThenPass(front, max); }
      }
    } else {
      var one: seq<Event> := [Checked(true)];
      assert one[..0] == [] && [] + [Checked(true)] == one;
      FailsExactly([], true, max);
      FailsExactly(one, true, max);
    }
  }

  // With max 1 the second of two matching checks fails and is not acted on.
  lemma SecondFailureIgnored()
    ensures var h := [Checked(true), Checked(true)]; Fails(h, 1) && !Acted(h, 1)
  {
    var one: seq<Event> := [Checked(true)];
    assert one[..0] == [] && [] + [Checked(true)] == one;
    FailsExactly([], true, 1);
    FailsExactly(one, true, 1);
    assert one + [Checked(true)] == [Checked(true), Checked(true)];
  }

  // ---- The checks of validate.c ----

  datatype Operator = Greater | Less | Equal | NotEqual | UnknownOperator

  function Compares(operator: Operator, left: int, right: int): bool {
    match operator
    case Greater => left > right
    case Less => left < right
    case Equal => left == right
    case NotEqual => left != right
    case UnknownOperator => false
  }

  // Of two numbers one is greater, the other less, or they are equal, in every case as its
  // name says.
  lemma OperatorsMean(left: int, right: int)
    ensures Compares(Greater, right + 1, right) && Compares(Less, left, left + 1) && Compares(Equal, left, left)
    ensures Compares(Greater, left, right) <==> Compares(Less, right, left)
    ensures Compares(NotEqual, left, right) <==> !Compares(Equal, left, right)
    ensures Compares(NotEqual, left, right) <==> Compares(Greater, left, right) || Compares(Less, left, right)
    ensures !(Compares(Greater, left, right) && Compares(Less, left, right))
    ensures Compares(Greater, left, right) ==> Compares(Greater, left + 1, right)
    ensures !Compares(UnknownOperator, left, right)
  {
  }

  datatype ResourceId = CpuPercent | MemPercent | MemKbyte | Load1 | Load5 | Load15 | Children | TotalMemKbyte | UnknownId

  // The figures of one poll; the load averages in tenths.
  datatype Readings = Readings(cpuPercent: int, memPercent: int, memKbyte: int, load1: int, load5: int, load15: int,
                               children: int, totalMemKbyte: int)

  // A resource of an unknown kind is never exceeded.
  function Exceeded(id: ResourceId, operator: Operator, limit: int, now: Readings): bool {
    match id
    case CpuPercent => Compares(operator, now.cpuPercent, limit)
    case MemPercent => Compares(operator, now.memPercent, limit)
    case MemKbyte => Compares(operator, now.memKbyte, limit)
    case Load1 => Compares(operator, now.load1, limit)
    case Load5 => Compares(operator, now.load5, limit)
    case Load15 => Compares(operator, now.load15, limit)
    case Children => Compares(operator, now.children, limit)
    case TotalMemKbyte => Compares(operator, now.totalMemKbyte, limit)
    case UnknownId => false
  }

  // Every kind of resource is about its own figure.
  lemma FiguresMean(operator: Operator, limit: int, a: int, b: int, c: int, d: int, e: int, f: int, g: int, h: int)
    ensures var now := Readings(cpuPercent := a, memPercent := b, memKbyte := c, load1 := d, load5 := e, load15 := f,
                                children := g, totalMemKbyte := h);
      && Exceeded(CpuPercent, operator, limit, now) == Compares(operator, a, limit)
      && Exceeded(MemPercent, operator, limit, now) == Compares(operator, b, limit)
      && Exceeded(MemKbyte, operator, limit, now) == Compares(operator, c, limit)
      && Exceeded(Load1, operator, limit, now) == Compares(operator, d, limit)
      && Exceeded(Load5, operator, limit, now) == Compares(operator, e, limit)
      && Exceeded(Load15, operator, limit, now) == Compares(operator, f, limit)
      && Exceeded(Children, operator, limit, now) == Compares(operator, g, limit)
      && Exceeded(TotalMemKbyte, operator, limit, now) == Compares(operator, h, limit)
      && !Exceeded(UnknownId, operator, limit, now)
  {
  }

  datatype Action = Alert | Stop | Restart | Exec | Unmonitor | UnknownAction

  datatype Posting = PostResource | PostStop | PostRestart | PostUnmonitor

  // eval_actions: what is posted, and whether the poll of the service may go on.
  function Postings(action: Action): seq<Posting> {
    match action
    case Alert => [PostResource]
    case Stop => [PostStop]
    case Restart => [PostRestart]
    case Exec => [PostResource]
    case Unmonitor => [PostResource, PostUnmonitor]
    case UnknownAction => []
  }

  predicate Fatal(action: Action) {
    action.Stop? || action.Restart? || action.Unmonitor?
  }

  // Which actions post what; the poll ends with those that stop, restart or unmonitor.
  lemma ActionsMean(a: Action)
    ensures PostStop in Postings(a) <==> a == Stop
    ensures PostRestart in Postings(a) <==> a == Restart
    ensures PostUnmonitor in Postings(a) <==> a == Unmonitor
    ensures PostResource in Postings(a) <==> a == Alert || a == Exec || a == Unmonitor
    ensures |Postings(a)| == if a == Unmonitor then 2 else if a == UnknownAction then 0 else 1
    ensures a == Unmonitor ==> Postings(a)[0] == PostResource
    ensures Fatal(a) <==> PostStop in Postings(a) || PostRestart in Postings(a) || PostUnmonitor in Postings(a)
  {
  }

  class Resource {
    const id: ResourceId
    const operator: Operator
    const limit: int
    const maxCycle: int
    const action: Action
    var cycle: int
    var eventHandled: bool
    ghost var history: seq<Event>

    constructor (id: ResourceId, operator: Operator, limit: int, maxCycle: int, action: Action)
      ensures Valid() && history == []
      ensures this.id == id && this.operator == operator && this.limit == limit
      ensures this.maxCycle == maxCycle && this.action == action
    {
      this.id, this.operator, this.limit, this.maxCycle, this.action := id, operator, limit, maxCycle, action;
      cycle, eventHandled, history := 0, false, [];
    }

    // The fields are what the whole history of the resource says.
    ghost predicate Valid()
      reads this
    {
      Counter(cycle, eventHandled) == Run(history, maxCycle)
    }

    predicate Matches(now: Readings) {
      Exceeded(id, operator, limit, now)
    }

    // Whether the check of this poll makes the action be taken.
    ghost predicate Takes(h: seq<Event>, now: Readings) {
      Acted(h + [Checked(Matches(now))], maxCycle)
    }

    // check_process_resources
    method Check(now: Readings) returns (ok: bool)
      modifies this`cycle
      ensures cycle == Counted(old(cycle), Matches(now))
      ensures ok <==> cycle < maxCycle
    {
      var okay := true;
      if id != UnknownId {
        if Exceeded(id, operator, limit, now) {
          okay := false;
        }
      }
      if okay && cycle > 0 {
        cycle := cycle - 1;
      } else if !okay {
        cycle := cycle + 1;
      }
      if cycle >= maxCycle {
        return false;
      }
      return true;
    }

    // One round of the loop of check_process: the check, and whether its action is taken.
    method Poll(now: Readings) returns (acted: bool)
      requires Valid()
      modifies this
      ensures Valid() && history == old(history) + [Checked(Matches(now))]
      ensures acted <==> Takes(old(history), now)
    {
      ghost var before := history;
      FailsExactly(history, Matches(now), maxCycle);
      var ok := Check(now);
      acted := false;
      if !ok {
        cycle := 0;
        if !eventHandled {
          eventHandled := true;
          acted := true;
        }
      } else {
        eventHandled := false;
      }
      history := history + [Checked(Matches(now))];
      assert history[..|history| - 1] == before;
    }

    method ResetCounter()
      requires Valid()
      modifies this
      ensures Valid() && history == old(history) + [Reset]
    {
      ghost var before := history;
      cycle := 0;
      history := history + [Reset];
      assert history[..|history| - 1] == before;
    }
  }

  // ---- All the resources of a process ----

  ghost predicate AllValid(rs: seq<Resource>)
    reads rs
  {
    && (forall i: nat, j: nat :: i < j < |rs| ==> rs[i] != rs[j])
    && (forall i :: 0 <= i < |rs| ==> rs[i].Valid())
  }

  ghost function Histories(rs: seq<Resource>): (hs: seq<seq<Event>>)
    reads rs
    ensures |hs| == |rs| && forall i :: 0 <= i < |rs| ==> hs[i] == rs[i].history
  {
    seq(|rs|, i requires 0 <= i < |rs| reads rs => rs[i].history)
  }

  // What the first n resources that were acted on post.
  function Posted(actions: seq<Action>, acted: seq<bool>): seq<Posting>
    requires |acted| <= |actions|
  {
    if acted == [] then []
    else
      var n := |acted| - 1;
      Posted(actions, acted[..n]) + if acted[n] then Postings(actions[n]) else []
  }

  function Actions(rs: seq<Resource>): (r: seq<Action>)
    ensures |r| == |rs| && forall i :: 0 <= i < |rs| ==> r[i] == rs[i].action
  {
    if rs == [] then [] else [rs[0].action] + Actions(rs[1..])
  }

  // reset_resource_counter
  method ResetAll(rs: seq<Resource>)
    requires AllValid(rs)
    modifies rs
    ensures AllValid(rs)
    ensures forall i :: 0 <= i < |rs| ==> Histories(rs)[i] == old(Histories(rs))[i] + [Reset]
  {
    for n := 0 to |rs|
      invariant AllValid(rs)
      invariant forall i :: 0 <= i < n ==> rs[i].history == old(rs[i].history) + [Reset]
      invariant forall i :: n <= i < |rs| ==> rs[i].history == old(rs[i].history)
    {
      rs[n].ResetCounter();
    }
  }

  method PollOne(rs: seq<Resource>, n: nat, now: Readings) returns (acted: bool)
    requires AllValid(rs) && n < |rs|
    modifies rs
    ensures AllValid(rs)
    ensures Histories(rs) == old(Histories(rs))[n := old(rs[n].history) + [Checked(rs[n].Matches(now))]]
    ensures acted <==> rs[n].Takes(old(rs[n].history), now)
  {
    acted := rs[n].Poll(now);
  }

  lemma PostedNone(actions: seq<Action>)
    ensures Posted(actions, []) == []
  {
  }

  lemma PostedStep(actions: seq<Action>, acted: seq<bool>, taken: bool)
    requires |acted| < |actions|
    ensures Posted(actions, acted + [taken])
         == Posted(actions, acted) + if taken then Postings(actions[|acted|]) else []
  {
    assert (acted + [taken])[..|acted|] == acted;
  }

  // The first n of the histories with the check of this poll.
  ghost function Advanced(rs: seq<Resource>, hs: seq<seq<Event>>, n: nat, now: Readings): (r: seq<seq<Event>>)
    requires n <= |rs| == |hs|
    ensures |r| == |rs|
    ensures forall i :: 0 <= i < n ==> r[i] == hs[i] + [Checked(rs[i].Matches(now))]
    ensures forall i :: n <= i < |rs| ==> r[i] == hs[i]
  {
    seq(|rs|, i requires 0 <= i < |rs| => if i < n then hs[i] + [Checked(rs[i].Matches(now))] else hs[i])
  }

  // The resources in turn, up to the first whose action is taken and is fatal.
  method PollAll(rs: seq<Resource>, now: Readings) returns (ok: bool, posted: seq<Posting>, ghost acted: seq<bool>)
    requires AllValid(rs)
    modifies rs
    ensures AllValid(rs) && |acted| <= |rs|
    ensures forall i :: 0 <= i < |acted| ==> acted[i] == rs[i].Takes(old(Histories(rs))[i], now)
    ensures forall i :: 0 <= i < |acted| - 1 ==> !(acted[i] && Fatal(rs[i].action))
    ensures ok <==> |acted| == 0 || !(acted[|acted| - 1] && Fatal(rs[|acted| - 1].action))
    ensures ok ==> |acted| == |rs|
    ensures posted == Posted(Actions(rs), acted)
    ensures Histories(rs) == Advanced(rs, old(Histories(rs)), |acted|, now)
  {
    hide AllValid, Fatal, Postings, Posted, Actions, Histories, Advanced, Resource.Takes, Resource.Matches;
    assert Posted(Actions(rs), []) == [] by { PostedNone(Actions(rs)); }
    posted, acted := [], [];
    ghost var before := Histories(rs);
    for n := 0 to |rs|
      invariant AllValid(rs) && |acted| == n
      invariant forall i :: 0 <= i < n ==> acted[i] == rs[i].Takes(before[i], now)
      invariant forall i :: 0 <= i < n ==> !(acted[i] && Fatal(rs[i].action))
      invariant Histories(rs) == Advanced(rs, before, n, now)
      invariant posted == Posted(Actions(rs), acted)
    {
      var taken := PollOne(rs, n, now);
      assert Histories(rs) == Advanced(rs, before, n + 1, now);
      PostedStep(Actions(rs), acted, taken);
      acted := acted + [taken];
      if taken {
        posted := posted + Postings(rs[n].action);
        if Fatal(rs[n].action) {
          return false, posted, acted;
        }
      }
    }
    return true, posted, acted;
  }

  // The resource loop of check_process. After a fatal action the counters of all
  // resources are reset.
  method CheckProcess(rs: seq<Resource>, now: Readings) returns (ok: bool, posted: seq<Posting>, ghost acted: seq<bool>)
    requires AllValid(rs)
    modifies rs
    ensures AllValid(rs) && |acted| <= |rs|
    ensures forall i :: 0 <= i < |acted| ==> acted[i] == rs[i].Takes(old(Histories(rs))[i], now)
    ensures forall i :: 0 <= i < |acted| - 1 ==> !(acted[i] && Fatal(rs[i].action))
    ensures ok <==> |acted| == 0 || !(acted[|acted| - 1] && Fatal(rs[|acted| - 1].action))
    ensures ok ==> |acted| == |rs|
    ensures posted == Posted(Actions(rs), acted)
    ensures ok ==> Histories(rs) == Advanced(rs, old(Histories(rs)), |rs|, now)
    ensures !ok ==> forall i :: 0 <= i < |rs| ==>
      Histories(rs)[i] == Advanced(rs, old(Histories(rs)), |acted|, now)[i] + [Reset]
  {
    hide AllValid, Fatal, Postings, Posted, Resource.Takes, Resource.Matches, Advanced;
    ok, posted, acted := PollAll(rs, now);
    if !ok {
      ResetAll(rs);
    }
  }
}
