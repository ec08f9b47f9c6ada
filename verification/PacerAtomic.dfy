/**
The runs of PacerRuns are the runs of PacerRaces in which the handler's clock reading, load and critical section follow
each other directly, and so do the cleanup's test and delete. In these no delete does harm.
*/
module PacerAtomic {
  import opened Wrappers
  import opened Counting
  import opened Pacer
  import opened PacerRaces
  import PacerRuns
  import PacerRate

  /** What was begun is finished first. */
  predicate Uninterrupted(c: Client, a: Action)
  {
    (c.reading.Some? ==> a.Load?) && (c.held.Some? ==> a.Settle?) && (c.doomed ==> a.Delete?)
  }

  /** The client after the actions, if each was possible, overtook nothing and interrupted nothing. */
  ghost function AtomicRun(cfg: Config, c: Client, actions: seq<Action>): (r: Option<Client>)
    requires Sound(c)
    ensures r.Some? ==> Sound(r.value)
    decreases |actions|
  {
    if actions == [] then Some(c)
    else if Possible(c, actions[0]) && !Overtakes(c, actions[0]) && Uninterrupted(c, actions[0]) then
      AtomicRun(cfg, Step(cfg, c, actions[0]), actions[1..])
    else None
  }

  /** A pacer is seen when it releases or later, and what the handler and the cleanup have begun is still current. */
  predicate Current(cfg: Config, c: Client)
    requires Sound(c)
  {
    && (c.entry.Some? ==>
          var p := c.pacers[c.entry.value];
          && (p.lastRelease.At? ==> p.lastSeen.At? && p.lastRelease.t <= p.lastSeen.t)
          && (c.doomed ==> c.reading.None? && c.held.None? && Stale(p, c.now, cfg.ttl)))
    && (c.reading.Some? ==> c.reading.value.at == c.now)
    && (c.held.Some? ==> c.entry.Some? && c.held.value.at == c.now)
  }

  lemma StepCurrent(cfg: Config, c: Client, a: Action)
    requires Inv(cfg, c) && Current(cfg, c) && Validated(cfg) && cfg.interval <= cfg.ttl + 1
    requires Possible(c, a) && !Overtakes(c, a) && Uninterrupted(c, a)
    ensures Careful(cfg, c, a) && Current(cfg, Step(cfg, c, a))
  {
    hide Spaced;
    if a.Wake? {
      assert SleeperOk(cfg, c, a.flow);
    }
  }

  /**
  If no pacer expires before its interval is over, every uninterrupted run is careful: all its deletes are harmless.
  */
  lemma {:induction false} AtomicIsCareful(cfg: Config, c: Client, actions: seq<Action>)
    requires Inv(cfg, c) && Current(cfg, c) && Validated(cfg) && cfg.interval <= cfg.ttl + 1
    requires AtomicRun(cfg, c, actions).Some?
    ensures Run(cfg, c, actions) == AtomicRun(cfg, c, actions)
    decreases |actions|
  {
    hide Spaced, EntryOk, HeldOk, SleeperOk, Current, Step, Overtakes, Harmless, Uninterrupted;
    if actions != [] {
      StepCurrent(cfg, c, actions[0]);
      StepInv(cfg, c, actions[0]);
      AtomicIsCareful(cfg, Step(cfg, c, actions[0]), actions[1..]);
    }
  }

  /** The same from the start: an uninterrupted run is a careful one. */
  lemma UninterruptedIsCareful(cfg: Config, actions: seq<Action>)
    requires Validated(cfg) && cfg.interval <= cfg.ttl + 1 && AtomicRun(cfg, NEW, actions).Some?
    ensures Run(cfg, NEW, actions) == AtomicRun(cfg, NEW, actions)
  {
    hide Run, AtomicRun;
    NewInv(cfg);
    AtomicIsCareful(cfg, NEW, actions);
  }

  lemma {:induction false} AtomicConcat(cfg: Config, c: Client, front: seq<Action>, back: seq<Action>)
    requires Sound(c) && AtomicRun(cfg, c, front).Some?
    ensures AtomicRun(cfg, c, front + back) == AtomicRun(cfg, AtomicRun(cfg, c, front).value, back)
    decreases |front|
  {
    hide Overtakes, Uninterrupted, Step;
    if front == [] {
      assert front + back == back;
    } else {
      AtomicConcat(cfg, Step(cfg, c, front[0]), front[1..], back);
      assert (front + back)[1..] == front[1..] + back;
    }
  }

  // ----- one client of a run of many -----

  /** c is the client ip of st, between steps. */
  ghost predicate Projects(st: PacerRuns.State, c: Client, ip: string)
    requires PacerRuns.WellFormed(st) && Sound(c)
  {
    && c.reading.None? && c.held.None? && !c.doomed && c.now <= st.now && c.times == PacerRuns.TimesOf(st.log, ip)
    && (c.entry.Some? <==> ip in st.byIP)
    && (ip in st.byIP ==> c.pacers[c.entry.value] == st.pacers[st.byIP[ip]])
    && (forall f :: f in c.sleepers <==> f in st.sleepers && f.ip == ip)
    && (forall f :: f in c.sleepers ==> c.sleepers[f].due == st.sleepers[f].due && Some(c.sleepers[f].pacer) == c.entry)
  }

  /** Fewer sleepers of one client than of all. */
  lemma Fewer(a: map<Flow, Sleeper>, b: map<Flow, PacerRuns.Sleeper>)
    requires forall f :: f in a ==> f in b
    ensures |a| <= |b|
  {
    SubsetSize(a.Keys, b.Keys);
  }

  lemma AtomicOne(cfg: Config, c: Client, a: Action)
    requires Sound(c) && Possible(c, a) && !Overtakes(c, a) && Uninterrupted(c, a)
    ensures AtomicRun(cfg, c, [a]) == Some(Step(cfg, c, a))
  {
    assert [a][1..] == [];
    assert AtomicRun(cfg, Step(cfg, c, a), []) == Some(Step(cfg, c, a));
  }

  lemma AtomicTwo(cfg: Config, c: Client, a: Action, b: Action)
    requires Sound(c) && Possible(c, a) && !Overtakes(c, a) && Uninterrupted(c, a)
    requires var d := Step(cfg, c, a); Possible(d, b) && !Overtakes(d, b) && Uninterrupted(d, b)
    ensures AtomicRun(cfg, c, [a, b]) == Some(Step(cfg, Step(cfg, c, a), b))
  {
    AtomicOne(cfg, c, a);
    AtomicOne(cfg, Step(cfg, c, a), b);
    AtomicConcat(cfg, c, [a], [b]);
    assert [a] + [b] == [a, b];
  }

  /** A clock reading, the load and the critical section after it. */
  function Arrived(cfg: Config, c: Client, flow: Flow, at: int, others: nat): (r: Client)
    requires Sound(c) && c.reading.None? && c.held.None? && c.now <= at && flow !in c.sleepers
    ensures Sound(r)
  {
    Step(cfg, Step(cfg, Step(cfg, c, Read(flow, at)), Load), Settle(others))
  }

  lemma ArrivedFields(cfg: Config, c: Client, flow: Flow, at: int, others: nat)
    requires Sound(c) && c.reading.None? && c.held.None? && c.now <= at && flow !in c.sleepers
    ensures var p, r := if c.entry.Some? then c.pacers[c.entry.value] else FRESH, Arrived(cfg, c, flow, at, others);
            var d := Decide(cfg, p, at, others + |c.sleepers|);
            && r.now == at && r.reading.None? && r.held.None? && r.doomed == c.doomed
            && r.entry.Some? && (c.entry.Some? ==> r.entry == c.entry)
            && r.pacers[r.entry.value] == AfterArrival(p, at, d)
            && r.times == (if d.Release? then c.times + [at] else c.times)
            && r.sleepers == if d.Delay? then c.sleepers[flow := Sleeper(r.entry.value, at + d.delay)] else c.sleepers
  {
    hide Decide;
  }

  lemma ArrivedRun(cfg: Config, c: Client, flow: Flow, at: int, others: nat)
    requires Sound(c) && c.reading.None? && c.held.None? && c.now <= at && flow !in c.sleepers && !c.doomed
    requires forall f :: f in c.sleepers ==> c.sleepers[f].due > at
    ensures AtomicRun(cfg, c, [Read(flow, at), Load] + [Settle(others)]) == Some(Arrived(cfg, c, flow, at, others))
  {
    var loaded := Step(cfg, Step(cfg, c, Read(flow, at)), Load);
    AtomicTwo(cfg, c, Read(flow, at), Load);
    AtomicOne(cfg, loaded, Settle(others));
    AtomicConcat(cfg, c, [Read(flow, at), Load], [Settle(others)]);
  }

  lemma ArrivedProjects(cfg: Config, st: PacerRuns.State, c: Client, flow: Flow, at: int, others: nat)
    requires PacerRuns.WellFormed(st) && Sound(c) && Projects(st, c, flow.ip) && st.now <= at && flow !in st.sleepers
    requires others + |c.sleepers| == |st.sleepers|
    ensures Projects(PacerRuns.ArriveAt(cfg, st, flow, at), Arrived(cfg, c, flow, at, others), flow.ip)
  {
    hide PacerRuns.ArriveAt, PacerRuns.TimesOf, PacerRuns.LastIndex, Decide, Arrived;
    ArrivedFields(cfg, c, flow, at, others);
    PacerRuns.ArriveEffect(cfg, st, flow, at);
    PacerRuns.TimesSnoc(st.log, PacerRuns.Released(flow.ip, at, None), flow.ip);
  }

  /** An arrival is a clock reading, a load and a critical section. */
  lemma ProjectArrival(cfg: Config, st: PacerRuns.State, c: Client, flow: Flow, at: int) returns (actions: seq<Action>)
    requires PacerRuns.WellFormed(st) && Sound(c) && Projects(st, c, flow.ip) && st.now <= at
    requires flow !in st.sleepers && !PacerRate.Overtakes(st, PacerRuns.Arrive(flow, at))
    ensures AtomicRun(cfg, c, actions).Some?
    ensures Projects(PacerRuns.ArriveAt(cfg, st, flow, at), AtomicRun(cfg, c, actions).value, flow.ip)
  {
    hide PacerRuns.ArriveAt, Arrived, AtomicRun;
    Fewer(c.sleepers, st.sleepers);
    var others: nat := |st.sleepers| - |c.sleepers|;
    actions := [Read(flow, at), Load] + [Settle(others)];
    ArrivedRun(cfg, c, flow, at, others);
    ArrivedProjects(cfg, st, c, flow, at, others);
  }

  lemma ProjectKnownFlow(cfg: Config, st: PacerRuns.State, c: Client, flow: Flow, at: int)
    requires PacerRuns.WellFormed(st) && Sound(c) && Projects(st, c, flow.ip) && st.now <= at && flow in st.sleepers
    ensures AtomicRun(cfg, c, [Read(flow, at), Load]).Some?
    ensures Projects(PacerRuns.ArriveAt(cfg, st, flow, at), AtomicRun(cfg, c, [Read(flow, at), Load]).value, flow.ip)
  {
    AtomicTwo(cfg, c, Read(flow, at), Load);
  }

  lemma ProjectWake(cfg: Config, st: PacerRuns.State, c: Client, flow: Flow, at: int)
    requires PacerRate.Inv(cfg, st) && Sound(c) && Projects(st, c, flow.ip)
             && PacerRuns.Enabled(st, PacerRuns.Wake(flow, at))
    ensures AtomicRun(cfg, c, [Wake(flow, at)]).Some?
    ensures Projects(PacerRuns.WakeAt(st, flow, at), AtomicRun(cfg, c, [Wake(flow, at)]).value, flow.ip)
  {
    AtomicOne(cfg, c, Wake(flow, at));
    assert PacerRate.SleeperOk(cfg, st, flow);
    hide PacerRuns.TimesOf, AtomicRun;
    PacerRuns.TimesSnoc(st.log, PacerRuns.Released(flow.ip, at, Some(st.sleepers[flow].parent)), flow.ip);
  }

  /** An expiry is a test, and a delete if the pacer was stale. */
  lemma ProjectExpiry(cfg: Config, st: PacerRuns.State, c: Client, ip: string, tick: int) returns (actions: seq<Action>)
    requires PacerRate.Inv(cfg, st) && Sound(c) && Projects(st, c, ip)
    ensures AtomicRun(cfg, c, actions).Some?
    ensures Projects(PacerRuns.ExpireAt(cfg, st, ip, tick), AtomicRun(cfg, c, actions).value, ip)
  {
    var tested := Step(cfg, c, Test(tick));
    if tested.doomed {
      actions := [Test(tick), Delete(tested.now)];
      AtomicTwo(cfg, c, Test(tick), Delete(tested.now));
      assert forall f :: f in st.sleepers ==> PacerRate.SleeperOk(cfg, st, f);
    } else {
      actions := [Test(tick)];
      AtomicOne(cfg, c, Test(tick));
    }
  }

  lemma OtherArrival(cfg: Config, st: PacerRuns.State, c: Client, flow: Flow, at: int, ip: string)
    requires PacerRuns.WellFormed(st) && PacerRuns.Injective(st) && Sound(c) && Projects(st, c, ip)
    requires st.now <= at && ip != flow.ip && flow !in st.sleepers
    ensures Projects(PacerRuns.ArriveAt(cfg, st, flow, at), c, ip)
  {
    hide PacerRuns.ArriveAt, PacerRuns.TimesOf, PacerRuns.LastIndex, Decide;
    PacerRuns.ArriveEffect(cfg, st, flow, at);
    PacerRuns.ArriveFrame(cfg, st, flow, at, ip);
    PacerRuns.TimesSnoc(st.log, PacerRuns.Released(flow.ip, at, None), ip);
  }

  lemma OtherWake(cfg: Config, st: PacerRuns.State, c: Client, flow: Flow, at: int, ip: string)
    requires PacerRate.Inv(cfg, st) && Sound(c) && Projects(st, c, ip)
    requires PacerRuns.Enabled(st, PacerRuns.Wake(flow, at)) && ip != flow.ip
    ensures Projects(PacerRuns.WakeAt(st, flow, at), c, ip)
  {
    assert PacerRate.SleeperOk(cfg, st, flow);
    hide PacerRuns.TimesOf;
    PacerRuns.TimesSnoc(st.log, PacerRuns.Released(flow.ip, at, Some(st.sleepers[flow].parent)), ip);
  }

  lemma InvParts(cfg: Config, st: PacerRuns.State)
    requires PacerRate.Inv(cfg, st)
    ensures PacerRuns.WellFormed(st) && PacerRuns.Injective(st)
  {
  }

  function ClientOf(ev: PacerRuns.Event): string
  {
    if ev.Expire? then ev.ip else ev.flow.ip
  }

  /** A step of another client changes nothing but the time. */
  lemma ProjectOther(cfg: Config, st: PacerRuns.State, c: Client, ev: PacerRuns.Event, ip: string)
    requires PacerRate.Inv(cfg, st) && Sound(c) && Projects(st, c, ip) && PacerRuns.Enabled(st, ev)
             && ip != ClientOf(ev)
    ensures Projects(PacerRuns.Step(cfg, st, ev), c, ip)
  {
    InvParts(cfg, st);
    match ev
    case Arrive(flow, at) =>
      if flow !in st.sleepers {
        hide PacerRuns.ArriveAt;
        OtherArrival(cfg, st, c, flow, at, ip);
      }
    case Wake(flow, at) =>
      hide PacerRuns.WakeAt;
      OtherWake(cfg, st, c, flow, at, ip);
    case Expire(_, _) =>
  }

  /** A step of many clients is an uninterrupted run of the one client. */
  lemma ProjectStep(
    cfg: Config, st: PacerRuns.State, c: Client, ev: PacerRuns.Event, ip: string) returns (actions: seq<Action>)
    requires PacerRate.Inv(cfg, st) && Sound(c) && Projects(st, c, ip)
    requires PacerRuns.Enabled(st, ev) && !PacerRate.Overtakes(st, ev)
    ensures AtomicRun(cfg, c, actions).Some?
            && Projects(PacerRuns.Step(cfg, st, ev), AtomicRun(cfg, c, actions).value, ip)
  {
    hide PacerRuns.ArriveAt, PacerRuns.WakeAt, PacerRuns.ExpireAt, PacerRate.Inv, Projects, PacerRate.Overtakes;
    InvParts(cfg, st);
    if ip != ClientOf(ev) {
      ProjectOther(cfg, st, c, ev, ip);
      actions := [];
    } else {
      match ev
      case Arrive(flow, at) =>
        if flow in st.sleepers {
          ProjectKnownFlow(cfg, st, c, flow, at);
          actions := [Read(flow, at), Load];
        } else {
          actions := ProjectArrival(cfg, st, c, flow, at);
        }
      case Wake(flow, at) =>
        ProjectWake(cfg, st, c, flow, at);
        actions := [Wake(flow, at)];
      case Expire(_, tick) =>
        actions := ProjectExpiry(cfg, st, c, ip, tick);
    }
  }

  /**
  Each client of a prompt run of many clients takes an uninterrupted run of the program's own steps, with the same
  releases.
  */
  lemma {:induction false} RunsAreAtomic(
    cfg: Config, evs: seq<PacerRuns.Event>, ip: string) returns (actions: seq<Action>)
    requires Validated(cfg) && cfg.interval <= cfg.ttl + 1
    requires PacerRuns.Run(cfg, evs).Some? && PacerRate.Prompt(cfg, evs)
    ensures AtomicRun(cfg, NEW, actions).Some?
    ensures Projects(PacerRuns.Run(cfg, evs).value, AtomicRun(cfg, NEW, actions).value, ip)
    decreases |evs|
  {
    hide PacerRuns.Step, PacerRate.Inv, PacerRate.Overtakes, PacerRuns.Enabled, Projects, AtomicRun;
    if evs == [] {
      NewProjects(ip);
      actions := [];
      NoActions(cfg);
    } else {
      var n := |evs| - 1;
      assert forall i :: 0 <= i < n ==> evs[..n][..i] == evs[..i] && evs[..n][i] == evs[i];
      var front := RunsAreAtomic(cfg, evs[..n], ip);
      PacerRate.RunInv(cfg, evs[..n]);
      var back := ProjectStep(cfg, PacerRuns.Run(cfg, evs[..n]).value, AtomicRun(cfg, NEW, front).value, evs[n], ip);
      AtomicConcat(cfg, NEW, front, back);
      actions := front + back;
    }
  }

  lemma NoActions(cfg: Config)
    ensures AtomicRun(cfg, NEW, []) == Some(NEW)
  {
  }

  lemma NewProjects(ip: string)
    ensures Projects(PacerRuns.INITIAL, NEW, ip)
  {
  }
}
