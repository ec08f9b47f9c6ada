/**
How many releases of one client can come close together when timers are late: the limit on delayed packets is what
bounds a burst, and nothing else does.
*/
module PacerBursts {
  import opened Wrappers
  import opened Counting
  import opened Pacer
  import opened PacerRuns
  import PacerStructure

  // ----- a burst is at most one longer than the limit -----

  /** The client has released at low or later. */
  predicate Since(log: seq<Released>, ip: string, low: int)
  {
    var last := LastIndex(log, ip);
    last >= 0 && log[last].at >= low
  }

  /** The client's sleepers whose parent released before low. */
  ghost function OldSleepers(st: State, ip: string, low: int): set<Flow>
  {
    set f | f in st.sleepers && f.ip == ip && 0 <= st.sleepers[f].parent < |st.log|
      && st.log[st.sleepers[f].parent].at < low
  }

  /** What was released in the window, and what can still be: the old sleepers all slept when the first of it came. */
  ghost predicate Bounded(cfg: Config, st: State, ip: string, low: int, high: int)
  {
    var count := CountIn(TimesOf(st.log, ip), low, high);
    && |st.sleepers| <= cfg.maxPending
    && (!Since(st.log, ip, low) ==> count == 0)
    && count + |OldSleepers(st, ip, low)| <= cfg.maxPending + if Since(st.log, ip, low) then 1 else 0
  }

  lemma CountSnoc(times: seq<int>, t: int, low: int, high: int)
    ensures CountIn(times + [t], low, high) == CountIn(times, low, high) + if low <= t <= high then 1 else 0
  {
    assert (times + [t])[..|times|] == times;
  }

  /** A release that joins the log. */
  lemma LogGrows(log: seq<Released>, r: Released, ip: string, low: int, high: int)
    ensures CountIn(TimesOf(log + [r], ip), low, high)
            == CountIn(TimesOf(log, ip), low, high) + if r.ip == ip && low <= r.at <= high then 1 else 0
    ensures Since(log + [r], ip, low) == if r.ip == ip then r.at >= low else Since(log, ip, low)
  {
    TimesSnoc(log, r, ip);
    LastSnoc(log, r, ip);
    CountSnoc(TimesOf(log, ip), r.at, low, high);
  }

  lemma OldAreSleepers(st: State, ip: string, low: int)
    ensures |OldSleepers(st, ip, low)| <= |st.sleepers|
  {
    SubsetSize(OldSleepers(st, ip, low), st.sleepers.Keys);
  }

  /** An immediate release after one at low or later comes after the window. */
  lemma AcceptGap(cfg: Config, st: State, ip: string, at: int, low: int)
    requires PacerStructure.Inv(cfg, st) && Since(st.log, ip, low)
    requires ip in st.byIP ==> Expired(cfg, st.pacers[st.byIP[ip]], at)
    ensures at >= low + cfg.interval
  {
    hide LastIndex, PacerStructure.Structured;
    assert PacerStructure.ClientOk(st, ip);
  }

  lemma AcceptBounded(cfg: Config, st: State, after: State, r: Released, ip: string, low: int, high: int)
    requires PacerStructure.Inv(cfg, st) && Bounded(cfg, st, ip, low, high) && high < low + cfg.interval
             && cfg.interval > 0
    requires r.ip in st.byIP ==> Expired(cfg, st.pacers[st.byIP[r.ip]], r.at)
    requires after.log == st.log + [r] && after.sleepers == st.sleepers
    ensures Bounded(cfg, after, ip, low, high)
  {
    if r.ip == ip && Since(st.log, ip, low) {
      AcceptGap(cfg, st, ip, r.at, low);
    }
    SameOld(cfg, st, after, ip, low);
    OldAreSleepers(st, ip, low);
    LogGrows(st.log, r, ip, low, high);
    hide LastIndex, TimesOf, CountIn, OldSleepers, Since, Expired, PacerStructure.Inv;
  }

  /** Parents lie inside the log, so the sleepers that stay are as old as they were. */
  lemma SameOld(cfg: Config, st: State, after: State, ip: string, low: int)
    requires PacerStructure.Inv(cfg, st) && st.log <= after.log && after.sleepers == st.sleepers
    ensures OldSleepers(after, ip, low) == OldSleepers(st, ip, low)
  {
    forall f | f in st.sleepers
      ensures 0 <= st.sleepers[f].parent < |st.log|
    {
      assert PacerStructure.SleeperOk(cfg, st, f);
    }
  }

  lemma DelayBounded(cfg: Config, st: State, after: State, flow: Flow, s: Sleeper, ip: string, low: int, high: int)
    requires Bounded(cfg, st, ip, low, high) && |st.sleepers| < cfg.maxPending && flow !in st.sleepers
    requires after.log == st.log && after.sleepers == st.sleepers[flow := s] && s.parent == LastIndex(st.log, flow.ip)
    ensures Bounded(cfg, after, ip, low, high)
  {
    hide LastIndex, TimesOf, CountIn, OldSleepers, Since;
    assert after.sleepers.Keys == st.sleepers.Keys + {flow};
    OldAreSleepers(after, ip, low);
    if Since(st.log, ip, low) {
      DelayOld(st, after, flow, s, ip, low);
    }
  }

  /** Once the client has released in the window, what joins the sleepers is not old. */
  lemma DelayOld(st: State, after: State, flow: Flow, s: Sleeper, ip: string, low: int)
    requires Since(st.log, ip, low) && flow !in st.sleepers && s.parent == LastIndex(st.log, flow.ip)
    requires after.log == st.log && after.sleepers == st.sleepers[flow := s]
    ensures OldSleepers(after, ip, low) == OldSleepers(st, ip, low)
  {
    hide LastIndex;
  }

  lemma ArriveBounded(cfg: Config, st: State, flow: Flow, at: int, ip: string, low: int, high: int)
    requires PacerStructure.Inv(cfg, st) && Validated(cfg) && cfg.maxPending > 0 && st.now <= at
    requires Bounded(cfg, st, ip, low, high) && high < low + cfg.interval
    ensures Bounded(cfg, ArriveAt(cfg, st, flow, at), ip, low, high)
  {
    var after := ArriveAt(cfg, st, flow, at);
    if flow in st.sleepers {
      SameOld(cfg, st, after, ip, low);
    } else {
      ArriveEffect(cfg, st, flow, at);
      var p := PacerOf(st, flow.ip);
      var d := Decide(cfg, p, at, |st.sleepers|);
      PacerStructure.DecideCases(cfg, p, at, |st.sleepers|);
      hide ArriveAt, Bounded, PacerStructure.Inv, LastIndex, Decide;
      if d.Release? {
        AcceptBounded(cfg, st, after, Released(flow.ip, at, None), ip, low, high);
      } else if d.Delay? {
        DelayIsExact(cfg, p, at, |st.sleepers|);
        DelayBounded(cfg, st, after, flow, after.sleepers[flow], ip, low, high);
      } else {
        DropBounded(cfg, st, after, ip, low, high);
      }
    }
  }

  lemma DropBounded(cfg: Config, st: State, after: State, ip: string, low: int, high: int)
    requires Bounded(cfg, st, ip, low, high) && after.log == st.log && after.sleepers == st.sleepers
    ensures Bounded(cfg, after, ip, low, high)
  {
    assert OldSleepers(after, ip, low) == OldSleepers(st, ip, low);
  }

  /** One old sleeper fewer for one release more; a sleeper that is not old releases after the window. */
  lemma WakeBounded(cfg: Config, st: State, flow: Flow, at: int, ip: string, low: int, high: int)
    requires PacerStructure.Inv(cfg, st) && Validated(cfg) && Enabled(st, Wake(flow, at))
    requires Bounded(cfg, st, ip, low, high) && high < low + cfg.interval
    ensures Bounded(cfg, WakeAt(st, flow, at), ip, low, high)
  {
    var after := WakeAt(st, flow, at);
    var s := st.sleepers[flow];
    WakeOld(cfg, st, flow, at, ip, low);
    assert PacerStructure.SleeperOk(cfg, st, flow);
    assert after.sleepers.Keys == st.sleepers.Keys - {flow};
    OldAreSleepers(st, ip, low);
    OldAreSleepers(after, ip, low);
    LastIsLatest(cfg, st, s.parent);
    hide LastIndex, TimesOf, PacerStructure.Structured, OldSleepers, PacerStructure.ClientOk, PacerStructure.SleeperOk;
    LogGrows(st.log, Released(flow.ip, at, Some(s.parent)), ip, low, high);
  }

  lemma WakeOld(cfg: Config, st: State, flow: Flow, at: int, ip: string, low: int)
    requires PacerStructure.Inv(cfg, st) && flow in st.sleepers
    ensures OldSleepers(WakeAt(st, flow, at), ip, low) == OldSleepers(st, ip, low) - {flow}
    ensures flow in OldSleepers(st, ip, low) <==> flow.ip == ip && st.log[st.sleepers[flow].parent].at < low
    ensures 0 <= st.sleepers[flow].parent < |st.log|
  {
    forall f | f in st.sleepers
      ensures 0 <= st.sleepers[f].parent < |st.log|
    {
      assert PacerStructure.SleeperOk(cfg, st, f);
    }
  }

  lemma LastIsLatest(cfg: Config, st: State, i: nat)
    requires PacerStructure.Inv(cfg, st) && i < |st.log|
    ensures var last := LastIndex(st.log, st.log[i].ip);
            last >= i && st.log[i].at <= st.log[last].at <= st.now
  {
  }

  lemma {:induction false} RunBounded(cfg: Config, evs: seq<Event>, ip: string, low: int, high: int)
    requires Validated(cfg) && cfg.maxPending > 0 && high < low + cfg.interval
    requires PacerStructure.NoExpiry(evs) && Run(cfg, evs).Some?
    ensures Bounded(cfg, Run(cfg, evs).value, ip, low, high)
  {
    hide ArriveAt, WakeAt, Bounded, PacerStructure.Inv;
    if evs == [] {
      InitialBounded(cfg, ip, low, high);
    } else {
      var n := |evs| - 1;
      RunBounded(cfg, evs[..n], ip, low, high);
      PacerStructure.RunInv(cfg, evs[..n]);
      var st := Run(cfg, evs[..n]).value;
      match evs[n]
      case Arrive(flow, at) => ArriveBounded(cfg, st, flow, at, ip, low, high);
      case Wake(flow, at) => WakeBounded(cfg, st, flow, at, ip, low, high);
    }
  }

  lemma InitialBounded(cfg: Config, ip: string, low: int, high: int)
    requires cfg.maxPending > 0
    ensures Bounded(cfg, INITIAL, ip, low, high)
  {
    assert OldSleepers(INITIAL, ip, low) == {};
  }

  // ----- and can be that long -----

  /** n packets of the client sleep until t at the latest, and another one at t would be accepted. */
  ghost predicate Queued(cfg: Config, st: State, n: nat, t: int)
  {
    && WellFormed(st) && st.now <= t && Expired(cfg, PacerOf(st, CLIENT), t)
    && |st.sleepers| == n
    && (forall f :: f in st.sleepers ==> f.ip == CLIENT && 0 <= f.clientPort < n && st.sleepers[f].due <= t)
  }

  /** A packet at t overtakes them all, and the one that comes just before t + interval joins them. */
  lemma OneMore(cfg: Config, st: State, n: nat, t: int)
    requires Validated(cfg) && Queued(cfg, st, n, t) && (cfg.maxPending > 0 ==> n < cfg.maxPending)
    ensures var accepted := ArriveAt(cfg, st, Port(-1), t);
            && accepted.now <= t + cfg.interval - 1
            && Queued(cfg, ArriveAt(cfg, accepted, Port(n), t + cfg.interval - 1), n + 1, t + cfg.interval)
  {
    hide LastIndex, ArriveAt;
    var accepted := ArriveAt(cfg, st, Port(-1), t);
    ArriveEffect(cfg, st, Port(-1), t);
    assert PacerOf(accepted, CLIENT) == AfterRelease(t) && accepted.sleepers == st.sleepers;
    JoinQueue(cfg, accepted, n, t);
  }

  lemma JoinQueue(cfg: Config, st: State, n: nat, t: int)
    requires Validated(cfg) && (cfg.maxPending > 0 ==> n < cfg.maxPending)
    requires WellFormed(st) && st.now <= t && PacerOf(st, CLIENT) == AfterRelease(t) && |st.sleepers| == n
    requires forall f :: f in st.sleepers ==> f.ip == CLIENT && 0 <= f.clientPort < n && st.sleepers[f].due <= t
    ensures Queued(cfg, ArriveAt(cfg, st, Port(n), t + cfg.interval - 1), n + 1, t + cfg.interval)
  {
    hide LastIndex, ArriveAt;
    ArriveEffect(cfg, st, Port(n), t + cfg.interval - 1);
    DelayedByOne(cfg, t, n);
    hide Decide;
    var after := ArriveAt(cfg, st, Port(n), t + cfg.interval - 1);
    assert after.sleepers.Keys == st.sleepers.Keys + {Port(n)};
  }

  lemma DelayedByOne(cfg: Config, t: int, n: nat)
    requires Validated(cfg) && (cfg.maxPending > 0 ==> n < cfg.maxPending)
    ensures Decide(cfg, AfterRelease(t), t + cfg.interval - 1, n) == Delay(1)
  {
  }

  lemma {:induction false} Queue(cfg: Config, n: nat) returns (evs: seq<Event>, t: int)
    requires Validated(cfg) && (cfg.maxPending > 0 ==> n <= cfg.maxPending)
    ensures PacerStructure.NoExpiry(evs) && Run(cfg, evs).Some? && Queued(cfg, Run(cfg, evs).value, n, t)
    decreases n
  {
    hide ArriveAt, Run;
    if n == 0 {
      evs, t := [], 0;
      NothingQueued(cfg);
    } else {
      var before, s := Queue(cfg, n - 1);
      OneMore(cfg, Run(cfg, before).value, n - 1, s);
      RunSnoc(cfg, before, Arrive(Port(-1), s));
      RunSnoc(cfg, before + [Arrive(Port(-1), s)], Arrive(Port(n - 1), s + cfg.interval - 1));
      evs, t := before + [Arrive(Port(-1), s)] + [Arrive(Port(n - 1), s + cfg.interval - 1)], s + cfg.interval;
    }
  }

  lemma NothingQueued(cfg: Config)
    ensures Run(cfg, []) == Some(INITIAL) && Queued(cfg, INITIAL, 0, 0)
  {
  }

  /** All sleepers wake at the same tick. */
  lemma {:induction false} WakeAll(cfg: Config, evs: seq<Event>, n: nat, t: int) returns (all: seq<Event>)
    requires PacerStructure.NoExpiry(evs) && Run(cfg, evs).Some? && Run(cfg, evs).value.now <= t
    requires var st := Run(cfg, evs).value;
             |st.sleepers| == n && forall f :: f in st.sleepers ==> f.ip == CLIENT && st.sleepers[f].due <= t
    ensures PacerStructure.NoExpiry(all) && Run(cfg, all).Some?
    ensures CountIn(TimesOf(Run(cfg, all).value.log, CLIENT), t, t)
            == CountIn(TimesOf(Run(cfg, evs).value.log, CLIENT), t, t) + n
    decreases n
  {
    hide Run, TimesOf, CountIn;
    var st := Run(cfg, evs).value;
    if n == 0 {
      all := evs;
    } else {
      assert |st.sleepers.Keys| == n;
      var f :| f in st.sleepers;
      RunSnoc(cfg, evs, Wake(f, t));
      assert (st.sleepers - {f}).Keys == st.sleepers.Keys - {f};
      LogGrows(st.log, Released(f.ip, t, Some(st.sleepers[f].parent)), CLIENT, t, t);
      all := WakeAll(cfg, evs + [Wake(f, t)], n - 1, t);
    }
  }

  /** A run in which a client has n delayed releases and an immediate one at the same tick. */
  lemma Burst(cfg: Config, n: nat) returns (evs: seq<Event>, t: int)
    requires Validated(cfg) && (cfg.maxPending > 0 ==> n <= cfg.maxPending)
    ensures PacerStructure.NoExpiry(evs) && Run(cfg, evs).Some?
    ensures CountIn(TimesOf(Run(cfg, evs).value.log, CLIENT), t, t) >= n + 1
  {
    hide Run, TimesOf, CountIn, LastIndex;
    var queue;
    queue, t := Queue(cfg, n);
    var st := Run(cfg, queue).value;
    ArriveEffect(cfg, st, Port(-1), t);
    hide ArriveAt;
    RunSnoc(cfg, queue, Arrive(Port(-1), t));
    LogGrows(st.log, Released(CLIENT, t, None), CLIENT, t, t);
    evs := WakeAll(cfg, queue + [Arrive(Port(-1), t)], n, t);
  }

  /**
  Without any promptness: every window shorter than the interval holds at most n releases of a client, in every run, if
  and only if there is a limit on delayed packets and n is at least one more than it.
  */
  lemma BurstBoundIff(cfg: Config, n: nat)
    requires Validated(cfg)
    ensures (forall evs, ip, low, high ::
               PacerStructure.NoExpiry(evs) && Run(cfg, evs).Some? && low <= high < low + cfg.interval
               ==> CountIn(TimesOf(Run(cfg, evs).value.log, ip), low, high) <= n)
            <==> 0 < cfg.maxPending < n
  {
    hide Run, TimesOf, CountIn, PacerStructure.NoExpiry;
    if 0 < cfg.maxPending < n {
      forall evs, ip, low, high | PacerStructure.NoExpiry(evs) && Run(cfg, evs).Some?
        && low <= high < low + cfg.interval
        ensures CountIn(TimesOf(Run(cfg, evs).value.log, ip), low, high) <= n
      {
        RunBounded(cfg, evs, ip, low, high);
      }
    } else {
      var evs, t := Burst(cfg, if cfg.maxPending > 0 then cfg.maxPending else n);
    }
  }
}
