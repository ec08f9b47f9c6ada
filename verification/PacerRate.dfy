/** The rate bound of shape mode, and exactly what it depends on. */
module PacerRate {
  import opened Wrappers
  import opened Pacer
  import opened PacerRuns
  import opened Counting

  /**
  An arrival that finds a release of its client overdue: the accept branch will run while a goroutine still sleeps.
  */
  ghost predicate Overtakes(st: State, ev: Event)
  {
    ev.Arrive? && ev.flow !in st.sleepers
    && exists f :: f in st.sleepers && f.ip == ev.flow.ip && st.sleepers[f].due <= ev.at
  }

  /** Every release that is due happens before a packet of its client can arrive. */
  ghost predicate Prompt(cfg: Config, evs: seq<Event>)
  {
    forall i :: 0 <= i < |evs| && Run(cfg, evs[..i]).Some? ==> !Overtakes(Run(cfg, evs[..i]).value, evs[i])
  }

  // ----- the invariant -----

  /** What is known of one client's releases and of its pacer, if it has one. */
  ghost predicate ClientOk(cfg: Config, st: State, ip: string)
    requires WellFormed(st)
  {
    var times := TimesOf(st.log, ip);
    && Spaced(times, cfg.interval)
    && (times != [] ==> times[|times| - 1] <= st.now)
    && if ip in st.byIP then PacerOk(st.pacers[st.byIP[ip]], times)
       else times != [] ==> times[|times| - 1] + cfg.interval <= st.now
  }

  ghost predicate PacerOk(p: PacerState, times: seq<int>)
  {
    && p.lastRelease == (if times == [] then Never else At(times[|times| - 1]))
    && (p.lastRelease.At? ==> p.lastSeen.At? && p.lastRelease.t <= p.lastSeen.t)
  }

  /**
  A sleeper's pacer is the client's current one, is marked pending, and the sleeper is due an interval after its
  last release.
  */
  ghost predicate SleeperOk(cfg: Config, st: State, f: Flow)
    requires WellFormed(st) && f in st.sleepers
  {
    var s := st.sleepers[f];
    var p := st.pacers[s.pacer];
    && f.ip in st.byIP && st.byIP[f.ip] == s.pacer
    && p.pending && p.lastRelease.At? && s.due == p.lastRelease.t + cfg.interval
  }

  /** No two clients share a pacer, and no client has two sleepers. */
  ghost predicate Separate(st: State)
  {
    Injective(st) && forall f, g :: f in st.sleepers && g in st.sleepers && f.ip == g.ip ==> f == g
  }

  ghost predicate Inv(cfg: Config, st: State)
  {
    && WellFormed(st) && Separate(st)
    && (forall ip :: ClientOk(cfg, st, ip))
    && (forall f :: f in st.sleepers ==> SleeperOk(cfg, st, f))
  }

  // ----- steps -----

  lemma ArriveOther(cfg: Config, st: State, flow: Flow, at: int, ip: string)
    requires WellFormed(st) && Separate(st) && ClientOk(cfg, st, ip) && st.now <= at && ip != flow.ip
    ensures ClientOk(cfg, ArriveAt(cfg, st, flow, at), ip)
  {
    hide Spaced, TimesOf, PacerOk, ArriveAt;
    ArriveFrame(cfg, st, flow, at, ip);
    ArriveTime(cfg, st, flow, at);
    TimesSnoc(st.log, Released(flow.ip, at, None), ip);
  }

  lemma ArriveTime(cfg: Config, st: State, flow: Flow, at: int)
    requires WellFormed(st)
    ensures ArriveAt(cfg, st, flow, at).now == at
  {
    hide LastIndex, Decide;
  }

  lemma ArriveSelf(cfg: Config, st: State, flow: Flow, at: int)
    requires WellFormed(st) && ClientOk(cfg, st, flow.ip) && Validated(cfg) && st.now <= at && flow !in st.sleepers
    ensures ClientOk(cfg, ArriveAt(cfg, st, flow, at), flow.ip)
  {
    hide Spaced, TimesOf, LastIndex, ArriveAt;
    var times := TimesOf(st.log, flow.ip);
    ArriveEffect(cfg, st, flow, at);
    TimesSnoc(st.log, Released(flow.ip, at, None), flow.ip);
    if Expired(cfg, PacerOf(st, flow.ip), at) {
      SpacedSnoc(times, cfg.interval, at);
    }
  }

  lemma ArriveSleeper(cfg: Config, st: State, flow: Flow, at: int, f: Flow)
    requires WellFormed(st) && Separate(st) && flow !in st.sleepers
    requires f in st.sleepers && SleeperOk(cfg, st, f) && (f.ip == flow.ip ==> st.sleepers[f].due > at)
    ensures var after := ArriveAt(cfg, st, flow, at);
            f in after.sleepers && SleeperOk(cfg, after, f)
    ensures f.ip == flow.ip ==> ArriveAt(cfg, st, flow, at).sleepers == st.sleepers
  {
    hide LastIndex, ArriveAt;
    ArriveEffect(cfg, st, flow, at);
    if f.ip != flow.ip {
      ArriveFrame(cfg, st, flow, at, f.ip);
    }
  }

  lemma ArriveNewSleeper(cfg: Config, st: State, flow: Flow, at: int)
    requires WellFormed(st) && flow !in st.sleepers && Validated(cfg)
    ensures var after := ArriveAt(cfg, st, flow, at);
            && after.sleepers.Keys <= st.sleepers.Keys + {flow}
            && (flow in after.sleepers ==> SleeperOk(cfg, after, flow))
  {
    hide LastIndex, ArriveAt;
    ArriveEffect(cfg, st, flow, at);
  }

  lemma ArriveSleepers(cfg: Config, st: State, flow: Flow, at: int)
    requires Inv(cfg, st) && Validated(cfg) && st.now <= at && flow !in st.sleepers
    requires !Overtakes(st, Arrive(flow, at))
    ensures var after := ArriveAt(cfg, st, flow, at);
            Separate(after) && forall f :: f in after.sleepers ==> SleeperOk(cfg, after, f)
  {
    hide ArriveAt, ClientOk, SleeperOk, Injective;
    var after := ArriveAt(cfg, st, flow, at);
    ArriveTable(cfg, st, flow, at);
    forall f | f in st.sleepers
      ensures f in after.sleepers && SleeperOk(cfg, after, f)
      ensures f.ip == flow.ip ==> after.sleepers == st.sleepers
    {
      ArriveSleeper(cfg, st, flow, at, f);
    }
    ArriveNewSleeper(cfg, st, flow, at);
    forall f, g | f in after.sleepers && g in after.sleepers && f.ip == g.ip
      ensures f == g
    {
      assert f in st.sleepers || f == flow;
      assert g in st.sleepers || g == flow;
    }
  }

  lemma ArriveInv(cfg: Config, st: State, flow: Flow, at: int)
    requires Inv(cfg, st) && Validated(cfg) && st.now <= at && flow !in st.sleepers
    requires !Overtakes(st, Arrive(flow, at))
    ensures Inv(cfg, ArriveAt(cfg, st, flow, at))
  {
    ArriveSleepers(cfg, st, flow, at);
    hide ClientOk, SleeperOk, ArriveAt, Separate;
    forall ip
      ensures ClientOk(cfg, ArriveAt(cfg, st, flow, at), ip)
    {
      assert ClientOk(cfg, st, ip);
      if ip == flow.ip {
        ArriveSelf(cfg, st, flow, at);
      } else {
        ArriveOther(cfg, st, flow, at, ip);
      }
    }
  }

  /** A flow that is pending already changes nothing but the clock. */
  lemma KnownFlowInv(cfg: Config, st: State, flow: Flow, at: int)
    requires Inv(cfg, st) && st.now <= at && flow in st.sleepers
    ensures Inv(cfg, ArriveAt(cfg, st, flow, at))
  {
    var after := ArriveAt(cfg, st, flow, at);
    forall ip
      ensures ClientOk(cfg, after, ip)
    {
      assert ClientOk(cfg, st, ip);
      hide Spaced, TimesOf;
    }
    forall f | f in after.sleepers
      ensures SleeperOk(cfg, after, f)
    {
      assert SleeperOk(cfg, st, f);
    }
  }

  lemma WakeClient(cfg: Config, st: State, flow: Flow, at: int, ip: string)
    requires WellFormed(st) && Separate(st) && Validated(cfg) && Enabled(st, Wake(flow, at))
    requires SleeperOk(cfg, st, flow) && ClientOk(cfg, st, ip) && ClientOk(cfg, st, flow.ip)
    ensures ClientOk(cfg, WakeAt(st, flow, at), ip)
  {
    hide Spaced, TimesOf;
    TimesSnoc(st.log, Released(flow.ip, at, Some(st.sleepers[flow].parent)), ip);
    if ip == flow.ip {
      SpacedSnoc(TimesOf(st.log, ip), cfg.interval, at);
    }
  }

  lemma WakeSleeper(cfg: Config, st: State, flow: Flow, at: int, f: Flow)
    requires WellFormed(st) && Separate(st) && Enabled(st, Wake(flow, at)) && SleeperOk(cfg, st, flow)
    requires f in st.sleepers && f != flow && SleeperOk(cfg, st, f)
    ensures SleeperOk(cfg, WakeAt(st, flow, at), f)
  {
  }

  lemma WakeInv(cfg: Config, st: State, flow: Flow, at: int)
    requires Inv(cfg, st) && Validated(cfg) && Enabled(st, Wake(flow, at))
    ensures Inv(cfg, WakeAt(st, flow, at))
  {
    hide ClientOk, SleeperOk;
    var after := WakeAt(st, flow, at);
    assert SleeperOk(cfg, st, flow) && ClientOk(cfg, st, flow.ip);
    forall ip
      ensures ClientOk(cfg, after, ip)
    {
      assert ClientOk(cfg, st, ip);
      WakeClient(cfg, st, flow, at, ip);
    }
    forall f | f in after.sleepers
      ensures SleeperOk(cfg, after, f)
    {
      assert SleeperOk(cfg, st, f);
      WakeSleeper(cfg, st, flow, at, f);
    }
  }

  lemma ExpireInv(cfg: Config, st: State, ip: string, tick: int)
    requires Inv(cfg, st) && Validated(cfg) && cfg.interval <= cfg.ttl + 1
    ensures Inv(cfg, ExpireAt(cfg, st, ip, tick))
  {
    hide Spaced, TimesOf;
    var after := ExpireAt(cfg, st, ip, tick);
    forall other
      ensures ClientOk(cfg, after, other)
    {
      assert ClientOk(cfg, st, other);
    }
    forall f | f in after.sleepers
      ensures SleeperOk(cfg, after, f)
    {
      assert SleeperOk(cfg, st, f);
    }
  }

  lemma StepInv(cfg: Config, st: State, ev: Event)
    requires Inv(cfg, st) && Validated(cfg) && cfg.interval <= cfg.ttl + 1
    requires Enabled(st, ev) && !Overtakes(st, ev)
    ensures Inv(cfg, Step(cfg, st, ev))
  {
    hide ClientOk, SleeperOk, ArriveAt, WakeAt, ExpireAt, Separate;
    match ev
    case Arrive(flow, at) =>
      if flow in st.sleepers {
        KnownFlowInv(cfg, st, flow, at);
      } else {
        ArriveInv(cfg, st, flow, at);
      }
    case Wake(flow, at) => WakeInv(cfg, st, flow, at);
    case Expire(ip, tick) => ExpireInv(cfg, st, ip, tick);
  }

  lemma InitialInv(cfg: Config)
    ensures Inv(cfg, INITIAL)
  {
  }

  lemma {:induction false} RunInv(cfg: Config, evs: seq<Event>)
    requires Validated(cfg) && cfg.interval <= cfg.ttl + 1
    requires Run(cfg, evs).Some? && Prompt(cfg, evs)
    ensures Inv(cfg, Run(cfg, evs).value)
  {
    hide Inv, Step, Overtakes, Enabled;
    if evs == [] {
      InitialInv(cfg);
    } else {
      var n := |evs| - 1;
      assert forall i :: 0 <= i < n ==> evs[..n][..i] == evs[..i] && evs[..n][i] == evs[i];
      RunInv(cfg, evs[..n]);
      StepInv(cfg, Run(cfg, evs[..n]).value, evs[n]);
    }
  }

  // ----- the bound -----

  /**
  With prompt timers and no pacer that expires before its interval is over, releases of a client are an interval apart:
  a window of length T holds at most 1 + floor(T / interval).
  */
  lemma ShapeRateBound(cfg: Config, evs: seq<Event>, ip: string, low: int, high: int)
    requires Validated(cfg) && cfg.interval <= cfg.ttl + 1 && low <= high
    requires Run(cfg, evs).Some? && Prompt(cfg, evs)
    ensures Spaced(TimesOf(Run(cfg, evs).value.log, ip), cfg.interval)
    ensures CountIn(TimesOf(Run(cfg, evs).value.log, ip), low, high) <= 1 + (high - low) / cfg.interval
  {
    hide Run, Prompt;
    RunInv(cfg, evs);
    var st := Run(cfg, evs).value;
    assert ClientOk(cfg, st, ip);
    WindowBound(TimesOf(st.log, ip), cfg.interval, low, high);
  }

  // ----- promptness is exactly what it depends on -----

  ghost predicate AllSpaced(cfg: Config, st: State)
  {
    forall ip :: Spaced(TimesOf(st.log, ip), cfg.interval)
  }

  /** Whatever sleeping goroutine wakes next, at any time the clock allows, the releases stay spaced. */
  ghost predicate SafeToWake(cfg: Config, st: State)
    requires WellFormed(st)
  {
    forall f, at :: Enabled(st, Wake(f, at)) ==> AllSpaced(cfg, Step(cfg, st, Wake(f, at)))
  }

  lemma InvSpaced(cfg: Config, st: State)
    requires Inv(cfg, st)
    ensures AllSpaced(cfg, st)
  {
    forall ip
      ensures Spaced(TimesOf(st.log, ip), cfg.interval)
    {
      assert ClientOk(cfg, st, ip);
    }
  }

  /** An overtaking arrival is accepted, and the goroutine it overtakes can then release at once. */
  lemma OvertakingBreaks(cfg: Config, st: State, ev: Event, f: Flow)
    requires Inv(cfg, st) && Validated(cfg) && ev.Arrive? && Enabled(st, ev) && ev.flow !in st.sleepers
    requires f in st.sleepers && f.ip == ev.flow.ip && st.sleepers[f].due <= ev.at
    ensures var after := Step(cfg, st, ev);
            && Enabled(after, Wake(f, ev.at))
            && !Spaced(TimesOf(Step(cfg, after, Wake(f, ev.at)).log, f.ip), cfg.interval)
  {
    OvertakingAccepts(cfg, st, ev.flow, ev.at, f);
    hide Spaced, TimesOf, Inv, ArriveAt;
    var after := Step(cfg, st, ev);
    TimesSnoc(st.log, Released(f.ip, ev.at, None), f.ip);
    TimesSnoc(after.log, Released(f.ip, ev.at, Some(st.sleepers[f].parent)), f.ip);
    NotSpaced(TimesOf(st.log, f.ip), ev.at, cfg.interval);
  }

  lemma OvertakingAccepts(cfg: Config, st: State, flow: Flow, at: int, f: Flow)
    requires WellFormed(st) && flow !in st.sleepers && st.now <= at
    requires f in st.sleepers && SleeperOk(cfg, st, f) && f.ip == flow.ip && st.sleepers[f].due <= at
    ensures var after := ArriveAt(cfg, st, flow, at);
            && after.now == at && after.sleepers == st.sleepers
            && after.log == st.log + [Released(f.ip, at, None)]
  {
    hide LastIndex;
  }

  lemma NotSpaced(times: seq<int>, t: int, gap: int)
    requires gap > 0
    ensures !Spaced(times + [t] + [t], gap)
  {
    var all := times + [t] + [t];
    assert all[|times| + 1] - all[|times|] == 0;
  }

  /**
  After a packet arrives, spacing survives every possible wake-up if and only if the packet did not overtake a due
  release.
  */
  lemma SafeIffNotOvertaking(cfg: Config, evs: seq<Event>, ev: Event)
    requires Validated(cfg) && cfg.interval <= cfg.ttl + 1
    requires Run(cfg, evs).Some? && Prompt(cfg, evs)
    requires ev.Arrive? && Enabled(Run(cfg, evs).value, ev)
    ensures SafeToWake(cfg, Step(cfg, Run(cfg, evs).value, ev)) <==> !Overtakes(Run(cfg, evs).value, ev)
  {
    hide Run, Prompt, Step, Inv, AllSpaced;
    RunInv(cfg, evs);
    var st := Run(cfg, evs).value;
    var after := Step(cfg, st, ev);
    if Overtakes(st, ev) {
      var f :| f in st.sleepers && f.ip == ev.flow.ip && st.sleepers[f].due <= ev.at;
      OvertakingBreaks(cfg, st, ev, f);
      NotAllSpaced(cfg, Step(cfg, after, Wake(f, ev.at)), f.ip);
    } else {
      StepInv(cfg, st, ev);
      forall f, at | Enabled(after, Wake(f, at))
        ensures AllSpaced(cfg, Step(cfg, after, Wake(f, at)))
      {
        StepInv(cfg, after, Wake(f, at));
        InvSpaced(cfg, Step(cfg, after, Wake(f, at)));
      }
    }
  }

  lemma NotAllSpaced(cfg: Config, st: State, ip: string)
    requires !Spaced(TimesOf(st.log, ip), cfg.interval)
    ensures !AllSpaced(cfg, st)
  {
  }
}
