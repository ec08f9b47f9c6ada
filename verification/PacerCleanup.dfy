/** Expiring idle pacers changes nothing that a packet can notice. */
module PacerCleanup {
  import opened Wrappers
  import opened Pacer
  import opened PacerRuns
  import opened PacerRate
  import opened Counting

  function WithoutExpiry(evs: seq<Event>): seq<Event>
  {
    if evs == [] then []
    else WithoutExpiry(evs[..|evs| - 1]) + if evs[|evs| - 1].Expire? then [] else [evs[|evs| - 1]]
  }

  /** The pacer would let the client's next packet through, as a new one does. */
  predicate Idle(cfg: Config, p: PacerState, now: int)
  {
    !p.pending && Expired(cfg, p, now)
  }

  /** a is the run with expiry, b the one without: the same history, and every pacer that a lacks is idle in b. */
  ghost predicate Simulates(cfg: Config, a: State, b: State)
  {
    && WellFormed(a) && WellFormed(b)
    && b.now <= a.now && a.log == b.log && a.verdicts == b.verdicts
    && a.sleepers.Keys == b.sleepers.Keys
    && (forall f :: f in a.sleepers ==>
      a.sleepers[f].due == b.sleepers[f].due && a.sleepers[f].parent == b.sleepers[f].parent)
    && (forall ip :: PacersAgree(cfg, a, b, ip))
  }

  ghost predicate PacersAgree(cfg: Config, a: State, b: State, ip: string)
    requires WellFormed(a) && WellFormed(b)
  {
    if ip in a.byIP then ip in b.byIP && a.pacers[a.byIP[ip]] == b.pacers[b.byIP[ip]]
    else ip in b.byIP ==> Idle(cfg, b.pacers[b.byIP[ip]], a.now)
  }

  lemma IdleLonger(cfg: Config, p: PacerState, now: int, later: int)
    requires Idle(cfg, p, now) && now <= later
    ensures Idle(cfg, p, later)
  {
  }

  // ----- arrivals -----

  /** Both runs come to the same decision, and the client's pacer is the same in both afterwards. */
  lemma SameDecision(cfg: Config, a: State, b: State, flow: Flow, at: int)
    requires Simulates(cfg, a, b) && a.now <= at && flow !in a.sleepers
    requires |a.sleepers| == |b.sleepers|
    ensures var ra, rb := ArriveAt(cfg, a, flow, at), ArriveAt(cfg, b, flow, at);
            && ra.now == rb.now == at && ra.log == rb.log && ra.verdicts == rb.verdicts
            && flow.ip in ra.byIP && flow.ip in rb.byIP && ra.pacers[ra.byIP[flow.ip]] == rb.pacers[rb.byIP[flow.ip]]
            && ra.sleepers.Keys == rb.sleepers.Keys
            && forall f :: f in ra.sleepers ==>
                 ra.sleepers[f].due == rb.sleepers[f].due && ra.sleepers[f].parent == rb.sleepers[f].parent
  {
    hide LastIndex, ArriveAt;
    ArriveEffect(cfg, a, flow, at);
    ArriveEffect(cfg, b, flow, at);
    assert PacersAgree(cfg, a, b, flow.ip);
    if flow.ip !in a.byIP && flow.ip in b.byIP {
      IdleLonger(cfg, b.pacers[b.byIP[flow.ip]], a.now, at);
    }
  }

  lemma SameSize<K, V>(a: map<K, V>, b: map<K, V>)
    requires a.Keys == b.Keys
    ensures |a| == |b|
  {
    assert |a| == |a.Keys| && |b| == |b.Keys|;
  }

  lemma ArriveSimulates(cfg: Config, a: State, b: State, flow: Flow, at: int)
    requires Simulates(cfg, a, b) && Separate(a) && Separate(b) && a.now <= at && flow !in a.sleepers
    ensures Simulates(cfg, ArriveAt(cfg, a, flow, at), ArriveAt(cfg, b, flow, at))
  {
    var ra, rb := ArriveAt(cfg, a, flow, at), ArriveAt(cfg, b, flow, at);
    SameSize(a.sleepers, b.sleepers);
    SameDecision(cfg, a, b, flow, at);
    hide ArriveAt;
    forall ip
      ensures PacersAgree(cfg, ra, rb, ip)
    {
      assert PacersAgree(cfg, a, b, ip);
      if ip != flow.ip {
        ArriveFrame(cfg, a, flow, at, ip);
        ArriveFrame(cfg, b, flow, at, ip);
      }
    }
  }

  lemma KnownFlowSimulates(cfg: Config, a: State, b: State, flow: Flow, at: int)
    requires Simulates(cfg, a, b) && a.now <= at && flow in a.sleepers
    ensures Simulates(cfg, ArriveAt(cfg, a, flow, at), ArriveAt(cfg, b, flow, at))
  {
    var ra, rb := ArriveAt(cfg, a, flow, at), ArriveAt(cfg, b, flow, at);
    forall ip
      ensures PacersAgree(cfg, ra, rb, ip)
    {
      assert PacersAgree(cfg, a, b, ip);
    }
  }

  // ----- releases and expiry -----

  lemma WakeSimulates(cfg: Config, a: State, b: State, flow: Flow, at: int)
    requires Simulates(cfg, a, b) && Inv(cfg, a) && Inv(cfg, b) && Enabled(a, Wake(flow, at))
    ensures Enabled(b, Wake(flow, at))
    ensures Simulates(cfg, WakeAt(a, flow, at), WakeAt(b, flow, at))
  {
    assert PacerRate.SleeperOk(cfg, a, flow) && PacerRate.SleeperOk(cfg, b, flow);
    hide PacerRate.ClientOk, PacerRate.SleeperOk;
    var ra, rb := WakeAt(a, flow, at), WakeAt(b, flow, at);
    forall ip
      ensures PacersAgree(cfg, ra, rb, ip)
    {
      assert PacersAgree(cfg, a, b, ip);
    }
  }

  lemma ExpireSimulates(cfg: Config, a: State, b: State, ip: string, tick: int)
    requires Simulates(cfg, a, b) && Inv(cfg, a) && cfg.interval <= cfg.ttl + 1
    ensures Simulates(cfg, ExpireAt(cfg, a, ip, tick), b)
  {
    var ra := ExpireAt(cfg, a, ip, tick);
    assert PacerRate.ClientOk(cfg, a, ip);
    hide PacerRate.ClientOk, PacerRate.SleeperOk;
    forall other
      ensures PacersAgree(cfg, ra, b, other)
    {
      assert PacersAgree(cfg, a, b, other);
    }
  }

  lemma StepSimulates(cfg: Config, a: State, b: State, ev: Event)
    requires Simulates(cfg, a, b) && Inv(cfg, a) && Inv(cfg, b) && Enabled(a, ev) && !ev.Expire?
    ensures Enabled(b, ev) && Simulates(cfg, Step(cfg, a, ev), Step(cfg, b, ev))
  {
    hide ArriveAt, WakeAt, PacersAgree, PacerRate.ClientOk, PacerRate.SleeperOk;
    match ev
    case Arrive(flow, at) =>
      if flow in a.sleepers {
        KnownFlowSimulates(cfg, a, b, flow, at);
      } else {
        ArriveSimulates(cfg, a, b, flow, at);
      }
    case Wake(flow, at) => WakeSimulates(cfg, a, b, flow, at);
  }

  // ----- runs -----

  lemma OvertakesAgree(cfg: Config, a: State, b: State, ev: Event)
    requires Simulates(cfg, a, b)
    ensures Overtakes(a, ev) == Overtakes(b, ev)
  {
    hide PacersAgree;
  }

  /**
  Expiry steps inserted anywhere into a run with prompt timers, if no pacer expires before its interval is over,
  leave every verdict, every delay and every release as they were.
  */
  lemma {:induction false} ExpiryIsInvisible(cfg: Config, evs: seq<Event>)
    requires Validated(cfg) && cfg.interval <= cfg.ttl + 1
    requires Run(cfg, evs).Some? && Prompt(cfg, evs)
    ensures Run(cfg, WithoutExpiry(evs)).Some?
    ensures var a, b := Run(cfg, evs).value, Run(cfg, WithoutExpiry(evs)).value;
            && a.verdicts == b.verdicts && a.log == b.log
            && Simulates(cfg, a, b) && Inv(cfg, a) && Inv(cfg, b)
  {
    hide Inv, Simulates, ArriveAt, WakeAt, ExpireAt, Overtakes, Separate, Enabled;
    if evs == [] {
      InitialInv(cfg);
      InitialSimulates(cfg);
    } else {
      var n := |evs| - 1;
      var ev := evs[n];
      assert forall i :: 0 <= i < n ==> evs[..n][..i] == evs[..i] && evs[..n][i] == evs[i];
      ExpiryIsInvisible(cfg, evs[..n]);
      var a, b := Run(cfg, evs[..n]).value, Run(cfg, WithoutExpiry(evs[..n])).value;
      assert !Overtakes(a, ev);
      OvertakesAgree(cfg, a, b, ev);
      StepInv(cfg, a, ev);
      SimulatesParts(cfg, a, b);
      if ev.Expire? {
        ExpireSimulates(cfg, a, b, ev.ip, ev.tick);
        assert WithoutExpiry(evs) == WithoutExpiry(evs[..n]);
      } else {
        StepSimulates(cfg, a, b, ev);
        StepInv(cfg, b, ev);
        assert WithoutExpiry(evs) == WithoutExpiry(evs[..n]) + [ev];
        RunSnoc(cfg, WithoutExpiry(evs[..n]), ev);
      }
      var a', b' := Run(cfg, evs).value, Run(cfg, WithoutExpiry(evs)).value;
      SimulatesHistory(cfg, a', b');
    }
  }

  lemma InitialSimulates(cfg: Config)
    ensures Simulates(cfg, INITIAL, INITIAL)
  {
  }

  lemma SimulatesParts(cfg: Config, a: State, b: State)
    requires Simulates(cfg, a, b) && Inv(cfg, a) && Inv(cfg, b)
    ensures b.now <= a.now && Separate(a) && Separate(b) && WellFormed(b)
  {
  }

  lemma SimulatesHistory(cfg: Config, a: State, b: State)
    requires Simulates(cfg, a, b)
    ensures a.verdicts == b.verdicts && a.log == b.log
  {
  }

  // ----- and exactly then -----

  /** A step that overtakes nothing keeps a run prompt. */
  lemma PromptSnoc(cfg: Config, evs: seq<Event>, ev: Event)
    requires Run(cfg, evs).Some? && Prompt(cfg, evs) && Enabled(Run(cfg, evs).value, ev)
    requires !Overtakes(Run(cfg, evs).value, ev)
    ensures Prompt(cfg, evs + [ev]) && Run(cfg, evs + [ev]) == Some(Step(cfg, Run(cfg, evs).value, ev))
    ensures WithoutExpiry(evs + [ev]) == WithoutExpiry(evs) + if ev.Expire? then [] else [ev]
  {
    RunSnoc(cfg, evs, ev);
    assert (evs + [ev])[..|evs|] == evs;
    forall i | 0 <= i < |evs + [ev]| && Run(cfg, (evs + [ev])[..i]).Some?
      ensures !Overtakes(Run(cfg, (evs + [ev])[..i]).value, (evs + [ev])[i])
    {
      assert (evs + [ev])[..i] == evs[..i];
      assert i < |evs| ==> (evs + [ev])[i] == evs[i];
      assert i == |evs| ==> evs[..i] == evs;
    }
  }

  /** An accepted packet leaves no sleeper behind. */
  lemma AcceptStep(cfg: Config, st: State, flow: Flow, at: int)
    requires WellFormed(st) && st.now <= at && st.sleepers == map[] && Expired(cfg, PacerOf(st, flow.ip), at)
    ensures var after := Step(cfg, st, Arrive(flow, at));
            && after.now == at && after.sleepers == map[] && flow.ip in after.byIP
            && after.pacers[after.byIP[flow.ip]] == AfterRelease(at)
            && after.log == st.log + [Released(flow.ip, at, None)]
  {
    hide LastIndex, ArriveAt;
    ArriveEffect(cfg, st, flow, at);
  }

  lemma ExpireStep(cfg: Config, st: State, ip: string, tick: int)
    requires WellFormed(st) && ip in st.byIP && Stale(st.pacers[st.byIP[ip]], tick, cfg.ttl) && st.now <= tick
    ensures Step(cfg, st, Expire(ip, tick)) == st.(now := tick, byIP := st.byIP - {ip})
  {
  }

  lemma TooEarlyStep(cfg: Config, st: State, flow: Flow, at: int)
    requires WellFormed(st) && st.now <= at && flow !in st.sleepers && !Expired(cfg, PacerOf(st, flow.ip), at)
    ensures Step(cfg, st, Arrive(flow, at)).log == st.log
  {
    hide LastIndex, ArriveAt;
    ArriveEffect(cfg, st, flow, at);
  }

  /** A pacer that expires before its interval is over: the next packet is accepted too early. */
  lemma EarlyExpiryShows(cfg: Config) returns (evs: seq<Event>)
    requires Validated(cfg) && cfg.interval > cfg.ttl + 1
    ensures Run(cfg, evs).Some? && Prompt(cfg, evs) && Run(cfg, WithoutExpiry(evs)).Some?
    ensures Run(cfg, evs).value.log != Run(cfg, WithoutExpiry(evs)).value.log
    ensures !Spaced(TimesOf(Run(cfg, evs).value.log, CLIENT), cfg.interval)
  {
    hide Run, Prompt, Step, WithoutExpiry, TimesOf;
    var late := if cfg.ttl < 0 then 0 else cfg.ttl + 1;
    EmptyRun(cfg);
    var one := [] + [Arrive(Port(1), 0)];
    var two := one + [Expire(CLIENT, late)];
    evs := two + [Arrive(Port(2), late)];
    AcceptStep(cfg, INITIAL, Port(1), 0);
    PromptSnoc(cfg, [], Arrive(Port(1), 0));
    var st := Run(cfg, one).value;
    ExpireStep(cfg, st, CLIENT, late);
    PromptSnoc(cfg, one, Expire(CLIENT, late));
    AcceptStep(cfg, Run(cfg, two).value, Port(2), late);
    PromptSnoc(cfg, two, Arrive(Port(2), late));
    TooEarlyStep(cfg, st, Port(2), late);
    PromptSnoc(cfg, one, Arrive(Port(2), late));
    assert WithoutExpiry(two) == one + [];
    assert WithoutExpiry(evs) == one + [Arrive(Port(2), late)];
    TimesSnoc([], Released(CLIENT, 0, None), CLIENT);
    TimesSnoc([] + [Released(CLIENT, 0, None)], Released(CLIENT, late, None), CLIENT);
    var times := TimesOf(Run(cfg, evs).value.log, CLIENT);
    assert times == TimesOf([], CLIENT) + [0] + [late];
    assert times[|times| - 1] - times[|times| - 2] < cfg.interval;
  }

  lemma EmptyRun(cfg: Config)
    ensures Run(cfg, []) == Some(INITIAL) && Prompt(cfg, []) && WithoutExpiry([]) == []
  {
  }

  /**
  Expiry is invisible in every prompt run if and only if the interval is at most one tick longer than the time to
  live.
  */
  lemma ExpiryInvisibleIff(cfg: Config)
    requires Validated(cfg)
    ensures (forall evs :: Run(cfg, evs).Some? && Prompt(cfg, evs) ==>
               && Run(cfg, WithoutExpiry(evs)).Some?
               && Run(cfg, evs).value.verdicts == Run(cfg, WithoutExpiry(evs)).value.verdicts
               && Run(cfg, evs).value.log == Run(cfg, WithoutExpiry(evs)).value.log)
            <==> cfg.interval <= cfg.ttl + 1
  {
    hide Run, Prompt, WithoutExpiry;
    if cfg.interval <= cfg.ttl + 1 {
      forall evs | Run(cfg, evs).Some? && Prompt(cfg, evs)
        ensures Run(cfg, WithoutExpiry(evs)).Some?
        ensures Run(cfg, evs).value.verdicts == Run(cfg, WithoutExpiry(evs)).value.verdicts
        ensures Run(cfg, evs).value.log == Run(cfg, WithoutExpiry(evs)).value.log
      {
        ExpiryIsInvisible(cfg, evs);
      }
    } else {
      var evs := EarlyExpiryShows(cfg);
    }
  }

  /** Releases keep the interval in every prompt run under exactly the same condition. */
  lemma PromptSpacingIff(cfg: Config)
    requires Validated(cfg)
    ensures (forall evs, ip :: Run(cfg, evs).Some? && Prompt(cfg, evs) ==>
               Spaced(TimesOf(Run(cfg, evs).value.log, ip), cfg.interval))
            <==> cfg.interval <= cfg.ttl + 1
  {
    hide Run, Prompt, TimesOf, Spaced;
    if cfg.interval <= cfg.ttl + 1 {
      forall evs, ip | Run(cfg, evs).Some? && Prompt(cfg, evs)
        ensures Spaced(TimesOf(Run(cfg, evs).value.log, ip), cfg.interval)
      {
        ShapeRateBound(cfg, evs, ip, 0, 0);
      }
    } else {
      var evs := EarlyExpiryShows(cfg);
    }
  }
}
