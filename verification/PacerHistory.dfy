/** The verdicts of shape mode told from the releases before them and the packets that sleep, without the pacers. */
module PacerHistory {
  import opened Wrappers
  import opened Pacer
  import opened PacerRuns
  import opened PacerRate

  // ----- what a pacer's fields mean -----

  ghost predicate SomeSleeps(st: State, ip: string)
  {
    exists f :: f in st.sleepers && f.ip == ip
  }

  /** A pending pacer has a sleeper. */
  ghost predicate PendingSleeps(st: State, ip: string)
    requires WellFormed(st)
  {
    ip in st.byIP && st.pacers[st.byIP[ip]].pending ==> SomeSleeps(st, ip)
  }

  predicate Sleeps(st: Option<State>, flow: Flow)
  {
    st.Some? && flow in st.value.sleepers
  }

  /** When the client's pacer last had to do with a packet: an arrival whose flow did not sleep, or a release. */
  function Heard(cfg: Config, evs: seq<Event>, ip: string): Time
  {
    if evs == [] then Never
    else
      var before, ev := evs[..|evs| - 1], evs[|evs| - 1];
      if ev.Wake? && ev.flow.ip == ip then At(ev.at)
      else if ev.Arrive? && ev.flow.ip == ip && !Sleeps(Run(cfg, before), ev.flow) then At(ev.at)
      else Heard(cfg, before, ip)
  }

  ghost predicate Means(st: State, ip: string, heard: Time)
    requires WellFormed(st)
  {
    PendingSleeps(st, ip) && (ip in st.byIP ==> st.pacers[st.byIP[ip]].lastSeen == heard)
  }

  lemma ArriveMeans(cfg: Config, st: State, flow: Flow, at: int, ip: string, heard: Time)
    requires WellFormed(st) && Injective(st) && Means(st, ip, heard)
    ensures Means(ArriveAt(cfg, st, flow, at), ip, if flow !in st.sleepers && flow.ip == ip then At(at) else heard)
  {
    var after := ArriveAt(cfg, st, flow, at);
    if flow !in st.sleepers {
      hide ArriveAt, LastIndex;
      ArriveEffect(cfg, st, flow, at);
      DecideKeepsPending(cfg, PacerOf(st, flow.ip), at, |st.sleepers|);
      if ip != flow.ip {
        ArriveFrame(cfg, st, flow, at, ip);
      }
      hide Decide;
      if ip == flow.ip && Decide(cfg, PacerOf(st, ip), at, |st.sleepers|).Delay? {
        assert flow in after.sleepers;
      }
      if f :| f in st.sleepers && f.ip == ip {
        assert f in after.sleepers;
      }
    }
  }

  lemma DecideKeepsPending(cfg: Config, p: PacerState, now: int, counter: int)
    ensures var d := Decide(cfg, p, now, counter);
            && AfterArrival(p, now, d).lastSeen == At(now)
            && (AfterArrival(p, now, d).pending ==> p.pending || d.Delay?)
  {
  }

  lemma WakeMeans(cfg: Config, st: State, flow: Flow, at: int, ip: string, heard: Time)
    requires Inv(cfg, st) && Enabled(st, Wake(flow, at)) && Means(st, ip, heard)
    ensures Means(WakeAt(st, flow, at), ip, if flow.ip == ip then At(at) else heard)
  {
    assert PacerRate.SleeperOk(cfg, st, flow);
    hide PacerRate.ClientOk;
    var after := WakeAt(st, flow, at);
    if f :| f in st.sleepers && f.ip == ip && f != flow {
      assert f in after.sleepers;
    }
  }

  lemma {:induction false} RunMeans(cfg: Config, evs: seq<Event>, ip: string)
    requires Validated(cfg) && cfg.interval <= cfg.ttl + 1
    requires Run(cfg, evs).Some? && Prompt(cfg, evs)
    ensures Means(Run(cfg, evs).value, ip, Heard(cfg, evs, ip))
  {
    hide ArriveAt, WakeAt, PacerRate.ClientOk, PacerRate.SleeperOk, Overtakes;
    if evs != [] {
      var n := |evs| - 1;
      assert forall i :: 0 <= i < n ==> evs[..n][..i] == evs[..i] && evs[..n][i] == evs[i];
      RunMeans(cfg, evs[..n], ip);
      RunInv(cfg, evs[..n]);
      var st := Run(cfg, evs[..n]).value;
      var heard := Heard(cfg, evs[..n], ip);
      match evs[n]
      case Arrive(flow, at) => ArriveMeans(cfg, st, flow, at, ip, heard);
      case Wake(flow, at) => WakeMeans(cfg, st, flow, at, ip, heard);
      case Expire(_, _) =>
    }
  }

  // ----- the verdict of a packet -----

  /**
  What becomes of a packet whose flow does not sleep. remaining is the time until an interval after the client's last
  release, and open says that it is over or that there was none.
  */
  ghost predicate RightVerdict(cfg: Config, st: State, ip: string, open: bool, remaining: int, d: Decision)
  {
    var short := cfg.maxDelay == 0 || remaining <= cfg.maxDelay;
    var room := cfg.maxPending == 0 || |st.sleepers| < cfg.maxPending;
    && (d == Release <==> open)
    && (d == TooLong(remaining) <==> !open && !short)
    && (d == ClientPending(remaining) <==> !open && short && SomeSleeps(st, ip))
    && (d == TooManyPending <==> !open && short && !SomeSleeps(st, ip) && !room)
    && (d == Delay(remaining) <==> !open && short && !SomeSleeps(st, ip) && room)
  }

  /** What the verdict does to the log and to the packets that sleep. */
  ghost predicate RightEffect(st: State, after: State, flow: Flow, at: int, due: int, d: Decision)
  {
    && after.log == (if d.Release? then st.log + [Released(flow.ip, at, None)] else st.log)
    && (forall f :: f in after.sleepers <==> f in st.sleepers || (f == flow && d.Delay?))
    && (forall f :: f in st.sleepers ==> after.sleepers[f] == st.sleepers[f])
    && (d.Delay? ==> after.sleepers[flow].due == due)
  }

  /** In every state: a packet's verdict and effect in terms of its client's pacer, or of a new one if it has none. */
  lemma ArrivalExactly(cfg: Config, st: State, flow: Flow, at: int)
    requires WellFormed(st) && Validated(cfg) && flow !in st.sleepers
    ensures var p, after := PacerOf(st, flow.ip), ArriveAt(cfg, st, flow, at);
            var remaining := if p.lastRelease.At? then p.lastRelease.t + cfg.interval - at else 0;
            var short := cfg.maxDelay == 0 || remaining <= cfg.maxDelay;
            var room := cfg.maxPending == 0 || |st.sleepers| < cfg.maxPending;
            && |after.verdicts| == |st.verdicts| + 1
            && after.verdicts[|st.verdicts|].Decided?
            && (flow in after.sleepers <==> remaining > 0 && short && !p.pending && room)
            && RightEffect(st, after, flow, at, at + remaining, after.verdicts[|st.verdicts|].decision)
  {
    hide LastIndex, ArriveAt;
    ArriveEffect(cfg, st, flow, at);
  }

  /**
  A packet whose flow sleeps is dropped, and one that does not gets the verdict that the releases so far call for.
  */
  lemma VerdictByHistory(cfg: Config, evs: seq<Event>, flow: Flow, at: int)
    requires Validated(cfg) && cfg.interval <= cfg.ttl + 1
    requires Run(cfg, evs).Some? && Prompt(cfg, evs) && Enabled(Run(cfg, evs).value, Arrive(flow, at))
    ensures var st := Run(cfg, evs).value;
            var after := ArriveAt(cfg, st, flow, at);
            var times := TimesOf(st.log, flow.ip);
            var remaining := if times == [] then 0 else times[|times| - 1] + cfg.interval - at;
            if flow in st.sleepers then after == st.(now := at, verdicts := st.verdicts + [FlowPending])
            else exists d ::
                   && after.verdicts == st.verdicts + [Decided(d)]
                   && RightVerdict(cfg, st, flow.ip, remaining <= 0, remaining, d)
                   && RightEffect(st, after, flow, at, at + remaining, d)
  {
    hide Run, Prompt, Inv, Means, Heard, ArriveAt, RightVerdict, RightEffect, TimesOf;
    var st := Run(cfg, evs).value;
    RunInv(cfg, evs);
    RunMeans(cfg, evs, flow.ip);
    if flow in st.sleepers {
      SleepingFlow(cfg, st, flow, at);
    } else {
      VerdictInState(cfg, st, flow, at, Heard(cfg, evs, flow.ip));
    }
  }

  lemma SleepingFlow(cfg: Config, st: State, flow: Flow, at: int)
    requires WellFormed(st) && flow in st.sleepers
    ensures ArriveAt(cfg, st, flow, at) == st.(now := at, verdicts := st.verdicts + [FlowPending])
  {
  }

  lemma VerdictInState(cfg: Config, st: State, flow: Flow, at: int, heard: Time)
    requires Validated(cfg) && Inv(cfg, st) && Means(st, flow.ip, heard) && st.now <= at && flow !in st.sleepers
    ensures var times := TimesOf(st.log, flow.ip);
            var remaining := if times == [] then 0 else times[|times| - 1] + cfg.interval - at;
            exists d ::
              && ArriveAt(cfg, st, flow, at).verdicts == st.verdicts + [Decided(d)]
              && RightVerdict(cfg, st, flow.ip, remaining <= 0, remaining, d)
              && RightEffect(st, ArriveAt(cfg, st, flow, at), flow, at, at + remaining, d)
  {
    hide PacerRate.ClientOk, PacerRate.SleeperOk, Separate, Means, LastIndex, ArriveAt, TimesOf, Decide, SomeSleeps,
         RightVerdict, RightEffect;
    var p, times := PacerOf(st, flow.ip), TimesOf(st.log, flow.ip);
    var remaining := if times == [] then 0 else times[|times| - 1] + cfg.interval - at;
    FieldsByHistory(cfg, st, flow.ip, heard, at);
    VerdictFromFields(cfg, st, flow.ip, p, at, remaining);
    EffectOfVerdict(cfg, st, flow, at, remaining);
  }

  lemma EffectOfVerdict(cfg: Config, st: State, flow: Flow, at: int, remaining: int)
    requires WellFormed(st) && flow !in st.sleepers
    requires var d := Decide(cfg, PacerOf(st, flow.ip), at, |st.sleepers|); d.Delay? ==> d.delay == remaining
    ensures var d := Decide(cfg, PacerOf(st, flow.ip), at, |st.sleepers|);
            && ArriveAt(cfg, st, flow, at).verdicts == st.verdicts + [Decided(d)]
            && RightEffect(st, ArriveAt(cfg, st, flow, at), flow, at, at + remaining, d)
  {
    hide LastIndex, ArriveAt, Decide;
    ArriveEffect(cfg, st, flow, at);
  }

  /** The pacer's last release and its pending flag are those of the history; a client without one has rested. */
  lemma FieldsByHistory(cfg: Config, st: State, ip: string, heard: Time, at: int)
    requires Inv(cfg, st) && Means(st, ip, heard) && st.now <= at
    ensures var p, times := PacerOf(st, ip), TimesOf(st.log, ip);
            && (p.pending <==> SomeSleeps(st, ip))
            && if ip in st.byIP then p.lastRelease == (if times == [] then Never else At(times[|times| - 1]))
               else times != [] ==> times[|times| - 1] + cfg.interval <= at
  {
    assert PacerRate.ClientOk(cfg, st, ip);
    if f :| f in st.sleepers && f.ip == ip {
      assert PacerRate.SleeperOk(cfg, st, f);
    }
  }

  lemma VerdictFromFields(cfg: Config, st: State, ip: string, p: PacerState, at: int, remaining: int)
    requires Validated(cfg) && (p.pending <==> SomeSleeps(st, ip))
    requires if p.lastRelease.At? then p.lastRelease.t + cfg.interval == at + remaining else remaining <= 0
    ensures var d := Decide(cfg, p, at, |st.sleepers|);
            RightVerdict(cfg, st, ip, remaining <= 0, remaining, d) && (d.Delay? ==> d.delay == remaining)
  {
    hide SomeSleeps;
  }

  /**
  Expiry removes a client exactly if none of its packets sleeps and nothing was heard of it for longer than the time
  to live.
  */
  lemma ExpiryByHistory(cfg: Config, evs: seq<Event>, ip: string, tick: int)
    requires Validated(cfg) && cfg.interval <= cfg.ttl + 1
    requires Run(cfg, evs).Some? && Prompt(cfg, evs) && ip in Run(cfg, evs).value.byIP
    ensures var st := Run(cfg, evs).value;
            var heard := Heard(cfg, evs, ip);
            ip !in ExpireAt(cfg, st, ip, tick).byIP
            <==> !SomeSleeps(st, ip) && heard.At? && heard.t + cfg.ttl < tick
  {
    var st := Run(cfg, evs).value;
    RunInv(cfg, evs);
    RunMeans(cfg, evs, ip);
    hide Run, Prompt, TimesOf;
    FieldsByHistory(cfg, st, ip, Heard(cfg, evs, ip), st.now);
  }
}
