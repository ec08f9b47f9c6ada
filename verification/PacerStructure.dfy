/**
What shape mode guarantees without any assumption on when goroutines wake:
releases form chains, and each link of a chain is at least an interval long.
*/
module PacerStructure {
  import opened Wrappers
  import opened Pacer
  import opened PacerRuns

  // ----- the structure -----

  /** An immediate release keeps its distance from every earlier one of its client, a delayed one from its parent. */
  ghost predicate LinkOk(cfg: Config, log: seq<Released>, i: nat)
    requires i < |log|
  {
    match log[i].parent
    case None => forall j :: 0 <= j < i && log[j].ip == log[i].ip ==> log[i].at - log[j].at >= cfg.interval
    case Some(p) => 0 <= p < i && log[p].ip == log[i].ip && log[i].at - log[p].at >= cfg.interval
  }

  ghost predicate Monotone(log: seq<Released>)
  {
    forall i, j :: 0 <= i < j < |log| ==> log[i].at <= log[j].at
  }

  /** No release has two delayed children. */
  ghost predicate ParentsUnique(log: seq<Released>)
  {
    forall i, j :: 0 <= i < j < |log| && log[i].parent.Some? ==> log[i].parent != log[j].parent
  }

  ghost predicate Structured(cfg: Config, log: seq<Released>)
  {
    Monotone(log) && ParentsUnique(log) && forall i :: 0 <= i < |log| ==> LinkOk(cfg, log, i)
  }

  // ----- the invariant behind it -----

  ghost predicate NoChild(st: State, k: int)
  {
    && (forall i :: 0 <= i < |st.log| ==> st.log[i].parent != Some(k))
    && (forall f :: f in st.sleepers ==> st.sleepers[f].parent != k)
  }

  /** The client's pacer holds its last release; unless it is pending, that release has no child yet. */
  ghost predicate ClientOk(st: State, ip: string)
    requires WellFormed(st)
  {
    var last := LastIndex(st.log, ip);
    if ip in st.byIP then
      var p := st.pacers[st.byIP[ip]];
      && p.lastRelease == (if last < 0 then Never else At(st.log[last].at))
      && (p.pending || NoChild(st, last))
    else last < 0
  }

  ghost predicate SleeperOk(cfg: Config, st: State, f: Flow)
    requires WellFormed(st) && f in st.sleepers
  {
    var s := st.sleepers[f];
    && f.ip in st.byIP && st.byIP[f.ip] == s.pacer
    && 0 <= s.parent < |st.log| && st.log[s.parent].ip == f.ip && s.due == st.log[s.parent].at + cfg.interval
    && (forall i :: 0 <= i < |st.log| ==> st.log[i].parent != Some(s.parent))
    && (forall g :: g in st.sleepers && g != f ==> st.sleepers[g].parent != s.parent)
  }

  ghost predicate Inv(cfg: Config, st: State)
  {
    && WellFormed(st) && Injective(st)
    && (forall i :: 0 <= i < |st.log| ==> st.log[i].at <= st.now)
    && Structured(cfg, st.log)
    && (forall ip :: ClientOk(st, ip))
    && (forall f :: f in st.sleepers ==> SleeperOk(cfg, st, f))
  }

  // ----- appending to the log -----

  lemma StructuredSnoc(cfg: Config, log: seq<Released>, r: Released)
    requires Structured(cfg, log)
    requires forall i :: 0 <= i < |log| ==> log[i].at <= r.at
    requires r.parent.Some? ==> forall i :: 0 <= i < |log| ==> log[i].parent != r.parent
    requires LinkOk(cfg, log + [r], |log|)
    ensures Structured(cfg, log + [r])
  {
    var after := log + [r];
    assert forall i :: 0 <= i < |log| ==> after[i] == log[i];
    forall i | 0 <= i < |after|
      ensures LinkOk(cfg, after, i)
    {
      if i < |log| {
        assert LinkOk(cfg, log, i);
      }
    }
  }

  /** Parents lie inside the log, so a release that is just appended has no child. */
  lemma NewEntryChildless(cfg: Config, st: State, r: Released)
    requires Inv(cfg, st) && (r.parent.Some? ==> r.parent.value < |st.log|)
    ensures forall i :: 0 <= i <= |st.log| ==> (st.log + [r])[i].parent != Some(|st.log|)
    ensures forall f :: f in st.sleepers ==> st.sleepers[f].parent != |st.log|
  {
    forall i | 0 <= i < |st.log|
      ensures st.log[i].parent != Some(|st.log|)
    {
      assert LinkOk(cfg, st.log, i);
    }
    forall f | f in st.sleepers
      ensures st.sleepers[f].parent != |st.log|
    {
      assert SleeperOk(cfg, st, f);
    }
  }

  // ----- a packet that is let through -----

  lemma AcceptedLink(cfg: Config, st: State, ip: string, at: int)
    requires Inv(cfg, st) && st.now <= at
    requires ip in st.byIP ==> Expired(cfg, st.pacers[st.byIP[ip]], at)
    ensures LinkOk(cfg, st.log + [Released(ip, at, None)], |st.log|)
  {
    assert ClientOk(st, ip);
    var last := LastIndex(st.log, ip);
    forall j | 0 <= j < |st.log| && st.log[j].ip == ip
      ensures at - st.log[j].at >= cfg.interval
    {
      assert j <= last;
      assert j < last ==> st.log[j].at <= st.log[last].at;
    }
  }

  lemma AcceptInv(cfg: Config, st: State, after: State, ip: string, at: int)
    requires Inv(cfg, st) && st.now <= at && WellFormed(after)
    requires ip in st.byIP ==> Expired(cfg, st.pacers[st.byIP[ip]], at)
    requires Changed(st, after, ip) && after.now == at
    requires after.log == st.log + [Released(ip, at, None)] && after.sleepers == st.sleepers
    requires after.pacers[after.byIP[ip]] == AfterRelease(at)
    ensures Inv(cfg, after)
  {
    hide LastIndex, Structured, LinkOk, Expired;
    var r := Released(ip, at, None);
    AcceptedLink(cfg, st, ip, at);
    StructuredSnoc(cfg, st.log, r);
    NewEntryChildless(cfg, st, r);
    forall other
      ensures ClientOk(after, other)
    {
      assert ClientOk(st, other);
      LastSnoc(st.log, r, other);
      if other != ip {
        AcceptOther(cfg, st, after, r, other);
      }
    }
    forall f | f in after.sleepers
      ensures SleeperOk(cfg, after, f)
    {
      assert SleeperOk(cfg, st, f);
    }
  }

  lemma AcceptOther(cfg: Config, st: State, after: State, r: Released, other: string)
    requires WellFormed(st) && WellFormed(after) && ClientOk(st, other) && Changed(st, after, r.ip) && other != r.ip
    requires after.log == st.log + [r] && after.sleepers == st.sleepers && r.parent == None
    ensures ClientOk(after, other)
  {
    hide LastIndex;
    LastSnoc(st.log, r, other);
  }

  /** Only the table entry and the pacer of the client may differ. */
  ghost predicate Changed(st: State, after: State, ip: string)
    requires WellFormed(st) && WellFormed(after)
  {
    && ip in after.byIP && Injective(after)
    && (ip in st.byIP ==> after.byIP[ip] == st.byIP[ip])
    && (forall other :: other != ip ==> (other in after.byIP <==> other in st.byIP))
    && (forall other :: other != ip && other in st.byIP ==>
          after.byIP[other] == st.byIP[other] && after.pacers[after.byIP[other]] == st.pacers[st.byIP[other]])
  }

  lemma ArriveChanges(cfg: Config, st: State, flow: Flow, at: int)
    requires WellFormed(st) && Injective(st) && flow !in st.sleepers
    ensures Changed(st, ArriveAt(cfg, st, flow, at), flow.ip)
  {
    hide ArriveAt, Injective;
    ArriveEffect(cfg, st, flow, at);
    ArriveTable(cfg, st, flow, at);
    forall other | other != flow.ip
      ensures var after := ArriveAt(cfg, st, flow, at);
              && (other in after.byIP <==> other in st.byIP)
              && (other in st.byIP ==>
                    after.byIP[other] == st.byIP[other] && after.pacers[after.byIP[other]] == st.pacers[st.byIP[other]])
    {
      ArriveFrame(cfg, st, flow, at, other);
    }
  }

  // ----- a packet that is dropped or delayed -----

  lemma DropInv(cfg: Config, st: State, after: State, ip: string)
    requires Inv(cfg, st) && WellFormed(after) && Changed(st, after, ip) && st.now <= after.now && ip in st.byIP
    requires after.log == st.log && after.sleepers == st.sleepers
    requires var p, q := st.pacers[st.byIP[ip]], after.pacers[after.byIP[ip]];
             q.lastRelease == p.lastRelease && q.pending == p.pending
    ensures Inv(cfg, after)
  {
    forall other
      ensures ClientOk(after, other)
    {
      assert ClientOk(st, other);
    }
    forall f | f in after.sleepers
      ensures SleeperOk(cfg, after, f)
    {
      assert SleeperOk(cfg, st, f);
    }
  }

  /** The client's pacer becomes pending, and a sleeper is added whose parent is the client's last release. */
  ghost predicate Delays(cfg: Config, st: State, after: State, flow: Flow)
    requires WellFormed(st) && WellFormed(after)
  {
    && Changed(st, after, flow.ip) && flow.ip in st.byIP && flow !in st.sleepers
    && st.now <= after.now && after.log == st.log
    && var p, q := st.pacers[st.byIP[flow.ip]], after.pacers[after.byIP[flow.ip]];
       && q.lastRelease == p.lastRelease && p.lastRelease.At? && q.pending && !p.pending
       && after.sleepers
          == st.sleepers[flow :=
               Sleeper(after.byIP[flow.ip], p.lastRelease.t + cfg.interval, LastIndex(st.log, flow.ip))]
  }

  lemma DelayClient(cfg: Config, st: State, after: State, flow: Flow, ip: string)
    requires WellFormed(st) && WellFormed(after) && Delays(cfg, st, after, flow)
    requires ClientOk(st, ip) && ClientOk(st, flow.ip)
    ensures ClientOk(after, ip)
  {
    hide Injective;
    if ip != flow.ip && ip in st.byIP && !st.pacers[st.byIP[ip]].pending {
      assert LastIndex(st.log, ip) != LastIndex(st.log, flow.ip);
    }
  }

  lemma DelaySleeper(cfg: Config, st: State, after: State, flow: Flow, f: Flow)
    requires WellFormed(st) && WellFormed(after) && Delays(cfg, st, after, flow) && ClientOk(st, flow.ip)
    requires f in st.sleepers ==> SleeperOk(cfg, st, f)
    requires f in after.sleepers
    ensures SleeperOk(cfg, after, f)
  {
    hide Injective;
  }

  lemma DelayInv(cfg: Config, st: State, after: State, flow: Flow)
    requires Inv(cfg, st) && WellFormed(after) && Delays(cfg, st, after, flow)
    ensures Inv(cfg, after)
  {
    assert ClientOk(st, flow.ip);
    hide SleeperOk, ClientOk, LastIndex;
    forall f | f in after.sleepers
      ensures SleeperOk(cfg, after, f)
    {
      assert f in st.sleepers ==> SleeperOk(cfg, st, f);
      DelaySleeper(cfg, st, after, flow, f);
    }
    forall ip
      ensures ClientOk(after, ip)
    {
      assert ClientOk(st, ip);
      DelayClient(cfg, st, after, flow, ip);
    }
  }

  lemma ArriveInv(cfg: Config, st: State, flow: Flow, at: int)
    requires Inv(cfg, st) && Validated(cfg) && st.now <= at && flow !in st.sleepers
    ensures Inv(cfg, ArriveAt(cfg, st, flow, at))
  {
    var p, after := PacerOf(st, flow.ip), ArriveAt(cfg, st, flow, at);
    var d := Decide(cfg, p, at, |st.sleepers|);
    ArriveEffect(cfg, st, flow, at);
    ArriveChanges(cfg, st, flow, at);
    DecideCases(cfg, p, at, |st.sleepers|);
    hide Inv, Changed, ArriveAt, ClientOk, LastIndex, Decide, Expired, Injective;
    if d.Release? {
      AcceptInv(cfg, st, after, flow.ip, at);
    } else if d.Delay? {
      DelayIsExact(cfg, p, at, |st.sleepers|);
      DelayInv(cfg, st, after, flow);
    } else {
      DropInv(cfg, st, after, flow.ip);
    }
  }

  lemma DecideCases(cfg: Config, p: PacerState, now: int, n: int)
    ensures Decide(cfg, p, now, n).Release? <==> Expired(cfg, p, now)
    ensures !Expired(cfg, p, now) ==> p != FRESH && p.lastRelease.At?
    ensures Decide(cfg, p, now, n).Delay? ==> !p.pending
  {
  }

  lemma SameInv(cfg: Config, st: State, after: State)
    requires Inv(cfg, st) && st.now <= after.now
    requires after.byIP == st.byIP && after.pacers == st.pacers && after.sleepers == st.sleepers && after.log == st.log
    ensures Inv(cfg, after)
  {
    forall ip
      ensures ClientOk(after, ip)
    {
      assert ClientOk(st, ip);
    }
    forall f | f in after.sleepers
      ensures SleeperOk(cfg, after, f)
    {
      assert SleeperOk(cfg, st, f);
    }
  }

  lemma KnownFlowInv(cfg: Config, st: State, flow: Flow, at: int)
    requires Inv(cfg, st) && st.now <= at && flow in st.sleepers
    ensures Inv(cfg, ArriveAt(cfg, st, flow, at))
  {
    hide ClientOk, SleeperOk, Structured;
    SameInv(cfg, st, ArriveAt(cfg, st, flow, at));
  }

  // ----- a delayed packet that is released -----

  lemma WakeInv(cfg: Config, st: State, flow: Flow, at: int)
    requires Inv(cfg, st) && Enabled(st, Wake(flow, at))
    ensures Inv(cfg, WakeAt(st, flow, at))
  {
    hide LastIndex, Structured;
    var after := WakeAt(st, flow, at);
    var s := st.sleepers[flow];
    var r := Released(flow.ip, at, Some(s.parent));
    assert SleeperOk(cfg, st, flow);
    StructuredSnoc(cfg, st.log, r);
    NewEntryChildless(cfg, st, r);
    forall ip
      ensures ClientOk(after, ip)
    {
      assert ClientOk(st, ip);
      LastSnoc(st.log, r, ip);
      if ip != flow.ip && LastIndex(st.log, ip) >= 0 {
        assert LastIndex(st.log, ip) != s.parent;
      }
    }
    forall f | f in after.sleepers
      ensures SleeperOk(cfg, after, f)
    {
      assert SleeperOk(cfg, st, f);
    }
  }

  /** The events of a run without expiry. */
  ghost predicate NoExpiry(evs: seq<Event>)
  {
    forall i :: 0 <= i < |evs| ==> !evs[i].Expire?
  }

  lemma {:induction false} RunInv(cfg: Config, evs: seq<Event>)
    requires Validated(cfg) && NoExpiry(evs) && Run(cfg, evs).Some?
    ensures Inv(cfg, Run(cfg, evs).value)
  {
    hide Inv, ArriveAt, WakeAt;
    if evs == [] {
      InitialInv(cfg);
    } else {
      var n := |evs| - 1;
      RunInv(cfg, evs[..n]);
      var st := Run(cfg, evs[..n]).value;
      match evs[n]
      case Arrive(flow, at) =>
        if flow in st.sleepers {
          KnownFlowInv(cfg, st, flow, at);
        } else {
          ArriveInv(cfg, st, flow, at);
        }
      case Wake(flow, at) => WakeInv(cfg, st, flow, at);
    }
  }

  lemma InitialInv(cfg: Config)
    ensures Inv(cfg, INITIAL)
  {
  }

  /**
  However late goroutines wake: an immediate release comes an interval after all earlier ones, and every
  delayed release is the only delayed child of a release at least an interval before it.
  */
  lemma ReleasesFormChains(cfg: Config, evs: seq<Event>)
    requires Validated(cfg) && NoExpiry(evs) && Run(cfg, evs).Some?
    ensures Structured(cfg, Run(cfg, evs).value.log)
  {
    hide Run, Structured;
    RunInv(cfg, evs);
  }

  // ----- chains -----

  ghost predicate ParentsEarlier(log: seq<Released>)
  {
    forall j :: 0 <= j < |log| && log[j].parent.Some? ==> 0 <= log[j].parent.value < j
  }

  /** The immediate release that starts the chain of the i-th release, and the number of links to it. */
  ghost function Chain(log: seq<Released>, i: nat): (r: (nat, nat))
    requires i < |log| && ParentsEarlier(log)
    ensures r.0 <= i && log[r.0].parent.None?
  {
    match log[i].parent
    case None => (i, 0)
    case Some(p) => var (head, links) := Chain(log, p); (head, links + 1)
  }

  lemma StructuredParents(cfg: Config, log: seq<Released>)
    requires Structured(cfg, log)
    ensures ParentsEarlier(log)
  {
    assert forall j :: 0 <= j < |log| && LinkOk(cfg, log, j) && log[j].parent.Some? ==> 0 <= log[j].parent.value < j;
  }

  /** Each link costs an interval, so the n-th release of a chain comes at least n intervals after its head. */
  lemma {:induction false} ChainPace(cfg: Config, log: seq<Released>, i: nat)
    requires Structured(cfg, log) && i < |log|
    ensures ParentsEarlier(log)
    ensures var (head, links) := Chain(log, i);
            log[head].ip == log[i].ip && log[i].at - log[head].at >= links * cfg.interval
    decreases i
  {
    StructuredParents(cfg, log);
    assert LinkOk(cfg, log, i);
    if log[i].parent.Some? {
      ChainPace(cfg, log, log[i].parent.value);
    }
  }

  // ----- what fails without the assumptions of the rate bound -----

  const EXAMPLE: Config := Config(100, 0, 0, 100)

  lemma FirstAccepted()
    ensures var r := Run(EXAMPLE, [Arrive(Port(1), 0)]);
            && r.Some? && r.value.now == 0 && r.value.byIP == map[CLIENT := 0] && r.value.sleepers == map[]
            && r.value.pacers == [PacerState(At(0), At(0), false)] && r.value.log == [Released(CLIENT, 0, None)]
  {
    hide Run;
    EmptyRun();
    assert [] + [Arrive(Port(1), 0)] == [Arrive(Port(1), 0)];
    RunSnoc(EXAMPLE, [], Arrive(Port(1), 0));
  }

  lemma SecondDelayed()
    ensures var r := Run(EXAMPLE, [Arrive(Port(1), 0), Arrive(Port(2), 50)]);
            && r.Some? && r.value.now == 50 && r.value.byIP == map[CLIENT := 0]
            && r.value.sleepers.Keys == {Port(2)} && r.value.sleepers[Port(2)].pacer == 0
              && r.value.sleepers[Port(2)].due == 100
            && r.value.pacers == [PacerState(At(0), At(50), true)] && r.value.log == [Released(CLIENT, 0, None)]
  {
    hide Run, LastIndex;
    FirstAccepted();
    assert [Arrive(Port(1), 0)] + [Arrive(Port(2), 50)] == [Arrive(Port(1), 0), Arrive(Port(2), 50)];
    RunSnoc(EXAMPLE, [Arrive(Port(1), 0)], Arrive(Port(2), 50));
  }

  lemma ThirdOvertakes()
    ensures var r := Run(EXAMPLE, [Arrive(Port(1), 0), Arrive(Port(2), 50), Arrive(Port(3), 100)]);
            && r.Some? && r.value.now == 100
            && r.value.sleepers.Keys == {Port(2)} && r.value.sleepers[Port(2)].pacer == 0
              && r.value.sleepers[Port(2)].due == 100
            && r.value.log == [Released(CLIENT, 0, None), Released(CLIENT, 100, None)]
  {
    hide Run, LastIndex;
    SecondDelayed();
    var two := [Arrive(Port(1), 0), Arrive(Port(2), 50)];
    assert two + [Arrive(Port(3), 100)] == [Arrive(Port(1), 0), Arrive(Port(2), 50), Arrive(Port(3), 100)];
    RunSnoc(EXAMPLE, two, Arrive(Port(3), 100));
  }

  /** A timer that wakes one tick late lets a packet be accepted before it, and two releases come one tick apart. */
  lemma LateTimerBreaksSpacing() returns (evs: seq<Event>)
    ensures Run(EXAMPLE, evs).Some? && NoExpiry(evs)
    ensures TimesOf(Run(EXAMPLE, evs).value.log, CLIENT) == [0, 100, 101]
  {
    hide Run, LastIndex, TimesOf;
    ThirdOvertakes();
    var three := [Arrive(Port(1), 0), Arrive(Port(2), 50), Arrive(Port(3), 100)];
    evs := three + [Wake(Port(2), 101)];
    RunSnoc(EXAMPLE, three, Wake(Port(2), 101));
    var log := Run(EXAMPLE, evs).value.log;
    assert log == [] + [log[0]] + [log[1]] + [log[2]];
    NoTimes(CLIENT);
    TimesSnoc([], log[0], CLIENT);
    TimesSnoc([] + [log[0]], log[1], CLIENT);
    TimesSnoc([] + [log[0]] + [log[1]], log[2], CLIENT);
  }

  lemma EmptyRun()
    ensures Run(EXAMPLE, []) == Some(INITIAL)
  {
  }

  lemma NoTimes(ip: string)
    ensures TimesOf([], ip) == []
  {
  }
}
