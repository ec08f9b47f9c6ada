/** The shape branch of the handler, its releasing goroutines and its cleanup loop on shared pacer objects. */
module ShapeHandler {
  import opened Pacer
  import opened PacerRuns

  /** What a releasing goroutine was started with. */
  datatype Delayed = Delayed(pacer: BurstPacerState, due: int)

  /** The handler's tables: the shared pacers, the pending flows with their goroutines, and the counter. */
  datatype Tables = Tables(byIP: map<string, BurstPacerState>, delayed: map<Flow, Delayed>, pendingDelays: int)

  /** The tables refer to the objects that the state names by position. */
  ghost predicate TablesMatch(t: Tables, objects: seq<BurstPacerState>, st: State)
    requires WellFormed(st)
  {
    && |objects| == |st.pacers|
    && (forall i, j :: 0 <= i < j < |objects| ==> objects[i] != objects[j])
    && t.byIP.Keys == st.byIP.Keys
    && (forall ip :: ip in st.byIP ==> t.byIP[ip] == objects[st.byIP[ip]])
    && t.delayed.Keys == st.sleepers.Keys
    && (forall f :: f in st.sleepers ==>
          t.delayed[f].pacer == objects[st.sleepers[f].pacer] && t.delayed[f].due == st.sleepers[f].due)
    && t.pendingDelays == |st.sleepers|
  }

  /** Each object holds the value that the state gives it. */
  ghost predicate ObjectsMatch(objects: seq<BurstPacerState>, pacers: seq<PacerState>)
    reads objects
  {
    |objects| == |pacers| && forall i :: 0 <= i < |objects| ==> objects[i].Abs() == pacers[i]
  }

  class Handler {
    const cfg: Config
    var burstPacerByIP: map<string, BurstPacerState>
    var delayed: map<Flow, Delayed>
    var pendingDelays: int
    ghost var objects: seq<BurstPacerState>   // every pacer ever made
    ghost var st: State                       // the state of the run so far

    ghost predicate Valid()
      reads this, objects
    {
      && WellFormed(st)
      && TablesMatch(Tables(burstPacerByIP, delayed, pendingDelays), objects, st)
      && ObjectsMatch(objects, st.pacers)
    }

    constructor (cfg: Config)
      ensures Valid() && this.cfg == cfg && st == INITIAL && objects == []
    {
      this.cfg := cfg;
      burstPacerByIP, delayed, pendingDelays := map[], map[], 0;
      objects, st := [], INITIAL;
    }

    /** The pacer object of a client; a new one is stored if there is none. */
    method LoadOrStore(ip: string) returns (pacer: BurstPacerState)
      requires Valid()
      modifies this`burstPacerByIP, this`objects, this`st
      ensures Valid() && st == Loaded(old(st), ip)
      ensures old(objects) <= objects && fresh(objects[|old(objects)|..])
      ensures pacer == objects[st.byIP[ip]] && (pacer in old(objects) || fresh(pacer))
    {
      hide TablesMatch;
      ghost var before := Tables(burstPacerByIP, delayed, pendingDelays);
      EntryMatches(before, objects, st, ip);
      if ip in burstPacerByIP {
        return burstPacerByIP[ip];
      }
      pacer := new BurstPacerState();
      StoredMatches(before, objects, st, ip, pacer);
      burstPacerByIP := burstPacerByIP[ip := pacer];
      objects := objects + [pacer];
      st := Loaded(st, ip);
    }

    method HandleSyn(flow: Flow, at: int) returns (v: Verdict)
      requires Valid() && st.now <= at
      modifies this, objects
      ensures Valid() && st == ArriveAt(cfg, old(st), flow, at)
      ensures st.verdicts == old(st.verdicts) + [v]
      ensures old(objects) <= objects && fresh(objects[|old(objects)|..])
    {
      hide ArriveAt, TablesMatch, Loaded;
      PendingMatches(Tables(burstPacerByIP, delayed, pendingDelays), objects, st, flow);
      if flow in delayed {
        KnownFlow(cfg, Tables(burstPacerByIP, delayed, pendingDelays), objects, st, flow, at);
        st := ArriveAt(cfg, st, flow, at);
        return FlowPending;
      }
      ghost var start := st;
      var pacer := LoadOrStore(flow.ip);
      LoadedFirst(cfg, start, flow, at);
      var d := Pace(pacer, flow, at);
      v := Decided(d);
    }

    /** The critical section of an arriving packet, and the start of a goroutine if it is delayed. */
    method Pace(pacer: BurstPacerState, flow: Flow, at: int) returns (d: Decision)
      requires Valid() && flow !in st.sleepers && flow.ip in st.byIP && pacer == objects[st.byIP[flow.ip]]
      modifies this`delayed, this`pendingDelays, this`st, pacer
      ensures Valid() && st == ArriveAt(cfg, old(st), flow, at)
      ensures st.verdicts == old(st.verdicts) + [Decided(d)]
    {
      hide ArriveAt, TablesMatch;
      ghost var start, id := st, st.byIP[flow.ip];
      ghost var before := Tables(burstPacerByIP, delayed, pendingDelays);
      MatchFacts(before, objects, start, flow.ip);
      ArriveMatches(cfg, before, objects, start, flow, at);
      ArriveFields(cfg, start, flow, at);
      d := pacer.Arrive(cfg, at, pendingDelays);
      if d.Delay? {
        delayed := delayed[flow := Delayed(pacer, at + d.delay)];
        pendingDelays := pendingDelays + 1;
      }
      st := ArriveAt(cfg, start, flow, at);
    }

    /** The body of the goroutine that was started for the flow, after its sleep. */
    method ReleaseFlow(flow: Flow, at: int)
      requires Valid() && Enabled(st, Wake(flow, at))
      modifies this, objects
      ensures Valid() && st == WakeAt(old(st), flow, at) && objects == old(objects)
    {
      hide WakeAt, TablesMatch;
      WakeMatches(Tables(burstPacerByIP, delayed, pendingDelays), objects, st, flow, at);
      WakeTables(Tables(burstPacerByIP, delayed, pendingDelays), objects, st, flow, at);
      var pacer := delayed[flow].pacer;
      pacer.ReleaseAt(at);
      delayed := delayed - {flow};
      pendingDelays := pendingDelays - 1;
      st := WakeAt(st, flow, at);
    }

    /** One turn of the cleanup loop, with the test and the delete taken together. */
    method ExpireClient(ip: string, tick: int) returns (removed: bool)
      requires Valid() && ip in burstPacerByIP
      modifies this`burstPacerByIP, this`st
      ensures Valid() && st == ExpireAt(cfg, old(st), ip, tick)
      ensures removed == (ip !in burstPacerByIP)
    {
      hide ExpireAt, TablesMatch;
      EntryMatches(Tables(burstPacerByIP, delayed, pendingDelays), objects, st, ip);
      ExpireMatches(cfg, Tables(burstPacerByIP, delayed, pendingDelays), objects, st, ip, tick);
      removed := burstPacerByIP[ip].IsStale(tick, cfg.ttl);
      if removed {
        burstPacerByIP := burstPacerByIP - {ip};
      }
      st := ExpireAt(cfg, st, ip, tick);
    }
  }

  // ----- what the steps do to the tables -----

  lemma PendingMatches(t: Tables, objects: seq<BurstPacerState>, st: State, flow: Flow)
    requires WellFormed(st) && TablesMatch(t, objects, st)
    ensures flow in t.delayed <==> flow in st.sleepers
  {
  }

  /** Loading the pacer first makes no difference to the run step. */
  lemma LoadedFirst(cfg: Config, st: State, flow: Flow, at: int)
    requires WellFormed(st) && flow !in st.sleepers
    ensures var loaded := Loaded(st, flow.ip);
            && loaded.sleepers == st.sleepers && loaded.verdicts == st.verdicts
            && ArriveAt(cfg, loaded, flow, at) == ArriveAt(cfg, st, flow, at)
  {
    hide LastIndex, Decide;
  }

  lemma KnownFlow(cfg: Config, t: Tables, objects: seq<BurstPacerState>, st: State, flow: Flow, at: int)
    requires WellFormed(st) && TablesMatch(t, objects, st) && flow in st.sleepers
    ensures TablesMatch(t, objects, ArriveAt(cfg, st, flow, at))
    ensures ArriveAt(cfg, st, flow, at).pacers == st.pacers
    ensures ArriveAt(cfg, st, flow, at).verdicts == st.verdicts + [FlowPending]
  {
  }

  /** The fields of the state after an arrival whose flow is not pending and whose pacer is in the table. */
  lemma ArriveFields(cfg: Config, st: State, flow: Flow, at: int)
    requires WellFormed(st) && flow !in st.sleepers && flow.ip in st.byIP
    ensures var id, after := st.byIP[flow.ip], ArriveAt(cfg, st, flow, at);
            var d := Decide(cfg, st.pacers[id], at, |st.sleepers|);
            && after.byIP == st.byIP && |after.pacers| == |st.pacers|
            && after.pacers == st.pacers[id := AfterArrival(st.pacers[id], at, d)]
            && after.verdicts == st.verdicts + [Decided(d)]
            && (if d.Delay? then
                  flow in after.sleepers && after.sleepers == st.sleepers[flow := after.sleepers[flow]]
                  && after.sleepers[flow].pacer == id && after.sleepers[flow].due == at + d.delay
                else after.sleepers == st.sleepers)
  {
    hide LastIndex, Decide;
  }

  lemma DelayMatches(t: Tables, objects: seq<BurstPacerState>, st: State, after: State, flow: Flow)
    requires WellFormed(st) && WellFormed(after) && TablesMatch(t, objects, st) && flow !in st.sleepers
    requires after.byIP == st.byIP && |after.pacers| == |st.pacers|
    requires flow in after.sleepers && after.sleepers == st.sleepers[flow := after.sleepers[flow]]
    ensures TablesMatch(
              t.(delayed := t.delayed[flow := Delayed(objects[after.sleepers[flow].pacer], after.sleepers[flow].due)],
                 pendingDelays := t.pendingDelays + 1), objects, after)
  {
    NewSleeper(st.sleepers, flow, after.sleepers[flow]);
  }

  lemma UndelayedMatches(t: Tables, objects: seq<BurstPacerState>, st: State, after: State)
    requires WellFormed(st) && WellFormed(after) && TablesMatch(t, objects, st)
    requires after.byIP == st.byIP && |after.pacers| == |st.pacers| && after.sleepers == st.sleepers
    ensures TablesMatch(t, objects, after)
  {
  }

  lemma MatchFacts(t: Tables, objects: seq<BurstPacerState>, st: State, ip: string)
    requires WellFormed(st) && TablesMatch(t, objects, st) && ip in st.byIP
    ensures st.byIP[ip] < |objects| && |objects| == |st.pacers| && t.pendingDelays == |st.sleepers|
    ensures forall i, j :: 0 <= i < j < |objects| ==> objects[i] != objects[j]
  {
  }

  lemma ArriveMatches(cfg: Config, t: Tables, objects: seq<BurstPacerState>, st: State, flow: Flow, at: int)
    requires WellFormed(st) && flow !in st.sleepers && flow.ip in st.byIP
    requires TablesMatch(t, objects, st) && st.byIP[flow.ip] < |objects|
    ensures var d := Decide(cfg, st.pacers[st.byIP[flow.ip]], at, |st.sleepers|);
            TablesMatch(
              if d.Delay? then
                t.(delayed := t.delayed[flow := Delayed(objects[st.byIP[flow.ip]], at + d.delay)],
                   pendingDelays := t.pendingDelays + 1)
              else t, objects, ArriveAt(cfg, st, flow, at))
  {
    hide ArriveAt, Decide, TablesMatch;
    var after := ArriveAt(cfg, st, flow, at);
    ArriveFields(cfg, st, flow, at);
    if Decide(cfg, st.pacers[st.byIP[flow.ip]], at, |st.sleepers|).Delay? {
      DelayMatches(t, objects, st, after, flow);
    } else {
      UndelayedMatches(t, objects, st, after);
    }
  }

  lemma WakeMatches(t: Tables, objects: seq<BurstPacerState>, st: State, flow: Flow, at: int)
    requires WellFormed(st) && TablesMatch(t, objects, st) && flow in st.sleepers
    ensures flow in t.delayed
    ensures var id := st.sleepers[flow].pacer;
            && id < |objects| && |objects| == |st.pacers| && t.delayed[flow].pacer == objects[id]
            && (forall i, j :: 0 <= i < j < |objects| ==> objects[i] != objects[j])
            && WakeAt(st, flow, at).pacers == st.pacers[id := AfterRelease(at)]
  {
  }

  lemma WakeTables(t: Tables, objects: seq<BurstPacerState>, st: State, flow: Flow, at: int)
    requires WellFormed(st) && TablesMatch(t, objects, st) && flow in st.sleepers
    ensures TablesMatch(
              t.(delayed := t.delayed - {flow}, pendingDelays := t.pendingDelays - 1), objects, WakeAt(st, flow, at))
  {
    LessSleeper(st.sleepers, flow);
  }

  lemma StoredMatches(t: Tables, objects: seq<BurstPacerState>, st: State, ip: string, pacer: BurstPacerState)
    requires WellFormed(st) && TablesMatch(t, objects, st) && ip !in st.byIP && pacer !in objects
    ensures |objects| == |st.pacers|
    ensures TablesMatch(t.(byIP := t.byIP[ip := pacer]), objects + [pacer], Loaded(st, ip))
  {
  }

  lemma EntryMatches(t: Tables, objects: seq<BurstPacerState>, st: State, ip: string)
    requires WellFormed(st) && TablesMatch(t, objects, st)
    ensures ip in t.byIP <==> ip in st.byIP
    ensures ip in t.byIP ==> st.byIP[ip] < |objects| == |st.pacers| && t.byIP[ip] == objects[st.byIP[ip]]
  {
  }

  lemma ExpireMatches(cfg: Config, t: Tables, objects: seq<BurstPacerState>, st: State, ip: string, tick: int)
    requires WellFormed(st) && TablesMatch(t, objects, st) && ip in st.byIP
    ensures ExpireAt(cfg, st, ip, tick).pacers == st.pacers
    ensures TablesMatch(
              if Stale(st.pacers[st.byIP[ip]], tick, cfg.ttl) then t.(byIP := t.byIP - {ip}) else t,
              objects, ExpireAt(cfg, st, ip, tick))
  {
    hide Stale;
    if Stale(st.pacers[st.byIP[ip]], tick, cfg.ttl) {
      Removed(t, objects, st, ExpireAt(cfg, st, ip, tick), ip);
    }
  }

  /** A client that leaves the table takes nothing else with it. */
  lemma Removed(t: Tables, objects: seq<BurstPacerState>, st: State, after: State, ip: string)
    requires WellFormed(st) && WellFormed(after) && TablesMatch(t, objects, st)
    requires after.byIP == st.byIP - {ip} && after.pacers == st.pacers && after.sleepers == st.sleepers
    ensures TablesMatch(t.(byIP := t.byIP - {ip}), objects, after)
  {
    assert t.byIP.Keys - {ip} == st.byIP.Keys - {ip};
  }

  lemma NewSleeper(m: map<Flow, Sleeper>, f: Flow, s: Sleeper)
    requires f !in m
    ensures |m[f := s]| == |m| + 1
  {
    assert m[f := s].Keys == m.Keys + {f};
    assert |m.Keys + {f}| == |m.Keys| + 1;
  }

  lemma LessSleeper(m: map<Flow, Sleeper>, f: Flow)
    requires f in m
    ensures |m - {f}| == |m| - 1
  {
    assert (m - {f}).Keys == m.Keys - {f};
    assert |m.Keys - {f}| == |m.Keys| - 1;
  }
}
