/**
Shape mode over whole runs: arrivals, releases by sleeping goroutines and
expiry of idle pacers, each one step, in any order that the clock allows.
*/
module PacerRuns {
  import opened Wrappers
  import opened Pacer

  datatype Flow = Flow(ip: string, clientPort: int, serverPort: int, seqNum: int)

  /** A goroutine that will release its packet, on the pacer object it was started with. parent is history. */
  datatype Sleeper = Sleeper(pacer: nat, due: int, parent: int)

  /** A released packet; parent is the release that a delayed packet had to keep its distance from. */
  datatype Released = Released(ip: string, at: int, parent: Option<int>)

  datatype Verdict = FlowPending | Decided(decision: Decision)

  /**
  Pacer objects live in pacers and are named by position; byIP is the shared table, which may forget an
  object that a sleeper still refers to. The keys of sleepers are the pending-flow set and their number is
  the global counter.
  */
  datatype State = State(
    now: int,
    byIP: map<string, nat>,
    pacers: seq<PacerState>,
    sleepers: map<Flow, Sleeper>,
    log: seq<Released>,
    verdicts: seq<Verdict>)

  datatype Event =
    | Arrive(flow: Flow, at: int)
    | Wake(flow: Flow, at: int)
    | Expire(ip: string, tick: int)

  const INITIAL: State := State(0, map[], [], map[], [], [])

  predicate WellFormed(st: State)
  {
    && (forall ip :: ip in st.byIP ==> st.byIP[ip] < |st.pacers|)
    && (forall f :: f in st.sleepers ==> st.sleepers[f].pacer < |st.pacers|)
  }

  /** Time does not run backwards, and a sleeper never wakes before it is due. */
  predicate Enabled(st: State, ev: Event)
  {
    match ev
    case Arrive(_, at) => st.now <= at
    case Wake(f, at) => st.now <= at && f in st.sleepers && st.sleepers[f].due <= at
    case Expire(_, _) => true
  }

  /** The position of the client's last release in the log, or -1. */
  function LastIndex(log: seq<Released>, ip: string): (i: int)
    ensures -1 <= i < |log|
    ensures i >= 0 ==> log[i].ip == ip
    ensures forall j :: i < j < |log| ==> log[j].ip != ip
  {
    if log == [] then -1
    else if log[|log| - 1].ip == ip then |log| - 1
    else LastIndex(log[..|log| - 1], ip)
  }

  /** LoadOrStore: the client's pacer object, made if it is missing. */
  function Loaded(st: State, ip: string): (r: State)
    requires WellFormed(st)
    ensures WellFormed(r) && ip in r.byIP
  {
    if ip in st.byIP then st
    else st.(byIP := st.byIP[ip := |st.pacers|], pacers := st.pacers + [FRESH])
  }

  function ArriveAt(cfg: Config, st0: State, flow: Flow, at: int): (r: State)
    requires WellFormed(st0)
    ensures WellFormed(r)
  {
    if flow in st0.sleepers then st0.(now := at, verdicts := st0.verdicts + [FlowPending])
    else
      var st := Loaded(st0, flow.ip);
      var id := st.byIP[flow.ip];
      var d := Decide(cfg, st.pacers[id], at, |st.sleepers|);
      var r := st.(now := at, pacers := st.pacers[id := AfterArrival(st.pacers[id], at, d)],
                   verdicts := st.verdicts + [Decided(d)]);
      match d
      case Release => r.(log := st.log + [Released(flow.ip, at, None)])
      case Delay(delay) => r.(sleepers := st.sleepers[flow := Sleeper(id, at + delay, LastIndex(st.log, flow.ip))])
      case _ => r
  }

  function WakeAt(st: State, flow: Flow, at: int): (r: State)
    requires WellFormed(st) && flow in st.sleepers
    ensures WellFormed(r)
  {
    var s := st.sleepers[flow];
    st.(now := at, pacers := st.pacers[s.pacer := AfterRelease(at)], sleepers := st.sleepers - {flow},
        log := st.log + [Released(flow.ip, at, Some(s.parent))])
  }

  function ExpireAt(cfg: Config, st: State, ip: string, tick: int): (r: State)
    requires WellFormed(st)
    ensures WellFormed(r)
  {
    var later := st.(now := if st.now < tick then tick else st.now);
    if ip in st.byIP && Stale(st.pacers[st.byIP[ip]], tick, cfg.ttl) then later.(byIP := st.byIP - {ip}) else later
  }

  function Step(cfg: Config, st: State, ev: Event): (r: State)
    requires WellFormed(st) && Enabled(st, ev)
    ensures WellFormed(r)
  {
    match ev
    case Arrive(flow, at) => ArriveAt(cfg, st, flow, at)
    case Wake(flow, at) => WakeAt(st, flow, at)
    case Expire(ip, tick) => ExpireAt(cfg, st, ip, tick)
  }

  /** The state after the events, if each was enabled in its turn. */
  function Run(cfg: Config, evs: seq<Event>): (r: Option<State>)
    ensures r.Some? ==> WellFormed(r.value)
  {
    if evs == [] then Some(INITIAL)
    else
      match Run(cfg, evs[..|evs| - 1])
      case None => None
      case Some(st) => if Enabled(st, evs[|evs| - 1]) then Some(Step(cfg, st, evs[|evs| - 1])) else None
  }

  /** The client's pacer, a new one if it has none. */
  function PacerOf(st: State, ip: string): PacerState
    requires WellFormed(st)
  {
    if ip in st.byIP then st.pacers[st.byIP[ip]] else FRESH
  }

  /** What an arrival does to its own client. */
  lemma ArriveEffect(cfg: Config, st: State, flow: Flow, at: int)
    requires WellFormed(st) && flow !in st.sleepers
    ensures var p, after := PacerOf(st, flow.ip), ArriveAt(cfg, st, flow, at);
            var d := Decide(cfg, p, at, |st.sleepers|);
            && after.now == at && flow.ip in after.byIP
            && (flow.ip in st.byIP ==> after.byIP[flow.ip] == st.byIP[flow.ip])
            && after.pacers[after.byIP[flow.ip]] == AfterArrival(p, at, d)
            && after.log == (if d.Release? then st.log + [Released(flow.ip, at, None)] else st.log)
            && after.sleepers == (if d.Delay? then
                                    st.sleepers[flow :=
                                      Sleeper(after.byIP[flow.ip], at + d.delay, LastIndex(st.log, flow.ip))]
                                  else st.sleepers)
            && after.verdicts == st.verdicts + [Decided(d)]
  {
    hide LastIndex, Decide;
  }

  /** The table of an arrival: one key more at most, and no two clients share a pacer. */
  lemma ArriveTable(cfg: Config, st: State, flow: Flow, at: int)
    requires WellFormed(st) && Injective(st)
    ensures var after := ArriveAt(cfg, st, flow, at);
            Injective(after) && (flow in st.sleepers ==> after.byIP == st.byIP && after.pacers == st.pacers)
  {
    hide LastIndex, Decide;
  }

  /** An arrival leaves other clients alone. */
  lemma ArriveFrame(cfg: Config, st: State, flow: Flow, at: int, ip: string)
    requires WellFormed(st) && Injective(st) && ip != flow.ip
    ensures var after := ArriveAt(cfg, st, flow, at);
            && (ip in after.byIP <==> ip in st.byIP)
            && (ip in st.byIP ==>
              after.byIP[ip] == st.byIP[ip] && after.pacers[after.byIP[ip]] == st.pacers[st.byIP[ip]])
            && (after.log == st.log || after.log == st.log + [Released(flow.ip, at, None)])
  {
    LoadedFrame(st, flow.ip, ip);
    hide LastIndex, Decide, Loaded, Injective;
  }

  /** Loading a pacer leaves other clients alone and gives the client one of its own. */
  lemma LoadedFrame(st: State, own: string, ip: string)
    requires WellFormed(st) && Injective(st) && ip != own
    ensures var loaded := Loaded(st, own);
            && loaded.log == st.log && (ip in loaded.byIP <==> ip in st.byIP)
            && (ip in st.byIP ==>
                  && loaded.byIP[ip] == st.byIP[ip] && loaded.pacers[loaded.byIP[ip]] == st.pacers[st.byIP[ip]]
                  && loaded.byIP[ip] != loaded.byIP[own])
  {
  }

  /** No two clients share a pacer. */
  ghost predicate Injective(st: State)
  {
    forall a, b :: a in st.byIP && b in st.byIP && st.byIP[a] == st.byIP[b] ==> a == b
  }

  lemma RunSnoc(cfg: Config, evs: seq<Event>, ev: Event)
    requires Run(cfg, evs).Some? && Enabled(Run(cfg, evs).value, ev)
    ensures Run(cfg, evs + [ev]) == Some(Step(cfg, Run(cfg, evs).value, ev))
  {
    assert (evs + [ev])[..|evs|] == evs;
  }

  // ----- one client and its flows, for runs that show what can happen -----

  const CLIENT: string := "10.0.0.1"

  function Port(n: int): Flow
  {
    Flow(CLIENT, n, 443, n)
  }

  // ----- what clients get -----

  /** The release times of one client. */
  function TimesOf(log: seq<Released>, ip: string): seq<int>
  {
    if log == [] then []
    else TimesOf(log[..|log| - 1], ip) + if log[|log| - 1].ip == ip then [log[|log| - 1].at] else []
  }

  lemma TimesSnoc(log: seq<Released>, r: Released, ip: string)
    ensures TimesOf(log + [r], ip) == if r.ip == ip then TimesOf(log, ip) + [r.at] else TimesOf(log, ip)
  {
    assert (log + [r])[..|log|] == log;
  }

  lemma LastSnoc(log: seq<Released>, r: Released, ip: string)
    ensures LastIndex(log + [r], ip) == if r.ip == ip then |log| else LastIndex(log, ip)
  {
    assert (log + [r])[..|log|] == log;
  }
}
