/**
The pacer of one client in the steps that the program takes: the handler reads the clock, loads the client's pacer
from the shared table and enters its critical section one after the other, and the cleanup loop first tests a pacer
and only later deletes its table entry. Goroutines may release in between. Packets of other clients appear as the
passing of time and as the number of their delayed packets.
*/
module PacerRaces {
  import opened Wrappers
  import opened Counting
  import opened Pacer
  import PacerRuns

  type Flow = PacerRuns.Flow

  datatype Sleeper = Sleeper(pacer: nat, due: int)

  /** The handler between its clock reading and LoadOrStore. */
  datatype Reading = Reading(flow: Flow, at: int)

  /** The handler between LoadOrStore and its critical section: the pacer it holds and the clock it has read. */
  datatype Held = Held(flow: Flow, pacer: nat, at: int)

  /** entry is the position of the client's pacer among all that were made; doomed is set between test and delete. */
  datatype Client = Client(
    now: int,
    entry: Option<nat>,
    pacers: seq<PacerState>,
    sleepers: map<Flow, Sleeper>,
    reading: Option<Reading>,
    held: Option<Held>,
    doomed: bool,
    times: seq<int>)

  datatype Action =
    | Read(flow: Flow, at: int)
    | Load
    | Settle(others: nat)
    | Wake(flow: Flow, at: int)
    | Test(tick: int)
    | Delete(at: int)

  const NEW: Client := Client(0, None, [], map[], None, None, false, [])

  predicate Sound(c: Client)
  {
    && (c.entry.Some? ==> c.entry.value < |c.pacers|)
    && (c.held.Some? ==> c.held.value.pacer < |c.pacers|)
    && (forall f :: f in c.sleepers ==> c.sleepers[f].pacer < |c.pacers|)
  }

  predicate Possible(c: Client, a: Action)
  {
    match a
    case Read(_, at) => c.reading.None? && c.held.None? && c.now <= at
    case Load => c.reading.Some?
    case Settle(_) => c.held.Some?
    case Wake(f, at) => c.now <= at && f in c.sleepers && c.sleepers[f].due <= at
    case Test(_) => !c.doomed
    case Delete(at) => c.doomed && c.now <= at
  }

  /** The lookup of the flow among those that sleep, and LoadOrStore. */
  function LoadPacer(c: Client): (r: Client)
    requires Sound(c) && c.reading.Some?
    ensures Sound(r)
  {
    var Reading(flow, at) := c.reading.value;
    var id := if c.entry.Some? then c.entry.value else |c.pacers|;
    if flow in c.sleepers then c.(reading := None)
    else
      c.(reading := None, held := Some(Held(flow, id, at)), entry := Some(id),
         pacers := if c.entry.Some? then c.pacers else c.pacers + [FRESH])
  }

  function SettleWith(cfg: Config, c: Client, others: nat): (r: Client)
    requires Sound(c) && c.held.Some?
    ensures Sound(r)
  {
    var Held(flow, id, at) := c.held.value;
    var d := Decide(cfg, c.pacers[id], at, others + |c.sleepers|);
    var r := c.(held := None, pacers := c.pacers[id := AfterArrival(c.pacers[id], at, d)]);
    match d
    case Release => r.(times := c.times + [at])
    case Delay(delay) => r.(sleepers := c.sleepers[flow := Sleeper(id, at + delay)])
    case _ => r
  }

  function WakeAt(c: Client, flow: Flow, at: int): (r: Client)
    requires Sound(c) && flow in c.sleepers
    ensures Sound(r)
  {
    c.(now := at, pacers := c.pacers[c.sleepers[flow].pacer := AfterRelease(at)], sleepers := c.sleepers - {flow},
       times := c.times + [at])
  }

  function Step(cfg: Config, c: Client, a: Action): (r: Client)
    requires Sound(c) && Possible(c, a)
    ensures Sound(r)
  {
    match a
    case Read(flow, at) => c.(now := at, reading := Some(Reading(flow, at)))
    case Load => LoadPacer(c)
    case Settle(others) => SettleWith(cfg, c, others)
    case Wake(flow, at) => WakeAt(c, flow, at)
    case Test(tick) =>
      c.(now := if c.now < tick then tick else c.now,
         doomed := c.entry.Some? && Stale(c.pacers[c.entry.value], tick, cfg.ttl))
    case Delete(at) => c.(now := at, entry := None, doomed := false)
  }

  // ----- what a delete must leave alone -----

  /** The handler decides on a clock that is at least a release and a release overdue: the accept would overtake it. */
  ghost predicate Overtakes(c: Client, a: Action)
  {
    a.Settle? && c.held.Some? && exists f :: f in c.sleepers && c.sleepers[f].due <= c.held.value.at
  }

  /** A handler that holds the pacer will accept so far in the past that it does not matter, or drop. */
  predicate HarmlessTo(cfg: Config, p: PacerState, heldAt: int, at: int)
  {
    if Expired(cfg, p, heldAt) then heldAt + cfg.interval <= at else Decide(cfg, p, heldAt, 0).TooLong?
  }

  /**
  The entry can go: its last release is an interval ago, also for a handler that has read its clock and will find no
  entry, none is pending, and a handler that holds the pacer does no harm.
  */
  predicate Harmless(cfg: Config, c: Client, at: int)
    requires Sound(c)
  {
    c.entry.Some? &&
    var p := c.pacers[c.entry.value];
    && Expired(cfg, p, at) && !p.pending
    && (c.reading.Some? ==> Expired(cfg, p, c.reading.value.at))
    && (c.held.Some? ==> HarmlessTo(cfg, p, c.held.value.at, at))
  }

  ghost predicate Careful(cfg: Config, c: Client, a: Action)
    requires Sound(c)
  {
    Possible(c, a) && !Overtakes(c, a) && (a.Delete? ==> Harmless(cfg, c, a.at))
  }

  /** The client after the actions, if each was possible in its turn, overtook nothing and deleted harmlessly. */
  ghost function Run(cfg: Config, c: Client, actions: seq<Action>): (r: Option<Client>)
    requires Sound(c)
    ensures r.Some? ==> Sound(r.value)
    decreases |actions|
  {
    if actions == [] then Some(c)
    else if Careful(cfg, c, actions[0]) then Run(cfg, Step(cfg, c, actions[0]), actions[1..])
    else None
  }

  // ----- the invariant -----

  /** The pacer holds the client's last release. */
  predicate Records(p: PacerState, times: seq<int>)
  {
    p.lastRelease == if times == [] then Never else At(times[|times| - 1])
  }

  predicate Rested(cfg: Config, times: seq<int>, now: int)
  {
    times != [] ==> times[|times| - 1] + cfg.interval <= now
  }

  /** The entry is up to date, or it is new and the handler is about to use it. */
  predicate EntryOk(cfg: Config, c: Client)
    requires Sound(c)
  {
    match c.entry
    case None => Rested(cfg, c.times, if c.reading.Some? then c.reading.value.at else c.now)
    case Some(id) =>
      var p := c.pacers[id];
      && (Records(p, c.times) || (p == FRESH && c.held.Some? && Rested(cfg, c.times, c.held.value.at)))
      && (c.doomed ==> p.lastSeen.At?)
      && (p.pending ==> c.sleepers != map[])
  }

  /** The handler holds the entry, or a deleted pacer with which it can do no harm. */
  predicate HeldOk(cfg: Config, c: Client)
    requires Sound(c)
  {
    c.held.Some? ==>
      var Held(flow, id, at) := c.held.value;
      && flow !in c.sleepers && at <= c.now
      && match c.entry
         case Some(e) => e == id
         case None => Records(c.pacers[id], c.times) && HarmlessTo(cfg, c.pacers[id], at, c.now)
  }

  predicate SleeperOk(cfg: Config, c: Client, f: Flow)
    requires Sound(c) && f in c.sleepers
  {
    var p := c.pacers[c.sleepers[f].pacer];
    && c.entry == Some(c.sleepers[f].pacer) && p.pending && p.lastRelease.At?
    && c.sleepers[f].due == p.lastRelease.t + cfg.interval && c.sleepers.Keys == {f}
  }

  ghost predicate Inv(cfg: Config, c: Client)
  {
    && Sound(c) && Spaced(c.times, cfg.interval) && (c.times != [] ==> c.times[|c.times| - 1] <= c.now)
    && EntryOk(cfg, c) && HeldOk(cfg, c) && (c.doomed ==> c.entry.Some?)
    && (c.reading.Some? ==> c.held.None? && c.reading.value.at <= c.now)
    && forall f :: f in c.sleepers ==> SleeperOk(cfg, c, f)
  }

  lemma SettleEntryInv(cfg: Config, c: Client, others: nat)
    requires Inv(cfg, c) && Validated(cfg) && Careful(cfg, c, Settle(others)) && c.entry.Some?
    ensures Inv(cfg, Step(cfg, c, Settle(others)))
  {
    hide Spaced;
    if Expired(cfg, c.pacers[c.held.value.pacer], c.held.value.at) {
      SpacedSnoc(c.times, cfg.interval, c.held.value.at);
    }
  }

  lemma SettleOrphanInv(cfg: Config, c: Client, others: nat)
    requires Inv(cfg, c) && Validated(cfg) && Careful(cfg, c, Settle(others)) && c.entry.None?
    ensures Inv(cfg, Step(cfg, c, Settle(others)))
  {
    hide Spaced;
    if Expired(cfg, c.pacers[c.held.value.pacer], c.held.value.at) {
      SpacedSnoc(c.times, cfg.interval, c.held.value.at);
    }
  }

  lemma WakeInv(cfg: Config, c: Client, flow: Flow, at: int)
    requires Inv(cfg, c) && Validated(cfg) && Careful(cfg, c, Wake(flow, at))
    ensures Inv(cfg, Step(cfg, c, Wake(flow, at)))
  {
    hide Spaced;
    assert SleeperOk(cfg, c, flow);
    SpacedSnoc(c.times, cfg.interval, at);
  }

  lemma StepInv(cfg: Config, c: Client, a: Action)
    requires Inv(cfg, c) && Validated(cfg) && Careful(cfg, c, a)
    ensures Inv(cfg, Step(cfg, c, a))
  {
    hide Spaced;
    match a
    case Settle(others) =>
      if c.entry.Some? {
        SettleEntryInv(cfg, c, others);
      } else {
        SettleOrphanInv(cfg, c, others);
      }
    case Wake(flow, at) => WakeInv(cfg, c, flow, at);
    case _ =>
  }

  lemma {:induction false} RunInv(cfg: Config, c: Client, actions: seq<Action>)
    requires Inv(cfg, c) && Validated(cfg) && Run(cfg, c, actions).Some?
    ensures Inv(cfg, Run(cfg, c, actions).value)
    decreases |actions|
  {
    hide Spaced, EntryOk, HeldOk, SleeperOk, Overtakes, Harmless, Step;
    if actions != [] {
      StepInv(cfg, c, actions[0]);
      RunInv(cfg, Step(cfg, c, actions[0]), actions[1..]);
    }
  }

  lemma NewInv(cfg: Config)
    ensures Inv(cfg, NEW)
  {
  }

  /** However the steps interleave: with prompt timers and harmless deletes, releases keep the interval. */
  lemma CarefulRateBound(cfg: Config, actions: seq<Action>, low: int, high: int)
    requires Validated(cfg) && Run(cfg, NEW, actions).Some? && low <= high
    ensures var times := Run(cfg, NEW, actions).value.times;
            Spaced(times, cfg.interval) && CountIn(times, low, high) <= 1 + (high - low) / cfg.interval
  {
    hide Run;
    NewInv(cfg);
    RunInv(cfg, NEW, actions);
    WindowBound(Run(cfg, NEW, actions).value.times, cfg.interval, low, high);
  }

  // ----- a delete is safe exactly when it is harmless -----

  /** Whatever careful steps follow, the releases keep the interval. */
  ghost predicate SafeFrom(cfg: Config, c: Client)
    requires Sound(c)
  {
    forall actions :: Run(cfg, c, actions).Some? ==> Spaced(Run(cfg, c, actions).value.times, cfg.interval)
  }

  /** A careful step that leads to an unsafe client makes this one unsafe. */
  lemma UnsafeStep(cfg: Config, c: Client, a: Action)
    requires Sound(c) && Careful(cfg, c, a) && !SafeFrom(cfg, Step(cfg, c, a))
    ensures !SafeFrom(cfg, c)
  {
    hide Overtakes, Harmless, Step, Spaced;
    var after := Step(cfg, c, a);
    var actions :| Run(cfg, after, actions).Some? && !Spaced(Run(cfg, after, actions).value.times, cfg.interval);
    assert ([a] + actions)[1..] == actions;
    assert Run(cfg, c, [a] + actions) == Run(cfg, after, actions);
  }

  lemma UnsafeNow(cfg: Config, c: Client, i: nat)
    requires Sound(c) && i + 1 < |c.times| && c.times[i + 1] - c.times[i] < cfg.interval
    ensures !SafeFrom(cfg, c)
  {
    assert Run(cfg, c, []) == Some(c);
  }

  function Another(flow: Flow): (other: Flow)
    ensures other != flow
  {
    flow.(seqNum := flow.seqNum + 1)
  }

  /** Without an entry a packet is accepted on the clock that the handler has read, whatever the last release was. */
  lemma ReaderAccepts(cfg: Config, c: Client)
    requires Sound(c) && Validated(cfg) && c.entry.None? && c.held.None? && c.reading.Some?
    requires c.reading.value.flow !in c.sleepers
    requires forall f :: f in c.sleepers ==> c.sleepers[f].due > c.reading.value.at
    requires c.times != [] && c.times[|c.times| - 1] + cfg.interval > c.reading.value.at
    ensures !SafeFrom(cfg, c)
  {
    hide SafeFrom;
    var loaded := Step(cfg, c, Load);
    var after := Step(cfg, loaded, Settle(0));
    assert after.times == c.times + [c.reading.value.at];
    UnsafeNow(cfg, after, |c.times| - 1);
    UnsafeStep(cfg, loaded, Settle(0));
    UnsafeStep(cfg, c, Load);
  }

  /** And so is the next packet. */
  lemma MissingEntryAccepts(cfg: Config, c: Client, flow: Flow)
    requires Sound(c) && Validated(cfg) && c.entry.None? && c.held.None? && c.reading.None? && flow !in c.sleepers
    requires forall f :: f in c.sleepers ==> c.sleepers[f].due > c.now
    requires c.times != [] && c.times[|c.times| - 1] + cfg.interval > c.now
    ensures !SafeFrom(cfg, c)
  {
    hide SafeFrom;
    ReaderAccepts(cfg, Step(cfg, c, Read(flow, c.now)));
    UnsafeStep(cfg, c, Read(flow, c.now));
  }

  /** A sleeper whose pacer lost its entry releases, and the next packet is accepted no later. */
  lemma OrphanedSleeperHarms(cfg: Config, c: Client, flow: Flow)
    requires Sound(c) && Validated(cfg) && c.entry.None? && flow in c.sleepers && c.sleepers.Keys == {flow}
    requires c.held.Some? ==>
               && c.reading.None? && c.held.value.flow != flow && c.held.value.at <= c.now
               && c.held.value.pacer == c.sleepers[flow].pacer
    requires c.reading.Some? ==> c.reading.value.at <= c.now
    ensures !SafeFrom(cfg, c)
  {
    hide SafeFrom;
    var due := c.sleepers[flow].due;
    var at := if due < c.now then c.now else due;
    var woken := Step(cfg, c, Wake(flow, at));
    if c.reading.Some? {
      ReaderAccepts(cfg, woken);
    } else if c.held.None? {
      MissingEntryAccepts(cfg, woken, flow);
    } else {
      MissingEntryAccepts(cfg, Step(cfg, woken, Settle(0)), Another(c.held.value.flow));
      UnsafeStep(cfg, woken, Settle(0));
    }
    UnsafeStep(cfg, c, Wake(flow, at));
  }

  lemma SleeperPends(cfg: Config, c: Client, f: Flow)
    requires Inv(cfg, c) && f in c.sleepers
    ensures c.entry.Some? && c.pacers[c.entry.value].pending && c.sleepers.Keys == {f}
    ensures c.sleepers[f].pacer == c.entry.value
  {
    assert SleeperOk(cfg, c, f);
  }

  lemma NoSleepers(cfg: Config, c: Client)
    requires Inv(cfg, c) && c.entry.Some? && !c.pacers[c.entry.value].pending
    ensures c.sleepers == map[]
  {
    hide SleeperOk;
    if c.sleepers != map[] {
      var f :| f in c.sleepers;
      SleeperPends(cfg, c, f);
    }
  }

  /** Deleting the entry of a pacer that the handler holds and can still use does harm. */
  lemma HeldDeleteHarms(cfg: Config, c: Client, at: int)
    requires Inv(cfg, c) && Validated(cfg) && Possible(c, Delete(at)) && c.held.Some?
    requires var p := c.pacers[c.entry.value];
             !p.pending && !(Expired(cfg, p, at) && HarmlessTo(cfg, p, c.held.value.at, at))
    ensures !SafeFrom(cfg, Step(cfg, c, Delete(at)))
  {
    hide SafeFrom, Spaced, SleeperOk;
    var deleted := Step(cfg, c, Delete(at));
    var settled := Step(cfg, deleted, Settle(0));
    var flow := c.held.value.flow;
    NoSleepers(cfg, c);
    if flow in settled.sleepers {
      OrphanedSleeperHarms(cfg, settled, flow);
    } else {
      MissingEntryAccepts(cfg, settled, flow);
    }
    UnsafeStep(cfg, deleted, Settle(0));
  }

  lemma DeleteHarms(cfg: Config, c: Client, at: int)
    requires Inv(cfg, c) && Validated(cfg) && Possible(c, Delete(at)) && !Harmless(cfg, c, at)
    ensures !SafeFrom(cfg, Step(cfg, c, Delete(at)))
  {
    hide SafeFrom, Spaced, SleeperOk;
    var p := c.pacers[c.entry.value];
    var deleted := Step(cfg, c, Delete(at));
    if p.pending {
      var f :| f in c.sleepers;
      SleeperPends(cfg, c, f);
      OrphanedSleeperHarms(cfg, deleted, f);
    } else if c.held.Some? {
      HeldDeleteHarms(cfg, c, at);
    } else {
      NoSleepers(cfg, c);
      if c.reading.Some? {
        ReaderAccepts(cfg, deleted);
      } else {
        MissingEntryAccepts(cfg, deleted, PacerRuns.Port(0));
      }
    }
  }

  /**
  After any careful run, deleting an entry is safe, whatever careful steps follow, if and only if it is harmless:
  the interval since the last release is over, also on the clock of a handler that has yet to load the pacer, no release
  is pending, and the handler holds the pacer only if it will drop its packet or accept it on a clock that is an
  interval old.
  */
  lemma DeleteSafeIff(cfg: Config, actions: seq<Action>, at: int)
    requires Validated(cfg) && Run(cfg, NEW, actions).Some? && Possible(Run(cfg, NEW, actions).value, Delete(at))
    ensures var c := Run(cfg, NEW, actions).value;
            SafeFrom(cfg, Step(cfg, c, Delete(at))) <==> Harmless(cfg, c, at)
  {
    hide Run, Spaced, Harmless, SafeFrom;
    NewInv(cfg);
    RunInv(cfg, NEW, actions);
    var c := Run(cfg, NEW, actions).value;
    if Harmless(cfg, c, at) {
      StepInv(cfg, c, Delete(at));
      InvSafe(cfg, Step(cfg, c, Delete(at)));
    } else {
      DeleteHarms(cfg, c, at);
    }
  }

  lemma InvSafe(cfg: Config, c: Client)
    requires Inv(cfg, c) && Validated(cfg)
    ensures SafeFrom(cfg, c)
  {
    hide Run, Spaced;
    forall actions | Run(cfg, c, actions).Some?
      ensures Spaced(Run(cfg, c, actions).value.times, cfg.interval)
    {
      RunInv(cfg, c, actions);
    }
  }

  // ----- the ways a delete does harm, all with prompt timers -----

  lemma {:induction false} RunSnoc(cfg: Config, c: Client, actions: seq<Action>, a: Action)
    requires Sound(c) && Run(cfg, c, actions).Some? && Careful(cfg, Run(cfg, c, actions).value, a)
    ensures Run(cfg, c, actions + [a]) == Some(Step(cfg, Run(cfg, c, actions).value, a))
    decreases |actions|
  {
    hide Overtakes, Harmless, Step;
    if actions == [] {
      assert (actions + [a])[1..] == [];
    } else {
      RunSnoc(cfg, Step(cfg, c, actions[0]), actions[1..], a);
      assert (actions + [a])[1..] == actions[1..] + [a];
    }
  }

  lemma RunNone(cfg: Config)
    ensures Run(cfg, NEW, []) == Some(NEW)
  {
  }

  /** A delete at that time is the next step of a careful run, and does harm. */
  ghost predicate HarmfulDelete(cfg: Config, actions: seq<Action>, at: int)
  {
    && Run(cfg, NEW, actions).Some? && Possible(Run(cfg, NEW, actions).value, Delete(at))
    && !SafeFrom(cfg, Step(cfg, Run(cfg, NEW, actions).value, Delete(at)))
  }

  lemma Extend(cfg: Config, actions: seq<Action>, c: Client, a: Action, after: Client)
    requires Sound(c) && Run(cfg, NEW, actions) == Some(c) && Careful(cfg, c, a) && Step(cfg, c, a) == after
    ensures Run(cfg, NEW, actions + [a]) == Some(after)
  {
    RunSnoc(cfg, NEW, actions, a);
  }

  /** A packet of a client that has an entry is read and loaded. */
  lemma ExtendArrival(cfg: Config, actions: seq<Action>, c: Client, flow: Flow, at: int)
    requires Sound(c) && Run(cfg, NEW, actions) == Some(c)
    requires c.reading.None? && c.held.None? && c.entry.Some? && c.now <= at && flow !in c.sleepers
    ensures Run(cfg, NEW, actions + [Read(flow, at), Load])
            == Some(c.(now := at, held := Some(Held(flow, c.entry.value, at))))
  {
    hide Run;
    var reading := c.(now := at, reading := Some(Reading(flow, at)));
    Extend(cfg, actions, c, Read(flow, at), reading);
    Extend(cfg, actions + [Read(flow, at)], reading, Load, c.(now := at, held := Some(Held(flow, c.entry.value, at))));
    assert actions + [Read(flow, at)] + [Load] == actions + [Read(flow, at), Load];
  }

  /** One packet that is accepted at time 0. */
  const FIRST: seq<Action> := [Read(PacerRuns.Port(1), 0), Load, Settle(0)]

  const ACCEPTED: Client := Client(0, Some(0), [AfterRelease(0)], map[], None, None, false, [0])

  lemma AcceptedAtZero(cfg: Config)
    requires Validated(cfg)
    ensures Run(cfg, NEW, FIRST) == Some(ACCEPTED)
  {
    hide Run;
    var flow := PacerRuns.Port(1);
    RunNone(cfg);
    var reading := NEW.(reading := Some(Reading(flow, 0)));
    Extend(cfg, [], NEW, Read(flow, 0), reading);
    var loaded := Client(0, Some(0), [FRESH], map[], None, Some(Held(flow, 0, 0)), false, []);
    Extend(cfg, [] + [Read(flow, 0)], reading, Load, loaded);
    Extend(cfg, [] + [Read(flow, 0)] + [Load], loaded, Settle(0), ACCEPTED);
    assert [] + [Read(flow, 0)] + [Load] + [Settle(0)] == FIRST;
  }

  const EXAMPLE: Config := Config(100, 50, 0, 100)

  const PACKET_AFTER_TEST: seq<Action> := FIRST + [Test(101)] + [Read(PacerRuns.Port(2), 101), Load] + [Settle(0)]

  /** A packet is accepted between the test of the pacer and its delete, and after it the next one a tick later. */
  lemma DeleteAfterCheckBreaksSpacing()
    ensures HarmfulDelete(EXAMPLE, PACKET_AFTER_TEST, 101)
    ensures Run(EXAMPLE, NEW, PACKET_AFTER_TEST)
            == Some(Client(101, Some(0), [AfterRelease(101)], map[], None, None, true, [0, 101]))
    ensures var deleted := Client(101, None, [AfterRelease(101)], map[], None, None, false, [0, 101]);
            && Step(EXAMPLE, Run(EXAMPLE, NEW, PACKET_AFTER_TEST).value, Delete(101)) == deleted
            && var read := Step(EXAMPLE, deleted, Read(PacerRuns.Port(3), 102));
               Step(EXAMPLE, Step(EXAMPLE, read, Load), Settle(0)).times == [0, 101, 102]
  {
    hide Run, SafeFrom;
    AcceptedAtZero(EXAMPLE);
    var c1 := ACCEPTED.(now := 101, doomed := true);
    Extend(EXAMPLE, FIRST, ACCEPTED, Test(101), c1);
    ExtendArrival(EXAMPLE, FIRST + [Test(101)], c1, PacerRuns.Port(2), 101);
    var c2 := c1.(held := Some(Held(PacerRuns.Port(2), 0, 101)));
    Extend(EXAMPLE, FIRST + [Test(101)] + [Read(PacerRuns.Port(2), 101), Load], c2, Settle(0),
           Client(101, Some(0), [AfterRelease(101)], map[], None, None, true, [0, 101]));
    DeleteSafeIff(EXAMPLE, PACKET_AFTER_TEST, 101);
  }

  const READ_BEFORE_DELETE: seq<Action> := FIRST + [Read(PacerRuns.Port(2), 99)] + [Test(101)]

  /**
  The pacer is tested and deleted at once, while the handler has read its clock but not yet loaded the pacer: the packet
  will be accepted on that clock.
  */
  lemma DeleteUnderReader()
    ensures HarmfulDelete(EXAMPLE, READ_BEFORE_DELETE, 101)
    ensures Run(EXAMPLE, NEW, READ_BEFORE_DELETE)
            == Some(ACCEPTED.(now := 101, reading := Some(Reading(PacerRuns.Port(2), 99)), doomed := true))
  {
    hide Run, SafeFrom;
    AcceptedAtZero(EXAMPLE);
    var c1 := ACCEPTED.(now := 99, reading := Some(Reading(PacerRuns.Port(2), 99)));
    Extend(EXAMPLE, FIRST, ACCEPTED, Read(PacerRuns.Port(2), 99), c1);
    Extend(EXAMPLE, FIRST + [Read(PacerRuns.Port(2), 99)], c1, Test(101), c1.(now := 101, doomed := true));
    DeleteSafeIff(EXAMPLE, READ_BEFORE_DELETE, 101);
  }

  const HELD_WHEN_TESTED: seq<Action> := FIRST + [Read(PacerRuns.Port(2), 101), Load] + [Test(101)]

  /** The pacer is tested and deleted at once, while the handler holds it and has not entered its critical section. */
  lemma DeleteUnderHandler()
    ensures HarmfulDelete(EXAMPLE, HELD_WHEN_TESTED, 101)
  {
    hide Run, SafeFrom;
    AcceptedAtZero(EXAMPLE);
    ExtendArrival(EXAMPLE, FIRST, ACCEPTED, PacerRuns.Port(2), 101);
    var c1 := ACCEPTED.(now := 101, held := Some(Held(PacerRuns.Port(2), 0, 101)));
    Extend(EXAMPLE, FIRST + [Read(PacerRuns.Port(2), 101), Load], c1, Test(101), c1.(doomed := true));
    DeleteSafeIff(EXAMPLE, HELD_WHEN_TESTED, 101);
  }

  const DELAYED: seq<Action> := FIRST + [Read(PacerRuns.Port(2), 60), Load] + [Settle(0)]

  /**
  A second packet is delayed until 100 and released right then, between the clock reading of a third one and its
  settling.
  */
  const SETTLED_LATE: seq<Action> :=
    DELAYED + [Read(PacerRuns.Port(3), 98), Load] + [Wake(PacerRuns.Port(2), 100)] + [Settle(0)]

  lemma AfterDelayed()
    ensures Run(EXAMPLE, NEW, DELAYED)
            == Some(Client(60, Some(0), [PacerState(At(0), At(60), true)], map[PacerRuns.Port(2) := Sleeper(0, 100)],
                           None, None, false, [0]))
  {
    hide Run;
    AcceptedAtZero(EXAMPLE);
    ExtendArrival(EXAMPLE, FIRST, ACCEPTED, PacerRuns.Port(2), 60);
    var held := ACCEPTED.(now := 60, held := Some(Held(PacerRuns.Port(2), 0, 60)));
    var after := Client(60, Some(0), [PacerState(At(0), At(60), true)], map[PacerRuns.Port(2) := Sleeper(0, 100)],
                        None, None, false, [0]);
    assert held.sleepers[PacerRuns.Port(2) := Sleeper(0, 100)] == after.sleepers;
    Extend(EXAMPLE, FIRST + [Read(PacerRuns.Port(2), 60), Load], held, Settle(0), after);
  }

  lemma AfterSettledLate()
    ensures Run(EXAMPLE, NEW, SETTLED_LATE)
            == Some(Client(100, Some(0), [PacerState(At(100), At(98), false)], map[], None, None, false, [0, 100]))
  {
    hide Run, DELAYED;
    var f, g := PacerRuns.Port(2), PacerRuns.Port(3);
    AfterDelayed();
    var c1 := Client(60, Some(0), [PacerState(At(0), At(60), true)], map[f := Sleeper(0, 100)], None, None, false, [0]);
    ExtendArrival(EXAMPLE, DELAYED, c1, g, 98);
    var c2 := c1.(now := 98, held := Some(Held(g, 0, 98)));
    var c3 := c2.(now := 100, pacers := [AfterRelease(100)], sleepers := map[], times := [0, 100]);
    assert c2.sleepers - {f} == map[];
    Extend(EXAMPLE, DELAYED + [Read(g, 98), Load], c2, Wake(f, 100), c3);
    Extend(EXAMPLE, DELAYED + [Read(g, 98), Load] + [Wake(f, 100)], c3, Settle(0),
           c3.(held := None, pacers := [PacerState(At(100), At(98), false)]));
  }

  /**
  The pacer is tested and deleted at once, and the handler is idle. But a release came between a clock reading of the
  handler and its critical section, so the pacer was last seen before it last released.
  */
  lemma SeenBeforeReleased()
    ensures HarmfulDelete(EXAMPLE, SETTLED_LATE + [Test(199)], 199)
    ensures Run(EXAMPLE, NEW, SETTLED_LATE + [Test(199)])
            == Some(Client(199, Some(0), [PacerState(At(100), At(98), false)], map[], None, None, true, [0, 100]))
  {
    hide Run, SafeFrom, SETTLED_LATE;
    AfterSettledLate();
    var c := Client(100, Some(0), [PacerState(At(100), At(98), false)], map[], None, None, false, [0, 100]);
    Extend(EXAMPLE, SETTLED_LATE, c, Test(199), c.(now := 199, doomed := true));
    DeleteSafeIff(EXAMPLE, SETTLED_LATE + [Test(199)], 199);
  }
}
