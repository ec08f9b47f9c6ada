/** Whole runs of the drop-mode limiter. */
module DropRuns {
  import opened DropLimiter
  import opened Counting
  import Algorithm

  /** A packet is one step; forcedAt is the clock when a forced accept is recorded. */
  datatype Event =
    | Syn(ip: string, now: int, forcedAt: int)
    | Cleanup(now: int)
    | Forget(ip: string)

  datatype Entry = Entry(ip: string, verdict: Verdict)

  datatype History = History(table: Table, log: seq<Entry>)

  function Step(cfg: Config, draws: nat -> int, h: History, ev: Event): History
  {
    match ev
    case Syn(ip, now, forcedAt) =>
      var (table, verdict) := Packet(cfg, draws, h.table, ip, now, forcedAt);
      History(table, h.log + [Entry(ip, verdict)])
    case Cleanup(now) => h.(table := h.table.(clients := Expire(h.table.clients, now, cfg.ttl)))
    case Forget(ip) => h.(table := h.table.(clients := h.table.clients - {ip}))
  }

  function Run(cfg: Config, draws: nat -> int, evs: seq<Event>): History
  {
    if evs == [] then History(Table(map[], 0), [])
    else Step(cfg, draws, Run(cfg, draws, evs[..|evs| - 1]), evs[|evs| - 1])
  }

  // ----- forced accepts bound starvation -----

  /** The number of drops of the client since its last accepted packet. */
  function TrailingDrops(log: seq<Entry>, ip: string): nat
  {
    if log == [] then 0
    else
      var last := log[|log| - 1];
      if last.ip != ip then TrailingDrops(log[..|log| - 1], ip)
      else if last.verdict.Drop? then TrailingDrops(log[..|log| - 1], ip) + 1
      else 0
  }

  lemma TrailingSnoc(log: seq<Entry>, e: Entry, ip: string)
    ensures TrailingDrops(log + [e], ip)
            == if e.ip != ip then TrailingDrops(log, ip) else if e.verdict.Drop? then TrailingDrops(log, ip) + 1 else 0
  {
    assert (log + [e])[..|log|] == log;
  }

  /**
  The table counts the drops since the last accept, up to the limit; a client that was removed has had no more than
  the limit.
  */
  ghost predicate CountsDrops(cfg: Config, h: History)
  {
    forall ip ::
      && TrailingDrops(h.log, ip) <= cfg.maxDrops
      && (ip in h.table.clients ==> h.table.clients[ip].dropCount == TrailingDrops(h.log, ip))
  }

  lemma StepCountsDrops(cfg: Config, draws: nat -> int, h: History, ev: Event)
    requires cfg.maxDrops > 0 && CountsDrops(cfg, h)
    ensures CountsDrops(cfg, Step(cfg, draws, h, ev))
  {
    var after := Step(cfg, draws, h, ev);
    forall ip
      ensures TrailingDrops(after.log, ip) <= cfg.maxDrops
      ensures ip in after.table.clients ==> after.table.clients[ip].dropCount == TrailingDrops(after.log, ip)
    {
      assert TrailingDrops(h.log, ip) <= cfg.maxDrops;
      if ev.Syn? {
        assert TrailingDrops(h.log, ev.ip) <= cfg.maxDrops;
        TrailingSnoc(h.log, after.log[|h.log|], ip);
      }
    }
  }

  /**
  With a limit N > 0, under any cleanup and forgetting, no client ever suffers N + 1 drops in a row and no drop
  count exceeds N.
  */
  lemma {:induction false} NoStarvation(cfg: Config, draws: nat -> int, evs: seq<Event>)
    requires cfg.maxDrops > 0
    ensures CountsDrops(cfg, Run(cfg, draws, evs))
    ensures forall ip :: ip in Run(cfg, draws, evs).table.clients ==>
              Run(cfg, draws, evs).table.clients[ip].dropCount <= cfg.maxDrops
  {
    if evs != [] {
      NoStarvation(cfg, draws, evs[..|evs| - 1]);
      StepCountsDrops(cfg, draws, Run(cfg, draws, evs[..|evs| - 1]), evs[|evs| - 1]);
    }
  }

  // ----- expiry is invisible -----

  /** The event ends by the time now, where a cleanup's clock may be up to lead ahead. */
  predicate EndsBy(ev: Event, now: int, lead: int)
  {
    match ev
    case Syn(_, at, forcedAt) => at <= now && forcedAt <= now
    case Cleanup(at) => at <= now + lead
    case Forget(_) => true
  }

  /**
  Packets arrive in the order of the clock. The clock of a packet is read before the table decides, so a cleanup in
  between has read a later one, by at most lead.
  */
  ghost predicate Timely(evs: seq<Event>, lead: int)
  {
    forall i, j :: 0 <= i < j < |evs| && evs[j].Syn? ==> EndsBy(evs[i], evs[j].now, lead)
  }

  /** A client with the cooldown is not removed while it lasts. */
  predicate Fits(cfg: Config, lead: int, cooldown: int)
  {
    cooldown <= 0 || cooldown + lead <= cfg.ttl + 1
  }

  function WithoutCleanup(evs: seq<Event>): seq<Event>
  {
    if evs == [] then []
    else WithoutCleanup(evs[..|evs| - 1]) + if evs[|evs| - 1].Cleanup? then [] else [evs[|evs| - 1]]
  }

  /** Some cleanup of the run came more than ttl after the client was last accepted. */
  ghost predicate ExpiredBy(evs: seq<Event>, ttl: int, lastSeen: int)
  {
    exists i :: 0 <= i < |evs| && evs[i].Cleanup? && evs[i].now - ttl > lastSeen
  }

  /** Some packet of the run was accepted at that time. */
  ghost predicate SeenBy(evs: seq<Event>, lastSeen: int)
  {
    exists i :: 0 <= i < |evs| && evs[i].Syn? && (evs[i].now == lastSeen || evs[i].forcedAt == lastSeen)
  }

  /** What the full table knows of a client, and the cleaned one if it has not forgotten it. */
  ghost predicate Agrees(cfg: Config, lead: int, evs: seq<Event>, cleaned: Table, full: Table, ip: string)
  {
    && (ip in cleaned.clients ==> ip in full.clients && full.clients[ip] == cleaned.clients[ip])
    && (ip in full.clients ==>
          && Fits(cfg, lead, full.clients[ip].cooldown) && SeenBy(evs, full.clients[ip].lastSeen)
          && (ip !in cleaned.clients ==> ExpiredBy(evs, cfg.ttl, full.clients[ip].lastSeen)))
  }

  ghost predicate Simulates(cfg: Config, lead: int, evs: seq<Event>, cleaned: Table, full: Table)
  {
    cleaned.drawn == full.drawn && forall ip :: Agrees(cfg, lead, evs, cleaned, full, ip)
  }

  /** A longer run keeps what has happened. */
  lemma Longer(evs: seq<Event>, ttl: int, lastSeen: int)
    requires evs != []
    ensures ExpiredBy(evs[..|evs| - 1], ttl, lastSeen) ==> ExpiredBy(evs, ttl, lastSeen)
    ensures SeenBy(evs[..|evs| - 1], lastSeen) ==> SeenBy(evs, lastSeen)
  {
    assert forall i :: 0 <= i < |evs| - 1 ==> evs[..|evs| - 1][i] == evs[i];
  }

  /** An expired client would be accepted anyway. */
  lemma ExpiredAllows(cfg: Config, lead: int, evs: seq<Event>, cleaned: Table, full: Table, ip: string, now: int)
    requires Agrees(cfg, lead, evs, cleaned, full, ip)
    requires forall i :: 0 <= i < |evs| ==> EndsBy(evs[i], now, lead)
    ensures Allows(cleaned, ip, now) == Allows(full, ip, now)
    ensures !Allows(full, ip, now) ==> ip in cleaned.clients
  {
    if ip in full.clients && ip !in cleaned.clients {
      var i :| 0 <= i < |evs| && evs[i].Cleanup? && evs[i].now - cfg.ttl > full.clients[ip].lastSeen;
      var j :| 0 <= j < |evs| && evs[j].Syn? && full.clients[ip].lastSeen in {evs[j].now, evs[j].forcedAt};
      assert EndsBy(evs[i], now, lead) && EndsBy(evs[j], now, lead);
    }
  }

  lemma PacketAgrees(
    cfg: Config, draws: nat -> int, lead: int, evs: seq<Event>, cleaned: Table, full: Table, ev: Event, ip: string)
    requires evs != [] && ev == evs[|evs| - 1] && ev.Syn? && cleaned.drawn == full.drawn
    requires Fits(cfg, lead, draws(full.drawn))
    requires Agrees(cfg, lead, evs[..|evs| - 1], cleaned, full, ip)
    requires Allows(cleaned, ev.ip, ev.now) == Allows(full, ev.ip, ev.now)
    requires !Allows(full, ev.ip, ev.now) ==> ev.ip in cleaned.clients && full.clients[ev.ip] == cleaned.clients[ev.ip]
    ensures Agrees(cfg, lead, evs, Packet(cfg, draws, cleaned, ev.ip, ev.now, ev.forcedAt).0,
                   Packet(cfg, draws, full, ev.ip, ev.now, ev.forcedAt).0, ip)
  {
    assert SeenBy(evs, ev.now) && SeenBy(evs, ev.forcedAt);
    if ip in full.clients {
      Longer(evs, cfg.ttl, full.clients[ip].lastSeen);
    }
    hide ExpiredBy, SeenBy, Fits;
  }

  lemma PacketSimulates(
    cfg: Config, draws: nat -> int, lead: int, evs: seq<Event>, cleaned: Table, full: Table, ev: Event)
    requires evs != [] && ev == evs[|evs| - 1] && ev.Syn? && forall n :: Fits(cfg, lead, draws(n))
    requires Simulates(cfg, lead, evs[..|evs| - 1], cleaned, full)
    requires forall i :: 0 <= i < |evs| - 1 ==> EndsBy(evs[i], ev.now, lead)
    ensures Packet(cfg, draws, cleaned, ev.ip, ev.now, ev.forcedAt).1
            == Packet(cfg, draws, full, ev.ip, ev.now, ev.forcedAt).1
    ensures Simulates(cfg, lead, evs, Packet(cfg, draws, cleaned, ev.ip, ev.now, ev.forcedAt).0,
                      Packet(cfg, draws, full, ev.ip, ev.now, ev.forcedAt).0)
  {
    var before := evs[..|evs| - 1];
    assert Agrees(cfg, lead, before, cleaned, full, ev.ip);
    ExpiredAllows(cfg, lead, before, cleaned, full, ev.ip, ev.now);
    hide Allows;
    forall ip
      ensures Agrees(cfg, lead, evs, Packet(cfg, draws, cleaned, ev.ip, ev.now, ev.forcedAt).0,
                     Packet(cfg, draws, full, ev.ip, ev.now, ev.forcedAt).0, ip)
    {
      assert Agrees(cfg, lead, before, cleaned, full, ip);
      PacketAgrees(cfg, draws, lead, evs, cleaned, full, ev, ip);
    }
  }

  /** Forgetting and cleanup keep the simulation, too; the full table is not cleaned. */
  lemma RemovalSimulates(cfg: Config, draws: nat -> int, lead: int, evs: seq<Event>, a: History, b: History)
    requires evs != [] && !evs[|evs| - 1].Syn? && Simulates(cfg, lead, evs[..|evs| - 1], a.table, b.table)
    ensures var ev := evs[|evs| - 1];
            Simulates(cfg, lead, evs, Step(cfg, draws, a, ev).table,
                      if ev.Cleanup? then b.table else Step(cfg, draws, b, ev).table)
  {
    hide Packet, Fits;
    var ev := evs[|evs| - 1];
    var cleaned := Step(cfg, draws, a, ev).table;
    var full := if ev.Cleanup? then b.table else Step(cfg, draws, b, ev).table;
    forall ip
      ensures Agrees(cfg, lead, evs, cleaned, full, ip)
    {
      assert Agrees(cfg, lead, evs[..|evs| - 1], a.table, b.table, ip);
      if ip in full.clients {
        Longer(evs, cfg.ttl, full.clients[ip].lastSeen);
      }
    }
  }

  /** If no cooldown outlives an entry, cleanup anywhere leaves every verdict and every drawn cooldown as they were. */
  lemma {:induction false} CleanupIsInvisible(cfg: Config, draws: nat -> int, evs: seq<Event>, lead: int)
    requires Timely(evs, lead) && forall n :: Fits(cfg, lead, draws(n))
    ensures Run(cfg, draws, evs).log == Run(cfg, draws, WithoutCleanup(evs)).log
    ensures Simulates(cfg, lead, evs, Run(cfg, draws, evs).table, Run(cfg, draws, WithoutCleanup(evs)).table)
  {
    hide Agrees, Packet, Fits;
    if evs == [] {
      EmptySimulates(cfg, lead);
    } else {
      var before, ev := evs[..|evs| - 1], evs[|evs| - 1];
      CleanupIsInvisible(cfg, draws, before, lead);
      var a, b := Run(cfg, draws, before), Run(cfg, draws, WithoutCleanup(before));
      if ev.Syn? {
        PacketSimulates(cfg, draws, lead, evs, a.table, b.table, ev);
      } else {
        RemovalSimulates(cfg, draws, lead, evs, a, b);
      }
      if !ev.Cleanup? {
        assert WithoutCleanup(evs)[..|WithoutCleanup(evs)| - 1] == WithoutCleanup(before);
      } else {
        assert WithoutCleanup(evs) == WithoutCleanup(before);
      }
    }
  }

  lemma EmptySimulates(cfg: Config, lead: int)
    ensures Simulates(cfg, lead, [], Table(map[], 0), Table(map[], 0))
  {
  }

  // ----- and exactly then -----

  /** The n-th of a series of distinct clients. */
  function Name(n: nat): string
  {
    seq(n, _ => 'x')
  }

  /** n clients that connect for the first time at time 0. */
  function Newcomers(n: nat): seq<Event>
  {
    if n == 0 then [] else Newcomers(n - 1) + [Syn(Name(n - 1), 0, 0)]
  }

  lemma RunSnoc(cfg: Config, draws: nat -> int, evs: seq<Event>, ev: Event)
    ensures Run(cfg, draws, evs + [ev]) == Step(cfg, draws, Run(cfg, draws, evs), ev)
    ensures WithoutCleanup(evs + [ev]) == WithoutCleanup(evs) + if ev.Cleanup? then [] else [ev]
  {
    assert (evs + [ev])[..|evs|] == evs;
  }

  lemma NamesDiffer(i: nat, j: nat)
    requires i != j
    ensures Name(i) != Name(j)
  {
    assert |Name(i)| != |Name(j)|;
  }

  lemma {:induction false} NewcomersAccepted(cfg: Config, draws: nat -> int, n: nat, k: nat)
    requires k >= n
    ensures WithoutCleanup(Newcomers(n)) == Newcomers(n)
    ensures Run(cfg, draws, Newcomers(n)).table.drawn == n
    ensures Name(k) !in Run(cfg, draws, Newcomers(n)).table.clients
  {
    hide Name, Run, Step, WithoutCleanup;
    if n == 0 {
      EmptyRun(cfg, draws);
    } else {
      NewcomersAccepted(cfg, draws, n - 1, k);
      NewcomersAccepted(cfg, draws, n - 1, n - 1);
      RunSnoc(cfg, draws, Newcomers(n - 1), Syn(Name(n - 1), 0, 0));
      NewcomerStep(cfg, draws, Run(cfg, draws, Newcomers(n - 1)), Name(n - 1));
      NamesDiffer(n - 1, k);
    }
  }

  lemma EmptyRun(cfg: Config, draws: nat -> int)
    ensures Run(cfg, draws, []) == History(Table(map[], 0), []) && WithoutCleanup([]) == []
  {
  }

  lemma NewcomerStep(cfg: Config, draws: nat -> int, h: History, ip: string)
    requires ip !in h.table.clients
    ensures Step(cfg, draws, h, Syn(ip, 0, 0)).table == Accepting(draws, h.table, ip, 0)
  {
  }

  lemma {:induction false} NewcomersTimes(n: nat, now: int, lead: int)
    requires now >= 0
    ensures forall i :: 0 <= i < |Newcomers(n)| ==>
              EndsBy(Newcomers(n)[i], now, lead) && (Newcomers(n)[i].Syn? ==> Newcomers(n)[i].now == 0)
  {
    if n > 0 {
      NewcomersTimes(n - 1, now, lead);
    }
  }

  /** A cleanup whose clock is ahead of the last packet inside the cooldown decides what becomes of that packet. */
  lemma ExpiryDecides(cfg: Config, draws: nat -> int, h: History, ip: string, lead: int)
    requires ip !in h.table.clients && lead >= 0 && !Fits(cfg, lead, draws(h.table.drawn))
    ensures var late := draws(h.table.drawn) - 1;
            var accepted := Step(cfg, draws, h, Syn(ip, 0, 0));
            var expired := Step(cfg, draws, accepted, Cleanup(late + lead));
            var a, b := Step(cfg, draws, expired, Syn(ip, late, late)).log,
                        Step(cfg, draws, accepted, Syn(ip, late, late)).log;
            |a| == |b| == |h.log| + 2 && a[|h.log| + 1].verdict != b[|h.log| + 1].verdict
  {
    var late := draws(h.table.drawn) - 1;
    var accepted := Step(cfg, draws, h, Syn(ip, 0, 0));
    assert accepted.table.clients[ip] == ClientState(0, late + 1, 0);
    var expired := Step(cfg, draws, accepted, Cleanup(late + lead));
    assert ip !in expired.table.clients;
    var a := Packet(cfg, draws, expired.table, ip, late, late).1;
    var b := Packet(cfg, draws, accepted.table, ip, late, late).1;
    assert a == Accept(late, draws(h.table.drawn + 1), false);
    assert b.Drop?;
  }

  /** A cooldown that outlives the entry makes cleanup visible: the client is accepted early. */
  lemma LongCooldownShows(cfg: Config, draws: nat -> int, n: nat, lead: int) returns (evs: seq<Event>)
    requires lead >= 0 && !Fits(cfg, lead, draws(n))
    ensures Timely(evs, lead)
    ensures Run(cfg, draws, evs).log != Run(cfg, draws, WithoutCleanup(evs)).log
  {
    hide Run, Step, WithoutCleanup, Name;
    var start, ip, late := Newcomers(n), Name(n), draws(n) - 1;
    NewcomersAccepted(cfg, draws, n, n);
    NewcomersTimes(n, 0, lead);
    NewcomersTimes(n, late, lead);
    var one := start + [Syn(ip, 0, 0)];
    var two := one + [Cleanup(late + lead)];
    evs := two + [Syn(ip, late, late)];
    RunSnoc(cfg, draws, start, Syn(ip, 0, 0));
    RunSnoc(cfg, draws, one, Cleanup(late + lead));
    RunSnoc(cfg, draws, two, Syn(ip, late, late));
    RunSnoc(cfg, draws, one, Syn(ip, late, late));
    assert WithoutCleanup(two) == one;
    assert WithoutCleanup(evs) == one + [Syn(ip, late, late)];
    ExpiryDecides(cfg, draws, Run(cfg, draws, start), ip, lead);
  }

  /**
  Cleanup whose clock is at most lead ahead of a packet's is invisible in every run if and only if every cooldown, if
  there is one, and that lead together are at most one tick longer than the time to live.
  */
  lemma CleanupInvisibleIff(cfg: Config, draws: nat -> int, lead: int)
    requires lead >= 0
    ensures (forall evs :: Timely(evs, lead) ==> Run(cfg, draws, evs).log == Run(cfg, draws, WithoutCleanup(evs)).log)
            <==> (forall n :: draws(n) <= 0 || draws(n) + lead <= cfg.ttl + 1)
  {
    hide Run, Timely;
    if forall n :: Fits(cfg, lead, draws(n)) {
      forall evs | Timely(evs, lead)
        ensures Run(cfg, draws, evs).log == Run(cfg, draws, WithoutCleanup(evs)).log
      {
        CleanupIsInvisible(cfg, draws, evs, lead);
      }
    } else {
      var n: nat :| !Fits(cfg, lead, draws(n));
      var evs := LongCooldownShows(cfg, draws, n, lead);
    }
  }

  // ----- the rate bound -----

  function AcceptTimes(log: seq<Entry>, ip: string): seq<int>
  {
    if log == [] then []
    else
      var last := log[|log| - 1];
      AcceptTimes(log[..|log| - 1], ip)
      + if last.ip == ip && last.verdict.Accept? then [last.verdict.at] else []
  }

  /** The table holds the client's last accept, and its cooldown is at least c. */
  ghost predicate HoldsFor(h: History, c: int, ip: string)
  {
    var times := AcceptTimes(h.log, ip);
    && Spaced(times, c)
    && (times == [] <==> ip !in h.table.clients)
    && (ip in h.table.clients ==>
          h.table.clients[ip].lastSeen == times[|times| - 1] && h.table.clients[ip].cooldown >= c)
  }

  ghost predicate HoldsLastAccept(h: History, c: int)
  {
    forall ip :: HoldsFor(h, c, ip)
  }

  lemma AcceptSnoc(log: seq<Entry>, e: Entry, ip: string)
    ensures AcceptTimes(log + [e], ip)
            == AcceptTimes(log, ip) + if e.ip == ip && e.verdict.Accept? then [e.verdict.at] else []
  {
    assert (log + [e])[..|log|] == log;
  }

  lemma PacketKeepsSpacing(cfg: Config, draws: nat -> int, h: History, ev: Event, c: int, ip: string)
    requires ev.Syn? && cfg.maxDrops == 0 && !cfg.forgetOnDrop && c > 0 && draws(h.table.drawn) >= c
    requires HoldsFor(h, c, ip)
    ensures HoldsFor(Step(cfg, draws, h, ev), c, ip)
  {
    hide Spaced, AcceptTimes;
    var after := Step(cfg, draws, h, ev);
    var e := after.log[|h.log|];
    assert after.log == h.log + [e];
    AcceptSnoc(h.log, e, ip);
    if ev.ip == ip && Allows(h.table, ip, ev.now) {
      assert AcceptTimes(after.log, ip) == AcceptTimes(h.log, ip) + [ev.now];
      SpacedSnoc(AcceptTimes(h.log, ip), c, ev.now);
    } else {
      assert AcceptTimes(after.log, ip) == AcceptTimes(h.log, ip);
    }
  }

  lemma {:induction false} PureRunSpacing(cfg: Config, draws: nat -> int, evs: seq<Event>, c: int)
    requires cfg.maxDrops == 0 && !cfg.forgetOnDrop && c > 0 && forall n :: draws(n) >= c
    requires forall i :: 0 <= i < |evs| ==> evs[i].Syn?
    ensures HoldsLastAccept(Run(cfg, draws, evs), c)
  {
    if evs != [] {
      hide HoldsFor, Step;
      var before := Run(cfg, draws, evs[..|evs| - 1]);
      PureRunSpacing(cfg, draws, evs[..|evs| - 1], c);
      forall ip
        ensures HoldsFor(Run(cfg, draws, evs), c, ip)
      {
        PacketKeepsSpacing(cfg, draws, before, evs[|evs| - 1], c, ip);
      }
    }
  }

  lemma {:induction false} WithoutCleanupSyns(evs: seq<Event>)
    requires forall i :: 0 <= i < |evs| ==> !evs[i].Forget?
    ensures forall i :: 0 <= i < |WithoutCleanup(evs)| ==> WithoutCleanup(evs)[i].Syn?
  {
    if evs != [] {
      WithoutCleanupSyns(evs[..|evs| - 1]);
    }
  }

  /**
  Without forced accepts and forgetting, and with cooldowns of at least c that do not outlive the table's
  entries, accepts of one client are at least c apart: a window of length T holds at most 1 + floor(T / c).
  */
  lemma DropModeRateBound(
    cfg: Config, draws: nat -> int, evs: seq<Event>, lead: int, c: int, ip: string, low: int, high: int)
    requires cfg.maxDrops == 0 && !cfg.forgetOnDrop && c > 0 && low <= high
    requires forall n :: c <= draws(n) && draws(n) + lead <= cfg.ttl + 1
    requires Timely(evs, lead) && forall i :: 0 <= i < |evs| ==> !evs[i].Forget?
    ensures Spaced(AcceptTimes(Run(cfg, draws, evs).log, ip), c)
    ensures CountIn(AcceptTimes(Run(cfg, draws, evs).log, ip), low, high) <= 1 + (high - low) / c
  {
    CleanupIsInvisible(cfg, draws, evs, lead);
    WithoutCleanupSyns(evs);
    PureRunSpacing(cfg, draws, WithoutCleanup(evs), c);
    var times := AcceptTimes(Run(cfg, draws, evs).log, ip);
    assert HoldsFor(Run(cfg, draws, WithoutCleanup(evs)), c, ip);
    WindowBound(times, c, low, high);
  }

  // ----- dropped packets leave no trace -----

  /** The run ends with a packet inside its client's cooldown. */
  predicate LastIsDropped(cfg: Config, draws: nat -> int, evs: seq<Event>)
  {
    evs != [] && evs[|evs| - 1].Syn?
      && !Allows(Run(cfg, draws, evs[..|evs| - 1]).table, evs[|evs| - 1].ip, evs[|evs| - 1].now)
  }

  /** The run without those dropped packets whose positions are in erase. */
  function Erased(cfg: Config, draws: nat -> int, evs: seq<Event>, erase: set<nat>): seq<Event>
  {
    if evs == [] then []
    else
      var n := |evs| - 1;
      Erased(cfg, draws, evs[..n], erase)
      + if LastIsDropped(cfg, draws, evs) && n in erase then [] else [evs[n]]
  }

  /** The log of the run without the entries of those packets. */
  function ErasedLog(cfg: Config, draws: nat -> int, evs: seq<Event>, erase: set<nat>): seq<Entry>
  {
    if evs == [] then []
    else
      var n := |evs| - 1;
      var log := Run(cfg, draws, evs).log;
      ErasedLog(cfg, draws, evs[..n], erase)
      + if !evs[n].Syn? || log == [] || (LastIsDropped(cfg, draws, evs) && n in erase) then [] else [log[|log| - 1]]
  }

  /** The same clients with the same cooldowns; only drop counts may differ. */
  ghost predicate SameButCounts(a: Table, b: Table)
  {
    && a.drawn == b.drawn && a.clients.Keys == b.clients.Keys
    && forall ip :: ip in a.clients ==>
         a.clients[ip].lastSeen == b.clients[ip].lastSeen && a.clients[ip].cooldown == b.clients[ip].cooldown
  }

  lemma StepSame(cfg: Config, draws: nat -> int, a: History, b: History, ev: Event)
    requires cfg.maxDrops == 0 && !cfg.forgetOnDrop && SameButCounts(a.table, b.table)
    ensures SameButCounts(Step(cfg, draws, a, ev).table, Step(cfg, draws, b, ev).table)
    ensures ev.Syn? ==>
              Step(cfg, draws, a, ev).log[|a.log|] == Step(cfg, draws, b, ev).log[|b.log|]
    ensures ev.Syn? && !Allows(a.table, ev.ip, ev.now) ==> SameButCounts(Step(cfg, draws, a, ev).table, b.table)
  {
  }

  /** Deleting any of the dropped packets from a run changes no other verdict. */
  lemma {:induction false} DropsLeaveNoTrace(cfg: Config, draws: nat -> int, evs: seq<Event>, erase: set<nat>)
    requires cfg.maxDrops == 0 && !cfg.forgetOnDrop
    ensures Run(cfg, draws, Erased(cfg, draws, evs, erase)).log == ErasedLog(cfg, draws, evs, erase)
    ensures SameButCounts(Run(cfg, draws, evs).table, Run(cfg, draws, Erased(cfg, draws, evs, erase)).table)
  {
    hide SameButCounts, Allows;
    if evs == [] {
      SameRefl(Table(map[], 0));
    } else {
      var n := |evs| - 1;
      DropsLeaveNoTrace(cfg, draws, evs[..n], erase);
      var a, b := Run(cfg, draws, evs[..n]), Run(cfg, draws, Erased(cfg, draws, evs[..n], erase));
      StepSame(cfg, draws, a, b, evs[n]);
      var kept := Erased(cfg, draws, evs, erase);
      if LastIsDropped(cfg, draws, evs) && n in erase {
        assert kept == Erased(cfg, draws, evs[..n], erase);
      } else {
        assert kept[..|kept| - 1] == Erased(cfg, draws, evs[..n], erase) && kept[|kept| - 1] == evs[n];
      }
    }
  }

  lemma SameRefl(t: Table)
    ensures SameButCounts(t, t)
  {
  }

  // ----- with the configured algorithm -----

  /** The cooldowns that a validated algorithm gives for a stream of bounded draws. */
  ghost function Cooldowns(a: Algorithm.Algorithm, raws: nat -> Algorithm.uint64): nat -> int
  {
    (n: nat) => Algorithm.Next(a, raws(n)) as int
  }

  /**
  For every configuration that is accepted, a time to live that covers the longest cooldown and the lead of the
  cleanup's clock makes cleanup invisible.
  */
  lemma ConfiguredCleanupIsInvisible(
    mode: string, cooldown: Algorithm.int64, minDelay: Algorithm.int64, maxDelay: Algorithm.int64,
    jitter: Algorithm.int64, raws: nat -> Algorithm.uint64, cfg: Config, evs: seq<Event>, lead: int)
    requires Algorithm.NewAlgorithm(mode, cooldown, minDelay, maxDelay, jitter).Built?
    requires var a := Algorithm.NewAlgorithm(mode, cooldown, minDelay, maxDelay, jitter).algorithm;
             && Algorithm.Longest(a) + lead <= cfg.ttl + 1
             && (Algorithm.DrawLimit(a) >= 0 ==> forall n :: raws(n) <= Algorithm.DrawLimit(a))
    requires Timely(evs, lead)
    ensures var a := Algorithm.NewAlgorithm(mode, cooldown, minDelay, maxDelay, jitter).algorithm;
            Run(cfg, Cooldowns(a, raws), evs).log == Run(cfg, Cooldowns(a, raws), WithoutCleanup(evs)).log
  {
    var a := Algorithm.NewAlgorithm(mode, cooldown, minDelay, maxDelay, jitter).algorithm;
    forall n: nat
      ensures Fits(cfg, lead, Cooldowns(a, raws)(n))
    {
      Algorithm.NextIsBounded(mode, cooldown, minDelay, maxDelay, jitter, raws(n));
    }
    CleanupIsInvisible(cfg, Cooldowns(a, raws), evs, lead);
  }
}
