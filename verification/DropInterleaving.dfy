/**
The drop branch of the handler in the steps that the program takes, each under its own lock: the table's decision,
the drop count, and the forced accept or the drop. The cleanup loop may run in between.
*/
module DropInterleaving {
  import opened DropLimiter
  import opened DropRuns

  /** Where the handler is with the packet that it denied. */
  datatype Phase =
    | Idle
    | Denied(ip: string, now: int, cooldown: int, remaining: int)
    | Tallied(ip: string, count: nat, cooldown: int, remaining: int)

  datatype Progress = Progress(table: Table, log: seq<Entry>, phase: Phase)

  datatype Action =
    | Decide(ip: string, now: int)
    | Count
    | Conclude(forcedAt: int)
    | Expiry(now: int)

  const START: Progress := Progress(Table(map[], 0), [], Idle)

  predicate Possible(h: Progress, a: Action)
  {
    match a
    case Decide(_, _) => h.phase.Idle?
    case Count => h.phase.Denied?
    case Conclude(_) => h.phase.Tallied?
    case Expiry(_) => true
  }

  function Take(cfg: Config, draws: nat -> int, h: Progress, a: Action): Progress
    requires Possible(h, a)
  {
    match a
    case Decide(ip, now) =>
      if Allows(h.table, ip, now) then
        h.(table := Accepting(draws, h.table, ip, now),
           log := h.log + [Entry(ip, Accept(now, draws(h.table.drawn), false))])
      else
        var c := h.table.clients[ip];
        h.(phase := Denied(ip, now, c.cooldown, c.cooldown - (now - c.lastSeen)))
    case Count =>
      var Denied(ip, now, cooldown, remaining) := h.phase;
      if ip in h.table.clients then
        h.(table := Counted(h.table, ip), phase := Tallied(ip, h.table.clients[ip].dropCount + 1, cooldown, remaining))
      else h.(phase := Tallied(ip, 0, cooldown, remaining))
    case Conclude(forcedAt) =>
      var Tallied(ip, count, cooldown, remaining) := h.phase;
      if cfg.maxDrops > 0 && count > cfg.maxDrops then
        Progress(Accepting(draws, h.table, ip, forcedAt),
                 h.log + [Entry(ip, Accept(forcedAt, draws(h.table.drawn), true))], Idle)
      else
        Progress(if cfg.forgetOnDrop then h.table.(clients := h.table.clients - {ip}) else h.table,
                 h.log + [Entry(ip, Drop(cooldown, remaining))], Idle)
    case Expiry(now) => h.(table := h.table.(clients := Expire(h.table.clients, now, cfg.ttl)))
  }

  /** While a packet is handled, cleanups read a clock at most slack later than the packet's. */
  predicate Swift(h: Progress, a: Action, slack: int)
  {
    a.Expiry? && h.phase.Denied? ==> a.now <= h.phase.now + slack
  }

  /** The state after the actions, if each was possible in its turn. */
  function Course(cfg: Config, draws: nat -> int, actions: seq<Action>): (r: (bool, Progress))
  {
    if actions == [] then (true, START)
    else
      var n := |actions| - 1;
      var (ok, h) := Course(cfg, draws, actions[..n]);
      if ok && Possible(h, actions[n]) then (true, Take(cfg, draws, h, actions[n])) else (false, h)
  }

  ghost predicate AllSwift(cfg: Config, draws: nat -> int, actions: seq<Action>, slack: int)
  {
    forall i :: 0 <= i < |actions| ==> Swift(Course(cfg, draws, actions[..i]).1, actions[i], slack)
  }

  /** The handler without interruption: one packet of the runs in which a packet is one step. */
  lemma UninterruptedPacket(cfg: Config, draws: nat -> int, h: Progress, ip: string, now: int, forcedAt: int)
    requires h.phase.Idle?
    ensures var (table, verdict) := Packet(cfg, draws, h.table, ip, now, forcedAt);
            var done := Progress(table, h.log + [Entry(ip, verdict)], Idle);
            var decided := Take(cfg, draws, h, Decide(ip, now));
            if decided.phase.Idle? then decided == done
            else Take(cfg, draws, Take(cfg, draws, decided, Count), Conclude(forcedAt)) == done
  {
  }

  // ----- at most one drop more -----

  /** What the table and the handler know of the client's drops since its last accepted packet. */
  predicate Knows(cfg: Config, h: Progress, ip: string)
  {
    var drops := TrailingDrops(h.log, ip);
    var busy := !h.phase.Idle? && h.phase.ip == ip;
    && drops <= cfg.maxDrops + (if busy || ip in h.table.clients then 0 else 1)
    && (ip in h.table.clients ==>
          h.table.clients[ip].dropCount == if busy && h.phase.Tallied? then h.phase.count else drops)
    && (busy && h.phase.Tallied? ==>
          if h.phase.count == 0 then ip !in h.table.clients else h.phase.count == drops + 1)
  }

  lemma DecideKnows(cfg: Config, draws: nat -> int, h: Progress, client: string, now: int, ip: string)
    requires cfg.maxDrops > 0 && h.phase.Idle? && Knows(cfg, h, ip)
    ensures Knows(cfg, Take(cfg, draws, h, Decide(client, now)), ip)
  {
    hide TrailingDrops;
    if Allows(h.table, client, now) {
      TrailingSnoc(h.log, Entry(client, Accept(now, draws(h.table.drawn), false)), ip);
    }
  }

  lemma CountKnows(cfg: Config, draws: nat -> int, h: Progress, ip: string)
    requires cfg.maxDrops > 0 && h.phase.Denied? && Knows(cfg, h, ip)
    ensures Knows(cfg, Take(cfg, draws, h, Count), ip)
  {
    hide TrailingDrops;
  }

  lemma ConcludeKnows(cfg: Config, draws: nat -> int, h: Progress, forcedAt: int, ip: string)
    requires cfg.maxDrops > 0 && h.phase.Tallied? && Knows(cfg, h, ip)
    ensures Knows(cfg, Take(cfg, draws, h, Conclude(forcedAt)), ip)
  {
    hide TrailingDrops;
    var after := Take(cfg, draws, h, Conclude(forcedAt));
    TrailingSnoc(h.log, after.log[|h.log|], ip);
  }

  lemma TakeKnows(cfg: Config, draws: nat -> int, h: Progress, a: Action, ip: string)
    requires cfg.maxDrops > 0 && Possible(h, a) && Knows(cfg, h, ip)
    ensures Knows(cfg, Take(cfg, draws, h, a), ip)
  {
    match a
    case Decide(client, now) =>
      hide Knows, Take;
      DecideKnows(cfg, draws, h, client, now, ip);
    case Count =>
      hide Knows, Take;
      CountKnows(cfg, draws, h, ip);
    case Conclude(forcedAt) =>
      hide Knows, Take;
      ConcludeKnows(cfg, draws, h, forcedAt, ip);
    case Expiry(now) =>
      hide TrailingDrops;
  }

  lemma {:induction false} CourseKnows(cfg: Config, draws: nat -> int, actions: seq<Action>, ip: string)
    requires cfg.maxDrops > 0
    ensures Knows(cfg, Course(cfg, draws, actions).1, ip)
  {
    hide Knows, Take;
    if actions == [] {
      StartKnows(cfg, ip);
    } else {
      var n := |actions| - 1;
      CourseKnows(cfg, draws, actions[..n], ip);
      if Course(cfg, draws, actions).0 {
        TakeKnows(cfg, draws, Course(cfg, draws, actions[..n]).1, actions[n], ip);
      }
    }
  }

  lemma StartKnows(cfg: Config, ip: string)
    ensures Knows(cfg, START, ip)
  {
  }

  /** Wherever cleanups fall, with a limit N > 0 no client suffers N + 2 drops in a row. */
  lemma OneUncountedDrop(cfg: Config, draws: nat -> int, actions: seq<Action>, ip: string)
    requires cfg.maxDrops > 0
    ensures TrailingDrops(Course(cfg, draws, actions).1.log, ip) <= cfg.maxDrops + 1
  {
    CourseKnows(cfg, draws, actions, ip);
  }

  // ----- and none if entries outlive cooldowns -----

  /** No cooldown comes within slack of outliving its entry, and a denied client is in the table. */
  predicate Lasting(cfg: Config, h: Progress, slack: int)
  {
    && (forall ip :: ip in h.table.clients ==> h.table.clients[ip].cooldown + slack <= cfg.ttl + 1)
    && (h.phase.Denied? ==>
          h.phase.ip in h.table.clients
          && h.phase.now - h.table.clients[h.phase.ip].lastSeen < h.table.clients[h.phase.ip].cooldown)
    && (h.phase.Tallied? ==> h.phase.count > 0)
  }

  lemma TakeLasting(cfg: Config, draws: nat -> int, h: Progress, a: Action, slack: int)
    requires Possible(h, a) && Lasting(cfg, h, slack) && Swift(h, a, slack)
    requires forall n :: draws(n) + slack <= cfg.ttl + 1
    ensures Lasting(cfg, Take(cfg, draws, h, a), slack)
  {
  }

  /** As long as no drop goes uncounted, the bound is N also for clients that have left the table. */
  lemma TakeBounded(cfg: Config, draws: nat -> int, h: Progress, a: Action, slack: int, ip: string)
    requires cfg.maxDrops > 0 && Possible(h, a) && Knows(cfg, h, ip) && Lasting(cfg, h, slack)
    requires TrailingDrops(h.log, ip) <= cfg.maxDrops
    ensures TrailingDrops(Take(cfg, draws, h, a).log, ip) <= cfg.maxDrops
  {
    var after := Take(cfg, draws, h, a);
    hide TrailingDrops;
    if |after.log| > |h.log| {
      TrailingSnoc(h.log, after.log[|h.log|], ip);
    }
  }

  lemma SwiftPrefix(cfg: Config, draws: nat -> int, actions: seq<Action>, slack: int)
    requires actions != [] && AllSwift(cfg, draws, actions, slack)
    ensures var n := |actions| - 1;
            AllSwift(cfg, draws, actions[..n], slack) && Swift(Course(cfg, draws, actions[..n]).1, actions[n], slack)
  {
    var front := actions[..|actions| - 1];
    forall i | 0 <= i < |front|
      ensures Swift(Course(cfg, draws, front[..i]).1, front[i], slack)
    {
      assert front[..i] == actions[..i] && front[i] == actions[i];
    }
  }

  lemma {:induction false} CourseBounded(cfg: Config, draws: nat -> int, actions: seq<Action>, slack: int, ip: string)
    requires cfg.maxDrops > 0 && AllSwift(cfg, draws, actions, slack)
    requires forall n :: draws(n) + slack <= cfg.ttl + 1
    ensures var h := Course(cfg, draws, actions).1;
            Lasting(cfg, h, slack) && TrailingDrops(h.log, ip) <= cfg.maxDrops
  {
    hide Knows, Take, Lasting, Swift, TrailingDrops;
    if actions == [] {
      StartLasting(cfg, slack, ip);
    } else {
      var n := |actions| - 1;
      SwiftPrefix(cfg, draws, actions, slack);
      hide AllSwift;
      CourseBounded(cfg, draws, actions[..n], slack, ip);
      CourseKnows(cfg, draws, actions[..n], ip);
      if Course(cfg, draws, actions).0 {
        var h := Course(cfg, draws, actions[..n]).1;
        TakeLasting(cfg, draws, h, actions[n], slack);
        TakeBounded(cfg, draws, h, actions[n], slack, ip);
      }
    }
  }

  lemma StartLasting(cfg: Config, slack: int, ip: string)
    ensures Lasting(cfg, START, slack) && TrailingDrops(START.log, ip) == 0
  {
  }

  // ----- and exactly then -----

  function Constant(cooldown: int): nat -> int
  {
    (n: nat) => cooldown
  }

  lemma Extend(cfg: Config, draws: nat -> int, actions: seq<Action>, slack: int, a: Action)
    requires Course(cfg, draws, actions).0 && AllSwift(cfg, draws, actions, slack)
    requires Possible(Course(cfg, draws, actions).1, a) && Swift(Course(cfg, draws, actions).1, a, slack)
    ensures Course(cfg, draws, actions + [a]) == (true, Take(cfg, draws, Course(cfg, draws, actions).1, a))
    ensures AllSwift(cfg, draws, actions + [a], slack)
  {
    assert (actions + [a])[..|actions|] == actions;
    forall i | 0 <= i < |actions + [a]|
      ensures Swift(Course(cfg, draws, (actions + [a])[..i]).1, (actions + [a])[i], slack)
    {
      assert (actions + [a])[..i] == actions[..i];
      assert i == |actions| ==> actions[..i] == actions;
    }
  }

  /** The state after a client with that cooldown was accepted at time 0 and then dropped k times. */
  predicate Dropped(h: Progress, cooldown: int, k: nat)
  {
    && h.table == Table(map[Name(1) := ClientState(0, cooldown, k)], 1) && h.phase.Idle?
    && TrailingDrops(h.log, Name(1)) == k
  }

  lemma OneMoreDrop(cfg: Config, draws: nat -> int, h: Progress, cooldown: int, k: nat)
    requires Dropped(h, cooldown, k) && cooldown > 0 && k < cfg.maxDrops && !cfg.forgetOnDrop
    ensures var denied := Take(cfg, draws, h, Decide(Name(1), cooldown - 1));
            denied.phase.Denied?
              && Dropped(Take(cfg, draws, Take(cfg, draws, denied, Count), Conclude(0)), cooldown, k + 1)
  {
    hide TrailingDrops;
    var denied := Take(cfg, draws, h, Decide(Name(1), cooldown - 1));
    var after := Take(cfg, draws, Take(cfg, draws, denied, Count), Conclude(0));
    TrailingSnoc(h.log, after.log[|h.log|], Name(1));
  }

  /** The last packet is denied, its client's entry expires, and its drop is not counted. */
  lemma UncountedDrop(cfg: Config, draws: nat -> int, h: Progress, cooldown: int, k: nat, slack: int)
    requires Dropped(h, cooldown, k) && cooldown > 0 && cfg.maxDrops > 0 && slack >= 0 && cooldown + slack > cfg.ttl + 1
    ensures var denied := Take(cfg, draws, h, Decide(Name(1), cooldown - 1));
            denied.phase.Denied? && denied.phase.now == cooldown - 1 &&
            var expired := Take(cfg, draws, denied, Expiry(cooldown - 1 + slack));
            expired.phase.Denied? &&
            TrailingDrops(Take(cfg, draws, Take(cfg, draws, expired, Count), Conclude(0)).log, Name(1)) == k + 1
  {
    hide TrailingDrops;
    var denied := Take(cfg, draws, h, Decide(Name(1), cooldown - 1));
    var expired := Take(cfg, draws, denied, Expiry(cooldown - 1 + slack));
    assert Name(1) !in expired.table.clients;
    var after := Take(cfg, draws, Take(cfg, draws, expired, Count), Conclude(0));
    TrailingSnoc(h.log, after.log[|h.log|], Name(1));
  }

  lemma {:induction false} ManyDrops(cfg: Config, cooldown: int, slack: int, k: nat) returns (actions: seq<Action>)
    requires cooldown > 0 && k <= cfg.maxDrops && !cfg.forgetOnDrop
    ensures Course(cfg, Constant(cooldown), actions).0 && AllSwift(cfg, Constant(cooldown), actions, slack)
    ensures Dropped(Course(cfg, Constant(cooldown), actions).1, cooldown, k)
    decreases k
  {
    hide Course, AllSwift, TrailingDrops;
    var draws := Constant(cooldown);
    if k == 0 {
      NothingYet(cfg, draws, slack);
      TrailingSnoc([], Entry(Name(1), Accept(0, cooldown, false)), Name(1));
      Extend(cfg, draws, [], slack, Decide(Name(1), 0));
      assert [] + [Entry(Name(1), Accept(0, cooldown, false))] == [Entry(Name(1), Accept(0, cooldown, false))];
      actions := [] + [Decide(Name(1), 0)];
    } else {
      var before := ManyDrops(cfg, cooldown, slack, k - 1);
      hide Take, Dropped;
      OneMoreDrop(cfg, draws, Course(cfg, draws, before).1, cooldown, k - 1);
      DropPossible(cfg, draws, before, cooldown, k - 1);
      Extend(cfg, draws, before, slack, Decide(Name(1), cooldown - 1));
      var denied := before + [Decide(Name(1), cooldown - 1)];
      CountPossible(cfg, draws, Course(cfg, draws, denied).1);
      Extend(cfg, draws, denied, slack, Count);
      Extend(cfg, draws, denied + [Count], slack, Conclude(0));
      actions := denied + [Count] + [Conclude(0)];
    }
  }

  lemma DropPossible(cfg: Config, draws: nat -> int, actions: seq<Action>, cooldown: int, k: nat)
    requires Dropped(Course(cfg, draws, actions).1, cooldown, k)
    ensures Course(cfg, draws, actions).1.phase.Idle?
  {
  }

  lemma CountPossible(cfg: Config, draws: nat -> int, h: Progress)
    requires h.phase.Denied?
    ensures Take(cfg, draws, h, Count).phase.Tallied?
  {
  }

  lemma NothingYet(cfg: Config, draws: nat -> int, slack: int)
    ensures Course(cfg, draws, []) == (true, START) && AllSwift(cfg, draws, [], slack)
            && TrailingDrops([], Name(1)) == 0
  {
  }

  /** If a cooldown can come within slack of outliving its entry, a client can be dropped N + 1 times in a row. */
  lemma UncountedDropHappens(cfg: Config, cooldown: int, slack: int) returns (actions: seq<Action>)
    requires cfg.maxDrops > 0 && !cfg.forgetOnDrop && cooldown > 0 && slack >= 0 && cooldown + slack > cfg.ttl + 1
    ensures Course(cfg, Constant(cooldown), actions).0 && AllSwift(cfg, Constant(cooldown), actions, slack)
    ensures TrailingDrops(Course(cfg, Constant(cooldown), actions).1.log, Name(1)) == cfg.maxDrops + 1
  {
    var draws := Constant(cooldown);
    var before := ManyDrops(cfg, cooldown, slack, cfg.maxDrops);
    var h := Course(cfg, draws, before).1;
    UncountedDrop(cfg, draws, h, cooldown, cfg.maxDrops, slack);
    DropPossible(cfg, draws, before, cooldown, cfg.maxDrops);
    hide Course, AllSwift, TrailingDrops, Take, Dropped;
    var denied := before + [Decide(Name(1), cooldown - 1)];
    Extend(cfg, draws, before, slack, Decide(Name(1), cooldown - 1));
    Extend(cfg, draws, denied, slack, Expiry(cooldown - 1 + slack));
    var expired := denied + [Expiry(cooldown - 1 + slack)];
    CountPossible(cfg, draws, Course(cfg, draws, expired).1);
    Extend(cfg, draws, expired, slack, Count);
    Extend(cfg, draws, expired + [Count], slack, Conclude(0));
    actions := expired + [Count] + [Conclude(0)];
  }

  /**
  With a limit N > 0 that drops do not reset, and cooldowns up to longest: no client is dropped more than N times in a
  row, wherever cleanups fall, if and only if an entry lives longer than the longest cooldown by the time that a
  cleanup's clock can be ahead of the packet that is being handled.
  */
  lemma NoStarvationIff(cfg: Config, longest: int, slack: int)
    requires cfg.maxDrops > 0 && !cfg.forgetOnDrop && longest > 0 && slack >= 0
    ensures (forall draws: nat -> int, actions, ip ::
               (forall n :: draws(n) <= longest) && AllSwift(cfg, draws, actions, slack)
               ==> TrailingDrops(Course(cfg, draws, actions).1.log, ip) <= cfg.maxDrops)
            <==> longest + slack <= cfg.ttl + 1
  {
    hide Course, AllSwift, TrailingDrops;
    if longest + slack <= cfg.ttl + 1 {
      forall draws: nat -> int, actions, ip | (forall n :: draws(n) <= longest) && AllSwift(cfg, draws, actions, slack)
        ensures TrailingDrops(Course(cfg, draws, actions).1.log, ip) <= cfg.maxDrops
      {
        CourseBounded(cfg, draws, actions, slack, ip);
      }
    } else {
      var actions := UncountedDropHappens(cfg, longest, slack);
      assert forall n :: Constant(longest)(n) <= longest;
    }
  }
}
