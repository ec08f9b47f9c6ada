/** The verdicts of drop mode told from the verdicts before them, without the table that the program keeps. */
module DropHistory {
  import opened Wrappers
  import opened DropLimiter
  import opened DropRuns

  /** The time and the cooldown of the client's last accepted packet. */
  function LastAccept(log: seq<Entry>, ip: string): Option<(int, int)>
  {
    if log == [] then None
    else
      var last := log[|log| - 1];
      if last.ip == ip && last.verdict.Accept? then Some((last.verdict.at, last.verdict.cooldown))
      else LastAccept(log[..|log| - 1], ip)
  }

  /** How many packets were accepted; each of them drew a cooldown. */
  function Accepts(log: seq<Entry>): nat
  {
    if log == [] then 0 else Accepts(log[..|log| - 1]) + if log[|log| - 1].verdict.Accept? then 1 else 0
  }

  /** The client has no accepted packet behind it, or its last one was dropped and it was forgotten for that. */
  predicate IsNew(cfg: Config, log: seq<Entry>, ip: string)
  {
    LastAccept(log, ip).None? || (cfg.forgetOnDrop && TrailingDrops(log, ip) > 0)
  }

  /**
  A packet is accepted if its client is new or the cooldown since its last accepted packet is over. Otherwise it is
  accepted by force if there is a limit and as many packets in a row were dropped, and else dropped.
  */
  function Expected(cfg: Config, draws: nat -> int, log: seq<Entry>, ip: string, now: int, forcedAt: int): Verdict
  {
    if IsNew(cfg, log, ip) then Accept(now, draws(Accepts(log)), false)
    else
      var (at, cooldown) := LastAccept(log, ip).value;
      if at + cooldown <= now then Accept(now, draws(Accepts(log)), false)
      else if 0 < cfg.maxDrops <= TrailingDrops(log, ip) then Accept(forcedAt, draws(Accepts(log)), true)
      else Drop(cooldown, at + cooldown - now)
  }

  lemma LogGrows(log: seq<Entry>, e: Entry, ip: string)
    ensures LastAccept(log + [e], ip)
            == if e.ip == ip && e.verdict.Accept? then Some((e.verdict.at, e.verdict.cooldown)) else LastAccept(log, ip)
    ensures Accepts(log + [e]) == Accepts(log) + if e.verdict.Accept? then 1 else 0
  {
    assert (log + [e])[..|log|] == log;
  }

  /** What the table holds of a client is in the log. */
  predicate Tells(cfg: Config, h: History, ip: string)
  {
    && (ip in h.table.clients <==> !IsNew(cfg, h.log, ip))
    && (ip in h.table.clients ==>
          var c := h.table.clients[ip];
          LastAccept(h.log, ip) == Some((c.lastSeen, c.cooldown)) && c.dropCount == TrailingDrops(h.log, ip))
  }

  ghost predicate LogTells(cfg: Config, h: History)
  {
    h.table.drawn == Accepts(h.log) && forall ip :: Tells(cfg, h, ip)
  }

  lemma PacketTells(cfg: Config, draws: nat -> int, h: History, ev: Event, ip: string)
    requires ev.Syn? && h.table.drawn == Accepts(h.log) && Tells(cfg, h, ev.ip) && Tells(cfg, h, ip)
    ensures var after := Step(cfg, draws, h, ev);
            && after.log == h.log + [Entry(ev.ip, Expected(cfg, draws, h.log, ev.ip, ev.now, ev.forcedAt))]
            && after.table.drawn == Accepts(after.log) && Tells(cfg, after, ip)
  {
    hide LastAccept, Accepts, TrailingDrops;
    var e := Entry(ev.ip, Step(cfg, draws, h, ev).log[|h.log|].verdict);
    LogGrows(h.log, e, ip);
    TrailingSnoc(h.log, e, ip);
  }

  lemma {:induction false} RunTells(cfg: Config, draws: nat -> int, evs: seq<Event>)
    requires forall i :: 0 <= i < |evs| ==> evs[i].Syn?
    ensures LogTells(cfg, Run(cfg, draws, evs))
  {
    hide Tells, Step, Accepts;
    if evs == [] {
      NothingToTell(cfg, draws);
    } else {
      var before, ev := Run(cfg, draws, evs[..|evs| - 1]), evs[|evs| - 1];
      RunTells(cfg, draws, evs[..|evs| - 1]);
      PacketTells(cfg, draws, before, ev, ev.ip);
      forall ip
        ensures Tells(cfg, Run(cfg, draws, evs), ip)
      {
        PacketTells(cfg, draws, before, ev, ip);
      }
    }
  }

  lemma NothingToTell(cfg: Config, draws: nat -> int)
    ensures LogTells(cfg, Run(cfg, draws, []))
  {
  }


  /**
  Over any run of packets and cleanups with cooldowns that do not outlive the entries, the next packet gets exactly the
  verdict that the verdicts so far call for, the cooldown that is next in the stream included.
  */
  lemma VerdictByHistory(
    cfg: Config, draws: nat -> int, evs: seq<Event>, lead: int, ip: string, now: int, forcedAt: int)
    requires Timely(evs + [Syn(ip, now, forcedAt)], lead) && forall n :: Fits(cfg, lead, draws(n))
    requires forall i :: 0 <= i < |evs| ==> !evs[i].Forget?
    ensures var log := Run(cfg, draws, evs).log;
            Run(cfg, draws, evs + [Syn(ip, now, forcedAt)]).log
            == log + [Entry(ip, Expected(cfg, draws, log, ip, now, forcedAt))]
  {
    hide Run, Step, Expected, Fits;
    var next := Syn(ip, now, forcedAt);
    assert Timely(evs, lead) by { TimelyPrefix(evs, next, lead); }
    CleanupIsInvisible(cfg, draws, evs, lead);
    CleanupIsInvisible(cfg, draws, evs + [next], lead);
    WithoutCleanupSyns(evs);
    RunTells(cfg, draws, WithoutCleanup(evs));
    RunSnoc(cfg, draws, evs, next);
    RunSnoc(cfg, draws, WithoutCleanup(evs), next);
    PacketTells(cfg, draws, Run(cfg, draws, WithoutCleanup(evs)), next, ip);
  }

  lemma TimelyPrefix(evs: seq<Event>, next: Event, lead: int)
    requires Timely(evs + [next], lead)
    ensures Timely(evs, lead)
  {
    assert forall i :: 0 <= i < |evs| ==> (evs + [next])[i] == evs[i];
  }
}
