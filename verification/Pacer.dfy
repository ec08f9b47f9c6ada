/** The pacer of one client in shape mode: the critical sections of burstPacerState. */
module Pacer {

  /** A clock reading, or the zero time of a pacer that was just made. */
  datatype Time = Never | At(t: int)

  datatype PacerState = PacerState(lastRelease: Time, lastSeen: Time, pending: bool)

  const FRESH: PacerState := PacerState(Never, Never, false)

  datatype Config = Config(interval: int, maxDelay: int, maxPending: int, ttl: int)

  /** The limits that the command line enforces. */
  predicate Validated(cfg: Config)
  {
    cfg.interval > 0 && cfg.maxDelay >= 0 && cfg.maxPending >= 0
  }

  datatype Decision =
    | Release
    | TooLong(delay: int)
    | ClientPending(delay: int)
    | TooManyPending
    | Delay(delay: int)

  // ----- the critical sections as functions -----

  predicate Expired(cfg: Config, p: PacerState, now: int)
  {
    p.lastRelease.Never? || now - p.lastRelease.t >= cfg.interval
  }

  function Decide(cfg: Config, p: PacerState, now: int, pendingDelays: int): Decision
  {
    if Expired(cfg, p, now) then Release
    else
      var wanted := cfg.interval - (now - p.lastRelease.t);
      var delay := if wanted < 0 then 0 else wanted;
      if cfg.maxDelay > 0 && delay > cfg.maxDelay then TooLong(delay)
      else if p.pending then ClientPending(delay)
      else if cfg.maxPending > 0 && pendingDelays >= cfg.maxPending then TooManyPending
      else Delay(delay)
  }

  function AfterArrival(p: PacerState, now: int, d: Decision): PacerState
  {
    match d
    case Release => PacerState(At(now), At(now), false)
    case Delay(_) => p.(lastSeen := At(now), pending := true)
    case _ => p.(lastSeen := At(now))
  }

  function AfterRelease(at: int): PacerState
  {
    PacerState(At(at), At(at), false)
  }

  predicate Stale(p: PacerState, now: int, ttl: int)
  {
    !p.pending && p.lastSeen.At? && now - p.lastSeen.t > ttl
  }

  /** A delayed packet is due exactly one interval after the last release, and waits no longer than allowed. */
  lemma DelayIsExact(cfg: Config, p: PacerState, now: int, pendingDelays: int)
    requires Validated(cfg) && Decide(cfg, p, now, pendingDelays).Delay?
    ensures var delay := Decide(cfg, p, now, pendingDelays).delay;
            && p.lastRelease.At? && now + delay == p.lastRelease.t + cfg.interval && 0 < delay
            && (cfg.maxDelay > 0 ==> delay <= cfg.maxDelay)
            && (cfg.maxPending > 0 ==> pendingDelays < cfg.maxPending)
            && !p.pending
  {
  }

  /** The time from now until an interval after the last release, or nothing if it is over or there was none. */
  predicate TooEarly(cfg: Config, lastRelease: Time, now: int, remaining: int)
  {
    lastRelease.At? && remaining > 0 && now + remaining == lastRelease.t + cfg.interval
  }

  /**
  Each verdict under exactly its condition: a packet goes through unless it comes too early; one that comes too early is
  delayed by what remains if that is allowed, none of the client is pending and there is room for it.
  */
  lemma VerdictExactly(cfg: Config, p: PacerState, now: int, counter: int, remaining: int)
    requires Validated(cfg)
    ensures var d := Decide(cfg, p, now, counter);
            var early := TooEarly(cfg, p.lastRelease, now, remaining);
            var short := cfg.maxDelay == 0 || remaining <= cfg.maxDelay;
            && (d == Release <==> p.lastRelease == Never || p.lastRelease.t + cfg.interval <= now)
            && (d == TooLong(remaining) <==> early && !short)
            && (d == ClientPending(remaining) <==> early && short && p.pending)
            && (early && d == TooManyPending <==> early && short && !p.pending && 0 < cfg.maxPending <= counter)
            && (d == Delay(remaining)
              <==> early && short && !p.pending && (cfg.maxPending == 0 || counter < cfg.maxPending))
  {
  }

  // ----- the object -----

  class BurstPacerState {
    var lastRelease: Time
    var lastSeen: Time
    var pending: bool

    constructor ()
      ensures Abs() == FRESH
    {
      lastRelease, lastSeen, pending := Never, Never, false;
    }

    function Abs(): PacerState
      reads this
    {
      PacerState(lastRelease, lastSeen, pending)
    }

    /** The handler's critical section for an arriving packet. */
    method Arrive(cfg: Config, now: int, pendingDelays: int) returns (d: Decision)
      modifies this
      ensures d == Decide(cfg, old(Abs()), now, pendingDelays)
      ensures Abs() == AfterArrival(old(Abs()), now, d)
      ensures lastSeen == At(now)
      ensures lastRelease == if d.Release? then At(now) else old(lastRelease)
      ensures pending == if d.Release? then false else if d.Delay? then true else old(pending)
    {
      lastSeen := At(now);
      if lastRelease.Never? || now - lastRelease.t >= cfg.interval {
        lastRelease, lastSeen, pending := At(now), At(now), false;
        return Release;
      }
      var actualDelay := cfg.interval - (now - lastRelease.t);
      if actualDelay < 0 {
        actualDelay := 0;
      }
      if cfg.maxDelay > 0 && actualDelay > cfg.maxDelay {
        return TooLong(actualDelay);
      }
      if pending {
        return ClientPending(actualDelay);
      }
      if cfg.maxPending > 0 && pendingDelays >= cfg.maxPending {
        return TooManyPending;
      }
      pending := true;
      return Delay(actualDelay);
    }

    /** The releasing goroutine's critical section. */
    method ReleaseAt(at: int)
      modifies this
      ensures Abs() == AfterRelease(at)
      ensures lastRelease == lastSeen == At(at) && !pending
    {
      lastRelease, lastSeen, pending := At(at), At(at), false;
    }

    /** The cleanup loop's critical section. */
    method IsStale(now: int, ttl: int) returns (stale: bool)
      ensures stale == Stale(Abs(), now, ttl)
      ensures stale <==> !pending && lastSeen != Never && lastSeen.t + ttl < now
    {
      stale := !pending && !lastSeen.Never? && now - lastSeen.t > ttl;
    }
  }
}
