/** The drop-mode limiter: the per-client cooldown table of internal/state.go and the drop branch of the handler. */
module DropLimiter {

  datatype ClientState = ClientState(lastSeen: int, cooldown: int, dropCount: nat)

  /** drawn counts the cooldowns taken from the algorithm so far. */
  datatype Table = Table(clients: map<string, ClientState>, drawn: nat)

  datatype Config = Config(maxDrops: nat, forgetOnDrop: bool, ttl: int)

  datatype Verdict =
    | Accept(at: int, cooldown: int, forced: bool)
    | Drop(cooldown: int, remaining: int)

  // ----- one packet as a function; draws gives the cooldowns in the order the algorithm produces them -----

  predicate Allows(t: Table, ip: string, now: int)
  {
    ip !in t.clients || now - t.clients[ip].lastSeen >= t.clients[ip].cooldown
  }

  function Accepting(draws: nat -> int, t: Table, ip: string, at: int): Table
  {
    Table(t.clients[ip := ClientState(at, draws(t.drawn), 0)], t.drawn + 1)
  }

  function Counted(t: Table, ip: string): Table
    requires ip in t.clients
  {
    var c := t.clients[ip];
    t.(clients := t.clients[ip := c.(dropCount := c.dropCount + 1)])
  }

  function Packet(cfg: Config, draws: nat -> int, t: Table, ip: string, now: int, forcedAt: int): (Table, Verdict)
  {
    if Allows(t, ip, now) then (Accepting(draws, t, ip, now), Accept(now, draws(t.drawn), false))
    else
      var c := t.clients[ip];
      var counted := Counted(t, ip);
      if cfg.maxDrops > 0 && c.dropCount + 1 > cfg.maxDrops then
        (Accepting(draws, counted, ip, forcedAt), Accept(forcedAt, draws(t.drawn), true))
      else
        (if cfg.forgetOnDrop then counted.(clients := counted.clients - {ip}) else counted,
         Drop(c.cooldown, c.cooldown - (now - c.lastSeen)))
  }

  function Expire(clients: map<string, ClientState>, now: int, ttl: int): map<string, ClientState>
  {
    map ip | ip in clients && clients[ip].lastSeen >= now - ttl :: clients[ip]
  }

  // ----- the program's objects -----

  class State {
    const draws: nat -> int
    var clients: map<string, ClientState>
    var drawn: nat

    constructor (draws: nat -> int)
      ensures this.draws == draws && Abs() == Table(map[], 0)
    {
      this.draws := draws;
      clients, drawn := map[], 0;
    }

    function Abs(): Table
      reads this
    {
      Table(clients, drawn)
    }

    /** The algorithm's next cooldown. */
    method NextCooldown() returns (cooldown: int)
      modifies this`drawn
      ensures cooldown == draws(old(drawn)) && drawn == old(drawn) + 1
    {
      cooldown := draws(drawn);
      drawn := drawn + 1;
    }

    method Decide(ip: string, now: int) returns (allowed: bool, cooldown: int, elapsed: int, remaining: int)
      modifies this
      ensures allowed == old(Allows(Abs(), ip, now))
      ensures allowed <==> ip in old(clients) ==> old(clients)[ip].lastSeen + old(clients)[ip].cooldown <= now
      ensures clients
              == if allowed then old(clients)[ip := ClientState(now, draws(old(drawn)), 0)] else old(clients)
      ensures allowed ==>
                Abs() == Accepting(draws, old(Abs()), ip, now) && cooldown == draws(old(drawn)) && remaining == 0
      ensures !allowed ==>
                && Abs() == old(Abs()) && cooldown == clients[ip].cooldown
                && elapsed + remaining == cooldown && remaining > 0
      ensures elapsed == if ip in old(clients) then now - old(clients)[ip].lastSeen else 0
    {
      if ip !in clients {
        cooldown := NextCooldown();
        clients := clients[ip := ClientState(now, cooldown, 0)];
        return true, cooldown, 0, 0;
      }
      var st := clients[ip];
      elapsed := now - st.lastSeen;
      if elapsed >= st.cooldown {
        cooldown := NextCooldown();
        clients := clients[ip := ClientState(now, cooldown, 0)];
        return true, cooldown, elapsed, 0;
      }
      remaining := st.cooldown - elapsed;
      return false, st.cooldown, elapsed, remaining;
    }

    method IncDrop(ip: string) returns (count: nat)
      modifies this`clients
      ensures ip in old(clients) ==> Abs() == Counted(old(Abs()), ip) && count == clients[ip].dropCount
      ensures ip !in old(clients) ==> clients == old(clients) && count == 0
      ensures ip in old(clients) ==> count == old(clients)[ip].dropCount + 1
    {
      if ip !in clients {
        return 0;
      }
      var st := clients[ip];
      clients := clients[ip := st.(dropCount := st.dropCount + 1)];
      return st.dropCount + 1;
    }

    method ForceAccept(ip: string, now: int) returns (cooldown: int)
      modifies this
      ensures Abs() == Accepting(draws, old(Abs()), ip, now) && cooldown == draws(old(drawn))
      ensures clients == old(clients)[ip := ClientState(now, cooldown, 0)] && drawn == old(drawn) + 1
    {
      cooldown := NextCooldown();
      clients := clients[ip := ClientState(now, cooldown, 0)];
    }

    method Forget(ip: string)
      modifies this`clients
      ensures clients == old(clients) - {ip}
    {
      clients := clients - {ip};
    }

    method Cleanup(now: int, ttl: int) returns (removed: nat)
      modifies this`clients
      ensures clients == Expire(old(clients), now, ttl)
      ensures forall ip :: ip in clients <==> ip in old(clients) && now <= old(clients)[ip].lastSeen + ttl
      ensures forall ip :: ip in clients ==> clients[ip] == old(clients)[ip]
      ensures removed == |old(clients)| - |clients|
    {
      var cutoff := now - ttl;
      removed := 0;
      var todo := clients.Keys;
      while todo != {}
        invariant todo <= clients.Keys <= old(clients).Keys
        invariant forall ip :: ip in clients ==> clients[ip] == old(clients)[ip]
        invariant forall ip :: ip in old(clients) && ip !in todo ==>
                    (ip in clients <==> old(clients)[ip].lastSeen >= cutoff)
        invariant removed == |old(clients)| - |clients|
        decreases todo
      {
        var ip :| ip in todo;
        if clients[ip].lastSeen < cutoff {
          assert (clients - {ip}).Keys == clients.Keys - {ip};
          clients := clients - {ip};
          removed := removed + 1;
        }
        todo := todo - {ip};
      }
      assert clients.Keys == Expire(old(clients), now, ttl).Keys;
    }
  }

  /** The drop branch of the handler, from the table's decision to the verdict. */
  method HandleSyn(s: State, cfg: Config, ip: string, now: int, forcedAt: int) returns (v: Verdict)
    modifies s
    ensures (s.Abs(), v) == Packet(cfg, s.draws, old(s.Abs()), ip, now, forcedAt)
  {
    var allowed, cooldown, elapsed, remaining := s.Decide(ip, now);
    if allowed {
      return Accept(now, cooldown, false);
    }
    var dropCount := s.IncDrop(ip);
    if cfg.maxDrops > 0 && dropCount > cfg.maxDrops {
      var forcedCooldown := s.ForceAccept(ip, forcedAt);
      return Accept(forcedAt, forcedCooldown, true);
    }
    if cfg.forgetOnDrop {
      s.Forget(ip);
    }
    return Drop(cooldown, remaining);
  }
}
