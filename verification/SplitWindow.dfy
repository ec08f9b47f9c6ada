/** The per-client pass window of the split handler: pass one payload packet, split the ones that follow it closely. */
module SplitWindow {
  import opened Bytes

  type Address = seq<byte>

  // ----- the table as a value -----

  /** The client passed a packet less than window ago. */
  predicate MustSplit(last: map<Address, int>, client: Address, now: int, window: int)
  {
    client in last && now - last[client] < window
  }

  function AfterDecide(last: map<Address, int>, client: Address, now: int, window: int): map<Address, int>
  {
    if MustSplit(last, client, now, window) then last else last[client := now]
  }

  function AfterCleanup(last: map<Address, int>, now: int, ttl: int): map<Address, int>
  {
    map client | client in last && now - last[client] <= ttl :: last[client]
  }

  class SplitPayloadWindowState {
    var lastPass: map<Address, int>

    constructor ()
      ensures lastPass == map[]
    {
      lastPass := map[];
    }

    method Decide(client: Address, now: int, window: int) returns (split: bool, sincePass: int)
      modifies this
      ensures split == MustSplit(old(lastPass), client, now, window)
      ensures lastPass == AfterDecide(old(lastPass), client, now, window)
      ensures split <==> client in old(lastPass) && now < old(lastPass)[client] + window
      ensures lastPass == if split then old(lastPass) else old(lastPass)[client := now]
      ensures sincePass == if client in old(lastPass) then now - old(lastPass)[client] else 0
    {
      sincePass := 0;
      if client !in lastPass || now - lastPass[client] >= window {
        if client in lastPass {
          sincePass := now - lastPass[client];
        }
        lastPass := lastPass[client := now];
        return false, sincePass;
      }
      return true, now - lastPass[client];
    }

    method Cleanup(now: int, ttl: int) returns (removed: nat)
      modifies this
      ensures lastPass == AfterCleanup(old(lastPass), now, ttl)
      ensures forall c :: c in lastPass <==> c in old(lastPass) && now <= old(lastPass)[c] + ttl
      ensures forall c :: c in lastPass ==> lastPass[c] == old(lastPass)[c]
      ensures removed == |old(lastPass)| - |lastPass|
    {
      removed := 0;
      var todo := lastPass.Keys;
      while todo != {}
        invariant todo <= lastPass.Keys <= old(lastPass).Keys
        invariant forall c :: c in lastPass ==> lastPass[c] == old(lastPass)[c]
        invariant forall c :: c in old(lastPass) && c !in todo ==> (c in lastPass <==> now - old(lastPass)[c] <= ttl)
        invariant removed == |old(lastPass)| - |lastPass|
        decreases todo
      {
        var c :| c in todo;
        if now - lastPass[c] > ttl {
          assert |lastPass.Keys - {c}| == |lastPass.Keys| - 1;
          assert (lastPass - {c}).Keys == lastPass.Keys - {c};
          lastPass := lastPass - {c};
          removed := removed + 1;
        }
        todo := todo - {c};
      }
      assert lastPass.Keys == AfterCleanup(old(lastPass), now, ttl).Keys;
    }
  }

  // ----- runs -----

  datatype Event = Payload(client: Address, now: int) | Cleanup(now: int)

  datatype Decision = Decision(client: Address, now: int, split: bool)

  /** The state after a run, with the log of its decisions. */
  datatype State = State(last: map<Address, int>, log: seq<Decision>)

  function Step(window: int, st: State, ev: Event): State
  {
    match ev
    case Payload(client, now) =>
      State(AfterDecide(st.last, client, now, window),
            st.log + [Decision(client, now, MustSplit(st.last, client, now, window))])
    // The cleanup loop is given the pass window as its time to live.
    case Cleanup(now) => State(AfterCleanup(st.last, now, window), st.log)
  }

  /** The log does not influence the table. */
  lemma StepLast(window: int, last: map<Address, int>, log: seq<Decision>, ev: Event)
    ensures Step(window, State(last, log), ev).last == Step(window, State(last, []), ev).last
  {
  }

  function Run(window: int, evs: seq<Event>): State
  {
    if evs == [] then State(map[], []) else Step(window, Run(window, evs[..|evs| - 1]), evs[|evs| - 1])
  }

  /**
  Packets arrive in the order of the clock. The clock of a packet is read before the table decides, so a cleanup in
  between has read a later one, by at most lead.
  */
  ghost predicate Timely(evs: seq<Event>, lead: int)
  {
    forall i, j :: 0 <= i < j < |evs| && evs[j].Payload? ==> EndsBy(evs[i], evs[j].now, lead)
  }

  predicate EndsBy(ev: Event, now: int, lead: int)
  {
    ev.now <= if ev.Cleanup? then now + lead else now
  }

  /** Some cleanup found a pass at that time older than the window. */
  ghost predicate ExpiredBy(window: int, evs: seq<Event>, pass: int)
  {
    exists i :: 0 <= i < |evs| && evs[i].Cleanup? && evs[i].now - pass > window
  }

  lemma ExpiredLonger(window: int, evs: seq<Event>, pass: int)
    requires evs != [] && ExpiredBy(window, evs[..|evs| - 1], pass)
    ensures ExpiredBy(window, evs, pass)
  {
    var before := evs[..|evs| - 1];
    var i :| 0 <= i < |before| && before[i].Cleanup? && before[i].now - pass > window;
    assert evs[i] == before[i];
  }

  // ----- what the window promises -----

  /** Decision j splits only strictly inside the window opened by an earlier pass of the same client. */
  ghost predicate SplitInsideWindow(log: seq<Decision>, window: int, j: nat)
    requires j < |log|
  {
    log[j].split ==>
      exists i :: 0 <= i < j && PassOf(log[i], log[j].client) && 0 <= log[j].now - log[i].now < window
  }

  predicate PassOf(d: Decision, client: Address)
  {
    !d.split && d.client == client
  }

  ghost predicate PassesApart(log: seq<Decision>, gap: int)
  {
    forall i, j :: 0 <= i < j < |log| && !log[i].split && PassOf(log[j], log[i].client) ==>
      log[j].now - log[i].now >= gap
  }

  /** How far apart passes are when cleanups read a clock that is up to lead ahead. */
  function Gap(window: int, lead: int): int
  {
    if lead <= 1 then window else if window + 1 < lead then 0 else window + 1 - lead
  }

  /** The table's entry is a pass of the client. */
  ghost predicate EntryIsPass(st: State, client: Address)
  {
    client in st.last ==> exists i :: 0 <= i < |st.log| && PassOf(st.log[i], client) && st.log[i].now == st.last[client]
  }

  /** A pass is no later than the client's entry, or it has expired if there is none. */
  ghost predicate PassIsHeld(window: int, evs: seq<Event>, st: State, i: nat)
    requires i < |st.log|
  {
    !st.log[i].split ==>
      if st.log[i].client in st.last then st.log[i].now <= st.last[st.log[i].client]
      else ExpiredBy(window, evs, st.log[i].now)
  }

  ghost predicate Holds(window: int, evs: seq<Event>, st: State)
  {
    && (forall client :: EntryIsPass(st, client))
    && (forall i :: 0 <= i < |st.log| ==> PassIsHeld(window, evs, st, i))
  }

  ghost predicate Before(log: seq<Decision>, now: int)
  {
    forall i :: 0 <= i < |log| ==> log[i].now <= now
  }

  lemma {:induction false} LogTimes(window: int, evs: seq<Event>, now: int, lead: int)
    requires forall i :: 0 <= i < |evs| ==> EndsBy(evs[i], now, lead)
    ensures Before(Run(window, evs).log, now)
  {
    if evs != [] {
      LogTimes(window, evs[..|evs| - 1], now, lead);
    }
  }

  lemma PayloadHolds(window: int, evs: seq<Event>, st: State)
    requires evs != [] && evs[|evs| - 1].Payload? && Before(st.log, evs[|evs| - 1].now)
    requires Holds(window, evs[..|evs| - 1], st)
    ensures Holds(window, evs, Step(window, st, evs[|evs| - 1]))
  {
    hide ExpiredBy;
    var ev, n := evs[|evs| - 1], |st.log|;
    var after := Step(window, st, ev);
    assert forall i :: 0 <= i < n ==> after.log[i] == st.log[i];
    forall client
      ensures EntryIsPass(after, client)
    {
      assert EntryIsPass(st, client);
      if client == ev.client && !after.log[n].split {
        assert PassOf(after.log[n], client) && after.log[n].now == after.last[client];
      } else if client in after.last {
        var i :| 0 <= i < n && PassOf(st.log[i], client) && st.log[i].now == st.last[client];
        assert PassOf(after.log[i], client);
      }
    }
    forall i | 0 <= i < |after.log|
      ensures PassIsHeld(window, evs, after, i)
    {
      if i < n {
        assert PassIsHeld(window, evs[..|evs| - 1], st, i);
        if !st.log[i].split && st.log[i].client !in st.last {
          ExpiredLonger(window, evs, st.log[i].now);
        }
      }
    }
  }

  lemma CleanupHolds(window: int, evs: seq<Event>, st: State)
    requires evs != [] && evs[|evs| - 1].Cleanup? && Holds(window, evs[..|evs| - 1], st)
    ensures Holds(window, evs, Step(window, st, evs[|evs| - 1]))
  {
    var ev := evs[|evs| - 1];
    var after := Step(window, st, ev);
    forall client
      ensures EntryIsPass(after, client)
    {
      assert EntryIsPass(st, client);
    }
    forall i | 0 <= i < |after.log|
      ensures PassIsHeld(window, evs, after, i)
    {
      assert PassIsHeld(window, evs[..|evs| - 1], st, i);
      if !st.log[i].split && st.log[i].client !in st.last {
        ExpiredLonger(window, evs, st.log[i].now);
      } else if st.log[i].client in st.last && ev.now - st.last[st.log[i].client] > window && !st.log[i].split {
        assert evs[|evs| - 1].now - st.log[i].now > window;
      }
    }
  }

  /** A pass is a gap after every earlier pass of its client. */
  lemma PassKeepsGap(window: int, evs: seq<Event>, st: State, ev: Event, lead: int, i: nat)
    requires ev.Payload? && i < |st.log| && PassIsHeld(window, evs, st, i) && PassOf(st.log[i], ev.client)
    requires forall k :: 0 <= k < |evs| ==> EndsBy(evs[k], ev.now, lead)
    requires window >= 0 && st.log[i].now <= ev.now
    requires !MustSplit(st.last, ev.client, ev.now, window)
    ensures ev.now - st.log[i].now >= Gap(window, lead)
  {
    if ev.client !in st.last {
      var k :| 0 <= k < |evs| && evs[k].Cleanup? && evs[k].now - st.log[i].now > window;
      assert EndsBy(evs[k], ev.now, lead);
    }
  }

  lemma StepApart(window: int, evs: seq<Event>, st: State, ev: Event, lead: int)
    requires ev.Payload? && Holds(window, evs, st) && PassesApart(st.log, Gap(window, lead))
    requires window >= 0 && Before(st.log, ev.now)
    requires forall k :: 0 <= k < |evs| ==> EndsBy(evs[k], ev.now, lead)
    ensures PassesApart(Step(window, st, ev).log, Gap(window, lead))
  {
    hide Gap, EndsBy, PassIsHeld, EntryIsPass;
    var log, n := Step(window, st, ev).log, |st.log|;
    forall i, j | 0 <= i < j < |log| && !log[i].split && PassOf(log[j], log[i].client)
      ensures log[j].now - log[i].now >= Gap(window, lead)
    {
      assert log[i] == st.log[i];
      if j < n {
        assert log[j] == st.log[j] && PassOf(st.log[j], st.log[i].client);
      } else {
        PassKeepsGap(window, evs, st, ev, lead, i);
      }
    }
  }

  lemma StepInside(window: int, evs: seq<Event>, st: State, ev: Event, j: nat)
    requires ev.Payload? && Holds(window, evs, st) && Before(st.log, ev.now)
    requires j <= |st.log| && (j < |st.log| ==> SplitInsideWindow(st.log, window, j))
    ensures j < |Step(window, st, ev).log| && SplitInsideWindow(Step(window, st, ev).log, window, j)
  {
    hide PassIsHeld;
    var log, n := Step(window, st, ev).log, |st.log|;
    assert forall i :: 0 <= i < n ==> log[i] == st.log[i];
    if j < n && log[j].split {
      var i :| 0 <= i < j && PassOf(st.log[i], st.log[j].client) && 0 <= st.log[j].now - st.log[i].now < window;
      assert PassOf(log[i], log[j].client);
    } else if log[j].split {
      assert EntryIsPass(st, ev.client);
      var i :| 0 <= i < n && PassOf(st.log[i], ev.client) && st.log[i].now == st.last[ev.client];
      assert PassOf(log[i], log[j].client);
    }
  }

  /**
  Over any run, with cleanup at any moment: passes of a client are a gap apart, which is the window unless a cleanup's
  clock is two ticks ahead, and every split lies strictly inside a window.
  */
  lemma {:induction false} WindowGuarantee(window: int, evs: seq<Event>, lead: int)
    requires Timely(evs, lead) && window >= 0
    ensures Holds(window, evs, Run(window, evs))
    ensures PassesApart(Run(window, evs).log, Gap(window, lead))
    ensures forall j :: 0 <= j < |Run(window, evs).log| ==> SplitInsideWindow(Run(window, evs).log, window, j)
  {
    hide Step, Holds, PassesApart, SplitInsideWindow, EndsBy;
    if evs == [] {
      NothingYet(window, lead);
    } else {
      var before, ev := evs[..|evs| - 1], evs[|evs| - 1];
      var st := Run(window, before);
      WindowGuarantee(window, before, lead);
      if ev.Payload? {
        LogTimes(window, before, ev.now, lead);
        PayloadHolds(window, evs, st);
        StepApart(window, before, st, ev, lead);
        forall j | 0 <= j < |Run(window, evs).log|
          ensures SplitInsideWindow(Run(window, evs).log, window, j)
        {
          StepLength(window, st, ev);
          StepInside(window, before, st, ev, j);
        }
      } else {
        CleanupHolds(window, evs, st);
        StepLength(window, st, ev);
      }
    }
  }

  lemma StepLength(window: int, st: State, ev: Event)
    ensures var log := Step(window, st, ev).log;
            if ev.Payload? then |log| == |st.log| + 1 else log == st.log
  {
  }

  lemma NothingYet(window: int, lead: int)
    ensures Holds(window, [], Run(window, [])) && PassesApart(Run(window, []).log, Gap(window, lead))
    ensures Run(window, []) == State(map[], [])
  {
  }

  // ----- cleanup is invisible up to a lead of one tick -----

  function WithoutCleanup(evs: seq<Event>): seq<Event>
  {
    if evs == [] then []
    else WithoutCleanup(evs[..|evs| - 1]) + if evs[|evs| - 1].Payload? then [evs[|evs| - 1]] else []
  }

  /** An entry of full that cleaned lost has expired. */
  ghost predicate Simulates(window: int, evs: seq<Event>, cleaned: map<Address, int>, full: map<Address, int>)
  {
    && (forall c :: c in cleaned ==> c in full && full[c] == cleaned[c])
    && (forall c :: c in full && c !in cleaned ==> ExpiredBy(window, evs, full[c]))
  }

  lemma StepSimulates(window: int, evs: seq<Event>, cleaned: map<Address, int>, full: map<Address, int>, lead: int)
    requires evs != [] && lead <= 1 && Simulates(window, evs[..|evs| - 1], cleaned, full)
    requires var ev := evs[|evs| - 1]; ev.Payload? ==> forall i :: 0 <= i < |evs| - 1 ==> EndsBy(evs[i], ev.now, lead)
    ensures var ev := evs[|evs| - 1];
            match ev
            case Payload(client, now) =>
              && MustSplit(cleaned, client, now, window) == MustSplit(full, client, now, window)
              && Simulates(window, evs, AfterDecide(cleaned, client, now, window),
                AfterDecide(full, client, now, window))
            case Cleanup(now) => Simulates(window, evs, AfterCleanup(cleaned, now, window), full)
  {
    var ev := evs[|evs| - 1];
    if ev.Payload? && ev.client in full && ev.client !in cleaned {
      var i :| 0 <= i < |evs| - 1 && evs[..|evs| - 1][i].Cleanup? && evs[..|evs| - 1][i].now - full[ev.client] > window;
      assert EndsBy(evs[i], ev.now, lead);
    }
    forall c | c in full && c !in cleaned
      ensures ExpiredBy(window, evs, full[c])
    {
      ExpiredLonger(window, evs, full[c]);
    }
  }

  /** If no cleanup's clock is more than a tick ahead, cleaning up never changes whether a packet is split. */
  lemma {:induction false} CleanupIsInvisible(window: int, evs: seq<Event>, lead: int)
    requires Timely(evs, lead) && lead <= 1
    ensures Run(window, evs).log == Run(window, WithoutCleanup(evs)).log
    ensures Simulates(window, evs, Run(window, evs).last, Run(window, WithoutCleanup(evs)).last)
  {
    hide Simulates, MustSplit, EndsBy;
    if evs == [] {
      EmptySimulates(window);
    } else {
      var before, ev := evs[..|evs| - 1], evs[|evs| - 1];
      CleanupIsInvisible(window, before, lead);
      StepSimulates(window, evs, Run(window, before).last, Run(window, WithoutCleanup(before)).last, lead);
      if ev.Payload? {
        var kept := WithoutCleanup(evs);
        assert kept[..|kept| - 1] == WithoutCleanup(before) && kept[|kept| - 1] == ev;
      } else {
        assert WithoutCleanup(evs) == WithoutCleanup(before);
      }
    }
  }

  lemma EmptySimulates(window: int)
    ensures Simulates(window, [], map[], map[])
  {
  }

  // ----- and no further -----

  lemma RunSnoc(window: int, evs: seq<Event>, ev: Event)
    ensures Run(window, evs + [ev]) == Step(window, Run(window, evs), ev)
    ensures WithoutCleanup(evs + [ev]) == WithoutCleanup(evs) + if ev.Payload? then [ev] else []
  {
    assert (evs + [ev])[..|evs|] == evs;
  }

  const SENDER: Address := [10, 0, 0, 1]

  lemma FirstPasses(window: int)
    ensures Run(window, [Payload(SENDER, 0)]) == State(map[SENDER := 0], [Decision(SENDER, 0, false)])
    ensures WithoutCleanup([Payload(SENDER, 0)]) == [Payload(SENDER, 0)]
  {
    RunSnoc(window, [], Payload(SENDER, 0));
    assert [] + [Payload(SENDER, 0)] == [Payload(SENDER, 0)];
    assert Run(window, []) == State(map[], []);
    assert map[][SENDER := 0] == map[SENDER := 0];
  }

  /** One pass, its cleanup a window later, and a packet that comes as early as the lead allows. */
  function EarlyCleanup(window: int, lead: int): seq<Event>
  {
    [Payload(SENDER, 0)] + [Cleanup(window + 1)] + [Payload(SENDER, Gap(window, lead))]
  }

  lemma EarlyCleanupShows(window: int, lead: int)
    requires window > 0 && lead > 1
    ensures Timely(EarlyCleanup(window, lead), lead)
    ensures Run(window, EarlyCleanup(window, lead)).log
            == [Decision(SENDER, 0, false), Decision(SENDER, Gap(window, lead), false)]
    ensures Run(window, WithoutCleanup(EarlyCleanup(window, lead))).log
            == [Decision(SENDER, 0, false), Decision(SENDER, Gap(window, lead), true)]
  {
    hide Run, WithoutCleanup;
    var first, next := [Payload(SENDER, 0)], Payload(SENDER, Gap(window, lead));
    FirstPasses(window);
    RunSnoc(window, first, Cleanup(window + 1));
    assert SENDER !in Run(window, first + [Cleanup(window + 1)]).last;
    RunSnoc(window, first + [Cleanup(window + 1)], next);
    RunSnoc(window, first, next);
    assert WithoutCleanup(first + [Cleanup(window + 1)]) == first;
  }

  lemma NextWindowPasses(window: int, lead: int)
    requires window > 0
    ensures var evs := [Payload(SENDER, 0)] + [Payload(SENDER, window)];
            && Timely(evs, lead)
            && Run(window, evs).log == [Decision(SENDER, 0, false), Decision(SENDER, window, false)]
  {
    FirstPasses(window);
    RunSnoc(window, [Payload(SENDER, 0)], Payload(SENDER, window));
  }

  /** Cleanup is invisible in every run if and only if no cleanup's clock is more than a tick ahead of a packet's. */
  lemma CleanupInvisibleIff(window: int, lead: int)
    requires window > 0
    ensures (forall evs :: Timely(evs, lead) ==> Run(window, evs).log == Run(window, WithoutCleanup(evs)).log)
            <==> lead <= 1
  {
    hide Run, Timely, WithoutCleanup;
    if lead <= 1 {
      forall evs | Timely(evs, lead)
        ensures Run(window, evs).log == Run(window, WithoutCleanup(evs)).log
      {
        CleanupIsInvisible(window, evs, lead);
      }
    } else {
      EarlyCleanupShows(window, lead);
    }
  }

  lemma TwoPasses(log: seq<Decision>, at: int, gap: int)
    requires log == [Decision(SENDER, 0, false), Decision(SENDER, at, false)] && at < gap
    ensures !PassesApart(log, gap)
  {
    assert PassOf(log[1], log[0].client);
  }

  /** In every run the passes of a client are that far apart if and only if it is no more than the gap. */
  lemma PassesApartIff(window: int, lead: int, gap: int)
    requires window > 0
    ensures (forall evs :: Timely(evs, lead) ==> PassesApart(Run(window, evs).log, gap)) <==> gap <= Gap(window, lead)
  {
    hide Run, Timely;
    if gap <= Gap(window, lead) {
      forall evs | Timely(evs, lead)
        ensures PassesApart(Run(window, evs).log, gap)
      {
        WindowGuarantee(window, evs, lead);
      }
    } else if lead <= 1 {
      NextWindowPasses(window, lead);
      TwoPasses(Run(window, [Payload(SENDER, 0)] + [Payload(SENDER, window)]).log, window, gap);
    } else {
      EarlyCleanupShows(window, lead);
      TwoPasses(Run(window, EarlyCleanup(window, lead)).log, Gap(window, lead), gap);
    }
  }
}
