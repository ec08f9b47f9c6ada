/** Whole runs of the split handler: the stream that reaches the wire and the memory of segments. */
module SplitRuns {
  import opened Wrappers
  import opened Bytes
  import opened Packet
  import opened SplitLaws
  import opened FakePacket
  import FakeStream
  import opened SplitOutcomes
  import opened Stream
  import opened SplitHandler
  import SplitWindow

  /** Steps of the handler, of the sending goroutines and of the two cleanup loops, in any order. */
  datatype Event =
    | Arrive(packet: seq<byte>, world: World)
    | Wake(index: nat, ok: bool)
    | TestSeen(key: SegmentKey, now: int)
    | DeleteSeen
    | ExpireWindow(now: int)

  const INITIAL: HandlerState := HandlerState(map[], None, map[], [], [], [])

  function Step(cfg: Config, st: HandlerState, ev: Event): HandlerState
    requires 0 < cfg.splitAt
  {
    match ev
    case Arrive(packet, w) => Handle(cfg, st, packet, w)
    case Wake(i, ok) => if i < |st.waiting| then WakeSender(st, i, ok) else st
    case TestSeen(key, now) => Tested(cfg, st, key, now)
    case DeleteSeen => Deleted(st)
    case ExpireWindow(now) => st.(last := SplitWindow.AfterCleanup(st.last, now, cfg.passWindow))
  }

  function Run(cfg: Config, st: HandlerState, evs: seq<Event>): HandlerState
    requires 0 < cfg.splitAt
  {
    if evs == [] then st else Step(cfg, Run(cfg, st, evs[..|evs| - 1]), evs[|evs| - 1])
  }

  /** The packets that entered the queue. */
  function Arrivals(evs: seq<Event>): seq<seq<byte>>
  {
    if evs == [] then []
    else Arrivals(evs[..|evs| - 1]) + if evs[|evs| - 1].Arrive? then [evs[|evs| - 1].packet] else []
  }

  // ----- the stream -----

  function Packets(waiting: seq<Waiting>): seq<seq<byte>>
  {
    seq(|waiting|, i requires 0 <= i < |waiting| => waiting[i].packet)
  }

  /** What has been sent, what waits to be sent, and what was lost. */
  function Content(st: HandlerState): set<Item>
  {
    ViewAll(st.wire) + ViewAll(Packets(st.waiting)) + ViewAll(st.lost)
  }

  /**
  If a decoy can be made for the packet, its length fits its header and the checksum it should carry is not 0x0000.
  */
  predicate DecoyIsBad(cfg: Config, packet: seq<byte>, info: TCPPayloadInfo, w: World)
    requires Describes(info, packet)
  {
    match FakeBodyOf(packet, info, cfg.fakeMode, cfg.fakeLength, w.random, w.randomOk)
    case None => true
    case Some(body) =>
      |packet| < 0x1_0000 && ValidTCPChecksum(WithIPLengthAndChecksum(body, info.ipHeaderLen), info.ipHeaderLen) != 0
  }

  /** The packet is what the kernel should have queued, with good checksums and no SYN, and its decoy is bad. */
  predicate Faithful(cfg: Config, packet: seq<byte>, w: World)
  {
    match Parse(packet)
    case None => true
    case Some(info) =>
      ParseDescribes(packet, info);
      && Verifies(packet, info)
      && !HasSyn(info.flags)
      && (cfg.fakeOn ==> DecoyIsBad(cfg, packet, info, w))
  }

  /** A bad decoy is invisible to the receiver. */
  lemma DecoyInvisible(cfg: Config, packet: seq<byte>, info: TCPPayloadInfo, w: World)
    requires Parse(packet) == Some(info) && Describes(info, packet) && DecoyIsBad(cfg, packet, info, w)
    ensures var fake := FakeOf(packet, info, cfg.fakeMode, cfg.fakeLength, w.random, w.randomOk);
            fake.Some? ==> View(fake.value) == {}
  {
    hide Parse, View, FakeBodyOf, ValidTCPChecksum, WithIPLengthAndChecksum, WithBadTCPChecksum;
    var body := FakeBodyOf(packet, info, cfg.fakeMode, cfg.fakeLength, w.random, w.randomOk);
    if body.Some? {
      FakeStream.FakeInvisibleIff(packet, info, body.value);
    }
  }

  lemma ViewAllSnoc(log: seq<seq<byte>>, packet: seq<byte>)
    ensures ViewAll(log + [packet]) == ViewAll(log) + View(packet)
  {
    assert (log + [packet])[..|log|] == log;
  }

  lemma SentContent(st: HandlerState, packet: seq<byte>)
    ensures Content(Sent(st, packet)) == Content(st) + View(packet)
  {
    hide View;
    ViewAllSnoc(st.wire, packet);
  }

  lemma LostContent(st: HandlerState, packet: seq<byte>)
    ensures Content(st.(lost := st.lost + [packet])) == Content(st) + View(packet)
  {
    hide View;
    ViewAllSnoc(st.lost, packet);
  }

  lemma WaitingContent(st: HandlerState, due: Waiting)
    ensures Content(st.(waiting := st.waiting + [due])) == Content(st) + View(due.packet)
  {
    hide View;
    assert Packets(st.waiting + [due]) == Packets(st.waiting) + [due.packet];
    ViewAllSnoc(Packets(st.waiting), due.packet);
  }

  lemma SplitConserves(cfg: Config, st: HandlerState, packet: seq<byte>, info: TCPPayloadInfo, w: World)
    requires 0 < cfg.splitAt && Parse(packet) == Some(info) && Describes(info, packet)
    requires Verifies(packet, info) && !HasSyn(info.flags)
    ensures Content(HandleSplit(cfg, st, packet, info, w)) == Content(st) + View(packet)
  {
    hide Parse, Describes, View, Verifies, HasSyn, FirstPart, SecondPart, ViewAll, Content, Wrap32;
    if SplitDefined(info, |packet|, cfg.splitAt) {
      SplitPreservesStream(packet, info, cfg.splitAt);
    }
    ContentOfWireOnly();
    forall s: HandlerState, p: seq<byte>
      ensures Content(Sent(s, p)) == Content(s) + View(p)
    {
      SentContent(s, p);
    }
    if SplitDefined(info, |packet|, cfg.splitAt) {
      CutIsParts(packet, info, cfg.splitAt);
      var first, second := FirstPart(packet, info, cfg.splitAt), SecondPart(packet, info, cfg.splitAt);
      LostContent(Sent(st, first), second);
      var secondKey := SecondKeyOf(info, cfg.splitAt);
      WaitingContent(Remembered(Sent(st, first), secondKey, w.later), Waiting(second, secondKey));
    }
  }

  /** Remembering and forgetting do not touch the stream. */
  lemma ContentOfWireOnly()
    ensures forall s: HandlerState, k: SegmentKey, t: int :: Content(Remembered(s, k, t)) == Content(s)
    ensures forall s: HandlerState, k: SegmentKey :: Content(Forgotten(s, k)) == Content(s)
  {
    hide ViewAll;
  }

  lemma ActiveConserves(cfg: Config, st: HandlerState, packet: seq<byte>, info: TCPPayloadInfo, w: World)
    requires 0 < cfg.splitAt && Parse(packet) == Some(info) && Describes(info, packet) && Faithful(cfg, packet, w)
    ensures Content(HandleActive(cfg, st, packet, info, w)) == Content(st) + View(packet)
  {
    hide Parse, Describes, View, Verifies, HasSyn, HandleSplit, FakeOf, Content, DecoyIsBad;
    if cfg.fakeOn {
      DecoyInvisible(cfg, packet, info, w);
    }
    var key := KeyOf(info);
    var remembered := Remembered(st, key, w.stored);
    ContentOfWireOnly();
    SplitConserves(cfg, remembered, packet, info, w);
    SentContent(Forgotten(remembered, key), packet);
    var fake := FakeOf(packet, info, cfg.fakeMode, cfg.fakeLength, w.random, w.randomOk);
    if cfg.fakeOn && fake.Some? {
      var faked := Sent(remembered, fake.value);
      SentContent(remembered, fake.value);
      SplitConserves(cfg, faked, packet, info, w);
      SentContent(faked, packet);
      SentContent(Forgotten(faked, key), packet);
    }
  }

  lemma HandleConserves(cfg: Config, st: HandlerState, packet: seq<byte>, w: World)
    requires 0 < cfg.splitAt && Faithful(cfg, packet, w)
    ensures Content(Handle(cfg, st, packet, w)) == Content(st) + View(packet)
  {
    hide View, Content, HandleActive, Faithful;
    SentContent(st, packet);
    if Parse(packet).Some? {
      var info := Parse(packet).value;
      ParseDescribes(packet, info);
      hide Parse, Describes;
      ActiveConserves(cfg, st, packet, info, w);
      ContentOfWireOnly();
      var passed := Remembered(st.(last := st.last[info.dstIP := w.now]), KeyOf(info), w.stored);
      SentContent(passed, packet);
      ContentIgnoresMemory(st, passed);
    }
  }

  lemma ContentIgnoresMemory(a: HandlerState, b: HandlerState)
    requires a.wire == b.wire && a.waiting == b.waiting && a.lost == b.lost
    ensures Content(a) == Content(b)
  {
  }

  lemma WakeConserves(st: HandlerState, i: nat, ok: bool)
    requires i < |st.waiting|
    ensures Content(WakeSender(st, i, ok)) == Content(st)
  {
    hide View, ViewAll;
    var due := st.waiting[i];
    var rest := st.(waiting := st.waiting[..i] + st.waiting[i + 1..]);
    var before, after := Packets(st.waiting[..i]), Packets(st.waiting[i + 1..]);
    assert Packets(rest.waiting) == before + after;
    assert Packets(st.waiting) == before + [due.packet] + after;
    ViewAllConcat(before, after);
    ViewAllConcat(before + [due.packet], after);
    ViewAllSnoc(before, due.packet);
    SentContent(rest, due.packet);
    LostContent(Forgotten(rest, due.key), due.packet);
  }

  lemma StepConserves(cfg: Config, st: HandlerState, ev: Event)
    requires 0 < cfg.splitAt && (ev.Arrive? ==> Faithful(cfg, ev.packet, ev.world))
    ensures Content(Step(cfg, st, ev)) == Content(st) + if ev.Arrive? then View(ev.packet) else {}
  {
    hide View, Content, Handle, WakeSender, Faithful;
    match ev
    case Arrive(packet, w) => HandleConserves(cfg, st, packet, w);
    case Wake(i, ok) =>
      if i < |st.waiting| {
        WakeConserves(st, i, ok);
      }
    case TestSeen(_, _) => ContentIgnoresMemory(st, Step(cfg, st, ev));
    case DeleteSeen => ContentIgnoresMemory(st, Step(cfg, st, ev));
    case ExpireWindow(now) => ContentIgnoresMemory(st, Step(cfg, st, ev));
  }

  /**
  Over every run, whatever is passed, split in either order, preceded by a decoy or interrupted by a failing send:
  the octets, SYNs and FINs that are on the wire, waiting or lost are exactly those of the packets that came in.
  */
  lemma {:induction false} StreamConserved(cfg: Config, evs: seq<Event>)
    requires 0 < cfg.splitAt
    requires forall i :: 0 <= i < |evs| && evs[i].Arrive? ==> Faithful(cfg, evs[i].packet, evs[i].world)
    ensures Content(Run(cfg, INITIAL, evs)) == ViewAll(Arrivals(evs))
  {
    hide View, Faithful, Step;
    if evs != [] {
      var before, ev := evs[..|evs| - 1], evs[|evs| - 1];
      StreamConserved(cfg, before);
      StepConserves(cfg, Run(cfg, INITIAL, before), ev);
      hide Content, ViewAll;
      if ev.Arrive? {
        ViewAllSnoc(Arrivals(before), ev.packet);
      } else {
        assert Arrivals(before) + [] == Arrivals(before);
      }
    }
  }

  /**
  Whatever order the packets on the wire arrive in, however often and with whatever losses: no receiver gets an octet,
  a SYN or a FIN that the sender did not send, and once every second part has gone out and nothing is lost it gets all.
  */
  lemma StreamDelivered(cfg: Config, evs: seq<Event>, received: seq<seq<byte>>)
    requires 0 < cfg.splitAt
    requires forall i :: 0 <= i < |evs| && evs[i].Arrive? ==> Faithful(cfg, evs[i].packet, evs[i].world)
    requires forall p: seq<byte> :: p in received ==> p in Run(cfg, INITIAL, evs).wire
    ensures ViewAll(received) <= ViewAll(Arrivals(evs))
    ensures var st := Run(cfg, INITIAL, evs);
            st.waiting == [] && st.lost == [] && (forall p: seq<byte> :: p in st.wire ==> p in received)
            ==> ViewAll(received) == ViewAll(Arrivals(evs))
  {
    hide View, Run, Faithful, Arrivals;
    var st := Run(cfg, INITIAL, evs);
    StreamConserved(cfg, evs);
    ViewMonotone(received, st.wire);
    if forall p: seq<byte> :: p in st.wire ==> p in received {
      ViewMonotone(st.wire, received);
    }
  }

  // ----- the memory of segments -----

  /** A failure branch of the program deletes the key: a raw send of a second part with that key did not go out. */
  predicate FailureRemoves(cfg: Config, st: HandlerState, ev: Event, key: SegmentKey)
    requires 0 < cfg.splitAt
  {
    match ev
    case Arrive(packet, w) =>
      Parse(packet).Some? && cfg.reverse && !w.rawSent && SecondKeyOf(Parse(packet).value, cfg.splitAt) == key
    case Wake(i, ok) => i < |st.waiting| && !ok && st.waiting[i].key == key
    case _ => false
  }

  /** The event happens after time since, and no test for expiry looks later than since + ttl. */
  predicate Within(cfg: Config, ev: Event, since: int)
  {
    match ev
    case Arrive(packet, w) => since <= w.stored && since <= w.later
    case Wake(i, ok) => true
    case TestSeen(_, now) => now <= since + cfg.seenTTL
    case DeleteSeen => true
    case ExpireWindow(now) => true
  }

  predicate Recorded(st: HandlerState, key: SegmentKey, since: int)
  {
    key in st.seen && since <= st.seen[key]
  }

  /** The key is recorded, and the cleanup loop is not about to delete it. */
  predicate Remembers(st: HandlerState, key: SegmentKey, since: int)
  {
    Recorded(st, key, since) && st.doomed != Some(key)
  }

  lemma HandleSplitRemembers(
    cfg: Config, st: HandlerState, packet: seq<byte>, info: TCPPayloadInfo, w: World, key: SegmentKey, since: int)
    requires Describes(info, packet) && 0 < cfg.splitAt
    requires Remembers(st, key, since) && since <= w.later && KeyOf(info) != key
    requires !(cfg.reverse && !w.rawSent && SecondKeyOf(info, cfg.splitAt) == key)
    ensures Remembers(HandleSplit(cfg, st, packet, info, w), key, since)
  {
    hide Describes, FirstPart, SecondPart, KeyOf, SecondKeyOf;
  }

  lemma HandleActiveRemembers(
    cfg: Config, st: HandlerState, packet: seq<byte>, info: TCPPayloadInfo, w: World, key: SegmentKey, since: int)
    requires Describes(info, packet) && 0 < cfg.splitAt
    requires Remembers(st, key, since) && since <= w.later && KeyOf(info) != key
    requires !(cfg.reverse && !w.rawSent && SecondKeyOf(info, cfg.splitAt) == key)
    ensures Remembers(HandleActive(cfg, st, packet, info, w), key, since)
  {
    hide Describes, FakeOf, HandleSplit, KeyOf, SecondKeyOf;
    var remembered := Remembered(st, KeyOf(info), w.stored);
    HandleSplitRemembers(cfg, remembered, packet, info, w, key, since);
    var fake := FakeOf(packet, info, cfg.fakeMode, cfg.fakeLength, w.random, w.randomOk);
    if fake.Some? {
      HandleSplitRemembers(cfg, Sent(remembered, fake.value), packet, info, w, key, since);
    }
  }

  lemma HandleRemembers(cfg: Config, st: HandlerState, packet: seq<byte>, w: World, key: SegmentKey, since: int)
    requires 0 < cfg.splitAt && Remembers(st, key, since) && since <= w.stored && since <= w.later
    requires !FailureRemoves(cfg, st, Arrive(packet, w), key)
    ensures Remembers(Handle(cfg, st, packet, w), key, since)
  {
    if Parse(packet).Some? {
      var info := Parse(packet).value;
      ParseDescribes(packet, info);
      hide Parse, Describes, HandleActive, KeyOf, SecondKeyOf;
      if KeyOf(info) != key {
        HandleActiveRemembers(cfg, st, packet, info, w, key, since);
      }
    }
  }

  lemma StepRemembers(cfg: Config, st: HandlerState, ev: Event, key: SegmentKey, since: int)
    requires 0 < cfg.splitAt && Remembers(st, key, since) && Within(cfg, ev, since)
    requires !FailureRemoves(cfg, st, ev, key)
    ensures Remembers(Step(cfg, st, ev), key, since)
  {
    if ev.Arrive? {
      HandleRemembers(cfg, st, ev.packet, ev.world, key, since);
      hide Handle, Parse;
    }
  }

  /** No event of the run removes the key through a failure branch. */
  ghost predicate NoFailureFor(cfg: Config, st: HandlerState, evs: seq<Event>, key: SegmentKey)
    requires 0 < cfg.splitAt
  {
    forall i :: 0 <= i < |evs| ==> !FailureRemoves(cfg, Run(cfg, st, evs[..i]), evs[i], key)
  }

  lemma {:induction false} RunRemembers(cfg: Config, st: HandlerState, evs: seq<Event>, key: SegmentKey, since: int)
    requires 0 < cfg.splitAt && Remembers(st, key, since)
    requires forall i :: 0 <= i < |evs| ==> Within(cfg, evs[i], since)
    requires NoFailureFor(cfg, st, evs, key)
    ensures Remembers(Run(cfg, st, evs), key, since)
  {
    hide Step, FailureRemoves, Within, Remembers;
    if evs != [] {
      var n := |evs| - 1;
      assert forall i :: 0 <= i < n ==> evs[..n][..i] == evs[..i] && evs[..n][i] == evs[i];
      RunRemembers(cfg, st, evs[..n], key, since);
      StepRemembers(cfg, Run(cfg, st, evs[..n]), evs[n], key, since);
    }
  }

  /**
  A record lasts through every run within its time to live that has no failure branch for it if and only if the cleanup
  loop had not found an earlier record of the same segment expired and was about to delete it.
  */
  lemma RecordLastsIff(cfg: Config, st: HandlerState, key: SegmentKey, since: int)
    requires 0 < cfg.splitAt && Recorded(st, key, since)
    ensures (forall evs ::
               (forall i :: 0 <= i < |evs| ==> Within(cfg, evs[i], since)) && NoFailureFor(cfg, st, evs, key)
               ==> Recorded(Run(cfg, st, evs), key, since))
            <==> st.doomed != Some(key)
  {
    hide Run, Within, FailureRemoves;
    if st.doomed != Some(key) {
      forall evs | (forall i :: 0 <= i < |evs| ==> Within(cfg, evs[i], since)) && NoFailureFor(cfg, st, evs, key)
        ensures Recorded(Run(cfg, st, evs), key, since)
      {
        RunRemembers(cfg, st, evs, key, since);
      }
    } else {
      LateDelete(cfg, st, key, since);
    }
  }

  lemma LateDelete(cfg: Config, st: HandlerState, key: SegmentKey, since: int)
    requires 0 < cfg.splitAt && st.doomed == Some(key)
    ensures Within(cfg, DeleteSeen, since) && NoFailureFor(cfg, st, [DeleteSeen], key)
    ensures key !in Run(cfg, st, [DeleteSeen]).seen
  {
    assert [DeleteSeen][..0] == [];
    assert Run(cfg, st, [DeleteSeen]) == Step(cfg, Run(cfg, st, []), DeleteSeen);
  }

  /**
  A segment recorded no longer than the time to live ago, and not dropped by a failed send, passes unchanged and
  alters no memory.
  */
  lemma RetransmissionPasses(
    cfg: Config, st: HandlerState, evs: seq<Event>, packet: seq<byte>, info: TCPPayloadInfo, w: World, since: int)
    requires 0 < cfg.splitAt && Parse(packet) == Some(info)
    requires Remembers(st, KeyOf(info), since)
    requires forall i :: 0 <= i < |evs| ==> Within(cfg, evs[i], since)
    requires NoFailureFor(cfg, st, evs, KeyOf(info))
    ensures var before := Run(cfg, st, evs);
            Handle(cfg, before, packet, w) == before.(wire := before.wire + [packet])
  {
    hide Run, Within, FailureRemoves, NoFailureFor;
    RunRemembers(cfg, st, evs, KeyOf(info), since);
  }

  /**
  After a successful split, with or without a decoy, the whole segment and its second part pass unchanged when they come
  again, and change no memory: for as long as their records live, unless a failed send removes them or the cleanup had
  found an earlier record expired. Segments are recognised by flow, sequence number and length.
  */
  lemma SplitIsNotRepeated(
    cfg: Config, st: HandlerState, packet: seq<byte>, info: TCPPayloadInfo, w: World, evs: seq<Event>,
    again: seq<byte>, info': TCPPayloadInfo, w': World)
    requires Parse(packet) == Some(info) && Splits(cfg, st, packet, info, w) && (cfg.reverse || !cfg.probe)
    requires st.doomed != Some(KeyOf(info'))
    requires w.stored <= w.later && forall i :: 0 <= i < |evs| ==> Within(cfg, evs[i], w.stored)
    requires Parse(again) == Some(info') && SameFlow(info', info)
    requires || (info'.seqNum == info.seqNum && info'.payloadLen == info.payloadLen)
             || (info'.seqNum == Later(info.seqNum, cfg.splitAt) && info'.payloadLen == info.payloadLen - cfg.splitAt)
    requires NoFailureFor(cfg, Handle(cfg, st, packet, w), evs, KeyOf(info'))
    ensures var before := Run(cfg, Handle(cfg, st, packet, w), evs);
            Handle(cfg, before, again, w') == before.(wire := before.wire + [again])
  {
    hide Parse, Handle, Run, Within, NoFailureFor, Later, TakenUp, DecoyReady;
    SplitRecords(cfg, st, packet, info, w, KeyOf(info'));
    var decoys, first, second, key := SplitOutcome(cfg, st, packet, info, w);
    RetransmissionPasses(cfg, Handle(cfg, st, packet, w), evs, again, info', w', w.stored);
  }

  // ----- the pass window inside the handler -----

  /** The decision that the handler asks of the window at a step, or the expiry. */
  function Asked(cfg: Config, st: HandlerState, ev: Event): (r: seq<SplitWindow.Event>)
    requires 0 < cfg.splitAt
    ensures |r| <= 1
  {
    match ev
    case Arrive(packet, w) =>
      (match Parse(packet)
       case None => []
       case Some(info) =>
         if w.skipMark || KeyOf(info) in st.seen then [] else [SplitWindow.Payload(info.dstIP, w.now)])
    case ExpireWindow(now) => [SplitWindow.Cleanup(now)]
    case _ => []
  }

  function WindowEvents(cfg: Config, evs: seq<Event>): seq<SplitWindow.Event>
    requires 0 < cfg.splitAt
  {
    if evs == [] then []
    else
      var before := evs[..|evs| - 1];
      WindowEvents(cfg, before) + Asked(cfg, Run(cfg, INITIAL, before), evs[|evs| - 1])
  }

  lemma HandleSplitKeepsWindow(cfg: Config, st: HandlerState, packet: seq<byte>, info: TCPPayloadInfo, w: World)
    requires Describes(info, packet) && 0 < cfg.splitAt
    ensures HandleActive(cfg, st, packet, info, w).last == st.last
  {
    hide Describes, FakeOf, FirstPart, SecondPart;
  }

  lemma StepWindow(cfg: Config, st: HandlerState, packet: seq<byte>, info: TCPPayloadInfo, w: World)
    requires 0 < cfg.splitAt && 0 < cfg.passWindow && Parse(packet) == Some(info)
    ensures Handle(cfg, st, packet, w).last
            == if w.skipMark || KeyOf(info) in st.seen then st.last
               else SplitWindow.AfterDecide(st.last, info.dstIP, w.now, cfg.passWindow)
  {
    ParseDescribes(packet, info);
    hide Parse, Describes, HandleActive;
    HandleSplitKeepsWindow(cfg, st, packet, info, w);
  }

  lemma StepAsks(cfg: Config, st: HandlerState, ev: Event)
    requires 0 < cfg.splitAt && 0 < cfg.passWindow
    ensures var asked := Asked(cfg, st, ev);
            Step(cfg, st, ev).last
            == if asked == [] then st.last
               else SplitWindow.Step(cfg.passWindow, SplitWindow.State(st.last, []), asked[0]).last
  {
    hide Handle, Parse, WakeSender;
    match ev
    case Arrive(packet, w) =>
      if Parse(packet).Some? {
        StepWindow(cfg, st, packet, Parse(packet).value, w);
      } else {
        UnparsedKeepsWindow(cfg, st, packet, w);
      }
    case Wake(i, ok) => WakeKeepsWindow(st, i, ok);
    case TestSeen(_, _) =>
    case DeleteSeen =>
    case ExpireWindow(_) =>
  }

  /**
  What the handler did about the window at a step: it passed the packet if it recorded a new pass, and else split
  it.
  */
  function DecisionsAt(cfg: Config, st: HandlerState, ev: Event): (r: seq<SplitWindow.Decision>)
    requires 0 < cfg.splitAt
  {
    var asked := Asked(cfg, st, ev);
    if asked == [] || asked[0].Cleanup? then []
    else [SplitWindow.Decision(asked[0].client, asked[0].now, Step(cfg, st, ev).last == st.last)]
  }

  /** The handler's decisions over a run. */
  function Decisions(cfg: Config, evs: seq<Event>): seq<SplitWindow.Decision>
    requires 0 < cfg.splitAt
  {
    if evs == [] then []
    else
      var before := evs[..|evs| - 1];
      Decisions(cfg, before) + DecisionsAt(cfg, Run(cfg, INITIAL, before), evs[|evs| - 1])
  }

  lemma StepDecides(cfg: Config, st: HandlerState, ev: Event, log: seq<SplitWindow.Decision>)
    requires 0 < cfg.splitAt && 0 < cfg.passWindow
    ensures var asked := Asked(cfg, st, ev);
            log + DecisionsAt(cfg, st, ev)
            == if asked == [] then log
              else SplitWindow.Step(cfg.passWindow, SplitWindow.State(st.last, log), asked[0]).log
  {
    StepAsks(cfg, st, ev);
    hide Step, Asked;
    var asked := Asked(cfg, st, ev);
    if asked != [] && asked[0].Payload?
      && !SplitWindow.MustSplit(st.last, asked[0].client, asked[0].now, cfg.passWindow) {
      assert st.last[asked[0].client := asked[0].now][asked[0].client] == asked[0].now;
    }
  }

  /** The handler's window table and its decisions are those of the window's own runs. */
  lemma {:induction false} HandlerWindow(cfg: Config, evs: seq<Event>)
    requires 0 < cfg.splitAt && 0 < cfg.passWindow
    ensures SplitWindow.Run(cfg.passWindow, WindowEvents(cfg, evs))
            == SplitWindow.State(Run(cfg, INITIAL, evs).last, Decisions(cfg, evs))
  {
    hide Step, Asked, DecisionsAt, SplitWindow.Step;
    if evs != [] {
      var before, ev := evs[..|evs| - 1], evs[|evs| - 1];
      HandlerWindow(cfg, before);
      var st := Run(cfg, INITIAL, before);
      StepAsks(cfg, st, ev);
      StepDecides(cfg, st, ev, Decisions(cfg, before));
      var earlier, asked := WindowEvents(cfg, before), Asked(cfg, st, ev);
      if asked == [] {
        assert WindowEvents(cfg, evs) == earlier;
      } else {
        assert WindowEvents(cfg, evs) == earlier + [asked[0]];
        assert WindowEvents(cfg, evs)[..|earlier|] == earlier;
        SplitWindow.StepLast(cfg.passWindow, st.last, Decisions(cfg, before), asked[0]);
      }
    }
  }

  predicate EndsBy(ev: Event, now: int, lead: int)
  {
    match ev
    case Arrive(_, w) => w.now <= now
    case ExpireWindow(at) => at <= now + lead
    case _ => true
  }

  /**
  Packets arrive in the order of the clock, and a window cleanup's clock is at most lead ahead of the packets after
  it.
  */
  ghost predicate InOrder(evs: seq<Event>, lead: int)
  {
    forall i, j :: 0 <= i < j < |evs| && evs[j].Arrive? ==> EndsBy(evs[i], evs[j].world.now, lead)
  }

  lemma {:induction false} WindowEventsEndBy(cfg: Config, evs: seq<Event>, now: int, lead: int)
    requires 0 < cfg.splitAt && forall i :: 0 <= i < |evs| ==> EndsBy(evs[i], now, lead)
    ensures forall k :: 0 <= k < |WindowEvents(cfg, evs)| ==> SplitWindow.EndsBy(WindowEvents(cfg, evs)[k], now, lead)
  {
    hide Parse, Run;
    if evs != [] {
      WindowEventsEndBy(cfg, evs[..|evs| - 1], now, lead);
    }
  }

  lemma {:induction false} WindowEventsTimely(cfg: Config, evs: seq<Event>, lead: int)
    requires 0 < cfg.splitAt && InOrder(evs, lead)
    ensures SplitWindow.Timely(WindowEvents(cfg, evs), lead)
  {
    hide Parse, Run;
    if evs != [] {
      var before, ev := evs[..|evs| - 1], evs[|evs| - 1];
      WindowEventsTimely(cfg, before, lead);
      if ev.Arrive? {
        WindowEventsEndBy(cfg, before, ev.world.now, lead);
      }
    }
  }

  /**
  Over any run of the handler whose packets arrive in clock order: it passes packets of one client at least a gap apart,
  which is the window unless a cleanup's clock is two ticks ahead, and splits only strictly inside a window that a pass
  has opened.
  */
  lemma HandlerKeepsWindow(cfg: Config, evs: seq<Event>, lead: int)
    requires 0 < cfg.splitAt && 0 < cfg.passWindow && InOrder(evs, lead)
    ensures SplitWindow.PassesApart(Decisions(cfg, evs), SplitWindow.Gap(cfg.passWindow, lead))
    ensures forall j :: 0 <= j < |Decisions(cfg, evs)| ==>
              SplitWindow.SplitInsideWindow(Decisions(cfg, evs), cfg.passWindow, j)
  {
    hide Run, Decisions, WindowEvents, SplitWindow.PassesApart, SplitWindow.SplitInsideWindow;
    HandlerWindow(cfg, evs);
    WindowEventsTimely(cfg, evs, lead);
    SplitWindow.WindowGuarantee(cfg.passWindow, WindowEvents(cfg, evs), lead);
  }

  lemma UnparsedKeepsWindow(cfg: Config, st: HandlerState, packet: seq<byte>, w: World)
    requires 0 < cfg.splitAt && Parse(packet) == None
    ensures Handle(cfg, st, packet, w).last == st.last
  {
    hide Parse;
  }

  lemma WakeKeepsWindow(st: HandlerState, i: nat, ok: bool)
    ensures i < |st.waiting| ==> WakeSender(st, i, ok).last == st.last
  {
  }
}
