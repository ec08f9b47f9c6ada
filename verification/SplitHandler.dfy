/**
The payload branch of the packet handler in cmd/nfqcooldown/main.go: which
packets pass unchanged, which are split or preceded by a decoy, and what is
remembered so that retransmissions are left alone.
*/
module SplitHandler {
  import opened Wrappers
  import opened Bytes
  import opened Packet
  import opened Payload
  import opened FakePacket
  import opened Stream
  import opened SplitWindow

  datatype Config = Config(
    splitAt: int,
    passWindow: int,
    seenTTL: int,
    probe: bool,
    reverse: bool,
    fakeOn: bool,
    fakeMode: string,
    fakeLength: int)

  /** One TCP segment for the purpose of recognising its retransmission. */
  datatype SegmentKey = SegmentKey(flow: Flow, seqNum: uint32, payloadLen: int)

  /** What the outside world does while one packet is handled. */
  datatype World = World(
    skipMark: bool,      // the packet carries the mark that bypasses the handler
    now: int,            // the clock that the pass window is asked with
    stored: int,         // the clock when the segment's own key is stored
    later: int,          // the clock when the second key is stored
    random: nat -> byte, // filler octets
    randomOk: bool,      // the filler could be drawn
    fakeSent: bool,      // the raw send of the decoy succeeded
    verdictSet: bool,    // the modified packet was accepted by the queue
    rawSent: bool)       // the raw send of the second part (reverse order) succeeded

  /** A second part that waits in its own goroutine. */
  datatype Waiting = Waiting(packet: seq<byte>, key: SegmentKey)

  /**
  doomed is the segment that the cleanup loop has found expired and is about to forget. lost is history: second parts
  that were never sent, because of a failed send or in probe mode.
  */
  datatype HandlerState = HandlerState(
    seen: map<SegmentKey, int>,
    doomed: Option<SegmentKey>,
    last: map<Address, int>,
    wire: seq<seq<byte>>,
    waiting: seq<Waiting>,
    lost: seq<seq<byte>>)

  function KeyOf(info: TCPPayloadInfo): SegmentKey
  {
    SegmentKey(FlowOf(info), info.seqNum, info.payloadLen)
  }

  function SecondKeyOf(info: TCPPayloadInfo, splitAt: int): SegmentKey
    requires 0 <= splitAt
  {
    SegmentKey(FlowOf(info), Wrap32(info.seqNum + splitAt), info.payloadLen - splitAt)
  }

  // ----- the handler as a function on states -----

  function Sent(st: HandlerState, packet: seq<byte>): HandlerState
  {
    st.(wire := st.wire + [packet])
  }

  function Forgotten(st: HandlerState, key: SegmentKey): HandlerState
  {
    st.(seen := st.seen - {key})
  }

  function Remembered(st: HandlerState, key: SegmentKey, now: int): HandlerState
  {
    st.(seen := st.seen[key := now])
  }

  function HandleSplit(cfg: Config, st: HandlerState, packet: seq<byte>, info: TCPPayloadInfo, w: World): HandlerState
    requires Describes(info, packet) && 0 < cfg.splitAt
  {
    var key, secondKey := KeyOf(info), SecondKeyOf(info, cfg.splitAt);
    if !SplitDefined(info, |packet|, cfg.splitAt) then Sent(Forgotten(st, key), packet)
    else
      var first, second := FirstPart(packet, info, cfg.splitAt), SecondPart(packet, info, cfg.splitAt);
      if cfg.reverse then
        if !w.rawSent then Sent(Forgotten(Forgotten(Remembered(st, secondKey, w.later), key), secondKey), packet)
        else
          var half := Sent(Remembered(st, secondKey, w.later), second);
          if !w.verdictSet then Sent(Forgotten(half, key), packet) else Sent(half, first)
      else if !w.verdictSet then Sent(Forgotten(st, key), packet)
      else if cfg.probe then Sent(st, first).(lost := st.lost + [second])
      else Remembered(Sent(st, first), secondKey, w.later).(waiting := st.waiting + [Waiting(second, secondKey)])
  }

  /** A packet that is neither unparsed, marked, seen nor passed by the window. */
  function HandleActive(cfg: Config, st: HandlerState, packet: seq<byte>, info: TCPPayloadInfo, w: World): HandlerState
    requires Describes(info, packet) && 0 < cfg.splitAt
  {
    var key := KeyOf(info);
    var remembered := Remembered(st, key, w.stored);
    if !cfg.fakeOn then HandleSplit(cfg, remembered, packet, info, w)
    else
      match FakeOf(packet, info, cfg.fakeMode, cfg.fakeLength, w.random, w.randomOk)
      case None => Sent(Forgotten(remembered, key), packet)
      case Some(fake) =>
        if !w.fakeSent then Sent(Forgotten(remembered, key), packet)
        else
          var faked := Sent(remembered, fake);
          if cfg.reverse then HandleSplit(cfg, faked, packet, info, w)
          else if w.verdictSet then Sent(faked, packet)
          else Sent(Forgotten(faked, key), packet)
  }

  function Handle(cfg: Config, st: HandlerState, packet: seq<byte>, w: World): HandlerState
    requires 0 < cfg.splitAt
  {
    match Parse(packet)
    case None => Sent(st, packet)
    case Some(info) =>
      ParseDescribes(packet, info);
      if w.skipMark || KeyOf(info) in st.seen then Sent(st, packet)
      else if 0 < cfg.passWindow && !MustSplit(st.last, info.dstIP, w.now, cfg.passWindow) then
        Sent(Remembered(st.(last := st.last[info.dstIP := w.now]), KeyOf(info), w.stored), packet)
      else HandleActive(cfg, st, packet, info, w)
  }

  /** The goroutine of the i-th waiting second part wakes up and sends it. */
  function WakeSender(st: HandlerState, i: nat, ok: bool): HandlerState
    requires i < |st.waiting|
  {
    var due := st.waiting[i];
    var rest := st.(waiting := st.waiting[..i] + st.waiting[i + 1..]);
    if ok then Sent(rest, due.packet)
    else Forgotten(rest, due.key).(lost := st.lost + [due.packet])
  }

  /** The loop that expires remembered segments looks at one. */
  function Tested(cfg: Config, st: HandlerState, key: SegmentKey, now: int): HandlerState
  {
    if st.doomed.None? && key in st.seen && now - st.seen[key] > cfg.seenTTL then st.(doomed := Some(key)) else st
  }

  /** And forgets it, whatever was recorded for it in the meantime. */
  function Deleted(st: HandlerState): HandlerState
  {
    match st.doomed
    case None => st
    case Some(key) => Forgotten(st, key).(doomed := None)
  }

  /** What a pass of that loop leaves if the handler does not run meanwhile. */
  function CleanSeen(seen: map<SegmentKey, int>, now: int, ttl: int): map<SegmentKey, int>
  {
    map key | key in seen && now - seen[key] <= ttl :: seen[key]
  }

  // ----- the handler as the program runs it -----

  class Handler {
    const cfg: Config
    const window: SplitPayloadWindowState
    var splitSeen: map<SegmentKey, int>
    var doomed: Option<SegmentKey>
    var wire: seq<seq<byte>>
    var waiting: seq<Waiting>
    ghost var lost: seq<seq<byte>>

    constructor (cfg: Config)
      requires 0 < cfg.splitAt
      ensures this.cfg == cfg && fresh(window)
      ensures Abs() == HandlerState(map[], None, map[], [], [], [])
    {
      this.cfg := cfg;
      window := new SplitPayloadWindowState();
      splitSeen, doomed, wire, waiting, lost := map[], None, [], [], [];
    }

    ghost function Abs(): HandlerState
      reads this, window
    {
      HandlerState(splitSeen, doomed, window.lastPass, wire, waiting, lost)
    }

    method HandlePayload(packet: array<byte>, w: World)
      requires 0 < cfg.splitAt
      modifies this, window
      ensures Abs() == Handle(cfg, old(Abs()), packet[..], w)
    {
      hide HandleActive, FakeOf;
      var parsed := Parse(packet[..]);
      if parsed.None? {
        wire := wire + [packet[..]];
        return;
      }
      var info := parsed.value;
      ParseDescribes(packet[..], info);
      hide Parse, Describes;
      if w.skipMark {
        wire := wire + [packet[..]];
        return;
      }
      if KeyOf(info) in splitSeen {
        wire := wire + [packet[..]];
        return;
      }
      if cfg.passWindow > 0 {
        var split, sincePass := window.Decide(info.dstIP, w.now, cfg.passWindow);
        if !split {
          splitSeen := splitSeen[KeyOf(info) := w.stored];
          wire := wire + [packet[..]];
          return;
        }
      }
      ActivePayload(packet, info, w);
    }

    method ActivePayload(packet: array<byte>, info: TCPPayloadInfo, w: World)
      requires 0 < cfg.splitAt && Parse(packet[..]) == Some(info) && Describes(info, packet[..])
      modifies this
      ensures Abs() == HandleActive(cfg, old(Abs()), packet[..], info, w)
    {
      hide Parse, Describes, HandleSplit, FakeOf;
      var key := KeyOf(info);
      splitSeen := splitSeen[key := w.stored];
      if cfg.fakeOn {
        var clone := CloneWithFakePayloadAndBadTCPChecksum(packet[..], cfg.fakeMode, cfg.fakeLength, w.random,
          w.randomOk);
        if clone.Error? || !w.fakeSent {
          splitSeen := splitSeen - {key};
          wire := wire + [packet[..]];
          return;
        }
        wire := wire + [clone.packet];
        if !cfg.reverse {
          if !w.verdictSet {
            splitSeen := splitSeen - {key};
          }
          wire := wire + [packet[..]];
          return;
        }
      }
      SplitPayload(packet, info, w);
    }

    method SplitPayload(packet: array<byte>, info: TCPPayloadInfo, w: World)
      requires 0 < cfg.splitAt && Describes(info, packet[..])
      modifies this
      ensures Abs() == HandleSplit(cfg, old(Abs()), packet[..], info, w)
    {
      hide FirstPart, SecondPart;
      var key, secondKey := KeyOf(info), SecondKeyOf(info, cfg.splitAt);
      var r := SplitIPv4TCPPacket(packet, info, cfg.splitAt);
      if r.Failed? {
        splitSeen := splitSeen - {key};
        wire := wire + [packet[..]];
        return;
      }
      if cfg.reverse {
        splitSeen := splitSeen[secondKey := w.later];
        if !w.rawSent {
          splitSeen := splitSeen - {key} - {secondKey};
          wire := wire + [packet[..]];
          return;
        }
        wire := wire + [r.second[..]];
        if !w.verdictSet {
          splitSeen := splitSeen - {key};
          wire := wire + [packet[..]];
          return;
        }
        wire := wire + [r.first[..]];
        return;
      }
      if !w.verdictSet {
        splitSeen := splitSeen - {key};
        wire := wire + [packet[..]];
        return;
      }
      wire := wire + [r.first[..]];
      if cfg.probe {
        lost := lost + [r.second[..]];
        return;
      }
      splitSeen := splitSeen[secondKey := w.later];
      waiting := waiting + [Waiting(r.second[..], secondKey)];
    }

    /** Body of the goroutine that sends a second part after the delay. */
    method SendWaiting(i: nat, ok: bool)
      requires i < |waiting|
      modifies this
      ensures Abs() == WakeSender(old(Abs()), i, ok)
    {
      var due := waiting[i];
      waiting := waiting[..i] + waiting[i + 1..];
      if ok {
        wire := wire + [due.packet];
      } else {
        splitSeen := splitSeen - {due.key};
        lost := lost + [due.packet];
      }
    }

    /** The cleanup loop looks at one key. */
    method TestSeen(key: SegmentKey, now: int)
      modifies this`doomed
      ensures Abs() == Tested(cfg, old(Abs()), key, now)
    {
      if doomed.None? && key in splitSeen && now - splitSeen[key] > cfg.seenTTL {
        doomed := Some(key);
      }
    }

    /** The cleanup loop deletes the key that it found expired. */
    method DeleteSeen()
      modifies this`splitSeen, this`doomed
      ensures Abs() == Deleted(old(Abs()))
    {
      if doomed.Some? {
        splitSeen := splitSeen - {doomed.value};
        doomed := None;
      }
    }

    /** A pass of the cleanup loop over all keys during which the handler does not run. */
    method CleanupSeen(now: int) returns (removed: nat)
      requires doomed.None?
      modifies this`splitSeen, this`doomed
      ensures Abs() == old(Abs()).(seen := CleanSeen(old(splitSeen), now, cfg.seenTTL))
      ensures forall key :: key in splitSeen <==> key in old(splitSeen) && now <= old(splitSeen)[key] + cfg.seenTTL
      ensures removed == |old(splitSeen)| - |splitSeen|
    {
      removed := 0;
      var todo := splitSeen.Keys;
      while todo != {}
        invariant todo <= splitSeen.Keys <= old(splitSeen).Keys && doomed.None?
        invariant forall k :: k in splitSeen ==> splitSeen[k] == old(splitSeen)[k]
        invariant forall k :: k in old(splitSeen) && k !in todo ==>
                    (k in splitSeen <==> now - old(splitSeen)[k] <= cfg.seenTTL)
        invariant removed == |old(splitSeen)| - |splitSeen|
        decreases todo
      {
        var k :| k in todo;
        ghost var before := splitSeen;
        TestSeen(k, now);
        if doomed.Some? {
          assert (before - {k}).Keys == before.Keys - {k};
          DeleteSeen();
          assert splitSeen == before - {k};
          removed := removed + 1;
        }
        todo := todo - {k};
      }
      assert splitSeen.Keys == CleanSeen(old(splitSeen), now, cfg.seenTTL).Keys;
    }
  }
}
