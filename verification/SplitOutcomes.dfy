/**
What the payload branch of the handler does with a packet, told by what it sends, keeps waiting and remembers: the
packets by what they parse to, the records by flow, sequence number and length.
*/
module SplitOutcomes {
  import opened Wrappers
  import opened Bytes
  import opened Packet
  import opened SplitLaws
  import opened FakePacket
  import opened Stream
  import opened SplitHandler
  import SplitWindow

  // ----- packets and records, field by field -----

  predicate SameFlow(a: TCPPayloadInfo, b: TCPPayloadInfo)
  {
    a.srcIP == b.srcIP && a.dstIP == b.dstIP && a.srcPort == b.srcPort && a.dstPort == b.dstPort
  }

  /** A segment of that flow which a receiver accepts, with that payload at that sequence number. */
  predicate Carries(packet: seq<byte>, of: TCPPayloadInfo, seqNum: int, payload: seq<byte>)
  {
    match Parse(packet)
    case None => false
    case Some(info) =>
      ParseDescribes(packet, info);
      Verifies(packet, info) && SameFlow(info, of) && info.seqNum == seqNum && PayloadOf(packet, info) == payload
  }

  predicate Names(key: SegmentKey, of: TCPPayloadInfo, seqNum: int, length: int)
  {
    && key.flow.srcIP == of.srcIP && key.flow.dstIP == of.dstIP
    && key.flow.srcPort == of.srcPort && key.flow.dstPort == of.dstPort
    && key.seqNum == seqNum && key.payloadLen == length
  }

  /** The segment of that flow, sequence number and length is recorded. */
  ghost predicate Known(seen: map<SegmentKey, int>, of: TCPPayloadInfo, seqNum: int, length: int)
  {
    exists key :: key in seen && Names(key, of, seqNum, length)
  }

  /** The sequence number k octets further on. */
  function Later(seqNum: uint32, k: int): int
  {
    (seqNum + k) % 0x1_0000_0000
  }

  lemma NamesOwn(key: SegmentKey, of: TCPPayloadInfo)
    ensures Names(key, of, of.seqNum, of.payloadLen) <==> key == KeyOf(of)
  {
  }

  lemma NamesSecond(key: SegmentKey, of: TCPPayloadInfo, k: int)
    requires 0 <= k
    ensures Names(key, of, Later(of.seqNum, k), of.payloadLen - k) <==> key == SecondKeyOf(of, k)
  {
  }

  lemma KnownOwn(seen: map<SegmentKey, int>, of: TCPPayloadInfo)
    ensures Known(seen, of, of.seqNum, of.payloadLen) <==> KeyOf(of) in seen
  {
    hide Names;
    NamesOwn(KeyOf(of), of);
    forall key | Names(key, of, of.seqNum, of.payloadLen)
      ensures key == KeyOf(of)
    {
      NamesOwn(key, of);
    }
  }

  lemma KnownSecond(seen: map<SegmentKey, int>, of: TCPPayloadInfo, k: int)
    requires 0 <= k
    ensures Known(seen, of, Later(of.seqNum, k), of.payloadLen - k) <==> SecondKeyOf(of, k) in seen
  {
    hide Names, Later;
    NamesSecond(SecondKeyOf(of, k), of, k);
    var seqNum, length := Later(of.seqNum, k), of.payloadLen - k;
    forall key | Names(key, of, seqNum, length)
      ensures key == SecondKeyOf(of, k)
    {
      NamesSecond(key, of, k);
    }
  }

  // ----- when the handler takes a packet up -----

  /** Neither marked nor recorded, and if there is a pass window, one of the client is open. */
  ghost predicate TakenUp(cfg: Config, st: HandlerState, info: TCPPayloadInfo, w: World)
  {
    && !w.skipMark && !Known(st.seen, info, info.seqNum, info.payloadLen)
    && (cfg.passWindow > 0 ==> info.dstIP in st.last && w.now - st.last[info.dstIP] < cfg.passWindow)
  }

  /** If the handler is to send a decoy, it can make one and send it. */
  ghost predicate DecoyReady(cfg: Config, packet: seq<byte>, info: TCPPayloadInfo, w: World)
  {
    cfg.fakeOn ==>
      && w.fakeSent
      && exists n :: DecoyLength(packet, info, cfg.fakeLength, n) && DecoyPossible(cfg.fakeMode, n, w.randomOk)
  }

  /** One decoy if the handler is to send one, and else nothing. */
  ghost predicate DecoySent(cfg: Config, packet: seq<byte>, info: TCPPayloadInfo, w: World, decoys: seq<seq<byte>>)
  {
    if !cfg.fakeOn then decoys == []
    else
      |decoys| == 1 && exists n ::
        DecoyLength(packet, info, cfg.fakeLength, n) && IsDecoy(packet, info, cfg.fakeMode, n, w.random, decoys[0])
  }

  lemma DecoyMade(cfg: Config, packet: seq<byte>, info: TCPPayloadInfo, w: World) returns (decoys: seq<seq<byte>>)
    requires Describes(info, packet)
    ensures cfg.fakeOn ==>
              var fake := FakeOf(packet, info, cfg.fakeMode, cfg.fakeLength, w.random, w.randomOk);
              && (DecoyReady(cfg, packet, info, w) <==> w.fakeSent && fake.Some?)
              && (fake.Some? ==> decoys == [fake.value] && DecoySent(cfg, packet, info, w, decoys))
    ensures !cfg.fakeOn ==> decoys == []
  {
    hide FakeOf, IsDecoy;
    decoys := [];
    if cfg.fakeOn {
      var available := |packet| - info.payloadOffset;
      var n := if cfg.fakeLength <= 0 || cfg.fakeLength >= available then available else cfg.fakeLength;
      assert DecoyLength(packet, info, cfg.fakeLength, n);
      DecoyExactly(packet, info, cfg.fakeMode, cfg.fakeLength, w.random, w.randomOk, n);
      var fake := FakeOf(packet, info, cfg.fakeMode, cfg.fakeLength, w.random, w.randomOk);
      if fake.Some? {
        decoys := [fake.value];
      }
    }
  }

  // ----- the two parts -----

  lemma CutIsParts(packet: seq<byte>, info: TCPPayloadInfo, k: int)
    requires Parse(packet) == Some(info) && Describes(info, packet) && SplitDefined(info, |packet|, k)
    ensures Cut(packet, k) == Some((FirstPart(packet, info, k), SecondPart(packet, info, k)))
  {
    hide Parse, FirstPart, SecondPart, Get32;
  }

  lemma Carried(packet: seq<byte>, info: TCPPayloadInfo, of: TCPPayloadInfo, payload: seq<byte>)
    requires Parse(packet) == Some(info) && Describes(info, packet) && SameFlow(info, of)
    requires |packet| == info.totalLen && packet[info.payloadOffset..] == payload
    requires IPChecksumVerifies(packet, info.ipHeaderLen) && TCPChecksumVerifies(packet, info.ipHeaderLen)
    ensures Carries(packet, of, info.seqNum, payload)
  {
    hide Parse, Describes, IPChecksumVerifies, TCPChecksumVerifies;
    assert packet[..|packet|] == packet;
  }

  lemma CutCarries(packet: seq<byte>, info: TCPPayloadInfo, k: int)
    requires Parse(packet) == Some(info) && 0 < k < info.payloadLen
    ensures Describes(info, packet) && Cut(packet, k).Some?
    ensures var (first, second) := Cut(packet, k).value;
            var payload := PayloadOf(packet, info);
            && Carries(first, info, info.seqNum, payload[..k])
            && Carries(second, info, Wrap32(info.seqNum + k), payload[k..])
  {
    hide Parse, Cut, ClearPshFin, Wrap32, IPChecksumVerifies, TCPChecksumVerifies, Carries, Get32;
    SplitParses(packet, info, k);
    SplitVerifies(packet, info, k);
    var (first, second) := Cut(packet, k).value;
    var infoOfFirst := Moved(info, info.seqNum, ClearPshFin(info.flags), k);
    var infoOfSecond := Moved(info, Wrap32(info.seqNum + k), info.flags, info.payloadLen - k);
    ParseDescribes(first, infoOfFirst);
    ParseDescribes(second, infoOfSecond);
    Carried(first, infoOfFirst, info, PayloadOf(packet, info)[..k]);
    Carried(second, infoOfSecond, info, PayloadOf(packet, info)[k..]);
  }

  lemma PartsCarry(packet: seq<byte>, info: TCPPayloadInfo, k: int)
    requires Parse(packet) == Some(info) && Describes(info, packet) && 0 < k < info.payloadLen
    ensures var payload := PayloadOf(packet, info);
            && Carries(FirstPart(packet, info, k), info, info.seqNum, payload[..k])
            && Carries(SecondPart(packet, info, k), info, Later(info.seqNum, k), payload[k..])
  {
    hide Parse, Cut, FirstPart, SecondPart, Carries, Get32;
    CutIsParts(packet, info, k);
    CutCarries(packet, info, k);
  }

  // ----- packets that pass -----

  /** What cannot be parsed, is marked or is a segment already recorded goes out as it is, and nothing else changes. */
  lemma PassOutcome(cfg: Config, st: HandlerState, packet: seq<byte>, w: World)
    requires 0 < cfg.splitAt
    requires Parse(packet) == None || w.skipMark
             || Known(st.seen, Parse(packet).value, Parse(packet).value.seqNum, Parse(packet).value.payloadLen)
    ensures Handle(cfg, st, packet, w) == st.(wire := st.wire + [packet])
  {
    if Parse(packet).Some? {
      KnownOwn(st.seen, Parse(packet).value);
    }
    hide Parse, HandleActive;
  }

  /** A packet that opens a pass window goes out as it is, and it alone is recorded, with the pass of its client. */
  lemma WindowOutcome(cfg: Config, st: HandlerState, packet: seq<byte>, info: TCPPayloadInfo, w: World)
    requires 0 < cfg.splitAt && Parse(packet) == Some(info) && cfg.passWindow > 0
    requires !w.skipMark && !Known(st.seen, info, info.seqNum, info.payloadLen)
    requires info.dstIP in st.last ==> w.now - st.last[info.dstIP] >= cfg.passWindow
    ensures var after := Handle(cfg, st, packet, w);
            && after == st.(wire := st.wire + [packet], last := st.last[info.dstIP := w.now], seen := after.seen)
            && (forall key :: key in after.seen <==> key in st.seen || Names(key, info, info.seqNum, info.payloadLen))
            && (forall key :: key in after.seen ==>
                  after.seen[key] == if Names(key, info, info.seqNum, info.payloadLen) then w.stored else st.seen[key])
  {
    KnownOwn(st.seen, info);
    forall key
      ensures Names(key, info, info.seqNum, info.payloadLen) <==> key == KeyOf(info)
    {
      NamesOwn(key, info);
    }
    hide Parse, HandleActive, Names;
  }

  // ----- packets that are taken up -----

  lemma TakenUpIsActive(cfg: Config, st: HandlerState, packet: seq<byte>, info: TCPPayloadInfo, w: World)
    requires 0 < cfg.splitAt && Parse(packet) == Some(info) && TakenUp(cfg, st, info, w)
    ensures Describes(info, packet) && Handle(cfg, st, packet, w) == HandleActive(cfg, st, packet, info, w)
  {
    ParseDescribes(packet, info);
    KnownOwn(st.seen, info);
    hide Parse, HandleActive;
  }

  /** The packet is to be split and can be, and a decoy before it is sent if there is to be one. */
  ghost predicate ToSplit(cfg: Config, st: HandlerState, packet: seq<byte>, info: TCPPayloadInfo, w: World)
  {
    && TakenUp(cfg, st, info, w) && 0 < cfg.splitAt < info.payloadLen
    && (cfg.fakeOn ==> cfg.reverse) && DecoyReady(cfg, packet, info, w)
  }

  /** And all sends of the split succeed. */
  ghost predicate Splits(cfg: Config, st: HandlerState, packet: seq<byte>, info: TCPPayloadInfo, w: World)
  {
    ToSplit(cfg, st, packet, info, w) && w.verdictSet && (cfg.reverse ==> w.rawSent)
  }

  lemma ToSplitIsSplit(cfg: Config, st: HandlerState, packet: seq<byte>, info: TCPPayloadInfo, w: World)
    returns (decoys: seq<seq<byte>>)
    requires Parse(packet) == Some(info) && ToSplit(cfg, st, packet, info, w)
    ensures Describes(info, packet) && DecoySent(cfg, packet, info, w, decoys)
    ensures Handle(cfg, st, packet, w)
            == HandleSplit(cfg, Remembered(st, KeyOf(info), w.stored).(wire := st.wire + decoys), packet, info, w)
  {
    TakenUpIsActive(cfg, st, packet, info, w);
    decoys := DecoyMade(cfg, packet, info, w);
    hide Parse, Describes, Handle, FakeOf, HandleSplit, DecoyReady, TakenUp;
    assert st.wire + [] == st.wire;
  }

  lemma SplitEffect(cfg: Config, st: HandlerState, packet: seq<byte>, info: TCPPayloadInfo, w: World)
    requires Describes(info, packet) && 0 < cfg.splitAt < info.payloadLen && w.verdictSet && (cfg.reverse ==> w.rawSent)
    ensures var after := HandleSplit(cfg, st, packet, info, w);
            var first, second := FirstPart(packet, info, cfg.splitAt), SecondPart(packet, info, cfg.splitAt);
            && after.last == st.last && after.doomed == st.doomed
            && after.wire == (if cfg.reverse then st.wire + [second] + [first] else st.wire + [first])
            && after.waiting == (if cfg.reverse || cfg.probe then st.waiting
                                 else st.waiting + [Waiting(second, SecondKeyOf(info, cfg.splitAt))])
            && after.lost == (if !cfg.reverse && cfg.probe then st.lost + [second] else st.lost)
  {
    hide FirstPart, SecondPart, KeyOf, SecondKeyOf;
  }

  /**
  A packet that is split forward: the wire gains the first part, and the second one waits under its own name. In probe
  mode it is dropped instead. In reverse the wire gains the decoy, if there is one, the second part and the first.
  */
  lemma SplitOutcome(cfg: Config, st: HandlerState, packet: seq<byte>, info: TCPPayloadInfo, w: World)
    returns (decoys: seq<seq<byte>>, first: seq<byte>, second: seq<byte>, key: SegmentKey)
    requires Parse(packet) == Some(info) && Splits(cfg, st, packet, info, w)
    ensures Describes(info, packet) && DecoySent(cfg, packet, info, w, decoys)
    ensures Carries(first, info, info.seqNum, PayloadOf(packet, info)[..cfg.splitAt])
    ensures Carries(second, info, Later(info.seqNum, cfg.splitAt), PayloadOf(packet, info)[cfg.splitAt..])
    ensures Names(key, info, Later(info.seqNum, cfg.splitAt), info.payloadLen - cfg.splitAt)
    ensures var after := Handle(cfg, st, packet, w);
            && after.last == st.last && after.doomed == st.doomed
            && after.wire == (if cfg.reverse then st.wire + decoys + [second] + [first] else st.wire + [first])
            && after.waiting == (if cfg.reverse || cfg.probe then st.waiting else st.waiting + [Waiting(second, key)])
            && after.lost == (if !cfg.reverse && cfg.probe then st.lost + [second] else st.lost)
  {
    decoys := ToSplitIsSplit(cfg, st, packet, info, w);
    PartsCarry(packet, info, cfg.splitAt);
    key := SecondKeyOf(info, cfg.splitAt);
    NamesSecond(key, info, cfg.splitAt);
    first, second := FirstPart(packet, info, cfg.splitAt), SecondPart(packet, info, cfg.splitAt);
    hide Parse, Describes, Carries, Names, Handle, HandleSplit, FirstPart, SecondPart, DecoySent, KeyOf, SecondKeyOf,
         TakenUp, DecoyReady;
    SplitEffect(cfg, Remembered(st, KeyOf(info), w.stored).(wire := st.wire + decoys), packet, info, w);
    if !cfg.reverse {
      NoDecoys(cfg, packet, info, w, decoys);
      assert st.wire + [] == st.wire;
    }
  }

  lemma NoDecoys(cfg: Config, packet: seq<byte>, info: TCPPayloadInfo, w: World, decoys: seq<seq<byte>>)
    requires !cfg.fakeOn && DecoySent(cfg, packet, info, w, decoys)
    ensures decoys == []
  {
  }

  /** It is recorded, and so is its second part unless that was dropped; no other record changes. */
  lemma SplitRecords(cfg: Config, st: HandlerState, packet: seq<byte>, info: TCPPayloadInfo, w: World, key: SegmentKey)
    requires Parse(packet) == Some(info) && Splits(cfg, st, packet, info, w)
    ensures var seen := Handle(cfg, st, packet, w).seen;
            var own := Names(key, info, info.seqNum, info.payloadLen);
            var ofSecond := Names(key, info, Later(info.seqNum, cfg.splitAt), info.payloadLen - cfg.splitAt)
                            && (cfg.reverse || !cfg.probe);
            && (key in seen <==> key in st.seen || own || ofSecond)
            && (key in seen ==> seen[key] == if own then w.stored else if ofSecond then w.later else st.seen[key])
  {
    var decoys := ToSplitIsSplit(cfg, st, packet, info, w);
    NamesOwn(key, info);
    NamesSecond(key, info, cfg.splitAt);
    assert KeyOf(info) != SecondKeyOf(info, cfg.splitAt);
    hide Parse, Names, Handle, FirstPart, SecondPart, DecoySent, KeyOf, SecondKeyOf, Get32, TakenUp, DecoyReady;
  }

  /** In forward order a decoy goes out before the packet itself, which is not split. */
  lemma DecoyOutcome(cfg: Config, st: HandlerState, packet: seq<byte>, info: TCPPayloadInfo, w: World)
    returns (decoys: seq<seq<byte>>)
    requires 0 < cfg.splitAt && Parse(packet) == Some(info) && TakenUp(cfg, st, info, w)
    requires cfg.fakeOn && !cfg.reverse && DecoyReady(cfg, packet, info, w)
    ensures DecoySent(cfg, packet, info, w, decoys)
    ensures var after := Handle(cfg, st, packet, w);
            && after == st.(wire := st.wire + decoys + [packet], seen := after.seen)
            && forall key ::
                 key in after.seen
                 <==> key in st.seen || (w.verdictSet && Names(key, info, info.seqNum, info.payloadLen))
  {
    TakenUpIsActive(cfg, st, packet, info, w);
    decoys := DecoyMade(cfg, packet, info, w);
    KnownOwn(st.seen, info);
    forall key
      ensures Names(key, info, info.seqNum, info.payloadLen) <==> key == KeyOf(info)
    {
      NamesOwn(key, info);
    }
    hide Parse, Handle, FakeOf, Names, DecoySent, KeyOf, DecoyReady;
  }

  // ----- failures -----

  /** If the decoy cannot be made or sent, the packet goes out as it is and leaves no record. */
  lemma NoDecoyOutcome(cfg: Config, st: HandlerState, packet: seq<byte>, info: TCPPayloadInfo, w: World)
    requires 0 < cfg.splitAt && Parse(packet) == Some(info) && TakenUp(cfg, st, info, w)
    requires !DecoyReady(cfg, packet, info, w)
    ensures Handle(cfg, st, packet, w) == st.(wire := st.wire + [packet])
  {
    TakenUpIsActive(cfg, st, packet, info, w);
    var decoys := DecoyMade(cfg, packet, info, w);
    ForgottenAgain(st, info, w.stored);
    hide Parse, Handle, FakeOf, DecoyReady, TakenUp, KeyOf;
  }

  lemma ForgottenAgain(st: HandlerState, info: TCPPayloadInfo, now: int)
    requires !Known(st.seen, info, info.seqNum, info.payloadLen)
    ensures Forgotten(Remembered(st, KeyOf(info), now), KeyOf(info)) == st
  {
    KnownOwn(st.seen, info);
    assert st.seen[KeyOf(info) := now] - {KeyOf(info)} == st.seen;
  }

  /** A packet with no more payload than the first part should have goes out as it is, after the decoy, if any. */
  lemma TooShortOutcome(cfg: Config, st: HandlerState, packet: seq<byte>, info: TCPPayloadInfo, w: World)
    returns (decoys: seq<seq<byte>>)
    requires Parse(packet) == Some(info) && TakenUp(cfg, st, info, w)
    requires (cfg.fakeOn ==> cfg.reverse) && DecoyReady(cfg, packet, info, w) && 0 < info.payloadLen <= cfg.splitAt
    ensures DecoySent(cfg, packet, info, w, decoys)
    ensures Handle(cfg, st, packet, w) == st.(wire := st.wire + decoys + [packet])
  {
    TakenUpIsActive(cfg, st, packet, info, w);
    decoys := DecoyMade(cfg, packet, info, w);
    ForgottenAgain(st, info, w.stored);
    assert st.wire + [] == st.wire;
    hide Parse, Handle, FakeOf, DecoyReady, DecoySent, TakenUp, KeyOf;
  }

  /**
  If the first send of a split fails, the verdict forward or the raw send in reverse, the packet goes out whole and
  neither it nor its second part is recorded.
  */
  lemma FirstSendFails(cfg: Config, st: HandlerState, packet: seq<byte>, info: TCPPayloadInfo, w: World)
    returns (decoys: seq<seq<byte>>)
    requires Parse(packet) == Some(info) && ToSplit(cfg, st, packet, info, w)
    requires if cfg.reverse then !w.rawSent else !w.verdictSet
    ensures DecoySent(cfg, packet, info, w, decoys)
    ensures var after := Handle(cfg, st, packet, w);
            && after == st.(wire := st.wire + decoys + [packet], seen := after.seen)
            && !Known(after.seen, info, info.seqNum, info.payloadLen)
            && (cfg.reverse ==>
              !Known(after.seen, info, Later(info.seqNum, cfg.splitAt), info.payloadLen - cfg.splitAt))
            && forall key :: key in after.seen ==> key in st.seen && after.seen[key] == st.seen[key]
  {
    decoys := ToSplitIsSplit(cfg, st, packet, info, w);
    var seen := Handle(cfg, st, packet, w).seen;
    KnownOwn(st.seen, info);
    KnownOwn(seen, info);
    KnownSecond(seen, info, cfg.splitAt);
    hide Parse, Handle, FirstPart, SecondPart, DecoySent, KeyOf, SecondKeyOf, Known, Later, Get32, DecoyReady;
  }

  lemma LastSendEffect(cfg: Config, st: HandlerState, packet: seq<byte>, info: TCPPayloadInfo, w: World)
    requires Describes(info, packet) && 0 < cfg.splitAt < info.payloadLen && cfg.reverse && w.rawSent && !w.verdictSet
    ensures var after := HandleSplit(cfg, st, packet, info, w);
            && after == st.(wire := st.wire + [SecondPart(packet, info, cfg.splitAt)] + [packet], seen := after.seen)
            && KeyOf(info) !in after.seen && SecondKeyOf(info, cfg.splitAt) in after.seen
  {
    hide SecondPart, FirstPart;
  }

  /** If in reverse the verdict fails after the second part is out, the whole packet follows and is not recorded. */
  lemma LastSendFails(cfg: Config, st: HandlerState, packet: seq<byte>, info: TCPPayloadInfo, w: World)
    returns (decoys: seq<seq<byte>>, second: seq<byte>)
    requires Parse(packet) == Some(info) && ToSplit(cfg, st, packet, info, w)
    requires cfg.reverse && w.rawSent && !w.verdictSet
    ensures Describes(info, packet) && DecoySent(cfg, packet, info, w, decoys)
    ensures Carries(second, info, Later(info.seqNum, cfg.splitAt), PayloadOf(packet, info)[cfg.splitAt..])
    ensures var after := Handle(cfg, st, packet, w);
            && after == st.(wire := st.wire + decoys + [second] + [packet], seen := after.seen)
            && !Known(after.seen, info, info.seqNum, info.payloadLen)
            && Known(after.seen, info, Later(info.seqNum, cfg.splitAt), info.payloadLen - cfg.splitAt)
  {
    decoys := ToSplitIsSplit(cfg, st, packet, info, w);
    PartsCarry(packet, info, cfg.splitAt);
    second := SecondPart(packet, info, cfg.splitAt);
    var seen := Handle(cfg, st, packet, w).seen;
    KnownOwn(seen, info);
    KnownSecond(seen, info, cfg.splitAt);
    hide Parse, Describes, Handle, HandleSplit, Carries, FirstPart, SecondPart, DecoySent, KeyOf, SecondKeyOf,
         Known, Later, DecoyReady;
    LastSendEffect(cfg, Remembered(st, KeyOf(info), w.stored).(wire := st.wire + decoys), packet, info, w);
  }

  // ----- the goroutine and the cleanup loop -----

  /** A second part that wakes is sent as it is; if that fails, it is lost and its record goes. */
  lemma SenderOutcome(st: HandlerState, front: seq<Waiting>, due: Waiting, back: seq<Waiting>, ok: bool)
    requires st.waiting == front + [due] + back
    ensures var after := WakeSender(st, |front|, ok);
            && after.waiting == front + back && after.last == st.last && after.doomed == st.doomed
            && after.wire == (if ok then st.wire + [due.packet] else st.wire)
            && after.lost == (if ok then st.lost else st.lost + [due.packet])
            && forall key :: key in after.seen <==> key in st.seen && (ok || key != due.key)
  {
    assert st.waiting[..|front|] == front && st.waiting[|front| + 1..] == back && st.waiting[|front|] == due;
  }

  /** An undisturbed test and delete forget exactly a record that is older than the time to live. */
  lemma ExpiryOutcome(cfg: Config, st: HandlerState, key: SegmentKey, now: int)
    requires st.doomed.None? && key in st.seen
    ensures var after := Deleted(Tested(cfg, st, key, now));
            && after == st.(seen := after.seen)
            && (key in after.seen <==> now <= st.seen[key] + cfg.seenTTL)
            && forall other :: other != key ==>
                 (other in after.seen <==> other in st.seen)
                 && (other in st.seen ==> after.seen[other] == st.seen[other])
  {
  }

  /** A whole pass forgets what those of its keys forget. */
  lemma PassForgets(cfg: Config, st: HandlerState, key: SegmentKey, now: int)
    requires st.doomed.None?
    ensures key in CleanSeen(st.seen, now, cfg.seenTTL) <==> key in Deleted(Tested(cfg, st, key, now)).seen
  {
  }
}
