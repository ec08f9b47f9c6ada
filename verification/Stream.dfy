/**
The TCP stream as a receiver sees it: which octet sits at which sequence
number of which flow, and where SYN and FIN are. Sets make it independent of
the order and the repetition of segments.
*/
module Stream {
  import opened Wrappers
  import opened Bytes
  import opened Packet
  import opened SplitLaws

  datatype Flow = Flow(srcIP: seq<byte>, dstIP: seq<byte>, srcPort: uint16, dstPort: uint16)

  datatype Item =
    | Octet(flow: Flow, pos: uint32, value: byte)
    | Syn(flow: Flow, pos: uint32)
    | Fin(flow: Flow, pos: uint32)

  function FlowOf(info: TCPPayloadInfo): Flow
  {
    Flow(info.srcIP, info.dstIP, info.srcPort, info.dstPort)
  }

  predicate HasFin(flags: byte)
  {
    BitAt(flags, 0) == 1
  }

  predicate HasSyn(flags: byte)
  {
    BitAt(flags, 1) == 1
  }

  /** What a segment says about its flow; a SYN takes one sequence number (section 3.4 of RFC 9293). */
  function Items(flow: Flow, seqNum: uint32, syn: bool, fin: bool, payload: seq<byte>): set<Item>
  {
    var start := if syn then seqNum + 1 else seqNum;
    Octets(flow, start, payload)
    + (if syn then {Syn(flow, seqNum)} else {})
    + (if fin then {Fin(flow, Wrap32(start + |payload|))} else {})
  }

  function Octets(flow: Flow, start: nat, payload: seq<byte>): set<Item>
  {
    set i | 0 <= i < |payload| :: Octet(flow, Wrap32(start + i), payload[i])
  }

  /** A receiver discards a segment unless both checksums verify. */
  predicate Verifies(packet: seq<byte>, info: TCPPayloadInfo)
    requires IPV4_MIN_HEADER <= info.ipHeaderLen <= info.totalLen <= |packet|
  {
    IPChecksumVerifies(packet, info.ipHeaderLen) && TCPChecksumVerifies(packet[..info.totalLen], info.ipHeaderLen)
  }

  function Meaning(info: TCPPayloadInfo, payload: seq<byte>): set<Item>
  {
    Items(FlowOf(info), info.seqNum, HasSyn(info.flags), HasFin(info.flags), payload)
  }

  /** What one packet on the wire contributes to the receiver's picture. */
  function View(packet: seq<byte>): set<Item>
  {
    match Parse(packet)
    case None => {}
    case Some(info) =>
      ParseDescribes(packet, info);
      if Verifies(packet, info) then Meaning(info, PayloadOf(packet, info)) else {}
  }

  /** What a whole log of packets contributes. */
  function ViewAll(log: seq<seq<byte>>): set<Item>
  {
    if log == [] then {} else ViewAll(log[..|log| - 1]) + View(log[|log| - 1])
  }

  lemma {:induction false} ViewAllConcat(a: seq<seq<byte>>, b: seq<seq<byte>>)
    ensures ViewAll(a + b) == ViewAll(a) + ViewAll(b)
  {
    if b == [] {
      assert a + b == a;
    } else {
      assert (a + b)[..|a + b| - 1] == a + b[..|b| - 1];
      ViewAllConcat(a, b[..|b| - 1]);
    }
  }

  /** The view of a log is the union of the views of its packets. */
  lemma {:induction false} ViewAllMember(log: seq<seq<byte>>, item: Item)
    ensures item in ViewAll(log) <==> exists i :: 0 <= i < |log| && item in View(log[i])
  {
    hide View;
    if log != [] {
      ViewAllMember(log[..|log| - 1], item);
      if item in ViewAll(log) && item in ViewAll(log[..|log| - 1]) {
        var i :| 0 <= i < |log| - 1 && item in View(log[..|log| - 1][i]);
        assert item in View(log[i]);
      }
    }
  }

  /** Whoever gets only packets of b, in any order and any number of times, learns no more than from b. */
  lemma ViewMonotone(a: seq<seq<byte>>, b: seq<seq<byte>>)
    requires forall p: seq<byte> :: p in a ==> p in b
    ensures ViewAll(a) <= ViewAll(b)
  {
    hide View, ViewAll;
    forall item | item in ViewAll(a)
      ensures item in ViewAll(b)
    {
      ViewAllMember(a, item);
      ViewAllMember(b, item);
      var i :| 0 <= i < |a| && item in View(a[i]);
      assert a[i] in b;
      var j :| 0 <= j < |b| && b[j] == a[i];
      assert item in View(b[j]);
    }
  }

  // ----- splitting -----

  lemma OctetsConcat(flow: Flow, start: nat, payload: seq<byte>, k: int)
    requires 0 < k < |payload|
    ensures Octets(flow, start, payload[..k]) + Octets(flow, Wrap32(start + k), payload[k..])
            == Octets(flow, start, payload)
  {
    hide Wrap32;
    var first := Octets(flow, start, payload[..k]);
    var second := Octets(flow, Wrap32(start + k), payload[k..]);
    var whole := Octets(flow, start, payload);
    assert first <= whole;
    forall item | item in second
      ensures item in whole
    {
      var i :| 0 <= i < |payload[k..]| && item == Octet(flow, Wrap32(Wrap32(start + k) + i), payload[k..][i]);
      WrapAdd(start + k, i);
      assert item == Octet(flow, Wrap32(start + (k + i)), payload[k + i]);
    }
    forall item | item in whole
      ensures item in first + second
    {
      var i :| 0 <= i < |payload| && item == Octet(flow, Wrap32(start + i), payload[i]);
      if i < k {
        assert item == Octet(flow, Wrap32(start + i), payload[..k][i]);
      } else {
        WrapAdd(start + k, i - k);
        assert item == Octet(flow, Wrap32(Wrap32(start + k) + (i - k)), payload[k..][i - k]);
      }
    }
  }

  /** Two adjacent ranges of sequence numbers make up the whole one, FIN staying at the end. */
  lemma ItemsConcat(flow: Flow, seqNum: uint32, fin: bool, payload: seq<byte>, k: int)
    requires 0 < k < |payload|
    ensures Items(flow, seqNum, false, false, payload[..k]) + Items(flow, Wrap32(seqNum + k), false, fin, payload[k..])
            == Items(flow, seqNum, false, fin, payload)
  {
    hide Wrap32, Octets;
    OctetsConcat(flow, seqNum, payload, k);
    WrapAdd(seqNum + k, |payload| - k);
  }

  lemma ClearedFlags(flags: byte)
    ensures !HasFin(ClearPshFin(flags)) && HasSyn(ClearPshFin(flags)) == HasSyn(flags)
  {
    ClearPshFinBits(flags, 0);
    ClearPshFinBits(flags, 1);
  }

  /** Both halves are accepted, whatever the checksums of the original were. */
  lemma SplitViews(packet: seq<byte>, info: TCPPayloadInfo, k: int)
    requires Parse(packet) == Some(info) && 0 < k < info.payloadLen
    ensures Describes(info, packet) && Cut(packet, k).Some?
    ensures var (first, second) := Cut(packet, k).value;
            var payload := PayloadOf(packet, info);
            var flow := FlowOf(info);
            && View(first) == Items(flow, info.seqNum, HasSyn(info.flags), false, payload[..k])
            && View(second)
              == Items(flow, Wrap32(info.seqNum + k), HasSyn(info.flags), HasFin(info.flags), payload[k..])
  {
    hide Parse, Cut, ClearPshFin, Wrap32, Items, HasSyn, HasFin, IPChecksumVerifies, TCPChecksumVerifies, Get32;
    SplitParses(packet, info, k);
    SplitVerifies(packet, info, k);
    ClearedFlags(info.flags);
    var (first, second) := Cut(packet, k).value;
    var payload := PayloadOf(packet, info);
    assert first[..|first|] == first && second[..|second|] == second;
  }

  /**
  Splitting preserves the stream, FIN included, exactly when the packet's checksums verify and SYN is clear:
  a packet that fails verification would be discarded but its halves are given good checksums, and a SYN would
  be repeated at a second sequence number.
  */
  lemma SplitPreservesStream(packet: seq<byte>, info: TCPPayloadInfo, k: int)
    requires Parse(packet) == Some(info) && 0 < k < info.payloadLen
    ensures Describes(info, packet) && Cut(packet, k).Some?
    ensures var (first, second) := Cut(packet, k).value;
            View(first) + View(second) == View(packet) <==> Verifies(packet, info) && !HasSyn(info.flags)
  {
    hide Parse, Cut, Wrap32, HasSyn, HasFin, IPChecksumVerifies, TCPChecksumVerifies, Get32;
    SplitViews(packet, info, k);
    var (first, second) := Cut(packet, k).value;
    var payload := PayloadOf(packet, info);
    var flow := FlowOf(info);
    if !Verifies(packet, info) {
      OctetIsThere(flow, info.seqNum, HasSyn(info.flags), false, payload[..k], 0);
      assert View(packet) == {};
    } else if HasSyn(info.flags) {
      OtherPosition(info.seqNum, k);
      assert Syn(flow, Wrap32(info.seqNum + k)) in View(second);
      assert Syn(flow, Wrap32(info.seqNum + k)) !in View(packet);
    } else {
      ItemsConcat(flow, info.seqNum, HasFin(info.flags), payload, k);
    }
  }

  lemma OctetIsThere(flow: Flow, seqNum: uint32, syn: bool, fin: bool, payload: seq<byte>, i: nat)
    requires i < |payload|
    ensures Octet(flow, Wrap32((if syn then seqNum + 1 else seqNum) + i), payload[i])
            in Items(flow, seqNum, syn, fin, payload)
  {
  }

  lemma OtherPosition(seqNum: uint32, k: int)
    requires 0 < k < 0x1_0000
    ensures Wrap32(seqNum + k) != seqNum
  {
  }
}
