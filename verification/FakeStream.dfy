/** Whether the decoy segment can reach the receiver's stream. */
module FakeStream {
  import opened Wrappers
  import opened Bytes
  import opened Checksum
  import opened Packet
  import opened SplitLaws
  import opened FakePacket
  import opened Stream

  lemma FakeAgrees(body: seq<byte>, ihl: int)
    requires IPV4_MIN_HEADER <= ihl && ihl + TCP_MIN_HEADER <= |body| < 0x1_0000
    ensures AgreeElsewhere(WithBadTCPChecksum(body, ihl), body, ihl)
    ensures Get16(WithBadTCPChecksum(body, ihl), 2) == |body|
  {
    hide CodeChecksum, Pseudo, Hi, Lo, Word, Wrap16, ValidTCPChecksum, Corrupt;
    WrapSmall16(|body|);
    OctetsWord(|body|);
  }

  lemma FakeBodyParses(packet: seq<byte>, info: TCPPayloadInfo, body: seq<byte>)
    requires Parse(packet) == Some(info) && Describes(info, packet)
    requires info.payloadOffset < |body| < 0x1_0000 && body[..info.payloadOffset] == packet[..info.payloadOffset]
    ensures Parse(WithBadTCPChecksum(body, info.ipHeaderLen))
            == Some(Moved(info, info.seqNum, info.flags, |body| - info.payloadOffset))
  {
    hide Parse, WithBadTCPChecksum, Get16, Get32;
    var ihl := info.ipHeaderLen;
    var fake := WithBadTCPChecksum(body, ihl);
    FakeAgrees(body, ihl);
    assert |fake| == |body|;
    assert SameHeaders(packet, fake, ihl, info.payloadOffset) by {
      assert forall j :: 0 <= j < info.payloadOffset ==> body[j] == body[..info.payloadOffset][j] == packet[j];
    }
    ParseAgrees(packet, info, fake);
    assert fake[ihl + 4..ihl + 8] == packet[ihl + 4..ihl + 8] by {
      assert forall j :: ihl + 4 <= j < ihl + 8 ==> fake[j] == body[j] == body[..info.payloadOffset][j] == packet[j];
    }
    Get32Slice(fake, ihl + 4);
    Get32Slice(packet, ihl + 4);
    assert fake[ihl + 13] == body[..info.payloadOffset][ihl + 13];
  }

  /** The decoy is invisible to the receiver exactly when the checksum it should have carried is not 0x0000. */
  lemma FakeInvisibleIff(packet: seq<byte>, info: TCPPayloadInfo, body: seq<byte>)
    requires Parse(packet) == Some(info) && Describes(info, packet)
    requires info.payloadOffset < |body| < 0x1_0000 && body[..info.payloadOffset] == packet[..info.payloadOffset]
    ensures View(WithBadTCPChecksum(body, info.ipHeaderLen)) == {}
            <==> ValidTCPChecksum(WithIPLengthAndChecksum(body, info.ipHeaderLen), info.ipHeaderLen) != 0
  {
    hide Parse, WithBadTCPChecksum, Get16, Get32, ValidTCPChecksum, WithIPLengthAndChecksum, TCPChecksumVerifies,
         IPChecksumVerifies, HasFin, HasSyn;
    var ihl := info.ipHeaderLen;
    var fake := WithBadTCPChecksum(body, ihl);
    FakeBodyParses(packet, info, body);
    FakeIPVerifies(body, ihl);
    FakeTCPVerifiesIff(body, ihl);
    assert fake[..|fake|] == fake;
    var moved := Moved(info, info.seqNum, info.flags, |body| - info.payloadOffset);
    OctetIsThere(FlowOf(moved), moved.seqNum, HasSyn(moved.flags), HasFin(moved.flags), PayloadOf(fake, moved), 0);
  }

  // ----- the exception is real -----

  function Zeros(n: nat): seq<byte>
  {
    seq(n, _ => 0)
  }

  /** A 41-octet segment from 0.0.0.0:45028 whose TCP words add up to 0xffff. */
  function ZeroChecksumPacket(): (r: seq<byte>)
    ensures |r| == 41
  {
    Zeros(41)[0 := 0x45][3 := 41][8 := 64][9 := 6][20 := 0xaf][21 := 0xe4][32 := 0x50]
  }

  lemma WitnessWords()
    ensures Hi(6) == 0 && Lo(6) == 6
    ensures Hi(21) == 0 && Lo(21) == 21
    ensures Hi(0xafe4) == 0xaf && Lo(0xafe4) == 0xe4
    ensures Hi(0x5000) == 0x50 && Lo(0x5000) == 0
  {
    hide Hi, Lo;
    assert Word(0, 6) == 6 && Word(0, 21) == 21 && Word(0xaf, 0xe4) == 0xafe4 && Word(0x50, 0) == 0x5000;
    WordOctets(0, 6);
    WordOctets(0, 21);
    WordOctets(0xaf, 0xe4);
    WordOctets(0x50, 0);
  }

  lemma WitnessNibbles()
    ensures HighNibble(0x45) == 4 && LowNibble(0x45) == 5 && HighNibble(0x50) == 5
  {
  }

  /** Only the protocol, the TCP length, the source port and the data offset are non-zero in the summed buffer. */
  lemma ZeroChecksumPseudo(packet: seq<byte>)
    requires |packet| == 41 && forall j :: 12 <= j < 41 ==> packet[j] == ZeroChecksumPacket()[j]
    ensures CodeChecksum(Pseudo(packet, 20)) == 0
  {
    hide Hi, Lo, Word, Wrap16, WordSum, Norm, CodeChecksum;
    WitnessWords();
    WrapSmall16(21);
    var zeros := Zeros(33);
    var one := Put16(zeros, 8, 6);
    var two := Put16(one, 10, 21);
    var three := Put16(two, 12, 0xafe4);
    var four := Put16(three, 24, 0x5000);
    assert Pseudo(packet, 20) == four;
    WordSumZeros(33);
    WordSumPut(zeros, 8, 6);
    WordSumPut(one, 10, 21);
    WordSumPut(two, 12, 0xafe4);
    WordSumPut(three, 24, 0x5000);
    NoOverflow(four);
    NormUnique(0xffff, 0, 0xffff);
  }

  lemma WitnessParses()
    ensures Parse(ZeroChecksumPacket()).Some?
    ensures Parse(ZeroChecksumPacket()).value.ipHeaderLen == 20 && Parse(ZeroChecksumPacket()).value.payloadOffset == 40
  {
    hide HighNibble, LowNibble, Pair;
    WitnessNibbles();
  }

  /** A decoy that copies this packet verifies at the receiver. */
  lemma FakeCanBeVisible()
    ensures Parse(ZeroChecksumPacket()).Some?
    ensures View(WithBadTCPChecksum(ZeroChecksumPacket(), 20)) != {}
  {
    hide Parse, View, WithBadTCPChecksum, CodeChecksum, Pseudo, Hi, Lo, Word;
    var packet := ZeroChecksumPacket();
    WitnessParses();
    var info := Parse(packet).value;
    ParseDescribes(packet, info);
    var withIP := WithIPLengthAndChecksum(packet, 20);
    ZeroOctets();
    var cleared := Put16(withIP, 36, 0);
    ZeroChecksumPseudo(cleared);
    FakeInvisibleIff(packet, info, packet);
  }
}
