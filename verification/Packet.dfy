/**
IPv4/TCP packets as octet sequences: the parser of internal/payload.go and the
values that its in-place code computes.
*/
module Packet {
  import opened Wrappers
  import opened Bytes
  import opened Checksum

  const IPV4_MIN_HEADER: int := 20
  const TCP_MIN_HEADER: int := 20
  const PROTO_TCP: int := 6

  datatype TCPPayloadInfo = TCPPayloadInfo(
    srcIP: seq<byte>,
    dstIP: seq<byte>,
    srcPort: uint16,
    dstPort: uint16,
    seqNum: uint32,
    ackNum: uint32,
    flags: byte,
    ipHeaderLen: int,
    tcpHeaderLen: int,
    payloadOffset: int,
    payloadLen: int,
    totalLen: int)

  function HighNibble(b: byte): nat
  {
    b / 16
  }

  function LowNibble(b: byte): nat
  {
    b % 16
  }

  /** More-fragments bit set or a non-zero fragment offset: the mask 0x3fff. */
  predicate IsFragment(w: uint16)
  {
    w % 0x4000 != 0
  }

  /** The metadata of an unfragmented IPv4/TCP packet that carries payload, or None. */
  function Parse(packet: seq<byte>): Option<TCPPayloadInfo>
  {
    if |packet| < IPV4_MIN_HEADER + TCP_MIN_HEADER || HighNibble(packet[0]) != 4 then None
    else
      var ihl := 4 * LowNibble(packet[0]);
      if ihl < IPV4_MIN_HEADER || |packet| < ihl + TCP_MIN_HEADER then None
      else if packet[9] != PROTO_TCP then None
      else if IsFragment(Get16(packet, 6)) then None
      else
        var totalLen := Get16(packet, 2);
        if totalLen < ihl + TCP_MIN_HEADER || totalLen > |packet| then None
        else
          var thl := 4 * HighNibble(packet[ihl + 12]);
          if thl < TCP_MIN_HEADER || totalLen - ihl < thl then None
          else
            var offset := ihl + thl;
            if totalLen - offset <= 0 then None
            else Some(TCPPayloadInfo(
              packet[12..16], packet[16..20],
              Get16(packet, ihl), Get16(packet, ihl + 2),
              Get32(packet, ihl + 4), Get32(packet, ihl + 8),
              packet[ihl + 13],
              ihl, thl, offset, totalLen - offset, totalLen))
  }

  /** The payload that the metadata delimits. */
  function PayloadOf(packet: seq<byte>, info: TCPPayloadInfo): seq<byte>
    requires 0 <= info.payloadOffset <= info.totalLen <= |packet|
  {
    packet[info.payloadOffset..info.totalLen]
  }

  /** What the in-place code needs of its metadata in order not to index outside the headers. */
  predicate SaneLengths(info: TCPPayloadInfo)
  {
    && IPV4_MIN_HEADER <= info.ipHeaderLen
    && info.ipHeaderLen + TCP_MIN_HEADER <= info.payloadOffset
    && info.payloadLen == info.totalLen - info.payloadOffset
  }

  /** The metadata points at the sequence number and the flags that it records. */
  predicate Describes(info: TCPPayloadInfo, packet: seq<byte>)
  {
    && SaneLengths(info)
    && 0 < info.payloadLen && info.totalLen <= |packet| && info.totalLen < 0x1_0000
    && info.seqNum == Get32(packet, info.ipHeaderLen + 4)
    && info.flags == packet[info.ipHeaderLen + 13]
  }

  lemma ParseDescribes(packet: seq<byte>, info: TCPPayloadInfo)
    requires Parse(packet) == Some(info)
    ensures Describes(info, packet)
  {
    hide HighNibble, LowNibble, IsFragment, Word, Pair;
  }

  /** Header lengths are whole 32-bit words and at most 60 octets each. */
  lemma ParsedHeaderLengths(packet: seq<byte>, info: TCPPayloadInfo)
    requires Parse(packet) == Some(info)
    ensures info.payloadOffset == info.ipHeaderLen + info.tcpHeaderLen
    ensures info.ipHeaderLen % 4 == 0 && info.ipHeaderLen <= 60
    ensures info.tcpHeaderLen % 4 == 0 && 20 <= info.tcpHeaderLen <= 60
  {
    hide HighNibble, LowNibble, IsFragment, Word, Pair;
    NibbleBound(packet[0]);
    NibbleBound(packet[info.ipHeaderLen + 12]);
  }

  lemma NibbleBound(b: byte)
    ensures HighNibble(b) < 16 && LowNibble(b) < 16
  {
  }

  // ----- checksums -----

  /** Pseudo-header of section 3.1 of RFC 9293 followed by the TCP segment. */
  function Pseudo(packet: seq<byte>, ihl: int): seq<byte>
    requires IPV4_MIN_HEADER <= ihl <= |packet|
  {
    var tcpLen := Wrap16(|packet| - ihl);
    packet[12..20] + [0, PROTO_TCP, Hi(tcpLen), Lo(tcpLen)] + packet[ihl..]
  }

  predicate IPChecksumVerifies(packet: seq<byte>, ihl: int)
    requires 0 <= ihl <= |packet|
  {
    CodeChecksum(packet[..ihl]) == 0
  }

  predicate TCPChecksumVerifies(packet: seq<byte>, ihl: int)
    requires IPV4_MIN_HEADER <= ihl <= |packet|
  {
    CodeChecksum(Pseudo(packet, ihl)) == 0
  }

  /** packet with the IPv4 total length set and the IPv4 checksum recomputed. */
  function WithIPLengthAndChecksum(packet: seq<byte>, ihl: int): (r: seq<byte>)
    requires IPV4_MIN_HEADER <= ihl <= |packet|
    ensures |r| == |packet|
  {
    var cleared := Put16(Put16(packet, 2, Wrap16(|packet|)), 10, 0);
    Put16(cleared, 10, CodeChecksum(cleared[..ihl]))
  }

  /** packet with the TCP checksum recomputed. */
  function WithTCPChecksum(packet: seq<byte>, ihl: int): (r: seq<byte>)
    requires IPV4_MIN_HEADER <= ihl && ihl + 18 <= |packet|
    ensures |r| == |packet|
  {
    var cleared := Put16(packet, ihl + 16, 0);
    Put16(cleared, ihl + 16, CodeChecksum(Pseudo(cleared, ihl)))
  }

  function WithChecksums(packet: seq<byte>, ihl: int): (r: seq<byte>)
    requires IPV4_MIN_HEADER <= ihl && ihl + 18 <= |packet|
    ensures |r| == |packet|
  {
    WithTCPChecksum(WithIPLengthAndChecksum(packet, ihl), ihl)
  }

  // ----- splitting -----

  /** flags with PSH (0x08) and FIN (0x01) cleared. */
  function ClearPshFin(flags: byte): (r: byte)
  {
    AndNot(flags, 0x09)
  }

  predicate SplitDefined(info: TCPPayloadInfo, length: int, splitAt: int)
  {
    0 < splitAt < info.payloadLen && info.totalLen <= length
  }

  function FirstPart(packet: seq<byte>, info: TCPPayloadInfo, splitAt: int): seq<byte>
    requires SaneLengths(info) && SplitDefined(info, |packet|, splitAt)
  {
    var raw := packet[..info.payloadOffset + splitAt];
    var flagsAt := info.ipHeaderLen + 13;
    WithChecksums(raw[flagsAt := ClearPshFin(raw[flagsAt])], info.ipHeaderLen)
  }

  function SecondPart(packet: seq<byte>, info: TCPPayloadInfo, splitAt: int): seq<byte>
    requires SaneLengths(info) && SplitDefined(info, |packet|, splitAt)
  {
    var raw := packet[..info.payloadOffset] + packet[info.payloadOffset + splitAt..info.totalLen];
    WithChecksums(Put32(raw, info.ipHeaderLen + 4, Wrap32(info.seqNum + splitAt)), info.ipHeaderLen)
  }
}
