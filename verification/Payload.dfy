/** The buffer code of internal/payload.go: splitting one segment into two and fixing their headers in place. */
module Payload {
  import opened Bytes
  import opened Checksum
  import opened Packet

  datatype SplitError = OffsetOutsidePayload | InvalidMetadata

  datatype SplitResult =
    | Parts(first: array<byte>, second: array<byte>)
    | Failed(error: SplitError)

  /** Go's copy into dst[at:]; the source fits. */
  method CopyInto(dst: array<byte>, at: nat, src: seq<byte>)
    requires at + |src| <= dst.Length
    modifies dst
    ensures dst[..] == old(dst[..at]) + src + old(dst[at + |src|..])
  {
    for k := 0 to |src|
      invariant dst[..] == old(dst[..at]) + src[..k] + old(dst[at + k..])
    {
      dst[at + k] := src[k];
    }
  }

  /** binary.BigEndian.PutUint16(buf[at:], w). */
  method PutUint16(buf: array<byte>, at: nat, w: uint16)
    requires at + 2 <= buf.Length
    modifies buf
    ensures buf[..] == Put16(old(buf[..]), at, w)
  {
    buf[at], buf[at + 1] := Hi(w), Lo(w);
  }

  /** binary.BigEndian.PutUint32(buf[at:], w). */
  method PutUint32(buf: array<byte>, at: nat, w: uint32)
    requires at + 4 <= buf.Length
    modifies buf
    ensures buf[..] == Put32(old(buf[..]), at, w)
  {
    PutUint16(buf, at + 2, Lower(w));
    PutUint16(buf, at, Upper(w));
  }

  method FixIPv4TCPChecksums(packet: array<byte>, ihl: int)
    requires IPV4_MIN_HEADER <= ihl && ihl + 18 <= packet.Length
    modifies packet
    ensures packet[..] == WithChecksums(old(packet[..]), ihl)
  {
    PutUint16(packet, 2, Wrap16(packet.Length));
    packet[10], packet[11] := 0, 0;
    ghost var cleared := Put16(Put16(old(packet[..]), 2, Wrap16(packet.Length)), 10, 0);
    assert packet[..] == cleared;
    assert packet[..ihl] == cleared[..ihl];
    var ipSum := InternetChecksum(packet[..ihl]);
    PutUint16(packet, 10, ipSum);
    assert packet[..] == WithIPLengthAndChecksum(old(packet[..]), ihl);

    ghost var withIP := packet[..];
    packet[ihl + 16], packet[ihl + 17] := 0, 0;
    assert packet[..] == Put16(withIP, ihl + 16, 0);
    var pseudo := PseudoHeaderAndSegment(packet, ihl);
    var tcpSum := InternetChecksum(pseudo[..]);
    PutUint16(packet, ihl + 16, tcpSum);
  }

  /** The scratch buffer that the TCP checksum is taken over. */
  method PseudoHeaderAndSegment(packet: array<byte>, ihl: int) returns (pseudo: array<byte>)
    requires IPV4_MIN_HEADER <= ihl <= packet.Length
    ensures fresh(pseudo) && pseudo[..] == Pseudo(packet[..], ihl)
  {
    hide Hi, Lo, Wrap16;
    var tcpLen := packet.Length - ihl;
    pseudo := new byte[12 + tcpLen](_ => 0);
    CopyInto(pseudo, 0, packet[12..16]);
    CopyInto(pseudo, 4, packet[16..20]);
    assert pseudo[..8] == packet[..][12..20] && pseudo[8] == 0;
    pseudo[9] := PROTO_TCP;
    PutUint16(pseudo, 10, Wrap16(tcpLen));
    assert pseudo[..12] == packet[..][12..20] + [0, PROTO_TCP, Hi(Wrap16(tcpLen)), Lo(Wrap16(tcpLen))];
    CopyInto(pseudo, 12, packet[ihl..]);
    assert packet[..][ihl..] == packet[ihl..];
  }

  method SplitIPv4TCPPacket(packet: array<byte>, info: TCPPayloadInfo, splitAt: int) returns (r: SplitResult)
    requires SaneLengths(info)
    ensures r.Parts? <==> SplitDefined(info, packet.Length, splitAt)
    ensures r.Parts? <==> 0 < splitAt < info.payloadLen && info.totalLen <= packet.Length
    ensures r.Parts? ==>
              && fresh(r.first) && fresh(r.second) && r.first != r.second
              && r.first[..] == FirstPart(packet[..], info, splitAt)
              && r.second[..] == SecondPart(packet[..], info, splitAt)
    ensures r.Failed? ==> (r.error.OffsetOutsidePayload? <==> !(0 < splitAt < info.payloadLen))
  {
    if splitAt <= 0 || splitAt >= info.payloadLen {
      return Failed(OffsetOutsidePayload);
    }
    if info.totalLen > packet.Length || info.payloadOffset < 0 || info.payloadOffset > info.totalLen {
      return Failed(InvalidMetadata);
    }
    var first := BuildFirst(packet, info, splitAt);
    var second := BuildSecond(packet, info, splitAt);
    return Parts(first, second);
  }

  /** The leading segment; PSH and FIN belong on the final one. */
  method BuildFirst(packet: array<byte>, info: TCPPayloadInfo, splitAt: int) returns (first: array<byte>)
    requires SaneLengths(info) && SplitDefined(info, packet.Length, splitAt)
    ensures fresh(first) && first[..] == FirstPart(packet[..], info, splitAt)
  {
    first := Concatenated(packet[..info.payloadOffset], packet[info.payloadOffset..info.payloadOffset + splitAt]);
    ghost var raw := packet[..][..info.payloadOffset + splitAt];
    assert first[..] == raw;
    var flagsAt := info.ipHeaderLen + 13;
    first[flagsAt] := ClearPshFin(first[flagsAt]);
    assert first[..] == raw[flagsAt := ClearPshFin(raw[flagsAt])];
    FixIPv4TCPChecksums(first, info.ipHeaderLen);
  }

  /** The trailing segment, which starts splitAt octets later in sequence space. */
  method BuildSecond(packet: array<byte>, info: TCPPayloadInfo, splitAt: int) returns (second: array<byte>)
    requires SaneLengths(info) && SplitDefined(info, packet.Length, splitAt)
    ensures fresh(second) && second[..] == SecondPart(packet[..], info, splitAt)
  {
    hide WithChecksums, Put32;
    second := Concatenated(packet[..info.payloadOffset], packet[info.payloadOffset + splitAt..info.totalLen]);
    ghost var raw := packet[..][..info.payloadOffset] + packet[..][info.payloadOffset + splitAt..info.totalLen];
    assert second[..] == raw;
    PutUint32(second, info.ipHeaderLen + 4, Wrap32(info.seqNum + splitAt));
    FixIPv4TCPChecksums(second, info.ipHeaderLen);
  }

  /** A fresh buffer holding header and then tail. */
  method Concatenated(header: seq<byte>, tail: seq<byte>) returns (buf: array<byte>)
    ensures fresh(buf) && buf[..] == header + tail
  {
    buf := new byte[|header| + |tail|](_ => 0);
    CopyInto(buf, 0, header);
    CopyInto(buf, |header|, tail);
  }
}
