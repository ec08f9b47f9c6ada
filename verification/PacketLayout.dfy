/**
The layout of IPv4 and TCP headers (section 3.1 of RFC 791, section 3.1 of RFC 9293), written down from the
sender's side. The parser accepts exactly the packets that are laid out from unfragmented TCP with payload,
and reports the fields they were laid out from.
*/
module PacketLayout {
  import opened Wrappers
  import opened Bytes
  import opened Packet

  datatype IPFields = IPFields(
    tos: byte, id: uint16, fragment: uint16, ttl: byte, protocol: byte, checksum: uint16,
    src: seq<byte>, dst: seq<byte>, options: seq<byte>)

  datatype TCPFields = TCPFields(
    srcPort: uint16, dstPort: uint16, seqNum: uint32, ackNum: uint32, reserved: byte, flags: byte,
    window: uint16, checksum: uint16, urgent: uint16, options: seq<byte>)

  /** trailer is what the link layer may have padded the packet with. */
  datatype Layout = Layout(ip: IPFields, tcp: TCPFields, payload: seq<byte>, trailer: seq<byte>)

  function HeaderLength(options: seq<byte>): nat
  {
    20 + |options|
  }

  function TotalLength(l: Layout): nat
  {
    HeaderLength(l.ip.options) + HeaderLength(l.tcp.options) + |l.payload|
  }

  predicate Valid(l: Layout)
  {
    && |l.ip.src| == 4 && |l.ip.dst| == 4
    && |l.ip.options| % 4 == 0 && |l.ip.options| <= 40
    && |l.tcp.options| % 4 == 0 && |l.tcp.options| <= 40
    && l.tcp.reserved < 16
    && TotalLength(l) < 0x1_0000
  }

  /** Version 4 and the header length in words. */
  function FirstOctet(options: seq<byte>): byte
    requires |options| <= 40
  {
    0x45 + |options| / 4
  }

  /** The data offset in words, and four reserved bits. */
  function OffsetOctet(options: seq<byte>, reserved: byte): byte
    requires |options| <= 40 && reserved < 16
  {
    16 * (5 + |options| / 4) + reserved
  }

  function IPHeader(f: IPFields, total: uint16): (r: seq<byte>)
    requires |f.src| == 4 && |f.dst| == 4 && |f.options| <= 40
    ensures |r| == HeaderLength(f.options)
  {
    [FirstOctet(f.options), f.tos, Hi(total), Lo(total),
     Hi(f.id), Lo(f.id), Hi(f.fragment), Lo(f.fragment),
     f.ttl, f.protocol, Hi(f.checksum), Lo(f.checksum)]
    + f.src + f.dst + f.options
  }

  function TCPHeader(f: TCPFields): (r: seq<byte>)
    requires |f.options| <= 40 && f.reserved < 16
    ensures |r| == HeaderLength(f.options)
  {
    [Hi(f.srcPort), Lo(f.srcPort), Hi(f.dstPort), Lo(f.dstPort),
     Hi(Upper(f.seqNum)), Lo(Upper(f.seqNum)), Hi(Lower(f.seqNum)), Lo(Lower(f.seqNum)),
     Hi(Upper(f.ackNum)), Lo(Upper(f.ackNum)), Hi(Lower(f.ackNum)), Lo(Lower(f.ackNum)),
     OffsetOctet(f.options, f.reserved), f.flags, Hi(f.window), Lo(f.window),
     Hi(f.checksum), Lo(f.checksum), Hi(f.urgent), Lo(f.urgent)]
    + f.options
  }

  function Encode(l: Layout): seq<byte>
    requires Valid(l)
  {
    IPHeader(l.ip, TotalLength(l)) + TCPHeader(l.tcp) + l.payload + l.trailer
  }

  /** What the parser should report. */
  function InfoOf(l: Layout): TCPPayloadInfo
    requires Valid(l)
  {
    var ihl, thl := HeaderLength(l.ip.options), HeaderLength(l.tcp.options);
    TCPPayloadInfo(l.ip.src, l.ip.dst, l.tcp.srcPort, l.tcp.dstPort, l.tcp.seqNum, l.tcp.ackNum, l.tcp.flags,
                   ihl, thl, ihl + thl, |l.payload|, TotalLength(l))
  }

  lemma FirstOctetNibbles(options: seq<byte>)
    requires |options| % 4 == 0 && |options| <= 40
    ensures HighNibble(FirstOctet(options)) == 4 && 4 * LowNibble(FirstOctet(options)) == HeaderLength(options)
  {
    var words := |options| / 4;
    assert FirstOctet(options) == 16 * 4 + (5 + words) && 5 + words < 16;
  }

  lemma OffsetNibble(options: seq<byte>, reserved: byte)
    requires |options| % 4 == 0 && |options| <= 40 && reserved < 16
    ensures 4 * HighNibble(OffsetOctet(options, reserved)) == HeaderLength(options)
  {
    var words := |options| / 4;
    assert OffsetOctet(options, reserved) == 16 * (5 + words) + reserved;
  }

  /** The octets of the IP header at their offsets. */
  lemma IPOctets(l: Layout)
    requires Valid(l)
    ensures var p := Encode(l);
            && |p| >= 40 && |p| >= HeaderLength(l.ip.options) + 20
            && p[0] == FirstOctet(l.ip.options) && p[9] == l.ip.protocol
            && Get16(p, 2) == TotalLength(l) && Get16(p, 6) == l.ip.fragment
            && p[12..16] == l.ip.src && p[16..20] == l.ip.dst
  {
    hide Hi, Lo, Word, FirstOctet, TCPHeader;
    OctetsWord(TotalLength(l));
    OctetsWord(l.ip.fragment);
  }

  /** The octets of the TCP header at their offsets. */
  lemma TCPOctets(l: Layout)
    requires Valid(l)
    ensures var p := Encode(l);
            var ihl := HeaderLength(l.ip.options);
            && |p| >= ihl + 20
            && Get16(p, ihl) == l.tcp.srcPort && Get16(p, ihl + 2) == l.tcp.dstPort
            && Get32(p, ihl + 4) == l.tcp.seqNum && Get32(p, ihl + 8) == l.tcp.ackNum
            && p[ihl + 12] == OffsetOctet(l.tcp.options, l.tcp.reserved) && p[ihl + 13] == l.tcp.flags
  {
    hide Hi, Lo, Word, Upper, Lower, Pair, FirstOctet, OffsetOctet, IPHeader;
    OctetsWord(l.tcp.srcPort);
    OctetsWord(l.tcp.dstPort);
    OctetsWord(Upper(l.tcp.seqNum));
    OctetsWord(Lower(l.tcp.seqNum));
    HalvesPair(l.tcp.seqNum);
    OctetsWord(Upper(l.tcp.ackNum));
    OctetsWord(Lower(l.tcp.ackNum));
    HalvesPair(l.tcp.ackNum);
    var p := Encode(l);
    var ihl := HeaderLength(l.ip.options);
    assert forall j :: 0 <= j < 20 ==> p[ihl + j] == TCPHeader(l.tcp)[j];
  }

  /** Parsing what was laid out gives back the fields; fragments, other protocols and empty payloads are refused. */
  lemma ParseEncode(l: Layout)
    requires Valid(l)
    ensures Parse(Encode(l))
            == if l.ip.protocol == PROTO_TCP && !IsFragment(l.ip.fragment) && l.payload != [] then Some(InfoOf(l))
              else None
  {
    hide Encode, Get16, Get32, HighNibble, LowNibble, FirstOctet, OffsetOctet, IsFragment;
    FirstOctetNibbles(l.ip.options);
    OffsetNibble(l.tcp.options, l.tcp.reserved);
    IPOctets(l);
    TCPOctets(l);
    EncodeLength(l);
  }

  lemma EncodeLength(l: Layout)
    requires Valid(l)
    ensures |Encode(l)| == TotalLength(l) + |l.trailer|
  {
  }

  // ----- every parsed packet is a laid-out one -----

  function Decode(p: seq<byte>, info: TCPPayloadInfo): Layout
    requires Describes(info, p)
    requires info.payloadOffset == info.ipHeaderLen + info.tcpHeaderLen && info.tcpHeaderLen >= 20
  {
    var ihl := info.ipHeaderLen;
    Layout(
      IPFields(p[1], Get16(p, 4), Get16(p, 6), p[8], p[9], Get16(p, 10), p[12..16], p[16..20], p[20..ihl]),
      TCPFields(Get16(p, ihl), Get16(p, ihl + 2), Get32(p, ihl + 4), Get32(p, ihl + 8),
                LowNibble(p[ihl + 12]), p[ihl + 13], Get16(p, ihl + 14), Get16(p, ihl + 16), Get16(p, ihl + 18),
                p[ihl + 20..info.payloadOffset]),
      PayloadOf(p, info),
      p[info.totalLen..])
  }

  lemma NibblesOctet(b: byte)
    ensures 16 * HighNibble(b) + LowNibble(b) == b
  {
  }

  lemma FieldOctets(p: seq<byte>, i: nat)
    requires i + 2 <= |p|
    ensures Hi(Get16(p, i)) == p[i] && Lo(Get16(p, i)) == p[i + 1]
  {
    WordOctets(p[i], p[i + 1]);
  }

  lemma LongFieldOctets(p: seq<byte>, i: nat)
    requires i + 4 <= |p|
    ensures Hi(Upper(Get32(p, i))) == p[i] && Lo(Upper(Get32(p, i))) == p[i + 1]
    ensures Hi(Lower(Get32(p, i))) == p[i + 2] && Lo(Lower(Get32(p, i))) == p[i + 3]
  {
    hide Hi, Lo, Upper, Lower, Pair, Word;
    PairHalves(Get16(p, i), Get16(p, i + 2));
    WordOctets(p[i], p[i + 1]);
    WordOctets(p[i + 2], p[i + 3]);
  }

  lemma DecodedIPHeader(p: seq<byte>, info: TCPPayloadInfo, f: IPFields)
    requires 20 <= info.ipHeaderLen <= |p| && info.ipHeaderLen <= 60 && info.ipHeaderLen % 4 == 0
    requires p[0] == 0x40 + info.ipHeaderLen / 4
    requires f == IPFields(p[1], Get16(p, 4), Get16(p, 6), p[8], p[9], Get16(p, 10),
                           p[12..16], p[16..20], p[20..info.ipHeaderLen])
    ensures IPHeader(f, Get16(p, 2)) == p[..info.ipHeaderLen]
  {
    hide Hi, Lo, Get16;
    FieldOctets(p, 2);
    FieldOctets(p, 4);
    FieldOctets(p, 6);
    FieldOctets(p, 10);
    assert FirstOctet(f.options) == p[0];
    hide FirstOctet;
  }

  lemma DecodedTCPHeader(p: seq<byte>, ihl: nat, thl: nat, f: TCPFields)
    requires 20 <= thl <= 60 && thl % 4 == 0 && ihl + thl <= |p|
    requires p[ihl + 12] == 16 * (thl / 4) + f.reserved && f.reserved < 16
    requires f == TCPFields(Get16(p, ihl), Get16(p, ihl + 2), Get32(p, ihl + 4), Get32(p, ihl + 8),
                            f.reserved, p[ihl + 13], Get16(p, ihl + 14), Get16(p, ihl + 16), Get16(p, ihl + 18),
                            p[ihl + 20..ihl + thl])
    ensures TCPHeader(f) == p[ihl..ihl + thl]
  {
    hide Hi, Lo, Get16, Get32, Upper, Lower;
    FieldOctets(p, ihl);
    FieldOctets(p, ihl + 2);
    LongFieldOctets(p, ihl + 4);
    LongFieldOctets(p, ihl + 8);
    FieldOctets(p, ihl + 14);
    FieldOctets(p, ihl + 16);
    FieldOctets(p, ihl + 18);
    assert OffsetOctet(f.options, f.reserved) == p[ihl + 12];
    hide OffsetOctet;
  }

  /** A packet is accepted only if it is the layout of its own fields. */
  lemma EncodeDecode(p: seq<byte>, info: TCPPayloadInfo)
    requires Parse(p) == Some(info)
    ensures Describes(info, p) && info.payloadOffset == info.ipHeaderLen + info.tcpHeaderLen && info.tcpHeaderLen >= 20
    ensures Valid(Decode(p, info)) && Encode(Decode(p, info)) == p
    ensures Decode(p, info).ip.protocol == PROTO_TCP && !IsFragment(Decode(p, info).ip.fragment)
            && Decode(p, info).payload != []
  {
    hide Parse, Get16, Get32, HighNibble, LowNibble, IsFragment, Encode;
    ParseDescribes(p, info);
    ParsedHeaderLengths(p, info);
    ParsedNibbles(p, info);
    var l := Decode(p, info);
    DecodedIPHeader(p, info, l.ip);
    DecodedTCPHeader(p, info.ipHeaderLen, info.tcpHeaderLen, l.tcp);
    EncodePieces(p, info, l);
  }

  lemma EncodePieces(p: seq<byte>, info: TCPPayloadInfo, l: Layout)
    requires Valid(l) && TotalLength(l) == info.totalLen
    requires 0 <= info.ipHeaderLen <= info.payloadOffset <= info.totalLen <= |p|
    requires IPHeader(l.ip, info.totalLen) == p[..info.ipHeaderLen]
             && TCPHeader(l.tcp) == p[info.ipHeaderLen..info.payloadOffset]
    requires l.payload == p[info.payloadOffset..info.totalLen] && l.trailer == p[info.totalLen..]
    ensures Encode(l) == p
  {
    hide IPHeader, TCPHeader;
  }

  lemma ParsedNibbles(p: seq<byte>, info: TCPPayloadInfo)
    requires Parse(p) == Some(info) && Describes(info, p)
    ensures info.tcpHeaderLen >= 20
    ensures p[0] == 0x40 + info.ipHeaderLen / 4
    ensures p[info.ipHeaderLen + 12] == 16 * (info.tcpHeaderLen / 4) + LowNibble(p[info.ipHeaderLen + 12])
    ensures LowNibble(p[info.ipHeaderLen + 12]) < 16
    ensures p[9] == PROTO_TCP && !IsFragment(Get16(p, 6)) && Get16(p, 2) == info.totalLen
  {
    hide HighNibble, LowNibble, IsFragment, Word, Pair;
    NibblesOctet(p[0]);
    NibblesOctet(p[info.ipHeaderLen + 12]);
    NibbleBound(p[info.ipHeaderLen + 12]);
  }
}
