/**
What splitting guarantees: both halves parse, carry verifying checksums and
leave the rest of the headers alone, and splitting twice does not depend on
the order of the cuts.
*/
module SplitLaws {
  import opened Wrappers
  import opened Bytes
  import opened Checksum
  import opened Packet

  // ----- the octets that the checksum pass may touch -----

  /** Total length, IPv4 checksum and TCP checksum. */
  predicate Recomputed(ihl: int, j: int)
  {
    j == 2 || j == 3 || j == 10 || j == 11 || j == ihl + 16 || j == ihl + 17
  }

  predicate AgreeElsewhere(p: seq<byte>, q: seq<byte>, ihl: int)
  {
    |p| == |q| && forall j :: 0 <= j < |p| && !Recomputed(ihl, j) ==> p[j] == q[j]
  }

  lemma ChecksumsFrame(p: seq<byte>, ihl: int)
    requires IPV4_MIN_HEADER <= ihl && ihl + 18 <= |p|
    ensures AgreeElsewhere(WithChecksums(p, ihl), p, ihl)
    ensures Get16(WithChecksums(p, ihl), 2) == Wrap16(|p|)
  {
    hide CodeChecksum, Pseudo, Hi, Lo, Word, Wrap16;
    OctetsWord(Wrap16(|p|));
  }

  /** The result does not depend on the octets that are recomputed. */
  lemma ChecksumsCongruent(p: seq<byte>, q: seq<byte>, ihl: int)
    requires IPV4_MIN_HEADER <= ihl && ihl + 18 <= |p|
    requires AgreeElsewhere(p, q, ihl)
    ensures WithChecksums(p, ihl) == WithChecksums(q, ihl)
  {
    hide CodeChecksum, Pseudo, Hi, Lo, Word, Wrap16;
    var cp := Put16(Put16(p, 2, Wrap16(|p|)), 10, 0);
    var cq := Put16(Put16(q, 2, Wrap16(|q|)), 10, 0);
    assert cp[..ihl] == cq[..ihl];
    assert Put16(WithIPLengthAndChecksum(p, ihl), ihl + 16, 0) == Put16(WithIPLengthAndChecksum(q, ihl), ihl + 16, 0);
  }

  // ----- both checksums verify -----

  lemma IPChecksumIsRight(p: seq<byte>, ihl: int)
    requires IPV4_MIN_HEADER <= ihl <= |p| < 0x1_0000
    ensures IPChecksumVerifies(WithIPLengthAndChecksum(p, ihl), ihl)
  {
    hide CodeChecksum, Hi, Lo, Wrap16;
    ZeroOctets();
    var cleared := Put16(Put16(p, 2, Wrap16(|p|)), 10, 0);
    var header := cleared[..ihl];
    ComplementVerifies(header, 10);
    assert WithIPLengthAndChecksum(p, ihl)[..ihl] == Put16(header, 10, CodeChecksum(header));
  }

  lemma ZeroOctets()
    ensures Hi(0) == 0 && Lo(0) == 0
  {
  }

  lemma TCPChecksumIsRight(p: seq<byte>, ihl: int)
    requires IPV4_MIN_HEADER <= ihl && ihl + 18 <= |p| < 0x1_0000
    ensures TCPChecksumVerifies(WithTCPChecksum(p, ihl), ihl)
  {
    hide CodeChecksum, Hi, Lo, Wrap16;
    ZeroOctets();
    var cleared := Put16(p, ihl + 16, 0);
    var pseudo := Pseudo(cleared, ihl);
    assert pseudo[28] == cleared[ihl + 16] && pseudo[29] == cleared[ihl + 17];
    ComplementVerifies(pseudo, 28);
    PseudoOfPut(cleared, ihl, CodeChecksum(pseudo));
  }

  /** The TCP checksum field sits at offset 28 of the buffer that is summed. */
  lemma PseudoOfPut(p: seq<byte>, ihl: int, w: uint16)
    requires IPV4_MIN_HEADER <= ihl && ihl + 18 <= |p|
    ensures Pseudo(Put16(p, ihl + 16, w), ihl) == Put16(Pseudo(p, ihl), 28, w)
  {
    hide CodeChecksum, Hi, Lo, Wrap16;
    var r := Put16(p, ihl + 16, w);
    assert r[12..20] == p[12..20];
    assert r[ihl..] == Put16(p[ihl..], 16, w);
  }

  /** Every header length, option content and payload parity: the rewritten packet verifies, also when a sum is zero. */
  lemma ChecksumsVerify(p: seq<byte>, ihl: int)
    requires IPV4_MIN_HEADER <= ihl && ihl + 18 <= |p| < 0x1_0000
    ensures IPChecksumVerifies(WithChecksums(p, ihl), ihl)
    ensures TCPChecksumVerifies(WithChecksums(p, ihl), ihl)
  {
    hide CodeChecksum, Pseudo, Hi, Lo, Wrap16;
    var withIP := WithIPLengthAndChecksum(p, ihl);
    IPChecksumIsRight(p, ihl);
    assert WithChecksums(p, ihl)[..ihl] == withIP[..ihl];
    TCPChecksumIsRight(withIP, ihl);
  }

  // ----- segments as header + sequence number + flags + payload -----

  function Retarget(header: seq<byte>, ihl: int, seqNum: uint32, flags: byte): (r: seq<byte>)
    requires IPV4_MIN_HEADER <= ihl && ihl + TCP_MIN_HEADER <= |header|
    ensures |r| == |header|
  {
    Put32(header, ihl + 4, seqNum)[ihl + 13 := flags]
  }

  /** The segment with the given header whose sequence number, flags and payload are replaced. */
  function Segment(header: seq<byte>, ihl: int, seqNum: uint32, flags: byte, payload: seq<byte>): (r: seq<byte>)
    requires IPV4_MIN_HEADER <= ihl && ihl + TCP_MIN_HEADER <= |header|
    ensures |r| == |header| + |payload|
  {
    WithChecksums(Retarget(header, ihl, seqNum, flags) + payload, ihl)
  }

  /** A segment made from the header of a segment is the one made from the first header. */
  lemma SegmentAbsorbs(
    header: seq<byte>, ihl: int, s0: uint32, f0: byte, p0: seq<byte>, s1: uint32, f1: byte, p1: seq<byte>)
    requires IPV4_MIN_HEADER <= ihl && ihl + TCP_MIN_HEADER <= |header|
    ensures Segment(Segment(header, ihl, s0, f0, p0)[..|header|], ihl, s1, f1, p1) == Segment(header, ihl, s1, f1, p1)
  {
    hide WithChecksums, Upper, Lower, Hi, Lo;
    var inner := Retarget(header, ihl, s0, f0) + p0;
    ChecksumsFrame(inner, ihl);
    var again := Segment(header, ihl, s0, f0, p0)[..|header|];
    ChecksumsCongruent(Retarget(again, ihl, s1, f1) + p1, Retarget(header, ihl, s1, f1) + p1, ihl);
  }

  lemma FirstPartIsSegment(packet: seq<byte>, info: TCPPayloadInfo, k: int)
    requires Describes(info, packet) && 0 < k < info.payloadLen
    ensures FirstPart(packet, info, k)
            == Segment(packet[..info.payloadOffset], info.ipHeaderLen, info.seqNum, ClearPshFin(info.flags),
              PayloadOf(packet, info)[..k])
  {
    hide WithChecksums, ClearPshFin;
    var header := packet[..info.payloadOffset];
    Get32Prefix(packet, info.payloadOffset, info.ipHeaderLen + 4);
    Put32SameValue(header, info.ipHeaderLen + 4);
    hide Put32, Get32;
    var raw := packet[..info.payloadOffset + k];
    var flagsAt := info.ipHeaderLen + 13;
    assert raw[flagsAt := ClearPshFin(info.flags)]
      == header[flagsAt := ClearPshFin(info.flags)] + PayloadOf(packet, info)[..k];
  }

  lemma Get32Prefix(s: seq<byte>, n: nat, i: nat)
    requires i + 4 <= n <= |s|
    ensures Get32(s[..n], i) == Get32(s, i)
  {
    hide Word, Pair;
  }

  lemma SecondPartIsSegment(packet: seq<byte>, info: TCPPayloadInfo, k: int)
    requires Describes(info, packet) && 0 < k < info.payloadLen
    ensures SecondPart(packet, info, k)
            == Segment(packet[..info.payloadOffset], info.ipHeaderLen, Wrap32(info.seqNum + k), info.flags,
              PayloadOf(packet, info)[k..])
  {
    hide WithChecksums, Wrap32;
    var header := packet[..info.payloadOffset];
    var tail := packet[info.payloadOffset + k..info.totalLen];
    var s := Wrap32(info.seqNum + k);
    Put32Append(header, info.ipHeaderLen + 4, s, tail);
    Put32Reads(header, info.ipHeaderLen + 4, s);
    hide Put32, Get32;
    var put := Put32(header, info.ipHeaderLen + 4, s);
    assert put[info.ipHeaderLen + 13 := info.flags] == put;
    assert tail == PayloadOf(packet, info)[k..];
  }

  lemma Put32Append(s: seq<byte>, i: nat, w: uint32, tail: seq<byte>)
    requires i + 4 <= |s|
    ensures Put32(s + tail, i, w) == Put32(s, i, w) + tail
  {
    hide Upper, Lower, Hi, Lo;
  }

  /**
  What verifying means: the words of the header, and those of addresses, protocol 6, TCP length and segment (section 3.1
  of RFC 9293), add up to minus zero in ones' complement.
  */
  lemma VerifiesExactly(p: seq<byte>, ihl: int, hi: byte, lo: byte)
    requires IPV4_MIN_HEADER <= ihl <= |p| < 0x1_0000 && |p| - ihl == 256 * hi + lo
    ensures IPChecksumVerifies(p, ihl) <==> OnesSum(0, p[..ihl]) == 0xffff
    ensures TCPChecksumVerifies(p, ihl) <==> OnesSum(0, p[12..16] + p[16..20] + [0, 6, hi, lo] + p[ihl..]) == 0xffff
  {
    hide OnesSum, CodeChecksum;
    CodeChecksumRefinesOnesSum(p[..ihl]);
    assert Word(hi, lo) == |p| - ihl;
    WrapSmall16(|p| - ihl);
    WordOctets(hi, lo);
    hide Hi, Lo, Word, Wrap16;
    assert Pseudo(p, ihl) == p[12..16] + p[16..20] + [0, 6, hi, lo] + p[ihl..];
    CodeChecksumRefinesOnesSum(Pseudo(p, ihl));
  }

  // ----- parsing what was built -----

  /** The metadata of a segment made from the header of a packet with metadata info. */
  function Moved(info: TCPPayloadInfo, seqNum: uint32, flags: byte, length: int): TCPPayloadInfo
  {
    info.(seqNum := seqNum, flags := flags, payloadLen := length, totalLen := info.payloadOffset + length)
  }

  /** A segment parses to the metadata of the original with only sequence number, flags and lengths changed. */
  lemma ParseSegment(packet: seq<byte>, info: TCPPayloadInfo, seqNum: uint32, flags: byte, payload: seq<byte>)
    requires Parse(packet) == Some(info)
    requires 0 < |payload| && info.payloadOffset + |payload| < 0x1_0000
    requires SaneLengths(info) && info.payloadOffset <= |packet|
    ensures var segment := Segment(packet[..info.payloadOffset], info.ipHeaderLen, seqNum, flags, payload);
            && Parse(segment) == Some(Moved(info, seqNum, flags, |payload|))
            && segment[info.payloadOffset..] == payload
  {
    hide WithChecksums, Parse, Get32, Put32, Get16;
    var ihl := info.ipHeaderLen;
    var header := packet[..info.payloadOffset];
    var raw := Retarget(header, ihl, seqNum, flags) + payload;
    var segment := Segment(header, ihl, seqNum, flags, payload);
    ChecksumsFrame(raw, ihl);
    Put32Reads(header, ihl + 4, seqNum);
    WrapSmall16(|segment|);
    assert segment[ihl + 4..ihl + 8] == Put32(header, ihl + 4, seqNum)[ihl + 4..ihl + 8];
    Get32Slice(segment, ihl + 4);
    Get32Slice(Put32(header, ihl + 4, seqNum), ihl + 4);
    ParseAgrees(packet, info, segment);
  }

  lemma WrapSmall16(x: uint16)
    ensures Wrap16(x) == x
  {
  }

  lemma Get32Slice(s: seq<byte>, i: nat)
    requires i + 4 <= |s|
    ensures Get32(s, i) == Get32(s[i..i + 4], 0)
  {
    hide Word, Pair;
  }

  /** p and q have the same headers up to the fields that a segment replaces. */
  predicate SameHeaders(p: seq<byte>, q: seq<byte>, ihl: int, offset: int)
  {
    && offset <= |p| && offset <= |q|
    && forall j :: 0 <= j < offset && !Recomputed(ihl, j) && !(ihl + 4 <= j < ihl + 8) && j != ihl + 13 ==> q[j] == p[j]
  }

  lemma ParseAgrees(p: seq<byte>, info: TCPPayloadInfo, q: seq<byte>)
    requires Parse(p) == Some(info)
    requires info.ipHeaderLen + TCP_MIN_HEADER <= info.payloadOffset < |q| < 0x1_0000 && Get16(q, 2) == |q|
    requires SameHeaders(p, q, info.ipHeaderLen, info.payloadOffset)
    ensures Parse(q)
            == Some(Moved(info, Get32(q, info.ipHeaderLen + 4), q[info.ipHeaderLen + 13], |q| - info.payloadOffset))
  {
    hide HighNibble, LowNibble, IsFragment, Word, Pair;
    var ihl := info.ipHeaderLen;
    assert q[0] == p[0] && q[6] == p[6] && q[7] == p[7] && q[9] == p[9];
    assert q[12..16] == p[12..16] && q[16..20] == p[16..20];
    assert Get16(q, ihl) == Get16(p, ihl) && Get16(q, ihl + 2) == Get16(p, ihl + 2);
    assert Get16(q, ihl + 8) == Get16(p, ihl + 8) && Get16(q, ihl + 10) == Get16(p, ihl + 10);
    assert q[ihl + 12] == p[ihl + 12];
  }

  // ----- the laws -----

  /** Exactly FIN (bit 0) and PSH (bit 3) are cleared. */
  lemma ClearPshFinBits(flags: byte, j: nat)
    ensures BitAt(ClearPshFin(flags), j) == if j == 0 || j == 3 then 0 else BitAt(flags, j)
  {
    AndNotBits(flags, 0x09, j);
    if j > 3 {
      BitsOfZero(j - 4);
      assert BitAt(9, j) == BitAt(4, j - 1) == BitAt(2, j - 2) == BitAt(1, j - 3) == BitAt(0, j - 4);
    }
  }

  lemma ClearPshFinTwice(flags: byte)
    ensures ClearPshFin(ClearPshFin(flags)) == ClearPshFin(flags)
  {
    AndNotIdempotent(flags, 0x09);
  }

  /** Parse, then split before payload octet k. */
  function Cut(packet: seq<byte>, k: int): Option<(seq<byte>, seq<byte>)>
  {
    match Parse(packet)
    case None => None
    case Some(info) =>
      if !SaneLengths(info) || !SplitDefined(info, |packet|, k) then None
      else Some((FirstPart(packet, info, k), SecondPart(packet, info, k)))
  }

  /** Both halves as segments of the one header. */
  lemma CutSegments(packet: seq<byte>, info: TCPPayloadInfo, k: int)
    requires Parse(packet) == Some(info) && 0 < k < info.payloadLen
    ensures Describes(info, packet)
    ensures var header := packet[..info.payloadOffset];
            var payload := PayloadOf(packet, info);
            Cut(packet, k) == Some((
              Segment(header, info.ipHeaderLen, info.seqNum, ClearPshFin(info.flags), payload[..k]),
              Segment(header, info.ipHeaderLen, Wrap32(info.seqNum + k), info.flags, payload[k..])))
  {
    ParseDescribes(packet, info);
    FirstPartIsSegment(packet, info, k);
    SecondPartIsSegment(packet, info, k);
  }

  /** Both halves parse again; only lengths, the second sequence number and the first PSH and FIN differ. */
  lemma SplitParses(packet: seq<byte>, info: TCPPayloadInfo, k: int)
    requires Parse(packet) == Some(info) && 0 < k < info.payloadLen
    ensures Describes(info, packet) && Cut(packet, k).Some?
    ensures var (first, second) := Cut(packet, k).value;
            var payload := PayloadOf(packet, info);
            && Parse(first) == Some(Moved(info, info.seqNum, ClearPshFin(info.flags), k))
            && |first| == info.payloadOffset + k && |second| == info.totalLen - k
            && first[info.payloadOffset..] == payload[..k]
            && Parse(second) == Some(Moved(info, Wrap32(info.seqNum + k), info.flags, info.payloadLen - k))
            && second[info.payloadOffset..] == payload[k..]
  {
    hide Parse, Segment, Cut, ClearPshFin, Wrap32, Get32;
    CutSegments(packet, info, k);
    var payload := PayloadOf(packet, info);
    ParseSegment(packet, info, info.seqNum, ClearPshFin(info.flags), payload[..k]);
    ParseSegment(packet, info, Wrap32(info.seqNum + k), info.flags, payload[k..]);
  }

  /**
  Every header octet outside the six recomputed ones, the first flags and the second sequence number is the
  original's.
  */
  lemma SplitKeepsHeaders(packet: seq<byte>, info: TCPPayloadInfo, k: int, j: nat)
    requires Parse(packet) == Some(info) && 0 < k < info.payloadLen
    requires j < info.payloadOffset && !Recomputed(info.ipHeaderLen, j)
    ensures Describes(info, packet) && Cut(packet, k).Some?
    ensures var (first, second) := Cut(packet, k).value;
            && j < |first| && j < |second|
            && (j != info.ipHeaderLen + 13 ==> first[j] == packet[j])
            && (!(info.ipHeaderLen + 4 <= j < info.ipHeaderLen + 8) ==> second[j] == packet[j])
  {
    hide Parse, WithChecksums, Cut, ClearPshFin, Wrap32, Put32, Get32;
    CutSegments(packet, info, k);
    var ihl := info.ipHeaderLen;
    var header := packet[..info.payloadOffset];
    var payload := PayloadOf(packet, info);
    Get32Prefix(packet, info.payloadOffset, ihl + 4);
    Put32SameValue(header, ihl + 4);
    Put32Reads(header, ihl + 4, Wrap32(info.seqNum + k));
    ChecksumsFrame(Retarget(header, ihl, info.seqNum, ClearPshFin(info.flags)) + payload[..k], ihl);
    ChecksumsFrame(Retarget(header, ihl, Wrap32(info.seqNum + k), info.flags) + payload[k..], ihl);
  }

  /** Both halves carry verifying IPv4 and TCP checksums. */
  lemma SplitVerifies(packet: seq<byte>, info: TCPPayloadInfo, k: int)
    requires Parse(packet) == Some(info) && 0 < k < info.payloadLen
    ensures Describes(info, packet) && Cut(packet, k).Some?
    ensures var (first, second) := Cut(packet, k).value;
            && info.ipHeaderLen <= |first| && info.ipHeaderLen <= |second|
            && IPChecksumVerifies(first, info.ipHeaderLen) && TCPChecksumVerifies(first, info.ipHeaderLen)
            && IPChecksumVerifies(second, info.ipHeaderLen) && TCPChecksumVerifies(second, info.ipHeaderLen)
  {
    hide Parse, WithChecksums, Cut, ClearPshFin, Wrap32, Put32, Get32, IPChecksumVerifies, TCPChecksumVerifies;
    ParseDescribes(packet, info);
    CutSegments(packet, info, k);
    var ihl := info.ipHeaderLen;
    var header := packet[..info.payloadOffset];
    var payload := PayloadOf(packet, info);
    ChecksumsVerify(Retarget(header, ihl, info.seqNum, ClearPshFin(info.flags)) + payload[..k], ihl);
    ChecksumsVerify(Retarget(header, ihl, Wrap32(info.seqNum + k), info.flags) + payload[k..], ihl);
  }

  /** Cutting at a and the rest at b gives, octet for octet, what cutting at a + b and the front at a gives. */
  lemma SplitIsAssociative(packet: seq<byte>, info: TCPPayloadInfo, a: int, b: int)
    requires Parse(packet) == Some(info)
    requires 0 < a && 0 < b && a + b < info.payloadLen
    ensures Cut(packet, a).Some? && Cut(packet, a + b).Some?
    ensures var (first, rest) := Cut(packet, a).value;
            var (front, last) := Cut(packet, a + b).value;
            && Cut(rest, b).Some? && Cut(front, a).Some?
            && [first, Cut(rest, b).value.0, Cut(rest, b).value.1]
              == [Cut(front, a).value.0, Cut(front, a).value.1, last]
  {
    hide Parse, Segment, Cut, ClearPshFin, Wrap32, Get32;
    CutSegments(packet, info, a);
    CutSegments(packet, info, a + b);
    SplitParses(packet, info, a);
    SplitParses(packet, info, a + b);
    var ihl, offset := info.ipHeaderLen, info.payloadOffset;
    var header := packet[..offset];
    var payload := PayloadOf(packet, info);
    var clear := ClearPshFin(info.flags);
    ClearPshFinTwice(info.flags);
    WrapAdd(info.seqNum + a, b);

    assert payload[a..][..b] == payload[..a + b][a..] && payload[a..][b..] == payload[a + b..];
    assert payload[..a + b][..a] == payload[..a];

    var rest := Cut(packet, a).value.1;
    var restInfo := Moved(info, Wrap32(info.seqNum + a), info.flags, info.payloadLen - a);
    CutSegments(rest, restInfo, b);
    assert PayloadOf(rest, restInfo) == payload[a..];
    SegmentAbsorbs(header, ihl, restInfo.seqNum, info.flags, payload[a..], restInfo.seqNum, clear, payload[a..][..b]);
    SegmentAbsorbs(header, ihl, restInfo.seqNum, info.flags, payload[a..],
                   Wrap32(restInfo.seqNum + b), info.flags, payload[a..][b..]);

    var front := Cut(packet, a + b).value.0;
    var frontInfo := Moved(info, info.seqNum, clear, a + b);
    CutSegments(front, frontInfo, a);
    assert PayloadOf(front, frontInfo) == payload[..a + b];
    SegmentAbsorbs(header, ihl, info.seqNum, clear, payload[..a + b], info.seqNum, clear, payload[..a + b][..a]);
    SegmentAbsorbs(header, ihl, info.seqNum, clear, payload[..a + b], restInfo.seqNum, clear, payload[..a + b][a..]);
  }
}
