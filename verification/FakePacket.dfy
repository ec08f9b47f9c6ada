/** The decoy segment with a deliberately wrong TCP checksum that cmd/nfqcooldown/main.go can send first. */
module FakePacket {
  import opened Wrappers
  import opened Bytes
  import opened Checksum
  import opened Packet
  import opened SplitLaws
  import opened Payload

  datatype FakeError =
    | PacketTooShort | NotIPv4 | BadHeaderLength | NotTCP | BadTCPHeaderLength
    | EmptyPayload | TooShortForTLS | RandomFailed | UnknownMode

  datatype FakeResult =
    | Fake(packet: seq<byte>, original: uint16, corrupted: uint16, fakeLength: int)
    | Error(error: FakeError)

  const TLS_RECORD_HEADER: seq<byte> := [0x16, 0x03, 0x03, 0xff, 0xff]

  // ----- the value that is built -----

  /** The decoy before its checksums: the original headers and the first octets of the payload or a TLS record. */
  function FakeBody(packet: seq<byte>, offset: int, mode: string, length: int, random: nat -> byte): (r: seq<byte>)
    requires 0 <= offset && 0 <= length && offset + length <= |packet|
    requires mode != "copy" ==> 5 <= length
    ensures |r| == offset + length && r[..offset] == packet[..offset]
  {
    packet[..offset]
    + if mode == "copy" then packet[offset..offset + length]
      else TLS_RECORD_HEADER + seq(length - 5, i requires 0 <= i => random(i))
  }

  /** The TCP checksum that would verify; what tcpChecksumIPv4 returns. */
  function ValidTCPChecksum(packet: seq<byte>, ihl: int): uint16
    requires IPV4_MIN_HEADER <= ihl && ihl + TCP_MIN_HEADER <= |packet|
  {
    CodeChecksum(Pseudo(Put16(packet, ihl + 16, 0), ihl))
  }

  function Corrupt(valid: uint16): (r: uint16)
  {
    0xffff - valid
  }

  /** body with a good IPv4 checksum and a corrupted TCP checksum. */
  function WithBadTCPChecksum(body: seq<byte>, ihl: int): (r: seq<byte>)
    requires IPV4_MIN_HEADER <= ihl && ihl + TCP_MIN_HEADER <= |body|
    ensures |r| == |body|
  {
    var withIP := WithIPLengthAndChecksum(body, ihl);
    Put16(withIP, ihl + 16, Corrupt(ValidTCPChecksum(withIP, ihl)))
  }

  /** What the decoy for a packet that the parser accepts is made of, if one can be made. */
  function FakeBodyOf(
    packet: seq<byte>, info: TCPPayloadInfo, mode: string, requested: int, random: nat -> byte, randomOk: bool)
    : (r: Option<seq<byte>>)
    requires Describes(info, packet)
    ensures r.Some? ==>
              info.payloadOffset < |r.value| <= |packet|
                && r.value[..info.payloadOffset] == packet[..info.payloadOffset]
  {
    var available := |packet| - info.payloadOffset;
    var length := if 0 < requested < available then requested else available;
    if mode == "copy" || (mode == "tls-invalid-length" && (length == 5 || (length > 5 && randomOk))) then
      Some(FakeBody(packet, info.payloadOffset, mode, length, random))
    else None
  }

  /** The decoy itself. */
  function FakeOf(
    packet: seq<byte>, info: TCPPayloadInfo, mode: string, requested: int, random: nat -> byte, randomOk: bool)
    : Option<seq<byte>>
    requires Describes(info, packet)
  {
    match FakeBodyOf(packet, info, mode, requested, random, randomOk)
    case None => None
    case Some(body) => Some(WithBadTCPChecksum(body, info.ipHeaderLen))
  }

  // ----- when there is a decoy, and octet by octet what it is -----

  /** The number of payload octets in the decoy: as many as requested, if that is positive and fewer than there are. */
  predicate DecoyLength(packet: seq<byte>, info: TCPPayloadInfo, requested: int, n: int)
  {
    var available := |packet| - info.payloadOffset;
    if requested <= 0 || requested >= available then n == available else n == requested
  }

  predicate DecoyPossible(mode: string, n: int, randomOk: bool)
  {
    mode == "copy" || (mode == "tls-invalid-length" && (n == 5 || (n > 5 && randomOk)))
  }

  /** Octet k of the payload that the packet has from offset on, or of the record in its place. */
  predicate DecoyOctet(packet: seq<byte>, offset: int, mode: string, random: nat -> byte, k: int, octet: byte)
    requires 0 <= offset <= k < |packet|
  {
    octet == if mode == "copy" then packet[k]
             else if k == offset then 22
             else if k <= offset + 2 then 3
             else if k <= offset + 4 then 255
             else random(k - offset - 5)
  }

  /**
  The packet's own header but for length and checksums, then the payload's own octets or a TLS handshake record of
  version 3.3 that announces 65535 octets, followed by filler.
  */
  ghost predicate IsDecoy(
    packet: seq<byte>, info: TCPPayloadInfo, mode: string, n: int, random: nat -> byte, decoy: seq<byte>)
  {
    var offset := info.payloadOffset;
    && 0 <= offset && 0 <= n && |decoy| == offset + n <= |packet|
    && (forall j :: 0 <= j < offset && !Recomputed(info.ipHeaderLen, j) ==> decoy[j] == packet[j])
    && (forall k :: offset <= k < |decoy| ==> DecoyOctet(packet, offset, mode, random, k, decoy[k]))
  }

  lemma BadChecksumFrame(body: seq<byte>, ihl: int)
    requires IPV4_MIN_HEADER <= ihl && ihl + TCP_MIN_HEADER <= |body|
    ensures AgreeElsewhere(WithBadTCPChecksum(body, ihl), body, ihl)
  {
    hide CodeChecksum, Pseudo, Hi, Lo, Wrap16, ValidTCPChecksum, Corrupt;
  }

  lemma BodyOctet(packet: seq<byte>, offset: int, mode: string, n: int, random: nat -> byte, k: int)
    requires 0 <= offset <= k < offset + n <= |packet| && (mode != "copy" ==> 5 <= n)
    ensures DecoyOctet(packet, offset, mode, random, k, FakeBody(packet, offset, mode, n, random)[k])
  {
  }

  lemma BodyIsDecoy(packet: seq<byte>, info: TCPPayloadInfo, mode: string, n: int, random: nat -> byte)
    requires Describes(info, packet) && 0 <= n && info.payloadOffset + n <= |packet| && (mode != "copy" ==> 5 <= n)
    ensures IsDecoy(packet, info, mode, n, random,
                    WithBadTCPChecksum(FakeBody(packet, info.payloadOffset, mode, n, random), info.ipHeaderLen))
  {
    hide WithBadTCPChecksum, FakeBody, DecoyOctet, Get32;
    var offset := info.payloadOffset;
    var body := FakeBody(packet, offset, mode, n, random);
    var decoy := WithBadTCPChecksum(body, info.ipHeaderLen);
    BadChecksumFrame(body, info.ipHeaderLen);
    forall j | 0 <= j < offset && !Recomputed(info.ipHeaderLen, j)
      ensures decoy[j] == packet[j]
    {
      assert body[j] == body[..offset][j] == packet[..offset][j];
    }
    forall k | offset <= k < |decoy|
      ensures DecoyOctet(packet, offset, mode, random, k, decoy[k])
    {
      BodyOctet(packet, offset, mode, n, random, k);
    }
  }

  /** A decoy for a parsed packet exists under exactly that condition, and is exactly that. */
  lemma DecoyExactly(
    packet: seq<byte>, info: TCPPayloadInfo, mode: string, requested: int, random: nat -> byte, randomOk: bool, n: int)
    requires Describes(info, packet) && DecoyLength(packet, info, requested, n)
    ensures var decoy := FakeOf(packet, info, mode, requested, random, randomOk);
            && (decoy.Some? <==> DecoyPossible(mode, n, randomOk))
            && (decoy.Some? ==> IsDecoy(packet, info, mode, n, random, decoy.value))
  {
    hide WithBadTCPChecksum, FakeBody, IsDecoy, Get32;
    if DecoyPossible(mode, n, randomOk) {
      BodyIsDecoy(packet, info, mode, n, random);
    }
  }

  /** With the complement of its checksum field the decoy is a packet with good checksums. */
  lemma ComplementRestores(body: seq<byte>, ihl: int)
    requires IPV4_MIN_HEADER <= ihl && ihl + TCP_MIN_HEADER <= |body|
    ensures var decoy := WithBadTCPChecksum(body, ihl);
            Put16(decoy, ihl + 16, 0xffff - Get16(decoy, ihl + 16)) == WithChecksums(body, ihl)
  {
    hide CodeChecksum, Pseudo, Hi, Lo, Word, WithIPLengthAndChecksum;
    var withIP := WithIPLengthAndChecksum(body, ihl);
    Put16Reads(withIP, ihl + 16, Corrupt(ValidTCPChecksum(withIP, ihl)));
  }

  // ----- the code -----

  method TcpChecksumIPv4(packet: array<byte>, ihl: int) returns (c: uint16)
    requires IPV4_MIN_HEADER <= ihl && ihl + TCP_MIN_HEADER <= packet.Length
    ensures c == ValidTCPChecksum(packet[..], ihl)
  {
    hide Pseudo, Hi, Lo;
    var pseudo := PseudoHeaderAndSegment(packet, ihl);
    ZeroOctets();
    PseudoOfPut(packet[..], ihl, 0);
    PseudoLength(packet[..], ihl);
    pseudo[12 + 16], pseudo[12 + 17] := 0, 0;
    assert pseudo[..] == Put16(Pseudo(packet[..], ihl), 28, 0);
    c := InternetChecksumOfMain(pseudo[..]);
  }

  lemma PseudoLength(packet: seq<byte>, ihl: int)
    requires IPV4_MIN_HEADER <= ihl <= |packet|
    ensures |Pseudo(packet, ihl)| == 12 + |packet| - ihl
  {
  }

  /** The corrupted value is the complement; the guard against leaving it valid can never fire. */
  method CorruptChecksum(valid: uint16) returns (corrupted: uint16)
    ensures corrupted == Corrupt(valid) && corrupted != valid
  {
    XorOnes16(valid);
    corrupted := Xor(valid, 0xffff);
    if corrupted == valid {
      assert false;
    }
  }

  method CloneWithFakePayloadAndBadTCPChecksum(
    packet: seq<byte>, mode: string, requested: int, random: nat -> byte, randomOk: bool)
    returns (r: FakeResult)
    ensures r.Fake? ==>
              |packet| > 0 &&
              var ihl := 4 * LowNibble(packet[0]);
              && |packet| >= ihl + TCP_MIN_HEADER >= IPV4_MIN_HEADER + TCP_MIN_HEADER
              && var offset := ihl + 4 * HighNibble(packet[ihl + 12]);
              && ihl + TCP_MIN_HEADER <= offset < |packet|
              && 0 < r.fakeLength == (if 0 < requested < |packet| - offset then requested else |packet| - offset)
              && (mode == "copy" || (mode == "tls-invalid-length" && 5 <= r.fakeLength))
              && r.packet == WithBadTCPChecksum(FakeBody(packet, offset, mode, r.fakeLength, random), ihl)
              && r.original == Get16(packet, ihl + 16)
              && |r.packet| >= ihl + TCP_MIN_HEADER && r.corrupted == Get16(r.packet, ihl + 16)
    ensures Parse(packet).Some? ==>
              Describes(Parse(packet).value, packet) &&
              var fake := FakeOf(packet, Parse(packet).value, mode, requested, random, randomOk);
              r.Fake? == fake.Some? && (r.Fake? ==> r.packet == fake.value)
    ensures Parse(packet).Some? ==>
              forall n :: DecoyLength(packet, Parse(packet).value, requested, n) ==>
                && (r.Fake? <==> DecoyPossible(mode, n, randomOk))
                && (r.Fake? ==> IsDecoy(packet, Parse(packet).value, mode, n, random, r.packet))
  {
    hide HighNibble, LowNibble, IsFragment, Word, Pair, WithBadTCPChecksum, FakeBody, IsDecoy;
    if Parse(packet).Some? {
      ParseDescribes(packet, Parse(packet).value);
      forall n | DecoyLength(packet, Parse(packet).value, requested, n)
        ensures var decoy := FakeOf(packet, Parse(packet).value, mode, requested, random, randomOk);
                && (decoy.Some? <==> DecoyPossible(mode, n, randomOk))
                && (decoy.Some? ==> IsDecoy(packet, Parse(packet).value, mode, n, random, decoy.value))
      {
        DecoyExactly(packet, Parse(packet).value, mode, requested, random, randomOk, n);
      }
    }
    if |packet| < 20 {
      return Error(PacketTooShort);
    }
    if HighNibble(packet[0]) != 4 {
      return Error(NotIPv4);
    }
    var ihl := 4 * LowNibble(packet[0]);
    if ihl < 20 || |packet| < ihl + 20 {
      return Error(BadHeaderLength);
    }
    if packet[9] != 6 {
      return Error(NotTCP);
    }
    var thl := 4 * HighNibble(packet[ihl + 12]);
    var offset := ihl + thl;
    if thl < 20 || offset > |packet| {
      return Error(BadTCPHeaderLength);
    }
    var payloadLen := |packet| - offset;
    if payloadLen == 0 {
      return Error(EmptyPayload);
    }
    var fakeLen := payloadLen;
    if requested > 0 && requested < fakeLen {
      fakeLen := requested;
    }
    if mode == "tls-invalid-length" && fakeLen < 5 {
      return Error(TooShortForTLS);
    }
    var original := Get16(packet, ihl + 16);
    if mode != "copy" && mode != "tls-invalid-length" {
      return Error(UnknownMode);
    }
    if mode == "tls-invalid-length" && fakeLen > 5 && !randomOk {
      return Error(RandomFailed);
    }
    var fake, corrupted := BuildFake(packet, ihl, offset, mode, fakeLen, random);
    r := Fake(fake[..], original, corrupted, fakeLen);
  }

  /** The part of the code that writes the decoy's buffer. */
  method BuildFake(packet: seq<byte>, ihl: int, offset: int, mode: string, fakeLen: int, random: nat -> byte)
    returns (fake: array<byte>, corrupted: uint16)
    requires IPV4_MIN_HEADER <= ihl && ihl + TCP_MIN_HEADER <= offset
    requires 0 < fakeLen && offset + fakeLen <= |packet|
    requires mode == "copy" || (mode == "tls-invalid-length" && 5 <= fakeLen)
    ensures fresh(fake) && fake[..] == WithBadTCPChecksum(FakeBody(packet, offset, mode, fakeLen, random), ihl)
    ensures corrupted == Get16(fake[..], ihl + 16)
  {
    hide Hi, Lo, Word, Wrap16, CodeChecksum, Pseudo, FakeBody, Put16;
    ghost var body := FakeBody(packet, offset, mode, fakeLen, random);
    fake := FillFake(packet, offset, mode, fakeLen, random);
    PutUint16(fake, 2, Wrap16(fake.Length));
    PutUint16(fake, 10, 0);
    ghost var cleared := Put16(Put16(body, 2, Wrap16(|body|)), 10, 0);
    assert fake[..] == cleared && fake[..ihl] == cleared[..ihl];
    var ipSum := InternetChecksumOfMain(fake[..ihl]);
    PutUint16(fake, 10, ipSum);
    var valid := TcpChecksumIPv4(fake, ihl);
    corrupted := CorruptChecksum(valid);
    Put16Reads(fake[..], ihl + 16, corrupted);
    PutUint16(fake, ihl + 16, corrupted);
  }

  /** The copied headers and the decoy payload. */
  method FillFake(packet: seq<byte>, offset: int, mode: string, fakeLen: int, random: nat -> byte)
    returns (fake: array<byte>)
    requires 0 <= offset && 0 < fakeLen && offset + fakeLen <= |packet|
    requires mode == "copy" || (mode == "tls-invalid-length" && 5 <= fakeLen)
    ensures fresh(fake) && fake[..] == FakeBody(packet, offset, mode, fakeLen, random)
  {
    fake := new byte[offset + fakeLen](_ => 0);
    CopyInto(fake, 0, packet[..offset + fakeLen]);
    assert fake[..] == packet[..offset + fakeLen];
    if mode == "tls-invalid-length" {
      FillTLS(fake, offset, random);
    } else {
      assert fake[..] == packet[..offset] + packet[offset..offset + fakeLen];
    }
  }

  /** A TLS record header that announces 65535 octets, and filler after it. */
  method FillTLS(fake: array<byte>, offset: int, random: nat -> byte)
    requires 0 <= offset && offset + 5 <= fake.Length
    modifies fake
    ensures fake[..]
            == old(fake[..offset]) + (TLS_RECORD_HEADER + seq(fake.Length - offset - 5, i requires 0 <= i => random(i)))
  {
    CopyInto(fake, offset, TLS_RECORD_HEADER);
    CopyInto(fake, offset + 5, seq(fake.Length - offset - 5, i requires 0 <= i => random(i)));
  }

  // ----- what the receiver makes of it -----

  /** The decoy's IPv4 header is good. */
  lemma FakeIPVerifies(body: seq<byte>, ihl: int)
    requires IPV4_MIN_HEADER <= ihl && ihl + TCP_MIN_HEADER <= |body| < 0x1_0000
    ensures IPChecksumVerifies(WithBadTCPChecksum(body, ihl), ihl)
  {
    hide CodeChecksum, Pseudo, Hi, Lo, Wrap16;
    IPChecksumIsRight(body, ihl);
    assert WithBadTCPChecksum(body, ihl)[..ihl] == WithIPLengthAndChecksum(body, ihl)[..ihl];
  }

  /** Doubling a non-zero ones' complement value gives zero only for 0xffff, the other zero. */
  lemma DoubledNorm(w: nat)
    requires w > 0
    ensures Norm(w + Norm(w)) == 0xffff <==> Norm(w) == 0xffff
  {
    var n: int := Norm(w);
    var q := (w - 1) / 0xffff;
    assert w == 0xffff * q + n;
    if n + n <= 0xffff {
      NormUnique(w + n, q, n + n);
    } else {
      NormUnique(w + n, q + 1, n + n - 0xffff);
    }
  }

  lemma {:induction false} WordSumPositive(s: seq<byte>, i: nat)
    requires i < |s| && s[i] > 0
    ensures WordSum(s) > 0
    decreases |s|
  {
    if i >= 2 {
      WordSumPositive(s[2..], i - 2);
    }
  }

  /**
  The decoy is discarded exactly when the checksum that would verify is not 0x0000. When it is, the complement
  0xffff is the other zero of ones' complement arithmetic, and the decoy verifies.
  */
  lemma FakeTCPVerifiesIff(body: seq<byte>, ihl: int)
    requires IPV4_MIN_HEADER <= ihl && ihl + TCP_MIN_HEADER <= |body| < 0x1_0000
    ensures TCPChecksumVerifies(WithBadTCPChecksum(body, ihl), ihl)
            <==> ValidTCPChecksum(WithIPLengthAndChecksum(body, ihl), ihl) == 0
  {
    hide Pseudo, Hi, Lo, Wrap16, Norm, WordSum, WithIPLengthAndChecksum;
    var withIP := WithIPLengthAndChecksum(body, ihl);
    var cleared := Put16(withIP, ihl + 16, 0);
    var pseudo := Pseudo(cleared, ihl);
    var bad := Corrupt(ValidTCPChecksum(withIP, ihl));
    PseudoLength(cleared, ihl);
    PseudoOctets(cleared, ihl);
    ZeroOctets();
    PseudoOfPut(cleared, ihl, bad);
    assert Put16(withIP, ihl + 16, bad) == Put16(cleared, ihl + 16, bad);
    NoOverflow(pseudo);
    NoOverflow(Put16(pseudo, 28, bad));
    WordSumPut(pseudo, 28, bad);
    WordSumPositive(pseudo, 9);
    DoubledNorm(WordSum(pseudo));
  }

  lemma PseudoOctets(packet: seq<byte>, ihl: int)
    requires IPV4_MIN_HEADER <= ihl && ihl + 18 <= |packet|
    ensures |Pseudo(packet, ihl)| >= 30
    ensures Pseudo(packet, ihl)[9] == PROTO_TCP
    ensures Pseudo(packet, ihl)[28] == packet[ihl + 16] && Pseudo(packet, ihl)[29] == packet[ihl + 17]
  {
    hide Hi, Lo, Wrap16;
  }
}
