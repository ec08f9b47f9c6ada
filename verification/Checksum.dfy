/**
The Internet checksum of RFC 1071 as the program computes it: a 32-bit sum of
16-bit words whose carries are folded only at the end.
*/
module Checksum {
  import opened Bytes

  /** The exact integer sum of the big-endian words of data; an odd last octet is padded with zero. */
  function WordSum(data: seq<byte>): nat
  {
    if |data| == 0 then 0
    else if |data| == 1 then Word(data[0], 0)
    else Get16(data, 0) + WordSum(data[2..])
  }

  /** The representative of s modulo 0xffff in 1..0xffff, with zero kept apart. */
  function Norm(s: nat): (n: uint16)
    ensures n % 0xffff == s % 0xffff
    ensures n == 0 <==> s == 0
  {
    if s == 0 then 0 else 1 + (s - 1) % 0xffff
  }

  /** What the code returns: the sum is a uint32, so it is kept modulo 2^32. */
  function CodeChecksum(data: seq<byte>): uint16
  {
    0xffff - Norm(Wrap32(WordSum(data)))
  }

  // ----- the simple form: 16-bit addition with the carry added back at once -----

  /** Ones' complement addition of two 16-bit words. */
  function OnesAdd(a: uint16, b: uint16): uint16
  {
    if a + b < 0x1_0000 then a + b else a + b - 0x1_0000 + 1
  }

  /** Word by word ones' complement sum of data onto acc. */
  function OnesSum(acc: uint16, data: seq<byte>): uint16
    decreases |data|
  {
    if |data| == 0 then acc
    else if |data| == 1 then OnesAdd(acc, Word(data[0], 0))
    else OnesSum(OnesAdd(acc, Get16(data, 0)), data[2..])
  }

  /** One end-around-carry addition commutes with normalising the exact sum. */
  lemma OnesAddNorm(s: nat, w: uint16)
    ensures OnesAdd(Norm(s), w) == Norm(s + w)
  {
    if s > 0 {
      var q := (s - 1) / 0xffff;
      assert s == 0xffff * q + Norm(s);
      var t := OnesAdd(Norm(s), w);
      if Norm(s) + w < 0x1_0000 {
        NormUnique(s + w, q, t);
      } else {
        NormUnique(s + w, q + 1, t);
      }
    } else if w > 0 {
      NormUnique(w, 0, w);
    }
  }

  lemma NormUnique(s: nat, q: nat, r: int)
    requires s == 0xffff * q + r && 0 < r <= 0xffff
    ensures Norm(s) == r
  {
    assert s - 1 == 0xffff * q + (r - 1);
    assert (s - 1) % 0xffff == r - 1;
  }

  /**
  Deferring the carries changes nothing: the word-by-word ones' complement sum is the normal form of the exact sum.
  */
  lemma {:induction false} OnesSumIsNorm(s: nat, data: seq<byte>)
    ensures OnesSum(Norm(s), data) == Norm(s + WordSum(data))
    decreases |data|
  {
    if |data| == 0 {
    } else if |data| == 1 {
      OnesAddNorm(s, Word(data[0], 0));
    } else {
      OnesAddNorm(s, Get16(data, 0));
      OnesSumIsNorm(s + Get16(data, 0), data[2..]);
    }
  }

  // ----- the 32-bit accumulator -----

  lemma {:induction false} WordSumBound(data: seq<byte>)
    ensures 2 * WordSum(data) <= 0xffff * (|data| + |data| % 2)
  {
    if |data| >= 2 {
      WordSumBound(data[2..]);
    }
  }

  lemma NoOverflow(data: seq<byte>)
    requires |data| <= 2 * 65537
    ensures WordSum(data) < 0x1_0000_0000
    ensures CodeChecksum(data) == 0xffff - Norm(WordSum(data))
  {
    hide WordSum, Norm, Wrap32;
    WordSumBound(data);
    assert 0xffff * (|data| + |data| % 2) <= 0xffff * 131074;
    WrapSmall(WordSum(data));
  }

  /**
  Up to 65537 words the uint32 accumulator does not overflow, and the code computes the ones' complement checksum.
  */
  lemma CodeChecksumRefinesOnesSum(data: seq<byte>)
    requires |data| <= 2 * 65537
    ensures WordSum(data) < 0x1_0000_0000
    ensures CodeChecksum(data) == 0xffff - OnesSum(0, data)
  {
    NoOverflow(data);
    OnesSumIsNorm(0, data);
  }

  lemma {:induction false} WordSumAllOnes(n: nat)
    ensures WordSum(seq(2 * n, _ => 0xff)) == 0xffff * n
  {
    if n > 0 {
      assert seq(2 * n, _ => 0xff)[2..] == seq(2 * (n - 1), _ => 0xff);
      WordSumAllOnes(n - 1);
    }
  }

  lemma {:induction false} WordSumZeros(n: nat)
    ensures WordSum(seq(n, _ => 0)) == 0
  {
    if n >= 2 {
      assert seq(n, _ => 0)[2..] == seq(n - 2, _ => 0);
      WordSumZeros(n - 2);
    }
  }

  /** 65537 words of all ones, an octet that tips the sum over 2^32, and zeros. */
  function Overflowing(n: nat): (data: seq<byte>)
    requires n > 2 * 65537
    ensures |data| == n
  {
    seq(2 * 65537, _ => 0xff) + [1] + seq(n - 2 * 65537 - 1, _ => 0)
  }

  /** Beyond 65537 words the accumulator can wrap to almost nothing, and a ones' complement sum of 0x0100 is lost. */
  lemma OverflowLosesCarry(n: nat)
    requires n > 2 * 65537
    ensures CodeChecksum(Overflowing(n)) != 0xffff - OnesSum(0, Overflowing(n))
  {
    var ones: seq<byte> := seq(2 * 65537, _ => 0xff);
    var rest: seq<byte> := [1] + seq(n - 2 * 65537 - 1, _ => 0);
    assert Overflowing(n) == ones + rest;
    WordSumConcat(ones, rest);
    WordSumAllOnes(65537);
    if |rest| >= 2 {
      assert rest[2..] == seq(|rest| - 2, _ => 0);
      WordSumZeros(|rest| - 2);
    }
    assert WordSum(rest) == 0x100;
    assert 0xffff * 65537 == 0xffff_ffff;
    OnesSumIsNorm(0, Overflowing(n));
    NormUnique(0x1_0000_00ff, 65537, 0x100);
    NormUnique(0xff, 0, 0xff);
  }

  /** The code is right for all data of a length if and only if the length is at most 65537 words. */
  lemma RightIffNoOverflow(n: nat)
    ensures (forall data: seq<byte> :: |data| == n ==> CodeChecksum(data) == 0xffff - OnesSum(0, data))
            <==> n <= 2 * 65537
  {
    hide CodeChecksum, OnesSum;
    if n <= 2 * 65537 {
      forall data: seq<byte> | |data| == n
        ensures CodeChecksum(data) == 0xffff - OnesSum(0, data)
      {
        CodeChecksumRefinesOnesSum(data);
      }
    } else {
      OverflowLosesCarry(n);
    }
  }

  // ----- the loops -----

  /** The fold loop shared by both copies: carries go back in until none is left. */
  method FoldCarries(start: uint32) returns (sum: uint16)
    ensures sum == Norm(start)
  {
    var s := start;
    while s / 0x1_0000 != 0
      invariant 0 <= s < 0x1_0000_0000
      invariant Norm(s) == Norm(start)
      decreases s
    {
      FoldStep(s);
      s := s % 0x1_0000 + s / 0x1_0000;
    }
    if s > 0 {
      NormUnique(s, 0, s);
    }
    sum := s;
  }

  /** One fold keeps the value modulo 0xffff and keeps zero and non-zero apart. */
  lemma FoldStep(s: nat)
    ensures Norm(s % 0x1_0000 + s / 0x1_0000) == Norm(s)
  {
    var t := s % 0x1_0000 + s / 0x1_0000;
    assert s == t + 0xffff * (s / 0x1_0000);
    if s > 0 {
      var q := (t - 1) / 0xffff;
      NormUnique(s, q + s / 0x1_0000, Norm(t));
    }
  }

  /** internetChecksum of the internal package. */
  method InternetChecksum(data: seq<byte>) returns (c: uint16)
    ensures c == CodeChecksum(data)
    ensures |data| <= 2 * 65537 ==> c == 0xffff - OnesSum(0, data)
  {
    hide Word, Wrap32, Norm;
    var sum: uint32 := 0;
    var rest := data;
    while |rest| >= 2
      invariant Wrap32(sum + WordSum(rest)) == Wrap32(WordSum(data))
    {
      WrapAdd(sum + Get16(rest, 0), WordSum(rest[2..]));
      sum := Wrap32(sum + Get16(rest, 0));
      rest := rest[2..];
    }
    if |rest| == 1 {
      sum := Wrap32(sum + Word(rest[0], 0));
    }
    WrapSmall(sum);
    var folded := FoldCarries(sum);
    c := 0xffff - folded;
    if |data| <= 2 * 65537 {
      CodeChecksumRefinesOnesSum(data);
    }
  }

  /** The copy in package main, which puts words together with a shift and an or; the two copies agree. */
  method InternetChecksumOfMain(data: seq<byte>) returns (c: uint16)
    ensures c == CodeChecksum(data)
  {
    hide Word, Wrap32, Norm, Or;
    var sum: uint32 := 0;
    var rest := data;
    while |rest| >= 2
      invariant Wrap32(sum + WordSum(rest)) == Wrap32(WordSum(data))
    {
      OrIsWord(rest[0], rest[1]);
      WrapAdd(sum + Get16(rest, 0), WordSum(rest[2..]));
      sum := Wrap32(sum + Or(0x100 * (rest[0] as int), rest[1]));
      rest := rest[2..];
    }
    if |rest| == 1 {
      OrIsWord(rest[0], 0);
      OrOfZero(0x100 * (rest[0] as int));
      sum := Wrap32(sum + 0x100 * (rest[0] as int));
    }
    WrapSmall(sum);
    var folded := FoldCarries(sum);
    c := 0xffff - folded;
  }

  // ----- algebra used by the packet proofs -----

  /** Sums of even-length pieces add up. */
  lemma {:induction false} WordSumConcat(a: seq<byte>, b: seq<byte>)
    requires |a| % 2 == 0
    ensures WordSum(a + b) == WordSum(a) + WordSum(b)
  {
    if |a| == 0 {
      assert a + b == b;
    } else {
      assert (a + b)[2..] == a[2..] + b;
      WordSumConcat(a[2..], b);
    }
  }

  /** A word at an even offset, and what is before and after it. */
  lemma WordSumAt(s: seq<byte>, i: nat)
    requires i % 2 == 0 && i + 2 <= |s|
    ensures WordSum(s) == WordSum(s[..i]) + Get16(s, i) + WordSum(s[i + 2..])
  {
    hide WordSum, Word;
    assert s == s[..i] + ([s[i], s[i + 1]] + s[i + 2..]);
    WordSumConcat(s[..i], [s[i], s[i + 1]] + s[i + 2..]);
    WordSumConcat([s[i], s[i + 1]], s[i + 2..]);
    WordSumTwo(s[i], s[i + 1]);
  }

  /** Writing a word into a zeroed field at an even offset adds exactly that word. */
  lemma WordSumPut(s: seq<byte>, i: nat, w: uint16)
    requires i % 2 == 0 && i + 2 <= |s|
    requires s[i] == 0 && s[i + 1] == 0
    ensures WordSum(Put16(s, i, w)) == WordSum(s) + w
  {
    hide WordSum, Hi, Lo;
    WordSumAt(s, i);
    WordSumAt(Put16(s, i, w), i);
    Put16Reads(s, i, w);
    assert Put16(s, i, w)[..i] == s[..i] && Put16(s, i, w)[i + 2..] == s[i + 2..];
  }

  lemma WordSumTwo(hi: byte, lo: byte)
    ensures WordSum([hi, lo]) == Word(hi, lo)
  {
    assert [hi, lo][2..] == [];
  }

  /**
  A word that complements the sum of the rest makes the checksum of the whole vanish, also when the rest sums to
  zero.
  */
  lemma ComplementVerifies(s: seq<byte>, i: nat)
    requires |s| <= 2 * 65537
    requires i % 2 == 0 && i + 2 <= |s|
    requires s[i] == 0 && s[i + 1] == 0
    ensures CodeChecksum(Put16(s, i, CodeChecksum(s))) == 0
  {
    hide Word, Norm, Hi, Lo;
    var c := CodeChecksum(s);
    var r := Put16(s, i, c);
    NoOverflow(s);
    NoOverflow(r);
    WordSumPut(s, i, c);
    ComplementNorm(WordSum(s));
  }

  lemma ComplementNorm(w: nat)
    ensures Norm(w + 0xffff - Norm(w)) == 0xffff
  {
    if w == 0 {
      NormUnique(0xffff, 0, 0xffff);
    } else {
      var q := (w - 1) / 0xffff;
      assert w == 0xffff * q + Norm(w);
      NormUnique(w + 0xffff - Norm(w), q, 0xffff);
    }
  }
}
