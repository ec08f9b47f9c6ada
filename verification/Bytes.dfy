/** Octets and the big-endian fields that the packet code reads and writes. */
module Bytes {
  type byte = b: int | 0 <= b < 0x100
  type uint16 = w: int | 0 <= w < 0x1_0000
  type uint32 = w: int | 0 <= w < 0x1_0000_0000

  /** Conversion of a non-negative integer to uint16, which keeps the low 16 bits. */
  function Wrap16(x: nat): uint16
  {
    x % 0x1_0000
  }

  /** Conversion of a non-negative integer to uint32, which keeps the low 32 bits. */
  function Wrap32(x: nat): uint32
  {
    x % 0x1_0000_0000
  }

  lemma WrapAdd(x: nat, y: nat)
    ensures Wrap32(Wrap32(x) + y) == Wrap32(x + y)
  {
    assert x + y == Wrap32(x) + y + 0x1_0000_0000 * (x / 0x1_0000_0000);
  }

  lemma WrapSmall(w: uint32)
    ensures Wrap32(w) == w
  {
  }

  // ----- words and their octets -----

  function Word(hi: byte, lo: byte): uint16
  {
    var h: int := hi;
    0x100 * h + lo
  }

  function Hi(w: uint16): byte
  {
    w / 0x100
  }

  function Lo(w: uint16): byte
  {
    w % 0x100
  }

  lemma WordOctets(hi: byte, lo: byte)
    ensures Hi(Word(hi, lo)) == hi && Lo(Word(hi, lo)) == lo
  {
  }

  lemma OctetsWord(w: uint16)
    ensures Word(Hi(w), Lo(w)) == w
  {
  }

  function Pair(hi: uint16, lo: uint16): uint32
  {
    var h: int := hi;
    0x1_0000 * h + lo
  }

  function Upper(w: uint32): uint16
  {
    w / 0x1_0000
  }

  function Lower(w: uint32): uint16
  {
    w % 0x1_0000
  }

  lemma PairHalves(hi: uint16, lo: uint16)
    ensures Upper(Pair(hi, lo)) == hi && Lower(Pair(hi, lo)) == lo
  {
  }

  lemma HalvesPair(w: uint32)
    ensures Pair(Upper(w), Lower(w)) == w
  {
  }

  // ----- fields -----

  /** The 16-bit big-endian field at offset i. */
  function Get16(s: seq<byte>, i: nat): uint16
    requires i + 2 <= |s|
  {
    Word(s[i], s[i + 1])
  }

  /** The 32-bit big-endian field at offset i. */
  function Get32(s: seq<byte>, i: nat): uint32
    requires i + 4 <= |s|
  {
    Pair(Get16(s, i), Get16(s, i + 2))
  }

  /** s with the 16-bit field at offset i set to w. */
  function Put16(s: seq<byte>, i: nat, w: uint16): (r: seq<byte>)
    requires i + 2 <= |s|
    ensures |r| == |s|
  {
    s[i := Hi(w)][i + 1 := Lo(w)]
  }

  /** s with the 32-bit field at offset i set to w. */
  function Put32(s: seq<byte>, i: nat, w: uint32): (r: seq<byte>)
    requires i + 4 <= |s|
    ensures |r| == |s|
  {
    Put16(Put16(s, i + 2, Lower(w)), i, Upper(w))
  }

  /** What is written to a field is read back from it, and nothing else moves. */
  lemma Put16Reads(s: seq<byte>, i: nat, w: uint16)
    requires i + 2 <= |s|
    ensures var r := Put16(s, i, w);
            && Get16(r, i) == w
            && forall j :: 0 <= j < |s| && j != i && j != i + 1 ==> r[j] == s[j]
  {
    hide Hi, Lo, Word;
    OctetsWord(w);
  }

  lemma Put32Reads(s: seq<byte>, i: nat, w: uint32)
    requires i + 4 <= |s|
    ensures var r := Put32(s, i, w);
            && Get32(r, i) == w
            && forall j :: 0 <= j < |s| && !(i <= j < i + 4) ==> r[j] == s[j]
  {
    hide Hi, Lo, Word, Pair, Upper, Lower;
    var low := Put16(s, i + 2, Lower(w));
    Put16Reads(s, i + 2, Lower(w));
    Put16Reads(low, i, Upper(w));
    HalvesPair(w);
  }

  /** A field determines its octets, so writing back the value that is there changes nothing. */
  lemma Put32SameValue(s: seq<byte>, i: nat)
    requires i + 4 <= |s|
    ensures Put32(s, i, Get32(s, i)) == s
  {
    hide Hi, Lo, Word, Pair, Upper, Lower;
    PairHalves(Get16(s, i), Get16(s, i + 2));
    WordOctets(s[i], s[i + 1]);
    WordOctets(s[i + 2], s[i + 3]);
  }

  // ----- bits -----

  /** Bit j of x, the least significant one being bit 0. */
  function BitAt(x: nat, j: nat): nat
    decreases j
  {
    if j == 0 then x % 2 else BitAt(x / 2, j - 1)
  }

  /** x with every bit cleared that is set in mask: Go's x &^ mask. */
  function AndNot(x: nat, mask: nat): (r: nat)
    ensures r <= x
    decreases x
  {
    if x == 0 then 0
    else 2 * AndNot(x / 2, mask / 2) + if mask % 2 == 1 then 0 else x % 2
  }

  lemma {:induction false} AndNotBits(x: nat, mask: nat, j: nat)
    ensures BitAt(AndNot(x, mask), j) == if BitAt(mask, j) == 1 then 0 else BitAt(x, j)
    decreases j
  {
    if x == 0 {
      BitsOfZero(j);
    } else if j > 0 {
      AndNotBits(x / 2, mask / 2, j - 1);
      assert AndNot(x, mask) / 2 == AndNot(x / 2, mask / 2);
    }
  }

  lemma BitsOfZero(j: nat)
    ensures BitAt(0, j) == 0
  {
  }

  lemma {:induction false} AndNotIdempotent(x: nat, mask: nat)
    ensures AndNot(AndNot(x, mask), mask) == AndNot(x, mask)
    decreases x
  {
    if x > 0 {
      AndNotIdempotent(x / 2, mask / 2);
      var r := AndNot(x, mask);
      assert r / 2 == AndNot(x / 2, mask / 2);
      if r > 0 {
        assert AndNot(r, mask) == 2 * AndNot(r / 2, mask / 2) + if mask % 2 == 1 then 0 else r % 2;
      }
    }
  }

  /** The bits set in either number: Go's x | y. */
  function Or(x: nat, y: nat): nat
    decreases x + y
  {
    if x == 0 && y == 0 then 0
    else 2 * Or(x / 2, y / 2) + if x % 2 + y % 2 == 0 then 0 else 1
  }

  /** Shifting the high octet up leaves no bit in common with the low one, so or-ing them is adding them. */
  lemma OrIsWord(hi: byte, lo: byte)
    ensures Or(0x100 * (hi as int), lo) == Word(hi, lo)
  {
    OrShifted(hi, lo, 8);
  }

  function Pow2(k: nat): nat
  {
    if k == 0 then 1 else 2 * Pow2(k - 1)
  }

  lemma DoubleProduct(p: nat, x: nat)
    ensures (2 * p) * x == 2 * (p * x)
  {
  }

  lemma OrOfEven(a: nat, y: nat)
    ensures Or(2 * a, y) == 2 * Or(a, y / 2) + y % 2
  {
    if a == 0 && y == 0 {
      assert Or(0, 0) == 0;
    }
  }

  lemma {:induction false} OrShifted(x: nat, y: nat, k: nat)
    requires y < Pow2(k)
    ensures Or(Pow2(k) * x, y) == Pow2(k) * x + y
    decreases k
  {
    if k == 0 {
      OrOfZero(x);
    } else {
      OrShifted(x, y / 2, k - 1);
      DoubleProduct(Pow2(k - 1), x);
      OrOfEven(Pow2(k - 1) * x, y);
    }
  }

  lemma OrOfZero(x: nat)
    ensures Or(x, 0) == x
  {
  }

  /** The bits set in exactly one of the numbers: Go's x ^ y. */
  function Xor(x: nat, y: nat): nat
    decreases x + y
  {
    if x == 0 && y == 0 then 0
    else 2 * Xor(x / 2, y / 2) + if x % 2 == y % 2 then 0 else 1
  }

  /** Flipping all of the low k bits is subtracting from all ones. */
  lemma {:induction false} XorOnes(x: nat, k: nat)
    requires x < Pow2(k)
    ensures Xor(x, Pow2(k) - 1) == Pow2(k) - 1 - x
    decreases k
  {
    if k > 0 {
      XorOnes(x / 2, k - 1);
      assert (Pow2(k) - 1) / 2 == Pow2(k - 1) - 1;
    }
  }

  lemma XorOnes16(x: uint16)
    ensures Xor(x, 0xffff) == 0xffff - x
  {
    assert Pow2(4) == 0x10;
    assert Pow2(8) == 0x100;
    assert Pow2(12) == 0x1000;
    assert Pow2(16) == 0x1_0000;
    XorOnes(x, 16);
  }
}
