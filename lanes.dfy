/** Registers and lanes.

    A register is modelled at the width the scalar fallbacks of the helper
    fix: four 32-bit lanes or eight 16-bit lanes (one 128-bit half of the
    nominal 256-bit register). A lane holds a bit pattern, represented by its
    unsigned value; the signed element types read the same pattern in two's
    complement. The same register can be viewed as dwords, words or bytes
    (the C++ helpers reinterpret it with unions and pointer casts); the views
    are little-endian. */
module Lanes {
  import opened Bits

  const M32: nat := 0x1_0000_0000
  const M16: nat := 0x1_0000
  const Ones32: nat := 0xFFFF_FFFF
  const Ones16: nat := 0xFFFF

  type U32 = x: int | 0 <= x < 0x1_0000_0000
  type U16 = x: int | 0 <= x < 0x1_0000
  type Byte = x: int | 0 <= x < 0x100

  /** Four 32-bit lanes (int / unsigned int). */
  type Reg32 = r: seq<U32> | |r| == 4 witness [0, 0, 0, 0]
  /** Eight 16-bit lanes (signed short / unsigned short). */
  type Reg16 = r: seq<U16> | |r| == 8 witness [0, 0, 0, 0, 0, 0, 0, 0]

  /** The element type's signedness picks the ordering of compare, min and max. */
  datatype Sign = Signed | Unsigned

  /** The two's-complement reading of a 32-bit pattern. */
  function Signed32(x: U32): (v: int)
    ensures -0x8000_0000 <= v < 0x8000_0000
    ensures v % M32 == x
    ensures v < 0 <==> x >= 0x8000_0000
  {
    if x < 0x8000_0000 then x else x - M32
  }

  function Signed16(x: U16): (v: int)
    ensures -0x8000 <= v < 0x8000
    ensures v % M16 == x
    ensures v < 0 <==> x >= 0x8000
  {
    if x < 0x8000 then x else x - M16
  }

  /** The 32-bit pattern that stores integer v: v modulo 2^32. */
  function Wrap32(v: int): (x: U32)
    ensures (x - v) % M32 == 0
  {
    v % M32
  }

  function Wrap16(v: int): (x: U16)
    ensures (x - v) % M16 == 0
  {
    v % M16
  }

  /** Storing a representable signed value and reading it back gives the value. */
  lemma SignedWrap32(v: int)
    requires -0x8000_0000 <= v < 0x8000_0000
    ensures Signed32(Wrap32(v)) == v
  {
  }

  lemma SignedWrap16(v: int)
    requires -0x8000 <= v < 0x8000
    ensures Signed16(Wrap16(v)) == v
  {
  }

  /** Per-lane ordering key: the value the element type compares. */
  function Key32(sg: Sign, x: U32): int
  {
    if sg == Signed then Signed32(x) else x
  }

  function Key16(sg: Sign, x: U16): int
  {
    if sg == Signed then Signed16(x) else x
  }

  /** Two lanes with the same key are the same pattern. */
  lemma Key32Injective(sg: Sign, x: U32, y: U32)
    ensures Key32(sg, x) == Key32(sg, y) <==> x == y
  {
  }

  lemma Key16Injective(sg: Sign, x: U16, y: U16)
    ensures Key16(sg, x) == Key16(sg, y) <==> x == y
  {
  }

  /** A register variable that a helper writes through a reference (`VectorType &`). */
  class Cell<T> {
    var value: T

    constructor (v: T)
      ensures value == v
    {
      value := v;
    }
  }

  // ---------------------------------------------------------------- views

  /** The eight 16-bit words of a register of four dwords. */
  function Words(r: Reg32): Reg16
  {
    seq(8, k requires 0 <= k < 8 => if k % 2 == 0 then r[k / 2] % M16 else r[k / 2] / M16)
  }

  /** The four dwords of a register of eight words. */
  function Dwords(w: Reg16): Reg32
  {
    seq(4, j requires 0 <= j < 4 => w[2 * j] + M16 * w[2 * j + 1])
  }

  /** Word 2j of a register is the low half of dword j, word 2j+1 its high half. */
  lemma WordsLane(r: Reg32, j: nat)
    requires j < 4
    ensures Words(r)[2 * j] == r[j] % M16 && Words(r)[2 * j + 1] == r[j] / M16
  {
    assert (2 * j) / 2 == j && (2 * j + 1) / 2 == j;
  }

  lemma DwordsLane(w: Reg16, j: nat)
    requires j < 4
    ensures Dwords(w)[j] % M16 == w[2 * j] && Dwords(w)[j] / M16 == w[2 * j + 1]
  {
    DivModUnique(Dwords(w)[j], w[2 * j], w[2 * j + 1], M16);
  }

  /** The four bytes of a dword, lowest first. */
  function LaneBytes(x: U32): (b: seq<Byte>)
    ensures |b| == 4 && x == b[0] as int + 0x100 * (b[1] as int) + 0x1_0000 * (b[2] as int) + 0x100_0000 * (b[3] as int)
  {
    LaneBytesSum(x);
    [x % 0x100, (x / 0x100) % 0x100, (x / 0x1_0000) % 0x100, x / 0x100_0000]
  }

  lemma LaneBytesSum(x: U32)
    ensures x / 0x100_0000 < 0x100
    ensures x == x % 0x100 + 0x100 * ((x / 0x100) % 0x100) + 0x1_0000 * ((x / 0x1_0000) % 0x100) + 0x100_0000 * (x / 0x100_0000)
  {
    var b3, r3 := x / 0x100_0000, x % 0x100_0000;
    var b2, r2 := r3 / 0x1_0000, r3 % 0x1_0000;
    var b1, b0 := r2 / 0x100, r2 % 0x100;
    assert x == b0 + 0x100 * b1 + 0x1_0000 * b2 + 0x100_0000 * b3;
    DivModUnique(x, b0, b1 + 0x100 * b2 + 0x1_0000 * b3, 0x100);
    DivModUnique(x / 0x100, b1, b2 + 0x100 * b3, 0x100);
    DivModUnique(x, b0 + 0x100 * b1, b2 + 0x100 * b3, 0x1_0000);
    DivModUnique(x / 0x1_0000, b2, b3, 0x100);
  }

  function LaneFromBytes(b: seq<Byte>): (x: U32)
    requires |b| == 4
    ensures LaneBytes(x) == b
  {
    var lo1, lo2, lo3 := b[0] as int, b[0] as int + 0x100 * (b[1] as int), b[0] as int + 0x100 * (b[1] as int) + 0x1_0000 * (b[2] as int);
    var x := lo3 + 0x100_0000 * (b[3] as int);
    DivModUnique(x, lo1, b[1] as int + 0x100 * (b[2] as int) + 0x1_0000 * (b[3] as int), 0x100);
    DivModUnique(x, lo2, b[2] as int + 0x100 * (b[3] as int), 0x1_0000);
    DivModUnique(x, lo3, b[3] as int, 0x100_0000);
    x
  }

  /** The sixteen bytes of a register, in memory order. */
  function Bytes(r: Reg32): (bs: seq<Byte>)
    ensures |bs| == 16
  {
    LaneBytes(r[0]) + LaneBytes(r[1]) + LaneBytes(r[2]) + LaneBytes(r[3])
  }

  /** Bytes 4j to 4j+3 of a register are the bytes of dword j. */
  lemma BytesLane(r: Reg32, j: nat)
    requires j < 4
    ensures Bytes(r)[4 * j..4 * j + 4] == LaneBytes(r[j])
  {
    var l0, l1, l2, l3 := LaneBytes(r[0]), LaneBytes(r[1]), LaneBytes(r[2]), LaneBytes(r[3]);
    assert Bytes(r) == l0 + l1 + l2 + l3;
    if j == 0 {
      assert Bytes(r)[0..4] == l0;
    } else if j == 1 {
      assert Bytes(r)[4..8] == l1;
    } else if j == 2 {
      assert Bytes(r)[8..12] == l2;
    } else {
      assert Bytes(r)[12..16] == l3;
    }
  }

  /** The register that sixteen bytes of memory hold. */
  function FromBytes(bs: seq<Byte>): (r: Reg32)
    requires |bs| == 16
  {
    seq(4, j requires 0 <= j < 4 => LaneFromBytes(bs[4 * j..4 * j + 4]))
  }

  /** Dword j of a register loaded from bytes is made of bytes 4j to 4j+3. */
  lemma FromBytesLane(bs: seq<Byte>, j: nat)
    requires |bs| == 16 && j < 4
    ensures LaneBytes(FromBytes(bs)[j]) == bs[4 * j..4 * j + 4]
  {
  }

  /** Bytes and FromBytes are inverse: a store followed by a load gives back the register. */
  lemma FromBytesBytes(r: Reg32)
    ensures FromBytes(Bytes(r)) == r
  {
    var s := FromBytes(Bytes(r));
    forall j | 0 <= j < 4
      ensures s[j] == r[j]
    {
      BytesLane(r, j);
      FromBytesLane(Bytes(r), j);
      LaneBytesInjective(s[j], r[j]);
    }
  }

  lemma LaneBytesInjective(x: U32, y: U32)
    requires LaneBytes(x) == LaneBytes(y)
    ensures x == y
  {
  }

  lemma BytesFromBytes(bs: seq<Byte>)
    requires |bs| == 16
    ensures Bytes(FromBytes(bs)) == bs
  {
    var r := FromBytes(bs);
    var t := Bytes(r);
    forall k | 0 <= k < 16
      ensures t[k] == bs[k]
    {
      var j := k / 4;
      BytesLane(r, j);
      FromBytesLane(bs, j);
      assert t[k] == t[4 * j..4 * j + 4][k - 4 * j];
      assert bs[k] == bs[4 * j..4 * j + 4][k - 4 * j];
    }
  }

  /** The bytes of a register of words, in memory order. */
  function WordBytes(w: Reg16): (bs: seq<Byte>)
    ensures |bs| == 16
  {
    seq(16, k requires 0 <= k < 16 => if k % 2 == 0 then w[k / 2] % 0x100 else w[k / 2] / 0x100)
  }

  // ---------------------------------------------------------------- masks

  /** A well-formed mask: every lane all ones or all zeros. */
  predicate IsMask32(m: Reg32)
  {
    forall i :: 0 <= i < 4 ==> m[i] == 0 || m[i] == Ones32
  }

  predicate IsMask16(m: Reg16)
  {
    forall i :: 0 <= i < 8 ==> m[i] == 0 || m[i] == Ones16
  }

  /** The lane of a mask for a condition. */
  function MaskLane32(c: bool): (x: U32)
    ensures x == 0 || x == Ones32
  {
    if c then Ones32 else 0
  }

  function MaskLane16(c: bool): (x: U16)
    ensures x == 0 || x == Ones16
  {
    if c then Ones16 else 0
  }

  /** The all-ones lane is the n-bit all-ones pattern of the bitwise operations. */
  lemma OnesArePow2()
    ensures Ones32 == Pow2(32) - 1 && M32 == Pow2(32)
    ensures Ones16 == Pow2(16) - 1 && M16 == Pow2(16)
  {
    Pow2Values();
  }
}
