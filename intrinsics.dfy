/** The register instructions the helper is written with, at the four-dword /
    eight-word width of the model. They are Intel's intrinsics (or the
    library's emulations of the missing unsigned compares), not part of the
    helper itself; each is given the lane semantics its documentation
    states. Lemmas at the end pin down the fixed shuffles, the byte shift
    and the byte-wise blend the helper relies on. */
module Intrinsics {
  import opened Bits
  import opened Lanes

  // ------------------------------------------------------------ constants

  function SetzeroSi(): Reg32 { [0, 0, 0, 0] }
  function SetalloneSi(): Reg32 { [Ones32, Ones32, Ones32, Ones32] }
  function SetalloneSi16(): Reg16 { [Ones16, Ones16, Ones16, Ones16, Ones16, Ones16, Ones16, Ones16] }
  /** `setone_epi32` / `setone_epu32` / `setone_epi16` / `setone_epu16`: every lane 1. */
  function SetoneEpi32(): Reg32 { [1, 1, 1, 1] }
  function SetoneEpi16(): Reg16 { [1, 1, 1, 1, 1, 1, 1, 1] }
  function Set1Epi32(x: U32): Reg32 { [x, x, x, x] }
  function Set1Epi16(x: U16): Reg16 { [x, x, x, x, x, x, x, x] }

  /** `_mm_set_epi32(e3, e2, e1, e0)` names the highest lane first. */
  function SetEpi32(e3: U32, e2: U32, e1: U32, e0: U32): Reg32 { [e0, e1, e2, e3] }

  function SetEpi16(e7: U16, e6: U16, e5: U16, e4: U16, e3: U16, e2: U16, e1: U16, e0: U16): Reg16
  {
    [e0, e1, e2, e3, e4, e5, e6, e7]
  }

  // ------------------------------------------------------------ shuffles

  /** `_MM_SHUFFLE(z, y, x, w)`: two bits per destination lane, lane 0 in the low bits. */
  function MmShuffle(z: nat, y: nat, x: nat, w: nat): (imm: nat)
    requires z < 4 && y < 4 && x < 4 && w < 4
    ensures imm < 256
  {
    z * 64 + y * 16 + x * 4 + w
  }

  /** The input lane an immediate selects for destination lane i. */
  function Selector(imm: nat, i: nat): (s: nat)
    requires i < 4
    ensures s < 4
  {
    if i == 0 then imm % 4
    else if i == 1 then (imm / 4) % 4
    else if i == 2 then (imm / 16) % 4
    else (imm / 64) % 4
  }

  /** `_mm_shuffle_epi32(a, imm)`: dword i of the result is dword Selector(imm, i) of a. */
  function ShuffleEpi32(a: Reg32, imm: nat): Reg32
  {
    seq(4, i requires 0 <= i < 4 => a[Selector(imm, i)])
  }

  /** `_mm_shufflelo_epi16(a, imm)`: the low four words are permuted, the high four kept. */
  function ShuffleloEpi16(a: Reg16, imm: nat): Reg16
  {
    seq(8, k requires 0 <= k < 8 => if k < 4 then a[Selector(imm, k)] else a[k])
  }

  /** `_mm_unpacklo_epi32(a, b)`: interleave the low two dwords. */
  function UnpackloEpi32(a: Reg32, b: Reg32): Reg32
  {
    [a[0], b[0], a[1], b[1]]
  }

  /** `_mm_unpacklo_epi16(a, b)` and `_mm_unpackhi_epi16(a, b)`: interleave the low (high) four words. */
  function UnpackloEpi16(a: Reg16, b: Reg16): Reg16
  {
    [a[0], b[0], a[1], b[1], a[2], b[2], a[3], b[3]]
  }

  function UnpackhiEpi16(a: Reg16, b: Reg16): Reg16
  {
    [a[4], b[4], a[5], b[5], a[6], b[6], a[7], b[7]]
  }

  /** `_mm_srli_si128(a, n)`: the whole register shifted right by n bytes, zeros shifted in. */
  function SrliSi(a: Reg32, n: nat): Reg32
  {
    var bs := Bytes(a);
    FromBytes(seq(16, k requires 0 <= k < 16 => if k + n < 16 then bs[k + n] else 0))
  }

  /** `_mm_cvtsi128_si32(a)`: the low dword. */
  function CvtsiSi32(a: Reg32): U32
  {
    a[0]
  }

  // ------------------------------------------------------------ arithmetic

  function AddEpi32(a: Reg32, b: Reg32): Reg32
  {
    seq(4, i requires 0 <= i < 4 => (a[i] + b[i]) % M32)
  }

  function SubEpi32(a: Reg32, b: Reg32): Reg32
  {
    seq(4, i requires 0 <= i < 4 => (a[i] - b[i]) % M32)
  }

  function AddEpi16(a: Reg16, b: Reg16): Reg16
  {
    seq(8, i requires 0 <= i < 8 => (a[i] + b[i]) % M16)
  }

  function SubEpi16(a: Reg16, b: Reg16): Reg16
  {
    seq(8, i requires 0 <= i < 8 => (a[i] - b[i]) % M16)
  }

  /** `_mm_mullo_epi32`: the low 32 bits of each lane product. */
  function MulloEpi32(a: Reg32, b: Reg32): Reg32
  {
    seq(4, i requires 0 <= i < 4 => (a[i] * b[i]) % M32)
  }

  function MulloEpi16(a: Reg16, b: Reg16): Reg16
  {
    seq(8, i requires 0 <= i < 8 => (a[i] * b[i]) % M16)
  }

  lemma ProductBound(x: U32, y: U32)
    ensures x * y < M32 * M32
  {
    MulLe(x, y, Ones32);
    MulLe(Ones32, x, Ones32);
  }

  /** `_mm_mul_epu32(a, b)`: the full 64-bit products of the unsigned dwords 0 and 2,
      each stored as a low and a high dword. */
  function MulEpu32(a: Reg32, b: Reg32): Reg32
  {
    ProductBound(a[0], b[0]);
    ProductBound(a[2], b[2]);
    var p0, p2 := a[0] as int * b[0] as int, a[2] as int * b[2] as int;
    [p0 % M32, p0 / M32, p2 % M32, p2 / M32]
  }

  function AbsEpi32(a: Reg32): Reg32
  {
    seq(4, i requires 0 <= i < 4 => Wrap32(if Signed32(a[i]) < 0 then -Signed32(a[i]) else Signed32(a[i])))
  }

  function AbsEpi16(a: Reg16): Reg16
  {
    seq(8, i requires 0 <= i < 8 => Wrap16(if Signed16(a[i]) < 0 then -Signed16(a[i]) else Signed16(a[i])))
  }

  /** Lane minimum and maximum in the element type's order (`_epi*` signed, `_epu*` unsigned). */
  function Min32(sg: Sign, x: U32, y: U32): U32
  {
    if Key32(sg, y) < Key32(sg, x) then y else x
  }

  function Max32(sg: Sign, x: U32, y: U32): U32
  {
    if Key32(sg, x) < Key32(sg, y) then y else x
  }

  function Min16(sg: Sign, x: U16, y: U16): U16
  {
    if Key16(sg, y) < Key16(sg, x) then y else x
  }

  function Max16(sg: Sign, x: U16, y: U16): U16
  {
    if Key16(sg, x) < Key16(sg, y) then y else x
  }

  function MinEpx32(sg: Sign, a: Reg32, b: Reg32): Reg32
  {
    seq(4, i requires 0 <= i < 4 => Min32(sg, a[i], b[i]))
  }

  function MaxEpx32(sg: Sign, a: Reg32, b: Reg32): Reg32
  {
    seq(4, i requires 0 <= i < 4 => Max32(sg, a[i], b[i]))
  }

  function MinEpx16(sg: Sign, a: Reg16, b: Reg16): Reg16
  {
    seq(8, i requires 0 <= i < 8 => Min16(sg, a[i], b[i]))
  }

  function MaxEpx16(sg: Sign, a: Reg16, b: Reg16): Reg16
  {
    seq(8, i requires 0 <= i < 8 => Max16(sg, a[i], b[i]))
  }

  // ------------------------------------------------------------ shifts by an immediate

  /** `_mm_slli_epi32` / `_mm_srli_epi32` / `_mm_srai_epi32`: every lane shifted by the same count;
      a count of 32 or more clears the lane (fills it with the sign for srai). */
  function SlliEpi32(a: Reg32, c: nat): Reg32
  {
    seq(4, i requires 0 <= i < 4 => (a[i] * Pow2(c)) % M32)
  }

  function SrliEpi32(a: Reg32, c: nat): Reg32
  {
    seq(4, i requires 0 <= i < 4 => ShiftRight(a[i], c))
  }

  function SraiEpi32(a: Reg32, c: nat): Reg32
  {
    seq(4, i requires 0 <= i < 4 => Wrap32(Signed32(a[i]) / Pow2(c)))
  }

  function SlliEpi16(a: Reg16, c: nat): Reg16
  {
    seq(8, i requires 0 <= i < 8 => (a[i] * Pow2(c)) % M16)
  }

  function SrliEpi16(a: Reg16, c: nat): Reg16
  {
    seq(8, i requires 0 <= i < 8 => ShiftRight(a[i], c))
  }

  // ------------------------------------------------------------ compares

  function CmpeqEpi32(a: Reg32, b: Reg32): Reg32
  {
    seq(4, i requires 0 <= i < 4 => MaskLane32(a[i] == b[i]))
  }

  /** `cmplt`/`cmpgt` in the element type's order; the `_epu` forms are the library's emulation. */
  function CmpltEpx32(sg: Sign, a: Reg32, b: Reg32): Reg32
  {
    seq(4, i requires 0 <= i < 4 => MaskLane32(Key32(sg, a[i]) < Key32(sg, b[i])))
  }

  function CmpgtEpx32(sg: Sign, a: Reg32, b: Reg32): Reg32
  {
    seq(4, i requires 0 <= i < 4 => MaskLane32(Key32(sg, a[i]) > Key32(sg, b[i])))
  }

  function CmpeqEpi16(a: Reg16, b: Reg16): Reg16
  {
    seq(8, i requires 0 <= i < 8 => MaskLane16(a[i] == b[i]))
  }

  function CmpltEpx16(sg: Sign, a: Reg16, b: Reg16): Reg16
  {
    seq(8, i requires 0 <= i < 8 => MaskLane16(Key16(sg, a[i]) < Key16(sg, b[i])))
  }

  function CmpgtEpx16(sg: Sign, a: Reg16, b: Reg16): Reg16
  {
    seq(8, i requires 0 <= i < 8 => MaskLane16(Key16(sg, a[i]) > Key16(sg, b[i])))
  }

  // ------------------------------------------------------------ bitwise

  function BitwiseSi(op: BitOp, a: Reg32, b: Reg32): Reg32
  {
    OnesArePow2();
    seq(4, i requires 0 <= i < 4 => Bitwise(op, a[i], b[i], 32))
  }

  /** `_mm_andnot_si128(a, b) == ~a & b`. */
  function AndnotSi(a: Reg32, b: Reg32): Reg32
  {
    OnesArePow2();
    seq(4, i requires 0 <= i < 4 => AndNot(a[i], b[i], 32))
  }

  /** The same instructions on a register read as words: bitwise operations do not see lanes. */
  function BitwiseSi16(op: BitOp, a: Reg16, b: Reg16): Reg16
  {
    OnesArePow2();
    seq(8, i requires 0 <= i < 8 => Bitwise(op, a[i], b[i], 16))
  }

  function AndnotSi16(a: Reg16, b: Reg16): Reg16
  {
    OnesArePow2();
    seq(8, i requires 0 <= i < 8 => AndNot(a[i], b[i], 16))
  }

  /** `andnot(m, allone)` turns a mask lane into its negation. */
  lemma AndnotAlloneNegates(m: Reg32)
    requires IsMask32(m)
    ensures forall i :: 0 <= i < 4 ==> AndnotSi(m, SetalloneSi())[i] == MaskLane32(m[i] == 0)
  {
    forall i | 0 <= i < 4
      ensures AndnotSi(m, SetalloneSi())[i] == MaskLane32(m[i] == 0)
    {
      AndNotOnesLane32(m[i]);
      assert AndnotSi(m, SetalloneSi())[i] == AndNot(m[i], Ones32, 32);
    }
  }

  lemma AndNotOnesLane32(x: U32)
    requires x == 0 || x == Ones32
    ensures M32 == Pow2(32) && AndNot(x, Ones32, 32) == MaskLane32(x == 0)
  {
    OnesArePow2();
    AndNotOnes(x, 32);
  }

  lemma AndnotAlloneNegates16(m: Reg16)
    requires IsMask16(m)
    ensures forall i :: 0 <= i < 8 ==> AndnotSi16(m, SetalloneSi16())[i] == MaskLane16(m[i] == 0)
  {
    forall i | 0 <= i < 8
      ensures AndnotSi16(m, SetalloneSi16())[i] == MaskLane16(m[i] == 0)
    {
      AndNotOnesLane16(m[i]);
      assert AndnotSi16(m, SetalloneSi16())[i] == AndNot(m[i], Ones16, 16);
    }
  }

  lemma AndNotOnesLane16(x: U16)
    requires x == 0 || x == Ones16
    ensures M16 == Pow2(16) && AndNot(x, Ones16, 16) == MaskLane16(x == 0)
  {
    OnesArePow2();
    AndNotOnes(x, 16);
  }

  // ------------------------------------------------------------ masks and blends

  /** `_mm_movemask_ps`: bit i is the top bit of dword i. */
  function MovemaskPs(m: Reg32): nat
  {
    PackBits(seq(4, i requires 0 <= i < 4 => m[i] >= 0x8000_0000))
  }

  /** `_mm_movemask_epi8`: bit k is the top bit of byte k. */
  function MovemaskEpi8(m: Reg16): nat
  {
    PackBits(seq(16, k requires 0 <= k < 16 => WordBytes(m)[k] >= 0x80))
  }

  /** Bit i of movemask_ps is set exactly when dword i has its top bit set. */
  lemma MovemaskPsBit(m: Reg32, i: nat)
    requires i < 4
    ensures HasBit(MovemaskPs(m), i) <==> m[i] >= 0x8000_0000
  {
    PackBitsBit(seq(4, i requires 0 <= i < 4 => m[i] >= 0x8000_0000), i);
  }

  /** Bit 2i of movemask_epi8 is the top bit of the low byte of word i. */
  lemma MovemaskEpi8Bit(m: Reg16, i: nat)
    requires i < 8
    ensures HasBit(MovemaskEpi8(m), 2 * i) <==> m[i] % 0x100 >= 0x80
  {
    PackBitsBit(seq(16, k requires 0 <= k < 16 => WordBytes(m)[k] >= 0x80), 2 * i);
    assert (2 * i) % 2 == 0 && (2 * i) / 2 == i;
    assert WordBytes(m)[2 * i] == m[i] % 0x100;
  }

  /** `_mm_blendv_epi8(a, b, m)`: byte k from b when the top bit of byte k of m is set, else from a. */
  function BlendvEpi8(a: Reg32, b: Reg32, m: Reg32): Reg32
  {
    FromBytes(BlendBytes(Bytes(a), Bytes(b), Bytes(m)))
  }

  function BlendBytes(ab: seq<Byte>, bb: seq<Byte>, mb: seq<Byte>): (r: seq<Byte>)
    requires |ab| == 16 && |bb| == 16 && |mb| == 16
    ensures |r| == 16
  {
    seq(16, k requires 0 <= k < 16 => if mb[k] >= 0x80 then bb[k] else ab[k])
  }

  // ------------------------------------------------------------ packs

  function Clamp(v: int, lo: int, hi: int): (r: int)
    requires lo <= hi
    ensures lo <= r <= hi
    ensures lo <= v <= hi ==> r == v
  {
    if v < lo then lo else if v > hi then hi else v
  }

  /** A signed dword saturated to a signed word. */
  function SaturateSigned16(x: U32): (r: U16)
    ensures Signed16(r) == Clamp(Signed32(x), -0x8000, 0x7FFF)
  {
    Wrap16(Clamp(Signed32(x), -0x8000, 0x7FFF))
  }

  /** A signed dword saturated to an unsigned word. */
  function SaturateUnsigned16(x: U32): (r: U16)
    ensures r == Clamp(Signed32(x), 0, 0xFFFF)
  {
    Clamp(Signed32(x), 0, 0xFFFF)
  }

  /** `_mm_packs_epi32(a, b)`: the dwords of a then b, each saturated to a signed word. */
  function PacksEpi32(a: Reg32, b: Reg32): Reg16
  {
    seq(8, k requires 0 <= k < 8 => if k < 4 then SaturateSigned16(a[k]) else SaturateSigned16(b[k - 4]))
  }

  /** `_mm_packus_epi32(a, b)`: the dwords of a then b, each saturated to an unsigned word. */
  function PackusEpi32(a: Reg32, b: Reg32): Reg16
  {
    seq(8, k requires 0 <= k < 8 => if k < 4 then SaturateUnsigned16(a[k]) else SaturateUnsigned16(b[k - 4]))
  }

  // ------------------------------------------------------------ facts about the fixed patterns

  /** `_MM_SHUFFLE(1, 0, 3, 2)` on dwords swaps the two 64-bit halves. */
  lemma ShuffleSwapHalves(a: Reg32)
    ensures ShuffleEpi32(a, MmShuffle(1, 0, 3, 2)) == [a[2], a[3], a[0], a[1]]
  {
  }

  /** On a register of words, swapping the dword halves swaps the word halves. */
  lemma ShuffleSwapHalves16(w: Reg16)
    ensures Words(ShuffleEpi32(Dwords(w), MmShuffle(1, 0, 3, 2))) == w[4..] + w[..4]
  {
    var r := Dwords(w);
    ShuffleSwapHalves(r);
    var t := [r[2], r[3], r[0], r[1]];
    var s := Words(t);
    var h := w[4..] + w[..4];
    forall j | 0 <= j < 4
      ensures s[2 * j] == h[2 * j] && s[2 * j + 1] == h[2 * j + 1]
    {
      var j' := if j < 2 then j + 2 else j - 2;
      assert t[j] == r[j'];
      WordsLane(t, j);
      DwordsLane(w, j');
    }
    forall k | 0 <= k < 8
      ensures s[k] == h[k]
    {
      assert k == 2 * (k / 2) || k == 2 * (k / 2) + 1;
    }
  }

  /** `_mm_shufflelo_epi16(a, _MM_SHUFFLE(1, 0, 3, 2))` applied to dwords swaps dwords 0 and 1. */
  lemma ShuffleloSwapsLowDwords(a: Reg32)
    ensures Dwords(ShuffleloEpi16(Words(a), MmShuffle(1, 0, 3, 2))) == [a[1], a[0], a[2], a[3]]
  {
    var w := Words(a);
    var imm := MmShuffle(1, 0, 3, 2);
    assert imm == 78;
    assert Selector(imm, 0) == 2 && Selector(imm, 1) == 3 && Selector(imm, 2) == 0 && Selector(imm, 3) == 1;
    var s := ShuffleloEpi16(w, imm);
    assert s == [w[2], w[3], w[0], w[1], w[4], w[5], w[6], w[7]];
    var d := Dwords(s);
    forall j | 0 <= j < 4
      ensures d[j] == [a[1], a[0], a[2], a[3]][j]
    {
    }
  }

  /** `_mm_shuffle_epi32(p, 8)` gathers dwords 0 and 2 into the low half. */
  lemma ShuffleGatherEven(a: Reg32)
    ensures ShuffleEpi32(a, 8)[0] == a[0] && ShuffleEpi32(a, 8)[1] == a[2]
  {
  }

  /** Shifting the register right by four bytes moves every dword down one lane. */
  lemma SrliSiByDword(a: Reg32)
    ensures SrliSi(a, 4) == [a[1], a[2], a[3], 0]
  {
    var bs := Bytes(a);
    var sh := seq(16, k requires 0 <= k < 16 => if k + 4 < 16 then bs[k + 4] else 0);
    forall j | 0 <= j < 4
      ensures FromBytes(sh)[j] == [a[1], a[2], a[3], 0][j]
    {
      if j < 3 {
        BytesLane(a, j + 1);
        assert sh[4 * j..4 * j + 4] == bs[4 * (j + 1)..4 * (j + 1) + 4];
        LoadLane(sh, j, a[j + 1]);
      } else {
        assert sh[12..16] == [0, 0, 0, 0] == LaneBytes(0);
        LoadLane(sh, j, 0);
      }
    }
  }

  /** A register loaded from bytes has dword i equal to x when bytes 4i to 4i+3 are those of x. */
  lemma LoadLane(bs: seq<Byte>, i: nat, x: U32)
    requires |bs| == 16 && i < 4
    requires bs[4 * i..4 * i + 4] == LaneBytes(x)
    ensures FromBytes(bs)[i] == x
  {
    FromBytesLane(bs, i);
    LaneBytesInjective(FromBytes(bs)[i], x);
  }

  /** Four mask bytes that agree in their top bit take four bytes from the same operand. */
  lemma BlendBytesLane(ab: seq<Byte>, bb: seq<Byte>, mb: seq<Byte>, i: nat, on: bool)
    requires |ab| == 16 && |bb| == 16 && |mb| == 16 && i < 4
    requires mb[4 * i..4 * i + 4] == if on then [0xFF, 0xFF, 0xFF, 0xFF] else [0, 0, 0, 0]
    ensures BlendBytes(ab, bb, mb)[4 * i..4 * i + 4] == (if on then bb else ab)[4 * i..4 * i + 4]
  {
    var r, src := BlendBytes(ab, bb, mb), if on then bb else ab;
    forall k | 4 * i <= k < 4 * i + 4
      ensures r[k] == src[k]
    {
      assert mb[k] == mb[4 * i..4 * i + 4][k - 4 * i];
    }
  }

  /** For a well-formed mask the byte-wise blend selects whole lanes. */
  lemma BlendvSelectsLanes(a: Reg32, b: Reg32, m: Reg32)
    requires IsMask32(m)
    ensures forall i :: 0 <= i < 4 ==> BlendvEpi8(a, b, m)[i] == if m[i] == Ones32 then b[i] else a[i]
  {
    forall i | 0 <= i < 4
      ensures BlendvEpi8(a, b, m)[i] == if m[i] == Ones32 then b[i] else a[i]
    {
      BlendvLane(a, b, m, i);
    }
  }

  lemma BlendvLane(a: Reg32, b: Reg32, m: Reg32, i: nat)
    requires i < 4 && (m[i] == 0 || m[i] == Ones32)
    ensures BlendvEpi8(a, b, m)[i] == if m[i] == Ones32 then b[i] else a[i]
  {
    var ab, bb, mb := Bytes(a), Bytes(b), Bytes(m);
    var on := m[i] == Ones32;
    var x := if on then b[i] else a[i];
    BytesLane(m, i);
    BytesLane(a, i);
    BytesLane(b, i);
    MaskLaneBytes(m[i]);
    BlendBytesLane(ab, bb, mb, i, on);
    LoadLane(BlendBytes(ab, bb, mb), i, x);
  }

  /** The bytes of a mask lane are all 0xFF or all zero. */
  lemma MaskLaneBytes(x: U32)
    requires x == 0 || x == Ones32
    ensures LaneBytes(x) == if x == Ones32 then [0xFF, 0xFF, 0xFF, 0xFF] else [0, 0, 0, 0]
  {
  }

  /** Byte k of a register whose four lanes are x is byte k mod 4 of x. */
  lemma UniformBytes(x: U32, k: nat)
    requires k < 16
    ensures Bytes([x, x, x, x])[k] == LaneBytes(x)[k % 4]
  {
    var j := k / 4;
    BytesLane([x, x, x, x], j);
    assert Bytes([x, x, x, x])[k] == Bytes([x, x, x, x])[4 * j..4 * j + 4][k - 4 * j];
  }
}
