/** `VectorHelper<signed short>` and `VectorHelper<unsigned short>`: registers
    of eight 16-bit lanes, plus the conversions between one such register and
    two registers of four 32-bit lanes (`expand0`, `expand1`, `concat`). As in
    Helper32, the element type is a `Sign` parameter. It selects the order of
    compares, minima and maxima, signed or unsigned division, sign or zero
    extension in `expand0`/`expand1`, and the saturation of `concat` (`packs`
    or `packus`). `multiplyAndAdd` exists for `short` only. The SSE4.1 switch
    is a `sse41` parameter. */
module Helper16 {
  import opened Bits
  import opened Lanes
  import opened Intrinsics
  import opened Helper32

  // ------------------------------------------------------------ scalar division

  /** One lane of `rr[i] /= bb[i]` on short or unsigned short: both operands are
      promoted to int, divided with truncation, and the quotient is stored back
      into 16 bits. Only -32768 / -1 does not fit, and it wraps to -32768. */
  function Quotient16(sg: Sign, x: U16, y: U16): (q: U16)
    requires y != 0
    ensures !(sg == Signed && x == 0x8000 && y == Ones16) ==> Key16(sg, q) == TruncDiv(Key16(sg, x), Key16(sg, y))
    ensures sg == Signed && x == 0x8000 && y == Ones16 ==> q == 0x8000
  {
    var n, d := Key16(sg, x), Key16(sg, y);
    if sg == Unsigned then
      QuotientFitsUnsigned16(x, y);
      Wrap16(TruncDiv(n, d))
    else if x == 0x8000 && y == Ones16 then
      OverflowQuotient16(x, y);
      Wrap16(TruncDiv(n, d))
    else
      QuotientFitsSigned16(x, y);
      SignedWrap16(TruncDiv(n, d));
      Wrap16(TruncDiv(n, d))
  }

  lemma QuotientFitsUnsigned16(x: U16, y: U16)
    requires y != 0
    ensures 0 <= TruncDiv(x, y) <= x
  {
    TruncDivSpec(x, y);
    DivNonNegative(x, y);
  }

  /** Outside -32768 / -1 the truncated quotient of two short lanes is again a short. */
  lemma QuotientFitsSigned16(x: U16, y: U16)
    requires y != 0 && !(x == 0x8000 && y == Ones16)
    ensures -0x8000 <= TruncDiv(Signed16(x), Signed16(y)) < 0x8000
  {
    TruncDivSpec(Signed16(x), Signed16(y));
  }

  /** -32768 / -1 is 32768, one past the largest short. */
  lemma OverflowQuotient16(x: U16, y: U16)
    requires x == 0x8000 && y == Ones16
    ensures TruncDiv(Signed16(x), Signed16(y)) == 0x8000
  {
    assert Signed16(x) == -0x8000 && Signed16(y) == -1;
  }

  // ------------------------------------------------------------ division of registers

  /** `div(a, b, mask)` of short and unsigned short: `movemask_epi8` of the mask
      has bit 2i set when the low byte of mask word i has its top bit set, and
      only those lanes of the copy are divided in place. For a well-formed
      mask that is the lanes whose mask word is all ones. */
  method DivMasked16(sg: Sign, a: Reg16, b: Reg16, mask: Reg16) returns (res: Reg16)
    requires forall i :: 0 <= i < 8 && mask[i] % 0x100 >= 0x80 ==> b[i] != 0
    ensures forall i :: 0 <= i < 8 ==> res[i] == if mask[i] % 0x100 >= 0x80 then Quotient16(sg, a[i], b[i]) else a[i]
    ensures IsMask16(mask) ==> forall i :: 0 <= i < 8 ==> res[i] == if mask[i] == Ones16 then Quotient16(sg, a[i], b[i]) else a[i]
  {
    var m := MovemaskEpi8(mask);
    var r := new U16[8](i requires 0 <= i < 8 => a[i]);
    for i := 0 to 8
      invariant forall k {:trigger r[k]} :: 0 <= k < i ==> r[k] == if mask[k] % 0x100 >= 0x80 then Quotient16(sg, a[k], b[k]) else a[k]
      invariant forall k {:trigger r[k]} :: i <= k < 8 ==> r[k] == a[k]
    {
      MovemaskEpi8Bit(mask, i);
      if HasBit(m, 2 * i) {
        r[i] := Quotient16(sg, r[i], b[i]);
      }
      assert r[i] == if mask[i] % 0x100 >= 0x80 then Quotient16(sg, a[i], b[i]) else a[i];
    }
    res := r[..];
    MaskedQuotientsByWord(sg, a, b, mask, res);
  }

  /** The lane selection of `DivMasked16`, read on the words of a well-formed mask. */
  lemma MaskedQuotientsByWord(sg: Sign, a: Reg16, b: Reg16, mask: Reg16, res: Reg16)
    requires forall i :: 0 <= i < 8 && mask[i] % 0x100 >= 0x80 ==> b[i] != 0
    requires forall i :: 0 <= i < 8 ==> res[i] == if mask[i] % 0x100 >= 0x80 then Quotient16(sg, a[i], b[i]) else a[i]
    ensures IsMask16(mask) ==> forall i :: 0 <= i < 8 ==> res[i] == if mask[i] == Ones16 then Quotient16(sg, a[i], b[i]) else a[i]
  {
    MaskWordsTopBit(mask);
  }

  /** In a well-formed mask the low byte of a word has its top bit set exactly
      when the word is all ones. */
  lemma MaskWordsTopBit(mask: Reg16)
    ensures IsMask16(mask) ==> forall i :: 0 <= i < 8 ==> (mask[i] % 0x100 >= 0x80 <==> mask[i] == Ones16)
  {
  }

  /** `div(a, b)` of short and unsigned short: every lane divided into a fresh array. */
  method Div16(sg: Sign, a: Reg16, b: Reg16) returns (res: Reg16)
    requires forall i :: 0 <= i < 8 ==> b[i] != 0
    ensures forall i :: 0 <= i < 8 ==> res[i] == Quotient16(sg, a[i], b[i])
  {
    var r := new U16[8];
    for i := 0 to 8
      invariant forall k :: 0 <= k < i ==> r[k] == Quotient16(sg, a[k], b[k])
    {
      r[i] := Quotient16(sg, a[i], b[i]);
    }
    res := r[..];
  }

  /** With every lane active the masked division is the plain one: every lane
      is the 16-bit quotient. */
  method DivMasked16AllActive(sg: Sign, a: Reg16, b: Reg16) returns (full: Reg16, masked: Reg16)
    requires forall i :: 0 <= i < 8 ==> b[i] != 0
    ensures forall i :: 0 <= i < 8 ==> full[i] == Quotient16(sg, a[i], b[i])
    ensures masked == full
  {
    full := Div16(sg, a, b);
    masked := DivMasked16(sg, a, b, SetalloneSi16());
    assert forall i :: 0 <= i < 8 ==> masked[i] == full[i];
  }

  /** With no lane active the masked division returns a, whatever b holds. */
  method DivMasked16NoneActive(sg: Sign, a: Reg16, b: Reg16) returns (empty: Reg16)
    ensures empty == a
  {
    empty := DivMasked16(sg, a, b, [0, 0, 0, 0, 0, 0, 0, 0]);
    assert forall i :: 0 <= i < 8 ==> empty[i] == a[i];
  }

  // ------------------------------------------------------------ multiplication

  /** `mul(a, b)`: `mullo_epi16`, every lane the product modulo 2^16, which
      read as short is the wrapped product of the short lanes. */
  function Mul16(a: Reg16, b: Reg16): (r: Reg16)
    ensures forall i :: 0 <= i < 8 ==> r[i] == (a[i] * b[i]) % M16
    ensures forall i :: 0 <= i < 8 ==> r[i] == Wrap16(Signed16(a[i]) * Signed16(b[i]))
  {
    forall i | 0 <= i < 8 {
      SignedMulWrap16(a[i], b[i]);
    }
    MulloEpi16(a, b)
  }

  lemma SignedMulWrap16(x: U16, y: U16)
    ensures (x * y) % M16 == Wrap16(Signed16(x) * Signed16(y))
  {
    var sx, sy := Signed16(x), Signed16(y);
    ModMulCongruent(x, sx, y, M16);
    ModMulCongruent(y, sy, sx, M16);
    assert y * sx == sx * y && sy * sx == sx * sy;
  }

  /** `mul(a, b, mask)`: `(mask & mul(a, b)) | (~mask & a)`. For a well-formed
      mask an active lane is the product modulo 2^16 and an inactive one keeps a[i]. */
  function MulMasked16(a: Reg16, b: Reg16, mask: Reg16): (r: Reg16)
    ensures IsMask16(mask) ==> forall i :: 0 <= i < 8 ==> r[i] == if mask[i] == Ones16 then (a[i] * b[i]) % M16 else a[i]
  {
    var p := Mul16(a, b);
    if IsMask16(mask) then
      SelectLanes16(mask, p, a);
      BitwiseSi16(OrOp, BitwiseSi16(AndOp, mask, p), AndnotSi16(mask, a))
    else
      BitwiseSi16(OrOp, BitwiseSi16(AndOp, mask, p), AndnotSi16(mask, a))
  }

  /** The bitwise select picks p where the mask word is all ones and a where it is zero. */
  lemma SelectLanes16(m: Reg16, p: Reg16, a: Reg16)
    requires IsMask16(m)
    ensures forall i :: 0 <= i < 8 ==>
      BitwiseSi16(OrOp, BitwiseSi16(AndOp, m, p), AndnotSi16(m, a))[i] == if m[i] == Ones16 then p[i] else a[i]
  {
    OnesArePow2();
    forall i | 0 <= i < 8
      ensures BitwiseSi16(OrOp, BitwiseSi16(AndOp, m, p), AndnotSi16(m, a))[i] == if m[i] == Ones16 then p[i] else a[i]
    {
      SelectByMask(m[i], p[i], a[i], 16);
    }
  }

  // ------------------------------------------------------------ multiply-add, masking, rounding

  /** `multiplyAndAdd(v1, v2, v3)`: `v1 = add(mul(v1, v2), v3)` through the reference. */
  method MultiplyAndAdd16(v1: Cell<Reg16>, v2: Reg16, v3: Reg16)
    modifies v1
    ensures v1.value == AddEpi16(Mul16(old(v1.value), v2), v3)
  {
    v1.value := AddEpi16(Mul16(v1.value, v2), v3);
  }

  /** Lane i after multiplyAndAdd is v1 * v2 + v3 wrapped to 16 bits. */
  lemma MultiplyAndAdd16Lane(a: Reg16, b: Reg16, c: Reg16, i: nat)
    requires i < 8
    ensures AddEpi16(Mul16(a, b), c)[i] == (a[i] * b[i] + c[i]) % M16
    ensures AddEpi16(Mul16(a, b), c)[i] == Wrap16(Signed16(a[i]) * Signed16(b[i]) + Signed16(c[i]))
  {
    AddProductLane16(a, b, c, Mul16(a, b), i);
  }

  lemma AddProductLane16(a: Reg16, b: Reg16, c: Reg16, m: Reg16, i: nat)
    requires i < 8 && m[i] == (a[i] as int * b[i]) % M16
    ensures AddEpi16(m, c)[i] == (a[i] * b[i] + c[i]) % M16
    ensures AddEpi16(m, c)[i] == Wrap16(Signed16(a[i]) * Signed16(b[i]) + Signed16(c[i]))
  {
    MulAddWrap16(a[i], b[i], c[i], m[i], AddEpi16(m, c)[i]);
  }

  lemma MulAddWrap16(x: U16, y: U16, z: U16, p: U16, r: U16)
    requires p == (x * y) % M16 && r == (p + z) % M16
    ensures r == (x * y + z) % M16
    ensures r == Wrap16(Signed16(x) * Signed16(y) + Signed16(z))
  {
    var xy: int := x as int * y;
    var sxy: int, sz: int := Signed16(x) * Signed16(y), Signed16(z);
    SignedMulWrap16(x, y);
    assert xy % M16 == sxy % M16;
    ModAddCongruent(p, xy, z, M16);
    ModAddCongruent(xy, sxy, z, M16);
    ModAddCongruent(z, sz, sxy, M16);
    assert z + sxy == sxy + z && sz + sxy == sxy + sz;
  }

  /** `notMaskedToZero(a, mask)`: `mask & a`, which keeps the active lanes and clears the others. */
  function NotMaskedToZero16(a: Reg16, mask: Reg16): (r: Reg16)
    ensures IsMask16(mask) ==> forall i :: 0 <= i < 8 ==> r[i] == if mask[i] == Ones16 then a[i] else 0
  {
    OnesArePow2();
    forall i | 0 <= i < 8
      ensures Bitwise(AndOp, Ones16, a[i], 16) == a[i] && Bitwise(AndOp, 0, a[i], 16) == 0
    {
      AndOnes(a[i], 16);
      AndZero(a[i], 16);
    }
    BitwiseSi16(AndOp, mask, a)
  }

  /** `round(a)`: the identity on integers. */
  function Round16(a: Reg16): (r: Reg16)
    ensures r == a
  {
    a
  }

  // ------------------------------------------------------------ compares

  /** `cmpneq`: `andnot(cmpeq(a, b), allone)`. */
  function CmpNeq16(a: Reg16, b: Reg16): (r: Reg16)
    ensures forall i :: 0 <= i < 8 ==> r[i] == MaskLane16(a[i] != b[i])
  {
    AndnotAlloneNegates16(CmpeqEpi16(a, b));
    AndnotSi16(CmpeqEpi16(a, b), SetalloneSi16())
  }

  /** `cmpnlt`: `andnot(cmplt(a, b), allone)`; unsigned short compares with `cmplt_epu16`. */
  function CmpNlt16(sg: Sign, a: Reg16, b: Reg16): (r: Reg16)
    ensures forall i :: 0 <= i < 8 ==> r[i] == MaskLane16(Key16(sg, a[i]) >= Key16(sg, b[i]))
  {
    AndnotAlloneNegates16(CmpltEpx16(sg, a, b));
    AndnotSi16(CmpltEpx16(sg, a, b), SetalloneSi16())
  }

  /** `cmple`: `andnot(cmpgt(a, b), allone)`. */
  function CmpLe16(sg: Sign, a: Reg16, b: Reg16): (r: Reg16)
    ensures forall i :: 0 <= i < 8 ==> r[i] == MaskLane16(Key16(sg, a[i]) <= Key16(sg, b[i]))
  {
    AndnotAlloneNegates16(CmpgtEpx16(sg, a, b));
    AndnotSi16(CmpgtEpx16(sg, a, b), SetalloneSi16())
  }

  /** `cmpnle`: `cmpgt(a, b)`. */
  function CmpNle16(sg: Sign, a: Reg16, b: Reg16): (r: Reg16)
    ensures forall i :: 0 <= i < 8 ==> r[i] == MaskLane16(!(Key16(sg, a[i]) <= Key16(sg, b[i])))
  {
    CmpgtEpx16(sg, a, b)
  }

  /** In every lane exactly one of cmplt, cmpeq and cmpgt is all ones. */
  lemma CompareTrichotomy16(sg: Sign, a: Reg16, b: Reg16)
    ensures forall i :: 0 <= i < 8 ==>
      Flag(CmpltEpx16(sg, a, b)[i] == Ones16) + Flag(CmpeqEpi16(a, b)[i] == Ones16) + Flag(CmpgtEpx16(sg, a, b)[i] == Ones16) == 1
  {
    forall i | 0 <= i < 8
      ensures Flag(CmpltEpx16(sg, a, b)[i] == Ones16) + Flag(CmpeqEpi16(a, b)[i] == Ones16) + Flag(CmpgtEpx16(sg, a, b)[i] == Ones16) == 1
    {
      Key16Injective(sg, a[i], b[i]);
    }
  }

  /** The derived compares mirror one another when the operands are swapped. */
  lemma DerivedComparesMirror16(sg: Sign, a: Reg16, b: Reg16)
    ensures CmpNlt16(sg, a, b) == CmpLe16(sg, b, a)
    ensures CmpNle16(sg, a, b) == CmpltEpx16(sg, b, a)
    ensures CmpNeq16(a, b) == CmpNeq16(b, a)
  {
    var lt := CmpltEpx16(sg, b, a);
    assert forall i :: 0 <= i < 8 ==> lt[i] == MaskLane16(Key16(sg, b[i]) < Key16(sg, a[i]));
  }

  // ------------------------------------------------------------ widening and narrowing

  /** `expand0(x)`: `unpacklo_epi16(x, x)` puts each of words 0-3 in both halves
      of a dword, and the shift right by 16 (arithmetic for short, logical for
      unsigned short) leaves it sign- or zero-extended to 32 bits. */
  function Expand0(sg: Sign, x: Reg16): (r: Reg32)
    ensures forall j :: 0 <= j < 4 ==> Key32(sg, r[j]) == Key16(sg, x[j])
  {
    var w := UnpackloEpi16(x, x);
    var d := Dwords(w);
    forall j | 0 <= j < 4
      ensures d[j] % M16 == x[j] && d[j] / M16 == x[j]
    {
      DwordsLane(w, j);
    }
    ExtendLanes(sg, d, x[..4])
  }

  /** `expand1(x)`: the same for words 4-7, through `unpackhi_epi16`. */
  function Expand1(sg: Sign, x: Reg16): (r: Reg32)
    ensures forall j :: 0 <= j < 4 ==> Key32(sg, r[j]) == Key16(sg, x[j + 4])
  {
    var w := UnpackhiEpi16(x, x);
    var d := Dwords(w);
    forall j | 0 <= j < 4
      ensures d[j] % M16 == x[j + 4] && d[j] / M16 == x[j + 4]
    {
      DwordsLane(w, j);
    }
    ExtendLanes(sg, d, x[4..])
  }

  /** The shift by 16 of dwords holding a word twice: `srai_epi32` for short,
      `srli_epi32` for unsigned short. */
  function ExtendLanes(sg: Sign, d: Reg32, x: seq<U16>): (r: Reg32)
    requires |x| == 4 && forall j :: 0 <= j < 4 ==> d[j] % M16 == x[j] && d[j] / M16 == x[j]
    ensures forall j :: 0 <= j < 4 ==> Key32(sg, r[j]) == Key16(sg, x[j])
  {
    Pow2Values();
    forall j | 0 <= j < 4
      ensures Signed32(Wrap32(Signed32(d[j]) / Pow2(16))) == Signed16(x[j]) && ShiftRight(d[j], 16) == x[j]
    {
      ExtendLane(x[j], d[j]);
    }
    if sg == Signed then SraiEpi32(d, 16) else SrliEpi32(d, 16)
  }

  /** A dword holding the word x in both halves, shifted right by 16, gives x
      sign-extended (arithmetic shift) or zero-extended (logical shift). */
  lemma ExtendLane(x: U16, d: U32)
    requires d % M16 == x && d / M16 == x
    ensures Signed32(Wrap32(Signed32(d) / Pow2(16))) == Signed16(x)
    ensures ShiftRight(d, 16) == x
  {
    Pow2Values();
    assert d == x + M16 * x;
    ShiftRightSplit(x, x, 16);
    if x < 0x8000 {
      assert Signed32(d) == x + M16 * x;
      DivModUnique(Signed32(d), x, x, M16);
    } else {
      assert Signed32(d) == x + M16 * (x - M16);
      DivModUnique(Signed32(d), x, x - M16, M16);
    }
    SignedWrap32(Signed16(x));
  }

  /** `concat(a, b)`: the dwords of a then b narrowed to words. Short uses
      `packs_epi32` (signed saturation); unsigned short uses `packus_epi32`
      (unsigned saturation) with SSE4.1 and falls back to `packs_epi32` without it. */
  function Concat(sg: Sign, sse41: bool, a: Reg32, b: Reg32): (r: Reg16)
    ensures forall k :: 0 <= k < 4 ==>
      (sg == Unsigned && sse41 ==> r[k] == Clamp(Signed32(a[k]), 0, 0xFFFF) && r[k + 4] == Clamp(Signed32(b[k]), 0, 0xFFFF))
    ensures forall k :: 0 <= k < 4 ==>
      (!(sg == Unsigned && sse41) ==> Signed16(r[k]) == Clamp(Signed32(a[k]), -0x8000, 0x7FFF) && Signed16(r[k + 4]) == Clamp(Signed32(b[k]), -0x8000, 0x7FFF))
  {
    forall k | 0 <= k < 4
      ensures PackusEpi32(a, b)[k + 4] == SaturateUnsigned16(b[k]) && PacksEpi32(a, b)[k + 4] == SaturateSigned16(b[k])
    {
      assert (k + 4) - 4 == k;
    }
    if sg == Unsigned && sse41 then PackusEpi32(a, b) else PacksEpi32(a, b)
  }

  /** Narrowing undoes widening: for short, and for unsigned short with SSE4.1,
      `concat(expand0(x), expand1(x)) == x`. */
  lemma ConcatExpandRoundTrip(sg: Sign, sse41: bool, x: Reg16)
    requires sg == Signed || sse41
    ensures Concat(sg, sse41, Expand0(sg, x), Expand1(sg, x)) == x
  {
    var lo, hi := Expand0(sg, x), Expand1(sg, x);
    var r := Concat(sg, sse41, lo, hi);
    forall k | 0 <= k < 8
      ensures r[k] == x[k]
    {
      var j := if k < 4 then k else k - 4;
      var src := if k < 4 then lo[j] else hi[j];
      assert Key32(sg, src) == Key16(sg, x[k]);
      if sg == Signed {
        assert Signed16(r[k]) == Signed16(x[k]);
        Key16Injective(Signed, r[k], x[k]);
      } else {
        assert src == x[k] && Signed32(src) == x[k];
      }
    }
  }

  /** Without SSE4.1 the unsigned short `concat` saturates as signed: a
      zero-extended lane of 0x8000 or more comes back as 0x7FFF, so the round
      trip holds only for lanes below 0x8000. */
  lemma ConcatFallbackSaturates(x: Reg16)
    ensures forall k :: 0 <= k < 8 ==>
      Concat(Unsigned, false, Expand0(Unsigned, x), Expand1(Unsigned, x))[k] == if x[k] < 0x8000 then x[k] else 0x7FFF
  {
    var lo, hi := Expand0(Unsigned, x), Expand1(Unsigned, x);
    var r := Concat(Unsigned, false, lo, hi);
    forall k | 0 <= k < 8
      ensures r[k] == if x[k] < 0x8000 then x[k] else 0x7FFF
    {
      var j := if k < 4 then k else k - 4;
      var src := if k < 4 then lo[j] else hi[j];
      assert src == x[k] && Signed32(src) == x[k];
      assert Signed16(r[k]) == if x[k] < 0x8000 then x[k] else 0x7FFF;
    }
  }

  // ------------------------------------------------------------ horizontal reductions

  function LaneOp16(sg: Sign, op: Reduction, x: U16, y: U16): U16
  {
    match op
    case Sum => (x + y) % M16
    case Product => (x * y) % M16
    case Minimum => Min16(sg, x, y)
    case Maximum => Max16(sg, x, y)
  }

  /** The register operation: `add_epi16`, `mullo_epi16`, and `min`/`max` in
      `epi16` for short and `epu16` for unsigned short. */
  function Combine16(sg: Sign, op: Reduction, a: Reg16, b: Reg16): (r: Reg16)
    ensures forall i :: 0 <= i < 8 ==> r[i] == LaneOp16(sg, op, a[i], b[i])
  {
    match op
    case Sum => AddEpi16(a, b)
    case Product => MulloEpi16(a, b)
    case Minimum => MinEpx16(sg, a, b)
    case Maximum => MaxEpx16(sg, a, b)
  }

  /** `min(a)`, `max(a)`, `add(a)`, `mul(a)`: three combining steps, with the
      64-bit halves swapped, with words 0-1 and 2-3 swapped, and with word 1
      broadcast; the low dword is then cut to the 16-bit entry type. */
  function Reduce16(sg: Sign, op: Reduction, a: Reg16): (r: U16)
    ensures r == Tree16(sg, op, a)
  {
    var a1 := Combine16(sg, op, a, Words(ShuffleEpi32(Dwords(a), MmShuffle(1, 0, 3, 2))));
    var a2 := Combine16(sg, op, a1, ShuffleloEpi16(a1, MmShuffle(1, 0, 3, 2)));
    var a3 := Combine16(sg, op, a2, ShuffleloEpi16(a2, MmShuffle(1, 1, 1, 1)));
    ShuffleSwapHalves16(a);
    Shufflelo16Patterns(a1);
    Shufflelo16Patterns(a2);
    DwordsLane(a3, 0);
    CvtsiSi32(Dwords(a3)) % M16
  }

  /** The combining order of the three steps: lane k with lane k + 4, then
      words 0 and 2, then words 0 and 1. */
  function Tree16(sg: Sign, op: Reduction, a: Reg16): U16
  {
    LaneOp16(sg, op,
      LaneOp16(sg, op, LaneOp16(sg, op, a[0], a[4]), LaneOp16(sg, op, a[2], a[6])),
      LaneOp16(sg, op, LaneOp16(sg, op, a[1], a[5]), LaneOp16(sg, op, a[3], a[7])))
  }

  lemma Shufflelo16Patterns(w: Reg16)
    ensures ShuffleloEpi16(w, MmShuffle(1, 0, 3, 2))[0] == w[2] && ShuffleloEpi16(w, MmShuffle(1, 0, 3, 2))[1] == w[3]
    ensures ShuffleloEpi16(w, MmShuffle(1, 1, 1, 1))[0] == w[1]
  {
    assert MmShuffle(1, 0, 3, 2) == 78 && MmShuffle(1, 1, 1, 1) == 85;
    assert Selector(78, 0) == 2 && Selector(78, 1) == 3 && Selector(85, 0) == 1;
  }

  /** The horizontal sum is the sum of the eight lanes modulo 2^16. */
  lemma ReduceSum16(sg: Sign, a: Reg16)
    ensures Reduce16(sg, Sum, a) == (a[0] as int + a[1] + a[2] + a[3] + a[4] + a[5] + a[6] + a[7]) % M16
  {
    SumTree16(sg, a, Reduce16(sg, Sum, a));
  }

  lemma SumTree16(sg: Sign, a: Reg16, r: U16)
    requires r == Tree16(sg, Sum, a)
    ensures r == (a[0] as int + a[1] + a[2] + a[3] + a[4] + a[5] + a[6] + a[7]) % M16
  {
    var t04, t26 := LaneOp16(sg, Sum, a[0], a[4]), LaneOp16(sg, Sum, a[2], a[6]);
    var t15, t37 := LaneOp16(sg, Sum, a[1], a[5]), LaneOp16(sg, Sum, a[3], a[7]);
    var s04, s26, s15, s37 := a[0] as int + a[4], a[2] as int + a[6], a[1] as int + a[5], a[3] as int + a[7];
    AddStep16(sg, t04, t26, s04, s26);
    AddStep16(sg, t15, t37, s15, s37);
    AddStep16(sg, LaneOp16(sg, Sum, t04, t26), LaneOp16(sg, Sum, t15, t37), s04 + s26, s15 + s37);
    assert (s04 + s26) + (s15 + s37) == a[0] as int + a[1] + a[2] + a[3] + a[4] + a[5] + a[6] + a[7];
  }

  /** Adding two lanes that hold X and Y modulo 2^16 gives X + Y modulo 2^16. */
  lemma AddStep16(sg: Sign, x: U16, y: U16, X: int, Y: int)
    requires x == X % M16 && y == Y % M16
    ensures LaneOp16(sg, Sum, x, y) == (X + Y) % M16
  {
    ModAddCongruent(x, X, y, M16);
    ModAddCongruent(y, Y, X, M16);
    assert y + X == X + y && Y + X == X + Y;
  }

  /** The horizontal product is the product of the eight lanes modulo 2^16. */
  lemma ReduceProduct16(sg: Sign, a: Reg16)
    ensures Reduce16(sg, Product, a) == (a[0] as int * a[1] * a[2] * a[3] * a[4] * a[5] * a[6] * a[7]) % M16
  {
    ProductTree16(sg, a, Reduce16(sg, Product, a));
  }

  lemma ProductTree16(sg: Sign, a: Reg16, r: U16)
    requires r == Tree16(sg, Product, a)
    ensures r == (a[0] as int * a[1] * a[2] * a[3] * a[4] * a[5] * a[6] * a[7]) % M16
  {
    var t04, t26 := LaneOp16(sg, Product, a[0], a[4]), LaneOp16(sg, Product, a[2], a[6]);
    var t15, t37 := LaneOp16(sg, Product, a[1], a[5]), LaneOp16(sg, Product, a[3], a[7]);
    var p04, p26, p15, p37 := a[0] as int * a[4], a[2] as int * a[6], a[1] as int * a[5], a[3] as int * a[7];
    MulStep16(sg, t04, t26, p04, p26);
    MulStep16(sg, t15, t37, p15, p37);
    MulStep16(sg, LaneOp16(sg, Product, t04, t26), LaneOp16(sg, Product, t15, t37), p04 * p26, p15 * p37);
    Rearrange8(a[0], a[1], a[2], a[3], a[4], a[5], a[6], a[7]);
  }

  /** Multiplying two lanes that hold X and Y modulo 2^16 gives X * Y modulo 2^16. */
  lemma MulStep16(sg: Sign, x: U16, y: U16, X: int, Y: int)
    requires x == X % M16 && y == Y % M16
    ensures LaneOp16(sg, Product, x, y) == (X * Y) % M16
  {
    ModMulCongruent(x, X, y, M16);
    ModMulCongruent(y, Y, X, M16);
    assert y * X == X * y && Y * X == X * Y;
  }

  lemma Rearrange8(x0: int, x1: int, x2: int, x3: int, x4: int, x5: int, x6: int, x7: int)
    ensures ((x0 * x4) * (x2 * x6)) * ((x1 * x5) * (x3 * x7)) == x0 * x1 * x2 * x3 * x4 * x5 * x6 * x7
  {
    var e, o := x0 * x2 * x4 * x6, x1 * x3 * x5 * x7;
    assert (x0 * x4) * (x2 * x6) == e;
    assert (x1 * x5) * (x3 * x7) == o;
    assert e * o == x0 * x1 * x2 * x3 * x4 * x5 * x6 * x7;
  }

  /** The horizontal minimum is one of the lanes and no lane is smaller in the
      element type's order. */
  lemma ReduceMin16(sg: Sign, a: Reg16)
    ensures exists i :: 0 <= i < 8 && Reduce16(sg, Minimum, a) == a[i]
    ensures forall i :: 0 <= i < 8 ==> Key16(sg, Reduce16(sg, Minimum, a)) <= Key16(sg, a[i])
  {
    MinTree16(sg, a, Reduce16(sg, Minimum, a));
  }

  lemma MinTree16(sg: Sign, a: Reg16, r: U16)
    requires r == Tree16(sg, Minimum, a)
    ensures exists i :: 0 <= i < 8 && r == a[i]
    ensures forall i :: 0 <= i < 8 ==> Key16(sg, r) <= Key16(sg, a[i])
  {
    var m04, m26, m15, m37 := Min16(sg, a[0], a[4]), Min16(sg, a[2], a[6]), Min16(sg, a[1], a[5]), Min16(sg, a[3], a[7]);
    var m0, m1 := Min16(sg, m04, m26), Min16(sg, m15, m37);
    MinOfTwo16(sg, a[0], a[4]);
    MinOfTwo16(sg, a[2], a[6]);
    MinOfTwo16(sg, a[1], a[5]);
    MinOfTwo16(sg, a[3], a[7]);
    MinOfTwo16(sg, m04, m26);
    MinOfTwo16(sg, m15, m37);
    MinOfTwo16(sg, m0, m1);
    assert r == a[0] || r == a[1] || r == a[2] || r == a[3] || r == a[4] || r == a[5] || r == a[6] || r == a[7];
    forall i | 0 <= i < 8
      ensures Key16(sg, r) <= Key16(sg, a[i])
    {
      LaneCases(i);
    }
  }

  lemma LaneCases(i: nat)
    requires i < 8
    ensures i == 0 || i == 1 || i == 2 || i == 3 || i == 4 || i == 5 || i == 6 || i == 7
  {
  }

  /** The horizontal maximum is one of the lanes and no lane is larger. */
  lemma ReduceMax16(sg: Sign, a: Reg16)
    ensures exists i :: 0 <= i < 8 && Reduce16(sg, Maximum, a) == a[i]
    ensures forall i :: 0 <= i < 8 ==> Key16(sg, a[i]) <= Key16(sg, Reduce16(sg, Maximum, a))
  {
    MaxTree16(sg, a, Reduce16(sg, Maximum, a));
  }

  lemma MaxTree16(sg: Sign, a: Reg16, r: U16)
    requires r == Tree16(sg, Maximum, a)
    ensures exists i :: 0 <= i < 8 && r == a[i]
    ensures forall i :: 0 <= i < 8 ==> Key16(sg, a[i]) <= Key16(sg, r)
  {
    var m04, m26, m15, m37 := Max16(sg, a[0], a[4]), Max16(sg, a[2], a[6]), Max16(sg, a[1], a[5]), Max16(sg, a[3], a[7]);
    var m0, m1 := Max16(sg, m04, m26), Max16(sg, m15, m37);
    MaxOfTwo16(sg, a[0], a[4]);
    MaxOfTwo16(sg, a[2], a[6]);
    MaxOfTwo16(sg, a[1], a[5]);
    MaxOfTwo16(sg, a[3], a[7]);
    MaxOfTwo16(sg, m04, m26);
    MaxOfTwo16(sg, m15, m37);
    MaxOfTwo16(sg, m0, m1);
    assert r == a[0] || r == a[1] || r == a[2] || r == a[3] || r == a[4] || r == a[5] || r == a[6] || r == a[7];
    forall i | 0 <= i < 8
      ensures Key16(sg, a[i]) <= Key16(sg, r)
    {
      LaneCases(i);
    }
  }

  lemma MinOfTwo16(sg: Sign, x: U16, y: U16)
    ensures Min16(sg, x, y) == x || Min16(sg, x, y) == y
    ensures Key16(sg, Min16(sg, x, y)) <= Key16(sg, x) && Key16(sg, Min16(sg, x, y)) <= Key16(sg, y)
  {
  }

  lemma MaxOfTwo16(sg: Sign, x: U16, y: U16)
    ensures Max16(sg, x, y) == x || Max16(sg, x, y) == y
    ensures Key16(sg, x) <= Key16(sg, Max16(sg, x, y)) && Key16(sg, y) <= Key16(sg, Max16(sg, x, y))
  {
  }
}
