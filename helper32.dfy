/** `VectorHelper<int>` and `VectorHelper<unsigned int>`: registers of four
    32-bit lanes. Members shared by the two element types take the element
    type's `Sign`, which selects the order of compares, minima and maxima and
    signed (truncating) or unsigned division. `multiplyAndAdd` exists for
    `int` only, and `int`'s horizontal product without SSE4.1 is a scalar
    product, modelled separately as `MulScalar`. Where the C++ helper has an SSE4.1
    path and a fallback, the choice is a `sse41` parameter. */
module Helper32 {
  import opened Bits
  import opened Lanes
  import opened Intrinsics

  // ------------------------------------------------------------ scalar division

  function Abs(v: int): nat
  {
    if v < 0 then -v else v
  }

  /** C++ `/` on integers: the quotient truncated toward zero. */
  function TruncDiv(n: int, d: int): int
    requires d != 0
  {
    var m := Abs(n) / Abs(d);
    if (n < 0) == (d < 0) then m else -m
  }

  /** The truncated quotient q of n by d leaves a remainder n - q * d that is
      smaller than d in magnitude and zero or of the sign of n; q is never
      larger than n in magnitude. */
  lemma TruncDivSpec(n: int, d: int)
    requires d != 0
    ensures Abs(n - TruncDiv(n, d) * d) < Abs(d)
    ensures n - TruncDiv(n, d) * d == 0 || (n - TruncDiv(n, d) * d < 0 <==> n < 0)
    ensures Abs(TruncDiv(n, d)) <= Abs(n)
  {
    var a, b := Abs(n), Abs(d);
    var mb := MagnitudeParts(a, b);
    TruncProduct(n, d, mb);
  }

  /** The quotient of magnitudes m = a / b satisfies a == m * b + a % b and m <= a. */
  lemma MagnitudeParts(a: nat, b: nat) returns (mb: int)
    requires b > 0
    ensures mb == (a / b) * b && a == mb + a % b && 0 <= a % b < b && a / b <= a
  {
    mb := (a / b) * b;
    MulLe(a / b, 1, b);
  }

  /** The truncated quotient times the divisor is the magnitude product with the dividend's sign. */
  lemma TruncProduct(n: int, d: int, mb: int)
    requires d != 0 && mb == (Abs(n) / Abs(d)) * Abs(d)
    ensures TruncDiv(n, d) * d == if n < 0 then -mb else mb
    ensures Abs(TruncDiv(n, d)) == Abs(n) / Abs(d)
  {
    var m := Abs(n) / Abs(d);
    DivNonNegative(Abs(n), Abs(d));
    SignedProduct(m, Abs(d), d);
    if (n < 0) == (d < 0) {
      assert TruncDiv(n, d) == m;
      assert TruncDiv(n, d) * d == m * d;
    } else {
      assert TruncDiv(n, d) == -m;
      assert TruncDiv(n, d) * d == (-m) * d;
    }
  }

  lemma DivNonNegative(a: nat, b: nat)
    requires b > 0
    ensures a / b >= 0
  {
  }

  /** Multiplying by d is multiplying by its magnitude and fixing the sign. */
  lemma SignedProduct(m: int, b: int, d: int)
    requires b == Abs(d)
    ensures m * d == if d < 0 then -(m * b) else m * b
    ensures (-m) * d == -(m * d)
  {
  }

  /** A lane division `VectorHelper<int>` and `VectorHelper<unsigned int>` may perform: a non-zero divisor, and for int
      not the one overflowing quotient INT_MIN / -1. */
  predicate DivDefined32(sg: Sign, x: U32, y: U32)
  {
    y != 0 && (sg == Signed ==> !(x == 0x8000_0000 && y == Ones32))
  }

  /** The quotient of two int lanes fits in an int unless it is INT_MIN / -1. */
  lemma QuotientFits(x: U32, y: U32)
    requires DivDefined32(Signed, x, y)
    ensures -0x8000_0000 <= TruncDiv(Signed32(x), Signed32(y)) < 0x8000_0000
  {
    var n, d := Signed32(x), Signed32(y);
    TruncDivSpec(n, d);
  }

  /** One lane of `a / b` in the element type: the truncated quotient of the
      lanes read as int (or as unsigned int), stored back as a lane. */
  function Quotient32(sg: Sign, x: U32, y: U32): (q: U32)
    requires DivDefined32(sg, x, y)
    ensures Key32(sg, q) == TruncDiv(Key32(sg, x), Key32(sg, y))
  {
    if sg == Signed then
      QuotientFits(x, y);
      SignedWrap32(TruncDiv(Signed32(x), Signed32(y)));
      Wrap32(TruncDiv(Signed32(x), Signed32(y)))
    else
      x / y
  }

  // ------------------------------------------------------------ division of registers

  /** `VectorHelper<int>::div(a, b, mask)`: lane i is divided when bit i of
      `movemask_ps(mask)` is set, that is when the top bit of mask lane i is
      set, and keeps a[i] otherwise; an inactive lane's divisor is never used. */
  function DivMaskedInt(a: Reg32, b: Reg32, mask: Reg32): (r: Reg32)
    requires forall i :: 0 <= i < 4 && mask[i] >= 0x8000_0000 ==> DivDefined32(Signed, a[i], b[i])
    ensures forall i :: 0 <= i < 4 ==> r[i] == if mask[i] >= 0x8000_0000 then Quotient32(Signed, a[i], b[i]) else a[i]
  {
    var m := MovemaskPs(mask);
    MovemaskPsBit(mask, 0);
    MovemaskPsBit(mask, 1);
    MovemaskPsBit(mask, 2);
    MovemaskPsBit(mask, 3);
    [if HasBit(m, 0) then Quotient32(Signed, a[0], b[0]) else a[0],
     if HasBit(m, 1) then Quotient32(Signed, a[1], b[1]) else a[1],
     if HasBit(m, 2) then Quotient32(Signed, a[2], b[2]) else a[2],
     if HasBit(m, 3) then Quotient32(Signed, a[3], b[3]) else a[3]]
  }

  /** `VectorHelper<int>::div(a, b)`: every lane, read as int, is the truncated quotient. */
  function DivInt(a: Reg32, b: Reg32): (r: Reg32)
    requires forall i :: 0 <= i < 4 ==> b[i] != 0 && !(a[i] == 0x8000_0000 && b[i] == Ones32)
    ensures forall i :: 0 <= i < 4 ==> Signed32(r[i]) == TruncDiv(Signed32(a[i]), Signed32(b[i]))
  {
    [Quotient32(Signed, a[0], b[0]), Quotient32(Signed, a[1], b[1]),
     Quotient32(Signed, a[2], b[2]), Quotient32(Signed, a[3], b[3])]
  }

  /** With every lane active the masked division is the plain one. */
  lemma DivMaskedAllActive(a: Reg32, b: Reg32)
    requires forall i :: 0 <= i < 4 ==> b[i] != 0 && !(a[i] == 0x8000_0000 && b[i] == Ones32)
    ensures DivMaskedInt(a, b, SetalloneSi()) == DivInt(a, b)
  {
  }

  /** With no lane active the masked division returns a, whatever b holds. */
  lemma DivMaskedNoneActive(a: Reg32, b: Reg32)
    ensures DivMaskedInt(a, b, SetzeroSi()) == a
  {
  }

  /** `VectorHelper<unsigned int>::div(a, b, mask)`: the lanes are copied to an
      array and lane i is divided in place when `mask & (1 << i)` is set. */
  method DivMaskedUInt(a: Reg32, b: Reg32, mask: Reg32) returns (res: Reg32)
    requires forall i :: 0 <= i < 4 && mask[i] >= 0x8000_0000 ==> b[i] != 0
    ensures forall i :: 0 <= i < 4 ==> res[i] == if mask[i] >= 0x8000_0000 then Quotient32(Unsigned, a[i], b[i]) else a[i]
  {
    var m := MovemaskPs(mask);
    var r := new U32[4](i requires 0 <= i < 4 => a[i]);
    for i := 0 to 4
      invariant forall k :: 0 <= k < i ==> r[k] == if mask[k] >= 0x8000_0000 then Quotient32(Unsigned, a[k], b[k]) else a[k]
      invariant forall k :: i <= k < 4 ==> r[k] == a[k]
    {
      MovemaskPsBit(mask, i);
      if HasBit(m, i) {
        r[i] := r[i] / b[i];
      }
    }
    res := r[..];
  }

  /** `VectorHelper<unsigned int>::div(a, b)`: lane by lane into a fresh array. */
  method DivUInt(a: Reg32, b: Reg32) returns (res: Reg32)
    requires forall i :: 0 <= i < 4 ==> b[i] != 0
    ensures forall i :: 0 <= i < 4 ==> res[i] as int * b[i] <= a[i] < (res[i] as int + 1) * b[i]
  {
    var r := new U32[4];
    for i := 0 to 4
      invariant forall k :: 0 <= k < i ==> r[k] as int * b[k] <= a[k] < (r[k] as int + 1) * b[k]
    {
      DivBounds(a[i], b[i]);
      r[i] := a[i] / b[i];
    }
    res := r[..];
  }

  /** The unsigned quotient is the largest q with q * y <= x. */
  lemma DivBounds(x: nat, y: nat)
    requires y != 0
    ensures (x / y) * y <= x < (x / y + 1) * y
  {
    assert x == (x / y) * y + x % y;
  }

  // ------------------------------------------------------------ multiplication

  /** The non-SSE4.1 `mul(a, b)`: `mul_epu32` forms the 64-bit products of the
      even lanes, the same on the registers shifted down by four bytes forms
      those of the odd lanes, and the low dwords are gathered and interleaved.
      Every lane is the low 32 bits of the lane product, as `mullo_epi32` gives. */
  function MulFallback(a: Reg32, b: Reg32): (r: Reg32)
    ensures r == MulloEpi32(a, b)
  {
    var aShift := SrliSi(a, 4);
    var ab02 := MulEpu32(a, b);
    var bShift := SrliSi(b, 4);
    var ab13 := MulEpu32(aShift, bShift);
    SrliSiByDword(a);
    SrliSiByDword(b);
    ShuffleGatherEven(ab02);
    ShuffleGatherEven(ab13);
    UnpackloEpi32(ShuffleEpi32(ab02, 8), ShuffleEpi32(ab13, 8))
  }

  /** `mul(a, b)` of int (`mullo_epi32` with SSE4.1, the fallback without) and
      of unsigned int, which delegates to it: every lane is the lane product
      modulo 2^32, which read as int is the wrapped product of the int lanes. */
  function Mul(sse41: bool, a: Reg32, b: Reg32): (r: Reg32)
    ensures forall i :: 0 <= i < 4 ==> r[i] == (a[i] * b[i]) % M32
    ensures forall i :: 0 <= i < 4 ==> r[i] == Wrap32(Signed32(a[i]) * Signed32(b[i]))
  {
    forall i | 0 <= i < 4 {
      SignedMulWrap(a[i], b[i]);
    }
    if sse41 then MulloEpi32(a, b) else MulFallback(a, b)
  }

  /** Multiplying the int readings of two lanes and wrapping gives the same
      lane as multiplying the unsigned readings modulo 2^32. */
  lemma SignedMulWrap(x: U32, y: U32)
    ensures (x * y) % M32 == Wrap32(Signed32(x) * Signed32(y))
  {
    var sx, sy := Signed32(x), Signed32(y);
    ModMulCongruent(x, sx, y, M32);
    ModMulCongruent(y, sy, sx, M32);
    assert y * sx == sx * y && sy * sx == sx * sy;
  }

  /** `mul(a, b, mask)`: `blendv_epi8(a, mul(a, b), mask)`. For a well-formed
      mask an active lane is the product modulo 2^32 and an inactive one keeps a[i]. */
  function MulMasked(sse41: bool, a: Reg32, b: Reg32, mask: Reg32): (r: Reg32)
    ensures IsMask32(mask) ==> forall i :: 0 <= i < 4 ==> r[i] == if mask[i] == Ones32 then (a[i] * b[i]) % M32 else a[i]
  {
    if IsMask32(mask) then
      BlendvSelectsLanes(a, Mul(sse41, a, b), mask);
      BlendvEpi8(a, Mul(sse41, a, b), mask)
    else
      BlendvEpi8(a, Mul(sse41, a, b), mask)
  }

  /** For a well-formed mask the bitwise select `(m & p) | (~m & a)` the 16-bit
      helpers use and the byte blend the 32-bit helpers use agree. */
  lemma SelectIsBlend(a: Reg32, p: Reg32, m: Reg32)
    requires IsMask32(m)
    ensures BitwiseSi(OrOp, BitwiseSi(AndOp, m, p), AndnotSi(m, a)) == BlendvEpi8(a, p, m)
  {
    BlendvSelectsLanes(a, p, m);
    OnesArePow2();
    forall i | 0 <= i < 4
      ensures BitwiseSi(OrOp, BitwiseSi(AndOp, m, p), AndnotSi(m, a))[i] == BlendvEpi8(a, p, m)[i]
    {
      SelectByMask(m[i], p[i], a[i], 32);
    }
  }

  // ------------------------------------------------------------ multiply-add, masking, rounding

  /** `multiplyAndAdd(v1, v2, v3)`: `v1 = add(mul(v1, v2), v3)` through the reference. */
  method MultiplyAndAdd(sse41: bool, v1: Cell<Reg32>, v2: Reg32, v3: Reg32)
    modifies v1
    ensures v1.value == AddEpi32(Mul(sse41, old(v1.value), v2), v3)
  {
    v1.value := AddEpi32(Mul(sse41, v1.value, v2), v3);
  }

  /** Lane i after multiplyAndAdd is v1 * v2 + v3 wrapped to 32 bits, for the
      unsigned and for the int reading alike. */
  lemma MultiplyAndAddLane(sse41: bool, a: Reg32, b: Reg32, c: Reg32, i: nat)
    requires i < 4
    ensures AddEpi32(Mul(sse41, a, b), c)[i] == (a[i] * b[i] + c[i]) % M32
    ensures AddEpi32(Mul(sse41, a, b), c)[i] == Wrap32(Signed32(a[i]) * Signed32(b[i]) + Signed32(c[i]))
  {
    AddProductLane(a, b, c, Mul(sse41, a, b), i);
  }

  lemma AddProductLane(a: Reg32, b: Reg32, c: Reg32, m: Reg32, i: nat)
    requires i < 4 && m[i] == (a[i] as int * b[i]) % M32
    ensures AddEpi32(m, c)[i] == (a[i] * b[i] + c[i]) % M32
    ensures AddEpi32(m, c)[i] == Wrap32(Signed32(a[i]) * Signed32(b[i]) + Signed32(c[i]))
  {
    MulAddWrap(a[i], b[i], c[i], m[i], AddEpi32(m, c)[i]);
  }

  lemma MulAddWrap(x: U32, y: U32, z: U32, p: U32, r: U32)
    requires p == (x * y) % M32 && r == (p + z) % M32
    ensures r == (x * y + z) % M32
    ensures r == Wrap32(Signed32(x) * Signed32(y) + Signed32(z))
  {
    var xy: int := x as int * y;
    var sxy: int, sz: int := Signed32(x) * Signed32(y), Signed32(z);
    SignedMulWrap(x, y);
    assert xy % M32 == sxy % M32;
    ModAddCongruent(p, xy, z, M32);
    ModAddCongruent(xy, sxy, z, M32);
    ModAddCongruent(z, sz, sxy, M32);
    assert z + sxy == sxy + z && sz + sxy == sxy + sz;
  }

  /** `notMaskedToZero(a, mask)`: `mask & a`, which keeps the active lanes and clears the others. */
  function NotMaskedToZero(a: Reg32, mask: Reg32): (r: Reg32)
    ensures IsMask32(mask) ==> forall i :: 0 <= i < 4 ==> r[i] == if mask[i] == Ones32 then a[i] else 0
  {
    OnesArePow2();
    forall i | 0 <= i < 4
      ensures Bitwise(AndOp, Ones32, a[i], 32) == a[i] && Bitwise(AndOp, 0, a[i], 32) == 0
    {
      AndOnes(a[i], 32);
      AndZero(a[i], 32);
    }
    BitwiseSi(AndOp, mask, a)
  }

  /** `round(a)`: integers are already whole, so rounding returns the register unchanged. */
  function Round(a: Reg32): (r: Reg32)
    ensures r == a
  {
    a
  }

  // ------------------------------------------------------------ compares

  /** `cmpneq`: `andnot(cmpeq(a, b), allone)`. */
  function CmpNeq(a: Reg32, b: Reg32): (r: Reg32)
    ensures forall i :: 0 <= i < 4 ==> r[i] == MaskLane32(a[i] != b[i])
  {
    AndnotAlloneNegates(CmpeqEpi32(a, b));
    AndnotSi(CmpeqEpi32(a, b), SetalloneSi())
  }

  /** `cmpnlt`: `andnot(cmplt(a, b), allone)`, in the element type's order. */
  function CmpNlt(sg: Sign, a: Reg32, b: Reg32): (r: Reg32)
    ensures forall i :: 0 <= i < 4 ==> r[i] == MaskLane32(Key32(sg, a[i]) >= Key32(sg, b[i]))
  {
    AndnotAlloneNegates(CmpltEpx32(sg, a, b));
    AndnotSi(CmpltEpx32(sg, a, b), SetalloneSi())
  }

  /** `cmple`: `andnot(cmpgt(a, b), allone)`. */
  function CmpLe(sg: Sign, a: Reg32, b: Reg32): (r: Reg32)
    ensures forall i :: 0 <= i < 4 ==> r[i] == MaskLane32(Key32(sg, a[i]) <= Key32(sg, b[i]))
  {
    AndnotAlloneNegates(CmpgtEpx32(sg, a, b));
    AndnotSi(CmpgtEpx32(sg, a, b), SetalloneSi())
  }

  /** `cmpnle`: `cmpgt(a, b)`, since not less-or-equal is greater. */
  function CmpNle(sg: Sign, a: Reg32, b: Reg32): (r: Reg32)
    ensures forall i :: 0 <= i < 4 ==> r[i] == MaskLane32(!(Key32(sg, a[i]) <= Key32(sg, b[i])))
  {
    CmpgtEpx32(sg, a, b)
  }

  function Flag(b: bool): nat
  {
    if b then 1 else 0
  }

  /** In every lane exactly one of cmplt, cmpeq and cmpgt is all ones. */
  lemma CompareTrichotomy(sg: Sign, a: Reg32, b: Reg32)
    ensures forall i :: 0 <= i < 4 ==>
      Flag(CmpltEpx32(sg, a, b)[i] == Ones32) + Flag(CmpeqEpi32(a, b)[i] == Ones32) + Flag(CmpgtEpx32(sg, a, b)[i] == Ones32) == 1
  {
    forall i | 0 <= i < 4
      ensures Flag(CmpltEpx32(sg, a, b)[i] == Ones32) + Flag(CmpeqEpi32(a, b)[i] == Ones32) + Flag(CmpgtEpx32(sg, a, b)[i] == Ones32) == 1
    {
      Key32Injective(sg, a[i], b[i]);
    }
  }

  /** The derived compares are the mirror images of one another: not-less-than
      is less-or-equal with the operands swapped, not-less-or-equal is
      less-than swapped, and not-equal is symmetric. */
  lemma DerivedComparesMirror(sg: Sign, a: Reg32, b: Reg32)
    ensures CmpNlt(sg, a, b) == CmpLe(sg, b, a)
    ensures CmpNle(sg, a, b) == CmpltEpx32(sg, b, a)
    ensures CmpNeq(a, b) == CmpNeq(b, a)
  {
    var lt := CmpltEpx32(sg, b, a);
    assert forall i :: 0 <= i < 4 ==> lt[i] == MaskLane32(Key32(sg, b[i]) < Key32(sg, a[i]));
  }

  // ------------------------------------------------------------ horizontal reductions

  /** The operation a horizontal reduction folds the lanes with. */
  datatype Reduction = Sum | Product | Minimum | Maximum

  /** One lane of the combining operation. */
  function LaneOp32(sg: Sign, op: Reduction, x: U32, y: U32): U32
  {
    match op
    case Sum => (x + y) % M32
    case Product => (x * y) % M32
    case Minimum => Min32(sg, x, y)
    case Maximum => Max32(sg, x, y)
  }

  /** The register operation the reduction applies: `add`, `mul` (whose two
      forms agree, see MulFallback), `min`, `max`. */
  function Combine32(sg: Sign, op: Reduction, a: Reg32, b: Reg32): (r: Reg32)
    ensures forall i :: 0 <= i < 4 ==> r[i] == LaneOp32(sg, op, a[i], b[i])
  {
    match op
    case Sum => AddEpi32(a, b)
    case Product => MulloEpi32(a, b)
    case Minimum => MinEpx32(sg, a, b)
    case Maximum => MaxEpx32(sg, a, b)
  }

  /** `min(a)`, `max(a)`, `add(a)`, `mul(a)`: combine with the register whose
      64-bit halves are swapped, then with the one whose low two dwords are
      swapped (`shufflelo_epi16`), and take dword 0. Dword 0 then combines
      lanes 0 and 2 with lanes 1 and 3. */
  function Reduce32(sg: Sign, op: Reduction, a: Reg32): (r: U32)
    ensures r == LaneOp32(sg, op, LaneOp32(sg, op, a[0], a[2]), LaneOp32(sg, op, a[1], a[3]))
  {
    var a1 := Combine32(sg, op, a, ShuffleEpi32(a, MmShuffle(1, 0, 3, 2)));
    var a2 := Combine32(sg, op, a1, Dwords(ShuffleloEpi16(Words(a1), MmShuffle(1, 0, 3, 2))));
    ShuffleSwapHalves(a);
    ShuffleloSwapsLowDwords(a1);
    CvtsiSi32(a2)
  }

  /** The horizontal sum is the sum of the four lanes modulo 2^32. */
  lemma ReduceSum32(sg: Sign, a: Reg32)
    ensures Reduce32(sg, Sum, a) == (a[0] as int + a[1] + a[2] + a[3]) % M32
  {
    SumTree(sg, a, Reduce32(sg, Sum, a));
  }

  lemma SumTree(sg: Sign, a: Reg32, r: U32)
    requires r == LaneOp32(sg, Sum, LaneOp32(sg, Sum, a[0], a[2]), LaneOp32(sg, Sum, a[1], a[3]))
    ensures r == (a[0] as int + a[1] + a[2] + a[3]) % M32
  {
    var s02, s13 := a[0] as int + a[2], a[1] as int + a[3];
    ModAddCongruent(s02 % M32, s02, s13 % M32, M32);
    ModAddCongruent(s13 % M32, s13, s02, M32);
  }

  /** The horizontal product is the product of the four lanes modulo 2^32. */
  lemma ReduceProduct32(sg: Sign, a: Reg32)
    ensures Reduce32(sg, Product, a) == (a[0] as int * a[1] * a[2] * a[3]) % M32
  {
    ProductTree(sg, a[0], a[1], a[2], a[3]);
  }

  lemma ProductTree(sg: Sign, x0: U32, x1: U32, x2: U32, x3: U32)
    ensures LaneOp32(sg, Product, LaneOp32(sg, Product, x0, x2), LaneOp32(sg, Product, x1, x3)) == (x0 as int * x1 * x2 * x3) % M32
  {
    var p02, p13 := x0 as int * x2, x1 as int * x3;
    ProductCongruent(p02 % M32, p02, p13 % M32, p13);
    Rearrange(x0, x1, x2, x3);
  }

  lemma Rearrange(x0: int, x1: int, x2: int, x3: int)
    ensures (x0 * x2) * (x1 * x3) == x0 * x1 * x2 * x3
  {
  }

  /** The horizontal minimum is one of the lanes and no lane is smaller in the
      element type's order. */
  lemma ReduceMin32(sg: Sign, a: Reg32)
    ensures exists i :: 0 <= i < 4 && Reduce32(sg, Minimum, a) == a[i]
    ensures forall i :: 0 <= i < 4 ==> Key32(sg, Reduce32(sg, Minimum, a)) <= Key32(sg, a[i])
  {
    MinTree(sg, a);
  }

  lemma MinTree(sg: Sign, a: Reg32)
    ensures var lo := Min32(sg, Min32(sg, a[0], a[2]), Min32(sg, a[1], a[3]));
      (lo == a[0] || lo == a[1] || lo == a[2] || lo == a[3]) &&
      forall i :: 0 <= i < 4 ==> Key32(sg, lo) <= Key32(sg, a[i])
  {
    MinOfTwo(sg, a[0], a[2]);
    MinOfTwo(sg, a[1], a[3]);
    MinOfTwo(sg, Min32(sg, a[0], a[2]), Min32(sg, a[1], a[3]));
  }

  /** The horizontal maximum is one of the lanes and no lane is larger. */
  lemma ReduceMax32(sg: Sign, a: Reg32)
    ensures exists i :: 0 <= i < 4 && Reduce32(sg, Maximum, a) == a[i]
    ensures forall i :: 0 <= i < 4 ==> Key32(sg, a[i]) <= Key32(sg, Reduce32(sg, Maximum, a))
  {
    MaxTree(sg, a);
  }

  lemma MaxTree(sg: Sign, a: Reg32)
    ensures var hi := Max32(sg, Max32(sg, a[0], a[2]), Max32(sg, a[1], a[3]));
      (hi == a[0] || hi == a[1] || hi == a[2] || hi == a[3]) &&
      forall i :: 0 <= i < 4 ==> Key32(sg, a[i]) <= Key32(sg, hi)
  {
    MaxOfTwo(sg, a[0], a[2]);
    MaxOfTwo(sg, a[1], a[3]);
    MaxOfTwo(sg, Max32(sg, a[0], a[2]), Max32(sg, a[1], a[3]));
  }

  lemma MinOfTwo(sg: Sign, x: U32, y: U32)
    ensures Min32(sg, x, y) == x || Min32(sg, x, y) == y
    ensures Key32(sg, Min32(sg, x, y)) <= Key32(sg, x) && Key32(sg, Min32(sg, x, y)) <= Key32(sg, y)
  {
  }

  lemma MaxOfTwo(sg: Sign, x: U32, y: U32)
    ensures Max32(sg, x, y) == x || Max32(sg, x, y) == y
    ensures Key32(sg, x) <= Key32(sg, Max32(sg, x, y)) && Key32(sg, y) <= Key32(sg, Max32(sg, x, y))
  {
  }

  /** The int `mul(a)` without SSE4.1 multiplies the four int lanes as scalars
      (wrapping, where C++ leaves signed overflow undefined); it agrees with
      the shuffle tree the SSE4.1 path and unsigned int use. */
  function MulScalar(a: Reg32): (r: U32)
    ensures r == Reduce32(Signed, Product, a)
  {
    ReduceProduct32(Signed, a);
    SignedProductWrap(a);
    Wrap32(Signed32(a[0]) * Signed32(a[1]) * Signed32(a[2]) * Signed32(a[3]))
  }

  /** The wrapped product of the int readings of the lanes is the product of
      the unsigned readings modulo 2^32. */
  lemma SignedProductWrap(a: Reg32)
    ensures Wrap32(Signed32(a[0]) * Signed32(a[1]) * Signed32(a[2]) * Signed32(a[3])) == (a[0] as int * a[1] * a[2] * a[3]) % M32
  {
    var s0, s1, s2, s3 := Signed32(a[0]), Signed32(a[1]), Signed32(a[2]), Signed32(a[3]);
    var u0, u1, u2, u3 := a[0] as int, a[1] as int, a[2] as int, a[3] as int;
    ProductCongruent(s0, u0, s1, u1);
    ProductCongruent(s0 * s1, u0 * u1, s2, u2);
    ProductCongruent(s0 * s1 * s2, u0 * u1 * u2, s3, u3);
  }

  /** Products of factors congruent modulo 2^32 are congruent. */
  lemma ProductCongruent(x: int, x': int, y: int, y': int)
    requires x % M32 == x' % M32 && y % M32 == y' % M32
    ensures (x * y) % M32 == (x' * y') % M32
  {
    ModMulCongruent(x, x', y, M32);
    ModMulCongruent(y, y', x', M32);
    assert y * x' == x' * y && y' * x' == x' * y';
  }
}
