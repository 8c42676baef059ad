/** The per-lane variable shifts `sll` and `srl` of the SHIFT4 (32-bit
    element types) and SHIFT8 (16-bit element types) macros. The register
    and the counts are stored to lane arrays of `unsigned int` /
    `unsigned short`, each lane is shifted in place by its own count, and
    the array is read back as a register. Because the storage is unsigned,
    `srl` is a logical shift for the signed element types too. */
module Shifts {
  import opened Bits
  import opened Lanes
  import opened Intrinsics

  /** SHIFT4 `sll`: `data.i[k] <<= shifts[k]` on unsigned int lanes. A count of
      32 or more is undefined in C++ and is excluded. */
  method Sll4(v: Reg32, count: Reg32) returns (r: Reg32)
    requires forall k :: 0 <= k < 4 ==> count[k] < 32
    ensures forall k :: 0 <= k < 4 ==> r[k] == (v[k] * Pow2(count[k])) % M32
    ensures (forall k :: 0 <= k < 4 ==> count[k] == count[0]) ==> r == SlliEpi32(v, count[0])
  {
    var data := new U32[4](k requires 0 <= k < 4 => v[k]);
    for i := 0 to 4
      invariant forall k :: 0 <= k < i ==> data[k] == (v[k] * Pow2(count[k])) % M32
      invariant forall k :: i <= k < 4 ==> data[k] == v[k]
    {
      data[i] := (data[i] as int * Pow2(count[i])) % M32;
    }
    r := data[..];
  }

  /** SHIFT4 `srl`: `data.i[k] >>= shifts[k]` on unsigned int lanes. Every lane
      shifted by at least one comes back with its top bit clear, so read as a
      signed int it is never negative. */
  method Srl4(v: Reg32, count: Reg32) returns (r: Reg32)
    requires forall k :: 0 <= k < 4 ==> count[k] < 32
    ensures forall k :: 0 <= k < 4 ==> r[k] == ShiftRight(v[k], count[k])
    ensures forall k :: 0 <= k < 4 && count[k] >= 1 ==> 0 <= Signed32(r[k])
    ensures (forall k :: 0 <= k < 4 ==> count[k] == count[0]) ==> r == SrliEpi32(v, count[0])
  {
    var data := new U32[4](k requires 0 <= k < 4 => v[k]);
    for i := 0 to 4
      invariant forall k :: 0 <= k < i ==> data[k] == ShiftRight(v[k], count[k])
      invariant forall k :: i <= k < 4 ==> data[k] == v[k]
    {
      data[i] := ShiftRight(data[i], count[i]);
    }
    r := data[..];
    Pow2Values();
    forall k | 0 <= k < 4 && count[k] >= 1
      ensures r[k] < 0x8000_0000
    {
      LogicalShiftClearsTop(v[k], 32, count[k]);
    }
  }

  /** SHIFT8 `sll`: `data.i[k] <<= shifts[k]` on unsigned short lanes. The lane
      is promoted to int first, so a count of 16 or more can overflow int
      (undefined in C++) and is excluded. */
  method Sll8(v: Reg16, count: Reg16) returns (r: Reg16)
    requires forall k :: 0 <= k < 8 ==> count[k] < 16
    ensures forall k :: 0 <= k < 8 ==> r[k] == (v[k] * Pow2(count[k])) % M16
    ensures (forall k :: 0 <= k < 8 ==> count[k] == count[0]) ==> r == SlliEpi16(v, count[0])
  {
    var data := new U16[8](k requires 0 <= k < 8 => v[k]);
    for i := 0 to 8
      invariant forall k :: 0 <= k < i ==> data[k] == (v[k] * Pow2(count[k])) % M16
      invariant forall k :: i <= k < 8 ==> data[k] == v[k]
    {
      data[i] := (data[i] as int * Pow2(count[i])) % M16;
    }
    r := data[..];
  }

  /** SHIFT8 `srl`: `data.i[k] >>= shifts[k]` on unsigned short lanes, shifted
      as a promoted int; counts of 16 to 31 clear the lane. */
  method Srl8(v: Reg16, count: Reg16) returns (r: Reg16)
    requires forall k :: 0 <= k < 8 ==> count[k] < 32
    ensures forall k :: 0 <= k < 8 ==> r[k] == ShiftRight(v[k], count[k])
    ensures forall k :: 0 <= k < 8 && count[k] >= 1 ==> 0 <= Signed16(r[k])
    ensures forall k :: 0 <= k < 8 && count[k] >= 16 ==> r[k] == 0
    ensures (forall k :: 0 <= k < 8 ==> count[k] == count[0]) ==> r == SrliEpi16(v, count[0])
  {
    var data := new U16[8](k requires 0 <= k < 8 => v[k]);
    for i := 0 to 8
      invariant forall k :: 0 <= k < i ==> data[k] == ShiftRight(v[k], count[k])
      invariant forall k :: i <= k < 8 ==> data[k] == v[k]
    {
      data[i] := ShiftRight(data[i], count[i]);
    }
    r := data[..];
    Pow2Values();
    forall k | 0 <= k < 8 && count[k] >= 1
      ensures r[k] < 0x8000
    {
      if count[k] <= 16 {
        LogicalShiftClearsTop(v[k], 16, count[k]);
      } else {
        ShiftRightBound(v[k], 16, 16);
        ShiftRightOfZero(ShiftRight(v[k], 16), count[k] - 16);
        ShiftRightAdd(v[k], 16, count[k] - 16);
      }
    }
    forall k | 0 <= k < 8 && count[k] >= 16
      ensures r[k] == 0
    {
      ShiftRightBound(v[k], 16, 16);
      assert ShiftRight(v[k], 16) == 0 by {
        assert Pow2(0) == 1;
      }
      ShiftRightOfZero(ShiftRight(v[k], 16), count[k] - 16);
      ShiftRightAdd(v[k], 16, count[k] - 16);
    }
  }

  // ------------------------------------------------------------ facts about the lane shifts

  /** A logical right shift by at least one of an n-bit value leaves its top bit clear. */
  lemma LogicalShiftClearsTop(x: nat, n: nat, c: nat)
    requires x < Pow2(n) && 1 <= c <= n
    ensures ShiftRight(x, c) < Pow2(n - 1)
  {
    ShiftRightBound(x, n, c);
    Pow2Mono(n - c, n - 1);
  }

  lemma {:induction false} Pow2Mono(a: nat, b: nat)
    requires a <= b
    ensures Pow2(a) <= Pow2(b)
  {
    if a < b {
      Pow2Mono(a, b - 1);
    }
  }

  /** Shifting by c and then by d is shifting by c + d. */
  lemma {:induction false} ShiftRightAdd(x: nat, c: nat, d: nat)
    ensures ShiftRight(ShiftRight(x, c), d) == ShiftRight(x, c + d)
  {
    if c > 0 {
      ShiftRightAdd(x / 2, c - 1, d);
    }
  }

  lemma {:induction false} ShiftRightOfZero(x: nat, c: nat)
    requires x == 0
    ensures ShiftRight(x, c) == 0
  {
    if c > 0 {
      ShiftRightOfZero(x / 2, c - 1);
    }
  }

  /** srl undoes sll when no bit was shifted out: a lane below 2^(32-c) shifted
      left and then right by c comes back unchanged. */
  lemma SllThenSrl32(x: U32, c: nat)
    requires c < 32 && x < Pow2(32 - c)
    ensures ShiftRight((x * Pow2(c)) % M32, c) == x
  {
    var y := x * Pow2(c);
    assert y < M32 by {
      Pow2Split32(c);
      ProductBelow(x, Pow2(c), Pow2(32 - c), M32);
    }
    DivModUnique(y, y, 0, M32);
    ShiftRightMul(x, c);
  }

  lemma Pow2Split32(c: nat)
    requires c <= 32
    ensures Pow2(c) * Pow2(32 - c) == M32
  {
    var k := 32 - c;
    Pow2Add(k, c);
    assert Pow2(k + c) == Pow2(32);
    Pow2Values();
    assert Pow2(k) * Pow2(c) == Pow2(c) * Pow2(k);
  }

  lemma ProductBelow(x: nat, p: nat, q: nat, m: nat)
    requires x < q && p * q == m
    ensures x * p < m || p == 0
  {
    MulLe(p, x + 1, q);
  }

  /** Shifting x * 2^c right by c gives x. */
  lemma {:induction false} ShiftRightMul(x: nat, c: nat)
    ensures ShiftRight(x * Pow2(c), c) == x
  {
    if c > 0 {
      assert x * Pow2(c) == 2 * (x * Pow2(c - 1));
      assert (x * Pow2(c)) / 2 == x * Pow2(c - 1);
      ShiftRightMul(x, c - 1);
    }
  }

  /** srl is not the arithmetic shift: on a negative int lane and a count of at
      least one, srl gives a non-negative value and srai a negative one. */
  lemma SrlIsNotSrai(x: U32, c: nat)
    requires Signed32(x) < 0 && 1 <= c < 32
    ensures 0 <= Signed32(ShiftRight(x, c))
    ensures Signed32(SraiEpi32([x, x, x, x], c)[0]) < 0
  {
    Pow2Values();
    LogicalShiftClearsTop(x, 32, c);
    var q := Signed32(x) / Pow2(c);
    assert q < 0;
    assert -0x8000_0000 <= q by {
      DivNegBound(Signed32(x), Pow2(c));
    }
    assert SraiEpi32([x, x, x, x], c)[0] == Wrap32(q);
  }

  /** Floor division of a negative value by a positive one stays between the value and -1. */
  lemma DivNegBound(v: int, d: nat)
    requires v < 0 && d >= 1
    ensures v <= v / d < 0
  {
    var q, r := v / d, v % d;
    assert v == d * q + r && 0 <= r < d;
    if q >= 0 {
      MulLe(d, 0, q);
    }
    if q < v {
      MulLe(-(q + 1), 1, d);
    }
  }
}
