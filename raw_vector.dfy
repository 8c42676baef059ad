/** `VectorHelper<_M256I>`: the helper for a raw integer register. It loads
    and stores whole registers, stores under a byte mask, and offers the
    bitwise operations and the byte-wise blend the element-type helpers
    build on. Memory is a byte array; a register occupies sixteen bytes of
    it starting at an offset. */
module RawVector {
  import opened Bits
  import opened Lanes
  import opened Intrinsics

  // ------------------------------------------------------------ memory

  /** `load` / `loadUnaligned`: the register the sixteen bytes at `mem[off..]` hold. */
  function Load(mem: array<Byte>, off: nat): (r: Reg32)
    requires off + 16 <= mem.Length
    reads mem
    ensures Bytes(r) == mem[off..off + 16]
  {
    BytesFromBytes(mem[off..off + 16]);
    FromBytes(mem[off..off + 16])
  }

  /** Memory after the register x has been written at offset off. */
  function StoreBytes(mem: seq<Byte>, off: nat, x: Reg32): (m: seq<Byte>)
    requires off + 16 <= |mem|
    ensures |m| == |mem|
  {
    mem[..off] + Bytes(x) + mem[off + 16..]
  }

  /** Memory after `_mm256_maskmoveu_si256(x, m, mem + off)`: the window of
      sixteen bytes becomes the byte-wise blend of its old bytes with x. */
  function MaskedStoreBytes(mem: seq<Byte>, off: nat, x: Reg32, m: Reg32): (r: seq<Byte>)
    requires off + 16 <= |mem|
    ensures |r| == |mem|
  {
    mem[..off] + BlendBytes(mem[off..off + 16], Bytes(x), Bytes(m)) + mem[off + 16..]
  }

  /** `store` / `storeUnaligned` / `storeStreaming`: the sixteen bytes of x
      replace the window; a load from the same place gives x back. */
  method Store(mem: array<Byte>, off: nat, x: Reg32)
    requires off + 16 <= mem.Length
    modifies mem
    ensures mem[..] == StoreBytes(old(mem[..]), off, x)
    ensures Load(mem, off) == x
  {
    var bs := Bytes(x);
    forall k | 0 <= k < 16 {
      mem[off + k] := bs[k];
    }
    assert mem[..] == StoreBytes(old(mem[..]), off, x) by {
      var s := StoreBytes(old(mem[..]), off, x);
      forall k | 0 <= k < mem.Length
        ensures mem[k] == s[k]
      {
        if off <= k < off + 16 {
          assert s[k] == bs[k - off];
        }
      }
    }
    assert mem[off..off + 16] == bs;
    FromBytesBytes(x);
  }

  /** `storeUnaligned(mem, x, m)`: writes byte k of x to `mem[off + k]` exactly
      when byte k of the mask has its top bit set. */
  method MaskedStore(mem: array<Byte>, off: nat, x: Reg32, m: Reg32)
    requires off + 16 <= mem.Length
    modifies mem
    ensures mem[..] == MaskedStoreBytes(old(mem[..]), off, x, m)
  {
    var xb, mb := Bytes(x), Bytes(m);
    forall k | 0 <= k < 16 && mb[k] >= 0x80 {
      mem[off + k] := xb[k];
    }
    var s := MaskedStoreBytes(old(mem[..]), off, x, m);
    forall k | 0 <= k < mem.Length
      ensures mem[k] == s[k]
    {
      MaskedStoreByte(old(mem[..]), off, x, m, k);
    }
  }

  /** Byte by byte: the masked store writes exactly the bytes inside the
      window whose mask byte has its top bit set, and nothing else. */
  lemma MaskedStoreByte(mem: seq<Byte>, off: nat, x: Reg32, m: Reg32, k: nat)
    requires off + 16 <= |mem| && k < |mem|
    ensures MaskedStoreBytes(mem, off, x, m)[k] ==
      if off <= k < off + 16 && Bytes(m)[k - off] >= 0x80 then Bytes(x)[k - off] else mem[k]
  {
    var w := BlendBytes(mem[off..off + 16], Bytes(x), Bytes(m));
    assert MaskedStoreBytes(mem, off, x, m) == mem[..off] + w + mem[off + 16..];
    if k < off {
    } else if k < off + 16 {
      assert MaskedStoreBytes(mem, off, x, m)[k] == w[k - off];
    } else {
      assert MaskedStoreBytes(mem, off, x, m)[k] == mem[off + 16..][k - off - 16];
    }
  }

  /** With the all-ones mask the masked store is a plain store. */
  lemma MaskedStoreAllOnes(mem: seq<Byte>, off: nat, x: Reg32)
    requires off + 16 <= |mem|
    ensures MaskedStoreBytes(mem, off, x, SetalloneSi()) == StoreBytes(mem, off, x)
  {
    var r, s := MaskedStoreBytes(mem, off, x, SetalloneSi()), StoreBytes(mem, off, x);
    forall k | 0 <= k < |mem|
      ensures r[k] == s[k]
    {
      MaskedStoreByte(mem, off, x, SetalloneSi(), k);
      if off <= k < off + 16 {
        UniformBytes(Ones32, k - off);
        MaskLaneBytes(Ones32);
        assert s[k] == Bytes(x)[k - off];
      }
    }
  }

  /** With the zero mask the masked store leaves memory unchanged. */
  lemma MaskedStoreZero(mem: seq<Byte>, off: nat, x: Reg32)
    requires off + 16 <= |mem|
    ensures MaskedStoreBytes(mem, off, x, SetzeroSi()) == mem
  {
    var r := MaskedStoreBytes(mem, off, x, SetzeroSi());
    forall k | 0 <= k < |mem|
      ensures r[k] == mem[k]
    {
      MaskedStoreByte(mem, off, x, SetzeroSi(), k);
      if off <= k < off + 16 {
        UniformBytes(0, k - off);
        MaskLaneBytes(0);
      }
    }
  }

  /** A masked store is a plain store of the blend of the old contents with x;
      so for a well-formed mask, lane j of the window becomes x[j] where the
      mask lane is all ones and keeps its old value where it is zero. */
  lemma MaskedStoreIsBlend(mem: seq<Byte>, off: nat, x: Reg32, m: Reg32)
    requires off + 16 <= |mem|
    ensures MaskedStoreBytes(mem, off, x, m) == StoreBytes(mem, off, BlendvEpi8(FromBytes(mem[off..off + 16]), x, m))
    ensures IsMask32(m) ==> forall j :: 0 <= j < 4 ==>
      FromBytes(MaskedStoreBytes(mem, off, x, m)[off..off + 16])[j] ==
        if m[j] == Ones32 then x[j] else FromBytes(mem[off..off + 16])[j]
  {
    var win := mem[off..off + 16];
    var prev := FromBytes(win);
    BytesFromBytes(win);
    var bl := BlendBytes(win, Bytes(x), Bytes(m));
    BytesFromBytes(bl);
    assert BlendvEpi8(prev, x, m) == FromBytes(bl);
    assert MaskedStoreBytes(mem, off, x, m)[off..off + 16] == bl;
    if IsMask32(m) {
      BlendvSelectsLanes(prev, x, m);
    }
  }

  // ------------------------------------------------------------ bitwise operations and blend

  /** `or_`, `xor_`, `and_`, `andnot_`: on any registers they combine the lanes
      bit by bit (`andnot(a, b)` is `~a & b`); on well-formed masks they are the
      lane-wise boolean connectives (`andnot(a, b)` is `!a && b`). */
  function OrReg(a: Reg32, b: Reg32): (r: Reg32)
    ensures forall i, k: nat :: 0 <= i < 4 && k < 32 ==> Bit(r[i], k) == ApplyBit(OrOp, Bit(a[i], k), Bit(b[i], k))
    ensures IsMask32(a) && IsMask32(b) ==> forall i :: 0 <= i < 4 ==> r[i] == MaskLane32(a[i] == Ones32 || b[i] == Ones32)
  {
    MaskConnective(OrOp, a, b);
    RegisterBits(OrOp, a, b);
    BitwiseSi(OrOp, a, b)
  }

  function XorReg(a: Reg32, b: Reg32): (r: Reg32)
    ensures forall i, k: nat :: 0 <= i < 4 && k < 32 ==> Bit(r[i], k) == ApplyBit(XorOp, Bit(a[i], k), Bit(b[i], k))
    ensures IsMask32(a) && IsMask32(b) ==> forall i :: 0 <= i < 4 ==> r[i] == MaskLane32((a[i] == Ones32) != (b[i] == Ones32))
  {
    MaskConnective(XorOp, a, b);
    RegisterBits(XorOp, a, b);
    BitwiseSi(XorOp, a, b)
  }

  function AndReg(a: Reg32, b: Reg32): (r: Reg32)
    ensures forall i, k: nat :: 0 <= i < 4 && k < 32 ==> Bit(r[i], k) == ApplyBit(AndOp, Bit(a[i], k), Bit(b[i], k))
    ensures IsMask32(a) && IsMask32(b) ==> forall i :: 0 <= i < 4 ==> r[i] == MaskLane32(a[i] == Ones32 && b[i] == Ones32)
  {
    MaskConnective(AndOp, a, b);
    RegisterBits(AndOp, a, b);
    BitwiseSi(AndOp, a, b)
  }

  function AndNotReg(a: Reg32, b: Reg32): (r: Reg32)
    ensures forall i, k: nat :: 0 <= i < 4 && k < 32 ==> Bit(r[i], k) == ApplyBit(AndOp, 1 - Bit(a[i], k), Bit(b[i], k))
    ensures IsMask32(a) && IsMask32(b) ==> forall i :: 0 <= i < 4 ==> r[i] == MaskLane32(a[i] != Ones32 && b[i] == Ones32)
  {
    MaskAndNot(a, b);
    RegisterAndNotBits(a, b);
    AndnotSi(a, b)
  }

  lemma MaskAndNot(a: Reg32, b: Reg32)
    ensures IsMask32(a) && IsMask32(b) ==> forall i :: 0 <= i < 4 ==> AndnotSi(a, b)[i] == MaskLane32(a[i] != Ones32 && b[i] == Ones32)
  {
    if IsMask32(a) && IsMask32(b) {
      forall i | 0 <= i < 4
        ensures AndnotSi(a, b)[i] == MaskLane32(a[i] != Ones32 && b[i] == Ones32)
      {
        OnesArePow2();
        var p, q := a[i] == Ones32, b[i] == Ones32;
        assert a[i] == MaskOf(p, 32) && b[i] == MaskOf(q, 32);
        NotMask(p, 32);
        BitwiseOnMasks(AndOp, !p, q, 32);
      }
    }
  }

  /** Lane i of a bitwise operation on two masks is the mask of the connective. */
  lemma MaskConnective(op: BitOp, a: Reg32, b: Reg32)
    ensures IsMask32(a) && IsMask32(b) ==> forall i :: 0 <= i < 4 ==>
      BitwiseSi(op, a, b)[i] == MaskLane32(ApplyBool(op, a[i] == Ones32, b[i] == Ones32))
  {
    if IsMask32(a) && IsMask32(b) {
      forall i | 0 <= i < 4
        ensures BitwiseSi(op, a, b)[i] == MaskLane32(ApplyBool(op, a[i] == Ones32, b[i] == Ones32))
      {
        OnesArePow2();
        var p, q := a[i] == Ones32, b[i] == Ones32;
        assert a[i] == MaskOf(p, 32) && b[i] == MaskOf(q, 32);
        BitwiseOnMasks(op, p, q, 32);
      }
    }
  }

  /** Bit k of lane i of a bitwise register operation is op on bit k of lane i of the operands. */
  lemma RegisterBits(op: BitOp, a: Reg32, b: Reg32)
    ensures forall i, k: nat :: 0 <= i < 4 && k < 32 ==> Bit(BitwiseSi(op, a, b)[i], k) == ApplyBit(op, Bit(a[i], k), Bit(b[i], k))
  {
    forall i, k: nat | 0 <= i < 4 && k < 32
      ensures Bit(BitwiseSi(op, a, b)[i], k) == ApplyBit(op, Bit(a[i], k), Bit(b[i], k))
    {
      BitwiseBit(op, a[i], b[i], 32, k);
    }
  }

  lemma RegisterAndNotBits(a: Reg32, b: Reg32)
    ensures forall i, k: nat :: 0 <= i < 4 && k < 32 ==> Bit(AndnotSi(a, b)[i], k) == ApplyBit(AndOp, 1 - Bit(a[i], k), Bit(b[i], k))
  {
    OnesArePow2();
    forall i, k: nat | 0 <= i < 4 && k < 32
      ensures Bit(AndnotSi(a, b)[i], k) == ApplyBit(AndOp, 1 - Bit(a[i], k), Bit(b[i], k))
    {
      AndNotBit(a[i], b[i], 32, k);
    }
  }

  /** `blend(a, b, c)`: for a well-formed mask c, lane i is b[i] where c is set and a[i] elsewhere. */
  function Blend(a: Reg32, b: Reg32, c: Reg32): (r: Reg32)
    ensures IsMask32(c) ==> forall i :: 0 <= i < 4 ==> r[i] == if c[i] == Ones32 then b[i] else a[i]
  {
    if IsMask32(c) then
      BlendvSelectsLanes(a, b, c);
      BlendvEpi8(a, b, c)
    else
      BlendvEpi8(a, b, c)
  }
}
