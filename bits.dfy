/** Arithmetic view of bit patterns: powers of two, bit tests and the
    bitwise operations of a SIMD register lane, defined on the unsigned
    value of the pattern. */
module Bits {

  /** 2 raised to the power n. */
  function Pow2(n: nat): (r: nat)
    ensures r >= 1
  {
    if n == 0 then 1 else 2 * Pow2(n - 1)
  }

  lemma {:induction false} Pow2Add(a: nat, b: nat)
    ensures Pow2(a + b) == Pow2(a) * Pow2(b)
  {
    if a > 0 {
      Pow2Add(a - 1, b);
      assert Pow2(a + b) == 2 * Pow2(a - 1 + b);
    }
  }

  lemma Pow2Values()
    ensures Pow2(8) == 0x100 && Pow2(16) == 0x1_0000 && Pow2(32) == 0x1_0000_0000
  {
    assert Pow2(2) == 4;
    Pow2Add(2, 2);
    Pow2Add(4, 4);
    Pow2Add(8, 8);
    Pow2Add(16, 16);
  }

  /** The logical right shift `x >> c`: c halvings, rounding down. */
  function ShiftRight(x: nat, c: nat): (r: nat)
    ensures r <= x
  {
    if c == 0 then x else ShiftRight(x / 2, c - 1)
  }

  /** Shifting an n-bit value right by c leaves an (n - c)-bit value. */
  lemma {:induction false} ShiftRightBound(x: nat, n: nat, c: nat)
    requires x < Pow2(n) && c <= n
    ensures ShiftRight(x, c) < Pow2(n - c)
  {
    if c > 0 {
      ShiftRightBound(x / 2, n - 1, c - 1);
    }
  }

  /** Shifting lo + 2^c * hi right by c, with lo below 2^c, leaves hi. */
  lemma {:induction false} ShiftRightSplit(lo: nat, hi: nat, c: nat)
    requires lo < Pow2(c)
    ensures ShiftRight(lo + Pow2(c) * hi, c) == hi
  {
    if c > 0 {
      assert Pow2(c) * hi == 2 * (Pow2(c - 1) * hi);
      assert (lo + Pow2(c) * hi) / 2 == lo / 2 + Pow2(c - 1) * hi;
      ShiftRightSplit(lo / 2, hi, c - 1);
    }
  }

  lemma MulLe(a: nat, b: nat, c: nat)
    requires b <= c
    ensures a * b <= a * c
  {
  }

  /** A number written as lo + d * hi with 0 <= lo < d has remainder lo and quotient hi. */
  lemma DivModUnique(x: int, lo: int, hi: int, d: int)
    requires 0 <= lo < d && x == lo + d * hi
    ensures x % d == lo && x / d == hi
  {
    var q, r := x / d, x % d;
    assert d * (q - hi) == lo - r;
    if q > hi {
      MulLe(d, 1, q - hi);
    } else if q < hi {
      MulLe(d, 1, hi - q);
    }
  }
  /** Adding a multiple of m does not change the remainder modulo m. */
  lemma ModAddMul(t: int, k: int, m: int)
    requires m > 0
    ensures (t + m * k) % m == t % m
  {
    var q := t / m;
    assert t + m * k == t % m + m * (q + k);
    DivModUnique(t + m * k, t % m, q + k, m);
  }
  lemma ModCongruent(x: int, y: int, m: int)
    requires m > 0 && x % m == y % m
    ensures x - y == m * (x / m - y / m)
  {
  }
  /** Congruent factors give congruent products and sums. */
  lemma ModMulCongruent(x: int, x': int, y: int, m: int)
    requires m > 0 && x % m == x' % m
    ensures (x * y) % m == (x' * y) % m
  {
    var k := x / m - x' / m;
    ModCongruent(x, x', m);
    assert x * y == x' * y + m * (k * y) by {
      assert x == x' + m * k;
      calc {
        x * y;
        (x' + m * k) * y;
        x' * y + (m * k) * y;
        x' * y + m * (k * y);
      }
    }
    ModAddMul(x' * y, k * y, m);
  }
  lemma ModAddCongruent(x: int, x': int, y: int, m: int)
    requires m > 0 && x % m == x' % m
    ensures (x + y) % m == (x' + y) % m
  {
    var k := x / m - x' / m;
    ModCongruent(x, x', m);
    ModAddMul(x' + y, k, m);
  }

  /** Bit k of x (bit 0 is the least significant). */
  function Bit(x: nat, k: nat): (b: nat)
    ensures b < 2
  {
    if k == 0 then x % 2 else Bit(x / 2, k - 1)
  }

  /** `x & (1 << k)` is non-zero. */
  predicate HasBit(x: nat, k: nat)
  {
    Bit(x, k) == 1
  }

  /** The bit-level operations the register instructions combine lanes with. */
  datatype BitOp = AndOp | OrOp | XorOp

  function ApplyBit(op: BitOp, p: nat, q: nat): (b: nat)
    requires p < 2 && q < 2
    ensures b < 2
  {
    match op
    case AndOp => if p == 1 && q == 1 then 1 else 0
    case OrOp => if p == 1 || q == 1 then 1 else 0
    case XorOp => if p != q then 1 else 0
  }

  /** The n-bit result of combining x and y bit by bit with op. */
  function Bitwise(op: BitOp, x: nat, y: nat, n: nat): (r: nat)
    ensures r < Pow2(n)
  {
    if n == 0 then 0
    else ApplyBit(op, x % 2, y % 2) + 2 * Bitwise(op, x / 2, y / 2, n - 1)
  }

  /** The n-bit complement of x (`~x`). */
  function Not(x: nat, n: nat): (r: nat)
    requires x < Pow2(n)
    ensures r < Pow2(n) && x + r == Pow2(n) - 1
  {
    Pow2(n) - 1 - x
  }

  /** `andnot(a, b) == ~a & b`. */
  function AndNot(x: nat, y: nat, n: nat): (r: nat)
    requires x < Pow2(n)
    ensures r < Pow2(n)
  {
    Bitwise(AndOp, Not(x, n), y, n)
  }

  /** Every bit of a bitwise result is op applied to the same bit of the operands. */
  lemma {:induction false} BitwiseBit(op: BitOp, x: nat, y: nat, n: nat, k: nat)
    requires k < n
    ensures Bit(Bitwise(op, x, y, n), k) == ApplyBit(op, Bit(x, k), Bit(y, k))
  {
    var r := Bitwise(op, x, y, n);
    assert r / 2 == Bitwise(op, x / 2, y / 2, n - 1);
    if k > 0 {
      BitwiseBit(op, x / 2, y / 2, n - 1, k - 1);
    }
  }

  /** Complement flips every bit: it is xor with the all-ones pattern. */
  lemma {:induction false} NotIsXorOnes(x: nat, n: nat)
    requires x < Pow2(n)
    ensures Bitwise(XorOp, x, Pow2(n) - 1, n) == Not(x, n)
  {
    if n > 0 {
      assert (Pow2(n) - 1) / 2 == Pow2(n - 1) - 1;
      NotIsXorOnes(x / 2, n - 1);
    }
  }

  /** Every one of the n low bits of 2^n - 1 is set. */
  lemma {:induction false} OnesBit(n: nat, k: nat)
    requires k < n
    ensures Bit(Pow2(n) - 1, k) == 1
  {
    assert (Pow2(n) - 1) % 2 == 1 && (Pow2(n) - 1) / 2 == Pow2(n - 1) - 1;
    if k > 0 {
      OnesBit(n - 1, k - 1);
    }
  }

  /** Complement flips bit k. */
  lemma NotBit(x: nat, n: nat, k: nat)
    requires x < Pow2(n) && k < n
    ensures Bit(Not(x, n), k) == 1 - Bit(x, k)
  {
    NotIsXorOnes(x, n);
    BitwiseBit(XorOp, x, Pow2(n) - 1, n, k);
    OnesBit(n, k);
  }

  /** Bit k of `~x & y` is set exactly when bit k of x is clear and bit k of y is set. */
  lemma AndNotBit(x: nat, y: nat, n: nat, k: nat)
    requires x < Pow2(n) && k < n
    ensures Bit(AndNot(x, y, n), k) == ApplyBit(AndOp, 1 - Bit(x, k), Bit(y, k))
  {
    NotBit(x, n, k);
    BitwiseBit(AndOp, Not(x, n), y, n, k);
  }

  lemma {:induction false} AndOnes(y: nat, n: nat)
    requires y < Pow2(n)
    ensures Bitwise(AndOp, Pow2(n) - 1, y, n) == y
    ensures Bitwise(AndOp, y, Pow2(n) - 1, n) == y
  {
    if n > 0 {
      assert (Pow2(n) - 1) / 2 == Pow2(n - 1) - 1;
      AndOnes(y / 2, n - 1);
    }
  }

  lemma {:induction false} AndZero(y: nat, n: nat)
    ensures Bitwise(AndOp, 0, y, n) == 0
    ensures Bitwise(AndOp, y, 0, n) == 0
  {
    if n > 0 {
      AndZero(y / 2, n - 1);
    }
  }

  lemma {:induction false} OrZero(x: nat, n: nat)
    requires x < Pow2(n)
    ensures Bitwise(OrOp, x, 0, n) == x
    ensures Bitwise(OrOp, 0, x, n) == x
  {
    if n > 0 {
      OrZero(x / 2, n - 1);
    }
  }

  /** The bitwise select `(m & p) | (~m & a)` picks p when m is all ones and a when m is zero. */
  lemma SelectByMask(m: nat, p: nat, a: nat, n: nat)
    requires m == 0 || m == Pow2(n) - 1
    requires p < Pow2(n) && a < Pow2(n)
    ensures Bitwise(OrOp, Bitwise(AndOp, m, p, n), AndNot(m, a, n), n) == if m == 0 then a else p
  {
    if m == 0 {
      AndZero(p, n);
      AndOnes(a, n);
      OrZero(a, n);
    } else {
      AndOnes(p, n);
      AndZero(a, n);
      OrZero(p, n);
    }
  }

  /** The n-bit lane of a mask: all ones when b holds, all zeros otherwise. */
  function MaskOf(b: bool, n: nat): (x: nat)
    ensures x < Pow2(n)
  {
    if b then Pow2(n) - 1 else 0
  }

  /** The boolean connective a bitwise operation computes on mask lanes. */
  function ApplyBool(op: BitOp, p: bool, q: bool): bool
  {
    match op
    case AndOp => p && q
    case OrOp => p || q
    case XorOp => p != q
  }

  /** On mask lanes, the bitwise operations are the boolean connectives. */
  lemma {:induction false} BitwiseOnMasks(op: BitOp, p: bool, q: bool, n: nat)
    ensures Bitwise(op, MaskOf(p, n), MaskOf(q, n), n) == MaskOf(ApplyBool(op, p, q), n)
  {
    if n > 0 {
      assert (Pow2(n) - 1) % 2 == 1 && (Pow2(n) - 1) / 2 == Pow2(n - 1) - 1;
      assert MaskOf(p, n) / 2 == MaskOf(p, n - 1) && MaskOf(q, n) / 2 == MaskOf(q, n - 1);
      BitwiseOnMasks(op, p, q, n - 1);
    }
  }

  /** The complement of a mask lane is the mask of the negation. */
  lemma NotMask(p: bool, n: nat)
    ensures Not(MaskOf(p, n), n) == MaskOf(!p, n)
  {
  }

  /** `andnot(x, allone)` is the complement of x. */
  lemma AndNotOnes(x: nat, n: nat)
    requires x < Pow2(n)
    ensures AndNot(x, Pow2(n) - 1, n) == Not(x, n)
  {
    AndOnes(Not(x, n), n);
  }

  /** Set-bit masks `1 << k` as sums: bit k of a sum of distinct single bits. */
  function PackBits(bits: seq<bool>): (r: nat)
    ensures r < Pow2(|bits|)
  {
    if bits == [] then 0
    else (if bits[0] then 1 else 0) + 2 * PackBits(bits[1..])
  }

  /** Bit k of the packed sequence is element k. */
  lemma {:induction false} PackBitsBit(bits: seq<bool>, k: nat)
    requires k < |bits|
    ensures HasBit(PackBits(bits), k) <==> bits[k]
  {
    if k > 0 {
      PackBitsBit(bits[1..], k - 1);
    }
  }
}
