# Integer vector helpers of the AVX backend, verified in Dafny

This project models the integer half of the per-element-type operation table in
`avx/vectorhelper.h` and proves what each operation computes. The table covers
`VectorHelper<int>`, `VectorHelper<unsigned int>`, `VectorHelper<signed short>`
and `VectorHelper<unsigned short>`, plus the raw-register helper
`VectorHelper<_M256I>`.

A register is modelled at the width its scalar fallbacks fix:

- four 32-bit lanes (`Reg32`) for `int` and `unsigned int`;
- eight 16-bit lanes (`Reg16`) for `short` and `unsigned short`.

A lane holds a bit pattern, kept as its unsigned value. The signed element
types read the same pattern in two's complement (`Signed32`, `Signed16`). A
mask is a register whose lanes are all ones or all zeros. Each SSE/AVX
intrinsic the helpers call is a small function with its documented lane
semantics (module `Intrinsics`). The bitwise operations are defined on the
binary digits of the lane (module `Bits`).

Modules:

- `Lanes`: lanes, registers, the signed reading, the word/dword/byte views of
  one register, and `Cell`, a reference to a register.
- `Intrinsics`: the intrinsics and their lane-level facts.
- `RawVector`: load, store, masked store, bitwise operations and blend of a
  raw register. Memory is an array of bytes.
- `Shifts`: the per-lane variable shifts of the SHIFT4 and SHIFT8 macros.
  These are methods that shift a lane array in place.
- `Helper32`: `int` and `unsigned int`. Where the two share a member, the
  element type is a `Sign` parameter. It selects the order of compares,
  minima and maxima, and signed (truncating) or unsigned division.
  `multiplyAndAdd` exists for `int` only. Without SSE4.1, `int`'s horizontal
  product is a scalar product, modelled separately as `MulScalar`. The
  SSE4.1 switch is a `sse41` parameter.
- `Helper16`: `signed short` and `unsigned short`, plus `expand0`, `expand1`
  and `concat`. `Sign` selects the same order and division as for 32 bits,
  and also sign or zero extension in `expand0`/`expand1` (`srai` or `srli`)
  and the saturation of `concat` (`packs` or `packus`). `multiplyAndAdd`
  exists for `short` only.

The masked division of `unsigned int`, `short` and `unsigned short` copies
the register into a lane array and divides the active lanes in place; the
unmasked division fills a fresh lane array with the quotients. Both are
modelled as methods with a loop. `multiplyAndAdd` overwrites its first argument through a
reference, so it is a method that modifies a `Cell`.

C++ integer division truncates toward zero; Dafny's `/` does not, so
`Helper32.TruncDiv` defines it by magnitudes.

## Model

| member | source | states |
|---|---|---|
| RawVector.Load | avx/vectorhelper.h:167-168 | the loaded register's sixteen bytes are the memory window at the offset |
| RawVector.Store | avx/vectorhelper.h:169-170 | memory becomes the old memory with the window replaced by the register's bytes, and loading from the same place gives the register back |
| RawVector.MaskedStore | avx/vectorhelper.h:171-173 | memory becomes the old memory with the window blended byte-wise with the register |
| RawVector.MaskedStoreByte | avx/vectorhelper.h:171-173 | byte k after the masked store is the register's byte where k is in the window and its mask byte has the top bit set; every other byte of the buffer is unchanged |
| RawVector.MaskedStoreAllOnes | avx/vectorhelper.h:171-173 | with the all-ones mask the masked store is the plain store |
| RawVector.MaskedStoreZero | avx/vectorhelper.h:171-173 | with the zero mask the masked store leaves memory unchanged |
| RawVector.MaskedStoreIsBlend | avx/vectorhelper.h:171-173 | the masked store is a plain store of the blend of the old window with the register; for a well-formed mask, lane j of the window becomes the register's lane where the mask lane is all ones and keeps its old value where it is zero |
| RawVector.OrReg | avx/vectorhelper.h:177 | on any registers, bit k of lane i is set exactly when bit k of a[i] or of b[i] is set; on two masks, each lane is the mask of "either lane set" |
| RawVector.XorReg | avx/vectorhelper.h:178 | on any registers, bit k of lane i is set exactly when bits k of a[i] and b[i] differ; on two masks, each lane is the mask of "exactly one lane set" |
| RawVector.AndReg | avx/vectorhelper.h:179 | on any registers, bit k of lane i is set exactly when bit k is set in both a[i] and b[i]; on two masks, each lane is the mask of "both lanes set" |
| RawVector.AndNotReg | avx/vectorhelper.h:180 | on any registers, `~a & b`: bit k of lane i is set exactly when bit k of a[i] is clear and bit k of b[i] is set; on two masks, each lane is the mask of "first lane clear and second set" |
| RawVector.Blend | avx/vectorhelper.h:181 | for a well-formed mask c, lane i is b[i] where c[i] is all ones and a[i] where it is zero |
| Shifts.Sll4 | avx/vectorhelper.h:208-217 | each lane becomes its own value times 2^count[k] modulo 2^32; with a uniform count it equals `slli_epi32` |
| Shifts.Srl4 | avx/vectorhelper.h:219-227 | each lane is shifted right logically by its own count; a lane shifted by at least one reads as a non-negative int; with a uniform count it equals `srli_epi32` |
| Shifts.Sll8 | avx/vectorhelper.h:230-242 | each lane becomes its own value times 2^count[k] modulo 2^16; with a uniform count it equals `slli_epi16` |
| Shifts.Srl8 | avx/vectorhelper.h:244-256 | each lane is shifted right logically by its own count; a lane shifted by at least one reads as a non-negative short; counts of 16 to 31 clear the lane; with a uniform count it equals `srli_epi16` |
| Shifts.SllThenSrl32 | avx/vectorhelper.h:208-227 | `srl` undoes `sll` by the same count when no set bit is shifted out |
| Shifts.SrlIsNotSrai | avx/vectorhelper.h:219-227 | on a negative int lane `srl` gives a non-negative value while the arithmetic shift gives a negative one, so `srl` is logical for int too |
| Helper32.TruncDivSpec | avx/vectorhelper.h:636-639 | the truncated quotient leaves a remainder smaller than the divisor in magnitude that is zero or has the dividend's sign, and is no larger than the dividend in magnitude |
| Helper32.QuotientFits | avx/vectorhelper.h:636-639 | the quotient of two int lanes is again an int unless it is INT_MIN / -1 |
| Helper32.Quotient32 | avx/vectorhelper.h:622-625 | the stored lane, read in the element type, is the truncated quotient of the lanes read in the element type |
| Helper32.DivMaskedInt | avx/vectorhelper.h:614-628 | lane i is the quotient where mask lane i has its top bit set (`movemask_ps` bit i) and a[i] elsewhere; divisors of inactive lanes are unconstrained |
| Helper32.DivInt | avx/vectorhelper.h:629-642 | every lane read as int is the truncated quotient of the int lanes |
| Helper32.DivMaskedAllActive | avx/vectorhelper.h:614-642 | the masked division with the all-ones mask is the plain division |
| Helper32.DivMaskedNoneActive | avx/vectorhelper.h:614-628 | the masked division with the zero mask returns a, whatever b holds |
| Helper32.DivMaskedUInt | avx/vectorhelper.h:718-728 | the unsigned quotient in the lanes whose mask top bit is set and a[i] in the others; only active divisors must be non-zero |
| Helper32.DivUInt | avx/vectorhelper.h:729-739 | each lane is the largest q with q * b[i] <= a[i] |
| Helper32.DivBounds | avx/vectorhelper.h:736 | the unsigned quotient x / y satisfies (x / y) * y <= x < (x / y + 1) * y |
| Helper32.MulFallback | avx/vectorhelper.h:598-604 | the fallback built from `mul_epu32` on even lanes, a four-byte shift for the odd lanes, `shuffle_epi32(·, 8)` and `unpacklo_epi32` equals `mullo_epi32` |
| Helper32.Mul | avx/vectorhelper.h:591-604 | on both paths, and for unsigned int which delegates to it, each lane is a[i] * b[i] modulo 2^32 and, read as int, the wrapped product of the int lanes |
| Helper32.SignedMulWrap | avx/vectorhelper.h:591 | the unsigned product modulo 2^32 is the wrapped product of the int readings |
| Helper32.MulMasked | avx/vectorhelper.h:610-612 | for a well-formed mask, the product modulo 2^32 in active lanes and a[i] in inactive ones |
| Helper32.SelectIsBlend | avx/vectorhelper.h:798-804 | for a well-formed mask the bitwise select `(m & p) \| (~m & a)` equals `blendv_epi8(a, p, m)` |
| Helper32.MultiplyAndAdd | avx/vectorhelper.h:565 | the referenced register becomes `add(mul(v1, v2), v3)` of its old value |
| Helper32.MultiplyAndAddLane | avx/vectorhelper.h:565 | lane i after multiplyAndAdd is v1 * v2 + v3 modulo 2^32, and read as int the wrapped value of the int computation |
| Helper32.NotMaskedToZero | avx/vectorhelper.h:557 | for a well-formed mask, a[i] where the mask is set and 0 elsewhere |
| Helper32.Round | avx/vectorhelper.h:653 | rounding an integer register returns it unchanged |
| Helper32.CmpNeq | avx/vectorhelper.h:648 | each lane is the mask of a[i] != b[i] |
| Helper32.CmpNlt | avx/vectorhelper.h:649 | each lane is the mask of a[i] >= b[i] in the element type's order |
| Helper32.CmpLe | avx/vectorhelper.h:650 | each lane is the mask of a[i] <= b[i] in the element type's order |
| Helper32.CmpNle | avx/vectorhelper.h:651 | each lane is the mask of "not a[i] <= b[i]" in the element type's order |
| Helper32.CompareTrichotomy | avx/vectorhelper.h:645-647 | in every lane exactly one of cmplt, cmpeq and cmpgt is all ones (unsigned order for unsigned int) |
| Helper32.DerivedComparesMirror | avx/vectorhelper.h:648-651 | cmpnlt(a, b) is cmple(b, a), cmpnle(a, b) is cmplt(b, a), and cmpneq is symmetric |
| Helper32.Combine32 | avx/vectorhelper.h:572 | each lane of the combining register operation is the lane operation (add or mul modulo 2^32, signed or unsigned min or max) |
| Helper32.Reduce32 | avx/vectorhelper.h:573-596 | the two shuffle steps leave in dword 0 the lanes combined as (a0 op a2) op (a1 op a3) |
| Helper32.ReduceSum32 | avx/vectorhelper.h:585-589 | the horizontal add is the sum of the four lanes modulo 2^32 (the unsigned int add at 687-692 too) |
| Helper32.ReduceProduct32 | avx/vectorhelper.h:592-596 | the horizontal mul is the product of the four lanes modulo 2^32 (the unsigned int mul at 681-686 too) |
| Helper32.ReduceMin32 | avx/vectorhelper.h:573-578 | the horizontal min is one of the lanes and no lane is smaller in the element type's order (the unsigned int min at 669-674 too) |
| Helper32.ReduceMax32 | avx/vectorhelper.h:579-584 | the horizontal max is one of the lanes and no lane is larger in the element type's order (the unsigned int max at 675-680 too) |
| Helper32.MulScalar | avx/vectorhelper.h:605-608 | the scalar product of the four int lanes, wrapped, equals the shuffle-tree product of the SSE4.1 path |
| Helper16.Quotient16 | avx/vectorhelper.h:840-842 | the stored 16-bit lane, read in the element type, is the truncated quotient; -32768 / -1 stores -32768 |
| Helper16.QuotientFitsSigned16 | avx/vectorhelper.h:852 | outside -32768 / -1 the quotient of two short lanes is again a short |
| Helper16.OverflowQuotient16 | avx/vectorhelper.h:852 | -32768 / -1 in int is 32768, one past the largest short |
| Helper16.DivMasked16 | avx/vectorhelper.h:834-844 | lane i is the quotient where the low byte of mask word i has its top bit set (`movemask_epi8` bit 2i) and a[i] elsewhere; for a well-formed mask that is where the mask word is all ones (the unsigned short div at 888-898 too) |
| Helper16.MaskWordsTopBit | avx/vectorhelper.h:835 | in a well-formed mask, bit 2i of the byte movemask is set exactly when word i is all ones |
| Helper16.Div16 | avx/vectorhelper.h:845-855 | every lane is the 16-bit quotient (the unsigned short div at 899-909 too) |
| Helper16.DivMasked16AllActive | avx/vectorhelper.h:834-855 | with the all-ones mask every lane is the 16-bit quotient, the same as the plain division |
| Helper16.DivMasked16NoneActive | avx/vectorhelper.h:834-844 | with the zero mask the masked division returns a, whatever b holds |
| Helper16.Mul16 | avx/vectorhelper.h:805 | each lane is a[i] * b[i] modulo 2^16 and, read as short, the wrapped product of the short lanes |
| Helper16.SignedMulWrap16 | avx/vectorhelper.h:942 | the unsigned product modulo 2^16 is the wrapped product of the short readings, so one `mullo_epi16` serves both types |
| Helper16.MulMasked16 | avx/vectorhelper.h:798-804 | for a well-formed mask, the product modulo 2^16 in active lanes and a[i] in inactive ones (the unsigned short mul at 911-917 too) |
| Helper16.SelectLanes16 | avx/vectorhelper.h:800-803 | the bitwise select picks the product lane where the mask word is all ones and a[i] where it is zero |
| Helper16.MultiplyAndAdd16 | avx/vectorhelper.h:793-794 | the referenced register becomes `add(mul(v1, v2), v3)` of its old value |
| Helper16.MultiplyAndAdd16Lane | avx/vectorhelper.h:793-794 | lane i after multiplyAndAdd is v1 * v2 + v3 modulo 2^16, and read as short the wrapped value of the short computation |
| Helper16.NotMaskedToZero16 | avx/vectorhelper.h:777 | for a well-formed mask, a[i] where the mask is set and 0 elsewhere |
| Helper16.Round16 | avx/vectorhelper.h:866 | rounding an integer register returns it unchanged |
| Helper16.CmpNeq16 | avx/vectorhelper.h:861 | each lane is the mask of a[i] != b[i] |
| Helper16.CmpNlt16 | avx/vectorhelper.h:862 | each lane is the mask of a[i] >= b[i] in the element type's order |
| Helper16.CmpLe16 | avx/vectorhelper.h:863 | each lane is the mask of a[i] <= b[i] in the element type's order |
| Helper16.CmpNle16 | avx/vectorhelper.h:864 | each lane is the mask of "not a[i] <= b[i]" in the element type's order |
| Helper16.CompareTrichotomy16 | avx/vectorhelper.h:858-860 | in every lane exactly one of cmplt, cmpeq and cmpgt is all ones (unsigned order for unsigned short) |
| Helper16.DerivedComparesMirror16 | avx/vectorhelper.h:861-864 | cmpnlt(a, b) is cmple(b, a), cmpnle(a, b) is cmplt(b, a), and cmpneq is symmetric |
| Helper16.Expand0 | avx/vectorhelper.h:779 | dword j, read in the element type, is word j read in the element type: sign extension for short, zero extension for unsigned short (882) |
| Helper16.Expand1 | avx/vectorhelper.h:780 | dword j, read in the element type, is word j + 4 read in the element type (883 for unsigned short) |
| Helper16.ExtendLanes | avx/vectorhelper.h:779-780 | shifting by 16 dwords that hold a word twice leaves that word extended to 32 bits |
| Helper16.ExtendLane | avx/vectorhelper.h:779 | for one such dword the arithmetic shift gives the word sign-extended and the logical shift gives it zero-extended |
| Helper16.Concat | avx/vectorhelper.h:876-881 | the dwords of a then b narrowed to words: with unsigned saturation for unsigned short with SSE4.1, with signed saturation otherwise (short at 778) |
| Helper16.ConcatExpandRoundTrip | avx/vectorhelper.h:778-780 | `concat(expand0(x), expand1(x)) == x` for short, and for unsigned short with SSE4.1 |
| Helper16.ConcatFallbackSaturates | avx/vectorhelper.h:879-880 | without SSE4.1 the unsigned short round trip turns every lane of 0x8000 or more into 0x7FFF and keeps the others |
| Helper16.Combine16 | avx/vectorhelper.h:806 | each lane of the combining register operation is the lane operation |
| Helper16.Reduce16 | avx/vectorhelper.h:807-832 | the three shuffle steps and the cut of the low dword to 16 bits combine the lanes as ((a0 op a4) op (a2 op a6)) op ((a1 op a5) op (a3 op a7)) |
| Helper16.ReduceSum16 | avx/vectorhelper.h:827-832 | the horizontal add is the sum of the eight lanes modulo 2^16 (the unsigned short add at 967-973 too) |
| Helper16.ReduceProduct16 | avx/vectorhelper.h:821-826 | the horizontal mul is the product of the eight lanes modulo 2^16 (the unsigned short mul at 960-966 too) |
| Helper16.ReduceMin16 | avx/vectorhelper.h:807-813 | the horizontal min is one of the lanes and no lane is smaller in the element type's order (the unsigned short min at 946-952 too) |
| Helper16.ReduceMax16 | avx/vectorhelper.h:814-820 | the horizontal max is one of the lanes and no lane is larger in the element type's order (the unsigned short max at 953-959 too) |

## Left out

- Register width: the model has one 128-bit half of the nominal 256-bit register (four dwords or eight words), the width the scalar fallbacks work on.
- Intrinsics are given their documented lane semantics; the intrinsic implementations and the AVX emulation headers they come from are not part of this model.
- The SSE4.1 build switch is a boolean parameter, not a compile-time choice.
- The `USE_INCORRECT_UNSIGNED_COMPARE` branches (avx/vectorhelper.h:758-761, 936-945, 992-995) are not modelled; only the default unsigned compares, minima and maxima are.
- Aligned, unaligned and streaming loads and stores are one operation each: alignment is a caller obligation and the streaming hint has no effect on the stored value.
- Helper32.DivMaskedInt: INT_MIN / -1 in an active lane is excluded by the precondition, because C++ leaves it undefined.
- Helper32.DivInt: INT_MIN / -1 in any lane is excluded by the precondition, because C++ leaves it undefined.
- Shifts.Sll4: counts of 32 or more are excluded, because C++ leaves such shifts undefined.
- Shifts.Srl4: counts of 32 or more are excluded, for the same reason.
- Shifts.Sll8: counts of 16 to 31 are excluded, because the promoted int can overflow (undefined in C++); Shifts.Srl8 accepts counts below 32.
- Helper16.Quotient16: for `short`, -32768 / -1 is 32768 as an int, and storing it back into a `short` is implementation-defined before C++20; the model takes the modular result, -32768.
- Helper32.MulScalar: the int product of the lanes is modelled as wrapping, where C++ leaves signed overflow undefined.
- The float and double helpers, including `log`, are not part of this model: their results depend on IEEE-754 rounding.
- `GatherHelper`, `ScatterHelper` and `SortHelper` are only declared in avx/vectorhelper.h; their bodies are not part of this model.
- `CtorTypeHelper` and `ExpandTypeHelper` map types to types and have no run-time behaviour.
- The single-intrinsic wrappers `zero`, `one`, `allone`, `set`, `abs`, `slli`, `srli`, lane-wise `add`, `sub`, `min`, `max`, `cmpeq`, `cmplt` and `cmpgt` are the intrinsics themselves (module `Intrinsics`) with no property of their own beyond their lane semantics.
- traits/is_functor_argument_immutable.h is a compile-time type trait and attic/neon/macros.h holds type aliases; neither has run-time behaviour to model.
- The register union and pointer casts of the division and shift fallbacks are modelled as copies between a register and a lane array; aliasing is not modelled.
