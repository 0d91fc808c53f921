# NOAHZK big integers in Dafny

This project models the arithmetic core of NOAHZK, a C library of little-endian
unsigned big integers, and proves what each routine computes. A wide integer is
the struct `{width, arr}`: `width` 32-bit limbs, least significant first, whose
value is the sum of `arr[i] 2^(32 i)`. The byte routines read the same buffer as
`4 width` little-endian bytes. The library appears twice:

- the newer tree, `NOAHZK_bigint_lib/ops/`: add, sub, mul, logarithms, type and
  definitions;
- the older tree: `NOAHZK_bigint_lib/mul.h`, `NOAHZK_bigint_lib/sub.h`, and the
  top-level `type.h` and `definitions.h`.

Modules:

| module | file | models |
|---|---|---|
| `Digits` | digits.dfy | positional values in any base, and the carry and borrow chain every loop of the library runs |
| `Bits` | bits.dfy | 64-bit words: not, xor, and, or, shifts, popcount and leading zeros as mathematical functions |
| `Words` | words.dfy | the constants and macros of both `definitions.h` files: limb width, ceil-division widths, MAX, MIN, SWP, limb sections of a constant, and the limb/byte view of a buffer |
| `WideInt` | vwint.dfy | the struct as a class with `width` and `arr`, its value, realloc and the byte view |
| `Lifecycle` | type.dfy | init, init_arr, init_constant, copy, copy_to_arr, move and destroy |
| `Logarithms` | logarithms.dfy | min_bitcnt_var, ceil_log2_value, min_bytecnt_var, and the byte-buffer bit and byte counts |
| `Add` | add.dfy | every routine of `ops/add.h` |
| `Sub` | sub.dfy | every routine of `ops/sub.h` and of the older `sub.h` |
| `Mul` | mul.dfy | every routine of `ops/mul.h` |
| `MulLegacy` | mul_legacy.dfy | the routines of the older `mul.h` that differ from the newer tree |

The routines are imperative and so is the model. Limb and byte loops are
`while` loops over arrays, and the wrappers are methods on `WideInt.VarWidth`
that call `realloc`, write the buffer and set `width`. Each loop is proved
against `Digits.Chain`, a recursive definition of a carry chain over
`x + m y` in base `b`. Here `m` is 1 for addition, -1 for subtraction and
`2^s` for a shifted operand. Lemmas then give that chain's value. A wrapper
states its result as a value, for example
`dst.Value() == (old(rs0.Value()) + old(rs1.Value())) % Pow(TWO_32, dst.width)`.
It also states which bytes or limbs it leaves alone.

Several routines do not do what their comments or names promise. For each
one, the model has:

- a member that follows the code as written, with a lemma that shows the
  difference on a concrete input;
- a corrected member, with the intended property proved.

These are listed under "## Findings". Where a routine's behaviour rests on
memory the code never writes (the fresh part of a `realloc`, a scratch
array, pad bytes), the model leaves those contents unknown. Its contracts
then say only what holds for any contents.

Decisions where the model reads the code more precisely than its comments, or
where the two disagree:

- `NOAHZK_variable_width_shift_right` reads only the bits below
  `32 dst.width` of the source. The model states its result as
  `(src mod 2^(32 dst.width)) >> shamt`. That equals
  `floor(src / 2^shamt) mod 2^(32 dst.width)` only when the source is no
  wider than dst.
- `NOAHZK_variable_width_sub_and_resize` grows dst to the wider operand.
  The comment before it says "smallest"; the code uses the maximum.
- `neg_byte` is the same loop in both trees and is modelled once.
- The recursion of `mul_byte` terminates on `width0 + width1`. Its branch
  depends only on the two widths, which are plain parameters of the model.

## Model

| member | source | states |
|---|---|---|
| Words.LimbConstants | NOAHZK_bigint_lib/ops/definitions.h:14-24 | a limb is 32 bits and 4 bytes of 8 bits; LIMB_MAX + 1 = 2^32 = 256^4; the op codes are ADD = 0 and SUB = 1 |
| Words.SizeAsArrOfType | NOAHZK_bigint_lib/ops/definitions.h:34 | NOAHZK_SIZE_AS_ARR_OF_TYPE is the ceiling of size/t: the least count r with r * t >= size, and it is 0 exactly when size is 0 |
| Words.LimbWidthFromInt | NOAHZK_bigint_lib/ops/definitions.h:36 | NOAHZK_GET_LIMB_WIDTH_FROM_INT(x) is the least number of 4-byte limbs that holds x bytes |
| Words.BitsToBytes | NOAHZK_bigint_lib/ops/definitions.h:26 | NOAHZK_convert_from_bits_to_bytes(x) is the least number of bytes that holds x bits (the older definitions.h:22 is the same macro) |
| Words.LimbsFitWidthBits | NOAHZK_bigint_lib/ops/definitions.h:37-41 | the 4w-byte and 32w-bit width macros bound a w-limb value: every value of w limbs is below 2^(32 w) = (2^32)^w |
| Words.Max | NOAHZK_bigint_lib/ops/definitions.h:30 | NOAHZK_MAX returns one of its arguments, and it is at least both |
| Words.Min | NOAHZK_bigint_lib/ops/definitions.h:31 | NOAHZK_MIN returns one of its arguments, and it is at most both |
| Words.Swap | NOAHZK_bigint_lib/ops/definitions.h:32 | the three xor assignments of NOAHZK_SWP exchange two distinct variables; swapping a variable with itself zeroes it; nothing else changes |
| Words.Section | NOAHZK_bigint_lib/ops/definitions.h:27-28 | get_section_from_var with the shift section times the section's size, as the older sub.h:31 and :90 write it out: the result fits in one section, and it is 0 once section >= sizeof(var)/sizeof(section_type) |
| Words.SectionIsDigit | NOAHZK_bigint_lib/ops/definitions.h:27 | section i of a var is its digit i in base 256^s, where s is the section size in bytes |
| Words.SectionsReassemble | NOAHZK_bigint_lib/sub.h:29-33 | the limb (or byte) sections of a 64-bit k, read as an n-digit operand, are digits whose value is k mod (2^32)^n (or k mod 256^n) |
| Words.SectionExample | NOAHZK_bigint_lib/ops/definitions.h:27 | byte section 0 of 0x01234567 is 0x67, as the macro's comment says |
| Words.SectionShiftOverflows | NOAHZK_bigint_lib/ops/definitions.h:28 | for a 64-bit var, the macro's shift section * sizeof(var) * 8 is 64 or more for every section past 0, while the intended shift section * sizeof(section_type) * 8 stays below 64 |
| Words.LimbBytes | NOAHZK_bigint_lib/ops/mul.h:95 | the four little-endian bytes of a limb have the limb's value |
| Words.LimbsToBytesVal | NOAHZK_bigint_lib/ops/mul.h:95 | a limb buffer read as bytes (limb i becoming bytes 4i..4i+3) has the same value: sum of arr[i] 2^(32i) equals the sum of byte[j] 256^j |
| Words.LimbsToBytesAt | NOAHZK_bigint_lib/ops/mul.h:95 | byte 4i + j of the byte view is byte j of limb i |
| Words.BytesToLimbsInverse | NOAHZK_bigint_lib/ops/mul.h:95 | reading the byte view of limbs back as limbs gives the limbs |
| Words.LimbsToBytesInverse | NOAHZK_bigint_lib/ops/mul.h:95 | reading whole-limb bytes as limbs and viewing them as bytes again gives the bytes |
| Words.BytesToLimbsVal | NOAHZK_bigint_lib/ops/mul.h:95 | reading a byte buffer of whole limbs as limbs keeps its value |
| Bits.Not64 | NOAHZK_bigint_lib/ops/logarithms.h:18 | ~value on uint64_t is the 64-bit complement: value + ~value = 2^64 - 1, and the result is again a 64-bit value |
| Bits.Clz64 | NOAHZK_bigint_lib/ops/logarithms.h:21 | __builtin_clzll of a nonzero 64-bit x is the r < 64 with 2^(63-r) <= x < 2^(64-r) |
| Bits.PopcountComplement | NOAHZK_bigint_lib/ops/logarithms.h:18 | popcount(~v) over n bits is n - popcount(v), so 64 zero bits means v == 0 |
| Bits.PopcountZero | NOAHZK_bigint_lib/ops/logarithms.h:18 | the popcount is 0 exactly for 0 |
| Bits.BitLengthUnique | NOAHZK_bigint_lib/ops/logarithms.h:16-23 | the bit length is the only n with 2^(n-1) <= x < 2^n |
| Bits.XorCancel | NOAHZK_bigint_lib/ops/definitions.h:32 | (x ^ y) ^ y == x, the step each assignment of the xor swap relies on |
| Bits.XorComm | NOAHZK_bigint_lib/ops/definitions.h:32 | xor is commutative |
| Bits.XorSelf | NOAHZK_bigint_lib/ops/definitions.h:32 | x ^ x == 0, why swapping a variable with itself zeroes it |
| Bits.XorAllOnes | NOAHZK_bigint_lib/ops/sub.h:29 | xor with the all-ones mask 2^n - 1 complements an n-bit value: 2^n - 1 - x |
| Bits.AndLowMask | NOAHZK_bigint_lib/ops/sub.h:32-33 | x & (2^n - 1) is x mod 2^n, the low limb that z & NOAHZK_LIMB_MAX keeps |
| Bits.OrBounds | NOAHZK_bigint_lib/ops/logarithms.h:21 | or-ing two n-bit values gives an n-bit value at least each of them |
| Bits.OrFreshBit | NOAHZK_bigint_lib/ops/mul.h:28 | or-ing a single bit into a position that is still clear adds its weight |
| Bits.ShiftLeftMul | NOAHZK_bigint_lib/ops/add.h:107 | x << r equals x * 2^r |
| Bits.ShiftLeftByte | NOAHZK_bigint_lib/ops/add.h:107 | a byte shifted by fewer than 8 bits fits in 15 bits, so the uint16_t term cannot overflow |
| Digits.ChainStep | NOAHZK_bigint_lib/ops/add.h:26-28 | one loop step: keeping z mod base at position i and moving floor(z / base) on preserves digits + carry base^i == x + m y on the prefix |
| Digits.ChainAt | NOAHZK_bigint_lib/ops/add.h:24-29 | the recursive chain, read position by position, is the loop's sequence of digits and carries |
| Digits.ChainOf | NOAHZK_bigint_lib/ops/add.h:24-29 | every pair of equal-length operands has a chain |
| Digits.ChainValue | NOAHZK_bigint_lib/ops/add.h:24-29 | a chain's digits are digits, and digits plus the carry out times base^n are exactly x + m y |
| Digits.ChainResult | NOAHZK_bigint_lib/ops/add.h:24-29 | a whole chain leaves (x + m y) mod base^n in its digits and (x + m y) / base^n as its carry out |
| Digits.ChainCarryBounds | NOAHZK_bigint_lib/ops/add.h:28 | the carry out over digits lies in [0, m] for m >= 0 and is a borrow in [-1, 0] for m == -1 |
| Digits.ValComplement | NOAHZK_bigint_lib/ops/sub.h:29 | complementing n digits gives base^n - 1 minus their value, which is what xor with LIMB_MAX does to a limb string |
| Digits.ValScaled | NOAHZK_bigint_lib/ops/add.h:107 | scaling every digit by m scales the value by m, as the shift by bit_offset % 8 does |
| Digits.ValShifted | NOAHZK_bigint_lib/ops/add.h:121 | an operand placed byte_offset positions up weighs base^byte_offset times its value |
| Digits.ValShiftedPad | NOAHZK_bigint_lib/ops/add.h:119-121 | the shifted operand read over width_result digits is (value base^k) mod base^width_result |
| WideInt.VarWidth.Limbs | NOAHZK_bigint_lib/ops/definitions.h:45-48 | a live integer has exactly width limbs, least significant first |
| WideInt.VarWidth.Empty | NOAHZK_bigint_lib/ops/definitions.h:43 | NOAHZK_variable_width_var_INITIALIZER is the live empty integer {0, NULL} (the older definitions.h:31 is the same) |
| WideInt.Realloc | NOAHZK_bigint_lib/ops/add.h:50 | realloc gives a fresh buffer of n limbs whose common prefix with the old buffer is kept |
| WideInt.ZeroFrom | NOAHZK_bigint_lib/ops/add.h:51 | memset from a limb index on zeroes exactly those limbs and keeps the ones below |
| WideInt.ByteView | NOAHZK_bigint_lib/ops/mul.h:95 | the byte buffer handed to the byte routines holds 4 * width bytes, byte 4i + j being byte j of limb i |
| Lifecycle.Target | NOAHZK_bigint_lib/ops/type.h:18 | the object filled is the caller's, or a freshly allocated one when NULL is passed |
| Lifecycle.Init | NOAHZK_bigint_lib/ops/type.h:17-30 | NOAHZK_variable_width_init: width is ceil(width_in_bytes / 4), every limb is 0 and so is the value; the buffer is NULL exactly for width 0 (the older type.h:17-30 is the same routine) |
| Lifecycle.PadBytes | NOAHZK_bigint_lib/ops/type.h:38-40 | the bytes followed by zeros up to n: the prefix is the bytes and the rest are 0 |
| Lifecycle.PadBytesVal | NOAHZK_bigint_lib/ops/type.h:38-40 | zero padding keeps a little-endian value |
| Lifecycle.PaddedLimbs | NOAHZK_bigint_lib/ops/type.h:38-40 | the limbs read from the zero-padded bytes have those bytes as their byte view and the bytes' value as their value |
| Lifecycle.CopyPadded | NOAHZK_bigint_lib/ops/type.h:38-40 | calloc followed by memcpy of count bytes gives the first count bytes of arr followed by zeros |
| Lifecycle.InitArr | NOAHZK_bigint_lib/ops/type.h:33-47 | NOAHZK_variable_width_init_arr: width is ceil(width_in_bytes / 4), the byte view is the input bytes followed by zero pad bytes, and the value is the input's little-endian value |
| Lifecycle.InitConstant | NOAHZK_bigint_lib/ops/type.h:50-66 | NOAHZK_variable_width_init_constant: width is ceil(min_bitcnt_var(k) / 32), at most 2 and 0 exactly for k == 0, and the value is k (the older type.h:33-49 is the same routine) |
| Lifecycle.ConstantFits | NOAHZK_bigint_lib/ops/type.h:53-57 | the width low limbs of k hold all of k: k mod 2^(32 width) == k |
| Lifecycle.Copy | NOAHZK_bigint_lib/ops/type.h:68-77 | NOAHZK_variable_width_copy: the same width and the same limbs and value in a fresh buffer, so later writes to either do not reach the other (the older type.h:51-60 is the same routine) |
| Lifecycle.CopyToArr | NOAHZK_bigint_lib/ops/type.h:79-86 | NOAHZK_variable_width_copy_to_arr: width_dst bytes of the byte view (all 4 * width when width_dst is 0) land in dst or a fresh buffer; dst's later bytes are untouched |
| Lifecycle.Move | NOAHZK_bigint_lib/ops/type.h:90-97 | NOAHZK_variable_width_move: dst takes src's old width and buffer, src is left {0, NULL} |
| Lifecycle.Destroy | NOAHZK_bigint_lib/ops/type.h:99-106 | NOAHZK_variable_width_destroy: with a buffer, every limb and the width are 0 afterwards and arr keeps its value; without one nothing changes (the older type.h:62-69 erases in the same way) |
| Logarithms.IsValue0 | NOAHZK_bigint_lib/ops/logarithms.h:19 | the branch-free is_value_0 expression on the count n of zero bits is 1 exactly when n == 64 and 0 otherwise |
| Logarithms.IsValue0Of | NOAHZK_bigint_lib/ops/logarithms.h:18-19 | is_value_0 of a 64-bit value is 1 exactly when the value is 0 |
| Logarithms.MinBitcntVar | NOAHZK_bigint_lib/ops/logarithms.h:16-23 | NOAHZK_min_bitcnt_var(v) is the least r <= 64 with v < 2^r: v < 2^r, and 2^(r-1) <= v when r > 0; 0 for v == 0 |
| Logarithms.MinBitcntVarIsBitLength | NOAHZK_bigint_lib/ops/logarithms.h:16-23 | min_bitcnt_var agrees with the reference bit length on every 64-bit value |
| Logarithms.MinBitcntVarExamples | NOAHZK_bigint_lib/ops/logarithms.h:16-23 | min_bitcnt_var gives 0, 1, 8 and 9 for 0, 1, 255 and 256 |
| Logarithms.CeilLog2Value | NOAHZK_bigint_lib/ops/logarithms.h:26-33 | NOAHZK_ceil_log2_value(v) is 0 for 0; otherwise it is the least e with v <= 2^e (2^(e-1) < v when e > 0) |
| Logarithms.CeilLog2Mask | NOAHZK_bigint_lib/ops/logarithms.h:30-32 | masking with ~(-(uint64_t)is_value_0) clears the result for 0 and keeps it otherwise; v - 1 does not wrap for v >= 1 |
| Logarithms.MinBytecntVar | NOAHZK_bigint_lib/ops/logarithms.h:36-39 | NOAHZK_min_bytecnt_var(v) is the least r <= 8 with v < 256^r (256^(r-1) <= v when r > 0) |
| Logarithms.MinBytecntVarIsByteLength | NOAHZK_bigint_lib/ops/logarithms.h:36-39 | min_bytecnt_var is the reference byte length of v, at most 8, and it brackets v |
| Logarithms.BytesCoverBits | NOAHZK_bigint_lib/ops/logarithms.h:38 | ceil(b / 8) bytes hold a b-bit value and no fewer do |
| Logarithms.BitcntWithGapsPlusGaps | NOAHZK_bigint_lib/ops/logarithms.h:41-60 | the descending loop's result plus the number of zero bytes below the top nonzero byte is the bit length of the buffer's value |
| Logarithms.BitcntWithGapsExact | NOAHZK_bigint_lib/ops/logarithms.h:41-60 | the loop returns the true bit length exactly when no zero byte lies below the top nonzero byte (both directions) |
| Logarithms.BitcntGapCounterexample | NOAHZK_bigint_lib/ops/logarithms.h:56 | the buffer [0x00, 0x01] holds 256, which needs 9 bits; the loop as written returns 8 |
| Logarithms.BitcntWithGapsZero | NOAHZK_bigint_lib/ops/logarithms.h:41-60 | the loop's result is at most 8 * size, and it is 0 exactly for an all-zero buffer |
| Logarithms.AllZeroVal | NOAHZK_bigint_lib/ops/logarithms.h:41-60 | a buffer is all zero bytes exactly when its little-endian value is 0 |
| Logarithms.BitLengthTop | NOAHZK_bigint_lib/ops/logarithms.h:59 | a nonzero top byte over n lower bytes gives bit length 8 n plus the top byte's own bit length |
| Logarithms.ByteLeadingZeros | NOAHZK_bigint_lib/ops/logarithms.h:52 | __builtin_clzll(x) - 56 for a nonzero byte x is 8 minus its bit length, below 8 |
| Logarithms.ClzOperand | NOAHZK_bigint_lib/ops/logarithms.h:52 | the clz operand value[i] \| flag \| is_value_0 is a nonzero byte: 1 for a zero byte, the byte itself while the flag is clear, and of bit length 8 once the flag is set |
| Logarithms.ThisByteLeadingZeros | NOAHZK_bigint_lib/ops/logarithms.h:52 | this_byte_number_of_leading_zeroes is 7 for a zero byte and 8 minus the bit length for a nonzero one while the flag is clear, and 0 once it is set |
| Logarithms.FlagStep | NOAHZK_bigint_lib/ops/logarithms.h:53-54 | the shifted term or-ed into the flag fits a byte; it leaves a clear flag clear on a zero byte and sets bit 7 otherwise |
| Logarithms.NextFlag | NOAHZK_bigint_lib/ops/logarithms.h:53-54 | after an iteration the flag is clear exactly while every byte seen so far is zero, and it is at least 128 once set |
| Logarithms.MinBitcntStep | NOAHZK_bigint_lib/ops/logarithms.h:49-56 | one iteration keeps the loop invariant: the leading-zero count is 8 m minus the loop result on the m bytes seen, and the flag tracks whether they are all zero |
| Logarithms.MinBitcntByte | NOAHZK_bigint_lib/ops/logarithms.h:41-60 | NOAHZK_variable_width_min_bitcnt_byte returns BitcntWithGaps of the size bytes; the result is at most 8 * size and 0 exactly for an all-zero buffer |
| Logarithms.BitLengthPrepend | NOAHZK_bigint_lib/ops/logarithms.h:41-60 | putting byte c below a suffix of value v gives c + 256 v, whose bit length is 8 more than v's once v is nonzero |
| Logarithms.MinBitcntByteFixed | NOAHZK_bigint_lib/ops/logarithms.h:41-60 | with is_value_0 counted only while the flag is clear, the loop returns the bit length of the buffer's value |
| Logarithms.VariableWidthMinBitcnt | NOAHZK_bigint_lib/ops/logarithms.h:62-64 | NOAHZK_variable_width_min_bitcnt runs the byte loop over the 4 * width bytes of the limbs |
| Logarithms.MinBytecntByte | NOAHZK_bigint_lib/ops/logarithms.h:66-69 | NOAHZK_variable_width_min_bytecnt_byte is ceil(min_bitcnt_byte / 8), at most size, and 0 exactly for an all-zero buffer |
| Logarithms.VariableWidthMinBytecnt | NOAHZK_bigint_lib/ops/logarithms.h:71-73 | NOAHZK_variarble_width_min_bytecnt is the byte count of the limb buffer's byte view |
| Add.LimbSplit | NOAHZK_bigint_lib/ops/add.h:27 | z & NOAHZK_LIMB_MAX is z mod 2^32 |
| Add.ByteSplit | NOAHZK_bigint_lib/ops/add.h:155 | z & UINT8_MAX is z mod 256 |
| Add.SumResult | NOAHZK_bigint_lib/ops/add.h:24-29 | a chain over a padded operand and a second operand worth bv mod base^n leaves (a + m bv) mod base^n, and its carry out is what did not fit |
| Add.ReadsPadded | NOAHZK_bigint_lib/ops/add.h:26 | reading a live operand limb by limb, past its width as 0, gives its limbs zero-extended, also when it is dst already widened |
| Add.AddLimbs | NOAHZK_bigint_lib/ops/add.h:24-29 | the carrying limb loop writes the digits of the chain over rs0 + rs1 (read as 0 past their widths) into the n limbs and no others, and returns the chain's carry out |
| Add.AddConstantLimbs | NOAHZK_bigint_lib/ops/add.h:35-40 | as AddLimbs, with limb section i of k as the second operand's limb i |
| Add.ValueFits | NOAHZK_bigint_lib/ops/definitions.h:45-48 | a live integer's limbs are digits and its value is below 2^(32 width) |
| Add.AddCarry | NOAHZK_bigint_lib/ops/add.h:21-30 | over live operands dst keeps its width w and dst + carry 2^(32 w) == rs0 mod 2^(32 w) + rs1 mod 2^(32 w), with carry 0 or 1 |
| Add.AddConstantCarry | NOAHZK_bigint_lib/ops/add.h:32-41 | as AddCarry, with the 64-bit constant k as the second operand |
| Add.FixedClose | NOAHZK_bigint_lib/ops/add.h:21-30 | a value below p that with a carry makes up s0 mod p + s1 mod p is (s0 + s1) mod p |
| Add.Add | NOAHZK_bigint_lib/ops/add.h:21-30 | NOAHZK_variable_width_add: dst keeps its width and becomes (rs0 + rs1) mod 2^(32 width); operands may alias dst |
| Add.AddConstant | NOAHZK_bigint_lib/ops/add.h:32-41 | NOAHZK_variable_width_add_constant: dst keeps its width and becomes (rs0 + k) mod 2^(32 width) |
| Add.Widen | NOAHZK_bigint_lib/ops/add.h:47-53 | the resize step: dst grows to max(width, largest) limbs, the new limbs are zero, the value is kept, and the buffer is fresh exactly when the width changed |
| Add.WidenPair | NOAHZK_bigint_lib/ops/add.h:47-53 | after the resize each operand keeps its value, which now fits in dst's width, also when it is dst itself |
| Add.PushCarry | NOAHZK_bigint_lib/ops/add.h:61-65 | a nonzero carry becomes one more limb on top, adding carry 2^(32 w) to the value; a zero carry changes nothing |
| Add.ResizeClose | NOAHZK_bigint_lib/ops/add.h:55-65 | for operands below p the carry is 1 exactly when the sum does not fit below p, and the digits plus the carry are the exact sum |
| Add.WidenedOperand | NOAHZK_bigint_lib/ops/add.h:47-53 | an operand left alone by the resize, or dst widened with zeros, keeps its value, which fits the new width |
| Add.AddAndResize | NOAHZK_bigint_lib/ops/add.h:44-66 | NOAHZK_variable_width_add_and_resize: dst becomes the exact sum rs0 + rs1, with width max(dst, rs0, rs1), one limb more exactly when the sum does not fit it |
| Add.PadFits | NOAHZK_bigint_lib/ops/add.h:47-53 | an operand zero-extended to w limbs keeps its value, which fits in w limbs |
| Add.AddAndResizeConstant | NOAHZK_bigint_lib/ops/add.h:69-91 | NOAHZK_variable_width_add_and_resize_constant: dst becomes exactly rs0 + k, with width max(dst, rs0, 2), one limb more exactly when the sum does not fit |
| Add.ConstantFitsTwoLimbs | NOAHZK_bigint_lib/ops/add.h:72 | a 64-bit constant fits every width of two limbs or more |
| Add.AddByteChain | NOAHZK_bigint_lib/ops/add.h:151-157 | the byte carrying loop writes the digits of the chain over rs0 + rs1 into widthResult bytes and no others |
| Add.AddByte | NOAHZK_bigint_lib/ops/add.h:146-158 | NOAHZK_variable_width_add_byte: the widthResult bytes of dst become (rs0 + rs1) mod 256^widthResult, the rest untouched; operands may alias dst |
| Add.AddWithByteOffsetChain | NOAHZK_bigint_lib/ops/add.h:119-125 | the byte-offset loop writes the chain over rs0 + rs1 placed byte_offset bytes up into widthResult bytes and no others |
| Add.AddWithByteOffsetByte | NOAHZK_bigint_lib/ops/add.h:114-126 | NOAHZK_variable_width_add_with_byte_offset_byte: the widthResult bytes become (rs0 + rs1 256^byte_offset) mod 256^widthResult |
| Add.OffsetOperand | NOAHZK_bigint_lib/ops/add.h:121 | rs1's bytes placed bo bytes up, as the loop reads them, are the digits of rs1 256^bo |
| Add.AddWithBitOffsetChain | NOAHZK_bigint_lib/ops/add.h:100-111 | the bit-offset loop writes the chain over rs0 + (rs1 << bit_offset % 8) placed bit_offset / 8 bytes up into widthResult bytes, and its 16-bit sum never overflows |
| Add.ShiftBound | NOAHZK_bigint_lib/ops/add.h:107 | a shift by bit_offset % 8 multiplies by 1 to 128 |
| Add.BitOffsetSplit | NOAHZK_bigint_lib/ops/add.h:98 | 2^(bit_offset % 8) 256^(bit_offset / 8) == 2^bit_offset |
| Add.AddWithBitOffsetByte | NOAHZK_bigint_lib/ops/add.h:93-112 | NOAHZK_variable_width_add_with_bit_offset_byte: the widthResult bytes become (rs0 + rs1 2^bit_offset) mod 256^widthResult |
| Add.BitOffsetChain | NOAHZK_bigint_lib/ops/add.h:100-111 | the bit-offset chain exists and its digits are (rs0 + rs1 2^bit_offset) mod 256^n |
| Add.BitOffsetOperands | NOAHZK_bigint_lib/ops/add.h:107 | that chain's operands are the bytes as the loop reads them |
| Add.ShiftedOperand | NOAHZK_bigint_lib/ops/add.h:107 | rs1's bytes placed bo bytes up and shifted left by r bits are the digits of rs1 256^bo, each times 2^r |
| Add.BitOffsetClose | NOAHZK_bigint_lib/ops/add.h:100-111 | the bit-offset chain's digits are (a + b 2^bit_offset) mod 256^n |
| Add.AddConstantByteChain | NOAHZK_bigint_lib/ops/add.h:135-141 | the loop of add_constant_byte writes the chain over rs0 + the byte sections of k into widthResult bytes and no others |
| Add.AddConstantByte | NOAHZK_bigint_lib/ops/add.h:130-142 | NOAHZK_variable_width_add_constant_byte: the widthResult bytes become (rs0 + k) mod 256^widthResult |
| Add.AddVwvToByte | NOAHZK_bigint_lib/ops/add.h:161-163 | NOAHZK_variable_width_add_vwv_to_byte: the first width bytes of dst become (dst + src) mod 256^width, the rest untouched |
| Sub.BorrowStep | NOAHZK_bigint_lib/sub.h:20-22 | for a difference t in [-b, b), the wrapped word keeps t mod b in its low part and has bit 1 above it exactly after a borrow, so (z >> 32) & 1 is the borrow -floor(t / b) |
| Sub.BorrowClose | NOAHZK_bigint_lib/sub.h:18-23 | a chain with multiplier -1 leaves digits d with d - borrow p == a - b, the borrow being minus the chain's carry |
| Sub.DiffClose | NOAHZK_bigint_lib/sub.h:18-23 | digits below p with d - borrow p == a mod p - b mod p are the difference (a - b) mod p |
| Sub.ResizedDiff | NOAHZK_bigint_lib/ops/sub.h:74-91 | for operands below p the result is the difference mod p, and exactly a - b when a >= b |
| Sub.DiffFits | NOAHZK_bigint_lib/ops/sub.h:74-91 | a difference that does not go below 0 and fits below p is its own residue |
| Sub.SubLimbs | NOAHZK_bigint_lib/sub.h:18-23 | the borrowing limb loop writes the digits of the chain over rs0 - rs1 (operands read as 0 past their widths) into the n limbs and nothing else, and returns borrow 0 or 1, minus the chain's carry out |
| Sub.SubConstantLimbs | NOAHZK_bigint_lib/sub.h:29-34 | as SubLimbs, with limb section i of the 64-bit k as the subtrahend's limb i |
| Sub.SubBorrow | NOAHZK_bigint_lib/sub.h:15-24 | over live operands, dst keeps its width w and dst - borrow 2^(32 w) == rs0 mod 2^(32 w) - rs1 mod 2^(32 w), with borrow 0 or 1 |
| Sub.SubConstantBorrow | NOAHZK_bigint_lib/sub.h:26-35 | as SubBorrow, with the 64-bit constant k as the subtrahend |
| Sub.Sub | NOAHZK_bigint_lib/sub.h:15-24 | NOAHZK_variable_width_sub: dst keeps its width and becomes (rs0 - rs1) mod 2^(32 width); either operand may be dst |
| Sub.SubConstant | NOAHZK_bigint_lib/sub.h:26-35 | NOAHZK_variable_width_sub_constant (both trees): dst keeps its width and becomes (rs0 - k) mod 2^(32 width) |
| Sub.SubAndResize | NOAHZK_bigint_lib/ops/sub.h:74-91 | sub_and_resize with its borrow as in sub_constant: dst grows to max(dst, rs0, rs1) limbs, its value is (rs0 - rs1) mod 2^(32 width), exactly rs0 - rs1 when rs0 >= rs1 |
| Sub.SubAndResizeConstant | NOAHZK_bigint_lib/ops/sub.h:93-110 | NOAHZK_variable_width_sub_and_resize_constant: dst grows to at least two limbs and rs0's width, becomes (rs0 - k) mod 2^(32 width), exactly rs0 - k when rs0 >= k |
| Sub.XorMask | NOAHZK_bigint_lib/ops/sub.h:29 | rs1_limb ^ -op keeps the limb for OP_ADD and gives LIMB_MAX - limb for OP_SUB |
| Sub.CondNot | NOAHZK_bigint_lib/ops/sub.h:28-29 | the conditional complement of one limb: itself for OP_ADD, LIMB_MAX minus it for OP_SUB |
| Sub.ValFlipped | NOAHZK_bigint_lib/ops/sub.h:29 | the conditionally complemented operand is worth b for op 0 and 2^(32 n) - 1 - b for op 1 |
| Sub.ValAddends | NOAHZK_bigint_lib/ops/sub.h:31 | op added into every limb is worth op * RepUnit(n); op added into the lowest limb only is worth op |
| Sub.ValPlus | NOAHZK_bigint_lib/ops/sub.h:31 | adding two limb sequences position by position adds their values |
| Sub.ComplementMod | NOAHZK_bigint_lib/ops/sub.h:19-25 | a mod p + e + (p - 1 - b mod p) is a - b + e - 1 modulo p, the identity a + ~b + 1 == a - b rests on |
| Sub.AddOrSubResult | NOAHZK_bigint_lib/ops/sub.h:27-34 | the chain add_or_sub runs leaves a + b for OP_ADD and a - b + e - 1 for OP_SUB modulo 2^(32 n), e being what the op addends are worth |
| Sub.AddOrSubLimbs | NOAHZK_bigint_lib/ops/sub.h:27-34 | the add_or_sub loop writes the chain's digits over rs0 plus op addends and the conditionally complemented rs1 into the n limbs, and nothing else |
| Sub.AddOrSubConstantLimbs | NOAHZK_bigint_lib/ops/sub.h:41-48 | as AddOrSubLimbs, with limb section i of k as rs1's limb i |
| Sub.AddOrSubOperands | NOAHZK_bigint_lib/ops/sub.h:27-34 | every pair of live operands and op has its chain over w limbs, and its digits are worth AddOrSubValue |
| Sub.AddOrSubConstantOperands | NOAHZK_bigint_lib/ops/sub.h:41-48 | as AddOrSubOperands, with the constant k as rs1 |
| Sub.AddOrSubInto | NOAHZK_bigint_lib/ops/sub.h:16-35 | add_or_sub with op into every limb or into the lowest only: dst keeps its width and becomes AddOrSubValue of the operands |
| Sub.AddOrSubConstantInto | NOAHZK_bigint_lib/ops/sub.h:38-49 | as AddOrSubInto, with the constant k as rs1 |
| Sub.AddOrSub | NOAHZK_bigint_lib/ops/sub.h:16-35 | NOAHZK_variable_width_add_or_sub as written: OP_ADD gives (rs0 + rs1) mod 2^(32 w); OP_SUB gives (rs0 - rs1 + RepUnit(w) - 1) mod 2^(32 w) |
| Sub.AddOrSubConstant | NOAHZK_bigint_lib/ops/sub.h:38-49 | NOAHZK_variable_width_add_or_sub_constant as written: as AddOrSub with k as rs1 |
| Sub.AddOrSubFixed | NOAHZK_bigint_lib/ops/sub.h:16-35 | add_or_sub with op added into the lowest limb only, as a + ~b + 1 needs: dst becomes rs0 + rs1 or rs0 - rs1 modulo 2^(32 w) |
| Sub.AddOrSubConstantFixed | NOAHZK_bigint_lib/ops/sub.h:38-49 | as AddOrSubFixed, with k as rs1 |
| Sub.AddOrSubError | NOAHZK_bigint_lib/ops/sub.h:31 | the error RepUnit(w) - 1 of add_or_sub as written vanishes for widths 0 and 1 and lies in [2^32, 2^(32 w)) from width 2 on, so it never cancels |
| Sub.AddOrSubCounterexample | NOAHZK_bigint_lib/ops/sub.h:31 | 5 - 3 in two limbs gives 2 + 2^32 as written, instead of 2 |
| Sub.WrittenOf | NOAHZK_bigint_lib/ops/sub.h:54-59 | the borrow registers and limbs of the newer tree's sub loop exist for every pair of operands of equal length |
| Sub.SubWrittenLimbs | NOAHZK_bigint_lib/ops/sub.h:54-59 | the newer tree's sub loop as written: limb j becomes d[j] of WrittenSteps, z = a - b + borrow with borrow = z >> 32 and no & 1 |
| Sub.SubAsWritten | NOAHZK_bigint_lib/ops/sub.h:51-60 | NOAHZK_variable_width_sub of the newer tree as written: dst keeps its width and its limbs are those WrittenSteps fixes over the padded operands |
| Sub.SubAndResizeAsWritten | NOAHZK_bigint_lib/ops/sub.h:74-91 | NOAHZK_variable_width_sub_and_resize as written: the resize to the largest width followed by the as-written loop |
| Sub.SubBorrowCounterexample | NOAHZK_bigint_lib/ops/sub.h:56-58 | as written, [0, 1, 0] - [1, 0, 0] gives [LIMB_MAX, 0, 1], 2^64 more than the difference: the borrow comes back as a carry |
| Sub.SubAndResizeCounterexample | NOAHZK_bigint_lib/ops/sub.h:87-89 | sub_and_resize as written, run on three-limb operands [0, 1, 0] and [1, 0, 0], leaves 2^64 more than their difference |
| Sub.SubByteChain | NOAHZK_bigint_lib/ops/sub.h:180-186 | the byte borrowing loop writes the digits of the chain over rs0 - rs1 (read as 0 past their widths) into widthResult bytes and no others |
| Sub.SubConstantByteChain | NOAHZK_bigint_lib/ops/sub.h:166-171 | as SubByteChain, with byte section i of k as the subtrahend's byte i |
| Sub.BothSubByte | NOAHZK_bigint_lib/ops/sub.h:175-187 | NOAHZK_variable_width_both_sub_byte: the widthResult bytes of dst become (rs0 - rs1) mod 256^widthResult, the rest untouched |
| Sub.SubByte | NOAHZK_bigint_lib/ops/sub.h:147-158 | NOAHZK_variable_width_sub_byte: the width bytes become (rs0 - rs1) mod 256^width, exactly rs0 - rs1 when rs0 >= rs1 |
| Sub.SubConstantByte | NOAHZK_bigint_lib/ops/sub.h:161-172 | NOAHZK_variable_width_sub_constant_byte: the width bytes become (rs0 - k) mod 256^width |
| Sub.SubConstantByteOperands | NOAHZK_bigint_lib/ops/sub.h:166-171 | the chain over rs0's bytes and k's byte sections exists and its digits are (rs0 - k) mod 256^width |
| Sub.NegByteFixed | NOAHZK_bigint_lib/ops/sub.h:112-123 | neg_byte with the complement taken in 8 bits: dst becomes (-src) mod 256^width, the rest untouched |
| Sub.NegClose | NOAHZK_bigint_lib/ops/sub.h:117-122 | the negation chain ~s + 1 leaves (-s) mod 256^n |
| Sub.ValFirstAddend | NOAHZK_bigint_lib/ops/sub.h:113 | a 1 only in the lowest of n > 0 digits is worth 1 |
| Sub.NegOf | NOAHZK_bigint_lib/ops/sub.h:117-122 | the carry registers and bytes of neg_byte as written exist for every source |
| Sub.NegByte | NOAHZK_bigint_lib/ops/sub.h:112-123 | NOAHZK_variable_width_neg_byte as written (both trees): the width bytes of dst are those NegSteps fixes over src, with 16-bit ~src[i]; dst may be src |
| Sub.NegByteWidthOne | NOAHZK_bigint_lib/ops/sub.h:112-123 | neg_byte as written negates a single byte correctly |
| Sub.NegByteCounterexample | NOAHZK_bigint_lib/ops/sub.h:119-121 | as written, the two-byte zero negates to [0, 0xFF] (65280) instead of 0 |
| Sub.ToInt8 | NOAHZK_bigint_lib/ops/sub.h:142 | the int8_t conversion of a byte is its two's-complement reading: congruent mod 256, nonnegative exactly below 0x80 |
| Sub.SignedBorrowStep | NOAHZK_bigint_lib/ops/sub.h:139-142 | for t in [-2^15, 2^15), z = t in 16 bits keeps t mod 256 in its low byte and z >> 8 read as int8_t is floor(t / 256) |
| Sub.SubWithBitOffsetChain | NOAHZK_bigint_lib/ops/sub.h:132-143 | the bit-offset loop writes the chain over rs0 from byte bit_offset / 8 minus rs1 << (bit_offset % 8) into bytes byte_offset..widthResult and leaves every other byte |
| Sub.ValAbove | NOAHZK_bigint_lib/ops/sub.h:132 | the bytes of an operand from byte k on hold its value divided by 256^k |
| Sub.SubBitOffsetClose | NOAHZK_bigint_lib/ops/sub.h:132-143 | the bit-offset chain's digits are (a / 256^k - b m) mod 256^n |
| Sub.SubBitOffsetChainOf | NOAHZK_bigint_lib/ops/sub.h:130-143 | the chain of sub_with_bit_offset_byte exists and its digits are (rs0 / 256^(bit_offset/8) - rs1 2^(bit_offset%8)) mod 256^n |
| Sub.SubBitOffsetOperands | NOAHZK_bigint_lib/ops/sub.h:139 | that chain's operands are the bytes as the loop reads them |
| Sub.LowHighMod | NOAHZK_bigint_lib/ops/sub.h:132 | keeping the bytes below k and writing (a / 256^k - e) mod 256^n above them leaves (a - e 256^k) mod 256^(k + n) |
| Sub.SubWithBitOffsetByte | NOAHZK_bigint_lib/ops/sub.h:125-144 | NOAHZK_variable_width_sub_with_bit_offset_byte: bytes bit_offset/8..widthResult become (rs0 / 256^(bit_offset/8) - rs1 2^(bit_offset%8)) mod 256^(widthResult - bit_offset/8); no other byte changes |
| Sub.SubWithBitOffsetInPlace | NOAHZK_bigint_lib/ops/sub.h:125-144 | with dst == rs0 the whole result is (rs0 - rs1 2^bit_offset) mod 256^widthResult |
| Mul.MulArrWithByteChain | NOAHZK_bigint_lib/ops/mul.h:36-42 | the loop of mul_arr_with_byte writes the digits of the chain rs1 * rs0 into width bytes and its last carry into byte width, and no other byte |
| Mul.ByteChainStep | NOAHZK_bigint_lib/ops/mul.h:38-40 | the 16-bit product plus the carry never overflows, and its low and high bytes are the digit and the carry out |
| Mul.MulArrWithByte | NOAHZK_bigint_lib/ops/mul.h:35-43 | NOAHZK_variable_width_mul_arr_with_byte: the width + 1 bytes of dst hold rs0 * rs1, the rest untouched; dst may be rs0 |
| Mul.ArrWithByteClose | NOAHZK_bigint_lib/ops/mul.h:36-42 | the chain's digits followed by its last carry are the digits of A * r |
| Mul.ZeroBytes | NOAHZK_bigint_lib/ops/mul.h:77 | memset(dst, 0, n) zeroes the first n bytes and keeps the rest |
| Mul.ValSplit | NOAHZK_bigint_lib/ops/mul.h:59 | splitting a buffer at n bytes splits its value: low + high 256^n |
| Mul.MulByte | NOAHZK_bigint_lib/ops/mul.h:48-82 | NOAHZK_variable_width_mul_byte: a zero width writes nothing; otherwise the width0 + width1 bytes of dst hold rs0 * rs1 and later bytes are untouched; dst may be either operand |
| Mul.MulByteSingle | NOAHZK_bigint_lib/ops/mul.h:52-55 | the one-byte-by-one-byte case: the two bytes of dst hold the 16-bit product |
| Mul.MulByteSplit | NOAHZK_bigint_lib/ops/mul.h:59-81 | the recursive case for widths of at least 2: dst holds the product even when it is one of the operands |
| Mul.Partials | NOAHZK_bigint_lib/ops/mul.h:59-75 | the four partial products, placed at byte offsets 0, m, n and n + m, add up to rs0 * rs1 |
| Mul.SliceSplit | NOAHZK_bigint_lib/ops/mul.h:59-75 | splitting a window at n bytes splits its value |
| Mul.PartialsClose | NOAHZK_bigint_lib/ops/mul.h:59-81 | x0y0 + x0y1 256^m + x1y0 256^n + x1y1 256^(n+m) == a b for a split at n and b split at m |
| Mul.Partial | NOAHZK_bigint_lib/ops/mul.h:61-75 | each scratch buffer uint8_t X[w0 + w1] holds its partial product exactly |
| Mul.Accumulate | NOAHZK_bigint_lib/ops/mul.h:77-81 | the memset and the three byte-offset adds leave the weighted sum of the partials modulo 256^width in dst, the rest untouched |
| Mul.ExpandProduct | NOAHZK_bigint_lib/ops/mul.h:59-81 | (x0 + x1 p)(y0 + y1 q) expands into the four partial products |
| Mul.ProductFits | NOAHZK_bigint_lib/ops/mul.h:78 | the product of values below P and Q is below P Q, so width0 + width1 bytes hold it |
| Mul.KBytes | NOAHZK_bigint_lib/ops/mul.h:86 | the bytes of &k are eight |
| Mul.Bytecnt | NOAHZK_bigint_lib/ops/mul.h:85 | NOAHZK_min_bytecnt_var(k) is the byte length of k, at most 8, bracketing k |
| Mul.KBytesVal | NOAHZK_bigint_lib/ops/mul.h:86 | every window of the bytes of k at least as wide as its byte count holds k; only 0 has no bytes |
| Mul.ConstantBytes | NOAHZK_bigint_lib/ops/mul.h:86 | a buffer holding the eight bytes of k |
| Mul.MulConstantByte | NOAHZK_bigint_lib/ops/mul.h:84-87 | NOAHZK_variable_width_mul_constant_byte: zero width0 or k writes nothing; otherwise the width0 + bytes_k bytes of dst hold rs0 * k |
| Mul.StoreLimbs | NOAHZK_bigint_lib/ops/mul.h:95 | the bytes written through the uint8_t view, read back as limbs |
| Mul.ViewAndMul | NOAHZK_bigint_lib/ops/mul.h:95 | mul_byte on the byte view of limbs A: non-zero widths put the product in the low w0 + w1 bytes and keep the rest of the view; a zero width leaves the view |
| Mul.MulIntoLimbs | NOAHZK_bigint_lib/ops/mul.h:95 | mul_byte run on a limb buffer's byte view: the low w0 + w1 view bytes hold the product and the later ones are kept; a zero width changes nothing |
| Mul.ViewVal | NOAHZK_bigint_lib/ops/mul.h:95 | the byte view of a whole limb buffer has the limbs' value |
| Mul.ResizeAndMul | NOAHZK_bigint_lib/ops/mul.h:92-97 | dst resized to newWidth limbs whose bytes the operands fill exactly holds their product; a zero width keeps the limbs realloc kept |
| Mul.Mul | NOAHZK_bigint_lib/ops/mul.h:91-98 | NOAHZK_variable_width_mul: dst gets width rs0.width + rs1.width and, for non-zero widths, the value rs0 * rs1; with a zero width dst keeps the limbs realloc kept, against the comment at line 94 |
| Mul.MulFixed | NOAHZK_bigint_lib/ops/mul.h:91-98 | mul with the resized buffer cleared for an empty operand: dst holds rs0 * rs1 in every case |
| Mul.ConstantLimbs | NOAHZK_bigint_lib/ops/mul.h:101 | limbs_k is at most 2, and 4 limbs_k bytes cover bytes_k |
| Mul.MulConstant | NOAHZK_bigint_lib/ops/mul.h:100-107 | NOAHZK_variable_width_mul_constant: width rs0.width + limbs_k and, when rs0.width and k are non-zero, the value rs0 * k; otherwise the limbs realloc kept stay |
| Mul.ViewSplit | NOAHZK_bigint_lib/ops/mul.h:116 | a view whose low n bytes hold p < 256^n has value p mod 256^n, plus its high bytes |
| Mul.ConstantProductFits | NOAHZK_bigint_lib/ops/mul.h:113-116 | k0 k1 fits in bytes_k0 + bytes_k1 bytes |
| Mul.ProductBelow | NOAHZK_bigint_lib/ops/mul.h:113-116 | the product of values below P and Q is below their product |
| Mul.MulBothConstants | NOAHZK_bigint_lib/ops/mul.h:109-117 | NOAHZK_variable_width_mul_both_constants: width ceil((bytes_k0 + bytes_k1) / 4); for non-zero constants the low bytes_k0 + bytes_k1 bytes hold k0 * k1 and the pad bytes keep old contents; with a zero constant the kept limbs stay |
| Mul.MulConstantsOver | NOAHZK_bigint_lib/ops/mul.h:114-116 | after realloc the product goes to the low bytes, and the view bytes above them keep what the old limbs had |
| Mul.MulConstantsInto | NOAHZK_bigint_lib/ops/mul.h:116 | the two constant buffers fed to the multiplier on the byte view: a zero constant changes nothing, otherwise the low bytes hold k0 * k1 and the rest are kept |
| Mul.LowBytesHold | NOAHZK_bigint_lib/ops/mul.h:116 | limbs whose low n view bytes hold p < 256^n have value p mod 256^n |
| Mul.PadBytesKept | NOAHZK_bigint_lib/ops/mul.h:112-116 | the view bytes from n on that realloc kept are the old limbs' bytes |
| Mul.StalePadCounterexample | NOAHZK_bigint_lib/ops/mul.h:109-117 | mul_both_constants run with 2 and 3 into a one-limb dst holding 0xFFFFFFFF leaves 0xFFFF0006 instead of 6 |
| Mul.MulBothConstantsFixed | NOAHZK_bigint_lib/ops/mul.h:109-117 | mul_both_constants with the buffer cleared: dst holds k0 * k1 exactly |
| Mul.ZeroPadValue | NOAHZK_bigint_lib/ops/mul.h:112-116 | limbs whose low n view bytes hold p and whose other view bytes are zero have value p |
| Mul.ZeroLimbsView | NOAHZK_bigint_lib/ops/mul.h:95 | the byte view of all-zero limbs is all zero |
| Mul.Square | NOAHZK_bigint_lib/ops/mul.h:128-130 | NOAHZK_variable_width_square: width 2 src.width and the value src^2, exact in every case |
| Mul.SquareConstant | NOAHZK_bigint_lib/ops/mul.h:132-134 | NOAHZK_variable_width_square_constant: width ceil(2 bytes_k / 4), and for k > 0 the low 2 bytes_k bytes hold k^2 |
| Mul.BitOfLimbs | NOAHZK_bigint_lib/ops/mul.h:28 | bit i of a limb sequence is bit i % 32 of limb i / 32 |
| Mul.ReadBit | NOAHZK_bigint_lib/ops/mul.h:28 | (src->arr[i / 32] >> i % 32) & 1 is bit i of the source cut to its low bits |
| Mul.OrBitStep | NOAHZK_bigint_lib/ops/mul.h:28 | or-ing the bit into position i - shamt, still clear, of the partial result adds it, giving (t / 2^i) 2^(i - shamt) |
| Mul.ShiftInto | NOAHZK_bigint_lib/ops/mul.h:26-28 | the bit loop for 0 < shamt < bits leaves (src mod 2^bits) >> shamt in the zeroed buffer |
| Mul.ShiftBit | NOAHZK_bigint_lib/ops/mul.h:28 | one iteration of the shift loop keeps its invariant |
| Mul.ShiftRight | NOAHZK_bigint_lib/ops/mul.h:22-32 | NOAHZK_variable_width_shift_right: dst keeps its width; a shift of 0 leaves dst's own limbs, whatever src is; otherwise dst becomes (src mod 2^(32 width)) >> shamt |
| Mul.ShiftedOut | NOAHZK_bigint_lib/ops/mul.h:26 | a shift by the whole width or more leaves 0, which is the shifted value |
| Mul.ShiftRightFixed | NOAHZK_bigint_lib/ops/mul.h:22-32 | shift_right with a shift of 0 copying src: dst becomes (src mod 2^(32 width)) >> shamt for every shamt |
| Mul.CopiedLow | NOAHZK_bigint_lib/ops/mul.h:25 | the low w limbs of a source hold its low 32 w bits |
| Mul.MulBySquare | NOAHZK_bigint_lib/ops/mul.h:119-126 | NOAHZK_variable_width_mul_by_square as written: dst becomes rs0 + rs1^2 at add_and_resize's width, not the documented rs0 rs1^2 |
| Mul.NewSquare | NOAHZK_bigint_lib/ops/mul.h:121-122 | the temporary from the initializer multiplied into by rs1 twice holds rs1^2 in 2 rs1.width limbs |
| Mul.MulBySquareFixed | NOAHZK_bigint_lib/ops/mul.h:119-126 | mul_by_square as documented: dst = rs0 rs1^2 |
| Mul.MulBySquareConstant | NOAHZK_bigint_lib/ops/mul.h:136-142 | NOAHZK_variable_width_mul_by_square_constant as written: dst becomes rs0 + square, where square is k^2 in its low 2 bytes_k bytes (0 for k == 0) |
| Mul.MulBySquareConstantFixed | NOAHZK_bigint_lib/ops/mul.h:136-142 | mul_by_square_constant as its name says: dst = rs0 k^2 |
| Mul.InitOne | NOAHZK_bigint_lib/ops/mul.h:146 | init_constant(alloca(...), 1) gives a fresh one-limb integer holding 1 |
| Mul.PowStep | NOAHZK_bigint_lib/ops/mul.h:147 | one more factor v turns v^i into v^(i+1) |
| Mul.RaiseToPower | NOAHZK_bigint_lib/ops/mul.h:146-147 | the power loop leaves width 1 + power rs1.width and the value rs1^power, or 1 for an empty rs1 |
| Mul.RaiseToPowerFixed | NOAHZK_bigint_lib/ops/mul.h:146-147 | the power loop with the zero-safe mul leaves rs1^power |
| Mul.MulToPowerConstant | NOAHZK_bigint_lib/ops/mul.h:144-151 | NOAHZK_variable_width_mul_to_power_constant as written: dst becomes rs0 + rs1^power (rs0 + 1 for an empty rs1), not the documented rs0 rs1^power |
| Mul.MulToPowerConstantFixed | NOAHZK_bigint_lib/ops/mul.h:144-151 | as documented: dst = rs0 rs1^power |
| Mul.MulConstantFixed | NOAHZK_bigint_lib/ops/mul.h:100-107 | mul_constant with the buffer cleared in the empty cases: dst holds rs0 k in every case |
| Mul.ConstantToPower | NOAHZK_bigint_lib/ops/mul.h:155-156 | the constant power loop leaves k^power, or 1 for k == 0 |
| Mul.ConstantToPowerFixed | NOAHZK_bigint_lib/ops/mul.h:155-156 | the constant power loop with the zero-safe mul_constant leaves k^power |
| Mul.MulByConstantToPowerConstant | NOAHZK_bigint_lib/ops/mul.h:153-160 | NOAHZK_variable_width_mul_by_constant_to_power_constant as written: dst becomes rs0 + k^power (rs0 + 1 for k == 0), not rs0 k^power |
| Mul.MulByConstantToPowerConstantFixed | NOAHZK_bigint_lib/ops/mul.h:153-160 | as documented: dst = rs0 k^power |
| Mul.MaddConstant | NOAHZK_bigint_lib/ops/mul.h:162-171 | NOAHZK_variable_width_madd_constant: nothing changes for an empty src; for k > 0 dst becomes exactly dst + src k, growing only as needed; for k == 0 the value does not decrease but the width is unconstrained |
| Mul.MaddConstantFixed | NOAHZK_bigint_lib/ops/mul.h:162-171 | madd_constant with the zero-safe mul_constant: dst += src k for every k |
| Mul.AddAndMulAndResize | NOAHZK_bigint_lib/ops/mul.h:173-177 | NOAHZK_variable_width_add_and_mul_and_resize: dst = (dst + rs1) rs2, using the sum as rs2 itself when rs2 is dst, exact when neither factor is empty; an empty rs2 leaves the sum |
| Mul.MulModMod | NOAHZK_bigint_lib/ops/mul.h:185-188 | ((x mod q r) y) mod q == (x y) mod q |
| Mul.LowBytesVal | NOAHZK_bigint_lib/ops/mul.h:188 | limbs read back through their low n bytes give their value mod 256^n |
| Mul.SumTimes | NOAHZK_bigint_lib/ops/mul.h:183-186 | loading the bytes, adding rs1 and multiplying by rs2 leaves (dst + rs1) rs2 modulo 256^width0, or the sum alone for an empty rs2 |
| Mul.MulInPlace | NOAHZK_bigint_lib/ops/mul.h:186 | mul(rs0, rs0, rs2) becomes the product for non-zero widths and keeps the value for an empty rs2 |
| Mul.LoadAndAdd | NOAHZK_bigint_lib/ops/mul.h:183-185 | the loaded temporary plus rs1 with the fixed-width add, modulo its width |
| Mul.AddAndMulIntoByte | NOAHZK_bigint_lib/ops/mul.h:180-190 | NOAHZK_variable_width_add_and_mul_into_byte: the first width0 bytes become ((dst + rs1) rs2) mod 256^width0, or the sum for an empty rs2; later bytes are untouched |
| Mul.TriangleExact | NOAHZK_bigint_lib/ops/mul.h:195-198 | with the exact square, (n^2 + n) / 2 is n (n + 1) / 2 |
| Mul.NthTriangleNumber | NOAHZK_bigint_lib/ops/mul.h:192-201 | NOAHZK_variable_width_nth_triangle_number: the result is (square + n) / 2 for the square square_constant left, which is n (n + 1) / 2 whenever 2 bytes_n fills whole limbs |
| Mul.NthTriangleNumberFixed | NOAHZK_bigint_lib/ops/mul.h:192-201 | on the exact square: n (n + 1) / 2 for every n |
| Mul.AddConstantAndHalve | NOAHZK_bigint_lib/ops/mul.h:197-198 | add_and_resize_constant(dst, dst, n) followed by shift_right by one halves dst + n, rounding down |
| Mul.ZeroWidthCounterexample | NOAHZK_bigint_lib/ops/mul.h:94 | mul run on an empty rs0 and 7 into a dst holding 5 leaves 5, not 0: mul_byte never clears dst, against the comment |
| Mul.ZeroConstantCounterexample | NOAHZK_bigint_lib/ops/mul.h:100-107 | mul_constant run on 7 and the constant 0 into a dst holding 5 leaves 5, not 0, since limbs_k is 0 and nothing is written |
| Mul.ShiftZeroCounterexample | NOAHZK_bigint_lib/ops/mul.h:24 | shift_right run by 0 on a src holding 7 into a dst holding 5 leaves 5 where the shifted source is 7 |
| Mul.ShiftZeroFixed | NOAHZK_bigint_lib/ops/mul.h:22-32 | the fixed shift run on the same inputs gives 7 |
| Mul.AddInsteadOfMultiply | NOAHZK_bigint_lib/ops/mul.h:119-126 | mul_by_square run on 2 and 3 gives 11 = 2 + 3^2, not the documented 18 = 2 3^2 |
| Mul.PowerAddsCounterexample | NOAHZK_bigint_lib/ops/mul.h:144-160 | mul_to_power_constant and mul_by_constant_to_power_constant run on 2, 3 and power 2 both give 11, not 18 |
| MulLegacy.RowProduct | NOAHZK_bigint_lib/mul.h:44-47 | the running product of the width0 == 1 path is the byte rs0[0] times the value of rs1 |
| MulLegacy.LowByte | NOAHZK_bigint_lib/mul.h:48 | a byte below position n of x mod 256^n is the same byte of x |
| MulLegacy.RowChainDigits | NOAHZK_bigint_lib/mul.h:45-50 | the low bytes the row loop's carried `product` produces are exactly the low width1 bytes of rs0[0] * rs1 |
| MulLegacy.ByteSumsIndex | NOAHZK_bigint_lib/mul.h:48 | `dst[i] += v` on a uint8_t is (dst[i] + v) mod 256 at every position |
| MulLegacy.LowProductsIndex | NOAHZK_bigint_lib/mul.h:56 | the column path adds only (rs0[i] rs1[0]) mod 256 at position i |
| MulLegacy.ByteSumsStep | NOAHZK_bigint_lib/mul.h:48 | writing byte i extends the carry-free sum of the bytes before it by one byte |
| MulLegacy.TailStep | NOAHZK_bigint_lib/mul.h:48 | writing byte i leaves the bytes after it |
| MulLegacy.ByteProductBound | NOAHZK_bigint_lib/mul.h:47 | the uint16_t `product` never wraps: a byte carry plus a byte product is below 2^16 |
| MulLegacy.ByteAdd | NOAHZK_bigint_lib/mul.h:48 | adding a uint16_t into a uint8_t adds only its low byte |
| MulLegacy.MulRowLegacy | NOAHZK_bigint_lib/mul.h:44-52 | the width0 == 1 path: bytes below width1 become the carry-free byte sums of their old contents and the low width1 bytes of rs0[0] * rs1, the final carry is lost, later bytes are untouched; holds when dst does not overwrite rs0[0] |
| MulLegacy.RowStep | NOAHZK_bigint_lib/mul.h:46-50 | one iteration of the row loop keeps its invariant and carries the high byte |
| MulLegacy.MulColumnLegacy | NOAHZK_bigint_lib/mul.h:53-61 | the width1 == 1 path: byte i below width0 becomes (dst[i] + (rs0[i] rs1[0]) mod 256) mod 256, every high byte lost, later bytes untouched; holds when dst does not overwrite rs1[0] |
| MulLegacy.ColumnStep | NOAHZK_bigint_lib/mul.h:55-59 | one iteration of the column loop: product is reassigned, its shifted value never used |
| MulLegacy.SplitExactIff | NOAHZK_bigint_lib/mul.h:38-86 | the recursion multiplies exactly on a pair of widths if and only if they are equal powers of two |
| MulLegacy.PowerOfTwoPow | NOAHZK_bigint_lib/mul.h:63 | 2^a halves down to 1 |
| MulLegacy.LimbSquareExact | NOAHZK_bigint_lib/mul.h:99 | operands of 2^a limbs each (4 2^a bytes) are on the exact widths |
| MulLegacy.MulByteLegacy | NOAHZK_bigint_lib/mul.h:36-86 | NOAHZK_variable_width_mul_byte of the older tree: a zero width writes nothing, the one-byte paths leave their carry-free byte sums, the split writes width0 + width1 bytes, and on equal power-of-two widths dst holds rs0 * rs1 |
| MulLegacy.MulByteLegacySplit | NOAHZK_bigint_lib/mul.h:63-85 | the split case writes only width0 + width1 bytes and, on exact widths, leaves the product there even though its scratch buffers start uninitialised |
| MulLegacy.PartialsLegacy | NOAHZK_bigint_lib/mul.h:63-79 | on exact widths the four partials placed at byte offsets 0, m, n and n + m add up to rs0 * rs1 |
| MulLegacy.PartialsExact | NOAHZK_bigint_lib/mul.h:63-79 | the four sub-products at their offsets sum to the whole product |
| MulLegacy.PartialLegacy | NOAHZK_bigint_lib/mul.h:66-67 | a scratch uint8_t X[w0 + w1] multiplied into on exact widths holds the product whatever it started with |
| MulLegacy.MulConstantByteLegacy | NOAHZK_bigint_lib/mul.h:88-91 | mul_constant_byte of the older tree: zero width0 or k writes nothing; a one-byte k against a longer rs0 gives the column path's byte sums; on exact widths the width0 + bytes_k bytes hold rs0 * k |
| MulLegacy.ViewProduct | NOAHZK_bigint_lib/mul.h:99 | limbs whose low view bytes hold a product of byte strings are that product modulo their weight |
| MulLegacy.ModWeight | NOAHZK_bigint_lib/mul.h:99 | reducing by the weight of equal byte counts agrees |
| MulLegacy.SamePrefixValue | NOAHZK_bigint_lib/mul.h:99 | prefixes of the same length have the same value |
| MulLegacy.ProductOfValues | NOAHZK_bigint_lib/mul.h:99 | a product is the product of its operands' values however they are written |
| MulLegacy.ViewAndMulLegacy | NOAHZK_bigint_lib/mul.h:99 | the multiplier run on the byte view of limbs A: a zero width leaves it, separate exact operands leave the product below the rest of A's bytes, and the column path gives its byte sums, also when the first operand is the view |
| MulLegacy.LegacyIntoLimbs | NOAHZK_bigint_lib/mul.h:99 | the same run stored back into the limbs: a zero width leaves them, exact widths put the product in their low bytes, the column path its byte sums |
| MulLegacy.StoreView | NOAHZK_bigint_lib/mul.h:99 | writing bytes through the uint8_t view sets the limbs' view to them, and writing their own view back changes nothing |
| MulLegacy.ViewLow | NOAHZK_bigint_lib/mul.h:99 | limbs modulo 256^n are the value of their low n view bytes |
| MulLegacy.WidthRead | NOAHZK_bigint_lib/mul.h:96-99 | because dst->width is set first, an operand that is dst is read at the new width and any other at its own |
| MulLegacy.MulVarLegacy | NOAHZK_bigint_lib/mul.h:95-100 | NOAHZK_variable_width_mul of the older tree: width rs0.width + rs1.width; separate operands on equal power-of-two byte widths give rs0 * rs1; a zero width keeps the limbs realloc kept; an operand that is dst is read at the enlarged width, which is allowed only where the writes fit |
| MulLegacy.ValueFilled | NOAHZK_bigint_lib/mul.h:99 | a number whose whole view is m bytes and equals p modulo 256^m is p |
| MulLegacy.ConstantOperand | NOAHZK_bigint_lib/mul.h:103-107 | bytes_k is the byte length of k and the low bytes_k bytes of &k hold k; a one-byte k is &k's first byte |
| MulLegacy.ConstantOperandBytes | NOAHZK_bigint_lib/mul.h:103-107 | the low bytes_k bytes of k's eight bytes have value k, and no bytes only for 0 |
| MulLegacy.MulConstantLegacy | NOAHZK_bigint_lib/mul.h:102-108 | mul_constant of the older tree: width rs0.width + bytes_k, a byte count taken as limbs; separate operands on exact widths give rs0 * k modulo the weight of the bytes written; a zero width or k writes nothing; a one-byte k gives the column path's byte sums, in place too |
| MulLegacy.OperandValue | NOAHZK_bigint_lib/mul.h:99 | an operand read through its uint8_t view has its value |
| MulLegacy.BytesArray | NOAHZK_bigint_lib/mul.h:107 | a buffer holding given bytes, as &k is |
| MulLegacy.ResizeAndMulLegacy | NOAHZK_bigint_lib/mul.h:96-99 | the realloc and the multiplier call the wrappers share: the kept limbs stay for a zero width, the product is in the low bytes on exact widths, and the column path gives its byte sums |
| MulLegacy.ResizeLegacy | NOAHZK_bigint_lib/mul.h:96-97 | `dst->width = w; realloc` keeps the limbs both widths share |
| MulLegacy.MulBothConstantsLegacy | NOAHZK_bigint_lib/mul.h:110-118 | mul_both_constants of the older tree: width bytes_k0 + bytes_k1 limbs, about four times the bytes needed; on exact widths the low bytes hold k0 * k1 under stale pad limbs; a zero constant keeps the limbs realloc kept |
| MulLegacy.InPlaceOneLow | NOAHZK_bigint_lib/mul.h:148 | the one-limb 1 multiplied in place by a one-byte k through the column path has low limb 1 + k mod 256 |
| MulLegacy.InPlaceOneBytes | NOAHZK_bigint_lib/mul.h:148 | the bytes 1, 0, 0, 0 become 1 + k mod 256, 0, 0, 0 under the column path |
| MulLegacy.MulByConstantToPowerConstantLegacy | NOAHZK_bigint_lib/mul.h:146-152 | mul_by_constant_to_power_constant of the older tree: whatever power is, dst becomes rs0 + 1 for k == 0 and otherwise agrees with rs0 + 1 + k mod 256 in its low limb |
| MulLegacy.PowerTemporary | NOAHZK_bigint_lib/mul.h:147-148 | the temporary after the empty loop and the single in-place mul_constant: 1 for k == 0, else 1 + k mod 256 in its low limb |
| MulLegacy.PowerSum | NOAHZK_bigint_lib/mul.h:150 | a sum whose addend is 1 + k mod 256 modulo 2^32 is that modulo 2^32 |
| MulLegacy.MulOneInPlace | NOAHZK_bigint_lib/mul.h:148 | mul_constant(product, product, k) on the temporary 1: unchanged for k == 0, low limb 1 + k mod 256 otherwise |
| MulLegacy.RowCarryLost | NOAHZK_bigint_lib/mul.h:44-52 | 2 times 0x8000 is 0x10000, but the row path leaves 0 in zeroed bytes |
| MulLegacy.ColumnCarryDropped | NOAHZK_bigint_lib/mul.h:53-61 | 0xFF times 2 is 0x1FE, but the column path leaves 0xFE |
| MulLegacy.MulAliasOverflows | NOAHZK_bigint_lib/mul.h:96-99 | mul(x, x, y) with one-limb x and y reads x at 8 bytes and writes 12 bytes into the 8-byte buffer |
| MulLegacy.PowerLoopCounterexample | NOAHZK_bigint_lib/mul.h:148 | the older mul_by_constant_to_power_constant run on rs0 = 1, k = 2 and power 3 leaves 4 in the low limb instead of 8 |

## Left out

- Allocation failure: every `malloc`, `calloc`, `realloc` and `alloca` returns a buffer. The source never checks for NULL.
- `free`: a freed buffer is not modelled as invalid. `Lifecycle.Destroy` leaves `arr` pointing at the zeroed buffer. Freeing the container itself (the `freeptr` flag) is left out.
- `secure_erase` in the older `type.h` comes from a header that is not part of this model. Only its effect is modelled: every limb becomes 0. The guarantee that the compiler keeps the erase is not modelled.
- Constant-time and timing claims cannot be stated in Dafny. The model only makes the branches of `mul_byte` depend on its width parameters alone.
- `__builtin_popcountll` and `__builtin_clzll` are mathematical functions in `Bits`. `clz` requires a nonzero argument, as the C builtin does.
- Aliasing between a limb buffer and its `uint8_t` view is modelled by converting between limbs and bytes. The byte routines run on the converted copy, and the result is stored back. Aliasing between the operands of a byte routine (dst being rs0 or rs1) is modelled on the arrays themselves.
- `NOAHZK_SWP_PTR` xors addresses through `intptr_t`. It has no meaning on Dafny references and is left out.
- Build breakage is not reproduced. The model uses the intended types where the source has:
  - a struct tag against an anonymous typedef;
  - an initializer macro used before its definition;
  - a `uint64_t` passed to the older `square`;
  - a reused include guard.
- The older tree's `add.h` and `logarithms.h` are not part of this model. `MulLegacy` uses the newer `Add` and `Logarithms` members in their place.
- The older `mul.h` helpers `square`, `square_constant` and `mul_by_square` (older mul.h:120-135) compose the same calls as their newer counterparts. They are not modelled separately. `MulLegacy` models only the older multiplier, wrappers and power routine they rest on.
- The older `mul_by_square_constant` (older mul.h:137-143) passes the integer k to `square`, which takes a variable-width operand. It is not modelled.
- The older `madd_constant` (older mul.h:155-161) has no early return for an empty src, unlike the newer one (ops/mul.h:164). With an empty src, `mul_constant` leaves the temporary's fresh limbs unwritten and `add_and_resize` adds them to dst. It is not modelled: the value added is whatever `realloc` returned. `Mul.MaddConstant` models only the newer routine.
- The older `nth_triangle_number` (older mul.h:163-172) runs the same square_constant, add_and_resize_constant and shift_right sequence as the newer one (ops/mul.h:193-201), but on the older routines. It is not modelled separately.
- The older `shift_right` is identical to the newer one, and `Mul.ShiftRight` models both.
- The older byte routines of `sub.h` (neg_byte, sub_with_bit_offset_byte, sub_byte, sub_constant_byte, both_sub_byte) are the same loops as in `ops/sub.h`. The `Sub` members model both.
- Words.Section: models `NOAHZK_get_section_from_var` with the shift section times the section's size, the shift the older tree writes out explicitly (older sub.h:31 and :90). The routines built on the macro (add_constant, add_and_resize_constant, add_constant_byte, sub_constant, sub_and_resize_constant, sub_constant_byte, add_or_sub_constant, nth_triangle_number) use this intended section.
- MulLegacy.MulByteLegacy: scratch buffers start with unknown contents. The older multiplier is proved exact only on widths where every sub-multiplication overwrites its scratch buffer: equal powers of two. On other widths the split case's result is unconstrained; its one-byte paths are stated byte by byte.
- Mul.MulBothConstants, Mul.SquareConstant and Mul.MulBySquareConstant: the pad bytes above the product keep what `realloc` left. They are unconstrained, so the value is stated modulo the weight of the product's bytes.
- Mul.MaddConstant: with k == 0 the product temporary is fresh memory that `mul_constant` never writes. The contract states only that dst does not decrease. It says nothing about the width.
- MulLegacy.MulByConstantToPowerConstantLegacy: only dst's low limb is stated for k > 0. The temporary's upper limb is memory `realloc` left.
- Add.AddWithByteOffsetByte, Add.AddWithBitOffsetByte and Sub.SubWithBitOffsetByte: when rs1 is dst, the byte offset must be 0. With a positive offset the C loop reads bytes of rs1 it has already overwritten, and the model does not state that result.
- Sub.AddOrSub and the other `add_or_sub` members: op must be OP_ADD or OP_SUB. The C takes any `uint32_t`; other values give a different mask `-op` and a larger per-limb addend, which are not modelled.
- MulLegacy.MulByConstantToPowerConstantLegacy: k must be below 256. For a larger k the in-place `mul_constant` grows the limb width by the byte count of k and writes past the buffer, which is not modelled.
- MulLegacy.MulVarLegacy and MulLegacy.MulConstantLegacy: an operand that is dst is read at the enlarged width. These calls are allowed only where the multiplier's writes stay inside the buffer. The out-of-bounds writes of the other in-place calls are not modelled.

## Findings

| source | as written | input that shows it | evidently intended | confidence | as-written member | corrected member |
|---|---|---|---|---|---|---|
| NOAHZK_bigint_lib/ops/sub.h:56-58 | the borrow `z >> 32` of a wrapped 64-bit difference is 0xFFFFFFFF, and adding it back acts as a carry | [0, 1, 0] - [1, 0, 0] gives [0xFFFFFFFF, 0, 1], 2^64 too much | (rs0 - rs1) mod 2^(32 width), with the borrow masked to one bit as in the older sub.h:20-22 | not executed | Sub.SubBorrowCounterexample | Sub.Sub |
| NOAHZK_bigint_lib/ops/sub.h:87-89 | sub_and_resize adds back the unmasked borrow `z >> 32` as well | [0, 1, 0] - [1, 0, 0] in three limbs gives [0xFFFFFFFF, 0, 1], 2^64 too much | (rs0 - rs1) mod 2^(32 width), the borrow masked to one bit as sub_and_resize_constant does at line 108 | not executed | Sub.SubAndResizeCounterexample | Sub.SubAndResize |
| NOAHZK_bigint_lib/ops/sub.h:31 | `op` is added into every limb, not only the lowest | [5, 0] - [3, 0] gives [2, 1] | rs0 + ~rs1 + 1, which is rs0 - rs1 modulo the width | not executed | Sub.AddOrSubCounterexample | Sub.AddOrSubFixed |
| NOAHZK_bigint_lib/ops/sub.h:119 | `(uint16_t)(~src[i])` complements in 16 bits, so the carry becomes 0xFF | the two-byte zero negates to [0, 0xFF] | (-src) mod 256^width | not executed | Sub.NegByteCounterexample | Sub.NegByteFixed |
| NOAHZK_bigint_lib/ops/definitions.h:28 | the shift is section * sizeof(var) * 8 | section 1 of a 64-bit var is a shift by 64, undefined in C | section * sizeof(section_type) * 8, the shift the older sub.h:31 and :90 write out as i * 32 and i * 8 | not executed | Words.SectionShiftOverflows | Words.Section |
| NOAHZK_bigint_lib/ops/logarithms.h:56 | `is_value_0` is counted for every zero byte, also below the top nonzero byte | [0x00, 0x01], value 256, gives 8 | the bit length, 9 | not executed | Logarithms.BitcntGapCounterexample | Logarithms.MinBitcntByteFixed |
| NOAHZK_bigint_lib/ops/mul.h:94 | mul relies on mul_byte clearing dst, which mul_byte skips when a width is 0 | an empty rs0 times 7 into a dst holding 5 gives 5 | the product, 0 | not executed | Mul.ZeroWidthCounterexample | Mul.MulFixed |
| NOAHZK_bigint_lib/ops/mul.h:100-107 | a zero k has no bytes, so nothing is multiplied into dst | 7 times 0 into a dst holding 5 gives 5 | 0 | not executed | Mul.ZeroConstantCounterexample | Mul.MulConstantFixed |
| NOAHZK_bigint_lib/ops/mul.h:162-171 | madd_constant with k == 0 adds the product temporary, which mul_constant never wrote | src times 0 adds whatever the fresh buffer holds | dst unchanged | not executed | Mul.MaddConstant | Mul.MaddConstantFixed |
| NOAHZK_bigint_lib/ops/mul.h:109-117 | the pad bytes above the constants' product are not cleared | 2 times 3 into a one-limb dst holding 0xFFFFFFFF gives 0xFFFF0006 | 6 | not executed | Mul.StalePadCounterexample | Mul.MulBothConstantsFixed |
| NOAHZK_bigint_lib/ops/mul.h:119-126 | mul_by_square adds rs1^2 to rs0 | rs0 = 2, rs1 = 3 gives 11 | rs0 rs1^2 = 18 | not executed | Mul.AddInsteadOfMultiply | Mul.MulBySquareFixed |
| NOAHZK_bigint_lib/ops/mul.h:144-151 | mul_to_power_constant adds rs1^power to rs0 | rs0 = 2, rs1 = 3, power 2 gives 11 | rs0 rs1^power = 18 | not executed | Mul.PowerAddsCounterexample | Mul.MulToPowerConstantFixed |
| NOAHZK_bigint_lib/ops/mul.h:153-160 | mul_by_constant_to_power_constant adds k^power to rs0 | rs0 = 2, k = 3, power 2 gives 11 | rs0 k^power = 18 | not executed | Mul.PowerAddsCounterexample | Mul.MulByConstantToPowerConstantFixed |
| NOAHZK_bigint_lib/ops/mul.h:24 | a shift of 0 copies dst's own limbs, not src's | src holding 7 shifted by 0 into a dst holding 5 gives 5 | 7 | not executed | Mul.ShiftZeroCounterexample | Mul.ShiftRightFixed |
| NOAHZK_bigint_lib/mul.h:44-52 | the width0 == 1 path adds with `+=` and never writes the final carry byte | 2 times [0, 0x80] into zeroed bytes gives 0 | 0x10000, which the newer tree's mul_arr_with_byte path writes | not executed | MulLegacy.RowCarryLost | Mul.MulByte |
| NOAHZK_bigint_lib/mul.h:53-61 | the width1 == 1 path assigns `product =`, so no carry reaches the next byte | [0xFF, 0x00] times 2 into zeroed bytes gives [0xFE, 0x00] | 0x1FE | not executed | MulLegacy.ColumnCarryDropped | Mul.MulArrWithByte |
| NOAHZK_bigint_lib/mul.h:95-100 | dst->width is set before the operand widths are read | mul(x, x, y) with one-limb x and y reads x at 8 bytes and writes 12 bytes into an 8-byte buffer | the product, with widths read first as the newer tree does | not executed | MulLegacy.MulAliasOverflows | Mul.Mul |
| NOAHZK_bigint_lib/mul.h:148 | the stray `;` empties the loop, so mul_constant runs once whatever power is | rs0 = 1, k = 2, power 3 gives 4 in the low limb | 8 | not executed | MulLegacy.PowerLoopCounterexample | Mul.MulByConstantToPowerConstantFixed |
