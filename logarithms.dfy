/** Bit and byte lengths: the branch-free zero test, the bit length of a
    64-bit scalar, ceil-log2, byte counts, and the descending loop that
    measures a little-endian byte buffer. */
module Logarithms {
  import opened Digits
  import opened Bits
  import opened Words
  import opened WideInt

  /** The branch-free `is_value_0` expression on the popcount of ~value:
      (n - 64 + 1) & 1 & ~((n - 64) >> 7), evaluated on 32-bit int.  Only bit
      0 survives the final `& 1`, so the logical shift of bv32 gives the same
      result as C's arithmetic shift of a negative int. */
  function IsValue0(n0: nat): (r: nat)
    requires n0 <= 64
    ensures r == if n0 == 64 then 1 else 0
  {
    var x := n0 as bv32;
    (((x - 63) & 1) & !((x - 64) >> 7)) as nat
  }

  /** is_value_0 of a 64-bit value: 1 exactly when the value is 0. */
  function IsValue0Of(v: u64): (r: nat)
    ensures r == if v == 0 then 1 else 0
  {
    PowersOfTwo();
    PopcountComplement(v, 64);
    PopcountZero(v);
    IsValue0(Popcount(Not64(v)))
  }

  /** NOAHZK_min_bitcnt_var: 64 - clz(value | is_value_0) - is_value_0, the
      least number of bits that holds the value. */
  function MinBitcntVar(v: u64): (r: nat)
    ensures r <= 64 && v < Pow(2, r)
    ensures r > 0 ==> Pow(2, r - 1) <= v
  {
    var z := IsValue0Of(v);
    OrZero(1);
    OrZero(v);
    PowersOfTwo();
    BitLengthAtMost(v, 64);
    var result := BITS_IN_UINT64 - Clz64(Or(v, z));
    result - z
  }

  lemma MinBitcntVarIsBitLength(v: u64)
    ensures MinBitcntVar(v) == BitLength(v)
  {
    BitLengthUnique(v, MinBitcntVar(v));
  }

  lemma MinBitcntVarExamples()
    ensures MinBitcntVar(0) == 0 && MinBitcntVar(1) == 1
    ensures MinBitcntVar(255) == 8 && MinBitcntVar(256) == 9
  {
    PowersOfTwo();
    assert Pow(2, 9) == 512 && Pow(2, 7) == 128;
    BitLengthUnique(1, 1);
    BitLengthUnique(255, 8);
    BitLengthUnique(256, 9);
    MinBitcntVarIsBitLength(0);
    MinBitcntVarIsBitLength(1);
    MinBitcntVarIsBitLength(255);
    MinBitcntVarIsBitLength(256);
  }

  /** NOAHZK_ceil_log2_value: 0 for 0, otherwise the least e with v <= 2^e,
      computed as min_bitcnt_var(v - 1) masked by ~(-(uint64_t)is_value_0). */
  function CeilLog2Value(v: u64): (r: nat)
    ensures v == 0 ==> r == 0
    ensures v >= 1 ==> v <= Pow(2, r) && (r > 0 ==> Pow(2, r - 1) < v)
  {
    var z := IsValue0Of(v);
    var mask := Not64((TWO_64 - z) % TWO_64);
    var m := MinBitcntVar((v - 1) % TWO_64);
    CeilLog2Mask(v, z, mask, m);
    And(m, mask)
  }

  lemma CeilLog2Mask(v: u64, z: nat, mask: nat, m: nat)
    requires z == (if v == 0 then 1 else 0) && z <= 1
    requires mask == Not64((TWO_64 - z) % TWO_64) && m <= 64
    ensures v == 0 ==> And(m, mask) == 0
    ensures v >= 1 ==> And(m, mask) == m && (v - 1) % TWO_64 == v - 1
  {
    if v == 0 {
      assert mask == 0;
      AndZero(m);
    } else {
      assert mask == TWO_64 - 1;
      PowersOfTwo();
      PowMonotone(2, m, 64);
      AndAllOnes(m, 64);
    }
  }

  /** NOAHZK_min_bytecnt_var: ceil(min_bitcnt_var / 8), the least number of
      bytes that holds the value. */
  function MinBytecntVar(v: u64): (r: nat)
    ensures r <= 8 && v < Pow(256, r)
    ensures r > 0 ==> Pow(256, r - 1) <= v
  {
    var b := MinBitcntVar(v);
    BytesCoverBits(v, b);
    BitsToBytes(b)
  }

  /** The least number of bytes that holds v, on unbounded naturals. */
  function ByteLength(v: nat): nat
  {
    BitsToBytes(BitLength(v))
  }

  /** min_bytecnt_var is the byte length, and it brackets the value. */
  lemma MinBytecntVarIsByteLength(v: u64)
    ensures MinBytecntVar(v) == ByteLength(v) <= 8
    ensures v < Pow(256, ByteLength(v)) && (ByteLength(v) > 0 ==> Pow(256, ByteLength(v) - 1) <= v)
  {
    MinBitcntVarIsBitLength(v);
  }

  /** The byte length of a 64-bit value brackets it and is at most 8. */
  lemma ByteLengthBounds(v: u64)
    ensures ByteLength(v) <= 8 && v < Pow(256, ByteLength(v))
    ensures ByteLength(v) > 0 ==> Pow(256, ByteLength(v) - 1) <= v
  {
    MinBytecntVarIsByteLength(v);
  }

  lemma BytesCoverBits(v: nat, b: nat)
    requires b <= 64 && v < Pow(2, b) && (b > 0 ==> Pow(2, b - 1) <= v)
    ensures BitsToBytes(b) <= 8 && v < Pow(256, BitsToBytes(b))
    ensures BitsToBytes(b) > 0 ==> Pow(256, BitsToBytes(b) - 1) <= v
  {
    var r := BitsToBytes(b);
    PowPow(2, 8, r);
    PowersOfTwo();
    PowMonotone(2, b, 8 * r);
    if r > 0 {
      PowPow(2, 8, r - 1);
      PowMonotone(2, 8 * (r - 1), b - 1);
    }
  }

  // ------------------------------------------------------------ byte buffers

  function CountZeros(s: seq<byte>): (r: nat)
    ensures r <= |s|
  {
    if |s| == 0 then 0 else CountZeros(s[..|s| - 1]) + (if s[|s| - 1] == 0 then 1 else 0)
  }

  /** What the descending loop of variable_width_min_bitcnt_byte returns: 0
      for an all-zero buffer, otherwise the bit length of the value less one
      for every zero byte below the top nonzero byte. */
  function BitcntWithGaps(s: seq<byte>): nat
  {
    if |s| == 0 then 0
    else if s[|s| - 1] == 0 then BitcntWithGaps(s[..|s| - 1])
    else 8 * (|s| - 1) + BitLength(s[|s| - 1]) - CountZeros(s[..|s| - 1])
  }

  /** The zero bytes that lie below the top nonzero byte. */
  function GapZeros(s: seq<byte>): nat
  {
    if |s| == 0 then 0
    else if s[|s| - 1] == 0 then GapZeros(s[..|s| - 1])
    else CountZeros(s[..|s| - 1])
  }

  ghost predicate AllZero(s: seq<byte>)
  {
    forall j | 0 <= j < |s| :: s[j] == 0
  }

  /** The bit length of a nonzero top byte over n lower bytes is 8 n plus the
      top byte's own bit length. */
  lemma BitLengthTop(lower: seq<byte>, c: byte)
    requires c != 0
    ensures BitLength(ByteVal(lower + [c])) == 8 * |lower| + BitLength(c)
  {
    var k := 8 * |lower|;
    var p := Pow(256, |lower|);
    assert p == Pow(2, k) by {
      PowersOfTwo();
      PowPow(2, 8, |lower|);
    }
    var lo := ByteVal(lower);
    ValSnoc(lower, c, 256);
    assert ByteVal(lower + [c]) == lo + c * p;
    BitLengthShift(lo, c, k);
  }

  /** The loop's result and the true bit length differ by the gap zeros. */
  lemma {:induction false} BitcntWithGapsPlusGaps(s: seq<byte>)
    ensures BitcntWithGaps(s) + GapZeros(s) == BitLength(ByteVal(s))
  {
    if |s| > 0 {
      var n := |s| - 1;
      assert s == s[..n] + [s[n]];
      if s[n] == 0 {
        BitcntWithGapsPlusGaps(s[..n]);
        ValSnoc(s[..n], 0, 256);
      } else {
        BitLengthTop(s[..n], s[n]);
      }
    }
  }

  /** The result is the bit length exactly when no zero byte lies under the top one. */
  lemma BitcntWithGapsExact(s: seq<byte>)
    ensures (BitcntWithGaps(s) == BitLength(ByteVal(s))) == (GapZeros(s) == 0)
  {
    BitcntWithGapsPlusGaps(s);
  }

  /** [0x00, 0x01] holds 256, which needs 9 bits; the loop returns 8. */
  lemma BitcntGapCounterexample()
    ensures BitcntWithGaps([0, 1]) == 8
    ensures ByteVal([0, 1]) == 256 && BitLength(256) == 9
  {
    var s: seq<byte> := [0, 1];
    assert s[..1] == [0] && s[..1][..0] == [];
    assert CountZeros([0]) == 1;
    assert BitLength(1) == 1;
    PowersOfTwo();
    assert Pow(2, 9) == 512 && Pow(2, 8) == 256;
    BitLengthUnique(256, 9);
  }

  lemma {:induction false} AllZeroVal(s: seq<byte>)
    ensures AllZero(s) == (ByteVal(s) == 0)
  {
    if |s| > 0 {
      var n := |s| - 1;
      AllZeroVal(s[..n]);
      ValBounds(s[..n], 256);
      MulNonNeg(s[n], Pow(256, n));
      if s[n] > 0 {
        MulLe(1, s[n], Pow(256, n));
      }
      assert AllZero(s) == (AllZero(s[..n]) && s[n] == 0);
    }
  }

  lemma {:induction false} BitcntWithGapsZero(s: seq<byte>)
    ensures BitcntWithGaps(s) <= 8 * |s|
    ensures (BitcntWithGaps(s) == 0) == AllZero(s)
  {
    if |s| > 0 {
      var n := |s| - 1;
      BitcntWithGapsZero(s[..n]);
      assert AllZero(s) == (AllZero(s[..n]) && s[n] == 0);
      if s[n] != 0 {
        BitLengthAtMost(s[n], 8) by { PowersOfTwo(); }
      }
    }
  }

  /** Putting byte c below an already measured suffix s. */
  lemma {:induction false} BitcntWithGapsPrepend(c: byte, s: seq<byte>)
    ensures AllZero(s) ==> BitcntWithGaps([c] + s) == (if c == 0 then 0 else BitLength(c))
    ensures !AllZero(s) ==> BitcntWithGaps([c] + s) == BitcntWithGaps(s) + 8 - (if c == 0 then 1 else 0)
    decreases |s|
  {
    var t := [c] + s;
    if |s| == 0 {
      assert t[..0] == [];
    } else {
      var n := |s| - 1;
      assert t[..|t| - 1] == [c] + s[..n];
      assert AllZero(s) == (AllZero(s[..n]) && s[n] == 0);
      BitcntWithGapsPrepend(c, s[..n]);
      if s[n] != 0 {
        CountZerosPrepend(c, s[..n]);
        if AllZero(s[..n]) {
          CountZerosAllZero(s[..n]);
        }
      }
    }
  }

  lemma {:induction false} CountZerosPrepend(c: byte, s: seq<byte>)
    ensures CountZeros([c] + s) == CountZeros(s) + (if c == 0 then 1 else 0)
    decreases |s|
  {
    var t := [c] + s;
    if |s| == 0 {
      assert t[..0] == [];
    } else {
      assert t[..|t| - 1] == [c] + s[..|s| - 1];
      CountZerosPrepend(c, s[..|s| - 1]);
    }
  }

  lemma {:induction false} CountZerosAllZero(s: seq<byte>)
    requires AllZero(s)
    ensures CountZeros(s) == |s|
  {
    if |s| > 0 {
      CountZerosAllZero(s[..|s| - 1]);
    }
  }

  /** The leading zero bits of a nonzero byte: __builtin_clzll(x) - (64 - 8). */
  function ByteLeadingZeros(x: nat): (r: nat)
    requires 0 < x < 256
    ensures r < 8 && r == 8 - BitLength(x)
  {
    PowersOfTwo();
    BitLengthAtMost(x, 8);
    Clz64(x) - (BITS_IN_UINT64 - BITS_IN_UINT8)
  }

  /** The operand value[i] | flag | is_value_0 of the loop's clz: the byte
      itself, 1 for a zero byte, and at least 128 once the flag is set. */
  lemma ClzOperand(c: byte, flag: byte)
    requires flag == 0 || 128 <= flag
    ensures 0 < Or(Or(c, flag), IsValue0Of(c)) < 256
    ensures flag == 0 && c == 0 ==> Or(Or(c, flag), IsValue0Of(c)) == 1
    ensures flag == 0 && c != 0 ==> Or(Or(c, flag), IsValue0Of(c)) == c
    ensures flag != 0 ==> BitLength(Or(Or(c, flag), IsValue0Of(c))) == 8
  {
    PowersOfTwo();
    OrZero(c);
    OrZero(flag);
    OrZero(1);
    OrBounds(c, flag, 8);
    OrBounds(Or(c, flag), IsValue0Of(c), 8);
    if flag != 0 {
      assert Pow(2, 7) == 128;
      BitLengthUnique(Or(Or(c, flag), IsValue0Of(c)), 8);
    }
  }

  /** this_byte_number_of_leading_zeroes: the leading zero bits of the byte
      while the flag is clear (7 for a zero byte, whose operand is forced to
      1), and 0 once the flag is set. */
  function ThisByteLeadingZeros(c: byte, flag: byte): (r: nat)
    requires flag == 0 || 128 <= flag
    ensures r < 8
    ensures flag != 0 ==> r == 0
    ensures flag == 0 && c == 0 ==> r == 7
    ensures flag == 0 && c != 0 ==> r == 8 - BitLength(c)
  {
    ClzOperand(c, flag);
    ByteLeadingZeros(Or(Or(c, flag), IsValue0Of(c)))
  }

  /** The flag update of one iteration: (k - is_value_0) << clz(k) - 56 for
      k = 8 - leading zeros, or-ed into the flag. */
  lemma FlagStep(flag: byte, k: nat, z: nat)
    requires 1 <= k <= 8 && z <= 1 && (flag == 0 || 128 <= flag)
    requires z == 1 ==> (k == 1 || k == 8)
    ensures 0 <= (k - z) * Pow(2, ByteLeadingZeros(k)) < 256
    ensures Or(flag, (k - z) * Pow(2, ByteLeadingZeros(k))) < 256
    ensures flag == 0 && z == 1 && k == 1 ==> Or(flag, (k - z) * Pow(2, ByteLeadingZeros(k))) == 0
    ensures flag == 0 && z == 0 ==> 128 <= Or(flag, (k - z) * Pow(2, ByteLeadingZeros(k)))
    ensures flag != 0 ==> 128 <= Or(flag, (k - z) * Pow(2, ByteLeadingZeros(k)))
  {
    var b := BitLength(k);
    var sh := ByteLeadingZeros(k);
    var v := (k - z) * Pow(2, sh);
    assert Pow(2, b + sh) == 256 && Pow(2, b - 1 + sh) == 128 by { PowersOfTwo(); }
    PowAdd(2, b, sh);
    PowAdd(2, b - 1, sh);
    ScaledBounds(0, k - z, Pow(2, sh), 0, Pow(2, b));
    if z == 0 {
      ScaledBounds(0, k, Pow(2, sh), Pow(2, b - 1), Pow(2, b));
    } else if k == 1 {
      assert v == 0;
    }
    OrZero(v);
    OrBounds(flag, v, 8);
  }

  /** The flag after one iteration: clear exactly while every byte seen so far
      is zero, and at least 128 once set. */
  function NextFlag(c: byte, flag: byte): (r: byte)
    requires flag == 0 || 128 <= flag
    ensures (r == 0) == (flag == 0 && c == 0)
    ensures r == 0 || 128 <= r
  {
    var z := IsValue0Of(c);
    var k := BITS_IN_UINT8 - ThisByteLeadingZeros(c, flag);
    assert 1 <= k <= 8;
    assert z == 1 ==> (k == 1 || k == 8);
    FlagStep(flag, k, z);
    var v := (k - z) * Pow(2, ByteLeadingZeros(k));
    assert Or(flag, v) < 256;
    assert flag == 0 && c == 0 ==> Or(flag, v) == 0;
    assert !(flag == 0 && c == 0) ==> 128 <= Or(flag, v);
    Or(flag, v)
  }

  /** One iteration of the loop below keeps its count of leading zeros. */
  lemma MinBitcntStep(c: byte, flag: byte, s: seq<byte>, nlz: nat, m: nat)
    requires (flag == 0) == AllZero(s) && (flag == 0 || 128 <= flag)
    requires BitcntWithGaps(s) <= 8 * m && nlz == 8 * m - BitcntWithGaps(s)
    ensures BitcntWithGaps([c] + s) <= 8 * (m + 1)
    ensures nlz + ThisByteLeadingZeros(c, flag) + IsValue0Of(c) == 8 * (m + 1) - BitcntWithGaps([c] + s)
    ensures (NextFlag(c, flag) == 0) == AllZero([c] + s)
  {
    BitcntWithGapsPrepend(c, s);
    BitcntWithGapsZero(s);
    BitcntWithGapsZero([c] + s);
    if c != 0 {
      BitLengthAtMost(c, 8) by { PowersOfTwo(); }
    }
    assert AllZero([c] + s) == (c == 0 && AllZero(s)) by {
      assert forall j | 0 <= j < |s| :: ([c] + s)[j + 1] == s[j];
    }
  }

  /** NOAHZK_variable_width_min_bitcnt_byte as written: walks the buffer from
      its top byte down, counting leading zero bits until `flag` is set by
      the first nonzero byte, and adding is_value_0 for every zero byte. */
  method MinBitcntByte(value: array<byte>, size: nat) returns (r: nat)
    requires size <= value.Length
    ensures r == BitcntWithGaps(value[..size])
    ensures r <= 8 * size
    ensures (r == 0) == AllZero(value[..size])
  {
    var numberOfLeadingZeroes: nat := 0;
    var flag: byte := 0;
    var i := size;
    while i > 0
      invariant 0 <= i <= size
      invariant BitcntWithGaps(value[i..size]) <= 8 * (size - i)
      invariant numberOfLeadingZeroes == 8 * (size - i) - BitcntWithGaps(value[i..size])
      invariant (flag == 0) == AllZero(value[i..size])
      invariant flag == 0 || 128 <= flag
    {
      i := i - 1;
      var isValue0 := IsValue0Of(value[i]);
      var thisByteLeadingZeroes := ThisByteLeadingZeros(value[i], flag);
      assert value[i..size] == [value[i]] + value[i + 1..size];
      MinBitcntStep(value[i], flag, value[i + 1..size], numberOfLeadingZeroes, size - (i + 1));
      flag := NextFlag(value[i], flag);
      numberOfLeadingZeroes := numberOfLeadingZeroes + thisByteLeadingZeroes + isValue0;
    }
    assert value[0..size] == value[..size];
    BitcntWithGapsZero(value[..size]);
    r := size * BITS_IN_UINT8 - numberOfLeadingZeroes;
  }

  /** Putting byte c below a suffix: c + 256 v, whose bit length is 8 more
      than v's once v is nonzero. */
  lemma BitLengthPrepend(c: byte, s: seq<byte>)
    ensures ByteVal([c] + s) == c + 256 * ByteVal(s)
    ensures ByteVal(s) == 0 ==> BitLength(ByteVal([c] + s)) == BitLength(c)
    ensures ByteVal(s) > 0 ==> BitLength(ByteVal([c] + s)) == BitLength(ByteVal(s)) + 8
  {
    var v := ByteVal(s);
    ValConcat([c], s, 256);
    assert Val([c], 256) == c by { assert [c][..0] == []; }
    assert Pow(256, 1) == 256;
    assert ByteVal([c] + s) == c + 256 * v;
    if v > 0 {
      assert Pow(2, 8) == 256 by { PowersOfTwo(); }
      BitLengthShift(c, v, 8);
    }
  }

  /** The loop with is_value_0 counted only while the flag is still clear, as
      evidently intended: it returns the bit length of the buffer's
      little-endian value. */
  method MinBitcntByteFixed(value: array<byte>, size: nat) returns (r: nat)
    requires size <= value.Length
    ensures r == BitLength(ByteVal(value[..size]))
  {
    var numberOfLeadingZeroes: nat := 0;
    var flag: byte := 0;
    var i := size;
    while i > 0
      invariant 0 <= i <= size
      invariant BitLength(ByteVal(value[i..size])) <= 8 * (size - i)
      invariant numberOfLeadingZeroes == 8 * (size - i) - BitLength(ByteVal(value[i..size]))
      invariant (flag == 0) == (ByteVal(value[i..size]) == 0)
      invariant flag == 0 || 128 <= flag
    {
      i := i - 1;
      var isValue0 := IsValue0Of(value[i]);
      var thisByteLeadingZeroes := ThisByteLeadingZeros(value[i], flag);
      ghost var s := value[i + 1..size];
      assert value[i..size] == [value[i]] + s;
      BitLengthPrepend(value[i], s);
      AllZeroVal(s);
      AllZeroVal(value[i..size]);
      if value[i] != 0 { BitLengthAtMost(value[i], 8) by { PowersOfTwo(); } }
      flag := NextFlag(value[i], flag);
      numberOfLeadingZeroes := numberOfLeadingZeroes + thisByteLeadingZeroes +
        (if flag == 0 then isValue0 else 0);
    }
    assert value[0..size] == value[..size];
    r := size * BITS_IN_UINT8 - numberOfLeadingZeroes;
  }

  /** NOAHZK_variable_width_min_bitcnt: the byte loop over the 4 * width bytes
      of the limb buffer. */
  method VariableWidthMinBitcnt(value: VarWidth) returns (r: nat)
    requires value.Valid()
    ensures r == BitcntWithGaps(LimbsToBytes(value.Limbs()))
  {
    var view := ByteView(value.Limbs());
    r := MinBitcntByte(view, WidthBytes(value.width));
    assert view[..WidthBytes(value.width)] == view[..];
  }

  /** NOAHZK_variable_width_min_bytecnt_byte: ceil(min_bitcnt_byte / 8). */
  method MinBytecntByte(value: array<byte>, size: nat) returns (r: nat)
    requires size <= value.Length
    ensures r == BitsToBytes(BitcntWithGaps(value[..size])) && r <= size
    ensures (r == 0) == AllZero(value[..size])
  {
    var minBitcnt := MinBitcntByte(value, size);
    r := minBitcnt / BITS_IN_UINT8 + (if minBitcnt % BITS_IN_UINT8 != 0 then 1 else 0);
  }

  /** NOAHZK_variarble_width_min_bytecnt: the byte count of the limb buffer. */
  method VariableWidthMinBytecnt(value: VarWidth) returns (r: nat)
    requires value.Valid()
    ensures r == BitsToBytes(BitcntWithGaps(LimbsToBytes(value.Limbs())))
  {
    var view := ByteView(value.Limbs());
    r := MinBytecntByte(view, WidthBytes(value.width));
    assert view[..WidthBytes(value.width)] == view[..];
  }
}
