/** The library's definitions header: fixed-width integer types, the limb
    type, the op codes, the width and ceiling-division macros, section
    extraction, MAX/MIN/SWP, and the byte view of a limb buffer. */
module Words {
  import opened Digits
  import opened Bits

  type byte = x: int | 0 <= x < 0x100
  type u16 = x: int | 0 <= x < 0x1_0000
  type limb = x: int | 0 <= x < 0x1_0000_0000
  type u64 = x: int | 0 <= x < 0x1_0000_0000_0000_0000
  type i8 = x: int | -0x80 <= x < 0x80

  const OP_ADD: limb := 0
  const OP_SUB: limb := 1
  const LIMB_MAX: limb := 0xFFFF_FFFF
  /** sizeof(NOAHZK_limb_t) */
  const LIMB_BYTES: nat := 4
  const BITS_IN_UINT8: nat := 8
  const BITS_IN_LIMB: nat := 32
  const BITS_IN_UINT64: nat := 64

  lemma LimbConstants()
    ensures LIMB_MAX + 1 == TWO_32 == Pow(2, BITS_IN_LIMB) == Pow(256, LIMB_BYTES)
    ensures BITS_IN_LIMB == LIMB_BYTES * BITS_IN_UINT8
    ensures OP_ADD == 0 && OP_SUB == 1
  {
    PowersOfTwo();
    PowPow(2, 8, 4);
  }

  // ------------------------------------------------------------ widths

  /** NOAHZK_SIZE_AS_ARR_OF_TYPE: how many elements of size t hold size bytes. */
  function SizeAsArrOfType(size: nat, t: nat): (r: nat)
    requires t > 0
    ensures r * t >= size && (r > 0 ==> (r - 1) * t < size)
    ensures (r == 0) == (size == 0)
  {
    size / t + (if size % t != 0 then 1 else 0)
  }

  /** NOAHZK_GET_LIMB_WIDTH_FROM_INT: limbs needed for x bytes. */
  function LimbWidthFromInt(x: nat): (r: nat)
    ensures 4 * r >= x && (r > 0 ==> 4 * (r - 1) < x)
  {
    SizeAsArrOfType(x, LIMB_BYTES)
  }

  /** NOAHZK_convert_from_bits_to_bytes: bytes needed for x bits. */
  function BitsToBytes(x: nat): (r: nat)
    ensures 8 * r >= x && (r > 0 ==> 8 * (r - 1) < x)
  {
    SizeAsArrOfType(x, BITS_IN_UINT8)
  }

  /** NOAHZK_GET_WIDTH_FROM_VAR_WIDTH_TYPE(_PTR/_INT): byte width of w limbs. */
  function WidthBytes(w: nat): nat
  {
    w * LIMB_BYTES
  }

  /** NOAHZK_GET_WIDTH_FROM_VAR_WIDTH_TYPE_PTR_BITS: bit width of w limbs. */
  function WidthBits(w: nat): nat
  {
    w * BITS_IN_LIMB
  }

  /** Every value of w limbs fits in WidthBits(w) bits, and the bound is reached. */
  lemma LimbsFitWidthBits(l: seq<limb>)
    ensures 0 <= Val(l, TWO_32) < Pow(2, WidthBits(|l|)) == Pow(TWO_32, |l|)
  {
    LimbConstants();
    PowPow(2, 32, |l|);
    ValBounds(l, TWO_32);
  }

  // ------------------------------------------------------------ MAX / MIN / SWP

  function Max(x: int, y: int): (r: int)
    ensures r >= x && r >= y && (r == x || r == y)
  {
    if x > y then x else y
  }

  function Min(x: int, y: int): (r: int)
    ensures r <= x && r <= y && (r == x || r == y)
  {
    if x < y then x else y
  }

  /** NOAHZK_SWP on two variables, here two cells of one array: the three
      xor assignments exchange distinct cells and zero a cell swapped with
      itself. */
  method Swap(a: array<nat>, i: nat, j: nat)
    requires i < a.Length && j < a.Length
    modifies a
    ensures i != j ==> a[i] == old(a[j]) && a[j] == old(a[i])
    ensures i == j ==> a[i] == 0
    ensures forall k | 0 <= k < a.Length && k != i && k != j :: a[k] == old(a[k])
  {
    ghost var x, y := a[i], a[j];
    a[i] := Xor(a[i], a[j]);
    a[j] := Xor(a[i], a[j]);
    a[i] := Xor(a[i], a[j]);
    if i != j {
      XorCancel(x, y);
      XorComm(x, y);
      XorCancel(y, x);
    } else {
      XorSelf(x);
      XorSelf(0);
    }
  }

  // ------------------------------------------------------------ sections

  /** NOAHZK_get_section_from_var with the shift the older sub.h writes out
      at lines 31 and 90 (section times the section size): section number
      `section` of a var of varBytes bytes, cut into pieces of sectionBytes
      bytes, or 0 past the last section. */
  function Section(v: nat, varBytes: nat, sectionBytes: nat, section: nat): (r: nat)
    requires sectionBytes > 0
    ensures r < Pow(2, 8 * sectionBytes)
    ensures section >= varBytes / sectionBytes ==> r == 0
  {
    if section < varBytes / sectionBytes then
      (v / Pow(2, section * (sectionBytes * 8))) % Pow(2, 8 * sectionBytes)
    else 0
  }

  /** The shift the macro actually applies: section * sizeof(var) * 8. */
  function SectionShiftAsWritten(varBytes: nat, section: nat): nat
  {
    section * (varBytes * 8)
  }

  /** The shift its comment asks for: section * sizeof(section_type) * 8. */
  function SectionShiftIntended(sectionBytes: nat, section: nat): nat
  {
    section * (sectionBytes * 8)
  }

  /** For a 64-bit var every section past 0 is shifted by 64 bits or more,
      which C leaves undefined, while the intended shift stays in range. */
  lemma SectionShiftOverflows(section: nat, sectionBytes: nat)
    requires sectionBytes > 0 && 1 <= section < 8 / sectionBytes
    ensures SectionShiftAsWritten(8, section) >= BITS_IN_UINT64
    ensures SectionShiftIntended(sectionBytes, section) < BITS_IN_UINT64
  {
    var q := 8 / sectionBytes;
    assert q * sectionBytes <= 8;
    MulLe(section, q - 1, sectionBytes);
    assert section * sectionBytes < 8;
  }

  /** The sections of digit width s of a var read back as its digits in base 256^s. */
  lemma SectionIsDigit(v: nat, varBytes: nat, s: nat, i: nat)
    requires s > 0
    ensures Pow(2, 8 * s) == Pow(256, s)
    ensures Section(v, varBytes, s, i) ==
      if i < varBytes / s then DigitsOf(v, varBytes / s, Pow(256, s))[i] else 0
  {
    PowersOfTwo();
    PowPow(2, 8, s);
    PowPow(2, 8 * s, i);
    assert i * (s * 8) == (8 * s) * i;
  }

  /** The first n sections of v, the operand a routine adding a constant reads. */
  function Sections(v: nat, varBytes: nat, sectionBytes: nat, n: nat): (r: seq<int>)
    requires sectionBytes > 0
    ensures |r| == n && forall i | 0 <= i < n :: r[i] == Section(v, varBytes, sectionBytes, i)
  {
    seq(n, i requires 0 <= i => Section(v, varBytes, sectionBytes, i))
  }

  /** The limb sections of a 64-bit k, read as a wide operand of n limbs, give
      k mod 2^(32 n); the byte sections give k mod 256^n. */
  lemma SectionsReassemble(k: u64, n: nat, s: nat)
    requires s == 1 || s == 4
    ensures Pow(256, s) > 1
    ensures IsDigits(Sections(k, 8, s, n), Pow(256, s))
    ensures Val(Sections(k, 8, s, n), Pow(256, s)) == k % Pow(Pow(256, s), n)
  {
    PowersOfTwo();
    PowPow(2, 8, s);
    var b := Pow(256, s);
    var d := DigitsOf(k, 8 / s, b);
    ValDigitsOf(k, 8 / s, b);
    PowPow(2, 8 * s, 8 / s);
    assert (8 * s) * (8 / s) == 64;
    assert k % Pow(b, 8 / s) == k by { ModUnique(k, k, 0, Pow(b, 8 / s)); }
    var t := Sections(k, 8, s, n);
    forall i | 0 <= i < n ensures t[i] == DigitAt(d, i) {
      SectionIsDigit(k, 8, s, i);
    }
    assert t == Pad(d, n);
    ValPad(d, n, b);
  }

  /** The example of the macro's comment: byte section 0 of 0x01234567 is 0x67. */
  lemma SectionExample()
    ensures Section(0x01234567, 4, 1, 0) == 0x67
  {
    PowersOfTwo();
  }

  // ------------------------------------------------------------ byte view

  /** The unsigned value of a little-endian byte string. */
  function ByteVal(s: seq<byte>): (r: nat)
    ensures r == Val(s, 256) && r < Pow(256, |s|)
  {
    ValBounds(s, 256);
    Val(s, 256)
  }

  /** Byte i of a buffer of w bytes, or 0 past it: (i < w ? a[i] : 0). */
  function ByteAt(a: array<byte>, w: nat, i: nat): (r: byte)
    reads a
    requires w <= a.Length
  {
    if i < w then a[i] else 0
  }

  /** The four little-endian bytes of a limb. */
  function LimbBytes(x: limb): (r: seq<byte>)
    ensures |r| == LIMB_BYTES && Val(r, 256) == x
  {
    LimbDecomposition(x);
    var r: seq<byte> := [x % 256, (x / 256) % 256, (x / 0x1_0000) % 256, x / 0x100_0000];
    ValFourBytes(r);
    r
  }

  /** A limb is the sum of its four bytes, each weighted by its place. */
  lemma LimbDecomposition(x: limb)
    ensures x / 0x100_0000 < 256
    ensures x == x % 256 + 256 * ((x / 256) % 256) + 0x1_0000 * ((x / 0x1_0000) % 256) + 0x100_0000 * (x / 0x100_0000)
  {
    var a := x / 256;
    var b := a / 256;
    var c := b / 256;
    assert x == x % 256 + 256 * a && a == a % 256 + 256 * b && b == b % 256 + 256 * c;
    assert b == x / 0x1_0000 by { DivUnique(x % 256 + 256 * (a % 256), x, b, 0x1_0000); }
    assert c == x / 0x100_0000 by {
      DivUnique(x % 256 + 256 * (a % 256) + 0x1_0000 * (b % 256), x, c, 0x100_0000);
    }
  }

  lemma ValFourBytes(r: seq<int>)
    requires |r| == 4
    ensures Val(r, 256) == r[0] + 256 * r[1] + 0x1_0000 * r[2] + 0x100_0000 * r[3]
  {
    assert Pow(256, 1) == 256 && Pow(256, 2) == 0x1_0000 && Pow(256, 3) == 0x100_0000;
    assert r[..0] == [] && r[..4] == r;
    ValPrefixStep(r, 0, 256);
    ValPrefixStep(r, 1, 256);
    ValPrefixStep(r, 2, 256);
    ValPrefixStep(r, 3, 256);
  }

  /** A limb buffer reinterpreted as bytes, limb i becoming bytes 4i..4i+3. */
  function LimbsToBytes(l: seq<limb>): (r: seq<byte>)
    ensures |r| == WidthBytes(|l|)
  {
    if |l| == 0 then [] else LimbsToBytes(l[..|l| - 1]) + LimbBytes(l[|l| - 1])
  }

  /** A byte buffer of whole limbs read as limbs. */
  function BytesToLimbs(b: seq<byte>): (r: seq<limb>)
    requires |b| % LIMB_BYTES == 0
    ensures |r| * LIMB_BYTES == |b|
  {
    if |b| == 0 then []
    else
      var last := b[|b| - 4..];
      ValBounds(last, 256);
      PowersOfTwo();
      PowPow(2, 8, 4);
      BytesToLimbs(b[..|b| - 4]) + [Val(last, 256)]
  }

  /** The byte view has the same value: byte 4i + j weighs 2^(32 i + 8 j). */
  lemma {:induction false} LimbsToBytesVal(l: seq<limb>)
    ensures Val(LimbsToBytes(l), 256) == Val(l, TWO_32)
  {
    if |l| > 0 {
      var n := |l| - 1;
      var pre, last := LimbsToBytes(l[..n]), LimbBytes(l[n]);
      assert LimbsToBytes(l) == pre + last;
      LimbsToBytesVal(l[..n]);
      ValConcat(pre, last, 256);
      assert Pow(256, 4) == TWO_32;
      PowPow(256, 4, n);
      var w := Pow(TWO_32, n);
      assert Pow(256, |pre|) == w;
      assert Val(pre + last, 256) == Val(l[..n], TWO_32) + w * l[n];
    }
  }

  /** Byte 4i + j of the view is byte j of limb i. */
  lemma {:induction false} LimbsToBytesAt(l: seq<limb>, i: nat, j: nat)
    requires i < |l| && j < LIMB_BYTES
    ensures LimbsToBytes(l)[4 * i + j] == LimbBytes(l[i])[j]
  {
    var n := |l| - 1;
    if i < n {
      LimbsToBytesAt(l[..n], i, j);
    }
  }

  lemma {:induction false} BytesToLimbsInverse(l: seq<limb>)
    ensures BytesToLimbs(LimbsToBytes(l)) == l
  {
    if |l| > 0 {
      var n := |l| - 1;
      var b := LimbsToBytes(l);
      assert b[..|b| - 4] == LimbsToBytes(l[..n]);
      assert b[|b| - 4..] == LimbBytes(l[n]);
      BytesToLimbsInverse(l[..n]);
    }
  }

  lemma {:induction false} LimbsToBytesInverse(b: seq<byte>)
    requires |b| % LIMB_BYTES == 0
    ensures LimbsToBytes(BytesToLimbs(b)) == b
  {
    if |b| > 0 {
      var pre, last := b[..|b| - 4], b[|b| - 4..];
      var r := BytesToLimbs(b);
      var x := r[|r| - 1];
      assert r[..|r| - 1] == BytesToLimbs(pre) && x == Val(last, 256);
      assert LimbBytes(x) == last by {
        ValBounds(last, 256);
        ValInjective(LimbBytes(x), last, 256);
      }
      assert LimbsToBytes(r[..|r| - 1]) == pre by {
        LimbsToBytesInverse(pre);
      }
      assert LimbsToBytes(r) == LimbsToBytes(r[..|r| - 1]) + LimbBytes(x);
      assert b == pre + last;
    }
  }

  /** Reading a byte buffer as limbs keeps its value. */
  lemma BytesToLimbsVal(b: seq<byte>)
    requires |b| % LIMB_BYTES == 0
    ensures Val(BytesToLimbs(b), TWO_32) == Val(b, 256)
  {
    LimbsToBytesInverse(b);
    LimbsToBytesVal(BytesToLimbs(b));
  }

  /** The first four view bytes are the bytes of the first limb. */
  lemma {:induction false} FirstLimbBytes(l: seq<limb>)
    requires |l| >= 1
    ensures LimbsToBytes(l)[..4] == LimbBytes(l[0])
  {
    var n := |l| - 1;
    if n > 0 {
      FirstLimbBytes(l[..n]);
      assert LimbsToBytes(l) == LimbsToBytes(l[..n]) + LimbBytes(l[n]);
      assert l[..n][0] == l[0];
    } else {
      assert LimbsToBytes(l) == LimbsToBytes(l[..0]) + LimbBytes(l[0]);
    }
  }

  /** A limb is b exactly when its view bytes are b, 0, 0, 0, for a byte b. */
  lemma FirstLimb(l: seq<limb>, b: byte)
    requires |l| >= 1
    ensures LimbsToBytes(l)[..4] == [b, 0, 0, 0] <==> l[0] == b
  {
    FirstLimbBytes(l);
    if LimbsToBytes(l)[..4] == [b, 0, 0, 0] {
      ValFourBytes([b, 0, 0, 0]);
    }
    if l[0] == b {
      SmallLimbBytes(b);
    }
  }

  lemma SmallLimbBytes(b: byte)
    ensures LimbBytes(b) == [b, 0, 0, 0]
  {
    assert b / 256 == 0 && b / 0x1_0000 == 0 && b / 0x100_0000 == 0;
  }
}
