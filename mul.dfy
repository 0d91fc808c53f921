/** Multiplication: a byte buffer times one byte, the recursive
    four-product multiplier over little-endian byte buffers, the
    variable-width wrappers that run it on the byte view of their limb
    buffers, the helpers built from them (squares, powers, multiply-add,
    triangle numbers), and the bitwise right shift.

    The multiplier splits rs0 at n = width0 / 2 and rs1 at m = width1 / 2,
    forms the four partial products into scratch buffers and only then
    accumulates them into dst at byte offsets 0, m, n and n + m, so dst may
    be one of the operands. */
module Mul {
  import opened Digits
  import opened Bits
  import opened Words
  import opened WideInt
  import opened Logarithms
  import opened Lifecycle
  import opened Add

  // ------------------------------------------------------------ array times byte

  /** The loop of mul_arr_with_byte: position j of the chain is rs1 times
      byte o + j of rs0 plus the carry; the 16-bit product never overflows. */
  method MulArrWithByteChain(dst: array<byte>, rs0: array<byte>, o: nat, rs1: byte, width: nat,
                             ghost Y: seq<int>, ghost C: seq<int>, ghost D: seq<int>)
    requires width < dst.Length && o + width <= rs0.Length
    requires ChainSteps(Zeros(width), Y, rs1, 256, C, D) && |D| == width
    requires forall j | 0 <= j < width :: Y[j] == rs0[o + j]
    modifies dst
    ensures dst[..width] == D && dst[width] == C[width]
    ensures dst[width + 1..] == old(dst[width + 1..])
  {
    ghost var R := rs0[..];
    var product: byte := 0;
    var i := 0;
    while i < width
      invariant 0 <= i <= width
      invariant forall j | 0 <= j < i :: dst[j] == D[j]
      invariant product == C[i]
      invariant forall j | i <= j < dst.Length :: dst[j] == old(dst[j])
    {
      assert Y[i] == rs0[o + i] by {
        assert rs0 == dst ==> rs0[o + i] == R[o + i];
      }
      var x := rs0[o + i];
      ByteChainStep(Y, rs1, C, D, i, x, product);
      var z: u16 := product + x * rs1;
      dst[i] := z % 256;
      product := z / 256;
      i := i + 1;
    }
    dst[width] := product;
    assert dst[..width] == D;
    assert dst[width + 1..] == old(dst[width + 1..]);
  }

  /** One position of the byte chain: the carry in plus x * m fits 16 bits,
      and its low and high bytes are the digit and the carry out. */
  lemma ByteChainStep(Y: seq<int>, m: byte, C: seq<int>, D: seq<int>, i: nat, x: byte, carry: byte)
    requires ChainSteps(Zeros(|D|), Y, m, 256, C, D) && i < |D|
    requires x == Y[i] && carry == C[i]
    ensures 0 <= carry + x * m < 0x1_0000
    ensures D[i] == (carry + x * m) % 256 && C[i + 1] == (carry + x * m) / 256
  {
    MulLe(x, 255, m);
    MulLe(m, 255, 255);
    assert Zeros(|D|)[i] == 0;
  }

  /** NOAHZK_variable_width_mul_arr_with_byte: the width + 1 bytes of dst
      become the width bytes of rs0 from offset o times the byte rs1. dst
      may be rs0: byte i of dst is written after byte o + i of rs0 is read. */
  method MulArrWithByte(dst: array<byte>, rs0: array<byte>, o: nat, rs1: byte, width: nat)
    requires width < dst.Length && o + width <= rs0.Length
    modifies dst
    ensures Val(dst[..width + 1], 256) == Val(old(rs0[o..o + width]), 256) * rs1
    ensures dst[width + 1..] == old(dst[width + 1..])
  {
    ghost var A := rs0[o..o + width];
    ghost var C, D := ChainOf(Zeros(width), A, rs1, 256);
    ChainAt(Zeros(width), A, rs1, 256, C, D);
    MulArrWithByteChain(dst, rs0, o, rs1, width, A, C, D);
    ArrWithByteClose(A, rs1, C, D, dst[..width + 1]);
  }

  /** The digits of a chain of multiplier r over zeros and A, followed by
      its last carry, are the digits of A * r. */
  lemma ArrWithByteClose(A: seq<int>, r: int, C: seq<int>, D: seq<int>, out: seq<int>)
    requires Chain(Zeros(|A|), A, r, 256, C, D)
    requires out == D + [C[|D|]]
    ensures Val(out, 256) == Val(A, 256) * r
  {
    ChainValue(Zeros(|A|), A, r, 256, C, D);
    ValZeros(|A|, 256);
    ValSnoc(D, C[|D|], 256);
  }

  // ------------------------------------------------------------ recursive multiplier

  /** memset(dst, 0, n). */
  method ZeroBytes(dst: array<byte>, n: nat)
    requires n <= dst.Length
    modifies dst
    ensures forall j | 0 <= j < n :: dst[j] == 0
    ensures dst[n..] == old(dst[n..])
  {
    var i := 0;
    while i < n
      invariant 0 <= i <= n
      invariant forall j | 0 <= j < i :: dst[j] == 0
      invariant dst[n..] == old(dst[n..])
    {
      dst[i] := 0;
      i := i + 1;
    }
  }

  /** The value of a window of a byte buffer, split at n bytes. */
  lemma ValSplit(s: seq<byte>, n: nat)
    requires n <= |s|
    ensures Val(s, 256) == Val(s[..n], 256) + Val(s[n..], 256) * Pow(256, n)
  {
    assert s == s[..n] + s[n..];
    ValConcat(s[..n], s[n..], 256);
  }

  /** NOAHZK_variable_width_mul_byte: for non-zero widths the width0 + width1
      bytes of dst become the product of the width0 bytes of rs0 from o0 and
      the width1 bytes of rs1 from o1; a zero width writes nothing. dst may
      be either operand. The branch taken depends on the widths only. */
  method MulByte(dst: array<byte>, rs0: array<byte>, o0: nat, rs1: array<byte>, o1: nat, width0: nat, width1: nat)
    requires o0 + width0 <= rs0.Length && o1 + width1 <= rs1.Length
    requires width0 > 0 && width1 > 0 ==> width0 + width1 <= dst.Length
    modifies dst
    ensures width0 == 0 || width1 == 0 ==> dst[..] == old(dst[..])
    ensures width0 > 0 && width1 > 0 ==>
      Val(dst[..width0 + width1], 256) == Val(old(rs0[o0..o0 + width0]), 256) * Val(old(rs1[o1..o1 + width1]), 256)
    ensures width0 > 0 && width1 > 0 ==> dst[width0 + width1..] == old(dst[width0 + width1..])
    decreases width0 + width1, 2
  {
    if width0 == 0 && width1 == 0 {
      return;
    }
    if width0 == 0 || width1 == 0 {
      return;
    }
    if width0 == 1 && width1 == 1 {
      assert old(rs0[o0..o0 + width0]) == [old(rs0[o0])];
      assert old(rs1[o1..o1 + width1]) == [old(rs1[o1])];
      MulByteSingle(dst, rs0[o0], rs1[o1]);
      return;
    }
    if width0 == 1 {
      assert old(rs0[o0..o0 + width0]) == [old(rs0[o0])];
      MulArrWithByte(dst, rs1, o1, rs0[o0], width1);
      return;
    }
    if width1 == 1 {
      assert old(rs1[o1..o1 + width1]) == [old(rs1[o1])];
      MulArrWithByte(dst, rs0, o0, rs1[o1], width0);
      return;
    }
    MulByteSplit(dst, rs0, o0, rs1, o1, width0, width1);
  }

  /** The one-byte-by-one-byte case of mul_byte: the 16-bit product goes to
      dst[0] (low byte) and dst[1] (high byte). */
  method MulByteSingle(dst: array<byte>, x: byte, y: byte)
    requires 2 <= dst.Length
    modifies dst
    ensures Val(dst[..2], 256) == x as int * y as int
    ensures dst[2..] == old(dst[2..])
  {
    MulLe(x, 255, y);
    MulLe(y, 255, 255);
    var product: u16 := (x as int) * (y as int);
    dst[0], dst[1] := product % 256, product / 256;
    assert dst[..2] == [product % 256] + [product / 256];
    ValSingle(product % 256, [product / 256], 256);
  }

  /** The recursive case of mul_byte, both widths at least 2: the four
      partial products go to scratch buffers first, and dst is cleared and
      accumulated into only afterwards, since it may be one of the operands. */
  method MulByteSplit(dst: array<byte>, rs0: array<byte>, o0: nat, rs1: array<byte>, o1: nat, width0: nat, width1: nat)
    requires o0 + width0 <= rs0.Length && o1 + width1 <= rs1.Length
    requires width0 >= 2 && width1 >= 2 && width0 + width1 <= dst.Length
    modifies dst
    ensures Val(dst[..width0 + width1], 256) ==
      Val(old(rs0[o0..o0 + width0]), 256) * Val(old(rs1[o1..o1 + width1]), 256)
    ensures dst[width0 + width1..] == old(dst[width0 + width1..])
    decreases width0 + width1, 1
  {
    ghost var A, B := rs0[o0..o0 + width0], rs1[o1..o1 + width1];
    ValBounds(A, 256);
    ValBounds(B, 256);
    ProductFits(Val(A, 256), Val(B, 256), Pow(256, width0), Pow(256, width1));
    PowAdd(256, width0, width1);
    var n, m := width0 / 2, width1 / 2;
    var x0y0, x0y1, x1y0, x1y1 := Partials(rs0, o0, rs1, o1, width0, width1);
    ghost var p00, p01, p10, p11 := Val(x0y0[..], 256), Val(x0y1[..], 256), Val(x1y0[..], 256), Val(x1y1[..], 256);
    // dst is cleared only now, since it may be one of the operands
    Accumulate(dst, x0y0, x0y1, x1y0, x1y1, n, m, width0 + width1, p00, p01, p10, p11);
    ModUnique(Val(A, 256) * Val(B, 256), Val(A, 256) * Val(B, 256), 0, Pow(256, width0 + width1));
  }

  /** The four recursive mul_byte calls of the split case, each into its
      own scratch buffer: placed at byte offsets 0, m, n and n + m they add
      up to the product of the operands. */
  method Partials(rs0: array<byte>, o0: nat, rs1: array<byte>, o1: nat, width0: nat, width1: nat)
    returns (x0y0: array<byte>, x0y1: array<byte>, x1y0: array<byte>, x1y1: array<byte>)
    requires o0 + width0 <= rs0.Length && o1 + width1 <= rs1.Length && width0 >= 2 && width1 >= 2
    ensures fresh(x0y0) && fresh(x0y1) && fresh(x1y0) && fresh(x1y1)
    ensures x0y0.Length <= width0 + width1 && x0y1.Length <= width0 + width1
    ensures x1y0.Length <= width0 + width1 && x1y1.Length <= width0 + width1
    ensures Val(x0y0[..], 256) + Val(x0y1[..], 256) * Pow(256, width1 / 2) + Val(x1y0[..], 256) * Pow(256, width0 / 2)
            + Val(x1y1[..], 256) * Pow(256, width0 / 2 + width1 / 2)
            == Val(rs0[o0..o0 + width0], 256) * Val(rs1[o1..o1 + width1], 256)
    decreases width0 + width1, 0
  {
    var n, m := width0 / 2, width1 / 2;
    ghost var R0, R1 := rs0[..], rs1[..];
    SliceSplit(R0, o0, n, width0);
    SliceSplit(R1, o1, m, width1);
    x1y1 := Partial(rs0, o0 + n, rs1, o1 + m, width0 - n, width1 - m, R0, R1);
    assert rs0[..] == R0 && rs1[..] == R1;
    ghost var s11 := x1y1[..];
    x1y0 := Partial(rs0, o0 + n, rs1, o1, width0 - n, m, R0, R1);
    assert rs0[..] == R0 && rs1[..] == R1;
    ghost var s10 := x1y0[..];
    x0y1 := Partial(rs0, o0, rs1, o1 + m, n, width1 - m, R0, R1);
    assert rs0[..] == R0 && rs1[..] == R1;
    ghost var s01 := x0y1[..];
    x0y0 := Partial(rs0, o0, rs1, o1, n, m, R0, R1);
    assert rs0[..] == R0 && rs1[..] == R1;
    assert x1y1[..] == s11 && x1y0[..] == s10 && x0y1[..] == s01;
    PartialsClose(Val(R0[o0..o0 + width0], 256), Val(R1[o1..o1 + width1], 256),
                  Val(R0[o0..o0 + n], 256), Val(R0[o0 + n..o0 + width0], 256),
                  Val(R1[o1..o1 + m], 256), Val(R1[o1 + m..o1 + width1], 256),
                  Val(x0y0[..], 256), Val(s01, 256), Val(s10, 256), Val(s11, 256), n, m);
  }

  /** Splitting a width-byte window of s at n bytes splits its value. */
  lemma SliceSplit(s: seq<byte>, o: nat, n: nat, width: nat)
    requires o + width <= |s| && n <= width
    ensures Val(s[o..o + width], 256) == Val(s[o..o + n], 256) + Val(s[o + n..o + width], 256) * Pow(256, n)
  {
    var w := s[o..o + width];
    assert w[..n] == s[o..o + n] && w[n..] == s[o + n..o + width];
    ValSplit(w, n);
  }

  /** The four partial products, weighted by their byte offsets, add up to
      the product of the split operands. */
  lemma PartialsClose(a: int, b: int, x0: int, x1: int, y0: int, y1: int,
                      p00: int, p01: int, p10: int, p11: int, n: nat, m: nat)
    requires a == x0 + x1 * Pow(256, n) && b == y0 + y1 * Pow(256, m)
    requires p00 == x0 * y0 && p01 == x0 * y1 && p10 == x1 * y0 && p11 == x1 * y1
    ensures p00 + p01 * Pow(256, m) + p10 * Pow(256, n) + p11 * Pow(256, n + m) == a * b
  {
    PowAdd(256, n, m);
    ExpandProduct(x0, x1, y0, y1, Pow(256, n), Pow(256, m));
  }

  /** A scratch buffer (uint8_t X[w0 + w1]) filled by mul_byte with a
      partial product. */
  method Partial(rs0: array<byte>, o0: nat, rs1: array<byte>, o1: nat, width0: nat, width1: nat,
                 ghost R0: seq<byte>, ghost R1: seq<byte>)
    returns (p: array<byte>)
    requires o0 + width0 <= rs0.Length && o1 + width1 <= rs1.Length && width0 > 0 && width1 > 0
    requires rs0[..] == R0 && rs1[..] == R1
    ensures fresh(p) && p.Length == width0 + width1
    ensures Val(p[..], 256) == Val(R0[o0..o0 + width0], 256) * Val(R1[o1..o1 + width1], 256)
    decreases width0 + width1, 3
  {
    p := new byte[width0 + width1];
    MulByte(p, rs0, o0, rs1, o1, width0, width1);
    assert p[..width0 + width1] == p[..];
  }

  /** The memset and the three add_with_byte_offset_byte calls of mul_byte:
      the width bytes of dst become the partial products placed at byte
      offsets 0, m, n and n + m, modulo 256^width. */
  method Accumulate(dst: array<byte>, x0y0: array<byte>, x0y1: array<byte>, x1y0: array<byte>, x1y1: array<byte>,
                    n: nat, m: nat, width: nat, ghost p00: int, ghost p01: int, ghost p10: int, ghost p11: int)
    requires width <= dst.Length
    requires x0y0.Length <= width && x0y1.Length <= width && x1y0.Length <= width && x1y1.Length <= width
    requires dst != x0y0 && dst != x0y1 && dst != x1y0 && dst != x1y1
    requires Val(x0y0[..], 256) == p00 && Val(x0y1[..], 256) == p01
    requires Val(x1y0[..], 256) == p10 && Val(x1y1[..], 256) == p11
    modifies dst
    ensures Val(dst[..width], 256) ==
      (p00 + p01 * Pow(256, m) + p10 * Pow(256, n) + p11 * Pow(256, n + m)) % Pow(256, width)
    ensures dst[width..] == old(dst[width..])
  {
    ZeroBytes(dst, width);
    ghost var M := Pow(256, width);
    ghost var r00, r01 := Val(x0y0[..], 256), Val(x0y1[..], 256) * Pow(256, m);
    ghost var r10, r11 := Val(x1y0[..], 256) * Pow(256, n), Val(x1y1[..], 256) * Pow(256, n + m);
    assert x0y0[..x0y0.Length] == x0y0[..] && x0y1[..x0y1.Length] == x0y1[..];
    assert x1y0[..x1y0.Length] == x1y0[..] && x1y1[..x1y1.Length] == x1y1[..];
    AddWithByteOffsetByte(dst, x0y0, x0y1, x0y0.Length, x0y1.Length, width, m);
    ghost var v1 := Val(dst[..width], 256);
    assert v1 == (r00 + r01) % M;
    AddWithByteOffsetByte(dst, dst, x1y0, width, x1y0.Length, width, n);
    ghost var v2 := Val(dst[..width], 256);
    assert v2 == (r00 + r01 + r10) % M by {
      assert v2 == (v1 + r10) % M;
      ModAddLeft(r00 + r01, r10, M);
    }
    AddWithByteOffsetByte(dst, dst, x1y1, width, x1y1.Length, width, n + m);
    assert Val(dst[..width], 256) == (r00 + r01 + r10 + r11) % M by {
      assert Val(dst[..width], 256) == (v2 + r11) % M;
      ModAddLeft(r00 + r01 + r10, r11, M);
    }
  }

  lemma ExpandProduct(x0: int, x1: int, y0: int, y1: int, p: int, q: int)
    ensures (x0 + x1 * p) * (y0 + y1 * q) == x0 * y0 + (x0 * y1) * q + (x1 * y0) * p + (x1 * y1) * (p * q)
  {
    var y := y0 + y1 * q;
    assert (x0 + x1 * p) * y == x0 * y + (x1 * p) * y;
    assert x0 * y == x0 * y0 + (x0 * y1) * q;
    assert (x1 * p) * y == (x1 * p) * y0 + (x1 * p) * (y1 * q);
    assert (x1 * p) * y0 == (x1 * y0) * p;
    assert (x1 * p) * (y1 * q) == (x1 * y1) * (p * q);
  }

  lemma ProductFits(x: int, y: int, P: int, Q: int)
    requires 0 <= x < P && 0 <= y < Q
    ensures 0 <= x * y < P * Q
  {
    MulNonNeg(x, y);
    MulLe(y, Q - 1, x);
    MulLe(x, P - 1, Q - 1);
    assert (P - 1) * (Q - 1) < P * Q;
  }

  // ------------------------------------------------------------ limb-buffer wrappers

  /** The eight bytes of a uint64_t k as they lie in memory (&k read through
      a uint8_t view), least significant first. */
  function KBytes(k: u64): (r: seq<byte>)
    ensures |r| == 8
  {
    PowersOfTwo();
    seq(8, i requires 0 <= i < 8 => Section(k, 8, 1, i))
  }

  /** NOAHZK_min_bytecnt_var(k), as the byte routines call it. */
  method Bytecnt(k: u64) returns (r: nat)
    ensures r == ByteLength(k) <= 8
    ensures k < Pow(256, r) && (r > 0 ==> Pow(256, r - 1) <= k)
  {
    r := MinBytecntVar(k);
    MinBytecntVarIsByteLength(k);
  }

  /** Any window of the bytes of k at least as wide as its byte count holds
      k, and only k == 0 has no bytes. */
  lemma KBytesVal(k: u64, n: nat)
    requires ByteLength(k) <= n <= 8
    ensures Val(KBytes(k)[..n], 256) == k
    ensures (ByteLength(k) == 0) == (k == 0)
  {
    ByteLengthBounds(k);
    assert KBytes(k)[..n] == Sections(k, 8, 1, n);
    SectionsReassemble(k, n, 1);
    PowMonotone(256, ByteLength(k), n);
    ModUnique(k, k, 0, Pow(256, n));
    if ByteLength(k) > 0 {
      PowMonotone(256, 0, ByteLength(k) - 1);
    }
  }

  /** A buffer holding the bytes of k. */
  method ConstantBytes(k: u64) returns (kb: array<byte>)
    ensures fresh(kb) && kb[..] == KBytes(k)
  {
    var s := KBytes(k);
    kb := new byte[8](i requires 0 <= i < 8 => s[i]);
    assert kb[..] == s;
  }

  /** NOAHZK_variable_width_mul_constant_byte: the width0 + bytes_k bytes of
      dst become the width0 bytes of rs0 times k, where bytes_k is the byte
      count of k; a zero width0 or a zero k writes nothing. */
  method MulConstantByte(dst: array<byte>, rs0: array<byte>, k: u64, width0: nat)
    requires width0 <= rs0.Length
    requires width0 > 0 && k > 0 ==> width0 + ByteLength(k) <= dst.Length
    modifies dst
    ensures width0 == 0 || k == 0 ==> dst[..] == old(dst[..])
    ensures width0 > 0 && k > 0 ==>
      Val(dst[..width0 + ByteLength(k)], 256) == Val(old(rs0[..width0]), 256) * k
    ensures width0 > 0 && k > 0 ==> dst[width0 + ByteLength(k)..] == old(dst[width0 + ByteLength(k)..])
  {
    ghost var R := rs0[..width0];
    var bytesK := Bytecnt(k);
    var kb := ConstantBytes(k);
    KBytesVal(k, bytesK);
    assert rs0[0..width0] == R;
    assert kb[0..bytesK] == KBytes(k)[..bytesK];
    MulByte(dst, rs0, 0, kb, 0, width0, bytesK);
  }

  /** The byte buffer a byte routine wrote through a uint8_t view of a limb
      buffer, read back as limbs. */
  method StoreLimbs(a: array<limb>, b: array<byte>)
    requires b.Length == WidthBytes(a.Length)
    modifies a
    ensures a[..] == BytesToLimbs(old(b[..]))
  {
    var l := BytesToLimbs(b[..]);
    assert |l| == a.Length;
    forall i | 0 <= i < a.Length {
      a[i] := l[i];
    }
    assert a[..] == l;
  }

  /** A fresh byte view of limbs A with mul_byte run into it: for non-zero
      widths its first w0 + w1 bytes hold the product and the rest keep the
      view of A; a zero width leaves the view as it was. */
  method ViewAndMul(A: seq<limb>, b0: array<byte>, w0: nat, b1: array<byte>, w1: nat) returns (db: array<byte>)
    requires w0 <= b0.Length && w1 <= b1.Length && w0 + w1 <= WidthBytes(|A|)
    ensures fresh(db) && db.Length == WidthBytes(|A|)
    ensures w0 == 0 || w1 == 0 ==> db[..] == LimbsToBytes(A)
    ensures w0 > 0 && w1 > 0 ==> Val(db[..w0 + w1], 256) == Val(b0[..w0], 256) * Val(b1[..w1], 256)
    ensures w0 > 0 && w1 > 0 ==> db[w0 + w1..] == LimbsToBytes(A)[w0 + w1..]
  {
    db := ByteView(A);
    assert b0[0..w0] == b0[..w0] && b1[0..w1] == b1[..w1];
    MulByte(db, b0, 0, b1, 0, w0, w1);
  }

  /** mul_byte run on the byte view of limb buffer a: for non-zero widths
      the first w0 + w1 bytes of the view become the product and the bytes
      after them are kept; a zero width leaves a as it was. */
  method MulIntoLimbs(a: array<limb>, b0: array<byte>, w0: nat, b1: array<byte>, w1: nat)
    requires w0 <= b0.Length && w1 <= b1.Length && w0 + w1 <= WidthBytes(a.Length)
    modifies a
    ensures w0 == 0 || w1 == 0 ==> a[..] == old(a[..])
    ensures w0 > 0 && w1 > 0 ==>
      Val(LimbsToBytes(a[..])[..w0 + w1], 256) == Val(old(b0[..w0]), 256) * Val(old(b1[..w1]), 256)
    ensures w0 > 0 && w1 > 0 ==> LimbsToBytes(a[..])[w0 + w1..] == LimbsToBytes(old(a[..]))[w0 + w1..]
  {
    ghost var A := a[..];
    var db := ViewAndMul(a[..], b0, w0, b1, w1);
    ghost var V := db[..];
    assert V[..w0 + w1] == db[..w0 + w1] && V[w0 + w1..] == db[w0 + w1..];
    StoreLimbs(a, db);
    LimbsToBytesInverse(V);
    if w0 == 0 || w1 == 0 {
      BytesToLimbsInverse(A);
    }
  }

  /** The byte view of whole limb buffer l has the value of l. */
  lemma ViewVal(b: array<byte>, w: nat, l: seq<limb>)
    requires b[..] == LimbsToBytes(l) && w == WidthBytes(|l|)
    ensures Val(b[..w], 256) == Val(l, TWO_32)
  {
    assert b[..w] == b[..];
    LimbsToBytesVal(l);
  }

  /** The realloc and the multiplier call shared by mul and mul_constant:
      dst is resized to newWidth limbs, whose bytes the two byte operands
      fill exactly; with a zero width the limbs realloc kept stay. */
  method ResizeAndMul(dst: VarWidth, b0: array<byte>, w0: nat, b1: array<byte>, w1: nat, newWidth: nat)
    requires dst.Valid() && w0 <= b0.Length && w1 <= b1.Length && w0 + w1 == WidthBytes(newWidth)
    modifies dst
    ensures dst.Valid() && dst.width == newWidth && dst.arr != null && fresh(dst.arr)
    ensures w0 > 0 && w1 > 0 ==> dst.Value() == Val(old(b0[..w0]), 256) * Val(old(b1[..w1]), 256)
    ensures w0 == 0 || w1 == 0 ==>
      forall i | 0 <= i < newWidth && i < old(dst.width) :: dst.Limbs()[i] == old(dst.Limbs())[i]
  {
    var a := Realloc(dst.arr, newWidth);
    dst.arr := a;
    MulIntoLimbs(a, b0, w0, b1, w1);
    dst.width := newWidth;
    if w0 > 0 && w1 > 0 {
      assert LimbsToBytes(a[..])[..w0 + w1] == LimbsToBytes(a[..]);
      LimbsToBytesVal(a[..]);
    }
  }

  /** NOAHZK_variable_width_mul: dst is resized to rs0.width + rs1.width
      limbs and, when both widths are non-zero, holds rs0 * rs1; dst may be
      either operand. With a zero width the multiplier writes nothing, so
      dst keeps the limbs realloc kept. */
  method Mul(dst: VarWidth, rs0: VarWidth, rs1: VarWidth)
    requires dst.Valid() && rs0.Valid() && rs1.Valid()
    requires rs0 == dst || rs0.arr == null || rs0.arr != dst.arr
    requires rs1 == dst || rs1.arr == null || rs1.arr != dst.arr
    modifies dst
    ensures dst.Valid() && dst.width == old(rs0.width) + old(rs1.width) && dst.arr != null && fresh(dst.arr)
    ensures old(rs0.width) > 0 && old(rs1.width) > 0 ==> dst.Value() == old(rs0.Value()) * old(rs1.Value())
    ensures old(rs0.width) == 0 || old(rs1.width) == 0 ==>
      forall i | 0 <= i < dst.width && i < old(dst.width) :: dst.Limbs()[i] == old(dst.Limbs())[i]
  {
    var newWidth := rs0.width + rs1.width;
    var l0, l1 := rs0.Limbs(), rs1.Limbs();
    var b0 := ByteView(l0);
    var b1 := ByteView(l1);
    ViewVal(b0, WidthBytes(|l0|), l0);
    ViewVal(b1, WidthBytes(|l1|), l1);
    ResizeAndMul(dst, b0, WidthBytes(|l0|), b1, WidthBytes(|l1|), newWidth);
  }

  /** mul with the empty-operand case handled: when a width is zero the
      resized buffer is cleared, so dst holds the product, 0, in every case. */
  method MulFixed(dst: VarWidth, rs0: VarWidth, rs1: VarWidth)
    requires dst.Valid() && rs0.Valid() && rs1.Valid()
    requires rs0 == dst || rs0.arr == null || rs0.arr != dst.arr
    requires rs1 == dst || rs1.arr == null || rs1.arr != dst.arr
    modifies dst
    ensures dst.Valid() && dst.width == old(rs0.width) + old(rs1.width) && dst.arr != null && fresh(dst.arr)
    ensures dst.Value() == old(rs0.Value()) * old(rs1.Value())
  {
    var w0, w1 := rs0.width, rs1.width;
    Mul(dst, rs0, rs1);
    if w0 == 0 || w1 == 0 {
      ZeroFrom(dst.arr, 0);
      ValAllZero(dst.Limbs(), TWO_32);
    }
  }

  /** A constant of at most eight bytes takes at most two limbs. */
  lemma ConstantLimbs(k: u64)
    ensures LimbWidthFromInt(ByteLength(k)) <= 2
    ensures ByteLength(k) <= WidthBytes(LimbWidthFromInt(ByteLength(k)))
  {
    ByteLengthBounds(k);
  }

  /** NOAHZK_variable_width_mul_constant: dst is resized to rs0.width plus
      the limbs k takes and, when rs0.width and k are non-zero, holds
      rs0 * k; dst may be rs0. Otherwise the multiplier writes nothing and
      dst keeps the limbs realloc kept. */
  method MulConstant(dst: VarWidth, rs0: VarWidth, k: u64)
    requires dst.Valid() && rs0.Valid()
    requires rs0 == dst || rs0.arr == null || rs0.arr != dst.arr
    modifies dst
    ensures dst.Valid() && dst.width == old(rs0.width) + LimbWidthFromInt(ByteLength(k))
    ensures dst.arr != null && fresh(dst.arr)
    ensures old(rs0.width) > 0 && k > 0 ==> dst.Value() == old(rs0.Value()) * k
    ensures old(rs0.width) == 0 || k == 0 ==>
      forall i | 0 <= i < dst.width && i < old(dst.width) :: dst.Limbs()[i] == old(dst.Limbs())[i]
  {
    var bytesK := Bytecnt(k);
    var limbsK := LimbWidthFromInt(bytesK);
    var newWidth := rs0.width + limbsK;
    var l0 := rs0.Limbs();
    var b0 := ByteView(l0);
    var kb := ConstantBytes(k);
    ViewVal(b0, WidthBytes(|l0|), l0);
    ConstantLimbs(k);
    KBytesVal(k, WidthBytes(limbsK));
    ResizeAndMul(dst, b0, WidthBytes(|l0|), kb, WidthBytes(limbsK), newWidth);
  }

  /** The value of a byte view whose first n bytes hold p < 256^n and whose
      remaining bytes are rest. */
  lemma ViewSplit(v: seq<byte>, n: nat, p: int)
    requires n <= |v| && Val(v[..n], 256) == p
    ensures Val(v, 256) == p + Val(v[n..], 256) * Pow(256, n)
    ensures 0 <= p < Pow(256, n) ==> Val(v, 256) % Pow(256, n) == p
  {
    ValSplit(v, n);
    ValBounds(v[n..], 256);
    if 0 <= p < Pow(256, n) {
      ModUnique(p, Val(v, 256), Val(v[n..], 256), Pow(256, n));
    }
  }

  /** The product of two constants fits in their combined byte counts. */
  lemma ConstantProductFits(k0: u64, k1: u64)
    ensures 0 <= k0 * k1 < Pow(256, ByteLength(k0) + ByteLength(k1))
  {
    var b0, b1 := ByteLength(k0), ByteLength(k1);
    ByteLengthBounds(k0);
    ByteLengthBounds(k1);
    PowAdd(256, b0, b1);
    ProductBelow(k0, k1, Pow(256, b0), Pow(256, b1), Pow(256, b0 + b1));
  }

  lemma ProductBelow(x: int, y: int, P: int, Q: int, R: int)
    requires 0 <= x < P && 0 <= y < Q && R == P * Q
    ensures 0 <= x * y < R
  {
    ProductFits(x, y, P, Q);
  }

  /** NOAHZK_variable_width_mul_both_constants: dst gets the limbs that
      bytes_k0 + bytes_k1 bytes need and, when both constants are non-zero,
      its low bytes_k0 + bytes_k1 bytes hold k0 * k1. The buffer is not
      cleared, so the pad bytes above them keep what realloc kept. */
  method MulBothConstants(dst: VarWidth, k0: u64, k1: u64)
    requires dst.Valid()
    modifies dst
    ensures dst.Valid() && dst.width == LimbWidthFromInt(ByteLength(k0) + ByteLength(k1))
    ensures dst.arr != null && fresh(dst.arr)
    ensures k0 > 0 && k1 > 0 ==> dst.Value() % Pow(256, ByteLength(k0) + ByteLength(k1)) == k0 * k1
    ensures k0 > 0 && k1 > 0 ==>
      forall j | ByteLength(k0) + ByteLength(k1) <= j < WidthBytes(Min(dst.width, old(dst.width))) ::
        LimbsToBytes(dst.Limbs())[j] == LimbsToBytes(old(dst.Limbs()))[j]
    ensures k0 == 0 || k1 == 0 ==>
      forall i | 0 <= i < dst.width && i < old(dst.width) :: dst.Limbs()[i] == old(dst.Limbs())[i]
  {
    ghost var D := dst.Limbs();
    var bytesK0 := Bytecnt(k0);
    var bytesK1 := Bytecnt(k1);
    var width := LimbWidthFromInt(bytesK0 + bytesK1);
    dst.width := width;
    var a := Realloc(dst.arr, width);
    dst.arr := a;
    assert forall i | 0 <= i < a.Length && i < |D| :: a[i] == D[i];
    MulConstantsOver(a, D, k0, k1, bytesK0, bytesK1);
  }

  /** mul_both_constants after the realloc: a agrees with the old limbs D
      where both exist; the product goes to its low bytes and the view
      bytes above them keep what D had there. */
  method MulConstantsOver(a: array<limb>, ghost D: seq<limb>, k0: u64, k1: u64, bytesK0: nat, bytesK1: nat)
    requires bytesK0 == ByteLength(k0) && bytesK1 == ByteLength(k1)
    requires bytesK0 + bytesK1 <= WidthBytes(a.Length)
    requires forall i | 0 <= i < a.Length && i < |D| :: a[i] == D[i]
    modifies a
    ensures k0 > 0 && k1 > 0 ==> Val(a[..], TWO_32) % Pow(256, bytesK0 + bytesK1) == k0 * k1
    ensures k0 > 0 && k1 > 0 ==>
      forall j | bytesK0 + bytesK1 <= j < WidthBytes(Min(a.Length, |D|)) ::
        LimbsToBytes(a[..])[j] == LimbsToBytes(D)[j]
    ensures k0 == 0 || k1 == 0 ==> forall i | 0 <= i < a.Length && i < |D| :: a[i] == D[i]
  {
    ghost var A := a[..];
    MulConstantsInto(a, k0, k1, bytesK0, bytesK1);
    if k0 > 0 && k1 > 0 {
      ConstantProductFits(k0, k1);
      LowBytesHold(a[..], bytesK0 + bytesK1, k0 * k1);
      PadBytesKept(a[..], A, D, bytesK0 + bytesK1);
    } else {
      assert a[..] == A;
    }
  }

  /** The two constant buffers of mul_both_constants and the multiplier run
      on the byte view of a. */
  method MulConstantsInto(a: array<limb>, k0: u64, k1: u64, bytesK0: nat, bytesK1: nat)
    requires bytesK0 == ByteLength(k0) && bytesK1 == ByteLength(k1)
    requires bytesK0 + bytesK1 <= WidthBytes(a.Length)
    modifies a
    ensures k0 == 0 || k1 == 0 ==> a[..] == old(a[..])
    ensures k0 > 0 && k1 > 0 ==> Val(LimbsToBytes(a[..])[..bytesK0 + bytesK1], 256) == k0 * k1
    ensures k0 > 0 && k1 > 0 ==>
      LimbsToBytes(a[..])[bytesK0 + bytesK1..] == LimbsToBytes(old(a[..]))[bytesK0 + bytesK1..]
  {
    var kb0 := ConstantBytes(k0);
    var kb1 := ConstantBytes(k1);
    ByteLengthBounds(k0);
    ByteLengthBounds(k1);
    KBytesVal(k0, bytesK0);
    KBytesVal(k1, bytesK1);
    assert kb0[..bytesK0] == KBytes(k0)[..bytesK0] && kb1[..bytesK1] == KBytes(k1)[..bytesK1];
    MulIntoLimbs(a, kb0, bytesK0, kb1, bytesK1);
  }

  /** Limbs whose low n view bytes hold p < 256^n have value p mod 256^n. */
  lemma LowBytesHold(L: seq<limb>, n: nat, p: int)
    requires n <= WidthBytes(|L|) && Val(LimbsToBytes(L)[..n], 256) == p && 0 <= p < Pow(256, n)
    ensures Val(L, TWO_32) % Pow(256, n) == p
  {
    ViewSplit(LimbsToBytes(L), n, p);
    LimbsToBytesVal(L);
  }

  /** View bytes from n on that L shares with A, where A agrees with D on
      their common limbs, are the view bytes of D. */
  lemma PadBytesKept(L: seq<limb>, A: seq<limb>, D: seq<limb>, n: nat)
    requires |L| == |A| && n <= WidthBytes(|L|)
    requires LimbsToBytes(L)[n..] == LimbsToBytes(A)[n..]
    requires forall i | 0 <= i < |A| && i < |D| :: A[i] == D[i]
    ensures forall j | n <= j < WidthBytes(Min(|L|, |D|)) :: LimbsToBytes(L)[j] == LimbsToBytes(D)[j]
  {
    forall j | n <= j < WidthBytes(Min(|L|, |D|))
      ensures LimbsToBytes(L)[j] == LimbsToBytes(D)[j]
    {
      assert LimbsToBytes(L)[j] == LimbsToBytes(A)[j];
      LimbsToBytesAt(A, j / 4, j % 4);
      LimbsToBytesAt(D, j / 4, j % 4);
    }
  }

  /** mul_both_constants with the one-byte constants 2 and 3 into a one-limb
      dst holding 0xFFFFFFFF: the two product bytes are 6 and 0, the two pad
      bytes keep 0xFF, so dst reads 0xFFFF0006 instead of 6. */
  method StalePadCounterexample() returns (v: nat)
    ensures v == 0xFFFF_0006 && v != 2 * 3
  {
    var d := OneLimb(LIMB_MAX);
    StalePadWidths();
    MulBothConstants(d, 2, 3);
    StaleLimbValue(d.Limbs());
    v := d.Value();
  }

  /** A fresh one-limb variable holding x, as a caller builds it: init with
      four bytes, then the limb written. */
  method OneLimb(x: limb) returns (r: VarWidth)
    ensures fresh(r) && fresh(r.arr) && r.Valid()
    ensures r.width == 1 && r.Limbs() == [x] && r.Value() == x
  {
    r := Init(null, 4);
    r.arr[0] := x;
    assert r.Limbs() == [x];
    assert r.Limbs()[..0] == [];
  }

  /** mul with an empty rs0 and a one-limb rs1 holding 7, into a dst whose
      one limb held 5: dst gets width 0 + 1, mul_byte writes nothing, and
      the limb realloc kept reads 5 instead of the product 0. */
  method ZeroWidthCounterexample() returns (v: nat)
    ensures v == 5 && v != 0 * 7
  {
    var d := OneLimb(5);
    var e := Init(null, 0);
    var s := OneLimb(7);
    Mul(d, e, s);
    assert d.Limbs() == [5];
    v := d.Value();
  }

  /** mul_constant of a one-limb rs0 holding 7 by k == 0, into a dst whose
      one limb held 5: the width stays 1 + 0, nothing is multiplied, and dst
      reads 5 instead of 0. madd_constant and the power loops inherit this:
      0^power comes out as 1, and dst += src * 0 adds what realloc left. */
  method ZeroConstantCounterexample() returns (v: nat)
    ensures v == 5 && v != 7 * 0
  {
    var d := OneLimb(5);
    var r := OneLimb(7);
    assert LimbWidthFromInt(ByteLength(0)) == 0 by { assert BitLength(0) == 0; }
    MulConstant(d, r, 0);
    assert d.Limbs() == [5];
    v := d.Value();
  }

  /** shift_right by 0 of a src holding 7 into a one-limb dst holding 5:
      dst copies its own limbs and keeps 5, where (7 mod 2^32) >> 0 is 7. */
  method ShiftZeroCounterexample() returns (v: nat)
    ensures v == 5 && v != (7 % Pow(2, WidthBits(1))) / Pow(2, 0)
  {
    var d := OneLimb(5);
    var s := OneLimb(7);
    ShiftRight(d, s, 0);
    assert d.Limbs() == [5];
    v := d.Value();
    ShiftZeroValue();
  }

  /** The same shift through the fixed routine: dst reads 7. */
  method ShiftZeroFixed() returns (v: nat)
    ensures v == 7 == (7 % Pow(2, WidthBits(1))) / Pow(2, 0)
  {
    var d := OneLimb(5);
    var s := OneLimb(7);
    ShiftRightFixed(d, s, 0);
    ShiftZeroValue();
    v := d.Value();
  }

  /** 7 shifted right by 0 within one limb is 7. */
  lemma ShiftZeroValue()
    ensures (7 % Pow(2, WidthBits(1))) / Pow(2, 0) == 7
  {
    PowersOfTwo();
  }

  /** mul_by_square with rs0 = 2 and rs1 = 3 gives 2 + 3^2 = 11 where the
      comment promises 2 3^2 = 18. */
  method AddInsteadOfMultiply() returns (v: nat)
    ensures v == 11 != 2 * Pow(3, 2)
  {
    var d := Init(null, 0);
    var r2 := OneLimb(2);
    var r3 := OneLimb(3);
    SquareOfThree();
    MulBySquare(d, r2, r3);
    v := d.Value();
  }

  /** mul_to_power_constant and mul_by_constant_to_power_constant with
      rs0 = 2, rs1 = k = 3 and power 2 add in the same way: 11, not 18. */
  method PowerAddsCounterexample() returns (v: nat, w: nat)
    ensures v == w == 11 != 2 * Pow(3, 2)
  {
    var d := Init(null, 0);
    var e := Init(null, 0);
    var r2 := OneLimb(2);
    var r3 := OneLimb(3);
    SquareOfThree();
    MulToPowerConstant(d, r2, r3, 2);
    v := d.Value();
    MulByConstantToPowerConstant(e, r2, 3, 2);
    w := e.Value();
  }

  /** 3^2 == 9 */
  lemma SquareOfThree()
    ensures Pow(3, 2) == 9
  {
    assert Pow(3, 1) == 3;
  }

  /** The constants 2 and 3 take one byte each, and two bytes one limb. */
  lemma StalePadWidths()
    ensures ByteLength(2) + ByteLength(3) == 2 && LimbWidthFromInt(2) == 1
  {
    OneByte(2);
    OneByte(3);
  }

  /** A limb whose bytes are 6, 0 and the top two bytes of 0xFFFFFFFF. */
  lemma StaleLimbValue(l: seq<limb>)
    requires |l| == 1
    requires Val(l, TWO_32) % Pow(256, 2) == 6
    requires forall j | 2 <= j < WidthBytes(1) :: LimbsToBytes(l)[j] == LimbsToBytes([LIMB_MAX])[j]
    ensures Val(l, TWO_32) == 0xFFFF_0006
  {
    AllOnesBytes();
    var v := LimbsToBytes(l);
    assert v[2] == 0xFF && v[3] == 0xFF;
    LimbsToBytesVal(l);
    ValFourBytes(v);
    assert Pow(256, 2) == 0x1_0000 by { assert Pow(256, 1) == 256; }
    StaleLow(v[0] + 256 * v[1], Val(l, TWO_32));
  }

  /** A value whose low half is lo < 2^16 and whose high half is all ones. */
  lemma StaleLow(lo: int, x: int)
    requires 0 <= lo < 0x1_0000 && x == lo + 0xFFFF_0000 && x % 0x1_0000 == 6
    ensures x == 0xFFFF_0006
  {
  }


  /** The all-ones limb is four 0xFF bytes. */
  lemma AllOnesBytes()
    ensures LimbsToBytes([LIMB_MAX]) == [0xFF, 0xFF, 0xFF, 0xFF]
  {
    var x: limb := LIMB_MAX;
    assert [x][..0] == [];
    assert LimbsToBytes([x]) == LimbBytes(x);
    assert x / 256 == 0xFF_FFFF && x / 0x1_0000 == 0xFFFF && x / 0x100_0000 == 0xFF;
  }

  /** A constant in 1..255 takes one byte. */
  lemma OneByte(k: u64)
    requires 0 < k < 256
    ensures ByteLength(k) == 1
  {
    PowersOfTwo();
    BitLengthAtMost(k, 8);
  }

  /** mul_both_constants with the buffer cleared before the multiplier runs:
      dst holds k0 * k1 exactly. */
  method MulBothConstantsFixed(dst: VarWidth, k0: u64, k1: u64)
    requires dst.Valid()
    modifies dst
    ensures dst.Valid() && dst.width == LimbWidthFromInt(ByteLength(k0) + ByteLength(k1))
    ensures dst.arr != null && fresh(dst.arr)
    ensures dst.Value() == k0 * k1
  {
    var bytesK0 := Bytecnt(k0);
    var bytesK1 := Bytecnt(k1);
    var width := LimbWidthFromInt(bytesK0 + bytesK1);
    dst.width := width;
    var a := Realloc(dst.arr, width);
    dst.arr := a;
    ZeroFrom(a, 0);
    ghost var Z := a[..];
    assert forall i | 0 <= i < |Z| :: Z[i] == 0;
    MulConstantsInto(a, k0, k1, bytesK0, bytesK1);
    if k0 > 0 && k1 > 0 {
      ConstantProductFits(k0, k1);
      ZeroPadValue(a[..], Z, bytesK0 + bytesK1, k0 * k1);
    } else {
      ValAllZero(a[..], TWO_32);
    }
  }

  /** Limbs whose low n view bytes hold p and whose other view bytes are
      those of all-zero limbs Z have value p. */
  lemma ZeroPadValue(L: seq<limb>, Z: seq<limb>, n: nat, p: int)
    requires |L| == |Z| && n <= WidthBytes(|L|) && Val(LimbsToBytes(L)[..n], 256) == p
    requires forall i | 0 <= i < |Z| :: Z[i] == 0
    requires LimbsToBytes(L)[n..] == LimbsToBytes(Z)[n..]
    ensures Val(L, TWO_32) == p
  {
    var v := LimbsToBytes(L);
    ZeroLimbsView(Z);
    ValAllZero(v[n..], 256);
    ViewSplit(v, n, p);
    LimbsToBytesVal(L);
  }

  /** The byte view of all-zero limbs is all zero. */
  lemma {:induction false} ZeroLimbsView(Z: seq<limb>)
    requires forall i | 0 <= i < |Z| :: Z[i] == 0
    ensures forall j | 0 <= j < |LimbsToBytes(Z)| :: LimbsToBytes(Z)[j] == 0
  {
    if |Z| > 0 {
      ZeroLimbsView(Z[..|Z| - 1]);
      assert LimbBytes(Z[|Z| - 1]) == [0, 0, 0, 0];
    }
  }

  /** NOAHZK_variable_width_square: mul(dst, src, src). Both widths are the
      same, so the empty case yields width 0 and the product is exact. */
  method Square(dst: VarWidth, src: VarWidth)
    requires dst.Valid() && src.Valid()
    requires src == dst || src.arr == null || src.arr != dst.arr
    modifies dst
    ensures dst.Valid() && dst.width == 2 * old(src.width) && dst.arr != null && fresh(dst.arr)
    ensures dst.Value() == old(src.Value()) * old(src.Value())
  {
    Mul(dst, src, src);
  }

  /** NOAHZK_variable_width_square_constant: mul_both_constants(dst, k, k). */
  method SquareConstant(dst: VarWidth, k: u64)
    requires dst.Valid()
    modifies dst
    ensures dst.Valid() && dst.width == LimbWidthFromInt(2 * ByteLength(k))
    ensures dst.arr != null && fresh(dst.arr)
    ensures k > 0 ==> dst.Value() % Pow(256, 2 * ByteLength(k)) == k * k
  {
    MulBothConstants(dst, k, k);
  }

  // ------------------------------------------------------------ shift right

  /** Bit i of a limb sequence is bit i % 32 of limb i / 32. */
  lemma BitOfLimbs(L: seq<limb>, i: nat)
    requires i < 32 * |L|
    ensures (L[i / 32] / Pow(2, i % 32)) % 2 == (Val(L, TWO_32) / Pow(2, i)) % 2
  {
    var q, r := i / 32, i % 32;
    var V, P := Val(L, TWO_32), Pow(2, 32 * q);
    assert L[q] == (V / P) % Pow(2, 32) by {
      assert IsDigits(L, TWO_32);
      DigitOfVal(L, q, TWO_32);
      PowersOfTwo();
      PowPow(2, 32, q);
    }
    assert IsDigits(L, TWO_32);
    ValBounds(L, TWO_32);
    assert V >= 0 && P > 0;
    var Y := V / P;
    assert Y >= 0;
    assert Y / Pow(2, r) == V / Pow(2, i) by {
      DivDiv(V, P, Pow(2, r));
      PowAdd(2, 32 * q, r);
    }
    LowBit(Y, r, 32);
  }

  /** Bit r of x mod 2^n, r < n, is bit r of x. */
  lemma LowBit(x: nat, r: nat, n: nat)
    requires r < n
    ensures ((x % Pow(2, n)) / Pow(2, r)) % 2 == (x / Pow(2, r)) % 2
  {
    PowAdd(2, r, n - r);
    ModDiv(x, Pow(2, r), Pow(2, n - r));
    assert Pow(2, n - r) == 2 * Pow(2, n - r - 1);
    ModMod(x / Pow(2, r), 2, Pow(2, n - r - 1));
  }

  /** The bit read of shift_right: (limb i / 32 >> i % 32) & 1 is bit i of
      the source cut to its low `bits` bits, for i below them. */
  lemma ReadBit(L: seq<limb>, i: nat, bits: nat)
    requires i < bits <= 32 * |L|
    ensures And(L[i / 32] / Pow(2, i % 32), 1) == ((Val(L, TWO_32) % Pow(2, bits)) / Pow(2, i)) % 2
  {
    AndLowMask(L[i / 32] / Pow(2, i % 32), 1);
    assert Pow(2, 1) == 2;
    BitOfLimbs(L, i);
    ValBounds(L, TWO_32);
    LowBit(Val(L, TWO_32), i, bits);
  }

  /** Limbs holding x 2^e, e > 0, have bit e - 1 and every bit below it clear:
      limb (e - 1) / 32 is a multiple of 2^((e - 1) % 32 + 1). */
  lemma SlotClear(L: seq<limb>, x: nat, e: nat)
    requires 0 < e && (e - 1) / 32 < |L| && Val(L, TWO_32) == x * Pow(2, e)
    ensures L[(e - 1) / 32] % Pow(2, (e - 1) % 32 + 1) == 0
  {
    var q, r := (e - 1) / 32, (e - 1) % 32;
    var V, P, R := Val(L, TWO_32), Pow(2, 32 * q), Pow(2, r + 1);
    assert L[q] == (V / P) % Pow(2, 32) by {
      assert IsDigits(L, TWO_32);
      DigitOfVal(L, q, TWO_32);
      PowersOfTwo();
      PowPow(2, 32, q);
    }
    PowAdd(2, 32 * q, r + 1);
    ExactDiv(V, x, P, R, Pow(2, e));
    PowAdd(2, r + 1, 31 - r);
    MulModClear(x, R, Pow(2, 31 - r), Pow(2, 32));
  }

  /** v == x (p r) gives v / p == x r. */
  lemma ExactDiv(v: int, x: int, p: int, r: int, e: int)
    requires p > 0 && e == p * r && v == x * e
    ensures v / p == x * r
  {
    MulAssocComm(x, r, p);
    DivUnique(0, v, x * r, p);
  }

  /** A multiple of r, cut to a multiple m of r, is still a multiple of r. */
  lemma MulModClear(x: int, r: int, q: int, m: int)
    requires r > 0 && q > 0 && m == r * q
    ensures ((x * r) % m) % r == 0
  {
    ModMod(x * r, r, q);
    ModUnique(0, x * r, x, r);
  }

  /** One step of the shift loop, in values: x 2^(e+1) plus the next bit at
      2^e is t / 2^i times 2^e, when x == t / 2^(i+1). */
  lemma ShiftStep(t: nat, i: nat, e: nat, bit: int)
    requires bit == (t / Pow(2, i)) % 2
    ensures (t / Pow(2, i + 1)) * Pow(2, e + 1) + bit * Pow(2, e) == (t / Pow(2, i)) * Pow(2, e)
  {
    var u := t / Pow(2, i);
    PowAdd(2, i, 1);
    assert Pow(2, 1) == 2;
    DivDiv(t, Pow(2, i), 2);
    assert u == 2 * (u / 2) + bit;
    PowAdd(2, e, 1);
    MulAssocComm(u / 2, 2, Pow(2, e));
  }

  /** The update of the shift loop: or-ing bit i of t, shifted down by shamt,
      into the limbs that hold the bits of t above i adds it. */
  lemma OrBitStep(L: seq<limb>, t: nat, i: nat, shamt: nat, bit: nat)
    requires 0 < shamt <= i && i - shamt < 32 * |L|
    requires bit == (t / Pow(2, i)) % 2
    requires Val(L, TWO_32) == (t / Pow(2, i + 1)) * Pow(2, i + 1 - shamt)
    ensures Or(L[(i - shamt) / 32], ShiftLeft(bit, (i - shamt) % 32)) < TWO_32
    ensures Val(L[(i - shamt) / 32 := Or(L[(i - shamt) / 32], ShiftLeft(bit, (i - shamt) % 32))], TWO_32)
            == (t / Pow(2, i)) * Pow(2, i - shamt)
  {
    var e := i - shamt;
    var q, r := e / 32, e % 32;
    var x := L[q];
    var d := bit * Pow(2, r);
    var V := Val(L, TWO_32);
    var P := Pow(2, i + 1);
    assert P > 0;
    DivNonNeg(t, P);
    var X := t / P;
    assert V == X * Pow(2, e + 1);
    assert Or(x, ShiftLeft(bit, r)) == x + d < TWO_32 by {
      SlotClear(L, X, e + 1);
      ShiftLeftMul(bit, r);
      OrFreshBit(x, r, bit);
      LimbOr(x, bit, r);
    }
    assert Val(L[q := x + d], TWO_32) == V + bit * Pow(2, e) by {
      ValUpdate(L, q, x + d, TWO_32);
      assert x + d - L[q] == d;
      LimbWeight(bit, q, r);
    }
    assert V + bit * Pow(2, e) == (t / Pow(2, i)) * Pow(2, e) by {
      ShiftStep(t, i, e, bit);
    }
  }

  /** A bit at a position below 32 or-ed into a limb stays a limb. */
  lemma LimbOr(x: limb, bit: nat, r: nat)
    requires bit <= 1 && r < 32
    ensures Or(x, bit * Pow(2, r)) < TWO_32
  {
    PowersOfTwo();
    PowMonotone(2, r + 1, 32);
    OrBounds(x, bit * Pow(2, r), 32);
  }

  /** Bit r of limb q weighs 2^(32 q + r). */
  lemma LimbWeight(bit: int, q: nat, r: nat)
    ensures bit * Pow(2, r) * Pow(TWO_32, q) == bit * Pow(2, 32 * q + r)
  {
    PowersOfTwo();
    PowPow(2, 32, q);
    PowAdd(2, 32 * q, r);
    MulAssocComm(bit, Pow(2, r), Pow(2, 32 * q));
  }

  /** The bit loop of shift_right, 0 < shamt < bits: from bit bits - 1 down to
      bit shamt, bit i of src goes to bit i - shamt of the zeroed buffer out,
      so out ends up holding (src mod 2^bits) >> shamt. */
  method ShiftInto(out: array<limb>, src: VarWidth, shamt: nat)
    requires src.Valid() && out != src.arr
    requires 0 < shamt < WidthBits(out.Length) && out.Length <= src.width
    requires forall j | 0 <= j < out.Length :: out[j] == 0
    modifies out
    ensures Val(out[..], TWO_32) == (src.Value() % Pow(2, WidthBits(out.Length))) / Pow(2, shamt)
  {
    var bits := WidthBits(out.Length);
    ghost var S := src.Limbs();
    ghost var t := Val(S, TWO_32) % Pow(2, bits);
    ValAllZero(out[..], TWO_32);
    DivUnique(t, t, 0, Pow(2, bits));
    var i: int := bits - 1;
    while i >= shamt
      invariant shamt - 1 <= i < bits
      invariant src.Limbs() == S
      invariant Val(out[..], TWO_32) == (t / Pow(2, i + 1)) * Pow(2, i + 1 - shamt)
    {
      ShiftBit(out, src.arr, t, i, shamt, bits);
      i := i - 1;
    }
  }

  /** One step of the shift loop: bit i of src or-ed into bit i - shamt of
      out, which holds the bits of t above i shifted down by shamt. */
  method ShiftBit(out: array<limb>, a: array<limb>, ghost t: nat, i: nat, shamt: nat, bits: nat)
    requires out != a && out.Length <= a.Length
    requires 0 < shamt <= i < bits && bits == WidthBits(out.Length)
    requires t == Val(a[..], TWO_32) % Pow(2, bits)
    requires Val(out[..], TWO_32) == (t / Pow(2, i + 1)) * Pow(2, i + 1 - shamt)
    modifies out
    ensures Val(out[..], TWO_32) == (t / Pow(2, i)) * Pow(2, i - shamt)
  {
    DivBounds(i, out.Length, BITS_IN_LIMB);
    DivBounds(i - shamt, out.Length, BITS_IN_LIMB);
    DivNonNeg(a[i / BITS_IN_LIMB], Pow(2, i % BITS_IN_LIMB));
    var bit := And(a[i / BITS_IN_LIMB] / Pow(2, i % BITS_IN_LIMB), 1);
    var q, r := (i - shamt) / BITS_IN_LIMB, (i - shamt) % BITS_IN_LIMB;
    ghost var L := out[..];
    ShiftBitValue(L, a[..], t, i, shamt, bits, bit);
    out[q] := Or(out[q], ShiftLeft(bit, r));
    assert out[..] == L[q := Or(L[q], ShiftLeft(bit, r))];
  }

  /** ShiftBit in values: ReadBit gives the bit, OrBitStep the update. */
  lemma ShiftBitValue(L: seq<limb>, S: seq<limb>, t: nat, i: nat, shamt: nat, bits: nat, bit: nat)
    requires 0 < shamt <= i < bits && bits == WidthBits(|L|) && |L| <= |S|
    requires t == Val(S, TWO_32) % Pow(2, bits)
    requires bit == And(S[i / 32] / Pow(2, i % 32), 1)
    requires Val(L, TWO_32) == (t / Pow(2, i + 1)) * Pow(2, i + 1 - shamt)
    ensures Or(L[(i - shamt) / 32], ShiftLeft(bit, (i - shamt) % 32)) < TWO_32
    ensures Val(L[(i - shamt) / 32 := Or(L[(i - shamt) / 32], ShiftLeft(bit, (i - shamt) % 32))], TWO_32)
            == (t / Pow(2, i)) * Pow(2, i - shamt)
  {
    ReadBit(S, i, bits);
    OrBitStep(L, t, i, shamt, bit);
  }

  /** NOAHZK_variable_width_shift_right: dst keeps its width and, for a
      non-zero shift, becomes src's low WidthBits(dst.width) bits shifted
      right by shamt (0 once shamt reaches that width: at the width the
      buffer stays zero, beyond it the loop runs no step). A shift of 0
      copies dst's own limbs back, so dst is left as it was whatever src is.
      The loop counter starts at the bit width minus one in 64 bits, so a
      non-zero shift of an empty dst, and a source narrower than dst, are
      read out of bounds. */
  method ShiftRight(dst: VarWidth, src: VarWidth, shamt: u64)
    requires dst.Valid() && src.Valid()
    requires dst.width == 0 ==> shamt == 0
    requires 0 < shamt < WidthBits(dst.width) ==> dst.width <= src.width
    modifies dst.arr
    ensures dst.Valid()
    ensures shamt == 0 ==> dst.Limbs() == old(dst.Limbs())
    ensures shamt > 0 ==> dst.Value() == (old(src.Value()) % Pow(2, WidthBits(dst.width))) / Pow(2, shamt)
  {
    var w := dst.width;
    ghost var D, S := dst.Limbs(), src.Limbs();
    var buf := new limb[w](_ => 0);
    if shamt == 0 {
      forall j | 0 <= j < w {
        buf[j] := dst.arr[j];
      }
      assert buf[..] == D;
    } else if shamt < WidthBits(w) {
      ShiftInto(buf, src, shamt);
    } else {
      ShiftedOut(buf[..], S, w, shamt);
    }
    ghost var B := buf[..];
    assert shamt == 0 ==> B == D;
    assert shamt > 0 ==> Val(B, TWO_32) == (Val(S, TWO_32) % Pow(2, WidthBits(w))) / Pow(2, shamt);
    if w > 0 {
      forall j | 0 <= j < w {
        dst.arr[j] := buf[j];
      }
      assert dst.Limbs() == B;
    }
  }

  /** A shift by at least the width leaves the zeroed buffer: both sides are 0. */
  lemma ShiftedOut(Z: seq<limb>, S: seq<limb>, w: nat, shamt: nat)
    requires |Z| == w && WidthBits(w) <= shamt && forall j | 0 <= j < |Z| :: Z[j] == 0
    ensures Val(Z, TWO_32) == (Val(S, TWO_32) % Pow(2, WidthBits(w))) / Pow(2, shamt)
  {
    ValAllZero(Z, TWO_32);
    ValBounds(S, TWO_32);
    var t := Val(S, TWO_32) % Pow(2, WidthBits(w));
    PowMonotone(2, WidthBits(w), shamt);
    DivUnique(t, t, 0, Pow(2, shamt));
  }

  /** shift_right with a shift of 0 copying src, as every other shift reads
      it: dst becomes src's low WidthBits(dst.width) bits shifted right by
      shamt, for every shamt. */
  method ShiftRightFixed(dst: VarWidth, src: VarWidth, shamt: u64)
    requires dst.Valid() && src.Valid()
    requires dst.width == 0 ==> shamt == 0
    requires shamt < WidthBits(dst.width) ==> dst.width <= src.width
    modifies dst.arr
    ensures dst.Valid()
    ensures dst.Value() == (old(src.Value()) % Pow(2, WidthBits(dst.width))) / Pow(2, shamt)
  {
    var w := dst.width;
    ghost var S := src.Limbs();
    var buf := new limb[w](_ => 0);
    if shamt == 0 {
      forall j | 0 <= j < w {
        buf[j] := src.arr[j];
      }
      assert buf[..] == S[..w];
      CopiedLow(S, w);
    } else if shamt < WidthBits(w) {
      ShiftInto(buf, src, shamt);
    } else {
      ShiftedOut(buf[..], S, w, shamt);
    }
    ghost var B := buf[..];
    assert Val(B, TWO_32) == (Val(S, TWO_32) % Pow(2, WidthBits(w))) / Pow(2, shamt);
    if w > 0 {
      forall j | 0 <= j < w {
        dst.arr[j] := buf[j];
      }
      assert dst.Limbs() == B;
    }
  }

  /** The low w limbs of S hold S's low WidthBits(w) bits (a shift by 0). */
  lemma CopiedLow(S: seq<limb>, w: nat)
    requires w <= |S|
    ensures Val(S[..w], TWO_32) == (Val(S, TWO_32) % Pow(2, WidthBits(w))) / Pow(2, 0)
  {
    assert IsDigits(S, TWO_32);
    ValPrefixMod(S, w, TWO_32);
    LimbsFitWidthBits(S[..w]);
  }

  // ------------------------------------------------------------ built on mul

  /** NOAHZK_variable_width_mul_by_square. Documented as dst = rs0 rs1^2, the
      code squares rs1 into an empty temporary with mul and then ADDS it to
      rs0 with add_and_resize, so dst becomes rs0 + rs1^2, at
      add_and_resize's width. */
  method MulBySquare(dst: VarWidth, rs0: VarWidth, rs1: VarWidth)
    requires dst.Valid() && rs0.Valid() && rs1.Valid()
    requires dst.width < Max(rs0.width, 2 * rs1.width) ==>
      rs0 == dst || rs0.arr == null || rs0.arr != dst.arr
    modifies dst, dst.arr
    ensures dst.Valid()
    ensures var w := Max(old(dst.width), Max(old(rs0.width), 2 * old(rs1.width)));
      var s := old(rs0.Value()) + old(rs1.Value()) * old(rs1.Value());
      dst.width == (if s < Pow(TWO_32, w) then w else w + 1) && dst.Value() == s
  {
    var product := NewSquare(rs1);
    AddAndResize(dst, rs0, product);
    Destroy(product, false);
  }

  /** The product buffer of mul_by_square: a fresh initializer-state
      number multiplied into by rs1 twice. */
  method NewSquare(rs1: VarWidth) returns (product: VarWidth)
    requires rs1.Valid()
    ensures fresh(product) && product.Valid() && product.arr != null && fresh(product.arr)
    ensures product.width == 2 * rs1.width && product.Value() == rs1.Value() * rs1.Value()
  {
    product := new VarWidth.Empty();
    Mul(product, rs1, rs1);
    if rs1.width == 0 {
      assert product.Limbs() == [];
    }
  }

  /** mul_by_square as documented: the square multiplied into rs0, with the
      zero-safe mul, so dst becomes rs0 rs1^2. */
  method MulBySquareFixed(dst: VarWidth, rs0: VarWidth, rs1: VarWidth)
    requires dst.Valid() && rs0.Valid() && rs1.Valid()
    requires rs0 == dst || rs0.arr == null || rs0.arr != dst.arr
    modifies dst
    ensures dst.Valid() && dst.width == old(rs0.width) + 2 * old(rs1.width)
    ensures dst.Value() == old(rs0.Value()) * (old(rs1.Value()) * old(rs1.Value()))
  {
    var product := new VarWidth.Empty();
    Square(product, rs1);
    MulFixed(dst, rs0, product);
    Destroy(product, false);
  }

  /** NOAHZK_variable_width_mul_by_square_constant. Documented by its name as
      rs0 k^2, the code adds: dst becomes rs0 + square, where square is what
      square_constant left in an empty temporary, k^2 in its low
      2 bytecnt(k) bytes and realloc's uninitialised bytes above them. */
  method MulBySquareConstant(dst: VarWidth, rs0: VarWidth, k: u64) returns (ghost square: nat)
    requires dst.Valid() && rs0.Valid()
    requires dst.width < Max(rs0.width, LimbWidthFromInt(2 * ByteLength(k))) ==>
      rs0 == dst || rs0.arr == null || rs0.arr != dst.arr
    modifies dst, dst.arr
    ensures k > 0 ==> square % Pow(256, 2 * ByteLength(k)) == k * k
    ensures k == 0 ==> square == 0
    ensures dst.Valid()
    ensures var w := Max(old(dst.width), Max(old(rs0.width), LimbWidthFromInt(2 * ByteLength(k))));
      var s := old(rs0.Value()) + square;
      dst.width == (if s < Pow(TWO_32, w) then w else w + 1) && dst.Value() == s
  {
    var product := new VarWidth.Empty();
    SquareConstant(product, k);
    if k == 0 {
      assert product.Limbs() == [];
    }
    square := product.Value();
    AddAndResize(dst, rs0, product);
    Destroy(product, false);
  }

  /** mul_by_square_constant as its name says: the exact square k^2 (the
      buffer cleared before the multiplier runs) multiplied into rs0. */
  method MulBySquareConstantFixed(dst: VarWidth, rs0: VarWidth, k: u64)
    requires dst.Valid() && rs0.Valid()
    requires rs0 == dst || rs0.arr == null || rs0.arr != dst.arr
    modifies dst
    ensures dst.Valid() && dst.width == old(rs0.width) + LimbWidthFromInt(2 * ByteLength(k))
    ensures dst.Value() == old(rs0.Value()) * (k * k)
  {
    var product := new VarWidth.Empty();
    MulBothConstantsFixed(product, k, k);
    MulFixed(dst, rs0, product);
    Destroy(product, false);
  }

  /** init_constant(alloca(...), 1): a fresh one-limb variable holding 1. */
  method InitOne() returns (r: VarWidth)
    ensures fresh(r) && r.Valid() && r.width == 1 && r.Value() == 1
    ensures r.arr == null || fresh(r.arr)
  {
    r := InitConstant(null, 1);
    MinBitcntVarIsBitLength(1);
    assert BitLength(1) == 1;
  }

  /** One more factor v turns v^i into v^(i+1). */
  lemma PowStep(v: int, i: nat, before: int, after: int)
    requires before == Pow(v, i) && after == before * v
    ensures after == Pow(v, i + 1)
  {
  }

  lemma MulStep(i: nat, w: nat)
    ensures (i + 1) * w == i * w + w
  {
  }

  /** The loop of mul_to_power_constant: a temporary initialised to the
      constant 1 and multiplied by rs1 `power` times with mul. An empty rs1
      makes every mul write nothing, so the product then stays 1 however
      large the power. */
  method RaiseToPower(rs1: VarWidth, power: u64) returns (product: VarWidth)
    requires rs1.Valid()
    ensures fresh(product) && product.Valid() && (product.arr == null || fresh(product.arr))
    ensures product.width == 1 + power * rs1.width
    ensures product.Value() == if rs1.width == 0 then 1 else Pow(rs1.Value(), power)
  {
    product := InitOne();
    ghost var v := rs1.Value();
    var i: u64 := 0;
    while i < power
      invariant i <= power
      invariant fresh(product) && product.Valid() && (product.arr == null || fresh(product.arr))
      invariant product.width == 1 + i * rs1.width
      invariant rs1.Valid() && rs1.Value() == v
      invariant product.Value() == if rs1.width == 0 then 1 else Pow(v, i)
    {
      ghost var L, before := product.Limbs(), product.Value();
      Mul(product, product, rs1);
      if rs1.width == 0 {
        assert product.Limbs() == L;
      } else {
        PowStep(v, i, before, product.Value());
      }
      MulStep(i, rs1.width);
      i := i + 1;
    }
  }

  /** The loop of mul_to_power_constant with the zero-safe mul: the product
      is rs1^power, 0 for an empty rs1 and a positive power. */
  method RaiseToPowerFixed(rs1: VarWidth, power: u64) returns (product: VarWidth)
    requires rs1.Valid()
    ensures fresh(product) && product.Valid() && (product.arr == null || fresh(product.arr))
    ensures product.width == 1 + power * rs1.width
    ensures product.Value() == Pow(rs1.Value(), power)
  {
    product := InitOne();
    ghost var v := rs1.Value();
    var i: u64 := 0;
    while i < power
      invariant i <= power
      invariant fresh(product) && product.Valid() && (product.arr == null || fresh(product.arr))
      invariant product.width == 1 + i * rs1.width
      invariant rs1.Valid() && rs1.Value() == v
      invariant product.Value() == Pow(v, i)
    {
      ghost var before := product.Value();
      MulFixed(product, product, rs1);
      PowStep(v, i, before, product.Value());
      MulStep(i, rs1.width);
      i := i + 1;
    }
  }

  /** NOAHZK_variable_width_mul_to_power_constant. Documented as
      dst = rs0 rs1^power, the code adds the power to rs0 with
      add_and_resize; the power itself is 1 for an empty rs1. */
  method MulToPowerConstant(dst: VarWidth, rs0: VarWidth, rs1: VarWidth, power: u64)
    requires dst.Valid() && rs0.Valid() && rs1.Valid()
    requires dst.width < Max(rs0.width, 1 + power * rs1.width) ==>
      rs0 == dst || rs0.arr == null || rs0.arr != dst.arr
    modifies dst, dst.arr
    ensures dst.Valid()
    ensures var w := Max(old(dst.width), Max(old(rs0.width), 1 + power * old(rs1.width)));
      var s := old(rs0.Value()) + (if old(rs1.width) == 0 then 1 else Pow(old(rs1.Value()), power));
      dst.width == (if s < Pow(TWO_32, w) then w else w + 1) && dst.Value() == s
  {
    var product := RaiseToPower(rs1, power);
    AddAndResize(dst, rs0, product);
    Destroy(product, false);
  }

  /** mul_to_power_constant as documented: dst = rs0 rs1^power. */
  method MulToPowerConstantFixed(dst: VarWidth, rs0: VarWidth, rs1: VarWidth, power: u64)
    requires dst.Valid() && rs0.Valid() && rs1.Valid()
    requires rs0 == dst || rs0.arr == null || rs0.arr != dst.arr
    modifies dst
    ensures dst.Valid() && dst.width == old(rs0.width) + 1 + power * old(rs1.width)
    ensures dst.Value() == old(rs0.Value()) * Pow(old(rs1.Value()), power)
  {
    var product := RaiseToPowerFixed(rs1, power);
    MulFixed(dst, rs0, product);
    Destroy(product, false);
  }

  /** mul_constant with the empty cases handled: when rs0 is empty or k is 0
      the resized buffer is cleared, so dst holds rs0 k in every case. */
  method MulConstantFixed(dst: VarWidth, rs0: VarWidth, k: u64)
    requires dst.Valid() && rs0.Valid()
    requires rs0 == dst || rs0.arr == null || rs0.arr != dst.arr
    modifies dst
    ensures dst.Valid() && dst.width == old(rs0.width) + LimbWidthFromInt(ByteLength(k))
    ensures dst.arr != null && fresh(dst.arr)
    ensures dst.Value() == old(rs0.Value()) * k
  {
    var w0 := rs0.width;
    MulConstant(dst, rs0, k);
    if w0 == 0 || k == 0 {
      ZeroFrom(dst.arr, 0);
      ValAllZero(dst.Limbs(), TWO_32);
    }
  }

  /** The loop of mul_by_constant_to_power_constant: a temporary initialised
      to 1 and multiplied by k `power` times with mul_constant. For k == 0
      mul_constant adds no limb and writes nothing, so the product stays 1. */
  method ConstantToPower(k: u64, power: u64) returns (product: VarWidth)
    ensures fresh(product) && product.Valid() && (product.arr == null || fresh(product.arr))
    ensures product.width == 1 + power * LimbWidthFromInt(ByteLength(k))
    ensures product.Value() == if k == 0 then 1 else Pow(k, power)
  {
    product := InitOne();
    ghost var lk := LimbWidthFromInt(ByteLength(k));
    var i: u64 := 0;
    while i < power
      invariant i <= power
      invariant fresh(product) && product.Valid() && (product.arr == null || fresh(product.arr))
      invariant product.width == 1 + i * lk
      invariant product.Value() == if k == 0 then 1 else Pow(k, i)
    {
      ghost var L, before := product.Limbs(), product.Value();
      MulConstant(product, product, k);
      if k == 0 {
        assert product.Limbs() == L;
      } else {
        PowStep(k, i, before, product.Value());
      }
      MulStep(i, lk);
      i := i + 1;
    }
  }

  /** The loop of mul_by_constant_to_power_constant with the zero-safe
      mul_constant: the product is k^power. */
  method ConstantToPowerFixed(k: u64, power: u64) returns (product: VarWidth)
    ensures fresh(product) && product.Valid() && (product.arr == null || fresh(product.arr))
    ensures product.width == 1 + power * LimbWidthFromInt(ByteLength(k))
    ensures product.Value() == Pow(k, power)
  {
    product := InitOne();
    ghost var lk := LimbWidthFromInt(ByteLength(k));
    var i: u64 := 0;
    while i < power
      invariant i <= power
      invariant fresh(product) && product.Valid() && (product.arr == null || fresh(product.arr))
      invariant product.width == 1 + i * lk
      invariant product.Value() == Pow(k, i)
    {
      ghost var before := product.Value();
      MulConstantFixed(product, product, k);
      PowStep(k, i, before, product.Value());
      MulStep(i, lk);
      i := i + 1;
    }
  }

  /** NOAHZK_variable_width_mul_by_constant_to_power_constant. Documented as
      dst = rs0 k^power, the code adds the power to rs0 with add_and_resize;
      the power itself is 1 for k == 0. */
  method MulByConstantToPowerConstant(dst: VarWidth, rs0: VarWidth, k: u64, power: u64)
    requires dst.Valid() && rs0.Valid()
    requires dst.width < Max(rs0.width, 1 + power * LimbWidthFromInt(ByteLength(k))) ==>
      rs0 == dst || rs0.arr == null || rs0.arr != dst.arr
    modifies dst, dst.arr
    ensures dst.Valid()
    ensures var w := Max(old(dst.width), Max(old(rs0.width), 1 + power * LimbWidthFromInt(ByteLength(k))));
      var s := old(rs0.Value()) + (if k == 0 then 1 else Pow(k, power));
      dst.width == (if s < Pow(TWO_32, w) then w else w + 1) && dst.Value() == s
  {
    var product := ConstantToPower(k, power);
    AddAndResize(dst, rs0, product);
    Destroy(product, false);
  }

  /** mul_by_constant_to_power_constant as documented: dst = rs0 k^power. */
  method MulByConstantToPowerConstantFixed(dst: VarWidth, rs0: VarWidth, k: u64, power: u64)
    requires dst.Valid() && rs0.Valid()
    requires rs0 == dst || rs0.arr == null || rs0.arr != dst.arr
    modifies dst
    ensures dst.Valid() && dst.width == old(rs0.width) + 1 + power * LimbWidthFromInt(ByteLength(k))
    ensures dst.Value() == old(rs0.Value()) * Pow(k, power)
  {
    var product := ConstantToPowerFixed(k, power);
    MulFixed(dst, rs0, product);
    Destroy(product, false);
  }

  /** NOAHZK_variable_width_madd_constant: dst += src k, with nothing done
      for an empty src. The product is formed by mul_constant in an empty
      temporary, so for k == 0 it is realloc's uninitialised limbs and dst
      grows by an unconstrained amount. */
  method MaddConstant(dst: VarWidth, src: VarWidth, k: u64)
    requires dst.Valid() && src.Valid()
    modifies dst, dst.arr
    ensures dst.Valid() && dst.Value() >= old(dst.Value())
    ensures old(src.width) == 0 ==>
      dst.width == old(dst.width) && dst.arr == old(dst.arr) && dst.Limbs() == old(dst.Limbs())
    ensures old(src.width) > 0 && k > 0 ==>
      var w := Max(old(dst.width), old(src.width) + LimbWidthFromInt(ByteLength(k)));
      var s := old(dst.Value()) + old(src.Value()) * k;
      dst.width == (if s < Pow(TWO_32, w) then w else w + 1) && dst.Value() == s
  {
    if src.width == 0 {
      return;
    }
    var product := new VarWidth.Empty();
    MulConstant(product, src, k);
    AddAndResize(dst, dst, product);
    Destroy(product, false);
  }

  /** madd_constant with the zero-safe mul_constant: dst += src k for every
      k. */
  method MaddConstantFixed(dst: VarWidth, src: VarWidth, k: u64)
    requires dst.Valid() && src.Valid()
    modifies dst, dst.arr
    ensures dst.Valid() && dst.Value() == old(dst.Value()) + old(src.Value()) * k
    ensures old(src.width) == 0 ==> dst.width == old(dst.width)
    ensures old(src.width) > 0 ==>
      var w := Max(old(dst.width), old(src.width) + LimbWidthFromInt(ByteLength(k)));
      var s := old(dst.Value()) + old(src.Value()) * k;
      dst.width == (if s < Pow(TWO_32, w) then w else w + 1)
  {
    if src.width == 0 {
      assert src.Limbs() == [];
      return;
    }
    var product := new VarWidth.Empty();
    MulConstantFixed(product, src, k);
    AddAndResize(dst, dst, product);
    Destroy(product, false);
  }

  /** NOAHZK_variable_width_add_and_mul_and_resize: dst = (dst + rs1) rs2,
      by add_and_resize into dst and then mul into dst. When rs2 is dst
      itself the multiplier is the sum; the product is exact when neither
      factor is empty. */
  method AddAndMulAndResize(dst: VarWidth, rs1: VarWidth, rs2: VarWidth)
    requires dst.Valid() && rs1.Valid() && rs2.Valid()
    requires dst.width < rs1.width ==> rs1 == dst || rs1.arr == null || rs1.arr != dst.arr
    requires rs2 == dst || rs2.arr == null || rs2.arr != dst.arr
    modifies dst, dst.arr
    ensures dst.Valid()
    ensures var w := Max(old(dst.width), old(rs1.width));
      var s := old(dst.Value()) + old(rs1.Value());
      var ws := if s < Pow(TWO_32, w) then w else w + 1;
      var m := if rs2 == dst then s else old(rs2.Value());
      var wm := if rs2 == dst then ws else old(rs2.width);
      dst.width == ws + wm && (ws > 0 && wm > 0 ==> dst.Value() == s * m)
        && (wm == 0 ==> dst.Value() == s)
  {
    AddAndResize(dst, dst, rs1);
    ghost var sum := dst.Limbs();
    Mul(dst, dst, rs2);
    if dst.width == |sum| {
      assert dst.Limbs() == sum;
    }
  }

  /** ((x mod q r) y) mod q == (x y) mod q */
  lemma MulModMod(x: int, y: int, q: int, r: int)
    requires q > 0 && r > 0
    ensures q * r > 0 && ((x % (q * r)) * y) % q == (x * y) % q
  {
    MulPositive(q, r);
    var n := q * r;
    var h := x / n;
    assert x == x % n + h * n;
    assert x * y == (x % n) * y + (h * r * y) * q by {
      assert x * y == (x % n) * y + (h * n) * y;
      assert (h * n) * y == (h * r * y) * q;
    }
    ModAddMultiple((x % n) * y, h * r * y, q);
  }

  /** Limbs read back through their low n bytes give their value mod 256^n. */
  lemma LowBytesVal(L: seq<limb>, n: nat)
    requires n <= WidthBytes(|L|)
    ensures Val(LimbsToBytes(L)[..n], 256) == Val(L, TWO_32) % Pow(256, n)
  {
    var v := LimbsToBytes(L);
    assert IsDigits(v, 256);
    ValPrefixMod(v, n, 256);
    LimbsToBytesVal(L);
  }

  /** w limbs span 256^n times 256^(4 w - n). */
  lemma LimbPowSplit(w: nat, n: nat)
    requires n <= WidthBytes(w)
    ensures Pow(TWO_32, w) == Pow(256, n) * Pow(256, WidthBytes(w) - n)
  {
    assert Pow(256, 4) == TWO_32;
    PowPow(256, 4, w);
    PowAdd(256, n, WidthBytes(w) - n);
  }

  /** The arithmetic of add_and_mul_into_byte on a temporary: the first
      width0 bytes of dst loaded, rs1 added with the fixed-width add, rs2
      multiplied in with mul. Cut to width0 bytes, the result is
      (dst + rs1) rs2, or the sum alone when rs2 is empty. */
  method SumTimes(dst: array<byte>, rs1: VarWidth, rs2: VarWidth, width0: nat) returns (rs0: VarWidth)
    requires rs1.Valid() && rs2.Valid() && width0 <= dst.Length
    ensures fresh(rs0) && rs0.Valid() && rs0.width == LimbWidthFromInt(width0) + rs2.width
    ensures rs0.arr != null && fresh(rs0.arr)
    ensures width0 > 0 && rs2.width > 0 ==>
      rs0.Value() % Pow(256, width0) == ((Val(dst[..width0], 256) + rs1.Value()) * rs2.Value()) % Pow(256, width0)
    ensures width0 > 0 && rs2.width == 0 ==>
      rs0.Value() % Pow(256, width0) == (Val(dst[..width0], 256) + rs1.Value()) % Pow(256, width0)
  {
    ghost var d, v1, v2 := Val(dst[..width0], 256), rs1.Value(), rs2.Value();
    rs0 := LoadAndAdd(dst, rs1, width0);
    ghost var w, sum := rs0.width, rs0.Value();
    MulInPlace(rs0, rs2);
    if width0 > 0 {
      SumTimesArith(d + v1, v2, w, width0, sum, rs0.Value(), rs2.width > 0);
    }
  }

  /** mul(rs0, rs0, rs2) on a temporary: with both widths non-zero rs0
      becomes the product; with rs2 empty the multiplier writes nothing and
      rs0 keeps its limbs. */
  method MulInPlace(rs0: VarWidth, rs2: VarWidth)
    requires rs0.Valid() && rs2.Valid() && rs0 != rs2 && (rs0.arr == null || rs0.arr != rs2.arr)
    modifies rs0
    ensures rs0.Valid() && rs0.width == old(rs0.width) + rs2.width && rs0.arr != null && fresh(rs0.arr)
    ensures old(rs0.width) > 0 && rs2.width > 0 ==> rs0.Value() == old(rs0.Value()) * rs2.Value()
    ensures rs2.width == 0 ==> rs0.Value() == old(rs0.Value())
  {
    ghost var L := rs0.Limbs();
    Mul(rs0, rs0, rs2);
    if rs2.width == 0 {
      assert rs0.Limbs() == L;
    }
  }

  /** The first width0 bytes of dst loaded into a fresh temporary and rs1
      added with the fixed-width add. */
  method LoadAndAdd(dst: array<byte>, rs1: VarWidth, width0: nat) returns (rs0: VarWidth)
    requires rs1.Valid() && width0 <= dst.Length
    ensures fresh(rs0) && rs0.Valid() && rs0.width == LimbWidthFromInt(width0)
    ensures rs0.arr == null || fresh(rs0.arr)
    ensures rs0.Value() == (Val(dst[..width0], 256) + rs1.Value()) % Pow(TWO_32, rs0.width)
  {
    rs0 := InitArr(null, dst, width0);
    Add.Add(rs0, rs0, rs1);
  }

  /** Cut to n <= 4 w bytes, (x mod 2^(32 w)) y is x y, and x mod 2^(32 w)
      is x. */
  lemma SumTimesArith(x: int, y: int, w: nat, n: nat, sum: int, result: int, multiplied: bool)
    requires n <= WidthBytes(w) && sum == x % Pow(TWO_32, w)
    requires multiplied ==> result == sum * y
    requires !multiplied ==> result == sum
    ensures multiplied ==> result % Pow(256, n) == (x * y) % Pow(256, n)
    ensures !multiplied ==> result % Pow(256, n) == x % Pow(256, n)
  {
    LimbPowSplit(w, n);
    var P, Q := Pow(256, n), Pow(256, WidthBytes(w) - n);
    if multiplied {
      MulModMod(x, y, P, Q);
    } else {
      ModMod(x, P, Q);
    }
  }

  /** NOAHZK_variable_width_add_and_mul_into_byte: dst = (dst + rs1) rs2 on
      the first width0 bytes of the byte array dst. The bytes are loaded into
      a temporary of SIZE_AS_ARR_OF_TYPE(width0, 4) limbs, rs1 is added with
      the fixed-width add and rs2 multiplied in with mul, and the low width0
      bytes go back. An empty rs2 leaves the sum: mul writes nothing. With
      width0 == 0 copy_to_arr copies every byte of the product, so dst then
      needs room for them. */
  method AddAndMulIntoByte(dst: array<byte>, rs1: VarWidth, rs2: VarWidth, width0: nat)
    requires rs1.Valid() && rs2.Valid() && width0 <= dst.Length
    requires width0 == 0 ==> WidthBytes(rs2.width) <= dst.Length
    modifies dst
    ensures width0 > 0 ==> dst[width0..] == old(dst[width0..])
    ensures width0 > 0 && old(rs2.width) > 0 ==>
      Val(dst[..width0], 256) ==
        ((Val(old(dst[..width0]), 256) + old(rs1.Value())) * old(rs2.Value())) % Pow(256, width0)
    ensures width0 > 0 && old(rs2.width) == 0 ==>
      Val(dst[..width0], 256) == (Val(old(dst[..width0]), 256) + old(rs1.Value())) % Pow(256, width0)
  {
    var rs0 := SumTimes(dst, rs1, rs2, width0);
    ghost var M := rs0.Limbs();
    var r := CopyToArr(dst, width0, rs0);
    if width0 > 0 {
      LowBytesVal(M, width0);
    }
    Destroy(rs0, false);
  }

  // ------------------------------------------------------------ triangle numbers

  /** A value below 256^m that is n^2 mod 256^m is n^2, and then
      (n^2 + n) / 2 is the triangle number n (n + 1) / 2. */
  lemma TriangleExact(square: nat, n: nat, m: nat)
    requires square < Pow(256, m) && square % Pow(256, m) == n * n
    ensures (square + n) / 2 == n * (n + 1) / 2
  {
    ModUnique(square, square, 0, Pow(256, m));
  }

  /** NOAHZK_variable_width_nth_triangle_number: dst (a fresh empty variable
      when NULL) becomes (square + n) / 2 by square_constant,
      add_and_resize_constant and a shift right by one, where square is what
      square_constant left: n^2 in its low 2 bytecnt(n) bytes and stale bytes
      above them. The result is the triangle number n (n + 1) / 2 whenever
      2 bytecnt(n) fills whole limbs. */
  method NthTriangleNumber(dst: VarWidth?, n: u64) returns (r: VarWidth, ghost square: nat)
    requires dst != null ==> dst.Valid()
    modifies dst
    ensures dst != null ==> r == dst
    ensures dst == null ==> fresh(r)
    ensures r.Valid()
    ensures square % Pow(256, 2 * ByteLength(n)) == n * n
    ensures square < Pow(TWO_32, LimbWidthFromInt(2 * ByteLength(n)))
    ensures r.Value() == (square + n) / 2
    ensures (2 * ByteLength(n)) % 4 == 0 ==> r.Value() == n * (n + 1) / 2
  {
    if dst == null {
      r := Init(null, 0);
    } else {
      r := dst;
    }
    SquareConstant(r, n);
    if n == 0 {
      assert r.Limbs() == [];
    }
    square := r.Value();
    ValueFits(r);
    AddConstantAndHalve(r, n);
    if (2 * ByteLength(n)) % 4 == 0 {
      ghost var m := 2 * ByteLength(n);
      assert Pow(256, 4) == TWO_32;
      PowPow(256, 4, LimbWidthFromInt(m));
      TriangleExact(square, n, m);
    }
  }

  /** nth_triangle_number on the exact square (square_constant with the
      buffer cleared): dst becomes n (n + 1) / 2 for every n. */
  method NthTriangleNumberFixed(dst: VarWidth?, n: u64) returns (r: VarWidth)
    requires dst != null ==> dst.Valid()
    modifies dst
    ensures dst != null ==> r == dst
    ensures dst == null ==> fresh(r)
    ensures r.Valid() && r.Value() == n * (n + 1) / 2
  {
    if dst == null {
      r := Init(null, 0);
    } else {
      r := dst;
    }
    MulBothConstantsFixed(r, n, n);
    AddConstantAndHalve(r, n);
  }

  /** The tail of nth_triangle_number: add_and_resize_constant(dst, dst, n)
      and then shift_right(dst, dst, 1). The add leaves at least two limbs
      and room for the sum, so the shift drops nothing but the last bit. */
  method AddConstantAndHalve(r: VarWidth, n: u64)
    requires r.Valid()
    modifies r, r.arr
    ensures r.Valid() && r.Value() == (old(r.Value()) + n) / 2
  {
    AddAndResizeConstant(r, r, n);
    ValueFits(r);
    LimbsFitWidthBits(r.Limbs());
    ghost var v := r.Value();
    ShiftRight(r, r, 1);
    ModUnique(v, v, 0, Pow(2, WidthBits(r.width)));
    assert Pow(2, 1) == 2;
  }
}
