/** The multiplier of the older tree (NOAHZK_bigint_lib/mul.h). Its recursive
    split, its 1 x 1 case and its shift are those of the newer tree, but:

    - the width0 == 1 path adds the running product into dst with `+=` and
      never writes the final carry byte;
    - the width1 == 1 path assigns the product instead of accumulating it,
      so no carry reaches the next byte at all;
    - the recursive case multiplies into uninitialised scratch buffers, so
      a sub-multiplication that takes one of those paths adds into unknown
      bytes;
    - the limb wrappers set dst.width before reading the operands' widths,
      so an in-place call hands the multiplier the enlarged width, and
      mul_constant and mul_both_constants use byte counts as limb counts;
    - the power loop of mul_by_constant_to_power_constant is empty.

    The byte routines are proved against per-byte specifications (sums
    without carries, low bytes of products), and the multiplier as a whole
    is proved exact on the widths where every sub-multiplication stays on
    its exact paths: equal powers of two. */
module MulLegacy {
  import opened Digits
  import opened Bits
  import opened Words
  import opened WideInt
  import opened Logarithms
  import opened Lifecycle
  import opened Add
  import opened Mul

  // ------------------------------------------------------------ per-byte specifications

  /** What `dst[i] += v[i]` leaves in uint8_t bytes: each sum cut to its low
      8 bits, nothing carried into the next byte. */
  function ByteSums(a: seq<int>, v: seq<int>): (r: seq<int>)
    requires |a| == |v|
    ensures |r| == |a|
  {
    seq(|a|, i requires 0 <= i < |a| => (a[i] + v[i]) % 256)
  }

  /** The low byte of each a[i] * k: a product whose high byte is dropped. */
  function LowProducts(a: seq<int>, k: int): (r: seq<int>)
    ensures |r| == |a|
  {
    seq(|a|, i requires 0 <= i < |a| => (a[i] * k) % 256)
  }

  /** The product of a byte and a little-endian byte string. */
  function RowProduct(x: byte, b: seq<byte>): (p: nat)
    ensures p == x * Val(b, 256)
  {
    ValBounds(b, 256);
    MulNonNeg(x, Val(b, 256));
    x * Val(b, 256)
  }

  /** Bytes j < n of x mod 256^n are bytes j of x. */
  lemma LowByte(x: nat, j: nat, n: nat)
    requires j < n
    ensures ((x % Pow(256, n)) / Pow(256, j)) % 256 == (x / Pow(256, j)) % 256
  {
    PowAdd(256, j, n - j);
    ModDiv(x, Pow(256, j), Pow(256, n - j));
    assert Pow(256, n - j) == 256 * Pow(256, n - j - 1);
    ModMod(x / Pow(256, j), 256, Pow(256, n - j - 1));
  }

  /** The digits of a chain of multiplier x over zeros and b are the low
      |b| bytes of x * b. */
  lemma RowChainDigits(x: byte, b: seq<byte>, c: seq<int>, d: seq<int>)
    requires Chain(Zeros(|b|), b, x, 256, c, d)
    ensures d == DigitsOf(RowProduct(x, b), |b|, 256)
  {
    var n, v := |b|, RowProduct(x, b);
    ChainValue(Zeros(n), b, x, 256, c, d);
    ValZeros(n, 256);
    ValBounds(d, 256);
    ModUnique(Val(d, 256), v, c[n], Pow(256, n));
    forall j | 0 <= j < n
      ensures d[j] == DigitsOf(v, n, 256)[j]
    {
      DigitOfVal(d, j, 256);
      LowByte(v, j, n);
    }
  }

  lemma ByteSumsIndex(a: seq<int>, v: seq<int>, j: nat)
    requires |a| == |v| && j < |a|
    ensures ByteSums(a, v)[j] == (a[j] + v[j]) % 256
  {
  }

  lemma LowProductsIndex(a: seq<int>, k: int, j: nat)
    requires j < |a|
    ensures LowProducts(a, k)[j] == (a[j] * k) % 256
  {
  }

  /** One more byte of carry-free sums. */
  lemma ByteSumsStep(D: seq<int>, O: seq<int>, v: seq<int>, i: nat, nv: int)
    requires |D| == |O| && i < |v| <= |O|
    requires D[..i] == ByteSums(O[..i], v[..i]) && D[i..] == O[i..]
    requires nv == (O[i] + v[i]) % 256
    ensures D[i := nv][..i + 1] == ByteSums(O[..i + 1], v[..i + 1])
  {
    assert D[i := nv][..i + 1] == D[..i] + [nv];
    assert O[..i + 1] == O[..i] + [O[i]] && v[..i + 1] == v[..i] + [v[i]];
  }

  /** Writing byte i leaves bytes past i as they were. */
  lemma TailStep(D: seq<int>, O: seq<int>, i: nat, nv: int)
    requires |D| == |O| && i < |D| && D[i..] == O[i..]
    ensures D[i := nv][i + 1..] == O[i + 1..] && D[i] == O[i]
  {
    assert D[i..][0] == O[i..][0];
    assert D[i := nv][i + 1..] == D[i + 1..] == D[i..][1..];
    assert O[i + 1..] == O[i..][1..];
  }

  /** A byte carry plus a product of two bytes fits 16 bits. */
  lemma ByteProductBound(carry: int, y: byte, x: byte)
    requires 0 <= carry < 256
    ensures 0 <= carry + y * x < 0x1_0000
  {
    MulLe(y, 255, x);
    MulLe(x, 255, 255);
  }

  /** Adding z into a byte keeps only the low byte of z. */
  lemma ByteAdd(a: int, z: int)
    ensures (a + z) % 256 == (a + z % 256) % 256
  {
    ModAddLeft(z, a, 256);
  }

  // ------------------------------------------------------------ the single-byte paths

  /** The width0 == 1 path of the older mul_byte: byte i of rs1 times the
      byte rs0[o0], plus the carry, is added into dst[i] with `+=`, and the
      carry after the last byte is dropped. rs0[o0] is read at every step,
      so the statement holds when dst does not overwrite it; dst may be
      rs1, whose byte o1 + i is read before byte i of dst is written. */
  method MulRowLegacy(dst: array<byte>, rs0: array<byte>, o0: nat, rs1: array<byte>, o1: nat, width: nat)
    requires o0 < rs0.Length && o1 + width <= rs1.Length && width <= dst.Length
    modifies dst
    ensures dst[width..] == old(dst[width..])
    ensures dst != rs0 || width <= o0 ==>
      dst[..width] == ByteSums(old(dst[..width]),
        DigitsOf(RowProduct(old(rs0[o0]), old(rs1[o1..o1 + width])), width, 256))
  {
    ghost var ok := dst != rs0 || width <= o0;
    ghost var x0, b, O, R1 := rs0[o0], rs1[o1..o1 + width], dst[..], rs1[..];
    ghost var c, d := ChainOf(Zeros(width), b, x0, 256);
    ChainAt(Zeros(width), b, x0, 256, c, d);
    RowChainDigits(x0, b, c, d);
    var product: u16 := 0;
    var i := 0;
    while i < width
      invariant 0 <= i <= width && product < 256
      invariant dst[i..] == O[i..]
      invariant ok ==> rs0[o0] == x0 && product == c[i]
      invariant ok ==> dst[..i] == ByteSums(O[..i], d[..i])
    {
      product := RowStep(dst, rs0, o0, rs1, o1, width, i, product, ok, x0, b, O, R1, c, d);
      i := i + 1;
    }
    assert d[..width] == d;
  }

  /** Step i of the row path: dst[i] gets the running product's low byte
      added, and the high byte is carried to step i + 1. */
  method RowStep(dst: array<byte>, rs0: array<byte>, o0: nat, rs1: array<byte>, o1: nat, width: nat,
                 i: nat, product: u16, ghost ok: bool, ghost x0: byte, ghost b: seq<byte>,
                 ghost O: seq<byte>, ghost R1: seq<byte>, ghost c: seq<int>, ghost d: seq<int>)
    returns (carry: u16)
    requires o0 < rs0.Length && o1 + width <= rs1.Length && width <= dst.Length && i < width
    requires |O| == dst.Length
    requires rs1 != dst ==> R1 == rs1[..]
    requires rs1 == dst ==> R1 == O
    requires b == R1[o1..o1 + width]
    requires ok ==> dst != rs0 || width <= o0
    requires ok ==> Chain(Zeros(width), b, x0, 256, c, d)
    requires product < 256 && dst[i..] == O[i..]
    requires ok ==> rs0[o0] == x0 && product == c[i]
    requires ok ==> dst[..i] == ByteSums(O[..i], d[..i])
    modifies dst
    ensures carry < 256 && dst[i + 1..] == O[i + 1..]
    ensures ok ==> rs0[o0] == x0 && carry == c[i + 1]
    ensures ok ==> dst[..i + 1] == ByteSums(O[..i + 1], d[..i + 1])
  {
    var x := rs0[o0];
    assert rs1[o1 + i] == R1[o1 + i] by {
      if rs1 == dst {
        assert dst[i..][o1] == O[i..][o1];
      }
    }
    var y := rs1[o1 + i];
    ByteProductBound(product, y, x);
    if ok {
      ChainAt(Zeros(width), b, x0, 256, c, d);
      ByteChainStep(b, x, c, d, i, y, product);
    }
    var p: u16 := product + y as int * x as int;
    ByteAdd(dst[i], p);
    ghost var D := dst[..];
    var nv := (dst[i] + p) % 256;
    TailStep(D, O, i, nv);
    if ok {
      ByteSumsStep(D, O, d, i, nv);
    }
    dst[i] := nv;
    assert dst[..] == D[i := nv];
    carry := p / 256;
  }

  /** The width1 == 1 path of the older mul_byte: product is assigned each
      step, not accumulated, so only the low byte of byte i of rs0 times
      rs1[o1] is added into dst[i] and every high byte is lost. rs1[o1] is
      read at every step, so the statement holds when dst does not
      overwrite it; dst may be rs0. */
  method MulColumnLegacy(dst: array<byte>, rs0: array<byte>, o0: nat, rs1: array<byte>, o1: nat, width: nat)
    requires o0 + width <= rs0.Length && o1 < rs1.Length && width <= dst.Length
    modifies dst
    ensures dst[width..] == old(dst[width..])
    ensures dst != rs1 || width <= o1 ==>
      dst[..width] == ByteSums(old(dst[..width]), LowProducts(old(rs0[o0..o0 + width]), old(rs1[o1])))
  {
    ghost var ok := dst != rs1 || width <= o1;
    ghost var k0, a, O, R0 := rs1[o1], rs0[o0..o0 + width], dst[..], rs0[..];
    ghost var v := LowProducts(a, k0);
    var i := 0;
    while i < width
      invariant 0 <= i <= width
      invariant dst[i..] == O[i..]
      invariant ok ==> rs1[o1] == k0
      invariant ok ==> dst[..i] == ByteSums(O[..i], v[..i])
    {
      ColumnStep(dst, rs0, o0, rs1, o1, width, i, ok, k0, a, O, R0);
      i := i + 1;
    }
    assert v[..width] == v;
  }

  /** Step i of the column path: the low byte of rs0[o0 + i] * rs1[o1] is
      added into dst[i]; its high byte is computed and then overwritten. */
  method ColumnStep(dst: array<byte>, rs0: array<byte>, o0: nat, rs1: array<byte>, o1: nat, width: nat,
                    i: nat, ghost ok: bool, ghost k0: byte, ghost a: seq<byte>,
                    ghost O: seq<byte>, ghost R0: seq<byte>)
    requires o0 + width <= rs0.Length && o1 < rs1.Length && width <= dst.Length && i < width
    requires |O| == dst.Length
    requires rs0 != dst ==> R0 == rs0[..]
    requires rs0 == dst ==> R0 == O
    requires a == R0[o0..o0 + width]
    requires ok ==> dst != rs1 || width <= o1
    requires dst[i..] == O[i..]
    requires ok ==> rs1[o1] == k0
    requires ok ==> dst[..i] == ByteSums(O[..i], LowProducts(a, k0)[..i])
    modifies dst
    ensures dst[i + 1..] == O[i + 1..]
    ensures ok ==> rs1[o1] == k0
    ensures ok ==> dst[..i + 1] == ByteSums(O[..i + 1], LowProducts(a, k0)[..i + 1])
  {
    assert rs0[o0 + i] == R0[o0 + i] by {
      if rs0 == dst {
        assert dst[i..][o0] == O[i..][o0];
      }
    }
    var x, k := rs0[o0 + i], rs1[o1];
    ByteProductBound(0, x, k);
    var product: u16 := x as int * k as int;
    ByteAdd(dst[i], product);
    ghost var D := dst[..];
    var nv := (dst[i] + product) % 256;
    TailStep(D, O, i, nv);
    if ok {
      ByteSumsStep(D, O, LowProducts(a, k0), i, nv);
    }
    dst[i] := nv;
    assert dst[..] == D[i := nv];
    product := product / 256;
  }

  // ------------------------------------------------------------ the recursive multiplier

  /** The widths on which the older mul_byte multiplies exactly: its 1 x 1
      case, or a split whose four sub-multiplications are all exact again. */
  predicate SplitExact(w0: nat, w1: nat)
    decreases w0 + w1
  {
    (w0 == 1 && w1 == 1) ||
    (w0 >= 2 && w1 >= 2 &&
     SplitExact(w0 - w0 / 2, w1 - w1 / 2) && SplitExact(w0 - w0 / 2, w1 / 2) &&
     SplitExact(w0 / 2, w1 - w1 / 2) && SplitExact(w0 / 2, w1 / 2))
  }

  predicate PowerOfTwo(n: nat)
  {
    n == 1 || (n >= 2 && n % 2 == 0 && PowerOfTwo(n / 2))
  }

  /** The exact widths in closed form: equal powers of two. */
  predicate LegacyExact(w0: nat, w1: nat)
  {
    w0 == w1 && PowerOfTwo(w0)
  }

  /** The exact widths are exactly the equal powers of two: any other pair
      reaches a one-byte path against a longer operand. */
  lemma {:induction false} SplitExactIff(w0: nat, w1: nat)
    ensures SplitExact(w0, w1) <==> LegacyExact(w0, w1)
    decreases w0 + w1
  {
    if w0 >= 2 && w1 >= 2 {
      var n, m := w0 / 2, w1 / 2;
      SplitExactIff(w0 - n, w1 - m);
      SplitExactIff(w0 - n, m);
      SplitExactIff(n, w1 - m);
      SplitExactIff(n, m);
    }
  }

  lemma {:induction false} PowerOfTwoPow(a: nat)
    ensures PowerOfTwo(Pow(2, a))
  {
    if a > 0 {
      PowerOfTwoPow(a - 1);
      assert Pow(2, a) == 2 * Pow(2, a - 1);
      PowMonotone(2, 0, a - 1);
    }
  }

  /** The byte widths of two operands of 2^a limbs each are exact. */
  lemma LimbSquareExact(a: nat)
    ensures LegacyExact(WidthBytes(Pow(2, a)), WidthBytes(Pow(2, a)))
  {
    PowerOfTwoPow(a + 2);
    assert Pow(2, a + 2) == 4 * Pow(2, a) by {
      assert Pow(2, a + 2) == 2 * Pow(2, a + 1);
    }
  }

  /** The bytes each path of the older mul_byte writes fit in n. */
  predicate LegacyFits(w0: nat, w1: nat, n: nat)
  {
    (w0 == 1 && w1 >= 2 ==> w1 <= n) && (w1 == 1 && w0 >= 2 ==> w0 <= n) &&
    ((w0 == 1 && w1 == 1) || (w0 >= 2 && w1 >= 2) ==> w0 + w1 <= n)
  }

  /** NOAHZK_variable_width_mul_byte of the older tree. A zero width writes
      nothing; 1 x 1 writes the exact 16-bit product; a one-byte operand
      against a longer one takes the row or column path above; otherwise
      the split of the newer tree runs over uninitialised scratch buffers,
      and the result is the product whenever the widths are exact. */
  method MulByteLegacy(dst: array<byte>, rs0: array<byte>, o0: nat, rs1: array<byte>, o1: nat, width0: nat, width1: nat)
    requires o0 + width0 <= rs0.Length && o1 + width1 <= rs1.Length
    requires LegacyFits(width0, width1, dst.Length)
    modifies dst
    ensures width0 == 0 || width1 == 0 ==> dst[..] == old(dst[..])
    ensures width0 == 1 && width1 >= 2 ==> dst[width1..] == old(dst[width1..])
    ensures width0 == 1 && width1 >= 2 && (dst != rs0 || width1 <= o0) ==>
      dst[..width1] == ByteSums(old(dst[..width1]),
        DigitsOf(RowProduct(old(rs0[o0]), old(rs1[o1..o1 + width1])), width1, 256))
    ensures width1 == 1 && width0 >= 2 ==> dst[width0..] == old(dst[width0..])
    ensures width1 == 1 && width0 >= 2 && (dst != rs1 || width0 <= o1) ==>
      dst[..width0] == ByteSums(old(dst[..width0]), LowProducts(old(rs0[o0..o0 + width0]), old(rs1[o1])))
    ensures (width0 == 1 && width1 == 1) || (width0 >= 2 && width1 >= 2) ==>
      dst[width0 + width1..] == old(dst[width0 + width1..])
    ensures SplitExact(width0, width1) ==>
      Val(dst[..width0 + width1], 256) == Val(old(rs0[o0..o0 + width0]), 256) * Val(old(rs1[o1..o1 + width1]), 256)
    decreases width0 + width1, 2
  {
    if width0 == 0 && width1 == 0 {
      return;
    }
    if width0 == 0 || width1 == 0 {
      return;
    }
    if width0 == 1 && width1 == 1 {
      assert old(rs0[o0..o0 + width0]) == [old(rs0[o0])];
      assert old(rs1[o1..o1 + width1]) == [old(rs1[o1])];
      MulByteSingle(dst, rs0[o0], rs1[o1]);
      return;
    }
    if width0 == 1 {
      MulRowLegacy(dst, rs0, o0, rs1, o1, width1);
      return;
    }
    if width1 == 1 {
      MulColumnLegacy(dst, rs0, o0, rs1, o1, width0);
      return;
    }
    MulByteLegacySplit(dst, rs0, o0, rs1, o1, width0, width1);
  }

  /** The recursive case: four sub-multiplications into scratch buffers,
      then the memset and the three offset adds of the newer tree. */
  method MulByteLegacySplit(dst: array<byte>, rs0: array<byte>, o0: nat, rs1: array<byte>, o1: nat,
                            width0: nat, width1: nat)
    requires o0 + width0 <= rs0.Length && o1 + width1 <= rs1.Length
    requires width0 >= 2 && width1 >= 2 && width0 + width1 <= dst.Length
    modifies dst
    ensures dst[width0 + width1..] == old(dst[width0 + width1..])
    ensures SplitExact(width0, width1) ==>
      Val(dst[..width0 + width1], 256) == Val(old(rs0[o0..o0 + width0]), 256) * Val(old(rs1[o1..o1 + width1]), 256)
    decreases width0 + width1, 1
  {
    ghost var A, B := rs0[o0..o0 + width0], rs1[o1..o1 + width1];
    var n, m := width0 / 2, width1 / 2;
    var x0y0, x0y1, x1y0, x1y1 := PartialsLegacy(rs0, o0, rs1, o1, width0, width1);
    ghost var p00, p01, p10, p11 := Val(x0y0[..], 256), Val(x0y1[..], 256), Val(x1y0[..], 256), Val(x1y1[..], 256);
    Accumulate(dst, x0y0, x0y1, x1y0, x1y1, n, m, width0 + width1, p00, p01, p10, p11);
    if SplitExact(width0, width1) {
      ValBounds(A, 256);
      ValBounds(B, 256);
      ProductFits(Val(A, 256), Val(B, 256), Pow(256, width0), Pow(256, width1));
      PowAdd(256, width0, width1);
      ModUnique(Val(A, 256) * Val(B, 256), Val(A, 256) * Val(B, 256), 0, Pow(256, width0 + width1));
    }
  }

  /** The four sub-multiplications of the split case; when the widths are
      exact, the partials placed at byte offsets 0, m, n and n + m add up
      to the product of the operands. */
  method PartialsLegacy(rs0: array<byte>, o0: nat, rs1: array<byte>, o1: nat, width0: nat, width1: nat)
    returns (x0y0: array<byte>, x0y1: array<byte>, x1y0: array<byte>, x1y1: array<byte>)
    requires o0 + width0 <= rs0.Length && o1 + width1 <= rs1.Length && width0 >= 2 && width1 >= 2
    ensures fresh(x0y0) && fresh(x0y1) && fresh(x1y0) && fresh(x1y1)
    ensures x0y0.Length <= width0 + width1 && x0y1.Length <= width0 + width1
    ensures x1y0.Length <= width0 + width1 && x1y1.Length <= width0 + width1
    ensures SplitExact(width0, width1) ==>
      Val(x0y0[..], 256) + Val(x0y1[..], 256) * Pow(256, width1 / 2) + Val(x1y0[..], 256) * Pow(256, width0 / 2)
      + Val(x1y1[..], 256) * Pow(256, width0 / 2 + width1 / 2)
      == Val(rs0[o0..o0 + width0], 256) * Val(rs1[o1..o1 + width1], 256)
    decreases width0 + width1, 0
  {
    var n, m := width0 / 2, width1 / 2;
    ghost var R0, R1 := rs0[..], rs1[..];
    x1y1 := PartialLegacy(rs0, o0 + n, rs1, o1 + m, width0 - n, width1 - m, R0, R1);
    assert rs0[..] == R0 && rs1[..] == R1;
    ghost var s11 := x1y1[..];
    x1y0 := PartialLegacy(rs0, o0 + n, rs1, o1, width0 - n, m, R0, R1);
    assert rs0[..] == R0 && rs1[..] == R1;
    ghost var s10 := x1y0[..];
    x0y1 := PartialLegacy(rs0, o0, rs1, o1 + m, n, width1 - m, R0, R1);
    assert rs0[..] == R0 && rs1[..] == R1;
    ghost var s01 := x0y1[..];
    x0y0 := PartialLegacy(rs0, o0, rs1, o1, n, m, R0, R1);
    assert rs0[..] == R0 && rs1[..] == R1;
    assert x1y1[..] == s11 && x1y0[..] == s10 && x0y1[..] == s01;
    if SplitExact(width0, width1) {
      PartialsExact(R0, o0, R1, o1, width0, width1, x0y0[..], s01, s10, s11);
    }
  }

  /** On exact widths the four partials are the four sub-products, and
      placed at their offsets they add up to the product. */
  lemma PartialsExact(R0: seq<byte>, o0: nat, R1: seq<byte>, o1: nat, width0: nat, width1: nat,
                      s00: seq<byte>, s01: seq<byte>, s10: seq<byte>, s11: seq<byte>)
    requires o0 + width0 <= |R0| && o1 + width1 <= |R1| && width0 >= 2 && width1 >= 2
    requires SplitExact(width0, width1)
    requires SplitExact(width0 / 2, width1 / 2) ==>
      Val(s00, 256) == Val(R0[o0..o0 + width0 / 2], 256) * Val(R1[o1..o1 + width1 / 2], 256)
    requires SplitExact(width0 / 2, width1 - width1 / 2) ==>
      Val(s01, 256) == Val(R0[o0..o0 + width0 / 2], 256) * Val(R1[o1 + width1 / 2..o1 + width1], 256)
    requires SplitExact(width0 - width0 / 2, width1 / 2) ==>
      Val(s10, 256) == Val(R0[o0 + width0 / 2..o0 + width0], 256) * Val(R1[o1..o1 + width1 / 2], 256)
    requires SplitExact(width0 - width0 / 2, width1 - width1 / 2) ==>
      Val(s11, 256) == Val(R0[o0 + width0 / 2..o0 + width0], 256) * Val(R1[o1 + width1 / 2..o1 + width1], 256)
    ensures Val(s00, 256) + Val(s01, 256) * Pow(256, width1 / 2) + Val(s10, 256) * Pow(256, width0 / 2)
      + Val(s11, 256) * Pow(256, width0 / 2 + width1 / 2)
      == Val(R0[o0..o0 + width0], 256) * Val(R1[o1..o1 + width1], 256)
  {
    var n, m := width0 / 2, width1 / 2;
    SliceSplit(R0, o0, n, width0);
    SliceSplit(R1, o1, m, width1);
    PartialsClose(Val(R0[o0..o0 + width0], 256), Val(R1[o1..o1 + width1], 256),
                  Val(R0[o0..o0 + n], 256), Val(R0[o0 + n..o0 + width0], 256),
                  Val(R1[o1..o1 + m], 256), Val(R1[o1 + m..o1 + width1], 256),
                  Val(s00, 256), Val(s01, 256), Val(s10, 256), Val(s11, 256), n, m);
  }

  /** A local uint8_t X[w]: fresh, of length w, its contents unknown. */
  method Scratch(w: nat) returns (a: array<byte>)
    ensures fresh(a) && a.Length == w
  {
    a := new byte[w];
  }

  /** A scratch buffer multiplied into by the older mul_byte. On exact
      widths every byte of it is written, so it holds the product whatever
      it held before. */
  method PartialLegacy(rs0: array<byte>, o0: nat, rs1: array<byte>, o1: nat, width0: nat, width1: nat,
                       ghost R0: seq<byte>, ghost R1: seq<byte>)
    returns (p: array<byte>)
    requires o0 + width0 <= rs0.Length && o1 + width1 <= rs1.Length && width0 > 0 && width1 > 0
    requires rs0[..] == R0 && rs1[..] == R1
    ensures fresh(p) && p.Length == width0 + width1
    ensures SplitExact(width0, width1) ==>
      Val(p[..], 256) == Val(R0[o0..o0 + width0], 256) * Val(R1[o1..o1 + width1], 256)
    decreases width0 + width1, 3
  {
    p := Scratch(width0 + width1);
    MulByteLegacy(p, rs0, o0, rs1, o1, width0, width1);
    assert p[..width0 + width1] == p[..];
  }

  // ------------------------------------------------------------ limb-buffer wrappers

  /** mul_constant_byte of the older tree: the constant's bytes_k bytes as
      the second operand of the older mul_byte. A zero width or a zero k
      writes nothing; one-byte k against a longer rs0 takes the column path
      (rs0 may be dst there); on exact widths the product is written. */
  method MulConstantByteLegacy(dst: array<byte>, rs0: array<byte>, k: u64, width0: nat)
    requires width0 <= rs0.Length && LegacyFits(width0, ByteLength(k), dst.Length)
    modifies dst
    ensures width0 == 0 || k == 0 ==> dst[..] == old(dst[..])
    ensures 0 < k < 256 && width0 >= 2 ==>
      dst[..width0] == ByteSums(old(dst[..width0]), LowProducts(old(rs0[..width0]), k)) &&
      dst[width0..] == old(dst[width0..])
    ensures LegacyExact(width0, ByteLength(k)) ==>
      Val(dst[..width0 + ByteLength(k)], 256) == Val(old(rs0[..width0]), 256) * k
  {
    ghost var R := rs0[..width0];
    var bytesK, kb := ConstantOperand(k);
    assert rs0[0..width0] == R && kb[0..bytesK] == kb[..bytesK];
    MulByteLegacy(dst, rs0, 0, kb, 0, width0, bytesK);
    if LegacyExact(width0, bytesK) {
      SplitExactIff(width0, bytesK);
      ProductOfValues(Val(dst[..width0 + bytesK], 256), R, kb[..bytesK], Val(R, 256), k);
    }
  }

  /** A number on limbs a whose low m = w0 + w1 view bytes hold the
      product of byte strings X0 and X1 is that product modulo 256^m; Y0
      and Y1 are copies of X0 and X1, of values x0 and x1. */
  lemma ViewProduct(v: VarWidth, a: array<limb>, w0: nat, w1: nat, m: nat,
                    X0: seq<byte>, Y0: seq<byte>, X1: seq<byte>, Y1: seq<byte>, x0: int, x1: int)
    requires v.Valid() && v.arr == a
    requires m == w0 + w1 <= WidthBytes(a.Length) && X0 == Y0 && X1 == Y1 && Val(Y0, 256) == x0 && Val(Y1, 256) == x1
    requires Val(LimbsToBytes(a[..])[..w0 + w1], 256) == Val(X0, 256) * Val(X1, 256)
    ensures v.Value() % Pow(256, m) == x0 * x1
  {
    var L := a[..];
    assert v.Limbs() == L;
    ViewLow(L, w0 + w1);
    ModWeight(Val(L, TWO_32), m, w0 + w1);
    ProductOfValues(Val(LimbsToBytes(L)[..w0 + w1], 256), Y0, Y1, x0, x1);
  }

  /** Reducing modulo 256^m and 256^n agree when m == n. */
  lemma ModWeight(x: int, m: nat, n: nat)
    requires m == n
    ensures x % Pow(256, m) == x % Pow(256, n)
  {
  }

  /** Prefixes of equal length have equal values. */
  lemma SamePrefixValue(S: seq<byte>, i: nat, j: nat)
    requires i == j <= |S|
    ensures Val(S[..i], 256) == Val(S[..j], 256)
  {
  }

  /** LegacyExact read at equal widths. */
  lemma SameExact(a: nat, b: nat, c: nat, d: nat)
    requires a == c && b == d && LegacyExact(a, b)
    ensures LegacyExact(c, d)
  {
  }

  /** A product of the values of byte strings X and Y is the product of
      those values however they are written. */
  lemma ProductOfValues(p: int, X: seq<byte>, Y: seq<byte>, x: int, y: int)
    requires Val(X, 256) == x && Val(Y, 256) == y && p == Val(X, 256) * Val(Y, 256)
    ensures p == x * y
  {
  }

  /** A fresh byte view V of limbs A multiplied into by the older mul_byte;
      an operand whose alias flag is set is the view itself. */
  method ViewAndMulLegacy(A: seq<limb>, alias0: bool, b0: array<byte>, w0: nat, alias1: bool, b1: array<byte>, w1: nat)
    returns (db: array<byte>)
    requires w0 <= (if alias0 then WidthBytes(|A|) else b0.Length)
    requires w1 <= (if alias1 then WidthBytes(|A|) else b1.Length)
    requires LegacyFits(w0, w1, WidthBytes(|A|))
    ensures fresh(db) && db.Length == WidthBytes(|A|)
    ensures w0 == 0 || w1 == 0 ==> db[..] == LimbsToBytes(A)
    ensures !alias0 && !alias1 && LegacyExact(w0, w1) ==>
      Val(db[..w0 + w1], 256) == Val(b0[..w0], 256) * Val(b1[..w1], 256) &&
      db[w0 + w1..] == LimbsToBytes(A)[w0 + w1..]
    ensures w1 == 1 && w0 >= 2 && !alias1 ==>
      db[..w0] == ByteSums(LimbsToBytes(A)[..w0],
        LowProducts(if alias0 then LimbsToBytes(A)[..w0] else b0[..w0], b1[0])) &&
      db[w0..] == LimbsToBytes(A)[w0..]
  {
    ghost var V := LimbsToBytes(A);
    db := ByteView(A);
    var x0 := if alias0 then db else b0;
    var x1 := if alias1 then db else b1;
    assert x0[0..w0] == (if alias0 then V[..w0] else b0[..w0]);
    assert x1[0..w1] == (if alias1 then V[..w1] else b1[..w1]);
    MulByteLegacy(db, x0, 0, x1, 0, w0, w1);
    if LegacyExact(w0, w1) {
      SplitExactIff(w0, w1);
    }
  }

  /** The byte view of limb buffer a multiplied into by the older mul_byte
      and stored back; V is the view before the call. */
  method LegacyIntoLimbs(a: array<limb>, alias0: bool, b0: array<byte>, w0: nat, alias1: bool, b1: array<byte>, w1: nat)
    returns (ghost V: seq<byte>)
    requires w0 <= (if alias0 then WidthBytes(a.Length) else b0.Length)
    requires w1 <= (if alias1 then WidthBytes(a.Length) else b1.Length)
    requires LegacyFits(w0, w1, WidthBytes(a.Length))
    modifies a
    ensures V == LimbsToBytes(old(a[..]))
    ensures w0 == 0 || w1 == 0 ==> a[..] == old(a[..])
    ensures !alias0 && !alias1 && LegacyExact(w0, w1) ==>
      Val(LimbsToBytes(a[..])[..w0 + w1], 256) == Val(b0[..w0], 256) * Val(b1[..w1], 256)
    ensures w1 == 1 && w0 >= 2 && !alias1 ==>
      LimbsToBytes(a[..])[..w0] == ByteSums(V[..w0], LowProducts(if alias0 then V[..w0] else b0[..w0], b1[0])) &&
      LimbsToBytes(a[..])[w0..] == V[w0..]
  {
    V := LimbsToBytes(a[..]);
    var db := ViewAndMulLegacy(a[..], alias0, b0, w0, alias1, b1, w1);
    StoreView(a, db);
  }

  /** Storing a byte view back into limbs a: a's view becomes the bytes,
      and bytes that are a's own view leave a as it was. */
  method StoreView(a: array<limb>, db: array<byte>)
    requires db.Length == WidthBytes(a.Length)
    modifies a
    ensures LimbsToBytes(a[..]) == old(db[..])
    ensures old(db[..]) == LimbsToBytes(old(a[..])) ==> a[..] == old(a[..])
  {
    ghost var A, W := a[..], db[..];
    StoreLimbs(a, db);
    LimbsToBytesInverse(W);
    if W == LimbsToBytes(A) {
      BytesToLimbsInverse(A);
    }
  }

  /** Limbs taken modulo the weight of their low n view bytes are those
      bytes' value. */
  lemma ViewLow(L: seq<limb>, n: nat)
    requires n <= WidthBytes(|L|)
    ensures Val(L, TWO_32) % Pow(256, n) == Val(LimbsToBytes(L)[..n], 256)
  {
    var S := LimbsToBytes(L)[..n];
    ValBounds(S, 256);
    LowBytesHold(L, n, Val(S, 256));
  }

  /** The width the older wrappers hand the multiplier for an operand: they
      set dst.width first, so an operand that is dst reads dst's new width. */
  function WidthRead(isDst: bool, width: nat, newWidth: nat): (r: nat)
    ensures isDst ==> r == newWidth
    ensures !isDst ==> r == width
  {
    if isDst then newWidth else width
  }

  /** NOAHZK_variable_width_mul of the older tree. dst is resized to
      rs0.width + rs1.width limbs before the operand widths are read, so
      an operand that is dst is multiplied at the enlarged width; the
      multiplier's writes fit only when the enlarged widths do (for a
      non-zero width they do not). Separate operands on exact byte widths
      give the product; a zero width keeps the limbs realloc kept. */
  method MulVarLegacy(dst: VarWidth, rs0: VarWidth, rs1: VarWidth)
    requires dst.Valid() && rs0.Valid() && rs1.Valid()
    requires rs0 == dst || rs0.arr == null || rs0.arr != dst.arr
    requires rs1 == dst || rs1.arr == null || rs1.arr != dst.arr
    requires var n := rs0.width + rs1.width;
      LegacyFits(WidthBytes(WidthRead(rs0 == dst, rs0.width, n)),
        WidthBytes(WidthRead(rs1 == dst, rs1.width, n)), WidthBytes(n))
    modifies dst
    ensures dst.Valid() && dst.width == old(rs0.width) + old(rs1.width) && dst.arr != null && fresh(dst.arr)
    ensures rs0 != dst && rs1 != dst && LegacyExact(WidthBytes(old(rs0.width)), WidthBytes(old(rs1.width))) ==>
      dst.Value() == old(rs0.Value()) * old(rs1.Value())
    ensures old(rs0.width) == 0 || old(rs1.width) == 0 ==>
      SharedPrefix(dst.Limbs(), old(dst.Limbs()))
  {
    ghost var v0, v1 := rs0.Value(), rs1.Value();
    var alias0, alias1 := rs0 == dst, rs1 == dst;
    var b0, b1 := LimbsToBytes(rs0.Limbs()), LimbsToBytes(rs1.Limbs());
    OperandValue(rs0);
    OperandValue(rs1);
    var n := rs0.width + rs1.width;
    var w0 := WidthBytes(WidthRead(alias0, rs0.width, n));
    var w1 := WidthBytes(WidthRead(alias1, rs1.width, n));
    if !alias0 && !alias1 {
      SamePrefixValue(b0, w0, WidthBytes(rs0.width));
      SamePrefixValue(b1, w1, WidthBytes(rs1.width));
    }
    ghost var exact := !alias0 && !alias1 && LegacyExact(WidthBytes(rs0.width), WidthBytes(rs1.width));
    if exact {
      SameExact(WidthBytes(rs0.width), WidthBytes(rs1.width), w0, w1);
    }
    ghost var A := ResizeAndMulLegacy(dst, n, alias0, b0, w0, alias1, b1, w1, exact, w0 + w1, v0, v1, false);
  }

  /** A number whose whole byte view is m bytes and which is p modulo
      256^m is p. */
  lemma ValueFilled(v: VarWidth, m: nat, p: int)
    requires v.Valid() && m == WidthBytes(v.width) && v.Value() % Pow(256, m) == p
    ensures v.Value() == p
  {
    var L := v.Limbs();
    var S := LimbsToBytes(L);
    LimbsToBytesVal(L);
    ValPrefixMod(S, |S|, 256);
    assert S[..|S|] == S;
  }

  /** The byte count of k and a buffer holding &k's bytes, as the
      constant routines pass them to the multiplier. */
  method ConstantOperand(k: u64) returns (bytesK: nat, kb: array<byte>)
    ensures bytesK == ByteLength(k) <= 8 && fresh(kb) && kb.Length == 8
    ensures Val(kb[..bytesK], 256) == k && (bytesK == 0) == (k == 0)
    ensures 0 < k < 256 ==> bytesK == 1 && kb[0] == k
  {
    bytesK := Bytecnt(k);
    kb := ConstantBytes(k);
    ConstantOperandBytes(k, bytesK);
  }

  /** The low bytesK bytes of k's eight bytes have value k; a one-byte k is
      its own low byte. */
  lemma ConstantOperandBytes(k: u64, bytesK: nat)
    requires bytesK == ByteLength(k) <= 8
    ensures Val(KBytes(k)[..bytesK], 256) == k && (bytesK == 0) == (k == 0)
    ensures 0 < k < 256 ==> bytesK == 1 && KBytes(k)[0] == k
  {
    var kb := KBytes(k);
    KBytesVal(k, bytesK);
    if 0 < k < 256 {
      OneByte(k);
      assert kb[0] == k by {
        assert kb[..1] == [kb[0]] + [];
        ValSingle(kb[0], [], 256);
      }
    }
  }

  /** NOAHZK_variable_width_mul_constant of the older tree: dst.width
      becomes rs0.width plus the BYTE count of k, taken as a limb count,
      and is set before rs0's width is read. A is the resized buffer
      before the multiplier runs. Separate operands on exact widths give
      rs0 * k in the low bytes, under pad limbs realloc left; a one-byte k
      takes the column path, in place as well; a zero width or k writes
      nothing. */
  method MulConstantLegacy(dst: VarWidth, rs0: VarWidth, k: u64) returns (ghost A: seq<limb>)
    requires dst.Valid() && rs0.Valid()
    requires rs0 == dst || rs0.arr == null || rs0.arr != dst.arr
    requires var n := rs0.width + ByteLength(k);
      LegacyFits(WidthBytes(WidthRead(rs0 == dst, rs0.width, n)), ByteLength(k), WidthBytes(n))
    modifies dst
    ensures dst.Valid() && dst.width == old(rs0.width) + ByteLength(k) && dst.arr != null && fresh(dst.arr)
    ensures |A| == dst.width && SharedPrefix(A, old(dst.Limbs()))
    ensures rs0 != dst && LegacyExact(WidthBytes(old(rs0.width)), ByteLength(k)) ==>
      dst.Value() % Pow(256, WidthBytes(old(rs0.width)) + ByteLength(k)) == old(rs0.Value()) * k
    ensures WidthRead(rs0 == dst, old(rs0.width), dst.width) == 0 || k == 0 ==> dst.Limbs() == A
    ensures var w := WidthBytes(WidthRead(rs0 == dst, old(rs0.width), dst.width));
      var R := if rs0 == dst then LimbsToBytes(A) else LimbsToBytes(old(rs0.Limbs()));
      0 < k < 256 && w >= 2 ==>
        LimbsToBytes(dst.Limbs())[..w] == ByteSums(LimbsToBytes(A)[..w], LowProducts(R[..w], k)) &&
        LimbsToBytes(dst.Limbs())[w..] == LimbsToBytes(A)[w..]
  {
    ghost var v0, m := rs0.Value(), WidthBytes(rs0.width) + ByteLength(k);
    var alias0 := rs0 == dst;
    var b0 := LimbsToBytes(rs0.Limbs());
    OperandValue(rs0);
    var bytesK, kb := ByteLength(k), KBytes(k);
    ByteLengthBounds(k);
    ConstantOperandBytes(k, bytesK);
    var n := rs0.width + bytesK;
    var w0 := WidthBytes(WidthRead(alias0, rs0.width, n));
    if !alias0 {
      SamePrefixValue(b0, w0, WidthBytes(rs0.width));
    }
    ghost var exact := !alias0 && LegacyExact(WidthBytes(rs0.width), bytesK);
    if exact {
      SameExact(WidthBytes(rs0.width), bytesK, w0, bytesK);
    }
    A := ResizeAndMulLegacy(dst, n, alias0, b0, w0, false, kb, bytesK, exact, m, v0, k, 0 < k < 256 && w0 >= 2);
  }

  /** The byte view of an operand's limbs, as a uint8_t view reads
      them, has the operand's value. */
  lemma OperandValue(v: VarWidth)
    requires v.Valid()
    ensures Val(LimbsToBytes(v.Limbs())[..WidthBytes(v.width)], 256) == v.Value()
  {
    var L := v.Limbs();
    var S := LimbsToBytes(L);
    assert S[..WidthBytes(v.width)] == S;
    LimbsToBytesVal(L);
  }

  /** A buffer holding the bytes S. */
  method BytesArray(S: seq<byte>) returns (b: array<byte>)
    ensures fresh(b) && b[..] == S
  {
    b := new byte[|S|](i requires 0 <= i < |S| => S[i]);
  }

  /** The realloc and the multiplier call shared by the wrappers: dst is
      resized to newWidth limbs (A, whose common prefix with the old limbs
      is kept), and the multiplier runs on its byte view with w0 bytes of
      the first operand and w1 bytes of the second; an operand is the view
      itself when its alias flag is set, else the bytes B0 or B1. When
      exact holds the product of the values x0 and x1 survives in the low m
      bytes; column states the one-byte column path byte by byte. */
  method ResizeAndMulLegacy(dst: VarWidth, newWidth: nat, alias0: bool, B0: seq<byte>, w0: nat,
                            alias1: bool, B1: seq<byte>, w1: nat,
                            ghost exact: bool, ghost m: nat, ghost x0: int, ghost x1: int, ghost column: bool)
    returns (ghost A: seq<limb>)
    requires dst.Valid()
    requires w0 <= (if alias0 then WidthBytes(newWidth) else |B0|)
    requires w1 <= (if alias1 then WidthBytes(newWidth) else |B1|)
    requires LegacyFits(w0, w1, WidthBytes(newWidth))
    requires exact ==> !alias0 && !alias1 && LegacyExact(w0, w1)
    requires exact ==> m == w0 + w1 && Val(B0[..w0], 256) == x0 && Val(B1[..w1], 256) == x1
    requires column ==> w1 == 1 && w0 >= 2 && !alias1
    modifies dst
    ensures dst.Valid() && dst.width == newWidth && dst.arr != null && fresh(dst.arr)
    ensures |A| == newWidth && SharedPrefix(A, old(dst.Limbs()))
    ensures w0 == 0 || w1 == 0 ==> dst.Limbs() == A
    ensures w0 == 0 || w1 == 0 ==> SharedPrefix(dst.Limbs(), old(dst.Limbs()))
    ensures exact ==> dst.Value() % Pow(256, m) == x0 * x1
    ensures exact && m == WidthBytes(newWidth) ==> dst.Value() == x0 * x1
    ensures column ==>
      LimbsToBytes(dst.Limbs())[..w0] ==
        ByteSums(LimbsToBytes(A)[..w0], LowProducts(if alias0 then LimbsToBytes(A)[..w0] else B0[..w0], B1[0])) &&
      LimbsToBytes(dst.Limbs())[w0..] == LimbsToBytes(A)[w0..]
  {
    var a;
    a, A := ResizeLegacy(dst, newWidth);
    var b0 := BytesArray(B0);
    var b1 := BytesArray(B1);
    ghost var V := LegacyIntoLimbs(a, alias0, b0, w0, alias1, b1, w1);
    if exact {
      ViewProduct(dst, a, w0, w1, m, b0[..w0], B0[..w0], b1[..w1], B1[..w1], x0, x1);
      if m == WidthBytes(newWidth) {
        ValueFilled(dst, m, x0 * x1);
      }
    }
  }

  /** Limb strings agreeing wherever both have a limb. */
  ghost predicate SharedPrefix(L: seq<limb>, D: seq<limb>)
  {
    forall i | 0 <= i < |L| && i < |D| :: L[i] == D[i]
  }

  /** `dst->width = w; dst->arr = realloc(dst->arr, ...)` of the older
      wrappers: the limbs both widths share are kept. */
  method ResizeLegacy(dst: VarWidth, newWidth: nat) returns (a: array<limb>, ghost A: seq<limb>)
    requires dst.Valid()
    modifies dst
    ensures dst.Valid() && dst.width == newWidth && dst.arr == a && fresh(a) && A == a[..]
    ensures |A| == newWidth && SharedPrefix(A, old(dst.Limbs()))
  {
    dst.width := newWidth;
    a := Realloc(dst.arr, newWidth);
    dst.arr := a;
    A := a[..];
  }

  /** NOAHZK_variable_width_mul_both_constants of the older tree: dst.width
      becomes bytes_k0 + bytes_k1, byte counts taken as limbs, so the
      buffer is about four times too large and its bytes above the product
      keep what realloc left. On exact widths the low bytes hold k0 * k1;
      a zero constant keeps the limbs realloc kept. */
  method MulBothConstantsLegacy(dst: VarWidth, k0: u64, k1: u64)
    requires dst.Valid()
    modifies dst
    ensures dst.Valid() && dst.width == ByteLength(k0) + ByteLength(k1) && dst.arr != null && fresh(dst.arr)
    ensures LegacyExact(ByteLength(k0), ByteLength(k1)) ==>
      dst.Value() % Pow(256, ByteLength(k0) + ByteLength(k1)) == k0 * k1
    ensures k0 == 0 || k1 == 0 ==>
      SharedPrefix(dst.Limbs(), old(dst.Limbs()))
  {
    var bytesK0, bytesK1 := ByteLength(k0), ByteLength(k1);
    ByteLengthBounds(k0);
    ByteLengthBounds(k1);
    ConstantOperandBytes(k0, bytesK0);
    ConstantOperandBytes(k1, bytesK1);
    var kb0, kb1 := KBytes(k0), KBytes(k1);
    ghost var exact := LegacyExact(bytesK0, bytesK1);
    ghost var A := ResizeAndMulLegacy(dst, bytesK0 + bytesK1, false, kb0, bytesK0, false, kb1, bytesK1,
                                      exact, ByteLength(k0) + ByteLength(k1), k0, k1, false);
  }

  // ------------------------------------------------------------ the power routine

  /** The limbs of a one-limb 1 multiplied in place by a one-byte k through
      the column path: every byte b of the view becomes b + (b k mod 256)
      mod 256, so the low limb is 1 + k mod 256 whatever the second limb
      holds. */
  lemma InPlaceOneLow(A: seq<limb>, L: seq<limb>, k: int)
    requires |A| == |L| == 2 && A[0] == 1 && 0 < k < 256
    requires LimbsToBytes(L)[..8] == ByteSums(LimbsToBytes(A)[..8], LowProducts(LimbsToBytes(A)[..8], k))
    ensures Val(L, TWO_32) % TWO_32 == (1 + k) % 256
  {
    var V, W := LimbsToBytes(A), LimbsToBytes(L);
    FirstLimb(A, 1);
    InPlaceOneBytes(V[..8], W[..8], k);
    assert W[..4] == W[..8][..4];
    FirstLimb(L, (1 + k) % 256);
    ValPrefixMod(L, 1, TWO_32);
    assert L[..1] == [] + [L[0]];
    ValSnoc([], L[0], TWO_32);
  }

  /** Bytes 1, 0, 0, 0 after b += b k mod 256 with 0 < k < 256. */
  lemma InPlaceOneBytes(U: seq<int>, W: seq<int>, k: int)
    requires |U| == 8 && U[..4] == [1, 0, 0, 0] && 0 < k < 256
    requires W == ByteSums(U, LowProducts(U, k))
    ensures W[..4] == [(1 + k) % 256, 0, 0, 0]
  {
    assert U[0] == 1 && U[1] == 0 && U[2] == 0 && U[3] == 0 by {
      assert U[..4][0] == U[0] && U[..4][1] == U[1] && U[..4][2] == U[2] && U[..4][3] == U[3];
    }
    ByteSumsIndex(U, LowProducts(U, k), 0);
    LowProductsIndex(U, k, 0);
    ByteSumsIndex(U, LowProducts(U, k), 1);
    LowProductsIndex(U, k, 1);
    ByteSumsIndex(U, LowProducts(U, k), 2);
    LowProductsIndex(U, k, 2);
    ByteSumsIndex(U, LowProducts(U, k), 3);
    LowProductsIndex(U, k, 3);
  }

  /** NOAHZK_variable_width_mul_by_constant_to_power_constant of the older
      tree. The loop statement is empty, so mul_constant runs once, after
      it and in place on the temporary 1; and the result is added to rs0
      rather than multiplied. The in-place mul_constant writes within its
      buffer only for k < 256, which is required. For k == 0 dst becomes
      rs0 + 1; otherwise the temporary's low limb is 1 + k mod 256 and its
      high limb what realloc left, so only the low limb of dst is known. */
  method MulByConstantToPowerConstantLegacy(dst: VarWidth, rs0: VarWidth, k: u64, power: u64)
    requires dst.Valid() && rs0.Valid() && k < 256
    requires dst.width < Max(rs0.width, 1 + ByteLength(k)) ==>
      rs0 == dst || rs0.arr == null || rs0.arr != dst.arr
    modifies dst, dst.arr
    ensures dst.Valid()
    ensures k == 0 ==> dst.Value() == old(rs0.Value()) + 1
    ensures k > 0 ==> dst.Value() % TWO_32 == (old(rs0.Value()) + (1 + k) % 256) % TWO_32
  {
    ghost var v0 := rs0.Value();
    var product := PowerTemporary(k, power);
    ghost var p := product.Value();
    AddAndResize(dst, rs0, product);
    ghost var sum := dst.Value();
    if k > 0 {
      PowerSum(sum, v0, p, k);
    }
    assert dst.arr != product.arr;
    Destroy(product, false);
    assert dst.Value() == sum;
  }

  /** The temporary of the power routine: a one-limb 1, an empty loop over
      power, then mul_constant(product, product, k). */
  method PowerTemporary(k: u64, power: u64) returns (product: VarWidth)
    requires k < 256
    ensures fresh(product) && product.Valid() && product.arr != null && fresh(product.arr)
    ensures product.width == 1 + ByteLength(k)
    ensures k == 0 ==> product.Value() == 1
    ensures k > 0 ==> product.Value() % TWO_32 == (1 + k) % 256
  {
    product := InitOne();
    var i: u64 := 0;
    while i < power
      invariant i <= power
    {
      i := i + 1;
    }
    MulOneInPlace(product, k);
  }

  /** A sum with an addend p that is 1 + k mod 256 modulo 2^32, taken
      modulo 2^32. */
  lemma PowerSum(s: int, v0: int, p: int, k: int)
    requires s == v0 + p && p % TWO_32 == (1 + k) % 256
    ensures s % TWO_32 == (v0 + (1 + k) % 256) % TWO_32
  {
    ModAddLeft(p, v0, TWO_32);
  }

  /** mul_constant(product, product, k) on the one-limb temporary 1: for
      k == 0 nothing is written; for 0 < k < 256 the column path runs in
      place over the two limbs. */
  method MulOneInPlace(product: VarWidth, k: u64)
    requires product.Valid() && product.width == 1 && product.Value() == 1 && k < 256
    modifies product
    ensures product.Valid() && product.width == 1 + ByteLength(k) && product.arr != null && fresh(product.arr)
    ensures k == 0 ==> product.Value() == 1
    ensures k > 0 ==> product.Value() % TWO_32 == (1 + k) % 256
  {
    assert product.Limbs() == [] + [product.Limbs()[0]];
    ValSnoc([], product.Limbs()[0], TWO_32);
    ByteLengthBounds(k);
    KBytesVal(k, 8);
    if k > 0 {
      OneByte(k);
    }
    ghost var A := MulConstantLegacy(product, product, k);
    if k > 0 {
      InPlaceOneLow(A, product.Limbs(), k);
    } else {
      assert product.Limbs() == A;
    }
  }

  // ------------------------------------------------------------ counterexamples

  /** The row path drops the final carry: 2 times the bytes [0, 0x80]
      (0x8000) is 0x10000, but into zeroed bytes the row path leaves 0. */
  lemma RowCarryLost()
    ensures RowProduct(2, [0, 0x80]) == 0x10000
    ensures Val(ByteSums([0, 0], DigitsOf(RowProduct(2, [0, 0x80]), 2, 256)), 256) == 0
  {
    assert Val([0, 0x80], 256) == 0x8000 by {
      ValFourBytes([0, 0x80, 0, 0]);
      assert [0, 0x80, 0, 0][..2] == [0, 0x80];
      ValPrefixStep([0, 0x80, 0, 0], 2, 256);
      ValPrefixStep([0, 0x80, 0, 0], 3, 256);
    }
    assert DigitsOf(0x10000, 2, 256) == [0, 0];
    assert ByteSums([0, 0], [0, 0]) == [0, 0];
    ValZeros(2, 256);
    assert Zeros(2) == [0, 0];
  }

  /** The column path drops every high byte: 0xFF times 2 is 0x1FE, but
      into zeroed bytes the column path leaves 0xFE. */
  lemma ColumnCarryDropped()
    ensures ByteSums([0, 0], LowProducts([0xFF, 0], 2)) == [0xFE, 0]
    ensures Val([0xFE, 0], 256) == 0xFE != Val([0xFF, 0], 256) * 2
  {
    assert LowProducts([0xFF, 0], 2) == [0xFE, 0];
    ValFourBytes([0xFE, 0, 0, 0]);
    ValFourBytes([0xFF, 0, 0, 0]);
    assert [0xFE, 0, 0, 0][..2] == [0xFE, 0] && [0xFF, 0, 0, 0][..2] == [0xFF, 0];
    ValPrefixStep([0xFE, 0, 0, 0], 2, 256);
    ValPrefixStep([0xFE, 0, 0, 0], 3, 256);
    ValPrefixStep([0xFF, 0, 0, 0], 2, 256);
    ValPrefixStep([0xFF, 0, 0, 0], 3, 256);
  }

  /** mul(x, x, y) with one-limb x and y: x is read at the enlarged two
      limbs (8 bytes), and the split case writes 8 + 4 bytes into 8. */
  lemma MulAliasOverflows()
    ensures WidthBytes(WidthRead(true, 1, 2)) == 8 && WidthBytes(WidthRead(false, 1, 2)) == 4
    ensures !LegacyFits(WidthBytes(WidthRead(true, 1, 2)), WidthBytes(WidthRead(false, 1, 2)), WidthBytes(2))
  {
  }

  /** With the empty loop, k = 2 to the power 3 times rs0 = 1 gives 1 + 3 in
      the low limb instead of 8. */
  method PowerLoopCounterexample() returns (v: nat)
    ensures v == 4 != 1 * Pow(2, 3)
  {
    var d := Init(null, 0);
    var r := OneLimb(1);
    MulByConstantToPowerConstantLegacy(d, r, 2, 3);
    v := d.Value() % TWO_32;
    assert Pow(2, 3) == 8 by { assert Pow(2, 1) == 2; }
  }
}
