/** Addition with carry: over the limbs of variable-width integers (fixed
    width, or growing the destination) and over little-endian byte buffers,
    with the second operand optionally placed at a byte or a bit offset. Every
    routine reads an operand position past its width as 0, and stays correct
    when the destination is also an operand at the same position, since each
    position is read before it is written.

    Each routine is a method that snapshots its operands as ghost digit
    sequences, runs the source's loop (a method of its own, proved against
    the carries and digits of the generic Chain of module Digits) and closes
    with the value of the chain. */
module Add {
  import opened Digits
  import opened Bits
  import opened Words
  import opened WideInt

  /** The limb sum z of one step keeps z & LIMB_MAX and carries z >> 32. */
  lemma {:induction false} LimbSplit(z: nat)
    ensures And(z, LIMB_MAX) == z % TWO_32
  {
    PowersOfTwo();
    AndLowMask(z, 32);
  }

  /** The byte sum z of one step keeps z & UINT8_MAX and carries z >> 8. */
  lemma {:induction false} ByteSplit(z: nat)
    ensures And(z, 0xFF) == z % 256
  {
    PowersOfTwo();
    AndLowMask(z, 8);
  }

  /** A chain over the first operand `a` (padded) and a second operand whose
      padded digits y hold bv mod base^n computes (a + m bv) mod base^n; its
      carry out is what did not fit. */
  lemma {:induction false} SumResult(x: seq<int>, y: seq<int>, m: int, base: int, c: seq<int>, d: seq<int>,
                                     a: seq<int>, bv: int)
    requires base > 1 && Chain(x, y, m, base, c, d) && IsDigits(a, base) && x == Pad(a, |d|)
    requires Val(y, base) == bv % Pow(base, |d|)
    ensures IsDigits(d, base)
    ensures Val(d, base) == (Val(a, base) + m * bv) % Pow(base, |d|)
    ensures Val(d, base) + c[|d|] * Pow(base, |d|) == Val(a, base) % Pow(base, |d|) + m * (bv % Pow(base, |d|))
  {
    ChainResult(x, y, m, base, c, d);
    ChainValue(x, y, m, base, c, d);
    ValPad(a, |d|, base);
    ModLinear(Val(a, base), bv, m, Pow(base, |d|));
  }

  /** Reading a live operand limb by limb, past its width as 0, gives its limbs
      A zero-extended to w, also when it is the destination already widened
      to w. */
  lemma {:induction false} ReadsPadded(v: VarWidth, A: seq<int>, w: nat)
    requires v.Valid() && (v.Limbs() == A || v.Limbs() == Pad(A, w))
    ensures forall j | 0 <= j < w :: Pad(A, w)[j] == if j < v.width then v.arr[j] as int else 0
  {
    forall j | 0 <= j < w
      ensures Pad(A, w)[j] == if j < v.width then v.arr[j] as int else 0
    {
      if j < v.width {
        assert v.arr[j] == v.Limbs()[j];
      }
    }
  }

  // ------------------------------------------------------------ limb adds

  /** The loop of add and add_and_resize: limb i of `out`, for i < n, becomes
      digit i of the chain over the limbs X read from (a0, w0) and Y read from
      (a1, w1); the final carry is returned. z & LIMB_MAX is z % 2^32 (see
      LimbSplit) and z >> 32 is z / 2^32. */
  method AddLimbs(out: array?<limb>, n: nat, a0: array?<limb>, w0: nat, a1: array?<limb>, w1: nat,
                  ghost X: seq<int>, ghost Y: seq<int>, ghost C: seq<int>, ghost D: seq<int>) returns (carry: limb)
    requires (out == null ==> n == 0) && (out != null ==> n <= out.Length)
    requires (a0 == null ==> w0 == 0) && (a0 != null ==> w0 <= a0.Length)
    requires (a1 == null ==> w1 == 0) && (a1 != null ==> w1 <= a1.Length)
    requires ChainSteps(X, Y, 1, TWO_32, C, D) && |D| == n
    requires forall j | 0 <= j < n ::
      X[j] == (if j < w0 then a0[j] as int else 0) && Y[j] == (if j < w1 then a1[j] as int else 0)
    modifies out
    ensures out != null ==> forall j | 0 <= j < n :: out[j] == D[j]
    ensures out != null ==> out[n..] == old(out[n..])
    ensures carry == C[n]
  {
    carry := 0;
    var i := 0;
    while i < n
      invariant 0 <= i <= n
      invariant forall j | i <= j < n ::
        X[j] == (if j < w0 then a0[j] as int else 0) && Y[j] == (if j < w1 then a1[j] as int else 0)
      invariant out != null ==> forall j | 0 <= j < i :: out[j] == D[j]
      invariant out != null ==> out[n..] == old(out[n..])
      invariant carry == C[i]
    {
      var z: u64 := (if i < w0 then a0[i] else 0) + (if i < w1 then a1[i] else 0) + carry;
      assert D[i] == z % TWO_32 && C[i + 1] == z / TWO_32;
      out[i] := z % TWO_32;
      carry := z / TWO_32;
      i := i + 1;
    }
  }

  /** The loop of add_constant and add_and_resize_constant: as AddLimbs, with
      limb section i of k as the second operand's limb i. */
  method AddConstantLimbs(out: array?<limb>, n: nat, a0: array?<limb>, w0: nat, k: u64,
                          ghost X: seq<int>, ghost Y: seq<int>, ghost C: seq<int>, ghost D: seq<int>)
    returns (carry: limb)
    requires (out == null ==> n == 0) && (out != null ==> n <= out.Length)
    requires (a0 == null ==> w0 == 0) && (a0 != null ==> w0 <= a0.Length)
    requires ChainSteps(X, Y, 1, TWO_32, C, D) && |D| == n
    requires forall j | 0 <= j < n ::
      X[j] == (if j < w0 then a0[j] as int else 0) && Y[j] == Section(k, 8, LIMB_BYTES, j)
    modifies out
    ensures out != null ==> forall j | 0 <= j < n :: out[j] == D[j]
    ensures out != null ==> out[n..] == old(out[n..])
    ensures carry == C[n]
  {
    PowersOfTwo();
    carry := 0;
    var i := 0;
    while i < n
      invariant 0 <= i <= n
      invariant forall j | i <= j < n :: X[j] == (if j < w0 then a0[j] as int else 0)
      invariant out != null ==> forall j | 0 <= j < i :: out[j] == D[j]
      invariant out != null ==> out[n..] == old(out[n..])
      invariant carry == C[i]
    {
      var z: u64 := (if i < w0 then a0[i] else 0) + Section(k, 8, LIMB_BYTES, i) + carry;
      assert D[i] == z % TWO_32 && C[i + 1] == z / TWO_32;
      out[i] := z % TWO_32;
      carry := z / TWO_32;
      i := i + 1;
    }
  }

  /** The digits of a live operand are limbs, and its value fits its width. */
  lemma {:induction false} ValueFits(v: VarWidth)
    requires v.Valid()
    ensures IsDigits(v.Limbs(), TWO_32) && 0 <= v.Value() < Pow(TWO_32, v.width)
  {
    ValBounds(v.Limbs(), TWO_32);
  }

  /** The loop of add and add_and_resize over live operands: dst keeps its
      width w, and dst + carry 2^(32 w) is the sum of the operands each cut to
      w limbs; the carry is 0 or 1. */
  method AddCarry(dst: VarWidth, rs0: VarWidth, rs1: VarWidth) returns (carry: limb)
    requires dst.Valid() && rs0.Valid() && rs1.Valid()
    modifies dst.arr
    ensures dst.Valid() && dst.width == old(dst.width)
    ensures carry <= 1
    ensures dst.Value() + carry * Pow(TWO_32, dst.width) ==
            old(rs0.Value()) % Pow(TWO_32, dst.width) + old(rs1.Value()) % Pow(TWO_32, dst.width)
  {
    ghost var A, B := rs0.Limbs(), rs1.Limbs();
    ghost var X, Y := Pad(A, dst.width), Pad(B, dst.width);
    ghost var C, D := ChainOf(X, Y, 1, TWO_32);
    ChainAt(X, Y, 1, TWO_32, C, D);
    ReadsPadded(rs0, A, dst.width);
    ReadsPadded(rs1, B, dst.width);
    carry := AddLimbs(dst.arr, dst.width, rs0.arr, rs0.width, rs1.arr, rs1.width, X, Y, C, D);
    assert dst.Limbs() == D;
    ValPad(B, dst.width, TWO_32);
    SumResult(X, Y, 1, TWO_32, C, D, A, Val(B, TWO_32));
    assert IsDigits(X, TWO_32) && IsDigits(Y, TWO_32);
    ChainCarryBounds(X, Y, 1, TWO_32, C, D);
  }

  /** The loop of add_constant and add_and_resize_constant: as AddCarry, with
      the 64-bit constant k as the second operand. */
  method AddConstantCarry(dst: VarWidth, rs0: VarWidth, k: u64) returns (carry: limb)
    requires dst.Valid() && rs0.Valid()
    modifies dst.arr
    ensures dst.Valid() && dst.width == old(dst.width)
    ensures carry <= 1
    ensures dst.Value() + carry * Pow(TWO_32, dst.width) ==
            old(rs0.Value()) % Pow(TWO_32, dst.width) + k % Pow(TWO_32, dst.width)
  {
    ghost var A := rs0.Limbs();
    ghost var X, Y := Pad(A, dst.width), Sections(k, 8, LIMB_BYTES, dst.width);
    ghost var C, D := ChainOf(X, Y, 1, TWO_32);
    ChainAt(X, Y, 1, TWO_32, C, D);
    ReadsPadded(rs0, A, dst.width);
    carry := AddConstantLimbs(dst.arr, dst.width, rs0.arr, rs0.width, k, X, Y, C, D);
    assert dst.Limbs() == D;
    SectionsReassemble(k, dst.width, 4);
    LimbConstants();
    SumResult(X, Y, 1, TWO_32, C, D, A, k);
    assert IsDigits(X, TWO_32);
    ChainCarryBounds(X, Y, 1, TWO_32, C, D);
  }

  /** A value v < p that, with a carry, makes up a sum s is s mod p. */
  lemma {:induction false} FixedClose(v: int, carry: int, s0: int, s1: int, p: int)
    requires p > 0 && 0 <= v < p && v + carry * p == s0 % p + s1 % p
    ensures v == (s0 + s1) % p
  {
    ModUnique(v, s0 % p + s1 % p, carry, p);
    ModLinear(s0, s1, 1, p);
  }

  /** NOAHZK_variable_width_add: dst keeps its width and becomes
      (rs0 + rs1) mod 2^(32 dst.width). */
  method Add(dst: VarWidth, rs0: VarWidth, rs1: VarWidth)
    requires dst.Valid() && rs0.Valid() && rs1.Valid()
    modifies dst.arr
    ensures dst.Valid() && dst.width == old(dst.width)
    ensures dst.Value() == (old(rs0.Value()) + old(rs1.Value())) % Pow(TWO_32, dst.width)
  {
    ghost var a, b := rs0.Value(), rs1.Value();
    var carry := AddCarry(dst, rs0, rs1);
    ValueFits(dst);
    FixedClose(dst.Value(), carry, a, b, Pow(TWO_32, dst.width));
  }

  /** NOAHZK_variable_width_add_constant: dst keeps its width and becomes
      (rs0 + k) mod 2^(32 dst.width). */
  method AddConstant(dst: VarWidth, rs0: VarWidth, k: u64)
    requires dst.Valid() && rs0.Valid()
    modifies dst.arr
    ensures dst.Valid() && dst.width == old(dst.width)
    ensures dst.Value() == (old(rs0.Value()) + k) % Pow(TWO_32, dst.width)
  {
    ghost var a := rs0.Value();
    var carry := AddConstantCarry(dst, rs0, k);
    ValueFits(dst);
    FixedClose(dst.Value(), carry, a, k, Pow(TWO_32, dst.width));
  }

  /** The resize step of both add_and_resize routines: when dst is narrower
      than `largest`, its buffer is reallocated to `largest` limbs, the new
      limbs are zeroed and the width is raised; the value is kept. */
  method Widen(dst: VarWidth, largest: nat)
    requires dst.Valid()
    modifies dst
    ensures dst.Valid() && dst.width == Max(old(dst.width), largest)
    ensures dst.Limbs() == Pad(old(dst.Limbs()), dst.width)
    ensures dst.Value() == old(dst.Value())
    ensures dst.width == old(dst.width) ==> dst.arr == old(dst.arr)
    ensures dst.width != old(dst.width) ==> fresh(dst.arr)
  {
    ghost var l := dst.Limbs();
    if dst.width < largest {
      var a := Realloc(dst.arr, largest);
      ZeroFrom(a, dst.width);
      dst.arr := a;
      dst.width := largest;
      assert dst.Limbs() == Pad(l, dst.width);
    } else {
      assert dst.Limbs() == Pad(l, dst.width);
    }
    PadFits(l, dst.width);
  }

  /** Widen with two live operands no wider than `largest`: each keeps its
      limbs (zero-extended when it is dst itself), so its value, which now
      fits in dst's width. */
  method WidenPair(dst: VarWidth, rs0: VarWidth, rs1: VarWidth, largest: nat)
    requires dst.Valid() && rs0.Valid() && rs1.Valid() && rs0.width <= largest && rs1.width <= largest
    modifies dst
    ensures dst.Valid() && rs0.Valid() && rs1.Valid() && dst.width == Max(old(dst.width), largest)
    ensures dst.width == old(dst.width) ==> dst.arr == old(dst.arr)
    ensures dst.width != old(dst.width) ==> fresh(dst.arr)
    ensures rs0.Limbs() == old(rs0.Limbs()) || rs0.Limbs() == Pad(old(rs0.Limbs()), dst.width)
    ensures rs1.Limbs() == old(rs1.Limbs()) || rs1.Limbs() == Pad(old(rs1.Limbs()), dst.width)
    ensures rs0.Value() == old(rs0.Value()) < Pow(TWO_32, dst.width)
    ensures rs1.Value() == old(rs1.Value()) < Pow(TWO_32, dst.width)
  {
    ghost var A, B := rs0.Limbs(), rs1.Limbs();
    Widen(dst, largest);
    WidenedOperand(rs0, A, dst.width);
    WidenedOperand(rs1, B, dst.width);
  }

  /** The carry step of both add_and_resize routines: a nonzero carry goes
      into one more limb on top. */
  method PushCarry(dst: VarWidth, carry: limb)
    requires dst.Valid()
    modifies dst
    ensures dst.Valid()
    ensures dst.width == old(dst.width) + (if carry == 0 then 0 else 1)
    ensures dst.Value() == old(dst.Value()) + carry * Pow(TWO_32, old(dst.width))
    ensures carry == 0 ==> dst.arr == old(dst.arr)
    ensures carry != 0 ==> fresh(dst.arr)
  {
    ghost var l := dst.Limbs();
    if carry != 0 {
      var a := Realloc(dst.arr, dst.width + 1);
      a[dst.width] := carry;
      dst.arr := a;
      dst.width := dst.width + 1;
      assert dst.Limbs() == l + [carry];
      ValSnoc(l, carry, TWO_32);
    }
  }

  /** A value v < p and a carry of 0 or 1 that make up the sum of two
      operands already below p: the carry is 1 exactly when the sum does not
      fit below p. */
  lemma {:induction false} ResizeClose(v: int, carry: int, s0: int, s1: int, p: int)
    requires 0 <= v < p && 0 <= s0 < p && 0 <= s1 < p && 0 <= carry <= 1
    requires v + carry * p == s0 % p + s1 % p
    ensures v + carry * p == s0 + s1
    ensures carry == (if s0 + s1 < p then 0 else 1)
  {
    ModUnique(s0, s0, 0, p);
    ModUnique(s1, s1, 0, p);
  }

  /** An operand that Widen left alone, or that is dst itself and was widened
      to w limbs, keeps its value, which fits in w limbs. */
  lemma {:induction false} WidenedOperand(v: VarWidth, before: seq<limb>, w: nat)
    requires v.Valid() && |before| <= w && v.width <= w
    requires v.Limbs() == before || v.Limbs() == Pad(before, w)
    ensures v.Value() == Val(before, TWO_32) && v.Value() < Pow(TWO_32, w)
  {
    PadFits(before, w);
    ValueFits(v);
    PowMonotone(TWO_32, v.width, w);
  }

  /** NOAHZK_variable_width_add_and_resize: dst first grows to the wider of
      the operands, then takes their exact sum, growing by one limb more when
      the sum does not fit. Reading an operand whose buffer the first
      realloc freed is undefined, so such an operand must not share dst's
      buffer unless it is dst itself. */
  method AddAndResize(dst: VarWidth, rs0: VarWidth, rs1: VarWidth)
    requires dst.Valid() && rs0.Valid() && rs1.Valid()
    requires dst.width < Max(rs0.width, rs1.width) ==>
      (rs0 == dst || rs0.arr == null || rs0.arr != dst.arr) &&
      (rs1 == dst || rs1.arr == null || rs1.arr != dst.arr)
    modifies dst, dst.arr
    ensures dst.Valid()
    ensures var w := Max(old(dst.width), Max(old(rs0.width), old(rs1.width)));
      var s := old(rs0.Value()) + old(rs1.Value());
      dst.width == (if s < Pow(TWO_32, w) then w else w + 1) && dst.Value() == s
    ensures dst.arr == old(dst.arr) || fresh(dst.arr)
  {
    ghost var a, b := rs0.Value(), rs1.Value();
    var largest := Max(rs0.width, rs1.width);
    WidenPair(dst, rs0, rs1, largest);
    ghost var p := Pow(TWO_32, dst.width);
    var carry := AddCarry(dst, rs0, rs1);
    ValueFits(dst);
    ResizeClose(dst.Value(), carry as int, a, b, p);
    PushCarry(dst, carry);
  }

  /** An operand no wider than w, zero-extended to w limbs, keeps its value,
      which fits in w limbs. */
  lemma {:induction false} PadFits(b: seq<limb>, w: nat)
    requires |b| <= w
    ensures IsDigits(Pad(b, w), TWO_32)
    ensures Val(Pad(b, w), TWO_32) == Val(b, TWO_32) && 0 <= Val(b, TWO_32) < Pow(TWO_32, w)
  {
    ValBounds(b, TWO_32);
    PowMonotone(TWO_32, |b|, w);
    ValPad(b, w, TWO_32);
    ModUnique(Val(b, TWO_32), Val(b, TWO_32), 0, Pow(TWO_32, w));
  }

  /** NOAHZK_variable_width_add_and_resize_constant: as add_and_resize, with
      the 64-bit constant k (two limbs wide) as the second operand. */
  method AddAndResizeConstant(dst: VarWidth, rs0: VarWidth, k: u64)
    requires dst.Valid() && rs0.Valid()
    requires dst.width < Max(rs0.width, BITS_IN_UINT64 / BITS_IN_LIMB) ==>
      rs0 == dst || rs0.arr == null || rs0.arr != dst.arr
    modifies dst, dst.arr
    ensures dst.Valid()
    ensures var w := Max(old(dst.width), Max(old(rs0.width), 2));
      var s := old(rs0.Value()) + k;
      dst.width == (if s < Pow(TWO_32, w) then w else w + 1) && dst.Value() == s
    ensures dst.arr == old(dst.arr) || fresh(dst.arr)
  {
    ghost var A := rs0.Limbs();
    var largest := Max(rs0.width, BITS_IN_UINT64 / BITS_IN_LIMB);
    Widen(dst, largest);
    WidenedOperand(rs0, A, dst.width);
    ConstantFitsTwoLimbs(k, dst.width);
    ghost var p := Pow(TWO_32, dst.width);
    var carry := AddConstantCarry(dst, rs0, k);
    ValueFits(dst);
    ResizeClose(dst.Value(), carry as int, Val(A, TWO_32), k as int, p);
    PushCarry(dst, carry);
  }

  /** A 64-bit constant fits in any width of at least two limbs. */
  lemma {:induction false} ConstantFitsTwoLimbs(k: u64, w: nat)
    requires w >= 2
    ensures k % Pow(TWO_32, w) == k && k < Pow(TWO_32, w)
  {
    PowersOfTwo();
    PowMonotone(TWO_32, 2, w);
    assert Pow(TWO_32, 2) == TWO_64;
    ModUnique(k, k, 0, Pow(TWO_32, w));
  }

  // ------------------------------------------------------------ byte adds

  /** The loop of add_byte. */
  method AddByteChain(dst: array<byte>, rs0: array<byte>, rs1: array<byte>, width0: nat, width1: nat, widthResult: nat,
                      ghost X: seq<int>, ghost Y: seq<int>, ghost C: seq<int>, ghost D: seq<int>)
    requires widthResult <= dst.Length && width0 <= rs0.Length && width1 <= rs1.Length
    requires ChainSteps(X, Y, 1, 256, C, D) && |D| == widthResult
    requires forall j | 0 <= j < widthResult ::
      X[j] == (if j < width0 then rs0[j] as int else 0) && Y[j] == (if j < width1 then rs1[j] as int else 0)
    modifies dst
    ensures dst[..widthResult] == D
    ensures dst[widthResult..] == old(dst[widthResult..])
  {
    var carry: byte := 0;
    var i := 0;
    while i < widthResult
      invariant 0 <= i <= widthResult
      invariant forall j | i <= j < widthResult ::
        X[j] == (if j < width0 then rs0[j] as int else 0) && Y[j] == (if j < width1 then rs1[j] as int else 0)
      invariant forall j | 0 <= j < i :: dst[j] == D[j]
      invariant carry == C[i]
      invariant dst[widthResult..] == old(dst[widthResult..])
    {
      var z: u16 := (if i < width0 then rs0[i] else 0) + (if i < width1 then rs1[i] else 0) + carry;
      assert D[i] == z % 256 && C[i + 1] == z / 256;
      dst[i] := z % 256;
      carry := z / 256;
      i := i + 1;
    }
  }

  /** NOAHZK_variable_width_add_byte: the widthResult bytes of dst become
      (rs0 + rs1) mod 256^widthResult, reading rs0 past width0 and rs1 past
      width1 as 0; the bytes past widthResult are untouched. Either operand
      may be dst itself. */
  method AddByte(dst: array<byte>, rs0: array<byte>, rs1: array<byte>, width0: nat, width1: nat, widthResult: nat)
    requires widthResult <= dst.Length && width0 <= rs0.Length && width1 <= rs1.Length
    modifies dst
    ensures Val(dst[..widthResult], 256) ==
      (Val(old(rs0[..width0]), 256) + Val(old(rs1[..width1]), 256)) % Pow(256, widthResult)
    ensures dst[widthResult..] == old(dst[widthResult..])
  {
    ghost var A, B := rs0[..width0], rs1[..width1];
    ghost var X, Y := Pad(A, widthResult), Pad(B, widthResult);
    ghost var C, D := ChainOf(X, Y, 1, 256);
    ChainAt(X, Y, 1, 256, C, D);
    PaddedBytes(rs0, width0, A, widthResult);
    PaddedBytes(rs1, width1, B, widthResult);
    AddByteChain(dst, rs0, rs1, width0, width1, widthResult, X, Y, C, D);
    ValPad(B, widthResult, 256);
    SumResult(X, Y, 1, 256, C, D, A, Val(B, 256));
  }

  /** The loop of add_with_byte_offset_byte. */
  method AddWithByteOffsetChain(dst: array<byte>, rs0: array<byte>, rs1: array<byte>, width0: nat, width1: nat,
                                widthResult: nat, byteOffset: nat,
                                ghost X: seq<int>, ghost Y: seq<int>, ghost C: seq<int>, ghost D: seq<int>)
    requires widthResult <= dst.Length && width0 <= rs0.Length && width1 <= rs1.Length
    requires ChainSteps(X, Y, 1, 256, C, D) && |D| == widthResult
    requires forall j | 0 <= j < widthResult ::
      X[j] == (if j < width0 then rs0[j] as int else 0) &&
      Y[j] == (if j < byteOffset then 0 else if j - byteOffset < width1 then rs1[j - byteOffset] as int else 0)
    requires rs1 == dst ==> byteOffset == 0
    modifies dst
    ensures dst[..widthResult] == D
    ensures dst[widthResult..] == old(dst[widthResult..])
  {
    var carry: byte := 0;
    var i := 0;
    while i < widthResult
      invariant 0 <= i <= widthResult
      invariant forall j | i <= j < widthResult ::
        X[j] == (if j < width0 then rs0[j] as int else 0) &&
        Y[j] == (if j < byteOffset then 0 else if j - byteOffset < width1 then rs1[j - byteOffset] as int else 0)
      invariant forall j | 0 <= j < i :: dst[j] == D[j]
      invariant carry == C[i]
      invariant dst[widthResult..] == old(dst[widthResult..])
    {
      var z: u16 := (if i < width0 then rs0[i] else 0)
        + (if i < byteOffset then 0 else if i - byteOffset < width1 then rs1[i - byteOffset] else 0) + carry;
      assert D[i] == z % 256 && C[i + 1] == z / 256;
      dst[i] := z % 256;
      carry := z / 256;
      i := i + 1;
    }
  }

  /** NOAHZK_variable_width_add_with_byte_offset_byte: the widthResult bytes
      of dst become (rs0 + rs1 * 256^byteOffset) mod 256^widthResult. */
  method AddWithByteOffsetByte(dst: array<byte>, rs0: array<byte>, rs1: array<byte>, width0: nat, width1: nat,
                               widthResult: nat, byteOffset: nat)
    requires widthResult <= dst.Length && width0 <= rs0.Length && width1 <= rs1.Length
    requires rs1 == dst ==> byteOffset == 0
    modifies dst
    ensures Val(dst[..widthResult], 256) ==
      (Val(old(rs0[..width0]), 256) + Val(old(rs1[..width1]), 256) * Pow(256, byteOffset)) % Pow(256, widthResult)
    ensures dst[widthResult..] == old(dst[widthResult..])
  {
    ghost var A, B := rs0[..width0], rs1[..width1];
    ghost var X, Y := Pad(A, widthResult), Pad(Zeros(byteOffset) + B, widthResult);
    ghost var C, D := ChainOf(X, Y, 1, 256);
    ChainAt(X, Y, 1, 256, C, D);
    PaddedBytes(rs0, width0, A, widthResult);
    OffsetOperand(rs1, width1, B, byteOffset, widthResult);
    AddWithByteOffsetChain(dst, rs0, rs1, width0, width1, widthResult, byteOffset, X, Y, C, D);
    ValShiftedPad(B, byteOffset, widthResult, 256);
    SumResult(X, Y, 1, 256, C, D, A, Val(B, 256) * Pow(256, byteOffset));
  }

  /** The second operand of add_with_byte_offset_byte, read byte by byte:
      rs1's bytes placed bo bytes up are the digits of rs1 * 256^bo. */
  lemma {:induction false} OffsetOperand(rs1: array<byte>, width1: nat, B: seq<byte>, bo: nat, n: nat)
    requires width1 <= rs1.Length && B == rs1[..width1]
    ensures forall j | 0 <= j < n ::
      Pad(Zeros(bo) + B, n)[j] == (if j < bo then 0 else if j - bo < width1 then rs1[j - bo] as int else 0)
  {
    var y0 := Pad(Zeros(bo) + B, n);
    forall j | 0 <= j < n
      ensures y0[j] == (if j < bo then 0 else if j - bo < width1 then rs1[j - bo] as int else 0)
    {
      if bo <= j && j - bo < width1 {
        assert (Zeros(bo) + B)[j] == B[j - bo];
      }
    }
  }

  /** The loop of add_with_bit_offset_byte: the chain over rs0 and the bytes
      of rs1 placed bitOffset / 8 bytes up and shifted left by
      bitOffset % 8 bits (Y holds those shifted bytes). The 16-bit sum never
      overflows: 255 + 255 * 128 + 255 < 2^16. */
  method AddWithBitOffsetChain(dst: array<byte>, rs0: array<byte>, rs1: array<byte>, width0: nat, width1: nat,
                               widthResult: nat, byteOffset: nat, shift: nat,
                               ghost X: seq<int>, ghost Y: seq<int>, ghost C: seq<int>, ghost D: seq<int>)
    requires widthResult <= dst.Length && width0 <= rs0.Length && width1 <= rs1.Length && shift < 8
    requires ChainSteps(X, Y, 1, 256, C, D) && |D| == widthResult
    requires forall j | 0 <= j < widthResult ::
      X[j] == (if j < width0 then rs0[j] as int else 0) &&
      Y[j] == (if j < byteOffset then 0
               else if j - byteOffset < width1 then ShiftLeft(rs1[j - byteOffset] as nat, shift) else 0)
    requires rs1 == dst ==> byteOffset == 0
    modifies dst
    ensures dst[..widthResult] == D
    ensures dst[widthResult..] == old(dst[widthResult..])
  {
    var carry: byte := 0;
    var i := 0;
    while i < widthResult
      invariant 0 <= i <= widthResult
      invariant forall j | i <= j < widthResult ::
        X[j] == (if j < width0 then rs0[j] as int else 0) &&
        Y[j] == (if j < byteOffset then 0
                 else if j - byteOffset < width1 then ShiftLeft(rs1[j - byteOffset] as nat, shift) else 0)
      invariant forall j | 0 <= j < i :: dst[j] == D[j]
      invariant carry == C[i]
      invariant dst[widthResult..] == old(dst[widthResult..])
    {
      var s: nat := if i < byteOffset then 0
        else if i - byteOffset < width1 then ShiftLeft(rs1[i - byteOffset] as nat, shift) else 0;
      if byteOffset <= i && i - byteOffset < width1 {
        ShiftLeftByte(rs1[i - byteOffset] as nat, shift);
      }
      var z: u16 := (if i < width0 then rs0[i] else 0) + s + carry;
      assert D[i] == z % 256 && C[i + 1] == z / 256;
      dst[i] := z % 256;
      carry := z / 256;
      i := i + 1;
    }
  }

  /** A shift by bitOffset % 8 multiplies by at most 128. */
  lemma {:induction false} ShiftBound(shift: nat)
    requires shift < 8
    ensures 1 <= Pow(2, shift) <= 128
  {
    PowMonotone(2, shift, 7);
    PowersOfTwo();
  }

  /** 2^(bitOffset % 8) * 256^(bitOffset / 8) == 2^bitOffset */
  lemma {:induction false} BitOffsetSplit(bitOffset: nat)
    ensures Pow(2, bitOffset % 8) * Pow(256, bitOffset / 8) == Pow(2, bitOffset)
  {
    PowersOfTwo();
    PowPow(2, 8, bitOffset / 8);
    PowAdd(2, bitOffset % 8, 8 * (bitOffset / 8));
  }

  /** NOAHZK_variable_width_add_with_bit_offset_byte: the widthResult bytes of
      dst become (rs0 + rs1 * 2^bitOffset) mod 256^widthResult. */
  method AddWithBitOffsetByte(dst: array<byte>, rs0: array<byte>, rs1: array<byte>, width0: nat, width1: nat,
                              widthResult: nat, bitOffset: nat)
    requires widthResult <= dst.Length && width0 <= rs0.Length && width1 <= rs1.Length
    requires rs1 == dst ==> bitOffset / BITS_IN_UINT8 == 0
    modifies dst
    ensures Val(dst[..widthResult], 256) ==
      (Val(old(rs0[..width0]), 256) + Val(old(rs1[..width1]), 256) * Pow(2, bitOffset)) % Pow(256, widthResult)
    ensures dst[widthResult..] == old(dst[widthResult..])
  {
    ghost var A, B := rs0[..width0], rs1[..width1];
    var byteOffset, shift := bitOffset / BITS_IN_UINT8, bitOffset % BITS_IN_UINT8;
    ghost var X, Y, C, D :=
      BitOffsetOperands(rs0, rs1, width0, width1, widthResult, bitOffset, byteOffset, shift, A, B);
    AddWithBitOffsetChain(dst, rs0, rs1, width0, width1, widthResult, byteOffset, shift, X, Y, C, D);
  }

  /** The operands and the chain of add_with_bit_offset_byte: rs0's bytes and
      rs1's bytes placed bitOffset / 8 bytes up and shifted left by
      bitOffset % 8 bits; the chain's digits are the sum the routine
      promises. */
  lemma {:induction false} BitOffsetChain(n: nat, bitOffset: nat, A: seq<byte>, B: seq<byte>)
    returns (X: seq<int>, Y: seq<int>, C: seq<int>, D: seq<int>)
    ensures |D| == n && X == Pad(A, n) && Y == Scaled(Pad(Zeros(bitOffset / 8) + B, n), Pow(2, bitOffset % 8))
    ensures ChainSteps(X, Y, 1, 256, C, D)
    ensures Val(D, 256) == (Val(A, 256) + Val(B, 256) * Pow(2, bitOffset)) % Pow(256, n)
  {
    var Y0 := Pad(Zeros(bitOffset / 8) + B, n);
    X, Y := Pad(A, n), Scaled(Y0, Pow(2, bitOffset % 8));
    C, D := ChainOf(X, Y, 1, 256);
    BitOffsetClose(X, Y, Y0, C, D, A, B, bitOffset);
    ChainAt(X, Y, 1, 256, C, D);
  }

  /** The chain of BitOffsetChain over the operands as the loop of
      add_with_bit_offset_byte reads them. */
  lemma {:induction false} BitOffsetOperands(rs0: array<byte>, rs1: array<byte>, width0: nat, width1: nat, n: nat,
                                             bitOffset: nat, byteOffset: nat, shift: nat, A: seq<byte>, B: seq<byte>)
    returns (X: seq<int>, Y: seq<int>, C: seq<int>, D: seq<int>)
    requires width0 <= rs0.Length && width1 <= rs1.Length && A == rs0[..width0] && B == rs1[..width1]
    requires byteOffset == bitOffset / 8 && shift == bitOffset % 8
    ensures ChainSteps(X, Y, 1, 256, C, D) && |D| == n
    ensures forall j | 0 <= j < n ::
      X[j] == (if j < width0 then rs0[j] as int else 0) &&
      Y[j] == (if j < byteOffset then 0
               else if j - byteOffset < width1 then ShiftLeft(rs1[j - byteOffset] as nat, shift) else 0)
    ensures Val(D, 256) == (Val(A, 256) + Val(B, 256) * Pow(2, bitOffset)) % Pow(256, n)
  {
    X, Y, C, D := BitOffsetChain(n, bitOffset, A, B);
    BitOffsetReads(rs0, rs1, width0, width1, n, bitOffset, A, B, X, Y);
  }

  /** The operands of BitOffsetChain, read as the loop reads them. */
  lemma {:induction false} BitOffsetReads(rs0: array<byte>, rs1: array<byte>, width0: nat, width1: nat, n: nat,
                                          bitOffset: nat, A: seq<byte>, B: seq<byte>, X: seq<int>, Y: seq<int>)
    requires width0 <= rs0.Length && width1 <= rs1.Length && A == rs0[..width0] && B == rs1[..width1]
    requires X == Pad(A, n) && Y == Scaled(Pad(Zeros(bitOffset / 8) + B, n), Pow(2, bitOffset % 8))
    ensures forall j | 0 <= j < n ::
      X[j] == (if j < width0 then rs0[j] as int else 0) &&
      Y[j] == (if j < bitOffset / 8 then 0
               else if j - bitOffset / 8 < width1 then ShiftLeft(rs1[j - bitOffset / 8] as nat, bitOffset % 8) else 0)
  {
    PaddedBytes(rs0, width0, A, n);
    ShiftedOperand(rs1, width1, B, bitOffset / 8, bitOffset % 8, n);
  }

  /** Reading the first width0 bytes of rs0, and 0 past them. */
  lemma {:induction false} PaddedBytes(rs0: array<byte>, width0: nat, A: seq<byte>, n: nat)
    requires width0 <= rs0.Length && A == rs0[..width0]
    ensures forall j | 0 <= j < n :: Pad(A, n)[j] == if j < width0 then rs0[j] as int else 0
  {
  }

  /** The second operand of add_with_bit_offset_byte, read byte by byte:
      rs1's bytes placed bo bytes up and shifted left by r bits are the
      digits of rs1 * 256^bo, each times 2^r. */
  lemma {:induction false} ShiftedOperand(rs1: array<byte>, width1: nat, B: seq<byte>, bo: nat, r: nat, n: nat)
    requires width1 <= rs1.Length && B == rs1[..width1]
    ensures forall j | 0 <= j < n ::
      Scaled(Pad(Zeros(bo) + B, n), Pow(2, r))[j] ==
        (if j < bo then 0 else if j - bo < width1 then ShiftLeft(rs1[j - bo] as nat, r) else 0)
  {
    var y0 := Pad(Zeros(bo) + B, n);
    forall j | 0 <= j < n
      ensures Scaled(y0, Pow(2, r))[j] ==
        (if j < bo then 0 else if j - bo < width1 then ShiftLeft(rs1[j - bo] as nat, r) else 0)
    {
      if bo <= j && j - bo < width1 {
        assert y0[j] == rs1[j - bo] as int;
        ShiftLeftMul(rs1[j - bo] as nat, r);
      } else {
        assert y0[j] == 0;
      }
    }
  }

  /** The value behind add_with_bit_offset_byte's chain. */
  lemma {:induction false} BitOffsetClose(x: seq<int>, y: seq<int>, y0: seq<int>, c: seq<int>, d: seq<int>,
                                          a: seq<byte>, b: seq<byte>, bitOffset: nat)
    requires Chain(x, y, 1, 256, c, d)
    requires x == Pad(a, |d|) && y0 == Pad(Zeros(bitOffset / 8) + b, |d|)
    requires y == Scaled(y0, Pow(2, bitOffset % 8))
    ensures Val(d, 256) == (Val(a, 256) + Val(b, 256) * Pow(2, bitOffset)) % Pow(256, |d|)
  {
    var p, m, bo := Pow(256, |d|), Pow(2, bitOffset % 8), bitOffset / 8;
    var bv := Val(b, 256) * Pow(256, bo);
    ChainResult(x, y, 1, 256, c, d);
    ValPad(a, |d|, 256);
    ValShiftedPad(b, bo, |d|, 256);
    ValScaled(y0, m, 256);
    ModLinear(Val(a, 256), bv, m, p);
    BitOffsetSplit(bitOffset);
    MulAssocComm(m, Val(b, 256), Pow(256, bo));
  }

  /** The loop of add_constant_byte: byte section i of k is the second
      operand's byte i. */
  method AddConstantByteChain(dst: array<byte>, rs0: array<byte>, k: u64, width0: nat, widthResult: nat,
                              ghost X: seq<int>, ghost Y: seq<int>, ghost C: seq<int>, ghost D: seq<int>)
    requires widthResult <= dst.Length && width0 <= rs0.Length
    requires ChainSteps(X, Y, 1, 256, C, D) && |D| == widthResult
    requires forall j | 0 <= j < widthResult ::
      X[j] == (if j < width0 then rs0[j] as int else 0) && Y[j] == Section(k, 8, 1, j)
    modifies dst
    ensures dst[..widthResult] == D
    ensures dst[widthResult..] == old(dst[widthResult..])
  {
    var carry: byte := 0;
    var i := 0;
    while i < widthResult
      invariant 0 <= i <= widthResult
      invariant forall j | i <= j < widthResult :: X[j] == (if j < width0 then rs0[j] as int else 0)
      invariant forall j | 0 <= j < i :: dst[j] == D[j]
      invariant carry == C[i]
      invariant dst[widthResult..] == old(dst[widthResult..])
    {
      assert Section(k, 8, 1, i) < 256 by { PowersOfTwo(); }
      var z: u16 := (if i < width0 then rs0[i] else 0) + Section(k, 8, 1, i) + carry;
      assert D[i] == z % 256 && C[i + 1] == z / 256;
      dst[i] := z % 256;
      carry := z / 256;
      i := i + 1;
    }
  }

  /** NOAHZK_variable_width_add_constant_byte: the widthResult bytes of dst
      become (rs0 + k) mod 256^widthResult. */
  method AddConstantByte(dst: array<byte>, rs0: array<byte>, k: u64, width0: nat, widthResult: nat)
    requires widthResult <= dst.Length && width0 <= rs0.Length
    modifies dst
    ensures Val(dst[..widthResult], 256) == (Val(old(rs0[..width0]), 256) + k) % Pow(256, widthResult)
    ensures dst[widthResult..] == old(dst[widthResult..])
  {
    ghost var A := rs0[..width0];
    ghost var X, Y := Pad(A, widthResult), Sections(k, 8, 1, widthResult);
    ghost var C, D := ChainOf(X, Y, 1, 256);
    ChainAt(X, Y, 1, 256, C, D);
    PaddedBytes(rs0, width0, A, widthResult);
    AddConstantByteChain(dst, rs0, k, width0, widthResult, X, Y, C, D);
    SectionsReassemble(k, widthResult, 1);
    assert Pow(256, 1) == 256;
    SumResult(X, Y, 1, 256, C, D, A, k);
  }

  /** NOAHZK_variable_width_add_vwv_to_byte: dst += src on the first `width`
      bytes of dst, src read through its byte view. */
  method AddVwvToByte(dst: array<byte>, src: VarWidth, width: nat)
    requires src.Valid() && width <= dst.Length
    modifies dst
    ensures Val(dst[..width], 256) == (Val(old(dst[..width]), 256) + src.Value()) % Pow(256, width)
    ensures dst[width..] == old(dst[width..])
  {
    var view := ByteView(src.Limbs());
    AddByte(dst, dst, view, width, WidthBytes(src.width), width);
    LimbsToBytesVal(src.Limbs());
    assert view[..WidthBytes(src.width)] == LimbsToBytes(src.Limbs());
  }
}
