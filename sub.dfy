/** Subtraction with borrow: over the limbs of variable-width integers (fixed
    width, or growing the destination), by complement with an add/sub flag,
    and over little-endian byte buffers, with the subtrahend optionally
    placed at a bit offset; plus two's-complement negation of a byte buffer.

    A borrowing step computes t = a - b - borrow in a wider unsigned word:
    the low part of the wrapped word is t mod base and the bit above it is 1
    exactly when t < 0. Each routine is proved against the chain of module
    Digits with multiplier -1, whose carry is minus the borrow.

    Both trees of the library are covered: the older tree's sub is the
    borrowing loop the newer tree's sub was meant to be, and the older and
    newer byte routines are the same code. */
module Sub {
  import opened Digits
  import opened Bits
  import opened Words
  import opened WideInt
  import opened Lifecycle
  import opened Add

  /** One borrowing step held in an unsigned word of M = k b values (k even):
      the low part of the wrapped difference t is t mod b, the part above it
      is k - 1 after a borrow and 0 otherwise, and its lowest bit is the
      borrow -(t / b). */
  lemma {:induction false} BorrowStep(t: int, b: int, k: int, M: int)
    requires b > 0 && k >= 2 && k % 2 == 0 && M == k * b && -b <= t < b
    ensures (t % M) % b == t % b
    ensures (t % M) / b == (if t < 0 then k - 1 else 0)
    ensures ((t % M) / b) % 2 == -(t / b)
  {
    MulLe(2, k, b);
    if t >= 0 {
      ModSplit(t, t, 0, M);
      ModSplit(t, t, 0, b);
    } else {
      var z := t + M;
      ModSplit(z, z, 0, M);
      ModAddMultiple(z, -1, M);
      assert z == (t + b) + b * (k - 1);
      ModSplit(z, t + b, k - 1, b);
      ModSplit(t, t + b, -1, b);
    }
  }

  /** A chain with multiplier -1 leaves d - borrow p == a - b, where the
      borrow is minus the chain's carry. */
  lemma {:induction false} BorrowClose(v: int, c: int, borrow: int, a: int, b: int, p: int)
    requires v + c * p == a + (-1) * b && borrow == -c
    ensures v - borrow * p == a - b
  {
    assert c * p == -(borrow * p);
  }

  /** v - borrow p == s0 mod p - s1 mod p with 0 <= v < p makes v the
      difference mod p. */
  lemma {:induction false} DiffClose(v: int, borrow: int, s0: int, s1: int, p: int)
    requires p > 0 && 0 <= v < p && v - borrow * p == s0 % p - s1 % p
    ensures v == (s0 - s1) % p
  {
    var y := s0 % p - s1 % p;
    assert y == v + (-borrow) * p;
    ModUnique(v, y, -borrow, p);
    ModLinear(s0, s1, -1, p);
    assert s0 % p + (-1) * (s1 % p) == y && s0 + (-1) * s1 == s0 - s1;
  }

  /** DiffClose for operands below p: the difference mod p, exact when it
      does not go below 0. */
  lemma ResizedDiff(v: int, borrow: int, s0: int, s1: int, p: int)
    requires p > 0 && 0 <= v < p && v - borrow * p == s0 % p - s1 % p && 0 <= s0 < p && 0 <= s1 < p
    ensures v == (s0 - s1) % p && (s0 >= s1 ==> v == s0 - s1)
  {
    DiffClose(v, borrow, s0, s1, p);
    if s0 >= s1 {
      DiffFits(s0, s1, p);
    }
  }

  /** A difference that does not go below 0 and fits below p is exact. */
  lemma {:induction false} DiffFits(s0: int, s1: int, p: int)
    requires 0 <= s1 <= s0 < p
    ensures (s0 - s1) % p == s0 - s1
  {
    ModUnique(s0 - s1, s0 - s1, 0, p);
  }

  // ------------------------------------------------------------ limb subs

  /** The borrowing loop over limbs: the older tree's sub, and the newer
      tree's sub with its borrow corrected. z = a - b - borrow in 64 bits,
      limb z & LIMB_MAX, borrow z >> 32 & 1 (see BorrowStep). */
  method SubLimbs(out: array?<limb>, n: nat, a0: array?<limb>, w0: nat, a1: array?<limb>, w1: nat,
                  ghost X: seq<int>, ghost Y: seq<int>, ghost C: seq<int>, ghost D: seq<int>) returns (borrow: limb)
    requires (out == null ==> n == 0) && (out != null ==> n <= out.Length)
    requires (a0 == null ==> w0 == 0) && (a0 != null ==> w0 <= a0.Length)
    requires (a1 == null ==> w1 == 0) && (a1 != null ==> w1 <= a1.Length)
    requires ChainSteps(X, Y, -1, TWO_32, C, D) && |D| == n
    requires forall j | 0 <= j < n ::
      X[j] == (if j < w0 then a0[j] as int else 0) && Y[j] == (if j < w1 then a1[j] as int else 0)
    modifies out
    ensures out != null ==> forall j | 0 <= j < n :: out[j] == D[j]
    ensures out != null ==> out[n..] == old(out[n..])
    ensures borrow <= 1 && borrow == -C[n]
  {
    borrow := 0;
    var i := 0;
    while i < n
      invariant 0 <= i <= n
      invariant forall j | i <= j < n ::
        X[j] == (if j < w0 then a0[j] as int else 0) && Y[j] == (if j < w1 then a1[j] as int else 0)
      invariant out != null ==> forall j | 0 <= j < i :: out[j] == D[j]
      invariant out != null ==> out[n..] == old(out[n..])
      invariant borrow <= 1 && borrow == -C[i]
    {
      var t := (if i < w0 then a0[i] as int else 0) - (if i < w1 then a1[i] as int else 0) - borrow;
      BorrowStep(t, TWO_32, TWO_32, TWO_64);
      var z: u64 := t % TWO_64;
      assert D[i] == z % TWO_32 && C[i + 1] == -((z / TWO_32) % 2);
      out[i] := z % TWO_32;
      borrow := (z / TWO_32) % 2;
      i := i + 1;
    }
  }

  /** The loop of sub_constant and sub_and_resize_constant: as SubLimbs, with
      limb section i of k as the subtrahend's limb i. */
  method SubConstantLimbs(out: array?<limb>, n: nat, a0: array?<limb>, w0: nat, k: u64,
                          ghost X: seq<int>, ghost Y: seq<int>, ghost C: seq<int>, ghost D: seq<int>)
    returns (borrow: limb)
    requires (out == null ==> n == 0) && (out != null ==> n <= out.Length)
    requires (a0 == null ==> w0 == 0) && (a0 != null ==> w0 <= a0.Length)
    requires ChainSteps(X, Y, -1, TWO_32, C, D) && |D| == n
    requires forall j | 0 <= j < n ::
      X[j] == (if j < w0 then a0[j] as int else 0) && Y[j] == Section(k, 8, LIMB_BYTES, j)
    modifies out
    ensures out != null ==> forall j | 0 <= j < n :: out[j] == D[j]
    ensures out != null ==> out[n..] == old(out[n..])
    ensures borrow <= 1 && borrow == -C[n]
  {
    PowersOfTwo();
    borrow := 0;
    var i := 0;
    while i < n
      invariant 0 <= i <= n
      invariant forall j | i <= j < n :: X[j] == (if j < w0 then a0[j] as int else 0)
      invariant out != null ==> forall j | 0 <= j < i :: out[j] == D[j]
      invariant out != null ==> out[n..] == old(out[n..])
      invariant borrow <= 1 && borrow == -C[i]
    {
      var t := (if i < w0 then a0[i] as int else 0) - Section(k, 8, LIMB_BYTES, i) - borrow;
      BorrowStep(t, TWO_32, TWO_32, TWO_64);
      var z: u64 := t % TWO_64;
      assert D[i] == z % TWO_32 && C[i + 1] == -((z / TWO_32) % 2);
      out[i] := z % TWO_32;
      borrow := (z / TWO_32) % 2;
      i := i + 1;
    }
  }

  /** The borrowing loop over live operands: dst keeps its width w, and
      dst - borrow 2^(32 w) is the difference of the operands each cut to w
      limbs; the borrow is 0 or 1. */
  method SubBorrow(dst: VarWidth, rs0: VarWidth, rs1: VarWidth) returns (borrow: limb)
    requires dst.Valid() && rs0.Valid() && rs1.Valid()
    modifies dst.arr
    ensures dst.Valid() && dst.width == old(dst.width)
    ensures borrow <= 1
    ensures dst.Value() - borrow * Pow(TWO_32, dst.width) ==
            old(rs0.Value()) % Pow(TWO_32, dst.width) - old(rs1.Value()) % Pow(TWO_32, dst.width)
  {
    ghost var A, B := rs0.Limbs(), rs1.Limbs();
    ghost var X, Y := Pad(A, dst.width), Pad(B, dst.width);
    ghost var C, D := ChainOf(X, Y, -1, TWO_32);
    ChainAt(X, Y, -1, TWO_32, C, D);
    ReadsPadded(rs0, A, dst.width);
    ReadsPadded(rs1, B, dst.width);
    borrow := SubLimbs(dst.arr, dst.width, rs0.arr, rs0.width, rs1.arr, rs1.width, X, Y, C, D);
    assert dst.Limbs() == D;
    ValPad(B, dst.width, TWO_32);
    SumResult(X, Y, -1, TWO_32, C, D, A, Val(B, TWO_32));
    BorrowClose(Val(D, TWO_32), C[|D|], borrow as int, Val(A, TWO_32) % Pow(TWO_32, |D|),
                Val(B, TWO_32) % Pow(TWO_32, |D|), Pow(TWO_32, |D|));
  }

  /** As SubBorrow, with the 64-bit constant k as the subtrahend. */
  method SubConstantBorrow(dst: VarWidth, rs0: VarWidth, k: u64) returns (borrow: limb)
    requires dst.Valid() && rs0.Valid()
    modifies dst.arr
    ensures dst.Valid() && dst.width == old(dst.width)
    ensures borrow <= 1
    ensures dst.Value() - borrow * Pow(TWO_32, dst.width) ==
            old(rs0.Value()) % Pow(TWO_32, dst.width) - k % Pow(TWO_32, dst.width)
  {
    ghost var A := rs0.Limbs();
    ghost var X, Y := Pad(A, dst.width), Sections(k, 8, LIMB_BYTES, dst.width);
    ghost var C, D := ChainOf(X, Y, -1, TWO_32);
    ChainAt(X, Y, -1, TWO_32, C, D);
    ReadsPadded(rs0, A, dst.width);
    borrow := SubConstantLimbs(dst.arr, dst.width, rs0.arr, rs0.width, k, X, Y, C, D);
    assert dst.Limbs() == D;
    SectionsReassemble(k, dst.width, 4);
    LimbConstants();
    SumResult(X, Y, -1, TWO_32, C, D, A, k);
    BorrowClose(Val(D, TWO_32), C[|D|], borrow as int, Val(A, TWO_32) % Pow(TWO_32, |D|),
                k % Pow(TWO_32, |D|), Pow(TWO_32, |D|));
  }

  /** NOAHZK_variable_width_sub of the older tree, which is also the newer
      tree's sub with its borrow corrected: dst keeps its width and becomes
      (rs0 - rs1) mod 2^(32 dst.width). Either operand may be dst. */
  method Sub(dst: VarWidth, rs0: VarWidth, rs1: VarWidth)
    requires dst.Valid() && rs0.Valid() && rs1.Valid()
    modifies dst.arr
    ensures dst.Valid() && dst.width == old(dst.width)
    ensures dst.Value() == (old(rs0.Value()) - old(rs1.Value())) % Pow(TWO_32, dst.width)
  {
    ghost var a, b := rs0.Value(), rs1.Value();
    var borrow := SubBorrow(dst, rs0, rs1);
    ValueFits(dst);
    DiffClose(dst.Value(), borrow, a, b, Pow(TWO_32, dst.width));
  }

  /** NOAHZK_variable_width_sub_constant: dst keeps its width and becomes
      (rs0 - k) mod 2^(32 dst.width). */
  method SubConstant(dst: VarWidth, rs0: VarWidth, k: u64)
    requires dst.Valid() && rs0.Valid()
    modifies dst.arr
    ensures dst.Valid() && dst.width == old(dst.width)
    ensures dst.Value() == (old(rs0.Value()) - k) % Pow(TWO_32, dst.width)
  {
    ghost var a := rs0.Value();
    var borrow := SubConstantBorrow(dst, rs0, k);
    ValueFits(dst);
    DiffClose(dst.Value(), borrow, a, k, Pow(TWO_32, dst.width));
  }

  /** NOAHZK_variable_width_sub_and_resize with its borrow corrected: dst
      first grows to the wider of the operands (the larger width, whatever
      the comment before it says), then takes their difference modulo that
      width, which is exact when rs0 >= rs1. An operand whose buffer the
      realloc would free must not share dst's buffer unless it is dst. */
  method SubAndResize(dst: VarWidth, rs0: VarWidth, rs1: VarWidth)
    requires dst.Valid() && rs0.Valid() && rs1.Valid()
    requires dst.width < Max(rs0.width, rs1.width) ==>
      (rs0 == dst || rs0.arr == null || rs0.arr != dst.arr) &&
      (rs1 == dst || rs1.arr == null || rs1.arr != dst.arr)
    modifies dst, dst.arr
    ensures dst.Valid() && dst.width == Max(old(dst.width), Max(old(rs0.width), old(rs1.width)))
    ensures dst.Value() == (old(rs0.Value()) - old(rs1.Value())) % Pow(TWO_32, dst.width)
    ensures old(rs0.Value()) >= old(rs1.Value()) ==> dst.Value() == old(rs0.Value()) - old(rs1.Value())
  {
    ghost var a, b := rs0.Value(), rs1.Value();
    var largest := Max(rs0.width, rs1.width);
    WidenPair(dst, rs0, rs1, largest);
    var borrow := SubBorrow(dst, rs0, rs1);
    ValueFits(dst);
    ResizedDiff(dst.Value(), borrow, a, b, Pow(TWO_32, dst.width));
  }

  /** NOAHZK_variable_width_sub_and_resize_constant: as SubAndResize, with the
      64-bit constant k (two limbs wide) as the subtrahend. */
  method SubAndResizeConstant(dst: VarWidth, rs0: VarWidth, k: u64)
    requires dst.Valid() && rs0.Valid()
    requires dst.width < Max(rs0.width, BITS_IN_UINT64 / BITS_IN_LIMB) ==>
      rs0 == dst || rs0.arr == null || rs0.arr != dst.arr
    modifies dst, dst.arr
    ensures dst.Valid() && dst.width == Max(old(dst.width), Max(old(rs0.width), 2))
    ensures dst.Value() == (old(rs0.Value()) - k) % Pow(TWO_32, dst.width)
    ensures old(rs0.Value()) >= k ==> dst.Value() == old(rs0.Value()) - k
  {
    ghost var A := rs0.Limbs();
    var largest := Max(rs0.width, BITS_IN_UINT64 / BITS_IN_LIMB);
    Widen(dst, largest);
    WidenedOperand(rs0, A, dst.width);
    ConstantFitsTwoLimbs(k, dst.width);
    var borrow := SubConstantBorrow(dst, rs0, k);
    ValueFits(dst);
    ResizedDiff(dst.Value(), borrow, Val(A, TWO_32), k, Pow(TWO_32, dst.width));
  }

  // ------------------------------------------------------------ add_or_sub

  /** -op as a limb is 0 for OP_ADD and LIMB_MAX for OP_SUB, so rs1_limb ^ -op
      is rs1_limb or its complement LIMB_MAX - rs1_limb. */
  lemma XorMask(b: limb, op: limb)
    requires op == OP_ADD || op == OP_SUB
    ensures Xor(b as nat, (TWO_32 - op as int) % TWO_32) ==
      if op == OP_ADD then b as int else LIMB_MAX as int - b as int
  {
    if op == OP_ADD {
      XorZero(b as nat);
    } else {
      PowersOfTwo();
      XorAllOnes(b as nat, 32);
    }
  }

  /** cond-not: rs1_limb ^= -op, which keeps the limb for OP_ADD and
      complements it for OP_SUB. */
  method CondNot(b: limb, op: limb) returns (r: limb)
    requires op == OP_ADD || op == OP_SUB
    ensures r == if op == OP_ADD then b else LIMB_MAX - b
  {
    var mask: limb := (TWO_32 - op as int) % TWO_32;
    XorMask(b, op);
    r := Xor(b as nat, mask as nat);
  }

  /** The second operand after the conditional complement: s itself when op is
      0, limb by limb LIMB_MAX - s[j] otherwise. */
  function Flipped(s: seq<int>, op: int): (r: seq<int>)
    ensures |r| == |s|
    ensures forall j | 0 <= j < |s| :: r[j] == if op == 0 then s[j] else LIMB_MAX as int - s[j]
  {
    if op == 0 then s else Complement(s, TWO_32)
  }

  /** The op added into each of n limbs: at every limb, or only at the
      lowest. */
  function Addends(n: nat, op: int, everyLimb: bool): (r: seq<int>)
    ensures |r| == n && forall j | 0 <= j < n :: r[j] == if everyLimb || j == 0 then op else 0
  {
    seq(n, j => if everyLimb || j == 0 then op else 0)
  }

  /** s and t added limb by limb, without carrying. */
  function Plus(s: seq<int>, t: seq<int>): (r: seq<int>)
    requires |s| == |t|
    ensures |r| == |s| && forall j | 0 <= j < |s| :: r[j] == s[j] + t[j]
  {
    seq(|s|, j requires 0 <= j < |s| => s[j] + t[j])
  }

  /** The value of n limbs that are each 1: the sum of 2^(32 j) for j < n. */
  function RepUnit(n: nat): (r: nat)
  {
    if n == 0 then 0 else RepUnit(n - 1) + Pow(TWO_32, n - 1)
  }

  /** The complement of n limbs is 2^(32 n) - 1 minus their value. */
  lemma ValFlipped(s: seq<int>, op: int)
    ensures Val(Flipped(s, op), TWO_32) == if op == 0 then Val(s, TWO_32) else Pow(TWO_32, |s|) - 1 - Val(s, TWO_32)
  {
    ValComplement(s, TWO_32);
  }

  /** The addends are worth op RepUnit(n) when op goes into every limb, and op
      when it goes only into the lowest of n > 0 limbs. */
  lemma ValAddends(n: nat, op: int, everyLimb: bool)
    ensures Val(Addends(n, op, everyLimb), TWO_32) ==
      op * (if everyLimb then RepUnit(n) else if n > 0 then 1 else 0)
  {
    if everyLimb {
      ValEveryAddend(n, op);
    } else {
      ValFirstAddend(n, op, TWO_32);
    }
  }

  lemma {:induction false} ValEveryAddend(n: nat, op: int)
    ensures Val(Addends(n, op, true), TWO_32) == op * RepUnit(n)
    decreases n
  {
    if n > 0 {
      assert Addends(n, op, true)[..n - 1] == Addends(n - 1, op, true);
      ValEveryAddend(n - 1, op);
      assert op * RepUnit(n) == op * RepUnit(n - 1) + op * Pow(TWO_32, n - 1);
    }
  }

  /** Adding limb by limb adds the values. */
  lemma {:induction false} ValPlus(s: seq<int>, t: seq<int>)
    requires |s| == |t|
    ensures Val(Plus(s, t), TWO_32) == Val(s, TWO_32) + Val(t, TWO_32)
    decreases |s|
  {
    if |s| > 0 {
      var n := |s| - 1;
      assert Plus(s, t)[..n] == Plus(s[..n], t[..n]);
      ValPlus(s[..n], t[..n]);
      assert (s[n] + t[n]) * Pow(TWO_32, n) == s[n] * Pow(TWO_32, n) + t[n] * Pow(TWO_32, n);
    }
  }

  /** a mod p + e + (p - 1 - b mod p) is a - b + e - 1 modulo p. */
  lemma ComplementMod(a: int, b: int, e: int, p: int)
    requires p > 0
    ensures (a % p + e + (p - 1 - b % p)) % p == (a - b + e - 1) % p
  {
    var qa, qb := a / p, b / p;
    assert a == a % p + qa * p && b == b % p + qb * p;
    assert (1 - qa + qb) * p == p - qa * p + qb * p;
    ModAddMultiple(a - b + e - 1, 1 - qa + qb, p);
  }

  /** What add_or_sub leaves in w limbs, modulo 2^(32 w): a + b for op 0,
      and for op 1 a - b + e - 1, where e is what the op addends are worth
      (RepUnit(w) when op goes into every limb, 1 when only into the
      lowest). */
  function AddOrSubValue(a: int, b: int, w: nat, op: int, everyLimb: bool): int
  {
    (if op == 0 then a + b else a - b + (if everyLimb then RepUnit(w) else 1) - 1) % Pow(TWO_32, w)
  }

  /** What the add_or_sub chain over n limbs computes modulo p = 2^(32 n):
      a + b for OP_ADD, and for OP_SUB a - b + e - 1, where e is what the
      addends are worth (RepUnit(n) when op goes into every limb, 1 when only
      into the lowest). */
  lemma AddOrSubResult(x0: seq<int>, y0: seq<int>, a: int, b: int, op: int, everyLimb: bool,
                       c: seq<int>, d: seq<int>)
    requires op == 0 || op == 1
    requires |x0| == |d| && |y0| == |d|
    requires Val(x0, TWO_32) == a % Pow(TWO_32, |d|) && Val(y0, TWO_32) == b % Pow(TWO_32, |d|)
    requires Chain(Plus(x0, Addends(|d|, op, everyLimb)), Flipped(y0, op), 1, TWO_32, c, d)
    ensures Val(d, TWO_32) == AddOrSubValue(a, b, |d|, op, everyLimb)
  {
    var n, p := |d|, Pow(TWO_32, |d|);
    var x := Plus(x0, Addends(n, op, everyLimb));
    ChainResult(x, Flipped(y0, op), 1, TWO_32, c, d);
    ValPlus(x0, Addends(n, op, everyLimb));
    ValAddends(n, op, everyLimb);
    ValFlipped(y0, op);
    if op == 0 {
      ModLinear(a, b, 1, p);
    } else if n == 0 {
      assert p == 1;
    } else {
      ComplementMod(a, b, if everyLimb then RepUnit(n) else 1, p);
    }
  }

  /** The loop of add_or_sub: rs1 conditionally complemented by xor with -op,
      and op added into every limb (everyLimb, as written) or only into the
      lowest (as the subtraction a + ~b + 1 it implements needs). */
  method AddOrSubLimbs(out: array?<limb>, n: nat, a0: array?<limb>, w0: nat, a1: array?<limb>, w1: nat,
                       op: limb, everyLimb: bool,
                       ghost X: seq<int>, ghost Y: seq<int>, ghost C: seq<int>, ghost D: seq<int>)
    requires (out == null ==> n == 0) && (out != null ==> n <= out.Length)
    requires (a0 == null ==> w0 == 0) && (a0 != null ==> w0 <= a0.Length)
    requires (a1 == null ==> w1 == 0) && (a1 != null ==> w1 <= a1.Length)
    requires op == OP_ADD || op == OP_SUB
    requires ChainSteps(X, Y, 1, TWO_32, C, D) && |D| == n
    requires forall j | 0 <= j < n ::
      X[j] == (if j < w0 then a0[j] as int else 0) + (if everyLimb || j == 0 then op as int else 0)
    requires forall j | 0 <= j < n ::
      Y[j] == (if op == OP_ADD then (if j < w1 then a1[j] as int else 0)
               else LIMB_MAX as int - (if j < w1 then a1[j] as int else 0))
    modifies out
    ensures out != null ==> forall j | 0 <= j < n :: out[j] == D[j]
    ensures out != null ==> out[n..] == old(out[n..])
  {
    var borrow: limb := 0;
    var i := 0;
    while i < n
      invariant 0 <= i <= n
      invariant forall j | i <= j < n ::
        X[j] == (if j < w0 then a0[j] as int else 0) + (if everyLimb || j == 0 then op as int else 0)
      invariant forall j | i <= j < n ::
        Y[j] == (if op == OP_ADD then (if j < w1 then a1[j] as int else 0)
                 else LIMB_MAX as int - (if j < w1 then a1[j] as int else 0))
      invariant out != null ==> forall j | 0 <= j < i :: out[j] == D[j]
      invariant out != null ==> out[n..] == old(out[n..])
      invariant borrow <= 2 && borrow == C[i]
    {
      var b: limb := if i < w1 then a1[i] else 0;
      var rs1Limb := CondNot(b, op);
      var z: u64 := (if i < w0 then a0[i] else 0) as int + rs1Limb as int
        + (if everyLimb || i == 0 then op else 0) as int + borrow as int;
      assert D[i] == z % TWO_32 && C[i + 1] == z / TWO_32;
      out[i] := z % TWO_32;
      borrow := z / TWO_32;
      i := i + 1;
    }
  }

  /** The loop of add_or_sub_constant: as AddOrSubLimbs, with limb section i
      of k as rs1's limb i. */
  method AddOrSubConstantLimbs(out: array?<limb>, n: nat, a0: array?<limb>, w0: nat, k: u64,
                               op: limb, everyLimb: bool,
                               ghost X: seq<int>, ghost Y: seq<int>, ghost C: seq<int>, ghost D: seq<int>)
    requires (out == null ==> n == 0) && (out != null ==> n <= out.Length)
    requires (a0 == null ==> w0 == 0) && (a0 != null ==> w0 <= a0.Length)
    requires op == OP_ADD || op == OP_SUB
    requires ChainSteps(X, Y, 1, TWO_32, C, D) && |D| == n
    requires forall j | 0 <= j < n ::
      X[j] == (if j < w0 then a0[j] as int else 0) + (if everyLimb || j == 0 then op as int else 0)
    requires forall j | 0 <= j < n ::
      Y[j] == (if op == OP_ADD then Section(k, 8, LIMB_BYTES, j) else LIMB_MAX as int - Section(k, 8, LIMB_BYTES, j))
    modifies out
    ensures out != null ==> forall j | 0 <= j < n :: out[j] == D[j]
    ensures out != null ==> out[n..] == old(out[n..])
  {
    var borrow: limb := 0;
    var i := 0;
    while i < n
      invariant 0 <= i <= n
      invariant forall j | i <= j < n ::
        X[j] == (if j < w0 then a0[j] as int else 0) + (if everyLimb || j == 0 then op as int else 0)
      invariant out != null ==> forall j | 0 <= j < i :: out[j] == D[j]
      invariant out != null ==> out[n..] == old(out[n..])
      invariant borrow <= 2 && borrow == C[i]
    {
      assert Section(k, 8, LIMB_BYTES, i) < TWO_32 by { PowersOfTwo(); }
      var b: limb := Section(k, 8, LIMB_BYTES, i);
      var rs1Limb := CondNot(b, op);
      var z: u64 := (if i < w0 then a0[i] else 0) as int + rs1Limb as int
        + (if everyLimb || i == 0 then op else 0) as int + borrow as int;
      assert D[i] == z % TWO_32 && C[i + 1] == z / TWO_32;
      out[i] := z % TWO_32;
      borrow := z / TWO_32;
      i := i + 1;
    }
  }

  /** The chain that add_or_sub over w limbs runs, and what it computes. */
  lemma AddOrSubOperands(rs0: VarWidth, rs1: VarWidth, w: nat, op: limb, everyLimb: bool)
    returns (X: seq<int>, Y: seq<int>, C: seq<int>, D: seq<int>)
    requires rs0.Valid() && rs1.Valid()
    requires op == OP_ADD || op == OP_SUB
    ensures ChainSteps(X, Y, 1, TWO_32, C, D) && |D| == w
    ensures forall j | 0 <= j < w ::
      X[j] == (if j < rs0.width then rs0.arr[j] as int else 0) + (if everyLimb || j == 0 then op as int else 0)
    ensures forall j | 0 <= j < w ::
      Y[j] == (if op == OP_ADD then (if j < rs1.width then rs1.arr[j] as int else 0)
               else LIMB_MAX as int - (if j < rs1.width then rs1.arr[j] as int else 0))
    ensures Val(D, TWO_32) == AddOrSubValue(rs0.Value(), rs1.Value(), w, op as int, everyLimb)
  {
    var A, B := rs0.Limbs(), rs1.Limbs();
    var x0, y0 := Pad(A, w), Pad(B, w);
    X, Y := Plus(x0, Addends(w, op as int, everyLimb)), Flipped(y0, op as int);
    C, D := ChainOf(X, Y, 1, TWO_32);
    ChainAt(X, Y, 1, TWO_32, C, D);
    ReadsPadded(rs0, A, w);
    ReadsPadded(rs1, B, w);
    ValPad(A, w, TWO_32);
    ValPad(B, w, TWO_32);
    AddOrSubResult(x0, y0, Val(A, TWO_32), Val(B, TWO_32), op as int, everyLimb, C, D);
  }

  /** As AddOrSubOperands, with the 64-bit constant k as rs1. */
  lemma AddOrSubConstantOperands(rs0: VarWidth, k: u64, w: nat, op: limb, everyLimb: bool)
    returns (X: seq<int>, Y: seq<int>, C: seq<int>, D: seq<int>)
    requires rs0.Valid()
    requires op == OP_ADD || op == OP_SUB
    ensures ChainSteps(X, Y, 1, TWO_32, C, D) && |D| == w
    ensures forall j | 0 <= j < w ::
      X[j] == (if j < rs0.width then rs0.arr[j] as int else 0) + (if everyLimb || j == 0 then op as int else 0)
    ensures forall j | 0 <= j < w ::
      Y[j] == (if op == OP_ADD then Section(k, 8, LIMB_BYTES, j) else LIMB_MAX as int - Section(k, 8, LIMB_BYTES, j))
    ensures Val(D, TWO_32) == AddOrSubValue(rs0.Value(), k, w, op as int, everyLimb)
  {
    var A := rs0.Limbs();
    var x0, y0 := Pad(A, w), Sections(k, 8, LIMB_BYTES, w);
    X, Y := Plus(x0, Addends(w, op as int, everyLimb)), Flipped(y0, op as int);
    C, D := ChainOf(X, Y, 1, TWO_32);
    ChainAt(X, Y, 1, TWO_32, C, D);
    ReadsPadded(rs0, A, w);
    ValPad(A, w, TWO_32);
    SectionsReassemble(k, w, 4);
    LimbConstants();
    AddOrSubResult(x0, y0, Val(A, TWO_32), k, op as int, everyLimb, C, D);
  }

  /** add_or_sub over live operands, with op going into every limb or only the
      lowest: dst keeps its width w and becomes rs0 + rs1 for OP_ADD and
      rs0 - rs1 + e - 1 for OP_SUB, modulo 2^(32 w), where e is RepUnit(w) or 1. */
  method AddOrSubInto(dst: VarWidth, rs0: VarWidth, rs1: VarWidth, op: limb, everyLimb: bool)
    requires dst.Valid() && rs0.Valid() && rs1.Valid()
    requires op == OP_ADD || op == OP_SUB
    modifies dst.arr
    ensures dst.Valid() && dst.width == old(dst.width)
    ensures dst.Value() == AddOrSubValue(old(rs0.Value()), old(rs1.Value()), dst.width, op as int, everyLimb)
  {
    ghost var X, Y, C, D := AddOrSubOperands(rs0, rs1, dst.width, op, everyLimb);
    AddOrSubLimbs(dst.arr, dst.width, rs0.arr, rs0.width, rs1.arr, rs1.width, op, everyLimb, X, Y, C, D);
    assert dst.Limbs() == D;
  }

  /** add_or_sub_constant over a live operand: as AddOrSubInto, with the
      64-bit constant k as rs1. */
  method AddOrSubConstantInto(dst: VarWidth, rs0: VarWidth, k: u64, op: limb, everyLimb: bool)
    requires dst.Valid() && rs0.Valid()
    requires op == OP_ADD || op == OP_SUB
    modifies dst.arr
    ensures dst.Valid() && dst.width == old(dst.width)
    ensures dst.Value() == AddOrSubValue(old(rs0.Value()), k, dst.width, op as int, everyLimb)
  {
    ghost var X, Y, C, D := AddOrSubConstantOperands(rs0, k, dst.width, op, everyLimb);
    AddOrSubConstantLimbs(dst.arr, dst.width, rs0.arr, rs0.width, k, op, everyLimb, X, Y, C, D);
    assert dst.Limbs() == D;
  }

  /** NOAHZK_variable_width_add_or_sub as written: op is added into every
      limb, so OP_SUB leaves rs0 - rs1 + RepUnit(w) - 1 modulo 2^(32 w), which
      is the difference only for w <= 1. */
  method AddOrSub(dst: VarWidth, rs0: VarWidth, rs1: VarWidth, op: limb)
    requires dst.Valid() && rs0.Valid() && rs1.Valid()
    requires op == OP_ADD || op == OP_SUB
    modifies dst.arr
    ensures dst.Valid() && dst.width == old(dst.width)
    ensures dst.Value() ==
      (if op == OP_ADD then old(rs0.Value()) + old(rs1.Value())
       else old(rs0.Value()) - old(rs1.Value()) + RepUnit(dst.width) - 1) % Pow(TWO_32, dst.width)
  {
    AddOrSubInto(dst, rs0, rs1, op, true);
  }

  /** NOAHZK_variable_width_add_or_sub_constant as written: as AddOrSub, with
      the 64-bit constant k as rs1. */
  method AddOrSubConstant(dst: VarWidth, rs0: VarWidth, k: u64, op: limb)
    requires dst.Valid() && rs0.Valid()
    requires op == OP_ADD || op == OP_SUB
    modifies dst.arr
    ensures dst.Valid() && dst.width == old(dst.width)
    ensures dst.Value() ==
      (if op == OP_ADD then old(rs0.Value()) + k
       else old(rs0.Value()) - k + RepUnit(dst.width) - 1) % Pow(TWO_32, dst.width)
  {
    AddOrSubConstantInto(dst, rs0, k, op, true);
  }

  /** add_or_sub with op added only into the lowest limb, as a + ~b + 1
      needs: dst becomes (rs0 + rs1) or (rs0 - rs1) modulo 2^(32 w). */
  method AddOrSubFixed(dst: VarWidth, rs0: VarWidth, rs1: VarWidth, op: limb)
    requires dst.Valid() && rs0.Valid() && rs1.Valid()
    requires op == OP_ADD || op == OP_SUB
    modifies dst.arr
    ensures dst.Valid() && dst.width == old(dst.width)
    ensures dst.Value() ==
      (if op == OP_ADD then old(rs0.Value()) + old(rs1.Value()) else old(rs0.Value()) - old(rs1.Value()))
      % Pow(TWO_32, dst.width)
  {
    AddOrSubInto(dst, rs0, rs1, op, false);
  }

  /** add_or_sub_constant with op added only into the lowest limb. */
  method AddOrSubConstantFixed(dst: VarWidth, rs0: VarWidth, k: u64, op: limb)
    requires dst.Valid() && rs0.Valid()
    requires op == OP_ADD || op == OP_SUB
    modifies dst.arr
    ensures dst.Valid() && dst.width == old(dst.width)
    ensures dst.Value() ==
      (if op == OP_ADD then old(rs0.Value()) + k else old(rs0.Value()) - k) % Pow(TWO_32, dst.width)
  {
    AddOrSubConstantInto(dst, rs0, k, op, false);
  }

  /** The error of add_or_sub as written is RepUnit(w) - 1, which is 0 for
      widths 0 and 1 and 2^32 or more from width 2 on, where it is below
      2^(32 w) and so never cancels. */
  lemma {:induction false} AddOrSubError(w: nat)
    ensures w <= 1 ==> (RepUnit(w) - 1) % Pow(TWO_32, w) == 0
    ensures w >= 2 ==> TWO_32 <= RepUnit(w) - 1 < Pow(TWO_32, w)
    decreases w
  {
    if w >= 2 {
      RepUnitBelow(w - 1);
      assert RepUnit(w) == RepUnit(w - 1) + Pow(TWO_32, w - 1);
      assert Pow(TWO_32, w) == TWO_32 * Pow(TWO_32, w - 1);
      PowMonotone(TWO_32, 1, w - 1);
      assert RepUnit(1) == 1;
      if w > 2 { RepUnitAtLeast(w - 1); }
    } else if w == 1 {
      assert RepUnit(1) == 1;
    } else {
      assert Pow(TWO_32, 0) == 1;
    }
  }

  lemma {:induction false} RepUnitBelow(n: nat)
    ensures RepUnit(n) <= Pow(TWO_32, n)
    decreases n
  {
    if n > 0 {
      RepUnitBelow(n - 1);
      assert Pow(TWO_32, n) == TWO_32 * Pow(TWO_32, n - 1);
    }
  }

  lemma {:induction false} RepUnitAtLeast(n: nat)
    requires n >= 1
    ensures RepUnit(n) >= 1
    decreases n
  {
    if n > 1 { RepUnitAtLeast(n - 1); } else { assert Pow(TWO_32, 0) == 1; }
  }

  /** add_or_sub as written, subtracting 3 from 5 in two limbs: the result is
      2 + 2^32 instead of 2. */
  lemma AddOrSubCounterexample()
    ensures (5 - 3 + RepUnit(2) - 1) % Pow(TWO_32, 2) == 2 + TWO_32
    ensures (5 - 3) % Pow(TWO_32, 2) == 2
  {
    assert Pow(TWO_32, 0) == 1 && Pow(TWO_32, 1) == TWO_32 && Pow(TWO_32, 2) == TWO_64;
    assert RepUnit(2) == 1 + TWO_32;
    ModUnique(2 + TWO_32, 2 + TWO_32, 0, TWO_64);
    ModUnique(2, 2, 0, TWO_64);
  }

  // ------------------------------------------- the newer tree's sub, as written

  /** The newer tree's sub loop as written, one flat step per limb: z = a - b
      + r[j] in 64 bits, limb d[j] = z & LIMB_MAX, register r[j + 1] = z >> 32
      with no & 1, so a borrow is carried as LIMB_MAX rather than 1 and is
      re-added instead of subtracted. Given x and y, the steps fix d. */
  ghost predicate WrittenStep(x: seq<int>, y: seq<int>, r: seq<int>, d: seq<int>, j: nat)
    requires j < |x| && j < |y| && j + 1 < |r| && j < |d|
  {
    d[j] == ((x[j] - y[j] + r[j]) % TWO_64) % TWO_32 && r[j + 1] == ((x[j] - y[j] + r[j]) % TWO_64) / TWO_32
  }

  ghost predicate WrittenSteps(x: seq<int>, y: seq<int>, r: seq<int>, d: seq<int>)
  {
    |x| == |d| && |y| == |d| && |r| == |d| + 1 && r[0] == 0 &&
    forall j | 0 <= j < |d| :: WrittenStep(x, y, r, d, j)
  }

  /** The registers and limbs of WrittenSteps exist for operands of equal
      length. */
  lemma WrittenOf(x: seq<int>, y: seq<int>) returns (r: seq<int>, d: seq<int>)
    requires |x| == |y|
    ensures WrittenSteps(x, y, r, d)
  {
    r, d := [0], [];
    while |d| < |x|
      invariant |d| <= |x| && |r| == |d| + 1 && r[0] == 0
      invariant forall j | 0 <= j < |d| :: WrittenStep(x, y, r, d, j)
      decreases |x| - |d|
    {
      var j := |d|;
      var z := (x[j] - y[j] + r[j]) % TWO_64;
      var d', r' := d + [z % TWO_32], r + [z / TWO_32];
      forall k | 0 <= k < |d'| ensures WrittenStep(x, y, r', d', k) {
        if k < j {
          assert WrittenStep(x, y, r, d, k);
          assert d'[k] == d[k] && r'[k] == r[k] && r'[k + 1] == r[k + 1];
        }
      }
      d, r := d', r';
    }
  }

  /** The loop of the newer tree's sub and sub_and_resize as written: limb j
      of out becomes d[j] of WrittenSteps over the operands' limbs. */
  method SubWrittenLimbs(out: array?<limb>, n: nat, a0: array?<limb>, w0: nat, a1: array?<limb>, w1: nat,
                         ghost X: seq<int>, ghost Y: seq<int>, ghost R: seq<int>, ghost D: seq<int>)
    requires (out == null ==> n == 0) && (out != null ==> n <= out.Length)
    requires (a0 == null ==> w0 == 0) && (a0 != null ==> w0 <= a0.Length)
    requires (a1 == null ==> w1 == 0) && (a1 != null ==> w1 <= a1.Length)
    requires WrittenSteps(X, Y, R, D) && |D| == n
    requires forall j | 0 <= j < n ::
      X[j] == (if j < w0 then a0[j] as int else 0) && Y[j] == (if j < w1 then a1[j] as int else 0)
    modifies out
    ensures out != null ==> out[..n] == D
    ensures out != null ==> out[n..] == old(out[n..])
  {
    var borrow: limb := 0;
    var i := 0;
    while i < n
      invariant 0 <= i <= n
      invariant forall j | i <= j < n ::
        X[j] == (if j < w0 then a0[j] as int else 0) && Y[j] == (if j < w1 then a1[j] as int else 0)
      invariant out != null ==> forall j | 0 <= j < i :: out[j] == D[j]
      invariant out != null ==> out[n..] == old(out[n..])
      invariant borrow == R[i]
    {
      var t := (if i < w0 then a0[i] as int else 0) - (if i < w1 then a1[i] as int else 0) + borrow;
      var z: u64 := t % TWO_64;
      assert WrittenStep(X, Y, R, D, i);
      assert D[i] == z % TWO_32 && R[i + 1] == z / TWO_32;
      out[i] := z % TWO_32;
      borrow := z / TWO_32;
      i := i + 1;
    }
    if out != null {
      assert out[..n] == D;
    }
  }

  /** NOAHZK_variable_width_sub of the newer tree as written: dst keeps its
      width and its limbs become the d of WrittenSteps over the operands cut
      or padded to that width; R is the sequence of borrow registers. */
  method SubAsWritten(dst: VarWidth, rs0: VarWidth, rs1: VarWidth) returns (ghost R: seq<int>)
    requires dst.Valid() && rs0.Valid() && rs1.Valid()
    modifies dst.arr
    ensures dst.Valid() && dst.width == old(dst.width)
    ensures WrittenSteps(Pad(old(rs0.Limbs()), dst.width), Pad(old(rs1.Limbs()), dst.width), R, dst.Limbs())
  {
    ghost var A, B := rs0.Limbs(), rs1.Limbs();
    ghost var X, Y := Pad(A, dst.width), Pad(B, dst.width);
    ghost var D;
    R, D := WrittenOf(X, Y);
    ReadsPadded(rs0, A, dst.width);
    ReadsPadded(rs1, B, dst.width);
    SubWrittenLimbs(dst.arr, dst.width, rs0.arr, rs0.width, rs1.arr, rs1.width, X, Y, R, D);
    assert dst.Limbs() == D;
  }

  /** NOAHZK_variable_width_sub_and_resize of the newer tree as written: the
      resize of SubAndResize followed by the loop of SubAsWritten. */
  method SubAndResizeAsWritten(dst: VarWidth, rs0: VarWidth, rs1: VarWidth) returns (ghost R: seq<int>)
    requires dst.Valid() && rs0.Valid() && rs1.Valid()
    requires dst.width < Max(rs0.width, rs1.width) ==>
      (rs0 == dst || rs0.arr == null || rs0.arr != dst.arr) &&
      (rs1 == dst || rs1.arr == null || rs1.arr != dst.arr)
    modifies dst, dst.arr
    ensures dst.Valid() && dst.width == Max(old(dst.width), Max(old(rs0.width), old(rs1.width)))
    ensures WrittenSteps(Pad(old(rs0.Limbs()), dst.width), Pad(old(rs1.Limbs()), dst.width), R, dst.Limbs())
  {
    ghost var A, B := rs0.Limbs(), rs1.Limbs();
    var largest := Max(rs0.width, rs1.width);
    WidenPair(dst, rs0, rs1, largest);
    ghost var X, Y := Pad(A, dst.width), Pad(B, dst.width);
    ghost var D;
    R, D := WrittenOf(X, Y);
    ReadsPadded(rs0, A, dst.width);
    ReadsPadded(rs1, B, dst.width);
    SubWrittenLimbs(dst.arr, dst.width, rs0.arr, rs0.width, rs1.arr, rs1.width, X, Y, R, D);
    assert dst.Limbs() == D;
  }

  /** The value of a three-digit sequence. */
  lemma ValThree(d0: int, d1: int, d2: int, b: int)
    ensures Val([d0, d1, d2], b) == d0 + d1 * b + d2 * (b * b)
  {
    assert [d0, d1, d2] == [d0, d1] + [d2] && [d0, d1] == [d0] + [d1] && [d0] == [] + [d0];
    ValSnoc([], d0, b);
    ValSnoc([d0], d1, b);
    ValSnoc([d0, d1], d2, b);
    assert Pow(b, 0) == 1 && Pow(b, 1) == b && Pow(b, 2) == b * b;
  }

  /** The newer tree's sub as written: [0, 1, 0] - [1, 0, 0] (2^32 - 1) gives
      [LIMB_MAX, 0, 1], which is 2^64 too much: the borrow out of limb 0
      comes back as a carry into limb 2. */
  lemma SubBorrowCounterexample(r: seq<int>, d: seq<int>)
    requires WrittenSteps([0, 1, 0], [1, 0, 0], r, d)
    ensures d == [LIMB_MAX as int, 0, 1]
    ensures Val(d, TWO_32) == (Val([0, 1, 0], TWO_32) - Val([1, 0, 0], TWO_32)) % Pow(TWO_32, 3) + TWO_64
  {
    var x, y := [0, 1, 0], [1, 0, 0];
    assert WrittenStep(x, y, r, d, 0) && WrittenStep(x, y, r, d, 1) && WrittenStep(x, y, r, d, 2);
    assert d[0] == ((0 - 1 + 0) % TWO_64) % TWO_32 && r[1] == ((0 - 1 + 0) % TWO_64) / TWO_32;
    assert (0 - 1 + 0) % TWO_64 == TWO_64 - 1;
    assert d[0] == LIMB_MAX as int && r[1] == LIMB_MAX as int;
    assert d[1] == ((1 - 0 + r[1]) % TWO_64) % TWO_32 && r[2] == ((1 - 0 + r[1]) % TWO_64) / TWO_32;
    assert d[1] == 0 && r[2] == 1;
    assert d[2] == ((0 - 0 + r[2]) % TWO_64) % TWO_32;
    assert d == [LIMB_MAX as int, 0, 1];
    ValThree(LIMB_MAX as int, 0, 1, TWO_32);
    ValThree(0, 1, 0, TWO_32);
    ValThree(1, 0, 0, TWO_32);
    assert Pow(TWO_32, 3) == TWO_64 * TWO_32;
    ModUnique(TWO_32 - 1, TWO_32 - 1, 0, TWO_64 * TWO_32);
  }

  /** sub_and_resize of the newer tree as written, on three-limb operands
      holding [0, 1, 0] and [1, 0, 0]: dst reads [LIMB_MAX, 0, 1], 2^64 more
      than the difference 2^32 - 1. */
  method SubAndResizeCounterexample() returns (v: nat)
    ensures v == (Val([0, 1, 0], TWO_32) - Val([1, 0, 0], TWO_32)) % Pow(TWO_32, 3) + TWO_64
  {
    var d := Init(null, 12);
    var x := Init(null, 12);
    var y := Init(null, 12);
    x.arr[1] := 1;
    y.arr[0] := 1;
    assert x.Limbs() == [0, 1, 0] && y.Limbs() == [1, 0, 0];
    assert Pad([0, 1, 0], 3) == [0, 1, 0] && Pad([1, 0, 0], 3) == [1, 0, 0];
    ghost var R := SubAndResizeAsWritten(d, x, y);
    SubBorrowCounterexample(R, d.Limbs());
    v := d.Value();
  }

  // ------------------------------------------------------------ byte subs

  /** The loop of sub_byte and both_sub_byte: z = a - b - borrow in 16 bits,
      byte z & UINT8_MAX, borrow z >> 8 & 1 (see BorrowStep). */
  method SubByteChain(dst: array<byte>, rs0: array<byte>, rs1: array<byte>, width0: nat, width1: nat, widthResult: nat,
                      ghost X: seq<int>, ghost Y: seq<int>, ghost C: seq<int>, ghost D: seq<int>)
    requires widthResult <= dst.Length && width0 <= rs0.Length && width1 <= rs1.Length
    requires ChainSteps(X, Y, -1, 256, C, D) && |D| == widthResult
    requires forall j | 0 <= j < widthResult ::
      X[j] == (if j < width0 then rs0[j] as int else 0) && Y[j] == (if j < width1 then rs1[j] as int else 0)
    modifies dst
    ensures dst[..widthResult] == D
    ensures dst[widthResult..] == old(dst[widthResult..])
  {
    var borrow: byte := 0;
    var i := 0;
    while i < widthResult
      invariant 0 <= i <= widthResult
      invariant forall j | i <= j < widthResult ::
        X[j] == (if j < width0 then rs0[j] as int else 0) && Y[j] == (if j < width1 then rs1[j] as int else 0)
      invariant forall j | 0 <= j < i :: dst[j] == D[j]
      invariant borrow <= 1 && borrow == -C[i]
      invariant dst[widthResult..] == old(dst[widthResult..])
    {
      var t := (if i < width0 then rs0[i] as int else 0) - (if i < width1 then rs1[i] as int else 0) - borrow;
      BorrowStep(t, 256, 256, TWO_16);
      var z: u16 := t % TWO_16;
      assert D[i] == z % 256 && C[i + 1] == -((z / 256) % 2);
      dst[i] := z % 256;
      borrow := (z / 256) % 2;
      i := i + 1;
    }
  }

  /** The loop of sub_constant_byte: as SubByteChain, with byte section i of
      k as the subtrahend's byte i. */
  method SubConstantByteChain(dst: array<byte>, rs0: array<byte>, k: u64, width: nat,
                              ghost X: seq<int>, ghost Y: seq<int>, ghost C: seq<int>, ghost D: seq<int>)
    requires width <= dst.Length && width <= rs0.Length
    requires ChainSteps(X, Y, -1, 256, C, D) && |D| == width
    requires forall j | 0 <= j < width :: X[j] == rs0[j] as int && Y[j] == Section(k, 8, 1, j)
    modifies dst
    ensures dst[..width] == D
    ensures dst[width..] == old(dst[width..])
  {
    var borrow: byte := 0;
    var i := 0;
    while i < width
      invariant 0 <= i <= width
      invariant forall j | i <= j < width :: X[j] == rs0[j] as int
      invariant forall j | 0 <= j < i :: dst[j] == D[j]
      invariant borrow <= 1 && borrow == -C[i]
      invariant dst[width..] == old(dst[width..])
    {
      assert Section(k, 8, 1, i) < 256 by { PowersOfTwo(); }
      var t := rs0[i] as int - Section(k, 8, 1, i) - borrow;
      BorrowStep(t, 256, 256, TWO_16);
      var z: u16 := t % TWO_16;
      assert D[i] == z % 256 && C[i + 1] == -((z / 256) % 2);
      dst[i] := z % 256;
      borrow := (z / 256) % 2;
      i := i + 1;
    }
  }

  /** NOAHZK_variable_width_both_sub_byte: the widthResult bytes of dst become
      (rs0 - rs1) mod 256^widthResult, reading rs0 past width0 and rs1 past
      width1 as 0; the bytes past widthResult are untouched. Either operand
      may be dst itself. */
  method BothSubByte(dst: array<byte>, rs0: array<byte>, rs1: array<byte>, width0: nat, width1: nat, widthResult: nat)
    requires widthResult <= dst.Length && width0 <= rs0.Length && width1 <= rs1.Length
    modifies dst
    ensures Val(dst[..widthResult], 256) ==
      (Val(old(rs0[..width0]), 256) - Val(old(rs1[..width1]), 256)) % Pow(256, widthResult)
    ensures dst[widthResult..] == old(dst[widthResult..])
  {
    ghost var A, B := rs0[..width0], rs1[..width1];
    ghost var X, Y := Pad(A, widthResult), Pad(B, widthResult);
    ghost var C, D := ChainOf(X, Y, -1, 256);
    ChainAt(X, Y, -1, 256, C, D);
    PaddedBytes(rs0, width0, A, widthResult);
    PaddedBytes(rs1, width1, B, widthResult);
    SubByteChain(dst, rs0, rs1, width0, width1, widthResult, X, Y, C, D);
    ValPad(B, widthResult, 256);
    SumResult(X, Y, -1, 256, C, D, A, Val(B, 256));
  }

  /** NOAHZK_variable_width_sub_byte: the loop of both_sub_byte with all three
      widths equal: the width bytes of dst become (rs0 - rs1) mod 256^width,
      which is exact when rs0 >= rs1. */
  method SubByte(dst: array<byte>, rs0: array<byte>, rs1: array<byte>, width: nat)
    requires width <= dst.Length && width <= rs0.Length && width <= rs1.Length
    modifies dst
    ensures Val(dst[..width], 256) == (Val(old(rs0[..width]), 256) - Val(old(rs1[..width]), 256)) % Pow(256, width)
    ensures Val(old(rs0[..width]), 256) >= Val(old(rs1[..width]), 256) ==>
      Val(dst[..width], 256) == Val(old(rs0[..width]), 256) - Val(old(rs1[..width]), 256)
    ensures dst[width..] == old(dst[width..])
  {
    ghost var A, B := rs0[..width], rs1[..width];
    BothSubByte(dst, rs0, rs1, width, width, width);
    ValBounds(A, 256);
    ValBounds(B, 256);
    if Val(A, 256) >= Val(B, 256) {
      DiffFits(Val(A, 256), Val(B, 256), Pow(256, width));
    }
  }

  /** NOAHZK_variable_width_sub_constant_byte: the width bytes of dst become
      (rs0 - k) mod 256^width, k's byte i being byte section i of k. */
  method SubConstantByte(dst: array<byte>, rs0: array<byte>, k: u64, width: nat)
    requires width <= dst.Length && width <= rs0.Length
    modifies dst
    ensures Val(dst[..width], 256) == (Val(old(rs0[..width]), 256) - k) % Pow(256, width)
    ensures dst[width..] == old(dst[width..])
  {
    ghost var A := rs0[..width];
    ghost var X, Y, C, D := SubConstantByteOperands(rs0, k, width, A);
    SubConstantByteChain(dst, rs0, k, width, X, Y, C, D);
  }

  /** The chain of sub_constant_byte over rs0's bytes and k's byte sections,
      and what it computes. */
  lemma SubConstantByteOperands(rs0: array<byte>, k: u64, width: nat, A: seq<byte>)
    returns (X: seq<int>, Y: seq<int>, C: seq<int>, D: seq<int>)
    requires width <= rs0.Length && A == rs0[..width]
    ensures ChainSteps(X, Y, -1, 256, C, D) && |D| == width
    ensures forall j | 0 <= j < width :: X[j] == rs0[j] as int && Y[j] == Section(k, 8, 1, j)
    ensures Val(D, 256) == (Val(A, 256) - k) % Pow(256, width)
  {
    X, Y := A, Sections(k, 8, 1, width);
    C, D := ChainOf(X, Y, -1, 256);
    SectionsReassemble(k, width, 1);
    assert Pow(256, 1) == 256;
    assert Pad(A, width) == A;
    SumResult(X, Y, -1, 256, C, D, A, k);
    ChainAt(X, Y, -1, 256, C, D);
  }

  // ------------------------------------------------------------ negation

  /** The two's-complement negation loop with the complement taken in 8 bits,
      as the routine means it: z = (UINT8_MAX - src[i]) + carry, carry
      starting at 1. */
  method NegByteFixed(dst: array<byte>, src: array<byte>, width: nat)
    requires width <= dst.Length && width <= src.Length
    modifies dst
    ensures Val(dst[..width], 256) == (-Val(old(src[..width]), 256)) % Pow(256, width)
    ensures dst[width..] == old(dst[width..])
  {
    ghost var S := src[..width];
    ghost var X, Y := Complement(S, 256), Addends(width, 1, false);
    ghost var C, D := ChainOf(X, Y, 1, 256);
    ChainAt(X, Y, 1, 256, C, D);
    var carry: byte := 1;
    var i := 0;
    while i < width
      invariant 0 <= i <= width
      invariant forall j | i <= j < width :: S[j] == src[j] as int
      invariant forall j | 0 <= j < i :: dst[j] == D[j]
      invariant carry as int == C[i] + (if i == 0 then 1 else 0)
      invariant dst[width..] == old(dst[width..])
    {
      var z: u16 := (255 - src[i]) + carry;
      assert D[i] == z % 256 && C[i + 1] == z / 256;
      dst[i] := z % 256;
      carry := z / 256;
      i := i + 1;
    }
    assert dst[..width] == D;
    NegClose(S, C, D);
  }

  /** The value of the negation chain: ~s + 1 == -s modulo 256^n. */
  lemma NegClose(S: seq<int>, C: seq<int>, D: seq<int>)
    requires |S| == |D| && Chain(Complement(S, 256), Addends(|S|, 1, false), 1, 256, C, D)
    ensures Val(D, 256) == (-Val(S, 256)) % Pow(256, |S|)
  {
    var n, p := |S|, Pow(256, |S|);
    ChainResult(Complement(S, 256), Addends(n, 1, false), 1, 256, C, D);
    ValComplement(S, 256);
    ValFirstAddend(n, 1, 256);
    if n > 0 {
      assert Val(Complement(S, 256), 256) + 1 * Val(Addends(n, 1, false), 256) == -Val(S, 256) + 1 * p;
      ModAddMultiple(-Val(S, 256), 1, p);
    } else {
      assert p == 1;
    }
  }

  /** op going only into the lowest of n > 0 digits is worth op. */
  lemma {:induction false} ValFirstAddend(n: nat, op: int, b: int)
    ensures Val(Addends(n, op, false), b) == if n > 0 then op else 0
    decreases n
  {
    if n > 0 {
      assert Addends(n, op, false)[..n - 1] == Addends(n - 1, op, false);
      ValFirstAddend(n - 1, op, b);
      if n == 1 {
        assert Pow(b, 0) == 1;
      }
    }
  }

  /** neg_byte as written, one flat step per byte: (uint16_t)~src[i] is
      0xFF00 + (UINT8_MAX - s[j]), so z = 0xFFFF - s[j] + r[j] in 16 bits,
      byte d[j] = z & UINT8_MAX and register r[j + 1] = z >> 8, starting from
      r[0] == 1. */
  ghost predicate NegStep(s: seq<int>, r: seq<int>, d: seq<int>, j: nat)
    requires j < |s| && j + 1 < |r| && j < |d|
  {
    d[j] == ((0xFFFF - s[j] + r[j]) % TWO_16) % 256 && r[j + 1] == ((0xFFFF - s[j] + r[j]) % TWO_16) / 256
  }

  ghost predicate NegSteps(s: seq<int>, r: seq<int>, d: seq<int>)
  {
    |s| == |d| && |r| == |d| + 1 && r[0] == 1 &&
    forall j | 0 <= j < |d| :: NegStep(s, r, d, j)
  }

  /** The registers and bytes of NegSteps exist for every source. */
  lemma NegOf(s: seq<int>) returns (r: seq<int>, d: seq<int>)
    ensures NegSteps(s, r, d)
  {
    r, d := [1], [];
    while |d| < |s|
      invariant |d| <= |s| && |r| == |d| + 1 && r[0] == 1
      invariant forall j | 0 <= j < |d| :: NegStep(s, r, d, j)
      decreases |s| - |d|
    {
      var j := |d|;
      var z := (0xFFFF - s[j] + r[j]) % TWO_16;
      var d', r' := d + [z % 256], r + [z / 256];
      forall i | 0 <= i < |d'| ensures NegStep(s, r', d', i) {
        if i < j {
          assert NegStep(s, r, d, i);
          assert d'[i] == d[i] && r'[i] == r[i] && r'[i + 1] == r[i + 1];
        }
      }
      d, r := d', r';
    }
  }

  /** NOAHZK_variable_width_neg_byte as written (both trees): the width bytes
      of dst become the d of NegSteps over src, R being the carry registers.
      dst may be src. */
  method NegByte(dst: array<byte>, src: array<byte>, width: nat) returns (ghost R: seq<int>)
    requires width <= dst.Length && width <= src.Length
    modifies dst
    ensures NegSteps(old(src[..width]), R, dst[..width])
    ensures dst[width..] == old(dst[width..])
  {
    ghost var S := src[..width];
    ghost var D;
    R, D := NegOf(S);
    var carry: byte := 1;
    var i := 0;
    while i < width
      invariant 0 <= i <= width
      invariant forall j | i <= j < width :: S[j] == src[j] as int
      invariant forall j | 0 <= j < i :: dst[j] == D[j]
      invariant carry as int == R[i]
      invariant dst[width..] == old(dst[width..])
    {
      var z: u16 := (0xFFFF - src[i] + carry) % TWO_16;
      assert NegStep(S, R, D, i);
      dst[i] := z % 256;
      carry := z / 256;
      i := i + 1;
    }
    assert dst[..width] == D;
  }

  /** neg_byte as written negates a single byte correctly. */
  lemma NegByteWidthOne(s: seq<int>, r: seq<int>, d: seq<int>)
    requires |s| == 1 && 0 <= s[0] < 256 && NegSteps(s, r, d)
    ensures Val(d, 256) == (-Val(s, 256)) % Pow(256, 1)
  {
    assert NegStep(s, r, d, 0);
    assert d == [] + [d[0]] && s == [] + [s[0]];
    ValSnoc([], d[0], 256);
    ValSnoc([], s[0], 256);
    assert Pow(256, 1) == 256 && Pow(256, 0) == 1;
    assert 0xFFFF - s[0] + r[0] == -s[0] + 1 * TWO_16;
    ModAddMultiple(-s[0], 1, TWO_16);
    ModMod(-s[0], 256, 256);
  }

  /** neg_byte as written, on the two-byte zero: the result is [0, 0xFF]
      (65280) instead of 0, because the carry out of byte 0 is 0 but the
      16-bit complement of byte 1 carries 0xFF into nothing. */
  lemma NegByteCounterexample(r: seq<int>, d: seq<int>)
    requires NegSteps([0, 0], r, d)
    ensures d == [0, 0xFF]
    ensures Val(d, 256) == 0xFF00 && (-Val([0, 0], 256)) % Pow(256, 2) == 0
  {
    var s := [0, 0];
    assert NegStep(s, r, d, 0) && NegStep(s, r, d, 1);
    assert d[0] == 0 && r[1] == 0;
    assert d[1] == 0xFF;
    assert d == [0, 0xFF];
    ValThree(0, 0xFF, 0, 256);
    assert [0, 0xFF, 0] == d + [0];
    ValSnoc(d, 0, 256);
    assert [0, 0] == [0] + [0] && [0] == [] + [0];
    ValSnoc([], 0, 256);
    ValSnoc([0], 0, 256);
  }

  // ------------------------------------------------------------ bit offset

  /** The conversion of a byte to int8_t, two's complement. */
  function ToInt8(v: byte): (r: i8)
    ensures r % 256 == v && (v < 0x80 <==> r >= 0)
  {
    if v < 0x80 then v else v - 0x100
  }

  /** The borrow step of sub_with_bit_offset_byte: z = t in 16 bits,
      byte z & UINT8_MAX, and z >> 8 taken as int8_t is floor(t / 256). */
  lemma SignedBorrowStep(t: int)
    requires -0x8000 <= t < 0x8000
    ensures (t % TWO_16) % 256 == t % 256 && 0 <= (t % TWO_16) / 256 < 256
    ensures ToInt8((t % TWO_16) / 256) == t / 256
  {
    PowersOfTwo();
    if t >= 0 {
      ModUnique(t, t, 0, TWO_16);
    } else {
      ModUnique(t + TWO_16, t, -1, TWO_16);
      var q := t / 256;
      assert t == t % 256 + q * 256;
      DivUnique(t % 256, t + TWO_16, q + 256, 256);
      ModUnique(t % 256, t + TWO_16, q + 256, 256);
    }
  }

  /** The loop of sub_with_bit_offset_byte, from byte bitOffset / 8 on:
      position j of the chain is byte byteOffset + j of rs0 less byte j of
      rs1 shifted left by bitOffset % 8; the int8 borrow stays in
      [-128, 1]. */
  method SubWithBitOffsetChain(dst: array<byte>, rs0: array<byte>, rs1: array<byte>, width0: nat, width1: nat,
                               widthResult: nat, byteOffset: nat, shift: nat,
                               ghost X: seq<int>, ghost Y: seq<int>, ghost C: seq<int>, ghost D: seq<int>)
    requires widthResult <= dst.Length && width0 <= rs0.Length && width1 <= rs1.Length && shift < 8
    requires ChainSteps(X, Y, -1, 256, C, D) && |D| == if byteOffset <= widthResult then widthResult - byteOffset else 0
    requires forall j | 0 <= j < |D| ::
      X[j] == (if byteOffset + j < width0 then rs0[byteOffset + j] as int else 0) &&
      Y[j] == (if j < width1 then ShiftLeft(rs1[j] as nat, shift) else 0)
    requires rs1 == dst ==> byteOffset == 0
    modifies dst
    ensures byteOffset <= widthResult ==> dst[byteOffset..widthResult] == D
    ensures dst[..Min(byteOffset, widthResult)] == old(dst[..Min(byteOffset, widthResult)])
    ensures dst[widthResult..] == old(dst[widthResult..])
  {
    if widthResult < byteOffset {
      return;
    }
    ghost var R0, R1 := rs0[..], rs1[..];
    var borrow: int := 0;
    var i := byteOffset;
    ghost var k := 0;
    while i < widthResult
      invariant i == byteOffset + k && k <= |D|
      invariant forall j | 0 <= j < k :: dst[byteOffset + j] == D[j]
      invariant -128 <= borrow <= 1 && borrow == C[k]
      invariant dst[..byteOffset] == old(dst[..byteOffset])
      invariant forall j | i <= j < dst.Length :: dst[j] == old(dst[j])
    {
      var s: nat := if i - byteOffset < width1 then ShiftLeft(rs1[i - byteOffset] as nat, shift) else 0;
      if i - byteOffset < width1 {
        ShiftLeftByte(rs1[i - byteOffset] as nat, shift);
      }
      var t := (if i < width0 then rs0[i] as int else 0) - s + borrow;
      SignedBorrowStep(t);
      var z: u16 := t % TWO_16;
      assert X[k] == (if i < width0 then rs0[i] as int else 0) && Y[k] == s by {
        assert rs0 == dst ==> i >= dst.Length || rs0[i] == R0[i];
        assert rs1 == dst ==> k >= dst.Length || rs1[k] == R1[k];
      }
      assert D[k] == z % 256 && C[k + 1] == ToInt8(z / 256);
      dst[i] := z % 256;
      borrow := ToInt8(z / 256);
      i, k := i + 1, k + 1;
    }
    assert dst[byteOffset..widthResult] == D;
    assert dst[widthResult..] == old(dst[widthResult..]);
  }

  /** The digits of s from position k on (none when k is past its end). */
  function Above(s: seq<int>, k: nat): (r: seq<int>)
    ensures |r| == if k <= |s| then |s| - k else 0
    ensures forall j | 0 <= j < |r| :: r[j] == s[k + j]
  {
    if k <= |s| then s[k..] else []
  }

  /** The bytes of an operand from byte k on hold it divided by 256^k. */
  lemma {:induction false} ValAbove(A: seq<byte>, k: nat)
    ensures IsDigits(Above(A, k), 256)
    ensures Val(Above(A, k), 256) == Val(A, 256) / Pow(256, k)
  {
    if k <= |A| {
      assert A == A[..k] + A[k..];
      ValConcat(A[..k], A[k..], 256);
      assert IsDigits(A[..k], 256);
      ValBounds(A[..k], 256);
      ModSplit(Val(A, 256), Val(A[..k], 256), Val(A[k..], 256), Pow(256, k));
    } else {
      ValBounds(A, 256);
      PowMonotone(256, |A|, k);
      DivUnique(Val(A, 256), Val(A, 256), 0, Pow(256, k));
    }
  }

  /** Reading rs0 from byte k on, past its width as 0. */
  lemma {:induction false} PaddedAbove(rs0: array<byte>, width0: nat, A: seq<byte>, k: nat, n: nat)
    requires width0 <= rs0.Length && A == rs0[..width0]
    ensures forall j | 0 <= j < n :: Pad(Above(A, k), n)[j] == if k + j < width0 then rs0[k + j] as int else 0
  {
  }

  /** The value of the chain of sub_with_bit_offset_byte. */
  lemma {:induction false} SubBitOffsetClose(x: seq<int>, y: seq<int>, c: seq<int>, d: seq<int>, A: seq<byte>,
                                             B: seq<byte>, k: nat, m: int)
    requires Chain(x, y, -1, 256, c, d)
    requires x == Pad(Above(A, k), |d|) && y == Scaled(Pad(B, |d|), m)
    ensures Val(d, 256) == (Val(A, 256) / Pow(256, k) - Val(B, 256) * m) % Pow(256, |d|)
  {
    var p, hi := Pow(256, |d|), Above(A, k);
    ValAbove(A, k);
    ChainResult(x, y, -1, 256, c, d);
    ValPad(hi, |d|, 256);
    ValPad(B, |d|, 256);
    ValScaled(Pad(B, |d|), m, 256);
    ModLinear(Val(hi, 256), Val(B, 256), -m, p);
    assert Val(x, 256) + -1 * Val(y, 256) == Val(hi, 256) % p + -m * (Val(B, 256) % p);
    assert Val(hi, 256) + -m * Val(B, 256) == Val(hi, 256) - Val(B, 256) * m;
  }

  /** The operands and the chain of sub_with_bit_offset_byte: rs0's bytes
      from bitOffset / 8 on and rs1's bytes shifted left by bitOffset % 8;
      the chain's digits are the difference the routine leaves in bytes
      bitOffset / 8 and up. */
  lemma {:induction false} SubBitOffsetChainOf(widthResult: nat, bitOffset: nat, A: seq<byte>, B: seq<byte>)
    returns (X: seq<int>, Y: seq<int>, C: seq<int>, D: seq<int>)
    ensures |D| == if bitOffset / 8 <= widthResult then widthResult - bitOffset / 8 else 0
    ensures X == Pad(Above(A, bitOffset / 8), |D|) && Y == Scaled(Pad(B, |D|), Pow(2, bitOffset % 8))
    ensures ChainSteps(X, Y, -1, 256, C, D)
    ensures Val(D, 256) == (Val(A, 256) / Pow(256, bitOffset / 8) - Val(B, 256) * Pow(2, bitOffset % 8)) % Pow(256, |D|)
  {
    var bo, r := bitOffset / 8, bitOffset % 8;
    var n := if bo <= widthResult then widthResult - bo else 0;
    X, Y := Pad(Above(A, bo), n), Scaled(Pad(B, n), Pow(2, r));
    C, D := ChainOf(X, Y, -1, 256);
    SubBitOffsetClose(X, Y, C, D, A, B, bo, Pow(2, r));
    ChainAt(X, Y, -1, 256, C, D);
  }

  /** The chain of SubBitOffsetChainOf over the operands as the loop of
      sub_with_bit_offset_byte reads them. */
  lemma {:induction false} SubBitOffsetOperands(rs0: array<byte>, rs1: array<byte>, width0: nat, width1: nat,
                                                widthResult: nat, bitOffset: nat, byteOffset: nat, shift: nat,
                                                A: seq<byte>, B: seq<byte>)
    returns (X: seq<int>, Y: seq<int>, C: seq<int>, D: seq<int>)
    requires width0 <= rs0.Length && width1 <= rs1.Length && A == rs0[..width0] && B == rs1[..width1]
    requires byteOffset == bitOffset / 8 && shift == bitOffset % 8
    ensures ChainSteps(X, Y, -1, 256, C, D)
    ensures |D| == if byteOffset <= widthResult then widthResult - byteOffset else 0
    ensures forall j | 0 <= j < |D| ::
      X[j] == (if byteOffset + j < width0 then rs0[byteOffset + j] as int else 0) &&
      Y[j] == (if j < width1 then ShiftLeft(rs1[j] as nat, shift) else 0)
    ensures Val(D, 256) == (Val(A, 256) / Pow(256, byteOffset) - Val(B, 256) * Pow(2, shift)) % Pow(256, |D|)
  {
    X, Y, C, D := SubBitOffsetChainOf(widthResult, bitOffset, A, B);
    SubBitOffsetReads(rs0, rs1, width0, width1, |D|, bitOffset, A, B, X, Y);
  }

  /** The operands of SubBitOffsetChainOf, read as the loop reads them. */
  lemma {:induction false} SubBitOffsetReads(rs0: array<byte>, rs1: array<byte>, width0: nat, width1: nat, n: nat,
                                             bitOffset: nat, A: seq<byte>, B: seq<byte>, X: seq<int>, Y: seq<int>)
    requires width0 <= rs0.Length && width1 <= rs1.Length && A == rs0[..width0] && B == rs1[..width1]
    requires X == Pad(Above(A, bitOffset / 8), n) && Y == Scaled(Pad(B, n), Pow(2, bitOffset % 8))
    ensures forall j | 0 <= j < n ::
      X[j] == (if bitOffset / 8 + j < width0 then rs0[bitOffset / 8 + j] as int else 0) &&
      Y[j] == (if j < width1 then ShiftLeft(rs1[j] as nat, bitOffset % 8) else 0)
  {
    PaddedAbove(rs0, width0, A, bitOffset / 8, n);
    ShiftedOperand(rs1, width1, B, 0, bitOffset % 8, n);
    assert Zeros(0) + B == B;
  }

  /** Bytes below k kept from a, bytes k to k + n replaced by
      (a / 256^k - e) mod 256^n: together (a - e 256^k) mod 256^(k + n). */
  lemma LowHighMod(a: int, e: int, p: int, q: int)
    requires p > 0 && q > 0
    ensures p * q > 0 && a % p + p * ((a / p - e) % q) == (a - e * p) % (p * q)
  {
    MulPositive(p, q);
    var h := (a / p - e) % q;
    var k := (a / p - e) / q;
    assert a / p - e == h + k * q;
    assert a == a % p + p * (a / p);
    assert a - e * p == a % p + p * h + k * (p * q) by {
      assert p * (a / p - e) == p * h + k * (p * q);
    }
    MulLe(h, q - 1, p);
    assert p * h <= p * (q - 1) == p * q - p;
    MulNonNeg(p, h);
    ModUnique(a % p + p * h, a - e * p, k, p * q);
  }

  /** NOAHZK_variable_width_sub_with_bit_offset_byte: bytes bitOffset / 8 to
      widthResult of dst become (rs0 / 256^(bitOffset / 8) - rs1 *
      2^(bitOffset % 8)) mod 256^(widthResult - bitOffset / 8); no other byte
      changes (see SubWithBitOffsetInPlace for dst == rs0). */
  method SubWithBitOffsetByte(dst: array<byte>, rs0: array<byte>, rs1: array<byte>, width0: nat, width1: nat,
                              widthResult: nat, bitOffset: nat)
    requires widthResult <= dst.Length && width0 <= rs0.Length && width1 <= rs1.Length
    requires rs1 == dst ==> bitOffset / BITS_IN_UINT8 == 0
    modifies dst
    ensures bitOffset / 8 <= widthResult ==>
      Val(dst[bitOffset / 8..widthResult], 256) ==
        (Val(old(rs0[..width0]), 256) / Pow(256, bitOffset / 8) - Val(old(rs1[..width1]), 256) * Pow(2, bitOffset % 8))
          % Pow(256, widthResult - bitOffset / 8)
    ensures dst[..Min(bitOffset / 8, widthResult)] == old(dst[..Min(bitOffset / 8, widthResult)])
    ensures dst[widthResult..] == old(dst[widthResult..])
  {
    ghost var A, B := rs0[..width0], rs1[..width1];
    var byteOffset, shift := bitOffset / BITS_IN_UINT8, bitOffset % BITS_IN_UINT8;
    ghost var X, Y, C, D :=
      SubBitOffsetOperands(rs0, rs1, width0, width1, widthResult, bitOffset, byteOffset, shift, A, B);
    SubWithBitOffsetChain(dst, rs0, rs1, width0, width1, widthResult, byteOffset, shift, X, Y, C, D);
  }

  /** sub_with_bit_offset_byte in place: when dst is rs0, whose width0 <=
      widthResult bytes reach byte bitOffset / 8, bytes below bitOffset / 8
      are rs0's own and the whole result R is (rs0 - rs1 2^bitOffset) mod
      256^widthResult. */
  lemma SubWithBitOffsetInPlace(R: seq<byte>, A: seq<byte>, bv: int, bitOffset: nat, w: nat)
    requires bitOffset / 8 <= |A| <= w == |R| && R[..bitOffset / 8] == A[..bitOffset / 8]
    requires Val(R[bitOffset / 8..], 256) ==
      (Val(A, 256) / Pow(256, bitOffset / 8) - bv * Pow(2, bitOffset % 8)) % Pow(256, w - bitOffset / 8)
    ensures Val(R, 256) == (Val(A, 256) - bv * Pow(2, bitOffset)) % Pow(256, w)
  {
    var k := bitOffset / 8;
    var p, q, a, e := Pow(256, k), Pow(256, w - k), Val(A, 256), bv * Pow(2, bitOffset % 8);
    var L := A[..k];
    assert R == L + R[k..];
    ValConcat(L, R[k..], 256);
    ValPrefixMod(A, k, 256);
    assert Val(R, 256) == a % p + p * ((a / p - e) % q);
    LowHighMod(a, e, p, q);
    PowAdd(256, k, w - k);
    assert p * q == Pow(256, w);
    BitOffsetSplit(bitOffset);
    MulAssocComm(bv, Pow(2, bitOffset % 8), p);
    assert e * p == bv * Pow(2, bitOffset);
  }
}
