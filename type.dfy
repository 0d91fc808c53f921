/** Life cycle of a variable-width integer: zeroed and copied-in
    initialisation, initialisation from a 64-bit constant, copy, copy out to a
    byte buffer, move, and destroy with zeroing. */
module Lifecycle {
  import opened Digits
  import opened Bits
  import opened Words
  import opened WideInt
  import opened Logarithms

  /** The object a routine fills: the caller's, or a fresh one for NULL. */
  method Target(toinit: VarWidth?) returns (r: VarWidth)
    ensures toinit != null ==> r == toinit
    ensures toinit == null ==> fresh(r)
  {
    if toinit == null {
      r := new VarWidth.Empty();
    } else {
      r := toinit;
    }
  }

  /** NOAHZK_variable_width_init: ceil(bytes / 4) zero limbs (calloc), or no
      buffer at all for width 0. */
  method Init(toinit: VarWidth?, widthInBytes: nat) returns (r: VarWidth)
    modifies toinit
    ensures toinit != null ==> r == toinit
    ensures toinit == null ==> fresh(r)
    ensures r.Valid() && r.width == SizeAsArrOfType(widthInBytes, LIMB_BYTES)
    ensures (r.arr == null) == (widthInBytes == 0)
    ensures r.arr != null ==> fresh(r.arr)
    ensures forall i | 0 <= i < r.width :: r.Limbs()[i] == 0
    ensures r.Value() == 0
  {
    r := Target(toinit);
    var width := SizeAsArrOfType(widthInBytes, LIMB_BYTES);
    if width != 0 {
      r.arr := new limb[width](_ => 0);
      r.width := width;
    } else {
      r.arr := null;
      r.width := 0;
    }
    ValAllZero(r.Limbs(), TWO_32);
  }

  /** b followed by zero bytes up to length n. */
  function PadBytes(b: seq<byte>, n: nat): (r: seq<byte>)
    requires |b| <= n
    ensures |r| == n && r[..|b|] == b && forall j | |b| <= j < n :: r[j] == 0
  {
    b + seq(n - |b|, _ => 0)
  }

  /** Zero padding does not change the value. */
  lemma PadBytesVal(b: seq<byte>, n: nat)
    requires |b| <= n
    ensures Val(PadBytes(b, n), 256) == Val(b, 256)
  {
    assert PadBytes(b, n) == b + Zeros(n - |b|);
    ValZeroExtend(b, n - |b|, 256);
  }

  /** The limbs whose byte view is `b`, padded with zero bytes to whole limbs. */
  lemma PaddedLimbs(b: seq<byte>, n: nat)
    requires |b| <= n && n % LIMB_BYTES == 0
    ensures LimbsToBytes(BytesToLimbs(PadBytes(b, n))) == PadBytes(b, n)
    ensures Val(BytesToLimbs(PadBytes(b, n)), TWO_32) == Val(b, 256)
  {
    LimbsToBytesInverse(PadBytes(b, n));
    LimbsToBytesVal(BytesToLimbs(PadBytes(b, n)));
    PadBytesVal(b, n);
  }

  /** A zeroed (calloc'd) buffer of n bytes with the first bytes of `arr`
      copied in (memcpy). */
  method CopyPadded(arr: array<byte>, count: nat, n: nat) returns (view: array<byte>)
    requires count <= arr.Length && count <= n
    ensures fresh(view) && view[..] == PadBytes(arr[..count], n)
  {
    view := new byte[n](_ => 0);
    var i := 0;
    while i < count
      invariant 0 <= i <= count
      invariant forall j | 0 <= j < i :: view[j] == arr[j]
      invariant forall j | i <= j < n :: view[j] == 0
      modifies view
    {
      view[i] := arr[i];
      i := i + 1;
    }
    assert view[..] == PadBytes(arr[..count], n);
  }

  /** NOAHZK_variable_width_init_arr: ceil(bytes / 4) zeroed limbs whose
      first `widthInBytes` bytes are copied from `arr`. */
  method InitArr(toinit: VarWidth?, arr: array<byte>, widthInBytes: nat) returns (r: VarWidth)
    requires widthInBytes <= arr.Length
    modifies toinit
    ensures toinit != null ==> r == toinit
    ensures toinit == null ==> fresh(r)
    ensures r.Valid() && r.width == SizeAsArrOfType(widthInBytes, LIMB_BYTES)
    ensures (r.arr == null) == (widthInBytes == 0)
    ensures r.arr != null ==> fresh(r.arr)
    ensures LimbsToBytes(r.Limbs()) == PadBytes(arr[..widthInBytes], WidthBytes(r.width))
    ensures r.Value() == Val(arr[..widthInBytes], 256)
  {
    ghost var src := arr[..widthInBytes];
    var width := SizeAsArrOfType(widthInBytes, LIMB_BYTES);
    var n := WidthBytes(width);
    var view := CopyPadded(arr, widthInBytes, n);
    ghost var bytes := view[..];
    var limbs := BytesToLimbs(view[..]);
    assert n == 4 * width && |limbs| * 4 == n;
    assert |limbs| == width;
    PaddedLimbs(src, n);
    assert LimbsToBytes(limbs) == bytes;
    r := Target(toinit);
    if width != 0 {
      r.arr := new limb[width](j requires 0 <= j < width => limbs[j]);
      assert r.arr[..] == limbs;
      r.width := width;
    } else {
      r.arr := null;
      r.width := 0;
    }
    assert r.Limbs() == limbs;
    assert WidthBytes(r.width) == n;
    assert arr[..widthInBytes] == src;
  }

  /** NOAHZK_variable_width_init_constant: ceil(min_bitcnt_var(k) / 32) limbs
      (0, 1 or 2) holding the low limbs of k in memory order, which is k. */
  method InitConstant(toinit: VarWidth?, k: u64) returns (r: VarWidth)
    modifies toinit
    ensures toinit != null ==> r == toinit
    ensures toinit == null ==> fresh(r)
    ensures r.Valid() && r.width == SizeAsArrOfType(MinBitcntVar(k), BITS_IN_LIMB)
    ensures r.width <= 2 && (r.width == 0) == (k == 0)
    ensures r.arr != null ==> fresh(r.arr)
    ensures r.Value() == k
  {
    var widthInBits := MinBitcntVar(k);
    var width := SizeAsArrOfType(widthInBits, BITS_IN_LIMB);
    r := Target(toinit);
    if width != 0 {
      var a := new limb[width];
      var i := 0;
      while i < width
        invariant 0 <= i <= width
        invariant forall j | 0 <= j < i :: a[j] == (k / Pow(TWO_32, j)) % TWO_32
      {
        a[i] := (k / Pow(TWO_32, i)) % TWO_32;
        i := i + 1;
      }
      assert a[..] == DigitsOf(k, width, TWO_32);
      r.arr := a;
      r.width := width;
    } else {
      r.arr := null;
      r.width := 0;
    }
    ValDigitsOf(k, width, TWO_32);
    ConstantFits(k, widthInBits, width);
    assert r.Limbs() == DigitsOf(k, width, TWO_32);
  }

  /** k < 2^bits <= 2^(32 width), so the `width` low limbs of k are all of k. */
  lemma ConstantFits(k: u64, bits: nat, width: nat)
    requires bits == MinBitcntVar(k) && width == SizeAsArrOfType(bits, BITS_IN_LIMB)
    ensures width <= 2 && (width == 0) == (k == 0)
    ensures k % Pow(TWO_32, width) == k
  {
    assert width <= 2;
    assert (width == 0) == (bits == 0);
    assert (bits == 0) == (k == 0) by {
      if bits == 0 {
        assert Pow(2, 0) == 1;
      }
    }
    var m := Pow(TWO_32, width);
    assert k < m by {
      PowMonotone(2, bits, 32 * width);
      PowersOfTwo();
      PowPow(2, 32, width);
    }
    ModUnique(k, k, 0, m);
  }

  /** NOAHZK_variable_width_copy: same width, and a fresh buffer with the
      same limbs, so later writes to either do not reach the other. */
  method Copy(dst: VarWidth?, src: VarWidth) returns (r: VarWidth)
    requires src.Valid()
    modifies dst
    ensures dst != null ==> r == dst
    ensures dst == null ==> fresh(r)
    ensures r.Valid() && r.arr != null && fresh(r.arr) && r.width == old(src.width)
    ensures r != src ==> r.Limbs() == old(src.Limbs()) && r.Value() == old(src.Value())
  {
    ghost var limbs := src.Limbs();
    ghost var alias := dst == src;
    r := Target(dst);
    r.width := src.width;
    var a := new limb[WidthBytes(src.width) / LIMB_BYTES];
    r.arr := a;
    // memcpy reads src->arr after dst->arr has been replaced
    var from := src.arr;
    var width := r.width;
    var i := 0;
    while i < width && from != null
      invariant 0 <= i <= width
      invariant !alias ==> from == old(src.arr) && src.Valid() && src.Limbs() == limbs && from != a
      invariant !alias ==> forall j | 0 <= j < i :: a[j] == limbs[j]
      invariant r.arr == a && r.width == width && a.Length == width
      modifies a
    {
      if i < from.Length {
        a[i] := from[i];
      }
      i := i + 1;
    }
    if !alias {
      assert a[..] == limbs;
    }
  }

  /** NOAHZK_variable_width_copy_to_arr: `widthDst` bytes of the buffer (all
      4 * width of them when widthDst is 0) copied into `dst`, or into a fresh
      buffer when dst is NULL; the bytes of dst past them are untouched. */
  method CopyToArr(dst: array?<byte>, widthDst: nat, src: VarWidth) returns (r: array<byte>)
    requires src.Valid()
    requires widthDst <= WidthBytes(src.width)
    requires dst != null ==> (if widthDst == 0 then WidthBytes(src.width) else widthDst) <= dst.Length
    modifies dst
    ensures dst != null ==> r == dst
    ensures dst == null ==> fresh(r)
    ensures var n := if widthDst == 0 then WidthBytes(src.width) else widthDst;
      n <= r.Length && r[..n] == LimbsToBytes(src.Limbs())[..n] &&
      (dst != null ==> r[n..] == old(dst[n..]))
  {
    var n := widthDst;
    if n == 0 {
      n := WidthBytes(src.width);
    }
    if dst == null {
      r := new byte[n];
    } else {
      r := dst;
    }
    var view := ByteView(src.Limbs());
    var i := 0;
    while i < n
      invariant 0 <= i <= n
      invariant forall j | 0 <= j < i :: r[j] == view[j]
      invariant dst != null ==> r[n..] == old(dst[n..])
      modifies r
    {
      r[i] := view[i];
      i := i + 1;
    }
    assert r[..n] == view[..n];
  }

  /** NOAHZK_variable_width_move: dst takes src's width and buffer, src is
      left empty ({0, NULL}); moving an object onto itself empties it. */
  method Move(dst: VarWidth?, src: VarWidth) returns (r: VarWidth)
    modifies dst, src
    ensures dst != null ==> r == dst
    ensures dst == null ==> fresh(r)
    ensures src.width == 0 && src.arr == null
    ensures r != src ==> r.width == old(src.width) && r.arr == old(src.arr)
  {
    r := Target(dst);
    r.width := src.width;
    src.width := 0;
    r.arr := src.arr;
    src.arr := null;
  }

  /** NOAHZK_variable_width_destroy: with a buffer, every limb and the width
      are zeroed before the buffer is freed; `arr` keeps its (now dangling)
      value. Without a buffer nothing changes. Freeing the container is not
      modelled. */
  method Destroy(todestroy: VarWidth, freeptr: bool)
    requires todestroy.Valid()
    modifies todestroy, todestroy.arr
    ensures todestroy.arr == old(todestroy.arr)
    ensures todestroy.arr != null ==>
      todestroy.width == 0 && forall i | 0 <= i < todestroy.arr.Length :: todestroy.arr[i] == 0
    ensures todestroy.arr == null ==> todestroy.width == old(todestroy.width)
  {
    var a := todestroy.arr;
    if a != null {
      var i := 0;
      while i < a.Length
        invariant 0 <= i <= a.Length
        invariant forall j | 0 <= j < i :: a[j] == 0
        modifies a
      {
        a[i] := 0;
        i := i + 1;
      }
      todestroy.width := 0;
    }
  }
}
