/** The variable-width integer: a width in limbs and a heap buffer of that
    many 32-bit limbs, least significant first (the NOAHZK_variable_width_t
    struct), plus the allocator calls the library makes on it. */
module WideInt {
  import opened Digits
  import opened Bits
  import opened Words

  class VarWidth {
    var width: nat
    var arr: array?<limb>

    /** A live object: no buffer at width 0, otherwise a buffer of exactly
        `width` limbs. */
    ghost predicate Valid()
      reads this
    {
      (arr == null ==> width == 0) && (arr != null ==> arr.Length == width)
    }

    /** The limbs, least significant first. */
    function Limbs(): (l: seq<limb>)
      reads this, arr
      requires Valid()
      ensures |l| == width
    {
      if arr == null then [] else arr[..]
    }

    /** The unsigned value: limb i weighs 2^(32 i). */
    function Value(): nat
      reads this, arr
      requires Valid()
    {
      ValBounds(Limbs(), TWO_32);
      Val(Limbs(), TWO_32)
    }

    /** NOAHZK_variable_width_var_INITIALIZER: {0, NULL}. */
    constructor Empty()
      ensures Valid() && width == 0 && arr == null
    {
      width := 0;
      arr := null;
    }
  }

  /** Limb i of a buffer holding w limbs, or 0 past them:
      (i < width ? arr[i] : 0). */
  function LimbOf(a: array?<limb>, w: nat, i: nat): (r: limb)
    reads a
    requires a == null ==> w == 0
    requires a != null ==> w <= a.Length
  {
    if i < w then a[i] else 0
  }

  /** realloc: a buffer of n limbs whose common prefix with the old buffer is
      kept; the contents of any new limbs are unspecified. */
  method Realloc(a: array?<limb>, n: nat) returns (r: array<limb>)
    ensures fresh(r) && r.Length == n
    ensures a != null ==> forall i | 0 <= i < n && i < a.Length :: r[i] == a[i]
  {
    r := new limb[n];
    if a != null {
      var i := 0;
      while i < n && i < a.Length
        invariant 0 <= i <= n && i <= a.Length
        invariant forall k | 0 <= k < i :: r[k] == a[k]
      {
        r[i] := a[i];
        i := i + 1;
      }
    }
  }

  /** memset(a + from, 0, ...): limbs from `from` on become 0, the rest are
      kept. */
  method ZeroFrom(a: array<limb>, from: nat)
    modifies a
    ensures forall i | 0 <= i < a.Length :: a[i] == if i < from then old(a[i]) else 0
  {
    var i := from;
    while i < a.Length
      invariant forall j | 0 <= j < a.Length :: a[j] == if j < from || j >= i then old(a[j]) else 0
    {
      a[i] := 0;
      i := i + 1;
    }
  }

  /** A fresh byte buffer holding the byte view of a limb sequence; how the
      byte routines are handed a limb buffer cast to uint8_t*. */
  method ByteView(l: seq<limb>) returns (b: array<byte>)
    ensures fresh(b) && b[..] == LimbsToBytes(l)
  {
    var v := LimbsToBytes(l);
    b := new byte[|v|](i requires 0 <= i < |v| => v[i]);
  }
}
