/** Bit-level arithmetic on naturals: the C bitwise operators, popcount,
    count-leading-zeros and bit length, each defined by recursion on the
    lowest bit so that their properties can be proved by induction. */
module Bits {
  import opened Digits

  const TWO_8: int := 0x100
  const TWO_16: int := 0x1_0000
  const TWO_32: int := 0x1_0000_0000
  const TWO_64: int := 0x1_0000_0000_0000_0000

  lemma PowersOfTwo()
    ensures Pow(2, 8) == TWO_8 && Pow(2, 16) == TWO_16
    ensures Pow(2, 32) == TWO_32 && Pow(2, 64) == TWO_64
  {
    assert Pow(2, 2) == 4 by { assert Pow(2, 1) == 2; }
    assert Pow(2, 4) == 16 by { assert Pow(2, 3) == 8; }
    assert Pow(2, 8) == 256 by { PowAdd(2, 4, 4); }
    PowAdd(2, 8, 8);
    PowAdd(2, 16, 16);
    PowAdd(2, 32, 32);
  }

  /** (b^m)^n == b^(m*n): a digit in base 256 is 8 binary digits, a limb 4 bytes. */
  lemma {:induction false} PowPow(b: int, m: nat, n: nat)
    ensures Pow(Pow(b, m), n) == Pow(b, m * n)
  {
    if n > 0 {
      PowPow(b, m, n - 1);
      assert m * n == m + m * (n - 1);
      PowAdd(b, m, m * (n - 1));
    }
  }

  // ------------------------------------------------------------ operators

  function Xor(x: nat, y: nat): nat
    decreases x + y
  {
    if x == 0 && y == 0 then 0 else (x % 2 + y % 2) % 2 + 2 * Xor(x / 2, y / 2)
  }

  function Or(x: nat, y: nat): nat
    decreases x + y
  {
    if x == 0 && y == 0 then 0 else (if x % 2 == 1 || y % 2 == 1 then 1 else 0) + 2 * Or(x / 2, y / 2)
  }

  function And(x: nat, y: nat): nat
    decreases x + y
  {
    if x == 0 || y == 0 then 0 else (if x % 2 == 1 && y % 2 == 1 then 1 else 0) + 2 * And(x / 2, y / 2)
  }

  /** x << r, one doubling per bit of the shift. */
  function ShiftLeft(x: nat, r: nat): nat
  {
    if r == 0 then x else 2 * ShiftLeft(x, r - 1)
  }

  /** A left shift multiplies by a power of two. */
  lemma {:induction false} ShiftLeftMul(x: nat, r: nat)
    ensures ShiftLeft(x, r) == x * Pow(2, r)
  {
    if r > 0 {
      ShiftLeftMul(x, r - 1);
      MulAssocComm(2, x, Pow(2, r - 1));
    }
  }

  /** A byte shifted by less than 8 bits fits in 15 bits. */
  lemma {:induction false} ShiftLeftByte(x: nat, r: nat)
    requires x < 256 && r < 8
    ensures ShiftLeft(x, r) <= 255 * 128
  {
    ShiftLeftMul(x, r);
    PowMonotone(2, r, 7);
    MulLe(x, 255, Pow(2, r));
    assert Pow(2, 7) == 128 by { PowersOfTwo(); }
  }

  /** The number of set bits (__builtin_popcountll). */
  function Popcount(x: nat): nat
  {
    if x == 0 then 0 else x % 2 + Popcount(x / 2)
  }

  /** The number of binary digits of x: the least n with x < 2^n. */
  function BitLength(x: nat): (r: nat)
    ensures x < Pow(2, r)
    ensures x > 0 ==> r > 0 && Pow(2, r - 1) <= x
    ensures x == 0 ==> r == 0
  {
    if x == 0 then 0 else 1 + BitLength(x / 2)
  }

  /** Bitwise complement of a 64-bit value (~x on uint64_t). */
  function Not64(x: nat): (r: nat)
    requires x < TWO_64
    ensures r < TWO_64 && x + r == TWO_64 - 1
  {
    TWO_64 - 1 - x
  }

  /** __builtin_clzll: leading zero bits of a nonzero 64-bit value. */
  function Clz64(x: nat): (r: nat)
    requires 0 < x < TWO_64
    ensures r < 64 && Pow(2, 63 - r) <= x < Pow(2, 64 - r)
  {
    PowersOfTwo();
    BitLengthAtMost(x, 64);
    64 - BitLength(x)
  }

  // ------------------------------------------------------------ bit length

  lemma {:induction false} BitLengthAtMost(x: nat, n: nat)
    requires x < Pow(2, n)
    ensures BitLength(x) <= n
  {
    if x > 0 {
      BitLengthAtMost(x / 2, n - 1);
    }
  }

  /** BitLength is the only n with 2^(n-1) <= x < 2^n. */
  lemma BitLengthUnique(x: nat, n: nat)
    requires x < Pow(2, n) && (n > 0 ==> Pow(2, n - 1) <= x)
    ensures BitLength(x) == n
  {
    BitLengthAtMost(x, n);
    if BitLength(x) < n {
      PowMonotone(2, BitLength(x), n - 1);
    }
  }

  /** Shifting a nonzero value up by k bits past a k-bit low part adds k to
      its bit length. */
  lemma BitLengthShift(lo: nat, hi: nat, k: nat)
    requires lo < Pow(2, k) && hi > 0
    ensures BitLength(lo + hi * Pow(2, k)) == BitLength(hi) + k
  {
    var b := BitLength(hi);
    ScaledBounds(lo, hi, Pow(2, k), Pow(2, b - 1), Pow(2, b));
    PowAdd(2, b, k);
    PowAdd(2, b - 1, k);
    BitLengthUnique(lo + hi * Pow(2, k), b + k);
  }

  /** lower <= hi < upper gives lower p <= lo + hi p < upper p for lo < p. */
  lemma ScaledBounds(lo: int, hi: int, p: int, lower: int, upper: int)
    requires 0 <= lo < p && lower <= hi < upper
    ensures lower * p <= lo + hi * p < upper * p
  {
    MulLe(lower, hi, p);
    MulLe(hi + 1, upper, p);
    assert (hi + 1) * p == hi * p + p;
  }

  // ------------------------------------------------------------ xor

  lemma {:induction false} XorZero(x: nat)
    ensures Xor(x, 0) == x && Xor(0, x) == x
  {
    if x > 0 { XorZero(x / 2); }
  }

  lemma {:induction false} XorSelf(x: nat)
    ensures Xor(x, x) == 0
  {
    if x > 0 { XorSelf(x / 2); }
  }

  /** The lowest bit and the rest of x ^ y. */
  lemma {:induction false} XorSplit(x: nat, y: nat)
    ensures Xor(x, y) % 2 == (x % 2 + y % 2) % 2 && Xor(x, y) / 2 == Xor(x / 2, y / 2)
  {
    var b, h := (x % 2 + y % 2) % 2, Xor(x / 2, y / 2);
    if x == 0 && y == 0 {
      assert h == 0;
    }
    assert Xor(x, y) == b + h * 2;
    DivUnique(b, Xor(x, y), h, 2);
    ModUnique(b, Xor(x, y), h, 2);
  }

  /** (x ^ y) ^ y == x: each step of the xor swap undoes the previous one. */
  lemma {:induction false} XorCancel(x: nat, y: nat)
    ensures Xor(Xor(x, y), y) == x
    decreases x + y
  {
    var z := Xor(x, y);
    if y == 0 {
      XorZero(x);
      XorZero(z);
    } else {
      var w := Xor(z, y);
      assert w % 2 == x % 2 by {
        XorSplit(x, y);
        XorSplit(z, y);
      }
      assert w / 2 == x / 2 by {
        XorSplit(x, y);
        XorSplit(z, y);
        XorCancel(x / 2, y / 2);
      }
      HalvesEqual(w, x);
    }
  }

  /** Two naturals with the same last bit and the same half are equal. */
  lemma HalvesEqual(a: nat, b: nat)
    requires a % 2 == b % 2 && a / 2 == b / 2
    ensures a == b
  {
  }

  lemma {:induction false} XorComm(x: nat, y: nat)
    ensures Xor(x, y) == Xor(y, x)
    decreases x + y
  {
    if !(x == 0 && y == 0) {
      XorComm(x / 2, y / 2);
    }
  }

  /** x ^ (2^n - 1) complements the n low bits of a value below 2^n. */
  lemma {:induction false} XorAllOnes(x: nat, n: nat)
    requires x < Pow(2, n)
    ensures Xor(x, Pow(2, n) - 1) == Pow(2, n) - 1 - x
    decreases n
  {
    if n > 0 {
      var h := Pow(2, n - 1);
      var m, y, lo, hi := h - 1, 2 * h - 1, x % 2, x / 2;
      assert Pow(2, n) == 2 * h;
      assert x == lo + 2 * hi && hi < h;
      assert y % 2 == 1 && y / 2 == m;
      XorAllOnes(hi, n - 1);
      assert Xor(x, y) == (lo + 1) % 2 + 2 * Xor(hi, m);
    }
  }

  // ------------------------------------------------------------ or / and

  lemma {:induction false} OrZero(x: nat)
    ensures Or(x, 0) == x && Or(0, x) == x
  {
    if x > 0 { OrZero(x / 2); }
  }

  lemma {:induction false} OrBounds(x: nat, y: nat, n: nat)
    requires x < Pow(2, n) && y < Pow(2, n)
    ensures x <= Or(x, y) < Pow(2, n) && y <= Or(x, y)
    decreases n
  {
    if x == 0 && y == 0 {
    } else {
      OrBounds(x / 2, y / 2, n - 1);
    }
  }

  /** Or-ing a single bit into a position that is still clear adds it. */
  lemma {:induction false} OrFreshBit(x: nat, p: nat, bit: nat)
    requires bit <= 1 && x % Pow(2, p + 1) == 0
    ensures Or(x, bit * Pow(2, p)) == x + bit * Pow(2, p)
    decreases p
  {
    if bit == 0 {
      OrZero(x);
    } else if p == 0 {
      OrZero(x / 2);
      assert Or(x, 1) == 1 + 2 * Or(x / 2, 0);
    } else {
      var q := Pow(2, p - 1);
      assert Pow(2, p + 1) == 2 * Pow(2, p) == 4 * q;
      ModMod(x, 2, Pow(2, p));
      var x2 := x / 2;
      assert x == 2 * x2;
      assert x2 % Pow(2, p) == 0 by {
        ModUnique(0, x2, x / Pow(2, p + 1), Pow(2, p));
      }
      OrFreshBit(x2, p - 1, 1);
      assert (2 * q) / 2 == q && (2 * q) % 2 == 0;
    }
  }

  lemma {:induction false} AndZero(x: nat)
    ensures And(x, 0) == 0
  {
  }

  /** x & (2^n - 1) == x for an n-bit x. */
  lemma {:induction false} AndAllOnes(x: nat, n: nat)
    requires x < Pow(2, n)
    ensures And(x, Pow(2, n) - 1) == x
    decreases n
  {
    if x > 0 {
      assert n > 0;
      assert (Pow(2, n) - 1) % 2 == 1 && (Pow(2, n) - 1) / 2 == Pow(2, n - 1) - 1;
      AndAllOnes(x / 2, n - 1);
    }
  }

  /** x mod 2q is its lowest bit plus twice (x / 2) mod q. */
  lemma {:induction false} ModTwoSplit(x: nat, q: nat)
    requires q > 0
    ensures x % (2 * q) == x % 2 + 2 * ((x / 2) % q)
  {
    var lo := x % 2 + 2 * ((x / 2) % q);
    assert x / 2 == (x / 2) % q + q * ((x / 2) / q);
    assert x == lo + (2 * q) * ((x / 2) / q);
    ModUnique(lo, x, (x / 2) / q, 2 * q);
  }

  /** x & (2^n - 1) keeps the low n bits: x mod 2^n. */
  lemma {:induction false} AndLowMask(x: nat, n: nat)
    ensures And(x, Pow(2, n) - 1) == x % Pow(2, n)
    decreases n
  {
    if n == 0 {
      AndZero(x);
    } else {
      var q := Pow(2, n - 1);
      assert Pow(2, n) == 2 * q;
      AndLowMask(x / 2, n - 1);
      AndMaskStep(x, q);
    }
  }

  lemma {:induction false} AndMaskStep(x: nat, q: nat)
    requires q > 0 && And(x / 2, q - 1) == (x / 2) % q
    ensures And(x, 2 * q - 1) == x % (2 * q)
  {
    var mask := 2 * q - 1;
    assert mask == 1 + (q - 1) * 2;
    ModUnique(1, mask, q - 1, 2);
    DivUnique(1, mask, q - 1, 2);
    if x == 0 {
      ModUnique(0, 0, 0, 2 * q);
    } else {
      AndOddStep(x, mask);
      ModTwoSplit(x, q);
    }
  }

  lemma {:induction false} AndOddStep(x: nat, mask: nat)
    requires x > 0 && mask % 2 == 1
    ensures And(x, mask) == x % 2 + 2 * And(x / 2, mask / 2)
  {
  }

  // ------------------------------------------------------------ popcount

  lemma {:induction false} PopcountZero(x: nat)
    ensures (Popcount(x) == 0) == (x == 0)
  {
    if x > 0 && x % 2 == 0 { PopcountZero(x / 2); }
  }

  /** popcount(~v) over n bits is n - popcount(v). */
  lemma {:induction false} PopcountComplement(v: nat, n: nat)
    requires v < Pow(2, n)
    ensures Popcount(v) <= n && Popcount(Pow(2, n) - 1 - v) == n - Popcount(v)
    decreases n
  {
    if n > 0 {
      var w := Pow(2, n) - 1 - v;
      PopcountComplement(v / 2, n - 1);
      assert w / 2 == Pow(2, n - 1) - 1 - v / 2 && w % 2 == 1 - v % 2;
      if w == 0 {
        assert Popcount(Pow(2, n - 1) - 1 - v / 2) == 0;
      }
    }
  }
}
