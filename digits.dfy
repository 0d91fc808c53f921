/** Little-endian positional values of digit sequences, generic in the base.
    A wide integer's limbs are digits in base 2^32, its byte view digits in
    base 2^8; every carry and borrow chain of the library is an instance of
    the step lemmas at the end of this module. */
module Digits {

  function Pow(b: int, n: nat): (r: int)
    ensures b > 0 ==> r > 0
  {
    if n == 0 then 1 else b * Pow(b, n - 1)
  }

  /** The value of s read little-endian: digit s[i] weighs b^i. */
  function Val(s: seq<int>, b: int): int
  {
    if |s| == 0 then 0 else Val(s[..|s| - 1], b) + s[|s| - 1] * Pow(b, |s| - 1)
  }

  ghost predicate IsDigits(s: seq<int>, b: int)
  {
    forall i | 0 <= i < |s| :: 0 <= s[i] < b
  }

  /** Digit i of s, reading positions past the end as 0 (how every routine of
      the library reads an operand beyond its width). */
  function DigitAt(s: seq<int>, i: nat): int
  {
    if i < |s| then s[i] else 0
  }

  function Zeros(n: nat): (r: seq<int>)
    ensures |r| == n && forall i | 0 <= i < n :: r[i] == 0
  {
    seq(n, _ => 0)
  }

  /** s truncated or zero-extended to exactly n digits. */
  function Pad(s: seq<int>, n: nat): (r: seq<int>)
    ensures |r| == n && forall i | 0 <= i < n :: r[i] == DigitAt(s, i)
  {
    seq(n, i requires 0 <= i => DigitAt(s, i))
  }

  /** The n low digits of x in base b. */
  function DigitsOf(x: nat, n: nat, b: int): (r: seq<int>)
    requires b > 1
    ensures |r| == n && forall i | 0 <= i < n :: r[i] == (x / Pow(b, i)) % b
  {
    seq(n, i requires 0 <= i => (x / Pow(b, i)) % b)
  }

  // ---------------------------------------------------------------- powers

  lemma {:induction false} PowAdd(b: int, m: nat, n: nat)
    ensures Pow(b, m + n) == Pow(b, m) * Pow(b, n)
  {
    if n > 0 {
      PowAdd(b, m, n - 1);
      calc {
        Pow(b, m + n);
        b * Pow(b, m + n - 1);
        b * (Pow(b, m) * Pow(b, n - 1));
        { MulAssocComm(b, Pow(b, m), Pow(b, n - 1)); }
        Pow(b, m) * (b * Pow(b, n - 1));
        Pow(b, m) * Pow(b, n);
      }
    }
  }

  lemma {:induction false} PowMonotone(b: int, m: nat, n: nat)
    requires b >= 1 && m <= n
    ensures 0 < Pow(b, m) <= Pow(b, n)
  {
    if m < n {
      PowMonotone(b, m, n - 1);
      MulLe(1, b, Pow(b, n - 1));
    }
  }

  // ------------------------------------------------------------- values

  lemma ValSnoc(s: seq<int>, d: int, b: int)
    ensures Val(s + [d], b) == Val(s, b) + d * Pow(b, |s|)
  {
    assert (s + [d])[..|s|] == s;
  }

  lemma ValPrefixStep(s: seq<int>, i: nat, b: int)
    requires i < |s|
    ensures Val(s[..i + 1], b) == Val(s[..i], b) + s[i] * Pow(b, i)
  {
    assert s[..i + 1] == s[..i] + [s[i]];
    ValSnoc(s[..i], s[i], b);
  }

  lemma {:induction false} ValBounds(s: seq<int>, b: int)
    requires b > 1 && IsDigits(s, b)
    ensures 0 <= Val(s, b) < Pow(b, |s|)
  {
    if |s| > 0 {
      var n := |s| - 1;
      ValBounds(s[..n], b);
      MulLe(s[n], b - 1, Pow(b, n));
      MulNonNeg(s[n], Pow(b, n));
    }
  }

  lemma {:induction false} ValConcat(s: seq<int>, t: seq<int>, b: int)
    ensures Val(s + t, b) == Val(s, b) + Pow(b, |s|) * Val(t, b)
    decreases |t|
  {
    if |t| == 0 {
      assert s + t == s;
    } else {
      var n := |t| - 1;
      var st := s + t;
      assert st[..|st| - 1] == s + t[..n] && st[|st| - 1] == t[n];
      ValConcat(s, t[..n], b);
      PowAdd(b, |s|, n);
      ConcatArith(Val(s, b), Val(t[..n], b), t[n], Pow(b, |s|), Pow(b, n));
    }
  }

  lemma {:induction false} ValZeros(n: nat, b: int)
    ensures Val(Zeros(n), b) == 0
  {
    if n > 0 {
      assert Zeros(n)[..n - 1] == Zeros(n - 1);
      ValZeros(n - 1, b);
    }
  }

  lemma {:induction false} ValAllZero(s: seq<int>, b: int)
    requires forall i | 0 <= i < |s| :: s[i] == 0
    ensures Val(s, b) == 0
  {
    assert s == Zeros(|s|);
    ValZeros(|s|, b);
  }

  /** Zero-extension does not change a value. */
  lemma ValZeroExtend(s: seq<int>, n: nat, b: int)
    ensures Val(s + Zeros(n), b) == Val(s, b)
  {
    ValConcat(s, Zeros(n), b);
    ValZeros(n, b);
  }

  /** The low n digits of s hold s mod b^n. */
  lemma {:induction false} ValPrefixMod(s: seq<int>, n: nat, b: int)
    requires b > 1 && IsDigits(s, b) && n <= |s|
    ensures Val(s[..n], b) == Val(s, b) % Pow(b, n)
  {
    var lo, hi := s[..n], s[n..];
    assert s == lo + hi;
    ValConcat(lo, hi, b);
    assert IsDigits(lo, b);
    ValBounds(lo, b);
    ModSplit(Val(s, b), Val(lo, b), Val(hi, b), Pow(b, n));
  }

  /** Reading s as n digits, past-the-end digits as 0, gives s mod b^n. */
  lemma ValPad(s: seq<int>, n: nat, b: int)
    requires b > 1 && IsDigits(s, b)
    ensures Val(Pad(s, n), b) == Val(s, b) % Pow(b, n)
  {
    if n <= |s| {
      assert Pad(s, n) == s[..n];
      ValPrefixMod(s, n, b);
    } else {
      assert Pad(s, n) == s + Zeros(n - |s|);
      ValZeroExtend(s, n - |s|, b);
      ValBounds(s, b);
      PowMonotone(b, |s|, n);
      ModUnique(Val(s, b), Val(s, b), 0, Pow(b, n));
    }
  }

  lemma ValPadStep(s: seq<int>, i: nat, b: int)
    ensures Val(Pad(s, i + 1), b) == Val(Pad(s, i), b) + DigitAt(s, i) * Pow(b, i)
  {
    assert Pad(s, i + 1) == Pad(s, i) + [DigitAt(s, i)];
    ValSnoc(Pad(s, i), DigitAt(s, i), b);
  }

  /** Digit q of a digit sequence is recovered from its value. */
  lemma {:induction false} DigitOfVal(s: seq<int>, q: nat, b: int)
    requires b > 1 && IsDigits(s, b) && q < |s|
    ensures (Val(s, b) / Pow(b, q)) % b == s[q]
  {
    var lo, hi := s[..q], s[q + 1..];
    var t := [s[q]] + hi;
    assert s == lo + t;
    ValConcat(lo, t, b);
    ValSingle(s[q], hi, b);
    assert IsDigits(lo, b);
    ValBounds(lo, b);
    ModSplit(Val(s, b), Val(lo, b), Val(t, b), Pow(b, q));
    ModSplit(Val(t, b), s[q], Val(hi, b), b);
  }

  /** A low digit d below the digits hi. */
  lemma ValSingle(d: int, hi: seq<int>, b: int)
    ensures Val([d] + hi, b) == d + b * Val(hi, b)
  {
    ValConcat([d], hi, b);
    assert [d][..0] == [];
  }

  /** x mod b^(n+1) splits into x mod b^n and the digit of weight b^n. */
  lemma ModPowStep(x: nat, n: nat, b: int)
    requires b > 1
    ensures x % Pow(b, n + 1) == x % Pow(b, n) + ((x / Pow(b, n)) % b) * Pow(b, n)
  {
    var p := Pow(b, n);
    var y := x / p;
    assert x == y * p + x % p;
    assert y == (y / b) * b + y % b;
    var low := x % p + (y % b) * p;
    MulLe(y % b, b - 1, p);
    assert low < b * p;
    assert x == low + (y / b) * (b * p) by {
      assert y * p == ((y / b) * b) * p + (y % b) * p;
      MulAssocComm(y / b, b, p);
    }
    ModUnique(low, x, y / b, b * p);
  }

  lemma {:induction false} ValDigitsOf(x: nat, n: nat, b: int)
    requires b > 1
    ensures IsDigits(DigitsOf(x, n, b), b) && Val(DigitsOf(x, n, b), b) == x % Pow(b, n)
  {
    if n > 0 {
      ValDigitsOf(x, n - 1, b);
      assert DigitsOf(x, n, b)[..n - 1] == DigitsOf(x, n - 1, b);
      ModPowStep(x, n - 1, b);
    }
  }

  /** Overwriting digit q changes the value by the difference at weight b^q. */
  lemma ValUpdate(s: seq<int>, q: nat, d: int, b: int)
    requires q < |s|
    ensures Val(s[q := d], b) == Val(s, b) + (d - s[q]) * Pow(b, q)
  {
    var lo, hi := s[..q], s[q + 1..];
    var t, u := [s[q]] + hi, [d] + hi;
    assert s == lo + t && s[q := d] == lo + u;
    ValConcat(lo, t, b);
    ValConcat(lo, u, b);
    ValSingle(s[q], hi, b);
    ValSingle(d, hi, b);
    UpdateArith(Val(s, b), Val(s[q := d], b), Val(lo, b), Pow(b, q), Val(t, b), Val(u, b), d - s[q]);
  }

  /** The step of ValUpdate: replacing the part vt above weight p by vt + e
      adds e p. */
  lemma UpdateArith(v: int, v': int, l: int, p: int, vt: int, vu: int, e: int)
    requires v == l + p * vt && v' == l + p * vu && vu == vt + e
    ensures v' == v + e * p
  {
    MulDistrib(p, vt, e);
  }

  /** Values of equal-length digit sequences agree only if the digits do. */
  lemma {:induction false} ValInjective(s: seq<int>, t: seq<int>, b: int)
    requires b > 1 && IsDigits(s, b) && IsDigits(t, b) && |s| == |t|
    requires Val(s, b) == Val(t, b)
    ensures s == t
  {
    forall q | 0 <= q < |s| ensures s[q] == t[q] {
      DigitOfVal(s, q, b);
      DigitOfVal(t, q, b);
    }
  }

  // ------------------------------------------------------------ chain steps

  /** One step of a carry chain over X + m Y in base b. The digit
      t = X[i] + m Y[i] + carry is split into the digit t mod b that is kept at
      position i and the carry floor(t / b) moved to position i + 1; a
      negative carry is a borrow. */
  lemma {:induction false} ChainStep(D: seq<int>, X: seq<int>, Y: seq<int>, i: nat, carry: int, m: int, b: int)
    requires b > 1 && |D| == i && i < |X| && i < |Y|
    requires Val(D, b) + carry * Pow(b, i) == Val(X[..i], b) + m * Val(Y[..i], b)
    ensures Val(D + [(X[i] + m * Y[i] + carry) % b], b) + ((X[i] + m * Y[i] + carry) / b) * Pow(b, i + 1)
         == Val(X[..i + 1], b) + m * Val(Y[..i + 1], b)
  {
    var t := X[i] + m * Y[i] + carry;
    var p := Pow(b, i);
    var d, q := t % b, t / b;
    assert t == d + q * b;
    ValSnoc(D, d, b);
    ValPrefixStep(X, i, b);
    ValPrefixStep(Y, i, b);
    assert Pow(b, i + 1) == b * p;
    ChainStepArith(Val(D, b), Val(X[..i], b), Val(Y[..i], b), X[i], Y[i], carry, m, b, p, d, q);
  }

  /** The arithmetic of ChainStep: vd + carry p == vx + m vy and
      d + q b == xi + m yi + carry give
      vd + d p + q (b p) == (vx + xi p) + m (vy + yi p). */
  lemma ChainStepArith(vd: int, vx: int, vy: int, xi: int, yi: int, carry: int, m: int, b: int, p: int, d: int, q: int)
    requires vd + carry * p == vx + m * vy && d + q * b == xi + m * yi + carry
    ensures vd + d * p + q * (b * p) == (vx + xi * p) + m * (vy + yi * p)
  {
    assert q * (b * p) == (q * b) * p;
    assert d * p + (q * b) * p == (d + q * b) * p;
    assert (xi + m * yi + carry) * p == xi * p + (m * yi) * p + carry * p;
    assert (m * yi) * p == m * (yi * p);
    assert m * (vy + yi * p) == m * vy + m * (yi * p);
  }

  /** c and d are the carries and the digits of a chain over x + m y in base
      b: c[j] comes in at position j, the digit d[j] stays there and c[j + 1]
      moves on, starting from c[0] == 0. Defined by recursion on the last
      position, so that each use unfolds only a step or two. */
  ghost predicate Chain(x: seq<int>, y: seq<int>, m: int, b: int, c: seq<int>, d: seq<int>)
    requires b > 0
    decreases |d|
  {
    |x| == |d| && |y| == |d| && |c| == |d| + 1 &&
    if |d| == 0 then c[0] == 0
    else
      var n := |d| - 1;
      var t := x[n] + m * y[n] + c[n];
      d[n] == t % b && c[n + 1] == t / b && Chain(x[..n], y[..n], m, b, c[..n + 1], d[..n])
  }

  /** The same chain stated position by position, the form a loop over it
      consumes. */
  ghost predicate ChainSteps(x: seq<int>, y: seq<int>, m: int, b: int, c: seq<int>, d: seq<int>)
    requires b > 0
  {
    |x| == |d| && |y| == |d| && |c| == |d| + 1 && c[0] == 0 &&
    forall j {:trigger d[j]} | 0 <= j < |d| ::
      d[j] == (x[j] + m * y[j] + c[j]) % b && c[j + 1] == (x[j] + m * y[j] + c[j]) / b
  }

  /** A chain, position by position. */
  lemma {:induction false} ChainAt(x: seq<int>, y: seq<int>, m: int, b: int, c: seq<int>, d: seq<int>)
    requires b > 0 && Chain(x, y, m, b, c, d)
    ensures ChainSteps(x, y, m, b, c, d)
    decreases |d|
  {
    if |d| > 0 {
      var n := |d| - 1;
      var x', y', c', d' := x[..n], y[..n], c[..n + 1], d[..n];
      ChainAt(x', y', m, b, c', d');
      forall j | 0 <= j < |d|
        ensures d[j] == (x[j] + m * y[j] + c[j]) % b && c[j + 1] == (x[j] + m * y[j] + c[j]) / b
      {
        if j < n {
          assert d[j] == d'[j] && x[j] == x'[j] && y[j] == y'[j] && c[j] == c'[j] && c[j + 1] == c'[j + 1];
        }
      }
    }
  }

  /** Every pair of operands has its chain. */
  lemma {:induction false} ChainOf(x: seq<int>, y: seq<int>, m: int, b: int) returns (c: seq<int>, d: seq<int>)
    requires b > 0 && |x| == |y|
    ensures Chain(x, y, m, b, c, d)
    decreases |x|
  {
    if |x| == 0 {
      c, d := [0], [];
    } else {
      var n := |x| - 1;
      var c', d' := ChainOf(x[..n], y[..n], m, b);
      var t := x[n] + m * y[n] + c'[n];
      c, d := c' + [t / b], d' + [t % b];
      assert c[..n + 1] == c' && d[..n] == d';
    }
  }

  /** What a chain computes: its digits and the carry out of the top make up
      x + m y. */
  lemma {:induction false} ChainValue(x: seq<int>, y: seq<int>, m: int, b: int, c: seq<int>, d: seq<int>)
    requires b > 1 && Chain(x, y, m, b, c, d)
    ensures IsDigits(d, b)
    ensures Val(d, b) + c[|d|] * Pow(b, |d|) == Val(x, b) + m * Val(y, b)
    decreases |d|
  {
    var n := |d|;
    if n > 0 {
      var i := n - 1;
      var d' := d[..i];
      ChainValue(x[..i], y[..i], m, b, c[..i + 1], d');
      var t := x[i] + m * y[i] + c[i];
      assert c[..i + 1][i] == c[i];
      ChainStep(d', x, y, i, c[i], m, b);
      assert d == d' + [t % b];
      assert x[..n] == x && y[..n] == y;
    }
  }

  /** A whole chain leaves (x + m y) mod b^n in its digits and
      (x + m y) / b^n as its carry out. */
  lemma {:induction false} ChainResult(x: seq<int>, y: seq<int>, m: int, b: int, c: seq<int>, d: seq<int>)
    requires b > 1 && Chain(x, y, m, b, c, d)
    ensures IsDigits(d, b)
    ensures Val(d, b) == (Val(x, b) + m * Val(y, b)) % Pow(b, |d|)
    ensures c[|d|] == (Val(x, b) + m * Val(y, b)) / Pow(b, |d|)
  {
    ChainValue(x, y, m, b, c, d);
    ChainClose(d, c[|d|], Val(x, b) + m * Val(y, b), b);
  }

  /** The carry out of a chain over digits is in [0, m] when m >= 0, and is a
      borrow in [-1, 0] when m == -1. */
  lemma {:induction false} ChainCarryBounds(x: seq<int>, y: seq<int>, m: int, b: int, c: seq<int>, d: seq<int>)
    requires b > 1 && Chain(x, y, m, b, c, d) && m >= -1
    requires IsDigits(x, b) && IsDigits(y, b)
    ensures m >= 0 ==> 0 <= c[|d|] <= m
    ensures m == -1 ==> -1 <= c[|d|] <= 0
    decreases |d|
  {
    var n := |d|;
    if n > 0 {
      ChainCarryBounds(x[..n - 1], y[..n - 1], m, b, c[..n], d[..n - 1]);
      assert c[..n][n - 1] == c[n - 1];
      CarryBounds(x[n - 1], y[n - 1], c[n - 1], m, b);
    }
  }

  lemma CarryBounds(xd: int, yd: int, c: int, m: int, b: int)
    requires b > 1 && 0 <= xd < b && 0 <= yd < b && m >= -1
    requires m >= 0 ==> 0 <= c <= m
    requires m == -1 ==> -1 <= c <= 0
    ensures m >= 0 ==> 0 <= (xd + m * yd + c) / b <= m
    ensures m == -1 ==> -1 <= (xd + m * yd + c) / b <= 0
  {
    var t := xd + m * yd + c;
    if m >= 0 {
      MulLe(yd, b - 1, m);
      MulNonNeg(yd, m);
      assert 0 <= t < (m + 1) * b;
      DivBounds(t, m + 1, b);
    } else {
      assert -b <= t < b;
      DivBounds(t + b, 2, b);
      DivShift(t, b);
    }
  }

  /** Every digit of s complemented in base b: b - 1 - s[i], the bitwise not
      of a digit when b is a power of two. */
  function Complement(s: seq<int>, b: int): (r: seq<int>)
    ensures |r| == |s| && forall i | 0 <= i < |s| :: r[i] == b - 1 - s[i]
  {
    seq(|s|, i requires 0 <= i < |s| => b - 1 - s[i])
  }

  /** The complement of n digits is b^n - 1 minus their value. */
  lemma {:induction false} ValComplement(s: seq<int>, b: int)
    ensures Val(Complement(s, b), b) == Pow(b, |s|) - 1 - Val(s, b)
    decreases |s|
  {
    if |s| > 0 {
      var n := |s| - 1;
      assert Complement(s, b)[..n] == Complement(s[..n], b);
      ValComplement(s[..n], b);
      var p := Pow(b, n);
      assert (b - 1 - s[n]) * p == b * p - p - s[n] * p;
    }
  }

  /** Every digit of s multiplied by m (not necessarily a digit any more). */
  function Scaled(s: seq<int>, m: int): (r: seq<int>)
    ensures |r| == |s| && forall i | 0 <= i < |s| :: r[i] == m * s[i]
  {
    seq(|s|, i requires 0 <= i < |s| => m * s[i])
  }

  lemma {:induction false} ValScaled(s: seq<int>, m: int, b: int)
    ensures Val(Scaled(s, m), b) == m * Val(s, b)
    decreases |s|
  {
    if |s| > 0 {
      var n := |s| - 1;
      assert Scaled(s, m)[..n] == Scaled(s[..n], m);
      ValScaled(s[..n], m, b);
      MulAssocComm(m, s[n], Pow(b, n));
    }
  }

  /** The zeros below a shifted operand: Zeros(k) + s is s times b^k. */
  lemma {:induction false} ValShifted(s: seq<int>, k: nat, b: int)
    ensures Val(Zeros(k) + s, b) == Val(s, b) * Pow(b, k)
  {
    var z := Zeros(k);
    ValConcat(z, s, b);
    assert Val(z, b) == 0 by { ValZeros(k, b); }
  }

  lemma {:induction false} ValShiftedPad(s: seq<int>, k: nat, n: nat, b: int)
    requires b > 1 && IsDigits(s, b)
    ensures IsDigits(Zeros(k) + s, b)
    ensures Val(Pad(Zeros(k) + s, n), b) == (Val(s, b) * Pow(b, k)) % Pow(b, n)
  {
    var t := Zeros(k) + s;
    assert IsDigits(t, b);
    ValShifted(s, k, b);
    ValPad(t, n, b);
  }

  /** Adding a multiple of m does not change a remainder. */
  lemma {:induction false} ModAddMultiple(x: int, q: int, m: int)
    requires m > 0
    ensures (x + q * m) % m == x % m
  {
    assert x == x % m + (x / m) * m;
    assert x + q * m == x % m + (x / m + q) * m;
    ModUnique(x % m, x + q * m, x / m + q, m);
  }

  /** (x mod M + c (y mod M)) mod M == (x + c y) mod M */
  lemma {:induction false} ModLinear(x: int, y: int, c: int, m: int)
    requires m > 0
    ensures (x % m + c * (y % m)) % m == (x + c * y) % m
  {
    var qx, qy := x / m, y / m;
    assert x == x % m + qx * m;
    assert y == y % m + qy * m;
    assert c * y == c * (y % m) + (c * qy) * m;
    assert x + c * y == (x % m + c * (y % m)) + (qx + c * qy) * m;
    ModAddMultiple(x % m + c * (y % m), qx + c * qy, m);
  }

  /** A chain that ended with digits D and carry c out of the top position
      has computed s mod b^|D|, and c is the part of s above it. */
  lemma {:induction false} ChainClose(D: seq<int>, carry: int, s: int, b: int)
    requires b > 1 && IsDigits(D, b)
    requires Val(D, b) + carry * Pow(b, |D|) == s
    ensures Val(D, b) == s % Pow(b, |D|) && carry == s / Pow(b, |D|)
  {
    ValBounds(D, b);
    ModUnique(Val(D, b), s, carry, Pow(b, |D|));
    DivUnique(Val(D, b), s, carry, Pow(b, |D|));
  }

  // ----------------------------------------------------- integer arithmetic

  /** 0 <= t < k b gives 0 <= t / b < k. */
  lemma DivBounds(t: int, k: int, b: int)
    requires b > 0 && 0 <= t < k * b
    ensures 0 <= t / b < k
  {
    var q := t / b;
    assert t == (t % b) + q * b;
    if q >= k {
      MulLe(k, q, b);
    }
    if q < 0 {
      MulLe(q, -1, b);
    }
  }

  /** (t + b) / b == t / b + 1 */
  lemma DivShift(t: int, b: int)
    requires b > 0
    ensures (t + b) / b == t / b + 1
  {
    assert t == (t % b) + (t / b) * b;
    DivUnique(t % b, t + b, t / b + 1, b);
  }

  lemma ModUnique(x: int, y: int, q: int, m: int)
    requires 0 <= x < m && y == x + q * m
    ensures x == y % m
  {
    var k, r := y / m, y % m;
    assert y == k * m + r;
    assert x - r == (k - q) * m;
    if k > q {
      MulLe(1, k - q, m);
    } else if k < q {
      MulLe(1, q - k, m);
    }
  }

  lemma DivUnique(x: int, y: int, q: int, m: int)
    requires 0 <= x < m && y == x + q * m
    ensures q == y / m
  {
    ModUnique(x, y, q, m);
    assert y == (y / m) * m + y % m;
    assert (q - y / m) * m == 0;
    MulCancel(q - y / m, m);
  }

  /** v == lo + p hi with 0 <= lo < p splits v at p. */
  lemma ModSplit(v: int, lo: int, hi: int, p: int)
    requires 0 <= lo < p && v == lo + p * hi
    ensures lo == v % p && hi == v / p
  {
    assert p * hi == hi * p;
    ModUnique(lo, v, hi, p);
    DivUnique(lo, v, hi, p);
  }

  lemma MulDistrib(p: int, x: int, e: int)
    ensures p * (x + e) == p * x + e * p
  {
  }

  /** The step of ValConcat: vs + p vt + d (p q) == vs + p (vt + d q). */
  lemma ConcatArith(vs: int, vt: int, d: int, p: int, q: int)
    ensures vs + p * vt + d * (p * q) == vs + p * (vt + d * q)
  {
    MulAssocComm(d, p, q);
    MulDistrib(p, vt, d * q);
  }

  lemma MulCancel(d: int, m: int)
    requires m > 0 && d * m == 0
    ensures d == 0
  {
    if d > 0 { MulLe(1, d, m); }
    if d < 0 { MulLe(1, -d, m); }
  }

  lemma MulLe(x: int, y: int, p: int)
    requires x <= y && p >= 0
    ensures x * p <= y * p
  {
    assert y * p - x * p == (y - x) * p;
    MulNonNeg(y - x, p);
  }

  lemma MulNonNeg(x: int, y: int)
    requires x >= 0 && y >= 0
    ensures x * y >= 0
  {
  }

  lemma MulPositive(x: int, y: int)
    requires x > 0 && y > 0
    ensures x * y > 0
  {
  }

  lemma MulAssocComm(x: int, y: int, z: int)
    ensures x * (y * z) == y * (x * z) == (x * y) * z
  {
  }

  /** (a mod m + r) mod m == (a + r) mod m */
  lemma ModAddLeft(a: int, r: int, m: int)
    requires m > 0
    ensures (a % m + r) % m == (a + r) % m
  {
    var x := (a + r) % m;
    assert a == (a / m) * m + a % m;
    assert a + r == ((a + r) / m) * m + x;
    ModUnique(x, a % m + r, (a + r) / m - a / m, m);
  }

  /** x mod (p * q) mod p == x mod p */
  lemma ModMod(x: int, p: int, q: int)
    requires p > 0 && q > 0
    ensures p * q > 0 && (x % (p * q)) % p == x % p
  {
    MulPositive(p, q);
    var r := x % (p * q);
    assert x == (x / (p * q)) * (p * q) + r;
    assert (x / (p * q)) * (p * q) == ((x / (p * q)) * q) * p;
    ModUnique(r % p, x, (x / (p * q)) * q + r / p, p);
  }

  /** x / a / b == x / (a b) */
  lemma DivDiv(x: int, a: int, b: int)
    requires x >= 0 && a > 0 && b > 0
    ensures a * b > 0 && x / a / b == x / (a * b)
  {
    MulPositive(a, b);
    var y := x / a;
    assert x == y * a + x % a;
    assert y == (y / b) * b + y % b;
    var low := (y % b) * a + x % a;
    MulLe(y % b, b - 1, a);
    assert low < a * b;
    assert x == low + (y / b) * (a * b) by {
      assert y * a == ((y / b) * b) * a + (y % b) * a;
      MulAssocComm(y / b, b, a);
    }
    DivUnique(low, x, y / b, a * b);
  }

  /** (x mod (p q)) / p == (x / p) mod q */
  lemma ModDiv(x: int, p: int, q: int)
    requires x >= 0 && p > 0 && q > 0
    ensures p * q > 0 && (x % (p * q)) / p == (x / p) % q
  {
    MulPositive(p, q);
    var n := p * q;
    var m, h := x % n, x / n;
    assert x == h * n + m;
    assert m == (m / p) * p + m % p;
    assert h * n == (h * q) * p by { MulAssocComm(h, q, p); }
    assert x == m % p + (h * q + m / p) * p;
    DivUnique(m % p, x, h * q + m / p, p);
    DivBounds(m, q, p);
    ModUnique(m / p, x / p, h, q);
  }

  lemma DivNonNeg(x: int, p: int)
    requires x >= 0 && p > 0
    ensures x / p >= 0
  {
  }
}
