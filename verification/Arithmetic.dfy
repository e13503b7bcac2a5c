/** 64-bit division built from the x86 DIVL instruction (Project2/src/lib/arithmetic.c).
    Machine words are integers in range; every wrap-around and truncation is written out. */
module Arithmetic {
  import opened Nonlinear

  const B31: int := 0x8000_0000
  const B32: int := 0x1_0000_0000
  const B63: int := 0x8000_0000_0000_0000
  const B64: int := 0x1_0000_0000_0000_0000

  lemma Pow2Constants()
    ensures Pow2(0) == 1 && Pow2(1) == 2 && Pow2(2) == 4 && Pow2(4) == 16 && Pow2(8) == 256
    ensures Pow2(16) == 0x1_0000 && Pow2(31) == B31 && Pow2(32) == B32
  {
    assert Pow2(4) == 16;
    assert Pow2(8) == 256 by { Pow2Add(4, 4); }
    assert Pow2(16) == 0x1_0000 by { Pow2Add(8, 8); }
    assert Pow2(32) == B32 by { Pow2Add(16, 16); }
    assert Pow2(32) == 2 * Pow2(31);
  }

  /** DIVL by its documented contract: it traps unless the quotient fits in 32 bits, so the
      absence of a trap is the caller's obligation. */
  method Divl(n: int, d: int) returns (q: int)
    requires 0 <= n < B64 && 0 < d < B32
    requires n / d < B32
    ensures q == n / d
  {
    q := n / d;
  }

  /** Number of leading zero bits of a nonzero 32-bit word: the one shift that brings the
      highest set bit to position 31. */
  method Nlz(x0: nat) returns (n: nat)
    requires 0 < x0 < B32
    ensures n <= 31 && B31 <= x0 * Pow2(n) < B32
  {
    Pow2Constants();
    var x := x0;
    n := 0;
    if x <= 0x0000_FFFF {
      n, x := n + 16, x * 0x1_0000;
    }
    assert x == x0 * Pow2(n);
    if x <= 0x00FF_FFFF {
      ShiftMore(x0, n, 8);
      n, x := n + 8, x * 0x100;
    }
    assert x == x0 * Pow2(n);
    if x <= 0x0FFF_FFFF {
      ShiftMore(x0, n, 4);
      n, x := n + 4, x * 16;
    }
    assert x == x0 * Pow2(n);
    if x <= 0x3FFF_FFFF {
      ShiftMore(x0, n, 2);
      n, x := n + 2, x * 4;
    }
    assert x == x0 * Pow2(n);
    if x <= 0x7FFF_FFFF {
      ShiftMore(x0, n, 1);
      n := n + 1;
    }
  }

  lemma ShiftMore(x: nat, n: nat, k: nat)
    ensures x * Pow2(n + k) == x * Pow2(n) * Pow2(k)
  {
    Pow2Add(n, k);
    assert x * (Pow2(n) * Pow2(k)) == x * Pow2(n) * Pow2(k);
  }

  /** Unsigned 64-bit quotient.  That the body verifies shows that no DIVL it issues traps. */
  method UDiv64(n: nat, d: nat) returns (q: int)
    requires n < B64 && 0 < d < B64
    ensures q == n / d
  {
    if d / B32 == 0 {
      var n1, n0 := n / B32, n % B32;
      SchoolbookStep(n, n1, n0, d, B32);
      var low := Divl(B32 * (n1 % d) + n0, d);
      q := low + B32 * (n1 / d);
    } else if n < d {
      DivIs(n, d, 0);
      q := 0;
    } else {
      var s := Nlz(d / B32);
      LargeDivisor(n, d, s);
      var e := Divl(n / 2, Divisor(d, s));
      var t := e / Pow2(31 - s);
      q := if (n - (t - 1) * d) % B64 < d then t - 1 else t;
    }
  }

  lemma LargeDivisor(n: nat, d: nat, s: nat)
    requires d <= n < B64 && Normalises(d, s)
    ensures B31 <= Divisor(d, s) < B32 && n / 2 / Divisor(d, s) < B32
    ensures var t := Estimate(n, d, s);
      n / d == if (n - (t - 1) * d) % B64 < d then t - 1 else t
  {
    NoTrap(n, d, s);
    EstimateWithinOne(n, d, s);
    CorrectEstimate(n, d, Estimate(n, d, s), B64);
  }

  /** (d << s) >> 32 in 64-bit arithmetic. */
  function Divisor(d: nat, s: nat): int
  {
    d * Pow2(s) % B64 / B32
  }

  /** The quotient estimate of the large-divisor branch. */
  function Estimate(n: nat, d: nat, s: nat): int
    requires s <= 31 && Divisor(d, s) != 0
  {
    n / 2 / Divisor(d, s) / Pow2(31 - s)
  }

  /** s is the normalising shift of the large divisor d. */
  predicate Normalises(d: nat, s: nat)
  {
    B32 <= d < B64 && s <= 31 && B31 <= d / B32 * Pow2(s) < B32
  }

  lemma SchoolbookStep(n: nat, n1: nat, n0: nat, d: nat, b: nat)
    requires n == b * n1 + n0 && n1 < b && n0 < b && 0 < d < b
    ensures 0 <= n1 % d && 0 <= b * (n1 % d) + n0 < b * b
    ensures (b * (n1 % d) + n0) / d < b
    ensures n / d == (b * (n1 % d) + n0) / d + b * (n1 / d)
  {
    LowPart(n1 % d, n0, d, b);
    SplitHigh(n1, n1 / d, n1 % d, d, b);
    DivShift(b * (n1 % d) + n0, d, b * (n1 / d));
  }

  lemma LowPart(r: int, n0: int, d: int, b: int)
    requires 0 <= r < d < b && 0 <= n0 < b
    ensures 0 <= b * r + n0 < b * b && (b * r + n0) / d < b
  {
    MulLe(r + 1, d, b);
    MulLe(d, b, b);
    MulLe(0, r, b);
    assert b * (r + 1) == b * r + b;
    DivCompare(b * r + n0, d, b);
  }

  lemma SplitHigh(n1: int, m: int, r: int, d: int, b: int)
    requires n1 == d * m + r
    ensures b * n1 == b * r + d * (b * m)
  {
    assert b * (d * m + r) == b * (d * m) + b * r;
    assert b * (d * m) == d * (b * m);
  }

  /** The shift scales d by p, its complement by c, and splits 2^32 as p * c. */
  lemma Scales(d: nat, s: nat) returns (p: nat, c: nat)
    requires Normalises(d, s)
    ensures p == Pow2(s) && c == Pow2(32 - s) && c == 2 * Pow2(31 - s) && p * c == B32
    ensures B63 <= d * p < B64 && Divisor(d, s) == d / c && B31 <= d / c < B32
    ensures p >= 1 && c >= 2 && (s == 31 <==> c == 2) && (c == 2 || c >= 4)
  {
    Pow2Constants();
    p, c := Pow2(s), Pow2(32 - s);
    Pow2Add(s, 32 - s);
    if s <= 30 { assert Pow2(31 - s) == 2 * Pow2(30 - s); }
    TopWord(d, p, c, B32);
    DivDiv(d * p, p, c);
    DivIs(d * p, p, d);
  }

  lemma TopWord(d: nat, p: nat, c: nat, b: nat)
    requires b > 0 && p > 0 && p * c == b && d / b * p < b
    ensures d / b * p * b <= d * p < b * b
    ensures d / b * p <= d * p / b < b
  {
    ScaledTop(d, d / b, p, c, b);
    DivCompare(d * p, b, b);
    DivCompare(d * p, b, d / b * p);
    MulComm(b, d / b * p);
  }

  lemma ScaledTop(d: nat, d1: nat, p: nat, c: nat, b: nat)
    requires b * d1 <= d < b * d1 + b && p > 0 && p * c == b && d1 * p < b
    ensures d1 * p * b <= d * p < b * b
  {
    MulLe(b * d1, d, p);
    MulLt(d, b * d1 + b, p);
    MulAdd(p, b * d1, b);
    MulAssoc(b, d1, p);
    MulComm(b, d1 * p);
    BelowMultiple(d1, p, c);
    MulLe(d1 * p + p, b, b);
    MulAdd(b, d1 * p, p);
    MulComm(b, p);
  }

  /** A multiple of p below p * c leaves room for another p. */
  lemma BelowMultiple(k: int, p: int, c: int)
    requires p > 0 && k * p < p * c
    ensures k * p + p <= p * c
  {
    MulLe(c, k, p);
    MulLe(k + 1, c, p);
    assert (k + 1) * p == k * p + p;
  }

  /** After normalisation DIVL's divisor and quotient both fit 32 bits. */
  lemma NoTrap(n: nat, d: nat, s: nat)
    requires n < B64 && Normalises(d, s)
    ensures B31 <= Divisor(d, s) < B32 && n / 2 / Divisor(d, s) < B32
  {
    var p, c := Scales(d, s);
    var v := Divisor(d, s);
    MulLe(B31, v, B32);
    DivCompare(n / 2, v, B32);
  }

  /** The estimate is never below the true quotient and at most one above it. */
  lemma EstimateWithinOne(n: nat, d: nat, s: nat)
    requires d <= n < B64 && Normalises(d, s)
    ensures Divisor(d, s) > 0
    ensures n / d <= Estimate(n, d, s) <= n / d + 1
  {
    var p, c := Scales(d, s);
    EstimateFromScales(n, d, p, c, Pow2(31 - s));
  }

  lemma EstimateFromScales(n: nat, d: nat, p: nat, c: nat, h: nat)
    requires d <= n < B64 && B32 <= d && B63 <= d * p && p * c == B32 && p >= 1
    requires (c == 2 || c >= 4) && c == 2 * h && d / c > 0
    ensures n / d <= n / 2 / (d / c) / h <= n / d + 1
  {
    QuotientBounds(n, d, n / d);
    DivCompare(n, d, 0);
    TrueQuotientBelow(n, d, n / d, p);
    RemainderGap(d, n / d, p, c);
    HalvedDivision(d, c, h);
    HalvedQuotient(n, d, h, n / d, d / c, d % c);
  }

  lemma HalvedDivision(d: nat, c: nat, h: nat)
    requires c == 2 * h && h > 0
    ensures d == 2 * h * (d / c) + d % c && 0 <= d % c
  {
  }

  lemma QuotientBounds(n: int, d: int, t: int)
    requires d > 0 && t == n / d
    ensures d * t <= n < d * t + d
  {
  }

  /** Dividing half of n by the multiple of h nearest below half of d. */
  lemma HalvedQuotient(n: nat, d: nat, h: nat, t: int, v: int, g: int)
    requires h > 0 && v > 0 && g >= 0 && d == 2 * h * v + g
    requires d * t <= n < d * t + d && t >= 0 && (t + 2) * g <= d
    ensures t <= n / 2 / v / h <= t + 1
  {
    var w := v * h;
    DivDiv(n / 2, v, h);
    assert 2 * w == d - g by { MulAssoc(2, h, v); MulComm(h, v); }
    // never below
    MulLe(2 * w, d, t);
    MulAssoc(2, w, t);
    DivCompare(n / 2, w, t);
    // at most one above
    MulAssoc(2, w, t + 2);
    DoubledAbove(d, g, t);
    DivCompare(n / 2, w, t + 2);
  }

  lemma DoubledAbove(d: int, g: int, t: int)
    requires (t + 2) * g <= d
    ensures (d - g) * (t + 2) >= d * t + d
  {
    MulAdd(t + 2, d, -g);
    MulAdd(d, t, 2);
    MulComm(d - g, t + 2);
    MulComm(t + 2, d);
    assert (t + 2) * (-g) == -((t + 2) * g);
  }

  lemma TrueQuotientBelow(n: nat, d: nat, t: nat, p: nat)
    requires n < B64 && d * t <= n && B63 <= d * p
    ensures t < 2 * p
  {
    MulLe(2 * p, t, d);
    MulAssoc(2, p, d);
    MulComm(d, p);
    MulComm(d, t);
  }

  lemma RemainderGap(d: nat, t: nat, p: nat, c: nat)
    requires B32 <= d && B63 <= d * p && p * c == B32 && t < 2 * p && p >= 1
    requires c == 2 || c >= 4
    ensures (t + 2) * (d % c) <= d
  {
    if c == 2 {
      OddGap(d, t, p, d % 2);
    } else {
      WideGap(d, t, p, c, d % c);
    }
  }

  lemma OddGap(d: nat, t: nat, p: nat, g: int)
    requires B32 <= d && 2 * p == B32 && t < 2 * p && g == d % 2
    ensures (t + 2) * g <= d
  {
    if g == 0 {
      assert (t + 2) * 0 == 0;
    } else {
      assert (t + 2) * 1 == t + 2;
    }
  }

  lemma WideGap(d: nat, t: nat, p: nat, c: nat, g: nat)
    requires B63 <= d * p && p * c == B32 && t < 2 * p && p >= 1 && c >= 4 && g <= c - 1
    ensures (t + 2) * g <= d
  {
    MulLe(t + 2, 2 * p + 1, c - 1);
    MulLe(g, c - 1, t + 2);
    assert (2 * p + 1) * (c - 1) == 2 * B32 - 2 * p + c - 1 by {
      MulAdd(2 * p + 1, c, -1);
      MulAdd(c, 2 * p, 1);
      MulAssoc(2, p, c);
    }
    assert d >= B31 * c by {
      MulAssoc(B31, c, p);
      MulComm(c, p);
      MulLe(d + 1, B31 * c, p);
      MulAdd(p, d, 1);
    }
  }

  /** Picking between the estimate and its predecessor by the wrapped remainder is exact. */
  lemma CorrectEstimate(n: nat, d: nat, t: int, b: nat)
    requires d <= n < b && 0 < d && n / d <= t <= n / d + 1
    ensures n / d >= 1
    ensures n / d == if (n - (t - 1) * d) % b < d then t - 1 else t
  {
    var q := n / d;
    DivCompare(n, d, 1);
    assert d * q <= n < d * q + d;
    var x := n - (t - 1) * d;
    assert x == (if t == q then n - d * q + d else n - d * q) by {
      assert (t - 1) * d == d * t - d;
      assert d * (q + 1) == d * q + d;
    }
    MulLe(1, q, d);
    SmallMod(x, b);
  }

  // ----- remainders and signed forms

  /** Unsigned remainder, returned through a 32-bit result type. */
  method UMod64(n: nat, d: nat) returns (r: int)
    requires n < B64 && 0 < d < B64
    ensures r == n % d % B32
    ensures r == n % d <==> n % d < B32
  {
    var q := UDiv64(n, d);
    var x := n - d * q;
    assert x == n % d;
    SmallMod(x, B64);
    r := x % B64 % B32;
  }

  /** The 32-bit result type loses nothing for every dividend exactly when d <= 2^32. */
  lemma UMod64ExactDivisors(d: nat)
    requires 0 < d < B64
    ensures (forall n: nat | n < B64 :: n % d < B32) <==> d <= B32
  {
    if d > B32 {
      var n: nat := B32;
      DivIs(n, d, 0);
      assert n % d == n;
    }
  }

  predicate Int64(x: int) { -B63 <= x < B63 }

  function Wrap64(x: int): int { (x + B63) % B64 - B63 }

  function Wrap32(x: int): int { (x + B31) % B32 - B31 }

  function Magnitude(x: int): nat { if x < 0 then -x else x }

  /** C's division: the remainder is smaller than the divisor and has the dividend's sign. */
  predicate TruncatedQuotient(n: int, d: int, q: int)
  {
    var r := n - d * q;
    Magnitude(r) < Magnitude(d) && (n >= 0 ==> r >= 0) && (n <= 0 ==> r <= 0)
  }

  /** Signed quotient.  The one pair whose quotient has no 64-bit representation wraps. */
  method SDiv64(n: int, d: int) returns (q: int)
    requires Int64(n) && Int64(d) && d != 0
    ensures Int64(q)
    ensures TruncatedQuotient(n, d, q) <==> !(n == -B63 && d == -1)
    ensures n == -B63 && d == -1 ==> q == -B63
  {
    var nAbs := if n >= 0 then n else -n % B64;
    var dAbs := if d >= 0 then d else -d % B64;
    AbsoluteWraps(n);
    AbsoluteWraps(d);
    var qAbs := UDiv64(nAbs, dAbs);
    SignedResult(n, d, qAbs);
    q := if (n < 0) == (d < 0) then Wrap64(qAbs) else Wrap64(-Wrap64(qAbs));
  }

  lemma AbsoluteWraps(x: int)
    requires Int64(x)
    ensures (if x >= 0 then x else -x % B64) == Magnitude(x)
  {
    if x < 0 { SmallMod(-x, B64); }
  }

  lemma SignedResult(n: int, d: int, a: int)
    requires Int64(n) && Int64(d) && d != 0 && a == Magnitude(n) / Magnitude(d)
    ensures var q := if (n < 0) == (d < 0) then Wrap64(a) else Wrap64(-Wrap64(a));
      && (TruncatedQuotient(n, d, q) <==> !(n == -B63 && d == -1))
      && (n == -B63 && d == -1 ==> q == -B63)
  {
    SignedQuotient(n, d, a);
    QuotientRange(n, d, a);
    WrapsBack(a, (n < 0) == (d < 0));
  }

  lemma WrapsBack(a: int, same: bool)
    requires 0 <= a <= B63
    ensures (if same then Wrap64(a) else Wrap64(-Wrap64(a)))
         == if same then (if a == B63 then -B63 else a) else -a
  {
  }

  lemma SignedQuotient(n: int, d: int, a: int)
    requires d != 0 && a == Magnitude(n) / Magnitude(d)
    ensures a >= 0 && TruncatedQuotient(n, d, if (n < 0) == (d < 0) then a else -a)
  {
    var m: int, e: int := Magnitude(n), Magnitude(d);
    QuotientBounds(m, e, a);
    DivCompare(m, e, 0);
    SignedProduct(d, a);
  }

  lemma SignedProduct(d: int, a: int)
    ensures d * a == (if d < 0 then -(Magnitude(d) * a) else Magnitude(d) * a) && d * (-a) == -(d * a)
  {
    MulNeg(d, a);
  }

  lemma MulNeg(a: int, b: int)
    ensures a * (-b) == -(a * b) && (-a) * b == -(a * b) && (-a) * (-b) == a * b
  {}

  lemma QuotientRange(n: int, d: int, a: int)
    requires Int64(n) && Int64(d) && d != 0 && a == Magnitude(n) / Magnitude(d)
    ensures 0 <= a <= B63
    ensures a == B63 <==> n == -B63 && (d == 1 || d == -1)
  {
    var m: int, e: int := Magnitude(n), Magnitude(d);
    QuotientBounds(m, e, a);
    DivCompare(m, e, 0);
    MulLe(1, e, a);
    MulLe(2, e, a);
  }

  /** Signed remainder, returned through a 32-bit result type. */
  method SMod64(n: int, d: int) returns (r: int)
    requires Int64(n) && Int64(d) && d != 0
    ensures exists q :: TruncatedQuotient(n, d, q) && r == Wrap32(n - d * q)
  {
    var q := SDiv64(n, d);
    r := Wrap32(Wrap64(n - Wrap64(d * q)));
    SignedRemainder(n, d, q);
  }

  lemma SignedRemainder(n: int, d: int, q: int)
    requires Int64(n) && Int64(d) && d != 0
    requires if n == -B63 && d == -1 then q == -B63 else TruncatedQuotient(n, d, q)
    ensures exists q' :: TruncatedQuotient(n, d, q') && Wrap32(Wrap64(n - Wrap64(d * q))) == Wrap32(n - d * q')
  {
    if n == -B63 && d == -1 {
      assert TruncatedQuotient(n, d, B63);
    } else {
      ProductInRange(n, d, q);
      WrapsNot(d * q);
      WrapsNot(n - d * q);
    }
  }

  lemma WrapsNot(x: int)
    requires Int64(x)
    ensures Wrap64(x) == x
  {
  }

  lemma ProductInRange(n: int, d: int, q: int)
    requires Int64(n) && Int64(d) && TruncatedQuotient(n, d, q)
    ensures Int64(d * q) && Int64(n - d * q)
  {
    var r := n - d * q;
    var k := d * q;
    SmallMultiple(d, q);
    assert k == n - r;
  }

  lemma SmallMultiple(d: int, q: int)
    ensures d != 0 && Magnitude(d * q) < Magnitude(d) ==> q == 0 && d * q == 0
  {
    MulLe(1, q, d);
    MulLe(1, q, -d);
    MulLe(1, -q, d);
    MulLe(1, -q, -d);
    MulNeg(d, q);
  }

  /** The signed remainder survives its 32-bit result type for every dividend exactly when
      the divisor's magnitude is at most 2^31. */
  lemma SMod64ExactDivisors(d: int)
    requires Int64(d) && d != 0
    ensures (forall n, q | Int64(n) && TruncatedQuotient(n, d, q) :: Wrap32(n - d * q) == n - d * q)
        <==> Magnitude(d) <= B31
  {
    if Magnitude(d) > B31 {
      assert Int64(B31) && TruncatedQuotient(B31, d, 0);
    }
  }
}
