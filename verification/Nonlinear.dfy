/** Facts about products and quotients, stated as implications so that they can be cited
    without first splitting cases. */
module Nonlinear {

  function Pow2(k: nat): (p: nat)
    ensures p > 0
  {
    if k == 0 then 1 else 2 * Pow2(k - 1)
  }

  lemma {:induction false} Pow2Add(a: nat, b: nat)
    ensures Pow2(a + b) == Pow2(a) * Pow2(b)
  {
    if a != 0 {
      Pow2Add(a - 1, b);
      assert Pow2(a + b) == 2 * Pow2(a - 1 + b);
      assert 2 * (Pow2(a - 1) * Pow2(b)) == 2 * Pow2(a - 1) * Pow2(b);
    }
  }

  lemma MulLe(a: int, b: int, c: int)
    ensures a <= b && 0 <= c ==> a * c <= b * c && c * a <= c * b
  {}

  lemma MulLt(a: int, b: int, c: int)
    ensures a < b && 0 < c ==> a * c < b * c && c * a < c * b
  {}

  lemma MulAdd(a: int, b: int, c: int)
    ensures a * (b + c) == a * b + a * c && (b + c) * a == b * a + c * a
  {}

  lemma MulAssoc(a: int, b: int, c: int)
    ensures a * (b * c) == a * b * c && a * b * c == b * (a * c) && a * b * c == b * a * c
  {}

  lemma MulComm(a: int, b: int)
    ensures a * b == b * a
  {}

  lemma DivIs(a: int, d: int, q: int)
    requires d > 0 && d * q <= a < d * q + d
    ensures a / d == q
  {
    var t := a / d;
    MulLe(q + 1, t, d);
    MulLe(t + 1, q, d);
  }

  /** Comparing a quotient is comparing a product. */
  lemma DivCompare(a: int, d: int, b: int)
    requires d > 0
    ensures a / d < b <==> a < d * b
  {
    MulLe(b, a / d, d);
    MulLe(a / d + 1, b, d);
  }

  lemma SmallMod(x: int, m: int)
    requires 0 <= x < m
    ensures x % m == x
  {
    DivIs(x, m, 0);
  }

  lemma DivDiv(a: int, b: int, c: int)
    requires b > 0 && c > 0
    ensures b * c > 0 && a / b / c == a / (b * c)
  {
    var q := a / b / c;
    MulLe(1, c, b);
    assert c * q <= a / b <= c * q + c - 1;
    MulLe(c * q, a / b, b);
    MulLe(a / b + 1, c * q + c, b);
    assert b * (c * q) == b * c * q && b * (c * q + c) == b * c * q + b * c;
    DivIs(a, b * c, q);
  }

  lemma DivShift(a: int, d: int, k: int)
    requires d > 0
    ensures (a + d * k) / d == a / d + k
  {
    assert d * (a / d + k) == d * (a / d) + d * k;
    DivIs(a + d * k, d, a / d + k);
  }
}
