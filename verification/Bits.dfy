/** The operators & and | of C on nonnegative words, bit by bit. */
module Bits {
  import opened Nonlinear

  function And(x: nat, y: nat): nat
  {
    if x == 0 || y == 0 then 0 else 2 * And(x / 2, y / 2) + if x % 2 == 1 && y % 2 == 1 then 1 else 0
  }

  function Or(x: nat, y: nat): nat
  {
    if x == 0 && y == 0 then 0 else 2 * Or(x / 2, y / 2) + if x % 2 == 1 || y % 2 == 1 then 1 else 0
  }

  /** The word with x above its k lowest bits, which are those of a. */
  function Join(x: nat, k: nat, a: nat): nat { x * Pow2(k) + a }

  lemma HalfJoin(x: nat, k: nat, a: nat)
    requires k > 0 && a < Pow2(k)
    ensures Join(x, k, a) / 2 == Join(x, k - 1, a / 2) && Join(x, k, a) % 2 == a % 2 && a / 2 < Pow2(k - 1)
  {
    MulAssoc(x, 2, Pow2(k - 1));
  }

  /** Both operators work on the upper and the lower bits separately. */
  lemma {:induction false} Separately(x: nat, a: nat, y: nat, b: nat, k: nat)
    requires a < Pow2(k) && b < Pow2(k)
    ensures And(a, b) < Pow2(k) && And(Join(x, k, a), Join(y, k, b)) == Join(And(x, y), k, And(a, b))
    ensures Or(a, b) < Pow2(k) && Or(Join(x, k, a), Join(y, k, b)) == Join(Or(x, y), k, Or(a, b))
  {
    if k > 0 {
      HalfJoin(x, k, a);
      HalfJoin(y, k, b);
      Separately(x, a / 2, y, b / 2, k - 1);
      AndHalves(Join(x, k, a), Join(y, k, b));
      AndHalves(a, b);
      HalfJoin(And(x, y), k, And(a, b));
      HalfJoin(Or(x, y), k, Or(a, b));
    }
  }

  lemma AndHalves(x: nat, y: nat)
    ensures And(x, y) / 2 == And(x / 2, y / 2) && And(x, y) % 2 == if x % 2 == 1 && y % 2 == 1 then 1 else 0
    ensures Or(x, y) / 2 == Or(x / 2, y / 2) && Or(x, y) % 2 == if x % 2 == 1 || y % 2 == 1 then 1 else 0
  {
  }

  /** Masking with k ones takes the remainder modulo 2^k. */
  lemma {:induction false} AndOnes(x: nat, k: nat)
    ensures And(x, Pow2(k) - 1) == x % Pow2(k)
  {
    if k > 0 {
      AndOnes(x / 2, k - 1);
      OnesStep(x, Pow2(k - 1));
      ModHalves(x, Pow2(k - 1));
    }
  }

  lemma OnesStep(x: nat, m: nat)
    requires m > 0
    ensures And(x, 2 * m - 1) == 2 * And(x / 2, m - 1) + x % 2
  {
    AndHalves(x, 2 * m - 1);
    assert (2 * m - 1) / 2 == m - 1;
  }

  lemma ModHalves(x: nat, m: nat)
    requires m > 0
    ensures x % (2 * m) == 2 * (x / 2 % m) + x % 2
  {
    var q, r := x / 2 / m, x / 2 % m;
    assert x == 2 * (m * q + r) + x % 2 == 2 * m * q + (2 * r + x % 2);
    DivIs(x, 2 * m, q);
  }

  /** A mask whose k lowest bits are clear. */
  lemma MaskAbove(x: nat, k: nat, a: nat, mask: nat)
    requires a < Pow2(k)
    ensures And(Join(x, k, a), Join(mask, k, 0)) == Join(And(x, mask), k, 0)
  {
    Separately(x, a, mask, 0, k);
  }

  /** Or-ing a flag into the low bits of an address. */
  lemma OrLow(x: nat, k: nat, a: nat, b: nat)
    requires a < Pow2(k) && b < Pow2(k)
    ensures Or(Join(x, k, a), b) == Join(x, k, Or(a, b))
  {
    Separately(x, a, 0, b, k);
    OrZero(x);
    assert Join(0, k, b) == b;
  }

  lemma {:induction false} OrZero(x: nat)
    ensures Or(x, 0) == x
  {
    if x > 0 {
      OrZero(x / 2);
    }
  }

  lemma Pow2Is()
    ensures Pow2(0) == 1 && Pow2(1) == 2 && Pow2(10) == 1024 && Pow2(12) == 4096 && Pow2(20) == 0x10_0000
    ensures Pow2(22) == 0x40_0000 && Pow2(31) == 0x8000_0000
  {
    assert Pow2(10) == 1024;
    Pow2Add(10, 10);
    Pow2Add(10, 12);
    Pow2Add(20, 11);
  }

  lemma JoinIs(x: nat, a: nat)
    ensures Join(x, 0, a) == x + a && Join(x, 1, a) == 2 * x + a && Join(x, 12, a) == 4096 * x + a
  {
    Pow2Is();
  }
}
