// Natural-number powers, and the two constants the tree height bounds need.

module Arith {

  function Pow(b: nat, e: nat): nat
  {
    if e == 0 then 1 else b * Pow(b, e - 1)
  }

  lemma {:induction false} PowAdd(b: nat, m: nat, n: nat)
    ensures Pow(b, m + n) == Pow(b, m) * Pow(b, n)
    decreases m
  {
    if m > 0 {
      PowAdd(b, m - 1, n);
      assert Pow(b, m + n) == b * Pow(b, m - 1 + n);
    }
  }

  lemma {:induction false} PowMul(b: nat, m: nat, n: nat)
    ensures Pow(b, m * n) == Pow(Pow(b, m), n)
    decreases n
  {
    if n > 0 {
      PowMul(b, m, n - 1);
      assert m * n == m + m * (n - 1);
      PowAdd(b, m, m * (n - 1));
    }
  }

  lemma {:induction false} PowProduct(a: nat, b: nat, n: nat)
    ensures Pow(a, n) * Pow(b, n) == Pow(a * b, n)
    decreases n
  {
    if n > 0 {
      PowProduct(a, b, n - 1);
      var x, y := Pow(a, n - 1), Pow(b, n - 1);
      assert (a * x) * (b * y) == (a * b) * (x * y);
    }
  }

  lemma {:induction false} PowLess(a: nat, b: nat, n: nat)
    requires a < b && n > 0
    ensures Pow(a, n) < Pow(b, n)
    decreases n
  {
    if n > 1 {
      PowLess(a, b, n - 1);
      assert a * Pow(a, n - 1) <= a * Pow(b, n - 1);
      assert a * Pow(b, n - 1) < b * Pow(b, n - 1);
    }
  }

  /** A positive factor on both sides of < cancels. */
  lemma CancelFactor(p: nat, m: nat, g: nat)
    requires p * m < p * g
    ensures m < g
  {
    assert p * g - p * m == p * (g - m);
  }

  lemma Scale(n: nat)
    requires n > 0
    ensures Pow(5, 3 * n) * Pow(2, 2 * n) < Pow(8, 3 * n)
  {
    assert Pow(5, 3) == 125 && Pow(2, 2) == 4 && Pow(8, 3) == 512;
    PowMul(5, 3, n);
    PowMul(2, 2, n);
    PowMul(8, 3, n);
    PowProduct(125, 4, n);
    PowLess(500, 512, n);
  }

  /** 2^64 is below (8/5)^96. */
  lemma Bound96()
    ensures Pow(5, 96) * Pow(2, 64) < Pow(8, 96)
  {
    Scale(32);
  }

  lemma TwoTo64()
    ensures Pow(2, 64) == 0x1_0000_0000_0000_0000
  {
    PowMul(2, 8, 8);
    assert Pow(2, 8) == 256;
    assert Pow(256, 8) == 0x1_0000_0000_0000_0000;
  }
}
