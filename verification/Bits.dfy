/** Bitwise operations on naturals. */
module Bits {
  import opened Arith

  function Xor(a: nat, b: nat): nat
  {
    if a == 0 && b == 0 then 0 else (a + b) % 2 + 2 * Xor(a / 2, b / 2)
  }

  function Or(a: nat, b: nat): nat
  {
    if a == 0 && b == 0 then 0 else Max(a % 2, b % 2) + 2 * Or(a / 2, b / 2)
  }

  function And(a: nat, b: nat): nat
  {
    if a == 0 || b == 0 then 0 else (a % 2) * (b % 2) + 2 * And(a / 2, b / 2)
  }

  /** Xor with the same number twice, in either place. */
  lemma {:induction false} XorTwice(a: nat, b: nat)
    ensures Xor(a, Xor(a, b)) == b && Xor(b, Xor(a, b)) == a
  {
    hide Xor;
    if a == 0 && b == 0 {
      XorNone(0);
    } else {
      XorTwice(a / 2, b / 2);
      var x := Xor(a, b);
      XorDef(a, b);
      XorDef(a, x);
      XorDef(b, x);
      TopBits(x, (a + b) % 2, Xor(a / 2, b / 2));
      ThirdBit(a, b, x);
    }
  }

  lemma TopBits(x: nat, r: int, h: nat)
    requires x == r + 2 * h && 0 <= r <= 1
    ensures x % 2 == r && x / 2 == h
  {
  }

  lemma ThirdBit(a: nat, b: nat, x: nat)
    requires x % 2 == (a + b) % 2
    ensures (a + x) % 2 == b % 2 && (b + x) % 2 == a % 2
  {
  }

  lemma XorDef(a: nat, b: nat)
    ensures Xor(a, b) == (a + b) % 2 + 2 * Xor(a / 2, b / 2)
  {
  }

  lemma {:induction false} XorNone(a: nat)
    ensures Xor(a, 0) == a
  {
    if a > 0 {
      XorNone(a / 2);
    }
  }

  /** A mask of k ones keeps every number of k bits. */
  lemma {:induction false} AndOnes(a: nat, k: nat)
    requires a < Pow(2, k)
    ensures Pow(2, k) > 0 && And(Pow(2, k) - 1, a) == a
  {
    PowPositive(2, k);
    if k > 0 {
      AndOnes(a / 2, k - 1);
      assert (Pow(2, k) - 1) / 2 == Pow(2, k - 1) - 1 && (Pow(2, k) - 1) % 2 == 1;
    }
  }

  lemma {:induction false} XorZero(a: nat, b: nat, k: nat)
    requires a < Pow(2, k) && b < Pow(2, k)
    ensures Xor(a, b) < Pow(2, k) && (Xor(a, b) == 0 <==> a == b)
  {
    if k > 0 {
      XorZero(a / 2, b / 2, k - 1);
    }
  }

  lemma {:induction false} OrZero(a: nat, b: nat, k: nat)
    requires a < Pow(2, k) && b < Pow(2, k)
    ensures Or(a, b) < Pow(2, k) && (Or(a, b) == 0 <==> a == 0 && b == 0)
  {
    if k > 0 {
      OrZero(a / 2, b / 2, k - 1);
    }
  }

  /** Or of numbers without a common bit. */
  lemma {:induction false} OrDisjoint(a: nat, b: nat, k: nat)
    requires Pow(2, k) > 0 && a % Pow(2, k) == 0 && b < Pow(2, k)
    ensures Or(a, b) == a + b
  {
    if k == 0 {
      OrNone(a);
    } else {
      PowPositive(2, k - 1);
      var p, q := Pow(2, k - 1), a / Pow(2, k);
      DivModDef(a, 2 * p);
      assert a == 2 * (q * p) by { assert q * (2 * p) == 2 * (q * p); }
      DivModUnique(a / 2, q, 0, p);
      OrDisjoint(a / 2, b / 2, k - 1);
    }
  }

  lemma {:induction false} OrNone(a: nat)
    ensures Or(a, 0) == a
  {
    if a > 0 {
      OrNone(a / 2);
    }
  }
}
