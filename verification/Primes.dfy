/** Primes: Euclid's lemma, Fermat's little theorem and the square roots of 1. */
module Primes {
  import opened Arith
  import opened Divisibility

  ghost predicate IsPrime(p: int)
  {
    p > 1 && forall d :: 1 < d < p ==> !Divides(d, p)
  }

  /** A prime that divides a * b with 0 < a < p divides b: descent on a. */
  lemma {:induction false} EuclidSmall(p: int, a: int, b: int)
    requires IsPrime(p) && 0 < a < p && Divides(p, a * b)
    ensures Divides(p, b)
    decreases a
  {
    if a > 1 {
      DivModDef(p, a);
      var q, r := p / a, p % a;
      assert !Divides(a, p);
      assert r * b == b * p + (-q) * (a * b) by { Remainder(p, q, a, r, b); }
      DividesMultiple(p, b);
      DividesLinear(p, b * p, a * b, -q);
      EuclidSmall(p, r, b);
    }
  }

  lemma Remainder(p: int, q: int, a: int, r: int, b: int)
    requires p == q * a + r
    ensures r * b == b * p + (-q) * (a * b)
  {
    assert b * p == b * (q * a) + b * r;
    assert b * (q * a) == q * (a * b);
  }

  /** Euclid's lemma. */
  lemma Euclid(p: int, a: int, b: int)
    requires IsPrime(p) && Divides(p, a * b)
    ensures Divides(p, a) || Divides(p, b)
  {
    hide IsPrime;
    PrimeAboveOne(p);
    if !Divides(p, a) {
      DivModDef(a, p);
      var r, q := a % p, a / p;
      ResidueProduct(a, p, q, r, b);
      DividesMultiple(p, 1);
      assert 1 * p == p;
      DividesLinear(p, a * b, p, -(q * b));
      EuclidSmall(p, r, b);
    }
  }

  lemma ResidueProduct(a: int, p: int, q: int, r: int, b: int)
    requires a == q * p + r
    ensures r * b == a * b + (-(q * b)) * p
  {
    assert (q * p + r) * b == (q * p) * b + r * b;
    assert (q * p) * b == (q * b) * p;
  }

  lemma PrimeAboveOne(p: int)
    requires IsPrime(p)
    ensures p > 1
  {
  }

  // ----- binomial coefficients -----

  function Choose(n: nat, k: nat): nat
  {
    if k == 0 then 1 else if n == 0 then 0 else Choose(n - 1, k - 1) + Choose(n - 1, k)
  }

  lemma {:induction false} ChooseOver(n: nat, k: nat)
    requires k > n
    ensures Choose(n, k) == 0
  {
    if n > 0 {
      ChooseOver(n - 1, k - 1);
      ChooseOver(n - 1, k);
    }
  }

  lemma {:induction false} ChooseAll(n: nat)
    ensures Choose(n, n) == 1
  {
    if n > 0 {
      ChooseAll(n - 1);
      ChooseOver(n - 1, n);
    }
  }

  /** k C(n, k) = n C(n - 1, k - 1). */
  lemma {:induction false} Absorption(n: nat, k: nat)
    requires n > 0 && k > 0
    ensures k * Choose(n, k) == n * Choose(n - 1, k - 1)
  {
    hide Choose;
    Pascal(n, k);
    if n == 1 {
      ChooseOver(0, k);
      if k > 1 { ChooseOver(0, k - 1); } else { ChooseNone(0); }
    } else if k == 1 {
      Absorption(n - 1, 1);
      ChooseNone(n - 1);
      ChooseNone(n - 2);
    } else {
      Absorption(n - 1, k);
      Absorption(n - 1, k - 1);
      Pascal(n - 1, k - 1);
      AbsorptionArith(n, k, Choose(n - 1, k - 1), Choose(n - 1, k), Choose(n - 2, k - 2), Choose(n - 2, k - 1));
    }
  }

  lemma Pascal(n: nat, k: nat)
    requires n > 0 && k > 0
    ensures Choose(n, k) == Choose(n - 1, k - 1) + Choose(n - 1, k)
  {
  }

  lemma AbsorptionArith(n: int, k: int, a: int, b: int, c: int, d: int)
    requires a == c + d && k * b == (n - 1) * d && (k - 1) * a == (n - 1) * c
    ensures k * (a + b) == n * a
  {
    assert k * (a + b) == (k - 1) * a + a + k * b;
    assert (n - 1) * c + (n - 1) * d == (n - 1) * (c + d);
    assert (n - 1) * a == n * a - a;
  }

  /** A prime divides the inner coefficients of its row. */
  lemma PrimeRow(p: int, k: nat)
    requires IsPrime(p) && 0 < k < p
    ensures Divides(p, Choose(p, k))
  {
    hide Choose, IsPrime;
    PrimeAboveOne(p);
    Absorption(p, k);
    DividesMultiple(p, Choose(p - 1, k - 1));
    Euclid(p, k, Choose(p, k));
    if Divides(p, k) {
      ModSmall(k, p);
    }
  }

  /** The first k + 1 terms of the expansion of (1 + x)^n. */
  function Expansion(n: nat, x: int, k: nat): int
  {
    Choose(n, k) * Pow(x, k) + if k == 0 then 0 else Expansion(n, x, k - 1)
  }

  lemma {:induction false} ExpansionStep(n: nat, x: int, k: nat)
    ensures Expansion(n + 1, x, k) == Expansion(n, x, k) + if k == 0 then 0 else x * Expansion(n, x, k - 1)
  {
    hide Choose, Pow;
    if k == 0 {
      ChooseNone(n);
      ChooseNone(n + 1);
    } else {
      ExpansionStep(n, x, k - 1);
      Pascal(n + 1, k);
      PowNext(x, k - 1);
      TermArith(x, Choose(n, k - 1), Choose(n, k), Pow(x, k - 1), if k == 1 then 0 else Expansion(n, x, k - 2));
    }
  }

  lemma TermArith(x: int, a: int, b: int, p: int, e: int)
    ensures (a + b) * (x * p) == b * (x * p) + x * (a * p)
    ensures x * (a * p + e) == x * (a * p) + x * e
  {
    assert a * (x * p) == x * (a * p);
    assert (a + b) * (x * p) == a * (x * p) + b * (x * p);
  }

  /** The binomial theorem. */
  lemma {:induction false} Binomial(n: nat, x: int)
    ensures Expansion(n, x, n) == Pow(1 + x, n)
  {
    hide Choose, Pow;
    if n == 0 {
      ChooseNone(0);
      PowFirst(x);
      PowFirst(1 + x);
    } else {
      Binomial(n - 1, x);
      ExpansionStep(n - 1, x, n);
      ChooseOver(n - 1, n);
      PowNext(1 + x, n - 1);
      var e := Pow(1 + x, n - 1);
      assert e + x * e == (1 + x) * e;
    }
  }

  lemma {:induction false} PrimeExpansion(p: int, x: int, k: nat)
    requires IsPrime(p) && k < p
    ensures Cong(Expansion(p, x, k), 1, p)
  {
    hide IsPrime, Choose;
    PrimeAboveOne(p);
    if k == 0 {
      ChooseNone(p);
      assert Pow(x, 0) == 1;
      CongSelf(1, p);
    } else {
      PrimeRow(p, k);
      PrimeExpansion(p, x, k - 1);
      var c := Choose(p, k);
      DivModDef(c, p);
      var t := (c / p) * Pow(x, k);
      assert c * Pow(x, k) == t * p by { assert ((c / p) * p) * Pow(x, k) == t * p; }
      CongIntro(Expansion(p, x, k), Expansion(p, x, k - 1), t, p);
      CongTrans(Expansion(p, x, k), Expansion(p, x, k - 1), 1, p);
    }
  }

  lemma ChooseNone(n: nat)
    ensures Choose(n, 0) == 1
  {
  }

  // ----- Fermat -----

  /** (1 + x)^p = 1 + x^p modulo p. */
  lemma Frobenius(p: int, x: int)
    requires IsPrime(p)
    ensures Cong(Pow(1 + x, p), 1 + Pow(x, p), p)
  {
    hide IsPrime, Choose, Pow, Cong;
    PrimeAboveOne(p);
    Binomial(p, x);
    ChooseAll(p);
    PrimeExpansion(p, x, p - 1);
    CongSelf(Pow(x, p), p);
    CongAdd(Expansion(p, x, p - 1), 1, Pow(x, p), Pow(x, p), p);
  }

  lemma {:induction false} FermatPower(p: int, x: nat)
    requires IsPrime(p)
    ensures Cong(Pow(x, p), x, p)
  {
    hide IsPrime, Pow, Cong;
    PrimeAboveOne(p);
    if x == 0 {
      ZeroPower(p);
      CongSelf(0, p);
    } else {
      Frobenius(p, x - 1);
      FermatPower(p, x - 1);
      CongSelf(1, p);
      CongAdd(1, 1, Pow(x - 1, p), x - 1, p);
      CongTrans(Pow(x, p), 1 + Pow(x - 1, p), x, p);
    }
  }

  lemma ZeroPower(e: nat)
    requires e > 0
    ensures Pow(0, e) == 0
  {
    assert Pow(0, e) == 0 * Pow(0, e - 1);
  }

  /** Fermat's little theorem. */
  lemma Fermat(p: int, x: nat)
    requires IsPrime(p) && !Divides(p, x)
    ensures Cong(Pow(x, p - 1), 1, p)
  {
    hide IsPrime, Cong;
    PrimeAboveOne(p);
    FermatPower(p, x);
    var y := Pow(x, p - 1);
    var k := CongElim(Pow(x, p), x, p);
    assert x * (y - 1) == k * p by { assert x * (y - 1) == x * y - x; }
    DividesMultiple(p, k);
    Euclid(p, x, y - 1);
    DivModDef(y - 1, p);
    CongIntro(y, 1, (y - 1) / p, p);
  }

  /** 1 has no other square roots than itself and -1. */
  lemma RootsOfOne(p: int, y: int)
    requires IsPrime(p) && 0 <= y < p && Cong(y * y, 1, p)
    ensures y == 1 || y == p - 1
  {
    hide IsPrime, Cong;
    PrimeAboveOne(p);
    var k := CongElim(y * y, 1, p);
    assert (y - 1) * (y + 1) == k * p by { assert (y - 1) * (y + 1) == y * y - 1; }
    DividesMultiple(p, k);
    Euclid(p, y - 1, y + 1);
    if Divides(p, y - 1) {
      if y == 0 {
        DivModUnique(-1, -1, p - 1, p);
      } else {
        ModSmall(y - 1, p);
      }
    } else if y < p - 1 {
      ModSmall(y + 1, p);
    }
  }
}
