/** Divisors, coprimality and primes. */
module Divisibility {
  import opened Arith

  ghost predicate Divides(d: int, a: int)
    requires d > 0
  {
    a % d == 0
  }

  ghost predicate CommonDivisor(d: int, a: int, b: int)
    requires d > 0
  {
    Divides(d, a) && Divides(d, b)
  }

  ghost predicate Coprime(a: int, b: int)
  {
    forall d :: d > 1 ==> !CommonDivisor(d, a, b)
  }

  /** `(a, b)` and `(c, d)` have the same common divisors. */
  ghost predicate SameDivisors(a: int, b: int, c: int, d: int)
  {
    forall g :: g > 0 ==> (CommonDivisor(g, a, b) <==> CommonDivisor(g, c, d))
  }

  lemma SameDivisorsTrans(a: int, b: int, c: int, d: int, e: int, f: int)
    requires SameDivisors(a, b, c, d) && SameDivisors(c, d, e, f)
    ensures SameDivisors(a, b, e, f)
  {
  }

  lemma SameDivisorsSwap(a: int, b: int, c: int, d: int)
    requires SameDivisors(a, b, c, d)
    ensures SameDivisors(b, a, c, d) && SameDivisors(a, b, d, c) && SameDivisors(b, a, d, c)
  {
  }

  lemma SameDivisorsSelf(a: int, b: int)
    ensures SameDivisors(a, b, a, b) && SameDivisors(a, b, b, a)
  {
  }

  lemma DividesMultiple(d: int, k: int)
    requires d > 0
    ensures Divides(d, k * d)
  {
    DivModUnique(k * d, k, 0, d);
  }

  lemma DividesLinear(d: int, a: int, b: int, k: int)
    requires d > 0 && Divides(d, a) && Divides(d, b)
    ensures Divides(d, a + k * b)
  {
    DivModDef(a, d);
    DivModDef(b, d);
    var p, q := a / d, b / d;
    assert a + k * b == (p + k * q) * d;
    DividesMultiple(d, p + k * q);
  }

  /** Subtracting a multiple of one from the other keeps the common divisors. */
  lemma SameDivisorsShift(a: int, b: int, k: int)
    ensures SameDivisors(a + k * b, b, a, b)
  {
    forall g | g > 0
      ensures CommonDivisor(g, a + k * b, b) <==> CommonDivisor(g, a, b)
    {
      if CommonDivisor(g, a, b) { DividesLinear(g, a, b, k); }
      if CommonDivisor(g, a + k * b, b) {
        DividesLinear(g, a + k * b, b, -k);
        assert (a + k * b) + (-k) * b == a;
      }
    }
  }

  /** Halving an even number keeps the common divisors with an odd one. */
  lemma SameDivisorsHalve(a: int, b: int)
    requires a % 2 == 0 && b % 2 != 0
    ensures SameDivisors(a / 2, b, a, b)
  {
    forall g | g > 0
      ensures CommonDivisor(g, a / 2, b) <==> CommonDivisor(g, a, b)
    {
      if CommonDivisor(g, a / 2, b) { DividesLinear(g, a / 2, a / 2, 1); }
      if CommonDivisor(g, a, b) { OddDivisorOfEven(g, a, b); }
    }
  }

  lemma OddDivisorOfEven(g: int, a: int, b: int)
    requires g > 0 && a % 2 == 0 && b % 2 != 0 && CommonDivisor(g, a, b)
    ensures Divides(g, a / 2)
  {
    DivModDef(a, g);
    DivModDef(b, g);
    OddQuotient(a / g, b / g, g, a, b);
  }

  lemma OddQuotient(p: int, q: int, g: int, a: int, b: int)
    requires g > 0 && a == p * g && b == q * g && a % 2 == 0 && b % 2 != 0
    ensures Divides(g, a / 2)
  {
    ParityProduct(p, g);
    ParityProduct(q, g);
    TwiceMul(p, p / 2, 0, g);
    DividesMultiple(g, p / 2);
  }

  /** With zero on one side, the other side is the greatest common divisor. */
  lemma CoprimeFromZero(v: int, a: int, b: int)
    requires v > 0 && SameDivisors(0, v, a, b)
    ensures Coprime(a, b) <==> v == 1
  {
    DividesMultiple(v, 0);
    DividesMultiple(v, 1);
    assert CommonDivisor(v, 0, v);
    if v == 1 {
      forall d | d > 1
        ensures !CommonDivisor(d, a, b)
      {
        ModSmall(1, d);
        assert !CommonDivisor(d, 0, v);
      }
    }
  }
}
