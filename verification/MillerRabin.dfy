/** The Miller-Rabin test: exactly the strong probable primes pass, so every prime does. */
module MillerRabin {
  import opened Arith
  import opened Mp
  import opened Division
  import opened Multiply
  import opened Divisibility
  import opened Primes
  import opened Exponentiation

  /** mp_cnt_lsb: how often 2 divides v. */
  function TrailingZeros(v: nat): (s: nat)
  {
    if v == 0 || v % 2 == 1 then 0 else 1 + TrailingZeros(v / 2)
  }

  lemma {:induction false} OddPart(v: nat)
    requires v > 0
    ensures Pow(2, TrailingZeros(v)) > 0
    ensures v == (v / Pow(2, TrailingZeros(v))) * Pow(2, TrailingZeros(v)) && (v / Pow(2, TrailingZeros(v))) % 2 == 1
  {
    var s := TrailingZeros(v);
    PowPositive(2, s);
    if v % 2 == 1 {
      DivModUnique(v, v, 0, 1);
    } else {
      OddPart(v / 2);
      var q, r := Pow(2, s - 1), (v / 2) / Pow(2, s - 1);
      assert Pow(2, s) == 2 * q;
      assert v == r * (2 * q) by { assert 2 * (r * q) == r * (2 * q); }
      DivModUnique(v, r, 0, 2 * q);
    }
  }

  /** b^(2^j r) modulo a. */
  ghost function Squared(b: int, r: nat, j: nat, a: int): (y: int)
    requires a > 0
    ensures 0 <= y < a
  {
    Rem(Pow(Pow(b, r), Pow2(j)), a)
  }

  function Pow2(j: nat): nat
  {
    PowPositive(2, j);
    Pow(2, j)
  }

  /** a is a strong probable prime to the base b: a - 1 = 2^s r with r odd. */
  ghost predicate StrongProbablePrime(a: int, b: int)
    requires a > 1
  {
    var s := TrailingZeros(a - 1);
    var r := OddPartOf(a - 1);
    Squared(b, r, 0, a) == 1 || exists j: nat :: j < s && Squared(b, r, j, a) == a - 1
  }

  ghost function OddPartOf(v: nat): nat
    requires v > 0
  {
    OddPart(v);
    DivMonotone(0, v, Pow(2, TrailingZeros(v)));
    v / Pow(2, TrailingZeros(v))
  }

  lemma SquaredNext(b: int, r: nat, j: nat, a: int)
    requires a > 0
    ensures Squared(b, r, j + 1, a) == Rem(Squared(b, r, j, a) * Squared(b, r, j, a), a)
  {
    hide Pow, Rem, Cong;
    var c, e := Pow(b, r), Pow2(j);
    Pow2Next(j);
    PowAdd(c, e, e);
    var x, y := Pow(c, e), Squared(b, r, j, a);
    RemIsCong(x, a);
    CongMul(y, x, y, x, a);
    RemCong(y * y, x * x, a);
  }

  lemma Pow2Next(j: nat)
    ensures Pow2(j + 1) == Pow2(j) + Pow2(j) && Pow2(0) == 1
  {
  }

  lemma SquaredFirst(b: int, r: nat, a: int)
    requires a > 0
    ensures Squared(b, r, 0, a) == Rem(Pow(b, r), a)
  {
    var c := Pow(b, r);
    Pow2Next(0);
    assert Pow(c, 1) == c * Pow(c, 0);
  }

  /** Once 1, always 1. */
  lemma {:induction false} OnesStay(b: int, r: nat, j: nat, i: nat, a: int)
    requires a > 1 && j <= i && Squared(b, r, j, a) == 1
    ensures Squared(b, r, i, a) == 1
    decreases i - j
  {
    hide Squared;
    if j < i {
      OnesStay(b, r, j, i - 1, a);
      SquaredNext(b, r, i - 1, a);
      ModSmall(1, a);
    }
  }

  // ----- every prime passes -----

  /** If the j-th square is 1, the first power is 1 or -1 came before. */
  lemma {:induction false} BackToOne(p: int, b: int, r: nat, j: nat) returns (i: nat)
    requires IsPrime(p) && p > 1 && Squared(b, r, j, p) == 1
    ensures Squared(b, r, 0, p) == 1 || (i < j && Squared(b, r, i, p) == p - 1)
  {
    hide Squared, IsPrime;
    i := 0;
    if j > 0 {
      var y := Squared(b, r, j - 1, p);
      SquaredNext(b, r, j - 1, p);
      OneIsCong(y * y, p);
      RootsOfOne(p, y);
      if y == 1 {
        i := BackToOne(p, b, r, j - 1);
      } else {
        i := j - 1;
      }
    }
  }

  lemma OneIsCong(u: int, p: int)
    requires p > 1 && Rem(u, p) == 1
    ensures Cong(u, 1, p)
  {
    ModSmall(1, p);
  }

  lemma PrimePasses(p: int, b: int)
    requires IsPrime(p) && b > 1 && !Divides(p, b)
    ensures p > 1 && StrongProbablePrime(p, b)
  {
    hide Squared, IsPrime, Pow, TrailingZeros, OddPartOf;
    PrimeAboveOne(p);
    var s, r := TrailingZeros(p - 1), OddPartOf(p - 1);
    LastSquare(p, b, s, r);
    var i := BackToOne(p, b, r, s);
  }

  lemma LastSquare(p: int, b: int, s: nat, r: nat)
    requires IsPrime(p) && b > 1 && !Divides(p, b) && p > 1 && s == TrailingZeros(p - 1) && r == OddPartOf(p - 1)
    ensures Squared(b, r, s, p) == 1
  {
    hide IsPrime, Pow, TrailingZeros;
    OddPart(p - 1);
    PowPow(b, r, Pow2(s));
    Fermat(p, b);
    RemCong(Pow(b, p - 1), 1, p);
    ModSmall(1, p);
  }

  /** What passes is at least a Fermat probable prime: b^(a-1) is 1 modulo a. */
  lemma StrongIsFermat(a: int, b: int)
    requires a > 1 && StrongProbablePrime(a, b)
    ensures Rem(Pow(b, a - 1), a) == 1
  {
    hide Squared, Pow, TrailingZeros, OddPartOf, Rem;
    var s, r := TrailingZeros(a - 1), OddPartOf(a - 1);
    if Squared(b, r, 0, a) == 1 {
      OnesStay(b, r, 0, s, a);
    } else {
      var j: nat :| j < s && Squared(b, r, j, a) == a - 1;
      SquaredNext(b, r, j, a);
      MinusOneSquared(a);
      OnesStay(b, r, j + 1, s, a);
    }
    WholePower(a, b, s, r);
  }

  lemma MinusOneSquared(a: int)
    requires a > 1
    ensures Rem((a - 1) * (a - 1), a) == 1
  {
    assert (a - 1) * (a - 1) == (a - 2) * a + 1;
    RemUnique((a - 1) * (a - 1), a - 2, 1, a);
  }

  lemma WholePower(a: int, b: int, s: nat, r: nat)
    requires a > 1 && s == TrailingZeros(a - 1) && r == OddPartOf(a - 1)
    ensures Squared(b, r, s, a) == Rem(Pow(b, a - 1), a)
  {
    hide Pow, TrailingZeros, Rem;
    OddPart(a - 1);
    PowPow(b, r, Pow2(s));
  }

  // ----- mp_prime_miller_rabin -----

  /** mp_sqrmod. */
  method SqrMod(y: Int, a: Int)
    requires y != a && y.Valid() && a.Valid() && a.Value() > 0
    modifies y
    ensures y.Valid() && y.Value() == Rem(old(y.Value()) * old(y.Value()), a.Value())
  {
    hide Int.Value, Int.Valid, Rem;
    Sqr(y, y);
    Mod(y, a, y);
  }

  /** The squarings: whether some y reaches n1 before 1 and before the s-th. */
  method Squarings(y: Int, a: Int, n1: Int, s: nat, ghost b: int, ghost r: nat) returns (result: bool)
    requires y != a && y != n1 && y.Valid() && a.Valid() && n1.Valid() && a.Value() > 0 && n1.Value() == a.Value() - 1
    requires y.Value() != 1 && y.Value() != n1.Value()
    modifies y
    ensures y.Valid()
    ensures s == 0 ==> !result
    ensures a.Value() > 2 && old(y.Value()) == Squared(b, r, 0, a.Value()) ==>
      (result <==> exists j: nat :: j < s && Squared(b, r, j, a.Value()) == a.Value() - 1)
  {
    hide Int.Value, Int.Valid, Rem, Squared;
    ghost var p, start := a.Value(), y.Value();
    ghost var proper := p > 2 && start == Squared(b, r, 0, p);
    var j := 1;
    while j <= s - 1 && y.Value() != n1.Value()
      invariant 1 <= j <= Max(s, 1) && y.Valid() && (j == 1 ==> y.Value() == start)
      invariant proper ==> y.Value() == Squared(b, r, j - 1, p)
      invariant proper ==> forall i: nat :: i < j - 1 ==> Squared(b, r, i, p) != p - 1
    {
      SquaredNext(b, r, j - 1, p);
      SqrMod(y, a);
      if y.Value() == 1 {
        if proper {
          forall i: nat | i < s
            ensures Squared(b, r, i, p) != p - 1
          {
            if i >= j {
              OnesStay(b, r, j, i, p);
            }
          }
        }
        return false;
      }
      j := j + 1;
    }
    result := y.Value() == n1.Value();
    if proper && result && s > 0 {
      assert Squared(b, r, j - 1, p) == p - 1;
    }
  }

  /**
   What comes out for an even a: the one power b^(a - 1), as mp_exptmod gives
   it, is 1 or a - 1.
   */
  ghost predicate EvenVerdict(a: int, b: int, result: bool)
    requires a > 0
  {
    var e: nat := a - 1;
    exists y :: Guaranteed(y, b, e, a) && (result <==> y == 1 || y == e)
  }

  lemma EvenResult(a: int, b: int, y: int, result: bool)
    requires a > 0 && Guaranteed(y, b, a - 1, a) && (result <==> y == 1 || y == a - 1)
    ensures EvenVerdict(a, b, result)
  {
  }

  /** mp_prime_miller_rabin. */
  method Test(a: Int, b: Int) returns (err: Err, result: bool)
    requires a.Valid() && b.Valid()
    ensures err == if b.Value() <= 1 || a.Value() <= 0 then VAL else OKAY
    ensures err != OKAY ==> !result
    ensures err == OKAY && a.Value() > 2 && a.Value() % 2 == 1 ==> (result <==> StrongProbablePrime(a.Value(), b.Value()))
    ensures err == OKAY && a.Value() == 1 ==> result
    ensures err == OKAY && a.Value() % 2 == 0 ==> EvenVerdict(a.Value(), b.Value(), result)
    ensures a.Value() > 2 && IsPrime(a.Value()) && 1 < b.Value() < a.Value() ==> result
  {
    hide Int.Value, Int.Valid, Rem, Squared, StrongProbablePrime, IsPrime, Pow, IsPower, IsLostPower, IsInversePower, IsLostInversePower, Guaranteed, BadModulus, TrailingZeros, OddPartOf, Coprime, Shifted, EvenVerdict;
    result := false;
    if b.Value() <= 1 {
      return VAL, false;
    }
    var n1 := new Int();
    var one := new Int();
    Set(one, 1);
    Sub(a, one, n1);
    var r := new Int();
    var s := TrailingZeros(Abs(n1.Value()));
    ShiftDown(n1, s, r);
    var y := new Int();
    err := ExptMod(b, r, a, y);
    if err != OKAY {
      ShiftedSign(n1.Value(), Pow(2, s));
      return;
    }
    ghost var p, g, e := a.Value(), b.Value(), r.Value();
    ShiftedSign(p - 1, Pow(2, s));
    ghost var proper := p > 2 && p % 2 == 1;
    if proper {
      FirstPower(p, g, s, e, y.Value());
    }
    ghost var y0 := y.Value();
    OtherModuli(p, g, s, e, y0);
    result := true;
    ghost var r0 := if proper then OddPartOf(p - 1) else 0;
    if y.Value() != 1 && y.Value() != n1.Value() {
      result := Squarings(y, a, n1, s, g, r0);
    }
    if proper {
      Verdict(p, g, s, r0);
    } else if p % 2 == 0 {
      EvenResult(p, g, y0, result);
    }
    if p > 2 && IsPrime(p) && g < p {
      OddPrimePasses(p, g);
    }
  }

  lemma Verdict(p: int, g: int, s: nat, r: nat)
    requires p > 2 && s == TrailingZeros(p - 1) && r == OddPartOf(p - 1)
    ensures StrongProbablePrime(p, g) <==> Squared(g, r, 0, p) == 1 || exists j: nat :: j < s && Squared(g, r, j, p) == p - 1
  {
  }

  lemma OddPrimePasses(p: int, g: int)
    requires p > 2 && IsPrime(p) && 1 < g < p
    ensures p % 2 == 1 && StrongProbablePrime(p, g)
  {
    hide StrongProbablePrime;
    assert !Divides(2, p);
    ModSmall(g, p);
    PrimePasses(p, g);
  }

  lemma ShiftedSign(v: int, q: int)
    requires q > 0
    ensures v >= 0 ==> Shifted(v, q) >= 0
  {
    if v >= 0 { DivMonotone(0, v, q); }
  }

  /** What the first exponentiation gives on an odd modulus. */
  lemma FirstPower(p: int, b: int, s: nat, e: int, y: int)
    requires p > 2 && p % 2 == 1 && s == TrailingZeros(p - 1) && Pow(2, s) > 0 && e == Shifted(p - 1, Pow(2, s)) && e >= 0
    requires Guaranteed(y, b, e, p)
    ensures e == OddPartOf(p - 1) && y == Squared(b, e, 0, p) && s > 0
  {
    hide Pow, Rem, BadModulus;
    OddIsNotBad(p);
    SquaredFirst(b, e, p);
  }

  /** And on 1 and the even ones, where p - 1 has no factor 2 to take off. */
  lemma OtherModuli(p: int, b: int, s: nat, e: int, y: int)
    requires p > 0 && s == TrailingZeros(p - 1) && Pow(2, s) > 0 && e == Shifted(p - 1, Pow(2, s)) && e >= 0 && Guaranteed(y, b, e, p)
    ensures p == 1 ==> y == 1
    ensures p % 2 == 0 ==> s == 0 && e == p - 1
  {
    hide Pow, Rem;
    if p % 2 == 0 || p == 1 {
      PowFirst(2);
      DivModUnique(p - 1, p - 1, 0, 1);
    }
    if p == 1 {
      OddIsNotBad(p);
    }
  }

  lemma OddIsNotBad(p: int)
    requires p % 2 == 1
    ensures !BadModulus(p)
  {
  }
}
