/**
 Integer arithmetic shared by every other module: powers, Euclidean division
 with an explicit quotient, and congruences.
 */
module Arith {

  function Pow(b: int, e: nat): int
  {
    if e == 0 then 1 else b * Pow(b, e - 1)
  }

  function Min(a: int, b: int): int { if a < b then a else b }

  function Max(a: int, b: int): int { if a > b then a else b }

  function Abs(a: int): nat { if a < 0 then -a else a }

  lemma {:induction false} PowAdd(b: int, m: nat, n: nat)
    ensures Pow(b, m + n) == Pow(b, m) * Pow(b, n)
  {
    if m != 0 {
      PowAdd(b, m - 1, n);
      assert Pow(b, m + n) == b * Pow(b, m - 1 + n);
      MulAssoc(b, Pow(b, m - 1), Pow(b, n));
    }
  }

  lemma {:induction false} PowPositive(b: int, e: nat)
    requires b > 0
    ensures Pow(b, e) > 0
  {
    if e != 0 {
      PowPositive(b, e - 1);
      MulPositive(b, Pow(b, e - 1));
    }
  }

  lemma {:induction false} PowMonotone(b: int, m: nat, n: nat)
    requires b > 0 && m <= n
    ensures 0 < Pow(b, m) <= Pow(b, n)
    decreases n - m
  {
    PowPositive(b, m);
    if m < n {
      PowMonotone(b, m, n - 1);
      MulLe(Pow(b, n - 1), 1, b);
    }
  }

  lemma {:induction false} PowStrict(b: int, m: nat, n: nat)
    requires b > 1 && m < n
    ensures 0 < Pow(b, m) < Pow(b, n)
  {
    PowMonotone(b, m, n - 1);
    MulLe(Pow(b, n - 1), 2, b);
  }

  /** Powers of a power. */
  lemma {:induction false} PowPow(b: int, m: nat, n: nat)
    ensures m * n >= 0 && Pow(Pow(b, m), n) == Pow(b, m * n)
  {
    if n != 0 {
      PowPow(b, m, n - 1);
      assert m * n == m + m * (n - 1);
      PowAdd(b, m, m * (n - 1));
    }
  }

  /** A power of a product is the product of the powers. */
  lemma {:induction false} PowProduct(a: int, b: int, e: nat)
    ensures Pow(a * b, e) == Pow(a, e) * Pow(b, e)
  {
    if e != 0 {
      PowProduct(a, b, e - 1);
      MulSwap(a, b, Pow(a, e - 1), Pow(b, e - 1));
    }
  }

  lemma PowNext(b: int, e: nat)
    ensures Pow(b, e + 1) == b * Pow(b, e)
  {
  }

  lemma PowFirst(b: int)
    ensures Pow(b, 0) == 1 && Pow(b, 1) == b
  {
    assert Pow(b, 1) == b * Pow(b, 0);
  }

  lemma SmallPowers()
    ensures Pow(2, 3) == 8 && Pow(2, 4) == 16 && Pow(2, 5) == 32 && Pow(2, 6) == 64 && Pow(2, 7) == 128
    ensures Pow(2, 8) == 256 && Pow(2, 16) == 0x1_0000
  {
    assert Pow(2, 4) == 16;
    PowAdd(2, 4, 4);
    PowAdd(2, 8, 8);
  }

  lemma PowOne(e: nat)
    ensures Pow(1, e) == 1
  {
  }

  // ----- products -----

  lemma MulAssoc(a: int, b: int, c: int)
    ensures a * (b * c) == (a * b) * c
  {
  }

  lemma MulSwap(a: int, b: int, x: int, y: int)
    ensures (a * b) * (x * y) == (a * x) * (b * y)
  {
    MulAssoc(a * b, x, y);
    MulAssoc(a * x, b, y);
    assert (a * b) * x == (a * x) * b;
  }

  lemma MulPositive(a: int, b: int)
    requires a > 0 && b > 0
    ensures a * b > 0
  {
  }

  lemma MulLe(k: int, a: int, b: int)
    requires k >= 0 && a <= b
    ensures k * a <= k * b
    ensures a * k <= b * k
  {
  }

  /** A product that is smaller than a multiple of its factor. */
  lemma MulCancelLt(k: int, a: int, b: int)
    requires k > 0 && k * a < k * b
    ensures a < b
  {
    if a >= b {
      MulLe(k, b, a);
    }
  }

  lemma ParityProduct(a: int, b: int)
    ensures (a * b) % 2 == 1 <==> a % 2 == 1 && b % 2 == 1
  {
    TwiceMul(a, a / 2, a % 2, b);
    ParityTwice(a * b, a / 2 * b, a % 2, b);
  }

  lemma TwiceMul(a: int, h: int, r: int, b: int)
    requires a == 2 * h + r && (r == 0 || r == 1)
    ensures a * b == 2 * (h * b) + if r == 1 then b else 0
  {
  }

  lemma ParityTwice(p: int, t: int, r: int, b: int)
    requires p == 2 * t + if r == 1 then b else 0
    ensures p % 2 == 1 <==> r == 1 && b % 2 == 1
  {
  }

  /** Horner's step stays below the next power. */
  lemma HornerBound(b: int, d: int, v: int, p: int)
    requires 0 <= d < b && 0 <= v < p
    ensures 0 <= d + b * v < b * p
  {
    MulLe(b, v, p - 1);
    MulLe(b, 0, v);
    assert b * (p - 1) == b * p - b;
  }

  // ----- Euclidean division -----

  /** The quotient and remainder of a nonnegative-remainder division are unique. */
  lemma DivModUnique(a: int, q: int, r: int, m: int)
    requires m > 0 && a == q * m + r && 0 <= r < m
    ensures a / m == q && a % m == r
  {
    var q', r' := a / m, a % m;
    assert a == q' * m + r';
    assert (q - q') * m == r' - r;
    if q > q' {
      MulLe(m, 1, q - q');
    } else if q < q' {
      MulLe(m, q - q', -1);
    }
  }

  /** The remainder under a name, so that proofs can carry it without its arithmetic. */
  function Rem(a: int, m: int): (r: int)
    requires m > 0
    ensures 0 <= r < m
  {
    a % m
  }

  /** The quotient under a name. */
  function Quot(a: int, m: int): int
    requires m > 0
  {
    a / m
  }

  lemma RemUnique(a: int, q: int, r: int, m: int)
    requires a == q * m + r && 0 <= r < m
    ensures Rem(a, m) == r
  {
    DivModUnique(a, q, r, m);
  }

  /** A fact about the remainder and the quotient, spelled out with the product. */
  lemma DivModDef(a: int, m: int)
    requires m > 0
    ensures a == (a / m) * m + a % m
    ensures 0 <= a % m < m
  {
  }

  lemma DivModSplit(lo: int, hi: int, m: int)
    requires 0 <= lo < m
    ensures (lo + m * hi) / m == hi && (lo + m * hi) % m == lo
  {
    DivModUnique(lo + m * hi, hi, lo, m);
  }

  lemma ModSmall(a: int, m: int)
    requires 0 <= a < m
    ensures a % m == a && a / m == 0
  {
    DivModUnique(a, 0, a, m);
  }

  /** Flooring division is monotone. */
  lemma DivMonotone(a: int, b: int, m: int)
    requires m > 0 && a <= b
    ensures a / m <= b / m
  {
    DivModDef(a, m);
    DivModDef(b, m);
    if a / m > b / m {
      MulLe(m, b / m + 1, a / m);
    }
  }

  /** Dividing twice is dividing once by the product. */
  lemma DivDiv(a: int, m: int, n: int)
    requires m > 0 && n > 0
    ensures m * n > 0 && (a / m) / n == a / (m * n)
  {
    MulPositive(m, n);
    DivModDef(a, m);
    DivModDef(a / m, n);
    var q, r, s := a / m / n, a % m, (a / m) % n;
    assert a == (q * n + s) * m + r;
    assert a == q * (m * n) + (s * m + r);
    MulLe(m, s, n - 1);
    MulLe(m, 0, s);
    DivModUnique(a, q, s * m + r, m * n);
  }

  // ----- congruences -----

  ghost predicate Cong(a: int, b: int, m: int)
    requires m > 0
  {
    a % m == b % m
  }

  lemma CongSelf(a: int, m: int)
    requires m > 0
    ensures Cong(a, a, m)
  {
  }

  lemma CongTrans(a: int, b: int, c: int, m: int)
    requires m > 0 && Cong(a, b, m) && Cong(b, c, m)
    ensures Cong(a, c, m) && Cong(c, a, m)
  {
  }

  lemma CongIntro(a: int, b: int, k: int, m: int)
    requires m > 0 && a == b + k * m
    ensures Cong(a, b, m)
  {
    DivModDef(b, m);
    assert a == (b / m + k) * m + b % m;
    DivModUnique(a, b / m + k, b % m, m);
  }

  lemma CongElim(a: int, b: int, m: int) returns (k: int)
    requires m > 0 && Cong(a, b, m)
    ensures a == b + k * m
  {
    DivModDef(a, m);
    DivModDef(b, m);
    k := a / m - b / m;
    assert k * m == (a / m) * m - (b / m) * m;
  }

  lemma CongAdd(a: int, b: int, c: int, d: int, m: int)
    requires m > 0 && Cong(a, b, m) && Cong(c, d, m)
    ensures Cong(a + c, b + d, m)
    ensures Cong(a - c, b - d, m)
  {
    var k := CongElim(a, b, m);
    var l := CongElim(c, d, m);
    assert (k + l) * m == k * m + l * m;
    CongIntro(a + c, b + d, k + l, m);
    assert (k - l) * m == k * m - l * m;
    CongIntro(a - c, b - d, k - l, m);
  }

  lemma CongScale(a: int, b: int, c: int, m: int)
    requires m > 0 && Cong(a, b, m)
    ensures Cong(a * c, b * c, m) && Cong(c * a, c * b, m)
  {
    var k := CongElim(a, b, m);
    assert a * c == b * c + (k * c) * m;
    CongIntro(a * c, b * c, k * c, m);
  }

  lemma CongMul(a: int, b: int, c: int, d: int, m: int)
    requires m > 0 && Cong(a, b, m) && Cong(c, d, m)
    ensures Cong(a * c, b * d, m)
  {
    CongScale(a, b, c, m);
    CongScale(c, d, b, m);
  }

  lemma RemIsCong(a: int, m: int)
    requires m > 0
    ensures Cong(Rem(a, m), a, m)
  {
    CongMod(a, m);
  }

  lemma RemCong(a: int, b: int, m: int)
    requires m > 0 && Cong(a, b, m)
    ensures Rem(a, m) == Rem(b, m)
  {
  }

  lemma RemFromCong(r: int, a: int, m: int)
    requires 0 <= r < m && Cong(r, a, m)
    ensures r == Rem(a, m)
  {
    ModSmall(r, m);
  }

  /** A congruence modulo a multiple holds modulo each factor. */
  lemma CongFactor(a: int, b: int, m: int, n: int)
    requires m > 0 && n > 0 && m * n > 0 && Cong(a, b, m * n)
    ensures Cong(a, b, m)
  {
    var k := CongElim(a, b, m * n);
    assert k * (m * n) == (k * n) * m;
    CongIntro(a, b, k * n, m);
  }

  /** Reducing modulo a multiple first changes nothing. */
  lemma ModMod(a: int, m: int, n: int)
    requires m > 0 && n > 0
    ensures m * n > 0 && (a % (m * n)) % m == a % m
  {
    MulPositive(m, n);
    CongMod(a, m * n);
    CongFactor(a % (m * n), a, m, n);
  }

  /** A power of two has an inverse modulo an odd number. */
  lemma PowTwoInverse(n: int, e: nat) returns (h: int)
    requires n > 0 && n % 2 == 1
    ensures Cong(Pow(2, e) * h, 1, n)
  {
    var g := (n + 1) / 2;
    CongIntro(2 * g, 1, 1, n);
    PowProduct(2, g, e);
    CongPow(2 * g, 1, e, n);
    PowOne(e);
    h := Pow(g, e);
  }

  /** Powers of two cancel modulo an odd number. */
  lemma CancelPowTwo(a: int, b: int, e: nat, n: int)
    requires n > 0 && n % 2 == 1 && Cong(a * Pow(2, e), b * Pow(2, e), n)
    ensures Cong(a, b, n)
  {
    var p := Pow(2, e);
    var h := PowTwoInverse(n, e);
    CongScale(a * p, b * p, h, n);
    MulAssoc(a, p, h);
    MulAssoc(b, p, h);
    CongScale(p * h, 1, a, n);
    CongScale(p * h, 1, b, n);
  }

  lemma {:induction false} CongPow(a: int, b: int, e: nat, m: int)
    requires m > 0 && Cong(a, b, m)
    ensures Cong(Pow(a, e), Pow(b, e), m)
  {
    if e != 0 {
      CongPow(a, b, e - 1, m);
      CongMul(a, b, Pow(a, e - 1), Pow(b, e - 1), m);
    }
  }

  /** The remainder is congruent to the number it came from. */
  lemma CongMod(a: int, m: int)
    requires m > 0
    ensures Cong(a % m, a, m) && 0 <= a % m < m
  {
    ModSmall(a % m, m);
  }

  /** Two congruent numbers in [0, m) are the same number. */
  lemma CongUnique(a: int, b: int, m: int)
    requires 0 <= a < m && 0 <= b < m && Cong(a, b, m)
    ensures a == b
  {
    ModSmall(a, m);
    ModSmall(b, m);
  }
}
