/**
 What the ladder computes on the curve v^2 = u^3 + 486662 u^2 + u: each round is
 the doubling and the differential addition of the curve, all rounds together a
 multiple of the point, and the closing inversion its u-coordinate.
 */
module Curve {
  import opened Arith
  import opened Divisibility
  import opened Primes
  import opened Field25519
  import opened X25519

  /** A point by its u-coordinate x / z. */
  datatype Proj = Proj(x: int, z: int)

  /** 2p. */
  ghost function Double(p: Proj): Proj
  {
    Proj(Rem((p.x * p.x - p.z * p.z) * (p.x * p.x - p.z * p.z), P()),
         Rem(4 * (p.x * p.z) * (p.x * p.x + 486662 * (p.x * p.z) + p.z * p.z), P()))
  }

  /** p + q, where p - q has the u-coordinate u. */
  ghost function DiffAdd(p: Proj, q: Proj, u: int): Proj
  {
    Proj(Rem(4 * ((p.x * q.x - p.z * q.z) * (p.x * q.x - p.z * q.z)), P()),
         Rem(u * (4 * ((p.x * q.z - p.z * q.x) * (p.x * q.z - p.z * q.x))), P()))
  }

  // ----- congruences of field operations -----

  ghost predicate Same(a: int, b: int)
  {
    Cong(a, b, P())
  }

  lemma SameAdd(x: int, a: int, y: int, b: int)
    requires Same(x, a) && Same(y, b)
    ensures Same(FAdd(x, y), a + b) && Same(FSub(x, y), a - b)
  {
    hide Cong, Rem, P;
    CongAdd(x, a, y, b, P());
    RemIsCong(x + y, P());
    RemIsCong(x - y, P());
    CongTrans(FAdd(x, y), x + y, a + b, P());
    CongTrans(FSub(x, y), x - y, a - b, P());
  }

  lemma SameMul(x: int, a: int, y: int, b: int)
    requires Same(x, a) && Same(y, b)
    ensures Same(FMul(x, y), a * b)
  {
    hide Cong, Rem, P;
    CongMul(x, a, y, b, P());
    RemIsCong(x * y, P());
    CongTrans(FMul(x, y), x * y, a * b, P());
  }

  lemma SameSelf(x: int)
    ensures Same(x, x)
  {
    CongSelf(x, P());
  }

  lemma SameTrans(a: int, b: int, c: int)
    requires Same(a, b) && Same(b, c)
    ensures Same(a, c) && Same(c, a)
  {
    CongTrans(a, b, c, P());
  }

  // ----- one round -----

  /** The products of a round, as polynomials. */
  lemma RoundProducts(x: int, z: int, x3: int, z3: int)
    ensures var A, B, C, D := FAdd(x, z), FSub(x, z), FAdd(x3, z3), FSub(x3, z3);
      && Same(FMul(A, A), (x + z) * (x + z)) && Same(FMul(B, B), (x - z) * (x - z))
      && Same(FMul(D, A), (x3 - z3) * (x + z)) && Same(FMul(C, B), (x3 + z3) * (x - z))
  {
    hide Same, FAdd, FSub, FMul;
    var A, B, C, D := FAdd(x, z), FSub(x, z), FAdd(x3, z3), FSub(x3, z3);
    SameSelf(x);
    SameSelf(z);
    SameSelf(x3);
    SameSelf(z3);
    SameAdd(x, x, z, z);
    SameAdd(x3, x3, z3, z3);
    SameMul(A, x + z, A, x + z);
    SameMul(B, x - z, B, x - z);
    SameMul(D, x3 - z3, A, x + z);
    SameMul(C, x3 + z3, B, x - z);
  }

  lemma DoubleAlgebra(x: int, z: int)
    ensures (x + z) * (x + z) - (x - z) * (x - z) == 4 * (x * z)
    ensures (x + z) * (x + z) + 121665 * (4 * (x * z)) == x * x + 486662 * (x * z) + z * z
    ensures ((x + z) * (x + z)) * ((x - z) * (x - z)) == (x * x - z * z) * (x * x - z * z)
  {
    assert (x + z) * (x - z) == x * x - z * z;
    MulSwap(x + z, x + z, x - z, x - z);
  }

  /** x2' = (x2^2 - z2^2)^2 and z2' = 4 x2 z2 (x2^2 + 486662 x2 z2 + z2^2). */
  lemma StepDoubles(l: Points, x1: int)
    ensures Proj(Step(l, x1).x2, Step(l, x1).z2) == Double(Proj(l.x2, l.z2))
  {
    hide Same, FAdd, FSub, FMul, Rem;
    var x, z := l.x2, l.z2;
    var A, B := FAdd(x, z), FSub(x, z);
    var AA, BB := FMul(A, A), FMul(B, B);
    var E := FSub(AA, BB);
    RoundProducts(x, z, l.x3, l.z3);
    DoubleAlgebra(x, z);
    SameMul(AA, (x + z) * (x + z), BB, (x - z) * (x - z));
    SameAdd(AA, (x + z) * (x + z), BB, (x - z) * (x - z));
    SameSelf(121665);
    SameMul(121665, 121665, E, 4 * (x * z));
    SameAdd(AA, (x + z) * (x + z), FMul(121665, E), 121665 * (4 * (x * z)));
    var w := FAdd(AA, FMul(121665, E));
    SameMul(E, 4 * (x * z), w, x * x + 486662 * (x * z) + z * z);
    ReducedValue(AA, BB, (x * x - z * z) * (x * x - z * z));
    ReducedValue(E, w, 4 * (x * z) * (x * x + 486662 * (x * z) + z * z));
  }

  lemma ReducedValue(a: int, b: int, v: int)
    requires Same(FMul(a, b), v)
    ensures FMul(a, b) == Rem(v, P())
  {
    hide P;
    RemFromCong(FMul(a, b), v, P());
  }

  lemma AddAlgebra(x2: int, z2: int, x3: int, z3: int)
    ensures (x3 - z3) * (x2 + z2) + (x3 + z3) * (x2 - z2) == 2 * (x2 * x3 - z2 * z3)
    ensures (x3 - z3) * (x2 + z2) - (x3 + z3) * (x2 - z2) == -2 * (x2 * z3 - z2 * x3)
  {
    assert (x3 - z3) * (x2 + z2) == x3 * x2 + x3 * z2 - z3 * x2 - z3 * z2;
    assert (x3 + z3) * (x2 - z2) == x3 * x2 - x3 * z2 + z3 * x2 - z3 * z2;
  }

  lemma SquareAlgebra(a: int)
    ensures (2 * a) * (2 * a) == 4 * (a * a) && (-2 * a) * (-2 * a) == 4 * (a * a)
  {
  }

  /** x3' = 4 (x2 x3 - z2 z3)^2 and z3' = 4 x1 (x2 z3 - z2 x3)^2. */
  lemma StepAdds(l: Points, x1: int)
    ensures Proj(Step(l, x1).x3, Step(l, x1).z3) == DiffAdd(Proj(l.x2, l.z2), Proj(l.x3, l.z3), x1)
  {
    hide Same, FAdd, FSub, FMul, Rem;
    var A, B, C, D := FAdd(l.x2, l.z2), FSub(l.x2, l.z2), FAdd(l.x3, l.z3), FSub(l.x3, l.z3);
    var DA, CB := FMul(D, A), FMul(C, B);
    var s, t := l.x2 * l.x3 - l.z2 * l.z3, l.x2 * l.z3 - l.z2 * l.x3;
    RoundProducts(l.x2, l.z2, l.x3, l.z3);
    AddAlgebra(l.x2, l.z2, l.x3, l.z3);
    SquareAlgebra(s);
    SquareAlgebra(t);
    SameAdd(DA, (l.x3 - l.z3) * (l.x2 + l.z2), CB, (l.x3 + l.z3) * (l.x2 - l.z2));
    SameMul(FAdd(DA, CB), 2 * s, FAdd(DA, CB), 2 * s);
    SameMul(FSub(DA, CB), -2 * t, FSub(DA, CB), -2 * t);
    var q := FMul(FSub(DA, CB), FSub(DA, CB));
    SameSelf(x1);
    SameMul(x1, x1, q, 4 * (t * t));
    ReducedValue(FAdd(DA, CB), FAdd(DA, CB), 4 * (s * s));
    ReducedValue(x1, q, x1 * (4 * (t * t)));
  }

  // ----- the group law of the curve -----

  const A := 486662

  /** The right-hand side of the curve's equation. */
  ghost function Cubic(u: int): int
  {
    u * (u * u + A * u + 1)
  }

  /** (u, v) lies on the curve. */
  ghost predicate OnCurve(u: int, v: int)
  {
    Same(v * v, Cubic(u))
  }

  lemma SameScale(a: int, b: int, c: int)
    requires Same(a, b)
    ensures Same(c * a, c * b)
  {
    CongScale(a, b, c, P());
  }

  lemma SameSub(a: int, b: int, c: int, d: int)
    requires Same(a, b) && Same(c, d)
    ensures Same(a - c, b - d) && Same(a + c, b + d)
  {
    CongAdd(a, b, c, d, P());
  }

  lemma SameProduct(a: int, b: int, c: int, d: int)
    requires Same(a, b) && Same(c, d)
    ensures Same(a * c, b * d)
  {
    CongMul(a, b, c, d, P());
  }

  lemma SameOfRem(v: int)
    ensures Same(Rem(v, P()), v)
  {
    RemIsCong(v, P());
  }

  /** The slope of the tangent at (u, v), times 2v. */
  ghost function Slope(u: int): int
  {
    3 * (u * u) + 2 * A * u + 1
  }

  /** The u-coordinate of 2(u, v) by the tangent law, times 4v^2. */
  ghost function TangentTop(u: int, v: int): int
  {
    Slope(u) * Slope(u) - (A + 2 * u) * (4 * (v * v))
  }

  lemma TangentAlgebra(u: int)
    ensures Slope(u) * Slope(u) - (A + 2 * u) * (4 * Cubic(u)) == (u * u - 1) * (u * u - 1)
  {
  }

  lemma DoubleAffine(u: int)
    ensures Double(Proj(u, 1)) == Proj(Rem((u * u - 1) * (u * u - 1), P()), Rem(4 * Cubic(u), P()))
  {
    hide Rem, P;
    assert u * 1 == u && 1 * 1 == 1;
    assert 4 * u * (u * u + A * u + 1) == 4 * Cubic(u);
  }

  /** Doubling is the tangent law: the two fractions for the u-coordinate agree. */
  lemma DoubleIsTangent(u: int, v: int)
    requires OnCurve(u, v)
    ensures var d := Double(Proj(u, 1)); Same(d.x * (4 * (v * v)), TangentTop(u, v) * d.z)
  {
    hide Same, Rem, Double, Cubic, Slope;
    var d, f, w := Double(Proj(u, 1)), Cubic(u), 4 * (v * v);
    var top := (u * u - 1) * (u * u - 1);
    TangentAlgebra(u);
    DoubleAffine(u);
    SameScale(v * v, f, 4);
    SameScale(w, 4 * f, A + 2 * u);
    SameSelf(Slope(u) * Slope(u));
    SameSub(Slope(u) * Slope(u), Slope(u) * Slope(u), (A + 2 * u) * w, (A + 2 * u) * (4 * f));
    SameOfRem(top);
    SameOfRem(4 * f);
    BothSame(d.x, top, w, TangentTop(u, v), d.z, 4 * f);
  }

  lemma BothSame(x: int, top: int, w: int, t: int, z: int, f: int)
    requires Same(x, top) && Same(w, f) && Same(t, top) && Same(z, f)
    ensures Same(x * w, t * z)
  {
    hide Same;
    SameProduct(x, top, w, f);
    SameProduct(t, top, z, f);
    SameSelf(t * z);
    SameTrans(t * z, top * f, top * f) by { SameSelf(top * f); }
    SameTrans(x * w, top * f, t * z);
  }

  /** (A + u + w)(u - w)^2. */
  ghost function Shift(u: int, w: int): int
  {
    (A + u + w) * ((u - w) * (u - w))
  }

  /** The u-coordinate of (u1, v1) + (u2, v2) by the chord law, times (u1 - u2)^2; with -v2 that of the difference. */
  ghost function ChordTop(u1: int, v1: int, u2: int, v2: int): int
  {
    (v1 - v2) * (v1 - v2) - Shift(u1, u2)
  }

  lemma ConjugateProduct(u: int, v: int, w: int, x: int)
    ensures ChordTop(u, v, w, x) * ChordTop(u, v, w, -x) ==
      (v * v + x * x - Shift(u, w)) * (v * v + x * x - Shift(u, w)) - 4 * ((v * v) * (x * x))
  {
    hide Shift;
  }

  // Symmetric in u and w, so polynomials in the sum s and the product p of the two.

  ghost function SumForm(s: int, p: int): int
  {
    p * s + s + 2 * A * p
  }

  ghost function ProductForm(s: int, p: int): int
  {
    p * (p * p + A * (p * s) + s * s - 2 * p + A * A * p + A * s + 1)
  }

  ghost function GapForm(s: int, p: int): int
  {
    s * s - 4 * p
  }

  lemma CubicSum(u: int, w: int)
    ensures Cubic(u) + Cubic(w) - Shift(u, w) == SumForm(u + w, u * w)
  {
    CubicSumAlgebra(u, w);
  }

  lemma CubicSumAlgebra(u: int, w: int)
    ensures u * (u * u + A * u + 1) + w * (w * w + A * w + 1) - (A + u + w) * ((u - w) * (u - w)) ==
      (u * w) * (u + w) + (u + w) + 2 * A * (u * w)
  {
  }

  lemma CubicProduct(u: int, w: int)
    ensures Cubic(u) * Cubic(w) == ProductForm(u + w, u * w)
  {
    QuadraticProduct(u, w);
    MulSwap(u, u * u + A * u + 1, w, w * w + A * w + 1);
  }

  lemma QuadraticProduct(u: int, w: int)
    ensures (u * u + A * u + 1) * (w * w + A * w + 1) ==
      (u * w) * (u * w) + A * ((u * w) * (u + w)) + (u + w) * (u + w) - 2 * (u * w) + A * A * (u * w) + A * (u + w) + 1
  {
  }

  lemma SquareOfGap(u: int, w: int)
    ensures (u - w) * (u - w) == GapForm(u + w, u * w)
  {
  }

  /** With m = s(p + 1), x = Ap and d = (p - 1)^2. */
  lemma ChordAlgebra(p: int, q: int, a: int, m: int, x: int, d: int)
    requires x == a * p && m * m == d * q + 4 * (p * q)
    ensures (m + 2 * x) * (m + 2 * x) - 4 * (p * (d + a * m + q + a * x)) == d * (q - 4 * p)
  {
    SquareOfSum(m, x);
    FourTerms(p, d, a * m, q, a * x);
    MulSwap(p, 1, a, m);
    MulSwap(p, 1, a, x);
    TimesGap(d, q, p);
  }

  lemma FormsRegrouped(s: int, p: int)
    ensures var m, x, d := s * (p + 1), A * p, (p - 1) * (p - 1);
      && SumForm(s, p) == m + 2 * x
      && ProductForm(s, p) == p * (d + A * m + s * s + A * x)
      && GapForm(s, p) == s * s - 4 * p
  {
  }

  lemma SquareOfSum(m: int, x: int)
    ensures (m + 2 * x) * (m + 2 * x) == m * m + 4 * (x * m) + 4 * (x * x)
  {
  }

  lemma FourTerms(p: int, a: int, b: int, c: int, d: int)
    ensures p * (a + b + c + d) == p * a + p * b + p * c + p * d
  {
  }

  lemma ScaledSquare(s: int, p: int)
    ensures (s * (p + 1)) * (s * (p + 1)) == ((p - 1) * (p - 1)) * (s * s) + 4 * (p * (s * s))
  {
    MulSwap(s, p + 1, s, p + 1);
    assert (p + 1) * (p + 1) == (p - 1) * (p - 1) + 4 * p;
  }

  lemma TimesGap(d: int, q: int, p: int)
    ensures d * (q - 4 * p) == d * q - 4 * (p * d)
  {
  }

  /** With t = a + b - k, t^2 - 4ab depends on a and b modulo p alone. */
  lemma ChordSame(a: int, f: int, b: int, g: int, k: int)
    requires Same(a, f) && Same(b, g)
    ensures Same((a + b - k) * (a + b - k) - 4 * (a * b), (f + g - k) * (f + g - k) - 4 * (f * g))
  {
    hide Same;
    var t, c := a + b - k, f + g - k;
    SameSub(a, f, b, g);
    SameSelf(k);
    SameSub(a + b, f + g, k, k);
    SameProduct(t, c, t, c);
    SameProduct(a, f, b, g);
    SameScale(a * b, f * g, 4);
    SameSub(t * t, c * c, 4 * (a * b), 4 * (f * g));
  }

  /** The u-coordinates of sum and difference of two points multiply to ((u1 u2 - 1) / (u1 - u2))^2. */
  lemma ChordProduct(u1: int, v1: int, u2: int, v2: int)
    requires OnCurve(u1, v1) && OnCurve(u2, v2)
    ensures Same(ChordTop(u1, v1, u2, v2) * ChordTop(u1, v1, u2, -v2),
                 ((u1 * u2 - 1) * (u1 * u2 - 1)) * ((u1 - u2) * (u1 - u2)))
  {
    hide Same, Cubic, Shift, ChordTop, SumForm, ProductForm, GapForm;
    var s, p := u1 + u2, u1 * u2;
    assert SumForm(s, p) * SumForm(s, p) - 4 * ProductForm(s, p) == ((p - 1) * (p - 1)) * GapForm(s, p) by {
      FormsRegrouped(s, p);
      ScaledSquare(s, p);
      ChordAlgebra(p, s * s, A, s * (p + 1), A * p, (p - 1) * (p - 1));
    }
    ConjugateProduct(u1, v1, u2, v2);
    ChordSame(v1 * v1, Cubic(u1), v2 * v2, Cubic(u2), Shift(u1, u2));
    CubicSum(u1, u2);
    CubicProduct(u1, u2);
    SquareOfGap(u1, u2);
  }

  lemma AddAffine(u1: int, u2: int, u: int)
    ensures DiffAdd(Proj(u1, 1), Proj(u2, 1), u) ==
      Proj(Rem(4 * ((u1 * u2 - 1) * (u1 * u2 - 1)), P()), Rem(u * (4 * ((u1 - u2) * (u1 - u2))), P()))
  {
    hide Rem, P;
    assert u1 * 1 == u1 && 1 * u2 == u2 && 1 * 1 == 1;
  }

  /** Differential addition is the chord law, if u is the u-coordinate of the difference. */
  lemma AddIsChord(u1: int, v1: int, u2: int, v2: int, u: int)
    requires OnCurve(u1, v1) && OnCurve(u2, v2) && Same(u * ((u1 - u2) * (u1 - u2)), ChordTop(u1, v1, u2, -v2))
    ensures var d := DiffAdd(Proj(u1, 1), Proj(u2, 1), u);
      Same(d.x * ((u1 - u2) * (u1 - u2)), ChordTop(u1, v1, u2, v2) * d.z)
  {
    hide Same, Rem, DiffAdd, ChordTop, OnCurve;
    var d, g := DiffAdd(Proj(u1, 1), Proj(u2, 1), u), (u1 - u2) * (u1 - u2);
    var n, plus, minus := (u1 * u2 - 1) * (u1 * u2 - 1), ChordTop(u1, v1, u2, v2), ChordTop(u1, v1, u2, -v2);
    AddAffine(u1, u2, u);
    ChordProduct(u1, v1, u2, v2);
    SameOfRem(4 * n);
    SameOfRem(u * (4 * g));
    SameSelf(g);
    SameProduct(d.x, 4 * n, g, g);
    SameScale(u * g, minus, 4);
    assert u * (4 * g) == 4 * (u * g);
    SameTrans(d.z, u * (4 * g), 4 * minus);
    SameScale(d.z, 4 * minus, plus);
    SameScale(plus * minus, n * g, 4);
    assert plus * (4 * minus) == 4 * (plus * minus) && (4 * n) * g == 4 * (n * g);
    SameTrans(plus * d.z, plus * (4 * minus), 4 * (n * g));
    SameTrans(d.x * g, 4 * (n * g), plus * d.z);
  }

  // ----- multiples of a point -----

  /** The n-fold of the point with u-coordinate u, by doublings and differential additions. */
  ghost function Multiple(n: nat, u: int): Proj
  {
    if n == 0 then Proj(1, 0)
    else if n == 1 then Proj(u, 1)
    else if n % 2 == 0 then Double(Multiple(n / 2, u))
    else DiffAdd(Multiple(n / 2, u), Multiple(n / 2 + 1, u), u)
  }

  /** c can be divided by. */
  ghost predicate Unit(c: int)
  {
    exists d :: Same(c * d, 1)
  }

  lemma UnitIntro(c: int, d: int)
    requires Same(c * d, 1)
    ensures Unit(c)
  {
  }

  lemma UnitMul(a: int, b: int)
    requires Unit(a) && Unit(b)
    ensures Unit(a * b)
  {
    hide Same;
    var c :| Same(a * c, 1);
    var d :| Same(b * d, 1);
    SameProduct(a * c, 1, b * d, 1);
    MulSwap(a, c, b, d);
    UnitIntro(a * b, c * d);
  }

  /** Dividing by a unit. */
  lemma UnitCancel(c: int, a: int, b: int)
    requires Unit(c) && Same(c * a, c * b)
    ensures Same(a, b)
  {
    hide Same;
    var d :| Same(c * d, 1);
    UnitTimes(c, d, a);
    UnitTimes(c, d, b);
    SameScale(c * a, c * b, d);
    SameTrans(a, d * (c * a), d * (c * b));
    SameTrans(b, d * (c * b), d * (c * b)) by { SameSelf(d * (c * b)); }
    SameTrans(a, d * (c * b), b);
  }

  lemma UnitTimes(c: int, d: int, a: int)
    requires Same(c * d, 1)
    ensures Same(a, d * (c * a))
  {
    hide Same;
    SameScale(c * d, 1, a);
    assert a * (c * d) == d * (c * a) && a * 1 == a;
    SameSelf(a);
    SameTrans(d * (c * a), a, a);
  }

  /** Every number the prime does not divide is a unit. */
  lemma NonzeroIsUnit(c: nat)
    requires IsPrime(P()) && !Divides(P(), c)
    ensures Unit(c) && P() >= 2 && Same(c * Pow(c, P() - 2), 1)
  {
    hide P;
    Fermat(P(), c);
    PowNext(c, P() - 2);
    UnitIntro(c, Pow(c, P() - 2));
  }

  /** q is p written with both coordinates c times as large. */
  ghost predicate Scaled(p: Proj, q: Proj, c: int)
  {
    Same(q.x, c * p.x) && Same(q.z, c * p.z)
  }

  lemma ProductScales(p: int, q: int, a: int, b: int, c: int, d: int)
    requires Same(q, c * p) && Same(b, d * a)
    ensures Same(q * b, (c * d) * (p * a))
  {
    hide Same;
    SameProduct(q, c * p, b, d * a);
    MulSwap(c, p, d, a);
  }

  lemma SumScales(p: int, q: int, a: int, b: int, c: int)
    requires Same(q, c * p) && Same(b, c * a)
    ensures Same(q - b, c * (p - a)) && Same(q + b, c * (p + a))
  {
    SameSub(q, c * p, b, c * a);
    assert c * (p - a) == c * p - c * a && c * (p + a) == c * p + c * a;
  }

  lemma FactorScales(q: int, c: int, p: int, k: int)
    requires Same(q, c * p)
    ensures Same(k * q, c * (k * p))
  {
    SameScale(q, c * p, k);
    assert k * (c * p) == c * (k * p);
  }

  lemma RemScales(q: int, c: int, p: int)
    requires Same(q, c * p)
    ensures Same(Rem(q, P()), c * Rem(p, P()))
  {
    hide Same, Rem;
    SameOfRem(q);
    SameOfRem(p);
    SameScale(Rem(p, P()), p, c);
    SameSelf(c * Rem(p, P()));
    SameTrans(c * Rem(p, P()), c * p, c * p) by { SameSelf(c * p); }
    SameTrans(Rem(q, P()), q, c * p);
    SameTrans(Rem(q, P()), c * p, c * Rem(p, P()));
  }

  /** Doubling does not depend on the scale. */
  lemma DoubleScales(p: Proj, q: Proj, c: int)
    requires Scaled(p, q, c)
    ensures Scaled(Double(p), Double(q), (c * c) * (c * c))
  {
    hide Same, Rem;
    var e := c * c;
    ProductScales(p.x, q.x, p.x, q.x, c, c);
    ProductScales(p.z, q.z, p.z, q.z, c, c);
    ProductScales(p.x, q.x, p.z, q.z, c, c);
    SumScales(p.x * p.x, q.x * q.x, p.z * p.z, q.z * q.z, e);
    var s, t := p.x * p.x - p.z * p.z, q.x * q.x - q.z * q.z;
    ProductScales(s, t, s, t, e, e);
    FactorScales(q.x * q.z, e, p.x * p.z, 486662);
    SumScales(p.x * p.x, q.x * q.x, 486662 * (p.x * p.z), 486662 * (q.x * q.z), e);
    SumScales(p.x * p.x + 486662 * (p.x * p.z), q.x * q.x + 486662 * (q.x * q.z), p.z * p.z, q.z * q.z, e);
    FactorScales(q.x * q.z, e, p.x * p.z, 4);
    var m, n := p.x * p.x + 486662 * (p.x * p.z) + p.z * p.z, q.x * q.x + 486662 * (q.x * q.z) + q.z * q.z;
    ProductScales(4 * (p.x * p.z), 4 * (q.x * q.z), m, n, e, e);
    RemScales(t * t, e * e, s * s);
    RemScales(4 * (q.x * q.z) * n, e * e, 4 * (p.x * p.z) * m);
  }

  /** Neither does differential addition. */
  lemma AddScales(p: Proj, q: Proj, c: int, p': Proj, q': Proj, d: int, u: int)
    requires Scaled(p, q, c) && Scaled(p', q', d)
    ensures Scaled(DiffAdd(p, p', u), DiffAdd(q, q', u), (c * d) * (c * d))
  {
    hide Same, Rem;
    var e := c * d;
    ProductScales(p.x, q.x, p'.x, q'.x, c, d);
    ProductScales(p.z, q.z, p'.z, q'.z, c, d);
    ProductScales(p.x, q.x, p'.z, q'.z, c, d);
    ProductScales(p.z, q.z, p'.x, q'.x, c, d);
    var s, t := p.x * p'.x - p.z * p'.z, q.x * q'.x - q.z * q'.z;
    var m, n := p.x * p'.z - p.z * p'.x, q.x * q'.z - q.z * q'.x;
    SumScales(p.x * p'.x, q.x * q'.x, p.z * p'.z, q.z * q'.z, e);
    SumScales(p.x * p'.z, q.x * q'.z, p.z * p'.x, q.z * q'.x, e);
    ProductScales(s, t, s, t, e, e);
    ProductScales(m, n, m, n, e, e);
    FactorScales(t * t, e * e, s * s, 4);
    FactorScales(n * n, e * e, m * m, 4);
    FactorScales(4 * (n * n), e * e, 4 * (m * m), u);
    RemScales(4 * (t * t), e * e, 4 * (s * s));
    RemScales(u * (4 * (n * n)), e * e, u * (4 * (m * m)));
  }

  lemma AddCommutes(p: Proj, q: Proj, u: int)
    ensures DiffAdd(p, q, u) == DiffAdd(q, p, u)
  {
    hide Rem, P;
    var m := p.x * q.z - p.z * q.x;
    assert q.x * p.z - q.z * p.x == -m && (-m) * (-m) == m * m;
    assert p.x * q.x == q.x * p.x && p.z * q.z == q.z * p.z;
  }

  // ----- the ladder -----

  /** The points of the ladder with the swap that is owed paid. */
  ghost function Reached(k: nat, u: int, t: nat): Points
    requires t <= 255
  {
    CSwap(Ladder(k, u, t).1, Ladder(k, u, t).0)
  }

  lemma ScaledTwice(p: Proj, q: Proj, r: Proj, c: int, d: int)
    requires Scaled(p, q, c) && Scaled(q, r, d)
    ensures Scaled(p, r, d * c)
  {
    hide Same;
    SameScale(q.x, c * p.x, d);
    SameScale(q.z, c * p.z, d);
    MulAssoc(d, c, p.x);
    MulAssoc(d, c, p.z);
    SameTrans(r.x, d * q.x, (d * c) * p.x);
    SameTrans(r.z, d * q.z, (d * c) * p.z);
  }

  lemma ScaledSelf(p: Proj)
    ensures Scaled(p, p, 1) && Unit(1)
  {
    SameSelf(1 * p.x);
    SameSelf(1 * p.z);
    SameSelf(1);
    UnitIntro(1, 1);
  }

  lemma EvenMultiple(m: nat, u: int)
    ensures Multiple(2 * m, u) == Double(Multiple(m, u))
  {
    hide Rem;
    if m == 0 {
      ModSmall(1, P());
      ModSmall(0, P());
      RemSmall();
    }
  }

  lemma RemSmall()
    ensures Rem(1, P()) == 1 && Rem(0, P()) == 0
  {
    ModSmall(1, P());
    ModSmall(0, P());
  }

  /** The odd multiple, up to a scale. */
  lemma OddMultiple(m: nat, u: int) returns (c: int)
    requires Unit(4 * u)
    ensures Unit(c) && Scaled(Multiple(2 * m + 1, u), DiffAdd(Multiple(m, u), Multiple(m + 1, u), u), c)
  {
    hide Same, Rem, Unit, Scaled;
    if m == 0 {
      c := 4 * u;
      FirstSum(u);
    } else {
      c := 1;
      ScaledSelf(Multiple(2 * m + 1, u));
    }
  }

  lemma FirstSum(u: int)
    ensures Scaled(Proj(u, 1), DiffAdd(Proj(1, 0), Proj(u, 1), u), 4 * u)
  {
    hide Same, Rem;
    assert 1 * u - 0 * 1 == u && 1 * 1 - 0 * u == 1 && u * (4 * (1 * 1)) == 4 * u && 4 * (u * u) == (4 * u) * u && (4 * u) * 1 == 4 * u;
    SameOfRem(4 * (u * u));
    SameOfRem(4 * u);
  }

  lemma NextPrefix(k: nat, t: nat)
    ensures Pow(2, t) > 0 && Pow(2, t + 1) > 0 && k / Pow(2, t) == 2 * (k / Pow(2, t + 1)) + Bit(k, t) && k / Pow(2, t + 1) >= 0
  {
    hide Pow;
    PowPositive(2, t);
    PowPositive(2, t + 1);
    PowNext(2, t);
    DivDiv(k, Pow(2, t), 2);
    DivModDef(k / Pow(2, t), 2);
    DivMonotone(0, k, Pow(2, t + 1));
  }

  /** After bit t the ladder stands at m and m + 1 times the point, m being the scalar without its t low bits. */
  lemma {:induction false} LadderMultiples(k: nat, u: int, t: nat) returns (c: int, d: int)
    requires t <= 255 && Unit(4 * u) && k < Pow(2, 255)
    ensures Pow(2, t) > 0 && k / Pow(2, t) >= 0 && Unit(c) && Unit(d)
    ensures var m := k / Pow(2, t); var l := Reached(k, u, t);
      Scaled(Multiple(m, u), Proj(l.x2, l.z2), c) && Scaled(Multiple(m + 1, u), Proj(l.x3, l.z3), d)
    decreases 255 - t
  {
    hide Unit, Scaled, Multiple, Pow, Ladder, Step, Double, DiffAdd, Bit;
    if t == 255 {
      PowPositive(2, 255);
      ModSmall(k, Pow(2, 255));
      LadderStart(k, u);
      FirstMultiples(u);
      c, d := 1, 1;
    } else {
      var e, f := LadderMultiples(k, u, t + 1);
      NextPrefix(k, t);
      var now := Reached(k, u, t + 1);
      EagerSwap(k, u, t, now);
      c, d := BitStep(k / Pow(2, t + 1), u, now, e, f, Bit(k, t));
    }
  }

  lemma FirstMultiples(u: int)
    ensures Multiple(0, u) == Proj(1, 0) && Multiple(1, u) == Proj(u, 1) && Unit(1)
    ensures Scaled(Proj(1, 0), Proj(1, 0), 1) && Scaled(Proj(u, 1), Proj(u, 1), 1)
  {
    ScaledSelf(Proj(1, 0));
    ScaledSelf(Proj(u, 1));
  }

  /** One bit b: from m and m + 1 to 2m + b and 2m + b + 1. */
  lemma BitStep(m: nat, u: int, now: Points, c: int, d: int, b: int) returns (c': int, d': int)
    requires Unit(4 * u) && Unit(c) && Unit(d) && 0 <= b <= 1
    requires Scaled(Multiple(m, u), Proj(now.x2, now.z2), c) && Scaled(Multiple(m + 1, u), Proj(now.x3, now.z3), d)
    ensures Unit(c') && Unit(d')
    ensures var l := CSwap(b, Step(CSwap(b, now), u));
      Scaled(Multiple(2 * m + b, u), Proj(l.x2, l.z2), c') && Scaled(Multiple(2 * m + b + 1, u), Proj(l.x3, l.z3), d')
  {
    hide Unit, Scaled, Multiple, Step, Double, DiffAdd;
    var p, q := Proj(now.x2, now.z2), Proj(now.x3, now.z3);
    StepDoubles(CSwap(b, now), u);
    StepAdds(CSwap(b, now), u);
    AddCommutes(p, q, u);
    var o := OddMultiple(m, u);
    AddScales(Multiple(m, u), p, c, Multiple(m + 1, u), q, d, u);
    ScaledTwice(Multiple(2 * m + 1, u), DiffAdd(Multiple(m, u), Multiple(m + 1, u), u), DiffAdd(p, q, u), o, (c * d) * (c * d));
    UnitMul(c, d);
    UnitMul(c * d, c * d);
    UnitMul((c * d) * (c * d), o);
    var odd := ((c * d) * (c * d)) * o;
    if b == 0 {
      EvenMultiple(m, u);
      DoubleScales(Multiple(m, u), p, c);
      UnitMul(c, c);
      UnitMul(c * c, c * c);
      c', d' := (c * c) * (c * c), odd;
    } else {
      EvenMultiple(m + 1, u);
      DoubleScales(Multiple(m + 1, u), q, d);
      UnitMul(d, d);
      UnitMul(d * d, d * d);
      c', d' := odd, (d * d) * (d * d);
    }
  }

  // ----- the u-coordinate -----

  /** The coordinates the last round leaves are field elements. */
  lemma LastRound(k: nat, u: int)
    ensures 0 <= Reached(k, u, 0).z2 < P() && 0 <= Reached(k, u, 0).x2
  {
    hide Bit, P;
  }

  /** The closing inversion divides. */
  lemma Quotient(x: int, z: nat)
    requires IsPrime(P()) && z < P()
    ensures P() >= 2 && (z == 0 ==> FMul(x, FPow(z, P() - 2)) == 0) && (z != 0 ==> Same(FMul(x, FPow(z, P() - 2)) * z, x))
  {
    hide Pow, P, Rem, Same;
    var i := FPow(z, P() - 2);
    var r := FMul(x, i);
    if z == 0 {
      ZeroPower(P() - 2);
      RemSmall();
      assert x * 0 == 0;
    } else {
      NotDivided(z);
      NonzeroIsUnit(z);
      SameOfRem(x * i);
      SameOfRem(Pow(z, P() - 2));
      SameSelf(z);
      SameSelf(x);
      SameProduct(r, x * i, z, z);
      SameScale(i, Pow(z, P() - 2), z);
      SameTrans(z * i, z * Pow(z, P() - 2), 1);
      SameScale(z * i, 1, x);
      assert (x * i) * z == x * (z * i) && x * 1 == x;
      SameTrans(r * z, x * (z * i), x);
    }
  }

  lemma ZeroPower(e: nat)
    requires e > 0
    ensures Pow(0, e) == 0
  {
  }

  lemma NotDivided(z: nat)
    requires 0 < z < P()
    ensures !Divides(P(), z)
  {
    hide P;
    ModSmall(z, P());
  }

  /** Without a point to start from every round leaves z2 = 0. */
  lemma {:induction false} ZeroStays(k: nat, t: nat)
    requires t <= 255
    ensures Reached(k, 0, t).z2 == 0
    decreases 255 - t
  {
    hide Ladder, Step, Double, DiffAdd, Bit;
    if t == 255 {
      LadderStart(k, 0);
    } else {
      ZeroStays(k, t + 1);
      var now := Reached(k, 0, t + 1);
      EagerSwap(k, 0, t, now);
      StepDoubles(CSwap(Bit(k, t), now), 0);
      StepAdds(CSwap(Bit(k, t), now), 0);
      ZeroCoordinate(Proj(now.x2, now.z2), Proj(now.x3, now.z3));
    }
  }

  lemma ZeroCoordinate(p: Proj, q: Proj)
    requires p.z == 0
    ensures Double(p).z == 0 && DiffAdd(q, p, 0).z == 0
  {
    hide Rem;
    RemSmall();
    assert p.x * 0 == 0;
    var m := p.x * p.x + 486662 * 0 + 0 * 0;
    assert 4 * (p.x * p.z) * m == 0;
  }

  /**
   X25519 is scalar multiplication: its value times the z of the k-fold point is
   the x of it, and 0 stands for a z of 0 and for u = 0.
   */
  lemma ScalarMultiple(k: nat, u: int)
    requires IsPrime(P()) && 0 <= u < P() && k < Pow(2, 255)
    ensures u == 0 ==> X25519.X25519(k, u) == 0
    ensures u != 0 ==> var m := Multiple(k, u);
      if Same(m.z, 0) then X25519.X25519(k, u) == 0 else Same(X25519.X25519(k, u) * m.z, m.x)
  {
    hide Pow, P, Same, Ladder, Multiple, FMul, FPow, IsPrime;
    var l := Reached(k, u, 0);
    LastRound(k, u);
    Quotient(l.x2, l.z2);
    if u == 0 {
      ZeroStays(k, 0);
    } else {
      FourTimesUnit(u);
      var c, d := LadderMultiples(k, u, 0);
      WholeScalar(k);
      Unscale(Multiple(k, u), l.x2, l.z2, c, X25519.X25519(k, u));
    }
  }

  lemma WholeScalar(k: nat)
    ensures Pow(2, 0) == 1 && k / 1 == k
  {
    DivModUnique(k, k, 0, 1);
  }

  lemma FourTimesUnit(u: int)
    requires IsPrime(P()) && 0 < u < P()
    ensures Unit(4 * u)
  {
    hide P, IsPrime, Unit;
    NotDivided(u);
    NonzeroIsUnit(u);
    NotDivided(4);
    NonzeroIsUnit(4);
    UnitMul(4, u);
  }

  lemma Unscale(m: Proj, x: int, z: int, c: int, r: int)
    requires Unit(c) && Scaled(m, Proj(x, z), c) && 0 <= z < P() && (z == 0 ==> r == 0) && (z != 0 ==> Same(r * z, x))
    ensures if Same(m.z, 0) then r == 0 else Same(r * m.z, m.x)
  {
    hide Same, P;
    assert c * 0 == 0;
    if z == 0 {
      SameSelf(0);
      SameTrans(0, c * m.z, c * m.z) by { SameSelf(c * m.z); }
      UnitCancel(c, m.z, 0);
    } else {
      if Same(m.z, 0) {
        SameScale(m.z, 0, c);
        SameTrans(z, c * m.z, 0);
        SmallNonzero(z);
      }
      SameScale(z, c * m.z, r);
      assert r * (c * m.z) == c * (r * m.z);
      SameSelf(r * z);
      SameTrans(c * (r * m.z), r * z, r * z) by { SameTrans(r * z, c * (r * m.z), c * (r * m.z)) by { SameSelf(c * (r * m.z)); } }
      SameTrans(c * (r * m.z), r * z, x);
      SameTrans(c * (r * m.z), x, c * m.x);
      UnitCancel(c, r * m.z, m.x);
    }
  }

  lemma SmallNonzero(z: int)
    requires 0 < z < P()
    ensures !Same(z, 0)
  {
    hide P;
    ModSmall(z, P());
    ModSmall(0, P());
  }
}
