/**
 Modular inversion by the binary extended Euclidean algorithm: the two-row form
 for odd moduli and the four-row form for the rest.
 */
module InvMod {
  import opened Arith
  import opened Divisibility
  import opened Mp
  import opened Division

  /** `d` is the inverse of `a` modulo `b`. */
  ghost predicate IsInverse(d: int, a: int, b: int)
    requires b > 1
  {
    0 < d < b && (a * d) % b == 1
  }

  /** A row of the algorithm: `c * y` and `u` agree modulo `x`. */
  ghost predicate Row(c: int, u: int, y: int, x: int)
  {
    x > 0 && Cong(c * y, u, x)
  }

  /** The coefficient of an even row may be moved by the odd modulus and halved. */
  lemma HalveRow(c: int, u: int, y: int, x: int)
    requires x % 2 == 1 && u % 2 == 0 && Row(c, u, y, x)
    ensures c % 2 == 0 ==> Row(c / 2, u / 2, y, x)
    ensures c % 2 != 0 ==> (c - x) % 2 == 0 && Row((c - x) / 2, u / 2, y, x)
  {
    hide *;
    if c % 2 == 0 {
      HalveExact(c / 2, u / 2, y, x);
    } else {
      ShiftRow(c, u, y, x);
      HalveExact((c - x) / 2, u / 2, y, x);
    }
  }

  lemma ShiftRow(c: int, u: int, y: int, x: int)
    requires Row(c, u, y, x)
    ensures Row(c - x, u, y, x)
  {
    assert (c - x) * y == c * y + (-y) * x;
    CongIntro((c - x) * y, c * y, -y, x);
  }

  lemma HalveExact(h: int, w: int, y: int, x: int)
    requires x % 2 == 1 && Row(2 * h, 2 * w, y, x)
    ensures Row(h, w, y, x)
  {
    hide Cong;
    var k := CongElim(2 * h * y, 2 * w, x);
    assert 2 * h * y == 2 * (h * y);
    assert k * x == 2 * (h * y - w);
    assert k % 2 == 0 by { ParityProduct(k, x); }
    var j := k / 2;
    TwiceMul(k, j, 0, x);
    CongIntro(h * y, w, j, x);
  }

  lemma SubtractRows(c: int, u: int, d: int, v: int, y: int, x: int)
    requires Row(c, u, y, x) && Row(d, v, y, x)
    ensures Row(c - d, u - v, y, x)
  {
    CongAdd(c * y, u, d * y, v, x);
    assert (c - d) * y == c * y - d * y;
  }

  lemma FirstRows(y: int, x: int)
    requires x > 0
    ensures Row(0, x, y, x) && Row(1, y, y, x)
  {
    CongIntro(0 * y, x, -1, x);
  }

  /** Steps 4 and 5 of the fast form: divide out the twos of `u`, halving `c` along. */
  method HalveFast(u: Int, c: Int, x: Int, ghost y: int, ghost v: int)
    requires u != c && x != u && x != c
    requires u.Valid() && c.Valid() && x.Valid()
    requires u.Value() > 0 && x.Value() > 0 && x.Value() % 2 == 1
    requires Row(c.Value(), u.Value(), y, x.Value())
    requires u.Value() % 2 == 1 || v % 2 == 1
    modifies u, c
    ensures u.Valid() && c.Valid()
    ensures 0 < u.Value() <= old(u.Value()) && u.Value() % 2 == 1
    ensures Row(c.Value(), u.Value(), y, x.Value())
    ensures SameDivisors(u.Value(), v, old(u.Value()), v)
  {
    hide *;
    SameDivisorsSelf(u.Value(), v);
    var even := IsEven(u);
    while even
      invariant u.Valid() && c.Valid()
      invariant even == (u.Value() % 2 == 0)
      invariant 0 < u.Value() <= old(u.Value())
      invariant u.Value() % 2 == 1 || v % 2 == 1
      invariant Row(c.Value(), u.Value(), y, x.Value())
      invariant SameDivisors(u.Value(), v, old(u.Value()), v)
      decreases u.Value()
    {
      ghost var u0 := u.Value();
      HalveRow(c.Value(), u0, y, x.Value());
      HalvedExact(u0);
      SameDivisorsHalve(u0, v);
      SameDivisorsTrans(Halved(u0), v, u0, v, old(u.Value()), v);
      Div2(u, u);
      var cEven := IsEven(c);
      if !cEven {
        Sub(c, x, c);
      }
      HalvedExact(c.Value());
      Div2(c, c);
      even := IsEven(u);
    }
  }

  /** Step 6: the larger of the two odd rows is reduced by the smaller. */
  method SubtractFast(u: Int, v: Int, cu: Int, cv: Int, ghost y: int, ghost x: int)
    requires x > 0 && u.Valid() && v.Valid() && cu.Valid() && cv.Valid()
    requires u != v && u != cu && u != cv && v != cu && v != cv && cu != cv
    requires u.Value() > 0 && v.Value() > 0 && u.Value() % 2 == 1 && v.Value() % 2 == 1
    requires Row(cu.Value(), u.Value(), y, x) && Row(cv.Value(), v.Value(), y, x)
    modifies u, v, cu, cv
    ensures u.Valid() && v.Valid() && cu.Valid() && cv.Valid()
    ensures u.Value() >= 0 && v.Value() > 0 && (u.Value() % 2 == 1 || v.Value() % 2 == 1)
    ensures u.Value() + v.Value() < old(u.Value()) + old(v.Value())
    ensures Row(cu.Value(), u.Value(), y, x) && Row(cv.Value(), v.Value(), y, x)
    ensures SameDivisors(u.Value(), v.Value(), old(u.Value()), old(v.Value()))
  {
    hide *;
    ghost var u0, v0, c0, d0 := u.Value(), v.Value(), cu.Value(), cv.Value();
    SubtractRows(c0, u0, d0, v0, y, x);
    SubtractRows(d0, v0, c0, u0, y, x);
    SameDivisorsShift(u0, v0, -1);
    SameDivisorsShift(v0, u0, -1);
    SameDivisorsSwap(v0 - u0, u0, v0, u0);
    if u.Value() >= v.Value() {
      Sub(u, v, u);
      Sub(cu, cv, cu);
    } else {
      Sub(v, u, v);
      Sub(cv, cu, cv);
    }
  }

  lemma ModIsShift(a: int, b: int)
    requires b > 0
    ensures SameDivisors(Rem(a, b), b, a, b)
  {
    DivModDef(a, b);
    SameDivisorsShift(a, b, -(a / b));
    assert a + -(a / b) * b == a % b;
  }

  lemma InverseFound(d: int, y: int, a: int, b: int)
    requires b > 1 && y == Rem(a, b) && Row(d, 1, y, b)
    ensures IsInverse(Rem(d, b), a, b) && 0 < Rem(d, b)
  {
    CongMod(a, b);
    CongMod(d, b);
    CongMul(a, y, d % b, d, b);
    assert y * d == d * y;
    ModSmall(1, b);
    if d % b == 0 {
      ModSmall(0, b);
    }
  }

  /** Brings `d` into [0, b) by adding and then subtracting `b`. */
  method IntoRange(d: Int, b: Int)
    requires d.Valid() && b.Valid() && d != b && b.Value() > 0
    modifies d
    ensures d.Valid() && d.Value() == Rem(old(d.Value()), b.Value())
  {
    hide *;
    ghost var k := 0;
    while d.Value() < 0
      invariant d.Valid() && old(d.Value()) == k * b.Value() + d.Value()
      decreases -d.Value()
    {
      assert (k - 1) * b.Value() == k * b.Value() - b.Value();
      k := k - 1;
      Add(d, b, d);
    }
    while d.Value() >= b.Value()
      invariant d.Valid() && d.Value() >= 0 && old(d.Value()) == k * b.Value() + d.Value()
      decreases d.Value()
    {
      assert (k + 1) * b.Value() == k * b.Value() + b.Value();
      k := k + 1;
      Sub(d, b, d);
    }
    RemUnique(old(d.Value()), k, d.Value(), b.Value());
  }

  /** Steps 3 to 6 of the fast form, run until one row is zero. */
  method FastRows(x: Int, y: Int) returns (v: Int, cv: Int)
    requires x.Valid() && y.Valid() && x.Value() % 2 == 1 && x.Value() > 0 && y.Value() > 0
    ensures fresh(v) && fresh(cv) && v != cv && v.Valid() && cv.Valid() && v.Value() > 0
    ensures Row(cv.Value(), v.Value(), y.Value(), x.Value())
    ensures SameDivisors(0, v.Value(), x.Value(), y.Value())
  {
    hide *;
    ghost var x0, y0 := x.Value(), y.Value();
    var u := new Int();
    v := new Int();
    var cu := new Int();
    cv := new Int();
    Copy(x, u);
    Copy(y, v);
    Set(cv, 1);
    FirstRows(y0, x0);
    SameDivisorsSelf(x0, y0);
    while u.Value() != 0
      invariant u.Valid() && v.Valid() && cu.Valid() && cv.Valid()
      invariant u.Value() >= 0 && v.Value() > 0 && (u.Value() % 2 == 1 || v.Value() % 2 == 1)
      invariant Row(cu.Value(), u.Value(), y0, x0) && Row(cv.Value(), v.Value(), y0, x0)
      invariant SameDivisors(u.Value(), v.Value(), x0, y0)
      decreases u.Value() + v.Value()
    {
      ghost var u0, v0 := u.Value(), v.Value();
      HalveFast(u, cu, x, y0, v0);
      ghost var u1 := u.Value();
      SameDivisorsTrans(u1, v0, u0, v0, x0, y0);
      SameDivisorsSwap(u1, v0, x0, y0);
      HalveFast(v, cv, x, y0, u1);
      ghost var v1 := v.Value();
      SameDivisorsTrans(v1, u1, v0, u1, x0, y0);
      SameDivisorsSwap(v1, u1, x0, y0);
      SubtractFast(u, v, cu, cv, y0, x0);
      SameDivisorsTrans(u.Value(), v.Value(), u1, v1, x0, y0);
    }
  }

  /**
   s_mp_invmod_fast.  The inverse found is that of `a`, but the sign of `a` is
   then copied onto it.
   */
  method Fast(a: Int, b: Int, c: Int) returns (err: Err)
    requires a.Valid() && b.Valid() && c.Valid() && b.Value() > 1
    modifies c
    ensures old(b.Value()) % 2 == 0 ==> err == VAL
    ensures old(b.Value()) % 2 == 1 ==> (err == OKAY <==> Coprime(old(a.Value()), old(b.Value())))
    ensures err != OKAY ==> err == VAL && unchanged(c)
    ensures err == OKAY ==> c.Valid() && (c.Value() < 0 <==> old(a.Value()) < 0)
    ensures err == OKAY ==>
      IsInverse(if c.Value() < 0 then -c.Value() else c.Value(), old(a.Value()), old(b.Value()))
  {
    hide *;
    var bEven := IsEven(b);
    if bEven {
      return VAL;
    }
    ghost var a0, b0 := a.Value(), b.Value();
    var y := new Int();
    Mod(a, b, y);
    ghost var y0 := y.Value();
    ModIsShift(a0, b0);
    if y.Value() == 0 {
      CoprimeFromZero(b0, a0, b0);
      return VAL;
    }
    var v, d := FastRows(b, y);
    SameDivisorsSwap(0, v.Value(), b0, y0);
    SameDivisorsTrans(0, v.Value(), y0, b0, a0, b0);
    CoprimeFromZero(v.Value(), a0, b0);
    if v.Value() != 1 {
      return VAL;
    }
    MagBounds(a);
    var neg := a.neg;
    InverseFound(d.Value(), y0, a0, b0);
    IntoRange(d, b);
    Exch(d, c);
    SetSign(c, neg);
    return OKAY;
  }

  // ----- the four-row form, for even moduli -----

  /** A row of the four-row form writes `u` as a combination of `x` and `y`. */
  ghost predicate Combination(c: int, d: int, u: int, x: int, y: int)
  {
    c * x + d * y == u
  }

  /** Moving the coefficients of an even row by (y, -x) where needed makes both even. */
  lemma HalveCombination(c: int, d: int, u: int, x: int, y: int)
    requires u % 2 == 0 && (x % 2 == 1 || y % 2 == 1) && Combination(c, d, u, x, y)
    ensures c % 2 == 0 && d % 2 == 0 ==> Combination(c / 2, d / 2, u / 2, x, y)
    ensures c % 2 != 0 || d % 2 != 0 ==>
      (c + y) % 2 == 0 && (d - x) % 2 == 0 && Combination((c + y) / 2, (d - x) / 2, u / 2, x, y)
  {
    ParityProduct(c, x);
    ParityProduct(d, y);
    CombinationParity(c, d, x, y, c * x, d * y);
    if c % 2 == 0 && d % 2 == 0 {
      HalveSum(c / 2, d / 2, u / 2, x, y);
    } else {
      assert (c + y) * x + (d - x) * y == c * x + d * y;
      HalveSum((c + y) / 2, (d - x) / 2, u / 2, x, y);
    }
  }

  lemma CombinationParity(c: int, d: int, x: int, y: int, p: int, q: int)
    requires p % 2 == 1 <==> c % 2 == 1 && x % 2 == 1
    requires q % 2 == 1 <==> d % 2 == 1 && y % 2 == 1
    requires (p + q) % 2 == 0 && (x % 2 == 1 || y % 2 == 1)
    ensures (c % 2 == 0 && d % 2 == 0) || ((c + y) % 2 == 0 && (d - x) % 2 == 0)
  {
  }

  lemma HalveSum(g: int, h: int, w: int, x: int, y: int)
    requires Combination(2 * g, 2 * h, 2 * w, x, y)
    ensures Combination(g, h, w, x, y)
  {
  }

  lemma SubtractCombinations(c: int, d: int, u: int, c': int, d': int, u': int, x: int, y: int)
    requires Combination(c, d, u, x, y) && Combination(c', d', u', x, y)
    ensures Combination(c - c', d - d', u - u', x, y)
  {
    assert (c - c') * x == c * x - c' * x && (d - d') * y == d * y - d' * y;
  }

  /** Steps 4 and 5 of the slow form. */
  method HalveSlow(u: Int, c: Int, d: Int, x: Int, y: Int, ghost v: int)
    requires u != c && u != d && c != d && x != u && x != c && x != d && y != u && y != c && y != d
    requires u.Valid() && c.Valid() && d.Valid() && x.Valid() && y.Valid()
    requires u.Value() > 0 && (x.Value() % 2 == 1 || y.Value() % 2 == 1)
    requires Combination(c.Value(), d.Value(), u.Value(), x.Value(), y.Value())
    requires u.Value() % 2 == 1 || v % 2 == 1
    modifies u, c, d
    ensures u.Valid() && c.Valid() && d.Valid()
    ensures 0 < u.Value() <= old(u.Value()) && u.Value() % 2 == 1
    ensures Combination(c.Value(), d.Value(), u.Value(), x.Value(), y.Value())
    ensures SameDivisors(u.Value(), v, old(u.Value()), v)
  {
    hide *;
    SameDivisorsSelf(u.Value(), v);
    var even := IsEven(u);
    while even
      invariant u.Valid() && c.Valid() && d.Valid()
      invariant even == (u.Value() % 2 == 0)
      invariant 0 < u.Value() <= old(u.Value())
      invariant u.Value() % 2 == 1 || v % 2 == 1
      invariant Combination(c.Value(), d.Value(), u.Value(), x.Value(), y.Value())
      invariant SameDivisors(u.Value(), v, old(u.Value()), v)
      decreases u.Value()
    {
      ghost var u0 := u.Value();
      HalveCombination(c.Value(), d.Value(), u0, x.Value(), y.Value());
      HalvedExact(u0);
      SameDivisorsHalve(u0, v);
      SameDivisorsTrans(Halved(u0), v, u0, v, old(u.Value()), v);
      Div2(u, u);
      var cEven := IsEven(c);
      var dEven := IsEven(d);
      if !cEven || !dEven {
        Add(c, y, c);
        Sub(d, x, d);
      }
      HalvedExact(c.Value());
      HalvedExact(d.Value());
      Div2(c, c);
      Div2(d, d);
      even := IsEven(u);
    }
  }

  /** Step 6 of the slow form. */
  method SubtractSlow(u: Int, v: Int, a: Int, b: Int, c: Int, d: Int, ghost x: int, ghost y: int)
    requires u != v && u != a && u != b && u != c && u != d && v != a && v != b && v != c && v != d
    requires a != b && a != c && a != d && b != c && b != d && c != d
    requires u.Valid() && v.Valid() && a.Valid() && b.Valid() && c.Valid() && d.Valid()
    requires u.Value() > 0 && v.Value() > 0 && u.Value() % 2 == 1 && v.Value() % 2 == 1
    requires Combination(a.Value(), b.Value(), u.Value(), x, y)
    requires Combination(c.Value(), d.Value(), v.Value(), x, y)
    requires SameDivisors(u.Value(), v.Value(), x, y)
    modifies u, v, a, b, c, d
    ensures u.Valid() && v.Valid() && a.Valid() && b.Valid() && c.Valid() && d.Valid()
    ensures u.Value() >= 0 && v.Value() > 0 && (u.Value() % 2 == 1 || v.Value() % 2 == 1)
    ensures u.Value() + v.Value() < old(u.Value()) + old(v.Value())
    ensures Combination(a.Value(), b.Value(), u.Value(), x, y)
    ensures Combination(c.Value(), d.Value(), v.Value(), x, y)
    ensures SameDivisors(u.Value(), v.Value(), x, y)
  {
    hide *;
    SubtractCombinations(a.Value(), b.Value(), u.Value(), c.Value(), d.Value(), v.Value(), x, y);
    SubtractCombinations(c.Value(), d.Value(), v.Value(), a.Value(), b.Value(), u.Value(), x, y);
    SubtractKeepsDivisors(u.Value(), v.Value(), x, y);
    if u.Value() >= v.Value() {
      Sub(u, v, u);
      Sub(a, c, a);
      Sub(b, d, b);
    } else {
      Sub(v, u, v);
      Sub(c, a, c);
      Sub(d, b, d);
    }
  }

  /** One round of steps 4 to 6. */
  method SlowStep(u: Int, v: Int, a: Int, b: Int, c: Int, d: Int, x: Int, y: Int)
    requires u != v && u != a && u != b && u != c && u != d && v != a && v != b && v != c && v != d
    requires a != b && a != c && a != d && b != c && b != d && c != d
    requires x !in {u, v, a, b, c, d} && y !in {u, v, a, b, c, d}
    requires u.Valid() && v.Valid() && a.Valid() && b.Valid() && c.Valid() && d.Valid() && x.Valid() && y.Valid()
    requires u.Value() > 0 && v.Value() > 0 && (u.Value() % 2 == 1 || v.Value() % 2 == 1)
    requires x.Value() % 2 == 1 || y.Value() % 2 == 1
    requires Combination(a.Value(), b.Value(), u.Value(), x.Value(), y.Value())
    requires Combination(c.Value(), d.Value(), v.Value(), x.Value(), y.Value())
    requires SameDivisors(u.Value(), v.Value(), x.Value(), y.Value())
    modifies u, v, a, b, c, d
    ensures u.Valid() && v.Valid() && a.Valid() && b.Valid() && c.Valid() && d.Valid()
    ensures u.Value() >= 0 && v.Value() > 0 && (u.Value() % 2 == 1 || v.Value() % 2 == 1)
    ensures u.Value() + v.Value() < old(u.Value()) + old(v.Value())
    ensures Combination(a.Value(), b.Value(), u.Value(), x.Value(), y.Value())
    ensures Combination(c.Value(), d.Value(), v.Value(), x.Value(), y.Value())
    ensures SameDivisors(u.Value(), v.Value(), x.Value(), y.Value())
  {
    hide *;
    ghost var u0, v0, x0, y0 := u.Value(), v.Value(), x.Value(), y.Value();
    HalveSlow(u, a, b, x, y, v0);
    ghost var u1 := u.Value();
    SameDivisorsTrans(u1, v0, u0, v0, x0, y0);
    SameDivisorsSwap(u1, v0, x0, y0);
    HalveSlow(v, c, d, x, y, u1);
    ghost var v1 := v.Value();
    SameDivisorsTrans(v1, u1, v0, u1, x0, y0);
    SameDivisorsSwap(v1, u1, x0, y0);
    SubtractSlow(u, v, a, b, c, d, x0, y0);
  }

  /** Steps 3 to 6 of the slow form, run until one row is zero. */
  method SlowRows(x: Int, y: Int) returns (v: Int, C: Int, ghost d: int)
    requires x.Valid() && y.Valid() && x.Value() > 0 && y.Value() > 0
    requires x.Value() % 2 == 1 || y.Value() % 2 == 1
    ensures fresh(v) && fresh(C) && v != C && v.Valid() && C.Valid() && v.Value() > 0
    ensures Combination(C.Value(), d, v.Value(), x.Value(), y.Value())
    ensures SameDivisors(0, v.Value(), x.Value(), y.Value())
  {
    hide *;
    ghost var x0, y0 := x.Value(), y.Value();
    var u := new Int();
    v := new Int();
    var A := new Int();
    var Bc := new Int();
    C := new Int();
    var D := new Int();
    Copy(x, u);
    Copy(y, v);
    Set(A, 1);
    Set(D, 1);
    FirstCombinations(x0, y0);
    SameDivisorsSelf(x0, y0);
    while u.Value() != 0
      invariant u.Valid() && v.Valid() && A.Valid() && Bc.Valid() && C.Valid() && D.Valid()
      invariant u.Value() >= 0 && v.Value() > 0 && (u.Value() % 2 == 1 || v.Value() % 2 == 1)
      invariant Combination(A.Value(), Bc.Value(), u.Value(), x0, y0)
      invariant Combination(C.Value(), D.Value(), v.Value(), x0, y0)
      invariant SameDivisors(u.Value(), v.Value(), x0, y0)
      decreases u.Value() + v.Value()
    {
      SlowStep(u, v, A, Bc, C, D, x, y);
    }
    d := D.Value();
  }

  lemma FirstCombinations(x: int, y: int)
    ensures Combination(1, 0, x, x, y) && Combination(0, 1, y, x, y)
  {
  }

  lemma SubtractKeepsDivisors(u: int, v: int, x: int, y: int)
    requires SameDivisors(u, v, x, y)
    ensures SameDivisors(u - v, v, x, y) && SameDivisors(u, v - u, x, y)
  {
    hide *;
    SameDivisorsShift(u, v, -1);
    SameDivisorsTrans(u - v, v, u, v, x, y);
    SameDivisorsShift(v, u, -1);
    SameDivisorsSwap(u, v, x, y);
    SameDivisorsTrans(v - u, u, v, u, x, y);
    SameDivisorsSwap(v - u, u, x, y);
  }

  lemma CombinationIsRow(c: int, d: int, u: int, x: int, y: int)
    requires y > 0 && Combination(c, d, u, x, y)
    ensures Row(c, u, x, y)
  {
    assert c * x == u + (-d) * y;
    CongIntro(c * x, u, -d, y);
  }

  /** s_mp_invmod_slow.  For odd b and a multiple a of b its halving loop would not end. */
  method Slow(a: Int, b: Int, c: Int) returns (err: Err)
    requires a.Valid() && b.Valid() && c.Valid() && (b.Value() > 0 && b.Value() % 2 == 1 ==> Rem(a.Value(), b.Value()) != 0)
    modifies c
    ensures err == OKAY <==> old(b.Value()) > 1 && Coprime(old(a.Value()), old(b.Value()))
    ensures err != OKAY ==> err == VAL && unchanged(c)
    ensures err == OKAY ==> c.Valid() && IsInverse(c.Value(), old(a.Value()), old(b.Value()))
  {
    hide *;
    if b.Value() <= 0 {
      return VAL;
    }
    ghost var a0, b0 := a.Value(), b.Value();
    ModuloOne(a0, b0);
    var x := new Int();
    Mod(a, b, x);
    ghost var x0 := x.Value();
    ModIsShift(a0, b0);
    var xEven := IsEven(x);
    var bEven := IsEven(b);
    if xEven && bEven {
      BothEven(x0, b0, a0);
      return VAL;
    }
    ModuloNonneg(a0, b0);
    var v, C, d := SlowRows(x, b);
    SameDivisorsTrans(0, v.Value(), x0, b0, a0, b0);
    CoprimeFromZero(v.Value(), a0, b0);
    if v.Value() != 1 {
      return VAL;
    }
    CombinationIsRow(C.Value(), d, 1, x0, b0);
    InverseFound(C.Value(), x0, a0, b0);
    IntoRange(C, b);
    Exch(C, c);
    return OKAY;
  }

  lemma ModuloOne(a: int, b: int)
    requires b > 0 && (b % 2 == 1 ==> Rem(a, b) != 0)
    ensures b > 1
  {
    assert b == 1 ==> Rem(a, b) == 0;
  }

  lemma ModuloNonneg(a: int, b: int)
    requires b > 0
    ensures Rem(a, b) >= 0
  {
  }

  lemma BothEven(x: int, b: int, a: int)
    requires x % 2 == 0 && b % 2 == 0 && SameDivisors(x, b, a, b)
    ensures !Coprime(a, b)
  {
    assert CommonDivisor(2, x, b);
  }

  /**
   mp_invmod.  It reports an inverse exactly when there is one, and what it
   stores is the inverse in [0, b) exactly when `a` is nonnegative or `b` is even.
   */
  method InvMod(a: Int, b: Int, c: Int) returns (err: Err)
    requires a.Valid() && b.Valid() && c.Valid()
    modifies c
    ensures err == OKAY || err == VAL
    ensures err == OKAY <==> old(b.Value()) > 1 && Coprime(old(a.Value()), old(b.Value()))
    ensures err != OKAY ==> unchanged(c)
    ensures err == OKAY ==> c.Valid()
    ensures err == OKAY ==>
      (IsInverse(c.Value(), old(a.Value()), old(b.Value())) <==> old(a.Value()) >= 0 || old(b.Value()) % 2 == 0)
    ensures err == OKAY && old(a.Value()) < 0 && old(b.Value()) % 2 == 1 ==>
      IsInverse(-c.Value(), old(a.Value()), old(b.Value()))
  {
    hide *;
    if b.Value() <= 1 {
      return VAL;
    }
    var even := IsEven(b);
    if !even {
      err := Fast(a, b, c);
      if err == OKAY && c.Value() < 0 {
        NegativeIsNoInverse(c.Value(), old(a.Value()), old(b.Value()));
      }
    } else {
      err := Slow(a, b, c);
    }
  }

  lemma NegativeIsNoInverse(c: int, a: int, b: int)
    requires b > 1 && c < 0
    ensures !IsInverse(c, a, b)
  {
  }
}
