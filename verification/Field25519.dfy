/**
 Arithmetic modulo 2^255 - 19 on sixteen signed 64-bit limbs of 16 bits, in
 place.  The type of the limbs makes every overflow a proof obligation.
 */
module Field25519 {
  import opened Arith
  import opened Digits

  type i64 = x: int | -0x8000_0000_0000_0000 <= x < 0x8000_0000_0000_0000

  const R := 0x1_0000

  /** The prime 2^255 - 19. */
  ghost function P(): (p: int)
    ensures p > 0x10_0000
  {
    PrimeIsLarge();
    Pow(2, 255) - 19
  }

  lemma PrimeIs()
    ensures P() + 19 == Pow(2, 255)
  {
  }

  lemma PrimeIsLarge()
    ensures Pow(2, 255) > 0x1000_0000
  {
    hide Pow;
    PowMonotone(2, 32, 255);
    PowAdd(2, 16, 16);
    SmallPowers();
  }

  /** 2^256, which is 38 more than twice the prime. */
  ghost function Q(): (q: int)
    ensures q > 0 && q == 2 * P() + 38
  {
    2 * P() + 38
  }

  lemma QIs()
    ensures Q() == Pow(R, 16)
  {
    hide Pow;
    PrimeIs();
    SmallPowers();
    PowPow(2, 16, 16);
    PowNext(2, 255);
  }

  /** The field element a limb vector stands for. */
  ghost function Fe(s: seq<int>): (r: int)
    ensures 0 <= r < P()
  {
    Rem(Val(R, s), P())
  }

  ghost function FAdd(x: int, y: int): (r: int) { Rem(x + y, P()) }

  ghost function FSub(x: int, y: int): (r: int) { Rem(x - y, P()) }

  ghost function FMul(x: int, y: int): (r: int) { Rem(x * y, P()) }

  predicate Small(s: seq<int>, k: int)
  {
    forall i :: 0 <= i < |s| ==> -k <= s[i] <= k
  }

  /** What M leaves behind: digits, but for a little slack at the bottom. */
  predicate Reduced(s: seq<int>)
  {
    |s| == 16 && -38 <= s[0] <= 65573 && IsDigits(R, s[1..])
  }

  // ----- car25519 -----

  /** The carry out of limb i goes to the next limb, or 38-fold to the first. */
  ghost function Carried(s: seq<int>, i: nat): (t: seq<int>)
    requires i < |s| == 16
  {
    var c := s[i] / R;
    if i < 15 then s[i := s[i] % R][i + 1 := s[i + 1] + c] else s[15 := s[15] % R][0 := s[0] + 38 * c]
  }

  lemma CarriedValue(s: seq<int>, i: nat)
    requires i < 15 && |s| == 16
    ensures Val(R, Carried(s, i)) == Val(R, s)
  {
    hide Val, Pow, Carried;
    var c, d := s[i] / R, s[i] % R;
    DivModDef(s[i], R);
    TwoUpdates(s, i, d, s[i + 1] + c);
    CarryAlgebra(Pow(R, i), s[i], c, d);
    CarriedIs(s, i);
  }

  lemma CarriedIs(s: seq<int>, i: nat)
    requires i < 15 && |s| == 16
    ensures Carried(s, i) == s[i := s[i] % R][i + 1 := s[i + 1] + s[i] / R]
  {
  }

  lemma TwoUpdates(s: seq<int>, i: nat, d: int, e: int)
    requires i + 1 < |s|
    ensures Val(R, s[i := d][i + 1 := e]) == Val(R, s) + Pow(R, i) * (d - s[i]) + (R * Pow(R, i)) * (e - s[i + 1])
  {
    hide Val, Pow;
    var t := s[i := d];
    assert t[i + 1] == s[i + 1];
    ValUpdate(R, s, i, d);
    ValUpdate(R, t, i + 1, e);
    PowNext(R, i);
  }

  lemma CarryAlgebra(p: int, x: int, c: int, d: int)
    requires x == c * R + d
    ensures p * (d - x) + (R * p) * c == 0
  {
    assert d - x == -(R * c);
    assert p * -(R * c) == -((R * p) * c);
  }

  lemma CarriedOut(s: seq<int>)
    requires |s| == 16 && IsDigits(R, s[..15])
    ensures s[15] / R == Quot(Val(R, s), Q())
    ensures Val(R, Carried(s, 15)) == Folded(Val(R, s))
  {
    hide Val, Pow, Q;
    QIs();
    var c, d := s[15] / R, s[15] % R;
    var t := s[15 := d];
    ValUpdate(R, s, 15, d);
    ValUpdate(R, t, 0, s[0] + 38 * c);
    PowNext(R, 15);
    ValBound(R, t);
    PowFirst(R);
    OutOfTop(Val(R, s), Val(R, t), Pow(R, 15), s[15], Q());
    assert Carried(s, 15) == t[0 := s[0] + 38 * c];
  }

  lemma OutOfTop(v: int, w: int, p: int, x: int, q: int)
    requires w == v + p * (x % R - x) && q == R * p && 0 <= w < q
    ensures v / q == x / R && v % q == w
  {
    DivModDef(x, R);
    var c := x / R;
    assert p * (x % R - x) == -(c * q) by {
      assert x % R - x == -(R * c);
      assert p * -(R * c) == -(c * (R * p));
    }
    DivModUnique(v, c, w, q);
  }

  /** Reduction by 2^256 = 38: what a whole pass of carries does to the number. */
  ghost function Folded(v: int): (r: int)
  {
    v % Q() + 38 * (v / Q())
  }

  lemma FoldedCong(v: int)
    ensures Cong(Folded(v), v, P())
  {
    hide Q, P;
    DivModDef(v, Q());
    var c := v / Q();
    assert c * (2 * P() + 38) == (2 * c) * P() + 38 * c;
    CongIntro(Folded(v), v, -2 * c, P());
  }

  method CarryLimb(o: array<i64>, i: nat)
    requires o.Length == 16 && i < 16 && Small(o[..], 0x4000_0000_0000_0000) && (i == 15 ==> 0 <= o[0] < R)
    modifies o
    ensures o[..] == Carried(old(o[..]), i)
  {
    ghost var s := o[..];
    o[i] := o[i] + 0x1_0000;
    var c: i64 := o[i] / 0x1_0000;
    assert c - 1 == s[i] / R;
    var next := if i < 15 then i + 1 else 0;
    o[next] := o[next] + (c - 1) + (if i == 15 then 37 * (c - 1) else 0);
    o[i] := o[i] - c * 0x1_0000;
    assert o[i] == s[i] % R;
  }

  /** car25519. */
  method Carry(o: array<i64>)
    requires o.Length == 16 && Small(o[..], 0x2000_0000_0000_0000)
    modifies o
    ensures Val(R, o[..]) == Folded(old(Val(R, o[..])))
    ensures IsDigits(R, o[1..])
    ensures 0 <= o[0] - 38 * Quot(old(Val(R, o[..])), Q()) < R
  {
    hide Val, Pow, Folded, Carried, Q;
    ghost var s := o[..];
    for i := 0 to 16
      invariant i < 16 ==> Val(R, o[..]) == Val(R, s) && IsDigits(R, o[..i])
      invariant i < 16 ==> -0x3000_0000_0000_0000 <= o[i] <= 0x3000_0000_0000_0000
      invariant forall j :: i < j < 16 ==> o[j] == s[j]
      invariant i == 16 ==> Val(R, o[..]) == Folded(Val(R, s)) && IsDigits(R, o[1..])
      invariant i == 16 ==> 0 <= o[0] - 38 * Quot(Val(R, s), Q()) < R
    {
      ghost var t := o[..];
      StillSmall(t, s, i);
      if i < 15 { CarriedValue(t, i); } else { CarriedOut(t); }
      CarryLimb(o, i);
      CarriedLimbs(t, i);
      assert o[..] == Carried(t, i);
    }
  }

  lemma StillSmall(t: seq<int>, s: seq<int>, i: nat)
    requires |t| == |s| == 16 && i < 16 && Small(s, 0x2000_0000_0000_0000) && IsDigits(R, t[..i])
    requires -0x3000_0000_0000_0000 <= t[i] <= 0x3000_0000_0000_0000 && forall j :: i < j < 16 ==> t[j] == s[j]
    ensures Small(t, 0x4000_0000_0000_0000) && (i == 15 ==> 0 <= t[0] < R)
    ensures i == 15 ==> t[..15] == t[..i]
  {
    forall j | 0 <= j < 16
      ensures -0x4000_0000_0000_0000 <= t[j] <= 0x4000_0000_0000_0000 && (j < i ==> 0 <= t[j] < R)
    {
      if j < i { assert t[..i][j] == t[j]; }
    }
  }

  lemma CarriedLimbs(t: seq<int>, i: nat)
    requires |t| == 16 && i < 16 && IsDigits(R, t[..i]) && Small(t, 0x4000_0000_0000_0000)
    requires i < 15 ==> Small([t[i + 1]], 0x2000_0000_0000_0000)
    ensures i < 15 ==> IsDigits(R, Carried(t, i)[..i + 1]) && -0x3000_0000_0000_0000 <= Carried(t, i)[i + 1] <= 0x3000_0000_0000_0000
    ensures i == 15 ==> IsDigits(R, Carried(t, i)[1..]) && 0 <= Carried(t, i)[0] - 38 * (t[15] / R) < R
    ensures forall j :: i + 1 < j < 16 ==> Carried(t, i)[j] == t[j]
  {
    var u := Carried(t, i);
    assert forall j :: 0 <= j < i ==> 0 <= t[..i][j] < R;
    assert i < 15 ==> [t[i + 1]][0] == t[i + 1];
    assert i == 15 ==> t[..i][0] == t[0];
    assert forall j :: 0 < j < i ==> u[j] == t[j];
  }

  // ----- A, Z -----

  method Add(o: array<i64>, a: array<i64>, b: array<i64>)
    requires o.Length == a.Length == b.Length == 16 && Small(a[..], 0x2000_0000_0000_0000) && Small(b[..], 0x2000_0000_0000_0000)
    modifies o
    ensures forall i :: 0 <= i < 16 ==> o[i] == old(a[i]) + old(b[i])
    ensures Fe(o[..]) == FAdd(old(Fe(a[..])), old(Fe(b[..])))
  {
    hide Val, Fe, FAdd;
    ghost var x, y := a[..], b[..];
    for i := 0 to 16
      invariant forall j :: 0 <= j < i ==> o[j] == x[j] + y[j]
      invariant forall j :: i <= j < 16 ==> a[j] == x[j] && b[j] == y[j]
    {
      o[i] := a[i] + b[i];
    }
    SumElement(o[..], x, y);
  }

  method Subtract(o: array<i64>, a: array<i64>, b: array<i64>)
    requires o.Length == a.Length == b.Length == 16 && Small(a[..], 0x2000_0000_0000_0000) && Small(b[..], 0x2000_0000_0000_0000)
    modifies o
    ensures forall i :: 0 <= i < 16 ==> o[i] == old(a[i]) - old(b[i])
    ensures Fe(o[..]) == FSub(old(Fe(a[..])), old(Fe(b[..])))
  {
    hide Val, Fe, FSub;
    ghost var x, y := a[..], b[..];
    for i := 0 to 16
      invariant forall j :: 0 <= j < i ==> o[j] == x[j] - y[j]
      invariant forall j :: i <= j < 16 ==> a[j] == x[j] && b[j] == y[j]
    {
      o[i] := a[i] - b[i];
    }
    DifferenceElement(o[..], x, y);
  }

  lemma {:induction false} ValCombine(s: seq<int>, x: seq<int>, y: seq<int>, k: int)
    requires |s| == |x| == |y| && forall i :: 0 <= i < |s| ==> s[i] == x[i] + k * y[i]
    ensures Val(R, s) == Val(R, x) + k * Val(R, y)
  {
    if |s| > 0 {
      ValCombine(s[1..], x[1..], y[1..], k);
      var u, v := Val(R, x[1..]), Val(R, y[1..]);
      assert R * (u + k * v) == R * u + k * (R * v);
      assert k * (y[0] + R * v) == k * y[0] + k * (R * v);
    }
  }

  lemma SumElement(s: seq<int>, x: seq<int>, y: seq<int>)
    requires |s| == |x| == |y| && forall i :: 0 <= i < |s| ==> s[i] == x[i] + y[i]
    ensures Fe(s) == FAdd(Fe(x), Fe(y))
  {
    hide Val, Rem, P, Cong;
    ValCombine(s, x, y, 1);
    var u, v := Val(R, x), Val(R, y);
    RemIsCong(u, P());
    RemIsCong(v, P());
    CongAdd(Fe(x), u, Fe(y), v, P());
    RemCong(Fe(x) + Fe(y), u + v, P());
  }

  lemma DifferenceElement(s: seq<int>, x: seq<int>, y: seq<int>)
    requires |s| == |x| == |y| && forall i :: 0 <= i < |s| ==> s[i] == x[i] - y[i]
    ensures Fe(s) == FSub(Fe(x), Fe(y))
  {
    hide Val, Rem, P, Cong;
    ValCombine(s, x, y, -1);
    var u, v := Val(R, x), Val(R, y);
    RemIsCong(u, P());
    RemIsCong(v, P());
    CongAdd(Fe(x), u, Fe(y), v, P());
    RemCong(Fe(x) - Fe(y), u - v, P());
  }

  // ----- M, S -----

  const FACTOR := 0x4_0000

  const PRODUCT := 0x10_0000_0000

  /** Row i of the product, added into t. */
  method AddRow(t: array<i64>, a: array<i64>, b: array<i64>, i: nat)
    requires t.Length == 31 && a.Length == b.Length == 16 && i < 16 && t != a && t != b
    requires Small(a[..], FACTOR) && Small(b[..], FACTOR) && Small(t[..], i * PRODUCT)
    modifies t
    ensures Small(t[..], (i + 1) * PRODUCT)
    ensures Val(R, t[..]) == old(Val(R, t[..])) + Pow(R, i) * (a[i] * Val(R, b[..]))
  {
    hide Val, Pow;
    ghost var s := t[..];
    RowStart(i, a[i], b[..]);
    for j := 0 to 16
      invariant forall k :: 0 <= k < i + j ==> -((i + 1) * PRODUCT) <= t[k] <= (i + 1) * PRODUCT
      invariant forall k :: i + j <= k < 31 ==> -(i * PRODUCT) <= t[k] <= i * PRODUCT
      invariant Val(R, t[..]) == Val(R, s) + Pow(R, i) * (a[i] * Val(R, b[..j]))
    {
      LimbProduct(a[i], b[j]);
      ghost var u := t[..];
      RowStep(u, i, j, a[i], b[..]);
      t[i + j] := t[i + j] + a[i] * b[j];
      assert t[..] == u[i + j := u[i + j] + a[i] * b[j]];
    }
    assert b[..16] == b[..];
  }

  lemma LimbProduct(x: int, y: int)
    requires -FACTOR <= x <= FACTOR && -FACTOR <= y <= FACTOR
    ensures -PRODUCT <= x * y <= PRODUCT
  {
    if y >= 0 {
      MulLe(y, x, FACTOR);
      MulLe(y, -FACTOR, x);
    } else {
      MulLe(-y, x, FACTOR);
      MulLe(-y, -FACTOR, x);
    }
  }

  lemma RowStart(i: nat, x: int, b: seq<int>)
    ensures b[..0] == [] && Pow(R, i) * (x * Val(R, b[..0])) == 0
  {
    ValZero(R, b[..0]);
  }

  lemma RowStep(u: seq<int>, i: nat, j: nat, x: int, b: seq<int>)
    requires i + j < |u| && j < |b|
    ensures Val(R, u[i + j := u[i + j] + x * b[j]]) + Pow(R, i) * (x * Val(R, b[..j])) == Val(R, u) + Pow(R, i) * (x * Val(R, b[..j + 1]))
  {
    hide Val, Pow;
    ValUpdate(R, u, i + j, u[i + j] + x * b[j]);
    ValAt(R, b, j);
    PowAdd(R, i, j);
    var p, q, v, y := Pow(R, i), Pow(R, j), Val(R, b[..j]), b[j];
    calc {
      p * (x * (v + q * y));
      { assert x * (v + q * y) == x * v + x * (q * y); }
      p * (x * v + x * (q * y));
      p * (x * v) + p * (x * (q * y));
      { assert x * (q * y) == q * (x * y); MulAssoc(p, q, x * y); }
      p * (x * v) + (p * q) * (x * y);
    }
  }

  /** The 31 columns of the product. */
  method Columns(a: array<i64>, b: array<i64>) returns (t: array<i64>)
    requires a.Length == b.Length == 16 && Small(a[..], FACTOR) && Small(b[..], FACTOR)
    ensures fresh(t) && t.Length == 31 && Small(t[..], 16 * PRODUCT)
    ensures Val(R, t[..]) == Val(R, a[..]) * Val(R, b[..])
  {
    hide Val, Pow;
    t := new i64[31](_ => 0);
    ValZero(R, t[..]);
    RowsStart(a[..], b[..]);
    for i := 0 to 16
      invariant Small(t[..], i * PRODUCT) && Val(R, t[..]) == Val(R, a[..i]) * Val(R, b[..])
    {
      RowsStep(a[..], i, Val(R, b[..]));
      AddRow(t, a, b, i);
    }
    assert a[..16] == a[..];
  }

  lemma RowsStart(a: seq<int>, b: seq<int>)
    ensures Val(R, a[..0]) * Val(R, b) == 0
  {
    ValZero(R, a[..0]);
  }

  lemma RowsStep(a: seq<int>, i: nat, y: int)
    requires i < |a|
    ensures Val(R, a[..i + 1]) * y == Val(R, a[..i]) * y + Pow(R, i) * (a[i] * y)
  {
    hide Val, Pow;
    ValAt(R, a, i);
    MulAssoc(Pow(R, i), a[i], y);
    assert (Val(R, a[..i]) + Pow(R, i) * a[i]) * y == Val(R, a[..i]) * y + (Pow(R, i) * a[i]) * y;
  }

  /** Columns 16 to 30 come back 38-fold at the bottom. */
  method FoldColumns(t: array<i64>)
    requires t.Length == 31 && Small(t[..], 16 * PRODUCT)
    modifies t
    ensures Small(t[..16], 0x4000_0000_0000)
    ensures Cong(Val(R, t[..16]), old(Val(R, t[..])), P())
  {
    hide Val, Cong, P;
    ghost var s := t[..];
    for i := 0 to 15
      invariant forall j :: 0 <= j < i ==> t[j] == s[j] + 38 * s[j + 16]
      invariant forall j :: i <= j < 31 ==> t[j] == s[j]
    {
      t[i] := t[i] + 38 * t[i + 16];
    }
    FoldedColumns(s, t[..16]);
  }

  lemma FoldedColumns(s: seq<int>, t: seq<int>)
    requires |s| == 31 && |t| == 16
    requires t[15] == s[15] && forall j :: 0 <= j < 15 ==> t[j] == s[j] + 38 * s[j + 16]
    ensures Cong(Val(R, t), Val(R, s), P())
    ensures Small(s, 16 * PRODUCT) ==> Small(t, 0x4000_0000_0000)
  {
    hide Val, Pow, P, Cong;
    var hi := s[16..] + [0];
    ValSplit(R, s, 16);
    ValTrim(R, hi, 15);
    assert hi[..15] == s[16..];
    HighLimbs(s, t, hi);
    ValCombine(t, s[..16], hi, 38);
    var h := Val(R, s[16..]);
    QIs();
    FoldArith(Val(R, s[..16]), h, Q(), P());
  }

  lemma HighLimbs(s: seq<int>, t: seq<int>, hi: seq<int>)
    requires |s| == 31 && |t| == 16 && hi == s[16..] + [0]
    requires t[15] == s[15] && forall j :: 0 <= j < 15 ==> t[j] == s[j] + 38 * s[j + 16]
    ensures forall j :: 0 <= j < 16 ==> t[j] == s[..16][j] + 38 * hi[j]
  {
    forall j | 0 <= j < 16
      ensures t[j] == s[..16][j] + 38 * hi[j]
    {
      assert s[..16][j] == s[j];
      if j < 15 {
        assert hi[j] == s[16..][j] == s[j + 16];
      } else {
        assert hi[j] == 0;
      }
    }
  }

  lemma FoldArith(lo: int, h: int, q: int, p: int)
    requires p > 0 && q == 2 * p + 38
    ensures Cong(lo + 38 * h, lo + q * h, p)
  {
    assert q * h == (2 * h) * p + 38 * h;
    CongIntro(lo + 38 * h, lo + q * h, -2 * h, p);
  }

  /** M: the product, carried twice. */
  method Multiply(o: array<i64>, a: array<i64>, b: array<i64>)
    requires o.Length == a.Length == b.Length == 16 && Small(a[..], FACTOR) && Small(b[..], FACTOR)
    modifies o
    ensures Reduced(o[..])
    ensures Fe(o[..]) == FMul(old(Fe(a[..])), old(Fe(b[..])))
  {
    hide Val, Pow, Cong, P, Fe, FMul, Folded, Q, Quot, Reduced, Small;
    ghost var x, y := a[..], b[..];
    var t := Columns(a, b);
    FoldColumns(t);
    ghost var z, v := t[..16], Val(R, t[..16]);
    for i := 0 to 16
      invariant t[..16] == z && forall j :: 0 <= j < i ==> o[j] == z[j]
    {
      o[i] := t[i];
    }
    assert o[..] == z;
    SmallMore(o[..], 0x4000_0000_0000, 0x2000_0000_0000_0000);
    CarryBound(o[..], 0x4000_0000_0000);
    Carry(o);
    ghost var w := o[..];
    SecondPass(v, w);
    Carry(o);
    ProductElement(o[..], v, x, y);
    LastPass(v, w, o[..]);
  }

  lemma SmallMore(s: seq<int>, k: int, m: int)
    requires Small(s, k) && k <= m
    ensures Small(s, m)
  {
  }

  /** A vector of small limbs overflows 2^256 by little. */
  lemma CarryBound(s: seq<int>, k: int)
    requires |s| == 16 && Small(s, k) && k >= 0
    ensures -(k / 0xFFFF) - 1 <= Quot(Val(R, s), Q()) <= k / 0xFFFF
  {
    hide Val, Pow, Q;
    SmallValue(s, k);
    QIs();
    QuotientBound(Val(R, s), Q(), k);
  }

  lemma QuotientBound(v: int, q: int, k: int)
    requires q > 0 && k >= 0 && -(k * (q - 1)) <= 0xFFFF * v <= k * (q - 1)
    ensures -(k / 0xFFFF) - 1 <= v / q <= k / 0xFFFF
  {
    DivModDef(v, q);
    QuotientTimes(v, q, k, v / q, v % q);
    QuotientRange(v / q, k);
  }

  lemma QuotientTimes(v: int, q: int, k: int, c: int, r: int)
    requires q > 0 && k >= 0 && v == c * q + r && 0 <= r < q && -(k * (q - 1)) <= 0xFFFF * v <= k * (q - 1)
    ensures 0xFFFF * c < k + 1 && -k < 0xFFFF * (c + 1)
  {
    var cq, kq := c * q, k * q;
    assert k * (q - 1) == kq - k;
    assert q * (0xFFFF * c) == 0xFFFF * cq && q * (k + 1) == kq + q;
    MulCancelLt(q, 0xFFFF * c, k + 1);
    assert q * -k == -kq && q * (0xFFFF * (c + 1)) == 0xFFFF * cq + 0xFFFF * q;
    MulCancelLt(q, -k, 0xFFFF * (c + 1));
  }

  lemma QuotientRange(c: int, k: int)
    requires k >= 0 && 0xFFFF * c < k + 1 && -k < 0xFFFF * (c + 1)
    ensures -(k / 0xFFFF) - 1 <= c <= k / 0xFFFF
  {
  }

  lemma {:induction false} SmallValue(s: seq<int>, k: int)
    requires Small(s, k) && k >= 0
    ensures -(k * (Pow(R, |s|) - 1)) <= 0xFFFF * Val(R, s) <= k * (Pow(R, |s|) - 1)
  {
    if |s| > 0 {
      SmallValue(s[1..], k);
      var p, v := Pow(R, |s| - 1), Val(R, s[1..]);
      assert k * (R * p - 1) == 0x1_0000 * (k * (p - 1)) + 0xFFFF * k;
    }
  }

  lemma SecondPass(v: int, w: seq<int>)
    requires |w| == 16 && IsDigits(R, w[1..]) && 0 <= w[0] - 38 * Quot(v, Q()) < R
    requires -0x7FFF_FFFF <= Quot(v, Q()) <= 0x7FFF_FFFF
    ensures Small(w, 0x2000_0000_0000_0000) && -1 <= Quot(Val(R, w), Q()) <= 1
  {
    hide Val, Q, Quot;
    assert forall i :: 0 < i < 16 ==> w[i] == w[1..][i - 1];
    NearRange(w, 0x20_0000_0000);
  }

  /** Digits above a first limb that is out of range by less than k. */
  lemma NearRange(w: seq<int>, k: int)
    requires |w| == 16 && IsDigits(R, w[1..]) && -k <= w[0] < R + k && 0 <= k <= 0x10_0000_0000_0000
    ensures -k <= Val(R, w) < Q() + k && -1 <= Quot(Val(R, w), Q()) <= 1
  {
    hide Val, Pow, Q;
    var t := w[0 := 0];
    assert IsDigits(R, t) by { assert forall i :: 0 < i < 16 ==> t[i] == w[1..][i - 1]; }
    ValUpdate(R, w, 0, 0);
    PowFirst(R);
    QIs();
    TopOfRange(t);
    LargeQ();
    var v := Val(R, w);
    if v < 0 {
      DivModUnique(v, -1, v + Q(), Q());
    } else if v < Q() {
      DivModUnique(v, 0, v, Q());
    } else {
      DivModUnique(v, 1, v - Q(), Q());
    }
  }

  lemma TopOfRange(t: seq<int>)
    requires |t| == 16 && IsDigits(R, t) && t[0] == 0
    ensures 0 <= Val(R, t) <= Q() - R
  {
    hide Val, Pow, Q;
    ValBound(R, t);
    ValBound(R, t[1..]);
    ValAt(R, t, 0);
    assert t[0..] == t && t[0 + 1..] == t[1..];
    QIs();
    PowNext(R, 15);
  }

  lemma LargeQ()
    ensures Q() > 0x40_0000_0000_0000
  {
    hide Pow, Q;
    QIs();
    PowMonotone(R, 4, 16);
    PowAdd(R, 2, 2);
    PowAdd(R, 1, 1);
    PowNext(R, 0);
    PowFirst(R);
  }

  lemma ProductElement(o: seq<int>, v: int, x: seq<int>, y: seq<int>)
    requires Val(R, o) == Folded(Folded(v)) && Cong(v, Val(R, x) * Val(R, y), P())
    ensures Fe(o) == FMul(Fe(x), Fe(y))
  {
    hide Val, P, Q, Cong, Rem, Folded;
    var p, a, b := P(), Val(R, x), Val(R, y);
    FoldedCong(v);
    FoldedCong(Folded(v));
    CongTrans(Folded(Folded(v)), Folded(v), v, p);
    CongTrans(Val(R, o), v, a * b, p);
    RemIsCong(a, p);
    RemIsCong(b, p);
    CongMul(Fe(x), a, Fe(y), b, p);
    RemCong(Val(R, o), a * b, P());
    RemCong(Fe(x) * Fe(y), a * b, P());
  }

  lemma LastPass(v: int, w: seq<int>, o: seq<int>)
    requires |o| == 16 && IsDigits(R, o[1..]) && 0 <= o[0] - 38 * Quot(Val(R, w), Q()) < R && -1 <= Quot(Val(R, w), Q()) <= 1
    ensures Reduced(o)
  {
  }

  /** S: squaring. */
  method Square(o: array<i64>, a: array<i64>)
    requires o.Length == a.Length == 16 && Small(a[..], FACTOR)
    modifies o
    ensures Reduced(o[..])
    ensures Fe(o[..]) == FMul(old(Fe(a[..])), old(Fe(a[..])))
  {
    Multiply(o, a, a);
  }
}
