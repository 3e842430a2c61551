/**
 Multiplication: the comba and schoolbook products modulo B^digs, the high
 products without their low columns, comba squaring, the sliced unbalanced
 product and the dispatching entry points.
 */
module Multiply {
  import opened Arith
  import opened Digits
  import opened Mp
  import opened Columns
  import opened Product

  // ----- comba -----

  /** The digits in use. */
  function Dig(a: Int): (s: seq<int>)
    reads a
  {
    a.dp[..Min(a.used, |a.dp|)]
  }

  lemma DigVal(a: Int)
    requires a.Valid()
    ensures |Dig(a)| == a.used && IsDigits(B, Dig(a)) && Val(B, Dig(a)) == a.Mag()
  {
    ValTrim(B, a.dp, a.used);
  }

  /** The inner loop: adds column ix of the product to the accumulator. */
  method Column(a: Int, b: Int, ix: nat, carry: Word) returns (acc: Word)
    requires a.Valid() && b.Valid() && carry < 0x10_0000_0000
    requires Min(a.used, b.used) <= MAXFAST && ix < a.used + b.used
    ensures acc == carry + Col(Dig(a), Dig(b), ix)
  {
    hide Col;
    var ty := Min(b.used - 1, ix);
    var tx := ix - ty;
    var iy := Min(a.used - tx, ty + 1);
    acc := carry;
    ghost var s, t := Dig(a), Dig(b);
    ColSkip(s, t, ix, tx);
    for iz := 0 to iy
      invariant acc + Col(s[tx + iz..], t, ix - (tx + iz)) == carry + Col(s, t, ix)
      invariant acc <= carry + iz * 0xFF_FFFF_E000_0001
    {
      ProductBound(a.dp[tx + iz], b.dp[ty - iz]);
      ColStep(s, t, ix, tx + iz);
      assert s[tx + iz] == a.dp[tx + iz] && At(t, ix - (tx + iz)) == b.dp[ty - iz];
      acc := acc + a.dp[tx + iz] * b.dp[ty - iz];
    }
    if tx + iy < a.used {
      ColNegative(s[tx + iy..], t, ix - (tx + iy));
    } else {
      assert s[tx + iy..] == [];
      ColDone(t, ix - (tx + iy));
    }
  }

  /** Columns lo .. ix - 1 of the product, as the digits w and the carry c. */
  ghost predicate Carried(w: seq<int>, c: int, s: seq<int>, t: seq<int>, lo: nat)
  {
    IsDigits(B, w) && Pow(B, lo) * (Val(B, w) + c * Pow(B, |w|)) == Cols(s, t, lo + |w|) - Cols(s, t, lo)
  }

  lemma CarriedStart(s: seq<int>, t: seq<int>, lo: nat)
    ensures Carried([], 0, s, t, lo)
  {
  }

  lemma CarriedStep(w: seq<int>, c: int, sum: int, s: seq<int>, t: seq<int>, lo: nat)
    requires Carried(w, c, s, t, lo) && sum == c + Col(s, t, lo + |w|)
    ensures Carried(w + [sum % B], sum / B, s, t, lo)
  {
    hide Val, Col, Cols, Pow;
    var n := |w|;
    var q, r, c' := Pow(B, n), sum % B, sum / B;
    ValAppend(B, w, [r]);
    ValSingle(B, r);
    PowNext(B, n);
    PowAdd(B, lo, n);
    NextCols(s, t, lo + n);
    ComboAlgebra(q, r, c', sum, c, Col(s, t, lo + n));
    CarriedAlgebra(Pow(B, lo), q, Val(B, w), c, Col(s, t, lo + n), q * r, c' * (B * q));
  }

  lemma NextCols(s: seq<int>, t: seq<int>, ix: nat)
    ensures Cols(s, t, ix + 1) == Cols(s, t, ix) + Col(s, t, ix) * Pow(B, ix)
  {
  }

  lemma CarriedAlgebra(p: int, q: int, v: int, c: int, col: int, lowPart: int, highPart: int)
    requires lowPart + highPart == c * q + col * q
    ensures p * (v + lowPart + highPart) == p * (v + c * q) + col * (p * q)
  {
    assert p * (col * q) == col * (p * q);
  }

  lemma ComboAlgebra(p: int, r: int, q: int, acc: int, c: int, col: int)
    requires acc == q * B + r && acc == c + col
    ensures p * r + q * (B * p) == c * p + col * p
  {
    assert p * acc == p * r + p * (q * B);
  }

  /** Writes columns lo .. pa - 1 into c, keeping the cells below lo and zeroing the ones above. */
  method StoreDigits(c: Int, W: array<int>, lo: nat, pa: nat)
    requires c.Valid() && lo <= pa <= W.Length && pa <= |c.dp| && IsDigits(B, W[lo..pa])
    modifies c
    ensures c.Valid() && c.Mag() == Val(B, old(c.dp)[..lo]) + Pow(B, lo) * Val(B, W[lo..pa])
    ensures c.used > 0 ==> c.neg == old(c.neg)
  {
    hide Val, Pow;
    var olduse := c.used;
    c.used := pa;
    for ix := lo to pa
      invariant |c.dp| == |old(c.dp)| && c.neg == old(c.neg) && c.used == pa
      invariant forall i :: lo <= i < ix ==> c.dp[i] == W[i]
      invariant forall i :: 0 <= i < |c.dp| && (i < lo || i >= ix) ==> c.dp[i] == old(c.dp[i])
    {
      c.dp := c.dp[ix := W[ix]];
    }
    for ix := pa to Max(pa, olduse)
      invariant |c.dp| == |old(c.dp)| && c.neg == old(c.neg) && c.used == pa
      invariant forall i :: lo <= i < pa ==> c.dp[i] == W[i]
      invariant forall i :: pa <= i < ix ==> c.dp[i] == 0
      invariant forall i :: 0 <= i < |c.dp| && (i < lo || i >= ix) ==> c.dp[i] == old(c.dp[i])
    {
      c.dp := c.dp[ix := 0];
    }
    assert c.dp[..pa] == old(c.dp)[..lo] + W[lo..pa];
    assert IsDigits(B, c.dp) by {
      assert forall i :: lo <= i < pa ==> c.dp[i] == W[lo..pa][i - lo];
    }
    assert AllZero(c.dp[pa..]);
    ValAppend(B, old(c.dp)[..lo], W[lo..pa]);
    ValTrim(B, c.dp, pa);
    c.Clamp();
  }

  /** Columns lo .. pa - 1, each reduced to a digit and a carry into the next. */
  method ComboColumns(a: Int, b: Int, lo: nat, pa: nat) returns (W: array<int>, acc: Word)
    requires a.Valid() && b.Valid() && lo <= pa < WARRAY && pa <= a.used + b.used
    requires Min(a.used, b.used) <= MAXFAST
    ensures fresh(W) && W.Length == WARRAY && Carried(W[lo..pa], acc, Dig(a), Dig(b), lo)
  {
    hide Val, Pow, Col, Cols, Int.Mag, Carried;
    W := new int[WARRAY];
    acc := 0;
    CarriedStart(Dig(a), Dig(b), lo);
    assert W[lo..lo] == [];
    for ix := lo to pa
      invariant acc < 0x10_0000_0000 && Carried(W[lo..ix], acc, Dig(a), Dig(b), lo)
    {
      var sum := Column(a, b, ix, acc);
      ghost var w := W[lo..ix];
      CarriedStep(w, acc, sum, Dig(a), Dig(b), lo);
      W[ix] := sum % B;
      acc := sum / B;
      assert W[lo..ix + 1] == w + [sum % B];
    }
  }

  /** s_mp_mul_digs_fast: the product modulo B^digs; no column overflows 64 bits. */
  method MulDigsFast(a: Int, b: Int, c: Int, digs: nat)
    requires a.Valid() && b.Valid() && c.Valid()
    requires digs < WARRAY && Min(a.used, b.used) <= MAXFAST
    modifies c
    ensures Pow(B, digs) > 0 && c.Valid() && c.Mag() == Rem(old(a.Mag()) * old(b.Mag()), Pow(B, digs))
    ensures c.used > 0 ==> c.neg == old(c.neg)
  {
    hide Val, Pow, Col, Cols, Carried, Rem;
    var pa := Min(digs, a.used + b.used);
    DigVal(a);
    DigVal(b);
    var W, acc := ComboColumns(a, b, 0, pa);
    LowProduct(W[0..pa], acc, Dig(a), Dig(b), digs);
    c.Grow(digs);
    FromZero(c.dp, W[0..pa]);
    StoreDigits(c, W, 0, pa);
  }

  lemma FromZero(d: seq<int>, w: seq<int>)
    ensures Val(B, d[..0]) + Pow(B, 0) * Val(B, w) == Val(B, w)
  {
  }

  /** The stored digits are the product modulo B^digs, the last carry being dropped. */
  lemma LowProduct(w: seq<int>, acc: int, s: seq<int>, t: seq<int>, digs: nat)
    requires IsDigits(B, s) && IsDigits(B, t) && |w| == Min(digs, |s| + |t|) && Carried(w, acc, s, t, 0)
    ensures IsDigits(B, w) && Pow(B, digs) > 0 && Val(B, w) == Rem(Val(B, s) * Val(B, t), Pow(B, digs))
  {
    hide Val, Cols;
    var p := Pow(B, digs);
    PowPositive(B, digs);
    FirstCols(s, t);
    ValBound(B, w);
    PowMonotone(B, |w|, digs);
    if |w| == digs {
      ColsCong(s, t, digs);
      CongIntro(Cols(s, t, digs), Val(B, w), acc, p);
    } else {
      ColsAll(s, t, |w|);
      ProductFits(s, t);
      DroppedCarry(Val(B, w), acc, Pow(B, |w|), Val(B, s) * Val(B, t));
    }
    RemFromCong(Val(B, w), Val(B, s) * Val(B, t), p);
  }

  lemma FirstCols(s: seq<int>, t: seq<int>)
    ensures Cols(s, t, 0) == 0 && Pow(B, 0) == 1
  {
  }

  lemma DroppedCarry(v: int, acc: int, p: int, prod: int)
    requires 0 <= v < p && 0 <= prod < p && v + acc * p == prod
    ensures v == prod
  {
    if acc > 0 { MulLe(p, 1, acc); }
    if acc < 0 { MulLe(p, acc, -1); }
  }

  lemma ProductFits(s: seq<int>, t: seq<int>)
    requires IsDigits(B, s) && IsDigits(B, t)
    ensures 0 <= Val(B, s) * Val(B, t) < Pow(B, |s| + |t|)
  {
    ValBound(B, s);
    ValBound(B, t);
    PowAdd(B, |s|, |t|);
    FactorsFit(Val(B, s), Val(B, t), Pow(B, |s|), Pow(B, |t|));
  }

  lemma FactorsFit(x: int, y: int, p: int, q: int)
    requires 0 <= x < p && 0 <= y < q
    ensures 0 <= x * y < p * q
  {
    MulLe(y, 0, x);
    MulLe(y, x, p);
    MulLe(p, y, q - 1);
    assert p * (q - 1) == p * q - p;
  }

  // ----- schoolbook -----

  /** One schoolbook row: the rows so far give the product modulo p = B^digs. */
  lemma RowCong(v: int, v': int, u: int, a: int, d: int, b: int, lo: int, hi: int, pix: int, ppb: int, p: int)
    requires p > 0 && Cong(v, a * b, p) && b == lo + ppb * hi
    requires v' + u * (pix * ppb) == v + pix * (d * lo)
    requires pix * ppb == p || (hi == 0 && u == 0)
    ensures Cong(v', (a + pix * d) * b, p)
  {
    var k := CongElim(v, a * b, p);
    RowCongAlgebra(a, d, b, lo, hi, pix, ppb);
    if pix * ppb == p {
      assert v' == (a + pix * d) * b + (k - u - d * hi) * p;
      CongIntro(v', (a + pix * d) * b, k - u - d * hi, p);
    } else {
      CongIntro(v', (a + pix * d) * b, k, p);
    }
  }

  lemma RowCongAlgebra(a: int, d: int, b: int, lo: int, hi: int, pix: int, ppb: int)
    requires b == lo + ppb * hi
    ensures (a + pix * d) * b == a * b + pix * (d * lo) + (d * hi) * (pix * ppb)
  {
    assert (pix * d) * (ppb * hi) == (pix * ppb) * (d * hi) by { MulSwap(pix, d, ppb, hi); }
    assert (pix * d) * lo == pix * (d * lo);
  }

  /** Row ix of the schoolbook product into the digs cells of t. */
  method SchoolRow(t: Int, b: Int, d: int, ix: nat, digs: nat, ghost va: int)
    requires t != b && b.Valid() && 0 <= d < B && ix < digs == |t.dp| && IsDigits(B, t.dp)
    requires forall i :: ix + b.used <= i < digs ==> t.dp[i] == 0
    requires Pow(B, digs) > 0 && Cong(Val(B, t.dp), va * b.Mag(), Pow(B, digs))
    modifies t`dp
    ensures |t.dp| == digs && IsDigits(B, t.dp)
    ensures forall i :: ix + 1 + b.used <= i < digs ==> t.dp[i] == 0
    ensures Cong(Val(B, t.dp), (va + Pow(B, ix) * d) * b.Mag(), Pow(B, digs))
  {
    hide Val, Pow, Int.Mag, Cong;
    var pb := Min(b.used, digs - ix);
    ghost var v, y := Val(B, t.dp), Dig(b);
    DigVal(b);
    ValSplit(B, y, pb);
    PowAdd(B, ix, pb);
    var u := AddRow(t, b.dp[..pb], d, ix);
    assert b.dp[..pb] == y[..pb];
    if ix + pb < digs {
      assert y[pb..] == [];
      ValSingle(B, 0);
      ValUpdate(B, t.dp, ix + pb, u);
      t.dp := t.dp[ix + pb := u];
      RowCong(v, Val(B, t.dp), 0, va, d, b.Mag(), Val(B, y[..pb]), 0, Pow(B, ix), Pow(B, pb), Pow(B, digs));
    } else {
      RowCong(v, Val(B, t.dp), u, va, d, b.Mag(), Val(B, y[..pb]), Val(B, y[pb..]), Pow(B, ix), Pow(B, pb), Pow(B, digs));
    }
  }

  /** The rows of the schoolbook product. */
  method SchoolProduct(a: Int, b: Int, digs: nat) returns (t: Int)
    requires a.Valid() && b.Valid()
    ensures fresh(t) && t.Valid() && !t.neg
    ensures Pow(B, digs) > 0 && t.Mag() == Rem(a.Mag() * b.Mag(), Pow(B, digs))
  {
    hide Val, Pow, Rem, Cong, Int.Mag;
    t := new Int.Sized(digs);
    ghost var s := Dig(a);
    SchoolStart(s, b.Mag(), t.dp, digs);
    for ix := 0 to a.used
      invariant |t.dp| == digs && IsDigits(B, t.dp) && !t.neg
      invariant forall i :: ix + b.used <= i < digs ==> t.dp[i] == 0
      invariant Cong(Val(B, t.dp), Val(B, s[..ix]) * b.Mag(), Pow(B, digs))
    {
      ValAt(B, s, ix);
      if ix < digs {
        SchoolRow(t, b, a.dp[ix], ix, digs, Val(B, s[..ix]));
      } else {
        BeyondRow(Val(B, t.dp), Val(B, s[..ix]), a.dp[ix], b.Mag(), ix, digs);
      }
    }
    assert s[..a.used] == s;
    DigVal(a);
    t.used := digs;
    SchoolEnd(t, a.Mag() * b.Mag(), digs);
    t.Clamp();
  }

  /** s_mp_mul_digs: the schoolbook product modulo B^digs, or comba where it applies. */
  method MulDigs(a: Int, b: Int, c: Int, digs: nat)
    requires a.Valid() && b.Valid() && c.Valid()
    modifies c
    ensures Pow(B, digs) > 0 && c.Valid() && c.Mag() == Rem(old(a.Mag()) * old(b.Mag()), Pow(B, digs))
    ensures !old(c.neg) ==> !c.neg
  {
    hide Val, Pow, Rem, Int.Mag;
    if digs < WARRAY && Min(a.used, b.used) < MAXFAST {
      MulDigsFast(a, b, c, digs);
    } else {
      var t := SchoolProduct(a, b, digs);
      Exch(t, c);
    }
  }

  lemma SchoolStart(s: seq<int>, b: int, z: seq<int>, digs: nat)
    requires z == Zeros(digs)
    ensures Pow(B, digs) > 0 && Cong(Val(B, z), Val(B, s[..0]) * b, Pow(B, digs))
  {
    PowPositive(B, digs);
    ValZero(B, z);
  }

  /** A row that starts at or above column digs vanishes modulo B^digs. */
  lemma BeyondRow(v: int, a: int, d: int, b: int, ix: nat, digs: nat)
    requires digs <= ix && Pow(B, digs) > 0 && Cong(v, a * b, Pow(B, digs))
    ensures Cong(v, (a + Pow(B, ix) * d) * b, Pow(B, digs))
  {
    PowAdd(B, digs, ix - digs);
    var p, q := Pow(B, digs), Pow(B, ix - digs);
    BeyondAlgebra(a, p, q, d, b);
    CongIntro((a + (p * q) * d) * b, a * b, (q * d) * b, p);
  }

  lemma BeyondAlgebra(a: int, p: int, q: int, d: int, b: int)
    ensures (a + (p * q) * d) * b == a * b + ((q * d) * b) * p
  {
    assert ((p * q) * d) * b == ((q * d) * b) * p by {
      MulAssoc(p, q, d);
      MulAssoc(p, q * d, b);
    }
  }

  lemma SchoolEnd(t: Int, prod: int, digs: nat)
    requires IsDigits(B, t.dp) && |t.dp| == digs && Pow(B, digs) > 0 && Cong(Val(B, t.dp), prod, Pow(B, digs))
    ensures t.Mag() == Rem(prod, Pow(B, digs))
  {
    ValBound(B, t.dp);
    RemFromCong(t.Mag(), prod, Pow(B, digs));
  }

  // ----- high products -----

  /** s_mp_mul_high_digs_fast.  The cells of c below digs keep what they held. */
  method MulHighDigsFast(a: Int, b: Int, c: Int, digs: nat)
    requires a.Valid() && b.Valid() && c.Valid()
    requires digs <= a.used + b.used && a.used + b.used < WARRAY && Min(a.used, b.used) <= MAXFAST
    modifies c
    ensures Pow(B, digs) > 0 && c.Valid()
    ensures Pow(B, digs) * (c.Mag() / Pow(B, digs)) == High(old(Dig(a)), old(Dig(b)), digs)
    ensures !old(c.neg) ==> !c.neg
  {
    hide Val, Pow, Cols, Carried, High, Int.Mag;
    var pa := a.used + b.used;
    DigVal(a);
    DigVal(b);
    var W, acc := ComboColumns(a, b, digs, pa);
    HighProduct(W[digs..pa], acc, Dig(a), Dig(b), digs);
    c.Grow(pa);
    HighCells(c.dp[..digs], Val(B, W[digs..pa]), digs);
    StoreDigits(c, W, digs, pa);
  }

  lemma HighCells(low: seq<int>, h: int, digs: nat)
    requires IsDigits(B, low) && |low| == digs
    ensures Pow(B, digs) > 0 && (Val(B, low) + Pow(B, digs) * h) / Pow(B, digs) == h
  {
    ValBound(B, low);
    DivModSplit(Val(B, low), h, Pow(B, digs));
  }

  lemma HighProduct(w: seq<int>, acc: int, s: seq<int>, t: seq<int>, lo: nat)
    requires IsDigits(B, s) && IsDigits(B, t) && |w| + lo == |s| + |t| && Carried(w, acc, s, t, lo) && acc >= 0
    ensures IsDigits(B, w) && Pow(B, lo) * Val(B, w) == High(s, t, lo)
  {
    hide Val, Cols;
    ColsAll(s, t, |s| + |t|);
    ColsNonneg(s, t, lo);
    ProductFits(s, t);
    PowAdd(B, lo, |w|);
    PowPositive(B, lo);
    PowPositive(B, |w|);
    ValBound(B, w);
    NoCarryOut(Pow(B, lo), Val(B, w), acc, Pow(B, |w|), High(s, t, lo));
  }

  lemma NoCarryOut(p: int, v: int, acc: int, q: int, h: int)
    requires p > 0 && q > 0 && v >= 0 && acc >= 0 && p * (v + acc * q) == h && h < p * q
    ensures acc == 0 && p * v == h
  {
    if acc > 0 {
      MulLe(q, 1, acc);
      MulLe(p, q, v + acc * q);
    }
  }

  lemma {:induction false} ColNonneg(s: seq<int>, t: seq<int>, i: int)
    requires IsDigits(B, s) && IsDigits(B, t)
    ensures Col(s, t, i) >= 0
  {
    if |s| > 0 {
      ColNonneg(s[1..], t, i - 1);
      MulLe(s[0], 0, At(t, i));
    }
  }

  lemma {:induction false} ColsNonneg(s: seq<int>, t: seq<int>, n: nat)
    requires IsDigits(B, s) && IsDigits(B, t)
    ensures Cols(s, t, n) >= 0
  {
    if n > 0 {
      ColsNonneg(s, t, n - 1);
      ColNonneg(s, t, n - 1);
      PowPositive(B, n - 1);
      MulLe(Pow(B, n - 1), 0, Col(s, t, n - 1));
    }
  }

  /** The rows of the high product. */
  method HighRows(a: Int, b: Int, digs: nat) returns (t: Int)
    requires a.Valid() && b.Valid() && a.used <= digs + 1 && digs <= a.used + b.used
    ensures fresh(t) && t.Valid() && !t.neg
    ensures Pow(B, digs) > 0 && Pow(B, digs) * (t.Mag() / Pow(B, digs)) == High(Dig(a), Dig(b), digs)
  {
    hide Val, Pow, Cols, High, Int.Mag;
    t := new Int.Sized(a.used + b.used + 1);
    ghost var s, y := Dig(a), Dig(b);
    HighBegin(s, y, t.dp, digs);
    for ix := 0 to a.used
      invariant |t.dp| == a.used + b.used + 1 && IsDigits(B, t.dp) && !t.neg
      invariant forall i :: 0 <= i < |t.dp| && (i < digs || i >= Max(digs, ix + b.used)) ==> t.dp[i] == 0
      invariant Val(B, t.dp) == High(s[..ix], y, digs)
    {
      HighRow(t, b, a.dp[ix], ix, digs, s[..ix]);
      assert s[..ix] + [a.dp[ix]] == s[..ix + 1];
    }
    assert s[..a.used] == s;
    t.used := a.used + b.used + 1;
    HighEnd(t, digs);
    t.Clamp();
  }

  /** s_mp_mul_high_digs: row by row from column digs, or comba where it applies. */
  method MulHighDigs(a: Int, b: Int, c: Int, digs: nat)
    requires a.Valid() && b.Valid() && c.Valid() && digs <= a.used + b.used
    requires a.used <= digs + 1 || (a.used + b.used + 1 < WARRAY && Min(a.used, b.used) < MAXFAST)
    modifies c
    ensures Pow(B, digs) > 0 && c.Valid()
    ensures Pow(B, digs) * (c.Mag() / Pow(B, digs)) == High(old(Dig(a)), old(Dig(b)), digs)
    ensures !old(c.neg) ==> !c.neg
  {
    hide Val, Pow, Cols, High, Int.Mag;
    if a.used + b.used + 1 < WARRAY && Min(a.used, b.used) < MAXFAST {
      MulHighDigsFast(a, b, c, digs);
    } else {
      var t := HighRows(a, b, digs);
      Exch(t, c);
    }
  }

  lemma HighBegin(s: seq<int>, y: seq<int>, z: seq<int>, digs: nat)
    requires AllZero(z)
    ensures Pow(B, digs) > 0 && Val(B, z) == High(s[..0], y, digs)
  {
    PowPositive(B, digs);
    ValZero(B, z);
    HighStart(y, digs);
    assert s[..0] == [];
  }

  lemma HighEnd(t: Int, digs: nat)
    requires digs <= |t.dp| && IsDigits(B, t.dp) && forall i :: 0 <= i < digs ==> t.dp[i] == 0
    ensures Pow(B, digs) > 0 && Pow(B, digs) * (t.Mag() / Pow(B, digs)) == Val(B, t.dp)
  {
    ValSplit(B, t.dp, digs);
    ValZero(B, t.dp[..digs]);
    ValDivMod(B, t.dp, digs);
  }

  /** Row ix of the high product: the digits of b from digs - ix up, added from cell digs. */
  method HighRow(t: Int, b: Int, d: int, ix: nat, digs: nat, ghost s: seq<int>)
    requires t != b && b.Valid() && 0 <= d < B && |s| == ix <= digs && IsDigits(B, t.dp)
    requires digs < |t.dp| && ix + b.used < |t.dp|
    requires forall i :: 0 <= i < |t.dp| && (i < digs || i >= Max(digs, ix + b.used)) ==> t.dp[i] == 0
    requires Val(B, t.dp) == High(s, Dig(b), digs)
    modifies t`dp
    ensures |t.dp| == old(|t.dp|) && IsDigits(B, t.dp)
    ensures forall i :: 0 <= i < |t.dp| && (i < digs || i >= Max(digs, ix + 1 + b.used)) ==> t.dp[i] == 0
    ensures Val(B, t.dp) == High(s + [d], Dig(b), digs)
  {
    hide Val, Pow, High;
    ghost var y := Dig(b);
    HighSnoc(s, d, y, digs);
    if digs - ix <= b.used {
      var row := b.dp[digs - ix..b.used];
      assert row == y[digs - ix..];
      var u := AddRow(t, row, d, digs);
      ValUpdate(B, t.dp, ix + b.used, u);
      t.dp := t.dp[ix + b.used := u];
    } else {
      assert t.dp[digs := 0] == t.dp;
      t.dp := t.dp[digs := 0];
    }
  }

  // ----- squaring -----

  /** The inner loop of the comba square and the terms added after it. */
  method SquareColumnSum(a: Int, ix: nat, carry: Word) returns (acc: Word)
    requires a.Valid() && a.used < MAXFAST / 2 && ix < 2 * a.used && carry < 0x10_0000_0000
    ensures acc == carry + Col(Dig(a), Dig(a), ix)
  {
    hide Col;
    var ty := Min(a.used - 1, ix);
    var tx := ix - ty;
    var iy := Min(a.used - tx, ty + 1);
    iy := Min(iy, (ty - tx + 1) / 2);
    ghost var s := Dig(a);
    SquareColumn(s, ix, tx, ty, iy);
    acc := 0;
    for iz := 0 to iy
      invariant acc + Seg(s, ix, tx + iz, tx + iy) == Seg(s, ix, tx, tx + iy)
      invariant acc <= iz * 0xFF_FFFF_E000_0001
    {
      ProductBound(a.dp[tx + iz], a.dp[ty - iz]);
      acc := acc + a.dp[tx + iz] * a.dp[ty - iz];
    }
    acc := acc + acc + carry;
    if ix % 2 == 0 {
      ProductBound(a.dp[ix / 2], a.dp[ix / 2]);
      acc := acc + a.dp[ix / 2] * a.dp[ix / 2];
    }
  }

  /** All the columns of the square. */
  method SquareColumns(a: Int) returns (W: array<int>, acc: Word)
    requires a.Valid() && a.used < MAXFAST / 2
    ensures fresh(W) && W.Length == WARRAY && Carried(W[0..2 * a.used], acc, Dig(a), Dig(a), 0)
  {
    hide Val, Pow, Col, Cols, Int.Mag, Carried;
    W := new int[WARRAY];
    acc := 0;
    CarriedStart(Dig(a), Dig(a), 0);
    assert W[0..0] == [];
    for ix := 0 to 2 * a.used
      invariant acc < 0x10_0000_0000 && Carried(W[0..ix], acc, Dig(a), Dig(a), 0)
    {
      var sum := SquareColumnSum(a, ix, acc);
      ghost var w := W[0..ix];
      CarriedStep(w, acc, sum, Dig(a), Dig(a), 0);
      W[ix] := sum % B;
      acc := sum / B;
      assert W[0..ix + 1] == w + [sum % B];
    }
  }

  /** s_mp_sqr_fast. */
  method SqrFast(a: Int, b: Int)
    requires a.Valid() && b.Valid() && a.used < MAXFAST / 2
    modifies b
    ensures b.Valid() && b.Mag() == old(a.Mag()) * old(a.Mag())
  {
    hide Val, Pow, Col, Cols, Carried, Rem;
    DigVal(a);
    var pa := a.used + a.used;
    var W, acc := SquareColumns(a);
    LowProduct(W[0..pa], acc, Dig(a), Dig(a), pa);
    WholeProduct(Dig(a), Dig(a), pa);
    b.Grow(pa);
    FromZero(b.dp, W[0..pa]);
    StoreDigits(b, W, 0, pa);
  }

  lemma WholeProduct(s: seq<int>, t: seq<int>, digs: nat)
    requires IsDigits(B, s) && IsDigits(B, t) && |s| + |t| <= digs
    ensures Pow(B, digs) > 0 && Rem(Val(B, s) * Val(B, t), Pow(B, digs)) == Val(B, s) * Val(B, t)
  {
    hide Val, Pow;
    ProductFits(s, t);
    PowMonotone(B, |s| + |t|, digs);
    ModSmall(Val(B, s) * Val(B, t), Pow(B, digs));
  }

  /** A row of doubled products, added in place after an incoming carry. */
  method AddDoubleRow(x: Int, y: seq<int>, mu: int, u0: int, pos: nat) returns (u: int)
    requires 0 <= mu < B && 0 <= u0 < 2 * B && IsDigits(B, y) && IsDigits(B, x.dp) && pos + |y| <= |x.dp|
    modifies x`dp
    ensures |x.dp| == old(|x.dp|) && IsDigits(B, x.dp) && 0 <= u < 2 * B
    ensures Val(B, x.dp) + u * Pow(B, pos + |y|) == old(Val(B, x.dp)) + u0 * Pow(B, pos) + Pow(B, pos) * (2 * mu * Val(B, y))
  {
    hide Val, Pow;
    u := u0;
    NoRow(2 * mu, y, pos);
    for iy := 0 to |y|
      invariant |x.dp| == old(|x.dp|) && IsDigits(B, x.dp) && 0 <= u < 2 * B
      invariant Val(B, x.dp) + u * Pow(B, pos + iy) == old(Val(B, x.dp)) + u0 * Pow(B, pos) + Pow(B, pos) * (2 * mu * Val(B, y[..iy]))
    {
      var d := y[iy];
      ProductBound(mu, d);
      var r: Word := mu * d;
      r := x.dp[pos + iy] + r + r + u;
      DigitStep(x.dp, pos + iy, u, r, 2 * mu * d);
      ValAt(B, y, iy);
      RowColumn(pos, iy, 2 * mu, Val(B, y[..iy]), d);
      u := r / B;
      x.dp := x.dp[pos + iy := r % B];
    }
    assert y[..|y|] == y;
  }

  /** What the rows of the square have left to add. */
  ghost predicate SquareLeft(v: int, s: seq<int>, ix: nat)
    requires ix <= |s|
  {
    v + Pow(B, 2 * ix) * (Val(B, s[ix..]) * Val(B, s[ix..])) == Val(B, s) * Val(B, s)
  }

  lemma SquareRow(v: int, v': int, s: seq<int>, ix: nat)
    requires ix < |s| && SquareLeft(v, s, ix)
    requires v' == v + Pow(B, 2 * ix) * (s[ix] * s[ix]) + Pow(B, 2 * ix + 1) * (2 * s[ix] * Val(B, s[ix + 1..]))
    ensures SquareLeft(v', s, ix + 1)
  {
    hide Val;
    ValAt(B, s, ix);
    var p := Pow(B, 2 * ix);
    PowNext(B, 2 * ix);
    PowNext(B, 2 * ix + 1);
    SquareAlgebra(p, s[ix], Val(B, s[ix + 1..]));
  }

  lemma SquareAlgebra(p: int, d: int, t: int)
    ensures p * ((d + B * t) * (d + B * t)) == p * (d * d) + (B * p) * (2 * d * t) + (B * (B * p)) * (t * t)
  {
    assert (d + B * t) * (d + B * t) == d * d + B * (2 * d * t) + B * (B * (t * t));
    assert p * (B * (2 * d * t)) == (B * p) * (2 * d * t);
    assert p * (B * (B * (t * t))) == (B * (B * p)) * (t * t);
  }

  lemma SquareStart(s: seq<int>)
    ensures SquareLeft(0, s, 0)
  {
    assert s[0..] == s;
  }

  lemma SquareFits(v: int, s: seq<int>, ix: nat)
    requires IsDigits(B, s) && ix <= |s| && SquareLeft(v, s, ix)
    ensures v < Pow(B, 2 * |s| + 1)
  {
    hide Val, Pow;
    ProductFits(s, s);
    PowPositive(B, 2 * ix);
    PowMonotone(B, 2 * |s|, 2 * |s| + 1);
    ScaledSquare(Pow(B, 2 * ix), Val(B, s[ix..]));
  }

  lemma ScaledSquare(p: int, t: int)
    requires p > 0
    ensures p * (t * t) >= 0
  {
    assert t * t >= 0;
    MulLe(p, 0, t * t);
  }

  lemma SquareDone(v: int, s: seq<int>)
    requires SquareLeft(v, s, |s|)
    ensures v == Val(B, s) * Val(B, s)
  {
    assert s[|s|..] == [];
    assert Val(B, []) * Val(B, []) == 0;
  }

  /** Row ix of the square: the digit at 2 * ix, the doubled products, the carries. */
  method SquareRowInto(t: Int, s: seq<int>, ix: nat)
    requires ix < |s| && IsDigits(B, s) && IsDigits(B, t.dp) && |t.dp| == 2 * |s| + 1
    requires SquareLeft(Val(B, t.dp), s, ix)
    modifies t`dp
    ensures |t.dp| == old(|t.dp|) && IsDigits(B, t.dp)
    ensures SquareLeft(Val(B, t.dp), s, ix + 1)
  {
    hide Val, Pow, SquareLeft;
    ghost var v, d := Val(B, t.dp), s[ix];
    ProductBound(s[ix], s[ix]);
    var r: Word := t.dp[2 * ix] + s[ix] * s[ix];
    DigitStep(t.dp, 2 * ix, 0, r, s[ix] * s[ix]);
    t.dp := t.dp[2 * ix := r % B];
    var u := AddDoubleRow(t, s[ix + 1..], s[ix], r / B, 2 * ix + 1);
    ghost var v' := v + Pow(B, 2 * ix) * (d * d) + Pow(B, 2 * ix + 1) * (2 * d * Val(B, s[ix + 1..]));
    SquareRow(v, v', s, ix);
    SquareFits(v', s, ix + 1);
    Propagate(t, u, 2 * ix + 1 + |s[ix + 1..]|);
  }

  /** s_mp_sqr. */
  method SqrSchool(a: Int) returns (t: Int)
    requires a.Valid()
    ensures fresh(t) && t.Valid() && !t.neg && t.Mag() == a.Mag() * a.Mag()
  {
    hide Val, Pow, SquareLeft, Int.Mag;
    t := new Int.Sized(2 * a.used + 1);
    ghost var s := Dig(a);
    DigVal(a);
    NoValue(t.dp);
    SquareStart(s);
    for ix := 0 to a.used
      invariant |t.dp| == 2 * a.used + 1 && IsDigits(B, t.dp) && !t.neg
      invariant SquareLeft(Val(B, t.dp), s, ix)
    {
      SquareRowInto(t, a.dp[..a.used], ix);
    }
    SquareDone(Val(B, t.dp), s);
    t.used := 2 * a.used + 1;
    MagIsVal(t);
    t.Clamp();
  }

  lemma NoValue(z: seq<int>)
    requires AllZero(z)
    ensures Val(B, z) == 0
  {
    ValZero(B, z);
  }

  /** mp_sqr. */
  method Sqr(a: Int, b: Int)
    requires a.Valid() && b.Valid()
    modifies b
    ensures b.Valid() && b.Value() == old(a.Value()) * old(a.Value())
  {
    hide Val, Int.Mag, Int.Value;
    SignedSquare(a);
    if 2 * a.used + 1 < WARRAY && a.used < MAXFAST / 2 {
      SqrFast(a, b);
    } else {
      var t := SqrSchool(a);
      Exch(t, b);
    }
    GiveSign(b, false);
  }

  lemma SignedSquare(a: Int)
    ensures a.Value() * a.Value() == a.Mag() * a.Mag()
  {
    var m := a.Mag();
    assert (-m) * (-m) == m * m;
  }

  // ----- the dispatching product -----

  const KARATSUBA_MUL_CUTOFF := 80

  /** Copies digits j .. j + n - 1 of a into a0. */
  method Slice(a: Int, j: nat, n: nat) returns (a0: Int)
    requires a.Valid() && j + n <= a.used
    ensures fresh(a0) && a0.Valid() && !a0.neg && a0.used <= n && a0.Mag() == Val(B, Dig(a)[j..j + n])
  {
    hide Val;
    a0 := new Int.Sized(n + 2);
    for count := 0 to n
      invariant |a0.dp| == n + 2 && !a0.neg
      invariant forall i :: 0 <= i < count ==> a0.dp[i] == a.dp[j + i]
      invariant forall i :: count <= i < n + 2 ==> a0.dp[i] == 0
    {
      a0.dp := a0.dp[count := a.dp[j + count]];
    }
    a0.used := n;
    ghost var s := Dig(a)[j..j + n];
    assert forall i :: 0 <= i < n ==> s[i] == a.dp[j + i];
    ValSameDigits(B, a0.dp, s, n);
    a0.Clamp();
  }

  /** The slices accumulated so far: the low n digits of the longer factor times the shorter. */
  lemma SliceStep(s: seq<int>, j: nat, n: nat, b: int, r: int)
    requires j + n <= |s| && r == Val(B, s[..j]) * b
    ensures Val(B, s[..j + n]) * b == r + (Val(B, s[j..j + n]) * b) * Pow(B, j)
  {
    assert s[..j + n] == s[..j] + s[j..j + n];
    ValAppend(B, s[..j], s[j..j + n]);
    SliceAlgebra(Val(B, s[..j]), Pow(B, j), Val(B, s[j..j + n]), b);
  }

  lemma SliceAlgebra(v: int, p: int, w: int, b: int)
    ensures (v + p * w) * b == v * b + (w * b) * p
  {
    assert (p * w) * b == (w * b) * p;
  }

  /** Adds the product of one slice of the longer factor at its place. */
  method AddSlice(A: Int, S: Int, j: nat, n: nat, r: Int)
    requires r != A && r != S && A.Valid() && S.Valid() && r.Valid()
    requires j + n <= A.used && n <= S.used && 2 * S.used <= A.used && S.used > 0
    requires r.Value() == Val(B, Dig(A)[..j]) * S.Value()
    modifies r
    ensures r.Valid() && r.Value() == Val(B, Dig(A)[..j + n]) * S.Value()
    decreases A.used + S.used, 0
  {
    hide Val, Pow, Int.Mag, Int.Value;
    var a0 := Slice(A, j, n);
    NonnegValue(a0);
    var tmp := new Int();
    SliceStep(Dig(A), j, n, S.Value(), r.Value());
    Mul(a0, S, tmp);
    Lshd(tmp, j);
    Add(r, tmp, r);
  }

  /** The slices of A, each as long as S, and the left-over. */
  method AddSlices(A: Int, S: Int, r: Int)
    requires r != A && r != S && A.Valid() && S.Valid() && r.Valid() && r.Value() == 0
    requires 2 * S.used <= A.used && S.used > 0
    modifies r
    ensures r.Valid() && r.Value() == A.Mag() * S.Value()
    decreases A.used + S.used, 1
  {
    hide Val, Pow, Int.Mag, Int.Value, Quot;
    var bsize := S.used;
    var nblocks := Quot(A.used, bsize);
    var i, j := 0, 0;
    NoSlices(Dig(A), S.Value());
    BlocksFit(A.used, bsize);
    while i < nblocks
      invariant 0 <= i <= nblocks && j == bsize * i && r.Valid() && r.Value() == Val(B, Dig(A)[..j]) * S.Value()
    {
      NextBlock(bsize, i, nblocks, A.used);
      AddSlice(A, S, j, bsize, r);
      j := j + bsize;
      i := i + 1;
    }
    if j < A.used {
      AddSlice(A, S, j, A.used - j, r);
    }
    assert Dig(A)[..A.used] == Dig(A);
    DigVal(A);
  }

  /** s_mp_balance_mul: the longer factor is cut into slices as long as the shorter. */
  method BalanceMul(a: Int, b: Int) returns (r: Int)
    requires a.Valid() && b.Valid()
    requires 0 < Min(a.used, b.used) && 2 * Min(a.used, b.used) <= Max(a.used, b.used)
    ensures fresh(r) && r.Valid() && r.Mag() == a.Mag() * b.Mag()
    decreases a.used + b.used, 2
  {
    hide Val, Pow, Int.Mag, Int.Value;
    r := new Int();
    if a.used < b.used {
      AddSlices(b, a, r);
      BalancedMag(r, b, a);
    } else {
      AddSlices(a, b, r);
      BalancedMag(r, a, b);
    }
  }

  lemma NoSlices(s: seq<int>, b: int)
    ensures Val(B, s[..0]) * b == 0
  {
  }

  lemma BlocksFit(n: nat, bsize: nat)
    requires bsize > 0
    ensures 0 <= Quot(n, bsize) && 0 <= bsize * Quot(n, bsize) <= n < bsize * Quot(n, bsize) + bsize
  {
    DivModDef(n, bsize);
    DivMonotone(0, n, bsize);
    MulLe(bsize, 0, n / bsize);
  }

  lemma NextBlock(bsize: nat, i: nat, nblocks: nat, n: nat)
    requires i < nblocks && bsize * nblocks <= n
    ensures bsize * (i + 1) == bsize * i + bsize <= n
  {
    MulLe(bsize, i + 1, nblocks);
  }

  lemma BalancedMag(r: Int, a: Int, s: Int)
    requires r.Valid() && a.Valid() && s.Valid() && r.Value() == a.Mag() * s.Value()
    ensures r.Mag() == a.Mag() * s.Mag()
  {
    MagBounds(r);
    MagBounds(a);
    MagBounds(s);
    SignedProduct(a.Mag(), s.Mag());
  }

  lemma SignedProduct(m: int, n: int)
    requires m >= 0 && n >= 0
    ensures m * n >= 0 && m * -n == -(m * n)
  {
    MulLe(m, 0, n);
  }

  /** mp_mul: the signed product, whichever arm computes it. */
  method Mul(a: Int, b: Int, c: Int)
    requires a.Valid() && b.Valid() && c.Valid()
    modifies c
    ensures c.Valid() && c.Value() == old(a.Value()) * old(b.Value())
    decreases a.used + b.used, 3
  {
    hide Val, Pow, Int.Mag, Int.Value, Rem;
    var minLen, maxLen, digs := Min(a.used, b.used), Max(a.used, b.used), a.used + b.used + 1;
    var neg := a.neg != b.neg;
    DigVal(a);
    DigVal(b);
    WholeProduct(Dig(a), Dig(b), digs);
    SignOfProduct(a, b);
    if minLen >= KARATSUBA_MUL_CUTOFF && maxLen / 2 >= KARATSUBA_MUL_CUTOFF && maxLen >= 2 * minLen {
      var r := BalanceMul(a, b);
      Exch(r, c);
    } else if digs < WARRAY && minLen <= MAXFAST {
      MulDigsFast(a, b, c, digs);
    } else {
      MulDigs(a, b, c, digs);
    }
    GiveSign(c, neg);
  }

  lemma SignOfProduct(a: Int, b: Int)
    ensures a.Value() * b.Value() == if a.neg != b.neg then -(a.Mag() * b.Mag()) else a.Mag() * b.Mag()
  {
    var m, n := a.Mag(), b.Mag();
    assert m * -n == -(m * n) && -m * n == -(m * n) && -m * -n == m * n;
  }
}
