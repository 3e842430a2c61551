/**
 The product of two digit strings by columns: column i collects the products
 a[j] * b[i - j].
 */
module Product {
  import opened Arith
  import opened Digits
  import opened Mp

  function At(b: seq<int>, i: int): int
  {
    if 0 <= i < |b| then b[i] else 0
  }

  /** Column i of the product of a and b. */
  function Col(a: seq<int>, b: seq<int>, i: int): int
    decreases |a|
  {
    if |a| == 0 then 0 else a[0] * At(b, i) + Col(a[1..], b, i - 1)
  }

  /** The n lowest columns, weighted by their powers of the base. */
  function Cols(a: seq<int>, b: seq<int>, n: nat): int
  {
    if n == 0 then 0 else Cols(a, b, n - 1) + Col(a, b, n - 1) * Pow(B, n - 1)
  }

  /** Columns below zero are empty. */
  lemma {:induction false} ColNegative(a: seq<int>, b: seq<int>, i: int)
    requires i < 0
    ensures Col(a, b, i) == 0
  {
    if |a| != 0 { ColNegative(a[1..], b, i - 1); }
  }

  /** Digits of a whose partner lies beyond the top of b contribute nothing. */
  lemma {:induction false} ColSkip(a: seq<int>, b: seq<int>, i: int, t: nat)
    requires t <= |a| && (t == 0 || t <= i - |b| + 1)
    ensures Col(a, b, i) == Col(a[t..], b, i - t)
  {
    if t == 0 {
      assert a[0..] == a;
    } else {
      ColSkip(a[1..], b, i - 1, t - 1);
      assert a[1..][t - 1..] == a[t..];
    }
  }

  lemma ColDone(b: seq<int>, i: int)
    ensures Col([], b, i) == 0
  {
  }

  /** Taking one product off a column. */
  lemma ColStep(a: seq<int>, b: seq<int>, i: int, j: nat)
    requires j < |a|
    ensures Col(a[j..], b, i - j) == a[j] * At(b, i - j) + Col(a[j + 1..], b, i - j - 1)
  {
    assert a[j..][1..] == a[j + 1..];
  }

  /** The columns of a longer factor, one row at a time. */
  lemma {:induction false} ColsCons(a: seq<int>, b: seq<int>, n: nat)
    requires |a| > 0
    ensures Cols(a, b, n) == a[0] * Val(B, b[..Min(n, |b|)]) + (if n == 0 then 0 else B * Cols(a[1..], b, n - 1))
  {
    if n == 0 {
      assert b[..0] == [];
    } else {
      ColsCons(a, b, n - 1);
      var p := Pow(B, n - 1);
      RowPrefix(b, n - 1);
      var d, t := a[0], a[1..];
      if n == 1 {
        ColNegative(t, b, -1);
      } else {
        assert Cols(t, b, n - 1) == Cols(t, b, n - 2) + Col(t, b, n - 2) * Pow(B, n - 2);
        ConsAlgebra(d, Val(B, b[..Min(n - 1, |b|)]), At(b, n - 1), p, Cols(t, b, n - 2), Col(t, b, n - 2), Pow(B, n - 2));
      }
    }
  }

  lemma ConsAlgebra(d: int, v: int, e: int, p: int, c: int, w: int, q: int)
    requires p == B * q
    ensures d * v + B * c + (d * e + w) * p == d * (v + p * e) + B * (c + w * q)
  {
    assert (d * e + w) * p == d * (p * e) + B * (w * q);
  }

  lemma RowPrefix(b: seq<int>, i: nat)
    ensures Val(B, b[..Min(i + 1, |b|)]) == Val(B, b[..Min(i, |b|)]) + Pow(B, i) * At(b, i)
  {
    if i < |b| {
      ValAt(B, b, i);
    }
  }

  /** The n lowest columns give the product modulo B^n. */
  lemma {:induction false} ColsCong(a: seq<int>, b: seq<int>, n: nat)
    ensures Pow(B, n) > 0 && Cong(Cols(a, b, n), Val(B, a) * Val(B, b), Pow(B, n))
    decreases |a|
  {
    PowPositive(B, n);
    if |a| == 0 {
      ColsEmpty(b, n);
    } else if n > 0 {
      ColsCons(a, b, n);
      ColsCong(a[1..], b, n - 1);
      var low, high := RowWitness(a[1..], b, n);
      ColsCongAlgebra(a[0], Val(B, b[..Min(n, |b|)]), Val(B, b), low, Cols(a[1..], b, n - 1), Val(B, a[1..]), high, Pow(B, n - 1));
      CongIntro(Cols(a, b, n), Val(B, a) * Val(B, b), -(a[0] * low) + high, Pow(B, n));
    } else {
      CongOne(Cols(a, b, 0), Val(B, a) * Val(B, b));
    }
  }

  lemma CongOne(x: int, y: int)
    ensures Cong(x, y, Pow(B, 0))
  {
    CongIntro(x, y, x - y, 1);
  }

  lemma RowWitness(t: seq<int>, b: seq<int>, n: nat) returns (low: int, high: int)
    requires n > 0 && Pow(B, n - 1) > 0 && Cong(Cols(t, b, n - 1), Val(B, t) * Val(B, b), Pow(B, n - 1))
    ensures Val(B, b) == Val(B, b[..Min(n, |b|)]) + Pow(B, n) * low
    ensures Cols(t, b, n - 1) == Val(B, t) * Val(B, b) + high * Pow(B, n - 1)
  {
    high := CongElim(Cols(t, b, n - 1), Val(B, t) * Val(B, b), Pow(B, n - 1));
    if n <= |b| {
      ValSplit(B, b, n);
      low := Val(B, b[n..]);
    } else {
      assert b[..|b|] == b;
      low := 0;
    }
  }

  lemma ColsCongAlgebra(d: int, vn: int, v: int, low: int, c: int, t: int, high: int, p: int)
    requires v == vn + (B * p) * low && c == t * v + high * p
    ensures d * vn + B * c == (d + B * t) * v + (-(d * low) + high) * (B * p)
  {
    assert d * v == d * vn + (d * low) * (B * p);
    assert B * c == B * (t * v) + high * (B * p);
    assert (d + B * t) * v == d * v + B * (t * v);
  }

  lemma {:induction false} ColsEmpty(b: seq<int>, n: nat)
    ensures Cols([], b, n) == 0
  {
    if n > 0 { ColsEmpty(b, n - 1); }
  }

  /** All the columns give the product. */
  lemma {:induction false} ColsAll(a: seq<int>, b: seq<int>, n: nat)
    requires n >= |a| + |b|
    ensures Cols(a, b, n) == Val(B, a) * Val(B, b)
    decreases |a|
  {
    if |a| == 0 {
      ColsEmpty(b, n);
    } else {
      ColsCons(a, b, n);
      ColsAll(a[1..], b, n - 1);
      assert b[..|b|] == b;
      AllAlgebra(a[0], Val(B, a[1..]), Val(B, b));
    }
  }

  lemma AllAlgebra(d: int, t: int, v: int)
    ensures d * v + B * (t * v) == (d + B * t) * v
  {
  }

  /** How many digits of b meet a digit at position i without reaching column n. */
  function Reach(b: seq<int>, n: int, i: nat): (k: nat)
    ensures k <= |b|
  {
    Max(0, Min(|b|, n - i))
  }

  /** The columns of a factor extended on top. */
  lemma {:induction false} ColsSnoc(a: seq<int>, d: int, b: seq<int>, n: nat)
    ensures Cols(a + [d], b, n) == Cols(a, b, n) + Pow(B, |a|) * (d * Val(B, b[..Reach(b, n, |a|)]))
    decreases |a|
  {
    var e := a + [d];
    ColsCons(e, b, n);
    if |a| == 0 {
      assert e[1..] == [];
      ColsEmpty(b, n);
      if n > 0 { ColsEmpty(b, n - 1); }
      assert a == [];
    } else {
      ColsCons(a, b, n);
      assert e[1..] == a[1..] + [d];
      if n > 0 {
        ColsSnoc(a[1..], d, b, n - 1);
        MulAssoc(B, Pow(B, |a| - 1), d * Val(B, b[..Reach(b, n - 1, |a| - 1)]));
      } else {
        assert b[..0] == [];
      }
    }
  }

  /** The product without its n lowest columns. */
  function High(a: seq<int>, b: seq<int>, n: nat): int
  {
    Val(B, a) * Val(B, b) - Cols(a, b, n)
  }

  /** A row adds the part of b that reaches column n. */
  lemma HighSnoc(a: seq<int>, d: int, b: seq<int>, n: nat)
    requires |a| <= n
    ensures High(a + [d], b, n) == High(a, b, n) + (if n - |a| <= |b| then Pow(B, n) * (d * Val(B, b[n - |a|..])) else 0)
  {
    hide Val, Cols;
    var i := n - |a|;
    ColsSnoc(a, d, b, n);
    ValAppend(B, a, [d]);
    ValSingle(B, d);
    if i <= |b| {
      ValSplit(B, b, i);
      PowAdd(B, |a|, i);
      HighAlgebra(Val(B, a), Val(B, b), Val(B, b[..i]), Val(B, b[i..]), d, Pow(B, |a|), Pow(B, i));
    } else {
      assert b[..|b|] == b;
      HighAlgebra(Val(B, a), Val(B, b), Val(B, b), 0, d, Pow(B, |a|), 0);
    }
  }

  lemma HighAlgebra(va: int, vb: int, lo: int, hi: int, d: int, p: int, q: int)
    requires vb == lo + q * hi
    ensures (va + p * d) * vb - p * (d * lo) == va * vb + (p * q) * (d * hi)
  {
    assert (p * d) * vb == p * (d * lo) + (p * q) * (d * hi) by {
      assert (p * d) * (q * hi) == (p * q) * (d * hi) by { MulSwap(p, d, q, hi); }
      assert (p * d) * lo == p * (d * lo);
    }
  }

  lemma HighStart(b: seq<int>, n: nat)
    ensures High([], b, n) == 0
  {
    ColsEmpty(b, n);
  }

  // ----- squares -----

  /** The products s[j] * s[i - j] for j from lo up to hi. */
  function Seg(s: seq<int>, i: int, lo: nat, hi: nat): int
    requires lo <= hi <= |s| && hi <= i + 1 && i - lo < |s|
    decreases hi - lo
  {
    if lo == hi then 0 else s[lo] * s[i - lo] + Seg(s, i, lo + 1, hi)
  }

  lemma {:induction false} SegSplit(s: seq<int>, i: int, lo: nat, mid: nat, hi: nat)
    requires lo <= mid <= hi <= |s| && hi <= i + 1 && i - lo < |s|
    ensures Seg(s, i, lo, hi) == Seg(s, i, lo, mid) + Seg(s, i, mid, hi)
    decreases mid - lo
  {
    if lo < mid { SegSplit(s, i, lo + 1, mid, hi); }
  }

  /** A segment read backwards. */
  lemma {:induction false} SegReflect(s: seq<int>, i: int, lo: nat, hi: nat)
    requires lo <= hi <= |s| && hi <= i + 1 && i - lo < |s|
    ensures Seg(s, i, lo, hi) == Seg(s, i, i + 1 - hi, i + 1 - lo)
    decreases hi - lo
  {
    if lo < hi {
      SegReflect(s, i, lo + 1, hi);
      SegSplit(s, i, i + 1 - hi, i - lo, i + 1 - lo);
      assert Seg(s, i, i - lo, i + 1 - lo) == s[i - lo] * s[i - (i - lo)] + Seg(s, i, i + 1 - lo, i + 1 - lo);
    }
  }

  /** A column of a square is a segment. */
  lemma {:induction false} ColSeg(s: seq<int>, i: int, lo: nat, hi: nat)
    requires lo <= hi <= |s| && hi <= i + 1 && i - lo < |s|
    requires hi == |s| || hi == i + 1
    ensures Col(s[lo..], s, i - lo) == Seg(s, i, lo, hi)
    decreases hi - lo
  {
    if lo < hi {
      ColStep(s, s, i, lo);
      ColSeg(s, i, lo + 1, hi);
    } else if hi == |s| {
      assert s[lo..] == [];
    } else {
      ColNegative(s[lo..], s, i - lo);
    }
  }

  /** Column i of a square: twice the products below the middle, and the middle one if i is even. */
  lemma SquareColumn(s: seq<int>, i: nat, tx: nat, ty: int, h: nat)
    requires i < 2 * |s| && ty == Min(|s| - 1, i) && tx == i - ty && h == (ty - tx + 1) / 2
    ensures tx + h <= |s| && tx + h <= i + 1 && (i % 2 == 0 ==> i / 2 < |s|)
    ensures Col(s, s, i) == 2 * Seg(s, i, tx, tx + h) + (if i % 2 == 0 then s[i / 2] * s[i / 2] else 0)
  {
    hide Col;
    ColSkip(s, s, i, tx);
    ColSeg(s, i, tx, ty + 1);
    SegSplit(s, i, tx, tx + h, ty + 1);
    SegSplit(s, i, tx + h, ty + 1 - h, ty + 1);
    SegReflect(s, i, tx, tx + h);
    if i % 2 == 0 {
      assert tx + h == i / 2 && ty + 1 - h == i / 2 + 1;
      assert Seg(s, i, i / 2, i / 2 + 1) == s[i / 2] * s[i - i / 2] + Seg(s, i, i / 2 + 1, i / 2 + 1);
    }
  }
}
