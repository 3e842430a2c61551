/**
 The reductions that fold the high part of a number onto its low part: the
 diminished-radix form in place on the digits, and the 2^p - d forms.
 */
module Reductions {
  import opened Arith
  import opened Digits
  import opened Mp
  import opened Columns
  import opened Multiply

  // ----- the fold and what it computes -----

  /** One fold of v at `base`: the high part comes back multiplied by d. */
  function Fold(v: int, base: int, d: int): int
    requires base > 0
  {
    v % base + d * (v / base)
  }

  /** The fold keeps v nonnegative, never grows it, and subtracts a multiple of base - d. */
  lemma FoldShrinks(v: int, base: int, d: int)
    requires base > 0 && 0 <= d <= base && v >= 0
    ensures 0 <= Fold(v, base, d) <= v
    ensures v == Fold(v, base, d) + (base - d) * (v / base)
  {
    DivModDef(v, base);
    var q := v / base;
    DivMonotone(0, v, base);
    MulLe(q, 0, d);
    MulLe(q, d, base);
    assert (base - d) * q == q * base - d * q;
  }

  /** What the "goto top" loops leave: fold, and fold again after subtracting n while too big. */
  function Folded(v: int, base: int, d: int, n: int): (r: int)
    requires base > 0 && 0 <= d <= base && n > 0 && v >= 0
    ensures 0 <= r < n
    decreases v
  {
    FoldShrinks(v, base, d);
    if Fold(v, base, d) < n then Fold(v, base, d) else Folded(Fold(v, base, d) - n, base, d, n)
  }

  /** The loop moves v only by multiples of base - d and of n, so it keeps v modulo their common divisors. */
  lemma {:induction false} FoldedKeeps(v: int, base: int, d: int, n: int, m: int)
    requires base > 0 && 0 <= d <= base && n > 0 && v >= 0 && m > 0 && (base - d) % m == 0 && n % m == 0
    ensures Cong(Folded(v, base, d, n), v, m)
    decreases v
  {
    hide Fold, Cong;
    FoldShrinks(v, base, d);
    var w, q, t := Fold(v, base, d), v / base, (base - d) / m;
    DivModDef(base - d, m);
    assert v == w + (t * q) * m by { assert (t * m) * q == (t * q) * m; }
    CongIntro(w, v, -(t * q), m);
    if w >= n {
      FoldedKeeps(w - n, base, d, n, m);
      DivModDef(n, m);
      CongIntro(w - n, w, -(n / m), m);
      CongTrans(Folded(w - n, base, d, n), w - n, w, m);
      CongTrans(Folded(w - n, base, d, n), w, v, m);
    }
  }

  /** When n divides base - d the loop computes the residue. */
  lemma FoldedIsRem(v: int, base: int, d: int, n: int)
    requires base > 0 && 0 <= d <= base && n > 0 && (base - d) % n == 0 && v >= 0
    ensures Folded(v, base, d, n) == Rem(v, n)
  {
    hide Folded;
    DivModUnique(n, 1, 0, n);
    FoldedKeeps(v, base, d, n, n);
    RemFromCong(Folded(v, base, d, n), v, n);
  }

  // ----- 2^p - d, d a digit or an integer -----

  /** mp_reduce_2k.  The loop is the fold loop, whatever d is. */
  method Reduce2k(a: Int, n: Int, d: int)
    requires a != n && a.Valid() && n.Valid() && a.Value() >= 0 && n.Value() > 0 && 0 <= d < 0x1000_0000
    requires d <= Pow(2, BitLen(n.Value()))
    modifies a
    ensures a.Valid() && Pow(2, BitLen(n.Value())) > 0
    ensures a.Value() == Folded(old(a.Value()), Pow(2, BitLen(n.Value())), d, n.Value())
  {
    hide *;
    var q := new Int();
    NonnegValue(n);
    var p := CountBits(n);
    ghost var base := Pow(2, p);
    PowPositive(2, p);
    var again := true;
    while again
      invariant a.Valid() && a.Value() >= 0
      invariant again ==> Folded(a.Value(), base, d, n.Value()) == Folded(old(a.Value()), base, d, n.Value())
      invariant !again ==> a.Value() == Folded(old(a.Value()), base, d, n.Value())
      decreases again, a.Value()
    {
      ghost var v := a.Value();
      FoldedStep(v, base, d, n.Value());
      Div2d(a, p, q, a);
      if d != 1 {
        MulD(q, d, q);
      }
      Add(a, q, a);
      again := a.Value() >= n.Value();
      if again {
        Sub(a, n, a);
      }
    }
  }

  lemma FoldedStep(v: int, base: int, d: int, n: int)
    requires base > 0 && 0 <= d <= base && n > 0 && v >= 0
    ensures Fold(v, base, d) == Rem(v, base) + Quot(v, base) * d
    ensures 0 <= Fold(v, base, d) <= v
    ensures Fold(v, base, d) < n ==> Folded(v, base, d, n) == Fold(v, base, d)
    ensures Fold(v, base, d) >= n ==> Folded(v, base, d, n) == Folded(Fold(v, base, d) - n, base, d, n)
  {
    FoldShrinks(v, base, d);
  }

  /** mp_reduce_2k_l: the same loop with a d of any length. */
  method Reduce2kL(a: Int, n: Int, d: Int)
    requires a != n && a != d && a.Valid() && n.Valid() && d.Valid() && a.Value() >= 0 && n.Value() > 0
    requires 0 <= d.Value() <= Pow(2, BitLen(n.Value()))
    modifies a
    ensures a.Valid() && Pow(2, BitLen(n.Value())) > 0
    ensures a.Value() == Folded(old(a.Value()), Pow(2, BitLen(n.Value())), d.Value(), n.Value())
  {
    hide *;
    var q := new Int();
    NonnegValue(n);
    var p := CountBits(n);
    ghost var base, d0 := Pow(2, p), d.Value();
    PowPositive(2, p);
    var again := true;
    while again
      invariant a.Valid() && a.Value() >= 0
      invariant again ==> Folded(a.Value(), base, d0, n.Value()) == Folded(old(a.Value()), base, d0, n.Value())
      invariant !again ==> a.Value() == Folded(old(a.Value()), base, d0, n.Value())
      decreases again, a.Value()
    {
      ghost var v := a.Value();
      FoldedStep(v, base, d0, n.Value());
      Div2d(a, p, q, a);
      Mul(q, d, q);
      Add(a, q, a);
      again := a.Value() >= n.Value();
      if again {
        Sub(a, n, a);
      }
    }
  }

  /** mp_reduce_2k_setup_l: the distance to the next power of two. */
  method Setup2kL(a: Int, d: Int)
    requires a != d && a.Valid() && a.Value() > 0
    modifies d
    ensures d.Valid() && d.Value() == Pow(2, BitLen(a.Value())) - a.Value() && 0 < d.Value()
  {
    hide *;
    NonnegValue(a);
    var p := CountBits(a);
    BitLenBounds(a.Value());
    var tmp := new Int();
    TwoExpt(tmp, p);
    Sub(tmp, a, d);
  }

  /** mp_reduce_2k_setup: only the low digit of that distance. */
  method Setup2k(a: Int) returns (d: int)
    requires a.Valid() && a.Value() > 0
    ensures Pow(2, BitLen(a.Value())) > a.Value() && d == Rem(Pow(2, BitLen(a.Value())) - a.Value(), 0x1000_0000)
  {
    hide *;
    NonnegValue(a);
    var p := CountBits(a);
    BitLenBounds(a.Value());
    var tmp := new Int();
    TwoExpt(tmp, p);
    Sub(tmp, a, tmp);
    OneCell(tmp);
    d := tmp.dp[0];
  }

  lemma OneCell(a: Int)
    requires a.Valid() && a.Value() > 0
    ensures |a.dp| > 0 && a.dp[0] == Rem(a.Value(), 0x1000_0000)
  {
    NonnegValue(a);
    MagBounds(a);
    DivModUnique(a.Mag(), Val(B, a.dp[1..]), a.dp[0], B);
  }

  // ----- which moduli qualify -----

  /** The bit of a digit string at position ix sits in digit ix / 28. */
  lemma DigitBit(s: seq<int>, ix: nat)
    requires IsDigits(B, s) && ix < 28 * |s|
    ensures Pow(2, ix) > 0 && Pow(2, ix % 28) > 0
    ensures Quot(Val(B, s), Pow(2, ix)) % 2 == (s[ix / 28] / Pow(2, ix % 28)) % 2
  {
    hide Val;
    var i, j := ix / 28, ix % 28;
    ValDivMod(B, s, i);
    ValAt(B, s, i);
    BaseIsPowTwo(i);
    PowAdd(2, 28 * i, j);
    PowPositive(2, j);
    PowPositive(2, ix);
    DivDiv(Val(B, s), Pow(2, 28 * i), Pow(2, j));
    LowBit(s[i], Val(B, s[i + 1..]), j);
  }

  lemma LowBit(d: int, t: int, j: nat)
    requires 0 <= d && j < 28
    ensures Pow(2, j) > 0 && ((d + B * t) / Pow(2, j)) % 2 == (d / Pow(2, j)) % 2
  {
    hide Pow;
    PowPositive(2, j);
    PowAdd(2, j, 28 - j);
    PowTwo28();
    PowNext(2, 27 - j);
    var p, e := Pow(2, j), Pow(2, 27 - j);
    DivModDef(d, p);
    ShiftedSum(d, t, p, d / p, d % p, e);
  }

  lemma ShiftedSum(d: int, t: int, p: int, q: int, r: int, e: int)
    requires p > 0 && d == q * p + r && 0 <= r < p && B == p * (2 * e)
    ensures ((d + B * t) / p) % 2 == q % 2
  {
    var h := e * t;
    assert B * t == p * (2 * h) by { MulAssoc(p, 2 * e, t); assert (2 * e) * t == 2 * h; }
    assert d + B * t == (q + 2 * h) * p + r;
    DivModUnique(d + B * t, q + 2 * h, r, p);
    assert (q + 2 * h) % 2 == q % 2;
  }

  /** The part of v above digit 0 is all ones up to the top bit: v is within B of 2^bits. */
  ghost predicate NearPowerOfTwo(v: int, bits: nat)
  {
    Pow(2, bits) - v <= B
  }

  /** One more one-bit. */
  lemma OnesStep(h: int, e: nat)
    requires Pow(2, e) > 0 && h % Pow(2, e) == Pow(2, e) - 1 && (h / Pow(2, e)) % 2 == 1
    ensures Pow(2, e + 1) > 0 && h % Pow(2, e + 1) == Pow(2, e + 1) - 1
  {
    var p := Pow(2, e);
    DivModDef(h, p);
    var q := h / p / 2;
    assert h == (2 * q + 1) * p + (p - 1);
    DivModUnique(h, q, 2 * p - 1, 2 * p);
  }

  /** A zero bit below the top keeps v away from the power of two. */
  lemma ZeroBitFar(v: int, bits: nat, ix: nat)
    requires 28 <= ix < bits && 0 <= v < Pow(2, bits) && Pow(2, ix) > 0 && Quot(v, Pow(2, ix)) % 2 == 0
    ensures !NearPowerOfTwo(v, bits)
  {
    hide Pow;
    var p := Pow(2, ix);
    PowAdd(2, ix, bits - ix);
    PowTwo28();
    PowMonotone(2, 28, ix);
    DivModDef(v, p);
    PowNext(2, bits - ix - 1);
    EvenQuotientFar(v, p, v / p, v % p, Pow(2, bits - ix));
  }

  lemma EvenQuotientFar(v: int, p: int, q: int, r: int, t: int)
    requires p > 0 && v == q * p + r && 0 <= r < p && v < p * t && q % 2 == 0 && t % 2 == 0
    ensures p * t - v > p
  {
    if q >= t { MulLe(p, t, q); }
    MulLe(p, q, t - 2);
    assert p * (t - 2) == p * t - 2 * p;
  }

  /** mp_reduce_is_2k: the bit scan decides nearness to a power of two. */
  method Is2k(a: Int) returns (yes: bool)
    requires a.Valid() && a.Value() >= 0
    ensures yes == (a.used == 1 || (a.used > 1 && NearPowerOfTwo(a.Value(), BitLen(a.Value()))))
  {
    hide Val, Pow, BitLen, NearPowerOfTwo, Quot, Int.Value;
    if a.used == 0 {
      return false;
    } else if a.used == 1 {
      return true;
    }
    NonnegValue(a);
    MagBounds(a);
    var iy := CountBits(a);
    var ix, iw, iz := 28, 1, 1;
    ghost var v := a.Value();
    BitLenBounds(v);
    ScanStart(v);
    while ix < iy
      invariant 28 <= ix <= iy && iw == ix / 28 && iz == Pow(2, ix % 28)
      invariant HighOnes(v, ix)
    {
      DigitBit(a.dp, ix);
      MagIsVal(a);
      if (a.dp[iw] / iz) % 2 == 0 {
        ZeroBitFar(v, iy, ix);
        return false;
      }
      ScanStep(v, ix);
      MaskStep(ix);
      iz := iz * 2;
      if iz > 0xFFF_FFFF {
        iw := iw + 1;
        iz := 1;
      }
      ix := ix + 1;
    }
    ScanEnd(v, iy);
    return true;
  }

  /** Bits 28 .. ix - 1 of v are ones. */
  ghost predicate HighOnes(v: int, ix: nat)
  {
    ix >= 28 && Pow(2, ix - 28) > 0 && (v / B) % Pow(2, ix - 28) == Pow(2, ix - 28) - 1
  }

  lemma ScanStart(v: int)
    ensures HighOnes(v, 28) && Pow(2, 28 % 28) == 1
  {
    DivModUnique(v / B, v / B, 0, 1);
  }

  lemma ScanStep(v: int, ix: nat)
    requires v >= 0 && HighOnes(v, ix) && Pow(2, ix) > 0 && Quot(v, Pow(2, ix)) % 2 == 1
    ensures HighOnes(v, ix + 1)
  {
    PowAdd(2, 28, ix - 28);
    PowTwo28();
    DivDiv(v, B, Pow(2, ix - 28));
    OnesStep(v / B, ix - 28);
  }

  lemma MaskStep(ix: nat)
    ensures Pow(2, ix % 28) > 0
    ensures ix % 28 < 27 ==> (ix + 1) % 28 == ix % 28 + 1 && (ix + 1) / 28 == ix / 28 && 2 * Pow(2, ix % 28) == Pow(2, (ix + 1) % 28) <= 0xFFF_FFFF
    ensures ix % 28 == 27 ==> (ix + 1) % 28 == 0 && (ix + 1) / 28 == ix / 28 + 1 && 2 * Pow(2, ix % 28) > 0xFFF_FFFF && Pow(2, (ix + 1) % 28) == 1
  {
    var j := ix % 28;
    PowPositive(2, j);
    PowNext(2, j);
    PowTwo28();
    PowMonotone(2, j + 1, 28);
    if j < 27 { PowStrict(2, j + 1, 28); }
  }

  lemma ScanEnd(v: int, bits: nat)
    requires 0 <= v < Pow(2, bits) && HighOnes(v, bits)
    ensures NearPowerOfTwo(v, bits)
  {
    PowAdd(2, 28, bits - 28);
    PowTwo28();
    var t, h := Pow(2, bits - 28), v / B;
    DivModDef(v, B);
    assert h < t by { if h >= t { MulLe(B, t, h); } }
    DivMonotone(0, v, B);
    ModSmall(h, t);
  }

  /** mp_reduce_is_2k_l: at least half of the digits are all ones. */
  method Is2kL(a: Int) returns (yes: bool)
    requires a.Valid()
    ensures yes == (a.used == 1 || (a.used > 1 && MaxDigits(a.dp[..a.used]) >= a.used / 2))
  {
    if a.used == 0 {
      return false;
    } else if a.used == 1 {
      return true;
    }
    var iy := 0;
    for ix := 0 to a.used
      invariant iy == MaxDigits(a.dp[..ix])
    {
      assert a.dp[..ix + 1][..ix] == a.dp[..ix];
      if a.dp[ix] == 0xFFF_FFFF {
        iy := iy + 1;
      }
    }
    return iy >= a.used / 2;
  }

  /** Digits equal to B - 1. */
  function MaxDigits(s: seq<int>): nat
  {
    if |s| == 0 then 0
    else MaxDigits(s[..|s| - 1]) + if s[|s| - 1] == 0xFFF_FFFF then 1 else 0
  }

  /** mp_dr_is_modulus: B^k - d with d at most B. */
  method IsDrModulus(a: Int) returns (yes: bool)
    requires a.Valid()
    ensures yes == (a.used >= 2 && forall i :: 1 <= i < a.used ==> a.dp[i] == 0xFFF_FFFF)
  {
    if a.used < 2 {
      return false;
    }
    for ix := 1 to a.used
      invariant forall i :: 1 <= i < ix ==> a.dp[i] == 0xFFF_FFFF
    {
      if a.dp[ix] != 0xFFF_FFFF {
        return false;
      }
    }
    return true;
  }

  /** The digits of 2^e - 1 are all ones as far as whole digits go. */
  lemma {:induction false} AllOnesDigits(t: seq<int>, e: nat, i: nat)
    requires IsDigits(B, t) && Val(B, t) == Pow(2, e) - 1 && 28 * (i + 1) <= e
    ensures i < |t| && t[i] == 0xFFF_FFFF
    decreases i
  {
    hide Pow;
    PowAdd(2, 28, e - 28);
    PowTwo28();
    PowPositive(2, e - 28);
    var p := Pow(2, e - 28);
    DivModUnique(Val(B, t), p - 1, B - 1, B);
    DivModUnique(Val(B, t), Val(B, t[1..]), t[0], B);
    if i > 0 {
      AllOnesDigits(t[1..], e - 28, i - 1);
    }
  }

  lemma {:induction false} ManyMaxDigits(s: seq<int>, n: nat)
    requires n < |s| && forall i :: 1 <= i <= n ==> s[i] == 0xFFF_FFFF
    ensures MaxDigits(s) >= n
    decreases |s|
  {
    var m := |s| - 1;
    if n < m {
      ManyMaxDigits(s[..m], n);
    } else if n > 0 {
      ManyMaxDigits(s[..m], n - 1);
    }
  }

  // ----- diminished radix -----

  /** mp_dr_setup. */
  method DrSetup(a: Int) returns (d: int)
    requires a.Valid() && |a.dp| > 0
    ensures d == B - a.dp[0]
  {
    d := B - a.dp[0];
  }

  /** A modulus the diminished-radix fold accepts: B^m - k, k at most B. */
  ghost predicate IsDr(n: Int, k: int)
    reads n
  {
    n.Valid() && 0 < k <= B && n.Value() == Pow(B, n.used) - k
  }

  lemma DrStep(lo: seq<int>, v: int, mu: int, l: int, h: int, k: int, r: int)
    requires r == h * k + l + mu
    ensures Val(B, lo + [r % B]) + (r / B) * Pow(B, |lo| + 1) == Val(B, lo) + mu * Pow(B, |lo|) + Pow(B, |lo|) * l + k * (Pow(B, |lo|) * h)
  {
    ValAppend(B, lo, [r % B]);
    ValSingle(B, r % B);
    PowNext(B, |lo|);
    DrAlgebra(Pow(B, |lo|), r % B, r / B, r, mu, l, h, k);
  }

  lemma DrAlgebra(p: int, m: int, q: int, r: int, mu: int, l: int, h: int, k: int)
    requires r == q * B + m && r == h * k + l + mu
    ensures p * m + q * (B * p) == mu * p + p * l + k * (p * h)
  {
    assert p * r == p * m + q * (B * p);
    assert p * (h * k) == k * (p * h);
  }

  /** The inner loop: (x mod B^m) + k * (x / B^m) in place in the m low cells.  The carry may reach k. */
  method DrFoldDigits(x: Int, m: nat, k: int) returns (mu: int)
    requires 0 < k <= B && IsDigits(B, x.dp) && 2 * m <= |x.dp|
    modifies x`dp
    ensures |x.dp| == old(|x.dp|) && IsDigits(B, x.dp) && 0 <= mu <= k
    ensures x.dp[m..] == old(x.dp[m..])
    ensures Val(B, x.dp[..m]) + mu * Pow(B, m) == old(Val(B, x.dp[..m])) + k * old(Val(B, x.dp[m..2 * m]))
  {
    hide Val, Pow;
    mu := 0;
    ghost var L, H := x.dp[..m], x.dp[m..2 * m];
    DrEmpty(L, H, k);
    for i := 0 to m
      invariant |x.dp| == old(|x.dp|) && IsDigits(B, x.dp) && 0 <= mu <= k
      invariant forall j :: i <= j < |x.dp| ==> x.dp[j] == old(x.dp[j])
      invariant Val(B, x.dp[..i]) + mu * Pow(B, i) == Val(B, L[..i]) + k * Val(B, H[..i])
    {
      ghost var lo := x.dp[..i];
      DrCarry(x.dp[m + i], k, x.dp[i], mu);
      var r: Word := x.dp[m + i] * k + x.dp[i] + mu;
      DrStep(lo, 0, mu, L[i], H[i], k, r);
      ValAt(B, L, i);
      ValAt(B, H, i);
      DrRow(k, Val(B, H[..i]), Pow(B, i) * H[i]);
      x.dp := x.dp[i := r % B];
      mu := r / B;
      assert x.dp[..i + 1] == lo + [r % B];
    }
    assert L[..m] == L && H[..m] == H;
  }

  /** The carry of a fold stays at most k. */
  lemma DrCarry(h: int, k: int, l: int, mu: int)
    requires 0 <= h < B && 0 < k <= B && 0 <= l < B && 0 <= mu <= k
    ensures 0 <= h * k + l + mu < WORD && 0 <= (h * k + l + mu) / B <= k
  {
    MulLe(k, h, B - 1);
    MulLe(k, 0, h);
    assert (B - 1) * k == B * k - k;
    DivMonotone(h * k + l + mu, k * B + (B - 1), B);
    DivModUnique(k * B + (B - 1), k, B - 1, B);
    DivMonotone(0, h * k + l + mu, B);
  }

  lemma DrEmpty(L: seq<int>, H: seq<int>, k: int)
    ensures Val(B, L[..0]) + k * Val(B, H[..0]) == 0
  {
  }

  lemma DrRow(k: int, v: int, w: int)
    ensures k * (v + w) == k * v + k * w
  {
  }

  lemma FoldParts(x: Int, m: nat, k: int)
    requires x.Valid() && x.used <= 2 * m <= |x.dp|
    ensures Pow(B, m) > 0 && Fold(x.Mag(), Pow(B, m), k) == Val(B, x.dp[..m]) + k * Val(B, x.dp[m..2 * m])
  {
    ValDivMod(B, x.dp, m);
    ValSameDigits(B, x.dp[m..], x.dp[m..2 * m], m);
  }

  /** A number without a high part is left alone. */
  lemma NothingToFold(lo: seq<int>, mu: int, s: seq<int>, m: nat, k: int)
    requires IsDigits(B, s) && IsDigits(B, lo) && |lo| == m && 2 * m <= |s| && mu >= 0
    requires Val(B, lo) + mu * Pow(B, m) == Val(B, s[..m]) + k * Val(B, s[m..2 * m])
    requires forall i :: m <= i < |s| ==> s[i] == 0
    ensures mu == 0 && lo == s[..m]
  {
    hide Val, Pow;
    ValZero(B, s[m..2 * m]);
    assert k * 0 == 0;
    ValBound(B, s[..m]);
    ValBound(B, lo);
    if mu > 0 { MulLe(Pow(B, m), 1, mu); }
    ValInjective(B, lo, s[..m]);
  }

  lemma DrStored(d: seq<int>, lo: seq<int>, mu: int)
    requires |lo| < |d| && d[..|lo|] == lo && d[|lo|] == mu && forall i :: |lo| < i < |d| ==> d[i] == 0
    ensures Val(B, d) == Val(B, lo) + mu * Pow(B, |lo|)
  {
    var m := |lo|;
    assert d[..m + 1] == lo + [mu];
    assert AllZero(d[m + 1..]);
    ValTrim(B, d, m + 1);
    ValAppend(B, lo, [mu]);
    ValSingle(B, mu);
  }

  /** Zeroes the used cells above cell m. */
  method ZeroAbove(x: Int, m: nat)
    requires m < |x.dp| && x.used <= |x.dp|
    modifies x`dp
    ensures |x.dp| == old(|x.dp|)
    ensures forall j :: 0 <= j < |x.dp| ==> x.dp[j] == if m < j < x.used then 0 else old(x.dp[j])
  {
    var i := m + 1;
    while i < x.used
      invariant m + 1 <= i && |x.dp| == old(|x.dp|)
      invariant forall j :: 0 <= j < |x.dp| ==> x.dp[j] == if m < j < i && j < x.used then 0 else old(x.dp[j])
      decreases x.used - i
    {
      x.dp := x.dp[i := 0];
      i := i + 1;
    }
  }

  /** Digits everywhere but in cell m, which may hold B itself. */
  ghost predicate CarryCell(x: Int, m: nat)
    reads x
  {
    && x.Padded() && !x.neg && m < |x.dp|
    && forall i :: 0 <= i < |x.dp| ==> 0 <= x.dp[i] < B || (i == m && x.dp[i] == B)
  }

  /** A carry of B means k = B, and then what is below it is less than the modulus. */
  lemma FullCarry(lo: int, hi: int, k: int, p: int, v: int)
    requires 0 <= lo < p && 0 <= hi < p && 0 < k <= B && v >= 0 && v + B * p == lo + k * hi
    ensures k == B && v < p - k
  {
    MulLe(k, hi, p - 1);
    if k < B {
      MulLe(p - 1, k, B - 1);
    }
    assert B * (p - 1) == B * p - B;
  }

  /** One pass of mp_dr_reduce up to the clamp.  With k = B cell m may overflow its digit. */
  method DrFold(x: Int, m: nat, k: int)
    requires x.Valid() && x.Value() >= 0 && 0 < k <= B && x.used <= 2 * m <= |x.dp| && 0 < m && m + 1 <= |x.dp|
    modifies x
    ensures Pow(B, m) > 0 && x.Value() == Fold(old(x.Value()), Pow(B, m), k) && CarryCell(x, m)
    ensures if x.dp[m] < B then x.Valid() else x.used == m + 1 && Val(B, x.dp[..m]) < Pow(B, m) - k
    ensures |x.dp| == old(|x.dp|) && x.used <= old(x.used)
  {
    hide Val, Pow, Fold, Int.Value;
    NonnegValue(x);
    MagBounds(x);
    FoldParts(x, m, k);
    ghost var s := x.dp;
    var mu := DrFoldDigits(x, m, k);
    ghost var t := x.dp;
    if x.used <= m {
      NothingToFold(t[..m], mu, s, m, k);
    }
    if mu == B {
      HalvesBelow(s, m);
      ValNonneg(t[..m]);
      FullCarry(Val(B, s[..m]), Val(B, s[m..2 * m]), k, Pow(B, m), Val(B, t[..m]));
    }
    x.dp := x.dp[m := mu];
    assert forall j :: m < j < |s| ==> x.dp[j] == t[m..][j - m];
    ZeroAbove(x, m);
    assert x.dp[..m] == t[..m];
    DrStored(x.dp, t[..m], mu);
    assert x.used <= m ==> forall j :: x.used <= j < m ==> x.dp[j] == s[..m][j];
    x.Clamp();
    ClampedValue(x);
  }

  lemma ClampedValue(x: Int)
    ensures !x.neg ==> x.Value() == x.Mag() == Val(B, x.dp)
  {
  }

  lemma HalvesBelow(s: seq<int>, m: nat)
    requires IsDigits(B, s) && 2 * m <= |s|
    ensures 0 <= Val(B, s[..m]) < Pow(B, m) && 0 <= Val(B, s[m..2 * m]) < Pow(B, m)
  {
    ValBound(B, s[..m]);
    ValBound(B, s[m..2 * m]);
  }

  lemma ValNonneg(s: seq<int>)
    requires IsDigits(B, s)
    ensures Val(B, s) >= 0
  {
    ValBound(B, s);
  }

  lemma DrModulus(n: Int, k: int)
    requires IsDr(n, k) && n.used > 0
    ensures 0 < k <= 0x1000_0000 && 0 < k < Pow(B, n.used) && n.Valid() && n.Value() == Pow(B, n.used) - k && n.Value() > 0
  {
    MagBounds(n);
  }

  lemma DrInput(x: Int, m: nat)
    requires x.Valid() && 0 <= x.Value() < Pow(B, 2 * m)
    ensures x.used <= 2 * m
  {
    MagBounds(x);
    if x.used > 2 * m { PowMonotone(B, 2 * m, x.used - 1); }
  }

  // ----- the subtraction that follows a fold -----

  /** One cell of s_mp_sub in 32-bit arithmetic: the difference and the borrow from its top bit. */
  function SubCell(a: int, b: int, u: int): (r: (int, int))
  {
    var t := (a - b - u) % 0x1_0000_0000;
    (t % B, t / 0x8000_0000)
  }

  /** Right for digits, and for a cell of B that is borrowed from. */
  lemma SubCellRight(a: int, b: int, u: int)
    requires 0 <= b < B && 0 <= u <= 1 && (0 <= a < B || (a == B && u == 1 && b == 0))
    ensures var r := SubCell(a, b, u); 0 <= r.0 < B && 0 <= r.1 <= 1 && r.0 - r.1 * B == a - b - u
  {
    var d := a - b - u;
    if d < 0 {
      DivModUnique(d, -1, d + 0x1_0000_0000, 0x1_0000_0000);
      DivModUnique(d + 0x1_0000_0000, 15, d + B, B);
    } else {
      ModSmall(d, 0x1_0000_0000);
      ModSmall(d, B);
    }
  }

  /** Cells 0 .. i - 1 subtracted, with a borrow of u. */
  ghost predicate Subtracted(s: seq<int>, x: seq<int>, n: seq<int>, i: nat, u: int)
  {
    i <= |s| == |x| && Val(B, s[..i]) - u * Pow(B, i) == Val(B, x[..i]) - Val(B, n[..Min(i, |n|)])
  }

  lemma SubtractedNext(s: seq<int>, s': seq<int>, x: seq<int>, n: seq<int>, i: nat, u: int, d: int, u': int)
    requires Subtracted(s, x, n, i, u) && i < |x| && s' == s[i := d]
    requires d - u' * B == x[i] - (if i < |n| then n[i] else 0) - u
    ensures Subtracted(s', x, n, i + 1, u')
  {
    hide Val;
    ValAt(B, s', i);
    ValAt(B, x, i);
    assert s'[..i] == s[..i];
    if i < |n| {
      ValAt(B, n, i);
    } else {
      assert n[..Min(i, |n|)] == n[..Min(i + 1, |n|)];
    }
    PowNext(B, i);
    SubAlgebra(Pow(B, i), d, u', x[i], if i < |n| then n[i] else 0, u);
  }

  lemma SubAlgebra(p: int, d: int, u': int, a: int, b: int, u: int)
    requires d - u' * B == a - b - u
    ensures p * d - u' * (B * p) == p * a - p * b - u * p
  {
    assert p * (d - u' * B) == p * (a - b - u);
  }

  /** A borrow is pending exactly when the low cells of x are less than those of n. */
  lemma BorrowPending(s: seq<int>, x: seq<int>, n: seq<int>, m: nat, u: int)
    requires Subtracted(s, x, n, m, u) && |n| == m && IsDigits(B, s[..m]) && 0 <= u <= 1 && Val(B, x[..m]) < Val(B, n)
    ensures u == 1
  {
    hide Val, Pow;
    ValBound(B, s[..m]);
    assert n[..m] == n;
  }

  lemma NoBorrowLeft(s: seq<int>, x: seq<int>, n: seq<int>, used: nat, u: int)
    requires Subtracted(s, x, n, used, u) && |n| <= used && IsDigits(B, s[..used]) && 0 <= u <= 1 && Val(B, n) <= Val(B, x[..used])
    ensures u == 0 && Val(B, s[..used]) == Val(B, x[..used]) - Val(B, n)
  {
    hide Val, Pow;
    ValBound(B, s[..used]);
    assert u == 1 ==> u * Pow(B, used) == Pow(B, used);
    assert n[..|n|] == n;
  }

  /** s_mp_sub into its first argument, whose carry cell may hold B where the subtraction borrows from it. */
  method SubInPlace(x: Int, n: Int)
    requires x != n && CarryCell(x, n.used) && n.Valid() && 0 <= n.Value() <= x.Value() && n.used <= x.used
    requires x.dp[n.used] == B ==> Val(B, x.dp[..n.used]) < n.Value()
    modifies x
    ensures x.Valid() && x.Value() == old(x.Value()) - n.Value()
    ensures x.used <= old(x.used) && |x.dp| == old(|x.dp|)
  {
    hide Val, Pow, Int.Value, Int.Mag, Subtracted, SubCell;
    var min, max := n.used, x.used;
    ghost var y, d := x.dp, n.dp[..n.used];
    ClampedValue(x);
    UsedValue(x);
    UsedValue(n);
    NonnegValue(n);
    var u := 0;
    SubtractedStart(y, d);
    for i := 0 to max
      invariant |x.dp| == |y| && !x.neg && x.used == max && 0 <= u <= 1 && Subtracted(x.dp, y, d, i, u)
      invariant IsDigits(B, x.dp[..i]) && forall j :: i <= j < |y| ==> x.dp[j] == y[j]
    {
      ghost var s := x.dp;
      if y[i] == B {
        BorrowPending(s, y, d, i, u);
      }
      var digit := if i < min then n.dp[i] else 0;
      SubCellRight(x.dp[i], digit, u);
      var r := SubCell(x.dp[i], digit, u);
      SubtractedNext(s, s[i := r.0], y, d, i, u, r.0, r.1);
      x.dp := x.dp[i := r.0];
      u := r.1;
      assert x.dp[..i + 1] == s[..i] + [r.0];
    }
    NoBorrowLeft(x.dp, y, d, max, u);
    UsedValue(x);
    assert forall j :: 0 <= j < max ==> x.dp[j] == x.dp[..max][j];
    x.Clamp();
    ClampedValue(x);
  }

  lemma SubtractedStart(x: seq<int>, n: seq<int>)
    ensures Subtracted(x, x, n, 0, 0)
  {
  }

  lemma UsedValue(x: Int)
    requires x.Padded()
    ensures x.Mag() == Val(B, x.dp[..x.used])
  {
    assert AllZero(x.dp[x.used..]);
    ValTrim(B, x.dp, x.used);
  }

  /** mp_dr_reduce: each pass keeps the residue and, with its subtraction, gets smaller. */
  method DrReduce(x: Int, n: Int, k: int)
    requires x != n && x.Valid() && IsDr(n, k) && 0 <= x.Value() < Pow(B, 2 * n.used) && n.used > 0
    modifies x
    ensures n.Value() > 0 && x.Valid() && x.Value() == Rem(old(x.Value()), n.Value())
  {
    hide Val, Pow, Fold, Folded, Rem, Int.Value, Int.Mag;
    var m := n.used;
    DrModulus(n, k);
    DrInput(x, m);
    x.Grow(2 * m);
    ghost var base := Pow(B, m);
    DivModUnique(base - k, 1, 0, n.Value());
    FoldedIsRem(x.Value(), base, k, n.Value());
    var again := true;
    while again
      invariant x.Valid() && x.Value() >= 0 && x.used <= 2 * m <= |x.dp|
      invariant again ==> Folded(x.Value(), base, k, n.Value()) == Rem(old(x.Value()), n.Value())
      invariant !again ==> x.Value() == Rem(old(x.Value()), n.Value())
      decreases again, x.Value()
    {
      FoldedStep(x.Value(), base, k, n.Value());
      DrFold(x, m, k);
      again := x.Value() >= n.Value();
      LongEnough(x, n);
      if again {
        SubInPlace(x, n);
      }
    }
  }

  /** A number that is not below n has its digits, and a full carry cell alone puts it above. */
  lemma LongEnough(x: Int, n: Int)
    requires n.Valid() && n.Value() > 0 && CarryCell(x, n.used) && (x.dp[n.used] < B ==> x.Valid()) && (x.dp[n.used] == B ==> x.used == n.used + 1)
    ensures x.Value() >= n.Value() ==> n.used <= x.used
    ensures x.dp[n.used] == B ==> x.Value() >= n.Value()
  {
    hide Val, Pow;
    MagBounds(n);
    ClampedValue(x);
    if x.dp[n.used] < B {
      MagBounds(x);
      if x.used < n.used { PowMonotone(B, x.used, n.used - 1); }
    } else {
      var m := n.used;
      UsedValue(x);
      ValAt(B, x.dp, m);
      ValBound(B, x.dp[..m]);
      MulLe(Pow(B, m), 1, B);
    }
  }
}
