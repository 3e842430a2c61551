/**
 Barrett reduction with the truncated high product, Algorithm 14.42 of the
 Handbook of Applied Cryptography.
 */
module Barrett {
  import opened Arith
  import opened Digits
  import opened Mp
  import opened Columns
  import opened Product
  import opened Multiply
  import opened Division

  // ----- the columns that are dropped -----

  /** A column of n digits holds at most n products. */
  lemma {:induction false} ColBound(a: seq<int>, b: seq<int>, i: int)
    requires IsDigits(B, a) && IsDigits(B, b) && i >= -1
    ensures 0 <= Col(a, b, i) <= (i + 1) * ((B - 1) * (B - 1))
    decreases |a|
  {
    if |a| == 0 || i < 0 {
      if i < 0 { ColNegative(a, b, i); }
    } else {
      ColBound(a[1..], b, i - 1);
      ProductBound(a[0], At(b, i));
    }
  }

  /** The n lowest columns stay below n * B^(n + 1). */
  lemma {:induction false} ColsBound(a: seq<int>, b: seq<int>, n: nat)
    requires IsDigits(B, a) && IsDigits(B, b)
    ensures 0 <= Cols(a, b, n) <= n * (B * Pow(B, n))
  {
    if n > 0 {
      ColsBound(a, b, n - 1);
      ColBound(a, b, n - 1);
      PowPositive(B, n - 1);
      ColsBoundAlgebra(Cols(a, b, n - 1), Col(a, b, n - 1), Pow(B, n - 1), n);
    }
  }

  lemma ColsBoundAlgebra(c: int, col: int, p: int, n: int)
    requires n > 0 && p > 0 && 0 <= c <= (n - 1) * (B * p) && 0 <= col <= n * ((B - 1) * (B - 1))
    ensures 0 <= c + col * p <= n * (B * (B * p))
  {
    MulLe(p, 0, col);
    MulLe(p, col, n * ((B - 1) * (B - 1)));
    MulLe(n * p, (B - 1) * (B - 1), B * B - B);
    assert (n * ((B - 1) * (B - 1))) * p == (n * p) * ((B - 1) * (B - 1));
    assert (n - 1) * (B * p) <= (n * p) * B by { assert (n - 1) * (B * p) == (n * p) * B - B * p; }
    assert (n * p) * (B * B - B) + (n * p) * B == n * (B * (B * p));
  }

  // ----- the estimate -----

  /** mu is the quotient of B^(2k) by m. */
  ghost predicate IsMu(mu: int, m: int, k: nat)
  {
    m > 0 && mu * m <= Pow(B, 2 * k) < (mu + 1) * m
  }

  lemma CancelLe(k: int, a: int, b: int)
    requires k > 0 && a * k <= b * k
    ensures a <= b
  {
    if a > b { MulLe(k, b + 1, a); }
  }

  /** The estimate never exceeds the true quotient. */
  lemma NotTooHigh(x: int, q1: int, mu: int, m: int, h: int, q3: int, a: int, b: int)
    requires a > 0 && b > 0 && m > 0 && q1 >= 0 && mu >= 0
    requires q1 * a <= x && mu * m <= a * b && h <= q1 * mu && q3 * b <= h
    ensures q3 * m <= x
  {
    MulLe(m, q3 * b, q1 * mu);
    ScaledLe(q1, mu, m, a * b);
    MulAssoc(q1, a, b);
    MulLe(b, q1 * a, x);
    SwapFactors(q3, b, m);
    CancelLe(b, q3 * m, x);
  }

  lemma SwapFactors(a: int, b: int, c: int)
    ensures (a * b) * c == (a * c) * b
  {
  }

  /** The dropped columns and the roundings lose less than k + 3 multiples of m. */
  lemma NotTooLow(x: int, q1: int, mu: int, m: int, low: int, q3: int, a: int, b: int, k: int)
    requires a > 0 && b > 0 && m > 0 && k >= 0 && 0 <= q1 < b && a <= m
    requires x < (q1 + 1) * a && a * b < (mu + 1) * m && 0 <= low <= k * b
    requires q1 * mu - low < (q3 + 1) * b
    ensures x < (q3 + (k + 3)) * m
  {
    LowerChain(x, q1, mu, m, a, b);
    var t := q3 + 1 + k;
    BelowMultiple(q1 * mu, low, q3, k, b);
    MulLe(m, q1 * mu + 1, t * b);
    SwapFactors(t, b, m);
    MulLe(m, q1 + 1, b);
    MulLe(b, a, m);
    LowEnd(x, b, m, t, (q1 * mu) * m, q1 * m, a * b);
  }

  lemma BelowMultiple(s: int, low: int, q3: int, k: int, b: int)
    requires low <= k * b && s - low < (q3 + 1) * b
    ensures s + 1 <= (q3 + 1 + k) * b
  {
  }

  lemma LowEnd(x: int, b: int, m: int, t: int, s: int, u: int, w: int)
    requires b > 0 && m > 0 && x * b <= s + u + w && s + m <= (t * m) * b && u + m <= b * m && w <= b * m
    ensures x < (t + 2) * m
  {
    assert ((t + 2) * m) * b == (t * m) * b + 2 * (b * m);
    if x >= (t + 2) * m { MulLe(b, (t + 2) * m, x); }
  }

  lemma LowerChain(x: int, q1: int, mu: int, m: int, a: int, b: int)
    requires a > 0 && b > 0 && q1 >= 0 && x < (q1 + 1) * a && a * b < (mu + 1) * m
    ensures x * b <= (q1 * mu) * m + q1 * m + a * b
  {
    MulLe(b, x, (q1 + 1) * a);
    MulLe(q1, a * b, (mu + 1) * m);
    LowerAlgebra(q1, mu, m, a, b);
  }

  lemma LowerAlgebra(q1: int, mu: int, m: int, a: int, b: int)
    ensures ((q1 + 1) * a) * b == q1 * (a * b) + a * b
    ensures q1 * ((mu + 1) * m) == (q1 * mu) * m + q1 * m
  {
  }

  /** How many multiples of B^(k + 1) the dropped columns may reach: none in a full product. */
  ghost function Slack(k: nat): nat
  {
    if k > 0x800_0000 then 0 else k
  }

  /** What the estimate q3 guarantees for x: the residue is within j + 3 multiples of m. */
  ghost predicate Estimate(q3: int, x: int, m: int, j: int)
  {
    q3 >= 0 && 0 <= x - q3 * m < (j + 3) * m
  }

  lemma EstimateOk(x: int, q1: int, mu: int, m: int, h: int, low: int, q3: int, k: nat, j: nat)
    requires 0 < k && IsMu(mu, m, k) && Pow(B, k - 1) <= m < Pow(B, k) && 0 <= x < Pow(B, 2 * k)
    requires Pow(B, k - 1) > 0 && Pow(B, k + 1) > 0
    requires q1 == Quot(x, Pow(B, k - 1)) && h == q1 * mu - low && h >= 0 && q3 == Quot(h, Pow(B, k + 1))
    requires 0 <= low <= j * Pow(B, k + 1)
    ensures 0 <= q1 < Pow(B, k + 1) && Estimate(q3, x, m, j)
  {
    hide Pow, Quot;
    var a, b := Pow(B, k - 1), Pow(B, k + 1);
    PowAdd(B, k - 1, k + 1);
    FirstQuotient(x, q1, k);
    MuNonneg(mu, m, Pow(B, 2 * k));
    QuotBounds(x, a);
    QuotBounds(h, b);
    NotTooHigh(x, q1, mu, m, h, q3, a, b);
    NotTooLow(x, q1, mu, m, low, q3, a, b, j);
    SplitMultiple(q3, j + 3, m);
  }

  lemma SplitMultiple(q: int, c: int, m: int)
    ensures (q + c) * m == q * m + c * m
  {
  }

  lemma QuotBounds(v: int, p: int)
    requires p > 0 && v >= 0
    ensures Quot(v, p) >= 0 && Quot(v, p) * p <= v < (Quot(v, p) + 1) * p
  {
    DivModDef(v, p);
    DivMonotone(0, v, p);
  }

  lemma MuNonneg(mu: int, m: int, p: int)
    requires m > 0 && mu * m <= p < (mu + 1) * m && p > 0
    ensures mu >= 0
  {
    if mu < 0 { MulLe(m, mu + 1, 0); }
  }

  lemma FirstQuotient(x: int, q1: int, k: nat)
    requires 0 < k && 0 <= x < Pow(B, 2 * k) && Pow(B, k - 1) > 0 && q1 == Quot(x, Pow(B, k - 1))
    ensures 0 <= q1 < Pow(B, k + 1) && Pow(B, 2 * k) > 0
  {
    hide Pow;
    PowAdd(B, k - 1, k + 1);
    var a, b := Pow(B, k - 1), Pow(B, k + 1);
    DivModDef(x, a);
    DivMonotone(0, x, a);
    if q1 >= b { MulLe(a, b, q1); }
  }

  /** mp_reduce_setup. */
  method Setup(a: Int, b: Int) returns (err: Err)
    requires a != b && a.Valid() && b.Valid() && b.Value() >= 0
    modifies a
    ensures err == OKAY <==> b.Value() > 0
    ensures err != OKAY ==> err == VAL
    ensures err == OKAY ==> a.Valid() && IsMu(a.Value(), b.Value(), b.used)
  {
    hide *;
    BaseIsPowTwo(2 * b.used);
    TwoExpt(a, 28 * (2 * b.used));
    var r := new Int();
    PowPositive(2, 28 * (2 * b.used));
    ghost var p := a.Value();
    ghost var c, d;
    err, c, d := Div(a, b, a, r);
    if err == OKAY {
      MuFromDivision(p, b.Value(), c, d, b.used);
    }
  }

  lemma MuFromDivision(p: int, b: int, c: int, d: int, k: nat)
    requires b > 0 && p == Pow(B, 2 * k) && p > 0 && IsDivision(p, b, c, d)
    ensures IsMu(c, b, k)
  {
    assert (c + 1) * b == c * b + b;
  }

  /** The product of q1 and mu: in full for huge moduli, else without its low columns. */
  method HighPart(q: Int, m: Int, mu: Int, ghost x: int)
    requires q != m && q != mu && q.Valid() && m.Valid() && mu.Valid()
    requires 0 < m.used && Pow(B, m.used - 1) <= m.Value() < Pow(B, m.used) && 0 <= x < Pow(B, 2 * m.used)
    requires IsMu(mu.Value(), m.Value(), m.used)
    requires Pow(B, m.used - 1) > 0 && Pow(B, m.used + 1) > 0 && q.Value() == Quot(x, Pow(B, m.used - 1))
    modifies q
    ensures q.Valid() && Estimate(Shifted(q.Value(), Pow(B, m.used + 1)), x, m.Value(), Slack(m.used))
  {
    hide Val, Pow, Cols, High, Quot, Shifted, Int.Value, Int.Mag, IsMu, Estimate;
    var um := m.used;
    MuDigits(mu, m);
    if um > 0x800_0000 {
      FullProduct(x, mu.Value(), m.Value(), um);
      Mul(q, mu, q);
    } else {
      FirstQuotient(x, q.Value(), um);
      HighInputs(q, um + 1);
      ghost var low := LowColumns(q, mu, um);
      MulHighDigs(q, mu, q, um);
      NonnegValue(q);
      HighEstimate(x, mu.Value(), m.Value(), q.Value(), low, um);
    }
  }

  lemma LowColumns(q: Int, mu: Int, k: nat) returns (low: int)
    requires q.Valid() && mu.Valid() && q.Value() >= 0 && mu.Value() >= 0
    ensures 0 <= low <= k * Pow(B, k + 1) && High(Dig(q), Dig(mu), k) == q.Value() * mu.Value() - low
  {
    hide Val, Pow, Cols;
    NonnegValue(q);
    NonnegValue(mu);
    DigVal(q);
    DigVal(mu);
    low := Cols(Dig(q), Dig(mu), k);
    ColsBound(Dig(q), Dig(mu), k);
    PowNext(B, k);
  }

  /** The estimate of the quotient: two digit shifts around the high product. */
  method EstimateQuotient(x: Int, m: Int, mu: Int) returns (q: Int)
    requires x.Valid() && m.Valid() && mu.Valid() && m.Value() > 0 && 0 <= x.Value() < Pow(B, 2 * m.used)
    requires IsMu(mu.Value(), m.Value(), m.used)
    ensures fresh(q) && q.Valid() && Estimate(q.Value(), x.Value(), m.Value(), Slack(m.used))
  {
    hide *;
    var um := m.used;
    ModulusBounds(m);
    BasePositive(um - 1);
    BasePositive(um + 1);
    ShiftNonneg(x.Value(), Pow(B, um - 1));
    q := new Int();
    Copy(x, q);
    Rshd(q, um - 1);
    HighPart(q, m, mu, x.Value());
    Rshd(q, um + 1);
  }

  lemma BasePositive(k: nat)
    ensures Pow(B, k) > 0
  {
    PowPositive(B, k);
  }

  lemma ModulusBounds(m: Int)
    requires m.Valid() && m.Value() > 0
    ensures m.used > 0 && Pow(B, m.used - 1) <= m.Value() < Pow(B, m.used)
  {
    MagBounds(m);
  }

  lemma ShiftNonneg(v: int, p: int)
    requires v >= 0 && p > 0
    ensures Shifted(v, p) == Quot(v, p)
  {
  }

  /** mu has more digits than m. */
  lemma MuDigits(mu: Int, m: Int)
    requires mu.Valid() && m.Valid() && m.Value() > 0 && IsMu(mu.Value(), m.Value(), m.used)
    ensures mu.Value() >= 0 && mu.used > m.used
  {
    hide Val, Pow;
    var k, p := m.used, Pow(B, m.used);
    ModulusBounds(m);
    PowAdd(B, k, k);
    PowPositive(B, k);
    MuLarge(mu.Value(), m.Value(), p);
    MagBounds(mu);
    if mu.used <= k { PowMonotone(B, mu.used, k); }
  }

  lemma MuLarge(mu: int, m: int, p: int)
    requires 0 < m < p && p * p < (mu + 1) * m
    ensures mu >= p
  {
    if mu < p {
      MulLe(m, mu + 1, p);
      MulLe(p, m, p);
    }
  }

  lemma HighInputs(q: Int, k: nat)
    requires q.Valid() && 0 <= q.Value() < Pow(B, k)
    ensures q.used <= k && !q.neg
  {
    MagBounds(q);
    if q.used > k { PowMonotone(B, k, q.used - 1); }
  }

  lemma FullProduct(x: int, mu: int, m: int, k: nat)
    requires 0 < k && IsMu(mu, m, k) && Pow(B, k - 1) <= m < Pow(B, k) && 0 <= x < Pow(B, 2 * k)
    requires Pow(B, k - 1) > 0 && Pow(B, k + 1) > 0
    ensures Estimate(Shifted(Quot(x, Pow(B, k - 1)) * mu, Pow(B, k + 1)), x, m, 0)
  {
    hide Pow;
    var q1 := Quot(x, Pow(B, k - 1));
    FirstQuotient(x, q1, k);
    MuNonneg(mu, m, Pow(B, 2 * k));
    MulLe(q1, 0, mu);
    EstimateOk(x, q1, mu, m, q1 * mu, 0, Quot(q1 * mu, Pow(B, k + 1)), k, 0);
  }

  /** The digits of c from k up are those of the truncated product, so the shift agrees. */
  lemma HighEstimate(x: int, mu: int, m: int, c: int, low: int, k: nat)
    requires 0 < k && IsMu(mu, m, k) && Pow(B, k - 1) <= m < Pow(B, k) && 0 <= x < Pow(B, 2 * k)
    requires Pow(B, k - 1) > 0 && Pow(B, k) > 0 && Pow(B, k + 1) > 0 && c >= 0
    requires Pow(B, k) * (c / Pow(B, k)) == Quot(x, Pow(B, k - 1)) * mu - low
    requires 0 <= low <= k * Pow(B, k + 1)
    ensures Estimate(Shifted(c, Pow(B, k + 1)), x, m, k)
  {
    hide Pow, Estimate, IsMu;
    var p, q1 := Pow(B, k), Quot(x, Pow(B, k - 1));
    var h := q1 * mu - low;
    PowNext(B, k);
    DivMonotone(0, c, p);
    MulLe(p, 0, c / p);
    SameHighDigits(c, h, p);
    EstimateOk(x, q1, mu, m, h, low, Quot(h, Pow(B, k + 1)), k, k);
  }

  lemma SameHighDigits(c: int, h: int, p: int)
    requires p > 0 && c >= 0 && h == p * (c / p)
    ensures h >= 0 && c / (B * p) == h / (B * p)
  {
    DivMonotone(0, c, p);
    MulLe(p, 0, c / p);
    DivModUnique(h, c / p, 0, p);
    DivDiv(c, p, B);
    DivDiv(h, p, B);
  }

  /** Subtraction modulo B^(k + 1) recovers the residue the estimate leaves. */
  lemma WrappedResidue(x: int, q: int, m: int, k: nat)
    requires 0 < m < Pow(B, k) && Estimate(q, x, m, Slack(k))
    ensures Pow(B, k + 1) > 0
    ensures var d := Rem(x, Pow(B, k + 1)) - Rem(q * m, Pow(B, k + 1));
      (if d < 0 then d + Pow(B, k + 1) else d) == x - q * m
  {
    hide Pow;
    var b := Pow(B, k + 1);
    PowPositive(B, k + 1);
    PowNext(B, k);
    MulLe(m, Slack(k) + 3, B);
    MulLe(B, m, Pow(B, k));
    RemIsCong(x, b);
    RemIsCong(q * m, b);
    var r, s := Rem(x, b), Rem(q * m, b);
    CongAdd(r, x, s, q * m, b);
    var d := if r - s < 0 then r - s + b else r - s;
    CongIntro(d, r - s, if r - s < 0 then 1 else 0, b);
    CongUnique(d, x - q * m, b);
  }

  /**
   mp_reduce, for every x of at most twice the digits of m.  The back-off loop
   runs at most m.used + 2 times, however many columns the high product drops.
   */
  method Reduce(x: Int, m: Int, mu: Int) returns (ghost backoffs: nat)
    requires x != m && x != mu && x.Valid() && m.Valid() && mu.Valid()
    requires m.Value() > 0 && 0 <= x.Value() < Pow(B, 2 * m.used)
    requires IsMu(mu.Value(), m.Value(), m.used)
    modifies x
    ensures x.Valid() && x.Value() == Rem(old(x.Value()), m.Value())
    ensures backoffs <= m.used + 2
  {
    hide *;
    var um := m.used;
    ghost var x0, m0 := x.Value(), m.Value();
    ModulusBounds(m);
    var q := EstimateQuotient(x, m, mu);
    ghost var q3 := q.Value();
    BasePositive(um + 1);
    WrappedResidue(x0, q3, m0, um);
    ModPower(x, um + 1);
    EstimateNonneg(q3, x0, m0, Slack(um));
    NonnegValue(q);
    NonnegValue(m);
    MulDigs(q, m, q, um + 1);
    NonnegValue(q);
    Sub(x, q, x);
    if x.Value() < 0 {
      Set(q, 1);
      Lshd(q, um + 1);
      Add(x, q, x);
    }
    BackoffStart(q3, x0, m0, um);
    backoffs := 0;
    while x.Value() >= m.Value()
      invariant x.Valid() && x.Value() >= 0 && Backed(x.Value(), x0, m0, q3 + backoffs, um + 3 - backoffs)
      decreases x.Value()
    {
      BackoffStep(x.Value(), x0, m0, q3 + backoffs, um + 3 - backoffs);
      backoffs := backoffs + 1;
      Sub(x, m, x);
    }
    BackoffEnd(x.Value(), x0, m0, q3 + backoffs, um + 3 - backoffs);
  }

  /** x - c * m, with fewer than `left` multiples of m in it. */
  ghost predicate Backed(r: int, x: int, m: int, c: int, left: int)
  {
    r == x - c * m && 0 <= r < left * m
  }

  lemma EstimateNonneg(q: int, x: int, m: int, j: int)
    requires Estimate(q, x, m, j)
    ensures q >= 0
  {
  }

  lemma BackoffStart(q: int, x: int, m: int, k: nat)
    requires m > 0 && Estimate(q, x, m, Slack(k))
    ensures Backed(x - q * m, x, m, q, k + 3)
  {
    MulLe(m, Slack(k) + 3, k + 3);
  }

  lemma BackoffStep(r: int, x: int, m: int, c: int, left: int)
    requires m > 0 && r >= m && Backed(r, x, m, c, left)
    ensures Backed(r - m, x, m, c + 1, left - 1)
  {
    assert (c + 1) * m == c * m + m && (left - 1) * m == left * m - m;
  }

  lemma BackoffEnd(r: int, x: int, m: int, c: int, left: int)
    requires 0 < m && r < m && Backed(r, x, m, c, left)
    ensures left > 0 && r == Rem(x, m)
  {
    if left <= 0 { MulLe(m, left, 0); }
    RemUnique(x, c, r, m);
  }
}
