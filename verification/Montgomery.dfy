/**
 Montgomery reduction: the comba form with delayed carries, the digit-by-digit
 form, the Newton inversion that supplies rho and the doubling that supplies R mod n.
 */
module Montgomery {
  import opened Arith
  import opened Digits
  import opened Mp
  import opened Columns

  /** What a reduction with k digits owes: r in [0, n) with r * B^k = x modulo n. */
  ghost predicate IsReduced(r: int, x: int, n: int, k: nat)
  {
    0 <= r < n && Cong(r * Pow(B, k), x, n)
  }

  /** rho times the low digit of the modulus is -1 modulo the base. */
  ghost predicate IsRho(rho: int, n0: int)
  {
    0 <= rho < B && Cong(rho * n0, -1, B)
  }

  // ----- arithmetic of one round -----

  /** The chosen multiple of the modulus clears the current column. */
  lemma ColumnCleared(w: int, rho: int, n0: int, mu: int)
    requires IsRho(rho, n0) && mu == ((w % B) * rho) % B
    ensures Cong(w + mu * n0, 0, B)
  {
    CongMod(w, B);
    CongScale(w % B, w, rho, B);
    CongMod((w % B) * rho, B);
    CongScale(mu, w * rho, n0, B);
    MulAssoc(w, rho, n0);
    CongScale(rho * n0, -1, w, B);
    assert Cong(mu * n0, w * -1, B);
    CongAdd(w, w, mu * n0, w * -1, B);
  }

  /** One round: the tail value absorbs mu * n and drops the cleared column. */
  lemma Round(t: int, t': int, x: int, m: int, n: int, mu: int, p: int)
    requires t * p == x + m * n && t' * B == t + mu * n
    ensures t' * (B * p) == x + (m + mu * p) * n
  {
    assert t' * (B * p) == (t' * B) * p;
    assert (t + mu * n) * p == t * p + (mu * p) * n;
  }

  lemma RoundBound(m: int, mu: int, p: int)
    requires 0 <= m < p && 0 <= mu < B
    ensures 0 <= m + mu * p < B * p
  {
    MulLe(p, mu, B - 1);
    MulLe(p, 0, mu);
  }

  /** After k rounds the tail is below 2n, so one subtraction is enough. */
  lemma OneSubtraction(t: int, x: int, m: int, n: int, p: int)
    requires n > 0 && 0 <= m < p && 0 <= x < n * p && t * p == x + m * n
    ensures 0 <= t < 2 * n
  {
    MulLe(n, m, p - 1);
    MulLe(n, 0, m);
    assert t * p < 2 * n * p;
    if t < 0 { MulLe(p, t, -1); }
    if t >= 2 * n { MulLe(p, 2 * n, t); }
  }

  lemma TailIsReduced(t: int, x: int, m: int, n: int, k: nat)
    requires n > 0 && 0 <= t < 2 * n && t * Pow(B, k) == x + m * n
    ensures t < n ==> IsReduced(t, x, n, k)
    ensures t >= n ==> IsReduced(t - n, x, n, k)
  {
    var p := Pow(B, k);
    CongIntro(t * p, x, m, n);
    assert (t - n) * p == x + (m - p) * n;
    CongIntro((t - n) * p, x, m - p, n);
  }

  // ----- the comba form -----

  /** The inner loop: column ix + iy gains mu * n[iy]. */
  method AddMultiple(W: array<Word>, n: Int, mu: int, ix: nat, N: nat)
    requires n.Valid() && 0 <= mu < B && ix + n.used <= N <= W.Length
    requires forall j :: ix <= j < N ==> W[j] < WORD - (B - 1) * (B - 1)
    modifies W
    ensures Val(B, W[ix..N]) == old(Val(B, W[ix..N])) + mu * n.Mag()
    ensures forall j :: 0 <= j < W.Length && (j < ix || j >= ix + n.used) ==> W[j] == old(W[j])
    ensures forall j :: ix <= j < ix + n.used ==> W[j] == old(W[j]) + mu * n.dp[j - ix]
    ensures forall j :: ix <= j < N ==> old(W[j]) <= W[j] <= old(W[j]) + (B - 1) * (B - 1)
  {
    hide Val, Pow;
    EmptyRow(mu, n.dp);
    for iy := 0 to n.used
      invariant Val(B, W[ix..N]) == old(Val(B, W[ix..N])) + mu * Val(B, n.dp[..iy])
      invariant forall j :: 0 <= j < W.Length && (j < ix || j >= ix + iy) ==> W[j] == old(W[j])
      invariant forall j :: ix <= j < ix + iy ==> W[j] == old(W[j]) + mu * n.dp[j - ix]
      invariant forall j :: ix <= j < N ==> old(W[j]) <= W[j] <= old(W[j]) + (B - 1) * (B - 1)
    {
      var s, d := W[ix..N], n.dp[iy];
      ProductBound(mu, d);
      ValUpdate(B, s, iy, s[iy] + mu * d);
      ValAt(B, n.dp, iy);
      RowStep(mu, Val(B, n.dp[..iy]), Pow(B, iy), d);
      W[ix + iy] := W[ix + iy] + mu * d;
      assert W[ix..N] == s[iy := s[iy] + mu * d];
    }
    ValTrim(B, n.dp, n.used);
  }

  lemma EmptyRow(mu: int, s: seq<int>)
    ensures mu * Val(B, s[..0]) == 0
  {
  }

  /** Copies the digits of x into the columns and zeroes those up to N. */
  method LoadColumns(x: Int, N: nat) returns (W: array<Word>)
    requires x.Valid() && x.used <= N <= WARRAY
    ensures fresh(W) && W.Length == WARRAY
    ensures Val(B, W[..N]) == x.Mag()
    ensures forall j :: 0 <= j < N ==> W[j] < B
  {
    hide Val;
    W := new Word[WARRAY];
    for ix := 0 to x.used
      invariant forall j :: 0 <= j < ix ==> W[j] == x.dp[j]
    {
      W[ix] := x.dp[ix];
    }
    for ix := x.used to N
      invariant forall j :: 0 <= j < x.used ==> W[j] == x.dp[j]
      invariant forall j :: x.used <= j < ix ==> W[j] == 0
    {
      W[ix] := 0;
    }
    ValSameDigits(B, W[..N], x.dp, x.used);
  }

  /** The largest column after `rounds` rounds, without and with its one carry. */
  function ColumnCap(rounds: nat): int
  {
    B - 1 + rounds * ((B - 1) * (B - 1))
  }

  /** One round on column ix: clear it and pass its carry to the next column. */
  method ClearColumn(W: array<Word>, n: Int, rho: int, ix: nat, N: nat) returns (ghost mu: int)
    requires n.Valid() && 0 < n.used < MAXFAST && IsRho(rho, n.dp[0])
    requires ix < n.used && N == 2 * n.used + 1 <= W.Length
    requires forall j :: ix < j < N ==> W[j] <= ColumnCap(ix)
    requires W[ix] <= ColumnCap(ix) + 0x10_0000_0000
    modifies W
    ensures 0 <= mu < B
    ensures Val(B, W[ix + 1..N]) * B == old(Val(B, W[ix..N])) + mu * n.Mag()
    ensures forall j :: ix + 1 < j < N ==> W[j] <= ColumnCap(ix + 1)
    ensures W[ix + 1] <= ColumnCap(ix + 1) + 0x10_0000_0000
  {
    var mu' := ((W[ix] % B) * rho) % B;
    mu := mu';
    ColumnCleared(W[ix], rho, n.dp[0], mu');
    AddMultiple(W, n, mu', ix, N);
    ghost var s := W[ix..N];
    ValAt(B, s, 0);
    ghost var q := W[ix] / B;
    assert W[ix] == q * B;
    W[ix + 1] := W[ix + 1] + W[ix] / B;
    ghost var s' := s[1..][0 := s[1] + q];
    assert W[ix + 1..N] == s';
    ValUpdate(B, s[1..], 0, s[1] + q);
  }

  /** After `ix` rounds the remaining columns hold (x + m * n) / B^ix for an m below B^ix. */
  ghost predicate Cleared(t: int, x: int, m: int, n: int, ix: nat)
  {
    0 <= m < Pow(B, ix) && t * Pow(B, ix) == x + m * n
  }

  lemma ClearedStep(t: int, t': int, x: int, m: int, n: int, mu: int, ix: nat)
    requires Cleared(t, x, m, n, ix) && 0 <= mu < B && t' * B == t + mu * n
    ensures Cleared(t', x, m + mu * Pow(B, ix), n, ix + 1)
  {
    var p := Pow(B, ix);
    assert Pow(B, ix + 1) == B * p;
    Round(t, t', x, m, n, mu, p);
    RoundBound(m, mu, p);
  }

  lemma ClearedStart(x: int, n: int)
    ensures Cleared(x, x, 0, n, 0)
    ensures ColumnCap(0) == B - 1
  {
  }

  /** The k rounds: the columns from k up hold (x + m * n) / B^k. */
  method ClearColumns(W: array<Word>, n: Int, rho: int, N: nat, ghost x: int) returns (ghost m: int)
    requires n.Valid() && 0 < n.used < MAXFAST && IsRho(rho, n.dp[0])
    requires N == 2 * n.used + 1 <= W.Length
    requires forall j :: 0 <= j < N ==> W[j] < B
    requires Val(B, W[..N]) == x
    modifies W
    ensures Cleared(Val(B, W[n.used..N]), x, m, n.Mag(), n.used)
    ensures forall j :: n.used <= j < N ==> W[j] <= ColumnCap(n.used) + 0x10_0000_0000
  {
    hide Val, Cleared, ColumnCap, Int.Mag, IsRho;
    m := 0;
    assert W[0..N] == W[..N];
    ClearedStart(x, n.Mag());
    for ix := 0 to n.used
      invariant forall j :: ix < j < N ==> W[j] <= ColumnCap(ix)
      invariant W[ix] <= ColumnCap(ix) + 0x10_0000_0000
      invariant Cleared(Val(B, W[ix..N]), x, m, n.Mag(), ix)
    {
      ghost var t := Val(B, W[ix..N]);
      ghost var mu := ClearColumn(W, n, rho, ix, N);
      ClearedStep(t, Val(B, W[ix + 1..N]), x, m, n.Mag(), mu, ix);
      m := m + mu * Pow(B, ix);
    }
  }

  /** The remaining carries, column by column. */
  method CarryColumns(W: array<Word>, k: nat, N: nat)
    requires N == 2 * k + 1 <= W.Length
    requires forall j :: k <= j < N ==> W[j] <= ColumnCap(255) + 0x10_0000_0000
    modifies W
    ensures Val(B, Masked(W[k..2 * k])) + Pow(B, k) * W[2 * k] == old(Val(B, W[k..N]))
  {
    hide Val, Pow;
    assert Masked(W[k..k]) == [];
    FirstCarry(W[k..N]);
    for ix := k to 2 * k
      invariant forall j :: ix < j < N ==> W[j] == old(W[j])
      invariant W[ix] <= ColumnCap(255) + 0x20_0000_0000
      invariant Val(B, Masked(W[k..ix])) + Pow(B, ix - k) * Val(B, W[ix..N]) == old(Val(B, W[k..N]))
    {
      ghost var done, tail := Masked(W[k..ix]), W[ix..N];
      ghost var w := W[ix];
      W[ix + 1] := W[ix + 1] + W[ix] / B;
      assert Masked(W[k..ix + 1]) == done + [w % B];
      assert W[ix + 1..N] == tail[1..][0 := tail[1] + w / B];
      CarryStep(done, tail, W[ix + 1..N]);
    }
    assert W[2 * k..N] == [W[2 * k]];
    ValSingle(B, W[2 * k]);
  }

  lemma FirstCarry(s: seq<int>)
    ensures Val(B, []) + Pow(B, 0) * Val(B, s) == Val(B, s)
  {
  }

  /** Copies columns k .. 2k back into the cells of x, masked, and zeroes the rest. */
  method StoreColumns(x: Int, W: array<Word>, k: nat)
    requires x.Valid() && !x.neg && 2 * k < W.Length && |x.dp| > k && W[2 * k] < B
    modifies x
    ensures x.Valid() && x.Value() == Val(B, Masked(W[k..2 * k])) + Pow(B, k) * W[2 * k]
  {
    hide Val, Pow;
    var olduse := x.used;
    for ix := 0 to k + 1
      invariant |x.dp| == old(|x.dp|) && !x.neg && x.used == olduse
      invariant forall i :: 0 <= i < ix ==> x.dp[i] == W[k + i] % B
      invariant forall i :: ix <= i < |x.dp| ==> x.dp[i] == old(x.dp[i])
    {
      x.dp := x.dp[ix := W[k + ix] % B];
    }
    for ix := k + 1 to Max(k + 1, olduse)
      invariant |x.dp| == old(|x.dp|) && !x.neg && x.used == olduse
      invariant forall i :: 0 <= i <= k ==> x.dp[i] == W[k + i] % B
      invariant forall i :: k < i < ix ==> x.dp[i] == 0
      invariant forall i :: ix <= i < |x.dp| ==> x.dp[i] == old(x.dp[i])
    {
      x.dp := x.dp[ix := 0];
    }
    x.used := k + 1;
    CopiedColumns(x.dp[..k + 1], W[k..2 * k], W[2 * k]);
    assert AllZero(x.dp[k + 1..]);
    ValAppend(B, Masked(W[k..2 * k]), [W[2 * k]]);
    ValSingle(B, W[2 * k]);
    ValTrim(B, x.dp, k + 1);
    x.Clamp();
  }

  /** An input below n * B^k fits in 2k digits. */
  lemma InputDigits(x: Int, n: Int)
    requires x.Valid() && n.Valid() && 0 <= x.Value() < n.Value() * Pow(B, n.used)
    ensures 0 < n.used && !n.neg && !x.neg && x.used <= 2 * n.used && n.Value() == n.Mag() && x.Value() == x.Mag()
    ensures 0 < n.Value() < Pow(B, n.used)
  {
    MagBounds(x);
    MagBounds(n);
    var k, p := n.used, Pow(B, n.used);
    PowPositive(B, k);
    if n.Value() <= 0 { MulLe(p, n.Value(), 0); }
    if x.used > 2 * k {
      PowMonotone(B, 2 * k, x.used - 1);
      PowAdd(B, k, k);
      MulLe(p, n.Value(), p);
    }
  }

  /** The top column is at most 1, so the k + 1 masked columns hold the tail exactly. */
  lemma TopColumn(lo: int, top: int, n: int, k: nat)
    requires 0 <= lo && 0 < n < Pow(B, k) && lo + Pow(B, k) * top < 2 * n
    ensures top < B
  {
    if top >= 2 { MulLe(Pow(B, k), 2, top); }
  }

  /** s_mp_montgomery_reduce_fast.  The size test on x cannot fail on its domain. */
  method ReduceFast(x: Int, n: Int, rho: int) returns (err: Err)
    requires x != n && x.Valid() && n.Valid()
    requires 2 * n.used + 1 < WARRAY && n.used < MAXFAST
    requires 0 <= x.Value() < n.Value() * Pow(B, n.used)
    requires n.used > 0 ==> IsRho(rho, n.dp[0])
    modifies x
    ensures err == OKAY && x.Valid()
    ensures IsReduced(x.Value(), old(x.Value()), n.Value(), n.used)
  {
    hide Val, Pow, Cleared, Int.Mag, IsRho, IsReduced;
    var k := n.used;
    InputDigits(x, n);
    if x.used > WARRAY {
      return VAL;
    }
    ghost var x0 := x.Value();
    x.Grow(k + 1);
    var N := 2 * k + 1;
    var W := LoadColumns(x, N);
    ghost var m := ClearColumns(W, n, rho, N, x0);
    ghost var t := Val(B, W[k..N]);
    CarryColumns(W, k, N);
    FinishTail(t, x0, m, n.Value(), k);
    ghost var lo := Val(B, Masked(W[k..2 * k]));
    ValBound(B, Masked(W[k..2 * k]));
    TopColumn(lo, W[2 * k], n.Value(), k);
    StoreColumns(x, W, k);
    if x.Value() >= n.Value() {
      Sub(x, n, x);
    }
    return OKAY;
  }

  lemma FinishTail(t: int, x: int, m: int, n: int, k: nat)
    requires n > 0 && 0 <= x < n * Pow(B, k) && Cleared(t, x, m, n, k)
    ensures 0 <= t < 2 * n
    ensures t < n ==> IsReduced(t, x, n, k)
    ensures t >= n ==> IsReduced(t - n, x, n, k)
  {
    OneSubtraction(t, x, m, n, Pow(B, k));
    TailIsReduced(t, x, m, n, k);
  }

  // ----- the digit-by-digit form -----

  /** The state of the digit-by-digit form: x + m * n with its ix low digits cleared. */
  ghost predicate Accumulated(s: seq<int>, x: int, m: int, n: int, ix: nat)
  {
    && ix <= |s|
    && IsDigits(B, s) && AllZero(s[..ix])
    && 0 <= m < Pow(B, ix) && Val(B, s) == x + m * n
  }

  lemma AccumulatedStart(s: seq<int>, x: int, n: int)
    requires IsDigits(B, s) && Val(B, s) == x
    ensures Accumulated(s, x, 0, n, 0)
  {
  }

  /** The sum stays below B^(2k + 1). */
  lemma SumFits(x: int, m: int, n: int, ix: nat, k: nat)
    requires 0 < n < Pow(B, k) && 0 <= x < n * Pow(B, k) && ix <= k && 0 <= m < Pow(B, ix)
    ensures 0 <= x + m * n < Pow(B, 2 * k + 1)
  {
    var p := Pow(B, k);
    PowMonotone(B, ix, k);
    MulLe(n, m, p);
    MulLe(n, 0, m);
    MulLe(p, n, p);
    PowAdd(B, k, k);
    PowPositive(B, 2 * k);
    assert Pow(B, 2 * k + 1) == B * Pow(B, 2 * k);
  }

  /** One row of the digit-by-digit form. */
  method ClearDigit(x: Int, n: Int, rho: int, ix: nat, ghost x0: int, ghost m: int) returns (ghost m': int)
    requires x != n && n.Valid() && ix < n.used && 2 * n.used + 1 <= |x.dp|
    requires IsRho(rho, n.dp[0]) && 0 < n.Mag() < Pow(B, n.used) && 0 <= x0 < n.Mag() * Pow(B, n.used)
    requires Accumulated(x.dp, x0, m, n.Mag(), ix)
    modifies x`dp
    ensures |x.dp| == old(|x.dp|)
    ensures Accumulated(x.dp, x0, m', n.Mag(), ix + 1)
  {
    hide Val, Pow, Int.Mag, IsRho;
    var mu := (x.dp[ix] * rho) % B;
    ModSmall(x.dp[ix], B);
    ColumnCleared(x.dp[ix], rho, n.dp[0], mu);
    ghost var v := n.Mag();
    m' := m + mu * Pow(B, ix);
    RoundBound(m, mu, Pow(B, ix));
    PowNext(B, ix);
    SumFits(x0, m', v, ix + 1, n.used);
    PowMonotone(B, 2 * n.used + 1, |x.dp|);
    RowSum(x0, m, mu, Pow(B, ix), v);
    MagOfDigits(n);
    var u := AddRow(x, n.dp[..n.used], mu, ix);
    Propagate(x, u, ix + n.used);
  }

  lemma RowSum(x: int, m: int, mu: int, p: int, n: int)
    ensures x + m * n + p * (mu * n) == x + (m + mu * p) * n
  {
    assert (mu * p) * n == p * (mu * n);
  }

  /** The part of mp_montgomery_reduce that runs when the comba form does not apply. */
  method ReduceBaseline(x: Int, n: Int, rho: int)
    requires x != n && x.Valid() && n.Valid()
    requires 0 <= x.Value() < n.Value() * Pow(B, n.used)
    requires n.used > 0 ==> IsRho(rho, n.dp[0])
    modifies x
    ensures x.Valid()
    ensures IsReduced(x.Value(), old(x.Value()), n.Value(), n.used)
  {
    hide Val, Pow, Accumulated, IsRho, IsReduced;
    var k := n.used;
    InputDigits(x, n);
    ghost var x0, n0 := x.Value(), n.Value();
    x.Grow(2 * k + 1);
    x.used := 2 * k + 1;
    ghost var m := 0;
    AccumulatedStart(x.dp, x0, n0);
    for ix := 0 to k
      invariant 2 * k + 1 <= |x.dp| && x.used == 2 * k + 1 && !x.neg
      invariant Accumulated(x.dp, x0, m, n0, ix)
    {
      m := ClearDigit(x, n, rho, ix, x0, m);
    }
    ghost var t := ShiftedTail(x.dp, x0, m, n0, k);
    x.Clamp();
    Rshd(x, k);
    FinishTail(t, x0, m, n0, k);
    if x.Value() >= n.Value() {
      Sub(x, n, x);
    }
  }

  lemma ShiftedTail(s: seq<int>, x: int, m: int, n: int, k: nat) returns (t: int)
    requires 0 < n < Pow(B, k) && 0 <= x < n * Pow(B, k) && 2 * k + 1 <= |s|
    requires Accumulated(s, x, m, n, k)
    ensures Cleared(t, x, m, n, k)
    ensures Pow(B, k) > 0 && Shifted(Val(B, s), Pow(B, k)) == t
    ensures IsDigits(B, s) && forall i :: 2 * k + 1 <= i < |s| ==> s[i] == 0
  {
    SumFits(x, m, n, k, k);
    HighDigitsZero(B, s, 2 * k + 1);
    assert forall i :: 2 * k + 1 <= i < |s| ==> s[i] == s[2 * k + 1..][i - (2 * k + 1)];
    ValSplit(B, s, k);
    ValZero(B, s[..k]);
    ValDivMod(B, s, k);
    t := Val(B, s[k..]);
  }

  /** mp_montgomery_reduce: picks the comba form where its columns suffice. */
  method Reduce(x: Int, n: Int, rho: int)
    requires x != n && x.Valid() && n.Valid()
    requires 0 <= x.Value() < n.Value() * Pow(B, n.used)
    requires n.used > 0 ==> IsRho(rho, n.dp[0])
    modifies x
    ensures x.Valid()
    ensures IsReduced(x.Value(), old(x.Value()), n.Value(), n.used)
  {
    hide Pow, IsReduced, IsRho;
    var digs := 2 * n.used + 1;
    if digs < WARRAY && x.used <= WARRAY && n.used < MAXFAST {
      var err := ReduceFast(x, n, rho);
    } else {
      ReduceBaseline(x, n, rho);
    }
  }

  /** An odd modulus leaves one reduced value, so the two forms agree digit for digit. */
  lemma ReducedUnique(r: int, r': int, x: int, n: int, k: nat)
    requires n % 2 == 1 && IsReduced(r, x, n, k) && IsReduced(r', x, n, k)
    ensures r == r'
  {
    BaseIsPowTwo(k);
    CancelPowTwo(r, r', 28 * k, n);
    CongUnique(r, r', n);
  }

  // ----- rho -----

  /** One Newton step squares the modulus of an inverse. */
  lemma NewtonStep(b: int, x: int, x': int, m: int)
    requires m > 0 && Cong(b * x, 1, m) && m * m > 0 && Cong(x', x * (2 - b * x), m * m)
    ensures Cong(b * x', 1, m * m)
  {
    var k := CongElim(b * x, 1, m);
    CongScale(x', x * (2 - b * x), b, m * m);
    NewtonAlgebra(b, x, k, m);
    CongIntro(b * (x * (2 - b * x)), 1, -(k * k), m * m);
  }

  lemma NewtonAlgebra(b: int, x: int, k: int, m: int)
    requires b * x == 1 + k * m
    ensures b * (x * (2 - b * x)) == 1 + -(k * k) * (m * m)
  {
    var y := b * x;
    MulAssoc(b, x, 2 - y);
    assert (1 + k * m) * (1 - k * m) == 1 - (k * m) * (k * m);
    MulSwap(k, m, k, m);
  }

  /** The seed is an inverse modulo 16. */
  lemma NewtonSeed(b: int, x: int)
    requires b % 2 == 1 && x == 8 * (((b + 2) / 4) % 2) + b
    ensures Cong(b * x, 1, 16)
  {
    hide *;
    var r := b % 16;
    var e := ((b + 2) / 4) % 2;
    SeedBits(b);
    CongMod(b, 16);
    CongSelf(8 * e, 16);
    CongAdd(8 * e, 8 * e, r, b, 16);
    CongMul(r, b, 8 * e + r, x, 16);
    SeedTable(r, e);
    CongTrans(r * (8 * e + r), b * x, b * x, 16);
    CongTrans(b * x, r * (8 * e + r), 1, 16);
  }

  lemma SeedBits(b: int)
    ensures ((b + 2) / 4) % 2 == ((b % 16 + 2) / 4) % 2 && (b % 16) % 2 == b % 2
  {
    var q, r := b / 16, b % 16;
    var t := (r + 2) / 4;
    DivModDef(b, 16);
    DivModDef(r + 2, 4);
    DivModUnique(b + 2, 4 * q + t, (r + 2) % 4, 4);
    CongIntro(4 * q + t, t, 2 * q, 2);
    ModMod(b, 2, 8);
  }

  lemma SeedTable(r: int, e: int)
    requires 0 <= r < 16 && r % 2 == 1 && e == ((r + 2) / 4) % 2
    ensures Cong(r * (8 * e + r), 1, 16)
  {
    if r == 1 {} else if r == 3 {} else if r == 5 {} else if r == 7 {}
    else if r == 9 {} else if r == 11 {} else if r == 13 {} else {}
  }

  lemma LowDigit(n: Int)
    requires n.Valid() && |n.dp| > 0
    ensures n.Value() % 2 == n.dp[0] % 2 && 0 <= n.dp[0] < B
    ensures n.dp[0] % 2 == 1 ==> n.used > 0
  {
    hide Val;
    LowDigitParity(n.dp);
    NegationParity(n.Mag());
  }

  /** mp_montgomery_setup, in 32-bit arithmetic that wraps. */
  method Setup(n: Int) returns (err: Err, rho: int)
    requires n.Valid() && |n.dp| > 0
    ensures err == OKAY <==> n.Value() % 2 == 1
    ensures err != OKAY ==> err == VAL
    ensures err == OKAY ==> n.used > 0 && IsRho(rho, n.dp[0])
  {
    hide *;
    rho := 0;
    var b := n.dp[0];
    LowDigit(n);
    if b % 2 == 0 {
      return VAL, 0;
    }
    var x := 8 * (((b + 2) / 4) % 2) + b;
    NewtonSeed(b, x);
    var y := Step32(b, x, 16);
    y := Step32(b, y, 0x100);
    y := Step32(b, y, 0x1_0000);
    rho := ((0x1000_0000 - y) % 0x1_0000_0000_0000_0000 % 0x1_0000_0000) % 0x1000_0000;
    NegatedInverse(b, y, rho);
    return OKAY, rho;
  }

  /** x *= 2 - b * x, modulo 2^32. */
  method Step32(b: int, x: int, ghost m: int) returns (y: int)
    requires m == 16 || m == 0x100 || m == 0x1_0000
    requires Cong(b * x, 1, m)
    ensures 0 <= y < 0x1_0000_0000 && Cong(b * y, 1, m * m)
  {
    y := (x * (2 - b * x)) % 0x1_0000_0000;
    CongMod(x * (2 - b * x), 0x1_0000_0000);
    CongFactor(y, x * (2 - b * x), m * m, 0x1_0000_0000 / (m * m));
    NewtonStep(b, x, y, m);
  }

  lemma NegatedInverse(b: int, x: int, rho: int)
    requires Cong(b * x, 1, 0x1_0000_0000) && 0 <= x < 0x1_0000_0000
    requires rho == ((0x1000_0000 - x) % 0x1_0000_0000_0000_0000 % 0x1_0000_0000) % 0x1000_0000
    ensures IsRho(rho, b)
  {
    hide Cong;
    MaskedNegation(x);
    CongFactor(b * x, 1, B, 16);
    CongMod(B - x, B);
    CongScale(rho, B - x, b, B);
    assert (B - x) * b == -(b * x) + b * B;
    CongIntro((B - x) * b, -(b * x), b, B);
    CongSelf(0, B);
    CongAdd(0, 0, b * x, 1, B);
    CongTrans(rho * b, (B - x) * b, -(b * x), B);
    CongTrans(rho * b, -(b * x), -1, B);
  }

  /** The truncations to 64, 32 and 28 bits amount to the last. */
  lemma MaskedNegation(x: int)
    ensures ((0x1000_0000 - x) % 0x1_0000_0000_0000_0000 % 0x1_0000_0000) % 0x1000_0000 == (0x1000_0000 - x) % 0x1000_0000
  {
    var v := 0x1000_0000 - x;
    ModMod(v % 0x1_0000_0000_0000_0000, 0x1000_0000, 16);
    ModMod(v, 0x1000_0000, 0x10_0000_0000);
  }

  // ----- R mod n -----

  lemma StartBelow(v: int, first: nat)
    requires v > 1 && v % 2 == 1 && first < BitLen(v)
    ensures 0 < Pow(2, first) < v
  {
    BitLenBounds(v);
    PowMonotone(2, first, BitLen(v) - 1);
    if first > 0 {
      assert Pow(2, first) == 2 * Pow(2, first - 1);
    }
  }

  lemma DoubleStep(v: int, e: nat, n: int)
    requires n > 0 && Cong(v, Pow(2, e), n)
    ensures Cong(2 * v, Pow(2, e + 1), n) && Cong(2 * v - n, Pow(2, e + 1), n)
  {
    CongScale(v, Pow(2, e), 2, n);
    CongIntro(2 * v - n, 2 * v, -1, n);
  }

  /** mp_montgomery_calc_normalization: B^k mod b by doubling. */
  method CalcNormalization(a: Int, b: Int)
    requires a != b && b.Valid() && b.Value() > 1 && b.Value() % 2 == 1
    modifies a
    ensures a.Valid() && a.Value() == Rem(Pow(B, b.used), b.Value())
  {
    hide *;
    var count := CountBits(b);
    var bits: int := count % 28;
    var first: nat;
    if b.used > 1 {
      first := (b.used - 1) * 28 + bits - 1;
      TwoExpt(a, first);
    } else {
      Set(a, 1);
      bits := 1;
      first := 0;
    }
    ghost var n := b.Value();
    MagBounds(b);
    NonnegValue(b);
    StartBelow(n, first);
    PowFirst(2);
    ghost var e: nat := first;
    CongSelf(Pow(2, first), n);
    var x: int := bits - 1;
    while x < 28
      invariant -1 <= x <= 28 && a.Valid() && 0 < a.Value() < n
      invariant e == first + x - (bits - 1) && Cong(a.Value(), Pow(2, e), n)
      decreases 28 - x
    {
      ghost var v := a.Value();
      DoubleStep(v, e, n);
      Mul2(a, a);
      if a.Value() >= b.Value() {
        Sub(a, b, a);
      }
      e := e + 1;
      x := x + 1;
    }
    BaseIsPowTwo(b.used);
    RemFromCong(a.Value(), Pow(2, e), n);
  }
}
