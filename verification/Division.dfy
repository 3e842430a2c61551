/**
 Long division, Algorithm 14.20 of the Handbook of Applied Cryptography, as
 libtommath runs it: the divisor is normalised to a top digit of at least B/4,
 and the refinement compares an unclamped three-digit number.
 */
module Division {
  import opened Arith
  import opened Digits
  import opened Mp

  // ----- the quotient digit -----

  /** Not below the quotient of x by y. */
  ghost predicate NotBelow(q: int, x: int, y: int)
  {
    x < (q + 1) * y
  }

  /** At most one above the quotient of x by y. */
  ghost predicate OneAbove(q: int, x: int, y: int)
  {
    q * y < x + y
  }

  /**
   The leading digits of a number: `two` are the ones at i and i - 1, `three`
   those with the next one down, each bracketing the number at its weight p.
   */
  ghost predicate Leading(x: int, two: int, three: int, p: int)
  {
    && p > 0
    && two * p <= x < (two + 1) * p
    && three * p <= x * B < (three + 1) * p
  }

  lemma LeadingDigits(s: seq<int>, i: nat)
    requires IsDigits(B, s) && 1 <= i < |s| && forall j :: i < j < |s| ==> s[j] == 0
    ensures var third := if i < 2 then 0 else s[i - 2];
      Leading(Val(B, s), s[i] * B + s[i - 1], (s[i] * B + s[i - 1]) * B + third, Pow(B, i - 1))
  {
    hide Val, Pow;
    var third := if i < 2 then 0 else s[i - 2];
    var lo, p, two := Val(B, s[..i - 1]), Pow(B, i - 1), s[i] * B + s[i - 1];
    PowPositive(B, i - 1);
    ValBound(B, s[..i - 1]);
    TopTwo(s, i);
    NextDigit(s, i - 1, third);
    LeadingAlgebra(lo, p, two, third);
  }

  lemma TopTwo(s: seq<int>, i: nat)
    requires 1 <= i < |s| && forall j :: i < j < |s| ==> s[j] == 0
    ensures Val(B, s) == Val(B, s[..i - 1]) + Pow(B, i - 1) * (s[i] * B + s[i - 1])
  {
    hide Val, Pow;
    ValSplit(B, s, i - 1);
    ValAt(B, s, i - 1);
    ValAt(B, s, i);
    ValZero(B, s[i + 1..]);
  }

  /** The digit below position n brackets what the digits below n write. */
  lemma NextDigit(s: seq<int>, n: nat, d: int)
    requires IsDigits(B, s) && n <= |s| && d == if n == 0 then 0 else s[n - 1]
    ensures Pow(B, n) * d <= Val(B, s[..n]) * B < Pow(B, n) * (d + 1)
  {
    hide Val, Pow;
    if n > 0 {
      ValAt(B, s, n - 1);
      ValBound(B, s[..n - 1]);
      PowNext(B, n - 1);
      NextDigitAlgebra(Val(B, s[..n - 1]), Pow(B, n - 1), d);
    } else {
      NothingBelow(s);
    }
  }

  lemma NothingBelow(s: seq<int>)
    ensures Val(B, s[..0]) == 0 && Pow(B, 0) == 1
  {
  }

  lemma NextDigitAlgebra(v: int, p: int, d: int)
    requires 0 <= v < p
    ensures (B * p) * d <= (v + p * d) * B < (B * p) * (d + 1)
  {
    assert (v + p * d) * B == v * B + (B * p) * d;
    assert (B * p) * (d + 1) == (B * p) * d + B * p;
  }

  lemma LeadingAlgebra(lo: int, p: int, two: int, d: int)
    requires p > 0 && 0 <= lo < p && p * d <= lo * B < p * (d + 1)
    ensures Leading(lo + p * two, two, two * B + d, p)
  {
    var x := lo + p * two;
    assert (two + 1) * p == p * two + p;
    assert x * B == lo * B + p * (two * B);
    assert (two * B + d) * p == p * (two * B) + p * d;
    assert (two * B + d + 1) * p == p * (two * B) + p * (d + 1);
  }

  lemma ScaledLe(k: int, a: int, p: int, y: int)
    requires k >= 0 && a * p <= y
    ensures (k * a) * p <= k * y
  {
    MulAssoc(k, a, p);
    MulLe(k, a * p, y);
  }

  lemma ScaledLt(k: int, a: int, p: int, y: int)
    requires k > 0 && y < a * p
    ensures k * y < (k * a) * p
  {
    MulAssoc(k, a, p);
    MulLe(k, y + 1, a * p);
    assert k * (y + 1) == k * y + k;
  }

  /** The one-digit estimate is not below the quotient. */
  lemma EstimateNotBelow(q: int, x: int, y: int, two: int, yt: int, p: int)
    requires p > 0 && x < (two + 1) * p && q >= 0 && yt * p <= y && two < (q + 1) * yt
    ensures NotBelow(q, x, y)
  {
    MulLe(p, two + 1, (q + 1) * yt);
    ScaledLe(q + 1, yt, p, y);
  }

  /** A digit the refinement rejects is above the quotient, so its predecessor is not below it. */
  lemma RefineNotBelow(q: int, x: int, y: int, three: int, y2: int, p: int)
    requires p > 0 && x * B < (three + 1) * p && y2 * p <= y * B && Rejected(q, y2, three)
    ensures q > 0 && NotBelow(q - 1, x, y)
  {
    MulLe(p, three + 1, q * y2);
    ScaledLe(q, y2, p, y * B);
    assert q * (y * B) == (q * y) * B;
    assert x * B < (q * y) * B;
  }

  /** A digit the refinement accepts is at most one above the quotient. */
  lemma RefineOneAbove(q: int, x: int, y: int, three: int, y2: int, p: int)
    requires p > 0 && 0 <= q < B && three * p <= x * B && y2 * p <= y * B < (y2 + 1) * p && B <= y2
    requires q * y2 <= three
    ensures OneAbove(q, x, y)
  {
    if q == 0 {
      PositiveFromScaled(y, y2, p);
    } else {
      ScaledLt(q, y2 + 1, p, y * B);
      assert q * (y2 + 1) == q * y2 + q;
      MulLe(p, q * y2 + q, three + B);
      assert (three + B) * p == three * p + B * p;
      MulLe(p, B, y2);
      assert q * (y * B) == (q * y) * B;
      assert (q * y) * B < (x + y) * B;
    }
  }

  lemma PositiveFromScaled(y: int, y2: int, p: int)
    requires p > 0 && B <= y2 && y2 * p <= y * B
    ensures y > 0
  {
    MulLe(p, 1, y2);
  }

  /** When the top digit of x is zero the unrefined digit is at most 3, and close enough. */
  lemma UnrefinedOneAbove(q: int, x: int, y: int, two: int, yt: int, p: int)
    requires p > 0 && 0 <= q && two * p <= x && yt * p <= y < (yt + 1) * p && B / 4 <= yt
    requires q * yt <= two && two < B
    ensures OneAbove(q, x, y)
  {
    assert q < 4 by { if q >= 4 { MulLe(yt, 4, q); } }
    if q > 0 {
      ScaledLt(q, yt + 1, p, y);
      assert q * (yt + 1) == q * yt + q;
      MulLe(p, q * yt + q, two + q);
      assert (two + q) * p == two * p + q * p;
      MulLe(p, q, yt);
    } else {
      MulLe(p, 1, yt);
    }
  }

  /** What the trial knows of the divisor at the place of digit i: its one and two leading digits. */
  ghost predicate Divisor(y: int, yt: int, y2: int, p: int)
  {
    && p > 0 && B / 4 <= yt && B <= y2
    && yt * p <= y < (yt + 1) * p
    && y2 * p <= y * B < (y2 + 1) * p
  }

  lemma DivisorDigits(s: seq<int>, t: nat, k: nat)
    requires IsDigits(B, s) && t < |s| && B / 4 <= s[t] && forall j :: t < j < |s| ==> s[j] == 0
    ensures var next := if t == 0 then 0 else s[t - 1];
      Divisor(Val(B, s) * Pow(B, k), s[t], s[t] * B + next, Pow(B, t + k))
  {
    hide Val, Pow;
    var next := if t == 0 then 0 else s[t - 1];
    var lo, p, q := Val(B, s[..t]), Pow(B, t), Pow(B, k);
    PowPositive(B, t);
    PowPositive(B, k);
    PowAdd(B, t, k);
    ValBound(B, s[..t]);
    TopOne(s, t);
    NextDigit(s, t, next);
    LeadingAlgebra(lo, p, s[t], next);
    ScaleBracket(s[t], p, Val(B, s), q);
    ScaleBracket(s[t] * B + next, p, Val(B, s) * B, q);
    assert (Val(B, s) * B) * q == (Val(B, s) * q) * B;
    MulPositive(p, q);
  }

  lemma TopOne(s: seq<int>, t: nat)
    requires t < |s| && forall j :: t < j < |s| ==> s[j] == 0
    ensures Val(B, s) == Val(B, s[..t]) + Pow(B, t) * s[t]
  {
    hide Val, Pow;
    ValSplit(B, s, t);
    ValAt(B, s, t);
    ValZero(B, s[t + 1..]);
  }

  lemma ScaleBracket(d: int, p: int, v: int, q: int)
    requires q > 0 && d * p <= v < (d + 1) * p
    ensures d * (p * q) <= v * q < (d + 1) * (p * q)
  {
    ScaledLe(q, d, p, v);
    ScaledLt(q, d + 1, p, v);
    assert (q * d) * p == d * (p * q);
    assert (q * (d + 1)) * p == (d + 1) * (p * q);
  }

  /** mp_cmp_mag: the digit counts decide first, then the digits from the top. */
  method CmpMag(a: Int, b: Int) returns (r: int)
    requires a.Loose() && b.Loose()
    ensures a.used != b.used ==> r == if a.used > b.used then 1 else -1
    ensures a.used == b.used ==> r == if a.Mag() > b.Mag() then 1 else if a.Mag() < b.Mag() then -1 else 0
  {
    hide Val;
    if a.used > b.used {
      return 1;
    }
    if a.used < b.used {
      return -1;
    }
    var n := a.used;
    while n > 0
      invariant 0 <= n <= a.used && forall j :: n <= j < a.used ==> a.dp[j] == b.dp[j]
    {
      if a.dp[n - 1] > b.dp[n - 1] {
        LaterDigits(b.dp, a.dp, n - 1, a.used);
        return 1;
      }
      if a.dp[n - 1] < b.dp[n - 1] {
        LaterDigits(a.dp, b.dp, n - 1, a.used);
        return -1;
      }
      n := n - 1;
    }
    ValSameDigits(B, a.dp, b.dp, a.used);
    return 0;
  }

  lemma LaterDigits(s: seq<int>, t: seq<int>, n: nat, used: nat)
    requires IsDigits(B, s) && IsDigits(B, t) && n < used <= |s| && used <= |t| && s[n] < t[n]
    requires forall j :: n < j < used ==> s[j] == t[j]
    requires (forall j :: used <= j < |s| ==> s[j] == 0) && (forall j :: used <= j < |t| ==> t[j] == 0)
    ensures Val(B, s) < Val(B, t)
  {
    hide Val, Pow;
    ValSplit(B, s, n);
    ValSplit(B, t, n);
    ValAt(B, s, n);
    ValAt(B, t, n);
    ValSameDigits(B, s[n + 1..], t[n + 1..], used - n - 1);
    ValBound(B, s[..n]);
    ValBound(B, t[..n]);
    FirstDifference(Val(B, s[..n]), Val(B, t[..n]), Pow(B, n), s[n], t[n], B * Val(B, s[n + 1..]));
  }

  lemma FirstDifference(lo: int, lo': int, p: int, d: int, d': int, h: int)
    requires 0 <= lo < p && 0 <= lo' && d < d'
    ensures lo + p * (d + h) < lo' + p * (d' + h)
  {
    MulLe(p, d + h + 1, d' + h);
    assert p * (d + h + 1) == p * (d + h) + p;
  }

  /** The test found q * y2 above the three digits. */
  ghost predicate Rejected(q: int, y2: int, three: int)
  {
    q > 0 && q * y2 > three
  }

  /** The test let q pass: truly, or because q * y2 has fewer than three digits. */
  ghost predicate Passed(q: int, y2: int, three: int)
  {
    q * y2 <= three || q * y2 < B * B
  }

  /** With a zero on top of x the digit does not exceed its one-digit bound. */
  ghost predicate WithinGuess(q: int, xi: int, x1: int, yt: int)
  {
    xi == 0 ==> q * yt <= x1
  }

  lemma WithinGuessDown(q: int, xi: int, x1: int, yt: int)
    requires WithinGuess(q, xi, x1, yt) && yt >= 0
    ensures WithinGuess(q - 1, xi, x1, yt)
  {
    MulLe(yt, q - 1, q);
  }

  /** The refinement test on t1 = q * y2 against the unclamped three digits of x. */
  method TooBig(q: int, yt: int, y1: int, x0: int, x1: int, x2: int) returns (gt: bool)
    requires 0 <= q < B && 0 < yt < B && 0 <= y1 < B && 0 <= x0 < B && 0 <= x1 < B && 0 <= x2 < B
    ensures gt ==> Rejected(q, yt * B + y1, (x2 * B + x1) * B + x0)
    ensures !gt ==> Passed(q, yt * B + y1, (x2 * B + x1) * B + x0)
  {
    var t1 := new Int.Sized(2);
    t1.dp := [y1, yt];
    t1.used := 2;
    TwoCells(y1, yt);
    MulD(t1, q, t1);
    var t2 := new Int.Sized(3);
    t2.dp := [x0, x1, x2];
    t2.used := 3;
    ThreeCells(x0, x1, x2);
    var r := CmpMag(t1, t2);
    gt := r == 1;
    TrialUsed(t1, q, yt * B + y1);
    if q == 0 {
      assert 0 * (yt * B + y1) == 0;
    }
    assert (yt * B + y1) * q == q * (yt * B + y1);
  }

  lemma TwoCells(a: int, b: int)
    ensures Val(B, [a, b]) == b * B + a
  {
    assert [a, b][1..] == [b];
    ValSingle(B, b);
  }

  lemma ThreeCells(a: int, b: int, c: int)
    ensures Val(B, [a, b, c]) == (c * B + b) * B + a
  {
    assert [a, b, c][1..] == [b, c];
    TwoCells(b, c);
  }

  lemma TrialUsed(t: Int, q: int, y2: int)
    requires t.Valid() && 0 <= q < B && 0 < y2 < B * B && t.Value() == y2 * q
    ensures t.used <= 3 && !t.neg && (t.used < 3 ==> t.Mag() < B * B)
  {
    MagBounds(t);
    MulLe(q, 0, y2);
    MulLe(q, y2, B * B);
    MulLe(B * B, q, B);
    assert Pow(B, 3) == B * B * B && Pow(B, 2) == B * B && Pow(B, 1) == B && Pow(B, 0) == 1;
    if t.used > 3 {
      PowMonotone(B, 3, t.used - 1);
    }
    if t.used < 3 {
      PowMonotone(B, t.used, 2);
    }
  }

  /** The first guess for the digit, from the two leading digits of x and one of y. */
  method FirstGuess(xi: int, x1: int, yt: int, ghost x: int, ghost y: int, ghost p: int) returns (q: int)
    requires 0 <= xi < B && 0 <= x1 < B && B / 4 <= yt < B
    requires p > 0 && x < (xi * B + x1 + 1) * p && yt * p <= y && x < B * y
    ensures 0 <= q < B && NotBelow(q, x, y)
    ensures WithinGuess(q, xi, x1, yt)
  {
    if xi == yt {
      q := B - 1;
    } else {
      var tmp := (xi * B + x1) / yt;
      DivModDef(xi * B + x1, yt);
      DivMonotone(0, xi * B + x1, yt);
      if tmp > B - 1 {
        q := B - 1;
        MulLe(yt, B - 1, tmp);
      } else {
        q := tmp;
        assert (q + 1) * yt == q * yt + yt;
        EstimateNotBelow(q, x, y, xi * B + x1, yt, p);
      }
    }
  }

  /** The masked increment and decrement of a digit. */
  function DigitUp(q: int): (r: int)
    ensures 0 <= r < B
  {
    (q + 1) % B
  }

  function DigitDown(q: int): (r: int)
    ensures 0 <= r < B
  {
    (q - 1) % B
  }

  lemma UpAndDown(c: int)
    requires 0 <= c < B
    ensures DigitDown(DigitUp(c)) == c
    ensures c > 0 ==> DigitUp(c - 1) == c
  {
  }

  /** Step 3.2: decrement while the test says the digit is too big. */
  method Refine(first: int, xi: int, x1: int, x0: int, yt: int, y1: int, ghost x: int, ghost y: int, ghost p: int) returns (q: int)
    requires 0 <= first < B && 0 <= xi < B && 0 <= x1 < B && 0 <= x0 < B && 0 < yt < B && 0 <= y1 < B
    requires Leading(x, xi * B + x1, (xi * B + x1) * B + x0, p) && Divisor(y, yt, yt * B + y1, p)
    requires NotBelow(first, x, y) && WithinGuess(first, xi, x1, yt)
    ensures 0 <= q < B && NotBelow(q, x, y) && OneAbove(q, x, y)
  {
    hide NotBelow, OneAbove, Leading, Divisor, Rejected, Passed, WithinGuess, DigitUp, DigitDown;
    ghost var two, three, y2 := xi * B + x1, (xi * B + x1) * B + x0, yt * B + y1;
    BracketFacts(x, two, three, y, yt, y2, p);
    q := DigitUp(first);
    ghost var cand := first;
    var gt := true;
    while gt
      invariant 0 <= q < B && 0 <= cand < B
      invariant gt ==> q == DigitUp(cand) && NotBelow(cand, x, y) && WithinGuess(cand, xi, x1, yt)
      invariant !gt ==> NotBelow(q, x, y) && OneAbove(q, x, y)
      decreases gt, cand
    {
      UpAndDown(cand);
      q := DigitDown(q);
      gt := TooBig(q, yt, y1, x0, x1, xi);
      if gt {
        RefineNotBelow(q, x, y, three, y2, p);
        WithinGuessDown(q, xi, x1, yt);
        cand := cand - 1;
      } else {
        Accepted(q, x, y, xi, x1, x0, yt, y1, p);
      }
    }
  }

  /** Steps 3.1 and 3.2: the digit is the quotient of x by y * B^(i - t - 1), or one more. */
  method TrialDigit(x: Int, y: Int, i: nat, t: nat) returns (q: int)
    requires x.Valid() && y.Valid() && x.Value() >= 0 && y.Value() > 0
    requires y.used == t + 1 && B / 4 <= y.dp[t] && t < i < |x.dp| && x.used <= i + 1
    requires x.Value() < y.Value() * Pow(B, i - t)
    ensures 0 <= q < B
    ensures NotBelow(q, x.Value(), y.Value() * Pow(B, i - t - 1))
    ensures OneAbove(q, x.Value(), y.Value() * Pow(B, i - t - 1))
  {
    hide Val, Pow, Int.Value, Int.Mag, NotBelow, OneAbove, Leading, Divisor, WithinGuess;
    ghost var p, Y, X := Pow(B, i - 1), y.Value() * Pow(B, i - t - 1), x.Value();
    var xi, x1, x0 := x.dp[i], x.dp[i - 1], if i < 2 then 0 else x.dp[i - 2];
    var yt, y1 := y.dp[t], if t == 0 then 0 else y.dp[t - 1];
    TrialFacts(x, y, i, t);
    BracketFacts(X, xi * B + x1, (xi * B + x1) * B + x0, Y, yt, yt * B + y1, p);
    q := FirstGuess(xi, x1, yt, X, Y, p);
    q := Refine(q, xi, x1, x0, yt, y1, X, Y, p);
  }

  lemma TrialFacts(x: Int, y: Int, i: nat, t: nat)
    requires x.Valid() && y.Valid() && x.Value() >= 0 && y.Value() > 0
    requires y.used == t + 1 && B / 4 <= y.dp[t] && t < i < |x.dp| && x.used <= i + 1
    requires x.Value() < y.Value() * Pow(B, i - t)
    ensures var x0 := if i < 2 then 0 else x.dp[i - 2]; var y1 := if t == 0 then 0 else y.dp[t - 1];
      && Leading(x.Value(), x.dp[i] * B + x.dp[i - 1], (x.dp[i] * B + x.dp[i - 1]) * B + x0, Pow(B, i - 1))
      && Divisor(y.Value() * Pow(B, i - t - 1), y.dp[t], y.dp[t] * B + y1, Pow(B, i - 1))
      && x.Value() < B * (y.Value() * Pow(B, i - t - 1))
  {
    hide Val, Pow, Leading, Divisor;
    MagBounds(x);
    MagBounds(y);
    LeadingDigits(x.dp, i);
    DivisorDigits(y.dp, t, i - t - 1);
    PowNext(B, i - t - 1);
    assert y.Value() * (B * Pow(B, i - t - 1)) == B * (y.Value() * Pow(B, i - t - 1));
  }

  lemma BracketFacts(x: int, two: int, three: int, y: int, yt: int, y2: int, p: int)
    requires Leading(x, two, three, p) && Divisor(y, yt, y2, p)
    ensures p > 0 && x < (two + 1) * p && x * B < (three + 1) * p
    ensures B / 4 <= yt && yt * p <= y && y2 * p <= y * B
  {
  }

  /** Both ways out of the refinement leave a digit at most one above the quotient. */
  lemma Accepted(q: int, x: int, y: int, xi: int, x1: int, x0: int, yt: int, y1: int, p: int)
    requires 0 <= q < B && 0 <= xi && 0 <= x1 < B && 0 <= x0
    requires Leading(x, xi * B + x1, (xi * B + x1) * B + x0, p) && Divisor(y, yt, yt * B + y1, p)
    requires Passed(q, yt * B + y1, (xi * B + x1) * B + x0) && WithinGuess(q, xi, x1, yt)
    ensures OneAbove(q, x, y)
  {
    hide OneAbove;
    var three, y2 := (xi * B + x1) * B + x0, yt * B + y1;
    if q * y2 <= three {
      RefineOneAbove(q, x, y, three, y2, p);
    } else {
      UnrefinedOneAbove(q, x, y, x1, yt, p);
    }
  }

  // ----- the digit loop -----

  /** The quotient found so far: x0 = q * y + x with the digits of q below k still zero. */
  ghost predicate Partial(q: seq<int>, x: int, x0: int, y: int, k: nat)
  {
    && IsDigits(B, q) && k <= |q|
    && (forall j :: 0 <= j < k ==> q[j] == 0)
    && x0 == Val(B, q) * y + x
    && 0 <= x < y * Pow(B, k)
  }

  /** A trial digit, its subtraction and the one possible add-back. */
  lemma DigitFound(q: int, x: int, y: int)
    requires y > 0 && 0 <= q && NotBelow(q, x, y) && OneAbove(q, x, y) && x >= 0
    ensures x - q * y >= 0 ==> x - q * y < y
    ensures x - q * y < 0 ==> q > 0 && 0 <= x - q * y + y < y
  {
    assert (q + 1) * y == q * y + y;
  }

  lemma PartialStep(q: seq<int>, x: int, x0: int, y: int, k: nat, d: int, x': int)
    requires k > 0 && Partial(q, x, x0, y, k) && 0 <= d < B
    requires x' == x - d * (y * Pow(B, k - 1)) && 0 <= x' < y * Pow(B, k - 1)
    ensures Partial(q[k - 1 := d], x', x0, y, k - 1)
  {
    hide Val, Pow;
    ValUpdate(B, q, k - 1, d);
    PartialAlgebra(Val(B, q), Pow(B, k - 1), d, y, x);
  }

  lemma PartialAlgebra(v: int, p: int, d: int, y: int, x: int)
    ensures (v + p * (d - 0)) * y + (x - d * (y * p)) == v * y + x
  {
    assert (p * d) * y == d * (y * p);
  }

  /** A remainder too short for digit k - 1 leaves that digit zero. */
  lemma PartialSkip(q: seq<int>, x: int, x0: int, y: int, k: nat)
    requires k > 0 && Partial(q, x, x0, y, k) && x < y * Pow(B, k - 1)
    ensures Partial(q, x, x0, y, k - 1)
  {
  }

  /** The dropped digits: a remainder of used < i digits is below y * B^(i - t - 1). */
  lemma ShortRemainder(x: Int, y: Int, i: nat, t: nat)
    requires x.Valid() && y.Valid() && x.Value() >= 0 && y.Value() > 0 && y.used == t + 1 && B / 4 <= y.dp[t]
    requires t < i && x.used < i
    ensures x.Value() < y.Value() * Pow(B, i - t - 1)
  {
    hide Val, Pow;
    MagBounds(x);
    MagBounds(y);
    DivisorDigits(y.dp, t, i - t - 1);
    PowMonotone(B, x.used, i - 1);
    MulLe(Pow(B, i - 1), 1, y.dp[t]);
  }

  /** The remainder after digit i has at most i digits in use. */
  lemma RemainderUsed(x: Int, y: Int, i: nat, t: nat)
    requires x.Valid() && y.Valid() && y.Value() > 0 && y.used == t + 1 && t <= i
    requires 0 <= x.Value() < y.Value() * Pow(B, i - t)
    ensures x.used <= i + 1
  {
    hide Val, Pow;
    MagBounds(x);
    MagBounds(y);
    PowAdd(B, t + 1, i - t);
    PowPositive(B, i - t);
    MulLe(Pow(B, i - t), y.Value(), Pow(B, t + 1));
    if x.used > i + 1 { PowMonotone(B, i + 1, x.used - 1); }
  }

  lemma PartialFacts(q: seq<int>, x: int, x0: int, y: int, k: nat)
    requires Partial(q, x, x0, y, k)
    ensures k <= |q| && 0 <= x < y * Pow(B, k)
  {
  }

  /** What the subtraction of the trial digit, and the add-back, leave. */
  lemma StepOutcome(q: seq<int>, x: int, x0: int, y: int, k: nat, d: int)
    requires k > 0 && y > 0 && Partial(q, x, x0, y, k) && 0 <= d < B
    requires NotBelow(d, x, y * Pow(B, k - 1)) && OneAbove(d, x, y * Pow(B, k - 1))
    ensures var r := x - (y * d) * Pow(B, k - 1);
      if r >= 0 then Partial(q[k - 1 := d], r, x0, y, k - 1)
      else d > 0 && r + y * Pow(B, k - 1) >= 0 && Partial(q[k - 1 := d - 1], r + y * Pow(B, k - 1), x0, y, k - 1)
  {
    hide Val, Pow, Partial, NotBelow, OneAbove;
    var p := Pow(B, k - 1);
    PartialFacts(q, x, x0, y, k);
    PowPositive(B, k - 1);
    MulPositive(y, p);
    DigitFound(d, x, y * p);
    assert (y * d) * p == d * (y * p);
    var r := x - (y * d) * p;
    if r >= 0 {
      PartialStep(q, x, x0, y, k, d, r);
    } else {
      assert (d - 1) * (y * p) == d * (y * p) - y * p;
      PartialStep(q, x, x0, y, k, d - 1, r + y * p);
    }
  }

  /** Step 3 for one i. */
  method DivideStep(x: Int, y: Int, q: Int, i: nat, t: nat, ghost x0: int)
    requires x != y && x != q && y != q && x.Valid() && y.Valid() && x.Value() >= 0 && y.Value() > 0
    requires y.used == t + 1 && B / 4 <= y.dp[t] && t < i < |x.dp|
    requires Partial(q.dp, x.Value(), x0, y.Value(), i - t)
    modifies x, q`dp
    ensures x.Valid() && x.Value() >= 0 && |x.dp| >= old(|x.dp|) && |q.dp| == old(|q.dp|)
    ensures Partial(q.dp, x.Value(), x0, y.Value(), i - t - 1)
  {
    hide Val, Pow, Int.Value, Int.Mag, Partial, NotBelow, OneAbove;
    PartialFacts(q.dp, x.Value(), x0, y.Value(), i - t);
    if i > x.used {
      ShortRemainder(x, y, i, t);
      PartialSkip(q.dp, x.Value(), x0, y.Value(), i - t);
      return;
    }
    RemainderUsed(x, y, i, t);
    var d := TrialDigit(x, y, i, t);
    StepOutcome(q.dp, x.Value(), x0, y.Value(), i - t, d);
    var t1 := new Int();
    MulD(y, d, t1);
    Lshd(t1, i - t - 1);
    SubKeep(x, t1);
    if x.Value() < 0 {
      Copy(y, t1);
      Lshd(t1, i - t - 1);
      AddKeep(x, t1);
      d := (d - 1) % B;
    }
    q.dp := q.dp[i - t - 1 := d];
  }

  /** Step 2: the top digit of the quotient by repeated subtraction, at most three times. */
  method TopDigit(x: Int, y: Int, q: Int, k: nat)
    requires x != y && x != q && y != q && x.Valid() && y.Valid() && x.Value() >= 0 && y.Value() > 0
    requires k < |q.dp| && AllZero(q.dp) && y.used > 0 && B / 4 <= y.dp[y.used - 1] && x.used <= y.used + k
    modifies x, y, q`dp
    ensures x.Valid() && x.Value() >= 0 && |x.dp| >= old(|x.dp|) && |q.dp| == old(|q.dp|)
    ensures y.Valid() && y.Value() == old(y.Value())
    ensures Partial(q.dp, x.Value(), old(x.Value()), y.Value(), k)
  {
    hide Val, Pow, Int.Value, Int.Mag, Partial;
    ghost var x0, y0, p := x.Value(), y.Value(), Pow(B, k);
    TopBound(x, y, k);
    PowPositive(B, k);
    MulPositive(y0, p);
    Lshd(y, k);
    var c := 0;
    while x.Value() >= y.Value()
      invariant x.Valid() && y.Valid() && x.Value() >= 0 && y.Value() == y0 * p && |x.dp| >= old(|x.dp|)
      invariant x.Value() == x0 - c * (y0 * p) && c >= 0 && |q.dp| == old(|q.dp|)
      invariant q.dp == old(q.dp)[k := c]
      decreases x.Value()
    {
      assert (c + 1) * (y0 * p) == c * (y0 * p) + y0 * p;
      c := c + 1;
      q.dp := q.dp[k := q.dp[k] + 1];
      SubKeep(x, y);
    }
    FewTimes(c, x0, x.Value(), y0 * p);
    ShiftBack(y0, p);
    Rshd(y, k);
    TopPartial(old(q.dp), c, x.Value(), x0, y0, k);
  }

  lemma TopBound(x: Int, y: Int, k: nat)
    requires x.Valid() && y.Valid() && x.Value() >= 0 && y.Value() > 0
    requires y.used > 0 && B / 4 <= y.dp[y.used - 1] && x.used <= y.used + k
    ensures x.Value() < 4 * (y.Value() * Pow(B, k))
  {
    hide Val, Pow;
    var t := y.used - 1;
    MagBounds(x);
    MagBounds(y);
    DivisorDigits(y.dp, t, k);
    PowMonotone(B, x.used, t + 1 + k);
    PowNext(B, t + k);
    FourTimes(x.Value(), y.Value() * Pow(B, k), y.dp[t], Pow(B, t + k));
  }

  lemma FourTimes(x: int, y: int, yt: int, p: int)
    requires p > 0 && x < B * p && yt * p <= y && B <= 4 * yt
    ensures x < 4 * y
  {
    MulLe(p, B, 4 * yt);
    assert (4 * yt) * p == 4 * (yt * p);
  }

  lemma FewTimes(c: int, x0: int, x: int, y: int)
    requires y > 0 && x0 < 4 * y && x == x0 - c * y && x >= 0
    ensures c < 4
  {
    if c >= 4 { MulLe(y, 4, c); }
  }

  lemma ShiftBack(y: int, p: int)
    requires y > 0 && p > 0
    ensures y * p > 0 && Shifted(y * p, p) == y
  {
    MulPositive(y, p);
    DivModUnique(y * p, y, 0, p);
  }

  lemma TopPartial(q: seq<int>, c: int, x: int, x0: int, y: int, k: nat)
    requires AllZero(q) && k < |q| && 0 <= c < 4 && x == x0 - c * (y * Pow(B, k)) && 0 <= x < y * Pow(B, k)
    ensures Partial(q[k := c], x, x0, y, k)
  {
    hide Val, Pow;
    ValZero(B, q);
    ValUpdate(B, q, k, c);
    var p := Pow(B, k);
    assert (p * c) * y == c * (y * p);
  }

  /** A number of t + 1 digits whose top digit is at least B/4. */
  ghost predicate Normalized(v: int, t: nat)
  {
    (B / 4) * Pow(B, t) <= v < Pow(B, t + 1)
  }

  lemma NormalizedDigits(y: Int, t: nat)
    requires y.Valid() && Normalized(y.Value(), t)
    ensures y.Value() > 0 && y.used == t + 1 && B / 4 <= y.dp[t]
  {
    hide Val, Pow;
    PowPositive(B, t);
    MagBounds(y);
    if y.used > t + 1 { PowMonotone(B, t + 1, y.used - 1); }
    if y.used < t + 1 {
      PowMonotone(B, y.used, t);
      MulLe(Pow(B, t), 1, B / 4);
    }
    TopOne(y.dp, t);
    ValBound(B, y.dp[..t]);
    if y.dp[t] < B / 4 {
      MulLe(Pow(B, t), y.dp[t] + 1, B / 4);
    }
  }

  /** Steps 2 and 3 on a normalised divisor. */
  method DivideNormalized(x: Int, y: Int, q: Int, t: nat)
    requires x != y && x != q && y != q && x.Valid() && y.Valid()
    requires Normalized(y.Value(), t) && t + 1 <= x.used && x.Value() >= 0
    requires AllZero(q.dp) && x.used - t - 1 < |q.dp|
    modifies x, y, q`dp
    ensures x.Valid() && y.Valid() && |q.dp| == old(|q.dp|)
    ensures Partial(q.dp, x.Value(), old(x.Value()), old(y.Value()), 0)
  {
    hide Val, Pow, Int.Value, Int.Mag, Partial, Normalized;
    var n := x.used - 1;
    ghost var x0, y0 := x.Value(), y.Value();
    NormalizedDigits(y, t);
    TopDigit(x, y, q, n - t);
    NormalizedDigits(y, t);
    var i := n;
    while i >= t + 1
      invariant t <= i <= n < |x.dp| && |q.dp| == old(|q.dp|)
      invariant x.Valid() && x.Value() >= 0 && Partial(q.dp, x.Value(), x0, y0, i - t)
      modifies x, q`dp
    {
      DivideStep(x, y, q, i, t, x0);
      i := i - 1;
    }
  }

  lemma NormalizedBits(v: int, bits: nat, norm: nat)
    requires v > 0 && bits == BitLen(v) && norm == (if bits % 28 < 27 then 27 - bits % 28 else 0)
    ensures v * Pow(2, norm) > 0 && Normalized(v * Pow(2, norm), (bits + norm) / 28)
  {
    hide Pow, BitLen;
    BitLenBounds(v);
    var t := NormShift(bits, norm);
    PowAdd(2, bits - 1, norm);
    PowAdd(2, bits, norm);
    PowPositive(2, norm);
    ScaleBetween(Pow(2, norm), Pow(2, bits - 1), v, Pow(2, bits));
    BaseIsPowTwo(t);
    BaseIsPowTwo(t + 1);
    PowAdd(2, 28 * t, 26);
    PowMonotone(2, 28 * t + 27, 28 * (t + 1));
    Pow26();
  }

  lemma NormShift(bits: nat, norm: nat) returns (t: nat)
    requires norm == if bits % 28 < 27 then 27 - bits % 28 else 0
    ensures t == (bits + norm) / 28 && bits + norm == 28 * t + 27
  {
    var q := bits / 28;
    DivModDef(bits, 28);
    DivModUnique(bits + norm, q, 27, 28);
    t := q;
  }

  lemma ScaleBetween(k: int, a: int, v: int, b: int)
    requires k > 0 && 0 < v && a <= v < b
    ensures a * k <= v * k < b * k && v * k > 0
  {
    MulLe(k, a, v);
    MulLe(k, v + 1, b);
    assert k * (v + 1) == k * v + k;
    MulPositive(v, k);
  }

  lemma Pow26()
    ensures Pow(2, 26) == B / 4
  {
    PowTwo28();
    assert Pow(2, 28) == 2 * (2 * Pow(2, 26));
  }

  /** c * b + d == a with |d| < |b| and d of a's sign. */
  ghost predicate IsDivision(a: int, b: int, c: int, d: int)
  {
    && a == c * b + d
    && Abs(d) < Abs(b)
    && (d == 0 || (d < 0 <==> a < 0))
  }

  /** The magnitudes: x = |a| and y = |b| are shifted, divided, and x shifted back. */
  method DivideMags(x: Int, y: Int) returns (q: Int)
    requires x != y && x.Valid() && y.Valid() && 0 < y.Value() <= x.Value()
    modifies x, y
    ensures fresh(q) && q.Valid() && x.Valid() && q.Value() > 0 && 0 <= x.Value() < old(y.Value())
    ensures old(x.Value()) == q.Value() * old(y.Value()) + x.Value()
  {
    hide Val, Pow, BitLen, Int.Value, Int.Mag, Partial, Normalized;
    ghost var a, b := x.Value(), y.Value();
    NonnegValue(y);
    q := new Int.Sized(x.used + 2);
    var bits := CountBits(y);
    var norm := bits % DIGIT_BIT;
    if norm < DIGIT_BIT - 1 {
      norm := DIGIT_BIT - 1 - norm;
    } else {
      norm := 0;
    }
    NormalizedBits(b, bits, norm);
    ShiftedDigits(x, norm);
    Mul2d(x, norm, x);
    Mul2d(y, norm, y);
    var t := (bits + norm) / DIGIT_BIT;
    ghost var k := Pow(2, norm);
    PowPositive(2, norm);
    MulLe(k, b, a);
    LongEnough(x, y, t, |q.dp| - 1);
    DivideNormalized(x, y, q, t);
    Quotient(q.dp, x.Value(), a, b, k);
    q.used := |q.dp|;
    MagIsVal(q);
    q.Clamp();
    NonnegValue(q);
    var r := new Int();
    Div2d(x, norm, x, r);
  }

  /** Shifting by less than a digit lengthens a number by at most one digit. */
  lemma ShiftedDigits(x: Int, norm: nat)
    requires x.Valid() && x.Value() > 0 && norm < 28
    ensures 0 < x.Value() * Pow(2, norm) < Pow(B, x.used + 1)
  {
    hide Val, Pow;
    MagBounds(x);
    PowTwo28();
    PowStrict(2, norm, 28);
    PowNext(B, x.used);
    MulPositive(x.Value(), Pow(2, norm));
    MulLe(x.Value(), Pow(2, norm), B);
  }

  lemma LongEnough(x: Int, y: Int, t: nat, n: nat)
    requires x.Valid() && y.Valid() && Normalized(y.Value(), t) && y.Value() <= x.Value() < Pow(B, n)
    ensures t + 1 <= x.used <= n && x.Value() >= 0
  {
    hide Val, Pow;
    NormalizedDigits(y, t);
    MagBounds(x);
    MagBounds(y);
    if x.used < t + 1 { PowMonotone(B, x.used, t); }
    if x.used > n { PowMonotone(B, n, x.used - 1); }
  }

  /** Undoing the normalisation: the remainder is a multiple of 2^norm. */
  lemma Quotient(q: seq<int>, x: int, a: int, b: int, k: int)
    requires k > 0 && 0 < b <= a && Partial(q, x, a * k, b * k, 0)
    ensures IsDigits(B, q) && Val(B, q) > 0
    ensures 0 <= Quot(x, k) < b && a == Val(B, q) * b + Quot(x, k) && x >= 0
  {
    hide Val;
    var v := Val(B, q);
    assert Pow(B, 0) == 1;
    assert (v * b) * k == v * (b * k);
    var r := a - v * b;
    assert x == r * k;
    DivModUnique(x, r, 0, k);
    MulCancelLt(k, r, b);
    if r < 0 { MulLe(k, r, -1); }
    if v <= 0 { MulLe(b, v, 0); }
  }

  /** mp_div.  Either output may be missing. */
  method Div(a: Int, b: Int, c: Int?, d: Int?) returns (err: Err, ghost q: int, ghost r: int)
    requires a.Valid() && b.Valid() && (c != null ==> c.Valid() && c != d) && (d != null ==> d.Valid())
    modifies c, d
    ensures err == if old(b.Value()) == 0 then VAL else OKAY
    ensures err != OKAY ==> (c != null ==> unchanged(c)) && (d != null ==> unchanged(d))
    ensures err == OKAY ==> IsDivision(old(a.Value()), old(b.Value()), q, r)
    ensures err == OKAY && c != null ==> c.Valid() && c.Value() == q
    ensures err == OKAY && d != null ==> d.Valid() && d.Value() == r
  {
    hide *;
    q, r := 0, a.Value();
    if b.Value() == 0 {
      return VAL, q, r;
    }
    if Abs(a.Value()) < Abs(b.Value()) {
      SmallDividend(a.Value(), b.Value());
      if d != null {
        Copy(a, d);
      }
      if c != null {
        Set(c, 0);
      }
      return OKAY, q, r;
    }
    var x, y;
    x, y, q, r := SignedDivision(a, b);
    if c != null {
      Exch(x, c);
    }
    if d != null {
      Exch(y, d);
    }
    err := OKAY;
  }

  /** Quotient and remainder of the magnitudes, with their signs. */
  method SignedDivision(a: Int, b: Int) returns (q: Int, x: Int, ghost c: int, ghost d: int)
    requires a.Valid() && b.Valid() && b.Value() != 0 && Abs(b.Value()) <= Abs(a.Value())
    ensures fresh(q) && fresh(x) && q != x && q.Valid() && x.Valid() && q.Value() == c && x.Value() == d
    ensures IsDivision(a.Value(), b.Value(), c, d)
  {
    hide *;
    x := new Int();
    var y := new Int();
    AbsOf(a, x);
    AbsOf(b, y);
    SignFacts(a);
    SignFacts(b);
    AbsPositive(b.Value());
    q := DivideMags(x, y);
    c, d := Signed(a.Value(), b.Value(), q.Value(), x.Value());
    NonnegValue(q);
    NonnegValue(x);
    GiveSign(q, a.neg != b.neg);
    GiveSign(x, a.neg);
  }

  /** The remainder with the sign of the divisor. */
  ghost predicate IsModulo(a: int, b: int, r: int)
  {
    b != 0 && (if b > 0 then r == Rem(a, b) else -r == Rem(-a, -b))
  }

  /** mp_mod. */
  method ModOrFail(a: Int, b: Int, c: Int) returns (err: Err)
    requires a.Valid() && b.Valid() && c.Valid()
    modifies c
    ensures err == if old(b.Value()) == 0 then VAL else OKAY
    ensures err != OKAY ==> unchanged(c)
    ensures err == OKAY ==> c.Valid() && IsModulo(old(a.Value()), old(b.Value()), c.Value())
  {
    hide *;
    ghost var a0, b0 := a.Value(), b.Value();
    var t := new Int.Sized(b.used);
    ghost var q, r;
    err, q, r := Div(a, b, null, t);
    if err != OKAY {
      return;
    }
    SignFacts(t);
    SignFacts(b);
    ZeroUsed(t);
    RemainderSign(a0, b0, q, t.Value());
    if t.used == 0 || t.neg == b.neg {
      Exch(t, c);
    } else {
      Add(b, t, c);
    }
  }

  lemma ZeroUsed(t: Int)
    requires t.Valid()
    ensures t.used == 0 <==> t.Value() == 0
  {
    MagBounds(t);
  }

  /** Adding the divisor turns a truncated remainder of the other sign into the floored one. */
  lemma RemainderSign(a: int, b: int, q: int, r: int)
    requires b != 0 && IsDivision(a, b, q, r)
    ensures IsModulo(a, b, if r == 0 || (r < 0) == (b < 0) then r else b + r)
  {
    var s := if r == 0 || (r < 0) == (b < 0) then r else b + r;
    var k := if s == r then q else q - 1;
    assert a == k * b + s by { assert (q - 1) * b == q * b - b; }
    if b > 0 {
      DivModUnique(a, k, s, b);
    } else {
      assert -a == k * -b + -s by { assert k * -b == -(k * b); }
      DivModUnique(-a, k, -s, -b);
    }
  }

  /** mp_mod by a positive modulus, where it cannot fail. */
  method Mod(a: Int, b: Int, c: Int)
    requires a.Valid() && b.Valid() && c.Valid() && b.Value() > 0
    modifies c
    ensures c.Valid() && c.Value() == Rem(old(a.Value()), old(b.Value()))
  {
    hide Int.Value, Int.Valid, Rem;
    var err := ModOrFail(a, b, c);
  }

  lemma SmallDividend(a: int, b: int)
    requires Abs(a) < Abs(b)
    ensures IsDivision(a, b, 0, a)
  {
  }

  lemma SignFacts(a: Int)
    requires a.Valid()
    ensures a.neg <==> a.Value() < 0
  {
    MagBounds(a);
  }

  lemma AbsPositive(b: int)
    requires b != 0
    ensures Abs(b) > 0
  {
  }

  lemma Signed(a: int, b: int, q: int, r: int) returns (c: int, d: int)
    requires b != 0 && Abs(a) == q * Abs(b) + r && 0 <= r < Abs(b)
    ensures c == (if (a < 0) != (b < 0) then -q else q) && d == (if a < 0 then -r else r) && IsDivision(a, b, c, d)
  {
    c := if (a < 0) != (b < 0) then -q else q;
    d := if a < 0 then -r else r;
    assert (-q) * b == -(q * b);
    assert q * -b == -(q * b);
  }
}
