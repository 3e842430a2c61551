/**
 The exponentiations of libtommath: one routine per family of reductions, and
 mp_exptmod, which chooses among them by the shape of the modulus.
 */
module Exponentiation {
  import opened Arith
  import opened Digits
  import opened Mp
  import opened Division
  import opened Multiply
  import opened Powers
  import opened Sliding
  import opened Divisibility
  import Montgomery
  import Reductions
  import Barrett
  import InvMod

  /** The power modulo p; the exponent 0 leaves 1 even modulo 1. */
  ghost predicate IsPower(y: int, g: int, e: nat, p: int)
    requires p > 0
  {
    y == if p == 1 && e == 0 then 1 else Rem(Pow(g, e), p)
  }

  /** The window for an exponent of x bits. */
  function WindowSize(x: nat): (win: nat)
    ensures 2 <= win <= 8
  {
    if x <= 7 then 2
    else if x <= 36 then 3
    else if x <= 140 then 4
    else if x <= 450 then 5
    else if x <= 1303 then 6
    else if x <= 3529 then 7
    else 8
  }

  // ----- the common core -----

  /** Where result and M[1] start when residues carry B^k. */
  lemma StartMont(w: World, k: nat, g: int, one: int, m: int)
    requires Sound(w) && w.form == Mont(k) && w.g == Rem(g, w.p)
    requires one == Rem(Pow(B, k), w.p) && m == Rem(g * one, w.p)
    ensures Rep(w, one, 0) && Rep(w, m, 1)
  {
    hide Pow, Cong, Rem;
    var p, r := w.p, Pow(B, k);
    PowFirst(w.g);
    RemIsCong(r, p);
    RemIsCong(g, p);
    RemIsCong(g * one, p);
    CongSelf(one, p);
    CongSelf(w.g, p);
    CongSelf(g * one, p);
    CongMul(w.g, g, one, one, p);
    CongMul(w.g, w.g, one, r, p);
    CongTrans(w.g * one, g * one, g * one, p);
    CongTrans(m, g * one, w.g * one, p);
    CongTrans(m, w.g * one, w.g * r, p);
  }

  /** Where they start otherwise. */
  lemma StartPlain(w: World)
    requires Sound(w) && !w.form.Mont?
    ensures Rep(w, 1, 0) && Rep(w, w.g, 1)
  {
    PowFirst(w.g);
  }

  lemma EndPlain(w: World, g: int, v: int, e: nat)
    requires Sound(w) && w.form == Plain && w.g == Rem(g, w.p) && Rep(w, v, e) && (w.p == 1 && e == 0 ==> v == 1)
    ensures IsPower(v, g, e, w.p)
  {
    SamePower(w, g, e);
    if w.p > 1 || e > 0 {
      RemFromCong(v, Pow(w.g, e), w.p);
    }
  }

  lemma SamePower(w: World, g: int, e: nat)
    requires w.p > 0 && w.g == Rem(g, w.p)
    ensures Rem(Pow(w.g, e), w.p) == Rem(Pow(g, e), w.p)
  {
    RemIsCong(g, w.p);
    CongPow(w.g, g, e, w.p);
  }

  /** M[1], the table, the window and the final fixup, for any of the reductions. */
  method Exponentiate(G: Int, X: Int, P: Int, r: Reducer, ghost w: World) returns (res: Int)
    requires G.Valid() && X.Valid() && X.Value() >= 0 && Fits(w, r, P) && w.g == Rem(G.Value(), w.p)
    ensures fresh(res) && res.Valid() && w.p > 0
    ensures w.form.Mont? || w.form.Plain? ==> IsPower(res.Value(), G.Value(), X.Value(), w.p)
    ensures w.form.Lossy? ==> Rep(w, res.Value(), X.Value())
  {
    hide Rep, Sound, Int.Valid, Int.Value, Pow, Rem, Table, Fits, IsPower;
    FitsFacts(w, r, P);
    var bits := CountBits(X);
    var win := WindowSize(bits);
    var M1 := new Int();
    res := new Int();
    if r.ByMontgomery? {
      Montgomery.CalcNormalization(res, P);
      Mul(G, res, M1);
      Mod(M1, P, M1);
      StartMont(w, P.used, G.Value(), res.Value(), M1.Value());
    } else {
      Set(res, 1);
      Mod(G, P, M1);
      StartPlain(w);
    }
    var U := BuildTable(M1, P, r, win, w);
    Slide(X, res, M1, U, P, r, win, w);
    ghost var v := res.Value();
    if r.ByMontgomery? {
      FinalRange(w, v, X.Value());
      Redux(res, P, r, w);
      EndMont(w, P.used, G.Value(), v, X.Value(), res.Value());
    } else if w.form.Plain? {
      EndPlain(w, G.Value(), v, X.Value());
    }
  }

  lemma FitsFacts(w: World, r: Reducer, P: Int)
    requires Fits(w, r, P)
    ensures Sound(w) && w.p > 0 && P.Value() == w.p && P.Valid() && w.form.Mont? == r.ByMontgomery?
    ensures w.form.Mont? ==> w.form.k == P.used && w.p > 1 && w.p % 2 == 1
    ensures r.ByBarrett? ==> r.mu != P
    ensures r.By2kL? ==> r.dl != P
  {
  }

  lemma FinalRange(w: World, v: int, e: nat)
    requires Sound(w) && w.form.Mont? && Rep(w, v, e)
    ensures 0 <= v < w.p * w.p
  {
    MulLe(w.p, 1, w.p);
  }

  lemma EndMont(w: World, k: nat, g: int, v: int, e: nat, y: int)
    requires Sound(w) && w.form == Mont(k) && w.g == Rem(g, w.p) && Rep(w, v, e) && Reduces(w, v, y)
    ensures IsPower(y, g, e, w.p)
  {
    MontEnd(w, k, v, e, y);
    SamePower(w, g, e);
  }

  // ----- s_mp_exptmod_fast -----

  /**
   The moduli on which mp_reduce_2k folds by the wrong digit: 2^p - n is B
   itself, whose low digit is 0, and n does not divide 2^p.
   */
  ghost predicate LosesDigit(p: int)
  {
    p > 0 && Pow(2, BitLen(p)) - p == B && p != B
  }

  /** The value of mp_reduce_2k_setup and what the fold then works modulo. */
  lemma FoldDigit(p: int, d: int)
    requires p > 1 && Pow(2, BitLen(p)) > p && d == Rem(Pow(2, BitLen(p)) - p, B)
    requires p < B || Reductions.NearPowerOfTwo(p, BitLen(p))
    ensures 0 <= d < B && d <= Pow(2, BitLen(p))
    ensures (Pow(2, BitLen(p)) - d) % p == 0 <==> !LosesDigit(p)
    ensures LosesDigit(p) ==> d == 0
  {
    hide Pow, BitLen, Rem;
    var q := Pow(2, BitLen(p));
    BitLenBounds(p);
    PowNext(2, BitLen(p) - 1);
    DistanceDigit(p, q, d);
  }

  lemma DistanceDigit(p: int, q: int, d: int)
    requires 1 < p < q <= 2 * p && d == Rem(q - p, B) && (p < B || q - p <= B)
    ensures 0 <= d <= q && ((q - d) % p == 0 <==> q - p != B || p == B) && (q - p == B && p != B ==> d == 0)
  {
    if q - p < B {
      ModSmall(q - p, B);
      DivModUnique(p, 1, 0, p);
    } else {
      DivModUnique(q - p, 1, 0, B);
      if p == B {
        DivModUnique(q, 2, 0, p);
      } else {
        DivModUnique(q, 1, B, p);
      }
    }
  }

  /** A base whose square the fold of a losing modulus drops entirely. */
  ghost predicate Vanishes(g: int, p: int)
    requires p > 0
  {
    Pow(2, BitLen(p)) > 0 && (Rem(g, p) * Rem(g, p)) % Pow(2, BitLen(p)) == 0
  }

  ghost function FoldWorld(g: int, p: int): World
    requires p > 0
  {
    World(if LosesDigit(p) then Lossy(BitLen(p)) else Plain, p, Rem(g, p))
  }

  /** What exponentiation yields on a losing modulus. */
  ghost predicate IsLostPower(y: int, g: int, e: nat, p: int)
    requires p > 0
  {
    && 0 <= y < p && Cong(y, Pow(g, e), B)
    && Pow(2, BitLen(p)) > 0 && LostRep(y, Rem(g, p), e, Pow(2, BitLen(p)), p)
  }

  /** s_mp_exptmod_fast: 0 Montgomery, 1 diminished radix, 2 the fold by a digit. */
  method ExptModFast(G: Int, X: Int, P: Int, Y: Int, redmode: int) returns (err: Err)
    requires G.Valid() && X.Valid() && P.Valid() && Y.Valid() && X.Value() >= 0 && P.Value() > 1 && 0 <= redmode <= 2
    requires redmode == 1 ==> P.used > 0 && Reductions.IsDr(P, B - P.dp[0])
    requires redmode == 2 ==> P.Value() < B || Reductions.NearPowerOfTwo(P.Value(), BitLen(P.Value()))
    modifies Y
    ensures err == if redmode == 0 && old(P.Value()) % 2 == 0 then VAL else OKAY
    ensures err != OKAY ==> unchanged(Y)
    ensures err == OKAY ==> Y.Valid()
    ensures err == OKAY && !(redmode == 2 && LosesDigit(old(P.Value()))) ==>
      IsPower(Y.Value(), old(G.Value()), old(X.Value()), old(P.Value()))
    ensures redmode == 2 && LosesDigit(old(P.Value())) ==>
      IsLostPower(Y.Value(), old(G.Value()), old(X.Value()), old(P.Value()))
  {
    hide Int.Value, Pow, Rem, IsPower, IsLostPower, LosesDigit, BitLen, Rep, Reductions.NearPowerOfTwo, Reductions.IsDr, Montgomery.IsRho;
    ghost var g, p := G.Value(), P.Value();
    var res;
    UsedPositive(P);
    if redmode == 0 {
      var rho;
      err, rho := Montgomery.Setup(P);
      if err != OKAY {
        return;
      }
      res := Exponentiate(G, X, P, ByMontgomery(rho), World(Mont(P.used), p, Rem(g, p)));
    } else if redmode == 1 {
      var k := Reductions.DrSetup(P);
      res := Exponentiate(G, X, P, ByDr(k), World(Plain, p, Rem(g, p)));
    } else {
      var d := Reductions.Setup2k(P);
      FoldDigit(p, d);
      FoldFits(g, p);
      res := Exponentiate(G, X, P, By2k(d), FoldWorld(g, p));
      FoldResult(g, p, res.Value(), X.Value());
    }
    Exch(res, Y);
    err := OKAY;
  }

  lemma UsedPositive(P: Int)
    requires P.Valid() && P.Value() > 0
    ensures P.used > 0 && |P.dp| > 0
  {
    MagBounds(P);
  }

  lemma FoldFits(g: int, p: int)
    requires p > 1
    ensures Sound(FoldWorld(g, p))
  {
    if LosesDigit(p) {
      LosingShape(p);
    }
  }

  /** A losing modulus is B times 2^(bits - 28) - 1. */
  lemma LosingShape(p: int)
    requires LosesDigit(p)
    ensures BitLen(p) >= 30 && Pow(2, BitLen(p)) == B * Pow(2, BitLen(p) - 28)
    ensures p == B * (Pow(2, BitLen(p) - 28) - 1) && p % B == 0 && p > B
  {
    hide Pow, BitLen;
    TooFewBits(p);
    var bits := BitLen(p);
    PowAdd(2, 28, bits - 28);
    PowTwo28();
    PowMonotone(2, 2, bits - 28);
    PowAdd(2, 1, 1);
    PowFirst(2);
    DivModUnique(p, Pow(2, bits - 28) - 1, 0, B);
  }

  lemma TooFewBits(p: int)
    requires LosesDigit(p)
    ensures BitLen(p) >= 30
  {
    hide Pow, BitLen;
    PowTwo28();
    PowAdd(2, 1, 28);
    PowFirst(2);
    if BitLen(p) <= 28 {
      PowMonotone(2, BitLen(p), 28);
    }
  }

  lemma FoldResult(g: int, p: int, y: int, e: nat)
    requires p > 1
    requires !LosesDigit(p) ==> IsPower(y, g, e, p)
    requires LosesDigit(p) ==> Rep(FoldWorld(g, p), y, e)
    ensures LosesDigit(p) ==> IsLostPower(y, g, e, p)
  {
    hide Pow, BitLen, LosesDigit, Cong, Rem;
    if LosesDigit(p) {
      LosingShape(p);
      LostModB(g, p, y, e);
    }
  }

  lemma LostModB(g: int, p: int, y: int, e: nat)
    requires p > 0 && p % B == 0 && Cong(y, Pow(Rem(g, p), e), B)
    ensures Cong(y, Pow(g, e), B)
  {
    hide Pow, Cong, Rem;
    RemIsCong(g, p);
    CongDivisor(Rem(g, p), g, B, p);
    CongPow(Rem(g, p), g, e, B);
    CongTrans(y, Pow(Rem(g, p), e), Pow(g, e), B);
  }

  lemma CongDivisor(a: int, b: int, m: int, p: int)
    requires m > 0 && p > 0 && p % m == 0 && Cong(a, b, p)
    ensures Cong(a, b, m)
  {
    DivModDef(p, m);
    CongFactor(a, b, m, p / m);
  }

  // ----- s_mp_exptmod -----

  /** s_mp_exptmod: 0 Barrett, 1 the fold by a large d. */
  method ExptModWide(G: Int, X: Int, P: Int, Y: Int, redmode: int) returns (err: Err)
    requires G.Valid() && X.Valid() && P.Valid() && Y.Valid() && X.Value() >= 0 && P.Value() >= 0
    requires redmode == 0 || (redmode == 1 && P.Value() > 0)
    modifies Y
    ensures err == if old(P.Value()) == 0 then VAL else OKAY
    ensures err != OKAY ==> unchanged(Y)
    ensures err == OKAY ==> Y.Valid() && IsPower(Y.Value(), old(G.Value()), old(X.Value()), old(P.Value()))
  {
    hide Int.Value, Pow, Rem, IsPower, BitLen, Barrett.IsMu;
    ghost var g, p := G.Value(), P.Value();
    var mu := new Int();
    var res;
    if redmode == 0 {
      err := Barrett.Setup(mu, P);
      if err != OKAY {
        return;
      }
      res := Exponentiate(G, X, P, ByBarrett(mu), World(Plain, p, Rem(g, p)));
    } else {
      Reductions.Setup2kL(P, mu);
      res := Exponentiate(G, X, P, By2kL(mu), World(Plain, p, Rem(g, p)));
    }
    Exch(res, Y);
    err := OKAY;
  }

  // ----- the choice of strategy -----

  /** The moduli mp_exptmod gets wrong: 2^b - 2^28 with 30 <= b <= 55. */
  ghost predicate BadModulus(p: int)
  {
    p > 0 && 30 <= BitLen(p) <= 55 && p == Pow(2, BitLen(p)) - B
  }

  lemma UsedBits(P: Int)
    requires P.Valid() && P.Value() > 0
    ensures P.used > 0 && 28 * (P.used - 1) < BitLen(P.Value()) <= 28 * P.used
  {
    hide Pow, BitLen;
    var v := P.Value();
    MagBounds(P);
    NonnegValue(P);
    BaseIsPowTwo(P.used);
    BaseIsPowTwo(P.used - 1);
    BitLenBounds(v);
    if BitLen(v) <= 28 * (P.used - 1) {
      PowMonotone(2, BitLen(v), 28 * (P.used - 1));
    }
    if BitLen(v) > 28 * P.used {
      PowMonotone(2, 28 * P.used, BitLen(v) - 1);
    }
  }

  /** The test of mp_reduce_is_2k_l. */
  ghost predicate MostlyOnes(P: Int)
    requires P.Valid()
    reads P
  {
    P.used == 1 || (P.used > 1 && Reductions.MaxDigits(P.dp[..P.used]) >= P.used / 2)
  }

  /** A diminished-radix modulus passes that test, so its own branch is never taken. */
  lemma DrIsMostlyOnes(P: Int)
    requires P.Valid() && P.used >= 2 && forall i :: 1 <= i < P.used ==> P.dp[i] == 0xFFF_FFFF
    ensures MostlyOnes(P)
  {
    Reductions.ManyMaxDigits(P.dp[..P.used], P.used - 1);
  }

  /** The digits of 2^b - B: a zero, then those of 2^(b-28) - 1. */
  lemma LosingDigits(P: Int)
    requires P.Valid() && P.used > 1 && P.Value() > 0 && BitLen(P.Value()) >= 28 && P.Value() == Pow(2, BitLen(P.Value())) - B
    ensures P.dp[0] == 0 && IsDigits(B, P.dp[1..P.used]) && Val(B, P.dp[1..P.used]) == Pow(2, BitLen(P.Value()) - 28) - 1
  {
    hide Pow, BitLen;
    var bits := BitLen(P.Value());
    DigitsUsed(P);
    var s := Dig(P);
    assert s[1..] == P.dp[1..P.used];
    PowAdd(2, 28, bits - 28);
    PowTwo28();
    DivModUnique(Val(B, s), Pow(2, bits - 28) - 1, 0, B);
    DivModUnique(Val(B, s), Val(B, s[1..]), s[0], B);
  }

  /** Of the moduli 2^b - B only those of two digits get past the test. */
  lemma ManyOnes(P: Int)
    requires P.Valid() && P.Value() > 0 && BitLen(P.Value()) >= 56 && P.Value() == Pow(2, BitLen(P.Value())) - B
    ensures MostlyOnes(P)
  {
    hide Pow, BitLen;
    var bits := BitLen(P.Value());
    UsedBits(P);
    LosingDigits(P);
    var t, n := P.dp[1..P.used], bits / 28 - 1;
    forall i | 1 <= i <= n
      ensures i < P.used && P.dp[..P.used][i] == 0xFFF_FFFF
    {
      Reductions.AllOnesDigits(t, bits - 28, i - 1);
    }
    Reductions.ManyMaxDigits(P.dp[..P.used], n);
  }

  lemma FewOnes(P: Int)
    requires P.Valid() && BadModulus(P.Value())
    ensures P.used == 2 && !MostlyOnes(P) && LosesDigit(P.Value())
  {
    hide Pow, BitLen;
    var bits := BitLen(P.Value());
    UsedBits(P);
    LosingDigits(P);
    var t := P.dp[1..2];
    ValSingle(B, P.dp[1]);
    assert t == [P.dp[1]];
    PowStrict(2, bits - 28, 28);
    PowTwo28();
    var s := P.dp[..2];
    assert s[..1][..0] == [];
    assert Reductions.MaxDigits(s) == Reductions.MaxDigits(s[..1]) == 0;
    PowAdd(2, 29, bits - 29);
    PowAdd(2, 1, 28);
    PowStrict(2, 29, bits);
    PowFirst(2);
  }

  /** On the moduli that reach the fold by a digit, those that lose it are the bad ones. */
  lemma LosingIsBad(P: Int)
    requires P.Valid() && P.Value() > 0
    ensures BadModulus(P.Value()) <==> LosesDigit(P.Value()) && !MostlyOnes(P)
  {
    hide Pow, MostlyOnes;
    var p := P.Value();
    if BadModulus(p) {
      FewOnes(P);
    } else if LosesDigit(p) && BitLen(p) >= 56 {
      ManyOnes(P);
    } else if LosesDigit(p) {
      TooFewBits(p);
    }
  }

  /** On every bad modulus there is a base whose square comes out as 0 and is not. */
  lemma BadModulusFails(p: int) returns (g: int)
    requires BadModulus(p)
    ensures 0 < g < p && Vanishes(g, p) && Rem(Pow(g, 2), p) != 0
    ensures IsLostPower(0, g, 2, p) && forall y :: IsLostPower(y, g, 2, p) ==> !IsPower(y, g, 2, p)
  {
    hide BitLen, Pow, LostRep;
    var bits := BitLen(p);
    var h := (bits + 1) / 2;
    g := Pow(2, h);
    PowTwo28();
    PowPositive(2, h);
    PowMonotone(2, h, 28);
    PowMonotone(2, 30, bits);
    PowAdd(2, 28, 2);
    PowAdd(2, h, h);
    PowFirst(2);
    PowAdd(2, 1, 1);
    PowAdd(2, bits, 2 * h - bits);
    var q, one := Pow(2, bits), Pow(2, 2 * h - bits);
    assert 1 <= one <= 2 by { PowFirst(2); assert 2 * h - bits <= 1; }
    SquareOf(g);
    assert g * g == q * one;
    DivModUnique(g * g, one, 0, q);
    ModSmall(g, p);
    DivModUnique(g * g, one, one * B, p);
    LostSquare(g, q, one, p);
  }

  lemma BadLoses(p: int)
    requires BadModulus(p)
    ensures LosesDigit(p)
  {
    hide BitLen, Pow;
    PowMonotone(2, 30, BitLen(p));
    PowAdd(2, 28, 2);
    PowAdd(2, 1, 1);
    PowFirst(2);
    PowTwo28();
  }

  lemma LostSquare(g: int, q: int, one: int, p: int)
    requires 0 < g < p < q == Pow(2, BitLen(p)) && p == q - B && p != B && Pow(g, 2) == g * g == q * one && one >= 1 && (g * g) % q == 0
    ensures IsLostPower(0, g, 2, p) && forall y :: IsLostPower(y, g, 2, p) ==> y == 0
  {
    hide BitLen, Pow, Reductions.Folded;
    LosingShape(p);
    ModSmall(g, p);
    EmptyFold(g * g, q, p);
    MulLe(q, 1, one);
    DivModUnique(g * g, Pow(2, BitLen(p) - 28) * one, 0, B) by { MulAssoc(B, Pow(2, BitLen(p) - 28), one); }
  }

  /**
   On a bad modulus the square of g comes out right if and only if
   2^(b - 28) - 1 divides what the fold drops, the quotient of g^2 by 2^b.
   */
  lemma SquareRightExactly(g: int, p: int, y: int)
    requires BadModulus(p) && 0 <= g < p && IsLostPower(y, g, 2, p)
    ensures g * g >= 0 && Pow(2, BitLen(p)) > 0 && Pow(2, BitLen(p) - 28) > 1
    ensures IsPower(y, g, 2, p) <==> (g * g / Pow(2, BitLen(p))) % (Pow(2, BitLen(p) - 28) - 1) == 0
  {
    hide BitLen, Pow, Reductions.Folded, LostRep, IsLostPower, Rem, Cong;
    BadLoses(p);
    LosingShape(p);
    SquareOf(g);
    LostSquareIs(g, p, y);
    MulLe(g, 0, g);
    var q, m, v := Pow(2, BitLen(p)), Pow(2, BitLen(p) - 28) - 1, g * g;
    var a, w := v / q, v % q;
    DivModDef(v, q);
    OneFold(v, q, p);
    CongIntro(y, w, if w < p then 0 else -1, p);
    WholeAndPart(v, q, p, a, w);
    SameResidue(y, v, w, B * a, p);
    MultipleOfBoth(a, m);
  }

  lemma LostSquareIs(g: int, p: int, y: int)
    requires p > 0 && 0 <= g < p && IsLostPower(y, g, 2, p)
    ensures g * g >= 0 && Pow(2, BitLen(p)) > 0 && y == Reductions.Folded(g * g, Pow(2, BitLen(p)), 0, p)
  {
    hide Pow, BitLen, Reductions.Folded;
    ModSmall(g, p);
  }

  lemma WholeAndPart(v: int, q: int, p: int, a: int, w: int)
    requires p > 0 && q == p + B && v == a * q + w
    ensures Cong(v, w + B * a, p)
  {
    assert v == (w + B * a) + a * p;
    CongIntro(v, w + B * a, a, p);
  }

  lemma SameResidue(f: int, v: int, w: int, t: int, p: int)
    requires 0 <= f < p && Cong(f, w, p) && Cong(v, w + t, p)
    ensures f == Rem(v, p) <==> t % p == 0
  {
    hide Rem, Cong;
    CongSelf(w, p);
    RemIsCong(v, p);
    ZeroIsCong(t, p);
    if t % p == 0 {
      CongAdd(w, w, t, 0, p);
      CongTrans(v, w + t, w, p);
      CongTrans(w, f, f, p) by { CongTrans(f, w, w, p); CongSelf(f, p); }
      CongTrans(f, w, v, p);
      RemFromCong(f, v, p);
    }
    if f == Rem(v, p) {
      CongTrans(f, v, w + t, p);
      CongTrans(w + t, f, w, p);
      CongAdd(w + t, w, w, w, p);
      assert w + t - w == t && w - w == 0;
    }
  }

  lemma ZeroIsCong(a: int, p: int)
    requires p > 0
    ensures a % p == 0 <==> Cong(a, 0, p)
  {
    ModSmall(0, p);
  }

  lemma OneFold(v: int, q: int, p: int)
    requires v >= 0 && B < p == q - B
    ensures Reductions.Folded(v, q, 0, p) == if v % q < p then v % q else v % q - p
  {
    hide Reductions.Folded, Reductions.Fold;
    var w := v % q;
    Reductions.FoldedStep(v, q, 0, p);
    assert Quot(v, q) * 0 == 0;
    if w >= p {
      SmallFold(w - p, q, p);
    }
  }

  lemma MultipleOfBoth(a: int, m: int)
    requires m > 0
    ensures (B * a) % (B * m) == 0 <==> a % m == 0
  {
    DivModDef(a, m);
    var q, r := a / m, a % m;
    assert B * a == q * (B * m) + B * r;
    DivModUnique(B * a, q, B * r, B * m);
  }

  lemma SquareOf(g: int)
    ensures Pow(g, 2) == g * g
  {
    PowFirst(g);
    assert Pow(g, 2) == g * Pow(g, 1);
  }

  /** What NonnegExptMod guarantees of its result. */
  ghost predicate Guaranteed(y: int, g: int, e: nat, p: int)
    requires p > 0
  {
    if BadModulus(p) then IsLostPower(y, g, e, p) else IsPower(y, g, e, p)
  }

  /** The moduli for which that is the power modulo p, whatever base and exponent. */
  lemma RightExactly(p: int)
    requires p > 0
    ensures (forall g, e: nat, y :: Guaranteed(y, g, e, p) ==> y == Rem(Pow(g, e), p)) <==> p != 1 && !BadModulus(p)
  {
    hide Pow, Rem, IsLostPower;
    if BadModulus(p) {
      var g := BadModulusFails(p);
      assert Guaranteed(0, g, 2, p);
    } else if p == 1 {
      assert Guaranteed(1, 0, 0, p);
    }
  }

  // ----- mp_exptmod -----

  /** Whether an odd negative power of a negative base has its sign lost. */
  predicate SignLost(g: int, x: int, p: int)
  {
    g < 0 && x < 0 && x % 2 == 1 && p % 2 == 1
  }

  /** y is the power of the inverse, up to the sign s. */
  ghost predicate IsInversePower(y: int, g: int, n: nat, p: int, s: int)
    requires p > 0
  {
    0 <= y < p && Cong(y * Pow(g, n), s, p)
  }

  /** What is left of that on a bad modulus: the inverse itself, and its powers modulo B. */
  ghost predicate IsLostInversePower(y: int, g: int, n: nat, p: int)
    requires p > 0
  {
    0 <= y < p && Cong(y * Pow(g, n), 1, B) && (n == 1 ==> Cong(y * g, 1, p))
  }

  lemma LostInversePower(y: int, c: int, g: int, n: nat, p: int)
    requires BadModulus(p) && IsLostPower(y, c, n, p) && 0 < c < p && Cong(c * g, 1, p)
    ensures IsLostInversePower(y, g, n, p)
  {
    hide Pow, Cong, BitLen;
    BadLoses(p);
    LosingShape(p);
    CongDivisor(c * g, 1, B, p);
    PowerTimesPower(y, c, g, n, B, 1);
    PowOne(n);
    ModSmall(c, p);
    PowFirst(c);
  }

  /** The two signs exclude each other: a lost sign is a wrong result. */
  lemma SignMatters(y: int, g: int, n: nat, p: int)
    requires p > 2 && IsInversePower(y, g, n, p, -1)
    ensures !IsInversePower(y, g, n, p, 1)
  {
    DivModUnique(-1, -1, p - 1, p);
    ModSmall(1, p);
  }

  /** y g^n where y is a power of c and c g is s. */
  lemma PowerTimesPower(y: int, c: int, g: int, n: nat, m: int, s: int)
    requires m > 0 && Cong(y, Pow(c, n), m) && Cong(c * g, s, m)
    ensures Cong(y * Pow(g, n), Pow(s, n), m)
  {
    hide Pow, Cong;
    CongSelf(Pow(g, n), m);
    CongMul(y, Pow(c, n), Pow(g, n), Pow(g, n), m);
    PowProduct(c, g, n);
    CongPow(c * g, s, n, m);
    CongTrans(y * Pow(g, n), Pow(c * g, n), Pow(s, n), m);
  }

  lemma InversePower(y: int, c: int, g: int, n: nat, p: int, s: int)
    requires p > 1 && y == Rem(Pow(c, n), p) && Cong(c * g, s, p) && (s == 1 || s == -1)
    ensures IsInversePower(y, g, n, p, if s == -1 && n % 2 == 1 then -1 else 1)
  {
    hide Pow, Cong, Rem;
    RemIsCong(Pow(c, n), p);
    PowerTimesPower(y, c, g, n, p, s);
    SignPower(n);
    PowOne(n);
  }

  lemma {:induction false} SignPower(n: nat)
    ensures Pow(-1, n) == if n % 2 == 1 then -1 else 1
  {
    if n > 0 {
      SignPower(n - 1);
    }
  }

  /** The inverse mp_invmod stores, with the sign it may have lost. */
  lemma StoredInverse(c: int, g: int, p: int)
    requires p > 1
    requires g >= 0 || p % 2 == 0 ==> InvMod.IsInverse(c, g, p)
    requires g < 0 && p % 2 == 1 ==> InvMod.IsInverse(-c, g, p)
    ensures Cong(c * g, if g < 0 && p % 2 == 1 then -1 else 1, p)
    ensures p % 2 == 0 ==> 0 < c < p
  {
    hide Cong;
    if g < 0 && p % 2 == 1 {
      DivModDef(g * -c, p);
      assert c * g == -(g * -c);
      CongIntro(c * g, -1, -((g * -c) / p), p);
    } else {
      DivModDef(g * c, p);
      CongIntro(c * g, 1, (g * c) / p, p);
    }
  }

  /** mp_exptmod. */
  method ExptMod(G: Int, X: Int, P: Int, Y: Int) returns (err: Err)
    requires G.Valid() && X.Valid() && P.Valid() && Y.Valid()
    modifies Y
    ensures err == OKAY || err == VAL
    ensures old(X.Value()) >= 0 ==> (err == OKAY <==> old(P.Value()) > 0)
    ensures old(X.Value()) < 0 ==> (err == OKAY <==> old(P.Value()) > 1 && Coprime(old(G.Value()), old(P.Value())))
    ensures err != OKAY ==> unchanged(Y)
    ensures err == OKAY ==> Y.Valid()
    ensures err == OKAY && old(X.Value()) >= 0 ==> Guaranteed(Y.Value(), old(G.Value()), old(X.Value()), old(P.Value()))
    ensures err == OKAY && old(X.Value()) < 0 && !BadModulus(old(P.Value())) ==>
      IsInversePower(Y.Value(), old(G.Value()), -old(X.Value()), old(P.Value()),
                     if SignLost(old(G.Value()), old(X.Value()), old(P.Value())) then -1 else 1)
    ensures err == OKAY && old(X.Value()) < 0 && BadModulus(old(P.Value())) ==>
      IsLostInversePower(Y.Value(), old(G.Value()), -old(X.Value()), old(P.Value()))
    decreases X.Value() < 0
  {
    hide *;
    if P.Value() < 0 {
      return VAL;
    }
    ghost var g, x, p := G.Value(), X.Value(), P.Value();
    if X.Value() < 0 {
      var tmpG := new Int();
      var tmpX := new Int();
      err := InvMod.InvMod(G, P, tmpG);
      if err != OKAY {
        return;
      }
      AbsOf(X, tmpX);
      ghost var c := tmpG.Value();
      StoredInverse(c, g, p);
      AbsNegative(x);
      err := ExptMod(tmpG, tmpX, P, Y);
      PowerOfInverse(Y.Value(), c, g, x, p);
      return;
    }
    err := NonnegExptMod(G, X, P, Y);
  }

  lemma AbsNegative(x: int)
    requires x < 0
    ensures Abs(x) == -x
  {
  }

  lemma PowerOfInverse(y: int, c: int, g: int, x: int, p: int)
    requires p > 1 && x < 0 && Guaranteed(y, c, -x, p) && Cong(c * g, if g < 0 && p % 2 == 1 then -1 else 1, p)
    requires p % 2 == 0 ==> 0 < c < p
    ensures !BadModulus(p) ==> IsInversePower(y, g, -x, p, if SignLost(g, x, p) then -1 else 1)
    ensures BadModulus(p) ==> IsLostInversePower(y, g, -x, p)
  {
    hide Pow, Cong, Rem, BitLen, IsLostPower, IsInversePower, IsLostInversePower;
    NegationParity(x);
    if BadModulus(p) {
      BadLoses(p);
      LosingIsEven(p);
      LostInversePower(y, c, g, -x, p);
    } else {
      InversePower(y, c, g, -x, p, if g < 0 && p % 2 == 1 then -1 else 1);
    }
  }

  /** mp_exptmod for an exponent that is not negative: the choice of the reduction. */
  method NonnegExptMod(G: Int, X: Int, P: Int, Y: Int) returns (err: Err)
    requires G.Valid() && X.Valid() && P.Valid() && Y.Valid() && X.Value() >= 0 && P.Value() >= 0
    modifies Y
    ensures err == if old(P.Value()) > 0 then OKAY else VAL
    ensures err != OKAY ==> unchanged(Y)
    ensures err == OKAY ==> Y.Valid() && Guaranteed(Y.Value(), old(G.Value()), old(X.Value()), old(P.Value()))
  {
    hide Int.Value, Pow, IsPower, IsLostPower, BadModulus, LosesDigit, BitLen, Reductions.NearPowerOfTwo, Reductions.IsDr, Reductions.MaxDigits;
    ghost var g, x, p := G.Value(), X.Value(), P.Value();
    ModulusShape(P);
    var large := Reductions.Is2kL(P);
    if large {
      err := ExptModWide(G, X, P, Y, 1);
      return;
    }
    var isDr := Reductions.IsDrModulus(P);
    if isDr {
      DrIsMostlyOnes(P);
    }
    var dr := if isDr then 1 else 0;
    if dr == 0 {
      var is2k := Reductions.Is2k(P);
      dr := if is2k then 2 else 0;
    }
    var even := IsEven(P);
    if !even || dr != 0 {
      err := ExptModFast(G, X, P, Y, dr);
    } else {
      err := ExptModWide(G, X, P, Y, 0);
    }
  }

  /** What the tests of mp_exptmod know about the modulus. */
  lemma ModulusShape(P: Int)
    requires P.Valid() && P.Value() >= 0
    ensures P.used == 0 <==> P.Value() == 0
    ensures P.used == 1 ==> MostlyOnes(P)
    ensures P.used > 1 ==> P.Value() > 1
    ensures P.Value() > 0 ==> (BadModulus(P.Value()) <==> LosesDigit(P.Value()) && !MostlyOnes(P))
    ensures BadModulus(P.Value()) ==> P.Value() > 0
    ensures LosesDigit(P.Value()) ==> P.Value() > 0 && Reductions.NearPowerOfTwo(P.Value(), BitLen(P.Value())) && P.Value() % 2 == 0
  {
    hide BitLen, Pow, Int.Value, Int.Valid, Int.Mag, LosesDigit;
    MagBounds(P);
    NonnegValue(P);
    if P.Value() > 0 {
      LosingIsBad(P);
    }
    if P.used > 1 {
      PowMonotone(B, 1, P.used - 1);
      PowFirst(B);
    }
    if LosesDigit(P.Value()) {
      LosingIsEven(P.Value());
    }
  }

  lemma LosingIsEven(p: int)
    requires LosesDigit(p)
    ensures p > 0 && Reductions.NearPowerOfTwo(p, BitLen(p)) && p % 2 == 0
  {
    BitLenBounds(p);
    var half := Pow(2, BitLen(p) - 1);
    assert Pow(2, BitLen(p)) == 2 * half;
  }
}
