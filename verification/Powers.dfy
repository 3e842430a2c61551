/**
 What the values inside the sliding-window exponentiation mean: each stands
 for a power of the base, in a form that depends on the reduction in force.
 */
module Powers {
  import opened Arith
  import opened Mp
  import opened Montgomery
  import opened Reductions

  /**
   Mont: residues carry a factor B^k.  Plain: ordinary residues.
   Lossy: the 2^bits fold run with d = 0 although 2^bits - p is B, not 0.
   */
  datatype Form = Mont(k: nat) | Plain | Lossy(bits: nat)

  /** An exponentiation modulo p of the base g. */
  datatype World = World(form: Form, p: int, g: int)

  ghost predicate Sound(w: World)
  {
    && 0 <= w.g < w.p
    && (!w.form.Plain? ==> w.p > 1)
    && (w.form.Mont? ==> w.p % 2 == 1)
    && (w.form.Lossy? ==> w.form.bits >= 28 && w.p == Pow(2, w.form.bits) - B && w.p % B == 0)
  }

  /** What one reduction makes of x. */
  ghost predicate Reduces(w: World, x: int, r: int)
  {
    match w.form
    case Mont(k) => IsReduced(r, x, w.p, k)
    case Plain => w.p > 0 && r == Rem(x, w.p)
    case Lossy(bits) => w.p > 0 && x >= 0 && Pow(2, bits) > 0 && r == Folded(x, Pow(2, bits), 0, w.p)
  }

  /**
   What the lossy fold keeps of the e-th power of g: all of it modulo B, the
   power itself while it is below p, its exact fold at e = 2, and nothing of a
   base whose square is a multiple of q.
   */
  ghost predicate LostRep(v: int, g: int, e: nat, q: int, p: int)
    requires p > 0 && q > 0 && g >= 0
  {
    && Cong(v, Pow(g, e), B)
    && (Pow(g, e) < p ==> v == Pow(g, e))
    && (e == 2 ==> g * g >= 0 && v == Folded(g * g, q, 0, p))
    && (e >= 2 && (g * g) % q == 0 ==> v == 0)
  }

  /** v stands for the e-th power of the base; modulo 1 the power 0 may still be written 1. */
  ghost predicate Rep(w: World, v: int, e: nat)
  {
    && 0 <= v && (v < w.p || (w.p == 1 == v && e == 0 && w.form.Plain?))
    && match w.form
       case Mont(k) => Cong(v, Pow(w.g, e) * Pow(B, k), w.p)
       case Plain => Cong(v, Pow(w.g, e), w.p)
       case Lossy(bits) => w.g >= 0 && Pow(2, bits) > 0 && LostRep(v, w.g, e, Pow(2, bits), w.p)
  }

  /** Multiplying and reducing adds the exponents. */
  lemma RepMul(w: World, a: int, e: nat, b: int, f: nat, c: int)
    requires Sound(w) && Rep(w, a, e) && Rep(w, b, f) && Reduces(w, a * b, c)
    ensures Rep(w, c, e + f)
  {
    match w.form
    case Mont(k) =>
      MontMul(w, k, a, e, b, f, c);
    case Plain =>
      PowAdd(w.g, e, f);
      CongMul(a, Pow(w.g, e), b, Pow(w.g, f), w.p);
      RemIsCong(a * b, w.p);
    case Lossy(bits) =>
      LossyMul(w, bits, a, e, b, f, c);
  }

  lemma MontMul(w: World, k: nat, a: int, e: nat, b: int, f: nat, c: int)
    requires Sound(w) && w.form == Mont(k) && Rep(w, a, e) && Rep(w, b, f) && IsReduced(c, a * b, w.p, k)
    ensures Rep(w, c, e + f)
  {
    hide Pow;
    var x, y, r, p := Pow(w.g, e), Pow(w.g, f), Pow(B, k), w.p;
    PowAdd(w.g, e, f);
    BaseIsPowTwo(k);
    CongMul(a, x * r, b, y * r, p);
    MulSwap(x, r, y, r);
    MulAssoc(x * y, r, r);
    CancelPowTwo(c, (x * y) * r, 28 * k, p);
  }

  lemma LossyMul(w: World, bits: nat, a: int, e: nat, b: int, f: nat, c: int)
    requires Sound(w) && w.form == Lossy(bits) && Rep(w, a, e) && Rep(w, b, f) && Reduces(w, a * b, c)
    ensures Rep(w, c, e + f)
  {
    hide Pow, Folded, Cong, LostRep;
    var q := Pow(2, bits);
    LossyBase(w, bits);
    LossyCong(a, e, b, f, c, w.g, q, w.p);
    LossySmall(a, e, b, f, c, w.g, q, w.p);
    LossySquare(a, e, b, f, c, w.g, q, w.p);
    LossyNothing(a, e, b, f, c, w.g, q, w.p);
    LostRepFrom(c, w.g, e + f, q, w.p);
  }

  lemma LossyBase(w: World, bits: nat)
    requires Sound(w) && w.form == Lossy(bits)
    ensures Pow(2, bits) > w.p && Pow(2, bits) % B == 0
  {
    hide Pow;
    PowAdd(2, 28, bits - 28);
    PowTwo28();
    DivModUnique(Pow(2, bits), Pow(2, bits - 28), 0, B);
  }

  lemma LostRepFrom(v: int, g: int, e: nat, q: int, p: int)
    requires p > 0 && q > 0 && g >= 0 && Cong(v, Pow(g, e), B) && (Pow(g, e) < p ==> v == Pow(g, e))
    requires e == 2 ==> g * g >= 0 && v == Folded(g * g, q, 0, p)
    requires e >= 2 && (g * g) % q == 0 ==> v == 0
    ensures LostRep(v, g, e, q, p)
  {
  }

  lemma LossyCong(a: int, e: nat, b: int, f: nat, c: int, g: int, q: int, p: int)
    requires 0 < p < q && p % B == 0 && q % B == 0 && g >= 0 && a * b >= 0
    requires LostRep(a, g, e, q, p) && LostRep(b, g, f, q, p) && c == Folded(a * b, q, 0, p)
    ensures Cong(c, Pow(g, e + f), B)
  {
    hide Pow, Folded;
    FoldedKeeps(a * b, q, 0, p, B);
    CongMul(a, Pow(g, e), b, Pow(g, f), B);
    PowAdd(g, e, f);
  }

  lemma LossySmall(a: int, e: nat, b: int, f: nat, c: int, g: int, q: int, p: int)
    requires 0 < p < q && 0 <= g < p && 0 <= a && 0 <= b && a * b >= 0
    requires LostRep(a, g, e, q, p) && LostRep(b, g, f, q, p) && c == Folded(a * b, q, 0, p)
    ensures Pow(g, e + f) < p ==> c == Pow(g, e + f)
  {
    hide Folded, Cong, Pow;
    if Pow(g, e + f) < p {
      PowAdd(g, e, f);
      if g == 0 {
        ZeroPower(e);
        ZeroPower(f);
        ZeroPower(e + f);
      } else {
        PowPositive(g, e);
        PowPositive(g, f);
        MulLe(Pow(g, e), 1, Pow(g, f));
        MulLe(Pow(g, f), 1, Pow(g, e));
      }
      SmallFold(a * b, q, p);
    }
  }

  lemma ZeroPower(e: nat)
    ensures Pow(0, e) == if e == 0 then 1 else 0
  {
  }

  lemma LossySquare(a: int, e: nat, b: int, f: nat, c: int, g: int, q: int, p: int)
    requires 1 < p < q && 0 <= g < p && 0 <= a < p && 0 <= b < p && a * b >= 0
    requires LostRep(a, g, e, q, p) && LostRep(b, g, f, q, p) && c == Folded(a * b, q, 0, p)
    ensures e + f == 2 ==> g * g >= 0 && c == Folded(g * g, q, 0, p)
  {
    hide Folded, Cong, Pow;
    PowFirst(g);
    if e == 2 && f == 0 {
      SmallFold(a, q, p);
    } else if f == 2 && e == 0 {
      SmallFold(b, q, p);
    }
  }

  lemma LossyNothing(a: int, e: nat, b: int, f: nat, c: int, g: int, q: int, p: int)
    requires 1 < p < q && 0 <= g < p && a * b >= 0
    requires LostRep(a, g, e, q, p) && LostRep(b, g, f, q, p) && c == Folded(a * b, q, 0, p)
    ensures e + f >= 2 && (g * g) % q == 0 ==> c == 0
  {
    hide Folded, Cong, Pow;
    PowFirst(g);
    if e + f >= 2 && (g * g) % q == 0 {
      if e >= 2 || f >= 2 {
        assert a * b == 0;
        SmallFold(0, q, p);
      } else {
        EmptyFold(g * g, q, p);
      }
    }
  }

  lemma EmptyFold(v: int, q: int, p: int)
    requires q > 0 && v >= 0 && p > 0 && v % q == 0
    ensures Folded(v, q, 0, p) == 0
  {
    assert Fold(v, q, 0) == 0 + 0 * (v / q);
  }

  lemma SmallFold(v: int, q: int, p: int)
    requires 0 <= v < p < q
    ensures Folded(v, q, 0, p) == v
  {
    ModSmall(v, q);
    assert Fold(v, q, 0) == v + 0 * 0;
  }

  /** A last reduction takes the factor B^k off again. */
  lemma MontEnd(w: World, k: nat, v: int, e: nat, r: int)
    requires Sound(w) && w.form == Mont(k) && Rep(w, v, e) && IsReduced(r, v, w.p, k)
    ensures r == Rem(Pow(w.g, e), w.p)
  {
    hide Pow;
    BaseIsPowTwo(k);
    CancelPowTwo(r, Pow(w.g, e), 28 * k, w.p);
    RemFromCong(r, Pow(w.g, e), w.p);
  }
}
