/**
 Modular exponentiation: the table of powers, the sliding window over any of
 the reductions.
 */
module Sliding {
  import opened Arith
  import opened Digits
  import opened Mp
  import opened Multiply
  import opened Powers
  import opened Window
  import Montgomery
  import Reductions
  import Barrett

  // ----- the reduction in force -----

  /** The reduction routine together with its precomputed value. */
  datatype Reducer =
    | ByMontgomery(rho: int)
    | ByDr(k: int)
    | By2k(d: int)
    | ByBarrett(mu: Int)
    | By2kL(dl: Int)

  /** The precomputed value belongs to the modulus, and the routine acts as `w` says. */
  ghost predicate Fits(w: World, r: Reducer, P: Int)
    reads P, if r.ByBarrett? then {r.mu} else {}, if r.By2kL? then {r.dl} else {}
  {
    && P.Valid() && P.Value() == w.p && Sound(w)
    && match r
       case ByMontgomery(rho) => w.form == Mont(P.used) && P.used > 0 && Montgomery.IsRho(rho, P.dp[0])
       case ByDr(k) => w.form == Plain && P.used > 0 && Reductions.IsDr(P, k)
       case By2k(d) =>
         && 0 <= d < B && w.p > 0
         && ((w.form == Plain && d <= Pow(2, BitLen(w.p)) && (Pow(2, BitLen(w.p)) - d) % w.p == 0) || (w.form == Lossy(BitLen(w.p)) && d == 0))
       case ByBarrett(mu) => w.form == Plain && mu != P && mu.Valid() && Barrett.IsMu(mu.Value(), w.p, P.used)
       case By2kL(d) => w.form == Plain && d != P && d.Valid() && w.p > 0 && d.Value() == Pow(2, BitLen(w.p)) - w.p
  }

  /** redux(x, P, ...): the function pointer of the source. */
  method Redux(x: Int, P: Int, r: Reducer, ghost w: World)
    requires Apart(x, P, r) && x.Valid() && Fits(w, r, P) && 0 <= x.Value() && (x.Value() < w.p * w.p || x.Value() <= w.p == 1)
    modifies x
    ensures x.Valid() && Reduces(w, old(x.Value()), x.Value())
  {
    hide Val, Pow, BitLen, Rem, Int.Value, Int.Mag, Montgomery.IsReduced, Montgomery.IsRho, Barrett.IsMu, Reductions.Folded, Reductions.IsDr;
    InputRange(P, w.p, x.Value());
    match r
    case ByMontgomery(rho) =>
      if 2 * P.used + 1 < WARRAY && P.used < MAXFAST {
        var err := Montgomery.ReduceFast(x, P, rho);
      } else {
        Montgomery.Reduce(x, P, rho);
      }
    case ByDr(k) =>
      Reductions.DrReduce(x, P, k);
    case By2k(d) =>
      FoldBase(w.p, d, x.Value());
      Reductions.Reduce2k(x, P, d);
    case ByBarrett(mu) =>
      ghost var n := Barrett.Reduce(x, P, mu);
    case By2kL(d) =>
      FoldBase(w.p, d.Value(), x.Value());
      Reductions.Reduce2kL(x, P, d);
  }

  lemma InputRange(P: Int, p: int, x: int)
    requires P.Valid() && P.Value() == p && p > 0 && 0 <= x && (x < p * p || x <= p == 1)
    ensures P.used > 0 && x < Pow(B, 2 * P.used) && (p > 1 ==> x < p * Pow(B, P.used))
  {
    MagBounds(P);
    var q := Pow(B, P.used);
    PowAdd(B, P.used, P.used);
    PowMonotone(B, 1, 2 * P.used);
    PowFirst(B);
    if x < p * p {
      MulLe(p, p, q);
      MulLe(q, p, q);
    }
  }

  lemma FoldBase(p: int, d: int, x: int)
    requires p > 0 && x >= 0
    ensures Pow(2, BitLen(p)) > p
    ensures 0 <= d <= Pow(2, BitLen(p)) && (Pow(2, BitLen(p)) - d) % p == 0 ==>
      Reductions.Folded(x, Pow(2, BitLen(p)), d, p) == Rem(x, p)
    ensures d == Pow(2, BitLen(p)) - p ==> 0 <= d && (Pow(2, BitLen(p)) - d) % p == 0
  {
    BitLenBounds(p);
    DivModUnique(p, 1, 0, p);
    if 0 <= d <= Pow(2, BitLen(p)) && (Pow(2, BitLen(p)) - d) % p == 0 {
      Reductions.FoldedIsRem(x, Pow(2, BitLen(p)), d, p);
    }
  }

  /** The objects a step may write are none of those the reduction reads. */
  predicate Apart(c: Int, P: Int, r: Reducer)
  {
    c != P && (r.ByBarrett? ==> c != r.mu) && (r.By2kL? ==> c != r.dl)
  }

  /** mp_mul followed by redux. */
  method MulRedux(a: Int, b: Int, c: Int, P: Int, r: Reducer, ghost w: World, ghost e: nat, ghost f: nat)
    requires Apart(c, P, r) && a.Valid() && b.Valid() && c.Valid() && Fits(w, r, P)
    requires Rep(w, a.Value(), e) && Rep(w, b.Value(), f)
    modifies c
    ensures c.Valid() && Rep(w, c.Value(), e + f)
  {
    hide Rep, Fits, Sound, Reduces, Int.Valid, Int.Value;
    ghost var x, y := a.Value(), b.Value();
    RepRange(w, x, e, y, f);
    Mul(a, b, c);
    Redux(c, P, r, w);
    FitsSound(w, r, P);
    RepMul(w, x, e, y, f, c.Value());
  }

  /** mp_sqr followed by redux. */
  method SqrRedux(c: Int, P: Int, r: Reducer, ghost w: World, ghost e: nat)
    requires Apart(c, P, r) && c.Valid() && Fits(w, r, P) && Rep(w, c.Value(), e)
    modifies c
    ensures c.Valid() && Rep(w, c.Value(), 2 * e)
  {
    hide Rep, Fits, Sound, Reduces, Int.Valid, Int.Value;
    ghost var x := c.Value();
    RepRange(w, x, e, x, e);
    Sqr(c, c);
    Redux(c, P, r, w);
    FitsSound(w, r, P);
    RepMul(w, x, e, x, e, c.Value());
  }

  lemma RepRange(w: World, x: int, e: nat, y: int, f: nat)
    requires Rep(w, x, e) && Rep(w, y, f)
    ensures 0 <= x * y && (x * y < w.p * w.p || x * y <= w.p == 1)
  {
    MulLe(y, 0, x);
    if w.p != 1 {
      FactorsFit(x, y, w.p, w.p);
    } else {
      MulLe(x, y, 1);
    }
  }

  lemma FitsSound(w: World, r: Reducer, P: Int)
    requires Fits(w, r, P)
    ensures Sound(w)
  {
  }

  /** Squares c n times. */
  method SquareTimes(c: Int, n: nat, P: Int, r: Reducer, ghost w: World, ghost e: nat)
    requires Apart(c, P, r) && c.Valid() && Fits(w, r, P) && Rep(w, c.Value(), e)
    modifies c
    ensures e * Pow(2, n) >= 0 && c.Valid() && Rep(w, c.Value(), e * Pow(2, n))
  {
    hide Rep, Fits, Sound, Reduces, Int.Valid, Int.Value, Pow;
    ghost var f: nat := e;
    PowFirst(2);
    for x := 0 to n
      invariant c.Valid() && Fits(w, r, P) && f == e * Pow(2, x) && Rep(w, c.Value(), f)
    {
      SqrRedux(c, P, r, w, f);
      TwiceScaled(e, x);
      f := 2 * f;
    }
  }

  lemma TwiceScaled(e: int, x: nat)
    ensures 2 * (e * Pow(2, x)) == e * Pow(2, x + 1)
  {
    PowNext(2, x);
  }

  // ----- the table -----

  /** The upper half of the table: entry i stands for the power first + i. */
  ghost predicate Table(w: World, U: seq<Int>, first: nat)
    reads U
  {
    forall i :: 0 <= i < |U| ==> U[i].Valid() && Rep(w, U[i].Value(), first + i)
  }

  /** M[2^(winsize-1)] .. M[2^winsize - 1]: the window's powers of M[1]. */
  method BuildTable(M1: Int, P: Int, r: Reducer, winsize: nat, ghost w: World) returns (U: seq<Int>)
    requires winsize > 0 && M1.Valid() && Fits(w, r, P) && Rep(w, M1.Value(), 1)
    ensures fresh(U) && Pow(2, winsize - 1) > 0 && |U| == Pow(2, winsize - 1) && Table(w, U, Pow(2, winsize - 1))
  {
    hide Rep, Fits, Sound, Reduces, Int.Valid, Int.Value, Pow;
    var m := new Int();
    Copy(M1, m);
    SquareTimes(m, winsize - 1, P, r, w, 1);
    var half := Pow(2, winsize - 1);
    PowPositive(2, winsize - 1);
    U := [m];
    for x := 1 to half
      invariant fresh(U) && |U| == x && Table(w, U, half)
      invariant M1.Valid() && Fits(w, r, P) && Rep(w, M1.Value(), 1)
    {
      var mx := new Int();
      MulRedux(U[x - 1], M1, mx, P, r, w, half + x - 1, 1);
      U := U + [mx];
    }
  }

  // ----- the window machine -----

  /** The mode variable, the window and what the result carries, for the exponent bits read so far. */
  ghost predicate Machine(mode: int, bitcpy: int, bitbuf: int, win: nat, pre: int, done: int, top: int)
  {
    match mode
    case 0 => pre == 0 && done == 0 && bitcpy == 0 && bitbuf == 0
    case 1 => pre == done && bitcpy == 0 && bitbuf == 0 && done >= 0
    case _ => mode == 2 && 0 < bitcpy < win && Held(pre, done, bitcpy, top) && bitbuf == top * Pow(2, win - bitcpy)
  }

  /** A bit that enters the window. */
  lemma MachinePush(mode: int, bitcpy: int, bitbuf: int, win: nat, pre: int, done: int, top: int, y: int) returns (done': int, top': int)
    requires win > 1 && Machine(mode, bitcpy, bitbuf, win, pre, done, top) && 0 <= y <= 1 && (mode != 2 ==> y == 1)
    ensures 0 <= bitcpy < win && Pow(2, win - bitcpy - 1) > 0 && done' == done
    ensures Held(2 * pre + y, done', bitcpy + 1, top')
    ensures bitbuf + y * Pow(2, win - bitcpy - 1) == top' * Pow(2, win - bitcpy - 1)
  {
    done' := done;
    PowPositive(2, win - 1);
    if mode == 2 {
      HeldNext(pre, done, bitcpy, top, y);
      PowPositive(2, win - bitcpy);
      RegisterNext(win, bitcpy, top, y);
      top' := 2 * top + y;
    } else {
      HeldFirst(pre);
      top' := 1;
    }
  }

  /** A full window: its register is a table index and completes the exponent. */
  lemma FullWindow(pre: int, done: int, win: nat, top: int, bitbuf: int)
    requires win > 0 && Held(pre, done, win, top) && bitbuf == top * Pow(2, win - win)
    ensures Pow(2, win - 1) <= bitbuf < 2 * Pow(2, win - 1) && pre == done * Pow(2, win) + bitbuf && done >= 0
  {
    PowNext(2, win - 1);
    assert Pow(2, 0) == 1;
  }

  /** Square winsize times, multiply by the table entry. */
  method Flush(res: Int, U: seq<Int>, bitbuf: int, P: Int, r: Reducer, win: nat, ghost w: World, ghost done: nat)
    requires win > 0 && Apart(res, P, r) && res !in U && res.Valid() && Fits(w, r, P) && Rep(w, res.Value(), done)
    requires |U| == Pow(2, win - 1) && Table(w, U, Pow(2, win - 1)) && Pow(2, win - 1) <= bitbuf < 2 * Pow(2, win - 1)
    modifies res
    ensures done * Pow(2, win) >= 0 && res.Valid() && Rep(w, res.Value(), done * Pow(2, win) + bitbuf)
  {
    hide Rep, Fits, Sound, Reduces, Int.Valid, Int.Value, Pow;
    SquareTimes(res, win, P, r, w, done);
    var u := U[bitbuf - Pow(2, win - 1)];
    assert Rep(w, u.Value(), bitbuf);
    MulRedux(res, u, res, P, r, w, done * Pow(2, win), bitbuf);
  }

  /** bitbuf & (1 << winsize), as a bit. */
  function WindowBit(bitbuf: int, win: nat): (y: int)
    ensures 0 <= y <= 1
  {
    PowPositive(2, win);
    (bitbuf / Pow(2, win)) % 2
  }

  /** The bits left in the window when the exponent ends. */
  method Drain(res: Int, M1: Int, bitbuf0: int, bitcpy: nat, P: Int, r: Reducer, win: nat, ghost w: World, ghost pre: int, ghost done: nat, ghost top: int)
    requires Apart(res, P, r) && res != M1 && res.Valid() && M1.Valid() && Fits(w, r, P)
    requires Rep(w, res.Value(), done) && Rep(w, M1.Value(), 1) && pre >= 0
    requires 0 < bitcpy < win && Held(pre, done, bitcpy, top) && bitbuf0 == top * Pow(2, win - bitcpy)
    modifies res
    ensures res.Valid() && Rep(w, res.Value(), pre)
  {
    hide Rep, Fits, Sound, Reduces, Int.Valid, Int.Value, Pow, Held, Drained, WindowBit;
    var bitbuf := bitbuf0;
    ghost var e: nat := done;
    DrainStart(pre, done, bitcpy, top);
    for x := 0 to bitcpy
      invariant res.Valid() && Fits(w, r, P) && Rep(w, res.Value(), e)
      invariant Drained(e, done, bitcpy, top, x) && bitbuf == top * Pow(2, win - bitcpy + x)
    {
      SqrRedux(res, P, r, w, e);
      DrainBit(e, done, bitcpy, top, x, win);
      TwiceScaled(top, win - bitcpy + x);
      bitbuf := bitbuf * 2;
      if WindowBit(bitbuf, win) != 0 {
        MulRedux(res, M1, res, P, r, w, 2 * e, 1);
        e := 2 * e + 1;
      } else {
        e := 2 * e;
      }
    }
    DrainEnd(e, pre, done, bitcpy, top);
  }

  /** After x steps of draining n bits: done followed by the first x of them. */
  ghost predicate Drained(e: int, done: int, n: nat, top: int, x: nat)
  {
    x <= n && Pow(2, n - x) > 0 && e == done * Pow(2, x) + top / Pow(2, n - x)
  }

  lemma DrainStart(pre: int, done: int, n: nat, top: int)
    requires Held(pre, done, n, top)
    ensures Drained(done, done, n, top, 0) && top >= 0
  {
    PowPositive(2, n);
    PowPositive(2, n - 1);
    ModSmall(top, Pow(2, n));
  }

  lemma DrainBit(e: int, done: int, n: nat, top: int, x: nat, win: nat)
    requires x < n < win && Drained(e, done, n, top, x) && top >= 0
    ensures Drained(2 * e + WindowBit(top * Pow(2, win - n + x + 1), win), done, n, top, x + 1)
  {
    hide Pow;
    var k := n - x - 1;
    PowPositive(2, k);
    PowPositive(2, win);
    PowPositive(2, win - k);
    PowNext(2, k);
    PowNext(2, x);
    PowAdd(2, k, win - k);
    DivDiv(top, Pow(2, k), 2);
    var q := top / Pow(2, k);
    ScaledQuotient(top, Pow(2, k), Pow(2, win - k));
    DivModDef(q, 2);
    assert 2 * (done * Pow(2, x)) == done * (2 * Pow(2, x));
  }

  lemma ScaledQuotient(v: int, p: int, s: int)
    requires p > 0 && s > 0
    ensures p * s > 0 && (v * s) / (p * s) == v / p
  {
    MulPositive(p, s);
    DivModDef(v, p);
    var q, r := v / p, v % p;
    assert v * s == q * (p * s) + r * s by { assert (q * p + r) * s == (q * p) * s + r * s; MulAssoc(q, p, s); }
    MulLe(s, 0, r);
    MulLe(s, r, p - 1);
    assert (p - 1) * s == p * s - s;
    DivModUnique(v * s, q, r * s, p * s);
  }

  lemma DrainEnd(e: int, pre: int, done: int, n: nat, top: int)
    requires Held(pre, done, n, top) && Drained(e, done, n, top, n)
    ensures e == pre
  {
    assert Pow(2, 0) == 1;
    DivModUnique(top, top, 0, 1);
  }

  /** One exponent bit y through the mode machine. */
  method Step(y: int, mode: int, bitcpy: int, bitbuf: int, res: Int, U: seq<Int>, P: Int, r: Reducer, win: nat,
              ghost w: World, ghost pre: int, ghost done: nat, ghost top: int)
    returns (mode': int, bitcpy': int, bitbuf': int, ghost done': nat, ghost top': int)
    requires win > 1 && 0 <= y <= 1 && Apart(res, P, r) && res !in U && res.Valid() && Fits(w, r, P)
    requires |U| == Pow(2, win - 1) && Table(w, U, Pow(2, win - 1))
    requires Machine(mode, bitcpy, bitbuf, win, pre, done, top) && Rep(w, res.Value(), done)
    modifies res
    ensures res.Valid() && Machine(mode', bitcpy', bitbuf', win, 2 * pre + y, done', top') && Rep(w, res.Value(), done')
    ensures mode' == 0 ==> mode == 0 && res.Value() == old(res.Value())
    ensures mode' != 0 ==> mode != 0 || y == 1
  {
    hide Rep, Fits, Sound, Reduces, Int.Valid, Int.Value, Pow, Held;
    mode', bitcpy', bitbuf', done', top' := mode, bitcpy, bitbuf, done, top;
    if mode == 0 && y == 0 {
      return;
    }
    if mode == 1 && y == 0 {
      SqrRedux(res, P, r, w, done);
      done' := 2 * done;
      return;
    }
    ghost var d, t := MachinePush(mode, bitcpy, bitbuf, win, pre, done, top, y);
    top' := t;
    bitcpy' := bitcpy + 1;
    bitbuf' := bitbuf + y * Pow(2, win - bitcpy');
    mode' := 2;
    if bitcpy' == win {
      FullWindow(2 * pre + y, done, win, t, bitbuf');
      Flush(res, U, bitbuf', P, r, win, w, done);
      done' := 2 * pre + y;
      bitcpy', bitbuf', mode' := 0, 0, 1;
    }
  }

  /** The main loop, from the table to the result. */
  method Slide(X: Int, res: Int, M1: Int, U: seq<Int>, P: Int, r: Reducer, win: nat, ghost w: World)
    requires win > 1 && Apart(res, P, r) && res !in U && res != M1 && res != X
    requires X.Valid() && X.Value() >= 0 && res.Valid() && M1.Valid() && Fits(w, r, P)
    requires |U| == Pow(2, win - 1) && Table(w, U, Pow(2, win - 1))
    requires Rep(w, res.Value(), 0) && Rep(w, M1.Value(), 1)
    modifies res
    ensures res.Valid() && Rep(w, res.Value(), X.Value())
    ensures X.Value() == 0 ==> res.Value() == old(res.Value())
  {
    hide Rep, Fits, Sound, Reduces, Int.Valid, Int.Value, Pow, Held, Machine, Reading, NextBit, ShiftBuf, Val, Rem, Quot;
    var mode, bitcnt, buf, digidx, bitcpy, bitbuf := 0, 1, 0, X.used - 1, 0, 0;
    ghost var pre, done: nat, top, rest := 0, 0, 0, 0;
    DigitsUsed(X);
    ReadingStart(Dig(X));
    MachineStart(win);
    while true
      invariant 1 <= bitcnt <= 29 && -1 <= digidx < X.used
      invariant Reading(Dig(X), digidx + 1, pre, bitcnt - 1, rest, buf)
      invariant Machine(mode, bitcpy, bitbuf, win, pre, done, top) && res.Valid() && Rep(w, res.Value(), done)
      invariant if mode == 0 then res.Value() == old(res.Value()) else pre > 0
      decreases digidx + 1, bitcnt
    {
      bitcnt := bitcnt - 1;
      if bitcnt == 0 {
        NothingUnread(Dig(X), digidx + 1, pre, rest, buf);
        if digidx == -1 {
          break;
        }
        LoadDigit(Dig(X), digidx + 1, pre, buf);
        buf := X.dp[digidx];
        rest := buf;
        digidx := digidx - 1;
        bitcnt := 28;
      }
      ReadBit(Dig(X), digidx + 1, pre, bitcnt, rest, buf);
      MachineEnd(mode, bitcpy, bitbuf, win, pre, done, top);
      var y := NextBit(buf);
      rest := Rem(rest, Pow(2, bitcnt - 1));
      buf := ShiftBuf(buf);
      mode, bitcpy, bitbuf, done, top := Step(y, mode, bitcpy, bitbuf, res, U, P, r, win, w, pre, done, top);
      pre := 2 * pre + y;
    }
    ReadingEnd(Dig(X), pre, rest, buf);
    MachineEnd(mode, bitcpy, bitbuf, win, pre, done, top);
    if mode == 2 && bitcpy > 0 {
      Drain(res, M1, bitbuf, bitcpy, P, r, win, w, pre, done, top);
    }
  }

  lemma DigitsUsed(X: Int)
    requires X.Valid() && X.Value() >= 0
    ensures |Dig(X)| == X.used <= |X.dp| && IsDigits(B, Dig(X)) && Val(B, Dig(X)) == X.Value()
    ensures forall i :: 0 <= i < X.used ==> Dig(X)[i] == X.dp[i]
  {
    DigVal(X);
    NonnegValue(X);
  }

  lemma MachineStart(win: nat)
    ensures Machine(0, 0, 0, win, 0, 0, 0)
  {
  }

  lemma NothingUnread(x: seq<int>, d: nat, pre: int, rest: int, buf: int)
    requires Reading(x, d, pre, 0, rest, buf)
    ensures rest == 0
  {
    assert Pow(2, 0) == 1;
  }

  lemma MachineEnd(mode: int, bitcpy: int, bitbuf: int, win: nat, pre: int, done: int, top: int)
    requires Machine(mode, bitcpy, bitbuf, win, pre, done, top)
    ensures pre >= 0 || mode == 2
    ensures mode == 2 ==> 0 < bitcpy < win && Held(pre, done, bitcpy, top) && bitbuf == top * Pow(2, win - bitcpy) && pre >= 0
    ensures mode != 2 ==> pre == done
  {
    if mode == 2 {
      PowPositive(2, bitcpy);
      PowPositive(2, bitcpy - 1);
      MulLe(Pow(2, bitcpy), 0, done);
    }
  }
}
