/**
 The bit reader and the window of the left-to-right sliding-window method,
 Algorithm 14.85 of the Handbook of Applied Cryptography: how the exponent read
 so far splits into what the result already carries and what the window holds.
 */
module Window {
  import opened Arith
  import opened Digits
  import opened Mp

  // ----- reading the exponent -----

  /**
   The digits of the exponent from d up have been loaded; their number is `pre`
   read bits followed by r unread ones, which stand left-aligned in the low 28
   bits of the cell buf.
   */
  ghost predicate Reading(x: seq<int>, d: nat, pre: int, r: nat, rest: int, buf: int)
  {
    && d <= |x| && r <= 28 && pre >= 0 && 0 <= rest < Pow(2, r)
    && buf % B == rest * Pow(2, 28 - r)
    && Val(B, x[d..]) == pre * Pow(2, r) + rest
  }

  /** The next bit, as the shift and mask find it. */
  function NextBit(buf: int): int
  {
    (buf / 0x800_0000) % 2
  }

  function ShiftBuf(buf: int): int
  {
    (buf * 2) % 0x1_0000_0000
  }

  lemma ReadingStart(x: seq<int>)
    ensures Reading(x, |x|, 0, 0, 0, 0)
  {
    assert x[|x|..] == [];
  }

  /** Loading the digit below. */
  lemma LoadDigit(x: seq<int>, d: nat, pre: int, buf: int)
    requires IsDigits(B, x) && d > 0 && Reading(x, d, pre, 0, 0, buf)
    ensures Reading(x, d - 1, pre, 28, x[d - 1], x[d - 1])
  {
    hide Val;
    PowTwo28();
    ValAt(B, x, d - 1);
    ModSmall(x[d - 1], B);
    assert Pow(2, 0) == 1;
  }

  /** Reading one bit. */
  lemma ReadBit(x: seq<int>, d: nat, pre: int, r: nat, rest: int, buf: int)
    requires r > 0 && Reading(x, d, pre, r, rest, buf)
    ensures Pow(2, r - 1) > 0 && NextBit(buf) == Quot(rest, Pow(2, r - 1)) && 0 <= NextBit(buf) <= 1
    ensures Reading(x, d, 2 * pre + NextBit(buf), r - 1, Rem(rest, Pow(2, r - 1)), ShiftBuf(buf))
  {
    hide Val, Pow;
    var h := Pow(2, r - 1);
    PowPositive(2, r - 1);
    PowNext(2, r - 1);
    PowNext(2, 28 - r);
    PowAdd(2, 28 - r, r - 1);
    Pow27();
    DivModDef(rest, h);
    var y, t := rest / h, rest % h;
    BitValue(rest, h, y, t);
    CellBit(buf, rest, h, Pow(2, 28 - r), y, t);
    ReadAlgebra(pre, y, t, h, rest);
  }

  lemma Pow27()
    ensures Pow(2, 27) == 0x800_0000
  {
    PowTwo28();
    PowNext(2, 27);
  }

  lemma BitValue(rest: int, h: int, y: int, t: int)
    requires 0 <= rest < 2 * h && rest == y * h + t && 0 <= t < h
    ensures y == 0 || y == 1
  {
    if y < 0 { MulLe(h, y, -1); }
    if y > 1 { MulLe(h, 2, y); }
  }

  lemma CellBit(buf: int, rest: int, h: int, s: int, y: int, t: int)
    requires h > 0 && s > 0 && s * h == 0x800_0000 && rest == y * h + t && 0 <= t < h && (y == 0 || y == 1)
    requires buf % 0x1000_0000 == rest * s
    ensures NextBit(buf) == y
    ensures ShiftBuf(buf) % 0x1000_0000 == t * (2 * s)
  {
    var k := buf / 0x1000_0000;
    assert rest * s == y * 0x800_0000 + t * s by { assert (y * h + t) * s == y * (s * h) + t * s; }
    MulLe(s, 0, t);
    MulLe(s, t + 1, h);
    assert s * (t + 1) == t * s + s && s * h == 0x800_0000;
    CellArithmetic(buf, k, y, t * s);
    assert t * (2 * s) == 2 * (t * s);
  }

  lemma CellArithmetic(buf: int, k: int, y: int, u: int)
    requires buf == k * 0x1000_0000 + y * 0x800_0000 + u && 0 <= u < 0x800_0000 && (y == 0 || y == 1)
    ensures NextBit(buf) == y && ShiftBuf(buf) % 0x1000_0000 == 2 * u
  {
    DivModUnique(buf, 2 * k + y, u, 0x800_0000);
    LowBitOf(k, y);
    ShiftedCell(buf * 2, 2 * k + y, 2 * u);
  }

  lemma LowBitOf(k: int, y: int)
    requires y == 0 || y == 1
    ensures (2 * k + y) % 2 == y
  {
  }

  lemma ShiftedCell(v: int, q: int, r: int)
    requires v == q * 0x1000_0000 + r && 0 <= r < 0x1000_0000
    ensures (v % 0x1_0000_0000) % 0x1000_0000 == r
  {
    DivModUnique(v, q, r, 0x1000_0000);
    ModMod(v, 0x1000_0000, 16);
  }

  lemma ReadAlgebra(pre: int, y: int, t: int, h: int, rest: int)
    requires rest == y * h + t
    ensures pre * (2 * h) + rest == (2 * pre + y) * h + t
  {
  }

  /** At the end every bit has been read. */
  lemma ReadingEnd(x: seq<int>, pre: int, rest: int, buf: int)
    requires Reading(x, 0, pre, 0, rest, buf)
    ensures pre == Val(B, x)
  {
    assert x[0..] == x;
  }

  // ----- the window -----

  /** The exponent `pre` is `done` followed by the n window bits `top`, the first of them set. */
  ghost predicate Held(pre: int, done: int, n: nat, top: int)
  {
    pre == done * Pow(2, n) + top && done >= 0 && n > 0 && Pow(2, n - 1) <= top < Pow(2, n)
  }

  lemma HeldFirst(pre: int)
    requires pre >= 0
    ensures Held(2 * pre + 1, pre, 1, 1)
  {
    assert Pow(2, 1) == 2 && Pow(2, 0) == 1;
  }

  lemma HeldNext(pre: int, done: int, n: nat, top: int, y: int)
    requires Held(pre, done, n, top) && 0 <= y <= 1
    ensures Held(2 * pre + y, done, n + 1, 2 * top + y)
  {
    PowNext(2, n);
    PowNext(2, n - 1);
    assert 2 * (done * Pow(2, n)) == done * Pow(2, n + 1);
  }

  /** The window register: the bits held, left-aligned in winsize bits. */
  lemma RegisterNext(win: nat, n: nat, top: int, y: int)
    requires n < win && 0 <= y <= 1 && Pow(2, win - n) > 0
    ensures Pow(2, win - n - 1) > 0
    ensures top * Pow(2, win - n) + y * Pow(2, win - n - 1) == (2 * top + y) * Pow(2, win - n - 1)
  {
    PowNext(2, win - n - 1);
    PowPositive(2, win - n - 1);
  }
}
