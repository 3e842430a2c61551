/**
 The multiple-precision integer of libtommath: sign and magnitude, with the
 magnitude in 28-bit digits.  `dp` is the allocated cell buffer, which
 libtommath reallocates when it grows, and `used` counts the cells that carry
 digits.
 */
module Mp {
  import opened Arith
  import opened Digits

  /** 28-bit digits in 32-bit cells, with 64-bit words for products. */
  const DIGIT_BIT := 28
  const B := 0x1000_0000
  const WORD := 0x1_0000_0000_0000_0000

  /** Columns of the comba work array, and terms one 64-bit column can hold. */
  const WARRAY := 512
  const MAXFAST := 256

  /** Cells of a fresh integer. */
  const PREC := 32

  datatype Err = OKAY | VAL | BUF

  class Int {
    var neg: bool
    var used: nat
    var dp: seq<int>

    /** Zero cells above `used`. */
    predicate Padded()
      reads this
    {
      used <= |dp| && forall i :: used <= i < |dp| ==> dp[i] == 0
    }

    /** Digits in every cell and zero cells above `used`; the top may be zero. */
    predicate Loose()
      reads this
    {
      Padded() && IsDigits(B, dp)
    }

    /** The form every public routine leaves behind. */
    predicate Valid()
      reads this
    {
      && Loose()
      && (used > 0 ==> dp[used - 1] != 0)
      && (used == 0 ==> !neg)
    }

    /** The cells above `used` are zero, so the whole buffer writes the magnitude. */
    function Mag(): int
      reads this
    {
      Val(B, dp)
    }

    function Value(): int
      reads this
    {
      if neg then -Mag() else Mag()
    }

    constructor ()
      ensures Valid() && Value() == 0 && |dp| == PREC
    {
      neg := false;
      used := 0;
      dp := Zeros(PREC);
      ValZero(B, Zeros(PREC));
    }

    /** mp_init_size: zero, with room for n digits. */
    constructor Sized(n: nat)
      ensures Valid() && Value() == 0 && dp == Zeros(n)
    {
      neg := false;
      used := 0;
      dp := Zeros(n);
      ValZero(B, Zeros(n));
    }

    /** Writes `v` in canonical form; the buffer only grows. */
    method Store(v: int)
      modifies this
      ensures Valid() && Value() == v
      ensures |dp| >= old(|dp|)
    {
      var s := DigitsOf(B, Abs(v));
      neg := v < 0;
      used := |s|;
      dp := s + Zeros(Max(0, |dp| - |s|));
      assert dp[..used] == s && AllZero(dp[used..]);
      ValTrim(B, dp, used);
    }

    /** mp_clamp: drops zero digits from the top. */
    method Clamp()
      requires Padded()
      modifies this`used, this`neg
      ensures old(Loose()) ==> Valid()
      ensures Padded() && (used > 0 ==> dp[used - 1] != 0) && used <= old(used)
      ensures Mag() == old(Mag())
      ensures used == 0 ==> !neg
      ensures used > 0 ==> neg == old(neg)
    {
      while used > 0 && dp[used - 1] == 0
        invariant Padded() && neg == old(neg) && used <= old(used)
        decreases used
      {
        used := used - 1;
      }
      if used == 0 {
        neg := false;
      }
    }

    /** mp_grow: makes room for `size` cells. */
    method Grow(size: nat)
      requires Loose()
      modifies this`dp
      ensures Loose() && Mag() == old(Mag()) && Value() == old(Value())
      ensures old(Valid()) ==> Valid()
      ensures |dp| == Max(old(|dp|), size) && dp[..old(|dp|)] == old(dp)
    {
      if |dp| < size {
        var n := |dp|;
        dp := dp + Zeros(size - n);
        assert dp[..n] == old(dp) && AllZero(dp[n..]);
        ValTrim(B, dp, n);
      }
    }
  }

  /** The magnitude of a valid integer, bracketed by its digit count. */
  lemma MagBounds(a: Int)
    requires a.Valid()
    ensures 0 <= a.Mag() < Pow(B, a.used)
    ensures a.used > 0 ==> Pow(B, a.used - 1) <= a.Mag()
    ensures a.used == 0 <==> a.Value() == 0
    ensures a.neg <==> a.Value() < 0
  {
    assert AllZero(a.dp[a.used..]);
    ValTrim(B, a.dp, a.used);
    ValBound(B, a.dp[..a.used]);
    if a.used > 0 {
      ValTop(B, a.dp[..a.used]);
      PowPositive(B, a.used - 1);
    }
  }

  /** A nonnegative integer is its magnitude. */
  lemma NonnegValue(a: Int)
    requires a.Valid() && (a.Value() >= 0 || !a.neg)
    ensures a.Mag() == a.Value() >= 0 && !a.neg
  {
    MagBounds(a);
  }

  lemma MagIsVal(a: Int)
    ensures a.Mag() == Val(B, a.dp)
  {
  }

  // ----- bits -----

  /** Bits of a nonnegative number. */
  function BitLen(v: nat): (n: nat)
  {
    if v == 0 then 0 else 1 + BitLen(v / 2)
  }

  lemma {:induction false} BitLenBounds(v: nat)
    ensures v < Pow(2, BitLen(v))
    ensures v > 0 ==> BitLen(v) > 0 && Pow(2, BitLen(v) - 1) <= v
  {
    if v > 0 {
      BitLenBounds(v / 2);
    }
  }

  /** The bounds determine the bit length. */
  lemma BitLenUnique(v: nat, n: nat)
    requires v > 0 && n > 0 && Pow(2, n - 1) <= v < Pow(2, n)
    ensures BitLen(v) == n
  {
    BitLenBounds(v);
    if BitLen(v) < n {
      PowMonotone(2, BitLen(v), n - 1);
    } else if BitLen(v) > n {
      PowMonotone(2, n, BitLen(v) - 1);
    }
  }

  lemma PowTwo28()
    ensures Pow(2, 28) == B
  {
    PowAdd(2, 14, 14);
    PowAdd(2, 7, 7);
    assert Pow(2, 7) == 128;
  }

  lemma BaseIsPowTwo(k: nat)
    ensures 28 * k >= 0 && Pow(B, k) == Pow(2, 28 * k)
  {
    PowTwo28();
    PowPow(2, 28, k);
  }

  /** mp_count_bits. */
  method CountBits(a: Int) returns (r: nat)
    requires a.Valid()
    ensures a.Mag() >= 0 && r == BitLen(a.Mag())
    ensures a.used == 0 ==> r == 0
    ensures a.used > 0 ==> 28 * (a.used - 1) < r <= 28 * a.used
  {
    MagBounds(a);
    if a.used == 0 {
      return 0;
    }
    r := (a.used - 1) * DIGIT_BIT;
    var q := a.dp[a.used - 1];
    ghost var top, bits := q, 0;
    PowTwo28();
    while q > 0
      invariant 0 <= q && bits <= 28 && r == (a.used - 1) * DIGIT_BIT + bits
      invariant BitLen(top) == BitLen(q) + bits
      invariant top > 0 && q < Pow(2, 28 - bits)
    {
      r := r + 1;
      bits := bits + 1;
      q := q / 2;
    }
    TopDigitBits(a, bits);
  }

  lemma TopDigitBits(a: Int, bits: nat)
    requires a.Valid() && a.used > 0 && bits == BitLen(a.dp[a.used - 1]) && bits <= 28
    ensures a.Mag() >= 0 && bits > 0 && BitLen(a.Mag()) == 28 * (a.used - 1) + bits
  {
    hide Val, BitLen;
    var k, d := a.used - 1, a.dp[a.used - 1];
    MagBounds(a);
    BitLenBounds(d);
    assert AllZero(a.dp[a.used..]);
    ValTrim(B, a.dp, a.used);
    ValAt(B, a.dp, k);
    ValBound(B, a.dp[..k]);
    BaseIsPowTwo(k);
    PowAdd(2, 28 * k, bits);
    PowAdd(2, 28 * k, bits - 1);
    TopDigitBounds(Val(B, a.dp[..k]), Pow(B, k), d, Pow(2, bits - 1), Pow(2, bits));
    BitLenUnique(a.Mag(), 28 * k + bits);
  }

  lemma TopDigitBounds(lo: int, p: int, d: int, from: int, to: int)
    requires 0 <= lo < p && from <= d < to
    ensures p * from <= lo + p * d < p * to
  {
    MulLe(p, from, d);
    MulLe(p, d, to - 1);
    assert p * (to - 1) == p * to - p;
  }

  // ----- value-level routines: each stores its result in canonical form -----

  method Copy(a: Int, b: Int)
    requires a.Valid()
    modifies b
    ensures b.Valid() && b.Value() == old(a.Value())
  {
    b.Store(a.Value());
  }

  method Set(a: Int, d: int)
    requires 0 <= d < 0x1000_0000
    modifies a
    ensures a.Valid() && a.Value() == d
  {
    a.Store(d);
  }

  method Exch(a: Int, b: Int)
    requires a.Valid() && b.Valid()
    modifies a, b
    ensures a.Valid() && b.Valid()
    ensures a.Value() == old(b.Value()) && b.Value() == old(a.Value())
    ensures a.Mag() == old(b.Mag()) && b.Mag() == old(a.Mag()) && a.neg == old(b.neg) && b.neg == old(a.neg)
  {
    a.neg, a.used, a.dp, b.neg, b.used, b.dp := b.neg, b.used, b.dp, a.neg, a.used, a.dp;
  }

  /** c->sign = MP_ZPOS or MP_NEG on a magnitude, with zero kept nonnegative. */
  method GiveSign(a: Int, neg: bool)
    requires a.Valid()
    modifies a
    ensures a.Valid() && a.Value() == if neg then -old(a.Mag()) else old(a.Mag())
  {
    MagBounds(a);
    a.neg := a.used > 0 && neg;
  }

  method SetSign(a: Int, neg: bool)
    requires a.Valid() && a.Value() != 0
    modifies a
    ensures a.Valid()
    ensures a.Value() == old(a.Value()) || a.Value() == -old(a.Value())
    ensures a.Value() < 0 <==> neg
  {
    MagBounds(a);
    a.neg := neg;
  }

  method Add(a: Int, b: Int, c: Int)
    requires a.Valid() && b.Valid()
    modifies c
    ensures c.Valid() && c.Value() == old(a.Value()) + old(b.Value())
  {
    c.Store(a.Value() + b.Value());
  }

  method Sub(a: Int, b: Int, c: Int)
    requires a.Valid() && b.Valid()
    modifies c
    ensures c.Valid() && c.Value() == old(a.Value()) - old(b.Value())
  {
    c.Store(a.Value() - b.Value());
  }

  /** c = c - b, the buffer of c only growing. */
  method SubKeep(c: Int, b: Int)
    requires c.Valid() && b.Valid()
    modifies c
    ensures c.Valid() && c.Value() == old(c.Value()) - old(b.Value()) && |c.dp| >= old(|c.dp|)
  {
    c.Store(c.Value() - b.Value());
  }

  /** c = c + b, the buffer of c only growing. */
  method AddKeep(c: Int, b: Int)
    requires c.Valid() && b.Valid()
    modifies c
    ensures c.Valid() && c.Value() == old(c.Value()) + old(b.Value()) && |c.dp| >= old(|c.dp|)
  {
    c.Store(c.Value() + b.Value());
  }

  /** Half of `v` with the sign kept, as a shift of the magnitude computes it. */
  function Halved(v: int): int
  {
    if v < 0 then -(-v / 2) else v / 2
  }

  lemma HalvedExact(v: int)
    requires v % 2 == 0
    ensures Halved(v) == v / 2 && 2 * Halved(v) == v
  {
  }

  method Div2(a: Int, b: Int)
    requires a.Valid()
    modifies b
    ensures b.Valid() && b.Value() == Halved(old(a.Value()))
  {
    b.Store(Halved(a.Value()));
  }

  /** Division of the magnitude with the sign kept, as shifts to the right compute it. */
  function Shifted(v: int, p: int): int
    requires p > 0
  {
    if v < 0 then -(-v / p) else v / p
  }

  /** mp_2expt: a = 2^b. */
  method TwoExpt(a: Int, b: nat)
    modifies a
    ensures a.Valid() && a.Value() == Pow(2, b)
  {
    a.Store(Pow(2, b));
  }

  /** mp_mul_2. */
  method Mul2(a: Int, b: Int)
    requires a.Valid()
    modifies b
    ensures b.Valid() && b.Value() == 2 * old(a.Value())
  {
    b.Store(2 * a.Value());
  }

  /** mp_lshd: shifts by k digits. */
  method Lshd(a: Int, k: nat)
    requires a.Valid()
    modifies a
    ensures a.Valid() && a.Value() == old(a.Value()) * Pow(B, k)
  {
    a.Store(a.Value() * Pow(B, k));
  }

  /** mp_rshd: drops the k lowest digits. */
  method Rshd(a: Int, k: nat)
    requires a.Valid()
    modifies a
    ensures Pow(B, k) > 0 && a.Valid() && a.Value() == Shifted(old(a.Value()), Pow(B, k))
  {
    PowPositive(B, k);
    a.Store(Shifted(a.Value(), Pow(B, k)));
  }

  /** mp_div_2d: quotient by 2^b into c and remainder into d, for nonnegative a. */
  method Div2d(a: Int, b: nat, c: Int, d: Int)
    requires a.Valid() && a.Value() >= 0 && c != d
    modifies c, d
    ensures Pow(2, b) > 0 && c.Valid() && d.Valid()
    ensures c.Value() == Quot(old(a.Value()), Pow(2, b)) && d.Value() == Rem(old(a.Value()), Pow(2, b))
    ensures |c.dp| >= old(|c.dp|)
  {
    PowPositive(2, b);
    var v := a.Value();
    c.Store(Quot(v, Pow(2, b)));
    d.Store(Rem(v, Pow(2, b)));
  }

  /** mp_div_2d without a remainder. */
  method ShiftDown(a: Int, b: nat, c: Int)
    requires a.Valid()
    modifies c
    ensures Pow(2, b) > 0 && c.Valid() && c.Value() == Shifted(old(a.Value()), Pow(2, b))
  {
    PowPositive(2, b);
    c.Store(Shifted(a.Value(), Pow(2, b)));
  }

  /** mp_mul_2d: multiplication by 2^b. */
  method Mul2d(a: Int, b: nat, c: Int)
    requires a.Valid()
    modifies c
    ensures c.Valid() && c.Value() == old(a.Value()) * Pow(2, b)
  {
    c.Store(a.Value() * Pow(2, b));
  }

  /** mp_abs. */
  method AbsOf(a: Int, b: Int)
    requires a.Valid()
    modifies b
    ensures b.Valid() && b.Value() == Abs(old(a.Value())) && |b.dp| >= old(|b.dp|)
  {
    b.Store(Abs(a.Value()));
  }

  /** mp_mul_d: multiplication by one digit. */
  method MulD(a: Int, d: int, c: Int)
    requires a.Valid() && 0 <= d < 0x1000_0000
    modifies c
    ensures c.Valid() && c.Value() == old(a.Value()) * d
  {
    c.Store(a.Value() * d);
  }

  /** mp_mod_2d by whole digits: a modulo B^k, for nonnegative a. */
  method ModPower(a: Int, k: nat)
    requires a.Valid() && a.Value() >= 0
    modifies a
    ensures Pow(B, k) > 0 && a.Valid() && a.Value() == Rem(old(a.Value()), Pow(B, k))
  {
    PowPositive(B, k);
    a.Store(Rem(a.Value(), Pow(B, k)));
  }

  lemma LowDigitParity(s: seq<int>)
    ensures Val(B, s) % 2 == if |s| == 0 then 0 else s[0] % 2
  {
  }

  lemma LowDigitEven(a: Int)
    requires a.Valid()
    ensures a.Value() % 2 == 0 <==> a.used == 0 || a.dp[0] % 2 == 0
  {
    LowDigitParity(a.dp);
    NegationParity(a.Mag());
  }

  lemma NegationParity(v: int)
    ensures (-v) % 2 == v % 2
  {
  }

  method IsEven(a: Int) returns (r: bool)
    requires a.Valid()
    ensures r == (a.Value() % 2 == 0)
  {
    hide Val, Int.Value;
    LowDigitEven(a);
    r := a.used == 0 || a.dp[0] % 2 == 0;
  }
}
