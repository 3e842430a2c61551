/** Field elements as 32 bytes: the one encoding below the prime, and equality through it. */
module Pack25519 {
  import opened Arith
  import opened Bits
  import opened Bytes
  import opened Digits
  import opened Field25519

  // ----- sel25519 -----

  const WORD := 0x1_0000_0000_0000_0000

  /** The bits of a limb in two's complement, and the limb of the bits. */
  function Word(x: i64): (w: nat)
    ensures w < WORD && Limb(w) == x
  {
    if x < 0 then x + WORD else x
  }

  function Limb(w: nat): i64
    requires w < WORD
  {
    if w < 0x8000_0000_0000_0000 then w else w - WORD
  }

  function XorLimb(x: i64, y: i64): (r: i64)
    ensures Word(r) == Xor(Word(x), Word(y))
  {
    WordBits();
    XorZero(Word(x), Word(y), 64);
    Limb(Xor(Word(x), Word(y)))
  }

  /** x & y where x is 0 or -1. */
  function MaskLimb(x: i64, y: i64): (r: i64)
    requires x == 0 || x == -1
    ensures Word(r) == And(Word(x), Word(y)) && r == if x == 0 then 0 else y
  {
    WordBits();
    AndOnes(Word(y), 64);
    Limb(And(Word(x), Word(y)))
  }

  lemma WordBits()
    ensures Pow(2, 64) == WORD
  {
    SmallPowers();
    PowAdd(2, 16, 16);
    PowAdd(2, 32, 32);
  }

  /** Xor with the masked difference exchanges, or does nothing. */
  lemma MaskedExchange(x: i64, y: i64, c: i64)
    requires c == 0 || c == -1
    ensures var t := MaskLimb(c, XorLimb(x, y));
      XorLimb(x, t) == (if c == 0 then x else y) && XorLimb(y, t) == (if c == 0 then y else x)
  {
    hide Word, Xor, And;
    var t := MaskLimb(c, XorLimb(x, y));
    XorTwice(Word(x), Word(y));
    XorNone(Word(x));
    XorNone(Word(y));
    NoWord();
    SameWord(XorLimb(x, t), if c == 0 then x else y);
    SameWord(XorLimb(y, t), if c == 0 then y else x);
  }

  lemma NoWord()
    ensures Word(0) == 0
  {
  }

  lemma SameWord(x: i64, y: i64)
    ensures Word(x) == Word(y) ==> x == y
  {
  }

  /** sel25519: exchanges p and q when b is 1, without a branch. */
  method Select(p: array<i64>, q: array<i64>, b: int)
    requires p.Length == q.Length == 16 && p != q && 0 <= b <= 1
    modifies p, q
    ensures p[..] == if b == 1 then old(q[..]) else old(p[..])
    ensures q[..] == if b == 1 then old(p[..]) else old(q[..])
  {
    hide MaskLimb, XorLimb;
    var c: i64 := -(b - 1) - 1; // the complement of b - 1
    for i := 0 to 16
      invariant forall j :: 0 <= j < i ==> p[j] == old(if b == 1 then q[j] else p[j]) && q[j] == old(if b == 1 then p[j] else q[j])
      invariant forall j :: i <= j < 16 ==> p[j] == old(p[j]) && q[j] == old(q[j])
    {
      MaskedExchange(p[i], q[i], c);
      var t := MaskLimb(c, XorLimb(p[i], q[i]));
      p[i] := XorLimb(p[i], t);
      q[i] := XorLimb(q[i], t);
    }
  }

  // ----- pack25519 -----

  /** Three carry passes leave digits, whatever the limbs were. */
  method Normalize(t: array<i64>)
    requires t.Length == 16 && Small(t[..], 0x2000_0000_0000_0000)
    modifies t
    ensures IsDigits(R, t[..]) && Fe(t[..]) == old(Fe(t[..]))
  {
    hide Val, P, Q, Quot, Folded, Fe, Small, IsDigits;
    ghost var s := t[..];
    CarryBound(s, 0x2000_0000_0000_0000);
    Carry(t);
    ghost var s1 := t[..];
    FirstPass(Quot(Val(R, s), Q()), s1);
    Carry(t);
    ghost var s2 := t[..];
    MiddlePass(Quot(Val(R, s1), Q()), s2);
    Carry(t);
    FinalPass(Val(R, s2), t[..]);
    ThreeFolds(s, s1, s2, t[..]);
  }

  lemma FirstPass(c: int, s: seq<int>)
    requires |s| == 16 && IsDigits(R, s[1..]) && 0 <= s[0] - 38 * c < R && -0x3000_0000_0000 <= c <= 0x3000_0000_0000
    ensures Small(s, 0x2000_0000_0000_0000) && -1 <= Quot(Val(R, s), Q()) <= 1
  {
    hide Val, Q, P, Quot;
    assert forall i :: 0 < i < 16 ==> s[i] == s[1..][i - 1];
    NearRange(s, 0x8_0000_0000_0000);
  }

  lemma MiddlePass(c: int, s: seq<int>)
    requires |s| == 16 && IsDigits(R, s[1..]) && 0 <= s[0] - 38 * c < R && -1 <= c <= 1
    ensures Small(s, 0x2000_0000_0000_0000) && -38 <= Val(R, s) < Q() + 38
  {
    hide Val, Q, P, Quot;
    assert forall i :: 0 < i < 16 ==> s[i] == s[1..][i - 1];
    NearRange(s, 38);
  }

  lemma FinalPass(v: int, s: seq<int>)
    requires |s| == 16 && IsDigits(R, s[1..]) && 0 <= s[0] - 38 * Quot(v, Q()) < R
    requires -38 <= v < Q() + 38 && Val(R, s) == Folded(v)
    ensures IsDigits(R, s)
  {
    hide Val, Q, P, Pow;
    LargeQ();
    var y, h := s[0], Val(R, s[1..]);
    ValBound(R, s[1..]);
    ValAt(R, s, 0);
    assert s[0..] == s && s[0 + 1..] == s[1..];
    QIs();
    PowNext(R, 15);
    var q := Q();
    if v < 0 {
      DivModUnique(v, -1, v + q, q);
    } else if v < q {
      DivModUnique(v, 0, v, q);
    } else {
      DivModUnique(v, 1, v - q, q);
    }
    assert 0 <= y < R;
    assert forall i :: 0 < i < 16 ==> s[i] == s[1..][i - 1];
  }

  lemma ThreeFolds(s: seq<int>, s1: seq<int>, s2: seq<int>, s3: seq<int>)
    requires Val(R, s1) == Folded(Val(R, s)) && Val(R, s2) == Folded(Val(R, s1)) && Val(R, s3) == Folded(Val(R, s2))
    ensures Fe(s3) == Fe(s)
  {
    hide Val, Q, P, Folded, Cong;
    FoldedCong(Val(R, s));
    FoldedCong(Val(R, s1));
    FoldedCong(Val(R, s2));
    RemCong(Val(R, s1), Val(R, s), P());
    RemCong(Val(R, s2), Val(R, s1), P());
    RemCong(Val(R, s3), Val(R, s2), P());
  }

  /** The limbs of the prime. */
  function PrimeLimb(i: nat): int
  {
    if i == 0 then 0xffed else if i < 15 then 0xffff else 0x7fff
  }

  ghost function PrimeLimbs(n: nat): (s: seq<int>)
    ensures |s| == n
  {
    seq(n, i requires 0 <= i => PrimeLimb(i))
  }

  lemma PrimeLimbsNext(n: nat)
    ensures Val(R, PrimeLimbs(n + 1)) == Val(R, PrimeLimbs(n)) + Pow(R, n) * PrimeLimb(n)
  {
    assert PrimeLimbs(n + 1) == PrimeLimbs(n) + [PrimeLimb(n)];
    ValAppend(R, PrimeLimbs(n), [PrimeLimb(n)]);
    ValSingle(R, PrimeLimb(n));
  }

  lemma {:induction false} PrimeLimbsOnes(n: nat)
    requires 0 < n <= 15
    ensures Val(R, PrimeLimbs(n)) == Pow(R, n) - 19
  {
    hide Pow;
    PrimeLimbsNext(n - 1);
    PowNext(R, n - 1);
    if n == 1 {
      assert PrimeLimbs(0) == [];
      ValSingle(R, 0);
      PowFirst(R);
    } else {
      PrimeLimbsOnes(n - 1);
    }
  }

  lemma PrimeLimbsValue()
    ensures Val(R, PrimeLimbs(16)) == P()
  {
    hide Pow, PrimeLimbs, Val;
    PrimeLimbsOnes(15);
    PrimeLimbsNext(15);
    TopBit();
    PrimeIs();
  }

  /** The weight of the bit above a field element. */
  lemma TopBit()
    ensures Pow(R, 15) > 0 && 0x8000 * Pow(R, 15) == Pow(2, 255)
  {
    hide Pow;
    PowPositive(R, 15);
    SmallPowers();
    PowPow(2, 16, 15);
    PowAdd(2, 240, 15);
    PowNext(2, 15);
  }

  /** m[i] and the mask of m[i - 1]. */
  method Borrow(t: array<i64>, m: array<i64>, i: nat)
    requires 0 < i < 16 && t.Length == m.Length == 16 && t != m && IsDigits(R, t[..]) && -0x1_0000 <= m[i - 1] < R
    requires IsDigits(R, m[..i - 1]) && Val(R, m[..i]) == Val(R, t[..i]) - Val(R, PrimeLimbs(i))
    modifies m
    ensures IsDigits(R, m[..i]) && -0x1_0000 <= m[i] < R && (i == 15 ==> m[i] >= -0x8000)
    ensures Val(R, m[..i + 1]) == Val(R, t[..i + 1]) - Val(R, PrimeLimbs(i + 1))
  {
    hide Val, PrimeLimbs;
    ghost var s, x := m[..i], m[i - 1];
    var br := (m[i - 1] / 0x1_0000) % 2;
    m[i] := t[i] - PrimeLimb(i) - br;
    m[i - 1] := m[i - 1] % 0x1_0000;
    BorrowArith(x, br);
    ghost var y := m[i];
    assert m[..i] == s[i - 1 := x + br * R];
    assert m[..i + 1] == m[..i] + [y];
    BorrowValue(s, i, x, br, y, t[..], Val(R, PrimeLimbs(i)));
    PrimeLimbsNext(i);
    assert forall j :: 0 <= j < i - 1 ==> m[..i][j] == s[..i - 1][j];
  }

  lemma BorrowArith(x: int, br: int)
    requires -0x1_0000 <= x < R && br == (x / 0x1_0000) % 2
    ensures 0 <= br <= 1 && x % 0x1_0000 == x + br * R && (br == 1 <==> x < 0)
  {
  }

  lemma BorrowValue(s: seq<int>, i: nat, x: int, br: int, y: int, t: seq<int>, f: int)
    requires 0 < i == |s| < |t| && x == s[i - 1] && y == t[i] - PrimeLimb(i) - br
    requires Val(R, s) == Val(R, t[..i]) - f
    ensures Val(R, s[i - 1 := x + br * R] + [y]) == Val(R, t[..i + 1]) - f - Pow(R, i) * PrimeLimb(i)
  {
    hide Val, Pow, PrimeLimb;
    var u := s[i - 1 := x + br * R];
    ValUpdate(R, s, i - 1, x + br * R);
    ValAppend(R, u, [y]);
    ValSingle(R, y);
    ValAt(R, t, i);
    PowNext(R, i - 1);
    var p, k := Pow(R, i - 1), PrimeLimb(i);
    assert p * (br * R) == (R * p) * br;
    assert (R * p) * (t[i] - k - br) == (R * p) * t[i] - (R * p) * k - (R * p) * br;
  }

  /** m := t - p, with the borrow. */
  method TrySubtract(t: array<i64>, m: array<i64>) returns (b: int)
    requires t.Length == m.Length == 16 && t != m && IsDigits(R, t[..])
    modifies m
    ensures b == if Val(R, t[..]) < P() then 1 else 0
    ensures b == 0 ==> IsDigits(R, m[..]) && Val(R, m[..]) == Val(R, t[..]) - P()
  {
    hide Val, Pow, PrimeLimbs, P;
    m[0] := t[0] - 0xffed;
    FirstLimb(t[..], m[..]);
    for i := 1 to 15
      invariant -0x1_0000 <= m[i - 1] < R && IsDigits(R, m[..i - 1])
      invariant Val(R, m[..i]) == Val(R, t[..i]) - Val(R, PrimeLimbs(i))
    {
      Borrow(t, m, i);
      assert m[..i + 1][..i] == m[..i];
    }
    Borrow(t, m, 15);
    b := (m[15] / 0x1_0000) % 2;
    assert m[..16] == m[..] && t[..16] == t[..];
    PrimeLimbsValue();
    SignAtTop(m[..]);
  }

  lemma FirstLimb(t: seq<int>, m: seq<int>)
    requires |t| == |m| == 16 && m[0] == t[0] - 0xffed
    ensures Val(R, m[..1]) == Val(R, t[..1]) - Val(R, PrimeLimbs(1)) && IsDigits(R, m[..0])
  {
    assert m[..1] == [m[0]] && t[..1] == [t[0]] && PrimeLimbs(1) == [0xffed];
    ValSingle(R, m[0]);
    ValSingle(R, t[0]);
    ValSingle(R, 0xffed);
  }

  lemma SignAtTop(m: seq<int>)
    requires |m| == 16 && IsDigits(R, m[..15]) && -0x8000 <= m[15] < R
    ensures (m[15] / 0x1_0000) % 2 == if Val(R, m) < 0 then 1 else 0
    ensures Val(R, m) >= 0 ==> IsDigits(R, m)
  {
    hide Val, Pow;
    ValAt(R, m, 15);
    assert m[..15 + 1] == m;
    ValBound(R, m[..15]);
    var p := Pow(R, 15);
    if m[15] < 0 {
      MulLe(p, m[15], -1);
    } else {
      MulLe(p, 0, m[15]);
      assert forall i :: 0 <= i < 15 ==> m[i] == m[..15][i];
    }
  }

  /** One conditional subtraction of the prime. */
  method SubtractOnce(t: array<i64>, m: array<i64>)
    requires t.Length == m.Length == 16 && t != m && IsDigits(R, t[..])
    modifies t, m
    ensures IsDigits(R, t[..])
    ensures Val(R, t[..]) == old(Val(R, t[..])) - (if old(Val(R, t[..])) < P() then 0 else P())
  {
    hide Val, P;
    var b := TrySubtract(t, m);
    Select(t, m, 1 - b);
  }

  method CopyOf(n: array<i64>) returns (t: array<i64>)
    requires n.Length == 16
    ensures fresh(t) && t.Length == 16 && t[..] == n[..]
  {
    t := new i64[16](_ => 0);
    for i := 0 to 16
      invariant t[..i] == n[..i]
    {
      t[i] := n[i];
    }
  }

  /** Two bytes as a limb. */
  function Pair(lo: int, hi: int): int
  {
    lo + 256 * hi
  }

  method PutLimbs(o: array<u8>, t: array<i64>)
    requires o.Length == 32 && t.Length == 16 && IsDigits(R, t[..])
    modifies o
    ensures Val(256, o[..]) == Val(R, t[..])
  {
    hide Val;
    ghost var s := t[..];
    for i := 0 to 16
      invariant t[..] == s
      invariant forall j :: 0 <= j < i ==> s[j] == Pair(o[2 * j], o[2 * j + 1])
    {
      o[2 * i] := t[i] % 256;
      o[2 * i + 1] := t[i] / 256;
    }
    PairsValue(o[..], s);
  }

  /** pack25519. */
  method Pack(o: array<u8>, n: array<i64>)
    requires o.Length == 32 && n.Length == 16 && Small(n[..], 0x2000_0000_0000_0000)
    modifies o
    ensures Val(256, o[..]) == Fe(n[..])
  {
    hide Val, P, Small, Fe, Rem;
    ghost var s, e := n[..], Fe(n[..]);
    var t := CopyOf(n);
    var m := new i64[16](_ => 0);
    Normalize(t);
    DigitsBelowQ(t[..]);
    SubtractOnce(t, m);
    SubtractOnce(t, m);
    TwoSubtractions(Val(R, t[..]), e);
    PutLimbs(o, t);
  }

  lemma DigitsBelowQ(s: seq<int>)
    requires |s| == 16 && IsDigits(R, s)
    ensures 0 <= Val(R, s) < 2 * P() + 38 && Fe(s) == Rem(Val(R, s), P())
  {
    hide Val, Pow, Q, P;
    ValBound(R, s);
    QIs();
  }

  lemma TwoSubtractions(v: int, e: int)
    requires 0 <= v < P() && (e == Rem(v, P()) || e == Rem(v + P(), P()) || e == Rem(v + P() + P(), P()))
    ensures v == e
  {
    hide P;
    var p := P();
    ModSmall(v, p);
    DivModUnique(v + p, 1, v, p);
    DivModUnique(v + p + p, 2, v, p);
  }

  /** Two bytes to a limb. */
  lemma {:induction false} PairsValue(o: seq<int>, s: seq<int>)
    requires |o| == 2 * |s| && forall j :: 0 <= j < |s| ==> s[j] == Pair(o[2 * j], o[2 * j + 1])
    ensures Val(256, o) == Val(R, s)
  {
    if |s| > 0 {
      var o', s' := o[2..], s[1..];
      forall j | 0 <= j < |s'|
        ensures s'[j] == Pair(o'[2 * j], o'[2 * j + 1])
      {
        assert s'[j] == s[j + 1] && o'[2 * j] == o[2 * (j + 1)] && o'[2 * j + 1] == o[2 * (j + 1) + 1];
      }
      PairsValue(o', s');
      assert o[1..][1..] == o';
      assert s[0] == Pair(o[2 * 0], o[2 * 0 + 1]);
      assert Val(256, o) == o[0] + 256 * (o[1] + 256 * Val(256, o'));
    }
  }

  // ----- unpack25519 -----

  method Unpack(o: array<i64>, n: array<u8>)
    requires o.Length == 16 && n.Length == 32
    modifies o
    ensures IsDigits(R, o[..]) && Pow(2, 255) > 0 && Val(R, o[..]) == Rem(Val(256, n[..]), Pow(2, 255))
  {
    hide Val, Pow, Rem;
    for i := 0 to 16
      invariant forall j :: 0 <= j < i ==> o[j] == Pair(n[2 * j], n[2 * j + 1])
    {
      o[i] := Pair(n[2 * i], n[2 * i + 1]);
    }
    ghost var s := o[..];
    PairsValue(n[..], s);
    o[15] := o[15] % 0x8000;
    MaskTop(s);
    assert o[..] == s[15 := s[15] % 0x8000];
  }

  lemma MaskTop(s: seq<int>)
    requires |s| == 16 && IsDigits(R, s)
    ensures IsDigits(R, s[15 := s[15] % 0x8000])
    ensures Pow(2, 255) > 0 && Val(R, s[15 := s[15] % 0x8000]) == Rem(Val(R, s), Pow(2, 255))
  {
    hide Val, Pow;
    var d := s[15] % 0x8000;
    var t := s[15 := d];
    TopBit();
    ValUpdate(R, s, 15, d);
    ValAt(R, t, 15);
    assert t[..15 + 1] == t;
    ValBound(R, t[..15]);
    MaskArith(Val(R, s), Val(R, t), Val(R, t[..15]), Pow(R, 15), s[15], d, Pow(2, 255));
  }

  lemma MaskArith(v: int, w: int, lo: int, p: int, x: int, d: int, q: int)
    requires p > 0 && q == 0x8000 * p && x >= 0 && d == x % 0x8000
    requires w == v + p * (d - x) && w == lo + p * d && 0 <= lo < p
    ensures w == Rem(v, q)
  {
    var k := x / 0x8000;
    assert p * (d - x) == -(k * q) by {
      assert d - x == -(0x8000 * k);
      assert p * -(0x8000 * k) == -(k * (0x8000 * p));
    }
    MulLe(p, 0, d);
    MulLe(p, d, 0x7fff);
    DivModUnique(v, k, w, q);
  }

  // ----- neq25519 -----

  /** crypto_verify_32: 0 for equal strings, else -1. */
  method Verify32(x: array<u8>, y: array<u8>) returns (r: int)
    requires x.Length == y.Length == 32
    ensures r == if x[..] == y[..] then 0 else -1
  {
    var d := 0;
    for i := 0 to 32
      invariant 0 <= d < Pow(2, 8) && (d == 0 <==> x[..i] == y[..i])
    {
      XorZero(x[i], y[i], 8);
      OrZero(d, Xor(x[i], y[i]), 8);
      d := Or(d, Xor(x[i], y[i]));
      assert x[..i + 1] == x[..i] + [x[i]] && y[..i + 1] == y[..i] + [y[i]];
    }
    assert x[..32] == x[..] && y[..32] == y[..];
    SmallPowers();
    r := ((d - 1) % 0x1_0000_0000 / 256) % 2 - 1;
  }

  /** neq25519 decides equality in the field. */
  method NotEqual(a: array<i64>, b: array<i64>) returns (r: int)
    requires a.Length == b.Length == 16 && Small(a[..], 0x2000_0000_0000_0000) && Small(b[..], 0x2000_0000_0000_0000)
    ensures r == if Fe(a[..]) == Fe(b[..]) then 0 else -1
  {
    hide Val, P, Fe;
    var c := new u8[32](_ => 0);
    var d := new u8[32](_ => 0);
    Pack(c, a);
    Pack(d, b);
    r := Verify32(c, d);
    if Fe(a[..]) == Fe(b[..]) {
      ValInjective(256, c[..], d[..]);
    }
  }
}
