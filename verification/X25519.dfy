/**
 The Montgomery ladder of Curve25519 on limbs, against the ladder over the
 integers of section 5 of RFC 7748.
 */
module X25519 {
  import opened Arith
  import opened Bytes
  import opened Digits
  import opened Field25519
  import opened Pack25519

  // ----- section 5 of RFC 7748 -----

  /** The two points of the ladder, projectively. */
  datatype Points = Points(x2: int, z2: int, x3: int, z3: int)

  ghost function CSwap(b: int, l: Points): Points
  {
    if b == 1 then Points(l.x3, l.z3, l.x2, l.z2) else l
  }

  /** One differential addition and doubling; x1 is the u-coordinate. */
  ghost function Step(l: Points, x1: int): Points
  {
    var A := FAdd(l.x2, l.z2);
    var AA := FMul(A, A);
    var B := FSub(l.x2, l.z2);
    var BB := FMul(B, B);
    var E := FSub(AA, BB);
    var C := FAdd(l.x3, l.z3);
    var D := FSub(l.x3, l.z3);
    var DA := FMul(D, A);
    var CB := FMul(C, B);
    Points(FMul(AA, BB), FMul(E, FAdd(AA, FMul(121665, E))),
           FMul(FAdd(DA, CB), FAdd(DA, CB)), FMul(x1, FMul(FSub(DA, CB), FSub(DA, CB))))
  }

  function Bit(k: nat, t: nat): (b: int)
    ensures 0 <= b <= 1
  {
    PowPositive(2, t);
    (k / Pow(2, t)) % 2
  }

  /** The points after bits 254 down to t, and the swap still owed. */
  ghost function Ladder(k: nat, u: int, t: nat): (r: (Points, int))
    requires t <= 255
    ensures 0 <= r.1 <= 1
    decreases 255 - t
  {
    if t == 255 then (Points(1, 0, u, 1), 0)
    else
      var (l, swap) := Ladder(k, u, t + 1);
      var kt := Bit(k, t);
      (Step(CSwap(if swap == kt then 0 else 1, l), u), kt)
  }

  ghost function FPow(x: int, e: nat): int
  {
    Rem(Pow(x, e), P())
  }

  ghost function X25519(k: nat, u: int): (r: int)
  {
    var (l, swap) := Ladder(k, u, 0);
    var l' := CSwap(swap, l);
    FMul(l'.x2, FPow(l'.z2, P() - 2))
  }

  /** A scalar: bits 0, 1, 2 and 255 cleared, bit 254 set. */
  ghost function DecodeScalar(v: nat): nat
  {
    PowPositive(2, 251);
    PowPositive(2, 254);
    Pow(2, 254) + 8 * ((v / 8) % Pow(2, 251))
  }

  /** A u-coordinate: the top bit ignored, non-canonical values reduced. */
  ghost function DecodeU(v: nat): int
  {
    PowPositive(2, 255);
    Rem(Rem(v, Pow(2, 255)), P())
  }

  // ----- one round on limbs -----

  lemma ReducedSmall(s: seq<int>)
    requires Reduced(s)
    ensures Small(s, FACTOR)
  {
    assert forall i :: 0 < i < 16 ==> s[i] == s[1..][i - 1];
  }

  method Sum(o: array<i64>, a: array<i64>, b: array<i64>)
    requires o.Length == a.Length == b.Length == 16 && Reduced(a[..]) && Reduced(b[..])
    modifies o
    ensures Small(o[..], FACTOR) && Fe(o[..]) == FAdd(old(Fe(a[..])), old(Fe(b[..])))
  {
    hide Fe, FAdd;
    LimbRange(a[..], b[..]);
    Add(o, a, b);
  }

  method Difference(o: array<i64>, a: array<i64>, b: array<i64>)
    requires o.Length == a.Length == b.Length == 16 && Reduced(a[..]) && Reduced(b[..])
    modifies o
    ensures Small(o[..], FACTOR) && Fe(o[..]) == FSub(old(Fe(a[..])), old(Fe(b[..])))
  {
    hide Fe, FSub;
    LimbRange(a[..], b[..]);
    Subtract(o, a, b);
  }

  lemma LimbRange(x: seq<int>, y: seq<int>)
    requires Reduced(x) && Reduced(y)
    ensures forall i :: 0 <= i < 16 ==> -38 <= x[i] <= 65573 && -38 <= y[i] <= 65573
  {
    assert forall i :: 0 < i < 16 ==> x[i] == x[1..][i - 1] && y[i] == y[1..][i - 1];
  }

  /** e = A, d = AA, f = BB, a = CB, c = DA. */
  method FirstHalf(a: array<i64>, b: array<i64>, c: array<i64>, d: array<i64>, e: array<i64>, f: array<i64>)
    requires a.Length == b.Length == c.Length == d.Length == e.Length == f.Length == 16
    requires a != b && a != c && a != d && a != e && a != f && b != c && b != d && b != e && b != f
    requires c != d && c != e && c != f && d != e && d != f && e != f
    requires Reduced(a[..]) && Reduced(b[..]) && Reduced(c[..]) && Reduced(d[..])
    modifies a, b, c, d, e, f
    ensures Reduced(a[..]) && Reduced(c[..]) && Reduced(d[..]) && Reduced(f[..])
    ensures Fe(d[..]) == FMul(FAdd(old(Fe(a[..])), old(Fe(c[..]))), FAdd(old(Fe(a[..])), old(Fe(c[..]))))
    ensures Fe(f[..]) == FMul(FSub(old(Fe(a[..])), old(Fe(c[..]))), FSub(old(Fe(a[..])), old(Fe(c[..]))))
    ensures Fe(a[..]) == FMul(FAdd(old(Fe(b[..])), old(Fe(d[..]))), FSub(old(Fe(a[..])), old(Fe(c[..]))))
    ensures Fe(c[..]) == FMul(FSub(old(Fe(b[..])), old(Fe(d[..]))), FAdd(old(Fe(a[..])), old(Fe(c[..]))))
  {
    hide Fe, FAdd, FSub, FMul, Reduced, Small;
    Sum(e, a, c);
    Difference(a, a, c);
    Sum(c, b, d);
    Difference(b, b, d);
    Square(d, e);
    Square(f, a);
    Multiply(a, c, a);
    Multiply(c, b, e);
  }

  /** The rest of the round. */
  method SecondHalf(a: array<i64>, b: array<i64>, c: array<i64>, d: array<i64>, e: array<i64>, f: array<i64>, x: array<i64>, k: array<i64>)
    requires a.Length == b.Length == c.Length == d.Length == e.Length == f.Length == x.Length == k.Length == 16
    requires a != b && a != c && a != d && a != e && a != f && b != c && b != d && b != e && b != f
    requires c != d && c != e && c != f && d != e && d != f && e != f
    requires x !in {a, b, c, d, e, f} && k !in {a, b, c, d, e, f}
    requires Reduced(a[..]) && Reduced(c[..]) && Reduced(d[..]) && Reduced(f[..]) && Reduced(x[..]) && Reduced(k[..])
    modifies a, b, c, d, e
    ensures Reduced(a[..]) && Reduced(b[..]) && Reduced(c[..]) && Reduced(d[..])
    ensures Fe(a[..]) == FMul(old(Fe(d[..])), old(Fe(f[..])))
    ensures Fe(b[..]) == FMul(FAdd(old(Fe(a[..])), old(Fe(c[..]))), FAdd(old(Fe(a[..])), old(Fe(c[..]))))
    ensures Fe(d[..]) == FMul(FMul(FSub(old(Fe(a[..])), old(Fe(c[..]))), FSub(old(Fe(a[..])), old(Fe(c[..])))), old(Fe(x[..])))
    ensures Fe(c[..]) ==
      FMul(FSub(old(Fe(d[..])), old(Fe(f[..]))), FAdd(FMul(FSub(old(Fe(d[..])), old(Fe(f[..]))), old(Fe(k[..]))), old(Fe(d[..]))))
  {
    hide Fe, FAdd, FSub, FMul, Reduced, Small;
    ReducedSmall(x[..]);
    ReducedSmall(k[..]);
    ReducedSmall(d[..]);
    ReducedSmall(f[..]);
    Sum(e, a, c);
    Difference(a, a, c);
    Square(b, a);
    Difference(c, d, f);
    Multiply(a, c, k);
    Sum(a, a, d);
    Multiply(c, c, a);
    Multiply(a, d, f);
    ReducedSmall(b[..]);
    Multiply(d, b, x);
    Square(b, e);
  }

  ghost function PointsOf(a: seq<int>, b: seq<int>, c: seq<int>, d: seq<int>): Points
  {
    Points(Fe(a), Fe(c), Fe(b), Fe(d))
  }

  lemma FMulSwap(x: int, y: int)
    ensures FMul(x, y) == FMul(y, x) && FAdd(x, y) == FAdd(y, x)
  {
    assert x * y == y * x;
  }

  /** The square does not depend on the sign. */
  lemma SquareOfDifference(x: int, y: int)
    ensures FMul(FSub(x, y), FSub(x, y)) == FMul(FSub(y, x), FSub(y, x))
  {
    hide P, Cong, Rem;
    RemIsCong(x - y, P());
    RemIsCong(y - x, P());
    NegatedSquare(FSub(x, y), FSub(y, x), x - y, P());
  }

  lemma NegatedSquare(u: int, v: int, w: int, p: int)
    requires p > 0 && Cong(u, w, p) && Cong(v, -w, p)
    ensures Rem(u * u, p) == Rem(v * v, p)
  {
    hide Cong;
    CongMul(u, w, u, w, p);
    CongMul(v, -w, v, -w, p);
    assert (-w) * (-w) == w * w;
    RemCong(u * u, w * w, p);
    RemCong(v * v, w * w, p);
  }

  /** The body of the ladder between its swaps. */
  method Round(a: array<i64>, b: array<i64>, c: array<i64>, d: array<i64>, e: array<i64>, f: array<i64>, x: array<i64>, k: array<i64>)
    requires a.Length == b.Length == c.Length == d.Length == e.Length == f.Length == x.Length == k.Length == 16
    requires a != b && a != c && a != d && a != e && a != f && b != c && b != d && b != e && b != f
    requires c != d && c != e && c != f && d != e && d != f && e != f
    requires x !in {a, b, c, d, e, f} && k !in {a, b, c, d, e, f}
    requires Reduced(a[..]) && Reduced(b[..]) && Reduced(c[..]) && Reduced(d[..]) && Reduced(x[..])
    requires Reduced(k[..]) && Fe(k[..]) == 121665
    modifies a, b, c, d, e, f
    ensures Reduced(a[..]) && Reduced(b[..]) && Reduced(c[..]) && Reduced(d[..])
    ensures PointsOf(a[..], b[..], c[..], d[..]) == Step(old(PointsOf(a[..], b[..], c[..], d[..])), Fe(x[..]))
  {
    hide Fe, FAdd, FSub, FMul, Reduced, Small;
    FirstHalf(a, b, c, d, e, f);
    ghost var CB, DA, AA, BB := Fe(a[..]), Fe(c[..]), Fe(d[..]), Fe(f[..]);
    SecondHalf(a, b, c, d, e, f, x, k);
    ghost var E := FSub(AA, BB);
    FMulSwap(CB, DA);
    SquareOfDifference(DA, CB);
    FMulSwap(FMul(FSub(DA, CB), FSub(DA, CB)), Fe(x[..]));
    FMulSwap(E, 121665);
    FMulSwap(FMul(E, 121665), AA);
  }

  // ----- the swaps -----

  /** Swapping before and after a bit pays what the deferred swap owes. */
  lemma EagerSwap(k: nat, u: int, t: nat, now: Points)
    requires t < 255 && now == CSwap(Ladder(k, u, t + 1).1, Ladder(k, u, t + 1).0)
    ensures CSwap(Bit(k, t), Step(CSwap(Bit(k, t), now), u)) == CSwap(Ladder(k, u, t).1, Ladder(k, u, t).0)
  {
    hide Step, Bit;
  }

  /** Bit i of the scalar, from its byte. */
  lemma ByteBit(z: seq<int>, i: nat)
    requires IsDigits(256, z) && i / 8 < |z|
    ensures Val(256, z) >= 0 && Pow(2, i % 8) > 0 && (z[i / 8] / Pow(2, i % 8)) % 2 == Bit(Val(256, z), i)
  {
    hide Val, Pow;
    var j, b := i / 8, i % 8;
    ValBound(256, z);
    ValDivMod(256, z, j);
    ValAt(256, z, j);
    SmallPowers();
    PowPow(2, 8, j);
    PowAdd(2, 8 * j, b);
    PowAdd(2, 8 - b, b);
    PowPositive(2, 8 * j);
    PowPositive(2, b);
    PowNext(2, 7 - b);
    DivDiv(Val(256, z), Pow(2, 8 * j), Pow(2, b));
    assert 8 - b == (7 - b) + 1;
    BitArith(z[j], Val(256, z[j + 1..]), Pow(2, b), Pow(2, 7 - b));
  }

  lemma BitArith(d: int, w: int, p: int, h: int)
    requires p > 0 && (2 * h) * p == 256
    ensures (d / p) % 2 == ((d + 256 * w) / p) % 2
  {
    MulAssoc(w, 2 * h, p);
    assert w * (2 * h) == 2 * (h * w);
    EvenShift(d, 256 * w, p, h * w);
  }

  lemma EvenShift(d: int, n: int, p: int, s: int)
    requires p > 0 && n == (2 * s) * p
    ensures (d / p) % 2 == ((d + n) / p) % 2
  {
    var q, r := d / p, d % p;
    DivModDef(d, p);
    ShiftQuotient(d, n, p, q, r, 2 * s);
    EvenMore(q, s);
  }

  lemma ShiftQuotient(d: int, n: int, p: int, q: int, r: int, t: int)
    requires p > 0 && d == q * p + r && 0 <= r < p && n == t * p
    ensures (d + n) / p == q + t
  {
    assert (q + t) * p == q * p + t * p;
    DivModUnique(d + n, q + t, r, p);
  }

  lemma EvenMore(q: int, s: int)
    ensures (q + 2 * s) % 2 == q % 2
  {
  }

  // ----- the scalar -----

  method Clamp(n: array<u8>) returns (z: array<u8>)
    requires n.Length == 32
    ensures fresh(z) && z.Length == 32 && Val(256, n[..]) >= 0 && Val(256, z[..]) == DecodeScalar(Val(256, n[..]))
  {
    hide Val, DecodeScalar;
    z := new u8[32](_ => 0);
    for i := 0 to 31
      invariant forall j :: 0 <= j < i ==> z[j] == n[j]
    {
      z[i] := n[i];
    }
    z[31] := n[31] % 64 + 64;
    z[0] := z[0] - z[0] % 8;
    ClampedValue(n[..], z[..]);
  }

  lemma ClampedValue(n: seq<int>, z: seq<int>)
    requires |n| == |z| == 32 && IsDigits(256, n) && z[31] == n[31] % 64 + 64 && z[0] == n[0] - n[0] % 8
    requires forall i :: 0 < i < 31 ==> z[i] == n[i]
    ensures Val(256, n) >= 0 && Val(256, z) == DecodeScalar(Val(256, n))
  {
    hide Val, Pow;
    ValBound(256, n);
    ThreeParts(n);
    ThreeParts(z);
    assert n[1..31] == z[1..31];
    var m, p := Val(256, n[1..31]), Pow(2, 245);
    ValBound(256, n[1..31]);
    SmallPowers();
    PowPow(2, 8, 30);
    PowAdd(2, 5, 240);
    PowAdd(2, 3, 245);
    PowAdd(2, 6, 245);
    PowAdd(2, 6, 248);
    SmallPowers();
    ClampArith(n[0], m, n[31], p, Val(256, n));
    assert Pow(2, 251) == 64 * p && Pow(2, 254) == 512 * p;
  }

  lemma ThreeParts(s: seq<int>)
    requires |s| == 32
    ensures Val(256, s) == s[0] + 256 * Val(256, s[1..31]) + 8 * Pow(2, 245) * s[31]
  {
    hide Val, Pow;
    ValAt(256, s, 0);
    assert s[0..] == s;
    var t := s[1..];
    ValAt(256, t, 30);
    assert t[..30 + 1] == t && t[..30] == s[1..31];
    SmallPowers();
    PowPow(2, 8, 30);
    PowAdd(2, 5, 240);
  }

  lemma ClampArith(a: int, m: int, b: int, p: int, v: int)
    requires 0 <= a < 256 && m >= 0 && 32 * m <= p - 32 && p > 0 && 0 <= b < 256 && v == a + 256 * m + 8 * p * b
    ensures (a - a % 8) + 256 * m + 8 * p * (b % 64 + 64) == 512 * p + 8 * ((v / 8) % (64 * p))
  {
    var w, d, n := a / 8 + 32 * m, b % 64, p * b;
    assert 8 * p * b == 8 * n;
    DivModUnique(v, w + n, a % 8, 8);
    LowBits(w, b, p);
    assert 8 * p * (d + 64) == 512 * p + 8 * (p * d);
  }

  lemma LowBits(w: int, b: int, p: int)
    requires p > 0 && 0 <= w < p && b >= 0
    ensures (w + p * b) % (64 * p) == w + p * (b % 64)
  {
    var c, d := b / 64, b % 64;
    assert p * b == c * (64 * p) + p * d by { assert b == 64 * c + d; }
    MulLe(p, 0, d);
    MulLe(p, d, 63);
    DivModUnique(w + p * b, c, w + p * d, 64 * p);
  }

  /** The scalar lies between 2^254 and 2^255. */
  lemma ScalarRange(v: nat)
    ensures Pow(2, 254) <= DecodeScalar(v) < Pow(2, 255)
  {
    hide Pow;
    PowPositive(2, 251);
    PowPositive(2, 254);
    PowAdd(2, 3, 251);
    PowNext(2, 254);
    SmallPowers();
    DivModDef(v / 8, Pow(2, 251));
  }

  /** Bit by bit: 0, 1, 2 and all from 255 up are cleared, 254 is set, the others are those of v. */
  lemma ScalarBits(v: nat, i: nat)
    ensures Bit(DecodeScalar(v), i) == if i < 3 || i >= 255 then 0 else if i == 254 then 1 else Bit(v, i)
  {
    hide Pow, Bit, DecodeScalar;
    PowPositive(2, i);
    ScalarRange(v);
    if i < 3 {
      LowScalarBit(v, i);
    } else if i < 254 {
      MiddleScalarBit(v, i);
    } else if i == 254 {
      PowNext(2, 254);
      DivModUnique(DecodeScalar(v), 1, DecodeScalar(v) - Pow(2, 254), Pow(2, 254));
      BitIs(DecodeScalar(v), i, 1);
    } else {
      PowMonotone(2, 255, i);
      ModSmall(DecodeScalar(v), Pow(2, i));
      BitIs(DecodeScalar(v), i, 0);
    }
  }

  lemma BitIs(k: nat, t: nat, q: int)
    requires Pow(2, t) > 0 && k / Pow(2, t) == q
    ensures Bit(k, t) == q % 2
  {
  }

  /** Without its three low bits the scalar is 2^251 and the low bits of v / 8. */
  lemma ScalarEighth(v: nat)
    ensures Pow(2, 251) > 0 && DecodeScalar(v) == 8 * (Pow(2, 251) + (v / 8) % Pow(2, 251))
  {
    hide Pow;
    PowPositive(2, 251);
    PowAdd(2, 3, 251);
    SmallPowers();
  }

  lemma LowScalarBit(v: nat, i: nat)
    requires i < 3
    ensures Bit(DecodeScalar(v), i) == 0
  {
    hide Pow, Bit, DecodeScalar;
    ScalarEighth(v);
    var m := Pow(2, 251) + (v / 8) % Pow(2, 251);
    PowPositive(2, i);
    PowAdd(2, i, 3 - i);
    PowNext(2, 2 - i);
    SmallPowers();
    var p, e := Pow(2, i), Pow(2, 2 - i);
    assert 8 * m == (2 * (e * m)) * p by { assert p * (2 * e) == 8; assert (p * (2 * e)) * m == (2 * (e * m)) * p; }
    DivModUnique(8 * m, 2 * (e * m), 0, p);
    BitIs(DecodeScalar(v), i, 2 * (e * m));
  }

  lemma MiddleScalarBit(v: nat, i: nat)
    requires 3 <= i < 254
    ensures Bit(DecodeScalar(v), i) == Bit(v, i)
  {
    hide Pow, DecodeScalar;
    ScalarEighth(v);
    var j := i - 3;
    var x, p, q := v / 8, Pow(2, j), Pow(2, 251);
    var w := x % q;
    PowPositive(2, j);
    PowAdd(2, 3, j);
    PowAdd(2, j, 251 - j);
    PowNext(2, 250 - j);
    SmallPowers();
    DivDiv(DecodeScalar(v), 8, p);
    DivDiv(v, 8, p);
    DivModUnique(DecodeScalar(v), q + w, 0, 8);
    var e := Pow(2, 250 - j);
    assert q == (2 * e) * p;
    EvenShift(w, q, p, e);
    DivModDef(x, q);
    var c := x / q;
    assert c * q == (2 * (c * e)) * p by { assert c * ((2 * e) * p) == (2 * (c * e)) * p; }
    EvenShift(w, c * q, p, c * e);
    assert w + q == q + w && w + c * q == x;
  }

  /** Only the top bit of a u-coordinate is ignored. */
  lemma CoordinateBits(v: nat)
    requires v < Pow(2, 256)
    ensures DecodeU(v) == Rem(v - Bit(v, 255) * Pow(2, 255), P())
  {
    hide Pow, P;
    PowPositive(2, 255);
    PowNext(2, 255);
    var q := Pow(2, 255);
    DivModDef(v, q);
    DivMonotone(0, v, q);
    if v / q >= 2 { MulLe(q, 2, v / q); }
    assert Bit(v, 255) == v / q;
  }

  // ----- inv25519 -----

  /** The exponent reached after the steps for 253 down to a. */
  ghost function InverseExponent(a: nat): nat
    requires a <= 254
    decreases 254 - a
  {
    if a == 254 then 1 else 2 * InverseExponent(a + 1) + if a == 2 || a == 4 then 0 else 1
  }

  lemma {:induction false} OnesExponent(a: nat)
    requires 5 <= a <= 254
    ensures InverseExponent(a) == Pow(2, 255 - a) - 1
    decreases 254 - a
  {
    hide Pow;
    PowNext(2, 254 - a);
    if a == 254 {
      assert Pow(2, 0) == 1 by { PowFirst(2); }
    } else {
      OnesExponent(a + 1);
    }
  }

  lemma FullExponent()
    ensures InverseExponent(0) == P() - 2
  {
    hide Pow, P;
    OnesExponent(5);
    PrimeIs();
    PowNext(2, 250);
    PowNext(2, 251);
    PowNext(2, 252);
    PowNext(2, 253);
    PowNext(2, 254);
    assert InverseExponent(4) == 2 * InverseExponent(5);
    assert InverseExponent(3) == 2 * InverseExponent(4) + 1;
    assert InverseExponent(2) == 2 * InverseExponent(3);
    assert InverseExponent(1) == 2 * InverseExponent(2) + 1;
    assert InverseExponent(0) == 2 * InverseExponent(1) + 1;
  }

  lemma FPowAdd(x: int, e: nat, f: nat)
    ensures FMul(FPow(x, e), FPow(x, f)) == FPow(x, e + f)
  {
    hide Pow, P, Rem, Cong;
    var p := P();
    PowAdd(x, e, f);
    RemIsCong(Pow(x, e), p);
    RemIsCong(Pow(x, f), p);
    CongMul(FPow(x, e), Pow(x, e), FPow(x, f), Pow(x, f), p);
    RemCong(FPow(x, e) * FPow(x, f), Pow(x, e) * Pow(x, f), P());
  }

  lemma FPowOne(x: int)
    requires 0 <= x < P()
    ensures FPow(x, 1) == x
  {
    hide P;
    assert Pow(x, 1) == x * Pow(x, 0) == x;
    ModSmall(x, P());
  }

  /** The squarings and multiplications of inv25519. */
  method PowerOf(i: array<i64>) returns (c: array<i64>)
    requires i.Length == 16 && Reduced(i[..])
    ensures fresh(c) && c.Length == 16 && Reduced(c[..]) && P() >= 2 && Fe(c[..]) == FPow(Fe(i[..]), P() - 2)
  {
    hide Fe, FMul, FPow, P, Reduced, Small, InverseExponent;
    ghost var x := Fe(i[..]);
    c := CopyOf(i);
    FPowOne(x);
    InverseStart();
    for a := 254 downto 0
      invariant Reduced(c[..]) && Fe(c[..]) == FPow(x, InverseExponent(a))
    {
      ReducedSmall(c[..]);
      Square(c, c);
      ghost var e := InverseExponent(a + 1);
      FPowAdd(x, e, e);
      InverseNext(a);
      if a != 2 && a != 4 {
        ReducedSmall(c[..]);
        ReducedSmall(i[..]);
        Multiply(c, c, i);
        FPowAdd(x, e + e, 1);
      }
    }
    FullExponent();
  }

  /** inv25519: the power p - 2. */
  method Invert(o: array<i64>, i: array<i64>)
    requires o.Length == i.Length == 16 && Reduced(i[..])
    modifies o
    ensures Reduced(o[..]) && P() >= 2 && Fe(o[..]) == FPow(old(Fe(i[..])), P() - 2)
  {
    hide Fe, FPow, P, Reduced;
    var c := PowerOf(i);
    ghost var s := c[..];
    for a := 0 to 16
      invariant c[..] == s && o[..a] == s[..a]
    {
      o[a] := c[a];
    }
    assert o[..] == s;
  }

  lemma InverseStart()
    ensures InverseExponent(254) == 1
  {
  }

  lemma InverseNext(a: nat)
    requires a < 254
    ensures InverseExponent(a) == 2 * InverseExponent(a + 1) + if a == 2 || a == 4 then 0 else 1
  {
  }

  // ----- dropbear_curve25519_scalarmult -----

  lemma Constants(k: seq<int>, one: seq<int>, zero: seq<int>)
    requires |k| == |one| == |zero| == 16 && AllZero(zero)
    requires k[0] == 0xDB41 && k[1] == 1 && AllZero(k[2..]) && one[0] == 1 && AllZero(one[1..])
    ensures Reduced(k) && Fe(k) == 121665 && Reduced(one) && Fe(one) == 1 && Reduced(zero) && Fe(zero) == 0
  {
    hide P, Pow;
    ValZero(R, zero);
    ValZero(R, one[1..]);
    ValZero(R, k[2..]);
    assert k[1..][1..] == k[2..];
    assert Val(R, k) == 0xDB41 + R * (1 + R * 0);
    ModSmall(121665, P());
    ModSmall(1, P());
    ModSmall(0, P());
    assert forall i :: 2 <= i < 16 ==> k[i] == k[2..][i - 2];
  }

  lemma UnpackedReduced(s: seq<int>, v: int)
    requires |s| == 16 && IsDigits(R, s) && v >= 0 && Pow(2, 255) > 0 && Val(R, s) == Rem(v, Pow(2, 255))
    ensures Reduced(s) && Fe(s) == DecodeU(v)
  {
    hide P, Pow, Val, Rem;
  }

  /** One bit: the round between its two swaps. */
  method LadderBit(a: array<i64>, b: array<i64>, c: array<i64>, d: array<i64>, e: array<i64>, f: array<i64>, x: array<i64>, k: array<i64>, r: int)
    requires a.Length == b.Length == c.Length == d.Length == e.Length == f.Length == x.Length == k.Length == 16
    requires a != b && a != c && a != d && a != e && a != f && b != c && b != d && b != e && b != f
    requires c != d && c != e && c != f && d != e && d != f && e != f
    requires x !in {a, b, c, d, e, f} && k !in {a, b, c, d, e, f}
    requires Reduced(a[..]) && Reduced(b[..]) && Reduced(c[..]) && Reduced(d[..]) && Reduced(x[..])
    requires Reduced(k[..]) && Fe(k[..]) == 121665 && 0 <= r <= 1
    modifies a, b, c, d, e, f
    ensures Reduced(a[..]) && Reduced(b[..]) && Reduced(c[..]) && Reduced(d[..])
    ensures PointsOf(a[..], b[..], c[..], d[..]) == CSwap(r, Step(CSwap(r, old(PointsOf(a[..], b[..], c[..], d[..]))), Fe(x[..])))
  {
    hide Fe, Reduced, Step;
    Select(a, b, r);
    Select(c, d, r);
    Round(a, b, c, d, e, f, x, k);
    Select(a, b, r);
    Select(c, d, r);
  }

  /** The ladder with a swap before and after each bit. */
  method RunLadder(z: array<u8>, x: array<i64>) returns (a: array<i64>, c: array<i64>)
    requires z.Length == 32 && x.Length == 16 && Reduced(x[..])
    ensures fresh(a) && fresh(c) && a != c && a.Length == c.Length == 16 && Reduced(a[..]) && Reduced(c[..])
    ensures Val(256, z[..]) >= 0
    ensures var l := Ladder(Val(256, z[..]), Fe(x[..]), 0); var l' := CSwap(l.1, l.0); Fe(a[..]) == l'.x2 && Fe(c[..]) == l'.z2
  {
    hide Fe, Reduced, Step, Val, Ladder, CSwap, Bit, P, Pow;
    var k := new i64[16](i => if i == 0 then 0xDB41 else if i == 1 then 1 else 0);
    a := new i64[16](i => if i == 0 then 1 else 0);
    var b := CopyOf(x);
    c := new i64[16](_ => 0);
    var d := new i64[16](i => if i == 0 then 1 else 0);
    var e := new i64[16](_ => 0);
    var f := new i64[16](_ => 0);
    Constants(k[..], a[..], c[..]);
    Constants(k[..], d[..], c[..]);
    ValBound(256, z[..]);
    ghost var v, u := Val(256, z[..]), Fe(x[..]);
    LadderStart(v, u);
    for i := 255 downto 0
      invariant Reduced(a[..]) && Reduced(b[..]) && Reduced(c[..]) && Reduced(d[..]) && Reduced(k[..]) && Fe(k[..]) == 121665
      invariant PointsOf(a[..], b[..], c[..], d[..]) == CSwap(Ladder(v, u, i).1, Ladder(v, u, i).0)
    {
      ByteBit(z[..], i);
      var r := (z[i / 8] / Pow(2, i % 8)) % 2;
      EagerSwap(v, u, i, PointsOf(a[..], b[..], c[..], d[..]));
      LadderBit(a, b, c, d, e, f, x, k, r);
    }
  }

  lemma LadderStart(v: nat, u: int)
    ensures CSwap(Ladder(v, u, 255).1, Ladder(v, u, 255).0) == Points(1, 0, u, 1)
  {
  }

  method ScalarMult(q: array<u8>, n: array<u8>, p: array<u8>)
    requires q.Length == n.Length == p.Length == 32
    modifies q
    ensures old(Val(256, n[..])) >= 0 && old(Val(256, p[..])) >= 0
    ensures Val(256, q[..]) == X25519(DecodeScalar(old(Val(256, n[..]))), DecodeU(old(Val(256, p[..]))))
  {
    hide Fe, FMul, FPow, Reduced, Small, Val, Ladder, CSwap, P, DecodeScalar, DecodeU, Pow;
    ValBound(256, n[..]);
    ValBound(256, p[..]);
    var z := Clamp(n);
    var x := new i64[16](_ => 0);
    Unpack(x, p);
    UnpackedReduced(x[..], Val(256, p[..]));
    var a, c := RunLadder(z, x);
    Invert(c, c);
    ReducedSmall(a[..]);
    ReducedSmall(c[..]);
    Multiply(a, a, c);
    ReducedSmall(a[..]);
    SmallMore(a[..], FACTOR, 0x2000_0000_0000_0000);
    Pack(q, a);
  }
}
