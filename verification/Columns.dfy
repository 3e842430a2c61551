/**
 Columns and carries: what the digit loops of multiplication, squaring and
 Montgomery reduction have in common.
 */
module Columns {
  import opened Arith
  import opened Digits
  import opened Mp

  /** A 64-bit column: every store into it is checked not to wrap. */
  type Word = w: int | 0 <= w < 0x1_0000_0000_0000_0000

  lemma ProductBound(a: int, b: int)
    requires 0 <= a < B && 0 <= b < B
    ensures 0 <= a * b <= (B - 1) * (B - 1)
  {
    MulLe(b, a, B - 1);
    MulLe(B - 1, b, B - 1);
    MulLe(b, 0, a);
  }

  lemma RowStep(mu: int, v: int, p: int, d: int)
    ensures mu * (v + p * d) == mu * v + p * (mu * d)
  {
    assert mu * (p * d) == p * (mu * d);
  }

  /** The low 28 bits of every column. */
  function Masked(s: seq<int>): (t: seq<int>)
    ensures |t| == |s| && IsDigits(B, t)
    ensures forall i :: 0 <= i < |s| ==> t[i] == s[i] % B
  {
    seq(|s|, i requires 0 <= i < |s| => s[i] % B)
  }

  lemma CarryStep(done: seq<int>, tail: seq<int>, tail': seq<int>)
    requires |tail| >= 2 && tail' == tail[1..][0 := tail[1] + tail[0] / B]
    ensures Val(B, done + [tail[0] % B]) + Pow(B, |done| + 1) * Val(B, tail') == Val(B, done) + Pow(B, |done|) * Val(B, tail)
  {
    var w, p, q := tail[0], Pow(B, |done|), tail[0] / B;
    ValAppend(B, done, [w % B]);
    assert Val(B, [w % B]) == w % B + B * Val(B, []);
    ValUpdate(B, tail[1..], 0, tail[1] + q);
    var v := Val(B, tail[1..]);
    assert Val(B, tail') == v + q;
    CarryAlgebra(p, w, v, q, w % B);
  }

  lemma CarryAlgebra(p: int, w: int, v: int, q: int, r: int)
    requires w == q * B + r
    ensures p * r + (B * p) * (v + q) == p * (w + B * v)
  {
    assert p * w == p * (q * B) + p * r;
    assert (B * p) * (v + q) == p * (B * v) + p * (q * B);
  }

  lemma CopiedColumns(d: seq<int>, s: seq<int>, w: int)
    requires |d| == |s| + 1 && 0 <= w < B && d[|s|] == w % B
    requires forall i :: 0 <= i < |s| ==> d[i] == s[i] % B
    ensures d == Masked(s) + [w]
  {
  }

  /** A digit with its carry, rewritten in place: the value gains p * r - p * d. */
  lemma DigitStep(s: seq<int>, pos: nat, u: int, r: int, add: int)
    requires pos < |s| && r == add + u + s[pos]
    ensures Val(B, s[pos := r % B]) + (r / B) * Pow(B, pos + 1) == Val(B, s) + u * Pow(B, pos) + Pow(B, pos) * add
  {
    var p, q := Pow(B, pos), r / B;
    ValUpdate(B, s, pos, r % B);
    DigitAlgebra(p, q, r % B, r, s[pos], u, add);
  }

  lemma DigitAlgebra(p: int, q: int, m: int, r: int, d: int, u: int, add: int)
    requires r == q * B + m && r == add + u + d
    ensures p * (m - d) + q * (B * p) == u * p + p * add
  {
    assert p * m + p * (q * B) == p * r;
  }

  lemma RowColumn(ix: nat, iy: nat, mu: int, v: int, d: int)
    ensures Pow(B, ix) * (mu * (v + Pow(B, iy) * d)) == Pow(B, ix) * (mu * v) + Pow(B, ix + iy) * (mu * d)
  {
    var p, q := Pow(B, ix), Pow(B, iy);
    PowAdd(B, ix, iy);
    RowStep(mu, v, q, d);
    assert p * (q * (mu * d)) == (p * q) * (mu * d) by { MulAssoc(p, q, mu * d); }
    assert p * (mu * v + q * (mu * d)) == p * (mu * v) + p * (q * (mu * d));
  }

  lemma NoRow(mu: int, s: seq<int>, ix: nat)
    ensures Pow(B, ix) * (mu * Val(B, s[..0])) == 0
  {
  }

  /** Multiply y by one digit and add it in place at position pos, up to the final carry. */
  method AddRow(x: Int, y: seq<int>, mu: int, pos: nat) returns (u: int)
    requires 0 <= mu < B && IsDigits(B, y) && IsDigits(B, x.dp) && pos + |y| <= |x.dp|
    modifies x`dp
    ensures |x.dp| == old(|x.dp|) && IsDigits(B, x.dp) && 0 <= u < B
    ensures Val(B, x.dp) + u * Pow(B, pos + |y|) == old(Val(B, x.dp)) + Pow(B, pos) * (mu * Val(B, y))
    ensures forall j :: 0 <= j < |x.dp| && (j < pos || j >= pos + |y|) ==> x.dp[j] == old(x.dp[j])
    ensures |y| > 0 ==> x.dp[pos] == (old(x.dp[pos]) + mu * y[0]) % B
  {
    hide Val, Pow;
    u := 0;
    NoRow(mu, y, pos);
    for iy := 0 to |y|
      invariant |x.dp| == old(|x.dp|) && IsDigits(B, x.dp) && 0 <= u < B
      invariant iy == 0 ==> u == 0
      invariant Val(B, x.dp) + u * Pow(B, pos + iy) == old(Val(B, x.dp)) + Pow(B, pos) * (mu * Val(B, y[..iy]))
      invariant forall j :: 0 <= j < |x.dp| && (j < pos || j >= pos + iy) ==> x.dp[j] == old(x.dp[j])
      invariant iy > 0 ==> x.dp[pos] == (old(x.dp[pos]) + mu * y[0]) % B
    {
      var d := y[iy];
      ProductBound(mu, d);
      var r: Word := mu * d + u + x.dp[pos + iy];
      DigitStep(x.dp, pos + iy, u, r, mu * d);
      ValAt(B, y, iy);
      RowColumn(pos, iy, mu, Val(B, y[..iy]), d);
      u := r / B;
      x.dp := x.dp[pos + iy := r % B];
    }
    assert y[..|y|] == y;
  }

  lemma MagOfDigits(n: Int)
    requires n.Valid()
    ensures n.Mag() == Val(B, n.dp[..n.used])
  {
    ValTrim(B, n.dp, n.used);
  }

  /** Carry propagation; it stops inside the buffer because the sum fits. */
  method Propagate(x: Int, u: int, pos: nat)
    requires IsDigits(B, x.dp) && 0 <= u < 4 * B && pos <= |x.dp|
    requires Val(B, x.dp) + u * Pow(B, pos) < Pow(B, |x.dp|)
    modifies x`dp
    ensures |x.dp| == old(|x.dp|) && IsDigits(B, x.dp)
    ensures Val(B, x.dp) == old(Val(B, x.dp)) + u * Pow(B, pos)
    ensures forall j :: 0 <= j < pos ==> x.dp[j] == old(x.dp[j])
  {
    hide Val, Pow;
    var c, i := u, pos;
    while c != 0
      invariant |x.dp| == old(|x.dp|) && IsDigits(B, x.dp) && 0 <= c < 4 * B && pos <= i <= |x.dp|
      invariant Val(B, x.dp) + c * Pow(B, i) == old(Val(B, x.dp)) + u * Pow(B, pos)
      invariant forall j :: 0 <= j < pos ==> x.dp[j] == old(x.dp[j])
      decreases |x.dp| - i
    {
      CarryFits(x.dp, c, i);
      var s := x.dp[i] + c;
      DigitStep(x.dp, i, c, s, 0);
      c := s / B;
      x.dp := x.dp[i := s % B];
      i := i + 1;
    }
  }

  lemma CarryFits(s: seq<int>, c: int, i: nat)
    requires IsDigits(B, s) && c > 0 && i <= |s| && Val(B, s) + c * Pow(B, i) < Pow(B, |s|)
    ensures i < |s|
  {
    ValBound(B, s);
    if i == |s| {
      PowPositive(B, i);
      MulLe(Pow(B, i), 1, c);
    }
  }
}
