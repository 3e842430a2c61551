/**
 Little-endian positional notation.  The entries of a sequence need not be
 digits: delayed carries and signed limbs have a value too.
 */
module Digits {
  import opened Arith

  /** The number written by `s` in base `b`, least significant entry first. */
  function Val(b: int, s: seq<int>): int
    decreases |s|
  {
    if |s| == 0 then 0 else s[0] + b * Val(b, s[1..])
  }

  predicate IsDigits(b: int, s: seq<int>)
  {
    forall i :: 0 <= i < |s| ==> 0 <= s[i] < b
  }

  predicate AllZero(s: seq<int>)
  {
    forall i :: 0 <= i < |s| ==> s[i] == 0
  }

  function Zeros(n: nat): (z: seq<int>)
    ensures |z| == n && AllZero(z)
  {
    seq(n, i => 0)
  }

  lemma {:induction false} ValAppend(b: int, s: seq<int>, t: seq<int>)
    ensures Val(b, s + t) == Val(b, s) + Pow(b, |s|) * Val(b, t)
  {
    if |s| == 0 {
      assert s + t == t;
    } else {
      ValAppend(b, s[1..], t);
      assert (s + t)[1..] == s[1..] + t;
      MulAssoc(b, Pow(b, |s| - 1), Val(b, t));
    }
  }

  lemma ValSplit(b: int, s: seq<int>, i: nat)
    requires i <= |s|
    ensures Val(b, s) == Val(b, s[..i]) + Pow(b, i) * Val(b, s[i..])
  {
    assert s == s[..i] + s[i..];
    ValAppend(b, s[..i], s[i..]);
  }

  /** Splitting off the entry at position `i`. */
  lemma ValAt(b: int, s: seq<int>, i: nat)
    requires i < |s|
    ensures Val(b, s[i..]) == s[i] + b * Val(b, s[i + 1..])
    ensures Val(b, s[..i + 1]) == Val(b, s[..i]) + Pow(b, i) * s[i]
  {
    assert s[i..][1..] == s[i + 1..];
    assert s[..i + 1] == s[..i] + [s[i]];
    ValAppend(b, s[..i], [s[i]]);
    assert Val(b, [s[i]]) == s[i] + b * Val(b, []);
  }

  lemma ValSingle(b: int, d: int)
    ensures Val(b, []) == 0 && Val(b, [d]) == d
  {
    assert Val(b, [d]) == d + b * Val(b, []);
  }

  lemma ValUpdate(b: int, s: seq<int>, i: nat, v: int)
    requires i < |s|
    ensures Val(b, s[i := v]) == Val(b, s) + Pow(b, i) * (v - s[i])
  {
    var t := s[i := v];
    ValSplit(b, s, i);
    ValSplit(b, t, i);
    ValAt(b, s, i);
    ValAt(b, t, i);
    assert s[..i] == t[..i] && s[i + 1..] == t[i + 1..];
    var p, w := Pow(b, i), Val(b, s[i + 1..]);
    assert p * (v + b * w) == p * (s[i] + b * w) + p * (v - s[i]);
  }

  lemma {:induction false} ValBound(b: int, s: seq<int>)
    requires b > 0 && IsDigits(b, s)
    ensures 0 <= Val(b, s) < Pow(b, |s|)
  {
    if |s| != 0 {
      ValBound(b, s[1..]);
      HornerBound(b, s[0], Val(b, s[1..]), Pow(b, |s| - 1));
    }
  }

  lemma {:induction false} ValZero(b: int, s: seq<int>)
    requires AllZero(s)
    ensures Val(b, s) == 0
  {
    if |s| != 0 {
      ValZero(b, s[1..]);
    }
  }

  /** Zero cells on top do not change the number. */
  lemma ValTrim(b: int, s: seq<int>, n: nat)
    requires n <= |s| && AllZero(s[n..])
    ensures Val(b, s) == Val(b, s[..n])
  {
    ValSplit(b, s, n);
    ValZero(b, s[n..]);
  }

  /** Strings that agree up to zeros on top write the same number. */
  lemma ValSameDigits(b: int, s: seq<int>, t: seq<int>, n: nat)
    requires n <= |s| && n <= |t|
    requires forall i :: 0 <= i < n ==> s[i] == t[i]
    requires forall i :: n <= i < |s| ==> s[i] == 0
    requires forall i :: n <= i < |t| ==> t[i] == 0
    ensures Val(b, s) == Val(b, t)
  {
    assert s[..n] == t[..n];
    ValTrim(b, s, n);
    ValTrim(b, t, n);
  }

  /** Digits above the power that bounds the number are zero. */
  lemma {:induction false} HighDigitsZero(b: int, s: seq<int>, n: nat)
    requires b > 0 && IsDigits(b, s) && n <= |s| && Val(b, s) < Pow(b, n)
    ensures AllZero(s[n..])
  {
    if n < |s| {
      var m := |s| - 1;
      ValAt(b, s, m);
      assert s[..m + 1] == s;
      ValBound(b, s[..m]);
      PowMonotone(b, n, m);
      if s[m] > 0 { MulLe(Pow(b, m), 1, s[m]); }
      HighDigitsZero(b, s[..m], n);
      assert forall i :: n <= i < m ==> s[..m][n..][i - n] == s[i];
    }
  }

  /** A number with a nonzero top digit reaches the power below its length. */
  lemma ValTop(b: int, s: seq<int>)
    requires b > 0 && IsDigits(b, s) && |s| > 0 && s[|s| - 1] > 0
    ensures Pow(b, |s| - 1) <= Val(b, s) < Pow(b, |s|)
  {
    var n := |s| - 1;
    ValBound(b, s);
    ValAt(b, s, n);
    assert s[..n + 1] == s;
    ValBound(b, s[..n]);
    MulLe(Pow(b, n), 1, s[n]);
  }

  /** The upper part of a digit string is the quotient by a power of the base. */
  lemma ValDivMod(b: int, s: seq<int>, i: nat)
    requires b > 0 && IsDigits(b, s) && i <= |s|
    ensures Pow(b, i) > 0
    ensures Val(b, s) / Pow(b, i) == Val(b, s[i..])
    ensures Val(b, s) % Pow(b, i) == Val(b, s[..i])
  {
    hide Val;
    PowPositive(b, i);
    ValSplit(b, s, i);
    ValBound(b, s[..i]);
    DivModSplit(Val(b, s[..i]), Val(b, s[i..]), Pow(b, i));
  }

  /** Digit strings of one length that write the same number are equal. */
  lemma {:induction false} ValInjective(b: int, s: seq<int>, t: seq<int>)
    requires b > 0 && IsDigits(b, s) && IsDigits(b, t) && |s| == |t|
    requires Val(b, s) == Val(b, t)
    ensures s == t
  {
    if |s| != 0 {
      DivModUnique(Val(b, s), Val(b, s[1..]), s[0], b);
      DivModUnique(Val(b, t), Val(b, t[1..]), t[0], b);
      ValInjective(b, s[1..], t[1..]);
      assert s == [s[0]] + s[1..] && t == [t[0]] + t[1..];
    }
  }

  lemma QuotientSmaller(v: int, b: int)
    requires v > 0 && b > 1
    ensures v == v % b + b * (v / b) && 0 <= v % b < b && 0 <= v / b < v
  {
    DivModDef(v, b);
    if v / b >= v { MulLe(b, v, v / b); MulLe(v, 2, b); }
    DivMonotone(0, v, b);
  }

  /** The digits of `v`, without a zero on top. */
  function DigitsOf(b: int, v: nat): (s: seq<int>)
    requires b > 1
    ensures IsDigits(b, s) && Val(b, s) == v
    ensures |s| > 0 ==> s[|s| - 1] > 0
    decreases v
  {
    if v == 0 then []
    else
      QuotientSmaller(v, b);
      var t := DigitsOf(b, v / b);
      var s := [v % b] + t;
      assert s[1..] == t;
      assert |t| == 0 ==> s[|s| - 1] > 0;
      s
  }
}
