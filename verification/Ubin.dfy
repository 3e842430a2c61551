/** Big-endian byte strings to and from integers. */
module Ubin {
  import opened Arith
  import opened Bits
  import opened Bytes
  import opened Digits
  import opened Mp

  /** The number a byte string writes, most significant byte first. */
  function BigEndian(s: seq<u8>): (v: nat)
  {
    if |s| == 0 then 0 else 256 * BigEndian(s[..|s| - 1]) + s[|s| - 1]
  }

  lemma {:induction false} BigEndianBound(s: seq<u8>)
    ensures BigEndian(s) < Pow(256, |s|)
  {
    if |s| > 0 {
      BigEndianBound(s[..|s| - 1]);
    }
  }

  lemma {:induction false} BigEndianSplit(s: seq<u8>, t: seq<u8>)
    ensures BigEndian(s + t) == BigEndian(s) * Pow(256, |t|) + BigEndian(t)
  {
    if |t| == 0 {
      assert s + t == s;
    } else {
      var m := |t| - 1;
      assert (s + t)[..|s + t| - 1] == s + t[..m];
      BigEndianSplit(s, t[..m]);
      ShiftSum(BigEndian(s), Pow(256, m), BigEndian(t[..m]), t[m]);
    }
  }

  lemma ShiftSum(a: int, p: int, b: int, c: int)
    ensures 256 * (a * p + b) + c == a * (256 * p) + (256 * b + c)
  {
    assert 256 * (a * p) == a * (256 * p);
  }

  /** Byte strings of one length that write the same number are equal. */
  lemma {:induction false} BigEndianInjective(s: seq<u8>, t: seq<u8>)
    requires |s| == |t| && BigEndian(s) == BigEndian(t)
    ensures s == t
  {
    if |s| > 0 {
      var m := |s| - 1;
      DivModUnique(BigEndian(s), BigEndian(s[..m]), s[m], 256);
      DivModUnique(BigEndian(t), BigEndian(t[..m]), t[m], 256);
      BigEndianInjective(s[..m], t[..m]);
      assert s == s[..m] + [s[m]] && t == t[..m] + [t[m]];
    }
  }

  // ----- mp_mul_2d within a digit -----

  /** One cell shifted by d bits, with the carry r below and the next carry above. */
  lemma ShiftCell(x: int, r: int, p: int, t: int)
    requires 0 <= x < B && 0 <= r < p && p * t == B && t > 0
    ensures 0 <= x / t < p && 0 <= (x * p) % B + r < B && (x / t) * B + (x * p) % B + r == x * p + r
  {
    DivModDef(x, t);
    var q, m := x / t, x % t;
    assert x * p == q * B + m * p by { assert (q * t + m) * p == q * (p * t) + m * p; }
    MulLe(p, 0, m);
    MulLe(p, m, t - 1);
    assert (t - 1) * p == B - p;
    DivModUnique(x * p, q, m * p, B);
    DivMonotone(0, x, t);
    if q >= p { MulLe(t, p, q); }
  }

  /** The loop of mp_mul_2d for a shift of 0 < d < 28 bits: p is 2^d. */
  method ShiftCells(dp: seq<int>, used: nat, p: int, t: int) returns (out: seq<int>, r: int)
    requires used <= |dp| && IsDigits(B, dp) && p > 0 && t > 0 && p * t == B
    ensures |out| == used && IsDigits(B, out) && 0 <= r < p
    ensures Val(B, out) + r * Pow(B, used) == p * Val(B, dp[..used])
    ensures used > 0 && dp[used - 1] == 0 ==> r == 0
  {
    hide Val, Pow;
    out, r := [], 0;
    NoCells(p, dp);
    for x := 0 to used
      invariant |out| == x && IsDigits(B, out) && 0 <= r < p
      invariant Val(B, out) + r * Pow(B, x) == p * Val(B, dp[..x])
      invariant x > 0 && dp[x - 1] == 0 ==> r == 0
    {
      ShiftCell(dp[x], r, p, t);
      CellAdded(dp, x, out, r, p, (dp[x] * p) % B + r, dp[x] / t);
      if dp[x] == 0 { DivModUnique(0, 0, 0, t); }
      out := out + [(dp[x] * p) % B + r];
      r := dp[x] / t;
    }
  }

  lemma NoCells(p: int, dp: seq<int>)
    ensures Val(B, []) + 0 * Pow(B, 0) == p * Val(B, dp[..0])
  {
    ValZero(B, []);
    ValZero(B, dp[..0]);
  }

  lemma CellAdded(dp: seq<int>, x: nat, out: seq<int>, r: int, p: int, cell: int, r': int)
    requires x < |dp| && |out| == x && Val(B, out) + r * Pow(B, x) == p * Val(B, dp[..x])
    requires r' * B + cell == dp[x] * p + r
    ensures Val(B, out + [cell]) + r' * Pow(B, x + 1) == p * Val(B, dp[..x + 1])
  {
    hide Val, Pow;
    ValAppend(B, out, [cell]);
    ValSingle(B, cell);
    ValAt(B, dp, x);
    var q, v := Pow(B, x), Val(B, dp[..x]);
    PowNext(B, x);
    assert r' * (B * q) + q * cell == q * (r' * B + cell) by { assert r' * (B * q) == q * (r' * B); }
    assert q * (dp[x] * p + r) == p * (q * dp[x]) + r * q by { assert q * (dp[x] * p) == p * (q * dp[x]); }
    assert p * (v + q * dp[x]) == p * v + p * (q * dp[x]);
  }

  /** mp_mul_2d(a, 8, a): the buffer grows first, and the slack of a zero top digit takes the carry. */
  method ShiftByte(a: Int)
    requires a.Loose() && !a.neg
    modifies a
    ensures a.Valid() && !a.neg && a.Value() == 256 * old(a.Value())
    ensures |a.dp| >= old(a.used) + 1 && |a.dp| >= old(|a.dp|)
    ensures old(a.used > 0 && a.dp[a.used - 1] == 0) ==> a.used <= old(a.used)
  {
    hide Val, Pow;
    ghost var v, n := a.Value(), a.used;
    a.Grow(a.used + 1);
    var used := a.used;
    var out, r := ShiftCells(a.dp, used, 256, 0x10_0000);
    ghost var d := a.dp;
    LooseValue(d, used);
    if r != 0 {
      a.dp := out + [r] + a.dp[used + 1..];
      a.used := used + 1;
    } else {
      a.dp := out + a.dp[used..];
    }
    ShiftedCells(d, used, out, r, a.dp);
    a.Clamp();
  }

  lemma LooseValue(d: seq<int>, used: nat)
    requires used <= |d| && forall i :: used <= i < |d| ==> d[i] == 0
    ensures Val(B, d) == Val(B, d[..used])
  {
    ValTrim(B, d, used);
  }

  lemma ShiftedCells(d: seq<int>, used: nat, out: seq<int>, r: int, e: seq<int>)
    requires used < |d| && |out| == used && e == (if r != 0 then out + [r] + d[used + 1..] else out + d[used..])
    requires forall i :: used <= i < |d| ==> d[i] == 0
    ensures Val(B, e) == Val(B, out) + r * Pow(B, used)
  {
    hide Val, Pow;
    var n := if r != 0 then used + 1 else used;
    var cells := if r != 0 then out + [r] else out;
    assert e[..n] == cells;
    ValTrim(B, e, n);
    ValAppend(B, out, [r]);
    ValSingle(B, r);
  }

  // ----- mp_from_ubin -----

  /** Between bytes: the top digit may be a zero, and only one digit may be without that slack. */
  ghost predicate Slack(a: Int)
    reads a
  {
    a.Loose() && !a.neg && |a.dp| >= 2 && (a.used == 1 ==> a.Value() < 256) && (a.used >= 2 ==> a.dp[a.used - 1] == 0)
  }

  method FromUbin(a: Int, buf: seq<u8>)
    requires a.Loose()
    modifies a
    ensures a.Valid() && a.Value() == BigEndian(buf)
  {
    hide Val, Pow, Int.Value, Slack;
    a.Grow(2);
    a.Store(0);
    StartSlack(a);
    for i := 0 to |buf|
      invariant Slack(a) && a.Value() == BigEndian(buf[..i])
    {
      assert buf[..i + 1][..i] == buf[..i];
      AddByte(a, buf[i]);
    }
    assert buf[..|buf|] == buf;
    SlackLoose(a);
    ghost var v := a.Value();
    a.Clamp();
    ClampedValue(a, v);
  }

  lemma StartSlack(a: Int)
    requires a.Valid() && a.Value() == 0 && |a.dp| >= 2
    ensures Slack(a)
  {
    MagBounds(a);
  }

  lemma SlackLoose(a: Int)
    requires Slack(a)
    ensures a.Loose() && !a.neg && a.Mag() == a.Value()
  {
  }

  lemma ClampedValue(a: Int, v: int)
    requires a.Valid() && a.Mag() == v && !a.neg
    ensures a.Value() == v
  {
  }

  /** One byte: shift, or it in, and count one digit more than there may be. */
  method AddByte(a: Int, b: u8)
    requires Slack(a)
    modifies a
    ensures Slack(a) && a.Value() == 256 * old(a.Value()) + b
  {
    hide Val, Pow, Slack;
    ghost var used, v := a.used, a.Value();
    SlackShift(a);
    ShiftByte(a);
    FewDigits(a, used, v);
    LowByteFree(a, v);
    var low := Or(a.dp[0], b);
    ghost var d := a.dp;
    OneByteMore(d, low, b);
    a.dp := a.dp[0 := low];
    a.used := a.used + 1;
    SlackAgain(a, d, v, b);
  }

  lemma SlackShift(a: Int)
    requires Slack(a)
    ensures a.Loose() && !a.neg && |a.dp| >= 2 && (a.used >= 2 ==> a.dp[a.used - 1] == 0) && (a.used == 1 ==> a.Value() < 256)
    ensures a.Value() >= 0 && (a.used == 0 ==> a.Value() == 0)
  {
    ValBound(B, a.dp);
    if a.used == 0 { ValZero(B, a.dp); }
  }

  /** After the shift there is room for the digit the byte is counted as. */
  lemma FewDigits(a: Int, used: nat, v: int)
    requires a.Valid() && !a.neg && a.Value() == 256 * v && (used == 0 ==> v == 0) && (used == 1 ==> v < 256)
    requires |a.dp| >= 2 && |a.dp| >= used + 1 && (used >= 2 ==> a.used <= used)
    ensures a.used + 1 <= |a.dp|
  {
    hide Pow;
    MagBounds(a);
    if used <= 1 && a.used > 1 {
      PowMonotone(B, 1, a.used - 1);
      PowFirst(B);
    }
  }

  lemma LowByteFree(a: Int, v: int)
    requires a.Valid() && !a.neg && a.Value() == 256 * v && |a.dp| >= 2 && v >= 0
    ensures a.dp[0] % 256 == 0 && 0 <= a.dp[0] <= B - 256
  {
    var w := Val(B, a.dp[1..]);
    assert a.Mag() == a.dp[0] + B * w;
    assert a.dp[0] == 256 * (v - 0x10_0000 * w);
  }

  lemma OneByteMore(d: seq<int>, low: int, b: int)
    requires |d| > 0 && d[0] >= 0 && d[0] % 256 == 0 && 0 <= b < 256 && low == Or(d[0], b)
    ensures low == d[0] + b && Val(B, d[0 := low]) == Val(B, d) + b
  {
    SmallPowers();
    OrDisjoint(d[0], b, 8);
    ValUpdate(B, d, 0, low);
    assert Pow(B, 0) == 1;
  }

  lemma SlackAgain(a: Int, d: seq<int>, v: int, b: int)
    requires v >= 0 && 0 <= b < 256 && |d| >= 2 && IsDigits(B, d) && d[0] <= B - 256 && !a.neg && 0 < a.used <= |d|
    requires a.dp == d[0 := d[0] + b] && Val(B, d) == 256 * v && Val(B, a.dp) == 256 * v + b
    requires forall i :: a.used - 1 <= i < |d| ==> d[i] == 0
    ensures Slack(a) && a.Value() == 256 * v + b
  {
    if a.used == 1 {
      ValZero(B, d);
    }
  }

  // ----- mp_to_ubin -----

  /** mp_ubin_size: the bytes of v. */
  function UbinSize(v: nat): (n: nat)
  {
    BitLen(v) / 8 + if BitLen(v) % 8 != 0 then 1 else 0
  }

  lemma UbinSizeBounds(v: nat)
    ensures v < Pow(256, UbinSize(v)) && (v > 0 ==> UbinSize(v) > 0 && Pow(256, UbinSize(v) - 1) <= v)
  {
    hide Pow, BitLen;
    BitLenBounds(v);
    var n, bits := UbinSize(v), BitLen(v);
    SmallPowers();
    PowPow(2, 8, n);
    PowMonotone(2, bits, 8 * n);
    if v > 0 {
      PowPow(2, 8, n - 1);
      PowMonotone(2, 8 * (n - 1), bits - 1);
    }
  }

  /** mp_to_ubin: the magnitude, in as many bytes as it needs. */
  method ToUbin(a: Int, maxlen: nat) returns (err: Err, buf: seq<u8>)
    requires a.Valid() && |a.dp| > 0
    ensures a.Mag() >= 0 && err == (if UbinSize(a.Mag()) > maxlen then BUF else OKAY)
    ensures err == OKAY ==> |buf| == UbinSize(a.Mag()) && BigEndian(buf) == a.Mag()
  {
    hide Val, Pow, Int.Value, Int.Valid, Rem, Quot, BigEndian;
    MagBounds(a);
    buf := [];
    var bits := CountBits(a);
    var count := bits / 8 + if bits % 8 != 0 then 1 else 0;
    if count > maxlen {
      return BUF, [];
    }
    var t := new Int();
    AbsOf(a, t);
    MagIsAbs(a);
    UbinSizeBounds(t.Value());
    buf := WriteBytes(t, count);
    err := OKAY;
  }

  /** The loop: bytes from the last to the first. */
  method WriteBytes(t: Int, count: nat) returns (buf: seq<u8>)
    requires t.Valid() && |t.dp| > 0 && 0 <= t.Value() < Pow(256, count)
    modifies t
    ensures |buf| == count && BigEndian(buf) == old(t.Value())
  {
    hide *;
    buf := [];
    ghost var v := t.Value();
    BytesStart(v);
    for x := count downto 0
      invariant t.Valid() && t.Value() >= 0 && |t.dp| > 0 && |buf| == count - x
      invariant v == t.Value() * Pow(256, |buf|) + BigEndian(buf) && t.Value() < Pow(256, x)
    {
      ghost var w := t.Value();
      var low := TakeByte(t);
      NextByte(v, w, buf, low, x);
      buf := [low] + buf;
    }
    BytesEnd(t.Value());
  }

  /** The low byte off t: t.dp[0] & 255, and mp_div_2d by 8. */
  method TakeByte(t: Int) returns (low: u8)
    requires t.Valid() && t.Value() >= 0 && |t.dp| > 0
    modifies t
    ensures t.Valid() && |t.dp| > 0 && t.Value() == Quot(old(t.Value()), 256) && low == old(t.Value()) % 256
  {
    hide Val, Pow, Int.Value, Quot, Rem;
    LowByte(t);
    SmallPowers();
    low := t.dp[0] % 256;
    var rest := new Int();
    Div2d(t, 8, t, rest);
  }

  lemma MagIsAbs(a: Int)
    requires a.Valid()
    ensures a.Mag() == Abs(a.Value())
  {
    MagBounds(a);
  }

  lemma BytesStart(v: int)
    ensures v == v * Pow(256, 0) + BigEndian([])
  {
  }

  lemma BytesEnd(w: int)
    requires 0 <= w < Pow(256, 0)
    ensures w == 0
  {
  }

  lemma LowByte(t: Int)
    requires t.Valid() && t.Value() >= 0 && |t.dp| > 0
    ensures t.dp[0] % 256 == t.Value() % 256
  {
    NonnegValue(t);
    var w := Val(B, t.dp[1..]);
    assert t.Mag() == t.dp[0] + 256 * (0x10_0000 * w);
    CongIntro(t.Mag(), t.dp[0], 0x10_0000 * w, 256);
  }

  lemma NextByte(v: int, w: int, buf: seq<u8>, low: u8, x: nat)
    requires w >= 0 && v == w * Pow(256, |buf|) + BigEndian(buf) && low == w % 256 && w < Pow(256, x + 1)
    ensures v == Quot(w, 256) * Pow(256, |buf| + 1) + BigEndian([low] + buf) && 0 <= Quot(w, 256) < Pow(256, x)
  {
    BigEndianSplit([low], buf);
    assert BigEndian([low]) == 256 * BigEndian([low][..0]) + low;
    var q, p := w / 256, Pow(256, |buf|);
    assert w * p == q * (256 * p) + low * p by { assert (q * 256 + low) * p == (q * 256) * p + low * p; MulAssoc(q, 256, p); }
  }
}
