/** The cursor buffer of the wire format, and its multiple-precision integers. */
module Buffer {
  import opened Arith
  import opened Bytes
  import opened Mp
  import opened Ubin

  const BUF_MAX_INCR := 1_000_000_000
  const BUF_MAX_SIZE := 1_000_000_000
  const BUF_MAX_MPINT := 1030

  // ----- the formats of section 5 of RFC 4251 -----

  /** A uint32, most significant byte first. */
  function U32(n: nat): (b: seq<u8>)
    requires n < 0x1_0000_0000
    ensures |b| == 4 && BigEndian(b) == n
  {
    U32Sum(n);
    U32Value(n / 0x100_0000, n / 0x1_0000 % 256, n / 256 % 256, n % 256);
    [n / 0x100_0000, n / 0x1_0000 % 256, n / 256 % 256, n % 256]
  }

  lemma U32Sum(n: nat)
    requires n < 0x1_0000_0000
    ensures n / 0x100_0000 < 256 && Load32(n / 0x100_0000, n / 0x1_0000 % 256, n / 256 % 256, n % 256) == n
  {
    var h := n / 256;
    assert n / 0x1_0000 == h / 256 && n / 0x100_0000 == h / 256 / 256;
  }

  /** LOAD32H. */
  function Load32(a: int, b: int, c: int, d: int): int
  {
    ((a * 256 + b) * 256 + c) * 256 + d
  }

  lemma U32Value(a: u8, b: u8, c: u8, d: u8)
    ensures BigEndian([a, b, c, d]) == Load32(a, b, c, d)
  {
    assert [a, b, c, d][..3] == [a, b, c] && [a, b, c][..2] == [a, b] && [a, b][..1] == [a] && [a][..0] == [];
    assert BigEndian([a]) == a;
    assert BigEndian([a, b]) == 256 * a + b;
    assert BigEndian([a, b, c]) == 256 * BigEndian([a, b]) + c;
    assert BigEndian([a, b, c, d]) == 256 * BigEndian([a, b, c]) + d;
  }

  /** The shortest two's complement form of a number that is not negative. */
  ghost predicate IsMpintBody(b: seq<u8>, v: nat)
  {
    && BigEndian(b) == v && (b != [] ==> b[0] < 128)
    && (b != [] && b[0] == 0 ==> |b| > 1 && b[1] >= 128)
  }

  /** No two strings are the body of the same number. */
  lemma BodyUnique(a: seq<u8>, b: seq<u8>, v: nat)
    requires IsMpintBody(a, v) && IsMpintBody(b, v)
    ensures a == b
  {
    if |a| < |b| {
      BodyLarge(b, v);
      BodySmall(a, v);
      PowMonotone(256, |a|, |b| - 1);
    } else if |b| < |a| {
      BodyLarge(a, v);
      BodySmall(b, v);
      PowMonotone(256, |b|, |a| - 1);
    } else {
      BigEndianInjective(a, b);
    }
  }

  lemma LeadByte(b: seq<u8>)
    requires |b| > 0
    ensures BigEndian(b) == b[0] * Pow(256, |b| - 1) + BigEndian(b[1..]) && BigEndian(b[1..]) < Pow(256, |b| - 1)
  {
    assert b == [b[0]] + b[1..];
    BigEndianSplit([b[0]], b[1..]);
    assert [b[0]][..0] == [] && BigEndian([b[0]]) == b[0];
    BigEndianBound(b[1..]);
  }

  /** A body of n bytes stays below half of 256^n. */
  lemma BodySmall(b: seq<u8>, v: nat)
    requires IsMpintBody(b, v)
    ensures 2 * v < 2 * Pow(256, |b|) && (|b| > 0 ==> 2 * v < Pow(256, |b|))
  {
    BigEndianBound(b);
    if |b| > 0 {
      LeadByte(b);
      MulLe(Pow(256, |b| - 1), b[0], 127);
      assert Pow(256, |b|) == 256 * Pow(256, |b| - 1);
    }
  }

  /** A body of n bytes reaches at least half of 256^(n-1). */
  lemma BodyLarge(b: seq<u8>, v: nat)
    requires IsMpintBody(b, v) && |b| > 0
    ensures 2 * v >= Pow(256, |b| - 1)
  {
    LeadByte(b);
    var p := Pow(256, |b| - 1);
    PowPositive(256, |b| - 1);
    if b[0] > 0 {
      MulLe(p, 1, b[0]);
    } else {
      LeadByte(b[1..]);
      var q := Pow(256, |b| - 2);
      PowPositive(256, |b| - 2);
      MulLe(q, 128, b[1]);
      assert p == 256 * q;
    }
  }

  /** The bytes mp_to_ubin writes, with a zero in front when the top bit is set. */
  lemma BodyOf(u: seq<u8>, v: nat)
    requires v > 0 && |u| == UbinSize(v) && BigEndian(u) == v
    ensures IsMpintBody(if BitLen(v) % 8 == 0 then [0] + u else u, v)
  {
    hide Pow, BitLen, UbinSize, BigEndian;
    TopBits(v);
    LeadByte(u);
    LeadRange(u[0], Pow(256, |u| - 1), BigEndian(u[1..]), v);
    if BitLen(v) % 8 == 0 {
      var b := [0] + u;
      assert b[1..] == u;
      LeadByte(b);
    }
  }

  lemma LeadRange(x: int, p: int, rest: int, v: int)
    requires p > 0 && 0 <= rest < p && v == x * p + rest
    ensures v >= 128 * p ==> x >= 128
    ensures v < 128 * p ==> x < 128
    ensures v >= p ==> x >= 1
  {
    if x < 128 { MulLe(p, x, 127); } else { MulLe(p, 128, x); }
    if x < 1 { MulLe(p, x, 0); }
  }

  /** Whether the top bit of the top byte is set. */
  lemma TopBits(v: nat)
    requires v > 0
    ensures UbinSize(v) > 0 && 0 < Pow(256, UbinSize(v) - 1) <= v
    ensures BitLen(v) % 8 == 0 <==> v >= 128 * Pow(256, UbinSize(v) - 1)
  {
    hide Pow, BitLen;
    UbinSizeBounds(v);
    BitLenBounds(v);
    var n, bits := UbinSize(v), BitLen(v);
    SmallPowers();
    PowPow(2, 8, n - 1);
    PowAdd(2, 7, 8 * (n - 1));
    PowPositive(256, n - 1);
    if bits % 8 != 0 {
      PowMonotone(2, bits, 8 * (n - 1) + 7);
    }
  }

  // ----- the buffer -----

  class Buf {
    const data: array<u8>
    var len: nat
    var pos: nat

    ghost predicate Valid()
      reads this
    {
      pos <= len <= data.Length <= BUF_MAX_SIZE
    }

    /** buf_new, within the size it accepts. */
    constructor (size: nat)
      requires size <= BUF_MAX_SIZE
      ensures Valid() && fresh(data) && data.Length == size && len == 0 && pos == 0
    {
      data := new u8[size](_ => 0);
      len, pos := 0, 0;
    }

    // Results named ok are false where the source exits.

    method SetLen(n: nat) returns (ok: bool)
      requires Valid()
      modifies this`len, this`pos
      ensures Valid() && ok == (n <= data.Length)
      ensures if ok then len == n && pos == Min(old(pos), n) else len == old(len) && pos == old(pos)
    {
      if n > data.Length {
        return false;
      }
      len := n;
      pos := Min(pos, len);
      ok := true;
    }

    method IncrLen(incr: nat) returns (ok: bool)
      requires Valid()
      modifies this`len
      ensures Valid() && ok == (old(len) + incr <= data.Length) && len == if ok then old(len) + incr else old(len)
    {
      if incr > BUF_MAX_INCR || len + incr > data.Length {
        return false;
      }
      len := len + incr;
      ok := true;
    }

    method SetPos(n: nat) returns (ok: bool)
      requires Valid()
      modifies this`pos
      ensures Valid() && ok == (n <= len) && pos == if ok then n else old(pos)
    {
      if n > len {
        return false;
      }
      pos := n;
      ok := true;
    }

    method IncrWritePos(incr: nat) returns (ok: bool)
      requires Valid()
      modifies this`pos, this`len
      ensures Valid() && ok == (old(pos) + incr <= data.Length)
      ensures if ok then pos == old(pos) + incr && len == Max(old(len), pos) else pos == old(pos) && len == old(len)
    {
      if incr > BUF_MAX_INCR || pos + incr > data.Length {
        return false;
      }
      pos := pos + incr;
      if pos > len {
        len := pos;
      }
      ok := true;
    }

    method IncrPos(incr: nat) returns (ok: bool)
      requires Valid()
      modifies this`pos
      ensures Valid() && ok == (old(pos) + incr <= len) && pos == if ok then old(pos) + incr else old(pos)
    {
      if incr > BUF_MAX_INCR || pos + incr > len {
        return false;
      }
      pos := pos + incr;
      ok := true;
    }

    method DecrPos(decr: nat) returns (ok: bool)
      requires Valid()
      modifies this`pos
      ensures Valid() && ok == (decr <= old(pos)) && pos == if ok then old(pos) - decr else old(pos)
    {
      if decr > pos {
        return false;
      }
      pos := pos - decr;
      ok := true;
    }

    /** What writing bytes at the cursor does. */
    twostate predicate Wrote(bytes: seq<u8>)
      reads this, data
    {
      && pos == old(pos) + |bytes| <= data.Length && len == Max(old(len), pos)
      && data[..] == Splice(old(data[..]), old(pos), bytes)
    }

    /** buf_putbytes. */
    method PutBytes(bytes: seq<u8>) returns (ok: bool)
      requires Valid()
      modifies this`pos, this`len, data
      ensures Valid() && ok == (old(pos) + |bytes| <= data.Length)
      ensures if ok then Wrote(bytes) else data[..] == old(data[..]) && pos == old(pos) && len == old(len)
    {
      if |bytes| > BUF_MAX_INCR || pos + |bytes| > data.Length {
        return false;
      }
      forall i | 0 <= i < |bytes| {
        data[pos + i] := bytes[i];
      }
      ok := IncrWritePos(|bytes|);
    }

    /** buf_putint. */
    method PutInt(val: nat) returns (ok: bool)
      requires Valid() && val < 0x1_0000_0000
      modifies this`pos, this`len, data
      ensures Valid() && ok == (old(pos) + 4 <= data.Length)
      ensures if ok then Wrote(U32(val)) else data[..] == old(data[..]) && pos == old(pos) && len == old(len)
      ensures ok ==> data[old(pos)] == val / 0x100_0000 && data[old(pos) + 1] == val / 0x1_0000 % 256
      ensures ok ==> data[old(pos) + 2] == val / 0x100 % 256 && data[old(pos) + 3] == val % 256
    {
      hide Splice;
      ghost var d, p := data[..], pos;
      ok := PutBytes(U32(val));
      if ok {
        FourBytes(d, p, val);
        ghost var e := data[..];
        assert data[p] == e[p] && data[p + 1] == e[p + 1] && data[p + 2] == e[p + 2] && data[p + 3] == e[p + 3];
      }
    }

    /** buf_putbyte. */
    method PutByte(val: u8) returns (ok: bool)
      requires Valid()
      modifies this`pos, this`len, data
      ensures Valid() && ok == (old(pos) + 1 <= data.Length)
      ensures if ok then Wrote([val]) else data[..] == old(data[..]) && pos == old(pos) && len == old(len)
    {
      if pos >= len {
        ok := IncrLen(1);
        if !ok {
          return;
        }
      }
      data[pos] := val;
      pos := pos + 1;
      ok := true;
    }

    /** buf_getint. */
    method GetInt() returns (ok: bool, val: nat)
      requires Valid()
      modifies this`pos
      ensures Valid() && ok == (old(pos) + 4 <= len)
      ensures ok ==> pos == old(pos) + 4 && val == BigEndian(data[old(pos)..pos]) && val < 0x1_0000_0000
      ensures ok ==> val == 0x100_0000 * (data[old(pos)] as int) + 0x1_0000 * (data[old(pos) + 1] as int) + 0x100 * (data[old(pos) + 2] as int) + data[old(pos) + 3] as int
      ensures !ok ==> pos == old(pos)
    {
      val := 0;
      if pos + 4 > len {
        return false, 0;
      }
      U32Value(data[pos], data[pos + 1], data[pos + 2], data[pos + 3]);
      assert data[pos..pos + 4] == [data[pos], data[pos + 1], data[pos + 2], data[pos + 3]];
      val := Load32(data[pos], data[pos + 1], data[pos + 2], data[pos + 3]);
      ok := IncrPos(4);
    }

    // ----- multiple-precision integers -----

    /** The length, the padding zero and the bytes of buf_putmpint. */
    method PutBody(len: nat, pad: nat, ubin: seq<u8>) returns (ok: bool)
      requires Valid() && len < 0x1_0000_0000 && pad <= 1 && len == pad + |ubin|
      modifies this`pos, this`len, data
      ensures Valid() && ok == (old(pos) + 4 + len <= data.Length)
      ensures ok ==> Wrote(U32(len) + ((if pad == 1 then [0] else []) + ubin))
    {
      hide U32, Splice;
      ghost var d, p, n := data[..], pos, this.len;
      ok := PutInt(len);
      if !ok {
        return;
      }
      Spliced(d, p, U32(len), (if pad == 1 then [0] else []) + ubin);
      if pad == 1 {
        ghost var e := data[..];
        ok := PutByte(0);
        if !ok {
          return;
        }
        Spliced(e, p + 4, [0], ubin);
      } else {
        assert [] + ubin == ubin;
      }
      ok := PutBytes(ubin);
    }

    /** buf_putmpint: exits on a negative number and when the room is too small. */
    method PutMpint(mp: Int) returns (ok: bool, ghost body: seq<u8>)
      requires Valid() && mp.Valid() && mp.used <= MAX_USED
      modifies this`pos, this`len, data
      ensures Valid() && (mp.Value() < 0 ==> !ok)
      ensures mp.Value() >= 0 ==> IsMpintBody(body, mp.Value()) && ok == (old(pos) + 4 + |body| <= data.Length)
      ensures ok ==> |body| < 0x1_0000_0000 && Wrote(U32(|body|) + body)
    {
      hide BigEndian, Int.Value, Int.Valid, Int.Mag, UbinSize, BitLen, IsMpintBody, U32;
      MpintSign(mp);
      if mp.neg {
        return false, [];
      }
      var len, pad := 0, 0;
      if mp.used != 0 {
        var bits := CountBits(mp);
        pad := if bits % 8 == 0 then 1 else 0;
        len := bits / 8 + 1;
      }
      MpintLength(mp, len, pad);
      var ubin := [];
      if len > 0 {
        var err;
        err, ubin := ToUbin(mp, len - pad);
      } else {
        NoBytes();
        NoSize();
      }
      body := (if pad == 1 then [0] else []) + ubin;
      MpintBody(mp.Value(), ubin, pad);
      ok := PutBody(len, pad, ubin);
    }

    /** buf_getmpint: success, or failure for a negative or overlong number; ok is false where it exits. */
    method GetMpint(mp: Int) returns (ok: bool, success: bool)
      requires Valid() && mp.Loose()
      modifies this`pos, mp
      ensures Valid()
      ensures ok && success ==> mp.Valid() && HasMpint(data[..], len, old(pos), mp.Value(), pos - old(pos) - 4)
      ensures forall v, n :: HasMpint(data[..], len, old(pos), v, n) ==> ok && success && mp.Value() == v && pos == old(pos) + 4 + n
    {
      hide BigEndian, Int.Value, Int.Valid, Int.Loose;
      success := false;
      ghost var d, p := data[..], pos;
      var n;
      ok, n := GetInt();
      if !ok {
        return;
      }
      assert d[p..p + 4] == data[p..p + 4];
      if n == 0 {
        mp.Store(0);
        NoBytes();
        assert d[p + 4..p + 4] == [];
        success := true;
        return;
      }
      if n > BUF_MAX_MPINT {
        return;
      }
      if pos + 1 > len {
        return false, false;
      }
      if data[pos] >= 128 {
        return;
      }
      if pos + n > len {
        return false, false;
      }
      assert d[p + 4..p + 4 + n] == data[p + 4..p + 4 + n];
      FromUbin(mp, data[pos..pos + n]);
      ok := IncrPos(n);
      success := true;
    }
  }

  /** The most digits an int can count the bits of. */
  const MAX_USED := 76_695_844

  /** An mpint the reader accepts: n bytes with the value v behind their length at p. */
  ghost predicate HasMpint(d: seq<u8>, len: nat, p: nat, v: int, n: int)
  {
    && n >= 0 && p + 4 + n <= len <= |d| && BigEndian(d[p..p + 4]) == n <= BUF_MAX_MPINT
    && (n > 0 ==> d[p + 4] < 128) && v == BigEndian(d[p + 4..p + 4 + n])
  }

  lemma NoBytes()
    ensures BigEndian([]) == 0
  {
  }

  /** d with b written at p. */
  function Splice(d: seq<u8>, p: nat, b: seq<u8>): (r: seq<u8>)
    requires p + |b| <= |d|
    ensures |r| == |d|
  {
    d[..p] + b + d[p + |b|..]
  }

  lemma FourBytes(d: seq<u8>, p: nat, n: nat)
    requires n < 0x1_0000_0000 && p + 4 <= |d|
    ensures var e := Splice(d, p, U32(n));
      e[p] == n / 0x100_0000 && e[p + 1] == n / 0x1_0000 % 256 && e[p + 2] == n / 0x100 % 256 && e[p + 3] == n % 256
  {
    var e, b := Splice(d, p, U32(n)), U32(n);
    assert e[p] == b[0] && e[p + 1] == b[1] && e[p + 2] == b[2] && e[p + 3] == b[3];
  }

  lemma Spliced(d: seq<u8>, p: nat, a: seq<u8>, b: seq<u8>)
    ensures p + |a| + |b| <= |d| ==> Splice(Splice(d, p, a), p + |a|, b) == Splice(d, p, a + b)
  {
  }

  lemma MpintSign(mp: Int)
    requires mp.Valid()
    ensures mp.neg <==> mp.Value() < 0
    ensures !mp.neg ==> mp.Mag() == mp.Value() >= 0
    ensures mp.used == 0 <==> mp.Value() == 0
    ensures mp.used <= |mp.dp|
  {
    MagBounds(mp);
  }

  lemma MpintLength(mp: Int, len: nat, pad: nat)
    requires mp.Valid() && mp.Mag() == mp.Value() >= 0 && (mp.used == 0 <==> mp.Value() == 0)
    requires if mp.used == 0 then len == pad == 0 else len == BitLen(mp.Mag()) / 8 + 1 && pad == if BitLen(mp.Mag()) % 8 == 0 then 1 else 0
    ensures pad <= 1 && len == pad + UbinSize(mp.Mag())
  {
  }

  lemma MpintBody(v: nat, ubin: seq<u8>, pad: nat)
    requires |ubin| == UbinSize(v) && BigEndian(ubin) == v && pad == (if v > 0 && BitLen(v) % 8 == 0 then 1 else 0)
    ensures IsMpintBody((if pad == 1 then [0] else []) + ubin, v)
  {
    hide UbinSize, BitLen;
    assert [] + ubin == ubin;
    if v > 0 {
      BodyOf(ubin, v);
    } else {
      NoSize();
    }
  }

  lemma NoSize()
    ensures UbinSize(0) == 0
  {
  }

  lemma SpliceSlices(d: seq<u8>, p: nat, a: seq<u8>, b: seq<u8>)
    requires p + |a| + |b| <= |d|
    ensures var e := Splice(d, p, a + b); e[p..p + |a|] == a && e[p + |a|..p + |a| + |b|] == b
  {
  }

  lemma WrittenMpint(d: seq<u8>, p: nat, body: seq<u8>, len: nat, v: int)
    requires p + 4 + |body| <= len <= |d| && |body| < 0x1_0000_0000 && BigEndian(body) == v && (body != [] ==> body[0] < 128)
    ensures var e := Splice(d, p, U32(|body|) + body);
      BigEndian(e[p..p + 4]) == |body| && (|body| <= BUF_MAX_MPINT ==> HasMpint(e, len, p, v, |body|))
  {
    hide BigEndian, U32, Splice;
    SpliceSlices(d, p, U32(|body|), body);
    var e := Splice(d, p, U32(|body|) + body);
    assert body != [] ==> e[p + 4] == e[p + 4..p + 4 + |body|][0];
  }

  /** The reader after the writer: the number comes back, and exactly the bytes written are consumed. */
  method RoundTrip(buf: Buf, a: Int, b: Int) returns (ok: bool, ghost body: seq<u8>)
    requires buf.Valid() && a.Valid() && a.used <= MAX_USED && a.Value() >= 0 && b.Loose() && a != b
    modifies buf, buf.data, b
    ensures buf.Valid() && a.Value() == old(a.Value()) && IsMpintBody(body, a.Value())
    ensures ok == (|body| <= BUF_MAX_MPINT && old(buf.pos) + 4 + |body| <= buf.data.Length)
    ensures ok ==> b.Valid() && b.Value() == a.Value() && buf.pos == old(buf.pos) + 4 + |body|
  {
    hide BigEndian, U32, Int.Value, Int.Valid, Int.Loose, Splice;
    var p := buf.pos;
    ghost var d := buf.data[..];
    ok, body := buf.PutMpint(a);
    if !ok {
      return;
    }
    WrittenMpint(d, p, body, buf.len, a.Value());
    ghost var e := buf.data[..];
    var back := buf.SetPos(p);
    assert |body| <= BUF_MAX_MPINT ==> HasMpint(buf.data[..], buf.len, p, a.Value(), |body|);
    var fine, success := buf.GetMpint(b);
    assert buf.data[..] == e && BigEndian(e[p..p + 4]) == |body|;
    ok := fine && success;
  }
}
