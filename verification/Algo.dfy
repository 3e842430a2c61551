/** Algorithm negotiation: name-lists written, read and split, and the choice of section 7.1 of RFC 4253. */
module Algo {
  import opened Arith
  import opened Bytes
  import opened Buffer
  import opened Ubin

  const COMMA: u8 := 44
  const MAX_STRING_LEN := 9000
  const MAX_PROPOSED_ALGO := 50

  type Name = seq<u8>

  datatype Option<T> = None | Some(value: T)

  /** algo_type. */
  datatype Algo = Algo(name: Name, usable: bool)

  /** A name of section 6 of RFC 4251: not empty, without commas and NULs. */
  ghost predicate IsName(n: Name)
  {
    n != [] && COMMA !in n && 0 !in n
  }

  // ----- the list as text -----

  function Join(names: seq<Name>): (text: seq<u8>)
  {
    if |names| == 0 then [] else if |names| == 1 then names[0] else names[0] + [COMMA] + Join(names[1..])
  }

  /** The stretches between commas; always at least one. */
  function Split(s: seq<u8>): (names: seq<Name>)
    ensures |names| >= 1
  {
    if |s| == 0 then [[]]
    else
      var rest := Split(s[1..]);
      if s[0] == COMMA then [[]] + rest else [[s[0]] + rest[0]] + rest[1..]
  }

  lemma {:induction false} SplitPlain(n: Name)
    requires COMMA !in n
    ensures Split(n) == [n]
  {
    if |n| > 0 {
      SplitPlain(n[1..]);
      assert n == [n[0]] + n[1..];
    }
  }

  lemma {:induction false} SplitComma(n: Name, s: seq<u8>)
    requires COMMA !in n
    ensures Split(n + [COMMA] + s) == [n] + Split(s)
  {
    var t := n + [COMMA] + s;
    if |n| == 0 {
      assert t[1..] == s;
    } else {
      assert t[1..] == n[1..] + [COMMA] + s;
      SplitComma(n[1..], s);
      assert n == [n[0]] + n[1..];
    }
  }

  /** Splitting what was joined gives the names back. */
  lemma {:induction false} SplitJoin(names: seq<Name>)
    requires |names| > 0 && forall i :: 0 <= i < |names| ==> COMMA !in names[i]
    ensures Split(Join(names)) == names
  {
    if |names| == 1 {
      SplitPlain(names[0]);
      assert names == [names[0]];
    } else {
      SplitJoin(names[1..]);
      SplitComma(names[0], Join(names[1..]));
      assert names == [names[0]] + names[1..];
    }
  }

  /** Joining what was split gives the text back. */
  lemma {:induction false} JoinSplit(s: seq<u8>)
    ensures Join(Split(s)) == s
  {
    if |s| > 0 {
      JoinSplit(s[1..]);
      var rest := Split(s[1..]);
      if s[0] == COMMA {
        assert ([[]] + rest)[1..] == rest;
        assert s == [COMMA] + s[1..];
      } else {
        JoinFirst(rest[0], rest[1..], s[0]);
        assert rest == [rest[0]] + rest[1..];
        assert s == [s[0]] + s[1..];
      }
    }
  }

  lemma JoinFirst(first: Name, rest: seq<Name>, c: u8)
    ensures Join([[c] + first] + rest) == [c] + Join([first] + rest)
  {
    hide Join;
    var t, u := [[c] + first] + rest, [first] + rest;
    assert t[1..] == rest && u[1..] == rest;
    JoinDef(t);
    JoinDef(u);
    Regroup(c, first, Join(rest));
  }

  lemma Regroup(c: u8, n: Name, j: seq<u8>)
    ensures ([c] + n) + [COMMA] + j == [c] + (n + [COMMA] + j)
  {
  }

  lemma JoinDef(names: seq<Name>)
    requires |names| > 0
    ensures Join(names) == if |names| == 1 then names[0] else names[0] + [COMMA] + Join(names[1..])
  {
  }

  /** The names that are offered. */
  function Offered(algos: seq<Algo>, useall: bool): (names: seq<Name>)
    decreases |algos|
  {
    if |algos| == 0 then []
    else Offered(algos[..|algos| - 1], useall) +
         if algos[|algos| - 1].usable || useall then [algos[|algos| - 1].name] else []
  }

  /** The usable names, in order: of one list behind another. */
  lemma {:induction false} OfferedInOrder(a: seq<Algo>, b: seq<Algo>, useall: bool)
    ensures Offered(a + b, useall) == Offered(a, useall) + Offered(b, useall)
    decreases |b|
  {
    hide Offered;
    if |b| == 0 {
      assert a + b == a;
      NothingOffered(b, useall);
      assert b[..0] == b;
    } else {
      var m := |b| - 1;
      OfferedInOrder(a, b[..m], useall);
      LastOffered(a + b, useall);
      LastOffered(b, useall);
      assert (a + b)[..|a + b| - 1] == a + b[..m];
      Behind(Offered(a, useall), Offered(b[..m], useall), b[m].name);
    }
  }

  lemma LastOffered(a: seq<Algo>, useall: bool)
    requires |a| > 0
    ensures var m := |a| - 1;
      Offered(a, useall) == Offered(a[..m], useall) + if a[m].usable || useall then [a[m].name] else []
  {
    hide Offered;
    OfferedMore(a, useall, |a| - 1);
    assert a[..|a|] == a;
  }

  /** And of one entry. */
  lemma OneOffered(x: Algo, useall: bool)
    ensures Offered([x], useall) == if x.usable || useall then [x.name] else []
  {
    hide Offered;
    LastOffered([x], useall);
    NothingOffered([x], useall);
  }

  lemma Behind(a: seq<Name>, b: seq<Name>, n: Name)
    ensures (a + b) + [n] == a + (b + [n])
  {
  }

  /** One comma between any two names, none before the first and behind the last. */
  lemma {:induction false} JoinMore(names: seq<Name>, n: Name)
    ensures Join(names + [n]) == if |names| == 0 then n else Join(names) + [44] + n
  {
    if |names| > 0 {
      assert (names + [n])[1..] == names[1..] + [n];
      JoinMore(names[1..], n);
    }
  }

  /** A comma where one is due, and a name. */
  method PutName(buf: Buf, comma: bool, name: Name) returns (ok: bool)
    requires buf.Valid()
    modifies buf`pos, buf`len, buf.data
    ensures buf.Valid() && ok == (old(buf.pos) + (if comma then 1 else 0) + |name| <= buf.data.Length)
    ensures ok ==> buf.Wrote((if comma then [COMMA] else []) + name)
  {
    hide Splice;
    if comma {
      ghost var d, p := buf.data[..], buf.pos;
      ok := buf.PutByte(COMMA);
      if !ok {
        return;
      }
      Spliced(d, p, [COMMA], name);
    } else {
      assert [] + name == name;
    }
    ok := buf.PutBytes(name);
  }

  /** buf_put_algolist_all: a placeholder, the names, and the length put in front at last. */
  method PutAlgolist(buf: Buf, algos: seq<Algo>, useall: bool) returns (ok: bool)
    requires buf.Valid()
    modifies buf`pos, buf`len, buf.data
    ensures buf.Valid() && ok == (old(buf.pos) + 4 + |Join(Offered(algos, useall))| <= buf.data.Length)
    ensures ok ==> |Join(Offered(algos, useall))| < 0x1_0000_0000
    ensures ok ==> buf.Wrote(U32(|Join(Offered(algos, useall))|) + Join(Offered(algos, useall)))
  {
    hide Join, Offered, Splice, U32;
    var startpos := buf.pos;
    ghost var d, l := buf.data[..], buf.len;
    ok := buf.PutInt(0);
    if !ok {
      return;
    }
    ghost var text: seq<u8> := [];
    var donefirst := false;
    NothingOffered(algos, useall);
    assert U32(0) + text == U32(0);
    for i := 0 to |algos|
      invariant ok && buf.Valid() && text == Join(Offered(algos[..i], useall)) && donefirst == (|Offered(algos[..i], useall)| > 0)
      invariant Written(d, l, startpos, U32(0) + text, buf.data[..], buf.len, buf.pos)
    {
      OfferedMore(algos, useall, i);
      if algos[i].usable || useall {
        ghost var more := (if donefirst then [COMMA] else []) + algos[i].name;
        TextMore(algos, useall, i, more);
        ok := PutName(buf, donefirst, algos[i].name);
        if !ok {
          TextGrows(algos, useall, i + 1);
          return;
        }
        WrittenMore(d, l, startpos, U32(0) + text, more);
        assert (U32(0) + text) + more == U32(0) + (text + more);
        donefirst := true;
        text := text + more;
      }
    }
    assert algos[..|algos|] == algos;
    var len := buf.pos - startpos - 4;
    ok := buf.SetPos(startpos);
    ok := buf.PutInt(len);
    LengthFilled(d, startpos, len, text);
    ok := buf.IncrWritePos(len);
  }

  /** b written at p into d, whose length was l. */
  ghost predicate Written(d: seq<u8>, l: nat, p: nat, b: seq<u8>, d': seq<u8>, l': nat, p': nat)
  {
    p' == p + |b| <= |d| && l' == Max(l, p') && d' == Splice(d, p, b)
  }

  lemma WrittenMore(d: seq<u8>, l: nat, p: nat, b: seq<u8>, c: seq<u8>)
    requires p + |b| + |c| <= |d|
    ensures Splice(Splice(d, p, b), p + |b|, c) == Splice(d, p, b + c)
  {
    Spliced(d, p, b, c);
  }

  lemma LengthFilled(d: seq<u8>, p: nat, n: nat, text: seq<u8>)
    requires p + 4 + |text| <= |d| && n < 0x1_0000_0000
    ensures Splice(Splice(d, p, U32(0) + text), p, U32(n)) == Splice(d, p, U32(n) + text)
  {
    hide U32;
  }

  lemma TextMore(algos: seq<Algo>, useall: bool, i: nat, more: seq<u8>)
    requires i < |algos| && (algos[i].usable || useall)
    requires more == (if |Offered(algos[..i], useall)| > 0 then [COMMA] else []) + algos[i].name
    ensures Join(Offered(algos[..i + 1], useall)) == Join(Offered(algos[..i], useall)) + more
  {
    hide Join, Offered;
    OfferedMore(algos, useall, i);
    JoinMore(Offered(algos[..i], useall), algos[i].name);
    NothingOffered(algos, useall);
    if |Offered(algos[..i], useall)| == 0 {
      assert Offered(algos[..i], useall) == [] && [] + algos[i].name == algos[i].name && [] + more == more;
    } else {
      var t := Join(Offered(algos[..i], useall));
      assert t + ([COMMA] + algos[i].name) == t + [COMMA] + algos[i].name;
    }
  }

  /** The text only gets longer. */
  lemma {:induction false} TextGrows(algos: seq<Algo>, useall: bool, i: nat)
    requires i <= |algos|
    ensures |Join(Offered(algos[..i], useall))| <= |Join(Offered(algos, useall))|
    decreases |algos| - i
  {
    hide Join, Offered;
    if i == |algos| {
      assert algos[..i] == algos;
    } else {
      TextGrows(algos, useall, i + 1);
      OfferedMore(algos, useall, i);
      if algos[i].usable || useall {
        TextMore(algos, useall, i, (if |Offered(algos[..i], useall)| > 0 then [COMMA] else []) + algos[i].name);
      }
    }
  }

  lemma NothingOffered(algos: seq<Algo>, useall: bool)
    ensures Offered(algos[..0], useall) == [] && Join([]) == []
  {
  }

  lemma OfferedMore(algos: seq<Algo>, useall: bool, i: nat)
    requires i < |algos|
    ensures Offered(algos[..i + 1], useall) ==
      if algos[i].usable || useall then Offered(algos[..i], useall) + [algos[i].name] else Offered(algos[..i], useall)
  {
    assert algos[..i + 1][..i] == algos[..i];
  }

  // ----- get_algolist -----

  /** The C string that starts at p. */
  function CString(a: seq<u8>, p: nat): (s: seq<u8>)
    requires p <= |a|
    decreases |a| - p
  {
    if p == |a| || a[p] == 0 then [] else [a[p]] + CString(a, p + 1)
  }

  lemma {:induction false} CStringIs(a: seq<u8>, p: nat, q: nat)
    requires p <= q < |a| && a[q] == 0 && 0 !in a[p..q]
    ensures CString(a, p) == a[p..q]
    decreases q - p
  {
    if p < q {
      assert a[p] == a[p..q][0];
      assert a[p..q][1..] == a[p + 1..q];
      CStringIs(a, p + 1, q);
      assert a[p..q] == [a[p]] + a[p + 1..q];
    }
  }

  function Commas(s: seq<u8>): nat
  {
    if |s| == 0 then 0 else Commas(s[..|s| - 1]) + if s[|s| - 1] == COMMA then 1 else 0
  }

  /** Splitting a text that grows at its end. */
  lemma {:induction false} SplitMore(s: seq<u8>, c: u8)
    ensures Split(s + [c]) == if c == COMMA then Split(s) + [[]]
                              else Split(s)[..|Split(s)| - 1] + [Split(s)[|Split(s)| - 1] + [c]]
  {
    hide Split;
    if |s| == 0 {
      assert s + [c] == [c];
      SplitOne(c);
    } else {
      assert (s + [c])[1..] == s[1..] + [c];
      SplitDef(s);
      SplitDef(s + [c]);
      SplitMore(s[1..], c);
      SplitShift(Split(s[1..]), s[0], c);
    }
  }

  lemma SplitDef(s: seq<u8>)
    requires |s| > 0
    ensures Split(s) == if s[0] == COMMA then [[]] + Split(s[1..]) else [[s[0]] + Split(s[1..])[0]] + Split(s[1..])[1..]
  {
  }

  lemma SplitOne(c: u8)
    ensures Split([c]) == if c == COMMA then [[], []] else [[c]]
    ensures Split([]) == [[]]
  {
    var t := [c];
    assert t[1..] == [] && Split(t[1..]) == [[]];
    assert [c] + [] == [c];
  }

  lemma SplitShift(r: seq<Name>, x: u8, c: u8)
    requires |r| >= 1
    ensures [[]] + (r + [[]]) == ([[]] + r) + [[]]
    ensures [[x] + (r + [[]])[0]] + (r + [[]])[1..] == ([[x] + r[0]] + r[1..]) + [[]]
    ensures var m := |r| - 1; var e := r[..m] + [r[m] + [c]];
      && [[]] + e == ([[]] + r)[..m + 1] + [([[]] + r)[m + 1] + [c]]
      && var f := [[x] + r[0]] + r[1..]; [[x] + e[0]] + e[1..] == f[..m] + [f[m] + [c]]
  {
    var m := |r| - 1;
    var e, f := r[..m] + [r[m] + [c]], [[x] + r[0]] + r[1..];
    if m == 0 {
      assert [x] + (r[0] + [c]) == ([x] + r[0]) + [c];
    } else {
      assert e[1..] == r[1..m] + [r[m] + [c]];
    }
  }

  /** Names split so far: those before the last are closed by NULs, the last runs up to i. */
  ghost predicate Parsed(a: seq<u8>, starts: seq<nat>, names: seq<Name>, i: nat)
  {
    && |starts| == |names| >= 1 && i < |a| && starts[|starts| - 1] <= i
    && names[|names| - 1] == a[starts[|starts| - 1]..i] && 0 !in names[|names| - 1]
    && forall k :: 0 <= k < |starts| - 1 ==> starts[k] + |names[k]| < i && Closed(a, starts[k], names[k])
  }

  /** The name n stands at p, with a NUL behind it. */
  ghost predicate Closed(a: seq<u8>, p: nat, n: Name)
  {
    p + |n| < |a| && a[p + |n|] == 0 && n == a[p..p + |n|] && 0 !in n
  }

  /** A comma: the name before it gets its NUL, and the next one starts. */
  method CloseName(a: array<u8>, starts: seq<nat>, ghost names: seq<Name>, i: nat) returns (starts': seq<nat>)
    requires i + 1 < a.Length && Parsed(a[..], starts, names, i)
    modifies a
    ensures a[..] == old(a[..])[i := 0] && starts' == starts + [i + 1] && Parsed(a[..], starts', names + [[]], i + 1)
  {
    hide Parsed;
    ghost var b := a[..];
    SameLength(b, starts, names, i);
    a[i] := 0;
    starts' := starts + [i + 1];
    assert starts'[..|names|] == starts && a[..] == b[i := 0];
    ParsedComma(b, a[..], starts', names, i);
  }

  /** get_algolist: splits in place; gives up at a NUL, and exits at a comma too many. */
  method GetAlgolist(a: array<u8>, len: nat, maxCount: nat) returns (exit: bool, starts: seq<nat>)
    requires a.Length == len + 1 && a[len] == 0 && maxCount > 0
    modifies a
    ensures exit ==> Commas(old(a[..len])) >= maxCount
    ensures 0 !in old(a[..len]) ==>
      (exit <==> Commas(old(a[..len])) >= maxCount)
    ensures !exit && 0 in old(a[..len]) ==> starts == []
    ensures !exit && 0 !in old(a[..len]) ==>
      && |starts| == |Split(old(a[..len]))|
      && forall k :: 0 <= k < |starts| ==> starts[k] <= len && CString(a[..], starts[k]) == Split(old(a[..len]))[k]
  {
    hide Split, CString, Commas, Parsed;
    ghost var text := a[..len];
    starts := [0];
    exit := false;
    ghost var names := [[]];
    NothingSplit(text);
    NothingParsed(a[..]);
    for i := 0 to len
      invariant 0 !in text[..i] && |starts| == Commas(text[..i]) + 1 <= maxCount
      invariant names == Split(text[..i]) && Parsed(a[..], starts, names, i)
      invariant a[len] == 0 && forall k :: i <= k < len ==> a[k] == text[k]
    {
      ghost var b := a[..];
      assert text[..i + 1] == text[..i] + [text[i]];
      if a[i] == 0 {
        assert text[i] in text;
        CommasMonotone(text, i);
        return false, [];
      }
      CommasMore(text[..i], text[i]);
      SplitMore(text[..i], text[i]);
      if a[i] == COMMA {
        if |starts| >= maxCount {
          CommasMonotone(text, i + 1);
          return true, [];
        }
        starts := CloseName(a, starts, names, i);
        assert forall k :: i + 1 <= k < len ==> a[k] == b[k];
        names := names + [[]];
      } else {
        ParsedByte(b, starts, names, i);
        names := names[..|names| - 1] + [names[|names| - 1] + [text[i]]];
      }
    }
    assert text[..len] == text;
    SameLength(a[..], starts, names, len);
    ParsedStrings(a[..], starts, names);
  }

  lemma NothingSplit(text: seq<u8>)
    ensures Split(text[..0]) == [[]] && Commas(text[..0]) == 0
  {
  }

  lemma NothingParsed(a: seq<u8>)
    requires |a| > 0
    ensures Parsed(a, [0], [[]], 0)
  {
  }

  lemma CommasMore(s: seq<u8>, c: u8)
    ensures Commas(s + [c]) == Commas(s) + if c == COMMA then 1 else 0
  {
    assert (s + [c])[..|s|] == s;
  }

  lemma {:induction false} CommasMonotone(s: seq<u8>, i: nat)
    requires i <= |s|
    ensures Commas(s[..i]) <= Commas(s)
  {
    if i < |s| {
      var m := |s| - 1;
      CommasMonotone(s[..m], i);
      assert s[..m][..i] == s[..i];
    } else {
      assert s[..i] == s;
    }
  }

  lemma SameLength(a: seq<u8>, starts: seq<nat>, names: seq<Name>, i: nat)
    requires Parsed(a, starts, names, i)
    ensures |starts| == |names|
  {
  }

  lemma ParsedComma(b: seq<u8>, a: seq<u8>, starts: seq<nat>, names: seq<Name>, i: nat)
    requires |starts| == |names| + 1 && starts[|names|] == i + 1 && i + 1 < |b|
    requires Parsed(b, starts[..|names|], names, i) && a == b[i := 0]
    ensures Parsed(a, starts, names + [[]], i + 1)
  {
    var n := |names|;
    forall k | 0 <= k < n
      ensures starts[k] + |names[k]| < i + 1 && Closed(a, starts[k], names[k])
    {
      assert starts[..n][k] == starts[k];
      if k < n - 1 { assert Closed(b, starts[k], names[k]); }
      assert a[starts[k]..starts[k] + |names[k]|] == b[starts[k]..starts[k] + |names[k]|];
    }
  }

  lemma ParsedByte(b: seq<u8>, starts: seq<nat>, names: seq<Name>, i: nat)
    requires Parsed(b, starts, names, i) && i + 1 < |b| && b[i] != 0
    ensures Parsed(b, starts, names[..|names| - 1] + [names[|names| - 1] + [b[i]]], i + 1)
  {
    var p := starts[|starts| - 1];
    assert b[p..i + 1] == b[p..i] + [b[i]];
  }

  lemma ParsedStrings(a: seq<u8>, starts: seq<nat>, names: seq<Name>)
    requires |a| > 0 && Parsed(a, starts, names, |a| - 1) && a[|a| - 1] == 0
    ensures forall k :: 0 <= k < |starts| ==> starts[k] <= |a| - 1 && CString(a, starts[k]) == names[k]
  {
    forall k | 0 <= k < |starts|
      ensures starts[k] <= |a| - 1 && CString(a, starts[k]) == names[k]
    {
      CStringIs(a, starts[k], if k < |starts| - 1 then starts[k] + |names[k]| else |a| - 1);
    }
  }

  /** A string the reader accepts: n bytes behind their length at p. */
  ghost predicate HasString(d: seq<u8>, len: nat, p: nat, n: nat)
  {
    p + 4 + n <= len <= |d| && BigEndian(d[p..p + 4]) == n <= MAX_STRING_LEN
  }

  /** buf_getstring; ok is false where it exits. */
  method GetString(buf: Buf) returns (ok: bool, len: nat, s: array<u8>)
    requires buf.Valid()
    modifies buf`pos
    ensures buf.Valid() && s.Length == len + 1 && fresh(s)
    ensures ok <==> HasString(buf.data[..], buf.len, old(buf.pos), len)
    ensures ok ==> buf.pos == old(buf.pos) + 4 + len && s[..len] == buf.data[old(buf.pos) + 4..buf.pos] && s[len] == 0
    ensures forall n :: HasString(buf.data[..], buf.len, old(buf.pos), n) ==> ok && n == len
  {
    hide BigEndian;
    ghost var p, d := buf.pos, buf.data[..];
    s := new u8[1](_ => 0);
    ok, len := buf.GetInt();
    if !ok {
      len := 0;
      return;
    }
    assert d[p..p + 4] == buf.data[p..p + 4];
    s := new u8[len + 1](_ => 0);
    assert buf.data[..] == d;
    if len > MAX_STRING_LEN || buf.pos + len > buf.len {
      ok := false;
      return;
    }
    forall i | 0 <= i < len {
      s[i] := buf.data[buf.pos + i];
    }
    assert buf.data[..] == d && s[..len] == buf.data[p + 4..p + 4 + len];
    ok := buf.IncrPos(len);
  }

  // ----- the choice -----

  /** The first of us that is also in vs: section 7.1 of RFC 4253, us being the client's names. */
  ghost function Chosen(us: seq<Name>, vs: seq<Name>): (r: Option<Name>)
  {
    if |us| == 0 then None else if us[0] in vs then Some(us[0]) else Chosen(us[1..], vs)
  }

  /** us[i] is the first of us that is in vs. */
  ghost predicate FirstCommon(us: seq<Name>, vs: seq<Name>, i: nat)
  {
    i < |us| && us[i] in vs && forall k :: 0 <= k < i ==> us[k] !in vs
  }

  lemma {:induction false} ChosenAt(us: seq<Name>, vs: seq<Name>, i: nat)
    requires FirstCommon(us, vs, i)
    ensures Chosen(us, vs) == Some(us[i])
  {
    if i > 0 {
      ChosenAt(us[1..], vs, i - 1);
    }
  }

  lemma {:induction false} ChosenFound(us: seq<Name>, vs: seq<Name>) returns (i: nat)
    requires Chosen(us, vs).Some?
    ensures FirstCommon(us, vs, i) && Chosen(us, vs) == Some(us[i])
  {
    if us[0] in vs {
      i := 0;
    } else {
      var j := ChosenFound(us[1..], vs);
      i := j + 1;
      assert forall k :: 0 < k < i ==> us[k] == us[1..][k - 1];
    }
  }

  lemma {:induction false} NoneCommon(us: seq<Name>, vs: seq<Name>)
    requires Chosen(us, vs) == None
    ensures forall k :: 0 <= k < |us| ==> us[k] !in vs
  {
    if |us| > 0 {
      NoneCommon(us[1..], vs);
      assert forall k :: 0 < k < |us| ==> us[k] == us[1..][k - 1];
    }
  }

  /** n is chosen exactly if it is common and no earlier name of us is; none exactly if no name is common. */
  lemma ChosenExactly(us: seq<Name>, vs: seq<Name>, n: Name)
    ensures Chosen(us, vs) == Some(n) <==> exists i: nat :: FirstCommon(us, vs, i) && us[i] == n
    ensures Chosen(us, vs) == None <==> forall k :: 0 <= k < |us| ==> us[k] !in vs
  {
    hide Chosen;
    if Chosen(us, vs).Some? {
      var i := ChosenFound(us, vs);
    } else {
      NoneCommon(us, vs);
    }
    if i: nat :| FirstCommon(us, vs, i) && us[i] == n {
      ChosenAt(us, vs, i);
    }
    if forall k :: 0 <= k < |us| ==> us[k] !in vs {
      ChosenNone(us, vs);
    }
  }

  lemma {:induction false} ChosenNone(us: seq<Name>, vs: seq<Name>)
    requires forall k :: 0 <= k < |us| ==> us[k] !in vs
    ensures Chosen(us, vs) == None
  {
    if |us| > 0 {
      ChosenNone(us[1..], vs);
    }
  }

  /** localnames: unusable entries are NULL. */
  function LocalNames(algos: seq<Algo>): (names: seq<Option<Name>>)
    ensures |names| == |algos|
  {
    seq(|algos|, i requires 0 <= i < |algos| => if algos[i].usable then Some(algos[i].name) else None)
  }

  function RemoteNames(names: seq<Name>): (r: seq<Option<Name>>)
    ensures |r| == |names|
  {
    seq(|names|, i requires 0 <= i < |names| => Some(names[i]))
  }

  /** The names that are not NULL. */
  ghost function Present(names: seq<Option<Name>>): (r: seq<Name>)
  {
    if |names| == 0 then [] else (if names[0].Some? then [names[0].value] else []) + Present(names[1..])
  }

  lemma {:induction false} PresentIn(names: seq<Option<Name>>, n: Name)
    ensures n in Present(names) <==> Some(n) in names
  {
    if |names| > 0 {
      PresentIn(names[1..], n);
      assert names == [names[0]] + names[1..];
    }
  }

  lemma {:induction false} PresentRemote(names: seq<Name>)
    ensures Present(RemoteNames(names)) == names
  {
    if |names| > 0 {
      PresentRemote(names[1..]);
      assert RemoteNames(names)[1..] == RemoteNames(names[1..]);
      assert names == [names[0]] + names[1..];
    }
  }

  lemma {:induction false} PresentAppend(a: seq<Option<Name>>, b: seq<Option<Name>>)
    ensures Present(a + b) == Present(a) + Present(b)
  {
    hide Present;
    if |a| == 0 {
      PresentNone();
      assert a == [] && [] + b == b && [] + Present(b) == Present(b);
    } else {
      assert (a + b)[1..] == a[1..] + b;
      PresentAppend(a[1..], b);
      PresentDef(a + b);
      PresentDef(a);
    }
  }

  lemma PresentNone()
    ensures Present([]) == []
  {
  }

  lemma PresentDef(names: seq<Option<Name>>)
    requires |names| > 0
    ensures Present(names) == (if names[0].Some? then [names[0].value] else []) + Present(names[1..])
  {
  }

  lemma {:induction false} PresentLocal(algos: seq<Algo>)
    ensures Present(LocalNames(algos)) == Offered(algos, false)
    decreases |algos|
  {
    if |algos| > 0 {
      var m := |algos| - 1;
      var last := LocalNames([algos[m]]);
      PresentLocal(algos[..m]);
      assert LocalNames(algos) == LocalNames(algos[..m]) + last;
      PresentAppend(LocalNames(algos[..m]), last);
      assert last[1..] == [] && Present(last) == (if algos[m].usable then [algos[m].name] else []) + Present(last[1..]);
    }
  }

  /** The first pair of equal names: client index first, then server index. */
  ghost predicate FirstPair(cli: seq<Option<Name>>, serv: seq<Option<Name>>, i: nat, j: nat)
  {
    && i < |cli| && j < |serv| && cli[i].Some? && cli[i] == serv[j]
    && (forall k :: 0 <= k < i ==> cli[k].None? || cli[k] !in serv)
    && (forall k :: 0 <= k < j ==> serv[k] != cli[i])
  }

  ghost predicate NoPair(cli: seq<Option<Name>>, serv: seq<Option<Name>>)
  {
    forall k :: 0 <= k < |cli| ==> cli[k].None? || cli[k] !in serv
  }

  /** The two nested loops of buf_match_algo. */
  method FindPair(cli: seq<Option<Name>>, serv: seq<Option<Name>>) returns (found: bool, i: nat, j: nat)
    ensures if found then FirstPair(cli, serv, i, j) else NoPair(cli, serv)
  {
    i, j := 0, 0;
    while i < |cli|
      invariant 0 <= i <= |cli| && forall k :: 0 <= k < i ==> cli[k].None? || cli[k] !in serv
    {
      j := 0;
      while j < |serv|
        invariant 0 <= j <= |serv| && forall k :: 0 <= k < j ==> cli[i].None? || serv[k] != cli[i]
      {
        if cli[i].Some? && serv[j].Some? && cli[i].value == serv[j].value {
          return true, i, j;
        }
        j := j + 1;
      }
      i := i + 1;
    }
    found := false;
  }

  lemma {:induction false} PairChoice(cli: seq<Option<Name>>, serv: seq<Option<Name>>, i: nat)
    requires i < |cli| && cli[i].Some? && cli[i] in serv && forall k :: 0 <= k < i ==> cli[k].None? || cli[k] !in serv
    ensures Chosen(Present(cli), Present(serv)) == cli[i]
  {
    var first := if cli[0].Some? then [cli[0].value] else [];
    assert Present(cli) == first + Present(cli[1..]);
    if cli[0].Some? {
      PresentIn(serv, cli[0].value);
      assert Present(cli)[1..] == Present(cli[1..]);
    } else {
      assert Present(cli) == Present(cli[1..]);
    }
    if i > 0 {
      PairChoice(cli[1..], serv, i - 1);
    }
  }

  lemma {:induction false} NoChoice(cli: seq<Option<Name>>, serv: seq<Option<Name>>)
    requires NoPair(cli, serv)
    ensures Chosen(Present(cli), Present(serv)) == None
  {
    if |cli| > 0 {
      var first := if cli[0].Some? then [cli[0].value] else [];
      assert Present(cli) == first + Present(cli[1..]);
      if cli[0].Some? {
        PresentIn(serv, cli[0].value);
        assert Present(cli)[1..] == Present(cli[1..]);
      } else {
        assert Present(cli) == Present(cli[1..]);
      }
      NoChoice(cli[1..], serv);
    }
  }

  /** The choice of section 7.1 as index into the local list, and the judgement of the guess. */
  ghost predicate Matched(remote: seq<Name>, local: seq<Algo>, server: bool, kexguess2: bool, ret: Option<nat>, goodguess: bool)
  {
    && (ret.Some? ==> ret.value < |local| && local[ret.value].usable)
    && (if ret.Some? then Some(local[ret.value].name) else None) ==
       (if server then Chosen(remote, Offered(local, false)) else Chosen(Offered(local, false), remote))
    && goodguess == GoodGuess(if server then RemoteNames(remote) else LocalNames(local),
                              if server then LocalNames(local) else RemoteNames(remote), kexguess2)
  }

  /** The matching part of buf_match_algo on the names received: the index into the local list, and whether the guess was right. */
  method MatchAlgo(remote: seq<Name>, local: seq<Algo>, server: bool, kexguess2: bool) returns (ret: Option<nat>, goodguess: bool)
    ensures Matched(remote, local, server, kexguess2, ret, goodguess)
    ensures ret.Some? ==> ret.value < |local| && local[ret.value].usable
    ensures ret.Some? && server ==> exists i: nat :: FirstCommon(remote, Offered(local, false), i) && remote[i] == local[ret.value].name
    ensures ret.Some? && !server ==> exists i: nat :: FirstCommon(Offered(local, false), remote, i) && Offered(local, false)[i] == local[ret.value].name
    ensures ret == None ==> forall n :: n in remote ==> n !in Offered(local, false)
    ensures server && kexguess2 ==> goodguess == (|remote| > 0 && remote[0] in Offered(local, false))
    ensures server && !kexguess2 ==> goodguess == (|remote| > 0 && |local| > 0 && local[0].usable && local[0].name == remote[0])
    ensures !server && kexguess2 ==> goodguess == (|local| > 0 && local[0].usable && local[0].name in remote)
    ensures !server && !kexguess2 ==> goodguess == (|local| > 0 && local[0].usable && |remote| > 0 && local[0].name == remote[0])
  {
    hide Present, Chosen, Offered;
    goodguess := false;
    var cli := if server then RemoteNames(remote) else LocalNames(local);
    var serv := if server then LocalNames(local) else RemoteNames(remote);
    PresentRemote(remote);
    PresentLocal(local);
    var found, i, j := FindPair(cli, serv);
    if found {
      PairChoice(cli, serv, i);
      GuessAt(cli, serv, i, j, kexguess2);
      goodguess := if kexguess2 then i == 0 else i == 0 && j == 0;
      ret := Some(if server then j else i);
    } else {
      NoChoice(cli, serv);
      ret := None;
    }
    MatchMeans(remote, local, server, ret);
    GuessMeans(remote, local, kexguess2);
  }

  /** The choice, spelled out. */
  lemma MatchMeans(remote: seq<Name>, local: seq<Algo>, server: bool, ret: Option<nat>)
    requires ret.Some? ==> ret.value < |local|
    requires (if ret.Some? then Some(local[ret.value].name) else None) ==
      (if server then Chosen(remote, Offered(local, false)) else Chosen(Offered(local, false), remote))
    ensures ret.Some? && server ==> exists i: nat :: FirstCommon(remote, Offered(local, false), i) && remote[i] == local[ret.value].name
    ensures ret.Some? && !server ==> exists i: nat :: FirstCommon(Offered(local, false), remote, i) && Offered(local, false)[i] == local[ret.value].name
    ensures ret == None ==> forall n :: n in remote ==> n !in Offered(local, false)
  {
    hide Chosen, Offered;
    var vs := Offered(local, false);
    if ret.Some? && server {
      var i := ChosenFound(remote, vs);
    } else if ret.Some? {
      var i := ChosenFound(vs, remote);
    } else if server {
      NoneCommon(remote, vs);
    } else {
      NoneCommon(vs, remote);
    }
  }

  /** The judgement, spelled out for either role. */
  lemma GuessMeans(remote: seq<Name>, local: seq<Algo>, kexguess2: bool)
    ensures GoodGuess(RemoteNames(remote), LocalNames(local), kexguess2) == (|remote| > 0 &&
      if kexguess2 then remote[0] in Offered(local, false) else |local| > 0 && local[0].usable && local[0].name == remote[0])
    ensures GoodGuess(LocalNames(local), RemoteNames(remote), kexguess2) == (|local| > 0 && local[0].usable &&
      if kexguess2 then local[0].name in remote else |remote| > 0 && local[0].name == remote[0])
  {
    hide Present, Offered;
    PresentLocal(local);
    if |remote| > 0 {
      PresentIn(LocalNames(local), remote[0]);
    }
    if |local| > 0 {
      InRemote(remote, local[0].name);
    }
  }

  /** The preferred names agree: the client's first is one of the server's, or its first under the old rule. */
  ghost predicate GoodGuess(cli: seq<Option<Name>>, serv: seq<Option<Name>>, kexguess2: bool)
  {
    |cli| > 0 && cli[0].Some? && if kexguess2 then cli[0] in serv else |serv| > 0 && cli[0] == serv[0]
  }

  lemma GuessAt(cli: seq<Option<Name>>, serv: seq<Option<Name>>, i: nat, j: nat, kexguess2: bool)
    requires FirstPair(cli, serv, i, j)
    ensures GoodGuess(cli, serv, kexguess2) <==> (if kexguess2 then i == 0 else i == 0 && j == 0)
  {
  }

  /** The names a received text stands for: none if it holds a NUL. */
  ghost function Received(text: seq<u8>): (names: seq<Name>)
  {
    if 0 in text then [] else Split(text)
  }

  /** The names get_algolist points at. */
  method ReadNames(a: array<u8>, len: nat) returns (exit: bool, names: seq<Name>)
    requires a.Length == len + 1 && a[len] == 0
    modifies a
    ensures exit ==> Commas(old(a[..len])) >= MAX_PROPOSED_ALGO
    ensures 0 !in old(a[..len]) && Commas(old(a[..len])) >= MAX_PROPOSED_ALGO ==> exit
    ensures !exit ==> names == Received(old(a[..len]))
  {
    hide Split, CString, Commas;
    ghost var text := a[..len];
    var starts;
    exit, starts := GetAlgolist(a, len, MAX_PROPOSED_ALGO);
    names := [];
    if exit {
      return;
    }
    for k := 0 to |starts|
      invariant |names| == k && (0 !in text ==> |starts| == |Split(text)| && names == Split(text)[..k])
      invariant 0 in text ==> starts == []
    {
      var n := CString(a[..], starts[k]);
      names := names + [n];
    }
  }

  /** A string at p, and its text. */
  ghost predicate IsText(d: seq<u8>, len: nat, p: nat, text: seq<u8>)
  {
    HasString(d, len, p, |text|) && text == d[p + 4..p + 4 + |text|]
  }

  /** buf_match_algo: read the list at the cursor, split it and match it; ok is false where it exits. */
  method BufMatchAlgo(buf: Buf, local: seq<Algo>, server: bool, kexguess2: bool)
    returns (ok: bool, ret: Option<nat>, goodguess: bool, ghost text: seq<u8>)
    requires buf.Valid()
    modifies buf`pos
    ensures buf.Valid() && (ret.Some? ==> ret.value < |local| && local[ret.value].usable)
    ensures ok ==> IsText(buf.data[..], buf.len, old(buf.pos), text) && buf.pos == old(buf.pos) + 4 + |text|
    ensures ok ==> Matched(Received(text), local, server, kexguess2, ret, goodguess) && (0 in text || Commas(text) < MAX_PROPOSED_ALGO)
    ensures forall t :: IsText(buf.data[..], buf.len, old(buf.pos), t) ==> text == t && (Commas(t) < MAX_PROPOSED_ALGO ==> ok)
  {
    hide Split, Join, Commas, BigEndian, Received, Matched;
    ret, goodguess := None, false;
    ghost var p, d := buf.pos, buf.data[..];
    var len, a;
    ok, len, a := GetString(buf);
    assert buf.data[..] == d;
    text := [];
    if !ok {
      return;
    }
    text := a[..len];
    assert text == d[p + 4..p + 4 + len];
    var exit, names := ReadNames(a, len);
    assert buf.data[..] == d;
    if exit {
      ok := false;
      return;
    }
    ret, goodguess := MatchAlgo(names, local, server, kexguess2);
  }

  // ----- both sides -----

  ghost predicate IsList(algos: seq<Algo>)
  {
    forall i :: 0 <= i < |algos| ==> IsName(algos[i].name)
  }

  lemma {:induction false} OfferedNames(algos: seq<Algo>)
    requires IsList(algos)
    ensures forall i :: 0 <= i < |Offered(algos, false)| ==> IsName(Offered(algos, false)[i])
    decreases |algos|
  {
    if |algos| > 0 {
      OfferedNames(algos[..|algos| - 1]);
    }
  }

  /** The other side reads the names that were offered, or one empty name for none. */
  lemma {:induction false} ReadBack(algos: seq<Algo>)
    requires IsList(algos)
    ensures Split(Join(Offered(algos, false))) == if Offered(algos, false) == [] then [[]] else Offered(algos, false)
  {
    hide Split, Join, Offered;
    OfferedNames(algos);
    var names := Offered(algos, false);
    if names == [] {
      SplitOne(0);
      NothingOffered([], false);
    } else {
      SplitJoin(names);
    }
  }

  /** Client and server, each reading the other's list, choose the same name or both none. */
  lemma {:induction false} BothChoose(clientAlgos: seq<Algo>, serverAlgos: seq<Algo>)
    requires IsList(clientAlgos) && IsList(serverAlgos)
    ensures var us := Offered(clientAlgos, false); var vs := Offered(serverAlgos, false);
      && Chosen(us, Split(Join(vs))) == Chosen(us, vs)
      && Chosen(Split(Join(us)), vs) == Chosen(us, vs)
  {
    hide Split, Join, Offered;
    ReadBack(clientAlgos);
    ReadBack(serverAlgos);
    OfferedNames(clientAlgos);
    OfferedNames(serverAlgos);
    var us, vs := Offered(clientAlgos, false), Offered(serverAlgos, false);
    if vs == [] {
      ChosenNone(us, [[]]);
      ChosenNone(us, vs);
    }
    if us == [] {
      ChosenNone([[]], vs);
    }
  }

  lemma {:induction false} CommasAppend(a: seq<u8>, b: seq<u8>)
    ensures Commas(a + b) == Commas(a) + Commas(b)
  {
    if |b| == 0 {
      assert a + b == a;
    } else {
      var m := |b| - 1;
      assert (a + b)[..|a| + m] == a + b[..m];
      CommasAppend(a, b[..m]);
    }
  }

  lemma {:induction false} CommasNone(n: Name)
    requires COMMA !in n
    ensures Commas(n) == 0
  {
    if |n| > 0 {
      CommasNone(n[..|n| - 1]);
    }
  }

  /** The text of a list has one comma less than names, and no NUL. */
  lemma {:induction false} ListText(names: seq<Name>)
    requires forall i :: 0 <= i < |names| ==> IsName(names[i])
    ensures 0 !in Join(names) && Commas(Join(names)) == if |names| == 0 then 0 else |names| - 1
  {
    hide Commas;
    if |names| == 0 {
      CommasNone([]);
    } else {
      CommasNone(names[0]);
      if |names| > 1 {
        ListText(names[1..]);
        CommasNone([]);
        assert [] + [COMMA] == [COMMA];
        CommasMore([], COMMA);
        CommasAppend(names[0] + [COMMA], Join(names[1..]));
        CommasAppend(names[0], [COMMA]);
      }
    }
  }

  /** How client and server judge the client's guess, each having read the other's list. */
  ghost predicate ClientFindsGood(clientAlgos: seq<Algo>, serverAlgos: seq<Algo>, kexguess2: bool)
  {
    GoodGuess(LocalNames(clientAlgos), RemoteNames(Split(Join(Offered(serverAlgos, false)))), kexguess2)
  }

  ghost predicate ServerFindsGood(clientAlgos: seq<Algo>, serverAlgos: seq<Algo>, kexguess2: bool)
  {
    GoodGuess(RemoteNames(Split(Join(Offered(clientAlgos, false)))), LocalNames(serverAlgos), kexguess2)
  }

  ghost predicate FirstUsable(algos: seq<Algo>)
  {
    |algos| > 0 && algos[0].usable
  }

  /** The first name the client offers is one the server offers, or the server's first under the old rule. */
  ghost predicate OffersMeet(us: seq<Name>, vs: seq<Name>, kexguess2: bool)
  {
    |us| > 0 && if kexguess2 then us[0] in vs else |vs| > 0 && us[0] == vs[0]
  }

  /** Each side takes the first offers to meet, but only if the first entry of its own list is usable. */
  lemma Judgements(clientAlgos: seq<Algo>, serverAlgos: seq<Algo>, kexguess2: bool)
    requires IsList(clientAlgos) && IsList(serverAlgos)
    ensures var meet := OffersMeet(Offered(clientAlgos, false), Offered(serverAlgos, false), kexguess2);
      && ClientFindsGood(clientAlgos, serverAlgos, kexguess2) == (meet && FirstUsable(clientAlgos))
      && ServerFindsGood(clientAlgos, serverAlgos, kexguess2) == (meet && (kexguess2 || FirstUsable(serverAlgos)))
  {
    hide Offered, Present, Split, Join;
    ReadBack(clientAlgos);
    ReadBack(serverAlgos);
    ClientJudges(clientAlgos, Offered(serverAlgos, false), Split(Join(Offered(serverAlgos, false))), kexguess2);
    ServerJudges(Offered(clientAlgos, false), Split(Join(Offered(clientAlgos, false))), serverAlgos, kexguess2);
  }

  lemma ClientJudges(algos: seq<Algo>, vs: seq<Name>, read: seq<Name>, kexguess2: bool)
    requires IsList(algos) && read == if vs == [] then [[]] else vs
    ensures GoodGuess(LocalNames(algos), RemoteNames(read), kexguess2) == (OffersMeet(Offered(algos, false), vs, kexguess2) && FirstUsable(algos))
  {
    hide Offered, Present;
    PresentLocal(algos);
    if FirstUsable(algos) {
      FirstPresent(LocalNames(algos));
      InRemote(read, algos[0].name);
    }
  }

  lemma ServerJudges(us: seq<Name>, read: seq<Name>, algos: seq<Algo>, kexguess2: bool)
    requires IsList(algos) && read == if us == [] then [[]] else us
    ensures GoodGuess(RemoteNames(read), LocalNames(algos), kexguess2) ==
      (OffersMeet(us, Offered(algos, false), kexguess2) && (kexguess2 || FirstUsable(algos)))
  {
    hide Offered, Present;
    PresentLocal(algos);
    PresentIn(LocalNames(algos), read[0]);
    if FirstUsable(algos) {
      FirstPresent(LocalNames(algos));
    }
    EmptyNotLocal(algos);
  }

  lemma EmptyNotLocal(algos: seq<Algo>)
    requires IsList(algos)
    ensures Some([]) !in LocalNames(algos)
  {
  }

  /** The two judge alike if and only if the guess is wrong or, of the entries the rule looks at, both or none is usable. */
  lemma BothJudge(clientAlgos: seq<Algo>, serverAlgos: seq<Algo>, kexguess2: bool)
    requires IsList(clientAlgos) && IsList(serverAlgos)
    ensures ClientFindsGood(clientAlgos, serverAlgos, kexguess2) == ServerFindsGood(clientAlgos, serverAlgos, kexguess2) <==>
      || !OffersMeet(Offered(clientAlgos, false), Offered(serverAlgos, false), kexguess2)
      || FirstUsable(clientAlgos) == (kexguess2 || FirstUsable(serverAlgos))
  {
    hide *;
    Judgements(clientAlgos, serverAlgos, kexguess2);
  }

  /** Under either rule there are lists that the two judge differently. */
  lemma JudgedApart(x: Name, y: Name)
    requires IsName(x) && IsName(y)
    ensures var one, two := [Algo(x, true)], [Algo(y, false), Algo(x, true)];
      && ClientFindsGood(one, two, false) && !ServerFindsGood(one, two, false)
      && !ClientFindsGood(two, one, false) && ServerFindsGood(two, one, false)
      && !ClientFindsGood(two, one, true) && ServerFindsGood(two, one, true)
  {
    hide ClientFindsGood, ServerFindsGood, Offered;
    var one, two := [Algo(x, true)], [Algo(y, false), Algo(x, true)];
    OfferedMore(one, false, 0);
    OfferedMore(two, false, 0);
    OfferedMore(two, false, 1);
    NothingOffered(one, false);
    NothingOffered(two, false);
    assert one[..1] == one && two[..2] == two;
    Judgements(one, two, false);
    Judgements(two, one, false);
    Judgements(two, one, true);
  }

  /** What the reader of a list finds, whether the text came back as the names or as one empty name. */
  lemma ReadJudgement(theirs: seq<Algo>, mine: seq<Algo>, server: bool, kexguess2: bool, ret: Option<nat>, goodguess: bool)
    requires IsList(theirs) && IsList(mine) && Matched(Received(Join(Offered(theirs, false))), mine, server, kexguess2, ret, goodguess)
    ensures Agreement(theirs, mine, server, kexguess2, ret, goodguess)
  {
    hide Split, Join, Offered, GoodGuess;
    OfferedNames(theirs);
    ListText(Offered(theirs, false));
    if server {
      BothChoose(theirs, mine);
    } else {
      BothChoose(mine, theirs);
    }
  }

  /** The choice both sides make and the judgement of this one, in terms of the lists offered. */
  ghost predicate Agreement(theirs: seq<Algo>, mine: seq<Algo>, server: bool, kexguess2: bool, ret: Option<nat>, goodguess: bool)
  {
    && (ret.Some? ==> ret.value < |mine| && mine[ret.value].usable)
    && (if ret.Some? then Some(mine[ret.value].name) else None) ==
       (if server then Chosen(Offered(theirs, false), Offered(mine, false)) else Chosen(Offered(mine, false), Offered(theirs, false)))
    && goodguess == (if server then ServerFindsGood(theirs, mine, kexguess2) else ClientFindsGood(mine, theirs, kexguess2))
  }

  /** A list written by one side and matched by the other, through the wire format. */
  method WriteAndMatch(buf: Buf, theirs: seq<Algo>, mine: seq<Algo>, server: bool, kexguess2: bool)
    returns (ok: bool, ret: Option<nat>, goodguess: bool)
    requires buf.Valid() && IsList(theirs) && IsList(mine)
    modifies buf, buf.data
    ensures ok == (var n := |Join(Offered(theirs, false))|;
      old(buf.pos) + 4 + n <= buf.data.Length && n <= MAX_STRING_LEN && |Offered(theirs, false)| <= MAX_PROPOSED_ALGO)
    ensures ok ==> Agreement(theirs, mine, server, kexguess2, ret, goodguess)
  {
    hide Join, Offered, Splice, U32, BigEndian, Matched, Agreement, Received, Commas;
    ret, goodguess := None, false;
    var p := buf.pos;
    ghost var d, t := buf.data[..], Join(Offered(theirs, false));
    OfferedNames(theirs);
    ListText(Offered(theirs, false));
    ok := PutAlgolist(buf, theirs, false);
    if !ok {
      return;
    }
    ghost var e := buf.data[..];
    WrittenText(d, p, t, buf.len);
    var back := buf.SetPos(p);
    assert buf.data[..] == e;
    ghost var text;
    ok, ret, goodguess, text := BufMatchAlgo(buf, mine, server, kexguess2);
    assert buf.data[..] == e;
    if ok {
      assert text == t;
      ReadJudgement(theirs, mine, server, kexguess2, ret, goodguess);
    }
  }

  lemma WrittenText(d: seq<u8>, p: nat, t: seq<u8>, len: nat)
    requires p + 4 + |t| <= len <= |d| && |t| < 0x1_0000_0000
    ensures var e := Splice(d, p, U32(|t|) + t);
      && (|t| <= MAX_STRING_LEN ==> IsText(e, len, p, t))
      && forall u :: IsText(e, len, p, u) ==> u == t
  {
    hide BigEndian, U32, Splice;
    SpliceSlices(d, p, U32(|t|), t);
  }

  lemma FirstPresent(names: seq<Option<Name>>)
    requires |names| > 0 && names[0].Some?
    ensures |Present(names)| > 0 && Present(names)[0] == names[0].value
  {
  }

  lemma InRemote(vs: seq<Name>, n: Name)
    ensures Some(n) in RemoteNames(vs) <==> n in vs
  {
    if n in vs {
      var i :| 0 <= i < |vs| && vs[i] == n;
      assert RemoteNames(vs)[i] == Some(n);
    }
  }
}
