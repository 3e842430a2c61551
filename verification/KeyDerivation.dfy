/** Key derivation of section 7.2 of RFC 4253 over an uninterpreted hash. */
module KeyDerivation {
  import opened Arith
  import opened Bytes

  const MAX_IV_LEN := 20
  const MAX_KEY_LEN := 64

  /** The encoded shared secret, the exchange hash and the session identifier. */
  datatype Secret = Secret(k: seq<u8>, h: seq<u8>, sid: seq<u8>)

  ghost predicate IsHash(H: seq<u8> -> seq<u8>, n: nat)
  {
    n > 0 && forall s :: |H(s)| == n
  }

  /** K1 || K2 || .. || Kj: K1 hashes K, H, the letter and the session id; each next one hashes K, H and all before it. */
  ghost function KeyStream(H: seq<u8> -> seq<u8>, s: Secret, x: u8, j: nat): seq<u8>
  {
    if j == 0 then []
    else if j == 1 then H(s.k + s.h + [x] + s.sid)
    else KeyStream(H, s, x, j - 1) + H(s.k + s.h + KeyStream(H, s, x, j - 1))
  }

  lemma {:induction false} StreamLength(H: seq<u8> -> seq<u8>, n: nat, s: Secret, x: u8, j: nat)
    requires IsHash(H, n)
    ensures |KeyStream(H, s, x, j)| == j * n
  {
    if j > 1 {
      StreamLength(H, n, s, x, j - 1);
      assert j * n == (j - 1) * n + n;
    }
  }

  /** Longer streams extend shorter ones. */
  lemma {:induction false} StreamPrefix(H: seq<u8> -> seq<u8>, s: Secret, x: u8, i: nat, j: nat)
    requires i <= j
    ensures KeyStream(H, s, x, i) <= KeyStream(H, s, x, j)
    decreases j
  {
    if i < j && j > 1 {
      StreamPrefix(H, s, x, i, j - 1);
    }
  }

  /** The first len bytes of the stream, however long. */
  ghost function KeyBytes(H: seq<u8> -> seq<u8>, n: nat, s: Secret, x: u8, len: nat): (r: seq<u8>)
    requires IsHash(H, n)
    ensures |r| == len
  {
    StreamLength(H, n, s, x, len);
    MulLe(len, 1, n);
    KeyStream(H, s, x, len)[..len]
  }

  lemma AnyPrefix(H: seq<u8> -> seq<u8>, n: nat, s: Secret, x: u8, len: nat, j: nat)
    requires IsHash(H, n) && len <= j * n
    ensures |KeyStream(H, s, x, j)| == j * n && KeyStream(H, s, x, j)[..len] == KeyBytes(H, n, s, x, len)
  {
    hide KeyStream;
    StreamLength(H, n, s, x, j);
    StreamLength(H, n, s, x, len);
    MulLe(len, 1, n);
    if j <= len {
      StreamPrefix(H, s, x, j, len);
    } else {
      StreamPrefix(H, s, x, len, j);
    }
  }

  /** memcpy of at most the room left. */
  method CopyBlock(out: array<u8>, offset: nat, outlen: nat, block: seq<u8>)
    requires offset <= outlen <= out.Length
    modifies out
    ensures out[..offset] == old(out[..offset])
    ensures out[offset..Min(outlen, offset + |block|)] == block[..Min(outlen - offset, |block|)]
  {
    var len := Min(outlen - offset, |block|);
    forall i | 0 <= i < len {
      out[offset + i] := block[i];
    }
    assert out[..offset] == old(out[..offset]);
    forall i | 0 <= i < len
      ensures out[offset..offset + len][i] == block[..len][i]
    {
      assert out[offset + i] == block[i];
    }
  }

  /** One more block behind the j blocks already there. */
  method ExtendBlock(out: array<u8>, outlen: nat, H: seq<u8> -> seq<u8>, n: nat, s: Secret, x: u8, offset: nat, ghost j: nat)
    requires offset < outlen <= out.Length && IsHash(H, n) && j >= 1 && offset == j * n
    requires out[..offset] == KeyStream(H, s, x, j)
    modifies out
    ensures |KeyStream(H, s, x, j + 1)| == offset + n
    ensures out[..Min(outlen, offset + n)] == KeyStream(H, s, x, j + 1)[..Min(outlen, offset + n)]
  {
    hide KeyStream;
    NextBlock(H, s, x, j);
    var tmpout := H(s.k + s.h + out[..offset]);
    CopyBlock(out, offset, outlen, tmpout);
    ghost var m := Min(outlen, offset + n);
    assert out[..m] == out[..offset] + out[offset..m];
  }

  /** hashkeys: outlen bytes of the stream for the letter x. */
  method HashKeys(out: array<u8>, outlen: nat, H: seq<u8> -> seq<u8>, n: nat, s: Secret, x: u8)
    requires outlen <= out.Length && IsHash(H, n)
    modifies out
    ensures out[..outlen] == KeyBytes(H, n, s, x, outlen)
  {
    hide KeyStream, KeyBytes;
    FirstBlock(H, s, x);
    CopyBlock(out, 0, outlen, H(s.k + s.h + [x] + s.sid));
    var offset := n;
    ghost var j := 1;
    assert out[..Min(outlen, offset)] == out[0..Min(outlen, offset)];
    while offset < outlen
      invariant j >= 1 && offset == j * n && |KeyStream(H, s, x, j)| == offset
      invariant out[..Min(outlen, offset)] == KeyStream(H, s, x, j)[..Min(outlen, offset)]
      decreases outlen - offset
    {
      assert KeyStream(H, s, x, j)[..offset] == KeyStream(H, s, x, j);
      ExtendBlock(out, outlen, H, n, s, x, offset, j);
      MoreBlocks(j, n);
      offset := offset + n;
      j := j + 1;
    }
    AnyPrefix(H, n, s, x, outlen, j);
  }

  lemma MoreBlocks(j: int, n: int)
    ensures (j + 1) * n == j * n + n
  {
  }

  lemma FirstBlock(H: seq<u8> -> seq<u8>, s: Secret, x: u8)
    ensures KeyStream(H, s, x, 1) == H(s.k + s.h + [x] + s.sid)
  {
  }

  lemma NextBlock(H: seq<u8> -> seq<u8>, s: Secret, x: u8, j: nat)
    requires j >= 1
    ensures KeyStream(H, s, x, j + 1) == KeyStream(H, s, x, j) + H(s.k + s.h + KeyStream(H, s, x, j))
  {
  }

  /**
   The bytes themselves: the first block hashes K, H, the letter and the session
   id, and every later one K, H and all the bytes before it.
   */
  lemma KeyBlocks(H: seq<u8> -> seq<u8>, n: nat, s: Secret, x: u8, len: nat, i: nat)
    requires IsHash(H, n) && (i + 1) * n <= len
    ensures var r := KeyBytes(H, n, s, x, len);
      && 0 <= i * n <= (i + 1) * n && |r| == len
      && r[i * n..(i + 1) * n] == if i == 0 then H(s.k + s.h + [x] + s.sid) else H(s.k + s.h + r[..i * n])
  {
    hide KeyStream, KeyBytes;
    MoreBlocks(i, n);
    MulLe(n, 0, i);
    var r, t := KeyBytes(H, n, s, x, len), KeyStream(H, s, x, i);
    KeyBytesPrefix(H, n, s, x, len, i);
    KeyBytesPrefix(H, n, s, x, len, i + 1);
    StreamLength(H, n, s, x, i);
    if i == 0 {
      FirstBlock(H, s, x);
    } else {
      NextBlock(H, s, x, i);
    }
  }

  lemma KeyBytesPrefix(H: seq<u8> -> seq<u8>, n: nat, s: Secret, x: u8, len: nat, j: nat)
    requires IsHash(H, n) && 0 <= j * n <= len
    ensures |KeyBytes(H, n, s, x, len)| == len && KeyBytes(H, n, s, x, len)[..j * n] == KeyStream(H, s, x, j)
  {
    hide KeyStream, KeyBytes;
    var k := len + j;
    MulLe(k, 1, n);
    StreamLength(H, n, s, x, j);
    AnyPrefix(H, n, s, x, len, k);
    StreamPrefix(H, s, x, j, k);
  }

  /** Different letters hash different strings, and where the hashes differ so do the keys. */
  lemma LettersMatter(H: seq<u8> -> seq<u8>, n: nat, s: Secret, x: u8, y: u8, len: nat)
    requires IsHash(H, n) && x != y && n <= len
    ensures s.k + s.h + [x] + s.sid != s.k + s.h + [y] + s.sid
    ensures H(s.k + s.h + [x] + s.sid) != H(s.k + s.h + [y] + s.sid) ==> KeyBytes(H, n, s, x, len) != KeyBytes(H, n, s, y, len)
  {
    hide KeyStream, KeyBytes;
    var i := |s.k + s.h|;
    assert (s.k + s.h + [x] + s.sid)[i] == x && (s.k + s.h + [y] + s.sid)[i] == y;
    KeyBlocks(H, n, s, x, len, 0);
    KeyBlocks(H, n, s, y, len, 0);
  }

  // ----- gen_new_keys -----

  /** Cipher and integrity keys of one direction. */
  datatype Keys = Keys(iv: seq<u8>, key: seq<u8>, mac: seq<u8>)

  /** The integrity algorithm of a direction: its key length, or none where the cipher authenticates itself. */
  datatype Mac = NoMac | Mac(keysize: nat)

  ghost function MacKey(H: seq<u8> -> seq<u8>, n: nat, s: Secret, x: u8, mac: Mac): seq<u8>
    requires IsHash(H, n)
  {
    if mac.NoMac? then [] else KeyBytes(H, n, s, x, mac.keysize)
  }

  /** The keys section 7.2 assigns to a direction: letters A, C, E from client to server, B, D, F back. */
  ghost function DirectionKeys(H: seq<u8> -> seq<u8>, n: nat, s: Secret, toServer: bool, mac: Mac): Keys
    requires IsHash(H, n)
  {
    if toServer
    then Keys(KeyBytes(H, n, s, 65, MAX_IV_LEN), KeyBytes(H, n, s, 67, MAX_KEY_LEN), MacKey(H, n, s, 69, mac))
    else Keys(KeyBytes(H, n, s, 66, MAX_IV_LEN), KeyBytes(H, n, s, 68, MAX_KEY_LEN), MacKey(H, n, s, 70, mac))
  }

  /** So the two directions share no key. */
  lemma DirectionsDiffer(H: seq<u8> -> seq<u8>, n: nat, s: Secret, toServer: Mac, toClient: Mac)
    requires IsHash(H, n) && n <= 64 && H(s.k + s.h + ['C' as int] + s.sid) != H(s.k + s.h + ['D' as int] + s.sid)
    ensures DirectionKeys(H, n, s, true, toServer).key != DirectionKeys(H, n, s, false, toClient).key
  {
    hide KeyBytes;
    LettersMatter(H, n, s, 'C' as int, 'D' as int, 64);
  }

  /** gen_new_keys: what one end transmits and receives under. */
  method GenNewKeys(client: bool, H: seq<u8> -> seq<u8>, n: nat, s: Secret, macTrans: Mac, macRecv: Mac)
    returns (trans: Keys, recv: Keys)
    requires IsHash(H, n)
    ensures trans == DirectionKeys(H, n, s, client, macTrans) && recv == DirectionKeys(H, n, s, !client, macRecv)
    ensures trans.iv == KeyBytes(H, n, s, if client then 'A' as int else 'B' as int, 20)
    ensures recv.iv == KeyBytes(H, n, s, if client then 'B' as int else 'A' as int, 20)
    ensures trans.key == KeyBytes(H, n, s, if client then 'C' as int else 'D' as int, 64)
    ensures recv.key == KeyBytes(H, n, s, if client then 'D' as int else 'C' as int, 64)
    ensures trans.mac == if macTrans.NoMac? then [] else KeyBytes(H, n, s, if client then 'E' as int else 'F' as int, macTrans.keysize)
    ensures recv.mac == if macRecv.NoMac? then [] else KeyBytes(H, n, s, if client then 'F' as int else 'E' as int, macRecv.keysize)
  {
    hide KeyBytes, KeyStream, IsHash;
    var mactransletter, macrecvletter: u8 := if client then 69 else 70, if client then 70 else 69;
    var c2sIv := Derive(MAX_IV_LEN, H, n, s, 65);
    var s2cIv := Derive(MAX_IV_LEN, H, n, s, 66);
    var c2sKey := Derive(MAX_KEY_LEN, H, n, s, 67);
    var s2cKey := Derive(MAX_KEY_LEN, H, n, s, 68);
    var transMac, recvMac := [], [];
    if macTrans.Mac? {
      transMac := Derive(macTrans.keysize, H, n, s, mactransletter);
    }
    if macRecv.Mac? {
      recvMac := Derive(macRecv.keysize, H, n, s, macrecvletter);
    }
    if client {
      trans := Keys(c2sIv, c2sKey, transMac);
      recv := Keys(s2cIv, s2cKey, recvMac);
    } else {
      trans := Keys(s2cIv, s2cKey, transMac);
      recv := Keys(c2sIv, c2sKey, recvMac);
    }
  }

  /** hashkeys into a buffer of its own. */
  method Derive(len: nat, H: seq<u8> -> seq<u8>, n: nat, s: Secret, x: u8) returns (r: seq<u8>)
    requires IsHash(H, n)
    ensures r == KeyBytes(H, n, s, x, len)
  {
    hide KeyBytes, KeyStream;
    var out := new u8[len](_ => 0);
    HashKeys(out, len, H, n, s, x);
    r := out[..len];
  }
}
