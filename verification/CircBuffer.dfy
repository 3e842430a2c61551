/** The ring buffer of a channel, and the bounded FIFO it stands for. */
module CircBuffer {
  import opened Arith
  import opened Bytes

  const MAX_CBUF_SIZE := 100_000_000

  /** Position i steps further on a ring of n. */
  lemma Wrapped(p: int, i: int, n: int)
    requires 0 <= p < n && 0 <= i <= n
    ensures (p + i) % n == if p + i < n then p + i else p + i - n
  {
    if p + i < n {
      DivModUnique(p + i, 0, p + i, n);
    } else {
      DivModUnique(p + i, 1, p + i - n, n);
    }
  }

  /** The used bytes of the array d from r on, around its end. */
  ghost function Ring(d: seq<u8>, r: nat, used: nat): (s: seq<u8>)
    requires r < |d| && used <= |d|
    ensures |s| == used
  {
    if r + used <= |d| then d[r..r + used] else d[r..] + d[..r + used - |d|]
  }

  /** Where the byte behind the last one goes. */
  function After(r: int, used: int, n: int): int
  {
    if r + used < n then r + used else r + used - n
  }

  lemma RingAt(d: seq<u8>, r: nat, used: nat, i: nat)
    requires r < |d| && i < used <= |d|
    ensures Ring(d, r, used)[i] == d[After(r, i, |d|)]
  {
  }

  lemma RingAppend(d: seq<u8>, r: nat, used: nat, len: nat)
    requires r < |d| && used + len <= |d| && After(r, used, |d|) + len <= |d|
    ensures Ring(d, r, used + len) == Ring(d, r, used) + d[After(r, used, |d|)..After(r, used, |d|) + len]
  {
    hide Ring;
    var w := After(r, used, |d|);
    var a, b := Ring(d, r, used + len), Ring(d, r, used) + d[w..w + len];
    forall i | 0 <= i < used + len
      ensures a[i] == b[i]
    {
      RingAt(d, r, used + len, i);
      if i < used {
        RingAt(d, r, used, i);
      }
    }
  }

  lemma RingDrop(d: seq<u8>, r: nat, used: nat, len: nat)
    requires r < |d| && len <= used <= |d|
    ensures Ring(d, After(r, len, |d|), used - len) == Ring(d, r, used)[len..]
  {
    hide Ring;
    var w := After(r, len, |d|);
    var a, b := Ring(d, w, used - len), Ring(d, r, used)[len..];
    forall i | 0 <= i < used - len
      ensures a[i] == b[i]
    {
      RingAt(d, w, used - len, i);
      RingAt(d, r, used, len + i);
    }
  }

  /** Bytes outside the contents do not matter. */
  lemma RingFrame(d: seq<u8>, e: seq<u8>, r: nat, used: nat, len: nat)
    requires r < |d| == |e| && used + len <= |d| && After(r, used, |d|) + len <= |d|
    requires forall i :: 0 <= i < |d| && !(After(r, used, |d|) <= i < After(r, used, |d|) + len) ==> d[i] == e[i]
    ensures Ring(e, r, used) == Ring(d, r, used)
  {
  }

  class CBuf {
    var data: array?<u8>
    var size: nat
    var used: nat
    var readpos: nat
    var writepos: nat

    ghost predicate Valid()
      reads this, data
    {
      && 0 < size <= MAX_CBUF_SIZE && used <= size && readpos < size
      && writepos == After(readpos, used, size)
      && (data != null ==> data.Length == size)
      && (used > 0 ==> data != null)
    }

    /** The bytes in the ring, oldest first. */
    ghost function Contents(): (s: seq<u8>)
      reads this, data
      requires Valid()
      ensures |s| == used
    {
      if data == null then [] else Ring(data[..], readpos, used)
    }

    /** cbuf_new, within the size it accepts. */
    constructor (size: nat)
      requires 0 < size <= MAX_CBUF_SIZE
      ensures Valid() && this.size == size && Contents() == [] && data == null
    {
      this.size := size;
      data := null;
      used := 0;
      readpos := 0;
      writepos := 0;
    }

    method GetUsed() returns (n: nat)
      requires Valid()
      ensures n == |Contents()|
    {
      n := used;
    }

    method GetAvail() returns (n: nat)
      requires Valid()
      ensures n == size - |Contents()|
    {
      n := size - used;
    }

    /** The free bytes up to the first wrap. */
    ghost function Room(): (n: nat)
      reads this, data
      requires Valid()
      ensures n <= size - |Contents()| && writepos + n <= size
    {
      Min(size - used, size - writepos)
    }

    lemma Allocated()
      requires Valid() && |Contents()| > 0
      ensures data != null && data.Length == size
    {
    }

    lemma RoomAtStart()
      requires Valid() && writepos == 0
      ensures Room() == size - |Contents()|
    {
    }

    /** cbuf_writelen. */
    method WriteLen() returns (n: nat)
      requires Valid()
      ensures n == Room() && (n == 0 <==> |Contents()| == size)
    {
      assert (2 * size + writepos - readpos) % size == used % size by {
        RingDistance(size, readpos, used, writepos);
      }
      assert (2 * size + readpos - writepos) % size == (size - used) % size by {
        RingDistance(size, readpos, used, writepos);
      }
      if used == size {
        return 0;
      }
      if writepos < readpos {
        return readpos - writepos;
      }
      return size - writepos;
    }

    /** cbuf_readptrs: the contents are at most two stretches of the array. */
    method ReadPtrs() returns (p1: nat, len1: nat, len2: nat)
      requires Valid()
      ensures p1 == readpos && len1 == Min(|Contents()|, size - readpos) && len1 + len2 == |Contents()| && len2 <= size
      ensures used > 0 ==> len1 > 0 && data != null && Contents() == data[p1..p1 + len1] + data[..len2]
    {
      p1 := readpos;
      len1 := Min(used, size - readpos);
      if len1 < used {
        len2 := used - len1;
      } else {
        len2 := 0;
      }
    }

    /** cbuf_writeptr: allocates on first use; fails when asked for more than fits before the wrap. */
    method WritePtr(len: nat) returns (ok: bool, at: nat)
      requires Valid()
      modifies this`data
      ensures Valid() && Contents() == old(Contents()) && at == writepos && (ok <==> len <= Room())
      ensures data == old(data) || (old(data) == null && fresh(data))
      ensures ok ==> data != null
    {
      at := writepos;
      var n := WriteLen();
      if len > n {
        return false, at;
      }
      if data == null {
        data := new u8[size](_ => 0);
        assert Ring(data[..], readpos, 0) == [];
      }
      ok := true;
    }

    /** cbuf_incrwrite: the bytes just behind the contents join them. */
    method IncrWrite(len: nat) returns (ok: bool)
      requires Valid() && data != null
      modifies this`used, this`writepos
      ensures Valid() && (ok <==> len <= old(Room()))
      ensures ok && len == old(Room()) ==> |Contents()| == size || writepos == 0
      ensures Contents() == old(Contents()) + if ok then data[old(writepos)..old(writepos) + len] else []
    {
      hide Ring;
      var n := WriteLen();
      if len > n {
        return false;
      }
      Wrapped(writepos, len, size);
      RingAppend(data[..], readpos, used, len);
      assert data[..][writepos..writepos + len] == data[writepos..writepos + len];
      used := used + len;
      writepos := (writepos + len) % size;
      ok := true;
    }

    /** The memcpy behind the contents. */
    method CopyIn(bytes: seq<u8>)
      requires Valid() && data != null && |bytes| <= Room()
      modifies data
      ensures Valid() && Contents() == old(Contents()) && data[writepos..writepos + |bytes|] == bytes
    {
      hide Ring;
      ghost var d := data[..];
      forall i | 0 <= i < |bytes| {
        data[writepos + i] := bytes[i];
      }
      RingFrame(d, data[..], readpos, used, |bytes|);
    }

    /** cbuf_writeptr, memcpy and cbuf_incrwrite of bytes that fit before the wrap. */
    method Append(bytes: seq<u8>)
      requires Valid() && |bytes| <= Room()
      modifies this, data
      ensures Valid() && Contents() == old(Contents()) + bytes && size == old(size)
      ensures data == old(data) || (old(data) == null && fresh(data))
      ensures |bytes| == old(Room()) ==> |Contents()| == size || writepos == 0
    {
      hide Ring, Contents;
      var ok, at := WritePtr(|bytes|);
      CopyIn(bytes);
      var done := IncrWrite(|bytes|);
    }

    /** cbuf_incrread: the oldest bytes leave. */
    method IncrRead(len: nat)
      requires Valid() && len <= |Contents()|
      modifies this`used, this`readpos
      ensures Valid() && Contents() == old(Contents())[len..]
    {
      hide Ring;
      Wrapped(readpos, len, size);
      if data != null {
        RingDrop(data[..], readpos, used, len);
      }
      used := used - len;
      readpos := (readpos + len) % size;
    }
  }

  /** The distances the source asserts. */
  lemma RingDistance(size: int, readpos: int, used: int, writepos: int)
    requires 0 < size && 0 <= used <= size && 0 <= readpos < size
    requires writepos == After(readpos, used, size)
    ensures (2 * size + writepos - readpos) % size == used % size
    ensures (2 * size + readpos - writepos) % size == (size - used) % size
  {
    if readpos + used < size {
      Multiples(used, 2, size);
      Multiples(size - used, 1, size);
    } else {
      Multiples(used, 1, size);
      Multiples(size - used, 2, size);
    }
  }

  lemma Multiples(x: int, k: int, n: int)
    requires n > 0
    ensures (x + k * n) % n == x % n
  {
    CongIntro(x + k * n, x, k, n);
  }
}
