/** struct Channel with its ring buffers, updated in place, against ChannelSpec. */
module Channel {
  import opened Arith
  import opened Bytes
  import opened CircBuffer
  import opened ChannelSpec
  import opened ChannelProtocol

  /** The copy loop of common_recv_msg_channel_data: two rounds are enough. */
  method Fill(cbuf: CBuf, payload: seq<u8>) returns (rounds: nat)
    requires cbuf.Valid() && |cbuf.Contents()| + |payload| <= cbuf.size
    modifies cbuf, cbuf.data
    ensures cbuf.Valid() && cbuf.Contents() == old(cbuf.Contents()) + payload && cbuf.size == old(cbuf.size)
    ensures cbuf.data == old(cbuf.data) || (old(cbuf.data) == null && fresh(cbuf.data))
    ensures rounds <= 2
  {
    hide CBuf.Valid, CBuf.Contents, CBuf.Room;
    var len, pos := |payload|, 0;
    rounds := 0;
    ghost var before := cbuf.Contents();
    assert before + payload[..0] == before;
    while len > 0
      invariant 0 <= pos <= |payload| && len == |payload| - pos
      invariant cbuf.Valid() && cbuf.Contents() == before + payload[..pos] && cbuf.size == old(cbuf.size)
      invariant cbuf.data == old(cbuf.data) || (old(cbuf.data) == null && fresh(cbuf.data))
      invariant rounds <= 2 && (rounds > 0 ==> len == 0 || (rounds == 1 && cbuf.writepos == 0))
    {
      if rounds == 1 { cbuf.RoomAtStart(); }
      var buflen := cbuf.WriteLen();
      buflen := Min(buflen, len);
      cbuf.Append(payload[pos..pos + buflen]);
      assert payload[..pos + buflen] == payload[..pos] + payload[pos..pos + buflen];
      pos := pos + buflen;
      len := len - buflen;
      rounds := rounds + 1;
    }
    assert payload[..pos] == payload;
  }

  /** What n bytes written leave of a buffer. */
  function Left(buf: seq<u8>, n: nat): seq<u8>
  {
    buf[Min(n, |buf|)..]
  }

  /** The first n bytes of buffer and payload. */
  function First(buf: seq<u8>, more: seq<u8>, n: nat): (s: seq<u8>)
    requires n <= |buf| + |more|
    ensures |s| == n
  {
    (buf + more)[..n]
  }

  /** The iovecs of a write that took n bytes: the ring's two stretches, then the payload. */
  method WriteRing(cbuf: CBuf, more: seq<u8>, n: nat) returns (consumed: nat, wrote: seq<u8>)
    requires cbuf.Valid() && n <= |cbuf.Contents()| + |more|
    modifies cbuf
    ensures cbuf.Valid() && cbuf.data == old(cbuf.data) && cbuf.size == old(cbuf.size)
    ensures cbuf.Contents() == Left(old(cbuf.Contents()), n)
    ensures wrote == First(old(cbuf.Contents()), more, n) && consumed == Max(0, n - |old(cbuf.Contents())|)
  {
    hide CBuf.Valid, CBuf.Contents;
    var p1, len1, len2 := cbuf.ReadPtrs();
    if len1 > 0 { cbuf.Allocated(); }
    var iov := if len1 == 0 then [] else cbuf.data[p1..p1 + len1] + cbuf.data[..len2];
    assert iov == cbuf.Contents();
    wrote := (iov + more)[..n];
    var cbufWritten := Min(len1 + len2, n);
    cbuf.IncrRead(cbufWritten);
    consumed := n - cbufWritten;
  }

  /** A single write of n bytes of the ring's first stretch. */
  method WriteFirst(cbuf: CBuf, n: nat) returns (wrote: seq<u8>)
    requires cbuf.Valid() && n <= Min(|cbuf.Contents()|, cbuf.size - cbuf.readpos)
    modifies cbuf
    ensures cbuf.Valid() && cbuf.data == old(cbuf.data) && cbuf.size == old(cbuf.size)
    ensures cbuf.Contents() == old(cbuf.Contents())[n..] && wrote == old(cbuf.Contents())[..n]
  {
    hide CBuf.Valid, CBuf.Contents;
    var p1, len1, len2 := cbuf.ReadPtrs();
    if len1 > 0 { cbuf.Allocated(); }
    wrote := if len1 == 0 then [] else cbuf.data[p1..p1 + n];
    if len1 > 0 {
      FirstStretch(cbuf.data[p1..p1 + len1], cbuf.data[..len2], n);
      assert cbuf.data[p1..p1 + len1][..n] == cbuf.data[p1..p1 + n];
    }
    cbuf.IncrRead(n);
  }

  lemma FirstStretch(a: seq<u8>, b: seq<u8>, n: nat)
    requires n <= |a|
    ensures (a + b)[..n] == a[..n]
  {
  }

  lemma WroteEffect(c: Chan, err: bool, more: seq<u8>, n: nat)
    requires n <= |Buf(c, err)| + |more|
    ensures Taken(c, err, more, Wrote(n)) == n
    ensures ChannelSpec.Write(c, err, more, Wrote(n)) ==
      SetBuf(c, err, Left(Buf(c, err), n)).(recvdonelen := c.recvdonelen + n)
  {
  }

  lemma NotWroteEffect(c: Chan, err: bool, more: seq<u8>, io: Io)
    requires !io.Wrote?
    ensures Taken(c, err, more, io) == 0
    ensures ChannelSpec.Write(c, err, more, io) ==
      if io == Failed then c.(ends := c.ends.(fds := CloseFd(c.ends.fds, Fd(c.ends.fds, err), ShutWr))) else c
  {
    assert Buf(c, err)[0..] == Buf(c, err);
  }

  class Channel {
    const window: nat
    const maxpacket: nat
    const session: bool
    const extra: bool
    const bidir: bool
    var writefd: int
    var readfd: int
    var errfd: int
    var recvwindow: nat
    var transwindow: nat
    var recvdonelen: nat
    const writebuf: CBuf
    const extrabuf: CBuf
    var sentEof: bool
    var sentClose: bool
    var recvEof: bool
    var recvClose: bool
    var removed: bool
    var sent: seq<Msg>

    ghost predicate Bufs()
      reads this, writebuf, writebuf.data, extrabuf, extrabuf.data
    {
      && writebuf != extrabuf && (writebuf.data != null ==> writebuf.data != extrabuf.data)
      && writebuf.Valid() && extrabuf.Valid() && writebuf.size == window == extrabuf.size
    }

    /** The state of ChannelSpec. */
    ghost function View(): Chan
      reads this, writebuf, writebuf.data, extrabuf, extrabuf.data
      requires Bufs()
    {
      Chan(Config(window, maxpacket, session), EndsView(), recvwindow, transwindow, recvdonelen,
           writebuf.Contents(), extrabuf.Contents())
    }

    ghost function EndsView(): Ends
      reads this
    {
      Ends(FdsView(), ShutView())
    }

    ghost function FdsView(): Fds
      reads this
    {
      Fds(writefd, readfd, errfd, bidir, extra)
    }

    ghost function ShutView(): Shut
      reads this
    {
      Shut(sentEof, sentClose, recvEof, recvClose, removed)
    }

    /** The windows and buffers fit together, with room for `pending` bytes not yet buffered. */
    ghost predicate Accounted(pending: nat)
      reads this, writebuf, writebuf.data, extrabuf, extrabuf.data
    {
      Bufs() && recvwindow + |writebuf.Contents()| + |extrabuf.Contents()| + recvdonelen + pending <= window
    }

    ghost predicate Valid()
      reads this, writebuf, writebuf.data, extrabuf, extrabuf.data
    {
      Accounted(0) && EndInv(EndsView())
    }

    /** newchannel, the descriptors set by the type's handler. */
    constructor (window: nat, transwindow: nat, maxpacket: nat, session: bool, extra: bool, bidir: bool,
                 writefd: int, readfd: int, errfd: int)
      requires 0 < window <= MAX_CBUF_SIZE && (bidir ==> errfd == FD_CLOSED)
      ensures Valid() && fresh(writebuf) && fresh(extrabuf) && sent == []
      ensures View() == Chan(Config(window, maxpacket, session),
                             Ends(Fds(writefd, readfd, errfd, bidir, extra), Shut(false, false, false, false, false)),
                             window, transwindow, 0, [], [])
    {
      this.window, this.maxpacket, this.session, this.extra, this.bidir := window, maxpacket, session, extra, bidir;
      this.writefd, this.readfd, this.errfd := writefd, readfd, errfd;
      recvwindow, this.transwindow, recvdonelen := window, transwindow, 0;
      sentEof, sentClose, recvEof, recvClose, removed := false, false, false, false, false;
      sent := [];
      var w := new CBuf(window);
      var e := new CBuf(window);
      writebuf, extrabuf := w, e;
    }

    // ----- descriptors -----

    method CloseChanFd(fd: int, how: How)
      modifies this`readfd, this`errfd, this`writefd
      ensures FdsView() == CloseFd(old(FdsView()), fd, how)
    {
      var closein, closeout := false, false;
      if bidir {
        if how == ShutRd {
          closeout := true;
        } else {
          closein := true;
        }
      } else {
        closein, closeout := true, true;
      }
      if closeout && fd == readfd {
        readfd := FD_CLOSED;
      }
      if closeout && !extra && fd == errfd {
        errfd := FD_CLOSED;
      }
      if closein && fd == writefd {
        writefd := FD_CLOSED;
      }
      if closein && extra && fd == errfd {
        errfd := FD_CLOSED;
      }
    }

    // ----- writing to the local side -----

    /** n bytes of buffer and payload were written. */
    method WroteOut(err: bool, more: seq<u8>, n: nat) returns (consumed: nat, wrote: seq<u8>)
      requires Bufs() && n <= |Buf(View(), err)| + |more|
      modifies this`recvdonelen, writebuf, extrabuf
      ensures Bufs() && writebuf.data == old(writebuf.data) && extrabuf.data == old(extrabuf.data)
      ensures recvdonelen == old(recvdonelen) + n
      ensures Buf(View(), err) == Left(Buf(old(View()), err), n) && Buf(View(), !err) == Buf(old(View()), !err)
      ensures wrote == First(Buf(old(View()), err), more, n) && consumed == Max(0, n - |Buf(old(View()), err)|)
    {
      hide CBuf.Valid, CBuf.Contents, Left, First;
      var cbuf := if err then extrabuf else writebuf;
      consumed, wrote := WriteRing(cbuf, more, n);
      recvdonelen := recvdonelen + n;
    }

    /** writechannel_writev; io is what writev answers, Wrote(0) when there is nothing to write. */
    method WriteV(err: bool, more: seq<u8>, hasMore: bool, io: Io) returns (ok: bool, consumed: nat, wrote: seq<u8>)
      requires Bufs() && Fd(FdsView(), err) >= 0 && (!hasMore ==> more == [])
      requires io.Wrote? ==> io.n <= |Buf(View(), err)| + |more|
      requires |Buf(View(), err)| == 0 && !hasMore ==> io == Wrote(0)
      modifies this`recvdonelen, this`readfd, this`errfd, this`writefd, writebuf, extrabuf
      ensures Bufs() && writebuf.data == old(writebuf.data) && extrabuf.data == old(extrabuf.data)
      ensures View() == ChannelSpec.Write(old(View()), err, more, io) && ok == (io != Failed)
      ensures wrote == (Buf(old(View()), err) + more)[..Taken(old(View()), err, more, io)]
      ensures consumed == Max(0, |wrote| - |Buf(old(View()), err)|)
    {
      hide CloseFd, CBuf.Valid, CBuf.Contents, ChannelSpec.Write, Taken;
      ghost var c := View();
      if io.Wrote? { WroteEffect(c, err, more, io.n); } else { NotWroteEffect(c, err, more, io); }
      var cbuf := if err then extrabuf else writebuf;
      ok, consumed, wrote := true, 0, [];
      var used := cbuf.GetUsed();
      if used == 0 && !hasMore {
        return;
      }
      match io
      case Failed =>
        CloseChanFd(if err then errfd else writefd, ShutWr);
        ok := false;
      case Again =>
      case Wrote(n) =>
        consumed, wrote := WroteOut(err, more, n);
    }

    /** writechannel_fallback: write takes at most the first stretch, and never the payload. */
    method WriteFallback(err: bool, more: seq<u8>, io: Io) returns (ok: bool, consumed: nat, wrote: seq<u8>)
      requires Bufs() && Fd(FdsView(), err) >= 0
      requires io.Wrote? ==> io.n <= Min(|Buf(View(), err)|, window - (if err then extrabuf else writebuf).readpos)
      modifies this`recvdonelen, this`readfd, this`errfd, this`writefd, writebuf, extrabuf
      ensures Bufs() && writebuf.data == old(writebuf.data) && extrabuf.data == old(extrabuf.data)
      ensures View() == ChannelSpec.Write(old(View()), err, more, io) && ok == (io != Failed)
      ensures wrote == (Buf(old(View()), err) + more)[..Taken(old(View()), err, more, io)] && consumed == 0
    {
      hide CloseFd, CBuf.Valid, CBuf.Contents, ChannelSpec.Write, Taken;
      ghost var c := View();
      if io.Wrote? { WroteEffect(c, err, more, io.n); } else { NotWroteEffect(c, err, more, io); }
      var cbuf := if err then extrabuf else writebuf;
      ghost var held := cbuf.Contents();
      ok, consumed, wrote := true, 0, [];
      match io
      case Failed =>
        CloseChanFd(if err then errfd else writefd, ShutWr);
        ok := false;
      case Again =>
      case Wrote(n) =>
        assert held[..n] == (held + more)[..n];
        wrote := WriteFirst(cbuf, n);
        recvdonelen := recvdonelen + n;
    }

    /** The window adjustment; its three assertions hold. */
    method ExtendWindow(ghost pending: nat)
      requires Accounted(pending)
      modifies this`recvdonelen, this`recvwindow, this`sent
      ensures Accounted(pending) && View() == Extend(old(View())) && sent == old(sent) + Extension(old(View()))
    {
      hide CBuf.Valid, CBuf.Contents;
      if recvdonelen >= window / 3 {
        sent := sent + [Adjust(recvdonelen)];
        recvwindow := recvwindow + recvdonelen;
        recvdonelen := 0;
      }
      assert recvwindow <= window;
      assert recvwindow <= window - |writebuf.Contents()|;
      assert recvwindow <= window - |extrabuf.Contents()|;
    }

    /** writechannel, with writev. */
    method Deliver(err: bool, more: seq<u8>, hasMore: bool, io: Io) returns (ok: bool, consumed: nat, wrote: seq<u8>)
      requires Accounted(|more|) && Fd(FdsView(), err) >= 0 && (!hasMore ==> more == [])
      requires io.Wrote? ==> io.n <= |Buf(View(), err)| + |more|
      requires |Buf(View(), err)| == 0 && !hasMore ==> io == Wrote(0)
      modifies this`recvdonelen, this`recvwindow, this`sent, this`readfd, this`errfd, this`writefd, writebuf, extrabuf
      ensures writebuf.data == old(writebuf.data) && extrabuf.data == old(extrabuf.data)
      ensures consumed <= |more| && Accounted(if ok then |more| - consumed else 0)
      ensures var d := WriteChannel(old(View()), err, more, io);
        View() == d.c && ok == d.ok && wrote == d.bytes && sent == old(sent) + d.sent
      ensures consumed == Max(0, |wrote| - |Buf(old(View()), err)|)
    {
      hide CloseFd, CBuf.Valid, CBuf.Contents;
      ghost var c := View();
      ok, consumed, wrote := WriteV(err, more, hasMore, io);
      ghost var n := Taken(c, err, more, io);
      assert |Buf(View(), err)| == |Buf(c, err)| - Min(n, |Buf(c, err)|) && Buf(View(), !err) == Buf(c, !err);
      assert recvdonelen == c.recvdonelen + n && recvwindow == c.recvwindow;
      ExtendWindow(if ok then |more| - consumed else 0);
    }

    // ----- receiving -----

    /** Buffers what a write left of the payload. */
    method Keep(err: bool, rest: seq<u8>)
      requires Accounted(|rest|)
      modifies writebuf, extrabuf, writebuf.data, extrabuf.data
      ensures Accounted(0) && View() == SetBuf(old(View()), err, Buf(old(View()), err) + rest)
    {
      hide CBuf.Valid, CBuf.Contents;
      if err {
        var rounds := Fill(extrabuf, rest);
      } else {
        var rounds := Fill(writebuf, rest);
      }
    }

    /** common_recv_msg_channel_data; exit stands for dropbear_exit and failed assertions. */
    method RecvData(err: bool, payload: seq<u8>, io: Io) returns (exit: bool, wrote: seq<u8>)
      requires Valid() && (io.Wrote? ==> io.n <= |Buf(View(), err)| + |payload|)
      modifies this`recvdonelen, this`recvwindow, this`sent, this`readfd, this`errfd, this`writefd
      modifies writebuf, extrabuf, writebuf.data, extrabuf.data
      ensures exit == ReceiveData(old(View()), err, payload, io).Exit?
      ensures !exit ==> Valid()
      ensures !exit ==> var d := ReceiveData(old(View()), err, payload, io).d;
        View() == d.c && wrote == d.bytes && sent == old(sent) + d.sent
    {
      hide CBuf.Valid, CBuf.Contents, EndInv, Absorb;
      exit, wrote := false, [];
      if recvEof {
        return true, [];
      }
      var fd, cbuf := if err then errfd else writefd, if err then extrabuf else writebuf;
      if fd < 0 || (err && !extra) {
        return;
      }
      var maxdata := cbuf.GetAvail();
      if |payload| > maxdata {
        return true, [];
      }
      if |payload| > recvwindow {
        return true, [];
      }
      wrote := AbsorbData(err, payload, io);
    }

    /** recv_msg_channel_extended_data of the client, for stderr. */
    method RecvExtended(payload: seq<u8>, io: Io) returns (exit: bool, wrote: seq<u8>)
      requires Valid() && !removed && (io.Wrote? ==> io.n <= |Buf(View(), true)| + |payload|)
      modifies this`recvdonelen, this`recvwindow, this`sent, this`readfd, this`errfd, this`writefd
      modifies writebuf, extrabuf, writebuf.data, extrabuf.data
      ensures forall env :: exit == Receive(old(View()), ExtData(payload), io, env).Exit?
      ensures !exit ==> Valid()
      ensures forall env :: !exit ==> var d := Receive(old(View()), ExtData(payload), io, env).d;
        View() == d.c && wrote == d.bytes && sent == old(sent) + d.sent
    {
      hide CBuf.Valid, CBuf.Contents, EndInv, ReceiveData;
      exit, wrote := false, [];
      if !session {
        return;
      }
      exit, wrote := RecvData(true, payload, io);
    }

    /** The rest of it, once the payload is accepted. */
    method AbsorbData(err: bool, payload: seq<u8>, io: Io) returns (wrote: seq<u8>)
      requires Valid() && (io.Wrote? ==> io.n <= |Buf(View(), err)| + |payload|)
      requires |payload| <= recvwindow && Fd(FdsView(), err) >= 0 && (err ==> extra)
      modifies this`recvdonelen, this`recvwindow, this`sent, this`readfd, this`errfd, this`writefd
      modifies writebuf, extrabuf, writebuf.data, extrabuf.data
      ensures Valid()
      ensures var d := Absorb(old(View()), err, payload, io); View() == d.c && wrote == d.bytes && sent == old(sent) + d.sent
    {
      hide CloseFd, CBuf.Valid, CBuf.Contents, WriteChannel, EndInv, Delivers, Buf, SetBuf, Taken;
      ghost var c := View();
      recvwindow := recvwindow - |payload|;
      ghost var c1 := View();
      SameBuf(c, c1, err);
      WriteEffect(c1, err, payload, io);
      var ok, consumed;
      ok, consumed, wrote := Deliver(err, payload, true, io);
      if ok {
        ghost var c2 := View();
        Keep(err, payload[consumed..]);
        SameEnds(c2, err, Buf(c2, err) + payload[consumed..]);
      }
    }

    /** recv_msg_channel_window_adjust, for a 32-bit increment. */
    method RecvAdjust(incr: nat)
      requires Valid() && transwindow < 0x1_0000_0000 && incr < 0x1_0000_0000
      modifies this`transwindow
      ensures Valid() && transwindow == Min(old(transwindow) + incr, 0xFFFF_FFFF)
      ensures forall io, env :: !removed ==> View() == Receive(old(View()), Adjust(incr), io, env).d.c
    {
      var newwin := (transwindow + incr) % 0x1_0000_0000;
      if newwin < transwindow {
        newwin := 0xffffffff;
      }
      transwindow := newwin;
    }

    // ----- sending -----

    /** send_msg_channel_data; its assertion holds. */
    method SendChannelData(ext: bool, room: nat, io: In)
      requires Valid() && SourceFd(FdsView(), ext) >= 0 && (ext ==> !extra)
      requires io.Got? ==> |io.bytes| <= MaxLen(View(), room)
      modifies this`transwindow, this`sent, this`readfd, this`errfd, this`writefd
      ensures Valid() && View() == SendData(old(View()), ext, room, io).c
      ensures sent == old(sent) + SendData(old(View()), ext, room, io).sent
    {
      hide CloseFd, CBuf.Valid, CBuf.Contents, EndInv, Phases, Adjusts, InFlight;
      SendEffect(View(), ext, room, io);
      assert !sentClose;
      var fd := if ext then errfd else readfd;
      var maxlen := Min(Min(transwindow, maxpacket), room);
      if maxlen == 0 {
        return;
      }
      match io
      case Interrupted =>
      case Ended =>
        CloseChanFd(fd, ShutRd);
      case Got(bytes) =>
        if |bytes| == 0 {
          return;
        }
        assert bytes[..|bytes|] == bytes;
        transwindow := transwindow - |bytes|;
        sent := sent + [if ext then ExtData(bytes) else Data(bytes)];
    }

    // ----- closing -----

    /** send_msg_channel_close. */
    method SendMsgClose()
      modifies this`sent, this`sentEof, this`sentClose, this`readfd, this`errfd, this`writefd
      ensures EndsView() == SendClose(old(EndsView())).e && sent == old(sent) + [Close]
    {
      hide CloseFd;
      sent := sent + [Close];
      sentEof := true;
      sentClose := true;
      CloseChanFd(readfd, ShutRd);
      CloseChanFd(errfd, ShutRdWr);
      CloseChanFd(writefd, ShutWr);
    }

    method FlushFds(env: Env)
      modifies this`readfd, this`errfd, this`writefd
      ensures FdsView() == Flush(old(FdsView()), env)
    {
      hide CloseFd;
      if env.flushing {
        if readfd >= 0 && !env.readPending {
          CloseChanFd(readfd, ShutRd);
        }
        if !extra && errfd >= 0 && !env.errPending {
          CloseChanFd(errfd, ShutRd);
        }
      }
    }

    /** check_close, given whether the buffers hold anything. */
    method CheckEnds(h: Holding, env: Env)
      modifies this`sent, this`sentEof, this`sentClose, this`removed, this`readfd, this`errfd, this`writefd
      ensures EndsView() == CheckClose(old(EndsView()), h, env).e && sent == old(sent) + CheckClose(old(EndsView()), h, env).sent
    {
      hide CloseFd, Flush, SendClose, FinishClose, CheckClose;
      ghost var e := EndsView();
      var allowed := !env.hook || sentClose || env.hookSays;
      FlushFds(env);
      assert EndsView() == e.(fds := Flush(e.fds, env));
      CheckCases(e, h, env);
      var pending := (writefd >= 0 && h.out) || (errfd >= 0 && extra && h.err);
      if recvClose && !pending && allowed {
        RemoveEnds();
        return;
      }
      if (recvEof && !pending) || (writefd != FD_UNINIT && env.hook && allowed) {
        CloseChanFd(writefd, ShutWr);
      }
      FinishCheck(h, allowed);
    }

    /** The answering CLOSE, if still owed, and remove_channel. */
    method RemoveEnds()
      modifies this`sent, this`sentEof, this`sentClose, this`removed, this`readfd, this`errfd, this`writefd
      ensures EndsView() == Removed(old(EndsView())).e && sent == old(sent) + Removed(old(EndsView())).sent
    {
      hide CloseFd, SendClose;
      if !sentClose {
        SendsClose(EndsView());
        SendMsgClose();
      }
      removed := true;
    }

    method FinishCheck(h: Holding, allowed: bool)
      modifies this`sent, this`sentEof, this`sentClose, this`readfd, this`errfd, this`writefd
      ensures EndsView() == FinishClose(old(EndsView()), h, allowed).e && sent == old(sent) + FinishClose(old(EndsView()), h, allowed).sent
    {
      hide CloseFd, SendClose;
      if !sentEof && readfd == FD_CLOSED && (extra || errfd == FD_CLOSED) {
        sent := sent + [Eof];
        sentEof := true;
      }
      if readfd == FD_CLOSED && writefd == FD_CLOSED && (extra || errfd == FD_CLOSED) && !sentClose && allowed
         && !((writefd >= 0 && h.out) || (errfd >= 0 && extra && h.err)) {
        SendsClose(EndsView());
        SendMsgClose();
      }
    }

    /** check_close. */
    method DoCheckClose(env: Env)
      requires Valid()
      modifies this`sent, this`sentEof, this`sentClose, this`removed, this`readfd, this`errfd, this`writefd
      ensures Valid()
      ensures var s := CheckClose(old(View()).ends, Held(old(View())), env);
        View() == old(View()).(ends := s.e) && sent == old(sent) + s.sent
    {
      hide CBuf.Valid, CBuf.Contents, EndInv, CheckClose;
      ghost var e, h := View().ends, Held(View());
      CheckEffect(e, h, env);
      CheckedEnd(e, h, env);
      var out := writebuf.GetUsed();
      var err := extrabuf.GetUsed();
      CheckEnds(Holding(out > 0, err > 0), env);
    }

    /** recv_msg_channel_eof and recv_msg_channel_close. */
    method RecvEnd(close: bool, env: Env)
      requires Valid()
      modifies this`recvEof, this`recvClose, this`sent, this`sentEof, this`sentClose, this`removed, this`readfd, this`errfd, this`writefd
      ensures Valid()
      ensures !old(removed) ==> var d := Receive(old(View()), if close then Close else Eof, Again, env).d;
        View() == d.c && sent == old(sent) + d.sent
    {
      hide CloseFd, CBuf.Valid, CBuf.Contents, CheckClose;
      recvEof := true;
      if close {
        recvClose := true;
      }
      DoCheckClose(env);
    }
  }

  lemma SameBuf(c: Chan, d: Chan, err: bool)
    requires c.writebuf == d.writebuf && c.extrabuf == d.extrabuf
    ensures Buf(c, err) == Buf(d, err)
  {
  }

  lemma SameEnds(c: Chan, err: bool, b: seq<u8>)
    ensures SetBuf(c, err, b).ends == c.ends
  {
  }

  /** The two ways through check_close. */
  lemma CheckCases(e: Ends, h: Holding, env: Env)
    ensures var e0 := e.(fds := Flush(e.fds, env));
      var allowed := CloseAllowed(e.shut, env);
      CheckClose(e, h, env) ==
      if e0.shut.recvClose && !WritePending(e0.fds, h) && allowed then Removed(e0)
      else FinishClose(
        if (e0.shut.recvEof && !WritePending(e0.fds, h)) || (e0.fds.writefd != FD_UNINIT && env.hook && allowed)
        then e0.(fds := CloseFd(e0.fds, e0.fds.writefd, ShutWr)) else e0, h, allowed)
  {
  }

  lemma CheckedEnd(e: Ends, h: Holding, env: Env)
    requires Closes(e, CheckClose(e, h, env))
    ensures EndInv(CheckClose(e, h, env).e)
  {
  }

  lemma SendsClose(e: Ends)
    ensures SendClose(e).sent == [Close]
  {
  }
}
