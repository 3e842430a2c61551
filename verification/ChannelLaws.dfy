/**
 What each operation of a channel does, exactly: which descriptors close and
 which stay, what is sent and what is refused, and that a closing channel can
 always be brought to its end.
 */
module ChannelLaws {
  import opened Arith
  import opened Bytes
  import opened ChannelSpec
  import opened ChannelProtocol

  // ----- close_chan_fd -----

  /**
   A descriptor other than fd is never touched.  Without a socket every use of
   fd closes.  On a socket SHUT_RD closes only what is read, and the other modes
   only what is written.  A descriptor that is closed already stays so.
   */
  lemma CloseFdExact(f: Fds, fd: int, how: How)
    ensures var g := CloseFd(f, fd, how);
      && g.bidir == f.bidir && g.extra == f.extra
      && (f.readfd != fd ==> g.readfd == f.readfd) && (f.writefd != fd ==> g.writefd == f.writefd) && (f.errfd != fd ==> g.errfd == f.errfd)
    ensures fd == FD_CLOSED ==> CloseFd(f, fd, how) == f
    ensures !f.bidir ==> var g := CloseFd(f, fd, how);
      (f.readfd == fd ==> g.readfd == FD_CLOSED) && (f.writefd == fd ==> g.writefd == FD_CLOSED) && (f.errfd == fd ==> g.errfd == FD_CLOSED)
    ensures f.bidir && how == ShutRd ==> var g := CloseFd(f, fd, how);
      && g.writefd == f.writefd && (f.readfd == fd ==> g.readfd == FD_CLOSED)
      && (if f.extra then g.errfd == f.errfd else f.errfd == fd ==> g.errfd == FD_CLOSED)
    ensures f.bidir && how != ShutRd ==> var g := CloseFd(f, fd, how);
      && g.readfd == f.readfd && (f.writefd == fd ==> g.writefd == FD_CLOSED)
      && (if f.extra then f.errfd == fd ==> g.errfd == FD_CLOSED else g.errfd == f.errfd)
  {
  }

  /** In every run, the end of input on a socket leaves its other half open: what still arrives is still delivered. */
  lemma HalfClosed(s0: Net, moves: seq<Move>, s: Net, toB: bool, room: nat)
    requires Initial(s0) && Reaches(s0, moves, s)
    requires var x := Sender(s, toB); x.ends.fds.bidir && x.ends.fds.readfd >= 0 && !x.ends.shut.removed
    requires var x := Sender(s, toB); x.transwindow > 0 && x.cfg.maxpacket > 0 && room > 0
    ensures var m := if toB then AtA(Read(false, room, Ended)) else AtB(Read(false, room, Ended));
      Possible(s, m) && var x, x' := Sender(s, toB), Sender(After(s, m), toB);
      && x'.ends.fds.readfd == FD_CLOSED && x'.ends.fds.writefd == x.ends.fds.writefd
      && x' == x.(ends := x'.ends) && FlowOf(After(s, m), toB) == FlowOf(s, toB) && FlowOf(After(s, m), !toB) == FlowOf(s, !toB)
  {
    var x, f := Sender(s, toB), FlowOf(s, toB);
    CloseFdExact(x.ends.fds, x.ends.fds.readfd, ShutRd);
    NoMessages(0);
    assert f.link + [] == f.link && f.log + [] == f.log && f.sentOut + [] == f.sentOut && f.sentErr + [] == f.sentErr;
  }

  // ----- writechannel -----

  /** The stream's buffer and descriptor, by name. */
  function BufferOf(c: Chan, err: bool): seq<u8>
  {
    if err then c.extrabuf else c.writebuf
  }

  /** Which bytes go out, which stay, when the window is extended and by how much; only a failure closes anything. */
  lemma WriteExact(c: Chan, err: bool, more: seq<u8>, io: Io)
    requires io.Wrote? ==> io.n <= |BufferOf(c, err)| + |more|
    ensures var d := WriteChannel(c, err, more, io); var buf := BufferOf(c, err); var n := if io.Wrote? then io.n else 0;
      && d.bytes == (buf + more)[..n] && d.ok == (io != Failed)
      && BufferOf(d.c, err) == buf[Min(n, |buf|)..] && BufferOf(d.c, !err) == BufferOf(c, !err)
    ensures var d := WriteChannel(c, err, more, io); var done := c.recvdonelen + if io.Wrote? then io.n else 0;
      if 3 * done + 2 < c.cfg.window
      then d.sent == [] && d.c.recvwindow == c.recvwindow && d.c.recvdonelen == done
      else d.sent == [Adjust(done)] && d.c.recvwindow == c.recvwindow + done && d.c.recvdonelen == 0
    ensures var d := WriteChannel(c, err, more, io); d.c.transwindow == c.transwindow && d.c.cfg == c.cfg && d.c.ends.shut == c.ends.shut
    ensures io != Failed ==> WriteChannel(c, err, more, io).c.ends == c.ends
  {
  }

  /** A failed write ends its own descriptor, and spares the others. */
  lemma WriteFailure(c: Chan, err: bool, more: seq<u8>)
    ensures var f, g := c.ends.fds, WriteChannel(c, err, more, Failed).c.ends.fds; var fd := if err then f.errfd else f.writefd;
      && (f.readfd != fd || f.bidir ==> g.readfd == f.readfd)
      && (f.writefd != fd ==> g.writefd == f.writefd) && (f.errfd != fd ==> g.errfd == f.errfd)
      && (!err ==> g.writefd == FD_CLOSED) && (err && f.extra ==> g.errfd == FD_CLOSED)
  {
  }

  // ----- receiving -----

  /** Exactly which messages end the session. */
  lemma ReceiveExits(c: Chan, m: Msg, io: Io, env: Env)
    ensures Receive(c, m, io, env).Exit? <==>
      || c.ends.shut.removed
      || (m.Data? && c.ends.shut.recvEof)
      || (m.Data? && c.ends.fds.writefd >= 0 && (|m.bytes| > c.cfg.window - |c.writebuf| || |m.bytes| > c.recvwindow))
      || (m.ExtData? && c.cfg.session && c.ends.shut.recvEof)
      || (m.ExtData? && c.cfg.session && c.ends.fds.extra && c.ends.fds.errfd >= 0
          && (|m.bytes| > c.cfg.window - |c.extrabuf| || |m.bytes| > c.recvwindow))
  {
  }

  /** Exactly what the others do: dropped, taken into its own stream, credited, or followed by check_close. */
  lemma ReceiveExact(c: Chan, m: Msg, io: Io, env: Env)
    requires Receive(c, m, io, env).Taking?
    ensures var d := Receive(c, m, io, env).d;
      && (m.Data? && c.ends.fds.writefd < 0 ==> d == Delivery(c, [], true, []))
      && (m.ExtData? && !(c.cfg.session && c.ends.fds.extra && c.ends.fds.errfd >= 0) ==> d == Delivery(c, [], true, []))
      && (m.Adjust? ==> d == Delivery(c.(transwindow := if c.transwindow + m.n < 0x1_0000_0000 then c.transwindow + m.n else 0xFFFF_FFFF), [], true, []))
      && (m.Eof? || m.Close? ==> d.ok && d.bytes == [] && d.c == c.(ends := d.c.ends))
  {
  }

  /** A payload that is taken: what the descriptor accepts goes out behind the buffer, the rest is kept, in order. */
  lemma AbsorbExact(c: Chan, err: bool, b: seq<u8>, io: Io, env: Env)
    requires var m := if err then ExtData(b) else Data(b); Receive(c, m, io, env).Taking?
    requires if err then c.cfg.session && c.ends.fds.extra && c.ends.fds.errfd >= 0 else c.ends.fds.writefd >= 0
    requires io.Wrote? ==> io.n <= |BufferOf(c, err)| + |b|
    ensures var d := Receive(c, if err then ExtData(b) else Data(b), io, env).d; var n := if io.Wrote? then io.n else 0;
      && d.bytes == (BufferOf(c, err) + b)[..n] && d.ok == (io != Failed)
      && (d.ok ==> d.bytes + BufferOf(d.c, err) == BufferOf(c, err) + b && d.c.ends == c.ends)
      && BufferOf(d.c, !err) == BufferOf(c, !err)
  {
    hide WriteChannel, Receive;
    TakesPayload(c, err, b, io, env);
    var c1 := c.(recvwindow := c.recvwindow - |b|);
    WriteExact(c1, err, b, io);
    var n := if io.Wrote? then io.n else 0;
    Kept(BufferOf(c, err), b, n);
    Halves(BufferOf(c, err) + b, n);
  }

  lemma TakesPayload(c: Chan, err: bool, b: seq<u8>, io: Io, env: Env)
    requires Receive(c, if err then ExtData(b) else Data(b), io, env).Taking?
    requires if err then c.cfg.session && c.ends.fds.extra && c.ends.fds.errfd >= 0 else c.ends.fds.writefd >= 0
    ensures |b| <= c.recvwindow && Receive(c, if err then ExtData(b) else Data(b), io, env) == Taking(Absorb(c, err, b, io))
  {
    hide Absorb;
  }

  lemma Halves(s: seq<u8>, n: nat)
    requires n <= |s|
    ensures s[..n] + s[n..] == s
  {
  }

  // ----- sending -----

  /** What was read from readfd goes out as data, from errfd as stderr data, within window, packet and buffer; an end closes its descriptor. */
  lemma SendExact(c: Chan, room: nat, b: seq<u8>)
    ensures 0 < |b| <= c.transwindow && |b| <= c.cfg.maxpacket && |b| <= room ==>
      && SendData(c, false, room, Got(b)) == Sending(c.(transwindow := c.transwindow - |b|), [Data(b)])
      && SendData(c, true, room, Got(b)) == Sending(c.(transwindow := c.transwindow - |b|), [ExtData(b)])
    ensures forall ext, io :: c.transwindow == 0 || c.cfg.maxpacket == 0 || room == 0 || io == Interrupted ==>
      SendData(c, ext, room, io) == Sending(c, [])
    ensures c.transwindow > 0 && c.cfg.maxpacket > 0 && room > 0 ==>
      && SendData(c, false, room, Ended) == Sending(c.(ends := c.ends.(fds := CloseFd(c.ends.fds, c.ends.fds.readfd, ShutRd))), [])
      && SendData(c, true, room, Ended) == Sending(c.(ends := c.ends.(fds := CloseFd(c.ends.fds, c.ends.fds.errfd, ShutRd))), [])
  {
    assert b[..|b|] == b;
  }

  // ----- check_close -----

  /** While flushing, what has nothing left to read closes; the rest stays. */
  lemma FlushExact(f: Fds, env: Env)
    ensures var g := Flush(f, env);
      && (!env.flushing ==> g == f)
      && (env.flushing && f.readfd >= 0 && !env.readPending ==> g.readfd == FD_CLOSED)
      && (env.flushing && f.errfd >= 0 && !env.errPending && !f.extra ==> g.errfd == FD_CLOSED)
      && (env.readPending && f.readfd != f.errfd ==> g.readfd == f.readfd)
      && ((env.errPending || f.extra) && f.readfd != f.errfd ==> g.errfd == f.errfd)
      && (f.bidir || (f.writefd != f.readfd && f.writefd != f.errfd) ==> g.writefd == f.writefd)
  {
  }

  /** Something is held for a descriptor that is still open. */
  predicate Undelivered(f: Fds, h: Holding)
  {
    (f.writefd >= 0 && h.out) || (f.errfd >= 0 && f.extra && h.err)
  }

  /** Neither readfd nor a stderr that is read can bring more. */
  predicate Exhausted(f: Fds)
  {
    f.readfd == FD_CLOSED && (f.extra || f.errfd == FD_CLOSED)
  }

  /**
   check_close from e to e' sending `sent`, stated on the result: gone exactly
   when the other side has closed and nothing is undelivered; EOF exactly when
   nothing more can be read; CLOSE exactly when also nothing more can be written.
   */
  ghost predicate Checked(e: Ends, h: Holding, env: Env, e': Ends, sent: seq<Msg>)
  {
    var f, g := Flush(e.fds, env), e'.fds;
    var allowed := !env.hook || e.shut.sentClose || env.hookSays;
    && (e'.shut.removed <==> e.shut.recvClose && !Undelivered(f, h) && allowed)
    && e'.shut.recvEof == e.shut.recvEof && e'.shut.recvClose == e.shut.recvClose && g.bidir == f.bidir && g.extra == f.extra
    && (e'.shut.removed ==> e'.shut.sentClose && AllClosed(g))
    && (!e'.shut.removed ==>
        && (g.writefd == FD_CLOSED <==>
            f.writefd == FD_CLOSED || (e.shut.recvEof && !Undelivered(f, h)) || (f.writefd != FD_UNINIT && env.hook && allowed))
        && (g.writefd != FD_CLOSED ==> g.writefd == f.writefd)
        && (f.bidir || f.readfd != f.writefd || f.readfd == FD_CLOSED ==> g.readfd == f.readfd)
        && (!e'.shut.sentClose && (f.errfd != f.writefd || f.errfd == FD_CLOSED) ==> g.errfd == f.errfd)
        && (e'.shut.sentEof <==> Exhausted(g))
        && (e'.shut.sentClose <==> Exhausted(g) && g.writefd == FD_CLOSED && allowed && !Undelivered(g, h)))
    && sent == (if !e.shut.sentEof && e'.shut.sentEof && !e'.shut.removed then [Eof] else [])
             + (if !e.shut.sentClose && e'.shut.sentClose then [Close] else [])
  }

  lemma CheckExact(e: Ends, h: Holding, env: Env)
    requires EndInv(e) && !e.shut.removed
    ensures var s := CheckClose(e, h, env); Checked(e, h, env, s.e, s.sent)
  {
    hide Flush, CloseFd, SendClose, EndInv, FinishClose;
    var f := Flush(e.fds, env);
    var allowed := !env.hook || e.shut.sentClose || env.hookSays;
    var e0 := e.(fds := f);
    FlushEffect(e.fds, env);
    OnlyClosesEnd(e, f);
    CloseFdExact(f, f.writefd, ShutWr);
    if e.shut.recvClose && !Undelivered(f, h) && allowed {
      if e.shut.sentClose {
        ClosedEnd(e0);
      } else {
        SendCloseEffect(e0);
        ClosedEnd(SendClose(e0).e);
        SentOne(e0);
      }
    } else {
      var e1 := if (e.shut.recvEof && !Undelivered(f, h)) || (f.writefd != FD_UNINIT && env.hook && allowed)
                then e0.(fds := CloseFd(f, f.writefd, ShutWr)) else e0;
      CloseFdEffect(f, f.writefd, ShutWr);
      OnlyClosesEnd(e0, CloseFd(f, f.writefd, ShutWr));
      FinishExact(e1, h, allowed);
      SentIsAllowed(e0, env);
    }
  }

  lemma ClosedEnd(e: Ends)
    requires EndInv(e) && e.shut.sentClose
    ensures AllClosed(e.fds) && e.shut.sentEof
  {
  }

  lemma SentOne(e: Ends)
    ensures SendClose(e).sent == [Close] && SendClose(e).e.shut == e.shut.(sentEof := true, sentClose := true)
  {
  }

  lemma SentIsAllowed(e: Ends, env: Env)
    ensures CloseAllowed(e.shut, env) == (!env.hook || e.shut.sentClose || env.hookSays)
  {
  }

  /** The end of check_close. */
  lemma FinishExact(e: Ends, h: Holding, allowed: bool)
    requires EndInv(e) && (e.shut.sentClose ==> allowed)
    ensures var s := FinishClose(e, h, allowed); var g := s.e.fds;
      && s.e.shut.removed == e.shut.removed && s.e.shut.recvEof == e.shut.recvEof && s.e.shut.recvClose == e.shut.recvClose
      && g.bidir == e.fds.bidir && g.extra == e.fds.extra && g.readfd == e.fds.readfd && g.writefd == e.fds.writefd && (!s.e.shut.sentClose ==> g.errfd == e.fds.errfd)
      && (s.e.shut.sentEof <==> Exhausted(g))
      && (s.e.shut.sentClose <==> Exhausted(g) && g.writefd == FD_CLOSED && allowed && !Undelivered(g, h))
      && s.sent == (if !e.shut.sentEof && s.e.shut.sentEof then [Eof] else []) + (if !e.shut.sentClose && s.e.shut.sentClose then [Close] else [])
  {
    hide CloseFd, SendClose, EndInv;
    EndFacts(e);
    if Exhausted(e.fds) && e.fds.writefd == FD_CLOSED && !e.shut.sentClose && allowed && !Undelivered(e.fds, h) {
      var e2 := e.(shut := e.shut.(sentEof := true));
      ExhaustedEnd(e);
      SendCloseEffect(e2);
      ClosedEnd(SendClose(e2).e);
      SentOne(e2);
    }
  }

  lemma EndFacts(e: Ends)
    requires EndInv(e)
    ensures (e.shut.sentEof ==> Exhausted(e.fds)) && (e.shut.sentClose ==> e.shut.sentEof && AllClosed(e.fds))
  {
  }

  lemma ExhaustedEnd(e: Ends)
    requires EndInv(e) && Exhausted(e.fds)
    ensures EndInv(e.(shut := e.shut.(sentEof := true)))
  {
  }

  /** EOF and CLOSE from the other side are followed by such a check. */
  lemma HeardExact(c: Chan, close: bool, io: Io, env: Env)
    requires EndInv(c.ends) && !c.ends.shut.removed
    ensures var d := Receive(c, if close then Close else Eof, io, env).d;
      var e := c.ends.(shut := c.ends.shut.(recvEof := true, recvClose := c.ends.shut.recvClose || close));
      Checked(e, Holding(|c.writebuf| > 0, |c.extrabuf| > 0), env, d.c.ends, d.sent)
  {
    hide CheckClose, Checked;
    HeardEnd(c.ends, close);
    CheckExact(c.ends.(shut := c.ends.shut.(recvEof := true, recvClose := c.ends.shut.recvClose || close)), Held(c), env);
  }

  // ----- a closing channel can be finished -----

  const QUIET := Env(false, false, false, false, false)

  ghost function ReceiverMove(toB: bool, ev: Event): Move
  {
    if toB then AtB(ev) else AtA(ev)
  }

  lemma {:induction false} ReachesMore(s: Net, ms: seq<Move>, t: Net, ns: seq<Move>, u: Net)
    requires Reaches(s, ms, t) && Reaches(t, ns, u)
    ensures Reaches(s, ms + ns, u)
    decreases |ms|
  {
    hide Possible, After;
    if |ms| == 0 {
      assert ms + ns == ns;
    } else {
      assert (ms + ns)[1..] == ms[1..] + ns;
      ReachesMore(After(s, ms[0]), ms[1..], t, ns, u);
    }
  }

  /** One move of the receiving end. */
  lemma ReceiverActs(s: Net, toB: bool, ev: Event) returns (t: Net)
    requires Inv(s) && Enabled(Receiver(s, toB), FlowOf(s, toB), ev)
    ensures Possible(s, ReceiverMove(toB, ev)) && t == After(s, ReceiverMove(toB, ev)) && Reaches(s, [ReceiverMove(toB, ev)], t) && Inv(t)
    ensures var a := Act(Receiver(s, toB), FlowOf(s, !toB), FlowOf(s, toB), ev);
      Receiver(t, toB) == a.x && FlowOf(t, toB) == a.inn && Sender(t, toB) == Sender(s, toB)
  {
    hide Inv, Act, Enabled;
    var m := ReceiverMove(toB, ev);
    t := After(s, m);
    assert [m][1..] == [];
    MoveKeeps(s, m);
  }

  /** Nothing is held for an open descriptor. */
  ghost predicate Drained(c: Chan)
  {
    (c.ends.fds.writefd >= 0 ==> c.writebuf == []) && (c.ends.fds.errfd >= 0 && c.ends.fds.extra ==> c.extrabuf == [])
  }

  /** A message whose payload is written at once leaves nothing behind. */
  lemma TakeDrains(c: Chan, m: Msg, env: Env)
    requires EndInv(c.ends) && Drained(c) && Receive(c, m, FullWrite(m), env).Taking?
    ensures Drained(Receive(c, m, FullWrite(m), env).d.c)
  {
    hide Receive, EndInv;
    var io := FullWrite(m);
    var d := Receive(c, m, io, env).d;
    TakenNotRemoved(c, m, io, env);
    ReceiveExact(c, m, io, env);
    if m.Data? && c.ends.fds.writefd >= 0 {
      AbsorbExact(c, false, m.bytes, io, env);
    } else if m.ExtData? && c.cfg.session && c.ends.fds.extra && c.ends.fds.errfd >= 0 {
      AbsorbExact(c, true, m.bytes, io, env);
    } else if m.Eof? || m.Close? {
      HeardCloses(c, m.Close?, io, env);
    }
  }

  function FullWrite(m: Msg): Io
  {
    if m.Data? || m.ExtData? then Wrote(|m.bytes|) else Again
  }

  lemma HeardCloses(c: Chan, close: bool, io: Io, env: Env)
    requires EndInv(c.ends) && !c.ends.shut.removed
    ensures OnlyCloses(c.ends.fds, Receive(c, if close then Close else Eof, io, env).d.c.ends.fds)
  {
    hide CheckClose, EndInv;
    HeardEnd(c.ends, close);
    CheckEffect(c.ends.(shut := c.ends.shut.(recvEof := true, recvClose := c.ends.shut.recvClose || close)), Held(c), env);
  }

  /** The receiving end takes all that is on its way. */
  lemma {:induction false} TakeAll(s: Net, toB: bool) returns (more: seq<Move>, t: Net)
    requires Inv(s) && Drained(Receiver(s, toB))
    ensures Reaches(s, more, t) && Inv(t) && FlowOf(t, toB).link == [] && Drained(Receiver(t, toB)) && Sender(t, toB) == Sender(s, toB)
    decreases |FlowOf(s, toB).link|
  {
    hide EndInv, FlowInv, ReadInv, Receive, Drained, Reaches, Took, Put;
    var x, f := Receiver(s, toB), FlowOf(s, toB);
    if |f.link| == 0 {
      more, t := [], s;
      ReachesNow(s);
    } else {
      var m := f.link[0];
      var ev := Take(FullWrite(m), QUIET);
      NoExit(x, Sender(s, toB), FlowOf(s, !toB), f, FullWrite(m), QUIET);
      var s1 := ReceiverActs(s, toB, ev);
      TakeDrains(x, m, QUIET);
      TookAdjusts(f, x, Receive(x, m, FullWrite(m), QUIET).d);
      var rest;
      rest, t := TakeAll(s1, toB);
      more := [ReceiverMove(toB, ev)] + rest;
      ReachesMore(s, [ReceiverMove(toB, ev)], s1, rest, t);
    }
  }

  lemma ReachesNow(s: Net)
    ensures Reaches(s, [], s)
  {
  }

  /** Writing out a buffer in full. */
  lemma WriteAll(s: Net, toB: bool, err: bool) returns (more: seq<Move>, t: Net)
    requires Inv(s) && !Receiver(s, toB).ends.shut.removed
    ensures Reaches(s, more, t) && Inv(t) && Sender(t, toB) == Sender(s, toB)
    ensures var c, d := Receiver(s, toB), Receiver(t, toB);
      && d.ends == c.ends && BufferOf(d, !err) == BufferOf(c, !err)
      && ((if err then c.ends.fds.errfd >= 0 && c.ends.fds.extra else c.ends.fds.writefd >= 0) ==> BufferOf(d, err) == [])
  {
    hide EndInv, FlowInv, ReadInv, Reaches, WriteChannel, Put, Give;
    var c := Receiver(s, toB);
    if if err then c.ends.fds.errfd >= 0 && c.ends.fds.extra else c.ends.fds.writefd >= 0 {
      var ev := WriteOut(err, Wrote(|BufferOf(c, err)|));
      WriteExact(c, err, [], ev.io);
      t := ReceiverActs(s, toB, ev);
      more := [ReceiverMove(toB, ev)];
    } else {
      more, t := [], s;
      ReachesNow(s);
    }
  }

  /** An end whose other side has sent CLOSE can be brought to its removal. */
  lemma FinishSide(s: Net, toB: bool) returns (more: seq<Move>, t: Net)
    requires Inv(s) && Sender(s, toB).ends.shut.sentClose
    ensures Reaches(s, more, t) && Inv(t) && Receiver(t, toB).ends.shut.removed && Sender(t, toB) == Sender(s, toB)
  {
    hide FlowInv, ReadInv, Reaches, EndInv, Inv, WriteChannel, CheckClose, Act;
    if Receiver(s, toB).ends.shut.removed {
      more, t := [], s;
      ReachesNow(s);
      return;
    }
    var m1, s1 := WriteAll(s, toB, false);
    var m2, s2 := WriteAll(s1, toB, true);
    ReachesMore(s, m1, s1, m2, s2);
    var m3, s3 := TakeAll(s2, toB);
    ReachesMore(s, m1 + m2, s2, m3, s3);
    if Receiver(s3, toB).ends.shut.removed {
      more, t := m1 + m2 + m3, s3;
    } else {
      t := LastCheck(s3, toB);
      more := m1 + m2 + m3 + [ReceiverMove(toB, Check(QUIET))];
      ReachesMore(s, m1 + m2 + m3, s3, [ReceiverMove(toB, Check(QUIET))], t);
    }
  }

  lemma LastCheck(s: Net, toB: bool) returns (t: Net)
    requires Inv(s) && Sender(s, toB).ends.shut.sentClose && FlowOf(s, toB).link == [] && Drained(Receiver(s, toB)) && !Receiver(s, toB).ends.shut.removed
    ensures Reaches(s, [ReceiverMove(toB, Check(QUIET))], t) && Inv(t) && Receiver(t, toB).ends.shut.removed && Sender(t, toB) == Sender(s, toB)
  {
    hide WindowInv, StoreInv, StreamInv, ReadInv, Reaches, EndInv, CheckClose, Put;
    var c := Receiver(s, toB);
    t := ReceiverActs(s, toB, Check(QUIET));
    HasClosed(s, toB);
    CheckExact(c.ends, Held(c), QUIET);
    FlushExact(c.ends.fds, QUIET);
  }

  /** With nothing on its way, what was sent was received. */
  lemma HasClosed(s: Net, toB: bool)
    requires Inv(s) && Sender(s, toB).ends.shut.sentClose && FlowOf(s, toB).link == []
    ensures Receiver(s, toB).ends.shut.recvClose
  {
    hide WindowInv, StoreInv, StreamInv, ReadInv, EndInv;
    assert PhaseInv(Sender(s, toB), Receiver(s, toB), FlowOf(s, toB));
    NoMessages(RecvPhase(Receiver(s, toB).ends.shut));
  }

  /** From every state of every run in which one side has sent CLOSE there is a way on that removes the channel at both. */
  lemma CanFinish(s0: Net, moves: seq<Move>, s: Net, toB: bool) returns (more: seq<Move>, t: Net)
    requires Initial(s0) && Reaches(s0, moves, s) && Sender(s, toB).ends.shut.sentClose
    ensures Reaches(s, more, t) && t.a.ends.shut.removed && t.b.ends.shut.removed
  {
    hide Inv, Initial, Reaches, EndInv;
    InitialInv(s0);
    Safety(s0, moves, s);
    var m1, s1 := FinishSide(s, toB);
    RemovedHasClosed(s1, toB);
    var m2, s2 := FinishSide(s1, !toB);
    ReachesMore(s, m1, s1, m2, s2);
    more, t := m1 + m2, s2;
  }

  lemma RemovedHasClosed(s: Net, toB: bool)
    requires Inv(s) && Receiver(s, toB).ends.shut.removed
    ensures Receiver(s, toB).ends.shut.sentClose
  {
    hide FlowInv, ReadInv;
  }

  /**
   In every run: a channel with nothing left to read, to write or to deliver has
   sent its CLOSE after a check, and one that has is removed by the check that
   follows the other side's CLOSE.
   */
  lemma ClosesUp(s0: Net, moves: seq<Move>, s: Net, toB: bool)
    requires Initial(s0) && Reaches(s0, moves, s) && !Receiver(s, toB).ends.shut.removed
    ensures var c := Receiver(s, toB); Exhausted(c.ends.fds) && c.ends.fds.writefd == FD_CLOSED && Drained(c) ==>
      Receiver(After(s, ReceiverMove(toB, Check(QUIET))), toB).ends.shut.sentClose
    ensures var c, q := Receiver(s, toB), FlowOf(s, toB).link; |q| > 0 && q[0] == Close && Drained(c) ==>
      Possible(s, ReceiverMove(toB, Take(Again, QUIET))) && Receiver(After(s, ReceiverMove(toB, Take(Again, QUIET))), toB).ends.shut.removed
  {
    hide FlowInv, ReadInv, EndInv, CheckClose, Reaches, Initial, Flush, Put, Took, Noted, Give;
    var c, f := Receiver(s, toB), FlowOf(s, toB);
    InitialInv(s0);
    Safety(s0, moves, s);
    CheckExact(c.ends, Held(c), QUIET);
    FlushExact(c.ends.fds, QUIET);
    if |f.link| > 0 && f.link[0] == Close {
      HeardExact(c, true, Again, QUIET);
    }
  }
}
