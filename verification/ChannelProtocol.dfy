/**
 Two endpoints of a channel joined by FIFO links: window accounting, byte
 streams and the closing handshake, in every run.
 */
module ChannelProtocol {
  import opened Arith
  import opened Bytes
  import opened ChannelSpec

  // ----- what is on a link -----

  /** The bytes of one stream on a link, in order. */
  ghost function Stream(q: seq<Msg>, err: bool): (s: seq<u8>)
  {
    if |q| == 0 then [] else Payload(q[0], err) + Stream(q[1..], err)
  }

  ghost function Payload(m: Msg, err: bool): seq<u8>
  {
    match m
    case Data(b) => if err then [] else b
    case ExtData(b) => if err then b else []
    case _ => []
  }

  ghost function Adjusts(q: seq<Msg>): nat
  {
    if |q| == 0 then 0 else (if q[0].Adjust? then q[0].n else 0) + Adjusts(q[1..])
  }

  /** Bytes on a link, both streams. */
  ghost function InFlight(q: seq<Msg>): nat
  {
    |Stream(q, false)| + |Stream(q, true)|
  }

  lemma {:induction false} StreamAppend(q: seq<Msg>, r: seq<Msg>, err: bool)
    ensures Stream(q + r, err) == Stream(q, err) + Stream(r, err)
  {
    if |q| == 0 {
      assert q + r == r;
    } else {
      assert (q + r)[1..] == q[1..] + r;
      StreamAppend(q[1..], r, err);
    }
  }

  lemma {:induction false} AdjustsAppend(q: seq<Msg>, r: seq<Msg>)
    ensures Adjusts(q + r) == Adjusts(q) + Adjusts(r)
  {
    if |q| == 0 {
      assert q + r == r;
    } else {
      assert (q + r)[1..] == q[1..] + r;
      AdjustsAppend(q[1..], r);
    }
  }

  // ----- the order of messages -----

  const ILLEGAL := 3

  /** 0 open, 1 after EOF, 2 after CLOSE: what section 5.3 of RFC 4254 lets follow. */
  function Advance(phase: int, m: Msg): int
  {
    match m
    case Data(_) => if phase == 0 then 0 else ILLEGAL
    case ExtData(_) => if phase == 0 then 0 else ILLEGAL
    case Adjust(_) => if phase < 2 then phase else ILLEGAL
    case Eof => if phase == 0 then 1 else ILLEGAL
    case Close => if phase < 2 then 2 else ILLEGAL
  }

  ghost function Phases(q: seq<Msg>, phase: int): int
  {
    if |q| == 0 then phase else Phases(q[1..], Advance(phase, q[0]))
  }

  function SentPhase(s: Shut): int
  {
    if s.sentClose then 2 else if s.sentEof then 1 else 0
  }

  function RecvPhase(s: Shut): int
  {
    if s.recvClose then 2 else if s.recvEof then 1 else 0
  }

  lemma {:induction false} PhasesAppend(q: seq<Msg>, r: seq<Msg>, phase: int)
    ensures Phases(q + r, phase) == Phases(r, Phases(q, phase))
  {
    if |q| == 0 {
      assert q + r == r;
    } else {
      assert (q + r)[1..] == q[1..] + r;
      PhasesAppend(q[1..], r, Advance(phase, q[0]));
    }
  }

  /** There is no way back to an earlier phase. */
  lemma {:induction false} PhasesGrow(q: seq<Msg>, phase: int)
    requires 0 <= phase <= ILLEGAL
    ensures phase <= Phases(q, phase) <= ILLEGAL
    ensures phase >= 2 && |q| > 0 ==> Phases(q, phase) == ILLEGAL
  {
    if |q| > 0 {
      PhasesGrow(q[1..], Advance(phase, q[0]));
    }
  }

  // ----- one direction -----

  /**
   One link with its history: all messages ever sent, the bytes the sender read
   from readfd and from errfd, and per stream the bytes sent, given to the
   receiver's descriptor, ignored and discarded.
   */
  datatype Flow = Flow(link: seq<Msg>, log: seq<Msg>, readOut: seq<u8>, readErr: seq<u8>,
    sentOut: seq<u8>, sentErr: seq<u8>, gotOut: seq<u8>, gotErr: seq<u8>,
    dropOut: nat, dropErr: nat, lostOut: nat, lostErr: nat)

  ghost function SentBy(f: Flow, err: bool): seq<u8> { if err then f.sentErr else f.sentOut }

  ghost function GotBy(f: Flow, err: bool): seq<u8> { if err then f.gotErr else f.gotOut }

  ghost function Drop(f: Flow, err: bool): nat { if err then f.dropErr else f.dropOut }

  ghost function Lost(f: Flow, err: bool): nat { if err then f.lostErr else f.lostOut }

  /** The channel still passes this stream on. */
  ghost predicate Keeps(y: Chan, err: bool)
  {
    Fd(y.ends.fds, err) >= 0 && (err ==> y.cfg.session && y.ends.fds.extra)
  }

  /** x's window, the data under way, the adjustments under way and what was ignored make up y's window. */
  ghost predicate WindowInv(x: Chan, y: Chan, xy: Flow, yx: Flow)
  {
    x.transwindow + InFlight(xy.link) + Adjusts(yx.link) + xy.dropOut + xy.dropErr == y.recvwindow
  }

  /** y's window and everything it holds make up its buffer size. */
  ghost predicate StoreInv(y: Chan, xy: Flow)
  {
    && y.recvwindow + |y.writebuf| + |y.extrabuf| + y.recvdonelen + xy.lostOut + xy.lostErr == y.cfg.window
    && (!(y.cfg.session && y.ends.fds.extra) ==> y.extrabuf == [])
    && y.recvdonelen < Max(1, Threshold(y))
    && 0 < y.cfg.window < 0x1_0000_0000
  }

  ghost predicate PhaseInv(x: Chan, y: Chan, xy: Flow)
  {
    && Phases(xy.link, RecvPhase(y.ends.shut)) == SentPhase(x.ends.shut)
    && Phases(xy.log, 0) == SentPhase(x.ends.shut)
  }

  /** One stream: nothing reordered, invented or, while the descriptor is open, missing. */
  ghost predicate Conserves(sent: seq<u8>, got: seq<u8>, buf: seq<u8>, flight: seq<u8>, drop: nat, lost: nat, keeps: bool)
  {
    && got <= sent && |sent| == |got| + |buf| + |flight| + drop + lost
    && (keeps ==> sent == got + buf + flight && drop == 0 && lost == 0)
  }

  ghost predicate StreamInv(y: Chan, xy: Flow, err: bool)
  {
    Conserves(SentBy(xy, err), GotBy(xy, err), Buf(y, err), Stream(xy.link, err), Drop(xy, err), Lost(xy, err), Keeps(y, err))
  }

  ghost predicate FlowInv(x: Chan, y: Chan, xy: Flow, yx: Flow)
  {
    && WindowInv(x, y, xy, yx) && StoreInv(y, xy) && PhaseInv(x, y, xy)
    && StreamInv(y, xy, false) && StreamInv(y, xy, true)
  }

  /** What one endpoint knows of itself. */
  ghost predicate EndInv(e: Ends)
  {
    && (e.fds.bidir ==> e.fds.errfd == FD_CLOSED)
    && (e.shut.sentClose ==> e.shut.sentEof && AllClosed(e.fds))
    && (e.shut.sentEof ==> NothingToSend(e.fds))
    && (e.shut.recvClose ==> e.shut.recvEof)
    && (e.shut.removed ==> e.shut.sentClose && e.shut.recvClose)
  }

  ghost predicate AllClosed(f: Fds)
  {
    f.readfd == FD_CLOSED && f.errfd == FD_CLOSED && f.writefd == FD_CLOSED
  }

  // ----- events -----

  datatype Event =
    | Read(ext: bool, room: nat, input: In)
    | WriteOut(err: bool, io: Io)
    | Check(env: Env)
    | Take(io: Io, env: Env)

  /** channelio's tests, what read may answer, and a message to take. */
  ghost predicate Enabled(x: Chan, yx: Flow, ev: Event)
  {
    match ev
    case Read(ext, room, input) =>
      && !x.ends.shut.removed && (if ext then x.ends.fds.errfd else x.ends.fds.readfd) >= 0 && (ext ==> !x.ends.fds.extra)
      && (input.Got? ==> |input.bytes| <= x.transwindow && |input.bytes| <= x.cfg.maxpacket && |input.bytes| <= room)
    case WriteOut(err, _) => !x.ends.shut.removed && Fd(x.ends.fds, err) >= 0 && (err ==> x.ends.fds.extra)
    case Check(_) => !x.ends.shut.removed
    case Take(io, env) => |yx.link| > 0 && Receive(x, yx.link[0], io, env).Taking?
  }

  /** x's state, its outgoing link and its incoming link after an event at x. */
  datatype Acted = Acted(x: Chan, out: Flow, inn: Flow)

  ghost function Put(f: Flow, sent: seq<Msg>): Flow
  {
    f.(link := f.link + sent, log := f.log + sent, sentOut := f.sentOut + Stream(sent, false), sentErr := f.sentErr + Stream(sent, true))
  }

  /** What read answered, noted by descriptor. */
  ghost function Noted(f: Flow, ext: bool, input: In): Flow
  {
    if !input.Got? then f else if ext then f.(readErr := f.readErr + input.bytes) else f.(readOut := f.readOut + input.bytes)
  }

  ghost function Give(f: Flow, err: bool, bytes: seq<u8>): Flow
  {
    if err then f.(gotErr := f.gotErr + bytes) else f.(gotOut := f.gotOut + bytes)
  }

  /** The incoming link after its head m was taken with result d. */
  ghost function Took(f: Flow, x: Chan, m: Msg, d: Delivery): Flow
    requires |f.link| > 0
  {
    var g := Give(f.(link := f.link[1..]), m.ExtData?, d.bytes);
    if !(m.Data? || m.ExtData?) then g
    else
      var n := |m.bytes|;
      if !Keeps(x, m.ExtData?) then (if m.ExtData? then g.(dropErr := g.dropErr + n) else g.(dropOut := g.dropOut + n))
      else if !d.ok then (if m.ExtData? then g.(lostErr := g.lostErr + n) else g.(lostOut := g.lostOut + n))
      else g
  }

  ghost function Act(x: Chan, xy: Flow, yx: Flow, ev: Event): Acted
    requires Enabled(x, yx, ev)
  {
    match ev
    case Read(ext, room, input) =>
      var s := SendData(x, ext, room, input);
      Acted(s.c, Noted(Put(xy, s.sent), ext, input), yx)
    case WriteOut(err, io) =>
      var d := WriteChannel(x, err, [], io);
      Acted(d.c, Put(xy, d.sent), Give(yx, err, d.bytes))
    case Check(env) =>
      var s := CheckClose(x.ends, Held(x), env);
      Acted(x.(ends := s.e), Put(xy, s.sent), yx)
    case Take(io, env) =>
      var d := Receive(x, yx.link[0], io, env).d;
      Acted(d.c, Put(xy, d.sent), Took(yx, x, yx.link[0], d))
  }

  // ----- effects of the single operations -----

  /** Descriptors can only close. */
  ghost predicate OnlyCloses(f: Fds, g: Fds)
  {
    && g.bidir == f.bidir && g.extra == f.extra
    && (g.readfd == f.readfd || g.readfd == FD_CLOSED)
    && (g.errfd == f.errfd || g.errfd == FD_CLOSED)
    && (g.writefd == f.writefd || g.writefd == FD_CLOSED)
  }

  lemma CloseFdEffect(f: Fds, fd: int, how: How)
    ensures OnlyCloses(f, CloseFd(f, fd, how))
    ensures how == ShutRd && fd == f.readfd ==> CloseFd(f, fd, how).readfd == FD_CLOSED
    ensures how != ShutRd && fd == f.writefd ==> CloseFd(f, fd, how).writefd == FD_CLOSED
    ensures how != ShutRd && fd == f.errfd && (f.extra || !f.bidir) ==> CloseFd(f, fd, how).errfd == FD_CLOSED
  {
  }

  lemma OnlyClosesEnd(e: Ends, g: Fds)
    requires EndInv(e) && OnlyCloses(e.fds, g)
    ensures EndInv(e.(fds := g))
  {
  }

  /** A message that carries no window. */
  lemma OneMessage(m: Msg, phase: int)
    ensures Adjusts([m]) == (if m.Adjust? then m.n else 0) && Phases([m], phase) == Advance(phase, m)
    ensures Stream([m], false) == Payload(m, false) && Stream([m], true) == Payload(m, true)
  {
    var q := [m];
    assert q[1..] == [];
    assert Adjusts(q) == (if m.Adjust? then m.n else 0) + Adjusts(q[1..]);
    assert Stream(q, false) == Payload(m, false) + Stream(q[1..], false) && Stream(q, true) == Payload(m, true) + Stream(q[1..], true);
    assert Phases(q, phase) == Phases(q[1..], Advance(phase, m));
  }

  lemma NoMessages(phase: int)
    ensures Adjusts([]) == 0 && Stream([], false) == [] && Stream([], true) == [] && Phases([], phase) == phase
  {
  }

  /** Only CLOSE and EOF, taking the handshake from one phase to the other. */
  ghost predicate Closes(e: Ends, s: Closing)
  {
    && OnlyCloses(e.fds, s.e.fds) && EndInv(s.e)
    && s.e.shut.recvEof == e.shut.recvEof && s.e.shut.recvClose == e.shut.recvClose
    && Adjusts(s.sent) == 0 && Stream(s.sent, false) == [] && Stream(s.sent, true) == []
    && Phases(s.sent, SentPhase(e.shut)) == SentPhase(s.e.shut)
  }

  lemma SendCloseEffect(e: Ends)
    requires EndInv(e) && !e.shut.sentClose
    ensures Closes(e, SendClose(e)) && SendClose(e).e.shut.sentClose && SendClose(e).e.shut.removed == e.shut.removed
  {
    hide CloseFd;
    var f1 := CloseFd(e.fds, e.fds.readfd, ShutRd);
    var f2 := CloseFd(f1, f1.errfd, ShutRdWr);
    CloseFdEffect(e.fds, e.fds.readfd, ShutRd);
    CloseFdEffect(f1, f1.errfd, ShutRdWr);
    CloseFdEffect(f2, f2.writefd, ShutWr);
    OneMessage(Close, SentPhase(e.shut));
  }

  /** Sending CLOSE shuts stderr off except on a socket whose stderr is read through another descriptor. */
  lemma CloseEndsStderr(e: Ends)
    ensures SendClose(e).e.fds.errfd == FD_CLOSED <==>
      e.fds.errfd == FD_CLOSED || e.fds.extra || !e.fds.bidir || e.fds.errfd == e.fds.readfd
    ensures SendClose(e).e.fds.readfd == FD_CLOSED && SendClose(e).e.fds.writefd == FD_CLOSED
  {
    var f1 := CloseFd(e.fds, e.fds.readfd, ShutRd);
    var f2 := CloseFd(f1, f1.errfd, ShutRdWr);
    assert f2.errfd == FD_CLOSED <==> e.fds.errfd == FD_CLOSED || e.fds.extra || !e.fds.bidir || e.fds.errfd == e.fds.readfd;
  }

  lemma FlushEffect(f: Fds, env: Env)
    ensures OnlyCloses(f, Flush(f, env))
  {
    hide CloseFd;
    CloseFdEffect(f, f.readfd, ShutRd);
    var f1 := CloseFd(f, f.readfd, ShutRd);
    CloseFdEffect(f1, f1.errfd, ShutRd);
    CloseFdEffect(f, f.errfd, ShutRd);
  }

  /** The two messages at the end of check_close. */
  lemma FinishEffect(e: Ends, h: Holding, allowed: bool)
    requires EndInv(e)
    ensures Closes(e, FinishClose(e, h, allowed)) && FinishClose(e, h, allowed).e.shut.removed == e.shut.removed
  {
    hide SendClose, WritePending;
    NoMessages(SentPhase(e.shut));
    OneMessage(Eof, SentPhase(e.shut));
    var s2 := if !e.shut.sentEof && NothingToSend(e.fds) then SendEof(e) else Closing(e, []);
    assert Closes(e, s2);
    var f := s2.e.fds;
    if NothingToSend(f) && f.writefd == FD_CLOSED && !s2.e.shut.sentClose && allowed && !WritePending(f, h) {
      SendCloseEffect(s2.e);
      ClosesTwice(e, s2, SendClose(s2.e));
    }
  }

  lemma ClosesTwice(e: Ends, s: Closing, t: Closing)
    requires Closes(e, s) && Closes(s.e, t)
    ensures Closes(e, t.(sent := s.sent + t.sent))
  {
    PhasesAppend(s.sent, t.sent, SentPhase(e.shut));
    AdjustsAppend(s.sent, t.sent);
    StreamAppend(s.sent, t.sent, false);
    StreamAppend(s.sent, t.sent, true);
  }

  /** check_close sends at most EOF and CLOSE, each once and in this order, and removes only when both sides have closed. */
  lemma CheckEffect(e: Ends, h: Holding, env: Env)
    requires EndInv(e)
    ensures Closes(e, CheckClose(e, h, env))
    ensures CheckClose(e, h, env).e.shut.removed ==> e.shut.removed || !WritePending(Flush(e.fds, env), h)
  {
    hide CloseFd, SendClose, WritePending, FinishClose, Flush, EndInv;
    var allowed, g := CloseAllowed(e.shut, env), Flush(e.fds, env);
    var e0 := e.(fds := g);
    FlushEffect(e.fds, env);
    OnlyClosesEnd(e, g);
    NoMessages(SentPhase(e.shut));
    if e0.shut.recvClose && !WritePending(g, h) && allowed {
      if !e0.shut.sentClose { SendCloseEffect(e0); }
      RemovedEnd(if e0.shut.sentClose then e0 else SendClose(e0).e);
    } else {
      CloseFdEffect(g, g.writefd, ShutWr);
      OnlyClosesEnd(e0, CloseFd(g, g.writefd, ShutWr));
      var e1 := if (e0.shut.recvEof && !WritePending(g, h)) || (g.writefd != FD_UNINIT && env.hook && allowed)
                then e0.(fds := CloseFd(g, g.writefd, ShutWr)) else e0;
      FinishEffect(e1, h, allowed);
    }
  }

  lemma RemovedEnd(e: Ends)
    requires EndInv(e) && e.shut.sentClose && e.shut.recvClose
    ensures EndInv(e.(shut := e.shut.(removed := true)))
  {
  }

  /** writechannel taking n bytes: the conservation behind the window and the streams. */
  ghost predicate Delivers(c: Chan, err: bool, more: seq<u8>, d: Delivery, n: nat)
  {
    && n <= |Buf(c, err)| + |more| && d.bytes == (Buf(c, err) + more)[..n]
    && Buf(d.c, err) == Buf(c, err)[Min(n, |Buf(c, err)|)..] && Buf(d.c, !err) == Buf(c, !err)
    && d.c.recvwindow == c.recvwindow + Adjusts(d.sent) && d.c.recvdonelen + Adjusts(d.sent) == c.recvdonelen + n
    && d.c.recvdonelen < Max(1, Threshold(c))
    && Stream(d.sent, false) == [] && Stream(d.sent, true) == [] && Phases(d.sent, SentPhase(c.ends.shut)) == SentPhase(c.ends.shut)
    && d.c.transwindow == c.transwindow && d.c.cfg == c.cfg && d.c.ends.shut == c.ends.shut && OnlyCloses(c.ends.fds, d.c.ends.fds)
    && (if d.ok then d.c.ends == c.ends else n == 0 && Fd(d.c.ends.fds, err) < 0)
  }

  lemma WriteEffect(c: Chan, err: bool, more: seq<u8>, io: Io)
    requires Fd(c.ends.fds, err) >= 0 && (err ==> c.ends.fds.extra) && EndInv(c.ends)
    ensures Delivers(c, err, more, WriteChannel(c, err, more, io), Taken(c, err, more, io))
    ensures EndInv(WriteChannel(c, err, more, io).c.ends)
  {
    hide CloseFd;
    var n, w := Taken(c, err, more, io), Write(c, err, more, io);
    CloseFdEffect(c.ends.fds, Fd(c.ends.fds, err), ShutWr);
    OnlyClosesEnd(c.ends, CloseFd(c.ends.fds, Fd(c.ends.fds, err), ShutWr));
    OneMessage(Adjust(w.recvdonelen), SentPhase(c.ends.shut));
    NoMessages(SentPhase(c.ends.shut));
  }

  /** send_msg_channel_data sends within the window, and only while nothing has ended. */
  lemma SendEffect(c: Chan, ext: bool, room: nat, io: In)
    requires EndInv(c.ends) && SourceFd(c.ends.fds, ext) >= 0 && (ext ==> !c.ends.fds.extra)
    ensures !c.ends.shut.sentClose
    ensures var s := SendData(c, ext, room, io);
      && s.c.transwindow + InFlight(s.sent) == c.transwindow && Adjusts(s.sent) == 0
      && Phases(s.sent, SentPhase(c.ends.shut)) == SentPhase(c.ends.shut)
      && s.c == c.(transwindow := s.c.transwindow, ends := s.c.ends) && s.c.ends.shut == c.ends.shut
      && OnlyCloses(c.ends.fds, s.c.ends.fds) && EndInv(s.c.ends)
  {
    hide CloseFd;
    var fd := SourceFd(c.ends.fds, ext);
    var s := SendData(c, ext, room, io);
    CloseFdEffect(c.ends.fds, fd, ShutRd);
    OnlyClosesEnd(c.ends, CloseFd(c.ends.fds, fd, ShutRd));
    NoMessages(SentPhase(c.ends.shut));
    if |s.sent| > 0 {
      OneMessage(s.sent[0], SentPhase(c.ends.shut));
      assert s.sent == [s.sent[0]];
    }
  }

  // ----- the two directions after an event at x -----

  /** The outgoing direction, when x has sent what its window and phase account for. */
  lemma OutKeeps(x: Chan, x': Chan, y: Chan, xy: Flow, yx: Flow, yx': Flow, sent: seq<Msg>)
    requires FlowInv(x, y, xy, yx)
    requires x.transwindow + Adjusts(yx.link) == x'.transwindow + Adjusts(yx'.link) + InFlight(sent)
    requires Phases(sent, SentPhase(x.ends.shut)) == SentPhase(x'.ends.shut)
    ensures FlowInv(x', y, Put(xy, sent), yx')
  {
    hide Stream, Adjusts, Phases;
    StreamAppend(xy.link, sent, false);
    StreamAppend(xy.link, sent, true);
    PhasesAppend(xy.link, sent, RecvPhase(y.ends.shut));
    PhasesAppend(xy.log, sent, 0);
    StreamGrows(y, xy, sent, false);
    StreamGrows(y, xy, sent, true);
  }

  lemma StreamGrows(y: Chan, xy: Flow, sent: seq<Msg>, err: bool)
    requires StreamInv(y, xy, err)
    ensures StreamInv(y, Put(xy, sent), err)
  {
    hide Stream;
    StreamAppend(xy.link, sent, err);
    ConservesSend(SentBy(xy, err), GotBy(xy, err), Buf(y, err), Stream(xy.link, err), Drop(xy, err), Lost(xy, err), Keeps(y, err), Stream(sent, err));
  }

  lemma ConservesSend(sent: seq<u8>, got: seq<u8>, buf: seq<u8>, flight: seq<u8>, drop: nat, lost: nat, keeps: bool, s: seq<u8>)
    requires Conserves(sent, got, buf, flight, drop, lost, keeps)
    ensures Conserves(sent + s, got, buf, flight + s, drop, lost, keeps)
  {
  }

  /** n bytes leave the buffer for the descriptor. */
  lemma ConservesWrite(sent: seq<u8>, got: seq<u8>, buf: seq<u8>, flight: seq<u8>, drop: nat, lost: nat, keeps: bool, keeps': bool, n: nat)
    requires Conserves(sent, got, buf, flight, drop, lost, keeps) && n <= |buf| && (keeps' ==> keeps) && (keeps || n == 0)
    ensures Conserves(sent, got + buf[..n], buf[n..], flight, drop, lost, keeps')
  {
    assert buf == buf[..n] + buf[n..];
    if keeps {
      assert sent == (got + buf[..n]) + buf[n..] + flight;
    } else {
      assert got + buf[..n] == got;
    }
  }

  /** A payload arrives; n bytes of the buffer and then of the payload reach the descriptor. */
  lemma ConservesAbsorb(sent: seq<u8>, got: seq<u8>, buf: seq<u8>, b: seq<u8>, rest: seq<u8>, n: nat)
    requires Conserves(sent, got, buf, b + rest, 0, 0, true) && n <= |buf| + |b|
    ensures Conserves(sent, got + (buf + b)[..n], buf[Min(n, |buf|)..] + b[Max(0, n - |buf|)..], rest, 0, 0, true)
  {
    Kept(buf, b, n);
    assert sent == got + (buf + b) + rest;
    Regroup(got, buf + b, rest, n);
  }

  lemma Kept(buf: seq<u8>, b: seq<u8>, n: nat)
    requires n <= |buf| + |b|
    ensures buf[Min(n, |buf|)..] + b[Max(0, n - |buf|)..] == (buf + b)[n..]
  {
  }

  lemma Regroup(got: seq<u8>, all: seq<u8>, rest: seq<u8>, n: nat)
    requires n <= |all|
    ensures got + all + rest == (got + all[..n]) + all[n..] + rest
  {
    assert all == all[..n] + all[n..];
  }

  /** A payload is ignored, or lost with the descriptor. */
  lemma ConservesMiss(sent: seq<u8>, got: seq<u8>, buf: seq<u8>, b: seq<u8>, rest: seq<u8>, drop: nat, lost: nat, keeps: bool)
    requires Conserves(sent, got, buf, b + rest, drop, lost, keeps)
    ensures Conserves(sent, got + [], buf, rest, drop + |b|, lost, false) && Conserves(sent, got + [], buf, rest, drop, lost + |b|, false)
  {
    assert got + [] == got;
  }

  /** The incoming window, when x's window moved with what it took and what it announced. */
  lemma InWindow(x: Chan, x': Chan, y: Chan, xy: Flow, yx: Flow, yx': Flow, sent: seq<Msg>)
    requires WindowInv(y, x, yx, xy)
    requires InFlight(yx.link) + yx.dropOut + yx.dropErr + x'.recvwindow
          == InFlight(yx'.link) + yx'.dropOut + yx'.dropErr + Adjusts(sent) + x.recvwindow
    ensures WindowInv(y, x', yx', Put(xy, sent))
  {
    hide Stream, Adjusts;
    AdjustsAppend(xy.link, sent);
  }

  /** Closing descriptors loses no promise about the incoming direction. */
  lemma InCloses(x: Chan, x': Chan, y: Chan, xy: Flow, yx: Flow, sent: seq<Msg>)
    requires FlowInv(y, x, yx, xy) && Adjusts(sent) == 0
    requires x' == x.(transwindow := x'.transwindow, ends := x'.ends) && OnlyCloses(x.ends.fds, x'.ends.fds)
    requires RecvPhase(x'.ends.shut) == RecvPhase(x.ends.shut)
    ensures FlowInv(y, x', yx, Put(xy, sent))
  {
    hide Stream, Adjusts, Phases;
    InWindow(x, x', y, xy, yx, yx, sent);
  }

  lemma ReadKeeps(x: Chan, y: Chan, xy: Flow, yx: Flow, ev: Event)
    requires EndInv(x.ends) && FlowInv(x, y, xy, yx) && FlowInv(y, x, yx, xy) && ev.Read? && Enabled(x, yx, ev)
    ensures var t := Act(x, xy, yx, ev); EndInv(t.x.ends) && FlowInv(t.x, y, t.out, t.inn) && FlowInv(y, t.x, t.inn, t.out)
  {
    hide FlowInv, SendData, Put, Adjusts, InFlight, Phases, EndInv, Noted;
    SendEffect(x, ev.ext, ev.room, ev.input);
    var s := SendData(x, ev.ext, ev.room, ev.input);
    OutKeeps(x, s.c, y, xy, yx, yx, s.sent);
    InCloses(x, s.c, y, xy, yx, s.sent);
    NotedKeeps(s.c, y, Put(xy, s.sent), yx, ev.ext, ev.input);
  }

  lemma NotedKeeps(x: Chan, y: Chan, xy: Flow, yx: Flow, ext: bool, input: In)
    requires FlowInv(x, y, xy, yx) && FlowInv(y, x, yx, xy)
    ensures FlowInv(x, y, Noted(xy, ext, input), yx) && FlowInv(y, x, yx, Noted(xy, ext, input))
  {
    hide Stream, Adjusts, Phases, Conserves, EndInv;
  }

  /** Each stream's messages carry exactly what was read from its descriptor. */
  ghost predicate ReadInv(f: Flow)
  {
    f.sentOut == f.readOut && f.sentErr == f.readErr
  }

  lemma ReadNoted(x: Chan, ext: bool, room: nat, input: In, xy: Flow)
    requires EndInv(x.ends) && Enabled(x, xy, Read(ext, room, input)) && ReadInv(xy)
    ensures ReadInv(Noted(Put(xy, SendData(x, ext, room, input).sent), ext, input))
  {
    hide EndInv;
    var s := SendData(x, ext, room, input);
    NoMessages(0);
    if |s.sent| > 0 {
      OneMessage(s.sent[0], 0);
      assert input.bytes[..|input.bytes|] == input.bytes;
    }
  }

  /** Messages without data leave the streams alone. */
  lemma NothingSent(f: Flow, sent: seq<Msg>)
    requires ReadInv(f) && Stream(sent, false) == [] && Stream(sent, true) == []
    ensures ReadInv(Put(f, sent))
  {
    assert f.sentOut + [] == f.sentOut && f.sentErr + [] == f.sentErr;
  }

  /** The streams and the descriptors they are read from stay in step. */
  lemma ReadsKept(x: Chan, xy: Flow, yx: Flow, ev: Event)
    requires EndInv(x.ends) && Enabled(x, yx, ev) && ReadInv(xy) && ReadInv(yx)
    ensures var t := Act(x, xy, yx, ev); ReadInv(t.out) && ReadInv(t.inn)
  {
    hide SendData, WriteChannel, CheckClose, Put, Stream, Held, EndInv, Adjusts, Phases, Taken, Noted;
    match ev
    case Read(ext, room, input) => ReadNoted(x, ext, room, input, xy);
    case WriteOut(err, io) =>
      WriteEffect(x, err, [], io);
      NothingSent(xy, WriteChannel(x, err, [], io).sent);
    case Check(env) =>
      CheckEffect(x.ends, Held(x), env);
      NothingSent(xy, CheckClose(x.ends, Held(x), env).sent);
    case Take(io, env) =>
      TakeSilent(x, yx.link[0], io, env);
      NothingSent(xy, Receive(x, yx.link[0], io, env).d.sent);
  }

  /** Taking a message sends no data. */
  lemma TakeSilent(x: Chan, m: Msg, io: Io, env: Env)
    requires EndInv(x.ends) && Receive(x, m, io, env).Taking?
    ensures var q := Receive(x, m, io, env).d.sent; Stream(q, false) == [] && Stream(q, true) == []
  {
    hide CheckClose, Absorb, Stream, Held, EndInv, Adjusts, Phases;
    NoMessages(0);
    if m.Eof? || m.Close? {
      var e := x.ends.(shut := x.ends.shut.(recvEof := true, recvClose := x.ends.shut.recvClose || m.Close?));
      HeardEnd(x.ends, m.Close?);
      CheckEffect(e, Held(x), env);
    } else if (m.Data? || m.ExtData?) && Receive(x, m, io, env) != Ignored(x) {
      var n := AbsorbEffect(x, m.ExtData?, m.bytes, io);
    }
  }

  lemma HeardEnd(e: Ends, close: bool)
    requires EndInv(e)
    ensures EndInv(e.(shut := e.shut.(recvEof := true, recvClose := e.shut.recvClose || close)))
  {
  }

  lemma CheckKeeps(x: Chan, y: Chan, xy: Flow, yx: Flow, ev: Event)
    requires EndInv(x.ends) && FlowInv(x, y, xy, yx) && FlowInv(y, x, yx, xy) && ev.Check? && Enabled(x, yx, ev)
    ensures var t := Act(x, xy, yx, ev); EndInv(t.x.ends) && FlowInv(t.x, y, t.out, t.inn) && FlowInv(y, t.x, t.inn, t.out)
  {
    hide FlowInv, CheckClose, Put, Adjusts, Stream, Phases, EndInv, Held;
    CheckEffect(x.ends, Held(x), ev.env);
    var s := CheckClose(x.ends, Held(x), ev.env);
    var x' := x.(ends := s.e);
    OutKeeps(x, x', y, xy, yx, yx, s.sent);
    InCloses(x, x', y, xy, yx, s.sent);
  }

  lemma WriteOutKeeps(x: Chan, y: Chan, xy: Flow, yx: Flow, ev: Event)
    requires EndInv(x.ends) && FlowInv(x, y, xy, yx) && FlowInv(y, x, yx, xy) && ev.WriteOut? && Enabled(x, yx, ev)
    ensures var t := Act(x, xy, yx, ev); EndInv(t.x.ends) && FlowInv(t.x, y, t.out, t.inn) && FlowInv(y, t.x, t.inn, t.out)
  {
    hide WriteChannel, Put, Adjusts, Stream, Phases, EndInv, Taken, FlowInv;
    WriteEffect(x, ev.err, [], ev.io);
    var d, n := WriteChannel(x, ev.err, [], ev.io), Taken(x, ev.err, [], ev.io);
    OutKeeps(x, d.c, y, xy, yx, Give(yx, ev.err, d.bytes), d.sent);
    InWritten(x, y, xy, yx, ev.err, d, n);
  }

  lemma InWritten(x: Chan, y: Chan, xy: Flow, yx: Flow, err: bool, d: Delivery, n: nat)
    requires FlowInv(y, x, yx, xy) && Delivers(x, err, [], d, n) && Fd(x.ends.fds, err) >= 0
    ensures FlowInv(y, d.c, Give(yx, err, d.bytes), Put(xy, d.sent))
  {
    hide Put, Adjusts, Stream, Phases, WindowInv, StreamInv, StoreInv;
    var yx' := Give(yx, err, d.bytes);
    InWindow(x, d.c, y, xy, yx, yx', d.sent);
    StoreWritten(x, yx, err, d, n);
    StreamWritten(x, yx, err, d, n);
    StreamAside(x, yx, yx', err, d);
  }

  lemma StoreWritten(x: Chan, yx: Flow, err: bool, d: Delivery, n: nat)
    requires StoreInv(x, yx) && Delivers(x, err, [], d, n)
    ensures StoreInv(d.c, Give(yx, err, d.bytes)) && (!(x.cfg.session && x.ends.fds.extra) ==> x.extrabuf == [])
  {
    hide Adjusts, Stream, Phases;
  }

  /** The stream that was written to. */
  lemma StreamWritten(x: Chan, yx: Flow, err: bool, d: Delivery, n: nat)
    requires StreamInv(x, yx, err) && Delivers(x, err, [], d, n) && Fd(x.ends.fds, err) >= 0
    requires !(x.cfg.session && x.ends.fds.extra) ==> x.extrabuf == []
    ensures StreamInv(d.c, Give(yx, err, d.bytes), err)
  {
    hide Stream, Adjusts, Phases, Conserves;
    assert Buf(x, err) + [] == Buf(x, err);
    ConservesWrite(SentBy(yx, err), GotBy(yx, err), Buf(x, err), Stream(yx.link, err), Drop(yx, err), Lost(yx, err), Keeps(x, err), Keeps(d.c, err), n);
  }

  /** The other stream. */
  lemma StreamAside(x: Chan, yx: Flow, yx': Flow, err: bool, d: Delivery)
    requires StreamInv(x, yx, !err) && d.c.cfg == x.cfg && OnlyCloses(x.ends.fds, d.c.ends.fds) && Buf(d.c, !err) == Buf(x, !err)
    requires SentBy(yx', !err) == SentBy(yx, !err) && GotBy(yx', !err) == GotBy(yx, !err)
    requires Drop(yx', !err) == Drop(yx, !err) && Lost(yx', !err) == Lost(yx, !err) && Stream(yx'.link, !err) == Stream(yx.link, !err)
    ensures StreamInv(d.c, yx', !err)
  {
  }

  // ----- taking a message -----

  /** Within the invariant no message ends the session: none is oversized, late, or for a channel that is gone. */
  lemma NoExit(x: Chan, y: Chan, xy: Flow, yx: Flow, io: Io, env: Env)
    requires EndInv(x.ends) && FlowInv(y, x, yx, xy) && |yx.link| > 0
    ensures Receive(x, yx.link[0], io, env).Taking?
  {
    hide Stream, Adjusts, Phases, StreamInv, CheckClose, WriteChannel;
    HeadOf(yx.link, RecvPhase(x.ends.shut));
    HeadPhase(x, y, yx);
  }

  lemma HeadOf(q: seq<Msg>, phase: int)
    requires |q| > 0
    ensures forall e :: Stream(q, e) == Payload(q[0], e) + Stream(q[1..], e)
    ensures Adjusts(q) == (if q[0].Adjust? then q[0].n else 0) + Adjusts(q[1..])
    ensures Phases(q, phase) == Phases(q[1..], Advance(phase, q[0]))
  {
  }

  /** A stream the head of the link does not belong to. */
  lemma StreamSame(x: Chan, x': Chan, yx: Flow, yx': Flow, err: bool)
    requires StreamInv(x, yx, err) && x'.cfg == x.cfg && OnlyCloses(x.ends.fds, x'.ends.fds) && Buf(x', err) == Buf(x, err)
    requires SentBy(yx', err) == SentBy(yx, err) && GotBy(yx', err) == GotBy(yx, err)
    requires Drop(yx', err) == Drop(yx, err) && Lost(yx', err) == Lost(yx, err) && Stream(yx'.link, err) == Stream(yx.link, err)
    ensures StreamInv(x', yx', err)
  {
  }

  /** A head without bytes: the incoming direction, whatever x then sends. */
  lemma InTaken(x: Chan, x': Chan, y: Chan, xy: Flow, yx: Flow, sent: seq<Msg>)
    requires FlowInv(y, x, yx, xy) && |yx.link| > 0 && !yx.link[0].Data? && !yx.link[0].ExtData? && Adjusts(sent) == 0
    requires x' == x.(transwindow := x'.transwindow, ends := x'.ends) && OnlyCloses(x.ends.fds, x'.ends.fds)
    requires RecvPhase(x'.ends.shut) == Advance(RecvPhase(x.ends.shut), yx.link[0])
    ensures FlowInv(y, x', yx.(link := yx.link[1..]), Put(xy, sent))
  {
    hide Stream, Adjusts, Phases, Conserves;
    var yx' := yx.(link := yx.link[1..]);
    HeadOf(yx.link, RecvPhase(x.ends.shut));
    InWindow(x, x', y, xy, yx, yx', sent);
    StreamSame(x, x', yx, yx', false);
    StreamSame(x, x', yx, yx', true);
  }

  /** Taking such a head changes nothing but the link. */
  lemma TookHead(f: Flow, x: Chan, m: Msg, d: Delivery)
    requires |f.link| > 0 && !m.Data? && !m.ExtData? && d.bytes == []
    ensures Took(f, x, m, d) == f.(link := f.link[1..])
  {
    assert f.gotOut + [] == f.gotOut;
  }

  /** The phase of a link that is in order. */
  lemma HeadPhase(x: Chan, y: Chan, yx: Flow)
    requires PhaseInv(y, x, yx) && |yx.link| > 0
    ensures Advance(RecvPhase(x.ends.shut), yx.link[0]) <= 2
  {
    HeadOf(yx.link, RecvPhase(x.ends.shut));
    PhasesGrow(yx.link[1..], Advance(RecvPhase(x.ends.shut), yx.link[0]));
  }

  lemma TakeAdjust(x: Chan, y: Chan, xy: Flow, yx: Flow, io: Io, env: Env)
    requires EndInv(x.ends) && FlowInv(x, y, xy, yx) && FlowInv(y, x, yx, xy) && !x.ends.shut.removed
    requires |yx.link| > 0 && yx.link[0].Adjust?
    ensures var t := Act(x, xy, yx, Take(io, env)); EndInv(t.x.ends) && FlowInv(t.x, y, t.out, t.inn) && FlowInv(y, t.x, t.inn, t.out)
  {
    hide Stream, Adjusts, Phases, EndInv, Conserves, StreamInv, Took;
    HeadOf(yx.link, RecvPhase(x.ends.shut));
    HeadPhase(x, y, yx);
    NoMessages(SentPhase(x.ends.shut));
    var d := Receive(x, yx.link[0], io, env).d;
    TookHead(yx, x, yx.link[0], d);
    OutKeeps(x, d.c, y, xy, yx, yx.(link := yx.link[1..]), []);
    InTaken(x, d.c, y, xy, yx, []);
  }

  /** EOF and CLOSE: the phase moves with the link. */
  lemma TakeEnd(x: Chan, y: Chan, xy: Flow, yx: Flow, io: Io, env: Env)
    requires EndInv(x.ends) && FlowInv(x, y, xy, yx) && FlowInv(y, x, yx, xy) && !x.ends.shut.removed
    requires |yx.link| > 0 && (yx.link[0].Eof? || yx.link[0].Close?)
    ensures var t := Act(x, xy, yx, Take(io, env)); EndInv(t.x.ends) && FlowInv(t.x, y, t.out, t.inn) && FlowInv(y, t.x, t.inn, t.out)
  {
    hide Stream, Adjusts, Phases, WindowInv, StoreInv, StreamInv, CheckClose, Held, Took, Put;
    var m := yx.link[0];
    HeadOf(yx.link, RecvPhase(x.ends.shut));
    HeadPhase(x, y, yx);
    var e := x.ends.(shut := x.ends.shut.(recvEof := true, recvClose := x.ends.shut.recvClose || m.Close?));
    CheckEffect(e, Held(x), env);
    var s := CheckClose(e, Held(x), env);
    var x' := x.(ends := s.e);
    var d := Delivery(x', [], true, s.sent);
    assert Receive(x, m, io, env) == Taking(d);
    TookHead(yx, x, m, d);
    OutKeeps(x, x', y, xy, yx, yx.(link := yx.link[1..]), s.sent);
    InTaken(x, x', y, xy, yx, s.sent);
  }

  /** Data for a stream that is no longer kept. */
  lemma TakeIgnored(x: Chan, y: Chan, xy: Flow, yx: Flow, io: Io, env: Env)
    requires EndInv(x.ends) && FlowInv(x, y, xy, yx) && FlowInv(y, x, yx, xy) && !x.ends.shut.removed
    requires |yx.link| > 0 && (yx.link[0].Data? || yx.link[0].ExtData?) && !Keeps(x, yx.link[0].ExtData?)
    requires Receive(x, yx.link[0], io, env).Taking?
    ensures var t := Act(x, xy, yx, Take(io, env)); EndInv(t.x.ends) && FlowInv(t.x, y, t.out, t.inn) && FlowInv(y, t.x, t.inn, t.out)
  {
    hide Stream, Adjusts, Phases, EndInv, Conserves;
    var m, err := yx.link[0], yx.link[0].ExtData?;
    HeadOf(yx.link, RecvPhase(x.ends.shut));
    PhasesGrow(yx.link[1..], Advance(RecvPhase(x.ends.shut), m));
    NoMessages(SentPhase(x.ends.shut));
    var d := Delivery(x, [], true, []);
    assert Receive(x, m, io, env) == Taking(d);
    var yx' := Took(yx, x, m, d);
    assert Stream(yx.link, !err) == [] + Stream(yx'.link, !err) == Stream(yx'.link, !err);
    ConservesMiss(SentBy(yx, err), GotBy(yx, err), Buf(x, err), m.bytes, Stream(yx'.link, err), Drop(yx, err), Lost(yx, err), false);
    OutKeeps(x, x, y, xy, yx, yx', []);
    InWindow(x, x, y, xy, yx, yx', []);
    StreamSame(x, x, yx, yx', !err);
  }

  /** The channel after the payload b of stream err was taken with n bytes written. */
  ghost predicate Absorbs(x: Chan, err: bool, b: seq<u8>, d: Delivery, n: nat)
  {
    && n <= |Buf(x, err)| + |b| && d.bytes == (Buf(x, err) + b)[..n]
    && Buf(d.c, !err) == Buf(x, !err)
    && Buf(d.c, err) == (if d.ok then Buf(x, err)[Min(n, |Buf(x, err)|)..] + b[Max(0, n - |Buf(x, err)|)..] else Buf(x, err))
    && d.c.recvwindow + |b| == x.recvwindow + Adjusts(d.sent) && d.c.recvdonelen + Adjusts(d.sent) == x.recvdonelen + n
    && d.c.recvdonelen < Max(1, Threshold(x))
    && Stream(d.sent, false) == [] && Stream(d.sent, true) == [] && Phases(d.sent, SentPhase(x.ends.shut)) == SentPhase(x.ends.shut)
    && d.c.transwindow == x.transwindow && d.c.cfg == x.cfg && d.c.ends.shut == x.ends.shut && OnlyCloses(x.ends.fds, d.c.ends.fds)
    && (if d.ok then d.c.ends == x.ends else n == 0 && Fd(d.c.ends.fds, err) < 0)
  }

  lemma AbsorbEffect(x: Chan, err: bool, b: seq<u8>, io: Io) returns (n: nat)
    requires Fd(x.ends.fds, err) >= 0 && (err ==> x.ends.fds.extra) && EndInv(x.ends) && |b| <= x.recvwindow
    ensures Absorbs(x, err, b, Absorb(x, err, b, io), n) && EndInv(Absorb(x, err, b, io).c.ends)
  {
    hide WriteChannel, Taken, EndInv, Stream, Phases, Adjusts;
    var c := x.(recvwindow := x.recvwindow - |b|);
    WriteEffect(c, err, b, io);
    n := Taken(c, err, b, io);
  }

  lemma TakeData(x: Chan, y: Chan, xy: Flow, yx: Flow, io: Io, env: Env)
    requires EndInv(x.ends) && FlowInv(x, y, xy, yx) && FlowInv(y, x, yx, xy) && !x.ends.shut.removed
    requires |yx.link| > 0 && (yx.link[0].Data? || yx.link[0].ExtData?) && Keeps(x, yx.link[0].ExtData?)
    requires Receive(x, yx.link[0], io, env).Taking?
    ensures var t := Act(x, xy, yx, Take(io, env)); EndInv(t.x.ends) && FlowInv(t.x, y, t.out, t.inn) && FlowInv(y, t.x, t.inn, t.out)
  {
    hide Stream, Adjusts, Phases, EndInv, FlowInv, Put, Absorb, Took;
    var m, err := yx.link[0], yx.link[0].ExtData?;
    var n := AbsorbEffect(x, err, m.bytes, io);
    var d := Absorb(x, err, m.bytes, io);
    assert Receive(x, m, io, env) == Taking(d);
    HeadOf(yx.link, RecvPhase(x.ends.shut));
    TookAdjusts(yx, x, d);
    OutKeeps(x, d.c, y, xy, yx, Took(yx, x, m, d), d.sent);
    InAbsorbed(x, y, xy, yx, d, n);
  }

  lemma TookAdjusts(f: Flow, x: Chan, d: Delivery)
    requires |f.link| > 0
    ensures Took(f, x, f.link[0], d).link == f.link[1..]
  {
  }

  lemma InAbsorbed(x: Chan, y: Chan, xy: Flow, yx: Flow, d: Delivery, n: nat)
    requires FlowInv(y, x, yx, xy) && |yx.link| > 0 && (yx.link[0].Data? || yx.link[0].ExtData?) && Keeps(x, yx.link[0].ExtData?)
    requires Absorbs(x, yx.link[0].ExtData?, yx.link[0].bytes, d, n)
    ensures FlowInv(y, d.c, Took(yx, x, yx.link[0], d), Put(xy, d.sent))
  {
    hide Put, Adjusts, Stream, Phases, StreamInv, WindowInv, StoreInv;
    var m, err := yx.link[0], yx.link[0].ExtData?;
    var yx' := Took(yx, x, m, d);
    HeadOf(yx.link, RecvPhase(x.ends.shut));
    HeadPhase(x, y, yx);
    assert Stream(yx.link, !err) == [] + Stream(yx'.link, !err) == Stream(yx'.link, !err);
    InWindow(x, d.c, y, xy, yx, yx', d.sent);
    StoreAbsorbed(x, yx, d, n);
    StreamSame(x, d.c, yx, yx', !err);
    StreamAbsorbed(x, yx, d, n);
  }

  lemma StreamAbsorbed(x: Chan, yx: Flow, d: Delivery, n: nat)
    requires |yx.link| > 0 && (yx.link[0].Data? || yx.link[0].ExtData?) && Keeps(x, yx.link[0].ExtData?)
    requires StreamInv(x, yx, yx.link[0].ExtData?) && Absorbs(x, yx.link[0].ExtData?, yx.link[0].bytes, d, n)
    ensures StreamInv(d.c, Took(yx, x, yx.link[0], d), yx.link[0].ExtData?)
  {
    hide Adjusts, Stream, Phases, Conserves;
    var m, err := yx.link[0], yx.link[0].ExtData?;
    var rest := Stream(yx.link[1..], err);
    HeadOf(yx.link, 0);
    KeepsNothingLost(x, yx, err);
    if d.ok {
      ConservesAbsorb(SentBy(yx, err), GotBy(yx, err), Buf(x, err), m.bytes, rest, n);
    } else {
      ConservesMiss(SentBy(yx, err), GotBy(yx, err), Buf(x, err), m.bytes, rest, Drop(yx, err), Lost(yx, err), true);
    }
  }

  lemma KeepsNothingLost(x: Chan, yx: Flow, err: bool)
    requires StreamInv(x, yx, err) && Keeps(x, err)
    ensures Drop(yx, err) == 0 && Lost(yx, err) == 0
  {
  }

  lemma StoreAbsorbed(x: Chan, yx: Flow, d: Delivery, n: nat)
    requires StoreInv(x, yx) && |yx.link| > 0 && (yx.link[0].Data? || yx.link[0].ExtData?) && Keeps(x, yx.link[0].ExtData?)
    requires Absorbs(x, yx.link[0].ExtData?, yx.link[0].bytes, d, n)
    ensures StoreInv(d.c, Took(yx, x, yx.link[0], d))
  {
    hide Stream, Adjusts, Phases;
  }

  /** Every event keeps every invariant, in both directions. */
  lemma ActKeeps(x: Chan, y: Chan, xy: Flow, yx: Flow, ev: Event)
    requires EndInv(x.ends) && FlowInv(x, y, xy, yx) && FlowInv(y, x, yx, xy) && Enabled(x, yx, ev)
    ensures var t := Act(x, xy, yx, ev); EndInv(t.x.ends) && FlowInv(t.x, y, t.out, t.inn) && FlowInv(y, t.x, t.inn, t.out)
  {
    hide EndInv, FlowInv, Act, Receive, Keeps;
    match ev
    case Read(_, _, _) => ReadKeeps(x, y, xy, yx, ev);
    case WriteOut(_, _) => WriteOutKeeps(x, y, xy, yx, ev);
    case Check(_) => CheckKeeps(x, y, xy, yx, ev);
    case Take(io, env) =>
      var m := yx.link[0];
      TakenNotRemoved(x, m, io, env);
      if m.Adjust? {
        TakeAdjust(x, y, xy, yx, io, env);
      } else if m.Eof? || m.Close? {
        TakeEnd(x, y, xy, yx, io, env);
      } else if Keeps(x, m.ExtData?) {
        TakeData(x, y, xy, yx, io, env);
      } else {
        TakeIgnored(x, y, xy, yx, io, env);
      }
  }

  lemma TakenNotRemoved(x: Chan, m: Msg, io: Io, env: Env)
    requires Receive(x, m, io, env).Taking?
    ensures !x.ends.shut.removed
  {
  }

  // ----- runs -----

  /** Two endpoints and the links between them. */
  datatype Net = Net(a: Chan, b: Chan, ab: Flow, ba: Flow)

  const IDLE := Flow([], [], [], [], [], [], [], [], 0, 0, 0, 0)

  /** A channel whose descriptors are set: windows as announced, nothing sent, nothing held. */
  ghost predicate Fresh(x: Chan, y: Chan)
  {
    && x.transwindow == y.cfg.window == y.recvwindow && 0 < y.cfg.window < 0x1_0000_0000
    && y.recvdonelen == 0 && y.writebuf == [] && y.extrabuf == []
    && x.ends.shut == Shut(false, false, false, false, false) && (x.ends.fds.bidir ==> x.ends.fds.errfd == FD_CLOSED)
  }

  ghost predicate Initial(s: Net)
  {
    Fresh(s.a, s.b) && Fresh(s.b, s.a) && s.ab == IDLE && s.ba == IDLE
  }

  /** An event at one of the endpoints. */
  datatype Move = AtA(ev: Event) | AtB(ev: Event)

  ghost predicate Possible(s: Net, m: Move)
  {
    match m
    case AtA(ev) => Enabled(s.a, s.ba, ev)
    case AtB(ev) => Enabled(s.b, s.ab, ev)
  }

  ghost function After(s: Net, m: Move): Net
    requires Possible(s, m)
  {
    match m
    case AtA(ev) => var t := Act(s.a, s.ab, s.ba, ev); Net(t.x, s.b, t.out, t.inn)
    case AtB(ev) => var t := Act(s.b, s.ba, s.ab, ev); Net(s.a, t.x, t.inn, t.out)
  }

  /** s is reached from s0 by the moves. */
  ghost predicate Reaches(s0: Net, moves: seq<Move>, s: Net)
    decreases |moves|
  {
    if |moves| == 0 then s == s0
    else Possible(s0, moves[0]) && Reaches(After(s0, moves[0]), moves[1..], s)
  }

  ghost predicate Inv(s: Net)
  {
    && EndInv(s.a.ends) && EndInv(s.b.ends) && FlowInv(s.a, s.b, s.ab, s.ba) && FlowInv(s.b, s.a, s.ba, s.ab)
    && ReadInv(s.ab) && ReadInv(s.ba)
  }

  lemma InitialInv(s: Net)
    requires Initial(s)
    ensures Inv(s)
  {
  }

  lemma MoveKeeps(s: Net, m: Move)
    requires Inv(s) && Possible(s, m)
    ensures Inv(After(s, m))
  {
    hide EndInv, FlowInv, Act, Enabled, ReadInv;
    match m
    case AtA(ev) =>
      ActKeeps(s.a, s.b, s.ab, s.ba, ev);
      ReadsKept(s.a, s.ab, s.ba, ev);
    case AtB(ev) =>
      ActKeeps(s.b, s.a, s.ba, s.ab, ev);
      ReadsKept(s.b, s.ba, s.ab, ev);
  }

  /** Every state of every run satisfies the invariants. */
  lemma {:induction false} Safety(s0: Net, moves: seq<Move>, s: Net)
    requires Inv(s0) && Reaches(s0, moves, s)
    ensures Inv(s)
    decreases |moves|
  {
    hide Inv, Possible, After;
    if |moves| > 0 {
      MoveKeeps(s0, moves[0]);
      Safety(After(s0, moves[0]), moves[1..], s);
    }
  }

  // ----- what the invariants mean -----

  /** What may come after m: no data and no second EOF after EOF, and nothing at all after CLOSE. */
  ghost predicate MayFollow(m: Msg, n: Msg)
  {
    !m.Close? && (m.Eof? ==> !n.Data? && !n.ExtData? && !n.Eof?)
  }

  lemma {:induction false} InOrder(q: seq<Msg>, phase: int, i: nat, j: nat)
    requires 0 <= phase <= 2 && Phases(q, phase) <= 2 && i < j < |q|
    ensures MayFollow(q[i], q[j])
  {
    var next := Advance(phase, q[0]);
    PhasesGrow(q[1..], next);
    if i > 0 {
      InOrder(q[1..], next, i - 1, j - 1);
      assert q[1..][i - 1] == q[i] && q[1..][j - 1] == q[j];
    } else if q[0].Eof? {
      AfterEnd(q[1..], next, j - 1);
      assert q[1..][j - 1] == q[j];
    }
  }

  lemma {:induction false} AfterEnd(q: seq<Msg>, phase: int, j: nat)
    requires 1 <= phase <= 2 && Phases(q, phase) <= 2 && j < |q|
    ensures !q[j].Data? && !q[j].ExtData? && !q[j].Eof?
  {
    PhasesGrow(q[1..], Advance(phase, q[0]));
    if j > 0 {
      AfterEnd(q[1..], Advance(phase, q[0]), j - 1);
      assert q[1..][j - 1] == q[j];
    }
  }

  /** The sender, the receiver and the flow of a direction: from a to b, or back. */
  ghost function Sender(s: Net, toB: bool): Chan { if toB then s.a else s.b }

  ghost function Receiver(s: Net, toB: bool): Chan { if toB then s.b else s.a }

  ghost function FlowOf(s: Net, toB: bool): Flow { if toB then s.ab else s.ba }

  lemma DirectionInv(s0: Net, moves: seq<Move>, s: Net, toB: bool)
    requires Initial(s0) && Reaches(s0, moves, s)
    ensures EndInv(Sender(s, toB).ends) && EndInv(Receiver(s, toB).ends)
    ensures FlowInv(Sender(s, toB), Receiver(s, toB), FlowOf(s, toB), FlowOf(s, !toB)) && ReadInv(FlowOf(s, toB))
  {
    hide EndInv, FlowInv, ReadInv;
    InitialInv(s0);
    Safety(s0, moves, s);
  }

  /** The closing handshake in every run: what each side sent is in order, and nothing is on its way to a channel that is gone. */
  lemma CloseOrder(s0: Net, moves: seq<Move>, s: Net, toB: bool)
    requires Initial(s0) && Reaches(s0, moves, s)
    ensures var q := FlowOf(s, toB).log; forall i, j :: 0 <= i < j < |q| ==> MayFollow(q[i], q[j])
    ensures Receiver(s, toB).ends.shut.removed ==>
      FlowOf(s, toB).link == [] && Sender(s, toB).ends.shut.sentClose && Receiver(s, toB).ends.shut.sentClose
  {
    hide WindowInv, StoreInv, StreamInv, Initial, Reaches;
    DirectionInv(s0, moves, s, toB);
    var q := FlowOf(s, toB).log;
    forall i, j | 0 <= i < j < |q|
      ensures MayFollow(q[i], q[j])
    {
      InOrder(q, 0, i, j);
    }
    if Receiver(s, toB).ends.shut.removed {
      PhasesGrow(FlowOf(s, toB).link, 2);
    }
  }

  /** The windows in every run, and with them every assertion and size check of the receiving side. */
  lemma WindowSafety(s0: Net, moves: seq<Move>, s: Net, toB: bool, io: Io, env: Env)
    requires Initial(s0) && Reaches(s0, moves, s)
    ensures Sender(s, toB).transwindow + InFlight(FlowOf(s, toB).link) + Adjusts(FlowOf(s, !toB).link) <= Receiver(s, toB).recvwindow
    ensures var y := Receiver(s, toB); y.recvwindow + |y.writebuf| + |y.extrabuf| + y.recvdonelen <= y.cfg.window
    ensures |FlowOf(s, toB).link| > 0 ==> Receive(Receiver(s, toB), FlowOf(s, toB).link[0], io, env).Taking?
  {
    hide EndInv, Receive, StreamInv, PhaseInv, Adjusts, InFlight;
    DirectionInv(s0, moves, s, toB);
    if |FlowOf(s, toB).link| > 0 {
      NoExit(Receiver(s, toB), Sender(s, toB), FlowOf(s, !toB), FlowOf(s, toB), io, env);
    }
  }

  /**
   From descriptor to descriptor: what reaches writefd and the stderr descriptor
   is, in order, what the other side read from readfd and from errfd; while the
   descriptor is open none of it is missing.
   */
  lemma StreamSafety(s0: Net, moves: seq<Move>, s: Net, toB: bool)
    requires Initial(s0) && Reaches(s0, moves, s)
    ensures var f := FlowOf(s, toB); f.gotOut <= f.readOut && f.gotErr <= f.readErr && f.sentOut == f.readOut && f.sentErr == f.readErr
    ensures var f, y := FlowOf(s, toB), Receiver(s, toB); y.ends.fds.writefd >= 0 ==>
      f.readOut == f.gotOut + y.writebuf + Stream(f.link, false)
    ensures var f, y := FlowOf(s, toB), Receiver(s, toB); y.ends.fds.errfd >= 0 && y.cfg.session && y.ends.fds.extra ==>
      f.readErr == f.gotErr + y.extrabuf + Stream(f.link, true)
  {
    hide EndInv, WindowInv, StoreInv, PhaseInv, Stream;
    DirectionInv(s0, moves, s, toB);
    assert StreamInv(Receiver(s, toB), FlowOf(s, toB), false) && StreamInv(Receiver(s, toB), FlowOf(s, toB), true);
  }

  /** Once everything sent was passed on and every adjustment taken, the sender has two thirds of the window again. */
  lemma WindowReopens(s0: Net, moves: seq<Move>, s: Net, toB: bool)
    requires Initial(s0) && Reaches(s0, moves, s)
    requires var y := Receiver(s, toB); var f := FlowOf(s, toB);
      && Keeps(y, false) && (Keeps(y, true) || f.sentErr == [])
      && y.writebuf == [] && y.extrabuf == [] && InFlight(f.link) == 0 && Adjusts(FlowOf(s, !toB).link) == 0
    ensures Sender(s, toB).transwindow > 0 && 3 * Sender(s, toB).transwindow >= 2 * Receiver(s, toB).cfg.window
  {
    hide EndInv, PhaseInv, Stream, Adjusts;
    DirectionInv(s0, moves, s, toB);
    assert StreamInv(Receiver(s, toB), FlowOf(s, toB), false) && StreamInv(Receiver(s, toB), FlowOf(s, toB), true);
  }
}
