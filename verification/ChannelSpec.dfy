/**
 What a channel does with each message and each I/O event, as functions on
 its state.  Results of system calls are parameters.
 */
module ChannelSpec {
  import opened Arith
  import opened Bytes

  const FD_UNINIT := -2
  const FD_CLOSED := -1

  /** The channel messages of section 5 of RFC 4254 that concern data and closing. */
  datatype Msg = Data(bytes: seq<u8>) | ExtData(bytes: seq<u8>) | Adjust(n: nat) | Eof | Close

  /** The outcome of write or writev. */
  datatype Io = Wrote(n: nat) | Again | Failed

  /** The outcome of read. */
  datatype In = Got(bytes: seq<u8>) | Ended | Interrupted

  datatype How = ShutRd | ShutWr | ShutRdWr

  /** The descriptors; with extra, stderr is written here and not read. */
  datatype Fds = Fds(writefd: int, readfd: int, errfd: int, bidir: bool, extra: bool)

  /** Which of EOF and CLOSE have been exchanged, and whether the channel is gone. */
  datatype Shut = Shut(sentEof: bool, sentClose: bool, recvEof: bool, recvClose: bool, removed: bool)

  datatype Ends = Ends(fds: Fds, shut: Shut)

  /** window is opts.recv_window; session is the type whose stderr is kept. */
  datatype Config = Config(window: nat, maxpacket: nat, session: bool)

  /** struct Channel. */
  datatype Chan = Chan(cfg: Config, ends: Ends, recvwindow: nat, transwindow: nat, recvdonelen: nat,
                       writebuf: seq<u8>, extrabuf: seq<u8>)

  // ----- file descriptors -----

  /** close_chan_fd. */
  function CloseFd(f: Fds, fd: int, how: How): (g: Fds)
  {
    var closeout := !f.bidir || how == ShutRd;
    var closein := !f.bidir || how != ShutRd;
    f.(readfd := if closeout && fd == f.readfd then FD_CLOSED else f.readfd,
       errfd := if fd == f.errfd && (if f.extra then closein else closeout) then FD_CLOSED else f.errfd,
       writefd := if closein && fd == f.writefd then FD_CLOSED else f.writefd)
  }

  // ----- writing to the local side -----

  function Buf(c: Chan, err: bool): seq<u8>
  {
    if err then c.extrabuf else c.writebuf
  }

  function SetBuf(c: Chan, err: bool, b: seq<u8>): Chan
  {
    if err then c.(extrabuf := b) else c.(writebuf := b)
  }

  function Fd(f: Fds, err: bool): int
  {
    if err then f.errfd else f.writefd
  }

  /** What a write leaves: the state, the bytes given to the descriptor, the messages sent. */
  datatype Delivery = Delivery(c: Chan, bytes: seq<u8>, ok: bool, sent: seq<Msg>)

  /** The bytes a write takes: those of the buffer before those at hand. */
  function Taken(c: Chan, err: bool, more: seq<u8>, io: Io): (n: nat)
    ensures n <= |Buf(c, err)| + |more|
  {
    match io
    case Wrote(n) => Min(n, |Buf(c, err)| + |more|)
    case _ => 0
  }

  /** The write proper: the bytes taken leave buffer and payload in order; a failure closes the descriptor. */
  function Write(c: Chan, err: bool, more: seq<u8>, io: Io): (d: Chan)
  {
    var n := Taken(c, err, more, io);
    var buf := Buf(c, err);
    SetBuf(c, err, buf[Min(n, |buf|)..]).(
      recvdonelen := c.recvdonelen + n,
      ends := if io == Failed then c.ends.(fds := CloseFd(c.ends.fds, Fd(c.ends.fds, err), ShutWr)) else c.ends)
  }

  /** RECV_WINDOWEXTEND. */
  function Threshold(c: Chan): nat
  {
    c.cfg.window / 3
  }

  /** The window adjustment at the end of writechannel. */
  function Extend(c: Chan): (d: Chan)
  {
    if c.recvdonelen >= Threshold(c)
    then c.(recvwindow := c.recvwindow + c.recvdonelen, recvdonelen := 0)
    else c
  }

  function Extension(c: Chan): seq<Msg>
  {
    if c.recvdonelen >= Threshold(c) then [Adjust(c.recvdonelen)] else []
  }

  /** writechannel on the buffer and on the payload at hand. */
  function WriteChannel(c: Chan, err: bool, more: seq<u8>, io: Io): (d: Delivery)
  {
    var w := Write(c, err, more, io);
    Delivery(Extend(w), (Buf(c, err) + more)[..Taken(c, err, more, io)], io != Failed, Extension(w))
  }

  // ----- receiving -----

  /** A message is taken, or the session ends. */
  datatype Taking = Taking(d: Delivery) | Exit

  function Ignored(c: Chan): Taking
  {
    Taking(Delivery(c, [], true, []))
  }

  /** common_recv_msg_channel_data. */
  function ReceiveData(c: Chan, err: bool, bytes: seq<u8>, io: Io): (r: Taking)
  {
    if c.ends.shut.recvEof then Exit
    else if Fd(c.ends.fds, err) < 0 || (err && !c.ends.fds.extra) then Ignored(c)
    else if |bytes| > c.cfg.window - |Buf(c, err)| || |bytes| > c.recvwindow then Exit
    else Taking(Absorb(c, err, bytes, io))
  }

  /** The accepted payload: written at once as far as it goes, the rest kept. */
  function Absorb(c: Chan, err: bool, bytes: seq<u8>, io: Io): (d: Delivery)
    requires |bytes| <= c.recvwindow
  {
    var d := WriteChannel(c.(recvwindow := c.recvwindow - |bytes|), err, bytes, io);
    var consumed := Max(0, |d.bytes| - |Buf(c, err)|);
    if d.ok then d.(c := SetBuf(d.c, err, Buf(d.c, err) + bytes[consumed..])) else d
  }

  /** The handlers for messages that arrive for this channel. */
  function Receive(c: Chan, m: Msg, io: Io, env: Env): (r: Taking)
  {
    if c.ends.shut.removed then Exit
    else
      match m
      case Data(b) => ReceiveData(c, false, b, io)
      case ExtData(b) => if c.cfg.session then ReceiveData(c, true, b, io) else Ignored(c)
      case Adjust(n) => Ignored(c.(transwindow := Min(c.transwindow + n, 0xFFFF_FFFF)))
      case Eof => Taking(Heard(c, c.ends.(shut := c.ends.shut.(recvEof := true)), env))
      case Close => Taking(Heard(c, c.ends.(shut := c.ends.shut.(recvEof := true, recvClose := true)), env))
  }

  function Heard(c: Chan, e: Ends, env: Env): Delivery
  {
    var s := CheckClose(e, Held(c), env);
    Delivery(c.(ends := s.e), [], true, s.sent)
  }

  // ----- sending -----

  datatype Sending = Sending(c: Chan, sent: seq<Msg>)

  /** The most a data packet may carry; room is what the payload buffer leaves. */
  function MaxLen(c: Chan, room: nat): nat
  {
    Min(Min(c.transwindow, c.cfg.maxpacket), room)
  }

  function SourceFd(f: Fds, ext: bool): int
  {
    if ext then f.errfd else f.readfd
  }

  /** send_msg_channel_data. */
  function SendData(c: Chan, ext: bool, room: nat, io: In): (s: Sending)
  {
    if MaxLen(c, room) == 0 then Sending(c, [])
    else
      match io
      case Interrupted => Sending(c, [])
      case Ended => Sending(c.(ends := c.ends.(fds := CloseFd(c.ends.fds, SourceFd(c.ends.fds, ext), ShutRd))), [])
      case Got(b) =>
        if |b| == 0 then Sending(c, [])
        else
          var b' := b[..Min(|b|, MaxLen(c, room))];
          Sending(c.(transwindow := c.transwindow - |b'|), [if ext then ExtData(b') else Data(b')])
  }

  // ----- closing -----

  /** Descriptors and handshake after a closing operation, and the messages it sent. */
  datatype Closing = Closing(e: Ends, sent: seq<Msg>)

  /** send_msg_channel_close. */
  function SendClose(e: Ends): (s: Closing)
  {
    var f1 := CloseFd(e.fds, e.fds.readfd, ShutRd);
    var f2 := CloseFd(f1, f1.errfd, ShutRdWr);
    Closing(Ends(CloseFd(f2, f2.writefd, ShutWr), e.shut.(sentEof := true, sentClose := true)), [Close])
  }

  /** send_msg_channel_eof. */
  function SendEof(e: Ends): (s: Closing)
  {
    Closing(e.(shut := e.shut.(sentEof := true)), [Eof])
  }

  /** The type's own check_close, if any, whether the channel is flushing, and what fd_read_pending says. */
  datatype Env = Env(hook: bool, hookSays: bool, flushing: bool, readPending: bool, errPending: bool)

  /** Whether the buffers hold anything. */
  datatype Holding = Holding(out: bool, err: bool)

  function Held(c: Chan): Holding
  {
    Holding(|c.writebuf| > 0, |c.extrabuf| > 0)
  }

  predicate WritePending(f: Fds, h: Holding)
  {
    (f.writefd >= 0 && h.out) || (f.errfd >= 0 && f.extra && h.err)
  }

  predicate CloseAllowed(s: Shut, env: Env)
  {
    !env.hook || s.sentClose || env.hookSays
  }

  function Flush(f: Fds, env: Env): (g: Fds)
  {
    if !env.flushing then f
    else
      var f1 := if f.readfd >= 0 && !env.readPending then CloseFd(f, f.readfd, ShutRd) else f;
      if !f1.extra && f1.errfd >= 0 && !env.errPending then CloseFd(f1, f1.errfd, ShutRd) else f1
  }

  predicate NothingToSend(f: Fds)
  {
    f.readfd == FD_CLOSED && (f.extra || f.errfd == FD_CLOSED)
  }

  /** The CLOSE in answer, if still owed, and remove_channel. */
  function Removed(e: Ends): (s: Closing)
  {
    var s := if e.shut.sentClose then Closing(e, []) else SendClose(e);
    s.(e := s.e.(shut := s.e.shut.(removed := true)))
  }

  /** check_close. */
  function CheckClose(e: Ends, h: Holding, env: Env): (s: Closing)
  {
    var allowed := CloseAllowed(e.shut, env);
    var e0 := e.(fds := Flush(e.fds, env));
    if e0.shut.recvClose && !WritePending(e0.fds, h) && allowed then Removed(e0)
    else
      FinishClose(
        if (e0.shut.recvEof && !WritePending(e0.fds, h)) || (e0.fds.writefd != FD_UNINIT && env.hook && allowed)
        then e0.(fds := CloseFd(e0.fds, e0.fds.writefd, ShutWr)) else e0, h, allowed)
  }

  /** The EOF and the CLOSE at the end of check_close. */
  function FinishClose(e: Ends, h: Holding, allowed: bool): (s: Closing)
  {
    var s2 := if !e.shut.sentEof && NothingToSend(e.fds) then SendEof(e) else Closing(e, []);
    var f := s2.e.fds;
    if NothingToSend(f) && f.writefd == FD_CLOSED && !s2.e.shut.sentClose && allowed && !WritePending(f, h) then
      var s3 := SendClose(s2.e);
      s3.(sent := s2.sent + s3.sent)
    else s2
  }
}
