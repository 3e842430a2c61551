/**
 Key re-exchange between a client and a server over FIFO links: both ends
 take keys into use at the same packet of each direction.
 */
module KexProtocol {
  import opened Arith
  // ----- one end -----

  /**
   The key-exchange part of the session state.  trans and recv are the numbers
   of the exchanges whose keys are in use, 0 for none; next is the number of
   the exchange under way or to come.  require is ses.requirenext, Other for 0.
   */
  datatype Kex = Kex(client: bool, strict: bool,
    sentInit: bool, recvInit: bool, sentDh: bool, sentNew: bool, recvNew: bool,
    newTrans: bool, newRecv: bool, // which halves of ses.newkeys are valid
    trans: nat, recv: nat, next: nat, transseq: nat, recvseq: nat, require: Kind)

  /** An end before its first exchange. */
  function NewEnd(client: bool, strict: bool): Kex
  {
    Kex(client, strict, false, false, false, false, false, false, false, 0, 0, 1, 0, 0, KexInit)
  }

  datatype Kind = KexInit | DhInit | DhReply | NewKeys | Other

  /** A packet with the keys and the sequence number it was protected under. */
  datatype Packet = Packet(kind: Kind, epoch: nat, seqno: nat)

  /** A state and the packets sent on the way, or the end of the session. */
  datatype Result = Done(k: Kex, sent: seq<Packet>) | Exit

  /** The sequence number after n: 32 bits, wrapping. */
  function NextSeq(n: nat): (r: nat)
    ensures n < 0xFFFF_FFFF ==> r == n + 1
    ensures n == 0xFFFF_FFFF ==> r == 0
  {
    (n + 1) % 0x1_0000_0000
  }

  /** encrypt_packet. */
  function Encrypt(k: Kex, kind: Kind): Result
  {
    Done(k.(transseq := NextSeq(k.transseq)), [Packet(kind, k.trans, k.transseq)])
  }

  /** switch_keys. */
  function SwitchKeys(k: Kex): (r: Result)
  {
    if !(k.sentInit && k.recvInit) then Exit
    else
      var k1 := if k.recvNew && k.newRecv then k.(recv := k.next, newRecv := false) else k;
      var k2 := if k1.sentNew && k1.newTrans then k1.(trans := k1.next, newTrans := false) else k1;
      Done(if k2.sentNew && k2.recvNew
           then k2.(sentInit := false, recvInit := false, sentNew := false, recvNew := false, next := k2.next + 1)
           else k2, [])
  }

  /** send_msg_newkeys: the message still goes out under the old keys. */
  function SendNewKeys(k: Kex): (r: Result)
  {
    var e := Encrypt(k, NewKeys);
    var s := SwitchKeys(e.k.(sentNew := true, newTrans := true, newRecv := true, sentDh := false));
    if s.Exit? then Exit else Done(if k.strict then s.k.(transseq := 0) else s.k, e.sent)
  }

  /** recv_msg_newkeys. */
  function RecvNewKeys(k: Kex): (r: Result)
  {
    var s := SwitchKeys(k.(recvNew := true));
    if s.Exit? then Exit else Done(if k.strict then s.k.(recvseq := 0) else s.k, [])
  }

  /** send_msg_kexinit. */
  function SendKexInit(k: Kex): Result
  {
    var e := Encrypt(k, KexInit);
    Done(e.k.(sentInit := true), e.sent)
  }

  /** recv_msg_kexinit; recvseq already counts the message itself. */
  function RecvKexInit(k: Kex): (r: Result)
  {
    if k.recvInit then Exit
    else
      var s := if k.sentInit then Done(k, []) else SendKexInit(k);
      var k1 := s.k.(recvInit := true, require := if k.client then DhReply else DhInit);
      var doneFirst := k.next > 1 || k.sentNew;
      if k.strict && !doneFirst && k.recvseq != 1 then Exit else Done(k1, s.sent)
  }

  /** NEWKEYS and from then on nothing but theirs. */
  function FinishExchange(k: Kex): (r: Result)
  {
    var s := SendNewKeys(k);
    if s.Exit? then Exit else Done(s.k.(require := NewKeys), s.sent)
  }

  /** recv_msg_kexdh_init: the reply and at once our NEWKEYS. */
  function RecvDhInit(k: Kex): (r: Result)
  {
    if !k.recvInit then Exit
    else
      var e := Encrypt(k, DhReply);
      var s := FinishExchange(e.k);
      if s.Exit? then Exit else Done(s.k, e.sent + s.sent)
  }

  /** A packet read under the keys and the number it was protected with, and handled. */
  function Take(k: Kex, p: Packet): (r: Result)
  {
    if p.epoch != k.recv || p.seqno != k.recvseq || (k.require != Other && p.kind != k.require) then Exit
    else
      var k1 := k.(recvseq := NextSeq(k.recvseq), require := Other);
      match p.kind
      case Other => Done(k1, [])
      case KexInit => RecvKexInit(k1)
      case DhInit => if k.client then Exit else RecvDhInit(k1)
      case DhReply => if k.client && k.sentDh then FinishExchange(k1) else Exit
      case NewKeys => RecvNewKeys(k1)
  }

  // ----- counting -----

  /** The kex packets of one end come round and round: KEXINIT, the DH message, NEWKEYS. */
  function KindOf(client: bool, i: nat): Kind
  {
    if i % 3 == 0 then KexInit else if i % 3 == 2 then NewKeys else if client then DhInit else DhReply
  }

  /** How many of them this end has sent, and how many it has taken. */
  function Sent(k: Kex): int
  {
    3 * (k.next - 1) + if k.sentNew then 3 else if k.sentDh then 2 else if k.sentInit then 1 else 0
  }

  function Taken(k: Kex): int
  {
    3 * (k.next - 1) + if k.sentNew then 2 else if k.recvInit then 1 else 0
  }

  ghost predicate EndInv(k: Kex)
  {
    && k.next >= 1 && !k.recvNew && !k.newTrans
    && (k.recvInit ==> k.sentInit)
    && (k.sentDh ==> k.client && k.recvInit && !k.sentNew)
    && (k.sentNew ==> k.recvInit)
    && k.newRecv == k.sentNew
    && k.trans == (if k.sentNew then k.next else k.next - 1) && k.recv == k.next - 1
  }

  /** Between packets: requirenext names what must come, and nothing came before the first KEXINIT. */
  ghost predicate Ready(k: Kex)
  {
    k.require == Required(k) && (k.next == 1 && !k.recvInit ==> k.recvseq == 0)
  }

  /** What requirenext holds between packets. */
  function Required(k: Kex): Kind
  {
    if k.sentNew then NewKeys
    else if k.recvInit then (if k.client then DhReply else DhInit)
    else if k.next == 1 then KexInit
    else Other
  }

  /** Between exchanges, and not before the first. */
  predicate MaySpeak(i: nat)
  {
    i > 0 && i % 3 == 0
  }

  /** Where a link leads: from i kex packets taken at number s to j sent at number t. */
  ghost predicate Carries(q: seq<Packet>, client: bool, strict: bool, i: nat, s: nat, j: nat, t: nat)
  {
    if |q| == 0 then i == j && s == t
    else
      && q[0].epoch == i / 3 && q[0].seqno == s
      && q[0].kind == (if q[0].kind == Other && MaySpeak(i) then Other else KindOf(client, i))
      && Carries(q[1..], client, strict,
                 if q[0].kind == Other then i else i + 1,
                 if q[0].kind == NewKeys && strict then 0 else NextSeq(s), j, t)
  }

  /** The link from x to y, between what y has taken and what x has sent. */
  ghost predicate LinkInv(x: Kex, y: Kex, q: seq<Packet>)
  {
    Taken(y) >= 0 && Sent(x) >= 0 && Carries(q, x.client, x.strict, Taken(y), y.recvseq, Sent(x), x.transseq)
  }

  lemma {:induction false} CarriesGrows(q: seq<Packet>, client: bool, strict: bool, i: nat, s: nat, j: nat, t: nat)
    requires Carries(q, client, strict, i, s, j, t)
    ensures i <= j
  {
    if |q| > 0 {
      CarriesGrows(q[1..], client, strict, if q[0].kind == Other then i else i + 1,
                   if q[0].kind == NewKeys && strict then 0 else NextSeq(s), j, t);
    }
  }

  lemma {:induction false} CarriesMore(q: seq<Packet>, r: seq<Packet>, client: bool, strict: bool, i: nat, s: nat, j: nat, t: nat, j': nat, t': nat)
    requires Carries(q, client, strict, i, s, j, t) && Carries(r, client, strict, j, t, j', t')
    ensures Carries(q + r, client, strict, i, s, j', t')
  {
    if |q| == 0 {
      assert q + r == r;
    } else {
      assert (q + r)[1..] == q[1..] + r;
      CarriesMore(q[1..], r, client, strict, if q[0].kind == Other then i else i + 1,
                  if q[0].kind == NewKeys && strict then 0 else NextSeq(s), j, t, j', t');
    }
  }

  lemma CarriesOne(p: Packet, client: bool, strict: bool, i: nat)
    requires p.epoch == i / 3 && (p.kind == KindOf(client, i) || (p.kind == Other && MaySpeak(i)))
    ensures Carries([p], client, strict, i, p.seqno, if p.kind == Other then i else i + 1,
                    if p.kind == NewKeys && strict then 0 else NextSeq(p.seqno))
  {
    assert [p][1..] == [];
  }

  lemma CarriesNone(client: bool, strict: bool, i: nat, s: nat)
    ensures Carries([], client, strict, i, s, i, s)
  {
  }

  // ----- what each handler does to the counts -----

  /** From k to the result: the counts of the packets sent and of those taken. */
  ghost predicate Moves(k: Kex, r: Result, taken: int)
  {
    && r.Done? && EndInv(r.k) && r.k.client == k.client && r.k.strict == k.strict
    && Sent(k) >= 0 && Sent(r.k) >= 0 && Taken(r.k) == Taken(k) + taken
    && Carries(r.sent, k.client, k.strict, Sent(k), k.transseq, Sent(r.k), r.k.transseq)
  }

  lemma EncryptMoves(k: Kex, kind: Kind)
    requires EndInv(k) && Sent(k) >= 0 && (kind == KindOf(k.client, Sent(k)) || (kind == Other && MaySpeak(Sent(k)))) && kind != NewKeys
    ensures Carries(Encrypt(k, kind).sent, k.client, k.strict, Sent(k), k.transseq,
                    if kind == Other then Sent(k) else Sent(k) + 1, Encrypt(k, kind).k.transseq)
  {
    CarriesOne(Packet(kind, k.trans, k.transseq), k.client, k.strict, Sent(k));
  }

  lemma SendKexInitMoves(k: Kex)
    requires EndInv(k) && !k.sentInit
    ensures Moves(k, SendKexInit(k), 0) && SendKexInit(k).k.recvseq == k.recvseq
  {
    EncryptMoves(k, KexInit);
  }

  lemma SendNewKeysMoves(k: Kex)
    requires k.next >= 1 && k.sentInit && k.recvInit && !k.sentNew && !k.recvNew && k.trans == k.recv == k.next - 1
    ensures var r := SendNewKeys(k);
      && r.Done? && EndInv(r.k) && r.k.client == k.client && r.k.strict == k.strict && r.k.recvseq == k.recvseq
      && r.k.next == k.next && r.k.sentNew
      && Carries(r.sent, k.client, k.strict, 3 * (k.next - 1) + 2, k.transseq, 3 * k.next, r.k.transseq)
  {
    CarriesOne(Packet(NewKeys, k.trans, k.transseq), k.client, k.strict, 3 * (k.next - 1) + 2);
  }

  /** NEWKEYS read after our own: keys and numbers change here, and the exchange is over. */
  lemma RecvNewKeysMoves(k: Kex)
    requires EndInv(k) && k.sentNew
    ensures Moves(k, RecvNewKeys(k), 1) && RecvNewKeys(k).sent == [] && RecvNewKeys(k).k.require == k.require
    ensures var k' := RecvNewKeys(k).k; k'.recv == k.recv + 1 && k'.trans == k.trans && k'.next == k.next + 1 && !k'.sentInit
    ensures RecvNewKeys(k).k.recvseq == if k.strict then 0 else k.recvseq
  {
    CarriesNone(k.client, k.strict, Sent(k), k.transseq);
  }

  /** Read before our own, NEWKEYS would change nothing yet. */
  lemma EarlyNewKeys(k: Kex)
    requires EndInv(k) && k.recvInit
    ensures RecvNewKeys(k).Done? && (RecvNewKeys(k).k.recv == k.recv + 1 <==> k.sentNew)
  {
  }

  lemma RecvKexInitMoves(k: Kex)
    requires EndInv(k) && !k.recvInit && (k.next == 1 ==> k.recvseq == 1)
    ensures Moves(k, RecvKexInit(k), 1) && RecvKexInit(k).k.recvseq == k.recvseq && Ready(RecvKexInit(k).k)
  {
    CarriesNone(k.client, k.strict, Sent(k), k.transseq);
    if !k.sentInit {
      SendKexInitMoves(k);
    }
  }

  lemma RecvDhInitMoves(k: Kex)
    requires EndInv(k) && !k.client && k.recvInit && !k.sentNew
    ensures Moves(k, RecvDhInit(k), 1) && RecvDhInit(k).k.recvseq == k.recvseq && Ready(RecvDhInit(k).k)
  {
    EncryptMoves(k, DhReply);
    var e := Encrypt(k, DhReply);
    SendNewKeysMoves(e.k);
    var s := SendNewKeys(e.k);
    CarriesMore(e.sent, s.sent, k.client, k.strict, Sent(k), k.transseq, Sent(k) + 1, e.k.transseq, 3 * k.next, s.k.transseq);
  }

  lemma RecvDhReplyMoves(k: Kex)
    requires EndInv(k) && k.client && k.sentDh
    ensures Moves(k, FinishExchange(k), 1) && FinishExchange(k).k.recvseq == k.recvseq && Ready(FinishExchange(k).k)
  {
    SendNewKeysMoves(k);
  }

  // ----- the two ends -----

  /** Both ends and the links between them. */
  datatype Net = Net(c: Kex, s: Kex, cs: seq<Packet>, sc: seq<Packet>)

  ghost predicate Inv(n: Net)
  {
    && n.c.client && !n.s.client && n.c.strict == n.s.strict
    && EndInv(n.c) && EndInv(n.s) && Ready(n.c) && Ready(n.s)
    && LinkInv(n.c, n.s, n.cs) && LinkInv(n.s, n.c, n.sc)
  }

  /** What an end may do of its own accord. */
  datatype Event = Start | Speak | Exchange | Read

  /** Whether an end may act so; q is the link it reads from. */
  ghost predicate Enabled(k: Kex, q: seq<Packet>, ev: Event)
  {
    match ev
    case Start => !k.sentInit
    case Speak => (k.next > 1 && !k.sentInit) || k.sentNew // dataallowed, and no data before the first KEXINIT
    case Exchange => k.client && k.recvInit && !k.sentDh && !k.sentNew
    case Read => |q| > 0
  }

  ghost function Act(k: Kex, q: seq<Packet>, ev: Event): Result
    requires Enabled(k, q, ev)
  {
    match ev
    case Start => SendKexInit(k)
    case Speak => Encrypt(k, Other)
    case Exchange => var e := Encrypt(k, DhInit); Done(e.k.(sentDh := true), e.sent)
    case Read => Take(k, q[0])
  }

  /** A packet at the head of a link is one the reader is ready for, under the keys and the number it uses. */
  lemma HeadReady(x: Kex, y: Kex, q: seq<Packet>, r: seq<Packet>)
    requires EndInv(x) && EndInv(y) && x.client != y.client && LinkInv(x, y, q) && LinkInv(y, x, r) && |q| > 0
    ensures q[0].epoch == y.recv && q[0].seqno == y.recvseq && (Required(y) != Other ==> q[0].kind == Required(y))
    ensures match q[0].kind
      case Other => true
      case KexInit => !y.recvInit
      case DhInit => !y.client && y.recvInit && !y.sentNew
      case DhReply => y.client && y.sentDh
      case NewKeys => y.sentNew
  {
    var i := Taken(y);
    CarriesGrows(q[1..], x.client, x.strict, if q[0].kind == Other then i else i + 1,
                 if q[0].kind == NewKeys && x.strict then 0 else NextSeq(y.recvseq), Sent(x), x.transseq);
    CarriesGrows(r, y.client, y.strict, Taken(x), x.recvseq, Sent(y), y.transseq);
  }

  /** What taking the head of its link does to y. */
  lemma TakeMoves(x: Kex, y: Kex, q: seq<Packet>, r: seq<Packet>)
    requires EndInv(x) && EndInv(y) && Ready(y) && x.client != y.client && LinkInv(x, y, q) && LinkInv(y, x, r) && |q| > 0
    ensures Moves(y, Take(y, q[0]), if q[0].kind == Other then 0 else 1) && Ready(Take(y, q[0]).k)
    ensures Take(y, q[0]).k.recvseq == if q[0].kind == NewKeys && y.strict then 0 else NextSeq(y.recvseq)
  {
    hide FinishExchange, RecvNewKeys, RecvKexInit, RecvDhInit, LinkInv, Carries;
    HeadReady(x, y, q, r);
    var y1 := y.(recvseq := NextSeq(y.recvseq), require := Other);
    CarriesNone(y.client, y.strict, Sent(y), y.transseq);
    match q[0].kind {
      case Other =>
      case KexInit => RecvKexInitMoves(y1);
      case DhInit => RecvDhInitMoves(y1);
      case DhReply => RecvDhReplyMoves(y1);
      case NewKeys => RecvNewKeysMoves(y1);
    }
  }

  /** y takes the head of its link: no exit, and both links stay in order. */
  lemma ReadKeeps(x: Kex, y: Kex, q: seq<Packet>, r: seq<Packet>)
    requires EndInv(x) && EndInv(y) && Ready(y) && x.client != y.client && x.strict == y.strict
    requires LinkInv(x, y, q) && LinkInv(y, x, r) && |q| > 0
    ensures var t := Take(y, q[0]);
      t.Done? && EndInv(t.k) && Ready(t.k) && t.k.client == y.client && t.k.strict == y.strict && LinkInv(x, t.k, q[1..]) && LinkInv(t.k, x, r + t.sent)
  {
    hide Take, EndInv, Ready;
    TakeMoves(x, y, q, r);
    var t := Take(y, q[0]);
    CarriesMore(r, t.sent, y.client, y.strict, Taken(x), x.recvseq, Sent(y), y.transseq, Sent(t.k), t.k.transseq);
  }

  /** y sends of its own accord. */
  lemma SendKeeps(x: Kex, y: Kex, q: seq<Packet>, r: seq<Packet>, ev: Event)
    requires EndInv(x) && EndInv(y) && Ready(y) && LinkInv(x, y, q) && LinkInv(y, x, r) && Enabled(y, q, ev) && ev != Read
    ensures var t := Act(y, q, ev);
      t.Done? && EndInv(t.k) && Ready(t.k) && t.k.client == y.client && t.k.strict == y.strict && LinkInv(x, t.k, q) && LinkInv(t.k, x, r + t.sent)
  {
    hide Carries;
    var t := Act(y, q, ev);
    match ev {
      case Start => SendKexInitMoves(y);
      case Speak => EncryptMoves(y, Other);
      case Exchange => EncryptMoves(y, DhInit);
    }
    CarriesMore(r, t.sent, y.client, y.strict, Taken(x), x.recvseq, Sent(y), y.transseq, Sent(t.k), t.k.transseq);
  }

  datatype Move = AtClient(ev: Event) | AtServer(ev: Event)

  ghost predicate Possible(n: Net, m: Move)
  {
    match m
    case AtClient(ev) => Enabled(n.c, n.sc, ev) && Act(n.c, n.sc, ev).Done?
    case AtServer(ev) => Enabled(n.s, n.cs, ev) && Act(n.s, n.cs, ev).Done?
  }

  ghost function Rest(q: seq<Packet>, ev: Event): seq<Packet>
    requires ev == Read ==> |q| > 0
  {
    if ev == Read then q[1..] else q
  }

  ghost function After(n: Net, m: Move): Net
    requires Possible(n, m)
  {
    match m
    case AtClient(ev) => var t := Act(n.c, n.sc, ev); Net(t.k, n.s, n.cs + t.sent, Rest(n.sc, ev))
    case AtServer(ev) => var t := Act(n.s, n.cs, ev); Net(n.c, t.k, Rest(n.cs, ev), n.sc + t.sent)
  }

  ghost predicate Reaches(n0: Net, moves: seq<Move>, n: Net)
    decreases |moves|
  {
    if |moves| == 0 then n == n0 else Possible(n0, moves[0]) && Reaches(After(n0, moves[0]), moves[1..], n)
  }

  /** Two ends before their first exchange. */
  ghost predicate Initial(n: Net)
  {
    && n.c == NewEnd(true, n.s.strict) && n.s == NewEnd(false, n.c.strict) && n.cs == [] && n.sc == []
  }

  lemma MoveKeeps(n: Net, m: Move)
    requires Inv(n) && Possible(n, m)
    ensures Inv(After(n, m))
  {
    hide EndInv, Ready, LinkInv, Take, SendKexInit, Encrypt;
    match m
    case AtClient(ev) =>
      if ev == Read { ReadKeeps(n.s, n.c, n.sc, n.cs); } else { SendKeeps(n.s, n.c, n.sc, n.cs, ev); }
    case AtServer(ev) =>
      if ev == Read { ReadKeeps(n.c, n.s, n.cs, n.sc); } else { SendKeeps(n.c, n.s, n.cs, n.sc, ev); }
  }

  lemma {:induction false} RunKeeps(n0: Net, moves: seq<Move>, n: Net)
    requires Inv(n0) && Reaches(n0, moves, n)
    ensures Inv(n)
    decreases |moves|
  {
    hide Inv, Possible, After;
    if |moves| > 0 {
      MoveKeeps(n0, moves[0]);
      RunKeeps(After(n0, moves[0]), moves[1..], n);
    }
  }

  /**
   In every run every packet is read under the exchange and the number it was
   protected with, and no message is unexpected.
   */
  lemma SameEpoch(n0: Net, moves: seq<Move>, n: Net)
    requires Initial(n0) && Reaches(n0, moves, n)
    ensures |n.cs| > 0 ==> n.cs[0].epoch == n.s.recv && n.cs[0].seqno == n.s.recvseq && Take(n.s, n.cs[0]).Done?
    ensures |n.sc| > 0 ==> n.sc[0].epoch == n.c.recv && n.sc[0].seqno == n.c.recvseq && Take(n.c, n.sc[0]).Done?
  {
    hide EndInv, Ready, Take, Reaches;
    RunKeeps(n0, moves, n) by { InitialInv(n0); }
    if |n.cs| > 0 {
      HeadReady(n.c, n.s, n.cs, n.sc);
      ReadKeeps(n.c, n.s, n.cs, n.sc);
    }
    if |n.sc| > 0 {
      HeadReady(n.s, n.c, n.sc, n.cs);
      ReadKeeps(n.s, n.c, n.sc, n.cs);
    }
  }

  lemma InitialInv(n: Net)
    requires Initial(n)
    ensures Inv(n)
  {
  }

  // ----- what is refused, and what the rest does -----

  /** Exactly which packets end the session. */
  lemma TakeExits(k: Kex, p: Packet)
    requires k.recvseq < 0x1_0000_0000
    ensures Take(k, p).Exit? <==>
      || p.epoch != k.recv || p.seqno != k.recvseq
      || (k.require != Other && p.kind != k.require)
      || (p.kind == KexInit && (k.recvInit || (k.strict && k.next <= 1 && !k.sentNew && k.recvseq != 0)))
      || (p.kind == DhInit && (k.client || !k.sentInit || !k.recvInit))
      || (p.kind == DhReply && (!k.client || !k.sentDh || !k.sentInit || !k.recvInit))
      || (p.kind == NewKeys && (!k.sentInit || !k.recvInit))
  {
  }

  /** KEXINIT is answered with ours if that has not gone out; then only the DH message may follow. */
  lemma KexInitExact(k: Kex, p: Packet)
    requires p.kind == KexInit && Take(k, p).Done?
    ensures Take(k, p).sent == if k.sentInit then [] else [Packet(KexInit, k.trans, k.transseq)]
    ensures Take(k, p).k == k.(sentInit := true, recvInit := true, require := if k.client then DhReply else DhInit,
                               recvseq := NextSeq(k.recvseq), transseq := if k.sentInit then k.transseq else NextSeq(k.transseq))
  {
  }

  /** The DH messages are answered with our NEWKEYS, at the server behind its own; our keys change, theirs do not, and only their NEWKEYS may follow. */
  lemma DhExact(k: Kex, p: Packet)
    requires EndInv(k) && !k.sentNew && (p.kind == DhInit || p.kind == DhReply) && Take(k, p).Done?
    ensures var q := if k.client then k.transseq else NextSeq(k.transseq);
      && Take(k, p).sent == (if k.client then [] else [Packet(DhReply, k.trans, k.transseq)]) + [Packet(NewKeys, k.trans, q)]
      && Take(k, p).k == k.(sentDh := false, sentNew := true, newRecv := true, trans := k.next, require := NewKeys,
                            recvseq := NextSeq(k.recvseq), transseq := if k.strict then 0 else NextSeq(q))
  {
  }

  /** NEWKEYS after our own: their keys change, and all is as before an exchange. */
  lemma NewKeysExact(k: Kex, p: Packet)
    requires EndInv(k) && k.sentNew && p.kind == NewKeys && Take(k, p).Done?
    ensures Take(k, p).sent == []
    ensures Take(k, p).k == k.(sentInit := false, recvInit := false, sentNew := false, newRecv := false, recv := k.next, next := k.next + 1,
                               require := Other, recvseq := if k.strict then 0 else NextSeq(k.recvseq))
  {
  }

  /** Anything else is taken and changes nothing but its number. */
  lemma OtherExact(k: Kex, p: Packet)
    requires p.kind == Other && Take(k, p).Done?
    ensures Take(k, p) == Done(k.(recvseq := NextSeq(k.recvseq), require := Other), [])
  {
  }

  /** What an end sends of its own accord. */
  lemma SendExact(k: Kex, q: seq<Packet>, ev: Event)
    requires Enabled(k, q, ev) && ev != Read
    ensures Act(k, q, ev).Done?
    ensures Act(k, q, ev).sent == [Packet(if ev == Start then KexInit else if ev == Speak then Other else DhInit, k.trans, k.transseq)]
    ensures Act(k, q, ev).k == k.(transseq := NextSeq(k.transseq), sentInit := k.sentInit || ev == Start, sentDh := k.sentDh || ev == Exchange)
  {
  }

  /**
   In every run nothing but what the exchange calls for is accepted: KEXINIT at
   first, then the DH message, then NEWKEYS; and nothing under another exchange
   or number than the next.
   */
  lemma OnlyExpected(n0: Net, moves: seq<Move>, n: Net, atServer: bool, p: Packet)
    requires Initial(n0) && Reaches(n0, moves, n)
    ensures var y := if atServer then n.s else n.c;
      || p.epoch != y.recv || p.seqno != y.recvseq
      || (y.next == 1 && !y.recvInit && p.kind != KexInit)
      || (y.recvInit && !y.sentNew && p.kind != if y.client then DhReply else DhInit)
      || (y.sentNew && p.kind != NewKeys)
      || (p.kind == NewKeys && !y.sentNew)
      ==> Take(y, p).Exit?
  {
    hide LinkInv, Reaches;
    RunKeeps(n0, moves, n) by { InitialInv(n0); }
  }

  // ----- an exchange under way can be completed -----

  /** How far both ends have come, and how far they may come in N exchanges. */
  ghost function Progress(n: Net): int
  {
    Sent(n.c) + Sent(n.s) + Taken(n.c) + Taken(n.s)
  }

  ghost predicate Within(n: Net, N: int)
  {
    Sent(n.c) <= 3 * N && Sent(n.s) <= 3 * N
  }

  lemma ProgressBound(n: Net, N: int)
    requires Inv(n) && Within(n, N)
    ensures Progress(n) <= 12 * N
  {
    CarriesGrows(n.cs, n.c.client, n.c.strict, Taken(n.s), n.s.recvseq, Sent(n.c), n.c.transseq);
    CarriesGrows(n.sc, n.s.client, n.s.strict, Taken(n.c), n.c.recvseq, Sent(n.s), n.s.transseq);
  }

  /** Taking the head of a link brings its reader on, and no further than N exchanges. */
  lemma TakeProgress(x: Kex, y: Kex, q: seq<Packet>, r: seq<Packet>, N: int)
    requires EndInv(x) && EndInv(y) && Ready(y) && x.client != y.client && LinkInv(x, y, q) && LinkInv(y, x, r) && |q| > 0
    requires Sent(x) <= 3 * N && Sent(y) <= 3 * N
    ensures Take(y, q[0]).Done? && Sent(Take(y, q[0]).k) <= 3 * N
    ensures var t := Take(y, q[0]);
      if q[0].kind == Other then t.sent == [] && Sent(t.k) == Sent(y) && Taken(t.k) == Taken(y)
      else Taken(t.k) == Taken(y) + 1 && Sent(t.k) >= Sent(y)
  {
    hide LinkInv, Carries, Take;
    TakeMoves(x, y, q, r);
    HeadReady(x, y, q, r);
    if q[0].kind != Other { HeadBelow(x, y, q); }
    match q[0].kind {
      case Other => OtherExact(y, q[0]);
      case KexInit => KexInitExact(y, q[0]);
      case DhInit => DhExact(y, q[0]);
      case DhReply => DhExact(y, q[0]);
      case NewKeys => NewKeysExact(y, q[0]);
    }
  }

  /** A kex packet on its way was sent. */
  lemma HeadBelow(x: Kex, y: Kex, q: seq<Packet>)
    requires EndInv(x) && EndInv(y) && LinkInv(x, y, q) && |q| > 0 && q[0].kind != Other
    ensures Taken(y) < Sent(x)
  {
    CarriesGrows(q[1..], x.client, x.strict, Taken(y) + 1, if q[0].kind == NewKeys && x.strict then 0 else NextSeq(y.recvseq), Sent(x), x.transseq);
  }

  /** With nothing on its way, no exchange is under way or the client is to send its DH message. */
  lemma QuietOrExchange(n: Net)
    requires Inv(n) && n.cs == [] && n.sc == []
    ensures Quiet(n) || Enabled(n.c, n.sc, Exchange)
  {
    assert Taken(n.s) == Sent(n.c) && Taken(n.c) == Sent(n.s);
  }

  /** No exchange is under way, and both ends use the keys of the last one. */
  ghost predicate Quiet(n: Net)
  {
    && !n.c.sentInit && !n.s.sentInit && n.c.next == n.s.next
    && n.c.trans == n.c.recv == n.s.trans == n.s.recv == n.c.next - 1
  }

  /** No new exchange is asked for and no other packet sent. */
  ghost predicate Routine(m: Move)
  {
    m == AtServer(Read) || m == AtClient(Read) || m == AtClient(Exchange)
  }

  ghost predicate OneMove(n: Net, m: Move, t: Net)
  {
    Possible(n, m) && t == After(n, m)
  }

  /** A move that brings the exchange on, as long as one is under way. */
  lemma NextMove(n: Net, N: int) returns (m: Move, t: Net)
    requires Inv(n) && Within(n, N) && (n.cs != [] || n.sc != [] || !Quiet(n))
    ensures OneMove(n, m, t) && Routine(m) && Inv(t) && Within(t, N)
    ensures Progress(t) > Progress(n) || (Progress(t) == Progress(n) && |t.cs| + |t.sc| < |n.cs| + |n.sc|)
  {
    hide LinkInv, Take, Ready, Carries;
    if |n.cs| > 0 {
      m := AtServer(Read);
      TakeProgress(n.c, n.s, n.cs, n.sc, N);
    } else if |n.sc| > 0 {
      m := AtClient(Read);
      TakeProgress(n.s, n.c, n.sc, n.cs, N);
    } else {
      m := AtClient(Exchange);
      QuietOrExchange(n);
    }
    t := After(n, m);
    MoveKeeps(n, m);
  }

  lemma {:induction false} Complete(n: Net, N: int) returns (more: seq<Move>, t: Net)
    requires Inv(n) && Within(n, N)
    ensures Reaches(n, more, t) && t.cs == [] && t.sc == [] && Quiet(t)
    ensures forall i :: 0 <= i < |more| ==> Routine(more[i])
    decreases 12 * N - Progress(n), |n.cs| + |n.sc|
  {
    hide Inv, Within, Quiet, Progress, Possible, After, Routine;
    if n.cs == [] && n.sc == [] && Quiet(n) {
      more, t := [], n;
    } else {
      var m, n1 := NextMove(n, N);
      ProgressBound(n, N);
      ProgressBound(n1, N);
      var rest;
      rest, t := Complete(n1, N);
      more := [m] + rest;
      assert more[0] == m && more[1..] == rest;
    }
  }

  /** From every state of every run an exchange under way can be completed, by reading and the client's DH message alone. */
  lemma CanComplete(n0: Net, moves: seq<Move>, n: Net) returns (more: seq<Move>, t: Net)
    requires Initial(n0) && Reaches(n0, moves, n)
    ensures Reaches(n, more, t) && t.cs == [] && t.sc == [] && Quiet(t)
    ensures forall i :: 0 <= i < |more| ==> Routine(more[i])
  {
    hide Inv, Reaches, Routine;
    RunKeeps(n0, moves, n) by { InitialInv(n0); }
    var N := Max(Sent(n.c), Sent(n.s));
    RoundsNeeded(n, N);
    more, t := Complete(n, N);
  }

  lemma RoundsNeeded(n: Net, N: int)
    requires Inv(n) && Sent(n.c) <= N && Sent(n.s) <= N
    ensures Within(n, N)
  {
  }
}
