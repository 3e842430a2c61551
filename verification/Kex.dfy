/** The keys of a session: updated in place at one end, and the same bytes at both ends in every run. */
module Kex {
  import opened Bytes
  import opened KeyDerivation
  import P = KexProtocol

  /** ses.keys, in use, and ses.newkeys. */
  datatype Ring = Ring(trans: Keys, recv: Keys, newTrans: Keys, newRecv: Keys)

  const NO_KEYS := Keys([], [], [])

  /** What both ends know of an exchange: what was negotiated, and the secret. */
  datatype Suite = Suite(H: seq<u8> -> seq<u8>, hashSize: nat, macToServer: Mac, macToClient: Mac, secret: Secret)

  ghost predicate Agreed(suites: nat -> Suite)
  {
    forall e :: IsHash(suites(e).H, suites(e).hashSize)
  }

  ghost function SuiteKeys(u: Suite, toServer: bool): Keys
    requires IsHash(u.H, u.hashSize)
  {
    DirectionKeys(u.H, u.hashSize, u.secret, toServer, if toServer then u.macToServer else u.macToClient)
  }

  /** The keys of section 7.2 by their letters: A, C, E from client to server and B, D, F back. */
  ghost predicate Lettered(k: Keys, u: Suite, toServer: bool)
    requires IsHash(u.H, u.hashSize)
  {
    var mac := if toServer then u.macToServer else u.macToClient;
    && k.iv == KeyBytes(u.H, u.hashSize, u.secret, if toServer then 'A' as int else 'B' as int, 20)
    && k.key == KeyBytes(u.H, u.hashSize, u.secret, if toServer then 'C' as int else 'D' as int, 64)
    && k.mac == (if mac.NoMac? then [] else KeyBytes(u.H, u.hashSize, u.secret, if toServer then 'E' as int else 'F' as int, mac.keysize))
  }

  lemma SuiteLetters(u: Suite, toServer: bool)
    requires IsHash(u.H, u.hashSize)
    ensures Lettered(SuiteKeys(u, toServer), u, toServer)
  {
    hide KeyBytes, IsHash;
  }

  /** The keys of a direction in exchange e; before the first exchange there are none. */
  ghost function KeysOf(suites: nat -> Suite, toServer: bool, e: nat): Keys
    requires Agreed(suites)
  {
    if e == 0 then NO_KEYS else SuiteKeys(suites(e), toServer)
  }

  // ----- what the handlers do to the keys -----

  /** switch_keys, where it does not exit. */
  function Switched(k: P.Kex, r: Ring): Ring
  {
    var r1 := if k.recvNew && k.newRecv then r.(recv := r.newRecv) else r;
    if k.sentNew && k.newTrans then r1.(trans := r1.newTrans) else r1
  }

  /** send_msg_newkeys: new keys for both directions, and a switch. */
  ghost function SentNew(k: P.Kex, r: Ring, u: Suite): Ring
    requires IsHash(u.H, u.hashSize)
  {
    Switched(k.(sentNew := true, newTrans := true, newRecv := true),
             r.(newTrans := SuiteKeys(u, k.client), newRecv := SuiteKeys(u, !k.client)))
  }

  /** recv_msg_newkeys. */
  function ReadNew(k: P.Kex, r: Ring): Ring
  {
    Switched(k.(recvNew := true), r)
  }

  /** The keys held are those of the exchanges the state names. */
  ghost predicate Keyed(suites: nat -> Suite, k: P.Kex, r: Ring)
    requires Agreed(suites)
  {
    && r.trans == KeysOf(suites, k.client, k.trans)
    && r.recv == KeysOf(suites, !k.client, k.recv)
    && (k.newTrans ==> r.newTrans == KeysOf(suites, k.client, k.next))
    && (k.newRecv ==> r.newRecv == KeysOf(suites, !k.client, k.next))
  }

  class Session {
    /** ses.kexstate, with the validity flags of ses.newkeys and the numbers of the exchanges. */
    var st: P.Kex
    /** ses.keys. */
    var trans: Keys
    var recv: Keys
    /** ses.newkeys. */
    var newTrans: Keys
    var newRecv: Keys

    function Held(): Ring
      reads this
    {
      Ring(trans, recv, newTrans, newRecv)
    }

    constructor (client: bool, strict: bool)
      ensures st == P.NewEnd(client, strict) && Held() == Ring(NO_KEYS, NO_KEYS, NO_KEYS, NO_KEYS)
    {
      st := P.NewEnd(client, strict);
      trans, recv, newTrans, newRecv := NO_KEYS, NO_KEYS, NO_KEYS, NO_KEYS;
    }

    /** switch_keys; ok is false where it exits. */
    method SwitchKeys() returns (ok: bool)
      modifies this
      ensures ok == P.SwitchKeys(old(st)).Done?
      ensures if ok then st == P.SwitchKeys(old(st)).k && Held() == Switched(old(st), old(Held())) else unchanged(this)
    {
      if !(st.sentInit && st.recvInit) {
        return false;
      }
      if st.recvNew && st.newRecv {
        recv := newRecv;
        st := st.(recv := st.next, newRecv := false);
      }
      if st.sentNew && st.newTrans {
        trans := newTrans;
        st := st.(trans := st.next, newTrans := false);
      }
      if st.sentNew && st.recvNew {
        st := st.(sentInit := false, recvInit := false, sentNew := false, recvNew := false, next := st.next + 1);
      }
      ok := true;
    }

    /** send_msg_newkeys in the exchange u. */
    method SendNewKeys(u: Suite) returns (ok: bool)
      requires IsHash(u.H, u.hashSize)
      modifies this
      ensures ok == P.SendNewKeys(old(st)).Done?
      ensures ok ==> st == P.SendNewKeys(old(st)).k && Held() == SentNew(old(st), old(Held()), u)
      ensures ok ==> Lettered(trans, u, st.client) && Lettered(newRecv, u, !st.client) && (old(st.recvNew) ==> Lettered(recv, u, !st.client))
    {
      hide DirectionKeys, IsHash, Lettered;
      st := st.(transseq := P.NextSeq(st.transseq));
      newTrans, newRecv := GenNewKeys(st.client, u.H, u.hashSize, u.secret,
                                      if st.client then u.macToServer else u.macToClient, if st.client then u.macToClient else u.macToServer);
      st := st.(sentNew := true, newTrans := true, newRecv := true, sentDh := false);
      SuiteLetters(u, st.client);
      SuiteLetters(u, !st.client);
      ok := SwitchKeys();
      if ok && st.strict {
        st := st.(transseq := 0);
      }
    }

    /** recv_msg_newkeys. */
    method RecvNewKeys() returns (ok: bool)
      modifies this
      ensures ok == P.RecvNewKeys(old(st)).Done?
      ensures ok ==> st == P.RecvNewKeys(old(st)).k && Held() == ReadNew(old(st), old(Held()))
    {
      st := st.(recvNew := true);
      ok := SwitchKeys();
      if ok && st.strict {
        st := st.(recvseq := 0);
      }
    }
  }

  /** Ends at the same exchange use the same keys for a direction. */
  lemma SameKeys(suites: nat -> Suite, x: P.Kex, a: Ring, y: P.Kex, b: Ring)
    requires Agreed(suites) && Keyed(suites, x, a) && Keyed(suites, y, b) && x.client != y.client && x.trans == y.recv
    ensures a.trans == b.recv
  {
  }

  // ----- runs that carry the keys -----

  /** Both ends with their keys; beside every packet on a link stand the keys that protect it. */
  datatype Wire = Wire(net: P.Net, c: Ring, s: Ring, cs: seq<Keys>, sc: seq<Keys>)

  ghost function RingAfter(suites: nat -> Suite, k: P.Kex, q: seq<P.Packet>, ev: P.Event, r: Ring): Ring
    requires Agreed(suites) && P.Enabled(k, q, ev)
  {
    if ev != P.Read then r
    else if q[0].kind == P.DhInit || q[0].kind == P.DhReply then SentNew(k, r, suites(k.next))
    else if q[0].kind == P.NewKeys then ReadNew(k, r)
    else r
  }

  /** All that one event sends goes out under the keys in use when it begins. */
  ghost function Protected(sent: seq<P.Packet>, keys: Keys): (r: seq<Keys>)
    ensures |r| == |sent| && forall i :: 0 <= i < |r| ==> r[i] == keys
  {
    seq(|sent|, _ => keys)
  }

  ghost function KeysLeft(t: seq<Keys>, ev: P.Event): seq<Keys>
    requires ev == P.Read ==> |t| > 0
  {
    if ev == P.Read then t[1..] else t
  }

  ghost predicate Possible(w: Wire, m: P.Move)
  {
    P.Possible(w.net, m) && |w.cs| == |w.net.cs| && |w.sc| == |w.net.sc|
  }

  ghost function After(suites: nat -> Suite, w: Wire, m: P.Move): Wire
    requires Agreed(suites) && Possible(w, m)
  {
    var n := w.net;
    match m
    case AtClient(ev) =>
      Wire(P.After(n, m), RingAfter(suites, n.c, n.sc, ev, w.c), w.s,
           w.cs + Protected(P.Act(n.c, n.sc, ev).sent, w.c.trans), KeysLeft(w.sc, ev))
    case AtServer(ev) =>
      Wire(P.After(n, m), w.c, RingAfter(suites, n.s, n.cs, ev, w.s),
           KeysLeft(w.cs, ev), w.sc + Protected(P.Act(n.s, n.cs, ev).sent, w.s.trans))
  }

  ghost predicate Reaches(suites: nat -> Suite, w0: Wire, moves: seq<P.Move>, w: Wire)
    requires Agreed(suites)
    decreases |moves|
  {
    if |moves| == 0 then w == w0 else Possible(w0, moves[0]) && Reaches(suites, After(suites, w0, moves[0]), moves[1..], w)
  }

  ghost predicate Initial(w: Wire)
  {
    && P.Initial(w.net) && w.c.trans == w.c.recv == w.s.trans == w.s.recv == NO_KEYS && w.cs == w.sc == []
  }

  /** Every packet stands under the keys of its exchange and direction. */
  ghost predicate Tagged(suites: nat -> Suite, q: seq<P.Packet>, t: seq<Keys>, toServer: bool)
    requires Agreed(suites)
  {
    |q| == |t| && forall i :: 0 <= i < |q| ==> t[i] == KeysOf(suites, toServer, q[i].epoch)
  }

  ghost predicate Inv(suites: nat -> Suite, w: Wire)
    requires Agreed(suites)
  {
    && P.Inv(w.net) && Keyed(suites, w.net.c, w.c) && Keyed(suites, w.net.s, w.s)
    && Tagged(suites, w.net.cs, w.cs, true) && Tagged(suites, w.net.sc, w.sc, false)
  }

  /** What an event sends bears the number of the exchange whose keys are in use. */
  lemma SentUnder(k: P.Kex, q: seq<P.Packet>, ev: P.Event)
    requires P.Enabled(k, q, ev) && P.Act(k, q, ev).Done?
    ensures forall p :: p in P.Act(k, q, ev).sent ==> p.epoch == k.trans
  {
  }

  /** An event keeps the keys in step with the state. */
  lemma KeysKept(suites: nat -> Suite, k: P.Kex, q: seq<P.Packet>, ev: P.Event, r: Ring)
    requires Agreed(suites) && P.EndInv(k) && P.Ready(k) && P.Enabled(k, q, ev) && P.Act(k, q, ev).Done? && Keyed(suites, k, r)
    requires ev == P.Read && q[0].kind == P.NewKeys ==> k.sentNew
    ensures Keyed(suites, P.Act(k, q, ev).k, RingAfter(suites, k, q, ev, r)) && P.Act(k, q, ev).k.client == k.client
  {
    hide DirectionKeys, IsHash;
  }

  lemma TaggedAfter(suites: nat -> Suite, q: seq<P.Packet>, t: seq<Keys>, toServer: bool, sent: seq<P.Packet>, keys: Keys, e: nat)
    requires Agreed(suites) && Tagged(suites, q, t, toServer) && keys == KeysOf(suites, toServer, e) && forall p :: p in sent ==> p.epoch == e
    ensures Tagged(suites, q + sent, t + Protected(sent, keys), toServer)
  {
  }

  lemma MoveKeeps(suites: nat -> Suite, w: Wire, m: P.Move)
    requires Agreed(suites) && Inv(suites, w) && Possible(w, m)
    ensures Inv(suites, After(suites, w, m))
  {
    hide P.EndInv, P.Ready, P.LinkInv, P.Take, P.Act, KeysOf, SentNew, ReadNew, Protected;
    P.MoveKeeps(w.net, m);
    var n := w.net;
    match m
    case AtClient(ev) =>
      if ev == P.Read { P.HeadReady(n.s, n.c, n.sc, n.cs); }
      KeysKept(suites, n.c, n.sc, ev, w.c);
      SentUnder(n.c, n.sc, ev);
      TaggedAfter(suites, n.cs, w.cs, true, P.Act(n.c, n.sc, ev).sent, w.c.trans, n.c.trans);
    case AtServer(ev) =>
      if ev == P.Read { P.HeadReady(n.c, n.s, n.cs, n.sc); }
      KeysKept(suites, n.s, n.cs, ev, w.s);
      SentUnder(n.s, n.cs, ev);
      TaggedAfter(suites, n.sc, w.sc, false, P.Act(n.s, n.cs, ev).sent, w.s.trans, n.s.trans);
  }

  lemma {:induction false} RunKeeps(suites: nat -> Suite, w0: Wire, moves: seq<P.Move>, w: Wire)
    requires Agreed(suites) && Inv(suites, w0) && Reaches(suites, w0, moves, w)
    ensures Inv(suites, w)
    decreases |moves|
  {
    hide Inv, Possible, After;
    if |moves| > 0 {
      MoveKeeps(suites, w0, moves[0]);
      RunKeeps(suites, After(suites, w0, moves[0]), moves[1..], w);
    }
  }

  /** In every run the keys a packet is read under are, byte for byte, those it was sent under. */
  lemma SameBytes(suites: nat -> Suite, w0: Wire, moves: seq<P.Move>, w: Wire)
    requires Agreed(suites) && Initial(w0) && Reaches(suites, w0, moves, w)
    ensures |w.cs| == |w.net.cs| && |w.sc| == |w.net.sc|
    ensures |w.cs| > 0 ==> w.cs[0] == w.s.recv && P.Take(w.net.s, w.net.cs[0]).Done?
    ensures |w.cs| > 0 ==> if w.net.cs[0].epoch == 0 then w.cs[0] == NO_KEYS else Lettered(w.cs[0], suites(w.net.cs[0].epoch), true)
    ensures |w.sc| > 0 ==> w.sc[0] == w.c.recv && P.Take(w.net.c, w.net.sc[0]).Done?
    ensures |w.sc| > 0 ==> if w.net.sc[0].epoch == 0 then w.sc[0] == NO_KEYS else Lettered(w.sc[0], suites(w.net.sc[0].epoch), false)
  {
    hide P.EndInv, P.Ready, P.LinkInv, P.Take, Reaches, SuiteKeys, Lettered;
    RunKeeps(suites, w0, moves, w) by { InitialInv(suites, w0); }
    var n := w.net;
    if |n.cs| > 0 {
      P.HeadReady(n.c, n.s, n.cs, n.sc);
      P.ReadKeeps(n.c, n.s, n.cs, n.sc);
      SuiteLetters(suites(n.cs[0].epoch), true);
    }
    if |n.sc| > 0 {
      P.HeadReady(n.s, n.c, n.sc, n.cs);
      P.ReadKeeps(n.s, n.c, n.sc, n.cs);
      SuiteLetters(suites(n.sc[0].epoch), false);
    }
  }

  lemma InitialInv(suites: nat -> Suite, w: Wire)
    requires Agreed(suites) && Initial(w)
    ensures Inv(suites, w)
  {
    P.InitialInv(w.net);
  }
}
