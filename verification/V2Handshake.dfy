/** The BIP 324 handshake (v2_p2p.py): key derivation, garbage, decoys and the version packet. */
module V2Handshake {
  import opened Bytes
  import opened StreamCipher
  import opened Aead
  import opened V2Packets
  import opened Tagged

  const MAX_GARBAGE_LEN: nat := 4095
  const TERMINATOR_LEN: nat := 16
  const ELLSWIFT_LEN: nat := 64

  ghost predicate Yields32Bytes(f: (bytes, bytes, string) -> bytes) {
    forall salt, ikm, info :: |f(salt, ikm, info)| == 32
  }

  type Hkdf = f: (bytes, bytes, string) -> bytes | Yields32Bytes(f)
    ghost witness (salt: bytes, ikm: bytes, info: string) => Zeros(32)

  /** The primitives the transport is built on, as arbitrary functions: the ChaCha20 block function,
      `ellswift_ecdh_xonly(theirs, priv)`, `TaggedHash(tag, data)` and
      `hkdf_sha256(salt, ikm, info)` with length 32. */
  datatype Primitives = Primitives(block: Block, ecdh: (bytes, bytes) -> bytes,
                                   tagged: (string, bytes) -> bytes, hkdf: Hkdf)

  // ---- Keys

  function SharedSecret(pr: Primitives, priv: bytes, theirs: bytes, ours: bytes, initiating: bool): bytes {
    var x := pr.ecdh(theirs, priv);
    pr.tagged("bip324_ellswift_xonly_ecdh", if initiating then ours + theirs + x else theirs + ours + x)
  }

  datatype Session = Session(send: Direction, recv: Receiver, sendTerminator: bytes, recvTerminator: bytes,
                             sessionId: bytes)

  function FreshDirection(lengthKey: bytes, packetKey: bytes): Direction {
    Direction(Position(lengthKey, 0, 0), Keyed(packetKey, 0))
  }

  /** `initialize_v2_transport` */
  function NewSession(pr: Primitives, magic: bytes, secret: bytes, initiating: bool): (s: Session)
    ensures Fresh(s.send) && Fresh(s.recv.dir) && s.recv.contentsLen == -1
    ensures |s.sendTerminator| == |s.recvTerminator| == TERMINATOR_LEN
  {
    var salt := Ascii("bitcoin_v2_shared_secret") + magic;
    var initiator := FreshDirection(pr.hkdf(salt, secret, "initiator_L"), pr.hkdf(salt, secret, "initiator_P"));
    var responder := FreshDirection(pr.hkdf(salt, secret, "responder_L"), pr.hkdf(salt, secret, "responder_P"));
    var terminators := pr.hkdf(salt, secret, "garbage_terminators");
    var id := pr.hkdf(salt, secret, "session_id");
    if initiating then
      Session(initiator, Receiver(responder, -1), terminators[..16], terminators[16..], id)
    else
      Session(responder, Receiver(initiator, -1), terminators[16..], terminators[..16], id)
  }

  /** Both ends compute the same secret as soon as the elliptic-curve results agree, and then each
      side's sending state is the other's receiving state. */
  lemma SessionsMirror(pr: Primitives, magic: bytes, privA: bytes, ellA: bytes, privB: bytes, ellB: bytes)
    requires pr.ecdh(ellB, privA) == pr.ecdh(ellA, privB)
    ensures SharedSecret(pr, privA, ellB, ellA, true) == SharedSecret(pr, privB, ellA, ellB, false)
    ensures var a := NewSession(pr, magic, SharedSecret(pr, privA, ellB, ellA, true), true);
      var b := NewSession(pr, magic, SharedSecret(pr, privB, ellA, ellB, false), false);
      && a.recv == Receiver(b.send, -1) && b.recv == Receiver(a.send, -1)
      && a.recvTerminator == b.sendTerminator && b.recvTerminator == a.sendTerminator
      && a.sessionId == b.sessionId
  {
    assert SharedSecret(pr, privA, ellB, ellA, true) == SharedSecret(pr, privB, ellA, ellB, false);
  }

  // ---- Which keys they are

  /** The salt of all derived keys. */
  function Salt(magic: bytes): bytes {
    Ascii("bitcoin_v2_shared_secret") + magic
  }

  /** The name in the labels of the keys that a side sends with. */
  function RoleName(initiating: bool): string {
    if initiating then "initiator" else "responder"
  }

  /** Each side sends with the keys labelled with its own role and receives with those labelled with the
      other one; the terminators are the halves of one output, the initiator's first. */
  lemma KeysByRole(pr: Primitives, magic: bytes, secret: bytes, initiating: bool)
    ensures var s := NewSession(pr, magic, secret, initiating);
      && s.send.lengths.key == pr.hkdf(Salt(magic), secret, RoleName(initiating) + "_L")
      && s.send.packets.key == pr.hkdf(Salt(magic), secret, RoleName(initiating) + "_P")
      && s.recv.dir.lengths.key == pr.hkdf(Salt(magic), secret, RoleName(!initiating) + "_L")
      && s.recv.dir.packets.key == pr.hkdf(Salt(magic), secret, RoleName(!initiating) + "_P")
      && (if initiating then s.sendTerminator + s.recvTerminator else s.recvTerminator + s.sendTerminator)
         == pr.hkdf(Salt(magic), secret, "garbage_terminators")
      && s.sessionId == pr.hkdf(Salt(magic), secret, "session_id")
  {
    Labels();
    var t := pr.hkdf(Salt(magic), secret, "garbage_terminators");
    assert t[..16] + t[16..] == t;
  }

  lemma Labels()
    ensures RoleName(true) + "_L" == "initiator_L" && RoleName(true) + "_P" == "initiator_P"
    ensures RoleName(false) + "_L" == "responder_L" && RoleName(false) + "_P" == "responder_P"
  {}

  /** Different labels give different keys. */
  ghost predicate SeparatesLabels(f: Hkdf) {
    forall salt, ikm, a, b :: f(salt, ikm, a) == f(salt, ikm, b) ==> a == b
  }

  /** The four keys of a session are then pairwise different: neither the two directions nor the two ciphers
      of one direction ever share a keystream. */
  lemma KeysDiffer(pr: Primitives, magic: bytes, secret: bytes, initiating: bool)
    requires SeparatesLabels(pr.hkdf)
    ensures var s := NewSession(pr, magic, secret, initiating);
      var sl, sp, rl, rp := s.send.lengths.key, s.send.packets.key, s.recv.dir.lengths.key, s.recv.dir.packets.key;
      sl != sp && sl != rl && sl != rp && sp != rl && sp != rp && rl != rp
  {
    var a, b, c, d := "initiator_L", "initiator_P", "responder_L", "responder_P";
    assert a[0] != c[0] && a[|a| - 1] != b[|b| - 1] && c[|c| - 1] != d[|d| - 1] && a[0] != d[0] && b[0] != c[0];
  }

  /** What the hash of the shared secret is applied to: the initiator's key, the responder's key, and the
      elliptic-curve result. */
  function SecretInput(pr: Primitives, priv: bytes, theirs: bytes, ours: bytes, initiating: bool): Input {
    Input("bip324_ellswift_xonly_ecdh", (if initiating then ours + theirs else theirs + ours) + pr.ecdh(theirs, priv))
  }

  /** The shared secret binds both public keys, in the order of the roles, and the elliptic-curve result, unless
      the hash has a collision. */
  lemma SecretBinds(pr: Primitives, priv: bytes, theirs: bytes, ours: bytes, initiating: bool,
                    priv': bytes, theirs': bytes, ours': bytes, initiating': bool)
    requires |theirs| == |ours| == |theirs'| == |ours'| == ELLSWIFT_LEN
    requires SharedSecret(pr, priv, theirs, ours, initiating) == SharedSecret(pr, priv', theirs', ours', initiating')
    ensures TaggedCollision(pr.tagged, SecretInput(pr, priv, theirs, ours, initiating),
                            SecretInput(pr, priv', theirs', ours', initiating'))
            || (pr.ecdh(theirs, priv) == pr.ecdh(theirs', priv')
                && if initiating == initiating' then ours == ours' && theirs == theirs'
                   else ours == theirs' && theirs == ours')
  {
    var a, b := SecretInput(pr, priv, theirs, ours, initiating), SecretInput(pr, priv', theirs', ours', initiating');
    if a == b {
      var x, y := a.data, b.data;
      assert x[..64] == if initiating then ours else theirs;
      assert x[64..128] == if initiating then theirs else ours;
      assert y[..64] == if initiating' then ours' else theirs';
      assert y[64..128] == if initiating' then theirs' else ours';
      assert x[128..] == pr.ecdh(theirs, priv) && y[128..] == pr.ecdh(theirs', priv');
    }
  }

  // ---- What one end sends to complete the handshake

  /** Decoys of the chosen lengths, then the empty version packet; the first packet of all
      authenticates the garbage. */
  function HandshakePackets(garbage: bytes, decoys: seq<nat>): (r: seq<Packet>)
    ensures |r| == |decoys| + 1
  {
    seq(|decoys| + 1, i requires 0 <= i <= |decoys| =>
      Packet(if i < |decoys| then Zeros(decoys[i]) else [], if i == 0 then garbage else [], i < |decoys|))
  }

  lemma HandshakePacketsOk(garbage: bytes, decoys: seq<nat>)
    requires |garbage| <= MAX_GARBAGE_LEN && |decoys| <= 10 && forall n :: n in decoys ==> n <= 100
    ensures StreamOk(HandshakePackets(garbage, decoys))
  {
    var ps := HandshakePackets(garbage, decoys);
    forall p | p in ps
      ensures Sendable(p)
    {
      var i :| 0 <= i < |ps| && ps[i] == p;
      if i < |decoys| { assert decoys[i] in decoys; }
    }
  }

  // ---- The receiving half of the handshake

  datatype Handshake = Handshake(
    initiating: bool, privkey: bytes, ellswift: bytes, sentGarbage: bytes,
    receivedPrefix: bytes, receivedGarbage: bytes, session: Option<Session>, found: bool, tried: bool)

  function Window(s: bytes, i: nat): bytes
    requires i + TERMINATOR_LEN <= |s|
  {
    s[i..i + TERMINATOR_LEN]
  }

  datatype Search = Found(at: nat) | Short | TooLong

  /** Slide a 16-byte window over the received bytes from offset `i`, for at most 4096 offsets. */
  function FindTerminator(terminator: bytes, response: bytes, i: nat): (r: Search)
    requires |terminator| == TERMINATOR_LEN && i <= MAX_GARBAGE_LEN + 1
    ensures r.Found? ==> i <= r.at <= MAX_GARBAGE_LEN && r.at + TERMINATOR_LEN <= |response|
    decreases MAX_GARBAGE_LEN + 1 - i
  {
    if i == MAX_GARBAGE_LEN + 1 then TooLong
    else if i + TERMINATOR_LEN <= |response| && Window(response, i) == terminator then Found(i)
    else if |response| <= i + TERMINATOR_LEN then Short
    else FindTerminator(terminator, response, i + 1)
  }

  datatype Verdict = Continue | Reject | Raise

  function SetReceiver(hs: Handshake, r: Receiver): Handshake
    requires hs.session.Some?
  {
    hs.(session := Some(hs.session.value.(recv := r)))
  }

  /** The part of the state that receiving does not touch. */
  ghost predicate SameOwn(hs: Handshake, hs': Handshake) {
    hs'.(receivedGarbage := hs.receivedGarbage, session := hs.session, found := hs.found, tried := hs.tried) == hs
  }

  predicate Ready(hs: Handshake) {
    && hs.session.Some? && Receivable(hs.session.value.recv)
    && |hs.session.value.recvTerminator| == TERMINATOR_LEN
    && |hs.receivedGarbage| < U64
  }

  /** Skip decoys until the version packet; the garbage is the associated data of the first packet. */
  function AuthPackets(block: Block, hs: Handshake, response: bytes): (r: (nat, Verdict, Handshake))
    requires Ready(hs)
    ensures r.0 <= |response| && Ready(r.2) && SameOwn(hs, r.2)
    decreases |response|
  {
    var (res, recv) := Receive(block, hs.session.value.recv, response, hs.receivedGarbage);
    var hs1 := SetReceiver(hs, recv);
    match res
    case NeedMore => (0, Continue, hs1)
    case BadMac => (0, Reject, hs1)
    case Overflow => (0, Raise, hs1)
    case Got(n, contents) =>
      var hs2 := hs1.(receivedGarbage := []);
      if contents.Some? then
        if contents.value != [] then (n, Raise, hs2) else (n, Continue, hs2.(tried := true))
      else
        var (m, verdict, hs3) := AuthPackets(block, hs2, response[n..]);
        (n + m, verdict, hs3)
  }

  /** `authenticate_handshake` */
  function Authenticate(block: Block, hs: Handshake, response: bytes): (r: (nat, Verdict, Handshake))
    requires Ready(hs)
    ensures Ready(r.2) && SameOwn(hs, r.2)
    ensures r.1 == Continue ==> r.0 <= |response|
  {
    if hs.found then AuthPackets(block, hs, response)
    else match FindTerminator(hs.session.value.recvTerminator, response, 0)
      case Short => (0, Continue, hs)
      case TooLong => (TERMINATOR_LEN + MAX_GARBAGE_LEN + 1, Reject, hs)
      case Found(i) =>
        var hs1 := hs.(found := true, receivedGarbage := response[..i]);
        var (m, verdict, hs2) := AuthPackets(block, hs1, response[i + TERMINATOR_LEN..]);
        (i + TERMINATOR_LEN + m, verdict, hs2)
  }

  // ---- Properties of the receiving half

  /** The terminator does not show up before the end of the garbage. */
  ghost predicate NoEarlyTerminator(garbage: bytes, terminator: bytes)
    requires |terminator| == TERMINATOR_LEN
  {
    forall i :: 0 <= i < |garbage| ==> Window(garbage + terminator, i) != terminator
  }

  /** The search stops exactly at the end of the garbage, and only once the whole terminator is there. */
  lemma {:induction false} FindsTerminator(garbage: bytes, terminator: bytes, rest: bytes, response: bytes, i: nat)
    requires |terminator| == TERMINATOR_LEN && |garbage| <= MAX_GARBAGE_LEN
    requires NoEarlyTerminator(garbage, terminator)
    requires response <= garbage + terminator + rest && i <= |garbage|
    ensures FindTerminator(terminator, response, i)
         == if |response| < |garbage| + TERMINATOR_LEN then Short else Found(|garbage|)
    decreases |garbage| - i
  {
    if i < |garbage| {
      FindsTerminator(garbage, terminator, rest, response, i + 1);
      if i + TERMINATOR_LEN <= |response| {
        assert Window(response, i) == Window(garbage + terminator, i);
      }
    } else if i + TERMINATOR_LEN <= |response| {
      assert Window(response, i) == Window(garbage + terminator, i) == terminator;
    }
  }

  /** A peer's packets: decoys up to the empty version packet `v`, authenticated with the garbage in
      the first packet only. */
  ghost predicate PeerPackets(packets: seq<Packet>, v: nat, garbage: bytes) {
    && StreamOk(packets) && v < |packets|
    && (forall i :: 0 <= i < v ==> packets[i].ignore)
    && !packets[v].ignore && packets[v].contents == []
    && (forall i :: 0 <= i < |packets| ==> packets[i].aad == if i == 0 then garbage else [])
  }

  /** From packet `k` on, authentication consumes exactly the complete packets up to the version
      packet, and marks the handshake as done exactly when the version packet is among them. */
  lemma {:induction false} AuthPacketsInStep(block: Block, start: Direction, packets: seq<Packet>, v: nat,
                                             garbage: bytes, k: nat, hs: Handshake, buf: bytes)
    returns (k': nat)
    requires Fresh(start) && PeerPackets(packets, v, garbage) && k <= v
    requires Ready(hs) && !hs.tried && InStep(block, start, packets, k, hs.session.value.recv)
    requires hs.receivedGarbage == packets[k].aad
    requires buf <= StreamFrom(block, start, packets, k)
    ensures k <= k' <= v + 1
    ensures var (n, verdict, hs') := AuthPackets(block, hs, buf);
      && verdict == Continue
      && InStep(block, start, packets, k', hs'.session.value.recv)
      && buf[n..] <= StreamFrom(block, start, packets, k')
      && n + |StreamFrom(block, start, packets, k')| == |StreamFrom(block, start, packets, k)|
      && (hs'.tried <==> k' == v + 1)
      && (k' <= v ==> |buf[n..]| < |PacketAt(block, start, packets, k')|)
      && hs' == SetReceiver(hs, hs'.session.value.recv).(tried := hs'.tried, receivedGarbage := hs'.receivedGarbage)
      && hs'.receivedGarbage == (if k' <= v then packets[k'].aad else [])
    decreases |buf|
  {
    hide Receive, InStep, PacketAt, StreamFrom, Receivable;
    StreamFromStep(block, start, packets, k);
    ReceiveInStep(block, start, packets, k, hs.session.value.recv, buf, hs.receivedGarbage);
    var n := |PacketAt(block, start, packets, k)|;
    k' := k;
    if |buf| >= n {
      StreamFromDrop(block, start, packets, k, buf);
      k' := k + 1;
      if k < v {
        var hs1 := SetReceiver(hs, Receive(block, hs.session.value.recv, buf, hs.receivedGarbage).1)
          .(receivedGarbage := []);
        k' := AuthPacketsInStep(block, start, packets, v, garbage, k + 1, hs1, buf[n..]);
        var m := AuthPackets(block, hs1, buf[n..]).0;
        assert buf[n..][m..] == buf[n + m..];
      }
    } else {
      assert buf[0..] == buf;
    }
  }
}
