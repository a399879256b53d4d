/** The connection objects (v2_p2p.py `EncryptedP2PState`, p2p.py `P2PConnection`): each method is
    proved to take the step that the state machines V2Connection and V1Framing describe. */
module P2P {
  import opened Bytes
  import opened StreamCipher
  import opened Aead
  import opened V2Packets
  import opened V2Handshake
  import opened MessageTypes
  import opened V2Connection
  import opened V1Framing

  /** The dictionary `peer`: the ciphers and terminators of an established session. */
  class PeerState {
    const sendL: FSChaCha20
    const sendP: FSChaCha20Poly1305
    const recvL: FSChaCha20
    const recvP: FSChaCha20Poly1305
    const sendGarbageTerminator: bytes
    const recvGarbageTerminator: bytes
    const sessionId: bytes

    ghost predicate Valid(block: Block)
      reads sendL, sendP, recvL, recvP
    {
      && sendL != recvL && sendP != recvP
      && sendL.Valid() && recvL.Valid()
      && sendL.block == recvL.block == sendP.block == recvP.block == block
      && sendL.rekeyInterval == recvL.rekeyInterval == REKEY_INTERVAL
      && |recvGarbageTerminator| == TERMINATOR_LEN
    }

    ghost function Send(): Direction
      requires sendL.Valid()
      reads sendL, sendP
    {
      Direction(sendL.Pos(), sendP.State())
    }

    ghost function Recv(): Direction
      requires recvL.Valid()
      reads recvL, recvP
    {
      Direction(recvL.Pos(), recvP.State())
    }

    /** `initialize_v2_transport` */
    constructor (cfg: Config, secret: bytes, initiating: bool)
      ensures Valid(cfg.pr.block)
      ensures fresh(sendL) && fresh(sendP) && fresh(recvL) && fresh(recvP)
      ensures Session(Send(), Receiver(Recv(), -1), sendGarbageTerminator, recvGarbageTerminator, sessionId)
           == NewSession(cfg.pr, cfg.magic, secret, initiating)
    {
      var pr := cfg.pr;
      var salt := Ascii("bitcoin_v2_shared_secret") + cfg.magic;
      var initiatorL, initiatorP := pr.hkdf(salt, secret, "initiator_L"), pr.hkdf(salt, secret, "initiator_P");
      var responderL, responderP := pr.hkdf(salt, secret, "responder_L"), pr.hkdf(salt, secret, "responder_P");
      var terminators := pr.hkdf(salt, secret, "garbage_terminators");
      sessionId := pr.hkdf(salt, secret, "session_id");
      var sl := new FSChaCha20(pr.block, if initiating then initiatorL else responderL);
      var sp := new FSChaCha20Poly1305(pr.block, if initiating then initiatorP else responderP);
      var rl := new FSChaCha20(pr.block, if initiating then responderL else initiatorL);
      var rp := new FSChaCha20Poly1305(pr.block, if initiating then responderP else initiatorP);
      sendL, sendP, recvL, recvP := sl, sp, rl, rp;
      sendGarbageTerminator := if initiating then terminators[..16] else terminators[16..];
      recvGarbageTerminator := if initiating then terminators[16..] else terminators[..16];
    }
  }

  class EncryptedP2PState {
    const cfg: Config
    const initiating: bool
    var peer: PeerState?
    var privkeyOurs: bytes
    var ellswiftOurs: bytes
    var sentGarbage: bytes
    var receivedGarbage: bytes
    var receivedPrefix: bytes
    var triedV2Handshake: bool
    var contentsLen: int
    var foundGarbageTerminator: bool

    ghost function Ciphers(): set<object>
      reads this
    {
      if peer == null then {} else {peer.sendL, peer.sendP, peer.recvL, peer.recvP}
    }

    ghost predicate Valid()
      reads this, Ciphers()
    {
      && |cfg.magic| == 4
      && (peer != null ==> peer.Valid(cfg.pr.block))
      && -1 <= contentsLen <= MAX_CONTENTS_LEN
      && (peer == null ==> contentsLen == -1 && !triedV2Handshake && !foundGarbageTerminator)
      && |receivedPrefix| <= 16
      && |sentGarbage| <= MAX_GARBAGE_LEN && |receivedGarbage| < U64
    }

    ghost function View(): Handshake
      requires Valid()
      reads this, Ciphers()
    {
      Handshake(initiating, privkeyOurs, ellswiftOurs, sentGarbage, receivedPrefix, receivedGarbage,
                if peer == null then None
                else Some(Session(peer.Send(), Receiver(peer.Recv(), contentsLen), peer.sendGarbageTerminator,
                                  peer.recvGarbageTerminator, peer.sessionId)),
                foundGarbageTerminator, triedV2Handshake)
    }

    constructor (cfg: Config, initiating: bool)
      requires |cfg.magic| == 4
      ensures Valid() && this.cfg == cfg && peer == null
      ensures View() == Handshake(initiating, [], [], [], [], [], None, false, false)
    {
      this.cfg, this.initiating := cfg, initiating;
      peer := null;
      privkeyOurs, ellswiftOurs, sentGarbage, receivedGarbage, receivedPrefix := [], [], [], [], [];
      triedV2Handshake, contentsLen, foundGarbageTerminator := false, -1, false;
    }

    method GenerateKeypairAndGarbage(rnd: Random) returns (out: bytes)
      requires Valid() && Allowed(cfg, rnd)
      modifies this
      ensures Valid() && peer == old(peer)
      ensures View() == old(View()).(privkey := rnd.privkey, ellswift := rnd.ellswift, sentGarbage := rnd.garbage)
      ensures out == rnd.ellswift + rnd.garbage
    {
      privkeyOurs, ellswiftOurs := rnd.privkey, rnd.ellswift;
      sentGarbage := rnd.garbage;
      out := ellswiftOurs + sentGarbage;
    }

    /** The reply is None where the source answers -1: the other end speaks v1. */
    method RespondV2Handshake(response: bytes, rnd: Random) returns (length: nat, reply: Option<bytes>)
      requires Valid() && Allowed(cfg, rnd)
      modifies this
      ensures Valid() && peer == old(peer)
      ensures var (prefix, r) := RespondRead(V1Prefix(cfg.magic), old(receivedPrefix), response);
        && length == |prefix|
        && match r
           case IsV1 => reply == None && View() == old(View()).(receivedPrefix := prefix)
           case More => reply == Some([]) && View() == old(View()).(receivedPrefix := prefix)
           case Mismatch =>
             && reply == Some(rnd.ellswift + rnd.garbage)
             && View() == old(View()).(receivedPrefix := prefix, privkey := rnd.privkey,
                                       ellswift := rnd.ellswift, sentGarbage := rnd.garbage)
    {
      hide V1Prefix;
      var v1 := V1Prefix(cfg.magic);
      var at, mismatch := 0, false;
      while |receivedPrefix| < 16 && !mismatch
        modifies this`receivedPrefix
        invariant at <= |response| && |receivedPrefix| <= 16
        invariant RespondRead(v1, old(receivedPrefix), response)
               == if mismatch then (receivedPrefix, Mismatch) else RespondRead(v1, receivedPrefix, response[at..])
        decreases |response| - at, !mismatch
      {
        if at == |response| {
          return |receivedPrefix|, Some([]);
        }
        receivedPrefix := receivedPrefix + [response[at]];
        at := at + 1;
        mismatch := receivedPrefix[|receivedPrefix| - 1] != v1[|receivedPrefix| - 1];
      }
      length := |receivedPrefix|;
      if mismatch {
        var out := GenerateKeypairAndGarbage(rnd);
        reply := Some(out);
      } else {
        reply := None;
      }
    }

    method V2EncPacket(contents: bytes, aad: bytes, ignore: bool) returns (packet: bytes)
      requires Valid() && peer != null
      requires Sendable(Packet(contents, aad, ignore)) && Live(peer.Send())
      modifies peer.sendL, peer.sendP
      ensures Valid() && peer == old(peer)
      ensures (packet, peer.Send()) == EncPacket(cfg.pr.block, old(peer.Send()), Packet(contents, aad, ignore))
      ensures peer.Recv() == old(peer.Recv())
    {
      hide Seal, CryptSpec;
      var header := [if ignore then IGNORE_BIT else 0];
      var plaintext := header + contents;
      var aeadCiphertext := peer.sendP.Crypt(aad, Some(plaintext), false);
      var encPlaintextLen := peer.sendL.Crypt(LengthField(|contents|));
      packet := encPlaintextLen + aeadCiphertext.value;
    }

    /** `length` is 0 while bytes are missing and -1 when the MAC does not verify; `raised` stands for
        the OverflowError of an exhausted epoch counter. */
    method V2ReceivePacket(response: bytes, aad: bytes) returns (length: int, contents: Option<bytes>, raised: bool)
      requires Valid() && peer != null && |aad| < U64
      modifies this`contentsLen, peer.recvL, peer.recvP
      ensures Valid() && peer == old(peer) && peer.Send() == old(peer.Send())
      ensures var (res, r) := Receive(cfg.pr.block, Receiver(old(peer.Recv()), old(contentsLen)), response, aad);
        && Receiver(peer.Recv(), contentsLen) == r
        && match res
           case NeedMore => !raised && length == 0 && contents == None
           case BadMac => !raised && length == -1 && contents == None
           case Overflow => raised
           case Got(n, c) => !raised && length == n && contents == c
    {
      hide Open, CryptSpec, Advance, PacketNonce;
      length, contents, raised := 0, None, false;
      if contentsLen == -1 {
        if |response| < LENGTH_FIELD_LEN { return; }
        if peer.recvL.chunkCounter / REKEY_INTERVAL >= U64 {
          raised := true;
          return;
        }
        var enc := peer.recvL.Crypt(response[..LENGTH_FIELD_LEN]);
        Pow256Values();
        contentsLen := FromLE(enc);
      }
      ghost var r := Receiver(peer.Recv(), contentsLen);
      assert |response| >= LENGTH_FIELD_LEN ==>
        r == LearnLength(cfg.pr.block, Receiver(old(peer.Recv()), old(contentsLen)), response);
      var size := HEADER_LEN + contentsLen + CHACHA20POLY1305_EXPANSION;
      if |response| < LENGTH_FIELD_LEN + size { return; }
      if peer.recvP.packetCounter / REKEY_INTERVAL >= U64 {
        raised := true;
        return;
      }
      var aeadCiphertext := response[LENGTH_FIELD_LEN..LENGTH_FIELD_LEN + size];
      var plaintext := peer.recvP.Crypt(aad, Some(aeadCiphertext), true);
      if plaintext.None? {
        length := -1;
        return;
      }
      var header := plaintext.value[0];
      length := LENGTH_FIELD_LEN + size;
      contentsLen := -1;
      contents := if header >= IGNORE_BIT then None else Some(plaintext.value[1..]);
    }

    /** Returns the bytes consumed and the bytes to send; 0 and none while the peer's key is incomplete. */
    method CompleteHandshake(response: bytes, decoys: seq<nat>) returns (length: nat, msg: bytes)
      requires Valid() && peer == null
      requires |decoys| <= 10 && forall n :: n in decoys ==> 1 <= n <= 100
      modifies this
      ensures Valid()
      ensures var need := ELLSWIFT_LEN - |old(receivedPrefix)|;
        if |response| < need then length == 0 && msg == [] && peer == null && View() == old(View())
        else
          var (session, sent) := Launch(cfg, old(View()), old(receivedPrefix) + response[..need], decoys);
          && length == need && msg == sent
          && peer != null && fresh(Ciphers())
          && View() == old(View()).(session := Some(session))
    {
      hide SharedSecret, NewSession, EncPacket, HandshakePackets, DirAt, StreamTo;
      var need := ELLSWIFT_LEN - |receivedPrefix|;
      var ellswiftTheirs := receivedPrefix + (if |response| < need then response else response[..need]);
      if |ellswiftTheirs| != ELLSWIFT_LEN { return 0, []; }
      var secret := SharedSecret(cfg.pr, privkeyOurs, ellswiftTheirs, ellswiftOurs, initiating);
      peer := new PeerState(cfg, secret, initiating);
      HandshakePacketsOk(sentGarbage, decoys);
      msg := SendHandshakePackets(decoys);
      msg := peer.sendGarbageTerminator + msg;
      length := need;
    }

    /** The decoys and the version packet; the first of them authenticates the garbage. */
    method SendHandshakePackets(decoys: seq<nat>) returns (msg: bytes)
      requires Valid() && peer != null && Fresh(peer.Send())
      requires StreamOk(HandshakePackets(sentGarbage, decoys))
      modifies peer.sendL, peer.sendP
      ensures Valid() && peer.Recv() == old(peer.Recv())
      ensures var packets := HandshakePackets(sentGarbage, decoys);
        && msg == StreamTo(cfg.pr.block, old(peer.Send()), packets, |packets|)
        && peer.Send() == DirAt(cfg.pr.block, old(peer.Send()), packets, |packets|)
    {
      hide EncPacket;
      ghost var packets := HandshakePackets(sentGarbage, decoys);
      msg := [];
      var aad := sentGarbage;
      for i := 0 to |decoys|
        invariant Valid() && peer.Recv() == old(peer.Recv())
        invariant peer.Send() == DirAt(cfg.pr.block, old(peer.Send()), packets, i)
        invariant aad == if i == 0 then sentGarbage else []
        invariant msg == StreamTo(cfg.pr.block, old(peer.Send()), packets, i)
      {
        assert packets[i] == Packet(Zeros(decoys[i]), aad, true) && packets[i] in packets;
        var packet := V2EncPacket(Zeros(decoys[i]), aad, true);
        msg := msg + packet;
        aad := [];
      }
      assert packets[|decoys|] == Packet([], aad, false) && packets[|decoys|] in packets;
      var version := V2EncPacket([], aad, false);
      msg := msg + version;
    }

    /** The result `ok` is false when the other end must be disconnected; `raised` stands for an
        exception (a non-empty version packet or an exhausted epoch counter). */
    method AuthenticateHandshake(response: bytes) returns (processed: nat, ok: bool, raised: bool)
      requires Valid() && peer != null && !triedV2Handshake
      modifies this`contentsLen, this`receivedGarbage, this`foundGarbageTerminator, this`triedV2Handshake,
               peer.recvL, peer.recvP
      ensures Valid() && peer == old(peer)
      ensures var (n, verdict, hs) := Authenticate(cfg.pr.block, old(View()), response);
        && View() == hs
        && match verdict
           case Continue => !raised && ok && processed == n
           case Reject => !raised && !ok
           case Raise => raised
    {
      hide Receive, FindTerminator;
      processed, ok, raised := 0, true, false;
      var rest := response;
      if !foundGarbageTerminator {
        var at := FindGarbage(response, peer.recvGarbageTerminator);
        if at == -1 { return; }
        if at == -2 {
          ok := false;
          return;
        }
        foundGarbageTerminator := true;
        receivedGarbage := response[..at];
        processed := at + TERMINATOR_LEN;
        rest := response[processed..];
      }
      var n;
      n, ok, raised := AuthenticatePackets(rest);
      processed := processed + n;
    }

    /** The packet loop of `authenticate_handshake`. */
    method AuthenticatePackets(response: bytes) returns (processed: nat, ok: bool, raised: bool)
      requires Valid() && peer != null && !triedV2Handshake
      modifies this`contentsLen, this`receivedGarbage, this`triedV2Handshake, peer.recvL, peer.recvP
      ensures Valid() && peer == old(peer)
      ensures var (n, verdict, hs) := AuthPackets(cfg.pr.block, old(View()), response);
        && View() == hs
        && match verdict
           case Continue => !raised && ok && processed == n
           case Reject => !raised && !ok
           case Raise => raised
    {
      hide AuthPackets;
      processed, ok, raised := 0, true, false;
      var rest := response;
      while true
        invariant Valid() && peer == old(peer) && !triedV2Handshake && ok && !raised
        invariant SameOutcome(cfg.pr.block, old(View()), response, View(), rest, processed)
        decreases |rest|
      {
        var length, again;
        length, ok, raised, again := AuthenticatePacket(rest);
        processed := processed + length;
        if !again { return; }
        rest := rest[length..];
      }
    }

    /** One turn of that loop: true after a decoy, false where the source returns or raises. */
    method AuthenticatePacket(rest: bytes) returns (length: nat, ok: bool, raised: bool, again: bool)
      requires Valid() && peer != null && !triedV2Handshake
      modifies this`contentsLen, this`receivedGarbage, this`triedV2Handshake, peer.recvL, peer.recvP
      ensures Valid() && peer == old(peer)
      ensures again ==> ok && !raised && !triedV2Handshake && 0 < length <= |rest|
      ensures again ==> SameOutcome(cfg.pr.block, old(View()), rest, View(), rest[length..], length)
      ensures !again ==>
        var (n, verdict, hs) := AuthPackets(cfg.pr.block, old(View()), rest);
        && View() == hs && length == n
        && match verdict
           case Continue => !raised && ok
           case Reject => !raised && !ok
           case Raise => raised
    {
      hide Receive;
      length, ok, raised, again := 0, true, false, false;
      var size, contents, overflow := V2ReceivePacket(rest, receivedGarbage);
      if overflow {
        raised := true;
        return;
      }
      if size == -1 {
        ok := false;
        return;
      }
      if size == 0 { return; }
      length := size;
      receivedGarbage := [];
      if contents.None? {
        again := true;
      } else if contents.value != [] {
        raised := true;
      } else {
        triedV2Handshake := true;
      }
    }

    /** The scan for the garbage terminator: its offset, -1 while it may still come, -2 when more than
        4095 bytes of garbage have gone by. */
    static method FindGarbage(response: bytes, terminator: bytes) returns (at: int)
      requires |terminator| == TERMINATOR_LEN
      ensures match FindTerminator(terminator, response, 0)
              case Found(i) => at == i
              case Short => at == -1
              case TooLong => at == -2
    {
      var garbage := if |response| < TERMINATOR_LEN then response else response[..TERMINATOR_LEN];
      var rest := response[|garbage|..];
      for i := 0 to MAX_GARBAGE_LEN + 1
        invariant |garbage| <= |response| && garbage == response[..|garbage|] && rest == response[|garbage|..]
        invariant |garbage| == TERMINATOR_LEN + i || (i == 0 && |garbage| == |response| < TERMINATOR_LEN)
        invariant FindTerminator(terminator, response, i) == FindTerminator(terminator, response, 0)
      {
        var tail := if |garbage| < TERMINATOR_LEN then garbage else garbage[|garbage| - TERMINATOR_LEN..];
        assert |garbage| >= TERMINATOR_LEN ==> tail == Window(response, i);
        if tail == terminator { return i; }
        if |rest| == 0 { return -1; }
        garbage := garbage + rest[..1];
        rest := rest[1..];
      }
      return -2;
    }
  }

  /** Having consumed `n` bytes of `all`, authentication of the rest completes authentication of all. */
  ghost predicate SameOutcome(block: Block, hs0: Handshake, all: bytes, hs: Handshake, rest: bytes, n: nat) {
    && Ready(hs0) && Ready(hs)
    && var (m, verdict, hs') := AuthPackets(block, hs, rest);
       AuthPackets(block, hs0, all) == (n + m, verdict, hs')
  }

  class P2PConnection {
    const cfg: Config
    const v1: V1Config
    var v2State: EncryptedP2PState?
    var recvbuf: bytes
    /** Calls of `on_message`, and bytes handed to the transport. */
    var delivered: seq<Message>
    var written: bytes
    /** An exception has ended the connection. */
    var outcome: Outcome

    ghost function Parts(): set<object>
      reads this, v2State
    {
      if v2State == null then {} else {v2State} + v2State.Ciphers()
    }

    ghost predicate Valid()
      reads this, v2State, Parts()
    {
      v2State != null ==> v2State.Valid() && v2State.cfg == cfg
    }

    ghost function View(): Conn
      requires v2State != null && Valid()
      reads this, v2State, Parts()
    {
      Conn(v2State.View(), recvbuf, delivered, written, if outcome == Reading then Connected else Failed)
    }

    ghost function V1View(): V1State
      reads this
    {
      V1State(recvbuf, delivered, outcome)
    }

    /** A connection that has not received anything; `state` is None for v1. */
    constructor (cfg: Config, v1: V1Config, state: EncryptedP2PState?)
      requires state != null ==> state.Valid() && state.cfg == cfg
      ensures Valid() && v2State == state && this.cfg == cfg && this.v1 == v1
      ensures V1View() == V1State([], [], Reading) && written == []
    {
      this.cfg, this.v1, v2State := cfg, v1, state;
      recvbuf, delivered, written, outcome := [], [], [], Reading;
    }

    method BuildV2Message(m: Message, isDecoy: bool) returns (packet: bytes)
      requires Valid() && v2State != null && v2State.peer != null && |cfg.tables.shortIds| < 256
      requires Sendable(Packet(EncodeMessage(cfg.tables, m), [], isDecoy)) && Live(v2State.peer.Send())
      modifies v2State.peer.sendL, v2State.peer.sendP
      ensures Valid()
      ensures (packet, v2State.peer.Send())
           == EncPacket(cfg.pr.block, old(v2State.peer.Send()), Packet(EncodeMessage(cfg.tables, m), [], isDecoy))
    {
      packet := v2State.V2EncPacket(EncodeMessage(cfg.tables, m), [], isDecoy);
    }

    method OnDataV2()
      requires Valid() && v2State != null && v2State.peer != null && outcome == Reading
      modifies this, Parts()
      ensures Valid() && v2State == old(v2State) && v2State.peer == old(v2State.peer)
      ensures View() == OnData(cfg, old(View()))
    {
      hide OnData;
      while true
        invariant Valid() && v2State == old(v2State) && v2State.peer == old(v2State.peer) && outcome == Reading
        invariant OnData(cfg, old(View())) == OnData(cfg, View())
        decreases |recvbuf|
      {
        var again := OneV2Packet();
        if !again { return; }
      }
    }

    /** One turn of the loop; false where the source returns or raises. */
    method OneV2Packet() returns (again: bool)
      requires Valid() && v2State != null && v2State.peer != null && outcome == Reading
      modifies this, Parts()
      ensures Valid() && v2State == old(v2State) && v2State.peer == old(v2State.peer)
      ensures again ==> outcome == Reading && |recvbuf| < old(|recvbuf|) && OnData(cfg, View()) == OnData(cfg, old(View()))
      ensures !again ==> View() == OnData(cfg, old(View()))
    {
      hide Receive, DecodeMessage;
      again := false;
      var msglen, msg, raised := v2State.V2ReceivePacket(recvbuf, []);
      if raised || msglen == -1 {
        outcome := Closed;
        return;
      }
      if msglen == 0 { return; }
      recvbuf := recvbuf[msglen..];
      if msg.None? { return; }
      var m := DecodeMessage(cfg.tables, msg.value);
      if m.None? {
        outcome := Closed;
        return;
      }
      delivered := delivered + [m.value];
      again := true;
    }

    method OnDataV1()
      requires Valid() && outcome == Reading
      modifies this
      ensures Valid() && v2State == old(v2State) && written == old(written)
      ensures V1View() == V1Framing.OnDataV1(v1, old(V1View()))
    {
      hide NextFrame;
      while true
        invariant Valid() && v2State == old(v2State) && written == old(written) && outcome == Reading
        invariant V1Framing.OnDataV1(v1, old(V1View())) == V1Framing.OnDataV1(v1, V1View())
        decreases |recvbuf|
      {
        var turn := ReadFrame();
        match turn
        case Wait => return;
        case Bad =>
          outcome := Closed;
          return;
        case Frame(size, m) =>
          if size == 0 {
            outcome := Endless;
            return;
          }
          recvbuf := recvbuf[size..];
          delivered := delivered + [m];
      }
    }

    method ReadFrame() returns (turn: Turn)
      ensures turn == NextFrame(v1, recvbuf)
    {
      if |recvbuf| < 4 { return Wait; }
      if recvbuf[..4] != v1.magic { return Bad; }
      if |recvbuf| < HEADER_SIZE { return Wait; }
      var msgtype := UntilZero(recvbuf[4..16]);
      var msglen := FromLESigned(recvbuf[16..20]);
      var checksum := recvbuf[20..24];
      if |recvbuf| < HEADER_SIZE + msglen { return Wait; }
      var msg := Slice(recvbuf, HEADER_SIZE, HEADER_SIZE + msglen);
      if checksum != v1.checksum(msg) || msgtype !in v1.known { return Bad; }
      turn := Frame(Clip(|recvbuf|, HEADER_SIZE + msglen), Message(msgtype, msg));
    }

    method OnDataV2Handshake(rnd: Random)
      requires Valid() && v2State != null && !v2State.triedV2Handshake && outcome == Reading && Allowed(cfg, rnd)
      modifies this, Parts()
      ensures Valid()
      ensures var r := HandshakeData(cfg, old(View()), rnd);
        if r.status == Downgraded then v2State == null && V1View() == V1State(r.recvbuf, r.delivered, Reading)
        else v2State == old(v2State) && View() == r
    {
      hide RespondRead, CompleteStep, AuthStep;
      if v2State.peer == null {
        if !v2State.initiating && v2State.sentGarbage == [] {
          var length, reply := v2State.RespondV2Handshake(recvbuf, rnd);
          recvbuf := Drop(recvbuf, length);
          if reply.None? {
            v2State := null;
            return;
          }
          if reply.value == [] { return; }
          assert written + reply.value == written + rnd.ellswift + rnd.garbage;
          written := written + reply.value;
        }
        Complete(rnd);
      } else {
        Authenticate();
      }
    }

    /** The middle of `_on_data_v2_handshake`: the keys, then whatever else has arrived. */
    method Complete(rnd: Random)
      requires Valid() && v2State != null && v2State.peer == null && outcome == Reading && Allowed(cfg, rnd)
      modifies this, v2State
      ensures Valid() && v2State == old(v2State)
      ensures View() == CompleteStep(cfg, old(View()), rnd)
    {
      hide Launch, AuthStep;
      var length, response := v2State.CompleteHandshake(recvbuf, rnd.decoys);
      recvbuf := Drop(recvbuf, length);
      if response == [] { return; }
      written := written + response;
      Authenticate();
    }

    /** The second half of `_on_data_v2_handshake`, once the keys are there. */
    method Authenticate()
      requires Valid() && v2State != null && v2State.peer != null && !v2State.triedV2Handshake && outcome == Reading
      modifies this, Parts()
      ensures Valid() && v2State == old(v2State)
      ensures View() == AuthStep(cfg, old(View()))
    {
      hide V2Handshake.Authenticate, OnData;
      var processed, ok, raised := v2State.AuthenticateHandshake(recvbuf);
      if raised || !ok {
        outcome := Closed;
        return;
      }
      recvbuf := recvbuf[processed..];
      if v2State.triedV2Handshake {
        if |recvbuf| > 0 { OnDataV2(); }
      }
    }

    method DataReceived(t: bytes, rnd: Random)
      requires Valid() && outcome == Reading && Allowed(cfg, rnd)
      modifies this, Parts()
      ensures Valid()
      ensures old(v2State) == null ==>
        && v2State == null
        && V1View() == FeedV1Step(v1, old(V1View()), t)
      ensures old(v2State) != null ==>
        var r := V2Connection.DataReceived(cfg, old(View()), t, rnd);
        if r.status == Downgraded then v2State == null && V1View() == V1State(r.recvbuf, r.delivered, Reading)
        else v2State == old(v2State) && View() == r
    {
      hide HandshakeData, OnData, V1Framing.OnDataV1;
      if |t| > 0 {
        recvbuf := recvbuf + t;
        if v2State != null && !v2State.triedV2Handshake {
          OnDataV2Handshake(rnd);
        } else if v2State != null {
          OnDataV2();
        } else {
          OnDataV1();
        }
      }
    }
  }
}
