/** A v2 connection as a state machine over received bytes (p2p.py, v2_p2p.py), and what every
    fragmentation of the peer's byte stream leads to. */
module V2Connection {
  import opened Bytes
  import opened StreamCipher
  import opened V2Packets
  import opened V2Handshake
  import opened MessageTypes

  datatype Status = Connected | Failed | Downgraded

  /** `written` is everything handed to the transport, `delivered` everything given to `on_message`. */
  datatype Conn = Conn(hs: Handshake, recvbuf: bytes, delivered: seq<Message>, written: bytes, status: Status)

  datatype Config = Config(pr: Primitives, magic: bytes, tables: Tables)

  /** The random choices of one call: a key pair with garbage, and the lengths of the decoys. */
  datatype Random = Random(privkey: bytes, ellswift: bytes, garbage: bytes, decoys: seq<nat>)

  predicate Allowed(cfg: Config, rnd: Random) {
    && |cfg.magic| == 4
    && |rnd.ellswift| == ELLSWIFT_LEN && |rnd.garbage| <= MAX_GARBAGE_LEN
    && |rnd.decoys| <= 10 && forall n :: n in rnd.decoys ==> 1 <= n <= 100
  }

  predicate Consistent(c: Conn) {
    && |c.hs.receivedPrefix| <= 16
    && |c.hs.sentGarbage| <= MAX_GARBAGE_LEN
    && |c.hs.receivedGarbage| < U64
    && (c.hs.tried ==> c.hs.session.Some?)
    && (c.hs.session.Some? ==> Ready(c.hs))
  }

  function Drop(s: bytes, n: nat): bytes { if n <= |s| then s[n..] else [] }

  // ---- The steps

  /** `_on_data` after the handshake. A decoy ends the call, whatever is still buffered. */
  function OnData(cfg: Config, c: Conn): (r: Conn)
    requires c.hs.session.Some? && Consistent(c)
    ensures r.hs.session.Some? && Consistent(r)
    ensures r.status == Downgraded ==> c.status == Downgraded
    decreases |c.recvbuf|
  {
    var (res, recv) := Receive(cfg.pr.block, c.hs.session.value.recv, c.recvbuf, []);
    var c1 := c.(hs := SetReceiver(c.hs, recv));
    match res
    case NeedMore => c1
    case BadMac => c1.(status := Failed)
    case Overflow => c1.(status := Failed)
    case Got(n, contents) =>
      var c2 := c1.(recvbuf := c.recvbuf[n..]);
      if contents.None? then c2
      else
        var m := DecodeMessage(cfg.tables, contents.value);
        if m.None? then c2.(status := Failed)
        else OnData(cfg, c2.(delivered := c.delivered + [m.value]))
  }

  function V1Prefix(magic: bytes): (r: bytes)
    requires |magic| == 4
    ensures |r| == 16
  {
    magic + Ascii("version") + Zeros(5)
  }

  datatype Reply = More | Mismatch | IsV1

  /** The responder compares byte after byte with the start of a v1 version message. */
  function RespondRead(v1: bytes, prefix: bytes, buf: bytes): (r: (bytes, Reply))
    requires |v1| == 16 && |prefix| <= 16
    ensures |prefix| <= |r.0| <= 16 && |r.0| - |prefix| <= |buf|
    ensures r.0 == prefix + buf[..|r.0| - |prefix|]
    decreases |buf|
  {
    if |prefix| == 16 then (prefix, IsV1)
    else if buf == [] then (prefix, More)
    else
      var p := prefix + [buf[0]];
      if buf[0] != v1[|p| - 1] then (p, Mismatch) else RespondRead(v1, p, buf[1..])
  }

  function AuthStep(cfg: Config, c: Conn): (r: Conn)
    requires c.hs.session.Some? && Consistent(c)
    ensures Consistent(r)
    ensures r.status == Downgraded ==> c.status == Downgraded
  {
    var (n, verdict, hs) := Authenticate(cfg.pr.block, c.hs, c.recvbuf);
    var c1 := c.(hs := hs);
    if verdict != Continue then c1.(status := Failed)
    else
      var c2 := c1.(recvbuf := c.recvbuf[n..]);
      if hs.tried && c2.recvbuf != [] then OnData(cfg, c2) else c2
  }

  /** The session derived from the peer's key, after sending the handshake packets, and the bytes
      sent: the garbage terminator, the decoys and the version packet. */
  function Launch(cfg: Config, hs: Handshake, theirs: bytes, decoys: seq<nat>): (r: (Session, bytes))
    requires |hs.sentGarbage| <= MAX_GARBAGE_LEN && |decoys| <= 10 && forall n :: n in decoys ==> n <= 100
    ensures Receivable(r.0.recv) && |r.0.recvTerminator| == TERMINATOR_LEN && |r.1| >= TERMINATOR_LEN
  {
    var s := FreshSession(cfg, hs.initiating, hs.privkey, hs.ellswift, theirs);
    var packets := HandshakePackets(hs.sentGarbage, decoys);
    HandshakePacketsOk(hs.sentGarbage, decoys);
    (s.(send := DirAt(cfg.pr.block, s.send, packets, |packets|)),
     s.sendTerminator + StreamTo(cfg.pr.block, s.send, packets, |packets|))
  }

  function FreshSession(cfg: Config, initiating: bool, privkey: bytes, ours: bytes, theirs: bytes): (s: Session)
    ensures Fresh(s.send) && Fresh(s.recv.dir) && s.recv.contentsLen == -1
    ensures |s.recvTerminator| == |s.sendTerminator| == TERMINATOR_LEN
  {
    NewSession(cfg.pr, cfg.magic, SharedSecret(cfg.pr, privkey, theirs, ours, initiating), initiating)
  }

  function Completed(cfg: Config, c: Conn, theirs: bytes, decoys: seq<nat>): (r: Conn)
    requires Consistent(c) && c.hs.session.None?
    requires |decoys| <= 10 && forall n :: n in decoys ==> n <= 100
    ensures r.hs.session.Some? && Consistent(r)
  {
    hide Launch;
    var (session, msg) := Launch(cfg, c.hs, theirs, decoys);
    c.(hs := c.hs.(session := Some(session)), written := c.written + msg)
  }

  /** `complete_handshake`, once all 64 bytes of the peer's key are there. */
  function CompleteStep(cfg: Config, c: Conn, rnd: Random): (r: Conn)
    requires Consistent(c) && c.hs.session.None? && Allowed(cfg, rnd)
    ensures Consistent(r)
    ensures r.status == Downgraded ==> c.status == Downgraded
  {
    var need := ELLSWIFT_LEN - |c.hs.receivedPrefix|;
    if |c.recvbuf| < need then c
    else
      var theirs := c.hs.receivedPrefix + c.recvbuf[..need];
      AuthStep(cfg, Completed(cfg, c, theirs, rnd.decoys).(recvbuf := c.recvbuf[need..]))
  }

  /** `_on_data_v2_handshake` */
  function HandshakeData(cfg: Config, c: Conn, rnd: Random): (r: Conn)
    requires Consistent(c) && Allowed(cfg, rnd)
    ensures Consistent(r)
  {
    if c.hs.session.Some? then AuthStep(cfg, c)
    else if c.hs.initiating || c.hs.sentGarbage != [] then CompleteStep(cfg, c, rnd)
    else
      var (prefix, reply) := RespondRead(V1Prefix(cfg.magic), c.hs.receivedPrefix, c.recvbuf);
      var c1 := c.(hs := c.hs.(receivedPrefix := prefix), recvbuf := Drop(c.recvbuf, |prefix|));
      match reply
      case IsV1 => c1.(status := Downgraded)
      case More => c1
      case Mismatch =>
        CompleteStep(cfg, c1.(hs := c1.hs.(privkey := rnd.privkey, ellswift := rnd.ellswift, sentGarbage := rnd.garbage),
                              written := c.written + rnd.ellswift + rnd.garbage), rnd)
  }

  /** `data_received` */
  function DataReceived(cfg: Config, c: Conn, t: bytes, rnd: Random): (r: Conn)
    requires Consistent(c) && Allowed(cfg, rnd)
    ensures Consistent(r)
  {
    if t == [] then c
    else
      var c1 := c.(recvbuf := c.recvbuf + t);
      if !c.hs.tried then HandshakeData(cfg, c1, rnd) else OnData(cfg, c1)
  }

  /** A sequence of socket reads; an exception or a downgrade ends the v2 connection. */
  function Feed(cfg: Config, c: Conn, chunks: seq<bytes>, rnds: seq<Random>): (r: Conn)
    requires Consistent(c) && |chunks| == |rnds| && forall rnd :: rnd in rnds ==> Allowed(cfg, rnd)
    ensures Consistent(r)
  {
    if chunks == [] then c
    else
      var n := |chunks| - 1;
      assert rnds[n] in rnds && forall rnd :: rnd in rnds[..n] ==> rnd in rnds;
      var before := Feed(cfg, c, chunks[..n], rnds[..n]);
      if before.status != Connected then before else DataReceived(cfg, before, chunks[n], rnds[n])
  }
}
