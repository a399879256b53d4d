/** Two endpoints: each is the peer the other expects. */
module V2Endpoints {
  import opened Bytes
  import opened StreamCipher
  import opened V2Packets
  import opened V2Handshake
  import opened MessageTypes
  import opened V2Connection
  import opened V2Delivery

  /** What an endpoint that has completed its part of the handshake is for the other side. */
  function AsPeer(cfg: Config, hs: Handshake, theirs: bytes, decoys: seq<nat>, app: seq<Packet>): Peer {
    var s := FreshSession(cfg, hs.initiating, hs.privkey, hs.ellswift, theirs);
    Peer(hs.ellswift, hs.sentGarbage, s.sendTerminator, s.send,
         HandshakePackets(hs.sentGarbage, decoys) + app, |decoys|)
  }

  ghost predicate AppPackets(cfg: Config, app: seq<Packet>) {
    && |app| < REKEY_INTERVAL * U64 - 11
    && forall p :: p in app ==>
         Sendable(p) && p.aad == [] && (!p.ignore ==> DecodeMessage(cfg.tables, p.contents).Some?)
  }

  /** The two sides of one handshake: any keys, garbage and decoys. If the elliptic-curve results
      agree and the terminator does not occur early, `b` is a peer that `a` can be run against. */
  lemma EndpointIsGoodPeer(cfg: Config, a: Handshake, b: Handshake, decoys: seq<nat>, app: seq<Packet>)
    requires a.initiating != b.initiating
    requires cfg.pr.ecdh(b.ellswift, a.privkey) == cfg.pr.ecdh(a.ellswift, b.privkey)
    requires |b.ellswift| == ELLSWIFT_LEN && |b.sentGarbage| <= MAX_GARBAGE_LEN
    requires |decoys| <= 10 && forall n :: n in decoys ==> n <= 100
    requires AppPackets(cfg, app)
    requires NoEarlyTerminator(b.sentGarbage, FreshSession(cfg, b.initiating, b.privkey, b.ellswift, a.ellswift).sendTerminator)
    ensures GoodPeer(cfg, AsPeer(cfg, b, a.ellswift, decoys, app))
    ensures Matches(cfg, AsPeer(cfg, b, a.ellswift, decoys, app), a)
  {
    hide SharedSecret, NewSession, NoEarlyTerminator;
    var p := AsPeer(cfg, b, a.ellswift, decoys, app);
    HandshakePacketsOk(b.sentGarbage, decoys);
    PeerPacketsOf(b.sentGarbage, decoys, app);
    forall i | p.v < i < |p.packets| && !p.packets[i].ignore
      ensures DecodeMessage(cfg.tables, p.packets[i].contents).Some?
    {
      assert p.packets[i] == app[i - |decoys| - 1];
    }
    if a.initiating {
      SessionsMirror(cfg.pr, cfg.magic, a.privkey, a.ellswift, b.privkey, b.ellswift);
    } else {
      SessionsMirror(cfg.pr, cfg.magic, b.privkey, b.ellswift, a.privkey, a.ellswift);
    }
  }

  lemma PeerPacketsOf(garbage: bytes, decoys: seq<nat>, app: seq<Packet>)
    requires |garbage| <= MAX_GARBAGE_LEN && |decoys| <= 10 && forall n :: n in decoys ==> n <= 100
    requires |app| < REKEY_INTERVAL * U64 - 11
    requires forall p :: p in app ==> Sendable(p) && p.aad == []
    ensures PeerPackets(HandshakePackets(garbage, decoys) + app, |decoys|, garbage)
  {
    HandshakePacketsOk(garbage, decoys);
    var hp := HandshakePackets(garbage, decoys);
    var all := hp + app;
    forall i | 0 <= i < |all|
      ensures all[i].aad == if i == 0 then garbage else []
    {
      if i >= |hp| { assert all[i] == app[i - |hp|]; }
    }
    forall p | p in all
      ensures Sendable(p)
    {
      assert p in hp || p in app;
    }
  }

  /** What the endpoint writes when it completes the handshake is the beginning of that peer's wire. */
  lemma EndpointWritesWire(cfg: Config, hs: Handshake, theirs: bytes, decoys: seq<nat>, app: seq<Packet>)
    requires |hs.sentGarbage| <= MAX_GARBAGE_LEN && |decoys| <= 10 && forall n :: n in decoys ==> n <= 100
    requires |app| < REKEY_INTERVAL * U64 - 11 && forall p :: p in app ==> Sendable(p) && p.aad == []
    ensures var p := AsPeer(cfg, hs, theirs, decoys, app);
      && StreamOk(p.packets)
      && hs.ellswift + hs.sentGarbage + Launch(cfg, hs, theirs, decoys).1 <= Wire(cfg, p)
      && Launch(cfg, hs, theirs, decoys).0.send == DirAt(cfg.pr.block, p.start, p.packets, |decoys| + 1)
  {
    hide FreshSession, StreamTo, StreamFrom, DirAt, HandshakePackets;
    var p := AsPeer(cfg, hs, theirs, decoys, app);
    var hp := HandshakePackets(hs.sentGarbage, decoys);
    HandshakePacketsOk(hs.sentGarbage, decoys);
    PeerPacketsOf(hs.sentGarbage, decoys, app);
    StreamToPrefix(cfg.pr.block, p.start, hp, app, |hp|);
    StreamSplit(cfg.pr.block, p.start, p.packets, |hp|);
    var sent, rest := StreamTo(cfg.pr.block, p.start, hp, |hp|), Stream(cfg, p, |hp|);
    PrefixOfWire(hs.ellswift + hs.sentGarbage, p.terminator, sent, rest);
  }

  lemma PrefixOfWire(head: bytes, terminator: bytes, sent: bytes, rest: bytes)
    ensures head + (terminator + sent) <= head + terminator + (sent + rest)
  {}
}
