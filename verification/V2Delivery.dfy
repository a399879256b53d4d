/** What a v2 connection has accepted and delivered after any fragmentation of the peer's bytes. */
module V2Delivery {
  import opened Bytes
  import opened StreamCipher
  import opened V2Packets
  import opened V2Handshake
  import opened MessageTypes
  import opened V2Connection

  /** Everything the peer sends: its key, its garbage and terminator, then decoys, the version
      packet (number `v`) and application packets, encrypted from fresh ciphers. */
  datatype Peer = Peer(ellswift: bytes, garbage: bytes, terminator: bytes, start: Direction,
                       packets: seq<Packet>, v: nat)

  ghost predicate GoodPeer(cfg: Config, p: Peer) {
    && |p.ellswift| == ELLSWIFT_LEN && |p.garbage| <= MAX_GARBAGE_LEN && |p.terminator| == TERMINATOR_LEN
    && NoEarlyTerminator(p.garbage, p.terminator)
    && Fresh(p.start) && StreamOk(p.packets) && p.v < |p.packets| && PeerPackets(p.packets, p.v, p.garbage)
    && forall i :: p.v < i < |p.packets| && !p.packets[i].ignore ==>
         DecodeMessage(cfg.tables, p.packets[i].contents).Some?
  }

  function Stream(cfg: Config, p: Peer, k: nat): bytes
    requires Fresh(p.start) && StreamOk(p.packets) && k <= |p.packets|
  {
    StreamFrom(cfg.pr.block, p.start, p.packets, k)
  }

  function PacketBytes(cfg: Config, p: Peer, k: nat): bytes
    requires Fresh(p.start) && StreamOk(p.packets) && k < |p.packets|
  {
    PacketAt(cfg.pr.block, p.start, p.packets, k)
  }

  ghost predicate Accepted(cfg: Config, p: Peer, k: nat, r: Receiver)
    requires Fresh(p.start) && StreamOk(p.packets) && k <= |p.packets|
  {
    InStep(cfg.pr.block, p.start, p.packets, k, r)
  }

  function Wire(cfg: Config, p: Peer): bytes
    requires Fresh(p.start) && StreamOk(p.packets)
  {
    p.ellswift + p.garbage + p.terminator + Stream(cfg, p, 0)
  }

  /** The offset of packet `k` in everything the peer sends. */
  function Offset(cfg: Config, p: Peer, k: nat): int
    requires Fresh(p.start) && StreamOk(p.packets) && k <= |p.packets|
  {
    |Wire(cfg, p)| - |Stream(cfg, p, k)|
  }

  lemma WireFrom(cfg: Config, p: Peer, k: nat)
    requires Fresh(p.start) && StreamOk(p.packets) && k <= |p.packets|
    ensures 0 <= Offset(cfg, p, k)
    ensures Wire(cfg, p)[Offset(cfg, p, k)..] == Stream(cfg, p, k)
    ensures Offset(cfg, p, 0) == |p.ellswift| + |p.garbage| + |p.terminator|
  {
    hide StreamTo, StreamFrom;
    StreamSplit(cfg.pr.block, p.start, p.packets, k);
    DropTwo(p.ellswift + p.garbage + p.terminator, StreamTo(cfg.pr.block, p.start, p.packets, k), Stream(cfg, p, k));
  }

  lemma DropTwo(a: bytes, b: bytes, c: bytes)
    ensures (a + (b + c))[|a| + |b|..] == c
  {}

  /** The messages of the packets after the version packet and before packet `k`; decoys carry none. */
  function Delivered(cfg: Config, p: Peer, k: nat): (r: seq<Message>)
    requires GoodPeer(cfg, p) && k <= |p.packets|
  {
    if k <= p.v + 1 then []
    else if p.packets[k - 1].ignore then Delivered(cfg, p, k - 1)
    else Delivered(cfg, p, k - 1) + [DecodeMessage(cfg.tables, p.packets[k - 1].contents).value]
  }

  /** `_on_data` stops at an incomplete packet, at the end of the stream, or right after a decoy. */
  ghost predicate Stopped(cfg: Config, p: Peer, k: nat, buf: bytes)
    requires GoodPeer(cfg, p) && 0 < k <= |p.packets|
  {
    k < |p.packets| ==> |buf| < |PacketBytes(cfg, p, k)| || p.packets[k - 1].ignore
  }

  lemma ReceiveAtEnd(cfg: Config, p: Peer, r: Receiver)
    requires GoodPeer(cfg, p) && Receivable(r) && Accepted(cfg, p, |p.packets|, r)
    ensures Receive(cfg.pr.block, r, [], []) == (NeedMore, r)
  {}

  ghost predicate Suffix(s: bytes, t: bytes) {
    |s| <= |t| && t[|t| - |s|..] == s
  }

  lemma SuffixOfDrop(s: bytes, t: bytes, n: nat)
    requires n <= |t| && Suffix(s, t[n..])
    ensures Suffix(s, t)
  {
    assert t[n..][|t| - n - |s|..] == t[|t| - |s|..];
  }

  lemma SuffixSelf(t: bytes, n: nat)
    requires n <= |t|
    ensures Suffix(t, t) && Suffix(t[n..], t)
  {
    assert t[0..] == t;
  }

  /** One call of `_on_data` on what is buffered of the stream from packet `k`. */
  lemma {:induction false} OnDataInStep(cfg: Config, p: Peer, k: nat, c: Conn) returns (k': nat)
    requires GoodPeer(cfg, p) && p.v < k <= |p.packets|
    requires Consistent(c) && c.status == Connected && c.hs.session.Some?
    requires Accepted(cfg, p, k, c.hs.session.value.recv)
    requires c.recvbuf <= Stream(cfg, p, k) && c.delivered == Delivered(cfg, p, k)
    ensures k <= k' <= |p.packets|
    ensures var r := OnData(cfg, c);
      && r.status == Connected && r.hs.session.Some? && r.hs == SetReceiver(c.hs, r.hs.session.value.recv)
      && Accepted(cfg, p, k', r.hs.session.value.recv)
      && Suffix(r.recvbuf, c.recvbuf)
      && |c.recvbuf| - |r.recvbuf| == |Stream(cfg, p, k)| - |Stream(cfg, p, k')|
      && r.delivered == Delivered(cfg, p, k')
      && Stopped(cfg, p, k', r.recvbuf)
    decreases |c.recvbuf|
  {
    hide Receive, InStep, PacketAt, StreamFrom, Receivable, PeerPackets, StreamOk, DecodeMessage, Suffix;
    k' := k;
    var recv := c.hs.session.value.recv;
    SuffixSelf(c.recvbuf, 0);
    if k == |p.packets| {
      AtEnd(cfg, p);
      assert c.recvbuf == [];
      ReceiveAtEnd(cfg, p, recv);
    } else {
      AadAt(p, k);
      ReceiveInStep(cfg.pr.block, p.start, p.packets, k, recv, c.recvbuf, []);
      StreamFromStep(cfg.pr.block, p.start, p.packets, k);
      var n := |PacketBytes(cfg, p, k)|;
      if |c.recvbuf| >= n {
        StreamFromDrop(cfg.pr.block, p.start, p.packets, k, c.recvbuf);
        SuffixSelf(c.recvbuf, n);
        k' := k + 1;
        if !p.packets[k].ignore {
          var m := DecodeMessage(cfg.tables, p.packets[k].contents).value;
          var c1 := c.(hs := SetReceiver(c.hs, Receive(cfg.pr.block, recv, c.recvbuf, []).1),
                       recvbuf := c.recvbuf[n..], delivered := c.delivered + [m]);
          assert OnData(cfg, c) == OnData(cfg, c1);
          k' := OnDataInStep(cfg, p, k + 1, c1);
          SuffixOfDrop(OnData(cfg, c1).recvbuf, c.recvbuf, n);
        }
      }
    }
  }

  lemma AtEnd(cfg: Config, p: Peer)
    requires Fresh(p.start) && StreamOk(p.packets)
    ensures Stream(cfg, p, |p.packets|) == []
  {}

  lemma AadAt(p: Peer, k: nat)
    requires PeerPackets(p.packets, p.v, p.garbage) && p.v < k < |p.packets|
    ensures p.packets[k].aad == []
  {}

  // ---- The state of the connection after `m` bytes of the wire, `k` packets accepted

  /** Our own keys lead to the receiving state that mirrors the peer's sending state. */
  ghost predicate Matches(cfg: Config, p: Peer, hs: Handshake) {
    var s := FreshSession(cfg, hs.initiating, hs.privkey, hs.ellswift, p.ellswift);
    s.recv == Receiver(p.start, -1) && s.recvTerminator == p.terminator
  }

  /** Our key and garbage are sent; the peer's 64-byte key is not complete. */
  ghost predicate WaitingForKey(cfg: Config, p: Peer, c: Conn, m: nat)
    requires GoodPeer(cfg, p) && m <= |Wire(cfg, p)|
  {
    var n := |c.hs.receivedPrefix|;
    && c.hs.session.None? && !c.hs.found && Matches(cfg, p, c.hs)
    && (c.hs.initiating || c.hs.sentGarbage != [])
    && n <= m < ELLSWIFT_LEN
    && c.hs.receivedPrefix == Wire(cfg, p)[..n] && c.recvbuf == Wire(cfg, p)[n..m]
    && c.delivered == []
  }

  /** The keys are known; the garbage terminator has not been seen. */
  ghost predicate InGarbage(cfg: Config, p: Peer, c: Conn, m: nat)
    requires GoodPeer(cfg, p) && m <= |Wire(cfg, p)|
  {
    && c.hs.session.Some? && !c.hs.found && !c.hs.tried
    && c.hs.session.value.recv == Receiver(p.start, -1) && c.hs.session.value.recvTerminator == p.terminator
    && ELLSWIFT_LEN <= m && c.recvbuf == Wire(cfg, p)[ELLSWIFT_LEN..m]
    && c.delivered == []
  }

  /** Packets `0 .. k` are accepted and everything after them is still in the buffer. */
  ghost predicate InPackets(cfg: Config, p: Peer, c: Conn, m: nat, k: nat)
    requires GoodPeer(cfg, p) && m <= |Wire(cfg, p)| && k <= |p.packets|
  {
    && c.hs.session.Some? && c.hs.found && (c.hs.tried <==> k > p.v)
    && Accepted(cfg, p, k, c.hs.session.value.recv)
    && 0 <= Offset(cfg, p, k) <= m && c.recvbuf == Wire(cfg, p)[Offset(cfg, p, k)..m]
    && c.delivered == Delivered(cfg, p, k)
    && (k <= p.v ==> c.hs.receivedGarbage == p.packets[k].aad)
  }

  ghost predicate Reached(cfg: Config, p: Peer, c: Conn, m: nat, k: nat)
    requires GoodPeer(cfg, p)
  {
    hide Wire, StreamFrom, PacketAt, PeerPackets, NoEarlyTerminator;
    && m <= |Wire(cfg, p)| && k <= |p.packets|
    && Consistent(c) && c.status == Connected
    && if c.hs.session.None? then k == 0 && WaitingForKey(cfg, p, c, m)
       else if !c.hs.found then
         k == 0 && InGarbage(cfg, p, c, m) && m < ELLSWIFT_LEN + |p.garbage| + TERMINATOR_LEN
       else
         InPackets(cfg, p, c, m, k)
         && if k <= p.v then |c.recvbuf| < |PacketBytes(cfg, p, k)| else Stopped(cfg, p, k, c.recvbuf)
  }

  lemma BufferedIsPrefix(cfg: Config, p: Peer, m: nat, k: nat)
    requires GoodPeer(cfg, p) && k <= |p.packets| && 0 <= Offset(cfg, p, k) <= m <= |Wire(cfg, p)|
    ensures Wire(cfg, p)[Offset(cfg, p, k)..m] <= Stream(cfg, p, k)
  {
    hide Wire, Stream;
    WireFrom(cfg, p, k);
    SliceIsPrefix(Wire(cfg, p), Offset(cfg, p, k), m);
  }

  lemma SliceIsPrefix(w: bytes, a: nat, m: nat)
    requires a <= m <= |w|
    ensures w[a..m] <= w[a..]
  {}

  /** What remains after packets `k .. k'` are taken off the buffer. */
  lemma BufferAfter(cfg: Config, p: Peer, m: nat, k: nat, k': nat, rest: bytes)
    requires GoodPeer(cfg, p) && k <= k' <= |p.packets| && 0 <= Offset(cfg, p, k) <= m <= |Wire(cfg, p)|
    requires Suffix(rest, Wire(cfg, p)[Offset(cfg, p, k)..m])
    requires m - Offset(cfg, p, k) - |rest| == |Stream(cfg, p, k)| - |Stream(cfg, p, k')|
    ensures 0 <= Offset(cfg, p, k') <= m
    ensures rest == Wire(cfg, p)[Offset(cfg, p, k')..m]
  {
    hide Wire, StreamFrom;
    WireFrom(cfg, p, k');
  }

  lemma DeliveredBeforeVersion(cfg: Config, p: Peer, k: nat)
    requires GoodPeer(cfg, p) && k <= p.v + 1
    ensures Delivered(cfg, p, k) == []
  {}

  /** `_on_data` keeps the correspondence. */
  lemma OnDataReaches(cfg: Config, p: Peer, c: Conn, m: nat, k: nat) returns (k': nat)
    requires GoodPeer(cfg, p) && m <= |Wire(cfg, p)| && p.v < k <= |p.packets|
    requires Consistent(c) && c.status == Connected && InPackets(cfg, p, c, m, k)
    ensures k <= k' && Reached(cfg, p, OnData(cfg, c), m, k')
  {
    hide GoodPeer, Wire, StreamFrom, InStep, Offset, Delivered, OnData, Stopped;
    BufferedIsPrefix(cfg, p, m, k);
    k' := OnDataInStep(cfg, p, k, c);
    OffsetDifference(cfg, p, m, k);
    BufferAfter(cfg, p, m, k, k', OnData(cfg, c).recvbuf);
  }

  lemma OffsetDifference(cfg: Config, p: Peer, m: nat, k: nat)
    requires GoodPeer(cfg, p) && k <= |p.packets| && 0 <= Offset(cfg, p, k) <= m <= |Wire(cfg, p)|
    ensures |Wire(cfg, p)[Offset(cfg, p, k)..m]| == m - Offset(cfg, p, k)
  {}

  /** Authentication of the packets, then `_on_data` on the rest, keeps the correspondence. */
  lemma AuthPacketsReach(cfg: Config, p: Peer, c: Conn, m: nat, k: nat) returns (k': nat)
    requires GoodPeer(cfg, p) && m <= |Wire(cfg, p)| && k <= p.v
    requires Consistent(c) && c.status == Connected && InPackets(cfg, p, c, m, k)
    ensures k <= k' && Reached(cfg, p, AuthStep(cfg, c), m, k')
  {
    hide Wire, StreamFrom, InStep, Delivered, OnData, Stopped, AuthPackets, PacketAt, PeerPackets, StreamOk,
         NoEarlyTerminator, Receivable, Offset;
    BufferedIsPrefix(cfg, p, m, k);
    DeliveredBeforeVersion(cfg, p, k);
    k' := AuthPacketsInStep(cfg.pr.block, p.start, p.packets, p.v, p.garbage, k, c.hs, c.recvbuf);
    DeliveredBeforeVersion(cfg, p, k');
    var (n, _, hs) := AuthPackets(cfg.pr.block, c.hs, c.recvbuf);
    SuffixSelf(c.recvbuf, n);
    OffsetDifference(cfg, p, m, k);
    BufferAfter(cfg, p, m, k, k', c.recvbuf[n..]);
    var c1 := c.(hs := hs, recvbuf := c.recvbuf[n..]);
    assert AuthStep(cfg, c) == if hs.tried && c1.recvbuf != [] then OnData(cfg, c1) else c1;
    if hs.tried && c1.recvbuf != [] {
      k' := OnDataReaches(cfg, p, c1, m, k');
    } else if hs.tried {
      StoppedWhenEmpty(cfg, p, k');
    }
  }

  lemma StoppedWhenEmpty(cfg: Config, p: Peer, k: nat)
    requires GoodPeer(cfg, p) && 0 < k <= |p.packets|
    ensures Stopped(cfg, p, k, [])
  {}

  lemma AuthStepReaches(cfg: Config, p: Peer, c: Conn, m: nat) returns (k: nat)
    requires GoodPeer(cfg, p) && m <= |Wire(cfg, p)|
    requires Consistent(c) && c.status == Connected && InGarbage(cfg, p, c, m)
    ensures Reached(cfg, p, AuthStep(cfg, c), m, k)
  {
    hide Stream, InStep, OnData, Stopped, AuthPackets, PacketAt, PeerPackets, StreamOk, NoEarlyTerminator,
         Receivable, FindTerminator;
    var g := |p.garbage|;
    GarbageOnWire(cfg, p, m);
    FindsTerminator(p.garbage, p.terminator, Stream(cfg, p, 0), c.recvbuf, 0);
    k := 0;
    if g + TERMINATOR_LEN <= |c.recvbuf| {
      WireFrom(cfg, p, 0);
      var c1 := c.(hs := c.hs.(found := true, receivedGarbage := p.garbage),
                   recvbuf := c.recvbuf[g + TERMINATOR_LEN..]);
      assert c.recvbuf[..g] == p.garbage;
      FreshInStep(cfg, p);
      FirstPacketAad(p);
      assert InPackets(cfg, p, c1, m, 0);
      k := AuthPacketsReach(cfg, p, c1, m, 0);
      AuthStepAfterGarbage(cfg, c, c1, g);
    }
  }

  lemma FirstPacketAad(p: Peer)
    requires PeerPackets(p.packets, p.v, p.garbage)
    ensures p.packets[0].aad == p.garbage
  {}

  lemma FreshInStep(cfg: Config, p: Peer)
    requires Fresh(p.start) && StreamOk(p.packets)
    ensures Accepted(cfg, p, 0, Receiver(p.start, -1))
  {}

  lemma GarbageOnWire(cfg: Config, p: Peer, m: nat)
    requires GoodPeer(cfg, p) && ELLSWIFT_LEN <= m <= |Wire(cfg, p)|
    ensures Wire(cfg, p)[ELLSWIFT_LEN..m] <= p.garbage + p.terminator + Stream(cfg, p, 0)
  {
    hide Stream;
    var rest := p.garbage + p.terminator + Stream(cfg, p, 0);
    assert Wire(cfg, p) == p.ellswift + rest;
    assert (p.ellswift + rest)[ELLSWIFT_LEN..] == rest;
    SliceIsPrefix(Wire(cfg, p), ELLSWIFT_LEN, m);
  }

  /** Finding the terminator and going on is the same as having found it before. */
  lemma AuthStepAfterGarbage(cfg: Config, c: Conn, c1: Conn, g: nat)
    requires Consistent(c) && c.hs.session.Some? && !c.hs.found && g + TERMINATOR_LEN <= |c.recvbuf|
    requires FindTerminator(c.hs.session.value.recvTerminator, c.recvbuf, 0) == Found(g)
    requires c1 == c.(hs := c.hs.(found := true, receivedGarbage := c.recvbuf[..g]),
                      recvbuf := c.recvbuf[g + TERMINATOR_LEN..])
    requires Consistent(c1)
    requires AuthStep(cfg, c1).status == Connected
    ensures AuthStep(cfg, c) == AuthStep(cfg, c1)
  {
    hide OnData, AuthPackets, FindTerminator;
    var n := AuthPackets(cfg.pr.block, c1.hs, c1.recvbuf).0;
    assert c1.recvbuf[n..] == c.recvbuf[g + TERMINATOR_LEN + n..];
  }

  lemma CompletedSession(cfg: Config, c: Conn, theirs: bytes, decoys: seq<nat>)
    requires Consistent(c) && c.hs.session.None?
    requires |decoys| <= 10 && forall n :: n in decoys ==> n <= 100
    ensures var s := FreshSession(cfg, c.hs.initiating, c.hs.privkey, c.hs.ellswift, theirs);
      var s' := Completed(cfg, c, theirs, decoys).hs.session.value;
      s'.recv == s.recv && s'.recvTerminator == s.recvTerminator && s'.sessionId == s.sessionId
  {
    hide FreshSession, DirAt, StreamTo, HandshakePackets;
  }

  lemma CompleteStepReaches(cfg: Config, p: Peer, c: Conn, m: nat, rnd: Random) returns (k: nat)
    requires GoodPeer(cfg, p) && m <= |Wire(cfg, p)| && Allowed(cfg, rnd)
    requires Consistent(c) && c.status == Connected && !c.hs.tried
    requires var n := |c.hs.receivedPrefix|;
      && c.hs.session.None? && !c.hs.found && Matches(cfg, p, c.hs) && c.delivered == []
      && n <= m && c.hs.receivedPrefix == Wire(cfg, p)[..n] && c.recvbuf == Wire(cfg, p)[n..m]
    requires c.hs.initiating || c.hs.sentGarbage != [] || m >= ELLSWIFT_LEN
    ensures Reached(cfg, p, CompleteStep(cfg, c, rnd), m, k)
  {
    hide Wire, Stream, InStep, Stopped, PeerPackets, StreamOk, NoEarlyTerminator, AuthStep, Completed, FreshSession,
         Reached;
    k := 0;
    if m < ELLSWIFT_LEN {
      KeyIncomplete(cfg, p, c, m);
    } else {
      var need := ELLSWIFT_LEN - |c.hs.receivedPrefix|;
      WireStarts(cfg, p);
      KeyParts(Wire(cfg, p), p.ellswift, |c.hs.receivedPrefix|, m);
      var done := Completed(cfg, c, p.ellswift, rnd.decoys);
      CompletedSession(cfg, c, p.ellswift, rnd.decoys);
      CompletedKeeps(cfg, c, p.ellswift, rnd.decoys);
      k := AuthStepReaches(cfg, p, done.(recvbuf := c.recvbuf[need..]), m);
    }
  }

  lemma KeyIncomplete(cfg: Config, p: Peer, c: Conn, m: nat)
    requires GoodPeer(cfg, p) && m <= |Wire(cfg, p)| && Consistent(c) && c.status == Connected
    requires c.hs.session.None? && WaitingForKey(cfg, p, c, m)
    ensures Reached(cfg, p, c, m, 0)
  {
    hide Wire, Stream, InStep, PeerPackets, StreamOk, NoEarlyTerminator, FreshSession, WaitingForKey, Matches;
  }

  lemma WireStarts(cfg: Config, p: Peer)
    requires GoodPeer(cfg, p)
    ensures p.ellswift <= Wire(cfg, p)
  {
    hide Stream;
  }

  lemma KeyParts(w: bytes, key: bytes, n: nat, m: nat)
    requires key <= w && n <= |key| <= m <= |w|
    ensures w[..n] + w[n..m][..|key| - n] == key && w[n..m][|key| - n..] == w[|key|..m]
  {
    assert w[..n] + w[n..m][..|key| - n] == w[..|key|] == key;
  }

  lemma CompletedKeeps(cfg: Config, c: Conn, theirs: bytes, decoys: seq<nat>)
    requires Consistent(c) && c.hs.session.None?
    requires |decoys| <= 10 && forall n :: n in decoys ==> n <= 100
    ensures var d := Completed(cfg, c, theirs, decoys);
      d == c.(hs := c.hs.(session := d.hs.session), written := d.written)
  {
    hide Launch;
  }

  lemma SliceConcat(w: bytes, a: nat, m: nat, n: nat)
    requires a <= m && m + n <= |w|
    ensures w[a..m] + w[m..m + n] == w[a..m + n]
  {}

  /** One socket read keeps the correspondence. */
  lemma DataReceivedReaches(cfg: Config, p: Peer, c: Conn, m: nat, k: nat, t: bytes, rnd: Random) returns (k': nat)
    requires GoodPeer(cfg, p) && Allowed(cfg, rnd)
    requires m + |t| <= |Wire(cfg, p)| && t == Wire(cfg, p)[m..m + |t|]
    requires Reached(cfg, p, c, m, k)
    ensures k <= k' && Reached(cfg, p, DataReceived(cfg, c, t, rnd), m + |t|, k')
  {
    hide Wire, Stream, InStep, Stopped, PeerPackets, StreamOk, NoEarlyTerminator, AuthStep, CompleteStep, OnData,
         Matches, Delivered, Offset, Accepted, PacketBytes;
    k' := k;
    if t != [] {
      var c1 := c.(recvbuf := c.recvbuf + t);
      SliceConcat(Wire(cfg, p), if c.hs.session.None? then |c.hs.receivedPrefix|
                                else if !c.hs.found then ELLSWIFT_LEN else Offset(cfg, p, k), m, |t|);
      if c.hs.session.None? {
        k' := CompleteStepReaches(cfg, p, c1, m + |t|, rnd);
      } else if !c.hs.found {
        k' := AuthStepReaches(cfg, p, c1, m + |t|);
      } else if !c.hs.tried {
        k' := AuthPacketsReach(cfg, p, c1, m + |t|, k);
      } else {
        k' := OnDataReaches(cfg, p, c1, m + |t|, k);
      }
    }
  }

  lemma SplitSlice(w: bytes, m: nat, head: bytes, t: bytes)
    requires m + |head| + |t| <= |w| && head + t == w[m..m + |head| + |t|]
    ensures head == w[m..m + |head|] && t == w[m + |head|..m + |head| + |t|]
  {
    assert head == (head + t)[..|head|] && t == (head + t)[|head|..];
  }

  lemma ReachedOpen(cfg: Config, p: Peer, c: Conn, m: nat, k: nat)
    requires GoodPeer(cfg, p) && Reached(cfg, p, c, m, k)
    ensures Consistent(c) && c.status == Connected
  {}

  /** Whatever the fragmentation of any prefix of the peer's bytes, from a state that corresponds
      to `m` bytes received. */
  lemma {:induction false} FeedReaches(cfg: Config, p: Peer, c: Conn, m: nat, k: nat, chunks: seq<bytes>, rnds: seq<Random>)
    returns (k': nat)
    requires GoodPeer(cfg, p)
    requires |chunks| == |rnds| && forall rnd :: rnd in rnds ==> Allowed(cfg, rnd)
    requires m + |Concat(chunks)| <= |Wire(cfg, p)|
    requires Concat(chunks) == Wire(cfg, p)[m..m + |Concat(chunks)|]
    requires Reached(cfg, p, c, m, k)
    ensures k <= k' && Reached(cfg, p, Feed(cfg, c, chunks, rnds), m + |Concat(chunks)|, k')
  {
    hide Wire, Stream, PeerPackets, StreamOk, NoEarlyTerminator, Reached, DataReceived, Allowed;
    ReachedOpen(cfg, p, c, m, k);
    k' := k;
    if chunks != [] {
      var n := |chunks| - 1;
      var head, t := Concat(chunks[..n]), chunks[n];
      assert rnds[n] in rnds && forall rnd :: rnd in rnds[..n] ==> rnd in rnds;
      SplitSlice(Wire(cfg, p), m, head, t);
      k' := FeedReaches(cfg, p, c, m, k, chunks[..n], rnds[..n]);
      ReachedOpen(cfg, p, Feed(cfg, c, chunks[..n], rnds[..n]), m + |head|, k');
      k' := DataReceivedReaches(cfg, p, Feed(cfg, c, chunks[..n], rnds[..n]), m + |head|, k', t, rnds[n]);
    }
  }

  // ---- Main results

  lemma {:induction false} OffsetMono(cfg: Config, p: Peer, i: nat, j: nat)
    requires GoodPeer(cfg, p) && i <= j <= |p.packets|
    ensures Offset(cfg, p, i) <= Offset(cfg, p, j)
    ensures i < |p.packets| ==> Offset(cfg, p, i + 1) == Offset(cfg, p, i) + |PacketBytes(cfg, p, i)|
    decreases j - i
  {
    hide Wire, StreamFrom, PacketAt, PeerPackets, NoEarlyTerminator, StreamOk;
    if i < |p.packets| { StreamFromStep(cfg.pr.block, p.start, p.packets, i); }
    if i < j { OffsetMono(cfg, p, i + 1, j); }
  }

  ghost predicate NoDecoysAfterVersion(p: Peer) {
    forall i :: p.v < i < |p.packets| ==> !p.packets[i].ignore
  }

  /** What a connection looks like after `m` bytes of the peer, however they were cut: the handshake
      is complete exactly when the version packet is; exactly the first `k` packets have been
      accepted, in order; the messages delivered are theirs; everything later is still buffered; and
      nothing complete is held back unless a decoy was just skipped, so nothing at all if the peer
      sends no decoys after the handshake. */
  ghost predicate Faithful(cfg: Config, p: Peer, r: Conn, m: nat, k: nat)
    requires GoodPeer(cfg, p)
  {
    hide Wire, StreamFrom, PacketAt, PeerPackets, NoEarlyTerminator;
    && m <= |Wire(cfg, p)| && k <= |p.packets|
    && Consistent(r) && r.status == Connected
    && (r.hs.tried <==> k > p.v)
    && (r.hs.tried <==> m >= Offset(cfg, p, p.v + 1))
    && r.delivered == Delivered(cfg, p, k)
    && (r.hs.tried ==>
          && 0 <= Offset(cfg, p, k) <= m && r.recvbuf == Wire(cfg, p)[Offset(cfg, p, k)..m]
          && Accepted(cfg, p, k, r.hs.session.value.recv)
          && (k < |p.packets| ==> m < Offset(cfg, p, k + 1) || p.packets[k - 1].ignore)
          && (k < |p.packets| && NoDecoysAfterVersion(p) ==> m < Offset(cfg, p, k + 1)))
  }

  lemma ReachedIsFaithful(cfg: Config, p: Peer, r: Conn, m: nat, k: nat)
    requires GoodPeer(cfg, p) && Reached(cfg, p, r, m, k)
    ensures Faithful(cfg, p, r, m, k)
  {
    hide Wire, StreamFrom, PacketAt, PeerPackets, NoEarlyTerminator, StreamOk, InStep, FreshSession, Delivered,
         Offset;
    DeliveredBeforeVersion(cfg, p, if k <= p.v + 1 then k else 0);
    WireFrom(cfg, p, 0);
    OffsetMono(cfg, p, k, if k <= p.v then p.v + 1 else k);
    if k <= p.v {
      OffsetMono(cfg, p, k + 1, p.v + 1);
      OffsetMono(cfg, p, 0, p.v + 1);
    } else {
      OffsetMono(cfg, p, p.v + 1, k);
      VersionIsNoDecoy(p);
    }
  }

  lemma VersionIsNoDecoy(p: Peer)
    requires p.v < |p.packets| && PeerPackets(p.packets, p.v, p.garbage)
    ensures !p.packets[p.v].ignore
  {}

  ghost predicate Idle(c: Conn) {
    && Consistent(c) && c.status == Connected && c.recvbuf == [] && c.delivered == []
    && c.hs.session.None? && !c.hs.found && !c.hs.tried
    && c.hs.receivedPrefix == [] && c.hs.receivedGarbage == []
  }

  /** The initiator: every fragmentation of every prefix of the peer's bytes. */
  lemma InitiatorDelivers(cfg: Config, p: Peer, c: Conn, chunks: seq<bytes>, rnds: seq<Random>) returns (k: nat)
    requires Idle(c) && c.hs.initiating && GoodPeer(cfg, p) && Matches(cfg, p, c.hs)
    requires |chunks| == |rnds| && forall rnd :: rnd in rnds ==> Allowed(cfg, rnd)
    requires Concat(chunks) <= Wire(cfg, p)
    ensures Faithful(cfg, p, Feed(cfg, c, chunks, rnds), |Concat(chunks)|, k)
  {
    hide PeerPackets, StreamOk, NoEarlyTerminator, Feed, Stream, FreshSession, Allowed, Faithful;
    k := FeedReaches(cfg, p, c, 0, 0, chunks, rnds);
    ReachedIsFaithful(cfg, p, Feed(cfg, c, chunks, rnds), |Concat(chunks)|, k);
  }
}
