/** The responder's first bytes (v2_p2p.py, `respond_v2_handshake`; p2p.py, `_on_data_v2_handshake`):
    exactly what it keeps of any fragmentation, and what that leads to. */
module V2Responder {
  import opened Bytes
  import opened StreamCipher
  import opened V2Packets
  import opened V2Handshake
  import opened MessageTypes
  import opened V2Connection
  import opened V2Delivery
  import V1Framing

  // ---- The comparison with a v1 message

  /** How many bytes of `buf` agree with `v1` from place `n` on. */
  function Agreement(v1: bytes, n: nat, buf: bytes): (k: nat)
    requires |v1| == 16 && n <= 16
    ensures k <= |buf| && n + k <= 16
    decreases |buf|
  {
    if n == 16 || buf == [] || buf[0] != v1[n] then 0 else Agreement(v1, n + 1, buf[1..]) + 1
  }

  /** How many bytes the responder compares, and what it concludes. */
  lemma {:induction false} RespondReadLength(v1: bytes, prefix: bytes, buf: bytes)
    requires |v1| == 16 && |prefix| <= 16
    ensures var n, k, r := |prefix|, Agreement(v1, |prefix|, buf), RespondRead(v1, prefix, buf);
      if n + k == 16 then |r.0| == 16 && r.1 == IsV1
      else if k == |buf| then |r.0| == n + k && r.1 == More
      else |r.0| == n + k + 1 && r.1 == Mismatch
    decreases |buf|
  {
    if |prefix| < 16 && buf != [] && buf[0] == v1[|prefix|] {
      RespondReadLength(v1, prefix + [buf[0]], buf[1..]);
    }
  }

  /** What the responder compares with is the beginning of every v1 version message. */
  lemma V1PrefixIs(cfg: V1Framing.V1Config, payload: bytes)
    requires |cfg.magic| == 4 && |payload| < U32
    ensures V1Prefix(cfg.magic) == V1Framing.BuildMessage(cfg, Message(Ascii("version"), payload))[..16]
  {
    hide LE32;
    V1Framing.FrameLayout(cfg, Message(Ascii("version"), payload));
    var s := V1Framing.BuildMessage(cfg, Message(Ascii("version"), payload));
    assert s[..16] == s[..4] + s[4..16];
  }

  /** What the responder takes for its prefix, and what it concludes. */
  lemma RespondReadIs(v1: bytes, prefix: bytes, buf: bytes)
    requires |v1| == 16 && |prefix| <= 16
    ensures var k := Agreement(v1, |prefix|, buf);
      RespondRead(v1, prefix, buf)
      == if |prefix| + k == 16 then (prefix + buf[..k], IsV1)
         else if k == |buf| then (prefix + buf, More)
         else (prefix + buf[..k + 1], Mismatch)
  {
    hide RespondRead, Agreement;
    RespondReadLength(v1, prefix, buf);
    assert buf[..|buf|] == buf;
  }

  lemma {:induction false} AgreementIs(v1: bytes, n: nat, buf: bytes, k: nat)
    requires |v1| == 16 && k <= |buf| && n + k <= 16 && buf[..k] == v1[n..n + k]
    requires k == |buf| || n + k == 16 || buf[k] != v1[n + k]
    ensures Agreement(v1, n, buf) == k
    decreases k
  {
    if k > 0 {
      assert buf[0] == buf[..k][0] == v1[n..n + k][0] == v1[n];
      assert buf[1..][..k - 1] == buf[..k][1..] == v1[n..n + k][1..] == v1[n + 1..n + k];
      AgreementIs(v1, n + 1, buf[1..], k - 1);
    }
  }

  /** A responder that has not sent garbage, as far as it can tell. */
  ghost predicate Silent(c: Conn) {
    && Consistent(c) && c.status == Connected && !c.hs.initiating
    && c.hs.session.None? && !c.hs.tried && c.hs.sentGarbage == []
  }

  /** Every read of such a responder compares again, from the place its prefix has reached: it then takes
      the peer for a v1 one, waits, or answers with a new key pair. */
  lemma SilentStep(cfg: Config, c: Conn, t: bytes, rnd: Random)
    requires Silent(c) && t != [] && Allowed(cfg, rnd)
    ensures var buf, prefix := c.recvbuf + t, c.hs.receivedPrefix;
      var k := Agreement(V1Prefix(cfg.magic), |prefix|, buf);
      var r := DataReceived(cfg, c, t, rnd);
      if |prefix| + k == 16 then
        r == c.(hs := c.hs.(receivedPrefix := prefix + buf[..k]), recvbuf := Drop(buf, 16), status := Downgraded)
      else if k == |buf| then
        r == c.(hs := c.hs.(receivedPrefix := prefix + buf), recvbuf := [])
      else
        var c1 := c.(hs := c.hs.(receivedPrefix := prefix + buf[..k + 1], privkey := rnd.privkey,
                                 ellswift := rnd.ellswift, sentGarbage := rnd.garbage),
                     recvbuf := Drop(buf, |prefix| + k + 1), written := c.written + rnd.ellswift + rnd.garbage);
        Consistent(c1) && r == CompleteStep(cfg, c1, rnd)
  {
    hide V1Prefix, CompleteStep, AuthStep, OnData, RespondRead;
    RespondReadIs(V1Prefix(cfg.magic), c.hs.receivedPrefix, c.recvbuf + t);
  }

  // ---- Reads up to and including the one that decides

  ghost predicate FreshResponder(c: Conn) {
    Idle(c) && !c.hs.initiating && c.hs.sentGarbage == []
  }

  /** The peer's bytes agree with a v1 version message in the first `j` only. */
  ghost predicate DiffersAt(cfg: Config, w: bytes, j: nat) {
    && |cfg.magic| == 4 && j < 16 && j < |w|
    && w[..j] == V1Prefix(cfg.magic)[..j] && w[j] != V1Prefix(cfg.magic)[j]
  }

  /** Of the bytes `head + t`, the read `t` holds the first one that differs from a v1 message. */
  ghost predicate Decides(cfg: Config, c: Conn, j: nat, head: bytes, t: bytes) {
    FreshResponder(c) && DiffersAt(cfg, head + t, j) && |head| <= j
  }

  ghost predicate AllAllowed(cfg: Config, rnds: seq<Random>) {
    forall rnd :: rnd in rnds ==> Allowed(cfg, rnd)
  }

  /** What the responder keeps of `head + t`: the bytes up to the deciding one, and `t` without as many
      bytes as those, although some of them came with earlier reads. */
  function Kept(head: bytes, t: bytes, j: nat): bytes
    requires j < |head| + |t|
  {
    (head + t)[..j + 1] + Drop(t, j + 1)
  }

  /** The responder once it has read the deciding byte and generated its key pair. */
  function Answered(c: Conn, t: bytes, j: nat, rnd: Random): Conn
    requires j < |t|
  {
    c.(hs := c.hs.(receivedPrefix := t[..j + 1], privkey := rnd.privkey, ellswift := rnd.ellswift,
                   sentGarbage := rnd.garbage),
       recvbuf := t[j + 1..], written := c.written + rnd.ellswift + rnd.garbage)
  }

  lemma StillMatching(cfg: Config, c: Conn, head: bytes, t: bytes, rnd: Random)
    requires FreshResponder(c) && Allowed(cfg, rnd) && |head + t| < 16
    requires head + t == V1Prefix(cfg.magic)[..|head + t|]
    ensures DataReceived(cfg, c.(hs := c.hs.(receivedPrefix := head)), t, rnd)
            == c.(hs := c.hs.(receivedPrefix := head + t))
  {
    hide V1Prefix, DataReceived, CompleteStep;
    var v1 := V1Prefix(cfg.magic);
    assert [] + t == t && head + [] == head;
    if t != [] {
      assert t == (head + t)[|head|..] == v1[|head|..|head| + |t|];
      AgreementIs(v1, |head|, t, |t|);
      SilentStep(cfg, c.(hs := c.hs.(receivedPrefix := head)), t, rnd);
    } else {
      NothingRead(cfg, c.(hs := c.hs.(receivedPrefix := head)), rnd);
    }
  }

  lemma NothingRead(cfg: Config, c: Conn, rnd: Random)
    requires Consistent(c) && Allowed(cfg, rnd)
    ensures DataReceived(cfg, c, [], rnd) == c
  {}

  /** As long as everything agrees, it is only collected. */
  lemma {:induction false} WhileMatching(cfg: Config, c: Conn, chunks: seq<bytes>, rnds: seq<Random>)
    requires FreshResponder(c) && |chunks| == |rnds| && AllAllowed(cfg, rnds) && |cfg.magic| == 4
    requires |Concat(chunks)| < 16 && Concat(chunks) == V1Prefix(cfg.magic)[..|Concat(chunks)|]
    ensures Feed(cfg, c, chunks, rnds) == c.(hs := c.hs.(receivedPrefix := Concat(chunks)))
    decreases |chunks|
  {
    hide V1Prefix, DataReceived, Allowed;
    if chunks != [] {
      var n := |chunks| - 1;
      assert rnds[n] in rnds && forall rnd :: rnd in rnds[..n] ==> rnd in rnds;
      var head := Concat(chunks[..n]);
      assert head == Concat(chunks)[..|head|];
      WhileMatching(cfg, c, chunks[..n], rnds[..n]);
      StillMatching(cfg, c, head, chunks[n], rnds[n]);
    }
  }

  lemma DecidingRead(cfg: Config, c: Conn, j: nat, head: bytes, t: bytes, rnd: Random)
    requires Decides(cfg, c, j, head, t) && Allowed(cfg, rnd)
    ensures Consistent(Answered(c, Kept(head, t, j), j, rnd))
    ensures DataReceived(cfg, c.(hs := c.hs.(receivedPrefix := head)), t, rnd)
            == CompleteStep(cfg, Answered(c, Kept(head, t, j), j, rnd), rnd)
  {
    hide V1Prefix, DataReceived, CompleteStep, Kept, Agreement, Drop, Allowed;
    assert [] + t == t;
    DecidingPlace(V1Prefix(cfg.magic), head, t, j);
    KeptParts(head, t, j);
    SilentStep(cfg, c.(hs := c.hs.(receivedPrefix := head)), t, rnd);
  }

  lemma DecidingPlace(v1: bytes, head: bytes, t: bytes, j: nat)
    requires |head| <= j < 16 == |v1| && j < |head + t| && (head + t)[..j] == v1[..j] && (head + t)[j] != v1[j]
    ensures Agreement(v1, |head|, t) == j - |head| < |t|
    ensures head + t[..j + 1 - |head|] == (head + t)[..j + 1]
  {
    hide Agreement;
    var k := j - |head|;
    assert t[..k] == (head + t)[..j][|head|..] == v1[..j][|head|..] == v1[|head|..j];
    AgreementIs(v1, |head|, t, k);
  }

  lemma KeptParts(head: bytes, t: bytes, j: nat)
    requires j < |head| + |t|
    ensures Kept(head, t, j)[..j + 1] == (head + t)[..j + 1] && Kept(head, t, j)[j + 1..] == Drop(t, j + 1)
  {}

  lemma NoPrefixYet(c: Conn)
    requires FreshResponder(c)
    ensures c.(hs := c.hs.(receivedPrefix := [])) == c && Consistent(c) && c.status == Connected
  {}

  function Min(a: int, b: int): int {
    if a <= b then a else b
  }

  /** For every fragmentation: the responder goes on as if it had received, in one read, what it keeps.
      That is everything exactly when the deciding read is the first or ends with the deciding byte;
      otherwise as many bytes are lost as came before that read, or after the deciding byte if those are
      fewer. */
  lemma ResponderKeeps(cfg: Config, c: Conn, j: nat, chunks: seq<bytes>, rnds: seq<Random>, t: bytes, rnd: Random)
    requires Decides(cfg, c, j, Concat(chunks), t) && Allowed(cfg, rnd)
    requires |chunks| == |rnds| && AllAllowed(cfg, rnds)
    ensures var head := Concat(chunks);
      var w, kept := head + t, Kept(head, t, j);
      && j < |kept| && Consistent(Answered(c, kept, j, rnd))
      && DataReceived(cfg, Feed(cfg, c, chunks, rnds), t, rnd)
         == DataReceived(cfg, c, kept, rnd)
         == CompleteStep(cfg, Answered(c, kept, j, rnd), rnd)
      && (kept == w <==> head == [] || |w| == j + 1)
      && |w| - |kept| == Min(|head|, |w| - (j + 1))
  {
    hide V1Prefix, CompleteStep, DataReceived, Feed, Allowed, FreshResponder, Kept;
    var head := Concat(chunks);
    var kept := Kept(head, t, j);
    MatchingHead(V1Prefix(cfg.magic), head, t, j);
    WhileMatching(cfg, c, chunks, rnds);
    KeptLaws(head, t, j);
    DecidingRead(cfg, c, j, head, t, rnd);
    DecidingRead(cfg, c, j, [], kept, rnd);
    NoPrefixYet(c);
  }

  lemma MatchingHead(v1: bytes, head: bytes, t: bytes, j: nat)
    requires |head| <= j < |v1| && j <= |head + t| && (head + t)[..j] == v1[..j]
    ensures head == v1[..|head|]
  {
    assert head == (head + t)[..j][..|head|] == v1[..j][..|head|];
  }

  lemma KeptLaws(head: bytes, t: bytes, j: nat)
    requires |head| <= j < |head| + |t|
    ensures var w, kept := head + t, Kept(head, t, j);
      && j < |kept| && [] + kept == kept && kept[..j] == w[..j] && kept[j] == w[j] && Kept([], kept, j) == kept
      && (kept == w <==> head == [] || |w| == j + 1)
      && |w| - |kept| == Min(|head|, |w| - (j + 1))
  {
    var w, kept := head + t, Kept(head, t, j);
    assert [] + kept == kept && kept[..j + 1] + kept[j + 1..] == kept;
    if head == [] { assert w == t && w[..j + 1] + w[j + 1..] == w; }
    if |w| == j + 1 { assert kept == w[..j + 1] + []; }
  }

  // ---- What follows when nothing is lost

  /** When the read that decides is the first, or ends with the deciding byte, the responder continues
      exactly like an initiator with the key pair and garbage it then generates. Empty garbage is taken
      for garbage not yet sent, so then the whole key must be in that read. */
  lemma ResponderContinues(cfg: Config, p: Peer, c: Conn, j: nat, before: seq<bytes>, rnds: seq<Random>,
                           t: bytes, rnd: Random) returns (k: nat)
    requires GoodPeer(cfg, p) && Decides(cfg, c, j, Concat(before), t)
    requires Allowed(cfg, rnd) && |before| == |rnds| && AllAllowed(cfg, rnds)
    requires Matches(cfg, p, c.hs.(privkey := rnd.privkey, ellswift := rnd.ellswift, sentGarbage := rnd.garbage))
    requires var m := |Concat(before)| + |t|;
      && (Concat(before) == [] || m == j + 1)
      && (rnd.garbage != [] || m >= ELLSWIFT_LEN)
    requires Concat(before) + t <= Wire(cfg, p)
    ensures Reached(cfg, p, DataReceived(cfg, Feed(cfg, c, before, rnds), t, rnd), |Concat(before)| + |t|, k)
  {
    hide Wire, Stream, PeerPackets, StreamOk, NoEarlyTerminator, CompleteStep, FreshSession, V1Prefix, DataReceived,
         Reached, Feed, Kept, Allowed;
    var w := Concat(before) + t;
    ResponderKeeps(cfg, c, j, before, rnds, t, rnd);
    assert w == Wire(cfg, p)[..|w|];
    k := CompleteStepReaches(cfg, p, Answered(c, w, j, rnd), |w|, rnd);
  }

  /** Every fragmentation with such a deciding read leads the responder to the same faithful states as
      the initiator. */
  lemma ResponderDelivers(cfg: Config, p: Peer, c: Conn, j: nat, before: seq<bytes>, rnds0: seq<Random>,
                          t: bytes, rnd: Random, chunks: seq<bytes>, rnds: seq<Random>) returns (k: nat)
    requires GoodPeer(cfg, p) && Decides(cfg, c, j, Concat(before), t)
    requires Allowed(cfg, rnd) && |before| == |rnds0| && AllAllowed(cfg, rnds0)
    requires Matches(cfg, p, c.hs.(privkey := rnd.privkey, ellswift := rnd.ellswift, sentGarbage := rnd.garbage))
    requires var m := |Concat(before)| + |t|;
      && (Concat(before) == [] || m == j + 1)
      && (rnd.garbage != [] || m >= ELLSWIFT_LEN)
    requires Concat(before) + t + Concat(chunks) <= Wire(cfg, p)
    requires |chunks| == |rnds| && AllAllowed(cfg, rnds)
    ensures Faithful(cfg, p, Feed(cfg, DataReceived(cfg, Feed(cfg, c, before, rnds0), t, rnd), chunks, rnds),
                     |Concat(before)| + |t| + |Concat(chunks)|, k)
  {
    hide Wire, Stream, PeerPackets, StreamOk, NoEarlyTerminator, FreshSession, Feed, DataReceived, Faithful,
         Reached, Allowed, DiffersAt, Concat;
    var w := Concat(before) + t;
    PrefixParts(w, Concat(chunks), Wire(cfg, p));
    k := ResponderContinues(cfg, p, c, j, before, rnds0, t, rnd);
    var answered := DataReceived(cfg, Feed(cfg, c, before, rnds0), t, rnd);
    k := FeedReaches(cfg, p, answered, |w|, k, chunks, rnds);
    ReachedIsFaithful(cfg, p, Feed(cfg, answered, chunks, rnds), |w| + |Concat(chunks)|, k);
  }

  lemma PrefixParts(a: bytes, b: bytes, w: bytes)
    requires a + b <= w
    ensures a <= w && |a| + |b| <= |w| && b == w[|a|..|a| + |b|]
  {
    assert (a + b)[|a|..] == b;
    assert w[..|a + b|] == a + b;
    assert w[|a|..|a| + |b|] == w[..|a + b|][|a|..];
  }

  // ---- What follows when something is lost

  /** With non-empty garbage, and as long as what is kept is no complete key: the responder is where it
      should be exactly when the read that decides is the first or ends with the deciding byte. */
  lemma ResponderReachedIff(cfg: Config, p: Peer, c: Conn, j: nat, before: seq<bytes>, rnds: seq<Random>,
                            t: bytes, rnd: Random)
    requires GoodPeer(cfg, p) && Decides(cfg, c, j, Concat(before), t)
    requires Allowed(cfg, rnd) && rnd.garbage != [] && |before| == |rnds| && AllAllowed(cfg, rnds)
    requires Matches(cfg, p, c.hs.(privkey := rnd.privkey, ellswift := rnd.ellswift, sentGarbage := rnd.garbage))
    requires Concat(before) + t <= Wire(cfg, p) && (Concat(before) == [] || |t| < ELLSWIFT_LEN)
    ensures var m := |Concat(before)| + |t|;
      (exists k :: Reached(cfg, p, DataReceived(cfg, Feed(cfg, c, before, rnds), t, rnd), m, k))
      <==> Concat(before) == [] || m == j + 1
  {
    hide GoodPeer, Wire, FreshSession, V1Prefix, FreshResponder, DataReceived, Feed, Allowed, CompleteStep, Kept,
         Reached, Consistent, Concat;
    var head := Concat(before);
    if head == [] || |head| + |t| == j + 1 {
      var k := ResponderContinues(cfg, p, c, j, before, rnds, t, rnd);
    } else {
      ResponderKeeps(cfg, c, j, before, rnds, t, rnd);
      var answered := Answered(c, Kept(head, t, j), j, rnd);
      StillWaits(cfg, c, j, Kept(head, t, j), rnd);
      var m := |head| + |t|;
      forall k: nat
        ensures !Reached(cfg, p, answered, m, k)
      {
        NotReached(cfg, p, answered, m, k);
      }
    }
  }

  lemma StillWaits(cfg: Config, c: Conn, j: nat, kept: bytes, rnd: Random)
    requires FreshResponder(c) && j < |kept| < ELLSWIFT_LEN && Allowed(cfg, rnd) && Consistent(Answered(c, kept, j, rnd))
    ensures var r := Answered(c, kept, j, rnd);
      CompleteStep(cfg, r, rnd) == r && r.hs.session.None? && |r.hs.receivedPrefix| + |r.recvbuf| == |kept|
  {
    hide AuthStep, Completed;
  }

  lemma NotReached(cfg: Config, p: Peer, c: Conn, m: nat, k: nat)
    requires GoodPeer(cfg, p) && c.hs.session.None? && |c.hs.receivedPrefix| + |c.recvbuf| < m
    ensures !Reached(cfg, p, c, m, k)
  {
    hide Wire, Stream, PeerPackets, StreamOk, NoEarlyTerminator, FreshSession;
  }

  /** The connection with the session that is derived from the first 64 of the bytes `kept`, and the others
      still to be read. */
  function WithKey(cfg: Config, c: Conn, kept: bytes, rnd: Random): (r: Conn)
    requires Consistent(c) && c.hs.session.None? && Allowed(cfg, rnd) && |kept| >= ELLSWIFT_LEN
    ensures r.hs.session.Some? && Consistent(r)
  {
    hide Launch;
    Completed(cfg, c, kept[..ELLSWIFT_LEN], rnd.decoys).(recvbuf := kept[ELLSWIFT_LEN..])
  }

  /** With a complete key in what is kept, the session is derived from that: from the peer's key only if the
      bytes that moved up happen to be the same. */
  lemma ResponderKeyIff(cfg: Config, key: bytes, c: Conn, j: nat, before: seq<bytes>, rnds: seq<Random>,
                        t: bytes, rnd: Random)
    requires Decides(cfg, c, j, Concat(before), t) && Allowed(cfg, rnd) && |before| == |rnds| && AllAllowed(cfg, rnds)
    requires |key| == ELLSWIFT_LEN <= |t| && key <= Concat(before) + t
    ensures var kept, a := Kept(Concat(before), t, j), |Concat(before)|;
      && |kept| >= ELLSWIFT_LEN && Consistent(Answered(c, kept, j, rnd))
      && DataReceived(cfg, Feed(cfg, c, before, rnds), t, rnd)
         == AuthStep(cfg, WithKey(cfg, Answered(c, kept, j, rnd), kept, rnd))
      && (kept[..ELLSWIFT_LEN] == key <==> (Concat(before) + t)[a + j + 1..a + ELLSWIFT_LEN] == key[j + 1..])
  {
    hide V1Prefix, DataReceived, Feed, Allowed, CompleteStep, AuthStep, WithKey, Kept, Concat;
    ResponderKeeps(cfg, c, j, before, rnds, t, rnd);
    KeyOf(Concat(before), t, j, key);
    KeyComplete(cfg, c, j, Kept(Concat(before), t, j), rnd);
  }

  lemma KeyComplete(cfg: Config, c: Conn, j: nat, kept: bytes, rnd: Random)
    requires FreshResponder(c) && j < ELLSWIFT_LEN <= |kept| && Allowed(cfg, rnd) && Consistent(Answered(c, kept, j, rnd))
    ensures var r := Answered(c, kept, j, rnd);
      CompleteStep(cfg, r, rnd) == AuthStep(cfg, WithKey(cfg, r, kept, rnd))
  {
    hide AuthStep, Completed;
    assert kept[..j + 1] + kept[j + 1..][..ELLSWIFT_LEN - (j + 1)] == kept[..ELLSWIFT_LEN];
    assert kept[j + 1..][ELLSWIFT_LEN - (j + 1)..] == kept[ELLSWIFT_LEN..];
  }

  lemma KeyOf(head: bytes, t: bytes, j: nat, key: bytes)
    requires |head| <= j < 16 && |key| == ELLSWIFT_LEN <= |t| && key <= head + t
    ensures var w, kept, a := head + t, Kept(head, t, j), |head|;
      && |kept| >= ELLSWIFT_LEN
      && (kept[..ELLSWIFT_LEN] == key <==> w[a + j + 1..a + ELLSWIFT_LEN] == key[j + 1..])
  {
    var w, kept, a := head + t, Kept(head, t, j), |head|;
    assert kept[..j + 1] == w[..j + 1] == key[..j + 1];
    assert kept[j + 1..ELLSWIFT_LEN] == t[j + 1..ELLSWIFT_LEN] == w[a + j + 1..a + ELLSWIFT_LEN];
    assert kept[..ELLSWIFT_LEN] == kept[..j + 1] + kept[j + 1..ELLSWIFT_LEN] && key == key[..j + 1] + key[j + 1..];
    if kept[..ELLSWIFT_LEN] == key { assert kept[..ELLSWIFT_LEN][j + 1..] == kept[j + 1..ELLSWIFT_LEN]; }
  }

  /** A smallest failure: the matching bytes arrive first and the rest of the key later. All 64 bytes of
      the key have arrived, and the responder still waits for as many as were lost. */
  lemma ResponderLosesBytes(cfg: Config, key: bytes, c: Conn, j: nat, rnd: Random, rnd': Random)
    requires |key| == ELLSWIFT_LEN && 0 < j && FreshResponder(c) && DiffersAt(cfg, key, j)
    requires Allowed(cfg, rnd) && Allowed(cfg, rnd')
    ensures var r := DataReceived(cfg, DataReceived(cfg, c, key[..j], rnd), key[j..], rnd');
      r.hs.session.None? && r.recvbuf == key[2 * j + 1..] && r.hs.receivedPrefix == key[..j + 1]
  {
    hide V1Prefix, DataReceived, Allowed, CompleteStep, Kept, Consistent;
    var chunks, rnds := [key[..j]], [rnd];
    OneRead(cfg, c, key[..j], rnd);
    HalvesOfKey(key, j);
    ResponderKeeps(cfg, c, j, chunks, rnds, key[j..], rnd');
    CompleteStepKeepsOwn(cfg, Answered(c, Kept(key[..j], key[j..], j), j, rnd'), rnd');
  }

  lemma OneRead(cfg: Config, c: Conn, t: bytes, rnd: Random)
    requires FreshResponder(c) && Allowed(cfg, rnd)
    ensures Concat([t]) == t && Feed(cfg, c, [t], [rnd]) == DataReceived(cfg, c, t, rnd)
  {
    hide DataReceived, Allowed;
    var chunks, rnds := [t], [rnd];
    assert chunks[..0] == [] && rnds[..0] == [] && [] + t == t;
    assert Feed(cfg, c, chunks[..0], rnds[..0]) == c;
  }

  lemma HalvesOfKey(key: bytes, j: nat)
    requires 2 * j + 1 <= |key|
    ensures key[..j] + key[j..] == key
    ensures Kept(key[..j], key[j..], j) == key[..j + 1] + key[2 * j + 1..]
    ensures Kept(key[..j], key[j..], j)[..j + 1] == key[..j + 1]
    ensures Kept(key[..j], key[j..], j)[j + 1..] == key[2 * j + 1..]
  {
    assert key[..j] + key[j..] == key && key[j..][j + 1..] == key[2 * j + 1..];
  }

  // ---- Empty garbage

  lemma {:induction false} OnDataKeepsOwn(cfg: Config, c: Conn)
    requires c.hs.session.Some? && Consistent(c)
    ensures SameOwn(c.hs, OnData(cfg, c).hs) && OnData(cfg, c).hs.session.Some?
    decreases |c.recvbuf|
  {
    hide Receive, DecodeMessage;
    var (res, recv) := Receive(cfg.pr.block, c.hs.session.value.recv, c.recvbuf, []);
    if res.Got? && res.contents.Some? {
      var m := DecodeMessage(cfg.tables, res.contents.value);
      if m.Some? {
        OnDataKeepsOwn(cfg, c.(hs := SetReceiver(c.hs, recv), recvbuf := c.recvbuf[res.length..],
                               delivered := c.delivered + [m.value]));
      }
    }
  }

  lemma AuthStepKeepsOwn(cfg: Config, c: Conn)
    requires c.hs.session.Some? && Consistent(c)
    ensures SameOwn(c.hs, AuthStep(cfg, c).hs) && AuthStep(cfg, c).hs.session.Some?
  {
    hide OnData, Authenticate;
    var (n, verdict, hs) := Authenticate(cfg.pr.block, c.hs, c.recvbuf);
    if verdict == Continue && hs.tried && c.recvbuf[n..] != [] {
      OnDataKeepsOwn(cfg, c.(hs := hs, recvbuf := c.recvbuf[n..]));
    }
  }

  lemma CompleteStepKeepsOwn(cfg: Config, c: Conn, rnd: Random)
    requires Consistent(c) && c.hs.session.None? && Allowed(cfg, rnd)
    ensures SameOwn(c.hs, CompleteStep(cfg, c, rnd).hs)
    ensures CompleteStep(cfg, c, rnd).hs.session.Some? <==> |c.hs.receivedPrefix| + |c.recvbuf| >= ELLSWIFT_LEN
    ensures CompleteStep(cfg, c, rnd).hs.session.None? ==> CompleteStep(cfg, c, rnd) == c
  {
    hide AuthStep, Launch;
    var need := ELLSWIFT_LEN - |c.hs.receivedPrefix|;
    if |c.recvbuf| >= need {
      AuthStepKeepsOwn(cfg, Completed(cfg, c, c.hs.receivedPrefix + c.recvbuf[..need], rnd.decoys)
                            .(recvbuf := c.recvbuf[need..]));
    }
  }

  lemma SessionKeepsOwn(cfg: Config, c: Conn, t: bytes, rnd: Random)
    requires Consistent(c) && c.hs.session.Some? && Allowed(cfg, rnd)
    ensures SameOwn(c.hs, DataReceived(cfg, c, t, rnd).hs) && DataReceived(cfg, c, t, rnd).hs.session.Some?
  {
    hide OnData, AuthStep;
    var c1 := c.(recvbuf := c.recvbuf + t);
    OnDataKeepsOwn(cfg, c1);
    AuthStepKeepsOwn(cfg, c1);
  }

  /** The key pair `key` is not in use, or is about to be replaced. */
  ghost predicate Abandons(c: Conn, key: bytes) {
    !c.hs.initiating && (c.hs.privkey != key || (c.hs.session.None? && c.hs.sentGarbage == []))
  }

  lemma StaysAbandoned(cfg: Config, c: Conn, t: bytes, rnd: Random, key: bytes)
    requires Consistent(c) && c.status == Connected && Abandons(c, key) && Allowed(cfg, rnd) && rnd.privkey != key
    ensures Abandons(DataReceived(cfg, c, t, rnd), key)
  {
    hide V1Prefix, CompleteStep, AuthStep, OnData, RespondRead;
    if c.hs.session.Some? {
      SessionKeepsOwn(cfg, c, t, rnd);
    } else if t != [] {
      var c1 := c.(recvbuf := c.recvbuf + t);
      if c.hs.sentGarbage != [] {
        CompleteStepKeepsOwn(cfg, c1, rnd);
      } else {
        var (prefix, reply) := RespondRead(V1Prefix(cfg.magic), c.hs.receivedPrefix, c1.recvbuf);
        var c2 := c1.(hs := c.hs.(receivedPrefix := prefix, privkey := rnd.privkey, ellswift := rnd.ellswift,
                                  sentGarbage := rnd.garbage),
                      recvbuf := Drop(c1.recvbuf, |prefix|), written := c.written + rnd.ellswift + rnd.garbage);
        if reply == Mismatch { CompleteStepKeepsOwn(cfg, c2, rnd); }
      }
    }
  }

  ghost predicate OtherKeys(rnds: seq<Random>, key: bytes) {
    forall rnd :: rnd in rnds ==> rnd.privkey != key
  }

  lemma {:induction false} FeedAbandons(cfg: Config, c: Conn, chunks: seq<bytes>, rnds: seq<Random>, key: bytes)
    requires Consistent(c) && Abandons(c, key) && |chunks| == |rnds| && AllAllowed(cfg, rnds) && OtherKeys(rnds, key)
    ensures Abandons(Feed(cfg, c, chunks, rnds), key)
    decreases |chunks|
  {
    hide DataReceived, Abandons, Allowed;
    if chunks != [] {
      var n := |chunks| - 1;
      assert rnds[n] in rnds && forall rnd :: rnd in rnds[..n] ==> rnd in rnds;
      FeedAbandons(cfg, c, chunks[..n], rnds[..n], key);
      var before := Feed(cfg, c, chunks[..n], rnds[..n]);
      if before.status == Connected { StaysAbandoned(cfg, before, chunks[n], rnds[n], key); }
    }
  }

  lemma {:induction false} FeedKeepsOwn(cfg: Config, c: Conn, chunks: seq<bytes>, rnds: seq<Random>)
    requires Consistent(c) && c.hs.session.Some? && |chunks| == |rnds| && AllAllowed(cfg, rnds)
    ensures SameOwn(c.hs, Feed(cfg, c, chunks, rnds).hs) && Feed(cfg, c, chunks, rnds).hs.session.Some?
    decreases |chunks|
  {
    hide DataReceived, Allowed;
    if chunks != [] {
      var n := |chunks| - 1;
      assert rnds[n] in rnds && forall rnd :: rnd in rnds[..n] ==> rnd in rnds;
      FeedKeepsOwn(cfg, c, chunks[..n], rnds[..n]);
      var before := Feed(cfg, c, chunks[..n], rnds[..n]);
      if before.status == Connected { SessionKeepsOwn(cfg, before, chunks[n], rnds[n]); }
    }
  }

  /** With empty garbage, in every run: the key pair that was sent first is the one of the session exactly
      when the deciding read brought 64 bytes (so that, if it is also the first read, it brought the whole
      key). Otherwise it is given up, whatever the later reads. */
  lemma FirstAnswerIff(cfg: Config, c: Conn, j: nat, before: seq<bytes>, rnds0: seq<Random>, t: bytes, rnd: Random,
                       chunks: seq<bytes>, rnds: seq<Random>)
    requires Decides(cfg, c, j, Concat(before), t) && Allowed(cfg, rnd) && rnd.garbage == []
    requires |before| == |rnds0| && AllAllowed(cfg, rnds0)
    requires |chunks| == |rnds| && AllAllowed(cfg, rnds) && OtherKeys(rnds, rnd.privkey)
    ensures var r := Feed(cfg, DataReceived(cfg, Feed(cfg, c, before, rnds0), t, rnd), chunks, rnds);
      r.hs.session.Some? && r.hs.privkey == rnd.privkey <==> |t| >= ELLSWIFT_LEN
  {
    hide Decides, DataReceived, Feed, Allowed, CompleteStep, Concat, Consistent, Silent;
    var answered := AnsweredSilently(cfg, c, j, before, rnds0, t, rnd);
    AfterAnswer(cfg, answered, rnd, chunks, rnds);
  }

  lemma AnsweredSilently(cfg: Config, c: Conn, j: nat, before: seq<bytes>, rnds: seq<Random>, t: bytes, rnd: Random)
    returns (answered: Conn)
    requires Decides(cfg, c, j, Concat(before), t) && Allowed(cfg, rnd) && rnd.garbage == []
    requires |before| == |rnds| && AllAllowed(cfg, rnds)
    ensures Silent(answered) && answered.hs.privkey == rnd.privkey
    ensures DataReceived(cfg, Feed(cfg, c, before, rnds), t, rnd) == CompleteStep(cfg, answered, rnd)
    ensures |answered.hs.receivedPrefix| + |answered.recvbuf| >= ELLSWIFT_LEN <==> |t| >= ELLSWIFT_LEN
  {
    hide V1Prefix, DataReceived, Feed, Allowed, CompleteStep, Kept, Concat;
    ResponderKeeps(cfg, c, j, before, rnds, t, rnd);
    answered := Answered(c, Kept(Concat(before), t, j), j, rnd);
  }

  lemma AfterAnswer(cfg: Config, c: Conn, rnd: Random, chunks: seq<bytes>, rnds: seq<Random>)
    requires Silent(c) && Allowed(cfg, rnd)
    requires |chunks| == |rnds| && AllAllowed(cfg, rnds) && OtherKeys(rnds, c.hs.privkey)
    ensures var r := Feed(cfg, CompleteStep(cfg, c, rnd), chunks, rnds);
      r.hs.session.Some? && r.hs.privkey == c.hs.privkey <==> |c.hs.receivedPrefix| + |c.recvbuf| >= ELLSWIFT_LEN
  {
    hide Feed, CompleteStep, Allowed, Consistent;
    CompleteStepKeepsOwn(cfg, c, rnd);
    var r := CompleteStep(cfg, c, rnd);
    if r.hs.session.Some? {
      FeedKeepsOwn(cfg, r, chunks, rnds);
    } else {
      FeedAbandons(cfg, r, chunks, rnds, c.hs.privkey);
    }
  }

  /** A smallest failure: the rest of the key, whose next byte differs as well, comes with a second read.
      Two key pairs have been sent, and all 64 bytes of the key do not complete it. */
  lemma ResponderRestarts(cfg: Config, key: bytes, c: Conn, j: nat, i: nat, rnd: Random, rnd': Random)
    requires |key| == ELLSWIFT_LEN && FreshResponder(c) && DiffersAt(cfg, key, j)
    requires j < i < |key| && j + 1 < 16 && key[j + 1] != V1Prefix(cfg.magic)[j + 1]
    requires Allowed(cfg, rnd) && Allowed(cfg, rnd') && rnd.garbage == []
    ensures var r := DataReceived(cfg, DataReceived(cfg, c, key[..i], rnd), key[i..], rnd');
      && r.hs.session.None? && r.recvbuf == key[2 * j + 3..] && r.hs.receivedPrefix == key[..j + 2]
      && r.hs.ellswift == rnd'.ellswift
      && r.written == c.written + rnd.ellswift + rnd'.ellswift + rnd'.garbage
  {
    hide V1Prefix, DataReceived, Allowed, CompleteStep, Drop;
    var t := key[..i];
    var c1 := Answered(c, t, j, rnd);
    var b := key[j + 1..];
    PiecesOfKey(key, i, j);
    FirstReadAnswers(cfg, c, t, j, rnd);
    AgreementIs(V1Prefix(cfg.magic), j + 1, b, 0);
    SilentStep(cfg, c1, key[i..], rnd');
    CompleteStepKeepsOwn(cfg, c1.(hs := c1.hs.(receivedPrefix := key[..j + 2], privkey := rnd'.privkey,
                                               ellswift := rnd'.ellswift, sentGarbage := rnd'.garbage),
                                  recvbuf := key[2 * j + 3..],
                                  written := c1.written + rnd'.ellswift + rnd'.garbage), rnd');
  }

  lemma PiecesOfKey(key: bytes, i: nat, j: nat)
    requires j < i < |key| && 2 * j + 3 <= |key|
    ensures var t, b := key[..i], key[j + 1..];
      && t[..j] == key[..j] && t[..j + 1] == key[..j + 1] && t[j + 1..] + key[i..] == b
      && key[..j + 1] + b[..1] == key[..j + 2] && Drop(b, j + 2) == key[2 * j + 3..]
  {}

  lemma FirstReadAnswers(cfg: Config, c: Conn, t: bytes, j: nat, rnd: Random)
    requires FreshResponder(c) && DiffersAt(cfg, t, j) && |t| < ELLSWIFT_LEN && Allowed(cfg, rnd)
    ensures DataReceived(cfg, c, t, rnd) == Answered(c, t, j, rnd) && Consistent(Answered(c, t, j, rnd))
  {
    hide V1Prefix, DataReceived, Completed, AuthStep, Allowed;
    assert [] + t == t;
    KeptLaws([], t, j);
    ResponderKeeps(cfg, c, j, [], [], t, rnd);
  }

  // ---- A peer that speaks v1

  /** The read `t` completes the 16 bytes that `head + t` has in common with a v1 version message. */
  ghost predicate CompletesV1(cfg: Config, c: Conn, head: bytes, t: bytes) {
    FreshResponder(c) && |cfg.magic| == 4 && |head| < 16 <= |head + t| && (head + t)[..16] == V1Prefix(cfg.magic)
  }

  /** The connection becomes a v1 one, without the 16 bytes, and without as many again as came with earlier
      reads. */
  lemma Downgrades(cfg: Config, c: Conn, chunks: seq<bytes>, rnds: seq<Random>, t: bytes, rnd: Random)
    requires CompletesV1(cfg, c, Concat(chunks), t) && Allowed(cfg, rnd)
    requires |chunks| == |rnds| && AllAllowed(cfg, rnds)
    ensures var r := DataReceived(cfg, Feed(cfg, c, chunks, rnds), t, rnd);
      r.status == Downgraded && r.recvbuf == Drop(t, 16) && r.delivered == []
  {
    hide V1Prefix, DataReceived, CompleteStep, Feed;
    var head := Concat(chunks);
    WholePrefix(V1Prefix(cfg.magic), head, t);
    WhileMatching(cfg, c, chunks, rnds);
    assert [] + t == t;
    SilentStep(cfg, c.(hs := c.hs.(receivedPrefix := head)), t, rnd);
  }

  lemma WholePrefix(v1: bytes, head: bytes, t: bytes)
    requires |v1| == 16 && |head| < 16 <= |head + t| && (head + t)[..16] == v1
    ensures head == v1[..|head|] && Agreement(v1, |head|, t) == 16 - |head|
  {
    hide Agreement;
    assert head == (head + t)[..16][..|head|];
    assert t[..16 - |head|] == (head + t)[..16][|head|..] == v1[|head|..16];
    AgreementIs(v1, |head|, t, 16 - |head|);
  }

  /** A v1 receiver whose next four bytes are not the magic never delivers anything. */
  lemma {:induction false} NothingDelivered(v1: V1Framing.V1Config, s: V1Framing.V1State, chunks: seq<bytes>)
    requires |v1.magic| == 4 && s.outcome == V1Framing.Reading && s.delivered == []
    requires var all := s.recvbuf + Concat(chunks); |all| >= 4 ==> all[..4] != v1.magic
    ensures var r := V1Framing.FeedV1(v1, s, chunks);
      var all := s.recvbuf + Concat(chunks);
      && r.delivered == [] && (r.outcome == V1Framing.Reading ==> r.recvbuf == all)
      && (r.outcome == V1Framing.Reading <==> Concat(chunks) == [] || |all| < 4)
    decreases |chunks|
  {
    hide V1Framing.NextFrame;
    if chunks != [] {
      var n := |chunks| - 1;
      var head, t := Concat(chunks[..n]), chunks[n];
      var all := s.recvbuf + Concat(chunks);
      ConcatAssoc(s.recvbuf, head, t);
      SameStart(s.recvbuf + head, t);
      NothingDelivered(v1, s, chunks[..n]);
      MagicFirst(v1, all);
    } else {
      assert s.recvbuf + [] == s.recvbuf;
    }
  }

  lemma SameStart(s: bytes, t: bytes)
    ensures |s| >= 4 ==> s[..4] == (s + t)[..4]
    ensures t == [] ==> s + t == s
  {}

  lemma MagicFirst(v1: V1Framing.V1Config, buf: bytes)
    ensures |buf| < 4 ==> V1Framing.NextFrame(v1, buf) == V1Framing.Wait
    ensures |buf| >= 4 && buf[..4] != v1.magic ==> V1Framing.NextFrame(v1, buf) == V1Framing.Bad
  {}

  /** A peer that sends v1 frames, beginning with its version message: after the downgrade the connection
      never delivers one of them, whatever the later reads, unless the bytes it takes for the next header
      happen to be the magic. */
  lemma DowngradeLosesFrames(cfg: Config, c: Conn, v1: V1Framing.V1Config, ms: seq<Message>,
                             chunks: seq<bytes>, rnds: seq<Random>, t: bytes, rnd: Random, more: seq<bytes>)
    requires FreshResponder(c) && v1.magic == cfg.magic && Allowed(cfg, rnd)
    requires |chunks| == |rnds| && AllAllowed(cfg, rnds)
    requires V1Framing.AllEncodable(v1, ms) && ms != [] && ms[0].msgtype == Ascii("version")
    requires |Concat(chunks)| < 16 <= |Concat(chunks) + t|
    requires Concat(chunks) + t <= V1Framing.FramesFrom(v1, ms, 0)
    requires var rest := Drop(t, 16) + Concat(more); |rest| >= 4 ==> rest[..4] != v1.magic
    ensures var r := DataReceived(cfg, Feed(cfg, c, chunks, rnds), t, rnd);
      var r1 := V1Framing.FeedV1(v1, V1Framing.V1State(r.recvbuf, r.delivered, V1Framing.Reading), more);
      r.status == Downgraded && r1.delivered == []
      && (r1.outcome == V1Framing.Reading
          <==> Concat(more) == [] || |r.recvbuf + Concat(more)| < 4)
  {
    hide DataReceived, Feed, Concat, Allowed, V1Framing.FeedV1, V1Framing.FrameAt, V1Prefix;
    var w := Concat(chunks) + t;
    VersionFrameStart(cfg, v1, ms);
    assert w[..16] == V1Framing.FramesFrom(v1, ms, 0)[..16];
    Downgrades(cfg, c, chunks, rnds, t, rnd);
    NothingDelivered(v1, V1Framing.V1State(Drop(t, 16), [], V1Framing.Reading), more);
  }

  lemma VersionFrameStart(cfg: Config, v1: V1Framing.V1Config, ms: seq<Message>)
    requires v1.magic == cfg.magic && V1Framing.AllEncodable(v1, ms) && ms != [] && ms[0].msgtype == Ascii("version")
    ensures var w := V1Framing.FramesFrom(v1, ms, 0);
      |w| >= 24 && w[..16] == V1Prefix(cfg.magic) && w[16..20] == LE32(|ms[0].payload|)
  {
    hide LE32, Ascii;
    assert ms[0] in ms;
    var frame := V1Framing.FrameAt(v1, ms, 0);
    assert V1Framing.FramesFrom(v1, ms, 0) == frame + V1Framing.FramesFrom(v1, ms, 1);
    VersionLength();
    V1Framing.FieldsAt(v1.magic, ms[0].msgtype + Zeros(5), LE32(|ms[0].payload|), v1.checksum(ms[0].payload),
                       ms[0].payload, frame);
    assert frame[..16] == frame[..4] + frame[4..16];
  }

  lemma VersionLength()
    ensures |Ascii("version")| == 7
  {}

  /** In particular when the first read brings the 16 bytes: the length of the version message would have to
      be the magic. */
  lemma FirstReadDowngrades(cfg: Config, c: Conn, v1: V1Framing.V1Config, ms: seq<Message>, t: bytes, rnd: Random,
                            more: seq<bytes>)
    requires FreshResponder(c) && v1.magic == cfg.magic && Allowed(cfg, rnd)
    requires V1Framing.AllEncodable(v1, ms) && ms != [] && ms[0].msgtype == Ascii("version")
    requires |t| >= 16 && t + Concat(more) <= V1Framing.FramesFrom(v1, ms, 0)
    requires LE32(|ms[0].payload|) != v1.magic
    ensures var r := DataReceived(cfg, c, t, rnd);
      var r1 := V1Framing.FeedV1(v1, V1Framing.V1State(r.recvbuf, r.delivered, V1Framing.Reading), more);
      r.status == Downgraded && r1.delivered == []
      && (r1.outcome == V1Framing.Reading
          <==> Concat(more) == [] || |r.recvbuf + Concat(more)| < 4)
  {
    hide DataReceived, Allowed, LE32, V1Prefix, V1Framing.FeedV1, V1Framing.FrameAt;
    var all, w := t + Concat(more), V1Framing.FramesFrom(v1, ms, 0);
    VersionFrameStart(cfg, v1, ms);
    var rest := Drop(t, 16) + Concat(more);
    assert rest == all[16..];
    if |rest| >= 4 { assert rest[..4] == all[16..20] == w[..|all|][16..20] == w[16..20]; }
    assert [] + t == t;
    assert t <= all;
    DowngradeLosesFrames(cfg, c, v1, ms, [], [], t, rnd, more);
  }
}
