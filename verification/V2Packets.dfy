/** BIP 324 packets (v2_p2p.py): the two ciphers of one direction, sender and receiver in lockstep. */
module V2Packets {
  import opened Bytes
  import opened StreamCipher
  import opened Aead
  import opened StreamCipherRuns

  const CHACHA20POLY1305_EXPANSION := 16
  const HEADER_LEN := 1
  const IGNORE_BIT: byte := 128
  const LENGTH_FIELD_LEN := 3
  const MAX_CONTENTS_LEN: nat := 0xff_ffff

  // ---- One packet, at the sender

  /** The ciphers of one direction: the length cipher and the packet cipher. */
  datatype Direction = Direction(lengths: Position, packets: Keyed)

  datatype Packet = Packet(contents: bytes, aad: bytes, ignore: bool)

  predicate Sendable(p: Packet) {
    |p.contents| <= MAX_CONTENTS_LEN && |p.aad| < U64
  }

  /** Both ciphers can still number their epochs with 64 bits. */
  predicate Live(d: Direction) {
    d.lengths.chunks / REKEY_INTERVAL < U64 && d.packets.packets / REKEY_INTERVAL < U64
  }

  function LengthField(n: nat): (r: bytes)
    requires n <= MAX_CONTENTS_LEN
    ensures |r| == LENGTH_FIELD_LEN && FromLE(r) == n
  {
    Pow256Values();
    LE(n, LENGTH_FIELD_LEN)
  }

  function Plaintext(p: Packet): bytes {
    [if p.ignore then IGNORE_BIT else 0] + p.contents
  }

  function EncPacket(block: Block, d: Direction, p: Packet): (r: (bytes, Direction))
    requires Live(d) && Sendable(p)
    ensures |r.0| == LENGTH_FIELD_LEN + HEADER_LEN + |p.contents| + CHACHA20POLY1305_EXPANSION
  {
    var sealed := Seal(block, d.packets.key, PacketNonce(d.packets.packets), p.aad, Plaintext(p));
    var (enc, lengths) := CryptSpec(block, REKEY_INTERVAL, d.lengths, LengthField(|p.contents|));
    (enc + sealed, Direction(lengths, Advance(block, d.packets)))
  }

  /** A packet on the wire: its length under the length cipher, then, sealed, a byte with the ignore bit and the
      contents. */
  lemma PacketWire(block: Block, d: Direction, p: Packet)
    requires Live(d) && Sendable(p)
    ensures var (w, d') := EncPacket(block, d, p);
      && FromLE(CryptSpec(block, REKEY_INTERVAL, d.lengths, w[..3]).0) == |p.contents|
      && Open(block, d.packets.key, PacketNonce(d.packets.packets), p.aad, w[3..])
         == Some([if p.ignore then 0x80 else 0] + p.contents)
      && d'.packets == Advance(block, d.packets)
      && d'.lengths == CryptSpec(block, REKEY_INTERVAL, d.lengths, w[..3]).1
  {
    hide Seal, Open, CryptSpec, FromLE;
    var field := LengthField(|p.contents|);
    var enc := CryptSpec(block, REKEY_INTERVAL, d.lengths, field).0;
    var sealed := Seal(block, d.packets.key, PacketNonce(d.packets.packets), p.aad, Plaintext(p));
    assert EncPacket(block, d, p).0[..3] == enc && EncPacket(block, d, p).0[3..] == sealed;
    CryptInverts(block, REKEY_INTERVAL, d.lengths, field);
    OpenIffSeal(block, d.packets.key, PacketNonce(d.packets.packets), p.aad, sealed, Plaintext(p));
  }

  // ---- One attempt to receive, possibly repeated while bytes are missing

  /** The receiving ciphers and the decrypted length of the packet being waited for (-1: none). */
  datatype Receiver = Receiver(dir: Direction, contentsLen: int)

  /** `Overflow`: an epoch number no longer fits in 8 bytes and `to_bytes` raises. */
  datatype Received =
    | NeedMore
    | BadMac
    | Overflow
    | Got(length: nat, contents: Option<bytes>)

  predicate Receivable(r: Receiver) {
    -1 <= r.contentsLen <= MAX_CONTENTS_LEN
  }

  /** Decrypt the length field unless that has been done in an earlier attempt. */
  function LearnLength(block: Block, r: Receiver, response: bytes): (r': Receiver)
    requires Receivable(r)
    requires r.contentsLen == -1 ==>
      |response| >= LENGTH_FIELD_LEN && r.dir.lengths.chunks / REKEY_INTERVAL < U64
    ensures 0 <= r'.contentsLen <= MAX_CONTENTS_LEN
    ensures r'.dir.packets == r.dir.packets
  {
    if r.contentsLen != -1 then r
    else
      var (len, lengths) := CryptSpec(block, REKEY_INTERVAL, r.dir.lengths, response[..LENGTH_FIELD_LEN]);
      Pow256Values();
      Receiver(Direction(lengths, r.dir.packets), FromLE(len))
  }

  function Receive(block: Block, r: Receiver, response: bytes, aad: bytes): (res: (Received, Receiver))
    requires Receivable(r) && |aad| < U64
    ensures Receivable(res.1)
    ensures res.0.Got? ==> 0 < res.0.length <= |response|
  {
    if r.contentsLen == -1 && |response| < LENGTH_FIELD_LEN then (NeedMore, r)
    else if r.contentsLen == -1 && r.dir.lengths.chunks / REKEY_INTERVAL >= U64 then (Overflow, r)
    else
      var r' := LearnLength(block, r, response);
      var size := HEADER_LEN + r'.contentsLen + CHACHA20POLY1305_EXPANSION;
      if |response| < LENGTH_FIELD_LEN + size then (NeedMore, r')
      else if r'.dir.packets.packets / REKEY_INTERVAL >= U64 then (Overflow, r')
      else
        var cipher := response[LENGTH_FIELD_LEN..LENGTH_FIELD_LEN + size];
        var plain := Open(block, r'.dir.packets.key, PacketNonce(r'.dir.packets.packets), aad, cipher);
        var dir := Direction(r'.dir.lengths, Advance(block, r'.dir.packets));
        match plain
        case None => (BadMac, Receiver(dir, r'.contentsLen))
        case Some(p) =>
          (Got(LENGTH_FIELD_LEN + size, if p[0] >= IGNORE_BIT then None else Some(p[1..])), Receiver(dir, -1))
  }

  // ---- A stream of packets

  predicate StreamOk(packets: seq<Packet>) {
    |packets| <= REKEY_INTERVAL * U64 && forall p :: p in packets ==> Sendable(p)
  }

  /** The sender's ciphers before packet `n`, starting from fresh keys. */
  function DirAt(block: Block, start: Direction, packets: seq<Packet>, n: nat): (d: Direction)
    requires StreamOk(packets) && n <= |packets| && Fresh(start)
    ensures d.lengths.chunks == n && d.packets.packets == n
  {
    if n == 0 then start else EncPacket(block, DirAt(block, start, packets, n - 1), packets[n - 1]).1
  }

  predicate Fresh(d: Direction) {
    d.lengths.chunks == 0 && d.packets.packets == 0
  }

  function PacketAt(block: Block, start: Direction, packets: seq<Packet>, i: nat): (b: bytes)
    requires StreamOk(packets) && i < |packets| && Fresh(start)
    ensures |b| == LENGTH_FIELD_LEN + HEADER_LEN + |packets[i].contents| + CHACHA20POLY1305_EXPANSION
  {
    EncPacket(block, DirAt(block, start, packets, i), packets[i]).0
  }

  /** The bytes of packets `i`, `i + 1`, ... */
  function StreamFrom(block: Block, start: Direction, packets: seq<Packet>, i: nat): bytes
    requires StreamOk(packets) && i <= |packets| && Fresh(start)
    decreases |packets| - i
  {
    if i == |packets| then []
    else PacketAt(block, start, packets, i) + StreamFrom(block, start, packets, i + 1)
  }

  /** The receiver has accepted exactly packets `0 .. i`: its packet cipher stands where the
      sender's stood before packet `i`, and its length cipher has been advanced once per accepted
      packet, plus once more exactly when the length of packet `i` is already known. */
  ghost predicate InStep(block: Block, start: Direction, packets: seq<Packet>, i: nat, r: Receiver)
    requires StreamOk(packets) && i <= |packets| && Fresh(start)
  {
    && r.dir.packets == DirAt(block, start, packets, i).packets
    && if r.contentsLen == -1 then r.dir.lengths == DirAt(block, start, packets, i).lengths
       else i < |packets| && r.contentsLen == |packets[i].contents|
            && r.dir.lengths == DirAt(block, start, packets, i + 1).lengths
  }

  function Visible(p: Packet): Option<bytes> {
    if p.ignore then None else Some(p.contents)
  }

  /** Decrypting the first three bytes of a packet yields its length and the sender's next state. */
  lemma LengthRoundTrip(block: Block, d: Direction, p: Packet, response: bytes)
    requires Live(d) && Sendable(p)
    requires |response| >= LENGTH_FIELD_LEN
    requires response[..LENGTH_FIELD_LEN] == EncPacket(block, d, p).0[..LENGTH_FIELD_LEN]
    ensures CryptSpec(block, REKEY_INTERVAL, d.lengths, response[..LENGTH_FIELD_LEN])
         == (LengthField(|p.contents|), EncPacket(block, d, p).1.lengths)
  {
    hide CryptSpec, Seal;
    CryptInverts(block, REKEY_INTERVAL, d.lengths, LengthField(|p.contents|));
    var enc := CryptSpec(block, REKEY_INTERVAL, d.lengths, LengthField(|p.contents|)).0;
    assert EncPacket(block, d, p).0[..LENGTH_FIELD_LEN] == enc;
  }

  lemma BodyRoundTrip(block: Block, d: Direction, p: Packet)
    requires Live(d) && Sendable(p)
    ensures Open(block, d.packets.key, PacketNonce(d.packets.packets), p.aad,
                 EncPacket(block, d, p).0[LENGTH_FIELD_LEN..]) == Some(Plaintext(p))
  {
    hide CryptSpec, Seal, Open;
    var sealed := Seal(block, d.packets.key, PacketNonce(d.packets.packets), p.aad, Plaintext(p));
    assert EncPacket(block, d, p).0[LENGTH_FIELD_LEN..] == sealed;
    OpenIffSeal(block, d.packets.key, PacketNonce(d.packets.packets), p.aad, sealed, Plaintext(p));
  }

  /** The length cipher is advanced once per packet, at the first attempt that has 3 bytes. */
  lemma LearnLengthInStep(block: Block, start: Direction, packets: seq<Packet>, i: nat, r: Receiver, buf: bytes)
    requires StreamOk(packets) && i < |packets| && Fresh(start)
    requires InStep(block, start, packets, i, r) && Receivable(r)
    requires buf <= StreamFrom(block, start, packets, i)
    requires r.contentsLen == -1 ==> |buf| >= LENGTH_FIELD_LEN
    ensures LearnLength(block, r, buf) == Receiver(
      Direction(DirAt(block, start, packets, i + 1).lengths, DirAt(block, start, packets, i).packets),
      |packets[i].contents|)
  {
    hide CryptSpec, EncPacket;
    assert packets[i] in packets;
    if r.contentsLen == -1 {
      var packet := PacketAt(block, start, packets, i);
      assert buf[..LENGTH_FIELD_LEN] == packet[..LENGTH_FIELD_LEN];
      LengthRoundTrip(block, DirAt(block, start, packets, i), packets[i], buf);
    }
  }

  /** One attempt on any prefix of the remaining stream: the next packet is accepted exactly when
      all its bytes are there; otherwise nothing is lost and the attempt can be repeated. */
  lemma ReceiveInStep(block: Block, start: Direction, packets: seq<Packet>, i: nat, r: Receiver, buf: bytes, aad: bytes)
    requires StreamOk(packets) && i < |packets| && Fresh(start)
    requires InStep(block, start, packets, i, r) && Receivable(r)
    requires buf <= StreamFrom(block, start, packets, i)
    requires aad == packets[i].aad && |aad| < U64
    ensures var (res, r') := Receive(block, r, buf, aad);
      var whole := |PacketAt(block, start, packets, i)|;
      && (|buf| < whole ==> res == NeedMore && InStep(block, start, packets, i, r'))
      && (|buf| >= whole ==> res == Got(whole, Visible(packets[i])) && InStep(block, start, packets, i + 1, r'))
  {
    hide LearnLength, Open, EncPacket, PacketNonce;
    if r.contentsLen == -1 && |buf| < LENGTH_FIELD_LEN { return; }
    LearnLengthInStep(block, start, packets, i, r, buf);
    var d, packet := DirAt(block, start, packets, i), PacketAt(block, start, packets, i);
    PacketsAdvance(block, start, packets, i);
    if |buf| >= |packet| {
      assert buf[LENGTH_FIELD_LEN..|packet|] == packet[LENGTH_FIELD_LEN..];
      assert packets[i] in packets;
      BodyRoundTrip(block, d, packets[i]);
      assert Plaintext(packets[i])[1..] == packets[i].contents;
    }
  }

  lemma PacketsAdvance(block: Block, start: Direction, packets: seq<Packet>, i: nat)
    requires StreamOk(packets) && i < |packets| && Fresh(start)
    ensures DirAt(block, start, packets, i + 1).packets == Advance(block, DirAt(block, start, packets, i).packets)
  {
    assert packets[i] in packets;
  }

  lemma StreamFromStep(block: Block, start: Direction, packets: seq<Packet>, i: nat)
    requires StreamOk(packets) && i < |packets| && Fresh(start)
    ensures |StreamFrom(block, start, packets, i)|
         == |PacketAt(block, start, packets, i)| + |StreamFrom(block, start, packets, i + 1)|
    ensures |PacketAt(block, start, packets, i)| > 0
  {}

  lemma StreamFromDrop(block: Block, start: Direction, packets: seq<Packet>, i: nat, buf: bytes)
    requires StreamOk(packets) && i < |packets| && Fresh(start)
    requires buf <= StreamFrom(block, start, packets, i) && |buf| >= |PacketAt(block, start, packets, i)|
    ensures buf[|PacketAt(block, start, packets, i)|..] <= StreamFrom(block, start, packets, i + 1)
  {
    var n := |PacketAt(block, start, packets, i)|;
    assert StreamFrom(block, start, packets, i)[n..] == StreamFrom(block, start, packets, i + 1);
  }

  // ---- The sender's view of the same stream

  /** The bytes of packets `0 .. n`. */
  function StreamTo(block: Block, start: Direction, packets: seq<Packet>, n: nat): bytes
    requires StreamOk(packets) && n <= |packets| && Fresh(start)
  {
    if n == 0 then []
    else StreamTo(block, start, packets, n - 1) + PacketAt(block, start, packets, n - 1)
  }

  /** What has been sent and what is still to come make up the whole stream. */
  lemma {:induction false} StreamSplit(block: Block, start: Direction, packets: seq<Packet>, n: nat)
    requires StreamOk(packets) && n <= |packets| && Fresh(start)
    ensures StreamTo(block, start, packets, n) + StreamFrom(block, start, packets, n)
         == StreamFrom(block, start, packets, 0)
  {
    hide PacketAt;
    if n > 0 {
      StreamSplit(block, start, packets, n - 1);
    }
  }

  /** What is sent does not depend on the packets that come later. */
  lemma {:induction false} StreamToPrefix(block: Block, start: Direction, packets: seq<Packet>, more: seq<Packet>, n: nat)
    requires StreamOk(packets + more) && StreamOk(packets) && n <= |packets| && Fresh(start)
    ensures DirAt(block, start, packets + more, n) == DirAt(block, start, packets, n)
    ensures StreamTo(block, start, packets + more, n) == StreamTo(block, start, packets, n)
  {
    hide EncPacket;
    if n > 0 {
      StreamToPrefix(block, start, packets, more, n - 1);
      assert (packets + more)[n - 1] == packets[n - 1];
    }
  }
}
