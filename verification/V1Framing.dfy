/** The v1 wire format (p2p.py): framing by magic, type, length and checksum over arbitrary chunks. */
module V1Framing {
  import opened Bytes
  import opened MessageTypes

  const HEADER_SIZE := 24

  /** The first four bytes of the double SHA-256, as an arbitrary function. */
  ghost predicate Yields4Bytes(f: bytes -> bytes) {
    forall x :: |f(x)| == 4
  }

  type Checksum = f: bytes -> bytes | Yields4Bytes(f) ghost witness (x: bytes) => Zeros(4)

  datatype V1Config = V1Config(magic: bytes, checksum: Checksum, known: set<bytes>)

  /** `build_message` without v2 support */
  function BuildMessage(cfg: V1Config, m: Message): (r: bytes)
    requires |m.payload| < U32
    ensures |m.msgtype| <= 12 && |cfg.magic| == 4 ==> |r| == HEADER_SIZE + |m.payload|
  {
    cfg.magic + m.msgtype + Zeros(if |m.msgtype| < 12 then 12 - |m.msgtype| else 0)
    + LE32(|m.payload|) + cfg.checksum(m.payload) + m.payload
  }

  /** The header of a message: four bytes of network magic, twelve of type, the length of the payload with the lowest
      byte first, and the checksum; then the payload. */
  lemma FrameLayout(cfg: V1Config, m: Message)
    requires |m.payload| < U32 && |m.msgtype| <= 12 && |cfg.magic| == 4
    ensures var s := BuildMessage(cfg, m);
      && |s| == 24 + |m.payload| && s[..4] == cfg.magic
      && s[4..16] == m.msgtype + Zeros(12 - |m.msgtype|)
      && FromLE(s[16..20]) == |m.payload| && s[20..24] == cfg.checksum(m.payload) && s[24..] == m.payload
  {
    hide LE32, FromLE;
    var s, l := BuildMessage(cfg, m), LE32(|m.payload|);
    assert s[16..20] == l;
  }

  /** `split(b"\x00", 1)[0]` */
  function UntilZero(s: bytes): (r: bytes)
    ensures |r| <= |s| && r == s[..|r|]
    ensures forall i :: 0 <= i < |r| ==> r[i] != 0
    ensures |r| < |s| ==> s[|r|] == 0
  {
    if s == [] || s[0] == 0 then [] else
      var t := UntilZero(s[1..]);
      assert [s[0]] + t == s[..|t| + 1];
      [s[0]] + t
  }

  /** Where Python's slices put an index `i` into a string of length `n`. */
  function Clip(n: nat, i: int): (k: nat)
    ensures k <= n && (0 <= i <= n ==> k == i)
  {
    if i + n < 0 then 0 else if i < 0 then n + i else if i <= n then i else n
  }

  /** `s[from:to]` */
  function Slice(s: bytes, from: int, to: int): (r: bytes)
    ensures 0 <= from <= to <= |s| ==> r == s[from..to]
  {
    var a, b := Clip(|s|, from), Clip(|s|, to);
    if a <= b then s[a..b] else []
  }

  /** One turn of the loop in `_on_data`. `Wait` leaves everything buffered, `Bad` is an exception, and
      `Frame` takes `size` bytes off the buffer: none at all for some negative length fields. */
  datatype Turn =
    | Wait
    | Bad
    | Frame(size: nat, message: Message)

  function NextFrame(cfg: V1Config, buf: bytes): (r: Turn)
    ensures r.Frame? ==> HEADER_SIZE <= |buf| && r.size <= |buf|
  {
    if |buf| < 4 then Wait
    else if buf[..4] != cfg.magic then Bad
    else if |buf| < HEADER_SIZE then Wait
    else
      var msglen := FromLESigned(buf[16..20]);
      if |buf| < HEADER_SIZE + msglen then Wait
      else
        var msg := Slice(buf, HEADER_SIZE, HEADER_SIZE + msglen);
        if buf[20..HEADER_SIZE] != cfg.checksum(msg) then Bad
        else
          var msgtype := UntilZero(buf[4..16]);
          if msgtype !in cfg.known then Bad
          else Frame(Clip(|buf|, HEADER_SIZE + msglen), Message(msgtype, msg))
  }

  /** Waiting for more bytes, ended by an exception, or delivering the same message for ever. */
  datatype Outcome = Reading | Closed | Endless

  datatype V1State = V1State(recvbuf: bytes, delivered: seq<Message>, outcome: Outcome)

  /** `_on_data` in v1 mode. A turn that leaves the buffer as it is would be repeated without end. */
  function OnDataV1(cfg: V1Config, s: V1State): V1State
    decreases |s.recvbuf|
  {
    match NextFrame(cfg, s.recvbuf)
    case Wait => s
    case Bad => s.(outcome := Closed)
    case Frame(size, m) =>
      if size == 0 then s.(outcome := Endless)
      else OnDataV1(cfg, V1State(s.recvbuf[size..], s.delivered + [m], s.outcome))
  }

  function FeedV1(cfg: V1Config, s: V1State, chunks: seq<bytes>): V1State {
    if chunks == [] then s
    else
      var n := |chunks| - 1;
      var before := FeedV1(cfg, s, chunks[..n]);
      if before.outcome == Reading then FeedV1Step(cfg, before, chunks[n]) else before
  }

  /** `data_received` in v1 mode */
  function FeedV1Step(cfg: V1Config, s: V1State, t: bytes): V1State {
    if t == [] then s else OnDataV1(cfg, s.(recvbuf := s.recvbuf + t))
  }

  // ---- Negative lengths

  /** The first `n` turns of the loop in `_on_data`; None once it has been left. */
  function Turns(cfg: V1Config, s: V1State, n: nat): Option<V1State>
    decreases n
  {
    if n == 0 then Some(s)
    else
      match NextFrame(cfg, s.recvbuf)
      case Frame(size, m) => Turns(cfg, V1State(s.recvbuf[size..], s.delivered + [m], s.outcome), n - 1)
      case _ => None
  }

  /** `Endless` is exactly the loop that is never left, however many turns it has taken. */
  lemma EndlessIff(cfg: V1Config, s: V1State)
    requires s.outcome == Reading
    ensures OnDataV1(cfg, s).outcome == Endless <==> forall n :: Turns(cfg, s, n).Some?
  {
    hide NextFrame, OnDataV1, Turns;
    if OnDataV1(cfg, s).outcome == Endless {
      forall n: nat
        ensures Turns(cfg, s, n).Some?
      {
        EndlessTurns(cfg, s, n);
      }
    } else {
      var n := LeavesLoop(cfg, s);
    }
  }

  lemma {:induction false} EndlessTurns(cfg: V1Config, s: V1State, n: nat)
    requires s.outcome == Reading && OnDataV1(cfg, s).outcome == Endless
    ensures Turns(cfg, s, n).Some?
    decreases n
  {
    hide NextFrame;
    if n > 0 {
      var turn := NextFrame(cfg, s.recvbuf);
      if turn.size == 0 { assert s.recvbuf[0..] == s.recvbuf; }
      EndlessTurns(cfg, V1State(s.recvbuf[turn.size..], s.delivered + [turn.message], Reading), n - 1);
    }
  }

  lemma {:induction false} LeavesLoop(cfg: V1Config, s: V1State) returns (n: nat)
    requires s.outcome == Reading && OnDataV1(cfg, s).outcome != Endless
    ensures Turns(cfg, s, n).None?
    decreases |s.recvbuf|
  {
    hide NextFrame;
    n := 0;
    var turn := NextFrame(cfg, s.recvbuf);
    if turn.Frame? { n := LeavesLoop(cfg, V1State(s.recvbuf[turn.size..], s.delivered + [turn.message], Reading)); }
    n := n + 1;
  }

  /** A turn takes something off the buffer exactly when the length field is above -24, or below it and the
      buffer is longer than that many bytes: a condition on the header and the number of bytes received. */
  lemma TurnShortensIff(cfg: V1Config, buf: bytes)
    requires NextFrame(cfg, buf).Frame?
    ensures var msglen := FromLESigned(buf[16..20]);
      NextFrame(cfg, buf).size > 0 <==> msglen > -24 || (msglen < -24 && |buf| > -24 - msglen)
  {}

  /** Exactly these received bytes keep the loop on its first turn: the header of an empty message of a known
      type whose length field says -24, or less by at least the number of bytes received. */
  lemma StuckIff(cfg: V1Config, buf: bytes)
    requires |cfg.magic| == 4
    ensures NextFrame(cfg, buf).Frame? && NextFrame(cfg, buf).size == 0
      <==> |buf| >= HEADER_SIZE && buf[..4] == cfg.magic && UntilZero(buf[4..16]) in cfg.known
           && buf[20..HEADER_SIZE] == cfg.checksum([])
           && (FromLESigned(buf[16..20]) == -24 || FromLESigned(buf[16..20]) <= -24 - |buf|)
  {
    hide UntilZero, FromLESigned;
  }

  /** The header of an empty message with -24 in the length field. */
  lemma StuckExample(cfg: V1Config, msgtype: bytes)
    requires |cfg.magic| == 4 && msgtype in cfg.known && |msgtype| <= 12 && 0 !in msgtype
    ensures var buf := cfg.magic + (msgtype + Zeros(12 - |msgtype|)) + [0xe8, 0xff, 0xff, 0xff] + cfg.checksum([]);
      FeedV1(cfg, V1State([], [], Reading), [buf]).outcome == Endless
  {
    hide UntilZero, FromLESigned, NextFrame;
    var field := msgtype + Zeros(12 - |msgtype|);
    var buf := cfg.magic + field + [0xe8, 0xff, 0xff, 0xff] + cfg.checksum([]);
    assert buf[..4] == cfg.magic && buf[4..16] == field && buf[16..20] == [0xe8, 0xff, 0xff, 0xff];
    assert buf[20..HEADER_SIZE] == cfg.checksum([]);
    PaddedType(msgtype);
    MinusTwentyFour();
    StuckIff(cfg, buf);
    assert [buf][..0] == [] && [] + buf == buf;
    assert FeedV1(cfg, V1State([], [], Reading), [buf][..0]) == V1State([], [], Reading);
  }

  lemma MinusTwentyFour()
    ensures FromLESigned([0xe8, 0xff, 0xff, 0xff]) == -24
  {
    Pow256Values();
    assert [0xff, 0xff, 0xff][1..] == [0xff, 0xff];
  }

  // ---- Properties

  predicate Encodable(cfg: V1Config, m: Message) {
    && m.msgtype in cfg.known && |m.msgtype| <= 12 && 0 !in m.msgtype
    && |m.payload| < 0x8000_0000
  }

  ghost predicate AllEncodable(cfg: V1Config, ms: seq<Message>) {
    |cfg.magic| == 4 && forall m :: m in ms ==> Encodable(cfg, m)
  }

  function FrameAt(cfg: V1Config, ms: seq<Message>, i: nat): (b: bytes)
    requires AllEncodable(cfg, ms) && i < |ms|
    ensures |b| >= HEADER_SIZE
  {
    assert ms[i] in ms;
    BuildMessage(cfg, ms[i])
  }

  function FramesFrom(cfg: V1Config, ms: seq<Message>, i: nat): bytes
    requires AllEncodable(cfg, ms) && i <= |ms|
    decreases |ms| - i
  {
    if i == |ms| then [] else FrameAt(cfg, ms, i) + FramesFrom(cfg, ms, i + 1)
  }

  lemma HeaderFields(cfg: V1Config, m: Message, buf: bytes)
    requires |cfg.magic| == 4 && Encodable(cfg, m)
    requires |buf| >= HEADER_SIZE && buf[..HEADER_SIZE] == BuildMessage(cfg, m)[..HEADER_SIZE]
    ensures buf[..4] == cfg.magic
    ensures UntilZero(buf[4..16]) == m.msgtype
    ensures FromLESigned(buf[16..20]) == |m.payload|
    ensures buf[20..24] == cfg.checksum(m.payload)
  {
    hide UntilZero, LE32, FromLESigned;
    var field := m.msgtype + Zeros(12 - |m.msgtype|);
    FieldsAt(cfg.magic, field, LE32(|m.payload|), cfg.checksum(m.payload), m.payload, buf);
    SmallLength(|m.payload|);
    PaddedType(m.msgtype);
  }

  lemma FieldsAt(magic: bytes, field: bytes, length: bytes, checksum: bytes, payload: bytes, buf: bytes)
    requires |magic| == |length| == |checksum| == 4 && |field| == 12 && |buf| >= HEADER_SIZE
    requires buf[..HEADER_SIZE] == (magic + field + length + checksum + payload)[..HEADER_SIZE]
    ensures buf[..4] == magic && buf[4..16] == field && buf[16..20] == length && buf[20..24] == checksum
  {
    var head := buf[..HEADER_SIZE];
    assert head == magic + field + length + checksum;
    assert buf[..4] == head[..4] && buf[4..16] == head[4..16] && buf[16..20] == head[16..20] && buf[20..24] == head[20..24];
  }

  lemma SmallLength(n: nat)
    requires n < 0x8000_0000
    ensures FromLESigned(LE32(n)) == n
  {
    Pow256Values();
  }

  /** The padding of a type without NUL is cut off again. */
  lemma PaddedType(msgtype: bytes)
    requires |msgtype| <= 12 && 0 !in msgtype
    ensures UntilZero(msgtype + Zeros(12 - |msgtype|)) == msgtype
  {
    hide UntilZero;
    var field := msgtype + Zeros(12 - |msgtype|);
    var r := UntilZero(field);
    assert |msgtype| < 12 ==> field[|msgtype|] == 0;
    forall i | 0 <= i < |msgtype|
      ensures field[i] != 0
    {
      assert msgtype[i] in msgtype;
    }
    assert |r| == |msgtype|;
    assert field[..|msgtype|] == msgtype;
  }

  /** A prefix of the remaining frames holds the next message exactly when its frame is complete. */
  lemma NextFrameInStep(cfg: V1Config, ms: seq<Message>, i: nat, buf: bytes)
    requires AllEncodable(cfg, ms) && i < |ms|
    requires buf <= FramesFrom(cfg, ms, i)
    ensures var n := |FrameAt(cfg, ms, i)|;
      && (|buf| < n ==> NextFrame(cfg, buf) == Wait)
      && (|buf| >= n ==> NextFrame(cfg, buf) == Frame(n, ms[i]) && buf[n..] <= FramesFrom(cfg, ms, i + 1))
  {
    hide BuildMessage, UntilZero, FromLESigned;
    assert ms[i] in ms;
    var frame := FrameAt(cfg, ms, i);
    var n := |frame|;
    assert FramesFrom(cfg, ms, i)[..n] == frame && FramesFrom(cfg, ms, i)[n..] == FramesFrom(cfg, ms, i + 1);
    if |buf| >= HEADER_SIZE {
      assert buf[..HEADER_SIZE] == frame[..HEADER_SIZE];
      HeaderFields(cfg, ms[i], buf);
      if |buf| >= n {
        assert buf[..n] == frame;
        FrameTail(cfg, ms[i]);
        assert buf[HEADER_SIZE..n] == frame[HEADER_SIZE..];
      }
    } else if |buf| >= 4 {
      FrameMagic(cfg, ms[i]);
      assert buf[..4] == frame[..4];
    }
  }

  lemma FrameMagic(cfg: V1Config, m: Message)
    requires |cfg.magic| == 4 && Encodable(cfg, m)
    ensures BuildMessage(cfg, m)[..4] == cfg.magic
  {}

  lemma FrameTail(cfg: V1Config, m: Message)
    requires |cfg.magic| == 4 && Encodable(cfg, m)
    ensures BuildMessage(cfg, m)[HEADER_SIZE..] == m.payload
  {}

  /** One call of `_on_data` delivers exactly the complete messages and keeps a proper prefix of the
      next frame. */
  lemma {:induction false} OnDataV1InStep(cfg: V1Config, ms: seq<Message>, i: nat, s: V1State) returns (j: nat)
    requires AllEncodable(cfg, ms) && i <= |ms| && s.outcome == Reading
    requires s.recvbuf <= FramesFrom(cfg, ms, i) && s.delivered == ms[..i]
    ensures i <= j <= |ms|
    ensures var r := OnDataV1(cfg, s);
      && r.outcome == Reading && r.delivered == ms[..j] && r.recvbuf <= FramesFrom(cfg, ms, j)
      && (j < |ms| ==> |r.recvbuf| < |FrameAt(cfg, ms, j)|)
      && |s.recvbuf| - |r.recvbuf| == |FramesFrom(cfg, ms, i)| - |FramesFrom(cfg, ms, j)|
    decreases |s.recvbuf|
  {
    hide NextFrame, FrameAt, Encodable;
    j := i;
    if i == |ms| {
      assert s.recvbuf == [];
      EmptyWaits(cfg);
    } else {
      NextFrameInStep(cfg, ms, i, s.recvbuf);
      var n := |FrameAt(cfg, ms, i)|;
      if |s.recvbuf| >= n {
        assert ms[..i] + [ms[i]] == ms[..i + 1];
        j := OnDataV1InStep(cfg, ms, i + 1, V1State(s.recvbuf[n..], ms[..i + 1], Reading));
      }
    }
  }

  lemma EmptyWaits(cfg: V1Config)
    ensures NextFrame(cfg, []) == Wait
  {}

  /** For every list of messages and every fragmentation of any prefix of their frames, the receiver
      has delivered exactly the complete messages, in order, and buffers a proper prefix of the next. */
  lemma {:induction false} V1Delivers(cfg: V1Config, ms: seq<Message>, chunks: seq<bytes>) returns (j: nat)
    requires AllEncodable(cfg, ms) && Concat(chunks) <= FramesFrom(cfg, ms, 0)
    ensures j <= |ms|
    ensures var r := FeedV1(cfg, V1State([], [], Reading), chunks);
      && r.outcome == Reading && r.delivered == ms[..j] && r.recvbuf <= FramesFrom(cfg, ms, j)
      && |Concat(chunks)| - |r.recvbuf| == |FramesFrom(cfg, ms, 0)| - |FramesFrom(cfg, ms, j)|
      && (j < |ms| ==> |r.recvbuf| < |FrameAt(cfg, ms, j)|)
    decreases chunks
  {
    hide FrameAt, Encodable;
    if chunks == [] {
      j := 0;
      if ms != [] { FirstFrameNonempty(cfg, ms); }
    } else {
      var n := |chunks| - 1;
      var head, t := Concat(chunks[..n]), chunks[n];
      assert head <= Concat(chunks);
      j := V1Delivers(cfg, ms, chunks[..n]);
      var before := FeedV1(cfg, V1State([], [], Reading), chunks[..n]);
      var all, rest := FramesFrom(cfg, ms, 0), FramesFrom(cfg, ms, j);
      if t != [] {
        FramesSuffix(cfg, ms, 0, j);
        Continue(all, rest, head, before.recvbuf, t);
        j := OnDataV1InStep(cfg, ms, j, before.(recvbuf := before.recvbuf + t));
      }
    }
  }

  lemma FirstFrameNonempty(cfg: V1Config, ms: seq<Message>)
    requires AllEncodable(cfg, ms) && ms != []
    ensures |FrameAt(cfg, ms, 0)| > 0
  {}

  lemma {:induction false} FramesSuffix(cfg: V1Config, ms: seq<Message>, i: nat, j: nat)
    requires AllEncodable(cfg, ms) && i <= j <= |ms|
    ensures |FramesFrom(cfg, ms, j)| <= |FramesFrom(cfg, ms, i)|
    ensures FramesFrom(cfg, ms, i)[|FramesFrom(cfg, ms, i)| - |FramesFrom(cfg, ms, j)|..] == FramesFrom(cfg, ms, j)
    decreases j - i
  {
    hide FrameAt, Encodable;
    if i < j {
      FramesSuffix(cfg, ms, i + 1, j);
      var f, r := FrameAt(cfg, ms, i), FramesFrom(cfg, ms, i + 1);
      var n := |r| - |FramesFrom(cfg, ms, j)|;
      assert (f + r)[|f| + n..] == r[n..];
    }
  }

  /** Appending the next bytes of the stream to what is buffered keeps a prefix of the rest. */
  lemma Continue(all: bytes, rest: bytes, head: bytes, buf: bytes, t: bytes)
    requires head + t <= all && |rest| <= |all| && all[|all| - |rest|..] == rest
    requires buf <= rest && |head| - |buf| == |all| - |rest|
    ensures buf + t <= rest
  {
    var k := |all| - |rest|;
    assert (head + t)[k..] <= all[k..];
    assert head == all[..|head|];
    assert head[k..] == buf;
    assert (head + t)[k..] == buf + t;
  }
}
