/** Scripts (script.py): building, raw iteration and FindAndDelete. */
module Script {
  import opened Bytes

  const OP_PUSHDATA1: byte := 0x4c
  const OP_PUSHDATA2: byte := 0x4d
  const OP_PUSHDATA4: byte := 0x4e
  const OP_RETURN: byte := 0x6a
  const OP_CODESEPARATOR: byte := 0xab

  /** `CScriptOp.encode_op_pushdata`; longer data is a ValueError. */
  function EncodePushdata(d: bytes): (r: bytes)
    requires |d| < U32
    ensures r != []
  {
    if |d| < 0x4c then [|d|] + d
    else if |d| <= 0xff then [OP_PUSHDATA1, |d|] + d
    else if |d| <= 0xffff then [OP_PUSHDATA2] + LE16(|d|) + d
    else [OP_PUSHDATA4] + LE32(|d|) + d
  }

  /** A push starts with its length below 76, or with one of three opcodes and the length in 1, 2 or 4 bytes, the
      lowest first. */
  lemma PushLayout(d: bytes)
    requires |d| < U32
    ensures var s := EncodePushdata(d);
      && (|d| < 76 ==> s[0] == |d| && s[1..] == d)
      && (76 <= |d| < 0x100 ==> s[0] == 0x4c && |s| == 2 + |d| && s[1] == |d| && s[2..] == d)
      && (0x100 <= |d| < 0x1_0000 ==> s[0] == 0x4d && |s| == 3 + |d| && FromLE(s[1..3]) == |d| && s[3..] == d)
      && (0x1_0000 <= |d| ==> s[0] == 0x4e && |s| == 5 + |d| && FromLE(s[1..5]) == |d| && s[5..] == d)
  {
    hide LE16, LE32, FromLE;
    var s := EncodePushdata(d);
    if 0x100 <= |d| < 0x1_0000 { assert s[1..3] == LE16(|d|); }
    if 0x1_0000 <= |d| { assert s[1..5] == LE32(|d|); }
  }

  // ---- Raw iteration

  /** An opcode, its pushed data if it is a push, and the number of bytes it takes. */
  datatype Op = Op(opcode: byte, data: Option<bytes>, size: nat)

  /** The number of length bytes after a push opcode. */
  function LengthBytes(opcode: byte): nat {
    if opcode == OP_PUSHDATA1 then 1
    else if opcode == OP_PUSHDATA2 then 2
    else if opcode == OP_PUSHDATA4 then 4
    else 0
  }

  /** The operation at the start of `s`; None is an exception for missing length or data bytes. */
  function NextOp(s: bytes): (r: Option<Op>)
    requires s != []
    ensures r.Some? ==> 0 < r.value.size <= |s| && r.value.opcode == s[0]
  {
    var opcode := s[0];
    if opcode > OP_PUSHDATA4 then Some(Op(opcode, None, 1))
    else
      var n := LengthBytes(opcode);
      if |s| < 1 + n then None
      else
        var datasize := if n == 0 then opcode else FromLE(s[1..1 + n]);
        if |s| < 1 + n + datasize then None
        else Some(Op(opcode, Some(s[1 + n..1 + n + datasize]), 1 + n + datasize))
  }

  /** `raw_iter`, with offsets starting at `at`; None if it raises. */
  function RawIter(s: bytes, at: nat): Option<seq<(Op, nat)>>
    decreases |s|
  {
    if s == [] then Some([])
    else
      var op := NextOp(s);
      if op.None? then None
      else
        var rest := RawIter(s[op.value.size..], at + op.value.size);
        if rest.None? then None else Some([(op.value, at)] + rest.value)
  }

  method RawIterate(script: bytes) returns (r: Option<seq<(Op, nat)>>)
    ensures r == RawIter(script, 0)
  {
    hide NextOp;
    var i: nat, ops: seq<(Op, nat)> := 0, [];
    assert script[0..] == script;
    PrependLaws(ops, RawIter(script, 0));
    while i < |script|
      invariant i <= |script|
      invariant RawIter(script, 0) == Prepend(ops, RawIter(script[i..], i))
    {
      var op := ReadOp(script, i);
      if op.None? { return None; }
      NextOpFits(script[i..]);
      assert script[i..][op.value.size..] == script[i + op.value.size..];
      PrependMore(ops, [(op.value, i)], RawIter(script[i + op.value.size..], i + op.value.size));
      ops := ops + [(op.value, i)];
      i := i + op.value.size;
    }
    PrependLaws(ops, Some([]));
    r := Some(ops);
  }

  /** One turn of the generator's loop. */
  method ReadOp(script: bytes, sop: nat) returns (op: Option<Op>)
    requires sop < |script|
    ensures op == NextOp(script[sop..])
  {
    ghost var rest := script[sop..];
    var i := sop;
    var opcode := script[i];
    i := i + 1;
    if opcode > OP_PUSHDATA4 { return Some(Op(opcode, None, i - sop)); }
    var datasize: nat := opcode;
    var n := LengthBytes(opcode);
    if n > 0 {
      if |script| < i + n { return None; }
      SliceOfDrop(script, sop, 1, 1 + n);
      datasize := FromLE(script[i..i + n]);
      i := i + n;
    }
    if |script| < i + datasize { return None; }
    var data := script[i..i + datasize];
    SliceOfDrop(script, sop, 1 + n, 1 + n + datasize);
    i := i + datasize;
    op := Some(Op(opcode, Some(data), i - sop));
  }

  lemma SliceOfDrop(s: bytes, k: nat, a: nat, b: nat)
    requires k <= |s| && a <= b && k + b <= |s|
    ensures s[k..][a..b] == s[k + a..k + b]
  {}

  lemma TailOfConcat(a: bytes, d: bytes)
    ensures (a + d)[|a|..|a| + |d|] == d
  {}

  // ---- Scripts as lists of self-contained encodings

  /** `b` is exactly one encoded operation. */
  predicate Encodes(b: bytes, op: Op) {
    b != [] && NextOp(b) == Some(op) && op.size == |b|
  }

  /** Only its own bytes matter for the operation that is read. */
  lemma NextOpLocal(s: bytes, tail: bytes)
    requires s != [] && NextOp(s).Some?
    ensures var op := NextOp(s).value; Encodes(s[..op.size], op) && NextOp(s[..op.size] + tail) == Some(op)
  {
    var op := NextOp(s).value;
    var b := s[..op.size];
    if op.data.Some? {
      var n := LengthBytes(s[0]);
      assert b[1..1 + n] == s[1..1 + n] == (b + tail)[1..1 + n];
      assert b[1 + n..op.size] == s[1 + n..op.size] == (b + tail)[1 + n..op.size];
    }
  }

  function Join(parts: seq<bytes>): bytes {
    if parts == [] then [] else parts[0] + Join(parts[1..])
  }

  ghost predicate AllEncode(parts: seq<bytes>, ops: seq<Op>) {
    |parts| == |ops| && forall i :: 0 <= i < |parts| ==> Encodes(parts[i], ops[i])
  }

  function WithOffsets(ops: seq<Op>, at: nat): (r: seq<(Op, nat)>)
    ensures |r| == |ops|
  {
    if ops == [] then [] else [(ops[0], at)] + WithOffsets(ops[1..], at + ops[0].size)
  }

  /** A concatenation of encodings is read back as exactly those operations, each at the offset where
      the encodings before it end. */
  lemma {:induction false} ParseJoin(parts: seq<bytes>, ops: seq<Op>, at: nat)
    requires AllEncode(parts, ops)
    ensures RawIter(Join(parts), at) == Some(WithOffsets(ops, at))
  {
    hide NextOp;
    if parts != [] {
      var b, tail := parts[0], Join(parts[1..]);
      ParseJoin(parts[1..], ops[1..], at + ops[0].size);
      assert Encodes(b, ops[0]);
      NextOpLocal(b, tail);
      assert b[..|b|] == b && (b + tail)[|b|..] == tail;
    }
  }

  /** The pieces of a readable script. */
  function Pieces(s: bytes): (r: seq<bytes>)
    requires RawIter(s, 0).Some?
    ensures Join(r) == s
    decreases |s|
  {
    if s == [] then []
    else
      var n := NextOp(s).value.size;
      RawIterShift(s[n..], n, 0);
      var r := [s[..n]] + Pieces(s[n..]);
      assert r[1..] == Pieces(s[n..]);
      assert s == s[..n] + s[n..];
      r
  }

  function OpsOf(s: bytes): (r: seq<Op>)
    requires RawIter(s, 0).Some?
    decreases |s|
  {
    if s == [] then []
    else
      var op := NextOp(s).value;
      RawIterShift(s[op.size..], op.size, 0);
      [op] + OpsOf(s[op.size..])
  }

  lemma {:induction false} RawIterShift(s: bytes, at: nat, at': nat)
    ensures RawIter(s, at).Some? <==> RawIter(s, at').Some?
    decreases |s|
  {
    if s != [] && NextOp(s).Some? {
      var n := NextOp(s).value.size;
      RawIterShift(s[n..], at + n, at' + n);
    }
  }

  lemma {:induction false} PiecesEncode(s: bytes)
    requires RawIter(s, 0).Some?
    ensures AllEncode(Pieces(s), OpsOf(s))
    decreases |s|
  {
    hide NextOp;
    if s != [] {
      var op := NextOp(s).value;
      NextOpFits(s);
      RawIterShift(s[op.size..], op.size, 0);
      PiecesEncode(s[op.size..]);
      NextOpLocal(s, []);
    }
  }

  lemma NextOpFits(s: bytes)
    requires s != [] && NextOp(s).Some?
    ensures 0 < NextOp(s).value.size <= |s|
  {}

  /** The offsets of any readable script partition its bytes. */
  lemma OffsetsPartition(s: bytes)
    requires RawIter(s, 0).Some?
    ensures RawIter(s, 0).value == WithOffsets(OpsOf(s), 0)
    ensures Join(Pieces(s)) == s && AllEncode(Pieces(s), OpsOf(s))
  {
    PiecesEncode(s);
    ParseJoin(Pieces(s), OpsOf(s), 0);
  }

  // ---- Building

  /** An element of the list a script is built from: a non-push opcode or data to push. */
  datatype Token = Code(opcode: byte) | Push(data: bytes)

  predicate Buildable(t: Token) {
    if t.Code? then t.opcode > OP_PUSHDATA4 else |t.data| < U32
  }

  function TokenBytes(t: Token): bytes
    requires Buildable(t)
  {
    if t.Code? then [t.opcode] else EncodePushdata(t.data)
  }

  function TokenOp(t: Token): Op
    requires Buildable(t)
  {
    Op(TokenBytes(t)[0], if t.Code? then None else Some(t.data), |TokenBytes(t)|)
  }

  /** Every token is encoded as exactly one operation that carries its data. */
  lemma TokenEncodes(t: Token)
    requires Buildable(t)
    ensures Encodes(TokenBytes(t), TokenOp(t))
  {
    if t.Push? {
      var b, d := TokenBytes(t), t.data;
      var n := LengthBytes(b[0]);
      var length: bytes := if n == 1 then [|d|] else if n == 2 then LE16(|d|) else if n == 4 then LE32(|d|) else [];
      var header := [b[0]] + length;
      assert b == header + d;
      assert b[1..1 + n] == length;
      TailOfConcat(header, d);
      if n == 1 { assert FromLE([|d|]) == |d|; }
    }
  }

  ghost predicate AllBuildable(tokens: seq<Token>) {
    forall t :: t in tokens ==> Buildable(t)
  }

  function TokenParts(tokens: seq<Token>): (r: seq<bytes>)
    requires AllBuildable(tokens)
    ensures |r| == |tokens| && forall i :: 0 <= i < |r| ==> r[i] == TokenBytes(tokens[i])
  {
    seq(|tokens|, i requires 0 <= i < |tokens| => assert tokens[i] in tokens; TokenBytes(tokens[i]))
  }

  function TokenOps(tokens: seq<Token>): (r: seq<Op>)
    requires AllBuildable(tokens)
    ensures |r| == |tokens| && forall i :: 0 <= i < |r| ==> r[i] == TokenOp(tokens[i])
  {
    seq(|tokens|, i requires 0 <= i < |tokens| => assert tokens[i] in tokens; TokenOp(tokens[i]))
  }

  /** `CScript([...])` */
  function Build(tokens: seq<Token>): bytes
    requires AllBuildable(tokens)
  {
    Join(TokenParts(tokens))
  }

  /** Reading a script built from any list of opcodes and data gives the list back, with the offsets
      where its elements start. */
  lemma BuildParses(tokens: seq<Token>)
    requires AllBuildable(tokens)
    ensures RawIter(Build(tokens), 0) == Some(WithOffsets(TokenOps(tokens), 0))
  {
    forall i | 0 <= i < |tokens|
      ensures Encodes(TokenParts(tokens)[i], TokenOps(tokens)[i])
    {
      assert tokens[i] in tokens;
      TokenEncodes(tokens[i]);
    }
    ParseJoin(TokenParts(tokens), TokenOps(tokens), 0);
  }

  // ---- FindAndDelete

  predicate StartsWith(s: bytes, sig: bytes) {
    sig <= s
  }

  /** The pieces that do not begin with `sig`, where the match may run on into later pieces. */
  function Kept(parts: seq<bytes>, sig: bytes): (r: seq<bytes>)
  {
    if parts == [] then []
    else if StartsWith(Join(parts), sig) then Kept(parts[1..], sig)
    else [parts[0]] + Kept(parts[1..], sig)
  }

  /** `FindAndDelete`; None if the iteration raises. */
  method FindAndDelete(script: bytes, sig: bytes) returns (r: Option<bytes>)
    ensures r == if RawIter(script, 0).None? then None else Some(Join(Kept(Pieces(script), sig)))
  {
    hide RawIter, Pieces, Kept, Join, StartsWith;
    var ops := RawIterate(script);
    if ops.None? { return None; }
    OffsetsOf(script);
    ghost var all := Join(Kept(Pieces(script), sig));
    var out: bytes, last, skip := [], 0, true;
    KeptNone(script, sig);
    for k := 0 to |ops.value|
      invariant last <= |script|
      invariant k == 0 ==> skip && out == []
      invariant k > 0 ==> last == ops.value[k - 1].1 && skip == StartsWith(script[last..], sig)
      invariant k > 0 ==> all == out + Join(Kept(Pieces(script)[k - 1..], sig))
    {
      var sop := ops.value[k].1;
      if k > 0 {
        KeptStep(script, k - 1, sig);
      } else {
        assert Pieces(script)[0..] == Pieces(script);
      }
      if !skip { out := out + script[last..sop]; }
      last := sop;
      skip := StartsWith(script[sop..], sig);
    }
    if |ops.value| > 0 { KeptLast(script, sig); }
    assert out + [] == out;
    if !skip { out := out + script[last..]; }
    r := Some(out);
  }

  lemma KeptNone(script: bytes, sig: bytes)
    requires RawIter(script, 0).Some?
    ensures |RawIter(script, 0).value| == 0 ==> Join(Kept(Pieces(script), sig)) == []
  {}

  /** The offset of piece `k` is where the pieces before it end. */
  lemma OffsetsOf(script: bytes)
    requires RawIter(script, 0).Some?
    ensures var ops, parts := RawIter(script, 0).value, Pieces(script);
      && |ops| == |parts|
      && (ops != [] ==> ops[0].1 == 0)
      && forall k :: 0 <= k < |ops| ==> ops[k].1 <= |script| && script[ops[k].1..] == Join(parts[k..])
  {
    OffsetsPartition(script);
    var parts := Pieces(script);
    forall k | 0 <= k < |parts|
      ensures RawIter(script, 0).value[k].1 <= |script| && script[RawIter(script, 0).value[k].1..] == Join(parts[k..])
    {
      OffsetAt(parts, OpsOf(script), 0, k);
    }
  }

  lemma {:induction false} OffsetAt(parts: seq<bytes>, ops: seq<Op>, at: nat, k: nat)
    requires AllEncode(parts, ops) && k < |parts|
    ensures var o := WithOffsets(ops, at)[k].1;
      at <= o <= at + |Join(parts)| && Join(parts)[o - at..] == Join(parts[k..])
    decreases k
  {
    assert Encodes(parts[0], ops[0]);
    if k > 0 {
      OffsetAt(parts[1..], ops[1..], at + ops[0].size, k - 1);
      assert parts[1..][k - 1..] == parts[k..];
      var o := WithOffsets(ops[1..], at + ops[0].size)[k - 1].1;
      assert Join(parts)[o - at..] == Join(parts[1..])[o - at - |parts[0]|..];
    } else {
      assert parts[0..] == parts && Join(parts)[0..] == Join(parts);
    }
  }

  lemma KeptStep(script: bytes, k: nat, sig: bytes)
    requires RawIter(script, 0).Some? && k + 1 < |RawIter(script, 0).value|
    ensures var ops, parts := RawIter(script, 0).value, Pieces(script);
      && |parts| == |ops| && ops[k].1 <= ops[k + 1].1 <= |script|
      && Join(Kept(parts[k..], sig))
         == (if StartsWith(script[ops[k].1..], sig) then [] else script[ops[k].1..ops[k + 1].1])
            + Join(Kept(parts[k + 1..], sig))
  {
    hide RawIter, Pieces, StartsWith;
    OffsetsOf(script);
    var ops, parts := RawIter(script, 0).value, Pieces(script);
    var a, b := ops[k].1, ops[k + 1].1;
    var p := parts[k..];
    assert p[0] == parts[k] && p[1..] == parts[k + 1..];
    SliceFromTails(script, a, b, parts[k]);
    assert Join([parts[k]] + Kept(p[1..], sig)) == parts[k] + Join(Kept(p[1..], sig)) by {
      assert ([parts[k]] + Kept(p[1..], sig))[1..] == Kept(p[1..], sig);
    }
  }

  lemma SliceFromTails(s: bytes, a: nat, b: nat, piece: bytes)
    requires a <= |s| && b <= |s| && s[a..] == piece + s[b..]
    ensures a <= b && s[a..b] == piece
  {
    assert |s[a..]| == |piece| + |s[b..]|;
    assert s[a..b] == s[a..][..b - a];
  }

  lemma KeptLast(script: bytes, sig: bytes)
    requires RawIter(script, 0).Some? && RawIter(script, 0).value != []
    ensures var ops, parts := RawIter(script, 0).value, Pieces(script);
      var k := |ops| - 1;
      && |parts| == |ops| && ops[k].1 <= |script|
      && Join(Kept(parts[k..], sig)) == if StartsWith(script[ops[k].1..], sig) then [] else script[ops[k].1..]
  {
    hide RawIter, Pieces, StartsWith;
    OffsetsOf(script);
    var p := Pieces(script)[|Pieces(script)| - 1..];
    JoinOne(p);
    assert Kept(p[1..], sig) == [];
    if !StartsWith(Join(p), sig) { assert Kept(p, sig) == p; }
  }

  lemma JoinOne(p: seq<bytes>)
    requires |p| == 1
    ensures Join(p) == p[0] && p[1..] == [] && p == [p[0]]
  {
    assert p[1..] == [];
  }

  // ---- FindAndDelete of a single non-push opcode

  function Without(ops: seq<Op>, code: byte): seq<Op> {
    if ops == [] then []
    else if ops[0].opcode == code then Without(ops[1..], code)
    else [ops[0]] + Without(ops[1..], code)
  }

  lemma {:induction false} KeptOfOpcode(parts: seq<bytes>, ops: seq<Op>, code: byte)
    requires AllEncode(parts, ops)
    ensures AllEncode(Kept(parts, [code]), Without(ops, code))
  {
    hide NextOp;
    if parts != [] {
      KeptOfOpcode(parts[1..], ops[1..], code);
      assert Encodes(parts[0], ops[0]);
      FirstByte(parts[0], ops[0]);
      var s := Join(parts);
      assert s[0] == parts[0][0];
      assert StartsWith(s, [code]) <==> s[0] == code by { if s[0] == code { assert s[..1] == [code]; } }
    }
  }

  lemma FirstByte(b: bytes, op: Op)
    requires Encodes(b, op)
    ensures b != [] && b[0] == op.opcode
  {}

  /** Deleting an opcode from any readable script leaves exactly the other operations, with their push
      data untouched whatever bytes it contains; deleting again changes nothing. */
  lemma DeleteOpcode(script: bytes, code: byte)
    requires RawIter(script, 0).Some?
    ensures var r := Join(Kept(Pieces(script), [code]));
      && RawIter(r, 0) == Some(WithOffsets(Without(OpsOf(script), code), 0))
      && Join(Kept(Pieces(r), [code])) == r
  {
    hide RawIter, Pieces, OpsOf, Join;
    PiecesEncode(script);
    var parts, ops := Kept(Pieces(script), [code]), Without(OpsOf(script), code);
    KeptOfOpcode(Pieces(script), OpsOf(script), code);
    ParseJoin(parts, ops, 0);
    var r := Join(parts);
    PiecesUnique(parts, ops);
    KeptNothingToDelete(parts, ops, code);
    WithoutHasNone(OpsOf(script), code);
  }

  /** `FindAndDelete(script, CScript([OP_CODESEPARATOR]))`, as the legacy signature hash calls it. */
  lemma DeleteCodeSeparator(script: bytes)
    requires RawIter(script, 0).Some? && AllBuildable([Code(OP_CODESEPARATOR)])
    ensures var sig := Build([Code(OP_CODESEPARATOR)]);
      var r := Join(Kept(Pieces(script), sig));
      && RawIter(r, 0) == Some(WithOffsets(Without(OpsOf(script), OP_CODESEPARATOR), 0))
      && Join(Kept(Pieces(r), sig)) == r
  {
    hide RawIter, Pieces, OpsOf, Kept;
    JoinOne(TokenParts([Code(OP_CODESEPARATOR)]));
    DeleteOpcode(script, OP_CODESEPARATOR);
  }

  lemma {:induction false} WithoutHasNone(ops: seq<Op>, code: byte)
    ensures forall op :: op in Without(ops, code) ==> op.opcode != code
  {
    if ops != [] { WithoutHasNone(ops[1..], code); }
  }

  lemma {:induction false} KeptNothingToDelete(parts: seq<bytes>, ops: seq<Op>, code: byte)
    requires AllEncode(parts, ops)
    ensures (forall op :: op in ops ==> op.opcode != code) ==> Kept(parts, [code]) == parts
  {
    hide NextOp, Encodes;
    if parts != [] && forall op :: op in ops ==> op.opcode != code {
      KeptNothingToDelete(parts[1..], ops[1..], code);
      assert Encodes(parts[0], ops[0]);
      FirstByte(parts[0], ops[0]);
      assert ops[0] in ops;
      assert Join(parts)[0] == parts[0][0];
    }
  }

  /** A script has only one decomposition into encodings. */
  lemma {:induction false} PiecesUnique(parts: seq<bytes>, ops: seq<Op>)
    requires AllEncode(parts, ops)
    ensures RawIter(Join(parts), 0).Some? && Pieces(Join(parts)) == parts
  {
    hide NextOp;
    ParseJoin(parts, ops, 0);
    if parts != [] {
      var b, tail := parts[0], Join(parts[1..]);
      PiecesUnique(parts[1..], ops[1..]);
      assert Encodes(b, ops[0]);
      NextOpLocal(b, tail);
      assert b[..|b|] == b && (b + tail)[|b|..] == tail && (b + tail)[..|b|] == b;
    }
  }
}
