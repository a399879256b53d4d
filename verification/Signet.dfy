/** Signet blocks (miner; the Specification section of BIP 325): what is signed, what finishing a block appends,
    and why appending the solution does not change what was signed. */
module Signet {
  import opened Bytes
  import opened Codec
  import opened Script
  import opened Transactions
  import opened Merkle
  import opened TxObjects
  import opened Blocks

  const SIGNET_HEADER: bytes := [0xec, 0xc7, 0xda, 0xa2]

  // ---- Appending to the last output of the coinbase

  predicate HasCoinbase(v: seq<Tx>) {
    v != [] && v[0].vout != []
  }

  function LastScript(t: Tx): bytes
    requires t.vout != []
  {
    t.vout[|t.vout| - 1].scriptPubKey
  }

  function WithLastScript(t: Tx, script: bytes): Tx
    requires t.vout != []
  {
    var n := |t.vout| - 1;
    t.(vout := t.vout[n := t.vout[n].(scriptPubKey := script)])
  }

  predicate RoomFor(v: seq<Tx>, data: bytes) {
    HasCoinbase(v) && |data| < U32 && |LastScript(v[0])| + |EncodePushdata(data)| < U64
  }

  /** The transactions with one more push in the last output script of the coinbase. */
  function Pushed(v: seq<Tx>, data: bytes): (r: seq<Tx>)
    requires RoomFor(v, data)
    ensures |r| == |v| && HasCoinbase(r)
  {
    v[0 := WithLastScript(v[0], LastScript(v[0]) + EncodePushdata(data))]
  }

  lemma WithLastScriptFits(t: Tx, script: bytes)
    requires TxFits(t) && t.vout != [] && |script| < U64
    ensures TxFits(WithLastScript(t, script))
  {
    var n := |t.vout| - 1;
    assert t.vout[n] in t.vout;
    var u := WithLastScript(t, script);
    forall o | o in u.vout
      ensures OutFits(o)
    {
      var k :| 0 <= k < |u.vout| && u.vout[k] == o;
      if k < n { assert o == t.vout[k]; }
    }
  }

  lemma PushedFits(v: seq<Tx>, data: bytes)
    requires TxsFit(v) && RoomFor(v, data)
    ensures TxsFit(Pushed(v, data))
  {
    hide TxFits;
    assert v[0] in v;
    WithLastScriptFits(v[0], LastScript(v[0]) + EncodePushdata(data));
    UpdatedFits(v, Pushed(v, data)[0]);
  }

  lemma UpdatedFits(v: seq<Tx>, t: Tx)
    requires v != [] && TxsFit(v) && TxFits(t)
    ensures TxsFit(v[0 := t])
  {
    forall x | x in v[0 := t]
      ensures TxFits(x)
    {
      var k :| 0 <= k < |v| && v[0 := t][k] == x;
      if k > 0 { assert x == v[k]; }
    }
  }

  // ---- What is signed

  /** The part of the header and the modified Merkle root that the signature commits to. */
  function SignedData(h: Hash256, head: Header, modified: seq<Tx>): (r: bytes)
    requires HeaderFits(head) && TxsFit(modified) && modified != []
    ensures |r| == 72
  {
    LES32(head.version) + LE256(head.prev) + LE256(RootOfIds(h, Ids(h, modified))) + LE32(head.time)
  }

  /** The parts of the signed data. */
  lemma SignedParts(h: Hash256, head: Header, v: seq<Tx>)
    requires HeaderFits(head) && TxsFit(v) && v != []
    ensures var sd := SignedData(h, head, v);
      && sd[..4] == LES32(head.version) && sd[4..36] == LE256(head.prev)
      && sd[36..68] == LE256(RootOfIds(h, Ids(h, v))) && sd[68..] == LE32(head.time)
  {
    hide LES32, LE256, LE32, RootOfIds, TxsFit;
  }

  /** The signed data commits to version, previous block, time and, unless the hash function has a collision
      (which the lemma names), to everything in the transactions but their witnesses. */
  lemma SignedDataBinds(h: Hash256, head: Header, v: seq<Tx>, head': Header, v': seq<Tx>) returns (x: bytes, y: bytes)
    requires HeaderFits(head) && HeaderFits(head') && TxsFit(v) && TxsFit(v') && |v| == |v'| > 0
    requires SignedData(h, head, v) == SignedData(h, head', v')
    ensures head.version == head'.version && head.prev == head'.prev && head.time == head'.time
    ensures Collision(h, x, y) || forall i :: 0 <= i < |v| ==>
              v[i] in v && v'[i] in v' && SerNoWitness(v[i]) == SerNoWitness(v'[i])
  {
    hide LES32, LE256, LE32, RootOfIds, TxsFit, Ids, SignedData, Collision, SerNoWitness;
    SignedParts(h, head, v);
    SignedParts(h, head', v');
    assert FromLESigned(LES32(head.version)) == head.version && FromLESigned(LES32(head'.version)) == head'.version;
    assert FromLE(LE256(head.prev)) == head.prev && FromLE(LE256(head'.prev)) == head'.prev;
    assert FromLE(LE32(head.time)) == head.time && FromLE(LE32(head'.time)) == head'.time;
    assert RootOfIds(h, Ids(h, v)) == RootOfIds(h, Ids(h, v')) by {
      assert FromLE(LE256(RootOfIds(h, Ids(h, v)))) == RootOfIds(h, Ids(h, v));
    }
    x, y := RootBindsIds(h, Ids(h, v), Ids(h, v'));
    if !Collision(h, x, y) { x, y := IdsBindBodies(h, v, v'); }
  }

  lemma RootBindsIds(h: Hash256, a: seq<nat>, b: seq<nat>) returns (x: bytes, y: bytes)
    requires AllIds(a) && AllIds(b) && |a| == |b| > 0 && RootOfIds(h, a) == RootOfIds(h, b)
    ensures a == b || Collision(h, x, y)
  {
    hide LE256, Root, FromLE;
    var la, lb := Leaves(a), Leaves(b);
    RootSize(h, la);
    RootSize(h, lb);
    LEFromLE(Root(h, la));
    LEFromLE(Root(h, lb));
    x, y := RootBindsLeaves(h, la, lb);
    if la == lb {
      forall i | 0 <= i < |a|
        ensures a[i] == b[i]
      {
        assert la[i] == LE256(a[i]) && lb[i] == LE256(b[i]);
      }
    }
  }

  lemma IdsBindBodies(h: Hash256, v: seq<Tx>, w: seq<Tx>) returns (x: bytes, y: bytes)
    requires TxsFit(v) && TxsFit(w) && |v| == |w| && Ids(h, v) == Ids(h, w)
    ensures Collision(h, x, y) || forall i :: 0 <= i < |v| ==>
              v[i] in v && w[i] in w && SerNoWitness(v[i]) == SerNoWitness(w[i])
  {
    hide SerNoWitness, TxFits, FromLE;
    x, y := [], [];
    assert forall i :: 0 <= i < |v| ==> v[i] in v && w[i] in w;
    if i :| 0 <= i < |v| && SerNoWitness(v[i]) != SerNoWitness(w[i]) {
      x, y := SerNoWitness(v[i]), SerNoWitness(w[i]);
      assert Ids(h, v)[i] == TxId(h, v[i]) && Ids(h, w)[i] == TxId(h, w[i]);
      LEFromLE(h(x));
      LEFromLE(h(y));
    }
  }

  /** A transaction whose output carries the challenge and whose input carries the signed data. */
  function ChallengeTx(sd: bytes, challenge: bytes): Tx
    requires |sd| < U32
  {
    Tx(0, [TxIn(OutPoint(0, 0xFFFFFFFF), [0] + EncodePushdata(sd), 0)], [TxOut(0, challenge)], [], 0)
  }

  function ToSpend(h: Hash256, head: Header, modified: seq<Tx>, challenge: bytes): Tx
    requires HeaderFits(head) && TxsFit(modified) && modified != []
  {
    ChallengeTx(SignedData(h, head, modified), challenge)
  }

  /** The transaction that is signed: it spends that output. */
  function Spend(h: Hash256, toSpend: Tx): Tx
    requires TxFits(toSpend)
  {
    Tx(0, [TxIn(OutPoint(TxId(h, toSpend), 0), [], 0)], [TxOut(0, [OP_RETURN])], [], 0)
  }

  lemma ChallengeTxFits(sd: bytes, challenge: bytes)
    requires |sd| == 72 && |challenge| < U64
    ensures TxFits(ChallengeTx(sd, challenge))
  {}

  // ---- Reading a finished coinbase as a verifier does

  function TokenOf(op: Op): Token {
    if op.data.Some? then Push(op.data.value) else Code(op.opcode)
  }

  /** The opcodes and pushes of a script. */
  function Tokens(s: bytes): (r: seq<Token>)
    requires RawIter(s, 0).Some?
  {
    var ops := RawIter(s, 0).value;
    seq(|ops|, i requires 0 <= i < |ops| => TokenOf(ops[i].0))
  }

  lemma {:induction false} WithOffsetsAt(ops: seq<Op>, at: nat)
    ensures forall i :: 0 <= i < |ops| ==> WithOffsets(ops, at)[i].0 == ops[i]
  {
    if ops != [] { WithOffsetsAt(ops[1..], at + ops[0].size); }
  }

  /** The tokens of a script built from a list are that list. */
  lemma TokensOfBuild(tokens: seq<Token>)
    requires AllBuildable(tokens)
    ensures RawIter(Build(tokens), 0).Some? && Tokens(Build(tokens)) == tokens
  {
    hide RawIter, TokenBytes;
    BuildParses(tokens);
    WithOffsetsAt(TokenOps(tokens), 0);
    var ops := RawIter(Build(tokens), 0).value;
    forall i | 0 <= i < |tokens|
      ensures Tokens(Build(tokens))[i] == tokens[i]
    {
      assert tokens[i] in tokens && ops[i].0 == TokenOp(tokens[i]);
      CodeByte(tokens[i]);
    }
  }

  lemma CodeByte(t: Token)
    requires Buildable(t)
    ensures TokenOf(TokenOp(t)) == t
  {}

  /** Every operation that can be read can be built. */
  lemma {:induction false} ReadIsBuildable(s: bytes, at: nat)
    requires RawIter(s, at).Some?
    ensures forall i :: 0 <= i < |RawIter(s, at).value| ==> Buildable(TokenOf(RawIter(s, at).value[i].0))
    decreases |s|
  {
    hide NextOp;
    if s != [] {
      var op := NextOp(s).value;
      NextOpFits(s);
      NextIsBuildable(s);
      ReadIsBuildable(s[op.size..], at + op.size);
    }
  }

  lemma NextIsBuildable(s: bytes)
    requires s != [] && NextOp(s).Some?
    ensures Buildable(TokenOf(NextOp(s).value))
  {
    var n := LengthBytes(s[0]);
    if 1 + n <= |s| && 0 < n {
      Pow256Values();
      FromLEBound(s[1..1 + n], 4);
    }
  }

  lemma TokensBuildable(s: bytes)
    requires RawIter(s, 0).Some?
    ensures AllBuildable(Tokens(s))
  {
    hide RawIter;
    ReadIsBuildable(s, 0);
  }

  /** A push of the signet header and something after it. */
  predicate IsSolution(t: Token) {
    t.Push? && |t.data| > |SIGNET_HEADER| && SIGNET_HEADER <= t.data
  }

  /** Replace the first solution by the bare header. */
  function Cut(tokens: seq<Token>): (r: seq<Token>)
    ensures |r| == |tokens|
    ensures AllBuildable(tokens) ==> AllBuildable(r)
  {
    if tokens == [] then []
    else if IsSolution(tokens[0]) then [Push(SIGNET_HEADER)] + tokens[1..]
    else
      assert AllBuildable(tokens) ==> AllBuildable(tokens[1..]) by { assert forall t :: t in tokens[1..] ==> t in tokens; }
      [tokens[0]] + Cut(tokens[1..])
  }

  /** The script with its solution cut to the header, rebuilt from its opcodes and pushes. */
  function CutScript(s: bytes): bytes {
    if RawIter(s, 0).None? then s
    else
      TokensBuildable(s);
      Build(Cut(Tokens(s)))
  }

  /** The transactions a verifier checks the signature against. */
  function CutBlock(v: seq<Tx>): (r: seq<Tx>)
    requires HasCoinbase(v)
    ensures |r| == |v|
  {
    v[0 := WithLastScript(v[0], CutScript(LastScript(v[0])))]
  }

  ghost predicate NoSolution(tokens: seq<Token>) {
    forall t :: t in tokens ==> !IsSolution(t)
  }

  lemma {:induction false} CutLast(tokens: seq<Token>, d: bytes)
    requires NoSolution(tokens) && SIGNET_HEADER <= d
    ensures Cut(tokens + [Push(d)]) == tokens + [Push(SIGNET_HEADER)]
  {
    if tokens == [] {
      assert tokens + [Push(d)] == [Push(d)] && [Push(d)][1..] == [];
      if |d| == |SIGNET_HEADER| { assert d == SIGNET_HEADER; }
    } else {
      assert tokens[0] in tokens;
      assert (tokens + [Push(d)])[1..] == tokens[1..] + [Push(d)];
      CutLast(tokens[1..], d);
    }
  }

  lemma {:induction false} CutEarlier(tokens: seq<Token>, last: Token) returns (j: nat)
    requires !NoSolution(tokens)
    ensures j < |tokens| && Cut(tokens + [last])[j] != tokens[j]
  {
    assert (tokens + [last])[1..] == tokens[1..] + [last];
    if IsSolution(tokens[0]) {
      j := 0;
    } else {
      assert !NoSolution(tokens[1..]) by {
        var t :| t in tokens && IsSolution(t);
        assert t in tokens[1..];
      }
      var k := CutEarlier(tokens[1..], last);
      j := k + 1;
    }
  }

  lemma {:induction false} JoinSnoc(parts: seq<bytes>, b: bytes)
    ensures Join(parts + [b]) == Join(parts) + b
  {
    if parts == [] {
      assert parts + [b] == [b] && [b][1..] == [];
    } else {
      assert (parts + [b])[1..] == parts[1..] + [b];
      JoinSnoc(parts[1..], b);
    }
  }

  lemma BuildSnoc(tokens: seq<Token>, t: Token)
    requires AllBuildable(tokens) && Buildable(t)
    ensures AllBuildable(tokens + [t])
    ensures Build(tokens + [t]) == Build(tokens) + TokenBytes(t)
  {
    assert TokenParts(tokens + [t]) == TokenParts(tokens) + [TokenBytes(t)];
    JoinSnoc(TokenParts(tokens), TokenBytes(t));
  }

  /** A finished script reads as the operations it had before and one push of header and solution. */
  lemma FinishedScriptParses(tokens: seq<Token>, solution: bytes)
    requires AllBuildable(tokens) && |SIGNET_HEADER + solution| < U32
    ensures var s := Build(tokens) + EncodePushdata(SIGNET_HEADER + solution);
      RawIter(s, 0).Some? && Tokens(s) == tokens + [Push(SIGNET_HEADER + solution)]
  {
    BuildSnoc(tokens, Push(SIGNET_HEADER + solution));
    TokensOfBuild(tokens + [Push(SIGNET_HEADER + solution)]);
  }

  /** Cutting the solution out of a finished script gives the script that was signed, exactly when the
      script had no solution before. */
  lemma CutUndoesFinish(tokens: seq<Token>, solution: bytes)
    requires AllBuildable(tokens) && |SIGNET_HEADER + solution| < U32
    ensures CutScript(Build(tokens) + EncodePushdata(SIGNET_HEADER + solution))
              == Build(tokens) + EncodePushdata(SIGNET_HEADER)
            <==> NoSolution(tokens)
  {
    hide EncodePushdata, Build, RawIter, Tokens, Cut;
    var d := SIGNET_HEADER + solution;
    var s := Build(tokens) + EncodePushdata(d);
    FinishedScriptParses(tokens, solution);
    var signed := tokens + [Push(SIGNET_HEADER)];
    BuildSnoc(tokens, Push(SIGNET_HEADER));
    if NoSolution(tokens) {
      CutLast(tokens, d);
    } else {
      var j := CutEarlier(tokens, Push(d));
      assert signed[j] == tokens[j];
      if CutScript(s) == Build(signed) {
        TokensOfBuild(signed);
        TokensBuildable(s);
        TokensOfBuild(Cut(Tokens(s)));
      }
    }
  }

  // ---- Finishing a block

  /** What `finish_block` leaves: the solution appended, the Merkle root of the transactions as they now are,
      and the nonce that was found. */
  function FinishedHead(h: Hash256, head: Header, finished: seq<Tx>, nonce: nat): Header
    requires TxsFit(finished) && finished != []
  {
    head.(merkleRoot := RootOfIds(h, Ids(h, finished)), nonce := nonce)
  }

  /** The same transactions up to their witnesses. */
  ghost predicate SameBodies(v: seq<Tx>, w: seq<Tx>) {
    |w| == |v| && forall i :: 0 <= i < |v| ==> w[i] == v[i].(wit := w[i].wit)
  }

  lemma IdsOfSameBodies(h: Hash256, v: seq<Tx>, w: seq<Tx>)
    requires TxsFit(v) && TxsFit(w) && SameBodies(v, w)
    ensures Ids(h, v) == Ids(h, w)
  {
    hide SerInVector, SerOutVector, LE32;
    forall i | 0 <= i < |v|
      ensures v[i] in v && w[i] in w && Ids(h, v)[i] == Ids(h, w)[i]
    {
      assert v[i] in v && w[i] in w;
      assert SerNoWitness(v[i]) == SerNoWitness(w[i]);
    }
  }

  /** The last script of the coinbase is built from tokens none of which is a solution. */
  ghost predicate Commits(t: Tx, tokens: seq<Token>) {
    t.vout != [] && AllBuildable(tokens) && NoSolution(tokens) && LastScript(t) == Build(tokens)
  }

  /** A verifier of the finished block, under the header `finish_block` leaves, arrives at the challenge
      transaction `t`. */
  ghost predicate VerifierSees(h: Hash256, head: Header, finished: seq<Tx>, nonce: nat, challenge: bytes, t: Tx) {
    && HasCoinbase(finished) && TxsFit(finished) && TxsFit(CutBlock(finished))
    && HeaderFits(FinishedHead(h, head, finished, nonce))
    && ToSpend(h, FinishedHead(h, head, finished, nonce), CutBlock(finished), challenge) == t
  }

  /** Cutting the solution out of a finished block and recomputing what is signed gives the very
      transactions that were signed before the block was finished, whatever became of the nonce, the
      header's Merkle root, and the coinbase's witnesses meanwhile. */
  lemma FinishKeepsWhatWasSigned(h: Hash256, head: Header, v: seq<Tx>, w: seq<Tx>, tokens: seq<Token>, solution: bytes,
                                 nonce: nat, challenge: bytes)
    requires HeaderFits(head) && TxsFit(v) && nonce < U32
    requires RoomFor(v, SIGNET_HEADER) && Commits(v[0], tokens)
    requires TxsFit(w) && SameBodies(v, w)
    requires RoomFor(w, SIGNET_HEADER + solution)
    ensures TxsFit(Pushed(v, SIGNET_HEADER))
    ensures VerifierSees(h, head, Pushed(w, SIGNET_HEADER + solution), nonce, challenge,
                         ToSpend(h, head, Pushed(v, SIGNET_HEADER), challenge))
  {
    hide Pushed, CutBlock, TxsFit, RoomFor, Ids, HeaderFits, Commits, SameBodies, VerifierSees, ToSpend;
    CutHasSignedBodies(h, v, w, tokens, solution);
    SeesWhatWasSigned(h, head, Pushed(w, SIGNET_HEADER + solution), Pushed(v, SIGNET_HEADER), nonce, challenge);
  }

  lemma SeesWhatWasSigned(h: Hash256, head: Header, finished: seq<Tx>, signed: seq<Tx>, nonce: nat, challenge: bytes)
    requires HeaderFits(head) && nonce < U32 && HasCoinbase(finished) && TxsFit(finished) && TxsFit(CutBlock(finished))
    requires TxsFit(signed) && signed != [] && Ids(h, CutBlock(finished)) == Ids(h, signed)
    ensures VerifierSees(h, head, finished, nonce, challenge, ToSpend(h, head, signed, challenge))
  {
    hide CutBlock, TxsFit, Ids, RootOfIds, ChallengeTx, LES32, LE256, LE32;
    var cut, head' := CutBlock(finished), FinishedHead(h, head, finished, nonce);
    assert HeaderFits(head');
    assert SignedData(h, head', cut) == SignedData(h, head, signed);
  }

  lemma CutHasSignedBodies(h: Hash256, v: seq<Tx>, w: seq<Tx>, tokens: seq<Token>, solution: bytes)
    requires TxsFit(v) && RoomFor(v, SIGNET_HEADER) && Commits(v[0], tokens)
    requires TxsFit(w) && SameBodies(v, w)
    requires RoomFor(w, SIGNET_HEADER + solution)
    ensures var finished, signed := Pushed(w, SIGNET_HEADER + solution), Pushed(v, SIGNET_HEADER);
      && TxsFit(finished) && TxsFit(CutBlock(finished)) && TxsFit(signed)
      && Ids(h, CutBlock(finished)) == Ids(h, signed)
  {
    hide RawIter, EncodePushdata, TxFits, Build, Tokens, TokenBytes, CutScript, Cut, Ids;
    var signed, finished := Pushed(v, SIGNET_HEADER), Pushed(w, SIGNET_HEADER + solution);
    PushedFits(v, SIGNET_HEADER);
    PushedFits(w, SIGNET_HEADER + solution);
    CutUndoesFinish(tokens, solution);
    assert LastScript(w[0]) == LastScript(v[0]) == Build(tokens);
    var cut := CutBlock(finished);
    assert LastScript(cut[0]) == LastScript(signed[0]);
    assert SameBodies(signed, cut);
    assert w[0] in w && finished[0] in finished;
    WithLastScriptFits(finished[0], LastScript(signed[0]));
    UpdatedFits(finished, cut[0]);
    assert cut == finished[0 := cut[0]];
    IdsOfSameBodies(h, signed, cut);
  }
}
