/** The miner's PSBT commands (miner, `generate_psbt` and `decode_psbt`) on block and PSBT objects. */
module MinerPsbt {
  import opened Bytes
  import opened Codec
  import opened Script
  import opened ScriptNum
  import opened Transactions
  import opened Merkle
  import opened TxObjects
  import opened Blocks
  import opened Psbt
  import opened PsbtObjects
  import opened Signet
  import opened SignetPsbt
  import opened Miner

  // ---- generate_psbt

  method CoinbaseTx(h: Hash256, t: Template, o: Options) returns (cbtx: CTransaction)
    requires TemplateFits(t, o)
    ensures fresh(cbtx) && cbtx.Value() == BareCoinbase(t, o)
  {
    hide TxFits, TxId, TemplateHead, HeaderFits, EncodePushdata, HeightScript;
    BareCoinbaseFits(t, o);
    HeightScriptParses(t.height);
    var scriptSig := HeightScript(t.height);
    if o.poolid.Some? {
      scriptSig := scriptSig + EncodePushdata(o.poolid.value);
    } else {
      assert scriptSig + [] == scriptSig;
    }
    var vin := [TxIn(OutPoint(0, 0xffffffff), scriptSig, 0xfffffffe)];
    var vout := [TxOut(t.coinbaseValue, o.rewardSpk)];
    ghost var c := BareCoinbase(t, o);
    assert c == Tx(2, vin, vout, [], t.height - 1);
    hide BareCoinbase, CoinbaseScript, TemplateFits;
    cbtx := LockedTx(t.height - 1, vin, vout);
    assert cbtx.Value() == c;
    hide *;
    cbtx.Rehash(h);
  }

  method LockedTx(lockTime: nat, vin: seq<TxIn>, vout: seq<TxOut>) returns (t: CTransaction)
    ensures fresh(t) && t.Value() == Tx(2, vin, vout, [], lockTime)
  {
    t := new CTransaction();
    t.lockTime := lockTime;
    t.vin := vin;
    t.vout := vout;
  }

  /** `tx_from_hex`, after the hexadecimal decoding. */
  method TxFromBytes(b: bytes) returns (t: CTransaction)
    ensures fresh(t) && t.Value() == DeserTx(b).0
  {
    hide DeserTxOver;
    var f := new ByteStream(b);
    t := new CTransaction();
    t.Deserialize(f);
  }

  method ParseAll(data: seq<bytes>) returns (r: seq<CTransaction>)
    ensures fresh(r) && Distinct(r) && Values(r) == Parsed(data)
  {
    hide DeserTxOver, Parsed, Values;
    r := [];
    ghost var values: seq<Tx> := [];
    for k := 0 to |data|
      invariant fresh(r) && Distinct(r) && |r| == k == |values|
      invariant forall i :: 0 <= i < |r| ==> r[i].Value() == values[i]
      invariant forall i :: 0 <= i < |values| ==> values[i] == Parsed(data)[i]
    {
      var t := TxFromBytes(data[k]);
      r, values := r + [t], values + [t.Value()];
    }
    assert Values(r) == values == Parsed(data);
  }

  lemma BareAligned(t: Template, o: Options)
    requires TemplateFits(t, o)
    ensures AlignedRange(BareTxs(t, o), 1, |t.transactions| + 1) == BareTxs(t, o)
  {
    hide BareCoinbase, TemplateFits, DeserTxOver, Aligned;
    var v := BareTxs(t, o);
    forall i | 1 <= i < |v|
      ensures Aligned(v[i]) == v[i]
    {
      assert v[i] == Parsed(t.transactions)[i - 1];
      ReadIsAligned(t.transactions[i - 1]);
    }
  }

  /** The template's transactions behind a new coinbase. */
  method BareVtx(h: Hash256, t: Template, o: Options) returns (vtx: seq<CTransaction>)
    requires TemplateFits(t, o)
    ensures fresh(vtx) && Distinct(vtx) && Values(vtx) == BareTxs(t, o)
  {
    hide BareCoinbase, TemplateFits, Parsed, Values;
    var others := ParseAll(t.transactions);
    ghost var values := Values(others);
    var cbtx := CoinbaseTx(h, t, o);
    vtx := [cbtx] + others;
    ConsValues(cbtx, others, BareCoinbase(t, o), values);
  }

  lemma ConsValues(t: CTransaction, others: seq<CTransaction>, x: Tx, v: seq<Tx>)
    requires t.Value() == x && Values(others) == v
    ensures Values([t] + others) == [x] + v
  {}

  /** The witness commitment: a zero nonce in the coinbase's witness and an output that commits to the
      witness root. */
  method Commit(h: Hash256, vtx: seq<CTransaction>, witroot: nat)
    requires witroot < U256 && vtx != [] && Distinct(vtx)
    modifies vtx`wit, vtx`vout
    ensures Values(vtx) == old(Values(vtx))[0 := Committed(old(Values(vtx))[0], WitnessScript(h, witroot))]
  {
    hide LE256, WitnessScript, Values;
    ghost var v := Values(vtx);
    var cbtx := vtx[0];
    cbtx.wit := [[LE256(0)]];
    var script := WitnessScript(h, witroot);
    cbtx.vout := cbtx.vout + [TxOut(0, script)];
    assert cbtx.Value() == Committed(v[0], script);
    AppendedValues(vtx, v, v[0 := Committed(v[0], script)]);
  }

  method EmptyBlock(t: Template, o: Options) returns (block: CBlock)
    ensures fresh(block) && block.Head() == TemplateHead(t, o)
  {
    block := new CBlock();
    block.version := if o.nversion.Some? then o.nversion.value else t.version;
    block.prev := t.prev;
    block.time := if o.blocktime.Some? then o.blocktime.value else t.curtime;
    if block.time < t.mintime { block.time := t.mintime; }
    block.bits := t.bits;
    block.nonce := 0;
  }

  method TemplateBlock(h: Hash256, t: Template, o: Options) returns (block: CBlock)
    requires TemplateFits(t, o)
    ensures fresh(block) && fresh(block.vtx) && Distinct(block.vtx)
    ensures block.Head() == TemplateHead(t, o) && Values(block.vtx) == TemplateTxs(h, t, o)
  {
    hide BareCoinbase, TemplateFits, Parsed, Values, BareTxs, RootOfIds, WitnessIds, AlignedRange, HeaderFits,
         WitnessScript, LE256, TxsFit, TemplateHead, Distinct, Committed;
    block := EmptyBlock(t, o);
    block.vtx := BareVtx(h, t, o);
    var witroot := block.CalcWitnessMerkleRoot(h);
    BareAligned(t, o);
    Commit(h, block.vtx, witroot);
  }

  /** `generate_psbt`, before the base64 encoding. */
  method GeneratePsbt(h: Hash256, t: Template, o: Options) returns (psbt: Option<bytes>)
    requires TemplateFits(t, o)
    requires PsbtFits(h, TemplateHead(t, o), TemplateTxs(h, t, o), t.challenge, [])
    ensures psbt == SerContainer(Generated(h, TemplateHead(t, o), TemplateTxs(h, t, o), t.challenge, [])) && psbt.Some?
  {
    hide TemplateFits, TemplateTxs, TemplateHead, Generated, SerContainer, PsbtFits;
    var block := TemplateBlock(h, t, o);
    GeneratedAccepted(h, TemplateHead(t, o), TemplateTxs(h, t, o), t.challenge, []);
    psbt := WrapBlock(h, block, t.challenge);
  }

  /** The second half of `generate_psbt`. */
  method WrapBlock(h: Hash256, block: CBlock, challenge: bytes) returns (psbt: Option<bytes>)
    requires PsbtFits(h, block.Head(), Values(block.vtx), challenge, []) && Distinct(block.vtx)
    modifies block.vtx`sha256, block.vtx`hash, block.vtx`wit
    ensures psbt == SerContainer(old(Generated(h, block.Head(), Values(block.vtx), challenge, [])))
  {
    hide Values, TxFits, TxsFit, HeaderFits, RoomFor, Pushed, ToSpend, TxId, SerTx, SerBlock, AlignedRange,
         Distinct, ContainerFits, SerContainer;
    ghost var head, v := block.Head(), Values(block.vtx);
    var signme, spendme := SignetTxs(h, block, challenge);
    SpendFits(h, spendme.Value());
    var tx := signme.SerializeWithWitness();
    var b := block.Serialize();
    var prev := spendme.SerializeWithWitness();
    psbt := WriteContainer(tx, b, prev, Generated(h, head, v, challenge, []));
  }

  method WriteContainer(tx: bytes, b: bytes, prev: bytes, ghost p: Container) returns (psbt: Option<bytes>)
    requires p == Container([Entry(UNSIGNED_TX, tx), Entry(PSBT_SIGNET_BLOCK, b)],
                            [[Entry(NON_WITNESS_UTXO, prev)] + []], [[]])
    requires ContainerFits(p)
    ensures psbt == SerContainer(p)
  {
    hide DictFits, SerContainer, ContainerFits;
    var g := new PSBTMap([Entry(UNSIGNED_TX, tx), Entry(PSBT_SIGNET_BLOCK, b)]);
    var i := new PSBTMap([Entry(NON_WITNESS_UTXO, prev)]);
    var o := new PSBTMap([]);
    var container := new PSBT(g, [i], [o]);
    assert Dicts([i])[0] == [Entry(NON_WITNESS_UTXO, prev)] + [] && Dicts([o])[0] == [];
    assert container.Value() == p;
    psbt := container.Serialize();
  }

  // ---- decode_psbt

  /** No transaction has a cached identifier. */
  ghost predicate NoCaches(vtx: seq<CTransaction>)
    reads vtx
  {
    forall i :: 0 <= i < |vtx| ==> vtx[i].sha256 == None
  }

  /** `decode_psbt`, after the base64 decoding; false where an assertion of the source fails. */
  method DecodePsbt(s: bytes) returns (ok: bool, block: CBlock, solution: bytes)
    ensures fresh(block) && fresh(block.vtx) && Distinct(block.vtx) && NoCaches(block.vtx)
    ensures ok == Decoded(s).Some?
    ensures ok ==> Decoded(s) == Some((block.Head(), Values(block.vtx), solution))
  {
    hide DeserBlock, Has, Get, Values, Distinct, NoCaches;
    var carried: bytes;
    ok, carried, solution := UnpackPsbt(s);
    var whole: bool;
    whole, block := ParseBlock(carried);
    ok := ok && whole;
  }

  /** `from_binary(CBlock, b)`; false where the assertion that nothing is left over fails. */
  method ParseBlock(b: bytes) returns (ok: bool, block: CBlock)
    ensures fresh(block) && fresh(block.vtx) && Distinct(block.vtx) && NoCaches(block.vtx)
    ensures (block.Head(), Values(block.vtx)) == (DeserBlock(b).0, DeserBlock(b).1) && ok == (DeserBlock(b).2 == [])
  {
    hide DeserBlock, Values, Distinct;
    var f := new ByteStream(b);
    block := new CBlock();
    block.Deserialize(f);
    ok := f.pos == |f.data|;
    assert ok <==> f.Rest() == [];
  }

  /** `from_binary(PSBT, s)`; false where an assertion of the source fails. */
  method ParsePsbt(s: bytes) returns (ok: bool, p: PSBT)
    ensures ok == Whole(DeserContainer(s))
    ensures ok ==> p.tx != null && DeserContainer(s) == Some((p.Value(), p.tx.Value(), []))
  {
    hide DeserContainer, Dicts, Whole;
    var f := new ByteStream(s);
    var g := new PSBTMap([]);
    p := new PSBT(g, [], []);
    ok := p.Deserialize(f);
    if !ok {
      NotWhole(DeserContainer(s));
      return;
    }
    ghost var rest := f.Rest();
    ok := f.pos == |f.data|;
    WholeIf(p.Value(), p.tx.Value(), rest);
    assert ok <==> rest == [];
  }

  predicate Whole(r: Option<(Container, Tx, bytes)>) {
    r.Some? && r.value.2 == []
  }

  lemma NotWhole(r: Option<(Container, Tx, bytes)>)
    requires r.None?
    ensures !Whole(r)
  {}

  lemma WholeIf(p: Container, t: Tx, rest: bytes)
    ensures Whole(Some((p, t, rest))) <==> rest == []
  {}

  /** The statements of `decode_psbt` up to the last: the bytes of the block and the solution. */
  method UnpackPsbt(s: bytes) returns (ok: bool, carried: bytes, solution: bytes)
    ensures ok == Unpacked(s).Some?
    ensures ok ==> Unpacked(s) == Some((carried, solution))
  {
    hide DeserContainer, Has, Get, SerString, Dicts, SolutionOf;
    carried, solution := [], [];
    var p: PSBT;
    ok, p := ParsePsbt(s);
    if !ok { return; }
    ContainerShape(s);
    ok := |p.tx.vin| == 1 && |p.tx.vout| == 1 && Has(p.g.map_, PSBT_SIGNET_BLOCK);
    if !ok { return; }
    assert Dicts(p.i)[0] == p.i[0].map_ && p.i[0].map_ in Dicts(p.i);
    carried := Get(p.g.map_, PSBT_SIGNET_BLOCK, []);
    solution := FinalFields(p.i[0].map_);
  }

  method FinalFields(m: Dict) returns (solution: bytes)
    requires |Get(m, FINAL_SCRIPTSIG, [])| < U64
    ensures solution == SolutionOf(m)
  {
    hide Get, SerString;
    var scriptSig := Get(m, FINAL_SCRIPTSIG, []);
    var scriptWitness := Get(m, FINAL_SCRIPTWITNESS, [0]);
    solution := SerString(scriptSig) + scriptWitness;
  }

  // ---- solvepsbt

  /** The decoded block can be finished and written. */
  ghost predicate Solvable(s: bytes) {
    Decoded(s).Some? ==> var (head, v, solution) := Decoded(s).value;
      BlockFits(head, v) && RoomFor(v, SIGNET_HEADER + solution)
  }

  /** The header that comes out: with a Merkle root made of the identifiers of the transactions as they are
      written. */
  function FinishedHeader(h: Hash256, head: Header, v: seq<Tx>, solution: bytes, nonce: nat): Header
    requires BlockFits(head, v) && RoomFor(v, SIGNET_HEADER + solution)
  {
    PushedFits(v, SIGNET_HEADER + solution);
    FinishedHead(h, head, Pushed(v, SIGNET_HEADER + solution), nonce)
  }

  /** The block that comes out: with the solution pushed. */
  function FinishedBytes(h: Hash256, head: Header, v: seq<Tx>, solution: bytes, nonce: nat): bytes
    requires BlockFits(head, v) && RoomFor(v, SIGNET_HEADER + solution) && nonce < U32
  {
    PushedFits(v, SIGNET_HEADER + solution);
    SerBlock(FinishedHeader(h, head, v, solution, nonce), Pushed(v, SIGNET_HEADER + solution))
  }

  function Solved(h: Hash256, s: bytes, nonce: nat): Option<bytes>
    requires nonce < U32 && Solvable(s)
  {
    if Decoded(s).None? then None
    else var (head, v, solution) := Decoded(s).value; Some(FinishedBytes(h, head, v, solution, nonce))
  }

  function SolvedHead(h: Hash256, s: bytes, nonce: nat): Header
    requires Solvable(s) && Decoded(s).Some?
  {
    var (head, v, solution) := Decoded(s).value;
    FinishedHeader(h, head, v, solution, nonce)
  }

  /** Finish a decoded block and write it. */
  method FinishAndWrite(h: Hash256, block: CBlock, solution: bytes, grind: Option<nat>)
    returns (ok: bool, nonce: nat, r: bytes)
    requires BlockFits(block.Head(), Values(block.vtx)) && Distinct(block.vtx) && NoCaches(block.vtx)
    requires RoomFor(Values(block.vtx), SIGNET_HEADER + solution) && (grind.Some? ==> grind.value < U32)
    modifies block, block.vtx
    ensures grind.Some? ==> ok && nonce == grind.value
    ensures ok ==> nonce < U32
    ensures ok ==> r == FinishedBytes(h, old(block.Head()), old(Values(block.vtx)), solution, nonce)
    ensures ok && grind.None? ==>
              MeetsTarget(h, FinishedHeader(h, old(block.Head()), old(Values(block.vtx)), solution, nonce))
  {
    hide Values, TxsFit, HeaderFits, Pushed, EncodePushdata, FinishedHead, SerBlock, Distinct, OwnCoinbase, AlignedRange,
         Written, Settled, NoCaches,
         CachesFresh, CachesFit, RoomFor, MeetsTarget, HeaderHash, FinishedIds, CachedIds, RootOfIds, Ids;
    nonce, r := 0, [];
    RoomMeansCoinbase(Values(block.vtx), SIGNET_HEADER + solution);
    NoCacheIsFresh(h, block.vtx);
    DistinctCoinbase(block.vtx);
    ok := FinishBlock(h, block, solution, grind);
    if !ok { return; }
    nonce := block.nonce;
    NonceFits(block.Head());
    r := block.Serialize();
  }

  /** `do_solvepsbt`; None where an assertion fails or the search for a nonce raises. */
  method SolvePsbt(h: Hash256, s: bytes, grind: Option<nat>) returns (out: Option<bytes>, nonce: nat)
    requires (grind.Some? ==> grind.value < U32) && Solvable(s)
    ensures out.Some? ==> nonce < U32 && out == Solved(h, s, nonce)
    ensures grind.Some? ==> out.Some? == Decoded(s).Some? && (out.Some? ==> nonce == grind.value)
    ensures grind.None? && out.Some? ==> MeetsTarget(h, SolvedHead(h, s, nonce))
  {
    hide Decoded, Values, TxsFit, HeaderFits, Distinct, NoCaches, MeetsTarget, RoomFor, FinishedBytes, FinishedHeader;
    out, nonce := None, 0;
    var ok, block, solution := DecodePsbt(s);
    if !ok { return; }
    var r: bytes;
    ok, nonce, r := FinishAndWrite(h, block, solution, grind);
    if ok { out := Some(r); }
  }

  lemma NoCacheIsFresh(h: Hash256, vtx: seq<CTransaction>)
    requires TxsFit(Values(vtx)) && vtx != [] && NoCaches(vtx)
    ensures CachesFresh(h, vtx[1..]) && CachesFit(vtx[1..])
  {
    hide TxFits;
    var others := vtx[1..];
    forall i | 0 <= i < |others|
      ensures TxFits(others[i].Value()) && others[i].sha256 == None
    {
      assert others[i] == vtx[i + 1] && Values(vtx)[i + 1] == vtx[i + 1].Value();
      assert Values(vtx)[i + 1] in Values(vtx);
    }
  }
}
