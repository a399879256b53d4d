/** The PSBT that carries a signet block to its signers and back (miner, `generate_psbt` and `decode_psbt`). */
module SignetPsbt {
  import opened Bytes
  import opened Codec
  import opened Script
  import opened ScriptNum
  import opened Transactions
  import opened Merkle
  import opened TxObjects
  import opened Blocks
  import opened Psbt
  import opened Signet

  const PSBT_SIGNET_BLOCK := BytesKey([0xfc, 0x06, 0x73, 0x69, 0x67, 0x6e, 0x65, 0x74, 0x62])

  const WITNESS_COMMITMENT_HEADER: bytes := [0xaa, 0x21, 0xa9, 0xed]

  // ---- The block made from a template

  datatype Template = Template(height: nat, coinbaseValue: int, version: int, prev: nat, curtime: nat, mintime: nat,
                               bits: nat, transactions: seq<bytes>, challenge: bytes)

  /** The options of `generate_psbt`. */
  datatype Options = Options(rewardSpk: bytes, poolid: Option<bytes>, blocktime: Option<nat>, nversion: Option<int>)

  function TemplateHead(t: Template, o: Options): Header {
    var time := if o.blocktime.Some? then o.blocktime.value else t.curtime;
    Header(if o.nversion.Some? then o.nversion.value else t.version, t.prev, 0,
           if time < t.mintime then t.mintime else time, t.bits, 0)
  }

  function CoinbaseScript(t: Template, o: Options): bytes
    requires t.height < U32 && (o.poolid.Some? ==> |o.poolid.value| < U32)
  {
    HeightScriptParses(t.height);
    HeightScript(t.height) + if o.poolid.Some? then EncodePushdata(o.poolid.value) else []
  }

  ghost predicate TemplateFits(t: Template, o: Options) {
    && HeaderFits(TemplateHead(t, o)) && 1 <= t.height < U32 && -I64_LIMIT <= t.coinbaseValue < I64_LIMIT
    && |t.transactions| < U64 - 1 && |t.challenge| < U64 && |o.rewardSpk| < U64
    && (o.poolid.Some? ==> |o.poolid.value| < U32)
  }

  /** The coinbase before the commitment and its witness are added. */
  function BareCoinbase(t: Template, o: Options): Tx
    requires TemplateFits(t, o)
  {
    Tx(2, [TxIn(OutPoint(0, 0xffffffff), CoinbaseScript(t, o), 0xfffffffe)], [TxOut(t.coinbaseValue, o.rewardSpk)], [],
       t.height - 1)
  }

  /** `tx_from_hex` for each of the template's transactions. */
  function Parsed(data: seq<bytes>): (r: seq<Tx>)
    ensures |r| == |data| && forall i :: 0 <= i < |r| ==> r[i] == DeserTx(data[i]).0
  {
    seq(|data|, i requires 0 <= i < |data| => DeserTx(data[i]).0)
  }

  function CommitmentTokens(h: Hash256, witnessRoot: nat): seq<Token>
    requires witnessRoot < U256
  {
    [Code(OP_RETURN), Push(WITNESS_COMMITMENT_HEADER + h(LE256(witnessRoot) + LE256(0)))]
  }

  lemma CommitmentBuildable(h: Hash256, witnessRoot: nat)
    requires witnessRoot < U256
    ensures AllBuildable(CommitmentTokens(h, witnessRoot)) && NoSolution(CommitmentTokens(h, witnessRoot))
    ensures |Build(CommitmentTokens(h, witnessRoot))| == 38
  {
    hide LE256;
    var tokens := CommitmentTokens(h, witnessRoot);
    var d := tokens[1].data;
    assert |d| == 36 && d[0] == 0xaa;
    BuildTwo(tokens[0], tokens[1]);
  }

  /** `get_witness_script` with a zero nonce. */
  function WitnessScript(h: Hash256, witnessRoot: nat): bytes
    requires witnessRoot < U256
  {
    CommitmentBuildable(h, witnessRoot);
    Build(CommitmentTokens(h, witnessRoot))
  }

  lemma BareCoinbaseFits(t: Template, o: Options)
    requires TemplateFits(t, o)
    ensures TxFits(BareCoinbase(t, o))
  {
    HeightScriptParses(t.height);
    assert |HeightScript(t.height)| <= 6;
  }

  lemma ParsedFit(data: seq<bytes>)
    ensures TxsFit(Parsed(data))
  {
    hide DeserTxOver, TxFits;
    forall t | t in Parsed(data)
      ensures TxFits(t)
    {
      var i :| 0 <= i < |data| && Parsed(data)[i] == t;
      DeserTxFits(data[i]);
    }
  }

  /** The transactions whose hashes are under the witness root. */
  function BareTxs(t: Template, o: Options): (r: seq<Tx>)
    requires TemplateFits(t, o)
    ensures TxsFit(r) && |r| == |t.transactions| + 1
  {
    BareCoinbaseFits(t, o);
    ParsedFit(t.transactions);
    [BareCoinbase(t, o)] + Parsed(t.transactions)
  }

  function WitnessRootOf(h: Hash256, t: Template, o: Options): (r: nat)
    requires TemplateFits(t, o)
    ensures r < U256
  {
    RootOfIds(h, WitnessIds(h, BareTxs(t, o)))
  }

  /** A coinbase with the commitment output and the zero nonce as its witness. */
  function Committed(c: Tx, script: bytes): Tx {
    c.(vout := c.vout + [TxOut(0, script)], wit := [[LE256(0)]])
  }

  /** The block's transactions: the coinbase with its commitment output and witness, and the template's. */
  function TemplateTxs(h: Hash256, t: Template, o: Options): (r: seq<Tx>)
    requires TemplateFits(t, o)
    ensures |r| == |t.transactions| + 1
  {
    var v := BareTxs(t, o);
    v[0 := Committed(v[0], WitnessScript(h, WitnessRootOf(h, t, o)))]
  }

  lemma TemplateTxsFit(h: Hash256, t: Template, o: Options)
    requires TemplateFits(t, o)
    ensures var v := TemplateTxs(h, t, o);
      TxsFit(v) && RoomFor(v, SIGNET_HEADER) && Commits(v[0], CommitmentTokens(h, WitnessRootOf(h, t, o)))
  {
    hide LE256, CoinbaseScript, RootOfIds, WitnessIds, DeserTxOver, Build, TemplateFits;
    var v, root := BareTxs(t, o), WitnessRootOf(h, t, o);
    CommitmentBuildable(h, root);
    assert v[0] in v;
    CommittedFits(v[0], WitnessScript(h, root));
    UpdatedFits(v, Committed(v[0], WitnessScript(h, root)));
  }

  lemma CommittedFits(c: Tx, script: bytes)
    requires TxFits(c) && |script| < U64 && |c.vout| < U64 - 1
    ensures TxFits(Committed(c, script))
  {
    hide LE256, InFits;
  }

  // ---- The PSBT

  ghost predicate Signable(head: Header, v: seq<Tx>, challenge: bytes) {
    HeaderFits(head) && TxsFit(v) && |v| < U64 && |challenge| < U64 && RoomFor(v, SIGNET_HEADER)
  }

  function Challenged(h: Hash256, head: Header, v: seq<Tx>, challenge: bytes): (r: Tx)
    requires Signable(head, v, challenge)
    ensures TxFits(r)
  {
    PushedFits(v, SIGNET_HEADER);
    var signed := Pushed(v, SIGNET_HEADER);
    ChallengeTxFits(SignedData(h, head, signed), challenge);
    ToSpend(h, head, signed, challenge)
  }

  /** The container of `generate_psbt`; `added` are the entries that signers put into the input's map. */
  function Generated(h: Hash256, head: Header, v: seq<Tx>, challenge: bytes, added: Dict): Container
    requires Signable(head, v, challenge)
  {
    var toSpend := Challenged(h, head, v, challenge);
    SpendFits(h, toSpend);
    Container([Entry(UNSIGNED_TX, SerTx(Spend(h, toSpend))), Entry(PSBT_SIGNET_BLOCK, SerBlock(head, v))],
              [[Entry(NON_WITNESS_UTXO, SerTx(toSpend))] + added], [[]])
  }

  lemma SpendFits(h: Hash256, toSpend: Tx)
    requires TxFits(toSpend)
    ensures TxFits(Spend(h, toSpend))
  {
    hide TxId;
  }

  /** The block's bytes and the signet solution that a PSBT carries; None is an assertion failing. */
  function Unpacked(s: bytes): Option<(bytes, bytes)> {
    var p := DeserContainer(s);
    if p.None? || p.value.2 != [] || |p.value.1.vin| != 1 || |p.value.1.vout| != 1
       || !Has(p.value.0.g, PSBT_SIGNET_BLOCK)
    then None
    else
      ContainerShape(s);
      Some((Get(p.value.0.g, PSBT_SIGNET_BLOCK, []), SolutionOf(p.value.0.i[0])))
  }

  /** `decode_psbt`: header, transactions and signet solution. */
  function Decoded(s: bytes): Option<(Header, seq<Tx>, bytes)> {
    var u := Unpacked(s);
    if u.None? then None
    else
      var (head, v, rest) := DeserBlock(u.value.0);
      if rest != [] then None else Some((head, v, u.value.1))
  }

  /** `ser_string(scriptSig) + scriptWitness` */
  function SolutionOf(m: Dict): bytes
    requires |Get(m, FINAL_SCRIPTSIG, [])| < U64
  {
    SerString(Get(m, FINAL_SCRIPTSIG, [])) + Get(m, FINAL_SCRIPTWITNESS, [0])
  }

  lemma GetFits(m: Dict, k: Key, d: bytes)
    requires DictFits(m) && |d| < U64
    ensures |Get(m, k, d)| < U64
  {
    if Has(m, k) {
      var i :| 0 <= i < |m| && m[i] == Entry(k, Get(m, k, d));
      assert m[i] in m;
    }
  }

  lemma {:induction false} DictsShape(s: bytes, n: nat)
    requires DeserDicts(s, n).Some?
    ensures |DeserDicts(s, n).value.0| == n && forall m :: m in DeserDicts(s, n).value.0 ==> DictFits(m)
    decreases n
  {
    hide DeserEntries, DictFits;
    if n > 0 {
      DictFitsRead(s);
      DictsShape(DeserDict(s).value.1, n - 1);
    }
  }

  lemma DictFitsRead(s: bytes)
    ensures DeserDict(s).Some? ==> DictFits(DeserDict(s).value.0)
  {
    EntriesFit(s, []);
  }

  lemma ContainerShape(s: bytes)
    requires DeserContainer(s).Some?
    ensures var (p, tx, rest) := DeserContainer(s).value;
      && |p.i| == |tx.vin|
      && forall m :: m in p.i ==> |Get(m, FINAL_SCRIPTSIG, [])| < U64
  {
    hide DictFits, Get;
    var g := DeserDict(Read(s, 5).1).value;
    var tx := UnsignedTx(g.0).value;
    DictsShape(g.1, |tx.vin|);
    forall m | m in DeserContainer(s).value.0.i
      ensures |Get(m, FINAL_SCRIPTSIG, [])| < U64
    {
      GetFits(m, FINAL_SCRIPTSIG, []);
    }
  }

  /** Whatever else its maps hold, a PSBT that carries a block under the signet key is decoded to that block
      (in normal form) and to the solution its input's final fields say. */
  lemma DecodesCarriedBlock(p: Container, head: Header, v: seq<Tx>)
    requires ContainerFits(p) && GoodKeys(p.g) && AllGood(p.i) && AllGood(p.o) && SerContainer(p).Some?
    requires |UnsignedTx(p.g).value.vin| == 1 && |UnsignedTx(p.g).value.vout| == 1
    requires BlockFits(head, v) && forall t :: t in v ==> !Ambiguous(t)
    requires Has(p.g, PSBT_SIGNET_BLOCK) && Get(p.g, PSBT_SIGNET_BLOCK, []) == SerBlock(head, v)
    ensures |Get(NormalDict(p.i[0]), FINAL_SCRIPTSIG, [])| < U64
    ensures Decoded(SerContainer(p).value) == Some((head, NormalAll(v), SolutionOf(NormalDict(p.i[0]))))
  {
    hide DictFits, GoodKeys, AllGood, SerDict, SerDicts, DeserContainer, DeserBlock, SerBlock, Get, Has, NormalDict,
         UnsignedTx, NormalAll;
    var s := SerContainer(p).value;
    assert s + [] == s;
    ContainerRoundTripIff(p, []);
    NormalGet(p.g, PSBT_SIGNET_BLOCK, []);
    ContainerShape(s);
    assert SerBlock(head, v) + [] == SerBlock(head, v);
    BlockRoundTrip(head, v, []);
    assert NormalContainer(p).i[0] == NormalDict(p.i[0]);
  }

  /** The sizes that Python's integers and memory allow anyway. */
  ghost predicate PsbtFits(h: Hash256, head: Header, v: seq<Tx>, challenge: bytes, added: Dict) {
    Signable(head, v, challenge) && ContainerFits(Generated(h, head, v, challenge, added))
  }

  /** The generated container is always accepted for serialization. */
  lemma GeneratedAccepted(h: Hash256, head: Header, v: seq<Tx>, challenge: bytes, added: Dict)
    requires PsbtFits(h, head, v, challenge, added)
    ensures var p := Generated(h, head, v, challenge, added);
      && SerContainer(p).Some?
      && UnsignedTx(p.g) == Some(Spend(h, Challenged(h, head, v, challenge)))
      && |UnsignedTx(p.g).value.vin| == 1 && |UnsignedTx(p.g).value.vout| == 1
      && Has(p.g, PSBT_SIGNET_BLOCK) && Get(p.g, PSBT_SIGNET_BLOCK, []) == SerBlock(head, v)
  {
    hide Challenged, SerTx, DeserTxOver, SerBlock, DictFits, TxFits, SerDict, TxId;
    var toSpend := Challenged(h, head, v, challenge);
    SpendFits(h, toSpend);
    var spend := Spend(h, toSpend);
    var p := Generated(h, head, v, challenge, added);
    TxRoundTrip(spend, []);
    assert SerTx(spend) + [] == SerTx(spend);
    assert Normal(spend) == spend;
    TwoEntries(p.g, SerTx(spend), SerBlock(head, v));
  }

  lemma TwoEntries(g: Dict, a: bytes, b: bytes)
    requires g == [Entry(UNSIGNED_TX, a), Entry(PSBT_SIGNET_BLOCK, b)]
    ensures Has(g, UNSIGNED_TX) && Get(g, UNSIGNED_TX, []) == a
    ensures Has(g, PSBT_SIGNET_BLOCK) && Get(g, PSBT_SIGNET_BLOCK, []) == b
    ensures GoodKeys(g)
  {
    assert g[0].key == UNSIGNED_TX && g[1].key == PSBT_SIGNET_BLOCK;
    assert g[1..][0] == g[1];
  }

  lemma GeneratedGood(p: Container, a: bytes, b: bytes, input: Dict)
    requires p == Container([Entry(UNSIGNED_TX, a), Entry(PSBT_SIGNET_BLOCK, b)], [input], [[]]) && GoodKeys(input)
    ensures GoodKeys(p.g) && AllGood(p.i) && AllGood(p.o)
  {
    TwoEntries(p.g, a, b);
  }

  /** The input's map after signing. */
  function SignedInput(h: Hash256, head: Header, v: seq<Tx>, challenge: bytes, added: Dict): Dict
    requires Signable(head, v, challenge)
  {
    [Entry(NON_WITNESS_UTXO, SerTx(Challenged(h, head, v, challenge)))] + added
  }

  lemma NormalKeepsBodies(v: seq<Tx>)
    ensures SameBodies(v, NormalAll(v))
  {}

  lemma NormalFits(v: seq<Tx>)
    requires TxsFit(v)
    ensures TxsFit(NormalAll(v))
  {
    forall t | t in NormalAll(v)
      ensures TxFits(t)
    {
      var i :| 0 <= i < |v| && NormalAll(v)[i] == t;
      assert v[i] in v;
      NormalFit(v[i]);
    }
  }

  lemma NormalFit(t: Tx)
    requires TxFits(t)
    ensures TxFits(Normal(t))
  {
    hide StackFits, InFits, OutFits;
  }

  /** The whole way: a block is generated, wrapped, signed by adding any well-keyed entries to its input's
      map, unwrapped and finished. What a verifier recomputes from the finished block, by cutting its
      solution, is the very transaction that was given to the signers, and the finished header's Merkle
      root is that of the finished block's transactions. */
  lemma SignedBlockVerifies(h: Hash256, head: Header, v: seq<Tx>, challenge: bytes, added: Dict, tokens: seq<Token>,
                            nonce: nat)
    returns (psbt: bytes, solution: bytes)
    requires PsbtFits(h, head, v, challenge, added) && nonce < U32
    requires Commits(v[0], tokens) && forall t :: t in v ==> !Ambiguous(t)
    requires GoodKeys(SignedInput(h, head, v, challenge, added))
    ensures SerContainer(Generated(h, head, v, challenge, added)) == Some(psbt)
    ensures UnsignedTx(Generated(h, head, v, challenge, added).g) == Some(Spend(h, Challenged(h, head, v, challenge)))
    ensures Decoded(psbt) == Some((head, NormalAll(v), solution))
    ensures RoomFor(NormalAll(v), SIGNET_HEADER + solution) ==>
              VerifierSees(h, head, Pushed(NormalAll(v), SIGNET_HEADER + solution), nonce, challenge,
                           Challenged(h, head, v, challenge))
  {
    hide Generated, Challenged, SignedInput, GoodKeys, AllGood, Ambiguous, TxsFit, BlockFits, Decoded, SolutionOf,
         SerContainer, UnsignedTx, Pushed, VerifierSees, RoomFor, Commits, Normal, NormalDict, ContainerFits,
         HeaderFits;
    var p := Generated(h, head, v, challenge, added);
    GeneratedIsGood(h, head, v, challenge, added);
    GeneratedAccepted(h, head, v, challenge, added);
    BlockOf(head, v, challenge);
    DecodesCarriedBlock(p, head, v);
    psbt := SerContainer(p).value;
    solution := Decoded(psbt).value.2;
    NormalKeepsBodies(v);
    NormalFits(v);
    if RoomFor(NormalAll(v), SIGNET_HEADER + solution) {
      FinishedAsSigned(h, head, v, NormalAll(v), tokens, solution, nonce, challenge);
    }
  }

  /** In particular for every template and every choice of options, as long as none of the template's
      transactions is one that does not survive being written and read. */
  lemma TemplateBlockVerifies(h: Hash256, t: Template, o: Options, added: Dict, nonce: nat)
    returns (psbt: bytes, solution: bytes)
    requires TemplateFits(t, o) && nonce < U32
    requires forall x :: x in TemplateTxs(h, t, o) ==> !Ambiguous(x)
    requires PsbtFits(h, TemplateHead(t, o), TemplateTxs(h, t, o), t.challenge, added)
    requires GoodKeys(SignedInput(h, TemplateHead(t, o), TemplateTxs(h, t, o), t.challenge, added))
    ensures var head, v := TemplateHead(t, o), TemplateTxs(h, t, o);
      && SerContainer(Generated(h, head, v, t.challenge, added)) == Some(psbt)
      && Decoded(psbt) == Some((head, NormalAll(v), solution))
      && (RoomFor(NormalAll(v), SIGNET_HEADER + solution) ==>
            VerifierSees(h, head, Pushed(NormalAll(v), SIGNET_HEADER + solution), nonce, t.challenge,
                         Challenged(h, head, v, t.challenge)))
  {
    hide TemplateTxs, TemplateHead, TemplateFits, PsbtFits, Generated, Challenged, SignedInput, Commits, Decoded,
         Pushed, VerifierSees, RoomFor, SerContainer, GoodKeys, Ambiguous;
    TemplateTxsFit(h, t, o);
    psbt, solution := SignedBlockVerifies(h, TemplateHead(t, o), TemplateTxs(h, t, o), t.challenge, added,
                                          CommitmentTokens(h, WitnessRootOf(h, t, o)), nonce);
  }

  lemma BlockOf(head: Header, v: seq<Tx>, challenge: bytes)
    requires Signable(head, v, challenge)
    ensures BlockFits(head, v)
  {}

  lemma GeneratedIsGood(h: Hash256, head: Header, v: seq<Tx>, challenge: bytes, added: Dict)
    requires Signable(head, v, challenge) && GoodKeys(SignedInput(h, head, v, challenge, added))
    ensures var p := Generated(h, head, v, challenge, added); GoodKeys(p.g) && AllGood(p.i) && AllGood(p.o)
  {
    hide Challenged, SerTx, SerBlock, GoodKeys, AllGood;
    var toSpend := Challenged(h, head, v, challenge);
    SpendFits(h, toSpend);
    GeneratedGood(Generated(h, head, v, challenge, added), SerTx(Spend(h, toSpend)), SerBlock(head, v),
                  SignedInput(h, head, v, challenge, added));
  }

  lemma FinishedAsSigned(h: Hash256, head: Header, v: seq<Tx>, w: seq<Tx>, tokens: seq<Token>, solution: bytes, nonce: nat,
                         challenge: bytes)
    requires Signable(head, v, challenge) && nonce < U32 && Commits(v[0], tokens)
    requires TxsFit(w) && SameBodies(v, w)
    requires RoomFor(w, SIGNET_HEADER + solution)
    ensures VerifierSees(h, head, Pushed(w, SIGNET_HEADER + solution), nonce, challenge, Challenged(h, head, v, challenge))
  {
    hide TxsFit, RoomFor, Commits, Pushed, ToSpend, VerifierSees, TxFits, SameBodies;
    FinishKeepsWhatWasSigned(h, head, v, w, tokens, solution, nonce, challenge);
  }
}
