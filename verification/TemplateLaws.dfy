/** What a template block and the PSBT around it contain, byte for byte (miner; the Commitment structure section of
    BIP 141, the Specification section of BIP 174). */
module TemplateLaws {
  import opened Bytes
  import opened Codec
  import opened Script
  import opened ScriptNum
  import opened Transactions
  import opened Merkle
  import opened TxObjects
  import opened Blocks
  import opened Psbt
  import opened Signet
  import opened SignetPsbt

  // ---- The witness commitment

  /** The rule of BIP 141: the last output of the coinbase starts with the commitment header and the hash of the root
      over the witness identifiers and the reserved value, the one element of the coinbase's one witness stack. */
  ghost predicate WitnessCommitted(h: Hash256, v: seq<Tx>)
    requires TxsFit(v)
  {
    && HasCoinbase(v) && |v[0].wit| == 1 && |v[0].wit[0]| == 1 && |v[0].wit[0][0]| == 32
    && [0x6a, 0x24, 0xaa, 0x21, 0xa9, 0xed] + h(LE256(RootOfIds(h, WitnessIds(h, v))) + v[0].wit[0][0])
       <= LastScript(v[0])
  }

  lemma CommitmentBytes(h: Hash256, witnessRoot: nat)
    requires witnessRoot < U256
    ensures WitnessScript(h, witnessRoot)
         == [0x6a, 0x24, 0xaa, 0x21, 0xa9, 0xed] + h(LE256(witnessRoot) + LE256(0))
  {
    hide LE256;
    var tokens := CommitmentTokens(h, witnessRoot);
    var hash := h(LE256(witnessRoot) + LE256(0));
    CommitmentBuildable(h, witnessRoot);
    BuildTwo(tokens[0], tokens[1]);
    assert tokens[1].data == [0xaa, 0x21, 0xa9, 0xed] + hash && |tokens[1].data| == 36;
    assert TokenBytes(tokens[1]) == [0x24] + ([0xaa, 0x21, 0xa9, 0xed] + hash);
    assert TokenBytes(tokens[0]) == [0x6a];
  }

  /** Only what is below the coinbase counts. */
  lemma SameWitnessIds(h: Hash256, v: seq<Tx>, w: seq<Tx>)
    requires TxsFit(v) && TxsFit(w) && |v| == |w| > 0 && v[1..] == w[1..]
    ensures WitnessIds(h, v) == WitnessIds(h, w)
  {
    hide WtxId, TxsFit;
    forall i | 1 <= i < |v|
      ensures WitnessIds(h, v)[i] == WitnessIds(h, w)[i]
    {
      assert v[i] == v[1..][i - 1] && w[i] == w[1..][i - 1];
    }
  }

  /** The commitment is computed before the output and the witness that carry it exist, and is right for the block
      that contains them. */
  lemma TemplateCommits(h: Hash256, t: Template, o: Options)
    requires TemplateFits(t, o)
    ensures var v := TemplateTxs(h, t, o); TxsFit(v) && WitnessCommitted(h, v)
  {
    hide LE256, WitnessIds, RootOfIds, WitnessScript, TxsFit, TemplateFits;
    TemplateTxsFit(h, t, o);
    var v, bare := TemplateTxs(h, t, o), BareTxs(t, o);
    SameWitnessIds(h, v, bare);
    CommitmentBytes(h, WitnessRootOf(h, t, o));
    assert LastScript(v[0]) == WitnessScript(h, WitnessRootOf(h, t, o));
  }

  /** Pushing the signet header or the solution afterwards does not disturb it. */
  lemma PushKeepsCommitment(h: Hash256, v: seq<Tx>, data: bytes)
    requires TxsFit(v) && RoomFor(v, data) && WitnessCommitted(h, v)
    ensures TxsFit(Pushed(v, data)) && WitnessCommitted(h, Pushed(v, data))
  {
    hide LE256, WitnessIds, RootOfIds, TxsFit;
    PushedFits(v, data);
    SameWitnessIds(h, v, Pushed(v, data));
    var c := [0x6a, 0x24, 0xaa, 0x21, 0xa9, 0xed] + h(LE256(RootOfIds(h, WitnessIds(h, v))) + v[0].wit[0][0]);
    PrefixOfLonger(c, LastScript(v[0]), EncodePushdata(data));
  }

  lemma PrefixOfLonger(a: bytes, b: bytes, c: bytes)
    requires a <= b
    ensures a <= b + c
  {}

  // ---- The container

  lemma OneEntry(key: Key, value: bytes)
    requires |KeyBytes(key)| < 253 && |value| < U64
    ensures DictFits([Entry(key, value)])
    ensures SerDict([Entry(key, value)]) == [|KeyBytes(key)|] + KeyBytes(key) + SerString(value) + [0]
  {
    hide SerString;
    var e := Entry(key, value);
    NoEntries();
    FirstEntry(e, []);
    assert [e] + [] == [e];
    ShortString(KeyBytes(key));
  }

  lemma ShortString(s: bytes)
    requires |s| < 253
    ensures SerString(s) == [|s|] + s
  {}

  lemma FirstEntry(e: Entry, m: Dict)
    requires EntryFits(e) && DictFits(m)
    ensures DictFits([e] + m) && SerDict([e] + m) == SerEntry(e) + SerDict(m)
  {
    hide SerEntry;
    assert ([e] + m)[1..] == m;
  }

  /** The unsigned PSBT: the magic; under key 0 the transaction to sign and under the miner's own key the block; for its
      input, under key 0, the transaction it spends; nothing for its output. */
  lemma GeneratedBytes(h: Hash256, head: Header, v: seq<Tx>, challenge: bytes)
    requires PsbtFits(h, head, v, challenge, [])
    ensures var toSpend := Challenged(h, head, v, challenge);
      var spend := Spend(h, toSpend);
      && TxFits(spend) && BlockFits(head, v)
      && |SerTx(spend)| < U64 && |SerTx(toSpend)| < U64 && |SerBlock(head, v)| < U64
      && SerContainer(Generated(h, head, v, challenge, []))
         == Some([0x70, 0x73, 0x62, 0x74, 0xff]
                 + (([1, 0x00] + SerString(SerTx(spend)))
                    + ([9, 0xfc, 0x06, 0x73, 0x69, 0x67, 0x6e, 0x65, 0x74, 0x62] + SerString(SerBlock(head, v)) + [0])
                    + (([1, 0x00] + SerString(SerTx(toSpend)) + [0]) + [0])))
  {
    hide SerTx, SerBlock, UnsignedTx, Challenged, Spend, BlockFits, TxFits, SerDict, SerDicts;
    BlockOf(head, v, challenge);
    GeneratedAccepted(h, head, v, challenge, []);
    var p := Generated(h, head, v, challenge, []);
    var toSpend := Challenged(h, head, v, challenge);
    SpendFits(h, toSpend);
    var tx, block, spent := SerTx(Spend(h, toSpend)), SerBlock(head, v), SerTx(toSpend);
    assert p.g[0] == Entry(UNSIGNED_TX, tx) && p.g[1] == Entry(PSBT_SIGNET_BLOCK, block);
    assert p.g[0] in p.g && p.g[1] in p.g && p.i[0] in p.i && p.i[0][0] in p.i[0];
    assert [Entry(NON_WITNESS_UTXO, spent)] + [] == [Entry(NON_WITNESS_UTXO, spent)];
    MapBytes(tx, block, spent);
  }

  lemma MapBytes(tx: bytes, block: bytes, spent: bytes)
    requires |tx| < U64 && |block| < U64 && |spent| < U64
    ensures var g, i := [Entry(UNSIGNED_TX, tx), Entry(PSBT_SIGNET_BLOCK, block)], [Entry(NON_WITNESS_UTXO, spent)];
      && DictFits(g) && DictFits(i) && DictFits([])
      && SerDict(g) == ([1, 0x00] + SerString(tx))
                       + ([9, 0xfc, 0x06, 0x73, 0x69, 0x67, 0x6e, 0x65, 0x74, 0x62] + SerString(block) + [0])
      && SerDicts([i]) == [1, 0x00] + SerString(spent) + [0] && SerDicts([[]]) == [0]
  {
    hide SerString;
    var a, b := Entry(UNSIGNED_TX, tx), Entry(PSBT_SIGNET_BLOCK, block);
    assert [a, b] == [a] + [b];
    OneEntry(PSBT_SIGNET_BLOCK, block);
    ShortString([0x00]);
    assert SerEntry(a) == [1, 0x00] + SerString(tx);
    OneEntry(NON_WITNESS_UTXO, spent);
    hide SerEntry, SerDict, EntryFits;
    FirstEntry(a, [b]) by { assert EntryFits(a) by { EntryIsFit(a); } }
    OneDict([Entry(NON_WITNESS_UTXO, spent)]);
    NoEntries();
    OneDict([]);
  }

  lemma EntryIsFit(e: Entry)
    requires |KeyBytes(e.key)| < U64 && |e.value| < U64
    ensures EntryFits(e)
  {}

  lemma NoEntries()
    ensures DictFits([]) && SerDict([]) == [0]
  {}

  lemma OneDict(m: Dict)
    requires DictFits(m)
    ensures SerDicts([m]) == SerDict(m)
  {
    hide SerDict;
    assert [m][1..] == [];
    assert SerDicts([m]) == SerDict(m) + SerDicts([]);
  }

  /** The solution is the counted script of key 7, or none, followed by the witness of key 8, or one zero byte. */
  lemma SolutionBytes(m: Dict, script: bytes, stack: bytes)
    requires Keyed(m) && |script| < U64
    requires if Has(m, IntKey(0x07)) then Entry(IntKey(0x07), script) in m else script == []
    requires if Has(m, IntKey(0x08)) then Entry(IntKey(0x08), stack) in m else stack == [0]
    ensures SolutionOf(m) == SerString(script) + stack
  {
    hide SerString;
    GetOf(m, IntKey(0x07), script, []);
    GetOf(m, IntKey(0x08), stack, [0]);
  }

  lemma GetOf(m: Dict, k: Key, v: bytes, d: bytes)
    requires Keyed(m) && if Has(m, k) then Entry(k, v) in m else v == d
    ensures Get(m, k, d) == v
  {
    hide Get;
    if Has(m, k) {
      var i :| 0 <= i < |m| && m[i] == Entry(k, v);
      var j :| 0 <= j < |m| && m[j] == Entry(k, Get(m, k, d));
      assert i == j;
    }
  }
}
