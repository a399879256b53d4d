/** The transaction that is signed for a signet block (miner; the Specification section of BIP 325): its bytes, and
    that it commits to the block and the challenge. */
module SignedTx {
  import opened Bytes
  import opened Codec
  import opened Script
  import opened Transactions
  import opened Merkle
  import opened TxObjects
  import opened Blocks
  import opened Signet
  import opened Layouts

  /** A transaction with one input and one output, without witness, byte for byte. */
  lemma SingleBytes(t: Tx)
    requires TxFits(t) && |t.vin| == |t.vout| == 1
    ensures var i, o := t.vin[0], t.vout[0];
      && InFits(i) && OutFits(o)
      && SerNoWitness(t) == LE32(t.version) + [1] + SerIn(i) + [1] + SerOut(o) + LE32(t.lockTime)
  {
    hide LE32, SerIn, SerOut, InFits, OutFits, StackFits;
    var i, o := t.vin[0], t.vout[0];
    assert i in t.vin && o in t.vout;
    assert t.vin == [i] && t.vout == [o];
    OneIn(i);
    OneOut(o);
  }

  lemma OneIn(i: TxIn)
    requires InFits(i)
    ensures SerInVector([i]) == [1] + SerIn(i)
  {
    hide SerIn, InFits;
    assert [i][1..] == [];
    assert SerIns([i]) == SerIn(i) + SerIns([]);
  }

  lemma OneOut(o: TxOut)
    requires OutFits(o)
    ensures SerOutVector([o]) == [1] + SerOut(o)
  {
    hide SerOut, OutFits;
    assert [o][1..] == [];
    assert SerOuts([o]) == SerOut(o) + SerOuts([]);
  }

  lemma {:induction false} FromZeros(k: nat)
    ensures FromLE(Zeros(k)) == 0
  {
    if k > 0 {
      var s := Zeros(k);
      assert s[1..] == Zeros(k - 1);
      FromZeros(k - 1);
    }
  }

  lemma ZeroFields()
    ensures LE32(0) == Zeros(4) && LE256(0) == Zeros(32) && LES64(0) == Zeros(8)
    ensures LE32(0xFFFFFFFF) == [0xff, 0xff, 0xff, 0xff]
  {
    hide FromLE;
    Pow256Values();
    FromZeros(4);
    FromZeros(8);
    FromZeros(32);
    LEFromLE(Zeros(4));
    LEFromLE(Zeros(8));
    LEFromLE(Zeros(32));
    AllOnes([0xff, 0xff, 0xff, 0xff]);
    LEFromLE([0xff, 0xff, 0xff, 0xff]);
  }

  /** The bytes of the transaction that is spent. */
  lemma ChallengeTxBytes(sd: bytes, challenge: bytes)
    requires |sd| == 72 && |challenge| < U64
    ensures TxFits(ChallengeTx(sd, challenge))
    ensures SerNoWitness(ChallengeTx(sd, challenge))
         == Zeros(4) + [1]
            + (Zeros(32) + [0xff, 0xff, 0xff, 0xff] + ([74, 0x00, 72] + sd + Zeros(4)))
            + [1] + (Zeros(8) + (SerCompactSize(|challenge|) + challenge)) + Zeros(4)
  {
    hide LE32, LES64, LE256, Zeros;
    ChallengeTxFits(sd, challenge);
    SingleBytes(ChallengeTx(sd, challenge));
    ZeroFields();
    assert SerString([0] + EncodePushdata(sd)) == [74, 0x00, 72] + sd;
  }

  lemma IdBytes(h: Hash256, t: Tx)
    requires TxFits(t)
    ensures LE256(TxId(h, t)) == h(SerNoWitness(t))
  {
    hide SerNoWitness, TxFits, FromLE, LE;
    var id := h(SerNoWitness(t));
    assert |id| == 32;
    LEFromLE(id);
  }

  /** The hashes of the transactions' bytes. */
  function BodyHashes(h: Hash256, v: seq<Tx>): (r: seq<bytes>)
    requires TxsFit(v)
    ensures |r| == |v| && forall i :: 0 <= i < |r| ==> v[i] in v && r[i] == h(SerNoWitness(v[i]))
  {
    seq(|v|, i requires 0 <= i < |v| => assert v[i] in v; h(SerNoWitness(v[i])))
  }

  /** The Merkle root of a block, as it stands in the header: the tree over the hashes of its transactions' bytes. */
  lemma BlockRootIsTree(h: Hash256, v: seq<Tx>, k: nat)
    requires TxsFit(v) && 0 < |v| <= Pow(2, k) < 2 * |v|
    ensures LE256(RootOfIds(h, Ids(h, v))) == Tree(h, BodyHashes(h, v), k)
  {
    hide SerNoWitness, TxFits, TxId, Root, Tree, LE256, FromLE, Pow;
    var leaves, hashes := Leaves(Ids(h, v)), BodyHashes(h, v);
    forall i | 0 <= i < |v|
      ensures leaves[i] == hashes[i]
    {
      assert v[i] in v;
      IdBytes(h, v[i]);
    }
    assert leaves == hashes;
    RootIsTree(h, leaves, k);
    RootSize(h, leaves);
    RootBytes(Root(h, leaves));
  }

  lemma RootBytes(s: bytes)
    requires |s| == 32
    ensures FromLE(s) < U256 && LE256(FromLE(s)) == s
  {
    hide LE, FromLE;
    Pow256At32();
    LEFromLE(s);
  }

  /** The bytes of the transaction that is signed: its one input names the other by the hash of its bytes. */
  lemma SpendBytes(h: Hash256, t: Tx)
    requires TxFits(t)
    ensures TxFits(Spend(h, t))
    ensures SerNoWitness(Spend(h, t))
         == Zeros(4) + [1] + (h(SerNoWitness(t)) + Zeros(4) + ([0] + Zeros(4))) + [1] + (Zeros(8) + [1, 0x6a]) + Zeros(4)
  {
    hide LE32, LES64, LE256, Zeros, FromLE;
    SingleBytes(Spend(h, t));
    ZeroFields();
    IdBytes(h, t);
    assert SerString([]) == [0] && SerString([OP_RETURN]) == [1, 0x6a];
  }

  /** Equal transactions to sign spend transactions with equal bytes, or the hash function has a collision (which
      the lemma names). */
  lemma SpendBinds(h: Hash256, a: Tx, b: Tx) returns (x: bytes, y: bytes)
    requires TxFits(a) && TxFits(b) && Spend(h, a) == Spend(h, b)
    ensures SerNoWitness(a) == SerNoWitness(b) || Collision(h, x, y)
  {
    hide SerNoWitness, FromLE;
    x, y := SerNoWitness(a), SerNoWitness(b);
    LEFromLE(h(x));
    LEFromLE(h(y));
    assert TxId(h, a) == Spend(h, a).vin[0].prevout.hash && TxId(h, b) == Spend(h, b).vin[0].prevout.hash;
  }

  /** A transaction without witness that has inputs is determined by its bytes. */
  lemma BytesBindTx(a: Tx, b: Tx)
    requires TxFits(a) && TxFits(b) && a.wit == b.wit == [] && a.vin != [] && b.vin != []
    requires SerNoWitness(a) == SerNoWitness(b)
    ensures a == b
  {
    hide SerNoWitness, TxFits;
    TxRoundTrip(a, []);
    TxRoundTrip(b, []);
  }

  lemma ChallengeTxBinds(sd: bytes, challenge: bytes, sd': bytes, challenge': bytes)
    requires |sd| == |sd'| == 72 && ChallengeTx(sd, challenge) == ChallengeTx(sd', challenge')
    ensures sd == sd' && challenge == challenge'
  {
    hide EncodePushdata;
    PushOf72(sd);
    PushOf72(sd');
    var s, s' := [0] + EncodePushdata(sd), [0] + EncodePushdata(sd');
    assert ChallengeTx(sd, challenge).vin[0].scriptSig == s && ChallengeTx(sd', challenge').vin[0].scriptSig == s';
    assert s[2..] == sd && s'[2..] == sd';
    assert ChallengeTx(sd, challenge).vout[0].scriptPubKey == challenge;
    assert ChallengeTx(sd', challenge').vout[0].scriptPubKey == challenge';
  }

  lemma PushOf72(sd: bytes)
    requires |sd| == 72
    ensures EncodePushdata(sd) == [72] + sd
  {}

  lemma ToSpendFits(h: Hash256, head: Header, v: seq<Tx>, challenge: bytes)
    requires HeaderFits(head) && TxsFit(v) && v != [] && |challenge| < U64
    ensures TxFits(ToSpend(h, head, v, challenge))
  {
    hide SignedData;
    ChallengeTxFits(SignedData(h, head, v), challenge);
  }

  /** What is signed commits to the block and the challenge: equal transactions to sign come from equal challenges,
      versions, previous blocks, times and, up to witnesses, transactions, or the hash function has a collision
      (which the lemma names). */
  lemma SignedTxBinds(h: Hash256, head: Header, v: seq<Tx>, challenge: bytes,
                      head': Header, v': seq<Tx>, challenge': bytes) returns (x: bytes, y: bytes)
    requires HeaderFits(head) && TxsFit(v) && |challenge| < U64
    requires HeaderFits(head') && TxsFit(v') && |challenge'| < U64
    requires |v| == |v'| > 0
    ensures TxFits(ToSpend(h, head, v, challenge)) && TxFits(ToSpend(h, head', v', challenge'))
    ensures Spend(h, ToSpend(h, head, v, challenge)) == Spend(h, ToSpend(h, head', v', challenge')) ==>
      || Collision(h, x, y)
      || (&& challenge == challenge'
          && head.version == head'.version && head.prev == head'.prev && head.time == head'.time
          && forall i :: 0 <= i < |v| ==> v[i] in v && v'[i] in v' && SerNoWitness(v[i]) == SerNoWitness(v'[i]))
  {
    hide Spend, TxFits, TxsFit, HeaderFits, SignedData, SerNoWitness, ChallengeTx, Collision;
    x, y := [], [];
    ToSpendFits(h, head, v, challenge);
    ToSpendFits(h, head', v', challenge');
    var a, b := ToSpend(h, head, v, challenge), ToSpend(h, head', v', challenge');
    if Spend(h, a) == Spend(h, b) {
      x, y := SpendBinds(h, a, b);
      if !Collision(h, x, y) {
        OneInput(SignedData(h, head, v), challenge);
        OneInput(SignedData(h, head', v'), challenge');
        BytesBindTx(a, b);
        ChallengeTxBinds(SignedData(h, head, v), challenge, SignedData(h, head', v'), challenge');
        x, y := SignedDataBinds(h, head, v, head', v');
      }
    }
  }

  lemma OneInput(sd: bytes, challenge: bytes)
    requires |sd| < U32
    ensures |ChallengeTx(sd, challenge).vin| == 1 && ChallengeTx(sd, challenge).wit == []
  {}
}
