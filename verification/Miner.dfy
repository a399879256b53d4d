/** The signet miner's block surgery (miner): `signet_txs` and `finish_block` on block objects. */
module Miner {
  import opened Bytes
  import opened Codec
  import opened Script
  import opened Transactions
  import opened Merkle
  import opened TxObjects
  import opened Blocks
  import opened Signet

  /** Append a push to the last output script of a transaction. */
  method AppendPush(t: CTransaction, data: bytes)
    requires t.vout != [] && |data| < U32
    modifies t`vout
    ensures t.Value() == WithLastScript(old(t.Value()), LastScript(old(t.Value())) + EncodePushdata(data))
  {
    hide EncodePushdata;
    var n := |t.vout| - 1;
    t.vout := t.vout[n := t.vout[n].(scriptPubKey := t.vout[n].scriptPubKey + EncodePushdata(data))];
  }

  method RehashAt(h: Hash256, txs: seq<CTransaction>, k: nat) returns (hash: bytes)
    requires k < |txs| && TxsFit(Values(txs))
    modifies txs`sha256, txs`hash
    ensures Values(txs) == old(Values(txs))
    ensures hash == Leaves(Ids(h, Values(txs)))[k]
  {
    hide TxId, TxFits, LE256;
    ghost var v := Values(txs);
    assert v[k] in v;
    txs[k].Rehash(h);
    assert Values(txs) == v;
    hash := LE256(txs[k].sha256.value);
  }

  /** The first loop of `signet_txs`. */
  method RehashAll(h: Hash256, txs: seq<CTransaction>) returns (hashes: seq<bytes>)
    requires TxsFit(Values(txs))
    modifies txs`sha256, txs`hash
    ensures Values(txs) == old(Values(txs))
    ensures hashes == Leaves(Ids(h, Values(txs)))
  {
    hide Values, TxsFit, Leaves, Ids;
    ghost var leaves := Leaves(Ids(h, Values(txs)));
    hashes := [];
    for k := 0 to |txs|
      invariant Values(txs) == old(Values(txs))
      invariant hashes == leaves[..k]
    {
      var hash := RehashAt(h, txs, k);
      PrefixNext(leaves, k);
      hashes := hashes + [hash];
    }
    assert leaves[..|txs|] == leaves;
  }

  lemma PrefixNext(s: seq<bytes>, k: nat)
    requires k < |s|
    ensures s[..k + 1] == s[..k] + [s[k]]
  {}

  /** The first half of `signet_txs`: the Merkle root with the header pushed onto a copy of the coinbase. */
  method ModifiedRoot(h: Hash256, vtx: seq<CTransaction>) returns (mroot: nat)
    requires TxsFit(Values(vtx)) && RoomFor(Values(vtx), SIGNET_HEADER)
    modifies vtx`sha256, vtx`hash
    ensures Values(vtx) == old(Values(vtx))
    ensures var signed := Pushed(Values(vtx), SIGNET_HEADER);
      TxsFit(signed) && mroot == RootOfIds(h, Ids(h, signed))
  {
    hide TxFits, Values, Leaves, Ids, EncodePushdata, Root;
    ghost var v := Values(vtx);
    ghost var signed := Pushed(v, SIGNET_HEADER);
    PushedFits(v, SIGNET_HEADER);
    var coinbase := new CTransaction.Copy(vtx[0]);
    AppendPush(coinbase, SIGNET_HEADER);
    var txs := [coinbase] + vtx[1..];
    CopyValues(vtx, txs, signed);
    var hashes := RehashAll(h, txs);
    CopyKept(vtx, txs, v);
    mroot := GetMerkleRoot(h, hashes);
  }

  /** `signet_txs`: the block's header and transactions stay as they are; only cached identifiers are
      recomputed. */
  method SignetTxs(h: Hash256, block: CBlock, challenge: bytes) returns (spend: CTransaction, toSpend: CTransaction)
    requires HeaderFits(block.Head()) && TxsFit(Values(block.vtx)) && RoomFor(Values(block.vtx), SIGNET_HEADER)
    requires |challenge| < U64
    modifies block.vtx`sha256, block.vtx`hash
    ensures Values(block.vtx) == old(Values(block.vtx))
    ensures var signed := Pushed(Values(block.vtx), SIGNET_HEADER);
      && TxsFit(signed) && TxFits(toSpend.Value())
      && toSpend.Value() == ToSpend(h, block.Head(), signed, challenge)
      && spend.Value() == Spend(h, toSpend.Value())
    ensures fresh(spend) && fresh(toSpend)
  {
    hide TxFits, TxId, TxsFit, Values, Ids, EncodePushdata, RootOfIds, Pushed, RoomFor, SignedData, HeaderFits;
    var mroot := ModifiedRoot(h, block.vtx);
    ghost var signed := Pushed(Values(block.vtx), SIGNET_HEADER);
    var sd := CommittedData(h, block, mroot, signed);
    spend, toSpend := SpendingPair(h, sd, challenge);
  }

  method SpendingPair(h: Hash256, sd: bytes, challenge: bytes) returns (spend: CTransaction, toSpend: CTransaction)
    requires |sd| == 72 && |challenge| < U64
    ensures fresh(spend) && fresh(toSpend)
    ensures toSpend.Value() == ChallengeTx(sd, challenge) && TxFits(toSpend.Value())
    ensures spend.Value() == Spend(h, toSpend.Value())
  {
    hide TxFits, TxId;
    ChallengeTxFits(sd, challenge);
    var vin := [TxIn(OutPoint(0, 0xFFFFFFFF), [0] + EncodePushdata(sd), 0)];
    toSpend := PlainTx(vin, [TxOut(0, challenge)]);
    assert toSpend.Value() == ChallengeTx(sd, challenge);
    hide ChallengeTx;
    toSpend.Rehash(h);

    spend := PlainTx([TxIn(OutPoint(toSpend.sha256.value, 0), [], 0)], [TxOut(0, [OP_RETURN])]);
  }

  method PlainTx(vin: seq<TxIn>, vout: seq<TxOut>) returns (t: CTransaction)
    ensures fresh(t) && t.Value() == Tx(0, vin, vout, [], 0)
  {
    t := new CTransaction();
    t.version, t.lockTime := 0, 0;
    t.vin := vin;
    t.vout := vout;
  }

  method CommittedData(h: Hash256, block: CBlock, mroot: nat, ghost signed: seq<Tx>) returns (sd: bytes)
    requires HeaderFits(block.Head()) && TxsFit(signed) && signed != [] && mroot == RootOfIds(h, Ids(h, signed))
    ensures sd == SignedData(h, block.Head(), signed)
  {
    hide TxsFit, RootOfIds, Ids;
    sd := LES32(block.version) + LE256(block.prev) + LE256(mroot) + LE32(block.time);
  }

  lemma CopyValues(vtx: seq<CTransaction>, txs: seq<CTransaction>, signed: seq<Tx>)
    requires |vtx| == |txs| == |signed| > 0 && txs[0].Value() == signed[0]
    requires txs[1..] == vtx[1..] && forall i :: 1 <= i < |vtx| ==> vtx[i].Value() == signed[i]
    ensures Values(txs) == signed
  {
    forall i | 0 <= i < |txs|
      ensures Values(txs)[i] == signed[i]
    {
      if i > 0 { assert txs[i] == txs[1..][i - 1] == vtx[1..][i - 1] == vtx[i]; }
    }
  }

  lemma CopyKept(vtx: seq<CTransaction>, txs: seq<CTransaction>, v: seq<Tx>)
    requires |vtx| == |txs| == |v| > 0 && vtx[0].Value() == v[0]
    requires txs[1..] == vtx[1..] && forall i :: 1 <= i < |vtx| ==> txs[i].Value() == v[i]
    ensures Values(vtx) == v
  {
    forall i | 0 <= i < |txs|
      ensures Values(vtx)[i] == v[i]
    {
      if i > 0 { assert vtx[i] == vtx[1..][i - 1] == txs[1..][i - 1] == txs[i]; }
    }
  }

  /** The coinbase object stands in one place only. */
  ghost predicate OwnCoinbase(vtx: seq<CTransaction>) {
    forall i :: 1 <= i < |vtx| ==> vtx[i] != vtx[0]
  }

  lemma DistinctCoinbase(vtx: seq<CTransaction>)
    requires Distinct(vtx)
    ensures OwnCoinbase(vtx)
  {}

  /** The push onto the coinbase, wherever in the block that object stands. */
  function PushedAll(vtx: seq<CTransaction>, v: seq<Tx>, data: bytes): (r: seq<Tx>)
    requires |v| == |vtx| && RoomFor(v, data)
    ensures |r| == |v| && HasCoinbase(r) && r[0] == Pushed(v, data)[0]
    ensures forall i :: 0 <= i < |r| ==> r[i] == if vtx[i] == vtx[0] then Pushed(v, data)[0] else v[i]
  {
    seq(|v|, i requires 0 <= i < |v| => if vtx[i] == vtx[0] then Pushed(v, data)[0] else v[i])
  }

  lemma PushedOnce(vtx: seq<CTransaction>, v: seq<Tx>, data: bytes)
    requires |v| == |vtx| && RoomFor(v, data) && OwnCoinbase(vtx)
    ensures PushedAll(vtx, v, data) == Pushed(v, data)
  {
    hide EncodePushdata;
  }

  lemma PushedAllFits(vtx: seq<CTransaction>, v: seq<Tx>, data: bytes)
    requires |v| == |vtx| && TxsFit(v) && RoomFor(v, data)
    ensures TxsFit(PushedAll(vtx, v, data))
  {
    hide TxFits, EncodePushdata;
    PushedFits(v, data);
    assert Pushed(v, data)[0] in Pushed(v, data);
    var w := PushedAll(vtx, v, data);
    forall t | t in w
      ensures TxFits(t)
    {
      var i :| 0 <= i < |w| && w[i] == t;
      assert v[i] in v;
    }
  }

  /** `finish_block`. The header's Merkle root is made of the coinbase's new identifier and of what the other
      transactions have cached: if none of that is stale, of the identifiers of the transactions as they now
      are. The nonce is the one a grinding command found, or the first that meets the target; false stands
      for the exceptions of the search. */
  method FinishBlock(h: Hash256, block: CBlock, solution: bytes, grind: Option<nat>) returns (ok: bool)
    requires HeaderFits(block.Head()) && TxsFit(Values(block.vtx))
    requires grind.Some? ==> grind.value < U32
    requires RoomFor(Values(block.vtx), SIGNET_HEADER + solution) && CachesFit(block.vtx[1..])
    modifies block`merkleRoot, block`nonce, block`sha256, block.vtx`vout, block.vtx`sha256, block.vtx`hash
    ensures Values(block.vtx) == PushedAll(block.vtx, old(Values(block.vtx)), SIGNET_HEADER + solution)
    ensures OwnCoinbase(block.vtx) ==> Values(block.vtx) == Pushed(old(Values(block.vtx)), SIGNET_HEADER + solution)
    ensures TxsFit(Values(block.vtx))
    ensures block.Head() == old(block.Head()).(merkleRoot := block.merkleRoot, nonce := block.nonce)
    ensures block.merkleRoot
            == RootOfIds(h, FinishedIds(h, block.vtx, Values(block.vtx), old(CachedIds(h, block.vtx[1..]))))
    ensures old(CachesFresh(h, block.vtx[1..])) ==>
              block.Head() == FinishedHead(h, old(block.Head()), Values(block.vtx), block.nonce)
    ensures grind.Some? ==> ok && block.nonce == grind.value
    ensures ok ==> HeaderFits(block.Head()) && block.sha256 == Some(HeaderHash(h, block.Head()))
    ensures ok && grind.None? ==> MeetsTarget(h, block.Head())
  {
    hide TxFits, TxId, TxsFit, EncodePushdata, Values, RootOfIds, Ids, SerHeader, CachesFresh, CachesFit, OwnCoinbase,
         Pushed, PushedAll, RoomFor, FinishedIds, CachedIds, MeetsTarget;
    block.merkleRoot := FinishedRoot(h, block, SIGNET_HEADER + solution);
    if grind.None? {
      ok := block.Solve(h);
    } else {
      block.nonce := grind.value;
      block.Rehash(h);
      ok := true;
    }
  }

  /** The identifiers under the new root: the coinbase's own, and those cached for the others. */
  function FinishedIds(h: Hash256, vtx: seq<CTransaction>, finished: seq<Tx>, cached: seq<nat>): (r: seq<nat>)
    requires TxsFit(finished) && |vtx| == |finished| == |cached| + 1 && AllIds(cached)
    ensures |r| == |cached| + 1 && AllIds(r)
    ensures finished[0] in finished
    ensures forall i :: 0 <= i < |r| ==> r[i] == if vtx[i] == vtx[0] then TxId(h, finished[0]) else cached[i - 1]
  {
    hide TxFits, TxId;
    assert finished[0] in finished;
    seq(|vtx|, i requires 0 <= i < |vtx| => if vtx[i] == vtx[0] then TxId(h, finished[0]) else cached[i - 1])
  }

  /** The push and the new Merkle root. */
  method FinishedRoot(h: Hash256, block: CBlock, data: bytes) returns (root: nat)
    requires TxsFit(Values(block.vtx)) && RoomFor(Values(block.vtx), data) && CachesFit(block.vtx[1..])
    modifies block.vtx`vout, block.vtx`sha256, block.vtx`hash
    ensures Values(block.vtx) == PushedAll(block.vtx, old(Values(block.vtx)), data) && TxsFit(Values(block.vtx))
    ensures OwnCoinbase(block.vtx) ==> Values(block.vtx) == Pushed(old(Values(block.vtx)), data)
    ensures root < U256
    ensures root == RootOfIds(h, FinishedIds(h, block.vtx, Values(block.vtx), old(CachedIds(h, block.vtx[1..]))))
    ensures old(CachesFresh(h, block.vtx[1..])) ==> root == RootOfIds(h, Ids(h, Values(block.vtx)))
  {
    hide TxFits, TxId, TxsFit, EncodePushdata, Values, RootOfIds, Ids, CachesFresh, CachesFit, OwnCoinbase, Pushed,
         PushedAll, RoomFor, FinishedIds, CachedIds;
    if OwnCoinbase(block.vtx) { PushedOnce(block.vtx, Values(block.vtx), data); }
    Finish(h, block.vtx, data);
    root := block.CalcMerkleRoot(h);
  }

  /** The first two statements of `finish_block`. */
  method Finish(h: Hash256, vtx: seq<CTransaction>, data: bytes)
    requires TxsFit(Values(vtx)) && RoomFor(Values(vtx), data) && CachesFit(vtx[1..])
    modifies vtx`vout, vtx`sha256, vtx`hash
    ensures Values(vtx) == PushedAll(vtx, old(Values(vtx)), data) && TxsFit(Values(vtx)) && CachesFit(vtx)
    ensures CachedIds(h, vtx) == FinishedIds(h, vtx, Values(vtx), old(CachedIds(h, vtx[1..])))
    ensures old(CachesFresh(h, vtx[1..])) ==> CachesFresh(h, vtx)
  {
    hide TxFits, TxId, TxsFit, EncodePushdata, Values, CachedIds, CachesFresh, CachesFit, FinishedIds, PushedAll, RoomFor,
         OthersCache, OthersFresh;
    RoomMeansCoinbase(Values(vtx), data);
    ghost var cached := CachedIds(h, vtx[1..]);
    CachedOthers(h, vtx);
    FreshOthers(h, vtx);
    PushedAllFits(vtx, Values(vtx), data);
    PushCoinbase(h, vtx, data, cached);
    RehashCoinbase(h, vtx, cached);
  }

  lemma RoomMeansCoinbase(v: seq<Tx>, data: bytes)
    requires RoomFor(v, data)
    ensures v != []
  {}

  /** The other transactions have these cached identifiers. */
  ghost predicate OthersCache(h: Hash256, vtx: seq<CTransaction>, cached: seq<nat>)
    requires |vtx| == |cached| + 1
    reads vtx
  {
    forall i :: 1 <= i < |vtx| && vtx[i] != vtx[0] ==> CacheFits(vtx[i]) && cached[i - 1] == CachedId(h, vtx[i])
  }

  /** None of them is stale. */
  ghost predicate OthersFresh(h: Hash256, vtx: seq<CTransaction>)
    reads vtx
  {
    forall i :: 0 <= i < |vtx| && vtx[i] != vtx[0] ==>
      TxFits(vtx[i].Value()) && (vtx[i].sha256.Some? ==> vtx[i].sha256.value == TxId(h, vtx[i].Value()))
  }

  method PushCoinbase(h: Hash256, vtx: seq<CTransaction>, data: bytes, ghost cached: seq<nat>)
    requires RoomFor(Values(vtx), data) && |vtx| == |cached| + 1 && OthersCache(h, vtx, cached)
    modifies vtx`vout
    ensures Values(vtx) == PushedAll(vtx, old(Values(vtx)), data) && OthersCache(h, vtx, cached)
    ensures old(OthersFresh(h, vtx)) ==> OthersFresh(h, vtx)
  {
    hide EncodePushdata, Values, TxFits, TxId;
    ghost var v := Values(vtx);
    AppendPush(vtx[0], data);
    AllPlaces(vtx, v, PushedAll(vtx, v, data));
  }

  method RehashCoinbase(h: Hash256, vtx: seq<CTransaction>, ghost cached: seq<nat>)
    requires TxsFit(Values(vtx)) && |vtx| == |cached| + 1 && AllIds(cached) && OthersCache(h, vtx, cached)
    modifies vtx`sha256, vtx`hash
    ensures Values(vtx) == old(Values(vtx)) && CachesFit(vtx)
    ensures CachedIds(h, vtx) == FinishedIds(h, vtx, Values(vtx), cached)
    ensures old(OthersFresh(h, vtx)) ==> CachesFresh(h, vtx)
  {
    hide TxFits, TxId, Values, CachedIds, CachesFit, FinishedIds;
    ghost var v := Values(vtx);
    assert v[0] in v;
    vtx[0].Rehash(h);
    AllPlaces(vtx, v, v);
    NewIds(h, vtx, v, cached);
  }

  lemma AllPlaces(vtx: seq<CTransaction>, v: seq<Tx>, w: seq<Tx>)
    requires |vtx| == |v| == |w| > 0 && vtx[0].Value() == w[0]
    requires forall i :: 0 <= i < |vtx| ==> w[i] == if vtx[i] == vtx[0] then w[0] else v[i]
    requires forall i :: 0 <= i < |vtx| && vtx[i] != vtx[0] ==> vtx[i].Value() == v[i]
    ensures Values(vtx) == w
  {
    assert forall i :: 0 <= i < |w| ==> Values(vtx)[i] == w[i];
  }

  lemma CachedOthers(h: Hash256, vtx: seq<CTransaction>)
    requires vtx != [] && CachesFit(vtx[1..])
    ensures OthersCache(h, vtx, CachedIds(h, vtx[1..]))
  {
    hide TxFits, TxId;
    forall i | 1 <= i < |vtx|
      ensures CacheFits(vtx[i]) && CachedIds(h, vtx[1..])[i - 1] == CachedId(h, vtx[i])
    {
      assert vtx[1..][i - 1] == vtx[i];
    }
  }

  lemma FreshOthers(h: Hash256, vtx: seq<CTransaction>)
    requires vtx != []
    ensures CachesFresh(h, vtx[1..]) ==> OthersFresh(h, vtx)
  {
    hide TxFits, TxId;
    assert forall i :: 0 < i < |vtx| ==> vtx[i] == vtx[1..][i - 1];
  }

  lemma NewIds(h: Hash256, vtx: seq<CTransaction>, v: seq<Tx>, cached: seq<nat>)
    requires |vtx| == |v| == |cached| + 1 && Values(vtx) == v && TxsFit(v) && AllIds(cached)
    requires TxFits(vtx[0].Value()) && vtx[0].sha256 == Some(TxId(h, vtx[0].Value()))
    requires OthersCache(h, vtx, cached)
    ensures CachesFit(vtx) && CachedIds(h, vtx) == FinishedIds(h, vtx, v, cached)
  {
    hide TxFits, TxId;
    assert CacheFits(vtx[0]);
    assert CachesFit(vtx);
    forall i | 0 <= i < |vtx|
      ensures CachedIds(h, vtx)[i] == FinishedIds(h, vtx, v, cached)[i]
    {
      if vtx[i] != vtx[0] { assert FinishedIds(h, vtx, v, cached)[i] == cached[i - 1]; }
    }
  }

  lemma AppendedValues(vtx: seq<CTransaction>, v: seq<Tx>, w: seq<Tx>)
    requires |vtx| == |v| == |w| > 0 && vtx[0].Value() == w[0] && w == v[0 := w[0]]
    requires forall i :: 1 <= i < |vtx| ==> vtx[i].Value() == v[i]
    ensures Values(vtx) == w
  {
    assert forall i :: 0 <= i < |w| ==> Values(vtx)[i] == w[i];
  }
}
