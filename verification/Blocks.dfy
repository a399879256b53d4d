/** Block objects (messages.py, `CBlockHeader` and `CBlock`): a header whose fields are assigned and a list of
    transaction objects. */
module Blocks {
  import opened Bytes
  import opened Codec
  import opened Transactions
  import opened Merkle
  import opened TxObjects
  import NBits

  function Values(vtx: seq<CTransaction>): (r: seq<Tx>)
    reads vtx
    ensures |r| == |vtx| && forall i :: 0 <= i < |r| ==> r[i] == vtx[i].Value()
  {
    seq(|vtx|, i requires 0 <= i < |vtx| reads vtx => vtx[i].Value())
  }

  ghost predicate Distinct(vtx: seq<CTransaction>) {
    forall i, j :: 0 <= i < j < |vtx| ==> vtx[i] != vtx[j]
  }

  /** Transactions `lo` up to `hi` brought to the form that serializing them leaves behind. */
  function AlignedRange(v: seq<Tx>, lo: nat, hi: nat): (r: seq<Tx>)
    ensures |r| == |v| && forall i :: 0 <= i < |r| ==> r[i] == if lo <= i < hi then Aligned(v[i]) else v[i]
  {
    seq(|v|, i requires 0 <= i < |v| => if lo <= i < hi then Aligned(v[i]) else v[i])
  }

  /** The same when objects may be listed more than once: wherever one of `vtx[lo..hi]` stands. */
  function Settled(vtx: seq<CTransaction>, v: seq<Tx>, lo: nat, hi: nat): (r: seq<Tx>)
    requires |v| == |vtx| && lo <= hi <= |vtx|
    ensures |r| == |v|
    ensures forall i :: 0 <= i < |r| ==> r[i] == if vtx[i] in vtx[lo..hi] then Aligned(v[i]) else v[i]
  {
    seq(|v|, i requires 0 <= i < |v| => if vtx[i] in vtx[lo..hi] then Aligned(v[i]) else v[i])
  }

  /** What is written when the objects from `lo` on are serialized in turn: an object that has been before has
      its witness list aligned already. */
  function Written(vtx: seq<CTransaction>, v: seq<Tx>, lo: nat): (r: seq<Tx>)
    requires |v| == |vtx| && lo <= |vtx|
    ensures |r| == |v|
    ensures forall i :: 0 <= i < |r| ==> r[i] == if lo <= i && vtx[i] in vtx[lo..i] then Aligned(v[i]) else v[i]
  {
    seq(|v|, i requires 0 <= i < |v| => if lo <= i && vtx[i] in vtx[lo..i] then Aligned(v[i]) else v[i])
  }

  lemma WrittenFits(vtx: seq<CTransaction>, v: seq<Tx>, lo: nat)
    requires |v| == |vtx| && lo <= |vtx| && TxsFit(v)
    ensures TxsFit(Written(vtx, v, lo))
  {
    hide TxFits, Aligned, SerTx;
    var w := Written(vtx, v, lo);
    forall t | t in w
      ensures TxFits(t)
    {
      var i :| 0 <= i < |w| && w[i] == t;
      assert v[i] in v;
      SerializedTwice(v[i]);
    }
  }

  /** If no object is listed twice, everything is written as it was. */
  lemma WrittenOnce(vtx: seq<CTransaction>, v: seq<Tx>, lo: nat)
    requires |v| == |vtx| && lo <= |vtx| && Distinct(vtx)
    ensures Written(vtx, v, lo) == v && Settled(vtx, v, lo, |vtx|) == AlignedRange(v, lo, |vtx|)
  {
    hide Aligned;
    forall i | 0 <= i < |v|
      ensures Written(vtx, v, lo)[i] == v[i]
      ensures Settled(vtx, v, lo, |vtx|)[i] == AlignedRange(v, lo, |vtx|)[i]
    {
      if lo <= i { assert vtx[lo..][i - lo] == vtx[i]; }
    }
  }

  lemma NothingSettled(vtx: seq<CTransaction>, v: seq<Tx>, lo: nat)
    requires |v| == |vtx| && lo <= |vtx|
    ensures Settled(vtx, v, lo, lo) == v
  {
    assert vtx[lo..lo] == [];
  }

  lemma AlignedTwice(t: Tx)
    ensures Aligned(Aligned(t)) == Aligned(t)
  {
    assert Padded(Padded(t.wit, |t.vin|), |t.vin|) == Padded(t.wit, |t.vin|);
  }

  /** Objects that are the same have the same value. */
  ghost predicate Agree(vtx: seq<CTransaction>, v: seq<Tx>)
    requires |v| == |vtx|
  {
    forall i, j :: 0 <= i < |vtx| && 0 <= j < |vtx| && vtx[i] == vtx[j] ==> v[i] == v[j]
  }

  lemma ValuesAgree(vtx: seq<CTransaction>)
    ensures Agree(vtx, Values(vtx))
  {}

  /** Serializing transaction `k` writes it as it then is and settles all its places. */
  lemma SettleNext(vtx: seq<CTransaction>, v: seq<Tx>, lo: nat, k: nat)
    requires |v| == |vtx| && lo <= k < |vtx| && Agree(vtx, v)
    requires vtx[k].Value() == Aligned(Written(vtx, v, lo)[k])
    requires forall i :: 0 <= i < |vtx| && vtx[i] != vtx[k] ==> vtx[i].Value() == Settled(vtx, v, lo, k)[i]
    ensures Values(vtx) == Settled(vtx, v, lo, k + 1)
  {
    hide Aligned;
    AlignedTwice(v[k]);
    assert vtx[lo..k + 1] == vtx[lo..k] + [vtx[k]];
    forall i | 0 <= i < |vtx|
      ensures vtx[i].Value() == Settled(vtx, v, lo, k + 1)[i]
    {
      if vtx[i] == vtx[k] { assert v[i] == v[k]; }
    }
    assert Values(vtx) == Settled(vtx, v, lo, k + 1);
  }

  method SerializeAt(vtx: seq<CTransaction>, k: nat, ghost v: seq<Tx>, ghost lo: nat) returns (s: bytes)
    requires |v| == |vtx| && lo <= k < |vtx| && Agree(vtx, v) && TxsFit(v) && Values(vtx) == Settled(vtx, v, lo, k)
    modifies vtx`wit
    ensures TxFits(Written(vtx, v, lo)[k]) && s == SerTx(Written(vtx, v, lo)[k])
    ensures Values(vtx) == Settled(vtx, v, lo, k + 1)
  {
    hide SerTx, TxFits, Aligned, Agree;
    WrittenFits(vtx, v, lo);
    assert Written(vtx, v, lo)[k] in Written(vtx, v, lo);
    assert Values(vtx)[k] == Written(vtx, v, lo)[k];
    ghost var before := Values(vtx);
    s := vtx[k].SerializeWithWitness();
    assert forall i :: 0 <= i < |vtx| && vtx[i] != vtx[k] ==> vtx[i].Value() == before[i];
    SettleNext(vtx, v, lo, k);
  }

  method WtxidAt(h: Hash256, vtx: seq<CTransaction>, k: nat, ghost v: seq<Tx>, ghost lo: nat) returns (id: nat)
    requires |v| == |vtx| && lo <= k < |vtx| && Agree(vtx, v) && TxsFit(v) && Values(vtx) == Settled(vtx, v, lo, k)
    modifies vtx`wit
    ensures TxFits(Written(vtx, v, lo)[k]) && id == WtxId(h, Written(vtx, v, lo)[k])
    ensures Values(vtx) == Settled(vtx, v, lo, k + 1)
  {
    hide WtxId, TxFits, Aligned, Agree;
    WrittenFits(vtx, v, lo);
    assert Written(vtx, v, lo)[k] in Written(vtx, v, lo);
    assert Values(vtx)[k] == Written(vtx, v, lo)[k];
    ghost var before := Values(vtx);
    id := vtx[k].CalcWtxid(h);
    assert forall i :: 0 <= i < |vtx| && vtx[i] != vtx[k] ==> vtx[i].Value() == before[i];
    SettleNext(vtx, v, lo, k);
  }

  lemma SlicesFit(w: seq<Tx>)
    requires TxsFit(w)
    ensures w[0..] == w
    ensures forall k :: 0 <= k <= |w| ==> TxsFit(w[k..])
  {}

  lemma NextPart(w: seq<Tx>, k: nat, r: bytes)
    requires TxsFit(w) && k < |w|
    ensures TxsFit(w[k..]) && TxsFit(w[k + 1..]) && TxFits(w[k])
    ensures r + SerTxs(w[k..]) == r + SerTx(w[k]) + SerTxs(w[k + 1..])
  {
    hide SerTx, TxFits;
    assert w[k..][0] == w[k] && w[k..][1..] == w[k + 1..] && w[k] in w;
    ConcatAssoc(r, SerTx(w[k]), SerTxs(w[k + 1..]));
  }

  lemma NoPart(w: seq<Tx>, r: bytes)
    ensures w[|w|..] == [] && TxsFit(w[|w|..]) && r + SerTxs(w[|w|..]) == r
  {}

  // ---- Transaction identifiers and the roots made of them

  function Ids(h: Hash256, v: seq<Tx>): (r: seq<nat>)
    requires TxsFit(v)
    ensures |r| == |v| && AllIds(r)
    ensures forall i :: 0 <= i < |r| ==> v[i] in v && r[i] == TxId(h, v[i])
  {
    seq(|v|, i requires 0 <= i < |v| => assert v[i] in v; TxId(h, v[i]))
  }

  ghost predicate AllIds(ids: seq<nat>) {
    forall i :: 0 <= i < |ids| ==> ids[i] < U256
  }

  function Leaves(ids: seq<nat>): (r: seq<bytes>)
    requires AllIds(ids)
    ensures |r| == |ids| && forall i :: 0 <= i < |r| ==> ids[i] < U256 && r[i] == LE256(ids[i])
  {
    seq(|ids|, i requires 0 <= i < |ids| => LE256(ids[i]))
  }

  function RootOfIds(h: Hash256, ids: seq<nat>): (r: nat)
    requires ids != [] && AllIds(ids)
    ensures r < U256
  {
    RootSize(h, Leaves(ids));
    Pow256At32();
    FromLE(Root(h, Leaves(ids)))
  }

  /** The identifiers under the witness root: zero for the coinbase, then the hashes of the full
      serializations. */
  function WitnessIds(h: Hash256, v: seq<Tx>): (r: seq<nat>)
    requires TxsFit(v) && v != []
    ensures |r| == |v| && AllIds(r) && r[0] == 0
    ensures forall i :: 1 <= i < |r| ==> v[i] in v && r[i] == WtxId(h, v[i])
  {
    seq(|v|, i requires 0 <= i < |v| => assert v[i] in v; if i == 0 then 0 else WtxId(h, v[i]))
  }

  /** The identifier that `calc_sha256` leaves cached. */
  function CachedId(h: Hash256, t: CTransaction): nat
    reads t
    requires TxFits(t.Value())
  {
    if t.sha256.Some? then t.sha256.value else TxId(h, t.Value())
  }

  /** The cache, if there is one, holds an identifier: 32 bytes. */
  ghost predicate CacheFits(t: CTransaction)
    reads t
  {
    TxFits(t.Value()) && (t.sha256.Some? ==> t.sha256.value < U256)
  }

  ghost predicate CachesFit(vtx: seq<CTransaction>)
    reads vtx
  {
    forall i :: 0 <= i < |vtx| ==> CacheFits(vtx[i])
  }

  function CachedIds(h: Hash256, vtx: seq<CTransaction>): (r: seq<nat>)
    reads vtx
    requires CachesFit(vtx)
    ensures |r| == |vtx| && AllIds(r)
  {
    seq(|vtx|, i requires 0 <= i < |vtx| && CacheFits(vtx[i]) reads vtx => CachedId(h, vtx[i]))
  }

  /** No cached identifier is stale. */
  ghost predicate CachesFresh(h: Hash256, vtx: seq<CTransaction>)
    reads vtx
  {
    forall i :: 0 <= i < |vtx| ==>
      TxFits(vtx[i].Value()) && (vtx[i].sha256.Some? ==> vtx[i].sha256.value == TxId(h, vtx[i].Value()))
  }

  /** `deser_vector(f, CTransaction)` */
  method TxVector(f: ByteStream) returns (r: seq<CTransaction>)
    requires f.Valid()
    modifies f
    ensures f.Valid()
    ensures var (n, rest) := DeserCompactSize(old(f.Rest())); DeserTxs(rest, n) == (Values(r), f.Rest())
    ensures fresh(r) && Distinct(r) && forall t :: t in r ==> t.sha256 == None
  {
    hide DeserCompactSize, DeserTxOver, Values, After;
    var nit := f.CompactSize();
    ghost var from := f.Rest();
    r := [];
    ghost var values: seq<Tx> := [];
    AfterEmpty(DeserTxs(from, nit));
    for k := 0 to nit
      invariant f.Valid()
      invariant fresh(r) && Distinct(r) && forall t :: t in r ==> t.sha256 == None
      invariant |values| == |r| && forall i :: 0 <= i < |r| ==> r[i].Value() == values[i]
      invariant DeserTxs(from, nit) == After(values, DeserTxs(f.Rest(), nit - k))
    {
      var t := new CTransaction();
      t.Deserialize(f);
      AfterSnoc(values, t.Value(), DeserTxs(f.Rest(), nit - k - 1));
      r, values := r + [t], values + [t.Value()];
    }
    assert Values(r) == values;
    AfterNothing(values, f.Rest());
  }

  /** Transaction `t` now is `v`, and `calc_sha256` leaves the identifier `id` cached. */
  ghost predicate HasId(h: Hash256, t: CTransaction, v: Tx, id: nat)
    reads t
  {
    CacheFits(t) && t.Value() == v && CachedId(h, t) == id && id < U256
  }

  ghost predicate HaveIds(h: Hash256, vtx: seq<CTransaction>, v: seq<Tx>, ids: seq<nat>)
    reads vtx
  {
    |v| == |vtx| == |ids| && forall i :: 0 <= i < |vtx| ==> HasId(h, vtx[i], v[i], ids[i])
  }

  lemma HaveCachedIds(h: Hash256, vtx: seq<CTransaction>)
    requires CachesFit(vtx)
    ensures HaveIds(h, vtx, Values(vtx), CachedIds(h, vtx))
  {}

  lemma IdsAreCached(h: Hash256, vtx: seq<CTransaction>, v: seq<Tx>, ids: seq<nat>)
    requires HaveIds(h, vtx, v, ids)
    ensures CachesFit(vtx) && Values(vtx) == v && CachedIds(h, vtx) == ids
  {
    hide CacheFits, CachedId;
    forall i | 0 <= i < |vtx|
      ensures CacheFits(vtx[i])
    {
      assert HasId(h, vtx[i], v[i], ids[i]);
    }
    assert Values(vtx) == v;
    assert CachedIds(h, vtx) == ids;
  }

  /** The first `n` transactions have a cached identifier. */
  ghost predicate FirstCached(vtx: seq<CTransaction>, n: nat)
    reads vtx
    requires n <= |vtx|
  {
    forall i :: 0 <= i < n ==> vtx[i].sha256.Some?
  }

  method CalcAt(h: Hash256, vtx: seq<CTransaction>, k: nat, ghost v: seq<Tx>, ghost ids: seq<nat>) returns (hash: bytes)
    requires k < |vtx| && HaveIds(h, vtx, v, ids) && FirstCached(vtx, k)
    modifies vtx`sha256, vtx`hash
    ensures HaveIds(h, vtx, v, ids) && FirstCached(vtx, k + 1)
    ensures ids[k] < U256 && hash == LE256(ids[k])
  {
    hide HasId, LE256;
    forall i | 0 <= i < |vtx| && vtx[i] == vtx[k]
      ensures v[i] == v[k] && ids[i] == ids[k]
    {
      OneId(h, vtx[k], v[i], ids[i], v[k], ids[k]);
    }
    hash := CalcOne(h, vtx[k], v[k], ids[k]);
  }

  lemma OneId(h: Hash256, t: CTransaction, v: Tx, id: nat, v': Tx, id': nat)
    requires HasId(h, t, v, id) && HasId(h, t, v', id')
    ensures v == v' && id == id'
  {}

  method CalcOne(h: Hash256, t: CTransaction, ghost v: Tx, ghost id: nat) returns (hash: bytes)
    requires HasId(h, t, v, id)
    modifies t`sha256, t`hash
    ensures HasId(h, t, v, id) && t.sha256.Some? && id < U256 && hash == LE256(id)
  {
    hide TxId, TxFits, LE256;
    t.CalcSha256(h);
    hash := LE256(t.sha256.value);
  }

  method CachedLeaves(h: Hash256, vtx: seq<CTransaction>) returns (hashes: seq<bytes>)
    requires CachesFit(vtx)
    modifies vtx`sha256, vtx`hash
    ensures hashes == Leaves(old(CachedIds(h, vtx)))
    ensures Values(vtx) == old(Values(vtx)) && CachesFit(vtx) && CachedIds(h, vtx) == old(CachedIds(h, vtx))
    ensures FirstCached(vtx, |vtx|)
  {
    hide Values, CachedIds, Leaves, CachesFit, FirstCached, HaveIds, LE256;
    NothingCached(vtx);
    HaveCachedIds(h, vtx);
    ghost var v, ids := Values(vtx), CachedIds(h, vtx);
    hashes := [];
    for k := 0 to |vtx|
      invariant HaveIds(h, vtx, v, ids) && FirstCached(vtx, k)
      invariant |hashes| == k && forall j :: 0 <= j < k ==> hashes[j] == LE256(ids[j])
    {
      var hash := CalcAt(h, vtx, k, v, ids);
      hashes := hashes + [hash];
    }
    IdsAreCached(h, vtx, v, ids);
    assert hashes == Leaves(ids);
  }

  lemma NothingCached(vtx: seq<CTransaction>)
    ensures FirstCached(vtx, 0)
  {}

  lemma FreshIds(h: Hash256, vtx: seq<CTransaction>)
    requires CachesFit(vtx)
    ensures CachesFresh(h, vtx) ==> TxsFit(Values(vtx)) && CachedIds(h, vtx) == Ids(h, Values(vtx))
  {
    hide TxId, TxFits;
    if CachesFresh(h, vtx) {
      assert TxsFit(Values(vtx));
      assert CachedIds(h, vtx) == Ids(h, Values(vtx));
    }
  }

  /** The witness leaves of what is written, object by object. */
  method WitnessLeaves(h: Hash256, vtx: seq<CTransaction>) returns (hashes: seq<bytes>)
    requires vtx != [] && TxsFit(Values(vtx))
    modifies vtx`wit
    ensures var w := Written(vtx, old(Values(vtx)), 1); TxsFit(w) && hashes == Leaves(WitnessIds(h, w))
    ensures Values(vtx) == Settled(vtx, old(Values(vtx)), 1, |vtx|)
  {
    hide Values, WitnessIds, WtxId, TxFits, LE256, Aligned, Settled, Written, Leaves, Agree;
    ghost var v := Values(vtx);
    ghost var w := Written(vtx, v, 1);
    ValuesAgree(vtx);
    WrittenFits(vtx, v, 1);
    ghost var ids := WitnessIds(h, w);
    NothingSettled(vtx, v, 1);
    hashes := [LE256(0)];
    for k := 1 to |vtx|
      invariant Values(vtx) == Settled(vtx, v, 1, k)
      invariant |hashes| == k && forall j :: 0 <= j < k ==> hashes[j] == LE256(ids[j])
    {
      var id := WtxidAt(h, vtx, k, v, 1);
      hashes := hashes + [LE256(id)];
    }
    assert hashes == Leaves(ids);
  }

  function HeaderHash(h: Hash256, head: Header): nat
    requires HeaderFits(head)
  {
    FromLE(h(SerHeader(head)))
  }

  /** The hash of the header is not above the target in its `bits`. */
  predicate MeetsTarget(h: Hash256, head: Header) {
    HeaderFits(head) && NBits.UintFromCompact(head.bits).Some?
    && HeaderHash(h, head) <= NBits.UintFromCompact(head.bits).value
  }

  /** No nonce from `lo` up to `hi` makes the header meet its target. */
  ghost predicate NoneMeets(h: Hash256, head: Header, lo: nat, hi: nat) {
    forall k :: lo <= k < hi ==> !MeetsTarget(h, head.(nonce := k))
  }

  lemma NoneYet(h: Hash256, head: Header, n: nat)
    ensures NoneMeets(h, head, n, n)
  {}

  lemma OneMore(h: Hash256, head: Header, lo: nat, hi: nat)
    requires NoneMeets(h, head, lo, hi) && !MeetsTarget(h, head.(nonce := hi))
    ensures NoneMeets(h, head, lo, hi + 1)
  {
    hide MeetsTarget;
  }

  lemma NonceFits(head: Header)
    requires HeaderFits(head)
    ensures head.nonce < U32
  {}

  lemma NextFits(head: Header, n: nat)
    requires HeaderFits(head) && n < U32
    ensures HeaderFits(head.(nonce := n))
  {}

  class CBlock {
    var version: int
    var prev: nat
    var merkleRoot: nat
    var time: nat
    var bits: nat
    var nonce: nat
    var sha256: Option<nat>
    var vtx: seq<CTransaction>

    function Head(): Header
      reads this
    {
      Header(version, prev, merkleRoot, time, bits, nonce)
    }

    constructor ()
      ensures Head() == Header(4, 0, 0, 0, 0, 0) && sha256 == None && vtx == []
    {
      version, prev, merkleRoot, time, bits, nonce, sha256, vtx := 4, 0, 0, 0, 0, 0, None, [];
    }

    method DeserializeHeader(f: ByteStream)
      requires f.Valid()
      modifies this, f
      ensures f.Valid() && (Head(), f.Rest()) == DeserHeader(old(f.Rest()))
      ensures sha256 == None && vtx == old(vtx)
    {
      hide ReadInt, Read;
      var v := f.ReadBytes(4);
      version := FromLESigned(v);
      prev := f.ReadUint(32);
      merkleRoot := f.ReadUint(32);
      time := f.ReadUint(4);
      bits := f.ReadUint(4);
      nonce := f.ReadUint(4);
      sha256 := None;
    }

    method Deserialize(f: ByteStream)
      requires f.Valid()
      modifies this, f
      ensures f.Valid() && (Head(), Values(vtx), f.Rest()) == DeserBlock(old(f.Rest()))
      ensures fresh(vtx) && Distinct(vtx) && forall t :: t in vtx ==> t.sha256 == None
    {
      hide DeserHeader, DeserCompactSize, DeserTxs, Values;
      DeserializeHeader(f);
      vtx := TxVector(f);
    }

    method SerializeHeader() returns (r: bytes)
      requires HeaderFits(Head())
      ensures r == SerHeader(Head())
    {
      hide LES32, LE256, LE32;
      FlatHeader(LES32(version), LE256(prev), LE256(merkleRoot), LE32(time), LE32(bits), LE32(nonce));
      r := LES32(version) + LE256(prev) + LE256(merkleRoot) + LE32(time) + LE32(bits) + LE32(nonce);
    }

    /** Serializing writes the witness lists it pads back into the transactions; an object that is listed twice
        is written the second time as the first time has left it. */
    method Serialize() returns (r: bytes)
      requires BlockFits(Head(), Values(vtx))
      modifies vtx`wit
      ensures BlockFits(Head(), Written(vtx, old(Values(vtx)), 0))
      ensures r == SerBlock(Head(), Written(vtx, old(Values(vtx)), 0))
      ensures Values(vtx) == Settled(vtx, old(Values(vtx)), 0, |vtx|)
      ensures Distinct(vtx) ==> Written(vtx, old(Values(vtx)), 0) == old(Values(vtx))
      ensures Distinct(vtx) ==> Values(vtx) == AlignedRange(old(Values(vtx)), 0, |vtx|)
    {
      hide SerHeader, SerCompactSize, SerTx, SerTxs, Aligned, AlignedRange, TxFits, Values, Settled, Written, Distinct,
           Agree;
      ghost var v := Values(vtx);
      ghost var w := Written(vtx, v, 0);
      ValuesAgree(vtx);
      WrittenFits(vtx, v, 0);
      NothingSettled(vtx, v, 0);
      if Distinct(vtx) { WrittenOnce(vtx, v, 0); }
      var head := SerializeHeader();
      r := head + SerCompactSize(|vtx|);
      ConcatAssoc(head, SerCompactSize(|vtx|), SerTxs(w));
      SlicesFit(w);
      hide TxsFit, BlockFits;
      for k := 0 to |vtx|
        invariant Values(vtx) == Settled(vtx, v, 0, k)
        invariant TxsFit(w[k..]) && SerBlock(Head(), w) == r + SerTxs(w[k..])
      {
        NextPart(w, k, r);
        var s := SerializeAt(vtx, k, v, 0);
        r := r + s;
      }
      NoPart(w, r);
    }

    /** `calc_merkle_root`: made of the cached identifiers, which need not be those of the transactions as
        they now are. */
    method CalcMerkleRoot(h: Hash256) returns (root: nat)
      requires vtx != [] && CachesFit(vtx)
      modifies vtx`sha256, vtx`hash
      ensures root < U256 && root == RootOfIds(h, old(CachedIds(h, vtx)))
      ensures old(CachesFresh(h, vtx)) ==> TxsFit(Values(vtx)) && root == RootOfIds(h, Ids(h, Values(vtx)))
      ensures Values(vtx) == old(Values(vtx))
      ensures CachesFit(vtx) && CachedIds(h, vtx) == old(CachedIds(h, vtx)) && FirstCached(vtx, |vtx|)
    {
      hide Values, CachedIds, Leaves, CachedId, Root, CacheFits, CachesFit, CachesFresh, TxsFit,
           FirstCached;
      FreshIds(h, vtx);
      var hashes := CachedLeaves(h, vtx);
      root := GetMerkleRoot(h, hashes);
    }

    /** `calc_witness_merkle_root`: zero for the coinbase, then the hashes of the full serializations, as they
        are written one after the other. */
    method CalcWitnessMerkleRoot(h: Hash256) returns (root: nat)
      requires vtx != [] && TxsFit(Values(vtx))
      modifies vtx`wit
      ensures var w := Written(vtx, old(Values(vtx)), 1);
        TxsFit(w) && root < U256 && root == RootOfIds(h, WitnessIds(h, w))
      ensures Values(vtx) == Settled(vtx, old(Values(vtx)), 1, |vtx|)
      ensures Distinct(vtx) ==> Written(vtx, old(Values(vtx)), 1) == old(Values(vtx))
      ensures Distinct(vtx) ==> Values(vtx) == AlignedRange(old(Values(vtx)), 1, |vtx|)
    {
      hide Values, WitnessIds, Leaves, Root, TxFits, TxsFit, Aligned, AlignedRange, Settled, Written, Distinct;
      ghost var v := Values(vtx);
      var hashes := WitnessLeaves(h, vtx);
      if Distinct(vtx) { WrittenOnce(vtx, v, 1); }
      root := GetMerkleRoot(h, hashes);
    }

    /** `rehash` */
    method Rehash(h: Hash256)
      requires HeaderFits(Head())
      modifies this`sha256
      ensures sha256 == Some(HeaderHash(h, Head()))
    {
      var s := SerializeHeader();
      sha256 := Some(FromLE(h(s)));
    }

    /** `solve`: the first nonce from the present one on whose header hash meets the target; false for the
        ValueError of a bad target or the OverflowError after the last nonce. */
    method Solve(h: Hash256) returns (found: bool)
      requires HeaderFits(Head())
      modifies this`nonce, this`sha256
      ensures found ==> NBits.UintFromCompact(bits).Some? && HeaderFits(Head()) && MeetsTarget(h, Head())
      ensures found ==> old(nonce) <= nonce && sha256 == Some(HeaderHash(h, Head()))
      ensures NBits.UintFromCompact(bits).Some? ==>
                NoneMeets(h, old(Head()), old(nonce), if found then nonce else U32)
    {
      hide SerHeader, NBits.UintFromCompact, NoneMeets, HeaderFits, HeaderHash;
      NoneYet(h, Head(), nonce);
      Rehash(h);
      NonceFits(Head());
      var target := NBits.UintFromCompact(bits);
      if target.None? { return false; }
      while sha256.value > target.value
        invariant old(nonce) <= nonce < U32 && HeaderFits(Head()) && sha256 == Some(HeaderHash(h, Head()))
        invariant NoneMeets(h, old(Head()), old(nonce), nonce)
        decreases U32 - nonce
      {
        assert Head() == old(Head()).(nonce := nonce);
        OneMore(h, old(Head()), old(nonce), nonce);
        if nonce + 1 == U32 { return false; }
        nonce := nonce + 1;
        NextFits(old(Head()), nonce);
        Rehash(h);
      }
      found := true;
    }
  }

  lemma FlatHeader(a: bytes, b: bytes, c: bytes, d: bytes, e: bytes, f: bytes)
    ensures a + b + c + d + e + f == a + (b + (c + (d + (e + f))))
  {
    assert a + b + c + d + e + f == a + b + c + (d + (e + f));
  }
}
