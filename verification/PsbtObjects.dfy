/** The PSBT object (psbt.py): its fields are maps and the parsed unsigned transaction. */
module PsbtObjects {
  import opened Bytes
  import opened Codec
  import opened Transactions
  import opened TxObjects
  import opened Psbt

  function Dicts(v: seq<PSBTMap>): (r: seq<Dict>)
    reads v
    ensures |r| == |v| && forall k :: 0 <= k < |r| ==> r[k] == v[k].map_
  {
    seq(|v|, k requires 0 <= k < |v| reads v => v[k].map_)
  }

  /** `[from_binary(PSBTMap, f) for ...]` */
  method ReadMaps(f: ByteStream, n: nat) returns (ok: bool, r: seq<PSBTMap>)
    requires f.Valid()
    modifies f
    ensures f.Valid() && ok == DeserDicts(old(f.Rest()), n).Some? && fresh(r)
    ensures ok ==> DeserDicts(old(f.Rest()), n) == Some((Dicts(r), f.Rest()))
  {
    hide DeserDict, Dicts;
    ghost var from := f.Rest();
    r := [];
    ghost var dicts: seq<Dict> := [];
    BeforeLaws(dicts, DeserDicts(from, n), from);
    for k := 0 to n
      invariant f.Valid() && fresh(r) && |dicts| == |r| && forall j :: 0 <= j < |r| ==> r[j].map_ == dicts[j]
      invariant |r| == k && DeserDicts(from, n) == Before(dicts, DeserDicts(f.Rest(), n - k))
    {
      var m := new PSBTMap([]);
      ok := m.Deserialize(f);
      if !ok { return; }
      BeforeSnoc(dicts, m.map_, DeserDicts(f.Rest(), n - k - 1));
      r, dicts := r + [m], dicts + [m.map_];
    }
    assert Dicts(r) == dicts;
    BeforeLaws(dicts, DeserDicts(from, n), f.Rest());
    ok := true;
  }

  /** `After` for a reader that may fail. */
  function Before(r: seq<Dict>, more: Option<(seq<Dict>, bytes)>): Option<(seq<Dict>, bytes)> {
    if more.None? then None else Some(After(r, more.value))
  }

  lemma BeforeLaws(r: seq<Dict>, more: Option<(seq<Dict>, bytes)>, rest: bytes)
    ensures Before([], more) == more
    ensures Before(r, Some(([], rest))) == Some((r, rest))
  {
    if more.Some? { AfterEmpty(more.value); }
    AfterNothing(r, rest);
  }

  lemma BeforeSnoc(r: seq<Dict>, x: Dict, more: Option<(seq<Dict>, bytes)>)
    ensures Before(r + [x], more)
            == if more.None? then None else Before(r, Some(([x] + more.value.0, more.value.1)))
  {
    if more.Some? { AfterSnoc(r, x, more.value); }
  }

  /** `from_binary(CTransaction, b)`; null where the assertion that nothing is left over fails. */
  method ParseTx(b: bytes) returns (t: CTransaction?)
    ensures (t != null) == TxFromBinary(b).Some?
    ensures t != null ==> fresh(t) && t.Value() == TxFromBinary(b).value && t.sha256 == None
  {
    hide DeserTxOver;
    var f := new ByteStream(b);
    t := new CTransaction();
    t.Deserialize(f);
    if f.pos != |f.data| { return null; }
    assert f.Rest() == [];
  }

  method SerializeMaps(v: seq<PSBTMap>) returns (r: bytes)
    requires forall m :: m in Dicts(v) ==> DictFits(m)
    ensures r == SerDicts(Dicts(v))
  {
    hide SerDict, DictFits, Dicts;
    ghost var dicts := Dicts(v);
    r := [];
    assert dicts[0..] == dicts;
    for k := 0 to |v|
      invariant r + SerDicts(dicts[k..]) == SerDicts(dicts)
    {
      assert dicts[k] in dicts && dicts[k..][0] == dicts[k] && dicts[k..][1..] == dicts[k + 1..];
      var s := v[k].Serialize();
      ConcatAssoc(r, s, SerDicts(dicts[k + 1..]));
      r := r + s;
    }
    assert dicts[|v|..] == [] && r + [] == r;
  }

  class PSBT {
    var g: PSBTMap
    var i: seq<PSBTMap>
    var o: seq<PSBTMap>
    var tx: CTransaction?

    ghost function Value(): Container
      reads this, g, i, o
    {
      Container(g.map_, Dicts(i), Dicts(o))
    }

    constructor (g: PSBTMap, i: seq<PSBTMap>, o: seq<PSBTMap>)
      ensures this.g == g && this.i == i && this.o == o && tx == null
    {
      this.g, this.i, this.o, this.tx := g, i, o, null;
    }

    /** Returns false where an assertion of the source fails. */
    method Deserialize(f: ByteStream) returns (ok: bool)
      requires f.Valid()
      modifies this, f
      ensures f.Valid() && ok == DeserContainer(old(f.Rest())).Some?
      ensures ok ==> tx != null && DeserContainer(old(f.Rest())) == Some((Value(), tx.Value(), f.Rest()))
      ensures ok ==> fresh(g) && fresh(i) && fresh(o)
    {
      hide Read, DeserDict, DeserDicts, TxFromBinary, Has, Get, Dicts;
      var magic := f.ReadBytes(5);
      if magic != MAGIC { return false; }
      g := new PSBTMap([]);
      ok := g.Deserialize(f);
      if !ok || !Has(g.map_, UNSIGNED_TX) { return false; }
      tx := ParseTx(Get(g.map_, UNSIGNED_TX, []));
      if tx == null { return false; }
      ok, i := ReadMaps(f, |tx.vin|);
      if !ok { return; }
      ok, o := ReadMaps(f, |tx.vout|);
    }

    /** None where an assertion of the source fails. */
    method Serialize() returns (r: Option<bytes>)
      requires ContainerFits(Value())
      ensures r == SerContainer(Value())
    {
      hide SerDict, DictFits, SerDicts, TxFromBinary, Has, Get, Dicts;
      if !Has(g.map_, UNSIGNED_TX) { return None; }
      var t := ParseTx(Get(g.map_, UNSIGNED_TX, []));
      if t == null || |t.vin| != |i| || |t.vout| != |o| { return None; }
      var gs := g.Serialize();
      var inputs := SerializeMaps(i);
      var outputs := SerializeMaps(o);
      r := Some(MAGIC + (gs + (inputs + outputs)));
    }
  }
}
