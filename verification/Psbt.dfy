/** Partially signed transactions (psbt.py): key-value maps and the container made of them. */
module Psbt {
  import opened Bytes
  import opened Codec
  import opened Transactions
  import opened TxObjects

  /** Keys of a map: Python integers below 256 (written as one byte) or byte strings. */
  datatype Key = IntKey(b: byte) | BytesKey(s: bytes)

  datatype Entry = Entry(key: Key, value: bytes)

  /** A dict in insertion order. */
  type Dict = seq<Entry>

  const UNSIGNED_TX := IntKey(0)
  const FINAL_SCRIPTSIG := IntKey(7)
  const FINAL_SCRIPTWITNESS := IntKey(8)
  const NON_WITNESS_UTXO := IntKey(0)

  /** `k in m` */
  predicate Has(m: Dict, k: Key) {
    exists i :: 0 <= i < |m| && m[i].key == k
  }

  /** `m.get(k, d)` */
  function Get(m: Dict, k: Key, d: bytes): (v: bytes)
    ensures Has(m, k) ==> exists i :: 0 <= i < |m| && m[i] == Entry(k, v)
    ensures !Has(m, k) ==> v == d
  {
    if m == [] then d
    else if m[0].key == k then m[0].value
    else
      assert forall i :: 0 < i < |m| ==> m[i] == m[1..][i - 1];
      assert Has(m, k) ==> Has(m[1..], k);
      Get(m[1..], k, d)
  }

  /** No key occurs twice, as in every dict. */
  ghost predicate Keyed(m: Dict) {
    forall i, j :: 0 <= i < j < |m| ==> m[i].key != m[j].key
  }

  function KeyBytes(k: Key): bytes {
    if k.IntKey? then [k.b] else k.s
  }

  /** How a key comes back: one-byte keys as integers. */
  function NormalKey(k: Key): Key {
    if |KeyBytes(k)| == 1 then IntKey(KeyBytes(k)[0]) else k
  }

  function NormalDict(m: Dict): (r: Dict)
    ensures |r| == |m|
    ensures forall i :: 0 <= i < |r| ==> r[i] == m[i].(key := NormalKey(m[i].key))
  {
    seq(|m|, i requires 0 <= i < |m| => m[i].(key := NormalKey(m[i].key)))
  }

  predicate EntryFits(e: Entry) {
    |KeyBytes(e.key)| < U64 && |e.value| < U64
  }

  ghost predicate DictFits(m: Dict) {
    forall e :: e in m ==> EntryFits(e)
  }

  function SerEntry(e: Entry): bytes
    requires EntryFits(e)
  {
    SerString(KeyBytes(e.key)) + SerString(e.value)
  }

  function SerEntries(m: Dict): bytes
    requires DictFits(m)
  {
    if m == [] then []
    else
      assert m[0] in m;
      SerEntry(m[0]) + SerEntries(m[1..])
  }

  /** `PSBTMap.serialize` */
  function SerDict(m: Dict): bytes
    requires DictFits(m)
  {
    SerEntries(m) + [0]
  }

  /** `PSBTMap.deserialize` with the entries `seen` already read; None is the assertion that a key is new.
      A stream that ends reads as the empty key. */
  function DeserEntries(s: bytes, seen: Dict): Option<(Dict, bytes)>
    decreases |s|
  {
    var (k, s1) := DeserString(s);
    if k == [] then Some((seen, s1))
    else
      var (v, s2) := DeserString(s1);
      var key := NormalKey(BytesKey(k));
      KeyConsumes(s);
      if Has(seen, key) then None else DeserEntries(s2, seen + [Entry(key, v)])
  }

  lemma KeyConsumes(s: bytes)
    ensures var (k, s1) := DeserString(s); |s1| <= |s| && |DeserString(s1).1| <= |s1| && (k != [] ==> |s1| < |s|)
  {}

  function DeserDict(s: bytes): Option<(Dict, bytes)> {
    DeserEntries(s, [])
  }

  // ---- The objects

  class PSBTMap {
    var map_: Dict

    constructor (m: Dict)
      ensures map_ == m
    {
      map_ := m;
    }

    /** Returns false where the source's assertion fails; `map_` is then as before. */
    method Deserialize(f: ByteStream) returns (ok: bool)
      requires f.Valid()
      modifies this, f
      ensures f.Valid() && ok == DeserDict(old(f.Rest())).Some?
      ensures ok ==> DeserDict(old(f.Rest())) == Some((map_, f.Rest()))
      ensures !ok ==> map_ == old(map_)
    {
      hide DeserString, Has;
      var m: Dict := [];
      while true
        invariant f.Valid() && map_ == old(map_)
        invariant DeserDict(old(f.Rest())) == DeserEntries(f.Rest(), m)
        decreases |f.Rest()|
      {
        KeyConsumes(f.Rest());
        var k := f.String();
        if |k| == 0 { break; }
        var v := f.String();
        var key := if |k| == 1 then IntKey(k[0]) else BytesKey(k);
        if Has(m, key) { return false; }
        m := m + [Entry(key, v)];
      }
      map_ := m;
      ok := true;
    }

    method Serialize() returns (r: bytes)
      requires DictFits(map_)
      ensures r == SerDict(map_)
    {
      hide SerEntry;
      r := [];
      assert map_[0..] == map_;
      for k := 0 to |map_|
        invariant r + SerEntries(map_[k..]) == SerEntries(map_)
      {
        var e := map_[k];
        assert e in map_ && map_[k..][0] == e && map_[k..][1..] == map_[k + 1..];
        ConcatAssoc(r, SerEntry(e), SerEntries(map_[k + 1..]));
        r := r + SerEntry(e);
      }
      assert map_[|map_|..] == [] && r + [] == r;
      r := r + [0];
    }
  }

  // ---- Maps: exactly when they come back

  /** Every key has a byte, and no two keys come back as the same one. */
  ghost predicate GoodKeys(m: Dict) {
    Keyed(NormalDict(m)) && forall i :: 0 <= i < |m| ==> KeyBytes(m[i].key) != []
  }

  /** Entry `k` of a dict, read after the entries before it. */
  lemma EntryRead(m: Dict, k: nat, rest: bytes)
    requires DictFits(m) && k < |m|
    ensures var s := SerEntries(m[k..]) + rest;
      && DeserString(s).0 == KeyBytes(m[k].key)
      && (KeyBytes(m[k].key) != [] ==>
            DeserEntries(s, NormalDict(m)[..k])
            == if Has(NormalDict(m)[..k], NormalDict(m)[k].key) then None
               else DeserEntries(SerEntries(m[k + 1..]) + rest, NormalDict(m)[..k + 1]))
      && (KeyBytes(m[k].key) == [] ==>
            DeserEntries(s, NormalDict(m)[..k]) == Some((NormalDict(m)[..k], DeserString(s).1)))
  {
    hide SerString, DeserString, Has;
    var e, tail := m[k], SerEntries(m[k + 1..]) + rest;
    assert e in m && m[k..][0] == e && m[k..][1..] == m[k + 1..];
    var a, b := SerString(KeyBytes(e.key)), SerString(e.value);
    EntryAssoc(a, b, SerEntries(m[k + 1..]), rest);
    StringRoundTrip(KeyBytes(e.key), b + tail);
    StringRoundTrip(e.value, tail);
    assert NormalKey(BytesKey(KeyBytes(e.key))) == NormalKey(e.key) || KeyBytes(e.key) == [];
    assert NormalDict(m)[..k] + [NormalDict(m)[k]] == NormalDict(m)[..k + 1];
  }

  lemma EntryAssoc(a: bytes, b: bytes, c: bytes, rest: bytes)
    ensures ((a + b) + c) + rest == a + (b + (c + rest))
  {}

  lemma {:induction false} EntriesRoundTrip(m: Dict, k: nat, rest: bytes)
    requires DictFits(m) && k <= |m| && GoodKeys(m)
    ensures DeserEntries(SerEntries(m[k..]) + ([0] + rest), NormalDict(m)[..k]) == Some((NormalDict(m), rest))
    decreases |m| - k
  {
    if k == |m| {
      assert m[k..] == [] && NormalDict(m)[..k] == NormalDict(m);
      assert [] + ([0] + rest) == [0] + rest;
      EmptyKey(rest);
    } else {
      hide DeserEntries, SerEntries, Has;
      EntryRead(m, k, [0] + rest);
      NotSeen(NormalDict(m), k);
      EntriesRoundTrip(m, k + 1, rest);
    }
  }

  lemma NotSeen(m: Dict, k: nat)
    requires k < |m| && Keyed(m)
    ensures !Has(m[..k], m[k].key)
  {
    var seen := m[..k];
    assert forall i :: 0 <= i < k ==> seen[i] == m[i];
  }

  lemma EmptyKey(rest: bytes)
    ensures DeserString([0] + rest) == ([], rest)
  {
    StringRoundTrip([], rest);
    assert SerString([]) == [0];
  }

  /** Otherwise reading stops early or fails. */
  lemma {:induction false} EntriesLost(m: Dict, k: nat, rest: bytes)
    requires DictFits(m) && k <= |m|
    requires forall i :: 0 <= i < k ==> KeyBytes(m[i].key) != []
    requires Keyed(NormalDict(m)[..k]) && !GoodKeys(m)
    ensures var r := DeserEntries(SerEntries(m[k..]) + ([0] + rest), NormalDict(m)[..k]);
      r.Some? ==> |r.value.0| < |m|
    decreases |m| - k
  {
    if k < |m| {
      EntryRead(m, k, [0] + rest);
      if KeyBytes(m[k].key) != [] && !Has(NormalDict(m)[..k], NormalDict(m)[k].key) {
        KeyedSnoc(NormalDict(m), k);
        EntriesLost(m, k + 1, rest);
      }
    }
  }

  lemma KeyedSnoc(m: Dict, k: nat)
    requires k < |m| && Keyed(m[..k]) && !Has(m[..k], m[k].key)
    ensures Keyed(m[..k + 1])
  {
    var a, b := m[..k], m[..k + 1];
    assert forall i :: 0 <= i < k ==> a[i] == b[i];
    assert b[k] == m[k];
  }

  /** A map comes back (one-byte keys as integers), with what follows it untouched, exactly when its keys
      are good. */
  lemma DictRoundTripIff(m: Dict, rest: bytes)
    requires DictFits(m)
    ensures DeserDict(SerDict(m) + rest) == Some((NormalDict(m), rest)) <==> GoodKeys(m)
  {
    ConcatAssoc(SerEntries(m), [0], rest);
    assert m[0..] == m && NormalDict(m)[..0] == [];
    if GoodKeys(m) {
      EntriesRoundTrip(m, 0, rest);
    } else {
      EntriesLost(m, 0, rest);
    }
  }

  /** A map with other keys is at best read back with entries missing. */
  lemma DictLost(m: Dict, rest: bytes)
    requires DictFits(m)
    ensures !GoodKeys(m) ==> var r := DeserDict(SerDict(m) + rest); r.Some? ==> |r.value.0| < |m|
  {
    if !GoodKeys(m) {
      ConcatAssoc(SerEntries(m), [0], rest);
      assert m[0..] == m && NormalDict(m)[..0] == [];
      EntriesLost(m, 0, rest);
    }
  }

  // ---- The container

  /** Global map, one map for each input and output, and the parsed unsigned transaction. */
  datatype Container = Container(g: Dict, i: seq<Dict>, o: seq<Dict>)

  const MAGIC: bytes := [0x70, 0x73, 0x62, 0x74, 0xff]

  /** `from_binary(CTransaction, b)`: nothing may be left over. */
  function TxFromBinary(b: bytes): Option<Tx> {
    var (t, rest) := DeserTx(b);
    if rest == [] then Some(t) else None
  }

  function UnsignedTx(g: Dict): Option<Tx> {
    if Has(g, UNSIGNED_TX) then TxFromBinary(Get(g, UNSIGNED_TX, [])) else None
  }

  ghost predicate ContainerFits(p: Container) {
    DictFits(p.g) && (forall m :: m in p.i ==> DictFits(m)) && forall m :: m in p.o ==> DictFits(m)
  }

  function SerDicts(v: seq<Dict>): bytes
    requires forall m :: m in v ==> DictFits(m)
  {
    if v == [] then [] else SerDict(v[0]) + SerDicts(v[1..])
  }

  /** `PSBT.serialize`; None if one of its assertions fails. */
  function SerContainer(p: Container): Option<bytes>
    requires ContainerFits(p)
  {
    var tx := UnsignedTx(p.g);
    if tx.None? || |tx.value.vin| != |p.i| || |tx.value.vout| != |p.o| then None
    else Some(MAGIC + (SerDict(p.g) + (SerDicts(p.i) + SerDicts(p.o))))
  }

  function DeserDicts(s: bytes, n: nat): Option<(seq<Dict>, bytes)>
    decreases n
  {
    if n == 0 then Some(([], s))
    else
      var m := DeserDict(s);
      if m.None? then None
      else
        var rest := DeserDicts(m.value.1, n - 1);
        if rest.None? then None else Some(([m.value.0] + rest.value.0, rest.value.1))
  }

  /** `PSBT.deserialize`: the container, its unsigned transaction and what is left of the stream. */
  function DeserContainer(s: bytes): Option<(Container, Tx, bytes)> {
    var (magic, s1) := Read(s, 5);
    if magic != MAGIC then None
    else
      var g := DeserDict(s1);
      if g.None? then None
      else
        var tx := UnsignedTx(g.value.0);
        if tx.None? then None
        else
          var i := DeserDicts(g.value.1, |tx.value.vin|);
          if i.None? then None
          else
            var o := DeserDicts(i.value.1, |tx.value.vout|);
            if o.None? then None
            else Some((Container(g.value.0, i.value.0, o.value.0), tx.value, o.value.1))
  }

  function NormalDicts(v: seq<Dict>): (r: seq<Dict>)
    ensures |r| == |v| && forall i :: 0 <= i < |r| ==> r[i] == NormalDict(v[i])
  {
    seq(|v|, i requires 0 <= i < |v| => NormalDict(v[i]))
  }

  function NormalContainer(p: Container): Container {
    Container(NormalDict(p.g), NormalDicts(p.i), NormalDicts(p.o))
  }

  ghost predicate AllGood(v: seq<Dict>) {
    forall m :: m in v ==> GoodKeys(m)
  }

  lemma {:induction false} DictsRoundTripIff(v: seq<Dict>, rest: bytes)
    requires forall m :: m in v ==> DictFits(m)
    ensures AllGood(v) ==> DeserDicts(SerDicts(v) + rest, |v|) == Some((NormalDicts(v), rest))
    ensures !AllGood(v) ==> var r := DeserDicts(SerDicts(v) + rest, |v|); r.Some? ==> r.value.0 != NormalDicts(v)
  {
    hide DictFits, GoodKeys, SerDict, DeserDict, NormalDict;
    if v == [] {
      assert SerDicts(v) + rest == rest;
    } else {
      assert v[0] in v && forall m :: m in v[1..] ==> m in v;
      assert AllGood(v) <==> GoodKeys(v[0]) && AllGood(v[1..]) by {
        assert forall m :: m in v ==> m == v[0] || m in v[1..];
      }
      ConcatAssoc(SerDict(v[0]), SerDicts(v[1..]), rest);
      DictRoundTripIff(v[0], SerDicts(v[1..]) + rest);
      DictLost(v[0], SerDicts(v[1..]) + rest);
      DictsRoundTripIff(v[1..], rest);
      assert [NormalDict(v[0])] + NormalDicts(v[1..]) == NormalDicts(v);
    }
  }

  /** What a map says under a key that stays as it is, it also says after the round trip. */
  lemma NormalGet(m: Dict, k: Key, d: bytes)
    requires GoodKeys(m) && NormalKey(k) == k && Has(m, k)
    ensures Has(NormalDict(m), k) && Get(NormalDict(m), k, d) == Get(m, k, d)
  {
    var n := NormalDict(m);
    var i :| 0 <= i < |m| && m[i] == Entry(k, Get(m, k, d));
    assert n[i] == Entry(k, Get(m, k, d));
    var j :| 0 <= j < |n| && n[j] == Entry(k, Get(n, k, d));
    assert i == j;
  }

  /** Values that were read can be written. */
  lemma {:induction false} EntriesFit(s: bytes, seen: Dict)
    requires DictFits(seen)
    ensures DeserEntries(s, seen).Some? ==> DictFits(DeserEntries(s, seen).value.0)
    decreases |s|
  {
    hide DeserString;
    var (k, s1) := DeserString(s);
    var (v, s2) := DeserString(s1);
    KeyConsumes(s);
    StringConsumes(s);
    StringConsumes(s1);
    if k != [] { EntriesFit(s2, seen + [Entry(NormalKey(BytesKey(k)), v)]); }
  }

  /** What `serialize` writes is read back (one-byte keys as integers, with the same unsigned transaction
      and with what follows untouched) exactly when all its maps have good keys. */
  lemma ContainerRoundTripIff(p: Container, rest: bytes)
    requires ContainerFits(p) && SerContainer(p).Some?
    ensures DeserContainer(SerContainer(p).value + rest) == Some((NormalContainer(p), UnsignedTx(p.g).value, rest))
            <==> GoodKeys(p.g) && AllGood(p.i) && AllGood(p.o)
  {
    hide DictFits, GoodKeys, AllGood, SerDict, DeserDict, NormalDict, TxFromBinary, Get, Has;
    var g, i, o := SerDict(p.g), SerDicts(p.i), SerDicts(p.o);
    ContainerParts(g, i, o, rest);
    ReadPrefix(MAGIC, g + (i + (o + rest)));
    DictRoundTripIff(p.g, i + (o + rest));
    DictLost(p.g, i + (o + rest));
    if GoodKeys(p.g) {
      UnsignedTxKept(p.g);
      DictsRoundTripIff(p.i, o + rest);
      DictsRoundTripIff(p.o, rest);
    }
  }

  lemma UnsignedTxKept(g: Dict)
    requires GoodKeys(g) && UnsignedTx(g).Some?
    ensures UnsignedTx(NormalDict(g)) == UnsignedTx(g)
  {
    NormalGet(g, UNSIGNED_TX, []);
  }

  lemma ContainerParts(g: bytes, i: bytes, o: bytes, rest: bytes)
    ensures (MAGIC + (g + (i + o))) + rest == MAGIC + (g + (i + (o + rest)))
  {
    ConcatAssoc(i, o, rest);
    ConcatAssoc(g, i + o, rest);
    ConcatAssoc(MAGIC, g + (i + o), rest);
  }
}
