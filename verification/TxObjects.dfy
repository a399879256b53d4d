/** The objects of messages.py: streams that are read, transactions and blocks whose fields are assigned, and the
    cached transaction hash. */
module TxObjects {
  import opened Bytes
  import opened Codec
  import opened Transactions
  import opened Merkle

  // ---- Streams (`io.BytesIO`)

  /** What a loop over a stream has read, put before what is still to come. */
  function After<T>(r: seq<T>, more: (seq<T>, bytes)): (seq<T>, bytes) {
    (r + more.0, more.1)
  }

  lemma AfterEmpty<T>(more: (seq<T>, bytes))
    ensures After([], more) == more
  {
    assert [] + more.0 == more.0;
  }

  lemma AfterNothing<T>(r: seq<T>, rest: bytes)
    ensures After(r, ([], rest)) == (r, rest)
  {
    assert r + [] == r;
  }

  lemma AfterSnoc<T>(r: seq<T>, x: T, more: (seq<T>, bytes))
    ensures After(r + [x], more) == After(r, ([x] + more.0, more.1))
  {
    assert r + [x] + more.0 == r + ([x] + more.0);
  }

  class ByteStream {
    const data: bytes
    var pos: nat

    ghost predicate Valid()
      reads this
    {
      pos <= |data|
    }

    ghost function Rest(): bytes
      reads this
      requires Valid()
    {
      data[pos..]
    }

    constructor (contents: bytes)
      ensures Valid() && data == contents && Rest() == contents
    {
      data, pos := contents, 0;
    }

    method ReadBytes(n: nat) returns (b: bytes)
      requires Valid()
      modifies this
      ensures Valid() && (b, Rest()) == Read(old(Rest()), n)
    {
      var end := if n <= |data| - pos then pos + n else |data|;
      b := data[pos..end];
      ghost var rest := data[pos..];
      assert rest[..end - pos] == b && rest[end - pos..] == data[end..];
      pos := end;
    }

    method ReadUint(n: nat) returns (r: nat)
      requires Valid()
      modifies this
      ensures Valid() && (r, Rest()) == ReadInt(old(Rest()), n)
    {
      var b := ReadBytes(n);
      r := FromLE(b);
    }

    /** `deser_compact_size` */
    method CompactSize() returns (nit: nat)
      requires Valid()
      modifies this
      ensures Valid() && (nit, Rest()) == DeserCompactSize(old(Rest()))
    {
      hide ReadInt;
      nit := ReadUint(1);
      if nit == 253 {
        nit := ReadUint(2);
      } else if nit == 254 {
        nit := ReadUint(4);
      } else if nit == 255 {
        nit := ReadUint(8);
      }
    }

    /** `deser_string` */
    method String() returns (s: bytes)
      requires Valid()
      modifies this
      ensures Valid() && (s, Rest()) == DeserString(old(Rest()))
    {
      hide DeserCompactSize, Read;
      var nit := CompactSize();
      s := ReadBytes(nit);
    }

    /** `deser_string_vector` */
    method StringVector() returns (r: seq<bytes>)
      requires Valid()
      modifies this
      ensures Valid() && (r, Rest()) == DeserStack(old(Rest()))
    {
      hide DeserCompactSize, DeserString;
      var nit := CompactSize();
      ghost var from := Rest();
      r := [];
      AfterEmpty(DeserStrings(from, nit));
      for k := 0 to nit
        invariant Valid()
        invariant DeserStrings(from, nit) == After(r, DeserStrings(Rest(), nit - k))
      {
        var t := String();
        AfterSnoc(r, t, DeserStrings(Rest(), nit - k - 1));
        r := r + [t];
      }
      AfterNothing(r, Rest());
    }

    /** `CTxIn.deserialize` */
    method DeserializeIn() returns (i: TxIn)
      requires Valid()
      modifies this
      ensures Valid() && (i, Rest()) == DeserIn(old(Rest()))
    {
      hide DeserString, ReadInt;
      var hash := ReadUint(32);
      var n := ReadUint(4);
      var script := String();
      var sequence := ReadUint(4);
      i := TxIn(OutPoint(hash, n), script, sequence);
    }

    /** `CTxOut.deserialize` */
    method DeserializeOut() returns (o: TxOut)
      requires Valid()
      modifies this
      ensures Valid() && (o, Rest()) == DeserOut(old(Rest()))
    {
      hide DeserString, Read;
      var value := ReadBytes(8);
      var script := String();
      o := TxOut(FromLESigned(value), script);
    }

    /** `deser_vector(f, CTxIn)` */
    method InVector() returns (r: seq<TxIn>)
      requires Valid()
      modifies this
      ensures Valid() && (r, Rest()) == DeserInVector(old(Rest()))
    {
      hide DeserCompactSize, DeserIn;
      var nit := CompactSize();
      ghost var from := Rest();
      r := [];
      AfterEmpty(DeserIns(from, nit));
      for k := 0 to nit
        invariant Valid()
        invariant DeserIns(from, nit) == After(r, DeserIns(Rest(), nit - k))
      {
        var t := DeserializeIn();
        AfterSnoc(r, t, DeserIns(Rest(), nit - k - 1));
        r := r + [t];
      }
      AfterNothing(r, Rest());
    }

    /** `deser_vector(f, CTxOut)` */
    method OutVector() returns (r: seq<TxOut>)
      requires Valid()
      modifies this
      ensures Valid() && (r, Rest()) == DeserOutVector(old(Rest()))
    {
      hide DeserCompactSize, DeserOut;
      var nit := CompactSize();
      ghost var from := Rest();
      r := [];
      AfterEmpty(DeserOuts(from, nit));
      for k := 0 to nit
        invariant Valid()
        invariant DeserOuts(from, nit) == After(r, DeserOuts(Rest(), nit - k))
      {
        var t := DeserializeOut();
        AfterSnoc(r, t, DeserOuts(Rest(), nit - k - 1));
        r := r + [t];
      }
      AfterNothing(r, Rest());
    }

    /** `CTxWitness.deserialize`, with `n` stacks to fill. */
    method Witness(n: nat) returns (r: seq<seq<bytes>>)
      requires Valid()
      modifies this
      ensures Valid() && (r, Rest()) == DeserWitness(old(Rest()), n)
    {
      hide DeserStack;
      ghost var from := Rest();
      r := [];
      AfterEmpty(DeserWitness(from, n));
      for k := 0 to n
        invariant Valid()
        invariant DeserWitness(from, n) == After(r, DeserWitness(Rest(), n - k))
      {
        var t := StringVector();
        AfterSnoc(r, t, DeserWitness(Rest(), n - k - 1));
        r := r + [t];
      }
      AfterNothing(r, Rest());
    }
  }

  // ---- Transactions

  function TxId(h: Hash256, t: Tx): (r: nat)
    requires TxFits(t)
    ensures r < U256
  {
    Pow256At32();
    FromLE(h(SerNoWitness(t)))
  }

  method SerializeIns(v: seq<TxIn>) returns (r: bytes)
    requires |v| < U64 && forall i :: i in v ==> InFits(i)
    ensures r == SerInVector(v)
  {
    hide SerCompactSize, SerIn, InFits;
    r := SerCompactSize(|v|);
    for k := 0 to |v|
      invariant r + SerIns(v[k..]) == SerInVector(v)
    {
      assert v[k] == v[k..][0] && v[k..][1..] == v[k + 1..];
      ConcatAssoc(r, SerIn(v[k]), SerIns(v[k + 1..]));
      r := r + SerIn(v[k]);
    }
    assert v[|v|..] == [] && r + [] == r;
  }

  method SerializeOuts(v: seq<TxOut>) returns (r: bytes)
    requires |v| < U64 && forall o :: o in v ==> OutFits(o)
    ensures r == SerOutVector(v)
  {
    hide SerCompactSize, SerOut, OutFits;
    r := SerCompactSize(|v|);
    for k := 0 to |v|
      invariant r + SerOuts(v[k..]) == SerOutVector(v)
    {
      assert v[k] == v[k..][0] && v[k..][1..] == v[k + 1..];
      ConcatAssoc(r, SerOut(v[k]), SerOuts(v[k + 1..]));
      r := r + SerOut(v[k]);
    }
    assert v[|v|..] == [] && r + [] == r;
  }

  method SerializeWitness(wit: seq<seq<bytes>>) returns (r: bytes)
    requires forall w :: w in wit ==> StackFits(w)
    ensures r == SerWitness(wit)
  {
    hide SerStack, StackFits;
    r := [];
    assert wit[0..] == wit;
    for k := 0 to |wit|
      invariant r + SerWitness(wit[k..]) == SerWitness(wit)
    {
      assert wit[k] == wit[k..][0] && wit[k..][1..] == wit[k + 1..];
      ConcatAssoc(r, SerStack(wit[k]), SerWitness(wit[k + 1..]));
      r := r + SerStack(wit[k]);
    }
    assert wit[|wit|..] == [] && r + [] == r;
  }

  class CTransaction {
    var version: nat
    var vin: seq<TxIn>
    var vout: seq<TxOut>
    var wit: seq<seq<bytes>>
    var lockTime: nat
    var sha256: Option<nat>
    var hash: Option<bytes>

    function Value(): Tx
      reads this
    {
      Tx(version, vin, vout, wit, lockTime)
    }

    constructor ()
      ensures Value() == Tx(2, [], [], [], 0) && sha256 == None && hash == None
    {
      version, vin, vout, wit, lockTime, sha256, hash := 2, [], [], [], 0, None, None;
    }

    /** The copying constructor takes over the cached hash as well. */
    constructor Copy(tx: CTransaction)
      ensures Value() == tx.Value() && sha256 == tx.sha256 && hash == tx.hash
    {
      version, vin, vout, wit, lockTime := tx.version, tx.vin, tx.vout, tx.wit, tx.lockTime;
      sha256, hash := tx.sha256, tx.hash;
    }

    method Deserialize(f: ByteStream)
      requires f.Valid()
      modifies this, f
      ensures f.Valid() && (Value(), f.Rest()) == DeserTxOver(old(vout), old(f.Rest()))
      ensures sha256 == None && hash == None
    {
      hide ReadInt, DeserInVector, DeserOutVector, DeserWitness;
      version := f.ReadUint(4);
      vin := f.InVector();
      var flags: nat := 0;
      if |vin| == 0 {
        flags := f.ReadUint(1);
        if flags != 0 {
          vin := f.InVector();
          vout := f.OutVector();
        }
      } else {
        vout := f.OutVector();
      }
      if flags != 0 {
        wit := f.Witness(|vin|);
      } else {
        wit := [];
      }
      lockTime := f.ReadUint(4);
      sha256, hash := None, None;
    }

    method SerializeWithoutWitness() returns (r: bytes)
      requires TxFits(Value())
      ensures r == SerNoWitness(Value())
    {
      hide LE32, SerInVector, SerOutVector;
      var i := SerializeIns(vin);
      var o := SerializeOuts(vout);
      FlatParts(LE32(version), i, o, LE32(lockTime));
      r := LE32(version) + i + o + LE32(lockTime);
    }

    method WitnessIsNull() returns (r: bool)
      ensures r == WitnessNull(wit)
    {
      for k := 0 to |wit|
        invariant forall j :: 0 <= j < k ==> wit[j] == []
      {
        if wit[k] != [] {
          assert wit[k] in wit;
          return false;
        }
      }
      r := true;
    }

    method SerializeWithWitness() returns (r: bytes)
      requires TxFits(Value())
      modifies this`wit
      ensures r == SerTx(old(Value()))
      ensures Value() == Aligned(old(Value()))
    {
      hide LE32, SerInVector, SerOutVector, SerWitness;
      var empty := WitnessIsNull();
      r := LE32(version);
      if !empty { r := r + [0] + [1]; }
      var i := SerializeIns(vin);
      var o := SerializeOuts(vout);
      r := r + i + o;
      if !empty {
        if |wit| != |vin| {
          var dropped := if |vin| < |wit| then wit[..|vin|] else wit;
          wit := dropped + seq(|vin| - |dropped|, _ => []);
        }
        assert wit == Padded(old(wit), |vin|);
        var s := SerializeWitness(wit);
        FlatWitnessParts(LE32(version), i, o, s, LE32(lockTime));
        r := r + s;
      } else {
        FlatParts(LE32(version), i, o, LE32(lockTime));
      }
      r := r + LE32(lockTime);
    }

    /** `calc_sha256()`: a cached `sha256` is kept whatever the fields now are; `hash` is always recomputed. */
    method CalcSha256(h: Hash256)
      requires TxFits(Value())
      modifies this`sha256, this`hash
      ensures sha256 == Some(if old(sha256).Some? then old(sha256).value else TxId(h, Value()))
      ensures hash == Some(Reversed(h(SerNoWitness(Value()))))
    {
      hide SerNoWitness;
      if sha256 == None {
        var s := SerializeWithoutWitness();
        Pow256At32();
        sha256 := Some(FromLE(h(s)));
      }
      var s := SerializeWithoutWitness();
      hash := Some(Reversed(h(s)));
    }

    /** `calc_sha256(True)` */
    method CalcWtxid(h: Hash256) returns (r: nat)
      requires TxFits(Value())
      modifies this`wit
      ensures r == WtxId(h, old(Value())) && Value() == Aligned(old(Value()))
    {
      hide SerTx;
      var s := SerializeWithWitness();
      r := FromLE(h(s));
    }

    method Rehash(h: Hash256)
      requires TxFits(Value())
      modifies this`sha256, this`hash
      ensures Value() == old(Value())
      ensures sha256 == Some(TxId(h, Value()))
      ensures hash == Some(Reversed(h(SerNoWitness(Value()))))
    {
      sha256 := None;
      CalcSha256(h);
    }
  }

  function WtxId(h: Hash256, t: Tx): (r: nat)
    requires TxFits(t)
    ensures r < U256
  {
    Pow256At32();
    FromLE(h(SerTx(t)))
  }

  function Reversed(s: bytes): (r: bytes)
    ensures |r| == |s| && forall i :: 0 <= i < |s| ==> r[i] == s[|s| - 1 - i]
  {
    seq<byte>(|s|, i requires 0 <= i < |s| => s[|s| - 1 - i])
  }

  lemma FlatParts(a: bytes, b: bytes, c: bytes, d: bytes)
    ensures a + b + c + d == a + (b + (c + d))
  {}

  lemma FlatWitnessParts(a: bytes, b: bytes, c: bytes, w: bytes, d: bytes)
    ensures a + [0] + [1] + b + c + w + d == a + ([0, 1] + (b + (c + (w + d))))
  {
    assert [0] + [1] == [0, 1];
    FlatParts(b, c, w, d);
    assert a + [0] + [1] + b + c + w + d == a + [0] + [1] + (b + c + w + d);
  }
}
