/** Where the fields of the serialized records (messages.py) stand in the bytes, and in which byte order. */
module Layouts {
  import opened Bytes
  import opened Codec
  import opened Transactions

  /** Little-endian is least significant byte first, big-endian last. */
  lemma ByteOrder(a: byte, s: bytes)
    ensures FromLE([a] + s) == a + 256 * FromLE(s)
    ensures FromBE([a] + s) == Pow(256, |s|) * a + FromBE(s)
    ensures FromLE([]) == 0 && FromBE([]) == 0
  {
    assert ([a] + s)[1..] == s;
    FromBEFirst(a, s);
  }

  /** Negative numbers are in two's complement. */
  lemma MinusOne(s: bytes)
    requires s != [] && forall i :: 0 <= i < |s| ==> s[i] == 0xff
    ensures FromLESigned(s) == -1
  {
    AllOnes(s);
    PowMono(256, 1, |s|);
  }

  lemma {:induction false} AllOnes(s: bytes)
    requires forall i :: 0 <= i < |s| ==> s[i] == 0xff
    ensures FromLE(s) == Pow(256, |s|) - 1
  {
    if s != [] { AllOnes(s[1..]); }
  }

  /** The first byte of a compact size is the number itself or tells how many bytes follow. */
  lemma CompactSizeLayout(l: nat)
    requires l < U64
    ensures var s := SerCompactSize(l);
      if s[0] < 253 then |s| == 1 && s[0] == l
      else |s| == 1 + Pow(2, s[0] - 252) && FromLE(s[1..]) == l
  {
    hide LE16, LE32, LE64;
    assert Pow(2, 1) == 2 && Pow(2, 2) == 4 && Pow(2, 3) == 8;
  }

  /** An input: 32 and 4 bytes of the output spent, the script after its length, 4 bytes of sequence. */
  lemma InLayout(i: TxIn)
    requires InFits(i)
    ensures var s := SerIn(i);
      && |s| >= 40 && FromLE(s[..32]) == i.prevout.hash && FromLE(s[32..36]) == i.prevout.n
      && s[36..|s| - 4] == SerCompactSize(|i.scriptSig|) + i.scriptSig && FromLE(s[|s| - 4..]) == i.sequence
  {
    hide LE256, LE32, SerCompactSize;
    var a, b, c, d := LE256(i.prevout.hash), LE32(i.prevout.n), SerString(i.scriptSig), LE32(i.sequence);
    FourSlices(a, b, c, d);
  }

  lemma FourSlices(a: bytes, b: bytes, c: bytes, d: bytes)
    ensures var s := (a + b) + (c + d);
      && s[..|a|] == a && s[|a|..|a| + |b|] == b
      && s[|a| + |b|..|s| - |d|] == c && s[|s| - |d|..] == d
  {}

  /** An output: 8 bytes of value, then the script after its length. */
  lemma OutLayout(o: TxOut)
    requires OutFits(o)
    ensures var s := SerOut(o);
      && |s| >= 8 && FromLESigned(s[..8]) == o.value
      && s[8..] == SerCompactSize(|o.scriptPubKey|) + o.scriptPubKey
  {
    hide LES64, SerCompactSize;
  }

  /** What a transaction identifier hashes: version, counted inputs, counted outputs, lock time. */
  lemma TxLayout(t: Tx)
    requires TxFits(t)
    ensures var s := SerNoWitness(t);
      && |s| >= 8 && FromLE(s[..4]) == t.version && FromLE(s[|s| - 4..]) == t.lockTime
      && s[4..|s| - 4] == SerCompactSize(|t.vin|) + SerIns(t.vin) + (SerCompactSize(|t.vout|) + SerOuts(t.vout))
  {
    hide LE32, SerCompactSize, SerIns, SerOuts, InFits, OutFits, StackFits;
    FourSlices(LE32(t.version), SerInVector(t.vin), SerOutVector(t.vout), LE32(t.lockTime));
    NestLeft(LE32(t.version), SerInVector(t.vin), SerOutVector(t.vout), LE32(t.lockTime));
  }

  lemma NestLeft(a: bytes, b: bytes, c: bytes, d: bytes)
    ensures a + (b + (c + d)) == (a + b) + (c + d)
    ensures var s := a + (b + (c + d)); |a| <= |s| - |d| && s[|a|..|s| - |d|] == b + c
  {}

  /** The full form of a transaction with witnesses (BIP 144) is the form without them, with a marker and a flag
      after the version and one stack per input before the lock time. */
  lemma WitnessLayout(t: Tx)
    requires TxFits(t) && !WitnessNull(t.wit)
    ensures var n, s := SerNoWitness(t), SerTx(t);
      && |n| >= 8
      && s == n[..4] + [0x00, 0x01] + n[4..|n| - 4] + SerWitness(Padded(t.wit, |t.vin|)) + n[|n| - 4..]
  {
    hide LE32, SerInVector, SerOutVector, SerWitness, Padded, InFits, OutFits, StackFits;
    var v, i, o, l := LE32(t.version), SerInVector(t.vin), SerOutVector(t.vout), LE32(t.lockTime);
    var w := SerWitness(Padded(t.wit, |t.vin|));
    NestLeft(v, i, o, l);
    SixFlat(v, [0, 1], i, o, w, l);
  }

  lemma SixFlat(a: bytes, b: bytes, c: bytes, d: bytes, e: bytes, f: bytes)
    ensures a + (b + (c + (d + (e + f)))) == a + b + (c + d) + e + f
  {
    NestLeft(c, d, e, f);
    assert a + (b + ((c + d) + (e + f))) == a + b + (c + d) + e + f;
  }

  /** The 80 bytes of a header. */
  lemma HeaderLayout(h: Header)
    requires HeaderFits(h)
    ensures var s := SerHeader(h);
      && FromLESigned(s[..4]) == h.version && FromLE(s[4..36]) == h.prev && FromLE(s[36..68]) == h.merkleRoot
      && FromLE(s[68..72]) == h.time && FromLE(s[72..76]) == h.bits && FromLE(s[76..]) == h.nonce
  {
    hide LES32, LE256, LE32;
    var a, b, c := LES32(h.version), LE256(h.prev), LE256(h.merkleRoot);
    var d, e, f := LE32(h.time), LE32(h.bits), LE32(h.nonce);
    assert SerHeader(h) == a + (b + (c + (d + (e + f))));
    SixFlat(a, b, c, d, e, f);
    var s := a + b + (c + d) + e + f;
    assert s[..4] == a && s[4..36] == b && s[36..68] == c && s[68..72] == d && s[72..76] == e && s[76..] == f;
  }

  /** A block: the header, the number of transactions, and their full forms one after the other. */
  lemma BlockLayout(h: Header, v: seq<Tx>, t: Tx)
    requires HeaderFits(h) && |v| + 1 < U64 && TxsFit(v) && TxFits(t)
    ensures TxsFit([]) && SerTxs([]) == [] && TxsFit(v + [t])
    ensures SerTxs(v + [t]) == SerTxs(v) + SerTx(t)
    ensures var s := SerBlock(h, v); s[..80] == SerHeader(h) && s[80..] == SerCompactSize(|v|) + SerTxs(v)
  {
    hide SerHeader, SerCompactSize, SerTx, TxFits, HeaderFits, SerTxs;
    TxsSnoc(v, t);
    assert SerTxs([]) == [] by { NoTxs(); }
  }

  lemma NoTxs()
    ensures TxsFit([]) && SerTxs([]) == []
  {}

  lemma {:induction false} TxsSnoc(v: seq<Tx>, t: Tx)
    requires TxsFit(v) && TxFits(t)
    ensures TxsFit(v + [t]) && SerTxs(v + [t]) == SerTxs(v) + SerTx(t)
  {
    hide SerTx, TxFits;
    if v == [] {
      assert v + [t] == [t] && [t][1..] == [];
      assert SerTxs([t]) == SerTx(t) + [];
    } else {
      assert v[0] in v;
      assert forall x :: x in v[1..] ==> x in v;
      TxsSnoc(v[1..], t);
      assert (v + [t])[1..] == v[1..] + [t];
      assert (v + [t])[0] == v[0];
    }
  }
}
