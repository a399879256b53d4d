/** Transactions and blocks (messages.py): what the serializers write and the deserializers read. */
module Transactions {
  import opened Bytes
  import opened Codec

  datatype OutPoint = OutPoint(hash: nat, n: nat)
  datatype TxIn = TxIn(prevout: OutPoint, scriptSig: bytes, sequence: nat)
  datatype TxOut = TxOut(value: int, scriptPubKey: bytes)

  /** A transaction; `wit` holds one witness stack per input, or none at all. */
  datatype Tx = Tx(version: nat, vin: seq<TxIn>, vout: seq<TxOut>, wit: seq<seq<bytes>>, lockTime: nat)

  // ---- Inputs and outputs

  predicate InFits(i: TxIn) {
    i.prevout.hash < U256 && i.prevout.n < U32 && |i.scriptSig| < U64 && i.sequence < U32
  }

  predicate OutFits(o: TxOut) {
    -I64_LIMIT <= o.value < I64_LIMIT && |o.scriptPubKey| < U64
  }

  predicate StackFits(stack: seq<bytes>) {
    |stack| < U64 && forall s :: s in stack ==> |s| < U64
  }

  function SerIn(i: TxIn): bytes
    requires InFits(i)
  {
    (LE256(i.prevout.hash) + LE32(i.prevout.n)) + (SerString(i.scriptSig) + LE32(i.sequence))
  }

  function DeserIn(s: bytes): (TxIn, bytes) {
    var (hash, s1) := ReadInt(s, 32);
    var (n, s2) := ReadInt(s1, 4);
    var (script, s3) := DeserString(s2);
    var (sequence, s4) := ReadInt(s3, 4);
    (TxIn(OutPoint(hash, n), script, sequence), s4)
  }

  lemma InRoundTrip(i: TxIn, rest: bytes)
    requires InFits(i)
    ensures DeserIn(SerIn(i) + rest) == (i, rest)
  {
    hide LE256, LE32, SerString, DeserString;
    var a, b, c, d := LE256(i.prevout.hash), LE32(i.prevout.n), SerString(i.scriptSig), LE32(i.sequence);
    FourParts(a, b, c, d, rest);
    ReadIntOf(a, b + (c + (d + rest)));
    ReadIntOf(b, c + (d + rest));
    StringRoundTrip(i.scriptSig, d + rest);
    ReadIntOf(d, rest);
  }

  lemma FourParts(a: bytes, b: bytes, c: bytes, d: bytes, rest: bytes)
    ensures ((a + b) + (c + d)) + rest == a + (b + (c + (d + rest)))
  {}

  function SerOut(o: TxOut): bytes
    requires OutFits(o)
  {
    LES64(o.value) + SerString(o.scriptPubKey)
  }

  function DeserOut(s: bytes): (TxOut, bytes) {
    var (value, s1) := Read(s, 8);
    var (script, s2) := DeserString(s1);
    (TxOut(FromLESigned(value), script), s2)
  }

  lemma OutRoundTrip(o: TxOut, rest: bytes)
    requires OutFits(o)
    ensures DeserOut(SerOut(o) + rest) == (o, rest)
  {
    hide LES64, SerString, DeserString;
    var a, b := LES64(o.value), SerString(o.scriptPubKey);
    ConcatAssoc(a, b, rest);
    ReadPrefix(a, b + rest);
    StringRoundTrip(o.scriptPubKey, rest);
  }

  // ---- Vectors

  function SerIns(v: seq<TxIn>): bytes
    requires forall i :: i in v ==> InFits(i)
  {
    if v == [] then [] else SerIn(v[0]) + SerIns(v[1..])
  }

  function DeserIns(s: bytes, n: nat): (seq<TxIn>, bytes)
    decreases n
  {
    if n == 0 then ([], s)
    else
      var (x, rest) := DeserIn(s);
      var (xs, rest') := DeserIns(rest, n - 1);
      ([x] + xs, rest')
  }

  lemma {:induction false} InsRoundTrip(v: seq<TxIn>, rest: bytes)
    requires forall i :: i in v ==> InFits(i)
    ensures DeserIns(SerIns(v) + rest, |v|) == (v, rest)
  {
    hide SerIn, DeserIn;
    if v == [] {
      assert SerIns(v) + rest == rest;
    } else {
      assert forall i :: i in v[1..] ==> i in v;
      ConcatAssoc(SerIn(v[0]), SerIns(v[1..]), rest);
      InRoundTrip(v[0], SerIns(v[1..]) + rest);
      InsRoundTrip(v[1..], rest);
      assert [v[0]] + v[1..] == v;
    }
  }

  function SerOuts(v: seq<TxOut>): bytes
    requires forall o :: o in v ==> OutFits(o)
  {
    if v == [] then [] else SerOut(v[0]) + SerOuts(v[1..])
  }

  function DeserOuts(s: bytes, n: nat): (seq<TxOut>, bytes)
    decreases n
  {
    if n == 0 then ([], s)
    else
      var (x, rest) := DeserOut(s);
      var (xs, rest') := DeserOuts(rest, n - 1);
      ([x] + xs, rest')
  }

  lemma {:induction false} OutsRoundTrip(v: seq<TxOut>, rest: bytes)
    requires forall o :: o in v ==> OutFits(o)
    ensures DeserOuts(SerOuts(v) + rest, |v|) == (v, rest)
  {
    hide SerOut, DeserOut;
    if v == [] {
      assert SerOuts(v) + rest == rest;
    } else {
      assert forall o :: o in v[1..] ==> o in v;
      ConcatAssoc(SerOut(v[0]), SerOuts(v[1..]), rest);
      OutRoundTrip(v[0], SerOuts(v[1..]) + rest);
      OutsRoundTrip(v[1..], rest);
      assert [v[0]] + v[1..] == v;
    }
  }

  function SerInVector(v: seq<TxIn>): bytes
    requires |v| < U64 && forall i :: i in v ==> InFits(i)
  {
    SerCompactSize(|v|) + SerIns(v)
  }

  function DeserInVector(s: bytes): (seq<TxIn>, bytes) {
    var (n, rest) := DeserCompactSize(s);
    DeserIns(rest, n)
  }

  lemma InVectorRoundTrip(v: seq<TxIn>, rest: bytes)
    requires |v| < U64 && forall i :: i in v ==> InFits(i)
    ensures DeserInVector(SerInVector(v) + rest) == (v, rest)
  {
    ConcatAssoc(SerCompactSize(|v|), SerIns(v), rest);
    CompactSizeRoundTrip(|v|, SerIns(v) + rest);
    InsRoundTrip(v, rest);
  }

  function SerOutVector(v: seq<TxOut>): bytes
    requires |v| < U64 && forall o :: o in v ==> OutFits(o)
  {
    SerCompactSize(|v|) + SerOuts(v)
  }

  function DeserOutVector(s: bytes): (seq<TxOut>, bytes) {
    var (n, rest) := DeserCompactSize(s);
    DeserOuts(rest, n)
  }

  lemma OutVectorRoundTrip(v: seq<TxOut>, rest: bytes)
    requires |v| < U64 && forall o :: o in v ==> OutFits(o)
    ensures DeserOutVector(SerOutVector(v) + rest) == (v, rest)
  {
    ConcatAssoc(SerCompactSize(|v|), SerOuts(v), rest);
    CompactSizeRoundTrip(|v|, SerOuts(v) + rest);
    OutsRoundTrip(v, rest);
  }

  // ---- Witnesses: one stack per input, with no count of their own

  function SerStack(stack: seq<bytes>): bytes
    requires StackFits(stack)
  {
    SerCompactSize(|stack|) + SerStrings(stack)
  }

  function DeserStack(s: bytes): (seq<bytes>, bytes) {
    var (n, rest) := DeserCompactSize(s);
    DeserStrings(rest, n)
  }

  lemma StackRoundTrip(stack: seq<bytes>, rest: bytes)
    requires StackFits(stack)
    ensures DeserStack(SerStack(stack) + rest) == (stack, rest)
  {
    ConcatAssoc(SerCompactSize(|stack|), SerStrings(stack), rest);
    CompactSizeRoundTrip(|stack|, SerStrings(stack) + rest);
    StringsRoundTrip(stack, rest);
  }

  function SerWitness(wit: seq<seq<bytes>>): bytes
    requires forall w :: w in wit ==> StackFits(w)
  {
    if wit == [] then [] else SerStack(wit[0]) + SerWitness(wit[1..])
  }

  function DeserWitness(s: bytes, n: nat): (seq<seq<bytes>>, bytes)
    decreases n
  {
    if n == 0 then ([], s)
    else
      var (x, rest) := DeserStack(s);
      var (xs, rest') := DeserWitness(rest, n - 1);
      ([x] + xs, rest')
  }

  lemma {:induction false} WitnessRoundTrip(wit: seq<seq<bytes>>, rest: bytes)
    requires forall w :: w in wit ==> StackFits(w)
    ensures DeserWitness(SerWitness(wit) + rest, |wit|) == (wit, rest)
  {
    hide SerStack, DeserStack, StackFits;
    if wit == [] {
      assert SerWitness(wit) + rest == rest;
    } else {
      assert forall w :: w in wit[1..] ==> w in wit;
      ConcatAssoc(SerStack(wit[0]), SerWitness(wit[1..]), rest);
      StackRoundTrip(wit[0], SerWitness(wit[1..]) + rest);
      WitnessRoundTrip(wit[1..], rest);
      assert [wit[0]] + wit[1..] == wit;
    }
  }

  /** `CTxWitness.is_null` */
  predicate WitnessNull(wit: seq<seq<bytes>>) {
    forall w :: w in wit ==> w == []
  }

  /** The witness brought to the length of the inputs. */
  function Padded(wit: seq<seq<bytes>>, n: nat): (r: seq<seq<bytes>>)
    ensures |r| == n
    ensures (forall w :: w in wit ==> StackFits(w)) ==> forall w :: w in r ==> StackFits(w)
  {
    if n <= |wit| then wit[..n] else wit + seq(n - |wit|, _ => [])
  }

  // ---- Transactions

  ghost predicate TxFits(t: Tx) {
    && t.version < U32 && t.lockTime < U32
    && |t.vin| < U64 && |t.vout| < U64
    && (forall i :: i in t.vin ==> InFits(i))
    && (forall o :: o in t.vout ==> OutFits(o))
    && forall w :: w in t.wit ==> StackFits(w)
  }

  /** `serialize_without_witness` */
  function SerNoWitness(t: Tx): bytes
    requires TxFits(t)
  {
    LE32(t.version) + (SerInVector(t.vin) + (SerOutVector(t.vout) + LE32(t.lockTime)))
  }

  /** `serialize_with_witness` */
  function SerTx(t: Tx): bytes
    requires TxFits(t)
  {
    if WitnessNull(t.wit) then SerNoWitness(t)
    else
      LE32(t.version) + ([0, 1] + (SerInVector(t.vin) + (SerOutVector(t.vout)
      + (SerWitness(Padded(t.wit, |t.vin|)) + LE32(t.lockTime)))))
  }

  /** `CTransaction.deserialize` on an object whose outputs are `stale`: the branch for no inputs and a zero
      flag does not assign `vout`. */
  function DeserTxOver(stale: seq<TxOut>, s: bytes): (Tx, bytes) {
    var (version, s1) := ReadInt(s, 4);
    var (vin, s2) := DeserInVector(s1);
    if vin != [] then
      var (vout, s3) := DeserOutVector(s2);
      var (lockTime, s4) := ReadInt(s3, 4);
      (Tx(version, vin, vout, [], lockTime), s4)
    else
      var (flags, s3) := ReadInt(s2, 1);
      if flags == 0 then
        var (lockTime, s4) := ReadInt(s3, 4);
        (Tx(version, [], stale, [], lockTime), s4)
      else
        var (vin', s4) := DeserInVector(s3);
        var (vout, s5) := DeserOutVector(s4);
        var (wit, s6) := DeserWitness(s5, |vin'|);
        var (lockTime, s7) := ReadInt(s6, 4);
        (Tx(version, vin', vout, wit, lockTime), s7)
  }

  /** `from_binary(CTransaction, ...)`: into a new object. */
  function DeserTx(s: bytes): (Tx, bytes) {
    DeserTxOver([], s)
  }

  /** The outputs an object had before make no difference exactly when it had none, when the transaction has
      inputs, or when its witness flag is set: all that can be seen in the first bytes. */
  lemma StaleOutputsIff(stale: seq<TxOut>, s: bytes)
    ensures var (count, s2) := DeserCompactSize(ReadInt(s, 4).1);
      DeserTxOver(stale, s) == DeserTx(s) <==> stale == [] || count != 0 || ReadInt(s2, 1).0 != 0
  {
    hide DeserCompactSize, DeserIns, DeserOutVector, DeserWitness, ReadInt;
    var (count, s2) := DeserCompactSize(ReadInt(s, 4).1);
    InsCount(s2, count);
    if count == 0 { NoIns(s2); }
  }

  lemma NoIns(s: bytes)
    ensures DeserIns(s, 0) == ([], s)
  {}

  /** Version 2 without inputs, flag or lock time: the outputs of the object stay. */
  lemma StaleOutputsExample(o: TxOut)
    ensures DeserTxOver([o], [2, 0, 0, 0, 0, 0, 0, 0, 0, 0]) == (Tx(2, [], [o], [], 0), [])
    ensures DeserTx([2, 0, 0, 0, 0, 0, 0, 0, 0, 0]) == (Tx(2, [], [], [], 0), [])
  {
    hide DeserInVector, DeserOutVector, DeserWitness, ReadInt;
    assert [2, 0, 0, 0, 0, 0, 0, 0, 0, 0] == [2, 0, 0, 0] + ([0] + ([0] + ([0, 0, 0, 0] + [])));
    ReadIntOf([2, 0, 0, 0], [0] + ([0] + ([0, 0, 0, 0] + [])));
    EmptyVector();
    InVectorRoundTrip([], [0] + ([0, 0, 0, 0] + []));
    ReadIntOf([0], [0, 0, 0, 0] + []);
    ReadIntOf([0, 0, 0, 0], []);
    FourByteValues();
  }

  lemma FourByteValues()
    ensures FromLE([2, 0, 0, 0]) == 2 && FromLE([0, 0, 0, 0]) == 0 && FromLE([0]) == 0
  {
    assert [2, 0, 0, 0][1..] == [0, 0, 0] && [0, 0, 0, 0][1..] == [0, 0, 0];
    assert [0, 0, 0][1..] == [0, 0] && [0, 0][1..] == [0] && [0][1..] == [];
  }

  /** The transaction that comes back: no witness at all, or one stack per input. */
  function Normal(t: Tx): Tx {
    t.(wit := if WitnessNull(t.wit) then [] else Padded(t.wit, |t.vin|))
  }

  /** Written without inputs and witness, the count of the outputs is read as the witness flag. */
  predicate Ambiguous(t: Tx) {
    t.vin == [] && t.vout != [] && WitnessNull(t.wit)
  }

  lemma EmptyVector()
    ensures SerInVector([]) == [0] && SerOutVector([]) == [0]
  {}

  /** Reading inverts writing, whatever follows in the stream, for every transaction that is not ambiguous. */
  lemma TxRoundTrip(t: Tx, rest: bytes)
    requires TxFits(t) && !Ambiguous(t)
    ensures DeserTx(SerTx(t) + rest) == (Normal(t), rest)
  {
    hide LE32, SerInVector, SerOutVector, SerWitness, DeserInVector, DeserOutVector, DeserWitness, Padded, InFits,
         OutFits, StackFits;
    var v, i, o, l := LE32(t.version), SerInVector(t.vin), SerOutVector(t.vout), LE32(t.lockTime);
    EmptyVector();
    if WitnessNull(t.wit) {
      FourNested(v, i, o, l, rest);
      ReadIntOf(v, i + (o + (l + rest)));
      InVectorRoundTrip(t.vin, o + (l + rest));
      if t.vin != [] {
        OutVectorRoundTrip(t.vout, l + rest);
      } else {
        ReadIntOf([0], l + rest);
      }
      ReadIntOf(l, rest);
    } else {
      var w := SerWitness(Padded(t.wit, |t.vin|));
      SixNested(v, i, o, w, l, rest);
      ReadIntOf(v, [0] + ([1] + (i + (o + (w + (l + rest))))));
      InVectorRoundTrip([], [1] + (i + (o + (w + (l + rest)))));
      ReadIntOf([1], i + (o + (w + (l + rest))));
      InVectorRoundTrip(t.vin, o + (w + (l + rest)));
      OutVectorRoundTrip(t.vout, w + (l + rest));
      WitnessRoundTrip(Padded(t.wit, |t.vin|), l + rest);
      ReadIntOf(l, rest);
      OneByte(1);
    }
    OneByte(0);
  }

  lemma FourNested(a: bytes, b: bytes, c: bytes, d: bytes, rest: bytes)
    ensures (a + (b + (c + d))) + rest == a + (b + (c + (d + rest)))
  {}

  lemma SixNested(v: bytes, i: bytes, o: bytes, w: bytes, l: bytes, rest: bytes)
    ensures (v + ([0, 1] + (i + (o + (w + l))))) + rest == v + ([0] + ([1] + (i + (o + (w + (l + rest))))))
  {
    var x, y := i + (o + (w + l)), i + (o + (w + (l + rest)));
    FourNested(i, o, w, l, rest);
    assert x + rest == y;
    assert [0, 1] + x + rest == [0] + ([1] + y);
    ConcatAssoc(v, [0, 1] + x, rest);
  }

  /** What `serialize_with_witness` leaves behind: it brings the witness list to the length of the inputs. */
  function Aligned(t: Tx): Tx {
    if WitnessNull(t.wit) then t else t.(wit := Padded(t.wit, |t.vin|))
  }

  /** Serializing again gives the same bytes exactly when cutting the witness list to the length of the
      inputs does not cut away its only data. */
  lemma SerializedTwice(t: Tx)
    requires TxFits(t)
    ensures TxFits(Aligned(t))
    ensures SerTx(Aligned(t)) == SerTx(t) <==> WitnessNull(t.wit) || !WitnessNull(Padded(t.wit, |t.vin|))
  {
    hide LE32, SerInVector, SerOutVector, SerWitness;
    if !WitnessNull(t.wit) {
      var w := Padded(t.wit, |t.vin|);
      assert Padded(w, |t.vin|) == w;
    }
  }

  /** Without inputs, a witness stack is written once and then gone. */
  lemma SerializedTwiceExample(t: Tx)
    requires TxFits(t) && t.vin == [] && t.wit == [[[]]]
    ensures SerTx(Aligned(t)) != SerTx(t)
  {
    hide SerTx;
    assert t.wit[0] != [] && t.wit[0] in t.wit;
    assert Padded(t.wit, 0) == [];
    SerializedTwice(t);
  }

  // ---- The ambiguous transactions really do not come back

  lemma {:induction false} OutsConsume(s: bytes, n: nat)
    ensures var (outs, rest) := DeserOuts(s, n);
      && |outs| == n
      && (forall o :: o in outs ==> OutFits(o))
      && (rest != [] ==> |s| - |rest| >= |SerOuts(outs)|)
    decreases n
  {
    hide SerOut, DeserOut, OutFits;
    if n > 0 {
      var (x, rest) := DeserOut(s);
      OutConsumes(s);
      OutsConsume(rest, n - 1);
      var (xs, rest') := DeserOuts(rest, n - 1);
      assert ([x] + xs)[1..] == xs;
      OutsShrink(rest, n - 1);
    }
  }

  lemma {:induction false} OutsShrink(s: bytes, n: nat)
    ensures DeserOuts(s, n).1 != [] ==> s != []
    decreases n
  {
    hide DeserOut;
    if n > 0 {
      OutConsumes(s);
      OutsShrink(DeserOut(s).1, n - 1);
    }
  }

  lemma OutConsumes(s: bytes)
    ensures var (o, rest) := DeserOut(s);
      OutFits(o) && (rest != [] ==> s != [] && |s| - |rest| >= |SerOut(o)|)
  {
    var (value, s1) := Read(s, 8);
    Pow256Values();
    SignedBound(value);
    StringConsumes(s1);
  }

  lemma SignedBound(v: bytes)
    requires |v| <= 8
    ensures -I64_LIMIT <= FromLESigned(v) < I64_LIMIT
  {
    Pow256Values();
    PowMono(256, |v|, 8);
  }

  lemma StringConsumes(s: bytes)
    ensures var (x, rest) := DeserString(s);
      |x| < U64 && (rest != [] ==> |s| - |rest| >= |SerString(x)|)
  {
    CompactSizeShortest(s);
  }

  lemma OutVectorConsumes(s: bytes)
    ensures var (outs, rest) := DeserOutVector(s);
      && |outs| < U64 && (forall o :: o in outs ==> OutFits(o))
      && (rest != [] ==> |s| - |rest| >= |SerOutVector(outs)|)
  {
    hide SerCompactSize, OutFits;
    CompactSizeShortest(s);
    var (n, rest) := DeserCompactSize(s);
    OutsConsume(rest, n);
    OutsShrink(rest, n);
  }

  lemma AmbiguousLost(t: Tx, rest: bytes)
    requires TxFits(t) && rest != [] && Ambiguous(t)
    ensures DeserTx(SerTx(t) + rest) != (Normal(t), rest)
  {
    hide LE32, SerOutVector, SerIns, SerOuts, DeserIns, DeserOutVector, DeserWitness, InFits, OutFits, StackFits,
         DeserInVector, ReadInt, SerInVector;
    var v, o, l := LE32(t.version), SerOutVector(t.vout), LE32(t.lockTime);
    EmptyVector();
    var s := SerTx(t) + rest;
    FourNested(v, [0], o, l, rest);
    ReadIntOf(v, [0] + (o + (l + rest)));
    InVectorRoundTrip([], o + (l + rest));
    FlagByte(t.vout, l + rest);
    var (flags, s3) := ReadInt(o + (l + rest), 1);
    var (vin', s4) := DeserInVector(s3);
    var (vout', s5) := DeserOutVector(s4);
    var (wit', s6) := DeserWitness(s5, |vin'|);
    var (lock', s7) := ReadInt(s6, 4);
    if vin' == [] && s7 == rest && vout' == t.vout {
      assert DeserWitness(s5, 0) == ([], s5) by { NoWitness(s5); }
      ReadIntConsumes(s6, 4);
      OutVectorConsumes(s4);
      InVectorConsumes(s3);
    }
  }

  lemma NoWitness(s: bytes)
    ensures DeserWitness(s, 0) == ([], s)
  {}

  lemma ReadIntConsumes(s: bytes, n: nat)
    ensures ReadInt(s, n).1 != [] ==> |s| - |ReadInt(s, n).1| == n
  {}

  lemma InVectorConsumes(s: bytes)
    ensures DeserInVector(s).0 == [] && DeserInVector(s).1 != [] ==> |s| - |DeserInVector(s).1| >= 1
  {
    CompactSizeShortest(s);
    var (n, rest) := DeserCompactSize(s);
    InsCount(rest, n);
  }

  lemma {:induction false} InsCount(s: bytes, n: nat)
    ensures |DeserIns(s, n).0| == n
    decreases n
  {
    hide DeserIn;
    if n > 0 { InsCount(DeserIn(s).1, n - 1); }
  }

  /** The first byte of a non-empty output vector is not zero. */
  lemma FlagByte(v: seq<TxOut>, tail: bytes)
    requires v != [] && |v| < U64 && forall o :: o in v ==> OutFits(o)
    ensures ReadInt(SerOutVector(v) + tail, 1).0 != 0
    ensures |ReadInt(SerOutVector(v) + tail, 1).1| == |SerOutVector(v)| + |tail| - 1
  {
    hide LE16, LE32, LE64, SerOuts;
    var ser := SerOutVector(v) + tail;
    assert ser[..1] == [SerCompactSize(|v|)[0]];
    OneByte(SerCompactSize(|v|)[0]);
  }

  // ---- Whatever is read can be written

  lemma ReadIntBound(s: bytes, n: nat)
    ensures ReadInt(s, n).0 < Pow(256, n)
  {
    FromLEBound(Read(s, n).0, n);
  }

  lemma {:induction false} InsFit(s: bytes, n: nat)
    ensures forall i :: i in DeserIns(s, n).0 ==> InFits(i)
    decreases n
  {
    hide DeserIn, InFits;
    if n > 0 {
      InFit(s);
      InsFit(DeserIn(s).1, n - 1);
    }
  }

  lemma InFit(s: bytes)
    ensures InFits(DeserIn(s).0)
  {
    hide DeserString;
    var s1 := ReadInt(s, 32).1;
    var s2 := ReadInt(s1, 4).1;
    Pow256At32();
    Pow256Values();
    ReadIntBound(s, 32);
    ReadIntBound(s1, 4);
    StringConsumes(s2);
    ReadIntBound(DeserString(s2).1, 4);
  }

  lemma {:induction false} WitnessFits(s: bytes, n: nat)
    ensures forall w :: w in DeserWitness(s, n).0 ==> StackFits(w)
    decreases n
  {
    hide DeserStack, StackFits;
    if n > 0 {
      StackFit(s);
      WitnessFits(DeserStack(s).1, n - 1);
    }
  }

  lemma {:induction false} WitnessCount(s: bytes, n: nat)
    ensures |DeserWitness(s, n).0| == n
    decreases n
  {
    hide DeserStack;
    if n > 0 { WitnessCount(DeserStack(s).1, n - 1); }
  }

  /** What was read has no witness to pad. */
  lemma ReadIsAligned(s: bytes)
    ensures Aligned(DeserTx(s).0) == DeserTx(s).0
  {
    hide DeserInVector, DeserOutVector, DeserWitness, ReadInt;
    var s3 := ReadInt(DeserInVector(ReadInt(s, 4).1).1, 1).1;
    var (vin, s4) := DeserInVector(s3);
    WitnessCount(DeserOutVector(s4).1, |vin|);
  }

  lemma StackFit(s: bytes)
    ensures StackFits(DeserStack(s).0)
  {
    CompactSizeShortest(s);
    StringsFit(DeserCompactSize(s).1, DeserCompactSize(s).0);
  }

  lemma {:induction false} StringsFit(s: bytes, n: nat)
    ensures |DeserStrings(s, n).0| == n && forall x :: x in DeserStrings(s, n).0 ==> |x| < U64
    decreases n
  {
    hide DeserString;
    if n > 0 {
      StringConsumes(s);
      StringsFit(DeserString(s).1, n - 1);
    }
  }

  lemma InVectorFits(s: bytes)
    ensures var v := DeserInVector(s).0; |v| < U64 && forall i :: i in v ==> InFits(i)
  {
    CompactSizeShortest(s);
    InsFit(DeserCompactSize(s).1, DeserCompactSize(s).0);
    InsCount(DeserCompactSize(s).1, DeserCompactSize(s).0);
  }

  /** Every transaction that is read from any bytes can be written again. */
  lemma DeserTxFits(s: bytes)
    ensures TxFits(DeserTx(s).0)
  {
    hide DeserInVector, DeserOutVector, DeserWitness, ReadInt, StackFits, InFits, OutFits;
    Pow256Values();
    var (version, s1) := ReadInt(s, 4);
    var (vin, s2) := DeserInVector(s1);
    ReadIntBound(s, 4);
    InVectorFits(s1);
    if vin != [] {
      OutVectorConsumes(s2);
      ReadIntBound(DeserOutVector(s2).1, 4);
    } else {
      var (flags, s3) := ReadInt(s2, 1);
      ReadIntBound(s3, 4);
      InVectorFits(s3);
      var (vin', s4) := DeserInVector(s3);
      OutVectorConsumes(s4);
      var s5 := DeserOutVector(s4).1;
      WitnessFits(s5, |vin'|);
      ReadIntBound(DeserWitness(s5, |vin'|).1, 4);
    }
  }

  // ---- Blocks

  datatype Header = Header(version: int, prev: nat, merkleRoot: nat, time: nat, bits: nat, nonce: nat)

  predicate HeaderFits(h: Header) {
    && -I32_LIMIT <= h.version < I32_LIMIT && h.prev < U256 && h.merkleRoot < U256
    && h.time < U32 && h.bits < U32 && h.nonce < U32
  }

  function SerHeader(h: Header): (r: bytes)
    requires HeaderFits(h)
    ensures |r| == 80
  {
    LES32(h.version) + (LE256(h.prev) + (LE256(h.merkleRoot) + (LE32(h.time) + (LE32(h.bits) + LE32(h.nonce)))))
  }

  function DeserHeader(s: bytes): (Header, bytes) {
    var (version, s1) := Read(s, 4);
    var (prev, s2) := ReadInt(s1, 32);
    var (merkleRoot, s3) := ReadInt(s2, 32);
    var (time, s4) := ReadInt(s3, 4);
    var (bits, s5) := ReadInt(s4, 4);
    var (nonce, s6) := ReadInt(s5, 4);
    (Header(FromLESigned(version), prev, merkleRoot, time, bits, nonce), s6)
  }

  lemma HeaderRoundTrip(h: Header, rest: bytes)
    requires HeaderFits(h)
    ensures DeserHeader(SerHeader(h) + rest) == (h, rest)
  {
    hide LES32, LE256, LE32;
    var a, b, c := LES32(h.version), LE256(h.prev), LE256(h.merkleRoot);
    var d, e, f := LE32(h.time), LE32(h.bits), LE32(h.nonce);
    SixParts(a, b, c, d, e, f, rest);
    ReadPrefix(a, b + (c + (d + (e + (f + rest)))));
    ReadIntOf(b, c + (d + (e + (f + rest))));
    ReadIntOf(c, d + (e + (f + rest)));
    ReadIntOf(d, e + (f + rest));
    ReadIntOf(e, f + rest);
    ReadIntOf(f, rest);
  }

  lemma SixParts(a: bytes, b: bytes, c: bytes, d: bytes, e: bytes, f: bytes, rest: bytes)
    ensures (a + (b + (c + (d + (e + f))))) + rest == a + (b + (c + (d + (e + (f + rest)))))
  {
    ConcatAssoc(e, f, rest);
    ConcatAssoc(d, e + f, rest);
    ConcatAssoc(c, d + (e + f), rest);
    ConcatAssoc(b, c + (d + (e + f)), rest);
    ConcatAssoc(a, b + (c + (d + (e + f))), rest);
  }

  ghost predicate TxsFit(v: seq<Tx>) {
    forall t :: t in v ==> TxFits(t)
  }

  function SerTxs(v: seq<Tx>): bytes
    requires TxsFit(v)
  {
    if v == [] then []
    else
      assert v[0] in v;
      SerTx(v[0]) + SerTxs(v[1..])
  }

  function DeserTxs(s: bytes, n: nat): (seq<Tx>, bytes)
    decreases n
  {
    if n == 0 then ([], s)
    else
      var (x, rest) := DeserTx(s);
      var (xs, rest') := DeserTxs(rest, n - 1);
      ([x] + xs, rest')
  }

  function NormalAll(v: seq<Tx>): (r: seq<Tx>)
    ensures |r| == |v| && forall i :: 0 <= i < |r| ==> r[i] == Normal(v[i])
  {
    seq(|v|, i requires 0 <= i < |v| => Normal(v[i]))
  }

  lemma {:induction false} TxsRoundTrip(v: seq<Tx>, rest: bytes)
    requires TxsFit(v) && forall t :: t in v ==> !Ambiguous(t)
    ensures DeserTxs(SerTxs(v) + rest, |v|) == (NormalAll(v), rest)
  {
    hide SerTx, DeserTx, Normal, TxFits, Ambiguous;
    if v == [] {
      assert SerTxs(v) + rest == rest;
    } else {
      assert forall t :: t in v[1..] ==> t in v;
      assert v[0] in v;
      ConcatAssoc(SerTx(v[0]), SerTxs(v[1..]), rest);
      TxRoundTrip(v[0], SerTxs(v[1..]) + rest);
      TxsRoundTrip(v[1..], rest);
      assert [Normal(v[0])] + NormalAll(v[1..]) == NormalAll(v);
    }
  }

  ghost predicate BlockFits(h: Header, v: seq<Tx>) {
    HeaderFits(h) && |v| < U64 && TxsFit(v)
  }

  function SerBlock(h: Header, v: seq<Tx>): bytes
    requires BlockFits(h, v)
  {
    SerHeader(h) + (SerCompactSize(|v|) + SerTxs(v))
  }

  function DeserBlock(s: bytes): (Header, seq<Tx>, bytes) {
    var (h, s1) := DeserHeader(s);
    var (n, s2) := DeserCompactSize(s1);
    var (v, s3) := DeserTxs(s2, n);
    (h, v, s3)
  }

  /** Reading a serialized block gives back its header and transactions (in normal form) and leaves
      whatever follows. */
  lemma BlockRoundTrip(h: Header, v: seq<Tx>, rest: bytes)
    requires BlockFits(h, v) && forall t :: t in v ==> !Ambiguous(t)
    ensures DeserBlock(SerBlock(h, v) + rest) == (h, NormalAll(v), rest)
  {
    hide SerHeader, DeserHeader, SerCompactSize, DeserCompactSize;
    var a, b, c := SerHeader(h), SerCompactSize(|v|), SerTxs(v);
    ConcatAssoc(a, b + c, rest);
    ConcatAssoc(b, c, rest);
    HeaderRoundTrip(h, b + (c + rest));
    CompactSizeRoundTrip(|v|, c + rest);
    TxsRoundTrip(v, rest);
  }
}
