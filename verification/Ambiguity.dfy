/** A transaction whose output count is read as the witness flag does not come back even at the end of a
    stream, where reads may be cut short: every value would have to equal one that lies behind it. */
module Ambiguity {
  import opened Bytes
  import opened Codec
  import opened Transactions

  predicate AllZero(s: bytes) {
    forall i :: 0 <= i < |s| ==> s[i] == 0
  }

  predicate EndOf(s: bytes, s0: bytes) {
    |s| <= |s0| && s == s0[|s0| - |s|..]
  }

  /** `s` is what is left of `s0` after at least one byte. */
  predicate Behind(s: bytes, s0: bytes) {
    |s| < |s0| && EndOf(s, s0)
  }

  // ---- What reading leaves is an end of the stream

  lemma ReadLeaves(s: bytes, n: nat)
    ensures EndOf(Read(s, n).1, s) && Read(s, n).0 <= s
  {}

  lemma EndTrans(a: bytes, b: bytes, c: bytes)
    requires EndOf(a, b) && EndOf(b, c)
    ensures EndOf(a, c)
  {
    assert c[|c| - |b|..][|b| - |a|..] == c[|c| - |a|..];
  }

  lemma CompactLeaves(s: bytes)
    ensures EndOf(DeserCompactSize(s).1, s)
  {
    hide EndOf, FromLE, Read;
    var rest := Read(s, 1).1;
    ReadLeaves(s, 1);
    ReadLeaves(rest, 2);
    ReadLeaves(rest, 4);
    ReadLeaves(rest, 8);
    EndTrans(Read(rest, 2).1, rest, s);
    EndTrans(Read(rest, 4).1, rest, s);
    EndTrans(Read(rest, 8).1, rest, s);
  }

  lemma StringLeaves(s: bytes)
    ensures EndOf(DeserString(s).1, s)
  {
    hide DeserCompactSize, EndOf;
    var (n, rest) := DeserCompactSize(s);
    CompactLeaves(s);
    ReadLeaves(rest, n);
    EndTrans(Read(rest, n).1, rest, s);
  }

  lemma OutLeaves(s: bytes)
    ensures EndOf(DeserOut(s).1, s)
  {
    hide DeserString, EndOf;
    var rest := Read(s, 8).1;
    ReadLeaves(s, 8);
    StringLeaves(rest);
    EndTrans(DeserString(rest).1, rest, s);
  }

  lemma {:induction false} OutsLeave(s: bytes, n: nat)
    ensures EndOf(DeserOuts(s, n).1, s)
    decreases n
  {
    hide DeserOut, EndOf;
    if n > 0 {
      var rest := DeserOut(s).1;
      OutLeaves(s);
      OutsLeave(rest, n - 1);
      EndTrans(DeserOuts(rest, n - 1).1, rest, s);
    } else {
      EndOfSelf(s);
    }
  }

  lemma EndOfSelf(s: bytes)
    ensures EndOf(s, s)
  {}

  /** Reading at least as much as was written keeps the reader behind. */
  lemma StaysBehind(s: bytes, rest: bytes, a: bytes, b: bytes)
    requires Behind(s, a + b) && b != [] && EndOf(rest, s)
    requires rest != [] ==> |s| - |rest| >= |a|
    ensures Behind(rest, b)
  {
    EndTrans(rest, s, a + b);
    assert (a + b)[|a|..] == b;
    assert b[|b| - |rest|..] == (a + b)[|a + b| - |rest|..];
  }

  // ---- Values read behind

  lemma {:induction false} ZerosValue(s: bytes)
    ensures FromLE(s) == 0 <==> AllZero(s)
  {
    if s != [] {
      ZerosValue(s[1..]);
      if AllZero(s[1..]) && s[0] == 0 { assert s == [s[0]] + s[1..]; }
      if AllZero(s) { assert AllZero(s[1..]); }
    }
  }

  lemma PrefixValue(b: bytes, s: bytes)
    requires b <= s
    ensures FromLE(b) <= FromLE(s)
  {
    assert s == b + s[|b|..];
    FromLEConcat(b, s[|b|..]);
  }

  lemma {:induction false} DropValue(e: bytes, d: nat)
    requires 1 <= d <= |e|
    ensures 256 * FromLE(e[d..]) <= FromLE(e)
    decreases d
  {
    assert e[d - 1..][1..] == e[d..];
    if d > 1 { DropValue(e, d - 1); } else { assert e[0..] == e; }
  }

  /** Followed by zeros only, an integer read behind its place is smaller, unless it is zero. */
  lemma IntBehind(e: bytes, r0: bytes, s: bytes, b: bytes)
    requires AllZero(r0) && Behind(s, e + r0) && b <= s && FromLE(b) >= FromLE(e)
    ensures FromLE(e) == 0 && AllZero(e)
  {
    var d := |e + r0| - |s|;
    PrefixValue(b, s);
    if d <= |e| {
      assert s == e[d..] + r0;
      ZerosAppended(e[d..], r0);
      DropValue(e, d);
    } else {
      assert s == r0[d - |e|..];
      ZerosValue(s);
    }
    ZerosValue(e);
    hide FromLE;
  }

  lemma ZerosAppended(e: bytes, r0: bytes)
    requires AllZero(r0)
    ensures FromLE(e + r0) == FromLE(e)
  {
    FromLEConcat(e, r0);
    ZerosValue(r0);
    hide FromLE;
    assert Pow(256, |e|) * 0 == 0;
  }

  lemma CompactBehind(n: nat, r0: bytes, s: bytes)
    requires n < U64 && AllZero(r0) && Behind(s, SerCompactSize(n) + r0) && DeserCompactSize(s).0 >= n
    ensures n == 0 && AllZero(SerCompactSize(n) + r0)
  {
    hide LE16, LE32, LE64;
    var e := SerCompactSize(n);
    var nit := Read(s, 1).0;
    if n < 253 {
      assert (e + r0)[1..] == r0;
      assert AllZero(s);
      ZerosValue(nit);
    } else {
      var p, rest := e[1..], Read(s, 1).1;
      assert e + r0 == [e[0]] + (p + r0);
      if nit != [] {
        OneByte(nit[0]);
        assert nit == [nit[0]];
        PayloadBehind(e[0], p, r0, s);
        var b := Read(rest, if nit[0] == 253 then 2 else if nit[0] == 254 then 4 else 8).0;
        IntBehind(p, r0, rest, b);
      }
    }
  }

  lemma PayloadBehind(tag: byte, p: bytes, r0: bytes, s: bytes)
    requires Behind(s, [tag] + (p + r0)) && s != []
    ensures Behind(Read(s, 1).1, p + r0)
  {
    var w := p + r0;
    assert ([tag] + w)[1..] == w;
    assert s[1..] == w[|w| - (|s| - 1)..];
  }

  lemma {:induction false} DataBehind(x: bytes, r0: bytes, s: bytes, k: nat)
    requires AllZero(r0) && Behind(s, x + r0) && x <= s && k <= |x|
    ensures AllZero(x[k..])
    decreases |x| - k
  {
    if k < |x| {
      DataBehind(x, r0, s, k + 1);
      var d := |x + r0| - |s|;
      assert x[k] == s[k] == (x + r0)[k + d];
      assert k + d < |x| ==> x[k + d] == x[k + 1..][d - 1];
      assert x[k..] == [x[k]] + x[k + 1..];
    }
  }

  lemma StringBehind(x: bytes, r0: bytes, s: bytes)
    requires |x| < U64 && AllZero(r0) && r0 != [] && Behind(s, SerString(x) + r0) && DeserString(s).0 == x
    ensures AllZero(SerString(x) + r0)
  {
    hide SerCompactSize, DeserCompactSize, EndOf;
    var e := SerCompactSize(|x|);
    var (n, rest) := DeserCompactSize(s);
    CompactSizeShortest(s);
    LongerSize(|x|, n);
    CompactLeaves(s);
    ConcatAssoc(e, x, r0);
    StaysBehind(s, rest, e, x + r0);
    ReadLeaves(rest, n);
    DataBehind(x, r0, rest, 0);
    assert x[0..] == x;
    CompactBehind(|x|, x + r0, s);
  }

  lemma LongerSize(m: nat, n: nat)
    requires m <= n < U64
    ensures |SerCompactSize(m)| <= |SerCompactSize(n)|
  {
    hide LE16, LE32, LE64;
  }

  lemma OutBehind(o: TxOut, r0: bytes, s: bytes)
    requires OutFits(o) && AllZero(r0) && r0 != [] && Behind(s, SerOut(o) + r0) && DeserOut(s).0 == o
    ensures AllZero(SerOut(o) + r0)
  {
    hide SerString, DeserString, EndOf, LES64, FromLESigned, AllZero;
    var e, f := LES64(o.value), SerString(o.scriptPubKey);
    var (b, rest) := Read(s, 8);
    ConcatAssoc(e, f, r0);
    ReadLeaves(s, 8);
    StaysBehind(s, rest, e, f + r0);
    StringBehind(o.scriptPubKey, r0, rest);
    SignedBehind(e, f + r0, s);
    AllZeroConcat(e, f + r0);
  }

  lemma AllZeroConcat(a: bytes, b: bytes)
    requires AllZero(a) && AllZero(b)
    ensures AllZero(a + b)
  {}

  lemma SignedBehind(e: bytes, r0: bytes, s: bytes)
    requires |e| == 8 && AllZero(r0) && r0 != [] && Behind(s, e + r0)
    requires FromLESigned(Read(s, 8).0) == FromLESigned(e)
    ensures AllZero(e)
  {
    var b := Read(s, 8).0;
    var d := |e + r0| - |s|;
    if b != [] {
      assert b[|b| - 1] == s[|b| - 1] == (e + r0)[|b| - 1 + d];
      TopByteZero(b);
    } else {
      assert FromLESigned(b) == 0;
    }
    IntBehind(e, r0, s, b);
  }

  lemma TopByteZero(b: bytes)
    requires b != [] && b[|b| - 1] == 0
    ensures FromLESigned(b) == FromLE(b)
  {
    var n := |b| - 1;
    assert b == b[..n] + [0];
    FromLEConcat(b[..n], [0]);
    OneByte(0);
    hide FromLE;
    assert Pow(256, |b|) == 256 * Pow(256, n);
    assert Pow(256, n) * 0 == 0;
  }

  lemma {:induction false} OutsBehind(v: seq<TxOut>, r0: bytes, s: bytes)
    requires (forall o :: o in v ==> OutFits(o)) && AllZero(r0) && r0 != []
    requires Behind(s, SerOuts(v) + r0) && DeserOuts(s, |v|).0 == v
    ensures AllZero(SerOuts(v) + r0)
    decreases |v|
  {
    hide SerOut, DeserOut, OutFits, EndOf, AllZero;
    if v == [] {
      assert SerOuts(v) + r0 == r0;
    } else {
      var a, c := SerOut(v[0]), SerOuts(v[1..]);
      var (x, rest) := DeserOut(s);
      assert DeserOuts(s, |v|).0 == [x] + DeserOuts(rest, |v| - 1).0;
      assert v[1..] == ([x] + DeserOuts(rest, |v| - 1).0)[1..] == DeserOuts(rest, |v| - 1).0;
      ConcatAssoc(a, c, r0);
      OutConsumes(s);
      OutLeaves(s);
      StaysBehind(s, rest, a, c + r0);
      OutsBehind(v[1..], r0, rest);
      OutBehind(v[0], c + r0, s);
    }
  }

  // ---- The round trip

  /** The count, the outputs and the lock time cannot all be read again from behind their places. */
  lemma OutputsNotRead(v: seq<TxOut>, l: bytes, s: bytes)
    requires v != [] && |v| < U64 && (forall o :: o in v ==> OutFits(o)) && |l| == 4
    requires Behind(s, SerOutVector(v) + l)
    ensures var (outs, rest) := DeserOutVector(s);
      !(outs == v && ReadInt(rest, 4) == (FromLE(l), []))
  {
    hide SerCompactSize, DeserCompactSize, SerOuts, DeserOuts, OutFits, EndOf, AllZero;
    var e, c := SerCompactSize(|v|), SerOuts(v);
    var (n, s1) := DeserCompactSize(s);
    var (outs, s2) := DeserOuts(s1, n);
    if outs == v && ReadInt(s2, 4) == (FromLE(l), []) {
      OutsConsume(s1, n);
      CompactSizeShortest(s);
      CompactLeaves(s);
      ConcatAssoc(e, c, l);
      StaysBehind(s, s1, e, c + l);
      OutsLeave(s1, n);
      StaysBehind(s1, s2, c, l);
      LockTimeBehind(l, s2);
      OutsBehind(v, l, s1);
      CompactBehind(|v|, c + l, s);
    }
  }

  lemma LockTimeBehind(l: bytes, s: bytes)
    requires |l| == 4 && Behind(s, l) && ReadInt(s, 4).0 == FromLE(l)
    ensures AllZero(l)
  {
    assert l + [] == l;
    IntBehind(l, [], s, Read(s, 4).0);
  }

  lemma InVectorLeaves(s: bytes)
    ensures DeserInVector(s).0 == [] ==> EndOf(DeserInVector(s).1, s)
  {
    hide DeserCompactSize, EndOf;
    CompactLeaves(s);
    InsCount(DeserCompactSize(s).1, DeserCompactSize(s).0);
  }

  lemma AmbiguousAtEnd(t: Tx)
    requires TxFits(t) && Ambiguous(t)
    ensures DeserTx(SerTx(t)) != (Normal(t), [])
  {
    hide LE32, SerOutVector, SerIns, SerOuts, DeserIns, DeserOutVector, DeserWitness, InFits, OutFits, StackFits,
         DeserInVector, ReadInt, SerInVector, EndOf;
    var v, o, l := LE32(t.version), SerOutVector(t.vout), LE32(t.lockTime);
    EmptyVector();
    ReadIntOf(v, [0] + (o + l));
    InVectorRoundTrip([], o + l);
    FlagByte(t.vout, l);
    FirstByteGone(o + l);
    var s3 := ReadInt(o + l, 1).1;
    var (vin', s4) := DeserInVector(s3);
    if vin' == [] {
      InVectorLeaves(s3);
      BehindTrans(s4, s3, o + l);
      OutputsNotRead(t.vout, l, s4);
      NoWitness(DeserOutVector(s4).1);
    }
  }

  lemma FirstByteGone(s: bytes)
    requires s != []
    ensures Behind(ReadInt(s, 1).1, s)
  {}

  lemma BehindTrans(a: bytes, b: bytes, c: bytes)
    requires EndOf(a, b) && Behind(b, c)
    ensures Behind(a, c)
  {
    EndTrans(a, b, c);
  }

  /** Whatever follows it in the stream, even nothing: a transaction is read back exactly when it is not
      ambiguous. */
  lemma TxRoundTripIff(t: Tx, rest: bytes)
    requires TxFits(t)
    ensures DeserTx(SerTx(t) + rest) == (Normal(t), rest) <==> !Ambiguous(t)
  {
    hide SerTx, DeserTx, TxFits, Ambiguous, Normal;
    if !Ambiguous(t) {
      TxRoundTrip(t, rest);
    } else if rest == [] {
      assert SerTx(t) + [] == SerTx(t);
      AmbiguousAtEnd(t);
    } else {
      AmbiguousLost(t, rest);
    }
  }
}
