/** DER encoding of ECDSA signatures (key.py, `sign_ecdsa` and `verify_ecdsa`). */
module Der {
  import opened Arith
  import opened Bytes
  import opened Bits

  /** `x.to_bytes((x.bit_length() + 8) // 8, 'big')` */
  function EncodeInt(x: nat): (r: bytes)
    ensures FromBE(r) == x && |r| == ByteLength(x)
  {
    ByteLengthIsLength(x);
    BE(x, ByteLength(x))
  }

  /** Not empty, not negative, and no byte more than needed. */
  predicate Minimal(b: bytes) {
    b != [] && b[0] < 0x80 && (|b| > 1 && b[0] == 0 ==> b[1] >= 0x80)
  }

  lemma {:induction false} FirstByte(b: bytes)
    requires b != []
    ensures FromBE(b) == b[0] * Pow(256, |b| - 1) + FromBE(b[1..])
  {
    if |b| == 1 {
      assert b[..0] == [] && b[1..] == [];
    } else {
      var n := |b| - 1;
      FirstByte(b[..n]);
      assert b[..n][1..] == b[1..][..n - 1];
      MulAssoc(b[0], Pow(256, n - 1), 256);
    }
  }

  /** A string is minimal exactly when its length is the number's. */
  lemma MinimalIffLength(b: bytes)
    requires b != []
    ensures Minimal(b) <==> IsLength(FromBE(b), |b|)
  {
    hide Pow, FromBE;
    var n := |b|;
    var p := Pow(256, n - 1);
    FirstByte(b);
    if b[0] < 0x80 { MulMono(b[0] + 1, 128, p); MulDistrib(b[0], 1, p); } else { MulMono(128, b[0], p); }
    if n > 1 {
      FirstByte(b[1..]);
      PowAdd(256, 1, n - 2);
      Pow256Values();
      var q := Pow(256, n - 2);
      if b[0] > 0 {
        MulAtLeast(b[0], p);
      } else if b[1] >= 0x80 {
        MulMono(128, b[1], q);
      } else {
        MulMono(b[1] + 1, 128, q);
        MulDistrib(b[1], 1, q);
      }
    }
  }

  lemma MinimalIsEncoded(b: bytes)
    requires Minimal(b)
    ensures b == EncodeInt(FromBE(b))
  {
    hide Pow, FromBE;
    var x := FromBE(b);
    MinimalIffLength(b);
    ByteLengthIsLength(x);
    LengthUnique(x, |b|, ByteLength(x));
    FromBEInjective(b, EncodeInt(x));
  }

  lemma EncodedIsMinimal(x: nat)
    ensures Minimal(EncodeInt(x))
    ensures x < Pow(256, 32) ==> |EncodeInt(x)| <= 33
  {
    hide Pow, FromBE;
    ByteLengthIsLength(x);
    MinimalIffLength(EncodeInt(x));
    if ByteLength(x) > 33 { PowMono(256, 32, ByteLength(x) - 2); }
  }

  // ---- Signatures

  /** What `sign_ecdsa` returns for the two numbers; longer ones do not fit the length bytes. */
  function Encode(r: nat, s: nat): bytes
    requires ByteLength(r) <= 33 && ByteLength(s) <= 33
  {
    var rb, sb := EncodeInt(r), EncodeInt(s);
    [0x30, 4 + |rb| + |sb|, 2, |rb|] + rb + [2, |sb|] + sb
  }

  /** The outcome of the parsing half of `verify_ecdsa`: an IndexError, a refusal, or two numbers. */
  datatype Parsed = Crash | Refused | Numbers(r: nat, s: nat)

  function Parse(sig: bytes): Parsed {
    if |sig| < 2 then Crash
    else if |sig| - 2 != sig[1] then Refused
    else if |sig| < 4 then Refused
    else if sig[0] != 0x30 then Refused
    else if sig[2] != 0x02 then Refused
    else
      var rlen: int := sig[3];
      if |sig| < 6 + rlen then Refused
      else if rlen < 1 || rlen > 33 then Refused
      else if sig[4] >= 0x80 then Refused
      else if rlen > 1 && sig[4] == 0 && sig[5] < 0x80 then Refused
      else if sig[4 + rlen] != 0x02 then Refused
      else
        var slen: int := sig[5 + rlen];
        if slen < 1 || slen > 33 then Refused
        else if |sig| != 6 + rlen + slen then Refused
        else if sig[6 + rlen] >= 0x80 then Refused
        else if slen > 1 && sig[6 + rlen] == 0 && sig[7 + rlen] < 0x80 then Refused
        else Numbers(FromBE(sig[4..4 + rlen]), FromBE(sig[6 + rlen..6 + rlen + slen]))
  }

  /** The two byte strings inside a signature. */
  function Wrap(rb: bytes, sb: bytes): bytes
    requires |rb| <= 33 && |sb| <= 33
  {
    [0x30, 4 + |rb| + |sb|, 2, |rb|] + rb + [2, |sb|] + sb
  }

  lemma WrappedParts(rb: bytes, sb: bytes)
    requires 1 <= |rb| <= 33 && 1 <= |sb| <= 33
    ensures var sig, n := Wrap(rb, sb), |rb|;
      && |sig| == 6 + n + |sb|
      && sig[0] == 0x30 && sig[1] == 4 + n + |sb| && sig[2] == 2 && sig[3] == n
      && sig[4] == rb[0] && (n > 1 ==> sig[5] == rb[1]) && sig[4 + n] == 2 && sig[5 + n] == |sb|
      && sig[6 + n] == sb[0] && (|sb| > 1 ==> sig[7 + n] == sb[1])
      && sig[4..4 + n] == rb && sig[6 + n..6 + n + |sb|] == sb
  {
    var sig, n := Wrap(rb, sb), |rb|;
    assert sig == ([0x30, 4 + n + |sb|, 2, n] + rb + [2, |sb|]) + sb;
    assert sig[6 + n..] == sb && sig[6 + n..6 + n + |sb|] == sb;
    assert sig[4..4 + n] == rb;
  }

  /** A signature's bytes: a sequence of its own length, and in it two integers, r first, each after its length. */
  lemma EncodedLayout(r: nat, s: nat)
    requires ByteLength(r) <= 33 && ByteLength(s) <= 33
    ensures var sig := Encode(r, s);
      && |sig| >= 8 && sig[0] == 0x30 && sig[1] == |sig| - 2 && sig[2] == 0x02
      && 6 + sig[3] < |sig| && FromBE(sig[4..4 + sig[3]]) == r
      && sig[4 + sig[3]] == 0x02 && sig[5 + sig[3]] == |sig| - 6 - sig[3] && FromBE(sig[6 + sig[3]..]) == s
  {
    hide FromBE, ByteLength;
    var rb, sb := EncodeInt(r), EncodeInt(s);
    EncodedIsMinimal(r);
    EncodedIsMinimal(s);
    WrappedParts(rb, sb);
    assert Encode(r, s) == Wrap(rb, sb);
  }

  lemma ParseWrapped(rb: bytes, sb: bytes)
    requires Minimal(rb) && Minimal(sb) && |rb| <= 33 && |sb| <= 33
    ensures Parse(Wrap(rb, sb)) == Numbers(FromBE(rb), FromBE(sb))
  {
    hide FromBE, Wrap;
    WrappedParts(rb, sb);
  }

  lemma ParsedIsWrapped(sig: bytes)
    requires Parse(sig).Numbers?
    ensures var rb, sb := sig[4..4 + sig[3]], sig[6 + sig[3]..];
      && Minimal(rb) && Minimal(sb) && |rb| <= 33 && |sb| <= 33 && sig == Wrap(rb, sb)
      && Parse(sig) == Numbers(FromBE(rb), FromBE(sb))
  {
    hide FromBE;
    var n := sig[3];
    var rb, sb := sig[4..4 + n], sig[6 + n..];
    assert sig[6 + n..6 + n + sig[5 + n]] == sb;
    assert sig == sig[..4] + rb + sig[4 + n..6 + n] + sb;
    assert sig[..4] == [0x30, 4 + n + |sb|, 2, n];
    assert sig[4 + n..6 + n] == [2, |sb|];
  }

  /** Strictness: a byte string is parsed to two numbers exactly when it is the encoding of those numbers,
      so no two signatures stand for the same pair. */
  lemma ParsesIffEncoded(sig: bytes, r: nat, s: nat)
    requires r < Pow(256, 32) && s < Pow(256, 32)
    ensures ByteLength(r) <= 33 && ByteLength(s) <= 33
    ensures Parse(sig) == Numbers(r, s) <==> sig == Encode(r, s)
  {
    hide Pow, FromBE, Parse, EncodeInt, ByteLength;
    EncodedIsMinimal(r);
    EncodedIsMinimal(s);
    ParseWrapped(EncodeInt(r), EncodeInt(s));
    if Parse(sig) == Numbers(r, s) {
      ParsedIsWrapped(sig);
      MinimalIsEncoded(sig[4..4 + sig[3]]);
      MinimalIsEncoded(sig[6 + sig[3]..]);
    }
  }
}
