/** ChaCha20-Poly1305 (crypto/bip324_cipher.py, section 2.8 of RFC 8439) and its rekeying wrapper. */
module Aead {
  import opened Bytes
  import opened Bits
  import opened Arith
  import opened StreamCipher
  import opened Poly

  function Pad16(x: bytes): (r: bytes)
    ensures |r| < 16 && (|x| + |r|) % 16 == 0
  {
    if |x| % 16 == 0 then [] else Zeros(16 - |x| % 16)
  }

  // ---- Specification

  /** Byte `j` of the message keystream; block 0 is reserved for the authenticator's key. */
  function MessageKeystream(block: Block, key: bytes, nonce: bytes, n: nat): (r: bytes)
    ensures |r| == n
    ensures forall j :: 0 <= j < n ==> r[j] == block(key, nonce, j / 64 + 1)[j % 64]
  {
    seq<byte>(n, j requires 0 <= j < n => block(key, nonce, j / 64 + 1)[j % 64])
  }

  function MacData(aad: bytes, text: bytes): bytes
    requires |aad| < U64 && |text| < U64
  {
    aad + Pad16(aad) + (text + Pad16(text)) + (LE64(|aad|) + LE64(|text|))
  }

  function AuthTag(block: Block, key: bytes, nonce: bytes, aad: bytes, text: bytes): (t: bytes)
    requires |aad| < U64 && |text| < U64
    ensures |t| == 16
  {
    var otk := block(key, nonce, 0)[..32];
    TagSpec(And(FromLE(otk[..16]), CLAMP_MASK), FromLE(otk[16..]), MacData(aad, text))
  }

  function Seal(block: Block, key: bytes, nonce: bytes, aad: bytes, plain: bytes): (c: bytes)
    requires |aad| < U64 && |plain| < U64
    ensures |c| == |plain| + 16
  {
    var text := XorBytes(plain, MessageKeystream(block, key, nonce, |plain|));
    text + AuthTag(block, key, nonce, aad, text)
  }

  function Open(block: Block, key: bytes, nonce: bytes, aad: bytes, cipher: bytes): (p: Option<bytes>)
    requires |aad| < U64 && |cipher| < U64
    ensures p.Some? ==> |cipher| == |p.value| + 16
  {
    if |cipher| < 16 then None
    else
      var text, tag := cipher[..|cipher| - 16], cipher[|cipher| - 16..];
      if tag != AuthTag(block, key, nonce, aad, text) then None
      else Some(XorBytes(text, MessageKeystream(block, key, nonce, |text|)))
  }

  // ---- The AEAD laws

  /** Decryption returns `p` exactly when the ciphertext is the encryption of `p`. */
  lemma OpenIffSeal(block: Block, key: bytes, nonce: bytes, aad: bytes, cipher: bytes, p: bytes)
    requires |aad| < U64 && |cipher| < U64 && |p| < U64
    ensures Open(block, key, nonce, aad, cipher) == Some(p) <==> cipher == Seal(block, key, nonce, aad, p)
  {
    var ks := MessageKeystream(block, key, nonce, |p|);
    XorBytesCancel(p, ks);
    if |cipher| == |p| + 16 {
      var text := cipher[..|p|];
      XorBytesCancel(text, ks);
      assert cipher == text + cipher[|p|..];
      var sealed := Seal(block, key, nonce, aad, p);
      assert sealed[..|p|] == XorBytes(p, ks);
      assert sealed[|p|..] == AuthTag(block, key, nonce, aad, XorBytes(p, ks));
    }
  }

  ghost predicate AgreeBelow(block: Block, block': Block, key: bytes, nonce: bytes, limit: nat) {
    forall cnt: nat :: cnt < limit ==> block(key, nonce, cnt) == block'(key, nonce, cnt)
  }

  /** Block counters of 2^32 and above matter for no text shorter than 64 * (2^32 - 1) bytes: block functions
      that agree below give the same ciphertexts and the same plaintexts. */
  lemma SmallCounters(block: Block, block': Block, key: bytes, nonce: bytes, aad: bytes, text: bytes)
    requires |aad| < U64 && |text| <= 64 * (U32 - 1) && AgreeBelow(block, block', key, nonce, U32)
    ensures Seal(block, key, nonce, aad, text) == Seal(block', key, nonce, aad, text)
    ensures Open(block, key, nonce, aad, text) == Open(block', key, nonce, aad, text)
  {
    hide TagSpec, MacData;
    var n := |text|;
    forall j | 0 <= j < n
      ensures MessageKeystream(block, key, nonce, n)[j] == MessageKeystream(block', key, nonce, n)[j]
    {
      assert j / 64 + 1 < U32;
    }
    assert MessageKeystream(block, key, nonce, n) == MessageKeystream(block', key, nonce, n);
    if n >= 16 {
      assert MessageKeystream(block, key, nonce, n - 16) == MessageKeystream(block, key, nonce, n)[..n - 16];
      assert MessageKeystream(block', key, nonce, n - 16) == MessageKeystream(block', key, nonce, n)[..n - 16];
    }
    assert block(key, nonce, 0) == block'(key, nonce, 0);
  }

  /** The tag depends on the first 32 bytes of block 0 and on nothing else the block function yields. */
  lemma TagFromBlockZero(block: Block, block': Block, key: bytes, nonce: bytes, aad: bytes, text: bytes)
    requires |aad| < U64 && |text| < U64 && block(key, nonce, 0)[..32] == block'(key, nonce, 0)[..32]
    ensures AuthTag(block, key, nonce, aad, text) == AuthTag(block', key, nonce, aad, text)
  {
    hide TagSpec, MacData;
  }

  /** The two halves of the one-time key (sections 2.5 and 2.6 of RFC 8439): r from the first 16 bytes of block 0,
      cleared byte by byte, s from the next 16. */
  lemma OneTimeKey(block: Block, key: bytes, nonce: bytes, aad: bytes, text: bytes)
    requires |aad| < U64 && |text| < U64
    ensures var b := block(key, nonce, 0);
      && |b| == 64
      && AuthTag(block, key, nonce, aad, text)
         == TagSpec(FromLE(AndBytes(b[..16], MaskBytes(0, 16))), FromLE(b[16..32]), MacData(aad, text))
  {
    hide TagSpec, MacData, And, FromLE;
    var b := block(key, nonce, 0);
    var otk := b[..32];
    assert otk[..16] == b[..16] && otk[16..] == b[16..32];
    ClampIsByteMasking(otk);
  }

  /** The text is combined with the blocks from counter 1 on: byte `j` with byte `j % 64` of block `j / 64 + 1`. */
  lemma TextFromLaterBlocks(block: Block, key: bytes, nonce: bytes, aad: bytes, plain: bytes)
    requires |aad| < U64 && |plain| < U64
    ensures var c := Seal(block, key, nonce, aad, plain);
      && |c| == |plain| + 16
      && (forall j :: 0 <= j < |plain| ==> c[j] == XorByte(plain[j], block(key, nonce, j / 64 + 1)[j % 64]))
      && c[|plain|..] == AuthTag(block, key, nonce, aad, c[..|plain|])
  {
    hide AuthTag, XorByte;
    var ks := MessageKeystream(block, key, nonce, |plain|);
    var text := XorBytes(plain, ks);
    var c := Seal(block, key, nonce, aad, plain);
    assert c[..|plain|] == text && c[|plain|..] == AuthTag(block, key, nonce, aad, text);
    assert forall j :: 0 <= j < |plain| ==> c[j] == text[j];
  }

  /** Authenticator and message never use the same block: block functions that differ at counter 0 only give
      the same text, those that differ from counter 1 on only give the same tag for the same text. */
  lemma AuthenticatorApart(block: Block, block': Block, key: bytes, nonce: bytes, aad: bytes, plain: bytes)
    requires |aad| < U64 && |plain| < U64
    requires forall cnt: nat :: cnt > 0 ==> block(key, nonce, cnt) == block'(key, nonce, cnt)
    ensures Seal(block, key, nonce, aad, plain)[..|plain|] == Seal(block', key, nonce, aad, plain)[..|plain|]
  {
    hide Seal, XorByte;
    TextFromLaterBlocks(block, key, nonce, aad, plain);
    TextFromLaterBlocks(block', key, nonce, aad, plain);
    var c, d := Seal(block, key, nonce, aad, plain), Seal(block', key, nonce, aad, plain);
    forall j | 0 <= j < |plain|
      ensures c[j] == d[j]
    {
      assert block(key, nonce, j / 64 + 1) == block'(key, nonce, j / 64 + 1);
    }
  }

  /** The layout of section 2.8 of RFC 8439, place by place: the associated data, the text at the next multiple of
      16, zeros in between, and in the last 16 bytes the two lengths, that of the associated data first. */
  lemma MacDataLayout(aad: bytes, text: bytes)
    requires |aad| < U64 && |text| < U64
    ensures var m, k := MacData(aad, text), (|aad| + 15) / 16 * 16;
      var e := k + (|text| + 15) / 16 * 16;
      && |m| == e + 16 && m[..|aad|] == aad && m[k..k + |text|] == text
      && m[|aad|..k] == Zeros(k - |aad|) && m[k + |text|..e] == Zeros(e - k - |text|)
      && FromLE(m[e..e + 8]) == |aad| && FromLE(m[e + 8..]) == |text|
  {
    hide Pad16, LE64, FromLE;
    PadIs(aad);
    PadIs(text);
    PartsAt(aad, Pad16(aad), text, Pad16(text), LE64(|aad|), LE64(|text|));
  }

  lemma PartsAt(a: bytes, p: bytes, t: bytes, q: bytes, x: bytes, y: bytes)
    requires |x| == |y| == 8
    ensures var m, k := a + p + (t + q) + (x + y), |a| + |p|;
      var e := k + |t| + |q|;
      && |m| == e + 16 && m[..|a|] == a && m[k..k + |t|] == t && m[e..e + 8] == x && m[e + 8..] == y
      && m[|a|..k] == p && m[k + |t|..e] == q
  {
    var b, c, d := a + p, t + q, x + y;
    SliceOfThree(b, c, d);
    var m := b + c + d;
    assert m[..|a|] == m[..|b|][..|a|] && m[|a|..|b|] == m[..|b|][|a|..];
    var e := |b| + |c|;
    assert m[|b|..|b| + |t|] == m[|b|..e][..|t|] && m[|b| + |t|..e] == m[|b|..e][|t|..];
    assert m[e..e + 8] == m[e..][..8] && m[e + 8..] == m[e..][8..];
  }

  lemma SliceOfThree(b: bytes, c: bytes, d: bytes)
    ensures var m := b + c + d;
      m[..|b|] == b && m[|b|..|b| + |c|] == c && m[|b| + |c|..] == d
  {}

  lemma PadIs(x: bytes)
    ensures var k := (|x| + 15) / 16 * 16; k >= |x| && Pad16(x) == Zeros(k - |x|)
  {}

  /** The authenticated bytes determine both the associated data and the ciphertext. */
  lemma MacDataInjective(aad: bytes, text: bytes, aad': bytes, text': bytes)
    requires |aad| < U64 && |text| < U64 && |aad'| < U64 && |text'| < U64
    requires MacData(aad, text) == MacData(aad', text')
    ensures aad == aad' && text == text'
  {
    var m, m' := MacData(aad, text), MacData(aad', text');
    var body, body' := aad + Pad16(aad) + (text + Pad16(text)), aad' + Pad16(aad') + (text' + Pad16(text'));
    assert m[..|m| - 16] == body && m'[..|m'| - 16] == body';
    assert m[|m| - 16..] == LE64(|aad|) + LE64(|text|) && m'[|m'| - 16..] == LE64(|aad'|) + LE64(|text'|);
    assert m[|m| - 16..][..8] == LE64(|aad|) && m'[|m'| - 16..][..8] == LE64(|aad'|);
    assert m[|m| - 16..][8..] == LE64(|text|) && m'[|m'| - 16..][8..] == LE64(|text'|);
    assert FromLE(LE64(|aad|)) == |aad| && FromLE(LE64(|aad'|)) == |aad'|;
    assert FromLE(LE64(|text|)) == |text| && FromLE(LE64(|text'|)) == |text'|;
    assert body[..|aad|] == aad && body'[..|aad'|] == aad';
    var k := |aad| + |Pad16(aad)|;
    assert body[k..][..|text|] == text && body'[k..][..|text'|] == text';
  }

  // ---- The two functions as written, with their block and byte loops

  method CryptBlocks(block: Block, key: bytes, nonce: bytes, text: bytes) returns (ret: bytes)
    ensures ret == XorBytes(text, MessageKeystream(block, key, nonce, |text|))
  {
    ret := [];
    var msgLen := |text|;
    ghost var ks := MessageKeystream(block, key, nonce, msgLen);
    for i := 0 to (msgLen + 63) / 64
      invariant |ret| == if 64 * i < msgLen then 64 * i else msgLen
      invariant ret == XorBytes(text, ks)[..|ret|]
    {
      var now := if msgLen - 64 * i < 64 then msgLen - 64 * i else 64;
      var keystream := block(key, nonce, i + 1);
      for j := 0 to now
        invariant |ret| == 64 * i + j
        invariant ret == XorBytes(text, ks)[..|ret|]
      {
        assert ks[64 * i + j] == keystream[j];
        ret := ret + [XorByte(text[j + 64 * i], keystream[j])];
      }
    }
  }

  method Encrypt(block: Block, key: bytes, nonce: bytes, aad: bytes, plaintext: Option<bytes>)
    returns (r: Option<bytes>)
    requires |aad| < U64
    requires plaintext.Some? ==> |plaintext.value| < U64
    ensures r == match plaintext
                 case None => None
                 case Some(p) => Some(Seal(block, key, nonce, aad, p))
  {
    hide TagSpec;
    if plaintext.None? { return None; }
    var ret := CryptBlocks(block, key, nonce, plaintext.value);
    var poly := new Poly1305(block(key, nonce, 0)[..32]);
    var macData := aad + Pad16(aad);
    macData := macData + (ret + Pad16(ret));
    macData := macData + (LE64(|aad|) + LE64(|plaintext.value|));
    var tag := poly.Tag(macData);
    r := Some(ret + tag);
  }

  method Decrypt(block: Block, key: bytes, nonce: bytes, aad: bytes, ciphertext: Option<bytes>)
    returns (r: Option<bytes>)
    requires |aad| < U64
    requires ciphertext.Some? ==> |ciphertext.value| < U64
    ensures r == match ciphertext
                 case None => None
                 case Some(c) => Open(block, key, nonce, aad, c)
  {
    hide TagSpec;
    if ciphertext.None? || |ciphertext.value| < 16 { return None; }
    var c := ciphertext.value;
    var msgLen := |c| - 16;
    var poly := new Poly1305(block(key, nonce, 0)[..32]);
    var macData := aad + Pad16(aad);
    macData := macData + (c[..msgLen] + Pad16(c[..msgLen]));
    macData := macData + (LE64(|aad|) + LE64(msgLen));
    var tag := poly.Tag(macData);
    if c[msgLen..] != tag { return None; }
    var text := CryptBlocks(block, key, nonce, c[..msgLen]);
    r := Some(text);
  }

  // ---- FSChaCha20Poly1305

  /** The nonce of packet `n`. */
  function PacketNonce(n: nat): (r: bytes)
    requires n / REKEY_INTERVAL < U64
    ensures |r| == 12 && FromLE(r[..4]) == n % REKEY_INTERVAL && FromLE(r[4..]) == n / REKEY_INTERVAL
  {
    var r := LE32(n % REKEY_INTERVAL) + LE64(n / REKEY_INTERVAL);
    assert r[..4] == LE32(n % REKEY_INTERVAL) && r[4..] == LE64(n / REKEY_INTERVAL);
    r
  }

  function RekeyNonce(epoch: nat): (r: bytes)
    requires epoch < U64
    ensures |r| == 12 && r[..4] == [0xff, 0xff, 0xff, 0xff] && FromLE(r[4..]) == epoch
  {
    var r := [0xff, 0xff, 0xff, 0xff] + LE64(epoch);
    assert r[..4] == [0xff, 0xff, 0xff, 0xff] && r[4..] == LE64(epoch);
    r
  }

  /** The key that follows `key` at the end of an epoch. */
  function NextKey(block: Block, key: bytes, epoch: nat): bytes
    requires epoch < U64
  {
    Seal(block, key, RekeyNonce(epoch), [], Zeros(32))[..32]
  }

  /** It is the first half of block 1 under the rekeying nonce: zeros are what is encrypted. */
  lemma NextKeyIs(block: Block, key: bytes, epoch: nat)
    requires epoch < U64
    ensures NextKey(block, key, epoch) == block(key, RekeyNonce(epoch), 1)[..32]
  {
    hide Seal, AuthTag, Xor;
    TextFromLaterBlocks(block, key, RekeyNonce(epoch), [], Zeros(32));
    forall j | 0 <= j < 32
      ensures NextKey(block, key, epoch)[j] == block(key, RekeyNonce(epoch), 1)[j]
    {
      XorZero(block(key, RekeyNonce(epoch), 1)[j]);
    }
  }

  /** The key of an epoch as an iterate of the initial key. */
  function KeyOfEpoch(block: Block, initial: bytes, epoch: nat): bytes
    requires epoch <= U64
  {
    if epoch == 0 then initial else NextKey(block, KeyOfEpoch(block, initial, epoch - 1), epoch - 1)
  }

  datatype Keyed = Keyed(key: bytes, packets: nat)

  /** The effect of one call on the cipher: it does not depend on what is crypted. */
  function Advance(block: Block, k: Keyed): Keyed
    requires k.packets / REKEY_INTERVAL < U64
  {
    Keyed(if (k.packets + 1) % REKEY_INTERVAL == 0
          then NextKey(block, k.key, k.packets / REKEY_INTERVAL) else k.key,
          k.packets + 1)
  }

  class FSChaCha20Poly1305 {
    const block: Block
    var key: bytes
    var packetCounter: nat

    ghost function State(): Keyed
      reads this
    {
      Keyed(key, packetCounter)
    }

    constructor (block: Block, initialKey: bytes)
      ensures this.block == block
      ensures State() == Keyed(initialKey, 0)
    {
      this.block := block;
      this.key := initialKey;
      this.packetCounter := 0;
    }

    method Crypt(aad: bytes, text: Option<bytes>, isDecrypt: bool) returns (ret: Option<bytes>)
      requires packetCounter / REKEY_INTERVAL < U64
      requires |aad| < U64 && (text.Some? ==> |text.value| < U64)
      modifies this
      ensures State() == Advance(block, old(State()))
      ensures text.None? ==> ret == None
      ensures text.Some? && !isDecrypt ==>
        ret == Some(Seal(block, old(key), PacketNonce(old(packetCounter)), aad, text.value))
      ensures text.Some? && isDecrypt ==>
        ret == Open(block, old(key), PacketNonce(old(packetCounter)), aad, text.value)
    {
      hide Seal, Open;
      var nonce := LE32(packetCounter % REKEY_INTERVAL) + LE64(packetCounter / REKEY_INTERVAL);
      if isDecrypt {
        ret := Decrypt(block, key, nonce, aad, text);
      } else {
        ret := Encrypt(block, key, nonce, aad, text);
      }
      if (packetCounter + 1) % REKEY_INTERVAL == 0 {
        assert nonce[4..] == LE64(packetCounter / REKEY_INTERVAL);
        var rekeyNonce := [255, 255, 255, 255] + nonce[4..];
        var sealed := Encrypt(block, key, rekeyNonce, [], Some(Zeros(32)));
        key := sealed.value[..32];
      }
      packetCounter := packetCounter + 1;
    }
  }

  // ---- Whole runs

  /** The cipher after `n` calls from a fresh start. */
  function After(block: Block, initial: bytes, n: nat): (k: Keyed)
    requires n <= REKEY_INTERVAL * U64
    ensures k.packets == n
  {
    if n == 0 then Keyed(initial, 0) else Advance(block, After(block, initial, n - 1))
  }

  /** After `n` calls, whatever their texts and outcomes, the key is the iterate of the initial
      key for epoch `n div 224`. */
  lemma {:induction false} KeyClosedForm(block: Block, initial: bytes, n: nat)
    requires n <= REKEY_INTERVAL * U64
    ensures After(block, initial, n) == Keyed(KeyOfEpoch(block, initial, n / REKEY_INTERVAL), n)
  {
    hide NextKey;
    if n > 0 {
      KeyClosedForm(block, initial, n - 1);
      NextEpoch(n - 1, REKEY_INTERVAL);
      assert (n - 1) / REKEY_INTERVAL < U64;
      if n % REKEY_INTERVAL == 0 {
        assert KeyOfEpoch(block, initial, n / REKEY_INTERVAL)
            == NextKey(block, KeyOfEpoch(block, initial, (n - 1) / REKEY_INTERVAL), (n - 1) / REKEY_INTERVAL);
      }
    }
  }

  /** Over a whole run no (epoch, nonce) pair repeats: the nonce alone tells the call. */
  lemma PacketNonceInjective(m: nat, n: nat)
    requires m / REKEY_INTERVAL < U64 && n / REKEY_INTERVAL < U64
    requires PacketNonce(m) == PacketNonce(n)
    ensures m == n
  {
    assert PacketNonce(m)[..4] == LE32(m % REKEY_INTERVAL) && PacketNonce(n)[..4] == LE32(n % REKEY_INTERVAL);
    assert PacketNonce(m)[4..] == LE64(m / REKEY_INTERVAL) && PacketNonce(n)[4..] == LE64(n / REKEY_INTERVAL);
  }

  /** No rekeying uses the nonce of a packet, and no two rekeyings share one. */
  lemma RekeyNonceFresh(epoch: nat, other: nat, n: nat)
    requires epoch < U64 && other < U64 && n / REKEY_INTERVAL < U64
    ensures RekeyNonce(epoch) != PacketNonce(n)
    ensures RekeyNonce(epoch) == RekeyNonce(other) ==> epoch == other
  {
    assert RekeyNonce(epoch)[4..] == LE64(epoch) && RekeyNonce(other)[4..] == LE64(other);
    var head := PacketNonce(n)[..4];
    assert head == LE32(n % REKEY_INTERVAL);
    assert RekeyNonce(epoch)[..4] == [255, 255, 255, 255];
    assert FromLE(head) < REKEY_INTERVAL && FromLE(head) % 256 == head[0];
  }
}
