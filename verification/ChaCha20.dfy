/** The ChaCha20 block function (crypto/chacha20.py; sections 2.1 to 2.3 of RFC 8439), on an array of 16 words. */
module ChaCha20 {
  import opened Arith
  import opened Bytes
  import opened Bits
  import opened StreamCipher

  type word = x: int | 0 <= x < 0x1_0000_0000

  const CONSTANTS: seq<word> := [0x61707865, 0x3320646e, 0x79622d32, 0x6b206574]

  type Quad = q: (nat, nat, nat, nat) | IsQuad(q) witness (0, 4, 8, 12)

  /** Four different places in the state. */
  predicate IsQuad(q: (nat, nat, nat, nat)) {
    && q.0 < 16 && q.1 < 16 && q.2 < 16 && q.3 < 16
    && q.0 != q.1 && q.0 != q.2 && q.0 != q.3 && q.1 != q.2 && q.1 != q.3 && q.2 != q.3
  }

  const INDICES: seq<Quad> := [
    (0, 4, 8, 12), (1, 5, 9, 13), (2, 6, 10, 14), (3, 7, 11, 15),
    (0, 5, 10, 15), (1, 6, 11, 12), (2, 7, 8, 13), (3, 4, 9, 14)]

  // ---- Words

  function XorWord(a: word, b: word): (r: word)
    ensures r == Xor(a, b)
  {
    assert Pow(2, 32) == 0x1_0000_0000 by { PowAdd(2, 16, 16); assert Pow(2, 16) == 0x1_0000 by { PowAdd(2, 8, 8); } }
    XorBound(a, b, 32);
    Xor(a, b)
  }

  function AddWord(a: word, b: word): word {
    (a + b) % 0x1_0000_0000
  }

  /** `rotl32`; the two parts that are or-ed have no bit in common, so they are added. */
  function Rotl(v: word, bits: nat): (r: word)
    requires 0 < bits < 32
  {
    RotlParts(v, bits);
    v * Pow(2, bits) % 0x1_0000_0000 + v / Pow(2, 32 - bits)
  }

  lemma RotlParts(v: word, bits: nat)
    requires 0 < bits < 32
    ensures var a, c := Pow(2, bits), Pow(2, 32 - bits);
      && a * c == 0x1_0000_0000 && a > 0 && c > 0
      && 0 <= v / c < a && 0 <= v % c < c && v == v / c * c + v % c
      && v * a % 0x1_0000_0000 == v % c * a && 0 <= v % c * a + v / c < 0x1_0000_0000
  {
    hide Pow;
    var a, c := Pow(2, bits), Pow(2, 32 - bits);
    PowAdd(2, bits, 32 - bits);
    Pow2Values();
    Parts(v, a, c);
  }

  lemma Parts(v: nat, a: nat, c: nat)
    requires a > 0 && c > 0 && v < a * c
    ensures 0 <= v / c < a && 0 <= v % c < c && v == v / c * c + v % c
    ensures a * c > 0 && v * a % (a * c) == v % c * a && 0 <= v % c * a + v / c < a * c
  {
    var hi, lo := v / c, v % c;
    assert v == hi * c + lo;
    if hi >= a { MulMono(a, hi, c); }
    MulDistrib(hi * c, lo, a);
    MulAssoc(hi, c, a);
    MulMono(lo + 1, c, a);
    MulDistrib(lo, 1, a);
    DivModUnique(v * a, a * c, hi, lo * a);
  }

  /** A rotation loses nothing. */
  lemma RotlInjective(v: word, w: word, bits: nat)
    requires 0 < bits < 32 && Rotl(v, bits) == Rotl(w, bits)
    ensures v == w
  {
    hide Pow;
    RotlParts(v, bits);
    RotlParts(w, bits);
    var a, c := Pow(2, bits), Pow(2, 32 - bits);
    var x := Rotl(v, bits);
    DivModUnique(x, a, v % c, v / c);
    DivModUnique(x, a, w % c, w / c);
  }

  // ---- Rounds

  /** `s[i] = (s[i] + s[j]) & 0xffffffff` */
  function AddStep(s: seq<word>, i: nat, j: nat): (r: seq<word>)
    requires i < |s| && j < |s|
    ensures |r| == |s|
  {
    s[i := AddWord(s[i], s[j])]
  }

  /** `s[i] = rotl32(s[i] ^ s[j], bits)` */
  function MixStep(s: seq<word>, i: nat, j: nat, bits: nat): (r: seq<word>)
    requires i < |s| && j < |s| && 0 < bits < 32
    ensures |r| == |s|
  {
    s[i := Rotl(XorWord(s[i], s[j]), bits)]
  }

  function HalfQuarter(s: seq<word>, q: Quad, rd: nat, rb: nat): (r: seq<word>)
    requires |s| == 16 && 0 < rd < 32 && 0 < rb < 32
    ensures |r| == 16
  {
    MixStep(AddStep(MixStep(AddStep(s, q.0, q.1), q.3, q.0, rd), q.2, q.3), q.1, q.2, rb)
  }

  function Quarter(s: seq<word>, q: Quad): (r: seq<word>)
    requires |s| == 16
    ensures |r| == 16
  {
    HalfQuarter(HalfQuarter(s, q, 16, 12), q, 8, 7)
  }

  /** The first `k` quarter rounds of a double round. */
  function Quarters(s: seq<word>, k: nat): (r: seq<word>)
    requires |s| == 16 && k <= 8
    ensures |r| == 16
  {
    if k == 0 then s else Quarter(Quarters(s, k - 1), INDICES[k - 1])
  }

  function DoubleRound(s: seq<word>): (r: seq<word>)
    requires |s| == 16
    ensures |r| == 16
  {
    Quarters(s, 8)
  }

  function DoubleRounds(s: seq<word>, n: nat): (r: seq<word>)
    requires |s| == 16
    ensures |r| == 16
  {
    if n == 0 then s else DoubleRound(DoubleRounds(s, n - 1))
  }

  method HalfQuarterRound(s: array<word>, q: Quad, rd: nat, rb: nat)
    requires s.Length == 16 && 0 < rd < 32 && 0 < rb < 32
    modifies s
    ensures s[..] == HalfQuarter(old(s[..]), q, rd, rb)
  {
    hide Rotl, XorWord, AddWord;
    var (a, b, c, d) := q;
    ghost var s0 := s[..];
    s[a] := AddWord(s[a], s[b]);
    ghost var s1 := s[..];
    assert s1 == AddStep(s0, a, b);
    s[d] := Rotl(XorWord(s[d], s[a]), rd);
    ghost var s2 := s[..];
    assert s2 == MixStep(s1, d, a, rd);
    s[c] := AddWord(s[c], s[d]);
    ghost var s3 := s[..];
    assert s3 == AddStep(s2, c, d);
    s[b] := Rotl(XorWord(s[b], s[c]), rb);
    assert s[..] == MixStep(s3, b, c, rb);
  }

  /** `chacha20_doubleround`, in place. */
  method DoubleRoundInPlace(s: array<word>)
    requires s.Length == 16
    modifies s
    ensures s[..] == DoubleRound(old(s[..]))
  {
    hide HalfQuarter, INDICES;
    IndicesCount();
    for k := 0 to 8
      invariant s[..] == Quarters(old(s[..]), k)
    {
      HalfQuarterRound(s, INDICES[k], 16, 12);
      HalfQuarterRound(s, INDICES[k], 8, 7);
    }
  }

  lemma IndicesCount()
    ensures |INDICES| == 8
  {}

  // ---- The permutation

  lemma AddStepInjective(s: seq<word>, t: seq<word>, i: nat, j: nat)
    requires |s| == |t| && i < |s| && j < |s| && i != j && AddStep(s, i, j) == AddStep(t, i, j)
    ensures s == t
  {
    var r := AddStep(s, i, j);
    forall k | 0 <= k < |s|
      ensures s[k] == t[k]
    {
      assert k != i ==> r[k] == s[k] && r[k] == t[k];
      assert r[j] == s[j] && r[j] == t[j];
      assert r[i] == AddWord(s[i], s[j]) && r[i] == AddWord(t[i], t[j]);
    }
  }

  lemma MixStepInjective(s: seq<word>, t: seq<word>, i: nat, j: nat, bits: nat)
    requires |s| == |t| && i < |s| && j < |s| && i != j && 0 < bits < 32
    requires MixStep(s, i, j, bits) == MixStep(t, i, j, bits)
    ensures s == t
  {
    hide Rotl, Xor;
    var r := MixStep(s, i, j, bits);
    assert r[j] == s[j] && r[j] == t[j];
    assert r[i] == Rotl(XorWord(s[i], s[j]), bits) && r[i] == Rotl(XorWord(t[i], t[j]), bits);
    RotlInjective(XorWord(s[i], s[j]), XorWord(t[i], t[j]), bits);
    XorInjective(s[i], t[i], s[j]);
    forall k | 0 <= k < |s|
      ensures s[k] == t[k]
    {
      assert k != i ==> r[k] == s[k] && r[k] == t[k];
    }
  }

  lemma HalfQuarterInjective(s: seq<word>, t: seq<word>, q: Quad, rd: nat, rb: nat)
    requires |s| == |t| == 16 && 0 < rd < 32 && 0 < rb < 32 && HalfQuarter(s, q, rd, rb) == HalfQuarter(t, q, rd, rb)
    ensures s == t
  {
    hide AddStep, MixStep;
    var s1, t1 := AddStep(s, q.0, q.1), AddStep(t, q.0, q.1);
    var s2, t2 := MixStep(s1, q.3, q.0, rd), MixStep(t1, q.3, q.0, rd);
    var s3, t3 := AddStep(s2, q.2, q.3), AddStep(t2, q.2, q.3);
    MixStepInjective(s3, t3, q.1, q.2, rb);
    AddStepInjective(s2, t2, q.2, q.3);
    MixStepInjective(s1, t1, q.3, q.0, rd);
    AddStepInjective(s, t, q.0, q.1);
  }

  lemma {:induction false} QuartersInjective(s: seq<word>, t: seq<word>, k: nat)
    requires |s| == |t| == 16 && k <= 8 && Quarters(s, k) == Quarters(t, k)
    ensures s == t
  {
    hide HalfQuarter, INDICES;
    if k > 0 {
      IndicesCount();
      var q := INDICES[k - 1];
      var s', t' := Quarters(s, k - 1), Quarters(t, k - 1);
      HalfQuarterInjective(HalfQuarter(s', q, 16, 12), HalfQuarter(t', q, 16, 12), q, 8, 7);
      HalfQuarterInjective(s', t', q, 16, 12);
      QuartersInjective(s, t, k - 1);
    }
  }

  /** Any number of double rounds is a permutation of the states: no two states meet. */
  lemma {:induction false} RoundsInjective(s: seq<word>, t: seq<word>, n: nat)
    requires |s| == |t| == 16 && DoubleRounds(s, n) == DoubleRounds(t, n)
    ensures s == t
    decreases n
  {
    hide Quarters;
    if n > 0 {
      QuartersInjective(DoubleRounds(s, n - 1), DoubleRounds(t, n - 1), 8);
      RoundsInjective(s, t, n - 1);
    }
  }

  // ---- The block function

  /** `int.from_bytes(s[i:i+4], 'little')`, where Python cuts the slice at the end of the string. */
  function WordAt(s: bytes, i: nat): (r: word)
  {
    var a, b := if i < |s| then i else |s|, if i + 4 < |s| then i + 4 else |s|;
    Pow256Values();
    ShortWord(s[a..b]);
    FromLE(s[a..b])
  }

  lemma ShortWord(s: bytes)
    requires |s| <= 4
    ensures FromLE(s) < 0x1_0000_0000
  {
    Pow256Values();
    assert Pow(256, 0) == 1;
    if |s| == 0 {} else if |s| == 1 {} else if |s| == 2 {} else if |s| == 3 {}
  }

  function Init(key: bytes, nonce: bytes, cnt: word): (r: seq<word>)
    ensures |r| == 16
  {
    CONSTANTS + seq(8, i requires 0 <= i < 8 => WordAt(key, 4 * i)) + [cnt]
    + seq(3, i requires 0 <= i < 3 => WordAt(nonce, 4 * i))
  }

  function AddAll(s: seq<word>, t: seq<word>): (r: seq<word>)
    requires |s| == |t|
    ensures |r| == |s| && forall i :: 0 <= i < |r| ==> r[i] == AddWord(s[i], t[i])
  {
    seq(|s|, i requires 0 <= i < |s| => AddWord(s[i], t[i]))
  }

  function WordsToBytes(s: seq<word>): (r: bytes)
    ensures |r| == 4 * |s|
  {
    if s == [] then [] else WordsToBytes(s[..|s| - 1]) + LE32(s[|s| - 1])
  }

  /** `chacha20_block` */
  function BlockOf(key: bytes, nonce: bytes, cnt: word): (r: bytes)
    ensures |r| == 64
  {
    var init := Init(key, nonce, cnt);
    WordsToBytes(AddAll(DoubleRounds(init, 10), init))
  }

  method ComputeBlock(key: bytes, nonce: bytes, cnt: word) returns (r: bytes)
    ensures r == BlockOf(key, nonce, cnt)
  {
    hide Quarters, AddWord, LE32, Init;
    var init := Init(key, nonce, cnt);
    var state := new word[16](i requires 0 <= i < 16 => init[i]);
    assert state[..] == init;
    for n := 0 to 10
      invariant state[..] == DoubleRounds(init, n)
    {
      DoubleRoundInPlace(state);
    }
    ghost var mixed := state[..];
    for i := 0 to 16
      invariant state[..i] == AddAll(mixed, init)[..i] && state[i..] == mixed[i..]
    {
      state[i] := AddWord(state[i], init[i]);
    }
    var words := state[..];
    assert words == AddAll(mixed, init);
    r := [];
    for i := 0 to 16
      invariant r == WordsToBytes(words[..i])
    {
      assert words[..i + 1][..i] == words[..i];
      r := r + LE32(words[i]);
    }
    assert words[..16] == words;
  }

  /** The block function with any blocks for counters of 2^32 and above, outside its domain. */
  function Extended(outside: Block, key: bytes, nonce: bytes, cnt: nat): (r: bytes)
    ensures |r| == 64
  {
    assert Has64ByteBlocks(outside);
    if cnt < 0x1_0000_0000 then BlockOf(key, nonce, cnt) else outside(key, nonce, cnt)
  }

  /** It has the output size that the stream cipher and the AEAD rely on: all that is proved of them for an
      arbitrary block function holds for this one, and the blocks outside its domain do not matter (Aead,
      `SmallCounters`). */
  lemma BlockIsBlock(outside: Block)
    ensures Has64ByteBlocks((key: bytes, nonce: bytes, cnt: nat) => Extended(outside, key, nonce, cnt))
    ensures forall key, nonce, cnt: word :: Extended(outside, key, nonce, cnt) == BlockOf(key, nonce, cnt)
  {
    hide BlockOf;
  }

  /** Different keys, nonces or counters are mixed into different states. */
  lemma InputsStayApart(key: bytes, nonce: bytes, cnt: word, key': bytes, nonce': bytes, cnt': word)
    requires |key| == |key'| == 32 && |nonce| == |nonce'| == 12
    requires DoubleRounds(Init(key, nonce, cnt), 10) == DoubleRounds(Init(key', nonce', cnt'), 10)
    ensures key == key' && nonce == nonce' && cnt == cnt'
  {
    hide DoubleRounds, WordAt;
    var s, t := Init(key, nonce, cnt), Init(key', nonce', cnt');
    RoundsInjective(s, t, 10);
    assert s[12] == cnt && t[12] == cnt';
    forall i | 0 <= i < 8
      ensures WordAt(key, 4 * i) == WordAt(key', 4 * i)
    {
      assert s[4 + i] == WordAt(key, 4 * i) && t[4 + i] == WordAt(key', 4 * i);
    }
    forall i | 0 <= i < 3
      ensures WordAt(nonce, 4 * i) == WordAt(nonce', 4 * i)
    {
      assert s[13 + i] == WordAt(nonce, 4 * i) && t[13 + i] == WordAt(nonce', 4 * i);
    }
    SameWords(key, key', 8);
    SameWords(nonce, nonce', 3);
  }

  lemma SameWords(s: bytes, t: bytes, n: nat)
    requires |s| == |t| == 4 * n && forall i :: 0 <= i < n ==> WordAt(s, 4 * i) == WordAt(t, 4 * i)
    ensures s == t
  {
    forall k | 0 <= k < |s|
      ensures s[k] == t[k]
    {
      var i := k / 4;
      assert WordAt(s, 4 * i) == WordAt(t, 4 * i);
      SameSlice(s[4 * i..4 * i + 4], t[4 * i..4 * i + 4]);
      assert s[k] == s[4 * i..4 * i + 4][k - 4 * i] && t[k] == t[4 * i..4 * i + 4][k - 4 * i];
    }
  }

  lemma SameSlice(s: bytes, t: bytes)
    requires |s| == |t| && FromLE(s) == FromLE(t)
    ensures s == t
  {
    LEFromLE(s);
    LEFromLE(t);
  }
}
