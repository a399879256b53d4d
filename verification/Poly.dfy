/** The Poly1305 authenticator (crypto/poly1305.py, section 2.5 of RFC 8439). */
module Poly {
  import opened Bytes
  import opened Bits
  import opened Arith

  /** 2**130 - 5 */
  const MODULUS: nat := 0x3_ffff_ffff_ffff_ffff_ffff_ffff_ffff_fffb
  const TWO_128: nat := 0x1_0000_0000_0000_0000_0000_0000_0000_0000
  const CLAMP_MASK: nat := 0x0fff_fffc_0fff_fffc_0fff_fffc_0fff_ffff

  lemma TagFits()
    ensures Pow(256, 16) == TWO_128
  {
    Pow256Values();
    PowAdd(256, 8, 8);
  }

  // ---- The specification: a polynomial in r, evaluated without reduction

  /** One message block as a number: its little-endian value with a 1 bit set just above it. */
  function BlockValue(chunk: bytes): nat {
    FromLE(chunk) + Pow(256, |chunk|)
  }

  /** The message cut into 16-byte blocks; the last may be shorter. */
  function BlockValues(data: bytes): (r: seq<nat>)
    ensures |r| == (|data| + 15) / 16
    decreases |data|
  {
    if data == [] then []
    else if |data| <= 16 then [BlockValue(data)]
    else [BlockValue(data[..16])] + BlockValues(data[16..])
  }

  /** v[0] * r^n + v[1] * r^(n-1) + ... + v[n-1] * r */
  function Polynomial(v: seq<nat>, r: nat): int {
    if v == [] then 0 else v[0] * Pow(r, |v|) + Polynomial(v[1..], r)
  }

  function TagSpec(r: nat, s: nat, data: bytes): (t: bytes)
    ensures |t| == 16
  {
    TagFits();
    PolynomialNat(BlockValues(data), r);
    LE((Polynomial(BlockValues(data), r) % MODULUS + s) % TWO_128, 16)
  }

  lemma {:induction false} PolynomialNat(v: seq<nat>, r: nat)
    ensures Polynomial(v, r) >= 0
  {
    if v != [] {
      PolynomialNat(v[1..], r);
      PowNat(r, |v|);
    }
  }

  lemma {:induction false} PowNat(r: nat, n: nat)
    ensures Pow(r, n) >= 0
  {
    if n > 0 { PowNat(r, n - 1); }
  }

  /** Horner's step: one more block adds its value and multiplies everything by r. */
  lemma {:induction false} PolynomialSnoc(v: seq<nat>, x: nat, r: nat)
    ensures Polynomial(v + [x], r) == r * (Polynomial(v, r) + x)
  {
    if v == [] {
      assert (v + [x])[1..] == [];
      assert Pow(r, 1) == r * Pow(r, 0);
    } else {
      PolynomialSnoc(v[1..], x, r);
      assert (v + [x])[1..] == v[1..] + [x];
      var a, p, q := v[0], Pow(r, |v|), Polynomial(v[1..], r);
      assert Pow(r, |v| + 1) == r * p;
      MulAssocSwap(a, r, p);
      assert r * (a * p + q + x) == r * (a * p) + r * (q + x);
    }
  }

  lemma MulAssocSwap(a: int, b: int, c: int)
    ensures a * (b * c) == b * (a * c)
  {}

  /** The slice of the message that the loop of `tag` takes at step `i`. */
  function Chunk16(data: bytes, i: nat): bytes
    requires 16 * i < |data|
  {
    data[16 * i..if |data| < 16 * (i + 1) then |data| else 16 * (i + 1)]
  }

  lemma ChunkShift(data: bytes, i: nat)
    requires i > 0 && 16 * i < |data|
    ensures Chunk16(data[16..], i - 1) == Chunk16(data, i)
  {
    var c, d := Chunk16(data[16..], i - 1), Chunk16(data, i);
    assert |c| == |d|;
    assert forall j :: 0 <= j < |d| ==> c[j] == data[16 * i + j] && d[j] == data[16 * i + j];
  }

  lemma {:induction false} BlockValueAt(data: bytes, i: nat)
    requires 16 * i < |data|
    ensures BlockValues(data)[i] == BlockValue(Chunk16(data, i))
    decreases i
  {
    hide BlockValue;
    if |data| <= 16 {
      assert Chunk16(data, i) == data;
    } else if i > 0 {
      BlockValueAt(data[16..], i - 1);
      ChunkShift(data, i);
    }
  }

  /** One step of the loop of `tag`. */
  lemma TagStep(data: bytes, r: nat, i: nat)
    requires 16 * i < |data|
    ensures Polynomial(BlockValues(data)[..i + 1], r) % MODULUS
         == (r * (Polynomial(BlockValues(data)[..i], r) % MODULUS + BlockValue(Chunk16(data, i)))) % MODULUS
  {
    hide BlockValue, Polynomial, Chunk16, BlockValues;
    var v, x := BlockValues(data), BlockValue(Chunk16(data, i));
    BlockValueAt(data, i);
    assert v[..i + 1] == v[..i] + [x];
    PolynomialSnoc(v[..i], x, r);
    HornerStep(r, Polynomial(v[..i], r), x);
  }

  // ---- The class

  class Poly1305 {
    const r: nat
    const s: nat

    constructor (key: bytes)
      requires |key| == 32
      ensures r == And(FromLE(key[..16]), CLAMP_MASK)
      ensures s == FromLE(key[16..])
    {
      r := And(FromLE(key[..16]), CLAMP_MASK);
      s := FromLE(key[16..]);
    }

    method Tag(data: bytes) returns (t: bytes)
      ensures t == TagSpec(r, s, data)
    {
      hide BlockValues;
      var acc, length := 0, |data|;
      for i := 0 to (length + 15) / 16
        invariant acc == Polynomial(BlockValues(data)[..i], r) % MODULUS
      {
        TagStep(data, r, i);
        hide Polynomial;
        var chunk := data[i * 16..if length < (i + 1) * 16 then length else (i + 1) * 16];
        var val := FromLE(chunk) + Pow(256, |chunk|);
        acc := (r * (acc + val)) % MODULUS;
      }
      assert BlockValues(data)[..(length + 15) / 16] == BlockValues(data);
      TagFits();
      t := LE((acc + s) % TWO_128, 16);
    }
  }

  /** Reducing the accumulator at every step does not change the result. */
  lemma HornerStep(r: int, p: int, x: int)
    ensures (r * (p % MODULUS + x)) % MODULUS == (r * (p + x)) % MODULUS
  {
    var y := p % MODULUS + x;
    ModAddMultiple(y, p / MODULUS, MODULUS);
    assert y + (p / MODULUS) * MODULUS == p + x;
    MulModRight(r, y, MODULUS);
    MulModRight(r, p + x, MODULUS);
  }

  // ---- Clamping, byte by byte as the standard states it

  /** The mask of byte `i` of r: the top four bits of bytes 3, 7, 11 and 15 and the bottom two
      bits of bytes 4, 8 and 12 are cleared. */
  function ByteMask(i: nat): byte {
    if i == 3 || i == 7 || i == 11 || i == 15 then 15
    else if i == 4 || i == 8 || i == 12 then 252
    else 255
  }

  function MaskBytes(i: nat, n: nat): (r: bytes)
    ensures |r| == n
    ensures forall j :: 0 <= j < n ==> r[j] == ByteMask(i + j)
  {
    seq<byte>(n, j requires 0 <= j < n => ByteMask(i + j))
  }

  lemma {:induction false} AndBound(a: nat, b: nat)
    ensures And(a, b) <= a && And(a, b) <= b
    decreases a
  {
    if a != 0 && b != 0 { AndBound(a / 2, b / 2); }
  }

  function AndByte(a: byte, b: byte): byte {
    AndBound(a, b);
    And(a, b)
  }

  lemma {:induction false} AndPair(u: nat, x: nat, v: nat, y: nat)
    requires x < 2 && y < 2
    ensures And(2 * u + x, 2 * v + y) == 2 * And(u, v) + x * y
  {
    if 2 * u + x != 0 && 2 * v + y != 0 {
      assert (2 * u + x) / 2 == u && (2 * v + y) / 2 == v;
    } else {
      assert x * y == 0;
    }
  }

  lemma {:induction false} AndSplit(h: nat, l: nat, h': nat, l': nat, k: nat)
    requires l < Pow(2, k) && l' < Pow(2, k)
    ensures And(Shl(h, k) + l, Shl(h', k) + l') == Shl(And(h, h'), k) + And(l, l')
    decreases k
  {
    hide And;
    if k == 0 {
      AndBound(l, l');
    } else {
      var u, v := Shl(h, k - 1), Shl(h', k - 1);
      var m, x, m', y := l / 2, l % 2, l' / 2, l' % 2;
      AndSplit(h, m, h', m', k - 1);
      AndPair(u + m, x, v + m', y);
      AndPair(m, x, m', y);
      assert Shl(h, k) + l == 2 * (u + m) + x && Shl(h', k) + l' == 2 * (v + m') + y;
      assert l == 2 * m + x && l' == 2 * m' + y;
    }
  }

  function AndBytes(a: bytes, b: bytes): (r: bytes)
    requires |a| == |b|
    ensures |r| == |a|
    ensures forall i :: 0 <= i < |a| ==> r[i] == AndByte(a[i], b[i])
  {
    seq<byte>(|a|, i requires 0 <= i < |a| => AndByte(a[i], b[i]))
  }

  lemma {:induction false} AndOfBytes(a: bytes, b: bytes)
    requires |a| == |b|
    ensures And(FromLE(a), FromLE(b)) == FromLE(AndBytes(a, b))
  {
    if a != [] {
      var h, h' := FromLE(a[1..]), FromLE(b[1..]);
      AndOfBytes(a[1..], b[1..]);
      assert AndBytes(a, b)[1..] == AndBytes(a[1..], b[1..]);
      AndByteSplit(h, a[0], h', b[0]);
    }
  }

  lemma AndByteSplit(h: nat, l: byte, h': nat, l': byte)
    ensures And(l + 256 * h, l' + 256 * h') == And(l, l') + 256 * And(h, h')
  {
    assert Pow(2, 8) == 256;
    AndSplit(h, l, h', l', 8);
    ShlIsMul(h, 8);
    ShlIsMul(h', 8);
    ShlIsMul(And(h, h'), 8);
  }

  lemma MaskValue()
    ensures FromLE(MaskBytes(0, 16)) == CLAMP_MASK
  {
    var a, b: bytes := [255, 255, 255, 15], [252, 255, 255, 15];
    assert FromLE(a) == 0x0fff_ffff && FromLE(b) == 0x0fff_fffc;
    assert MaskBytes(0, 16) == a + (b + (b + b));
    Pow256Values();
    FromLEConcat(b, b);
    FromLEConcat(b, b + b);
    FromLEConcat(a, b + (b + b));
  }

  /** The constructor's single `&` clears exactly the bits that section 2.5 of RFC 8439 lists. */
  lemma ClampIsByteMasking(key: bytes)
    requires |key| == 32
    ensures And(FromLE(key[..16]), CLAMP_MASK) == FromLE(AndBytes(key[..16], MaskBytes(0, 16)))
  {
    MaskValue();
    AndOfBytes(key[..16], MaskBytes(0, 16));
  }

  // ---- The test vector of section 2.5.2

  const VECTOR_R: nat := 0x806d5400e52447c036d555408bed685
  const VECTOR_S: nat := 0x1bf54941aff6bf4afdb20dfb8a800301
  const FIRST_BLOCK: nat := 0x16f4620636968706172676f7470797243
  const SECOND_BLOCK: nat := 0x16f7247206863726165736552206d7572
  const THIRD_BLOCK: nat := 0x17075

  /** "Cryptographic Forum Research Group" */
  const VECTOR_TEXT: bytes := [
    67, 114, 121, 112, 116, 111, 103, 114, 97, 112, 104, 105, 99, 32, 70, 111,
    114, 117, 109, 32, 82, 101, 115, 101, 97, 114, 99, 104, 32, 71, 114, 111,
    117, 112]

  /** Sixteen bytes as four words. */
  lemma SixteenBytes(a: bytes, b: bytes, c: bytes, d: bytes)
    requires |a| == |b| == |c| == |d| == 4
    ensures FromLE(a + (b + (c + d)))
         == FromLE(a) + 0x1_0000_0000 * FromLE(b) + 0x1_0000_0000_0000_0000 * FromLE(c)
            + 0x1_0000_0000_0000_0000_0000_0000 * FromLE(d)
  {
    hide FromLE;
    AfterFour(c, d);
    AfterFour(b, c + d);
    AfterFour(a, b + (c + d));
  }

  lemma AfterFour(a: bytes, b: bytes)
    requires |a| == 4
    ensures FromLE(a + b) == FromLE(a) + 0x1_0000_0000 * FromLE(b)
  {
    hide FromLE;
    Pow256Values();
    FromLEConcat(a, b);
  }

  lemma FirstBlock()
    ensures FromLE([67, 114, 121, 112, 116, 111, 103, 114, 97, 112, 104, 105, 99, 32, 70, 111]) == 0x6f4620636968706172676f7470797243
  {
    hide FromLE;
    var a: bytes, b: bytes, c: bytes, d: bytes := [67, 114, 121, 112], [116, 111, 103, 114], [97, 112, 104, 105], [99, 32, 70, 111];
    FourBytes(67, 114, 121, 112);
    FourBytes(116, 111, 103, 114);
    FourBytes(97, 112, 104, 105);
    FourBytes(99, 32, 70, 111);
    SixteenBytes(a, b, c, d);
    assert a + (b + (c + d)) == [67, 114, 121, 112, 116, 111, 103, 114, 97, 112, 104, 105, 99, 32, 70, 111];
  }

  lemma SecondBlock()
    ensures FromLE([114, 117, 109, 32, 82, 101, 115, 101, 97, 114, 99, 104, 32, 71, 114, 111]) == 0x6f7247206863726165736552206d7572
  {
    hide FromLE;
    var a: bytes, b: bytes, c: bytes, d: bytes := [114, 117, 109, 32], [82, 101, 115, 101], [97, 114, 99, 104], [32, 71, 114, 111];
    FourBytes(114, 117, 109, 32);
    FourBytes(82, 101, 115, 101);
    FourBytes(97, 114, 99, 104);
    FourBytes(32, 71, 114, 111);
    SixteenBytes(a, b, c, d);
    assert a + (b + (c + d)) == [114, 117, 109, 32, 82, 101, 115, 101, 97, 114, 99, 104, 32, 71, 114, 111];
  }

  lemma VectorTag()
    ensures FromLE([168, 6, 29, 193, 48, 81, 54, 198, 194, 43, 139, 175, 12, 1, 39, 169]) == 0xa927010caf8b2bc2c6365130c11d06a8
  {
    hide FromLE;
    var a: bytes, b: bytes, c: bytes, d: bytes := [168, 6, 29, 193], [48, 81, 54, 198], [194, 43, 139, 175], [12, 1, 39, 169];
    FourBytes(168, 6, 29, 193);
    FourBytes(48, 81, 54, 198);
    FourBytes(194, 43, 139, 175);
    FourBytes(12, 1, 39, 169);
    SixteenBytes(a, b, c, d);
    assert a + (b + (c + d)) == [168, 6, 29, 193, 48, 81, 54, 198, 194, 43, 139, 175, 12, 1, 39, 169];
  }

  lemma VectorBlocks()
    ensures BlockValues(VECTOR_TEXT) == [FIRST_BLOCK, SECOND_BLOCK, THIRD_BLOCK]
  {
    hide FromLE;
    var t := VECTOR_TEXT;
    TagFits();
    FirstBlock();
    SecondBlock();
    assert t[..16] == [67, 114, 121, 112, 116, 111, 103, 114, 97, 112, 104, 105, 99, 32, 70, 111];
    assert t[16..][..16] == [114, 117, 109, 32, 82, 101, 115, 101, 97, 114, 99, 104, 32, 71, 114, 111];
    assert t[16..][16..] == [117, 112];
    LastBlock();
    assert BlockValues(t[16..][16..]) == [THIRD_BLOCK];
    assert BlockValues(t[16..]) == [SECOND_BLOCK, THIRD_BLOCK];
  }

  lemma LastBlock()
    ensures BlockValue([117, 112]) == THIRD_BLOCK
  {
    var b: bytes := [117, 112];
    assert b[1..] == [112] && [112][1..] == [];
    assert FromLE(b) == 117 + 256 * FromLE([112]);
    Pow256Values();
  }

  /** One block in numbers. */
  lemma VectorStep(v: seq<nat>, x: nat, acc: nat, next: nat)
    requires Polynomial(v, VECTOR_R) % MODULUS == acc && (VECTOR_R * (acc + x)) % MODULUS == next
    ensures Polynomial(v + [x], VECTOR_R) % MODULUS == next
  {
    hide Polynomial;
    PolynomialSnoc(v, x, VECTOR_R);
    HornerStep(VECTOR_R, Polynomial(v, VECTOR_R), x);
  }

  lemma VectorProducts()
    ensures VECTOR_R * FIRST_BLOCK % MODULUS == 0x2c88c77849d64ae9147ddeb88e69c83fc
    ensures VECTOR_R * (0x2c88c77849d64ae9147ddeb88e69c83fc + SECOND_BLOCK) % MODULUS == 0x2d8adaf23b0337fa7cccfb4ea344b30de
    ensures VECTOR_R * (0x2d8adaf23b0337fa7cccfb4ea344b30de + THIRD_BLOCK) % MODULUS == 0x28d31b7caff946c77c8844335369d03a7
  {}

  lemma VectorPolynomial()
    ensures Polynomial([FIRST_BLOCK, SECOND_BLOCK, THIRD_BLOCK], VECTOR_R) % MODULUS
         == 0x28d31b7caff946c77c8844335369d03a7
  {
    assert Polynomial([], VECTOR_R) == 0;
    hide Polynomial;
    VectorProducts();
    VectorStep([], FIRST_BLOCK, 0, 0x2c88c77849d64ae9147ddeb88e69c83fc);
    VectorStep([FIRST_BLOCK], SECOND_BLOCK, 0x2c88c77849d64ae9147ddeb88e69c83fc, 0x2d8adaf23b0337fa7cccfb4ea344b30de);
    VectorStep([FIRST_BLOCK, SECOND_BLOCK], THIRD_BLOCK, 0x2d8adaf23b0337fa7cccfb4ea344b30de, 0x28d31b7caff946c77c8844335369d03a7);
    assert [] + [FIRST_BLOCK] == [FIRST_BLOCK];
    assert [FIRST_BLOCK] + [SECOND_BLOCK] == [FIRST_BLOCK, SECOND_BLOCK];
    assert [FIRST_BLOCK, SECOND_BLOCK] + [THIRD_BLOCK] == [FIRST_BLOCK, SECOND_BLOCK, THIRD_BLOCK];
  }

  /** The test vector for the authenticator. */
  lemma TagVector()
    ensures TagSpec(VECTOR_R, VECTOR_S, VECTOR_TEXT)
         == [168, 6, 29, 193, 48, 81, 54, 198, 194, 43, 139, 175, 12, 1, 39, 169]
  {
    hide FromLE, BlockValues, LE, Polynomial;
    VectorBlocks();
    VectorPolynomial();
    VectorTag();
    LEFromLE([168, 6, 29, 193, 48, 81, 54, 198, 194, 43, 139, 175, 12, 1, 39, 169]);
  }
}
