/** Python's bitwise operators on natural numbers of any width. */
module Bits {
  import opened Bytes

  /** `a ^ b` */
  function Xor(a: nat, b: nat): nat
    decreases a + b
  {
    if a == 0 && b == 0 then 0 else (if a % 2 == b % 2 then 0 else 1) + 2 * Xor(a / 2, b / 2)
  }

  /** `a & b` */
  function And(a: nat, b: nat): nat
    decreases a
  {
    if a == 0 || b == 0 then 0 else (a % 2) * (b % 2) + 2 * And(a / 2, b / 2)
  }

  /** `a | b` */
  function Or(a: nat, b: nat): nat
    decreases a + b
  {
    if a == 0 && b == 0 then 0 else (if a % 2 == 1 || b % 2 == 1 then 1 else 0) + 2 * Or(a / 2, b / 2)
  }

  lemma {:induction false} OrZero(a: nat)
    ensures Or(a, 0) == a
  {
    if a > 0 { OrZero(a / 2); }
  }

  /** Setting a bit above all others adds it. */
  lemma {:induction false} OrHighBit(a: nat, k: nat)
    requires a < Pow(2, k)
    ensures Or(a, Pow(2, k)) == a + Pow(2, k)
    decreases k
  {
    if k == 0 {
      OrZero(0);
    } else {
      OrHighBit(a / 2, k - 1);
    }
  }

  lemma {:induction false} XorComm(a: nat, b: nat)
    ensures Xor(a, b) == Xor(b, a)
    decreases a + b
  {
    if a != 0 || b != 0 { XorComm(a / 2, b / 2); }
  }

  lemma {:induction false} XorZero(a: nat)
    ensures Xor(a, 0) == a && Xor(0, a) == a
  {
    if a != 0 { XorZero(a / 2); }
  }

  lemma {:induction false} XorSelf(a: nat)
    ensures Xor(a, a) == 0
  {
    if a != 0 { XorSelf(a / 2); }
  }

  lemma {:induction false} XorAssoc(a: nat, b: nat, c: nat)
    ensures Xor(Xor(a, b), c) == Xor(a, Xor(b, c))
    decreases a + b + c
  {
    if a + b + c > 0 {
      XorAssoc(a / 2, b / 2, c / 2);
      XorHalves(a, b);
      XorHalves(b, c);
      XorHalves(Xor(a, b), c);
      XorHalves(a, Xor(b, c));
      Halves(Xor(Xor(a, b), c), Xor(a, Xor(b, c)));
    }
  }

  lemma Halves(a: nat, b: nat)
    requires a / 2 == b / 2 && a % 2 == b % 2
    ensures a == b
  {}

  /** The last bit and the remaining bits of an exclusive or. */
  lemma {:induction false} XorHalves(a: nat, b: nat)
    ensures Xor(a, b) / 2 == Xor(a / 2, b / 2)
    ensures Xor(a, b) % 2 == if a % 2 == b % 2 then 0 else 1
  {
    var t := Xor(a / 2, b / 2);
    assert Xor(a, b) == (if a % 2 == b % 2 then 0 else 1) + 2 * t;
  }

  /** Exclusive or is its own inverse. */
  lemma XorCancel(a: nat, b: nat)
    ensures Xor(Xor(a, b), b) == a
  {
    XorAssoc(a, b, b);
    XorSelf(b);
    XorZero(a);
  }

  lemma XorInjective(a: nat, b: nat, c: nat)
    requires Xor(a, c) == Xor(b, c)
    ensures a == b
  {
    XorCancel(a, c);
    XorCancel(b, c);
  }

  /** (a^b)^(c^d) == (a^c)^(b^d) */
  lemma XorSwap(a: nat, b: nat, c: nat, d: nat)
    ensures Xor(Xor(a, b), Xor(c, d)) == Xor(Xor(a, c), Xor(b, d))
  {
    XorAssoc(a, b, Xor(c, d));
    XorAssoc(b, c, d);
    XorComm(b, c);
    XorAssoc(c, b, d);
    XorAssoc(a, c, Xor(b, d));
  }

  lemma {:induction false} XorPair(u: nat, x: nat, v: nat, y: nat)
    requires x < 2 && y < 2
    ensures Xor(2 * u + x, 2 * v + y) == 2 * Xor(u, v) + if x == y then 0 else 1
  {
    XorHalves(2 * u + x, 2 * v + y);
  }

  /** `a << k` */
  function Shl(a: nat, k: nat): (r: nat)
  {
    if k == 0 then a else 2 * Shl(a, k - 1)
  }

  lemma {:induction false} ShlIsMul(a: nat, k: nat)
    ensures Shl(a, k) == a * Pow(2, k)
  {
    if k > 0 {
      ShlIsMul(a, k - 1);
      assert a * Pow(2, k) == 2 * (a * Pow(2, k - 1));
    }
  }

  /** Exclusive or acts on the low `k` bits and on the rest independently. */
  lemma {:induction false} XorSplit(h: nat, l: nat, h': nat, l': nat, k: nat)
    requires l < Pow(2, k) && l' < Pow(2, k)
    ensures Xor(l, l') < Pow(2, k)
    ensures Xor(Shl(h, k) + l, Shl(h', k) + l') == Shl(Xor(h, h'), k) + Xor(l, l')
    decreases k
  {
    hide Xor;
    if k == 0 {
      XorZero(l);
    } else {
      var u, v := Shl(h, k - 1), Shl(h', k - 1);
      var m, x, m', y := l / 2, l % 2, l' / 2, l' % 2;
      XorSplit(h, m, h', m', k - 1);
      XorPair(u + m, x, v + m', y);
      XorPair(m, x, m', y);
      assert Shl(h, k) + l == 2 * (u + m) + x && Shl(h', k) + l' == 2 * (v + m') + y;
      assert l == 2 * m + x && l' == 2 * m' + y;
    }
  }

  lemma XorBound(a: nat, b: nat, k: nat)
    requires a < Pow(2, k) && b < Pow(2, k)
    ensures Xor(a, b) < Pow(2, k)
  {
    XorSplit(0, a, 0, b, k);
  }

  function XorByte(a: byte, b: byte): (r: byte)
  {
    assert Pow(2, 8) == 256;
    XorBound(a, b, 8);
    Xor(a, b)
  }

  /** Pointwise exclusive or of a text with the leading bytes of a keystream. */
  function XorBytes(text: bytes, ks: bytes): (r: bytes)
    requires |text| <= |ks|
    ensures |r| == |text|
    ensures forall i :: 0 <= i < |text| ==> r[i] == XorByte(text[i], ks[i])
  {
    seq(|text|, i requires 0 <= i < |text| => XorByte(text[i], ks[i]))
  }

  lemma XorBytesCancel(text: bytes, ks: bytes)
    requires |text| <= |ks|
    ensures XorBytes(XorBytes(text, ks), ks) == text
  {
    forall i | 0 <= i < |text|
      ensures XorBytes(XorBytes(text, ks), ks)[i] == text[i]
    {
      XorCancel(text[i], ks[i]);
    }
  }

  // ---- Lengths

  /** `a.bit_length()` */
  function BitLength(a: nat): (r: nat)
    ensures a < Pow(2, r)
    ensures r > 0 ==> Pow(2, r - 1) <= a
  {
    if a == 0 then 0 else 1 + BitLength(a / 2)
  }

  /** `(x.bit_length() + 8) // 8` */
  function ByteLength(x: nat): (r: nat)
    ensures r >= 1
  {
    (BitLength(x) + 8) / 8
  }

  /** The bytes that a number takes with its top bit clear. */
  predicate IsLength(x: nat, n: nat) {
    n >= 1 && x < 128 * Pow(256, n - 1) && (n > 1 ==> x >= 128 * Pow(256, n - 2))
  }

  lemma {:induction false} Pow256AsBits(n: nat)
    ensures Pow(256, n) == Pow(2, 8 * n)
  {
    if n > 0 {
      Pow256AsBits(n - 1);
      PowAdd(2, 8, 8 * (n - 1));
      assert Pow(2, 8) == 256;
    }
  }

  lemma SevenBits(n: nat)
    ensures 128 * Pow(256, n) == Pow(2, 8 * n + 7)
  {
    Pow256AsBits(n);
    PowAdd(2, 7, 8 * n);
    assert Pow(2, 7) == 128;
  }

  lemma ByteLengthIsLength(x: nat)
    ensures IsLength(x, ByteLength(x)) && x < Pow(256, ByteLength(x))
  {
    hide Pow;
    var bits, n := BitLength(x), ByteLength(x);
    SevenBits(n - 1);
    PowMono(2, bits, 8 * (n - 1) + 7);
    if n > 1 {
      SevenBits(n - 2);
      PowMono(2, 8 * (n - 2) + 7, bits - 1);
    }
    PowAdd(256, 1, n - 1);
    Pow256Values();
  }

  lemma LengthUnique(x: nat, m: nat, n: nat)
    requires IsLength(x, m) && IsLength(x, n)
    ensures m == n
  {
    if m < n { PowMono(256, m - 1, n - 2); }
    if n < m { PowMono(256, n - 1, m - 2); }
  }
}
