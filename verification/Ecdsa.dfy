/** ECDSA signatures (key.py, `sign_ecdsa` and `verify_ecdsa`) on the curve: exactly when a signature verifies. */
module Ecdsa {
  import opened Bytes
  import opened Bits
  import opened Arith
  import opened Modular
  import opened Curve
  import opened FieldElement
  import opened GroupElement
  import opened Multiples
  import opened ScalarMul
  import opened Schnorr
  import Der
  import Keys

  /** The numbers of a signature, before encoding. */
  datatype Pair = Pair(r: nat, s: nat)

  /** The two numbers `sign_ecdsa` computes with the nonce `k`. */
  function SignNumbers(c: Params, secret: nat, msg: bytes, k: nat, lowS: bool): (q: Pair)
    requires GoodParams(c) && 0 < k < c.n
    ensures q.r < c.n && q.s < c.n
  {
    MultipleIsPoint(c, k);
    var r := Mult(k, c.G, c.p).x % c.n;
    var s := Inv(k, c.n) * (FromBE(msg) + secret * r) % c.n;
    Pair(r, if lowS && s > c.n / 2 then c.n - s else s)
  }

  lemma Encodable(x: nat, n: nat)
    requires x < n < U256
    ensures x < Pow(256, 32) && ByteLength(x) <= 33
  {
    hide Pow, ByteLength;
    Pow256At32();
    Der.EncodedIsMinimal(x);
  }

  /** `sign_ecdsa` */
  function SignEcdsa(c: Params, secret: nat, msg: bytes, k: nat, lowS: bool): bytes
    requires GoodParams(c) && 0 < k < c.n
  {
    var q := SignNumbers(c, secret, msg, k, lowS);
    Encodable(q.r, c.n);
    Encodable(q.s, c.n);
    Der.Encode(q.r, q.s)
  }

  /** The point the verifier computes. */
  function VerifiersPoint(c: Params, P: Point, q: Pair, msg: bytes): Point
    requires c.n > 0 && c.p > 0
  {
    var w := Inv(q.s, c.n);
    Comb([FromBE(msg) * w % c.n, q.r * w % c.n], [c.G, P], c.p)
  }

  /** The second half of `verify_ecdsa`: the verifier algorithm on the two numbers. */
  function Accepts(c: Params, P: Point, q: Pair, msg: bytes, lowS: bool): bool
    requires c.n > 0 && c.p > 0
  {
    if q.r < 1 || q.s < 1 || q.r >= c.n || q.s >= c.n then false
    else if lowS && q.s >= c.n / 2 then false
    else
      var R := VerifiersPoint(c, P, q, msg);
      R.Affine? && R.x % c.n == q.r
  }

  /** `verify_ecdsa`; None is an IndexError. */
  function VerifyEcdsa(c: Params, P: Point, sig: bytes, msg: bytes, lowS: bool): Option<bool>
    requires c.n > 0 && c.p > 0
  {
    match Der.Parse(sig)
    case Crash => None
    case Refused => Some(false)
    case Numbers(r, s) => Some(Accepts(c, P, Pair(r, s), msg, lowS))
  }

  // ---- The verification equation

  lemma ScalarSum(c: Params, u: nat, v: nat, d: nat, m: nat)
    requires GoodParams(c) && m == v * d
    ensures Comb([u % c.n, v % c.n], [c.G, Mult(d, c.G, c.p)], c.p) == Mult((u + m) % c.n, c.G, c.p)
  {
    hide Add, Mult, OnCurve, Associative, Exponent, Comb;
    var Q := Mult(d, c.G, c.p);
    MultOnCurve(d, c.G, c.p);
    CombOfTwo(u % c.n, v % c.n, c.G, Q, c.p);
    MultMod(u, c.G, c.n, c.p);
    MultMod(v, Q, c.n, c.p);
    MultMult(v, d, c.G, c.n, c.p);
    MultAdd(u, m, c.G, c.n, c.p);
    MultMod(u + m, c.G, c.n, c.p);
  }

  /** u = z*w and v = r*w with w*s = 1: the sum of the scalars is w * (z + r*d). */
  lemma ScalarOfEquation(z: nat, r: nat, w: nat, d: nat)
    ensures z * w + r * w * d == w * (z + d * r)
  {
    MulDistrib(z, d * r, w);
    MulAssoc(r, w, d);
    MulAssoc(w, d, r);
  }

  /** s = k^-1 * t, w = s^-1: then w * t is k. */
  lemma Unwinds(k: nat, t: nat, s: nat, n: nat)
    requires IsPrime(n) && 0 < k < n && 0 < s < n && Zero(s - Inv(k, n) * t, n)
    ensures Zero(Inv(s, n) * t - k, n)
  {
    hide Zero, Inv;
    SmallNotZero(k, n);
    SmallNotZero(s, n);
    InvCorrect(k, n);
    InvCorrect(s, n);
    TimesNonce(k, Inv(k, n), t, s, n);
    TimesInverse(k, Inv(s, n), t, s, n);
  }

  /** k*s == k*i*t == t */
  lemma TimesNonce(k: nat, i: nat, t: nat, s: nat, n: nat)
    requires n > 0 && Zero(s - i * t, n) && Zero(k * i - 1, n)
    ensures Zero(k * s - t, n)
  {
    hide Zero;
    var x, y := i * t, k * i;
    ZeroMul(s - x, k, n);
    ZeroMul(y - 1, t, n);
    MulSub(s, x, k);
    MulSub(y, 1, t);
    MulAssoc(k, i, t);
    ZeroAdd(k * s - k * x, k * x - t, n);
  }

  /** w*t == w*k*s == k */
  lemma TimesInverse(k: nat, w: nat, t: nat, s: nat, n: nat)
    requires n > 0 && Zero(k * s - t, n) && Zero(s * w - 1, n)
    ensures Zero(w * t - k, n)
  {
    hide Zero;
    ZeroMul(k * s - t, w, n);
    ZeroMul(s * w - 1, k, n);
    Rearranged(k, s, t, w);
    ZeroAdd(k * (s * w - 1), w * (k * s - t), n);
  }

  lemma Rearranged(k: int, s: int, t: int, w: int)
    ensures k * (s * w - 1) - w * (k * s - t) == w * t - k
  {
    MulDistrib(s * w, -1, k);
    MulDistrib(k * s, 0 - t, w);
    MulAssoc(k, s, w);
  }

  /** The scalar behind the verifier's point. */
  lemma VerifiersScalar(c: Params, d: nat, z: nat, r: nat, w: nat, t: nat)
    requires GoodParams(c) && t == z + d * r
    ensures z * w >= 0 && r * w >= 0 && w * t >= 0
    ensures Comb([z * w % c.n, r * w % c.n], [c.G, Mult(d, c.G, c.p)], c.p) == Mult(w * t % c.n, c.G, c.p)
  {
    hide Mult, Comb, GoodParams;
    ScalarOfEquation(z, r, w, d);
    var u: nat, v: nat := z * w, r * w;
    ScalarSum(c, u, v, d, v * d);
  }

  /** The scalar is the nonce or its complement. */
  lemma ScalarIsNonce(k: nat, t: nat, s: nat, n: nat)
    requires IsPrime(n) && 0 < k < n && 0 < s < n
    requires s == Inv(k, n) * t % n || s == n - Inv(k, n) * t % n
    ensures Inv(s, n) * t % n == k || Inv(s, n) * t % n == n - k
  {
    hide Zero, Inv;
    var i := Inv(k, n);
    var s0 := i * t % n;
    ZeroMod(i * t, n);
    if s == s0 {
      Unwinds(k, t, s, n);
      ZeroSmall(Inv(s, n) * t, k, n);
      ModSmall(k, n);
    } else {
      Complemented(i, t, s0, s, k, n);
      Unwinds(n - k, t, s, n);
      ZeroSmall(Inv(s, n) * t, n - k, n);
      ModSmall(n - k, n);
    }
  }

  /** It is k*G or -k*G. */
  lemma VerifiersPointIs(c: Params, d: nat, msg: bytes, k: nat, q: Pair, t: nat)
    requires GoodParams(c) && IsPrime(c.n) && 0 < k < c.n && 0 < q.s < c.n && t == FromBE(msg) + d * q.r
    requires q.s == Inv(k, c.n) * t % c.n || q.s == c.n - Inv(k, c.n) * t % c.n
    ensures var R := VerifiersPoint(c, Mult(d, c.G, c.p), q, msg);
      R == Mult(k, c.G, c.p) || R == Neg(Mult(k, c.G, c.p), c.p)
  {
    hide Mult, OnCurve, Associative, Exponent, Comb, Inv, Neg, FromBE, IsPrime;
    ScalarIsNonce(k, t, q.s, c.n);
    VerifiersScalar(c, d, FromBE(msg), q.r, Inv(q.s, c.n), t);
    MultComplement(k, c.G, c.n, c.p);
  }

  /** What the second number of a signature is made of. */
  lemma SignedWith(c: Params, d: nat, msg: bytes, k: nat, lowS: bool) returns (t: nat)
    requires GoodParams(c) && 0 < k < c.n
    ensures var q := SignNumbers(c, d, msg, k, lowS);
      && t == FromBE(msg) + d * q.r
      && (q.s == Inv(k, c.n) * t % c.n || q.s == c.n - Inv(k, c.n) * t % c.n)
  {
    hide Mult, Inv, FromBE, OnCurve, Associative, Exponent, IsPrime;
    MultipleIsPoint(c, k);
    t := FromBE(msg) + d * SignNumbers(c, d, msg, k, lowS).r;
  }

  /** The complement of s is what the complement of the nonce gives. */
  lemma Complemented(i: nat, t: nat, s0: nat, s: nat, k: nat, n: nat)
    requires IsPrime(n) && 0 < k < n && i == Inv(k, n) && s == n - s0 && Zero(s0 - i * t, n)
    ensures Zero(s - Inv(n - k, n) * t, n)
  {
    hide Zero, Inv;
    var j := Inv(n - k, n);
    InverseOfComplement(k, n);
    ZeroMul(i + j, t, n);
    MulDistrib(i, j, t);
    ZeroMultiple(1, n);
    ZeroAdd(1 * n, s0 - i * t, n);
    ZeroAdd(1 * n - (s0 - i * t), (i + j) * t, n);
  }

  lemma InverseOfComplement(k: nat, n: nat)
    requires IsPrime(n) && 0 < k < n
    ensures Zero(Inv(k, n) + Inv(n - k, n), n)
  {
    hide Zero, Inv;
    SmallNotZero(k, n);
    SmallNotZero(n - k, n);
    InvCorrect(k, n);
    InvCorrect(n - k, n);
    OppositeInverses(k, Inv(k, n), Inv(n - k, n), n);
    EuclidLemma(k, Inv(k, n) + Inv(n - k, n), n);
  }

  /** k*(i + j) == k*i - (n - k)*j + j*n == 1 - 1 */
  lemma OppositeInverses(k: nat, i: nat, j: nat, n: nat)
    requires 0 < k < n && Zero(k * i - 1, n) && Zero((n - k) * j - 1, n)
    ensures Zero(k * (i + j), n)
  {
    hide Zero;
    ZeroAdd(k * i - 1, (n - k) * j - 1, n);
    ZeroMultiple(j, n);
    ZeroAdd(k * i - 1 - ((n - k) * j - 1), j * n, n);
    MulDistrib(n, 0 - k, j);
    MulDistrib(i, j, k);
  }

  /** The parameters for which `sign_ecdsa` produces something `verify_ecdsa` can accept at all. */
  predicate InRange(c: Params, q: Pair, lowS: bool) {
    q.r >= 1 && q.s >= 1 && (lowS ==> q.s < c.n / 2)
  }

  /** A signature verifies under the signer's public key exactly when neither of its numbers is zero and,
      if the verifier insists on a low s, s is below half the order. */
  lemma SignatureVerifiesIff(c: Params, secret: nat, msg: bytes, k: nat, lowSign: bool, lowVerify: bool)
    requires GoodParams(c) && IsPrime(c.n) && 0 < k < c.n
    ensures VerifyEcdsa(c, Mult(secret, c.G, c.p), SignEcdsa(c, secret, msg, k, lowSign), msg, lowVerify)
            == Some(InRange(c, SignNumbers(c, secret, msg, k, lowSign), lowVerify))
  {
    hide Mult, OnCurve, Associative, Exponent, VerifiersPoint, Neg, Der.Parse, Der.Encode, SignNumbers, Pow, FromBE;
    var q := SignNumbers(c, secret, msg, k, lowSign);
    Encodable(q.r, c.n);
    Encodable(q.s, c.n);
    Der.ParsesIffEncoded(SignEcdsa(c, secret, msg, k, lowSign), q.r, q.s);
    if InRange(c, q, lowVerify) {
      var t := SignedWith(c, secret, msg, k, lowSign);
      VerifiersPointIs(c, secret, msg, k, q, t);
      SameXCoordinate(c, secret, msg, k, lowSign);
    }
  }

  lemma SameXCoordinate(c: Params, secret: nat, msg: bytes, k: nat, lowS: bool)
    requires GoodParams(c) && 0 < k < c.n
    ensures var K := Mult(k, c.G, c.p);
      && K.Affine? && Neg(K, c.p).Affine? && Neg(K, c.p).x == K.x
      && SignNumbers(c, secret, msg, k, lowS).r == K.x % c.n
  {
    hide Mult, Inv;
    MultipleIsPoint(c, k);
  }

  /** k^-1 * t is x exactly when k * x and t are the same modulo the order. */
  lemma QuotientIs(k: nat, t: nat, x: nat, n: nat)
    requires IsPrime(n) && 0 < k < n && x < n
    ensures Inv(k, n) * t % n == x <==> Zero(k * x - t, n)
  {
    hide Zero, Inv;
    var i := Inv(k, n);
    var s0 := i * t % n;
    SmallNotZero(k, n);
    InvCorrect(k, n);
    ZeroMod(i * t, n);
    TimesNonce(k, i, t, s0, n);
    if Zero(k * x - t, n) {
      ZeroAdd(k * x - t, k * s0 - t, n);
      MulSub(x, s0, k);
      EuclidLemma(k, x - s0, n);
      SameResidue(x, s0, n);
    }
  }

  lemma SameResidue(x: nat, y: nat, n: nat)
    requires x < n && y < n && Zero(x - y, n)
    ensures x == y
  {
    if x > y { SmallNotZero(x - y, n); } else if x < y { ZeroFlip(x, y, n); SmallNotZero(y - x, n); }
  }

  /** `int(R.x) % ORDER` for the nonce `k`, known before the message is. */
  function NonceX(c: Params, k: nat): nat
    requires GoodParams(c) && 0 < k < c.n
  {
    MultipleIsPoint(c, k);
    Mult(k, c.G, c.p).x % c.n
  }

  lemma SignedWithNonceX(c: Params, secret: nat, msg: bytes, k: nat)
    requires GoodParams(c) && 0 < k < c.n
    ensures var q := SignNumbers(c, secret, msg, k, true);
      var t := FromBE(msg) + secret * NonceX(c, k);
      var s0 := Inv(k, c.n) * t % c.n;
      t >= 0 && q == Pair(NonceX(c, k), if s0 > c.n / 2 then c.n - s0 else s0)
  {
    hide Mult, Inv, FromBE, OnCurve, Associative, Exponent, IsPrime;
    MultipleIsPoint(c, k);
  }

  lemma OddOrder(c: Params)
    requires GoodParams(c)
    ensures c.n == 2 * (c.n / 2) + 1 && c.n / 2 >= 1
  {
    hide Associative, Exponent, OnCurve, IsPrime, Mult;
  }

  /** With a low s on both sides, a signature is refused exactly when r is zero or the signed number is, modulo
      the order, zero, or the nonce times half the order (rounded down) or the negation of that: then s is half
      the order, which the signer keeps and the verifier refuses. */
  lemma LowSVerifiesIff(c: Params, secret: nat, msg: bytes, k: nat)
    requires GoodParams(c) && IsPrime(c.n) && 0 < k < c.n
    ensures var r, h := NonceX(c, k), c.n / 2;
      var t := FromBE(msg) + secret * r;
      && SignNumbers(c, secret, msg, k, true).s <= h
      && VerifyEcdsa(c, Mult(secret, c.G, c.p), SignEcdsa(c, secret, msg, k, true), msg, true)
         == Some(r != 0 && !Zero(k * 0 - t, c.n) && !Zero(k * h - t, c.n) && !Zero(k * (c.n - h) - t, c.n))
  {
    hide Mult, OnCurve, Associative, Exponent, VerifyEcdsa, SignEcdsa, FromBE, Inv, NonceX, Zero, SignNumbers, GoodParams;
    SignatureVerifiesIff(c, secret, msg, k, true, true);
    SignedWithNonceX(c, secret, msg, k);
    OddOrder(c);
    var t: nat := FromBE(msg) + secret * NonceX(c, k);
    QuotientIs(k, t, 0, c.n);
    QuotientIs(k, t, c.n / 2, c.n);
    QuotientIs(k, t, c.n - c.n / 2, c.n);
  }

  /** For every secret and nonce there is a 32-byte message whose low-s signature has s equal to half the order:
      it is signed, it is a valid signature if r is not zero, and the verifier that insists on a low s refuses it. */
  lemma HalfOrderMessage(c: Params, secret: nat, k: nat) returns (msg: bytes)
    requires GoodParams(c) && IsPrime(c.n) && 0 < k < c.n
    ensures |msg| == 32
    ensures var sig := SignEcdsa(c, secret, msg, k, true);
      && SignNumbers(c, secret, msg, k, true) == Pair(NonceX(c, k), c.n / 2)
      && VerifyEcdsa(c, Mult(secret, c.G, c.p), sig, msg, false) == Some(NonceX(c, k) != 0)
      && VerifyEcdsa(c, Mult(secret, c.G, c.p), sig, msg, true) == Some(false)
  {
    hide Mult, OnCurve, Associative, Exponent, VerifyEcdsa, SignEcdsa, FromBE, Inv, NonceX, Zero, SignNumbers, GoodParams,
         BE, Pow;
    OddOrder(c);
    GroupOrder(c);
    var d := secret * NonceX(c, k);
    var h := c.n / 2;
    var z := (k * h - d) % c.n;
    Pow256At32();
    msg := BE(z, 32);
    SignedWithNonceX(c, secret, msg, k);
    ZeroMod(k * h - d, c.n);
    assert k * h - (z + d) == k * h - d - z;
    QuotientIs(k, z + d, h, c.n);
    SignatureVerifiesIff(c, secret, msg, k, true, true);
    SignatureVerifiesIff(c, secret, msg, k, true, false);
  }

  lemma GroupOrder(c: Params)
    requires GoodParams(c)
    ensures 1 < c.n < U256
  {
    hide Associative, Exponent, OnCurve, IsPrime, Mult;
  }

  // ---- What verification accepts

  /** Multiples of a sum are the sums of the multiples. */
  lemma {:induction false} MultOfSum(k: nat, P: Point, Q: Point, n: nat, p: nat)
    requires Group(n, p) && OnCurve(P, p) && OnCurve(Q, p)
    ensures Mult(k, Add(P, Q, p), p) == Add(Mult(k, P, p), Mult(k, Q, p), p)
  {
    hide Add, OnCurve, Associative, Exponent;
    if k == 0 {
      AddInfinity(Infinity, p);
    } else {
      MultOfSum(k - 1, P, Q, n, p);
      MultOnCurve(k - 1, P, p);
      MultOnCurve(k - 1, Q, p);
      AddSwap(P, Q, Mult(k - 1, P, p), Mult(k - 1, Q, p), n, p);
    }
  }

  /** Multiplying by w and by s in turn, where s*w is 1 modulo the order, gives the point back. */
  lemma MultCancel(s: nat, w: nat, R: Point, n: nat, p: nat)
    requires Group(n, p) && OnCurve(R, p) && Zero(s * w - 1, n)
    ensures Mult(s, Mult(w, R, p), p) == R
  {
    hide Add, OnCurve, Mult, Zero, Group;
    GroupPositive(n, p);
    MultMult(s, w, R, n, p);
    MultMod(s * w, R, n, p);
    ZeroSmall(s * w, 1, n);
    ModSmall(1, n);
    MultOfOne(R, p);
  }

  lemma MultOfOne(R: Point, p: nat)
    requires p > 0
    ensures Mult(1, R, p) == R
  {
    AddInfinity(R, p);
    assert Mult(1, R, p) == Add(R, Mult(0, R, p), p);
  }

  /** z*G + r*P, and the verifier's point as a multiple of it. */
  lemma VerifiersMultiple(c: Params, P: Point, z: nat, r: nat, w: nat)
    requires GoodParams(c) && OnCurve(P, c.p)
    ensures var T := Add(Mult(z, c.G, c.p), Mult(r, P, c.p), c.p);
      && OnCurve(T, c.p)
      && Comb([z * w % c.n, r * w % c.n], [c.G, P], c.p) == Mult(w, T, c.p)
  {
    hide *;
    ParamsGroup(c);
    var Z, Q := Mult(z, c.G, c.p), Mult(r, P, c.p);
    MultOnCurve(z, c.G, c.p);
    MultOnCurve(r, P, c.p);
    AddOnCurve(Z, Q, c.p);
    MultOfSum(w, Z, Q, c.n, c.p);
    MultMult(w, z, c.G, c.n, c.p);
    MultMult(w, r, P, c.n, c.p);
    MultMod(z * w, c.G, c.n, c.p);
    MultMod(r * w, P, c.n, c.p);
    assert w * z == z * w && w * r == r * w;
    CombOfTwo(z * w % c.n, r * w % c.n, c.G, P, c.p);
  }

  /** s*R == z*G + r*P */
  ghost predicate EcdsaEquation(c: Params, P: Point, q: Pair, z: nat, R: Point)
    requires c.n > 0 && c.p > 0
  {
    && OnCurve(R, c.p) && R.Affine? && R.x % c.n == q.r
    && Mult(q.s, R, c.p) == Add(Mult(z, c.G, c.p), Mult(q.r, P, c.p), c.p)
  }

  /** The verifier's point is the one point R with s*R == z*G + r*P. */
  lemma VerifiersPointIff(c: Params, P: Point, q: Pair, msg: bytes, R: Point)
    requires GoodParams(c) && IsPrime(c.n) && OnCurve(P, c.p) && 1 <= q.s < c.n && OnCurve(R, c.p)
    ensures OnCurve(VerifiersPoint(c, P, q, msg), c.p)
    ensures R == VerifiersPoint(c, P, q, msg)
       <==> Mult(q.s, R, c.p) == Add(Mult(FromBE(msg), c.G, c.p), Mult(q.r, P, c.p), c.p)
  {
    hide OnCurve, Group, Mult, Add, Comb, FromBE, Inv, Zero, IsPrime, GoodParams;
    ParamsGroup(c);
    var z, w := FromBE(msg), Inv(q.s, c.n);
    SmallNotZero(q.s, c.n);
    InvCorrect(q.s, c.n);
    VerifiersMultiple(c, P, z, q.r, w);
    var T := Add(Mult(z, c.G, c.p), Mult(q.r, P, c.p), c.p);
    MultCancel(q.s, w, T, c.n, c.p);
    MultOnCurve(w, T, c.p);
    MulComm(w, q.s);
    MultCancel(w, q.s, R, c.n, c.p);
  }

  lemma MulComm(a: int, b: int)
    ensures a * b == b * a
  {}

  /** Exactly what the verifier accepts: both numbers in range, s low if that is asked for, and a curve point with
      s*R == z*G + r*P whose x coordinate is r modulo the order. */
  lemma AcceptsIff(c: Params, P: Point, q: Pair, msg: bytes, lowS: bool)
    requires GoodParams(c) && IsPrime(c.n) && OnCurve(P, c.p)
    ensures Accepts(c, P, q, msg, lowS)
       <==> && 1 <= q.r < c.n && 1 <= q.s < c.n && (lowS ==> q.s < c.n / 2)
            && exists R :: EcdsaEquation(c, P, q, FromBE(msg), R)
  {
    hide OnCurve, Group, Mult, Add, VerifiersPoint, FromBE, IsPrime, GoodParams;
    ParamsGroup(c);
    if 1 <= q.r < c.n && 1 <= q.s < c.n {
      var V := VerifiersPoint(c, P, q, msg);
      VerifiersPointIff(c, P, q, msg, Infinity) by { InfinityOnCurve(c.p); }
      VerifiersPointIff(c, P, q, msg, V);
      if exists R :: EcdsaEquation(c, P, q, FromBE(msg), R) {
        var R :| EcdsaEquation(c, P, q, FromBE(msg), R);
        VerifiersPointIff(c, P, q, msg, R);
      } else {
        assert !EcdsaEquation(c, P, q, FromBE(msg), V);
      }
    }
  }

  // ---- The computations, over fractions

  /** `int(R.x) % ORDER` */
  function XModOrder(R: GE, n: nat, p: nat): (r: nat)
    requires IsPrime(p) && Good(R, p) && R.GPoint? && n > 0
    ensures r == Abs(R, p).x % n
  {
    NormalizeKeepsValue(R.x, p);
    Normalize(R.x, p).num % n
  }

  method ComputeNumbers(c: Params, fast: FastGEMul, secret: nat, msg: bytes, k: nat, lowS: bool) returns (q: Pair)
    requires GoodParams(c) && Keys.IsFastG(c, fast) && 0 < k < c.n
    ensures q == SignNumbers(c, secret, msg, k, lowS)
  {
    hide OnCurve, Associative, Exponent, Good, Val, Inv, FromBE, Mult, Abs, IsTable;
    MultipleIsPoint(c, k);
    ModSmall(k, c.n);
    var R := fast.Mul(k, c.n, c.p);
    Keys.GoodParts(R, c.p);
    var r := XModOrder(R, c.n, c.p);
    var s: nat := Inv(k, c.n) * (FromBE(msg) + secret * r) % c.n;
    if lowS && s > c.n / 2 { s := c.n - s; }
    q := Pair(r, s);
  }

  method Sign(c: Params, fast: FastGEMul, secret: nat, msg: bytes, k: nat, lowS: bool) returns (sig: bytes)
    requires GoodParams(c) && Keys.IsFastG(c, fast) && 0 < k < c.n
    ensures sig == SignEcdsa(c, secret, msg, k, lowS)
  {
    hide OnCurve, Associative, Exponent, Keys.IsFastG, SignNumbers, Der.Encode;
    var q := ComputeNumbers(c, fast, secret, msg, k, lowS);
    Encodable(q.r, c.n);
    Encodable(q.s, c.n);
    sig := Der.Encode(q.r, q.s);
  }

  method Verify(c: Params, g: GE, P: GE, sig: bytes, msg: bytes, lowS: bool) returns (ok: Option<bool>)
    requires GoodParams(c) && Good(g, c.p) && Abs(g, c.p) == c.G && Good(P, c.p)
    ensures ok == VerifyEcdsa(c, Abs(P, c.p), sig, msg, lowS)
  {
    hide OnCurve, Associative, Exponent, Good, Val, Inv, FromBE, Comb, Abs, Der.Parse;
    var numbers := Der.Parse(sig);
    if numbers.Crash? { return None; }
    if numbers.Refused? { return Some(false); }
    var r, s := numbers.r, numbers.s;
    if r < 1 || s < 1 || r >= c.n || s >= c.n { return Some(false); }
    if lowS && s >= c.n / 2 { return Some(false); }
    var w := Inv(s, c.n);
    var u, v := FromBE(msg) * w, r * w;
    var R := ScalarMul.Mul([u, v], [g, P], c.n, c.p);
    assert Reduce([u, v], c.n) == [u % c.n, v % c.n];
    assert AbsAll([g, P], c.p) == [c.G, Abs(P, c.p)];
    Keys.GoodParts(R, c.p);
    ok := Some(!R.GInf? && XModOrder(R, c.n, c.p) == r);
  }
}
