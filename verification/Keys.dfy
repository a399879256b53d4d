/** BIP 340 signing and verifying over fraction coordinates (key.py, crypto/secp256k1.py), proved to
    compute what module Schnorr describes on the curve. */
module Keys {
  import opened Bytes
  import opened Bits
  import opened Arith
  import opened Modular
  import opened Curve
  import opened FieldElement
  import opened GroupElement
  import opened Multiples
  import opened ScalarMul
  import opened Schnorr

  /** `a == n` for an integer n */
  predicate EqInt(a: FE, n: int, p: nat)
    requires p > 0
  {
    Zero(a.num - a.den * n, p)
  }

  lemma EqIntIff(a: FE, n: int, p: nat)
    requires IsPrime(p) && Proper(a, p) && 0 <= n < p
    ensures EqInt(a, n, p) <==> Val(a, p) == n
  {
    hide Zero, Val;
    ProperDen(a, p);
    ValIff(a, n, p);
    assert n * a.den == a.den * n;
    if Zero(a.num - a.den * n, p) { ZeroFlip(a.num, a.den * n, p); }
    if Zero(n * a.den - a.num, p) { ZeroFlip(n * a.den, a.num, p); }
  }

  /** `to_bytes` */
  function FieldBytes(a: FE, p: nat): (r: bytes)
    requires IsPrime(p) && p < U256 && Proper(a, p)
    ensures |r| == 32 && r == Encode32(Val(a, p))
  {
    NormalizeKeepsValue(a, p);
    Encode32(Normalize(a, p).num)
  }

  /** `GE.lift_x`; the point constructor's assertion never fails. */
  function LiftGE(x: FE, p: nat): (r: Option<GE>)
    requires IsPrime(p) && p > 3 && Proper(x, p)
    ensures r.None? <==> LiftX(Val(x, p), p).None?
    ensures r.Some? ==> Good(r.value, p) && LiftX(Val(x, p), p) == Some(Abs(r.value, p))
  {
    hide PowFE, AddInt, Make, NegFE, Val, Zero, NewGE, OfInt;
    var v := AddInt(PowFE(x, 3, p), 7, p);
    var y0 := Sqrt(v, p);
    SqrtIsCandidate(x, p);
    if y0.None? then None
    else
      var y := if IsEven(y0.value, p) then y0.value else NegFE(y0.value, p);
      LiftedOnCurve(Val(x, p), p);
      NewGE(x, y, p)
  }

  lemma SqrtIsCandidate(x: FE, p: nat)
    requires IsPrime(p) && Proper(x, p)
    ensures var v := AddInt(PowFE(x, 3, p), 7, p);
      var s := RootCandidate(Val(x, p), p);
      && (Sqrt(v, p).Some? <==> Zero(s * s - (ModPow(Val(x, p), 3, p) + 7) % p, p))
      && (Sqrt(v, p).Some? ==> Val(Sqrt(v, p).value, p) == s)
  {
    hide PowFE, AddInt, Make, Val, Zero, ModPow, OfInt;
    var v := AddInt(PowFE(x, 3, p), 7, p);
    NormalizeKeepsValue(v, p);
    ModSmall(RootCandidate(Val(x, p), p), p);
  }

  lemma LiftedOnCurve(x: nat, p: nat)
    requires p > 0 && x < p && LiftX(x, p).Some?
    ensures OnCurve(LiftX(x, p).value, p)
  {
    hide Zero, ModPow, RootCandidate;
    var s := RootCandidate(x, p);
    CubePlusSeven(x, p);
    ZeroChain(s * s, (ModPow(x, 3, p) + 7) % p, x * x * x + 7, p);
    NegSquare(s, p);
    ZeroChain(((0 - s) % p) * ((0 - s) % p), s * s, x * x * x + 7, p);
  }

  lemma NegSquare(s: int, p: nat)
    requires p > 0
    ensures Zero(((0 - s) % p) * ((0 - s) % p) - s * s, p)
  {
    var t := (0 - s) % p;
    ZeroMod(0 - s, p);
    CongMul(t, 0 - s, t, 0 - s, p);
    assert (0 - s) * (0 - s) == s * s;
  }

  /** The y coordinate of a good, finite element is even exactly when the point's is. */
  function HasEvenY(g: GE, p: nat): (r: bool)
    requires IsPrime(p) && Good(g, p) && g.GPoint?
    ensures r == IsEvenPoint(Abs(g, p))
  {
    IsEven(g.y, p)
  }

  ghost predicate IsFastG(c: Params, fast: FastGEMul) {
    c.p > 0 && |fast.table| == 256 && fast.base == c.G && IsTable(fast.table, fast.base, c.p)
  }

  /** A nonzero multiple of the generator, with the encoding of its x coordinate. */
  method PublicPoint(c: Params, fast: FastGEMul, k: nat) returns (P: GE, x: bytes, even: bool)
    requires GoodParams(c) && IsFastG(c, fast) && 0 < k < c.n
    ensures Mult(k, c.G, c.p).Affine? && OnCurve(Mult(k, c.G, c.p), c.p)
    ensures Abs(P, c.p) == Mult(k, c.G, c.p)
    ensures x == XOnly(Mult(k, c.G, c.p), c.p)
    ensures even == IsEvenPoint(Mult(k, c.G, c.p))
  {
    hide Mult, OnCurve, Associative, Exponent, Good, Val, Encode32, IsTable;
    MultipleIsPoint(c, k);
    ModSmall(k, c.n);
    P := fast.Mul(k, c.n, c.p);
    GoodParts(P, c.p);
    x := FieldBytes(P.x, c.p);
    even := HasEvenY(P, c.p);
  }

  method SignSchnorr(c: Params, fast: FastGEMul, key: bytes, msg: bytes, aux: bytes, flipP: bool, flipR: bool)
    returns (r: Signed)
    requires GoodParams(c) && IsFastG(c, fast) && |key| == 32
    ensures r == Sign(c, key, msg, aux, flipP, flipR)
  {
    hide Mult, OnCurve, Associative, Exponent, IsPrime, NonceFor, Challenge, Encode32, IsFastG, XOnly, IsEvenPoint,
         FromBE, Pow;
    var sec := Decode32(key);
    if sec == 0 || sec >= c.n { return BadKey; }
    var P, px, pEven := PublicPoint(c, fast, sec);
    if pEven == flipP { sec := c.n - sec; }
    var kp := NonceFor(c, sec, px, msg, aux);
    if kp == 0 { return ZeroNonce; }
    var R, rx, rEven := PublicPoint(c, fast, kp);
    var k := if rEven != flipR then kp else c.n - kp;
    var e := Challenge(c, rx, px, msg);
    r := Signature(rx + Encode32((k + e * sec) % c.n));
  }

  lemma GoodParts(g: GE, p: nat)
    requires p > 0 && Good(g, p)
    ensures OnCurve(Abs(g, p), p)
    ensures g.GPoint? ==> Proper(g.x, p) && Proper(g.y, p)
    ensures g.GInf? <==> Abs(g, p) == Infinity
  {}

  method VerifySchnorr(c: Params, g: GE, key: bytes, sig: bytes, msg: bytes) returns (ok: bool)
    requires GoodParams(c) && Good(g, c.p) && Abs(g, c.p) == c.G
    requires |key| == |msg| == 32 && |sig| == 64
    ensures ok == Verify(c, key, sig, msg)
  {
    hide Comb, Sum, OnCurve, Associative, Exponent, IsPrime, Good, Val, Challenge, LiftX, Make, FromBE, Pow;
    var x := FromBE(key);
    if x >= c.p { return false; }
    ModSmall(x, c.p);
    var P := LiftGE(OfInt(x, c.p), c.p);
    if P.None? { return false; }
    var r, s := FromBE(sig[..32]), FromBE(sig[32..]);
    if r >= c.p || s >= c.n { return false; }
    var e := Challenge(c, sig[..32], key, msg);
    var R := ScalarMul.Mul([s, 0 - e], [g, P.value], c.n, c.p);
    assert Reduce([s, 0 - e], c.n) == [s % c.n, (0 - e) % c.n];
    assert AbsAll([g, P.value], c.p) == [c.G, Abs(P.value, c.p)];
    GoodParts(R, c.p);
    if R.GInf? || !HasEvenY(R, c.p) { return false; }
    EqIntIff(R.x, r, c.p);
    ok := EqInt(R.x, r, c.p);
  }
}
