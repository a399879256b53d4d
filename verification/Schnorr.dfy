/** BIP 340 signatures and key tweaking (key.py) on the curve: signing, verifying, and why every
    signature verifies. */
module Schnorr {
  import opened Bytes
  import opened Bits
  import opened Arith
  import opened Modular
  import opened Curve
  import opened FieldElement
  import opened Multiples
  import opened Tagged

  /** The field size, the group order, the generator and the hash. */
  datatype Params = Params(p: nat, n: nat, G: Point, tagged: TaggedHash)

  ghost predicate GoodParams(c: Params) {
    && Group(c.n, c.p) && c.p % 4 == 3 && c.p < U256
    && c.G.Affine? && OnCurve(c.G, c.p)
    && forall k :: 0 < k < c.n ==> Mult(k, c.G, c.p) != Infinity
  }

  // ---- secp256k1 itself

  const ORDER: nat := 0xFFFFFFFFFFFFFFFFFFFFFFFFFFFFFFFEBAAEDCE6AF48A03BBFD25E8CD0364141
  const GENERATOR_X: nat := 0x79BE667EF9DCBBAC55A06295CE870B07029BFCDB2DCE28D959F2815B16F81798
  const GENERATOR_Y: nat := 0x483ADA7726A3C4655DA4FBFC0E1108A8FD17B448A68554199C47D08FFB10D4B8

  /** What is not a hypothesis about secp256k1 can be computed: the generator is on the curve with
      an even y coordinate, and the sizes are as required. */
  lemma GeneratorOnCurve()
    ensures OnCurve(Affine(GENERATOR_X, GENERATOR_Y), FE_SIZE) && GENERATOR_Y % 2 == 0
    ensures FE_SIZE % 4 == 3 && FE_SIZE < U256
    ensures ORDER % 2 == 1 && 1 < ORDER < U256
  {
    var d := GENERATOR_Y * GENERATOR_Y - (GENERATOR_X * GENERATOR_X * GENERATOR_X + 7);
    var q := d / FE_SIZE;
    assert d == q * FE_SIZE;
  }

  const DOUBLED_X: nat := 0xC6047F9441ED7D6D3045406E95C07CD85C778E4B8CEF3CA7ABAC09B95C709EE5
  const DOUBLED_Y: nat := 0x1AE168FEA63DC339A3C58419466CEAEEF7F632653266D0E1236431A950CFE52A

  /** The published double of the generator satisfies the tangent law at the generator. */
  lemma GeneratorDoubled()
    requires IsPrime(FE_SIZE)
    ensures var G := Affine(GENERATOR_X, GENERATOR_Y); Add(G, G, FE_SIZE) == Affine(DOUBLED_X, DOUBLED_Y)
  {
    hide IsPrime, Add;
    GeneratorOnCurve();
    var G, R := Affine(GENERATOR_X, GENERATOR_Y), Affine(DOUBLED_X, DOUBLED_Y);
    AddIff(G, G, R, FE_SIZE);
    assert OppositeThird(R, G, G, FE_SIZE);
  }

  // ---- 32-byte encodings

  /** `x.to_bytes(32, 'big')` */
  function Encode32(x: nat): (r: bytes)
    requires x < U256
    ensures |r| == 32 && FromBE(r) == x
  {
    Pow256At32();
    BE(x, 32)
  }

  function Decode32(s: bytes): (x: nat)
    requires |s| == 32
    ensures x < U256
  {
    Pow256At32();
    FromBE(s)
  }

  // ---- Points with even y

  function EvenY(P: Point, p: nat): Point
    requires p > 0
  {
    if P.Affine? && P.y % 2 != 0 then Neg(P, p) else P
  }

  lemma NegParity(P: Point, n: nat, p: nat)
    requires Group(n, p) && p % 2 == 1 && OnCurve(P, p) && P.Affine?
    ensures var N := Neg(P, p);
      N.Affine? && N.x == P.x && N.y == p - P.y && (N.y % 2 == 0 <==> P.y % 2 != 0)
  {
    hide Zero, Group;
    GroupPositive(n, p);
    NoPointOfOrderTwo(P, n, p);
    ModNeg(P.y, p);
    OddComplement(P.y, p);
  }

  lemma OddComplement(y: int, p: nat)
    requires p % 2 == 1 && 0 < y < p
    ensures (p - y) % 2 == 0 <==> y % 2 != 0
  {}

  lemma ModNeg(y: int, p: nat)
    requires 0 < y < p
    ensures (-y) % p == p - y
  {
    DivModUnique(-y, p, -1, p - y);
  }

  lemma EvenYIsEven(P: Point, n: nat, p: nat)
    requires Group(n, p) && p % 2 == 1 && OnCurve(P, p) && P.Affine?
    ensures var E := EvenY(P, p); E.Affine? && OnCurve(E, p) && E.x == P.x && E.y % 2 == 0
  {
    NegParity(P, n, p);
    NegOnCurve(P, p);
  }

  /** The candidate for the square root of x^3 + 7. */
  function RootCandidate(x: nat, p: nat): (s: nat)
    requires p > 0
    ensures s < p
  {
    ModPow((ModPow(x, 3, p) + 7) % p, (p + 1) / 4, p)
  }

  /** `lift_x`: the point with the given x coordinate and even y, if there is one. */
  function LiftX(x: nat, p: nat): Option<Point>
    requires p > 0
  {
    var s := RootCandidate(x, p);
    if !Zero(s * s - (ModPow(x, 3, p) + 7) % p, p) then None
    else if s % 2 == 0 then Some(Affine(x, s)) else Some(Affine(x, (0 - s) % p))
  }

  lemma RootOfCurvePoint(P: Point, n: nat, p: nat)
    requires Group(n, p) && p % 4 == 3 && OnCurve(P, p) && P.Affine?
    ensures var s := RootCandidate(P.x, p);
      Zero(s * s - (ModPow(P.x, 3, p) + 7) % p, p) && (s == P.y || s == p - P.y)
  {
    hide Zero, ModPow;
    var x, y := P.x, P.y;
    CubePlusSeven(x, p);
    ZeroFlip(y * y, x * x * x + 7, p);
    ZeroChain((ModPow(x, 3, p) + 7) % p, x * x * x + 7, y * y, p);
    SquareRoot(y, (ModPow(x, 3, p) + 7) % p, p);
    NoPointOfOrderTwo(P, n, p);
    RootIsPlusOrMinus(RootCandidate(x, p), y, p);
  }

  /** Lifting the x coordinate of any curve point gives that point or its negation, the even one. */
  lemma LiftOfPoint(P: Point, n: nat, p: nat)
    requires Group(n, p) && p % 4 == 3 && OnCurve(P, p) && P.Affine?
    ensures LiftX(P.x, p) == Some(EvenY(P, p))
  {
    hide Zero, ModPow, RootCandidate, Associative, Exponent;
    RootOfCurvePoint(P, n, p);
    OddFieldSize(p);
    NegParity(P, n, p);
    NoPointOfOrderTwo(P, n, p);
    ModNeg(P.y, p);
    ModNeg(p - P.y, p);
  }

  lemma OddFieldSize(p: nat)
    requires p % 4 == 3
    ensures p % 2 == 1
  {}

  lemma CubePlusSeven(x: int, p: nat)
    requires p > 0
    ensures Zero((ModPow(x, 3, p) + 7) % p - (x * x * x + 7), p)
  {
    hide Zero;
    assert Pow(x, 3) == x * x * x by {
      assert Pow(x, 1) == x * Pow(x, 0);
      assert Pow(x, 2) == x * x;
      MulAssoc(x, x, x);
    }
    var c := ModPow(x, 3, p);
    ZeroMod(x * x * x, p);
    ZeroMod(c + 7, p);
    assert c + 7 - (x * x * x + 7) == c - x * x * x;
    ZeroChain((c + 7) % p, c + 7, x * x * x + 7, p);
  }

  lemma RootIsPlusOrMinus(s: nat, y: nat, p: nat)
    requires p > 0 && s < p && 0 < y < p && (Zero(s - y, p) || Zero(s + y, p))
    ensures s == y || s == p - y
  {
    if Zero(s - y, p) {
      if s != y { DistinctNotZero(s, y, p); }
    } else {
      assert s + y - p == s - (p - y);
      ZeroMultiple(1, p);
      ZeroAdd(s + y, 1 * p, p);
      if s != p - y { DistinctNotZero(s, p - y, p); }
    }
  }

  // ---- Signing and verifying

  datatype Signed = BadKey | ZeroNonce | Signature(sig: bytes)

  function IsEvenPoint(P: Point): bool {
    P.Affine? && P.y % 2 == 0
  }

  function XOnly(P: Point, p: nat): (r: bytes)
    requires 0 < p < U256 && P.Affine? && OnCurve(P, p)
    ensures |r| == 32 && FromBE(r) == P.x
  {
    Encode32(P.x)
  }

  /** Every nonzero multiple of the generator below the order is a curve point. */
  lemma MultipleIsPoint(c: Params, k: nat)
    requires GoodParams(c) && 0 < k < c.n
    ensures Mult(k, c.G, c.p).Affine? && OnCurve(Mult(k, c.G, c.p), c.p)
  {
    MultOnCurve(k, c.G, c.p);
  }

  function Challenge(c: Params, r: bytes, key: bytes, msg: bytes): nat
    requires c.n > 0
  {
    FromBE(c.tagged("BIP0340/challenge", r + key + msg)) % c.n
  }

  /** The nonce before its sign is chosen. */
  function NonceFor(c: Params, sec: nat, key: bytes, msg: bytes, aux: bytes): (r: nat)
    requires 0 < c.n && sec < U256
    ensures r < c.n
  {
    var mask := Decode32(c.tagged("BIP0340/aux", aux));
    Pow256At32();
    XorFits(sec, mask);
    FromBE(c.tagged("BIP0340/nonce", Encode32(Xor(sec, mask)) + key + msg)) % c.n
  }

  lemma XorFits(a: nat, b: nat)
    requires a < U256 && b < U256
    ensures Xor(a, b) < U256
  {
    hide Pow;
    Pow2At256();
    XorBound(a, b, 256);
  }

  /** The nonce hashes the secret, masked by the hash of the auxiliary data, the public key and the message, all of
      which its input determines. */
  lemma NonceInput(c: Params, sec: nat, key: bytes, msg: bytes, aux: bytes) returns (x: bytes)
    requires 0 < c.n && sec < U256 && |key| == 32
    ensures NonceFor(c, sec, key, msg, aux) == FromBE(c.tagged("BIP0340/nonce", x)) % c.n
    ensures |x| >= 64 && x[32..64] == key && x[64..] == msg
    ensures Xor(FromBE(x[..32]), FromBE(c.tagged("BIP0340/aux", aux))) == sec
  {
    hide Xor, FromBE, Encode32;
    var mask := Decode32(c.tagged("BIP0340/aux", aux));
    XorFits(sec, mask);
    XorCancel(sec, mask);
    x := Encode32(Xor(sec, mask)) + key + msg;
    assert x[..32] == Encode32(Xor(sec, mask));
  }

  /** `sign_schnorr` */
  function Sign(c: Params, key: bytes, msg: bytes, aux: bytes, flipP: bool, flipR: bool): (r: Signed)
    requires GoodParams(c) && |key| == 32
    ensures r.Signature? ==> |r.sig| == 64
  {
    var sec0 := Decode32(key);
    if sec0 == 0 || sec0 >= c.n then BadKey
    else
      MultipleIsPoint(c, sec0);
      var P := Mult(sec0, c.G, c.p);
      var px := XOnly(P, c.p);
      var sec := if IsEvenPoint(P) == flipP then c.n - sec0 else sec0;
      var kp := NonceFor(c, sec, px, msg, aux);
      if kp == 0 then ZeroNonce
      else
        MultipleIsPoint(c, kp);
        var R := Mult(kp, c.G, c.p);
        var rx := XOnly(R, c.p);
        var k := if IsEvenPoint(R) != flipR then kp else c.n - kp;
        var e := Challenge(c, rx, px, msg);
        Signature(rx + Encode32((k + e * sec) % c.n))
  }

  /** `compute_xonly_pubkey`: the x-only key and whether it was negated. */
  function ComputeXOnly(c: Params, key: bytes): (r: Option<(bytes, bool)>)
    requires GoodParams(c) && |key| == 32
    ensures r.Some? ==> |r.value.0| == 32
  {
    var x := Decode32(key);
    if x == 0 || x >= c.n then None
    else
      MultipleIsPoint(c, x);
      var P := Mult(x, c.G, c.p);
      Some((XOnly(P, c.p), !IsEvenPoint(P)))
  }

  /** `from_bytes_xonly` */
  function FromXOnly(key: bytes, p: nat): Option<Point>
    requires |key| == 32 && p > 0
  {
    var x := FromBE(key);
    if x >= p then None else LiftX(x, p)
  }

  /** `verify_schnorr` */
  function Verify(c: Params, key: bytes, sig: bytes, msg: bytes): bool
    requires c.n > 0 && c.p > 0 && |key| == 32 && |sig| == 64
  {
    var P := FromXOnly(key, c.p);
    if P.None? then false
    else
      var r, s := FromBE(sig[..32]), FromBE(sig[32..]);
      if r >= c.p || s >= c.n then false
      else
        var e := Challenge(c, sig[..32], key, msg);
        var R := Comb([s % c.n, (0 - e) % c.n], [c.G, P.value], c.p);
        R.Affine? && R.y % 2 == 0 && r == R.x
  }

  // ---- Every signature verifies

  /** n - k times the generator is the negation of k times the generator; so choosing between a
      scalar and its complement chooses the sign of the point. */
  lemma EvenScalar(c: Params, k: nat)
    requires GoodParams(c) && 0 < k < c.n
    ensures var P := Mult(k, c.G, c.p);
      Mult(if IsEvenPoint(P) then k else c.n - k, c.G, c.p) == EvenY(P, c.p)
  {
    hide Mult, OnCurve, Neg;
    MultipleIsPoint(c, k);
    MultComplement(k, c.G, c.n, c.p);
  }

  lemma CancelSummand(K: Point, E: Point, n: nat, p: nat)
    requires Group(n, p) && OnCurve(K, p) && OnCurve(E, p)
    ensures Add(Add(K, E, p), Neg(E, p), p) == K
  {
    hide Add, OnCurve, Associative, Exponent, Neg;
    NegOnCurve(E, p);
    Assoc(K, E, Neg(E, p), n, p);
    AddInfinity(K, p);
  }

  lemma SumScalar(c: Params, k: nat, d: nat, e: nat)
    requires GoodParams(c)
    ensures k + e * d >= 0
    ensures Mult((k + e * d) % c.n, c.G, c.p) == Add(Mult(k, c.G, c.p), Mult(e, Mult(d, c.G, c.p), c.p), c.p)
  {
    hide Add, Mult, OnCurve, Associative, Exponent;
    MultMult(e, d, c.G, c.n, c.p);
    MultAdd(k, e * d, c.G, c.n, c.p);
    MultMod(k + e * d, c.G, c.n, c.p);
  }

  /** s*G + (-e)*Q == K whenever s is congruent to k + e*d, K = k*G and Q = d*G. */
  lemma VerificationEquation(c: Params, k: nat, d: nat, e: nat)
    requires GoodParams(c) && e < c.n
    ensures k + e * d >= 0
    ensures Comb([(k + e * d) % c.n, (0 - e) % c.n], [c.G, Mult(d, c.G, c.p)], c.p) == Mult(k, c.G, c.p)
  {
    hide Add, Mult, OnCurve, Group, Neg, Comb;
    GroupPositive(c.n, c.p);
    var K, Q := Mult(k, c.G, c.p), Mult(d, c.G, c.p);
    MultOnCurve(k, c.G, c.p);
    MultOnCurve(d, c.G, c.p);
    MultOnCurve(e, Q, c.p);
    SumScalar(c, k, d, e);
    NegatedScalar(e, Q, c.n, c.p);
    CombOfTwo((k + e * d) % c.n, (0 - e) % c.n, c.G, Q, c.p);
    CancelSummand(K, Mult(e, Q, c.p), c.n, c.p);
  }

  lemma NegatedScalar(e: nat, Q: Point, n: nat, p: nat)
    requires Group(n, p) && OnCurve(Q, p)
    ensures Mult((0 - e) % n, Q, p) == Neg(Mult(e, Q, p), p)
  {
    hide Group, OnCurve, Mult, Neg, Multiple;
    GroupPositive(n, p);
    MultipleMod(0 - e, Q, n, p);
    NegativeMultiple(e, Q, p);
  }

  lemma NegativeMultiple(e: nat, Q: Point, p: nat)
    requires p > 0
    ensures Multiple(0 - e, Q, p) == Neg(Mult(e, Q, p), p)
  {}

  lemma CombOfTwo(s: nat, f: nat, P: Point, Q: Point, p: nat)
    requires p > 0
    ensures Comb([s, f], [P, Q], p) == Add(Mult(s, P, p), Mult(f, Q, p), p)
  {
    hide Mult;
    AddInfinity(Mult(f, Q, p), p);
    assert [s, f][1..] == [f] && [P, Q][1..] == [Q];
    assert [f][1..] == [] && [Q][1..] == [];
    assert Comb([f], [Q], p) == Add(Mult(f, Q, p), Comb([], [], p), p);
  }

  /** `verify_schnorr` accepts whatever satisfies the equation with the even points. */
  lemma VerifyAccepts(c: Params, P: Point, R: Point, s: nat, msg: bytes)
    requires GoodParams(c) && P.Affine? && R.Affine? && OnCurve(P, c.p) && OnCurve(R, c.p) && s < c.n
    requires var e := Challenge(c, XOnly(R, c.p), XOnly(P, c.p), msg);
      Comb([s, (0 - e) % c.n], [c.G, EvenY(P, c.p)], c.p) == EvenY(R, c.p)
    ensures s < U256 && Verify(c, XOnly(P, c.p), XOnly(R, c.p) + Encode32(s), msg)
  {
    hide Mult, Comb, OnCurve, Associative, Exponent, LiftX, Challenge, Encode32, EvenY;
    var sig := XOnly(R, c.p) + Encode32(s);
    assert sig[..32] == XOnly(R, c.p) && sig[32..] == Encode32(s);
    LiftOfPoint(P, c.n, c.p);
    OddFieldSize(c.p);
    EvenYIsEven(R, c.n, c.p);
    PointInRange(P, c.p);
    PointInRange(R, c.p);
    ModSmall(s, c.n);
  }

  /** The secret that signs: the one whose point has even y. */
  function EvenSecret(c: Params, k: nat): (r: nat)
    requires GoodParams(c) && 0 < k < c.n
    ensures 0 < r < c.n
  {
    if IsEvenPoint(Mult(k, c.G, c.p)) then k else c.n - k
  }

  /** Whatever the key, message and auxiliary data, and whatever the parities of the public key and
      the nonce point: a signature made without flips verifies under the x-only public key. */
  lemma SignatureVerifies(c: Params, key: bytes, msg: bytes, aux: bytes)
    requires GoodParams(c) && |key| == 32
    requires Sign(c, key, msg, aux, false, false).Signature?
    ensures ComputeXOnly(c, key).Some?
    ensures Verify(c, ComputeXOnly(c, key).value.0, Sign(c, key, msg, aux, false, false).sig, msg)
  {
    hide Mult, Comb, OnCurve, Associative, Exponent, NonceFor, Challenge, Encode32, Verify, EvenY, XOnly;
    var sec0 := Decode32(key);
    MultipleIsPoint(c, sec0);
    var P := Mult(sec0, c.G, c.p);
    var d := EvenSecret(c, sec0);
    EvenScalar(c, sec0);
    var kp := NonceFor(c, d, XOnly(P, c.p), msg, aux);
    MultipleIsPoint(c, kp);
    var R := Mult(kp, c.G, c.p);
    var k := EvenSecret(c, kp);
    EvenScalar(c, kp);
    var e := Challenge(c, XOnly(R, c.p), XOnly(P, c.p), msg);
    ChallengeBound(c, XOnly(R, c.p), XOnly(P, c.p), msg);
    VerificationEquation(c, k, d, e);
    VerifyAccepts(c, P, R, (k + e * d) % c.n, msg);
  }

  lemma ChallengeBound(c: Params, r: bytes, key: bytes, msg: bytes)
    requires c.n > 0
    ensures Challenge(c, r, key, msg) < c.n
  {}

  lemma PointInRange(P: Point, p: nat)
    requires p > 0 && OnCurve(P, p) && P.Affine?
    ensures 0 <= P.x < p && 0 <= P.y < p
  {}

  // ---- What verification accepts

  /** The curve point with the given x coordinate and even y. */
  ghost predicate EvenPointAt(P: Point, x: nat, p: nat)
    requires p > 0
  {
    P.Affine? && OnCurve(P, p) && P.x == x && P.y % 2 == 0
  }

  /** Lifting finds the even curve point with that x coordinate, and fails exactly when there is none. */
  lemma LiftIff(x: nat, P: Point, n: nat, p: nat)
    requires Group(n, p) && p % 4 == 3 && x < p
    ensures LiftX(x, p) == Some(P) <==> EvenPointAt(P, x, p)
  {
    hide Zero, ModPow, RootCandidate, Associative, Exponent;
    OddFieldSize(p);
    if LiftX(x, p) == Some(P) {
      LiftedOnCurve(x, p);
      var S := Affine(x, RootCandidate(x, p));
      NegParity(S, n, p);
      NegOnCurve(S, p);
    } else if EvenPointAt(P, x, p) {
      LiftOfPoint(P, n, p);
    }
  }

  lemma LiftedOnCurve(x: nat, p: nat)
    requires p > 0 && x < p && LiftX(x, p).Some?
    ensures OnCurve(Affine(x, RootCandidate(x, p)), p)
  {
    hide Zero, ModPow, RootCandidate;
    var s := RootCandidate(x, p);
    CubePlusSeven(x, p);
    ZeroChain(s * s, (ModPow(x, 3, p) + 7) % p, x * x * x + 7, p);
  }

  /** Subtracting a point and adding it are inverse. */
  lemma DifferenceIff(A: Point, E: Point, R: Point, n: nat, p: nat)
    requires Group(n, p) && OnCurve(A, p) && OnCurve(E, p) && OnCurve(R, p)
    ensures R == Add(A, Neg(E, p), p) <==> A == Add(R, E, p)
  {
    hide Add, OnCurve, Associative, Exponent, Neg;
    NegOnCurve(E, p);
    CancelSummand(R, E, n, p);
    Assoc(A, Neg(E, p), E, n, p);
    AddCommutes(E, Neg(E, p), p);
    AddInfinity(A, p);
  }

  /** s*G == R + e*P for even points with the x coordinates of the key and of the signature's first half. */
  ghost predicate EquationHolds(c: Params, P: Point, R: Point, key: bytes, sig: bytes, msg: bytes)
    requires c.n > 0 && c.p > 0 && |key| == 32 && |sig| == 64
  {
    && EvenPointAt(P, FromBE(key), c.p) && EvenPointAt(R, FromBE(sig[..32]), c.p)
    && var e := FromBE(c.tagged("BIP0340/challenge", sig[..32] + key + msg)) % c.n;
       Mult(FromBE(sig[32..]), c.G, c.p) == Add(R, Mult(e, P, c.p), c.p)
  }

  /** Exactly what `verify_schnorr` accepts: s below the order and the signature equation of BIP 340. */
  lemma VerifyIff(c: Params, key: bytes, sig: bytes, msg: bytes)
    requires GoodParams(c) && |key| == 32 && |sig| == 64
    ensures Verify(c, key, sig, msg)
       <==> FromBE(sig[32..]) < c.n && exists P, R :: EquationHolds(c, P, R, key, sig, msg)
  {
    hide *;
    ParamsGroup(c);
    if Verify(c, key, sig, msg) {
      var P, R := VerifiedEquation(c, key, sig, msg);
      assert EquationHolds(c, P, R, key, sig, msg);
    }
    if FromBE(sig[32..]) < c.n && exists P, R :: EquationHolds(c, P, R, key, sig, msg) {
      var P, R :| EquationHolds(c, P, R, key, sig, msg);
      EquationVerifies(c, P, R, key, sig, msg);
    }
  }

  lemma ParamsGroup(c: Params)
    requires GoodParams(c)
    ensures Group(c.n, c.p) && c.n > 1 && c.p > 3 && c.p % 4 == 3 && IsPrime(c.p) && OnCurve(c.G, c.p)
  {}

  /** The point the verifier computes is the difference of the two multiples. */
  lemma VerifiersDifference(c: Params, P: Point, R: Point, s: nat, e: nat)
    requires GoodParams(c) && OnCurve(P, c.p) && s < c.n && e < c.n
    ensures var C := Comb([s % c.n, (0 - e) % c.n], [c.G, P], c.p);
      OnCurve(C, c.p) && (OnCurve(R, c.p) ==> (C == R <==> Mult(s, c.G, c.p) == Add(R, Mult(e, P, c.p), c.p)))
  {
    hide *;
    ParamsGroup(c);
    ModSmall(s, c.n);
    var A, E := Mult(s, c.G, c.p), Mult(e, P, c.p);
    MultOnCurve(s, c.G, c.p);
    MultOnCurve(e, P, c.p);
    NegatedScalar(e, P, c.n, c.p);
    CombOfTwo(s, (0 - e) % c.n, c.G, P, c.p);
    NegOnCurve(E, c.p);
    Assoc(A, Neg(E, c.p), c.G, c.n, c.p);
    if OnCurve(R, c.p) { DifferenceIff(A, E, R, c.n, c.p); }
  }

  lemma VerifiedEquation(c: Params, key: bytes, sig: bytes, msg: bytes) returns (P: Point, R: Point)
    requires GoodParams(c) && |key| == 32 && |sig| == 64 && Verify(c, key, sig, msg)
    ensures FromBE(sig[32..]) < c.n && EquationHolds(c, P, R, key, sig, msg)
  {
    hide OnCurve, Group, Mult, Add, Comb, LiftX, FromBE;
    var s, e := FromBE(sig[32..]), Challenge(c, sig[..32], key, msg);
    P := FromXOnly(key, c.p).value;
    LiftIff(FromBE(key), P, c.n, c.p);
    R := Comb([s % c.n, (0 - e) % c.n], [c.G, P], c.p);
    VerifiersDifference(c, P, R, s, e);
  }

  lemma EquationVerifies(c: Params, P: Point, R: Point, key: bytes, sig: bytes, msg: bytes)
    requires GoodParams(c) && |key| == 32 && |sig| == 64
    requires FromBE(sig[32..]) < c.n && EquationHolds(c, P, R, key, sig, msg)
    ensures Verify(c, key, sig, msg)
  {
    hide OnCurve, Group, Mult, Add, Comb, LiftX, FromBE;
    PointInRange(P, c.p);
    PointInRange(R, c.p);
    LiftIff(FromBE(key), P, c.n, c.p);
    VerifiersDifference(c, P, R, FromBE(sig[32..]), Challenge(c, sig[..32], key, msg));
  }

  /** Different scalars below the order have different multiples of the generator. */
  lemma MultiplesDiffer(c: Params, a: nat, b: nat)
    requires GoodParams(c) && b < a < c.n
    ensures Mult(a, c.G, c.p) != Mult(b, c.G, c.p)
  {
    hide Add, Mult, OnCurve, Associative, Exponent, Neg;
    var D, B := Mult(a - b, c.G, c.p), Mult(b, c.G, c.p);
    MultOnCurve(b, c.G, c.p);
    MultOnCurve(a - b, c.G, c.p);
    MultAdd(a - b, b, c.G, c.n, c.p);
    CancelSummand(D, B, c.n, c.p);
    NegOnCurve(B, c.p);
  }

  /** For a key d*G and a nonce point k*G, both even, exactly one s below the order is accepted for a message:
      k + e*d. */
  lemma ScalarVerifiesIff(c: Params, k: nat, d: nat, s: nat, msg: bytes)
    requires GoodParams(c) && s < c.n
    requires IsEvenPoint(Mult(k, c.G, c.p)) && IsEvenPoint(Mult(d, c.G, c.p))
    ensures OnCurve(Mult(k, c.G, c.p), c.p) && OnCurve(Mult(d, c.G, c.p), c.p) && s < U256
    ensures var rx, px := XOnly(Mult(k, c.G, c.p), c.p), XOnly(Mult(d, c.G, c.p), c.p);
      && k + Challenge(c, rx, px, msg) * d >= 0
      && (Verify(c, px, rx + Encode32(s), msg) <==> s == (k + Challenge(c, rx, px, msg) * d) % c.n)
  {
    hide Mult, Comb, OnCurve, Group, Challenge, Encode32, Add, LiftX;
    var K, P := Mult(k, c.G, c.p), Mult(d, c.G, c.p);
    ParamsGroup(c);
    MultOnCurve(k, c.G, c.p);
    MultOnCurve(d, c.G, c.p);
    var rx, px := XOnly(K, c.p), XOnly(P, c.p);
    var e := Challenge(c, rx, px, msg);
    ChallengeBound(c, rx, px, msg);
    SumScalar(c, k, d, e);
    var t := (k + e * d) % c.n;
    if s < t { MultiplesDiffer(c, t, s); } else if t < s { MultiplesDiffer(c, s, t); }
    SameMultipleVerifies(c, K, P, s, msg);
  }

  /** For given even points, acceptance is the equation between them. */
  lemma SameMultipleVerifies(c: Params, K: Point, P: Point, s: nat, msg: bytes)
    requires GoodParams(c) && s < c.n && OnCurve(K, c.p) && OnCurve(P, c.p) && IsEvenPoint(K) && IsEvenPoint(P)
    ensures s < U256
    ensures var rx, px := XOnly(K, c.p), XOnly(P, c.p);
      Verify(c, px, rx + Encode32(s), msg)
      <==> Mult(s, c.G, c.p) == Add(K, Mult(Challenge(c, rx, px, msg), P, c.p), c.p)
  {
    hide Mult, Comb, OnCurve, Group, Challenge, Encode32, Add, LiftX;
    ParamsGroup(c);
    var rx, px := XOnly(K, c.p), XOnly(P, c.p);
    var e := Challenge(c, rx, px, msg);
    ChallengeBound(c, rx, px, msg);
    var sig := rx + Encode32(s);
    assert sig[..32] == rx && sig[32..] == Encode32(s);
    PointInRange(P, c.p);
    PointInRange(K, c.p);
    LiftIff(P.x, P, c.n, c.p);
    VerifiersDifference(c, P, K, s, e);
    var R := Comb([s % c.n, (0 - e) % c.n], [c.G, P], c.p);
    if R.Affine? {
      LiftIff(K.x, K, c.n, c.p);
      if R.x == K.x { LiftIff(K.x, R, c.n, c.p); }
    }
  }

  lemma TwiceZero(x: int, n: nat)
    requires IsPrime(n) && n > 2 && Zero(2 * x, n)
    ensures Zero(x, n)
  {
    hide Zero;
    SmallNotZero(2, n);
    EuclidLemma(2, x, n);
  }

  /** The scalar of a signature with flips against the one verification expects. */
  lemma FlippedScalarIff(k: nat, d: nat, e: nat, flipP: bool, flipR: bool, n: nat)
    requires IsPrime(n) && n > 2 && 0 < k < n && 0 < d < n && e < n
    ensures var s := ((if flipR then n - k else k) + e * (if flipP then n - d else d)) % n;
      s == (k + e * d) % n <==> if flipR then flipP && s == 0 else !flipP || e == 0
  {
    hide Zero, IsPrime;
    var t := k + e * d;
    var u := (if flipR then n - k else k) + e * (if flipP then n - d else d);
    MulSub(n, d, e);
    if u % n == t % n { ModCong(u, t, n); }
    SmallNotZero(k, n);
    SmallNotZero(d, n);
    ZeroMultiple(e, n);
    ZeroMultiple(1, n);
    if flipR && flipP {
      assert u == (1 * n + e * n) - t;
      ZeroAdd(1 * n, e * n, n);
      ComplementedSumIff(t, u, 1 * n + e * n, n);
    } else if flipR {
      assert u - t == 1 * n - 2 * k;
      if u % n == t % n {
        ZeroAdd(1 * n, u - t, n);
        TwiceZero(k, n);
      }
    } else if flipP {
      assert u - t == e * n - 2 * (e * d);
      if u % n == t % n {
        ZeroAdd(e * n, u - t, n);
        TwiceZero(e * d, n);
        EuclidLemma(e, d, n);
        if e != 0 { SmallNotZero(e, n); }
      }
    }
  }

  /** -t is t modulo an odd prime only if it is zero. */
  lemma ComplementedSumIff(t: int, u: int, w: int, n: nat)
    requires IsPrime(n) && n > 2 && u == w - t && Zero(w, n)
    ensures u % n == t % n <==> u % n == 0
  {
    hide Zero, IsPrime;
    if u % n == t % n {
      ModCong(u, t, n);
      ZeroAdd(w, u - t, n);
      assert w - (u - t) == 2 * t;
      TwiceZero(t, n);
      ZeroAdd(w, t, n);
      ResidueOfZero(u, n);
    }
    if u % n == 0 {
      ZeroOfResidue(u, n);
      ZeroAdd(w, u, n);
      ResidueOfZero(t, n);
    }
  }

  lemma ResidueOfZero(x: int, n: nat)
    requires n > 0 && Zero(x, n)
    ensures x % n == 0
  {}

  lemma ZeroOfResidue(x: int, n: nat)
    requires n > 0 && x % n == 0
    ensures Zero(x, n)
  {}

  /** What the two flips of `sign_schnorr`, made for tests, do: with the public key flipped a signature
      verifies only for a zero challenge, with the nonce point flipped never, and with both only if s is zero. */
  lemma FlippedVerifiesIff(c: Params, key: bytes, msg: bytes, aux: bytes, flipP: bool, flipR: bool)
    requires GoodParams(c) && IsPrime(c.n) && |key| == 32
    requires Sign(c, key, msg, aux, flipP, flipR).Signature?
    ensures ComputeXOnly(c, key).Some?
    ensures var px, sig := ComputeXOnly(c, key).value.0, Sign(c, key, msg, aux, flipP, flipR).sig;
      Verify(c, px, sig, msg)
      <==> if flipR then flipP && FromBE(sig[32..]) == 0 else !flipP || Challenge(c, sig[..32], px, msg) == 0
  {
    hide Mult, Comb, OnCurve, Group, NonceFor, Challenge, Encode32, Verify, EvenY, IsPrime, FromBE, IsEvenPoint;
    var sec0 := Decode32(key);
    var px, d := XOnlyOfEven(c, sec0);
    var sec := if IsEvenPoint(Mult(sec0, c.G, c.p)) == flipP then c.n - sec0 else sec0;
    assert sec == if flipP then c.n - d else d;
    OddOrderSize(c);
    var kp := NonceFor(c, sec, px, msg, aux);
    var rx, k := XOnlyOfEven(c, kp);
    var e := Challenge(c, rx, px, msg);
    ChallengeBound(c, rx, px, msg);
    FlippedScalarIff(k, d, e, flipP, flipR, c.n);
    var s := ((if flipR then c.n - k else k) + e * sec) % c.n;
    ScalarVerifiesIff(c, k, d, s, msg);
    var sig := Sign(c, key, msg, aux, flipP, flipR).sig;
    assert sig == rx + Encode32(s);
    assert sig[..32] == rx && sig[32..] == Encode32(s);
  }

  lemma OddOrderSize(c: Params)
    requires GoodParams(c)
    ensures 2 < c.n < U256
  {
    hide Associative, Exponent, OnCurve, IsPrime, Mult;
  }

  /** A multiple of the generator and the even one of it and its negation have the same x-only encoding. */
  lemma XOnlyOfEven(c: Params, x: nat) returns (px: bytes, d: nat)
    requires GoodParams(c) && 0 < x < c.n
    ensures Mult(x, c.G, c.p).Affine? && OnCurve(Mult(x, c.G, c.p), c.p)
    ensures px == XOnly(Mult(x, c.G, c.p), c.p)
    ensures 0 < d < c.n && d == if IsEvenPoint(Mult(x, c.G, c.p)) then x else c.n - x
    ensures IsEvenPoint(Mult(d, c.G, c.p)) && OnCurve(Mult(d, c.G, c.p), c.p)
    ensures px == XOnly(Mult(d, c.G, c.p), c.p)
  {
    hide Mult, OnCurve, Group, Encode32;
    MultipleIsPoint(c, x);
    px := XOnly(Mult(x, c.G, c.p), c.p);
    d := EvenSecret(c, x);
    ParamsGroup(c);
    EvenScalar(c, x);
    OddFieldSize(c.p);
    EvenYIsEven(Mult(x, c.G, c.p), c.n, c.p);
  }

  // ---- Tweaking

  /** `tweak_add_privkey` */
  function TweakPriv(c: Params, key: bytes, tweak: bytes): (r: Option<bytes>)
    requires GoodParams(c) && |key| == |tweak| == 32
    ensures r.Some? ==> |r.value| == 32
  {
    var x0, t := Decode32(key), Decode32(tweak);
    if x0 == 0 || x0 >= c.n then None
    else
      var x := if IsEvenPoint(Mult(x0, c.G, c.p)) then x0 else c.n - x0;
      if t >= c.n || (x + t) % c.n == 0 then None else Some(Encode32((x + t) % c.n))
  }

  /** `tweak_add_pubkey` */
  function TweakPub(c: Params, key: bytes, tweak: bytes): (r: Option<(bytes, bool)>)
    requires GoodParams(c) && |key| == |tweak| == 32
    ensures r.Some? ==> |r.value.0| == 32
  {
    var P := FromXOnly(key, c.p);
    if P.None? then None
    else
      var t := FromBE(tweak);
      if t >= c.n then None
      else
        TweakedKey(c, Add(Mult(t % c.n, c.G, c.p), P.value, c.p))
  }

  /** The encoding of a tweaked point; None for infinity. */
  function TweakedKey(c: Params, Q: Point): (r: Option<(bytes, bool)>)
    requires c.p < U256
    ensures r.Some? ==> |r.value.0| == 32
  {
    if Q.Affine? && 0 <= Q.x < c.p then Some((Encode32(Q.x), !IsEvenPoint(Q))) else None
  }

  /** t*G + x*G, where x*G is the even point of the key, is the point of (x + t) mod n. */
  lemma TweakedPoint(c: Params, x: nat, t: nat)
    requires GoodParams(c) && t < c.n
    ensures Add(Mult(t % c.n, c.G, c.p), Mult(x, c.G, c.p), c.p) == Mult((x + t) % c.n, c.G, c.p)
  {
    hide Add, Mult, OnCurve, Associative, Exponent;
    ModSmall(t, c.n);
    MultAdd(t, x, c.G, c.n, c.p);
    MultMod(x + t, c.G, c.n, c.p);
  }

  /** The public tweak of a lifted key, in terms of the point it lifts to. */
  lemma TweakPubOf(c: Params, P: Point, tweak: bytes)
    requires GoodParams(c) && P.Affine? && OnCurve(P, c.p) && |tweak| == 32
    ensures TweakPub(c, XOnly(P, c.p), tweak)
         == if FromBE(tweak) >= c.n then None
            else TweakedKey(c, Add(Mult(FromBE(tweak) % c.n, c.G, c.p), EvenY(P, c.p), c.p))
  {
    hide Mult, OnCurve, Associative, Exponent, LiftX, Add, Encode32, EvenY;
    LiftOfPoint(P, c.n, c.p);
    PointInRange(P, c.p);
  }

  /** Tweaking the public key gives the public key of the tweaked private key, including the negation
      flag, and fails exactly when tweaking the private key does. */
  lemma TweaksAgree(c: Params, key: bytes, tweak: bytes)
    requires GoodParams(c) && |key| == |tweak| == 32
    requires ComputeXOnly(c, key).Some?
    ensures TweakPub(c, ComputeXOnly(c, key).value.0, tweak)
         == match TweakPriv(c, key, tweak)
            case None => None
            case Some(k) => ComputeXOnly(c, k)
  {
    hide Mult, OnCurve, Associative, Exponent, LiftX, Add, Encode32, TweakPub, EvenY;
    var x0, t := Decode32(key), Decode32(tweak);
    MultipleIsPoint(c, x0);
    TweakPubOf(c, Mult(x0, c.G, c.p), tweak);
    EvenScalar(c, x0);
    if t < c.n {
      var x := EvenSecret(c, x0);
      TweakedPoint(c, x, t);
      var y := (x + t) % c.n;
      MultOfZero(c.G, c.p);
      if y > 0 {
        MultipleIsPoint(c, y);
        PointInRange(Mult(y, c.G, c.p), c.p);
      }
    }
  }

  /** The output of a public tweak: the x coordinate of P + t*G and whether its y is odd. */
  ghost predicate IsTweaked(c: Params, P: Point, key: bytes, t: nat, q: bytes, odd: bool)
    requires c.p > 0
  {
    && EvenPointAt(P, FromBE(key), c.p)
    && var Q := Add(P, Mult(t, c.G, c.p), c.p);
       Q.Affine? && |q| == 32 && FromBE(q) == Q.x && odd == (Q.y % 2 != 0)
  }

  /** Exactly what `tweak_add_pubkey` returns. */
  lemma TweakPubIff(c: Params, key: bytes, tweak: bytes, q: bytes, odd: bool)
    requires GoodParams(c) && |key| == |tweak| == 32
    ensures TweakPub(c, key, tweak) == Some((q, odd))
       <==> FromBE(tweak) < c.n && exists P :: IsTweaked(c, P, key, FromBE(tweak), q, odd)
  {
    hide *;
    ParamsGroup(c);
    if TweakPub(c, key, tweak) == Some((q, odd)) {
      var P := TweakPubLaw(c, key, tweak);
      assert IsTweaked(c, P, key, FromBE(tweak), q, odd);
    }
    if FromBE(tweak) < c.n && exists P :: IsTweaked(c, P, key, FromBE(tweak), q, odd) {
      var P :| IsTweaked(c, P, key, FromBE(tweak), q, odd);
      TweakedIsReturned(c, P, key, tweak, q, odd);
    }
  }

  lemma TweakPubLaw(c: Params, key: bytes, tweak: bytes) returns (P: Point)
    requires GoodParams(c) && |key| == |tweak| == 32 && TweakPub(c, key, tweak).Some?
    ensures FromBE(tweak) < c.n
    ensures var r := TweakPub(c, key, tweak).value; IsTweaked(c, P, key, FromBE(tweak), r.0, r.1)
  {
    hide OnCurve, Group, Mult, Add, LiftX, FromBE;
    P := FromXOnly(key, c.p).value;
    LiftIff(FromBE(key), P, c.n, c.p);
    ModSmall(FromBE(tweak), c.n);
    AddCommutes(P, Mult(FromBE(tweak), c.G, c.p), c.p) by {
      ParamsGroup(c);
      MultOnCurve(FromBE(tweak), c.G, c.p);
    }
  }

  lemma TweakedIsReturned(c: Params, P: Point, key: bytes, tweak: bytes, q: bytes, odd: bool)
    requires GoodParams(c) && |key| == |tweak| == 32 && FromBE(tweak) < c.n
    requires IsTweaked(c, P, key, FromBE(tweak), q, odd)
    ensures TweakPub(c, key, tweak) == Some((q, odd))
  {
    hide OnCurve, Group, Mult, Add, LiftX, FromBE, Encode32;
    ParamsGroup(c);
    PointInRange(P, c.p);
    LiftIff(FromBE(key), P, c.n, c.p);
    ModSmall(FromBE(tweak), c.n);
    var T := Mult(FromBE(tweak), c.G, c.p);
    MultOnCurve(FromBE(tweak), c.G, c.p);
    AddCommutes(P, T, c.p);
    var Q := Add(P, T, c.p);
    Assoc(P, T, T, c.n, c.p);
    PointInRange(Q, c.p);
    SameEncoding(q, Q.x);
  }

  lemma SameEncoding(q: bytes, x: nat)
    requires |q| == 32 && FromBE(q) == x && x < U256
    ensures q == Encode32(x)
  {
    hide FromBE;
    FromBEInjective(q, Encode32(x));
  }

  /** Exactly what `tweak_add_privkey` returns: the nonzero scalar below the order whose point is the tweaked one. */
  lemma TweakPrivIff(c: Params, key: bytes, tweak: bytes, r: bytes)
    requires GoodParams(c) && |key| == |tweak| == |r| == 32
    ensures TweakPriv(c, key, tweak) == Some(r)
       <==> && 0 < FromBE(key) < c.n && FromBE(tweak) < c.n && 0 < FromBE(r) < c.n
            && Mult(FromBE(r), c.G, c.p)
               == Add(Mult(FromBE(tweak), c.G, c.p), EvenY(Mult(FromBE(key), c.G, c.p), c.p), c.p)
  {
    hide Mult, OnCurve, Group, Add, EvenY, FromBE, GoodParams;
    var x0, t, y := FromBE(key), FromBE(tweak), FromBE(r);
    ParamsGroup(c);
    if 0 < x0 < c.n && t < c.n {
      EvenScalar(c, x0);
      var x := EvenSecret(c, x0);
      TweakedPoint(c, x, t);
      ModSmall(t, c.n);
      TweakPrivIs(c, key, tweak, r, (x + t) % c.n);
      var z := (x + t) % c.n;
      if y < z { MultiplesDiffer(c, z, y); } else if z < y < c.n { MultiplesDiffer(c, y, z); }
    }
  }

  lemma TweakPrivIs(c: Params, key: bytes, tweak: bytes, r: bytes, z: nat)
    requires GoodParams(c) && |key| == |tweak| == |r| == 32 && 0 < FromBE(key) < c.n && FromBE(tweak) < c.n
    requires z == (EvenSecret(c, FromBE(key)) + FromBE(tweak)) % c.n
    ensures TweakPriv(c, key, tweak) == Some(r) <==> z > 0 && FromBE(r) == z
  {
    hide Mult, Group, OnCurve, FromBE, Encode32, IsEvenPoint;
    OddOrderSize(c);
    if FromBE(r) == z { SameEncoding(r, z); }
  }

  /** Exactly what `compute_xonly_pubkey` returns: the x coordinate of key*G and whether its y is odd. */
  lemma ComputeXOnlyIff(c: Params, key: bytes, q: bytes, odd: bool)
    requires GoodParams(c) && |key| == 32
    ensures ComputeXOnly(c, key) == Some((q, odd))
       <==> && 0 < FromBE(key) < c.n
            && var P := Mult(FromBE(key), c.G, c.p);
               P.Affine? && |q| == 32 && FromBE(q) == P.x && odd == (P.y % 2 != 0)
  {
    hide Mult, OnCurve, Group, FromBE, Encode32;
    ParamsGroup(c);
    var x := FromBE(key);
    if 0 < x < c.n {
      MultipleIsPoint(c, x);
      var P := Mult(x, c.G, c.p);
      PointInRange(P, c.p);
      if |q| == 32 && FromBE(q) == P.x { SameEncoding(q, P.x); }
    }
  }
}
