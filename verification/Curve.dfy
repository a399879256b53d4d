/** The curve y^2 = x^3 + 7 over the residues modulo a prime: chord-and-tangent addition. */
module Curve {
  import opened Arith
  import opened Modular

  datatype Point = Infinity | Affine(x: int, y: int)

  predicate OnCurve(P: Point, p: nat)
    requires p > 0
  {
    P.Affine? ==> 0 <= P.x < p && 0 <= P.y < p && Zero(P.y * P.y - (P.x * P.x * P.x + 7), p)
  }

  function ChordSlope(x1: int, y1: int, x2: int, y2: int, p: nat): int
    requires p > 0
  {
    (y1 - y2) * Inv(x1 - x2, p)
  }

  function TangentSlope(x: int, y: int, p: nat): int
    requires p > 0
  {
    (3 * x * x) * Inv(2 * y, p)
  }

  /** The point opposite to the third intersection of the line with the curve. */
  function Third(lam: int, x1: int, y1: int, x2: int, p: nat): Point
    requires p > 0
  {
    var x3 := (lam * lam - (x1 + x2)) % p;
    Affine(x3, (lam * (x1 - x3) - y1) % p)
  }

  function Add(P: Point, Q: Point, p: nat): Point
    requires p > 0
  {
    match (P, Q)
    case (Infinity, _) => Q
    case (_, Infinity) => P
    case (Affine(x1, y1), Affine(x2, y2)) =>
      if x1 == x2 then
        if Zero(y1 + y2, p) then Infinity else Third(TangentSlope(x1, y1, p), x1, y1, x2, p)
      else Third(ChordSlope(x1, y1, x2, y2, p), x1, y1, x2, p)
  }

  function Neg(P: Point, p: nat): Point
    requires p > 0
  {
    match P
    case Infinity => Infinity
    case Affine(x, y) => Affine(x, (-y) % p)
  }

  // ---- Addition stays on the curve

  /** The curve equation minus the square of the line through (x1, y1), at x. */
  function LineDefect(x: int, x1: int, y1: int, lam: int): int {
    x * x * x + 7 - (lam * (x - x1) + y1) * (lam * (x - x1) + y1)
  }

  /** The cofactor of x - x1 in the defect. */
  function Cofactor(x: int, x1: int, y1: int, lam: int): int {
    x * x + x * x1 + x1 * x1 - lam * lam * (x - x1) - 2 * lam * y1
  }

  lemma CofactorAt(x1: int, d: int, y1: int, lam: int)
    ensures Cofactor(x1 + d, x1, y1, lam)
         == 3 * (x1 * x1) + 3 * (x1 * d) + d * d - (lam * lam) * d - 2 * (lam * y1)
  {
    SquareOfSum(x1, d);
    MulDistrib(x1, d, x1);
    MulAssoc(2, lam, y1);
    assert d * x1 == x1 * d;
  }

  lemma DefectAt(x1: int, d: int, y1: int, lam: int)
    ensures LineDefect(x1 + d, x1, y1, lam)
         == x1 * x1 * x1 + 3 * (x1 * x1 * d) + 3 * (x1 * d * d) + d * d * d + 7
            - (lam * lam * (d * d) + 2 * (lam * d * y1) + y1 * y1)
  {
    CubeOfSum(x1, d);
    SquareOfSum(lam * d, y1);
    Square(lam, d);
  }

  lemma DefectFactors(x: int, x1: int, y1: int, lam: int)
    ensures LineDefect(x, x1, y1, lam) == (x1 * x1 * x1 + 7 - y1 * y1) + (x - x1) * Cofactor(x, x1, y1, lam)
  {
    hide LineDefect, Cofactor;
    var d, l := x - x1, lam * lam;
    CofactorAt(x1, d, y1, lam);
    DefectAt(x1, d, y1, lam);
    Expand(d, 3 * (x1 * x1), 3 * (x1 * d), d * d, l * d, 2 * (lam * y1));
    TripleProducts(d, x1, l, lam, y1);
  }

  lemma TripleProducts(d: int, x: int, l: int, lam: int, y: int)
    ensures d * (3 * (x * x)) == 3 * (x * x * d)
    ensures d * (3 * (x * d)) == 3 * (x * d * d)
    ensures d * (d * d) == d * d * d
    ensures d * (l * d) == l * (d * d)
    ensures d * (2 * (lam * y)) == 2 * (lam * d * y)
  {}

  lemma SquareOfSum(a: int, b: int)
    ensures (a + b) * (a + b) == a * a + 2 * (a * b) + b * b
  {}

  lemma Square(a: int, b: int)
    ensures (a * b) * (a * b) == a * a * (b * b)
  {
    MulAssoc(a, b, a * b);
    assert b * (a * b) == a * (b * b);
    MulAssoc(a, a, b * b);
  }

  lemma CubeOfSum(a: int, b: int)
    ensures (a + b) * (a + b) * (a + b) == a * a * a + 3 * (a * a * b) + 3 * (a * b * b) + b * b * b
  {
    SquareOfSum(a, b);
    var s := a * a + 2 * (a * b) + b * b;
    assert s * (a + b) == s * a + s * b;
    assert s * a == a * a * a + 2 * (a * a * b) + a * b * b;
    assert s * b == a * a * b + 2 * (a * b * b) + b * b * b;
  }

  lemma Expand(d: int, a: int, b: int, c: int, e: int, f: int)
    ensures d * (a + b + c - e - f) == d * a + d * b + d * c - d * e - d * f
  {}

  /** Two cofactors differ by a multiple of the third root's equation. */
  lemma CofactorDifference(x: int, x2: int, x1: int, y1: int, lam: int)
    ensures Cofactor(x, x1, y1, lam) == Cofactor(x2, x1, y1, lam) + (x - x2) * (x + x2 + x1 - lam * lam)
  {
    var d := x - x2;
    assert x == x2 + d;
    SquareOfSum(x2, d);
    assert (x2 + d) * x1 == x2 * x1 + d * x1;
    var l := lam * lam;
    assert l * (x - x1) == l * (x2 - x1) + l * d;
    assert d * (x + x2 + x1 - l) == d * (2 * x2 + d + x1) - d * l;
    assert d * (2 * x2 + d + x1) == 2 * (x2 * d) + d * d + d * x1;
  }

  /** If the line meets the curve at (x1, y1) and its cofactor vanishes at x2, the third point is on
      the curve. */
  lemma ThirdOnCurve(lam: int, x1: int, y1: int, x2: int, p: nat)
    requires p > 0 && Zero(y1 * y1 - (x1 * x1 * x1 + 7), p)
    requires Zero(Cofactor(x2, x1, y1, lam), p)
    ensures OnCurve(Third(lam, x1, y1, x2, p), p)
  {
    hide Zero;
    var P := Third(lam, x1, y1, x2, p);
    var x, y, l := P.x, P.y, lam * (P.x - x1) + y1;
    var r := lam * lam - (x1 + x2);
    ZeroMod(r, p);
    assert x - r == x + x2 + x1 - lam * lam;
    ZeroMul(x - r, x - x2, p);
    CofactorDifference(x, x2, x1, y1, lam);
    ZeroAdd(Cofactor(x2, x1, y1, lam), (x - x2) * (x - r), p);
    ZeroMul(Cofactor(x, x1, y1, lam), x - x1, p);
    DefectFactors(x, x1, y1, lam);
    ZeroFlip(y1 * y1, x1 * x1 * x1 + 7, p);
    ZeroAdd(x1 * x1 * x1 + 7 - y1 * y1, (x - x1) * Cofactor(x, x1, y1, lam), p);
    assert Zero(x * x * x + 7 - l * l, p);
    OppositeY(lam, x, x1, y1, p);
    ZeroFlip(x * x * x + 7, l * l, p);
    ZeroChain(y * y, l * l, x * x * x + 7, p);
  }

  lemma OppositeY(lam: int, x: int, x1: int, y1: int, p: nat)
    requires p > 0
    ensures var y := (lam * (x1 - x) - y1) % p;
      var l := lam * (x - x1) + y1;
      0 <= y < p && Zero(y * y - l * l, p)
  {
    var l := lam * (x - x1) + y1;
    assert lam * (x1 - x) == -(lam * (x - x1));
    var y := (-l) % p;
    ZeroMod(-l, p);
    CongMul(y, -l, y, -l, p);
    assert (-l) * (-l) == l * l;
  }

  lemma TwiceNotZero(y: int, p: nat)
    requires IsPrime(p) && p > 2 && !Zero(y, p)
    ensures !Zero(2 * y, p)
  {
    hide Zero;
    SmallNotZero(2, p);
    if Zero(2 * y, p) { EuclidLemma(2, y, p); }
  }

  lemma TangentCofactor(x: int, y: int, p: nat)
    requires IsPrime(p) && !Zero(2 * y, p)
    ensures Zero(Cofactor(x, x, y, TangentSlope(x, y, p)), p)
  {
    hide Zero, Inv;
    var i, lam := Inv(2 * y, p), TangentSlope(x, y, p);
    InvCorrect(2 * y, p);
    ZeroMul((2 * y) * i - 1, 3 * x * x, p);
    var t := 3 * x * x;
    assert lam * lam * (x - x) == 0;
    assert Cofactor(x, x, y, lam) == t - 2 * lam * y;
    assert 2 * lam * y == t * ((2 * y) * i) by { assert 2 * (t * i) * y == t * ((2 * y) * i); }
    assert t * ((2 * y) * i - 1) == t * ((2 * y) * i) - t;
    ZeroFlip(t * ((2 * y) * i), t, p);
  }

  /** The line of the chord slope passes through the second point. */
  lemma ChordLine(x1: int, y1: int, x2: int, y2: int, p: nat)
    requires IsPrime(p) && !Zero(x1 - x2, p)
    ensures Zero(ChordSlope(x1, y1, x2, y2, p) * (x1 - x2) - (y1 - y2), p)
  {
    hide Zero, Inv;
    var d, e := x1 - x2, y1 - y2;
    var i := Inv(d, p);
    InvCorrect(d, p);
    ZeroMul(d * i - 1, e, p);
    assert e * (d * i - 1) == e * (d * i) - e;
    assert (e * i) * d == e * (d * i);
  }

  lemma ChordCofactor(x1: int, y1: int, x2: int, y2: int, p: nat)
    requires IsPrime(p) && !Zero(x1 - x2, p)
    requires Zero(y1 * y1 - (x1 * x1 * x1 + 7), p) && Zero(y2 * y2 - (x2 * x2 * x2 + 7), p)
    ensures Zero(Cofactor(x2, x1, y1, ChordSlope(x1, y1, x2, y2, p)), p)
  {
    hide Zero, ChordSlope, Cofactor;
    var lam := ChordSlope(x1, y1, x2, y2, p);
    ChordLine(x1, y1, x2, y2, p);
    var l := lam * (x2 - x1) + y1;
    assert lam * (x1 - x2) == -(lam * (x2 - x1));
    assert lam * (x1 - x2) - (y1 - y2) == y2 - l;
    CongMul(y2, l, y2, l, p);
    ZeroFlip(y2 * y2, x2 * x2 * x2 + 7, p);
    ZeroChain(x2 * x2 * x2 + 7, y2 * y2, l * l, p);
    DefectFactors(x2, x1, y1, lam);
    ZeroAdd(x2 * x2 * x2 + 7 - l * l, y1 * y1 - (x1 * x1 * x1 + 7), p);
    var c := Cofactor(x2, x1, y1, lam);
    assert LineDefect(x2, x1, y1, lam) + (y1 * y1 - (x1 * x1 * x1 + 7)) == (x2 - x1) * c;
    EuclidLemma(x2 - x1, c, p);
    if Zero(x2 - x1, p) { ZeroFlip(x2, x1, p); }
  }

  /** Different residues are not congruent. */
  lemma DistinctNotZero(a: int, b: int, p: nat)
    requires 0 <= a < p && 0 <= b < p && a != b
    ensures !Zero(a - b, p)
  {
    if Zero(a - b, p) { ZeroSmall(a, b, p); }
  }

  /** Points with the same x coordinate have equal or opposite y coordinates. */
  lemma SameX(x: int, y1: int, y2: int, p: nat)
    requires IsPrime(p) && OnCurve(Affine(x, y1), p) && OnCurve(Affine(x, y2), p)
    ensures y1 == y2 || Zero(y1 + y2, p)
  {
    hide Zero;
    ZeroFlip(y2 * y2, x * x * x + 7, p);
    ZeroChain(y1 * y1, x * x * x + 7, y2 * y2, p);
    DifferenceOfSquares(y1, y2);
    EuclidLemma(y1 - y2, y1 + y2, p);
    if y1 != y2 { DistinctNotZero(y1, y2, p); }
  }

  /** The sum of two curve points is a curve point, in every case of the definition. */
  lemma AddOnCurve(P: Point, Q: Point, p: nat)
    requires IsPrime(p) && p > 2 && OnCurve(P, p) && OnCurve(Q, p)
    ensures OnCurve(Add(P, Q, p), p)
  {
    hide Zero, TangentSlope, ChordSlope, Cofactor, Third;
    if P.Affine? && Q.Affine? {
      if P.x != Q.x {
        DistinctNotZero(P.x, Q.x, p);
        ChordCofactor(P.x, P.y, Q.x, Q.y, p);
        ThirdOnCurve(ChordSlope(P.x, P.y, Q.x, Q.y, p), P.x, P.y, Q.x, p);
      } else if !Zero(P.y + Q.y, p) {
        SameX(P.x, P.y, Q.y, p);
        if Zero(P.y, p) { ZeroAdd(P.y, P.y, p); }
        TwiceNotZero(P.y, p);
        TangentCofactor(P.x, P.y, p);
        ThirdOnCurve(TangentSlope(P.x, P.y, p), P.x, P.y, Q.x, p);
      }
    }
  }

  lemma NegOnCurve(P: Point, p: nat)
    requires p > 0 && OnCurve(P, p)
    ensures OnCurve(Neg(P, p), p)
    ensures Add(P, Neg(P, p), p) == Infinity
  {
    if P.Affine? {
      var y, z := P.y, (-P.y) % p;
      ZeroMod(-y, p);
      CongMul(z, -y, z, -y, p);
      assert (-y) * (-y) == y * y;
      ZeroChain(z * z, y * y, P.x * P.x * P.x + 7, p);
      assert z - (-y) == y + z;
    }
  }

  // ---- The sum is the point opposite to the third intersection

  /** A line through two points has the slope e/d, or the tangent at one point. */
  datatype Slope = Slope(d: int, e: int)

  /** Of the chord, or of the tangent: twice y under three times the square of x. */
  function LineSlope(P: Point, Q: Point): Slope
    requires P.Affine? && Q.Affine?
  {
    if P.x != Q.x then Slope(P.x - Q.x, P.y - Q.y) else Slope(2 * P.y, 3 * (P.x * P.x))
  }

  /** (R.x, -R.y) is on the line of that slope through P, and R.x is the third root beside P.x and Q.x. Both are
      said without division. */
  ghost predicate OppositeThird(R: Point, P: Point, Q: Point, p: nat)
    requires p > 0 && P.Affine? && Q.Affine?
  {
    var l := LineSlope(P, Q);
    && R.Affine? && 0 <= R.x < p && 0 <= R.y < p
    && Zero((-R.y - P.y) * l.d - l.e * (R.x - P.x), p)
    && Zero((R.x + P.x + Q.x) * (l.d * l.d) - l.e * l.e, p)
  }

  lemma ThirdLaw(lam: int, P: Point, Q: Point, p: nat)
    requires p > 0 && P.Affine? && Q.Affine?
    requires var l := LineSlope(P, Q); Zero(lam * l.d - l.e, p)
    ensures OppositeThird(Third(lam, P.x, P.y, Q.x, p), P, Q, p)
  {
    hide Zero;
    var R, d, e := Third(lam, P.x, P.y, Q.x, p), LineSlope(P, Q).d, LineSlope(P, Q).e;
    var a, b := lam * lam - (P.x + Q.x), lam * (P.x - R.x) - P.y;
    ZeroMod(a, p);
    ZeroMod(b, p);
    // (-R.y - P.y) * d == -lam * (P.x - R.x) * d, up to multiples of p
    ZeroMul(R.y - b, d, p);
    ZeroMul(lam * d - e, P.x - R.x, p);
    LineIdentity(R.y, P.y, lam, P.x - R.x, d, e, b);
    ZeroAdd((R.y - b) * d, (lam * d - e) * (P.x - R.x), p);
    ZeroAdd((R.y - b) * d + (lam * d - e) * (P.x - R.x), 0 * p, p) by { ZeroMultiple(0, p); }
    // (R.x + P.x + Q.x) * d * d == lam * lam * d * d
    ZeroMul(R.x - a, d * d, p);
    CongMul(lam * d, e, lam * d, e, p);
    RootIdentity(R.x, P.x + Q.x, lam, d, e, a);
    ZeroAdd((R.x - a) * (d * d), (lam * d) * (lam * d) - e * e, p);
  }

  lemma LineIdentity(y: int, y1: int, lam: int, x: int, d: int, e: int, b: int)
    requires b == lam * x - y1
    ensures (-y - y1) * d - e * (-x) == -((y - b) * d + (lam * d - e) * x)
  {
    MulSub(y, b, d);
    MulSub(lam * d, e, x);
    MulSub(lam * x, y1, d);
    MulDistrib(-y, -y1, d);
    assert lam * d * x == lam * x * d;
  }

  lemma RootIdentity(x: int, s: int, lam: int, d: int, e: int, a: int)
    requires a == lam * lam - s
    ensures (x + s) * (d * d) - e * e == (x - a) * (d * d) + ((lam * d) * (lam * d) - e * e)
  {
    Square(lam, d);
    assert x + s == (x - a) + lam * lam;
    MulDistrib(x - a, lam * lam, d * d);
  }

  /** Such a point is unique unless the line is vertical. */
  lemma OppositeUnique(R: Point, S: Point, P: Point, Q: Point, p: nat)
    requires IsPrime(p) && P.Affine? && Q.Affine? && !Zero(LineSlope(P, Q).d, p)
    requires OppositeThird(R, P, Q, p) && OppositeThird(S, P, Q, p)
    ensures R == S
  {
    hide Zero;
    var d, e := LineSlope(P, Q).d, LineSlope(P, Q).e;
    var u, v := (R.x + P.x + Q.x) * (d * d) - e * e, (S.x + P.x + Q.x) * (d * d) - e * e;
    ZeroAdd(u, v, p);
    MulSub(R.x + P.x + Q.x, S.x + P.x + Q.x, d * d);
    assert u - v == (R.x - S.x) * (d * d);
    MulAssoc(R.x - S.x, d, d);
    CancelFactor((R.x - S.x) * d, d, p);
    CancelFactor(R.x - S.x, d, p);
    if R.x != S.x { DistinctNotZero(R.x, S.x, p); }
    var a, b := (-R.y - P.y) * d - e * (R.x - P.x), (-S.y - P.y) * d - e * (S.x - P.x);
    ZeroAdd(b, a, p);
    MulSub(-S.y - P.y, -R.y - P.y, d);
    assert b - a == (R.y - S.y) * d;
    CancelFactor(R.y - S.y, d, p);
    if R.y != S.y { DistinctNotZero(R.y, S.y, p); }
  }

  lemma CancelFactor(x: int, d: int, p: nat)
    requires IsPrime(p) && Zero(x * d, p) && !Zero(d, p)
    ensures Zero(x, p)
  {
    EuclidLemma(x, d, p);
  }

  /** The chord and tangent law: the sum of two points that are not opposite is the point R with the line through
      (R.x, -R.y), which then is its third intersection with the curve. */
  lemma AddIff(P: Point, Q: Point, R: Point, p: nat)
    requires IsPrime(p) && p > 2 && OnCurve(P, p) && OnCurve(Q, p)
    requires P.Affine? && Q.Affine? && (P.x != Q.x || !Zero(P.y + Q.y, p))
    ensures R == Add(P, Q, p) <==> OppositeThird(R, P, Q, p)
  {
    hide Zero, TangentSlope, ChordSlope, Third, OppositeThird;
    if P.x != Q.x {
      DistinctNotZero(P.x, Q.x, p);
      ChordLine(P.x, P.y, Q.x, Q.y, p);
      ThirdLaw(ChordSlope(P.x, P.y, Q.x, Q.y, p), P, Q, p);
    } else {
      SameX(P.x, P.y, Q.y, p);
      if Zero(P.y, p) { ZeroAdd(P.y, P.y, p); }
      TwiceNotZero(P.y, p);
      TangentLine(P.x, P.y, p);
      ThirdLaw(TangentSlope(P.x, P.y, p), P, Q, p);
    }
    if OppositeThird(R, P, Q, p) { OppositeUnique(R, Add(P, Q, p), P, Q, p); }
  }

  /** Two points add up to infinity exactly when they are opposite. */
  lemma SumInfinityIff(P: Point, Q: Point, p: nat)
    requires p > 0 && OnCurve(P, p) && OnCurve(Q, p)
    ensures Add(P, Q, p) == Infinity <==> Q == Neg(P, p)
  {
    hide Zero;
    if P.Affine? && Q.Affine? { OppositeYIff(P.y, Q.y, p); }
  }

  lemma OppositeYIff(y: int, z: int, p: nat)
    requires 0 <= y < p && 0 <= z < p
    ensures Zero(y + z, p) <==> z == (-y) % p
  {
    hide Zero;
    assert z - -y == y + z;
    if Zero(y + z, p) {
      ZeroSmall(z, -y, p);
      ModSmall(z, p);
    }
    ZeroMod(-y, p);
  }

  lemma TangentLine(x: int, y: int, p: nat)
    requires IsPrime(p) && !Zero(2 * y, p)
    ensures Zero(TangentSlope(x, y, p) * (2 * y) - 3 * (x * x), p)
  {
    hide Zero, Inv;
    var i, t := Inv(2 * y, p), 3 * x * x;
    InvCorrect(2 * y, p);
    ZeroMul((2 * y) * i - 1, t, p);
    assert t * ((2 * y) * i - 1) == t * ((2 * y) * i) - t;
    assert t * i * (2 * y) == t * ((2 * y) * i);
    assert t == 3 * (x * x);
  }

  // ---- Commutativity

  lemma ChordSymmetric(x1: int, y1: int, x2: int, y2: int, p: nat)
    requires IsPrime(p) && !Zero(x1 - x2, p)
    ensures Zero(ChordSlope(x1, y1, x2, y2, p) - ChordSlope(x2, y2, x1, y1, p), p)
  {
    hide Zero, ChordSlope;
    var l, m := ChordSlope(x1, y1, x2, y2, p), ChordSlope(x2, y2, x1, y1, p);
    if Zero(x2 - x1, p) { ZeroFlip(x2, x1, p); }
    ChordLine(x1, y1, x2, y2, p);
    ChordLine(x2, y2, x1, y1, p);
    var d := x1 - x2;
    assert m * (x2 - x1) == -(m * d);
    ZeroAdd(l * d - (y1 - y2), m * (x2 - x1) - (y2 - y1), p);
    assert l * d - (y1 - y2) + (m * (x2 - x1) - (y2 - y1)) == d * l - d * m;
    Cancel(d, l, m, p);
  }

  lemma AddCommutes(P: Point, Q: Point, p: nat)
    requires IsPrime(p) && OnCurve(P, p) && OnCurve(Q, p)
    ensures Add(P, Q, p) == Add(Q, P, p)
  {
    hide Zero, ChordSlope;
    if P.Affine? && Q.Affine? {
      if P.x == Q.x {
        SameX(P.x, P.y, Q.y, p);
      } else {
        DistinctNotZero(P.x, Q.x, p);
        var l, m := ChordSlope(P.x, P.y, Q.x, Q.y, p), ChordSlope(Q.x, Q.y, P.x, P.y, p);
        ChordSymmetric(P.x, P.y, Q.x, Q.y, p);
        ChordLine(P.x, P.y, Q.x, Q.y, p);
        ThirdSymmetric(l, m, P.x, P.y, Q.x, Q.y, p);
      }
    }
  }

  /** The third point does not depend on which of the two points the line is drawn from. */
  lemma ThirdSymmetric(l: int, m: int, x1: int, y1: int, x2: int, y2: int, p: nat)
    requires p > 0 && Zero(l - m, p) && Zero(l * (x1 - x2) - (y1 - y2), p)
    ensures Third(l, x1, y1, x2, p) == Third(m, x2, y2, x1, p)
  {
    hide Zero;
    CongMul(l, m, l, m, p);
    assert l * l - (x1 + x2) - (m * m - (x2 + x1)) == l * l - m * m;
    ZeroSmall(l * l - (x1 + x2), m * m - (x2 + x1), p);
    var x := Third(l, x1, y1, x2, p).x;
    ZeroMul(l - m, x2 - x, p);
    ZeroAdd(l * (x1 - x2) - (y1 - y2), (l - m) * (x2 - x), p);
    var u, v := l * (x1 - x) - y1, m * (x2 - x) - y2;
    assert u - v == l * (x1 - x2) - (y1 - y2) + (l - m) * (x2 - x) by {
      assert l * (x1 - x) == l * (x1 - x2) + l * (x2 - x);
      assert (l - m) * (x2 - x) == l * (x2 - x) - m * (x2 - x);
    }
    ZeroSmall(u, v, p);
  }
}
