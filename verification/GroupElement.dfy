/** Group elements over fractions (crypto/secp256k1.py, GE): addition as written computes the curve's
    addition, and both multiplication loops compute multiples. */
module GroupElement {
  import opened Bytes
  import opened Arith
  import opened Modular
  import opened Curve
  import opened FieldElement

  datatype GE = GInf | GPoint(x: FE, y: FE)

  function Abs(g: GE, p: nat): Point
    requires p > 0
  {
    if g.GInf? then Infinity else Affine(Val(g.x, p), Val(g.y, p))
  }

  ghost predicate Good(g: GE, p: nat)
    requires p > 0
  {
    && (g.GPoint? ==> Proper(g.x, p) && Proper(g.y, p))
    && OnCurve(Abs(g, p), p)
  }

  /** `GE(x, y)`; None is the AssertionError for a point off the curve. */
  function NewGE(x: FE, y: FE, p: nat): (r: Option<GE>)
    requires IsPrime(p) && Proper(x, p) && Proper(y, p)
    ensures r.Some? <==> OnCurve(Affine(Val(x, p), Val(y, p)), p)
    ensures r.Some? ==> r.value == GPoint(x, y) && Good(r.value, p)
  {
    hide Val, ModPow, Zero, PowFE, AddInt;
    var l, r := PowFE(y, 2, p), AddInt(PowFE(x, 3, p), 7, p);
    CurveEquation(Val(x, p), Val(y, p), p);
    EqIffSameValue(l, r, p);
    if EqFE(l, r, p) then Some(GPoint(x, y)) else None
  }

  lemma CurveEquation(x: nat, y: nat, p: nat)
    requires p > 0
    ensures ModPow(y, 2, p) == (ModPow(x, 3, p) + 7) % p <==> Zero(y * y - (x * x * x + 7), p)
  {
    hide Zero;
    assert Pow(y, 2) == y * y by { assert Pow(y, 1) == y * Pow(y, 0); }
    assert Pow(x, 3) == x * x * x by {
      assert Pow(x, 1) == x * Pow(x, 0);
      assert Pow(x, 2) == x * x;
      MulAssoc(x, x, x);
    }
    var a, b, c := y * y, x * x * x, ModPow(x, 3, p);
    ZeroMod(b, p);
    assert c + 7 - (b + 7) == c - b;
    if a % p == (c + 7) % p {
      ModCong(a, c + 7, p);
      ZeroChain(a, c + 7, b + 7, p);
    }
    if Zero(a - (b + 7), p) {
      ZeroFlip(c + 7, b + 7, p);
      ZeroChain(a, b + 7, c + 7, p);
      ZeroSmall(a, c + 7, p);
    }
  }

  /** The slope of the line that `__add__` uses; None is a division by zero. */
  function Slope(g: GE, h: GE, p: nat): (r: Option<FE>)
    requires IsPrime(p) && Good(g, p) && Good(h, p) && g.GPoint? && h.GPoint?
    ensures r.Some? ==> Proper(r.value, p)
  {
    if EqFE(g.x, h.x, p) then Div(RMul(3, PowFE(g.x, 2, p), p), RMul(2, g.y, p), p)
    else Div(SubFE(g.y, h.y, p), SubFE(g.x, h.x, p), p)
  }

  /** `__add__`; None is any of its AssertionErrors. */
  function AddGE(g: GE, h: GE, p: nat): (r: Option<GE>)
    requires IsPrime(p) && Good(g, p) && Good(h, p)
    ensures r.Some? ==> Good(r.value, p)
  {
    if g.GInf? then Some(h)
    else if h.GInf? then Some(g)
    else if EqFE(g.x, h.x, p) && !EqFE(g.y, h.y, p) then
      if EqFE(AddFE(g.y, h.y, p), OfInt(0, p), p) then Some(GInf) else None
    else
      var lam := Slope(g, h, p);
      if lam.None? then None
      else
        var x := SubFE(PowFE(lam.value, 2, p), AddFE(g.x, h.x, p), p);
        var y := SubFE(MulFE(lam.value, SubFE(g.x, x, p), p), g.y, p);
        NewGE(x, y, p)
  }

  // ---- Refinement of the curve's addition

  /** Third depends on the slope only up to congruence. */
  lemma ThirdCong(l: int, m: int, x1: int, y1: int, x2: int, p: nat)
    requires p > 0 && Zero(l - m, p)
    ensures Third(l, x1, y1, x2, p) == Third(m, x1, y1, x2, p)
  {
    hide Zero;
    CongMul(l, m, l, m, p);
    assert l * l - (x1 + x2) - (m * m - (x1 + x2)) == l * l - m * m;
    ZeroSmall(l * l - (x1 + x2), m * m - (x1 + x2), p);
    var x := Third(l, x1, y1, x2, p).x;
    ZeroMul(l - m, x1 - x, p);
    assert (l * (x1 - x) - y1) - (m * (x1 - x) - y1) == (l - m) * (x1 - x) by { MulDistrib(l, -m, x1 - x); }
    ZeroSmall(l * (x1 - x) - y1, m * (x1 - x) - y1, p);
  }

  /** The residues computed for the third point. */
  lemma ThirdDenotes(l: nat, x1: nat, y1: nat, x2: nat, p: nat)
    requires p > 0 && l < p
    ensures var x := (ModPow(l, 2, p) - (x1 + x2) % p) % p;
      Third(l, x1, y1, x2, p) == Affine(x, ((l * ((x1 - x) % p)) % p - y1) % p)
  {
    hide Zero;
    assert Pow(l, 2) == l * l by { assert Pow(l, 1) == l * Pow(l, 0); }
    ModSub(l * l, x1 + x2, p);
    var x := Third(l, x1, y1, x2, p).x;
    MulModRight(l, x1 - x, p);
    ModSubLeft(l * (x1 - x), y1, p);
  }

  lemma ModSubLeft(a: int, b: int, p: nat)
    requires p > 0
    ensures (a % p - b) % p == (a - b) % p
  {
    hide Zero;
    ZeroMod(a, p);
    assert (a % p - b) - (a - b) == a % p - a;
    ZeroSmall(a % p - b, a - b, p);
  }

  lemma ModSub(a: int, b: int, p: nat)
    requires p > 0
    ensures (a % p - b % p) % p == (a - b) % p
  {
    hide Zero;
    ModSubLeft(a, b % p, p);
    ZeroMod(b, p);
    assert (a - b % p) - (a - b) == b - b % p;
    ZeroSmall(a - b % p, a - b, p);
  }

  lemma ChordSlopeDenotes(x1: nat, y1: nat, x2: nat, y2: nat, p: nat)
    requires IsPrime(p) && x1 < p && x2 < p && x1 != x2
    ensures (x1 - x2) % p != 0
    ensures Zero(((y1 - y2) % p * Inv((x1 - x2) % p, p)) % p - ChordSlope(x1, y1, x2, y2, p), p)
  {
    DistinctNotZero(x1, x2, p);
    ProductDenotes(y1 - y2, x1 - x2, p);
  }

  /** Reducing numerator and denominator first gives a congruent quotient. */
  lemma ProductDenotes(a: int, b: int, p: nat)
    requires p > 0
    ensures Zero((a % p * Inv(b % p, p)) % p - a * Inv(b, p), p)
  {
    hide Zero, Inv;
    InvMod(b, p);
    ZeroMod(a, p);
    ReducedProduct(a, a % p, Inv(b, p), p);
  }

  lemma ReducedProduct(a: int, r: int, i: int, p: nat)
    requires p > 0 && Zero(r - a, p)
    ensures Zero((r * i) % p - a * i, p)
  {
    hide Zero;
    ZeroMul(r - a, i, p);
    MulSub(r, a, i);
    ZeroMod(r * i, p);
    ZeroChain((r * i) % p, r * i, a * i, p);
  }

  lemma InvMod(b: int, p: nat)
    requires p > 0
    ensures Inv(b % p, p) == Inv(b, p)
  {
    ModSmall(b % p, p);
  }

  lemma TangentSlopeDenotes(x: nat, y: nat, p: nat)
    requires IsPrime(p) && p > 3
    ensures Zero((((3 % p * ModPow(x, 2, p)) % p) * Inv((2 % p * y) % p, p)) % p - TangentSlope(x, y, p), p)
  {
    assert Pow(x, 2) == x * x by { assert Pow(x, 1) == x * Pow(x, 0); }
    ModSmall(3, p);
    ModSmall(2, p);
    MulModRight(3, x * x, p);
    assert 3 * (x * x) == 3 * x * x;
    ProductDenotes(3 * x * x, 2 * y, p);
  }

  /** The slope of `__add__` denotes the slope of the curve's addition, and fails to exist only for
      doubling a point with y = 0. */
  lemma SlopeDenotes(g: GE, h: GE, p: nat)
    requires IsPrime(p) && p > 3 && Good(g, p) && Good(h, p) && g.GPoint? && h.GPoint?
    ensures var x1, y1, x2, y2 := Val(g.x, p), Val(g.y, p), Val(h.x, p), Val(h.y, p);
      var lam := Slope(g, h, p);
      && (x1 != x2 ==> lam.Some? && Zero(Val(lam.value, p) - ChordSlope(x1, y1, x2, y2, p), p))
      && (x1 == x2 ==> (lam.None? <==> y1 == 0))
      && (x1 == x2 && lam.Some? ==> Zero(Val(lam.value, p) - TangentSlope(x1, y1, p), p))
  {
    hide Val, Inv, ModPow, Zero, TangentSlope, ChordSlope, AddFE, SubFE, MulFE, RMul, PowFE, Div;
    EqIffSameValue(g.x, h.x, p);
    var x1, y1, x2, y2 := Val(g.x, p), Val(g.y, p), Val(h.x, p), Val(h.y, p);
    if x1 != x2 {
      ChordSlopeDenotes(x1, y1, x2, y2, p);
    } else {
      TangentSlopeDenotes(x1, y1, p);
      TwiceIsZero(y1, p);
    }
  }

  lemma TwiceIsZero(y: nat, p: nat)
    requires IsPrime(p) && p > 3 && y < p
    ensures (2 % p * y) % p == 0 <==> y == 0
  {
    ModSmall(2, p);
    if y > 0 {
      SmallNotZero(y, p);
      TwiceNotZero(y, p);
    }
  }

  /** Addition as written is the curve's addition; it raises exactly when a point with y = 0 is doubled. */
  lemma AddRefines(g: GE, h: GE, p: nat)
    requires IsPrime(p) && p > 3 && Good(g, p) && Good(h, p)
    ensures AddGE(g, h, p).None? <==> g.GPoint? && Abs(g, p) == Abs(h, p) && Val(g.y, p) == 0
    ensures AddGE(g, h, p).Some? ==> Abs(AddGE(g, h, p).value, p) == Add(Abs(g, p), Abs(h, p), p)
  {
    hide Val, Inv, ModPow, Zero, TangentSlope, ChordSlope, AddFE, SubFE, MulFE, RMul, PowFE, Div, Slope, Third, EqFE;
    if g.GPoint? && h.GPoint? {
      EqIffSameValue(g.x, h.x, p);
      EqIffSameValue(g.y, h.y, p);
      var x1, y1, x2, y2 := Val(g.x, p), Val(g.y, p), Val(h.x, p), Val(h.y, p);
      if x1 == x2 {
        SameX(x1, y1, y2, p);
        EqIffSameValue(AddFE(g.y, h.y, p), OfInt(0, p), p);
        SumIsZero(y1, y2, p);
      }
      if x1 != x2 || (y1 == y2 && y1 != 0) {
        SlopeDenotes(g, h, p);
        ThirdRefines(g, h, Slope(g, h, p).value, p);
        AddOnCurve(Abs(g, p), Abs(h, p), p);
      } else if y1 == y2 {
        SlopeDenotes(g, h, p);
      }
    }
  }

  lemma SumIsZero(y1: nat, y2: nat, p: nat)
    requires IsPrime(p) && p > 3 && y1 < p && y2 < p
    ensures (y1 + y2) % p == 0 % p <==> Zero(y1 + y2, p)
    ensures y1 == y2 ==> (Zero(y1 + y2, p) <==> y1 == 0)
  {
    ModSmall(0, p);
    if y1 == y2 && y1 != 0 {
      SmallNotZero(y1, p);
      TwiceNotZero(y1, p);
      assert y1 + y2 == 2 * y1;
    }
  }

  lemma ThirdRefines(g: GE, h: GE, lam: FE, p: nat)
    requires IsPrime(p) && p > 3 && Good(g, p) && Good(h, p) && g.GPoint? && h.GPoint? && Proper(lam, p)
    ensures var x := SubFE(PowFE(lam, 2, p), AddFE(g.x, h.x, p), p);
      var y := SubFE(MulFE(lam, SubFE(g.x, x, p), p), g.y, p);
      Affine(Val(x, p), Val(y, p)) == Third(Val(lam, p), Val(g.x, p), Val(g.y, p), Val(h.x, p), p)
    ensures forall m: int :: Zero(Val(lam, p) - m, p) ==>
      Third(m, Val(g.x, p), Val(g.y, p), Val(h.x, p), p)
      == Third(Val(lam, p), Val(g.x, p), Val(g.y, p), Val(h.x, p), p)
  {
    hide Val, ModPow, Zero, AddFE, SubFE, MulFE, PowFE, Third;
    ThirdDenotes(Val(lam, p), Val(g.x, p), Val(g.y, p), Val(h.x, p), p);
    forall m: int | Zero(Val(lam, p) - m, p)
      ensures Third(m, Val(g.x, p), Val(g.y, p), Val(h.x, p), p)
           == Third(Val(lam, p), Val(g.x, p), Val(g.y, p), Val(h.x, p), p)
    {
      ThirdCong(Val(lam, p), m, Val(g.x, p), Val(g.y, p), Val(h.x, p), p);
    }
  }
}
