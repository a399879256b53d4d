/** Field elements as fractions and group elements over them (crypto/secp256k1.py, FE and GE). */
module FieldElement {
  import opened Bytes
  import opened Arith
  import opened Modular
  import opened Curve

  /** FE.SIZE; everything below holds for any prime, and the curve results for any odd one. */
  const FE_SIZE: nat := 0xFFFFFFFF_FFFFFFFF_FFFFFFFF_FFFFFFFF_FFFFFFFF_FFFFFFFF_FFFFFFFE_FFFFFC2F

  datatype FE = FE(num: int, den: int)

  ghost predicate Proper(f: FE, p: nat) {
    0 <= f.num < p && 0 < f.den < p && (f.num == 0 ==> f.den == 1)
  }

  /** The residue that a fraction denotes. */
  function Val(f: FE, p: nat): (v: nat)
    requires p > 0
    ensures v < p
  {
    (f.num * Inv(f.den, p)) % p
  }

  // ---- The operations as written

  /** `FE(a, b)` on integers; a zero denominator is an AssertionError. */
  function Make(a: int, b: int, p: nat): FE
    requires p > 1 && !Zero(b, p)
  {
    FE(a % p, if a % p == 0 then 1 else b % p)
  }

  /** `__int__`: the fraction is replaced by one with denominator 1, and its numerator returned. */
  function Normalize(a: FE, p: nat): FE
    requires p > 0
  {
    if a.den != 1 then FE((a.num * Inv(a.den, p)) % p, 1) else a
  }

  predicate EqFE(a: FE, b: FE, p: nat)
    requires p > 0
  {
    Zero(a.num * b.den - a.den * b.num, p)
  }

  // ---- What they denote

  lemma ProperDen(f: FE, p: nat)
    requires IsPrime(p) && Proper(f, p)
    ensures !Zero(f.den, p)
  {
    SmallNotZero(f.den, p);
  }

  lemma DenProduct(a: int, b: int, p: nat)
    requires IsPrime(p) && !Zero(a, p) && !Zero(b, p)
    ensures !Zero(a * b, p)
  {
    if Zero(a * b, p) { EuclidLemma(a, b, p); }
  }

  lemma MakeProper(a: int, b: int, p: nat)
    requires p > 1 && !Zero(b, p)
    ensures Proper(Make(a, b, p), p)
  {}

  lemma ValSatisfies(f: FE, p: nat)
    requires IsPrime(p) && !Zero(f.den, p)
    ensures Zero(Val(f, p) * f.den - f.num, p)
  {
    hide Inv, Zero;
    var i, n, d := Inv(f.den, p), f.num, f.den;
    InvCorrect(d, p);
    ZeroMod(n * i, p);
    ZeroMul(Val(f, p) - n * i, d, p);
    ZeroMul(d * i - 1, n, p);
    MulDistrib(Val(f, p), -(n * i), d);
    MulAssoc(n, i, d);
    MulDistrib(d * i, -1, n);
    assert n * (i * d) == n * (d * i);
    assert (Val(f, p) - n * i) * d == Val(f, p) * d - n * (d * i);
    ZeroChain(Val(f, p) * d, n * (d * i), n, p);
  }

  /** v denotes f exactly when v * den is congruent to num. */
  lemma ValIff(f: FE, v: int, p: nat)
    requires IsPrime(p) && !Zero(f.den, p) && 0 <= v < p
    ensures v == Val(f, p) <==> Zero(v * f.den - f.num, p)
  {
    hide Val, Zero;
    var w := Val(f, p);
    ValSatisfies(f, p);
    if Zero(v * f.den - f.num, p) {
      ZeroFlip(w * f.den, f.num, p);
      ZeroChain(v * f.den, f.num, w * f.den, p);
      assert v * f.den - w * f.den == f.den * v - f.den * w;
      Cancel(f.den, v, w, p);
      if v != w { DistinctNotZero(v, w, p); }
    }
  }

  lemma ValOf(f: FE, p: nat)
    requires IsPrime(p) && Proper(f, p)
    ensures Zero(Val(f, p) * f.den - f.num, p)
  {
    ProperDen(f, p);
    ValIff(f, Val(f, p), p);
  }

  /** To show what a new fraction denotes it is enough to multiply out. */
  lemma MakeDenotes(a: int, b: int, v: int, p: nat)
    requires IsPrime(p) && !Zero(b, p) && Zero(v * b - a, p)
    ensures Val(Make(a, b, p), p) == v % p
    ensures Proper(Make(a, b, p), p)
  {
    hide Inv, Zero;
    var f := Make(a, b, p);
    MakeProper(a, b, p);
    ProperDen(f, p);
    ZeroMod(v, p);
    ZeroMod(a, p);
    var w := v % p;
    if f.num == 0 {
      ZeroFlip(a % p, a, p);
      ZeroChain(v * b, a, 0, p);
      assert v * b - 0 == b * v - b * 0;
      Cancel(b, v, 0, p);
      ZeroFlip(v, w, p);
      ZeroChain(w, v, 0, p);
      assert w * f.den - f.num == w - 0;
    } else {
      ZeroMod(b, p);
      CongMul(w, v, b % p, b, p);
      ZeroChain(w * (b % p), v * b, a, p);
      ZeroFlip(a % p, a, p);
      ZeroChain(w * (b % p), a, a % p, p);
    }
    ValIff(f, w, p);
  }

  lemma OfIntDenotes(a: int, p: nat)
    requires IsPrime(p)
    ensures !Zero(1, p)
    ensures Val(Make(a, 1, p), p) == a % p && Proper(Make(a, 1, p), p)
  {
    SmallNotZero(1, p);
    ZeroMultiple(0, p);
    MakeDenotes(a, 1, a, p);
  }

  lemma CrossArith(v: int, w: int, an: int, ad: int, bn: int, bd: int)
    ensures (v * ad - an) * bd == v * (ad * bd) - an * bd
    ensures (w * bd - bn) * ad == w * (ad * bd) - ad * bn
  {
    MulDistrib(v * ad, -an, bd);
    MulAssoc(v, ad, bd);
    MulDistrib(w * bd, -bn, ad);
    MulAssoc(w, bd, ad);
  }

  /** Sum and difference of two fractions over the product of the denominators. */
  lemma CrossSums(a: FE, b: FE, p: nat)
    requires IsPrime(p) && Proper(a, p) && Proper(b, p)
    ensures Zero((Val(a, p) + Val(b, p)) * (a.den * b.den) - (a.num * b.den + a.den * b.num), p)
    ensures Zero((Val(a, p) - Val(b, p)) * (a.den * b.den) - (a.num * b.den - a.den * b.num), p)
  {
    hide Zero, Val;
    ValOf(a, p);
    ValOf(b, p);
    var v: int, w: int, d: int := Val(a, p), Val(b, p), a.den * b.den;
    ZeroMul(v * a.den - a.num, b.den, p);
    ZeroMul(w * b.den - b.num, a.den, p);
    CrossArith(v, w, a.num, a.den, b.num, b.den);
    ZeroAdd(v * d - a.num * b.den, w * d - a.den * b.num, p);
    MulDistrib(v, w, d);
    MulDistrib(v, -w, d);
  }

  lemma AddDenotes(a: FE, b: FE, p: nat)
    requires IsPrime(p) && Proper(a, p) && Proper(b, p)
    ensures !Zero(a.den * b.den, p)
    ensures var f := Make(a.num * b.den + a.den * b.num, a.den * b.den, p);
      Val(f, p) == (Val(a, p) + Val(b, p)) % p && Proper(f, p)
    ensures var f := Make(a.num * b.den - a.den * b.num, a.den * b.den, p);
      Val(f, p) == (Val(a, p) - Val(b, p)) % p && Proper(f, p)
  {
    hide Zero, Val;
    ProperDen(a, p);
    ProperDen(b, p);
    DenProduct(a.den, b.den, p);
    CrossSums(a, b, p);
    MakeDenotes(a.num * b.den + a.den * b.num, a.den * b.den, Val(a, p) + Val(b, p), p);
    MakeDenotes(a.num * b.den - a.den * b.num, a.den * b.den, Val(a, p) - Val(b, p), p);
  }

  lemma MulDenotes(a: FE, b: FE, p: nat)
    requires IsPrime(p) && Proper(a, p) && Proper(b, p)
    ensures !Zero(a.den * b.den, p)
    ensures var f := Make(a.num * b.num, a.den * b.den, p);
      Val(f, p) == (Val(a, p) * Val(b, p)) % p && Proper(f, p)
  {
    hide Zero, Val;
    ProperDen(a, p);
    ProperDen(b, p);
    DenProduct(a.den, b.den, p);
    ValOf(a, p);
    ValOf(b, p);
    var v, w := Val(a, p), Val(b, p);
    CongMul(v * a.den, a.num, w * b.den, b.num, p);
    MulSwap(v, w, a.den, b.den);
    MakeDenotes(a.num * b.num, a.den * b.den, v * w, p);
  }

  lemma AddIntDenotes(a: FE, n: int, p: nat)
    requires IsPrime(p) && Proper(a, p)
    ensures !Zero(a.den, p)
    ensures var f := Make(a.num + a.den * n, a.den, p);
      Val(f, p) == (Val(a, p) + n) % p && Proper(f, p)
  {
    hide Zero, Val;
    ProperDen(a, p);
    ValOf(a, p);
    var v := Val(a, p);
    MulDistrib(v, n, a.den);
    assert (v + n) * a.den - (a.num + a.den * n) == v * a.den - a.num;
    MakeDenotes(a.num + a.den * n, a.den, v + n, p);
  }

  lemma NegDenotes(a: FE, p: nat)
    requires IsPrime(p) && Proper(a, p)
    ensures !Zero(a.den, p)
    ensures var f := Make(-a.num, a.den, p);
      Val(f, p) == (0 - Val(a, p)) % p && Proper(f, p)
  {
    hide Zero, Val;
    ProperDen(a, p);
    ValOf(a, p);
    var v: int := Val(a, p);
    ZeroFlip(v * a.den, a.num, p);
    assert (-v) * a.den - (-a.num) == a.num - v * a.den;
    MakeDenotes(-a.num, a.den, -v, p);
  }

  /** The quotient exists exactly when the divisor does not denote 0, and is the product with the inverse. */
  lemma DivDenotes(a: FE, b: FE, p: nat)
    requires IsPrime(p) && Proper(a, p) && Proper(b, p)
    ensures Zero(a.den * b.num, p) <==> Val(b, p) == 0
    ensures Val(b, p) != 0 ==>
      var f := Make(a.num * b.den, a.den * b.num, p);
      Val(f, p) == (Val(a, p) * Inv(Val(b, p), p)) % p && Proper(f, p)
  {
    hide Zero, Val, Inv;
    ProperDen(a, p);
    ProperDen(b, p);
    ValOf(a, p);
    ValOf(b, p);
    var v, w := Val(a, p), Val(b, p);
    ZeroNum(b, p);
    if Zero(a.den * b.num, p) { EuclidLemma(a.den, b.num, p); }
    if Zero(b.num, p) { ZeroMul(b.num, a.den, p); }
    if w != 0 {
      SmallNotZero(w, p);
      InvCorrect(w, p);
      var i := Inv(w, p);
      // (v*i) * (a.den*b.num) ~ (v*a.den) * (i*(w*b.den)) ~ a.num * b.den
      ZeroFlip(w * b.den, b.num, p);
      CongMul(i, i, b.num, w * b.den, p) by { ZeroMultiple(0, p); }
      ZeroMul(w * i - 1, b.den, p);
      assert i * (w * b.den) - b.den == (w * i - 1) * b.den by { MulAssoc(w, i, b.den); MulAssoc(i, w, b.den); }
      ZeroChain(i * b.num, i * (w * b.den), b.den, p);
      CongMul(v * a.den, a.num, i * b.num, b.den, p);
      MulSwap(v, i, a.den, b.num);
      MakeDenotes(a.num * b.den, a.den * b.num, v * i, p);
    }
  }

  lemma ZeroNum(b: FE, p: nat)
    requires IsPrime(p) && Proper(b, p)
    ensures Zero(b.num, p) <==> Val(b, p) == 0
  {
    hide Val, Inv;
    ProperDen(b, p);
    ValIff(b, 0, p);
    assert 0 * b.den - b.num == -b.num;
    if Zero(b.num, p) { ZeroAdd(b.num, b.num, p); }
    if Zero(-b.num, p) { ZeroAdd(-b.num, -b.num, p); }
  }

  lemma {:induction false} PowNotZero(a: int, e: nat, p: nat)
    requires IsPrime(p) && !Zero(a, p)
    ensures !Zero(Pow(a, e), p)
  {
    if e == 0 {
      SmallNotZero(1, p);
    } else {
      PowNotZero(a, e - 1, p);
      DenProduct(a, Pow(a, e - 1), p);
    }
  }

  lemma PowDenotes(a: FE, e: nat, p: nat)
    requires IsPrime(p) && Proper(a, p)
    ensures !Zero(ModPow(a.den, e, p), p)
    ensures var f := Make(ModPow(a.num, e, p), ModPow(a.den, e, p), p);
      Val(f, p) == ModPow(Val(a, p), e, p) && Proper(f, p)
  {
    hide Zero, Val, Pow;
    ProperDen(a, p);
    ValOf(a, p);
    var v := Val(a, p);
    var n, d := Pow(a.num, e), Pow(a.den, e);
    PowNotZero(a.den, e, p);
    ZeroMod(n, p);
    ZeroMod(d, p);
    if Zero(d % p, p) { ZeroAdd(d - d % p, d % p, p); }
    PowCong(v * a.den, a.num, e, p);
    PowMul(v, a.den, e);
    var q := Pow(v, e);
    CongMul(q, q, d % p, d, p) by { ZeroMultiple(0, p); }
    ZeroChain(q * (d % p), q * d, n, p);
    ZeroFlip(n % p, n, p);
    ZeroChain(q * (d % p), n, n % p, p);
    MakeDenotes(n % p, d % p, q, p);
  }

  /** `==` on fractions holds exactly when they denote the same residue. */
  lemma EqIffSameValue(a: FE, b: FE, p: nat)
    requires IsPrime(p) && Proper(a, p) && Proper(b, p)
    ensures EqFE(a, b, p) <==> Val(a, p) == Val(b, p)
  {
    hide Zero, Val;
    CrossSums(a, b, p);
    ProperDen(a, p);
    ProperDen(b, p);
    DenProduct(a.den, b.den, p);
    var v: int, w: int, d: int, n: int := Val(a, p), Val(b, p), a.den * b.den, a.num * b.den - a.den * b.num;
    if Zero(n, p) {
      ZeroChain((v - w) * d, n, 0, p);
      EuclidLemma(v - w, d, p);
      if v != w { DistinctNotZero(v, w, p); }
    }
    if v == w {
      assert (v - w) * d == 0;
      ZeroFlip((v - w) * d, n, p);
    }
  }

  /** `int(a)` returns the residue and leaves a fraction that denotes the same. */
  lemma NormalizeKeepsValue(a: FE, p: nat)
    requires IsPrime(p) && Proper(a, p)
    ensures var n := Normalize(a, p);
      Proper(n, p) && n.den == 1 && n.num == Val(a, p) && Val(n, p) == Val(a, p)
  {
    hide Zero, Inv;
    var n := Normalize(a, p);
    SmallNotZero(1, p);
    ZeroMultiple(0, p);
    ValIff(n, n.num, p);
    assert n.num * n.den - n.num == 0;
  }

  // ---- The operations as written, with what they denote

  function OfInt(a: int, p: nat): (r: FE)
    requires IsPrime(p)
    ensures Proper(r, p) && Val(r, p) == a % p
  {
    OfIntDenotes(a, p);
    Make(a, 1, p)
  }

  function AddFE(a: FE, b: FE, p: nat): (r: FE)
    requires IsPrime(p) && Proper(a, p) && Proper(b, p)
    ensures Proper(r, p) && Val(r, p) == (Val(a, p) + Val(b, p)) % p
  {
    AddDenotes(a, b, p);
    Make(a.num * b.den + a.den * b.num, a.den * b.den, p)
  }

  function AddInt(a: FE, n: int, p: nat): (r: FE)
    requires IsPrime(p) && Proper(a, p)
    ensures Proper(r, p) && Val(r, p) == (Val(a, p) + n) % p
  {
    AddIntDenotes(a, n, p);
    Make(a.num + a.den * n, a.den, p)
  }

  function SubFE(a: FE, b: FE, p: nat): (r: FE)
    requires IsPrime(p) && Proper(a, p) && Proper(b, p)
    ensures Proper(r, p) && Val(r, p) == (Val(a, p) - Val(b, p)) % p
  {
    AddDenotes(a, b, p);
    Make(a.num * b.den - a.den * b.num, a.den * b.den, p)
  }

  function MulFE(a: FE, b: FE, p: nat): (r: FE)
    requires IsPrime(p) && Proper(a, p) && Proper(b, p)
    ensures Proper(r, p) && Val(r, p) == (Val(a, p) * Val(b, p)) % p
  {
    MulDenotes(a, b, p);
    Make(a.num * b.num, a.den * b.den, p)
  }

  /** `n * a` */
  function RMul(n: int, a: FE, p: nat): (r: FE)
    requires IsPrime(p) && Proper(a, p)
    ensures Proper(r, p) && Val(r, p) == (n % p * Val(a, p)) % p
  {
    MulFE(OfInt(n, p), a, p)
  }

  function NegFE(a: FE, p: nat): (r: FE)
    requires IsPrime(p) && Proper(a, p)
    ensures Proper(r, p) && Val(r, p) == (0 - Val(a, p)) % p
  {
    NegDenotes(a, p);
    Make(-a.num, a.den, p)
  }

  /** `a / b`, which is `FE(a, b)`; None is the AssertionError of a zero denominator. */
  function Div(a: FE, b: FE, p: nat): (r: Option<FE>)
    requires IsPrime(p) && Proper(a, p) && Proper(b, p)
    ensures r.None? <==> Val(b, p) == 0
    ensures r.Some? ==> Proper(r.value, p) && Val(r.value, p) == (Val(a, p) * Inv(Val(b, p), p)) % p
  {
    DivDenotes(a, b, p);
    if Zero(a.den * b.num, p) then None else Some(Make(a.num * b.den, a.den * b.num, p))
  }

  function PowFE(a: FE, e: nat, p: nat): (r: FE)
    requires IsPrime(p) && Proper(a, p)
    ensures Proper(r, p) && Val(r, p) == ModPow(Val(a, p), e, p)
  {
    PowDenotes(a, e, p);
    Make(ModPow(a.num, e, p), ModPow(a.den, e, p), p)
  }

  /** `sqrt`: the candidate root, or None when its square is something else. */
  function Sqrt(a: FE, p: nat): (r: Option<FE>)
    requires IsPrime(p) && Proper(a, p)
    ensures r.Some? ==> Proper(r.value, p) && Zero(Val(r.value, p) * Val(r.value, p) - Val(a, p), p)
  {
    hide Val, Zero, Inv, Make;
    NormalizeKeepsValue(a, p);
    var v := Normalize(a, p).num;
    var s := ModPow(v, (p + 1) / 4, p);
    ModSmall(s, p);
    if Zero(s * s - v, p) then Some(OfInt(s, p)) else None
  }

  /** `sqrt` finds a root exactly when there is one. */
  lemma SqrtComplete(a: FE, y: nat, p: nat)
    requires IsPrime(p) && p % 4 == 3 && Proper(a, p) && Zero(Val(a, p) - y * y, p)
    ensures Sqrt(a, p).Some?
  {
    NormalizeKeepsValue(a, p);
    SquareRoot(y, Val(a, p), p);
  }

  function IsEven(a: FE, p: nat): (r: bool)
    requires IsPrime(p) && Proper(a, p)
    ensures r <==> Val(a, p) % 2 == 0
  {
    NormalizeKeepsValue(a, p);
    Normalize(a, p).num % 2 == 0
  }

  /** A field element as an object: converting it to an integer replaces its fraction in place. */
  class FieldObject {
    var fraction: FE

    constructor (a: FE)
      ensures fraction == a
    {
      fraction := a;
    }

    /** `__int__`: the residue is returned, and whoever else holds the object still sees the same value. */
    method ToInt(p: nat) returns (r: nat)
      requires IsPrime(p) && Proper(fraction, p)
      modifies this
      ensures r == Val(old(fraction), p)
      ensures Proper(fraction, p) && fraction.den == 1 && Val(fraction, p) == Val(old(fraction), p)
    {
      hide Zero, Inv, Val;
      NormalizeKeepsValue(fraction, p);
      if fraction.den != 1 {
        fraction := FE((fraction.num * Inv(fraction.den, p)) % p, 1);
      }
      r := fraction.num;
    }
  }
}
