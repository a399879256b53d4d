/** Arithmetic modulo a prime: inverses, Euclid's lemma and Fermat's little theorem. */
module Modular {
  import opened Bytes
  import opened Arith

  predicate Zero(x: int, p: nat)
    requires p > 0
  {
    x % p == 0
  }

  ghost predicate IsPrime(p: nat) {
    p >= 2 && forall d :: 1 < d < p ==> !Divides(d, p)
  }

  predicate Divides(d: int, n: int)
    requires d > 0
  {
    n % d == 0
  }

  // ---- Congruences

  lemma ZeroMultiple(k: int, p: nat)
    requires p > 0
    ensures Zero(k * p, p)
  {
    ModAddMultiple(0, k, p);
  }

  lemma ZeroQuotient(x: int, p: nat) returns (k: int)
    requires p > 0 && Zero(x, p)
    ensures x == k * p
  {
    k := x / p;
  }

  lemma ZeroAdd(x: int, y: int, p: nat)
    requires p > 0 && Zero(x, p) && Zero(y, p)
    ensures Zero(x + y, p) && Zero(x - y, p) && Zero(-x, p)
  {
    hide Zero;
    var a := ZeroQuotient(x, p);
    var b := ZeroQuotient(y, p);
    assert x + y == (a + b) * p;
    assert x - y == (a - b) * p;
    assert -x == (-a) * p;
    ZeroMultiple(a + b, p);
    ZeroMultiple(a - b, p);
    ZeroMultiple(-a, p);
  }

  lemma ZeroMul(x: int, y: int, p: nat)
    requires p > 0 && Zero(x, p)
    ensures Zero(x * y, p) && Zero(y * x, p)
  {
    var a := ZeroQuotient(x, p);
    assert x * y == (a * y) * p;
    ZeroMultiple(a * y, p);
  }

  lemma ZeroMod(x: int, p: nat)
    requires p > 0
    ensures Zero(x - x % p, p) && Zero(x % p - x, p)
  {
    ZeroMultiple(x / p, p);
    ZeroMultiple(-(x / p), p);
    assert x - x % p == (x / p) * p;
  }

  /** Congruent residues are equal. */
  lemma ZeroSmall(x: int, y: int, p: nat)
    requires p > 0 && Zero(x - y, p)
    ensures x % p == y % p
  {
    var k := ZeroQuotient(x - y, p);
    ModAddMultiple(y, k, p);
  }

  lemma ModCong(x: int, y: int, p: nat)
    requires p > 0 && x % p == y % p
    ensures Zero(x - y, p)
  {
    ZeroMod(x, p);
    ZeroMod(y, p);
    ZeroAdd(x - x % p, y - y % p, p);
  }

  /** Products of congruent factors are congruent. */
  lemma CongMul(a: int, b: int, c: int, d: int, p: nat)
    requires p > 0 && Zero(a - b, p) && Zero(c - d, p)
    ensures Zero(a * c - b * d, p)
  {
    ZeroMul(a - b, c, p);
    ZeroMul(c - d, b, p);
    ZeroAdd((a - b) * c, b * (c - d), p);
    assert (a - b) * c + b * (c - d) == a * c - b * d;
  }

  // ---- Greatest common divisors and inverses

  /** The extended Euclidean algorithm: g == a*x + b*y. */
  function Egcd(a: nat, b: nat): (r: (nat, int, int))
    ensures r.0 == a * r.1 + b * r.2
    decreases b
  {
    if b == 0 then (a, 1, 0)
    else
      var (g, x, y) := Egcd(b, a % b);
      EgcdStep(a, b, x, y);
      (g, y, x - (a / b) * y)
  }

  lemma EgcdStep(a: nat, b: nat, x: int, y: int)
    requires b > 0
    ensures b * x + (a % b) * y == a * y + b * (x - (a / b) * y)
  {
    assert a % b == a - b * (a / b);
    MulDistrib(a, -(b * (a / b)), y);
    MulDistrib(x, -((a / b) * y), b);
    MulAssoc(b, a / b, y);
  }

  lemma DivisorOfSum(a: nat, b: nat, g: nat)
    requires g > 0 && b > 0 && Zero(b, g) && Zero(a % b, g)
    ensures Zero(a, g)
  {
    hide Zero;
    var k := a / b;
    ZeroMul(b, k, g);
    ZeroAdd(b * k, a % b, g);
  }

  lemma {:induction false} EgcdDivides(a: nat, b: nat)
    requires a > 0 || b > 0
    ensures Egcd(a, b).0 > 0
    ensures Zero(a, Egcd(a, b).0) && Zero(b, Egcd(a, b).0)
    decreases b
  {
    hide Zero;
    var g := Egcd(a, b).0;
    if b == 0 {
      ZeroMultiple(1, a);
      ZeroMultiple(0, a);
    } else {
      EgcdDivides(b, a % b);
      assert Egcd(b, a % b).0 == g;
      DivisorOfSum(a, b, g);
    }
  }

  lemma SmallNotZero(k: int, p: nat)
    requires 0 < k < p
    ensures !Zero(k, p)
  {}

  /** A number below a prime is coprime to it. */
  lemma PrimeCoprime(a: nat, p: nat)
    requires IsPrime(p) && 0 < a < p
    ensures Egcd(a, p).0 == 1
  {
    EgcdDivides(a, p);
    var g := Egcd(a, p).0;
    var k := ZeroQuotient(a, g);
    if g > 1 {
      if k >= 1 { MulAtLeast(k, g); }
      assert g <= a;
      assert Divides(g, p);
    }
  }

  /** `pow(a, -1, p)` */
  function Inv(a: int, p: nat): (r: nat)
    requires p > 0
    ensures r < p
  {
    Egcd(a % p, p).1 % p
  }

  lemma InvCorrect(a: int, p: nat)
    requires IsPrime(p) && !Zero(a, p)
    ensures Zero(a * Inv(a, p) - 1, p)
    ensures !Zero(Inv(a, p), p)
  {
    var b := a % p;
    PrimeCoprime(b, p);
    var (g, x, y) := Egcd(b, p);
    assert b * x - 1 == (-y) * p;
    ZeroMultiple(-y, p);
    ZeroMod(a, p);
    ZeroMod(x, p);
    CongMul(a, b, x % p, x, p);
    ZeroAdd(a * (x % p) - b * x, b * x - 1, p);
    if Zero(x % p, p) {
      ZeroMul(x % p, a, p);
      ZeroAdd(a * (x % p), a * (x % p) - 1, p);
    }
  }

  /** A prime that divides a product divides a factor. */
  lemma EuclidLemma(a: int, b: int, p: nat)
    requires IsPrime(p) && Zero(a * b, p)
    ensures Zero(a, p) || Zero(b, p)
  {
    if !Zero(a, p) {
      var i := Inv(a, p);
      InvCorrect(a, p);
      ZeroMul(a * b, i, p);
      ZeroMul(a * i - 1, b, p);
      assert (a * b) * i - (a * i - 1) * b == b;
      ZeroAdd((a * b) * i, (a * i - 1) * b, p);
    }
  }

  /** Cancelling a factor that is not zero. */
  lemma Cancel(a: int, x: int, y: int, p: nat)
    requires IsPrime(p) && !Zero(a, p) && Zero(a * x - a * y, p)
    ensures Zero(x - y, p)
  {
    assert a * x - a * y == a * (x - y);
    EuclidLemma(a, x - y, p);
  }

  // ---- Fermat's little theorem, through the binomial theorem

  function Choose(n: nat, k: nat): nat {
    if k == 0 then 1 else if n == 0 then 0 else Choose(n - 1, k - 1) + Choose(n - 1, k)
  }

  lemma AbsorbStep(n: int, k: int, a: int, b: int, c: int, d: int)
    requires (k - 1) * a == (n - 1) * c && k * b == (n - 1) * d && a == c + d
    ensures k * (a + b) == n * a
  {
    MulDistrib(c, d, n - 1);
    MulDistrib(k, -1, a);
    MulDistrib(n, -1, a);
    MulDistrib(a, b, k);
  }

  /** k * C(n, k) == n * C(n - 1, k - 1) */
  lemma {:induction false} ChooseAbsorb(n: nat, k: nat)
    requires n > 0 && k > 0
    ensures k * Choose(n, k) == n * Choose(n - 1, k - 1)
  {
    if n == 1 {
      assert Choose(1, k) == Choose(0, k - 1) + Choose(0, k);
      assert Choose(0, k) == 0;
      if k > 1 { assert Choose(0, k - 1) == 0; }
    } else {
      ChooseAbsorb(n - 1, k);
      var a, b := Choose(n - 1, k - 1), Choose(n - 1, k);
      var c, d := if k == 1 then 0 else Choose(n - 2, k - 2), Choose(n - 2, k - 1);
      if k > 1 { ChooseAbsorb(n - 1, k - 1); }
      AbsorbStep(n, k, a, b, c, d);
    }
  }

  lemma ChooseDivisible(p: nat, k: nat)
    requires IsPrime(p) && 0 < k < p
    ensures Zero(Choose(p, k), p)
  {
    hide Choose, Zero;
    ChooseAbsorb(p, k);
    var c := Choose(p - 1, k - 1);
    ZeroMultiple(c, p);
    assert p * c == c * p;
    SmallNotZero(k, p);
    EuclidLemma(k, Choose(p, k), p);
  }

  /** sum of C(n, i) * a^i for i < k */
  function BinomialSum(a: nat, n: nat, k: nat): int {
    if k == 0 then 0 else BinomialSum(a, n, k - 1) + Choose(n, k - 1) * Pow(a, k - 1)
  }

  lemma {:induction false} ChooseAbove(n: nat, k: nat)
    requires k > n
    ensures Choose(n, k) == 0
  {
    if n > 0 { ChooseAbove(n - 1, k - 1); ChooseAbove(n - 1, k); }
  }

  lemma {:induction false} BinomialStep(a: nat, n: nat, k: nat)
    ensures BinomialSum(a, n + 1, k + 1) == BinomialSum(a, n, k + 1) + a * BinomialSum(a, n, k)
  {
    if k > 0 {
      BinomialStep(a, n, k - 1);
      var q, c, d, s := Pow(a, k - 1), Choose(n, k - 1), Choose(n, k), BinomialSum(a, n, k - 1);
      assert BinomialSum(a, n + 1, k + 1) == BinomialSum(a, n + 1, k) + (c + d) * (a * q);
      BinomialArith(a, q, c, d, s);
    }
  }

  lemma BinomialArith(a: int, q: int, c: int, d: int, s: int)
    ensures (c + d) * (a * q) == d * (a * q) + a * (s + c * q) - a * s
  {
    MulDistrib(c, d, a * q);
    MulDistrib(s, c * q, a);
    assert a * (c * q) == c * (a * q);
  }

  lemma {:induction false} BinomialTheorem(a: nat, n: nat)
    ensures BinomialSum(a, n, n + 1) == Pow(a + 1, n)
  {
    if n > 0 {
      BinomialTheorem(a, n - 1);
      BinomialStep(a, n - 1, n);
      ChooseAbove(n - 1, n);
      assert BinomialSum(a, n - 1, n + 1) == BinomialSum(a, n - 1, n);
      MulDistrib(a, 1, Pow(a + 1, n - 1));
    }
  }

  lemma {:induction false} BinomialSumModPrime(a: nat, p: nat, k: nat)
    requires IsPrime(p) && 1 <= k <= p
    ensures Zero(BinomialSum(a, p, k) - 1, p)
  {
    if k == 1 {
      assert BinomialSum(a, p, 1) == 1 * Pow(a, 0);
      ZeroMultiple(0, p);
    } else {
      BinomialSumModPrime(a, p, k - 1);
      ChooseDivisible(p, k - 1);
      ZeroMul(Choose(p, k - 1), Pow(a, k - 1), p);
      ZeroAdd(BinomialSum(a, p, k - 1) - 1, Choose(p, k - 1) * Pow(a, k - 1), p);
    }
  }

  lemma {:induction false} ChooseSelf(n: nat)
    ensures Choose(n, n) == 1
  {
    if n > 0 {
      ChooseSelf(n - 1);
      ChooseAbove(n - 1, n);
    }
  }

  lemma {:induction false} Fermat(a: nat, p: nat)
    requires IsPrime(p)
    ensures Zero(Pow(a, p) - a, p)
  {
    if a == 0 {
      assert Pow(0, p) == 0 * Pow(0, p - 1);
      ZeroMultiple(0, p);
    } else {
      var b := a - 1;
      Fermat(b, p);
      BinomialTheorem(b, p);
      BinomialSumModPrime(b, p, p);
      ChooseSelf(p);
      assert Pow(a, p) == BinomialSum(b, p, p) + 1 * Pow(b, p);
      ZeroAdd(BinomialSum(b, p, p) - 1, Pow(b, p) - b, p);
    }
  }

  // ---- Modular powers and square roots

  /** `pow(a, e, p)` */
  function ModPow(a: int, e: nat, p: nat): (r: nat)
    requires p > 0
    ensures r < p
  {
    Pow(a, e) % p
  }

  lemma {:induction false} PowCong(a: int, b: int, e: nat, p: nat)
    requires p > 0 && Zero(a - b, p)
    ensures Zero(Pow(a, e) - Pow(b, e), p)
  {
    if e == 0 {
      ZeroMultiple(0, p);
    } else {
      PowCong(a, b, e - 1, p);
      CongMul(a, b, Pow(a, e - 1), Pow(b, e - 1), p);
    }
  }

  lemma {:induction false} PowMul(a: int, b: int, e: nat)
    ensures Pow(a * b, e) == Pow(a, e) * Pow(b, e)
  {
    if e > 0 {
      PowMul(a, b, e - 1);
      MulSwap(a, b, Pow(a, e - 1), Pow(b, e - 1));
    }
  }

  lemma MulSwap(a: int, b: int, u: int, v: int)
    ensures (a * b) * (u * v) == (a * u) * (b * v)
  {
    MulAssoc(a, b, u * v);
    MulAssoc(a, u, b * v);
    assert b * (u * v) == u * (b * v);
  }

  /** y^(p+1) is congruent to y^2. */
  lemma FermatSquare(y: nat, p: nat)
    requires IsPrime(p)
    ensures Zero(Pow(y, p + 1) - y * y, p)
  {
    Fermat(y, p);
    ZeroMul(Pow(y, p) - y, y, p);
    assert Pow(y, p + 1) - y * y == y * (Pow(y, p) - y);
  }

  /** The power (p + 1) / 4 of y^2 is y^((p+1)/2), whose square is y^(p+1). */
  lemma SquareRootPower(y: nat, p: nat)
    requires p % 4 == 3
    ensures var t := Pow(y, (p + 1) / 4); (t * t) * (t * t) == Pow(y, p + 1)
  {
    var e := (p + 1) / 4;
    PowAdd(y, e, e);
    PowAdd(y, e + e, e + e);
    assert e + e + (e + e) == p + 1;
  }

  lemma ZeroChain(a: int, b: int, c: int, p: nat)
    requires p > 0 && Zero(a - b, p) && Zero(b - c, p)
    ensures Zero(a - c, p)
  {
    ZeroAdd(a - b, b - c, p);
  }

  lemma RootOfSquare(y: nat, v: nat, p: nat)
    requires IsPrime(p) && p % 4 == 3 && Zero(v - y * y, p)
    ensures var s := ModPow(v, (p + 1) / 4, p); Zero(s * s - y * y, p)
  {
    hide Zero, Pow;
    var e := (p + 1) / 4;
    var s, t := ModPow(v, e, p), Pow(y, e);
    PowCong(v, y * y, e, p);
    PowMul(y, y, e);
    ZeroMod(Pow(v, e), p);
    ZeroChain(s, Pow(v, e), t * t, p);
    CongMul(s, t * t, s, t * t, p);
    SquareRootPower(y, p);
    FermatSquare(y, p);
    ZeroChain(s * s, Pow(y, p + 1), y * y, p);
  }

  /** For p congruent to 3 modulo 4 the power (p + 1) / 4 of a square is a square root of it. */
  lemma SquareRoot(y: nat, v: nat, p: nat)
    requires IsPrime(p) && p % 4 == 3 && Zero(v - y * y, p)
    ensures var s := ModPow(v, (p + 1) / 4, p);
      Zero(s * s - v, p) && (Zero(s - y, p) || Zero(s + y, p))
  {
    hide Zero, ModPow;
    var s := ModPow(v, (p + 1) / 4, p);
    RootOfSquare(y, v, p);
    ZeroFlip(v, y * y, p);
    ZeroChain(s * s, y * y, v, p);
    DifferenceOfSquares(s, y);
    EuclidLemma(s - y, s + y, p);
  }

  lemma ZeroFlip(a: int, b: int, p: nat)
    requires p > 0 && Zero(a - b, p)
    ensures Zero(b - a, p)
  {
    ZeroAdd(a - b, a - b, p);
    assert -(a - b) == b - a;
  }

  lemma DifferenceOfSquares(s: int, y: int)
    ensures (s - y) * (s + y) == s * s - y * y
  {}
}
