/** Multiples of curve points, given that addition is associative and every point has order
    dividing an odd number n. */
module Multiples {
  import opened Bytes
  import opened Arith
  import opened Modular
  import opened Curve

  ghost predicate Associative(p: nat)
    requires p > 0
  {
    forall P, Q, R :: OnCurve(P, p) && OnCurve(Q, p) && OnCurve(R, p) ==>
      Add(Add(P, Q, p), R, p) == Add(P, Add(Q, R, p), p)
  }

  /** P + (P + (... + infinity)) */
  function Mult(k: nat, P: Point, p: nat): Point
    requires p > 0
  {
    if k == 0 then Infinity else Add(P, Mult(k - 1, P, p), p)
  }

  ghost predicate Exponent(n: nat, p: nat)
    requires p > 0
  {
    forall P :: OnCurve(P, p) ==> Mult(n, P, p) == Infinity
  }

  /** The hypotheses about secp256k1 that are not proved here. */
  ghost predicate Group(n: nat, p: nat) {
    IsPrime(p) && p > 3 && n % 2 == 1 && 1 < n < U256 && Associative(p) && Exponent(n, p)
  }

  lemma GroupPositive(n: nat, p: nat)
    requires Group(n, p)
    ensures n > 1 && p > 3 && IsPrime(p)
  {}

  lemma {:induction false} MultOnCurve(k: nat, P: Point, p: nat)
    requires IsPrime(p) && p > 3 && OnCurve(P, p)
    ensures OnCurve(Mult(k, P, p), p)
  {
    if k > 0 {
      MultOnCurve(k - 1, P, p);
      AddOnCurve(P, Mult(k - 1, P, p), p);
    }
  }

  lemma Assoc(P: Point, Q: Point, R: Point, n: nat, p: nat)
    requires Group(n, p) && OnCurve(P, p) && OnCurve(Q, p) && OnCurve(R, p)
    ensures Add(Add(P, Q, p), R, p) == Add(P, Add(Q, R, p), p)
    ensures OnCurve(Add(P, Q, p), p)
  {
    AddOnCurve(P, Q, p);
  }

  lemma {:induction false} MultAdd(j: nat, k: nat, P: Point, n: nat, p: nat)
    requires Group(n, p) && OnCurve(P, p)
    ensures Mult(j + k, P, p) == Add(Mult(j, P, p), Mult(k, P, p), p)
  {
    hide Add, OnCurve, Associative, Exponent;
    if j == 0 {
      AddInfinity(Mult(k, P, p), p);
    } else {
      MultAdd(j - 1, k, P, n, p);
      MultOnCurve(j - 1, P, p);
      MultOnCurve(k, P, p);
      Assoc(P, Mult(j - 1, P, p), Mult(k, P, p), n, p);
    }
  }

  lemma AddInfinity(P: Point, p: nat)
    requires p > 0
    ensures Add(Infinity, P, p) == P && Add(P, Infinity, p) == P
  {}

  lemma {:induction false} MultInfinity(k: nat, p: nat)
    requires p > 0
    ensures Mult(k, Infinity, p) == Infinity
  {
    if k > 0 { MultInfinity(k - 1, p); }
  }

  lemma {:induction false} MultMult(j: nat, k: nat, P: Point, n: nat, p: nat)
    requires Group(n, p) && OnCurve(P, p)
    ensures j * k >= 0 && Mult(j * k, P, p) == Mult(j, Mult(k, P, p), p)
  {
    hide Add, OnCurve, Associative, Exponent;
    if j > 0 {
      MultMult(j - 1, k, P, n, p);
      MulDistrib(j - 1, 1, k);
      MultAdd(k, (j - 1) * k, P, n, p);
    } else {
      assert j * k == 0;
    }
  }

  lemma DivMod(k: nat, n: nat)
    requires n > 0
    ensures k == (k / n) * n + k % n
  {}

  lemma MultDropOrder(q: nat, r: nat, P: Point, n: nat, p: nat)
    requires Group(n, p) && OnCurve(P, p)
    ensures q * n >= 0 && Mult(q * n + r, P, p) == Mult(r, P, p)
  {
    hide Add, OnCurve, Associative, Exponent, Mult;
    MultMult(q, n, P, n, p);
    MultOrder(P, n, p);
    MultInfinity(q, p);
    MultAdd(q * n, r, P, n, p);
    AddInfinity(Mult(r, P, p), p);
  }

  /** Only the scalar modulo n matters. */
  lemma MultMod(k: nat, P: Point, n: nat, p: nat)
    requires Group(n, p) && OnCurve(P, p)
    ensures Mult(k % n, P, p) == Mult(k, P, p)
  {
    hide Group, OnCurve, Mult;
    GroupPositive(n, p);
    DivMod(k, n);
    MultDropOrder(k / n, k % n, P, n, p);
  }

  lemma MultOrder(P: Point, n: nat, p: nat)
    requires Group(n, p) && OnCurve(P, p)
    ensures Mult(n, P, p) == Infinity
  {}

  /** Inverses are unique. */
  lemma NegUnique(P: Point, Q: Point, n: nat, p: nat)
    requires Group(n, p) && OnCurve(P, p) && OnCurve(Q, p) && Add(P, Q, p) == Infinity
    ensures Q == Neg(P, p)
  {
    hide Add, OnCurve, Associative, Exponent, Neg;
    var N := Neg(P, p);
    NegOnCurve(P, p);
    AddCommutes(P, N, p);
    Assoc(N, P, Q, n, p);
    AddInfinity(Q, p);
    AddInfinity(N, p);
  }

  /** n - k multiples are the negation of k multiples. */
  lemma MultComplement(k: nat, P: Point, n: nat, p: nat)
    requires Group(n, p) && OnCurve(P, p) && k <= n
    ensures Mult(n - k, P, p) == Neg(Mult(k, P, p), p)
  {
    hide Add, OnCurve, Associative, Mult;
    MultOrder(P, n, p);
    MultAdd(k, n - k, P, n, p);
    MultOnCurve(k, P, p);
    MultOnCurve(n - k, P, p);
    NegUnique(Mult(k, P, p), Mult(n - k, P, p), n, p);
  }

  /** `e` times P, for any integer: a negative multiple is the negation of the positive one. */
  function Multiple(e: int, P: Point, p: nat): Point
    requires p > 0
  {
    if e >= 0 then Mult(e, P, p) else Neg(Mult(-e, P, p), p)
  }

  /** Reducing any integer scalar modulo the order, as the code does first, leaves its multiple as it is. */
  lemma MultipleMod(e: int, P: Point, n: nat, p: nat)
    requires Group(n, p) && OnCurve(P, p)
    ensures Mult(e % n, P, p) == Multiple(e, P, p)
  {
    hide Group, OnCurve, Mult, Neg;
    GroupPositive(n, p);
    if e >= 0 {
      MultMod(e, P, n, p);
    } else {
      var f: nat := (-e) % n;
      ComplementMod(-e, n);
      MultMod(-e, P, n, p);
      if f == 0 { MultOfZero(P, p); } else { MultComplement(f, P, n, p); }
    }
  }

  lemma ComplementMod(f: int, n: nat)
    requires n > 0
    ensures (-f) % n == if f % n == 0 then 0 else n - f % n
  {
    var q, r := f / n, f % n;
    assert f == q * n + r;
    MulSub(-q, 1, n);
    if r == 0 { DivModUnique(-f, n, -q, 0); } else { DivModUnique(-f, n, -q - 1, n - r); }
  }

  lemma MultOfZero(P: Point, p: nat)
    requires p > 0
    ensures Mult(0, P, p) == Infinity && Neg(Infinity, p) == Infinity
  {}

  /** No point has y = 0: it would have order two. */
  lemma NoPointOfOrderTwo(P: Point, n: nat, p: nat)
    requires Group(n, p) && OnCurve(P, p) && P.Affine?
    ensures P.y != 0
  {
    if P.y == 0 {
      ZeroMultiple(0, p);
      assert Add(P, P, p) == Infinity;
      MultOrder(P, n, p);
      OddMultiple(n / 2, P, n, p);
    }
  }

  lemma {:induction false} OddMultiple(k: nat, P: Point, n: nat, p: nat)
    requires Group(n, p) && OnCurve(P, p) && Add(P, P, p) == Infinity
    ensures Mult(2 * k + 1, P, p) == P
  {
    hide Add, OnCurve, Associative, Exponent;
    AddInfinity(P, p);
    if k == 0 {
      assert Mult(1, P, p) == Add(P, Mult(0, P, p), p);
    } else {
      OddMultiple(k - 1, P, n, p);
      assert Mult(2 * k, P, p) == Add(P, Mult(2 * k - 1, P, p), p);
      assert Mult(2 * k + 1, P, p) == Add(P, Mult(2 * k, P, p), p);
    }
  }

  // ---- Sums of multiples

  /** s[0]*P[0] + (s[1]*P[1] + (...)) */
  function Comb(s: seq<nat>, P: seq<Point>, p: nat): Point
    requires p > 0 && |s| == |P|
  {
    if s == [] then Infinity else Add(Mult(s[0], P[0], p), Comb(s[1..], P[1..], p), p)
  }

  ghost predicate AllOnCurve(P: seq<Point>, p: nat)
    requires p > 0
  {
    forall i :: 0 <= i < |P| ==> OnCurve(P[i], p)
  }

  /** The same with any integer scalars. */
  function Sum(s: seq<int>, P: seq<Point>, p: nat): Point
    requires p > 0 && |s| == |P|
  {
    if s == [] then Infinity else Add(Multiple(s[0], P[0], p), Sum(s[1..], P[1..], p), p)
  }

  /** The scalars reduced modulo the group order. */
  function Reduce(scalars: seq<int>, n: nat): (r: seq<nat>)
    requires n > 0
    ensures |r| == |scalars| && forall i :: 0 <= i < |r| ==> r[i] == scalars[i] % n
  {
    seq(|scalars|, i requires 0 <= i < |scalars| => scalars[i] % n)
  }

  lemma {:induction false} SumReduced(s: seq<int>, P: seq<Point>, n: nat, p: nat)
    requires Group(n, p) && |s| == |P| && AllOnCurve(P, p)
    ensures n > 0 && Comb(Reduce(s, n), P, p) == Sum(s, P, p)
    decreases |s|
  {
    hide Add, Multiple, OnCurve, Associative, Exponent, IsPrime;
    if s != [] {
      SumReduced(s[1..], P[1..], n, p);
      MultipleMod(s[0], P[0], n, p);
      assert Reduce(s, n)[1..] == Reduce(s[1..], n);
    }
  }

  lemma {:induction false} CombOnCurve(s: seq<nat>, P: seq<Point>, n: nat, p: nat)
    requires Group(n, p) && |s| == |P| && AllOnCurve(P, p)
    ensures OnCurve(Comb(s, P, p), p)
  {
    hide Add, OnCurve, Associative, Exponent;
    if s == [] {
      InfinityOnCurve(p);
    } else {
      CombOnCurve(s[1..], P[1..], n, p);
      MultOnCurve(s[0], P[0], p);
      AddOnCurve(Mult(s[0], P[0], p), Comb(s[1..], P[1..], p), p);
    }
  }

  lemma InfinityOnCurve(p: nat)
    requires p > 0
    ensures OnCurve(Infinity, p)
  {}

  /** (A + B) + (C + D) == (A + C) + (B + D) */
  lemma AddSwap(A: Point, B: Point, C: Point, D: Point, n: nat, p: nat)
    requires Group(n, p) && OnCurve(A, p) && OnCurve(B, p) && OnCurve(C, p) && OnCurve(D, p)
    ensures Add(Add(A, B, p), Add(C, D, p), p) == Add(Add(A, C, p), Add(B, D, p), p)
  {
    hide Add, OnCurve, Associative, Exponent;
    Assoc(C, D, Infinity, n, p) by { InfinityOnCurve(p); }
    Assoc(B, D, Infinity, n, p) by { InfinityOnCurve(p); }
    Assoc(A, B, Add(C, D, p), n, p);
    Assoc(B, C, D, n, p);
    AddCommutes(B, C, p);
    Assoc(C, B, D, n, p);
    Assoc(A, C, Add(B, D, p), n, p);
  }

  function Doubled(s: seq<nat>): (r: seq<nat>)
    ensures |r| == |s| && forall i :: 0 <= i < |s| ==> r[i] == 2 * s[i]
  {
    seq(|s|, i requires 0 <= i < |s| => 2 * s[i])
  }

  lemma {:induction false} CombDoubled(s: seq<nat>, P: seq<Point>, n: nat, p: nat)
    requires Group(n, p) && |s| == |P| && AllOnCurve(P, p)
    ensures Comb(Doubled(s), P, p) == Add(Comb(s, P, p), Comb(s, P, p), p)
  {
    hide Add, OnCurve, Associative, Exponent;
    if s == [] {
      AddInfinity(Infinity, p);
    } else {
      CombDoubled(s[1..], P[1..], n, p);
      assert Doubled(s)[1..] == Doubled(s[1..]);
      var A, B := Mult(s[0], P[0], p), Comb(s[1..], P[1..], p);
      MultAdd(s[0], s[0], P[0], n, p);
      MultOnCurve(s[0], P[0], p);
      CombOnCurve(s[1..], P[1..], n, p);
      AddSwap(A, B, A, B, n, p);
    }
  }

  /** Raising one scalar by one adds its point. */
  lemma {:induction false} CombIncrement(s: seq<nat>, P: seq<Point>, j: nat, n: nat, p: nat)
    requires Group(n, p) && |s| == |P| && AllOnCurve(P, p) && j < |s|
    ensures Comb(s[j := s[j] + 1], P, p) == Add(Comb(s, P, p), P[j], p)
    decreases j
  {
    hide Add, OnCurve, Associative, Exponent;
    var t := s[j := s[j] + 1];
    var A, B := Mult(s[0], P[0], p), Comb(s[1..], P[1..], p);
    MultOnCurve(s[0], P[0], p);
    CombOnCurve(s[1..], P[1..], n, p);
    if j == 0 {
      assert t[1..] == s[1..];
      AddCommutes(P[0], A, p);
      Assoc(A, P[0], B, n, p);
      AddCommutes(P[0], B, p);
      Assoc(A, B, P[0], n, p);
    } else {
      CombIncrement(s[1..], P[1..], j - 1, n, p);
      assert t[1..] == s[1..][j - 1 := s[1..][j - 1] + 1];
      Assoc(A, B, P[j], n, p);
    }
  }

  lemma {:induction false} CombZero(s: seq<nat>, P: seq<Point>, p: nat)
    requires p > 0 && |s| == |P| && forall i :: 0 <= i < |s| ==> s[i] == 0
    ensures Comb(s, P, p) == Infinity
  {
    if s != [] { CombZero(s[1..], P[1..], p); }
  }
}
