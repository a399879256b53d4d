/** Scalar multiplication as written (crypto/secp256k1.py): the batch double-and-add loop of
    `GE.mul` and the precomputed table of `FastGEMul`. */
module ScalarMul {
  import opened Bytes
  import opened Bits
  import opened Arith
  import opened Modular
  import opened Curve
  import opened FieldElement
  import opened GroupElement
  import opened Multiples

  ghost predicate AllGood(points: seq<GE>, p: nat)
    requires p > 0
  {
    forall i :: 0 <= i < |points| ==> Good(points[i], p)
  }

  function AbsAll(points: seq<GE>, p: nat): (r: seq<Point>)
    requires p > 0
    ensures |r| == |points| && forall i :: 0 <= i < |r| ==> r[i] == Abs(points[i], p)
  {
    seq(|points|, i requires 0 <= i < |points| => Abs(points[i], p))
  }

  /** Addition on good elements never raises, because no point has order two. */
  function Plus(g: GE, h: GE, n: nat, p: nat): (r: GE)
    requires Group(n, p) && Good(g, p) && Good(h, p)
    ensures AddGE(g, h, p) == Some(r)
    ensures Good(r, p) && Abs(r, p) == Add(Abs(g, p), Abs(h, p), p)
  {
    AddRefines(g, h, p);
    NeverDoublesZero(g, n, p);
    AddGE(g, h, p).value
  }

  lemma NeverDoublesZero(g: GE, n: nat, p: nat)
    requires Group(n, p) && Good(g, p)
    ensures g.GPoint? ==> Val(g.y, p) != 0
  {
    if g.GPoint? { NoPointOfOrderTwo(Abs(g, p), n, p); }
  }

  /** `a >> i` */
  function Shr(a: nat, i: nat): nat {
    if i == 0 then a else Shr(a / 2, i - 1)
  }

  lemma {:induction false} ShrStep(a: nat, i: nat)
    ensures Shr(a, i) == 2 * Shr(a, i + 1) + Shr(a, i) % 2
  {
    if i > 0 { ShrStep(a / 2, i - 1); }
  }

  lemma {:induction false} ShrZero(a: nat, i: nat)
    requires a < Pow(2, i)
    ensures Shr(a, i) == 0
  {
    if i > 0 {
      ShrZero(a / 2, i - 1);
    }
  }

  function ShrAll(s: seq<nat>, i: nat): (r: seq<nat>)
    ensures |r| == |s| && forall j :: 0 <= j < |r| ==> r[j] == Shr(s[j], i)
  {
    seq(|s|, j requires 0 <= j < |s| => Shr(s[j], i))
  }

  /** The scalars while bit `i` is being added: the first `j` have it, the others are still even. */
  function Partial(s: seq<nat>, i: nat, j: nat): (r: seq<nat>)
    requires j <= |s|
    ensures |r| == |s|
    ensures forall k :: 0 <= k < |r| ==> r[k] == if k < j then Shr(s[k], i) else 2 * Shr(s[k], i + 1)
  {
    seq(|s|, k requires 0 <= k < |s| => if k < j then Shr(s[k], i) else 2 * Shr(s[k], i + 1))
  }

  lemma PartialStep(s: seq<nat>, P: seq<Point>, i: nat, j: nat, n: nat, p: nat)
    requires Group(n, p) && |s| == |P| && AllOnCurve(P, p) && j < |s|
    ensures Comb(Partial(s, i, j + 1), P, p)
         == if Shr(s[j], i) % 2 == 1 then Add(Comb(Partial(s, i, j), P, p), P[j], p) else Comb(Partial(s, i, j), P, p)
  {
    hide Add, Comb, Group, Shr;
    ShrStep(s[j], i);
    var a, b := Partial(s, i, j), Partial(s, i, j + 1);
    if Shr(s[j], i) % 2 == 1 {
      assert b == a[j := a[j] + 1];
      CombIncrement(a, P, j, n, p);
    } else {
      assert b == a;
    }
  }

  lemma AllShiftedOut(s: seq<nat>, P: seq<Point>, k: nat, p: nat)
    requires p > 0 && |s| == |P| && k == 256 && forall i :: 0 <= i < |s| ==> s[i] < U256
    ensures Comb(ShrAll(s, k), P, p) == Infinity
  {
    hide Pow;
    Pow2At256();
    forall i | 0 <= i < |s|
      ensures Shr(s[i], k) == 0
    {
      ShrZero(s[i], k);
    }
    CombZero(ShrAll(s, k), P, p);
  }

  /** `GE.mul`: the sum of the individual multiples, for every list of scalars and points. */
  method Mul(scalars: seq<int>, points: seq<GE>, n: nat, p: nat) returns (r: GE)
    requires Group(n, p) && |scalars| == |points| && AllGood(points, p)
    ensures Good(r, p)
    ensures Abs(r, p) == Comb(Reduce(scalars, n), AbsAll(points, p), p) == Sum(scalars, AbsAll(points, p), p)
  {
    hide Add, Comb, Sum, Group, Good, Abs, Shr;
    GroupPositive(n, p);
    var naps := Reduce(scalars, n);
    ghost var P := AbsAll(points, p);
    PointsOnCurve(points, n, p);
    r := GInf;
    InfinityGood(p);
    var i := 256;
    AllShiftedOut(naps, P, i, p) by { Bounded(naps, scalars, n, p); }
    while i > 0
      invariant 0 <= i <= 256
      invariant Good(r, p) && Abs(r, p) == Comb(ShrAll(naps, i), P, p)
    {
      i := i - 1;
      CombDoubled(ShrAll(naps, i + 1), P, n, p);
      r := Plus(r, r, n, p);
      assert Doubled(ShrAll(naps, i + 1)) == Partial(naps, i, 0);
      for j := 0 to |naps|
        invariant Good(r, p) && Abs(r, p) == Comb(Partial(naps, i, j), P, p)
      {
        PartialStep(naps, P, i, j, n, p);
        if Shr(naps[j], i) % 2 == 1 {
          r := Plus(r, points[j], n, p);
        }
      }
      assert Partial(naps, i, |naps|) == ShrAll(naps, i);
    }
    assert ShrAll(naps, 0) == naps by { ShrNone(naps); }
    SumReduced(scalars, P, n, p);
  }

  lemma ShrNone(s: seq<nat>)
    ensures ShrAll(s, 0) == s
  {}

  lemma Bounded(naps: seq<nat>, scalars: seq<int>, n: nat, p: nat)
    requires Group(n, p) && naps == Reduce(scalars, n)
    ensures forall i :: 0 <= i < |naps| ==> naps[i] < U256
  {}

  lemma InfinityGood(p: nat)
    requires p > 0
    ensures Good(GInf, p) && Abs(GInf, p) == Infinity
  {}

  lemma PointsOnCurve(points: seq<GE>, n: nat, p: nat)
    requires Group(n, p) && AllGood(points, p)
    ensures AllOnCurve(AbsAll(points, p), p)
  {}

  // ---- The precomputed table

  /** `table[i]` is 2^i times the point. */
  ghost predicate IsTable(table: seq<GE>, P: Point, p: nat)
    requires p > 0
  {
    forall i :: 0 <= i < |table| ==> Good(table[i], p) && Abs(table[i], p) == Mult(PowNat2(i), P, p)
  }

  function PowNat2(i: nat): (r: nat)
    ensures r == Pow(2, i) && r > 0
  {
    Pow(2, i)
  }

  class FastGEMul {
    const table: seq<GE>
    ghost const base: Point

    constructor (point: GE, n: nat, p: nat)
      requires Group(n, p) && Good(point, p)
      ensures base == Abs(point, p)
      ensures |table| == 256 && IsTable(table, base, p)
    {
      hide Add, Group, Good, Abs, Mult, OnCurve;
      GroupPositive(n, p);
      base := Abs(point, p);
      var q, t := point, [point];
      FirstEntry(point, n, p);
      for i := 0 to 255
        invariant |t| == i + 1 && Good(q, p) && q == t[i]
        invariant IsTable(t, Abs(point, p), p)
      {
        NextEntry(i, Abs(point, p), n, p);
        q := Plus(q, q, n, p);
        t := t + [q];
      }
      table := t;
    }

    /** `mul`: the table gives the same multiple as repeated addition, for every integer scalar. */
    method Mul(a: int, n: nat, p: nat) returns (result: GE)
      requires Group(n, p) && |table| == 256 && IsTable(table, base, p) && OnCurve(base, p)
      ensures Good(result, p) && Abs(result, p) == Mult(a % n, base, p) == Multiple(a, base, p)
    {
      hide Add, Group, Good, Abs, Mult, Multiple, OnCurve, Shr, IsTable, LowBits;
      GroupPositive(n, p);
      result := GInf;
      InfinityGood(p);
      var r := a % n;
      NoLowBits(r);
      FitsTable(r, n, p);
      MultZero(base, p);
      for bit := 0 to BitLength(r)
        invariant Good(result, p) && Abs(result, p) == Mult(LowBits(r, bit), base, p)
      {
        AddBit(table, r, bit, base, n, p);
        if Shr(r, bit) % 2 == 1 {
          result := Plus(result, table[bit], n, p);
        }
      }
      LowBitsAll(r);
      MultipleMod(a, base, n, p);
    }
  }

  /** What the table adds for one bit. */
  lemma AddBit(table: seq<GE>, r: nat, bit: nat, P: Point, n: nat, p: nat)
    requires Group(n, p) && IsTable(table, P, p) && OnCurve(P, p) && bit < |table|
    ensures Good(table[bit], p)
    ensures Mult(LowBits(r, bit + 1), P, p)
            == if Shr(r, bit) % 2 == 1 then Add(Mult(LowBits(r, bit), P, p), Abs(table[bit], p), p)
               else Mult(LowBits(r, bit), P, p)
  {
    hide Add, Associative, Exponent, Good, Abs, Mult, OnCurve, Shr, IsTable, LowBits;
    LowBitsStep(r, bit);
    EntryAt(table, bit, P, p);
    AddEntry(LowBits(r, bit), bit, P, n, p);
  }

  ghost predicate IsEntry(g: GE, i: nat, P: Point, p: nat)
    requires p > 0
  {
    Good(g, p) && Abs(g, p) == Mult(PowNat2(i), P, p)
  }

  lemma NoLowBits(a: nat)
    ensures LowBits(a, 0) == 0
  {}

  lemma EntryAt(table: seq<GE>, i: nat, P: Point, p: nat)
    requires p > 0 && i < |table| && IsTable(table, P, p)
    ensures Good(table[i], p) && Abs(table[i], p) == Mult(PowNat2(i), P, p)
  {
    hide Good, Abs, Mult;
    assert IsEntry(table[i], i, P, p);
  }

  lemma MultZero(P: Point, p: nat)
    requires p > 0
    ensures Mult(0, P, p) == Infinity
  {}

  lemma FirstEntry(point: GE, n: nat, p: nat)
    requires Group(n, p) && Good(point, p)
    ensures OnCurve(Abs(point, p), p)
    ensures IsEntry(point, 0, Abs(point, p), p)
  {
    var P := Abs(point, p);
    AddInfinity(P, p);
    assert Mult(1, P, p) == Add(P, Mult(0, P, p), p);
  }

  lemma NextEntry(i: nat, P: Point, n: nat, p: nat)
    requires Group(n, p) && OnCurve(P, p)
    ensures Mult(PowNat2(i + 1), P, p) == Add(Mult(PowNat2(i), P, p), Mult(PowNat2(i), P, p), p)
  {
    MultAdd(PowNat2(i), PowNat2(i), P, n, p);
  }

  lemma FitsTable(r: nat, n: nat, p: nat)
    requires Group(n, p) && r < n
    ensures BitLength(r) <= 256
  {
    hide Pow;
    Pow2At256();
    if BitLength(r) > 256 { PowMono(2, 256, BitLength(r) - 1); }
  }

  /** a modulo 2^i */
  function LowBits(a: nat, i: nat): nat {
    if i == 0 then 0 else a % 2 + 2 * LowBits(a / 2, i - 1)
  }

  lemma {:induction false} LowBitsStep(a: nat, i: nat)
    ensures LowBits(a, i + 1) == LowBits(a, i) + (if Shr(a, i) % 2 == 1 then PowNat2(i) else 0)
  {
    if i > 0 { LowBitsStep(a / 2, i - 1); }
  }

  lemma {:induction false} LowBitsAll(a: nat)
    ensures LowBits(a, BitLength(a)) == a
  {
    if a > 0 { LowBitsAll(a / 2); }
  }

  lemma AddEntry(k: nat, i: nat, P: Point, n: nat, p: nat)
    requires Group(n, p) && OnCurve(P, p)
    ensures Mult(k + PowNat2(i), P, p) == Add(Mult(k, P, p), Mult(PowNat2(i), P, p), p)
  {
    MultAdd(k, PowNat2(i), P, n, p);
  }
}
