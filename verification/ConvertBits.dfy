/** Regrouping of bits (segwit_addr.py, `convertbits`). */
module ConvertBits {
  import opened Arith
  import opened Bytes

  type bit = x: int | 0 <= x < 2

  // ---- Bit strings, most significant bit first

  function Value(b: seq<bit>): (n: nat)
    ensures n < Pow(2, |b|)
  {
    if b == [] then 0 else 2 * Value(b[..|b| - 1]) + b[|b| - 1]
  }

  function BitsOf(v: nat, n: nat): (r: seq<bit>)
    ensures |r| == n
    ensures v < Pow(2, n) ==> Value(r) == v
  {
    if n == 0 then []
    else
      var r := BitsOf(v / 2, n - 1) + [v % 2];
      assert r[..n - 1] == BitsOf(v / 2, n - 1);
      r
  }

  lemma {:induction false} BitsOfValue(b: seq<bit>)
    ensures BitsOf(Value(b), |b|) == b
  {
    if b != [] {
      BitsOfValue(b[..|b| - 1]);
      assert b == b[..|b| - 1] + [b[|b| - 1]];
    }
  }

  lemma {:induction false} ValueConcat(a: seq<bit>, b: seq<bit>)
    ensures Value(a + b) == Value(a) * Pow(2, |b|) + Value(b)
    decreases |b|
  {
    if b == [] {
      assert a + b == a;
    } else {
      var front := b[..|b| - 1];
      ValueConcat(a, front);
      assert (a + b)[..|a + b| - 1] == a + front;
      MulAssoc(Value(a), Pow(2, |front|), 2);
    }
  }

  lemma {:induction false} ZeroValue(n: nat)
    ensures Value(Repeat<bit>(0, n)) == 0
  {
    if n > 0 {
      ZeroValue(n - 1);
      assert Repeat<bit>(0, n)[..n - 1] == Repeat<bit>(0, n - 1);
    }
  }

  // ---- What the conversion means

  function AllBits(data: seq<nat>, n: nat): seq<bit> {
    if data == [] then [] else BitsOf(data[0], n) + AllBits(data[1..], n)
  }

  /** The values of the whole groups of `n` bits. */
  function Groups(b: seq<bit>, n: nat): seq<nat>
    requires n > 0
    decreases |b|
  {
    if |b| < n then [] else [Value(b[..n])] + Groups(b[n..], n)
  }

  /** The bits after the last whole group. */
  function Rest(b: seq<bit>, n: nat): (r: seq<bit>)
    requires n > 0
    ensures |r| < n
    decreases |b|
  {
    if |b| < n then b else Rest(b[n..], n)
  }

  predicate InRange(data: seq<int>, n: nat) {
    forall v :: v in data ==> 0 <= v < Pow(2, n)
  }

  function Naturals(data: seq<int>): (r: seq<nat>)
    requires forall v :: v in data ==> v >= 0
    ensures r == data
  {
    if data == [] then []
    else
      assert data[0] in data && forall v :: v in data[1..] ==> v in data;
      [data[0]] + Naturals(data[1..])
  }

  /** The last, incomplete group filled up with zero bits. */
  function Tail(b: seq<bit>, to: nat): nat
    requires to > 0
  {
    var r := Rest(b, to);
    Value(r) * Pow(2, to - |r|)
  }

  /** `convertbits` */
  ghost function Convert(data: seq<int>, from: nat, to: nat, pad: bool): Option<seq<nat>>
    requires to > 0
  {
    if !InRange(data, from) then None
    else
      var b := AllBits(Naturals(data), from);
      if pad then Some(Groups(b, to) + if Rest(b, to) != [] then [Tail(b, to)] else [])
      else if |Rest(b, to)| >= from || Tail(b, to) != 0 then None
      else Some(Groups(b, to))
  }

  // ---- The loop

  lemma {:induction false} AllBitsSnoc(data: seq<nat>, v: nat, n: nat)
    ensures AllBits(data + [v], n) == AllBits(data, n) + BitsOf(v, n)
  {
    hide BitsOf;
    if data == [] {
      assert [] + [v] == [v] && [v][1..] == [];
    } else {
      assert (data + [v])[1..] == data[1..] + [v];
      AllBitsSnoc(data[1..], v, n);
    }
  }

  lemma {:induction false} Regroup(b: seq<bit>, c: seq<bit>, n: nat)
    requires n > 0
    ensures Groups(b + c, n) == Groups(b, n) + Groups(Rest(b, n) + c, n)
    ensures Rest(b + c, n) == Rest(Rest(b, n) + c, n)
    decreases |b|
  {
    hide Value;
    if |b| >= n {
      assert (b + c)[..n] == b[..n] && (b + c)[n..] == b[n..] + c;
      Regroup(b[n..], c, n);
    } else {
      assert [] + Groups(b + c, n) == Groups(b + c, n);
    }
  }

  /** `acc` agrees with the pending bits as far as they go. */
  ghost predicate Holds(acc: nat, pending: seq<bit>) {
    acc % Pow(2, |pending|) == Value(pending)
  }

  lemma ModMod(n: nat, a: nat, b: nat)
    requires a > 0 && b > 0
    ensures (n % (a * b)) % a == n % a && (n % (a * b)) / a == n / a % b && a * b > 0
  {
    var q, r := n / (a * b), n % (a * b);
    assert n == q * (a * b) + r;
    MulAssoc(q, b, a);
    assert r == r / a * a + r % a;
    MulDistrib(q * b, r / a, a);
    DivModUnique(n, a, q * b + r / a, r % a);
    if r / a >= b { MulMono(b, r / a, a); }
    DivModUnique(n / a, b, q, r / a);
  }

  /** Shifting a value in and masking the accumulator keeps the pending bits and adds the value's. */
  lemma ShiftIn(acc: nat, pending: seq<bit>, v: nat, from: nat, room: nat)
    requires Holds(acc, pending) && v < Pow(2, from) && |pending| + from <= room
    ensures Holds((acc * Pow(2, from) + v) % Pow(2, room), pending + BitsOf(v, from))
  {
    hide Value, Pow, BitsOf;
    var p, f := Pow(2, |pending|), Pow(2, from);
    PowAdd(2, |pending|, from);
    PowAdd(2, |pending| + from, room - |pending| - from);
    ValueConcat(pending, BitsOf(v, from));
    var n := acc * f + v;
    ModMod(n, p * f, Pow(2, room - |pending| - from));
    assert acc == acc / p * p + acc % p;
    MulDistrib(acc / p * p, acc % p, f);
    MulAssoc(acc / p, p, f);
    FitsProduct(acc % p, p, v, f);
    DivModUnique(n, p * f, acc / p, acc % p * f + v);
  }

  lemma FitsProduct(x: nat, p: nat, v: nat, f: nat)
    requires x < p && v < f
    ensures x * f + v < p * f
  {
    MulMono(x + 1, p, f);
    MulDistrib(x, 1, f);
  }

  /** Taking the first group of the pending bits out of the accumulator. */
  lemma Take(acc: nat, pending: seq<bit>, to: nat)
    requires Holds(acc, pending) && to <= |pending|
    ensures acc / Pow(2, |pending| - to) % Pow(2, to) == Value(pending[..to])
    ensures Holds(acc, pending[to..])
  {
    hide Value, Pow;
    var k := |pending| - to;
    assert pending == pending[..to] + pending[to..];
    ValueConcat(pending[..to], pending[to..]);
    PowAdd(2, k, to);
    ModMod(acc, Pow(2, k), Pow(2, to));
    DivModUnique(Value(pending), Pow(2, k), Value(pending[..to]), Value(pending[to..]));
  }

  /** The padded last group. */
  lemma Fill(acc: nat, pending: seq<bit>, to: nat)
    requires Holds(acc, pending) && |pending| < to
    ensures (acc * Pow(2, to - |pending|)) % Pow(2, to) == Value(pending) * Pow(2, to - |pending|)
  {
    hide Value, Pow;
    var p, f := Pow(2, |pending|), Pow(2, to - |pending|);
    PowAdd(2, |pending|, to - |pending|);
    assert acc == acc / p * p + acc % p;
    MulDistrib(acc / p * p, acc % p, f);
    MulAssoc(acc / p, p, f);
    FitsProduct(acc % p, p, 0, f);
    DivModUnique(acc * f, p * f, acc / p, acc % p * f);
  }

  method ConvertBits(data: seq<int>, from: nat, to: nat, pad: bool) returns (r: Option<seq<nat>>)
    requires from > 0 && to > 0
    ensures r == Convert(data, from, to, pad)
  {
    hide Value, Pow, BitsOf, Groups, Rest, AllBits, Holds;
    var acc: nat, bits: nat, ret: seq<nat> := 0, 0, [];
    var maxv, maxAcc := Pow(2, to), Pow(2, from + to - 1);
    ghost var done: seq<nat>, pending: seq<bit> := [], [];
    Nothing(from, to);
    for k := 0 to |data|
      invariant done == data[..k] && InRange(data[..k], from)
      invariant bits == |pending| < to && pending == Rest(AllBits(done, from), to)
      invariant ret == Groups(AllBits(done, from), to) && Holds(acc, pending)
    {
      var value := data[k];
      if value < 0 || value >= Pow(2, from) {
        assert value in data;
        return None;
      }
      ShiftIn(acc, pending, value, from, from + to - 1);
      AllBitsSnoc(done, value, from);
      Regroup(AllBits(done, from), BitsOf(value, from), to);
      // value < 2^from, so `|` is addition here
      acc := (acc * Pow(2, from) + value) % maxAcc;
      bits := bits + from;
      pending := pending + BitsOf(value, from);
      done := done + [value];
      while bits >= to
        invariant bits == |pending| && Holds(acc, pending)
        invariant ret + Groups(pending, to) == Groups(AllBits(done, from), to)
        invariant Rest(pending, to) == Rest(AllBits(done, from), to)
      {
        bits := bits - to;
        Take(acc, pending, to);
        GroupStep(ret, pending, to);
        ret := ret + [acc / Pow(2, bits) % maxv];
        pending := pending[to..];
      }
      GroupEnd(ret, pending, to);
      assert data[..k + 1] == data[..k] + [value];
    }
    assert data[..|data|] == data && done == Naturals(data);
    Fill(acc, pending, to);
    if pad {
      if bits > 0 { ret := ret + [acc * Pow(2, to - bits) % maxv]; } else { assert ret + [] == ret; }
    } else if bits >= from || acc * Pow(2, to - bits) % maxv != 0 {
      return None;
    }
    r := Some(ret);
  }

  lemma Nothing(from: nat, to: nat)
    requires to > 0
    ensures Rest(AllBits([], from), to) == [] && Groups(AllBits([], from), to) == [] && Holds(0, [])
  {}

  lemma GroupStep(ret: seq<nat>, pending: seq<bit>, to: nat)
    requires 0 < to <= |pending|
    ensures ret + Groups(pending, to) == ret + [Value(pending[..to])] + Groups(pending[to..], to)
    ensures Rest(pending, to) == Rest(pending[to..], to)
  {}

  lemma GroupEnd(ret: seq<nat>, pending: seq<bit>, to: nat)
    requires |pending| < to
    ensures ret + Groups(pending, to) == ret && Rest(pending, to) == pending
  {}

  // ---- There and back

  lemma {:induction false} AllBitsConcat(x: seq<nat>, y: seq<nat>, n: nat)
    ensures AllBits(x + y, n) == AllBits(x, n) + AllBits(y, n)
  {
    hide BitsOf;
    if x == [] {
      assert x + y == y;
    } else {
      assert (x + y)[1..] == x[1..] + y;
      AllBitsConcat(x[1..], y, n);
    }
  }

  lemma {:induction false} BitsOfGroups(b: seq<bit>, n: nat)
    requires n > 0
    ensures AllBits(Groups(b, n), n) + Rest(b, n) == b
    decreases |b|
  {
    hide Value, BitsOf;
    if |b| >= n {
      BitsOfValue(b[..n]);
      BitsOfGroups(b[n..], n);
      hide Groups;
      AllBitsCons(Value(b[..n]), Groups(b[n..], n), n);
      FirstGroup(b, n);
      Regrouped(b, n, AllBits(Groups(b[n..], n), n), Rest(b[n..], n));
    }
  }

  lemma AllBitsCons(v: nat, g: seq<nat>, n: nat)
    ensures AllBits([v] + g, n) == BitsOf(v, n) + AllBits(g, n)
  {
    assert ([v] + g)[1..] == g;
  }

  lemma FirstGroup(b: seq<bit>, n: nat)
    requires 0 < n <= |b|
    ensures Groups(b, n) == [Value(b[..n])] + Groups(b[n..], n) && Rest(b, n) == Rest(b[n..], n)
  {}

  lemma Regrouped(b: seq<bit>, n: nat, g: seq<bit>, rest: seq<bit>)
    requires n <= |b| && g + rest == b[n..]
    ensures b[..n] + g + rest == b
  {
    assert b[..n] + g + rest == b[..n] + (g + rest);
  }

  lemma {:induction false} GroupsInRange(b: seq<bit>, n: nat)
    requires n > 0
    ensures forall v :: v in Groups(b, n) ==> v < Pow(2, n)
    decreases |b|
  {
    hide Value, Pow;
    if |b| >= n { GroupsInRange(b[n..], n); }
  }

  /** Grouping the bits of `data`, followed by less than a group, gives `data` back. */
  lemma {:induction false} GroupsOfBits(data: seq<nat>, z: seq<bit>, n: nat)
    requires n > 0 && |z| < n && forall v :: v in data ==> v < Pow(2, n)
    ensures Groups(AllBits(data, n) + z, n) == data && Rest(AllBits(data, n) + z, n) == z
  {
    hide Value, BitsOf, Pow;
    var b := AllBits(data, n) + z;
    if data == [] {
      assert b == z;
    } else {
      assert data[0] in data && forall v :: v in data[1..] ==> v in data;
      GroupsOfBits(data[1..], z, n);
      assert b[..n] == BitsOf(data[0], n) && b[n..] == AllBits(data[1..], n) + z;
      assert data == [data[0]] + data[1..];
    }
  }

  lemma {:induction false} AllBitsLength(data: seq<nat>, n: nat)
    ensures |AllBits(data, n)| == n * |data|
  {
    hide BitsOf;
    if data != [] {
      AllBitsLength(data[1..], n);
      MulDistrib(1, |data| - 1, n);
    }
  }

  /** Splitting values into smaller groups, padding, and regrouping without padding gives the values back:
      no bit is lost and the padding is always recognized as such. */
  lemma RegroupRoundTrip(data: seq<nat>, from: nat, to: nat)
    requires 0 < to <= from && forall v :: v in data ==> v < Pow(2, from)
    ensures Convert(data, from, to, true).Some?
    ensures var c := Convert(data, from, to, true).value;
      && (forall v :: v in c ==> v < Pow(2, to))
      && Convert(c, to, from, false) == Some(data)
      && to * |c| < from * |data| + to && from * |data| <= to * |c|
  {
    hide Value, BitsOf, Pow, Groups, Rest, AllBits;
    var b := AllBits(data, from);
    var r := Rest(b, to);
    var g := Groups(b, to);
    BitsOfGroups(b, to);
    GroupsInRange(b, to);
    var c := Convert(data, from, to, true).value;
    var z := if r == [] then [] else Repeat<bit>(0, to - |r|);
    if r == [] {
      assert c == g;
      assert AllBits(c, to) == b + z;
    } else {
      PaddedGroup(r, to);
      AllBitsConcat(g, [Tail(b, to)], to);
      OneGroup(Tail(b, to), to);
      assert AllBits(g, to) + (r + z) == (AllBits(g, to) + r) + z;
    }
    ZeroValue(|z|);
    assert z == Repeat<bit>(0, |z|);
    GroupsOfBits(data, z, from);
    AllBitsLength(data, from);
    AllBitsLength(c, to);
    assert Tail(b + z, from) == 0;
  }

  lemma OneGroup(v: nat, n: nat)
    ensures AllBits([v], n) == BitsOf(v, n)
  {
    assert [v][1..] == [];
  }

  lemma PaddedGroup(r: seq<bit>, to: nat)
    requires |r| < to
    ensures BitsOf(Value(r) * Pow(2, to - |r|), to) == r + Repeat<bit>(0, to - |r|)
    ensures Value(r) * Pow(2, to - |r|) < Pow(2, to)
  {
    hide BitsOf, Value;
    var z := Repeat<bit>(0, to - |r|);
    ValueConcat(r, z);
    ZeroValue(to - |r|);
    BitsOfValue(r + z);
  }

  /** Values that regroup without padding are what splitting the result with padding gives: no other list of
      values regroups to the same. */
  lemma SplitBack(c: seq<nat>, data: seq<nat>, from: nat, to: nat)
    requires 0 < to <= from && (forall v :: v in c ==> v < Pow(2, to))
    requires Convert(c, to, from, false) == Some(data)
    ensures Convert(data, from, to, true) == Some(c)
  {
    hide Value, BitsOf, Pow, Groups, Rest, AllBits;
    var b := AllBits(c, to);
    var r := Rest(b, from);
    GroupsInRange(b, from);
    BitsOfGroups(b, from);
    var a := AllBits(data, from);
    GroupsOfBits(c, [], to);
    assert b + [] == b;
    ZeroTail(r, from);
    SplitBits(a, r, to);
  }

  /** Fewer zero bits than a group, cut off after whole groups, come back as padding. */
  lemma SplitBits(a: seq<bit>, r: seq<bit>, to: nat)
    requires to > 0 && |r| < to && Value(r) == 0 && Rest(a + r, to) == []
    ensures Groups(a, to) + (if Rest(a, to) != [] then [Tail(a, to)] else []) == Groups(a + r, to)
  {
    hide Value, Pow, Groups, Rest;
    Regroup(a, r, to);
    LastGroup(Rest(a, to), r, to);
  }

  lemma ZeroTail(r: seq<bit>, n: nat)
    requires |r| < n && Value(r) * Pow(2, n - |r|) == 0
    ensures Value(r) == 0
  {}

  /** Pending bits and fewer zero bits than a group that together leave nothing over: the padded last group. */
  lemma LastGroup(p: seq<bit>, r: seq<bit>, to: nat)
    requires |p| < to && |r| < to && Rest(p + r, to) == [] && Value(r) == 0
    ensures Groups(p + r, to) == if p == [] then [] else [Value(p) * Pow(2, to - |p|)]
    ensures Rest(p, to) == p
  {
    hide Value, Pow;
    var q := p + r;
    if |q| >= to {
      assert |q[to..]| < to;
      assert q[to..] == [] && q[..to] == q;
      assert Groups(q, to) == [Value(q)] + Groups([], to);
      ValueConcat(p, r);
    }
  }

  // ---- The number that is regrouped

  /** The values as digits of a number, the most significant first. */
  function Base(d: seq<nat>, n: nat): nat {
    if d == [] then 0 else Base(d[..|d| - 1], n) * Pow(2, n) + d[|d| - 1]
  }

  lemma {:induction false} BaseIsValue(d: seq<nat>, n: nat)
    requires forall v :: v in d ==> v < Pow(2, n)
    ensures Value(AllBits(d, n)) == Base(d, n)
  {
    hide BitsOf, Pow;
    if d != [] {
      var front, last := d[..|d| - 1], d[|d| - 1];
      assert d == front + [last];
      assert last in d && forall v :: v in front ==> v in d;
      BaseIsValue(front, n);
      AllBitsSnoc(front, last, n);
      ValueConcat(AllBits(front, n), BitsOf(last, n));
    }
  }

  /** With padding, the number stays what it is, but for the zero bits appended. */
  lemma ConvertKeepsNumber(data: seq<nat>, from: nat, to: nat)
    requires 0 < to <= from && forall v :: v in data ==> v < Pow(2, from)
    ensures Convert(data, from, to, true).Some?
    ensures var c := Convert(data, from, to, true).value;
      && from * |data| <= to * |c| < from * |data| + to
      && Base(c, to) == Base(data, from) * Pow(2, to * |c| - from * |data|)
  {
    hide Convert, Base, Value, Pow;
    RegroupRoundTrip(data, from, to);
    var c := Convert(data, from, to, true).value;
    BaseIsValue(data, from);
    BaseIsValue(c, to);
    AllBitsLength(c, to);
    AllBitsLength(data, from);
    var z := PaddedBits(data, c, from, to);
    ValueConcat(AllBits(data, from), z);
  }

  /** The bits of the result are those of the input and then zeros. */
  lemma PaddedBits(data: seq<nat>, c: seq<nat>, from: nat, to: nat) returns (z: seq<bit>)
    requires 0 < to <= from && Convert(data, from, to, true) == Some(c) && Convert(c, to, from, false) == Some(data)
    requires (forall v :: v in data ==> v < Pow(2, from)) && forall v :: v in c ==> v < Pow(2, to)
    ensures AllBits(c, to) == AllBits(data, from) + z && Value(z) == 0
  {
    hide Value, BitsOf, Pow, Groups, Rest, AllBits;
    var b := AllBits(c, to);
    z := Rest(b, from);
    BitsOfGroups(b, from);
    ZeroTail(z, from);
  }
}
