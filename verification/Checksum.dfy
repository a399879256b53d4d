/** The checksums of Bech32 and of output descriptors (segwit_addr.py, `bech32_polymod`; descriptors.py,
    `descsum_polymod`): one linear code over GF(2), with 5-bit symbols and a different width and generator. */
module Checksum {
  import opened Arith
  import opened Bytes
  import opened Bits

  type symbol = x: int | 0 <= x < 32

  /** `bits` is the width of the state without its top symbol. */
  datatype Code = Code(bits: nat, gen: seq<nat>)

  /** The generator words picked by the bits of `top`, combined. */
  function Feed(gen: seq<nat>, top: nat): nat {
    if gen == [] then 0 else Xor(if top % 2 == 1 then gen[0] else 0, Feed(gen[1..], top / 2))
  }

  /** One turn of the loop over the values. */
  function Step(c: Code, chk: nat, value: nat): nat {
    var low := Pow(2, c.bits);
    Xor(Xor(32 * (chk % low), value), Feed(c.gen, chk / low))
  }

  function Run(c: Code, chk: nat, values: seq<nat>): nat
    decreases |values|
  {
    if values == [] then chk else Run(c, Step(c, chk, values[0]), values[1..])
  }

  /** The polynomial remainder both formats compute. */
  function Polymod(c: Code, values: seq<nat>): nat {
    Run(c, 1, values)
  }

  method ComputePolymod(c: Code, values: seq<nat>) returns (chk: nat)
    requires |c.gen| == 5
    ensures chk == Polymod(c, values)
  {
    hide Xor;
    chk := 1;
    assert values[0..] == values;
    for k := 0 to |values|
      invariant Run(c, chk, values[k..]) == Polymod(c, values)
    {
      assert values[k..][0] == values[k] && values[k..][1..] == values[k + 1..];
      var t: nat := chk / Pow(2, c.bits);
      ghost var next := Step(c, chk, values[k]);
      chk := Xor(32 * (chk % Pow(2, c.bits)), values[k]);
      assert c.gen[0..] == c.gen;
      for i := 0 to 5
        invariant Xor(chk, Feed(c.gen[i..], t)) == next
      {
        assert c.gen[i..][0] == c.gen[i] && c.gen[i..][1..] == c.gen[i + 1..];
        var word := if t % 2 == 1 then c.gen[i] else 0;
        XorAssoc(chk, word, Feed(c.gen[i + 1..], t / 2));
        chk := Xor(chk, word);
        t := t / 2;
      }
      XorZero(chk);
    }
  }

  // ---- Linearity

  lemma {:induction false} FeedLinear(gen: seq<nat>, a: nat, b: nat)
    ensures Feed(gen, Xor(a, b)) == Xor(Feed(gen, a), Feed(gen, b))
  {
    hide Xor;
    if gen == [] {
      XorZero(0);
    } else {
      XorHalves(a, b);
      FeedLinear(gen[1..], a / 2, b / 2);
      var x, y := if a % 2 == 1 then gen[0] else 0, if b % 2 == 1 then gen[0] else 0;
      XorSelf(gen[0]);
      XorZero(gen[0]);
      XorZero(0);
      XorSwap(x, y, Feed(gen[1..], a / 2), Feed(gen[1..], b / 2));
    }
  }

  lemma TimesThirtyTwo(a: nat, b: nat)
    ensures Xor(32 * a, 32 * b) == 32 * Xor(a, b)
  {
    hide Xor;
    FivePlaces(a, 0);
    FivePlaces(b, 0);
    FivePlaces(Xor(a, b), 0);
    XorSplit(a, 0, b, 0, 5);
    XorZero(0);
  }

  lemma FivePlaces(h: nat, l: nat)
    ensures Shl(h, 5) + l == 32 * h + l && Pow(2, 5) == 32
  {
    ShlIsMul(h, 5);
  }

  lemma Concatenated(h: nat, l: nat)
    requires l < 32
    ensures Xor(32 * h, l) == 32 * h + l
  {
    hide Xor;
    FivePlaces(h, 0);
    FivePlaces(0, l);
    XorSplit(h, 0, 0, l, 5);
    XorZero(h);
    XorZero(l);
  }

  /** `n >> k` */
  function High(n: nat, k: nat): (r: nat)
    ensures r == n / Pow(2, k)
  {
    DivModOf(n, Pow(2, k));
    n / Pow(2, k)
  }

  /** `n & ((1 << k) - 1)` */
  function Low(n: nat, k: nat): (r: nat)
    ensures r == n % Pow(2, k)
  {
    n % Pow(2, k)
  }

  /** The two parts of an exclusive or at any bit position. */
  lemma SplitParts(a: nat, b: nat, k: nat)
    ensures Low(Xor(a, b), k) == Xor(Low(a, k), Low(b, k))
    ensures High(Xor(a, b), k) == Xor(High(a, k), High(b, k))
  {
    hide Xor, Pow;
    DivModOf(a, Pow(2, k));
    DivModOf(b, Pow(2, k));
    XorOfParts(a / Pow(2, k), a % Pow(2, k), b / Pow(2, k), b % Pow(2, k), k);
  }

  lemma DivModOf(n: nat, m: nat)
    requires m > 0
    ensures n == n / m * m + n % m && 0 <= n % m < m && n / m >= 0
  {}

  lemma XorOfParts(h: nat, l: nat, h': nat, l': nat, k: nat)
    requires l < Pow(2, k) && l' < Pow(2, k)
    ensures Xor(h * Pow(2, k) + l, h' * Pow(2, k) + l') % Pow(2, k) == Xor(l, l')
    ensures Xor(h * Pow(2, k) + l, h' * Pow(2, k) + l') / Pow(2, k) == Xor(h, h')
  {
    hide Xor, Pow, Shl;
    ShlIsMul(h, k);
    ShlIsMul(h', k);
    ShlIsMul(Xor(h, h'), k);
    XorSplit(h, l, h', l', k);
    DivModUnique(Xor(h, h') * Pow(2, k) + Xor(l, l'), Pow(2, k), Xor(h, h'), Xor(l, l'));
  }

  lemma StepLinear(c: Code, s: nat, t: nat, v: nat, w: nat)
    ensures Step(c, Xor(s, t), Xor(v, w)) == Xor(Step(c, s, v), Step(c, t, w))
  {
    hide Xor, Pow;
    var m := Pow(2, c.bits);
    SplitParts(s, t, c.bits);
    FeedLinear(c.gen, s / m, t / m);
    TimesThirtyTwo(s % m, t % m);
    XorSwap(32 * (s % m), 32 * (t % m), v, w);
    XorSwap(Xor(32 * (s % m), v), Xor(32 * (t % m), w), Feed(c.gen, s / m), Feed(c.gen, t / m));
  }

  function XorAll(v: seq<nat>, w: seq<nat>): (r: seq<nat>)
    requires |v| == |w|
    ensures |r| == |v| && forall i :: 0 <= i < |r| ==> r[i] == Xor(v[i], w[i])
  {
    seq(|v|, i requires 0 <= i < |v| => Xor(v[i], w[i]))
  }

  lemma {:induction false} RunLinear(c: Code, s: nat, t: nat, v: seq<nat>, w: seq<nat>)
    requires |v| == |w|
    ensures Run(c, Xor(s, t), XorAll(v, w)) == Xor(Run(c, s, v), Run(c, t, w))
    decreases |v|
  {
    hide Xor, Step;
    if v != [] {
      StepLinear(c, s, t, v[0], w[0]);
      assert XorAll(v, w)[1..] == XorAll(v[1..], w[1..]);
      RunLinear(c, Step(c, s, v[0]), Step(c, t, w[0]), v[1..], w[1..]);
    }
  }

  lemma {:induction false} RunConcat(c: Code, s: nat, v: seq<nat>, w: seq<nat>)
    ensures Run(c, s, v + w) == Run(c, Run(c, s, v), w)
    decreases |v|
  {
    hide Step;
    if v == [] {
      assert v + w == w;
    } else {
      assert (v + w)[1..] == v[1..] + w;
      RunConcat(c, Step(c, s, v[0]), v[1..], w);
    }
  }

  // ---- Codes that lose nothing

  /** State and generator words fit the width, and no choice of generator words cancels in its last symbol. */
  ghost predicate GoodCode(c: Code) {
    && |c.gen| == 5 && (forall i :: 0 <= i < 5 ==> c.gen[i] < Pow(2, c.bits + 5))
    && forall top: nat :: 0 < top < 32 ==> Feed(c.gen, top) % 32 != 0
  }

  lemma {:induction false} FeedBound(gen: seq<nat>, top: nat, k: nat)
    requires forall i :: 0 <= i < |gen| ==> gen[i] < Pow(2, k)
    ensures Feed(gen, top) < Pow(2, k)
    decreases |gen|
  {
    hide Xor, Pow;
    if gen != [] {
      FeedBound(gen[1..], top / 2, k);
      XorBound(if top % 2 == 1 then gen[0] else 0, Feed(gen[1..], top / 2), k);
    }
  }

  lemma StateParts(c: Code, chk: nat)
    requires chk < Pow(2, c.bits + 5)
    ensures chk / Pow(2, c.bits) < 32 && 32 * (chk % Pow(2, c.bits)) + 31 < Pow(2, c.bits + 5)
  {
    PowAdd(2, c.bits, 5);
    assert Pow(2, 5) == 32;
    Quotient(chk, Pow(2, c.bits));
  }

  lemma Quotient(n: nat, m: nat)
    requires m > 0 && n < m * 32
    ensures n / m < 32 && 32 * (n % m) + 31 < m * 32
  {
    assert n == n / m * m + n % m;
    if n / m >= 32 { MulMono(32, n / m, m); }
    MulMono(n % m + 1, m, 32);
  }

  lemma StepBound(c: Code, chk: nat, value: nat)
    requires GoodCode(c) && chk < Pow(2, c.bits + 5) && value < 32
    ensures Step(c, chk, value) < Pow(2, c.bits + 5)
  {
    hide Xor, Pow, Feed;
    StateParts(c, chk);
    var low, top := Low(chk, c.bits), High(chk, c.bits);
    hide Low, High;
    Concatenated(low, value);
    FeedBound(c.gen, top, c.bits + 5);
    XorBound(32 * low + value, Feed(c.gen, top), c.bits + 5);
  }

  lemma {:induction false} RunBound(c: Code, chk: nat, values: seq<symbol>)
    requires GoodCode(c) && chk < Pow(2, c.bits + 5)
    ensures Run(c, chk, values) < Pow(2, c.bits + 5)
    decreases |values|
  {
    hide Step, GoodCode, Pow;
    if values != [] {
      StepBound(c, chk, values[0]);
      RunBound(c, Step(c, chk, values[0]), values[1..]);
    }
  }

  /** A non-zero state never steps to zero on a zero symbol. */
  lemma StepKeepsDifference(c: Code, d: nat)
    requires GoodCode(c) && 0 < d < Pow(2, c.bits + 5)
    ensures Step(c, d, 0) != 0
  {
    hide Xor, Pow, Feed;
    var m := Pow(2, c.bits);
    StateParts(c, d);
    XorZero(32 * (d % m));
    var top, low := d / m, d % m;
    var feed := Feed(c.gen, top);
    if top == 0 {
      FeedNothing(c.gen);
      XorZero(32 * low);
      assert low > 0;
    } else {
      SplitParts(32 * low, feed, 5);
      FivePlaces(0, 0);
      XorZero(feed % 32);
      assert (32 * low) % 32 == 0;
      assert Xor(32 * low, feed) % 32 == feed % 32;
    }
  }

  lemma {:induction false} FeedNothing(gen: seq<nat>)
    ensures Feed(gen, 0) == 0
  {
    if gen != [] {
      FeedNothing(gen[1..]);
      XorZero(0);
    }
  }

  lemma {:induction false} RunKeepsDifference(c: Code, d: nat, n: nat)
    requires GoodCode(c) && 0 < d < Pow(2, c.bits + 5)
    ensures Run(c, d, Repeat<symbol>(0, n)) != 0
    decreases n
  {
    hide GoodCode, Pow, Step;
    if n > 0 {
      StepKeepsDifference(c, d);
      StepBound(c, d, 0);
      assert Repeat<symbol>(0, n)[1..] == Repeat<symbol>(0, n - 1);
      RunKeepsDifference(c, Step(c, d, 0), n - 1);
    }
  }

  // ---- The state as a number

  function Number(values: seq<symbol>): (r: nat)
    ensures r < Pow(2, 5 * |values|)
  {
    if values == [] then 0
    else
      var n := |values| - 1;
      PowAdd(2, 5 * n, 5);
      assert Pow(2, 5) == 32;
      32 * Number(values[..n]) + values[n]
  }

  /** As long as the state has room, symbols are only shifted in. */
  lemma {:induction false} RunShifts(c: Code, values: seq<symbol>)
    requires 5 * |values| <= c.bits + 5
    ensures Run(c, 0, values) == Number(values)
    decreases |values|
  {
    hide Xor, Pow;
    if values != [] {
      var front, last := values[..|values| - 1], values[|values| - 1];
      RunShifts(c, front);
      assert values == front + [last];
      RunConcat(c, 0, front, [last]);
      var n := Number(front);
      PowMono(2, 5 * |front|, c.bits);
      SmallDivMod(n, Pow(2, c.bits));
      FeedNothing(c.gen);
      Concatenated(n, last);
      XorZero(32 * n + last);
      RunOne(c, n, last);
    }
  }

  lemma RunOne(c: Code, s: nat, v: nat)
    ensures Run(c, s, [v]) == Step(c, s, v)
  {}

  lemma SmallDivMod(n: nat, m: nat)
    requires n < m
    ensures n / m == 0 && n % m == n
  {}

  /** The `n` symbols of a number, most significant first. */
  function Symbols(x: nat, n: nat): (r: seq<symbol>)
    ensures |r| == n
    ensures x < Pow(2, 5 * n) ==> Number(r) == x
  {
    if n == 0 then [] else
      PowAdd(2, 5 * (n - 1), 5);
      assert Pow(2, 5) == 32;
      var r := Symbols(x / 32, n - 1) + [x % 32];
      assert r[..n - 1] == Symbols(x / 32, n - 1);
      r
  }

  // ---- The two properties

  /** Appending the symbols of `Polymod(values + zeros) ^ target` makes the remainder `target`. */
  lemma CreatedVerifies(c: Code, values: seq<symbol>, n: nat, target: nat)
    requires GoodCode(c) && 5 * n == c.bits + 5 && target < Pow(2, 5 * n)
    ensures var sum := Xor(Polymod(c, values + Repeat<symbol>(0, n)), target);
      sum < Pow(2, 5 * n) && Polymod(c, values + Symbols(sum, n)) == target
  {
    hide GoodCode, Xor, Pow, Symbols, Number, Step;
    var zeros := Repeat<symbol>(0, n);
    var s := Run(c, 1, values);
    RunConcat(c, 1, values, zeros);
    var p := Run(c, s, zeros);
    OneFits(c);
    RunBound(c, 1, values);
    RunBound(c, s, zeros);
    XorBound(p, target, 5 * n);
    var sum := Xor(p, target);
    var check := Symbols(sum, n);
    RunConcat(c, 1, values, check);
    RunLinear(c, s, 0, zeros, check);
    XorZero(s);
    XorZeroes(check);
    RunShifts(c, check);
    XorAssoc(p, p, target);
    XorSelf(p);
    XorZero(target);
  }

  lemma OneFits(c: Code)
    ensures 1 < Pow(2, c.bits + 5)
  {
    PowMono(2, 1, c.bits + 5);
  }

  lemma XorZeroes(v: seq<symbol>)
    ensures XorAll(Repeat<symbol>(0, |v|), v) == v
  {
    forall i | 0 <= i < |v|
      ensures XorAll(Repeat<symbol>(0, |v|), v)[i] == v[i]
    {
      XorZero(v[i]);
    }
  }

  /** Errors confined to as many consecutive symbols as the checksum has, anywhere in a word of any length,
      always change the remainder. */
  lemma BurstChangesRemainder(c: Code, before: seq<symbol>, a: seq<symbol>, b: seq<symbol>, after: seq<symbol>)
    requires GoodCode(c) && |a| == |b| && 5 * |a| <= c.bits + 5 && a != b
    ensures Polymod(c, before + a + after) != Polymod(c, before + b + after)
  {
    hide GoodCode, Xor, Pow, Number, Step;
    var s := Run(c, 1, before);
    RunConcat(c, 1, before + a, after);
    RunConcat(c, 1, before, a);
    RunConcat(c, 1, before + b, after);
    RunConcat(c, 1, before, b);
    var e := Differences(a, b);
    RunLinear(c, s, s, a, b);
    XorSelf(s);
    RunShifts(c, e);
    NumberNonZero(e);
    var x, y := Run(c, s, a), Run(c, s, b);
    assert Xor(x, y) == Number(e);
    PowMono(2, 5 * |e|, c.bits + 5);
    RunLinear(c, x, y, after, after);
    NoDifference(after);
    RunKeepsDifference(c, Number(e), |after|);
    XorSelf(Run(c, x, after));
  }

  function Differences(a: seq<symbol>, b: seq<symbol>): (e: seq<symbol>)
    requires |a| == |b|
    ensures e == XorAll(a, b)
    ensures a != b ==> exists i :: 0 <= i < |e| && e[i] != 0
  {
    var e := seq<symbol>(|a|, i requires 0 <= i < |a| => SymbolXor(a[i], b[i]));
    assert a != b ==> exists i :: 0 <= i < |e| && e[i] != 0 by {
      if a != b {
        var i :| 0 <= i < |a| && a[i] != b[i];
        XorSelf(b[i]);
        if e[i] == 0 { XorInjective(a[i], b[i], b[i]); }
      }
    }
    e
  }

  function SymbolXor(a: symbol, b: symbol): (r: symbol)
    ensures r == Xor(a, b)
  {
    assert Pow(2, 5) == 32;
    XorBound(a, b, 5);
    Xor(a, b)
  }

  lemma {:induction false} NumberNonZero(e: seq<symbol>)
    requires exists i :: 0 <= i < |e| && e[i] != 0
    ensures Number(e) > 0
  {
    var i :| 0 <= i < |e| && e[i] != 0;
    var n := |e| - 1;
    if i < n {
      assert e[..n][i] != 0;
      NumberNonZero(e[..n]);
    }
  }

  lemma NoDifference(v: seq<symbol>)
    ensures XorAll(v, v) == Repeat<symbol>(0, |v|)
  {
    forall i | 0 <= i < |v|
      ensures XorAll(v, v)[i] == 0
    {
      XorSelf(v[i]);
    }
  }

  // ---- Checking a generator, bit by bit

  /** `(x >> i) & 1` */
  predicate Bit(x: nat, i: nat) {
    if i == 0 then x % 2 == 1 else Bit(x / 2, i - 1)
  }

  lemma {:induction false} XorBit(a: nat, b: nat, i: nat)
    ensures Bit(Xor(a, b), i) == (Bit(a, i) != Bit(b, i))
    decreases i
  {
    hide Xor;
    XorHalves(a, b);
    if i > 0 { XorBit(a / 2, b / 2, i - 1); }
  }

  lemma {:induction false} ZeroBit(i: nat)
    ensures !Bit(0, i)
  {
    if i > 0 { ZeroBit(i - 1); }
  }

  lemma FeedBitStep(gen: seq<nat>, top: nat, i: nat)
    requires gen != []
    ensures Bit(Feed(gen, top), i) == ((top % 2 == 1 && Bit(gen[0], i)) != Bit(Feed(gen[1..], top / 2), i))
  {
    hide Xor, Bit;
    XorBit(if top % 2 == 1 then gen[0] else 0, Feed(gen[1..], top / 2), i);
    ZeroBit(i);
  }

  /** Bit `i` of the combination of the generator words that `b` selects. */
  predicate Combined(g: seq<nat>, b: seq<bool>, i: nat)
    requires |g| == |b| == 5
  {
    (b[0] && Bit(g[0], i)) != ((b[1] && Bit(g[1], i)) != ((b[2] && Bit(g[2], i))
    != ((b[3] && Bit(g[3], i)) != (b[4] && Bit(g[4], i)))))
  }

  function LastBits(x: nat): (b: seq<bool>)
    ensures |b| == 5
  {
    [Bit(x, 0), Bit(x, 1), Bit(x, 2), Bit(x, 3), Bit(x, 4)]
  }

  /** Bit `i` of what five generator words feed back. */
  lemma FeedBit(g: seq<nat>, top: nat, i: nat)
    requires |g| == 5
    ensures Bit(Feed(g, top), i) == Combined(g, LastBits(top), i)
  {
    hide Feed, Bit;
    TopBits(top);
    var t1 := top / 2;
    var t2 := t1 / 2;
    var t3 := t2 / 2;
    FeedBitStep(g, top, i);
    FeedBitStep(g[1..], t1, i);
    FeedBitStep(g[2..], t2, i);
    FeedBitStep(g[3..], t3, i);
    FeedBitStep(g[4..], t3 / 2, i);
    assert g[1..][1..] == g[2..] && g[2..][1..] == g[3..] && g[3..][1..] == g[4..] && g[4..][1..] == [];
    NoWords(t3 / 2 / 2, i);
  }

  lemma TopBits(top: nat)
    ensures Bit(top, 0) == (top % 2 == 1) && Bit(top, 1) == (top / 2 % 2 == 1) && Bit(top, 2) == (top / 2 / 2 % 2 == 1)
    ensures Bit(top, 3) == (top / 2 / 2 / 2 % 2 == 1) && Bit(top, 4) == (top / 2 / 2 / 2 / 2 % 2 == 1)
  {}

  lemma NoWords(top: nat, i: nat)
    ensures !Bit(Feed([], top), i)
  {
    ZeroBit(i);
  }

  const NO_BITS := [false, false, false, false, false]

  /** Exactly the multiples of 32 have no bit among the last five. */
  lemma LastBitsZero(x: nat)
    ensures x % 32 == 0 <==> LastBits(x) == NO_BITS
  {
    TopBits(x);
    hide Bit;
    HalfDivides(x, 16);
    HalfDivides(x / 2, 8);
    HalfDivides(x / 2 / 2, 4);
    HalfDivides(x / 2 / 2 / 2, 2);
  }

  lemma HalfDivides(x: nat, m: nat)
    requires m > 0
    ensures x % (2 * m) == 0 <==> x % 2 == 0 && x / 2 % m == 0
  {
    var h := x / 2;
    var q := h / m;
    assert h == q * m + h % m;
    MulAssoc(q, 2, m);
    MulAssoc(2, q, m);
    DivModUnique(x, 2 * m, q, 2 * (h % m) + x % 2);
  }

  predicate Vanishes(g: seq<nat>, b: seq<bool>)
    requires |g| == |b| == 5
  {
    !Combined(g, b, 0) && !Combined(g, b, 1) && !Combined(g, b, 2) && !Combined(g, b, 3) && !Combined(g, b, 4)
  }

  /** Only the trivial combination of the generator words vanishes in its last symbol. */
  ghost predicate Independent(g: seq<nat>)
    requires |g| == 5
  {
    forall b: seq<bool> ::
      |b| == 5 && Vanishes(g, b) ==> b == NO_BITS
  }

  lemma IndependentFeed(g: seq<nat>, top: nat)
    requires |g| == 5 && Independent(g) && 0 < top < 32
    ensures Feed(g, top) % 32 != 0
  {
    hide Bit, Feed, Combined;
    FeedBit(g, top, 0);
    FeedBit(g, top, 1);
    FeedBit(g, top, 2);
    FeedBit(g, top, 3);
    FeedBit(g, top, 4);
    LastBitsZero(top);
    LastBitsZero(Feed(g, top));
  }

  lemma IndependentIsGood(c: Code)
    requires |c.gen| == 5 && Independent(c.gen) && forall i :: 0 <= i < 5 ==> c.gen[i] < Pow(2, c.bits + 5)
    ensures GoodCode(c)
  {
    hide Pow, Feed, Independent;
    forall top: nat | 0 < top < 32
      ensures Feed(c.gen, top) % 32 != 0
    {
      IndependentFeed(c.gen, top);
    }
  }
}
