/** The checksums as BIP 173 and BIP 380 define them: remainders of polynomials over a field of 32 symbols. */
module Field32 {
  import opened Arith
  import opened Bytes
  import opened Bits
  import opened Checksum
  import Bech32
  import Descriptors

  // ---- The field: polynomials over GF(2) modulo x^5 + x^3 + 1

  /** Times x: a fifth bit that appears is replaced by x^3 + 1, that is by flipping bits 3 and 0. */
  function Double(s: symbol): symbol {
    var t := 2 * s;
    if t < 32 then t else if t / 8 % 2 == 0 then t - 32 + 9 else t - 32 - 7
  }

  /** The multiples of b by the powers of x in a, added up. */
  function Times(a: nat, b: symbol): symbol {
    if a == 0 then 0 else SymbolXor(if a % 2 == 1 then b else 0, Times(a / 2, Double(b)))
  }

  // ---- Polynomials, the highest coefficient first

  function PlusAll(s: seq<symbol>, t: seq<symbol>): (r: seq<symbol>)
    requires |s| == |t|
    ensures |r| == |s| && forall i :: 0 <= i < |r| ==> r[i] == SymbolXor(s[i], t[i])
  {
    seq<symbol>(|s|, i requires 0 <= i < |s| => SymbolXor(s[i], t[i]))
  }

  function TimesAll(a: nat, s: seq<symbol>): (r: seq<symbol>)
    ensures |r| == |s| && forall i :: 0 <= i < |r| ==> r[i] == Times(a, s[i])
  {
    seq<symbol>(|s|, i requires 0 <= i < |s| => Times(a, s[i]))
  }

  /** One step of the long division by x^n + g[0] x^(n-1) + ... + g[n-1]: the next coefficient is taken in and the
      highest one cancelled. */
  function Divide(g: seq<symbol>, s: seq<symbol>, v: symbol): (r: seq<symbol>)
    requires |s| == |g| > 0
    ensures |r| == |g|
  {
    PlusAll(s[1..] + [v], TimesAll(s[0], g))
  }

  function Remainder(g: seq<symbol>, s: seq<symbol>, values: seq<symbol>): (r: seq<symbol>)
    requires |s| == |g| > 0
    ensures |r| == |g|
    decreases |values|
  {
    if values == [] then s else Remainder(g, Divide(g, s, values[0]), values[1..])
  }

  /** g times x^k */
  function Shifted(g: seq<symbol>, k: nat): (r: seq<symbol>)
    ensures |r| == |g|
  {
    if k == 0 then g
    else
      var s := Shifted(g, k - 1);
      seq<symbol>(|s|, i requires 0 <= i < |s| => Double(s[i]))
  }

  /** The generator words of a code are the multiples of one polynomial by 1, x, ..., x^4. */
  ghost predicate OverField(c: Code, g: seq<symbol>) {
    && g != [] && c.bits == 5 * (|g| - 1) && |c.gen| == 5
    && forall k :: 0 <= k < 5 ==> c.gen[k] == Number(Shifted(g, k))
  }

  // ---- The bit-wise algorithm is this division

  lemma {:induction false} NumberPlus(s: seq<symbol>, t: seq<symbol>)
    requires |s| == |t|
    ensures Xor(Number(s), Number(t)) == Number(PlusAll(s, t))
  {
    hide Xor;
    if s == [] {
      XorZero(0);
    } else {
      var n := |s| - 1;
      NumberPlus(s[..n], t[..n]);
      assert PlusAll(s, t)[..n] == PlusAll(s[..n], t[..n]);
      FivePlaces(Number(s[..n]), s[n]);
      FivePlaces(Number(t[..n]), t[n]);
      FivePlaces(Xor(Number(s[..n]), Number(t[..n])), SymbolXor(s[n], t[n]));
      XorSplit(Number(s[..n]), s[n], Number(t[..n]), t[n], 5);
    }
  }

  lemma {:induction false} NumberZero(s: seq<symbol>)
    requires forall i :: 0 <= i < |s| ==> s[i] == 0
    ensures Number(s) == 0
  {
    if s != [] { NumberZero(s[..|s| - 1]); }
  }

  /** Combining generator words by the bits of the top symbol multiplies the polynomial by it. */
  lemma {:induction false} FeedIs(c: Code, g: seq<symbol>, k: nat, top: nat)
    requires OverField(c, g) && k <= 5 && top < Pow(2, 5 - k)
    ensures Feed(c.gen[k..], top) == Number(TimesAll(top, Shifted(g, k)))
    decreases 5 - k
  {
    hide Xor, Double, Number;
    var s := Shifted(g, k);
    if k == 5 {
      assert top == 0;
      NumberZero(TimesAll(0, s));
    } else {
      var b, rest := if top % 2 == 1 then s else Repeat<symbol>(0, |s|), TimesAll(top / 2, Shifted(g, k + 1));
      FeedIs(c, g, k + 1, top / 2);
      assert c.gen[k..][0] == c.gen[k] && c.gen[k..][1..] == c.gen[k + 1..];
      NumberZero(Repeat<symbol>(0, |s|));
      NumberPlus(b, rest);
      forall i | 0 <= i < |s|
        ensures PlusAll(b, rest)[i] == TimesAll(top, s)[i]
      {
        TimesStep(top, s[i]);
        assert Shifted(g, k + 1)[i] == Double(s[i]);
      }
      assert PlusAll(b, rest) == TimesAll(top, s);
    }
  }

  lemma TimesStep(a: nat, b: symbol)
    ensures Times(a, b) == SymbolXor(if a % 2 == 1 then b else 0, Times(a / 2, Double(b)))
  {
    hide Double;
    if a == 0 { XorZero(0); }
  }

  lemma {:induction false} NumberFirst(a: symbol, s: seq<symbol>)
    ensures Number([a] + s) == a * Pow(2, 5 * |s|) + Number(s)
  {
    hide Pow;
    if s == [] {
      assert [a] + s == [a] && [a][..0] == [];
      assert Number([a]) == 32 * Number([]) + a;
      assert Pow(2, 0) == 1 by { PowAdd(2, 0, 0); NoPower(); }
    } else {
      var n := |s| - 1;
      assert ([a] + s)[..n + 1] == [a] + s[..n];
      NumberFirst(a, s[..n]);
      PowAdd(2, 5 * n, 5);
      assert Pow(2, 5) == 32 by { FivePlaces(0, 0); }
      MulAssoc(a, Pow(2, 5 * n), 32);
    }
  }

  lemma NoPower()
    ensures Pow(2, 0) == 1
  {}

  /** The top symbol of a state and the others. */
  lemma StateOf(s: seq<symbol>, bits: nat)
    requires s != [] && bits == 5 * (|s| - 1)
    ensures Number(s) / Pow(2, bits) == s[0] && Number(s) % Pow(2, bits) == Number(s[1..])
  {
    hide Pow, Number;
    NumberFirst(s[0], s[1..]);
    assert s == [s[0]] + s[1..];
    DivModUnique(Number(s), Pow(2, bits), s[0], Number(s[1..]));
  }

  lemma StepOfState(c: Code, g: seq<symbol>, s: seq<symbol>, v: symbol)
    requires OverField(c, g) && |s| == |g|
    ensures Step(c, Number(s), v) == Xor(Xor(32 * Number(s[1..]), v), Feed(c.gen, s[0]))
  {
    hide Xor, Pow, Number, Feed;
    StateOf(s, c.bits);
  }

  lemma NumberLast(s: seq<symbol>, v: symbol)
    ensures Number(s + [v]) == 32 * Number(s) + v
  {
    assert (s + [v])[..|s|] == s;
  }

  lemma StepIs(c: Code, g: seq<symbol>, s: seq<symbol>, v: symbol)
    requires OverField(c, g) && |s| == |g| > 0
    ensures Step(c, Number(s), v) == Number(Divide(g, s, v))
  {
    var low, product := s[1..] + [v], TimesAll(s[0], g);
    assert Divide(g, s, v) == PlusAll(low, product);
    hide *;
    var h, feed := Number(s[1..]), Feed(c.gen, s[0]);
    StepOfState(c, g, s, v);
    assert Step(c, Number(s), v) == Xor(Xor(32 * h, v), feed);
    Concatenated(h, v);
    NumberLast(s[1..], v);
    assert Xor(32 * h, v) == Number(low);
    FeedAll(c, g, s[0]);
    assert feed == Number(product);
    NumberPlus(low, product);
  }

  lemma FeedAll(c: Code, g: seq<symbol>, top: symbol)
    requires OverField(c, g)
    ensures Feed(c.gen, top) == Number(TimesAll(top, g))
  {
    FivePlaces(0, 0);
    FeedIs(c, g, 0, top);
    assert c.gen[0..] == c.gen;
  }

  lemma {:induction false} RunIs(c: Code, g: seq<symbol>, s: seq<symbol>, values: seq<symbol>)
    requires OverField(c, g) && |s| == |g|
    ensures Run(c, Number(s), values) == Number(Remainder(g, s, values))
    decreases |values|
  {
    hide Step, Divide, Number, Shifted;
    if values != [] {
      StepIs(c, g, s, values[0]);
      RunIs(c, g, Divide(g, s, values[0]), values[1..]);
    }
  }

  /** The checksum state is the remainder of the polynomial whose coefficients are 1 and then the values. */
  lemma PolymodIsRemainder(c: Code, g: seq<symbol>, values: seq<symbol>)
    requires OverField(c, g)
    ensures Polymod(c, values) == Number(Remainder(g, Repeat<symbol>(0, |g| - 1) + [1], values))
  {
    var zeros := Repeat<symbol>(0, |g| - 1);
    NumberZero(zeros);
    assert (zeros + [1])[..|g| - 1] == zeros;
    assert Number(zeros + [1]) == 1;
    RunIs(c, g, zeros + [1], values);
  }

  // ---- The two codes

  const BECH32_GENERATOR: seq<symbol> := [29, 22, 20, 21, 29, 18]
  const DESCRIPTOR_GENERATOR: seq<symbol> := [30, 23, 15, 14, 10, 6, 12, 9]

  lemma SixSymbols(a: symbol, b: symbol, c: symbol, d: symbol, e: symbol, f: symbol)
    ensures Number([a, b, c, d, e, f])
         == 0x200_0000 * a + 0x10_0000 * b + 0x8000 * c + 0x400 * d + 0x20 * e + f
  {
    hide Number;
    NumberEmpty();
    NumberLast([], a);
    NumberLast([a], b);
    NumberLast([a, b], c);
    NumberLast([a, b, c], d);
    NumberLast([a, b, c, d], e);
    NumberLast([a, b, c, d, e], f);
    assert [] + [a] == [a];
    assert [a] + [b] == [a, b];
    assert [a, b] + [c] == [a, b, c];
    assert [a, b, c] + [d] == [a, b, c, d];
    assert [a, b, c, d] + [e] == [a, b, c, d, e];
    assert [a, b, c, d, e] + [f] == [a, b, c, d, e, f];
  }

  lemma NumberEmpty()
    ensures Number([]) == 0
  {}

  lemma EightSymbols(s: seq<symbol>, g: symbol, h: symbol)
    requires |s| == 6
    ensures Number(s + [g, h]) == 0x400 * Number(s) + 0x20 * g + h
  {
    hide Number;
    NumberLast(s, g);
    NumberLast(s + [g], h);
    assert s + [g, h] == s + [g] + [h];
  }

  lemma NoShift(g: seq<symbol>)
    ensures Shifted(g, 0) == g
  {}

  lemma NextShift(g: seq<symbol>, k: nat, s: seq<symbol>, t: seq<symbol>)
    requires Shifted(g, k) == s && |t| == |s| && forall i :: 0 <= i < |s| ==> t[i] == Double(s[i])
    ensures Shifted(g, k + 1) == t
  {}

  /** The five generator words of Bech32 (BIP 173): one polynomial of degree 6. */
  lemma Bech32OverField()
    ensures OverField(Bech32.BECH32_CODE, BECH32_GENERATOR)
  {
    hide Number, Shifted;
    var g := BECH32_GENERATOR;
    NoShift(g);
    NextShift(g, 0, g, [19, 5, 1, 3, 19, 13]);
    NextShift(g, 1, [19, 5, 1, 3, 19, 13], [15, 10, 2, 6, 15, 26]);
    NextShift(g, 2, [15, 10, 2, 6, 15, 26], [30, 20, 4, 12, 30, 29]);
    NextShift(g, 3, [30, 20, 4, 12, 30, 29], [21, 1, 8, 24, 21, 19]);
    SixSymbols(29, 22, 20, 21, 29, 18);
    SixSymbols(19, 5, 1, 3, 19, 13);
    SixSymbols(15, 10, 2, 6, 15, 26);
    SixSymbols(30, 20, 4, 12, 30, 29);
    SixSymbols(21, 1, 8, 24, 21, 19);
  }

  /** Those of descriptors (BIP 380): one polynomial of degree 8. */
  lemma DescriptorsOverField()
    ensures OverField(Descriptors.DESCSUM_CODE, DESCRIPTOR_GENERATOR)
  {
    hide Number, Shifted;
    DescriptorShifts();
    FirstNumbers();
    LastNumbers();
  }

  const SHIFTED_ONCE: seq<symbol> := [21, 7, 30, 28, 20, 12, 24, 18]
  const SHIFTED_TWICE: seq<symbol> := [3, 14, 21, 17, 1, 24, 25, 13]
  const SHIFTED_THRICE: seq<symbol> := [6, 28, 3, 11, 2, 25, 27, 26]
  const SHIFTED_FOUR_TIMES: seq<symbol> := [12, 17, 6, 22, 4, 27, 31, 29]

  lemma DescriptorShifts()
    ensures var g := DESCRIPTOR_GENERATOR;
      && Shifted(g, 0) == g && Shifted(g, 1) == SHIFTED_ONCE && Shifted(g, 2) == SHIFTED_TWICE
      && Shifted(g, 3) == SHIFTED_THRICE && Shifted(g, 4) == SHIFTED_FOUR_TIMES
  {
    hide Shifted;
    var g := DESCRIPTOR_GENERATOR;
    NoShift(g);
    NextShift(g, 0, g, SHIFTED_ONCE);
    NextShift(g, 1, SHIFTED_ONCE, SHIFTED_TWICE);
    NextShift(g, 2, SHIFTED_TWICE, SHIFTED_THRICE);
    NextShift(g, 3, SHIFTED_THRICE, SHIFTED_FOUR_TIMES);
  }

  lemma FirstNumbers()
    ensures Number(DESCRIPTOR_GENERATOR) == 0xf5dee51989 && Number(SHIFTED_ONCE) == 0xa9fdca3312
  {
    hide Number;
    SixSymbols(30, 23, 15, 14, 10, 6);
    EightSymbols([30, 23, 15, 14, 10, 6], 12, 9);
    assert DESCRIPTOR_GENERATOR == [30, 23, 15, 14, 10, 6] + [12, 9];
    SixSymbols(21, 7, 30, 28, 20, 12);
    EightSymbols([21, 7, 30, 28, 20, 12], 24, 18);
    assert SHIFTED_ONCE == [21, 7, 30, 28, 20, 12] + [24, 18];
  }

  lemma LastNumbers()
    ensures Number(SHIFTED_TWICE) == 0x1bab10e32d && Number(SHIFTED_THRICE) == 0x3706b1677a
    ensures Number(SHIFTED_FOUR_TIMES) == 0x644d626ffd
  {
    hide Number;
    SixSymbols(3, 14, 21, 17, 1, 24);
    EightSymbols([3, 14, 21, 17, 1, 24], 25, 13);
    assert SHIFTED_TWICE == [3, 14, 21, 17, 1, 24] + [25, 13];
    SixSymbols(6, 28, 3, 11, 2, 25);
    EightSymbols([6, 28, 3, 11, 2, 25], 27, 26);
    assert SHIFTED_THRICE == [6, 28, 3, 11, 2, 25] + [27, 26];
    SixSymbols(12, 17, 6, 22, 4, 27);
    EightSymbols([12, 17, 6, 22, 4, 27], 31, 29);
    assert SHIFTED_FOUR_TIMES == [12, 17, 6, 22, 4, 27] + [31, 29];
  }
}
