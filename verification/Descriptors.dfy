/** Checksums of output descriptors (descriptors.py). */
module Descriptors {
  import opened Arith
  import opened Bytes
  import opened Bits
  import opened Checksum
  import B = Bech32

  const INPUT_CHARSET: string :=
    "0123456789()[],'/*abcdefgh@:$%{}IJKLMNOPQRSTUVWXYZ&+-.;<=>?!^_|~ijklmnopqrstuvwxyzABCDEFGH`#\"\\ "

  const GENERATOR: seq<nat> := [0xf5dee51989, 0xa9fdca3312, 0x1bab10e32d, 0x3706b1677a, 0x644d626ffd]

  const DESCSUM_CODE := Code(35, GENERATOR)

  lemma GeneratorBits()
    ensures var g := GENERATOR;
      && Bit(g[0], 0) && !Bit(g[0], 1) && !Bit(g[0], 2) && Bit(g[0], 3) && !Bit(g[0], 4)
      && !Bit(g[1], 0) && Bit(g[1], 1) && !Bit(g[1], 2) && !Bit(g[1], 3) && Bit(g[1], 4)
      && Bit(g[2], 0) && !Bit(g[2], 1) && Bit(g[2], 2) && Bit(g[2], 3) && !Bit(g[2], 4)
      && !Bit(g[3], 0) && Bit(g[3], 1) && !Bit(g[3], 2) && Bit(g[3], 3) && Bit(g[3], 4)
      && Bit(g[4], 0) && !Bit(g[4], 1) && Bit(g[4], 2) && Bit(g[4], 3) && Bit(g[4], 4)
  {
    TopBits(GENERATOR[0]);
    TopBits(GENERATOR[1]);
    TopBits(GENERATOR[2]);
    TopBits(GENERATOR[3]);
    TopBits(GENERATOR[4]);
    hide Bit;
  }

  lemma Pow40()
    ensures Pow(2, 40) == 0x100_0000_0000
  {
    Pow2Values();
    PowAdd(2, 32, 8);
  }

  /** The generator of the descriptor checksum loses nothing. */
  lemma DescsumCodeGood()
    ensures GoodCode(DESCSUM_CODE)
  {
    hide Pow, Bit, GoodCode;
    Pow40();
    GeneratorBits();
    IndependentIsGood(DESCSUM_CODE);
  }

  // ---- Expansion

  function CharIndex(c: char): (v: nat)
    requires c in INPUT_CHARSET
    ensures v < 95 && |INPUT_CHARSET| == 95 && INPUT_CHARSET[v] == c
  {
    IndexOf(INPUT_CHARSET, c)
  }

  predicate GroupDigits(groups: seq<nat>) {
    |groups| <= 2 && forall g :: g in groups ==> g <= 2
  }

  lemma DigitBounds(groups: seq<nat>)
    requires GroupDigits(groups)
    ensures |groups| >= 1 ==> groups[0] <= 2
    ensures |groups| >= 2 ==> groups[1] <= 2
  {
    assert forall i :: 0 <= i < |groups| ==> groups[i] in groups;
  }

  /** The symbols one more character adds, after the high parts `groups` that still wait for their symbol. */
  function Emitted(groups: seq<nat>, v: nat): seq<symbol>
    requires GroupDigits(groups) && v < 95
  {
    DigitBounds(groups);
    if |groups| == 2 then [v % 32, groups[0] * 9 + groups[1] * 3 + v / 32] else [v % 32]
  }

  function Waiting(groups: seq<nat>, v: nat): (r: seq<nat>)
    requires GroupDigits(groups) && v < 95
    ensures GroupDigits(r)
  {
    if |groups| == 2 then [] else groups + [v / 32]
  }

  lemma EndsGroup(groups: seq<nat>, v: nat)
    requires GroupDigits(groups) && |groups| == 2 && v < 95
    ensures groups[0] <= 2 && groups[1] <= 2 && v / 32 <= 2
    ensures Emitted(groups, v) == [v % 32, groups[0] * 9 + groups[1] * 3 + v / 32] && Waiting(groups, v) == []
  {
    DigitBounds(groups);
  }

  lemma JoinsGroup(groups: seq<nat>, v: nat)
    requires GroupDigits(groups) && |groups| != 2 && v < 95
    ensures |groups| <= 1 && v / 32 <= 2
    ensures Emitted(groups, v) == [v % 32] && Waiting(groups, v) == groups + [v / 32]
  {}

  /** The symbol of a last, incomplete group. */
  function Closing(groups: seq<nat>): seq<symbol>
    requires GroupDigits(groups)
  {
    DigitBounds(groups);
    if |groups| == 1 then [groups[0]] else if |groups| == 2 then [groups[0] * 3 + groups[1]] else []
  }

  /** The symbols for the rest of a string; None is a character outside the alphabet. */
  function ExpandFrom(groups: seq<nat>, s: string): Option<seq<symbol>>
    requires GroupDigits(groups)
    decreases |s|
  {
    if s == [] then Some(Closing(groups))
    else if s[0] !in INPUT_CHARSET then None
    else
      var v := CharIndex(s[0]);
      Prepend(Emitted(groups, v), ExpandFrom(Waiting(groups, v), s[1..]))
  }

  /** Three characters are four symbols: the lower five bits of each place in the alphabet, and the upper parts as
      digits to the base of three. */
  lemma ThreeCharacters(a: char, b: char, c: char, rest: string)
    requires a in INPUT_CHARSET && b in INPUT_CHARSET && c in INPUT_CHARSET
    ensures var x, y, z := CharIndex(a), CharIndex(b), CharIndex(c);
      && 9 * (x / 32) + 3 * (y / 32) + z / 32 < 32
      && ExpandFrom([], [a, b, c] + rest)
         == Prepend([x % 32, y % 32, z % 32, 9 * (x / 32) + 3 * (y / 32) + z / 32], ExpandFrom([], rest))
  {
    hide CharIndex, ExpandFrom, Emitted, Waiting, INPUT_CHARSET;
    var x, y, z := CharIndex(a), CharIndex(b), CharIndex(c);
    var last: seq<symbol> := [z % 32, 9 * (x / 32) + 3 * (y / 32) + z / 32];
    var t := ExpandFrom([], rest);
    assert [a, b, c] + rest == [a] + ([b, c] + rest) && [b, c] + rest == [b] + ([c] + rest);
    ExpandFirst([], a, [b, c] + rest);
    JoinsGroup([], x);
    ExpandFirst([x / 32], b, [c] + rest);
    JoinsGroup([x / 32], y);
    assert [] + [x / 32] == [x / 32] && [x / 32] + [y / 32] == [x / 32, y / 32];
    ExpandFirst([x / 32, y / 32], c, rest);
    EndsGroup([x / 32, y / 32], z);
    PrependMore([y % 32], last, t);
    PrependMore([x % 32], [y % 32] + last, t);
    assert [x % 32] + ([y % 32] + last) == [x % 32, y % 32, z % 32, 9 * (x / 32) + 3 * (y / 32) + z / 32];
  }

  /** One or two characters that are left over. */
  lemma LastCharacters(a: char, b: char)
    requires a in INPUT_CHARSET && b in INPUT_CHARSET
    ensures var x, y := CharIndex(a), CharIndex(b);
      && 3 * (x / 32) + y / 32 < 32
      && ExpandFrom([], [a, b]) == Some([x % 32, y % 32, 3 * (x / 32) + y / 32])
      && ExpandFrom([], [a]) == Some([x % 32, x / 32]) && ExpandFrom([], []) == Some([])
  {
    hide CharIndex, Emitted, Waiting, INPUT_CHARSET;
    var x, y := CharIndex(a), CharIndex(b);
    assert [x % 32] + [x / 32] == [x % 32, x / 32];
    assert [x % 32] + ([y % 32] + [3 * (x / 32) + y / 32]) == [x % 32, y % 32, 3 * (x / 32) + y / 32];
    assert [a, b] == [a] + [b] && [b] + [] == [b] && [a] + [] == [a];
    ExpandFirst([], a, [b]);
    ExpandFirst([], a, []);
    JoinsGroup([], x);
    ExpandFirst([x / 32], b, []);
    JoinsGroup([x / 32], y);
    assert [] + [x / 32] == [x / 32] && [x / 32] + [y / 32] == [x / 32, y / 32];
  }

  lemma ExpandFirst(groups: seq<nat>, a: char, rest: string)
    requires GroupDigits(groups) && a in INPUT_CHARSET
    ensures var v := CharIndex(a);
      ExpandFrom(groups, [a] + rest) == Prepend(Emitted(groups, v), ExpandFrom(Waiting(groups, v), rest))
  {
    hide CharIndex, Emitted, Waiting, GroupDigits;
    assert ([a] + rest)[0] == a && ([a] + rest)[1..] == rest;
  }

  /** `descsum_expand` */
  method Expand(s: string) returns (r: Option<seq<symbol>>)
    ensures r == ExpandFrom([], s)
  {
    hide CharIndex, Emitted, Waiting, Closing, GroupDigits;
    var groups: seq<nat>, symbols: seq<symbol> := [], [];
    NoGroups();
    assert s[0..] == s;
    PrependLaws(symbols, ExpandFrom([], s));
    for k := 0 to |s|
      invariant GroupDigits(groups)
      invariant ExpandFrom([], s) == Prepend(symbols, ExpandFrom(groups, s[k..]))
    {
      assert s[k..][0] == s[k] && s[k..][1..] == s[k + 1..];
      if s[k] !in INPUT_CHARSET { return None; }
      var v := CharIndex(s[k]);
      PrependMore(symbols, Emitted(groups, v), ExpandFrom(Waiting(groups, v), s[k + 1..]));
      groups, symbols := AddCharacter(groups, symbols, v);
    }
    assert s[|s|..] == [];
    DigitBounds(groups);
    ClosingIs(groups);
    if |groups| == 1 {
      symbols := symbols + [groups[0]];
    } else if |groups| == 2 {
      symbols := symbols + [groups[0] * 3 + groups[1]];
    } else {
      assert symbols + [] == symbols;
    }
    r := Some(symbols);
  }

  lemma NoGroups()
    ensures GroupDigits([])
  {}

  lemma ClosingIs(groups: seq<nat>)
    requires GroupDigits(groups)
    ensures |groups| <= 2
    ensures Closing(groups)
            == if |groups| == 1 then [groups[0]] else if |groups| == 2 then [groups[0] * 3 + groups[1]] else []
  {
    DigitBounds(groups);
  }

  /** One turn of the loop. */
  method AddCharacter(groups: seq<nat>, symbols: seq<symbol>, v: nat) returns (groups': seq<nat>, symbols': seq<symbol>)
    requires GroupDigits(groups) && v < 95
    ensures groups' == Waiting(groups, v) && symbols' == symbols + Emitted(groups, v)
  {
    hide GroupDigits, Emitted, Waiting;
    symbols' := symbols + [v % 32];
    groups' := groups + [v / 32];
    if |groups'| == 3 {
      EndsGroup(groups, v);
      symbols' := symbols' + [groups'[0] * 9 + groups'[1] * 3 + groups'[2]];
      groups' := [];
    } else {
      JoinsGroup(groups, v);
    }
  }

  // ---- Creating and checking

  /** `descsum_create`; None is the TypeError for a character outside the alphabet. */
  function Create(s: string): Option<string> {
    var e := ExpandFrom([], s);
    if e.None? then None
    else Some(s + "#" + B.Chars(Symbols(Xor(Polymod(DESCSUM_CODE, e.value + Repeat<symbol>(0, 8)), 1), 8)))
  }

  /** `descsum_check`; None is an exception: fewer than nine characters, or one outside the alphabet. */
  function Check(s: string, require: bool): Option<bool> {
    if '#' !in s then Some(!require)
    else if |s| < 9 then None
    else if s[|s| - 9] != '#' then Some(false)
    else if !B.AllInCharset(s[|s| - 8..]) then Some(false)
    else
      var e := ExpandFrom([], s[..|s| - 9]);
      if e.None? then None else Some(Polymod(DESCSUM_CODE, e.value + B.SymbolsOf(s[|s| - 8..])) == 1)
  }

  /** What the check makes of a text, the separator and eight checksum characters. */
  lemma CheckOf(s: string, sum: seq<symbol>, require: bool)
    requires |sum| == 8 && ExpandFrom([], s).Some?
    ensures Check(s + "#" + B.Chars(sum), require)
            == Some(Polymod(DESCSUM_CODE, ExpandFrom([], s).value + sum) == 1)
  {
    hide Polymod, ExpandFrom, B.Chars, B.SymbolsOf, B.AllInCharset, INPUT_CHARSET;
    var r := s + "#" + B.Chars(sum);
    B.SymbolsOfChars(sum);
    assert r[|s|] == '#' && r[..|s|] == s && r[|s| + 1..] == B.Chars(sum);
  }

  /** A descriptor with a created checksum always passes the check. */
  lemma CreatedPasses(s: string, require: bool)
    ensures Create(s).Some? ==> Check(Create(s).value, require) == Some(true)
  {
    hide GoodCode, Polymod, Xor, Symbols, ExpandFrom, B.Chars, Check, DESCSUM_CODE;
    var e := ExpandFrom([], s);
    if e.Some? {
      DescsumCodeGood();
      Pow40();
      CodeWidth();
      CreatedVerifies(DESCSUM_CODE, e.value, 8, 1);
      CheckOf(s, Symbols(Xor(Polymod(DESCSUM_CODE, e.value + Repeat<symbol>(0, 8)), 1), 8), require);
    }
  }

  lemma CodeWidth()
    ensures DESCSUM_CODE.bits == 35
  {}

  // ---- Detecting a substituted character

  /** Two expansions that differ only near their beginning. */
  ghost predicate DifferEarly(e: seq<symbol>, f: seq<symbol>) {
    |e| == |f| && e != f && var k := if |e| < 4 then |e| else 4; e[k..] == f[k..]
  }

  lemma FirstCharDiffers(groups: seq<nat>, c: char, d: char, t: string)
    requires GroupDigits(groups) && c != d
    requires ExpandFrom(groups, [c] + t).Some? && ExpandFrom(groups, [d] + t).Some?
    ensures DifferEarly(ExpandFrom(groups, [c] + t).value, ExpandFrom(groups, [d] + t).value)
  {
    hide CharIndex, ExpandFrom, Emitted, Waiting, GroupDigits;
    FirstStep(groups, c, t);
    FirstStep(groups, d, t);
    var v, w := CharIndex(c), CharIndex(d);
    if |groups| == 2 {
      EndsGroup(groups, v);
      EndsGroup(groups, w);
      PairDiffers(v, w, groups[0] * 9 + groups[1] * 3, ExpandFrom([], t).value);
    } else {
      JoinsGroup(groups, v);
      JoinsGroup(groups, w);
      GroupDiffers(groups, v / 32, w / 32, t);
      HeadDiffers(v % 32, w % 32, ExpandFrom(groups + [v / 32], t).value, ExpandFrom(groups + [w / 32], t).value);
    }
  }

  lemma PairDiffers(v: nat, w: nat, high: nat, rest: seq<symbol>)
    requires v != w && v / 32 <= 2 && w / 32 <= 2 && high <= 24
    ensures DifferEarly([v % 32, high + v / 32] + rest, [w % 32, high + w / 32] + rest)
  {
    var e: seq<symbol>, f: seq<symbol> := [v % 32, high + v / 32] + rest, [w % 32, high + w / 32] + rest;
    var k := if |e| < 4 then |e| else 4;
    assert e[0] != f[0] || e[1] != f[1];
    assert e[k..] == rest[k - 2..] && f[k..] == rest[k - 2..];
  }

  lemma HeadDiffers(x: symbol, y: symbol, e: seq<symbol>, f: seq<symbol>)
    requires |e| == |f| && (x != y || e != f)
    requires var k := if |e| < 3 then |e| else 3; e[k..] == f[k..]
    ensures DifferEarly([x] + e, [y] + f)
  {
    var e', f' := [x] + e, [y] + f;
    var k := if |e'| < 4 then |e'| else 4;
    assert e'[1..] == e && f'[1..] == f && e'[0] == x && f'[0] == y;
    assert e'[k..] == e[k - 1..] && f'[k..] == f[k - 1..];
  }

  lemma FirstStep(groups: seq<nat>, c: char, t: string)
    requires GroupDigits(groups) && ExpandFrom(groups, [c] + t).Some?
    ensures c in INPUT_CHARSET
    ensures var v := CharIndex(c);
      && ExpandFrom(Waiting(groups, v), t).Some?
      && ExpandFrom(groups, [c] + t).value == Emitted(groups, v) + ExpandFrom(Waiting(groups, v), t).value
  {
    hide CharIndex, Emitted, Waiting;
    assert ([c] + t)[1..] == t;
  }

  /** A different high part changes only the symbol it waits for. */
  lemma GroupDiffers(groups: seq<nat>, g: nat, h: nat, t: string)
    requires |groups| <= 1 && g <= 2 && h <= 2 && GroupDigits(groups + [g]) && GroupDigits(groups + [h])
    requires ExpandFrom(groups + [g], t).Some? && ExpandFrom(groups + [h], t).Some?
    ensures var e, f := ExpandFrom(groups + [g], t).value, ExpandFrom(groups + [h], t).value;
      && |e| == |f| && (g != h ==> e != f)
      && var k := if |e| < 3 then |e| else 3; e[k..] == f[k..]
    decreases 1 - |groups|
  {
    hide CharIndex;
    var gs, hs := groups + [g], groups + [h];
    var e, f := ExpandFrom(gs, t).value, ExpandFrom(hs, t).value;
    if t == [] {
      assert g != h ==> e[0] != f[0];
    } else if |groups| == 0 {
      var v := CharIndex(t[0]);
      SecondStep(g, h, v / 32, t);
      assert gs + [v / 32] == [g, v / 32] && hs + [v / 32] == [h, v / 32];
      var e', f' := ExpandFrom([g, v / 32], t[1..]).value, ExpandFrom([h, v / 32], t[1..]).value;
      assert e[1..] == e' && f[1..] == f';
      var k := if |e| < 3 then |e| else 3;
      assert e[k..] == e'[k - 1..] && f[k..] == f'[k - 1..];
    } else {
      assert g != h ==> e[1] != f[1];
      assert e[2..] == f[2..];
    }
  }

  lemma SecondStep(g: nat, h: nat, x: nat, t: string)
    requires g <= 2 && h <= 2 && x <= 2 && t != []
    requires GroupDigits([g, x]) && GroupDigits([h, x])
    requires ExpandFrom([g, x], t[1..]).Some? && ExpandFrom([h, x], t[1..]).Some?
    ensures var e, f := ExpandFrom([g, x], t[1..]).value, ExpandFrom([h, x], t[1..]).value;
      && |e| == |f| && (g != h ==> e != f)
      && var k := if |e| < 2 then |e| else 2; e[k..] == f[k..]
  {
    hide CharIndex;
    var e, f := ExpandFrom([g, x], t[1..]).value, ExpandFrom([h, x], t[1..]).value;
    if t[1..] == [] {
      assert g != h ==> e[0] != f[0];
    } else {
      assert g != h ==> e[1] != f[1];
      assert e[2..] == f[2..];
    }
  }

  /** One substituted character changes at most four consecutive symbols of the expansion. */
  lemma {:induction false} OneCharacter(groups: seq<nat>, s: string, r: string, i: nat)
    returns (before: seq<symbol>, a: seq<symbol>, b: seq<symbol>, after: seq<symbol>)
    requires GroupDigits(groups) && i < |s| && |r| == |s| && r == s[i := r[i]] && r[i] != s[i]
    requires ExpandFrom(groups, s).Some? && ExpandFrom(groups, r).Some?
    ensures ExpandFrom(groups, s) == Some(before + a + after) && ExpandFrom(groups, r) == Some(before + b + after)
    ensures |a| == |b| <= 4 && a != b
    decreases |s|
  {
    hide CharIndex, ExpandFrom, Emitted, Waiting;
    assert s == [s[0]] + s[1..] && r == [r[0]] + r[1..];
    FirstStep(groups, s[0], s[1..]);
    FirstStep(groups, r[0], r[1..]);
    if i == 0 {
      assert r[1..] == s[1..];
      FirstCharDiffers(groups, s[0], r[0], s[1..]);
      var e, f := ExpandFrom(groups, s).value, ExpandFrom(groups, r).value;
      var k := if |e| < 4 then |e| else 4;
      before, a, b, after := [], e[..k], f[..k], e[k..];
      assert e == a + after && f == b + after;
      assert [] + a == a && [] + b == b;
    } else {
      assert r[1..] == s[1..][i - 1 := r[i]];
      var v := CharIndex(s[0]);
      var head := Emitted(groups, v);
      before, a, b, after := OneCharacter(Waiting(groups, v), s[1..], r[1..], i - 1);
      PrependAssoc(head, before, a, after);
      PrependAssoc(head, before, b, after);
      before := head + before;
    }
  }

  lemma PrependAssoc(a: seq<symbol>, b: seq<symbol>, c: seq<symbol>, d: seq<symbol>)
    ensures a + (b + c + d) == (a + b) + c + d
  {
    assert a + (b + c + d) == a + (b + c) + d;
  }

  /** Substituting any one character of a descriptor that passes makes it fail: in its text, in its
      checksum, or the separator (where, if a checksum is not required, another separator must remain). */
  lemma SubstitutionDetected(s: string, r: string, i: nat, require: bool)
    requires '#' in s && Check(s, require) == Some(true)
    requires i < |s| && |r| == |s| && r == s[i := r[i]] && r[i] != s[i]
    ensures require || '#' in r ==> Check(r, require) != Some(true)
  {
    hide GoodCode, Polymod, ExpandFrom, B.AllInCharset, B.SymbolsOf;
    var n := |s| - 9;
    if i < n {
      assert r[..n] == s[..n][i := r[i]] && r[n + 1..] == s[n + 1..];
      hide INPUT_CHARSET;
      if ExpandFrom([], r[..n]).Some? { TextDetected(s[..n], r[..n], i, B.SymbolsOf(s[n + 1..])); }
    } else if i > n {
      assert r[..n] == s[..n] && r[n + 1..] == s[n + 1..][i - n - 1 := r[i]];
      hide INPUT_CHARSET;
      if B.AllInCharset(r[n + 1..]) { ChecksumDetected(ExpandFrom([], s[..n]).value, s[n + 1..], r[n + 1..], i - n - 1); }
    }
  }

  lemma TextDetected(s: string, r: string, i: nat, sum: seq<symbol>)
    requires i < |s| && |r| == |s| && r == s[i := r[i]] && r[i] != s[i]
    requires ExpandFrom([], s).Some? && ExpandFrom([], r).Some?
    ensures Polymod(DESCSUM_CODE, ExpandFrom([], r).value + sum) != Polymod(DESCSUM_CODE, ExpandFrom([], s).value + sum)
  {
    hide GoodCode, Polymod, ExpandFrom;
    DescsumCodeGood();
    var before, a, b, after := OneCharacter([], s, r, i);
    BurstChangesRemainder(DESCSUM_CODE, before, a, b, after + sum);
    FourAssoc(before, a, after, sum);
    FourAssoc(before, b, after, sum);
  }

  lemma FourAssoc(a: seq<symbol>, b: seq<symbol>, c: seq<symbol>, d: seq<symbol>)
    ensures a + b + c + d == a + b + (c + d)
  {}

  lemma ChecksumDetected(e: seq<symbol>, s: string, r: string, i: nat)
    requires B.AllInCharset(s) && B.AllInCharset(r)
    requires i < |s| && |r| == |s| && r == s[i := r[i]] && r[i] != s[i]
    ensures Polymod(DESCSUM_CODE, e + B.SymbolsOf(r)) != Polymod(DESCSUM_CODE, e + B.SymbolsOf(s))
  {
    hide GoodCode, Polymod, B.SymbolsOf, B.AllInCharset;
    DescsumCodeGood();
    SymbolDiffers(s, r, i);
    var a, b := B.SymbolsOf(s), B.SymbolsOf(r);
    BurstChangesRemainder(DESCSUM_CODE, e + a[..i], [a[i]], [b[i]], a[i + 1..]);
    Around(e, a, i);
    Around(e, b, i);
  }

  lemma Around(e: seq<symbol>, a: seq<symbol>, i: nat)
    requires i < |a|
    ensures e + a == e + a[..i] + [a[i]] + a[i + 1..]
  {}

  lemma SymbolDiffers(s: string, r: string, i: nat)
    requires B.AllInCharset(s) && B.AllInCharset(r)
    requires i < |s| && |r| == |s| && r == s[i := r[i]] && r[i] != s[i]
    ensures var a, b := B.SymbolsOf(s), B.SymbolsOf(r); a[i] != b[i] && a[..i] == b[..i] && a[i + 1..] == b[i + 1..]
  {
    hide IndexOf, B.CHARSET;
  }
}
