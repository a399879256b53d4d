/** Compact targets (miner, `nbits_to_target` and `target_to_nbits`; messages.py, `uint256_from_compact`). */
module NBits {
  import opened Arith
  import opened Bytes

  type digit = x: int | 0 <= x < 16

  // ---- Hexadecimal strings

  /** `"{0:x}".format(n)` */
  function Hex(n: nat): (r: seq<digit>)
    ensures r != [] && FromHex(r) == n
    ensures |r| > 1 ==> r[0] != 0
  {
    if n < 16 then [n] else Hex(n / 16) + [n % 16]
  }

  /** `int(s, 16)` */
  function FromHex(s: seq<digit>): (n: nat)
    ensures n < Pow(16, |s|)
  {
    if s == [] then 0 else 16 * FromHex(s[..|s| - 1]) + s[|s| - 1]
  }

  lemma {:induction false} HexConcat(s: seq<digit>, t: seq<digit>)
    ensures FromHex(s + t) == FromHex(s) * Pow(16, |t|) + FromHex(t)
    decreases |t|
  {
    if t == [] {
      assert s + t == s;
    } else {
      var front := t[..|t| - 1];
      HexConcat(s, front);
      assert (s + t)[..|s + t| - 1] == s + front;
      MulAssoc(FromHex(s), Pow(16, |front|), 16);
    }
  }

  lemma {:induction false} HexZero(s: seq<digit>)
    ensures FromHex(s) == 0 <==> s == Repeat<digit>(0, |s|)
  {
    if s != [] {
      HexZero(s[..|s| - 1]);
      if s == Repeat<digit>(0, |s|) { assert s[..|s| - 1] == Repeat<digit>(0, |s| - 1); }
      if FromHex(s) == 0 { assert s == s[..|s| - 1] + [s[|s| - 1]]; }
    }
  }

  // ---- The three functions

  /** The digits `target_to_nbits` works on: at least six, an even number, the first one below 8. */
  function Padded(target: nat): (r: seq<digit>) {
    var t1 := SixDigits(Hex(target));
    var t2 := if |t1| % 2 != 0 then [0] + t1 else t1;
    if t2[0] >= 8 then [0, 0] + t2 else t2
  }

  function SixDigits(t: seq<digit>): (r: seq<digit>)
    ensures |r| >= 6 && (|r| > 6 ==> r == t)
  {
    if |t| < 6 then (Repeat<digit>(0, 6) + t)[|t|..] else t
  }

  lemma SixDigitsValue(t: seq<digit>)
    ensures FromHex(SixDigits(t)) == FromHex(t)
  {
    if |t| < 6 {
      assert SixDigits(t) == Repeat<digit>(0, 6 - |t|) + t;
      LeadingZeros(Repeat<digit>(0, 6 - |t|), t);
    }
  }

  /** `target_to_nbits` */
  function TargetToNBits(target: nat): nat {
    PaddedShape(target);
    var tstr := Padded(target);
    var sz := |tstr| / 2;
    var fix := FromHex(tstr[..6]) + if tstr[6..] != Repeat<digit>(0, sz * 2 - 6) then 1 else 0;
    sz * 0x100_0000 + fix
  }

  /** `nbits_to_target`: an integer for exponents of at least 3, a fraction (a Python float) below. */
  function NBitsToTarget(nbits: nat): real {
    var shift := nbits / 0x100_0000 % 256;
    var mantissa := (nbits % 0x100_0000) as real;
    if shift >= 3 then mantissa * Pow(256, shift - 3) as real else mantissa / Pow(256, 3 - shift) as real
  }

  /** `uint256_from_compact`; None is the ValueError for a negative shift count. */
  function UintFromCompact(c: nat): Option<nat> {
    var nbytes := c / 0x100_0000 % 256;
    if nbytes < 3 then None else Some(c % 0x100_0000 * Pow(256, nbytes - 3))
  }

  /** The two decoders agree exactly for exponents of at least 3. */
  lemma DecodersAgree(c: nat)
    ensures UintFromCompact(c).Some? <==> c / 0x100_0000 % 256 >= 3
    ensures UintFromCompact(c).Some? ==> NBitsToTarget(c) == UintFromCompact(c).value as real
  {
    var nbytes := c / 0x100_0000 % 256;
    if nbytes >= 3 { RealTimes(c % 0x100_0000, Pow(256, nbytes - 3)); }
  }

  lemma RealTimes(a: int, b: int)
    ensures (a * b) as real == a as real * b as real
  {}

  // ---- What the digits say, in numbers

  lemma PaddedShape(target: nat)
    ensures var s := Padded(target);
      |s| >= 6 && |s| % 2 == 0 && s[0] < 8 && FromHex(s) == target
      && (|s| > 6 ==> s[0] != 0 || s[1] != 0 || s[2] >= 8)
  {
    hide Hex, FromHex, SixDigits;
    SixDigitsValue(Hex(target));
    var t1 := SixDigits(Hex(target));
    var t2 := if |t1| % 2 != 0 then [0] + t1 else t1;
    LeadingZeros([0], t1);
    LeadingZeros([0, 0], t2);
  }

  lemma LeadingZeros(z: seq<digit>, s: seq<digit>)
    requires z == Repeat<digit>(0, |z|)
    ensures FromHex(z + s) == FromHex(s)
  {
    HexZero(z);
    HexConcat(z, s);
  }

  lemma {:induction false} Pow16Even(n: nat)
    ensures Pow(16, 2 * n) == Pow(256, n)
  {
    if n > 0 {
      Pow16Even(n - 1);
      assert Pow(16, 2 * n) == 16 * Pow(16, 2 * n - 1) && Pow(16, 2 * n - 1) == 16 * Pow(16, 2 * n - 2);
    }
  }

  /** The bytes that a target takes with its top bit clear, at least three. */
  predicate IsSize(target: nat, sz: nat) {
    sz >= 3 && target < 0x80_0000 * Pow(256, sz - 3) && (sz > 3 ==> target >= 0x8000 * Pow(256, sz - 3))
  }

  /** The least multiple count of `unit` that reaches `n`. */
  function CeilDiv(n: nat, unit: nat): (q: nat)
    requires unit > 0
    ensures q * unit >= n && (q > 0 ==> (q - 1) * unit < n)
  {
    CeilLaws(n, unit);
    if n % unit == 0 then n / unit else n / unit + 1
  }

  lemma CeilLaws(n: nat, unit: nat)
    requires unit > 0
    ensures n / unit * unit + n % unit == n && (n / unit + 1) * unit == n / unit * unit + unit
    ensures (n / unit - 1) * unit == n / unit * unit - unit
  {}

  /** The string arithmetic computes the size and the rounded-up leading digits. */
  lemma EncodesCeiling(target: nat)
    ensures var sz := |Padded(target)| / 2;
      IsSize(target, sz) && TargetToNBits(target) == sz * 0x100_0000 + CeilDiv(target, Pow(256, sz - 3))
  {
    hide Padded, FromHex, Pow, CeilDiv;
    PaddedShape(target);
    var s := Padded(target);
    var sz := |s| / 2;
    var top, rest := s[..6], s[6..];
    assert s == top + rest && top[0] == s[0] && top[1] == s[1] && top[2] == s[2];
    HexConcat(top, rest);
    Pow16Even(sz - 3);
    TopDigits(top);
    TopBounds(FromHex(top), FromHex(rest), Pow(256, sz - 3));
    CeilOfDigits(target, Pow(256, sz - 3), FromHex(top), FromHex(rest));
    HexZero(rest);
  }

  lemma CeilOfDigits(target: nat, unit: nat, top: nat, rest: nat)
    requires rest < unit && target == top * unit + rest
    ensures CeilDiv(target, unit) == top + if rest != 0 then 1 else 0
  {
    DivModUnique(target, unit, top, rest);
  }

  lemma TopDigits(top: seq<digit>)
    requires |top| == 6 && top[0] < 8
    ensures FromHex(top) < 0x80_0000
    ensures (top[0] != 0 || top[1] != 0 || top[2] >= 8) ==> FromHex(top) >= 0x8000
  {
    hide FromHex;
    FromHexLast(top);
    FromHexLast(top[..5]);
    FromHexLast(top[..4]);
    FromHexLast(top[..3]);
    FromHexLast(top[..2]);
    FromHexLast(top[..1]);
    assert top[..5][..4] == top[..4] && top[..4][..3] == top[..3] && top[..3][..2] == top[..2] && top[..2][..1] == top[..1];
    assert top[..1][..0] == [];
  }

  lemma FromHexLast(s: seq<digit>)
    requires s != []
    ensures FromHex(s) == 16 * FromHex(s[..|s| - 1]) + s[|s| - 1] && FromHex([]) == 0
  {}

  lemma TopBounds(top: nat, rest: nat, unit: nat)
    requires rest < unit
    ensures top < 0x80_0000 ==> top * unit + rest < 0x80_0000 * unit
    ensures top >= 0x8000 ==> top * unit + rest >= 0x8000 * unit
  {
    if top < 0x80_0000 { MulMono(top + 1, 0x80_0000, unit); MulDistrib(top, 1, unit); }
    if top >= 0x8000 { MulMono(0x8000, top, unit); }
  }

  // ---- Rounding

  /** For every target whose size fits a byte, decoding its compact form gives the least representable
      multiple that is not below it: never less, by less than one unit more, and by less than one part in
      2^15 if anything was cut off. */
  lemma RoundsUp(target: nat)
    requires |Padded(target)| / 2 <= 255
    ensures var sz := |Padded(target)| / 2;
      var decoded := UintFromCompact(TargetToNBits(target));
      && decoded.Some?
      && target <= decoded.value < target + Pow(256, sz - 3)
      && (sz > 3 ==> (decoded.value - target) * 0x8000 < target)
  {
    EncodesCeiling(target);
    var sz := |Padded(target)| / 2;
    var unit := Pow(256, sz - 3);
    var q := CeilDiv(target, unit);
    CeilBound(target, unit);
    FieldsOf(sz, q);
    if q > 0 { MulDistrib(q - 1, 1, unit); }
  }

  lemma CeilBound(target: nat, unit: nat)
    requires unit > 0 && target < 0x80_0000 * unit
    ensures CeilDiv(target, unit) <= 0x80_0000
  {
    var q := CeilDiv(target, unit);
    if q > 0x80_0000 { MulMono(0x80_0000, q - 1, unit); }
  }

  lemma FieldsOf(sz: nat, q: nat)
    requires sz <= 255 && q < 0x100_0000
    ensures (sz * 0x100_0000 + q) / 0x100_0000 % 256 == sz && (sz * 0x100_0000 + q) % 0x100_0000 == q
  {
    DivModUnique(sz * 0x100_0000 + q, 0x100_0000, sz, q);
  }

  /** The padding that is meant to keep the mantissa's top bit clear fails exactly for the targets above
      0x7fffff units: rounding up carries into it. */
  lemma MantissaTopBitIff(target: nat)
    requires |Padded(target)| / 2 <= 255
    ensures TargetToNBits(target) % 0x100_0000 >= 0x80_0000
            <==> target > 0x7f_ffff * Pow(256, |Padded(target)| / 2 - 3)
  {
    EncodesCeiling(target);
    var sz := |Padded(target)| / 2;
    var unit := Pow(256, sz - 3);
    var q := CeilDiv(target, unit);
    CeilBound(target, unit);
    FieldsOf(sz, q);
    if q < 0x80_0000 { MulMono(q, 0x7f_ffff, unit); } else { MulMono(0x7f_ffff, q - 1, unit); }
  }

  /** One of them: 0x7fffff01 is rounded up to 0x800000 units of 256. */
  lemma MantissaTopBitExample()
    ensures TargetToNBits(0x7fff_ff01) == 0x0480_0000
  {
    hide Pow, TargetToNBits, Padded, CeilDiv;
    var target := 0x7fff_ff01;
    EncodesCeiling(target);
    PowOne();
    SizeUnique(target, |Padded(target)| / 2, 4);
    CeilOfDigits(target, 256, 0x7f_ffff, 1);
  }

  lemma PowOne()
    ensures Pow(256, 1) == 256
  {}

  // ---- Inverse

  /** Mantissa with a clear top bit and no byte to spare. */
  predicate Canonical(nbits: nat) {
    var mantissa := nbits % 0x100_0000;
    nbits < U32 && mantissa < 0x80_0000 && (nbits / 0x100_0000 > 3 ==> mantissa >= 0x8000)
  }

  lemma {:induction false} UnitMono(i: nat, j: nat)
    requires i < j
    ensures 256 * Pow(256, i) <= Pow(256, j)
    decreases j - i
  {
    if i + 1 < j { UnitMono(i, j - 1); }
  }

  lemma SizeUnique(target: nat, a: nat, b: nat)
    requires IsSize(target, a) && IsSize(target, b)
    ensures a == b
  {
    if a < b { UnitMono(a - 3, b - 3); }
    if b < a { UnitMono(b - 3, a - 3); }
  }

  /** Encoding inverts decoding exactly on the canonical compact targets. */
  lemma EncodeInvertsIff(nbits: nat)
    requires nbits < U32 && nbits / 0x100_0000 >= 3
    ensures TargetToNBits(UintFromCompact(nbits).value) == nbits <==> Canonical(nbits)
  {
    var sz, mantissa := nbits / 0x100_0000, nbits % 0x100_0000;
    var unit := Pow(256, sz - 3);
    var target := mantissa * unit;
    assert UintFromCompact(nbits) == Some(target);
    EncodesCeiling(target);
    var sz' := |Padded(target)| / 2;
    if Canonical(nbits) {
      MulMono(mantissa, 0x7f_ffff, unit);
      if sz > 3 { MulMono(0x8000, mantissa, unit); }
      SizeUnique(target, sz, sz');
      DivModUnique(target, unit, mantissa, 0);
    } else if TargetToNBits(target) == nbits {
      CeilBound(target, Pow(256, sz' - 3));
      DivModUnique(nbits, 0x100_0000, sz', CeilDiv(target, Pow(256, sz' - 3)));
      NotCanonical(mantissa, unit, sz);
    }
  }

  lemma NotCanonical(mantissa: nat, unit: nat, sz: nat)
    requires sz >= 3 && unit == Pow(256, sz - 3) && IsSize(mantissa * unit, sz)
    ensures mantissa < 0x80_0000 && (sz > 3 ==> mantissa >= 0x8000)
  {
    if mantissa >= 0x80_0000 { MulMono(0x80_0000, mantissa, unit); }
    if sz > 3 && mantissa < 0x8000 { MulMono(mantissa + 1, 0x8000, unit); MulDistrib(mantissa, 1, unit); }
  }

  /** The compact target of difficulty one and that of regression tests. */
  lemma KnownTargets()
    ensures UintFromCompact(0x1d00_ffff) == Some(0xffff * Pow(256, 26)) && TargetToNBits(0xffff * Pow(256, 26)) == 0x1d00_ffff
    ensures UintFromCompact(0x207f_ffff) == Some(0x7f_ffff * Pow(256, 29)) && TargetToNBits(0x7f_ffff * Pow(256, 29)) == 0x207f_ffff
  {
    hide Pow, TargetToNBits;
    EncodeInvertsIff(0x1d00_ffff);
    EncodeInvertsIff(0x207f_ffff);
  }
}
