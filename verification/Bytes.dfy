/** Byte strings and Python's fixed-width integer codecs (`to_bytes`, `from_bytes`). */
module Bytes {
  import opened Arith

  type byte = x: int | 0 <= x < 256
  type bytes = seq<byte>

  datatype Option<+T> = None | Some(value: T)

  function Repeat<T>(x: T, n: nat): (r: seq<T>)
    ensures |r| == n && forall i :: 0 <= i < n ==> r[i] == x
  {
    seq(n, _ => x)
  }

  /** The first place of an element that occurs. */
  function IndexOf<T(==)>(s: seq<T>, x: T): (i: nat)
    requires x in s
    ensures i < |s| && s[i] == x
  {
    if s[0] == x then 0 else 1 + IndexOf(s[1..], x)
  }

  /** What a loop has collected, put before what the rest yields; None stays None. */
  function Prepend<T>(done: seq<T>, rest: Option<seq<T>>): Option<seq<T>> {
    if rest.None? then None else Some(done + rest.value)
  }

  lemma PrependLaws<T>(done: seq<T>, rest: Option<seq<T>>)
    ensures Prepend([], rest) == rest
    ensures Prepend(done, Some([])) == Some(done)
  {
    if rest.Some? { assert [] + rest.value == rest.value; }
    assert done + [] == done;
  }

  lemma PrependMore<T>(done: seq<T>, more: seq<T>, rest: Option<seq<T>>)
    ensures Prepend(done + more, rest) == Prepend(done, Prepend(more, rest))
  {
    if rest.Some? { assert (done + more) + rest.value == done + (more + rest.value); }
  }

  function Pow(b: int, n: nat): (r: int)
    ensures b >= 1 ==> r >= 1
  {
    if n == 0 then 1 else b * Pow(b, n - 1)
  }

  lemma {:induction false} PowAdd(b: int, m: nat, n: nat)
    ensures Pow(b, m + n) == Pow(b, m) * Pow(b, n)
  {
    if m > 0 {
      PowAdd(b, m - 1, n);
      MulAssoc(b, Pow(b, m - 1), Pow(b, n));
    }
  }

  lemma {:induction false} PowMono(b: nat, i: nat, j: nat)
    requires b >= 1 && i <= j
    ensures Pow(b, i) <= Pow(b, j)
    decreases j - i
  {
    if i < j {
      PowMono(b, i, j - 1);
      MulAtLeast(b, Pow(b, j - 1));
    }
  }

  /** Byte `i` of `n`, counting from the least significant. */
  function ByteAt(n: nat, i: nat): byte
    decreases i
  {
    if i == 0 then n % 256 else ByteAt(n / 256, i - 1)
  }

  /** `n.to_bytes(k, 'little')`; Python raises OverflowError when `n` does not fit. */
  function LE(n: nat, k: nat): (r: bytes)
    requires n < Pow(256, k)
    ensures |r| == k
    ensures FromLE(r) == n
  {
    var r := seq<byte>(k, i requires 0 <= i < k => ByteAt(n, i));
    DigitsValue(n, r);
    r
  }

  lemma {:induction false} DigitsValue(n: nat, s: bytes)
    requires n < Pow(256, |s|)
    requires forall i :: 0 <= i < |s| ==> s[i] == ByteAt(n, i)
    ensures FromLE(s) == n
  {
    if s != [] {
      forall i | 0 <= i < |s| - 1
        ensures s[1..][i] == ByteAt(n / 256, i)
      {
        assert s[1..][i] == s[i + 1];
      }
      DigitsValue(n / 256, s[1..]);
    }
  }

  /** `int.from_bytes(s, 'little')` */
  function FromLE(s: bytes): (n: nat)
    ensures n < Pow(256, |s|)
  {
    if s == [] then 0 else s[0] + 256 * FromLE(s[1..])
  }

  lemma FourBytes(a: byte, b: byte, c: byte, d: byte)
    ensures FromLE([a, b, c, d]) == a + 0x100 * b + 0x1_0000 * c + 0x100_0000 * d
  {
    var w: bytes, x: bytes, y: bytes, z: bytes := [a, b, c, d], [b, c, d], [c, d], [d];
    assert w[1..] == x && x[1..] == y && y[1..] == z && z[1..] == [];
    assert FromLE(w) == a + 256 * FromLE(x) && FromLE(x) == b + 256 * FromLE(y);
    assert FromLE(y) == c + 256 * FromLE(z) && FromLE(z) == d;
  }

  lemma {:induction false} FromLEConcat(s: bytes, t: bytes)
    ensures FromLE(s + t) == FromLE(s) + Pow(256, |s|) * FromLE(t)
  {
    if s == [] {
      assert s + t == t;
    } else {
      FromLEConcat(s[1..], t);
      assert (s + t)[1..] == s[1..] + t;
      MulAssoc(256, Pow(256, |s| - 1), FromLE(t));
    }
  }

  lemma {:induction false} FromLEDigit(s: bytes, i: nat)
    requires i < |s|
    ensures ByteAt(FromLE(s), i) == s[i]
  {
    var n, t := FromLE(s), FromLE(s[1..]);
    assert n % 256 == s[0] && n / 256 == t;
    if i > 0 { FromLEDigit(s[1..], i - 1); }
  }

  lemma LEFromLE(s: bytes)
    ensures LE(FromLE(s), |s|) == s
  {
    forall i | 0 <= i < |s|
      ensures LE(FromLE(s), |s|)[i] == s[i]
    {
      FromLEDigit(s, i);
    }
  }

  /** `n.to_bytes(k, 'big')` */
  function BE(n: nat, k: nat): (r: bytes)
    requires n < Pow(256, k)
    ensures |r| == k
    ensures FromBE(r) == n
  {
    var r := seq<byte>(k, i requires 0 <= i < k => ByteAt(n, k - 1 - i));
    DigitsValueBE(n, r);
    r
  }

  /** `int.from_bytes(s, 'big')` */
  function FromBE(s: bytes): (n: nat)
    ensures n < Pow(256, |s|)
  {
    if s == [] then 0 else 256 * FromBE(s[..|s| - 1]) + s[|s| - 1]
  }

  lemma {:induction false} DigitsValueBE(n: nat, s: bytes)
    requires n < Pow(256, |s|)
    requires forall i :: 0 <= i < |s| ==> s[i] == ByteAt(n, |s| - 1 - i)
    ensures FromBE(s) == n
  {
    if s != [] {
      var t := s[..|s| - 1];
      assert forall i :: 0 <= i < |t| ==> t[i] == ByteAt(n / 256, |t| - 1 - i);
      DigitsValueBE(n / 256, t);
    }
  }

  lemma {:induction false} FromBEFirst(a: byte, s: bytes)
    ensures FromBE([a] + s) == Pow(256, |s|) * a + FromBE(s)
  {
    if s == [] {
      assert [a] + s == [a] && [a][..0] == [];
    } else {
      var n := |s| - 1;
      assert ([a] + s)[..n + 1] == [a] + s[..n];
      FromBEFirst(a, s[..n]);
      MulAssoc(256, Pow(256, n), a);
    }
  }

  lemma {:induction false} FromBEInjective(s: bytes, t: bytes)
    requires |s| == |t| && FromBE(s) == FromBE(t)
    ensures s == t
  {
    if s != [] {
      FromBEInjective(s[..|s| - 1], t[..|t| - 1]);
      assert s == s[..|s| - 1] + [s[|s| - 1]] && t == t[..|t| - 1] + [t[|t| - 1]];
    }
  }

  lemma Pow256Values()
    ensures Pow(256, 1) == 0x100
    ensures Pow(256, 2) == 0x1_0000
    ensures Pow(256, 3) == 0x100_0000
    ensures Pow(256, 4) == 0x1_0000_0000
    ensures Pow(256, 8) == 0x1_0000_0000_0000_0000
  {
    assert Pow(256, 4) == 0x1_0000_0000;
    PowAdd(256, 4, 4);
  }

  lemma Pow2Values()
    ensures Pow(2, 5) == 0x20
    ensures Pow(2, 8) == 0x100
    ensures Pow(2, 32) == 0x1_0000_0000
  {
    assert Pow(2, 8) == 0x100;
    PowAdd(2, 8, 8);
    PowAdd(2, 16, 16);
  }

  const U16: nat := 0x1_0000
  const U32: nat := 0x1_0000_0000
  const U64: nat := 0x1_0000_0000_0000_0000

  /** `n.to_bytes(2, 'little')` */
  function LE16(n: nat): (r: bytes)
    requires n < U16
    ensures |r| == 2 && FromLE(r) == n
  {
    Pow256Values();
    LE(n, 2)
  }

  /** `n.to_bytes(4, 'little')` */
  function LE32(n: nat): (r: bytes)
    requires n < U32
    ensures |r| == 4 && FromLE(r) == n
  {
    Pow256Values();
    LE(n, 4)
  }

  /** `n.to_bytes(8, 'little')` */
  function LE64(n: nat): (r: bytes)
    requires n < U64
    ensures |r| == 8 && FromLE(r) == n
  {
    Pow256Values();
    LE(n, 8)
  }

  /** `n.to_bytes(k, 'little', signed=True)`: two's complement. */
  function LESigned(n: int, k: nat): (r: bytes)
    requires k > 0
    requires -Pow(256, k) <= 2 * n < Pow(256, k)
    ensures |r| == k
    ensures FromLESigned(r) == n
  {
    LE(if n < 0 then n + Pow(256, k) else n, k)
  }

  /** `int.from_bytes(s, 'little', signed=True)` */
  function FromLESigned(s: bytes): (n: int)
    ensures -Pow(256, |s|) <= 2 * n < Pow(256, |s|)
  {
    var u := FromLE(s);
    if 2 * u < Pow(256, |s|) then u else u - Pow(256, |s|)
  }

  const I64_LIMIT: int := 0x8000_0000_0000_0000
  const I32_LIMIT: int := 0x8000_0000

  /** `n.to_bytes(8, 'little', signed=True)` */
  function LES64(n: int): (r: bytes)
    requires -I64_LIMIT <= n < I64_LIMIT
    ensures |r| == 8 && FromLESigned(r) == n
  {
    Pow256Values();
    LESigned(n, 8)
  }

  /** `n.to_bytes(4, 'little', signed=True)` */
  function LES32(n: int): (r: bytes)
    requires -I32_LIMIT <= n < I32_LIMIT
    ensures |r| == 4 && FromLESigned(r) == n
  {
    Pow256Values();
    LESigned(n, 4)
  }

  const U256: nat := 0x1_00000000_00000000_00000000_00000000_00000000_00000000_00000000_00000000

  lemma Pow256At32()
    ensures Pow(256, 32) == U256
  {
    Pow256Values();
    PowAdd(256, 8, 8);
    PowAdd(256, 16, 16);
  }

  lemma Pow2At256()
    ensures Pow(2, 256) == U256
  {
    hide Pow;
    Pow2Values();
    PowAdd(2, 32, 32);
    PowAdd(2, 64, 64);
    PowAdd(2, 128, 128);
  }

  /** `n.to_bytes(32, 'little')` */
  function LE256(n: nat): (r: bytes)
    requires n < U256
    ensures |r| == 32 && FromLE(r) == n
  {
    Pow256At32();
    LE(n, 32)
  }

  function Zeros(n: nat): (r: bytes)
    ensures |r| == n
    ensures forall i :: 0 <= i < n ==> r[i] == 0
  {
    Repeat(0, n)
  }

  /** The bytes of an ASCII literal. */
  function Ascii(s: string): (r: bytes)
    ensures |r| == |s|
  {
    seq<byte>(|s|, i requires 0 <= i < |s| => s[i] as int % 256)
  }

  /** Everything received in a sequence of reads. */
  function Concat(chunks: seq<bytes>): bytes {
    if chunks == [] then [] else Concat(chunks[..|chunks| - 1]) + chunks[|chunks| - 1]
  }

  lemma ConcatAssoc(a: bytes, b: bytes, c: bytes)
    ensures (a + b) + c == a + (b + c)
  {}
}
