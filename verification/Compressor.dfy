/** Compressed amounts (compressor.py). */
module Compressor {
  import opened Arith
  import opened Bytes

  /** Divide out tens, at most until `e` is nine. */
  function Strip(n: nat, e: nat): (nat, nat)
    requires n > 0 && e <= 9
    decreases 9 - e
  {
    if n % 10 == 0 && e < 9 then Strip(n / 10, e + 1) else (n, e)
  }

  function Compress(n: nat): nat {
    if n == 0 then 0
    else
      var (m, e) := Strip(n, 0);
      if e < 9 then 1 + (m / 10 * 9 + m % 10 - 1) * 10 + e else 1 + (m - 1) * 10 + 9
  }

  /** The digits and the exponent that a compressed amount stands for. */
  function Parts(x: nat): (r: (nat, nat))
    requires x > 0
    ensures r.0 > 0 && r.1 <= 9 && (r.1 < 9 ==> r.0 % 10 != 0)
  {
    var y := x - 1;
    var e := y % 10;
    (if e < 9 then y / 10 / 9 * 10 + y / 10 % 9 + 1 else y / 10 + 1, e)
  }

  function Decompress(x: nat): nat {
    if x == 0 then 0 else var (m, e) := Parts(x); m * Pow(10, e)
  }

  /** `compress_amount`: the assertion on the last digit cannot fail. */
  method CompressAmount(amount: nat) returns (x: nat)
    ensures x == Compress(amount)
  {
    if amount == 0 { return 0; }
    var n, e: nat := amount, 0;
    while n % 10 == 0 && e < 9
      invariant n > 0 && e <= 9 && Strip(amount, 0) == Strip(n, e)
      decreases 9 - e
    {
      n := n / 10;
      e := e + 1;
    }
    if e < 9 {
      var d := n % 10;
      assert 1 <= d <= 9;
      n := n / 10;
      x := 1 + (n * 9 + d - 1) * 10 + e;
    } else {
      x := 1 + (n - 1) * 10 + 9;
    }
  }

  /** `decompress_amount` */
  method DecompressAmount(compressed: nat) returns (n: nat)
    ensures n == Decompress(compressed)
  {
    if compressed == 0 { return 0; }
    var x := compressed - 1;
    var e := x % 10;
    x := x / 10;
    if e < 9 {
      var d := x % 9 + 1;
      x := x / 9;
      n := x * 10 + d;
    } else {
      n := x + 1;
    }
    ghost var m, e0 := n, e;
    assert (m, e0) == Parts(compressed);
    while e > 0
      invariant 0 <= e && n * Pow(10, e) == m * Pow(10, e0)
    {
      MulAssoc(n, 10, Pow(10, e - 1));
      n := n * 10;
      e := e - 1;
    }
  }

  lemma {:induction false} StripValue(n: nat, e: nat)
    requires n > 0 && e <= 9
    ensures var (m, e') := Strip(n, e);
      m > 0 && e <= e' <= 9 && n == m * Pow(10, e' - e) && (e' < 9 ==> m % 10 != 0)
    decreases 9 - e
  {
    if n % 10 == 0 && e < 9 {
      StripValue(n / 10, e + 1);
      var (m, e') := Strip(n, e);
      MulAssoc(m, Pow(10, e' - e - 1), 10);
    }
  }

  lemma {:induction false} StripPower(m: nat, e: nat, from: nat)
    requires m > 0 && from + e <= 9 && (from + e < 9 ==> m % 10 != 0)
    ensures m * Pow(10, e) > 0 && Strip(m * Pow(10, e), from) == (m, from + e)
    decreases e
  {
    if e > 0 {
      StripPower(m, e - 1, from + 1);
      TenTimes(m, Pow(10, e - 1));
    }
  }

  lemma TenTimes(m: nat, p: nat)
    ensures m * (10 * p) == 10 * (m * p) && (10 * (m * p)) % 10 == 0 && (10 * (m * p)) / 10 == m * p
  {}

  /** Decompressing inverts compressing on every amount. */
  lemma DecompressCompress(n: nat)
    ensures Decompress(Compress(n)) == n
  {
    if n > 0 {
      StripValue(n, 0);
      var (m, e) := Strip(n, 0);
      PartsOf(m, e);
    }
  }

  lemma PartsOf(m: nat, e: nat)
    requires m > 0 && e <= 9 && (e < 9 ==> m % 10 != 0)
    ensures var x := if e < 9 then 1 + (m / 10 * 9 + m % 10 - 1) * 10 + e else 1 + (m - 1) * 10 + 9;
      x > 0 && Parts(x) == (m, e)
  {}

  /** Compressing inverts decompressing on every number: together, both are bijections. */
  lemma CompressDecompress(x: nat)
    ensures Compress(Decompress(x)) == x
  {
    hide Parts, Strip, Pow;
    if x > 0 {
      var (m, e) := Parts(x);
      PartsBack(x);
      StripPower(m, e, 0);
    }
  }

  lemma PartsBack(x: nat)
    requires x > 0
    ensures var (m, e) := Parts(x);
      m > 0 && e <= 9 && (e < 9 ==> m % 10 != 0)
      && x == if e < 9 then 1 + (m / 10 * 9 + m % 10 - 1) * 10 + e else 1 + (m - 1) * 10 + 9
  {}

  /** The amounts the source's own test lists: none, 1, a hundredth of a coin, a coin, fifty, and all 21 million. */
  lemma ListedAmounts()
    ensures Compress(0) == 0x0 && Compress(1) == 0x1 && Compress(1_000_000) == 0x7
    ensures Compress(100_000_000) == 0x9 && Compress(50 * 100_000_000) == 0x32
    ensures Compress(21_000_000 * 100_000_000) == 0x1406f40
  {
    hide Compress, Decompress, Parts;
    ListedParts();
    CompressDecompress(0x0);
    CompressDecompress(0x1);
    CompressDecompress(0x7);
    CompressDecompress(0x9);
    CompressDecompress(0x32);
    CompressDecompress(0x1406f40);
  }

  lemma ListedParts()
    ensures Decompress(0x0) == 0 && Decompress(0x1) == 1 && Decompress(0x7) == 1_000_000
    ensures Decompress(0x9) == 100_000_000 && Decompress(0x32) == 50 * 100_000_000
    ensures Decompress(0x1406f40) == 21_000_000 * 100_000_000
  {
    assert Pow(10, 3) == 1000 && Pow(10, 6) == 1_000_000;
    PowAdd(10, 3, 6);
    PowAdd(10, 3, 5);
    assert Pow(10, 5) == 100_000;
  }
}
