/** The ChaCha20 block function as RFC 8439 writes it, as a reference for the one of crypto/chacha20.py. */
module ChaCha20Reference {
  import opened Arith
  import opened Bytes
  import opened Bits
  import opened ChaCha20

  // ---- The quarter round on four numbers (section 2.1)

  datatype Four = Four(a: word, b: word, c: word, d: word)

  /** Bit by bit rotation: the upper bits of the doubled number come back at the lower end. */
  function RotateLeft(v: word, n: nat): word
    decreases n
  {
    if n == 0 then v else RotateLeft((2 * v) % 0x1_0000_0000 + v / 0x8000_0000, n - 1)
  }

  function QuarterRound(w: Four): Four {
    var a := AddWord(w.a, w.b);
    var d := RotateLeft(XorWord(w.d, a), 16);
    var c := AddWord(w.c, d);
    var b := RotateLeft(XorWord(w.b, c), 12);
    var a' := AddWord(a, b);
    var d' := RotateLeft(XorWord(d, a'), 8);
    var c' := AddWord(c, d');
    Four(a', RotateLeft(XorWord(b, c'), 7), c', d')
  }

  lemma {:induction false} RotateIs(v: word, n: nat)
    requires 0 < n < 32
    ensures RotateLeft(v, n) == Rotl(v, n)
    decreases n
  {
    hide Pow, Rotl;
    RotateLast(v, n);
    if n == 1 {
      RotlOne(v);
    } else {
      RotateIs(v, n - 1);
      RotlStep(v, n - 1);
    }
  }

  /** The last step of a rotation may as well be the outermost. */
  lemma {:induction false} RotateLast(v: word, n: nat)
    requires n > 0
    ensures var u := RotateLeft(v, n - 1); RotateLeft(v, n) == (2 * u) % 0x1_0000_0000 + u / 0x8000_0000
    decreases n
  {
    if n > 1 { RotateLast((2 * v) % 0x1_0000_0000 + v / 0x8000_0000, n - 1); }
  }

  lemma RotlOne(v: word)
    ensures Rotl(v, 1) == (2 * v) % 0x1_0000_0000 + v / 0x8000_0000
  {
    assert Pow(2, 1) == 2;
    PowThirtyOne();
  }

  lemma PowThirtyOne()
    ensures Pow(2, 31) == 0x8000_0000
  {
    PowAdd(2, 16, 15);
    assert Pow(2, 16) == 0x1_0000 by { PowAdd(2, 8, 8); }
    assert Pow(2, 15) == 0x8000 by { PowAdd(2, 8, 7); }
  }

  lemma RotlStep(v: word, n: nat)
    requires 0 < n < 31
    ensures var u := Rotl(v, n); Rotl(v, n + 1) == (2 * u) % 0x1_0000_0000 + u / 0x8000_0000
  {
    hide Pow;
    RotlParts(v, n);
    RotlParts(v, n + 1);
    var a, c := Pow(2, n), Pow(2, 31 - n);
    assert Pow(2, n + 1) == 2 * a && Pow(2, 32 - n) == 2 * c by { PowStep(n); PowStep(31 - n); }
    StepParts(v, a, c);
  }

  lemma PowStep(n: nat)
    ensures Pow(2, n + 1) == 2 * Pow(2, n)
  {}

  /** v == hi * 2c + mid * c + lo: one more bit moves from below to above. */
  lemma StepParts(v: nat, a: nat, c: nat)
    requires a > 0 && c > 0 && a * (2 * c) == 0x1_0000_0000 && v < 0x1_0000_0000
    ensures var u := v % (2 * c) * a + v / (2 * c);
      v % c * (2 * a) + v / c == (2 * u) % 0x1_0000_0000 + u / 0x8000_0000
  {
    var hi, mid, lo := Pieces(v, a, c);
    Moved(hi, mid, lo, a, c);
  }

  lemma Pieces(v: nat, a: nat, c: nat) returns (hi: nat, mid: nat, lo: nat)
    requires a > 0 && c > 0 && v < a * (2 * c)
    ensures hi < a && mid < 2 && lo < c
    ensures v / (2 * c) == hi && v % (2 * c) == mid * c + lo && v / c == 2 * hi + mid && v % c == lo
  {
    var d := 2 * c;
    hi := QuotientBelow(v, a, d);
    var r := v % d;
    mid, lo := if r >= c then 1 else 0, if r >= c then r - c else r;
    TwoPieces(hi, mid, lo, c);
    DivModUnique(v, c, 2 * hi + mid, lo);
  }

  lemma QuotientBelow(v: nat, a: nat, d: nat) returns (q: nat)
    requires d > 0 && v < a * d
    ensures q == v / d < a && v == q * d + v % d
  {
    q := v / d;
    if q >= a { MulMono(a, q, d); }
  }

  lemma TwoPieces(hi: nat, mid: nat, lo: nat, c: nat)
    requires mid < 2
    ensures hi * (2 * c) + mid * c + lo == (2 * hi + mid) * c + lo
    ensures mid == 0 ==> mid * c == 0
    ensures mid == 1 ==> mid * c == c
  {
    MulAssoc(hi, 2, c);
    MulDistrib(hi * 2, mid, c);
  }

  lemma Moved(hi: nat, mid: nat, lo: nat, a: nat, c: nat)
    requires a * (2 * c) == 0x1_0000_0000 && hi < a && mid < 2 && lo < c
    ensures var u := (mid * c + lo) * a + hi;
      lo * (2 * a) + (2 * hi + mid) == (2 * u) % 0x1_0000_0000 + u / 0x8000_0000
  {
    var x, y := c * a, lo * a;
    assert x == 0x8000_0000;
    MulDistrib(mid * c, lo, a);
    MulAssoc(mid, c, a);
    MulMono(lo + 1, c, a);
    MulDistrib(lo, 1, a);
    MulAssoc(lo, 2, a);
    assert lo * (2 * a) == 2 * y;
    var u := mid * x + y + hi;
    DivModUnique(u, 0x8000_0000, mid, y + hi);
    DivModUnique(2 * u, 0x1_0000_0000, mid, 2 * (y + hi));
  }

  function At(s: seq<word>, q: Quad): Four
    requires |s| == 16
  {
    Four(s[q.0], s[q.1], s[q.2], s[q.3])
  }

  function Put(s: seq<word>, q: Quad, w: Four): (r: seq<word>)
    requires |s| == 16
    ensures |r| == 16
  {
    s[q.0 := w.a][q.1 := w.b][q.2 := w.c][q.3 := w.d]
  }

  /** What the code does to the state is the quarter round of four of its words; the others stay. */
  lemma QuarterIs(s: seq<word>, q: Quad)
    requires |s| == 16
    ensures Quarter(s, q) == Put(s, q, QuarterRound(At(s, q)))
  {
    hide Rotl, RotateLeft, XorWord, AddWord;
    var w := At(s, q);
    var a := AddWord(w.a, w.b);
    RotateIs(XorWord(w.d, a), 16);
    var d := Rotl(XorWord(w.d, a), 16);
    var c := AddWord(w.c, d);
    RotateIs(XorWord(w.b, c), 12);
    var b := Rotl(XorWord(w.b, c), 12);
    HalfIs(s, q, 16, 12);
    var t := HalfQuarter(s, q, 16, 12);
    var a' := AddWord(a, b);
    RotateIs(XorWord(d, a'), 8);
    var d' := Rotl(XorWord(d, a'), 8);
    var c' := AddWord(c, d');
    RotateIs(XorWord(b, c'), 7);
    HalfIs(t, q, 8, 7);
  }

  lemma HalfIs(s: seq<word>, q: Quad, rd: nat, rb: nat)
    requires |s| == 16 && 0 < rd < 32 && 0 < rb < 32
    ensures var w := At(s, q);
      var a := AddWord(w.a, w.b);
      var d := Rotl(XorWord(w.d, a), rd);
      var c := AddWord(w.c, d);
      HalfQuarter(s, q, rd, rb) == Put(s, q, Four(a, Rotl(XorWord(w.b, c), rb), c, d))
  {
    hide Rotl, XorWord, AddWord;
  }

  // ---- The rounds (section 2.3)

  /** The places of quarter round `i` in round `r`: a column, or a diagonal in every other round. */
  function Places(r: nat, i: nat): (q: Quad)
    requires i < 4
  {
    var d := r % 2;
    (i, 4 + (i + d) % 4, 8 + (i + 2 * d) % 4, 12 + (i + 3 * d) % 4)
  }

  function Round(s: seq<word>, r: nat, i: nat): (t: seq<word>)
    requires |s| == 16 && i <= 4
    ensures |t| == 16
  {
    if i == 0 then s
    else
      var t := Round(s, r, i - 1);
      Put(t, Places(r, i - 1), QuarterRound(At(t, Places(r, i - 1))))
  }

  /** `n` rounds, columns first. */
  function Rounds(s: seq<word>, n: nat): (r: seq<word>)
    requires |s| == 16
    ensures |r| == 16
  {
    if n == 0 then s else Round(Rounds(s, n - 1), n - 1, 4)
  }

  lemma PlacesAre(k: nat, r: nat)
    requires k < 8
    ensures |INDICES| == 8 && INDICES[k] == Places(2 * r + k / 4, k % 4)
  {}

  /** The first `i` quarter rounds of the first or the second half of a double round. */
  lemma {:induction false} HalfDouble(s: seq<word>, half: nat, r: nat, i: nat)
    requires |s| == 16 && half < 2 && i <= 4
    ensures Quarters(s, 4 * half + i) == Round(Quarters(s, 4 * half), 2 * r + half, i)
  {
    hide Quarter, QuarterRound, Put, INDICES;
    if i > 0 {
      HalfDouble(s, half, r, i - 1);
      var k := 4 * half + i - 1;
      PlacesAre(k, r);
      QuarterIs(Quarters(s, k), INDICES[k]);
    }
  }

  /** n double rounds of the code are 2 n rounds, columns and diagonals in turn. */
  lemma {:induction false} RoundsAre(s: seq<word>, n: nat)
    requires |s| == 16
    ensures DoubleRounds(s, n) == Rounds(s, 2 * n)
  {
    hide Quarters, Round;
    if n > 0 {
      RoundsAre(s, n - 1);
      var t := DoubleRounds(s, n - 1);
      assert Quarters(t, 0) == t by { NoQuarters(t); }
      HalfDouble(t, 0, n - 1, 4);
      HalfDouble(t, 1, n - 1, 4);
      assert Rounds(s, 2 * n) == Round(Rounds(s, 2 * n - 1), 2 * n - 1, 4);
      assert Rounds(s, 2 * n - 1) == Round(Rounds(s, 2 * n - 2), 2 * n - 2, 4);
    }
  }

  lemma NoQuarters(s: seq<word>)
    requires |s| == 16
    ensures Quarters(s, 0) == s
  {}

  // ---- The state and the block (section 2.3)

  /** The bytes of the initial state are the text "expand 32-byte k", the key, the counter and the nonce. */
  lemma StateLayout(key: bytes, nonce: bytes, cnt: word)
    requires |key| == 32 && |nonce| == 12
    ensures WordsToBytes(Init(key, nonce, cnt))
         == [101, 120, 112, 97, 110, 100, 32, 51, 50, 45, 98, 121, 116, 101, 32, 107] + key + LE32(cnt) + nonce
  {
    hide WordAt, LE32, FromLE;
    var k := seq(8, i requires 0 <= i < 8 => WordAt(key, 4 * i));
    var n := seq(3, i requires 0 <= i < 3 => WordAt(nonce, 4 * i));
    WordsOfConcat(CONSTANTS + k + [cnt], n);
    WordsOfConcat(CONSTANTS + k, [cnt]);
    WordsOfConcat(CONSTANTS, k);
    WordsOfBytes(key, k, 8);
    WordsOfBytes(nonce, n, 3);
    OneWord(cnt);
    ConstantBytes();
  }

  lemma OneWord(w: word)
    ensures WordsToBytes([w]) == LE32(w)
  {
    assert [w][..0] == [];
  }

  lemma {:induction false} WordsOfConcat(s: seq<word>, t: seq<word>)
    ensures WordsToBytes(s + t) == WordsToBytes(s) + WordsToBytes(t)
  {
    hide LE32;
    if t == [] {
      assert s + t == s;
    } else {
      assert (s + t)[..|s + t| - 1] == s + t[..|t| - 1];
      WordsOfConcat(s, t[..|t| - 1]);
    }
  }

  /** Cutting bytes into words and writing the words gives the bytes. */
  lemma {:induction false} WordsOfBytes(s: bytes, words: seq<word>, n: nat)
    requires |s| == 4 * n && |words| == n && forall i :: 0 <= i < n ==> words[i] == WordAt(s, 4 * i)
    ensures WordsToBytes(words) == s
  {
    hide LE32, FromLE;
    if n == 0 {
      assert words == [];
    } else {
      var t := s[..4 * (n - 1)];
      forall i | 0 <= i < n - 1
        ensures words[i] == WordAt(t, 4 * i)
      {
        assert t[4 * i..4 * i + 4] == s[4 * i..4 * i + 4];
      }
      WordsOfBytes(t, words[..n - 1], n - 1);
      var last := s[4 * (n - 1)..];
      WordBytes(last);
      assert s == t + last;
      assert s[4 * (n - 1)..4 * (n - 1) + 4] == last;
      assert words[n - 1] == FromLE(last);
    }
  }

  lemma WordBytes(b: bytes)
    requires |b| == 4
    ensures FromLE(b) < 0x1_0000_0000 && LE32(FromLE(b)) == b
  {
    hide LE;
    Pow256Values();
    LEFromLE(b);
  }

  lemma ConstantBytes()
    ensures WordsToBytes(CONSTANTS) == [101, 120, 112, 97, 110, 100, 32, 51, 50, 45, 98, 121, 116, 101, 32, 107]
  {
    hide LE32, FromLE;
    var text: bytes := [101, 120, 112, 97, 110, 100, 32, 51, 50, 45, 98, 121, 116, 101, 32, 107];
    FourBytes(101, 120, 112, 97);
    FourBytes(110, 100, 32, 51);
    FourBytes(50, 45, 98, 121);
    FourBytes(116, 101, 32, 107);
    assert text[0..4] == [101, 120, 112, 97] && text[4..8] == [110, 100, 32, 51];
    assert text[8..12] == [50, 45, 98, 121] && text[12..16] == [116, 101, 32, 107];
    WordsOfBytes(text, CONSTANTS, 4);
  }

  /** The block: twenty rounds of the state, added to it word by word. */
  lemma BlockIs(key: bytes, nonce: bytes, cnt: word, init: seq<word>, mixed: seq<word>, words: seq<word>)
    requires |init| == |mixed| == |words| == 16 && init == Init(key, nonce, cnt)
    requires forall i :: 0 <= i < 16 ==> var m: int, t: int := mixed[i], init[i]; words[i] == (m + t) % 0x1_0000_0000
    requires mixed == Rounds(init, 20)
    ensures BlockOf(key, nonce, cnt) == WordsToBytes(words)
  {
    hide Init, Rounds, DoubleRounds, WordsToBytes;
    RoundsAre(init, 10);
    assert AddAll(mixed, init) == words;
  }

  /** Words are written in order, the lowest byte first. */
  lemma {:induction false} WordOfWords(s: seq<word>, i: nat)
    requires i < |s|
    ensures FromLE(WordsToBytes(s)[4 * i..4 * i + 4]) == s[i]
    decreases |s|
  {
    hide LE32, FromLE;
    var n := |s| - 1;
    var b := WordsToBytes(s);
    assert b == WordsToBytes(s[..n]) + LE32(s[n]);
    if i == n {
      assert b[4 * i..4 * i + 4] == LE32(s[n]);
    } else {
      WordOfWords(s[..n], i);
      assert b[4 * i..4 * i + 4] == WordsToBytes(s[..n])[4 * i..4 * i + 4];
    }
  }

  // ---- The test vector of section 2.1.1

  type bit = x: nat | x < 2

  function Differ(x: bit, y: bit): bit {
    if x == y then 0 else 1
  }

  /** The lowest four bits of an exclusive or. */
  lemma XorNibble(u: nat, x3: bit, x2: bit, x1: bit, x0: bit, v: nat, y3: bit, y2: bit, y1: bit, y0: bit)
    ensures Xor(16 * u + 8 * x3 + 4 * x2 + 2 * x1 + x0, 16 * v + 8 * y3 + 4 * y2 + 2 * y1 + y0)
         == 16 * Xor(u, v) + 8 * Differ(x3, y3) + 4 * Differ(x2, y2) + 2 * Differ(x1, y1) + Differ(x0, y0)
  {
    hide Xor;
    XorPair(u, x3, v, y3);
    XorPair(2 * u + x3, x2, 2 * v + y3, y2);
    XorPair(4 * u + 2 * x3 + x2, x1, 4 * v + 2 * y3 + y2, y1);
    XorPair(8 * u + 4 * x3 + 2 * x2 + x1, x0, 8 * v + 4 * y3 + 2 * y2 + y1, y0);
  }

  lemma FirstXor()
    ensures Xor(0x1234567, 0x12131415) == 0x13305172
  {
    hide Xor;
    XorNibble(0x123456, 0, 1, 1, 1, 0x1213141, 0, 1, 0, 1);
    XorNibble(0x12345, 0, 1, 1, 0, 0x121314, 0, 0, 0, 1);
    XorNibble(0x1234, 0, 1, 0, 1, 0x12131, 0, 1, 0, 0);
    XorNibble(0x123, 0, 1, 0, 0, 0x1213, 0, 0, 0, 1);
    XorNibble(0x12, 0, 0, 1, 1, 0x121, 0, 0, 1, 1);
    XorNibble(0x1, 0, 0, 1, 0, 0x12, 0, 0, 0, 1);
    XorNibble(0x0, 0, 0, 0, 1, 0x1, 0, 0, 1, 0);
    XorNibble(0x0, 0, 0, 0, 0, 0x0, 0, 0, 0, 1);
    XorZero(0);
  }

  lemma SecondXor()
    ensures Xor(0x1020304, 0xecff8273) == 0xedfd8177
  {
    hide Xor;
    XorNibble(0x102030, 0, 1, 0, 0, 0xecff827, 0, 0, 1, 1);
    XorNibble(0x10203, 0, 0, 0, 0, 0xecff82, 0, 1, 1, 1);
    XorNibble(0x1020, 0, 0, 1, 1, 0xecff8, 0, 0, 1, 0);
    XorNibble(0x102, 0, 0, 0, 0, 0xecff, 1, 0, 0, 0);
    XorNibble(0x10, 0, 0, 1, 0, 0xecf, 1, 1, 1, 1);
    XorNibble(0x1, 0, 0, 0, 0, 0xec, 1, 1, 1, 1);
    XorNibble(0x0, 0, 0, 0, 1, 0xe, 1, 1, 0, 0);
    XorNibble(0x0, 0, 0, 0, 0, 0x0, 1, 1, 1, 0);
    XorZero(0);
  }

  lemma ThirdXor()
    ensures Xor(0x51721330, 0xea2a92f4) == 0xbb5881c4
  {
    hide Xor;
    XorNibble(0x5172133, 0, 0, 0, 0, 0xea2a92f, 0, 1, 0, 0);
    XorNibble(0x517213, 0, 0, 1, 1, 0xea2a92, 1, 1, 1, 1);
    XorNibble(0x51721, 0, 0, 1, 1, 0xea2a9, 0, 0, 1, 0);
    XorNibble(0x5172, 0, 0, 0, 1, 0xea2a, 1, 0, 0, 1);
    XorNibble(0x517, 0, 0, 1, 0, 0xea2, 1, 0, 1, 0);
    XorNibble(0x51, 0, 1, 1, 1, 0xea, 0, 0, 1, 0);
    XorNibble(0x5, 0, 0, 0, 1, 0xe, 1, 0, 1, 0);
    XorNibble(0x0, 0, 1, 0, 1, 0x0, 1, 1, 1, 0);
    XorZero(0);
  }

  lemma FourthXor()
    ensures Xor(0xd8177edf, 0x4581472e) == 0x9d9639f1
  {
    hide Xor;
    XorNibble(0xd8177ed, 1, 1, 1, 1, 0x4581472, 1, 1, 1, 0);
    XorNibble(0xd8177e, 1, 1, 0, 1, 0x458147, 0, 0, 1, 0);
    XorNibble(0xd8177, 1, 1, 1, 0, 0x45814, 0, 1, 1, 1);
    XorNibble(0xd817, 0, 1, 1, 1, 0x4581, 0, 1, 0, 0);
    XorNibble(0xd81, 0, 1, 1, 1, 0x458, 0, 0, 0, 1);
    XorNibble(0xd8, 0, 0, 0, 1, 0x45, 1, 0, 0, 0);
    XorNibble(0xd, 1, 0, 0, 0, 0x4, 0, 1, 0, 1);
    XorNibble(0x0, 1, 1, 0, 1, 0x0, 0, 1, 0, 0);
    XorZero(0);
  }

  /** The test vector for the quarter round. */
  lemma QuarterRoundVector()
    ensures QuarterRound(Four(0x11111111, 0x01020304, 0x9b8d6f43, 0x01234567))
         == Four(0xea2a92f4, 0xcb1cf8ce, 0x4581472e, 0x5881c4bb)
  {
    hide Xor, RotateLeft;
    FirstXor();
    SecondXor();
    ThirdXor();
    FourthXor();
    Rotations();
  }

  lemma Rotations()
    ensures RotateLeft(0x13305172, 16) == 0x51721330 && RotateLeft(0xedfd8177, 12) == 0xd8177edf
    ensures RotateLeft(0xbb5881c4, 8) == 0x5881c4bb && RotateLeft(0x9d9639f1, 7) == 0xcb1cf8ce
  {
    hide RotateLeft, Rotl, Pow;
    Rotation(0x13305172, 16, 0x1_0000, 0x1_0000) by { PowerSixteen(); }
    Rotation(0xedfd8177, 12, 0x1000, 0x10_0000) by { PowersTwelve(); }
    Rotation(0xbb5881c4, 8, 0x100, 0x100_0000) by { PowersEight(); }
    Rotation(0x9d9639f1, 7, 0x80, 0x200_0000) by { PowersSeven(); }
  }

  lemma Rotation(v: word, n: nat, a: nat, c: nat)
    requires 0 < n < 32 && a == Pow(2, n) && c == Pow(2, 32 - n) && c > 0
    ensures RotateLeft(v, n) == v * a % 0x1_0000_0000 + v / c
  {
    hide Pow, RotateLeft;
    RotateIs(v, n);
  }

  lemma PowerSixteen()
    ensures Pow(2, 16) == 0x1_0000
  {
    assert Pow(2, 8) == 0x100;
    PowAdd(2, 8, 8);
  }

  lemma PowersTwelve()
    ensures Pow(2, 12) == 0x1000 && Pow(2, 20) == 0x10_0000
  {
    assert Pow(2, 4) == 0x10 && Pow(2, 8) == 0x100;
    PowAdd(2, 4, 8);
    PowAdd(2, 12, 8);
  }

  lemma PowersEight()
    ensures Pow(2, 8) == 0x100 && Pow(2, 24) == 0x100_0000
  {
    PowerSixteen();
    assert Pow(2, 8) == 0x100;
    PowAdd(2, 8, 16);
  }

  lemma PowersSeven()
    ensures Pow(2, 7) == 0x80 && Pow(2, 25) == 0x200_0000
  {
    PowersEight();
    assert Pow(2, 1) == 2;
    PowAdd(2, 1, 24);
  }
}
