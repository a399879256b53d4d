/** The self-delimiting encodings of messages.py: compact sizes, byte strings, fixed-width integers.
    Deserializers are total: reading past the end of a stream yields fewer bytes. */
module Codec {
  import opened Bytes

  /** `f.read(n)`: the bytes read and those left. */
  function Read(s: bytes, n: nat): (r: (bytes, bytes))
    ensures |s| >= n ==> |r.0| == n
    ensures r.0 + r.1 == s
  {
    if n <= |s| then (s[..n], s[n..]) else (s, [])
  }

  lemma ReadPrefix(a: bytes, rest: bytes)
    ensures Read(a + rest, |a|) == (a, rest)
  {
    assert (a + rest)[..|a|] == a && (a + rest)[|a|..] == rest;
  }

  /** `int.from_bytes(f.read(n), 'little')` */
  function ReadInt(s: bytes, n: nat): (nat, bytes) {
    var (b, rest) := Read(s, n);
    (FromLE(b), rest)
  }

  lemma ReadIntOf(a: bytes, rest: bytes)
    ensures ReadInt(a + rest, |a|) == (FromLE(a), rest)
  {
    ReadPrefix(a, rest);
  }

  /** `ser_compact_size` */
  function SerCompactSize(l: nat): (r: bytes)
    requires l < U64
    ensures 1 <= |r| <= 9
  {
    if l < 253 then [l]
    else if l < U16 then [253] + LE16(l)
    else if l < U32 then [254] + LE32(l)
    else [255] + LE64(l)
  }

  /** `deser_compact_size` */
  function DeserCompactSize(s: bytes): (nat, bytes) {
    var (nit, rest) := ReadInt(s, 1);
    if nit == 253 then ReadInt(rest, 2)
    else if nit == 254 then ReadInt(rest, 4)
    else if nit == 255 then ReadInt(rest, 8)
    else (nit, rest)
  }

  lemma OneByte(b: byte)
    ensures FromLE([b]) == b
  {}

  lemma CompactSizeRoundTrip(l: nat, rest: bytes)
    requires l < U64
    ensures DeserCompactSize(SerCompactSize(l) + rest) == (l, rest)
  {
    hide LE16, LE32, LE64;
    var ser := SerCompactSize(l);
    var tail := ser[1..];
    assert ser + rest == [ser[0]] + (tail + rest);
    ReadIntOf([ser[0]], tail + rest);
    OneByte(ser[0]);
    ReadIntOf(tail, rest);
    if l < 253 { assert tail + rest == rest; }
  }

  /** No encoding that is read as `l` is shorter than the one written for `l`. */
  lemma CompactSizeShortest(s: bytes)
    ensures var (l, rest) := DeserCompactSize(s);
      l < U64 && (rest != [] ==> |s| - |rest| >= |SerCompactSize(l)|)
  {
    hide LE16, LE32, LE64;
    Pow256Values();
    Pow256Small();
    var (nit, rest) := ReadInt(s, 1);
    if s != [] { OneByte(s[0]); assert s[..1] == [s[0]]; }
    FromLEBound(Read(rest, 2).0, 2);
    FromLEBound(Read(rest, 4).0, 4);
    FromLEBound(Read(rest, 8).0, 8);
  }

  lemma Pow256Small()
    ensures Pow(256, 0) == 1 && Pow(256, 1) == 256
  {}

  lemma FromLEBound(b: bytes, n: nat)
    requires |b| <= n
    ensures FromLE(b) < Pow(256, n)
  {
    PowMono(256, |b|, n);
  }

  /** `ser_string` */
  function SerString(s: bytes): bytes
    requires |s| < U64
  {
    SerCompactSize(|s|) + s
  }

  /** `deser_string` */
  function DeserString(s: bytes): (bytes, bytes) {
    var (nit, rest) := DeserCompactSize(s);
    Read(rest, nit)
  }

  lemma StringRoundTrip(s: bytes, rest: bytes)
    requires |s| < U64
    ensures DeserString(SerString(s) + rest) == (s, rest)
  {
    assert SerString(s) + rest == SerCompactSize(|s|) + (s + rest);
    CompactSizeRoundTrip(|s|, s + rest);
    ReadPrefix(s, rest);
  }

  // ---- Vectors of strings

  function SerStrings(v: seq<bytes>): bytes
    requires forall s :: s in v ==> |s| < U64
  {
    if v == [] then [] else SerString(v[0]) + SerStrings(v[1..])
  }

  function DeserStrings(s: bytes, n: nat): (seq<bytes>, bytes) {
    if n == 0 then ([], s)
    else
      var (x, rest) := DeserString(s);
      var (xs, rest') := DeserStrings(rest, n - 1);
      ([x] + xs, rest')
  }

  lemma {:induction false} StringsRoundTrip(v: seq<bytes>, rest: bytes)
    requires forall s :: s in v ==> |s| < U64
    ensures DeserStrings(SerStrings(v) + rest, |v|) == (v, rest)
  {
    hide SerString, DeserString;
    if v == [] {
      assert SerStrings(v) + rest == rest;
    } else {
      assert forall s :: s in v[1..] ==> s in v;
      ConcatAssoc(SerString(v[0]), SerStrings(v[1..]), rest);
      StringRoundTrip(v[0], SerStrings(v[1..]) + rest);
      StringsRoundTrip(v[1..], rest);
      assert [v[0]] + v[1..] == v;
    }
  }
}
