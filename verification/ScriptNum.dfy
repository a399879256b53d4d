/** Numbers in scripts (script.py, `CScriptNum`) and the height at the start of a coinbase
    (blocktools.py, `script_BIP34_coinbase_height`). */
module ScriptNum {
  import opened Arith
  import opened Bits
  import opened Bytes
  import opened Script

  /** The bytes of `n`, least significant first, none for zero. */
  function Magnitude(n: nat): (r: bytes)
    ensures FromLE(r) == n
    ensures r == [] <==> n == 0
    ensures r != [] ==> r[|r| - 1] != 0
    ensures n < Pow(256, |r|)
  {
    if n == 0 then [] else [n % 256] + Magnitude(n / 256)
  }

  /** The sign goes into the top bit of the last byte, in a byte of its own if that bit is taken. */
  function Signed(r: bytes, neg: bool): (s: bytes)
    requires r != []
  {
    var top := r[|r| - 1];
    if top >= 0x80 then r + [if neg then 0x80 else 0]
    else if neg then r[|r| - 1 := top + 0x80]
    else r
  }

  function Body(v: int): bytes {
    if v == 0 then [] else Signed(Magnitude(if v < 0 then -v else v), v < 0)
  }

  /** `CScriptNum.encode`; None is the ValueError for a length of 256 or more. */
  function Encode(v: int): Option<bytes> {
    if v == 0 then Some([])
    else if |Body(v)| < 256 then Some([|Body(v)|] + Body(v))
    else None
  }

  method EncodeNum(v: int) returns (r: Option<bytes>)
    ensures r == Encode(v)
  {
    hide Magnitude;
    if v == 0 { return Some([]); }
    var neg := v < 0;
    var s := AppendBytes(if neg then -v else v);
    if s[|s| - 1] >= 0x80 {
      s := s + [if neg then 0x80 else 0];
    } else if neg {
      s := s[|s| - 1 := s[|s| - 1] + 0x80];
    }
    r := if |s| < 256 then Some([|s|] + s) else None;
  }

  lemma MagnitudeStep(n: nat)
    requires n > 0
    ensures Magnitude(n) == [n % 256] + Magnitude(n / 256)
  {}

  /** The first loop of `encode`. */
  method AppendBytes(n: nat) returns (s: bytes)
    ensures s == Magnitude(n)
  {
    hide Magnitude;
    var absvalue := n;
    s := [];
    assert [] + Magnitude(n) == Magnitude(n);
    while absvalue > 0
      invariant s + Magnitude(absvalue) == Magnitude(n)
    {
      MagnitudeStep(absvalue);
      ConcatAssoc(s, [absvalue % 256], Magnitude(absvalue / 256));
      s := s + [absvalue % 256];
      absvalue := absvalue / 256;
    }
    assert s + [] == s;
  }

  /** What `decode` makes of the bytes after the length. */
  function Value(s: bytes): int
    requires s != []
  {
    if s[|s| - 1] >= 0x80 then -(FromLE(s) % (128 * Pow(256, |s| - 1))) else FromLE(s)
  }

  /** `CScriptNum.decode` */
  function Decode(vch: bytes): int {
    var value := if vch == [] then [] else vch[1..];
    if value == [] then 0 else Value(value)
  }

  method DecodeNum(vch: bytes) returns (result: int)
    ensures result == Decode(vch)
  {
    var value := if vch == [] then [] else vch[1..];
    result := 0;
    if |value| == 0 { return; }
    var place: nat := 1;
    for i := 0 to |value|
      invariant place == Pow(256, i) && result == FromLE(value[..i])
    {
      FromLEConcat(value[..i], [value[i]]);
      assert value[..i] + [value[i]] == value[..i + 1] && FromLE([value[i]]) == value[i];
      result := result + value[i] * place;
      place := 256 * place;
    }
    assert value[..|value|] == value;
    if value[|value| - 1] >= 0x80 {
      var numMask := place / 2;
      assert numMask == 128 * Pow(256, |value| - 1);
      result := -(result % numMask);
    }
  }

  /** The value of a string by its last byte. */
  lemma LastByte(r: bytes, top: byte)
    ensures FromLE(r + [top]) == FromLE(r) + Pow(256, |r|) * top
  {
    FromLEConcat(r, [top]);
    assert FromLE([top]) == top;
  }

  lemma SignBit(low: nat, p: nat)
    requires low < 128 * p
    ensures (low + 128 * p) % (128 * p) == low
  {
    DivModUnique(low + 128 * p, 128 * p, 1, low);
  }

  /** Every number whose encoding exists is decoded again. */
  lemma NumRoundTrip(v: int)
    requires Encode(v).Some?
    ensures Decode(Encode(v).value) == v
  {
    hide Body;
    if v != 0 { BodyDecodes(v, |Body(v)|); }
  }

  lemma SignInOwnByte(r: bytes, neg: bool)
    requires r != [] && r[|r| - 1] >= 0x80
    ensures Value(Signed(r, neg)) == if neg then 0 - FromLE(r) else FromLE(r)
  {
    hide FromLE, Pow, Value;
    var low, p := FromLE(r), Pow(256, |r|);
    if neg {
      LastByte(r, 0x80);
      NegativeValue(r + [0x80], low, p);
    } else {
      LastByte(r, 0);
      PositiveValue(r + [0]);
    }
  }

  lemma NegativeValue(s: bytes, low: nat, p: nat)
    requires s != [] && s[|s| - 1] >= 0x80 && p == Pow(256, |s| - 1)
    requires low < 128 * p && FromLE(s) == low + p * 0x80
    ensures Value(s) == 0 - low
  {
    hide FromLE, Pow;
    assert p * 0x80 == 128 * p;
    SignBit(low, p);
  }

  lemma PositiveValue(s: bytes)
    requires s != [] && s[|s| - 1] < 0x80
    ensures Value(s) == FromLE(s)
  {}

  lemma SignInLastByte(r: bytes, neg: bool)
    requires r != [] && r[|r| - 1] < 0x80
    ensures Value(Signed(r, neg)) == if neg then 0 - FromLE(r) else FromLE(r)
  {
    hide FromLE, Pow;
    var front, top := r[..|r| - 1], r[|r| - 1];
    var p := Pow(256, |front|);
    assert r == front + [top];
    LastByte(front, top);
    BelowHalf(FromLE(front), top, p);
    if neg {
      assert Signed(r, true) == front + [top + 0x80];
      LastByte(front, top + 0x80);
      Distribute(p, top);
      NegativeValue(front + [top + 0x80], FromLE(r), p);
    }
  }

  lemma Distribute(p: nat, top: nat)
    ensures p * (top + 0x80) == p * top + p * 0x80
  {}

  lemma BelowHalf(low: nat, top: nat, p: nat)
    requires low < p && top < 0x80
    ensures low + p * top < 128 * p
  {
    assert p * top <= p * 127;
  }

  // ---- Numbers as elements of a script

  /** `bn2vch` */
  function Bn2vch(v: int): (r: bytes) {
    var m := if v < 0 then -v else v;
    var nBits := BitLength(m) + if v != 0 then 1 else 0;
    var nBytes := (nBits + 7) / 8;
    var encoded := if v == 0 then 0 else Or(m, if v < 0 then Pow(2, nBytes * 8 - 1) else 0);
    VchFits(v, m, nBytes);
    LE(encoded, nBytes)
  }

  lemma VchFits(v: int, m: nat, nBytes: nat)
    requires m == if v < 0 then -v else v
    requires nBytes == (BitLength(m) + (if v != 0 then 1 else 0) + 7) / 8
    ensures v != 0 ==> nBytes == ByteLength(m) && m < 128 * Pow(256, nBytes - 1) == Pow(2, nBytes * 8 - 1)
    ensures v != 0 ==> Or(m, if v < 0 then Pow(2, nBytes * 8 - 1) else 0)
                       == m + (if v < 0 then 128 * Pow(256, nBytes - 1) else 0) < Pow(256, nBytes)
  {
    hide BitLength, Pow, Or;
    if v != 0 {
      ByteLengthIsLength(m);
      SevenBits(nBytes - 1);
      PowAdd(256, 1, nBytes - 1);
      Pow256Values();
      if v < 0 { OrHighBit(m, nBytes * 8 - 1); } else { OrZero(m); }
    }
  }

  /** The two encoders of numbers, one over the bits of the absolute value and one byte by byte, agree. */
  lemma Bn2vchIsBody(v: int)
    ensures Bn2vch(v) == Body(v)
  {
    hide BitLength, Or, Magnitude, FromLE, Pow;
    if v == 0 {
      NoBits();
    } else {
      var m: nat := if v < 0 then -v else v;
      var r, neg := Magnitude(m), v < 0;
      SignedLength(r, neg);
      ByteLengthIsLength(m);
      LengthUnique(m, |Body(v)|, ByteLength(m));
      VchFits(v, m, ByteLength(m));
      SignedValue(r, neg);
      LEFromLE(Body(v));
    }
  }

  /** The numbers the source's own test lists. */
  lemma ListedNumbers()
    ensures Bn2vch(0x0) == [] && Bn2vch(0x1) == [0x01]
    ensures Bn2vch(-0x1) == [0x81] && Bn2vch(0x7f) == [0x7f]
    ensures Bn2vch(-0x7f) == [0xff] && Bn2vch(0x80) == [0x80, 0x00]
    ensures Bn2vch(-0x80) == [0x80, 0x80] && Bn2vch(0xff) == [0xff, 0x00]
    ensures Bn2vch(-0xff) == [0xff, 0x80] && Bn2vch(0x100) == [0x00, 0x01]
    ensures Bn2vch(-0x100) == [0x00, 0x81] && Bn2vch(0x7fff) == [0xff, 0x7f]
    ensures Bn2vch(-0x8000) == [0x00, 0x80, 0x80] && Bn2vch(-0x7fffff) == [0xff, 0xff, 0xff]
    ensures Bn2vch(0x80000000) == [0x00, 0x00, 0x00, 0x80, 0x00] && Bn2vch(-0x80000000) == [0x00, 0x00, 0x00, 0x80, 0x80]
    ensures Bn2vch(0xffffffff) == [0xff, 0xff, 0xff, 0xff, 0x00] && Bn2vch(0x75bcd15) == [0x15, 0xcd, 0x5b, 0x07]
    ensures Bn2vch(-0xd431) == [0x31, 0xd4, 0x80]
  {
    hide Bn2vch, Body;
    SmallBodies();
    LargeBodies();
    Bn2vchIsBody(0x0);
    Bn2vchIsBody(0x1);
    Bn2vchIsBody(-0x1);
    Bn2vchIsBody(0x7f);
    Bn2vchIsBody(-0x7f);
    Bn2vchIsBody(0x80);
    Bn2vchIsBody(-0x80);
    Bn2vchIsBody(0xff);
    Bn2vchIsBody(-0xff);
    Bn2vchIsBody(0x100);
    Bn2vchIsBody(-0x100);
    Bn2vchIsBody(0x7fff);
    Bn2vchIsBody(-0x8000);
    Bn2vchIsBody(-0x7fffff);
    Bn2vchIsBody(0x80000000);
    Bn2vchIsBody(-0x80000000);
    Bn2vchIsBody(0xffffffff);
    Bn2vchIsBody(0x75bcd15);
    Bn2vchIsBody(-0xd431);
  }

  lemma SmallBodies()
    ensures Body(0x0) == [] && Body(0x1) == [0x01]
    ensures Body(-0x1) == [0x81] && Body(0x7f) == [0x7f]
    ensures Body(-0x7f) == [0xff] && Body(0x80) == [0x80, 0x00]
    ensures Body(-0x80) == [0x80, 0x80] && Body(0xff) == [0xff, 0x00]
    ensures Body(-0xff) == [0xff, 0x80] && Body(0x100) == [0x00, 0x01]
    ensures Body(-0x100) == [0x00, 0x81]
  {}

  lemma LargeBodies()
    ensures Body(0x7fff) == [0xff, 0x7f] && Body(-0x8000) == [0x00, 0x80, 0x80]
    ensures Body(-0x7fffff) == [0xff, 0xff, 0xff] && Body(0x80000000) == [0x00, 0x00, 0x00, 0x80, 0x00]
    ensures Body(-0x80000000) == [0x00, 0x00, 0x00, 0x80, 0x80] && Body(0xffffffff) == [0xff, 0xff, 0xff, 0xff, 0x00]
    ensures Body(0x75bcd15) == [0x15, 0xcd, 0x5b, 0x07] && Body(-0xd431) == [0x31, 0xd4, 0x80]
  {
    hide Magnitude, FromLE;
    MagnitudeBytes();
  }

  lemma MagnitudeBytes()
    ensures Magnitude(0x7fff) == [0xff, 0x7f]
    ensures Magnitude(0x8000) == [0x00, 0x80]
    ensures Magnitude(0x7fffff) == [0xff, 0xff, 0x7f]
    ensures Magnitude(0x80000000) == [0x00, 0x00, 0x00, 0x80]
    ensures Magnitude(0xffffffff) == [0xff, 0xff, 0xff, 0xff]
    ensures Magnitude(0x75bcd15) == [0x15, 0xcd, 0x5b, 0x07]
    ensures Magnitude(0xd431) == [0x31, 0xd4]
  {
    hide Magnitude;
    MagnitudeOf(0x7fff, [0xff, 0x7f]);
    MagnitudeOf(0x8000, [0x00, 0x80]);
    MagnitudeOf(0x7fffff, [0xff, 0xff, 0x7f]);
    MagnitudeOf(0x80000000, [0x00, 0x00, 0x00, 0x80]);
    MagnitudeOf(0xffffffff, [0xff, 0xff, 0xff, 0xff]);
    MagnitudeOf(0x75bcd15, [0x15, 0xcd, 0x5b, 0x07]);
    MagnitudeOf(0xd431, [0x31, 0xd4]);
  }

  /** The bytes of a number are the ones that stand for it and do not end in zero. */
  lemma {:induction false} MagnitudeOf(n: nat, s: bytes)
    requires FromLE(s) == n && (s != [] ==> s[|s| - 1] != 0)
    ensures Magnitude(n) == s
  {
    if s != [] {
      var t := s[1..];
      var m := FromLE(t);
      assert n == s[0] + 256 * m;
      hide FromLE;
      assert t != [] ==> t[|t| - 1] == s[|s| - 1];
      MagnitudeOf(m, t);
      DivModUnique(n, 256, m, s[0]);
      assert s == [s[0]] + t;
    }
  }

  lemma NoBits()
    ensures Bn2vch(0) == []
  {
    assert BitLength(0) == 0;
  }

  lemma TopByte(r: bytes)
    requires r != []
    ensures FromLE(r) == FromLE(r[..|r| - 1]) + Pow(256, |r| - 1) * r[|r| - 1] && FromLE(r[..|r| - 1]) < Pow(256, |r| - 1)
  {
    assert r == r[..|r| - 1] + [r[|r| - 1]];
    LastByte(r[..|r| - 1], r[|r| - 1]);
  }

  /** The number with its sign has the least length that leaves the top bit free. */
  lemma SignedLength(r: bytes, neg: bool)
    requires r != [] && r[|r| - 1] != 0
    ensures IsLength(FromLE(r), |Signed(r, neg)|)
  {
    hide FromLE, Pow;
    var n, top := |r| - 1, r[|r| - 1];
    var low, p := FromLE(r[..n]), Pow(256, n);
    TopByte(r);
    PowAdd(256, 1, n);
    Pow256Values();
    LeadingByte(low, p, top);
    if n > 0 { PowAdd(256, 1, n - 1); }
  }

  lemma LeadingByte(low: nat, p: nat, top: nat)
    requires low < p && 0 < top < 256
    ensures p <= low + p * top < 256 * p
    ensures top >= 0x80 <==> low + p * top >= 128 * p
  {
    MulMono(1, top, p);
    MulMono(top, 255, p);
    if top >= 0x80 { MulMono(0x80, top, p); } else { MulMono(top, 0x7f, p); }
  }

  lemma SignedValue(r: bytes, neg: bool)
    requires r != [] && r[|r| - 1] != 0
    ensures var s := Signed(r, neg);
      s != [] && FromLE(s) == FromLE(r) + if neg then 128 * Pow(256, |s| - 1) else 0
  {
    hide FromLE, Pow;
    var n, top := |r| - 1, r[|r| - 1];
    if top >= 0x80 {
      LastByte(r, if neg then 0x80 else 0);
      assert Pow(256, |r|) * 0 == 0;
    } else if neg {
      TopByte(r);
      assert Signed(r, neg) == r[..n] + [top + 0x80];
      LastByte(r[..n], top + 0x80);
      Distribute(Pow(256, n), top);
    }
  }

  // ---- What a script is built from

  const OP_1NEGATE: byte := 0x4f

  /** An element of the list given to `CScript`: an opcode that is no push, data, an integer, or a `CScriptNum`. */
  datatype Element = Opcode(opcode: byte) | Data(data: bytes) | Integer(v: int) | Number(v: int)

  /** `CScriptOp.encode_op_n` */
  function EncodeOpN(n: nat): byte
    requires n <= 16
  {
    if n == 0 then 0 else OP_1 + n - 1
  }

  /** `CScript.__coerce_instance`; None is a ValueError. */
  function Coerced(e: Element): Option<bytes> {
    match e
    case Opcode(opcode) => Some([opcode])
    case Data(d) => if |d| < U32 then Some(EncodePushdata(d)) else None
    case Integer(v) =>
      if 0 <= v <= 16 then Some([EncodeOpN(v)])
      else if v == -1 then Some([OP_1NEGATE])
      else if |Bn2vch(v)| < U32 then Some(EncodePushdata(Bn2vch(v)))
      else None
    case Number(v) => if v == 0 then Some([0]) else Encode(v)
  }

  /** The opcode or push that an element stands for. */
  function TokenFor(e: Element): Token {
    match e
    case Opcode(opcode) => Code(opcode)
    case Data(d) => Push(d)
    case Integer(v) =>
      if v == 0 then Push([])
      else if 1 <= v <= 16 then Code(OP_1 + v - 1)
      else if v == -1 then Code(OP_1NEGATE)
      else Push(Bn2vch(v))
    case Number(v) => Push(Body(v))
  }

  /** An opcode that begins no push, and no number of 76 bytes or more, whose length byte would be taken for
      an opcode. */
  predicate Plain(e: Element) {
    && Coerced(e).Some?
    && (e.Opcode? ==> e.opcode > OP_PUSHDATA4)
    && (e.Number? ==> |Body(e.v)| < 0x4c)
  }

  /** Every such element is written as exactly the operation it stands for. */
  lemma CoercedEncodes(e: Element)
    requires Plain(e)
    ensures Buildable(TokenFor(e)) && Coerced(e).value == TokenBytes(TokenFor(e))
    ensures Encodes(Coerced(e).value, TokenOp(TokenFor(e)))
  {
    hide NextOp, Bn2vch, Body, LE16, LE32;
    BodyOfZero();
    TokenEncodes(TokenFor(e));
  }

  lemma BodyOfZero()
    ensures Body(0) == []
  {}

  /** A `CScriptNum` is written as a push of its bytes exactly if there are fewer than 76. */
  lemma NumberPushIff(v: int)
    requires Coerced(Number(v)).Some?
    ensures var b := Coerced(Number(v)).value;
      (exists op :: Encodes(b, op) && op.data == Some(Body(v))) <==> |Body(v)| < 0x4c
  {
    hide Body, FromLE;
    var b := Coerced(Number(v)).value;
    BodyOfZero();
    if |Body(v)| < 0x4c {
      CoercedEncodes(Number(v));
      assert TokenOp(TokenFor(Number(v))).data == Some(Body(v));
    }
  }

  /** What an operation that was read pushes, as a number. */
  function ReadNumber(op: Op): Option<int> {
    if op.data.Some? then Some(Decode([0] + op.data.value))
    else if OP_1 <= op.opcode <= OP_1 + 15 then Some(op.opcode - OP_1 + 1)
    else if op.opcode == OP_1NEGATE then Some(-1)
    else None
  }

  lemma BodyDecodes(v: int, first: byte)
    ensures Decode([first] + Body(v)) == v
  {
    hide Magnitude, FromLE, Pow, Value;
    assert ([first] + Body(v))[1..] == Body(v);
    if v != 0 {
      var r := Magnitude(if v < 0 then -v else v);
      if r[|r| - 1] >= 0x80 { SignInOwnByte(r, v < 0); } else { SignInLastByte(r, v < 0); }
    }
  }

  /** Every integer in a script, in whichever of its four forms, is read back as that integer. */
  lemma IntegerReadBack(e: Element)
    requires Plain(e) && (e.Integer? || e.Number?)
    ensures Buildable(TokenFor(e)) && ReadNumber(TokenOp(TokenFor(e))) == Some(e.v)
  {
    hide Bn2vch, Body, Decode, LE16, LE32;
    CoercedEncodes(e);
    Bn2vchIsBody(e.v);
    BodyDecodes(e.v, 0);
    BodyOfZero();
  }

  ghost predicate AllPlain(elements: seq<Element>) {
    forall e :: e in elements ==> Plain(e)
  }

  function TokensFor(elements: seq<Element>): (r: seq<Token>)
    ensures |r| == |elements| && forall i :: 0 <= i < |r| ==> r[i] == TokenFor(elements[i])
  {
    seq(|elements|, i requires 0 <= i < |elements| => TokenFor(elements[i]))
  }

  function CoercedParts(elements: seq<Element>): (r: seq<bytes>)
    requires AllPlain(elements)
    ensures |r| == |elements|
    ensures forall i :: 0 <= i < |r| ==> elements[i] in elements && Coerced(elements[i]) == Some(r[i])
  {
    assert forall i :: 0 <= i < |elements| ==> elements[i] in elements;
    seq(|elements|, i requires 0 <= i < |elements| && Coerced(elements[i]).Some? => Coerced(elements[i]).value)
  }

  /** Reading a script built from any list of opcodes, data, integers and script numbers gives the list back,
      element by element, with the offsets where they start. */
  lemma ElementsParse(elements: seq<Element>)
    requires AllPlain(elements)
    ensures AllBuildable(TokensFor(elements)) && Join(CoercedParts(elements)) == Build(TokensFor(elements))
    ensures RawIter(Join(CoercedParts(elements)), 0) == Some(WithOffsets(TokenOps(TokensFor(elements)), 0))
  {
    hide RawIter, Coerced, TokenFor, TokenBytes;
    var tokens := TokensFor(elements);
    forall i | 0 <= i < |elements|
      ensures Buildable(tokens[i]) && CoercedParts(elements)[i] == TokenBytes(tokens[i])
    {
      assert elements[i] in elements;
      CoercedEncodes(elements[i]);
    }
    assert CoercedParts(elements) == TokenParts(tokens);
    BuildParses(tokens);
  }

  // ---- BIP 34

  const OP_1: byte := 0x51

  /** `script_BIP34_coinbase_height`: a small integer and a dummy zero, or the number pushed. */
  function HeightScript(height: nat): bytes
    requires |Body(height)| < 256
  {
    if height == 0 then [0, 0]
    else if height <= 16 then [OP_1 + height - 1, 0]
    else Encode(height).value
  }

  function HeightTokens(height: nat): (r: seq<Token>) {
    if height == 0 then [Push([]), Push([])]
    else if height <= 16 then [Code(OP_1 + height - 1), Push([])]
    else [Push(Body(height))]
  }

  lemma {:induction false} BodyLength(n: nat, k: nat)
    requires n < Pow(256, k)
    ensures |Magnitude(n)| <= k
    decreases k
  {
    if n > 0 { BodyLength(n / 256, k - 1); }
  }

  /** For every height of a block, the script is the height (in one of its two forms) as its first
      operation; above 16 the push decodes to it. */
  lemma HeightScriptParses(height: nat)
    requires height < U32
    ensures |Body(height)| <= 5
    ensures AllBuildable(HeightTokens(height)) && HeightScript(height) == Build(HeightTokens(height))
    ensures height > 16 ==> Decode([|Body(height)|] + Body(height)) == height
  {
    hide Body, Build, Decode;
    BodyFits(height);
    var tokens := HeightTokens(height);
    if height > 16 {
      NumRoundTrip(height);
      BuildOne(tokens[0]);
    } else {
      BuildTwo(tokens[0], tokens[1]);
    }
  }

  lemma BodyFits(height: nat)
    requires height < U32
    ensures |Body(height)| <= 5
  {
    hide Magnitude, Pow;
    Pow256Values();
    BodyLength(height, 4);
  }

  lemma BuildOne(t: Token)
    requires Buildable(t)
    ensures Build([t]) == TokenBytes(t)
  {
    var parts := TokenParts([t]);
    assert parts[1..] == [] && Join(parts) == parts[0] + Join(parts[1..]);
  }

  lemma BuildTwo(t: Token, u: Token)
    requires Buildable(t) && Buildable(u)
    ensures Build([t, u]) == TokenBytes(t) + TokenBytes(u)
  {
    var parts := TokenParts([t, u]);
    assert parts[1..] == TokenParts([u]);
    BuildOne(u);
  }
}
