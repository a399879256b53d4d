/** Bech32, Bech32m and segwit addresses (segwit_addr.py; BIP 173, BIP 350). */
module Bech32 {
  import opened Arith
  import opened Bytes
  import opened Bits
  import opened Checksum
  import opened ConvertBits

  const CHARSET: string := "qpzry9x8gf2tvdw0s3jn54khce6mua7l"
  const BECH32_CONST: nat := 1
  const BECH32M_CONST: nat := 0x2bc830a3

  datatype Encoding = BECH32 | BECH32M

  const GENERATOR: seq<nat> := [0x3b6a57b2, 0x26508e6d, 0x1ea119fa, 0x3d4233dd, 0x2a1462b3]

  const BECH32_CODE := Code(25, GENERATOR)

  lemma Pow25()
    ensures Pow(2, 25) == 0x200_0000 && Pow(2, 30) == 0x4000_0000
  {
    assert Pow(2, 5) == 32;
    PowAdd(2, 5, 5);
    PowAdd(2, 10, 10);
    PowAdd(2, 20, 5);
    PowAdd(2, 25, 5);
  }

  lemma GeneratorBits()
    ensures var g := GENERATOR;
      && !Bit(g[0], 0) && Bit(g[0], 1) && !Bit(g[0], 2) && !Bit(g[0], 3) && Bit(g[0], 4)
      && Bit(g[1], 0) && !Bit(g[1], 1) && Bit(g[1], 2) && Bit(g[1], 3) && !Bit(g[1], 4)
      && !Bit(g[2], 0) && Bit(g[2], 1) && !Bit(g[2], 2) && Bit(g[2], 3) && Bit(g[2], 4)
      && Bit(g[3], 0) && !Bit(g[3], 1) && Bit(g[3], 2) && Bit(g[3], 3) && Bit(g[3], 4)
      && Bit(g[4], 0) && Bit(g[4], 1) && !Bit(g[4], 2) && !Bit(g[4], 3) && Bit(g[4], 4)
  {
    TopBits(GENERATOR[0]);
    TopBits(GENERATOR[1]);
    TopBits(GENERATOR[2]);
    TopBits(GENERATOR[3]);
    TopBits(GENERATOR[4]);
    hide Bit;
  }

  /** The generator of Bech32 loses nothing: no choice of its words cancels in the last symbol. */
  lemma Bech32CodeGood()
    ensures GoodCode(BECH32_CODE)
  {
    hide Pow, Bit, GoodCode;
    Pow25();
    GeneratorBits();
    IndependentIsGood(BECH32_CODE);
  }

  // ---- Checksums

  /** `bech32_hrp_expand` */
  function HrpExpand(hrp: string): (r: seq<nat>)
    ensures |r| == 2 * |hrp| + 1 && r[|hrp|] == 0
    ensures forall i :: 0 <= i < |hrp| ==> r[i] == hrp[i] as int / 32
    ensures forall i :: |hrp| < i < |r| ==> r[i] == hrp[i - |hrp| - 1] as int % 32
  {
    seq(|hrp|, i requires 0 <= i < |hrp| => hrp[i] as int / 32) + [0]
    + seq(|hrp|, i requires 0 <= i < |hrp| => hrp[i] as int % 32)
  }

  function ConstOf(e: Encoding): nat {
    if e.BECH32M? then BECH32M_CONST else BECH32_CONST
  }

  /** `bech32_verify_checksum` */
  function VerifyChecksum(hrp: string, data: seq<nat>): (r: Option<Encoding>)
  {
    var check := Polymod(BECH32_CODE, HrpExpand(hrp) + data);
    if check == BECH32_CONST then Some(BECH32) else if check == BECH32M_CONST then Some(BECH32M) else None
  }

  /** `bech32_create_checksum` */
  function CreateChecksum(e: Encoding, hrp: string, data: seq<nat>): (r: seq<symbol>)
    ensures |r| == 6
  {
    Symbols(Xor(Polymod(BECH32_CODE, HrpExpand(hrp) + data + [0, 0, 0, 0, 0, 0]), ConstOf(e)), 6)
  }

  predicate AsciiText(hrp: string) {
    forall c :: c in hrp ==> 33 <= c as int <= 126
  }

  function Expanded(hrp: string): (r: seq<symbol>)
    requires AsciiText(hrp)
    ensures r == HrpExpand(hrp)
  {
    var r := HrpExpand(hrp);
    assert forall i :: 0 <= i < |hrp| ==> hrp[i] in hrp;
    assert forall i :: 0 <= i < |r| ==> 0 <= r[i] < 32;
    seq<symbol>(|r|, i requires 0 <= i < |r| => r[i])
  }

  /** A created checksum verifies under its own encoding. */
  lemma CreatedChecksumVerifies(e: Encoding, hrp: string, data: seq<symbol>)
    requires AsciiText(hrp)
    ensures VerifyChecksum(hrp, data + CreateChecksum(e, hrp, data)) == Some(e)
  {
    hide GoodCode, Polymod, Xor, Symbols;
    Bech32CodeGood();
    Pow25();
    var values := Expanded(hrp) + data;
    CreatedVerifies(BECH32_CODE, values, 6, ConstOf(e));
    assert Repeat<symbol>(0, 6) == [0, 0, 0, 0, 0, 0];
    assert HrpExpand(hrp) + (data + CreateChecksum(e, hrp, data)) == values + CreateChecksum(e, hrp, data);
  }

  /** Whatever happens to six consecutive symbols of a word of any length, it no longer verifies under the
      same encoding. A single substituted symbol is the special case of a window of one. */
  lemma BurstDetected(hrp: string, before: seq<symbol>, a: seq<symbol>, b: seq<symbol>, after: seq<symbol>, e: Encoding)
    requires AsciiText(hrp) && |a| == |b| <= 6 && a != b
    requires VerifyChecksum(hrp, before + a + after) == Some(e)
    ensures VerifyChecksum(hrp, before + b + after) != Some(e)
  {
    hide GoodCode, Polymod;
    Bech32CodeGood();
    var front := Expanded(hrp) + before;
    BurstChangesRemainder(BECH32_CODE, front, a, b, after);
    assert HrpExpand(hrp) + (before + a + after) == front + a + after;
    assert HrpExpand(hrp) + (before + b + after) == front + b + after;
  }

  // ---- Strings

  predicate IsUpper(c: char) {
    'A' <= c <= 'Z'
  }

  predicate IsLower(c: char) {
    'a' <= c <= 'z'
  }

  /** Python's `lower()` and `upper()` on ASCII characters. */
  function LowerChar(c: char): char {
    if IsUpper(c) then (c as int + 32) as char else c
  }

  function UpperChar(c: char): char {
    if IsLower(c) then (c as int - 32) as char else c
  }

  function Lower(s: string): (r: string)
    ensures |r| == |s| && forall i :: 0 <= i < |s| ==> r[i] == LowerChar(s[i])
  {
    seq(|s|, i requires 0 <= i < |s| => LowerChar(s[i]))
  }

  function Upper(s: string): (r: string)
    ensures |r| == |s| && forall i :: 0 <= i < |s| ==> r[i] == UpperChar(s[i])
  {
    seq(|s|, i requires 0 <= i < |s| => UpperChar(s[i]))
  }

  /** `s.rfind(c)` */
  function RFind(s: string, c: char): (r: int)
    ensures -1 <= r < |s|
    ensures r >= 0 ==> s[r] == c
    ensures forall i :: r < i < |s| ==> s[i] != c
  {
    if s == [] then -1 else if s[|s| - 1] == c then |s| - 1 else RFind(s[..|s| - 1], c)
  }

  function Chars(data: seq<symbol>): (r: string)
    ensures |r| == |data| && forall i :: 0 <= i < |r| ==> r[i] == CHARSET[data[i]]
  {
    seq(|data|, i requires 0 <= i < |data| => CHARSET[data[i]])
  }

  predicate AllInCharset(s: string) {
    forall c :: c in s ==> c in CHARSET
  }

  function SymbolsOf(s: string): (r: seq<symbol>)
    requires AllInCharset(s)
    ensures |r| == |s| && forall i :: 0 <= i < |r| ==> s[i] in CHARSET && r[i] == IndexOf(CHARSET, s[i])
  {
    seq<symbol>(|s|, i requires 0 <= i < |s| => assert s[i] in s; IndexOf(CHARSET, s[i]))
  }

  /** The place of a character in CHARSET. */
  function Place(c: char): int {
    if c == 'q' then 0 else if c == 'p' then 1 else if c == 'z' then 2 else if c == 'r' then 3
    else if c == 'y' then 4 else if c == '9' then 5 else if c == 'x' then 6 else if c == '8' then 7
    else if c == 'g' then 8 else if c == 'f' then 9 else if c == '2' then 10 else if c == 't' then 11
    else if c == 'v' then 12 else if c == 'd' then 13 else if c == 'w' then 14 else if c == '0' then 15
    else if c == 's' then 16 else if c == '3' then 17 else if c == 'j' then 18 else if c == 'n' then 19
    else if c == '5' then 20 else if c == '4' then 21 else if c == 'k' then 22 else if c == 'h' then 23
    else if c == 'c' then 24 else if c == 'e' then 25 else if c == '6' then 26 else if c == 'm' then 27
    else if c == 'u' then 28 else if c == 'a' then 29 else if c == '7' then 30 else if c == 'l' then 31 else -1
  }

  lemma CharsetPlaces(d: symbol)
    ensures |CHARSET| == 32 && Place(CHARSET[d]) == d
    ensures var c := CHARSET[d]; c != '1' && !IsUpper(c) && 33 <= c as int <= 126
  {}

  lemma FindOfChar(d: symbol)
    ensures CHARSET[d] in CHARSET && IndexOf(CHARSET, CHARSET[d]) == d
  {
    CharsetPlaces(d);
    CharsetPlaces(IndexOf(CHARSET, CHARSET[d]));
  }

  lemma SymbolsOfChars(data: seq<symbol>)
    ensures AllInCharset(Chars(data)) && SymbolsOf(Chars(data)) == data
  {
    forall c | c in Chars(data)
      ensures c in CHARSET
    {
      var i :| 0 <= i < |data| && Chars(data)[i] == c;
      FindOfChar(data[i]);
    }
    forall i | 0 <= i < |data|
      ensures SymbolsOf(Chars(data))[i] == data[i]
    {
      FindOfChar(data[i]);
    }
  }

  // ---- Encoding and decoding

  /** `bech32_encode` */
  function Encode(e: Encoding, hrp: string, data: seq<symbol>): string {
    hrp + "1" + Chars(data + CreateChecksum(e, hrp, data))
  }

  /** `bech32_decode` */
  function Decode(bech: string): Option<(Encoding, string, seq<symbol>)> {
    if !AsciiText(bech) || (Lower(bech) != bech && Upper(bech) != bech) then None
    else
      var low := Lower(bech);
      var pos := RFind(low, '1');
      if pos < 1 || pos + 7 > |low| || |low| > 90 || !AllInCharset(low[pos + 1..]) then None
      else
        var data := SymbolsOf(low[pos + 1..]);
        var e := VerifyChecksum(low[..pos], data);
        if e.None? then None else Some((e.value, low[..pos], data[..|data| - 6]))
  }

  /** `decode_segwit_address` */
  ghost function DecodeSegwit(hrp: string, addr: string): Option<(nat, seq<nat>)> {
    var d := Decode(addr);
    if d.None? || d.value.1 != hrp then None
    else
      var (e, _, data) := d.value;
      var decoded := if data == [] then Some([]) else Convert(data[1..], 5, 8, false);
      if decoded.None? || |decoded.value| < 2 || |decoded.value| > 40 || data == [] || data[0] > 16
         || (data[0] == 0 && |decoded.value| != 20 && |decoded.value| != 32)
         || e != (if data[0] == 0 then BECH32 else BECH32M)
      then None
      else Some((data[0], decoded.value))
  }

  /** The program as 5-bit symbols. */
  ghost function ProgramSymbols(prog: bytes): (r: seq<symbol>)
    ensures Convert(prog, 8, 5, true) == Some(r)
    ensures Convert(r, 5, 8, false) == Some(prog)
    ensures |r| == (8 * |prog| + 4) / 5
  {
    BytesRegroup(prog);
    AsSymbols(Convert(prog, 8, 5, true).value)
  }

  function AsSymbols(c: seq<nat>): (r: seq<symbol>)
    requires forall v :: v in c ==> v < 32
    ensures r == c
  {
    assert forall i :: 0 <= i < |c| ==> c[i] in c;
    seq<symbol>(|c|, i requires 0 <= i < |c| => c[i])
  }

  lemma BytesRegroup(prog: bytes)
    ensures var c := Convert(prog, 8, 5, true);
      && c.Some? && (forall v :: v in c.value ==> v < 32)
      && Convert(c.value, 5, 8, false) == Some(prog)
      && |c.value| == (8 * |prog| + 4) / 5
  {
    hide Convert;
    assert Pow(2, 5) == 32 && Pow(2, 8) == 256;
    RegroupRoundTrip(prog, 8, 5);
  }

  /** What `encode_segwit_address` makes before it checks its own work. */
  ghost function Drafted(hrp: string, witver: symbol, prog: bytes): string {
    Encode(if witver == 0 then BECH32 else BECH32M, hrp, [witver] + ProgramSymbols(prog))
  }

  /** `encode_segwit_address`, for a version that has a character. */
  ghost function EncodeSegwit(hrp: string, witver: symbol, prog: bytes): Option<string> {
    var ret := Drafted(hrp, witver, prog);
    if DecodeSegwit(hrp, ret).None? then None else Some(ret)
  }

  /** The arguments for which there is an address. */
  predicate ValidArguments(hrp: string, witver: nat, n: nat) {
    && hrp != "" && AsciiText(hrp) && (forall c :: c in hrp ==> !IsUpper(c))
    && |hrp| + (8 * n + 4) / 5 <= 82
    && witver <= 16 && 2 <= n <= 40 && (witver == 0 ==> n == 20 || n == 32)
  }

  /** Decoding what was encoded. */
  lemma DecodeEncoded(e: Encoding, hrp: string, data: seq<symbol>)
    requires AsciiText(hrp) && hrp != "" && (forall c :: c in hrp ==> !IsUpper(c)) && |hrp| + |data| <= 83
    ensures Decode(Encode(e, hrp, data)) == Some((e, hrp, data))
  {
    hide VerifyChecksum, CreateChecksum, Chars, SymbolsOf, IndexOf, AsciiText;
    var full := data + CreateChecksum(e, hrp, data);
    var bech := Encode(e, hrp, data);
    EncodedChars(hrp, full);
    SymbolsOfChars(full);
    CreatedChecksumVerifies(e, hrp, data);
    assert Lower(bech) == bech;
    var pos := |hrp|;
    assert bech[..pos] == hrp && bech[pos + 1..] == Chars(full);
    LastOne(hrp, Chars(full));
    assert full[..|full| - 6] == data;
  }

  lemma EncodedChars(hrp: string, data: seq<symbol>)
    requires AsciiText(hrp)
    ensures AsciiText(hrp + "1" + Chars(data))
    ensures forall i :: 0 <= i < |data| ==> Chars(data)[i] != '1' && !IsUpper(Chars(data)[i])
  {
    forall i | 0 <= i < |data|
      ensures Chars(data)[i] != '1' && !IsUpper(Chars(data)[i]) && 33 <= Chars(data)[i] as int <= 126
    {
      CharsetPlaces(data[i]);
    }
    hide CHARSET;
    forall c | c in hrp + "1" + Chars(data)
      ensures 33 <= c as int <= 126
    {
      if c !in hrp && c != '1' { var i :| 0 <= i < |data| && Chars(data)[i] == c; }
    }
  }

  lemma FoundAt(s: string, c: char, at: nat)
    requires at < |s| && s[at] == c && forall i :: at < i < |s| ==> s[i] != c
    ensures RFind(s, c) == at
  {
    var r := RFind(s, c);
    assert r >= at;
  }

  lemma LastOne(hrp: string, tail: string)
    requires forall i :: 0 <= i < |tail| ==> tail[i] != '1'
    ensures RFind(hrp + "1" + tail, '1') == |hrp|
  {
    var s := hrp + "1" + tail;
    forall i | |hrp| < i < |s|
      ensures s[i] != '1'
    {
      assert s[i] == tail[i - |hrp| - 1];
    }
    FoundAt(s, '1', |hrp|);
  }

  /** A human-readable part that breaks a rule is never recovered. */
  lemma BadHrpLost(hrp: string, full: seq<symbol>)
    requires |full| >= 6
    requires !(hrp != "" && AsciiText(hrp) && (forall c :: c in hrp ==> !IsUpper(c)) && |hrp| + |full| <= 89)
    ensures var d := Decode(hrp + "1" + Chars(full)); d.Some? ==> d.value.1 != hrp
  {
    hide VerifyChecksum, SymbolsOf, IndexOf, CHARSET;
    var bech := hrp + "1" + Chars(full);
    assert forall c :: c in hrp ==> c in bech;
    var low := Lower(bech);
    var pos := RFind(low, '1');
    assert |low| == |hrp| + 1 + |full|;
    assert forall i :: 0 <= i < |low| ==> !IsUpper(low[i]);
    assert pos >= 0 ==> forall c :: c in low[..pos] ==> !IsUpper(c);
  }

  /** An address comes out exactly for valid arguments, and then it decodes to the version and program it
      was made of. */
  lemma EncodeSegwitIff(hrp: string, witver: symbol, prog: bytes)
    ensures EncodeSegwit(hrp, witver, prog).Some? <==> ValidArguments(hrp, witver, |prog|)
    ensures EncodeSegwit(hrp, witver, prog).Some? ==>
              DecodeSegwit(hrp, EncodeSegwit(hrp, witver, prog).value) == Some((witver, prog))
  {
    hide Decode, Encode, Convert, CreateChecksum, AsciiText;
    var e := if witver == 0 then BECH32 else BECH32M;
    var syms := ProgramSymbols(prog);
    var data := [witver] + syms;
    assert data[1..] == syms;
    if hrp != "" && AsciiText(hrp) && (forall c :: c in hrp ==> !IsUpper(c)) && |hrp| + |data| <= 83 {
      DecodeEncoded(e, hrp, data);
    } else {
      EncodeParts(e, hrp, data);
      BadHrpLost(hrp, data + CreateChecksum(e, hrp, data));
    }
  }

  lemma EncodeParts(e: Encoding, hrp: string, data: seq<symbol>)
    ensures Encode(e, hrp, data) == hrp + "1" + Chars(data + CreateChecksum(e, hrp, data))
  {}

  // ---- One address, up to case

  /** The two parts of the expansion together are the characters. */
  lemma HrpRecovered(hrp: string, i: nat)
    requires i < |hrp|
    ensures 32 * HrpExpand(hrp)[i] + HrpExpand(hrp)[|hrp| + 1 + i] == hrp[i] as int
  {}

  /** Upper and lower case of ASCII text. */
  lemma CaseLaws(s: string)
    ensures Upper(Lower(s)) == Upper(s) && Lower(Upper(s)) == Lower(s)
    ensures Lower(Lower(s)) == Lower(s) && Upper(Upper(s)) == Upper(s)
    ensures AsciiText(s) <==> AsciiText(Lower(s))
    ensures AsciiText(s) <==> AsciiText(Upper(s))
  {
    AsciiByPlace(s);
    AsciiByPlace(Lower(s));
    AsciiByPlace(Upper(s));
    assert forall i :: 0 <= i < |s| ==> (33 <= s[i] as int <= 126 <==> 33 <= Lower(s)[i] as int <= 126);
    assert forall i :: 0 <= i < |s| ==> (33 <= s[i] as int <= 126 <==> 33 <= Upper(s)[i] as int <= 126);
  }

  lemma AsciiByPlace(s: string)
    ensures AsciiText(s) <==> forall i :: 0 <= i < |s| ==> 33 <= s[i] as int <= 126
  {
    if AsciiText(s) { assert forall i :: 0 <= i < |s| ==> s[i] in s; }
  }

  /** Decoding depends on the lower-case form alone, of text that is not of mixed case. */
  lemma DecodeOfCase(s: string)
    ensures Decode(Lower(s)) == Decode(Upper(s))
    ensures Lower(s) == s || Upper(s) == s ==> Decode(s) == Decode(Lower(s))
  {
    hide VerifyChecksum, SymbolsOf, AllInCharset, Lower, Upper, RFind, AsciiText;
    CaseLaws(s);
    CaseLaws(Lower(s));
    CaseLaws(Upper(s));
  }

  lemma CharsOfSymbols(s: string)
    requires AllInCharset(s)
    ensures Chars(SymbolsOf(s)) == s
  {
    hide CHARSET, IndexOf;
    forall i | 0 <= i < |s|
      ensures Chars(SymbolsOf(s))[i] == s[i]
    {
      assert s[i] in s;
    }
  }

  /** Only the created checksum verifies. */
  lemma OnlyCreatedVerifies(e: Encoding, hrp: string, data: seq<symbol>, check: seq<symbol>)
    requires AsciiText(hrp) && |check| == 6 && VerifyChecksum(hrp, data + check) == Some(e)
    ensures check == CreateChecksum(e, hrp, data)
  {
    hide VerifyChecksum, CreateChecksum, AsciiText;
    var created := CreateChecksum(e, hrp, data);
    CreatedChecksumVerifies(e, hrp, data);
    assert data + check + [] == data + check && data + created + [] == data + created;
    if check != created { BurstDetected(hrp, data, check, created, [], e); }
  }

  /** Whatever decodes is, in lower case, the encoding of what it decodes to. */
  lemma EncodeDecoded(s: string)
    requires Decode(s).Some?
    ensures var (e, hrp, data) := Decode(s).value; Lower(s) == Encode(e, hrp, data)
  {
    hide VerifyChecksum, CreateChecksum, SymbolsOf, AllInCharset, IndexOf, CHARSET, AsciiText;
    var low := Lower(s);
    var pos := RFind(low, '1');
    var (e, hrp, data) := Decode(s).value;
    var full := SymbolsOf(low[pos + 1..]);
    CharsOfSymbols(low[pos + 1..]);
    var check := full[|full| - 6..];
    assert full == data + check;
    PrefixAscii(low, pos);
    CaseLaws(s);
    OnlyCreatedVerifies(e, hrp, data, check);
    assert low == low[..pos] + [low[pos]] + low[pos + 1..];
  }

  lemma PrefixAscii(s: string, n: nat)
    requires n <= |s|
    ensures AsciiText(s) ==> AsciiText(s[..n])
  {
    assert forall c :: c in s[..n] ==> c in s;
  }

  /** A text decodes to a version and program exactly if it is the address `encode_segwit_address` makes of them, in
      lower or in upper case; so each version and program has one address. */
  lemma DecodeSegwitIff(hrp: string, addr: string, witver: symbol, prog: bytes)
    ensures DecodeSegwit(hrp, addr) == Some((witver, prog))
       <==> && ValidArguments(hrp, witver, |prog|)
            && (addr == Drafted(hrp, witver, prog) || addr == Upper(Drafted(hrp, witver, prog)))
  {
    hide Decode, Encode, Convert, CreateChecksum, AsciiText, ValidArguments, Lower, Upper;
    EncodeSegwitIff(hrp, witver, prog);
    var draft := Drafted(hrp, witver, prog);
    CaseLaws(addr);
    DecodeOfCase(addr);
    if DecodeSegwit(hrp, addr) == Some((witver, prog)) {
      var data := Decode(addr).value.2;
      EncodeDecoded(addr);
      ProgramIs(data[1..], prog);
      assert data == [witver] + ProgramSymbols(prog);
      DecodesCase(addr);
    }
    if ValidArguments(hrp, witver, |prog|) {
      DecodesCase(draft);
      EncodeDecoded(draft);
      DecodeOfCase(draft);
      CaseLaws(draft);
    }
  }

  lemma DecodesCase(s: string)
    ensures Decode(s).Some? ==> Lower(s) == s || Upper(s) == s
  {}

  lemma ProgramIs(syms: seq<symbol>, prog: bytes)
    requires Convert(syms, 5, 8, false) == Some(prog)
    ensures syms == ProgramSymbols(prog)
  {
    hide Convert;
    assert Pow(2, 5) == 32;
    SplitBack(syms, prog, 8, 5);
  }

  /** Version 0 is written with the constant of Bech32, every other version with that of Bech32m (BIP 350). */
  lemma VersionConstant(hrp: string, addr: string, witver: nat, prog: seq<nat>)
    requires DecodeSegwit(hrp, addr) == Some((witver, prog))
    ensures witver <= 16 && 2 <= |prog| <= 40 && (witver == 0 ==> |prog| == 20 || |prog| == 32)
    ensures |Lower(addr)| > |hrp| && Lower(addr)[..|hrp|] == hrp && AllInCharset(Lower(addr)[|hrp| + 1..])
    ensures Polymod(BECH32_CODE, HrpExpand(hrp) + SymbolsOf(Lower(addr)[|hrp| + 1..]))
         == if witver == 0 then 1 else 0x2bc830a3
  {
    hide Polymod, Convert, AllInCharset, IndexOf, CHARSET, AsciiText;
  }
}
