/** Spending a taproot output by script (section "Script validation rules" of BIP 341): the rule a verifier applies,
    that it accepts every leaf of the tree `taproot_construct` builds, and that it accepts nothing else. */
module TaprootSpend {
  import opened Bytes
  import opened Arith
  import opened Codec
  import opened Tagged
  import opened Curve
  import opened Multiples
  import opened Taproot
  import opened Schnorr
  import opened TaprootOutput

  // ---- The verifier's rule

  /** The hash of two children, the smaller of the two numbers first. */
  function Branch(h: TaggedHash, a: bytes, b: bytes): (r: bytes)
    ensures |r| == 32
  {
    h("TapBranch", if FromBE(a) < FromBE(b) then a + b else b + a)
  }

  function RootFrom(h: TaggedHash, k: bytes, path: bytes): bytes
    requires |path| % 32 == 0
    decreases |path|
  {
    if path == [] then k else RootFrom(h, Branch(h, k, path[..32]), path[32..])
  }

  /** A control block: version and parity in one byte, the internal key, at most 128 hashes. */
  predicate ControlFits(control: bytes) {
    33 <= |control| <= 33 + 32 * 128 && (|control| - 33) % 32 == 0
  }

  function LeafVersion(control: bytes): (r: nat)
    requires ControlFits(control)
    ensures r < 256 && r % 2 == 0
  {
    control[0] - control[0] % 2
  }

  /** The hash the rule arrives at from the script and its control block. */
  function CommittedRoot(h: TaggedHash, script: bytes, control: bytes): bytes
    requires ControlFits(control) && |script| < U64
  {
    RootFrom(h, h("TapLeaf", [LeafVersion(control)] + (SerCompactSize(|script|) + script)), control[33..])
  }

  /** A script and control block are accepted for an output key: tweaking the internal key gives the output key with
      the stated parity. */
  ghost predicate Accepted(c: Params, key: bytes, script: bytes, control: bytes)
    requires c.p > 0
  {
    && ControlFits(control) && |script| < U64
    && var t := FromBE(c.tagged("TapTweak", control[1..33] + CommittedRoot(c.tagged, script, control)));
       var odd, inner := control[0] % 2 == 1, control[1..33];
       t < c.n && exists P :: IsTweaked(c, P, inner, t, key, odd)
  }

  // ---- The two orders agree

  /** Python's order on byte strings of one length is that of the numbers they stand for. */
  lemma {:induction false} LexIsNumeric(a: bytes, b: bytes)
    requires |a| == |b|
    ensures LexLess(a, b) <==> FromBE(a) < FromBE(b)
  {
    if a != [] {
      LexIsNumeric(a[1..], b[1..]);
      FromBEFirst(a[0], a[1..]);
      FromBEFirst(b[0], b[1..]);
      assert a == [a[0]] + a[1..] && b == [b[0]] + b[1..];
      TopDigit(a[0], b[0], FromBE(a[1..]), FromBE(b[1..]), Pow(256, |a| - 1));
    }
  }

  lemma TopDigit(x: nat, y: nat, u: nat, v: nat, p: nat)
    requires u < p && v < p
    ensures p * x + u < p * y + v <==> x < y || (x == y && u < v)
  {
    if x < y { MulMono(x + 1, y, p); }
    if y < x { MulMono(y + 1, x, p); }
  }

  lemma BranchIs(h: TaggedHash, a: bytes, b: bytes)
    requires |a| == |b|
    ensures Branch(h, a, b) == h("TapBranch", Sorted(a, b))
  {
    hide FromBE, LexLess;
    LexIsNumeric(a, b);
    LexIsNumeric(b, a);
    if FromBE(a) == FromBE(b) { FromBEInjective(a, b); }
  }

  lemma {:induction false} RootIsFold(h: TaggedHash, k: bytes, path: bytes)
    requires |k| == 32 && |path| % 32 == 0
    ensures RootFrom(h, k, path) == Fold(h, k, path)
    decreases |path|
  {
    hide Branch, Sorted;
    if path != [] {
      BranchIs(h, k, path[..32]);
      RootIsFold(h, Branch(h, k, path[..32]), path[32..]);
    }
  }

  // ---- Every leaf is accepted

  /** The control block of a leaf. */
  function ControlBlock(info: TaprootInfo, l: TaprootLeafInfo): (r: bytes)
    requires l.version % 2 == 0 && l.version < 256 && info.negflag < 2
  {
    [l.version + info.negflag] + info.internalPubkey + l.merklebranch
  }

  /** The script of every named leaf is accepted with its control block, if its Merkle branch is not longer than
      128 hashes; otherwise the rule refuses it. */
  lemma LeafAcceptedIff(c: Params, pubkey: bytes, scripts: seq<Item>, name: string)
    requires GoodParams(c) && WellFormed(scripts)
    requires Construct(c, pubkey, scripts, false).Some? && name in Construct(c, pubkey, scripts, false).value.leaves
    ensures var info := Construct(c, pubkey, scripts, false).value;
      var l := info.leaves[name];
      && l.version % 2 == 0 && l.version < 256 && info.negflag < 2
      && (Accepted(c, info.outputPubkey, l.script, ControlBlock(info, l)) <==> |l.merklebranch| <= 32 * 128)
  {
    hide TweakPub, TreeHelper, GoodParams, WellFormed, LeafDict, OutputScript, Fold, LeafHash, RootFrom, IsTweaked, FromBE;
    var info := Construct(c, pubkey, scripts, false).value;
    var l := info.leaves[name];
    ScriptPathVerifies(c, pubkey, scripts, name);
    BranchesFoldToRoot(c.tagged, scripts);
    var tree := TreeHelper(c.tagged, scripts).value;
    var i := LeafDictEntry(tree.0, name);
    assert Reaches(c.tagged, tree.0[i], tree.1);
    var control := ControlBlock(info, l);
    assert control[1..33] == pubkey && control[33..] == l.merklebranch;
    if ControlFits(control) {
      RootIsFold(c.tagged, l.leafHash, l.merklebranch);
      LeafHashIs(c.tagged, l.version, l.script);
      assert CommittedRoot(c.tagged, l.script, control) == info.merkleRoot;
      TweakPubIff(c, pubkey, Tweak(c.tagged, pubkey, info.merkleRoot), info.outputPubkey, info.negflag == 1);
    }
  }

  lemma LeafHashIs(h: TaggedHash, version: nat, code: bytes)
    requires version < 256 && |code| < U64
    ensures LeafHash(h, version, code) == h("TapLeaf", [version] + (SerCompactSize(|code|) + code))
  {}

  // ---- Nothing else is accepted

  /** A leaf with this version and code, named or not, is somewhere in the tree. */
  ghost predicate HasLeaf(scripts: seq<Item>, version: nat, code: bytes)
    decreases scripts
  {
    exists i :: 0 <= i < |scripts| && ItemHasLeaf(scripts[i], version, code)
  }

  ghost predicate ItemHasLeaf(item: Item, version: nat, code: bytes)
    decreases item
  {
    match item
    case Leaf(_, co, ve) => ve == version && co == code
    case Node(items) => HasLeaf(items, version, code)
    case Partner(_) => false
  }

  ghost predicate NoPartners(scripts: seq<Item>)
    decreases scripts
  {
    forall i :: 0 <= i < |scripts| ==> ItemNoPartners(scripts[i])
  }

  ghost predicate ItemNoPartners(item: Item)
    decreases item
  {
    match item
    case Leaf(_, _, _) => true
    case Node(items) => NoPartners(items)
    case Partner(_) => false
  }

  lemma LeafHashBinds(h: TaggedHash, v: nat, code: bytes, v': nat, code': bytes) returns (x: Input, y: Input)
    requires v < 256 && v' < 256 && |code| < U64 && |code'| < U64 && LeafHash(h, v, code) == LeafHash(h, v', code')
    ensures TaggedCollision(h, x, y) || (v == v' && code == code')
  {
    hide SerCompactSize, SerString;
    x, y := Input("TapLeaf", [v] + SerString(code)), Input("TapLeaf", [v'] + SerString(code'));
    if x == y {
      assert x.data[0] == v && y.data[0] == v' && x.data[1..] == SerString(code) && y.data[1..] == SerString(code');
      StringRoundTrip(code, []);
      StringRoundTrip(code', []);
    }
  }

  /** Equal branch hashes have the same two children, in some order. */
  lemma BranchBinds(h: TaggedHash, a: bytes, b: bytes, l: bytes, r: bytes) returns (x: Input, y: Input)
    requires |a| == |b| == |l| == |r| == 32 && h("TapBranch", Sorted(a, b)) == h("TapBranch", Sorted(l, r))
    ensures TaggedCollision(h, x, y) || (a == l && b == r) || (a == r && b == l)
  {
    hide LexLess;
    x, y := Input("TapBranch", Sorted(a, b)), Input("TapBranch", Sorted(l, r));
    if x == y {
      assert x.data[..32] == y.data[..32] && x.data[32..] == y.data[32..];
      assert (a + b)[..32] == a && (a + b)[32..] == b && (b + a)[..32] == b && (b + a)[32..] == a;
      assert (l + r)[..32] == l && (l + r)[32..] == r && (r + l)[..32] == r && (r + l)[32..] == l;
    }
  }

  lemma LeafIsNoBranch(h: TaggedHash, v: nat, code: bytes, data: bytes) returns (x: Input, y: Input)
    requires v < 256 && |code| < U64 && LeafHash(h, v, code) == h("TapBranch", data)
    ensures TaggedCollision(h, x, y)
  {
    x, y := Input("TapLeaf", [v] + SerString(code)), Input("TapBranch", data);
    assert x.tag[3] != y.tag[3];
  }

  /** The last hash of a branch is the sibling right below the root. */
  lemma FoldLast(h: TaggedHash, k: bytes, path: bytes) returns (below: bytes, e: bytes, path': bytes)
    requires |k| == 32 && |path| % 32 == 0 && path != []
    ensures |path'| % 32 == 0 && |e| == 32 && |below| == 32 && below == Fold(h, k, path')
    ensures Fold(h, k, path) == h("TapBranch", Sorted(below, e))
  {
    hide Sorted;
    var n := |path| - 32;
    path', e := path[..n], path[n..];
    assert path == path' + e;
    FoldSnoc(h, k, path', e);
    below := Fold(h, k, path');
    FoldSize(h, k, path');
  }

  lemma {:induction false} FoldSize(h: TaggedHash, k: bytes, path: bytes)
    requires |k| == 32
    ensures |Fold(h, k, path)| == 32
    decreases |path|
  {
    hide Sorted;
    if |path| >= 32 { FoldSize(h, h("TapBranch", Sorted(k, path[..32])), path[32..]); }
  }

  /** Whatever version, code and branch lead to the root of a tree without partners, they are those of one of its leaves,
      or the tagged hash has a collision (which the lemma names). */
  lemma {:induction false} OnlyLeavesReach(h: TaggedHash, scripts: seq<Item>, version: nat, code: bytes, path: bytes)
    returns (x: Input, y: Input)
    requires WellFormed(scripts) && NoPartners(scripts) && TreeHelper(h, scripts).Some?
    requires version < 256 && |code| < U64 && |path| % 32 == 0
    requires Fold(h, LeafHash(h, version, code), path) == TreeHelper(h, scripts).value.1
    ensures TaggedCollision(h, x, y) || HasLeaf(scripts, version, code)
    decreases scripts
  {
    hide LeafHash, Sorted, Extend, TaggedCollision;
    var k := LeafHash(h, version, code);
    if |scripts| == 1 {
      assert WellFormedItem(scripts[0]) && ItemNoPartners(scripts[0]);
      if scripts[0].Node? {
        x, y := OnlyLeavesReach(h, scripts[0].items, version, code, path);
      } else {
        var l := scripts[0];
        if path == [] {
          x, y := LeafHashBinds(h, version, code, l.version, l.code);
        } else {
          var below, e, path' := FoldLast(h, k, path);
          x, y := LeafIsNoBranch(h, l.version, l.code, Sorted(below, e));
        }
      }
    } else {
      assert ItemNoPartners(scripts[1]);
      var split := |scripts| / 2;
      HalvesWellFormed(scripts, split);
      var l, r := TreeHelper(h, scripts[..split]).value.1, TreeHelper(h, scripts[split..]).value.1;
      RootSize(h, scripts[..split]);
      RootSize(h, scripts[split..]);
      if path == [] {
        x, y := LeafIsNoBranch(h, version, code, Sorted(l, r));
      } else {
        var below, e, path' := FoldLast(h, k, path);
        x, y := BranchBinds(h, below, e, l, r);
        if !TaggedCollision(h, x, y) {
          if below == l {
            x, y := OnlyLeavesReach(h, scripts[..split], version, code, path');
          } else {
            x, y := OnlyLeavesReach(h, scripts[split..], version, code, path');
          }
        }
      }
    }
  }

  lemma RootSize(h: TaggedHash, scripts: seq<Item>)
    requires WellFormed(scripts) && TreeHelper(h, scripts).Some?
    ensures |TreeHelper(h, scripts).value.1| == 32
  {
    hide TreeHelper, WellFormed, Reaches;
    BranchesFoldToRoot(h, scripts);
  }

  lemma HalvesWellFormed(scripts: seq<Item>, split: nat)
    requires WellFormed(scripts) && NoPartners(scripts) && 0 < split < |scripts|
    ensures WellFormed(scripts[..split]) && WellFormed(scripts[split..])
    ensures NoPartners(scripts[..split]) && NoPartners(scripts[split..])
    ensures forall v, code :: HasLeaf(scripts[..split], v, code) || HasLeaf(scripts[split..], v, code) ==>
              HasLeaf(scripts, v, code)
  {
    hide WellFormedItem, ItemNoPartners, ItemHasLeaf;
  }

  /** With the internal key the output was made from, a verifier accepts only scripts that are leaves of the tree, with
      their versions, unless the tagged hash has a collision (which the lemma names). */
  lemma OnlyLeavesAccepted(c: Params, pubkey: bytes, scripts: seq<Item>, info: TaprootInfo, script: bytes, control: bytes)
    returns (x: Input, y: Input)
    requires GoodParams(c) && WellFormed(scripts) && NoPartners(scripts)
    requires Construct(c, pubkey, scripts, false) == Some(info)
    requires ControlFits(control) && control[1..33] == pubkey && control[0] % 2 == info.negflag
    requires Accepted(c, info.outputPubkey, script, control)
    ensures TaggedCollision(c.tagged, x, y) || HasLeaf(scripts, LeafVersion(control), script)
  {
    hide TweakPub, TreeHelper, GoodParams, WellFormed, LeafDict, OutputScript, Fold, LeafHash, RootFrom, IsTweaked, FromBE,
         NoPartners, HasLeaf, Group, Mult, Add;
    var h, root := c.tagged, info.merkleRoot;
    var found := CommittedRoot(h, script, control);
    var t, t' := Tweak(h, pubkey, root), Tweak(h, pubkey, found);
    TweakPubIff(c, pubkey, t, info.outputPubkey, info.negflag == 1);
    TweakPubIff(c, pubkey, t', info.outputPubkey, info.negflag == 1);
    SameTweak(c, pubkey, t, t');
    x, y := Input("TapTweak", pubkey + root), Input("TapTweak", pubkey + found);
    if x == y {
      assert root == x.data[32..] && found == y.data[32..];
      var version := LeafVersion(control);
      LeafHashIs(h, version, script);
      RootIsFold(h, LeafHash(h, version, script), control[33..]);
      x, y := OnlyLeavesReach(h, scripts, version, script, control[33..]);
    }
  }

  /** Two tweaks of one key with the same result are equal. */
  lemma SameTweak(c: Params, pubkey: bytes, t: bytes, t': bytes)
    requires GoodParams(c) && |pubkey| == |t| == |t'| == 32
    requires TweakPub(c, pubkey, t).Some? && TweakPub(c, pubkey, t) == TweakPub(c, pubkey, t')
    ensures t == t'
  {
    hide Add, Mult, LiftX, Group, FromBE, TweakPub, IsTweaked;
    var P := TweakPubLaw(c, pubkey, t);
    var Q := TweakPubLaw(c, pubkey, t');
    SamePoint(c, P, Q, pubkey, FromBE(t), FromBE(t'), TweakPub(c, pubkey, t).value.0, TweakPub(c, pubkey, t).value.1);
    FromBEInjective(t, t');
  }

  lemma SamePoint(c: Params, P: Point, Q: Point, key: bytes, t: nat, t': nat, q: bytes, odd: bool)
    requires GoodParams(c) && |key| == 32 && t < c.n && t' < c.n
    requires IsTweaked(c, P, key, t, q, odd) && IsTweaked(c, Q, key, t', q, odd)
    ensures t == t'
  {
    hide Add, Mult, Group, FromBE, OnCurve, LiftX;
    ParamsGroup(c);
    PointInRange(P, c.p);
    LiftIff(P.x, P, c.n, c.p);
    LiftIff(P.x, Q, c.n, c.p);
    var A, B := Mult(t, c.G, c.p), Mult(t', c.G, c.p);
    MultOnCurve(t, c.G, c.p);
    MultOnCurve(t', c.G, c.p);
    AddOnCurve(P, A, c.p);
    AddOnCurve(P, B, c.p);
    SameXAndParity(Add(P, A, c.p), Add(P, B, c.p), c.n, c.p);
    CancelLeft(P, A, B, c.n, c.p);
    if t < t' { MultiplesDiffer(c, t', t); } else if t' < t { MultiplesDiffer(c, t, t'); }
  }

  /** Points with the same x coordinate and parity are the same. */
  lemma SameXAndParity(A: Point, B: Point, n: nat, p: nat)
    requires Group(n, p) && p % 4 == 3 && OnCurve(A, p) && OnCurve(B, p) && A.Affine? && B.Affine?
    requires A.x == B.x && (A.y % 2 == 0 <==> B.y % 2 == 0)
    ensures A == B
  {
    hide Group, LiftX, OnCurve;
    OddFieldSize(p);
    LiftOfPoint(A, n, p);
    LiftOfPoint(B, n, p);
    NegParity(A, n, p);
    NegParity(B, n, p);
  }

  lemma CancelLeft(P: Point, A: Point, B: Point, n: nat, p: nat)
    requires Group(n, p) && OnCurve(P, p) && OnCurve(A, p) && OnCurve(B, p) && Add(P, A, p) == Add(P, B, p)
    ensures A == B
  {
    hide Add, Group, OnCurve, Neg;
    GroupPositive(n, p);
    AddCommutes(P, A, p);
    AddCommutes(P, B, p);
    CancelSummand(A, P, n, p);
    CancelSummand(B, P, n, p);
  }

  /** With the internal key taken as the point at infinity, the output is the tweak's own point. */
  lemma InfinityOutput(c: Params, pubkey: bytes, scripts: seq<Item>, info: TaprootInfo)
    requires GoodParams(c) && Construct(c, pubkey, scripts, true) == Some(info)
    ensures info.tweak == c.tagged("TapTweak", pubkey + info.merkleRoot)
    ensures var t := FromBE(info.tweak);
      && 0 < t < c.n
      && var Q := Add(Infinity, Mult(t, c.G, c.p), c.p);
         Q.Affine? && Q.x == FromBE(info.outputPubkey) && info.negflag == Q.y % 2
  {
    hide ComputeXOnly, TreeHelper, GoodParams, LeafDict, OutputScript, FromBE, Mult;
    ParamsGroup(c);
    ComputeXOnlyIff(c, info.tweak, info.outputPubkey, info.negflag == 1);
    AddInfinity(Mult(FromBE(info.tweak), c.G, c.p), c.p);
  }
}
