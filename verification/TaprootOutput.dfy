/** Taproot outputs (script.py, `taproot_construct`): the script tree and the internal key committed to in one key. */
module TaprootOutput {
  import opened Bytes
  import opened Tagged
  import opened Curve
  import opened Multiples
  import opened Taproot
  import opened Schnorr
  import Script
  import ScriptNum

  datatype TaprootLeafInfo = TaprootLeafInfo(script: bytes, version: nat, merklebranch: bytes, leafHash: bytes)

  datatype TaprootInfo = TaprootInfo(scriptPubKey: bytes, internalPubkey: bytes, negflag: nat, tweak: bytes,
                                     leaves: map<string, TaprootLeafInfo>, merkleRoot: bytes, outputPubkey: bytes)

  /** The dict of the named leaves; of two with the same name the later one stays. */
  function LeafDict(leaves: seq<LeafInfo>): map<string, TaprootLeafInfo> {
    if leaves == [] then map[]
    else
      var l := leaves[|leaves| - 1];
      LeafDict(leaves[..|leaves| - 1])[l.name := InfoOf(l)]
  }

  function InfoOf(l: LeafInfo): TaprootLeafInfo {
    TaprootLeafInfo(l.code, l.version, l.control, l.leafHash)
  }

  function Tweak(h: TaggedHash, pubkey: bytes, root: bytes): (r: bytes)
    ensures |r| == 32
  {
    h("TapTweak", pubkey + root)
  }

  /** `CScript([OP_1, key])` */
  function OutputScript(key: bytes): bytes
    requires |key| == 32
  {
    Script.Build([Script.Code(ScriptNum.OP_1), Script.Push(key)])
  }

  /** `taproot_construct`; None is any exception: of the tree, of an internal key that is not 32 bytes long or
      not on the curve, or of a tweak out of range. */
  function Construct(c: Params, pubkey: bytes, scripts: seq<Item>, internalIsInfinity: bool): Option<TaprootInfo>
    requires GoodParams(c)
  {
    var tree := TreeHelper(c.tagged, scripts);
    if tree.None? then None
    else
      var (ret, root) := tree.value;
      var tweak := Tweak(c.tagged, pubkey, root);
      var tweaked := if internalIsInfinity then ComputeXOnly(c, tweak)
                     else if |pubkey| != 32 then None
                     else TweakPub(c, pubkey, tweak);
      if tweaked.None? then None
      else Some(TaprootInfo(OutputScript(tweaked.value.0), pubkey, if tweaked.value.1 then 1 else 0, tweak,
                            LeafDict(ret), root, tweaked.value.0))
  }

  /** It is read as the version and the key. */
  lemma OutputScriptParses(key: bytes)
    requires |key| == 32
    ensures OutputScript(key) == [ScriptNum.OP_1, 32] + key
    ensures Script.RawIter(OutputScript(key), 0)
            == Some([(Script.Op(ScriptNum.OP_1, None, 1), 0), (Script.Op(32, Some(key), 33), 1)])
  {
    hide Script.NextOp;
    var tokens := [Script.Code(ScriptNum.OP_1), Script.Push(key)];
    ScriptNum.BuildTwo(tokens[0], tokens[1]);
    Script.BuildParses(tokens);
    var ops := Script.TokenOps(tokens);
    assert ops == [Script.Op(ScriptNum.OP_1, None, 1), Script.Op(32, Some(key), 33)];
    OffsetsOfTwo(ops[0], ops[1]);
  }

  lemma OffsetsOfTwo(a: Script.Op, b: Script.Op)
    ensures Script.WithOffsets([a, b], 0) == [(a, 0), (b, a.size)]
  {
    assert [a, b][1..] == [b] && [b][1..] == [];
    assert Script.WithOffsets([b], a.size) == [(b, a.size)];
  }

  // ---- Spending by key

  /** The output key of an internal key is the public key of the private key tweaked with the root of the
      tree, including the negation flag; it exists exactly when that private key does. */
  lemma OutputKeyIsTweaked(c: Params, key: bytes, scripts: seq<Item>)
    requires GoodParams(c) && |key| == 32 && ComputeXOnly(c, key).Some? && TreeHelper(c.tagged, scripts).Some?
    ensures var pub := ComputeXOnly(c, key).value.0;
      var tweak := Tweak(c.tagged, pub, TreeHelper(c.tagged, scripts).value.1);
      var info := Construct(c, pub, scripts, false);
      match TweakPriv(c, key, tweak)
      case None => info == None
      case Some(k) => info.Some? && ComputeXOnly(c, k) == Some((info.value.outputPubkey, info.value.negflag == 1))
  {
    hide TweakPub, TweakPriv, ComputeXOnly, TreeHelper, GoodParams, LeafDict, OutputScript;
    var pub := ComputeXOnly(c, key).value.0;
    var tweak := Tweak(c.tagged, pub, TreeHelper(c.tagged, scripts).value.1);
    TweaksAgree(c, key, tweak);
    if TweakPriv(c, key, tweak).Some? { TweakedHasKey(c, key, tweak); }
  }

  lemma TweakedHasKey(c: Params, key: bytes, tweak: bytes)
    requires GoodParams(c) && |key| == |tweak| == 32 && TweakPriv(c, key, tweak).Some?
    ensures ComputeXOnly(c, TweakPriv(c, key, tweak).value).Some?
  {
    hide Mult, OnCurve, Associative, Exponent, Encode32, XOnly;
  }

  /** What is signed with the tweaked private key verifies under the output key. */
  lemma KeyPathVerifies(c: Params, key: bytes, scripts: seq<Item>, msg: bytes, aux: bytes)
    requires GoodParams(c) && |key| == 32 && ComputeXOnly(c, key).Some? && TreeHelper(c.tagged, scripts).Some?
    requires var tweak := Tweak(c.tagged, ComputeXOnly(c, key).value.0, TreeHelper(c.tagged, scripts).value.1);
      TweakPriv(c, key, tweak).Some? && Sign(c, TweakPriv(c, key, tweak).value, msg, aux, false, false).Signature?
    ensures var pub := ComputeXOnly(c, key).value.0;
      var tweak := Tweak(c.tagged, pub, TreeHelper(c.tagged, scripts).value.1);
      var info := Construct(c, pub, scripts, false);
      info.Some? && |info.value.outputPubkey| == 32
      && Verify(c, info.value.outputPubkey, Sign(c, TweakPriv(c, key, tweak).value, msg, aux, false, false).sig, msg)
  {
    hide TweakPub, TweakPriv, ComputeXOnly, TreeHelper, GoodParams, LeafDict, OutputScript, Sign, Verify, Construct;
    OutputKeyIsTweaked(c, key, scripts);
    var tweak := Tweak(c.tagged, ComputeXOnly(c, key).value.0, TreeHelper(c.tagged, scripts).value.1);
    SignatureVerifies(c, TweakPriv(c, key, tweak).value, msg, aux);
  }

  // ---- Spending by script

  lemma {:induction false} LeafDictEntry(leaves: seq<LeafInfo>, name: string) returns (i: nat)
    requires name in LeafDict(leaves)
    ensures i < |leaves| && leaves[i].name == name && LeafDict(leaves)[name] == InfoOf(leaves[i])
  {
    var n := |leaves| - 1;
    if leaves[n].name == name {
      i := n;
    } else {
      i := LeafDictEntry(leaves[..n], name);
    }
  }

  lemma {:induction false} LeafDictHas(leaves: seq<LeafInfo>, i: nat)
    requires i < |leaves|
    ensures leaves[i].name in LeafDict(leaves)
  {
    var n := |leaves| - 1;
    if i < n { LeafDictHas(leaves[..n], i); }
  }

  /** For every well-formed tree and internal key: the leaf hash and Merkle branch of every named leaf lead to
      the root, and with the internal key to the output key and its negation flag, which is what the script path
      rule recomputes (section "Script validation rules" of BIP 341). */
  lemma ScriptPathVerifies(c: Params, pubkey: bytes, scripts: seq<Item>, name: string)
    requires GoodParams(c) && WellFormed(scripts)
    requires Construct(c, pubkey, scripts, false).Some? && name in Construct(c, pubkey, scripts, false).value.leaves
    ensures var info := Construct(c, pubkey, scripts, false).value;
      var l := info.leaves[name];
      && |pubkey| == 32 && l.version < 256 && |l.script| < U64 && l.leafHash == LeafHash(c.tagged, l.version, l.script)
      && Fold(c.tagged, l.leafHash, l.merklebranch) == info.merkleRoot
      && TweakPub(c, pubkey, Tweak(c.tagged, pubkey, Fold(c.tagged, l.leafHash, l.merklebranch)))
         == Some((info.outputPubkey, info.negflag == 1))
  {
    hide TweakPub, TreeHelper, GoodParams, WellFormed, LeafDict, OutputScript, Fold, LeafHash;
    BranchesFoldToRoot(c.tagged, scripts);
    var tree := TreeHelper(c.tagged, scripts).value;
    var i := LeafDictEntry(tree.0, name);
    assert Reaches(c.tagged, tree.0[i], tree.1);
  }

  ghost predicate DistinctNames(leaves: seq<(string, nat, bytes)>) {
    forall i, j :: 0 <= i < j < |leaves| ==> leaves[i].0 != leaves[j].0
  }

  /** If no two leaves have the same name, the dict has exactly the named leaves of the tree, with their scripts
      and versions. */
  lemma LeavesByName(c: Params, pubkey: bytes, scripts: seq<Item>, name: string)
    requires GoodParams(c) && Construct(c, pubkey, scripts, false).Some? && DistinctNames(NamedLeaves(scripts))
    ensures var leaves := Construct(c, pubkey, scripts, false).value.leaves;
      forall version, code :: (name, version, code) in NamedLeaves(scripts)
        <==> name in leaves && leaves[name].version == version && leaves[name].script == code
  {
    hide TweakPub, TreeHelper, GoodParams, LeafDict, OutputScript, NamedLeaves;
    LeavesInOrder(c.tagged, scripts);
    var ret := TreeHelper(c.tagged, scripts).value.0;
    var named := NamedLeaves(scripts);
    var leaves := LeafDict(ret);
    if name in leaves {
      var i := LeafDictEntry(ret, name);
      assert named[i] == (name, leaves[name].version, leaves[name].script);
    }
    forall k | 0 <= k < |named| && named[k].0 == name
      ensures name in leaves && leaves[name].version == named[k].1 && leaves[name].script == named[k].2
    {
      LeafDictHas(ret, k);
      var i := LeafDictEntry(ret, name);
      assert named[i].0 == named[k].0;
    }
  }
}
