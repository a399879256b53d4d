/** Taproot script trees (script.py, `taproot_tree_helper`; section "Script validation rules" of BIP 341). */
module Taproot {
  import opened Bytes
  import opened Codec
  import opened Tagged

  /** A leaf (an unnamed one is only hashed), a nested list, or a function from the hash of the item
      before it to a partner for that hash. */
  datatype Item =
    | Leaf(name: Option<string>, code: bytes, version: nat)
    | Node(items: seq<Item>)
    | Partner(f: bytes -> bytes)

  datatype LeafInfo = LeafInfo(name: string, version: nat, code: bytes, control: bytes, leafHash: bytes)

  /** Python's order on byte strings. */
  predicate LexLess(a: bytes, b: bytes) {
    if b == [] then false
    else if a == [] then true
    else a[0] < b[0] || (a[0] == b[0] && LexLess(a[1..], b[1..]))
  }

  function LeafHash(h: TaggedHash, version: nat, code: bytes): (r: bytes)
    requires version < 256 && |code| < U64
    ensures |r| == 32
  {
    h("TapLeaf", [version] + SerString(code))
  }

  /** The children in the order `taproot_tree_helper` hashes them: swapped if the right one is smaller. */
  function Sorted(left: bytes, right: bytes): bytes {
    if LexLess(right, left) then right + left else left + right
  }

  /** Append a partner to the Merkle branch of every leaf of one side. */
  function Extend(leaves: seq<LeafInfo>, partner: bytes): (r: seq<LeafInfo>)
    ensures |r| == |leaves|
    ensures forall i :: 0 <= i < |r| ==> r[i] == leaves[i].(control := leaves[i].control + partner)
  {
    seq(|leaves|, i requires 0 <= i < |leaves| => leaves[i].(control := leaves[i].control + partner))
  }

  type Tree = (seq<LeafInfo>, bytes)

  function Join(h: TaggedHash, left: Tree, right: Tree): Tree {
    (Extend(left.0, right.1) + Extend(right.0, left.1), h("TapBranch", Sorted(left.1, right.1)))
  }

  /** `taproot_tree_helper`; None is any of its assertions failing (or a version that is not a byte). */
  function TreeHelper(h: TaggedHash, scripts: seq<Item>): Option<Tree>
    decreases scripts
  {
    if |scripts| == 0 then Some(([], []))
    else if |scripts| == 1 then
      match scripts[0]
      case Partner(_) => None
      case Node(items) => TreeHelper(h, items)
      case Leaf(name, code, version) =>
        if version % 2 != 0 || version >= 256 || |code| >= U64 then None
        else
          var hash := LeafHash(h, version, code);
          Some((if name.None? then [] else [LeafInfo(name.value, version, code, [], hash)], hash))
    else if |scripts| == 2 && scripts[1].Partner? then
      var left := TreeHelper(h, scripts[..1]);
      if left.None? then None else Some(Join(h, left.value, ([], scripts[1].f(left.value.1))))
    else
      var split := |scripts| / 2;
      var left := TreeHelper(h, scripts[..split]);
      var right := TreeHelper(h, scripts[split..]);
      if left.None? || right.None? then None else Some(Join(h, left.value, right.value))
  }

  // ---- The tree read from left to right, independently of how it is split

  function NamedLeaves(scripts: seq<Item>): seq<(string, nat, bytes)>
    decreases scripts
  {
    if scripts == [] then []
    else ItemLeaves(scripts[0]) + NamedLeaves(scripts[1..])
  }

  function ItemLeaves(item: Item): seq<(string, nat, bytes)>
    decreases item
  {
    match item
    case Leaf(name, code, version) => if name.None? then [] else [(name.value, version, code)]
    case Node(items) => NamedLeaves(items)
    case Partner(_) => []
  }

  function Named(leaves: seq<LeafInfo>): (r: seq<(string, nat, bytes)>)
    ensures |r| == |leaves|
    ensures forall i :: 0 <= i < |r| ==> r[i] == (leaves[i].name, leaves[i].version, leaves[i].code)
  {
    seq(|leaves|, i requires 0 <= i < |leaves| => (leaves[i].name, leaves[i].version, leaves[i].code))
  }

  lemma {:induction false} NamedLeavesConcat(a: seq<Item>, b: seq<Item>)
    ensures NamedLeaves(a + b) == NamedLeaves(a) + NamedLeaves(b)
    decreases |a|
  {
    hide ItemLeaves;
    if a == [] {
      assert a + b == b;
    } else {
      NamedLeavesConcat(a[1..], b);
      assert (a + b)[0] == a[0] && (a + b)[1..] == a[1..] + b;
    }
  }

  lemma NamedLeavesOfOne(item: Item)
    ensures NamedLeaves([item]) == ItemLeaves(item)
  {
    assert [item][1..] == [];
  }

  lemma NamedJoin(h: TaggedHash, left: Tree, right: Tree)
    ensures Named(Join(h, left, right).0) == Named(left.0) + Named(right.0)
  {}

  /** Every named leaf appears exactly once, in order, with its version and code. */
  lemma {:induction false} LeavesInOrder(h: TaggedHash, scripts: seq<Item>)
    requires TreeHelper(h, scripts).Some?
    ensures Named(TreeHelper(h, scripts).value.0) == NamedLeaves(scripts)
    decreases scripts
  {
    hide Join, LeafHash;
    if |scripts| == 0 {
    } else if |scripts| == 1 {
      assert scripts == [scripts[0]];
      NamedLeavesOfOne(scripts[0]);
      if scripts[0].Node? { LeavesInOrder(h, scripts[0].items); }
    } else {
      var partner := |scripts| == 2 && scripts[1].Partner?;
      var split := if partner then 1 else |scripts| / 2;
      assert scripts == scripts[..split] + scripts[split..];
      NamedLeavesConcat(scripts[..split], scripts[split..]);
      LeavesInOrder(h, scripts[..split]);
      var left := TreeHelper(h, scripts[..split]).value;
      if partner {
        assert scripts[1..] == [scripts[1]];
        NamedLeavesOfOne(scripts[1]);
        NamedJoin(h, left, ([], scripts[1].f(left.1)));
      } else {
        LeavesInOrder(h, scripts[split..]);
        NamedJoin(h, left, TreeHelper(h, scripts[split..]).value);
      }
    }
  }

  // ---- Merkle branches

  /** Folding a branch in 32-byte steps from a leaf hash, as the script path spending rule does. */
  function Fold(h: TaggedHash, k: bytes, control: bytes): bytes
    decreases |control|
  {
    if |control| < 32 then k else Fold(h, h("TapBranch", Sorted(k, control[..32])), control[32..])
  }

  lemma {:induction false} LexAntisymmetric(a: bytes, b: bytes)
    ensures !(LexLess(a, b) && LexLess(b, a))
    ensures LexLess(a, b) || LexLess(b, a) || a == b
  {
    if a != [] && b != [] {
      LexAntisymmetric(a[1..], b[1..]);
      if a[0] == b[0] && a[1..] == b[1..] { assert a == [a[0]] + a[1..] && b == [b[0]] + b[1..]; }
    }
  }

  /** Hashing a branch does not depend on which child is called left. */
  lemma SortedSymmetric(a: bytes, b: bytes)
    ensures Sorted(a, b) == Sorted(b, a)
  {
    LexAntisymmetric(a, b);
  }

  /** A partner appended to a branch is hashed last. */
  lemma {:induction false} FoldSnoc(h: TaggedHash, k: bytes, control: bytes, e: bytes)
    requires |control| % 32 == 0 && |e| == 32
    ensures Fold(h, k, control + e) == h("TapBranch", Sorted(Fold(h, k, control), e))
    decreases |control|
  {
    if control == [] {
      assert control + e == e && e[..32] == e && e[32..] == [];
    } else {
      var k' := h("TapBranch", Sorted(k, control[..32]));
      FoldSnoc(h, k', control[32..], e);
      assert (control + e)[..32] == control[..32] && (control + e)[32..] == control[32..] + e;
    }
  }

  /** No nested list is empty, and partners are 32 bytes long. */
  ghost predicate WellFormed(scripts: seq<Item>)
    decreases scripts
  {
    && scripts != []
    && forall i :: 0 <= i < |scripts| ==> WellFormedItem(scripts[i])
  }

  ghost predicate WellFormedItem(item: Item)
    decreases item
  {
    match item
    case Leaf(_, _, _) => true
    case Node(items) => WellFormed(items)
    case Partner(f) => forall x :: |f(x)| == 32
  }

  ghost predicate Reaches(h: TaggedHash, leaf: LeafInfo, root: bytes) {
    && leaf.version < 256 && leaf.version % 2 == 0 && |leaf.code| < U64
    && leaf.leafHash == LeafHash(h, leaf.version, leaf.code)
    && |leaf.control| % 32 == 0
    && Fold(h, leaf.leafHash, leaf.control) == root
  }

  ghost predicate AllReach(h: TaggedHash, t: Tree) {
    && |t.1| == 32
    && forall i :: 0 <= i < |t.0| ==> Reaches(h, t.0[i], t.1)
  }

  lemma ExtendReaches(h: TaggedHash, t: Tree, partner: bytes)
    requires AllReach(h, t) && |partner| == 32
    ensures var r := Extend(t.0, partner);
      forall i :: 0 <= i < |r| ==> Reaches(h, r[i], h("TapBranch", Sorted(t.1, partner)))
  {
    var r := Extend(t.0, partner);
    forall i | 0 <= i < |r|
      ensures Reaches(h, r[i], h("TapBranch", Sorted(t.1, partner)))
    {
      assert Reaches(h, t.0[i], t.1);
      FoldSnoc(h, t.0[i].leafHash, t.0[i].control, partner);
    }
  }

  lemma JoinReaches(h: TaggedHash, left: Tree, right: Tree)
    requires AllReach(h, left) && AllReach(h, right)
    ensures AllReach(h, Join(h, left, right))
  {
    hide Reaches, LexLess, Sorted;
    SortedSymmetric(left.1, right.1);
    ExtendReaches(h, left, right.1);
    ExtendReaches(h, right, left.1);
    var a, b, j := Extend(left.0, right.1), Extend(right.0, left.1), Join(h, left, right);
    forall i | 0 <= i < |j.0|
      ensures Reaches(h, j.0[i], j.1)
    {
      assert j.0[i] == if i < |a| then a[i] else b[i - |a|];
    }
  }

  /** For every well-formed tree: folding the branch of each named leaf from its leaf hash yields the
      returned root. */
  lemma {:induction false} BranchesFoldToRoot(h: TaggedHash, scripts: seq<Item>)
    requires WellFormed(scripts) && TreeHelper(h, scripts).Some?
    ensures AllReach(h, TreeHelper(h, scripts).value)
    decreases scripts
  {
    hide Join, LexLess, Sorted, LeafHash;
    if |scripts| == 1 {
      assert WellFormedItem(scripts[0]);
      if scripts[0].Node? { BranchesFoldToRoot(h, scripts[0].items); }
    } else if |scripts| == 2 && scripts[1].Partner? {
      BranchesFoldToRoot(h, scripts[..1]);
      assert WellFormedItem(scripts[1]);
      var left := TreeHelper(h, scripts[..1]).value;
      JoinReaches(h, left, ([], scripts[1].f(left.1)));
    } else {
      var split := |scripts| / 2;
      BranchesFoldToRoot(h, scripts[..split]);
      BranchesFoldToRoot(h, scripts[split..]);
      JoinReaches(h, TreeHelper(h, scripts[..split]).value, TreeHelper(h, scripts[split..]).value);
    }
  }

  // ---- When the construction succeeds, and how deep flat lists are

  /** When a list of `n` items is halved again and again, item `i` ends up second of a pair. */
  predicate EndsPair(n: nat, i: nat)
    requires i < n
    decreases n
  {
    if n <= 2 then i == 1
    else if i < n / 2 then EndsPair(n / 2, i) else EndsPair(n - n / 2, i - n / 2)
  }

  ghost predicate Buildable(scripts: seq<Item>)
    decreases scripts
  {
    forall i :: 0 <= i < |scripts| ==> BuildableItem(scripts[i]) && MayStand(scripts, i)
  }

  /** A partner function stands where the halving leaves it with one item before it. */
  predicate MayStand(scripts: seq<Item>, i: nat)
    requires i < |scripts|
  {
    scripts[i].Partner? ==> EndsPair(|scripts|, i)
  }

  /** Every leaf has an even one-byte version. */
  ghost predicate BuildableItem(item: Item)
    decreases item
  {
    match item
    case Leaf(_, code, version) => version % 2 == 0 && version < 256 && |code| < U64
    case Node(items) => Buildable(items)
    case Partner(_) => true
  }

  /** No assertion fails exactly when every leaf is valid and every partner function, in the list and in
      the nested lists, stands at such a place. */
  lemma {:induction false} SucceedsIff(h: TaggedHash, scripts: seq<Item>)
    ensures TreeHelper(h, scripts).Some? <==> Buildable(scripts)
    decreases scripts
  {
    hide Join, LeafHash, Buildable;
    if |scripts| <= 1 {
      if |scripts| == 1 && scripts[0].Node? { SucceedsIff(h, scripts[0].items); }
      BuildableShort(scripts);
    } else if |scripts| == 2 && scripts[1].Partner? {
      SucceedsIff(h, scripts[..1]);
      BuildablePair(scripts);
    } else {
      var split := |scripts| / 2;
      SucceedsIff(h, scripts[..split]);
      SucceedsIff(h, scripts[split..]);
      BuildableSplit(scripts, split);
    }
  }

  lemma BuildableShort(scripts: seq<Item>)
    requires |scripts| <= 1
    ensures Buildable(scripts) <==> scripts == [] || (!scripts[0].Partner? && BuildableItem(scripts[0]))
  {
    if scripts != [] {
      assert MayStand(scripts, 0) <==> !scripts[0].Partner?;
      assert Buildable(scripts) <==> BuildableItem(scripts[0]) && MayStand(scripts, 0);
    }
  }

  lemma BuildablePair(scripts: seq<Item>)
    requires |scripts| == 2 && scripts[1].Partner?
    ensures Buildable(scripts) <==> Buildable(scripts[..1])
  {
    assert BuildableItem(scripts[1]) && MayStand(scripts, 1);
    assert MayStand(scripts, 0) <==> MayStand(scripts[..1], 0);
    assert Buildable(scripts) <==> BuildableItem(scripts[0]) && MayStand(scripts, 0);
    assert Buildable(scripts[..1]) <==> BuildableItem(scripts[..1][0]) && MayStand(scripts[..1], 0);
  }

  lemma BuildableSplit(scripts: seq<Item>, split: nat)
    requires |scripts| >= 2 && split == |scripts| / 2 && !(|scripts| == 2 && scripts[1].Partner?)
    ensures Buildable(scripts) <==> Buildable(scripts[..split]) && Buildable(scripts[split..])
  {
    hide BuildableItem, MayStand;
    var a, b := scripts[..split], scripts[split..];
    if Buildable(a) && Buildable(b) {
      forall i | 0 <= i < |scripts|
        ensures BuildableItem(scripts[i]) && MayStand(scripts, i)
      {
        PlaceInHalf(scripts, split, i);
      }
    }
    if Buildable(scripts) {
      forall i | 0 <= i < |a|
        ensures BuildableItem(a[i]) && MayStand(a, i)
      {
        PlaceInHalf(scripts, split, i);
      }
      forall i | 0 <= i < |b|
        ensures BuildableItem(b[i]) && MayStand(b, i)
      {
        PlaceInHalf(scripts, split, i + split);
        assert b[i] == scripts[i + split];
      }
    }
  }

  /** An item has the same place in the half it belongs to. */
  lemma PlaceInHalf(scripts: seq<Item>, split: nat, i: nat)
    requires |scripts| >= 2 && split == |scripts| / 2 && !(|scripts| == 2 && scripts[1].Partner?) && i < |scripts|
    ensures i < split ==> scripts[..split][i] == scripts[i] && (MayStand(scripts, i) <==> MayStand(scripts[..split], i))
    ensures i >= split ==>
              scripts[split..][i - split] == scripts[i] && (MayStand(scripts, i) <==> MayStand(scripts[split..], i - split))
  {}

  /** A flat list of at most 2^d leaves has no branch longer than d hashes. */
  lemma {:induction false} FlatDepth(h: TaggedHash, scripts: seq<Item>, d: nat)
    requires TreeHelper(h, scripts).Some? && forall i :: 0 <= i < |scripts| ==> scripts[i].Leaf?
    requires |scripts| <= Pow(2, d)
    ensures forall i :: 0 <= i < |TreeHelper(h, scripts).value.0| ==>
      |TreeHelper(h, scripts).value.0[i].control| <= 32 * d
    ensures scripts != [] ==> |TreeHelper(h, scripts).value.1| == 32
    decreases d
  {
    hide LeafHash, Sorted;
    if |scripts| >= 2 {
      var split := |scripts| / 2;
      FlatDepth(h, scripts[..split], d - 1);
      FlatDepth(h, scripts[split..], d - 1);
    }
  }

  ghost predicate AllNamed(scripts: seq<Item>) {
    scripts != [] && forall i :: 0 <= i < |scripts| ==> scripts[i].Leaf? && scripts[i].name.Some?
  }

  /** Of a flat list of n named leaves the first has floor(log2 n) hashes in its branch and the last ceil(log2 n):
      an odd list is split with the smaller half first. */
  lemma {:induction false} EndDepths(h: TaggedHash, scripts: seq<Item>, d: nat, e: nat)
    requires TreeHelper(h, scripts).Some? && AllNamed(scripts)
    requires Pow(2, d) <= |scripts| < 2 * Pow(2, d) && |scripts| <= Pow(2, e) < 2 * |scripts|
    ensures var (leaves, root) := TreeHelper(h, scripts).value;
      && |leaves| == |scripts| && |root| == 32
      && |leaves[0].control| == 32 * d && |leaves[|leaves| - 1].control| == 32 * e
    decreases |scripts|
  {
    hide LeafHash, Join, Pow;
    PowLog(d);
    PowLog(e);
    if |scripts| > 1 {
      var split := |scripts| / 2;
      var a, b := scripts[..split], scripts[split..];
      var d', e' := Halvings(|b|);
      var d'', e'' := Halvings(|a|);
      EndDepths(h, a, d - 1, e'');
      EndDepths(h, b, d', e - 1);
      JoinEnds(h, TreeHelper(h, a).value, TreeHelper(h, b).value);
    }
  }

  lemma PowLog(d: nat)
    ensures if d == 0 then Pow(2, d) == 1 else Pow(2, d) == 2 * Pow(2, d - 1) >= 2
  {}

  lemma JoinEnds(h: TaggedHash, left: Tree, right: Tree)
    requires left.0 != [] && right.0 != [] && |left.1| == |right.1| == 32
    ensures var (leaves, root) := Join(h, left, right);
      && |leaves| == |left.0| + |right.0| && |root| == 32
      && |leaves[0].control| == |left.0[0].control| + 32
      && |leaves[|leaves| - 1].control| == |right.0[|right.0| - 1].control| + 32
  {
    hide Sorted;
  }

  /** The logarithms of a number of at least one, rounded down and up. */
  lemma {:induction false} Halvings(n: nat) returns (d: nat, e: nat)
    requires n > 0
    ensures Pow(2, d) <= n < 2 * Pow(2, d) && n <= Pow(2, e) < 2 * n
    decreases n
  {
    if n == 1 {
      d, e := 0, 0;
    } else {
      d, e := Halvings(n / 2);
      d := d + 1;
      if n % 2 == 0 { e := e + 1; } else { e := d + 1; }
    }
  }
}
