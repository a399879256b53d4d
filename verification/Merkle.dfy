/** Merkle roots (messages.py, `CBlock.get_merkle_root`). */
module Merkle {
  import opened Bytes

  ghost predicate Yields32(f: bytes -> bytes) {
    forall s :: |f(s)| == 32
  }

  /** `hash256`, as an arbitrary function with 32-byte results. */
  type Hash256 = f: bytes -> bytes | Yields32(f) ghost witness (s: bytes) => Zeros(32)

  /** One level of the tree: neighbours hashed together, the last one with itself if it has none. */
  function Level(h: Hash256, hashes: seq<bytes>): (r: seq<bytes>)
    ensures |r| == (|hashes| + 1) / 2
    ensures forall i :: 0 <= i < |r| ==> |r[i]| == 32
  {
    seq(|Halves(hashes)|, i requires 0 <= i < |Halves(hashes)| => h(Halves(hashes)[i]))
  }

  /** The strings that are hashed on one level. */
  function Halves(hashes: seq<bytes>): (r: seq<bytes>)
    ensures |r| == (|hashes| + 1) / 2
  {
    seq((|hashes| + 1) / 2, i requires 0 <= i < (|hashes| + 1) / 2 => hashes[2 * i] + hashes[Neighbour(i, |hashes|)])
  }

  function Neighbour(i: nat, n: nat): (r: nat)
    requires 2 * i < n
    ensures r < n
  {
    if 2 * i + 1 < n then 2 * i + 1 else n - 1
  }

  function Root(h: Hash256, hashes: seq<bytes>): bytes
    requires hashes != []
    decreases |hashes|
  {
    if |hashes| == 1 then hashes[0] else Root(h, Level(h, hashes))
  }

  lemma RootUnfold(h: Hash256, hashes: seq<bytes>)
    requires hashes != []
    ensures Root(h, hashes) == if |hashes| == 1 then hashes[0] else Root(h, Level(h, hashes))
  {}

  method GetMerkleRoot(h: Hash256, leaves: seq<bytes>) returns (r: nat)
    requires leaves != [] && forall i :: 0 <= i < |leaves| ==> |leaves[i]| == 32
    ensures r == FromLE(Root(h, leaves)) && r < U256
  {
    hide Root;
    var hashes := leaves;
    while |hashes| > 1
      invariant hashes != [] && Root(h, hashes) == Root(h, leaves)
      invariant forall i :: 0 <= i < |hashes| ==> |hashes[i]| == 32
      decreases |hashes|
    {
      var newhashes := [];
      var i := 0;
      while i < |hashes|
        invariant |newhashes| <= |Level(h, hashes)| && newhashes == Level(h, hashes)[..|newhashes|]
        invariant i == 2 * |newhashes|
      {
        var i2 := if i + 1 < |hashes| - 1 then i + 1 else |hashes| - 1;
        assert Neighbour(i / 2, |hashes|) == i2;
        assert Level(h, hashes)[|newhashes|] == h(hashes[i] + hashes[i2]);
        newhashes := newhashes + [h(hashes[i] + hashes[i2])];
        i := i + 2;
      }
      assert Level(h, hashes)[..|newhashes|] == Level(h, hashes);
      RootUnfold(h, hashes);
      hashes := newhashes;
    }
    RootUnfold(h, hashes);
    Pow256At32();
    r := FromLE(hashes[0]);
  }

  // ---- What a root says about its leaves

  ghost predicate AllSize32(s: seq<bytes>) {
    forall i :: 0 <= i < |s| ==> |s[i]| == 32
  }

  lemma {:induction false} RootSize(h: Hash256, hashes: seq<bytes>)
    requires hashes != [] && AllSize32(hashes)
    ensures |Root(h, hashes)| == 32
    decreases |hashes|
  {
    if |hashes| > 1 { RootSize(h, Level(h, hashes)); }
  }

  ghost predicate Collision(h: Hash256, x: bytes, y: bytes) {
    x != y && h(x) == h(y)
  }

  /** Two lists of equally many leaves with the same root are the same list, or the hash function has a
      collision (which the lemma names). */
  lemma {:induction false} RootBindsLeaves(h: Hash256, a: seq<bytes>, b: seq<bytes>) returns (x: bytes, y: bytes)
    requires a != [] && |a| == |b| && AllSize32(a) && AllSize32(b)
    requires Root(h, a) == Root(h, b)
    ensures a == b || Collision(h, x, y)
    decreases |a|
  {
    x, y := [], [];
    if |a| > 1 {
      x, y := RootBindsLeaves(h, Level(h, a), Level(h, b));
      if Level(h, a) == Level(h, b) {
        if Halves(a) == Halves(b) {
          HalvesInjective(a, b);
        } else {
          var i :| 0 <= i < |Halves(a)| && Halves(a)[i] != Halves(b)[i];
          x, y := Halves(a)[i], Halves(b)[i];
          assert Level(h, a)[i] == h(x) && Level(h, b)[i] == h(y);
        }
      }
    } else {
      assert a == [a[0]] && b == [b[0]];
    }
  }

  lemma HalvesInjective(a: seq<bytes>, b: seq<bytes>)
    requires |a| == |b| && AllSize32(a) && AllSize32(b) && Halves(a) == Halves(b)
    ensures a == b
  {
    forall k | 0 <= k < |a|
      ensures a[k] == b[k]
    {
      var i := k / 2;
      var p, q := Halves(a)[i], Halves(b)[i];
      assert p == a[2 * i] + a[Neighbour(i, |a|)] && q == b[2 * i] + b[Neighbour(i, |a|)];
      assert p[..32] == a[2 * i] && q[..32] == b[2 * i];
      assert p[32..] == a[Neighbour(i, |a|)] && q[32..] == b[Neighbour(i, |a|)];
    }
  }

  /** The root does not determine the number of leaves: repeating the last of an odd number of leaves
      (more than one) does not change it. */
  lemma RepeatedLeafSameRoot(h: Hash256, a: seq<bytes>)
    requires |a| % 2 == 1 && |a| > 1
    ensures Root(h, a + [a[|a| - 1]]) == Root(h, a)
  {
    hide Level;
    RepeatedLeafSameLevel(h, a);
  }

  lemma RepeatedLeafSameLevel(h: Hash256, a: seq<bytes>)
    requires |a| % 2 == 1
    ensures Level(h, a + [a[|a| - 1]]) == Level(h, a)
  {
    var b := a + [a[|a| - 1]];
    forall i | 0 <= i < |Halves(a)|
      ensures Halves(b)[i] == Halves(a)[i]
    {
      assert b[2 * i] == a[2 * i] && b[Neighbour(i, |b|)] == a[Neighbour(i, |a|)];
    }
    assert Halves(b) == Halves(a);
  }

  // ---- The tree from the root down

  /** The hash of a tree of height `k` over the leaves: the first 2^(k-1) are on the left, the others on the right;
      if there are no others, both children are the same. */
  function Tree(h: Hash256, v: seq<bytes>, k: nat): bytes
    requires 0 < |v| <= Pow(2, k)
    decreases k
  {
    if k == 0 then v[0]
    else
      var m := Pow(2, k - 1);
      if |v| <= m then h(Tree(h, v, k - 1) + Tree(h, v, k - 1))
      else h(Tree(h, v[..m], k - 1) + Tree(h, v[m..], k - 1))
  }

  lemma LevelAt(h: Hash256, v: seq<bytes>, i: nat)
    requires 2 * i < |v|
    ensures Level(h, v)[i] == h(v[2 * i] + v[if 2 * i + 1 < |v| then 2 * i + 1 else 2 * i])
  {
    assert Neighbour(i, |v|) == if 2 * i + 1 < |v| then 2 * i + 1 else 2 * i;
  }

  lemma LevelOfParts(h: Hash256, a: seq<bytes>, b: seq<bytes>)
    requires |a| % 2 == 0
    ensures Level(h, a + b) == Level(h, a) + Level(h, b)
  {
    hide Level;
    var c, n := a + b, |a| / 2;
    forall i | 0 <= i < |Level(h, c)|
      ensures Level(h, c)[i] == (Level(h, a) + Level(h, b))[i]
    {
      LevelAt(h, c, i);
      if i < n {
        LevelAt(h, a, i);
      } else {
        LevelAt(h, b, i - n);
        assert c[2 * i] == b[2 * (i - n)];
      }
    }
  }

  lemma TreeUnfold(h: Hash256, v: seq<bytes>, k: nat)
    requires k > 0 && 0 < |v| <= Pow(2, k)
    ensures var m := Pow(2, k - 1);
      && m >= 1 && Pow(2, k) == 2 * m
      && Tree(h, v, k) == if |v| <= m then h(Tree(h, v, k - 1) + Tree(h, v, k - 1))
                          else h(Tree(h, v[..m], k - 1) + Tree(h, v[m..], k - 1))
  {}

  /** Hashing the lowest level first gives the same tree. */
  lemma {:induction false} TreeOfLevel(h: Hash256, v: seq<bytes>, k: nat)
    requires k > 0 && 0 < |v| <= Pow(2, k)
    ensures 0 < |Level(h, v)| <= Pow(2, k - 1) && Tree(h, v, k) == Tree(h, Level(h, v), k - 1)
    decreases k
  {
    hide Level, Tree, Pow;
    TreeUnfold(h, v, k);
    if k == 1 {
      PowZero();
      LevelOfPair(h, v);
      SingleTree(h, Level(h, v));
      SingleTree(h, v[..1]);
      if |v| == 2 { SingleTree(h, v[1..]); }
      assert |v| == 1 ==> v[..1] == v;
    } else {
      var m := Pow(2, k - 1);
      TreeUnfold(h, Level(h, v), k - 1);
      if |v| <= m {
        TreeOfLevel(h, v, k - 1);
      } else {
        var n := Pow(2, k - 2);
        TreeOfLevel(h, v[..m], k - 1);
        TreeOfLevel(h, v[m..], k - 1);
        LevelOfParts(h, v[..m], v[m..]);
        assert v == v[..m] + v[m..];
        assert Level(h, v)[..n] == Level(h, v[..m]) && Level(h, v)[n..] == Level(h, v[m..]);
      }
    }
  }

  lemma PowZero()
    ensures Pow(2, 0) == 1
  {}

  lemma LevelOfPair(h: Hash256, v: seq<bytes>)
    requires 0 < |v| <= 2
    ensures Level(h, v) == [h(v[0] + v[|v| - 1])]
  {
    assert Halves(v)[0] == v[0] + v[|v| - 1];
  }

  /** The root of the level-by-level computation is that of the lowest tree with room for the leaves. */
  lemma {:induction false} RootIsTree(h: Hash256, v: seq<bytes>, k: nat)
    requires 0 < |v| <= Pow(2, k) < 2 * |v|
    ensures Root(h, v) == Tree(h, v, k)
    decreases k
  {
    hide Level, Tree;
    RootUnfold(h, v);
    if k == 0 {
      assert Tree(h, v, 0) == v[0] by { SingleTree(h, v); }
    } else {
      TreeOfLevel(h, v, k);
      RootIsTree(h, Level(h, v), k - 1);
    }
  }

  lemma SingleTree(h: Hash256, v: seq<bytes>)
    requires |v| == 1
    ensures Tree(h, v, 0) == v[0]
  {}
}
