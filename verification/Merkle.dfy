/** Merkle trees (crypto/merkletree.go) and the branches that are checked against their roots
    (auxpow/auxpow.go). */
module Merkle {
  import opened Common

  /** The hash of two concatenated hashes. */
  type PairHash = (Hash, Hash) -> Hash

  ghost predicate CollisionFree(h: PairHash) {
    forall a, b, c, d :: h(a, b) == h(c, d) ==> a == c && b == d
  }

  // ---------------------------------------------------------------- levels and roots

  /** The right partner of an even position; the last node of an odd level is its own. */
  function Right(hs: seq<Hash>, i: nat): Hash
    requires 2 * i < |hs|
  {
    if 2 * i + 1 < |hs| then hs[2 * i + 1] else hs[2 * i]
  }

  function LevelUp(h: PairHash, hs: seq<Hash>): (r: seq<Hash>)
    ensures |r| == (|hs| + 1) / 2
    ensures forall i :: 0 <= i < |r| ==> r[i] == h(hs[2 * i], Right(hs, i))
  {
    seq<Hash>((|hs| + 1) / 2, i requires 0 <= i < (|hs| + 1) / 2 => h(hs[2 * i], Right(hs, i)))
  }

  function RootOf(h: PairHash, hs: seq<Hash>): Hash
    requires hs != []
    decreases |hs|
  {
    if |hs| == 1 then hs[0] else RootOf(h, LevelUp(h, hs))
  }

  function Depth(n: nat): (d: nat)
    requires n > 0
    ensures d >= 1
  {
    if n == 1 then 1 else 1 + Depth((n + 1) / 2)
  }

  // ---------------------------------------------------------------- branches

  /** Folds a branch onto a hash; bit k of the index tells on which side the k-th sibling stands. */
  function Climb(h: PairHash, hash: Hash, branch: seq<Hash>, index: int): Hash
    decreases |branch|
  {
    if branch == [] then hash
    else Climb(h, if index % 2 == 1 then h(branch[0], hash) else h(hash, branch[0]), branch[1..], index / 2)
  }

  /** The leaf an index stands for in a tree of n leaves: itself, or, past the end, the duplicate it
      falls on.  Only as many low bits as there are levels count. */
  function Place(i: int, n: nat): (p: nat)
    requires n > 0
    ensures p < n
    ensures 0 <= i < n ==> p == i
    decreases n
  {
    if n == 1 then 0
    else
      var c := 2 * Place(i / 2, (n + 1) / 2) + i % 2;
      if c < n then c else n - 1
  }

  /** The siblings met on the way from an index to the root, one from each level. */
  function SiblingPath(h: PairHash, hs: seq<Hash>, i: int): (b: seq<Hash>)
    requires hs != []
    ensures |b| == Depth(|hs|) - 1
    decreases |hs|
  {
    if |hs| == 1 then []
    else
      var j := Place(i / 2, (|hs| + 1) / 2);
      [if i % 2 == 1 then hs[2 * j] else Right(hs, j)] + SiblingPath(h, LevelUp(h, hs), i / 2)
  }

  /** Hashing the leaf an index stands for with its sibling gives the node the halved index stands for. */
  lemma SiblingStep(h: PairHash, hs: seq<Hash>, i: int)
    requires |hs| > 1
    ensures |LevelUp(h, hs)| == (|hs| + 1) / 2 < |hs|
    ensures var j := Place(i / 2, (|hs| + 1) / 2);
            var x, sibling := hs[Place(i, |hs|)], if i % 2 == 1 then hs[2 * j] else Right(hs, j);
            LevelUp(h, hs)[j] == if i % 2 == 1 then h(sibling, x) else h(x, sibling)
  {
    hide LevelUp;
    var j := Place(i / 2, (|hs| + 1) / 2);
    assert LevelUp(h, hs)[j] == h(hs[2 * j], Right(hs, j));
  }

  /** Every index's sibling path leads from its leaf to the root. */
  lemma {:induction false} PathReachesRoot(h: PairHash, hs: seq<Hash>, i: int)
    requires hs != []
    ensures Climb(h, hs[Place(i, |hs|)], SiblingPath(h, hs, i), i) == RootOf(h, hs)
    decreases |hs|
  {
    hide LevelUp, Place, Depth;
    if |hs| > 1 {
      SiblingStep(h, hs, i);
      PathReachesRoot(h, LevelUp(h, hs), i / 2);
      assert SiblingPath(h, hs, i)[1..] == SiblingPath(h, LevelUp(h, hs), i / 2);
    }
  }

  /** Each node of a level hashes the leaves at the two indices below it. */
  lemma NodeOfPlaces(h: PairHash, hs: seq<Hash>, j: int)
    requires |hs| > 1
    ensures |LevelUp(h, hs)| == (|hs| + 1) / 2 < |hs|
    ensures LevelUp(h, hs)[Place(j, (|hs| + 1) / 2)] == h(hs[Place(2 * j, |hs|)], hs[Place(2 * j + 1, |hs|)])
  {
    hide LevelUp;
    assert 2 * j / 2 == j && (2 * j + 1) / 2 == j;
    var p := Place(j, (|hs| + 1) / 2);
    assert LevelUp(h, hs)[p] == h(hs[2 * p], Right(hs, p));
  }

  lemma Decompose(h: PairHash, a: Hash, b: Hash, c: Hash, d: Hash)
    requires CollisionFree(h) && h(a, b) == h(c, d)
    ensures a == c && b == d
  {
  }

  lemma DepthStep(n: nat)
    requires n > 1
    ensures Depth(n) == 1 + Depth((n + 1) / 2)
  {
  }

  /** With a collision-free hash, a branch of full length that leads to the root proves the leaf at
      its index. */
  lemma {:induction false} BranchProvesLeaf(h: PairHash, hs: seq<Hash>, x: Hash, branch: seq<Hash>, i: int)
    requires CollisionFree(h) && hs != [] && |branch| == Depth(|hs|) - 1
    requires Climb(h, x, branch, i) == RootOf(h, hs)
    ensures x == hs[Place(i, |hs|)]
    decreases |hs|
  {
    hide LevelUp, Depth, CollisionFree, Place;
    DepthOne(|hs|);
    if |hs| > 1 {
      NodeOfPlaces(h, hs, i / 2);
      DepthStep(|hs|);
      assert i == 2 * (i / 2) + i % 2;
      var j, y := i / 2, if i % 2 == 1 then h(branch[0], x) else h(x, branch[0]);
      BranchProvesLeaf(h, LevelUp(h, hs), y, branch[1..], j);
      var left, right := hs[Place(2 * j, |hs|)], hs[Place(2 * j + 1, |hs|)];
      if i % 2 == 1 {
        Decompose(h, branch[0], x, left, right);
      } else {
        Decompose(h, x, branch[0], left, right);
      }
    }
  }

  /** So a hash can be shown to be in the tree at an index exactly when it is the leaf there. */
  lemma ProvableExactly(h: PairHash, hs: seq<Hash>, x: Hash, i: int)
    requires CollisionFree(h) && hs != []
    ensures (exists branch :: |branch| == Depth(|hs|) - 1 && Climb(h, x, branch, i) == RootOf(h, hs))
            <==> x == hs[Place(i, |hs|)]
  {
    hide Climb, RootOf, Place, SiblingPath, CollisionFree;
    PathReachesRoot(h, hs, i);
    PathLength(h, hs, i);
    forall branch | |branch| == Depth(|hs|) - 1 && Climb(h, x, branch, i) == RootOf(h, hs)
      ensures x == hs[Place(i, |hs|)]
    {
      BranchProvesLeaf(h, hs, x, branch, i);
    }
  }

  lemma PathLength(h: PairHash, hs: seq<Hash>, i: int)
    requires hs != []
    ensures |SiblingPath(h, hs, i)| == Depth(|hs|) - 1 && Place(i, |hs|) < |hs|
  {
  }

  /** Lists of different length can share a root, under any hash: repeating the last leaf of an odd
      list changes nothing. */
  lemma RepeatedLastLeaf(h: PairHash, hs: seq<Hash>)
    requires |hs| > 1 && |hs| % 2 == 1
    ensures RootOf(h, hs + [hs[|hs| - 1]]) == RootOf(h, hs)
  {
    var more := hs + [hs[|hs| - 1]];
    var a, b := LevelUp(h, more), LevelUp(h, hs);
    forall i | 0 <= i < |a|
      ensures a[i] == b[i]
    {
      assert a[i] == h(more[2 * i], Right(more, i)) && b[i] == h(hs[2 * i], Right(hs, i));
    }
    assert a == b;
  }

  /** The two lists put the same leaf at every index. */
  ghost predicate SameLeaves(a: seq<Hash>, b: seq<Hash>)
    requires a != [] && b != []
  {
    forall i :: a[Place(i, |a|)] == b[Place(i, |b|)]
  }

  /** Lists of one depth with the same leaves have one root, under any hash. */
  lemma {:induction false} SameLeavesSameRoot(h: PairHash, a: seq<Hash>, b: seq<Hash>)
    requires a != [] && b != [] && Depth(|a|) == Depth(|b|) && SameLeaves(a, b)
    ensures RootOf(h, a) == RootOf(h, b)
    decreases |a|
  {
    if |a| == 1 {
      DepthOne(|b|);
      assert a[Place(0, |a|)] == b[Place(0, |b|)];
    } else {
      DepthOne(|a|);
      DepthOne(|b|);
      var ua, ub := LevelUp(h, a), LevelUp(h, b);
      assert SameLeaves(ua, ub) by {
        hide LevelUp, Place;
        forall j
          ensures ua[Place(j, |ua|)] == ub[Place(j, |ub|)]
        {
          NodeOfPlaces(h, a, j);
          NodeOfPlaces(h, b, j);
          assert a[Place(2 * j, |a|)] == b[Place(2 * j, |b|)];
          assert a[Place(2 * j + 1, |a|)] == b[Place(2 * j + 1, |b|)];
        }
      }
      SameLeavesSameRoot(h, ua, ub);
    }
  }

  lemma DepthOne(n: nat)
    requires n > 0
    ensures Depth(n) == 1 <==> n == 1
  {
  }

  /** Lists of one depth share a root exactly when they put the same leaf at every index, given a
      collision-free hash. */
  lemma RootExactlyLevel(h: PairHash, a: seq<Hash>, b: seq<Hash>)
    requires CollisionFree(h) && a != [] && b != [] && Depth(|a|) == Depth(|b|)
    ensures RootOf(h, a) == RootOf(h, b) <==> SameLeaves(a, b)
  {
    hide Climb, RootOf, Place, SiblingPath, CollisionFree, Depth;
    if RootOf(h, a) == RootOf(h, b) {
      forall i
        ensures a[Place(i, |a|)] == b[Place(i, |b|)]
      {
        PathReachesRoot(h, a, i);
        PathLength(h, a, i);
        BranchProvesLeaf(h, b, a[Place(i, |a|)], SiblingPath(h, a, i), i);
      }
    }
    if SameLeaves(a, b) {
      SameLeavesSameRoot(h, a, b);
    }
  }

  /** The k-th level above a list. */
  function Raised(h: PairHash, hs: seq<Hash>, k: nat): seq<Hash>
    decreases k
  {
    if k == 0 then hs else Raised(h, LevelUp(h, hs), k - 1)
  }

  /** A level of the tree has the tree's root, and is as much less deep as it is higher. */
  lemma {:induction false} RaisedKeepsRoot(h: PairHash, hs: seq<Hash>, k: nat)
    requires hs != [] && k < Depth(|hs|)
    ensures Raised(h, hs, k) != [] && Depth(|Raised(h, hs, k)|) == Depth(|hs|) - k
    ensures RootOf(h, Raised(h, hs, k)) == RootOf(h, hs)
    decreases k
  {
    if k > 0 {
      DepthOne(|hs|);
      DepthStep(|hs|);
      RaisedKeepsRoot(h, LevelUp(h, hs), k - 1);
    }
  }

  /** What a root determines, for any two lists: they share it exactly when the shallower one puts the
      same node at every index as the level of its own depth in the other's tree.  The hash does not
      tell leaves from inner nodes, so no more can be had. */
  lemma RootExactly(h: PairHash, a: seq<Hash>, b: seq<Hash>)
    requires CollisionFree(h) && a != [] && b != []
    ensures var (lo, hi) := if Depth(|a|) <= Depth(|b|) then (a, b) else (b, a);
            var level := Raised(h, hi, Depth(|hi|) - Depth(|lo|));
            level != [] && (RootOf(h, a) == RootOf(h, b) <==> SameLeaves(lo, level))
  {
    hide RootOf, CollisionFree, Depth, Raised, SameLeaves;
    var (lo, hi) := if Depth(|a|) <= Depth(|b|) then (a, b) else (b, a);
    var k := Depth(|hi|) - Depth(|lo|);
    RaisedKeepsRoot(h, hi, k);
    RootExactlyLevel(h, lo, Raised(h, hi, k));
  }

  /** So a list and the level above it always share a root, though they are different lists. */
  lemma InnerNodesAsLeaves(h: PairHash, hs: seq<Hash>)
    requires |hs| > 1
    ensures RootOf(h, LevelUp(h, hs)) == RootOf(h, hs) && LevelUp(h, hs) != hs
  {
    assert |LevelUp(h, hs)| < |hs|;
  }

  /** Leaf lists of one length with one root are equal. */
  lemma RootInjective(h: PairHash, a: seq<Hash>, b: seq<Hash>)
    requires CollisionFree(h) && |a| == |b| > 0 && RootOf(h, a) == RootOf(h, b)
    ensures a == b
  {
    hide RootOf, CollisionFree, Depth;
    RootExactlyLevel(h, a, b);
    forall i | 0 <= i < |a|
      ensures a[i] == b[i]
    {
      assert a[Place(i, |a|)] == b[Place(i, |b|)];
    }
  }

  // ---------------------------------------------------------------- the tree

  datatype TreeNode = Leaf(hash: Hash) | Branch(hash: Hash, left: TreeNode, right: TreeNode)

  datatype Tree = Tree(root: TreeNode, depth: nat)

  predicate WellHashed(h: PairHash, t: TreeNode) {
    t.Branch? ==> t.hash == h(t.left.hash, t.right.hash) && WellHashed(h, t.left) && WellHashed(h, t.right)
  }

  function HashesOf(nodes: seq<TreeNode>): (r: seq<Hash>)
    ensures |r| == |nodes| && forall i :: 0 <= i < |nodes| ==> r[i] == nodes[i].hash
  {
    seq(|nodes|, i requires 0 <= i < |nodes| => nodes[i].hash)
  }

  predicate AllWellHashed(h: PairHash, nodes: seq<TreeNode>) {
    forall i :: 0 <= i < |nodes| ==> WellHashed(h, nodes[i])
  }

  method GenerateLeaves(hashes: seq<Hash>, h: PairHash) returns (leaves: seq<TreeNode>)
    ensures HashesOf(leaves) == hashes && AllWellHashed(h, leaves)
  {
    leaves := [];
    for i := 0 to |hashes|
      invariant HashesOf(leaves) == hashes[..i] && AllWellHashed(h, leaves)
    {
      leaves := leaves + [Leaf(hashes[i])];
      assert HashesOf(leaves) == hashes[..i + 1];
    }
  }

  /** Builds the level above a level, pairing an odd last node with itself. */
  method LevelUpNodes(h: PairHash, nodes: seq<TreeNode>) returns (nextLevel: seq<TreeNode>)
    requires AllWellHashed(h, nodes)
    ensures HashesOf(nextLevel) == LevelUp(h, HashesOf(nodes)) && AllWellHashed(h, nextLevel)
  {
    nextLevel := [];
    ghost var up := LevelUp(h, HashesOf(nodes));
    for i := 0 to |nodes| / 2
      invariant |nextLevel| == i && AllWellHashed(h, nextLevel)
      invariant forall j :: 0 <= j < i ==> nextLevel[j].hash == up[j]
    {
      nextLevel := nextLevel + [Branch(h(nodes[i * 2].hash, nodes[i * 2 + 1].hash), nodes[i * 2], nodes[i * 2 + 1])];
    }
    if |nodes| % 2 == 1 {
      var last := nodes[|nodes| - 1];
      nextLevel := nextLevel + [Branch(h(last.hash, last.hash), last, last)];
    }
    assert HashesOf(nextLevel) == up;
  }

  method NewMerkleTree(h: PairHash, hashes: seq<Hash>) returns (r: Result<Tree, string>)
    ensures hashes == [] <==> r.Err?
    ensures hashes != [] ==>
              && r.value.root.hash == RootOf(h, hashes) && r.value.depth == Depth(|hashes|)
              && WellHashed(h, r.value.root)
  {
    if |hashes| == 0 {
      return Err("NewMerkleTree input no item error.");
    }
    var height := 1;
    var nodes := GenerateLeaves(hashes, h);
    while |nodes| > 1
      invariant |nodes| > 0 && AllWellHashed(h, nodes)
      invariant RootOf(h, HashesOf(nodes)) == RootOf(h, hashes)
      invariant height + Depth(|nodes|) == Depth(|hashes|) + 1
      decreases |nodes|
    {
      nodes := LevelUpNodes(h, nodes);
      height := height + 1;
    }
    r := Ok(Tree(nodes[0], height));
  }

  method ComputeRoot(h: PairHash, hashes: seq<Hash>) returns (r: Result<Hash, string>)
    ensures hashes == [] <==> r.Err?
    ensures hashes != [] ==> r.value == RootOf(h, hashes)
  {
    if |hashes| == 0 {
      return Err("NewMerkleTree input no item error.");
    }
    if |hashes| == 1 {
      return Ok(hashes[0]);
    }
    var tree := NewMerkleTree(h, hashes);
    r := Ok(tree.value.root.hash);
  }

  /** The root a branch leads to; index -1 stands for no branch and gives the zero hash. */
  method GetMerkleRoot(h: PairHash, hash: Hash, merkleBranch: seq<Hash>, index: int) returns (r: Hash)
    ensures r == if index == -1 then EMPTY_HASH else Climb(h, hash, merkleBranch, index)
  {
    if index == -1 {
      return EMPTY_HASH;
    }
    r := hash;
    var at := index;
    for k := 0 to |merkleBranch|
      invariant Climb(h, r, merkleBranch[k..], at) == Climb(h, hash, merkleBranch, index)
    {
      var it := merkleBranch[k];
      assert merkleBranch[k..][1..] == merkleBranch[k + 1..];
      r := if at % 2 == 1 then h(it, r) else h(r, it);
      at := at / 2;
    }
    assert merkleBranch[|merkleBranch|..] == [];
  }
}
