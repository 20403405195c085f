/** Block nodes and the paths their parent links spell (blockchain/blockindex.go). */
module BlockTree {
  import opened Common
  import opened Difficulty

  type Uint32 = x: int | 0 <= x < 0x1_0000_0000

  /** A node's parent link is set when the node is made and names one fixed ancestor line. */
  datatype Node = Node(
    hash: Hash, height: nat, bits: Uint32, timestamp: Uint32, workSum: nat, parent: Option<Node>)

  /** The ancestors of a node, genesis first, ending with the node itself. */
  function Path(n: Node): (p: seq<Node>)
    ensures |p| > 0 && p[|p| - 1] == n
  {
    (if n.parent.Some? then Path(n.parent.value) else []) + [n]
  }

  /** Heights count from genesis, which alone has no parent. */
  predicate Linked(n: Node) {
    match n.parent
    case None => n.height == 0
    case Some(p) => n.height == p.height + 1 && Linked(p)
  }

  /** The work of a whole path. */
  function TotalWork(n: Node): nat {
    CalcWork(n.bits) + (if n.parent.Some? then TotalWork(n.parent.value) else 0)
  }

  lemma {:induction false} PathShape(n: Node)
    requires Linked(n)
    ensures |Path(n)| == n.height + 1
    ensures forall i :: 0 <= i <= n.height ==> Path(n)[i].height == i && Linked(Path(n)[i])
    ensures forall i :: 0 <= i < n.height ==> Path(n)[i + 1].parent == Some(Path(n)[i])
    ensures Path(n)[0].parent == None
  {
    if n.parent.Some? {
      var q := n.parent.value;
      PathShape(q);
      assert Path(n) == Path(q) + [n];
    }
  }

  lemma {:induction false} PathLength(n: Node)
    requires Linked(n)
    ensures |Path(n)| == n.height + 1
  {
    if n.parent.Some? {
      PathLength(n.parent.value);
    }
  }

  /** Every prefix of a path is the path of the node it ends with. */
  lemma {:induction false} PathPrefix(n: Node, i: nat)
    requires Linked(n) && i <= n.height
    ensures i < |Path(n)| && Path(Path(n)[i]) == Path(n)[..i + 1]
  {
    PathLength(n);
    if i < n.height {
      var q := n.parent.value;
      PathPrefix(q, i);
      PathLength(q);
      assert Path(n) == Path(q) + [n];
      assert Path(n)[..i + 1] == Path(q)[..i + 1];
    }
  }
}
