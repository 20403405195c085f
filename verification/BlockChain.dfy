/** The in-memory chain of blockchain/blockchain.go: an object that updates its main-chain view,
    index and caches in place, proved against the state machine of ForkChoice. */
module BlockChain {
  import opened Common
  import opened Difficulty
  import opened BlockTree
  import opened ForkChoice

  /** A path as the main-chain view stores it. */
  function Filled(p: seq<Node>): (r: seq<Option<Node>>)
    ensures |r| == |p| && forall i :: 0 <= i < |p| ==> r[i] == Some(p[i])
  {
    seq(|p|, i requires 0 <= i < |p| => Some(p[i]))
  }

  lemma FilledSame(r: seq<Option<Node>>, p: seq<Node>)
    requires |r| == |p| && forall i :: 0 <= i < |p| ==> r[i] == Some(p[i])
    ensures r == Filled(p)
  {
  }

  class Chain {
    var nodes: seq<Option<Node>>
    var best: Node
    var index: map<Hash, Node>
    var cache: map<Hash, Block>
    var db: map<Hash, Block>
    var inMainChain: set<Hash>
    var root: Node

    /** The blocks accepted so far, with the answers given while they were. */
    ghost const genesis: Block
    ghost var trace: seq<Event>

    function View(): State
      reads this
    {
      State(root, index, best, cache, db)
    }

    /** The view holds the path to the tip and the flags mark exactly that path. */
    ghost predicate ViewOk()
      reads this
    {
      Linked(best) && nodes == Filled(Path(best)) && inMainChain == LineHashes(best)
    }

    /** The state is one that a run from genesis reaches. */
    ghost predicate Valid()
      reads this
    {
      ViewOk() && View() == Run(Genesis(genesis), trace)
    }

    lemma ValidInv()
      requires Valid()
      ensures Inv(View())
    {
      hide Inv, Run;
      GenesisInv(genesis);
      RunInv(Genesis(genesis), trace);
    }

    constructor (b: Block)
      ensures Valid() && trace == [] && genesis == b
      ensures View() == ForkChoice.Genesis(b)
    {
      var n := ForkChoice.Genesis(b).best;
      nodes := [Some(n)];
      best, root := n, n;
      index := map[b.hash := n];
      cache := map[];
      db := map[b.hash := b];
      inMainChain := {b.hash};
      genesis := b;
      trace := [];
      new;
      assert Path(n) == [n];
    }

    /** Resizes the view to the new tip's height and refills it backwards, stopping at the first
        entry that is already right. */
    method SetTip(node: Option<Node>)
      requires Linked(best) && nodes == Filled(Path(best))
      requires node.Some? ==> Linked(node.value)
      modifies this`nodes
      ensures nodes == if node.None? then [] else Filled(Path(node.value))
    {
      hide Path, Linked;
      if node.None? {
        nodes := [];
        return;
      }
      var tip := node.value;
      var needed := tip.height + 1;
      ghost var was := nodes;
      if |nodes| < needed {
        nodes := nodes + seq(needed - |nodes|, _ => None);
      } else {
        nodes := nodes[..needed];
      }
      PathShape(tip);
      var cur := node;
      while cur.Some? && nodes[cur.value.height] != cur
        invariant |nodes| == needed
        invariant cur.Some? ==> cur.value.height <= tip.height && cur.value == Path(tip)[cur.value.height]
        invariant forall i :: (if cur.Some? then cur.value.height + 1 else 0) <= i < needed ==>
                  nodes[i] == Some(Path(tip)[i])
        invariant cur.Some? ==> forall i :: 0 <= i <= cur.value.height ==>
                  nodes[i] == if i < |was| then was[i] else None
        decreases if cur.Some? then cur.value.height + 1 else 0
      {
        var n := cur.value;
        nodes := nodes[n.height := cur];
        if n.height > 0 {
          assert Path(tip)[n.height - 1 + 1].parent == Some(Path(tip)[n.height - 1]);
        }
        cur := n.parent;
      }
      if cur.Some? {
        SameLine(best, tip, cur.value.height);
      }
      FilledSame(nodes, Path(tip));
    }

    /** Takes the tip off the end of the chain. */
    method DisconnectBlock(node: Node, block: Block) returns (err: Option<Outcome>)
      requires ViewOk() && Inv(View())
      requires Indexed(index, node) && node.parent.Some?
      modifies this`nodes, this`best, this`cache, this`inMainChain
      ensures ViewOk()
      ensures err == if node == old(best) then None else Some(NotAtTip)
      ensures err.Some? ==> View() == old(View())
      ensures err.None? ==> View() == old(View()).(best := node.parent.value, cache := old(cache)[node.hash := block])
    {
      hide Inv, Path;
      InvTree(View());
      if node.hash != best.hash {
        return Some(NotAtTip);
      }
      LineFresh(index, root, node);
      inMainChain := inMainChain - {node.hash};
      cache := cache[node.hash := block];
      SetTip(node.parent);
      best := node.parent.value;
      err := None;
    }

    /** Puts a block that passed validation on the end of the chain. */
    method ConnectBlock(node: Node, block: Block, connects: bool) returns (err: Option<Outcome>)
      requires ViewOk()
      requires Linked(node) && (block.prev == best.hash ==> node.parent == Some(best))
      modifies this`nodes, this`best, this`index, this`db, this`inMainChain
      ensures ViewOk()
      ensures err == if !connects then Some(Rejected)
                     else if block.prev != old(best.hash) then Some(NotExtending) else None
      ensures err.Some? ==> View() == old(View())
      ensures err.None? ==>
                View() == old(View()).(best := node, index := old(index)[node.hash := node],
                    db := old(db)[node.hash := block])
    {
      hide Path;
      if !connects {
        return Some(Rejected);
      }
      if block.prev != best.hash {
        return Some(NotExtending);
      }
      db := db[node.hash := block];
      inMainChain := inMainChain + {node.hash};
      SetTip(Some(node));
      index := index[node.hash := node];
      best := node;
      err := None;
    }

    /** Climbs from a node to the first ancestor in the main-chain view. */
    method ClimbToFork(node: Node) returns (ancestor: Node, attach: seq<Node>)
      requires ViewOk() && Inv(View()) && Indexed(index, node)
      ensures Shared(View(), node) == ancestor.height + 1 <= |Path(node)|
      ensures attach == Path(node)[ancestor.height + 1..]
      ensures ancestor.height < |Path(best)| && Path(best)[ancestor.height] == ancestor
    {
      hide Inv, TreeOk, Path, CommonLen, Shared, LineHashes, Linked, HashesOf;
      InvTree(View());
      var nodesMap := HashesOf(nodes);
      ViewHashes(nodes, best);
      ancestor := node;
      attach := [];
      NodeLinked(View(), node);
      PathLength(node);
      while ancestor.parent.Some? && ancestor.hash !in nodesMap
        invariant ancestor.height <= node.height && ancestor == Path(node)[ancestor.height]
        invariant attach == Path(node)[ancestor.height + 1..]
        invariant ancestor.height < node.height ==> Path(node)[ancestor.height + 1].hash !in nodesMap
        decreases ancestor.height
      {
        HasParent(node, ancestor.height);
        attach := [ancestor] + attach;
        ParentOnPath(node, ancestor.height);
        ancestor := ancestor.parent.value;
      }
      ForkFound(View(), node, ancestor);
    }

    /** Walks from the tip back to an ancestor, collecting the nodes passed. */
    method WalkBack(ancestor: Node) returns (detach: seq<Node>)
      requires ViewOk() && Inv(View())
      requires ancestor.height < |Path(best)| && Path(best)[ancestor.height] == ancestor
      ensures DetachList(detach, best, |Path(best)| - 1 - ancestor.height)
    {
      hide Inv, TreeOk, Path, LineHashes, Linked;
      InvTree(View());
      detach := [];
      var n := best;
      PathShape(best);
      while n.parent.Some? && n.hash != ancestor.hash
        invariant ancestor.height <= n.height <= best.height && n == Path(best)[n.height]
        invariant DetachList(detach, best, best.height - n.height)
        decreases n.height
      {
        detach := detach + [n];
        ParentOnPath(best, n.height);
        n := n.parent.value;
      }
      if n.height != ancestor.height {
        ParentOnPath(best, n.height);
        HashOnLine(View(), best, n, ancestor);
      }
    }

    /** Finds the fork between the main chain and a node: what to detach, tip first, and what to
        attach, bottom up. */
    method GetReorganizeNodes(node: Node) returns (detach: seq<Node>, attach: seq<Node>)
      requires ViewOk() && Inv(View()) && Indexed(index, node)
      ensures var k := Shared(View(), node);
              && k <= |Path(node)| && attach == Path(node)[k..]
              && k <= |Path(best)| && DetachList(detach, best, |Path(best)| - k)
    {
      hide Inv, Path, Shared;
      var ancestor;
      ancestor, attach := ClimbToFork(node);
      detach := WalkBack(ancestor);
    }

    /** Looks for a node whose block is not in the side-chain cache. */
    method AllCached(attach: seq<Node>) returns (ok: bool)
      ensures ok <==> forall n :: n in attach ==> n.hash in cache
    {
      for i := 0 to |attach|
        invariant forall j :: 0 <= j < i ==> attach[j].hash in cache
      {
        if attach[i].hash !in cache {
          return false;
        }
      }
      ok := true;
    }

    method DetachAll(detach: seq<Node>, v: Verdicts) returns (err: Option<Outcome>)
      requires ViewOk() && Inv(View())
      requires |detach| < |Path(best)| && DetachList(detach, best, |detach|)
      modifies this`nodes, this`best, this`cache, this`inMainChain
      ensures ViewOk() && Inv(View())
      ensures var (t, ok) := Detach(old(View()), |detach|, v);
              View() == t && err == if ok then None else Some(DetachFailed)
    {
      hide Inv, Path, Linked, LineHashes;
      for i := 0 to |detach|
        invariant ViewOk() && Inv(View())
        invariant |detach| - i < |Path(best)| && DetachList(detach[i..], best, |detach| - i)
        invariant Detach(View(), |detach| - i, v) == Detach(old(View()), |detach|, v)
      {
        var n := detach[i];
        DetachHead(detach[i..], best);
        TipStored(View());
        if n.hash !in db {
          return Some(MissingFromStore);
        }
        if !v.rollsBack(n.hash) {
          return Some(DetachFailed);
        }
        DisconnectInv(View());
        assert detach[i..][1..] == detach[i + 1..];
        err := DisconnectBlock(n, db[n.hash]);
        if err.Some? {
          return;
        }
      }
      err := None;
    }

    method AttachAll(attach: seq<Node>, v: Verdicts) returns (err: Option<Outcome>)
      requires ViewOk() && Inv(View()) && Climbs(index, best, attach)
      modifies this`nodes, this`best, this`index, this`cache, this`db, this`inMainChain
      ensures ViewOk() && Inv(View())
      ensures var (t, ok) := Attach(old(View()), attach, v);
              View() == t && err == if ok then None else Some(AttachFailed)
    {
      hide Inv, Path, Linked, LineHashes;
      for i := 0 to |attach|
        invariant ViewOk() && Inv(View()) && Climbs(index, best, attach[i..])
        invariant Attach(View(), attach[i..], v) == Attach(old(View()), attach, v)
      {
        var n := attach[i];
        assert attach[i..][0] == n && attach[i..][1..] == attach[i + 1..];
        ConnectCachedInv(View(), n);
        LinkedInTree(View(), n);
        ghost var before := View();
        err := ConnectBlock(n, cache[n.hash], v.connects(n.hash));
        if err.Some? {
          return Some(AttachFailed);
        }
        assert before.index[n.hash := n] == before.index;
        cache := cache - {n.hash};
      }
      err := None;
    }

    /** Detaches the nodes above the fork and attaches the others; every error but a failed
        rollback or a failed validation is unreachable. */
    method ReorganizeChain(detach: seq<Node>, attach: seq<Node>, v: Verdicts, ghost node: Node) returns (o: Outcome)
      requires ViewOk() && Inv(View()) && Indexed(index, node)
      requires var k := Shared(View(), node);
               && k <= |Path(node)| && attach == Path(node)[k..]
               && k <= |Path(best)| && DetachList(detach, best, |Path(best)| - k)
      modifies this`nodes, this`best, this`index, this`cache, this`db, this`inMainChain
      ensures ViewOk()
      ensures (View(), o) == Reorganize(old(View()), node, v)
    {
      hide Inv, TreeOk, Path, Shared, Detach, Attach, Climbs, Linked;
      InvTree(View());
      SharedBounds(View(), node);
      AttachCached(View(), node);
      var cached := AllCached(attach);
      if !cached {
        return MissingFromCache;
      }
      ghost var k := Shared(View(), node);
      AtForkTip(View(), node, v);
      PathClimbs(index, root, node, k);
      var err := DetachAll(detach, v);
      if err.Some? {
        return err.value;
      }
      err := AttachAll(attach, v);
      if err.Some? {
        return err.value;
      }
      o := Reorganized;
    }

    /** Extends the tip, or stores a side block and reorganizes when it is heavier. */
    method ConnectBestChain(node: Node, block: Block, v: Verdicts) returns (o: Outcome)
      requires ViewOk() && Inv(View()) && block.hash !in index
      requires block.prev in index && block.prev != EMPTY_HASH
      requires block.height == index[block.prev].height + 1 && node == ChildNode(block, index[block.prev])
      modifies this`nodes, this`best, this`index, this`cache, this`db, this`inMainChain
      ensures ViewOk()
      ensures (View(), o) == Accept(old(View()), block, v)
    {
      hide Inv, Path, Shared, Reorganize, CalcWork, LineHashes;
      var parent := node.parent.value;
      InvHashes(View());
      BestIndexed(View());
      LinkedInTree(View(), parent);
      if parent.hash == best.hash {
        var err := ConnectBlock(node, block, v.connects(block.hash));
        if err.Some? {
          return err.value;
        }
        return Extended;
      }
      StoreSideInv(View(), block, parent);
      ghost var before := View();
      cache := cache[node.hash := block];
      index := index[node.hash := node];
      assert View() == StoreSide(before, block, parent);
      if node.workSum <= best.workSum {
        return SideChain;
      }
      var detach, attach := GetReorganizeNodes(node);
      SharedSame(before, View(), node);
      if v.irreversible(best.height, |detach|) {
        return Irreversible;
      }
      o := ReorganizeChain(detach, attach, v, node);
    }

    method BlockExists(hash: Hash) returns (r: bool)
      requires ViewOk() && Inv(View())
      ensures r <==> hash in index
    {
      if hash in index {
        return true;
      }
      if hash !in db {
        return false;
      }
      // Every stored block is indexed, so the look-up by height in the view is never reached.
      assert false;
    }

    /** Looks up the parent, checks the height and hands the new node to the fork choice. */
    method MaybeAcceptBlock(block: Block, v: Verdicts) returns (o: Outcome)
      requires Valid() && block.hash !in index
      modifies this
      ensures Valid() && trace == old(trace) + [Event(block, v)]
      ensures (View(), o) == Accept(old(View()), block, v) == Process(old(View()), block, v)
    {
      hide Inv, Genesis, Path, Linked, LineHashes, Reorganize, CalcWork;
      ValidInv();
      trace := trace + [Event(block, v)];
      assert trace[..|trace| - 1] == old(trace);
      if block.prev == EMPTY_HASH {
        return if block.height != 0 then WrongHeight else NilParent;
      }
      if block.prev !in index {
        return UnknownParent;
      }
      var prevNode := index[block.prev];
      if block.height != prevNode.height + 1 {
        return WrongHeight;
      }
      o := ConnectBestChain(ChildNode(block, prevNode), block, v);
    }
  }

  lemma BestIndexed(s: State)
    requires Inv(s)
    ensures Indexed(s.index, s.best)
  {
  }

  lemma LinkedInTree(s: State, n: Node)
    requires Inv(s) && Indexed(s.index, n)
    ensures Linked(n)
  {
    NodeLinked(s, n);
  }

  lemma SharedSame(s: State, t: State, n: Node)
    requires s.best == t.best
    ensures Shared(s, n) == Shared(t, n)
  {
  }

  lemma TipStored(s: State)
    requires Inv(s)
    ensures s.best.hash in s.db && Indexed(s.index, s.best)
  {
  }

  /** The head of a non-empty detach list is the tip; the rest detaches its parent's line. */
  lemma DetachHead(ns: seq<Node>, best: Node)
    requires Linked(best) && 0 < |ns| < |Path(best)| && DetachList(ns, best, |ns|)
    ensures ns[0] == best && best.parent.Some?
    ensures |ns| - 1 < |Path(best.parent.value)| && DetachList(ns[1..], best.parent.value, |ns| - 1)
  {
    PathLength(best);
    assert Path(best) == Path(best.parent.value) + [best];
  }

  /** The nodes a reorganization attaches are all in the side-chain cache. */
  lemma AttachCached(s: State, node: Node)
    requires Inv(s) && Indexed(s.index, node)
    ensures forall m :: m in Path(node)[Shared(s, node)..] ==> m.hash in s.cache
  {
    hide TreeOk, Path, LineHashes, Linked;
    var k := Shared(s, node);
    forall m | m in Path(node)[k..]
      ensures m.hash in s.cache
    {
      var i :| k <= i < |Path(node)| && Path(node)[i] == m;
      LineIndexed(s.index, s.root, node, m);
      if m.hash in LineHashes(s.best) {
        NodeLinked(s, node);
        NodeLinked(s, s.best);
        HeightOnPath(node, i);
        OnLine(s, s.best, m);
        SameLine(node, s.best, i);
      }
    }
  }

  lemma HeightOnPath(n: Node, i: nat)
    requires Linked(n) && i < |Path(n)|
    ensures Path(n)[i].height == i
  {
    PathShape(n);
  }

  /** The topmost nodes of a line, highest first. */
  ghost predicate DetachList(ns: seq<Node>, best: Node, count: int) {
    && 0 <= count <= |Path(best)| && |ns| == count
    && forall i :: 0 <= i < count ==> ns[i] == Path(best)[|Path(best)| - 1 - i]
  }

  lemma NodeLinked(s: State, n: Node)
    requires TreeOk(s.index, s.root) && Indexed(s.index, n)
    ensures Linked(n)
    ensures n.parent.Some? ==> Indexed(s.index, n.parent.value)
  {
    assert NodeOk(s.index, s.root, n);
  }

  lemma {:induction false} LineHashesOfPath(n: Node, h: Hash)
    ensures h in LineHashes(n) <==> exists m :: m in Path(n) && m.hash == h
    decreases n
  {
    if n.parent.Some? {
      LineHashesOfPath(n.parent.value, h);
    }
  }

  /** The hashes held by a main-chain view. */
  function HashesOf(nodes: seq<Option<Node>>): set<Hash> {
    set i | 0 <= i < |nodes| && nodes[i].Some? :: nodes[i].value.hash
  }

  lemma ViewHashes(nodes: seq<Option<Node>>, best: Node)
    requires nodes == Filled(Path(best))
    ensures HashesOf(nodes) == LineHashes(best)
  {
    hide Path, LineHashes;
    var hs := HashesOf(nodes);
    forall h
      ensures h in hs <==> h in LineHashes(best)
    {
      LineHashesOfPath(best, h);
      if h in LineHashes(best) {
        var m :| m in Path(best) && m.hash == h;
        var i :| 0 <= i < |Path(best)| && Path(best)[i] == m;
        assert nodes[i].Some? && nodes[i].value.hash == h;
      }
    }
  }

  lemma HasParent(n: Node, i: nat)
    requires Linked(n) && i < |Path(n)| && Path(n)[i].parent.Some?
    ensures 0 < i && Path(n)[i].height == i
  {
    PathShape(n);
  }

  lemma ParentOnPath(n: Node, i: nat)
    requires Linked(n) && 0 < i < |Path(n)|
    ensures |Path(n)| == n.height + 1 && Path(n)[i].height == i
    ensures Path(n)[i].parent == Some(Path(n)[i - 1]) && Path(n)[i - 1].height == i - 1
    ensures [Path(n)[i]] + Path(n)[i + 1..] == Path(n)[i..]
  {
    hide Path, Linked;
    PathShape(n);
    assert Path(n)[i - 1 + 1].parent == Some(Path(n)[i - 1]);
  }

  /** An indexed node whose hash is on a line is on that line at its own height. */
  lemma OnLine(s: State, n: Node, a: Node)
    requires TreeOk(s.index, s.root) && Indexed(s.index, n) && Indexed(s.index, a)
    requires a.hash in LineHashes(n)
    ensures a.height <= n.height < |Path(n)| && Path(n)[a.height] == a
  {
    LineMember(s.index, s.root, n, a.hash);
    NodeLinked(s, n);
    PathShape(n);
    var i :| 0 <= i < |Path(n)| && Path(n)[i] == a;
  }

  lemma HashOnLine(s: State, n: Node, m: Node, a: Node)
    requires TreeOk(s.index, s.root) && Indexed(s.index, n)
    requires m in Path(n) && a in Path(n) && m.hash == a.hash
    ensures m == a
  {
    LineIndexed(s.index, s.root, n, m);
    LineIndexed(s.index, s.root, n, a);
  }

  /** The first ancestor whose hash is on the main chain is the fork point. */
  lemma ForkFound(s: State, node: Node, a: Node)
    requires TreeOk(s.index, s.root) && Indexed(s.index, node) && Indexed(s.index, s.best)
    requires a.height <= node.height < |Path(node)| && a == Path(node)[a.height]
    requires a.parent.None? || a.hash in LineHashes(s.best)
    requires a.height < node.height ==> Path(node)[a.height + 1].hash !in LineHashes(s.best)
    ensures Shared(s, node) == a.height + 1
    ensures Indexed(s.index, a) && a.height <= s.best.height < |Path(s.best)| == s.best.height + 1
    ensures Path(s.best)[a.height] == a
  {
    hide TreeOk, CommonLen, Path, LineHashes, Linked;
    NodeLinked(s, node);
    NodeLinked(s, s.best);
    PathLength(node);
    PathLength(s.best);
    LineIndexed(s.index, s.root, node, a);
    if a.hash !in LineHashes(s.best) {
      RootOnLine(s, a);
    }
    OnLine(s, s.best, a);
    SameLine(node, s.best, a.height);
    var k := a.height + 1;
    if k < |Path(node)| && k < |Path(s.best)| {
      LineIndexed(s.index, s.root, s.best, Path(s.best)[k]);
    }
    assert Path(node)[..k] == Path(s.best)[..k];
    CommonLenUnique(Path(node), Path(s.best), k);
  }

  lemma RootOnLine(s: State, a: Node)
    requires TreeOk(s.index, s.root) && Indexed(s.index, s.best) && Indexed(s.index, a)
    requires a.parent.None?
    ensures a.hash in LineHashes(s.best)
  {
    assert NodeOk(s.index, s.root, a);
    LineRoot(s.index, s.root, s.best);
    LineIndexed(s.index, s.root, s.best, Path(s.best)[0]);
  }

  /** Two paths that meet at a height agree up to it. */
  lemma SameLine(a: Node, b: Node, h: nat)
    requires Linked(a) && Linked(b)
    requires h < |Path(a)| && h < |Path(b)| && Path(a)[h] == Path(b)[h]
    ensures forall i :: 0 <= i <= h ==> Path(a)[i] == Path(b)[i]
  {
    hide Path, Linked;
    PathLength(a);
    PathLength(b);
    PathPrefix(a, h);
    PathPrefix(b, h);
    assert forall i :: 0 <= i <= h ==> Path(a)[i] == Path(a)[..h + 1][i];
  }
}
