/** Fork choice as a state machine on values: what accepting one block does to the block tree, the
    tip and the side-chain cache (blockchain/blockchain.go), and what every run of it keeps. */
module ForkChoice {
  import opened Common
  import opened Difficulty
  import opened BlockTree

  datatype Block = Block(hash: Hash, prev: Hash, height: nat, bits: Uint32, timestamp: Uint32)

  /** The answers of the code outside this model, free to differ at every call: whether a block
      passes validation when it is connected, whether the checkpoints roll back when a block is
      disconnected, and whether a reorganization is refused as irreversible. */
  datatype Verdicts = Verdicts(
    connects: Hash -> bool, rollsBack: Hash -> bool, irreversible: (nat, nat) -> bool)

  datatype Outcome =
    | Extended | SideChain | Reorganized | Irreversible
    | AlreadyHave | UnknownParent | WrongHeight | Rejected | DetachFailed | AttachFailed
    | NilParent          // a second block without a parent makes the code follow a nil link
    | NotAtTip           // disconnectBlock called off the end of the chain
    | NotExtending       // connectBlock called with a block that does not extend the chain
    | MissingFromCache   // a side block is not in the side-chain cache
    | MissingFromStore   // a main-chain block is not in the database

  datatype State = State(
    root: Node, index: map<Hash, Node>, best: Node, cache: map<Hash, Block>, db: map<Hash, Block>)

  // ---------------------------------------------------------------- invariant

  /** The hashes of a node and its ancestors. */
  function LineHashes(n: Node): (r: set<Hash>)
    ensures n.hash in r
  {
    (if n.parent.Some? then LineHashes(n.parent.value) else {}) + {n.hash}
  }

  predicate Indexed(index: map<Hash, Node>, n: Node) {
    n.hash in index && index[n.hash] == n
  }

  /** An indexed node is stored under its hash and has its parent indexed; only the root has none. */
  predicate NodeOk(index: map<Hash, Node>, root: Node, n: Node) {
    && Indexed(index, n)
    && Linked(n)
    && (n.parent.None? ==> n == root)
    && (n.parent.Some? ==> Indexed(index, n.parent.value))
  }

  ghost predicate TreeOk(index: map<Hash, Node>, root: Node) {
    && (forall h :: h in index ==> index[h].hash == h)
    && (forall h {:trigger NodeOk(index, root, index[h])} :: h in index ==> NodeOk(index, root, index[h]))
  }

  /** Every node's work sum is the work of its whole path. */
  ghost predicate WorkOk(index: map<Hash, Node>) {
    forall h :: h in index ==> index[h].workSum == TotalWork(index[h])
  }

  predicate Matches(b: Block, n: Node) {
    b.hash == n.hash && (n.parent.Some? ==> b.prev == n.parent.value.hash)
  }

  ghost predicate BlocksOk(blocks: map<Hash, Block>, index: map<Hash, Node>) {
    forall h :: h in blocks ==> h in index && Matches(blocks[h], index[h])
  }

  /** The state every run keeps: a tree rooted at genesis, the tip in it, the main chain's blocks
      in the database, and in the side-chain cache exactly the blocks off the main chain. */
  ghost predicate Inv(s: State) {
    && TreeOk(s.index, s.root)
    && WorkOk(s.index)
    && s.root.parent == None
    && Indexed(s.index, s.best)
    && BlocksOk(s.cache, s.index)
    && BlocksOk(s.db, s.index)
    && s.cache.Keys == s.index.Keys - LineHashes(s.best)
    && LineHashes(s.best) <= s.db.Keys
  }

  // ---------------------------------------------------------------- lines of ancestors

  lemma {:induction false} LineIndexed(index: map<Hash, Node>, root: Node, n: Node, m: Node)
    requires TreeOk(index, root) && Indexed(index, n)
    requires m in Path(n)
    ensures Indexed(index, m) && m.hash in LineHashes(n) && m.height <= n.height
    decreases n
  {
    assert NodeOk(index, root, n);
    if m != n {
      LineIndexed(index, root, n.parent.value, m);
    }
  }

  lemma {:induction false} LineRoot(index: map<Hash, Node>, root: Node, n: Node)
    requires TreeOk(index, root) && Indexed(index, n)
    ensures Path(n)[0] == root
    decreases n
  {
    assert NodeOk(index, root, n);
    if n.parent.Some? {
      LineRoot(index, root, n.parent.value);
    }
  }

  /** A hash on a line belongs to the node of the line at that node's height. */
  lemma {:induction false} LineMember(index: map<Hash, Node>, root: Node, n: Node, h: Hash)
    requires TreeOk(index, root) && Indexed(index, n)
    requires h in LineHashes(n)
    ensures h in index && index[h] in Path(n) && index[h].height <= n.height
    decreases n
  {
    assert NodeOk(index, root, n);
    if h != n.hash {
      LineMember(index, root, n.parent.value, h);
    }
  }

  /** No node has its own hash above it. */
  lemma LineFresh(index: map<Hash, Node>, root: Node, n: Node)
    requires TreeOk(index, root) && Indexed(index, n) && n.parent.Some?
    ensures n.hash !in LineHashes(n.parent.value)
    ensures LineHashes(n) == LineHashes(n.parent.value) + {n.hash}
  {
    assert NodeOk(index, root, n);
    if n.hash in LineHashes(n.parent.value) {
      LineMember(index, root, n.parent.value, n.hash);
    }
  }

  lemma {:induction false} LineInside(index: map<Hash, Node>, root: Node, n: Node)
    requires TreeOk(index, root) && Indexed(index, n)
    ensures LineHashes(n) <= index.Keys
    decreases n
  {
    assert NodeOk(index, root, n);
    if n.parent.Some? {
      LineInside(index, root, n.parent.value);
    }
  }

  // ---------------------------------------------------------------- elementary steps

  /** Takes the tip off the main chain and puts its block in the side-chain cache. */
  function Disconnect(s: State): State
    requires s.best.parent.Some?
  {
    s.(best := s.best.parent.value,
       cache := if s.best.hash in s.db then s.cache[s.best.hash := s.db[s.best.hash]] else s.cache)
  }

  /** Moves the tip to a child that is on a side chain. */
  function ConnectCached(s: State, n: Node): State {
    s.(best := n,
       cache := s.cache - {n.hash},
       db := if n.hash in s.cache then s.db[n.hash := s.cache[n.hash]] else s.db)
  }

  /** The node of a new block below a given parent. */
  function ChildNode(b: Block, parent: Node): Node {
    Node(b.hash, parent.height + 1, b.bits, b.timestamp, parent.workSum + CalcWork(b.bits), Some(parent))
  }

  /** Connects a new block on top of the tip. */
  function Extend(s: State, b: Block): State {
    var n := ChildNode(b, s.best);
    s.(index := s.index[b.hash := n], best := n, db := s.db[b.hash := b])
  }

  /** Stores a new block on a side chain. */
  function StoreSide(s: State, b: Block, parent: Node): State {
    s.(index := s.index[b.hash := ChildNode(b, parent)], cache := s.cache[b.hash := b])
  }

  lemma DisconnectInv(s: State)
    requires Inv(s) && s.best.parent.Some?
    ensures Inv(Disconnect(s))
  {
    assert NodeOk(s.index, s.root, s.best);
    LineFresh(s.index, s.root, s.best);
    LineInside(s.index, s.root, s.best);
  }

  lemma ConnectCachedInv(s: State, n: Node)
    requires Inv(s) && Indexed(s.index, n) && n.parent == Some(s.best)
    ensures n.hash in s.cache && Matches(s.cache[n.hash], n)
    ensures Inv(ConnectCached(s, n))
  {
    LineFresh(s.index, s.root, n);
    LineInside(s.index, s.root, s.best);
  }

  lemma AddNode(index: map<Hash, Node>, root: Node, b: Block, parent: Node)
    requires TreeOk(index, root) && WorkOk(index)
    requires b.hash !in index && Indexed(index, parent) && b.prev == parent.hash
    ensures var index' := index[b.hash := ChildNode(b, parent)];
            TreeOk(index', root) && WorkOk(index') && Matches(b, ChildNode(b, parent))
  {
    var n := ChildNode(b, parent);
    var index' := index[b.hash := n];
    assert NodeOk(index, root, parent);
    forall h | h in index'
      ensures index'[h].hash == h && NodeOk(index', root, index'[h])
    {
      if h != b.hash { assert NodeOk(index, root, index[h]); }
    }
  }

  lemma BlocksStay(blocks: map<Hash, Block>, index: map<Hash, Node>, b: Block, n: Node)
    requires BlocksOk(blocks, index) && b.hash !in index && Matches(b, n)
    ensures BlocksOk(blocks, index[b.hash := n])
    ensures BlocksOk(blocks[b.hash := b], index[b.hash := n])
  {
  }

  lemma ExtendInv(s: State, b: Block)
    requires Inv(s) && b.hash !in s.index && b.prev == s.best.hash
    ensures Inv(Extend(s, b))
  {
    var n := ChildNode(b, s.best);
    AddNode(s.index, s.root, b, s.best);
    BlocksStay(s.cache, s.index, b, n);
    BlocksStay(s.db, s.index, b, n);
    LineInside(s.index, s.root, s.best);
    assert LineHashes(n) == LineHashes(s.best) + {b.hash};
  }

  lemma StoreSideInv(s: State, b: Block, parent: Node)
    requires Inv(s) && b.hash !in s.index && Indexed(s.index, parent) && b.prev == parent.hash
    ensures Inv(StoreSide(s, b, parent))
  {
    var n := ChildNode(b, parent);
    AddNode(s.index, s.root, b, parent);
    BlocksStay(s.cache, s.index, b, n);
    BlocksStay(s.db, s.index, b, n);
    LineInside(s.index, s.root, s.best);
  }

  // ---------------------------------------------------------------- reorganization

  /** How many leading elements two paths share. */
  function CommonLen(p: seq<Node>, q: seq<Node>): (k: nat)
    ensures k <= |p| && k <= |q|
    ensures p[..k] == q[..k]
    ensures k < |p| && k < |q| ==> p[k] != q[k]
  {
    if p == [] || q == [] || p[0] != q[0] then 0 else 1 + CommonLen(p[1..], q[1..])
  }

  /** The only length up to which two paths agree and past which they differ. */
  lemma CommonLenUnique(p: seq<Node>, q: seq<Node>, k: nat)
    requires k <= |p| && k <= |q| && p[..k] == q[..k]
    requires k < |p| && k < |q| ==> p[k] != q[k]
    ensures CommonLen(p, q) == k
  {
    var c := CommonLen(p, q);
    assert forall i :: 0 <= i < k ==> p[i] == p[..k][i];
    assert forall i :: 0 <= i < c ==> p[i] == p[..c][i];
  }

  /** The length of the line a node shares with the main chain. */
  function Shared(s: State, n: Node): nat {
    CommonLen(Path(n), Path(s.best))
  }

  /** Disconnects the topmost nodes one after the other, stopping at a failed rollback. */
  function Detach(s: State, count: nat, v: Verdicts): (State, bool)
    decreases count
  {
    if count == 0 || s.best.parent.None? then (s, true)
    else if !v.rollsBack(s.best.hash) then (s, false)
    else Detach(Disconnect(s), count - 1, v)
  }

  /** Connects a line of side-chain nodes bottom up, stopping at a block that fails to connect. */
  function Attach(s: State, ns: seq<Node>, v: Verdicts): (State, bool)
    decreases |ns|
  {
    if ns == [] then (s, true)
    else if !v.connects(ns[0].hash) then (s, false)
    else Attach(ConnectCached(s, ns[0]), ns[1..], v)
  }

  /** The state after a whole or partial detachment. */
  function AtFork(s: State, n: Node, v: Verdicts): (State, bool) {
    Detach(s, |Path(s.best)| - Shared(s, n), v)
  }

  /** Moves the main chain over to the line of n. */
  function Reorganize(s: State, n: Node, v: Verdicts): (State, Outcome) {
    var k := Shared(s, n);
    var (s1, detached) := AtFork(s, n, v);
    if !detached then (s1, DetachFailed)
    else
      var (s2, attached) := Attach(s1, Path(n)[k..], v);
      if attached then (s2, Reorganized) else (s2, AttachFailed)
  }

  /** Accepts a block whose hash is new: extends the tip, stores a side block, or reorganizes. */
  function Accept(s: State, b: Block, v: Verdicts): (State, Outcome) {
    if b.prev == EMPTY_HASH then (s, if b.height == 0 then NilParent else WrongHeight)
    else if b.prev !in s.index then (s, UnknownParent)
    else
      var parent := s.index[b.prev];
      if b.height != parent.height + 1 then (s, WrongHeight)
      else if parent == s.best then
        if v.connects(b.hash) then (Extend(s, b), Extended) else (s, Rejected)
      else
        var n := ChildNode(b, parent);
        var t := StoreSide(s, b, parent);
        if n.workSum <= s.best.workSum then (t, SideChain)
        else if v.irreversible(s.best.height, |Path(s.best)| - Shared(s, n)) then (t, Irreversible)
        else Reorganize(t, n, v)
  }

  function Process(s: State, b: Block, v: Verdicts): (State, Outcome) {
    if b.hash in s.index then (s, AlreadyHave) else Accept(s, b, v)
  }

  // ---------------------------------------------------------------- where the tip ends up

  /** Each detached node leaves the tip one lower on the old main chain. */
  lemma {:induction false} DetachTip(s: State, count: nat, v: Verdicts)
    requires Linked(s.best) && count <= s.best.height
    ensures |Path(s.best)| == s.best.height + 1
    ensures var (t, ok) := Detach(s, count, v);
            && t.index == s.index && t.root == s.root
            && t.best in Path(s.best)
            && (ok ==> t.best == Path(s.best)[s.best.height - count])
    decreases count
  {
    PathLength(s.best);
    if count > 0 && v.rollsBack(s.best.hash) {
      DetachTip(Disconnect(s), count - 1, v);
      assert Path(s.best) == Path(s.best.parent.value) + [s.best];
    }
  }

  lemma {:induction false} AttachTip(s: State, ns: seq<Node>, v: Verdicts)
    ensures var (t, ok) := Attach(s, ns, v);
            && t.index == s.index && t.root == s.root
            && (ok ==> t.best == if ns == [] then s.best else ns[|ns| - 1])
            && (!ok ==> ns != [] && (t.best == s.best || t.best in ns[..|ns| - 1]))
    decreases |ns|
  {
    if ns != [] && v.connects(ns[0].hash) {
      AttachTip(ConnectCached(s, ns[0]), ns[1..], v);
      if |ns| > 1 {
        assert ns[..|ns| - 1] == [ns[0]] + ns[1..][..|ns| - 2];
      }
    }
  }

  /** Detaching succeeds exactly when every detached block rolls back. */
  lemma {:induction false} DetachExactly(s: State, count: nat, v: Verdicts)
    requires Linked(s.best) && count <= s.best.height
    ensures |Path(s.best)| == s.best.height + 1
    ensures Detach(s, count, v).1 <==>
              forall m :: m in Path(s.best)[s.best.height + 1 - count..] ==> v.rollsBack(m.hash)
    decreases count
  {
    hide Path;
    PathLength(s.best);
    if count > 0 {
      DetachExactly(Disconnect(s), count - 1, v);
      PathTail(s.best, count);
    }
  }

  lemma PathTail(n: Node, count: nat)
    requires Linked(n) && 0 < count <= n.height
    ensures n.parent.Some? && |Path(n)| == n.height + 1 == |Path(n.parent.value)| + 1
    ensures Path(n)[n.height + 1 - count..] == Path(n.parent.value)[n.height + 1 - count..] + [n]
  {
    PathLength(n);
    PathLength(n.parent.value);
  }

  /** Attaching succeeds exactly when every attached block connects. */
  lemma {:induction false} AttachExactly(s: State, ns: seq<Node>, v: Verdicts)
    ensures Attach(s, ns, v).1 <==> forall m :: m in ns ==> v.connects(m.hash)
    decreases |ns|
  {
    if ns != [] {
      AttachExactly(ConnectCached(s, ns[0]), ns[1..], v);
      assert ns == [ns[0]] + ns[1..];
    }
  }

  // ---------------------------------------------------------------- the invariant along a reorganization

  lemma {:induction false} DetachInv(s: State, count: nat, v: Verdicts)
    requires Inv(s)
    ensures Inv(Detach(s, count, v).0)
    decreases count
  {
    hide Inv;
    if count > 0 && s.best.parent.Some? && v.rollsBack(s.best.hash) {
      DisconnectInv(s);
      DetachInv(Disconnect(s), count - 1, v);
    }
  }

  /** A list of indexed nodes, each the child of the one before, the first the child of `from`. */
  predicate Climbs(index: map<Hash, Node>, from: Node, ns: seq<Node>)
    decreases |ns|
  {
    ns != [] ==> Indexed(index, ns[0]) && ns[0].parent == Some(from) && Climbs(index, ns[0], ns[1..])
  }

  lemma {:induction false} PathClimbs(index: map<Hash, Node>, root: Node, n: Node, k: nat)
    requires TreeOk(index, root) && Indexed(index, n)
    requires 1 <= k <= |Path(n)|
    ensures Climbs(index, Path(n)[k - 1], Path(n)[k..])
    decreases |Path(n)| - k
  {
    assert NodeOk(index, root, n);
    if k < |Path(n)| {
      PathShape(n);
      PathClimbs(index, root, n, k + 1);
      LineIndexed(index, root, n, Path(n)[k]);
      assert Path(n)[k..][1..] == Path(n)[k + 1..];
      assert Path(n)[k - 1 + 1].parent == Some(Path(n)[k - 1]);
    }
  }

  lemma {:induction false} AttachInv(s: State, ns: seq<Node>, v: Verdicts)
    requires Inv(s) && Climbs(s.index, s.best, ns)
    ensures Inv(Attach(s, ns, v).0)
    decreases |ns|
  {
    hide Inv;
    if ns != [] && v.connects(ns[0].hash) {
      ConnectCachedInv(s, ns[0]);
      AttachInv(ConnectCached(s, ns[0]), ns[1..], v);
    }
  }

  /** Every line meets the main chain, at genesis if nowhere else. */
  lemma SharedBounds(s: State, n: Node)
    requires TreeOk(s.index, s.root) && Indexed(s.index, n) && Indexed(s.index, s.best)
    ensures var k := Shared(s, n);
            && 1 <= k <= |Path(n)| == n.height + 1 && k <= |Path(s.best)| == s.best.height + 1
            && Path(n)[k - 1] == Path(s.best)[k - 1]
  {
    assert NodeOk(s.index, s.root, n) && NodeOk(s.index, s.root, s.best);
    LineRoot(s.index, s.root, n);
    LineRoot(s.index, s.root, s.best);
    PathLength(n);
    PathLength(s.best);
    var k := Shared(s, n);
    assert k > 0 ==> Path(n)[..k][k - 1] == Path(s.best)[..k][k - 1];
  }

  lemma InvTree(s: State)
    requires Inv(s)
    ensures TreeOk(s.index, s.root) && Indexed(s.index, s.best)
  {
  }

  lemma InvHashes(s: State)
    requires Inv(s)
    ensures forall h :: h in s.index ==> s.index[h].hash == h
  {
  }

  lemma BestLinked(s: State)
    requires TreeOk(s.index, s.root) && Indexed(s.index, s.best)
    ensures Linked(s.best)
  {
    assert NodeOk(s.index, s.root, s.best);
  }

  lemma AtForkTip(s: State, n: Node, v: Verdicts)
    requires TreeOk(s.index, s.root) && Indexed(s.index, n) && Indexed(s.index, s.best)
    ensures var k := Shared(s, n); var (t, ok) := AtFork(s, n, v);
            && t.index == s.index && t.root == s.root && t.best in Path(s.best)
            && (ok ==> 1 <= k <= |Path(n)| && t.best == Path(n)[k - 1])
  {
    hide TreeOk, CommonLen, Path, Detach, Linked;
    SharedBounds(s, n);
    BestLinked(s);
    DetachTip(s, |Path(s.best)| - Shared(s, n), v);
  }

  /** A reorganization keeps the invariant however far it gets. */
  lemma ReorganizeInv(s: State, n: Node, v: Verdicts)
    requires Inv(s) && Indexed(s.index, n)
    ensures Inv(Reorganize(s, n, v).0)
  {
    hide Inv, TreeOk, CommonLen, Shared, Path, Climbs, Detach, Attach;
    var k := Shared(s, n);
    InvTree(s);
    SharedBounds(s, n);
    AtForkTip(s, n, v);
    DetachInv(s, |Path(s.best)| - k, v);
    var (t, detached) := AtFork(s, n, v);
    if detached {
      PathClimbs(s.index, s.root, n, k);
      AttachInv(t, Path(n)[k..], v);
    }
  }

  /** One that succeeds makes the main chain exactly the path to its target; one that fails leaves
      the tip on the old main chain or on the way to the target, never at it. */
  lemma ReorganizeTip(s: State, n: Node, v: Verdicts)
    requires TreeOk(s.index, s.root) && Indexed(s.index, n) && Indexed(s.index, s.best)
    ensures var (t, o) := Reorganize(s, n, v);
            && t.index == s.index
            && match o
               case Reorganized => t.best == n
               case DetachFailed => t.best in Path(s.best)
               case AttachFailed => n.parent.Some? && t.best in Path(n.parent.value)
               case _ => false
  {
    AtForkTip(s, n, v);
    var k := Shared(s, n);
    var (s1, detached) := AtFork(s, n, v);
    if detached {
      var ns := Path(n)[k..];
      AttachTip(s1, ns, v);
      if ns != [] {
        BelowTarget(n, k);
      }
    }
  }

  /** It succeeds exactly when every block above the fork rolls back and every block of the line to the
      target connects. */
  lemma ReorganizeExactly(s: State, n: Node, v: Verdicts)
    requires TreeOk(s.index, s.root) && Indexed(s.index, n) && Indexed(s.index, s.best)
    ensures var k := Shared(s, n);
            && k <= |Path(n)| && k <= |Path(s.best)|
            && (Reorganize(s, n, v).1 == Reorganized <==>
                  && (forall m :: m in Path(s.best)[k..] ==> v.rollsBack(m.hash))
                  && (forall m :: m in Path(n)[k..] ==> v.connects(m.hash)))
            && (Reorganize(s, n, v).1 == DetachFailed <==>
                  exists m :: m in Path(s.best)[k..] && !v.rollsBack(m.hash))
  {
    hide TreeOk, CommonLen, Path, Detach, Attach;
    var k := Shared(s, n);
    SharedBounds(s, n);
    BestLinked(s);
    DetachExactly(s, |Path(s.best)| - k, v);
    AttachExactly(AtFork(s, n, v).0, Path(n)[k..], v);
  }

  lemma BelowTarget(n: Node, k: nat)
    requires 1 <= k < |Path(n)|
    ensures n.parent.Some?
    ensures Path(n)[k - 1] in Path(n.parent.value)
    ensures forall m :: m in Path(n)[k..][..|Path(n)| - k - 1] ==> m in Path(n.parent.value)
  {
    assert Path(n) == Path(n.parent.value) + [n];
    assert Path(n)[k..][..|Path(n)| - k - 1] == Path(n.parent.value)[k..];
  }

  // ---------------------------------------------------------------- every step, every run

  /** Every accepted, refused or half-done block leaves the invariant standing. */
  lemma ProcessInv(s: State, b: Block, v: Verdicts)
    requires Inv(s)
    ensures Inv(Process(s, b, v).0)
  {
    hide Inv, Reorganize, CalcWork, CommonLen, Path;
    InvHashes(s);
    if b.hash !in s.index && b.prev in s.index {
      var parent := s.index[b.prev];
      if parent == s.best {
        ExtendInv(s, b);
      } else {
        StoreSideInv(s, b, parent);
        ReorganizeInv(StoreSide(s, b, parent), ChildNode(b, parent), v);
      }
    }
  }

  datatype Event = Event(block: Block, verdicts: Verdicts)

  /** The chain right after its genesis block. */
  function Genesis(b: Block): State {
    var n := Node(b.hash, 0, b.bits, b.timestamp, CalcWork(b.bits), None);
    State(n, map[b.hash := n], n, map[], map[b.hash := b])
  }

  function Run(s: State, events: seq<Event>): State {
    if events == [] then s
    else Process(Run(s, events[..|events| - 1]), events[|events| - 1].block, events[|events| - 1].verdicts).0
  }

  lemma {:induction false} RunSplit(s: State, a: seq<Event>, b: seq<Event>)
    ensures Run(s, a + b) == Run(Run(s, a), b)
    decreases |b|
  {
    hide Process;
    if b == [] {
      assert a + b == a;
    } else {
      RunSplit(s, a, b[..|b| - 1]);
      assert (a + b)[..|a + b| - 1] == a + b[..|b| - 1];
    }
  }

  lemma GenesisInv(b: Block)
    ensures Inv(Genesis(b))
  {
    var s := Genesis(b);
    assert NodeOk(s.index, s.root, s.best);
  }

  lemma {:induction false} RunInv(s: State, events: seq<Event>)
    requires Inv(s)
    ensures Inv(Run(s, events))
  {
    hide Inv, Process;
    if events != [] {
      var e := events[|events| - 1];
      RunInv(s, events[..|events| - 1]);
      ProcessInv(Run(s, events[..|events| - 1]), e.block, e.verdicts);
    }
  }

  /** From genesis on, whatever blocks arrive and however validation answers, each indexed node off
      the main chain has its block in the side-chain cache and each one on it in the database. */
  lemma RunKeepsBlocks(genesis: Block, events: seq<Event>)
    ensures var s := Run(Genesis(genesis), events);
            forall h :: h in s.index ==>
              (h !in LineHashes(s.best) <==> h in s.cache) && (h in LineHashes(s.best) ==> h in s.db)
  {
    GenesisInv(genesis);
    RunInv(Genesis(genesis), events);
  }

  // ---------------------------------------------------------------- heaviest chain

  /** No indexed node, on or off the main chain, has more work than the tip. */
  ghost predicate Heaviest(s: State) {
    forall h :: h in s.index ==> s.index[h].workSum <= s.best.workSum
  }

  /** The outcomes that stop a heavier chain from becoming the main chain. */
  predicate Unsettled(o: Outcome) {
    o == Irreversible || o == DetachFailed || o == AttachFailed
  }

  /** The errors that come after the block has been indexed: a reorganization that breaks off. */
  predicate Broken(o: Outcome) {
    o == DetachFailed || o == AttachFailed
  }

  /** The block makes a side line heavier than the main chain. */
  ghost predicate Overtakes(s: State, b: Block) {
    && b.hash !in s.index && b.prev != EMPTY_HASH && b.prev in s.index
    && s.index[b.prev] != s.best && b.height == s.index[b.prev].height + 1
    && ChildNode(b, s.index[b.prev]).workSum > s.best.workSum
  }

  /** The reorganization to the block is refused for its depth. */
  ghost predicate Withheld(s: State, b: Block, v: Verdicts) {
    Overtakes(s, b) && v.irreversible(s.best.height, |Path(s.best)| - Shared(s, ChildNode(b, s.index[b.prev])))
  }

  /** It is begun, and some block above the fork does not roll back or some block of the new line does
      not connect. */
  ghost predicate Breaks(s: State, b: Block, v: Verdicts) {
    Overtakes(s, b) && !Withheld(s, b, v) && Obstructed(s, ChildNode(b, s.index[b.prev]), v)
  }

  ghost predicate Obstructed(s: State, n: Node, v: Verdicts) {
    var k := Shared(s, n);
    || (exists m :: m in Path(s.best)[k..] && !v.rollsBack(m.hash))
    || (exists m :: m in Path(n)[k..] && !v.connects(m.hash))
  }

  /** When a step is unsettled, in terms of the state and the answers before it. */
  lemma UnsettledExactly(s: State, b: Block, v: Verdicts)
    requires Inv(s)
    ensures Broken(Process(s, b, v).1) <==> Breaks(s, b, v)
    ensures Process(s, b, v).1 == Irreversible <==> Withheld(s, b, v)
  {
    hide Inv, TreeOk, Reorganize, CalcWork, CommonLen, Path;
    if b.hash !in s.index && b.prev in s.index && s.index[b.prev] != s.best {
      var parent := s.index[b.prev];
      InvHashes(s);
      SideTip(s, b, parent, v);
      SideSucceeds(s, b, parent, v);
    }
  }

  lemma SideSucceeds(s: State, b: Block, parent: Node, v: Verdicts)
    requires Inv(s) && b.hash !in s.index && Indexed(s.index, parent) && b.prev == parent.hash
    ensures var n := ChildNode(b, parent);
            && (Reorganize(StoreSide(s, b, parent), n, v).1 == Reorganized <==> !Obstructed(s, n, v))
            && (Reorganize(StoreSide(s, b, parent), n, v).1 == DetachFailed <==>
                  exists m :: m in Path(s.best)[Shared(s, n)..] && !v.rollsBack(m.hash))
  {
    hide Inv, TreeOk, Reorganize, CalcWork, CommonLen, Path;
    var n, side := ChildNode(b, parent), StoreSide(s, b, parent);
    StoreSideInv(s, b, parent);
    InvTree(side);
    ReorganizeExactly(side, n, v);
    assert Shared(side, n) == Shared(s, n);
  }

  lemma {:induction false} WorkGrows(n: Node, m: Node)
    requires m in Path(n)
    ensures TotalWork(m) <= TotalWork(n)
    decreases n
  {
    hide CalcWork;
    if m != n {
      WorkGrows(n.parent.value, m);
    }
  }

  lemma IndexedWork(s: State, n: Node, m: Node)
    requires Inv(s) && Indexed(s.index, n) && m in Path(n)
    ensures m.workSum <= n.workSum
  {
    LineIndexed(s.index, s.root, n, m);
    WorkGrows(n, m);
  }

  /** What one block does to the tip.  It stays, or moves to the new block, or, when a
      reorganization fails, to a node with no more work than the old tip or the new block's parent. */
  lemma ProcessTip(s: State, b: Block, v: Verdicts)
    requires Inv(s)
    ensures var (t, o) := Process(s, b, v);
            && (t.index == s.index ||
                  (b.prev in s.index && t.index == s.index[b.hash := ChildNode(b, s.index[b.prev])]))
            && match o
               case Extended =>
                 t.index != s.index && b.prev in s.index && t.best == ChildNode(b, s.best) &&
                 s.index[b.prev] == s.best
               case Reorganized =>
                 t.index != s.index && b.prev in s.index &&
                 t.best == ChildNode(b, s.index[b.prev]) && t.best.workSum > s.best.workSum
               case SideChain =>
                 b.prev in s.index && t.best == s.best &&
                 ChildNode(b, s.index[b.prev]).workSum <= s.best.workSum
               case Irreversible =>
                 t.index != s.index && t.best == s.best &&
                 ChildNode(b, s.index[b.prev]).workSum > s.best.workSum
               case DetachFailed =>
                 t.index != s.index &&
                 t.best.workSum <= s.best.workSum < ChildNode(b, s.index[b.prev]).workSum
               case AttachFailed => t.index != s.index && t.best.workSum <= s.index[b.prev].workSum
               case _ => t == s
  {
    hide Inv, Reorganize, CalcWork, CommonLen, Path;
    InvHashes(s);
    if b.hash !in s.index && b.prev in s.index && s.index[b.prev] != s.best {
      SideTip(s, b, s.index[b.prev], v);
    }
  }

  lemma SideTip(s: State, b: Block, parent: Node, v: Verdicts)
    requires Inv(s) && b.hash !in s.index && Indexed(s.index, parent) && b.prev == parent.hash
    ensures var (t, o) := Reorganize(StoreSide(s, b, parent), ChildNode(b, parent), v);
            && t.index == s.index[b.hash := ChildNode(b, parent)]
            && t.index != s.index
            && match o
               case Reorganized => t.best == ChildNode(b, parent)
               case DetachFailed => t.best.workSum <= s.best.workSum
               case AttachFailed => t.best.workSum <= parent.workSum
               case _ => false
  {
    hide Inv, TreeOk, Reorganize, CalcWork;
    var n, side := ChildNode(b, parent), StoreSide(s, b, parent);
    StoreSideInv(s, b, parent);
    InvTree(side);
    ReorganizeTip(side, n, v);
    InvTree(s);
    assert b.hash in side.index;
    var (t, o) := Reorganize(side, n, v);
    if o == DetachFailed {
      IndexedWork(s, s.best, t.best);
    } else if o == AttachFailed {
      IndexedWork(s, parent, t.best);
    }
  }

  // ---------------------------------------------------------------- which blocks get which answer

  /** A new block shares as much of the main chain as its parent does. */
  lemma SharedOfChild(s: State, b: Block, parent: Node)
    requires TreeOk(s.index, s.root) && Indexed(s.index, s.best) && Indexed(s.index, parent) && b.hash !in s.index
    ensures var k := Shared(s, parent); var n := ChildNode(b, parent);
            && Shared(s, n) == k <= |Path(parent)| < |Path(n)| && k <= |Path(s.best)| == s.best.height + 1
            && Path(n)[k..] == Path(parent)[k..] + [n]
  {
    hide CommonLen, TreeOk, Path, Linked, LineHashes, CalcWork;
    BestLinked(s);
    PathLength(s.best);
    var k, n := Shared(s, parent), ChildNode(b, parent);
    PathOfChild(b, parent);
    if k == |Path(parent)| && k < |Path(s.best)| {
      LineIndexed(s.index, s.root, s.best, Path(s.best)[k]);
    }
    CommonWithMore(Path(parent), n, Path(s.best));
  }

  lemma PathOfChild(b: Block, parent: Node)
    ensures Path(ChildNode(b, parent)) == Path(parent) + [ChildNode(b, parent)]
  {
  }

  lemma CommonWithMore(p: seq<Node>, n: Node, q: seq<Node>)
    requires CommonLen(p, q) == |p| < |q| ==> q[|p|] != n
    ensures var k := CommonLen(p, q); CommonLen(p + [n], q) == k && (p + [n])[k..] == p[k..] + [n]
  {
    hide CommonLen;
    var k := CommonLen(p, q);
    assert (p + [n])[..k] == p[..k];
    CommonLenUnique(p + [n], q, k);
  }

  /** The blocks that are turned away, and the ones that extend the tip. */
  lemma AnsweredExactly(s: State, b: Block, v: Verdicts)
    requires Inv(s)
    ensures var o := Process(s, b, v).1;
            var child := && b.hash !in s.index && b.prev != EMPTY_HASH && b.prev in s.index
                         && b.height == s.index[b.prev].height + 1;
            && (o == AlreadyHave <==> b.hash in s.index)
            && (o == NilParent <==> b.hash !in s.index && b.prev == EMPTY_HASH && b.height == 0)
            && (o == UnknownParent <==> b.hash !in s.index && b.prev != EMPTY_HASH && b.prev !in s.index)
            && (o == WrongHeight <==>
                  b.hash !in s.index && if b.prev == EMPTY_HASH then b.height != 0
                                        else b.prev in s.index && b.height != s.index[b.prev].height + 1)
            && (o == Rejected <==> child && s.index[b.prev] == s.best && !v.connects(b.hash))
            && (o == Extended <==> child && s.index[b.prev] == s.best && v.connects(b.hash))
            && (o == SideChain <==>
                  child && s.index[b.prev] != s.best && s.index[b.prev].workSum + CalcWork(b.bits) <= s.best.workSum)
  {
    hide Inv, Reorganize, CalcWork, CommonLen, Path;
    InvHashes(s);
    if b.hash !in s.index && b.prev in s.index && s.index[b.prev] != s.best {
      SideTip(s, b, s.index[b.prev], v);
    }
  }

  /** The ones that would move the main chain.  The depth of the reorganization is counted from the
      last block that the parent's line shares with the main chain. */
  lemma ReorganizedExactly(s: State, b: Block, v: Verdicts)
    requires Inv(s)
    requires b.hash !in s.index && b.prev != EMPTY_HASH && b.prev in s.index
    requires b.height == s.index[b.prev].height + 1
    requires s.index[b.prev] != s.best && s.index[b.prev].workSum + CalcWork(b.bits) > s.best.workSum
    ensures var o := Process(s, b, v).1;
            var p := s.index[b.prev];
            var k := CommonLen(Path(p), Path(s.best));
            var refused := v.irreversible(s.best.height, |Path(s.best)| - k);
            var detached := forall m :: m in Path(s.best)[k..] ==> v.rollsBack(m.hash);
            var attached := v.connects(b.hash) && forall m :: m in Path(p)[k..] ==> v.connects(m.hash);
            && (o == Irreversible <==> refused)
            && (o == DetachFailed <==> !refused && !detached)
            && (o == AttachFailed <==> !refused && detached && !attached)
            && (o == Reorganized <==> !refused && detached && attached)
  {
    hide Inv, TreeOk, Reorganize, CalcWork, CommonLen, Path, Obstructed;
    var p := s.index[b.prev];
    InvHashes(s);
    InvTree(s);
    SharedOfChild(s, b, p);
    SideTip(s, b, p, v);
    SideSucceeds(s, b, p, v);
    ObstructedParts(s, b, p, v);
  }

  lemma ObstructedParts(s: State, b: Block, p: Node, v: Verdicts)
    requires var k := CommonLen(Path(p), Path(s.best)); var n := ChildNode(b, p);
             Shared(s, n) == k <= |Path(n)| && Path(n)[k..] == Path(p)[k..] + [n]
    ensures var k := CommonLen(Path(p), Path(s.best));
            Obstructed(s, ChildNode(b, p), v) <==>
              || (exists m :: m in Path(s.best)[k..] && !v.rollsBack(m.hash))
              || !v.connects(b.hash) || exists m :: m in Path(p)[k..] && !v.connects(m.hash)
  {
    hide CommonLen, Path, CalcWork, Shared;
    var k := CommonLen(Path(p), Path(s.best));
    var n := ChildNode(b, p);
    assert forall m :: m in Path(n)[k..] <==> m in Path(p)[k..] || m == n;
  }

  // ---------------------------------------------------------------- only validated blocks on the main chain

  lemma {:induction false} DetachRolls(s: State, count: nat, v: Verdicts, h: Hash)
    ensures h in LineHashes(Detach(s, count, v).0.best) ==> h in LineHashes(s.best)
    ensures h in LineHashes(s.best) ==> h in LineHashes(Detach(s, count, v).0.best) || v.rollsBack(h)
    decreases count
  {
    if count > 0 && s.best.parent.Some? && v.rollsBack(s.best.hash) {
      DetachRolls(Disconnect(s), count - 1, v, h);
    }
  }

  lemma {:induction false} AttachConnects(s: State, ns: seq<Node>, v: Verdicts, h: Hash)
    requires Climbs(s.index, s.best, ns)
    ensures h in LineHashes(Attach(s, ns, v).0.best) ==> h in LineHashes(s.best) || v.connects(h)
    ensures h in LineHashes(s.best) ==> h in LineHashes(Attach(s, ns, v).0.best)
    decreases |ns|
  {
    if ns != [] && v.connects(ns[0].hash) {
      AttachConnects(ConnectCached(s, ns[0]), ns[1..], v, h);
    }
  }

  lemma ReorganizeValidated(s: State, n: Node, v: Verdicts, h: Hash)
    requires Inv(s) && Indexed(s.index, n)
    ensures var t := Reorganize(s, n, v).0;
            && (h in LineHashes(t.best) ==> h in LineHashes(s.best) || v.connects(h))
            && (h in LineHashes(s.best) ==> h in LineHashes(t.best) || v.rollsBack(h))
  {
    hide Inv, TreeOk, CommonLen, Shared, Path, Climbs, Detach, Attach, LineHashes;
    var k := Shared(s, n);
    InvTree(s);
    SharedBounds(s, n);
    AtForkTip(s, n, v);
    DetachRolls(s, |Path(s.best)| - k, v, h);
    var (t, detached) := AtFork(s, n, v);
    if detached {
      PathClimbs(s.index, s.root, n, k);
      AttachConnects(t, Path(n)[k..], v, h);
    }
  }

  /** A block joins the main chain only by passing validation, and leaves it only by rolling back. */
  lemma MainChainStep(s: State, b: Block, v: Verdicts, h: Hash)
    requires Inv(s)
    ensures var t := Process(s, b, v).0;
            && (h in LineHashes(t.best) ==> h in LineHashes(s.best) || v.connects(h))
            && (h in LineHashes(s.best) ==> h in LineHashes(t.best) || v.rollsBack(h))
  {
    hide Inv, Reorganize, CalcWork, CommonLen, Path, TreeOk;
    InvHashes(s);
    if b.hash !in s.index && b.prev in s.index && s.index[b.prev] != s.best {
      var parent := s.index[b.prev];
      StoreSideInv(s, b, parent);
      ReorganizeValidated(StoreSide(s, b, parent), ChildNode(b, parent), v, h);
    }
  }

  /** What the index records of a block. */
  lemma NodeRecords(s: State, b: Block, v: Verdicts, h: Hash)
    requires Inv(s)
    ensures var t := Process(s, b, v).0;
            && (h in s.index ==> h in t.index && t.index[h] == s.index[h])
            && (h in t.index && h !in s.index ==>
                  var n := t.index[h];
                  && h == n.hash == b.hash && n.height == b.height && n.bits == b.bits && n.timestamp == b.timestamp
                  && n.parent.Some? && n.parent.value.hash == b.prev
                  && b.prev in s.index && n.parent.value == s.index[b.prev]
                  && n.workSum == s.index[b.prev].workSum + CalcWork(b.bits))
  {
    hide Inv, Process, CalcWork;
    ProcessTip(s, b, v);
    AnsweredExactly(s, b, v);
    InvHashes(s);
  }

  /** The event that brought a node's block. */
  ghost predicate Brought(e: Event, n: Node) {
    && e.block.hash == n.hash && e.block.height == n.height && e.block.bits == n.bits
    && e.block.timestamp == n.timestamp && n.parent.Some? && n.parent.value.hash == e.block.prev
  }

  /** A run indexes only the blocks it is given, each with its own height, bits, time and parent. */
  lemma {:induction false} RunNodes(s: State, events: seq<Event>, h: Hash)
    requires Inv(s) && h in Run(s, events).index && h !in s.index
    ensures Run(s, events).index[h].hash == h
    ensures exists i :: 0 <= i < |events| && Brought(events[i], Run(s, events).index[h])
  {
    hide Inv, Process, Brought;
    RunInv(s, events);
    InvHashes(Run(s, events));
    if events != [] {
      var before, e := events[..|events| - 1], events[|events| - 1];
      var t := Run(s, before);
      RunInv(s, before);
      NodeRecords(t, e.block, e.verdicts, h);
      if h in t.index {
        RunNodes(s, before, h);
        var i :| 0 <= i < |before| && Brought(before[i], t.index[h]);
        assert events[i] == before[i];
      } else {
        BroughtBy(e, Run(s, events).index[h]);
        assert Brought(events[|events| - 1], Run(s, events).index[h]);
      }
    }
  }

  lemma BroughtBy(e: Event, n: Node)
    requires e.block.hash == n.hash && e.block.height == n.height && e.block.bits == n.bits
    requires e.block.timestamp == n.timestamp && n.parent.Some? && n.parent.value.hash == e.block.prev
    ensures Brought(e, n)
  {
  }

  /** From genesis on, every block of the main chain but genesis was given to the run and passed
      validation then or later. */
  lemma {:induction false} RunValidated(genesis: Block, events: seq<Event>, h: Hash)
    requires h in LineHashes(Run(Genesis(genesis), events).best) && h != genesis.hash
    ensures exists j, i :: 0 <= j <= i < |events| && events[j].block.hash == h && events[i].verdicts.connects(h)
  {
    hide Inv, Process, Genesis, LineHashes;
    GenesisInv(genesis);
    GenesisLine(genesis);
    if events != [] {
      var before, e := events[..|events| - 1], events[|events| - 1];
      var t := Run(Genesis(genesis), before);
      RunInv(Genesis(genesis), before);
      MainChainStep(t, e.block, e.verdicts, h);
      if h in LineHashes(t.best) {
        RunValidated(genesis, before, h);
        var j, i :| 0 <= j <= i < |before| && before[j].block.hash == h && before[i].verdicts.connects(h);
        assert events[j] == before[j] && events[i] == before[i];
      } else {
        RunInv(Genesis(genesis), events);
        MainChainIndexed(Run(Genesis(genesis), events), h);
        RunNodes(Genesis(genesis), events, h);
        var j :| 0 <= j < |events| && Brought(events[j], Run(Genesis(genesis), events).index[h]);
        var i := |events| - 1;
        assert events[j].block.hash == h && events[i].verdicts.connects(h);
      }
    }
  }

  lemma GenesisLine(b: Block)
    ensures LineHashes(Genesis(b).best) == {b.hash} == Genesis(b).index.Keys
  {
  }

  lemma MainChainIndexed(s: State, h: Hash)
    requires Inv(s) && h in LineHashes(s.best)
    ensures h in s.index && s.index[h].hash == h
  {
    LineInside(s.index, s.root, s.best);
  }

  // ---------------------------------------------------------------- stored blocks

  /** The block is in the database or in the side-chain cache under the hash. */
  ghost predicate Stored(s: State, h: Hash, x: Block) {
    (h in s.db && s.db[h] == x) || (h in s.cache && s.cache[h] == x)
  }

  lemma {:induction false} DetachStores(s: State, count: nat, v: Verdicts, h: Hash, x: Block)
    ensures Stored(Detach(s, count, v).0, h, x) ==> Stored(s, h, x)
    decreases count
  {
    if count > 0 && s.best.parent.Some? && v.rollsBack(s.best.hash) {
      DetachStores(Disconnect(s), count - 1, v, h, x);
    }
  }

  lemma {:induction false} AttachStores(s: State, ns: seq<Node>, v: Verdicts, h: Hash, x: Block)
    ensures Stored(Attach(s, ns, v).0, h, x) ==> Stored(s, h, x)
    decreases |ns|
  {
    if ns != [] && v.connects(ns[0].hash) {
      AttachStores(ConnectCached(s, ns[0]), ns[1..], v, h, x);
    }
  }

  lemma StoresStep(s: State, b: Block, v: Verdicts, h: Hash, x: Block)
    ensures Stored(Process(s, b, v).0, h, x) ==> Stored(s, h, x) || x == b
  {
    hide CalcWork, CommonLen, Path, Detach, Attach;
    if b.hash !in s.index && b.prev in s.index && s.index[b.prev] != s.best {
      var t, n := StoreSide(s, b, s.index[b.prev]), ChildNode(b, s.index[b.prev]);
      DetachStores(t, |Path(t.best)| - Shared(t, n), v, h, x);
      AttachStores(AtFork(t, n, v).0, Path(n)[Shared(t, n)..], v, h, x);
    }
  }

  /** Database and cache hold genesis and the blocks of the run, unchanged. */
  lemma {:induction false} RunStores(genesis: Block, events: seq<Event>, h: Hash, x: Block)
    requires Stored(Run(Genesis(genesis), events), h, x)
    ensures x == genesis || exists i :: 0 <= i < |events| && events[i].block == x
  {
    hide Process;
    if events != [] {
      var before, e := events[..|events| - 1], events[|events| - 1];
      StoresStep(Run(Genesis(genesis), before), e.block, e.verdicts, h, x);
      if x != e.block {
        RunStores(genesis, before, h, x);
        if x != genesis {
          var i :| 0 <= i < |before| && before[i].block == x;
          assert events[i].block == x;
        }
      } else {
        assert events[|events| - 1].block == x;
      }
    }
  }

  /** The heaviest chain stays the main chain through a step exactly when no reorganization was
      refused or broke off. */
  lemma HeaviestStep(s: State, b: Block, v: Verdicts)
    requires Inv(s) && Heaviest(s)
    ensures !Unsettled(Process(s, b, v).1) ==> Heaviest(Process(s, b, v).0)
    ensures Unsettled(Process(s, b, v).1) && CalcWork(b.bits) > 0 ==> !Heaviest(Process(s, b, v).0)
  {
    hide Inv, Process, CalcWork;
    ProcessTip(s, b, v);
    var (t, o) := Process(s, b, v);
    if Unsettled(o) {
      assert b.hash in t.index;
    }
  }

  /** In terms of what is known before the step: the heaviest chain stays the main chain exactly when
      the block does not start a reorganization that is refused or obstructed. */
  lemma HeaviestExactly(s: State, b: Block, v: Verdicts)
    requires Inv(s) && Heaviest(s) && CalcWork(b.bits) > 0
    ensures Heaviest(Process(s, b, v).0) <==> !Withheld(s, b, v) && !Breaks(s, b, v)
  {
    hide Inv, Process, CalcWork, Heaviest, Withheld, Breaks;
    HeaviestStep(s, b, v);
    UnsettledExactly(s, b, v);
  }

  /** A settled step moves the tip only forward: to more work, or onto a child of the tip. */
  lemma TipStep(s: State, b: Block, v: Verdicts)
    requires Inv(s) && !Unsettled(Process(s, b, v).1)
    ensures var t := Process(s, b, v).0;
            t.best == s.best || t.best.workSum > s.best.workSum || t.best == ChildNode(b, s.best)
  {
    hide Inv, Process, CalcWork;
    ProcessTip(s, b, v);
  }

  ghost predicate SettledRun(s: State, events: seq<Event>) {
    events != [] ==>
      var e := events[|events| - 1];
      && SettledRun(s, events[..|events| - 1])
      && !Unsettled(Process(Run(s, events[..|events| - 1]), e.block, e.verdicts).1)
  }

  /** A run is settled exactly when none of its blocks starts a reorganization that is refused or
      obstructed in the state it meets. */
  lemma {:induction false} SettledExactly(s: State, events: seq<Event>)
    requires Inv(s)
    ensures SettledRun(s, events) <==>
            forall i :: 0 <= i < |events| ==>
              !Withheld(Run(s, events[..i]), events[i].block, events[i].verdicts) &&
              !Breaks(Run(s, events[..i]), events[i].block, events[i].verdicts)
  {
    hide Inv, Process, Withheld, Breaks, Run;
    if events != [] {
      var e, before := events[|events| - 1], events[..|events| - 1];
      SettledExactly(s, before);
      RunInv(s, before);
      UnsettledExactly(Run(s, before), e.block, e.verdicts);
      assert forall i :: 0 <= i < |before| ==> before[i] == events[i] && before[..i] == events[..i];
    }
  }

  /** Answers that always connect, always roll back and never refuse. */
  ghost predicate Willing(v: Verdicts) {
    (forall h :: v.connects(h) && v.rollsBack(h)) && forall height, depth :: !v.irreversible(height, depth)
  }

  lemma WillingSettles(s: State, b: Block, v: Verdicts)
    requires Inv(s) && Willing(v)
    ensures !Unsettled(Process(s, b, v).1)
  {
    hide Inv, Process, CalcWork, CommonLen, Path, Overtakes;
    UnsettledExactly(s, b, v);
  }

  /** With such answers every run is settled, so its tip is heaviest and first seen. */
  lemma {:induction false} WillingRun(s: State, events: seq<Event>)
    requires Inv(s) && forall e :: e in events ==> Willing(e.verdicts)
    ensures SettledRun(s, events)
  {
    hide Inv, Process, Willing;
    if events != [] {
      var e, before := events[|events| - 1], events[..|events| - 1];
      assert e in events && forall x :: x in before ==> x in events;
      WillingRun(s, before);
      RunInv(s, before);
      WillingSettles(Run(s, before), e.block, e.verdicts);
    }
  }

  /** Fork choice is heaviest chain over every run in which no reorganization is refused or fails. */
  lemma {:induction false} RunHeaviest(s: State, events: seq<Event>)
    requires Inv(s) && Heaviest(s) && SettledRun(s, events)
    ensures Heaviest(Run(s, events))
  {
    hide Inv, Process, Heaviest;
    if events != [] {
      var e, before := events[|events| - 1], events[..|events| - 1];
      RunHeaviest(s, before);
      RunInv(s, before);
      HeaviestStep(Run(s, before), e.block, e.verdicts);
    }
  }

  /** Ties keep the first-seen tip: over a settled run of blocks with positive work, the tip never
      loses work, and it is unchanged unless its work strictly grew. */
  lemma {:induction false} RunFirstSeen(s: State, events: seq<Event>)
    requires Inv(s) && SettledRun(s, events)
    requires forall e :: e in events ==> CalcWork(e.block.bits) > 0
    ensures var t := Run(s, events); t.best == s.best || t.best.workSum > s.best.workSum
  {
    hide Inv, Process, CalcWork;
    if events != [] {
      var e, before := events[|events| - 1], events[..|events| - 1];
      RunFirstSeen(s, before);
      RunInv(s, before);
      TipStep(Run(s, before), e.block, e.verdicts);
    }
  }
}
