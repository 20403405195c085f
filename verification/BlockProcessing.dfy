/** Block intake of blockchain/blockchain.go: known blocks, orphans, acceptance, and the orphans an
    accepted block sets free. */
module BlockProcessing {
  import opened Common
  import opened BlockTree
  import opened Difficulty
  import opened ForkChoice
  import opened BlockChain
  import opened OrphanPool

  /** The outcomes that maybeAcceptBlock does not report as errors. */
  predicate Accepted(o: Outcome) {
    o == Extended || o == SideChain || o == Reorganized || o == Irreversible
  }

  /** The hashes that are both orphans' and indexed. */
  function Both(orphans: map<Hash, Orphan>, index: map<Hash, Node>): set<Hash> {
    set h | h in orphans && h in index
  }

  /** A hash that is both an orphan's and indexed names the same parent in both places. */
  ghost predicate Consistent(orphans: map<Hash, Orphan>, index: map<Hash, Node>) {
    forall h :: h in orphans && h in index ==>
      index[h].parent.Some? && index[h].parent.value.hash == orphans[h].block.prev
  }

  /** No orphan waiting for p is indexed yet. */
  ghost predicate Fresh(orphans: map<Hash, Orphan>, index: map<Hash, Node>, p: Hash) {
    forall h :: h in orphans && orphans[h].block.prev == p ==> h !in index
  }

  predicate NoneWaiting(orphans: map<Hash, Orphan>, p: Hash) {
    forall h :: h in orphans ==> orphans[h].block.prev != p
  }

  function Hashes(blocks: seq<Block>): set<Hash> {
    set b | b in blocks :: b.hash
  }

  function Events(blocks: seq<Block>, answers: Hash -> Verdicts): seq<Event> {
    seq(|blocks|, i requires 0 <= i < |blocks| => Event(blocks[i], answers(blocks[i].hash)))
  }

  /** Each block's parent is the root of the search or an earlier block. */
  ghost predicate ParentFirst(root: Hash, blocks: seq<Block>) {
    forall i :: 0 <= i < |blocks| ==> blocks[i].prev == root || blocks[i].prev in Hashes(blocks[..i])
  }

  /** What accepting a block does to the index. */
  lemma AcceptIndex(s: State, b: Block, v: Verdicts)
    requires Inv(s) && b.hash !in s.index
    ensures var (t, o) := Process(s, b, v);
            && (b.prev in s.index ==> s.index[b.prev].hash == b.prev)
            && (t.index == s.index ||
                  (b.prev in s.index && t.index == s.index[b.hash := ChildNode(b, s.index[b.prev])]))
            && (b.hash in t.index <==> Accepted(o) || Broken(o))
  {
    hide Inv, Reorganize, CommonLen, Path;
    InvHashes(s);
    if b.prev in s.index && s.index[b.prev] != s.best {
      SideTip(s, b, s.index[b.prev], v);
    }
  }

  /** The outcome of the i-th block of a chain's history. */
  ghost function OutcomeAt(genesis: Block, trace: seq<Event>, i: nat): Outcome
    requires i < |trace|
  {
    Process(Run(Genesis(genesis), trace[..i]), trace[i].block, trace[i].verdicts).1
  }

  /** It started a reorganization that was obstructed in the state it met. */
  ghost predicate BreaksAt(genesis: Block, trace: seq<Event>, i: nat)
    requires i < |trace|
  {
    Breaks(Run(Genesis(genesis), trace[..i]), trace[i].block, trace[i].verdicts)
  }

  /** What an error says about the blocks processed from a point on: without one all were accepted;
      with one all but the last were, and it is the last one's. */
  ghost predicate Reported(genesis: Block, trace: seq<Event>, from: nat, err: Option<Outcome>) {
    && from <= |trace|
    && (err.Some? ==> from < |trace| && err.value == OutcomeAt(genesis, trace, |trace| - 1) && !Accepted(err.value))
    && forall i :: from <= i < (if err.Some? then |trace| - 1 else |trace|) ==> Accepted(OutcomeAt(genesis, trace, i))
  }

  lemma LastOutcome(genesis: Block, trace: seq<Event>, e: Event)
    ensures OutcomeAt(genesis, trace + [e], |trace|) == Process(Run(Genesis(genesis), trace), e.block, e.verdicts).1
  {
    hide Process, Run;
    assert (trace + [e])[..|trace|] == trace;
  }

  lemma ReportNothing(genesis: Block, trace: seq<Event>)
    ensures Reported(genesis, trace, |trace|, None)
  {
  }

  lemma ReportMore(genesis: Block, trace: seq<Event>, from: nat, e: Event, o: Outcome)
    requires Reported(genesis, trace, from, None) && o == OutcomeAt(genesis, trace + [e], |trace|)
    ensures Reported(genesis, trace + [e], from, if Accepted(o) then None else Some(o))
  {
    hide Process, Run, Genesis, Accepted;
    var more := trace + [e];
    forall i | from <= i < |trace|
      ensures Accepted(OutcomeAt(genesis, more, i))
    {
      assert more[..i] == trace[..i] && more[i] == trace[i];
      assert Accepted(OutcomeAt(genesis, trace, i));
    }
  }

  /** So an error is a broken reorganization exactly when one of the blocks met an obstruction. */
  lemma BrokenExactly(genesis: Block, trace: seq<Event>, from: nat, err: Option<Outcome>)
    requires Reported(genesis, trace, from, err)
    ensures err.Some? && Broken(err.value) <==> exists i :: from <= i < |trace| && BreaksAt(genesis, trace, i)
  {
    hide Process, Run, Genesis, Breaks, Inv;
    forall i | from <= i < |trace|
      ensures Broken(OutcomeAt(genesis, trace, i)) <==> BreaksAt(genesis, trace, i)
    {
      GenesisInv(genesis);
      RunInv(Genesis(genesis), trace[..i]);
      UnsettledExactly(Run(Genesis(genesis), trace[..i]), trace[i].block, trace[i].verdicts);
    }
  }

  /** A heavier side block that validation refuses is left in the index. */
  lemma RefusedStaysIndexed(s: State, b: Block, v: Verdicts)
    requires Inv(s) && Overtakes(s, b) && !Withheld(s, b, v) && !v.connects(b.hash)
    ensures Breaks(s, b, v) && Broken(Process(s, b, v).1) && b.hash in Process(s, b, v).0.index
  {
    hide Inv, Process, CommonLen, Path, CalcWork, Shared;
    AcceptIndex(s, b, v);
    InvTree(s);
    NewOffMain(s, s, ChildNode(b, s.index[b.prev]));
    UnsettledExactly(s, b, v);
  }

  lemma NewOffMain(s: State, side: State, n: Node)
    requires TreeOk(s.index, s.root) && Indexed(s.index, s.best) && n.hash !in s.index && side.best == s.best
    ensures n in Path(n)[Shared(side, n)..]
  {
    hide CommonLen;
    var k := Shared(side, n);
    if k == |Path(n)| {
      assert Path(n)[..k] == Path(side.best)[..k];
      assert Path(n)[k - 1] == Path(n)[..k][k - 1];
      assert n in Path(s.best);
      LineIndexed(s.index, s.root, s.best, n);
    } else {
      assert n == Path(n)[k..][|Path(n)| - 1 - k];
    }
  }

  lemma ParentIndexed(s: State, h: Hash)
    requires Inv(s) && h in s.index && s.index[h].parent.Some?
    ensures s.index[h].parent.value.hash in s.index
  {
    assert NodeOk(s.index, s.root, s.index[h]);
  }

  /** A block new to the index has no orphan of its own indexed before it. */
  lemma FreshBelow(s: State, orphans: map<Hash, Orphan>, b: Hash)
    requires Inv(s) && Consistent(orphans, s.index) && b !in s.index
    ensures Fresh(orphans, s.index, b)
  {
    hide Inv;
    forall h | h in orphans && orphans[h].block.prev == b
      ensures h !in s.index
    {
      if h in s.index {
        ParentIndexed(s, h);
      }
    }
  }

  lemma NotBoth(orphans: map<Hash, Orphan>, index: map<Hash, Node>, h: Hash)
    requires h !in index
    ensures Both(orphans, index) - {h} == Both(orphans, index)
  {
  }

  /** Indexing a block keeps both facts, and frees the search to go on below it. */
  lemma AcceptKeeps(index: map<Hash, Node>, index': map<Hash, Node>, orphans: map<Hash, Orphan>, b: Block, n: Node)
    requires Consistent(orphans, index) && Fresh(orphans, index, b.hash)
    requires n.parent.Some? && n.parent.value.hash == b.prev
    requires b.hash in orphans ==> orphans[b.hash].block == b
    requires index' == index || index' == index[b.hash := n]
    ensures Consistent(orphans, index') && Consistent(orphans - {b.hash}, index')
    ensures Fresh(orphans - {b.hash}, index', b.hash)
    ensures Both(orphans - {b.hash}, index') == Both(orphans, index) - {b.hash}
    ensures Both(orphans, index') ==
              Both(orphans, index) + (if b.hash in orphans && index' != index then {b.hash} else {})
    ensures forall q :: Fresh(orphans, index, q) ==> Fresh(orphans - {b.hash}, index', q)
  {
  }

  /** The index only gains hashes. */
  predicate Grew(index: map<Hash, Node>, index': map<Hash, Node>) {
    index.Keys <= index'.Keys
  }

  lemma GrewNot(index: map<Hash, Node>)
    ensures Grew(index, index)
  {
  }

  lemma GrewOn(a: map<Hash, Node>, b: map<Hash, Node>, c: map<Hash, Node>)
    requires Grew(a, b) && Grew(b, c)
    ensures Grew(a, c) && forall h :: h !in b ==> h !in a
  {
  }

  /** The index gains at most the given hashes. */
  ghost predicate GrewBy(index: map<Hash, Node>, index': map<Hash, Node>, hs: set<Hash>) {
    Grew(index, index') && forall h :: h in index' && h !in index ==> h in hs
  }

  lemma GrewOnly(index: map<Hash, Node>, index': map<Hash, Node>, h: Hash)
    requires GrewBy(index, index', {h})
    ensures Grew(index, index')
  {
  }

  lemma GrewOver(index: map<Hash, Node>, index': map<Hash, Node>, h: Hash)
    requires Grew(index, index') && h in index
    ensures h in index'
  {
  }

  /** What processing a block that is no orphan does to index and pool. */
  lemma AcceptUnpooled(s: State, b: Block, v: Verdicts, orphans: map<Hash, Orphan>)
    requires Inv(s) && Consistent(orphans, s.index) && b.hash !in s.index && b.hash !in orphans
    ensures var (t, o) := Process(s, b, v);
            && Consistent(orphans, t.index) && GrewBy(s.index, t.index, {b.hash})
            && Both(orphans, t.index) == Both(orphans, s.index)
            && (b.hash in t.index <==> Accepted(o) || Broken(o))
            && Fresh(orphans, t.index, b.hash)
  {
    hide Inv, Process, Fresh, Consistent, Both, Accepted, Broken, CalcWork;
    AcceptIndex(s, b, v);
    FreshBelow(s, orphans, b.hash);
    if b.prev in s.index {
      AcceptKeeps(s.index, Process(s, b, v).0.index, orphans, b, ChildNode(b, s.index[b.prev]));
    }
    assert orphans - {b.hash} == orphans;
  }

  /** What processing an orphan whose parent is indexed does to them. */
  lemma AcceptPooled(s: State, b: Block, v: Verdicts, orphans: map<Hash, Orphan>)
    requires Inv(s) && Consistent(orphans, s.index) && b.hash !in s.index && b.prev in s.index
    requires b.hash in orphans && orphans[b.hash].block == b
    ensures var (t, o) := Process(s, b, v);
            && Consistent(orphans, t.index) && Consistent(orphans - {b.hash}, t.index) && Grew(s.index, t.index)
            && Both(orphans - {b.hash}, t.index) == Both(orphans, s.index)
            && (Broken(o) ==> Both(orphans, t.index) == Both(orphans, s.index) + {b.hash})
            && (!Broken(o) && !Accepted(o) ==> Both(orphans, t.index) == Both(orphans, s.index))
            && (Accepted(o) ==> b.hash in t.index)
            && Fresh(orphans - {b.hash}, t.index, b.hash)
            && forall q :: Fresh(orphans, s.index, q) ==> Fresh(orphans - {b.hash}, t.index, q)
  {
    hide Inv, Process, Fresh, Consistent, Both, Accepted, Broken, CalcWork;
    AcceptIndex(s, b, v);
    FreshBelow(s, orphans, b.hash);
    NotBoth(orphans, s.index, b.hash);
    AcceptKeeps(s.index, Process(s, b, v).0.index, orphans, b, ChildNode(b, s.index[b.prev]));
  }

  lemma FirstWaiting(orphans: map<Hash, Orphan>, byParent: map<Hash, seq<Orphan>>, index: map<Hash, Node>, p: Hash)
    requires Agree(orphans, byParent) && p in byParent && Fresh(orphans, index, p)
    ensures byParent[p] != [] && Holds(orphans, byParent[p][0])
    ensures byParent[p][0].block.prev == p && byParent[p][0].block.hash !in index
  {
    assert ListOk(orphans, p, byParent[p]);
    assert byParent[p][0] in byParent[p];
  }

  lemma NobodyWaits(orphans: map<Hash, Orphan>, byParent: map<Hash, seq<Orphan>>, p: Hash)
    requires Agree(orphans, byParent) && p !in byParent
    ensures NoneWaiting(orphans, p)
  {
    forall h | h in orphans
      ensures orphans[h].block.prev != p
    {
      assert Listed(byParent, orphans[h]);
    }
  }

  lemma FewerWait(orphans: map<Hash, Orphan>, h: Hash)
    ensures forall p :: NoneWaiting(orphans, p) ==> NoneWaiting(orphans - {h}, p)
  {
  }

  ghost predicate FromPool(tried: seq<Block>, orphans: map<Hash, Orphan>) {
    forall b :: b in tried ==> b.hash in orphans && orphans[b.hash].block == b
  }

  lemma Grow(root: Hash, tried: seq<Block>, b: Block, before: map<Hash, Orphan>, answers: Hash -> Verdicts)
    requires ParentFirst(root, tried) && (b.prev == root || b.prev in Hashes(tried)) && FromPool(tried, before)
    requires b.hash in before && before[b.hash].block == b
    ensures Hashes(tried + [b]) == Hashes(tried) + {b.hash}
    ensures ParentFirst(root, tried + [b]) && FromPool(tried + [b], before)
    ensures Events(tried + [b], answers) == Events(tried, answers) + [Event(b, answers(b.hash))]
  {
    var more := tried + [b];
    assert forall x :: x in more <==> x in tried || x == b;
    forall i | 0 <= i < |more|
      ensures more[i].prev == root || more[i].prev in Hashes(more[..i])
    {
      if i < |tried| {
        assert more[..i] == tried[..i];
        assert tried[i].prev == root || tried[i].prev in Hashes(tried[..i]);
      } else {
        assert more[..i] == tried;
      }
    }
  }

  lemma ShrinkByOne(before: map<Hash, Orphan>, tried: seq<Block>, b: Block)
    requires Hashes(tried + [b]) == Hashes(tried) + {b.hash}
    ensures before - Hashes(tried) - {b.hash} == before - Hashes(tried + [b])
  {
    hide Hashes;
  }

  lemma AllHashes(tried: seq<Block>)
    ensures forall b :: b in tried ==> b.hash in Hashes(tried)
  {
  }

  lemma AddConsistent(before: map<Hash, Orphan>, after: map<Hash, Orphan>, index: map<Hash, Node>, h: Hash, now: int)
    requires MadeRoom(before, after - {h}, now) && Consistent(before, index) && h !in index
    ensures Consistent(after, index) && Both(after, index) <= Both(before, index)
  {
    assert forall x :: x in after && x != h ==> x in after - {h} && (after - {h})[x] == after[x];
  }

  lemma AcceptedNotBroken(o: Outcome)
    ensures Accepted(o) ==> !Broken(o)
  {
  }

  /** The orphan that a broken reorganization leaves in index and pool, if any. */
  function Left(err: Option<Outcome>, tried: seq<Block>): set<Hash> {
    if tried != [] && err.Some? && Broken(err.value) then {tried[|tried| - 1].hash} else {}
  }

  datatype Intake =
    | Known                     // already in the index
    | Insane                    // failed the context-free checks
    | Orphaned                  // held until its parent arrives
    | Failed(outcome: Outcome)
    | OrphanFailed(outcome: Outcome)
    | Taken(outcome: Outcome)

  /** The error that the search for orphans ended in. */
  function ErrorOf(result: Intake): Option<Outcome> {
    if result.OrphanFailed? then Some(result.outcome) else None
  }

  // ---------------------------------------------------------------- the search below a block

  /** The root of a search, and then the blocks tried. */
  function HashAt(root: Hash, tried: seq<Block>, k: nat): Hash
    requires k <= |tried|
  {
    if k == 0 then root else tried[k - 1].hash
  }

  /** The parent of each block is an earlier one, at the given place, and places never go back. */
  ghost predicate Levels(root: Hash, tried: seq<Block>, parents: seq<nat>) {
    && |parents| == |tried|
    && (forall i {:trigger parents[i]} :: 0 <= i < |tried| ==>
          parents[i] <= i && tried[i].prev == HashAt(root, tried, parents[i]))
    && forall i, j :: 0 <= i < j < |tried| ==> parents[i] <= parents[j]
  }

  /** The blocks are tried breadth first: the children of one before the children of a later one. */
  ghost predicate BreadthFirst(root: Hash, tried: seq<Block>) {
    exists parents :: Levels(root, tried, parents)
  }

  function Order(root: Hash, tried: seq<Block>): seq<Hash> {
    seq(|tried| + 1, k requires 0 <= k <= |tried| => HashAt(root, tried, k))
  }

  ghost predicate Within(root: Hash, tried: seq<Block>, parents: seq<nat>, c: nat) {
    Levels(root, tried, parents) && forall i :: 0 <= i < |parents| ==> parents[i] <= c
  }

  /** The queue holds the last blocks tried, in order, and only children of what came before its head
      or of the head itself have been tried. */
  ghost predicate Fair(root: Hash, queue: seq<Hash>, tried: seq<Block>) {
    && |queue| <= |tried| + 1 == |Order(root, tried)|
    && queue == Order(root, tried)[|tried| + 1 - |queue|..]
    && var c: nat := |tried| + 1 - |queue|; exists parents :: Within(root, tried, parents, c)
  }

  lemma FairStart(root: Hash)
    ensures Fair(root, [root], [])
  {
    assert Order(root, []) == [root];
    assert Within(root, [], [], 0);
  }

  lemma OrderGrow(root: Hash, tried: seq<Block>, b: Block)
    ensures Order(root, tried + [b]) == Order(root, tried) + [b.hash]
  {
  }

  lemma LevelsGrow(root: Hash, tried: seq<Block>, parents: seq<nat>, c: nat, b: Block)
    requires Within(root, tried, parents, c) && c <= |tried| && b.prev == HashAt(root, tried, c)
    ensures Within(root, tried + [b], parents + [c], c)
  {
    hide HashAt;
    var more, all := tried + [b], parents + [c];
    forall i | 0 <= i < |more|
      ensures all[i] <= i && more[i].prev == HashAt(root, more, all[i])
    {
      if i < |tried| {
        assert all[i] == parents[i];
        HashAtPrefix(root, tried, b, parents[i]);
      } else {
        HashAtPrefix(root, tried, b, c);
      }
    }
  }

  lemma HashAtPrefix(root: Hash, tried: seq<Block>, b: Block, k: nat)
    requires k <= |tried|
    ensures HashAt(root, tried + [b], k) == HashAt(root, tried, k)
  {
  }

  lemma FairGrow(root: Hash, p: Hash, queue: seq<Hash>, tried: seq<Block>, b: Block)
    requires Fair(root, [p] + queue, tried) && b.prev == p
    ensures Fair(root, [p] + (queue + [b.hash]), tried + [b]) && BreadthFirst(root, tried + [b])
  {
    hide Levels, Within;
    var all, order := [p] + queue, Order(root, tried);
    var c := |tried| + 1 - |all|;
    var parents :| Within(root, tried, parents, c);
    assert all[0] == order[c] == HashAt(root, tried, c);
    LevelsGrow(root, tried, parents, c, b);
    WithinLevels(root, tried + [b], parents + [c], c);
    OrderGrow(root, tried, b);
    assert [p] + (queue + [b.hash]) == all + [b.hash];
    assert order[c..] + [b.hash] == (order + [b.hash])[c..];
  }

  lemma WithinLevels(root: Hash, tried: seq<Block>, parents: seq<nat>, c: nat)
    requires Within(root, tried, parents, c)
    ensures Levels(root, tried, parents) && Within(root, tried, parents, c + 1)
  {
    hide Levels;
  }

  lemma FairClose(root: Hash, p: Hash, queue: seq<Hash>, tried: seq<Block>)
    requires Fair(root, [p] + queue, tried)
    ensures Fair(root, queue, tried)
  {
    hide Levels, Within;
    var all, order := [p] + queue, Order(root, tried);
    var c := |tried| + 1 - |all|;
    var parents :| Within(root, tried, parents, c);
    WithinLevels(root, tried, parents, c);
    assert queue == all[1..] == order[c..][1..] == order[c + 1..];
  }

  lemma FairLevels(root: Hash, queue: seq<Hash>, tried: seq<Block>)
    requires Fair(root, queue, tried)
    ensures BreadthFirst(root, tried)
  {
    hide Levels, Order;
    var parents :| Within(root, tried, parents, |tried| + 1 - |queue|);
  }

  /** Where the search below `root` stands: `tried` are the orphans accepted so far, `queue` the
      hashes whose waiting orphans are still to be looked at.  Nothing waits for any other hash the
      search has reached. */
  ghost predicate Searching(orphans: map<Hash, Orphan>, index: map<Hash, Node>, root: Hash, queue: seq<Hash>,
                            tried: seq<Block>, before: map<Hash, Orphan>) {
    && orphans == before - Hashes(tried)
    && (forall q :: q in queue ==> q in index && (q == root || q in Hashes(tried)) && Fresh(orphans, index, q))
    && (forall p :: p == root || p in Hashes(tried) ==> p in queue || NoneWaiting(orphans, p))
    && ParentFirst(root, tried)
    && FromPool(tried, before)
    && Fair(root, queue, tried)
  }

  lemma StartSearch(orphans: map<Hash, Orphan>, index: map<Hash, Node>, root: Hash)
    requires root in index && Fresh(orphans, index, root)
    ensures Searching(orphans, index, root, [root], [], orphans)
  {
    assert Hashes([]) == {};
    assert orphans - Hashes([]) == orphans;
    FairStart(root);
  }

  lemma NoEvents(trace: seq<Event>, answers: Hash -> Verdicts)
    ensures trace + Events([], answers) == trace
  {
  }

  /** From a disjoint start, index and pool are disjoint again exactly when no block broke. */
  lemma DisjointAgain(both: set<Hash>, genesis: Block, trace: seq<Event>, from: nat, err: Option<Outcome>,
                      tried: seq<Block>)
    requires Reported(genesis, trace, from, err) && (err.Some? ==> tried != [])
    ensures both == {} ==>
              (both + Left(err, tried) == {} <==> forall i :: from <= i < |trace| ==> !BreaksAt(genesis, trace, i))
  {
    hide BreaksAt, Reported, Broken;
    BrokenExactly(genesis, trace, from, err);
    if err.Some? && Broken(err.value) {
      assert tried[|tried| - 1].hash in both + Left(err, tried);
    }
  }

  lemma NothingLeft(both: set<Hash>, tried: seq<Block>)
    ensures both + Left(None, tried) == both
  {
  }

  lemma Parts(orphans: map<Hash, Orphan>, index: map<Hash, Node>, root: Hash, queue: seq<Hash>, tried: seq<Block>,
              before: map<Hash, Orphan>)
    requires Searching(orphans, index, root, queue, tried, before)
    ensures ParentFirst(root, tried) && FromPool(tried, before) && BreadthFirst(root, tried)
  {
    hide Fair, BreadthFirst;
    FairLevels(root, queue, tried);
  }

  lemma NextWaiting(orphans: map<Hash, Orphan>, byParent: map<Hash, seq<Orphan>>, index: map<Hash, Node>, root: Hash,
                    p: Hash, queue: seq<Hash>, tried: seq<Block>, before: map<Hash, Orphan>)
    requires Searching(orphans, index, root, [p] + queue, tried, before)
    requires Agree(orphans, byParent) && p in byParent
    ensures byParent[p] != [] && Holds(orphans, byParent[p][0]) && p in index
    ensures byParent[p][0].block.prev == p && byParent[p][0].block.hash !in index
    ensures ParentFirst(root, tried) && FromPool(tried, before) && (p == root || p in Hashes(tried))
    ensures Holds(before, byParent[p][0]) && orphans == before - Hashes(tried)
    ensures BreadthFirst(root, tried + [byParent[p][0].block])
  {
    hide Agree, Fresh, NoneWaiting, Hashes, ParentFirst, FromPool, Fair, BreadthFirst;
    assert p in [p] + queue;
    FirstWaiting(orphans, byParent, index, p);
    FairGrow(root, p, queue, tried, byParent[p][0].block);
  }

  lemma Advance(orphans: map<Hash, Orphan>, index: map<Hash, Node>, index': map<Hash, Node>, root: Hash, p: Hash,
                queue: seq<Hash>, tried: seq<Block>, b: Block, before: map<Hash, Orphan>)
    requires Searching(orphans, index, root, [p] + queue, tried, before)
    requires Hashes(tried + [b]) == Hashes(tried) + {b.hash}
    requires ParentFirst(root, tried + [b]) && FromPool(tried + [b], before) && b.prev == p
    requires Grew(index, index') && b.hash in index' && Fresh(orphans - {b.hash}, index', b.hash)
    requires forall q :: Fresh(orphans, index, q) ==> Fresh(orphans - {b.hash}, index', q)
    ensures Searching(orphans - {b.hash}, index', root, [p] + (queue + [b.hash]), tried + [b], before)
  {
    hide Fresh, NoneWaiting, Hashes, ParentFirst, FromPool, Fair, BreadthFirst;
    FairGrow(root, p, queue, tried, b);
    ShrinkByOne(before, tried, b);
    FewerWait(orphans, b.hash);
    assert forall q :: q in [p] + (queue + [b.hash]) <==> q in [p] + queue || q == b.hash;
  }

  lemma CloseHash(orphans: map<Hash, Orphan>, index: map<Hash, Node>, root: Hash, p: Hash, queue: seq<Hash>,
                  tried: seq<Block>, before: map<Hash, Orphan>)
    requires Searching(orphans, index, root, [p] + queue, tried, before) && NoneWaiting(orphans, p)
    ensures Searching(orphans, index, root, queue, tried, before) && ParentFirst(root, tried) && FromPool(tried, before)
    ensures BreadthFirst(root, tried)
  {
    hide Fresh, NoneWaiting, Hashes, ParentFirst, FromPool, Fair, BreadthFirst;
    FairClose(root, p, queue, tried);
    FairLevels(root, queue, tried);
    assert forall q :: q in [p] + queue <==> q == p || q in queue;
  }

  lemma EndSearch(orphans: map<Hash, Orphan>, index: map<Hash, Node>, root: Hash, tried: seq<Block>,
                  before: map<Hash, Orphan>)
    requires Searching(orphans, index, root, [], tried, before)
    ensures orphans == before - Hashes(tried) && ParentFirst(root, tried) && FromPool(tried, before)
    ensures NoneWaiting(orphans, root) && forall b :: b in tried ==> NoneWaiting(orphans, b.hash)
  {
    hide NoneWaiting, ParentFirst, FromPool, Fair;
    AllHashes(tried);
  }

  // ---------------------------------------------------------------- orphans whose parent has arrived

  /** No orphan's parent is indexed. */
  ghost predicate Unblocked(orphans: map<Hash, Orphan>, index: map<Hash, Node>) {
    forall h :: h in orphans ==> orphans[h].block.prev !in index
  }

  lemma IndexedByTrace(genesis: Block, trace: seq<Event>, events: seq<Event>, hs: set<Hash>)
    requires forall e :: e in events ==> e.block.hash in hs
    ensures var s, t := Run(Genesis(genesis), trace), Run(Genesis(genesis), trace + events);
            forall h :: h in t.index && h !in s.index ==> h in hs
  {
    hide Run, Genesis, Inv;
    var s, t := Run(Genesis(genesis), trace), Run(Genesis(genesis), trace + events);
    GenesisInv(genesis);
    RunInv(Genesis(genesis), trace);
    RunSplit(Genesis(genesis), trace, events);
    forall h | h in t.index && h !in s.index
      ensures h in hs
    {
      RunNodes(s, events, h);
      var i :| 0 <= i < |events| && Brought(events[i], t.index[h]);
      assert events[i] in events;
    }
  }

  lemma EventHashes(tried: seq<Block>, answers: Hash -> Verdicts)
    ensures forall e :: e in Events(tried, answers) ==> e.block.hash in Hashes(tried)
  {
  }

  /** After a search that met no error the orphans left have no indexed parent, if none had before. */
  lemma UnblockedAfter(before: map<Hash, Orphan>, orphans: map<Hash, Orphan>, index: map<Hash, Node>,
                       index': map<Hash, Node>, root: Hash, tried: seq<Block>)
    requires Unblocked(before, index) && GrewBy(index, index', Hashes(tried) + {root})
    requires orphans == before - Hashes(tried) && NoneWaiting(orphans, root)
    requires forall b :: b in tried ==> NoneWaiting(orphans, b.hash)
    ensures Unblocked(orphans, index')
  {
    forall h | h in orphans
      ensures orphans[h].block.prev !in index'
    {
      assert before[h].block.prev !in index;
    }
  }

  /** After one block of its own, only the orphans that wait for it have one. */
  lemma UnblockedByOne(orphans: map<Hash, Orphan>, index: map<Hash, Node>, index': map<Hash, Node>, h: Hash)
    requires Unblocked(orphans, index) && GrewBy(index, index', {h})
    ensures Unblocked(orphans, index') <==> h !in index' || NoneWaiting(orphans, h)
  {
    if h in index' && !NoneWaiting(orphans, h) {
      var x :| x in orphans && orphans[x].block.prev == h;
      assert !Unblocked(orphans, index');
    }
  }

  lemma UnblockedAdded(before: map<Hash, Orphan>, after: map<Hash, Orphan>, index: map<Hash, Node>, b: Block, now: int)
    requires MadeRoom(before, after - {b.hash}, now) && Holds(after, Orphan(b, now + ONE_HOUR))
    requires Unblocked(before, index) && b.prev !in index
    ensures Unblocked(after, index)
  {
    hide Live;
    assert forall x :: x in after && x != b.hash ==> x in after - {b.hash} && (after - {b.hash})[x] == after[x];
  }

  /** What the results of an intake say about the blocks it processed from the n-th on. */
  ghost predicate Told(genesis: Block, trace: seq<Event>, n: nat, result: Intake) {
    match result
    case Failed(o) => |trace| == n + 1 && o == OutcomeAt(genesis, trace, n) && !Accepted(o)
    case OrphanFailed(o) =>
      n < |trace| && Accepted(OutcomeAt(genesis, trace, n)) && Reported(genesis, trace, n + 1, Some(o))
    case Taken(o) =>
      n < |trace| && o == OutcomeAt(genesis, trace, n) && Accepted(o) && Reported(genesis, trace, n + 1, None)
    case _ => |trace| == n
  }

  /** What is left of the pool: all but the orphans tried, and the last of those too if it failed. */
  function PoolLeft(before: map<Hash, Orphan>, tried: seq<Block>, failed: bool): map<Hash, Orphan> {
    before - Hashes(if failed && tried != [] then tried[..|tried| - 1] else tried)
  }

  /** What holding a block does to the pool: nothing if it is there; or it is added where room was made. */
  ghost predicate Pooled(before: map<Hash, Orphan>, after: map<Hash, Orphan>, b: Block, now: int) {
    if b.hash in before then after == before
    else Holds(after, Orphan(b, now + ONE_HOUR)) && MadeRoom(before, after - {b.hash}, now)
  }

  lemma WholePool(before: map<Hash, Orphan>, tried: seq<Block>)
    ensures PoolLeft(before, tried, false) == before - Hashes(tried)
  {
  }

  /** Whether the block was processed, and broke. */
  predicate Stuck(result: Intake) {
    result.Failed? && Broken(result.outcome)
  }

  /** Whether the block got as far as being processed. */
  predicate Processed(result: Intake) {
    result.Failed? || result.OrphanFailed? || result.Taken?
  }

  lemma KeepOutcome(genesis: Block, trace: seq<Event>, events: seq<Event>, i: nat)
    requires i < |trace|
    ensures OutcomeAt(genesis, trace + events, i) == OutcomeAt(genesis, trace, i)
  {
    hide Process, Run;
    assert (trace + events)[..i] == trace[..i];
  }

  lemma NothingTried(root: Hash, orphans: map<Hash, Orphan>, trace: seq<Event>, answers: Hash -> Verdicts)
    ensures ParentFirst(root, []) && BreadthFirst(root, []) && FromPool([], orphans)
    ensures trace + Events([], answers) == trace
    ensures PoolLeft(orphans, [], false) == orphans
  {
    assert Hashes([]) == {};
    assert Levels(root, [], []);
  }

  lemma IndexBound(genesis: Block, trace: seq<Event>, block: Block, tried: seq<Block>, answers: Hash -> Verdicts,
                   index: map<Hash, Node>, index': map<Hash, Node>)
    requires index == Run(Genesis(genesis), trace).index && Grew(index, index')
    requires index' == Run(Genesis(genesis), trace + [Event(block, answers(block.hash))] + Events(tried, answers)).index
    ensures GrewBy(index, index', Hashes(tried) + {block.hash})
  {
    hide Run, Genesis, Hashes, Events, Grew;
    var events := [Event(block, answers(block.hash))] + Events(tried, answers);
    EventHashes(tried, answers);
    assert forall e :: e in events ==> e == events[0] || e in Events(tried, answers);
    assert trace + events == trace + [Event(block, answers(block.hash))] + Events(tried, answers);
    IndexedByTrace(genesis, trace, events, Hashes(tried) + {block.hash});
  }

  class Processor {
    const chain: Chain
    const pool: Pool

    ghost predicate Valid()
      reads this, chain, pool
    {
      chain.Valid() && pool.Valid() && Consistent(pool.orphans, chain.index)
    }

    constructor (genesis: Block)
      ensures Valid() && fresh(chain) && fresh(pool)
      ensures chain.genesis == genesis && chain.trace == [] && pool.orphans == map[]
    {
      chain := new Chain(genesis);
      pool := new Pool();
    }

    /** The chain is what its history makes it. */
    lemma ViewRun()
      requires Valid()
      ensures chain.View() == Run(Genesis(chain.genesis), chain.trace)
    {
    }

    lemma IndexRun()
      requires Valid()
      ensures chain.index == Run(Genesis(chain.genesis), chain.trace).index
    {
    }

    /** Accepts one orphan waiting for an indexed parent. */
    method AcceptOrphan(orphan: Orphan, v: Verdicts) returns (o: Outcome)
      requires Valid() && Holds(pool.orphans, orphan)
      requires orphan.block.hash !in chain.index && orphan.block.prev in chain.index
      modifies chain, pool
      ensures Valid()
      ensures chain.trace == old(chain.trace) + [Event(orphan.block, v)]
      ensures o == Process(old(chain.View()), orphan.block, v).1 ==
                OutcomeAt(chain.genesis, chain.trace, |old(chain.trace)|)
      ensures Grew(old(chain.index), chain.index)
      ensures !Accepted(o) ==> pool.orphans == old(pool.orphans)
      ensures Broken(o) ==>
                Both(pool.orphans, chain.index) == old(Both(pool.orphans, chain.index)) + {orphan.block.hash}
      ensures !Broken(o) ==> Both(pool.orphans, chain.index) == old(Both(pool.orphans, chain.index))
      ensures Accepted(o) ==>
                && orphan.block.hash in chain.index
                && pool.orphans == old(pool.orphans) - {orphan.block.hash}
                && Fresh(pool.orphans, chain.index, orphan.block.hash)
                && forall q :: old(Fresh(pool.orphans, chain.index, q)) ==> Fresh(pool.orphans, chain.index, q)
    {
      hide Inv, Process, Run, Agree, Unlist, Consistent, Fresh, Both, Genesis, Chain.Valid, OutcomeAt, Accepted;
      hide Broken, Grew;
      chain.ValidInv();
      ViewRun();
      LastOutcome(chain.genesis, chain.trace, Event(orphan.block, v));
      AcceptPooled(chain.View(), orphan.block, v, pool.orphans);
      o := chain.MaybeAcceptBlock(orphan.block, v);
      AcceptedNotBroken(o);
      if Accepted(o) {
        pool.RemoveOrphanBlock(orphan);
      }
    }

    /** Accepts the first orphan waiting for p. */
    method AcceptNext(p: Hash, queue: seq<Hash>, ghost root: Hash, ghost tried: seq<Block>,
                      ghost before: map<Hash, Orphan>, ghost start: seq<Event>, answers: Hash -> Verdicts)
      returns (o: Outcome, queue': seq<Hash>, ghost b: Block)
      requires Valid() && Searching(pool.orphans, chain.index, root, [p] + queue, tried, before)
      requires p in pool.prevOrphans && chain.trace == start + Events(tried, answers)
      requires Reported(chain.genesis, chain.trace, |start|, None)
      modifies chain, pool
      ensures Valid() && ParentFirst(root, tried + [b]) && FromPool(tried + [b], before)
      ensures BreadthFirst(root, tried + [b])
      ensures b.hash !in old(chain.index) && b.prev in chain.index
      ensures Broken(o) ==> Both(pool.orphans, chain.index) == old(Both(pool.orphans, chain.index)) + {b.hash}
      ensures !Broken(o) ==> Both(pool.orphans, chain.index) == old(Both(pool.orphans, chain.index))
      ensures chain.trace == start + Events(tried + [b], answers)
      ensures Reported(chain.genesis, chain.trace, |start|, if Accepted(o) then None else Some(o))
      ensures Grew(old(chain.index), chain.index)
      ensures !Accepted(o) ==> pool.orphans == before - Hashes(tried) && b.hash in pool.orphans
      ensures Accepted(o) ==>
                && Searching(pool.orphans, chain.index, root, [p] + queue', tried + [b], before)
                && |pool.orphans| < |old(pool.orphans)|
    {
      hide Agree, Consistent, Fresh, Searching, ParentFirst, BreadthFirst, Chain.Valid, Unlist, Events, FromPool;
      hide Both, Accepted;
      hide Broken;
      hide Reported, OutcomeAt, Hashes, Grew;
      ghost var orphans, index, trace := pool.orphans, chain.index, chain.trace;
      NextWaiting(orphans, pool.prevOrphans, index, root, p, queue, tried, before);
      var orphan := pool.prevOrphans[p][0];
      b := orphan.block;
      Grow(root, tried, b, before, answers);
      RemoveShrinks(orphans, b.hash);
      o := AcceptOrphan(orphan, answers(orphan.block.hash));
      ReportMore(chain.genesis, trace, |start|, Event(b, answers(b.hash)), o);
      GrewOver(index, chain.index, p);
      queue' := queue + [orphan.block.hash];
      if Accepted(o) {
        Advance(orphans, index, chain.index, root, p, queue, tried, b, before);
      }
    }

    /** The last orphan tried is new to the index it met, is still in the pool, and waits for an indexed
        block; the orphans tried before it are gone. */
    ghost predicate LastFailed(tried: seq<Block>, before: map<Hash, Orphan>, index: map<Hash, Node>)
      reads this, chain, pool
    {
      && tried != [] && tried[|tried| - 1].hash !in index && tried[|tried| - 1].prev in chain.index
      && tried[|tried| - 1].hash in pool.orphans && pool.orphans == before - Hashes(tried[..|tried| - 1])
    }

    /** An orphan that failed is blocked no more, and stays. */
    lemma LastBlocked(tried: seq<Block>, before: map<Hash, Orphan>, index1: map<Hash, Node>, index: map<Hash, Node>)
      requires LastFailed(tried, before, index1) && FromPool(tried, before) && Grew(index, index1)
      ensures LastFailed(tried, before, index) && !Unblocked(pool.orphans, chain.index)
      ensures pool.orphans == PoolLeft(before, tried, true)
    {
      hide Hashes;
      var last := tried[|tried| - 1];
      assert pool.orphans[last.hash].block == last;
    }

    /** Accepts the orphans waiting for p, one after the other. */
    method AcceptWaiting(p: Hash, queue: seq<Hash>, ghost root: Hash, ghost tried: seq<Block>,
                         ghost before: map<Hash, Orphan>, ghost start: seq<Event>, answers: Hash -> Verdicts)
      returns (err: Option<Outcome>, queue': seq<Hash>, ghost tried': seq<Block>)
      requires Valid() && Searching(pool.orphans, chain.index, root, [p] + queue, tried, before)
      requires chain.trace == start + Events(tried, answers)
      requires Reported(chain.genesis, chain.trace, |start|, None)
      modifies chain, pool
      ensures Valid() && ParentFirst(root, tried') && FromPool(tried', before) && BreadthFirst(root, tried')
      ensures chain.trace == start + Events(tried', answers)
      ensures Reported(chain.genesis, chain.trace, |start|, err)
      ensures Grew(old(chain.index), chain.index)
      ensures err.None? ==> Both(pool.orphans, chain.index) == old(Both(pool.orphans, chain.index))
      ensures err.Some? ==> Both(pool.orphans, chain.index) == old(Both(pool.orphans, chain.index)) + Left(err, tried')
      ensures err.Some? ==> LastFailed(tried', before, old(chain.index))
      ensures err.None? ==> Searching(pool.orphans, chain.index, root, queue', tried', before)
      ensures err.None? ==>
                |pool.orphans| < |old(pool.orphans)| || (|pool.orphans| == |old(pool.orphans)| && queue' == queue)
    {
      hide Valid, Fresh, NoneWaiting, Hashes, ParentFirst, BreadthFirst, FromPool, Events, Searching, Both, Accepted;
      hide Grew, Reported;
      queue', tried', err := queue, tried, None;
      GrewNot(chain.index);
      while p in pool.prevOrphans
        invariant Valid() && Searching(pool.orphans, chain.index, root, [p] + queue', tried', before)
        invariant chain.trace == start + Events(tried', answers)
        invariant Reported(chain.genesis, chain.trace, |start|, None)
        invariant Grew(old(chain.index), chain.index)
        invariant Both(pool.orphans, chain.index) == old(Both(pool.orphans, chain.index))
        invariant |pool.orphans| < |old(pool.orphans)| || (|pool.orphans| == |old(pool.orphans)| && queue' == queue)
        decreases |pool.orphans|
      {
        var o;
        ghost var b;
        ghost var index := chain.index;
        o, queue', b := AcceptNext(p, queue', root, tried', before, start, answers);
        tried' := tried' + [b];
        GrewOn(old(chain.index), index, chain.index);
        AcceptedNotBroken(o);
        if !Accepted(o) {
          assert tried'[..|tried'| - 1] + [b] == tried';
          return Some(o), queue', tried';
        }
      }
      NoneLeft(p);
      CloseHash(pool.orphans, chain.index, root, p, queue', tried', before);
    }

    lemma NoneLeft(p: Hash)
      requires Valid() && p !in pool.prevOrphans
      ensures NoneWaiting(pool.orphans, p)
    {
      NobodyWaits(pool.orphans, pool.prevOrphans, p);
    }

    /** The loop over the hashes whose waiting orphans are still to be looked at. */
    method WorkThrough(hash: Hash, answers: Hash -> Verdicts) returns (err: Option<Outcome>, ghost tried: seq<Block>)
      requires Valid() && Searching(pool.orphans, chain.index, hash, [hash], [], pool.orphans)
      modifies chain, pool
      ensures Valid() && ParentFirst(hash, tried) && FromPool(tried, old(pool.orphans)) && BreadthFirst(hash, tried)
      ensures chain.trace == old(chain.trace) + Events(tried, answers)
      ensures Reported(chain.genesis, chain.trace, |old(chain.trace)|, err)
      ensures Grew(old(chain.index), chain.index)
      ensures err.Some? ==> LastFailed(tried, old(pool.orphans), old(chain.index))
      ensures err.None? ==> Both(pool.orphans, chain.index) == old(Both(pool.orphans, chain.index))
      ensures err.Some? ==> Both(pool.orphans, chain.index) == old(Both(pool.orphans, chain.index)) + Left(err, tried)
      ensures err.None? ==> Searching(pool.orphans, chain.index, hash, [], tried, old(pool.orphans))
    {
      hide Valid, ParentFirst, BreadthFirst, FromPool, Events, Searching, Both, Accepted, Left, Grew, Reported, Hashes;
      tried := [];
      GrewNot(chain.index);
      err := None;
      NoEvents(chain.trace, answers);
      ReportNothing(chain.genesis, chain.trace);
      Parts(pool.orphans, chain.index, hash, [hash], [], pool.orphans);
      var queue := [hash];
      while queue != []
        invariant err == None
        invariant Valid() && ParentFirst(hash, tried) && FromPool(tried, old(pool.orphans)) && BreadthFirst(hash, tried)
        invariant Searching(pool.orphans, chain.index, hash, queue, tried, old(pool.orphans))
        invariant chain.trace == old(chain.trace) + Events(tried, answers)
        invariant Reported(chain.genesis, chain.trace, |old(chain.trace)|, None)
        invariant Grew(old(chain.index), chain.index)
        invariant Both(pool.orphans, chain.index) == old(Both(pool.orphans, chain.index))
        decreases |pool.orphans|, |queue|
      {
        var p := queue[0];
        assert [p] + queue[1..] == queue;
        queue := queue[1..];
        ghost var index := chain.index;
        err, queue, tried := AcceptWaiting(p, queue, hash, tried, old(pool.orphans), old(chain.trace), answers);
        GrewOn(old(chain.index), index, chain.index);
        if err.Some? {
          return;
        }
      }
    }

    /** Accepts the orphans below a block that was just accepted, breadth first.  It ends, takes
        every orphan after its parent, and on success leaves none waiting for the given block or for
        one it accepted.  Index and pool stay as disjoint as they were, unless one of the orphans
        starts a reorganization that is obstructed: then that orphan, the last one tried, is in both. */
    method ProcessOrphans(hash: Hash, answers: Hash -> Verdicts) returns (err: Option<Outcome>, ghost tried: seq<Block>)
      requires Valid() && hash in chain.index && Fresh(pool.orphans, chain.index, hash)
      modifies chain, pool
      ensures Valid()
      ensures chain.trace == old(chain.trace) + Events(tried, answers)
      ensures Reported(chain.genesis, chain.trace, |old(chain.trace)|, err)
      ensures ParentFirst(hash, tried) && BreadthFirst(hash, tried) && FromPool(tried, old(pool.orphans))
      ensures Grew(old(chain.index), chain.index)
      ensures Both(pool.orphans, chain.index) == old(Both(pool.orphans, chain.index)) + Left(err, tried)
      ensures old(Both(pool.orphans, chain.index)) == {} ==>
                (Both(pool.orphans, chain.index) == {} <==>
                   forall i :: |old(chain.trace)| <= i < |chain.trace| ==> !BreaksAt(chain.genesis, chain.trace, i))
      ensures err.Some? ==> LastFailed(tried, old(pool.orphans), old(chain.index))
      ensures err.None? ==>
                && pool.orphans == old(pool.orphans) - Hashes(tried)
                && NoneWaiting(pool.orphans, hash)
                && forall b :: b in tried ==> NoneWaiting(pool.orphans, b.hash)
    {
      hide Valid, Fresh, NoneWaiting, Hashes, ParentFirst, BreadthFirst, FromPool, Events, Searching, Both, Accepted;
      hide Left, Broken;
      hide Reported, BreaksAt, Grew;
      StartSearch(pool.orphans, chain.index, hash);
      err, tried := WorkThrough(hash, answers);
      DisjointAgain(old(Both(pool.orphans, chain.index)), chain.genesis, chain.trace, |old(chain.trace)|, err, tried);
      if err.None? {
        EndSearch(pool.orphans, chain.index, hash, tried, old(pool.orphans));
        NothingLeft(old(Both(pool.orphans, chain.index)), tried);
      }
    }

    /** Accepts a block that is not an orphan. */
    method AcceptNew(block: Block, v: Verdicts) returns (o: Outcome)
      requires Valid() && block.hash !in pool.orphans && block.hash !in chain.index
      modifies chain
      ensures Valid() && chain.trace == old(chain.trace) + [Event(block, v)]
      ensures o == Process(old(chain.View()), block, v).1 == OutcomeAt(chain.genesis, chain.trace, |old(chain.trace)|)
      ensures Both(pool.orphans, chain.index) == old(Both(pool.orphans, chain.index))
      ensures GrewBy(old(chain.index), chain.index, {block.hash})
      ensures block.hash in chain.index <==> Accepted(o) || Broken(o)
      ensures Accepted(o) ==> Fresh(pool.orphans, chain.index, block.hash)
    {
      hide Inv, Process, Run, Agree, Consistent, Fresh, Both, Genesis, Chain.Valid, OutcomeAt, Accepted, Broken, GrewBy;
      chain.ValidInv();
      ViewRun();
      LastOutcome(chain.genesis, chain.trace, Event(block, v));
      AcceptUnpooled(chain.View(), block, v, pool.orphans);
      o := chain.MaybeAcceptBlock(block, v);
    }

    method KnownBlock(hash: Hash) returns (r: bool)
      requires Valid()
      ensures r <==> hash in chain.index
    {
      chain.ValidInv();
      r := chain.BlockExists(hash);
    }

    /** Accepts a block and the orphans it sets free.  Afterwards no orphan's parent is indexed, if none
        was before, exactly when no orphan failed and nothing waits for a block that broke. */
    method TakeIn(block: Block, answers: Hash -> Verdicts) returns (result: Intake, ghost tried: seq<Block>)
      requires Valid() && block.hash !in pool.orphans && block.hash !in chain.index
      modifies chain, pool
      ensures Valid()
      ensures result.Failed? || result.OrphanFailed? || result.Taken?
      ensures chain.trace == old(chain.trace) + [Event(block, answers(block.hash))] + Events(tried, answers)
      ensures Told(chain.genesis, chain.trace, |old(chain.trace)|, result)
      ensures ParentFirst(block.hash, tried) && BreadthFirst(block.hash, tried) && FromPool(tried, old(pool.orphans))
      ensures pool.orphans == PoolLeft(old(pool.orphans), tried, result.OrphanFailed?)
      ensures Both(pool.orphans, chain.index) == old(Both(pool.orphans, chain.index)) + Left(ErrorOf(result), tried)
      ensures result.OrphanFailed? ==> LastFailed(tried, old(pool.orphans), old(chain.index))
      ensures result.Taken? ==>
                && block.hash in chain.index && NoneWaiting(pool.orphans, block.hash)
                && forall b :: b in tried ==> NoneWaiting(pool.orphans, b.hash)
      ensures old(Both(pool.orphans, chain.index)) == {} ==>
                (Both(pool.orphans, chain.index) == {} <==>
                   forall i :: |old(chain.trace)| < i < |chain.trace| ==> !BreaksAt(chain.genesis, chain.trace, i))
      ensures old(Unblocked(pool.orphans, chain.index)) ==>
                (Unblocked(pool.orphans, chain.index) <==>
                   !result.OrphanFailed? && (Stuck(result) ==> NoneWaiting(pool.orphans, block.hash)))
    {
      hide Valid, Fresh, NoneWaiting, Events, ParentFirst, BreadthFirst, Hashes, FromPool, Both, Unblocked, Reported;
      hide OutcomeAt;
      hide GrewBy;
      hide Grew, Left, Run, Genesis, LastFailed, PoolLeft, BreaksAt;
      ghost var orphans, index, trace := pool.orphans, chain.index, chain.trace;
      IndexRun();
      var o := AcceptNew(block, answers(block.hash));
      ghost var index1, trace1 := chain.index, chain.trace;
      GrewOnly(index, index1, block.hash);
      if !Accepted(o) {
        NothingTried(block.hash, orphans, trace1, answers);
        NothingLeft(Both(orphans, index), []);
        if Unblocked(orphans, index) {
          UnblockedByOne(orphans, index, index1, block.hash);
        }
        return Failed(o), [];
      }
      var err;
      err, tried := ProcessOrphans(block.hash, answers);
      result := if err.Some? then OrphanFailed(err.value) else Taken(o);
      KeepOutcome(chain.genesis, trace1, Events(tried, answers), |trace|);
      if err.Some? {
        LastBlocked(tried, orphans, index1, index);
      } else {
        WholePool(orphans, tried);
        GrewOver(index1, chain.index, block.hash);
        if Unblocked(orphans, index) {
          IndexRun();
          GrewOn(index, index1, chain.index);
          IndexBound(chain.genesis, trace, block, tried, answers, index, chain.index);
          UnblockedAfter(orphans, pool.orphans, index, chain.index, block.hash, tried);
        }
      }
    }

    /** Takes in one block from outside.  What it does to the chain is in the chain's history; what it
        does to the pool, in the orphans tried.  An orphan whose parent is indexed stays behind exactly
        when an orphan failed or something waits for a block that broke. */
    method ProcessBlock(block: Block, sane: bool, now: int, answers: Hash -> Verdicts)
      returns (result: Intake, ghost tried: seq<Block>)
      requires Valid()
      modifies chain, pool
      ensures Valid()
      ensures result == Known <==> block.hash in old(chain.index)
      ensures result == Insane <==> block.hash !in old(chain.index) && block.hash !in old(pool.orphans) && !sane
      ensures result == Orphaned <==>
                && block.hash !in old(chain.index)
                && (block.hash in old(pool.orphans) ||
                      (sane && block.prev != EMPTY_HASH && block.prev !in old(chain.index)))
      ensures Processed(result) ==>
                chain.trace == old(chain.trace) + [Event(block, answers(block.hash))] + Events(tried, answers)
      ensures !Processed(result) ==> chain.trace == old(chain.trace) && tried == []
      ensures Told(chain.genesis, chain.trace, |old(chain.trace)|, result)
      ensures ParentFirst(block.hash, tried) && BreadthFirst(block.hash, tried) && FromPool(tried, old(pool.orphans))
      ensures result != Orphaned ==> pool.orphans == PoolLeft(old(pool.orphans), tried, result.OrphanFailed?)
      ensures result == Orphaned ==> Pooled(old(pool.orphans), pool.orphans, block, now)
      ensures result != Orphaned ==>
                Both(pool.orphans, chain.index) == old(Both(pool.orphans, chain.index)) + Left(ErrorOf(result), tried)
      ensures result == Orphaned ==> Both(pool.orphans, chain.index) <= old(Both(pool.orphans, chain.index))
      ensures result.OrphanFailed? ==> LastFailed(tried, old(pool.orphans), old(chain.index))
      ensures result.Taken? ==>
                && block.hash in chain.index && NoneWaiting(pool.orphans, block.hash)
                && forall b :: b in tried ==> NoneWaiting(pool.orphans, b.hash)
      ensures old(Both(pool.orphans, chain.index)) == {} ==>
                (Both(pool.orphans, chain.index) == {} <==>
                   forall i :: |old(chain.trace)| < i < |chain.trace| ==> !BreaksAt(chain.genesis, chain.trace, i))
      ensures old(Unblocked(pool.orphans, chain.index)) ==>
                (Unblocked(pool.orphans, chain.index) <==>
                   !result.OrphanFailed? && (Stuck(result) ==> NoneWaiting(pool.orphans, block.hash)))
    {
      hide Valid, Fresh, NoneWaiting, Both, Accepted, Broken, Unblocked, ParentFirst, BreadthFirst, FromPool;
      hide PoolLeft, Events;
      hide Reported;
      hide OutcomeAt, LastFailed, Hashes, Left, Holds, MadeRoom, BreaksAt;
      NothingTried(block.hash, pool.orphans, chain.trace, answers);
      NothingLeft(Both(pool.orphans, chain.index), []);
      tried := [];
      var known := KnownBlock(block.hash);
      if known {
        return Known, [];
      }
      if block.hash in pool.orphans {
        return Orphaned, [];
      }
      if !sane {
        return Insane, [];
      }
      if block.prev != EMPTY_HASH {
        var parentKnown := KnownBlock(block.prev);
        if !parentKnown {
          AddOrphan(block, now);
          return Orphaned, [];
        }
      }
      result, tried := TakeIn(block, answers);
    }

    /** Holds a block until its parent arrives. */
    method AddOrphan(block: Block, now: int)
      requires Valid() && block.hash !in pool.orphans && block.hash !in chain.index
      modifies pool
      ensures Valid() && Pooled(old(pool.orphans), pool.orphans, block, now)
      ensures Both(pool.orphans, chain.index) <= old(Both(pool.orphans, chain.index))
      ensures old(Unblocked(pool.orphans, chain.index)) && block.prev !in chain.index ==>
                Unblocked(pool.orphans, chain.index)
    {
      hide Chain.Valid, Agree, Consistent, MadeRoom, Both, Unblocked;
      ghost var before := pool.orphans;
      pool.AddOrphanBlock(block, now);
      AddConsistent(before, pool.orphans, chain.index, block.hash, now);
      if Unblocked(before, chain.index) && block.prev !in chain.index {
        UnblockedAdded(before, pool.orphans, chain.index, block, now);
      }
    }
  }

  // ---------------------------------------------------------------- an orphan in both places

  /** Answers that refuse block 4 and nothing else. */
  function RefuseFour(): Verdicts {
    Verdicts(h => h != 4, _ => true, (_, _) => false)
  }

  lemma ForkStates(bits: Uint32)
    requires CalcWork(bits) > 0
    ensures var genesis, v := Block(1, 0, 0, bits, 0), RefuseFour();
            var e2, e3 := Event(Block(2, 1, 1, bits, 0), v), Event(Block(3, 1, 1, bits, 0), v);
            var s2, s3 := Run(Genesis(genesis), [e2]), Run(Genesis(genesis), [e2, e3]);
            && s2.index.Keys == {1, 2}
            && Process(s2, e3.block, v).1 == SideChain
            && Broken(Process(s3, Block(4, 3, 2, bits, 0), v).1)
  {
    hide CalcWork, Path, CommonLen, Reorganize, Shared, Inv;
    var v := RefuseFour();
    var g := Genesis(Block(1, 0, 0, bits, 0));
    var e2, e3 := Event(Block(2, 1, 1, bits, 0), v), Event(Block(3, 1, 1, bits, 0), v);
    assert [e2, e3][..1] == [e2] && [e2][..0] == [];
    assert Run(g, []) == g;
    assert Run(g, [e2]) == Extend(g, e2.block);
    var s := Run(g, [e2, e3]);
    assert s == Process(Run(g, [e2]), e3.block, v).0 == StoreSide(Extend(g, e2.block), e3.block, g.best);
    GenesisInv(Block(1, 0, 0, bits, 0));
    RunInv(g, [e2, e3]);
    RefusedStaysIndexed(s, Block(4, 3, 2, bits, 0), v);
  }

  lemma GenesisOnly(b: Block)
    ensures Run(Genesis(b), []).index.Keys == {b.hash}
  {
  }

  lemma PooledKeys(before: map<Hash, Orphan>, after: map<Hash, Orphan>, b: Block, now: int)
    requires Pooled(before, after, b, now)
    ensures forall h :: h in after ==> h in before || h == b.hash
  {
    if b.hash !in before {
      NoNewOrphans(before, after - {b.hash}, now);
      assert forall h :: h in after && h != b.hash ==> h in after - {b.hash};
    }
  }

  lemma OnlyFour(orphans: map<Hash, Orphan>, b: Block)
    requires b.hash == 4 && Pooled(map[], orphans, b, 0)
    ensures orphans.Keys == {4} && orphans[4].block == b
  {
    hide MadeRoom;
    PooledKeys(map[], orphans, b, 0);
  }

  lemma HeadHash(blocks: seq<Block>)
    ensures blocks != [] ==> blocks[0] in blocks && blocks[0].hash in Hashes(blocks)
  {
  }

  lemma TriedFour(before: map<Hash, Orphan>, tried: seq<Block>, b: Block, failed: bool)
    requires before.Keys == {4} && before[4].block == b && b.hash == 4 && FromPool(tried, before)
    requires failed ==> tried != [] && tried[|tried| - 1].hash in PoolLeft(before, tried, true)
    requires !failed ==> NoneWaiting(PoolLeft(before, tried, false), b.prev)
    ensures tried != [] && tried[0] == b && (failed ==> tried == [b])
  {
    assert forall i :: 0 <= i < |tried| ==> tried[i] in tried;
    if failed {
      HeadHash(tried[..|tried| - 1]);
    } else {
      assert 4 !in PoolLeft(before, tried, false);
      assert 4 in Hashes(tried);
    }
  }

  /** Block 3 is taken for a side block, and 4 fails after it. */
  lemma FourFails(bits: Uint32, trace: seq<Event>, before: map<Hash, Orphan>, tried: seq<Block>, r: Intake,
                  answers: Hash -> Verdicts)
    requires CalcWork(bits) > 0 && before.Keys == {4} && before[4].block == Block(4, 3, 2, bits, 0)
    requires var v := RefuseFour();
             && trace == [Event(Block(2, 1, 1, bits, 0), v)] + [Event(Block(3, 1, 1, bits, 0), v)] +
                         Events(tried, answers)
             && answers(4) == v
    requires Processed(r) && Told(Block(1, 0, 0, bits, 0), trace, 1, r) && FromPool(tried, before)
    requires r.OrphanFailed? ==> tried != [] && tried[|tried| - 1].hash in PoolLeft(before, tried, true)
    requires r.Taken? ==> NoneWaiting(PoolLeft(before, tried, false), 3)
    ensures Left(ErrorOf(r), tried) == {4}
  {
    hide CalcWork, Process, Run, Genesis, FromPool, PoolLeft, NoneWaiting;
    var v, b4 := RefuseFour(), Block(4, 3, 2, bits, 0);
    var e2, e3 := Event(Block(2, 1, 1, bits, 0), v), Event(Block(3, 1, 1, bits, 0), v);
    ForkStates(bits);
    assert trace[..1] == [e2] && trace[1] == e3;
    assert OutcomeAt(Block(1, 0, 0, bits, 0), trace, 1) == SideChain;
    TriedFour(before, tried, b4, r.OrphanFailed?);
    assert trace[..2] == [e2, e3] && trace[2] == Event(b4, v);
    assert Broken(OutcomeAt(Block(1, 0, 0, bits, 0), trace, 2));
  }

  lemma NonePooled(tried: seq<Block>, failed: bool, answers: Hash -> Verdicts)
    requires FromPool(tried, map[])
    ensures tried == [] && Events(tried, answers) == [] && PoolLeft(map[], tried, failed) == map[]
  {
    HeadHash(tried);
  }

  lemma NotYetBoth(orphans: map<Hash, Orphan>, index: map<Hash, Node>)
    requires orphans.Keys == {4} && index.Keys == {1, 2}
    ensures Both(orphans, index) == {}
  {
  }

  /** Block 2 extends genesis, and 4 waits for 3. */
  method FourWaits(bits: Uint32) returns (p: Processor)
    requires CalcWork(bits) > 0
    ensures p.Valid() && fresh(p) && fresh(p.chain) && fresh(p.pool)
    ensures p.chain.genesis == Block(1, 0, 0, bits, 0)
    ensures p.chain.trace == [Event(Block(2, 1, 1, bits, 0), RefuseFour())]
    ensures p.chain.index.Keys == {1, 2}
    ensures p.pool.orphans.Keys == {4} && p.pool.orphans[4].block == Block(4, 3, 2, bits, 0)
  {
    hide Run, Process, Processor.Valid, ParentFirst, BreadthFirst, Genesis, CalcWork, MadeRoom, Events, Accepted;
    hide Broken, PoolLeft;
    hide Both, FromPool, NoneWaiting, Told, Pooled, Unblocked, Left, RefuseFour, Hashes, Stuck, BreaksAt;
    var v := RefuseFour();
    var b2, b4 := Block(2, 1, 1, bits, 0), Block(4, 3, 2, bits, 0);
    ForkStates(bits);
    p := new Processor(Block(1, 0, 0, bits, 0));
    p.IndexRun();
    GenesisOnly(Block(1, 0, 0, bits, 0));
    var r;
    ghost var tried;
    r, tried := p.ProcessBlock(b2, true, 0, _ => v);
    NonePooled(tried, r.OrphanFailed?, _ => v);
    p.IndexRun();
    assert p.chain.trace == [Event(b2, v)];
    r, tried := p.ProcessBlock(b4, true, 0, _ => v);
    OnlyFour(p.pool.orphans, b4);
    p.IndexRun();
  }

  /** A run of the code that leaves an orphan in the pool and in the index: block 2 extends genesis, 4
      waits for 3, 3 is stored beside 2, and then 4, now heavier, is refused. */
  method OrphanLeftBehind(bits: Uint32) returns (p: Processor)
    requires CalcWork(bits) > 0
    ensures p.Valid() && fresh(p) && Both(p.pool.orphans, p.chain.index) == {4}
  {
    hide Run, Process, Processor.Valid, ParentFirst, BreadthFirst, Genesis, CalcWork, MadeRoom, Events, Accepted;
    hide Broken, PoolLeft;
    hide Both, FromPool, NoneWaiting, Told, Pooled, Unblocked, Left, RefuseFour, Hashes, Stuck, BreaksAt;
    var v := RefuseFour();
    p := FourWaits(bits);
    ghost var before := p.pool.orphans;
    NotYetBoth(before, p.chain.index);
    var r;
    ghost var tried;
    r, tried := p.ProcessBlock(Block(3, 1, 1, bits, 0), true, 0, _ => v);
    FourFails(bits, p.chain.trace, before, tried, r, _ => v);
  }
}
