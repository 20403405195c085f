/** The index manager of blockchain/indexers/manager.go: catching every index up with the main chain
    from whatever stored fork it was left on. */
module IndexManager {
  import opened Common

  datatype Block = Block(hash: Hash, prev: Hash, height: nat)

  /** The stored tip of an index; height -1 marks an index without entries. */
  datatype Tip = Tip(hash: Hash, height: int)

  datatype Failure =
    | AssertError        // a block that does not fit the index tip
    | MissingBlock       // a block that the database does not hold
    | IndexerFailed
    | Interrupted

  /** The answers of the indexers and of the interrupt channel, free at every call. */
  datatype Answers = Answers(connects: (nat, Hash) -> bool, disconnects: (nat, Hash) -> bool,
                             interrupted: (nat, int) -> bool)

  /** No indexer fails and nobody interrupts. */
  ghost predicate Cooperative(a: Answers) {
    && (forall k: nat, h: Hash :: a.connects(k, h) && a.disconnects(k, h))
    && (forall k: nat, h: int :: !a.interrupted(k, h))
  }

  const TWO_31 := 0x8000_0000
  const TWO_32 := 0x1_0000_0000

  /** Heights go through uint32 arithmetic and are stored as int32. */
  function ToInt32(x: int): int {
    var u := x % TWO_32;
    if u < TWO_31 then u else u - TWO_32
  }

  // ---------------------------------------------------------------- stored paths

  type Store = map<Hash, Block>

  /** A chain of stored blocks from the genesis block on. */
  ghost predicate StoredPath(db: Store, p: seq<Block>) {
    && |p| < TWO_31
    && forall i :: 0 <= i < |p| ==> StoredAt(db, p, i)
  }

  predicate StoredAt(db: Store, p: seq<Block>, i: int)
    requires 0 <= i < |p|
  {
    && p[i].height == i && p[i].prev == (if i == 0 then EMPTY_HASH else p[i - 1].hash)
    && p[i].hash in db && db[p[i].hash] == p[i]
  }

  /** Stored paths that share a block share everything below it. */
  lemma {:induction false} SharedPrefix(db: Store, p: seq<Block>, q: seq<Block>, h: nat)
    requires StoredPath(db, p) && StoredPath(db, q)
    requires h < |p| && h < |q| && p[h].hash == q[h].hash
    ensures p[..h + 1] == q[..h + 1]
  {
    assert StoredAt(db, p, h) && StoredAt(db, q, h);
    if h > 0 {
      SharedPrefix(db, p, q, h - 1);
    }
    assert p[..h + 1] == p[..h] + [p[h]] && q[..h + 1] == q[..h] + [q[h]];
  }

  lemma PathPrefix(db: Store, p: seq<Block>, k: nat)
    requires StoredPath(db, p) && k <= |p|
    ensures StoredPath(db, p[..k])
  {
    forall i | 0 <= i < k
      ensures StoredAt(db, p[..k], i)
    {
      assert StoredAt(db, p, i);
    }
  }

  function TipOf(p: seq<Block>): Tip {
    if p == [] then Tip(EMPTY_HASH, -1) else Tip(p[|p| - 1].hash, |p| - 1)
  }

  /** An index whose entries are those of the blocks of a stored path with the chain's genesis. */
  ghost predicate IndexOk(db: Store, main: seq<Block>, tip: Tip, applied: seq<Block>)
    requires main != []
  {
    && StoredPath(db, applied)
    && (applied != [] ==> applied[0] == main[0])
    && tip == TipOf(applied)
  }

  predicate Stored(db: Store, block: Block) {
    block.hash in db && db[block.hash] == block
  }

  predicate MainChainHasBlock(main: seq<Block>, height: int, hash: Hash) {
    0 <= height < |main| && main[height].hash == hash
  }

  /** Neither poll of the interrupt channel at a height, before and after its block, finds anything. */
  predicate Undisturbed(a: Answers, n: nat, height: int) {
    !a.interrupted(n, height) && !a.interrupted(n + 1, height)
  }

  /** A path follows the main chain for n blocks and no further. */
  ghost predicate Leaves(p: seq<Block>, main: seq<Block>, n: nat) {
    && n <= |p| && n <= |main| && p[..n] == main[..n]
    && (n < |p| && n < |main| ==> p[n] != main[n])
  }

  class Manager {
    var tips: seq<Tip>

    /** For each index, the blocks connected to it and not disconnected since. */
    ghost var applied: seq<seq<Block>>

    ghost predicate Valid(db: Store, main: seq<Block>)
      requires main != []
      reads this
    {
      |applied| == |tips| && forall i :: 0 <= i < |tips| ==> IndexOk(db, main, tips[i], applied[i])
    }

    /** Disconnects a block from the end of one index. */
    method IndexDisconnectBlock(db: Store, ghost main: seq<Block>, k: nat, block: Block, answers: Answers)
      returns (err: Option<Failure>)
      requires main != [] && Valid(db, main) && k < |tips|
      modifies this
      ensures |tips| == |old(tips)|
      ensures err == Some(AssertError) <==> old(tips)[k].hash != block.hash
      ensures err == Some(IndexerFailed) <==>
                old(tips)[k].hash == block.hash && !answers.disconnects(k, block.hash)
      ensures err == None || err == Some(AssertError) || err == Some(IndexerFailed)
      ensures Cooperative(answers) ==> err != Some(IndexerFailed)
      ensures err.Some? ==> tips == old(tips) && applied == old(applied)
      ensures err.None? ==> tips == old(tips)[k := Tip(block.prev, ToInt32(block.height - 1))]
      ensures err.None? && old(applied[k]) != [] && Stored(db, block) ==>
                && Valid(db, main)
                && old(applied)[k][|old(applied)[k]| - 1] == block
                && applied == old(applied)[k := old(applied)[k][..|old(applied)[k]| - 1]]
                && tips[k].height == block.height - 1
    {
      if tips[k].hash != block.hash {
        return Some(AssertError);
      }
      if !answers.disconnects(k, block.hash) {
        return Some(IndexerFailed);
      }
      ghost var p := applied[k];
      if p != [] {
        CutTip(db, main, tips[k], p);
        applied := applied[k := p[..|p| - 1]];
      }
      tips := tips[k := Tip(block.prev, ToInt32(block.height - 1))];
      err := None;
    }

    /** The block is the one an index with the given entries takes next. */
    ghost predicate Next(db: Store, main: seq<Block>, p: seq<Block>, block: Block)
      requires main != []
    {
      Stored(db, block) && block.height == |p| < TWO_31 - 1 && (p == [] ==> block == main[0])
    }

    /** Connects a block to the end of one index. */
    method IndexConnectBlock(db: Store, ghost main: seq<Block>, k: nat, block: Block, answers: Answers)
      returns (err: Option<Failure>)
      requires main != [] && Valid(db, main) && k < |tips|
      modifies this
      ensures |tips| == |old(tips)|
      ensures err == Some(AssertError) <==> old(tips)[k].hash != block.prev
      ensures err == Some(IndexerFailed) <==> old(tips)[k].hash == block.prev && !answers.connects(k, block.hash)
      ensures err == None || err == Some(AssertError) || err == Some(IndexerFailed)
      ensures Cooperative(answers) ==> err != Some(IndexerFailed)
      ensures err.Some? ==> tips == old(tips) && applied == old(applied)
      ensures err.None? ==> tips == old(tips)[k := Tip(block.hash, ToInt32(block.height))]
      ensures err.None? ==> applied == old(applied)[k := old(applied)[k] + [block]]
      ensures err.None? && Next(db, main, old(applied[k]), block) ==> Valid(db, main) && tips[k].height == block.height
    {
      if tips[k].hash != block.prev {
        return Some(AssertError);
      }
      if !answers.connects(k, block.hash) {
        return Some(IndexerFailed);
      }
      if Next(db, main, applied[k], block) {
        GrowTip(db, main, tips[k], applied[k], block);
      }
      applied := applied[k := applied[k] + [block]];
      tips := tips[k := Tip(block.hash, ToInt32(block.height))];
      err := None;
    }

    /** Takes blocks off one index until its tip is on the main chain.  The block is always stored and
        always the tip, so only the indexer or an interrupt can stop it. */
    method RollbackIndex(db: Store, main: seq<Block>, k: nat, answers: Answers) returns (err: Option<Failure>)
      requires main != [] && StoredPath(db, main) && Valid(db, main) && k < |tips|
      modifies this
      ensures Valid(db, main) && |tips| == |old(tips)|
      ensures err == None || err == Some(IndexerFailed) || err == Some(Interrupted)
      ensures Cooperative(answers) ==> err == None
      ensures forall i :: 0 <= i < |tips| && i != k ==> applied[i] == old(applied)[i] && tips[i] == old(tips)[i]
      ensures applied[k] <= old(applied)[k]
      ensures err.None? ==> applied[k] <= main && Leaves(old(applied)[k], main, |applied[k]|)
      ensures err.None? ==> forall h :: |applied[k]| <= h + 1 < |old(applied)[k]| ==> !answers.interrupted(k, h)
      ensures err == Some(Interrupted) ==> exists h :: answers.interrupted(k, h)
    {
      hide StoredPath;
      var height, hash := tips[k].height, tips[k].hash;
      if height == -1 {
        return None;
      }
      while !MainChainHasBlock(main, height, hash)
        invariant Valid(db, main) && |tips| == |old(tips)|
        invariant forall i :: 0 <= i < |tips| && i != k ==> applied[i] == old(applied)[i] && tips[i] == old(tips)[i]
        invariant applied[k] != [] && applied[k] <= old(applied)[k]
        invariant tips[k] == Tip(hash, height)
        invariant |applied[k]| < |old(applied)[k]| && |applied[k]| < |main| ==>
                    main[|applied[k]|] != old(applied)[k][|applied[k]|]
        invariant forall h :: height <= h < |old(applied)[k]| - 1 ==> !answers.interrupted(k, h)
        decreases height
      {
        TipStored(db, main, tips[k], applied[k]);
        if hash !in db {
          return Some(MissingBlock);
        }
        var block := db[hash];
        err := IndexDisconnectBlock(db, main, k, block, answers);
        if err.Some? {
          return;
        }
        hash := block.prev;
        height := height - 1;
        if answers.interrupted(k, height) {
          return Some(Interrupted);
        }
      }
      OnMain(db, main, tips[k], applied[k]);
      err := None;
    }

    /** Every index holds the blocks of the main chain up to its own height. */
    ghost predicate OnMainChain(main: seq<Block>)
      reads this
    {
      |applied| == |tips| && forall i :: 0 <= i < |tips| ==> applied[i] <= main
    }

    ghost predicate HeightsOk(main: seq<Block>, heights: seq<int>, least: int)
      reads this
    {
      && OnMainChain(main) && |heights| == |tips|
      && forall i :: 0 <= i < |tips| ==> heights[i] == |applied[i]| - 1 && heights[i] >= least
    }

    /** Rolls the indexes back to the main chain, last one first. */
    method RollbackAll(db: Store, main: seq<Block>, answers: Answers) returns (err: Option<Failure>)
      requires main != [] && StoredPath(db, main) && Valid(db, main)
      modifies this
      ensures Valid(db, main) && |tips| == |old(tips)|
      ensures err == None || err == Some(IndexerFailed) || err == Some(Interrupted)
      ensures Cooperative(answers) ==> err == None
      ensures err.None? ==> OnMainChain(main)
      ensures err.None? ==> forall i :: 0 <= i < |tips| ==> Leaves(old(applied)[i], main, |applied[i]|)
      ensures err == Some(Interrupted) ==> exists k: nat, h :: answers.interrupted(k, h)
    {
      hide StoredPath, IndexOk, Leaves;
      var i := |tips|;
      while i > 0
        invariant 0 <= i <= |tips| && Valid(db, main) && |tips| == |old(tips)|
        invariant forall j :: i <= j < |tips| ==> applied[j] <= main
        invariant forall j :: i <= j < |tips| ==> Leaves(old(applied)[j], main, |applied[j]|)
        invariant forall j :: 0 <= j < i ==> applied[j] == old(applied)[j]
      {
        err := RollbackIndex(db, main, i - 1, answers);
        if err.Some? {
          return;
        }
        i := i - 1;
      }
      err := None;
    }

    /** The height of each index, and the lowest of them and the chain's. */
    method FetchHeights(db: Store, main: seq<Block>) returns (heights: seq<int>, lowest: int)
      requires main != [] && Valid(db, main) && OnMainChain(main)
      ensures HeightsOk(main, heights, lowest) && -1 <= lowest < |main|
      ensures lowest == |main| - 1 || exists i :: 0 <= i < |tips| && heights[i] == lowest
    {
      hide StoredPath;
      heights := [];
      lowest := |main| - 1;
      for i := 0 to |tips|
        invariant |heights| == i && -1 <= lowest < |main|
        invariant forall j :: 0 <= j < i ==> heights[j] == |applied[j]| - 1 && lowest <= heights[j]
        invariant lowest == |main| - 1 || exists j :: 0 <= j < i && heights[j] == lowest
      {
        assert IndexOk(db, main, tips[i], applied[i]);
        var height := tips[i].height;
        heights := heights + [height];
        assert heights[i] == height;
        if height < lowest {
          lowest := height;
        }
      }
    }

    /** Connects one main-chain block to the indexes that lack it; it always extends their tips. */
    method ConnectToAll(db: Store, main: seq<Block>, heights: seq<int>, height: nat, answers: Answers)
      returns (err: Option<Failure>, heights': seq<int>)
      requires main != [] && StoredPath(db, main) && |main| < TWO_31 - 1 && height < |main|
      requires Valid(db, main) && HeightsOk(main, heights, height - 1)
      modifies this
      ensures Valid(db, main) && |tips| == |old(tips)|
      ensures err == None || err == Some(IndexerFailed)
      ensures Cooperative(answers) ==> err == None
      ensures err.None? ==> HeightsOk(main, heights', height)
    {
      hide StoredPath, IndexOk;
      heights' := heights;
      var block := main[height];
      for i := 0 to |tips|
        invariant Valid(db, main) && |tips| == |old(tips)|
        invariant HeightsOk(main, heights', height - 1)
        invariant forall j :: 0 <= j < i ==> heights'[j] >= height
      {
        if heights'[i] < height {
          MainExtends(db, main, tips[i], applied[i], height);
          err := IndexConnectBlock(db, main, i, block, answers);
          if err.Some? {
            return;
          }
          heights' := heights'[i := height];
        }
      }
      err := None;
    }

    /** Brings every index to the tip of the main chain, from any stored fork.  Neither tip assertion
        fires and no block is missing; a failed or interrupted run leaves every index on a stored path,
        ready for the next one. */
    method Init(db: Store, main: seq<Block>, answers: Answers) returns (err: Option<Failure>, ghost from: nat)
      requires main != [] && StoredPath(db, main) && |main| < TWO_31 - 1 && Valid(db, main)
      modifies this
      ensures Valid(db, main) && |tips| == |old(tips)|
      ensures err == None || err == Some(IndexerFailed) || err == Some(Interrupted)
      ensures Cooperative(answers) ==> err == None
      ensures err.None? ==> forall i :: 0 <= i < |tips| ==> applied[i] == main && tips[i] == TipOf(main)
      ensures err.None? && |tips| > 0 ==>
                && !answers.interrupted(|tips|, -1)
                && (from == |main| || exists i :: 0 <= i < |tips| && Leaves(old(applied)[i], main, from))
                && forall h :: from <= h < |main| ==> Undisturbed(answers, |tips|, h)
      ensures err == Some(Interrupted) ==> exists k: nat, h :: answers.interrupted(k, h)
    {
      hide StoredPath, Leaves;
      from := |main|;
      if |tips| == 0 {
        return None, from;
      }
      if answers.interrupted(|tips|, -1) {
        return Some(Interrupted), from;
      }
      err := RollbackAll(db, main, answers);
      if err.Some? {
        return;
      }
      var bestHeight := |main| - 1;
      var heights, lowest := FetchHeights(db, main);
      var height := lowest + 1;
      from := height;
      while height <= bestHeight
        invariant 0 <= height <= bestHeight + 1
        invariant Valid(db, main) && |tips| == |old(tips)| && HeightsOk(main, heights, height - 1)
        invariant forall h :: from <= h < height ==> Undisturbed(answers, |tips|, h)
        decreases bestHeight - height
      {
        if answers.interrupted(|tips|, height) {
          return Some(Interrupted), from;
        }
        err, heights := ConnectToAll(db, main, heights, height, answers);
        if err.Some? {
          return;
        }
        if answers.interrupted(|tips| + 1, height) {
          return Some(Interrupted), from;
        }
        assert Undisturbed(answers, |tips|, height);
        height := height + 1;
      }
      forall i | 0 <= i < |tips|
        ensures applied[i] == main && tips[i] == TipOf(main)
      {
        assert IndexOk(db, main, tips[i], applied[i]);
        assert |applied[i]| == |main|;
      }
      err := None;
    }

    /** A block extending the main chain is connected to every index. */
    method ConnectBlock(db: Store, main: seq<Block>, block: Block, answers: Answers) returns (err: Option<Failure>)
      requires main != [] && |main| < TWO_31 - 2 && StoredPath(db, main + [block])
      requires Valid(db, main) && forall i :: 0 <= i < |tips| ==> applied[i] == main
      modifies this
      ensures Valid(db, main) && |tips| == |old(tips)|
      ensures err == None || err == Some(IndexerFailed)
      ensures Cooperative(answers) ==> err == None
      ensures err.None? ==> forall i :: 0 <= i < |tips| ==> applied[i] == main + [block]
    {
      hide StoredPath, IndexOk;
      for i := 0 to |tips|
        invariant Valid(db, main) && |tips| == |old(tips)|
        invariant forall j :: 0 <= j < i ==> applied[j] == main + [block]
        invariant forall j :: i <= j < |tips| ==> applied[j] == main
      {
        NextExtends(db, main, tips[i], block);
        err := IndexConnectBlock(db, main, i, block, answers);
        if err.Some? {
          return;
        }
      }
      err := None;
    }

    /** The last block of the main chain is disconnected from every index. */
    method DisconnectBlock(db: Store, main: seq<Block>, answers: Answers) returns (err: Option<Failure>)
      requires main != [] && StoredPath(db, main)
      requires Valid(db, main) && forall i :: 0 <= i < |tips| ==> applied[i] == main
      modifies this
      ensures Valid(db, main) && |tips| == |old(tips)|
      ensures err == None || err == Some(IndexerFailed)
      ensures Cooperative(answers) ==> err == None
      ensures err.None? ==> forall i :: 0 <= i < |tips| ==> applied[i] == main[..|main| - 1]
    {
      hide StoredPath, IndexOk;
      for i := 0 to |tips|
        invariant Valid(db, main) && |tips| == |old(tips)|
        invariant forall j :: 0 <= j < i ==> applied[j] == main[..|main| - 1]
        invariant forall j :: i <= j < |tips| ==> applied[j] == main
      {
        MainTip(db, main, tips[i]);
        err := IndexDisconnectBlock(db, main, i, main[|main| - 1], answers);
        if err.Some? {
          return;
        }
      }
      err := None;
    }
  }

  /** The tip of an index that holds the main chain is the main chain's. */
  lemma MainTip(db: Store, main: seq<Block>, tip: Tip)
    requires main != [] && StoredPath(db, main) && IndexOk(db, main, tip, main)
    ensures var last := main[|main| - 1]; last.hash in db && db[last.hash] == last && tip.hash == last.hash
  {
    assert StoredAt(db, main, |main| - 1);
  }

  /** The next main-chain block extends an index that ends just below it. */
  lemma MainExtends(db: Store, main: seq<Block>, tip: Tip, p: seq<Block>, height: nat)
    requires main != [] && StoredPath(db, main) && IndexOk(db, main, tip, p) && p <= main && |p| == height < |main|
    ensures main[height].hash in db && db[main[height].hash] == main[height]
    ensures main[height].height == height && main[height].prev == tip.hash
  {
    assert StoredAt(db, main, height);
  }

  lemma NextExtends(db: Store, main: seq<Block>, tip: Tip, block: Block)
    requires main != [] && StoredPath(db, main + [block]) && IndexOk(db, main, tip, main)
    ensures block.hash in db && db[block.hash] == block && block.height == |main| && block.prev == tip.hash
  {
    assert StoredAt(db, main + [block], |main|);
  }

  /** A tip that is not on the main chain is above genesis, so its parent's entry remains. */
  lemma TipStored(db: Store, main: seq<Block>, tip: Tip, p: seq<Block>)
    requires main != [] && IndexOk(db, main, tip, p) && p != []
    requires !MainChainHasBlock(main, tip.height, tip.hash)
    ensures tip.hash in db && db[tip.hash] == p[|p| - 1] && |p| > 1 && tip.height == |p| - 1
    ensures db[tip.hash].prev == p[|p| - 2].hash && p[|p| - 1].hash == tip.hash
  {
    assert StoredAt(db, p, |p| - 1);
  }

  lemma CutTip(db: Store, main: seq<Block>, tip: Tip, p: seq<Block>)
    requires main != [] && IndexOk(db, main, tip, p) && p != []
    ensures var last := p[|p| - 1];
            && last.hash == tip.hash && last.hash in db && db[last.hash] == last
            && ToInt32(last.height - 1) == last.height - 1
            && IndexOk(db, main, Tip(last.prev, last.height - 1), p[..|p| - 1])
  {
    assert StoredAt(db, p, |p| - 1);
    PathPrefix(db, p, |p| - 1);
  }

  lemma GrowTip(db: Store, main: seq<Block>, tip: Tip, p: seq<Block>, block: Block)
    requires main != [] && IndexOk(db, main, tip, p) && tip.hash == block.prev
    requires block.hash in db && db[block.hash] == block && block.height == |p| < TWO_31 - 1
    requires p == [] ==> block == main[0]
    ensures ToInt32(block.height) == block.height
    ensures IndexOk(db, main, Tip(block.hash, block.height), p + [block])
  {
    forall i | 0 <= i < |p| + 1
      ensures StoredAt(db, p + [block], i)
    {
      if i < |p| {
        assert StoredAt(db, p, i);
      }
    }
  }

  lemma OnMain(db: Store, main: seq<Block>, tip: Tip, p: seq<Block>)
    requires main != [] && StoredPath(db, main) && IndexOk(db, main, tip, p) && p != []
    requires MainChainHasBlock(main, tip.height, tip.hash)
    ensures p <= main
  {
    SharedPrefix(db, p, main, |p| - 1);
  }
}
