/** The orphan pool of blockchain/blockchain.go: orphans by hash, and by the hash of the parent they
    wait for, with expiry and eviction. */
module OrphanPool {
  import opened Common
  import opened ForkChoice

  datatype Orphan = Orphan(block: Block, expiration: int)

  const MAX_ORPHAN_BLOCKS: nat := 10000
  const ONE_HOUR: int := 3600

  predicate Holds(orphans: map<Hash, Orphan>, o: Orphan) {
    o.block.hash in orphans && orphans[o.block.hash] == o
  }

  predicate Distinct(list: seq<Orphan>) {
    forall i, j :: 0 <= i < j < |list| ==> list[i].block.hash != list[j].block.hash
  }

  /** One list of waiting orphans: held ones only, each once, all waiting for p, and never empty. */
  predicate ListOk(orphans: map<Hash, Orphan>, p: Hash, list: seq<Orphan>) {
    && list != [] && Distinct(list)
    && forall o :: o in list ==> Holds(orphans, o) && o.block.prev == p
  }

  predicate Listed(byParent: map<Hash, seq<Orphan>>, o: Orphan) {
    o.block.prev in byParent && o in byParent[o.block.prev]
  }

  /** The two maps index the same orphans. */
  ghost predicate Agree(orphans: map<Hash, Orphan>, byParent: map<Hash, seq<Orphan>>) {
    && (forall h :: h in orphans ==> orphans[h].block.hash == h && Listed(byParent, orphans[h]))
    && (forall p :: p in byParent ==> ListOk(orphans, p, byParent[p]))
  }

  function Waiting(byParent: map<Hash, seq<Orphan>>, p: Hash): seq<Orphan> {
    if p in byParent then byParent[p] else []
  }

  function Without(list: seq<Orphan>, h: Hash): seq<Orphan> {
    if list == [] then []
    else if list[0].block.hash == h then Without(list[1..], h)
    else [list[0]] + Without(list[1..], h)
  }

  lemma {:induction false} WithoutKeeps(list: seq<Orphan>, h: Hash)
    ensures forall o :: o in Without(list, h) <==> o in list && o.block.hash != h
    ensures Distinct(list) ==> Distinct(Without(list, h))
    decreases |list|
  {
    if list != [] {
      WithoutKeeps(list[1..], h);
      assert list == [list[0]] + list[1..];
      var rest := Without(list[1..], h);
      if Distinct(list) && list[0].block.hash != h {
        forall j | 0 <= j < |rest|
          ensures rest[j].block.hash != list[0].block.hash
        {
          assert rest[j] in list[1..];
        }
      }
    }
  }

  /** A list with an orphan taken out; the entry goes with its last orphan. */
  function Unlist(byParent: map<Hash, seq<Orphan>>, o: Orphan): map<Hash, seq<Orphan>> {
    var list := Without(Waiting(byParent, o.block.prev), o.block.hash);
    if list == [] then byParent - {o.block.prev} else byParent[o.block.prev := list]
  }

  lemma UnlistAgrees(orphans: map<Hash, Orphan>, byParent: map<Hash, seq<Orphan>>, o: Orphan)
    requires Agree(orphans, byParent) && Holds(orphans, o)
    ensures Agree(orphans - {o.block.hash}, Unlist(byParent, o))
  {
    hide Without;
    var left, lists := orphans - {o.block.hash}, Unlist(byParent, o);
    var p := o.block.prev;
    WithoutKeeps(byParent[p], o.block.hash);
    forall h | h in left
      ensures left[h].block.hash == h && Listed(lists, left[h])
    {
      assert Listed(byParent, orphans[h]);
      if orphans[h].block.prev == p {
        assert orphans[h] in Without(byParent[p], o.block.hash);
      }
    }
    forall q | q in lists
      ensures ListOk(left, q, lists[q])
    {
      assert ListOk(orphans, q, byParent[q]);
      forall x | x in lists[q]
        ensures Holds(left, x) && x.block.prev == q
      {
        assert x in byParent[q];
      }
    }
  }

  /** Adding a block that is an orphan already lists it twice, or under two parents. */
  lemma AppendAgreesExactly(orphans: map<Hash, Orphan>, byParent: map<Hash, seq<Orphan>>, o: Orphan)
    requires Agree(orphans, byParent)
    ensures Agree(orphans[o.block.hash := o], byParent[o.block.prev := Waiting(byParent, o.block.prev) + [o]])
       <==> o.block.hash !in orphans
  {
    if o.block.hash !in orphans {
      AppendAgrees(orphans, byParent, o);
    } else {
      var before, p := orphans[o.block.hash], o.block.prev;
      var grown, lists := orphans[o.block.hash := o], byParent[p := Waiting(byParent, p) + [o]];
      assert Listed(byParent, before);
      if before.block.prev == p {
        var i :| 0 <= i < |byParent[p]| && byParent[p][i] == before;
        assert lists[p][i] == before && lists[p][|byParent[p]|] == o;
        assert !ListOk(grown, p, lists[p]);
      } else {
        assert before in lists[before.block.prev];
        assert !ListOk(grown, before.block.prev, lists[before.block.prev]);
      }
    }
  }

  lemma AppendAgrees(orphans: map<Hash, Orphan>, byParent: map<Hash, seq<Orphan>>, o: Orphan)
    requires Agree(orphans, byParent) && o.block.hash !in orphans
    ensures Agree(orphans[o.block.hash := o], byParent[o.block.prev := Waiting(byParent, o.block.prev) + [o]])
  {
    var p := o.block.prev;
    var grown, lists := orphans[o.block.hash := o], byParent[p := Waiting(byParent, p) + [o]];
    forall h | h in grown
      ensures grown[h].block.hash == h && Listed(lists, grown[h])
    {
      if h != o.block.hash {
        assert Listed(byParent, orphans[h]);
      }
    }
    forall q | q in lists
      ensures ListOk(grown, q, lists[q])
    {
      if q in byParent {
        assert ListOk(orphans, q, byParent[q]);
      }
      forall x | x in lists[q]
        ensures Holds(grown, x) && x.block.prev == q
      {
        if x != o { assert x in byParent[q]; }
      }
    }
  }

  /** The orphans that have not expired. */
  function Live(orphans: map<Hash, Orphan>, now: int): set<Hash> {
    set h | h in orphans && orphans[h].expiration >= now
  }

  class Pool {
    var orphans: map<Hash, Orphan>
    var prevOrphans: map<Hash, seq<Orphan>>
    var oldestOrphan: Option<Orphan>

    /** The maps agree, the pool is within bounds, and the remembered victim is in it. */
    ghost predicate Valid()
      reads this
    {
      && Agree(orphans, prevOrphans)
      && |orphans| <= MAX_ORPHAN_BLOCKS
      && (oldestOrphan.Some? ==> Holds(orphans, oldestOrphan.value))
    }

    constructor ()
      ensures Valid() && orphans == map[]
    {
      orphans, prevOrphans, oldestOrphan := map[], map[], None;
    }

    /** Takes an orphan out of both maps. */
    method RemoveOrphanBlock(orphan: Orphan)
      requires Valid() && Holds(orphans, orphan)
      modifies this
      ensures Valid()
      ensures orphans == old(orphans) - {orphan.block.hash}
      ensures prevOrphans == Unlist(old(prevOrphans), orphan)
      ensures oldestOrphan == if old(oldestOrphan) == Some(orphan) then None else old(oldestOrphan)
    {
      hide Agree, Without;
      UnlistAgrees(orphans, prevOrphans, orphan);
      var orphanHash, prevHash := orphan.block.hash, orphan.block.prev;
      RemoveShrinks(orphans, orphanHash);
      orphans := orphans - {orphanHash};
      var list := RemoveFromList(Waiting(prevOrphans, prevHash), orphanHash);
      prevOrphans := prevOrphans[prevHash := list];
      if |prevOrphans[prevHash]| == 0 {
        prevOrphans := prevOrphans - {prevHash};
      }
      assert prevOrphans == Unlist(old(prevOrphans), orphan);
      if oldestOrphan == Some(orphan) {
        oldestOrphan := None;
      }
    }

    /** Drops the expired orphans and, when the pool is still full, the one that expires first. */
    method MakeRoom(now: int)
      requires Valid()
      modifies this
      ensures Valid() && |orphans| < MAX_ORPHAN_BLOCKS
      ensures MadeRoom(old(orphans), orphans, now)
    {
      hide Agree, Unlist, Live;
      DropExpired(now);
      LiveBound(old(orphans), now);
      if |orphans| + 1 > MAX_ORPHAN_BLOCKS {
        ghost var v := oldestOrphan.value.block.hash;
        RemoveShrinks(orphans, v);
        RemoveOrphanBlock(oldestOrphan.value);
        oldestOrphan := None;
        assert FirstToExpire(old(orphans), now, v);
      }
    }

    /** Makes room and adds the new block under both its hash and its parent's. */
    method AddOrphanBlock(block: Block, now: int)
      requires Valid() && block.hash !in orphans
      modifies this
      ensures Valid() && Holds(orphans, Orphan(block, now + ONE_HOUR))
      ensures MadeRoom(old(orphans), orphans - {block.hash}, now)
      ensures block.hash in orphans && orphans[block.hash] == Orphan(block, now + 3600)
      ensures forall h :: h in orphans && h != block.hash ==>
                h in old(orphans) && orphans[h] == old(orphans)[h] && orphans[h].expiration >= now
      ensures forall h :: h in old(orphans) && old(orphans)[h].expiration >= now && h !in orphans ==>
                && |orphans| == 10000
                && forall g :: g in old(orphans) && old(orphans)[g].expiration >= now ==>
                     (g == h || g in orphans) && old(orphans)[h].expiration <= old(orphans)[g].expiration
    {
      hide Agree, MadeRoom;
      MakeRoom(now);
      NoNewOrphans(old(orphans), orphans, now);
      var o := Orphan(block, now + ONE_HOUR);
      assert orphans[block.hash := o] - {block.hash} == orphans;
      AppendAgrees(orphans, prevOrphans, o);
      RoomExactly(old(orphans), orphans, now);
      RoomForOne(orphans, block.hash, o);
      orphans := orphans[block.hash := o];
      prevOrphans := prevOrphans[block.prev := Waiting(prevOrphans, block.prev) + [o]];
    }

    /** Walks over the orphans in any order, removing the expired ones and keeping the victim. */
    method DropExpired(now: int)
      requires Valid()
      modifies this
      ensures Valid()
      ensures orphans.Keys == Live(old(orphans), now)
      ensures forall h :: h in orphans ==> orphans[h] == old(orphans)[h]
      ensures orphans.Keys == old(orphans).Keys && orphans != map[] ==>
                oldestOrphan.Some? && FirstToExpire(old(orphans), now, oldestOrphan.value.block.hash)
    {
      hide Agree, Unlist;
      var todo := orphans.Keys;
      while todo != {}
        invariant Valid() && todo <= orphans.Keys
        invariant forall h :: h in orphans <==> h in old(orphans) && (h in todo || h in Live(old(orphans), now))
        invariant forall h :: h in orphans ==> orphans[h] == old(orphans)[h]
        invariant orphans.Keys == old(orphans).Keys ==>
                    forall h :: h in orphans && h !in todo ==>
                      oldestOrphan.Some? && oldestOrphan.value.expiration <= orphans[h].expiration
        decreases |todo|
      {
        var h :| h in todo;
        todo := todo - {h};
        HoldsOwn(orphans, prevOrphans, h);
        var o := orphans[h];
        if now > o.expiration {
          RemoveOrphanBlock(o);
          assert h in old(orphans).Keys && h !in orphans.Keys;
        } else if oldestOrphan.None? || o.expiration < oldestOrphan.value.expiration {
          oldestOrphan := Some(o);
        }
      }
    }
  }

  method RemoveFromList(orphans: seq<Orphan>, h: Hash) returns (list: seq<Orphan>)
    ensures list == Without(orphans, h)
  {
    list := orphans;
    var i := 0;
    while i < |list|
      invariant 0 <= i <= |list|
      invariant list[..i] + Without(list[i..], h) == Without(orphans, h)
      decreases |list| - i
    {
      if list[i].block.hash == h {
        assert list[i..][1..] == (list[..i] + list[i + 1..])[i..];
        list := list[..i] + list[i + 1..];
      } else {
        assert list[i..][1..] == list[i + 1..];
        assert list[..i] + [list[i]] == list[..i + 1];
        i := i + 1;
      }
    }
    assert list[i..] == [] && list[..i] == list;
  }

  /** What is left is every live orphan, or, when the live ones fill the pool, all of them but one
      that expires first. */
  ghost predicate MadeRoom(before: map<Hash, Orphan>, after: map<Hash, Orphan>, now: int) {
    && (forall h :: h in after ==> h in before && after[h] == before[h])
    && (|Live(before, now)| < MAX_ORPHAN_BLOCKS ==> after.Keys == Live(before, now))
    && (|Live(before, now)| == MAX_ORPHAN_BLOCKS ==>
          exists v :: FirstToExpire(before, now, v) && after.Keys == Live(before, now) - {v})
  }

  /** An orphan that has not expired goes only from a full pool, alone, and none expires before it. */
  lemma RoomExactly(before: map<Hash, Orphan>, after: map<Hash, Orphan>, now: int)
    requires MadeRoom(before, after, now) && |before| <= MAX_ORPHAN_BLOCKS
    ensures forall h :: h in after ==> h in before && after[h] == before[h] && after[h].expiration >= now
    ensures forall h :: h in before && before[h].expiration >= now && h !in after ==>
              && |after| == MAX_ORPHAN_BLOCKS - 1
              && forall g :: g in before && before[g].expiration >= now ==>
                   (g == h || g in after) && before[h].expiration <= before[g].expiration
  {
    LiveBound(before, now);
    assert forall h :: h in before && before[h].expiration >= now <==> h in Live(before, now);
    assert |after| == |after.Keys|;
  }

  lemma RoomForOne(orphans: map<Hash, Orphan>, h: Hash, o: Orphan)
    requires h !in orphans
    ensures |orphans[h := o]| == |orphans| + 1
  {
    assert orphans[h := o].Keys == orphans.Keys + {h};
  }

  lemma NoNewOrphans(before: map<Hash, Orphan>, after: map<Hash, Orphan>, now: int)
    requires MadeRoom(before, after, now)
    ensures after.Keys <= before.Keys
  {
  }

  ghost predicate FirstToExpire(orphans: map<Hash, Orphan>, now: int, v: Hash) {
    v in Live(orphans, now) && forall h :: h in Live(orphans, now) ==> orphans[v].expiration <= orphans[h].expiration
  }

  lemma LiveBound(orphans: map<Hash, Orphan>, now: int)
    ensures Live(orphans, now) <= orphans.Keys && |Live(orphans, now)| <= |orphans|
    ensures |Live(orphans, now)| == |orphans| ==> Live(orphans, now) == orphans.Keys
  {
    SubsetSize(Live(orphans, now), orphans.Keys);
  }

  lemma SubsetSize(a: set<Hash>, b: set<Hash>)
    requires a <= b
    ensures |a| <= |b| && (|a| == |b| ==> a == b)
  {
    var rest := b - a;
    assert b == a + rest;
  }

  lemma HoldsOwn(orphans: map<Hash, Orphan>, byParent: map<Hash, seq<Orphan>>, h: Hash)
    requires Agree(orphans, byParent) && h in orphans
    ensures orphans[h].block.hash == h
  {
  }

  lemma RemoveShrinks(m: map<Hash, Orphan>, h: Hash)
    requires h in m
    ensures |m - {h}| == |m| - 1
  {
    assert (m - {h}).Keys == m.Keys - {h};
  }
}
