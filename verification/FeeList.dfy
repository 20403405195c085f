/** The fee-ordered list of mempool/txfeeorderedlist.go. */
module FeeList {
  import opened Common

  datatype Item = Item(hash: Hash, feeRate: real, size: nat)

  function SizeOf(list: seq<Item>): nat {
    if list == [] then 0 else SizeOf(list[..|list| - 1]) + list[|list| - 1].size
  }

  /** Higher rates first; equal rates by arrival. */
  ghost predicate Ordered(list: seq<Item>, stamps: seq<nat>) {
    && |stamps| == |list|
    && forall i, j :: 0 <= i < j < |list| ==>
         list[i].feeRate > list[j].feeRate || (list[i].feeRate == list[j].feeRate && stamps[i] < stamps[j])
  }

  predicate Descending(list: seq<Item>) {
    forall i, j :: 0 <= i < j < |list| ==> list[i].feeRate >= list[j].feeRate
  }

  predicate PositiveSizes(list: seq<Item>) {
    forall i :: 0 <= i < |list| ==> list[i].size > 0
  }

  /** Where the rates fall below a given one. */
  predicate Boundary(list: seq<Item>, rate: real, k: int) {
    && 0 <= k <= |list|
    && (forall i :: 0 <= i < k ==> list[i].feeRate >= rate)
    && (forall i :: k <= i < |list| ==> list[i].feeRate < rate)
  }

  function Inserted<T>(s: seq<T>, k: nat, x: T): seq<T>
    requires k <= |s|
  {
    s[..k] + [x] + s[k..]
  }

  function Removed<T>(s: seq<T>, k: nat): seq<T>
    requires k < |s|
  {
    s[..k] + s[k + 1..]
  }

  /** The prefix left when items are dropped from the back until the sizes fit. */
  function Fit(list: seq<Item>, maxSize: nat): (r: seq<Item>)
    ensures r <= list && SizeOf(r) <= maxSize
  {
    if SizeOf(list) <= maxSize then list else Fit(list[..|list| - 1], maxSize)
  }

  lemma {:induction false} SizeOfPrefix(list: seq<Item>, k: nat)
    requires k <= |list|
    ensures SizeOf(list[..k]) <= SizeOf(list)
    ensures PositiveSizes(list) && k < |list| ==> SizeOf(list[..k]) < SizeOf(list)
    decreases |list|
  {
    if k == |list| {
      assert list[..k] == list;
    } else {
      SizeOfPrefix(list[..|list| - 1], k);
      assert list[..|list| - 1][..k] == list[..k];
    }
  }

  /** What is kept is the longest prefix that fits. */
  lemma {:induction false} FitLongest(list: seq<Item>, maxSize: nat, k: nat)
    requires k <= |list|
    ensures SizeOf(list[..k]) <= maxSize ==> k <= |Fit(list, maxSize)|
    ensures k <= |Fit(list, maxSize)| ==> SizeOf(list[..k]) <= maxSize
    decreases |list|
  {
    if SizeOf(list) <= maxSize {
      SizeOfPrefix(list, k);
    } else if k < |list| {
      FitLongest(list[..|list| - 1], maxSize, k);
      assert list[..|list| - 1][..k] == list[..k];
    } else {
      assert list[..k] == list;
    }
  }

  lemma {:induction false} SizeOfInserted(list: seq<Item>, k: nat, x: Item)
    requires k <= |list|
    ensures SizeOf(Inserted(list, k, x)) == SizeOf(list) + x.size
    decreases |list|
  {
    var more := Inserted(list, k, x);
    if k == |list| {
      assert more[..|more| - 1] == list;
    } else {
      var rest := list[..|list| - 1];
      SizeOfInserted(rest, k, x);
      assert more[..|more| - 1] == Inserted(rest, k, x);
    }
  }

  lemma SizeOfRemoved(list: seq<Item>, k: nat)
    requires k < |list|
    ensures SizeOf(Removed(list, k)) == SizeOf(list) - list[k].size
  {
    hide SizeOf;
    SizeOfInserted(Removed(list, k), k, list[k]);
    PutBack(list, k);
  }

  lemma PutBack(list: seq<Item>, k: nat)
    requires k < |list|
    ensures k <= |Removed(list, k)| && Inserted(Removed(list, k), k, list[k]) == list
  {
    var r := Removed(list, k);
    assert r[..k] == list[..k] && r[k..] == list[k + 1..];
  }

  /** Inserting at the boundary, with the newest stamp, keeps the order. */
  lemma InsertedOrdered(list: seq<Item>, stamps: seq<nat>, k: nat, x: Item, now: nat)
    requires Ordered(list, stamps) && Boundary(list, x.feeRate, k)
    requires forall i :: 0 <= i < |stamps| ==> stamps[i] < now
    ensures Ordered(Inserted(list, k, x), Inserted(stamps, k, now))
  {
    var l, t := Inserted(list, k, x), Inserted(stamps, k, now);
    assert forall i :: 0 <= i < k ==> l[i] == list[i] && t[i] == stamps[i];
    assert l[k] == x && t[k] == now;
    assert forall i :: k < i < |l| ==> l[i] == list[i - 1] && t[i] == stamps[i - 1];
  }

  lemma RemovedOrdered(list: seq<Item>, stamps: seq<nat>, k: nat)
    requires Ordered(list, stamps) && k < |list|
    ensures Ordered(Removed(list, k), Removed(stamps, k))
  {
    var l, t := Removed(list, k), Removed(stamps, k);
    assert forall i :: 0 <= i < k ==> l[i] == list[i] && t[i] == stamps[i];
    assert forall i :: k <= i < |l| ==> l[i] == list[i + 1] && t[i] == stamps[i + 1];
  }

  /** Adding a transaction whose rate is below the last one's to a full list changes nothing. */
  lemma ExcludedFits(list: seq<Item>, x: Item, k: nat, maxSize: nat)
    requires Boundary(list, x.feeRate, k) && SizeOf(list) <= maxSize < SizeOf(list) + x.size
    requires list != [] && x.feeRate < list[|list| - 1].feeRate
    ensures Fit(Inserted(list, k, x), maxSize) == list
  {
    assert k == |list|;
    SizeOfInserted(list, k, x);
    assert Inserted(list, k, x)[..|list|] == list;
  }

  /** The callback hashes: the items cut off the back, last first. */
  predicate DroppedFrom(popped: seq<Hash>, full: seq<Item>, kept: seq<Item>) {
    && |kept| + |popped| == |full|
    && forall i :: 0 <= i < |popped| ==> popped[i] == full[|full| - 1 - i].hash
  }

  datatype AddResult = IllegalSize | Excluded | Added

  class OrderedList {
    var list: seq<Item>
    var totalSize: int
    const maxSize: nat
    ghost var stamps: seq<nat>
    ghost var clock: nat

    ghost predicate Valid()
      reads this
    {
      && Ordered(list, stamps) && PositiveSizes(list)
      && (forall i :: 0 <= i < |stamps| ==> stamps[i] < clock)
      && totalSize == SizeOf(list) <= maxSize
    }

    constructor (maxSize: nat)
      ensures Valid() && list == [] && this.maxSize == maxSize
    {
      this.maxSize := maxSize;
      list, totalSize, stamps, clock := [], 0, [], 0;
    }

    predicate OverSize(size: nat)
      reads this
    {
      totalSize + size > maxSize
    }

    /** Binary search for the first item whose rate is below the given one. */
    method Search(feeRate: real) returns (index: nat)
      requires Descending(list)
      ensures Boundary(list, feeRate, index)
    {
      var i, j := 0, |list|;
      while i < j
        invariant 0 <= i <= j <= |list|
        invariant forall x :: 0 <= x < i ==> list[x].feeRate >= feeRate
        invariant forall x :: j <= x < |list| ==> list[x].feeRate < feeRate
      {
        var h := (i + j) / 2;
        if list[h].feeRate < feeRate {
          j := h;
        } else {
          i := h + 1;
        }
      }
      index := i;
    }

    method CompareAndInsert(item: Item) returns (ghost index: nat)
      requires Valid() && item.size > 0
      modifies this`list, this`totalSize, this`stamps, this`clock
      ensures Boundary(old(list), item.feeRate, index) && list == Inserted(old(list), index, item)
      ensures Ordered(list, stamps) && stamps == Inserted(old(stamps), index, old(clock))
      ensures PositiveSizes(list) && clock == old(clock) + 1
      ensures forall i :: 0 <= i < |stamps| ==> stamps[i] < clock
      ensures totalSize == SizeOf(list) == old(totalSize) + item.size
    {
      OrderedDescends(list, stamps);
      var at := Search(item.feeRate);
      index := at;
      InsertedOrdered(list, stamps, at, item, clock);
      SizeOfInserted(list, at, item);
      list := list[..at] + [item] + list[at..];
      stamps, clock := Inserted(stamps, at, clock), clock + 1;
      totalSize := totalSize + item.size;
    }

    /** Inserts by rate, then drops from the back until the sizes fit; a low rate on a full list is
        refused at once.  Either way the list is the longest fitting prefix of the insertion. */
    method AddTx(hash: Hash, fee: int, size: nat) returns (r: AddResult, popped: seq<Hash>)
      requires Valid()
      modifies this`list, this`totalSize, this`stamps, this`clock
      ensures Valid()
      ensures r == IllegalSize <==> size == 0
      ensures size == 0 ==> list == old(list) && popped == []
      ensures size > 0 ==>
                var item := Item(hash, fee as real / size as real, size);
                && (exists k :: Boundary(old(list), item.feeRate, k) &&
                      list == Fit(Inserted(old(list), k, item), maxSize) &&
                                (r == Added ==> DroppedFrom(popped, Inserted(old(list), k, item), list)))
                && (r == Excluded <==>
                      old(OverSize(size)) && old(list) != [] && item.feeRate < old(list)[|old(list)| - 1].feeRate)
      ensures r != Added ==> popped == [] && list == old(list)
      ensures old(!OverSize(size)) ==> popped == []
    {
      hide SizeOf, Fit;
      popped := [];
      if size <= 0 {
        return IllegalSize, [];
      }
      var feeRate := fee as real / size as real;
      var item := Item(hash, feeRate, size);
      var overSize := OverSize(size);
      OrderedDescends(list, stamps);
      if overSize && |list| > 0 && feeRate < list[|list| - 1].feeRate {
        assert Boundary(list, feeRate, |list|);
        ExcludedFits(list, item, |list|, maxSize);
        return Excluded, [];
      }
      ghost var k := CompareAndInsert(item);
      FitWhole(list, maxSize);
      if overSize {
        popped := DropUntilFits();
      }
      r := Added;
    }

    /** Pops items off the back while the list is too large. */
    method DropUntilFits() returns (popped: seq<Hash>)
      requires Ordered(list, stamps) && PositiveSizes(list) && totalSize == SizeOf(list)
      modifies this`list, this`totalSize, this`stamps
      ensures list == Fit(old(list), maxSize) && totalSize == SizeOf(list) && stamps == old(stamps)[..|list|]
      ensures Ordered(list, stamps) && PositiveSizes(list)
      ensures DroppedFrom(popped, old(list), list)
    {
      popped := [];
      FitWhole(list, maxSize);
      assert stamps[..|list|] == stamps;
      while OverSize(0)
        invariant list <= old(list) && Fit(list, maxSize) == Fit(old(list), maxSize)
        invariant totalSize == SizeOf(list) && stamps == old(stamps)[..|list|]
        invariant totalSize <= maxSize ==> list == Fit(list, maxSize)
        invariant DroppedFrom(popped, old(list), list)
        decreases |list|
      {
        var item := list[|list| - 1];
        list := list[..|list| - 1];
        stamps := stamps[..|stamps| - 1];
        totalSize := totalSize - item.size;
        popped := popped + [item.hash];
      }
    }

    /** Scans back from an index for a hash. */
    method Locate(givenIndex: nat, hash: Hash) returns (i: int)
      requires givenIndex <= |list|
      ensures -1 <= i < |list| && i <= givenIndex
      ensures i >= 0 ==> list[i].hash == hash
      ensures forall x :: i < x <= givenIndex && x < |list| ==> list[x].hash != hash
    {
      i := if givenIndex == |list| then givenIndex - 1 else givenIndex;
      while i >= 0
        invariant -1 <= i < |list| && i <= givenIndex
        invariant forall x :: i < x <= givenIndex && x < |list| ==> list[x].hash != hash
      {
        if hash == list[i].hash {
          return;
        }
        i := i - 1;
      }
    }

    /** Removes a hash looked up by rate.  It is found exactly when an entry of that hash is first, or
        follows one whose rate is not below the given rate.  The given size comes off the total, which
        stays right exactly when it is the entry's. */
    method RemoveTx(hash: Hash, txSize: nat, feeRate: real) returns (found: bool)
      requires Valid()
      modifies this`list, this`totalSize, this`stamps
      ensures found <==> exists i :: Reachable(old(list), hash, feeRate, i)
      ensures !found ==> Valid() && list == old(list)
      ensures found ==>
                totalSize == old(totalSize) - txSize
                && exists i :: Reachable(old(list), hash, feeRate, i) && list == Removed(old(list), i)
                               && (Valid() <==> old(list)[i].size == txSize)
    {
      hide SizeOf, Ordered;
      OrderedDescends(list, stamps);
      var index := Search(feeRate);
      var i := Locate(index, hash);
      ReachableIff(list, hash, feeRate, index);
      if i < 0 {
        return false;
      }
      SameLength(list, stamps);
      RemovedOrdered(list, stamps, i);
      SizeOfRemoved(list, i);
      assert Reachable(list, hash, feeRate, i);
      list := list[..i] + list[i + 1..];
      stamps := Removed(stamps, i);
      totalSize := totalSize - txSize;
      found := true;
    }
  }

  /** An entry the search by rate gets to. */
  predicate Reachable(list: seq<Item>, hash: Hash, feeRate: real, i: int) {
    0 <= i < |list| && list[i].hash == hash && (i == 0 || list[i - 1].feeRate >= feeRate)
  }

  /** Given a rate no higher than the recorded one, a held hash is always found. */
  lemma LowRateFinds(list: seq<Item>, hash: Hash, feeRate: real, i: nat)
    requires Descending(list) && i < |list| && list[i].hash == hash && feeRate <= list[i].feeRate
    ensures Reachable(list, hash, feeRate, i)
  {
  }

  lemma ReachableIff(list: seq<Item>, hash: Hash, feeRate: real, index: nat)
    requires Descending(list) && Boundary(list, feeRate, index)
    ensures forall i :: Reachable(list, hash, feeRate, i) <==> 0 <= i < |list| && i <= index && list[i].hash == hash
  {
  }

  lemma OrderedDescends(list: seq<Item>, stamps: seq<nat>)
    requires Ordered(list, stamps)
    ensures Descending(list)
  {
  }

  lemma SameLength(list: seq<Item>, stamps: seq<nat>)
    requires Ordered(list, stamps)
    ensures |list| == |stamps|
  {
  }

  lemma FitWhole(list: seq<Item>, maxSize: nat)
    ensures SizeOf(list) <= maxSize ==> Fit(list, maxSize) == list
  {
  }
}
