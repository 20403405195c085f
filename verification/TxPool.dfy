/** The transaction pool of mempool/txpool.go: its list, fee order, totals and conflict slots. */
module TxPool {
  import opened Common
  import opened ConflictSlots
  import opened FeeList

  // ---------------------------------------------------------------- budgets

  function Sum(amounts: seq<int>): int {
    if amounts == [] then 0 else Sum(amounts[..|amounts| - 1]) + amounts[|amounts| - 1]
  }

  lemma {:induction false} SumJoin(a: seq<int>, b: seq<int>)
    ensures Sum(a + b) == Sum(a) + Sum(b)
    ensures forall x :: Sum([x]) == x
    decreases |b|
  {
    if b == [] {
      assert a + b == a;
    } else {
      SumJoin(a, b[..|b| - 1]);
      assert (a + b)[..|a + b| - 1] == a + b[..|b| - 1];
    }
  }

  /** What a pooled transaction holds of the proposal budget. */
  function Budget(c: Content): int {
    if c.kind.Proposal? then Sum(c.budgets) else 0
  }

  /** Adds up a weight over the pooled transactions. */
  ghost function Total(pool: Pooled, weight: Content -> int): int
    decreases |pool|
  {
    if pool == map[] then 0 else
      var h :| h in pool;
      weight(pool[h].content) + Total(pool - {h}, weight)
  }

  lemma {:induction false} TotalWithout(pool: Pooled, weight: Content -> int, h: Hash)
    requires h in pool
    ensures Total(pool, weight) == weight(pool[h].content) + Total(pool - {h}, weight)
    decreases |pool|
  {
    var g :| g in pool && Total(pool, weight) == weight(pool[g].content) + Total(pool - {g}, weight);
    if g != h {
      assert |pool - {g}| < |pool| && |pool - {h}| < |pool| by {
        assert (pool - {g}).Keys == pool.Keys - {g};
        assert (pool - {h}).Keys == pool.Keys - {h};
      }
      TotalWithout(pool - {g}, weight, h);
      TotalWithout(pool - {h}, weight, g);
      assert pool - {g} - {h} == pool - {h} - {g};
    }
  }

  ghost function PooledBudgets(pool: Pooled): int {
    Total(pool, Budget)
  }

  lemma BudgetsLess(pool: Pooled, h: Hash)
    requires h in pool
    ensures PooledBudgets(pool) == Budget(pool[h].content) + PooledBudgets(pool - {h})
  {
    TotalWithout(pool, Budget, h);
  }

  lemma BudgetsWithout(pool: Pooled, h: Hash)
    requires h in pool
    ensures PooledBudgets(map[]) == 0
    ensures var c := pool[h].content;
            PooledBudgets(pool) == (if c.kind.Proposal? then Sum(c.budgets) else 0) + PooledBudgets(pool - {h})
  {
    TotalWithout(pool, Budget, h);
  }

  lemma BudgetsWith(pool: Pooled, tx: Tx)
    requires tx.hash !in pool
    ensures PooledBudgets(pool[tx.hash := tx]) == PooledBudgets(pool) + Budget(tx.content)
  {
    BudgetsLess(pool[tx.hash := tx], tx.hash);
    assert pool[tx.hash := tx] - {tx.hash} == pool;
  }

  // ---------------------------------------------------------------- fee list and pool

  function Rate(tx: Tx): real {
    if tx.content.size == 0 then 0.0 else tx.fee as real / tx.content.size as real
  }

  predicate ItemOf(item: Item, tx: Tx) {
    item == Item(tx.hash, Rate(tx), tx.content.size)
  }

  /** The list holds one item for each pooled transaction, and no other. */
  ghost predicate ListMatches(list: seq<Item>, pool: Pooled) {
    ItemsPooled(list, pool) && OnceEach(list) && forall h :: h in pool ==> Listed(list, h)
  }

  ghost predicate ItemsPooled(list: seq<Item>, pool: Pooled) {
    forall i :: 0 <= i < |list| ==> list[i].hash in pool && ItemOf(list[i], pool[list[i].hash])
  }

  predicate OnceEach(list: seq<Item>) {
    forall i, j :: 0 <= i < j < |list| ==> list[i].hash != list[j].hash
  }

  predicate Listed(list: seq<Item>, h: Hash) {
    exists i :: 0 <= i < |list| && list[i].hash == h
  }

  /** Where the items of a list are once another is inserted. */
  lemma InsertedAt(list: seq<Item>, k: nat, item: Item)
    requires k <= |list|
    ensures var more := Inserted(list, k, item);
            && |more| == |list| + 1 && more[k] == item
            && (forall i :: 0 <= i < k ==> more[i] == list[i])
            && (forall i :: k < i < |more| ==> more[i] == list[i - 1])
  {
  }

  lemma ListedInserted(list: seq<Item>, k: nat, item: Item, h: Hash)
    requires k <= |list| && (h == item.hash || Listed(list, h))
    ensures Listed(Inserted(list, k, item), h)
  {
    hide Inserted;
    InsertedAt(list, k, item);
    var more := Inserted(list, k, item);
    if h == item.hash {
      assert more[k].hash == h;
    } else {
      var i :| 0 <= i < |list| && list[i].hash == h;
      assert more[if i < k then i else i + 1].hash == h;
    }
  }

  lemma OnceInserted(list: seq<Item>, pool: Pooled, k: nat, item: Item)
    requires k <= |list| && OnceEach(list) && item.hash !in pool
    requires forall i :: 0 <= i < |list| ==> list[i].hash in pool
    ensures OnceEach(Inserted(list, k, item))
  {
    hide Inserted;
    InsertedAt(list, k, item);
  }

  lemma ListInsert(list: seq<Item>, pool: Pooled, tx: Tx, k: nat, item: Item)
    requires ListMatches(list, pool) && tx.hash !in pool && k <= |list| && ItemOf(item, tx) && item.hash == tx.hash
    ensures ListMatches(Inserted(list, k, item), pool[tx.hash := tx])
  {
    hide ItemOf, Inserted, Listed, OnceEach;
    InsertedAt(list, k, item);
    OnceInserted(list, pool, k, item);
    forall h | h in pool[tx.hash := tx]
      ensures Listed(Inserted(list, k, item), h)
    {
      ListedInserted(list, k, item, h);
    }
  }

  lemma ListRemove(list: seq<Item>, pool: Pooled, k: nat)
    requires ListMatches(list, pool) && k < |list|
    ensures ListMatches(Removed(list, k), pool - {list[k].hash})
  {
    hide ItemOf;
    var less, pool' := Removed(list, k), pool - {list[k].hash};
    assert forall i :: 0 <= i < k ==> less[i] == list[i];
    assert forall i :: k <= i < |less| ==> less[i] == list[i + 1];
    forall h | h in pool'
      ensures Listed(less, h)
    {
      assert Listed(list, h);
      var i :| 0 <= i < |list| && list[i].hash == h;
      assert less[if i < k then i else i - 1].hash == h;
    }
  }

  // ---------------------------------------------------------------- the pool

  datatype Reason =
    | Invalid | DuplicateTx | IneffectiveCoinbase | InsaneTx | ContextFailed | Conflict | OverCapacity
    | AppendFailed | StoreFailed

  /** The answers of transaction validation and of the store for small cross-chain transfers. */
  datatype Answers = Answers(sane: bool, inContext: int -> bool, stored: bool)

  lemma ListedSize(list: seq<Item>, pool: Pooled, tx: Tx)
    requires ListMatches(list, pool) && tx.hash in pool && tx.content == pool[tx.hash].content
    ensures forall i :: 0 <= i < |list| && list[i].hash == tx.hash ==> list[i].size == tx.content.size
  {
    hide Rate;
  }

  /** A transaction no dearer than the pooled one is always found in the fee list. */
  lemma FoundByRate(list: seq<Item>, stamps: seq<nat>, pool: Pooled, tx: Tx)
    requires ListMatches(list, pool) && Ordered(list, stamps)
    requires tx.hash in pool && Rate(tx) <= Rate(pool[tx.hash])
    ensures exists i :: Reachable(list, tx.hash, Rate(tx), i)
  {
    hide Rate;
    assert Listed(list, tx.hash);
    var i :| 0 <= i < |list| && list[i].hash == tx.hash;
    OrderedDescends(list, stamps);
    LowRateFinds(list, tx.hash, Rate(tx), i);
  }

  lemma ListAfterRemove(before: seq<Item>, after: seq<Item>, pool: Pooled, h: Hash, rate: real)
    requires ListMatches(before, pool)
    requires exists i :: Reachable(before, h, rate, i) && after == Removed(before, i)
    ensures ListMatches(after, pool - {h})
  {
    hide ListMatches;
    var i :| Reachable(before, h, rate, i) && after == Removed(before, i);
    ListRemove(before, pool, i);
  }

  class Pool {
    const conflicts: ConflictManager
    const txFees: OrderedList
    var txnList: Pooled
    var crossChainHeightList: map<Hash, nat>
    var txReceivingInfo: map<Hash, nat>
    var proposalsUsedAmount: int

    ghost predicate Separate() {
      txFees !in conflicts.Objects() && this !in conflicts.Objects()
    }

    ghost function Rules(): seq<Rule> {
      conflicts.Rules()
    }

    /** Every pooled transaction sits under its hash and its keys can be read in every slot. */
    ghost predicate TxsOk()
      reads this
    {
      forall h :: h in txnList ==>
        txnList[h].hash == h && txnList[h].content.size > 0 && AllKeysOk(Rules(), txnList[h].content)
    }

    /** List, fee order, totals and side tables all speak of the same transactions. */
    ghost predicate Valid()
      reads this, txFees
    {
      && Separate() && conflicts.Distinct() && txFees.Valid()
      && TxsOk()
      && ListMatches(txFees.list, txnList)
      && proposalsUsedAmount == PooledBudgets(txnList)
      && crossChainHeightList.Keys <= txnList.Keys && txReceivingInfo.Keys <= txnList.Keys
    }

    /** Slot i maps the keys of the pooled transactions to their owners, except for the freed ones. */
    ghost predicate SlotBut(i: nat, freed: set<Key>)
      requires i < |conflicts.conflictSlots|
      reads this, conflicts.conflictSlots[i]
    {
      ExactBut(conflicts.conflictSlots[i].rule, conflicts.conflictSlots[i].table, txnList, freed)
    }

    /** Slot i maps exactly the keys of the pooled transactions to their owners. */
    ghost predicate SlotExact(i: nat)
      requires i < |conflicts.conflictSlots|
      reads this, conflicts.conflictSlots[i]
    {
      SlotBut(i, {})
    }

    constructor (rules: seq<Rule>, maxSize: nat)
      ensures Valid() && txnList == map[] && Rules() == rules && txFees.maxSize == maxSize
      ensures fresh(txFees) && fresh(conflicts.Objects())
      ensures forall i :: 0 <= i < |conflicts.conflictSlots| ==> SlotExact(i)
    {
      conflicts := new ConflictManager(rules);
      txFees := new OrderedList(maxSize);
      txnList, crossChainHeightList, txReceivingInfo, proposalsUsedAmount := map[], map[], map[], 0;
    }

    method DealAddProposalTx(tx: Tx)
      modifies this`proposalsUsedAmount
      ensures proposalsUsedAmount == old(proposalsUsedAmount) + Sum(tx.content.budgets)
    {
      var budgets := tx.content.budgets;
      for i := 0 to |budgets|
        invariant proposalsUsedAmount == old(proposalsUsedAmount) + Sum(budgets[..i])
      {
        assert budgets[..i + 1][..i] == budgets[..i];
        proposalsUsedAmount := proposalsUsedAmount + budgets[i];
      }
      assert budgets[..|budgets|] == budgets;
    }

    method DealDelProposalTx(tx: Tx)
      modifies this`proposalsUsedAmount
      ensures proposalsUsedAmount == old(proposalsUsedAmount) - Sum(tx.content.budgets)
    {
      var budgets := tx.content.budgets;
      for i := 0 to |budgets|
        invariant proposalsUsedAmount == old(proposalsUsedAmount) - Sum(budgets[..i])
      {
        assert budgets[..i + 1][..i] == budgets[..i];
        proposalsUsedAmount := proposalsUsedAmount - budgets[i];
      }
      assert budgets[..|budgets|] == budgets;
    }

    /** The given object may be a block's copy of the pooled one: same content, and a fee that is the
        pooled one's or not filled in. */
    ghost predicate SameAsPooled(tx: Tx)
      reads this
    {
      tx.hash in txnList ==>
        tx.content == txnList[tx.hash].content && Rate(tx) <= Rate(txnList[tx.hash])
    }

    /** Takes a transaction out of the list, the totals, the fee order and the slots. */
    method DoRemoveTransaction(tx: Tx)
      requires Valid() && SameAsPooled(tx)
      modifies this, txFees, conflicts.Objects()
      ensures Valid() && txnList == old(txnList) - {tx.hash}
      ensures forall i, freed :: 0 <= i < |conflicts.conflictSlots| && old(SlotBut(i, freed)) ==> SlotBut(i, freed)
    {
      hide KeysOf, PooledBudgets, ListMatches, Sum, Ordered, SizeOf, ExactBut;
      if tx.hash in txnList {
        BudgetsLess(txnList, tx.hash);
        ListedSize(txFees.list, txnList, tx);
        FoundByRate(txFees.list, txFees.stamps, txnList, tx);
        forall i, freed | 0 <= i < |conflicts.conflictSlots| && SlotBut(i, freed)
          ensures KeysOf(conflicts.conflictSlots[i].rule, tx.content).Ok?
          ensures ExactBut(conflicts.conflictSlots[i].rule,
                           conflicts.conflictSlots[i].table -
                             KeySet(KeysOf(conflicts.conflictSlots[i].rule, tx.content).value),
                           txnList - {tx.hash}, freed)
        {
          assert KeysOf(Rules()[i], tx.content).Ok?;
          RemoveExact(conflicts.conflictSlots[i].rule, conflicts.conflictSlots[i].table, txnList, freed, tx);
        }
        txnList := txnList - {tx.hash};
        if tx.content.kind.Proposal? {
          DealDelProposalTx(tx);
        }
        crossChainHeightList := crossChainHeightList - {tx.hash};
        txReceivingInfo := txReceivingInfo - {tx.hash};
        var found := txFees.RemoveTx(tx.hash, tx.content.size, Rate(tx));
        ListAfterRemove(old(txFees.list), txFees.list, old(txnList), tx.hash, Rate(tx));
        var ok, _ := conflicts.RemoveTx(tx);
      }
    }

    /** Removes the pooled transactions that a new one displaces, in any order. */
    method RemoveDisplaced(tx: Tx)
      requires Valid()
      modifies this, txFees, conflicts.Objects()
      ensures Valid() && txnList == Purged(old(txnList), tx)
      ensures forall i :: 0 <= i < |conflicts.conflictSlots| && old(SlotExact(i)) ==> SlotExact(i)
    {
      hide Displaced, ExactBut, ListMatches, Ordered, PooledBudgets, AllKeysOk, SizeOf;
      var todo := txnList.Keys;
      while todo != {}
        invariant Valid() && todo <= txnList.Keys
        invariant forall h :: h in txnList ==> h in old(txnList) && txnList[h] == old(txnList)[h]
        invariant forall h :: h in old(txnList) ==>
                    (h in txnList <==> h in todo || !Displaced(tx.content, old(txnList)[h].content))
        invariant forall i :: 0 <= i < |conflicts.conflictSlots| && old(SlotExact(i)) ==> SlotExact(i)
        decreases |todo|
      {
        var h :| h in todo;
        todo := todo - {h};
        var other := txnList[h];
        if Displaced(tx.content, other.content) {
          DoRemoveTransaction(other);
        }
      }
    }

    /** Adds a transaction to the fee list, the pool and the totals.  The size check made before rules
        out any eviction. */
    method DoAddTransaction(tx: Tx) returns (ok: bool)
      requires Valid() && tx.hash !in txnList && AllKeysOk(Rules(), tx.content)
      requires !txFees.OverSize(tx.content.size)
      modifies this, txFees
      ensures Valid()
      ensures ok <==> tx.content.size > 0
      ensures txnList == if ok then old(txnList)[tx.hash := tx] else old(txnList)
    {
      hide ListMatches, Ordered, PooledBudgets, AllKeysOk, SizeOf, Sum, Fit;
      var r, popped := txFees.AddTx(tx.hash, tx.fee, tx.content.size);
      if r != Added {
        return false;
      }
      assert popped == [];
      ghost var item := Item(tx.hash, Rate(tx), tx.content.size);
      ghost var k :| Boundary(old(txFees.list), item.feeRate, k) &&
          txFees.list == Fit(Inserted(old(txFees.list), k, item), txFees.maxSize);
      ListAfterAdd(old(txFees.list), txFees.list, txnList, tx, txFees.maxSize, k);
      BudgetsWith(txnList, tx);
      txnList := txnList[tx.hash := tx];
      if tx.content.kind.Proposal? {
        DealAddProposalTx(tx);
      }
      ok := true;
    }

    /** Checks a transaction against the pool.  With exact slots it passes exactly the admissible ones. */
    method VerifyWithPool(tx: Tx) returns (ok: bool)
      requires Valid()
      ensures ok <==> forall i :: 0 <= i < |conflicts.conflictSlots| ==>
                        KeysOf(conflicts.conflictSlots[i].rule, tx.content).Ok? &&
                        Free(conflicts.conflictSlots[i].table,
                            KeysOf(conflicts.conflictSlots[i].rule, tx.content).value)
      ensures (forall i :: 0 <= i < |conflicts.conflictSlots| ==> SlotExact(i)) ==>
                (ok <==> Admissible(Rules(), txnList, tx.content))
    {
      hide KeysOf, ExactBut, Free, Unshared, ListMatches, Ordered, PooledBudgets, SizeOf;
      ok := conflicts.VerifyTx(tx);
      if forall i :: 0 <= i < |conflicts.conflictSlots| ==> SlotExact(i) {
        forall i | 0 <= i < |conflicts.conflictSlots| && KeysOf(conflicts.conflictSlots[i].rule, tx.content).Ok?
          ensures Free(conflicts.conflictSlots[i].table, KeysOf(conflicts.conflictSlots[i].rule, tx.content).value)
             <==> Unshared(conflicts.conflictSlots[i].rule, txnList, tx.content)
        {
          assert SlotExact(i);
          FreeExact(conflicts.conflictSlots[i].rule, conflicts.conflictSlots[i].table, txnList, tx.content);
        }
      }
    }

    /** Checks a transaction against the pool and adds it.  Once VerifyTx has passed, entering the keys
        cannot fail, so no slot is ever left half updated. */
    method AppendVerified(tx: Tx) returns (err: Option<Reason>)
      requires Valid() && tx.hash !in txnList
      modifies this, txFees, conflicts.Objects()
      ensures Valid() && (err == None || err == Some(Conflict) || err == Some(OverCapacity) || err == Some(Invalid))
      ensures old(forall i :: 0 <= i < |conflicts.conflictSlots| ==> SlotExact(i)) ==>
                (err == Some(Conflict) <==> !Admissible(Rules(), old(txnList), tx.content))
      ensures err == Some(Conflict) || err == Unfit(PooledSize(old(txnList)), txFees.maxSize, tx)
      ensures forall i :: 0 <= i < |conflicts.conflictSlots| && old(SlotExact(i)) ==> SlotExact(i)
      ensures txnList == if err.None? then old(txnList)[tx.hash := tx] else old(txnList)
    {
      hide KeysOf, ExactBut, ListMatches, Ordered, PooledBudgets, SizeOf, Entered, KeySet, Free, Admissible, PooledSize;
      ListSize(txFees.list, txnList);
      var verified := VerifyWithPool(tx);
      if !verified {
        return Some(Conflict);
      }
      if txFees.OverSize(tx.content.size) {
        return Some(OverCapacity);
      }
      forall i | 0 <= i < |conflicts.conflictSlots|
        ensures var slot := conflicts.conflictSlots[i]; var keys := KeysOf(slot.rule, tx.content).value;
                && (SlotExact(i) ==> Exact(slot.rule, Entered(slot.table, keys, tx), txnList[tx.hash := tx]))
                && Entered(slot.table, keys, tx) - KeySet(keys) == slot.table
      {
        var slot := conflicts.conflictSlots[i];
        UndoEnter(slot.table, KeysOf(slot.rule, tx.content).value, tx);
        if SlotExact(i) {
          EnterExact(slot.rule, slot.table, txnList, tx);
        }
      }
      var ok, _ := conflicts.AppendTx(tx);
      if !ok {
        return Some(AppendFailed);
      }
      var added := DoAddTransaction(tx);
      if !added {
        var _, _ := conflicts.RemoveTx(tx);
        return Some(Invalid);
      }
      err := None;
    }

    /** The checks that come before the pool is looked at. */
    method Screen(tx: Tx, answers: Answers) returns (err: Option<Reason>)
      requires Valid()
      modifies this, txFees, conflicts.Objects()
      ensures Valid()
      ensures forall i :: 0 <= i < |conflicts.conflictSlots| && old(SlotExact(i)) ==> SlotExact(i)
      ensures txnList == Screened(old(txnList), tx) && err == Refusal(old(txnList), tx, answers)
    {
      hide Displaced, ExactBut, ListMatches, Ordered, PooledBudgets, AllKeysOk, SizeOf;
      if tx.content.kind.RecordSponsor? {
        return Some(Invalid);
      }
      if tx.content.kind.Appropriation? {
        RemoveDisplaced(tx);
      }
      if tx.hash in txnList {
        return Some(DuplicateTx);
      }
      if tx.content.kind.CoinBase? {
        return Some(IneffectiveCoinbase);
      }
      if !answers.sane {
        return Some(InsaneTx);
      }
      if !answers.inContext(proposalsUsedAmount) {
        return Some(ContextFailed);
      }
      err := None;
    }

    /** Displaces what is left to displace, and adds the transaction. */
    method AppendPurged(tx: Tx, ghost before: Pooled) returns (err: Option<Reason>)
      requires Valid() && txnList == Screened(before, tx) && tx.hash !in txnList
      modifies this, txFees, conflicts.Objects()
      ensures Valid()
      ensures forall i :: 0 <= i < |conflicts.conflictSlots| && old(SlotExact(i)) ==> SlotExact(i)
      ensures old(forall i :: 0 <= i < |conflicts.conflictSlots| ==> SlotExact(i)) ==>
                (err == Some(Conflict) <==> !Admissible(Rules(), Purged(before, tx), tx.content))
      ensures err == Some(Conflict) || err == Unfit(PooledSize(Purged(before, tx)), txFees.maxSize, tx)
      ensures txnList == if err.None? then Purged(before, tx)[tx.hash := tx] else Purged(before, tx)
    {
      hide Displaced, ExactBut, ListMatches, Ordered, PooledBudgets, AllKeysOk, SizeOf, Admissible, Purged, PooledSize;
      hide Unfit;
      if tx.content.kind.SideChainPow? {
        RemoveDisplaced(tx);
      }
      PurgeNothing(before, tx);
      PurgedKeys(before, tx);
      err := AppendVerified(tx);
    }

    /** Screens a transaction, adds it and records its height. */
    method AppendScreened(tx: Tx, bestHeight: nat, crossStart: nat, answers: Answers) returns (err: Option<Reason>)
      requires Valid()
      modifies this, txFees, conflicts.Objects()
      ensures Valid() && err != Some(AppendFailed)
      ensures forall i :: 0 <= i < |conflicts.conflictSlots| && old(SlotExact(i)) ==> SlotExact(i)
      ensures Refusal(old(txnList), tx, answers).Some? ==>
                err == Refusal(old(txnList), tx, answers) && txnList == Screened(old(txnList), tx)
      ensures Refusal(old(txnList), tx, answers).None? ==>
                && (old(forall i :: 0 <= i < |conflicts.conflictSlots| ==> SlotExact(i)) ==>
                      (err == Some(Conflict) <==> !Admissible(Rules(), Purged(old(txnList), tx), tx.content)))
                && (err == Some(Conflict) ||
                      var unfit := Unfit(PooledSize(Purged(old(txnList), tx)), txFees.maxSize, tx);
                      err == if unfit.None? && Unstored(tx, bestHeight, crossStart, answers) then Some(StoreFailed)
                             else unfit)
                && (err == None ==> tx.hash in txReceivingInfo && txReceivingInfo[tx.hash] == bestHeight)
                && (err == None && bestHeight > crossStart && tx.content.kind.SmallCrossTransfer? ==>
                      tx.hash in crossChainHeightList && crossChainHeightList[tx.hash] == bestHeight)
                && txnList == if err == None || err == Some(StoreFailed) then Purged(old(txnList), tx)[tx.hash := tx]
                              else Purged(old(txnList), tx)
    {
      hide Displaced, ExactBut, ListMatches, Ordered, PooledBudgets, AllKeysOk, SizeOf, Admissible, Purged, PooledSize;
      err := Screen(tx, answers);
      if err.Some? {
        return;
      }
      err := AppendPurged(tx, old(txnList));
      if err.Some? {
        return;
      }
      if bestHeight > crossStart && tx.content.kind.SmallCrossTransfer? {
        if !answers.stored {
          return Some(StoreFailed);
        }
        crossChainHeightList := crossChainHeightList[tx.hash := bestHeight];
      }
      txReceivingInfo := txReceivingInfo[tx.hash := bestHeight];
    }

    /** Takes a transaction into the pool, after all its checks.  `kept` is the pool once an appropriation
        has pushed out the rectifications, and `room` once a side-chain proof has pushed out the proofs
        for its side chain; the latter happens only to a transaction that passed the first checks. */
    method AppendToTxPool(tx: Tx, bestHeight: nat, crossStart: nat, answers: Answers)
      returns (err: Option<Reason>, ghost kept: Pooled, ghost room: Pooled, ghost passed: bool, ghost fits: bool)
      requires Valid()
      modifies this, txFees, conflicts.Objects()
      ensures forall i :: 0 <= i < |conflicts.conflictSlots| && old(SlotExact(i)) ==> SlotExact(i)
      ensures forall h :: h in kept <==>
                && h in old(txnList)
                && !(tx.content.kind.Appropriation? && old(txnList)[h].content.kind.AssetsRectify?)
      ensures forall h :: h in kept ==> h in old(txnList) && kept[h] == old(txnList)[h]
      ensures forall h :: h in room <==>
                && h in kept
                && !(&& tx.content.kind.SideChainPow? && kept[h].content.kind.SideChainPow?
                     && tx.content.kind.genesis == kept[h].content.kind.genesis)
      ensures forall h :: h in room ==> h in kept && room[h] == kept[h]
      ensures passed <==>
                && !tx.content.kind.RecordSponsor? && !tx.content.kind.CoinBase? && tx.hash !in kept
                && answers.sane && answers.inContext(PooledBudgets(kept))
      ensures fits <==> passed && err != Some(Conflict) && PooledSize(room) + tx.content.size <= txFees.maxSize
      ensures err == Some(DuplicateTx) <==> !tx.content.kind.RecordSponsor? && tx.hash in kept
      ensures err == Some(IneffectiveCoinbase) <==> tx.content.kind.CoinBase? && tx.hash !in kept
      ensures err == Some(InsaneTx) <==>
                !tx.content.kind.RecordSponsor? && !tx.content.kind.CoinBase? && tx.hash !in kept && !answers.sane
      ensures err == Some(ContextFailed) <==>
                && !tx.content.kind.RecordSponsor? && !tx.content.kind.CoinBase? && tx.hash !in kept
                && answers.sane && !answers.inContext(PooledBudgets(kept))
      ensures err == Some(Conflict) ==> passed
      ensures old(forall i :: 0 <= i < |conflicts.conflictSlots| ==> SlotExact(i)) ==>
                (err == Some(Conflict) <==> passed && !Admissible(Rules(), room, tx.content))
      ensures err == Some(OverCapacity) <==> passed && err != Some(Conflict) && !fits
      ensures err == Some(Invalid) <==> tx.content.kind.RecordSponsor? || (fits && tx.content.size == 0)
      ensures err == Some(StoreFailed) <==>
                && fits && tx.content.size > 0
                && bestHeight > crossStart && tx.content.kind.SmallCrossTransfer? && !answers.stored
      ensures err == None ==> fits && tx.content.size > 0
      ensures err != Some(AppendFailed)
      ensures txnList == if fits && tx.content.size > 0 then room[tx.hash := tx] else if passed then room else kept
      ensures err == None ==> tx.hash in txReceivingInfo && txReceivingInfo[tx.hash] == bestHeight
      ensures err == None && bestHeight > crossStart && tx.content.kind.SmallCrossTransfer? ==>
                tx.hash in crossChainHeightList && crossChainHeightList[tx.hash] == bestHeight
      ensures Valid()
    {
      hide Displaced, ExactBut, ListMatches, Ordered, PooledBudgets, AllKeysOk, SizeOf, Admissible, Purged, PooledSize;
      hide Valid, SlotExact, Screened, Refusal;
      kept, room := Screened(txnList, tx), Purged(txnList, tx);
      RefusalExactly(txnList, tx, answers);
      PurgedExactly(txnList, tx);
      passed := Refusal(txnList, tx, answers).None?;
      err := AppendScreened(tx, bestHeight, crossStart, answers);
      fits := passed && err != Some(Conflict) && PooledSize(room) + tx.content.size <= txFees.maxSize;
    }

    /** Removes the pooled transactions that spend an input of a block's transaction. */
    method CleanInputs(blockTx: Tx, ghost at: nat)
      requires Valid() && InputsSlotAt(Rules(), at) && SlotExact(at) && blockTx.content.resolves
      modifies this, txFees, conflicts.Objects()
      ensures Valid()
      ensures txnList == Without(old(txnList), blockTx.content.inputs)
      ensures forall i, freed :: 0 <= i < |conflicts.conflictSlots| && old(SlotBut(i, freed)) ==> SlotBut(i, freed)
    {
      hide ExactBut, ListMatches, Ordered, PooledBudgets, SizeOf, InputsSlotAt, AllKeysOk, KeysOf, Without;
      var inputs := blockTx.content.inputs;
      InputsSlotName(Rules(), at);
      WithoutNone(txnList);
      for j := 0 to |inputs|
        invariant Valid()
        invariant txnList == Without(old(txnList), inputs[..j])
        invariant forall i, freed :: 0 <= i < |conflicts.conflictSlots| && old(SlotBut(i, freed)) ==> SlotBut(i, freed)
      {
        assert SlotBut(at, {});
        var tx := conflicts.GetTx(Str(inputs[j]), INPUTS_SLOT);
        assert conflicts.FirstNamed(INPUTS_SLOT, at);
        InputOwner(Rules(), at, conflicts.conflictSlots[at].table, txnList, inputs[j]);
        WithoutOne(old(txnList), inputs, j, if tx.Some? then {tx.value.hash} else {});
        if tx.Some? {
          DoRemoveTransaction(tx.value);
        }
        assert txnList == Without(old(txnList), inputs[..j]) - (if tx.Some? then {tx.value.hash} else {});
      }
      assert inputs[..|inputs|] == inputs;
    }

    /** Takes a block transaction's keys out of the slots, as far as they can be read. */
    method FreeKeys(blockTx: Tx)
      requires Valid() && !Skipped(blockTx.content)
      modifies conflicts.Objects()
      ensures Valid()
      ensures forall i, freed :: 0 <= i < |conflicts.conflictSlots| && old(SlotBut(i, freed)) ==>
                SlotBut(i, freed + Freed(Rules(), i, blockTx.content))
    {
      hide ExactBut, ListMatches, Ordered, PooledBudgets, SizeOf, AllKeysOk, KeysOf, KeySet;
      ghost var c := blockTx.content;
      forall i, freed | 0 <= i < |conflicts.conflictSlots| && SlotBut(i, freed)
        ensures ExactBut(conflicts.conflictSlots[i].rule, conflicts.conflictSlots[i].table - Freed(Rules(), i, c),
                         txnList, freed + Freed(Rules(), i, c))
      {
        FreeMore(conflicts.conflictSlots[i].rule, conflicts.conflictSlots[i].table, txnList, freed,
            Freed(Rules(), i, c));
      }
      var ok, done := conflicts.RemoveTx(blockTx);
      forall i | 0 <= i < |conflicts.conflictSlots|
        ensures conflicts.conflictSlots[i].table == old(conflicts.conflictSlots[i].table) - Freed(Rules(), i, c)
      {
        if i >= done {
          assert !Reaches(Rules(), i, c) by { assert Rules()[done] == conflicts.conflictSlots[done].rule; }
        } else {
          assert forall j :: 0 <= j <= i ==> Rules()[j] == conflicts.conflictSlots[j].rule;
        }
      }
    }

    /** Cleans the pool for one transaction of a block.  Its last step may take keys of other pooled
        transactions out of other slots, but never out of the inputs slot. */
    method CleanTransaction(blockTx: Tx, ghost at: nat)
      requires Valid() && InputsSlotAt(Rules(), at) && SlotExact(at) && SameAsPooled(blockTx)
      modifies this, txFees, conflicts.Objects()
      ensures Valid() && SlotExact(at)
      ensures txnList == Cleaned(old(txnList), blockTx)
      ensures forall i, freed :: 0 <= i < |conflicts.conflictSlots| && old(SlotBut(i, freed)) ==>
                SlotBut(i, freed + Freed(Rules(), i, blockTx.content))
      ensures forall i :: 0 <= i < |conflicts.conflictSlots| && old(SlotExact(i)) ==>
                (SlotExact(i) <==> Spares(Rules(), i, txnList, blockTx.content))
    {
      hide ExactBut, ListMatches, Ordered, PooledBudgets, SizeOf, InputsSlotAt, AllKeysOk, KeysOf, KeySet, Without;
      hide Reaches, Spares, Freed;
      var c := blockTx.content;
      InputsSlotName(Rules(), at);
      if Skipped(c) {
        NoneFreed(Rules(), c);
      }
      if c.kind.CoinBase? {
      } else if (c.kind.SideChainPow? && c.inputs == []) || c.kind.UpdateVersion? || c.kind.NextTurnDPOSInfo? {
        if blockTx.hash in txnList {
          DoRemoveTransaction(blockTx);
        }
        assert txnList == old(txnList) - {blockTx.hash};
      } else if c.resolves {
        CleanInputs(blockTx, at);
        assert SlotBut(at, {});
        FreeKeys(blockTx);
        assert SlotBut(at, {} + Freed(Rules(), at, c));
        InputsSpared(Rules(), at, conflicts.conflictSlots[at].table, old(txnList), c);
      }
      forall i | 0 <= i < |conflicts.conflictSlots| && old(SlotExact(i))
        ensures SlotExact(i) <==> Spares(Rules(), i, txnList, c)
      {
        SlotAfter(i, c);
      }
    }

    lemma SlotAfter(i: nat, c: Content)
      requires i < |conflicts.conflictSlots| && SlotBut(i, {} + Freed(Rules(), i, c))
      ensures SlotExact(i) <==> Spares(Rules(), i, txnList, c)
    {
      hide ExactBut, Freed, Spares;
      assert {} + Freed(Rules(), i, c) == Freed(Rules(), i, c);
      ExactIfSpared(Rules()[i], conflicts.conflictSlots[i].table, txnList, Freed(Rules(), i, c));
      SparesExactly(Rules(), i, txnList, c);
    }

    /** Cleans the pool for a block: afterwards it is what the block's transactions leave of it, the
        inputs slot is still exact, and any other slot that was exact still is exactly when no
        remaining transaction has a key of a block transaction whose keys were taken out of it. */
    method CleanTransactions(blockTxs: seq<Tx>, ghost at: nat)
      requires Valid() && InputsSlotAt(Rules(), at) && SlotExact(at)
      requires forall i :: 0 <= i < |blockTxs| ==> SameAsPooled(blockTxs[i])
      modifies this, txFees, conflicts.Objects()
      ensures Valid() && SlotExact(at)
      ensures txnList == CleanedAll(old(txnList), blockTxs)
      ensures forall i :: 0 <= i < |conflicts.conflictSlots| && old(SlotExact(i)) ==>
                (SlotExact(i) <==> forall t :: t in blockTxs ==> Spares(Rules(), i, txnList, t.content))
    {
      hide ExactBut, ListMatches, Ordered, PooledBudgets, SizeOf, InputsSlotAt, AllKeysOk, KeysOf, Cleaned, Rate;
      hide Freed, Spares;
      InputsSlotName(Rules(), at);
      for n := 0 to |blockTxs|
        invariant Valid() && SlotExact(at)
        invariant txnList == CleanedAll(old(txnList), blockTxs[..n])
        invariant forall h :: h in txnList ==> h in old(txnList) && txnList[h] == old(txnList)[h]
        invariant forall i :: 0 <= i < |conflicts.conflictSlots| && old(SlotExact(i)) ==>
                    SlotBut(i, FreedAll(Rules(), i, blockTxs[..n]))
      {
        assert blockTxs[..n + 1][..n] == blockTxs[..n];
        CleanedSubset(txnList, blockTxs[n]);
        CleanTransaction(blockTxs[n], at);
      }
      assert blockTxs[..|blockTxs|] == blockTxs;
      forall i | 0 <= i < |conflicts.conflictSlots| && old(SlotExact(i))
        ensures SlotExact(i) <==> forall t :: t in blockTxs ==> Spares(Rules(), i, txnList, t.content)
      {
        ExactIfSpared(Rules()[i], conflicts.conflictSlots[i].table, txnList, FreedAll(Rules(), i, blockTxs));
        SparedAll(Rules(), i, txnList, blockTxs);
      }
    }
  }

  /** The pooled transactions a new one pushes out before it is checked against the pool. */
  predicate Displaced(c: Content, other: Content) {
    || (c.kind.Appropriation? && other.kind.AssetsRectify?)
    || (c.kind.SideChainPow? && other.kind.SideChainPow? && c.kind.genesis == other.kind.genesis)
  }

  function Purged(pool: Pooled, tx: Tx): Pooled {
    map h | h in pool && !Displaced(tx.content, pool[h].content) :: pool[h]
  }

  lemma PurgedKeys(pool: Pooled, tx: Tx)
    ensures Purged(pool, tx).Keys <= pool.Keys
  {
  }

  /** An appropriation displaces its rivals before it is checked itself. */
  function Screened(pool: Pooled, tx: Tx): Pooled {
    if tx.content.kind.Appropriation? then Purged(pool, tx) else pool
  }

  /** Why a transaction is turned away before the pool is looked at. */
  ghost function Refusal(pool: Pooled, tx: Tx, answers: Answers): Option<Reason> {
    if tx.content.kind.RecordSponsor? then Some(Invalid)
    else if tx.hash in Screened(pool, tx) then Some(DuplicateTx)
    else if tx.content.kind.CoinBase? then Some(IneffectiveCoinbase)
    else if !answers.sane then Some(InsaneTx)
    else if !answers.inContext(PooledBudgets(Screened(pool, tx))) then Some(ContextFailed)
    else None
  }

  /** What the screening answers, case by case. */
  lemma RefusalExactly(pool: Pooled, tx: Tx, answers: Answers)
    ensures var kept := Screened(pool, tx);
            var kind := tx.content.kind;
            && (forall h :: h in kept <==>
                  h in pool && !(kind.Appropriation? && pool[h].content.kind.AssetsRectify?))
            && (forall h :: h in kept ==> kept[h] == pool[h])
            && match Refusal(pool, tx, answers)
               case Some(Invalid) => kind.RecordSponsor?
               case Some(DuplicateTx) => !kind.RecordSponsor? && tx.hash in kept
               case Some(IneffectiveCoinbase) => kind.CoinBase? && tx.hash !in kept
               case Some(InsaneTx) => !kind.RecordSponsor? && !kind.CoinBase? && tx.hash !in kept && !answers.sane
               case Some(ContextFailed) =>
                 && !kind.RecordSponsor? && !kind.CoinBase? && tx.hash !in kept && answers.sane
                 && !answers.inContext(PooledBudgets(kept))
               case Some(_) => false
               case None =>
                 && !kind.RecordSponsor? && !kind.CoinBase? && tx.hash !in kept && answers.sane
                 && answers.inContext(PooledBudgets(kept))
  {
    hide PooledBudgets;
  }

  lemma PurgedExactly(pool: Pooled, tx: Tx)
    ensures var kept, room := Screened(pool, tx), Purged(pool, tx);
            var kind := tx.content.kind;
            && (forall h :: h in room <==>
                  h in kept && !(&& kind.SideChainPow? && kept[h].content.kind.SideChainPow?
                                 && kind.genesis == kept[h].content.kind.genesis))
            && (forall h :: h in room ==> room[h] == kept[h])
            && (!kind.SideChainPow? ==> room == kept)
  {
    assert !tx.content.kind.SideChainPow? ==> Purged(pool, tx) == Screened(pool, tx);
  }

  lemma PurgeNothing(pool: Pooled, tx: Tx)
    ensures !tx.content.kind.Appropriation? && !tx.content.kind.SideChainPow? ==> Purged(pool, tx) == pool
  {
  }

  lemma UndoEnter(table: map<Key, Tx>, keys: seq<Key>, tx: Tx)
    requires Free(table, keys)
    ensures Entered(table, keys, tx) - KeySet(keys) == table
  {
  }

  lemma ListAfterAdd(before: seq<Item>, after: seq<Item>, pool: Pooled, tx: Tx, maxSize: nat, k: int)
    requires ListMatches(before, pool) && tx.hash !in pool && tx.content.size > 0
    requires SizeOf(before) + tx.content.size <= maxSize
    requires Boundary(before, Rate(tx), k) &&
              after == Fit(Inserted(before, k, Item(tx.hash, Rate(tx), tx.content.size)), maxSize)
    ensures ListMatches(after, pool[tx.hash := tx])
  {
    hide ListMatches, SizeOf, Fit;
    var item := Item(tx.hash, Rate(tx), tx.content.size);
    SizeOfInserted(before, k, item);
    FitWhole(Inserted(before, k, item), maxSize);
    ListInsert(before, pool, tx, k, item);
  }

  function SizeIn(c: Content): int {
    c.size
  }

  /** The bytes of the pooled transactions. */
  ghost function PooledSize(pool: Pooled): int {
    Total(pool, SizeIn)
  }

  lemma SizeWithout(pool: Pooled, h: Hash)
    requires h in pool
    ensures PooledSize(map[]) == 0 && PooledSize(pool) == pool[h].content.size + PooledSize(pool - {h})
  {
    TotalWithout(pool, SizeIn, h);
  }

  /** The fee list adds up the pool's bytes. */
  lemma {:induction false} ListSize(list: seq<Item>, pool: Pooled)
    requires ListMatches(list, pool)
    ensures SizeOf(list) == PooledSize(pool)
    decreases |list|
  {
    if list == [] {
      assert forall h :: h in pool ==> Listed(list, h);
      assert pool == map[];
    } else {
      var k := |list| - 1;
      var h := list[k].hash;
      ListRemove(list, pool, k);
      assert Removed(list, k) == list[..k];
      ListSize(list[..k], pool - {h});
      SizeWithout(pool, h);
    }
  }

  /** Why a transaction that conflicts with nothing does not get into a pool of the given bytes. */
  function Unfit(size: int, maxSize: nat, tx: Tx): Option<Reason> {
    if size + tx.content.size > maxSize then Some(OverCapacity)
    else if tx.content.size == 0 then Some(Invalid)
    else None
  }

  /** What is wrong with one that got in: a small cross-chain transfer that could not be stored. */
  predicate Unstored(tx: Tx, bestHeight: nat, crossStart: nat, answers: Answers) {
    bestHeight > crossStart && tx.content.kind.SmallCrossTransfer? && !answers.stored
  }

  // ---------------------------------------------------------------- cleaning

  predicate Spends(c: Content, inputs: seq<string>) {
    exists s :: s in inputs && s in c.inputs
  }

  /** The pool without the transactions that spend one of the inputs. */
  function Without(pool: Pooled, inputs: seq<string>): Pooled {
    map h | h in pool && !Spends(pool[h].content, inputs) :: pool[h]
  }

  /** Block transactions that do not go through the input search. */
  predicate Skipped(c: Content) {
    c.kind.CoinBase? || ByHash(c) || !c.resolves
  }

  /** Block transactions that are removed from the pool by their hash. */
  predicate ByHash(c: Content) {
    (c.kind.SideChainPow? && c.inputs == []) || c.kind.UpdateVersion? || c.kind.NextTurnDPOSInfo?
  }

  function Cleaned(pool: Pooled, tx: Tx): Pooled {
    if tx.content.kind.CoinBase? then pool
    else if ByHash(tx.content) then pool - {tx.hash}
    else if !tx.content.resolves then pool
    else Without(pool, tx.content.inputs)
  }

  lemma InputsSlotName(rules: seq<Rule>, at: nat)
    requires InputsSlotAt(rules, at)
    ensures at < |rules| && rules[at].name == INPUTS_SLOT
    ensures forall i :: 0 <= i < at ==> rules[i].name != INPUTS_SLOT
  {
  }

  /** The inputs slot's keys are the inputs. */
  lemma InputSlotKeys(rules: seq<Rule>, at: nat, c: Content, k: Key)
    requires InputsSlotAt(rules, at)
    ensures KeysOf(rules[at], c).Ok? <==> c.resolves
    ensures HasKey(rules[at], c, k) <==> c.resolves && k.Str? && k.text in c.inputs
  {
    if c.resolves {
      var keys := KeysOf(rules[at], c).value;
      assert |keys| == |c.inputs| && forall i :: 0 <= i < |keys| ==> keys[i] == Str(c.inputs[i]);
      if k.Str? && k.text in c.inputs {
        var i :| 0 <= i < |c.inputs| && c.inputs[i] == k.text;
        assert keys[i] == k;
      }
    }
  }

  /** An exact inputs slot names the only pooled spender of an output. */
  lemma InputOwner(rules: seq<Rule>, at: nat, table: map<Key, Tx>, pool: Pooled, s: string)
    requires InputsSlotAt(rules, at) && Exact(rules[at], table, pool)
    requires forall h :: h in pool ==> pool[h].hash == h && AllKeysOk(rules, pool[h].content)
    ensures if Str(s) in table
            then var owner := table[Str(s)];
                 && owner.hash in pool && pool[owner.hash] == owner
                 && forall h :: h in pool ==> (s in pool[h].content.inputs <==> h == owner.hash)
            else forall h :: h in pool ==> s !in pool[h].content.inputs
  {
    hide KeysOf, HasKey;
    if Str(s) in table {
      InputSlotKeys(rules, at, table[Str(s)].content, Str(s));
    }
    forall h | h in pool
      ensures s in pool[h].content.inputs <==> Str(s) in table && h == table[Str(s)].hash
    {
      InputSlotKeys(rules, at, pool[h].content, Str(s));
      assert KeysOf(rules[at], pool[h].content).Ok?;
    }
  }

  lemma WithoutNone(pool: Pooled)
    ensures Without(pool, []) == pool
  {
  }

  lemma WithoutOne(pool: Pooled, inputs: seq<string>, j: nat, spenders: set<Hash>)
    requires j < |inputs|
    requires forall h :: h in Without(pool, inputs[..j]) ==>
              (inputs[j] in Without(pool, inputs[..j])[h].content.inputs <==> h in spenders)
    ensures Without(pool, inputs[..j + 1]) == Without(pool, inputs[..j]) - spenders
  {
    assert inputs[..j + 1] == inputs[..j] + [inputs[j]];
    var less := Without(pool, inputs[..j]);
    forall h | h in pool
      ensures Spends(pool[h].content, inputs[..j + 1]) <==>
                Spends(pool[h].content, inputs[..j]) || inputs[j] in pool[h].content.inputs
    {
      if Spends(pool[h].content, inputs[..j]) {
        var s :| s in inputs[..j] && s in pool[h].content.inputs;
        assert s in inputs[..j + 1];
      }
      if inputs[j] in pool[h].content.inputs {
        assert inputs[j] in inputs[..j + 1];
      }
    }
  }

  /** The keys that cleaning for a block transaction takes out of slot i. */
  function Freed(rules: seq<Rule>, i: nat, c: Content): set<Key>
    requires i < |rules|
  {
    if Skipped(c) || !Reaches(rules, i, c) then {} else KeySet(KeysOf(rules[i], c).value)
  }

  function FreedAll(rules: seq<Rule>, i: nat, txs: seq<Tx>): set<Key>
    requires i < |rules|
  {
    if txs == [] then {} else FreedAll(rules, i, txs[..|txs| - 1]) + Freed(rules, i, txs[|txs| - 1].content)
  }

  lemma NoneFreed(rules: seq<Rule>, c: Content)
    requires Skipped(c)
    ensures forall i, freed: set<Key> {:trigger freed + Freed(rules, i, c)} :: 0 <= i < |rules| ==>
              freed + Freed(rules, i, c) == freed
  {
  }

  /** A block transaction does not disturb slot i: it is not looked at, its removal stops before the
      slot, or no pooled transaction has one of its keys there. */
  ghost predicate Spares(rules: seq<Rule>, i: nat, pool: Pooled, c: Content)
    requires i < |rules|
  {
    Skipped(c) || !Reaches(rules, i, c) || Unshared(rules[i], pool, c)
  }

  lemma SparesExactly(rules: seq<Rule>, i: nat, pool: Pooled, c: Content)
    requires i < |rules|
    ensures Spares(rules, i, pool, c) <==> Spared(rules[i], pool, Freed(rules, i, c))
  {
    hide KeysOf;
    if !Skipped(c) && Reaches(rules, i, c) {
      assert forall k :: k in Freed(rules, i, c) <==> HasKey(rules[i], c, k);
    }
  }

  lemma {:induction false} SparedAll(rules: seq<Rule>, i: nat, pool: Pooled, txs: seq<Tx>)
    requires i < |rules|
    ensures Spared(rules[i], pool, FreedAll(rules, i, txs)) <==>
              forall t :: t in txs ==> Spares(rules, i, pool, t.content)
    decreases |txs|
  {
    hide Spares, Freed, HasKey;
    if txs != [] {
      var before, last := txs[..|txs| - 1], txs[|txs| - 1];
      SparedAll(rules, i, pool, before);
      SparesExactly(rules, i, pool, last.content);
      assert txs == before + [last];
      SparedUnion(rules[i], pool, FreedAll(rules, i, before), Freed(rules, i, last.content));
    }
  }

  lemma SparedUnion(rule: Rule, pool: Pooled, a: set<Key>, b: set<Key>)
    ensures Spared(rule, pool, a + b) <==> Spared(rule, pool, a) && Spared(rule, pool, b)
  {
    hide HasKey;
  }

  /** Once nobody spends its inputs, taking a block transaction's keys out leaves the inputs slot exact. */
  lemma InputsSpared(rules: seq<Rule>, at: nat, table: map<Key, Tx>, pool: Pooled, c: Content)
    requires InputsSlotAt(rules, at) && ExactBut(rules[at], table, Without(pool, c.inputs), {} + Freed(rules, at, c))
    ensures Exact(rules[at], table, Without(pool, c.inputs))
  {
    hide KeysOf, HasKey, Exact, KeySet, Freed, ExactBut;
    var left := Without(pool, c.inputs);
    assert {} + Freed(rules, at, c) == Freed(rules, at, c);
    forall h, k | h in left && HasKey(rules[at], left[h].content, k)
      ensures !HasKey(rules[at], c, k)
    {
      InputSlotKeys(rules, at, left[h].content, k);
      InputSlotKeys(rules, at, c, k);
      assert !Spends(left[h].content, c.inputs);
    }
    assert Unshared(rules[at], left, c);
    SparesExactly(rules, at, left, c);
    ExactIfSpared(rules[at], table, left, Freed(rules, at, c));
  }

  function CleanedAll(pool: Pooled, txs: seq<Tx>): Pooled {
    if txs == [] then pool else Cleaned(CleanedAll(pool, txs[..|txs| - 1]), txs[|txs| - 1])
  }

  lemma CleanedSubset(pool: Pooled, tx: Tx)
    ensures forall h :: h in Cleaned(pool, tx) ==> h in pool && Cleaned(pool, tx)[h] == pool[h]
  {
  }

  lemma {:induction false} CleanedByEach(pool: Pooled, txs: seq<Tx>, h: Hash)
    requires h in pool
    ensures h in CleanedAll(pool, txs) ==> CleanedAll(pool, txs)[h] == pool[h]
    ensures h in CleanedAll(pool, txs) <==> forall i :: 0 <= i < |txs| ==> h in Cleaned(map[h := pool[h]], txs[i])
    decreases |txs|
  {
    hide Cleaned;
    if txs != [] {
      var before, last := txs[..|txs| - 1], txs[|txs| - 1];
      CleanedByEach(pool, before, h);
      CleanedAlone(CleanedAll(pool, before), last, h);
      assert forall i :: 0 <= i < |before| ==> before[i] == txs[i];
    }
  }

  lemma CleanedAlone(pool: Pooled, tx: Tx, h: Hash)
    ensures h in Cleaned(pool, tx) <==> h in pool && h in Cleaned(map[h := pool[h]], tx)
    ensures h in Cleaned(pool, tx) ==> Cleaned(pool, tx)[h] == pool[h]
  {
    hide Spends;
  }

  /** After a block no pooled transaction shares an input with a block transaction that was looked at,
      and only transactions that did, or that were removed by their hash, are gone. */
  lemma CleanedOfSpenders(pool: Pooled, txs: seq<Tx>, h: Hash)
    requires h in pool
    ensures h in CleanedAll(pool, txs) ==> CleanedAll(pool, txs)[h] == pool[h]
    ensures h in CleanedAll(pool, txs) <==>
            forall i :: 0 <= i < |txs| ==>
              var c := txs[i].content;
              if c.kind.CoinBase? then true
              else if (c.kind.SideChainPow? && c.inputs == []) || c.kind.UpdateVersion? || c.kind.NextTurnDPOSInfo?
              then txs[i].hash != h
              else c.resolves ==> forall input :: input in c.inputs ==> input !in pool[h].content.inputs
  {
    CleanedByEach(pool, txs, h);
  }

  /** The pool's own inputs slot, and a slot keyed on the payload. */
  function TwoRules(): seq<Rule> {
    var byInputs: KeyFunc := (c: Content) => InputKeys(c);
    var byPayload: KeyFunc := (c: Content) => Ok(StrKey(c.payload));
    [Rule(INPUTS_SLOT, StrArray, map[ALL_TYPES := byInputs]), Rule("Payload", StrType, map[ALL_TYPES := byPayload])]
  }

  function Spender(h: Hash, input: string): Tx {
    Tx(h, Content(0, 1, [input], true, [], Ordinary, "x"), 0)
  }

  lemma TwoRulesOk(c: Content)
    ensures |TwoRules()| == 2 && InputsSlotAt(TwoRules(), 0) && KeysOf(TwoRules()[1], c) == Ok([Str(c.payload)])
    ensures c.resolves ==> AllKeysOk(TwoRules(), c) && Reaches(TwoRules(), 1, c)
  {
    InputSlotKeys(TwoRules(), 0, c, Str(""));
  }

  /** Two transactions that carry one payload and spend different outputs: once one of them is in a
      block, the other stays in the pool, and its key in the payload slot is gone. */
  lemma DisturbedSlot(pooled: Tx, blockTx: Tx)
    requires pooled == Spender(1, "a") && blockTx == Spender(2, "b")
    ensures Cleaned(map[1 := pooled], blockTx) == map[1 := pooled]
    ensures !Spares(TwoRules(), 1, map[1 := pooled], blockTx.content)
  {
    hide KeysOf;
    TwoRulesOk(pooled.content);
    TwoRulesOk(blockTx.content);
    assert pooled.content.inputs[0] == "a" && blockTx.content.inputs[0] == "b" && "a"[0] != "b"[0];
    assert !Spends(pooled.content, blockTx.content.inputs);
    assert HasKey(TwoRules()[1], pooled.content, Str("x")) && HasKey(TwoRules()[1], blockTx.content, Str("x"));
    assert map[1 := pooled][1] == pooled;
  }

  /** Such a pool, made and cleaned by the pool's own operations. */
  method CleaningCanBreakSlots() returns (pool: Pool)
    ensures fresh(pool) && pool.Valid() && |pool.conflicts.conflictSlots| == 2
    ensures pool.txnList == map[1 := Spender(1, "a")] && pool.SlotExact(0) && !pool.SlotExact(1)
  {
    hide ListMatches, Ordered, PooledBudgets, ExactBut, KeysOf, SizeOf, InputsSlotAt, Spares, Cleaned, TwoRules;
    hide Unshared, Reaches;
    var pooled, blockTx := Spender(1, "a"), Spender(2, "b");
    TwoRulesOk(pooled.content);
    DisturbedSlot(pooled, blockTx);
    pool := new Pool(TwoRules(), 1);
    EmptyAdmits(TwoRules(), pooled.content);
    EmptySize(pool.txFees.list);
    var err := pool.AppendVerified(pooled);
    ghost var before := pool.txnList;
    assert before == map[1 := pooled];
    pool.CleanTransactions([blockTx], 0);
    assert CleanedAll(before, [blockTx]) == Cleaned(before, blockTx) by {
      assert [blockTx][..0] == [];
      assert CleanedAll(before, []) == before;
    }
    assert blockTx in [blockTx];
  }

  lemma EmptyAdmits(rules: seq<Rule>, c: Content)
    requires AllKeysOk(rules, c)
    ensures Admissible(rules, map[], c)
  {
  }

  lemma EmptySize(list: seq<Item>)
    requires ListMatches(list, map[])
    ensures list == [] && SizeOf(list) == 0
  {
    hide ListMatches;
    if list != [] {
      HeadPooled(list, map[]);
    }
  }

  lemma HeadPooled(list: seq<Item>, pool: Pooled)
    requires ListMatches(list, pool) && list != []
    ensures list[0].hash in pool
  {
  }
}
