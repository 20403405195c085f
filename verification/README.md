# Elastos.ELA node: a verified model

Dafny models of the stateful and arithmetic core of the Elastos main-chain node, with proofs about them.

- **Fork choice** (`BlockTree`, `ForkChoice`, `BlockChain`): the block tree, the main-chain view, the
  side-chain cache, and the extend / store / reorganize steps. `ForkChoice` is the step function on
  values with the theorems about runs. `BlockChain` is the mutable object with the loops of the code,
  proved to take exactly those steps. Validation, state rollback and the check for irreversible blocks
  are answers given from outside (`Verdicts`), so every statement holds for whatever they answer.
- **Orphans and intake** (`OrphanPool`, `BlockProcessing`): the two orphan maps, eviction, and the
  acceptance of orphans once their parent arrives.
- **Undo log** (`History`): changes per height that are executed, rolled back and sought through.
- **Transaction pool** (`FeeList`, `ConflictSlots`, `TxPool`): the list ordered by fee rate, the
  conflict slots, and the pool that keeps both and its totals in agreement.
- **Index manager** (`IndexManager`): recovery of every index from a stored fork to the best chain.
- **Wallet coins** (`OwnedCoins`, `CoinCheckpoint`): linked lists kept in one map, and the coin set on
  top of them.
- **Arithmetic** (`Bytes`, `Difficulty`, `Retarget`, `Merkle`, `Congruence`, `PointCodec`): compact
  targets and the retarget, Merkle roots and branches, and elliptic-curve point compression (sections
  2.3.3 and 2.3.4 of SEC 1), with Fermat's little theorem and square roots modulo a prime proved here.
- **Byte codecs** (`Serialize`, `AuxPowCodec`): canonical readers and writers for merge-mining proofs.
- **Coin selection** (`CoinSelection`): transactions the node builds from the coins of an address.

Mutable objects are classes whose methods keep the loops and branches of the code and are proved
against functions on values; the lemmas are about those functions. `dafny verify dfyconfig.toml` checks
everything.

Results that a reader might not expect:

- A height is rolled back front to back. With exact inverses that is right exactly when the order of the
  changes does not matter (`History.ForwardRollbackExact`). With rollbacks that restore remembered values
  it is right exactly when, for every field, the value remembered by its last change is the one from
  before the height (`History.RestoredExactly`). Changes that remember what they found in place fail it
  when a field is written twice, except in the cases `History.FieldWritesUndoneExactly` names.
- Seeking or rolling back from a sought position is right only in the cases named by
  `History.SeekExact` and `History.RollbackExact`. A rollback leaves the seek height above the newest
  height, and seeks miss their target until the next commit.
- An orphan whose reorganization breaks off is in the index and the orphan pool at once
  (`BlockProcessing.OrphanLeftBehind`). Index and pool stay disjoint exactly when no orphan tried starts
  a reorganization that is obstructed in the state it meets: one not too deep to be allowed, above whose
  fork some block does not roll back or does not connect (`ForkChoice.UnsettledExactly`,
  `BlockProcessing.Processor.ProcessOrphans`).
- An orphan whose parent has arrived is left waiting exactly when an orphan failed, or when something
  waited for a new block whose own reorganization broke off (`BlockProcessing.Processor.ProcessBlock`).
- A block transaction can take a key out of a conflict slot that a pooled transaction still holds
  (`TxPool.CleaningCanBreakSlots`); `TxPool.Pool.CleanTransactions` says exactly when, and that the inputs
  slot is safe.
- A history at capacity forgets its lowest height on every commit, so after commits at ascending heights
  exactly the newest ones, as many as the capacity, can be rolled back to (`History.RetainedExactly`,
  `History.RetainedRestored`).
- Whatever validation answers, no block gets onto the main chain without passing it once
  (`ForkChoice.RunValidated`).
- Encoding and decoding a target is exact to one part in 2^15 only below 2^23 * 256^252
  (`Difficulty.RoundTrip`), and the negative
  numbers whose leading bytes carry when rounded up decode to zero (`Difficulty.NegativeRoundTrip`).
- Two leaf lists of different length can share a Merkle root under any hash (`Merkle.RepeatedLastLeaf`,
  `Merkle.InnerNodesAsLeaves`); `Merkle.RootExactly` says which, for any two lists and a collision-free
  hash.
- Removing the zero out point destroys a non-empty coin list (`OwnedCoins.RemoveZeroExact`).

Where comments and code disagree the model follows the code: `RollbackTo` is documented to return an
error when the history is too short (utils/history.go:230-231) but never does, and it leaves the seek
height where it was.

## Model

| member | source | states |
|---|---|---|
| BlockTree.PathShape | blockchain/blockindex.go:71-106 | The line from genesis to a linked node holds one node per height, each the parent of the next. |
| BlockTree.PathPrefix | blockchain/blockindex.go:71-106 | Every prefix of a node's line is the line of the node it ends with. |
| ForkChoice.CommonLen | blockchain/blockchain.go:1257-1303 | The shared part of two lines: they agree up to it and differ right after. |
| ForkChoice.CommonLenUnique | blockchain/blockchain.go:1257-1303 | There is only one such length, so the fork point is well defined. |
| ForkChoice.LineFresh | blockchain/blockchain.go:1481-1559 | In the block tree no node has its own hash above it, so connecting adds exactly one hash to the main chain. |
| ForkChoice.DetachTip | blockchain/blockchain.go:1357-1382 | Detaching keeps the tip on the old main chain, and when no rollback fails it ends exactly that many nodes lower. |
| ForkChoice.AttachTip | blockchain/blockchain.go:1391-1413 | Attaching ends at the last node, or, when one fails, strictly before it. |
| ForkChoice.DetachExactly | blockchain/blockchain.go:1357-1382 | Detaching succeeds exactly when every detached block rolls back. |
| ForkChoice.AttachExactly | blockchain/blockchain.go:1391-1413 | Attaching succeeds exactly when every attached block connects. |
| ForkChoice.ConnectCachedInv | blockchain/blockchain.go:1391-1413 | A node attached in a reorganization always has its own block in the side-chain cache, and attaching it keeps the invariant. |
| ForkChoice.ExtendInv | blockchain/blockchain.go:1679-1704 | Extending the tip keeps the invariant of index, work sums, cache and database. |
| ForkChoice.StoreSideInv | blockchain/blockchain.go:1705-1719 | So does storing a side block. |
| ForkChoice.DisconnectInv | blockchain/blockchain.go:1443-1477 | So does taking the tip off. |
| ForkChoice.SharedBounds | blockchain/blockchain.go:1257-1303 | Every indexed node's line meets the main chain, at genesis if nowhere else. |
| ForkChoice.ReorganizeInv | blockchain/blockchain.go:1338-1415 | A reorganization keeps the invariant however far it gets before a rollback or a validation fails. |
| ForkChoice.ReorganizeTip | blockchain/blockchain.go:1338-1415 | A successful one makes the main chain exactly the line to its target; a failed one leaves the tip on the old main chain or below the target. |
| ForkChoice.ReorganizeExactly | blockchain/blockchain.go:1338-1415 | It succeeds exactly when every block above the fork rolls back and every block of the line to the target connects. |
| ForkChoice.ProcessInv | blockchain/blockchain.go:1594-1776 | Any block with any validation answers leaves the invariant standing. |
| ForkChoice.GenesisInv | blockchain/blockchain.go:1594-1776 | The invariant holds at genesis. |
| ForkChoice.RunInv | blockchain/blockchain.go:1594-1776 | Over every run of blocks and answers the invariant holds: one tree, work sums equal to the work along each line, and every block where it belongs. |
| ForkChoice.RunKeepsBlocks | blockchain/blockchain.go:1343-1349 | From genesis on, an indexed node is off the main chain exactly when its block is in the side-chain cache, and on it has its block stored, even after failed reorganizations. |
| ForkChoice.RunNodes | blockchain/blockchain.go:1594-1776 | A run indexes only the blocks it is given, each with its own height, bits, time and parent. |
| ForkChoice.RunValidated | blockchain/blockchain.go:1481-1493 | After any run from genesis, every other block of the main chain was given to the run and passed validation in it, then or later. |
| ForkChoice.RunStores | blockchain/blockchain.go:1343-1413 | Database and side-chain cache hold genesis and blocks of the run, unchanged. |
| ForkChoice.ProcessTip | blockchain/blockchain.go:1676-1776 | What one block does to the tip and the index, for each of the outcomes, in terms of accumulated work. |
| ForkChoice.AnsweredExactly | blockchain/blockchain.go:1594-1719 | For each of known, parentless, unknown parent, wrong height, rejected, extended and side block: exactly which blocks get that answer, in terms of the index, the tip, the work and the validation answer. |
| ForkChoice.ReorganizedExactly | blockchain/blockchain.go:1746-1775 | For a block that overtakes the tip: refused exactly for the depth counted from the last shared block, broken off while detaching or attaching exactly when a block there does not roll back or does not connect, and reorganized otherwise. |
| ForkChoice.MainChainStep | blockchain/blockchain.go:1357-1413 | A block joins the main chain only by passing validation and leaves it only by rolling back. |
| ForkChoice.NodeRecords | blockchain/blockchain.go:1679-1719 | The index never changes a node, and a new one records its block's height, bits and time, its parent's node, and the parent's work plus its own. |
| ForkChoice.UnsettledExactly | blockchain/blockchain.go:1721-1775 | A reorganization is refused exactly when the block overtakes the tip and the depth of the fork forbids it; it breaks off exactly when it is allowed and some block above the fork does not roll back or does not connect. |
| ForkChoice.HeaviestExactly | blockchain/blockchain.go:1721-1775 | For a block with work, the tip is still heaviest after it exactly when its reorganization is neither refused nor obstructed in the state before it. |
| ForkChoice.SettledExactly | blockchain/blockchain.go:1676-1776 | A run is settled exactly when no block of it meets a state in which its reorganization is refused or obstructed. |
| ForkChoice.RunSplit | blockchain/blockchain.go:1676-1776 | Running two sequences of blocks one after the other is running them as one. |
| ForkChoice.HeaviestStep | blockchain/blockchain.go:1679-1775 | The heaviest line stays the main chain through a step unless a reorganization is refused or fails, and never stays it then if the block has work. |
| ForkChoice.TipStep | blockchain/blockchain.go:1679-1775 | A settled step leaves the tip, moves it to strictly more work, or puts a child on it. |
| ForkChoice.WillingSettles | blockchain/blockchain.go:1676-1776 | Answers that always connect, always roll back and never refuse settle every step. |
| ForkChoice.WillingRun | blockchain/blockchain.go:1676-1776 | With such answers every run is settled, which is what the two theorems below ask for. |
| ForkChoice.RunHeaviest | blockchain/blockchain.go:1676-1776 | Over every run in which no reorganization is refused or fails, no indexed node has more accumulated work than the tip. |
| ForkChoice.RunFirstSeen | blockchain/blockchain.go:1721-1745 | Ties keep the first-seen tip: over such a run of blocks with work the tip is unchanged or strictly heavier. |
| ForkChoice.WorkGrows | blockchain/blockchain.go:1025-1035 | Accumulated work never falls along a line. |
| BlockChain.Chain.constructor | blockchain/blockchain.go:1937-1969 | A new chain is valid and is the genesis state of the step function. |
| BlockChain.Chain.SetTip | blockchain/blockchain.go:1937-1969 | The backward refill with its early stop makes the view exactly the line of the new tip. |
| BlockChain.Chain.DisconnectBlock | blockchain/blockchain.go:1443-1477 | Only the tip can be disconnected; its block moves to the cache and the view ends at its parent; otherwise nothing changes. |
| BlockChain.Chain.ConnectBlock | blockchain/blockchain.go:1481-1559 | Connecting fails without change on a refused block or one not extending the tip, else appends it to view, index and store. |
| BlockChain.Chain.ClimbToFork | blockchain/blockchain.go:1257-1303 | The climb stops exactly at the fork point, having collected the line above it bottom up. |
| BlockChain.Chain.WalkBack | blockchain/blockchain.go:1257-1303 | The walk back collects the main chain above the fork, tip first. |
| BlockChain.Chain.GetReorganizeNodes | blockchain/blockchain.go:1257-1303 | The two lists are exactly the main-chain suffix above the fork, tip first, and the line from the fork to the node, bottom up. |
| BlockChain.ForkFound | blockchain/blockchain.go:1257-1303 | The first ancestor whose hash is in the main-chain view is where the two lines part. |
| BlockChain.AttachCached | blockchain/blockchain.go:1343-1349 | Every node to attach has its block in the cache, so the error for a missing block cannot occur. |
| BlockChain.Chain.AllCached | blockchain/blockchain.go:1343-1349 | The check passes exactly when every block is cached. |
| BlockChain.Chain.DetachAll | blockchain/blockchain.go:1357-1382 | The detach loop does exactly the detach steps, stopping where a rollback fails. |
| BlockChain.Chain.AttachAll | blockchain/blockchain.go:1391-1413 | The attach loop does exactly the attach steps, stopping where a block is refused. |
| BlockChain.Chain.ReorganizeChain | blockchain/blockchain.go:1338-1415 | The loops and checks together are exactly one reorganization step, and every other error is unreachable. |
| BlockChain.Chain.ConnectBestChain | blockchain/blockchain.go:1676-1776 | Extend, store or reorganize exactly as the step function decides. |
| BlockChain.Chain.BlockExists | blockchain/blockchain.go:1572-1592 | Index, database and cache together know exactly the indexed blocks. |
| BlockChain.Chain.MaybeAcceptBlock | blockchain/blockchain.go:1594-1674 | Accepting a block is one step of a run, so the object's state is always that of the run of all blocks it was given. |
| BlockChain.SameLine | blockchain/blockchain.go:1937-1969 | Two lines that meet at a height agree below it, which is why the refill may stop early. |
| OrphanPool.UnlistAgrees | blockchain/blockchain.go:880-908 | Taking an orphan off both maps keeps them indexing the same blocks. |
| OrphanPool.AppendAgrees | blockchain/blockchain.go:910-944 | Adding one does too. |
| OrphanPool.AppendAgreesExactly | blockchain/blockchain.go:927-943 | It does exactly when the block is not an orphan already. |
| OrphanPool.Pool.RemoveOrphanBlock | blockchain/blockchain.go:880-908 | Removes exactly one orphan from both maps and drops it as eviction victim. |
| OrphanPool.RemoveFromList | blockchain/blockchain.go:890-898 | The in-place deletion leaves the orphans of the parent with other hashes, in order. |
| OrphanPool.Pool.DropExpired | blockchain/blockchain.go:911-920 | Exactly the unexpired orphans remain, and if none expired the victim is one that expires first. |
| OrphanPool.Pool.MakeRoom | blockchain/blockchain.go:911-925 | There is always a victim: afterwards there is room, at the cost of the expired ones or else of the one expiring first. |
| OrphanPool.RoomExactly | blockchain/blockchain.go:911-925 | What is left has not expired, and an orphan that has not expired goes only from a full pool, alone, with none expiring before it. |
| OrphanPool.Pool.AddOrphanBlock | blockchain/blockchain.go:910-944 | The pool stays within its limit with the maps in agreement; the new orphan expires in an hour, the expired ones are gone, and at most one other goes, from a full pool, with none expiring before it. |
| BlockProcessing.FreshBelow | blockchain/blockchain.go:848-878 | A block new to the index has no orphan child in it, so the search below it meets only new blocks. |
| BlockProcessing.AcceptIndex | blockchain/blockchain.go:1594-1674 | A block is in the index after acceptance exactly when it was accepted or its reorganization broke off. |
| BlockProcessing.RefusedStaysIndexed | blockchain/blockchain.go:1705-1776 | A block that overtakes the tip, is not too deep and is refused by validation breaks the reorganization and stays in the index. |
| BlockProcessing.BrokenExactly | blockchain/blockchain.go:855-876 | The error that a search for orphans ends in is a broken reorganization exactly when one of the blocks it processed met an obstruction. |
| BlockProcessing.OrphanLeftBehind | blockchain/blockchain.go:855-876 | Processing three blocks after genesis, the second of them first as an orphan, ends with that orphan in the pool and in the index, and nothing else in both. |
| BlockProcessing.AcceptPooled | blockchain/blockchain.go:855-876 | What processing an orphan with an indexed parent does to pool and index, before and after it is taken out of the pool. |
| BlockProcessing.UnblockedAfter | blockchain/blockchain.go:848-878 | After a search without error no orphan left has an indexed parent, if none had before. |
| BlockProcessing.AcceptKeeps | blockchain/blockchain.go:848-878 | Indexing a block leaves every hash that pool and index share under one parent, says which hashes they share afterwards, and keeps the search below it open. |
| BlockProcessing.Processor.AcceptOrphan | blockchain/blockchain.go:855-876 | The outcome is that of processing the block in the chain's state; an accepted orphan leaves the pool and enters the index; a refused one stays in the pool, and is then in the index too exactly when its reorganization broke off. |
| BlockProcessing.Processor.ProcessOrphans | blockchain/blockchain.go:848-878 | It terminates and tries the orphans breadth first, each after its parent. All tried were accepted, or all but the last, whose outcome is the error and which stays in the pool. On success none waits for the block or for one accepted on the way. Index and pool stay disjoint exactly when no orphan tried was obstructed in the state it met; else they share the last one. |
| BlockProcessing.Processor.ProcessBlock | blockchain/blockchain.go:1837-1896 | Which blocks are known, insane, orphaned or processed; the chain's history grows by the block and the orphans tried, each after its parent; the result is the outcome of the block or of the last orphan; what is left of the pool; when index and pool stay disjoint; and exactly when an orphan with an indexed parent is left behind. |
| History.ForwardRollbackExact | utils/history.go:41-45 | With exact inverses, rolling back front to back restores the state exactly when executing the changes in reverse order does the same. |
| History.CommutingOrderFree | utils/history.go:33-45 | Changes that commute pairwise meet that condition. |
| History.ForwardRollbackCanFail | utils/history.go:41-45 | It does not hold of all exact inverses. |
| History.CommutingUndone | utils/history.go:41-45 | If each change alone is undone in the state it ran in and the rollbacks commute, as those of different fields do, the height is undone. |
| History.FieldwiseExactly | utils/history.go:41-45 | A height of changes to single fields is undone exactly when, for each field by itself, the changes of that field are. |
| History.FieldWritesUndoneExactly | utils/history.go:41-45 | A height of writes and deletions of any fields, each restoring the value it found, is undone exactly when every field written more than once had its first value back by its last write but one. |
| History.RestoredExactly | dpos/state/state.go:1431-1449 | Whatever the updates do, changes that restore remembered values are undone exactly when for every field the value its last change remembered is the one from before the height. |
| History.RememberedBefore | dpos/state/state.go:1431-1449 | Changes that all remembered their field before the height began are undone, however many of them share a field. |
| History.UndoneWhereItRan | utils/history.go:41-45 | Setting a flag is undone where the flag was clear, and not everywhere: the log asks only for the former. |
| History.UndoLastRestores | utils/history.go:197-199 | If each entry is undone in the state it ran in, undoing the newest entries leaves the state that the older ones made. |
| History.ExecuteAllSplit | utils/history.go:131-133 | Executing a history is executing its start and then its rest. |
| History.HeightsTrim | utils/history.go:135-154 | Dropping the entries of the oldest height forgets that height alone. |
| History.TrimmedExactly | utils/history.go:135-154 | Nothing is forgotten below capacity; at capacity exactly the entries of the lowest height. |
| History.RetainedExactly | utils/history.go:119-171 | Commits at ascending heights retain exactly the newest ones, as many as the capacity, and at least one. |
| History.RetainedRestored | utils/history.go:232-256 | So after any such run, undoing down to any one of those heights gives back the state right after its commit. |
| History.ExecuteLoop | utils/history.go:34-38 | The loop executes a height's changes in order. |
| History.RollbackLoop | utils/history.go:41-45 | The loop rolls them back, also in order. |
| History.CountHeights | utils/history.go:135-150 | The counting loop finds the number of distinct heights and the number of entries of the oldest. |
| History.Log.constructor | utils/history.go:259-264 | A new log is valid and empty. |
| History.Log.Append | utils/history.go:83-116 | When a change becomes temporary or pending and when the code panics; the temporary changes are rolled back first, and the log stays valid exactly when that takes them off. |
| History.Log.Commit | utils/history.go:119-171 | From any sought position the result is as if nothing had been sought: the pending changes on the newest state, recorded as that height's state and appended to the entries, of which a history at capacity loses exactly those of its lowest height. Temporary changes are executed alone, and committed once they can be taken off exactly when they are undone there. |
| History.Log.CommitTemp | utils/history.go:120-126 | The same for the part of a commit with temporary changes. |
| History.Log.CommitPending | utils/history.go:128-170 | The same for the part of a commit without temporary changes. |
| History.Log.Trim | utils/history.go:151-154 | Below capacity every entry stays; at capacity exactly those of the lowest height go, and there is room for one more height. |
| History.Log.RollbackTo | utils/history.go:232-256 | Which entries go and what is rolled back, from any position; from the newest height the state becomes the one recorded when the newest remaining height was committed, which is the height asked for whenever it is retained. Pending changes stay. |
| History.Log.SeekTo | utils/history.go:174-208 | When it is refused, when it runs past the entries, and what the state is otherwise; from the newest height, back to it, or in place, the state is the one recorded at the height sought. |
| History.Log.EnoughHistory | utils/history.go:176-191 | The refusal test, with its unsigned wrap-around, is exactly a bound by the number of retained heights. |
| History.SeekExact | utils/history.go:193-205 | On a history of additions a seek reaches its target exactly from the newest height, to the newest height, or in place; never from a seek height above the newest, which a rollback leaves behind. |
| History.RollbackExact | utils/history.go:246-253 | On the same history a rollback is right exactly from the newest height. |
| FeeList.FitLongest | mempool/txfeeorderedlist.go:63-69 | What dropping from the back leaves is the longest prefix that fits, both ways. |
| FeeList.InsertedOrdered | mempool/txfeeorderedlist.go:142-151 | Inserting at the searched position keeps descending rates with equal rates in arrival order. |
| FeeList.RemovedOrdered | mempool/txfeeorderedlist.go:73-88 | Removing keeps that order. |
| FeeList.ExcludedFits | mempool/txfeeorderedlist.go:51-55 | Refusing a low rate early gives the same list as inserting it and dropping it. |
| FeeList.LowRateFinds | mempool/txfeeorderedlist.go:73-102 | A held hash is found whenever the given rate is not above the recorded one. |
| FeeList.ReachableIff | mempool/txfeeorderedlist.go:73-102 | What the backward scan from the searched position can find. |
| FeeList.OrderedList.Search | mempool/txfeeorderedlist.go:75-77 | The binary search finds the first entry with a lower rate. |
| FeeList.OrderedList.CompareAndInsert | mempool/txfeeorderedlist.go:142-151 | The shifted insertion is the sorted insertion behind equal rates. |
| FeeList.OrderedList.AddTx | mempool/txfeeorderedlist.go:41-71 | The list becomes the longest fitting prefix of the sorted insertion, exclusion included; the dropped hashes are reported, and with room nothing is dropped. |
| FeeList.OrderedList.DropUntilFits | mempool/txfeeorderedlist.go:63-69 | The eviction loop reports exactly what it drops. |
| FeeList.OrderedList.Locate | mempool/txfeeorderedlist.go:90-102 | The nearest entry of the hash at or before the index, or none. |
| FeeList.OrderedList.RemoveTx | mempool/txfeeorderedlist.go:73-88 | It removes one entry of the hash, exactly when such an entry is first or follows one whose rate is not below the given rate; the total stays right exactly when the given size is the entry's. |
| ConflictSlots.KeysExactly | mempool/conflictslot.go:93-260 | Which keys a transaction has in a slot: from the function of its type, else from the one for all types; nil gives none, and a value of another kind than the slot's is an error. |
| ConflictSlots.ExactUnshared | mempool/conflictslot.go:93-202 | In an exact slot, or one that lacks other keys, no two pooled transactions share a key. |
| ConflictSlots.EnterExact | mempool/conflictslot.go:136-173 | Entering free keys keeps a slot exact for the grown pool. |
| ConflictSlots.RemoveExact | mempool/conflictslot.go:175-202 | Removing a pooled transaction's keys keeps a slot exact for the shrunk pool, up to the keys it lacked before. |
| ConflictSlots.FreeMore | mempool/conflictslot.go:175-202 | Taking any keys out leaves a slot that lacks exactly those more. |
| ConflictSlots.ExactIfSpared | mempool/conflictslot.go:175-202 | A slot that lacks some keys is exact exactly when no pooled transaction has one of them. |
| ConflictSlots.ForeignRemoveExact | mempool/conflictslot.go:175-202 | Removing another transaction's keys keeps it exact exactly when no pooled transaction has one of them. |
| ConflictSlots.FreeExact | mempool/conflictslot.go:93-134 | In an exact slot keys are free exactly when no pooled transaction has one of them. |
| ConflictSlots.ConflictSlot.VerifyTx | mempool/conflictslot.go:93-134 | Passes exactly when the keys can be read and none is held. |
| ConflictSlots.ConflictSlot.AppendTx | mempool/conflictslot.go:136-173 | Enters all the keys or, when they cannot be read, none. |
| ConflictSlots.ConflictSlot.RemoveTx | mempool/conflictslot.go:175-202 | Removes all the keys or, when they cannot be read, none. |
| ConflictSlots.ConflictManager.VerifyTx | mempool/conflictmanager.go:68-76 | Passes exactly when every slot would. |
| ConflictSlots.ConflictManager.AppendTx | mempool/conflictmanager.go:78-86 | It stops part-way only at a slot whose keys cannot be read, with the slots before it entered and the others untouched. |
| ConflictSlots.ConflictManager.RemoveTx | mempool/conflictmanager.go:88-96 | The same for removal. |
| ConflictSlots.ConflictManager.GetTx | mempool/conflictmanager.go:98-106 | The owner of a key in the first slot of the name, and nothing when there is no such slot. |
| TxPool.BudgetsWithout | mempool/txpool.go:568-586 | The pooled budgets are the sum of the proposals' budgets, taken one transaction at a time. |
| TxPool.SizeWithout | mempool/txpool.go:124-128 | The pooled bytes are the sum of the transactions' sizes. |
| TxPool.ListSize | mempool/txpool.go:82-161 | The fee list's total is the bytes of the pooled transactions. |
| TxPool.FoundByRate | mempool/txpool.go:599-618 | A transaction no dearer than the pooled one of its hash is found in the fee list. |
| TxPool.InputOwner | mempool/txpool.go:539-541 | An exact inputs slot names the only pooled spender of an output, or there is none. |
| TxPool.InputsSpared | mempool/txpool.go:286-313 | After its spenders are gone, removing a block transaction's keys leaves the inputs slot exact. |
| TxPool.SparedAll | mempool/txpool.go:257-318 | No remaining transaction has a key taken out for a block exactly when each block transaction spares the slot. |
| TxPool.CleanedOfSpenders | mempool/txpool.go:257-322 | After a block exactly those transactions stay that share no input with a block transaction that was looked at and were not removed by hash. |
| TxPool.CleaningCanBreakSlots | mempool/txpool.go:257-318 | A pool made and cleaned by its own operations in which another slot has lost a key that a pooled transaction still holds. |
| TxPool.DisturbedSlot | mempool/txpool.go:286-313 | The two transactions of that pool: one payload, different inputs. |
| TxPool.Pool.constructor | mempool/txpool.go:635-654 | A new pool is empty and valid with all slots exact. |
| TxPool.Pool.DealAddProposalTx | mempool/txpool.go:568-576 | The running total gains the sum of the budgets. |
| TxPool.Pool.DealDelProposalTx | mempool/txpool.go:578-586 | The running total loses it. |
| TxPool.Pool.DoRemoveTransaction | mempool/txpool.go:599-618 | List, totals, fee list and slots all lose exactly that transaction; exact slots stay exact, and others lack what they lacked before. |
| TxPool.Pool.RemoveDisplaced | mempool/txpool.go:496-518 | Exactly the displaced transactions go, whatever the order of the map; exact slots stay exact. |
| TxPool.Pool.DoAddTransaction | mempool/txpool.go:588-597 | With the size checked before, adding evicts nothing and fails only for size zero. |
| TxPool.Pool.VerifyWithPool | mempool/txpool.go:465-474 | With exact slots it passes exactly the transactions that share no key with the pool. |
| TxPool.Pool.AppendVerified | mempool/txpool.go:118-142 | After a passed check entering the keys cannot fail, so a slot is never left half updated; a conflict is reported exactly when a key is shared. |
| TxPool.RefusalExactly | mempool/txpool.go:84-117 | Exactly when the screening answers invalid, duplicate, coinbase, insane or out of context, and which transactions an appropriation pushes out before. |
| TxPool.PurgedExactly | mempool/txpool.go:465-518 | Which further transactions a side-chain proof pushes out: the proofs for its own side chain. |
| TxPool.Pool.Screen | mempool/txpool.go:84-117 | The checks in their order give that answer and leave that pool, with every slot as exact as it was. |
| TxPool.Pool.AppendToTxPool | mempool/txpool.go:82-161 | Pool, fee list, totals and slots stay in agreement on every path. For each reason, exactly when it is given, by kind, hash, the answers of validation and the pool that is left after displacement: its budgets, its shared keys, its bytes. The transaction is in afterwards exactly when it passed, fits and has a size, and nothing else of that pool is gone. |
| TxPool.Pool.CleanInputs | mempool/txpool.go:286-309 | Exactly the spenders of the block transaction's inputs go, and no slot comes to lack a key. |
| TxPool.Pool.FreeKeys | mempool/txpool.go:311-313 | Each slot up to the first whose keys cannot be read comes to lack exactly the block transaction's keys. |
| TxPool.Pool.CleanTransaction | mempool/txpool.go:257-318 | One block transaction cleans the pool as specified and leaves the inputs slot exact; any other exact slot stays exact exactly when the transaction is not looked at, its removal stops before the slot, or no remaining transaction shares a key with it. |
| TxPool.Pool.CleanTransactions | mempool/txpool.go:257-322 | A whole block does, and an exact slot is exact afterwards exactly when every block transaction spares it with respect to the pool that is left. |
| IndexManager.SharedPrefix | blockchain/indexers/manager.go:280-357 | Stored paths that share a block share everything below it. |
| IndexManager.Manager.IndexDisconnectBlock | blockchain/indexers/manager.go:108-133 | The tip assertion fires exactly for another block than the tip, and the indexer fails exactly when it says so; else the tip moves to the parent, and a stored block comes off the end of the index. |
| IndexManager.Manager.IndexConnectBlock | blockchain/indexers/manager.go:78-102 | The tip assertion fires exactly when the block does not extend the tip, and the indexer fails exactly when it says so; else the index gains it, and stays a stored path when it is the next stored block. |
| IndexManager.Manager.RollbackIndex | blockchain/indexers/manager.go:280-357 | An index loses exactly the blocks after it leaves the main chain, and no assertion or missing block stops it; it goes on only while no poll is interrupted. |
| IndexManager.Manager.RollbackAll | blockchain/indexers/manager.go:280-357 | All of them are cut exactly where they leave the main chain. |
| IndexManager.Manager.FetchHeights | blockchain/indexers/manager.go:359-390 | The heights are those of the indexes and the lowest is their minimum. |
| IndexManager.Manager.ConnectToAll | blockchain/indexers/manager.go:401-427 | A main-chain block goes to exactly the indexes that lack it and always extends their tips. |
| IndexManager.Manager.Init | blockchain/indexers/manager.go:243-439 | From any stored forks a successful run ends with every index equal to the main chain, and was not interrupted at any height from the first that some index lacked; only the indexer or an interrupt can fail, leaving indexes that can be recovered again; with neither it succeeds. |
| IndexManager.Manager.ConnectBlock | blockchain/indexers/manager.go:446-457 | A block extending the chain extends every index, without assertion failures. |
| IndexManager.Manager.DisconnectBlock | blockchain/indexers/manager.go:465-476 | Disconnecting the best block takes it off every index. |
| OwnedCoins.SpellsUnique | wallet/ownedcoins.go:134-154 | The links of an owner spell at most one list. |
| OwnedCoins.AppendSpells | wallet/ownedcoins.go:156-183 | The link updates of an append spell the longer list and leave other owners alone. |
| OwnedCoins.UnlinkSpells | wallet/ownedcoins.go:185-208 | The link updates of a removal spell the list without that place and leave other owners alone. |
| OwnedCoins.RemoveZeroExact | wallet/ownedcoins.go:185-208 | Removing the sentinel leaves a list exactly when it was empty. |
| OwnedCoins.Coins.constructor | wallet/ownedcoins.go:226-228 | Every owner starts with the empty list. |
| OwnedCoins.Coins.Append | wallet/ownedcoins.go:156-183 | An absent out point goes to the end of its owner's list; nil, zero and present ones change no list. |
| OwnedCoins.Coins.Remove | wallet/ownedcoins.go:185-208 | A present out point leaves its owner's list with the order of the others kept; given the zero out point, the list survives exactly when it is empty or has no head. Other owners' lists stay. |
| OwnedCoins.Coins.ListCoins | wallet/ownedcoins.go:210-224 | The walk over the links ends and yields exactly the owner's list. |
| CoinCheckpoint.CreatedExact | wallet/coincheckpoint.go:142-168 | The coins a transaction creates are exactly its tracked outputs. |
| CoinCheckpoint.UnspentExact | wallet/coincheckpoint.go:142-168 | After any run of saved transactions, repeated or not, the coins are exactly the tracked outputs that no later transaction spends, each as the last transaction that made it left it. |
| CoinCheckpoint.CoinIsOutput | wallet/coincheckpoint.go:142-168 | If one transaction bears a hash, a coin under it holds the output its out point names, however often that was saved. |
| CoinCheckpoint.SavedAgain | wallet/coincheckpoint.go:142-168 | A transaction saved again after a reorganization meets only its own coins. |
| CoinCheckpoint.AppendCoinExact | wallet/coincheckpoint.go:225-240 | Appending keeps lists and coins in agreement exactly when the out point is new or already belongs to the address. |
| CoinCheckpoint.Checkpoint.AppendCoin | wallet/coincheckpoint.go:225-240 | A tracked coin enters map and list; they stay in agreement exactly when the out point is not zero and does not belong to another address. |
| CoinCheckpoint.Checkpoint.RemoveCoin | wallet/coincheckpoint.go:242-253 | A coin leaves map and list together. |
| CoinCheckpoint.Checkpoint.OnBlockSaved | wallet/coincheckpoint.go:142-168 | The coin set is that of the whole run, this block included, blocks saved again after a reorganization among them, and lists and coins agree. |
| CoinCheckpoint.Checkpoint.ListCoins | wallet/coincheckpoint.go:255-267 | The coins of an owner are exactly the outputs to that address, of an account at the time or of a vote or a deposit, that no later transaction of the run spends. |
| Merkle.PathReachesRoot | auxpow/auxpow.go:216-234 | The sibling path of any index leads from its leaf to the root. |
| Merkle.BranchProvesLeaf | auxpow/auxpow.go:216-234 | With a collision-free hash a full-length branch that reaches the root proves the leaf at its index. |
| Merkle.ProvableExactly | auxpow/auxpow.go:216-234 | A hash can be shown at an index exactly when it is the leaf there. |
| Merkle.SameLeavesSameRoot | crypto/merkletree.go:30-93 | Lists of one depth that put the same leaf at every index have one root, under any hash. |
| Merkle.RootExactlyLevel | crypto/merkletree.go:30-93 | With a collision-free hash, lists of one depth share a root exactly when they put the same leaf at every index. |
| Merkle.RaisedKeepsRoot | crypto/merkletree.go:62-82 | Each level of a tree has the tree's root, and is as much less deep as it is higher. |
| Merkle.RootExactly | crypto/merkletree.go:30-93 | With a collision-free hash, any two lists share a root exactly when the shallower puts the same node at every index as the level of its depth in the other's tree. |
| Merkle.InnerNodesAsLeaves | crypto/merkletree.go:62-82 | The inner nodes above a list, taken as leaves, have its root, under any hash. |
| Merkle.RootInjective | crypto/merkletree.go:30-93 | With a collision-free hash leaf lists of one length and root are equal. |
| Merkle.RepeatedLastLeaf | crypto/merkletree.go:62-82 | Repeating the last leaf of an odd list keeps the root, under any hash. |
| Merkle.Place | auxpow/auxpow.go:216-234 | The leaf an index stands for is in range, and is the index itself when that is. |
| Merkle.LevelUpNodes | crypto/merkletree.go:62-82 | The loop builds the level above, each node hashing its children and an odd last one paired with itself. |
| Merkle.GenerateLeaves | crypto/merkletree.go:50-60 | One leaf per hash, in order. |
| Merkle.NewMerkleTree | crypto/merkletree.go:30-48 | An error exactly for no hashes; else a tree in which every node hashes its children, with the root and depth of the leaf list. |
| Merkle.ComputeRoot | crypto/merkletree.go:84-93 | The root of the leaf list, or an error exactly for none. |
| Merkle.GetMerkleRoot | auxpow/auxpow.go:216-234 | The loop folds the branch by the bits of the index; index -1 gives the zero hash. |
| Difficulty.NormalizedCanonical | blockchain/difficulty.go:129-165 | The branches compute the one mantissa in [2^15, 2^23) and its exponent. |
| Difficulty.CanonicalUnique | blockchain/difficulty.go:129-165 | A number has only one such mantissa and exponent. |
| Difficulty.DecodedExactly | blockchain/difficulty.go:179-205 | Bits with x in the top byte, a sign bit and m below stand for m * 256^(x - 3), cut towards zero. |
| Difficulty.Encoding | blockchain/difficulty.go:129-165 | A positive number below the limit is written as its canonical mantissa and exponent, the exponent in the top byte. |
| Difficulty.RoundTrip | blockchain/difficulty.go:129-205 | Decoding an encoded target is positive, not above it and less than one part in 2^15 below, exactly for the numbers below 2^23 * 256^252. |
| Difficulty.Idempotent | blockchain/difficulty.go:129-205 | A decoded target encodes to the bits it came from. |
| Difficulty.Monotone | blockchain/difficulty.go:129-165 | Larger targets encode to larger bits. |
| Difficulty.DecodedMonotone | blockchain/difficulty.go:129-205 | They decode to larger, positive targets. |
| Difficulty.NegativeStaysNegative | blockchain/difficulty.go:129-205 | A negative number never decodes to a positive one, whatever its size. |
| Difficulty.NegativeCarryLosesValue | blockchain/difficulty.go:129-205 | Within the limit a negative number decodes to zero exactly when its three leading bytes, rounded up, carry out of the mantissa. |
| Difficulty.NegativeRoundTrip | blockchain/difficulty.go:129-205 | A negative number decodes to within one part in 2^15 exactly when it does not carry and its magnitude is at most (2^23 - 1) * 256^252. |
| Difficulty.NegativeCarryHappens | blockchain/difficulty.go:129-205 | One that carries: -(2^32 - 1) decodes to zero. |
| Difficulty.WorkExactly | blockchain/blockchain.go:1025-1035 | The work of a target is the number of times that target + 1 goes into 2^256. |
| Difficulty.CalcWorkExactly | blockchain/blockchain.go:1025-1035 | The same for the target that bits stand for, and no work for one that is not positive. |
| Difficulty.WorkOf | blockchain/blockchain.go:1025-1035 | Work is positive exactly for targets between 1 and 2^256 - 1. |
| Difficulty.WorkAntitone | blockchain/blockchain.go:1025-1035 | A smaller positive target means no less work. |
| Retarget.RequiredExactly | blockchain/difficulty.go:64-127 | The three cases of the required bits, with the span and the target of the third determined by inequalities. |
| Retarget.CalcNextRequiredDifficulty | blockchain/difficulty.go:64-127 | The limit bits after genesis or on the instant chain; the previous bits inside an interval; at its end the bits of the old target times the held span over the target timespan, rounded down and capped, the span being the time since the interval's first block modulo 2^32. The missing-block error is unreachable. |
| Retarget.AncestorAt | blockchain/difficulty.go:84-87 | The parent walk ends at the ancestor of the given height. |
| Retarget.RetargetBounds | blockchain/difficulty.go:89-126 | The new target is at most the limit and within the clamped timespan ratio, up to the encoding's rounding. |
| Retarget.BackwardsClockEases | blockchain/difficulty.go:89-96 | Exactly when a clock running backwards eases the target as far as it goes. |
| Congruence.Euclid | crypto/encode.go:130-145 | A prime dividing a product divides a factor. |
| Congruence.Fermat | crypto/encode.go:130-145 | Fermat's little theorem, which the square root relies on. |
| Congruence.RootOfSquare | crypto/encode.go:130-145 | Modulo a prime that is 3 modulo 4 the (p+1)/4-th power of a square is a root of it. |
| Congruence.RootsAreOpposite | crypto/encode.go:210-238 | There are no other roots than one and its negation. |
| PointCodec.SqrtComplete | crypto/encode.go:129-145 | The square root is found whenever there is one. |
| PointCodec.SqrtSound | crypto/encode.go:129-145 | What is returned is a root. |
| PointCodec.RightHandSideExact | crypto/encode.go:210-225 | Reducing at every step gives the reduced x^3 - 3x + b. |
| PointCodec.WithParityExact | crypto/encode.go:231-237 | The parity picks the one root that was encoded. |
| PointCodec.DecodedSound | crypto/encode.go:210-257 | A compressed string that is accepted is the encoding of the point it yields, and the point is on the curve. |
| PointCodec.EncodedDecodes | crypto/encode.go:210-257 | The compressed encoding of every curve point in range decodes to it. |
| PointCodec.DecodesExactly | crypto/encode.go:240-300 | A compressed string decodes to a key exactly when the key is a curve point in range and the string is its encoding. |
| PointCodec.CompressedRoundTrip | crypto/encode.go:240-300 | Compression is undone on exactly the curve points with x below 2^256 and y at most p. |
| PointCodec.RefusedExactly | crypto/encode.go:210-230 | A flagged string is badly formatted exactly when it has not 33 bytes, and is refused otherwise exactly when no point of the curve has its x. |
| PointCodec.UncompressedRoundTrip | crypto/encode.go:258-300 | The uncompressed form is undone exactly for coordinates of at most 32 bytes. |
| PointCodec.UncompressedDecode | crypto/encode.go:240-267 | Which other strings are accepted, and that only flag 4 is written back as it was. |
| PointCodec.UnmarshalAgrees | crypto/schnorr.go:104-140 | On every compressed string, and every 33-byte string, the two decoders accept the same and yield the same point. |
| PointCodec.CompressedForm | crypto/encode.go:269-300 | The compressed bytes: 2 or 3 by the parity of y, then the 32 bytes of x, highest first. |
| PointCodec.UncompressedForm | crypto/encode.go:269-300 | The uncompressed bytes: 4, then x and y, for coordinates of at most 32 bytes. |
| PointCodec.EncodePoint | crypto/encode.go:269-300 | Filling the buffer yields the specified encoding for every key that fits it, including oversized coordinates; the point at infinity is one zero byte. |
| PointCodec.Marshal | crypto/schnorr.go:92-102 | It agrees with EncodePoint exactly for coordinates of at most 32 bytes, or a 33-byte one whose first byte is 2. |
| PointCodec.P256Supported | crypto/crypto.go:31-32 | secp256r1 meets the assumptions, given that its modulus is prime. |
| Serialize.FromLittleEndianExact | common/serialize.go:398-436 | Fixed-width bytes are the encoding of the integer read from them. |
| Serialize.LastIsHighest | common/serialize.go:398-436 | The last byte read is the most significant one. |
| Serialize.UintExact | common/serialize.go:389-460 | Reading a fixed-width integer yields a value and a tail exactly when the input is the value's encoding followed by the tail. |
| Serialize.IntExact | auxpow/btctx.go:109-116 | The same for signed integers in two's complement. |
| Serialize.VarUintExact | common/serialize.go:213-323 | Reading accepts exactly the canonical encodings of 64-bit values, whatever follows them. |
| Serialize.VarUintSize | common/serialize.go:245-262 | The announced size is the encoding's length. |
| Serialize.VarUintForms | common/serialize.go:213-239 | A count is written in one byte below 253, else after one of three tags in the fewest of two, four and eight bytes. |
| Serialize.VarBytesExact | common/serialize.go:325-364 | Counted byte strings are read back exactly up to the allowed length. |
| Serialize.ListExact | auxpow/btctx.go:136-218 | A counted list is read back exactly when its elements are. |
| Serialize.WriteUint | common/serialize.go:431-460 | The bytes written are the little-endian form. |
| Serialize.WriteVarUint | common/serialize.go:213-241 | Appends the canonical form. |
| Serialize.ReadUint | common/serialize.go:389-429 | Agrees with parsing the rest of the stream, truncation errors included. |
| Serialize.ReadVarUint | common/serialize.go:265-323 | Agrees with parsing, non-canonical encodings refused. |
| Serialize.WriteVarBytes | common/serialize.go:325-332 | Appends length and bytes. |
| Serialize.ReadVarBytes | common/serialize.go:343-364 | Agrees with parsing, too long strings refused. |
| AuxPowCodec.OutPointExact | auxpow/btctx.go:44-69 | Parsing accepts exactly the forms of out points. |
| AuxPowCodec.TxInExact | auxpow/btctx.go:71-107 | Parsing accepts exactly the forms of inputs with scripts within the limit. |
| AuxPowCodec.TxOutExact | auxpow/btctx.go:109-134 | Parsing accepts exactly the forms of outputs with scripts within the limit. |
| AuxPowCodec.TxExact | auxpow/btctx.go:136-218 | A transaction's bytes followed by any tail are read back to it and the tail, and accepted bytes are written back the same; exactly for transactions that fit. |
| AuxPowCodec.HeaderExact | auxpow/btcheader.go:24-97 | The same for headers. |
| AuxPowCodec.HeaderLayout | auxpow/btcheader.go:24-56 | The byte ranges of the six header fields. |
| AuxPowCodec.TxInLayout | auxpow/btctx.go:59-110 | The byte ranges of an input: out point hash and index, script, sequence. |
| AuxPowCodec.TxOutLayout | auxpow/btctx.go:125-135 | The byte ranges of an output: value, script. |
| AuxPowCodec.TxLayout | auxpow/btctx.go:137-171 | The byte ranges of a transaction: version, inputs, outputs, lock time. |
| AuxPowCodec.AuxPowLayout | auxpow/auxpow.go:46-101 | The byte ranges of a proof, from the coinbase transaction to the parent header in its last 80 bytes. |
| AuxPowCodec.AuxPowExact | auxpow/auxpow.go:46-162 | The same for whole proofs. |
| AuxPowCodec.LongScriptRefused | auxpow/btctx.go:71-107 | A script is written whatever its length and refused on reading exactly above 10000 bytes. |
| AuxPowCodec.IndicesAreCut | auxpow/auxpow.go:46-162 | A proof with any branch indices is read back with them reduced to 32 bits. |
| AuxPowCodec.SerializeTx | auxpow/btctx.go:136-172 | The writers and loops append exactly the form. |
| AuxPowCodec.SerializeHeader | auxpow/btcheader.go:24-56 | The same for headers. |
| AuxPowCodec.SerializeAuxPow | auxpow/auxpow.go:46-101 | The same for proofs. |
| AuxPowCodec.DeserializeTx | auxpow/btctx.go:174-218 | The readers and loops agree with parsing the rest of the stream, errors included. |
| AuxPowCodec.DeserializeHeader | auxpow/btcheader.go:58-97 | The same for headers. |
| AuxPowCodec.DeserializeAuxPow | auxpow/auxpow.go:103-162 | The same for proofs. |
| CoinSelection.CoverableExact | blockchain/blockchain.go:445-483 | With coins that are not negative a positive amount can be covered exactly when all coins together reach it. |
| CoinSelection.CreateNormalOutputs | blockchain/blockchain.go:395-413 | One output per payment, and the total is what they pay and the fee. |
| CoinSelection.CreateInputs | blockchain/blockchain.go:445-483 | It succeeds exactly when some prefix of the coins reaches the amount, takes the shortest, and returns exactly the excess as change. |
| CoinSelection.CreateTransaction | blockchain/blockchain.go:361-393 | When each error occurs; out point and sequence of every input; recipient, amount and lock of every output, and the change; and that inputs are worth outputs plus fee exactly unless a negative total meets no coins. |
| CoinSelection.WithdrawCost | blockchain/blockchain.go:525-533 | Taking the fee off each payment and paying it per withdrawal preserves the sum exactly when the counts agree or the fee is zero. |
| CoinSelection.BalancedCost | blockchain/blockchain.go:361-393 | A balanced transaction costs the paying address the payments and the fee. |
| CoinSelection.DeductFee | blockchain/blockchain.go:525-527 | Every payment loses the fee once for each time it is passed. |
| CoinSelection.CreateRealWithdraw | blockchain/blockchain.go:512-535 | Each payment goes to its recipient, less the fee; a withdrawal of distinct payments costs its address exactly the sum requested if and only if there is one hash per payment or no fee. |
| CoinSelection.CreateVotesRealWithdraw | blockchain/blockchain.go:537-569 | The same, with a record of hash, address and amount before the fee for each payment; with fewer hashes than payments it fails before anything is changed. |

## Left out

- Pruning of old nodes and loading nodes from the database (blockchain/blockchain.go:1060-1255): every ancestor is in memory.
- Confirmations, node status flags, child lists and the dependency index, events and logging around fork choice.
- The depth rules behind the irreversibility check, and all block and transaction validation: answers from outside.
- Database write failures: blocks and indexes are stored in maps and writes succeed, except for the indexers' own work and the store for small cross-chain transfers.
- `ReorganizeChain2`, `OnRollbackTo` of the wallet, whose loop never runs, `RollbackSeekTo` of the history, and block locators.
- Payload-specific key functions of the conflict slots: any deterministic function from a transaction to keys; the three maps of a slot are one map under tagged keys.
- The pool's other cleaning paths (cancelled producers, council members, side-chain proofs), resending, its checkpoint and statistics.
- Rounding of fee rates: rates are real numbers, not 64-bit floats.
- Overflow of 64-bit amounts, sizes and totals; 32-bit heights wrap only where the code relies on it (the history's seek limit, retarget timespans, index tips).
- Dropping and creating indexes at start-up, and reading transactions through them.
- Wallet serialization and `GetCoin`.
- Key generation, signing, verification and curve arithmetic; the square root for primes that are 1 modulo 4.
- The primality of the secp256r1 modulus: an assumption of the point theorems.
- The legality check of a merge-mining proof: only its parts, branches and bytes, are here.
- Choosing and sorting the coins of an address (blockchain/blockchain.go:415-443): coin selection works on any list.
- Failing writers: streams are byte sequences in memory; the state of a reader after an error is not specified.
- Reward splitting, appropriation amounts and other floating-point calculations.
- Locks and concurrency: each method is one atomic step.
- OrphanPool.Pool.AddOrphanBlock: needs a block that is not an orphan already, as its only caller checks; `AppendAgreesExactly` shows what goes wrong otherwise. One clock reading serves the whole call, where the code reads the clock for each orphan.
- BlockProcessing.Processor.ProcessOrphans: needs a block that had no orphan child in the index before, which holds of every newly accepted block, and its only caller passes one.
- History.Log.Commit: needs heights that do not decrease and pending changes that are undone in the state they are executed in; `RestoredExactly` and `FieldWritesUndoneExactly` say which are.
- History.SeekExact: the exact condition is for histories in which each height adds itself to a counter, where different heights are never confused.
- History.RollbackExact: as `SeekExact`.
- TxPool.Pool.DoRemoveTransaction: needs equal content, at no higher fee rate, behind equal hashes, or the fee list would not find the entry.
- TxPool.Pool.CleanTransactions: needs equal content, at no higher fee rate, behind equal hashes; a block transaction whose inputs do not resolve is skipped, as in the code.
- IndexManager.Manager.Init: needs chains below 2^31 blocks, so that heights fit the stored tip.
- CoinCheckpoint.Checkpoint.OnBlockSaved: needs equal hashes to name equal transactions, hashes that are not zero, and at most 65536 outputs, the range of the output index.
