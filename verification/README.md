# RMDB in Dafny

A model of the RMDB relational engine and proofs about it. The files follow the engine's parts:

| part | files |
|---|---|
| B+ tree index | `BTree*.dfy`, `KeyOrder.dfy` |
| locks and transactions | `LockModel.dfy`, `LockManager.dfy`, `TransactionManager.dfy`, `Records.dfy`, `Schedules.dfy`, `TwoPhase.dfy`, `Serializability.dfy`, `ConflictOrder.dfy` |
| log and recovery | `LogRecords.dfy`, `RecoveryModel.dfy`, `Recovery.dfy`, `TornLog.dfy`, `LogFormat.dfy`, `LogStream.dfy`, `LogManager.dfy`, `LogChain.dfy` |
| rows, indexes and rollback | `Tables.dfy`, `IndexBuild.dfy`, `IndexRollback.dfy`, `TableEngine.dfy`, `RecoveredIndexes.dfy` |
| planner and executors | `Queries.dfy`, `Planner.dfy`, `JoinTree.dfy`, `IndexRange.dfy`, `IndexScan.dfy`, `IndexChoice.dfy`, `BlockJoin.dfy`, `QueryExecution.dfy`, `RawCompare.dfy`, `Sorting.dfy` |
| buffer pool | `PoolState.dfy`, `PoolCalls.dfy`, `PoolHistory.dfy`, `BufferPool.dfy` |
| heap file | `Bitmap.dfy`, `HeapState.dfy`, `HeapFile.dfy`, `HeapScan.dfy` |
| shared | `Rids.dfy`, `Sequences.dfy` |

`dafny verify dfyconfig.toml` checks everything.

The main results:

- **Index.** From the empty file, every history of `insert_entry` and `delete_entry` leaves a B+ tree that is a
  finite map, through recursive splits, merges, redistribution and root collapse. The invariant is local: each page
  carries a height and a key interval, and an unbounded interval marks the leftmost spine, where slot 0 may be stale.
  Cursors visit exactly the keys of an interval. Keys are integers in the tree; `KeyOrder` shows that the composite
  key order is the order of a number computed from the key.
- **Transactions.** With table locks held to the end, every run is equivalent to running the committed transactions
  one at a time in the order of their commit records, no scan sees uncommitted rows, and conflicts follow commit order.
- **Recovery.** From the log of any run, cut at any byte, redo and undo, stopped and restarted any number of times,
  leave the rows committed by some moment of the run exactly if the image of the heaps holds no others, and then the
  rebuilt indexes agree with them (`RecoveredIndexes.CrashRecovery`).
- **Rollback.** Taking a write set back restores rows and indexes exactly and never meets a duplicate.
- **Queries.** From its conditions to its projected rows a query returns the multiset of the filtered cross product,
  whichever indexes the planner picks and whatever the block size of its joins (`QueryExecution.RunQuery`); sorting with
  a limit keeps the first rows of the one stable order.
- **Storage.** In every run of calls whose clients are not careless, every page of the buffer pool holds what was last
  written to it, and free list, LRU list and pinned frames split the frames (`PoolCalls.EveryRunServes`); pins count
  fetches less unpins and the page given up is the one released longest ago (`PoolHistory.PinsAreCounted`,
  `PoolHistory.VictimIsOldest`); the heap file's free list is sound.

What the proofs show about the code that its comments do not say:

- A lock request can weaken a lock: IS or S after IX, and IX after S (`LockModel.WeakeningRequests`). The executors only
  ask for S and X, where it cannot happen.
- Redo and undo skip aborted transactions, and rollback logs nothing it undoes, so a row of an aborted transaction that
  had reached the disk stays after a crash (`Recovery.AbortedRowSurvives`); `Recovery.RecoveryIsExact` gives the exact
  condition. If a committed row took its key, the rebuild of the index at start-up throws
  (`RecoveredIndexes.SurvivorStopsRebuild`, with the exact condition in `RecoveredIndexes.RebuildAfterRecovery`).
- `create_index` leaves no trace in the write set. Rolling back past it can meet a key that is taken: `insert_entry`
  throws, nothing in `abort` catches it, and the transaction keeps its locks with half of its writes taken back
  (`IndexRollback.RollbackStopsPastCreateIndex`). `IndexRollback.RollbackPastCreateIndex` gives the exact condition.
- When a page is fetched that lies beyond the end of its file, such as a new page evicted without ever being written, the
  read throws after a frame was taken off the lists (`PoolState.ReadFailureStrands`). The frame is out of use until its
  page is fetched again or deleted, and if the page had the number to be handed out next, the next new page breaks the
  page table (`PoolCalls.FailedFetchSpoilsNewPage`).
- `pop_conds` gives a comparison between two columns of one table to the first table of the query, whichever that is;
  `JoinTree.MakeOneRel` gives the exact condition under which the tree is right.
- Growing a file during recovery makes the new page the whole free list, so pages with room are forgotten
  (`HeapState.GrowthLosesPage`; `HeapScan.EnsurePageExists` gives the exact condition).
- The header of a heap file is written only when the file is created or closed, so after a crash it may name a full page
  first, and `insert_record` then throws (`HeapState.StaleHeaderNamesFullPage`; `HeapState.OpenedIsValid` gives the exact
  condition).

Modelling choices: integers are unbounded except where a width matters (column ranges, the bytes of the log); pages,
records and buffers are sequences; hash maps and lists are maps and sequences; a table's rows are a map from place to
bytes; the disk is a map from page id to contents and the log file a string of bytes. Latches are left out: every
operation that the source runs under its latch is one step. In the runs of `TwoPhase` rolling back and writing the abort
record are one step, and so are a heap insert and its log record; rollback comes to its end there, as
`Tables.RollbackRestores` shows it does unless an index was created on the way.

## Model

| member | source | states |
|---|---|---|
| `BTreeSearch.LowerBound` | src/index/ix_index_handle.cpp:23-36 | on sorted keys the binary search returns the first position whose key is not below the target |
| `BTreeSearch.UpperBound` | src/index/ix_index_handle.cpp:44-57 | starting at 1 and never looking at slot 0, the search returns the first position from 1 on whose key is above the target, needing order only among the slots from 1 on |
| `BTreeSearch.FindChild` | src/index/ix_index_handle.h:166-175 | the slot of the child, which is there |
| `BTreeInsert.LeafInsert` | src/index/ix_index_handle.cpp:126-133 | inserting into a leaf at its lower bound keeps every clause of the tree invariant except that the leaf may now be full |
| `BTreeSplit.LeafSplit` | src/index/ix_index_handle.cpp:229-261 | splitting a full leaf keeps order, leaf ring, last leaf and sizes, and leaves exactly the new half unknown to its parent |
| `BTreeSplit.InnerSplit` | src/index/ix_index_handle.cpp:229-261 | splitting a full inner page moves its upper children with their parent pointers and leaves exactly the new half unknown to its parent |
| `BTreeLink.LinkBelowInv` | src/index/ix_index_handle.cpp:298-309 | entering the new half after the old one in the parent restores the invariant, the parent alone possibly full |
| `BTreeLink.LinkRootInv` | src/index/ix_index_handle.cpp:280-296 | a new root above the two halves restores the invariant |
| `BTreeErase.EraseMinInv` | src/index/ix_index_handle.cpp:345-360 | removing the least key of a leaf leaves a tree whose one possible fault is a separator above the leaf that still shows the removed key |
| `BTreeErase.EraseOtherInv` | src/index/ix_index_handle.cpp:345-360 | removing any other key keeps the invariant, only the leaf being short |
| `BTreeMaintain.ClimbStep` | src/index/ix_index_handle.cpp:635-652 | one turn of the upward loop: the one stale separator moves a level up, or there is none left |
| `BTreeMaintain.LoUnique` | src/index/ix_index_handle.cpp:635-652 | at each height at most one page starts at a given key, so one changed first key makes at most one separator stale |
| `BTreeRebalance.DealInv` | src/index/ix_index_handle.cpp:436-457 | dealing the entries of two siblings out again, with the separator between them reset, keeps the whole invariant |
| `BTreeMerge.MergeInv` | src/index/ix_index_handle.cpp:473-502 | putting a right sibling into the left one, dropping its slot and unhooking its leaf keeps the invariant, the parent alone being short |
| `BTreeMerge.CollapseInv` | src/index/ix_index_handle.cpp:405-412 | a root with one child gives way to it and the invariant holds without exemption |
| `BTreeContents.Lookup` | src/index/ix_index_handle.cpp:67-77 | a key is in the tree's map exactly if the lower bound in the leaf responsible for it hits it, with that rid |
| `BTreeContents.InsertContents` | src/index/ix_index_handle.cpp:317-338 | inserting into the responsible leaf adds exactly one binding to the map |
| `BTreeContents.EraseContents` | src/index/ix_index_handle.cpp:345-360 | erasing from the responsible leaf removes exactly that binding |
| `BTreeIndex.IxIndexHandle.constructor` | src/index/ix_manager.h:57-134 | the file as created: an empty root leaf on page 2, the ring header on page 1, a valid tree for the empty map |
| `BTreeIndex.IxIndexHandle.FindLeafPage` | src/index/ix_index_handle.cpp:188-201 | descends to the one leaf whose key interval contains the key |
| `BTreeIndex.IxIndexHandle.GetValue` | src/index/ix_index_handle.cpp:211-220 | finds a key exactly if it is in the map, and returns the rid bound to it |
| `BTreeIndex.IxIndexHandle.Split` | src/index/ix_index_handle.cpp:229-261 | the pages after the statements of the split are those of the split step |
| `BTreeIndex.IxIndexHandle.InsertIntoParent` | src/index/ix_index_handle.cpp:276-309 | from a half-linked split, recursion to the root restores the full invariant without changing the entries or any leaf |
| `BTreeIndex.IxIndexHandle.InsertEntry` | src/index/ix_index_handle.cpp:317-338 | an existing key is refused and the map is unchanged; a new one adds exactly its binding, and the page returned is the leaf that holds the key; the tree stays valid |
| `BTreeIndex.IxIndexHandle.MaintainParent` | src/index/ix_index_handle.cpp:635-652 | the loop ends with no stale separator and the same entries |
| `BTreeIndex.IxIndexHandle.Redistribute` | src/index/ix_index_handle.cpp:436-457 | from either side, the short page is filled up, the tree is valid and the entries are the same |
| `BTreeIndex.IxIndexHandle.EraseLeaf` | src/index/ix_index_handle.cpp:659-669 | the two neighbours in the ring are linked to each other, every other link of the ring stays, and no entry of any page changes |
| `BTreeIndex.IxIndexHandle.AdjustRoot` | src/index/ix_index_handle.cpp:405-420 | collapses a root with one child, keeps the entries, and resets first and last leaf when the tree is empty |
| `BTreeIndex.IxIndexHandle.CoalesceOrRedistribute` | src/index/ix_index_handle.cpp:373-397 | from a tree with one short page the recursion ends in a valid tree with the same entries |
| `BTreeIndex.IxIndexHandle.Coalesce` | src/index/ix_index_handle.cpp:473-502 | merges with the neighbour on either side and repairs upwards; valid tree, same entries |
| `BTreeIndex.IxIndexHandle.DeleteEntry` | src/index/ix_index_handle.cpp:345-360 | answers whether the key was there; the map loses exactly that binding; the tree stays valid |
| `BTreeIndex.IxIndexHandle.LowerBoundIid` | src/index/ix_index_handle.cpp:530-543 | a cursor at the position that separates smaller keys from the rest of the listing |
| `BTreeIndex.IxIndexHandle.UpperBoundIid` | src/index/ix_index_handle.cpp:551-569 | a cursor at the position that separates keys up to the given one from the rest |
| `BTreeIndex.IxIndexHandle.LeafEnd` | src/index/ix_index_handle.cpp:577-582 | the cursor behind the last entry |
| `BTreeIndex.IxIndexHandle.LeafBegin` | src/index/ix_index_handle.cpp:590-593 | the cursor at the first entry |
| `BTreeCursor.PosUnique` | src/index/ix_scan.h:33-33 | two cursors at one position are equal, so comparing cursors for equality detects the end |
| `BTreeCursor.PosNext` | src/index/ix_scan.cpp:17-30 | the next slot, or the first slot of the next leaf, is exactly one position further |
| `BTreeScan.IxScan.Next` | src/index/ix_scan.cpp:17-30 | moves by exactly one entry and brings the end one closer |
| `BTreeScan.RangeScan` | src/index/ix_scan.cpp:17-30 | between the bounds of two keys, inclusive or not at either end, the walk returns exactly the rids of the keys of that interval, in order, and ends |
| `BTreeScan.RunHistory` | src/index/ix_index_handle.cpp:317-360 | from the empty index every sequence of inserts and deletes leaves a valid tree whose map and answers are those of a finite map that refuses existing keys |
| `BTreeScan.ReplayMeans` | src/index/ix_index_handle.cpp:317-360 | a key is bound by the first insert since it was last deleted |
| `BTreeListing.AllAscending` | src/index/ix_index_handle.cpp:530-593 | the entries met along the leaf ring are strictly ascending, so no key is met twice |
| `BTreeListing.MapListed` | src/index/ix_index_handle.cpp:211-220 | the map holds exactly the listed entries |
| `BTreeListing.SelectListed` | src/index/ix_scan.cpp:17-30 | the entries of a range are exactly the listed ones with a key in it |
| `BTreeShape.SpineIsUnbounded` | src/index/ix_index_handle.cpp:44-57 | the pages without a lower bound are exactly those of the leftmost spine |
| `BTreeShape.SeparatorIsMinimum` | src/index/ix_index_handle.cpp:229-309 | in every valid tree a separator is the least key stored below it, except slot 0 on the leftmost spine |
| `BTreeShape.UniformLeafDepth` | src/index/ix_index_handle.cpp:276-309 | all leaves are equally many parent steps from the root |
| `BTreeShape.SizesInBounds` | src/index/ix_index_handle.h:84-86 | off the root sizes lie in [min, max); an inner root has two children or more |
| `BTreeShape.ParentPointers` | src/index/ix_index_handle.cpp:683-691 | a page is the child of exactly one slot, of the page its parent pointer names |
| `BTreeShape.LeafRing` | src/index/ix_defs.h:36-38 | the leaves form a doubly linked ring in key order through header page 1, and the first leaf is always the page the tree was created with |
| `KeyOrder.RankOrders` | src/index/ix_index_handle.h:20-47 | for INT, BIGINT, DATETIME and fixed-length STRING the comparison of one column is the order of the values' ranks, and ranks tell values apart |
| `KeyOrder.CompareColMeans` | src/index/ix_index_handle.h:20-47 | numbers compare as numbers, strings by the first byte in which they differ |
| `KeyOrder.CodeOrders` | src/index/ix_index_handle.h:49-57 | numbering tuples keeps lexicographic order and is injective |
| `KeyOrder.IxCompare` | src/index/ix_index_handle.h:49-57 | the column-by-column loop has the sign of the difference of the two key numbers, and is zero exactly for equal keys |
| `KeyOrder.PaddingIsExtreme` | src/execution/executor_index_scan.h:118-164 | the padding values are the least and greatest of their type, written out, and have the first and last rank of their column |
| `LockModel.CompatibleIsNoClash` | src/transaction/concurrency/lock_manager.cpp:51-65 | two modes are compatible exactly if the rights they give (read or write, part or all) do not clash; the relation is symmetric |
| `LockModel.AnswersIsCovers` | src/transaction/concurrency/lock_manager.cpp:99-107 | a held mode answers exactly the requests whose rights it has, except that IS is written over IX |
| `LockModel.LockMeans` | src/transaction/concurrency/lock_manager.cpp:81-128 | a request is refused exactly if the transaction is shrinking, or asks for a right it does not have while another's rights clash; a refusal changes nothing; a grant leaves every right asked for and every other hold as it was |
| `LockModel.StepMeans` | src/transaction/concurrency/lock_manager.cpp:198-225 | unlocking gives up that hold and ends the growing phase exactly if there was one; finishing gives up exactly the transaction's holds |
| `LockModel.WeakeningRequests` | src/transaction/concurrency/lock_manager.cpp:99-120 | exactly three requests take a right away from their own holder: IS or S after IX, and IX after S |
| `LockModel.LockKeepsHarmony` | src/transaction/concurrency/lock_manager.cpp:109-124 | a grant keeps the modes of different transactions pairwise compatible |
| `LockModel.EveryRunIsSound` | src/transaction/concurrency/lock_manager.cpp:81-225 | after any sequence of lock, upgrade, unlock and finish, modes held on an item are pairwise compatible and held only by live transactions |
| `LockModel.NothingGrantedAfterShrinking` | src/transaction/concurrency/lock_manager.cpp:85-87 | once a transaction has given back a lock it never gets a new hold or a new mode |
| `LockModel.NeverWeakens` | src/transaction/concurrency/lock_manager.cpp:99-124 | with S and X alone a held mode only grows until it is released |
| `LockModel.IntentionModesCanWeaken` | src/transaction/concurrency/lock_manager.cpp:118-120 | a shared holder that asks for IX is left with IX, and another may then hold IX too |
| `LockManager.RefreshGroupLockMode` | src/transaction/concurrency/lock_manager.cpp:67-79 | the group mode is the strongest granted mode by rank |
| `LockManager.RankMeans` | src/transaction/concurrency/lock_manager.cpp:31-49 | more rights rank higher, and S above IX |
| `LockManager.FindsConflict` | src/transaction/concurrency/lock_manager.cpp:109-116 | a conflict is reported exactly if a granted request of another transaction is incompatible |
| `LockManager.Manager.Lock` | src/transaction/concurrency/lock_manager.cpp:81-128 | refused exactly if the transaction is shrinking or another's rights clash with rights it lacks; a grant leaves it with every right it asked for; queues list exactly the holds, one granted request per transaction; the lock set names exactly the items held |
| `LockManager.Manager.Unlock` | src/transaction/concurrency/lock_manager.cpp:198-225 | removes exactly that hold, drops an empty queue, and ends the growing phase only if something was released |
| `LockManager.Manager.UnlockAll` | src/transaction/transaction_manager.cpp:100-105 | the loop over the lock set leaves the transaction without holds and everyone else's unchanged |
| `TransactionManager.Manager.Begin` | src/transaction/transaction_manager.cpp:55-71 | a new transaction gets a number of its own, an existing one keeps its locks and writes; either grows, gets the next timestamp and is entered in the table; the begin record points at its previous record and is not flushed |
| `TransactionManager.Manager.AppendLog` | src/transaction/transaction_manager.cpp:61-66 | the record gets the next number and becomes the transaction's last one; every record in the log still points at the one its transaction wrote before |
| `LogChain.ChainIsTransaction` | src/transaction/transaction.h:70-70 | following the pointers back from a transaction's last record meets all its records, in order, and no other |
| `TransactionManager.Manager.Commit` | src/transaction/transaction_manager.cpp:78-109 | the commit record is on disk before the first lock goes; this transaction's write set is dropped and every lock of it released, nobody else's; a finished transaction is left alone |
| `TransactionManager.Manager.Abort` | src/transaction/transaction_manager.cpp:116-185 | the write set is taken back as far as rollback gets; if it gets to its end every lock is released and the abort record is on disk, otherwise the call leaves by exception with locks, state and log as before |
| `Schedules.FaithfulElsewhere` | src/transaction/transaction_manager.cpp:78-109 | what a transaction saw does not depend on tables it does not touch |
| `Schedules.FaithfulMeans` | src/transaction/transaction_manager.cpp:78-109 | a trace is faithful exactly if every scan would return its rows at its turn and every write find the image it found |
| `Schedules.UndoMeans` | src/transaction/transaction_manager.cpp:131-165 | taking a write back removes the inserted row, puts the deleted one back, restores the updated one, and touches no other |
| `TwoPhase.EnabledMeans` | src/execution/executor_update.h:39-46 | what a step needs: a transaction under way, any lock on the table for a scan, an exclusive one for a row write |
| `TwoPhase.StepMeans` | src/execution/executor_update.h:46-100 | what each step does to the rows, and that nothing else changes a row |
| `TwoPhase.StepRecords` | src/execution/executor_update.h:46-100 | the log record with both images, the write record and the trace each step leaves |
| `TwoPhase.StepLocks` | src/transaction/transaction_manager.cpp:78-185 | what each step does to locks and history |
| `TwoPhase.SerialMeans` | src/transaction/transaction_manager.cpp:78-109 | a serial run is faithful exactly if every transaction, run after those before it, sees what it saw |
| `Schedules.RollBackAgrees` | src/transaction/transaction_manager.cpp:124-167 | taking a write set back carries agreement of two stores along |
| `TwoPhase.WriteKeepsViews` | src/execution/executor_update.h:46-100 | a row write under X keeps every transaction's view of the committed store |
| `Serializability.ScanSees` | src/execution/executor_seq_scan.h:45-64 | under S or X a scan sees the committed rows and the scanner's own writes |
| `Serializability.StepKeepsInv` | src/transaction/transaction_manager.cpp:55-185 | begin, lock, scan, insert, delete, update, rejected update, commit and abort all keep the invariant |
| `Serializability.Serializable` | src/transaction/transaction_manager.cpp:78-109 | in every run the committed transactions, replayed one at a time in commit order, see exactly what they saw, and leave the store wherever nobody is writing |
| `Serializability.QuiescentStoreIsSerial` | src/transaction/transaction_manager.cpp:78-109 | when every transaction has finished, the store is that of the serial run |
| `Serializability.NoDirtyReads` | src/execution/executor_seq_scan.h:45-64 | no scan of any run returns a row that is neither committed nor the scanner's own |
| `Serializability.AbortRestores` | src/transaction/transaction_manager.cpp:116-167 | rolling back leaves the tables it wrote as the committed transactions made them |
| `ConflictOrder.ConflictsFollowCommitOrder` | src/transaction/concurrency/lock_manager.cpp:81-128 | of two conflicting accesses the first transaction has finished before the second access; committed transactions commit in the order of their conflicts |
| `ConflictOrder.SerialOrderIsLogOrder` | src/transaction/transaction_manager.cpp:87-92 | the serial order is the order of the commit records in the log |
| `LogRecords.RedoForgets` | src/recovery/log_recovery.cpp:135-157 | a place some committed transaction wrote ends up the same whatever the image held |
| `LogRecords.OthersDoNotMatter` | src/recovery/log_recovery.cpp:135-199 | transactions that did not write a place make no difference to it |
| `RecoveryModel.StepKeepsLogInv` | src/recovery/log_recovery.cpp:126-201 | every step of a run keeps the log sufficient: redo gives the committed store, undo gives it back where a running transaction wrote |
| `RecoveryModel.RecoverPlace` | src/recovery/log_recovery.cpp:126-201 | a logged place recovers to its committed value, an unlogged one keeps the image's |
| `Recovery.RecoveryManager.Redo` | src/recovery/log_recovery.cpp:126-158 | the two loops apply exactly the committed transactions' after-images in log order |
| `Recovery.RecoveryManager.Undo` | src/recovery/log_recovery.cpp:163-199 | the backward loop applies exactly the before-images of transactions neither committed nor aborted |
| `Recovery.FindCommitted` | src/recovery/log_recovery.cpp:128-133 | the set of transactions with a commit record |
| `Recovery.FindTxns` | src/recovery/log_recovery.cpp:165-174 | the sets of all valid ids and of finished ids |
| `Recovery.RecoveryIsExact` | src/recovery/log_recovery.cpp:126-201 | for every run and every image: redo then undo gives the committed store if and only if the image has the initial value wherever no committed and no running transaction wrote |
| `Recovery.RecoveredAt` | src/recovery/log_recovery.cpp:126-201 | place by place: a place recovery knows gets its committed row, any other keeps what the image has |
| `Recovery.RecoveryYieldsCommitted` | src/recovery/log_recovery.cpp:126-201 | from every image whose places hold their initial value or one written by a committed or running transaction, with any number of restarts, exactly the committed rows are left |
| `Recovery.RestartsDoNotMatter` | src/recovery/log_recovery.cpp:46-53 | for every log and heap, recovery stopped any number of times after any prefix ends where one uninterrupted recovery does |
| `Recovery.AbortedRowSurvives` | src/recovery/log_recovery.cpp:171-178 | the hypothesis is needed: a row of an aborted transaction that reached the disk stays |
| `TornLog.MomentOf` | src/recovery/log_recovery.cpp:84-107 | every prefix of a run's log is the log of an earlier moment of that run |
| `TornLog.MeaningMeans` | src/recovery/log_manager.h:134-317 | numbering a record does not change its meaning, and its meaning has the images, place and transaction put into it |
| `TornLog.RecoveryFromTornLog` | src/recovery/log_recovery.cpp:84-201 | recovery from a log that lost its end, with any number of restarts, leaves exactly the work committed by then if and only if the image has the initial value wherever that part of the log names no committed or running writer |
| `TornLog.CrashAnywhere` | src/recovery/log_recovery.cpp:84-201 | cut the log file at any byte: parsing, redo and undo, with any number of restarts, leave exactly the work committed at some moment of the run, under the same exact condition |
| `Tables.IndexOkIsUnique` | src/execution/executor_utils.h:236-242 | an index that agrees with the rows proves their keys unique |
| `Tables.KeyMeans` | src/execution/executor_utils.h:226-234 | the key has the indexed columns one after another, in order, each with the record's bytes at the column's offset |
| `Tables.SameKeyMeans` | src/execution/executor_utils.h:226-234 | two records have one key exactly if they agree on the bytes of every indexed column |
| `Tables.UniqueMeans` | src/execution/executor_utils.h:236-242 | keys are unique exactly if any two rows of the table differ in the bytes of some indexed column |
| `Tables.InsertKeepsConsistent` | src/execution/executor_insert.h:55-80 | an insert that passed the check keeps every index in step |
| `Tables.DeleteKeepsConsistent` | src/execution/executor_delete.h:46-69 | a delete keeps every index in step |
| `Tables.UpdateKeepsConsistent` | src/execution/executor_update.h:61-98 | an update that passed the check keeps every index in step |
| `Tables.MoveUndone` | src/transaction/transaction_manager.cpp:144-162 | moving an index entry back restores the index exactly and the insert is accepted |
| `Tables.RejectedUpdateUndone` | src/execution/executor_update.h:48-72 | the write record an update leaves behind when a duplicate stops it is harmless |
| `Tables.RollbackRestores` | src/transaction/transaction_manager.cpp:116-167 | after any sequence of row inserts, deletes and updates, stopped ones included, taking the write set back restores every row and every index exactly and no index insert is refused |
| `Tables.UndoAllRows` | src/transaction/transaction_manager.cpp:124-167 | on the rows alone this is the rollback of the transaction model |
| `Tables.RollFinishes` | src/transaction/transaction_manager.cpp:124-167 | rollback, which ends by exception at the first index entry refused, comes to its end exactly if every entry is accepted, and then everything is taken back |
| `Tables.StoppedMeans` | src/transaction/transaction_manager.cpp:139-162 | what a refusal leaves: entries in the indexes before the refusing one, the later ones untouched, the row put back or as it was |
| `Tables.InsertCheckIsExact` | src/execution/executor_insert.h:55-59 | the check refuses exactly the inserts that would make two rows share a key |
| `Tables.UpdateCheckIsExact` | src/execution/executor_update.h:61-73 | the check refuses exactly the updates that would make two rows share a key |
| `IndexBuild.FillCompletesIfUnique` | src/system/sm_manager.cpp:336-344 | filling an index from a scan comes to its end if and only if no two rows share a key, and then the index is right |
| `IndexBuild.IndexDetermined` | src/system/sm_manager.cpp:407-432 | rows and columns determine a right index completely |
| `IndexBuild.RebuildCompletesIfUnique` | src/system/sm_manager.cpp:407-432 | rebuilding comes to its end if and only if the rows have unique keys, whatever the old indexes held, and then every index is right; otherwise an exception leaves one index closed |
| `IndexBuild.RebuildOfConsistent` | src/system/sm_manager.cpp:407-432 | rebuilding right indexes gives the same indexes |
| `IndexBuild.IndexesStayConsistent` | src/system/sm_manager.cpp:317-355 | after any run of inserts, deletes, updates, index creations and rebuilds each index maps exactly the keys of the live rows to their places |
| `IndexRollback.RollbackPastCreateIndex` | src/transaction/transaction_manager.cpp:124-167 | when a transaction creates indexes on the way, rollback comes to its end if and only if every store since the transaction began has unique keys for every index there is now; then the rows and the old indexes are as they were and the new ones are right |
| `IndexRollback.AcceptedIfUniqueOnTheWay` | src/transaction/transaction_manager.cpp:139-162 | indexes that are right accept every entry of a rollback if and only if every store it passes through has unique keys |
| `IndexRollback.WayBackIsHistory` | src/transaction/transaction_manager.cpp:124-167 | the stores rollback passes through are those the transaction came through |
| `IndexRollback.RollbackStopsPastCreateIndex` | src/transaction/transaction_manager.cpp:139-143 | a concrete run in which it does not: insert a second row with the key of the first, delete the first, create the index, roll back; the first row is in the heap again, the second still in heap and index, its record still in the write set |
| `TableEngine.Engine.Insert` | src/execution/executor_insert.h:46-81 | succeeds exactly if no two rows would share a key; then row, write set and indexes change together, otherwise nothing does |
| `TableEngine.Engine.Delete` | src/execution/executor_delete.h:45-71 | row, write set and indexes change together; a missing row is an error |
| `TableEngine.Engine.Update` | src/execution/executor_update.h:46-100 | the write record comes first; succeeds exactly if no two rows would share a key, and then indexes and row change together |
| `TableEngine.Engine.Abort` | src/transaction/transaction_manager.cpp:124-167 | the loop takes records back from the end of the transaction's own write set, and leaves it at the first refused index entry, with rows, indexes and write set as that point has them |
| `TableEngine.Engine.UndoLast` | src/transaction/transaction_manager.cpp:126-166 | one record is popped and taken back, or stopped half-way at the index that refuses |
| `TableEngine.Engine.CreateIndex` | src/system/sm_manager.cpp:317-355 | creates the index exactly if it is new and the keys are unique, and gives it up otherwise |
| `TableEngine.Engine.RebuildIndexes` | src/system/sm_manager.cpp:407-432 | every index is closed, emptied and filled again in turn; succeeds exactly if the rows have unique keys |
| `RecoveredIndexes.RebuildAfterRecovery` | src/system/sm_manager.cpp:407-432 | after a crash of any run whose statements pass the checks, redo, undo and rebuilding: the rebuild comes to its end if and only if no row that survived without recovery knowing it shares a key with another row, and then every index is right |
| `RecoveredIndexes.CrashRecovery` | src/recovery/log_recovery.cpp:84-201 | the whole: the log file cut at any byte, recovery stopped and restarted any number of times, the indexes rebuilt from whatever their files held; the rows are those committed at some moment of the run if and only if the image holds no others, and then every index agrees with them |
| `RecoveredIndexes.RunKeepsRule` | src/execution/executor_insert.h:55-59 | unique keys survive concurrency, commit and rollback, in the store and in the committed store |
| `RecoveredIndexes.SurvivorStopsRebuild` | src/system/sm_manager.cpp:407-432 | a concrete run: two rows reach the disk and are rolled back, a committed row takes the place of the first and the key of the second; after a crash the second is there too and the rebuild stops |
| `Queries.SwapMeansSame` | src/optimizer/planner.cpp:133-140 | swapping the sides and mirroring the operator keeps the meaning |
| `Queries.CompareMeans` | src/execution/executor_utils.h:176-193 | each operator means what it says, and is what the executors make of a three-way comparison |
| `Queries.MeetsMeans` | src/execution/executor_utils.h:195-224 | a condition is met exactly if its columns are there and their values compare as asked |
| `Queries.ReferenceMeans` | src/optimizer/planner.cpp:185-305 | the filtered cross product has every choice of one row per table that meets all conditions, each once |
| `Queries.ProjectMeans` | src/execution/executor_projection.h:47-59 | row by row and column by column, the values of the selected columns in order |
| `Queries.ExecIs` | src/portal.h:173-199 | a tree with every condition where its columns are returns, each once, exactly the rows that satisfy all its conditions |
| `Queries.PlanMeansQuery` | src/optimizer/planner.cpp:185-305 | such a tree returns, before and after projection, the multiset of the filtered cross product |
| `Planner.PopConds` | src/optimizer/planner.cpp:87-102 | the loop that erases from the vector splits the list in order into taken and kept conditions |
| `Planner.TakenAndKept` | src/optimizer/planner.cpp:87-102 | nothing is lost or taken twice |
| `Planner.PushConds_Code` | src/optimizer/planner.cpp:104-145 | the result says which sides are below; 3 exactly if both are |
| `Planner.PushConds_Bag` | src/optimizer/planner.cpp:104-145 | the condition is added once, possibly with its sides swapped |
| `Planner.PushConds_Placed` | src/optimizer/planner.cpp:104-145 | it lands at a join that has one side on the left and the other on the right |
| `Planner.ScanTables` | src/optimizer/planner.cpp:187-204 | every value condition goes to its table's scan, exactly the cross-table conditions remain, and the first scan can evaluate what it took exactly if conditions within one table are all on it |
| `JoinTree.PopScan` | src/optimizer/planner.cpp:147-160 | finds the scan of a table, marks it and notes it as joined |
| `JoinTree.PlaceCond` | src/optimizer/planner.cpp:251-289 | one turn of the loop: joins one new table, two, or pushes down, keeping all tables and conditions accounted for |
| `JoinTree.MakeOneRel` | src/optimizer/planner.cpp:185-305 | refuses exactly queries with a cross-table condition when both join algorithms are switched off; otherwise each table is scanned once, each condition placed once, join conditions read from left to right, and every condition is where its columns are if and only if conditions within one table are all on the first |
| `JoinTree.PlanPreservesQuery` | src/optimizer/planner.cpp:185-305 | for every database the planned query returns the multiset of rows of the filtered cross product |
| `JoinTree.SameTableMisplaced` | src/optimizer/planner.cpp:94-94 | a comparison within the second table is handed to the scan of the first |
| `IndexRange.CollectBounds` | src/execution/executor_index_scan.h:182-231 | per column: an equality is one of the conditions; without one, exactly the values satisfying every order condition lie between the bounds |
| `IndexRange.SettlePrefix` | src/execution/executor_index_scan.h:245-288 | equalities, then at most one range, then stop |
| `IndexRange.BuildKeys` | src/execution/executor_index_scan.h:233-312 | the two padded keys have the shape that makes them exact; without a usable prefix nothing is bounded |
| `IndexRange.RangeIsPrefix` | src/execution/executor_index_scan.h:233-312 | a key lies between the padded keys if and only if it meets the bounds on the prefix the index can use |
| `IndexScan.BuildScanRange` | src/execution/executor_index_scan.h:314-327 | the two cursors enclose exactly the entries in range, and contradictory bounds enclose none |
| `IndexScan.MatchIsInPrefix` | src/execution/executor_index_scan.h:182-231 | a row that satisfies all conditions meets the bounds |
| `IndexScan.AdvanceToMatch` | src/execution/executor_index_scan.h:329-340 | moves to the next entry whose row satisfies all conditions, skipping none |
| `IndexScan.IndexScanAll` | src/execution/executor_index_scan.h:69-103 | turns conditions so that the table's column comes first, and returns exactly the rids of the rows that satisfy them, each once |
| `IndexScan.SeqScanAll` | src/execution/executor_seq_scan.h:52-82 | returns the rids of the heap scan that satisfy the conditions, in heap order |
| `IndexScan.ScansAgree` | src/execution/executor_index_scan.h:83-103 | for every condition list and every index that agrees with the heap both scans return the same multiset |
| `IndexChoice.CalcIndexPrefixMatch` | src/optimizer/planner.cpp:43-59 | counts the columns fixed by equalities and one more with a range |
| `IndexChoice.GetIndexCols` | src/optimizer/planner.cpp:63-78 | picks the first index with the longest match, if any matches |
| `IndexChoice.PlannerAgreesWithExecutor` | src/optimizer/planner.cpp:43-59 | the planner's count is the number of columns the executor's range settles |
| `PoolState.FramesPartition` | src/storage/buffer_pool_manager.cpp:18-25 | free list, LRU list and pinned frames split the frames, each frame in exactly one, if and only if no frame is stranded |
| `PoolCalls.EveryRunPartitions` | src/storage/buffer_pool_manager.cpp:18-217 | after every run of fetches, unpins, flushes, new pages, deletions and writes in which numbers come from the pool and no read fails, each frame is in exactly one of the free list, the LRU list and the pinned frames |
| `PoolCalls.EveryRunServes` | src/storage/buffer_pool_manager.cpp:18-217 | if moreover nobody unpins clean what differs from the disk and nobody fetches a page that was never there, never new and never written: no read fails, the three split the frames, and every page holds what was last written to it |
| `PoolHistory.PinsAreCounted` | src/storage/buffer_pool_manager.cpp:59-109 | over every run the pin count of a page is the number of times it was fetched or handed out, less the number of times it was unpinned |
| `PoolHistory.BalancedIsCandidate` | src/storage/buffer_pool_manager.cpp:90-109 | a resident page is on the LRU list exactly if it was unpinned as often as it was pinned |
| `PoolHistory.LruIsByRelease` | src/replacer/lru_replacer.cpp:41-63 | over every run the LRU list has its pages in the order in which their last pins went, latest first |
| `PoolHistory.VictimIsOldest` | src/replacer/lru_replacer.cpp:22-35 | when the free list is empty the next victim's page is the one released longest ago |
| `PoolHistory.VictimLeaves` | src/storage/buffer_pool_manager.cpp:71-81 | and that page leaves the pool when another is fetched |
| `PoolState.OnDiskMeans` | src/storage/disk_manager.cpp:33-62 | a written page reads as written, one before the end of its file as zeros, one beyond it not at all |
| `PoolState.KeepsMeans` | src/storage/buffer_pool_manager.cpp:33-50 | a page with contents that is not at risk has the same contents afterwards |
| `PoolState.LoadOk` | src/storage/buffer_pool_manager.cpp:33-50 | giving a frame to another page keeps the pool in order, and every page not at risk, exactly if the new page has the contents it is loaded with or could not be read |
| `PoolState.EvictionKeepsIfCovered` | src/storage/buffer_pool_manager.cpp:33-50 | eviction keeps a page if and only if a dirty flag or the disk covers what its frame holds |
| `PoolState.ReadFailureStrands` | src/storage/buffer_pool_manager.cpp:76-79 | when the page lies beyond the end of its file the read throws, and the frame found for it keeps the page's number, without a pin and on no list |
| `PoolState.SafeKeepsAll` | src/storage/buffer_pool_manager.cpp:33-50 | as long as no page is at risk every step keeps all contents and puts none at risk |
| `PoolState.DroppedOk` | src/storage/buffer_pool_manager.cpp:156-176 | dropping a page keeps the pool in order and loses nothing unless the page was at risk |
| `PoolState.UnpinnedOk` | src/storage/buffer_pool_manager.cpp:90-109 | unpinning changes no contents, and puts the page at risk if and only if its last pin goes while its frame differs from the disk and no dirty flag is given, now or before |
| `PoolState.UnpinnedPageKept` | src/storage/buffer_pool_manager.cpp:90-109 | after the last unpin and an eviction the page is what it was if and only if a dirty flag was given, now or before, or the disk has the same |
| `PoolState.CleanUnpinLosesWrite` | src/storage/buffer_pool_manager.cpp:90-109 | so data that differs from the disk, written and unpinned clean, is lost at eviction |
| `BufferPool.LRUReplacer.Victim` | src/replacer/lru_replacer.cpp:22-35 | gives up the frame unpinned longest ago |
| `BufferPool.LRUReplacer.Pin` | src/replacer/lru_replacer.cpp:41-49 | removes the frame from list and hash |
| `BufferPool.LRUReplacer.Unpin` | src/replacer/lru_replacer.cpp:55-63 | puts the frame in front unless it is there or the list is full |
| `BufferPool.LruHasRoom` | src/replacer/lru_replacer.cpp:57-59 | the capacity check never drops a frame of the pool |
| `BufferPool.BufferPoolManager.FindVictimPage` | src/storage/buffer_pool_manager.cpp:18-25 | free list first, then the LRU victim; fails exactly when both lists are empty |
| `PoolCalls.NoVictim` | src/storage/buffer_pool_manager.cpp:18-25 | without stranded frames that is exactly when every frame is pinned |
| `BufferPool.BufferPoolManager.FetchPage` | src/storage/buffer_pool_manager.cpp:59-82 | the page arrives pinned once more with the contents it has; which of success, no frame and read error it is follows from the pool alone, negative numbers included; no page but one at risk loses its contents; a read error strands one frame and changes no other |
| `BufferPool.BufferPoolManager.UnpinPage` | src/storage/buffer_pool_manager.cpp:90-109 | refuses exactly pages not resident or not pinned; otherwise one pin less, the dirty flag added, at the front of the LRU list when the last pin goes; changes nobody's contents and says exactly when the page is at risk afterwards |
| `BufferPool.BufferPoolManager.FlushPage` | src/storage/buffer_pool_manager.cpp:116-128 | the page on disk is what clients see |
| `BufferPool.BufferPoolManager.NewPage` | src/storage/buffer_pool_manager.cpp:135-149 | the next number of the file in a frame of zeros, or nothing if there is no frame; the pool stays in order if and only if the number is not resident in another frame, and then keeps every page not at risk if and only if the number read as zeros or not at all; as long as only numbers handed out are used it is new |
| `PoolCalls.NewOk` | src/storage/buffer_pool_manager.cpp:135-149 | the condition for the pool's order, both ways |
| `PoolCalls.FailedFetchSpoilsNewPage` | src/storage/buffer_pool_manager.cpp:59-82 | a failed fetch of the number to be handed out next leaves it in the page table, and the next new page breaks the table |
| `BufferPool.BufferPoolManager.DeletePage` | src/storage/buffer_pool_manager.cpp:156-176 | only an unpinned page is dropped, and unless it was at risk its contents survive on disk |
| `BufferPool.BufferPoolManager.DeleteAllPages` | src/storage/buffer_pool_manager.cpp:183-217 | refuses, changing nothing, while a page of the file is pinned; otherwise the outcome is that of deleting its pages one by one, exactly they leave, no frame is stranded and no page not at risk loses its contents |
| `BufferPool.BufferPoolManager.FlushAllPages` | src/storage/buffer_pool_manager.cpp:223-233 | every resident page of the file is on disk, as after flushing them one by one; no contents change and no frame is stranded |
| `BufferPool.BufferPoolManager.WriteData` | src/storage/page.h:62-62 | a client's store through the page pointer is the only step that changes contents |
| `Bitmap.OneSlotChanges` | src/record/bitmap.h:25-31 | setting or clearing a slot's bit changes that slot only |
| `Bitmap.BitsChange` | src/record/bitmap.h:25-31 | the byte operations are the updates of the bit sequence the heap model uses |
| `HeapState.UnlinkOk` | src/record/rm_file_handle.cpp:77-97 | skipping one page leaves a list without repetition over pages with room |
| `HeapState.RoomMeansSlot` | src/record/rm_file_handle.cpp:41-46 | a page whose count is not full has a free slot |
| `HeapState.AtMeans` | src/record/rm_file_handle.cpp:21-32 | a record is where a page of the file has its slot's bit set |
| `HeapState.GrownOk` | src/record/rm_file_handle.cpp:168-182 | a new page becomes the whole list; the list is complete exactly if every older page was full |
| `HeapState.GrowthLosesPage` | src/recovery/log_recovery.cpp:39-44 | growing an empty file by two pages leaves the first, which is empty, off the list |
| `HeapState.OpenedIsValid` | src/record/rm_file_handle.h:55-63 | whatever versions of pages and header a crash left: the opened file has a sound free list if and only if the links from the header come to an end over pages with room |
| `HeapState.StaleHeaderNamesFullPage` | src/record/rm_manager.h:77-86 | filling the first page of the list without writing the header leaves a file for which no list fits |
| `HeapFile.NextBit` | src/record/bitmap.h:41-48 | the first later position with that bit |
| `HeapFile.RmFileHandle.InsertRecord` | src/record/rm_file_handle.cpp:40-60 | takes the lowest free slot of the first page on the list, or of a new page; adds exactly that record; counts, list and completeness are kept |
| `HeapFile.RmFileHandle.InsertRecordAt` | src/record/rm_file_handle.cpp:67-100 | stores at the given place whatever was there; counts, list and completeness are kept |
| `HeapFile.RmFileHandle.UnlinkFull` | src/record/rm_file_handle.cpp:77-97 | the walk over the list ends and takes out the full page if it is listed |
| `HeapFile.RmFileHandle.DeleteRecord` | src/record/rm_file_handle.cpp:107-124 | removes exactly that record; a page that was full is listed again |
| `HeapFile.RmFileHandle.UpdateRecord` | src/record/rm_file_handle.cpp:133-142 | replaces exactly that record |
| `HeapFile.RmFileHandle.GetRecord` | src/record/rm_file_handle.cpp:21-32 | returns the record or says what is missing |
| `HeapScan.RmScan.Next` | src/record/rm_scan.cpp:31-54 | moves to the next record, skipping none |
| `HeapScan.ScanAll` | src/record/rm_scan.cpp:18-61 | a whole scan meets every record exactly once, in order, and ends |
| `HeapScan.EnsurePageExists` | src/recovery/log_recovery.cpp:39-44 | adds pages without changing records; the free list stays complete exactly if nothing was added, or one page to a file whose pages were all full |
| `HeapScan.PutRecordAt` | src/recovery/log_recovery.cpp:46-53 | changes exactly that place |
| `HeapScan.RecoverTable` | src/recovery/log_recovery.cpp:135-158 | applying a recovery plan to a table's heap does to its records what the plan does to the store |
| `LogFormat.LEBack` | src/recovery/log_manager.h:47-61 | little-endian integers read back |
| `LogFormat.HeaderLayout` | src/recovery/log_manager.h:47-61 | kind, number, length, transaction and previous number stand at bytes 0, 4, 8, 12 and 16 |
| `LogFormat.ValueLayout` | src/recovery/log_manager.h:159-171 | an insert or delete has its value behind its length, then page, slot, and the name behind its length |
| `LogFormat.UpdateLayout` | src/recovery/log_manager.h:282-299 | an update has the old value first and the new one after it |
| `LogFormat.ParseBack` | src/recovery/log_manager.h:159-317 | every record of the six kinds is parsed back from its own bytes, whatever follows |
| `LogStream.RecordUnderstood` | src/recovery/log_recovery.cpp:92-104 | a record cut short is not read |
| `LogStream.PrefixReadsBack` | src/recovery/log_recovery.cpp:84-107 | cut at any byte, the serialised log reads back as exactly the records wholly there |
| `LogStream.ReadAllLogs` | src/recovery/log_recovery.cpp:84-107 | the loop computes that reading |
| `LogManager.Manager.AddLogToBuffer` | src/recovery/log_manager.cpp:19-38 | the record gets the next number and is otherwise appended unchanged, kind, transaction, values, place and name; an overflowing buffer is written out first; persist_lsn_ never passes the last number on disk |
| `LogManager.NumberingMeans` | src/recovery/log_manager.cpp:34-35 | numbering a record changes nothing but its number |
| `LogManager.Manager.FlushLogToDisk` | src/recovery/log_manager.cpp:43-63 | all records are on disk and persist_lsn_ is the last number |
| `LogManager.LastLsn` | src/recovery/log_manager.cpp:48-58 | the walk by lengths ends at the last record |
| `LogManager.StreamIsSerialised` | src/recovery/log_manager.cpp:19-63 | file followed by buffer is the serialised records in order of their numbers |
| `LogManager.CrashReadsPrefix` | src/recovery/log_recovery.cpp:84-107 | any part of the file reads back as the first records appended |
| `BlockJoin.NestedLoopJoinExecutor.LoadNextLeftBlock` | src/execution/executor_nestedloop_join.h:104-112 | the next block of at most the capacity |
| `BlockJoin.NestedLoopJoinExecutor.AdvanceToNextMatch` | src/execution/executor_nestedloop_join.h:114-148 | stops at the next match without changing what is still to come, and terminates |
| `BlockJoin.NestedLoopJoinExecutor.NextTuple` | src/execution/executor_nestedloop_join.h:76-82 | emits exactly the pair it stood on |
| `BlockJoin.RunJoin` | src/execution/executor_nestedloop_join.h:58-89 | the whole output: block by block, right row by right row, left row by left row |
| `BlockJoin.BlocksArePairs` | src/execution/executor_nestedloop_join.h:58-148 | whatever the capacity, the multiset is that of plain nested loops |
| `BlockJoin.JoinIsNestedLoops` | src/execution/executor_nestedloop_join.h:58-148 | each matching pair is emitted exactly as often as by plain nested loops |
| `BlockJoin.PairsAreJoinRows` | src/execution/executor_nestedloop_join.h:114-148 | plain nested loops are the join of the plan semantics |
| `QueryExecution.Execute` | src/portal.h:173-199 | a tree of sequential scans, index scans and block joins of any block size returns the multiset of the plan's meaning |
| `QueryExecution.JoinByBlocks` | src/execution/executor_nestedloop_join.h:58-148 | the right side is run again for every block of left rows, and the rows are those of the plain join |
| `QueryExecution.ChoosePaths` | src/optimizer/planner.cpp:192-204 | the access paths the planner picks and any block sizes leave the plan as it is, and every chosen index can answer its scan |
| `QueryExecution.RunQuery` | src/optimizer/planner.cpp:185-305 | from the conditions of a query to its projected rows: planned, run with whatever indexes there are, it returns the multiset of the filtered cross product |
| `QueryExecution.ViewMeans` | src/execution/executor_seq_scan.h:45-64 | position i of a table is the row at the i-th place of its heap scan |
| `RawCompare.CompareIsPadded` | src/execution/executor_utils.h:134-157 | comparing strings of any two lengths is comparing them padded with zeros |
| `RawCompare.CompareIsPreorder` | src/execution/executor_utils.h:134-157 | the comparison is a total preorder on strings of all lengths |
| `Sorting.StrictWeakOrder` | src/execution/execution_sort.h:54-66 | the multi-key comparator with descending keys is a strict weak order |
| `Sorting.BeforeMeans` | src/execution/execution_sort.h:54-66 | one row comes before another exactly if, on the first key column in which they differ, it has the smaller value, or the larger where the order is descending |
| `Sorting.StableMeans` | src/execution/execution_sort.h:53-67 | sorted by the keys, rows the keys do not tell apart in the order of the input |
| `Sorting.StableSortIsUnique` | src/execution/execution_sort.h:53-67 | a sorted stable rearrangement of the same rows is unique |
| `Sorting.OneStableOrder` | src/execution/execution_sort.h:53-67 | so any stable sort gives the same sequence |
| `Sorting.SortExecutor.BeginTuple` | src/execution/execution_sort.h:44-72 | keeps the first limit rows of the stable sorted input, or all if the limit is negative or larger, each row of the input at most once and in order |

## Left out

- FLOAT columns, casts between numeric types, aggregation and `long double` sums: they need IEEE arithmetic.
- Waiting, latches and threads inside an operation; pin counting and page latches inside the B+ tree.
- The byte layout of heap, index and file header pages; only the log is modelled in bytes.
- Parsing, analysis, the client protocol, printing and `output.txt`.
- Dropping tables and indexes, metadata files, and log entries of dropped tables.
- Restarts that append to an old log: transaction ids and log numbers begin again, so ids would not be unique.
- Transaction ids and log numbers beyond 32 bits.
- The byte offsets inside a projected record, and the aggregation executor.
- QueryExecution.Execute: executors do not pull rows from one another one at a time; the left side is handed over whole, the right side whole for each block.
- QueryExecution.RunQuery: a row's values are integers that are also the ranks of its indexed columns, so a comparison between two columns is the source's only if both have one type and length.
- Queries that compare two columns of one table other than the first: `JoinTree.MakeOneRel` shows that their plan cannot be evaluated.
- HeapScan.PutRecordAt: the place lies within the table's page layout; the source takes the slot number of a log record as given.
- HeapScan.RecoverTable: the places in the log lie within the table's page layout, and the file opens with a sound free list, which after a crash holds under the condition of `HeapState.OpenedIsValid`.
- The nesting of the loops in `advance_to_next_match`: two of the three are written as one loop with the innermost in `FindInBlock`.
- LogStream.ReadAllLogs: a value or name size inside a record that leads past the end of the file stops the reading, where the source would read on; no record the log manager writes has one.
- Sorting.SortExecutor.BeginTuple: `std::stable_sort` is modelled by insertion, which by `Sorting.OneStableOrder` gives the same rows.
- TransactionManager.Manager.Abort: the index page sets that commit and abort clear are never filled in the repository and are not modelled.
- IndexScan.IndexScanAll: the calls of nextTuple come from a recursive driver, since the loop is the client's.
- BufferPool.BufferPoolManager.FlushPage: writing back a page with a negative number, which only a failed fetch leaves resident, is an I/O error in the source and a write in the model.
- HeapFile.RmFileHandle.InsertRecordAt: the slot number lies within the page; the source does not check it, and would read and write outside the page.
- HeapFile.RmFileHandle.DeleteRecord: the slot number lies within the page; the source does not check it, and would read outside the bitmap.
- HeapFile.RmFileHandle.UpdateRecord: the slot number lies within the page; the source does not check it, and would read outside the bitmap.
- HeapFile.RmFileHandle.GetRecord: the slot number lies within the page; the source does not check it, and would read outside the bitmap.
- TableEngine.Engine.CreateIndex: the order of the heap scan is a parameter; `HeapScan.ScanAll` shows that a scan meets every record once.
- TableEngine.Engine.Insert: the place of a new row is a parameter; `HeapFile.RmFileHandle.InsertRecord` shows that the heap finds an empty one.
