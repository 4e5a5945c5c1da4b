# MiniSQLite, modelled and proved in Dafny

MiniSQLite is a small relational engine in C: a page file with an allocator, a buffer pool, slotted pages and
heap files, a tuple codec, a B+ tree index, a lock manager with transactions and deadlock detection, a Pratt
expression parser, a planner and pull-based executors.  This project models those parts and proves what each
promises its callers.  Source objects that change their fields are classes with the same fields, in-place byte
buffers are arrays, loops are loops; the specifications they are proved against are functions and predicates
with lemmas of their own.

Everything below is proved for all inputs and all reachable states.  Where the code does not keep a property,
the code is modelled as it is, a lemma gives an input on which the property fails, and a second lemma (or the
method's own `ensures`) says exactly when it holds.

## The parts

* **B+ tree** (`BPlusTreeNode`, `BPlusTreeShape`, `BPlusTreeContents`, `BPlusTree`, `BPlusTreeHeight`,
  `IndexIterator`, `IteratorScans`).  The tree object changes a page map in place.  Each page carries a ghost
  *fence*: the key interval it owns, its height, its parent.  The shape invariant is local to a page and its
  children, so a leaf split, an internal split that goes on upwards and a growing root are each one transition that
  keeps it; equal depth, disjoint subtrees, one path per page and the leaf chain follow from it.  `Stores` ties the
  leaves to a finite map, which is what the public operations are specified by.
* **Locks and transactions** (`LockManager`, `LockTable`, `TransactionManager`, `TwoPhaseLocking`,
  `Serializability`, `Recoverability`, `LockingRuns`).  The queues are changed step by step as in the source;
  `LockTable` has the invariants over all runs.  `TwoPhaseLocking` is the state machine of begin, lock, access,
  commit and abort.  Everything that was done in a run - by committed, aborted and running transactions - is proved
  to have the effect of running the transactions serially in the order of their ends: the same database and the same
  values read, for every program the transactions may be running.  Exactly when the committed ones alone explain
  what they read, and the database, is a second pair of theorems.
* **Deadlock detection** (`DeadlockDetector`).
* **Parser** (`ExpressionGrammar`, `PrattParser`, `PrattPrinted`, `PrattSteps`, `PrattRoundTrip`,
  `PrattParentheses`, `PrattGrouping`, `PrattChains`, `PrattErrors`, `Parser`).  `Parser` moves a cursor like the C code and is proved
  equal to the functions of `PrattParser`; those are proved to undo `Show`, which prints a tree with parentheses only
  where a precedence level asks for them.  `PrattGrouping` says, operator by operator and without precedence levels,
  which tree is read from operands without parentheses, `PrattChains` does so for chains of any length, and `PrattErrors` that nothing is read without an error unless
  its parentheses are balanced.
* **Pages and heap** (`PageBytes`, `SlottedPage`, `BpmHeap`, `HeapScan`, `DmlScan`, `DmlExecutors`).  From the
  bytes of a page upwards: slots and tuples, the page chain, the iterator, the sequential scan, and UPDATE and
  DELETE, which change the heap under their own scan.
* **Disk and buffer pool** (`DiskManager`, `LruReplacer`, `IntrusiveList`, `BufferPool`).  The logical contents
  of a page are its frame if it is resident and the disk otherwise; no pool operation changes them.
* **Rows** (`SchemaLayout`, `TupleCodec`) and **bytes** (`Formats`): which byte of a page and of a row means what.
* **Queries** (`QueryPlan`, `Aggregation`, `GroupBy`, `QuerySemantics`, `Executors`, `HeapTables`).  The drained executor tree
  yields the list the SELECT statement means.  The aggregate executor's search through its groups is proved to make
  one row for each key, first seen first, with the results over exactly the rows of that key.  A table's rows are
  what can be read from the live tuples of its heap; draining the sequential scan over the heap yields exactly what
  the plan's scan of these rows does.

## Where the code departs from what it promises

* `evict_page` puts its victim on the free list and also hands it to its caller
  (src/buffer/buffer_pool_manager.c:81-86); the page fetch flow of design.md:692-708 only hands it on.  The pool
  has a constant `requeuesVictim` for the two.  With `false` every operation keeps the pool valid; with `true`,
  the code as it is, a fetch or a new page keeps it valid exactly if no page has to be evicted for it.  What
  happens then is `BufferPool.BufferPool.LostPage`: the next page fetched gets the frame of the first, still pinned.
* Asking again for a held lock with a mode that comes later in the enumeration replaces the mode without looking
  at other holders (src/transaction/lock_manager.c:68-73).  This can put an exclusive lock beside a shared one
  and can turn an exclusive lock into an intention lock.  `LockTable.StepOkIff`, `LockTable.RunOkIff` and
  `TwoPhaseLocking.ProtectiveIff` say exactly when it does no harm;
  `LockingRuns.UpgradeBreaksSerialisability` is a run whose effect no serial order has.
* A request for a held lock reports success even if the mode asked for comes earlier in the enumeration than the one
  held, which stays (src/transaction/lock_manager.c:68-73): a holder of an intention-exclusive lock that asks for an
  exclusive one, and a holder of an intention-shared lock that asks for a shared one, are told DB_OK and may neither
  read nor write.  `LockManager.GrantedMode` says exactly when success means that the mode asked for is held, and
  `LockingRuns.SuccessWithoutCover` is a run in which it does not.
* `txn_abort` undoes nothing: it drops the locks and sets the state (src/transaction/txn_manager.c:87-110), and what
  the transaction wrote stays for others to read.  `LockingRuns.AbortedWriteIsRead` is a run in which a committed
  transaction has read such a value.  Aborted transactions therefore take part in the serial order of
  `TwoPhaseLocking.RunsAreSerialisable`; `TwoPhaseLocking.CommittedReadsIff` and
  `TwoPhaseLocking.CommittedEffectIff` say exactly when the committed transactions alone explain the run, and
  `TwoPhaseLocking.DirtyOnlyIfAbortedWrite` that it is enough that no transaction that aborts has written.
* `index_iterator_next` gives up at the first empty leaf it steps into (src/index/index_iterator.c:120-125),
  although removals leave empty leaves behind.  `IteratorScans.AllEntries` says exactly when a whole scan misses
  nothing, and `IteratorScans.MissedEntry` inserts and removes keys until it does; `bpt_find_range` has no such gap.
* `slotted_page_insert` reports errors by positive codes, which `bpm_heap_insert` takes for slot numbers
  (src/executor/bpm_heap.c:98-102): a tuple longer than 4068 bytes is reported as stored.
  `BpmHeap.BpmHeap.Insert` states that a non-empty row is found under the returned rid exactly if it has at most
  4068 bytes.
* Freeing a page twice makes the on-disk free list cyclic (src/storage/disk_manager.c:197-248):
  `DiskManager.FreedTwice` and `DiskManager.ListSurvives`.
* design.md:1369-1370 has deadlock detection return a status; the code returns the victim itself, or
  `INVALID_TXN_ID`.
* OFFSET without LIMIT is ignored (src/planner/planner.c:199-206); `QuerySemantics.PlanMeans` says so.
* NOT IN, NOT BETWEEN and NOT LIKE bind as loosely as NOT, their positive forms like a comparison
  (src/parser/parser.c:306-317), so a prefix NOT takes a following NOT IN into its operand; the printed form
  accounts for it.
* LIKE takes only the primary behind it as its pattern (src/parser/parser.c:361-387), so `a LIKE b + c` is read as
  `(a LIKE b) + c` (`PrattGrouping.TwoOperators`), and the bounds of NOT BETWEEN, unlike those of BETWEEN, draw
  comparisons in (`PrattGrouping.BeforeOperator`, `PrattGrouping.LowerBound`).
* Not every pair of parentheses that the precedences ask for is needed.  Without the pair around a left operand the
  operator goes down that operand's right end, and `PrattParentheses.LeftPairIff` says which tree is read then and
  exactly when it is the same one: after IS NULL, IN, LIKE and anything else that draws in no more operators.
  `PrattParentheses.RightPairNeeded` is the case of a right operand.
* Aggregate names are keywords in any case, but `get_agg_kind` compares them as they are written
  (src/executor/hash_agg_executor.c:38-47), so `sum(x)` counts rows: `Aggregation.LowerCaseCounts`.  COUNT of an
  expression and the divisor of AVG count every row, also one whose value is NULL
  (src/executor/hash_agg_executor.c:79-82), and without GROUP BY an empty input yields no row at all
  (`Aggregation.OneGroup`).

## Model

| member | source | states |
|---|---|---|
| BPlusTreeNode.InternalFindPosition | src/index/b_plus_tree_node.c:6-25 | the position splits the separators into those not above the key and those above it |
| BPlusTreeNode.LeafFindPosition | src/index/b_plus_tree_node.c:67-80 | the position splits the keys into those below the key and the rest; the key is in the leaf iff it stands there |
| BPlusTreeNode.InsertAt | src/index/b_plus_tree_node.c:82-102 | the shifting insert puts the entry at the position, keeps what is before it and moves the rest up by one |
| BPlusTreeNode.InsertAtSorted | src/index/b_plus_tree_node.c:82-102 | inserting between a smaller and a larger neighbour keeps a node strictly sorted |
| BPlusTreeNode.RemoveAt | src/index/b_plus_tree_node.c:104-120 | the shifting remove drops exactly the entry at the position |
| BPlusTreeShape.ReplaceLeaf | src/index/b_plus_tree.c:341-352 | changing a leaf's entries inside its key interval keeps the whole tree well formed, but for one possibly overfull leaf |
| BPlusTreeShape.SplitLeafShape | src/index/b_plus_tree.c:141-177 | splitting an overfull leaf keeps the tree well formed with one split still to be entered above, the leaf chain included |
| BPlusTreeShape.EnterParent | src/index/b_plus_tree.c:249-285 | entering the promoted key and new page in the parent completes the split; the parent may then be one over capacity |
| BPlusTreeShape.SplitInternalShape | src/index/b_plus_tree.c:287-315 | splitting an overfull internal page and moving its children keeps the tree well formed with one split pending, both halves having at least 169 keys |
| BPlusTreeShape.GrowRoot | src/index/b_plus_tree.c:222-239 | a new root over the two halves of the old one makes the tree well formed again, one level higher |
| BPlusTreeContents.DisjointPages | src/index/b_plus_tree.c:50-78 | two pages of the same height never own a common key |
| BPlusTreeContents.OwningLeaf | src/index/b_plus_tree.c:50-78 | below every page some leaf owns each key of the page's interval |
| BPlusTreeContents.ContentsAreLeafEntries | src/index/b_plus_tree.c:110-135 | the finite map is exactly the set of leaf entries, and a key stands in one place of one leaf only |
| BPlusTreeContents.EqualDepth | src/index/b_plus_tree.c:50-78 | every descent to a leaf has the same length |
| BPlusTreeContents.ReachedOnce | src/index/b_plus_tree.c:50-78 | a page is reached from the root by one path only |
| BPlusTreeContents.SubtreeBounds | src/index/b_plus_tree_node.c:6-25 | all keys in leaves below child i lie in [key i-1, key i) |
| BPlusTreeContents.SplitStores | src/index/b_plus_tree.c:141-177 | a leaf split loses and invents no entry of the map |
| BPlusTree.BPlusTree.constructor | src/index/b_plus_tree.c:82-103 | a fresh tree is well formed and stores the empty map |
| BPlusTree.BPlusTree.Open | src/index/b_plus_tree.c:98-102 | a tree opened on the root page of well-formed pages stores the map these hold |
| BPlusTree.BPlusTree.FindLeaf | src/index/b_plus_tree.c:50-78 | the descent ends at the leaf that owns the key and records a path of the tree to it |
| BPlusTree.BPlusTree.Find | src/index/b_plus_tree.c:110-135 | the stored rid of a present key, page-not-found for an absent one |
| BPlusTree.BPlusTree.Insert | src/index/b_plus_tree.c:317-377 | keeps the tree well formed; the map gets the key with the new rid, except that a unique tree refuses a present key and changes nothing |
| BPlusTree.BPlusTree.SplitLeaf | src/index/b_plus_tree.c:141-177 | the copy loop moves exactly the upper half to a page not used before, and the map is unchanged |
| BPlusTree.BPlusTree.InsertIntoParent | src/index/b_plus_tree.c:219-315 | however far splits cascade, the result is well formed and no leaf has changed |
| BPlusTree.BPlusTree.SplitInternal | src/index/b_plus_tree.c:287-310 | the copy loop produces exactly the two halves around the promoted middle key |
| BPlusTree.BPlusTree.Remove | src/index/b_plus_tree.c:379-404 | only the given key leaves the map; an absent key is reported and no page changes |
| BPlusTree.ScanLeaf | src/index/b_plus_tree.c:430-439 | one leaf adds exactly its keys of the range, and stopping early means the range is complete |
| BPlusTree.BPlusTree.FindRange | src/index/b_plus_tree.c:406-446 | appends the rids of exactly the keys in [low, high], in ascending key order, also across emptied leaves |
| BPlusTree.SortedKeysUnique | src/index/b_plus_tree.c:406-446 | a set of keys has one ascending enumeration, so the range result is determined by the map |
| BPlusTreeHeight.FanOut | src/index/b_plus_tree.c:287-307 | full enough pages have 170 times as many children, none shared |
| BPlusTreeHeight.LevelSize | src/index/b_plus_tree.c:287-307 | level k below the root's children holds at least 2 * 170^k pages |
| BPlusTreeHeight.PathNeverOverflows | src/index/b_plus_tree.c:317-320 | with 31-bit page ids a descent passes at most 5 internal pages, so the 64-entry path array is never filled |
| IndexIterator.ChainFrom | src/index/index_iterator.c:96-108 | from every leaf the next links lead through adjacent key intervals to the last leaf |
| IndexIterator.RestLists | src/index/index_iterator.c:80-146 | what the iterator hands out from a position is exactly the entries up to the high key that are not behind an empty leaf it would step into |
| IndexIterator.ReachWithoutEmptyLeaves | src/index/index_iterator.c:33-146 | without empty leaves nothing is out of reach |
| IndexIterator.SameAsFindRange | src/index/index_iterator.c:80-146 | a complete iterator returns the very sequence bpt_find_range collects |
| IndexIterator.InitLists | src/index/index_iterator.c:48-75 | the start position, in the owning leaf or the next one, has exactly the entries of the range ahead of it |
| IndexIterator.IndexIterator.constructor | src/index/index_iterator.c:33-78 | the iterator is set to hand out exactly the entries from the start key up to the high key that it can reach |
| IndexIterator.IndexIterator.Next | src/index/index_iterator.c:80-146 | hands out the first of the entries still to come, and reports the end only when there is none |
| IteratorScans.AllEntries | src/index/index_iterator.c:33-146 | a drained iterator has listed exactly the reachable part of the range, and the whole range iff no key of it is at or behind the reach |
| IteratorScans.OutOfReach | src/index/index_iterator.c:120-125 | in any tree where removals have emptied the leaf between those of two keys, an iterator from the first key cannot get to the second |
| IteratorScans.MissedEntry | src/index/index_iterator.c:120-125 | 507 insertions and 505 removals leave a tree with keys 0 and 506 of which a drained iterator over both lists only 0 |
| LockTable.CompatibleSymmetric | src/transaction/lock_manager.c:16-26 | the compatibility matrix is symmetric |
| LockManager.LockManager.Acquire | src/transaction/lock_manager.c:58-117 | the queue becomes the specified one; success is reported iff the transaction then holds a lock; a first request succeeds iff with every holder's mode it is one of the pairs S-S, S-IS, IS-S, IS-IS, IS-IX, IX-IS, IX-IX; and success means that the mode asked for is held iff no later one was held before |
| LockManager.CompatibleIff | src/transaction/lock_manager.c:14-26 | the sixteen entries of the matrix |
| LockManager.FirstRequest | src/transaction/lock_manager.c:95-116 | a first request joins the queue, granted iff its mode goes with that of each holder, by the seven pairs |
| LockManager.WaitingRequest | src/transaction/lock_manager.c:75-91 | a waiting request takes the new mode and is granted iff that goes with the mode of each holder |
| LockManager.HeldRequest | src/transaction/lock_manager.c:66-74 | a held lock takes the new mode iff that comes later in S, X, IS, IX |
| LockManager.GrantedMode | src/transaction/lock_manager.c:68-73 | after a request that leaves the transaction a lock, that lock has the mode asked for iff the transaction held no later mode before |
| LockManager.LockManager.ReleaseAll | src/transaction/lock_manager.c:119-177 | every queue loses the transaction's requests and grants, in queue order, what nothing granted excludes any more, whatever the order of the hash map |
| LockManager.RemoveRequests | src/transaction/lock_manager.c:145-155 | the shifting loop removes all requests of the transaction and keeps the order of the others |
| LockManager.ReleaseQueue | src/transaction/lock_manager.c:145-172 | both loops over one queue, against the specification used by the lemmas below |
| LockTable.AcquireKeepsOneEach | src/transaction/lock_manager.c:65-116 | a transaction never gets a second request in a queue |
| LockTable.AcquireKeepsCompatible | src/transaction/lock_manager.c:65-116 | granted modes stay pairwise compatible iff the call does not raise a held lock over another holder |
| LockTable.AcquireKeepsWakeups | src/transaction/lock_manager.c:65-116 | every waiting request still conflicts with a granted one iff the call does not raise away the only lock some request waits for |
| LockTable.RaiseOverridesHolder | src/transaction/lock_manager.c:68-73 | two shared holders, one of which becomes exclusive beside the other |
| LockTable.RaiseStrandsWaiter | src/transaction/lock_manager.c:68-73 | an exclusive holder that re-requests IS leaves a compatible request waiting |
| LockTable.RegrantedKeeps | src/transaction/lock_manager.c:157-172 | the granting loop, started anywhere with the earlier waiters blocked, ends with compatible holders and no lost wake-up |
| LockTable.ReleaseOk | src/transaction/lock_manager.c:119-177 | releasing keeps the queue in order, leaves nothing of the transaction, changes nobody's mode and takes no granted lock away |
| LockTable.AcquireOkIff | src/transaction/lock_manager.c:58-117 | the whole queue invariant is kept iff the call is harmless in the two senses above |
| LockTable.StepOkIff | src/transaction/lock_manager.c:58-177 | the same for one step on the whole lock table |
| LockTable.RunOkIff | src/transaction/lock_manager.c:58-177 | in a run from the empty table every state is in order iff every request is harmless where it is made |
| LockTable.NothingHeldAfterEnd | src/transaction/lock_manager.c:119-177 | after its end a transaction has no request in any queue, whatever was in the table before |
| Serializability.Commute | src/transaction/lock_manager.c:16-22 | accesses of different transactions that do not conflict may be exchanged without changing the database or any value read |
| Serializability.MoveToEnd | src/transaction/txn_manager.c:62-85 | a transaction none of whose accesses conflicts with a later one may as well have run last |
| Serializability.Serialisable | src/transaction/txn_manager.c:62-85 | if conflicts follow an order of the transactions, running them serially in that order leaves the same database and the same values read |
| TwoPhaseLocking.AcquireKeepsCover | src/transaction/lock_manager.c:65-116 | a request that does not turn a lock on data into an intention lock leaves every transaction the locks that cover its accesses |
| TwoPhaseLocking.CoveredIff | src/transaction/lock_manager.c:14-22 | reading is covered by a granted S or X, writing by a granted X, and by nothing else |
| TwoPhaseLocking.ProtectiveIff | src/transaction/lock_manager.c:68-73 | a request is protective iff afterwards holders are compatible and every lock that covered an access still covers it |
| TwoPhaseLocking.ReleaseKeepsCover | src/transaction/lock_manager.c:119-177 | the end of one transaction takes no covering lock from another |
| TwoPhaseLocking.CoverExcludes | src/transaction/lock_manager.c:16-22 | two transactions never both hold locks that cover conflicting accesses |
| TwoPhaseLocking.RunKeepsInv | src/transaction/txn_manager.c:41-110 | the invariant of the whole system holds after every legal run |
| TwoPhaseLocking.ConflictsFollowEnds | src/transaction/txn_manager.c:62-110 | conflicting accesses of any two transactions occur in the order of their commits and aborts, those still running last |
| TwoPhaseLocking.RunsAreSerialisable | src/transaction/txn_manager.c:62-110 | after every legal run the database is, and everybody has read, what a serial run of all transactions gives, aborted ones included, in the order of their ends and those still running last |
| TwoPhaseLocking.ConflictsFollowCommits | src/transaction/txn_manager.c:62-85 | conflicting accesses of two committed transactions occur in the order of their commits |
| TwoPhaseLocking.CommittedRunsAreSerialisable | src/transaction/txn_manager.c:62-85 | the accesses of the committed transactions alone have the effect of a serial run of these in the order of their commits |
| TwoPhaseLocking.CommittedReadsIff | src/transaction/txn_manager.c:62-110 | committed transactions have really read what the serial run of committed ones reads, whatever the programs, iff none of them read a value last written by one that did not commit |
| TwoPhaseLocking.CommittedEffectIff | src/transaction/txn_manager.c:62-110 | the database, too, is what the committed transactions alone leave iff, besides, none that did not commit wrote a resource last |
| TwoPhaseLocking.DirtyReadsComeFromAborts | src/transaction/txn_manager.c:87-110 | a value a committed transaction read from one that did not commit was written by one that aborted, never by one still running |
| TwoPhaseLocking.DirtyOnlyIfAbortedWrite | src/transaction/txn_manager.c:87-110 | there is no such read unless a transaction that aborted has written |
| Recoverability.CleanRun | src/transaction/txn_manager.c:87-110 | without dirty reads the kept transactions read the same alone, and leave the same values where they wrote last |
| Recoverability.ReadsCleanIff | src/transaction/txn_manager.c:87-110 | for every program the kept transactions read the same alone iff no dirty read occurs; otherwise there is a program that shows it |
| Recoverability.EffectCleanIff | src/transaction/txn_manager.c:87-110 | they also leave the same database iff, besides, no left-out transaction wrote a resource last |
| LockingRuns.AbortedWriteIsRead | src/transaction/txn_manager.c:87-110 | a legal run in which a committed transaction has read 42 from one that aborted, and would have read 0 alone |
| LockingRuns.UpgradeBreaksSerialisability | src/transaction/lock_manager.c:68-73 | from a state that a legal run reaches, one raise over a holder and accesses under granted locks only; the effect differs from that of every serial order |
| LockingRuns.SuccessWithoutCover | src/transaction/lock_manager.c:68-73 | from a state that a legal run reaches, the holder of an intention-exclusive lock asks for an exclusive one, is told success, and no access of it is covered |
| TransactionManager.TransactionManager.Begin | src/transaction/txn_manager.c:41-60 | a transaction id never used before becomes active; the step is that of the state machine |
| TransactionManager.TransactionManager.Commit | src/transaction/txn_manager.c:62-85 | an active transaction ends committed and gives up all its locks in the same step; any other is refused and nothing changes |
| TransactionManager.TransactionManager.Abort | src/transaction/txn_manager.c:87-110 | an active transaction ends aborted and gives up all its locks in the same step; any other is refused and nothing changes |
| DeadlockDetector.DeadlockDetector.AddEdge | src/transaction/deadlock_detector.c:24-34 | a transaction waits for one other at most: a later edge replaces the earlier one |
| DeadlockDetector.DeadlockDetector.RemoveEdges | src/transaction/deadlock_detector.c:36-39 | only the edge out of the transaction goes |
| DeadlockDetector.DeadlockDetector.Detect | src/transaction/deadlock_detector.c:42-83 | terminates; no victim iff the waits-for map has no cycle, and a victim is on a cycle |
| DeadlockDetector.WalkLength | src/transaction/deadlock_detector.c:60-77 | a walk without repetition is no longer than the map, so every walk ends |
| DeadlockDetector.NoDeadlock | src/transaction/deadlock_detector.c:51-82 | the map is acyclic iff none of its transactions is on a cycle |
| DeadlockDetector.RemovalBreaksItsCyclesOnly | src/transaction/deadlock_detector.c:36-39 | removing a transaction's edge removes exactly the cycles through it |
| DeadlockDetector.RoundsEnd | src/transaction/deadlock_detector.c:36-83 | detecting and removing takes at most as many rounds as edges, and no cycle gets two victims |
| DeadlockDetector.DeadlockDetector.BreakAll | src/transaction/deadlock_detector.c:36-83 | repeating detection and removal until there is no victim leaves an acyclic map after at most as many rounds as edges, the edges of the others intact |
| ExpressionGrammar.KeywordNames | src/parser/lexer.c:94-110 | the five aggregate names are keywords in capitals and small letters alike, and no other name is one |
| PrattParser.Primary | src/parser/parser.c:196-271 | on every token list parse_primary ends inside the list, and a tree costs at least one token |
| PrattParser.Items | src/parser/parser.c:330-339 | the list loop ends inside the token list |
| PrattParser.Prec | src/parser/parser.c:273-405 | parse_expression_prec terminates on every token list and level, inside the list; a tree costs at least one token |
| PrattParser.Climb | src/parser/parser.c:277-402 | the operator loop never goes back and ends inside the list |
| PrattRoundTrip.PrecReads | src/parser/parser.c:273-405 | reading at any level from the start of a printed tree consumes exactly its tokens and continues with that tree as left operand |
| PrattRoundTrip.OperandReads | src/parser/parser.c:390-401 | an operand followed by a less tightly binding token is read on its own |
| PrattRoundTrip.PrimaryReads | src/parser/parser.c:196-271 | a parenthesised tree, literal, column, call or unary minus is read by parse_primary alone |
| PrattRoundTrip.BinaryReads | src/parser/parser.c:389-401 | binary operators group to the left, with the levels get_precedence gives |
| PrattRoundTrip.BetweenReads | src/parser/parser.c:345-359 | the AND of [NOT] BETWEEN is not taken for the operator AND |
| PrattRoundTrip.InReads | src/parser/parser.c:319-343 | a printed [NOT] IN is read back with its whole list |
| PrattRoundTrip.IsNullReads | src/parser/parser.c:282-304 | a printed IS [NOT] NULL is read back |
| PrattRoundTrip.LikeReads | src/parser/parser.c:361-387 | a printed [NOT] LIKE with a string pattern is read back |
| PrattRoundTrip.CallReads | src/parser/parser.c:161-194 | a printed call of a function or an aggregate keyword, with arguments, without, or with a star, is read back |
| PrattRoundTrip.RoundTrip | src/parser/parser.c:407-409 | parse_expression on the printed form of any tree gives the tree and consumes exactly its tokens, wherever they stand and whatever ends them |
| PrattRoundTrip.Unambiguous | src/parser/parser.c:407-409 | no two trees have the same printed form |
| PrattParentheses.LeftPairIff | src/parser/parser.c:277-402 | without the pair around a left operand the list is read as the tree with the operator at the operand's right end, which is the same tree iff the operand's outermost construct does not draw the operator in |
| PrattParentheses.RightPairNeeded | src/parser/parser.c:389-401 | without the pair around a binary right operand that binds no more tightly, its left end goes to the outer operator |
| PrattGrouping.TwoOperators | src/parser/parser.c:54-68 | `a op1 b op2 c` of primaries: OR binds less tightly than AND, AND less than the comparisons and LIKE, these less than + and -, these less than * and /, grouping to the left inside a class; LIKE takes only the primary behind it |
| PrattChains.ChainReads | src/parser/parser.c:389-401 | any number of operators other than LIKE between primaries: the root of the tree read is the last of those that bind least tightly, and so on both sides of it |
| PrattChains.RootSplits | src/parser/parser.c:54-68 | the operators in front of that root bind no less tightly than it, those behind it more tightly |
| PrattGrouping.NotBefore | src/parser/parser.c:226-235 | `NOT a op b`: NOT takes comparisons, LIKE and arithmetic, but neither AND nor OR |
| PrattGrouping.NotBehind | src/parser/parser.c:226-235 | `a op1 NOT b op2 c`: the same behind any operator |
| PrattGrouping.BehindOperator | src/parser/parser.c:281-387 | `a op b` followed by IS [NOT] NULL, IS [NOT] c, [NOT] IN, [NOT] BETWEEN or [NOT] LIKE: OR and AND leave `b` to it, every other operator takes `b` first |
| PrattGrouping.NotBeforePostfix | src/parser/parser.c:226-235 | NOT in front of one of these constructs negates the whole of it |
| PrattGrouping.BeforeOperator | src/parser/parser.c:281-387 | one of these constructs followed by `op c`: which operators its last operand draws in, and IS c and IS NOT c give = and <> |
| PrattGrouping.LowerBound | src/parser/parser.c:345-359 | the lower bound of [NOT] BETWEEN draws in the same operators |
| PrattGrouping.LongNames | src/parser/parser.c:126-159 | column and table names are cut to 63 characters |
| PrattGrouping.LongCall | src/parser/parser.c:161-194 | function names are cut to 63 characters |
| PrattErrors.PrecSound | src/parser/parser.c:36-45 | an error is raised and kept unless there was none before, there is a tree and the parentheses of the tokens read are balanced |
| Parser.Parser.Match | src/parser/parser.c:28-34 | the cursor moves by one iff the token is there |
| Parser.Parser.ExpectToken | src/parser/parser.c:36-45 | consumes the token, or raises the error flag and stays |
| Parser.Parser.ParseColumnRef | src/parser/parser.c:126-159 | the cursor form of the column branch of Primary, tree, position and error flag alike |
| Parser.Parser.ParseItems | src/parser/parser.c:330-339 | the list loop computes Items |
| Parser.Parser.ParseFunctionCall | src/parser/parser.c:161-194 | computes the call branch of Primary |
| Parser.Parser.ParsePrimary | src/parser/parser.c:196-271 | computes Primary, tree, position and error flag alike |
| Parser.Parser.ParseExpressionPrec | src/parser/parser.c:273-405 | the loop that rebuilds `left` computes Prec: what is still to be read never changes |
| Parser.Parser.ParseInfix | src/parser/parser.c:282-401 | one turn of the loop at any operator: what is still to be read stays the same |
| Parser.Parser.ParseIs | src/parser/parser.c:282-304 | one turn of the loop at IS, the comparison form included |
| Parser.Parser.ParseIn | src/parser/parser.c:319-343 | one turn of the loop at [NOT] IN |
| Parser.Parser.ParseBetween | src/parser/parser.c:345-359 | one turn of the loop at [NOT] BETWEEN |
| Parser.Parser.ParseLike | src/parser/parser.c:361-387 | one turn of the loop at [NOT] LIKE, the binary fallback included |
| Parser.Parser.ParseOperator | src/parser/parser.c:389-401 | one turn of the loop at a binary operator |
| Parser.ParseTwoOperators | src/parser/parser.c:407-409 | the parser object on the tokens of `x op1 y op2 z` of literals returns the tree that the operators' names ask for |
| Parser.ParsePrinted | src/parser/parser.c:407-409 | the parser object on a printed tree returns that tree and stops in front of what follows it |
| PageBytes.StoreU16 | src/storage/page.h:109-117 | the two bytes read back as the value, and no other byte changes |
| PageBytes.StoreU32 | src/storage/page.h:62-68 | the four bytes read back as the value, and no other byte changes |
| PageBytes.StoreI32 | src/storage/page.h:54-72 | the four bytes read back as the signed value, and no other byte changes |
| SlottedPage.Init | src/storage/page.h:76-83 | an empty, well-formed page without successor, the bytes behind the header as they were |
| SlottedPage.FreeSpaceUpper | src/storage/slotted_page.c:25-36 | the scan finds the bound at or above which all live tuples lie, attained unless it is the page's end |
| SlottedPage.UpperUnique | src/storage/slotted_page.c:22-36 | the slots determine that bound |
| SlottedPage.FreeSpaceOf | src/storage/slotted_page.c:38-42 | the room between slot array and tuples, 0 if there is none |
| SlottedPage.Insert | src/storage/slotted_page.c:54-86 | the next slot number gets the tuple iff there is room for both, other tuples stay, and outside header fields only the new slot's and the tuple's bytes change; otherwise an error and no byte changes |
| SlottedPage.Get | src/storage/slotted_page.c:88-105 | the tuple of a live slot; page-not-found for a deleted or unknown one |
| SlottedPage.Delete | src/storage/slotted_page.c:107-126 | the slot becomes dead and keeps its number, all other tuples stay, no tuple byte changes |
| SlottedPage.Update | src/storage/slotted_page.c:128-168 | the slot holds the new image iff it is not longer than the old one or fits the free space; otherwise an error and no byte changes; no other tuple's bytes change |
| SlottedPage.TupleAdded | src/storage/slotted_page.c:73-82 | the bytes written put one tuple behind the others and keep live tuples disjoint |
| SlottedPage.TupleRemoved | src/storage/slotted_page.c:119-120 | a zeroed size field takes exactly one tuple away |
| SlottedPage.TupleReplaced | src/storage/slotted_page.c:143-164 | in place or moved, the bytes written replace exactly one tuple and keep live tuples disjoint |
| SlottedPage.SlotAdded | src/storage/slotted_page.c:73-79 | a slot for bytes between slot array and tuples keeps all live tuples disjoint, above the slots and within the page |
| SlottedPage.SlotReplaced | src/storage/slotted_page.c:159-164 | a slot moved to bytes apart from all others keeps them so |
| SlottedPage.RewriteInPlace | src/storage/slotted_page.c:143-147 | the shorter image is found in the slot although its offset is not written |
| SlottedPage.SetNextPage | src/storage/page.h:70-72 | linking a page changes no slot and no tuple |
| Formats.PageFields | src/storage/page.h:11-20 | slot count and next page are the little-endian bytes at 12 and 20 |
| Formats.SlotFields | src/storage/page.h:85-117 | slot i is the offset and size at 24 + 4i, and its tuple the bytes there |
| Formats.FreeSpaceField | src/storage/slotted_page.c:38-42 | the field at 16 is the largest number of bytes that fit between the slots and every live tuple |
| Formats.Constants | src/common/error.h:3-28 | the error codes, the numbers that stand for no page and no slot, and the 253 and 338 keys that a leaf and an internal page of the index hold |
| Formats.FitsIff | src/storage/slotted_page.c:53-71 | a tuple has room iff it and one slot more end below every live tuple, a longer image iff it fits below them behind the slots there are; an empty page has room for 4068 bytes |
| BpmHeap.AheadExact | src/executor/bpm_heap.c:176-215 | the rows ahead of a position are exactly the live tuples at or behind it, none twice |
| BpmHeap.BpmHeap.constructor | src/executor/bpm_heap.c:8-17 | a heap without pages is well formed |
| BpmHeap.BpmHeap.Open | src/executor/bpm_heap.c:8-17 | a heap opened on the first page of an acyclic chain of well-formed pages is well formed |
| BpmHeap.BpmHeap.EnsureFirstPage | src/executor/bpm_heap.c:20-33 | an empty heap gets one empty page or, if no page can be had, an error; any other stays as it is |
| BpmHeap.BpmHeap.SearchChain | src/executor/bpm_heap.c:42-56 | first fit: the page found has room and none before it has |
| BpmHeap.BpmHeap.LastPage | src/executor/bpm_heap.c:66-80 | following the links ends at the last page of the acyclic chain |
| BpmHeap.BpmHeap.Append | src/executor/bpm_heap.c:58-81 | the chain, still acyclic, ends with the new empty page and no stored tuple changes |
| BpmHeap.BpmHeap.FindPageWithSpace | src/executor/bpm_heap.c:37-86 | the first page with room, or a new last page if there is none; an error only if neither can be had |
| BpmHeap.BpmHeap.SearchOrAppend | src/executor/bpm_heap.c:42-86 | the search and the growth of the chain behind the first page |
| BpmHeap.BpmHeap.Insert | src/executor/bpm_heap.c:88-109 | a row of at least one byte gets a rid that was free and is stored there iff it has at most 4068 bytes; every other rid keeps its bytes and the chain stays acyclic; nothing is stored, and that is reported, only if no page has room and none can be had |
| BpmHeap.BpmHeap.Delete | src/executor/bpm_heap.c:111-122 | the row under the rid goes, every other row stays; missing rows, missing pages and invalid rids are reported |
| BpmHeap.BpmHeap.Update | src/executor/bpm_heap.c:124-137 | the row under the rid gets the new image iff it fits, every other row stays |
| BpmHeap.BpmHeap.Get | src/executor/bpm_heap.c:139-157 | the bytes stored under the rid |
| HeapScan.ReachedAhead | src/executor/bpm_heap.c:188-212 | passing dead slots and page ends leaves the rows ahead the same |
| HeapScan.HeapIterator.constructor | src/executor/bpm_heap.c:167-174 | the iterator stands before the first slot of the first page |
| HeapScan.HeapIterator.Next | src/executor/bpm_heap.c:176-215 | returns the first live row ahead and stands right behind it, or reports the end when no row is ahead |
| HeapScan.AllRows | src/executor/bpm_heap.c:167-215 | the drained iterator has returned each live tuple exactly once |
| HeapScan.SeqScan.Next | src/executor/seq_scan_executor.c:11-40 | returns the first row ahead that can be read and passes the predicate, skipping only rows that do not |
| DmlScan.SlotVisited | src/executor/update_executor.c:23-84 | a row is visited with the image it had at the start and becomes what the statement makes of that image |
| DmlScan.SlotAfter | src/executor/update_executor.c:23-84 | after n visits the first n slots of a page are revised once each and the others are as at the start |
| DmlScan.SweepExact | src/executor/update_executor.c:15-88 | exactly the matching rows before the first failing assignment are deleted or rewritten, each from its image at the start; a row whose larger image finds no room and every other row keep their bytes |
| DmlScan.UpdatedRow | src/executor/update_executor.c:62-79 | the same row by row: an image of 1 to 65535 bytes is stored byte for byte iff it finds room, which it does if it is no longer than the old one |
| DmlScan.AffectedExact | src/executor/execution_engine.c:413-426 | the number the sweep reports is the size of the set of rows in front of the first failure that it deletes or rewrites |
| DmlScan.SweepBehind | src/executor/update_executor.c:15-88 | what the scan has passed is never touched again |
| DmlScan.DeleteExact | src/executor/delete_executor.c:13-32 | DELETE leaves exactly the rows that do not match, in order and under their rids, and counts those it removed |
| DmlExecutors.SkipsSweep | src/executor/seq_scan_executor.c:17-33 | rows the scan passes over do not change what the statement does |
| DmlExecutors.DeleteExecutor.Next | src/executor/delete_executor.c:13-32 | one call deletes one matching row, and what is left of the statement is its remainder |
| DmlExecutors.UpdateExecutor.TryRow | src/executor/update_executor.c:23-84 | one row rewritten, passed over for want of room, or ending the statement with the error of its assignments |
| DmlExecutors.UpdateExecutor.Next | src/executor/update_executor.c:15-88 | one call rewrites one matching row, passing over those without room; what is left of the statement is its remainder |
| DmlExecutors.ExecuteUpdate | src/executor/execution_engine.c:413-426 | drained, UPDATE has left in every row the very bytes its rewriting gave, if it passes, no rewriting up to it fails and the bytes find room, and its old bytes otherwise; and reports how many rows it rewrote |
| DmlExecutors.ExecuteDelete | src/executor/execution_engine.c:413-426 | drained, DELETE has left exactly the rows that do not match and counts the others |
| DiskManager.DiskManager.constructor | src/storage/disk_manager.c:87-114 | a new file has no allocated page |
| DiskManager.DiskManager.Reopen | src/storage/disk_manager.c:58-85 | the saved header restores the allocator with the same free pages |
| DiskManager.DiskManager.Allocate | src/storage/disk_manager.c:124-195 | a page other than 0 that was not in use, now zeroed and in use; no other page changes its state or bytes, and used and free pages still partition the file |
| DiskManager.DiskManager.Deallocate | src/storage/disk_manager.c:197-248 | the page becomes the head of the free list; a list of free pages remains iff the page was not on it |
| DiskManager.DiskManager.Read | src/storage/disk_manager.c:250-263 | the page's bytes iff the number is inside the file |
| DiskManager.DiskManager.Write | src/storage/disk_manager.c:265-279 | writing a used page leaves the free list intact; a number outside the file is reported |
| DiskManager.Freed | src/storage/disk_manager.c:223-233 | linking a used page in front of the free list gives an acyclic list of all free pages |
| DiskManager.FreedTwice | src/storage/disk_manager.c:223-233 | linking a free page again leaves no sequence that is its free list |
| DiskManager.ListSurvives | src/storage/disk_manager.c:197-248 | freeing keeps an acyclic free list iff the page was not free |
| DiskManager.Taken | src/storage/disk_manager.c:135-157 | taking the head off leaves the rest a free list without it, whatever the zeroed page says |
| LruReplacer.LruReplacer.Victim | src/buffer/lru_replacer.c:56-76 | of the cold frames, or of the hot ones if none is cold, the one handed in longest ago |
| LruReplacer.LruReplacer.Pin | src/buffer/lru_replacer.c:78-99 | the frame leaves the replacer, order and times of the others stay |
| LruReplacer.LruReplacer.Unpin | src/buffer/lru_replacer.c:101-132 | the frame is the most recent; it is hot iff it was there already |
| LruReplacer.WithoutOk | src/buffer/lru_replacer.c:87-92 | unlinking one frame keeps a list free of duplicates and in order of recency |
| LruReplacer.PushFront | src/buffer/lru_replacer.c:117-129 | a frame pushed in front with the present time keeps a list in order of recency |
| LruReplacer.LastIsEarliest | src/buffer/lru_replacer.c:57-60 | the back of a list in that order was handed in longest ago |
| IntrusiveList.List.constructor | src/common/list.c:3-7 | the sentinel linked to itself is the empty list |
| IntrusiveList.List.PushFront | src/common/list.c:9-15 | the linked sequence gets the node in front, links consistent both ways |
| IntrusiveList.List.PushBack | src/common/list.c:17-23 | the linked sequence gets the node at its end, links consistent both ways |
| IntrusiveList.List.PopFront | src/common/list.c:25-32 | the first node leaves, unlinked; null from the empty list |
| IntrusiveList.List.PopBack | src/common/list.c:34-41 | the last node leaves, unlinked; null from the empty list |
| IntrusiveList.List.RemoveFrom | src/common/list.c:43-53 | exactly the given node leaves, the others keep their order |
| BufferPool.BufferPool.constructor | src/buffer/buffer_pool_manager.c:91-139 | a pool whose frames are all free is valid |
| BufferPool.BufferPool.WriteBack | src/buffer/buffer_pool_manager.c:67-71 | the disk gets the frame's bytes, the frame is clean, and no page's logical contents change |
| BufferPool.BufferPool.EvictPage | src/buffer/buffer_pool_manager.c:59-87 | the unpinned page whose pin count reached 0 longest ago leaves its frame, written back if dirty; no logical contents change |
| BufferPool.BufferPool.GetFrame | src/buffer/buffer_pool_manager.c:173-180 | a frame that holds no page, unless every frame is pinned |
| BufferPool.BufferPool.Miss | src/buffer/buffer_pool_manager.c:173-203 | the page is read into a frame nobody uses; the pool stays valid iff no page had to be evicted by a list-requeueing evict_page |
| BufferPool.BufferPool.Fetch | src/buffer/buffer_pool_manager.c:161-204 | the frame returned holds the page's logical contents, one pin more; no logical contents change; the pool stays valid iff the call need not evict or the victim is only handed on |
| BufferPool.BufferPool.MissAgain | src/buffer/buffer_pool_manager.c:173-203 | with a requeued frame as the only free one, a miss takes that frame from whoever uses it |
| BufferPool.BufferPool.LostPage | src/buffer/buffer_pool_manager.c:81-86 | two misses behind a requeued victim return one frame: the first page, still pinned, has the second page's contents |
| BufferPool.BufferPool.NewPage | src/buffer/buffer_pool_manager.c:206-241 | a page not in use before, blank and pinned once, or an undone allocation; all pages in use keep their logical contents; the same iff for validity |
| BufferPool.BufferPool.ClientWrite | src/executor/bpm_heap.c:68-76 | a write through a pinned frame changes the logical contents of that page only |
| BufferPool.BufferPool.Unpin | src/buffer/buffer_pool_manager.c:243-267 | one pin less, dirty if it was or the caller says so; fails iff the page is not resident or not pinned; no logical contents change |
| BufferPool.BufferPool.Flush | src/buffer/buffer_pool_manager.c:269-283 | the page on disk equals its logical contents and its frame is clean |
| BufferPool.BufferPool.FlushAll | src/buffer/buffer_pool_manager.c:285-293 | the disk equals the logical contents of every used page except those written to and not yet unpinned as dirty |
| BufferPool.Evicted | src/buffer/buffer_pool_manager.c:73-79 | emptying a clean idle frame keeps page table, free list, replacer and disk in agreement and no logical contents change |
| BufferPool.WrittenBack | src/buffer/buffer_pool_manager.c:67-71 | the same for writing a page back |
| BufferPool.Loaded | src/buffer/buffer_pool_manager.c:193-201 | the same for a page read into the held frame |
| BufferPool.Pinned | src/buffer/buffer_pool_manager.c:164-170 | the same for one more pin, which takes the frame out of the replacer's share |
| BufferPool.Unpinned | src/buffer/buffer_pool_manager.c:256-264 | the same for one pin less, which puts the frame in the replacer's share iff it was the last |
| BufferPool.Written | src/executor/bpm_heap.c:68-76 | a client's write keeps the pool in agreement and changes one page's logical contents |
| BufferPool.Elsewhere | src/buffer/buffer_pool_manager.c:206-211 | a disk write to a page that is not resident keeps the pool in agreement and changes one page's logical contents |
| BufferPool.BufferPool.Broken | src/buffer/buffer_pool_manager.c:81-86 | a frame on the free list twice, or on it while it holds a page, is no valid pool |
| QueryPlan.JoinSource | src/planner/planner.c:63-126 | one turn of either loop joins the next source to the plan of the earlier ones, unless its table is unknown |
| QueryPlan.PlanSource | src/planner/planner.c:49-126 | the loops over JOIN clauses and further FROM tables build the left-deep join, or nothing iff a table is unknown |
| QueryPlan.PickCalls | src/planner/planner.c:136-165 | the loops over the select list find exactly its top-level function calls, in order |
| QueryPlan.CallsInOrder | src/planner/planner.c:136-165 | the aggregates are all select items that are calls, in their order |
| QueryPlan.AggregatedIff | src/planner/planner.c:136-145 | a statement is aggregated iff it groups or some select item is a call |
| QueryPlan.PlanSelect | src/planner/planner.c:31-209 | the reassignments of `current` build filter, aggregate, HAVING filter, projection and limit over that join |
| QuerySemantics.LeftDeepMeans | src/planner/planner.c:63-126 | the converted left-deep join yields the nested product with each join condition applied |
| QuerySemantics.FilterMeans | src/planner/planner.c:321-337 | merged into the scan below it or not, a filter yields the passing rows of its input |
| QuerySemantics.TopMeans | src/planner/planner.c:128-206 | on top of any source the clauses yield what they mean on the source's rows, with the aggregate's missing schema |
| QuerySemantics.PlanMeans | src/planner/planner.c:436-452 | the converted plan of a SELECT yields limit(offset(project(having(group(filter(product)))))) |
| QuerySemantics.MeaningAnswers | src/executor/limit_executor.c:21-42 | what a SELECT means, by numbers: result j is selected row OFFSET + j, as many as LIMIT allows and there are, and its column i the value of select item i on that row |
| QuerySemantics.BuiltIff | src/planner/planner.c:49-93 | a plan exists and can be built iff a table is named and all tables are known |
| QuerySemantics.SourceRowsExact | src/executor/nl_join_executor.c:53-101 | a row of the joined tables is exactly one row of each table, glued, such that all join conditions hold |
| QuerySemantics.ColumnsLine | src/executor/execution_engine.c:230-252 | in a joined row a column's name and its value stand at the same place, behind all columns of the earlier tables |
| QuerySemantics.ResultNames | src/executor/execution_engine.c:110-137 | a projected column keeps its name, any other expression is called col with its number in decimal |
| QuerySemantics.InWhere | src/executor/filter_executor.c:15-32 | a row passes a filter iff it is there and the predicate is true of it |
| QuerySemantics.InProduct | src/executor/nl_join_executor.c:53-101 | a row of the product is exactly a left row glued to a right row |
| Executors.BuildExecutor | src/executor/execution_engine.c:60-270 | an executor tree for the plan, without shared parts, or nothing iff a table is missing |
| Executors.Executor.Init | src/executor/nl_join_executor.c:40-51 | an executor of any kind is set to yield its plan's rows from the beginning |
| Executors.Executor.Next | src/executor/execution_engine.c:415-424 | hands out the first of the rows still to come, and ends iff there is none, for every kind of executor |
| Executors.Executor.ScanNext | src/executor/seq_scan_executor.c:11-40 | the same for the scan with its merged predicate |
| Executors.Executor.FilterNext | src/executor/filter_executor.c:15-32 | the same for the filter |
| Executors.Executor.ProjectNext | src/executor/project_executor.c:17-38 | the same for the projection; the row has a column for each expression, and column i is the value of expression i on the child's row |
| Executors.Executor.SkipRow | src/executor/limit_executor.c:28-34 | one row skipped brings the offset one closer without changing the rows to come |
| Executors.Executor.EmitRow | src/executor/limit_executor.c:36-42 | one row of the limit is handed out and counted |
| Executors.Executor.LimitNext | src/executor/limit_executor.c:21-42 | the same for limit and offset |
| Executors.Executor.FetchOuter | src/executor/nl_join_executor.c:59-68 | restarting the inner executor for the next outer row leaves the join rows to come the same |
| Executors.Executor.ScanInner | src/executor/nl_join_executor.c:70-95 | the inner rows up to the next that passes the condition, none lost |
| Executors.Executor.JoinNext | src/executor/nl_join_executor.c:53-101 | the same for the resumable nested loop |
| Aggregation.GroupsExact | src/executor/hash_agg_executor.c:107-177 | the search through the groups makes one group for each key, in the order in which the keys are first seen, and each group has folded exactly the rows of its key, in order |
| Aggregation.AggregateExact | src/executor/hash_agg_executor.c:183-243 | one row for each key, first seen first: the key, then the result of each call over the rows of the key; COUNT is their number |
| GroupBy.GroupedResults | src/executor/hash_agg_executor.c:107-243 | rows share a group iff they agree in the GROUP BY expressions; one row for each group, first seen first, with the values of these expressions and the results of the calls: COUNT the number of rows, MIN and MAX the first of the least and greatest values, SUM the values that are not NULL added from left to right, AVG that sum over the number of rows |
| GroupBy.YieldResults | src/executor/hash_agg_executor.c:212-238 | the cell handed out for MIN, MAX, SUM, AVG and COUNT, in terms of the values of the group's rows |
| Aggregation.CountsAddUp | src/executor/hash_agg_executor.c:123-172 | the counts of all groups add up to the number of input rows, whatever equality the keys have |
| Aggregation.Extremes | src/executor/hash_agg_executor.c:78-98 | the accumulators of MIN and MAX hold NULL iff all values are NULL, and otherwise the first of the values that none is below or above |
| Aggregation.OneGroup | src/executor/hash_agg_executor.c:115-147 | without GROUP BY all rows are one group, and no row makes no group |
| Aggregation.LowerCaseCounts | src/executor/hash_agg_executor.c:38-47 | `sum` in lower case yields the number of rows |
| Executors.Executor.GroupKey | src/executor/hash_agg_executor.c:115-121 | the loop over the GROUP BY expressions computes the key |
| Executors.Executor.FindGroup | src/executor/hash_agg_executor.c:123-130 | the loop finds the first group of the key, or the end of the groups |
| Executors.Executor.UpdateGroup | src/executor/hash_agg_executor.c:153-168 | the loop over the calls updates the accumulators of one group and changes no other group |
| Executors.Executor.EnterRow | src/executor/hash_agg_executor.c:114-172 | one turn of the loop: the groups of the rows so far become those with one more row |
| Executors.Executor.EnterRows | src/executor/hash_agg_executor.c:113-173 | the loop makes the groups of all rows of the child |
| Executors.Executor.Materialize | src/executor/hash_agg_executor.c:107-181 | the aggregate takes all rows of its child and closes it; the rows to come do not change |
| Executors.Executor.AggregateNext | src/executor/hash_agg_executor.c:183-243 | the same for the aggregate, which makes its groups on the first call and hands out one row for each |
| Executors.Executor.TakeRest | src/executor/execution_engine.c:415-424 | calling next until it ends yields all rows still to come, in order |
| Executors.NextOuter | src/executor/nl_join_executor.c:60-67 | at the next outer row the product to come is that row with all inner rows, then the rest |
| Executors.NextInner | src/executor/nl_join_executor.c:72-94 | at the next inner row the product to come starts with the glued row |
| Executors.Drain | src/executor/execution_engine.c:413-426 | the drained rows are the plan's rows, in order |
| Executors.ExecuteSelect | src/executor/execution_engine.c:341-443 | planned, converted, built and drained, a SELECT returns exactly the rows it means: of the rows selected those from OFFSET on, as many as LIMIT allows, column i the value of select item i; no result iff no table is named or one is unknown |
| HeapTables.TableScan.Next | src/executor/seq_scan_executor.c:11-40 | hands out the first row still to come of those that can be read from the heap and pass, and ends iff there is none |
| HeapTables.ScanTable | src/executor/seq_scan_executor.c:11-40 | draining the scan over a heap yields what the plan's scan node yields over the rows that can be read from its live tuples |
| HeapTables.StoredRow | src/storage/tuple.c:172-270 | a tuple that encodes cells is read as the row of their values, kind by kind |
| HeapTables.UpdatedRowReads | src/executor/update_executor.c:52-79 | a row whose rewriting serialised new cells into an image that finds room is read as these cells after UPDATE |
| HeapTables.ExecuteSelect | src/executor/execution_engine.c:341-443 | a SELECT over heaps returns exactly the rows it means over the readable live tuples of these heaps, row by row and column by column |
| SchemaLayout.Build | src/storage/schema.c:31-55 | every fixed field gets the offset behind the earlier ones, every string its number, the bitmap a bit per column |
| SchemaLayout.FixedGrows | src/storage/schema.c:38-48 | a later field starts at or behind the end of every earlier one |
| SchemaLayout.FieldsApart | src/storage/schema.c:38-52 | two fields never overlap, in any column order, and all lie in the fixed area |
| SchemaLayout.MaxTupleSize | src/storage/schema.c:76-86 | bitmap, fixed area and each string column's maximum with its length prefix |
| TupleCodec.BitAdded | src/storage/tuple.c:111-115 | setting a clear bit sets that bit and no other |
| TupleCodec.SerializedSize | src/storage/tuple.c:77-99 | the size that the image of the row takes |
| TupleCodec.WriteBitmap | src/storage/tuple.c:108-116 | bit i says whether column i is NULL, and nothing behind the bitmap changes |
| TupleCodec.WriteFixed | src/storage/tuple.c:118-142 | each field that is not NULL stands at its offset, and nothing outside the fixed area changes |
| TupleCodec.WriteStrings | src/storage/tuple.c:144-166 | each string stands behind the earlier ones with its length in front, ending at the serialized size |
| TupleCodec.Serialize | src/storage/tuple.c:101-170 | the buffer holds an image of the row of exactly tuple_serialized_size bytes, and nothing behind it changes |
| TupleCodec.WithinMax | src/storage/schema.c:76-86 | the image stays within schema_max_tuple_size if no string is longer than its column allows |
| TupleCodec.CellRead | src/storage/tuple.c:188-267 | each cell of an image reads back as it was, NULLs and empty strings included |
| TupleCodec.DecodeEncoded | src/storage/tuple.c:172-270 | tuple_deserialize of an image of a row gives that row |
| TupleCodec.EncodedOnce | src/storage/tuple.c:101-170 | an image encodes one row only |
| Formats.RowFields | src/storage/tuple.c:101-168 | bit i of the bitmap marks a NULL in column i; integers and doubles take eight bytes behind the bitmap in column order, booleans one, strings follow with four bytes of length |
| Formats.NullRow | src/storage/tuple.c:77-99 | a row of NULLs can be stored in every table, in the bitmap, the fixed area and four bytes for each string |
| Formats.MaxAttained | src/storage/schema.c:76-87 | the maximum is the size of a row whose strings are as long as their columns allow |
| TupleCodec.ReadFixed | src/storage/tuple.c:188-222 | the loop reads every fixed field or NULL |
| TupleCodec.ReadString | src/storage/tuple.c:226-266 | one string is read, skipped as NULL, or reported as cut off |
| TupleCodec.Deserialize | src/storage/tuple.c:172-270 | for every buffer that has the bitmap and fixed area, the row it holds or an I/O error where a string is cut off |
| TupleCodec.StoreAndLoad | src/storage/tuple.c:101-270 | deserialising what was serialised gives the row back, for every schema and conforming row |

## Left out

- Real file I/O, open and closed files, latches and failing allocations: pages are a map and access succeeds.
- The byte images of B+ tree nodes and their one entry over capacity, which does not fit the page, and the pins left on leaves by find_leaf: nodes are sequences and page access is total.
- The unused function split_internal; the split inside insert_into_parent is modelled.
- BPlusTreeHeight.PathNeverOverflows: the tree itself takes page ids of any size; the bound on ids is an assumption of this lemma only.
- Log records, write-ahead logging and recovery: redo moves page LSNs only and undo flips states only (src/transaction/recovery_manager.c:140-169), so no data is restored that could be claimed.
- Isolation levels, which the lock manager never looks at, and steps of several threads inside one call.
- A waits-for edge out of INVALID_TXN_ID is no transaction's edge; the walk does not follow it.
- BufferPool.BufferPool.Fetch: excludes page 0, the file's header, and pages on the allocator's free list, which no caller holds an id for.
- BufferPool.BufferPool.Miss: the same.
- BufferPool.BufferPool.Unpin: the last unpin of a page that was written to is assumed to say so, as callers of bpm_unpin_page must.
- The pool's free list and the replacer's lists are sequences there; the linked list behind them is proved separately in IntrusiveList.  A node queued twice corrupts the links in C and appears twice in the sequence.
- DiskManager.DiskManager.Reopen: the allocator's header page is two recorded numbers, not bytes with a magic number and a version, and the file is one that the allocator has left, with an acyclic free list.
- DiskManager.DiskManager.Read: what the header page holds is left open.
- DiskManager.DiskManager.Write: the header page and free pages are excluded; writing these is the allocator's own business.
- BpmHeap.BpmHeap.Get: rids that name a page of something else than the heap are excluded.
- BpmHeap.BpmHeap.Delete: the same.
- BpmHeap.BpmHeap.Update: the same.
- Heap pages are fetched without counting pins; the executors of one statement share one heap object.
- HeapTables.ExecuteSelect: reads each table before the executors run, where the source's scan executors pull from the heap; the tables do not change meanwhile.  Heaps with a tuple shorter than bitmap and fixed area, behind whose end the code reads, are excluded; INSERT and UPDATE write none.
- HeapTables.ScanTable: the same tuples are excluded.
- HeapTables.TableScan.Next: the same.
- INSERT, CREATE INDEX, DROP and the catalog: plumbing around the operations above.
- TupleCodec.Deserialize: does not model 32-bit wrap-around of the offset on malformed images or reads before the end check of the fixed area; buffers shorter than bitmap and fixed area, behind whose end the code reads, are excluded.
- TupleCodec.ReadFixed: the same.
- TupleCodec.Serialize: cells whose type differs from their column's are excluded; the code copies whatever the union holds.
- Index scans (no executor is built for them), ORDER BY, DISTINCT and outer joins (the join type is stored and never used).
- Executors.Executor.AggregateNext: comparison, addition and division of values are any functions; the 64-bit count does not wrap around.
- Executors.ExecuteSelect: expression evaluation is any function; its errors count as not true in a predicate and as NULL in a projection.  A catalog has no table with the empty name.
- Table and column names longer than the C buffers in the planner.
- Literal lexemes are taken as decoded, and strings of any length; the LIKE fallback, which frees the left operand it keeps, is modelled by the tree it builds.
- PrattRoundTrip.RoundTrip: excludes only trees the parser never builds or reads as others: a binary LIKE with a string literal (read as LIKE), an empty IN list, a call with a star and arguments, and names over 63 characters.  IS followed by an expression gives a comparison, which is printed as one.
- PrattParentheses.RightPairNeeded: states it for a binary right operand whose own left end needs no pair.
- The lexer, statement parsing beyond expressions, EXPLAIN, the REPL, logging and the hash map and vector, which are Dafny maps and sequences.
