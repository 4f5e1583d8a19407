# Verified model of the order-9 search trees

The benchmark stores its data in search trees of minimum degree 9: a B+-tree with a doubly linked chain of
leaves, the same tree with records outside the nodes, a classic B-tree, and the same with entries outside the
nodes. This project models these trees, the transactional B+-tree on persistent memory, the B+-tree under a
reader-writer lock, and the FNV hash that makes keys, and proves that they do what they are for. Everything is
proved for any minimum degree `d >= 2`; the source uses 9, which is `MIN_DEGREE` here.

## How it is built

* **Abstract state** (`SortedMap`, `Arrays`). A store is a strictly ascending sequence of entries. `Upsert`,
  `Lookup` and `Range` say what insert, read and scan mean; lemmas tie them to a plain map.
* **Tree values** (`BPlusShape`, `BPlusRange`, `BPlusFacts`; `BTreeShape`, `BTreeFacts`). The value of a tree,
  generic in what identifies a node and in what a leaf slot holds. `Wf` and `BWf` are the shape invariants:
  order, bounds, one depth, half-full nodes, and for the B+-tree separators equal to the smallest key to their
  right. The lemmas about splitting, binding and descending are shared by all B+-trees below.
* **Trees in memory** (`BPlusNode` to `BPlusTree`; `RecordNode` to `RecordStore`; `BTreeNode` to `BTreeStore`;
  `EntryItem` to `EntryStore`). Node objects with the source's fields, updated in place by the source's loops.
  `Rep` says that the nodes hold a tree value, `Owned` and `Apart` that no node or array is shared, `Chain` that
  `next` and `previous` link the leaves in tree order. Each method keeps them and says which tree value results.
  The nodes of the two B-trees are one class, generic in what an entry slot holds: an entry or a pointer to one.
* **Records and entry objects** (`Bindings`, `RecordValues`, `EntryValues`, `RecordFree`). A pointer slot is a
  tagged value, and each cast is a destructor that is only defined on its own kind. `Bindings()` of a store maps
  keys to the objects, `Contents()` to what they hold.
* **Histories** (`History`, `Runs`, `RecordHistory`, `EntryHistory`, `Agreement`). A history is a sequence of
  inserts, updates, reads and scans. A run records the bindings and the memory of the objects after each
  operation. The lemmas of `Runs` are about every run; the `Play` methods show that what the stores do is a run.
* **Transactions** (`PoolMemory`, `TxPool` to `TxStore`). The pool is a memory from object ids to nodes with an
  undo log of one cell per node and one for the root pointer. Every write needs a snapshot or a fresh
  allocation, and every state a transaction goes through, from entry to commit, is recorded, so that a crash can
  be placed anywhere.
  `TxValue` does the same byte by byte for the value buffer of an in-place update.
* **Threads** (`LockedTree`, `LockedInsert`, `LockedReaders`). A state machine over the steps of any number of threads. Readers
  step node by node, entry by entry and link by link on the memory as it is then; a writer performs arbitrary
  stores until they add up to what `insert` promises. `WriterSection` shows that the verified sequential insert
  is such a section in every state a writer can be in, `SectionWaits` that other threads cannot spoil it.
  `LockedReaders` follows each answer back to the thread that asked for it and shows that readers finish.
* **Hash** (`Fnv`).

`Checked.Fatal` stands for `check()`, which stops the program when a store has no root. A `freed` flag on nodes
and records stands for `free`: freeing asserts that it was not set.

Where code and comments disagree the code is followed. The comment above `split_node` in
`storeds/bplustree/bplustree_pmem_tx.cc:286-288` says that the caller has taken a snapshot of the parent; for a
root with room nobody has, because the snapshot at lines 477-479 covers the root pointer and not the root node.
`TxStore.Insert` states exactly when that loses atomicity, and `TxStore.FirstInsertIsNotAtomic` is an instance.

## Model

| member | source | states |
|---|---|---|
| SortedMap.UpsertIsMapUpdate | storeds/bplustree/bplustree_dram.cc:368-406 | the contents an insert is specified by, `Upsert`, is exactly map update, and keeps the keys strictly ascending |
| SortedMap.ToMapLookup | storeds/bplustree/bplustree_dram.cc:154-176 | the lookup a read is specified by is map lookup |
| SortedMap.UpsertMiddle | storeds/bplustree/bplustree_dram.cc:330-363 | a key between two parts of the sorted contents is bound in the middle part only; the rest is neither lost, duplicated nor reordered |
| BPlusFacts.RangeIsWindow | storeds/bplustree/bplustree_dram.cc:107-149 | the range a scan is specified by: from the first key not below the given one, the first `len` pairs or as many as there are, and all of them for a `len` of zero or less |
| BPlusFacts.ScanOfAll | storeds/bplustree/bplustree_dram.cc:107-149 | the range from key 0 without a limit is the whole contents |
| BPlusTree.Store.LeafLines | storeds/bplustree/bplustree_dram.cc:72-87 | going down the first children to the leftmost leaf and then along `next` visits every leaf of the tree once, in tree order, and ends: the pieces put together are the contents |
| Agreement.DescentsAgree | storeds/bplustree/bplustree_dram.cc:107-185 | both answers are those of the contents, and `read(k)` finds v exactly when the first pair of `scan(k, 1)` is (k, v), although one descent goes right and the other left on an equal separator |
| BPlusShape.WfEntries | storeds/bplustree/bplustree_dram.cc:246-406 | a well-formed tree (separators as bounds, leaves at one depth) lists its keys in ascending order inside its bounds |
| BPlusShape.SeparatorStored | storeds/bplustree/bplustree_dram.cc:275-319 | every separator is the smallest key stored under the child to its right, so it is a key still stored in a leaf |
| BPlusShape.SplitKidsWf | storeds/bplustree/bplustree_dram.cc:246-324 | splitting a full child keeps the parent well formed: half-full children, one depth, separators equal to smallest keys |
| BPlusShape.SplitKidsEntries | storeds/bplustree/bplustree_dram.cc:246-324 | splitting a child at either level keeps the contents; splitting an internal child also keeps the row of leaves |
| BPlusShape.SplitRow | storeds/bplustree/bplustree_dram.cc:281-285 | splitting a leaf puts the new leaf right after it in the row of leaves |
| BPlusShape.SplitBounds | storeds/bplustree/bplustree_dram.cc:347-362 | after a split an absent key differs from the new separator, and the strict comparison picks the half whose bounds contain it and which has room |
| BPlusShape.UpsertBelow | storeds/bplustree/bplustree_dram.cc:330-363 | binding a key in the child that bounds it binds it in the whole row and keeps separators and order |
| BPlusShape.DescendTo | storeds/bplustree/bplustree_dram.cc:154-176 | stepping over an equal separator reaches the one child whose entries decide the lookup |
| BPlusShape.OwnedSplit | storeds/bplustree/bplustree_dram.cc:246-324 | a split adds exactly one node and no node occurs twice |
| BPlusShape.OneKid | storeds/bplustree/bplustree_dram.cc:381-386 | a new root above a full one: well formed, same contents, one node more |
| BPlusRange.CutDescend | storeds/bplustree/bplustree_dram.cc:113-120 | each step of the scan descent, left on an equal separator, leaves only smaller keys to the left and none below the key to the right |
| BPlusRange.CutAtLeaf | storeds/bplustree/bplustree_dram.cc:124-128 | from the leaf reached, its tail and the leaves after it are the whole range, also when the leaf lies left of the key |
| BPlusFacts.TreeSize | storeds/bplustree/bplustree_dram.cc:246-406 | a tree with h >= 1 internal levels holds at least 2 (d-1) d^(h-1) entries |
| BPlusFacts.HeightAtMost19 | storeds/bplustree/bplustree_common.h:15-23 | with 64-bit keys and minimum degree 9 there are at most 19 internal levels |
| BPlusNode.SplitLeaf | storeds/bplustree/bplustree_dram.cc:246-286 | splitting a full leaf in place: who holds which entries, separator and child inserted in the parent, both links on either side of the new leaf |
| BPlusNode.SplitInner | storeds/bplustree/bplustree_dram.cc:287-323 | splitting a full internal node in place: halves of entries and children, the middle key moves to the parent |
| BPlusNode.ShiftLarger | storeds/bplustree/bplustree_dram.cc:331-339 | the shifting loop opens the gap at the key's place and moves nothing else |
| BPlusNode.InsertSorted | storeds/bplustree/bplustree_dram.cc:331-343 | shift and write bind the absent key among the used entries |
| BPlusHeap.SplitChild | storeds/bplustree/bplustree_dram.cc:246-324 | the nodes after `split_node` represent the split tree, and `next` and `previous` chain its leaves in order |
| BPlusHeap.ChainInsert | storeds/bplustree/bplustree_dram.cc:281-285 | threading a leaf in keeps `previous` the exact inverse of `next` along the row |
| BPlusInsert.InsertNotFull | storeds/bplustree/bplustree_dram.cc:330-363 | at any depth: the represented tree is well formed with the key bound, every node once, the leaf chain in tree order, only new nodes added |
| BPlusInsert.SplitThenInsert | storeds/bplustree/bplustree_dram.cc:346-362 | the case of a full child, with the strict comparison after the split |
| BPlusSearch.Search | storeds/bplustree/bplustree_dram.cc:154-176 | search returns the binding of the key in the contents, or nothing |
| BPlusSearch.UpdateIfFound | storeds/bplustree/bplustree_dram.cc:212-235 | reports whether the key is stored and if so binds it to the new value, in the same nodes |
| BPlusScan.FindLeaf | storeds/bplustree/bplustree_dram.cc:110-121 | the descent of scan stops at a leaf with smaller keys before it and no smaller key after it |
| BPlusScan.WalkChain | storeds/bplustree/bplustree_dram.cc:130-146 | walking `next` emits the tail of the first leaf and the following leaves in order, stopping after `len` entries |
| BPlusScan.ScanTree | storeds/bplustree/bplustree_dram.cc:107-149 | scan appends exactly the range of the contents, in order |
| BPlusFree.RecursiveFree | storeds/bplustree/bplustree_dram.cc:411-427 | every node of the subtree is freed, each once, and every neighbour written is still live; the rest of the chain stays linked |
| BPlusTree.Store.constructor | storeds/bplustree/bplustree_dram.cc:99-102 | a new store has no root and no contents |
| BPlusTree.Store.Insert | storeds/bplustree/bplustree_dram.cc:368-406 | for every reachable store: contents become the old map with the key bound, the invariant holds again (including leaf chain and separators), and the height grows by one exactly when an absent key met a full root |
| BPlusTree.Store.Read | storeds/bplustree/bplustree_dram.cc:181-185 | read gives the binding of the key, and stops the program on a store without root |
| BPlusTree.Store.Scan | storeds/bplustree/bplustree_dram.cc:107-149 | scan appends exactly the range to the caller's vector |
| BPlusTree.Store.Update | storeds/bplustree/bplustree_dram.cc:190-194 | update is an insert once the store has a root, and stops the program before |
| BPlusTree.Store.Destroy | storeds/bplustree/bplustree_dram.cc:432-436 | destroy frees every node of the tree once and leaves an empty store |
| RecordNode.HalveLeaf | storeds/bplustree_mem_opt/bp_dram.cc:268-281 | the last d keys and records of a full leaf move to the new leaf, pair by pair |
| RecordNode.SplitLeaf | storeds/bplustree_mem_opt/bp_dram.cc:267-307 | splitting a leaf of keys and records in place; only record slots are moved as records, only child slots as nodes |
| RecordNode.SplitInner | storeds/bplustree_mem_opt/bp_dram.cc:308-345 | splitting an internal node of the shared pointer array in place, within its bounds |
| RecordNode.InsertIntoLeaf | storeds/bplustree_mem_opt/bp_dram.cc:352-367 | a new record with the value is bound to the key in a leaf with room |
| RecordHeap.SplitChild | storeds/bplustree_mem_opt/bp_dram.cc:267-346 | as for the tree with embedded entries: represented tree, chain, and each used slot of the kind its node says |
| RecordInsert.InsertNotFull | storeds/bplustree_mem_opt/bp_dram.cc:352-386 | binds the absent key to one new record; every other slot keeps its record; never entered on a full node |
| RecordSearch.Search | storeds/bplustree_mem_opt/bp_dram.cc:156-178 | search returns the record bound to the key; each cast is on a slot of its kind |
| RecordSearch.UpdateIfFound | storeds/bplustree_mem_opt/bp_dram.cc:233-256 | writes the record bound to the key and nothing else |
| RecordScan.ScanTree | storeds/bplustree_mem_opt/bp_dram.cc:109-151 | scan appends the keys of the range with copies of the values their records hold |
| RecordFree.FreeRecords | storeds/bplustree_mem_opt/bp_dram.cc:438-443 | frees every record of a leaf exactly once and leaves no pointer to one in its slots |
| RecordFree.RecursiveFree | storeds/bplustree_mem_opt/bp_dram.cc:434-458 | frees every node and every record of the subtree exactly once and writes only live neighbours |
| Runs.HolderIdentity | storeds/bplustree_mem_opt/bp_dram.cc:391-429 | over a whole run: a key that has a holder after i operations has the same one after any later number j, it is in exactly one slot, and it has the value last written to the key |
| Runs.OnlyOwnWrites | storeds/bplustree_mem_opt/bp_dram.cc:233-256 | only a write of its own key changes what a holder has |
| Runs.HolderHasLastWritten | storeds/bplustree_mem_opt/bp_dram.cc:391-429 | a key has a holder exactly when it was written, and the holder has the value written last |
| RecordHistory.ReboundIsStep | storeds/bplustree_mem_opt/bp_dram.cc:391-429 | an insert or update of the store is a step of such a run: a stored key keeps its record, a new key gets a new one, one record is written and no other |
| RecordHistory.Play | storeds/bplustree_mem_opt/bp_dram.cc:109-196 | any history of inserts, updates, reads and scans on a new store is such a run, ends in the bindings and record values of the store, and gets the specified replies |
| RecordHistory.RecordsKept | storeds/bplustree_mem_opt/bp_dram.cc:109-429 | the two together: over every history on the store, record identity, one slot for each record, and the last value written |
| Bindings.UpsertDistinct | storeds/bplustree_mem_opt/bp_dram.cc:352-386 | a new record under an absent key: every record is still referenced from exactly one slot |
| RecordValues.UpsertValues | storeds/bplustree_mem_opt/bp_dram.cc:391-429 | binding a key to a record binds it to the value the record holds |
| RecordValues.WriteOne | storeds/bplustree_mem_opt/bp_dram.cc:233-256 | writing one record changes the value of its key and of no other |
| RecordStore.Store.Insert | storeds/bplustree_mem_opt/bp_dram.cc:391-429 | contents become the old map with the key bound; a stored key keeps its record, a new key gets a new one, and no other record is written |
| RecordStore.Store.Read | storeds/bplustree_mem_opt/bp_dram.cc:183-187 | read gives the value the key's record holds |
| RecordStore.Store.Scan | storeds/bplustree_mem_opt/bp_dram.cc:109-151 | scan appends exactly the range of the contents to the caller's vector |
| RecordStore.Store.Update | storeds/bplustree_mem_opt/bp_dram.cc:192-196 | update is an insert once the store has a root, with the same guarantee for every record, and stops the program before |
| RecordStore.Store.Destroy | storeds/bplustree_mem_opt/bp_dram.cc:463-467 | destroy frees every node and every record once |
| BTreeShape.BSplitInOrder | storeds/btree/btree_dram.cc:153-189 | `split_node` leaves the in-order sequence of the parent's subtree unchanged although entries live in internal nodes |
| BTreeShape.BSplitWf | storeds/btree/btree_dram.cc:153-189 | splitting a full child keeps the parent well formed |
| BTreeShape.InOrderSorted | storeds/btree/btree_dram.cc:153-298 | a well-formed B-tree lists its keys in ascending order inside its bounds |
| BTreeShape.BSplitBounds | storeds/btree/btree_dram.cc:214-228 | after a split an absent key differs from the entry that moved up, and the strict comparison picks the half that bounds it and has room |
| BTreeShape.BindInChild | storeds/btree/btree_dram.cc:195-229 | binding an absent key in the child that bounds it binds it in the whole tree |
| BTreeShape.BindInNode | storeds/btree/btree_dram.cc:243-247 | overwriting an entry of an internal node binds its key |
| BTreeShape.LookupInChild | storeds/btree/btree_dram.cc:101-119 | a key that is not in the node is bound exactly when it is bound in the child between its neighbours |
| BTreeNode.Split | storeds/btree/btree_dram.cc:153-189 | `split_node` in place, for leaves and internal nodes |
| BTreeHeap.SplitChild | storeds/btree/btree_dram.cc:153-189 | the nodes after `split_node` represent the split tree, whether slots hold entries or pointers to them |
| BTreeInsert.InsertNotFull | storeds/btree/btree_dram.cc:195-229 | at any depth: the represented tree is well formed with the key bound, every node once |
| BTreeSearch.Search | storeds/btree/btree_dram.cc:101-119 | search finds a key at whatever depth it is stored |
| BTreeSearch.UpdateIfFound | storeds/btree/btree_dram.cc:234-253 | reports whether the key is stored, at any depth, and if so binds it to the new value |
| BTreeFree.RecursiveFree | storeds/btree/btree_dram.cc:303-317 | every node of the subtree is freed, each once |
| BTreeStore.Store.Insert | storeds/btree/btree_dram.cc:258-298 | contents become the old map with the key bound; an absent key adds exactly one entry at its sorted place; the height grows by one exactly when an absent key met a full root |
| BTreeStore.Store.Read | storeds/btree/btree_dram.cc:124-133 | read gives the binding of the key, and stops the program on a store without root |
| BTreeStore.Store.Update | storeds/btree/btree_dram.cc:138-142 | update is an insert once the store has a root |
| BTreeStore.Store.Destroy | storeds/btree/btree_dram.cc:322-328 | destroy frees every node once |
| BTreeFacts.TreeSize | storeds/btree/btree_dram.cc:153-298 | a B-tree of height h holds at least 2 d^h - 1 entries |
| BTreeFacts.HeightAtMost19 | storeds/btree/btree_dram.cc:153-298 | with 64-bit keys and minimum degree 9 the height is at most 19 |
| EntryInsert.ShiftLarger | storeds/btree_mem_opt/bt_dram.cc:235-241 | the shifting loop, which compares keys through the pointers, opens the gap at the key's place and moves nothing else |
| EntryInsert.InsertItem | storeds/btree_mem_opt/bt_dram.cc:235-245 | a new entry object at the place of an absent key |
| EntryInsert.InsertNotFull | storeds/btree_mem_opt/bt_dram.cc:231-264 | at any depth: the absent key gets one new entry, every other slot keeps its own, every pointer is to an entry with the key it stands for |
| EntrySearch.Search | storeds/btree_mem_opt/bt_dram.cc:139-159 | search returns the entry of the key, at whatever depth it is |
| EntrySearch.UpdateIfFound | storeds/btree_mem_opt/bt_dram.cc:269-288 | writes the entry of the key, at whatever depth, and nothing else |
| EntryStore.Store.Insert | storeds/btree_mem_opt/bt_dram.cc:293-331 | contents become the old map with the key bound; a stored key keeps its entry although splits move the pointer to other nodes and levels, a new key gets a new one, and no other entry is written |
| EntryStore.Store.Read | storeds/btree_mem_opt/bt_dram.cc:164-169 | read gives the value of the key's entry |
| EntryStore.Store.Update | storeds/btree_mem_opt/bt_dram.cc:174-178 | update is an insert once the store has a root |
| EntryStore.Store.Destroy | storeds/btree_mem_opt/bt_dram.cc:336-360 | destroy frees every node once; the entries are not freed |
| EntryHistory.Play | storeds/btree_mem_opt/bt_dram.cc:132-331 | any history on a new store is a run in the sense above, and gets the specified replies, each scan being thrown |
| EntryHistory.EntriesKept | storeds/btree_mem_opt/bt_dram.cc:132-331 | over every history: entry identity, one slot for each entry, and the last value written |
| Agreement.Agree | storeds/bplustree/bplustree_dram.cc:107-194 | for every history the two B+-trees give the replies of a plain map to inserts, updates, reads and scans, the two B-trees those to inserts, updates and reads with each scan thrown, and without scans all four agree |
| History.AnswersAreMapAnswers | storeds/bplustree/bplustree_dram.cc:107-194 | replies from sorted contents, scans included, are the replies of a plain map |
| History.SortedToMap | storeds/bplustree/bplustree_dram.cc:107-149 | sorted contents are the map they make, listed in key order |
| Agreement.PlayBPlus | storeds/bplustree/bplustree_dram.cc:107-194 | the replies of the B+-tree to a history |
| Agreement.PlayBTree | storeds/btree/btree_dram.cc:94-142 | the replies of the B-tree to a history |
| TxPool.RollbackRestores | storeds/bplustree/bplustree_pmem_tx.cc:453-473 | restoring snapshots and dropping allocations gives the state before the transaction back, except nodes written without a snapshot |
| TxPool.Pool.Snapshot | storeds/bplustree/bplustree_pmem_tx.cc:304-305 | a snapshot of a whole node makes it writable; the first one of a transaction counts |
| TxPool.Pool.Write | storeds/bplustree/bplustree_pmem_tx.cc:290-430 | a node may be written only when it was snapshotted or allocated in the transaction (or is the exempt root); every intermediate state is kept in a trace, each step of which changes at most one node or the root pointer, and only after the log has it |
| TxNode.SplitLeaf | storeds/bplustree/bplustree_pmem_tx.cc:293-344 | splitting a leaf snapshots child, sibling and next leaf before writing them |
| TxNode.SplitInner | storeds/bplustree/bplustree_pmem_tx.cc:345-380 | splitting an internal node snapshots child and sibling before writing them |
| TxInsert.InsertNotFull | storeds/bplustree/bplustree_pmem_tx.cc:389-430 | every node but the one it is entered on at the root is snapshotted or allocated before it is written, at any depth and through any number of splits, and the tree gets the key bound |
| TxStore.Init | storeds/bplustree/bplustree_pmem_tx.cc:116-146 | a new pool gets an empty leaf as its root; the recorded states reach from the untouched pool to the commit, and a crash in any of them gives the untouched pool back |
| TxStore.InsertFullRoot | storeds/bplustree/bplustree_pmem_tx.cc:447-474 | starting from a full root, the recorded states reach from the state before the insert to the commit that ends it, no store comes after it, and a crash or abort in any of them, the store into the root pointer included, gives exactly the state before the insert back |
| TxStore.InsertRoomyRoot | storeds/bplustree/bplustree_pmem_tx.cc:475-484 | starting from a root with room, over all states from entry to commit: everything but the root node is given back, and the root node too exactly when the key goes to a child with room |
| TxStore.Insert | storeds/bplustree/bplustree_pmem_tx.cc:435-487 | contents become the old map with the key bound; for an absent key the recorded states are those of the whole operation, from entry to commit, and atomicity over them holds if and only if the root was full or the key goes to a child of the root with room |
| TxStore.FirstInsertIsNotAtomic | storeds/bplustree/bplustree_pmem_tx.cc:475-484 | a concrete case in which a crash is not undone: the first insert into a new pool |
| TxStore.UpdateIfFound | storeds/bplustree/bplustree_pmem_tx.cc:245-275 | which value an in-place update binds, and that the tree is otherwise as it was |
| TxValue.Update | storeds/bplustree/bplustree_pmem_tx.cc:259-262 | the transaction of an in-place update on its value buffer: a crash after any byte is undone if and only if the new string is not longer than the old one; otherwise the old string comes back with the new one's tail |
| LockedTree.SearchKeepsOk | storeds/bplustree/bplustree_dram_concurrent_lock.cc:162-184 | a reader inside `search` stays on a subtree that decides its lookup |
| LockedTree.DescendKeepsOk | storeds/bplustree/bplustree_dram_concurrent_lock.cc:119-135 | a reader inside the descent of `scan` keeps the range between what it passed and what is ahead |
| LockedTree.WalkKeepsOk | storeds/bplustree/bplustree_dram_concurrent_lock.cc:137-153 | a reader on the leaf chain: what it copied and what is ahead make up the range |
| LockedTree.StepKeepsInv | storeds/bplustree/bplustree_dram_concurrent_lock.cc:113-425 | every step of every thread keeps the invariant |
| LockedTree.EveryInterleavingIsSafe | storeds/bplustree/bplustree_dram_concurrent_lock.cc:113-425 | for any number of threads and any interleaving, when a writer leaves only after its stores add up to what `insert` promises (which `WriterSection` shows of the code): a writer is alone, no reader leaves the allocated nodes, with no writer inside the tree is well formed and holds the inserts applied in lock order, and every recorded answer is right for the one map current when its section began |
| LockedTree.NoAbortAfterAnInsert | storeds/bplustree/bplustree_dram_concurrent_lock.cc:62-68 | once one insert has completed `check()` never stops the program |
| LockedReaders.EveryAnswerWasAsked | storeds/bplustree/bplustree_dram_concurrent_lock.cc:113-197 | over every behaviour: each answer was given by a thread that had been asked exactly this operation, at the end of the one section that followed, and is right for the inserts completed when the section began |
| LockedReaders.EveryWriteWasAsked | storeds/bplustree/bplustree_dram_concurrent_lock.cc:202-425 | over every behaviour: each completed insert has the key and the value that some thread was asked to insert or update |
| LockedReaders.StepServes | storeds/bplustree/bplustree_dram_concurrent_lock.cc:113-197 | every step of a thread goes on with the operation it was asked or ends it; steps of others leave it |
| LockedReaders.SearchAdvances | storeds/bplustree/bplustree_dram_concurrent_lock.cc:162-184 | each step of `search` returns or goes one level down |
| LockedReaders.DescendAdvances | storeds/bplustree/bplustree_dram_concurrent_lock.cc:119-135 | each step of the descent of `scan` reaches a leaf or goes one level down |
| LockedReaders.WalkAdvances | storeds/bplustree/bplustree_dram_concurrent_lock.cc:137-153 | each step of the walk returns or leaves fewer entries and leaves to visit |
| LockedReaders.BoundedSteps | storeds/bplustree/bplustree_dram_concurrent_lock.cc:113-197 | in every behaviour, however the others interleave, a reader takes no more steps of its own than the height and the entries it found allow |
| LockedReaders.ReaderFinishes | storeds/bplustree/bplustree_dram_concurrent_lock.cc:113-197 | from any reachable state a reader inside leaves after finitely many own steps, with the right answer to its operation recorded |
| LockedReaders.Begins | storeds/bplustree/bplustree_dram_concurrent_lock.cc:113-425 | an idle thread can start any operation and get inside when the lock is free for it, a writer with the key and value asked for |
| LockedReaders.ReadCompletes | storeds/bplustree/bplustree_dram_concurrent_lock.cc:113-197 | a read or a scan asked while no writer is inside can be run from start to end, and answers from the map of the inserts completed at that time |
| LockedReaders.LockGrants | storeds/bplustree/bplustree_dram_concurrent_lock.cc:113-425 | the lock lets a writer in exactly when nobody is inside, a reader exactly when no writer is |
| LockedReaders.StartsAsAsked | storeds/bplustree/bplustree_dram_concurrent_lock.cc:62-68 | a started operation is the one asked for; `check()` stops the program exactly for operations other than insert on an empty store |
| LockedInsert.WriterSection | storeds/bplustree/bplustree_dram_concurrent_lock.cc:380-425 | in any reachable state in which a writer holds the lock and has not stored yet, for an insert or an update, running the sequential insert is a writer's section, through every exit, and the writer may leave after it |
| LockedInsert.OthersKeepOut | storeds/bplustree/bplustree_dram_concurrent_lock.cc:113-425 | while a writer is inside, no step of another thread touches memory, root or tree |
| LockedInsert.SectionWaits | storeds/bplustree/bplustree_dram_concurrent_lock.cc:380-425 | after any schedule of other threads since it got the lock, a writer still finds the memory as the last completed insert left it |
| Fnv.FNVHash64 | core/utils.h:22-33 | the loop computes the eight rounds over the octets from the low end |
| Fnv.Xor | core/utils.h:29-29 | exclusive or with an octet changes nothing above the low octet |
| Fnv.XorBits | core/utils.h:29-29 | a bit of the result is set exactly when it is set in one operand and not in the other |
| Fnv.HashOf0 | core/utils.h:22-33 | the hash of 0 by value, which fixes the start word, the prime and the number of rounds |
| Fnv.HashOf1 | core/utils.h:22-33 | the hash of 1 by value, whose low octet enters in the first round |
| Fnv.HashOf256 | core/utils.h:22-33 | the hash of 256 by value, whose second octet enters in the second round |
| Fnv.HashOfLastOctet | core/utils.h:22-33 | the hash of 2^56 by value, whose last octet enters in the last round |
| Fnv.KeyName | core/core_workload.h:221-226 | ordered keys are the sequence numbers, unordered ones what `FNVHash64` returns |
| Fnv.OrderedKeysKeepOrder | core/core_workload.h:221-226 | ordered keys compare as their sequence numbers do |
| Fnv.UnorderedKeysKnown | core/core_workload.h:221-226 | the first two unordered keys, by value |
| Fnv.WordsAreKeys | core/utils.h:22-33 | a hash is a 64-bit key, and every 64-bit key is a possible hash input |
| Fnv.TimesUndone | core/utils.h:30-30 | multiplying by the odd prime modulo 2^64 is a bijection: the stated inverse brings every word back |
| Fnv.StepUndone | core/utils.h:25-31 | a round loses nothing: the word before it can be computed from the word after it and the octet |
| Fnv.RoundsInjective | core/utils.h:25-31 | the same octets keep different words different through any number of rounds |
| Fnv.SpreadsUp | core/utils.h:29-30 | words that differ in the low octet only differ above it after the multiplication |
| Fnv.NoAdjacentCollision | core/utils.h:22-33 | no collision between two inputs that differ only within two adjacent octets |
| Fnv.SequenceKeysDistinct | core/core_workload.h:196-226 | the keys of an aligned block of 65536 sequence numbers are pairwise distinct, hashed or not |

## Left out

- TxStore.UpdateIfFound: the transaction of an in-place update is not part of the pool's undo log, whose cells are whole nodes; what a crash inside it leaves is stated on the value buffer, by `TxValue.Update`.
- TxStore.Insert: atomicity is stated for absent keys, with the root node of a root with room as the exception described above; for stored keys see the line before.
- TxStore.Init: the pool file and its opening are not modelled.
- LockedTree.EveryInterleavingIsSafe: the value behind the pointer that `read` returns after unlocking is not modelled, only the value at the time the lock is held; destroying the store while threads run is not modelled either.
- LockedInsert.WriterSection: the sequential insert used is the one over the pool memory; it is the same algorithm as in the locked source file.
- RecordSearch.Search: the inner loop over the keys is one method, `FindSlot`, instead of being repeated.
- EntryStore.Store.Destroy: it does not free the entries, as the source does not.
- Values elsewhere than in `TxValue`: a value is an opaque string that fits its buffer; overwriting replaces it whole.
- Allocation failure: every allocation succeeds.
- Partial persist order in the pmem stores without transactions: there is nothing those stores promise about a crash.
- PMDK, vmem, memkind and pthread internals: a transaction is an undo log, the lock is its specification.
- The transactional record B+-tree (storeds/bplustree_mem_opt/bp_pmem_tx.cc): the snapshot discipline is the one of the transactional B+-tree; that a rollback drops the records allocated in the transaction is not stated.
- The other vmem, memkind, pmem and mutex copies of the trees: the same algorithm with another allocator or lock.
- storeds/bplustree_mem_opt/bp_pmem_concurrent_mlock.cc: its `update_if_found` compares against the array capacity instead of the number of keys, so the search contract is not stated for it.
- storeds/bplustree_mem_opt/bp_pmem.cc: its `recursive_free` frees chain neighbours, so freeing exactly once is not stated for it.
- Array stores, hash tables, generators, workload properties, drivers and factories: plumbing, libraries, floating point and randomness.
- Skip list, red-black tree, hashmap and linked list stores: their sources are not part of this model.
