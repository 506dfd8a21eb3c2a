# sql6: a verified model of the engine's core

sql6 is a small SQL engine.  This project models the parts of it that carry its promises and proves
them, each over every input, every run or every reachable state:

- **The B+Tree over a shared page store** (`Keys`, `Records`, `Storage`, `Trees`, `TreeSteps`,
  `TreeDelete`, `TreeScan`, `BPlusTree`, `TreeRuns`, `TreeInvariants`, `TreeStuck`).  The class edits pages in a
  store; a ghost tree says how they hang together and a map says what they hold.  Insert, search,
  range search, scan and delete, with splits, borrowing, merging and root growth and collapse, are
  proved against the map, for every order the code can handle, alone and for any number of trees
  that share one store.  The store keeps nodes in memory, or encodes them to pages of a file when
  they are written and decodes them when they are read (`NodeSizes`, `Storage`); within limits on keys
  and values both give the same.
- **The write-ahead log and the disk store** (`WalLog`, `Wal`, `WalRuns`), the page cache (`Lru`)
  and the page locks (`PageLock`).  Files are a page map and a sequence of frames.  `RunAndCrash`
  takes any run of auto-commit writes, batches, transactions, allocations and flushes through the
  store, cuts the log or stops a flush at any point, and reopens; `Sessions` goes on from there.
- **The byte forms** (`Wire`, `Codec`, `RowCodec`, `MetaCodec`, `Postings`, `TreePages`): nodes,
  rows, table descriptions, triggers and posting lists, down to little-endian integers and UTF-8;
  a tree whose pages fit is the same tree after being written to bytes and read back.  `Layouts` says
  byte for byte what is written.
- **The full-text index** (`FtsPostings`, `FtsIndex`, `Tokenizer`, `FtsQuery`, `FtsParse`,
  `FtsTable`): posting lists in a B+Tree agree with a naive evaluator over the stored rows.
- **Kernels** (`Calendar`, `Matching`): Julian day arithmetic, instants counted from 1 January 1970,
  GLOB and LIKE.
- **The query front** (`Grammar`, `Descent`, `Complete`, `Sound`, `Printing`, `Parser`,
  `Precedence`): the expression parser accepts exactly the language of a written-out grammar, and
  groups every flat sequence of operators as their classes, listed token by token, say.
- **Planning and running one-table queries** (`Tables`, `Queries`, `Moves`, `Conditions`): key lookup
  against filtered scan, DELETE, and UPDATE with or without new keys; `Conditions` says of the values
  themselves which rows a WHERE clause selects.

Where a promise fails, the model keeps the code as it is and states exactly when it holds:

- A delete panics exactly when a child on its search path becomes too small and has no sibling, so
  that the code asks for child -1 (src/btree/tree.rs:272-273): `BPlusTree.Delete` and `KeysLeft`.
  From order 4 on no tree gets there, at order 3 some do: `OnlyOrderThree`.  Inserting 1, 2, 3 and
  deleting 3 is enough: `DeletePanics`.
- Replay needs fresh transaction ids, but numbering restarts at 1 (src/pager/wal.rs:153):
  `CutRecovery` and `ReusedIdResurrects`.
- A frame with a wrong checksum is passed over and reading goes on, so a committed transaction can
  come back in part (src/pager/wal.rs:355-363): `DamagedReplay` says which writes do, `RecoveredRight`
  which pages are right all the same, and `PartialReplay` has one that is not.
- Rollback takes a dirty copy for a pre-image (src/pager/wal.rs:235): `Transact` says which pages
  come back, and `RollbackLeaks` when the next flush makes rolled-back bytes durable.
- The header's page count is written by a flush and by a new catalog root only, so after a crash
  allocation can hand out a page in use: `AllocAfterCrash`.  The header also has no way to say that
  the catalog's root is page 0 (src/pager/file_btree_storage.rs:101-102): `RootSurvives`.
- A cache in front of the store is not cleared on rollback: `LruCache.RollbackTxn` says which caches
  survive it, and `StaleAfterRollback` is a run of three calls after which one does not.
- Releasing all locks while a guard is live breaks the lock table: `ReleaseAll`.
- A node that does not fit its page is cut off (src/pager/codec.rs:63): `PageRoundTrip`.  Limits on
  keys and values that keep every page of a settled tree (`TreeFits`) are not enough: an insert
  writes a leaf with one record too many and reads it back to split it (src/btree/tree.rs:195-203),
  as in `CutOff`.  `PageBound` counts that in; within it no node is ever cut off (`NodeFits`, and
  `WriteSmall` at every write), and for integer keys it is exact (`IntegerBound`).
- A table description loses column defaults and the high bits of its counters: `MetaRoundTrip`.
- Unix times before 1970 convert back only at midnights: `UnixRoundTrip`, and what that does to
  `weekday`: `WeekdayLands`.
- A lookup by key differs from a filtered scan when the literal is not an integer or text, or when
  keys of the other kind exist, because values of different kinds compare equal
  (src/planner/executor.rs:1829): `PlanExact`, and `ExecSelect` over the stored table.
- A column filter is right for every row exactly if lower-casing leaves the column name alone, since
  terms are lower-cased when looked up but not when stored (src/fts/fts_table.rs:183-185,
  src/fts/index.rs:171): `FilterRight`.
- The words of a row are numbered through all its columns, so a phrase without a filter is also found
  across two of them: `AcrossColumns`, and `InOneColumn` for a single hit.
- Reading a query text panics exactly when some piece of it is a lone quote: `PanicsExactly`.
- An UPDATE that moves keys keeps every row exactly if each new key is free when its turn comes:
  `KeepsEveryRow`.  One that fails on some row leaves the earlier rows rewritten: `ExecUpdate`.
- The parser's header lists NOT as a level of its own and as unary (src/parser/parser.rs:20-30); the
  code accepts neither NOT NOT nor a repeated minus: `NoDoubleNot`, `NoDoubleMinus`, and `Formed` in `Grammar`.

Characters are Unicode scalar values; what the code takes from the Unicode tables (alphanumeric,
whitespace, case) enters as functions that a theorem holds for whatever they are.  Real-valued ranks
of keys occur in proofs only.

## Model

| member | source | states |
|---|---|---|
| `Keys.Less` | src/btree/node.rs:11-15 | the derived order of keys is a total order: it embeds in the reals, and two keys neither of which is less are equal |
| `Keys.KindsOrdered` | src/btree/node.rs:11-15 | between two integers the order of keys is `<` of the numbers, and every integer is below every text |
| `Keys.TextsOrdered` | src/btree/node.rs:11-15 | of two texts the one that is smaller at the first difference is the smaller, or else the one that is a beginning of the other |
| `TextOrder.KeyOrder` | src/btree/node.rs:11-15 | the whole order in one statement: numbers by size, integers before texts, texts by the bytes of their UTF-8 |
| `Keys.IntegersBetween` | src/btree/tree.rs:83-105 | between two integer keys lie exactly the integers that are so as numbers, and no text |
| `TextOrder.TextsAsBytes` | src/btree/node.rs:11-15 | comparing texts by code points, as the model does, is comparing their UTF-8 bytes, as the source does, for all texts |
| `Records.PutIsMap` | src/btree/tree.rs:55-70 | putting a record into a sorted sequence is updating the map it stands for |
| `Records.DropIsMap` | src/btree/tree.rs:107-118 | dropping a key from a sorted sequence is removing it from the map, and shortens it exactly if the key was there |
| `Records.LookupIsMap` | src/btree/tree.rs:73-80 | lookup in the sequence is lookup in the map |
| `Records.ToMapSize` | src/btree/tree.rs:121-121 | a sorted sequence is as long as its map is large |
| `Records.BetweenIsFilter` | src/btree/tree.rs:83-105 | the interval of a sorted sequence is sorted and holds exactly the records whose key lies between both ends, ends included |
| `Records.PutAscending` | src/btree/tree.rs:186-200 | putting keeps strictly ascending keys |
| `Records.DropAscending` | src/btree/tree.rs:247-254 | dropping keeps strictly ascending keys |
| `Storage.PageStore.ReadNode` | src/pager/file_btree_storage.rs:124-128 | reading returns the page last written; on file it decodes the bytes |
| `Storage.PageStore.WriteNode` | src/pager/file_btree_storage.rs:130-138 | in memory every node reads back as written; on file, where it is encoded and cut to a page, a well-formed node does if and only if it fits; no other page changes |
| `NodeSizes.NodeFits` | src/pager/codec.rs:28-64 | within the limits on keys and values and the bound for the order, every node that an operation writes fits, overfull leaves and branches about to be split included |
| `Storage.PageStore.AllocPage` | src/pager/storage.rs:79-84 | page numbers are handed out in order and never twice |
| `Trees.FlatOrdered` | src/btree/tree.rs:127-142 | the records of a well-formed tree, left to right, have strictly ascending keys inside the bounds of the tree |
| `Trees.GoodFrame` | src/btree/tree.rs:153-157 | a tree stays well formed under any change of pages outside its own |
| `Trees.SpliceForest` | src/btree/tree.rs:168-184 | replacing one child of a branch by one or two trees over the same bounds keeps the branch well formed: depth, separators, links, disjoint pages |
| `Trees.FlatSplice` | src/btree/tree.rs:168-184 | such a replacement changes the contents only where the child stood |
| `TreeSteps.UpperBound` | src/btree/tree.rs:159-166 | the child chosen by the search is the one whose key range can hold the key |
| `TreeSteps.LowerBound` | src/btree/tree.rs:186-200 | the position found in a leaf splits its keys into smaller and not smaller |
| `TreeSteps.PutInKid` | src/btree/tree.rs:168-184 | putting below the chosen child is putting into the whole tree |
| `TreeSteps.LookupInKid` | src/btree/tree.rs:73-80 | looking up below the chosen child is looking up in the whole tree |
| `TreeSteps.SplitHalves` | src/btree/tree.rs:220-233 | the halves of a full branch with the middle key between them hold the same children in the same order |
| `TreeSteps.ChildInserted` | src/btree/tree.rs:168-184 | an insert below a child, split or not, is an insert into the branch |
| `TreeSteps.RootGrown` | src/btree/tree.rs:55-70 | a new root over the two halves of the old one is a well-formed tree one level higher with the same contents |
| `TreeDelete.ChildDeleted` | src/btree/tree.rs:235-245 | a delete below a child is a delete from the branch, which may leave that child underfull |
| `TreeDelete.LeafRecut` | src/btree/tree.rs:276-318 | moving one record between neighbouring leaves and renewing the separator keeps contents and shape |
| `TreeDelete.BranchRecut` | src/btree/tree.rs:276-318 | moving one child through the parent's separator keeps contents and shape |
| `TreeDelete.LeavesJoined` | src/btree/tree.rs:320-337 | the records of two neighbouring leaves are one ascending sequence within the bounds of both, and the left leaf links to the right one |
| `TreeDelete.BranchesJoined` | src/btree/tree.rs:320-337 | the children of two neighbouring branches, with the separator between them, are one well-formed forest with the same contents and pages |
| `TreeDelete.RootCollapses` | src/btree/tree.rs:107-118 | a root left without keys can be replaced by its only child: same contents, one level less, well formed |
| `TreeScan.Chain` | src/btree/tree.rs:144-151 | following `next_leaf` from the leftmost leaf visits each leaf exactly once in key order and yields exactly the contents |
| `BPlusTrees.BPlusTree.constructor` | src/btree/tree.rs:39-46 | a new tree of order 3 or more is empty, valid and owns only a page it allocated |
| `BPlusTrees.BPlusTree.Open` | src/btree/tree.rs:48-52 | opening looks at no page and always succeeds; the tree is valid if and only if the pages from its root on hold a tree of that order |
| `BPlusTrees.BPlusTree.Insert` | src/btree/tree.rs:55-70 | for every order from 3 on, in memory and on file within the limits: the map gains exactly this binding, overwriting keeps the length, a true size stays true, only own or new pages change, and every node written reads back |
| `BPlusTrees.BPlusTree.InsertRecursive` | src/btree/tree.rs:168-184 | the subtree, whole or split in two around the returned key, holds the old records and the new one within the old bounds |
| `BPlusTrees.BPlusTree.AbsorbSplit` | src/btree/tree.rs:168-184 | a child's split is absorbed by its parent, which splits in turn when full |
| `BPlusTrees.BPlusTree.InsertIntoLeaf` | src/btree/tree.rs:186-200 | the leaf gains or overwrites one record in key order; `size` grows only for a new key |
| `BPlusTrees.BPlusTree.SplitLeaf` | src/btree/tree.rs:202-218 | two leaves of legal occupancy, linked in the chain, with the old records in order, each half exactly |
| `BPlusTrees.BPlusTree.SplitInternal` | src/btree/tree.rs:220-233 | two branches of legal occupancy with the middle key moved up |
| `BPlusTrees.BPlusTree.Search` | src/btree/tree.rs:73-80 | search is lookup in the map, present or absent |
| `BPlusTrees.BPlusTree.FindLeaf` | src/btree/tree.rs:159-166 | the leaf reached is the only one that can hold the key |
| `BPlusTrees.BPlusTree.FindFirstLeaf` | src/btree/tree.rs:144-151 | descending by first children ends at the head of the leaf chain |
| `BPlusTrees.BPlusTree.ScanAll` | src/btree/tree.rs:127-142 | the walk ends and returns all records in ascending key order; nothing when the tree believes its size is 0; integer keys ascend as numbers |
| `BPlusTrees.BPlusTree.RangeSearch` | src/btree/tree.rs:83-105 | the walk ends and returns exactly the bindings with key in the closed interval, ascending; with integer ends, exactly the bindings whose key is an integer between the two numbers |
| `BPlusTrees.BPlusTree.CollectLeaf` | src/btree/tree.rs:83-105 | one leaf's part of the interval, and whether the walk may stop |
| `BPlusTrees.BPlusTree.Delete` | src/btree/tree.rs:107-118 | for every order from 3 on: the delete panics exactly if `KeysLeft` on the old tree says that a child without sibling became too small, or if the tree held the key while believing it was empty; else the map loses exactly this key, reported truly, and only own pages change; from order 4 on, with a true size, it never panics; and which nodes the tree consists of afterwards |
| `BPlusTrees.BPlusTree.DeleteRecursive` | src/btree/tree.rs:235-274 | the subtree loses exactly the key, stays well formed and is left with the number of keys that `KeysLeft` names, or the descent panics exactly if that is none |
| `BPlusTrees.BPlusTree.Rebalance` | src/btree/tree.rs:256-274 | an underfull child with a sibling is filled or merged, the branch is as before but for one key if neither sibling can lend; without a sibling it steps outside the children |
| `BPlusTrees.BPlusTree.BorrowFromRight` | src/btree/tree.rs:276-296 | one record or child moves left, the separator follows, contents stay |
| `BPlusTrees.BPlusTree.BorrowFromLeft` | src/btree/tree.rs:298-318 | one record or child moves right, the separator follows, contents stay |
| `BPlusTrees.BPlusTree.Merge` | src/btree/tree.rs:320-337 | two siblings become one node of legal size, contents and chain stay |
| `TreeInvariants.EveryNode` | src/btree/tree.rs:168-337 | in every reachable tree, at every path: leaves are exactly the nodes at the tree's height, separators bound each subtree as `keys[i-1] <= k < keys[i]`, and every node below the root keeps its occupancy bounds, for every order from 4 on |
| `TreeInvariants.EvenOrder` | src/btree/node.rs:74-76 | for an even order from 4 on, every node below the root holds between (order-1)/2 and order-2 keys |
| `TreeInvariants.KeylessHalf` | src/btree/tree.rs:220-233 | splitting a full branch leaves its right half without a key exactly at order 3 |
| `TreeDelete.NeverStuck` | src/btree/tree.rs:256-274 | from order 4 on every key can be deleted from every well-formed tree: going down the search path, no child that becomes too small lacks a sibling |
| `TreeStuck.OnlyOrderThree` | src/btree/tree.rs:256-274 | every well-formed tree of an order lets every key be deleted if and only if the order is not 3 |
| `TreeStuck.StuckAtOrderThree` | src/btree/tree.rs:256-274 | the pages that inserting 1, 2, 3 at order 3 leaves form a valid tree, and deleting 3 from it asks for child -1 |
| `TreeStuck.DeletePanics` | src/btree/tree.rs:107-118 | three inserts into a new tree of order 3 and a delete of the last key: the delete panics |
| `TreeRuns.Interleave` | src/pager/storage.rs:39-89 | any interleaving of inserts and deletes on any number of trees sharing a store, in memory or on file, gives each tree the map of its own operations; no tree disturbs another; on file until page numbers run out |
| `TreeRuns.Step` | src/pager/storage.rs:39-89 | one operation on one tree leaves the contents and invariants of all the others |
| `TreeRuns.RunAlone` | src/btree/tree.rs:39-118 | from an empty tree of order 4 or more over a store in memory or on file, every sequence of operations within the limits yields the plain map, the right delete reports and the map's size as length; on file until page numbers run out |
| `TreeRuns.FileAsMemory` | src/pager/file_btree_storage.rs:124-149 | a tree that encodes every node it writes and decodes every node it reads gives any operations within the limits the reports, and is left with the records, of a tree in memory |
| `TreeRuns.LowTree` | src/btree/tree.rs:168-233 | a tree of order 4 or more whose page numbers are u32 is at most 32 levels high, so 34 spare pages are enough for an insert |
| `WalLog.RecoveredExactly` | src/pager/wal.rs:350-381 | replaying any log rebuilds, in log order, the writes of every transaction whose id occurs in some commit frame |
| `WalLog.CrashRecovery` | src/pager/wal.rs:350-381 | with fresh ids, replaying what survives a crash at any frame rebuilds exactly the transactions whose commit frame survived, in commit order |
| `WalLog.CutRecovery` | src/pager/wal.rs:350-381 | after one unfinished transaction, replay is right if and only if that transaction's id is new or its writes change nothing |
| `WalLog.ReusedIdResurrects` | src/pager/wal.rs:153-153 | a log in which a reused id makes an uncommitted write come back |
| `WalLog.DamagedReplay` | src/pager/wal.rs:350-381 | with fresh ids, replaying a log with any damaged frames rebuilds exactly the transactions whose commit frame is whole, each without exactly the writes whose frames are damaged |
| `WalLog.RecoveredRight` | src/pager/wal.rs:350-381 | a page comes back as the transactions with a whole commit frame left it if and only if none of them wrote it, or the frame of the last write to it is whole, or the last whole one carries the same bytes |
| `WalLog.PartialReplay` | src/pager/wal.rs:355-363 | a committed transaction of two pages comes back with one of them |
| `WalLog.WrittenInAnyOrder` | src/pager/wal.rs:176-203 | logging the dirty pages in any order of the map has the same effect |
| `Wals.Wal.Open` | src/pager/wal.rs:137-165 | opening what is left of a log recovers its committed pages; ids start at 1 again |
| `Wals.Wal.Replay` | src/pager/wal.rs:350-381 | the two passes over the log compute the recovered pages |
| `Wals.ReadFrames` | src/pager/wal.rs:355-376 | reading passes over frames whose checksum fails and ends at a torn one |
| `Wals.OpenLog` | src/pager/wal.rs:137-165 | opening a log file in any state recovers what its readable frames commit |
| `Wals.Wal.Begin` | src/pager/wal.rs:169-173 | begin forgets dirty pages and pre-images and touches nothing else |
| `Wals.Wal.Commit` | src/pager/wal.rs:176-203 | the log gains one finished transaction listing the dirty pages under a new id, the committed cache gains them; outside a transaction nothing happens |
| `Wals.Wal.Rollback` | src/pager/wal.rs:206-213 | the committed cache gets the saved pre-images back, dirty pages go, the log stays |
| `Wals.Wal.SaveOriginal` | src/pager/wal.rs:216-220 | only the first pre-image of a page in a transaction is kept |
| `Wals.Wal.WritePage` | src/pager/wal.rs:243-260 | inside a transaction the page is only dirty; outside it is a committed transaction of its own |
| `Wals.Wal.WriteBatch` | src/pager/wal.rs:262-284 | a batch outside a transaction is one committed transaction with the pages in batch order |
| `Wals.Wal.Checkpoint` | src/pager/wal.rs:305-318 | the file gains exactly the committed pages, in any order of writing, and the log is emptied |
| `Wals.Wal.WriteBack` | src/pager/wal.rs:305-318 | stopped after any number of pages, the loop has changed the file in those committed pages only; let run, in all of them |
| `Wals.CheckpointCrash` | src/pager/wal.rs:305-318 | over page images: with any subset of pages written back, or with all and the log gone, replay reads the same committed content, if no unfinished transaction bears the id of a finished one |
| `WalRuns.RunAndCrash` | src/pager/file_btree_storage.rs:23-169 | any run of auto-commit writes, batches, transactions of `write_node`s ending in commit or rollback, allocations, header writes and flushes, from any store at rest, with rolled-back transactions as `Transact` demands: every page reads as the plain map says; after a crash that cuts the log at any frame or stops a flush after any page, the reopened store reads every page as the plain map of what was flushed or whose commit frame survived, and is at rest again, if in the log left no unfinished transaction bears the id of a finished one, as with fresh ids none does |
| `WalRuns.PlainIs` | src/pager/wal.rs:169-284 | the plain map: a page is what the last write to it in the last transaction that wrote it says, before any what the file holds, and 4096 zero bytes if it holds nothing |
| `WalRuns.WritesToIs` | src/pager/wal.rs:229-247 | the first write to a page, and whether there are two |
| `WalRuns.Restart` | src/pager/file_btree_storage.rs:23-54 | opening over any file and any log in which no unfinished transaction bears the id of a finished one gives a store at rest; over an empty log its ids are fresh |
| `WalRuns.Sessions` | src/pager/file_btree_storage.rs:23-169 | any number of sessions that begin with a flush and end in a crash: every page reads as the plain map of what each session kept, which is the first so many of its commits, at least the flushed ones, and all unless the log was cut |
| `WalRuns.RootSurvives` | src/pager/file_btree_storage.rs:71-103 | a catalog root written and read back by reopening survives if and only if it is not page 0, the first page that is allocated |
| `WalRuns.CutReads` | src/pager/wal.rs:350-381 | replaying any prefix of the log over the file reads every page as the plain map after that many commits |
| `WalRuns.HalfFlushedReads` | src/pager/wal.rs:305-318 | with any part of the committed pages written back and the log still there, every page reads as before the flush |
| `WalRuns.RollbackLeaks` | src/pager/wal.rs:206-239 | a rolled-back transaction, a write of another page and a flush: the file holds the old page if and only if it was in the committed cache, or was written at most once, or its first write changed nothing; else rolled-back bytes are durable |
| `WalRuns.DoNumbered` | src/pager/file_btree_storage.rs:71-169 | every event on pages in use keeps them below the page count, and those allocated since the header was written in the file |
| `WalRuns.NumberedAllows` | src/pager/file_btree_storage.rs:140-149 | a store with numbered pages can always allocate: the new page was blank |
| `WalRuns.AllocAfterCrash` | src/pager/file_btree_storage.rs:71-165 | for every such store at rest, after a crash and a reopening: the next page handed out is one in use if and only if the header's page count is behind |
| `Wals.DiskStorage.Open` | src/pager/file_btree_storage.rs:23-54 | after reopening, each page reads as recovered from the log, else as in the file; the page count is the header's |
| `Wals.DiskStorage.ReadNode` | src/pager/file_btree_storage.rs:124-128 | a read sees dirty before committed before file, and blank pages where the file has none |
| `Wals.DiskStorage.WriteNode` | src/pager/file_btree_storage.rs:130-138 | a write changes what is read of that page only, and saves the pre-image the source would save |
| `Wals.DiskStorage.AllocPage` | src/pager/file_btree_storage.rs:140-149 | a new page reads blank and no other page changes |
| `Wals.DiskStorage.Flush` | src/pager/file_btree_storage.rs:153-165 | flushing changes nothing that is read, for any page |
| `Wals.DiskStorage.CommitTxn` | src/pager/file_btree_storage.rs:167-169 | committing changes nothing that is read |
| `Wals.DiskStorage.Transact` | src/pager/wal.rs:206-239 | begin, any writes, rollback: a page reads as before if and only if it was in the committed cache, or was written at most once, or its first write changed nothing |
| `LruCaches.LruCache.ReadNode` | src/pager/storage.rs:143-157 | a faithful cache returns what the store below returns and stays faithful, never over capacity, its access list a duplicate-free list of the cached pages with this one last |
| `LruCaches.LruCache.WriteNode` | src/pager/storage.rs:159-166 | a write goes through; the page is cached and most recent; one page is evicted when full even if this one was cached |
| `LruCaches.LruCache.AllocPage` | src/pager/storage.rs:168-170 | allocation bypasses the cache, which stays faithful if and only if no different content was cached for the new page |
| `LruCaches.LruCache.Flush` | src/pager/storage.rs:176-180 | flushing empties the cache and changes no content |
| `LruCaches.LruCache.RollbackTxn` | src/pager/storage.rs:190-192 | after a rollback the cache is faithful if and only if, before it, every cached page was the one that rolling back restores; every page of the store is then that one |
| `LruCaches.StaleAfterRollback` | src/pager/storage.rs:182-192 | begin, a write and a rollback through a cache of any capacity: the cache answers with the page rolled back, the store with a blank one |
| `LruCaches.LruCache.Run` | src/pager/storage.rs:106-192 | every run of reads, writes, allocations, flushes, begins and commits gives the answers of the store without a cache |
| `LruCaches.TouchedLists` | src/pager/storage.rs:134-139 | moving a page to the end keeps the access list a permutation of the cached pages |
| `PageLocks.PageLockManager.LockShared` | src/pager/page_lock.rs:37-60 | granted exactly if no exclusive guard of the page is live; other pages untouched |
| `PageLocks.PageLockManager.LockExclusive` | src/pager/page_lock.rs:63-89 | granted exactly if no guard of the page is live, with the right error otherwise |
| `PageLocks.PageLockManager.Drop` | src/pager/page_lock.rs:119-139 | dropping a live guard leaves a table that says exactly which guards are live |
| `PageLocks.PageLockManager.ReleaseAll` | src/pager/page_lock.rs:102-105 | clearing the table keeps it right if and only if no guard is live |
| `PageLocks.PageLockManager.Run` | src/pager/page_lock.rs:37-139 | every interleaving of attempts and drops follows the plain rule, entries exist exactly while guards are live, counts are exact |
| `PageLocks.AlwaysExclusive` | src/pager/page_lock.rs:63-89 | after every event of every interleaving, an exclusive guard is alone on its page |
| `PageLocks.NothingLeft` | src/pager/page_lock.rs:119-139 | the table is empty exactly if no guard is live |
| `Wire.Utf8RoundTrip` | src/pager/codec.rs:149-161 | decoding undoes encoding for every text |
| `Wire.Utf8Canonical` | src/pager/codec.rs:149-161 | only the encoding itself decodes |
| `Codec.KeyRoundTrip` | src/pager/codec.rs:67-80 | a key reads back, whatever follows it |
| `Codec.PageRoundTrip` | src/pager/codec.rs:28-64 | a node reads back from its 4096 byte page if and only if its encoding fits the page |
| `Codec.PrefixDecodes` | src/pager/codec.rs:91-146 | what a decoder accepts it has read completely: the bytes beyond do not matter |
| `Layouts.FourBytes` | src/pager/codec.rs:28-64 | a u32 is four bytes, the lowest first |
| `Layouts.EightBytes` | src/pager/codec.rs:67-80 | a u64 is eight bytes, the lowest first |
| `Layouts.Negatives` | src/pager/codec.rs:67-80 | a negative i64 is written as the u64 that is 2^64 greater |
| `Layouts.CharBytes` | src/pager/codec.rs:67-80 | each character by the byte patterns of RFC 3629, section 3, one to four bytes by its range |
| `Layouts.LeafBytes` | src/pager/codec.rs:28-64 | a leaf, byte for byte: its tag, count and link, tagged keys, then values behind their lengths |
| `Layouts.BranchBytes` | src/pager/codec.rs:28-64 | a branch, byte for byte: its tag, count and missing link, keys, then children |
| `Layouts.Padding` | src/pager/codec.rs:63-64 | a page is 4096 bytes: what was written, cut off there or followed by zeros |
| `Codec.EncodeNode` | src/pager/codec.rs:28-64 | the encoder's loops write the specified page, truncated or padded |
| `Codec.DecodeNode` | src/pager/codec.rs:91-146 | the cursor loops read what the specification reads, and fail where it fails |
| `TreePages.TreeFits` | src/pager/codec.rs:28-64 | between two operations every page of a well-formed tree fits if its keys and values are within the bound for settled nodes |
| `TreePages.IntegerBound` | src/pager/codec.rs:28-64 | with integer keys the bound on orders and value lengths holds if and only if the greatest nodes ever written read back |
| `TreePages.LastPut` | src/btree/tree.rs:186-200 | inserting a record into a leaf of the greatest legal size writes that greatest leaf, which is read back to be split |
| `TreePages.CutOff` | src/btree/tree.rs:195-203 | order 64, integer keys, values of 52 bytes: settled pages fit, but the leaf of 63 records that the insert writes takes 4104 bytes and does not read back |
| `TreePages.TreeSurvives` | src/pager/codec.rs:28-146 | a tree whose pages fit is, on the pages decoded from their bytes, the same well-formed tree |
| `TreePages.Reopen` | src/btree/tree.rs:48-52 | opening a tree again from the bytes of its file gives a valid tree with the same contents, order and size, ready for every operation |
| `RowCodec.ValueRoundTrip` | src/table/serialize.rs:35-95 | a value reads back, whatever follows it |
| `RowCodec.RowRoundTrip` | src/table/serialize.rs:21-76 | a row reads back with the column count of its schema |
| `RowCodec.RowBytesInjective` | src/table/serialize.rs:21-76 | rows of one schema with the same bytes are equal |
| `Layouts.RowLayout` | src/table/serialize.rs:35-62 | each kind of value byte for byte, behind its tag |
| `Layouts.RowGrows` | src/table/serialize.rs:21-33 | a row is its values one after the other |
| `RowCodec.Serialize` | src/table/serialize.rs:21-33 | the loop writes the row's values in order |
| `RowCodec.Deserialize` | src/table/serialize.rs:65-76 | the cursor loop reads that many values or fails where the source panics |
| `MetaCodec.MetaRoundTrip` | src/catalog/meta.rs:105-160 | a table description reads back if and only if no column has a default and both counters fit 32 bits; otherwise it reads back without defaults and with truncated counters |
| `Layouts.TableBytes` | src/catalog/meta.rs:105-125 | a table description, byte for byte |
| `Layouts.Tags` | src/catalog/meta.rs:175-182 | the tags of types, flags, timings and events |
| `MetaCodec.EncodeMeta` | src/catalog/meta.rs:105-125 | the encoder's loop writes the specified bytes |
| `MetaCodec.DecodeMeta` | src/catalog/meta.rs:127-160 | the cursor loop reads what the specification reads |
| `MetaCodec.TriggerRoundTrip` | src/catalog/meta.rs:198-307 | a trigger reads back, with or without column list and condition |
| `Layouts.TriggerLayout` | src/catalog/meta.rs:198-241 | a trigger with a column list and a condition, byte for byte |
| `MetaCodec.EncodeTrigger` | src/catalog/meta.rs:198-241 | the encoder writes the specified bytes |
| `MetaCodec.DecodeTrigger` | src/catalog/meta.rs:243-307 | the cursor reads what the specification reads |
| `Postings.ListRoundTrip` | src/fts/index.rs:46-79 | a posting list reads back |
| `Layouts.PostingBytes` | src/fts/index.rs:46-59 | a posting list, byte for byte |
| `Postings.EncodePostingList` | src/fts/index.rs:46-59 | the nested loops write the specified bytes |
| `Postings.DecodePostingList` | src/fts/index.rs:61-79 | the nested cursor loops read what the specification reads |
| `FtsPostings.AddTrue` | src/fts/index.rs:122-132 | adding a document keeps a posting list true: one posting per document with the term, true frequency and offsets, true document count |
| `FtsPostings.RemoveTrue` | src/fts/index.rs:146-156 | retaining the other documents keeps a posting list true, and it is empty exactly when no document has the term |
| `FtsIndex.InvertedIndex.IndexDocument` | src/fts/index.rs:108-134 | after indexing, every entry of the tree is true of the documents with this one added or replaced, and the recorded lengths and count are right |
| `FtsIndex.InvertedIndex.RemoveDocument` | src/fts/index.rs:137-165 | after removal, every entry is true of the remaining documents; an unknown document changes nothing |
| `FtsIndex.InvertedIndex.AddAll` | src/fts/index.rs:122-133 | the order in which the map yields the terms does not matter |
| `FtsIndex.InvertedIndex.Count` | src/fts/index.rs:113-118 | the counts hold exactly the terms of the document with frequency and offsets |
| `FtsIndex.InvertedIndex.DropEntries` | src/fts/index.rs:141-164 | scanning, rewriting and deleting entries removes the document from exactly the lists that name it |
| `FtsIndex.InvertedIndex.SearchTerm` | src/fts/index.rs:170-180 | exactly the documents that contain the lower-cased term |
| `FtsIndex.InvertedIndex.SearchAnd` | src/fts/index.rs:183-209 | exactly the documents that contain all terms; none for no terms |
| `FtsIndex.InvertedIndex.SearchOr` | src/fts/index.rs:212-226 | exactly the documents that contain some term |
| `FtsIndex.InvertedIndex.SearchPhrase` | src/fts/index.rs:229-274 | exactly the documents with the terms at consecutive offsets from some start |
| `Tokenizer.Tokenize` | src/fts/tokenizer.rs:65-110 | the scan yields, for every text, exactly the tokens that the position-by-position rule names |
| `Tokenizer.TokensOrdered` | src/fts/tokenizer.rs:65-110 | offsets strictly ascend and each token is cut out of the normalised text at its offset |
| `Tokenizer.TokenChars` | src/fts/tokenizer.rs:65-110 | tokens are non-empty and consist of ideographs and word characters |
| `Tokenizer.Blocks` | src/fts/tokenizer.rs:23-34 | the ideographs are exactly those of the eight ranges, by number |
| `Tokenizer.Narrowed` | src/fts/tokenizer.rs:42-54 | the full-width forms become the 94 printable ASCII characters in order, the ideographic space a space, before lower-casing; nothing else is replaced |
| `Tokenizer.IdeographTokens` | src/fts/tokenizer.rs:65-110 | a run of ideographs gives each pair of neighbours at its offset, and one alone itself |
| `Tokenizer.WordTokens` | src/fts/tokenizer.rs:65-110 | letters and digits without a gap are one token |
| `Tokenizer.TwoWordTokens` | src/fts/tokenizer.rs:65-110 | two words with another character between them are two tokens, each at its offset |
| `Tokenizer.CjkContiguous` | src/fts/tokenizer.rs:65-110 | the tokens of an ideographic string of length two or more are a contiguous part of the tokens of any text it occurs in |
| `FtsQuery.PrefixMeaning` | src/fts/fts_table.rs:237-245 | rewriting a query with a column prefix is asking it behind that prefix, filters inside filters included |
| `FtsQuery.Agree` | src/fts/fts_table.rs:197-235 | on the doubled tokens of a row the index's reading of a query is the naive evaluator's reading, for all queries with colon-free terms and lower-case columns |
| `FtsQuery.AlwaysLooksUp` | src/fts/fts_table.rs:197-235 | what the index finds for any query, with any lower-casing and any column names, told on the words of the row |
| `FtsQuery.InOneColumn` | src/fts/index.rs:229-274 | an unfiltered phrase that stands somewhere in a row lies inside one column if and only if its words there are of one column |
| `FtsQuery.AcrossColumns` | src/fts/fts_table.rs:173-195 | that every row found for an unfiltered phrase has it inside one column holds if and only if the phrase is of at most one word |
| `FtsQuery.FilterFolds` | src/fts/fts_table.rs:229-233 | a filter looks in the column whose name is the lower-cased filter, for terms, phrases and their combinations |
| `FtsQuery.FilterRight` | src/fts/fts_table.rs:229-233 | a filter finds in every row what it names if and only if lower-casing leaves the column name alone |
| `FtsQuery.FlattenOrMeaning` | src/fts/fts_table.rs:85-91 | flattening disjunctions keeps their meaning |
| `FtsQuery.FlattenAndMeaning` | src/fts/fts_table.rs:93-99 | flattening conjunctions keeps their meaning |
| `FtsParse.ScanKeyword` | src/fts/fts_table.rs:76-83 | the scan finds the first keyword outside quotes |
| `FtsParse.FindKeyword` | src/fts/fts_table.rs:76-83 | the keyword stands there outside quotes, and nowhere earlier |
| `FtsParse.ParseMatchQuery` | src/fts/fts_table.rs:40-74 | the recursive descent computes the specified reading and ends on every text |
| `FtsParse.ReadsOr` | src/fts/fts_table.rs:43-48 | OR outside quotes reads as a disjunction whatever conjunctions surround it |
| `FtsParse.ReadsAnd` | src/fts/fts_table.rs:50-55 | without such an OR, AND outside quotes reads as a conjunction |
| `FtsParse.ReadsFilter` | src/fts/fts_table.rs:64-69 | without keywords outside quotes, a text that is not quoted and whose first colon is at `p` asks for what stands after the colon, among the words of the column named before it only |
| `FtsParse.ReadsNested` | src/fts/fts_table.rs:64-69 | a filter inside a filter asks for words of the column called inner:outer |
| `FtsParse.ReadsWord` | src/fts/fts_table.rs:71-73 | a text without quotes, colon and keyword asks for one word, lower-cased, anywhere or in the column asked for |
| `FtsParse.ReadsQuoted` | src/fts/fts_table.rs:57-62 | a quoted text asks for its tokens, one after the other |
| `FtsParse.TrimParts` | src/fts/fts_table.rs:41-41 | trimming takes whitespace away from both ends and nothing else |
| `FtsParse.ParseColonless` | src/fts/fts_table.rs:57-74 | no term read from any query text holds a colon |
| `FtsParse.ReadsUnquoted` | src/fts/fts_table.rs:40-74 | a query without quotes is always read |
| `FtsParse.PanicsExactly` | src/fts/fts_table.rs:40-74 | reading a query text panics if and only if one of the pieces left by cutting at keywords and colons is a lone quote |
| `FtsParse.PiecesAtomic` | src/fts/fts_table.rs:40-74 | those pieces are trimmed, hold no keyword outside quotes, and no colon unless quoted |
| `FtsParse.QuotesAndPanics` | src/fts/fts_table.rs:57-62 | one quote panics, `a":"` panics, `a"` is read |
| `FtsTables.FtsTable.Insert` | src/fts/fts_table.rs:128-134 | the row is stored under the next row number and the index mirrors the stored rows |
| `FtsTables.FtsTable.InsertWithId` | src/fts/fts_table.rs:137-141 | the row is stored under the given number, which the counter passes |
| `FtsTables.FtsTable.Update` | src/fts/fts_table.rs:144-148 | the row replaces the old one in storage and index |
| `FtsTables.FtsTable.Delete` | src/fts/fts_table.rs:151-154 | the row leaves storage and index |
| `FtsTables.FtsTable.Run` | src/fts/fts_table.rs:128-154 | after any history of changes the stored rows are those of the plain map and the index mirrors them |
| `FtsTables.FtsTable.RowTokens` | src/fts/fts_table.rs:173-194 | the tokens of a row: each word behind its column name and bare, at one offset, numbered through the row |
| `FtsTables.FtsTable.Search` | src/fts/fts_table.rs:157-167 | for every query text that does not panic, exactly the stored rows in which the index reading finds it, with their values; where lower-casing leaves the filters alone these are the rows the naive evaluator accepts |
| `FtsTables.FtsTable.SearchWord` | src/fts/fts_table.rs:157-195 | searching for a word finds exactly the stored rows with that token in one of their values |
| `FtsTables.FtsTable.SearchColumn` | src/fts/fts_table.rs:157-195 | searching for column:word finds exactly the stored rows with that token in the value of that column |
| `FtsTables.FtsTable.SearchQuoted` | src/fts/fts_table.rs:157-195 | searching for a quoted text finds exactly the stored rows whose words have its tokens one after the other |
| `FtsTables.WordsOfRow` | src/fts/fts_table.rs:173-194 | the words of a row are the tokens of its values, each under the name of its value's column |
| `FtsTables.FtsTable.ExecuteQuery` | src/fts/fts_table.rs:197-235 | the recursive evaluation ends and returns exactly the documents whose tokens satisfy the query |
| `FtsTables.CjkPhraseFound` | src/fts/fts_table.rs:173-195 | an ideographic string of length two or more inside a value is found as a phrase in that row, with and without a filter on its column |
| `FtsTables.FtsTable.SearchIdeographs` | src/fts/fts_table.rs:157-195 | searching for a quoted ideographic string of length two or more finds every row in one of whose values it occurs |
| `Matching.GlobMatch` | src/planner/executor.rs:1857-1885 | the table filled in place decides, for all strings and patterns, whether the string can be cut into parts that fit the pattern |
| `Matching.GlobReads` | src/planner/executor.rs:1857-1885 | what `*` and `?` are: a pattern with one of them matches exactly the strings with any part, or any one character, in its place, and a pattern without them only itself |
| `Matching.LikeDecides` | src/planner/executor.rs:1839-1851 | the recursive matcher decides the same relation for `%` and `_` up to case |
| `Matching.LikeReads` | src/planner/executor.rs:1839-1851 | the same for `%` and `_`, the other characters up to case |
| `Matching.EntryStep` | src/planner/executor.rs:1857-1885 | the recurrence of the table follows from the relation |
| `Calendar.FromJulian` | src/planner/datetime.rs:160-171 | day number to date gives a valid Gregorian date that converts back, for every day from 1 March 4801 BC to the last with a 32-bit year |
| `Calendar.ToJulian` | src/planner/datetime.rs:152-158 | date to day number converts back, for every valid date in that span |
| `Calendar.NextIsNext` | src/planner/datetime.rs:152-158 | consecutive dates have consecutive day numbers |
| `Calendar.UnixRoundTrip` | src/planner/datetime.rs:38-51 | Unix time to date and back is the identity if and only if the time is not before 1970 or is a midnight |
| `Calendar.TimeZero` | src/planner/datetime.rs:38-51 | time 0 is 1 January 1970, midnight, both ways |
| `Calendar.Instants` | src/planner/datetime.rs:38-51 | every time from 1970 on is the date that many days after 1 January 1970, counted day by day, at the hour, minute and second of the rest; and that date is that time |
| `Calendar.KnownDates` | src/planner/datetime.rs:38-51 | 29 February 2000 exists and 29 February 2100 does not |
| `Calendar.MidnightsFollow` | src/planner/datetime.rs:38-44 | midnights one day apart, before 1970 too, are on dates that follow each other |
| `Calendar.DateRoundTrip` | src/planner/datetime.rs:38-51 | date to Unix time and back is the identity from 1970 on |
| `Calendar.DaysCompose` | src/planner/datetime.rs:122-150 | adding days composes |
| `Calendar.DaysMove` | src/planner/datetime.rs:122-150 | adding days moves along the days from 1 January 1970, and the time of day stays |
| `Calendar.WeekdayMoves` | src/planner/datetime.rs:122-150 | 1 January 1970 is day 4 of the week, and `weekday w` moves to the first day from this one on whose number is `w` |
| `Calendar.StartsMove` | src/planner/datetime.rs:122-150 | the starts of day, month and year are the midnights of that day, of the last first of a month and of the last 1 January not after it |
| `Calendar.WeekdayLands` | src/planner/datetime.rs:122-150 | `weekday w` lands on that day of the week, at most six days ahead, at the same time of day, if and only if the time it computes converts back; from 1970 on always |
| `Calendar.MonthsAdd` | src/planner/datetime.rs:122-150 | adding months moves the month count by that many, and leaves a valid date exactly when the day exists there; day and time stay |
| `Calendar.YearsAsMonths` | src/planner/datetime.rs:122-150 | adding years is adding twelve times as many months |
| `Descent.Read` | src/parser/parser.rs:873-1033 | every reading uses at least one token, so the descent ends on every token list |
| `Complete.ReadBack` | src/parser/parser.rs:873-1134 | every spelling the grammar allows, with any extra parentheses, is read as its expression up to its end, at every precedence level |
| `Complete.ChainBack` | src/parser/parser.rs:883-1021 | left-leaning chains of one precedence level are read as such |
| `Complete.CompareBack` | src/parser/parser.rs:917-987 | IS, BETWEEN, IN, LIKE, GLOB and comparison operators with their negations are read as spelled |
| `Complete.PrimaryBack` | src/parser/parser.rs:1036-1123 | literals, columns, calls, casts and parentheses are read as spelled |
| `Sound.ReadSound` | src/parser/parser.rs:873-1134 | whatever is read has a derivation in the grammar that spells exactly the tokens used and means the expression returned |
| `Printing.ParsesExactly` | src/parser/parser.rs:873-1134 | before a token that cannot extend an expression, the parser returns an expression if and only if the grammar derives it from the tokens used |
| `Printing.Unambiguous` | src/parser/parser.rs:20-30 | two derivations of the same tokens mean the same expression |
| `Precedence.ReadsGrouped` | src/parser/parser.rs:20-30 | a flat sequence of operands and operators of any length, with parentheses, NOT and minus, is grouped as the classes of its tokens say: OR, AND, NOT, comparisons, `+` `-` and concatenation, `*` `/` `%`, minus, the classes listed token by token |
| `Precedence.TwoOperators` | src/parser/parser.rs:883-1021 | `a s b t c` is `a s (b t c)` if `t` is of a tighter class, else `(a s b) t c`, unless both are comparisons |
| `Precedence.ComparisonsStop` | src/parser/parser.rs:917-987 | comparisons do not chain: the second one is left unread |
| `Precedence.NotReads` | src/parser/parser.rs:905-912 | NOT covers a comparison, addition or multiplication after it, but no AND or OR |
| `Precedence.MinusReads` | src/parser/parser.rs:1024-1031 | a minus covers its operand only |
| `Precedence.NullReads` | src/parser/parser.rs:920-926 | IS NULL and IS NOT NULL |
| `Precedence.BetweenReads` | src/parser/parser.rs:928-937 | BETWEEN and NOT BETWEEN with their two bounds |
| `Precedence.InReads` | src/parser/parser.rs:939-954 | IN and NOT IN with a list of any length |
| `Precedence.PatternReads` | src/parser/parser.rs:956-972 | LIKE, GLOB and their negations |
| `Precedence.CastReads` | src/parser/parser.rs:1070-1080 | a cast to each type |
| `Precedence.DottedReads` | src/parser/parser.rs:1081-1098 | a column of a table, where words for types may be names |
| `Precedence.CallReads` | src/parser/parser.rs:1107-1122 | a call with one argument, DISTINCT, a star or nothing |
| `Precedence.SubqueriesReported` | src/parser/parser.rs:1047-1069 | a SELECT or WITH after a parenthesis, and EXISTS, are reported as a subquery |
| `Printing.RoundTrip` | src/parser/parser.rs:873-1134 | parsing an expression printed with all parentheses, or with only those precedence needs, returns it and stops at the terminator |
| `Printing.NoDoubleNot` | src/parser/parser.rs:905-912 | NOT directly after NOT is an error |
| `Printing.NoDoubleMinus` | src/parser/parser.rs:1024-1031 | a minus directly after a minus is an error, at every level |
| `Parsers.Parser.ParseExpr` | src/parser/parser.rs:873-875 | the method over its position field returns and stops as specified |
| `Parsers.Parser.ParseOr` | src/parser/parser.rs:883-891 | the loop of disjunctions computes the specified chain |
| `Parsers.Parser.ParseAnd` | src/parser/parser.rs:894-902 | the loop of conjunctions computes the specified chain |
| `Parsers.Parser.ParseNot` | src/parser/parser.rs:905-912 | NOT applies to one comparison |
| `Parsers.Parser.ParseComparison` | src/parser/parser.rs:917-987 | the first operand and what follows it, as specified |
| `Parsers.Parser.ParseAddition` | src/parser/parser.rs:990-1004 | the loop of additions computes the specified chain |
| `Parsers.Parser.ParseMultiplication` | src/parser/parser.rs:1007-1021 | the loop of multiplications computes the specified chain |
| `Parsers.Parser.ParseUnary` | src/parser/parser.rs:1024-1031 | minus applies to one primary |
| `Parsers.Parser.ParsePrimary` | src/parser/parser.rs:1036-1098 | primaries as specified; a SELECT inside is reported as such |
| `Parsers.Parser.ParseFunctionCall` | src/parser/parser.rs:1107-1122 | calls with DISTINCT, a star, no arguments or a list |
| `Parsers.Parser.ParseExprList` | src/parser/parser.rs:1126-1133 | the loop of list items, with a trailing comma before a closing parenthesis |
| `Tables.Table.Insert` | src/table/table.rs:54-59 | a row with an integer or text key takes its place in key order, replacing a row with that key; any other row is refused |
| `Tables.Table.Get` | src/table/table.rs:62-66 | exactly the row with that key |
| `Tables.Table.Delete` | src/table/table.rs:78-80 | true exactly if a row had that key; exactly that row goes |
| `Tables.Table.Scan` | src/table/table.rs:83-89 | all rows in key order |
| `Queries.PlanExact` | src/planner/planner.rs:172-217 | for every table and WHERE clause, the plan answers what filtering a full scan answers if and only if it is that scan or looks up a literal of the kind that all keys have |
| `Queries.EqualityOnRow` | src/planner/executor.rs:1817-1831 | an equality on the key column passes a row exactly if the key is the literal or of the other kind |
| `Queries.ExecSelect` | src/planner/planner.rs:172-217 | SELECT with a WHERE clause over the stored table answers exactly the rows that pass, in key order, if and only if the plan is a scan or looks up a literal of the kind that all keys have |
| `Conditions.Compares` | src/planner/executor.rs:1817-1831 | values compare as numbers, as UTF-8 bytes, false before true, NULL before everything else; other values of unlike kinds count as equal |
| `Conditions.ColumnAgainst` | src/planner/executor.rs:1742-1753 | a column against a literal, for all six comparisons: a row passes exactly if its value stands so to the literal |
| `Conditions.NumbersAgainst` | src/planner/executor.rs:1742-1753 | the same for integers, in numbers |
| `Conditions.Connectives` | src/planner/executor.rs:1742-1745 | AND, OR and NOT of conditions pass exactly the rows that both, either or not the one passes |
| `Conditions.ColumnAlone` | src/planner/executor.rs:1807-1815 | a column alone passes a row exactly if its value is true, a number other than 0 or a text that is not empty |
| `Conditions.Tests` | src/planner/executor.rs:1490-1515 | IS NULL, BETWEEN, IN and their negations, said of the values |
| `Conditions.FirstIsKey` | src/planner/executor.rs:1799-1805 | the key of a row is its first value, an integer or a text |
| `Conditions.PlannedAs` | src/planner/planner.rs:172-207 | exactly an equality with the first column, written either way round, is looked up |
| `Conditions.SelectCompared` | src/planner/executor.rs:261-309 | SELECT * WHERE column op literal answers exactly the rows whose value stands so to the literal, in the order of their first values |
| `Conditions.SelectKey` | src/planner/executor.rs:311-317 | SELECT * WHERE key = expression answers the row whose first value is that integer or text, if any; any other expression is an error, a negated number included |
| `Queries.DeleteExact` | src/planner/executor.rs:676-688 | deleting the keys of the selected rows leaves exactly the rows that do not pass |
| `Queries.UpdateExact` | src/planner/executor.rs:650-674 | rewriting the selected rows changes exactly the rows that pass, in place, and keeps every key if the key column is not assigned |
| `Queries.AssignedAt` | src/planner/executor.rs:658-664 | a column gets the value of the last assignment that names it, evaluated on the old row, or stays |
| `Queries.ExecScan` | src/planner/executor.rs:261-317 | running a plan against the stored table gives the plan's answer on its rows |
| `Queries.ExecDelete` | src/planner/executor.rs:676-688 | the stored table keeps exactly the rows that were not answered |
| `Queries.DeleteWhere` | src/planner/executor.rs:676-688 | DELETE with a WHERE clause, by scan or by lookup, leaves exactly the rows that do not pass, and counts the others, whenever the plan answers as the scan does |
| `Conditions.DeleteCompared` | src/planner/executor.rs:676-688 | DELETE WHERE column op literal leaves exactly the rows whose value does not stand so to the literal |
| `Conditions.DeleteKey` | src/planner/executor.rs:676-688 | DELETE WHERE key = expression removes that row and no other, or fails and removes none |
| `Queries.ExecUpdate` | src/planner/executor.rs:650-674 | the answered rows are deleted and put back one after the other with their new values and keys, up to the first that fails to evaluate; success is reported only if none fails; rows whose key is not assigned are rewritten in place |
| `Queries.UpdateWhere` | src/planner/executor.rs:650-674 | UPDATE with a WHERE clause, whenever the plan answers as the scan does: failure is reported if and only if a row that passes fails; if none fails all rows that pass are moved to their new form, and if the key column is not assigned exactly those rows are rewritten in place and every key stays |
| `Conditions.UpdateCompared` | src/planner/executor.rs:650-674 | UPDATE SET column = literal WHERE column op literal changes that column in exactly those rows and nothing else |
| `Queries.MovedInPlace` | src/planner/executor.rs:650-674 | deleting and putting back rows that keep their keys is rewriting them in place |
| `Moves.KeepsEveryRow` | src/planner/executor.rs:650-674 | an update that assigns the key column keeps every row if and only if each new key is free when its turn comes; then the rows are those not updated and the new forms of the others |

## Left out

- Delete: a tree that holds the key but believes its size is 0, as one opened with size 0 does (src/catalog/catalog.rs:61), fails in the subtraction of src/btree/tree.rs:110, as in a build with overflow checks; a build without them wraps. What a panic leaves in the store is stated only for pages outside the tree.
- ScanAll: with a wrong size of 0 it states only the empty result the code gives.
- RunAndCrash: ids are unbounded, so the wrap-around of 32-bit ids is not modelled, nor is the truncation of page counts to 32 bits in the header; pages are not allocated and no flush happens inside a transaction, and an in-flight flush has written whole pages. Its conclusion about a reopened store asks that no unfinished transaction in the log bears the id of a finished one; for logs with one that does, `CutRecovery` is exact.
- CrashRecovery: a crash keeps whole frames. `ReadFrames` adds torn and damaged frames, given as such: the checksum function itself is not modelled, nor is the order in which an operating system persists a file.
- Transact: writes only; page allocation and checkpoints inside the transaction are not part of that theorem.
- RollbackTxn: `LruCache.Run` has no rollback among its operations, since it need not leave the cache faithful.
- ReleaseAll: `PageLockManager.Run` has no release of all locks among its events.
- ReadNode: the cache is placed in front of the disk store and holds page bytes rather than decoded nodes; the codec is proved separately.
- IndexDocument: the index is in memory, as on file a posting list can outgrow its page; fewer than 2^32 documents and tokens, and terms no greater than four times U+10FFFF, which is as far as the removal scan reaches; `FtsTable` derives the latter from its columns not beginning with that noncharacter.
- SearchPhrase: offsets are added without the 32-bit overflow that a release build would wrap.
- Search: scores and their order are left out.
- Sessions: no allocations, and no rolled-back transaction that writes a page twice, so that every event is allowed in every state.
- BPlusTree.Insert: on file it asks for records within the limits and for page numbers left; what a tree does after a node was cut off is not modelled. `DiskStorage` below the tree is modelled on page bytes, apart from it.
- FtsTable.Insert: row numbers below 2^64 and texts shorter than 4 GiB.
- ExecUpdate: new rows are taken to be storable (texts shorter than 4 GiB), and the table to be in memory; triggers, constraints and autoincrement are not modelled.
- Eval: arithmetic, functions, casts, LIKE and GLOB enter through a parameter; LIKE and GLOB are proved on their own in `Matching`.
- WeekdayLands: dates up to a week before the last day of a 32-bit year.
- MonthsAdd: states validity of the resulting date; the code does not clamp the day.
- Subqueries in expressions: the parser model reports where a SELECT would be read.
- The parser beyond expressions, the lexer, and the planner beyond one-table SELECT, DELETE and UPDATE: statements, joins, views, DISTINCT, aggregates, triggers.
- `strftime`, `now`, fractional Julian days, vector search and BM25 scores: floating point, clocks and formatting.
- `Wal::needs_checkpoint`, the bytes of the header, file paths and fsync.
- `DirStorage`, `LsmStorage`, write coalescing and file handle caches.
- `Table::range`, `Catalog` bookkeeping, DDL, PRAGMA, ATTACH, VACUUM and executor-level ROLLBACK.
- The REPL, the servers, JSON handling and the Python package.
