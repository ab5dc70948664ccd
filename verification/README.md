# Verified model of the rucbase storage engine and planner

Rucbase is a small relational database. This project models the parts of it that hold real logic and proves what they
are for. There are five areas.

* **Query planning** (`Relational`, `Planning`, `OneRel`, `PlanShape`, `Dropping`, `Execution`, `Answers`, `Planner`,
  `Catalog`). The planner builds a join tree by editing it in place. The tree is given a meaning on every database. For
  every query it is determined when the plan can be executed, and when it conserves tables and conditions; over distinct
  tables also which rows it yields, and with them exactly when it answers the query. `Relational` is the reference
  meaning, `Planning` and `OneRel` are the tree operations on values, `Dropping`, `Execution` and `Answers` say what
  becomes of each condition, `PlanShape` which scans use an index and in which order the tables are joined, `Planner` is
  the pointer code.
* **Buffer pool** (`Lru`, `PoolState`, `PoolRuns`, `BufferPool`). The pool is a state machine over its operations. Over
  every run it refines a plain map from pages to bytes, and its pin counts are the numbers of users. `BufferPool` is the
  class, which carries out the steps. A run is allowed when its callers fetch only page numbers handed out before, write
  only to pages they hold pinned, report a changed page as dirty by the time its last pin goes (or flush it first), and
  open a file descriptor only when no page of it is resident. The first and third are what the exact conditions below
  show to be needed.
* **Record files** (`Layout`, `RecordFile`, `RecordStore`, `RmFileHandle`, `RmScan`). Bytes of a page, the file they
  stand for, runs of record operations through the pool, the file handle class, persistence over close and open, and
  the scan.
* **Index and catalogue** (`Index`, `CatalogText`, `CatalogStreams`, `Buffers`, `IxHeader`, `LogRecords`). Separator
  repair, the leaf list and its scan; the catalogue's text form; the byte forms of index headers and insert log records.
* **Bipartite matching** (`Matching`). The maximum matching behind unordered element matchers in the vendored test
  library.

`Defs` holds what several of them share. `dafny verify dfyconfig.toml` checks the whole project.

Some properties that one would expect turn out to hold only under a condition. In each such case the model keeps what
the code does, the condition is proved exact, and a lemma gives an input on which the property fails:

* `Answers.AnswersIff`: a comparison within a table other than the first goes to the wrong scan and empties the result
  (`Dropping.MisplacedAlwaysEmpty`, `Answers.MisplacedComparison`), and conditions outside FROM are dropped
  (`Answers.OutsideCondition`).
* `Execution.ExecutableIff`: a condition outside FROM can put a null child into the tree, which the join executor
  dereferences (`Answers.NullChildInput`), and a misplaced comparison in an index scan fails an assertion
  (`Answers.RefusedIndexScan`).
* `PoolState.FetchKeeps`, `PoolState.UnpinClean`, `PoolRuns.UnpinAllowedIff`: a changed page that was never reported
  dirty is evicted (`PoolRuns.DisallowedReleaseLoses`, `PoolRuns.UnreportedChangeLost`).
* `PoolState.NewPageInvIff`: a page number handed out while the page is resident (`PoolRuns.StaleCounterBreaks`).
* `Layout.CapacityGreatestIff`: record sizes for which create_file leaves out a slot that would fit
  (`Layout.SlotLeftOut`).
* `RecordFile.PutKeepsIff`, `RecordFile.DeleteKeepsIff`: inserting at a chosen position, deleting what is not there
  (`RecordFile.PutBehindHead`, `RecordFile.DeleteFromBlank`).
* `RmScan.StartsOnRecordIff`, `RmScan.ScanAll`: a first page without records, where the scan visits a position that is
  no record, and a file without data pages (`RmScan.NoDataPages`).
* `Index.ErasedEnds`, `Index.ScanLeaves`: the first and last leaf, empty leaves (`Index.EndErased`,
  `Index.EmptyLeafStops`).
* `CatalogText.ReadsBackIff`, `CatalogText.ReadsInto`: names with spaces, miscounted indexes
  (`CatalogText.NotReadBack`).
* `IxHeader.HdrReadsBackIff`: columns are appended on reading (`IxHeader.ReadTwiceDoubles`).
* `LogRecords.TotLenIff`: a 32-bit sum (`LogRecords.LongNameWraps`).

The record layer never reports a page as dirty and never unpins it, contrary to the comments that ask for it. The model
follows the code: `RecordStore.RecRunHeld` shows that its pages stay pinned and unmarked over every run, and
`RecordStore.CloseThenOpen` that closing a file still persists it.

## Model

| member | source | states |
|---|---|---|
| `Planner.MakeOneRel` | rucbase-lab/src/optimizer/planner.cpp:142-249 | Main result, on the heap, for every query. The executors of the plan can be built if and only if no join condition puts a null child into the tree and no misplaced comparison meets an index on the first table. For distinct tables the rows of such a plan are known on every database: none if the query is emptied, otherwise the answer to the query without its conditions outside FROM. So the plan answers the query if and only if the query is admissible, or the plan can be executed and neither it nor the query yields anything. In structure the plan covers each table once and carries each condition once exactly for the admissible queries, and then its tables stand in the order the query asks for. Every scan uses an index exactly when the table has one on the columns that the scan's equalities fix, in their order. |
| `Answers.RowsOfPlan` | rucbase-lab/src/optimizer/planner.cpp:142-249 | What a plan that can be executed returns, for every query over distinct tables and every database. |
| `Answers.AnswersIff` | rucbase-lab/src/optimizer/planner.cpp:142-249 | The plan can be executed and its rows are right if and only if the query is admissible, or the plan can be executed and both it and the query yield nothing on the database. |
| `Answers.AnswersIffWithin` | rucbase-lab/src/optimizer/planner.cpp:142-249 | With all conditions on FROM tables: the plan answers the query on a database if and only if the query is admissible, or has no answer there and the first table is not read through an index. |
| `Dropping.MisplacedAlwaysEmpty` | rucbase-lab/src/optimizer/planner.cpp:44-59 | A comparison of two columns of a table other than the first goes to the scan of the first, where no row meets it: no row comes out on any database, for every FROM list and whatever else is asked. |
| `Dropping.UnmetAlwaysEmpty` | rucbase-lab/src/optimizer/planner.cpp:215-227 | A join condition whose left table is outside FROM, and which is the first to name its right table, becomes a join condition that no row meets: no row comes out on any database. |
| `Execution.ExecutableIff` | rucbase-lab/src/optimizer/planner.cpp:142-249 | For every query, repeated tables included: the plan has no null child and no index scan that refuses a condition, so that its executors can be built, exactly when the caller can see that the first join condition stays in FROM, that no later one is the first to name its left table with a right table outside FROM, and that no misplaced comparison meets an index on the first table. |
| `Execution.JoinTreeExecutableIff` | rucbase-lab/src/execution/executor_nestedloop_join.h:29-44 | The join executor dereferences both children: the join tree has no null child exactly when no condition puts one in. |
| `Execution.AcceptedIff` | rucbase-lab/src/execution/executor_index_scan.h:56-64 | The index scan asserts that each condition names its table: all scans of a plan pass unless a misplaced comparison meets an index on the first table. |
| `Dropping.OutsideDropped` | rucbase-lab/src/optimizer/planner.cpp:195-233 | Every other condition outside FROM is dropped: the plan is the one for the query without it. |
| `Answers.MisplacedComparison` | rucbase-lab/src/optimizer/planner.cpp:44-59 | Input on which rows are lost by a plan that can be executed: FROM a, b with a comparison of two columns of b. |
| `Answers.NullChildInput` | rucbase-lab/src/optimizer/planner.cpp:182-193 | Input on which the plan has a null child: FROM a, b WHERE a.x = z.y. The query has no answer, but the plan does not answer it. |
| `Answers.RefusedIndexScan` | rucbase-lab/src/execution/executor_index_scan.h:56-64 | Input on which the index scan refuses a condition: FROM a, b WHERE a.k = v AND b.x = b.y with an index on a.k. |
| `Answers.OutsideCondition` | rucbase-lab/src/optimizer/planner.cpp:163-166 | Input on which rows are added: FROM a with a condition on another table returns all of a, although the query has no answer. |
| `OneRel.CorrectIffAdmissible` | rucbase-lab/src/optimizer/planner.cpp:142-249 | Structure: the plan has every table as a leaf once, every condition once, and join conditions on the matching sides, exactly for the admissible queries, repeated FROM tables included. |
| `OneRel.AdmissibleIsCorrect` | rucbase-lab/src/optimizer/planner.cpp:147-245 | Conservation: for an admissible query each condition is in the plan once, each table is a leaf once, and every join condition has its sides on the matching subtrees. |
| `OneRel.OneRelAnswersQuery` | rucbase-lab/src/optimizer/planner.cpp:142-249 | For an admissible query and every database the rows of the plan are the filtered cross product. |
| `OneRel.TwiceIsBroken` | rucbase-lab/src/optimizer/planner.cpp:239-245 | When the FROM list names a table twice the finished tree holds that table on both sides of some join, whatever the conditions are. |
| `OneRel.ScansAreMade` | rucbase-lab/src/optimizer/planner.cpp:147-161 | After the scans are made no condition is lost or duplicated between the scans and the rest, the rest holds nothing that a scan could take, and every scan reads through an index exactly when the columns its equalities fix, in their order, have one. |
| `OneRel.PointColsFixed` | rucbase-lab/src/optimizer/planner.cpp:26-35 | The columns compared with an index are exactly those that a condition of the scan sets equal to a value, in the order of the conditions. |
| `PlanShape.PlanScans` | rucbase-lab/src/optimizer/planner.cpp:147-161 | In the plan of any query every leaf uses an index exactly when its table has one on just these columns in just this order, and names them. |
| `PlanShape.IndexColumnsFixed` | rucbase-lab/src/optimizer/planner.cpp:26-35 | On every row an index scan returns, each column of the index equals the value that one of the conditions of the scan asks for. |
| `PlanShape.PlanOrder` | rucbase-lab/src/optimizer/planner.cpp:167-245 | For every admissible query the leaves of the tree, from left to right, are in the order read off the query alone: each join condition in turn puts its tables not yet there in front, the left one first, then the other tables of FROM go in front one by one. |
| `OneRel.PlaceAllBuilds` | rucbase-lab/src/optimizer/planner.cpp:195-233 | Placing the join conditions one after the other keeps the accounting invariant: tree, unused scans and remaining conditions together always make up the query. |
| `OneRel.CrossRestCompletes` | rucbase-lab/src/optimizer/planner.cpp:239-245 | Cross-joining the unused scans ends with a well-formed tree over all tables that carries all conditions. |
| `Planning.PopSplits` | rucbase-lab/src/optimizer/planner.cpp:44-59 | pop_conds splits the condition list: what is returned is just what concerns the table, what stays is just the rest, and multiplicities add up. |
| `Planning.PopInOrder` | rucbase-lab/src/optimizer/planner.cpp:44-59 | What pop_conds returns and what it leaves are both in the order of the query. |
| `Planning.PushMisses` | rucbase-lab/src/optimizer/planner.cpp:61-102 | On any tree without repeated tables, null children included, that lacks one of the two tables push_conds changes nothing and reports which side it saw (1, 2 or 0). |
| `Planning.PushAttaches` | rucbase-lab/src/optimizer/planner.cpp:61-102 | On any such tree that holds both tables push_conds returns 3 and attaches the condition at their lowest common ancestor join, with its left column from the left subtree. |
| `Planning.LcaUnique` | rucbase-lab/src/optimizer/planner.cpp:61-102 | There is only one such place and one such tree, so the attachment is fully determined. |
| `Planning.AttachKeeps` | rucbase-lab/src/optimizer/planner.cpp:92-97 | Attaching there keeps the tree well formed, keeps its tables and adds exactly that condition, up to exchanging its sides. |
| `Planning.OnlyAdmissible` | rucbase-lab/src/optimizer/planner.cpp:142-249 | A correct plan whose leaves are the scans that were made can only come from an admissible query. |
| `Relational.SwapKeepsMeaning` | rucbase-lab/src/optimizer/planner.cpp:63-96 | Exchanging the columns of a comparison and turning the operator round (less for greater, at most for at least) keeps its truth on every row. |
| `Relational.RowsMeaning` | rucbase-lab/src/optimizer/planner.cpp:142-249 | Reference meaning of a tree: a row comes out of a well-formed plan exactly when it picks one existing record for each of its tables and satisfies every condition anywhere in the tree. |
| `Relational.CrossMeaning` | rucbase-lab/src/optimizer/planner.cpp:142-249 | Reference meaning of the FROM list: the cross product of distinct tables is all choices of one record for each of them. |
| `Relational.CorrectPlanAnswersQuery` | rucbase-lab/src/optimizer/planner.cpp:142-249 | Any plan that covers the tables and conserves the conditions gives the same rows as the query, on every database. |
| `Planner.PushConds` | rucbase-lab/src/optimizer/planner.cpp:61-102 | The pointer walk that edits the tree in place ends in the tree and return code of the specification, and touches no other node. |
| `Planner.PopConds` | rucbase-lab/src/optimizer/planner.cpp:44-59 | The erase-while-iterating loop removes exactly the popped conditions from the query and returns them in order. |
| `Planner.GetIndexCols` | rucbase-lab/src/optimizer/planner.cpp:26-35 | Collects exactly the columns that a condition sets equal to a value, in the order of the conditions, and reports whether an index on exactly these columns, in this order, exists. |
| `Planner.MakeScans` | rucbase-lab/src/optimizer/planner.cpp:147-161 | The loop over the FROM list makes the specified scans and leaves the specified conditions in the query. |
| `Planner.PopScan` | rucbase-lab/src/optimizer/planner.cpp:104-117 | Takes the first unused scan of a table, marks it used and lists the table as joined; a table without one gives a null plan. |
| `Planner.PlaceCond` | rucbase-lab/src/optimizer/planner.cpp:195-233 | One step of the join loop, with its four cases, does to tree, flags and joined list what the specification says. |
| `Planner.JoinByConds` | rucbase-lab/src/optimizer/planner.cpp:167-237 | First join, join loop and the case without conditions together build the specified join tree. |
| `Planner.CrossUnused` | rucbase-lab/src/optimizer/planner.cpp:239-245 | Every scan not yet used is joined on top, in order. |
| `Catalog.IsIndex` | rucbase-lab/src/system/sm_meta.h:88-102 | Answers true exactly when some index has these column names, in this order and number. |
| `Matching.MatchState.TryAugment` | rucbase-lab/deps/googletest/googlemock/src/gmock-matchers.cc:184-208 | Finds an augmenting path or, failing, leaves the matching as it was and marks a set of right nodes that no path through the given left node can leave; a success never breaks the earlier dead ends. |
| `Matching.MatchState.Compute` | rucbase-lab/deps/googletest/googlemock/src/gmock-matchers.cc:132-163 | One pass over the left nodes gives a matching along edges, with the two arrays inverse to each other, that no matching of the graph exceeds in size. |
| `Matching.CoverBounds` | rucbase-lab/deps/googletest/googlemock/src/gmock-matchers.cc:132-163 | Why one pass is enough: the matched pairs and the accumulated dead ends form a cover, so no matching is larger. |
| `Matching.AugmentKeeps` | rucbase-lab/deps/googletest/googlemock/src/gmock-matchers.cc:184-208 | Augmenting keeps the two arrays mutually inverse and along edges, matches the new left node, and unmatches no other. |
| `Matching.CoversIffSize` | rucbase-lab/deps/googletest/googlemock/src/gmock-matchers.cc:420-446 | A matching covers a side exactly when it is as large as that side, so comparing sizes decides coverage. |
| `Matching.FindPairing` | rucbase-lab/deps/googletest/googlemock/src/gmock-matchers.cc:420-446 | The pairing is accepted if and only if some matching covers the sides the match flags require; for an exact match that is a bijection along edges. |
| `Lru.LruReplacer.Victim` | Lab1/lru_replacer.cpp:23-38 | Takes the frame at the old end of the list and fails exactly on an empty list; list and hash table stay in step. |
| `Lru.LruReplacer.Pin` | Lab1/lru_replacer.cpp:44-53 | The frame leaves the list and the others keep their order; a frame not listed changes nothing. |
| `Lru.LruReplacer.Unpin` | Lab1/lru_replacer.cpp:59-67 | The frame enters at the young end unless it is listed already, in which case it keeps its place. |
| `Lru.LruReplacer.Size` | Lab1/lru_replacer.cpp:73-76 | The number of frames that can be evicted. |
| `PoolRuns.RunRefines` | Lab1/buffer_pool_manager.cpp:35-226 | Main result. Over every run of allowed operations the pool refines a plain map from page to bytes: only client writes and new pages change it, and every state satisfies the invariants. |
| `PoolRuns.RunCounts` | Lab1/buffer_pool_manager.cpp:59-124 | Over every run of allowed operations the pin count of every page is the number of its users: the fetches and allocations that returned it, less the releases that succeeded. |
| `PoolRuns.RunHolds` | Lab1/buffer_pool_manager.cpp:59-210 | Over every run a page that always has a user left is never evicted: it keeps its frame. |
| `PoolRuns.UsedStays` | Lab1/buffer_pool_manager.cpp:59-210 | No operation moves or evicts a page that has a user. |
| `PoolRuns.FetchFailsIff` | Lab1/buffer_pool_manager.cpp:59-88 | A fetch fails exactly when the page is not resident and every frame holds a page with a user. |
| `PoolRuns.StepKeeps` | Lab1/buffer_pool_manager.cpp:18-226 | Every operation keeps the whole-state invariant: each frame is on the free list once or mapped by the one table entry that matches its id, the LRU list has no duplicates and holds the resident unpinned frames, unpinned clean frames equal their disk page, and the list is in order of release. |
| `PoolRuns.StepLogical` | Lab1/buffer_pool_manager.cpp:35-226 | What each operation does to the contents of every page, resident or not. |
| `PoolRuns.FreshWorld` | rucbase-lab/src/storage/buffer_pool_manager.h:37-53 | A newly built pool satisfies the invariants and stands for the disk as it is. |
| `PoolRuns.FetchReturnsStored` | Lab1/buffer_pool_manager.cpp:59-88 | A successful fetch returns the bytes the plain map holds. |
| `PoolRuns.VictimLeastRecent` | Lab1/buffer_pool_manager.cpp:18-27 | With no free frame, the victim is unpinned and was released before every other unpinned frame. |
| `PoolState.VictimUnlessAllPinned` | Lab1/buffer_pool_manager.cpp:18-27 | There is no victim if and only if no frame is free and every frame is pinned. |
| `PoolState.VictimIdle` | Lab1/buffer_pool_manager.cpp:18-27 | A victim is never pinned; it is a free frame, or, with none left, a resident frame. |
| `PoolState.FreeInOrder` | Lab1/buffer_pool_manager.cpp:18-27 | Free frames are taken in the order they were freed, before the replacer is asked. |
| `PoolState.FetchKeeps` | Lab1/buffer_pool_manager.cpp:59-88 | Fetching keeps the invariant, and keeps the contents of all pages exactly when the page is resident or the victim may be dropped: it is dirty, or equal to its disk page. |
| `PoolState.FetchReturns` | Lab1/buffer_pool_manager.cpp:59-88 | Fails exactly for a page that is not resident while every frame is pinned, and then changes nothing; otherwise the frame returned is mapped to the page, holds its contents and has one user more than the page had before, and every other frame is as it was. |
| `PoolState.FetchAddsUser` | Lab1/buffer_pool_manager.cpp:59-88 | A fetch adds one user to the page and none to any other; the frame is the page's own, dirty as before, or one that had no user, clean now. |
| `PoolState.NewPageInvIff` | Lab1/buffer_pool_manager.cpp:154-176 | A new page keeps the invariant exactly when the number handed out is not that of a page resident in another frame. |
| `PoolState.NewPageKeeps` | Lab1/buffer_pool_manager.cpp:154-176 | When page numbers are handed out past all resident pages the invariant is kept; the call fails exactly when every frame is pinned, and then changes nothing, the allocation counter included. |
| `PoolState.NewPageReturns` | Lab1/buffer_pool_manager.cpp:154-176 | The page returned was not resident, is zeroed and pinned, and is page 0 in a file that has handed out none; all other contents stay exactly when the victim may be dropped. |
| `PoolState.NewPageAddsUser` | Lab1/buffer_pool_manager.cpp:154-176 | The new page has one user, every other page as many as before; the counter of the file moves on by one and no other counter moves. |
| `PoolState.UnpinKeeps` | Lab1/buffer_pool_manager.cpp:96-124 | Unpinning succeeds exactly for a resident pinned page and then takes one user away; it keeps the invariant and changes no contents. |
| `PoolState.UnpinTakesUser` | Lab1/buffer_pool_manager.cpp:96-124 | A release takes one user from the page and none from any other, marks the page dirty if it was or is reported so, and touches no other frame; a page without users stays as it is. |
| `PoolState.UnpinClean` | Lab1/buffer_pool_manager.cpp:96-124 | Releasing the last pin keeps unpinned clean frames equal to disk exactly when the page carries the dirty mark or equals its disk page. |
| `PoolRuns.UnpinAllowedIff` | Lab1/buffer_pool_manager.cpp:96-124 | Releasing a page keeps the whole-state invariant if and only if the caller has reported its changes as dirty, or made none since the page was last written through. |
| `PoolRuns.DisallowedReleaseLoses` | Lab1/buffer_pool_manager.cpp:35-124 | On contents: after any other release of a page that differs from disk, evicting its frame leaves the page with its old bytes. |
| `PoolRuns.UnreportedChangeLost` | Lab1/buffer_pool_manager.cpp:35-124 | Input on which contents are lost: in a pool of one frame a changed page released without the dirty mark is forgotten by the next fetch of another page. |
| `PoolRuns.StaleCounterBreaks` | Lab1/buffer_pool_manager.cpp:59-176 | Input on which the page table breaks: a page fetched before its number is handed out is mapped from two frames after it is. |
| `PoolState.FlushFrameKeeps` | Lab1/buffer_pool_manager.cpp:131-147 | Flushing writes the page through, marks it clean, and changes no contents and no other frame. |
| `PoolState.FlushReturns` | Lab1/buffer_pool_manager.cpp:131-147 | Flushing succeeds exactly for a resident page; then the disk holds its bytes, the page is clean, and no other disk page or frame changes. |
| `PoolState.DeleteInv` | Lab1/buffer_pool_manager.cpp:183-210 | Deleting keeps the frame, table and list invariants, whatever the page. |
| `PoolState.DeleteKeeps` | Lab1/buffer_pool_manager.cpp:183-210 | Deleting fails exactly for a pinned page, leaves the page not resident on success, and changes no contents and no user counts. |
| `PoolState.DeleteFrees` | Lab1/buffer_pool_manager.cpp:183-210 | Deleting a resident page writes it out and puts its frame last on the free list; the frame also stays in the replacer. |
| `PoolState.WriteKeeps` | rucbase-lab/src/storage/page.h:62 | A client write to a pinned page sets that page and no other. |
| `PoolState.FlushAllKeeps` | Lab1/buffer_pool_manager.cpp:216-226 | Flushing a file keeps the invariant, all contents and the set of resident pages. |
| `PoolState.FlushAllPersists` | Lab1/buffer_pool_manager.cpp:216-226 | After flushing a file every page of it is on disk as it stood, dirty flag or not. |
| `PoolState.FlushAllCleans` | Lab1/buffer_pool_manager.cpp:216-226 | Flushing a file leaves no page of it dirty and changes no other dirty mark. |
| `PoolState.FlushAllOthers` | Lab1/buffer_pool_manager.cpp:216-226 | Frames and disk pages of other files are untouched. |
| `BufferPool.BufferPoolManager.constructor` | rucbase-lab/src/storage/buffer_pool_manager.h:37-53 | All frames free, nothing resident, disk unchanged. |
| `BufferPool.BufferPoolManager.FindVictimPage` | Lab1/buffer_pool_manager.cpp:18-27 | Takes a free frame first, then the replacer victim, and reports whether there was one. |
| `BufferPool.BufferPoolManager.UpdatePage` | Lab1/buffer_pool_manager.cpp:35-52 | A dirty page is written back before its frame is given to another page; the table drops the old page and maps the new one. |
| `BufferPool.BufferPoolManager.FetchPage` | Lab1/buffer_pool_manager.cpp:59-88 | The object goes through the step of the state machine that the run theorems speak about; a page returned has one user more. |
| `BufferPool.BufferPoolManager.UnpinPage` | Lab1/buffer_pool_manager.cpp:96-124 | The object goes through the unpin step; a release that succeeds takes one user away. |
| `BufferPool.BufferPoolManager.FlushPage` | Lab1/buffer_pool_manager.cpp:131-147 | The object goes through the flush step. |
| `BufferPool.BufferPoolManager.NewPage` | Lab1/buffer_pool_manager.cpp:154-176 | The object goes through the new-page step; it stays valid when counters are past all resident pages. |
| `BufferPool.BufferPoolManager.DeletePage` | Lab1/buffer_pool_manager.cpp:183-210 | The object goes through the delete step. |
| `BufferPool.BufferPoolManager.FlushAllPages` | Lab1/buffer_pool_manager.cpp:216-226 | The loop over all frames amounts to the flush-all step. |
| `BufferPool.BufferPoolManager.MarkDirty` | rucbase-lab/src/storage/buffer_pool_manager.h:64 | The object goes through the mark step. |
| `PoolState.MarkKeeps` | rucbase-lab/src/storage/buffer_pool_manager.h:64 | Marking sets the dirty mark of that page alone and keeps the invariant and all contents. |
| `BufferPool.DiskManager.WritePage` | Lab1/disk_manager.cpp:32-44 | A page write replaces that page and no other. |
| `BufferPool.DiskManager.ReadPage` | Lab1/disk_manager.cpp:53-65 | Returns the last bytes written, zeros for a page never written. |
| `BufferPool.DiskManager.AllocatePage` | Lab1/disk_manager.cpp:72-76 | Returns the counter of the file and advances it by one; other files keep theirs. |
| `Layout.CapacityFits` | rucbase-lab/src/record/rm_manager.h:46-49 | For every page size, header size below it and record size of at least one, the computed number of slots fits with header and bitmap into the page, is positive exactly when one record could fit at all, and is the quotient of the formula. |
| `Layout.CapacityGreatestIff` | rucbase-lab/src/record/rm_manager.h:46-49 | No more slots would fit if and only if at least seven bits of the page are left over; otherwise exactly one more would. |
| `Layout.SlotLeftOut` | rucbase-lab/src/record/rm_manager.h:46-49 | Input on which one more would: one-byte records get 3622 slots where 3623 fit. |
| `Layout.LittleEndian` | rucbase-lab/src/record/rm_defs.h:22-34 | The four bytes of an integer are its residue modulo 2 to the 32 in base 256, least significant first, and are read as the signed number they stand for. |
| `Layout.PageLayout` | rucbase-lab/src/record/rm_file_handle.h:31-40 | Where things are on a page: the next free page at byte 4, the record count at byte 8, bit i in byte 12 + i / 8 counting from the highest bit, and the slots one after the other behind the bitmap. |
| `Layout.SlotFits` | rucbase-lab/src/record/rm_file_handle.h:31-40 | With the real layout every slot lies behind the bitmap and inside the page, and every bit inside the bitmap. |
| `Layout.WithBitMeaning` | rucbase-lab/src/record/bitmap.h:25-31 | Setting or clearing a bit with a mask changes that bit of the byte and no other. |
| `Layout.SetBitView` | rucbase-lab/src/record/bitmap.h:25-31 | Setting or clearing one bit of the page changes that bit and no other bit, slot or header field. |
| `Layout.PutSlotView` | rucbase-lab/src/record/rm_file_handle.h:38-40 | Writing one slot changes that slot and no other slot, bit or header field. |
| `Layout.ClearBitmapView` | rucbase-lab/src/record/bitmap.h:22 | Clearing the bitmap clears all bits and changes no slot or header field. |
| `Layout.SetNextView` | Lab1/rm_file_handle.cpp:88-102 | Writing the next-free field changes nothing else on the page. |
| `Layout.SetNumView` | Lab1/rm_file_handle.cpp:37-57 | Writing the record count changes nothing else on the page. |
| `Layout.Int32RoundTrip` | rucbase-lab/src/record/rm_manager.h:34-55 | A four-byte integer reads back as written exactly when it is in range. |
| `RecordFile.InsertKeeps` | Lab1/rm_file_handle.cpp:37-57 | Inserting uses an unused position, adds exactly that record, and keeps the file invariant: counts equal set bits, pages are numbered densely, and the free chain is acyclic, ends in a negative number and lists exactly the pages with room. |
| `RecordFile.InsertPlace` | Lab1/rm_file_handle.cpp:37-57 | The position is on the head of the free chain, or on a new last page, and is the first slot there without a record. |
| `RecordFile.PutKeepsIff` | Lab1/rm_file_handle.cpp:64-80 | Inserting at a chosen position keeps the invariant if and only if the position is unused and, should the page become full, the page is the head of the free chain. |
| `RecordFile.PutLookup` | Lab1/rm_file_handle.cpp:64-80 | It stores exactly that record, whatever was there. |
| `RecordFile.PutBehindHead` | Lab1/rm_file_handle.cpp:64-80 | Input on which the free chain is lost, in any file: two new pages, and the first of them filled slot by slot. Every put may be made until the last, which drops the head of the chain. |
| `RecordFile.DeleteFromBlank` | Lab1/rm_file_handle.cpp:88-102 | Input on which the count is lost: deleting from a blank page. |
| `RecordFile.DeleteKeepsIff` | Lab1/rm_file_handle.cpp:88-102 | Deleting removes exactly that record, leaves the bytes of every slot, and keeps the invariant if and only if there was one. |
| `RecordFile.UpdateKeeps` | Lab1/rm_file_handle.cpp:110-120 | Updating replaces the bytes of that record alone, keeps the invariant, and creates no record where there was none, although the slot has the new bytes. |
| `RecordFile.AddPageKeeps` | Lab1/rm_file_handle.cpp:148-163 | A new page, the one after the last, keeps the invariant, heads the free chain and adds no record. |
| `RecordFile.ChainUnique` | Lab1/rm_file_handle.cpp:148-194 | Header and links determine the chain: there is only one list of free pages. |
| `RecordStore.RecRunKeeps` | Lab1/rm_file_handle.cpp:19-120 | Main result. Over every run of record operations, mixed with any use of the pool for other files, the bytes behind the pool refine a map from record position to record, and the store invariant holds throughout. |
| `RecordStore.RecStepKeeps` | Lab1/rm_file_handle.cpp:19-120 | Each operation does to the map what it says: insert adds at an unused position, delete and update touch only theirs, reading touches nothing. |
| `RecordStore.InsertEffect` | Lab1/rm_file_handle.cpp:37-57 | The bytes left by an insertion decode to the file with that record added. |
| `RecordStore.InsertAtEffect` | Lab1/rm_file_handle.cpp:64-80 | The bytes left by inserting at a position decode to the file with that record put, and the store invariant survives if and only if the position may be used. |
| `RecordStore.RemoveEffect` | Lab1/rm_file_handle.cpp:88-102 | The bytes left by a deletion decode to the file without that record, its page back on the chain if it was full, and the store invariant survives if and only if there was a record. |
| `RecordStore.UpdateEffect` | Lab1/rm_file_handle.cpp:110-120 | The bytes left by an update decode to the file with that record replaced. |
| `RecordStore.OpenEffect` | Lab1/rm_file_handle.cpp:171-182 | Getting a page with room pins the head of the free chain, making a new page if there is none. |
| `RecordStore.OpenNewEffect` | Lab1/rm_file_handle.cpp:148-163 | The new page decodes to an empty page linked in front; the allocation counter equals the page count again. |
| `RecordStore.FetchEffect` | Lab1/rm_file_handle.cpp:130-142 | Fetching a data page changes nothing in the file. |
| `RecordStore.RecRunHeld` | Lab1/rm_file_handle.cpp:19-182 | Over every run the cached pages of the file stay pinned and none is ever marked dirty. |
| `RecordStore.ReadReturns` | Lab1/rm_file_handle.cpp:19-29 | Reading a stored record gives the bytes last written to it. |
| `RecordStore.HdrRoundTrip` | rucbase-lab/src/record/rm_manager.h:51-54 | The file header reads back from its bytes, whatever follows them, and its five fields are the numbers at bytes 0, 4, 8, 12 and 16. |
| `RecordStore.HdrPlaces` | rucbase-lab/src/record/rm_defs.h:22-28 | Reading any header page gives the record size from byte 0, the page count from 4, the slots per page from 8, the first free page from 12 and the bitmap size from 16. |
| `RecordStore.CloseDisk` | rucbase-lab/src/record/rm_manager.h:77-83 | After closing, the header page on disk holds the fields of the header in memory at their places and every other page is on disk as it stood. |
| `RecordStore.CloseThenOpen` | rucbase-lab/src/record/rm_manager.h:77-83 | Closing after any run leaves a disk image from which a new pool and handle get the same header, records and free chain, whatever the dirty marks are. |
| `RmFileHandle.RmFileHandle.constructor` | rucbase-lab/src/record/rm_file_handle.h:55-63 | The fields of the header are the numbers at bytes 0, 4, 8, 12 and 16 of page 0, and the allocation counter is the page count. |
| `RmFileHandle.RmFileHandle.FetchPageHandle` | Lab1/rm_file_handle.cpp:130-142 | Returns the pinned frame with the bytes of the page; contents of the file unchanged. |
| `RmFileHandle.RmFileHandle.CreateNewPageHandle` | Lab1/rm_file_handle.cpp:148-163 | Makes the new page as specified, pinned and at the head of the free chain. |
| `RmFileHandle.RmFileHandle.CreatePageHandle` | Lab1/rm_file_handle.cpp:171-182 | Gives the head of the free chain, or a new page. |
| `RmFileHandle.RmFileHandle.InsertRecord` | Lab1/rm_file_handle.cpp:37-57 | Returns the position used; the contents are the old contents with the record there; the handle stays valid. |
| `RmFileHandle.RmFileHandle.GetRecord` | Lab1/rm_file_handle.cpp:19-29 | Returns the bytes in the slot, which are the record if there is one, an error exactly for the invalid page number, and changes nothing. |
| `RmFileHandle.RmFileHandle.TryFetchPage` | Lab1/rm_file_handle.cpp:130-142 | Gives the page with the bits of the file, or nothing exactly when the pool has no frame for it; the contents stay. |
| `RmFileHandle.RmFileHandle.IsRecord` | rucbase-lab/src/record/rm_file_handle.h:69-72 | Tells whether there is a record at the position. |
| `RmFileHandle.RmFileHandle.InsertRecordAt` | Lab1/rm_file_handle.cpp:64-80 | The file decodes to the old contents with the record put, and the handle stays valid if and only if the position may be used; an invalid page number changes nothing. |
| `RmFileHandle.RmFileHandle.DeleteRecord` | Lab1/rm_file_handle.cpp:88-102 | The file decodes to the old contents without the record, and the handle stays valid if and only if there was one; an invalid page number changes nothing. |
| `RmFileHandle.RmFileHandle.UpdateRecord` | Lab1/rm_file_handle.cpp:110-120 | Replaces the bytes of the record; an invalid page number changes nothing. |
| `RmFileHandle.NextBitOf` | rucbase-lab/src/record/bitmap.h:41-48 | The search over the bitmap bytes finds the next position with the wanted bit, or the number of slots. |
| `RmFileHandle.CreateFile` | rucbase-lab/src/record/rm_manager.h:34-55 | Refuses record sizes outside 1 to 512 and changes nothing; otherwise page 0 holds, each at its place, the record size, one page, the number of slots the formula gives, no free page, and the bytes these slots' bits take. |
| `RmFileHandle.CreatedEmpty` | rucbase-lab/src/record/rm_manager.h:34-55 | Opening a file just created gives a store that satisfies the invariant and holds no record. |
| `RmFileHandle.CloseFile` | rucbase-lab/src/record/rm_manager.h:77-83 | Leaves each header field at its place in page 0 on disk and flushes the pages of the file, as the persistence results assume. |
| `RmFileHandle.CreateThenOpen` | rucbase-lab/src/record/rm_manager.h:34-70 | Creating a file and opening it in a database just started gives a valid handle on no records. |
| `RmFileHandle.CloseThenReopen` | rucbase-lab/src/record/rm_manager.h:67-83 | Closing a file and opening it in a database just started gives a valid handle on the same header and contents. |
| `RmScan.ScanAll` | Lab1/rm_scan.cpp:18-66 | On a file with data pages the scan gets through if and only if the pool has an idle frame for every data page not held yet (the scan pins pages and releases none). Then it visits every record exactly once, in page and slot order, if and only if page 1 holds a record; otherwise it visits first a position that is no record. The contents stay. |
| `RmScan.FetchSlack` | Lab1/rm_scan.cpp:22-50 | Each page newly pinned takes one idle frame, and a fetch fails only when none is left; so idle frames minus pages still to be held never changes. |
| `RmScan.StartsOnRecordIff` | Lab1/rm_scan.cpp:18-32 | The scan starts on a record, and then on the first one, if and only if page 1 holds a record; otherwise it stands on a position that is neither a record nor the end. |
| `RmScan.NoDataPages` | Lab1/rm_scan.cpp:18-32 | A file without data pages, where the scan stands on page 0 and not at the end. |
| `RmScan.NextFollows` | Lab1/rm_scan.cpp:37-54 | From any position of the file the next one is the nearest later record, or the end. |
| `RmScan.RmScan.Begin` | Lab1/rm_scan.cpp:18-32 | Stands where the constructor puts it, with page 1 held, or stops for want of a frame. |
| `RmScan.RmScan.Advance` | Lab1/rm_scan.cpp:37-54 | The loop over pages and bits ends on the next position, with every page up to it held, or stops for want of a frame. |
| `RmScan.RmScan.IsEnd` | Lab1/rm_scan.cpp:59-66 | The end is recognised exactly behind the last page. |
| `Index.IxIndexHandle.MaintainParent` | rucbase-lab/src/index/ix_index_handle.cpp:460-477 | If every parent entry is the first key of its child, except perhaps the entry for the given node, then afterwards all are, in spite of the early stop; only separators of inner nodes change, leaves and links do not, and the loop ends on every finite tree. |
| `Index.RepairMovesUp` | rucbase-lab/src/index/ix_index_handle.cpp:464-473 | Repairing one entry leaves at most the parent itself with a wrong entry. |
| `Index.RankUnique` | rucbase-lab/src/index/ix_index_handle.cpp:464-470 | Stopping at an equal key is right: the entry found is the only one for that child. |
| `Index.IxIndexHandle.FindChild` | rucbase-lab/src/index/ix_index_handle.h:148-157 | Finds the entry that points to the child. |
| `Index.IxIndexHandle.MaintainChild` | rucbase-lab/src/index/ix_index_handle.cpp:508-516 | If all other children of an inner node know it as their parent, afterwards all do; nothing but that parent field changes, and at a leaf nothing at all. |
| `Index.IxIndexHandle.EraseLeaf` | rucbase-lab/src/index/ix_index_handle.cpp:484-494 | The leaf list with its header page stays a circular doubly linked list, now without that leaf, down to the header alone; no node changes otherwise, and the erased leaf not at all. |
| `Index.UnlinkKeepsRing` | rucbase-lab/src/index/ix_index_handle.cpp:484-494 | Unlinking one page of a circular list leaves the circular list of the others in their order. |
| `Index.ErasedEnds` | rucbase-lab/src/index/ix_index_handle.cpp:484-494 | The first and last leaf named in the file header still name the ends of the list exactly when an inner leaf was erased: erase_leaf leaves these fields alone. |
| `Index.EndErased` | rucbase-lab/src/index/ix_index_handle.cpp:484-494 | Input on which they do not: a list of two leaves, and the first erased. |
| `Index.CreatedOk` | rucbase-lab/src/index/ix_manager.h:98-128 | A new index file has a consistent tree and leaf list. |
| `Index.RingChain` | rucbase-lab/src/index/ix_index_handle.cpp:402-418 | A consistent leaf list whose ends the header names is a chain that a scan can follow. |
| `Index.ScanLeaves` | rucbase-lab/src/index/ix_scan.cpp:17-29 | The scan from the first position to the end gets through, failing no assertion, if and only if no leaf but the last is empty, and then visits every entry of every leaf in order. |
| `Index.EmptyLeafStops` | rucbase-lab/src/index/ix_scan.cpp:17-29 | Input on which it does not: a list of two leaves, the first empty. |
| `Index.EntriesOnce` | rucbase-lab/src/index/ix_scan.cpp:17-29 | The positions so visited are all positions of all leaves, each once. |
| `Index.IxScan.Next` | rucbase-lab/src/index/ix_scan.cpp:17-29 | Moves to the next slot, or to the first slot of the next leaf. |
| `Index.IxIndexHandle.LeafBegin` | rucbase-lab/src/index/ix_index_handle.cpp:415-418 | Where a scan stands that has visited nothing. |
| `Index.IxIndexHandle.LeafEnd` | rucbase-lab/src/index/ix_index_handle.cpp:402-407 | Where a scan stands that has visited every entry of every leaf, when no leaf but the last is empty. |
| `CatalogText.ReadsBackIff` | rucbase-lab/src/system/sm_meta.h:187-204 | Main result. Printing any catalogue and reading the text into an empty one gives the catalogue back if and only if all names are non-empty words, every index counts its columns rightly (a negative count standing for none), numbers fit their types and every table is stored under its own name. |
| `CatalogText.ReadsInto` | rucbase-lab/src/system/sm_meta.h:195-204 | Read into a catalogue that is not empty, the printed tables are added to it, replacing those of the same name; the result is the printed catalogue exactly when every table that was there is among the printed ones. |
| `CatalogText.NotReadBack` | rucbase-lab/src/system/sm_meta.h:31-65 | Inputs that do not read back: a name of two words, an index that counts more columns than it has. |
| `CatalogText.TabReadsBack` | rucbase-lab/src/system/sm_meta.h:127-154 | A table reads back with its columns and indexes, and what follows it is left unread. |
| `CatalogText.IndexReadsBack` | rucbase-lab/src/system/sm_meta.h:49-65 | An index reads back with its columns. |
| `CatalogText.ColReadsBack` | rucbase-lab/src/system/sm_meta.h:31-39 | A column reads back, with its type code, signed numbers and flag. |
| `CatalogText.ColumnForm` | rucbase-lab/src/system/sm_meta.h:31-35 | A printed column, character by character: table, name, type code, length, offset and flag. |
| `CatalogText.IndexForm` | rucbase-lab/src/system/sm_meta.h:49-55 | A printed index of two columns: name, length and count on a line, then a line for each column. |
| `CatalogText.TableForm` | rucbase-lab/src/system/sm_meta.h:127-137 | A printed table of two columns and an index: name, column count, columns, index count and index, line by line. |
| `CatalogText.CatalogueForm` | rucbase-lab/src/system/sm_meta.h:187-193 | A printed catalogue of two tables: name, table count, and the tables in the order of their names, each with an empty line behind it. |
| `CatalogText.NumberReadsBack` | rucbase-lab/src/defs.h:22-34 | A number of any size and sign, printed in decimal, reads back. |
| `CatalogText.SignsRead` | rucbase-lab/src/system/sm_meta.h:139-154 | A plus sign is read over, and a minus sign in front of a size wraps around. |
| `CatalogText.TabRead` | rucbase-lab/src/system/sm_meta.h:139-154 | Whatever the text, a table that is read has word names and counts that match its lists. |
| `CatalogText.TabsReadBack` | rucbase-lab/src/system/sm_meta.h:187-204 | Reading the printed tables adds exactly those tables, in whatever state the catalogue was. |
| `CatalogStreams.SaveAndLoad` | rucbase-lab/src/system/sm_meta.h:187-204 | Writing and reading through streams returns the same catalogue exactly when it is well formed. |
| `CatalogStreams.WriteCol` | rucbase-lab/src/system/sm_meta.h:31-35 | Appends the text of the column. |
| `CatalogStreams.WriteIndex` | rucbase-lab/src/system/sm_meta.h:49-55 | Appends the text of the index, a line for each column. |
| `CatalogStreams.WriteTab` | rucbase-lab/src/system/sm_meta.h:127-137 | Appends the text of the table. |
| `CatalogStreams.WriteDb` | rucbase-lab/src/system/sm_meta.h:187-193 | Appends the text of the catalogue, tables in key order. |
| `CatalogStreams.ReadColMeta` | rucbase-lab/src/system/sm_meta.h:37-39 | Takes one column from the stream, or fails where none can be read. |
| `CatalogStreams.ReadIndexMeta` | rucbase-lab/src/system/sm_meta.h:57-65 | Takes one index with the columns it announces. |
| `CatalogStreams.ReadTabMeta` | rucbase-lab/src/system/sm_meta.h:139-154 | Takes one table with the columns and indexes it announces. |
| `CatalogStreams.ReadDbMeta` | rucbase-lab/src/system/sm_meta.h:195-204 | Takes a catalogue, adding its tables to those already there. |
| `IxHeader.HdrReadsBackIff` | rucbase-lab/src/index/ix_defs.h:58-126 | A written header, with any number of columns, reads back as it was if and only if it is read into an object without columns; exactly the recorded length is written. |
| `IxHeader.HdrNumbers` | rucbase-lab/src/index/ix_defs.h:58-89 | The bytes of a written header are its numbers, four bytes each, least significant first. |
| `IxHeader.HdrOrder` | rucbase-lab/src/index/ix_defs.h:58-89 | These are, in order, the five leading fields, the types of all columns, the lengths of all columns, and the five trailing fields. |
| `IxHeader.BeginsDecoded` | rucbase-lab/src/index/ix_defs.h:91-126 | Reading puts every field back in its place and appends the columns to those already there. |
| `IxHeader.IxFileHdr.UpdateTotLen` | rucbase-lab/src/index/ix_defs.h:52-56 | The recorded length is that of ten fields and two for every column, wrapped to 32 bits, so right exactly when it fits. |
| `IxHeader.ReadTwiceDoubles` | rucbase-lab/src/index/ix_defs.h:91-126 | Input that does not read back: reading a header into the object it was written from. |
| `IxHeader.IxFileHdr.Serialize` | rucbase-lab/src/index/ix_defs.h:58-89 | The buffer starts with the fields in order, and is unchanged behind the recorded length. |
| `IxHeader.IxFileHdr.Deserialize` | rucbase-lab/src/index/ix_defs.h:91-126 | Every field is the one found at its place in the buffer; columns are appended. |
| `LogRecords.RecReadsBack` | rucbase-lab/src/recovery/log_manager.h:139-163 | A written insert record, of any size its fields allow, reads back as it was, into any object and whatever follows it. |
| `LogRecords.RecLayout` | rucbase-lab/src/recovery/log_manager.h:139-151 | Where each field of a written insert record is: the log header in bytes 0 to 19, the size and bytes of the value, page and slot, the size of the table name and the name. |
| `LogRecords.TotLenIff` | rucbase-lab/src/recovery/log_manager.h:124-137 | The recorded total length is the number of bytes written exactly when that fits 32 bits. |
| `LogRecords.LongNameWraps` | rucbase-lab/src/recovery/log_manager.h:124-137 | Input on which it is not: a table name whose record is 4 GiB long is recorded with length 0. |
| `LogRecords.FrontReadsBack` | rucbase-lab/src/recovery/log_manager.h:47-61 | The log header reads back, its total length as an unsigned number. |
| `LogRecords.InsertLogRecord.constructor` | rucbase-lab/src/recovery/log_manager.h:116-137 | A new record has the insert type, no log sequence numbers and the summed length. |
| `LogRecords.InsertLogRecord.Serialize` | rucbase-lab/src/recovery/log_manager.h:139-151 | Writes exactly the bytes of the record and nothing behind them. |
| `LogRecords.InsertLogRecord.Deserialize` | rucbase-lab/src/recovery/log_manager.h:153-163 | Every field is the one found at its place in the buffer. |
| `Buffers.IntReadsBack` | rucbase-lab/src/index/ix_defs.h:58-126 | An integer written at a running offset is read back from its place, whatever stands around it. |
| `Buffers.SizeReadsBack` | rucbase-lab/src/recovery/log_manager.h:147-160 | An eight-byte size reads back exactly when it is not negative and fits. |
| `Buffers.SizeIsNumber` | rucbase-lab/src/recovery/log_manager.h:147-160 | A size is the number in its eight bytes, least significant first. |

## Left out

- Lock manager, transaction manager, recovery and the log buffer: their bodies are stubs.
- B+ tree lookup, insertion, splitting, coalescing and deletion: not written in the source.
- Executors beyond their constructors, sort and projection plans, the analyser, lexer, parser, server and client: tuple loops, generated tables and input or output.
- System calls, short reads and writes, and errors of the operating system: the disk is a map from page to bytes with a page counter per file; a page never written reads as zeros.
- Reuse of a file descriptor while pages of the old file are still cached.
- Lock calls inside the file handle: they call stubs that always succeed.
- Object lifetime, alignment and memory leaks.
- Rounding of floating-point columns: values are reals, and two values of different types, which the analyser refuses to compare, are ordered by type.
- The columns and record length that a scan plan copies from the catalogue.
- What an executor does with a condition on a column its rows do not have: the loops that would evaluate it are stubs, and the model takes such a condition as not met.
- Threads: each pool operation is one step, as the pool's latch makes it.
- The rest of the test library around the matching.
- Text that is not a printed catalogue: reading it is a failure, and what the failed stream leaves in the fields is not modelled; a column type code outside the three types counts as such a failure.
- Copying a table description drops its indexes (the copy constructor); no modelled operation copies one that way.
- RmScan.ScanAll: says nothing about a file without data pages, where the scan goes on to read the header page as if it held records.
- RecordStore.RecRunKeeps: speaks of runs in which the pool always finds a frame; the source dereferences a null page otherwise. The edits an operation makes to one page are one client write.
- Index.IxIndexHandle.MaintainParent: nodes are values in a map, not pinned pages; the pool calls around each node are left out, as for the other index operations.
- Index.ScanLeaves: with an empty leaf in the way it reports where an assertion fails, and does not say what a build without assertions would read.
- Planner.MakeOneRel: says nothing about rows when FROM names a table twice, because rows are keyed by table name and cannot tell the two occurrences apart; the structural result covers that case.
- Matching.MatchState.Compute: the match matrix is a set of edges rather than a bit array.
