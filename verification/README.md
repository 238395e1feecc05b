# MonetDB GDK kernel: model and proofs

A Dafny model of the storage engine and column algebra of MonetDB's GDK kernel (`src/gdk`), in
its 64-bit configuration. Each module models one mechanism of the kernel in the form the C code
has it (classes with fields for what is updated in place, arrays and loops where the code has
them, a state machine where several threads or crashes are involved) and proves it against an
independent definition.

| module | what it is about |
|---|---|
| `Commit`, `SubcommitDir` | the files on disk during commits, subcommits, crashes and recovery; the merged BBP.dir |
| `ViewRefs` | physical, logical and share counts of BATs and of the views on them |
| `FreeHeap` | the ordered, coalescing free-list allocator |
| `StrHeap` | the de-duplicating string heap, in bytes, with its hash table inside the heap |
| `VarHeap` | columns of string offsets, in bytes, and their widening in place |
| `Group`, `SubSort` | the grouping algorithms; sorting by several columns one after the other |
| `Join` | hash join, merge join by binary search, outer merge join of sorted columns, theta join |
| `Imprints` | the compressed page masks and their bins |
| `Average`, `Calc` | averages as whole part and remainder, and when they are exact; checked 64-bit addition and multiplication |
| `Delta` | inserts, deletes, commit and undo on one array of BUNs; the property flags |
| `MapReduce` | the task queue with its workers and callers |
| `Text` | escapes, quotes and UTF-8 when strings are read and written |

`dafny verify dfyconfig.toml` checks all of it.

## Where the code does not do what it is meant to

The code is modelled as it is. In these places a promise does not hold in general; the model has
a concrete case and the exact condition.

- BBPsave (gdk_bbp.c:2389) backs up only a BAT that was and is to remain persistent. A BAT of the
  checkpoint that was made transient since is overwritten without a backup when it is swapped out:
  `Commit.SwapExact`, `Commit.DroppedSwapLosesData` (a run).
- A subcommit (gdk_bbp.c:3283-3292) leaves the backup in BAKDIR of a listed BAT that the last
  checkpoint does not know, or that dirty_bat does not find because it is neither loaded nor
  BBPSWAPPED. If that backup is old, recovery moves it over the committed file:
  `Commit.SubcommitExact` (when it is called), `Commit.SubSwitchExact` (at its commit point),
  `Commit.StaleBackupLosesData` and `Commit.UnfoundLosesData` (runs).
- AVERAGE_ITER (gdk_aggr.c:1055-1067) subtracts remainders in the signed type of its values. For
  int that overflows, and averages can be wrong, above 2^32 + 3 values of a column and above 2^30
  of a group: `Average.ColumnExact`, `Average.GroupExact`, `Average.StepExact`,
  `Average.IntStepFails` (in numbers). Narrower types are promoted, and for lng the wrap-around is
  undone by the cast to BUN.
- imprints_create decides whether to extend the last header by the counter of the slot behind it
  (gdk_imprints.c:451), so that a full counter starts again at 0: `Imprints.BuildExact`,
  `Imprints.CreateExact`, `Imprints.LastPageEmpties` with `Imprints.StripesInTurn` (a column).
- hashjoin without a right candidate list compares oids with positions (gdk_join.c:748):
  `Join.HashJoinExact`, `Join.LastMissed` (columns).
- mergejoin for an outer join reaches binsearch's assertion `lo < hi` with an empty right side:
  `Join.MergeJoin` says exactly when, `Join.OuterWithNothing` (a run).
- mergejoin scans r from the front if either order flag of l and r agrees (gdk_join.c:230). With l
  descending only and r flagged both ways, an outer join misses matches: `Join.MergeOuter` says
  exactly when, `Join.MatchMissed` (a run).
- BATundo (gdk_delta.c:217) sets the count to batInserted, which is right iff batDeleted is 0:
  `Delta.UndoExact`, `Delta.Bat.Undo`, `Delta.UndoAfterCommittedDelete` (a run).
- BATsubsort's shortcut for ordered columns (gdk_batop.c:1294) ignores `reverse`:
  `SubSort.ShortcutExact`, `SubSort.DescendingShortcutFails`, and the contract of `SubSort.SubSort`.
  Its size test of g (gdk_batop.c:1281) looks at o: `SubSort.CheckExact`, `SubSort.CheckFails`.
- HTputvalue (gdk.h) ignores a failed GDKupgradevarheap and then stores a truncated offset:
  `VarHeap.OffsetColumn.PutValue`, `VarHeap.CutOff` (a run).
- Spellings of nil other than the one byte 0x80 compare equal to nil but may hash elsewhere, and
  then are stored twice: `StrHeap.OffsetsExact`, `StrHeap.OddNil`, `StrHeap.NilStoredTwice` (a run).

The comment in AVERAGE_ITER promises 0 <= z2 < n for the inner remainder; z2 can be n
(`Average.Divide`), which does no harm. The comments of the join code say that an outer join gives
a nil pair for every left row without a match; left rows that are nil themselves are dropped, and
the model follows the code. strFromStr returns the number of bytes between the quotes, so 0 for an
empty string as for an error. In HEAP_check the variable prevblock is never advanced; the model
has it so too. BATcalcavg of an empty column is modelled as the quotient of 0 and 0 that the code
computes.

## Model

| member | source | states |
|---|---|---|
| Commit.DoBackupLookup | src/gdk/gdk_bbp.c:3154-3212 | moving a heap file to a backup directory changes nothing that recovery would find |
| Commit.DoBackupRecoverable | src/gdk/gdk_bbp.c:3154-3212 | do_backup keeps every recoverable checkpoint recoverable |
| Commit.StepInv | src/gdk/gdk_bbp.c:3104-3360 | every step of dropping, swapping, global commit, subcommit, crash and recovery keeps the last checkpoint recoverable, except for two: a swap that is not covered, and the switch of a subcommit over a stale backup |
| Commit.RunInv | src/gdk/gdk_bbp.c:3104-3552 | so does every run without those two |
| Commit.CrashAtomicity | src/gdk/gdk_bbp.c:3265-3360 | at every point of every such run the disk holds the last checkpoint, and only the rename of BAKDIR or SUBDIR to DELDIR advances it |
| Commit.CommitPoint | src/gdk/gdk_bbp.c:3331-3355 | what a crash would bring back changes at the two renames only, and there to the goal |
| Commit.HalfWritten | src/gdk/gdk_bbp.c:3297-3313 | a file or BBP.dir that is half written is torn in BATDIR, and recovery still finds the checkpoint; a file that nobody owns can go |
| Commit.CheapDirSame | src/gdk/gdk_bbp.c:3317-3327 | moving the old BBP.dir back leaves BATDIR as writing it would |
| Commit.CommitCompletes | src/gdk/gdk_bbp.c:3265-3360 | a global commit that can begin can run to its end, with the goal as checkpoint, recoverable, and normal operation again |
| Commit.SubcommitCompletes | src/gdk/gdk_bbp.c:3265-3360 | so can a subcommit, if it meets no stale backup when it is called |
| Commit.SwapExact | src/gdk/gdk_bbp.c:2352-2399 | when BBPsave overwrites a file, whole or torn, the checkpoint stays recoverable iff the checkpoint does not name it, or its BAT was not dropped, or its backup is there already |
| Commit.TakenBack | src/gdk/gdk_bat.c:2736-2786 | dropping a BAT and taking it back changes nothing: a commit must leave it out in between, and must have it after, when its files are covered |
| Commit.DroppedSwapLosesData | src/gdk/gdk_bat.c:2736-2786 | a run: a BAT of the checkpoint is made transient and swapped out, and a crash brings it back with the new contents |
| Commit.SubBackupInv | src/gdk/gdk_bbp.c:3154-3212 | backing up the listed BATs that a subcommit finds keeps the checkpoint, and clears their backups from BAKDIR |
| Commit.SubSwitchFile | src/gdk/gdk_bbp.c:3331-3355 | for each file, when recovery finds its new contents after a subcommit: unless it is of a listed BAT that is unknown or was not found, with another backup in BAKDIR |
| Commit.SubSwitchExact | src/gdk/gdk_bbp.c:3331-3355 | at the commit point: the new image is recoverable iff BAKDIR has no stale backup of a listed BAT that the checkpoint does not know or dirty_bat does not find |
| Commit.SubcommitExact | src/gdk/gdk_bbp.c:3265-3360 | the same for a whole subcommit, judged by BAKDIR and the BATs in memory when it is called |
| Commit.StaleBackupLosesData | src/gdk/gdk_bbp.c:3265-3360 | a run from a normal start in which a stale backup replaces committed data |
| Commit.UnfoundLosesData | src/gdk/gdk_bbp.c:2984-3004 | a run: a BAT changed in place, swapped out and unloaded is listed in a subcommit, which a crash then undoes |
| Commit.RestartStep | src/gdk/gdk_bbp.c:3427-3508 | each recovery step, and a crash during it, keeps the checkpoint |
| Commit.RecoveryRestores | src/gdk/gdk_bbp.c:985-1048 | after a crash at any moment and any number of interrupted recoveries, BATDIR holds all files of the checkpoint, whole |
| Commit.RecoveryStep | src/gdk/gdk_bbp.c:3427-3552 | recovery has a next step until the database is in normal operation |
| Commit.RecoveryCloser | src/gdk/gdk_bbp.c:3427-3552 | every step of recovery lowers a measure |
| Commit.RecoveryCompletes | src/gdk/gdk_bbp.c:985-1048 | every undisturbed recovery, in any order of its steps, is bounded and stops exactly in normal operation |
| SubcommitDir.SkipDuplicates | src/gdk/gdk_bbp.c:1315-1318 | the inner loop skips exactly the duplicates of one listed id |
| SubcommitDir.MergeDirectory | src/gdk/gdk_bbp.c:1291-1325 | the new BBP.dir is in id order and has each listed persistent BAT and each unlisted old line, once, and nothing else |
| SubcommitDir.MergedAdvances | src/gdk/gdk_bbp.c:1242-1343 | such a directory is a goal in which only listed BATs differ from the checkpoint |
| ViewRefs.LinkedAlive | src/gdk/gdk_bbp.c:2077-2134 | a BAT that a view links to exists and has lrefs and sharecnt, and refs if the view has |
| ViewRefs.CountsExact | src/gdk/gdk_bbp.c:1945-2193 | refs, lrefs and sharecnt are exactly outside references plus links, and a BAT exists only while referenced |
| ViewRefs.NoLeak | src/gdk/gdk_bbp.c:2406-2452 | every existing BAT is held from outside, directly or through a chain of views |
| ViewRefs.ViewNotShared | src/gdk/gdk_align.c:203-356 | in every state, a BAT of views only is linked by nobody and counts its outside references alone: a view on a view links past it |
| ViewRefs.DropPhysical | src/gdk/gdk_bbp.c:2113-2193 | giving up a physical reference: which of survival, release of parents or destruction follows, with all counts in balance |
| ViewRefs.DropLogical | src/gdk/gdk_bbp.c:2105-2112 | the same for a logical reference |
| ViewRefs.DropShare | src/gdk/gdk_bbp.c:2088-2093 | releasing a share that is owed |
| ViewRefs.TakePhysical | src/gdk/gdk_bbp.c:1985-2006 | the first physical reference on a view owes one to each parent |
| ViewRefs.TakeLogical | src/gdk/gdk_bbp.c:1993-1994 | taking a logical reference |
| ViewRefs.TakeShare | src/gdk/gdk_bbp.c:2060-2075 | counting a link about to be made |
| ViewRefs.Pool.Incref | src/gdk/gdk_bbp.c:1945-2050 | incref of a physical reference settles one that was due, through all parents, and terminates |
| ViewRefs.Pool.Decref | src/gdk/gdk_bbp.c:2077-2193 | decref settles one reference, destroying and releasing recursively; survivors keep their links; it terminates |
| ViewRefs.Pool.Destroy | src/gdk/gdk_bbp.c:2406-2452 | BBPdestroy happens only with all counts 0, and settles the links of the destroyed view |
| ViewRefs.Pool.UnshareIf | src/gdk/gdk_bbp.c:2248-2255 | GDKunshare settles one share and one logical reference |
| ViewRefs.Pool.Fix | src/gdk/gdk_bbp.c:2052-2058 | an outside physical reference keeps all counts exact |
| ViewRefs.Pool.Keep | src/gdk/gdk_bbp.c:2052-2058 | an outside logical reference keeps all counts exact |
| ViewRefs.Pool.Release | src/gdk/gdk_bbp.c:2195-2204 | giving up an outside reference keeps all counts exact; other BATs only disappear or keep their links |
| ViewRefs.Pool.KeepRef | src/gdk/gdk_bbp.c:2213-2232 | BBPkeepref turns a physical outside reference into a logical one |
| ViewRefs.Pool.ShareIf | src/gdk/gdk_bbp.c:2060-2075 | BBPshare changes only the parent, by one in each count |
| ViewRefs.Pool.New | src/gdk/gdk_bbp.c:1675-1688 | a new BAT has one physical reference, and is younger than all others |
| ViewRefs.ViewColumnOk | src/gdk/gdk_align.c:266-271 | the column of a view has the type and the vheap of the column it is on, and its parent, which is that BAT or the parent there, owns it |
| ViewRefs.Pool.ViewCreate | src/gdk/gdk_align.c:251-356 | VIEWcreate_ links each column to the parent of its source column or to its BAT, shares each link, and keeps all counts exact and every parent the owner of what it lends |
| ViewRefs.Pool.ViewHead | src/gdk/gdk_align.c:203-248 | the same for VIEWhcreate, with a void tail |
| ViewRefs.Pool.ViewCombine | src/gdk/gdk_align.c:406-432 | the same for VIEWcombine, where the head column is shared a second time as tail |
| FreeHeap.Allocator.Empty | src/gdk/gdk_heap.c:949-976 | an empty heap is one free block |
| FreeHeap.NeedExact | src/gdk/gdk_heap.c:1015-1019 | a block of the size asked for holds the bytes and its header, is a block at all, and no smaller one is |
| FreeHeap.Allocator.FindFit | src/gdk/gdk_heap.c:1021-1040 | first fit: all free blocks before the one found are too small |
| FreeHeap.Allocator.Grow | src/gdk/gdk_heap.c:1042-1088 | after extension there is a free block large enough, and no live block changed |
| FreeHeap.Allocator.Take | src/gdk/gdk_heap.c:1090-1120 | splitting and unlinking keep the tiling, the order and the coalescing of the free list; the block has the size needed, or all of it if no block is left over, and the free words drop by that |
| FreeHeap.Allocator.Malloc | src/gdk/gdk_heap.c:1003-1120 | the payload is long enough, at most 32 bytes too long, and overlaps no live block; live blocks keep every word; the first block that fits is used, words are conserved, and it fails exactly if nothing fits and the heap cannot grow |
| FreeHeap.Allocator.FindPlace | src/gdk/gdk_heap.c:1143-1148 | the neighbours of a block in the free list |
| FreeHeap.Allocator.JoinAfter | src/gdk/gdk_heap.c:1153-1171 | the block enters the list, united with the free block behind it if they touch |
| FreeHeap.Allocator.JoinBefore | src/gdk/gdk_heap.c:1173-1193 | it is united with the free block before it if they touch |
| FreeHeap.Allocator.Free | src/gdk/gdk_heap.c:1122-1194 | exactly this block stops being live and its words are free; the heap stays tiled, ordered and coalesced, and other live blocks keep every word |
| FreeHeap.Allocator.Write | src/gdk/gdk_heap.c:949-1120 | writing to the payload of a live block keeps the heap valid |
| FreeHeap.Allocator.FreeMask | src/gdk/gdk_heap.c:1237-1251 | the first loop of HEAP_check marks exactly the free blocks |
| FreeHeap.Allocator.Check | src/gdk/gdk_heap.c:1196-1303 | HEAP_check accepts every valid heap and marks exactly the block starts |
| FreeHeap.Allocator.Init | src/gdk/gdk_heap.c:1305-1337 | HEAP_init changes nothing in a valid heap |
| FreeHeap.Allocator.Mmappable | src/gdk/gdk_heap.c:1339-1353 | true iff the one free block ends the heap |
| StrHeap.StrHash | src/gdk/gdk_atoms.h:346-359 | the hash loop computes a function of the string |
| StrHeap.HashValues | src/gdk/gdk_atoms.h:346-359 | the hash values of four strings, in numbers |
| StrHeap.Compare | src/gdk/gdk_atoms.h:335-339 | the comparison with a string in the heap is exact and does not run off the heap |
| StrHeap.TwoTexts | src/gdk/gdk_atoms.h:333-339 | strings that are found at one place compare equal |
| StrHeap.SmallInsert | src/gdk/gdk_atoms.c:1217-1226 | linking a new node keeps all chains, which strictly decrease and hold exactly the strings put |
| StrHeap.Heap.Search | src/gdk/gdk_atoms.c:1139-1146 | the walk finds the string iff it was put |
| StrHeap.Heap.SearchLast | src/gdk/gdk_atoms.c:1150-1156 | from 64KB on, the place of the last string of the bucket iff it compares equal, and 0 otherwise |
| StrHeap.Heap.Locate | src/gdk/gdk_atoms.c:1100-1121 | strLocate gives the offset of the string, or 0 exactly if it was never put |
| StrHeap.Heap.Grow | src/gdk/gdk_atoms.c:1170-1203 | doubling gives enough room within 64 bits, and the heap keeps what it holds |
| StrHeap.Heap.Append | src/gdk/gdk_atoms.c:1205-1231 | a new string is written behind all others with its hash value before it, entered in the table, and the table flushed at 64KB borders; all invariants hold |
| StrHeap.Heap.PutString | src/gdk/gdk_atoms.c:1123-1232 | every offset ever returned keeps denoting its string, with its hash value before it, and is aligned if hash values are kept or the heap is below 64KB; there equal strings get the same offset; 0 only if the heap cannot grow |
| StrHeap.Heap.Flush | src/gdk/gdk_atoms.c:1228-1230 | flushing the table changes no string |
| StrHeap.WriteString | src/gdk/gdk_atoms.c:1205-1226 | the four writes of strPut touch no earlier string, and leave string, hash value, next pointer and bucket readable |
| StrHeap.OffsetsExact | src/gdk/gdk_atoms.h:297-308 | strings put below 64KB have equal offsets iff they compare equal and hash to one bucket; in normal spelling iff they are the same |
| StrHeap.OffsetsSound | src/gdk/gdk_atoms.c:1123-1232 | at any size, one offset never stands for strings that compare different |
| StrHeap.StoredHash | src/gdk/gdk_search.h:85-85 | the word before a string is the hash value of the string that was put there first, which for all but nil is its own |
| StrHeap.StoredHashes | src/gdk/gdk_search.h:85-85 | if all strings are in normal spelling, it is the hash value of each |
| StrHeap.OddNil | src/gdk/gdk_atoms.h:333-359 | two spellings of nil compare equal and hash to different buckets |
| StrHeap.NilStoredTwice | src/gdk/gdk_atoms.c:1123-1232 | a run that puts them both and gets two offsets |
| VarHeap.Store | src/gdk/gdk.h:1194-1222 | storing w bytes changes those only, and reads back the value cut off to w bytes |
| VarHeap.Widen | src/gdk/gdk_heap.c:538-578 | back-to-front conversion in one buffer reads every entry before it is overwritten |
| VarHeap.GrowWidth | src/gdk/gdk_heap.c:512-515 | the first width, doubling, in which the offset fits |
| VarHeap.ExtendAndWiden | src/gdk/gdk_heap.c:494-583 | all offsets in use are the same after extension and conversion |
| VarHeap.OffsetColumn.Upgrade | src/gdk/gdk_heap.c:494-583 | widening is invisible; a failed one changes no slot |
| VarHeap.StoreOffset | src/gdk/gdk.h:1194-1222 | the slot decodes to the offset, cut off to its width, and so to the offset iff that fits; no other slot changes |
| VarHeap.OffsetColumn.PutValue | src/gdk/gdk.h:1194-1222 | the new slot decodes to the offset iff it fitted or the heap could be extended, otherwise to the offset cut off; all others are unchanged |
| VarHeap.CutOff | src/gdk/gdk.h:1194-1222 | a run in which offset 8448 is stored as 8192 |
| Group.Unique | src/gdk/gdk_group.c:30-72 | groups, extents and histogram are determined by the definition: all algorithms give identical output |
| Group.ExtentsAreFirst | src/gdk/gdk_group.c:91-92 | the extents are exactly the rows without an equal before them |
| Group.HistogramSum | src/gdk/gdk_group.c:93-94 | the histogram adds up to the number of rows |
| Group.AddNew | src/gdk/gdk_group.c:73-98 | starting a group keeps the definition and the order of the ids |
| Group.AddOld | src/gdk/gdk_group.c:109-118 | joining a group keeps the definition; the ids stay in order iff it is the last group |
| Group.KeyExact | src/gdk/gdk_group.c:682-682 | as many groups as rows iff no two rows are the same |
| Group.SortedClustered | src/gdk/gdk_group.c:356-358 | sorting of b and g, each in either direction, makes equal rows adjacent |
| Group.Grouper.MakeRoom | src/gdk/gdk_group.c:76-90 | extents and histogram have room, with at most one extension |
| Group.Grouper.NotFound | src/gdk/gdk_group.c:73-98 | GRPnotfound on a row without an equal before it keeps the result exact |
| Group.Grouper.Found | src/gdk/gdk_group.c:109-118 | a row that joins a group keeps the result, and tsorted, exact |
| Group.Grouper.SameAsLast | src/gdk/gdk_group.c:385-389 | the same for the last group |
| Group.Grouper.Consecutive | src/gdk/gdk_group.c:356-395 | comparing consecutive values groups rows whose equals are adjacent |
| Group.Grouper.SubScan | src/gdk/gdk_group.c:396-452 | scanning the run of equal values for the prior group groups the rows |
| Group.Grouper.ExistingHash | src/gdk/gdk_group.c:453-511 | so does walking an existing hash table |
| Group.Grouper.PartialHash | src/gdk/gdk_group.c:99-168 | so does the partial hash table, without g, with clustered g and with other g |
| Group.SearchEarlier | src/gdk/gdk_group.c:474-507 | the walk finds an earlier equal row iff there is one |
| Group.SearchTable | src/gdk/gdk_group.c:99-158 | so does the walk along a bucket of first rows, also if it stops early at another group |
| Group.Buckets.Enter | src/gdk/gdk_group.c:159-164 | the table holds the first row of every group |
| Group.StartCapacity | src/gdk/gdk_group.c:329-338 | the starting capacity is positive, and small for narrow columns |
| Group.GroupInternal | src/gdk/gdk_group.c:322-687 | whichever algorithm is chosen: the grouping, exact tsorted and tkey, a complete histogram, at most one extension |
| SubSort.SortSegment | src/gdk/gdk_batop.c:1384-1389 | do_sort on a segment changes that segment of both arrays only, and permutes them together |
| SubSort.SortRun | src/gdk/gdk_batop.c:1382-1392 | sorting one run orders it and keeps every row in its run |
| SubSort.SortRuns | src/gdk/gdk_batop.c:1379-1404 | all runs of g end up in order, and the last one starts at 0 iff there is one group |
| SubSort.NewGroups | src/gdk/gdk_batop.c:1415-1417 | the new groups are the runs of old group and value together, numbered without gaps |
| SubSort.ShortcutExact | src/gdk/gdk_batop.c:1294-1294 | the shortcut gives the order asked for iff that is ascending or the column is constant |
| SubSort.DescendingShortcutFails | src/gdk/gdk_batop.c:1294-1294 | a column and a request for which it does not |
| SubSort.Refine | src/gdk/gdk_batop.c:1321-1431 | after the shortcut: a permutation within runs, in order, with exact new groups; the flag of the order asked for is set iff there is one group |
| SubSort.CheckExact | src/gdk/gdk_batop.c:1267-1287 | the tests of o and g do what they are meant to iff a sorted g comes with an o and has the size of b |
| SubSort.CheckFails | src/gdk/gdk_batop.c:1267-1287 | groups without an order, and one group for two rows |
| SubSort.SubSort | src/gdk/gdk_batop.c:1255-1447 | which arguments are refused, accepted or crash; with those meant, sorted within runs as asked except by the shortcut, with groups, and with flags that are true and set for one group |
| SubSort.StepRanked | src/gdk/gdk_batop.c:1225-1254 | one more column refines a lexicographic order to one more column |
| SubSort.RankedMeans | src/gdk/gdk_batop.c:1225-1254 | what that order says of two rows |
| SubSort.SortColumns | src/gdk/gdk_batop.c:1225-1254 | over any list of columns: a permutation that sorts lexicographically, each column in its direction, and groups that are exactly the runs of equal rows |
| Join.CandInit | src/gdk/gdk_calc_private.h:45-79 | the rows looked at are exactly the candidates inside the column |
| Join.BinSearchCand | src/gdk/gdk_join.c:614-633 | finds an oid iff it is listed, and its bounds never underflow |
| Join.BinSearch | src/gdk/gdk_join.c:101-138 | the first row with a value not before v, or behind v |
| Join.AddRow | src/gdk/gdk_join.c:140-140 | appending the block of the next left row extends a correct result |
| Join.SamePairs | src/gdk/gdk_join.c:974-1038 | any two correct inner (or outer) results have the same multiset of pairs |
| Join.ThetaRow | src/gdk/gdk_join.c:989-1033 | the inner loop finds exactly the matching right rows |
| Join.ThetaJoin | src/gdk/gdk_join.c:974-1038 | the nested loop, for any comparison: each left row with exactly its matches, r1 nondecreasing |
| Join.ThetaPairs | src/gdk/gdk_join.c:1004-1010 | two rows are paired iff the bit of the mask for their order, <, = or >, is set; nil is paired with nothing |
| Join.TakesPart | src/gdk/gdk_join.c:725-749 | whether a row passes the candidate test of hashjoin |
| Join.Tested | src/gdk/gdk_join.c:745-749 | the rows that the range test of hashjoin lets take part, oids being compared with positions |
| Join.HashRow | src/gdk/gdk_join.c:717-788 | one left value gets all matches among the rows tested, or one, or a nil, as the mode asks |
| Join.HashJoin | src/gdk/gdk_join.c:711-860 | hashjoin in inner, outer and semi mode joins with the rows tested, which are the right ones with a candidate list or from oid 0 |
| Join.HashJoinExact | src/gdk/gdk_join.c:691-766 | without a candidate list hashjoin is right for all columns iff the right one starts at oid 0 or no row of it takes part |
| Join.LastMissed | src/gdk/gdk_join.c:745-749 | otherwise, in each mode, a pair of columns whose only match is missed |
| Join.EqualRange | src/gdk/gdk_join.c:297-420 | search and scan find exactly the range of right rows equal to v |
| Join.RangeResult | src/gdk/gdk_join.c:458-483 | what that range contributes in each mode |
| Join.InsertRun | src/gdk/gdk_join.c:559-605 | each left row of a run gets the same right rows |
| Join.MergeJoin | src/gdk/gdk_join.c:255-612 | binary-search mode over ascending or descending r in all modes, and exactly when binsearch's assertion fails |
| Join.OuterWithNothing | src/gdk/gdk_join.c:101-138 | a run of an outer join that reaches the assertion |
| Join.SeekForward | src/gdk/gdk_join.c:297-338 | the first row of the window that is not before v, by scan or search |
| Join.CountForward | src/gdk/gdk_join.c:380-420 | how many rows equal to v follow there |
| Join.SeekBackward | src/gdk/gdk_join.c:339-379 | the end of the rows of the window that are not behind v |
| Join.CountBackward | src/gdk/gdk_join.c:421-457 | how many rows equal to v precede it |
| Join.WindowResult | src/gdk/gdk_join.c:458-605 | what is found in the window is the result of the left row iff no match lies outside of it |
| Join.PassRun | src/gdk/gdk_join.c:255-606 | scanning along or against the order of r, no later left row has a match outside the window |
| Join.MergeOuter | src/gdk/gdk_join.c:147-612 | outer join with a sorted left column: right, except exactly when l is known as descending only, r as both, and a left row with the value of r comes behind a larger one |
| Join.MatchMissed | src/gdk/gdk_join.c:227-253 | a run, for any two values in descending order, in which a match is missed |
| Imprints.TreeExact | src/gdk/gdk_imprints.c:42-405 | the comparison tree finds the bin, if it is among its bins |
| Imprints.GetBinExact | src/gdk/gdk_imprints.c:733-783 | GETBIN finds the bin for sorted bounds, duplicates included, whatever the variable held |
| Imprints.BinMonotone | src/gdk/gdk_imprints.c:733-783 | bins are monotone, and so unique |
| Imprints.Bin | src/gdk/gdk_imprints.c:733-783 | the bin as a function of the value only |
| Imprints.RepeatedExact | src/gdk/gdk_imprints.c:429-445 | a repeated mask adds one page, in all three shapes of the last header |
| Imprints.ExtendedExact | src/gdk/gdk_imprints.c:446-457 | a new mask adds one page iff no full header is extended because of the slot behind it; otherwise all its pages are lost |
| Imprints.Dictionary.AddSame | src/gdk/gdk_imprints.c:429-445 | the same for the arrays: one page more; unwritten slots stay as they are |
| Imprints.Dictionary.AddNew | src/gdk/gdk_imprints.c:446-457 | one page more iff the header does not run over, whatever the unwritten slot holds |
| Imprints.AddPage | src/gdk/gdk_imprints.c:465-488 | the arrays hold the dictionary for one page more |
| Imprints.PagesCounted | src/gdk/gdk_imprints.c:427-488 | counted pages plus 2^24 for every counter that ran over are all pages |
| Imprints.BuildExact | src/gdk/gdk_imprints.c:427-488 | the dictionary decodes to the masks of the pages iff no counter ran over |
| Imprints.FewPages | src/gdk/gdk_imprints.c:427-488 | none runs over with at most IMPS_MAX_CNT pages |
| Imprints.Create | src/gdk/gdk_imprints.c:409-519 | the arrays hold the dictionary for the masks of the column's pages; right iff no counter ran over, and always up to IMPS_MAX_CNT pages |
| Imprints.CreateExact | src/gdk/gdk_imprints.c:409-519 | imprints_create is right for all columns of n pages and all slot contents iff n is at most IMPS_MAX_CNT |
| Imprints.LastPageEmpties | src/gdk/gdk_imprints.c:446-457 | 2^24 pages with two masks in turn: the dictionary stands for no page at all |
| Imprints.StripesInTurn | src/gdk/gdk_imprints.c:427-464 | the column, for every page size, that has these masks |
| Imprints.ReadPages | src/gdk/gdk_imprints.c:863-876 | the forward reading loop gives the decoded pages |
| Imprints.PageHasBit | src/gdk/gdk_imprints.c:462-463 | the page of a row has the bit of its value |
| Imprints.QueryComplete | src/gdk/gdk_imprints.c:733-783 | no page with a value in [lo, hi] lacks a bit between the bins of lo and hi |
| Average.Divide | src/gdk/gdk_aggr.c:1046-1079 | with all wrap-around: quotient and remainder (which may be n) of x - a plus what an overflowing difference adds; no signed value leaves its type iff the difference of remainders fits |
| Average.AverageIter | src/gdk/gdk_aggr.c:1042-1086 | the closed form of the step; from an exact average it gives an exact one iff the difference fits or its surplus is whole turns of the type |
| Average.StepExact | src/gdk/gdk_aggr.c:1042-1086 | that condition, for each state and value, from the closed form |
| Average.StepAlwaysExact | src/gdk/gdk_aggr.c:1042-1086 | the step is exact for all states and values of a count iff 2 * min(n - 1, m) fits in the signed type or the surplus is harmless |
| Average.DifferenceFits | src/gdk/gdk_aggr.c:1055-1067 | the difference of remainders fits for all values iff the count is small enough |
| Average.IntStepFails | src/gdk/gdk_aggr.c:1055-1067 | the first int column that fails, in numbers: whole part -2147483646 where the average is 2147483646 |
| Average.HandOver | src/gdk/gdk_aggr.c:1394-1405 | the overflowing sum is turned into the exact (a, r) form, and a and the quotient fit the type |
| Average.SumUntilOverflow | src/gdk/gdk_aggr.c:1362-1383 | the lng sum of the rows before the first one whose value takes it out of lng |
| Average.AverageFrom | src/gdk/gdk_aggr.c:1409-1425 | the remaining rows in (a, r) form, wrap-around included; within the safe count no signed value leaves its type |
| Average.CalcAverage | src/gdk/gdk_aggr.c:1356-1428 | the result as a function of the non-nil values, which is the exact mean except for more than 2^32 + 3 ints |
| Average.ColumnExact | src/gdk/gdk_aggr.c:1356-1428 | BATcalcavg is exact for all columns of n values iff those are not more than 2^32 + 3 ints |
| Average.LongIntColumn | src/gdk/gdk_aggr.c:1356-1428 | for every larger n a column of ints whose average is wrong |
| Average.AddRow | src/gdk/gdk_aggr.c:1120-1135 | one row keeps the accumulators of its group, within the safe count without overflow |
| Average.GroupAverages | src/gdk/gdk_aggr.c:1102-1147 | every group of at most 2^30 values, and of any size unless of type int, gets its exact mean, or nil |
| Average.GroupExact | src/gdk/gdk_aggr.c:1102-1147 | AGGR_AVG is exact for all groups of n values iff those are not more than 2^30 ints |
| Average.LongIntGroup | src/gdk/gdk_aggr.c:1102-1147 | a group of ints whose average is wrong, for every larger n with a surplus that is not harmless |
| Average.HarmlessCounts | src/gdk/gdk_aggr.c:1042-1086 | the two int counts above 2^30 at which wrap-around happens to cancel |
| Calc.AddWithCheck | src/gdk/gdk_calc_private.h:82-103 | the sum exactly if it is a value of the type; otherwise an abort if errors abort, and a nil if not |
| Calc.Magnitude | src/gdk/gdk_calc_private.h:119-149 | the shifted cross term plus the low product never wraps when it is used |
| Calc.MulMagnitude | src/gdk/gdk_calc_private.h:119-149 | from 32-bit halves: accepts iff the product is below 2^63, and then it is exact |
| Calc.LngMulCheck | src/gdk/gdk_calc_private.h:119-149 | for all non-nil operands: the exact product iff it is a non-nil lng; otherwise an abort or a nil, as asked |
| Delta.InsertTruthful | src/gdk/gdk_bat.c:1084-1162 | comparing with the last value only keeps sorted, revsorted, key and dense true |
| Delta.InsertExact | src/gdk/gdk_bat.c:1084-1162 | while values are only inserted, sorted and revsorted are set iff the column is, dense iff it is, and key iff it goes strictly up or down |
| Delta.DropFirstTruthful | src/gdk/gdk_bat.c:1391-1402 | deleting the first BUN keeps them true and loses none, with the new seqbase |
| Delta.MoveFirstTruthful | src/gdk/gdk_bat.c:1403-1436 | so does moving the first BUN, which keeps key |
| Delta.MoveLastTruthful | src/gdk/gdk_bat.c:1468-1517 | moving the last BUN, compared with one neighbour only, keeps them true, keeps key, and keeps each order iff the column still has it |
| Delta.ReplaceTruthful | src/gdk/gdk_bat.c:1631-1665 | replacing a tail value keeps them true, keeps each order iff the column still has it, and key and dense iff it is the only value |
| Delta.ZapTruthful | src/gdk/gdk_delta.c:194-202 | so does BATundo |
| Delta.Conservation | src/gdk/gdk_delta.c:226-311 | current + deleted = previous + inserted, as multisets |
| Delta.UndoExact | src/gdk/gdk_delta.c:216-217 | BATundo makes the committed BUNs current iff batDeleted is 0 |
| Delta.Bat.Ins | src/gdk/gdk_bat.c:1186-1252 | appends one BUN, which is new since the commit; committed BUNs and true flags are kept, and exact flags stay exact |
| Delta.Bat.DeleteCommitted | src/gdk/gdk_bat.c:1387-1437 | takes out exactly this BUN, keeps it among the committed ones, and adds it to the deleted ones |
| Delta.Bat.DeleteInserted | src/gdk/gdk_bat.c:1438-1521 | takes out exactly this BUN, also from the new ones; committed ones are untouched |
| Delta.Bat.Delete | src/gdk/gdk_bat.c:1377-1544 | BUNdelete, and where a deleting loop goes on |
| Delta.Bat.DeleteAll | src/gdk/gdk_bat.c:525-531 | the loop that deletes one by one |
| Delta.Bat.Clear | src/gdk/gdk_bat.c:506-609 | BATclear leaves no BUN, none new and all committed ones deleted and restorable, one by one or at once |
| Delta.Bat.Commit | src/gdk/gdk_delta.c:44-99 | what is current is committed, and nothing is new or deleted |
| Delta.Bat.Undo | src/gdk/gdk_delta.c:131-217 | restores the committed multiset iff batDeleted is 0, and then with true flags |
| Delta.Bat.ReplaceInserted | src/gdk/gdk_bat.c:1604-1669 | a new BUN gets the tail where it stands |
| Delta.Bat.InPlace | src/gdk/gdk_bat.c:1601-1679 | exactly one BUN is exchanged: a new one in its place, a committed one by deleting it and inserting the other |
| Delta.Bat.Replace | src/gdk/gdk_bat.c:1681-1710 | a BUN with that head, if any, gets the tail |
| Delta.Bat.Versions | src/gdk/gdk_delta.c:226-311 | BATprev gives the committed BUNs, BATalpha those inserted and BATdelta the committed ones deleted since; current + delta = prev + alpha |
| Delta.UndoAfterCommittedDelete | src/gdk/gdk_delta.c:131-217 | a run after which BATundo gives a BUN too many |
| MapReduce.TaskQueue.Enqueue | src/gdk/gdk_mapreduce.c:81-103 | adds exactly the given tasks to those pending, also when the array doubles |
| MapReduce.TaskQueue.Dequeue | src/gdk/gdk_mapreduce.c:105-125 | hands out one pending task, which is no longer pending |
| MapReduce.WokenFindsTask | src/gdk/gdk_mapreduce.c:111-114 | a worker past the semaphore finds a task |
| MapReduce.PostsToLive | src/gdk/gdk_mapreduce.c:140-160 | no worker holds a task, or has one to post, of a call that has returned |
| MapReduce.StepInv | src/gdk/gdk_mapreduce.c:81-160 | every action of every thread keeps the invariant |
| MapReduce.RunInv | src/gdk/gdk_mapreduce.c:81-160 | so does every interleaving |
| MapReduce.ExactlyOnce | src/gdk/gdk_mapreduce.c:81-160 | no task runs twice or unsubmitted, a call that returned has had all its tasks run once, and no worker refers to it any more |
| MapReduce.Progress | src/gdk/gdk_mapreduce.c:127-160 | no deadlock: while a call has not returned some thread can move |
| MapReduce.RankDecreases | src/gdk/gdk_mapreduce.c:81-160 | every action but a new call brings the system closer to its end |
| MapReduce.RunLength | src/gdk/gdk_mapreduce.c:81-160 | so the length of a run is bounded |
| MapReduce.EveryoneReturns | src/gdk/gdk_mapreduce.c:140-160 | without new calls every run ends, and only with all callers returned |
| MapReduce.CallCompletes | src/gdk/gdk_mapreduce.c:127-160 | whoever calls MRschedule with n tasks gets each of them run once, and returns |
| Text.MaskExact | src/gdk/gdk_atoms.c:1247-1260 | utf8chkmsk tells exactly whether a shorter form exists |
| Text.CheckByte | src/gdk/gdk_atoms.c:1346-1381 | a byte is refused iff no continuation is UTF-8 in shortest form |
| Text.HexEscape | src/gdk/gdk_atoms.c:1297-1308 | \x and two digits of either case stand for the byte with these digits |
| Text.ShortHexEscape | src/gdk/gdk_atoms.c:1297-1308 | \x and one digit for that number, and without a digit for x |
| Text.OctalEscapes | src/gdk/gdk_atoms.c:1276-1296 | one, two and three octal digits stand for their number, below 256 |
| Text.LetterEscapes | src/gdk/gdk_atoms.c:1309-1338 | the letters abtnfr stand for codes 7, 8, 9, 10, 12 and 13, a final backslash and all else for itself |
| Text.HexDecoded | src/gdk/gdk_atoms.c:1262-1390 | any bytes written in hexadecimal are read back |
| Text.PlainAccepted | src/gdk/gdk_atoms.c:1262-1390 | text without backslash is accepted iff it is a sequence of shortest-form characters of one to six bytes |
| Text.StrFromText | src/gdk/gdk_atoms.c:1262-1390 | writes the unescaped bytes and a zero inside the buffer; accepted iff they are UTF-8 |
| Text.EscapedLength | src/gdk/gdk_atoms.c:1463-1493 | escapedStrlen is the length of what escapedStr writes, for every string |
| Text.WriteEscaped | src/gdk/gdk_atoms.c:1495-1532 | escapedStr writes the escaped string and a zero inside the buffer |
| Text.EscapedClean | src/gdk/gdk_atoms.c:1495-1532 | what escapedStr writes has no control characters, also not those from U+0080 to U+009F |
| Text.PlainEscaped | src/gdk/gdk_atoms.c:1495-1532 | text without control characters, quotes and backslashes is written as it is |
| Text.Scout | src/gdk/gdk_atoms.c:1411-1422 | scouting stops at the first quote that is not escaped, or fails at the end of the string |
| Text.ScoutEnough | src/gdk/gdk_atoms.c:1411-1432 | the buffer it asks for holds the unescaped text |
| Text.StrFromStr | src/gdk/gdk_atoms.c:1392-1445 | a closed quoted text that is UTF-8 is read; without a quote the result is past "nil" iff that follows; anything else gives nil and 0 |
| Text.StrToStr | src/gdk/gdk_atoms.c:1534-1553 | the quoted, escaped text, or nil |
| Text.RoundTrip | src/gdk/gdk_atoms.c:1392-1553 | in what strToStr writes, scouting ends at the closing quote and reading gives the string back |
| Text.WriteAndRead | src/gdk/gdk_atoms.c:1392-1553 | strFromStr after strToStr gives back every UTF-8 string without a zero byte |

## Left out

- STORE_MMAP and STORE_PRIV heaps with their .new and .kill files, file names beyond BAT and extension, and commits that fail without a crash.
- Commit: BATs are swapped out, dropped and taken back between commits, not while one runs; which BATs are in memory does not change during a subcommit.
- Commit: a commit that moves the old BBP.dir back instead of writing one (CheapDir) is one that changes no line of it.
- Writing of heaps (BATsave): saving writes exactly the heaps that the backup phase saw dirty, and other heaps of committed BATs are on disk.
- Locks, waiting and status bits of the BBP: reference counting is sequential, without BBPcold, BBPDELETED BATs and unloading; the sign of a bat id (mirror) is a choice of side, and a shared head and tail column is two equal columns.
- ViewRefs: heaps that were copied from a parent (heap.copied).
- ViewRefs.Pool.ViewCreate: shares the links of one column after the other, the source both heaps before both vheaps; the counts are the same.
- FreeHeap: positions count 8-byte words, so that alignment is by construction; the bit masks of HEAP_check are sets; the repairs of HEAP_check and HEAP_init on damaged heaps.
- StrHeap: the byte order of words in memory is fixed (low byte first).
- Group: the three trivial cases at the start of BATgroup_internal, extents or histo not asked for, and floating-point or string values.
- SubSort.SubSort: what becomes of the rows when g is accepted with another size than b.
- SubSort.SortColumns: columns start at oid 0, since the order is numbered from 0 (gdk_batop.c:1353) and fetched by the oids of b.
- SubSort: do_sort itself, of which only its contract is assumed; calls without the order output.
- Join: inner and semi mergejoin with a sorted left column (the skip step, gdk_join.c:256-271, reads both sides without a bounds test), nil_matches, growth of the result BATs, the operator string of thetajoin, and the flags of the result other than the order of r1.
- Join.CandInit: listed candidates are rows of the column; CANDINIT clips the range of a list, but not the list.
- BATmergecand and BATintersectcand: they would add plain merge loops only.
- Imprints: the choice of the bounds; masks are sets of bit numbers.
- Average: floating point and the final division. Counts are below 2^63, and signed overflow, which C leaves undefined, wraps around.
- Delta.Bat.Undo: undo that would reach beyond the allocated slots.
- Delta: void columns, forced operations, BOUND2BTRUE and batSet, the nil flags and hash tables.
- MapReduce: creation of the queue and a failing reallocation in MRenqueue.
- Text.WriteEscaped: buffers too short for the text, which the source's own assertion (gdk_atoms.c:1529) excludes.
- Text: bit operations are written as arithmetic on bytes; the ASCII_CHR build.
