# HiBase/Shades: a verified model

HiBase is a main-memory database. Its index structures are persistent: an update builds new cells and
leaves the old version readable. It commits by writing one root block per batch, and after a crash it
starts again from the newest root block on disk. This project models the parts of version 0.1.3 on which
that depends, and proves what they promise.

| part | modules | source |
|---|---|---|
| disk space, roots, recovery | DiskLayout, RootSearch, IoSteps, IoInvariant, IoRuns, IoRecovery, IoDurability, IoPlacement, IoSystem | io.c, root.c, asyncio-pthread.c |
| queues and heaps | RealTimeQueue, LogQueue, BinomialHeap, BinomialCells, BinomialStore | queue.c, lq.c, priq.c |
| 2-3-4 trees | Tree234, Tree234Insert, Tree234Delete, Tree234DeleteProofs (values); Tree234Cells, Tree234InsertPass, Tree234TransformPass, Tree234DeletePass (cells) | ist234.c |
| AVL trees | AvlTree, AvlWords, AvlPass, AvlPath | avl.c |
| tries | TrieKeys, TrieTables, Trie, TrieInsert, TrieDelete, TrieDeletePass, TrieSearch, TrieSearchPass (triev2.c); QuadTrie (values), QuadTrieCells, QuadTriePass (cells) | triev2.c, trie.c |
| byte code | Assembler, CallResolution, CallCode, CallPass, Scheduler, GlobalCache | asm.c, interp.c, insn-def.h, insn-calls.h |
| ropes and buffers | Rope, RopeBuild, RingBuffer | shtring.c, shtring_internal.c, net.c |
| used by several | Wrappers, CellStore | shades.c |

How the model is built:

- The source's loops are methods with loops. Each is proved against a recursive specification function,
  and the properties are lemmas about that function. For disk space (IoSystem), the scheduler and the
  buffers the methods update the fields of a class as the source updates its globals and records.
- For priq.c, ist234.c and trie.c memory is a store of cells. `old(cells) <= cells`, or `Extends(old(s.cells), s.cells)`,
  says that no cell from before a call has been written to, so every older version is still there.
- Disk and writer threads are a state machine over atomic steps: request, take, land, finish, drain, write a
  root, crash. A run is any sequence of such steps.
- A key of a trie is the sequence of its base-4 digits, of any length; a word is an integer, wrapped where the
  source's width matters (stamps, page counters).
- Allocation is counted in words where the source states a bound: queue.c, lq.c, avl.c, `shtring_create`,
  `load_bcode`.

## Model

| member | source | states |
|---|---|---|
| DiskLayout.NewerIsGreater | hibase-0.1.3/root.c:59-70 | comparing time stamps by halves is comparing the 64-bit numbers |
| DiskLayout.IncrementIsNewer | hibase-0.1.3/root.c:49-57 | an incremented stamp is newer than the old one if and only if that was not the very last stamp, where the count wraps |
| DiskLayout.NewestIsUnique | hibase-0.1.3/io.c:880-900 | a root newer than every other root of a file is the one that looking at every page finds |
| DiskLayout.DataWriteKeepsOrder | hibase-0.1.3/io.c:427-477 | a data page written anywhere keeps the roots of the file in cyclic order of age |
| DiskLayout.RootWriteKeepsOrder | hibase-0.1.3/io.c:531-577 | the newest root, written at the write point, is the newest of the file, and the roots are in cyclic order from the page after it |
| DiskLayout.SortedAfterNewest | hibase-0.1.3/io.c:874-892 | with the cursor left on the newest root, as recovery leaves it, the cyclic order starts just behind it |
| RootSearch.SearchFile | hibase-0.1.3/io.c:720-871 | the binary search ends on every file, only ever answers a root, and on every file with roots in cyclic order and no root above an unused page answers exactly the newest root, or none if there is none |
| RootSearch.MoveLeftLimit | hibase-0.1.3/io.c:834-838 | when the middle root is newer than the left one, the newest is not below the middle |
| RootSearch.MoveRightLimit | hibase-0.1.3/io.c:839-844 | when it is not newer, the newest is not at the middle or above |
| RootSearch.MoveRightLimitToUnused | hibase-0.1.3/io.c:853-861 | there is no root above a page that was never written |
| RootSearch.LeftLimitIsNewest | hibase-0.1.3/io.c:793-827 | with only data pages between the limits the left limit is the newest root |
| IoRuns.WritePageKeeps | hibase-0.1.3/io.c:426-477 | a page write keeps the whole invariant: order of roots as they will be once all requests have landed, unused pages as a suffix, status against contents, counters |
| IoRuns.FreePageKeeps | hibase-0.1.3/io.c:961-971 | so does freeing a page |
| IoRuns.BeginRootKeeps | hibase-0.1.3/io.c:505-509 | so does beginning to wait for the writers |
| IoRuns.DrainFileKeeps | hibase-0.1.3/asyncio-pthread.c:575-606 | when a file's count of pending writes is zero nothing is queued or in flight for it, and stays so until the root is written |
| IoRuns.WriterEventKeeps | hibase-0.1.3/asyncio-pthread.c:394-496 | no step of a writer thread touches the last root or a page that a committed batch needs |
| IoRuns.WriteRootKeeps | hibase-0.1.3/io.c:529-577 | writing a root and then releasing the previous one keeps the invariant, as long as there is a stamp left |
| IoRecovery.SearchFindsLastRoot | hibase-0.1.3/io.c:717-913 | in every reachable state, in the middle of a batch too, the newest root over all files is the last one written |
| IoRecovery.RecoverKeeps | hibase-0.1.3/io.c:695-990 | after a crash at any point recovery establishes the invariant again, with exactly the declared pages allocated |
| IoRecovery.CreatedInv | hibase-0.1.3/io.c:238-301 | a new database satisfies the invariant |
| IoRecovery.EventKeeps | hibase-0.1.3/io.c:373-577 | every step of the main thread, of a writer thread, or a crash with recovery keeps the invariant, and only root writes use up a stamp |
| IoRecovery.RunKeeps | hibase-0.1.3/io.c:373-577 | so does every run |
| IoRecovery.CrashSafety | hibase-0.1.3/io.c:373-577 | after every run from a new database, in any order of page writes, frees, root writes, writer-thread steps (asyncio-pthread.c:289-606) and crashes, the search of io.c:695-907 finds the last root written, intact, and every page of the last commit that has not been freed since holds the data written to it |
| IoDurability.CommitSurvives | hibase-0.1.3/io.c:373-577 | said on the events alone: in every run from a new database, a page asked for before a root write holds its data at the end of the run, through every crash behind it, if it is never freed and is declared after each crash; and until the next root write the root found is the one written |
| IoDurability.RunsLeaveNothingOut | hibase-0.1.3/io.c:373-971 | the runs are all that can happen: in every reachable state short of the wait any wanted page may be freed, any file with a FREE page and a counter above 1 may get a page and a root write may begin, and once a root has been written the system may crash at any moment, with any part of the last commit declared after it |
| IoRecovery.RootFollowsItsPages | hibase-0.1.3/io.c:505-577 | when a root is written all requested pages are on disk; it goes to a page that is neither wanted nor the previous root, and the previous root is still on disk afterwards |
| IoRecovery.DurableIsOnDisk | hibase-0.1.3/io.c:418-446 | at every moment the pages of the last commit are on disk and no request is on its way to them |
| IoRecovery.CountersAreExact | hibase-0.1.3/io.c:909-913 | the total of free pages is exact in every reachable state; so is each file's, except that the file of the root found by the last recovery counts exactly one too few, which wraps to all ones when it has none |
| IoRecovery.RootCanBePlaced | hibase-0.1.3/io.c:513-541 | after the drain the search for a free page for the root succeeds if and only if the total counter is positive, so the assertion behind it is never reached |
| IoRecovery.RoomForRootIsKept | hibase-0.1.3/io.c:401-406 | once a root has been written and a page is free, every step leaves a free page for the next root |
| IoPlacement.PageFileIff | hibase-0.1.3/io.c:426-440 | the round robin of `io_write_page` finds a file if and only if some file has a FREE page and a counter above 1 |
| IoPlacement.PageFileIsFirst | hibase-0.1.3/io.c:426-440 | it is the first such file, cyclically, from the one after the file of the last write |
| IoPlacement.RootFileIsFirst | hibase-0.1.3/io.c:530-541 | a root goes to the first file, cyclically, that has a FREE page at all |
| IoPlacement.NextFreeIsFirst | hibase-0.1.3/io.c:430-434 | the page taken is the first FREE one at or cyclically after the cursor |
| IoPlacement.WritePageIs | hibase-0.1.3/io.c:391-477 | all that a page write changes, field by field: that page is ALLOCATED, the cursor is behind it, both counters are one less, the request is the last of its file, and the next write starts at the next file |
| IoPlacement.WriteRootIs | hibase-0.1.3/io.c:529-577 | all that a root write changes, page by page: the new root is on disk and ROOT, the previous one is FREE and everything else as it was |
| IoPlacement.DrainEnds | hibase-0.1.3/asyncio-pthread.c:575-606 | the wait for the writers is never stuck, and every way of taking its steps ends it after the same number of them, however the threads are interleaved |
| IoSystem.FreePagesMayNotSuffice | hibase-0.1.3/io.c:391-440 | that is not implied by the check at the top: in a new database of two files with one page each two pages are free and no file has a counter above 1 |
| IoSystem.DiskSpace.Create | hibase-0.1.3/io.c:238-301 | a new database starts in the state of the state machine, which satisfies the invariant |
| IoSystem.DiskSpace.SeekFree | hibase-0.1.3/io.c:430-434 | the walk of a cursor stops at the first FREE page at or cyclically after it, and comes round to its place if and only if the file has none |
| IoSystem.DiskSpace.AsyncioWritePage | hibase-0.1.3/asyncio-pthread.c:289-299 | a request goes last in the queue of its file and is counted |
| IoSystem.DiskSpace.SeekDataFile | hibase-0.1.3/io.c:426-440 | the outer loop finds a file if and only if some file has a FREE page and a counter above 1, settles on the first one, and moves only that file's cursor |
| IoSystem.DiskSpace.SeekRootFile | hibase-0.1.3/io.c:530-541 | likewise for the root, which may take the last free page of a file |
| IoSystem.DiskSpace.WritePage | hibase-0.1.3/io.c:391-477 | a page is placed if and only if the total is not 0 and some file has a FREE page and a counter above 1; then the method is the step of the state machine, and else it changes no page |
| IoSystem.DiskSpace.FreeDiskPage | hibase-0.1.3/io.c:961-971 | just that page becomes FREE, as in the step of the state machine, and nothing at all changes for a page that is free |
| IoSystem.DiskSpace.WriteRoot | hibase-0.1.3/io.c:511-577 | once the drain has returned it is the root step, if and only if that step is enabled |
| IoSystem.DiskSpace.SearchFiles | hibase-0.1.3/io.c:717-907 | the loop over the files ends with the newest root over all of them and each cursor on its file's newest |
| IoSystem.DiskSpace.ReadRoot | hibase-0.1.3/io.c:695-948 | it finds a root exactly when there is one on disk, and sets the next stamp one above it |
| IoSystem.DiskSpace.DeclareUnallocatedFree | hibase-0.1.3/io.c:980-990 | every page of unknown status becomes FREE, no other changes, and the total is the number of free pages |
| IoSystem.Recover | hibase-0.1.3/io.c:695-990 | from what a crash leaves of any reachable state, opening, searching and declaring gives exactly the recovery step of the state machine, if and only if a root was ever written |
| RealTimeQueue.StartTransfer | hibase-0.1.3/queue.c:108-117 | the starting moves lose no item and leave an even, equal number of cells on both lists |
| RealTimeQueue.TurnOver | hibase-0.1.3/queue.c:166-177 | phase one moves two pairs, loses no item and keeps the lists equally long |
| RealTimeQueue.PutBack | hibase-0.1.3/queue.c:143-157 | phase two takes the odd item first and never puts back more items than the head still has |
| RealTimeQueue.Advance | hibase-0.1.3/queue.c:143-178 | one call's share of a transfer leaves a valid queue of the same items |
| RealTimeQueue.HeadOutlastsTransfer | hibase-0.1.3/queue.c:248-255 | during a transfer the head has at least two items, so a removal never empties it |
| RealTimeQueue.TailFits | hibase-0.1.3/queue.c:279-287 | when a transfer ends the tail has not outgrown the new head |
| RealTimeQueue.InsertLast | hibase-0.1.3/queue.c:65-180 | insertion appends to the abstract sequence and keeps the queue valid; every list of the result is new cells in front of a rest of one of the given lists, and with the header these cells, ten at most, fit the words counted, which stay within the announced ones (queue.h:27-28) |
| RealTimeQueue.RemoveFromBalanced | hibase-0.1.3/queue.c:195-235 | removal with head and tail equally long, where a transfer starts, gives the items without the first |
| RealTimeQueue.RemoveFromTransfer | hibase-0.1.3/queue.c:248-299 | so does removal in the middle of a transfer |
| RealTimeQueue.RemoveFirst | hibase-0.1.3/queue.c:184-302 | removal takes exactly the first item, is empty if and only if it was the only one, and makes its lists likewise within the announced words |
| RealTimeQueue.GetFirst | hibase-0.1.3/queue.h:33-45 | the item read is the first of the abstract sequence |
| RealTimeQueue.Run | hibase-0.1.3/queue.c:65-302 | under every sequence of operations the queue holds, and gives out, what a first-in first-out sequence does |
| LogQueue.PerfectSize | hibase-0.1.3/lq.c:58-178 | a tree of height h has 2^(h+1) - 1 items |
| LogQueue.NewItemIsNewest | hibase-0.1.3/lq.c:70-178 | a new item over any tail keeps the trees perfect and their heights a skew-binary number, comes last in order, and fits the bound (lq.h:20) |
| LogQueue.InsertAppends | hibase-0.1.3/lq.c:58-178 | insertion appends |
| LogQueue.InsertWords | hibase-0.1.3/lq.c:58-178 | the words counted are those of the new cells: the entry point, the item, and copies of its two sons when it is a tree |
| LogQueue.UnpackedItems | hibase-0.1.3/lq.c:334-376 | unpacking drops exactly the oldest item and keeps the order of the rest |
| LogQueue.TurnedOverItems | hibase-0.1.3/lq.c:243-332 | so does reversing the tail, and the head is empty afterwards only if that was the only item |
| LogQueue.RemoveTakesFirst | hibase-0.1.3/lq.c:181-377 | removal takes exactly the oldest item |
| LogQueue.Unpack | hibase-0.1.3/lq.c:334-376 | the loop computes the unpacked head with seven words a level and three |
| LogQueue.Reverse | hibase-0.1.3/lq.c:243-332 | the loop computes the reversed head with at most four words a tree besides the unpacking |
| LogQueue.RemoveFirst | hibase-0.1.3/lq.c:181-377 | the words counted are those of a new entry point and of the cells of the new head up to where the given one goes on, none if the queue is empty then; up to 2^32 items they stay within the announced words (lq.h:20-21) |
| LogQueue.FewTrees | hibase-0.1.3/lq.c:70-178 | a tail has at most two trees more than its last tree is higher than its first, and at least as many items as its last tree |
| LogQueue.RunIsFifo | hibase-0.1.3/lq.c:58-377 | under every sequence of operations the contents are those of a first-in first-out sequence |
| LogQueue.GetFirst | hibase-0.1.3/lq.c:21-43 | what is read is the oldest item of the first tree of the tail |
| LogQueue.GetFirstIsFrontIff | hibase-0.1.3/lq.c:21-43 | that stands at the front of the queue if and only if there is no head and the tail is a single tree |
| BinomialHeap.SonsCount | hibase-0.1.3/priq.c:112-145 | a tree of height h has 2^h items |
| BinomialHeap.MergedKeeps | hibase-0.1.3/priq.c:90-242 | the merge of two heaps is a heap, with strictly rising heights although three trees of one height may meet, of exactly the items of both |
| BinomialHeap.DeletedKeeps | hibase-0.1.3/priq.c:285-354 | deletion keeps the heap and removes exactly one occurrence of a least item |
| BinomialHeap.InsertedKeeps | hibase-0.1.3/priq.c:257-280 | insertion keeps the heap and adds exactly the item |
| BinomialHeap.MinIsLeast | hibase-0.1.3/priq.c:64-85 | no item is below the least root |
| BinomialStore.Store.LinkCarried | hibase-0.1.3/priq.c:117-145 | linking the two first trees writes only to a cell that the call itself has allocated |
| BinomialStore.Store.LinkEqual | hibase-0.1.3/priq.c:162-188 | linking the first trees of both queues leaves every cell alone and one tree to carry |
| BinomialStore.Store.MergeStep | hibase-0.1.3/priq.c:107-189 | each round keeps what the final result will be, changes no cell from before the call, and leaves fewer trees |
| BinomialStore.Store.Merge | hibase-0.1.3/priq.c:90-242 | the result pointer holds the merged heap and no cell from before the call has changed |
| BinomialStore.Store.FindMinItem | hibase-0.1.3/priq.c:245-252 | the item read occurs in the heap and none is smaller |
| BinomialStore.Store.Insert | hibase-0.1.3/priq.c:257-280 | the result pointer holds the heap with the item; the given heap is still there |
| BinomialStore.Store.Delete | hibase-0.1.3/priq.c:285-354 | the result pointer holds the heap without its least item; the given heap is still there |
| Tree234.LookupFindsEntries | hibase-0.1.3/ist234.c:61-165 | in an ordered tree the search answers a datum if and only if that entry occurs somewhere in the tree |
| Tree234.HeightBound | hibase-0.1.3/ist234.c:171-181 | a tree of height h has at least 2^h - 1 keys |
| Tree234.PathIsLongEnough | hibase-0.1.3/ist234.c:171-181 | below 2^32 keys no path is longer than the 32 slots of `path` |
| Tree234Insert.InsertKeepsTree | hibase-0.1.3/ist234.c:171-503 | insertion keeps the keys in order and all leaves at one depth, at most one deeper |
| Tree234Insert.InsertIsUpdate | hibase-0.1.3/ist234.c:171-503 | at the key the new tree answers the datum, or what the update function makes of the old datum and it, and at every other key what the old tree does; an insertion that is lost gives the old tree |
| Tree234Insert.StoredUnlessLost | hibase-0.1.3/ist234.c:242-249 | the key has that datum afterwards if and only if the test for an insertion without effect did not find it in the wrong slot |
| Tree234Insert.LostInSecondSlot | hibase-0.1.3/ist234.c:242-249 | a datum is lost only at the second key of a node whose first key has that datum already |
| Tree234Insert.SameIff | hibase-0.1.3/ist234.c:242-255 | an insertion is without effect if and only if the slot compared holds the wanted datum |
| Tree234Insert.LostExample | hibase-0.1.3/ist234.c:246-249 | an insertion that is lost |
| Tree234DeleteProofs.EntryDeletedKeeps | hibase-0.1.3/ist234.c:935-1195 | whatever takes a deleted entry's place, successor, predecessor or joined kids, only that key is gone and the order is kept |
| Tree234DeleteProofs.JoinedKeeps | hibase-0.1.3/ist234.c:1082-1128 | two joined 2-nodes hold what they held, without the entry that stood between them |
| Tree234Delete.TransformLookup | hibase-0.1.3/ist234.c:505-741 | enlarging a 2-node before it is entered changes no answer |
| Tree234Delete.TransformOrdered | hibase-0.1.3/ist234.c:505-741 | nor the order of the keys |
| Tree234Delete.TransformUniform | hibase-0.1.3/ist234.c:505-741 | nor the depth of the leaves, which is one less just when two levels have become one |
| Tree234DeleteProofs.DeleteKeepsTree | hibase-0.1.3/ist234.c:780-1196 | deletion keeps the keys in order and all leaves at one depth, at most one less |
| Tree234DeleteProofs.DeleteIsRemoval | hibase-0.1.3/ist234.c:780-1196 | at the key the new tree answers nothing, or what the `delete_fun` makes of the old datum, and at every other key what the old tree does; without the key, and where the change has no effect, the tree is the given one |
| Tree234Cells.TreeKept | hibase-0.1.3/ist234.c:743-762 | what hangs from a pointer is the same after any change that leaves the cells from before alone |
| Tree234Cells.Find | hibase-0.1.3/ist234.c:61-165 | the search over cells answers what the tree holds |
| CellStore.Store.Restore | hibase-0.1.3/ist234.c:796-800 | giving the allocations back restores exactly the cells and the allocation point from before |
| Tree234InsertPass.AddedToCell | hibase-0.1.3/ist234.c:323-482 | the words written for one more entry in a node, or for its two halves, are those of the nodes wanted |
| Tree234InsertPass.Insert | hibase-0.1.3/ist234.c:171-503 | the result pointer holds the inserted tree and no cell from before the call has changed; the given root is returned, with nothing allocated, if the slot compared holds the wanted datum |
| Tree234TransformPass.CopyAndTransform | hibase-0.1.3/ist234.c:505-741 | the new node holds the transformed node, only it and the enlarged kid are left open to be written to, and both are new cells |
| Tree234DeletePass.ChainClosed | hibase-0.1.3/ist234.c:868-893 | once a tree is stored in the slot `pp` the whole new tree hangs from `new_root` |
| Tree234DeletePass.Own | hibase-0.1.3/ist234.c:945-954 | whatever `is_not_copied_yet` says, afterwards the node is a cell of this call, linked to what has been made so far |
| Tree234DeletePass.TransformAndLink | hibase-0.1.3/ist234.c:882-894 | likewise with the node transformed, on one level or two |
| Tree234DeletePass.ReplaceByEnd | hibase-0.1.3/ist234.c:942-1028 | the entry at the end of the next or previous kid is stored above, in a cell of this call, while the way there is still being copied |
| Tree234DeletePass.EntryDeletedForgets | hibase-0.1.3/ist234.c:1109-1128 | the result does not depend on the two slots of a joint that have not been written yet |
| Tree234DeletePass.JoinKids | hibase-0.1.3/ist234.c:1082-1128 | the joined kids hang from the new tree, or the deletion goes on in a new 4-node with the same result |
| Tree234DeletePass.DeleteEntry | hibase-0.1.3/ist234.c:935-1195 | deleting a found entry gives the tree without it and writes to no cell from before |
| Tree234DeletePass.ChangeEntry | hibase-0.1.3/ist234.c:915-931 | a `delete_fun` changes the datum in a cell of this call, and the whole new tree hangs from the result |
| Tree234DeletePass.Search | hibase-0.1.3/ist234.c:790-913 | the search copies and enlarges on its way, keeps what the deletion will give, and ends at the entry if and only if the key is there |
| Tree234DeletePass.Delete | hibase-0.1.3/ist234.c:780-1196 | the result pointer holds the tree without the key, or with its datum changed, and no cell from before the call has changed; without the key the given root is returned and nothing is left allocated; a change without effect returns the given root, and leaves nothing allocated if and only if the entry is in the root |
| AvlTree.LookupFindsLeaves | hibase-0.1.3/avl.c:185-235 | in an ordered tree the search answers a datum if and only if that leaf occurs somewhere in the tree |
| AvlTree.SimpleRightKeeps | hibase-0.1.3/avl.c:40-65 | the rotation keeps the order and every answer |
| AvlTree.SimpleLeftKeeps | hibase-0.1.3/avl.c:67-94 | likewise |
| AvlTree.DoubleRightKeeps | hibase-0.1.3/avl.c:96-131 | likewise |
| AvlTree.DoubleLeftKeeps | hibase-0.1.3/avl.c:133-160 | likewise |
| AvlTree.FixInsertedBalances | hibase-0.1.3/avl.c:677-690 | a node out of balance by growth is an AVL tree again, with exact heights and as high as before the growth |
| AvlTree.FixDeletedBalances | hibase-0.1.3/avl.c:740-753 | a node out of balance by shrinking is an AVL tree again, at most one lower |
| AvlTree.InsertedBalances | hibase-0.1.3/avl.c:623-692 | insertion keeps exact heights and balances of -1, 0 or 1, and grows the tree by at most one |
| AvlTree.InsertedOrdered | hibase-0.1.3/avl.c:640-657 | insertion keeps left keys at most the guide and right keys greater |
| AvlTree.InsertedLookup | hibase-0.1.3/avl.c:623-692 | at every key the new tree answers as the updated map |
| AvlTree.DeletedBalances | hibase-0.1.3/avl.c:697-769 | deletion keeps exact heights and balances, and is empty only for a single leaf |
| AvlTree.DeletedOrdered | hibase-0.1.3/avl.c:697-769 | deletion keeps the order |
| AvlTree.DeletedLookup | hibase-0.1.3/avl.c:697-769 | at every key the new tree answers as the map without the key |
| AvlPass.ClimbIsInserted | hibase-0.1.3/avl.c:664-691 | replaying any history built by descent gives what insertion by recursion gives |
| AvlPass.ClimbIsDeleted | hibase-0.1.3/avl.c:739-768 | likewise for deletion |
| AvlPass.ClimbIsPlug | hibase-0.1.3/avl.c:372-400 | once a subtree is as high as it was nothing above it needs a repair or a new height |
| AvlPass.RepairRestoresHeight | hibase-0.1.3/avl.c:376-396 | a rotation in insertion undoes the growth that made it necessary |
| AvlPass.BuildHistoryForInsert | hibase-0.1.3/avl.c:772-828 | the history is one that `avl_bc_insert` may be given |
| AvlPass.BuildHistoryForDelete | hibase-0.1.3/avl.c:830-874 | a history is found if and only if the key is there, and leads to its leaf |
| AvlPass.BcInsert | hibase-0.1.3/avl.c:623-692 | from any such history the loop builds the inserted tree; the words counted cover every cell of it that the given tree does not have, and are at most four a level, seven for the new leaf and node, and one rotation |
| AvlPass.BcDelete | hibase-0.1.3/avl.c:697-769 | from any such history the loop builds the tree without the leaf; the words counted cover every cell that the given tree does not have, and are at most twelve a level |
| AvlPass.AtLeastFibLeaves | hibase-0.1.3/avl.h:55-63 | an AVL tree of height h has at least Fib(h + 2) leaves |
| AvlPass.HeightBound | hibase-0.1.3/avl.h:55-95 | below 2^32 leaves the height is below 48, `path[50]` is long enough, and insertion and deletion stay within 207 and 583 words |
| AvlPath.Insert | hibase-0.1.3/avl.c:237-404 | stopping at the first rotation gives the same tree as replaying the whole history, and the words counted cover its new cells within the announced ones: the datum stored is the given one if there is no update function, else what that makes of the leaf where the search ends |
| AvlPath.InsertIsUpdate | hibase-0.1.3/avl.c:237-404 | at the key the new tree answers the given datum, or what the update function makes of the key's old one, and at every other key what the old tree does |
| AvlPath.UpdateIsRightIff | hibase-0.1.3/avl.c:310-311 | that datum is what every update function makes of the key's old datum, or of none, if and only if the key is there or the tree is empty |
| AvlPath.NilpotentInsert | hibase-0.1.3/avl.c:315-319 | storing what is there is no change |
| AvlPath.Delete | hibase-0.1.3/avl.c:424-561 | without the key the tree is the given one; a delete function gives the tree with the datum changed; otherwise the result is that of the recursive deletion, or the cell moved down by a rotation at the root; the words counted cover its new cells |
| AvlPath.RotatesIff | hibase-0.1.3/avl.c:534-560 | the root is rotated if and only if, after the deletion below it, one of its sons is more than one higher than the other |
| AvlPath.DemotedIsSon | hibase-0.1.3/avl.c:534-560 | what `path[0].node` names after that is a son of the new root |
| AvlPath.DemotedLosesKey | hibase-0.1.3/avl.c:534-560 | the cell returned after a rotation at the root does not have all keys of the rotated tree |
| AvlPath.DeleteIsRightUnlessRootRotates | hibase-0.1.3/avl.c:534-560 | `avl_delete` removes the key and keeps every other one if and only if the root is not rotated |
| AvlPath.RootRotationExample | hibase-0.1.3/avl.c:534-560 | a tree of five leaves in which deleting one loses two others |
| TrieTables.ShapeIsBits | hibase-0.1.3/triev2.c:29-165 | a shape's number read as bits says for which digits it has sons |
| TrieTables.OffsetIsRank | hibase-0.1.3/triev2.c:29-165 | `offset` gives a son's slot as the number of sons for smaller digits, plus one |
| TrieTables.DeoffsetIsDigit | hibase-0.1.3/triev2.c:29-165 | `deoffset` is the inverse of `offset` |
| TrieTables.GreatestIsRank | hibase-0.1.3/triev2.c:29-165 | `greatest_non_null` gives the slot of the last son below a digit |
| TrieTables.FirstNonexistentIsFirst | hibase-0.1.3/triev2.c:29-165 | `first_nonexistent_key` is the least digit without a son |
| TrieTables.BiHasTwo | hibase-0.1.3/triev2.c:29-165 | `bi_cell_type` is the shape with exactly the two sons |
| TrieTables.WithoutDropsOne | hibase-0.1.3/triev2.c:29-165 | `cell_type_without` is the shape with just that son less |
| TrieTables.SwitchShape | hibase-0.1.3/triev2.c:657-1054 | each of the sixty cases of the copying switch makes the shape with just that son added |
| TrieTables.SwitchCopies | hibase-0.1.3/triev2.c:657-1054 | and each copies every old son to the slot that it has in the new shape |
| Trie.Find | hibase-0.1.3/triev2.c:166-209 | the loop answers what the trie holds at the key |
| TrieInsert.InsertedValid | hibase-0.1.3/triev2.c:598-1130 | insertion keeps every node with at least one son, prefixes of at most ten digits, and data just where keys end |
| TrieInsert.InsertedLookup | hibase-0.1.3/triev2.c:598-1130 | at every key the new trie answers as the updated map |
| TrieInsert.InsertedPrefix | hibase-0.1.3/triev2.c:598-1130 | the node made, or split, or copied has the longest prefix that its keys have in common, up to ten digits, and a node is split exactly at the first digit that differs |
| TrieInsert.SplitLookup | hibase-0.1.3/triev2.c:1090-1128 | a node split at the first differing digit answers as before for every key that does not take the new branch |
| TrieInsert.InsertIsUpdate | hibase-0.1.3/triev2.c:598-1130 | insertion with a joining function is the update of a map, at every key |
| TrieInsert.OpenChain | hibase-0.1.3/triev2.c:625-636 | a new chain node, once its open slot is filled, is what insertion into nothing gives |
| TrieInsert.OpenSplit | hibase-0.1.3/triev2.c:1090-1128 | likewise for a split node |
| TrieInsert.OpenCopy | hibase-0.1.3/triev2.c:657-1057 | likewise for a copied node |
| TrieInsert.InsertLoop | hibase-0.1.3/triev2.c:598-1130 | the loop, which links each new node into the slot left open above it, builds that trie, or returns the given one |
| TrieDelete.MergedValid | hibase-0.1.3/triev2.c:1698-1716 | a node joined with its only son is well formed: the prefix has at most ten digits |
| TrieDelete.MergedLookup | hibase-0.1.3/triev2.c:1694-1728 | and answers for every key as before, but for those under the lost son |
| TrieDelete.AfterLookup | hibase-0.1.3/triev2.c:1687-1771 | whatever becomes of a node when one son changes, shrunk, merged, removed or copied, only the answers under that son change |
| TrieDelete.AfterLoss | hibase-0.1.3/triev2.c:1689-1742 | a node that loses a son vanishes if and only if it was the only one, and is merged with the son that is left if and only if that is a node and both prefixes fit; else it has one son less |
| TrieDelete.ChangedLookup | hibase-0.1.3/triev2.c:1675-1774 | along the whole path only the answer at the key changes |
| TrieDelete.DeleteIsUpdate | hibase-0.1.3/triev2.c:1609-1774 | after a deletion the trie is well formed and `triev2_find` (triev2.c:166-209) answers at every key as the map with that entry changed or removed |
| TrieDeletePass.CopyAllBut | hibase-0.1.3/triev2.c:1734-1738 | the loop copies all sons but one, in order |
| TrieDeletePass.Lose | hibase-0.1.3/triev2.c:1689-1742 | a node that loses a son becomes what the specification says, whether it vanishes, merges or shrinks |
| TrieDeletePass.Descend | hibase-0.1.3/triev2.c:1637-1673 | the way down fails if and only if the key is not there, and else leaves its path |
| TrieDeletePass.Ascend | hibase-0.1.3/triev2.c:1684-1773 | the two loops up compute the changed trie |
| TrieDeletePass.DeleteLoop | hibase-0.1.3/triev2.c:1609-1774 | the whole of `triev2_delete` computes the specified trie |
| TrieSearch.LeqIsNumeric | hibase-0.1.3/triev2.c:372-383 | comparing keys digit by digit is comparing them as numbers |
| TrieSearch.GreatestIsGreatest | hibase-0.1.3/triev2.c:273-293 | no key of the trie is above the one at the end of the rightmost path |
| TrieSearch.AtMostIsBelow | hibase-0.1.3/triev2.c:302-461 | what is found is in the trie with its datum, and not above the query |
| TrieSearch.AtMostIsGreatest | hibase-0.1.3/triev2.c:302-461 | no key of the trie that is not above the query is above what is found |
| TrieSearch.FindsGreatestAtMost | hibase-0.1.3/triev2.c:302-461 | as numbers: the greatest key not above the query with its datum, or nothing exactly when every key is above it |
| TrieSearchPass.FindMax | hibase-0.1.3/triev2.c:259-294 | the loop finds the greatest key |
| TrieSearchPass.ClimbLoop | hibase-0.1.3/triev2.c:385-428 | climbing from a failed descent finds the greatest key by a smaller digit, as far down as possible |
| TrieSearchPass.FindAtMost | hibase-0.1.3/triev2.c:302-461 | descent, climb and rightmost descent together compute that answer |
| TrieSearchPass.FirstAbsentOfBlock | hibase-0.1.3/triev2.c:502-584 | what the search finds is the least absent key of the 16-aligned block, and nothing exactly when all sixteen are there |
| TrieSearchPass.NumberIs | hibase-0.1.3/triev2.c:502-584 | the number answered is that of this key; it is all ones if and only if all sixteen keys are there, or the block is the one from 0xFFFFFFF0 and only its last key is absent |
| TrieSearchPass.FindNonexistentKey | hibase-0.1.3/triev2.c:502-584 | the function answers that number |
| TrieSearchPass.AllOnesAbsentExample | hibase-0.1.3/triev2.c:583 | a trie for which the answer is all ones although one of the sixteen keys is absent |
| TrieSearchPass.BlockValue | hibase-0.1.3/triev2.c:558-583 | adding 0 to 15 to an aligned key is replacing its last two digits |
| QuadTrie.InsertedLookup | hibase-0.1.3/trie.c:334-483 | insertion is the update of a map, at every key |
| QuadTrie.InsertedPrefix | hibase-0.1.3/trie.c:334-483 | the node made, split or copied has the key's own digits for its prefix, ten at most, and is split at the first that differs |
| QuadTriePass.Insert | hibase-0.1.3/trie.c:334-483 | the word returned holds that trie and no cell from before the call has changed; an insertion without effect returns the given root and leaves nothing allocated |
| QuadTrie.NilpotentInsert | hibase-0.1.3/trie.c:825-836 | storing what is there is no change, so the given root may be returned |
| QuadTrie.PlugInserted | hibase-0.1.3/trie.c:846-880 | inserting at the end of a path along which the keys agree is inserting from the root |
| QuadTrieCells.TrieKept | hibase-0.1.3/trie.c:672-881 | what hangs from a word is the same after any change that leaves the cells from before alone |
| QuadTrieCells.ChainClosed | hibase-0.1.3/trie.c:703-715 | nodes linked one below the other are the whole new trie once a trie hangs from the open slot of the last |
| QuadTriePass.Fill | hibase-0.1.3/trie.c:717-804 | the node of a level, which may be the one that is read from, becomes the copy, the first node of a new branch or the split node wanted, and only it and a new cell are written to |
| QuadTriePass.Descend | hibase-0.1.3/trie.c:696-813 | from a node of the path, which may be one of an earlier key and may be split in place, the way down prepares the insertion and freezes nothing that is still open |
| QuadTriePass.StoreDatum | hibase-0.1.3/trie.c:816-828 | the datum is written into the open slot unless it is there |
| QuadTriePass.Climb | hibase-0.1.3/trie.c:839-852 | the way up stops at the node whose digits include the one where the next key parts from this one; what hangs below is not written to again, and nothing is lost |
| QuadTriePass.InsertSet | hibase-0.1.3/trie.c:672-881 | one pass over a set of keys builds exactly the trie of single insertions in turn, over cells and with nodes of the call rewritten in place, and no cell from before the call has changed; if every datum is there already the given root is returned and nothing is left allocated |
| QuadTrie.InsertedAllLookup | hibase-0.1.3/trie.c:672-881 | which answers as the map updated with all of the set |
| Assembler.MeldLoop | hibase-0.1.3/asm.c:460-475 | the peephole loop rewrites just the pushes that stand before an instruction, in pairs from the left |
| Assembler.PairsFromLeft | hibase-0.1.3/asm.c:460-475 | of a row of pushes in front of an instruction the last one is melded if and only if the pairing from the left leaves it over |
| Assembler.MeldIs | hibase-0.1.3/asm.c:460-475 | a melded push is a no-operation word, its instruction has the even opcode of the pair, a branch instead has its label shortened or its argument decremented, and everything else is as it was |
| Assembler.MeldKeepsMeaning | hibase-0.1.3/asm.c:460-475 | with no push melded into a branch the melded list runs as the list does on every machine, and allocates as much |
| Assembler.MeldIsRightIff | hibase-0.1.3/asm.c:460-475 | melding keeps the meaning on every machine the list is for, in every state, if and only if no push is melded into a branch |
| Assembler.MeldIntoBranchFails | hibase-0.1.3/asm.c:465-473 | a list where the melded branch finds no label any more |
| Assembler.LayOut | hibase-0.1.3/asm.c:477-543 | the two passes succeed if and only if for every branch its label stands somewhere further on, other labels between or not, and give the words at their positions |
| Assembler.Emit | hibase-0.1.3/asm.c:503-543 | one instruction's words; the operand of a branch is the position of the nearest label of its name further on, and there is none if and only if no such label stands there |
| Assembler.BranchGoesToLabel | hibase-0.1.3/asm.c:503-535 | a taken branch of the list goes on at the nearest label of its name further on, other labels between or not, and gets stuck where there is none |
| Assembler.FindIsFirst | hibase-0.1.3/asm.c:508-535 | the search passes over no label of the name |
| Assembler.LayoutKeepsMeaning | hibase-0.1.3/asm.c:477-543 | from every instruction on, the raw code runs as the list does |
| Assembler.AssembledMeansTheSame | hibase-0.1.3/asm.c:460-543 | melding and layout together keep the meaning |
| Assembler.AssembledMeansTheSameIff | hibase-0.1.3/asm.c:460-543 | for a list whose labels are all there: the assembled code resolves and runs as the list on every machine if and only if no push is melded into a branch |
| Assembler.SumIsMajorant | hibase-0.1.3/interp.c:212-215 | no run of a list, whose branches all go forward, allocates more than the sum over its instructions |
| Assembler.SumIsTight | hibase-0.1.3/interp.c:212-230 | no smaller sum would do: on a machine where every instruction allocates what it declares the run allocates just the sum |
| Assembler.RawRunWithinSum | hibase-0.1.3/interp.c:212-230 | nor does any run of its raw code |
| Assembler.MaxAllocation | hibase-0.1.3/interp.c:215-230 | the loop over the raw code computes that sum, and no run of the code allocates more |
| CallResolution.SpecialArgs | hibase-0.1.3/insn-calls.h:157-261 | the instructions for one to four arguments copy what the generic one copies |
| CallResolution.GenericFrame | hibase-0.1.3/insn-calls.h:130-155 | a generic call gets to a frame if and only if it has arguments, they are there and its names are bound; the frame has the word's byte code and the topmost items as arguments, and returns to the named byte code in the caller's frame, or to whom the caller returns |
| CallResolution.ResolvedDecodes | hibase-0.1.3/asm.c:346-417 | the opcode arithmetic arrives at the instruction with just those pointers, that number of arguments and the same push |
| CallResolution.ResolveKeepsMeaning | hibase-0.1.3/asm.c:346-417 | a call with arguments makes the same frame before and after it is resolved, whatever has been bound since |
| CallResolution.WithoutArguments | hibase-0.1.3/insn-calls.h:130-180 | a call without arguments never gets to its frame unless it has been resolved; then it does if and only if its names are bound |
| CallCode.PushingCall | hibase-0.1.3/insn-calls.h:130-155 | a pushing call is the call after a push |
| CallCode.ResolvedInsn | hibase-0.1.3/asm.c:346-417 | the rewritten words stand for the resolved call |
| CallCode.ResolvedIs | hibase-0.1.3/asm.c:346-417 | the rewritten words in numbers: bound names become pointers, for which the opcode grows by 10 and 20, and by twice the number of arguments up to four, where none counts as one |
| CallCode.ResolvedCallIsDone | hibase-0.1.3/asm.c:346-417 | the rewritten words do and allocate what the words did |
| CallCode.ResolvedCodeMeansTheSame | hibase-0.1.3/asm.c:333-440 | the whole rewritten raw code runs as the code did, also after more names have been bound, if no generic call without arguments can be reached |
| CallCode.ResolvingIsRightIff | hibase-0.1.3/asm.c:333-440 | it does so on every machine and after whatever has been bound if and only if no such call can be reached |
| CallPass.ResolvePtrs | hibase-0.1.3/asm.c:344-435 | the loop over the words, which goes on by the size of the opcode it has just written, rewrites exactly the generic calls in place, and the code runs as before |
| CallPass.ResolvedTwice | hibase-0.1.3/asm.c:346-417 | resolving what has been resolved changes nothing |
| CallPass.ResolveAll | hibase-0.1.3/asm.c:333-440 | every byte code of the list is resolved, one that is listed twice too, and each runs as before |
| Scheduler.YieldKeeps | hibase-0.1.3/interp.c:542-558 | putting the running thread into its queue keeps every live thread in exactly one place |
| Scheduler.WakeUpKeeps | hibase-0.1.3/interp.c:580-598 | so does putting a blocked one there |
| Scheduler.BlockKeeps | hibase-0.1.3/interp.c:643-663 | so does making the running thread a blocked one |
| Scheduler.PickKeeps | hibase-0.1.3/interp.c:603-624 | so does picking a thread |
| Scheduler.SpawnKeeps | hibase-0.1.3/insn-def.h:1600-1643 | so does a spawn, whose thread has a number never used before |
| Scheduler.EventKeeps | hibase-0.1.3/interp.c:415-663 | so does every step, a flush and a crash too |
| Scheduler.NoThreadIsLost | hibase-0.1.3/interp.c:415-663 | after every run each live thread is in exactly one place, running, in a queue or blocked, and every other in none; a thread in a queue is as it was left and in the queue of its own priority |
| Scheduler.YieldGoesLast | hibase-0.1.3/interp.c:542-558 | a yield puts the running thread behind all others of its priority, leaves nothing running and every other queue alone |
| Scheduler.BlockParks | hibase-0.1.3/interp.c:643-663 | blocking keeps the thread as it is under its number, and nothing runs |
| Scheduler.WakeUpGoesLast | hibase-0.1.3/interp.c:580-598 | a thread that is woken up goes as it was behind all others of its priority, and no other thread moves |
| Scheduler.SpawnGoesLast | hibase-0.1.3/insn-def.h:1600-1643 | a spawned thread goes last with the next number, and the one that spawns it runs on |
| Scheduler.FirstIsZero | hibase-0.1.3/insn-def.h:1632-1634 | short of a crash the numbers are given out in the order of the spawns: 0 to the first thread, k to the k-th one spawned |
| Scheduler.WokenGoLast | hibase-0.1.3/interp.c:573-599 | a list of wake-ups puts each priority's threads behind those that waited already, in the order of the list |
| Scheduler.NotOvertaken | hibase-0.1.3/interp.c:603-624 | short of a crash, a pick from its own queue moves a waiting thread one place forward, or starts it, and no other step moves it at all |
| Scheduler.TurnComes | hibase-0.1.3/interp.c:603-624 | over a whole run without a crash: a thread with i others before it has been picked if there were more than i picks from its queue, and else has moved forward by just as many places |
| Scheduler.CrashRestoresCommit | hibase-0.1.3/interp.c:423-448 | after a crash exactly the threads of the last commit are there, and the one that was flushed runs |
| Scheduler.FlushIsWhatCrashFinds | hibase-0.1.3/interp.c:423-448 | a crash right after a flush, or after one more step of any kind but a flush, comes back to exactly the state of the flush |
| Scheduler.Interpreter.FlushAndRunCont | hibase-0.1.3/interp.c:423-448 | the root block saved has all queues, all blocked threads and the registers, and the same thread goes on |
| Scheduler.Interpreter.YieldCont | hibase-0.1.3/interp.c:542-558 | only the queue of the thread's priority changes, and ends with the thread; nothing runs |
| Scheduler.Interpreter.BlockCont | hibase-0.1.3/interp.c:643-663 | the thread is among the blocked as it ran, with all that were there before; nothing runs |
| Scheduler.Interpreter.SpawnThread | hibase-0.1.3/insn-def.h:1600-1643 | only the queue of the given priority changes, and ends with the new thread, whose number is one above the highest so far |
| Scheduler.Interpreter.WakeThreads | hibase-0.1.3/interp.c:573-599 | the loop puts each priority's woken threads behind those in its queue, in the order of their wake-ups, and just these are blocked no more |
| Scheduler.Interpreter.PickThread | hibase-0.1.3/interp.c:603-624 | the loop finds a thread if and only if some queue has one: the oldest of the highest such priority, which leaves its queue |
| GlobalCache.Cache.Flush | hibase-0.1.3/interp.c:67-73 | after a flush the cache agrees with the trie, wherever values have moved |
| GlobalCache.Cache.Get | hibase-0.1.3/interp.c:76-100 | a read gives what the trie has for every number but all ones, for which it gives a flushed value if the line has one; the entry is then the one used last of its line, and the other one is what was used last before |
| GlobalCache.Cache.Set | hibase-0.1.3/interp.c:102-115 | a write changes the trie at the number, only the line of the number, and the cache still agrees |
| RingBuffer.LinkedBehind | hibase-0.1.3/net.c:264-269 | a chunk put before the read chunk comes last in the ring, with links mutually inverse |
| RingBuffer.LinkedTurned | hibase-0.1.3/net.c:586-588 | a ring read from its second chunk on is still a ring |
| RingBuffer.LinkedWithoutFirst | hibase-0.1.3/net.c:281-289 | a chunk taken out leaves a ring |
| RingBuffer.Buffer.InsertChunkBefore | hibase-0.1.3/net.c:246-277 | the ring grows by one chunk if and only if one is free or to be had; a free one is taken first |
| RingBuffer.Buffer.InitBuffer | hibase-0.1.3/net.c:294-309 | it succeeds if and only if there is a chunk already or one to be had, and the buffer stays as it reads |
| RingBuffer.Buffer.NextWriteChunk | hibase-0.1.3/net.c:339-356 | the change to the next chunk never goes to one with unread bytes, and fails if and only if the ring is full and no chunk is to be had |
| RingBuffer.Buffer.CopyToBuffer | hibase-0.1.3/net.c:315-379 | the bytes are appended to the unread ones if and only if they fit the rest of the ring and all chunks still to be had; else the contents are unchanged, and the null chunk is followed exactly when there are bytes but no first chunk |
| RingBuffer.Buffer.CopyFromBuffer | hibase-0.1.3/net.c:560-612 | the bytes read are the first of the unread ones, and the rest stay |
| RingBuffer.Buffer.ReleaseBuffer | hibase-0.1.3/net.c:773-788 | all chunks of the ring, and no others, become free, and the buffer is empty |
| Rope.LengthIsExact | hibase-0.1.3/shtring_internal.c:41-80 | cached lengths are the lengths of the text |
| Rope.MakeOfHeight | hibase-0.1.3/shtring.c:372-398 | the raised tree is well formed, of that height and with the same text |
| Rope.CatRecursiveEnds | hibase-0.1.3/shtring.c:420-465 | joining at the side aborts at the assertion in `shtring_add_children` (shtring_internal.c:318-324) if and only if assertions are on, there is room at the joint and a node with one child lies on the adjoining side of the higher tree above the height of the lower one; it is refused exactly without room |
| Rope.AbortsIff | hibase-0.1.3/shtring.c:420-465 | with assertions on it aborts if and only if the two nodes at the joint at the lower height have eight children or fewer together, and some node above that height on that side of the higher tree has one child |
| Rope.CatRecursiveKeeps | hibase-0.1.3/shtring.c:420-465 | where it ends with a tree, that has both texts and is no higher than the higher one |
| Rope.CatTreesKeeps | hibase-0.1.3/shtring.c:475-519 | catenation ends if and only if it does not abort there, and then gives both texts in a well-formed tree at most one higher than the higher one |
| Rope.Cat | hibase-0.1.3/shtring.c:649-672 | the value of a catenation is the two values one behind the other; there is none exactly when both trees are there and joining them aborts |
| Rope.Monkey | hibase-0.1.3/shtring_internal.c:177-251 | the walk collects just the part of the text inside the range and ends at the tree's end |
| Rope.Strat | hibase-0.1.3/shtring.c:883-893 | any range of a shtring is read as just that slice of its value |
| Rope.ChildAt | hibase-0.1.3/shtring.c:694-704 | the loop finds the child that has the place |
| Rope.MinimalSubtree | hibase-0.1.3/shtring.c:682-721 | the subtree has the whole range, and either it is a chunk or the range goes over from one child to the next |
| Rope.Copy | hibase-0.1.3/shtring.c:726-745 | the copy of a range has just that slice for its value |
| RopeBuild.BuildTree | hibase-0.1.3/shtring.c:195-228 | the loop takes as much text as there is, or as the height can have, and builds the tree with full children but for the last |
| RopeBuild.BuiltKeeps | hibase-0.1.3/shtring.c:195-228 | that tree has the text, with all chunks at one depth, and takes the words counted from its root |
| RopeBuild.TreeWordsByLevels | hibase-0.1.3/shtring.c:237-253 | counting words from the root down and level by level from the chunks up give the same |
| RopeBuild.TreeSize | hibase-0.1.3/shtring.c:237-253 | the height is the least that is enough for the text, and the words are just those of the tree of that height |
| RopeBuild.Create | hibase-0.1.3/shtring.c:268-283 | a text is refused if and only if it is longer than half the first generation; else the shtring has just that text, and the words announced are those of its own cell and of all the cells of its tree |
| RopeBuild.CreatedAborts | hibase-0.1.3/shtring.c:420-465 | what is created from 2049 characters cannot be catenated with what is created from 33 while assertions are on |

## Findings

Where the code departs from its comments or from what its callers may expect, the model follows the code,
and a lemma gives the exact condition or an input:

- `avl_delete` (avl.c:534-560) returns `path[0].node` also after a rotation at the root, and that cell has
  then moved down. Of the leaves 1 to 5 in the tree of `AvlPath.RootRotationExample` deleting 1 leaves only
  2 and 3. It is right if and only if the root is not rotated (`AvlPath.DeleteIsRightUnlessRootRotates`).
- `avl_insert` (avl.c:310-311) calls the update function with the datum of the leaf where its search ends, also
  if that leaf has another key (`AvlPath.UpdateIsRightIff`).
- `ist234_delete` (ist234.c:919-922) returns the given root when its `delete_fun` changes nothing, but does not give
  back what it has allocated, as its comment says; it has allocated nothing just when the entry is in the root
  (`Tree234DeletePass.Delete`).
- `ist234_insert` (ist234.c:246) compares the new datum for a node's second key with the first key's datum.
  With data 7 and 8 under keys 1 and 2 of one node, storing 7 under key 2 has no effect
  (`Tree234Insert.LostExample`); `Tree234Insert.StoredUnlessLost` is the exact condition.
- Push-melding into a branch (asm.c:465-473) loses the push and decrements the pointer to the label or the
  argument: `push; branch x; x:` no longer finds its label (`Assembler.MeldIntoBranchFails`). Assembled code
  means what was read if and only if no push is melded into a branch
  (`Assembler.MeldIsRightIff`, `Assembler.AssembledMeansTheSameIff`).
- `lq_get_first` (lq.c:21-43) looks only at the tail, although items leave from the head first. It stands at
  the front if and only if there is no head and the tail is one tree (`LogQueue.GetFirstIsFrontIff`).
- `io_write_page` (io.c:437-440) can reach the assertion that "can't happen": with one free page in each of two
  files the total is 2 and no file may give its page (`IoSystem.FreePagesMayNotSuffice`, with the exact
  condition in `IoPlacement.PageFileIff`).
- `io_read_root` (io.c:913) decrements the file's free counter for the root's page, which was never counted, and
  leaves the total alone, so that file counts one too few until the next recovery (`IoRecovery.CountersAreExact`).
- Time stamps wrap after 2^64 - 1 increments, and only then is an incremented stamp not newer
  (`DiskLayout.IncrementIsNewer`).
- A generic call with no arguments counts its loop down from below zero; only the resolved instruction works
  (`CallResolution.WithoutArguments`). Resolving keeps the meaning of a byte code if and only if no such call can
  be reached in it (`CallCode.ResolvingIsRightIff`).
- In the global cache the number of all ones, which marks a flushed entry, can find a flushed value
  (`GlobalCache.Cache.Get`).
- `copy_to_buffer` (net.c:327) does not look at the answer of `init_buffer`, and follows a null chunk exactly when
  there are bytes to copy, the buffer has no chunk and none is to be had (`RingBuffer.Buffer.CopyToBuffer`).
- `shtring_add_children` (shtring_internal.c:324) asserts that its range is not empty. `cat_recursive` violates that
  for a node with one child, if there is room at the joint below it (`Rope.CatRecursiveEnds`), which happens for
  shtrings just created of 2049 and 33 characters (`RopeBuild.CreatedAborts`). Assertions are on unless the
  configuration is made for speed (configure.in:198-200).
- `triev2_find_nonexistent_key` answers all ones for "none", but also for the one absent key of the last block of
  32-bit keys (`TrieSearchPass.NumberIs`, `TrieSearchPass.AllOnesAbsentExample`).

## Left out

- Rope.Cat: does not model `trim_ends`; it requires that the first shtring ends where its tree ends and the second begins where its tree begins. With chunk children `trim_ends` copies from the wrong child (shtring.c:616-641).
- Rope.Copy: does not model an empty range at the very end of a higher tree, for which the search for a child runs past the last one.
- QuadTriePass.InsertSet: does not model an empty set of keys, for which the function reads a key that is not there and returns nothing.
- Persistence of the cells of triev2.c, avl.c, lq.c, queue.c and shtring.c: these are modelled on values, so writing to a cell of the same call through a pointer to its open slot, and aliasing, are not captured; for priq.c, ist234.c and trie.c they are.
- io.c: byte swapping, load balancing by file, a fixed disk for roots, pages with neither cookie (io.c:862-869, a loop without end), and torn writes; a page or a root is written whole or not at all.
- asyncio-pthread.c: locks, condition variables and reader threads; a step under a lock is atomic, and there are no spurious wake-ups (asyncio-pthread.c:401-406).
- The collector and `flush_batch`: allocation is taking a new cell, and a flush keeps contents.
- Comparison functions that fail (`CMP_ERROR`): keys are integers.
- 32-bit shifts and `highest_bit`: keys of tries are sequences of digits, and the first differing digit is found by a loop.
- Word bounds of triev2.c, trie.c, ist234.c and priq.c, and the words that `shtring_cat` allocates.
- triev2.c: `triev2_contains`, `triev2_find_quick` and `triev2_replace`, which would only add easier members; trie.c: deletion and `trie_find_at_least`, which are like those of triev2.c.
- shtring.c: comparing, hashing, interning, cursors, trimming, conversion to numbers and reading from right to left.
- net.c: sockets, `writev`, `readv`, and freeing chunks while reading, which the source has commented out; the free list is a sequence and not the chunks' own links.
- interp.c: the cache of byte codes, which is like that of globals, timing, and where wake-ups come from; the queues and the trie of blocked threads are sequences and a map, which is what the proofs about queue.c and triev2.c allow.
- Instructions other than calls: the assembler's machine is any machine with sizes, branches, effects and declared allocation; instructions that allocate without a declared bound are outside the bound of `load_bcode`.
- dh.c, list.c, tagged.c, bitops.c, smartptr.c, params.c, printing, statistics and the test programs.
