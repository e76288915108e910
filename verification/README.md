# Filesystem objects of the BoarOS kernel

A Dafny model of the objects in `fs/` that keep hard invariants over long-lived mutable state, with the
properties they exist for proved over every input, every run and every interleaving.

| part | source | modules |
|---|---|---|
| POSIX byte-range locks | `fs/record_lock.c` | `LockTree`, `LockSearch`, `LockRanges`, `LockHeap`, `RecordLocks`, `LockRuns` |
| page-cache writeback protocol | `fs/page_cache.c` | `Writeback`, `WritebackDirty`, `WritebackRanges`, `WritebackProof` |
| page-cache index | `fs/page_cache.c` | `PageIndex` |
| file-mapping notification list | `fs/file_mapping.c` | `FileMappings`, `FileMappingProof`, `FileMappingLinks` |
| pipe ring | `fs/pipe.c` | `PipeRing`, `Pipe`, `PipeProof`, `PipeDevice` |
| ordered resource acquisition | `fs/lwext4_port.c` | `ResourceOrder`, `ResourceOrderProof`, `ResourceRuns`, `ResourceSets` |
| FAT32 chains, byte layer, long names | `fs/fat32.c` | `FatChains`, `FatVolume`, `FatBytes`, `FatFiles`, `FatUtf`, `FatDirectory`, `FatEntries`, `FatAddEntry` |
| fsync waiter index | `fs/ext4_backend.c` | `SyncWaiters` |
| tmpfs namespace | `fs/tmpfs.c` | `TmpfsTree`, `TmpfsRemove`, `TmpfsRename`, `TmpfsUnmount`, `TmpfsRuns`, `Tmpfs` |

`Wrappers`, `Arithmetic` and `Pages` are shared helpers. `dafny verify dfyconfig.toml` checks everything.

Code that relinks nodes or updates fields in place is a class whose methods are proved against value functions:
`LockHeap.LockNodes` keeps the AVL nodes in an arena indexed by address, and every rotation, join and
extraction there equals its value function, about which order, balance and contents are proved. Concurrent
protocols are transition systems with one step per lock scope; waiting is a step that is not enabled, and a
trap of the source is a condition proved unreachable, a precondition that every caller meets or, in tmpfs, an
outcome of its own. Heap allocation succeeds or fails as a parameter says.

## What the proofs settle

- **Record locks.** A successful set changes the map (owner, byte) -> type exactly on the requested owner
  and range, although the stored interval may be wider; a refused or failed set changes nothing; the number
  of nodes reserved before the commit is the number it consumes, so the traps on running out or on leftovers
  cannot fire. In every run the table is the replayed map and no byte is write-locked by one owner
  and locked by another.
- **Writeback.** In every interleaving of write borrows, file writes, resizes, snapshots, partial or failed
  submissions and completions, a valid byte that differs from the backend is recorded dirty or is being
  changed by a live writer. Only a page equal to the backend can be reclaimed.
- **Notification.** A mapping registered for a whole pass is called exactly once, none is called twice, and
  after draining nothing reaches the mapping any more.
- **Pipe.** Consumed bytes are a prefix of published bytes; the copy regions of reader and writer stay apart;
  a write of at most one page is published in one step. This holds with any number of writers that wait for room
  and come back after others have written or resized.
- **Ordered acquisition.** No reachable state has a wait cycle, and an operation over a finite set of keys
  replays fewer times than there are keys.
- **Long names.** The round trip does not hold for every name: `utf16_name` takes U+FFFF for padding. A name
  stored long comes back as itself if and only if it contains no U+FFFF (`FatUtf.NameRoundTrip`; a concrete
  lost suffix is `FatUtf.LostSuffix`).
- **Stray fragments.** An entry whose name fits its short form is written without fragments. If
  long-name fragments of a lost entry lie directly in front of the slot and carry the same checksum, the reader
  attaches them. `FatEntries.RecordsAdded` gives the exact condition under which the record read back is the new
  one, and `FatAddEntry.OrphansAttach` shows the family of directories where it is not. Other records are
  unchanged either way.
- **tmpfs parents.** `link_inode` and `rename_inode` do not test whether the target directory still has
  links; `TmpfsTree.LinkKeeps` and `TmpfsRename.MoveKeeps` show that the accounting survives if and only if it
  does (and, for a directory, if it is not moved below itself, which the walk up in `rename_inode` excludes). The
  VFS guards rename: it tests the new directory once more before it calls down (`fs/vfs.c:2738`). It does not guard
  link: the lookup in a removed directory answers that there is no such name (`fs/vfs.c:835`), path resolution takes
  that for a missing last component (`fs/vfs.c:986-994`), and the call down tests only the inode that gets the name
  (`fs/vfs.c:2537`). So a run of the model may link into a removed directory that is still open.
  `TmpfsRuns.RemovedTargetBreaks` is such a run: it breaks the accounts, and the last close of the directory reaches
  the trap of `collect_inode` (`fs/tmpfs.c:178`). `TmpfsRuns.RunIsSound` shows that this is the only way: all states
  of a run are sound if and only if every link went into a directory that has links, and `TmpfsRuns.NeverTraps` that
  no step traps in a sound state.

## Model

| member | source | states |
|---|---|---|
| `LockTree.BalanceElems` | fs/record_lock.c:50-84 | rebalancing keeps the in-order contents and makes cached heights and maxima right, for any children |
| `LockTree.BalanceAvl` | fs/record_lock.c:70-84 | one rebalancing repairs any imbalance of two levels and changes the height by at most one |
| `LockTree.InsertCorrect` | fs/record_lock.c:93-100 | insertion adds exactly one lock and keeps order, balance and caches |
| `LockTree.ExtractMinCorrect` | fs/record_lock.c:102-111 | the in-order first lock comes out, the rest stays in order and balanced, at most one level lower |
| `LockTree.RemoveCorrect` | fs/record_lock.c:113-133 | removal takes exactly the lock and keeps order and balance |
| `LockTree.JoinRootCorrect` | fs/record_lock.c:135-151 | joining trees of any heights concatenates their contents, is balanced, and is at most one level taller than the taller |
| `LockTree.JoinTreesCorrect` | fs/record_lock.c:153-161 | joining without a middle node concatenates contents and is balanced |
| `LockTree.HeightFitsInt8` | fs/record_lock.c:39-48 | the 8-bit height field never truncates for any tree that fits a 64-bit address space |
| `LockSearch.MaxEndBounds` | fs/record_lock.c:39-48 | the cached maximum is the largest end below a node, and is attained |
| `LockSearch.ConflictCorrect` | fs/record_lock.c:194-213 | the pruned search finds the in-order first conflicting lock, and none only when there is none |
| `LockSearch.PrepareEditIsFold` | fs/record_lock.c:275-300 | the walk whose pruning bounds move as it goes equals an unpruned walk over every lock in order |
| `LockSearch.PrepareEditCorrect` | fs/record_lock.c:275-300 | the planned range is the request merged with exactly the touching or adjacent same-type locks of the owner, with one more node iff a lock is split |
| `LockSearch.ExtractOwnedCorrect` | fs/record_lock.c:302-323 | what is left is an AVL tree holding the old sequence minus exactly the owner's overlapping locks, however many levels a subtree loses |
| `LockSearch.ExtractOwnedList` | fs/record_lock.c:302-323 | the removed list holds each extracted lock exactly once |
| `LockRanges.HoldsIsFunctional` | fs/record_lock.c:325-396 | the byte view is a map: an owner's byte has one type and one process |
| `LockRanges.CommittedOk` | fs/record_lock.c:352-396 | a commit keeps every owner's locks disjoint and merged, addresses distinct and different owners compatible |
| `LockRanges.CommittedHolds` | fs/record_lock.c:352-396 | per byte: the planned range carries the request and its process, every other byte of every owner is as before |
| `LockRanges.SetIsExact` | fs/record_lock.c:325-396 | types change exactly on the requested owner and range although the stored lock may be wider |
| `LockRanges.NewIsMerged` | fs/record_lock.c:275-300 | no surviving lock of the same owner and type touches the new one |
| `LockHeap.ConflictAt` | fs/record_lock.c:194-213 | the search over linked nodes returns the node of the lock that the value search finds, or null |
| `LockHeap.PrepareEditAt` | fs/record_lock.c:275-300 | the plan computed over linked nodes is the plan of the stored tree |
| `LockHeap.LockNodes.UpdateNode` | fs/record_lock.c:39-48 | recomputes a node's caches in place and touches no other node |
| `LockHeap.LockNodes.RotateNodeLeft` | fs/record_lock.c:50-58 | relinking two nodes stores the rotated tree |
| `LockHeap.LockNodes.RotateNodeRight` | fs/record_lock.c:60-68 | the mirror image |
| `LockHeap.LockNodes.BalanceNode` | fs/record_lock.c:70-84 | in-place rebalancing stores the balanced tree and leaves nodes outside it alone |
| `LockHeap.LockNodes.InsertNode` | fs/record_lock.c:93-100 | in-place insertion stores the tree with the lock inserted |
| `LockHeap.LockNodes.ExtractMinNode` | fs/record_lock.c:102-111 | in-place extraction returns the first node and stores the rest |
| `LockHeap.LockNodes.RemoveNode` | fs/record_lock.c:113-133 | in-place removal stores the tree without the node; falling off the tree cannot happen |
| `LockHeap.LockNodes.JoinRootNode` | fs/record_lock.c:135-151 | in-place join stores the joined tree |
| `LockHeap.LockNodes.JoinTreesNode` | fs/record_lock.c:153-161 | in-place join without a middle node stores the joined tree |
| `LockHeap.LockNodes.ExtractOwnedNode` | fs/record_lock.c:302-323 | in-place extraction stores the remaining tree and chains the extracted nodes onto the removed list |
| `RecordLocks.PlanCounts` | fs/record_lock.c:333-392 | at most one removed lock is split, and the nodes reserved are exactly the nodes the commit consumes |
| `RecordLocks.RecordLockTable.InitState` | fs/record_lock.c:215-219 | an inode's lock state starts without locks |
| `RecordLocks.RecordLockTable.Publish` | fs/record_lock.c:182-192 | a reserved node joins tree and owner list and nothing else changes |
| `RecordLocks.RecordLockTable.Reserve` | fs/record_lock.c:337-350 | reserves exactly the needed nodes, or none iff one of them is not to be had |
| `RecordLocks.RecordLockTable.CommitAll` | fs/record_lock.c:362-392 | the removed locks come back as their pieces outside the range, using one spare exactly if one of them is split |
| `RecordLocks.RecordLockTable.Set` | fs/record_lock.c:325-396 | refused iff a conflicting lock exists, out of locks iff one of the exactly needed nodes is not to be had, and then no memory changes; success changes the byte map exactly as requested, keeps every invariant, and leaves other inodes alone |
| `RecordLocks.RecordLockTable.Get` | fs/record_lock.c:226-242 | reports the first conflicting lock, or none iff there is none |
| `RecordLocks.RecordLockTable.Release` | fs/record_lock.c:398-418 | exactly the owner's locks on the inode go, and the table stays valid |
| `LockRuns.StepKeepsLocks` | fs/record_lock.c:325-418 | set and release keep locks disjoint, merged and compatible |
| `LockRuns.RunIsReplay` | fs/record_lock.c:325-418 | in every run from the empty state the table equals the map got by replaying the requests |
| `LockRuns.RunIsSafe` | fs/record_lock.c:334-418 | in every run two owners that share a byte both hold it for reading |
| `WritebackDirty.MarkCovers` | fs/page_cache.c:834-870 | marking keeps every dirty byte dirty and adds the written range |
| `WritebackDirty.MarkOk` | fs/page_cache.c:834-870 | range and block bits stay consistent |
| `WritebackDirty.ClearedWasCaptured` | fs/page_cache.c:2770-2794 | a byte stops being dirty only if it was captured, also when the limit cuts a block |
| `WritebackDirty.ClearedOk` | fs/page_cache.c:2770-2794 | what is left of range and block bits is consistent |
| `WritebackDirty.CapturedBlocks` | fs/page_cache.c:2959-3010 | a capture that is not empty has block bits |
| `WritebackRanges.NextRange` | fs/page_cache.c:2916-2935 | the next maximal run of captured bytes at or behind the cursor, or none iff none is left |
| `WritebackRanges.Ranges` | fs/page_cache.c:2916-2935 | repeated calls give ordered, separated ranges covering exactly the captured bytes |
| `WritebackRanges.CopySnapshot` | fs/page_cache.c:2959-3010 | the stable version holds the valid bytes, zero behind the end of file, in every block with a captured byte, and is untouched elsewhere |
| `WritebackRanges.ScanLeft` | fs/page_cache.c:2774-2790 | the mask scans find the lowest and highest remaining block |
| `WritebackRanges.CompleteRegion` | fs/page_cache.c:2764-2794 | every dirty byte that was not captured stays dirty after completion |
| `WritebackProof.EndWriteKeeps` | fs/page_cache.c:2718-2723 | ending a write borrow together with its mark hands its bytes to the dirty region |
| `WritebackProof.MarkWriteKeeps` | fs/page_cache.c:1516-1528 | a mark in a scope of its own takes over the bytes stored so far while the borrow goes on |
| `WritebackProof.EndBorrowKeeps` | fs/page_cache.c:1554-1575 | a borrow may end once nothing it stored below the end of file is unmarked |
| `WritebackProof.CaptureKeeps` | fs/page_cache.c:2959-2990 | capturing happens without writers and records the generation |
| `WritebackProof.ResizeApplyKeeps` | fs/page_cache.c:3413-3431 | zeroing and clipping at a new end of file lose no dirty byte |
| `WritebackProof.CompleteKeeps` | fs/page_cache.c:2764-2804 | clearing is safe because an unchanged generation means nothing was stored since the capture |
| `WritebackProof.StepKeeps` | fs/page_cache.c:2764-3033 | every step of every participant keeps the invariant |
| `WritebackProof.RunKeeps` | fs/page_cache.c:2764-3033 | the invariant holds in every run |
| `WritebackProof.NoWriteIsLost` | fs/page_cache.c:2764-2804 | in every run a valid byte where page and backend differ is dirty or in the hands of a live writer |
| `WritebackProof.ReclaimLosesNothing` | fs/page_cache.c:3510-3545 | in every run a page that may be reclaimed equals the backend on its valid bytes |
| `WritebackProof.GateIsAsExpected` | fs/page_cache.c:2844-2914 | the snapshot is copied while writers are shut out, and the gate is in the state the traps insist on |
| `PageIndex.FindBucket` | fs/page_cache.c:605-633 | the probe always ends, finds a key iff it is present, and otherwise yields a bucket that may take it |
| `PageIndex.SomeEmpty` | fs/page_cache.c:605-633 | below full load an empty bucket exists, which ends every probe |
| `PageIndex.FillHolds` | fs/page_cache.c:1740-1752 | filling a bucket that probing reaches adds exactly that key |
| `PageIndex.TombHolds` | fs/page_cache.c:945-975 | a tombstone removes exactly one key and breaks no probe path |
| `PageIndex.AddKey` | fs/page_cache.c:1740-1752 | occupied and tombstone counts and the load limit stay right on insertion, also into a tombstone |
| `PageIndex.DropKey` | fs/page_cache.c:945-975 | counts stay right on removal |
| `PageIndex.Record.constructor` | fs/page_cache.c:1236-1252 | an empty table holds the empty map |
| `PageIndex.Record.Publish` | fs/page_cache.c:1740-1752 | the map gains the key and nothing else |
| `PageIndex.Record.Remove` | fs/page_cache.c:945-975 | the map loses the key and nothing else |
| `PageIndex.Record.RequiredCapacity` | fs/page_cache.c:636-645 | the least doubling with room at three quarters, or 0 only when no doubling that fits has room |
| `PageIndex.Record.Install` | fs/page_cache.c:646-684 | a reservation keeps the map; it succeeds iff there is room already or the capacity is still the one seen and the new table has the first doubling with room, and a success leaves room for the announced entries |
| `PageIndex.Record.Rehash` | fs/page_cache.c:660-684 | rehashing, also at the same capacity, keeps the map and drops every tombstone |
| `FileMappingProof.DropKeeps` | fs/file_mapping.c:94-106 | a segment of at most 16 puts keeps the borrow account and leaves exactly its continuation to be put |
| `FileMappingProof.SuccessorGoesTo` | fs/file_mapping.c:199-200 | the next mapping of a walk is the nearest older one that is listed or reached through retired links |
| `FileMappingProof.StopKeeps` | fs/file_mapping.c:132-147 | unlinking under walkers keeps every invariant |
| `FileMappingProof.RegisterKeeps` | fs/file_mapping.c:116-130 | head insertion under walkers keeps every invariant |
| `FileMappingProof.AdvanceKeeps` | fs/file_mapping.c:198-200 | stepping to the successor keeps every invariant |
| `FileMappingProof.PutKeeps` | fs/file_mapping.c:94-114 | each segment of put keeps every invariant |
| `FileMappingProof.StepKeeps` | fs/file_mapping.c:70-204 | every step of every walker and owner keeps the invariant |
| `FileMappingProof.RunKeeps` | fs/file_mapping.c:70-204 | the invariant holds in every run |
| `FileMappingProof.CalledExactlyOnce` | fs/file_mapping.c:182-204 | a mapping registered for a whole pass is called exactly once by it |
| `FileMappingProof.NeverCalledTwice` | fs/file_mapping.c:182-204 | no pass calls a mapping twice, not even one registered again meanwhile |
| `FileMappingProof.BorrowsAreReferences` | fs/file_mapping.c:70-106 | borrows are the walkers on a mapping plus the retired predecessors pointing at it, and the total is their sum |
| `FileMappingProof.PutLowers` | fs/file_mapping.c:94-114 | every segment of put gives borrows back, so put ends |
| `FileMappingProof.DrainedIsUnreachable` | fs/file_mapping.c:149-174 | after drain no walker, list link or retired link reaches the mapping until it is registered again |
| `FileMappingLinks.MappingState.constructor` | fs/file_mapping.c:20-50 | an empty list represents the empty state |
| `FileMappingLinks.MappingState.Borrow` | fs/file_mapping.c:70-77 | raises one borrow count and the total |
| `FileMappingLinks.MappingState.Register` | fs/file_mapping.c:116-130 | the linked list with its next and previous links follows the protocol step |
| `FileMappingLinks.MappingState.Stop` | fs/file_mapping.c:132-147 | relinking the neighbours follows the protocol step, and its consistency traps cannot fire |
| `FileMappingLinks.MappingState.StartWalk` | fs/file_mapping.c:187-189 | the first scope of a pass follows the protocol step |
| `FileMappingLinks.MappingState.CheckActive` | fs/file_mapping.c:192 | a mapping is called iff its previous link is set, which is iff it is listed |
| `FileMappingLinks.MappingState.Advance` | fs/file_mapping.c:198-200 | the link read is the protocol's successor |
| `FileMappingLinks.MappingState.PutSegment` | fs/file_mapping.c:94-106 | the segment loop follows the protocol step, and its traps cannot fire |
| `PipeRing.ConsumePart` | fs/pipe.c:416-432 | taking part of the head slot takes exactly the first bytes of the contents |
| `PipeRing.ConsumeAll` | fs/pipe.c:416-432 | taking the whole head slot moves the head and takes exactly its bytes |
| `PipeRing.PublishNew` | fs/pipe.c:611-621 | publishing a slot at the tail appends its bytes |
| `PipeRing.PublishMerge` | fs/pipe.c:611-621 | extending the last slot appends the new bytes |
| `PipeRing.StoreFrame` | fs/pipe.c:593-596 | storing outside published bytes is invisible to readers |
| `PipeRing.ContentsMove` | fs/pipe.c:243-255 | the same slots laid out from another position hold the same bytes |
| `PipeProof.ReadConsumeKeeps` | fs/pipe.c:515-518 | consuming keeps the invariant |
| `PipeProof.WriteByteKeeps` | fs/pipe.c:593-596 | each byte copied in, whatever the reader does, keeps the invariant |
| `PipeProof.WriteFaultKeeps` | fs/pipe.c:597-610 | a copy fault publishes nothing and keeps the invariant |
| `PipeProof.ParkKeeps` | fs/pipe.c:446-453 | giving up the write mutex on a full ring with bytes already published, and coming back after other writers and resizes, keep the invariant |
| `PipeProof.WritePublishKeeps` | fs/pipe.c:611-621 | publishing keeps the invariant |
| `PipeProof.ResizeKeeps` | fs/pipe.c:237-262 | a resize keeps the invariant and the contents |
| `PipeProof.StepKeeps` | fs/pipe.c:454-628 | every step of readers, writers, waiting writers and resizers keeps the invariant |
| `PipeProof.ConsumedInOrder` | fs/pipe.c:489-524 | in every run the consumed bytes are a prefix of the published ones and the byte count is what is left |
| `PipeProof.CopiesApart` | fs/pipe.c:434-443 | in every run the writer's region lies outside every published byte and the page the reader has pinned |
| `PipeProof.SmallWriteIsAtomic` | fs/pipe.c:537-628 | in every run a write of at most one page is published whole, in one step, and has published nothing while it waits |
| `PipeProof.TrapsUnreachable` | fs/pipe.c:420-501 | the consistency traps of read, consume and resize cannot fire |
| `PipeDevice.RoundCapacity` | fs/pipe.c:201-205 | the least power-of-two number of pages that holds the size |
| `PipeDevice.Device.constructor` | fs/pipe.c:118-180 | an empty ring is valid |
| `PipeDevice.Device.Consume` | fs/pipe.c:416-432 | the in-place update is the protocol's consumption |
| `PipeDevice.Device.Readv` | fs/pipe.c:454-524 | takes the first min(count, bytes) bytes, in order; a copy fault takes a prefix that ends before it |
| `PipeDevice.Device.ChooseMerge` | fs/pipe.c:434-443 | merges only into a slot that is mergeable, not being read, and has room for the remainder |
| `PipeDevice.Device.Abort` | fs/pipe.c:597-610 | a copy fault leaves a valid ring with the published bytes as they were |
| `PipeDevice.Device.Write` | fs/pipe.c:525-628 | from its start or after a wait publishes the next bytes of the source: all of them unless ring or memory run out or the copy faults; at most one page: all or nothing |
| `PipeDevice.Device.Resize` | fs/pipe.c:237-262 | refused iff the slots in use do not fit, otherwise contents and history are kept |
| `ResourceOrderProof.PositionIs` | fs/lwext4_port.c:146-155 | the scan finds the place where lower keys end |
| `ResourceOrderProof.InsertAscends` | fs/lwext4_port.c:156-170 | the request list stays strictly ascending |
| `ResourceOrderProof.AskedKeeps` | fs/lwext4_port.c:171-211 | asking for a key, also claiming an unpublished inode, keeps a context's invariant |
| `ResourceOrderProof.ExclusiveKeeps` | fs/lwext4_port.c:139-193 | no key is ever held by two contexts |
| `ResourceOrderProof.PutAllIs` | fs/lwext4_port.c:114-126 | discarding gives back exactly one reference for each kept key |
| `ResourceOrderProof.StepKeeps` | fs/lwext4_port.c:127-232 | every step of every context keeps the invariant |
| `ResourceRuns.RunKeeps` | fs/lwext4_port.c:127-232 | the invariant holds in every run |
| `ResourceRuns.WaitsAbove` | fs/lwext4_port.c:188-193 | a context waits only for a key above every key it holds |
| `ResourceRuns.NoWaitCycle` | fs/lwext4_port.c:127-232 | no reachable state has a cycle of waiting contexts |
| `ResourceRuns.SomeoneRuns` | fs/lwext4_port.c:127-232 | if someone waits for a held key, some holder is not blocked |
| `ResourceRuns.ReleaseEnds` | fs/lwext4_port.c:212-224 | a release that is not to be replayed ends the operation: no keys and no replays are left |
| `ResourceRuns.ReplaysBounded` | fs/lwext4_port.c:188-232 | an operation that asks for keys of a finite set replays fewer times than there are keys, whatever its context did before |
| `ResourceRuns.KeptIsCovered` | fs/lwext4_port.c:184-187 | a key asked for again is held or belongs to an unpublished inode, so the trap cannot fire |
| `ResourceRuns.UnreferencedIsIdle` | fs/lwext4_port.c:74-89 | a resource freed with its last reference is neither held nor waited for |
| `ResourceSets.RequestSet.RequestGet` | fs/lwext4_port.c:146-170 | the kept request, or a new one at its sorted place, refused iff new and without memory |
| `ResourceSets.RequestSet.Relock` | fs/lwext4_port.c:136-143 | a replay locks every kept key in ascending order |
| `ResourceSets.RequestSet.Acquire` | fs/lwext4_port.c:171-195 | again iff a replay is due or a new key lies below a held one, and then the list has grown by it; refused iff new and without memory; otherwise the key is covered |
| `ResourceSets.RequestSet.ClaimInode` | fs/lwext4_port.c:196-211 | a new key is covered by the reservation of its inode; never asks for a replay itself |
| `ResourceSets.RequestSet.Release` | fs/lwext4_port.c:212-224 | no guard stays; keys stay exactly for a replay |
| `ResourceSets.RequestSet.Retry` | fs/lwext4_port.c:225-232 | answers and clears the replay request |
| `FatChains.ChainUnique` | fs/fat32.c:162-169 | a first cluster starts at most one chain |
| `FatChains.ChainDistinct` | fs/fat32.c:162-169 | a chain that ends visits no cluster twice |
| `FatChains.ChainAppend` | fs/fat32.c:218-230 | linking a fresh end cluster behind the tail extends the chain |
| `FatVolume.Measure` | fs/fat32.c:170-186 | succeeds iff the chain is well formed, ends and covers the size, on any table; then count and tail are right |
| `FatVolume.Volume.constructor` | fs/fat32.c:1318-1327 | the free count is the number of zero entries |
| `FatVolume.Volume.Enter` | fs/fat32.c:436-456 | a file found in a directory record comes into view with the chain it has on disk, not yet measured |
| `FatVolume.Volume.MeasureFile` | fs/fat32.c:170-186 | a file's measure fails exactly when the chain is too short for the size |
| `FatVolume.Volume.ClusterIndex` | fs/fat32.c:187-196 | the cluster found through the cached cursor is the one the walk from the first cluster reaches |
| `FatVolume.Volume.Allocate` | fs/fat32.c:197-217 | a free cluster iff there is one, and the free count stays exact |
| `FatVolume.Volume.Grow` | fs/fat32.c:218-230 | the chain is extended by free clusters, no other entry of the table changes, all chains stay disjoint, clusters are conserved, and failure means a full table |
| `FatVolume.Volume.FreeChain` | fs/fat32.c:231-241 | exactly the chain's clusters become free |
| `FatVolume.Volume.Trim` | fs/fat32.c:242-253 | the chain keeps its first clusters, the others become free, and no other entry of the table changes |
| `FatVolume.Volume.Remove` | fs/fat32.c:231-241 | a file that goes gives back exactly its clusters and changes no other entry |
| `FatBytes.Layer.ReadPart` | fs/fat32.c:112-121 | a part of a sector is read through the cache as it is on the device; fails iff a device request failed |
| `FatBytes.Layer.WritePart` | fs/fat32.c:112-121 | a part is stored and the cache still equals the device, also after a failed or torn write; fails iff a device request failed |
| `FatBytes.Layer.WriteRun` | fs/fat32.c:122-131 | a run past the cache leaves no stale cached sector, also when it fails midway; fails iff the device request failed |
| `FatBytes.Layer.SectorWrite` | fs/fat32.c:98-103 | writing a sector from another buffer leaves no stale cached sector; fails iff the device request failed |
| `FatBytes.Layer.Bytes` | fs/fat32.c:105-136 | the layer is a flat array: success moves exactly the range, failure changes no byte outside it, the cache stays right, and it fails iff one of the device requests it made failed |
| `FatFiles.AddressDistinct` | fs/fat32.c:137-140 | different bytes of a file lie at different places |
| `FatFiles.ExtendRun` | fs/fat32.c:264-275 | consecutive clusters make one run |
| `FatFiles.FindRun` | fs/fat32.c:259-275 | the coalesced run lies together on the device |
| `FatFiles.ChainBytes` | fs/fat32.c:254-283 | reads or writes exactly the addressed bytes of the concatenated chain and nothing else; it reports a failure of the device iff a request failed, and where the chain ends early the part before is right |
| `FatFiles.WriteThenRead` | fs/fat32.c:254-283 | reading back what was written gives it back |
| `FatUtf.DecodeOneSound` | fs/fat32.c:337-364 | what is decoded is a scalar value in its only UTF-8 form (section 4 of RFC 3629) |
| `FatUtf.DecodeOneComplete` | fs/fat32.c:337-364 | every UTF-8 form of a scalar value is decoded |
| `FatUtf.EncodeCorrect` | fs/fat32.c:337-364 | a name is accepted iff it is UTF-8 of at most 255 allowed units, and yields its UTF-16 (section 2 of RFC 2781) |
| `FatUtf.Encode` | fs/fat32.c:337-364 | the loop computes the specified encoding or error |
| `FatUtf.Decode` | fs/fat32.c:316-336 | the loop computes the specified decoding or error |
| `FatUtf.NameRoundTrip` | fs/fat32.c:316-364 | a stored name is read back up to its first U+FFFF: as itself iff it has none |
| `FatUtf.LostSuffix` | fs/fat32.c:316-336 | an accepted name that comes back shorter |
| `FatDirectory.ReadRecord` | fs/fat32.c:390-423 | the loop computes the specified next record |
| `FatDirectory.AbsorbNext` | fs/fat32.c:390-423 | fragments in descending order with one checksum are gathered into the padded name, whatever was pending |
| `FatEntries.ReadNew` | fs/fat32.c:390-423 | an added entry is read with its name, slot count and address iff no stray fragments attach |
| `FatEntries.RecordsAdded` | fs/fat32.c:390-423 | the listing gains one record between unchanged ones; it is the new one iff nothing in front is taken for its long name |
| `FatAddEntry.FreeSlots` | fs/fat32.c:531-551 | the first run of deleted or unused slots, growing by zeroed clusters no further than needed; none iff the directory grown by all the room has none |
| `FatAddEntry.WriteEntry` | fs/fat32.c:612-647 | the slots of the run hold the entry, the end mark moves if needed, nothing else changes |
| `FatAddEntry.GrownRecords` | fs/fat32.c:531-551 | zeroed clusters add no record |
| `FatAddEntry.ListedName` | fs/fat32.c:612-647 | a new entry is listed under its own name iff it is short or free of U+FFFF |
| `FatAddEntry.AddEntry` | fs/fat32.c:612-647 | exact condition of each error, with the listing unchanged; on success the entry takes the first run, the listing gains one record between unchanged ones, and it is the entry itself iff no stray fragments attach, under its own name iff that is short or free of U+FFFF |
| `FatAddEntry.OrphansAttach` | fs/fat32.c:390-423 | a family of directories to which a short entry is added and picks up a lost entry's fragments |
| `SyncWaiters.Queue.Publish` | fs/ext4_backend.c:204-239 | progress is published and the first error stays |
| `SyncWaiters.Queue.Prepare` | fs/ext4_backend.c:2713-2733 | a request is indexed iff there is something to wait for, and otherwise completed at once, with its own result or the error of the journal, and no other request is touched |
| `SyncWaiters.Queue.Index` | fs/ext4_backend.c:1187-1197 | insertion keeps order by (target, address) and balance, and adds exactly the request |
| `SyncWaiters.Queue.Leftmost` | fs/ext4_backend.c:1213-1214 | the walk reaches the first request in order |
| `SyncWaiters.Queue.CompleteFirst` | fs/ext4_backend.c:1199-1222 | the first request leaves iff it is due; otherwise no request is due |
| `SyncWaiters.Queue.CompleteAll` | fs/ext4_backend.c:1206-1225 | afterwards nothing in the index is due; exactly the due requests have left, each completed once with the published error and sequence |
| `SyncWaiters.AccountedTake` | fs/ext4_backend.c:1206-1225 | taking the first request keeps every request waiting once or completed once |
| `TmpfsTree.CreateKeeps` | fs/tmpfs.c:231-300 | creating a file or directory in a live directory keeps all accounts and the tree |
| `TmpfsTree.LinkKeeps` | fs/tmpfs.c:412-423 | a further name keeps all accounts iff its directory is live |
| `TmpfsRemove.RemoveKeeps` | fs/tmpfs.c:374-403 | removing a name, with the collection it causes, keeps all accounts and the tree |
| `TmpfsRemove.CloseKeeps` | fs/tmpfs.c:328-333 | closing keeps all accounts; the last close of a nameless inode frees it |
| `TmpfsRename.PathUnique` | fs/tmpfs.c:444-448 | there is one way up from a directory |
| `TmpfsRename.LiveClimbs` | fs/tmpfs.c:444-448 | the walk up from a live directory comes to an end, never at a missing parent, and finds exactly what lies above |
| `TmpfsRename.CycleIsLost` | fs/tmpfs.c:444-448 | a directory moved below itself is lost to the root |
| `TmpfsRename.MoveKeeps` | fs/tmpfs.c:459-460 | moving a name keeps all accounts and the tree iff the new directory is live and not below what moves |
| `TmpfsUnmount.DrainKeeps` | fs/tmpfs.c:646-657 | each name taken at unmount keeps the count equal to the sum of max(1, names) |
| `TmpfsRuns.RenameKeeps` | fs/tmpfs.c:424-463 | a rename over an existing name keeps all accounts and the tree |
| `TmpfsRuns.NeverTraps` | fs/tmpfs.c:175-230 | no step that the guards of the source let through traps in a state where the invariant holds |
| `TmpfsRuns.StepKeeps` | fs/tmpfs.c:231-463 | a step keeps the invariant iff it does not link into something that is no live directory |
| `TmpfsRuns.RunKeeps` | fs/tmpfs.c:231-463 | the invariant holds in every run of create, link, remove, rename, open and close whose links go into live directories |
| `TmpfsRuns.RunIsSound` | fs/tmpfs.c:231-463 | the invariant holds in all states of a run iff every link of the run went into a live directory |
| `TmpfsRuns.AccountsAreRight` | fs/tmpfs.c:213-300 | in every run whose links go into live directories, links are names, a directory has 2 plus its subdirectories and size 20 times (2 plus entries), and inode_count is the sum of max(1, names) |
| `TmpfsRuns.DirectoriesAreATree` | fs/tmpfs.c:231-463 | in every run whose links go into live directories, exactly one way leads up from a directory with a name, to inode 1 |
| `TmpfsRuns.RemovedTargetBreaks` | fs/tmpfs.c:412-463 | a reachable state with an open removed directory: linking into it breaks the accounts and its last close traps; renaming into it would break them too |
| `TmpfsRuns.LinkThenClose` | fs/tmpfs.c:175-179 | after any link, the next close of the directory traps iff the directory had no links and one handle |
| `TmpfsRuns.LastCloseTraps` | fs/tmpfs.c:175-179 | a removed directory with a name in it traps at its last close, however many handles it has |
| `Tmpfs.TmpMount.constructor` | fs/tmpfs.c:757-769 | the root alone is valid |
| `Tmpfs.TmpMount.PublishEntry` | fs/tmpfs.c:213-221 | one name and the size of its directory are added |
| `Tmpfs.TmpMount.RemoveEntry` | fs/tmpfs.c:222-230 | one name and its share of the size go; the size trap cannot fire |
| `Tmpfs.TmpMount.CollectInode` | fs/tmpfs.c:175-185 | an inode goes iff it has neither links nor handles; it traps iff names are then still listed in it or the count is spent |
| `Tmpfs.TmpMount.Create` | fs/tmpfs.c:231-300 | exact condition of success and of each error, validity, and the inode limit is never exceeded |
| `Tmpfs.TmpMount.CreateFile` | fs/tmpfs.c:334-349 | exact condition of success; a file that cannot be opened is taken back without a trace but its number |
| `Tmpfs.TmpMount.Open` | fs/tmpfs.c:314-327 | an inode gains a handle iff it exists |
| `Tmpfs.TmpMount.Close` | fs/tmpfs.c:328-333 | traps iff collection traps; in a valid namespace it never does, and the inode goes iff this was its last handle and it has no name |
| `Tmpfs.TmpMount.Remove` | fs/tmpfs.c:389-403 | exact condition of success and of each error; a failure changes nothing |
| `Tmpfs.TmpMount.Link` | fs/tmpfs.c:412-423 | exact condition of success and of each error; a failure changes nothing; a success keeps the namespace iff the directory is live |
| `Tmpfs.TmpMount.Above` | fs/tmpfs.c:444-448 | the walk up decides whether it meets the directory that moves, and traps iff it comes to a missing parent |
| `Tmpfs.TmpMount.Rename` | fs/tmpfs.c:424-463 | exact condition of success, of each error and of the trap on a missing parent; a success keeps the namespace iff the new directory is live; the replaced inode is reported, and as unlinked iff no name of it is left; a failure changes nothing |
| `Tmpfs.TmpMount.Unmount` | fs/tmpfs.c:641-664 | refused while busy, otherwise every name and inode goes and the inode count reaches zero |

## Left out

- Waiting, wake-ups, interrupts and memory fences: a wait is a step that is not enabled, so nothing is said about wake-up order.
- Fixed-width counters: borrow, reference, link and generation counts and inode numbers do not wrap in the model, apart from the checks against their maxima in `Tmpfs.TmpMount.Create` and `Tmpfs.TmpMount.Link`.
- Bit masks and shifts: dirty-block masks are sets of block numbers, and masking by a power-of-two capacity is a remainder.
- Error numbers of user copies, permissions, quotas, credentials and timestamps.
- PageIndex.Record.Install: models the second lock scope of `reserve_buckets`; the loop that allocates and tries again is not part of it.
- PageIndex.Record.Publish: requires room at three quarters, which a preceding reservation leaves.
- Page cache readahead, quotas, pressure, reclaim policy, statistics, worker loops, rearming of memory mappings after capture, and the return of retired entries in `kernel_page_cache_put_batch`.
- WritebackProof.NoWriteIsLost: one page at a time; the choice and order of pages within one writeback run is not modelled.
- ResourceSets.RequestSet.Acquire: keeps the request list as a sequence rather than as doubly linked nodes.
- `boaros_lwext4_inode_get` and `boaros_lwext4_inode_put`: references held outside an operation are not counted.
- FileMappingProof.CalledExactlyOnce: says what a finished pass has called; that every pass finishes under endless registration is not claimed.
- PipeDevice.Device.Readv: has no writer at the same time; the interleavings are those of `PipeProof`.
- PipeDevice.Device.Write: one stretch between waits, with no reader at the same time; the interleavings are those of `PipeProof`.
- FatVolume.Volume.Grow: the table is one sequence of entries; mirrored copies, their four reserved bits and the clearing of a new cluster's sectors are not modelled, and no media error occurs.
- FatVolume.Volume.Enter: requires a well-formed chain apart from all others, while `record_inode` takes any first cluster of a damaged volume into view.
- FatFiles.ChainBytes: takes the file's clusters as a sequence, which `FatVolume.Volume.ClusterIndex` shows each lookup to yield.
- FatAddEntry.AddEntry: takes the short entry as given; the choice of an unused short name in `make_short` and the erasure of slots after a media error are not part of it.
- FAT directory lookup by name without case, rename, timestamps, modes and the FSInfo hint.
- SyncWaiters.Queue.Prepare: the preparation of metadata is a parameter; the index reuses the tree of `LockHeap`, whose balancing is the same.
- Tmpfs.TmpMount.Rename: requires, for a directory, that the walk up from the new directory comes to an end (at the root, at the directory that moves or at a missing parent), which `TmpfsRename.LiveClimbs` shows for a live one.
- tmpfs extended attributes, symbolic-link targets, file contents and directory cookies; the red-black trees of inodes and names are maps.
- Everything else under `fs/`: procfs, devices, event and signal descriptors, terminals, loop devices, message queues, mount tables and open-file bookkeeping would add dispatch, formatting and plain reference counts.
