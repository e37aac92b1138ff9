# ObfuscationKernel: verified storage, memory and module logic

This project models the hardest state of the kernel in Dafny 4.11 and proves
what its design promises. Where the source updates objects in place the model is
a class with the same fields and loops, proved against functions on values;
where several threads share state it is a system of steps, and claims are about
every run. `dafny verify dfyconfig.toml` checks the whole project.

Statuses, byte fields, linear division and folded predicates are in `Outcomes`,
`Bytes`, `Arithmetic` and `Seals`. A folded predicate is written
`forall k :: Opened(S, k) ==> body`; it means `body`.

## Main results

- ext4 contents: `Ext4Volumes.Ext4Volume.Run` over `WriteActive` and
  `TruncateActive`: every file always holds what replaying its own calls on byte
  strings gives, extents, bitmaps and counters staying exact and disjoint.
- ext4 rehearsal: `Ext4Preflight.PreflightExact`: the write preflight foresees
  the very blocks or the very refusal, so a refused write has changed nothing.
- ext4 clean marker: `Ext4Marker.MarkedVolume.AlwaysCrashSafe`: on a device that
  caches, reorders, tears and fails to flush, no crash of any session leaves a
  volume that says clean and is not what was last written and flushed.
- ext4 identities: `Ext4Identities.NoStrandedOrphan`, `HeldInodeStays`,
  `IdentityStable`, over every interleaving of operations with retain and release.
- ext4 names: `Ext4Namespace.RenamedTree` and the exact conditions of create,
  link, remove, destroy and rename; `Ext4Directory` refines the directory blocks
  to a map.
- FAT ownership: `FatVolumes.FatVolume.OwnedExactly` and `SizeCovered`, kept by
  every operation.
- FAT and exFAT directories: `DirectoryRoundTrip` in both formats, and
  `FatScanning.ShownIff` with `FatCreation.Create` and `ExfatCreation.Create`:
  when the next scan finds what was created. `FatErasure.ErasedShown`: what it
  finds after a removal. `FatDirectories.FatDirectory.Run`: over any run in a
  directory made here it finds exactly what was made and not removed.
- Memory: `RegionSweep.SweepUsable`, `FrameMetadata.Initialize`, and the frame
  allocator with handles that never come back to life.
- `PageCache`, `SimpleFs`, `ModuleOrder.ModuleManager.SortModules`,
  `CounterClock.Clock.Sample` and `ConsoleRing.Ring.Drain`.

## Model

| member | source | states |
|---|---|---|
| Ext4Extents.LookupOwned | src/fs/ext4_fs.cpp:734-794 | A logical block that the extents map goes to a data block that they own |
| Ext4Extents.LookupInjective | src/fs/ext4_fs.cpp:734-794 | Two logical blocks never map to the same physical block |
| Ext4Extents.HoleIff | src/fs/ext4_fs.cpp:909-925 | The position search finds a hole exactly at a logical block outside every extent |
| Ext4Extents.HoleIffUnmapped | src/fs/ext4_fs.cpp:734-794 | What `append` takes for a hole is exactly what `map` reports as unmapped |
| Ext4Extents.AppendedErrors | src/fs/ext4_fs.cpp:909-947 | `append` reports corruption exactly for a block that is mapped already, and lack of capacity only with all four slots taken |
| Ext4Extents.AppendedMap | src/fs/ext4_fs.cpp:909-959 | After `append` the map has exactly the one new block more, owns exactly one block more, stays sorted, disjoint and inside the data area, and the sector count stays exact |
| Ext4Extents.GrownMap | src/fs/ext4_fs.cpp:926-945 | Merging a block into a neighbouring extent, at either end, adds exactly that block to the map |
| Ext4Extents.InsertedMap | src/fs/ext4_fs.cpp:946-958 | Shifting a one-block extent into the list adds exactly that block to the map |
| Ext4Extents.ClippedMap | src/fs/ext4_fs.cpp:1193-1217 | Cutting the list at a logical block keeps the map below it and empties it from there on |
| Ext4Extents.ClippedOwned | src/fs/ext4_fs.cpp:1203-1216 | A physical block survives the cut exactly when it was mapped below it |
| Ext4Pools.FirstFreeAt | src/fs/ext4_fs.cpp:480-509 | The bitmap scan stops at the lowest clear bit at or after its start, or at the end |
| Ext4Pools.FreeCountZero | src/fs/ext4_fs.cpp:994-1029 | A group counter is zero exactly when the group has no clear bit, so skipping such groups skips nothing |
| Ext4Pools.FlippedRoom | src/fs/ext4_fs.cpp:960-993 | A clear bit leaves room to decrement the group counter and the superblock counter |
| Ext4Pools.FlippedConsistent | src/fs/ext4_fs.cpp:994-1053 | Turning a bit with both its counters keeps every counter equal to the clear bits it stands for |
| Ext4Pools.FlippedLimits | src/fs/ext4_fs.cpp:960-993 | The counters then stay within the limits that `counts` checks |
| Ext4Pools.ConsistentUnique | src/fs/ext4_fs.cpp:960-1053 | A consistent pool is determined by its bitmap: taking a number and giving it back restores every counter |
| Ext4Layout.DataRange | src/fs/ext4_fs.cpp:590-606 | The group scan accepts a range exactly when no block of it is metadata of any group |
| Ext4Layout.HitsIsOverlap | src/fs/ext4_fs.cpp:599-604 | The four comparisons say exactly that a group's metadata meets the range |
| Ext4Layout.OutsideScan | src/fs/ext4_fs.cpp:595-596 | Groups before the first one scanned, and after the last, cannot meet the range |
| Ext4Contents.VolumeExtended | src/fs/ext4_fs.cpp:1444-1460 | Taking a free block for one file keeps the volume sound: no two files share a block, and the bitmap marks exactly what is owned or metadata |
| Ext4Contents.VolumeClipped | src/fs/ext4_fs.cpp:1193-1217 | So does cutting a file and releasing exactly what it lost |
| Ext4Contents.VolumeRewritten | src/fs/ext4_fs.cpp:1461-1485 | So does rewriting a block of a file and raising its size |
| Ext4Contents.VolumeRemoved | src/fs/ext4_fs.cpp:1268-1274 | So does forgetting an inode that owns nothing |
| Ext4Contents.OthersKeptBy | src/fs/ext4_fs.cpp:1461-1485 | A write into a block that was free, or the file's own, leaves every other file's blocks alone |
| Ext4Contents.Rewritten | src/fs/ext4_fs.cpp:1461-1478 | Rewriting a mapped block changes exactly that block of the file's byte stream |
| Ext4Contents.Extended | src/fs/ext4_fs.cpp:1450-1478 | Mapping a fresh block and writing it changes exactly that block of the stream |
| Ext4Contents.TailCleared | src/fs/ext4_fs.cpp:1163-1179 | Zeroing the rest of the last block clears everything past the end of file and nothing before it |
| Ext4Contents.ContentsOverlaid | src/fs/ext4_fs.cpp:1422-1491 | A write past a cleared gap overlays the contents: bytes before, zeros in the gap, the input, and what was behind it |
| Ext4Contents.ContentsGrown | src/fs/ext4_fs.cpp:1183-1192 | With a cleared tail a larger size is a zero extension of the contents |
| Ext4Contents.ContentsCut | src/fs/ext4_fs.cpp:1193-1237 | With the bytes kept below it a smaller size is a prefix of the contents |
| Ext4Preflight.PlanIsExec | src/fs/ext4_fs.cpp:550-576 | For every inode, range and bitmap, at any point of the way, the rehearsal foresees the very blocks the write takes or the very capacity failure it meets |
| Ext4Preflight.PreflightExact | src/fs/ext4_fs.cpp:550-576 | From the start of a write the rehearsal is exact, the first block being metadata |
| Ext4Preflight.ForeseenRuns | src/fs/ext4_fs.cpp:1435-1437 | What the rehearsal has foreseen is what the write then does |
| Ext4Preflight.AppendedWritable | src/fs/ext4_fs.cpp:868-959 | A record that `writable` accepts is accepted again after `append` and the size update |
| Ext4Volumes.Ext4Volume.constructor | src/fs/ext4_fs.cpp:312-412 | A mount of a sound volume starts sound, with exactly that volume |
| Ext4Volumes.Ext4Volume.ReadBlock | src/fs/ext4_fs.cpp:653-658 | A successful read gives the block; one beyond the volume or a failed transfer fails the mount |
| Ext4Volumes.Ext4Volume.WriteBlock | src/fs/ext4_fs.cpp:659-693 | Success stores exactly this block; a failed write may change that block only, and fails the mount; nothing is written on a failed or read-only mount |
| Ext4Volumes.Ext4Volume.Map | src/fs/ext4_fs.cpp:734-794 | On a structured record the answer is the mapping function and the mount stays sound; corruption fails the mount |
| Ext4Volumes.Ext4Volume.CheckWritable | src/fs/ext4_fs.cpp:868-908 | `writable` accepts exactly the records that are inline, plain, sorted, disjoint, inside the data area, within the size and with an exact sector count |
| Ext4Volumes.Ext4Volume.Append | src/fs/ext4_fs.cpp:909-959 | `append` gives the record, or the error, that the specification function says |
| Ext4Volumes.Ext4Volume.Counts | src/fs/ext4_fs.cpp:960-993 | Moves one group counter and the superblock counter together, within their limits |
| Ext4Volumes.Ext4Volume.AvailableNumber | src/fs/ext4_fs.cpp:480-509 | The lowest usable clear bit above a number, with nothing changed |
| Ext4Volumes.Ext4Volume.Allocate | src/fs/ext4_fs.cpp:994-1029 | Takes the lowest usable clear bit with both counters, and reports lack of space only when there is none |
| Ext4Volumes.Ext4Volume.FreeNumber | src/fs/ext4_fs.cpp:1030-1053 | Clears the bit of a number in use with both counters; any other number is corruption |
| Ext4Volumes.Ext4Volume.ReadActive | src/fs/ext4_fs.cpp:1375-1421 | A read returns exactly the requested part of the contents, as far as the file and the buffer reach, holes as zeros; else the exact error |
| Ext4Volumes.Ext4Volume.ReadChunk | src/fs/ext4_fs.cpp:1399-1417 | One turn of the read loop returns the stream up to the end of one block |
| Ext4Volumes.Ext4Volume.RewriteChunk | src/fs/ext4_fs.cpp:1466-1485 | One turn over a mapped block lays the chunk into the stream and keeps the bitmap |
| Ext4Volumes.Ext4Volume.ExtendChunk | src/fs/ext4_fs.cpp:1444-1485 | One turn over a hole takes the lowest free block, maps it and lays the chunk; a full extent list gives the block back and changes nothing |
| Ext4Volumes.Ext4Volume.ZeroTail | src/fs/ext4_fs.cpp:1163-1179 | Clears what the last block holds past the end of file and keeps the contents |
| Ext4Volumes.Ext4Volume.PreflightWrite | src/fs/ext4_fs.cpp:550-576 | The rehearsal loop comes to what the plan says and changes nothing |
| Ext4Volumes.Ext4Volume.WriteLoop | src/fs/ext4_fs.cpp:1444-1488 | What the loop has written so far is a prefix of the input, laid at the offset, and it takes exactly the blocks that the specification takes |
| Ext4Volumes.Ext4Volume.WriteActive | src/fs/ext4_fs.cpp:1422-1491 | A write overlays the contents and takes exactly the foreseen blocks; every refusal has its exact cause; a write that stops short without a device error leaves a prefix, and with the rehearsal leaves nothing at all; other files keep records and blocks in every case |
| Ext4Volumes.Ext4Volume.Shrink | src/fs/ext4_fs.cpp:1193-1217 | The extent loop releases exactly the blocks beyond the cut and leaves the clipped list with its exact sector count |
| Ext4Volumes.Ext4Volume.Resize | src/fs/ext4_fs.cpp:1183-1237 | The contents are cut or zero-extended to the new size, and exactly the blocks beyond it are released |
| Ext4Volumes.Ext4Volume.TruncateActive | src/fs/ext4_fs.cpp:1492-1515 | So it is for `truncate`; the status is exactly the admission verdict unless a transfer failed, and a refusal changes nothing |
| Ext4Volumes.Ext4Volume.Perform | src/fs/ext4_fs.cpp:1422-1515 | A call that does not fail the mount has done all of it or, refused, a prefix of a write and nothing of a truncate |
| Ext4Volumes.Ext4Volume.Run | src/fs/ext4_fs.cpp:1422-1515 | After any run of calls on any files, refused ones included, every file holds what replaying what they did on its own byte string gives |
| Ext4Volumes.Ext4Volume.DestroyStorage | src/fs/ext4_fs.cpp:1251-1287 | Every block of the file and its number go back to their pools, its record goes, and nothing else changes |
| Ext4Volumes.FindPosition | src/fs/ext4_fs.cpp:915-917 | The slot search of `append` finds the first extent that does not start before the block |
| Ext4Volumes.Place | src/fs/ext4_fs.cpp:913-959 | Merge, shift or refuse: the list that `append` leaves is the specified one |
| Ext4Volumes.ShiftIn | src/fs/ext4_fs.cpp:948-956 | The shift loop makes room at the position and loses no entry |
| Ext4Volumes.CheckExtents | src/fs/ext4_fs.cpp:882-907 | The extent loop of `writable` accepts exactly the structured lists within the size with an exact sector count |
| Ext4Volumes.ScanGroup | src/fs/ext4_fs.cpp:1006-1016 | The bit loop finds the lowest clear bit of a group, or its end |
| Ext4Volumes.NumberFreed | src/fs/ext4_fs.cpp:1273-1274 | Above the reserved numbers exactly those with a record stay in use when one is released |
| Ext4Volumes.OtherContents | src/fs/ext4_fs.cpp:1422-1515 | An operation on one inode leaves the contents of every other as they were |
| Ext4Volumes.RunContents | src/fs/ext4_fs.cpp:1422-1515 | Over any run of writes and truncates on any files, the contents of each are what replaying its own calls on byte strings gives |
| BlockDevices.CrashHolds | include/ok/driver/driver.hpp:190-200 | After a crash every sector holds a value that was cached for it or durable before |
| BlockDevices.CachedHolds | include/ok/driver/driver.hpp:190-200 | A write request adds only its own values to what sectors may hold |
| BlockDevices.FailedFlushHolds | include/ok/driver/driver.hpp:190-200 | A failed flush may persist any part of the cache, and adds nothing to what sectors may hold |
| BlockDevices.CachedReads | include/ok/driver/driver.hpp:190-200 | Reads after a successful write see it, and everything else as before |
| Ext4Marker.SettledSafe | src/fs/ext4_fs.cpp:618-652 | A device in doubt about the clean marker alone is crash safe |
| Ext4Marker.NeverCleanSafe | src/fs/ext4_fs.cpp:659-693 | A device that can never look clean is crash safe |
| Ext4Marker.MarkedVolume.constructor | src/fs/ext4_fs.cpp:360-364 | A writable mount of a clean, flushed volume starts in a safe state |
| Ext4Marker.MarkedVolume.AlwaysCrashSafe | src/fs/ext4_fs.cpp:607-693 | At every moment of every session, whatever the device cached, tore, reordered or failed to flush: a crash image that says clean has every other sector as last flushed and as last written |
| Ext4Marker.MarkedVolume.WriteMark | src/fs/ext4_fs.cpp:662-680 | Writing the superblock with another state word and flushing it moves the marker alone |
| Ext4Marker.MarkedVolume.MarkDirty | src/fs/ext4_fs.cpp:662-680 | The dirty marker is durable before the first block write after a clean state; failure ends all writing |
| Ext4Marker.MarkedVolume.WriteBlock | src/fs/ext4_fs.cpp:659-693 | Nothing is written once failed; a successful write stores the block with the marker dirty, and every intermediate state is crash safe |
| Ext4Marker.MarkedVolume.RestoreDirtyMarker | src/fs/ext4_fs.cpp:607-617 | The best-effort rewrite leaves the mount failed, and every later write is refused |
| Ext4Marker.MarkedVolume.SyncActive | src/fs/ext4_fs.cpp:618-652 | Success means everything is durable and the marker says clean, or dirty while detached nodes remain; failure fails the mount |
| Ext4Marker.MarkedVolume.Clean | src/fs/ext4_fs.cpp:632-650 | The clean marker goes down only over a flushed volume |
| Ext4Identities.InvKept | src/fs/ext4_fs.cpp:59-124 | Every step of every thread keeps the identity invariant: states agree with the numbers on disk, no two slots stand for one inode, and no orphan is stranded |
| Ext4Identities.Reachable | src/fs/ext4_fs.cpp:59-124 | So it holds in every state of every run, under any interleaving |
| Ext4Identities.NoStrandedOrphan | src/fs/ext4_fs.cpp:100-119 | With no operation active on a sound mount no unlinked node is left without references and unreclaimed |
| Ext4Identities.HeldInodeStays | src/fs/ext4_fs.cpp:1238-1287 | A referenced node keeps its inode allocated, and no other slot stands for it |
| Ext4Identities.IdentityStable | src/fs/ext4_fs.cpp:1288-1326 | A slot that stays referenced or exposed names the same inode all the time |
| Ext4Identities.ExposedForever | src/fs/ext4_fs.cpp:1276-1284 | A slot once handed out raw names the same inode for ever |
| Ext4Identities.ReadyStays | src/fs/ext4_fs.cpp:78-119 | Nothing another thread does can rescue an orphan, so a check under the lock stays true until the lock is left |
| Ext4Identities.Identities.constructor | src/fs/ext4_fs.cpp:312-412 | A mount publishes the root alone |
| Ext4Identities.Identities.RetainLocked | src/fs/ext4_fs.cpp:1521-1529 | Retaining succeeds exactly for live nodes below the reference limit, and changes that count alone |
| Ext4Identities.Identities.ExposeLocked | src/fs/ext4_fs.cpp:1536-1542 | Exposing succeeds exactly for live nodes |
| Ext4Identities.Identities.ReleaseLocked | src/fs/ext4_fs.cpp:1551-1558 | The release step; the caller adopts the cleanup exactly when it made an orphan with no operation active |
| Ext4Identities.Identities.BeginOperation | src/fs/ext4_fs.cpp:59-77 | Admission is exclusive, and an operation starts on live nodes only |
| Ext4Identities.Identities.FirstReady | src/fs/ext4_fs.cpp:84-92 | Finds an orphan exactly when there is one |
| Ext4Identities.Identities.FindDetached | src/fs/ext4_fs.cpp:1245-1247 | Finds the detached slot of a number exactly when there is one |
| Ext4Identities.Identities.Destroy | src/fs/ext4_fs.cpp:1238-1287 | On success the number is free again and one orphan less is left; other threads may retain and release meanwhile |
| Ext4Identities.Identities.DrainDetached | src/fs/ext4_fs.cpp:78-99 | Destroys orphans until it sees none, or fails the mount |
| Ext4Identities.Identities.FinishOperation | src/fs/ext4_fs.cpp:100-119 | Gives up the admission only with no orphan left, or with the mount failed; it ends after finitely many rounds |
| Ext4Identities.Identities.ReleaseNode | src/fs/ext4_fs.cpp:1549-1560 | The last release of a detached node leaves no orphan behind or fails the mount; any other release is one step; an unbalanced one is refused |
| Ext4Identities.Identities.DetachNode | src/fs/ext4_fs.cpp:120-124 | The node becomes detached and its number is no longer named |
| Ext4Identities.Identities.EvictLocked | src/fs/ext4_fs.cpp:1288-1303 | Empties a slot that nothing can reach, never the root's, and finds one if there is one |
| Ext4Identities.Identities.Reserve | src/fs/ext4_fs.cpp:1622-1633 | A slot for a new identity is vacant, or was evicted; none only if there is none |
| Ext4Identities.Identities.Node | src/fs/ext4_fs.cpp:1304-1326 | The one linked identity of a number, and no slot only when every slot is in use |
| Ext4Identities.Identities.PublishNode | src/fs/ext4_fs.cpp:1804-1812 | The reserved slot becomes the only identity of the new inode |
| Ext4Namespace.CreatedTree | src/fs/ext4_fs.cpp:1596-1815 | Creating a file or directory keeps the tree: exact link counts, one name per directory, `..` right, every directory below the root |
| Ext4Namespace.LinkedTree | src/fs/ext4_fs.cpp:2070-2128 | So does another name for a file |
| Ext4Namespace.RemovedTree | src/fs/ext4_fs.cpp:2304-2364 | So does removing a file's name or an empty directory |
| Ext4Namespace.DestroyedTree | src/fs/ext4_fs.cpp:1251-1274 | So does releasing the number of an unlinked inode, which may then be used again |
| Ext4Namespace.UnlinkedAlone | src/fs/ext4_fs.cpp:1251-1254 | An unlinked inode is not the root, has neither names nor entries, and is no live directory's `..` |
| Ext4Namespace.MovedReach | src/fs/ext4_fs.cpp:2048-2069 | After a move outside itself every directory still reaches the root, through the new parent |
| Ext4Namespace.MovedTree | src/fs/ext4_fs.cpp:2206-2303 | A move to a free name outside the moved directory keeps the tree |
| Ext4Namespace.RenamedTree | src/fs/ext4_fs.cpp:2129-2303 | A rename keeps the tree and changes exactly the two bindings |
| Ext4Namespace.ClearedMovable | src/fs/ext4_fs.cpp:2172-2205 | Clearing the target first never takes the destination away |
| Ext4Namespace.HeightBelow | src/fs/ext4_fs.cpp:2048-2069 | The root is fewer `..` steps away than there are inodes, so the bound of the walk never cuts it short |
| Ext4Namespace.Namespace.constructor | src/fs/ext4_fs.cpp:312-412 | A mount starts from a sound tree |
| Ext4Namespace.Namespace.ValidateMove | src/fs/ext4_fs.cpp:2048-2069 | The walk refuses exactly the moves into the source or below it |
| Ext4Namespace.Namespace.Create | src/fs/ext4_fs.cpp:1596-1815 | Succeeds exactly under its stated conditions, a writable parent among them, and then creates; else nothing changes |
| Ext4Namespace.Namespace.Link | src/fs/ext4_fs.cpp:2070-2128 | Succeeds exactly under its stated conditions, writable records and room for the entry among them, and then links; else nothing changes |
| Ext4Namespace.Namespace.Remove | src/fs/ext4_fs.cpp:2304-2364 | Succeeds exactly for a name of the right kind, empty if a directory, with writable records and a node slot to be had; else nothing changes |
| Ext4Namespace.Namespace.Destroy | src/fs/ext4_fs.cpp:1251-1287 | An unlinked inode gives its number back; a linked one is corruption and nothing changes |
| Ext4Namespace.Namespace.Rename | src/fs/ext4_fs.cpp:2129-2303 | Succeeds exactly when it may: writable records, and room for a free name or a node slot for the target; does nothing when both names are of one inode, else removes the target and moves the source; a refusal changes nothing |
| Ext4Namespace.Namespace.CheckRename | src/fs/ext4_fs.cpp:2129-2240 | The checks before the first change accept exactly the permitted renames |
| Ext4Namespace.Namespace.CheckTarget | src/fs/ext4_fs.cpp:2172-2205 | Accepts exactly a target of the same kind, empty if a directory, writable and with a node slot; on a sound volume finds no corruption of its own |
| Ext4Namespace.Namespace.CheckDirectory | src/fs/ext4_fs.cpp:2206-2232 | Nor do the checks on a moved directory |
| Ext4Namespace.Namespace.RelinkOver | src/fs/ext4_fs.cpp:2241-2303 | The updates in the order they are written come to the specified rename |
| Ext4Namespace.Namespace.RelinkFree | src/fs/ext4_fs.cpp:2241-2303 | The same to a free name |
| Ext4Directory.FindRecord | src/fs/ext4_fs.cpp:1067-1082 | In any block, the first live record of the name with sound records before it; only a block that is not tiled is reported corrupt |
| Ext4Directory.Search | src/fs/ext4_fs.cpp:1054-1086 | Over any blocks: searched in order up to the record, or to the first block that is corrupt before it |
| Ext4Directory.FindRoom | src/fs/ext4_fs.cpp:1110-1136 | Finds a record with room to spare exactly when there is one |
| Ext4Directory.PutRecord | src/fs/ext4_fs.cpp:1140-1158 | Writes header and name and nothing else |
| Ext4Directory.InsertAt | src/fs/ext4_fs.cpp:1118-1158 | Splitting or taking over a record keeps the tiling and adds exactly one live record |
| Ext4Directory.TakenOver | src/fs/ext4_fs.cpp:1118-1136 | A dead record taken over is one binding more |
| Ext4Directory.SplitDone | src/fs/ext4_fs.cpp:1118-1136 | A live record that is split keeps its binding, and the new one follows it |
| Ext4Directory.Rewritten | src/fs/ext4_fs.cpp:1923-1936 | Rewriting a record's inode and type changes that binding alone, and with 0 erases it |
| Ext4Directory.Directory.constructor | src/fs/ext4_fs.cpp:1054-1162 | A directory of tiled blocks refines a map from names to targets |
| Ext4Directory.Directory.Find | src/fs/ext4_fs.cpp:1054-1086 | Finds exactly the bound names, and never reports corruption |
| Ext4Directory.Directory.Child | src/fs/ext4_fs.cpp:1087-1096 | Answers what the map says |
| Ext4Directory.Directory.Insert | src/fs/ext4_fs.cpp:1097-1162 | Binds an absent name, in spare room or in one block more; no other binding changes; refused only when no block has room and none can be had |
| Ext4Directory.Directory.ReplaceEntry | src/fs/ext4_fs.cpp:1923-1936 | Rebinds a bound name, or unbinds it with 0; no other binding changes |
| Ext4Directory.Directory.Grow | src/fs/ext4_fs.cpp:1137-1150 | A new block holds one dead record |
| FatChains.Chain | src/fs/fat_fs.cpp:205-245 | Finds the chain of a head exactly when it has one: in range, without repetition, within the limit, ending in an end mark |
| FatChains.ChainUnique | src/fs/fat_fs.cpp:205-245 | A head has one chain |
| FatChains.ChainFrame | src/fs/fat_fs.cpp:205-245 | A chain depends on the table at its own clusters alone |
| FatPartition.ExactUnion | src/fs/fat_fs.cpp:246-348 | A cluster is owned exactly when some chain holds it, and then only one does |
| FatPartition.ClaimedPartition | src/fs/fat_fs.cpp:304-330 | Taking a free cluster keeps the partition |
| FatPartition.AppendedPartition | src/fs/fat_fs.cpp:874-887 | So does linking it behind a chain |
| FatPartition.CutPartition | src/fs/fat_fs.cpp:1029-1038 | So does cutting a chain |
| FatPartition.FreedAllPartition | src/fs/fat_fs.cpp:331-348 | So does giving clusters back, which leaves every chain alone and frees exactly them |
| FatPartition.RelabelledPartition | src/fs/fat_fs.cpp:862-872 | So does turning a contiguous run into a linked chain |
| FatPartition.AdoptedPartition | src/fs/fat_fs.cpp:408-414 | So does taking in a chain found on disk |
| FatVolumes.Claim | src/fs/fat_fs.cpp:246-258 | Claims a chain exactly when none of its clusters is owned and all are allocated |
| FatVolumes.FatVolume.constructor | src/fs/fat_fs.cpp:666-764 | A mounted volume starts with its system tables claimed |
| FatVolumes.FatVolume.OwnedExactly | src/fs/fat_fs.cpp:246-348 | A cluster has its owner bit exactly when it is in the chain of a node in use or of a system table, in one chain only; and every node in use has its chain |
| FatVolumes.FatVolume.SizeCovered | src/fs/fat_fs.cpp:965-993 | Every position below the size of a node lies in a cluster of its chain, so no access within a file runs off it; every directory has a cluster |
| FatVolumes.FatVolume.AllocateCluster | src/fs/fat_fs.cpp:304-330 | The lowest cluster free in memory and on disk; none only when there is none |
| FatVolumes.FatVolume.FreeChain | src/fs/fat_fs.cpp:331-348 | Frees exactly the clusters of the chain |
| FatVolumes.FatVolume.Unroll | src/fs/fat_fs.cpp:862-872 | A contiguous run becomes a linked chain of the same clusters |
| FatVolumes.FatVolume.AppendCluster | src/fs/fat_fs.cpp:874-887 | One turn of `extend` appends one free cluster; refused only when the volume is full |
| FatVolumes.FatVolume.Extend | src/fs/fat_fs.cpp:853-889 | The chain keeps what it had and gets the clusters that are wanted, in free ones; no other chain changes; each refusal has its exact cause |
| FatVolumes.FatVolume.Resize | src/fs/fat_fs.cpp:994-1040 | Growing gives the chain what the size needs, and shrinking leaves exactly that; no other chain changes; refusals are exact |
| FatVolumes.FatVolume.Add | src/fs/fat_fs.cpp:401-430 | A node is admitted exactly when its size is within the limit, its head has a chain that covers it, a directory has a cluster, and nobody owns any of it |
| FatVolumes.FatVolume.FindSlot | src/fs/fat_fs.cpp:1143-1148 | A new node never takes a slot that a name, handle, cluster or raw pointer refers to, and one is found if there is one |
| FatVolumes.FatVolume.GrowDirectory | src/fs/fat_fs.cpp:938-953 | One more cluster for a directory, and on exFAT the size of all of them |
| FatVolumes.FatVolume.Create | src/fs/fat_fs.cpp:1131-1307 | The new node owns nothing, or one fresh cluster; nobody else's chain changes; refusals are exact |
| FatVolumes.FatVolume.Publish | src/fs/fat_fs.cpp:1156-1172 | The same for the node itself |
| FatVolumes.FatVolume.Drop | src/fs/fat_fs.cpp:1336-1342 | The chain is freed and the slot may be taken again |
| FatVolumes.FatVolume.Remove | src/fs/fat_fs.cpp:1308-1343 | Removal keeps the chain of a referenced node and frees any other; refused exactly for the wrong kind, a read-only node or a directory that is not empty |
| FatVolumes.FatVolume.Retain | src/fs/fat_fs.cpp:1403-1414 | Succeeds exactly for nodes in use below the limit |
| FatVolumes.FatVolume.Release | src/fs/fat_fs.cpp:1415-1438 | The last release of a removed node frees its chain; an unbalanced one is refused |
| FatLabels.Same | src/fs/fat_fs.cpp:41-49 | Equal but for the case of letters |
| FatLabels.Lookup | src/fs/fat_fs.cpp:386-400 | Finds a name exactly when a file goes by it as name or alias, whatever the case |
| FatLabels.SameTaken | src/fs/fat_fs.cpp:386-400 | The order in which files are kept does not matter to a lookup |
| FatLabels.AdmitIff | src/fs/fat_fs.cpp:401-430 | A file is admitted exactly when it is acceptable, there is room, and neither its name nor its alias is taken |
| FatScanning.ScanSound | src/fs/fat_fs.cpp:431-592 | Whatever is on disk, a scan that succeeds has files whose names and aliases are valid and all different |
| FatScanning.AcceptsIff | src/fs/fat_fs.cpp:401-430 | A list of files is admitted exactly when each is acceptable, there is room for all, and no name or alias occurs twice |
| FatScanning.QuietIff | src/fs/fat_fs.cpp:431-592 | Whether the rest of a directory reads as nothing does not depend on what was seen before |
| FatScanning.FreeSlots | src/fs/fat_fs.cpp:932-964 | Finds the first run of free slots, growing the directory by zeroed clusters, exactly when there is one or can be; else the exact refusal |
| FatScanning.ScanGrown | src/fs/fat_fs.cpp:932-964 | Growing a directory changes no scan |
| FatScanning.JoinsInside | src/fs/fat_fs.cpp:932-964 | A set put before the end mark joins the files found before and behind it |
| FatScanning.JoinsAtEnd | src/fs/fat_fs.cpp:932-964 | A set put over the end mark comes last, exactly when nothing behind it comes back to life |
| FatScanning.NeverJoins | src/fs/fat_fs.cpp:932-964 | A set put behind the end mark is never found |
| FatScanning.ShownIff | src/fs/fat_fs.cpp:932-964 | For any directory that scans: the next scan yields the old files and the new one exactly when the run is visible |
| FatScanning.FullDirectory | src/fs/fat_fs.cpp:436-523 | A set that fills the slots up to the limit leaves a directory whose scan overflows |
| FatScanning.TidyVisible | src/fs/fat_fs.cpp:932-964 | Without stale entries a new set is always visible, as long as the directory ends below the limit |
| FatScanning.TidyGrown | src/fs/fat_fs.cpp:938-953 | Growing a directory brings in no stale entries |
| FatScanning.TidyFilled | src/fs/fat_fs.cpp:932-964 | Nor does filling the run |
| FatLongNames.ShortSumDetects | src/fs/fat_fs.cpp:83-89 | A short name with any one byte changed has another checksum, so its long entries are refused |
| FatLongNames.PutUnits | src/fs/fat_fs.cpp:1260-1266 | Thirteen units of the padded name, each at its place |
| FatLongNames.PutLong | src/fs/fat_fs.cpp:1255-1266 | The long entry of one part of the name |
| FatLongNames.PutAlias | src/fs/fat_fs.cpp:1204-1214 | F, seven digits and DAT |
| FatLongNames.AliasRead | src/fs/fat_fs.cpp:60-82 | `short_name` reads the made-up alias back |
| FatLongNames.PutShort | src/fs/fat_fs.cpp:1246-1251 | The short entry says alias, kind, cluster and size |
| FatLongNames.Encode | src/fs/fat_fs.cpp:1252-1271 | The entries of a file: its long ones, last part first, tied to the short one by the checksum |
| FatLongNames.ScanFat | src/fs/fat_fs.cpp:431-525 | The scan loop comes to the specified scan, with every check on entries, names, aliases and room |
| FatLongNames.ScanSlot | src/fs/fat_fs.cpp:438-523 | One turn of it |
| FatLongNames.Add | src/fs/fat_fs.cpp:401-430 | The name checks of `add` and the alias check before it |
| FatLongNames.FatLawful | src/fs/fat_fs.cpp:431-525 | A step looks at its own slot alone and an erased slot resets it |
| FatLongNames.RoundTrip | src/fs/fat_fs.cpp:431-525 | Where the entries of a file stand, the scanner finds that file, whatever it remembered, and goes on behind it |
| FatLongNames.DirectoryRoundTrip | src/fs/fat_fs.cpp:431-525 | A directory of file entries is read back in full exactly when its files are acceptable, have room and share no name or alias; else it is refused |
| FatCreation.CompareRaw | src/fs/fat_fs.cpp:1222-1242 | An alias passes exactly when no short entry that the directory shows has its bytes |
| FatCreation.FindAlias | src/fs/fat_fs.cpp:1200-1245 | The least free serial number; refused only when none of the 99999 is free |
| FatCreation.Shown | src/fs/fat_fs.cpp:1131-1307 | After the set is written the next scan has it besides the old files exactly when the run is visible |
| FatCreation.PutEntries | src/fs/fat_fs.cpp:1253-1271 | The set stands in the run, and no other slot has changed |
| FatCreation.Create | src/fs/fat_fs.cpp:1131-1307 | Answers exactly what the name, the files, the nodes, the slots, the cluster and the aliases decide; the new set goes to the first free run under an alias of its own, names stay all different, the next scan finds the file exactly when the run is visible, and a refused create leaves the scan as it was |
| FatAliases.AliasApart | src/fs/fat_fs.cpp:1204-1214 | Different serial numbers make different aliases |
| FatAliases.AliasAlways | src/fs/fat_fs.cpp:1200-1245 | The alias search never fails: there are more serial numbers than names, aliases and entries that could be in the way |
| FatStale.BehindEndMark | src/fs/fat_fs.cpp:932-964 | A directory of one cluster with a stale entry behind the end mark: the set goes behind the mark and the next scan finds nothing |
| FatStale.BackToLife | src/fs/fat_fs.cpp:932-964 | One where the set takes the end mark away and the next scan fails on the stale entry |
| FatStale.LastSlots | src/fs/fat_fs.cpp:436-523 | One of 65536 slots where the set takes the last two and the next scan overflows |
| FatStale.CreateAndLose | src/fs/fat_fs.cpp:1131-1307 | A call that succeeds and whose file is not found again |
| FatStale.CreateAndBreak | src/fs/fat_fs.cpp:1131-1307 | A call that succeeds and after which the directory cannot be read |
| FatStale.CreateAndFill | src/fs/fat_fs.cpp:1131-1307 | A call that succeeds and after which the scan overflows |
| FatErasure.VisitsSame | src/fs/fat_fs.cpp:431-592 | The way of a scan to a slot depends on the slots before it alone |
| FatErasure.ScanLess | src/fs/fat_fs.cpp:401-430 | A file less in the way stops no scan |
| FatErasure.ErasedShown | src/fs/fat_fs.cpp:1326-1335 | Without the entries of one file a scan yields all the others, in order |
| FatErasure.TidyErased | src/fs/fat_fs.cpp:1326-1335 | Erasing brings in no stale entries |
| FatRemoval.Standing | src/fs/fat_fs.cpp:431-525 | Every file that a scan yields stands in the slots it is kept with, whatever else the directory holds |
| FatRemoval.Erase | src/fs/fat_fs.cpp:1326-1335 | Exactly the slots of the file are erased |
| FatRemoval.Gone | src/fs/fat_fs.cpp:1308-1343 | The next scan yields every other file, in order |
| FatRemoval.Remove | src/fs/fat_fs.cpp:1308-1343 | Finds the file of the name, refuses exactly for the stated causes, and otherwise leaves all other files and nothing stale |
| FatRemoval.PutDot | src/fs/fat_fs.cpp:1175-1190 | The entries of a directory for itself and its parent |
| FatRemoval.PutDirectory | src/fs/fat_fs.cpp:1164-1197 | A new directory reads as empty and has no stale entries |
| FatDirectories.FatDirectory.constructor | src/fs/fat_fs.cpp:1164-1197 | A new directory |
| FatDirectories.FatDirectory.Create | src/fs/fat_fs.cpp:1131-1307 | Below the slot limit a new file is always found besides all the others |
| FatDirectories.FatDirectory.Remove | src/fs/fat_fs.cpp:1308-1343 | The file goes, nothing else does, and its name is free again |
| FatDirectories.FatDirectory.Run | src/fs/fat_fs.cpp:1131-1343 | After any run of creations and removals in a directory made here, a scan yields exactly what they made and did not remove |
| ExfatNames.SumDetects | src/fs/fat_fs.cpp:90-97 | An entry set with any one byte changed has another checksum (section 6.3.3 of the Microsoft exFAT specification) |
| ExfatNames.CorruptRefused | src/fs/fat_fs.cpp:547-584 | A set that is accepted is refused as corrupt once any one byte of it is another, the count of entries apart |
| ExfatNames.HashDetects | src/fs/fat_fs.cpp:98-107 | Names that differ in one letter, and not just in its case, have different hashes (section 7.6.4 of the same) |
| ExfatNames.SumIgnoresItself | src/fs/fat_fs.cpp:90-97 | The checksum does not depend on the bytes that hold it |
| ExfatNames.EncodeSet | src/fs/fat_fs.cpp:1275-1293 | The entry set of a file: header, stream, name parts, hash and checksum |
| ExfatNames.SetRoundTrip | src/fs/fat_fs.cpp:547-584 | The checks accept such a set and give the file back |
| ExfatNames.ScanExfat | src/fs/fat_fs.cpp:526-592 | The scan loop comes to the specified scan, with every check |
| ExfatNames.Add | src/fs/fat_fs.cpp:401-430 | The name checks of `add` |
| ExfatNames.ExfatLawful | src/fs/fat_fs.cpp:526-592 | A step looks at the slots of its own set alone, none of which is free |
| ExfatNames.RoundTrip | src/fs/fat_fs.cpp:526-592 | Where the set of a file stands, the scanner finds that file and goes on behind it |
| ExfatNames.DirectoryRoundTrip | src/fs/fat_fs.cpp:526-592 | A directory of entry sets is read back in full exactly when its files are acceptable, have room and share no name; else it is refused |
| ExfatCreation.PutSet | src/fs/fat_fs.cpp:1294-1301 | The set stands in the run, written last entry first, and no other slot has changed |
| ExfatCreation.Shown | src/fs/fat_fs.cpp:1131-1307 | After the set is written the next scan has it besides the old files exactly when the run is visible |
| ExfatCreation.Create | src/fs/fat_fs.cpp:1131-1307 | As for FAT32, without an alias: the exact answer, and found again exactly when the run is visible |
| ExfatRemoval.StepSpan | src/fs/fat_fs.cpp:547-584 | A set that is accepted has no entry whose type, once erased, looks like the end mark |
| ExfatRemoval.Erase | src/fs/fat_fs.cpp:1326-1335 | Exactly the slots of the file are erased, and none becomes an end mark |
| ExfatRemoval.Gone | src/fs/fat_fs.cpp:1308-1343 | The next scan yields every other file, in order |
| ExfatRemoval.Remove | src/fs/fat_fs.cpp:1308-1343 | As for FAT32 |
| ExfatRemoval.DirectoryEmpty | src/fs/fat_fs.cpp:1164-1171 | A new directory reads as empty and has no stale entries |
| RegionSweep.PagesBetween | src/memory/memory.cpp:26-35 | The run of whole pages between two addresses holds exactly the aligned pages inside, and none is missed |
| RegionSweep.LookAround | src/memory/memory.cpp:40-62 | One pass over the regions finds what covers the cursor and the next edge behind it |
| RegionSweep.Alike | src/memory/memory.cpp:40-62 | Between neighbouring edges all bytes are alike |
| RegionSweep.SweepUsable | src/memory/memory.cpp:12-84 | For any regions, overlapping and in any order: the runs ascend with gaps between them and hold exactly the pages all of whose bytes are usable and none reserved; exact errors otherwise |
| FrameMetadata.MetadataApart | src/memory/memory.cpp:413-420 | No managed frame has a byte of the piece cut out for the allocator's tables |
| FrameMetadata.StartKept | src/memory/memory.cpp:409-420 | The cut makes no new run |
| FrameMetadata.Suffices | src/memory/memory.cpp:403-419 | The tables of what is left fit where those of the whole were to go |
| FrameMetadata.Initialize | src/memory/memory.cpp:388-424 | The topmost range larger than the tables gives up its end; what is managed has no byte of it, and it is large enough; refused for lack of memory exactly when there is no page, no such range, or no page left |
| FrameTables.BuildRanges | src/memory/memory.cpp:168-174 | The ranges number the frames of all runs consecutively |
| FrameTables.AddressFor | src/memory/memory.cpp:196-212 | The one address of a frame, and 0 beyond them |
| FrameTables.IndexOf | src/memory/memory.cpp:214-234 | The frame at an address; unaligned and unmanaged addresses are told apart |
| FrameTables.Inverse | src/memory/memory.cpp:196-234 | The two tables are inverse to each other |
| FrameBits.LowestClearBit | src/memory/memory.cpp:88-102 | The halving search finds the lowest clear bit |
| FrameBits.CountMark | src/memory/memory.cpp:182-194 | Marking a frame changes the number in use by exactly one |
| FrameBits.Visited | src/memory/memory.cpp:278-280 | The wrapping word scan visits every word from any hint |
| Frames.SearchRange | src/memory/memory.cpp:317-324 | The first aligned run of free frames of a range, or none |
| Frames.FrameAllocator.constructor | src/memory/memory.cpp:141-180 | All frames free, and every generation handed out before counts as released |
| Frames.FrameAllocator.Take | src/memory/memory.cpp:260-267 | Marks one free frame and stamps it with the next generation |
| Frames.FrameAllocator.Allocate | src/memory/memory.cpp:269-290 | Some free frame whenever there is one, wherever the hint points; exact errors otherwise |
| Frames.FrameAllocator.HandleAt | src/memory/memory.cpp:252-258 | The live handle of a frame in use |
| Frames.FrameAllocator.Exact | src/memory/memory.cpp:236-240 | Accepts exactly live handles |
| Frames.FrameAllocator.Stale | src/memory/memory.cpp:178-178 | A handle that was released, in this table or an earlier one, is never live again |
| Frames.FrameAllocator.Release | src/memory/memory.cpp:356-366 | Accepts exactly live handles, each once, and frees exactly that frame |
| Frames.FrameAllocator.AllocateContiguous | src/memory/memory.cpp:304-333 | With a generation to give it succeeds exactly when an aligned run exists and stamps exactly that run; exact errors otherwise; with the counter wrapped to zero it takes the run and reports it missing |
| Frames.FrameAllocator.TakeRun | src/memory/memory.cpp:327-328 | Takes exactly the frames of the run |
| Frames.FrameAllocator.ReleaseContiguous | src/memory/memory.cpp:335-354 | Accepts exactly a live handle followed by used, adjacent frames, and makes all of them free and stale |
| Frames.FrameAllocator.CheckRun | src/memory/memory.cpp:339-341 | The ownership check accepts exactly whole runs |
| Frames.WrappedCounter | src/memory/memory.cpp:304-333 | The request that takes a frame and reports NotFound |
| PageCache.Position | src/fs/page_cache.cpp:23-36 | The halving search finds the first entry at or past an index |
| PageCache.ShiftUp | src/fs/page_cache.cpp:97-101 | The shift loop inserts in place |
| PageCache.ShiftDown | src/fs/page_cache.cpp:170-178 | The shift loop removes in place |
| PageCache.FilePageCache.constructor | src/fs/page_cache.cpp:12-21 | An empty cache |
| PageCache.FilePageCache.Lookup | src/fs/page_cache.cpp:47-55 | Answers what the map says |
| PageCache.FilePageCache.Grow | src/fs/page_cache.cpp:57-77 | Twice the room, same entries |
| PageCache.FilePageCache.Obtain | src/fs/page_cache.cpp:79-104 | A cached page keeps its frame; a new one gets a frame of its own; a failure changes nothing |
| PageCache.FilePageCache.MarkUptodate | src/fs/page_cache.cpp:106-113 | Marks that page alone |
| PageCache.FilePageCache.MarkDirty | src/fs/page_cache.cpp:115-124 | Only an uptodate page can become dirty |
| PageCache.FilePageCache.MarkClean | src/fs/page_cache.cpp:126-133 | Marks that page alone |
| PageCache.FilePageCache.NextDirty | src/fs/page_cache.cpp:135-146 | The least dirty page at or after an index |
| PageCache.FilePageCache.Pin | src/fs/page_cache.cpp:148-157 | One more pin, up to the limit |
| PageCache.FilePageCache.Unpin | src/fs/page_cache.cpp:159-168 | One pin less; unbalanced calls are refused |
| PageCache.FilePageCache.RemoveAt | src/fs/page_cache.cpp:170-178 | The entry goes, and its frame with it |
| PageCache.FilePageCache.EvictClean | src/fs/page_cache.cpp:180-195 | Exactly the unpinned clean pages go, and their number is returned |
| PageCache.FilePageCache.Truncate | src/fs/page_cache.cpp:197-209 | Nothing if a page past the cut is pinned, else exactly the pages past it go |
| PageCache.FilePageCache.Clear | src/fs/page_cache.cpp:211-232 | Nothing if a page is pinned or dirty, else everything goes |
| PageCache.FilePageCache.FramesConserved | src/fs/page_cache.cpp:79-232 | The frames in use are the pages' own and everybody else's, which are as they were: none is leaked, lost or shared |
| SimpleFsEntries.PutEntry | src/fs/simplefs.cpp:548-583 | What is written reads back, but for the name, and no other entry of the block changes |
| SimpleFsEntries.NameReadBack | src/fs/simplefs.cpp:523-529 | A name reads back up to its first zero byte |
| SimpleFsEntries.NameRoundTrip | src/fs/simplefs.cpp:523-583 | A name survives the disk exactly when it has no zero byte |
| SimpleFsEntries.ZeroByteCutsName | src/fs/simplefs.cpp:523-529 | A name that reads back as another |
| SimpleFsVolume.TableWritten | src/fs/simplefs.cpp:548-583 | Rewriting one entry changes that entry alone |
| SimpleFsVolume.FoundAgain | src/fs/simplefs.cpp:585-605 | An entry that was written is found under its name exactly when that has no zero byte |
| SimpleFsVolume.Collides | src/fs/simplefs.cpp:632-650 | The inner loop finds a collision exactly when there is one |
| SimpleFsVolume.AlwaysRoom | src/fs/simplefs.cpp:624-657 | On a volume of the largest size there is always room, so the 32-bit sums never wrap |
| SimpleFsVolume.AllocateExtent | src/fs/simplefs.cpp:624-657 | The lowest extent inside the volume that meets no other file's; refused only when none does |
| SimpleFs.Normalize | src/fs/simplefs.cpp:659-686 | A normalized name is short, flat and, for a path without a zero byte, storable |
| SimpleFs.SimpleDiskFileSystem.constructor | src/fs/simplefs.cpp:64-116 | A formatted volume has no files |
| SimpleFs.SimpleDiskFileSystem.WriteEntry | src/fs/simplefs.cpp:548-583 | Changes the table at one entry alone, to the entry with its name cut at a zero byte, even if the transfer fails |
| SimpleFs.SimpleDiskFileSystem.FindEntry | src/fs/simplefs.cpp:585-605 | Finds exactly the names that exist |
| SimpleFs.SimpleDiskFileSystem.FindFreeEntry | src/fs/simplefs.cpp:607-622 | Finds an unused entry if there is one |
| SimpleFs.SimpleDiskFileSystem.Create | src/fs/simplefs.cpp:182-226 | For every path: an empty file under the name up to its first zero byte, no other file changing, whatever fails; the table stays sound if and only if that is not empty and not a name already; refusals are exact |
| SimpleFs.SimpleDiskFileSystem.Unlink | src/fs/simplefs.cpp:228-250 | That file goes; no other changes, whatever fails; refusals are exact |
| SimpleFs.SimpleDiskFileSystem.WriteFile | src/fs/simplefs.cpp:297-361 | The file gets exactly these bytes; no other file changes, whatever fails; refusals are exact |
| SimpleFs.SimpleDiskFileSystem.WriteBlocks | src/fs/simplefs.cpp:333-349 | Writes the data into its extent and nothing outside |
| SimpleFs.SimpleDiskFileSystem.ReadFile | src/fs/simplefs.cpp:412-458 | Returns exactly the bytes last written, or the exact error |
| SimpleFs.SimpleDiskFileSystem.FlushInfo | src/fs/simplefs.cpp:688-709 | Touches neither the table nor the data |
| SimpleFs.NeverStored | src/fs/simplefs.cpp:498-546 | No file has a zero byte in its name |
| SimpleFs.AddedUnsound | src/fs/simplefs.cpp:548-583 | An entry without a name, or with that of another, makes the table unsound |
| SimpleFs.DoubleName | src/fs/simplefs.cpp:659-686 | A name that `create` takes for new and stores as another |
| ModuleOrder.CheckDependencies | src/core/module.cpp:848-863 | Refused exactly when a required module is missing |
| ModuleOrder.VisitOrder | src/core/module.cpp:962-983 | The exchange sort gives a permutation of the modules by priority |
| ModuleOrder.NoCycle | src/core/module.cpp:906-944 | An order and a cycle exclude each other |
| ModuleOrder.Closed | src/core/module.cpp:908-919 | Coming back to a module being visited is a cycle |
| ModuleOrder.InTurnTimely | src/core/module.cpp:984-990 | Visiting by priority puts no module before another unless something of at most that one's priority needs it |
| ModuleOrder.DependentsFirst | src/core/module.cpp:1228-1239 | Read backwards, an order has every module before what it requires |
| ModuleOrder.ModuleManager.Visit | src/core/module.cpp:906-944 | The module comes after all it requires, placing only what it needs; or there is a cycle |
| ModuleOrder.ModuleManager.SortModules | src/core/module.cpp:946-992 | Succeeds exactly when nothing required is missing and there is no cycle; then every module comes once, after all it requires, and early only for the sake of a module of no larger priority |
| ModuleOrder.ModuleManager.StartAll | src/core/module.cpp:1121-1139 | Starts the order from the front, as far as modules start; without an order what was started stays recorded |
| ModuleOrder.ModuleManager.StopAll | src/core/module.cpp:1228-1239 | Stops what was started, dependents first, as far as modules stop |
| CounterClock.Converted | src/arch/clock_counter.hpp:33-42 | Whole seconds and the carried fraction together come to the exact quotient, with nothing lost between samples |
| CounterClock.WholeFits | src/arch/clock_counter.hpp:36-37 | The division in the overflow test decides exactly whether the product fits |
| CounterClock.Convert | src/arch/clock_counter.hpp:33-42 | No intermediate value leaves 64 bits, and overflow is found exactly when the result does not fit |
| CounterClock.DeltaIsTicks | src/arch/clock_counter.hpp:31-32 | The masked difference is the number of ticks, across one wrap |
| CounterClock.Clock.constructor | src/arch/clock_counter.hpp:57-60 | An uninitialized clock |
| CounterClock.Clock.Initialize | src/arch/clock_counter.hpp:14-25 | Accepts exactly the frequencies and widths that can be converted without overflow; later calls change nothing |
| CounterClock.Clock.Sample | src/arch/clock_counter.hpp:27-45 | The exact time since initialization for any sequence of samples; overflow exactly when it does not fit, with nothing changed |
| ConsoleRing.WrapKeepsSlot | src/interrupt/console_ring.hpp:60-78 | Wrapping counters do not move a slot when the capacity divides their range |
| ConsoleRing.SlotsDiffer | src/interrupt/console_ring.hpp:70-78 | Bytes in the ring never share a slot |
| ConsoleRing.Ring.constructor | src/interrupt/console_ring.hpp:82-86 | An empty ring before the console is driven |
| ConsoleRing.Ring.Refill | src/interrupt/console_ring.hpp:67-80 | Moves bytes over, in order, until the UART is empty or the ring full |
| ConsoleRing.Ring.Fill | src/interrupt/console_ring.hpp:31-41 | Everything fetched has an event; what is left behind is a backlog with the line turned off |
| ConsoleRing.Ring.Take | src/interrupt/console_ring.hpp:43-64 | The oldest byte, or none when there is none to reach; an event stays posted while anything is left |
| ConsoleRing.Ring.Drive | src/interrupt/platform_irq.cpp:480-483 | The console becomes driven with no byte left without a signal |
| ConsoleRing.Ring.TakeEvent | src/interrupt/platform_irq.cpp:496-510 | A driven source is served after a post only; the post is used up |
| ConsoleRing.Ring.NoLostWakeup | src/interrupt/console_ring.hpp:31-64 | A driven console with a byte left always has an event or an interrupt |
| ConsoleRing.Ring.Pass | src/core/kernel_main.cpp:101-133 | A pass delivers the next byte that arrived if there is one |
| ConsoleRing.Ring.Interleave | src/interrupt/console_ring.hpp:31-80 | Any history of arrivals, interrupts, passes and driving keeps this so |
| ConsoleRing.Ring.Drain | src/core/kernel_main.cpp:101-133 | After any history, passes deliver all bytes that arrived, in order, none lost and none twice |

## Findings

Where the code does not do what was to be expected of it, the model follows the
code, a member gives an input, and another the exact condition.

- Wrapped generation counter (src/memory/memory.cpp:304-333). Once every 64-bit
  generation has been handed out the counter is 0, which marks a free frame.
  `allocate` then refuses, `allocate_contiguous` does not: it takes the frames,
  stamps the first with 0 and reports NotFound, and they stay taken.
  `Frames.WrappedCounter` is such a call; `AllocateContiguous` states that a
  request that finds a run succeeds if and only if the counter is not 0.
- Zero bytes in SimpleFS names (src/fs/simplefs.cpp:659-686). `normalize_name`
  accepts them and `write_entry` stores them, but `read_entry` stops at the first.
  `SimpleFsEntries.ZeroByteCutsName` and `SimpleFs.DoubleName` give the name,
  `NameRoundTrip` and `SimpleFsVolume.FoundAgain` the condition: a file is found again
  under its name if and only if that has no zero byte. `Create` states what becomes of
  the volume: it stays sound if and only if what is stored of the name is not empty
  and not the name of another file.
- Stale entries behind the end mark of a FAT directory (src/fs/fat_fs.cpp:932-964).
  `free_slots` looks past the end mark and the scanners stop at it. A new set can
  end up behind the mark, where no later mount finds it (`FatStale.BehindEndMark`,
  `CreateAndLose`), or take the mark away and bring stale entries back
  (`BackToLife`, `CreateAndBreak`). `FatScanning.ShownIff` states when the set is
  found: if and only if its run does not begin behind the mark and, where it covers
  the mark, the rest reads as nothing. With nothing but free slots behind the mark it
  is (`TidyVisible`); a new directory has no others (`FatRemoval.PutDirectory`), and
  growth, creation and removal bring in none (`TidyGrown`, `TidyFilled`, `TidyErased`).
- The directory limit (src/fs/fat_fs.cpp:436). A set may fill a directory up to
  slot 65535, after which the scan reports overflow (`FatScanning.FullDirectory`).
  `FatStale.LastSlots` and `CreateAndFill` show it in a directory of volume labels,
  which takes clusters of 2 KiB or more; `TidyVisible` has the condition.
- The alias limit of 99999 (src/fs/fat_fs.cpp:1244) is never met
  (`FatAliases.AliasAlways`).
- A device of 2^32 - 1 blocks lets the sums in `allocate_extent` of SimpleFS wrap
  (src/fs/simplefs.cpp:630). `SimpleFsVolume.AlwaysRoom` shows that this never
  matters: 32 entries cannot fill such a volume.

## Left out

- ext4: extent trees deeper than the inode, symbolic links, access control and modes, timestamps and the clock they need, statistics, the used-directories counter and the journal; inodes, bitmaps and descriptors are held decoded.
- ext4 mount and recovery admission: constructors take a volume that the mount accepts.
- ext4 `preflight_insert` and the block planning of `create_active`: what `writable` says of a record, whether a node slot is had and whether there is room for an entry are parameters of the namespace operations (`Answers`); Ext4Volumes.Ext4Volume.CheckWritable, Ext4Identities.Identities.Node and Ext4Directory.Directory.Insert are about those.
- Ext4Namespace.Namespace.Create: device errors are not modelled here or in the other namespace and directory operations, because a transfer that fails ends all writing (Ext4Volumes, Ext4Marker); what is on disk half-way through a failed rename is not described.
- Ext4Identities.Identities.Destroy: the storage work between its two locked sections is one nondeterministic answer; what that work does is Ext4Volumes.Ext4Volume.DestroyStorage.
- Ext4Marker.MarkedVolume.SyncActive: starts after the drain of detached nodes; whether some remain is a parameter.
- Ext4Directory.Directory.Find: blocks are tiled, as every operation leaves them; Ext4Directory.Search is about any others.
- Ext4Volumes.Ext4Volume.WriteActive: a failed write of metadata leaves every record as it was; this is so where a failed sector write leaves the sector old or new, as in BlockDevices, each record lying in one sector and its neighbours being rewritten as they were.
- Ext4Namespace.Namespace.constructor: takes a sound tree as given, without the checks of a mount.
- FAT: file data, zeroing and the valid length as file operations see it, the copies of the table and their sectors, the dirty flag, mount checks of the boot sectors; the exFAT bitmap is held as booleans.
- FatCreation.Create: node slots, clusters and the storage checks of `add` are answers (`Answers`, `Supply`); FatVolumes.FatVolume.Create and FatVolumes.FatVolume.Add are about those.
- FatVolumes.FatVolume.Create: device errors are not modelled; one that stops a create after it took a cluster for a directory leaves that cluster in an unused node slot. Lack of an alias cannot (FatAliases.AliasAlways).
- FatVolumes.FatVolume.constructor: takes the claimed system tables and the root as given, without the checks of the boot sectors.
- FatVolumes.FatVolume.FindSlot: scans all slots instead of stopping at the highest one used so far, beyond which slots are empty.
- Frame allocator: charge accounts are answers; a bitmap word is 64 booleans. Region alignment of the direct map offset is taken as given in FrameMetadata.Initialize, which takes the ranges after the shift.
- Page cache: page contents, and the frame and object allocators, which are answers.
- SimpleFS: mount, labels, listing, `chmod` and `chown`; mode, owner and link count are sixteen bytes stored as they are, without the defaults for zero.
- SimpleFs.SimpleDiskFileSystem.constructor: a format that succeeds; refusals of the device and failed writes, which leave nothing mounted, are not modelled.
- PageCache.FilePageCache.constructor: the refusals of `bind` are not modelled.
- Modules: what init, start and stop do, services, processes and the shutdown flag; a module starts or stops, or fails to.
- Console: the UART is a queue; an edge line is taken to fire when the queue becomes nonempty, and either line when its interrupt is enabled with bytes waiting.
- Scheduler, processes, system calls, drivers, network, graphics, shell and the architecture code.
