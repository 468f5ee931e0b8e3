# Collective: a Dafny model of its stateful core

Collective is a federated storage system. A coordinator keeps a namespace of directories and files,
streams files in as chunks and places the chunks on storage nodes. Federation peers gossip, share
data stores under permissions, invite new members and cache media chunks. This project models the
parts of it that change state and proves what they keep.

Each component has two layers. A value layer (`NamespaceSpec`, `LruSpec`, `PermissionSpec`,
`InviteSpec`, `Failures`, `PlacementSpec`, `GossipSpec`) says what one operation does to the state as
a value. Lemmas over it speak of whole runs. A heap layer (`Coordinator`, `PlacementEngine`,
`FailureHandler`, `PlacementController`, `MediaCache`, `PermissionManager`, `InviteManager`,
`StreamCoordinator`, `GossipService`) holds the classes with the original's fields, loops and
recursion. Every method there ties the new state to the old one through the value layer, and says which
objects are new, so that calls compose: `PerformAll` performs a whole run on a new object, which ends in
the state that the run ends in, and `WriteThenReadStream` an upload and a download.

* **Namespace** (`Paths`, `NamespaceSpec`, `NamespaceProofs`, `NamespaceRuns`, `NamespaceHistory`,
  `NamespaceWitnesses`, `NamespaceAnswers`, `Subtrees`, `Renaming`, `MoveLosses`, `MoveFileLosses`,
  `Coordinator`). A path is the sequence of its names. A recursive delete or move acts on what the
  `Children` lists reach (`Reached`); `RenameFrom` is the renaming loop itself as a function, for the moves
  whose result depends on its order. `ChildrenAreDirect`, that each list names direct children, holds in every state. `DirInv`
  adds that every directory's parent exists and, below a non-root parent, lists it, so that the lists
  reach whole subtrees; `Exact` adds that files are listed too, that what is listed exists, once, and
  that no path is both a file and a directory. Two steps break the second and four the third;
  `KeepsDirInvIff` and `KeepsExactIff` name them, and `NamespaceWitnesses` has a run from the empty
  namespace for each.
* **Placement** (`Sorting`, `PlacementSpec`, `Selection`, `HybridSelection`, `Preferences`, `Failures`,
  `FailureHistory`, `Placement`). Map iteration order and the order of ties in a sort are free.
* **Media cache** (`LruSpec`, `LruHistory`, `MediaCache`). The chain of list nodes, the map and a
  sequence of slots are in bijection, and the slots follow a sequence-based least-recently-used cache.
* **Permissions** (`Strings`, `Address`, `CacheKeys`, `PermissionSpec`, `PermissionReach`,
  `PermissionHistory`, `PermissionLedger`, `Permissions`). A check reads the clock three times, so each
  check carries three readings.
* **Invites** (`InviteCodes`, `InviteSpec`, `InviteAnswers`, `Invites`). A ledger that forgets nothing
  and knows no cleanup is the reference the invite table must agree with.
* **Streaming** (`Types`, `ChunkIDs`, `Chunking`, `ChunkStores`, `Streaming`). Chunk stores are goroutines:
  every interleaving of their attempts is a schedule.
* **Gossip** (`GossipSpec`, `GossipSystem`, `GossipPeers`, `GossipVectors`, `GossipClocks`, `Gossip`).
  Messages on the wire may arrive in any order, more than once or never.

What an operation does is also said apart from its definition. For the namespace `NamespaceAnswers` names,
over the maps alone, when each step succeeds and what it changes. Elsewhere the state after a whole run is
told from its steps: who owns and holds what (`PermissionLedger`), whom a node knows and what its vector and
clock say (`GossipPeers`, `GossipVectors`, `GossipClocks`), which bytes a cached chunk holds (`LruHistory`),
which nodes may be chosen (`FailureHistory`) and what is answered about an invite (`InviteAnswers`).
`Preferences` and `PermissionReach` say, without the score and the string tests, which node hybrid placement
prefers and whom an entry reaches.

## What the code does that a reader may not expect

* `CreateDirectory` never lists a top-level directory under the root, so a listing of `/` shows a
  directory only if a file was once created at its path (`RootListingShowsCreated`).
* `MoveEntry` takes a directory off its parent's list before it refuses a missing destination parent;
  the directory can then be orphaned (`RefusedMoveHappens`, `OrphanHappens`).
* A directory move overwrites the directories that it re-keys others onto. As long as the directory index
  holds there are none (`MoveRenamesDirs`). Once a directory is orphaned there can be: a move onto its parent's
  old path may bring another of its name (`MoveOntoOrphanLosesDirectory`). Such a move keeps every directory
  exactly when none is at a path to which one is re-keyed (`MoveKeepsDirsIff`), and otherwise renames all that
  is reached as if at once (`LoopIsTree`).
* Moved onto the path of its own deleted parent, an orphaned directory can also lose subdirectories of its own,
  because the loop re-keys one onto the path of another that it has yet to visit (`MoveUpLosesDirectory`).
  While the loop comes to no path after a directory has been re-keyed onto it, the number lost is that of the
  directories overwritten (`MoveLosesDirs`); where no directory is re-keyed a second time this order is also
  necessary to lose none (`MoveOnceKeepsDirsIff`). All of this is a condition on the lists before the move.
* A moved file stays on its old parent's list (`MovedFileIsListedTwice`) and joins no other. When its new
  directory moves, it stays behind (`FileFollowsIff`), and a file that is later moved onto its path
  overwrites it (`MoveLosesOverwritten`, `MoveLosesFiles`; `StrandingHappens` and `OverwritingHappens` are
  runs). A moved
  file without a chunk list takes over one left at its new path (`FilesAfterMove`).
* `DeleteFile` on a path that is also a directory takes the directory off the index when the path is
  listed only once (`DeleteKeepsIff`), as when the file was moved to the path before the directory was
  made there (`DeleteOfDirectoryHappens`). Creating one over the other lists the path twice, and then a
  delete leaves one listing.
* Hybrid placement of six or more replicas on the nodes of a single member yields two
  (`HybridStarvesSingleMember`).
* `TrackAccess` sets the time of last access before it measures the time since, so the decay factor is
  that of the moment between two successive clock readings, just below one or equal to it. While that
  moment stays under some forty minutes the factor is at least 0.97, and a chunk is hot from its eighth
  access on (`HotIff`, `ReplicasByAccesses`, `CloseAt97`).
* Rewriting a cached chunk with data of another length leaves `currentSize` wrong (`PutAccountedIff`).
* Two different permission queries can share a cache key (`KeyIsUniqueIff` gives the exact condition), and
  then one is answered with the other's permission (`SharedKeyIsHonoured`).
* `TransferOwnership` keeps the time limit of an earlier grant to the new owner (`TransferGrantsIff`).
* An upload stream that ends without any message completes, for the empty path (`Verdict` in `Chunking`).
* Chunk identifiers repeat when a file is uploaded again, and files whose paths differ only in slashes
  and underscores share theirs (`SameIDIff`, `PathsCollide`). An upload succeeds whether or not its chunks
  are stored, so a download can then send the bytes of an earlier upload (`StaleDownloadHappens`). It never
  does exactly when, of the chunks a download can come to, every node asked for one was reached by the
  upload or held nothing else under the identifier before (`SafeIff`).
* A heartbeat can set a node's version-vector entry back to zero, and an old message can set a stored peer
  version back (`VectorGrowsIff`, `PeerVersionGrowsIff`).

## Model

| member | source | states |
|---|---|---|
| `CoordinatorService.Coordinator.CreateDirectory` | pkg/coordinator/operations.go:39-79 | the new namespace and the answer: refused when the path is a directory or a non-root parent is missing; otherwise a fresh empty directory, appended to a non-root parent's list |
| `CoordinatorService.Coordinator.CreateFile` | pkg/coordinator/coordinator_file.go:29-78 | the new namespace and the answer; the file joins its parent's list, the root's included |
| `CoordinatorService.Coordinator.DeleteFile` | pkg/coordinator/coordinator_file.go:377-407 | the file and its chunk list go, with the first mention in its parent's list |
| `CoordinatorService.Coordinator.ListDirectory` | pkg/coordinator/operations.go:98-140 | exactly the listed paths that are directories, in order, and each file whose parent it is, once |
| `CoordinatorService.Coordinator.DeleteDirectory` | pkg/coordinator/operations.go:148-226 | the whole new namespace for both settings of the recursive flag, and each refusal, in every state a run can reach |
| `CoordinatorService.Coordinator.RemoveDirectoryRecursive` | pkg/coordinator/operations.go:454-483 | terminates on the shrinking set of directories below the path; removes exactly the directories that the lists reach from it and the files whose parent it removed |
| `CoordinatorService.Coordinator.RemoveChildren` | pkg/coordinator/operations.go:460-467 | each recursive call leaves the list it came from alone, so the loop over it visits every child subtree |
| `CoordinatorService.Coordinator.RemoveChild` | pkg/coordinator/operations.go:461-467 | one iteration: the directories reached through one more child go |
| `CoordinatorService.Coordinator.RemoveFilesIn` | pkg/coordinator/operations.go:469-478 | the files whose parent is the directory go, with their chunk lists, in any visiting order |
| `CoordinatorService.Coordinator.MoveEntry` | pkg/coordinator/operations.go:294-387 | the new namespace and the answer for directories, files and missing sources, in every state a run can reach |
| `CoordinatorService.Coordinator.MoveDirectory` | pkg/coordinator/operations.go:306-376 | every refusal with its state, the one after unlinking included; a move renames what the lists reach, or, onto the path of a missing ancestor, does what the loop does in its order |
| `CoordinatorService.Coordinator.MoveFile` | pkg/coordinator/operations.go:393-452 | entry and chunk list are re-keyed, lists are not touched; each refusal |
| `CoordinatorService.Coordinator.UpdateChildPaths` | pkg/coordinator/operations.go:485-513 | terminates, whichever base is above the other, on the length of the longest path below the source; one pass of the loop is `RenameFrom` |
| `CoordinatorService.Coordinator.RenameEntry` | pkg/coordinator/operations.go:486-511 | one child of the loop, directory or not, is one step of `RenameFrom` |
| `CoordinatorService.Coordinator.MoveFileEntry` | pkg/coordinator/operations.go:499-510 | the file at a renamed entry's path follows with its chunk list |
| `NamespaceSpec.RenameFrom` | pkg/coordinator/operations.go:485-513 | the loop as a function: its recursion ends, and it touches no directory but the one at the new base and those strictly below one of the bases |
| `CoordinatorService.PerformAll` | pkg/coordinator/operations.go:39-452 | a new coordinator performing any run of operations ends in the state the run ends in |
| `CoordinatorService.PerformIndexed` | pkg/coordinator/operations.go:39-452 | so it does for every run that keeps the directory index, and keeps it |
| `Renaming.RenameChild` | pkg/coordinator/operations.go:492-510 | renaming the first children, then one more subtree and its own file, is renaming one child more |
| `Renaming.RenameAbsent` | pkg/coordinator/operations.go:489-510 | the same for a listed path that names no directory, such as a file |
| `Renaming.RenameWhole` | pkg/coordinator/operations.go:360-366 | after the moved directory itself is re-keyed the recursion may start, and all children renamed one at a time is one renaming of everything reached |
| `Renaming.LoopIsRenaming` | pkg/coordinator/operations.go:485-513 | between unrelated bases, the loop from any entry on completes the partial renaming |
| `Renaming.LoopIsTree` | pkg/coordinator/operations.go:360-366 | between unrelated paths, the loop is one renaming of everything reached |
| `Renaming.ComposeRename` | pkg/coordinator/operations.go:485-498 | renaming disjoint parts one after the other, the second through an intermediate base, is one renaming |
| `Subtrees.PruneNext` | pkg/coordinator/operations.go:461-467 | removing what is reached from one more child extends the pruned part by exactly that |
| `Subtrees.PruneAll` | pkg/coordinator/operations.go:460-482 | pruning every child, the directory's own files and the directory is removing everything reached |
| `Subtrees.PrunedKeepsTree` | pkg/coordinator/operations.go:461-467 | what earlier recursive calls removed leaves everything below the next child untouched |
| `NamespaceProofs.StepKeepsDirect` | pkg/coordinator/operations.go:39-513 | every step in every state keeps each list naming direct children, all that deleting and moving rely on |
| `NamespaceProofs.LoopKeepsDirect` | pkg/coordinator/operations.go:485-498 | the loop leaves each list naming direct children of the path it is then at |
| `NamespaceProofs.ReachedIsBelow` | pkg/coordinator/operations.go:454-482 | with the directory index the lists reach exactly the directories at or below a path |
| `NamespaceProofs.MkdirKeeps` | pkg/coordinator/operations.go:42-72 | creating a directory keeps the directory index, whatever the path |
| `NamespaceProofs.CreateKeeps` | pkg/coordinator/coordinator_file.go:29-71 | creating a file keeps the directory index |
| `NamespaceProofs.RmdirKeeps` | pkg/coordinator/operations.go:148-216 | deleting a directory, recursively or not, keeps the directory index |
| `NamespaceProofs.MoveKeeps` | pkg/coordinator/operations.go:306-366 | a successful directory move keeps the directory index |
| `NamespaceProofs.MoveIsTree` | pkg/coordinator/operations.go:306-366 | with the directory index no directory moves onto the path of a missing ancestor, so a move renames what is reached |
| `NamespaceProofs.Vacant` | pkg/coordinator/operations.go:308-327 | nothing lies below a path that is not a directory, so a move overwrites no directory |
| `NamespaceProofs.MoveRenamesDirs` | pkg/coordinator/operations.go:360-366 | with the directory index, directories after a move are exactly the old ones with the prefix replaced, both ways, so that none is lost |
| `MoveLosses.LoopShifts` | pkg/coordinator/operations.go:485-498 | whatever the bases, a loop that comes to no path after a directory has been re-keyed onto it leaves directories exactly where one was re-keyed to or one stayed |
| `MoveLosses.VisitsReached` | pkg/coordinator/operations.go:485-498 | the directories on the loop's way are those that the lists reach |
| `MoveLosses.MoveRekeys` | pkg/coordinator/operations.go:360-366 | in every state, where directories are after a move whose loop keeps that order |
| `MoveLosses.MoveLosesDirs` | pkg/coordinator/operations.go:485-498 | such a move loses as many directories as stay and have others re-keyed onto them, and none exactly when there is no such directory |
| `MoveLosses.MoveKeepsDirsIff` | pkg/coordinator/operations.go:485-498 | a move to any other path than a missing ancestor's keeps the order, and keeps every directory exactly when none is at a path to which one is re-keyed |
| `MoveLosses.StaysOutInOrder` | pkg/coordinator/operations.go:485-498 | so does a move onto a missing ancestor's path if it re-keys no directory to a path below its source |
| `MoveLosses.LoopNeverGains` | pkg/coordinator/operations.go:485-498 | the loop never leaves more directories than there were |
| `MoveLosses.MoveOnceKeepsDirsIff` | pkg/coordinator/operations.go:485-498 | a move that re-keys no directory a second time keeps every directory exactly when it keeps the order and re-keys none onto one that stays |
| `NamespaceProofs.MoveRenamesListsBelow` | pkg/coordinator/operations.go:485-498 | each list below the source is renamed entry by entry |
| `NamespaceProofs.MoveRelinksElsewhere` | pkg/coordinator/operations.go:329-358 | every other list loses the source, and the target's non-root parent gains it |
| `NamespaceProofs.FilesAfterMove` | pkg/coordinator/operations.go:499-510 | with the directory index, what a directory move leaves at any path, entry and chunk list: the listed file that was re-keyed to it, else the one that was there and stayed |
| `NamespaceProofs.FileFollowsIff` | pkg/coordinator/operations.go:485-511 | a file below the source follows with entry and chunk list exactly when its parent lists it; otherwise it stays unchanged without a parent directory |
| `NamespaceProofs.MoveLosesOverwritten` | pkg/coordinator/operations.go:499-502 | in every state, a directory move to any other path than a missing ancestor's loses as many files as listed files are re-keyed onto, and none exactly when no listed file's new path has one |
| `MoveFileLosses.LoopMovesFiles` | pkg/coordinator/operations.go:499-510 | a loop that keeps the order of directories, and moves no file onto a path whose file it moves later, leaves files exactly where one was moved to or one stayed |
| `MoveFileLosses.MoveRekeysFiles` | pkg/coordinator/operations.go:499-510 | in every state, where files are after such a move |
| `MoveFileLosses.MoveLosesFiles` | pkg/coordinator/operations.go:499-510 | onto a missing ancestor's path as well, the number of files lost and exactly when there are none |
| `MoveFileLosses.StaysOutFilesInOrder` | pkg/coordinator/operations.go:499-510 | the order of files is kept by a move that re-keys none to a path below its source |
| `NamespaceProofs.MoveRenamesFiles` | pkg/coordinator/operations.go:499-510 | with exact lists every file follows with its entry and chunk list, none is lost and none appears |
| `NamespaceProofs.DeleteRemovesSubtree` | pkg/coordinator/operations.go:191-216 | a delete removes exactly the directories at or below the path and every mention of it |
| `NamespaceProofs.DeleteRemovesFiles` | pkg/coordinator/operations.go:469-478 | and exactly the files whose parent directory it removed, with their chunk lists |
| `NamespaceProofs.DoomedIsBelow` | pkg/coordinator/operations.go:469-478 | when every file is listed, those are the files below the path |
| `NamespaceAnswers.MkdirIff` | pkg/coordinator/operations.go:42-79 | said of the maps alone: when a directory is created, what changes then, and that nothing does otherwise |
| `NamespaceAnswers.CreateIff` | pkg/coordinator/coordinator_file.go:29-78 | the same for a file, which starts empty |
| `NamespaceAnswers.DeleteIff` | pkg/coordinator/coordinator_file.go:377-406 | the same for deleting a file: entry, chunk list and one mention on its parent's list go |
| `NamespaceAnswers.RmdirIff` | pkg/coordinator/operations.go:148-226 | when a directory is deleted, recursively or not, and that nothing changes otherwise |
| `NamespaceAnswers.MoveDirectoryIff` | pkg/coordinator/operations.go:306-376 | a directory moves exactly to a free path that is not below it; a refusal changes at most its parent's list, and that exactly when only the destination's parent is missing |
| `NamespaceAnswers.MoveFileIff` | pkg/coordinator/operations.go:393-452 | a file moves exactly to a path that is neither a file nor a directory and whose non-root parent is a directory; entry and chunk list are then there, nothing else changes, and no file is lost; a refusal changes nothing |
| `NamespaceAnswers.StepCountsFiles` | pkg/coordinator/operations.go:39-513 | a step other than deleting a file, deleting a directory with files and a directory move onto a file or a missing ancestor's path loses no file, and each of these but the last does |
| `NamespaceAnswers.FilesAreCounted` | pkg/coordinator/operations.go:39-513 | until the first such step of a run, there are as many files as before and were created since |
| `NamespaceRuns.KeepsDirInvIff` | pkg/coordinator/operations.go:329-358 | of all operations, exactly a refused move after unlinking and a delete of a file whose path is a once-listed directory break the directory index |
| `NamespaceRuns.KeepsExactIff` | pkg/coordinator/operations.go:306-452 | exactly four steps break the exactness of the lists: a directory over a file, a file over a directory, the refused move, a file move |
| `NamespaceRuns.DeleteKeepsIff` | pkg/coordinator/coordinator_file.go:389-401 | deleting a file keeps the directory index exactly when the path is not a directory listed once below a non-root parent |
| `NamespaceRuns.MkdirKeepsExactIff` | pkg/coordinator/operations.go:42-60 | creating a directory keeps the lists exact exactly when no file has that path |
| `NamespaceRuns.CreateKeepsExactIff` | pkg/coordinator/coordinator_file.go:29-71 | creating a file keeps the lists exact exactly when no directory has that path |
| `NamespaceRuns.MoveKeepsExactIff` | pkg/coordinator/operations.go:305-381 | a move keeps the lists exact exactly when it is not the refused one and does not move a file |
| `NamespaceRuns.KeepsShelterIff` | pkg/coordinator/operations.go:39-513 | with the directory index, exactly a directory move away from a file its parent does not list leaves a file without its parent directory |
| `NamespaceRuns.MoveKeepsShelterIff` | pkg/coordinator/operations.go:306-366 | a directory move keeps every file's parent exactly when every file below the source is listed |
| `NamespaceHistory.IndexedRunIff` | pkg/coordinator/operations.go:39-387 | every state of a run has the directory index exactly when the run avoids the two steps |
| `NamespaceHistory.IndexedFromInitIff` | pkg/coordinator/operations.go:39-387 | the same for every run from the empty namespace |
| `NamespaceHistory.ShelteredRunIff` | pkg/coordinator/operations.go:39-452 | every state of a run has the directory index and each file's parent exactly when the run avoids three steps |
| `NamespaceHistory.ShelteredFromInitIff` | pkg/coordinator/operations.go:39-452 | the same for every run from the empty namespace |
| `NamespaceHistory.ExactRunIff` | pkg/coordinator/operations.go:39-452 | every state of a run has exact lists exactly when the run avoids the four steps |
| `NamespaceHistory.ExactFromInitIff` | pkg/coordinator/operations.go:39-452 | the same for every run from the empty namespace |
| `NamespaceHistory.ListingIsComplete` | pkg/coordinator/operations.go:107-119 | listing a non-root directory shows exactly the directories whose parent it is |
| `NamespaceHistory.ListingIsDistinct` | pkg/coordinator/operations.go:107-119 | a list without duplicates is shown without duplicates |
| `NamespaceHistory.ListingIsInOrder` | pkg/coordinator/operations.go:107-119 | a list is shown in its order |
| `NamespaceHistory.RootListingShowsCreated` | pkg/coordinator/operations.go:50-62 | after any run, listing the root shows a directory only if a file was once created at its path |
| `NamespaceHistory.RootListingOmitsDirectories` | pkg/coordinator/operations.go:50-62 | with exact lists, listing the root shows no directory |
| `NamespaceHistory.RefusedMoveAllowsOrphan` | pkg/coordinator/operations.go:333-354 | after the refused move, deleting the emptied-looking parent leaves the source without a parent |
| `NamespaceHistory.MovedFileIsListedTwice` | pkg/coordinator/operations.go:424-426 | a directory created where a file was moved away is listed twice |
| `NamespaceWitnesses.RefusedMoveHappens` | pkg/coordinator/operations.go:333-354 | two directories made, one moved below a missing parent: refused, and off the index |
| `NamespaceWitnesses.OrphanHappens` | pkg/coordinator/operations.go:333-354 | its parent is then deleted as an empty directory, and it has none |
| `NamespaceWitnesses.DeleteOfDirectoryHappens` | pkg/coordinator/coordinator_file.go:389-401 | a run of four steps after which deleting a file takes a directory off the index |
| `NamespaceWitnesses.DirectoryOverFileHappens` | pkg/coordinator/operations.go:42-60 | a directory made over a file ends exactness |
| `NamespaceWitnesses.FileOverDirectoryHappens` | pkg/coordinator/coordinator_file.go:29-71 | a file created over a directory ends exactness |
| `NamespaceWitnesses.FileMoveHappens` | pkg/coordinator/operations.go:424-426 | moving a file ends exactness |
| `NamespaceWitnesses.StrandingHappens` | pkg/coordinator/operations.go:485-511 | a run that leaves a file behind without a parent directory |
| `NamespaceWitnesses.OverwritingHappens` | pkg/coordinator/operations.go:499-502 | a run on from there in which a directory move loses a file |
| `NamespaceWitnesses.MoveUpLosesDirectory` | pkg/coordinator/operations.go:485-498 | a run of eight steps whose last, a move onto a deleted parent's path, does not keep the order, loses a directory and leaves it listed |
| `NamespaceWitnesses.MoveTwiceKeepsDirs` | pkg/coordinator/operations.go:485-498 | a stale list entry makes the loop re-key a directory twice, out of order, and none is lost |
| `NamespaceWitnesses.MoveOntoOrphanLosesDirectory` | pkg/coordinator/operations.go:485-498 | a run of seven steps whose last, a move to an unrelated path, overwrites an orphaned directory |
| `Sorting.SortSlice` | pkg/federation/placement.go:174-194 | a permutation of the slice in which nothing later ranks strictly before anything earlier, for any strict weak order |
| `PlacementSpec.MediaOrder` | pkg/federation/placement.go:174-194 | the media comparison is a strict weak order |
| `PlacementSpec.UnusedFirstOrder` | pkg/federation/placement.go:240-249 | the comparison of the backup policy's second pass is a strict weak order |
| `Selection.SelectMediaNodes` | pkg/federation/placement.go:172-203 | different nodes, as many as asked for or all, none outranked by a node left out |
| `Selection.SelectDefaultNodes` | pkg/federation/placement.go:315-330 | the same under load and space |
| `Selection.SelectBackupNodes` | pkg/federation/placement.go:206-272 | different nodes, as many as asked for or all; the first picks are of different members and each its member's best; as many members as possible; later picks the roomiest left |
| `Selection.OnePerMember` | pkg/federation/placement.go:217-235 | one best node for each of as many members as asked for or exist, whatever the map order |
| `Selection.FillUp` | pkg/federation/placement.go:237-269 | fills up to the count with the roomiest nodes not yet chosen |
| `Selection.BackupIsMostDiverse` | pkg/federation/placement.go:206-272 | no other choice of as many nodes covers more member domains |
| `HybridSelection.SelectHybridNodes` | pkg/federation/placement.go:275-312 | the scan's picks over some ranking of all nodes, by score when every node has capacity |
| `HybridSelection.PickDiverse` | pkg/federation/placement.go:294-309 | the loop with its tally by member computes the picks defined without a tally |
| `HybridSelection.HybridIsChoice` | pkg/federation/placement.go:297-309 | the picks are different nodes of those offered |
| `HybridSelection.HybridLowerBound` | pkg/federation/placement.go:297-309 | at least the lesser of half the count and two nodes per member; if two per member do not fill the half, exactly those |
| `HybridSelection.HybridCompleteIff` | pkg/federation/placement.go:297-309 | all replicas are placed exactly when two per member of the better-ranked nodes fill the first half |
| `HybridSelection.HybridDiversity` | pkg/federation/placement.go:302-305 | no member has more than two nodes within the first half |
| `HybridSelection.HybridSmall` | pkg/federation/placement.go:302-305 | for up to five replicas nothing is skipped and the best-scored nodes are returned |
| `HybridSelection.HybridStarvesSingleMember` | pkg/federation/placement.go:302-305 | six or more replicas on one member's nodes yield two |
| `Preferences.BetterScores` | pkg/federation/placement.go:333-368 | a node as good as another in share of free space, latency up to a second, bandwidth, health, load and, if it counts, locality has no lower score, and a higher one if it is better in any of them |
| `Preferences.Rates` | pkg/federation/placement.go:333-368 | what each advantage is worth in free space, exactly: when a node with less space free stands first all the same |
| `Preferences.EarlierIsNoWorse` | pkg/federation/placement.go:282-291 | no node of the ranking is better than an earlier one |
| `Preferences.BetterWasPassedOver` | pkg/federation/placement.go:293-309 | a node left out is better than a chosen one only if two of its member were chosen before, among the first half |
| `Placement.Heat` | pkg/federation/placement.go:386-389 | one access keeps the score between zero and one and adds at most a tenth |
| `Placement.ReplicaCount` | pkg/federation/placement.go:393-414 | between the policy's minimum and maximum for every score |
| `Placement.HeatIsBounded` | pkg/federation/placement.go:386-389 | the score is at most a tenth per access, however it decays |
| `Placement.HeatAllGrows` | pkg/federation/placement.go:386-389 | more accesses, or accesses that decay less, never make a chunk colder |
| `Placement.HotIff` | pkg/federation/placement.go:384-414 | the maximum is granted from the eighth access on and not before, if no access decays the score by more than a factor with which eight accesses suffice at all |
| `Placement.ReplicasByAccesses` | pkg/federation/placement.go:399-413 | with such decay, the minimum up to the fourth access, the middle of the bounds from the fifth and the maximum from the eighth |
| `Placement.CloseAt97` | pkg/federation/placement.go:388-404 | eight accesses suffice with any factor from 0.97 up and with none up to 0.96 |
| `Placement.PlacementEngine.GetHealthyNodes` | pkg/federation/placement.go:456-464 | every node that is not unhealthy and has room, once |
| `Placement.PlacementEngine.SelectNodes` | pkg/federation/placement.go:132-169 | fails exactly when too few nodes are eligible; otherwise what each strategy promises |
| `Placement.PlacementEngine.SetPolicy` | pkg/federation/placement.go:435-449 | the policy set for a path is the one used for it, and no other path's changes |
| `Placement.MediaChoice` | pkg/federation/placement.go:174-194 | no node left out is local where a chosen one is not, if that counts, or as local and faster, or as fast and with more bandwidth, or with as much and less load |
| `Placement.DefaultChoice` | pkg/federation/placement.go:317-322 | no node left out has less load than a chosen one, or the same and more free space |
| `Placement.BackupChoice` | pkg/federation/placement.go:224-229 | one of the first has the best health of its member, and of those with that health the most free space |
| `Placement.HybridChoice` | pkg/federation/placement.go:282-311 | for up to five replicas no node left out is better than a chosen one |
| `Placement.PlacementEngine.TrackAccess` | pkg/federation/placement.go:371-390 | one more access and the next score, other chunks unchanged |
| `Placement.PlacementEngine.GetReplicationFactor` | pkg/federation/placement.go:393-414 | the replica count of the chunk's score under the path's policy, hence within the policy's bounds |
| `Placement.SpreadIsMaximal` | pkg/federation/placement.go:206-272 | no other set of that many eligible nodes spans more members |
| `Placement.DiverseIsPlaced` | pkg/federation/placement.go:206-272 | what the backup choice promises of the nodes offered holds of the registered ones: one best node of each member first, then the roomiest left |
| `Placement.PlacementController.PlaceChunk` | pkg/federation/placement_strategy.go:64-75 | fails exactly when fewer nodes are eligible than replicas wanted; otherwise the strategy's promise for that count, and no failed node that was not registered again |
| `Placement.PlacementController.HandleNodeFailure` | pkg/federation/placement_strategy.go:78-95 | the failure and every chunk are recorded even when the call fails, which it does exactly when there are chunks and no node is eligible |
| `Placement.PlacementController.HandleNodeRecovery` | pkg/federation/placement_strategy.go:98-103 | the node is cleared from the failed ones and from every pending list |
| `Placement.PlacementController.IdentifyCriticalChunks` | pkg/federation/placement_strategy.go:158-177 | the first tenth, but at least one if there are any |
| `Placement.PerformAll` | pkg/federation/placement_strategy.go:29-103 | a new controller performing a run of registrations, failures and recoveries, each at its own time, ends with the cluster the run ends in |
| `Placement.FailureHandler.RecordFailure` | pkg/federation/placement_strategy.go:215-222 | the node is failed and marked unhealthy, nothing else changes |
| `Placement.FailureHandler.ScheduleReplacement` | pkg/federation/placement_strategy.go:248-264 | the node joins the chunk's list unless it is there |
| `Placement.FailureHandler.ClearFailure` | pkg/federation/placement_strategy.go:224-246 | the node leaves every list, emptied lists go, and it is marked healthy |
| `Failures.StepKeeps` | pkg/federation/placement_strategy.go:215-264 | each step keeps pending lists non-empty, duplicate-free and of failed nodes only, and failed nodes unhealthy unless registered again |
| `Failures.RunKeeps` | pkg/federation/placement_strategy.go:215-264 | hence every run does |
| `Failures.RecoveredIsClear` | pkg/federation/placement_strategy.go:224-246 | a recovered node waits for no replacement, and no other entry is lost |
| `Failures.FailedNodesAreNotEligible` | pkg/federation/placement.go:456-464 | in no run is a failed node eligible unless it was registered after its last failure |
| `FailureHistory.NodesAreTold` | pkg/federation/placement_strategy.go:215-230 | after any run, who is failed and who is registered, as what and how healthy, is what the operations last told |
| `FailureHistory.EligibleIff` | pkg/federation/placement.go:456-464 | after any run a node may be chosen exactly if it is registered with enough space and its last registration, failure or recovery left it healthy or degraded |
| `FailureHistory.RecoveredIsEligible` | pkg/federation/placement_strategy.go:224-230 | a recovered node may be chosen at once if it is registered with enough space |
| `FailureHistory.ListsAreTold` | pkg/federation/placement_strategy.go:232-264 | after any run a chunk's list names once each node that failed with it and has not recovered since, the longest waiting first, and there is a list exactly if there is such a node |
| `MediaCaching.MediaCache.Get` | pkg/federation/fuse_integration.go:309-329 | the data found, the counters, and the cache with that chunk most recent and one access more |
| `MediaCaching.MediaCache.Put` | pkg/federation/fuse_integration.go:332-369 | the cache as `LruSpec.Put` gives it, with list, map and slots still in bijection; what joins list and map is new |
| `MediaCaching.MediaCache.EvictLRU` | pkg/federation/fuse_integration.go:372-392 | the victim and its size go, from list, map and count |
| `MediaCaching.LRUList.PushFront` | pkg/federation/fuse_integration.go:421-434 | the chain with a fresh node in front, `prev` and `next` still inverse, `head` and `tail` its ends |
| `MediaCaching.LRUList.MoveToFront` | pkg/federation/fuse_integration.go:436-447 | the same chain with that node in front |
| `MediaCaching.LRUList.Remove` | pkg/federation/fuse_integration.go:449-461 | the same chain without that node |
| `MediaCaching.PerformAll` | pkg/federation/fuse_integration.go:309-392 | a new cache performing a run of reads and writes ends in the state the run ends in, list, map and slots in bijection |
| `LruSpec.Victim` | pkg/federation/fuse_integration.go:377-386 | the least recent unpinned slot, or the last when all are pinned |
| `LruSpec.EvictionOrder` | pkg/federation/fuse_integration.go:350-392 | evicted slots are less recent than surviving ones of their kind, and a pinned one goes only after every unpinned one |
| `LruSpec.EvictionIsMinimal` | pkg/federation/fuse_integration.go:350-352 | one eviction fewer would not make room |
| `LruSpec.PutFits` | pkg/federation/fuse_integration.go:350-368 | after a new chunk the cache is within its limit or holds that chunk alone |
| `LruSpec.PutAccountedIff` | pkg/federation/fuse_integration.go:339-368 | `Put` keeps the size count right exactly when it does not change the length of a cached chunk |
| `LruSpec.AccountedRunIff` | pkg/federation/fuse_integration.go:309-392 | a run keeps it right throughout exactly when no rewrite changes a length |
| `LruSpec.RunIsByRecency` | pkg/federation/fuse_integration.go:309-392 | after any run the slots are different chunks in order of last use |
| `LruHistory.RunHolds` | pkg/federation/fuse_integration.go:309-369 | after any run each slot holds the bytes and priority last written, their length, and one more than the reads since it was inserted |
| `LruHistory.HitIsLastWrite` | pkg/federation/fuse_integration.go:313-347 | what a cached chunk holds is what was last written to it |
| `LruHistory.WrittenIsCached` | pkg/federation/fuse_integration.go:332-369 | a chunk just written is cached, and first |
| `MediaCaching.ReadAfter` | pkg/federation/fuse_integration.go:309-369 | a read after any run gives the bytes last put if the chunk is still cached, and nothing otherwise |
| `Address.ParseIffPrint` | pkg/federation/address.go:24-77 | a string parses to an address exactly when the address is writable and the string is its text |
| `Address.RoundTripIff` | pkg/federation/address.go:24-127 | a valid address survives printing and parsing exactly when no part has an at-sign, the local part does not open with a slash and the resource is not a bare slash |
| `Address.PrintIsInjective` | pkg/federation/address.go:68-77 | different writable addresses have different texts |
| `CacheKeys.KeyIsUniqueIff` | pkg/federation/permissions.go:136 | a query has its cache key to itself exactly when no colon of its path or identifier leaves an address behind |
| `CacheKeys.AmbiguousKeyIsShared` | pkg/federation/permissions.go:136 | otherwise a different query with the same key exists |
| `PermissionSpec.NearestGoverns` | pkg/federation/permissions.go:171-192 | the search finds the deepest store at or above the path, or the root store for a relative path without one, or none |
| `PermissionReach.MatchesIff` | pkg/federation/permissions.go:219-242 | an entry reaches itself, for everyone of a domain those of it, and for everyone below a domain those whose domain is any text, a dot and that domain |
| `PermissionReach.StoreAllowsIff` | pkg/federation/permissions.go:195-216 | a store allows exactly what some entry in force gives to an address it reaches |
| `PermissionReach.CheckIff` | pkg/federation/permissions.go:134-192 | a check that is not cached allows exactly what the deepest store at or above the path, or the root store for a relative path below none, allows so |
| `PermissionReach.DotCounts` | pkg/federation/permissions.go:232-237 | a run: with an entry for everyone below a domain, someone of a domain below it is allowed and someone of one that merely ends alike is denied |
| `PermissionSpec.RevokeLeavesWildcards` | pkg/federation/permissions.go:108-131 | after a revocation the subject has exactly the rights another subject's wildcard entry gives |
| `PermissionSpec.GrantReplaces` | pkg/federation/permissions.go:85-104 | after a grant the subject has a right exactly when the grant gives it in time or a wildcard does |
| `PermissionSpec.TransferGrantsIff` | pkg/federation/permissions.go:319-340 | a new owner has a right exactly when no lapsed limit of an earlier grant remains, or a wildcard gives it |
| `PermissionSpec.TransferKeepsOthers` | pkg/federation/permissions.go:319-340 | anybody else, the previous owner included, has a right exactly when an entry that is not the new owner's gives it or the new owner's address is a wildcard for them in time; without a wildcard nothing changes for them |
| `Permissions.PermissionManager.CreateDataStore` | pkg/federation/permissions.go:40-71 | a new store object, owned by and fully granted to its owner, unless the path has one; the cache is emptied |
| `Permissions.PermissionManager.GrantPermission` | pkg/federation/permissions.go:74-105 | rights and limit of the subject's entry replaced in place or a new entry appended; the cache is emptied |
| `Permissions.PermissionManager.RevokePermission` | pkg/federation/permissions.go:108-131 | every entry of the subject goes, the others keep their order; the cache is emptied |
| `Permissions.PermissionManager.TransferOwnership` | pkg/federation/permissions.go:303-341 | refused for a missing store or a wrong owner; otherwise the new owner's entry gets all rights |
| `Permissions.PermissionManager.SetCacheTTL` | pkg/federation/permissions.go:358-363 | the new limit, with the cache emptied |
| `Permissions.PermissionManager.FindDataStore` | pkg/federation/permissions.go:171-192 | the upward loop terminates with the store `NearestGoverns` describes |
| `Permissions.PermissionManager.CheckDataStorePermission` | pkg/federation/permissions.go:195-216 | allowed exactly when some unexpired matching entry has the right, with the first such entry's rights |
| `Permissions.PermissionManager.CheckPermission` | pkg/federation/permissions.go:134-168 | the cached answer while it lasts, otherwise the computed one, stored with its expiry |
| `Permissions.PerformAll` | pkg/federation/permissions.go:40-363 | a new manager performing a run of changes and checks, whose paths can be written, ends in the state the run ends in |
| `PermissionHistory.AnswerWasRight` | pkg/federation/permissions.go:134-168 | in every run an answer is the uncached one on the current stores at a past scan; a cached one was stored less than the limit ago |
| `PermissionHistory.DenialIsCurrent` | pkg/federation/permissions.go:134-168 | a denial, cached or not, is the current answer |
| `PermissionHistory.AllowanceOverstays` | pkg/federation/permissions.go:198-202 | a permission honoured after it lapsed comes from the cache, for less than the limit plus the duration of the storing check |
| `PermissionHistory.NoLimitsNoStaleness` | pkg/federation/permissions.go:134-168 | without time limits in the governing store, cached and fresh answers agree |
| `PermissionHistory.OverstayHappens` | pkg/federation/permissions.go:138-143 | a run in which a lapsed permission is honoured |
| `PermissionHistory.SharedKeyIsHonoured` | pkg/federation/permissions.go:134-143 | every ambiguous query is allowed by the cache after a short run although no store allows it |
| `PermissionHistory.RunIsUnique` | pkg/federation/permissions.go:40-131 | after any run each store has at most one entry per subject |
| `PermissionLedger.RunIsTold` | pkg/federation/permissions.go:40-363 | after any run, which stores exist, whose they are, what each holds for a subject and how long answers are kept is what the events say |
| `PermissionLedger.StoreAfterRunAllowsIff` | pkg/federation/permissions.go:195-242 | so a store allows a subject exactly if it holds the right in time for an address that reaches the subject |
| `PermissionLedger.CacheIsTold` | pkg/federation/permissions.go:40-363 | after any run the cache holds, for each key, the first answer since it was emptied or the one before was out of time |
| `PermissionLedger.AnswerIsTold` | pkg/federation/permissions.go:138-167 | a check gives that answer while it is in time, and a fresh one from then on |
| `PermissionHistory.RevokedIsDenied` | pkg/federation/permissions.go:108-168 | right after a revocation the cache cannot keep the subject allowed |
| `InviteCodes.DecodeEncode` | pkg/federation/invite.go:251-255 | the URL-safe encoding of section 5 of RFC 4648 loses nothing |
| `InviteCodes.CodesAreDistinct` | pkg/federation/invite.go:244-258 | different bytes give different codes, and no code has a slash |
| `InviteCodes.InviteCodeOf` | pkg/federation/invite.go:244-258 | twelve bytes give sixteen characters |
| `InviteCodes.ParseIffFormat` | pkg/federation/invite.go:277-296 | a link parses to a coordinator and a code exactly when it is their link and neither has a slash |
| `InviteCodes.GeneratedLinkRoundTrips` | pkg/federation/invite.go:277-296 | the link of a generated code parses back exactly when the coordinator has no slash |
| `Invites.InviteManager.GenerateInvite` | pkg/federation/invite.go:61-86 | a fresh unused invite under the code of the random bytes |
| `Invites.InviteManager.RedeemInvite` | pkg/federation/invite.go:89-128 | the new table and the answer, each error with its effect, the copy returned on success |
| `Invites.InviteManager.ValidateInvite` | pkg/federation/invite.go:131-153 | the answer, without changing anything |
| `Invites.InviteManager.RevokeInvite` | pkg/federation/invite.go:156-172 | only the inviter removes the code |
| `Invites.InviteManager.CleanupExpired` | pkg/federation/invite.go:223-230 | exactly the expired codes go, in any visiting order |
| `Invites.PerformAll` | pkg/federation/invite.go:61-236 | a new manager performing a run ends with the table the run ends in |
| `InviteSpec.StepAgrees` | pkg/federation/invite.go:61-236 | each step keeps the table and the ledger in agreement |
| `InviteSpec.AnswersFollowLedger` | pkg/federation/invite.go:89-153 | after any run a code is redeemed or validated exactly when the ledger allows it, and the invite shown is the ledger's |
| `InviteSpec.CleanupIsTransparent` | pkg/federation/invite.go:216-236 | cleanups at whatever moments change no later success |
| `InviteSpec.RedemptionIsLimited` | pkg/federation/invite.go:104-123 | the recorded users are those who redeemed, all different, as many as the use count, never more than the limit |
| `InviteSpec.AtMostMaxUses` | pkg/federation/invite.go:104-123 | a code is redeemed at most as often as it was generated for |
| `InviteSpec.TermsAreFixed` | pkg/federation/invite.go:72-81 | expiry, limit, inviter and grants of a code never change |
| `InviteSpec.ClosedStaysClosed` | pkg/federation/invite.go:98-102 | a revoked or expired code is neither redeemed nor validated again |
| `InviteSpec.RecordedIsRevoked` | pkg/federation/invite.go:156-172 | a code whose inviter asked for its revocation was revoked, unless it was used up or out of time by then |
| `InviteSpec.OpenIff` | pkg/federation/invite.go:89-128 | a generated code is redeemed exactly when it is in time, was not revoked, is below its limit and the member is new |
| `InviteAnswers.TableIsTold` | pkg/federation/invite.go:61-236 | after a run a generated code is in the table exactly if it was neither revoked nor used up nor found out of time, with its terms and its redeemers |
| `InviteAnswers.AnswersAreTold` | pkg/federation/invite.go:89-172 | every answer to redeeming, validating and revoking it, from the events alone |
| `InviteAnswers.OthersAreUnknown` | pkg/federation/invite.go:93-96 | a code that was not generated is unknown |
| `Chunking.ReceiveUpload` | pkg/coordinator/coordinator_streaming.go:52-158 | the chunks handed over are those of the bytes received, numbered from zero, whatever the message boundaries; each way the loop ends |
| `Chunking.Drain` | pkg/coordinator/coordinator_streaming.go:103-134 | the full chunks of the buffer leave it, up to where the processor stops |
| `Chunking.ChunkedIsWellCut` | pkg/coordinator/coordinator_streaming.go:103-158 | nothing is lost, every chunk but a shorter non-empty last one is full, and their number is the quotient rounded up |
| `Chunking.WellCutIsUnique` | pkg/coordinator/coordinator_streaming.go:103-158 | there is only one such way to cut the bytes |
| `Chunking.CutAppend` | pkg/coordinator/coordinator_streaming.go:99-107 | bytes that arrive later only extend what is left over |
| `ChunkIDs.SameIDIff` | pkg/storage/storage.go:124-129 | two chunks share an identifier exactly when their numbers agree and their paths differ in slashes and underscores only |
| `ChunkIDs.PathsCollide` | pkg/storage/storage.go:124-129 | two files in different directories share all their chunk identifiers |
| `ChunkStores.StepExplained` | pkg/coordinator/coordinator_streaming.go:233-268 | each atomic action of a store goroutine changes what its task accounts for and nothing else |
| `ChunkStores.OutcomeIgnoresSchedule` | pkg/coordinator/coordinator_streaming.go:221-275 | stored chunks and allocations depend on which stores succeed, not on the interleaving |
| `ChunkStores.FetchIff` | pkg/coordinator/coordinator_streaming.go:338-373 | a chunk is fetched, unchanged, exactly when some node acknowledged it and a node that has it answers |
| `ChunkStores.WriteThenRead` | pkg/coordinator/coordinator_streaming.go:193-392 | where nothing was known of the identifiers before: under every interleaving a download sends a prefix of the upload, and all of it exactly when every chunk is retrievable and every send goes through |
| `ChunkStores.ReadAfterWrite` | pkg/coordinator/coordinator_streaming.go:193-392 | whatever was stored before under the same identifiers and under every interleaving, a download sends the chunks' answers, new or old, up to the first that is missing or not sent |
| `ChunkStores.SafeIff` | pkg/coordinator/coordinator_streaming.go:193-392 | no download, whoever answers, ever sends other bytes than the uploaded ones exactly when every chunk it can come to is clean: each node asked for it was reached by the upload, or held nothing or the same before |
| `ChunkStores.FreshIsSafe` | pkg/coordinator/coordinator_streaming.go:193-392 | with identifiers not used before every upload is safe |
| `ChunkStores.EndsWellIff` | pkg/coordinator/coordinator_streaming.go:326-392 | a download ends well exactly when for every chunk some node asked for it answers and holds bytes under its identifier, and every send goes through |
| `ChunkStores.FailedStoresChangeNothing` | pkg/coordinator/coordinator_streaming.go:233-268 | an upload whose every store fails changes neither what nodes hold nor what is allocated |
| `Streaming.ProcessStreamingChunks` | pkg/coordinator/coordinator_streaming.go:217-272 | refused when no node is healthy; otherwise one task per chunk and a list that names every chunk, or nothing listed when an allocation fails |
| `Streaming.StreamCoordinator.StoreChunks` | pkg/coordinator/coordinator_streaming.go:233-275 | the goroutines run to their end in some interleaving, and what nodes hold and what is allocated is what that interleaving leaves |
| `Streaming.StreamCoordinator.UpdateFileMetadata` | pkg/coordinator/coordinator_streaming.go:286-300 | size and chunk list of that entry alone |
| `Streaming.StreamCoordinator.WriteFileStream` | pkg/coordinator/coordinator_streaming.go:29-190 | a whole upload: loop, tasks, stores and file entry, which changes only when the loop completed, a node is healthy, every chunk found nodes and the stream was not cancelled in the final wait |
| `Streaming.StreamCoordinator.ReadFileStream` | pkg/coordinator/coordinator_streaming.go:303-400 | what is sent and whether it ends well is the download of the entry's chunk list |
| `Streaming.UploadThenDownload` | pkg/coordinator/coordinator_streaming.go:29-392 | after an upload's stores a download ends well exactly when every chunk is readable and sent; if the upload is safe it sends a prefix of the bytes, all of them when it ends well; identifiers not used before make it safe |
| `Streaming.WriteThenReadStream` | pkg/coordinator/coordinator_streaming.go:29-400 | the same of the two calls on one coordinator, and whether any later download can send other bytes is decided exactly by what nodes held before and which stores reached them |
| `Streaming.StaleDownloadHappens` | pkg/coordinator/coordinator_streaming.go:193-392 | an acknowledged upload, another to the same path with every store failing, and a download that ends well with the bytes of the first |
| `Gossip.GossipService.constructor` | pkg/federation/gossip.go:80-101 | a node starts at clock zero, knowing nobody, under a domain its own address can be written with |
| `Gossip.GossipService.AddPeer` | pkg/federation/gossip.go:130-152 | the peer at version zero, one tick, the own vector entry at the new clock |
| `Gossip.GossipService.RemovePeer` | pkg/federation/gossip.go:155-172 | the peer goes, one tick, the own vector entry at the new clock |
| `Gossip.GossipService.PrepareGossipMessage` | pkg/federation/gossip.go:244-265 | the clock, and every known peer once with its stored version: what the system allows the node to say |
| `Gossip.GossipService.ProcessGossipResponse` | pkg/federation/gossip.go:300-319 | the messages in order, then the vector merged entry by entry |
| `Gossip.GossipService.ProcessGossipMessage` | pkg/federation/gossip.go:322-341 | the clock past the message's version, then the handler's effect |
| `Gossip.GossipService.HandleJoinMessage` | pkg/federation/gossip.go:344-385 | the sender replaces any peer of its domain; an unreadable sender changes nothing |
| `Gossip.GossipService.HandleHeartbeatMessage` | pkg/federation/gossip.go:388-414 | a known sender's version and status, and zero for named peers that are unknown |
| `Gossip.PerformAll` | pkg/federation/gossip.go:80-414 | a service that takes part in a run of the system ends as the run says of its node |
| `GossipSpec.MergeIsMax` | pkg/federation/gossip.go:308-313 | merging takes the greater entry |
| `GossipSpec.VectorGrowsIff` | pkg/federation/gossip.go:407-413 | a message lowers a vector entry exactly when a readable heartbeat names an unknown peer with a positive entry |
| `GossipSpec.PeerVersionGrowsIff` | pkg/federation/gossip.go:400-405 | a stored peer version goes back exactly when its owner's message is older |
| `GossipPeers.EventTells` | pkg/federation/gossip.go:130-414 | what one event at a node does to its knowledge of a peer: whether it knows it, its address, version and status |
| `GossipPeers.PeersAreTold` | pkg/federation/gossip.go:130-414 | in every run a node knows a domain exactly if some event taught it and none since removed it, at the address, with the version and the status last told |
| `GossipVectors.OwnEntryLeads` | pkg/federation/gossip.go:130-319 | in every run a node's own entry is its clock when it last added or removed a peer, and no vector, kept or published, is ahead of it |
| `GossipVectors.EntriesAreTold` | pkg/federation/gossip.go:300-414 | and its entry for another domain is the greatest merged since a heartbeat last named the domain without the node knowing it |
| `GossipSystem.StepIsBounded` | pkg/federation/gossip.go:130-414 | each step of the system keeps every version at or below its domain's clock |
| `GossipSystem.SpokenIsBounded` | pkg/federation/gossip.go:244-265 | what a bounded node puts into a heartbeat or a sync is bounded |
| `GossipSystem.StepIsLocal` | pkg/federation/gossip.go:130-414 | an event changes only the node it happens at |
| `GossipSystem.RunIsBounded` | pkg/federation/gossip.go:130-414 | in every run no vector entry, stored peer version or version on the wire, be it a message's own, one in a heartbeat or sync, or one in a vector, exceeds the clock of its domain |
| `GossipSystem.VersionsAreLamportClocks` | pkg/federation/gossip.go:322-537 | in every run, of two ticks the one that happens before has the smaller value, and no value exceeds the number of ticks |
| `GossipClocks.ValueIsLongestChain` | pkg/federation/gossip.go:322-341 | the value of a tick is exactly the length of the longest chain of ticks that leads to it, each directly before the next |
| `GossipClocks.ClockIsLastTick` | pkg/federation/gossip.go:322-341 | a node's clock is the value of its last tick |
| `GossipSystem.ResponseIsRun` | pkg/federation/gossip.go:300-319 | handling a response is a run of arrivals and one merge |

## Left out

- Paths: `filepath.Clean` and the making absolute of relative requests are not modelled; a path is its sequence of names, and `CreateFile` and `DeleteFile`, which do not clean theirs, are given clean ones. A request such as `/.` that only becomes the root after cleaning passes the root guards of `DeleteDirectory`; it is outside the model. String prefix tests and `strings.Replace` on clean paths are prefix and rebasing of name sequences.
- CoordinatorService.Coordinator.DeleteFile: the removal of the file's chunks from storage nodes is not modelled; it is network traffic and bookkeeping of allocations.
- CoordinatorService.Coordinator.CreateFile: a file entry is its presence and its chunk list; modes, owners, modification times and the stale `Directory.Parent` and `FileEntry.Path` are not modelled, nor are file locks.
- MoveLosses.MoveOnceKeepsDirsIff: a stale or repeated list entry can make a move onto a missing ancestor's path re-key a directory twice. If the order is kept nonetheless, `MoveLosesDirs` counts what is lost; if not, the move may lose none (`MoveTwiceKeepsDirs`) or some, and the model says no more than the loop (`RenameFrom`). The same holds of files that move out of order.
- StatEntry, non-streaming ReadFile and WriteFile, and the splitting and allocation functions of pkg/storage: of pkg/storage only the identifiers of streamed chunks are part of this model.
- Placement.PlacementEngine.RegisterNode: a node is a value in the engine's map; the pointer the caller keeps, and changes through it, are not modelled.
- Placement.PlacementEngine.SelectNodes: metrics and the `IsLocal` and `Constraints` fields of the result are not modelled; a negative replica count, which panics, is excluded; floating point is modelled by reals.
- HybridSelection.RankByScore: leaves the order open when a node has no capacity, since a quotient by zero need not compare with the others.
- Placement.PlacementEngine.TrackAccess: the decay factor is a parameter between zero and one instead of the exponential.
- Placement.PlacementController.HandleNodeFailure: the replacement of a critical chunk only selects a node, as in the code; transfers, rebalancing and its timer are not modelled.
- Sorting.SortSlice: an insertion sort stands for the library's unstable sort; its contract leaves the order of ties open.
- MediaCaching.MediaCache.Get: last-access times and hit rates are not modelled; prefetching, fetching from nodes and the streaming reader are placeholders in the code.
- Mutexes: the methods of one object are atomic, as their locks make most of them. `CheckPermission` is the exception: it drops its read lock before it takes the write lock (pkg/federation/permissions.go:138-149), so that other calls may come between a lookup that misses and the scan. Scan and update share one lock; not modelled is that a check may then recompute an answer which another check has just stored. The one lock re-entry, a leave message that calls `RemovePeer` under the lock it needs, is not modelled; `RemovePeer` is a step of its own.
- Permissions.PermissionManager.CheckPermission: path cleaning is an arbitrary function given to the manager; rights are the four declared ones; a nil address is not modelled. GetDataStore, ImportDataStores and ExportDataStores hand out or take in store pointers and are left out.
- PermissionHistory.AnswerWasRight: is about unambiguous queries by writable addresses; `KeyIsUniqueIff` shows that for others the key itself is shared.
- Invites.InviteManager.GenerateInvite: the random bytes are a parameter; over runs no code is generated twice. The pointer returned is assumed not to be written through. Creation time, coordinator, domain, certificate and description fields, ListInvites and statistics are left out.
- InviteCodes.Encode: only whole groups of three bytes, so padding is not modelled; twelve bytes need none.
- Streaming.StreamCoordinator.WriteFileStream: an upload cancelled in its final wait returns once its stores are done, which in the code go on in the background.
- Streaming.StreamCoordinator.UpdateFileMetadata: the streaming coordinator has its own file entries under their paths as texts; the coordinator of the namespace has them under names.
- Chunking.ReceiveUpload: cancellation and processor failure are an arbitrary predicate on the chunk index; `fileChunks` in the upload is left out, since the processor may be handed the path before the header sets it. The loop is given the function that makes identifiers; `Streaming` gives it the one of pkg/storage.
- ChunkStores.WriteThenRead: a storage node answers with what it holds under the identifier or not at all; the limit on concurrent stores only restricts the schedules considered.
- Gossip.GossipService.ProcessGossipMessage: join endpoints, last-seen times, data-store lists, callbacks and connections are not modelled; update and sync messages only tick, as in the code. Clocks are unbounded naturals, justified by the bound in `VersionsAreLamportClocks`.
- GossipSystem.ResponseIsRun: the server side of the exchange is not modelled; a response carries messages and a vector that nodes published earlier.
- Failure detection by timeouts, peer selection, and the broadcast, update and sync stubs of gossip: little or no state of interest.
- 64-bit sizes and counters are unbounded integers throughout.
- The connection pool, circuit breaker, resilient client, certificates, trust store, CLI, FUSE bindings, metrics and configuration: input and output, or updates with shallow properties.
