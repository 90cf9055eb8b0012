# FStoreX in Dafny

FStoreX keeps files as replicas on DataNodes and their metadata on a replicated metadata server. This project models four parts of it and proves what they promise:

1. **The metadata state machine.** The directory tree is a heap of `Entry` objects linked by `children` maps, as in the Go code, and every command is a method that changes it in place. The methods are proved against functions on a flat map from component lists to attributes (`Metadata.Apply`). `MetadataServer.at` is a ghost index of the heap; `IndexIsReachability` shows that it lists exactly what the child pointers reach from the root. Runs are logs of commands, each with the clock reading of the server that applies it.
2. **The garbage collector.** The walk and the orphan test are methods; the protocol is a state machine in which any number of collection cycles, commands, uploads, deletions and clock ticks interleave.
3. **The repair loop.** The breadth-first scan, the choice of targets, the chunked copy between DataNodes, the swap of the replica list and the status cycle, up to whole rounds; what repairs keep whatever goes wrong, and what they achieve when nothing does.
4. **File handles and DataNode bytes.** Serial and parallel reads with failover, writes and truncations on all replicas, and a state machine of concurrent writers.

| file | part of FStoreX |
|---|---|
| `Paths.dfy` | `splitPath`, `joinPath` |
| `Subtrees.dfy` | maps keyed by paths, and when a set of nodes and child pointers is a tree |
| `Metadata.dfy`, `Effects.dfy`, `Invariants.dfy`, `Namespace.dfy`, `Recovery.dfy` | the commands on the flat map, what each reports and leaves, what they keep, what they promise |
| `MetadataServer.dfy`, `Snapshots.dfy` | the heap tree, its commands, snapshot and restore |
| `Logs.dfy`, `Identity.dfy`, `Determinism.dfy`, `Replay.dfy`, `RepairLists.dfy`, `ReplicaLists.dfy` | properties of whole runs; the lists handlers and repairs submit |
| `Placement.dfy` | `selectDataNodes`, the create handler |
| `GarbageCollector.dfy`, `CollectorProtocol.dfy` | the collector |
| `RepairScan.dfy`, `ReplicaCopies.dfy`, `Replicator.dfy`, `RepairProgress.dfy`, `ReplicationLoop.dfy` | the repair loop |
| `DataNode.dfy`, `Cluster.dfy`, `FileHandle.dfy`, `HandleIdentity.dfy`, `WriteProtocol.dfy` | bytes on one node and on all, handles, concurrent writers |
| `Options.dfy` | a value that may be missing |

Parameters stand for what the code reads from outside: clocks, fresh FileIDs, whether a Raft round commits, which nodes cannot be reached, how many chunks a connection lasts. `Luck` gathers those of one repair. Go's iteration order over maps and the order in which goroutines finish are arbitrary choices. Integers are unbounded except in the placement hash, where every intermediate result is wrapped to 64 bits. Names in path strings are sequences of characters.

## Where code and documentation disagree

The model follows the code. Each point is a lemma.

- `docs/filesystem-semantics.md:302` makes removing a non-empty directory an error; `applyDelete` drops the subtree (`DeleteTakesNonEmptyDirectory`).
- Overwriting a file keeps its FileID but installs replicas stored under the newly generated ID.
- A repair submits its replica list for the path it scanned, and does not look at what the path leads to by then. If the file has been renamed meanwhile and another one created there, the list lands on that other file.
- These two, overwrites and stale swaps, are exactly what makes lists name data under another ID than the file's (`PathsMatchIff`), and exactly the commands after which the collector can delete data that a file's list names (`CommitDecides`). Runs with either exist (`OverwritesHappen`, `StaleSwapsHappen`).
- `docs/filesystem-semantics.md:39` and `:119` and a comment say that an open handle stays with its file across rename and unlink. Its writes do (`WritesStay`); `Truncate` goes by the path and hits whatever file the path leads to (`TruncateStaysIff`), or fails when there is none.
- A repair of a file whose bytes have outgrown the recorded size installs shorter copies (`RepairedAgreesIff`).
- A recovering file refuses `UpdateSize`, but not an overwriting create, which gives it any size and a new status (`RecoveryEndsIff`).
- A zero-length `WriteAt` beyond the end raises the recorded size without extending any replica (`StepInSyncIff`, `StepDataFirstIff`).
- `UpdateSize` assigns, so with two writers the recorded size can go back (`RecordedCanRegress`, `RecordedExactIff`).
- `ReplicateFile` ends exactly when the source is at least as long as the size asked for (`CopyEndsIff`).
- `Truncate` to 0 of a missing replica file fails, although a comment says otherwise (the contract of `DataNode.Truncate`).
- A repair whose list swap or last status round fails leaves the file recovering (the contract of `RepairFile`).

## Model

| member | source | states |
|---|---|---|
| Paths.SplitPath | internal/metadata/mds.go:486-499 | the split is exactly the function of the path string that the laws below determine, and every component is non-empty and slash-free |
| Paths.ComponentsConcat | internal/metadata/mds.go:486-499 | joining two strings with a slash concatenates their components, so leading, trailing and repeated slashes do not matter |
| Paths.ComponentsUnique | internal/metadata/mds.go:486-499 | any splitter that obeys the two laws (slash concatenates, slash-free names stand for themselves) is this one |
| Paths.ComponentsPathString | internal/metadata/replicator.go:171-176 | splitting undoes repeated joining for all lists of non-empty slash-free components |
| Paths.PathStringIs | internal/metadata/replicator.go:171-176 | the string rebuilt for a path has one slash before each name and no other |
| Subtrees.MovedIsTree | internal/metadata/apply.go:177-256 | moving a subtree to a place outside it, over nothing or a childless node, leaves a tree: one parent per node, names equal to keys, files without children |
| MetadataServers.MetadataServer.constructor | internal/metadata/mds.go:114-158 | a new server holds an empty root directory and no nodes |
| MetadataServers.MetadataServer.Lookup | internal/metadata/mds.go:502-513 | finds an entry exactly when the components are a path of the tree, and it is that entry |
| MetadataServers.MetadataServer.WalkMeets | internal/metadata/apply.go:203-224 | the pointer walk passes through the source directory exactly when the source path is a prefix of the destination directory's path |
| MetadataServers.MetadataServer.ApplyHeartbeat | internal/metadata/apply.go:11-26 | adds the node at the end unless listed, records the time, changes nothing else |
| MetadataServers.MetadataServer.ApplyRemoveDataNode | internal/metadata/apply.go:29-38 | takes out the node's first occurrence and its time, changes nothing else |
| MetadataServers.MetadataServer.ApplyMkdir | internal/metadata/apply.go:40-78 | the heap change and the error are those of the flat specification; an existing directory is accepted unchanged |
| MetadataServers.MetadataServer.ApplyCreateFile | internal/metadata/apply.go:80-133 | as specified on the flat map; an overwrite keeps FileID and creation time and takes the command's replicas |
| MetadataServers.MetadataServer.ApplyCompleteFile | internal/metadata/apply.go:135-146 | any file becomes complete whatever its status; only that file changes |
| MetadataServers.MetadataServer.ApplyDelete | internal/metadata/apply.go:148-171 | the path and everything below it leave the tree; no other entry is touched but the parent's modification time |
| MetadataServers.MetadataServer.ApplyRename | internal/metadata/apply.go:177-256 | relinking three heap nodes relabels exactly the paths under the source, with every error in the code's order, and keeps the pointers a tree |
| MetadataServers.MetadataServer.ApplyUpdateSize | internal/metadata/apply.go:260-275 | assigns the size unless the file is recovering |
| MetadataServers.MetadataServer.ApplyUpdateReplicas | internal/metadata/apply.go:279-293 | replaces the whole list; an empty list is refused |
| MetadataServers.MetadataServer.ApplyUpdateStatus | internal/metadata/apply.go:297-311 | sets one of the three statuses and refuses others |
| MetadataServers.MetadataServer.Apply | internal/metadata/state_machine.go:11-44 | every command takes the heap from a tree standing for one flat state to a tree standing for the specified next state, with the specified outcome |
| MetadataServers.MetadataServer.Snapshot | internal/metadata/state_machine.go:47-56 | the snapshot pictures the whole state: paths, attributes, names, node list, heartbeats |
| MetadataServers.MetadataServer.Restore | internal/metadata/state_machine.go:59-78 | builds a heap tree that the given snapshot pictures; without data nothing changes |
| MetadataServers.ToEntry | internal/metadata/mds.go:619-638 | rebuilding from a snapshot node gives fresh entries forming a tree with exactly its nodes and attributes, absent children maps included |
| MetadataServers.MetadataServer.ToSnapshot | internal/metadata/mds.go:598-617 | the recursive copy of an entry pictures its whole subtree |
| MetadataServers.MetadataServer.IndexIsReachability | internal/metadata/mds.go:71-86 | following child pointers from the root reaches exactly the entries the index lists, under the listed paths |
| MetadataServers.MetadataServer.PointersFormTree | internal/metadata/mds.go:71-86 | an entry is reached along one path only, never from itself, carries its map key as name, and has no children if it is a file |
| Snapshots.TransmitKeepsState | internal/metadata/mds.go:585-596 | dropping empty children maps in the encoding loses nothing |
| Snapshots.TransmitDropsEmpty | internal/metadata/mds.go:585-617 | in an encoded snapshot exactly the nodes without children have no children map, and the others keep their children's names |
| Snapshots.SnapshotDetermines | internal/metadata/mds.go:567-638 | no two states have the same snapshot |
| Snapshots.RestoreRoundTrip | internal/metadata/state_machine.go:47-78 | an encoded snapshot of a well-formed state can be restored, to that state and to no other |
| Snapshots.NoRootIsEmptyTree | internal/metadata/mds.go:573-583 | a snapshot without a root can be restored too, to the empty tree |
| Invariants.ApplyKeepsTree | internal/metadata/apply.go:40-311 | every command keeps the flat state well formed: names as keys, every parent a directory |
| Invariants.ApplyKeepsMembers | internal/metadata/apply.go:11-38 | every command keeps the node list free of duplicates and equal, as a set, to the heartbeat keys |
| Effects.NewServer | internal/metadata/mds.go:114-124 | every attribute of the root of a new server, and no nodes |
| Effects.HeartbeatDoes | internal/metadata/apply.go:11-26 | what the command leaves of list, times and tree |
| Effects.RemoveDataNodeDoes | internal/metadata/apply.go:29-38 | the list without the first occurrence, its order kept, the times without the node, the tree as it was |
| Effects.MkdirDoes | internal/metadata/apply.go:40-78 | which refusal each first failing test gives; every attribute of the new directory; the parent's new modification time; an existing directory and all other paths unchanged |
| Effects.CreateDoes | internal/metadata/apply.go:80-133 | which refusal each first failing test gives; every attribute of the new or overwritten file; the parent's new modification time; all other paths unchanged |
| Effects.DeleteDoes | internal/metadata/apply.go:148-171 | which refusal; exactly what leaves the tree; the parent's new modification time; all other paths unchanged |
| Effects.RenameDoes | internal/metadata/apply.go:177-256 | which refusal each first failing test gives; the moved entry and both parents have the new modification time; what lies below keeps its attributes under its new path; all other paths unchanged |
| Effects.FileCommandDoes | internal/metadata/apply.go:135-311 | which refusal each first failing test gives the four commands on a file, and the one attribute and modification time an accepted one changes |
| Namespace.RenameAcceptedIff | internal/metadata/apply.go:177-244 | rename succeeds exactly when the source exists, the destination's parent is a directory, the destination is none, and a source directory is not above or at it |
| Namespace.RenameRelabels | internal/metadata/apply.go:236-255 | every path below the source reappears below the destination unchanged, nothing stays, an old destination file is gone, all other paths are as before |
| Namespace.RenameBack | internal/metadata/apply.go:177-256 | renaming to a free name and back is accepted and restores every path, modification times aside |
| Namespace.DeleteRemovesSubtree | internal/metadata/apply.go:148-171 | delete succeeds exactly on existing paths below the root and removes exactly the paths at and below it |
| Namespace.OnlyConcerned | internal/metadata/apply.go:40-311 | a refused command changes nothing; an accepted one leaves every path other than its own, and those below what it deletes or moves, as it was, but for modification times of directories it names a child of |
| Recovery.RecoveryEndsIff | internal/metadata/apply.go:80-311 | of all ten commands, a recovering file keeps size and status, wherever it is moved, under exactly those that neither take it away (delete at or above it, rename onto it) nor end the recovery (overwriting create, CompleteFile, UpdateStatus to another status) |
| Namespace.DeleteTakesNonEmptyDirectory | internal/metadata/apply.go:165-170 | every directory below the root is deleted with whatever is in it, and the tree stays well formed |
| Namespace.CreateThenDelete | internal/metadata/apply.go:80-171 | deleting a file just created gives back all paths |
| Identity.StatesAreSound | internal/metadata/state_machine.go:11-44 | after every prefix of every log the state is well formed, membership agrees, and only issued IDs are in use |
| Identity.IdsStayUnique | internal/metadata/apply.go:111-130 | with fresh IDs in commands no two entries ever share an ID |
| Identity.IdsNeverReturn | internal/metadata/apply.go:148-171 | an ID that has left the tree never comes back |
| Identity.IdKeepsKindAndBirth | internal/metadata/apply.go:245-254 | while an ID is in the tree its kind and creation time stay fixed, through renames, overwrites and repairs |
| Determinism.ReloadKeepsState | internal/metadata/state_machine.go:47-78 | a replica that comes back from its snapshot is in the state it left |
| Determinism.ReplicasAgree | internal/metadata/state_machine.go:11-78 | the same commands under different clocks, with snapshots and restores anywhere, end in states equal but for times, with the same outcome for each command |
| Replay.Reload | internal/metadata/state_machine.go:47-78 | snapshot, encoding and restore rebuild the heap from fresh entries, standing for the same state |
| Replay.RunEvents | internal/metadata/state_machine.go:11-78 | a heap server that applies committed commands, with reloads anywhere, ends in the state the commands alone determine |
| ReplicaLists.ListsStayGood | internal/metadata/mds.go:247-295 | in every run of commands as handlers and repairs issue them, repairs' lists arriving late or at another file included, each file has a non-empty replica list with distinct addresses, all of nodes that have sent a heartbeat |
| ReplicaLists.ListedAreKnown | internal/metadata/apply.go:11-38 | in every run only nodes that have sent a heartbeat are on the node list |
| ReplicaLists.DataStaysApart | internal/metadata/apply.go:80-133 | in every such run with fresh IDs and no stale swap, overwrites included, no file's list names data under the ID of another file |
| ReplicaLists.SwapKeepsApartIff | internal/metadata/replicator.go:246-254 | a repair's swap makes a list name another file's data exactly if it arrives at a file while another one has the ID that was scanned |
| ReplicaLists.SwapKeepsPathsIff | internal/metadata/replicator.go:207-254 | a repair's swap, however late, keeps data under the file's own ID exactly if its path leads to no file or to one with the ID that was scanned |
| ReplicaLists.PathsMatchIff | internal/metadata/apply.go:114-130 | all remote paths are `/data/` and the file's own ID throughout a run exactly when nothing is overwritten in it and no repair's swap arrives at a file with another ID than scanned |
| Placement.HashIsWrappedPolynomial | internal/metadata/mds.go:537-545 | wrapping every step to 64 bits equals the integer polynomial up to a multiple of 2^64 |
| Placement.PolynomialAt | internal/metadata/mds.go:537-541 | the polynomial of a concatenation: the characters are the coefficients of powers of 31, the last one the constant term |
| Placement.FirstNodeIs | internal/metadata/mds.go:537-545 | the first node is the 64-bit value congruent to the polynomial, without its sign, modulo the node count |
| Placement.ReplicaGoal | internal/metadata/mds.go:529-535 | as many replicas as wanted, but no more than there are nodes, and at least one |
| Placement.SelectDataNodes | internal/metadata/mds.go:528-563 | always in bounds; registered nodes, none twice, under the file's path, and exactly min(max(replicaCount, 1), nodes) of them, consecutive from the hashed start, when the list has no duplicates |
| Placement.PrepareCreate | internal/metadata/mds.go:247-295 | the handler submits exactly when nodes are registered and the parent is a directory; what it submits is a command of the kind the run properties assume, with replicas on registered nodes only |
| GarbageCollector.CollectValidFileIds | internal/metadata/gc.go:99-121 | the recursive walk returns the IDs of all files of the tree and no other |
| GarbageCollector.FileIdsAre | internal/metadata/gc.go:108-121 | the IDs to keep are exactly the non-empty ones of files in the tree |
| GarbageCollector.OrphanOfId | internal/metadata/gc.go:141-155 | data under an ID is an orphan exactly when the ID is not kept and the data is 30 seconds older than the cycle or more |
| GarbageCollector.OrphansInOrder | internal/metadata/gc.go:128-170 | each listed file is judged by itself, in the listing's order |
| GarbageCollector.ChooseOrphans | internal/metadata/gc.go:128-170 | a node's doomed files are those of the specified selection, in order |
| GarbageCollector.OrphansAre | internal/metadata/gc.go:128-170 | a path is selected exactly when some listed file has it that is neither referenced nor newer than the window |
| CollectorProtocol.CollectorIsSafe | internal/metadata/gc.go:38-170 | in every interleaving with fresh IDs and clocks lagging less than the window, no step but a client's deletion takes `/data/{id}` off any disk while a file with that ID is in the tree, also across renames |
| CollectorProtocol.DiskFrame | internal/metadata/gc.go:156-161 | a path leaves a disk only, and always, by a deletion of it there; it comes or gets a new time only by an upload of it there |
| CollectorProtocol.StepFrame | internal/metadata/gc.go:38-65 | only a command changes the metadata, and only its own steps a cycle: what it collects, which nodes it copies, what a listing contains |
| CollectorProtocol.CollectorSafeIff | internal/metadata/gc.go:38-65 | the collector is safe in all runs of handler-issued commands exactly when the clock lag is below the window |
| CollectorProtocol.CollectorSparesReplicas | internal/metadata/gc.go:38-170 | in runs of issued commands without overwrites and stale swaps no step but a client's deletion takes a replica off its disk that a file's list names |
| CollectorProtocol.CommitDecides | internal/metadata/apply.go:99-130 | after any such run, an issued command leaves named replicas safe on all such continuations exactly when it neither overwrites a file nor is a repair's swap arriving at a file with another ID than scanned |
| CollectorProtocol.OverwritesHappen | internal/metadata/apply.go:99-130 | such runs that a handler-issued overwrite can follow exist |
| CollectorProtocol.StaleSwapsHappen | internal/metadata/replicator.go:188-254 | such runs that a stale swap can follow exist: a file is renamed during its repair and its old name used again |
| RepairScan.FindTasks | internal/metadata/replicator.go:96-168 | every task is for a distinct file that is neither pending nor recovering nor in repair and has fewer than replicaCount live replicas, carries its ID, size, exactly its live replicas and a path that looks up to it; fewer than k tasks means every such file has one; the scan ends |
| RepairLists.LiveReplicasInOrder | internal/metadata/replicator.go:143-155 | the live replicas are those on live nodes, one by one, in the list's order |
| Replicator.SelectTargetNodes | internal/metadata/replicator.go:290-315 | distinct live nodes without a replica, at most as many as missing, and fewer only when there are no more |
| Replicator.RepairFile | internal/metadata/replicator.go:182-286 | on every exit path only this file's entry and its data on the targets change, as specified for admissible targets; an error is reported exactly when a round fails or no copy is made; a complete file is complete again exactly when the first round fails or the rounds still needed commit, in terms known before the call |
| Replicator.RepairedList | internal/metadata/replicator.go:246-254 | the swapped list keeps all live replicas, has distinct live addresses, at most replicaCount of them, and exactly that many with enough nodes and all copies done |
| ReplicaCopies.CopyToTargets | internal/metadata/replicator.go:214-233 | exactly the targets that connect pull from the first live replica, each for as long as its connection lasts; reported as copied exactly if complete; nothing else changes on any node |
| RepairProgress.RepairedAgreesIff | internal/metadata/replicator.go:182-274 | if a file's live replicas agree, then after a repair, on every exit path, all live replicas of the list recorded then agree with them exactly if the bytes have the recorded length or no new copy got into the list |
| ReplicaCopies.CopiesAgreeIff | internal/datanode/datanode.go:386-458 | copies of agreeing replicas agree with them exactly if none was finished or the bytes have the size asked for |
| RepairProgress.RepairIsProgress | internal/metadata/replicator.go:182-274 | whatever goes wrong, a repair keeps kinds, IDs, sizes, modes, creation times, all entries that were not to be repaired, all live replicas of lists, good lists, the agreement of every file's live replicas, and all stored bytes but those under the file's own ID on nodes without a live replica |
| RepairProgress.RunsOwnData | internal/metadata/apply.go:80-133 | the condition under which agreement of the other files is kept holds in every run with fresh IDs and no stale swap |
| RepairProgress.ProgressKeepsLists | internal/metadata/replicator.go:246-254 | repairs keep the run properties of replica lists: non-empty, distinct, on known nodes, and under the file's own ID |
| RepairProgress.RepairSufficesIff | internal/metadata/replicator.go:182-274 | when everything commits and all targets copy the whole file, a repair restores the full count exactly when a live replica was left and enough nodes live |
| RepairProgress.RepairFixes | internal/metadata/replicator.go:182-274 | a repair under good conditions takes its own file off the list of files to repair and no other, changes no status, and leaves the file with exactly replicaCount live replicas |
| ReplicationLoop.Round | internal/metadata/replicator.go:49-79 | whatever goes wrong, what a repair keeps is kept; a round takes on 16 files or all there are to repair if fewer; under good conditions exactly that many fewer are left, a strict subset |
| ReplicationLoop.RunReplication | internal/metadata/replicator.go:42-83 | whatever goes wrong, what a repair keeps is kept over the cycle; unless the deadline ends the cycle every complete file ends with at least replicaCount live replicas; under good conditions no status changes, every repaired file has exactly replicaCount of them, and each of the counted rounds leaves a strict subset to repair |
| DataNodes.WriteBytesAt | internal/datanode/datanode.go:285-317 | length and every byte after a write: data where put, zeros in a gap, old bytes elsewhere; an empty write changes nothing |
| DataNodes.TruncateBytesAt | internal/datanode/datanode.go:320-349 | length and every byte after a truncation, zeros beyond the old end |
| DataNodes.ReadBack | internal/datanode/datanode.go:249-317 | reading where something was written returns it |
| DataNodes.DataNode.RangeRead | internal/datanode/datanode.go:249-282 | the stored slice, end of file on a short read, a missing file read as empty |
| DataNodes.DataNode.PartialWrite | internal/datanode/datanode.go:285-317 | changes one file, which it creates if missing, and fails only for negative offsets |
| DataNodes.DataNode.Truncate | internal/datanode/datanode.go:320-349 | a positive size creates a missing file; size 0 of a missing file fails and changes nothing |
| DataNodes.DataNode.ReplicateFile | internal/datanode/datanode.go:386-458 | for any source, the target holds what so many turns of the chunk loop make of the source, also if the connection breaks in between, and the call succeeds exactly when that is FileSize long |
| DataNodes.CopyEndsIff | internal/datanode/datanode.go:416-444 | the chunk loop ends exactly when the source is at least FileSize long, and then the target is that prefix |
| DataNodes.CopyLength | internal/datanode/datanode.go:411-444 | how much so many turns copy: whole chunks of a mebibyte, up to the source's end and the size asked for |
| FileHandles.Client.RangeRead | internal/client/client.go:536-554 | fills its part of the caller's buffer from the replica and no other part |
| FileHandles.Client.UpdateSize | internal/client/client.go:514-518 | succeeds exactly if it commits and the path is a file that is not recovering; then only that file's size and modification time change, else nothing |
| FileHandles.Client.TruncateAllReplicas | internal/client/client.go:486-511 | truncates the replicas recorded now where possible, and nothing else on any node; succeeds exactly when each of them can be truncated |
| Clusters.SentAt | internal/client/file_handle.go:183-194 | an operation sent to a list of replicas changes each listed replica that accepts it once, and no other file on any node |
| FileHandles.FileHandle.ReadAtSerial | internal/client/file_handle.go:73-89 | the first reachable replica serves the whole read: count, flag and bytes of a read of what it holds; fails with the buffer unchanged when none is reachable |
| FileHandles.FileHandle.ReadSegmentWithFailover | internal/client/file_handle.go:152-167 | the first reachable replica in the rotation from the start serves the segment, and no byte outside it changes |
| FileHandles.FileHandle.ServerExists | internal/client/file_handle.go:152-167 | the rotation reaches every replica: from any start, a read fails exactly when none is reachable |
| FileHandles.FileHandle.ServerIs | internal/client/file_handle.go:152-167 | the replica that serves is the first reachable one in the rotation, all before it being unreachable |
| FileHandles.FileHandle.ReadAtParallel | internal/client/file_handle.go:94-148 | every byte comes from the replica that serves its segment, the count is the segments' sum, end of file that it is short; on agreeing replicas the same failure, count, flag and bytes as the serial read, for every offset, buffer length, replica count and order of finishing |
| FileHandles.FileHandle.ReadAt | internal/client/file_handle.go:55-70 | which of the two reads is chosen does not show |
| FileHandles.SegmentsPartition | internal/client/file_handle.go:97-124 | every buffer position lies in exactly one segment |
| FileHandles.ShortThenEmpty | internal/client/file_handle.go:130-147 | after a short segment all later ones are empty |
| FileHandles.ReadMeans | internal/client/file_handle.go:47-70 | a read leaves the contents' slice in front of the rest of the old buffer, with end of file exactly when it reaches beyond the end |
| FileHandles.FileHandle.WriteAt | internal/client/file_handle.go:175-231 | the whole new state: the write on each reachable replica and nothing else on any node; cached size, and recorded size if the update commits, raised only on success; succeeds exactly when every replica is reachable |
| FileHandles.FileHandle.Truncate | internal/client/file_handle.go:255-271 | the whole new state: the truncation on each recorded replica that accepts it, then recorded and cached size; succeeds exactly when all accept it, the update commits and the file is not recovering |
| FileHandles.StepInSyncIff | internal/client/file_handle.go:212-217 | one operation keeps all copies equal and both sizes at their length exactly when it is no empty write beyond the end |
| FileHandles.SessionStaysInSync | internal/client/file_handle.go:175-271 | after any sequence of non-empty writes and truncations every replica is the same sparse byte sequence and both sizes are its length |
| HandleIdentity.WritesStay | internal/client/file_handle.go:22-35 | in runs without overwrites and stale swaps before the open, a handle's writes only ever change data under the ID of the file it was opened on |
| HandleIdentity.TruncateStaysIff | internal/client/client.go:486-511 | a truncation through a handle that changes anything changes only its own file's data exactly if the handle's path leads to a file with its ID then |
| FileHandles.FileHandle.SyncedAgree | internal/client/file_handle.go:55-70 | in such a session the replicas agree, so reads return that sequence's slices |
| FileHandles.FileHandle.RunSession | internal/client/file_handle.go:47-271 | any sequence of successful WriteAt and Truncate calls on a handle, updates committed, leaves all replicas equal to the one byte sequence and both sizes at its length, and ReadAt then returns its slice |
| WriteProtocol.DataBeforeMetadata | internal/client/file_handle.go:175-231 | in every interleaving of non-empty writes from any number of handles, with lost and late messages, the recorded size, every cached size and every size under way are within the bytes on every replica |
| WriteProtocol.StepDoes | internal/client/file_handle.go:175-231 | what each step changes and nothing else: an open caches the recorded size, a replica takes the write, a success raises the cached size and sends it exactly if the write ends beyond it |
| WriteProtocol.StepDataFirstIff | internal/client/file_handle.go:212-228 | the only step that can break this is the success of an empty write beyond the handle's size and some replica's end |
| WriteProtocol.RecordedExactIff | internal/client/file_handle.go:219-228 | once all writes have succeeded every replica is as long as the largest end among them, and the recorded size is that length exactly when the last update applied carried it |
| WriteProtocol.RecordedCanRegress | internal/metadata/apply.go:272 | for any two writes of different ends, on two handles or on one, there is a run whose last step takes the recorded size back |
| WriteProtocol.WritesCommuteIff | internal/datanode/datanode.go:285-317 | two writes can be swapped, on any file, exactly when they put the same bytes wherever both write |
| WriteProtocol.ReplicasAgree | internal/client/file_handle.go:183-209 | replicas on which the same compatible writes have landed are equal, whatever the order at each; so all are once all writes have succeeded |
| WriteProtocol.AlwaysAgreeIff | internal/client/file_handle.go:183-209 | for any writes, on any handles and two or more replicas: all complete runs leave the replicas equal exactly when the writes are pairwise compatible |

## Left out

- Raft itself: a log is a given sequence of commands, and a submission either applies or leaves no trace.
- RPC dialling, redirects to the leader and their retries, the FUSE layer, command lines, logging, tickers and signals.
- The JSON text of snapshots: only its effect on empty children maps is modelled. `Restore` is given what `Snapshot` can produce.
- Disk calls, fsync, temporary files and directory walks: a DataNode is a map from paths to bytes, in the collector protocol a map from paths to modification times.
- `resolvePath` and the random FileIDs: paths are taken as they come, and fresh IDs are an assumption on runs.
- `StoreData`, `PutFile`, `GetFile`, `Sync`, `Close`, `ListDir`, `Stat` and the flag table of `Open`.
- `checkDataNodeHealth`: its removals are `RemoveDataNode` commands, which the runs allow anywhere.
- Two repair cycles at once: the map of files in repair is local to one cycle in `RepairBatch`, although the scan honours any given one.
- Exclusion of writers during a repair, which the code does not provide: `RepairFile` runs without a concurrent write, rename or delete; what a rename in between does is stated for the commands of a run, where a swap may come any time after the marking.
- Restore: requires what Snapshot can produce, a root directory named "/" with names equal to keys and no children of files; on other data the code builds a tree that breaks the server's invariants.
- ToEntry: as Restore, for one snapshot node.
- ReplicateFile: a source too short for FileSize makes the code's loop run for ever; here the connection breaks after a given number of turns, and `CopyEndsIff` says for which sources some number suffices.
- TruncateReplicas, WriteReplicas, CopyToTargets: the replicas are taken one after the other; their calls touch different nodes or paths, so the order in which the goroutines run does not matter.
