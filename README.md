# Operations management suite: deployment engine and component stores

This project models the service layer of an operations management suite. The suite deploys software components to devices and keeps components, projects and snapshots of component file trees. It is written in Dafny and proves properties of that model. The parts modelled are:

- **DeployMetaService** (modules `DeployMeta`, `DeployMetaProofs`):
  - the transfer-job builder `createDeployMeta`;
  - the size accumulator `getTotalFileSize`;
  - the per-device lock `DEPLOYING_DEVICE`;
  - the framed file-transfer session `deployMeta`. For each job it runs an online check, then sends `"fileRecvStart"` and a 255-wide path field. It waits for `'r'`, streams the file in chunks, and waits for `'f'`, re-sending `"fileRecvEnd"` whenever a read times out. After the last job it sends `"DeployEnd"`.

  The session's environment is an input value:
  - the socket reads, each a byte or a timed-out read carrying the elapsed time;
  - which hosts are online;
  - the files, each a sequence of chunk reads;
  - the write that throws, if any;
  - whether the socket cannot be opened.

  What the session does is recorded in output sequences: the frames written to the socket, the progress events published and the log records saved. The loops of `deployMeta` are methods. Each is proved equal to a recursive function, and the properties are lemmas about those functions.
- **ComponentService** (module `Components`): components in a store keyed by id.
  - Saving checks in a fixed order.
  - `getName` appends `(1)`, `(2)`, ... until the name is free.
  - Copy, delete, restore and clean operate on the store.
  - Update changes the fields it is given. `UpdateAsWritten` models the duplicate check of `updateComponentById` as the source writes it. The service class stores the corrected `Update`, which checks the name and version the component ends up with (see "## Findings").
- **ProjectService** (module `Projects`): projects whose names are unique per user.
- **ComponentFileHistoryService** (modules `FileForest`, `ComponentFileHistory`):
  - The snapshot copies a component's file tree into the history store in pre-order, keeping its shape.
  - Export copies the leaves of a snapshot node.
  - The id and by-parent lookups are modelled too.

  A file store is a sequence of nodes. A node's id is its index, and its parent link points to an earlier node.
- **SimEngineService.getSimEngineCmd** (module `SimEngine`): maps a command name to the engine commands published on `CMD_TOPIC1`.

Stores are Dafny maps or sequences held in the fields of a class per service; the service methods update them.

Conventions:
- An exception is a `Failure` of a `Result`.
- A Java `null` string that is only tested with `StringUtils.isEmpty` is the empty string.
- A description that is compared with `equals` is an `Option`.

## Model

| member | source | states |
|---|---|---|
| DeployMeta.CreateDeployMeta | src/main/java/com/rengu/operationsmanagementsuitev3/Service/DeployMetaService.java:54-81 | the nested loops build exactly the job list `AllMetas`: detail after detail, with each detail's files in order and folders skipped |
| DeployMetaProofs.DetailMetasAreNonFolders | src/main/java/com/rengu/operationsmanagementsuitev3/Service/DeployMetaService.java:56-77 | a detail gives one job per non-folder file, in file order. Each job has the detail's device, the target path `formatPath(deployPath + mount + path in tree)` and the file's entity. The mount is the component when `keepLatest` is set, else the snapshot |
| DeployMetaProofs.AllMetasAppend | src/main/java/com/rengu/operationsmanagementsuitev3/Service/DeployMetaService.java:56-79 | the jobs for a list of details are those of each detail, concatenated in argument order |
| DeployMetaProofs.DetailMetasMembers | src/main/java/com/rengu/operationsmanagementsuitev3/Service/DeployMetaService.java:58-77 | a job belongs to a detail's list exactly when it is the job of one of its non-folder files |
| DeployMetaProofs.AllMetasSound | src/main/java/com/rengu/operationsmanagementsuitev3/Service/DeployMetaService.java:54-81 | every job comes from a non-folder file of some detail |
| DeployMetaProofs.AllMetasComplete | src/main/java/com/rengu/operationsmanagementsuitev3/Service/DeployMetaService.java:54-81 | every non-folder file of every detail gives a job |
| DeployMeta.GetTotalFileSize | src/main/java/com/rengu/operationsmanagementsuitev3/Service/DeployMetaService.java:206-212 | the accumulator loop returns 1 plus the sum of the recorded file sizes, so at least 1 |
| DeployMeta.Send | src/main/java/com/rengu/operationsmanagementsuitev3/Service/DeployMetaService.java:116-118 | a write changes neither the bytes sent, nor the events, nor the reads consumed |
| DeployMetaProofs.SendViews | src/main/java/com/rengu/operationsmanagementsuitev3/Service/DeployMetaService.java:116-118 | a write appends its frame, or else it throws: nothing changes and the session is interrupted with the exception's message |
| DeployMeta.PathAck | src/main/java/com/rengu/operationsmanagementsuitev3/Service/DeployMetaService.java:120-135 | the path wait ends only in a way a single job can end |
| DeployMeta.AwaitPathAck | src/main/java/com/rengu/operationsmanagementsuitev3/Service/DeployMetaService.java:120-135 | the `while (true)` poll loop computes the path wait `PathAck` |
| DeployMetaProofs.PathAckSpec | src/main/java/com/rengu/operationsmanagementsuitev3/Service/DeployMetaService.java:120-135 | the first decisive read decides the path wait. A read of 114 goes on. A timed-out read past the deadline fails with the path-reply timeout. With no decisive read the wait is still pending. Any other byte, -1 included, loops. The wait writes and emits nothing |
| DeployMetaProofs.PathAckViews | src/main/java/com/rengu/operationsmanagementsuitev3/Service/DeployMetaService.java:120-135 | the path wait changes only the read position and stops only while pending or on its timeout |
| DeployMeta.Stream | src/main/java/com/rengu/operationsmanagementsuitev3/Service/DeployMetaService.java:137-169 | streaming ends only in a way a single job can end |
| DeployMeta.StreamFile | src/main/java/com/rengu/operationsmanagementsuitev3/Service/DeployMetaService.java:137-169 | the read loop computes `Stream` from the start of the file |
| DeployMetaProofs.ChunkKeeps | src/main/java/com/rengu/operationsmanagementsuitev3/Service/DeployMetaService.java:144-161 | one chunk keeps the session invariant: totalSendSize equals the payload bytes written, and progress is monotone |
| DeployMetaProofs.StreamKeeps | src/main/java/com/rengu/operationsmanagementsuitev3/Service/DeployMetaService.java:139-169 | streaming keeps the invariant: totalSendSize stays the payload bytes written, and each event reports at most totalSendSize / total, never going back |
| DeployMetaProofs.StreamWire | src/main/java/com/rengu/operationsmanagementsuitev3/Service/DeployMetaService.java:139-161 | the frames streaming writes are one payload per chunk read, holding exactly the bytes read, in read order. totalSendSize grows by those bytes. The events are exactly those of `StreamProgress`: after a chunk, one IN_PROGRESS event when the file is over 10 MB and `fileSendSize` is a multiple of ten buffers, reporting totalSendSize / total at that moment |
| DeployMetaProofs.StreamViews | src/main/java/com/rengu/operationsmanagementsuitev3/Service/DeployMetaService.java:139-169 | streaming reads no socket byte, announces no path and reports no success. It stops only on a -1 read or an exception |
| DeployMetaProofs.StreamEvents | src/main/java/com/rengu/operationsmanagementsuitev3/Service/DeployMetaService.java:159-161 | streaming emits only IN_PROGRESS events for its target, and none for a file of at most 10 MB |
| DeployMetaProofs.StreamCompletes | src/main/java/com/rengu/operationsmanagementsuitev3/Service/DeployMetaService.java:140-168 | when nothing throws, streaming completes exactly when the reads cover `file.length()`. Otherwise the -1 read aborts with the read fault |
| DeployMeta.EndAck | src/main/java/com/rengu/operationsmanagementsuitev3/Service/DeployMetaService.java:171-187 | the end wait ends only in a way a single job can end |
| DeployMeta.AwaitEndAck | src/main/java/com/rengu/operationsmanagementsuitev3/Service/DeployMetaService.java:171-187 | the poll loop with its re-sends computes the end wait `EndAck` |
| DeployMetaProofs.EndAckKeeps | src/main/java/com/rengu/operationsmanagementsuitev3/Service/DeployMetaService.java:171-187 | the end wait keeps the invariant, emits nothing and sends no payload |
| DeployMetaProofs.EndAckViews | src/main/java/com/rengu/operationsmanagementsuitev3/Service/DeployMetaService.java:171-187 | the end wait announces no path and emits nothing. It stops only while pending, on its timeout, or when a write throws |
| DeployMetaProofs.EndAckDecided | src/main/java/com/rengu/operationsmanagementsuitev3/Service/DeployMetaService.java:171-187 | only a read of 102 ends the end wait successfully. The first read that is 102, or a timed-out read past the deadline, decides it |
| DeployMetaProofs.EndAckResends | src/main/java/com/rengu/operationsmanagementsuitev3/Service/DeployMetaService.java:177-179 | the frames written are exactly one `"fileRecvEnd"` per timed-out read consumed, less the one whose write threw |
| DeployMeta.Job | src/main/java/com/rengu/operationsmanagementsuitev3/Service/DeployMetaService.java:107-187 | a job ends only in a way a single job can end |
| DeployMeta.Transfer | src/main/java/com/rengu/operationsmanagementsuitev3/Service/DeployMetaService.java:137-188 | the file part of a job ends only in a way a single job can end |
| DeployMeta.RunJob | src/main/java/com/rengu/operationsmanagementsuitev3/Service/DeployMetaService.java:107-190 | the loop body for one job computes `Job` |
| DeployMetaProofs.TransferViews | src/main/java/com/rengu/operationsmanagementsuitev3/Service/DeployMetaService.java:137-188 | after the path acknowledgement a job either completes and reports its success once, or stops with no success reported |
| DeployMetaProofs.TransferSuccessEvent | src/main/java/com/rengu/operationsmanagementsuitev3/Service/DeployMetaService.java:188 | a completed job's last event is its FILE_SUCCEEDED event, reporting the payload bytes on the wire at that moment over total |
| DeployMetaProofs.TransferKeeps | src/main/java/com/rengu/operationsmanagementsuitev3/Service/DeployMetaService.java:137-188 | the file part of a job keeps the session invariant |
| DeployMetaProofs.JobKeeps | src/main/java/com/rengu/operationsmanagementsuitev3/Service/DeployMetaService.java:107-188 | one job keeps the session invariant |
| DeployMetaProofs.JobSpec | src/main/java/com/rengu/operationsmanagementsuitev3/Service/DeployMetaService.java:108-188 | the online check comes first: an offline host stops the session with nothing written for that job. A completed job announces its path once and reports its success once. A job failing on its file has announced its path and reports no success |
| DeployMeta.JobsFrom | src/main/java/com/rengu/operationsmanagementsuitev3/Service/DeployMetaService.java:107-192 | the job loop followed by `"DeployEnd"` always ends the session, never with the admission reject |
| DeployMetaProofs.JobsKeeps | src/main/java/com/rengu/operationsmanagementsuitev3/Service/DeployMetaService.java:107-192 | the job loop keeps the session invariant |
| DeployMetaProofs.JobsSpec | src/main/java/com/rengu/operationsmanagementsuitev3/Service/DeployMetaService.java:107-192 | jobs run in list order. The successes are the first m targets; the announced paths are those m, or m + 1 when job m failed after its path. Offline stops before job m writes. A file failure names job m. A finished loop did every job and wrote `"DeployEnd"` last |
| DeployMeta.Session | src/main/java/com/rengu/operationsmanagementsuitev3/Service/DeployMetaService.java:100-192 | connecting then running the jobs always ends, never with the admission reject |
| DeployMeta.RunSession | src/main/java/com/rengu/operationsmanagementsuitev3/Service/DeployMetaService.java:100-192 | the connect step and the `for` loop over the jobs compute `Session` |
| DeployMetaProofs.SessionKeeps | src/main/java/com/rengu/operationsmanagementsuitev3/Service/DeployMetaService.java:100-192 | the whole session keeps the invariant |
| DeployMetaProofs.SessionSpec | src/main/java/com/rengu/operationsmanagementsuitev3/Service/DeployMetaService.java:100-192 | the order properties of `JobsSpec` hold for the whole session |
| DeployMeta.DeployMetaService.constructor | src/main/java/com/rengu/operationsmanagementsuitev3/Service/DeployMetaService.java:32 | the lock map, the published events and the saved logs start empty |
| DeployMeta.DeployMetaService.DeployMeta | src/main/java/com/rengu/operationsmanagementsuitev3/Service/DeployMetaService.java:83-204 | one call updates the lock map and appends to the events and logs exactly as `Deploy` computes from the lock map before the call |
| DeployMetaProofs.AdmissionReject | src/main/java/com/rengu/operationsmanagementsuitev3/Service/DeployMetaService.java:93-98 | for a host already deploying, the call emits one DEPLOYING_ERROR event at progress 0 and saves one failed log with 0 bytes. It writes no frame and leaves the lock map as it was |
| DeployMetaProofs.LockReleased | src/main/java/com/rengu/operationsmanagementsuitev3/Service/DeployMetaService.java:99-100 | an admitted host is removed again at every ending, so the map after the call equals the map before it. Only a session still waiting holds the host, and no other key changes |
| DeployMetaProofs.OneLog | src/main/java/com/rengu/operationsmanagementsuitev3/Service/DeployMetaService.java:111 | every ending saves exactly one log record (a pending session none yet). The record carries totalSendSize and the total size; it is a success exactly when all jobs were done |
| DeployMetaProofs.DeployBytes | src/main/java/com/rengu/operationsmanagementsuitev3/Service/DeployMetaService.java:150-151 | the payload bytes on the wire equal totalSendSize, the byte count the log records |
| DeployMetaProofs.DeployOrder | src/main/java/com/rengu/operationsmanagementsuitev3/Service/DeployMetaService.java:107-194 | the wire and the successes follow the job list. A finished call announced every job in order and wrote `"DeployEnd"` last. An offline host stopped the call before the next job wrote anything |
| DeployMetaProofs.DeployProgress | src/main/java/com/rengu/operationsmanagementsuitev3/Service/DeployMetaService.java:157-199 | every event but DEPLOY_FINISHED reports at most totalSendSize / (1 + sizes), never going back. DEPLOY_FINISHED is last, only after all jobs, at 100. An error event appears only last, and every failed call ends with one |
| DeployMetaProofs.ErrorProgress | src/main/java/com/rengu/operationsmanagementsuitev3/Service/DeployMetaService.java:94-199 | the error event that ends a failed call is the last event and reports exactly totalSendSize / (1 + sizes) when the call stopped, on the design's topic for the device |
| DeployMetaProofs.ProgressBelowHundred | src/main/java/com/rengu/operationsmanagementsuitev3/Service/DeployMetaService.java:157 | while the bytes sent stay within the recorded sizes, every event before DEPLOY_FINISHED reports less than 100 percent |
| Components.HasByNameVersion | src/main/java/com/rengu/operationsmanagementsuitev3/Service/ComponentService.java:120-125 | false whenever the name or the version is empty, whatever the store. Otherwise true exactly when some stored component has that name, version, deleted flag and project |
| Components.GetById | src/main/java/com/rengu/operationsmanagementsuitev3/Service/ComponentService.java:128-146 | the component exactly when the id is non-empty and stored, else the not-found error naming the id |
| Components.ValidateSave | src/main/java/com/rengu/operationsmanagementsuitev3/Service/ComponentService.java:38-50 | the checks run in order. An empty name fails first, then an empty version, then a live duplicate in the project (with that name and version), then an empty relative path. It passes exactly when all four pass |
| Components.AddKeepsUnique | src/main/java/com/rengu/operationsmanagementsuitev3/Service/ComponentService.java:45-53 | adding a component whose pair is not live in its project keeps live (name, version) pairs unique per project |
| Components.SaveKeepsUnique | src/main/java/com/rengu/operationsmanagementsuitev3/Service/ComponentService.java:38-55 | a save that passes the checks keeps live (name, version) pairs unique per project |
| Components.ComponentService.Save | src/main/java/com/rengu/operationsmanagementsuitev3/Service/ComponentService.java:38-55 | a failed check throws and stores nothing. Otherwise the entity is stored with its path formatted and its project set, and returned |
| Components.Suffixed | src/main/java/com/rengu/operationsmanagementsuitev3/Service/ComponentService.java:159-166 | after k rounds the name still starts with the original and has grown by at least 3k characters. The cumulative `(1)(2)...(k)` suffix form is the definition itself |
| Components.FreshNameHeld | src/main/java/com/rengu/operationsmanagementsuitev3/Service/ComponentService.java:159-166 | a name that is not taken comes back unchanged |
| Components.ComponentService.GetName | src/main/java/com/rengu/operationsmanagementsuitev3/Service/ComponentService.java:159-166 | the loop returns a name that is not taken, of the form name(1)...(k), where every shorter candidate was taken. It terminates for a finite store |
| Components.ComponentService.Copy | src/main/java/com/rengu/operationsmanagementsuitev3/Service/ComponentService.java:58-66 | the copy keeps every field of the source but its name, which `getName` makes free among the live components of that version in the project. An unknown id fails and stores nothing |
| Components.WithDeleted | src/main/java/com/rengu/operationsmanagementsuitev3/Service/ComponentService.java:69-80 | only the `deleted` flag of that component changes; the ids are the same |
| Components.DeleteRestoreIdempotent | src/main/java/com/rengu/operationsmanagementsuitev3/Service/ComponentService.java:69-80 | deleting twice is deleting once, and so is restoring |
| Components.RestoreUndoesDelete | src/main/java/com/rengu/operationsmanagementsuitev3/Service/ComponentService.java:69-80 | restoring a component that was live before its delete gives back the store |
| Components.DeleteKeepsUnique | src/main/java/com/rengu/operationsmanagementsuitev3/Service/ComponentService.java:69-73 | deleting never breaks uniqueness |
| Components.RestoreMayDuplicate | src/main/java/com/rengu/operationsmanagementsuitev3/Service/ComponentService.java:76-80 | restore does not check duplicates: a deleted component comes back beside a live one with its name and version |
| Components.ComponentService.Delete | src/main/java/com/rengu/operationsmanagementsuitev3/Service/ComponentService.java:69-73 | sets the flag of a stored component and returns it; an unknown id fails and changes nothing |
| Components.ComponentService.Restore | src/main/java/com/rengu/operationsmanagementsuitev3/Service/ComponentService.java:76-80 | clears the flag of a stored component and returns it; an unknown id fails and changes nothing |
| Components.ComponentService.Clean | src/main/java/com/rengu/operationsmanagementsuitev3/Service/ComponentService.java:83-87 | removes the component from the store and returns it; an unknown id fails and changes nothing |
| Components.Applied | src/main/java/com/rengu/operationsmanagementsuitev3/Service/ComponentService.java:103-114 | the name, version and relative path are replaced when given non-empty, with the path unformatted. The description is replaced when given non-null. The deleted flag and the project are kept |
| Components.UpdateAsWritten | src/main/java/com/rengu/operationsmanagementsuitev3/Service/ComponentService.java:90-117 | as written: for a stored id, it fails with the duplicate error exactly when the name or version changes and the arguments' own (name, version) is live in the project. It succeeds exactly when that check and the null-description check pass, and then applies the given fields |
| Components.UpdateAsWrittenDuplicates | src/main/java/com/rengu/operationsmanagementsuitev3/Service/ComponentService.java:100-102 | renaming b to a's name without giving a version passes the as-written check and makes two live components share a pair. The corrected update rejects it |
| Components.Update | src/main/java/com/rengu/operationsmanagementsuitev3/Service/ComponentService.java:90-117 | fails for an unknown id. For a stored id, a changed resulting (name, version) that is live in the project fails with the duplicate error naming it. It succeeds exactly when there is no such clash and no null stored description meets a given one, and then the fields are applied. The null-description error arises only in that case |
| Components.UpdateAgreesWhenBothGiven | src/main/java/com/rengu/operationsmanagementsuitev3/Service/ComponentService.java:94-102 | when both name and version are given, the corrected check is the check as written |
| Components.UpdateKeepsUnique | src/main/java/com/rengu/operationsmanagementsuitev3/Service/ComponentService.java:90-117 | a successful corrected update keeps live pairs unique per project |
| Components.ComponentService.UpdateById | src/main/java/com/rengu/operationsmanagementsuitev3/Service/ComponentService.java:90-117 | stores the corrected update's result on success and changes nothing on failure |
| Components.ComponentService.constructor | src/main/java/com/rengu/operationsmanagementsuitev3/Service/ComponentService.java:31-35 | the repository starts empty |
| Projects.HasByNameAndUser | src/main/java/com/rengu/operationsmanagementsuitev3/Service/ProjectService.java:74-79 | false for an empty name. Otherwise true exactly when some stored project has that name and that user |
| Projects.GetById | src/main/java/com/rengu/operationsmanagementsuitev3/Service/ProjectService.java:82-96 | the project exactly when the id is non-empty and stored, else the not-found error naming the id |
| Projects.AddKeepsUnique | src/main/java/com/rengu/operationsmanagementsuitev3/Service/ProjectService.java:41-45 | adding a project whose name its user does not hold keeps names unique per user |
| Projects.Save | src/main/java/com/rengu/operationsmanagementsuitev3/Service/ProjectService.java:37-46 | an empty name fails first, then a name the user already holds. Otherwise the project comes back with its user set |
| Projects.SaveKeepsUnique | src/main/java/com/rengu/operationsmanagementsuitev3/Service/ProjectService.java:37-46 | a successful save keeps names unique per user |
| Projects.Update | src/main/java/com/rengu/operationsmanagementsuitev3/Service/ProjectService.java:58-70 | fails for an unknown id. For a stored id, a non-empty different name the owner already holds fails with the name error. It succeeds exactly when there is no such clash and no null stored description meets a given one. On success the name is replaced only when given non-empty, the description only when given, and the owner is kept |
| Projects.UpdateKeepsUnique | src/main/java/com/rengu/operationsmanagementsuitev3/Service/ProjectService.java:58-70 | a successful update keeps names unique per user |
| Projects.ProjectService.constructor | src/main/java/com/rengu/operationsmanagementsuitev3/Service/ProjectService.java:31-34 | the repository starts empty |
| Projects.ProjectService.SaveByUser | src/main/java/com/rengu/operationsmanagementsuitev3/Service/ProjectService.java:37-46 | stores the saved project on success and changes nothing on failure |
| Projects.ProjectService.UpdateById | src/main/java/com/rengu/operationsmanagementsuitev3/Service/ProjectService.java:58-70 | stores the updated project on success and changes nothing on failure |
| Projects.ProjectService.DeleteById | src/main/java/com/rengu/operationsmanagementsuitev3/Service/ProjectService.java:49-54 | removes a stored project and returns it; an unknown id fails and changes nothing |
| FileForest.Kids | src/main/java/com/rengu/operationsmanagementsuitev3/Service/ComponentFileHistoryService.java:82-85 | the repository query by parent and owner: exactly the nodes with that parent and owner, in store order |
| FileForest.PreOrder | src/main/java/com/rengu/operationsmanagementsuitev3/Service/ComponentFileHistoryService.java:53-63 | the walk the recursion from node i follows starts at i and stays within the store |
| FileForest.TreeExact | src/main/java/com/rengu/operationsmanagementsuitev3/Service/ComponentFileHistoryService.java:53-63 | the walk from node i visits exactly the nodes of its subtree, each once |
| FileForest.RootsExact | src/main/java/com/rengu/operationsmanagementsuitev3/Service/ComponentFileHistoryService.java:46-50 | the walk over the roots of a component visits exactly the nodes hanging from a root of it, each once |
| FileForest.RootedWhenConsistent | src/main/java/com/rengu/operationsmanagementsuitev3/Service/ComponentFileHistoryService.java:46-50 | when every parent belongs to its child's component, that is every node of the component |
| ComponentFileHistory.CopyTree | src/main/java/com/rengu/operationsmanagementsuitev3/Service/ComponentFileHistoryService.java:53-63 | the copy only appends to the history store |
| ComponentFileHistory.CopyForest | src/main/java/com/rengu/operationsmanagementsuitev3/Service/ComponentFileHistoryService.java:60-62 | copying several subtrees only appends to the history store |
| ComponentFileHistory.CopyTreeShape | src/main/java/com/rengu/operationsmanagementsuitev3/Service/ComponentFileHistoryService.java:53-63 | one copy per node of the pre-order walk of the subtree. Each copy carries the source properties and the target snapshot. The first copy stands under the given parent, every other under the earlier copy of its source parent |
| ComponentFileHistory.CopyForestShape | src/main/java/com/rengu/operationsmanagementsuitev3/Service/ComponentFileHistoryService.java:60-62 | the same shape for a list of sibling subtrees copied in turn |
| ComponentFileHistory.SnapshotExact | src/main/java/com/rengu/operationsmanagementsuitev3/Service/ComponentFileHistoryService.java:46-63 | a snapshot makes exactly one copy per source node hanging from a root of the component, in pre-order. Roots get a null parent, and every other node is saved after the copy of its parent, under it |
| ComponentFileHistory.ComponentFileHistoryService.constructor | src/main/java/com/rengu/operationsmanagementsuitev3/Service/ComponentFileHistoryService.java:40-43 | the history repository starts empty and well formed |
| ComponentFileHistory.ComponentFileHistoryService.SaveByComponentFile | src/main/java/com/rengu/operationsmanagementsuitev3/Service/ComponentFileHistoryService.java:53-63 | the recursive save leaves the store as `CopyTree` gives it and keeps parent links pointing backwards |
| ComponentFileHistory.ComponentFileHistoryService.SaveByComponent | src/main/java/com/rengu/operationsmanagementsuitev3/Service/ComponentFileHistoryService.java:46-50 | the loop over the roots leaves the store as the copy of the component's root forest under a null parent |
| ComponentFileHistory.ComponentFileHistoryService.HasById | src/main/java/com/rengu/operationsmanagementsuitev3/Service/ComponentFileHistoryService.java:66-71 | true exactly for a non-empty id of a stored entity |
| ComponentFileHistory.ComponentFileHistoryService.GetById | src/main/java/com/rengu/operationsmanagementsuitev3/Service/ComponentFileHistoryService.java:74-79 | the entity exactly when it exists, else the not-found error naming the id |
| ComponentFileHistory.ComponentFileHistoryService.ByParent | src/main/java/com/rengu/operationsmanagementsuitev3/Service/ComponentFileHistoryService.java:82-85 | an empty or unknown parent id means the roots of the snapshot; otherwise the children of that entity |
| ComponentFileHistory.LeafCopiesMembers | src/main/java/com/rengu/operationsmanagementsuitev3/Service/ComponentFileHistoryService.java:106-113 | each non-folder node of a walk has its copy, and every copy is one of those |
| ComponentFileHistory.ExportTreeWalk | src/main/java/com/rengu/operationsmanagementsuitev3/Service/ComponentFileHistoryService.java:104-115 | when only folders have children, exporting a node copies the non-folder nodes of its pre-order walk, in order |
| ComponentFileHistory.ExportExact | src/main/java/com/rengu/operationsmanagementsuitev3/Service/ComponentFileHistoryService.java:104-115 | export copies each leaf of the subtree exactly once, to dir + separator + its relative path, and no folder |
| ComponentFileHistory.ComponentFileHistoryService.Export | src/main/java/com/rengu/operationsmanagementsuitev3/Service/ComponentFileHistoryService.java:104-115 | a file is copied alone. When only folders have children, the copies are the leaves of the subtree in pre-order |
| ComponentFileHistory.ComponentFileHistoryService.ExportById | src/main/java/com/rengu/operationsmanagementsuitev3/Service/ComponentFileHistoryService.java:88-101 | an unknown id fails. A folder is exported into a fresh temp directory and compressed to a timestamped zip. A file is copied to temp + separator + name.type |
| SimEngine.GetSimEngineCmd | src/main/java/com/rengu/operationsmanagementsuitev3/Service/SimEngineService.java:31-67 | start, stepThrough and stepSize map to START, suspend to SUSPEND, recover to RECOVER and stop to STOP. Anything else fails before sending. stepThrough and stepSize send START then SUSPEND, the rest exactly one command, all on CMD_TOPIC1 |

## Left out

- Sockets, streams and files are not modelled as I/O. The socket reads, the online list, the file reads and the write that throws are inputs (`DeployMeta.Env`). The frames, progress events and log records are output sequences. `FileUtils.copyFile` is a `FileCopy` value.
- `socket.setSoTimeout(500)` and `System.currentTimeMillis()` are folded into the read trace: a timed-out read carries the elapsed time since the wait began. `REPLY_TIME_OUT` and `FILE_READ_BUFFER_SIZE` are a `Config` parameter.
- Send speed and the floating-point progress are left out. Progress is the exact ratio `totalSendSize / total`, where an event with `Percent(n, d)` means 100·n/d percent. The DEPLOY_FINISHED event carries the literal 100, modelled as `Percent(1, 1)`.
- The race between `containsKey` and `put` on `DEPLOYING_DEVICE` is not modelled, because concurrent calls are out of scope. Admission is one sequential step.
- A read trace that runs out while the session waits for an acknowledgement is the outcome `Pending`: the Java call has not returned yet. Such a session still holds the lock and has saved no log.
- Failures of `flush` and of the `@Cleanup` closes are not modelled; only writes, reads, opening the socket and opening a file can throw.
- The text of the messages (`ApplicationMessages`, the Chinese log texts, `FilenameUtils.getName`) is not modelled. Messages are constructors naming their kind and their data.
- `FormatUtils.formatPath` is a function parameter. The path a file has inside its tree is a precomputed field. `FormatUtils.getString(path, 255)` is the frame `PathField(path, 255)`, and the relative path of a history node is a function parameter. None of these helpers is part of this model.
- DeployLogService, SimpMessagingTemplate and the component and history file repositories are not modelled beyond what the services hand them. Spring Data repositories, `@Transactional`, `@Cacheable` and `@CacheEvict` are maps or sequences updated in place.
- The order in which a repository query returns rows is taken to be store order. For `findByParentNodeAndComponentEntity` this is the order of ids, that is of indices.
- Generated ids, `UUID.randomUUID()` and `System.currentTimeMillis()` in export names are parameters: `id`, `freshId`, `token` and `stamp`.
- Component file history ids are indices of the store, and `None` is an empty or null id. Every parent link points to an earlier node (`FileForest.WellFormed`). This holds of any store built by saves, and it rules out cycles in the source tree.
- ComponentFileHistory.ComponentFileHistoryService.Export: the pre-order equality is proved only for stores where only folders have children. Without that, the walk below a non-folder node differs from what export visits; that a lone file is copied alone is proved regardless.
- Zip compression in `exportComponentFileHistoryById` is not modelled: the result names the export directory and the zip file.
- `componentFileService.copyComponentFileByComponent`, which copies a component's files when it is copied, is not part of this model.
- `getComponents`, `getComponentsByDeletedAndProject`, `countComponentsByDeletedAndProject` and the other paging queries are not modelled, because they only read the repository.
- DeployMetaProofs.StreamKeeps: bounds each event's numerator by totalSendSize rather than equating it; DeployMetaProofs.StreamWire states the exact numerators and the frames.
- DeployMetaProofs.StreamEvents: states only which kind of event streaming emits and that a file of at most 10 MB emits none; when each event comes, after a chunk that brings the file's bytes sent to a multiple of ten buffers, is stated by DeployMetaProofs.StreamWire.
- DeployMetaProofs.DeployProgress: bounds the numerators of earlier events rather than equating them; the exact values at emission are stated by DeployMetaProofs.StreamWire, DeployMetaProofs.TransferSuccessEvent and DeployMetaProofs.ErrorProgress.
- Components.ComponentService.UpdateById: runs the corrected duplicate check of `Components.Update`, not the check as written. On the input of the Findings row it rejects the rename with the duplicate error and keeps the store, where `updateComponentById` as written saves a second live component with that name and version. The as-written behaviour is the function `Components.UpdateAsWritten`, shown by `Components.UpdateAsWrittenDuplicates`.
- Components.ComponentService.GetName: Java's `int` index could overflow after 2^31 rounds. Unbounded naturals are used instead, because a store that large is not reachable.
- In `updateComponentById` a null stored name, version or relative path compared with `equals` would throw. These fields are never empty for a saved component, so that case is not modelled; only the null description is.
- The NATS connection, the protobuf builder and the subscribe handlers of SimEngineService are not modelled. The enum ordinals are not part of this model, and a command is one of four constructors. The 2-second `Thread.sleep` before the suspend is dropped.
- SimEngineController is a thin HTTP wrapper and is not part of this model.

## Findings

| source | as written | input that shows it | evidently intended | confidence | as-written member | corrected member |
|---|---|---|---|---|---|---|
| src/main/java/com/rengu/operationsmanagementsuitev3/Service/ComponentService.java:100-102 | the duplicate check looks up the name and version from the arguments, so a rename that leaves the version empty looks up (name, "") and always passes | store a = ("x", "1") and b = ("y", "1"), both live in project P; update b with name "x" and no version; b becomes ("x", "1") beside a | check the name and version the component will have after the update | not executed; medium (the check as written is clear, the intent is inferred from saveComponentByProject) | Components.UpdateAsWritten, Components.UpdateAsWrittenDuplicates | Components.Update, Components.UpdateKeepsUnique |
