# Verified models of the document management server

The server keeps a catalogue of folders and files in a database, the file bytes in a cache
and on a NAS, and does the slow half of its work in job workers. This project models the
parts of it whose behaviour is hard to see from the code alone, and proves what they keep.
`dafny verify dfyconfig.toml` checks all of it.

| files | what they model |
|---|---|
| `LockTable`, `LockProtocol`, `LockSafety`, `LockProgress`, `FileLockManager` | the per-key read/write locks of the storage adapters: the table as a value, the step system of any number of tasks, and the class that updates the table in place |
| `SqlText`, `SqlStatement`, `PathUtil`, `FolderTree`, `FolderRewrite`, `FolderCommands` | the folder tree with materialised paths, including the SQL `LIKE` and `REPLACE` of the bulk path update and how the database reads its text |
| `NasNaming`, `NasSync`, `NasConflict`, `NasRetry`, `NasWitness`, `NasCatalogue`, `NasJobs`, `FileSync` | how NAS keys are formed and taken apart; the two-step protocol between database and NAS; two files on their way to one key; a job delivered again after a crash; concrete runs that go wrong; the catalogue entry and its key; where one job ends and what leases mean for it; the operations in place |
| `MultipartImage`, `MultipartUpload`, `RangeDownload` | the three ways the parts of an upload are read: chunked NAS upload, cache merge, ranged download |
| `UploadQueue`, `UploadQueueSafety`, `UploadQueueOrder`, `UploadQueueLimit`, `UploadQueueLife`, `UploadQueueSessions`, `UploadQueueService` | admission control, the waiting line for uploads, and whose session is whose |
| `DepartmentImport`, `DepartmentClosure`, `DepartmentForest`, `DepartmentHierarchy` | importing the organisation and building its hierarchy |
| `SharePairs`, `ShareRequests`, `RefreshTokens`, `BufferedWriter`, `RouteShadow` | share requests, refresh-token families, the buffered log writer, the route conflict detector |
| `JsStrings`, `Wrappers` | string operations of the source language; Option and Result |

Repositories are maps or lists held by the model, a clock reading is a parameter, and fresh
ids are counters. A call of a service is one atomic step, except where the interleaving is
the point: lock acquisition, NAS jobs, chunk completion and log flushes are cut at their
awaits. The lock library is specified as: a read lock is granted iff there is no writer, a
write lock iff the lock is idle.

## What the proofs found

These are places where the code does not do what its comments, or the other half of the
code, suggest. Each is stated as an exact condition or with a concrete witness.

- The bulk path update matches `LIKE old%` without a separator and replaces every occurrence
  of the old path (`src/infra/database/repositories/folder.repository.ts:175-190`), so
  renaming `a` next to a sibling `ab` changes the sibling's path, and renaming `a` to `ab`
  rewrites the renamed folder once more. The variant with a separator
  (`src/domain/folder/service/folder-domain.service.ts`, lines 282 and 346) is not the one
  the commands call. `FolderRewrite.RenameExact` and `MoveExact` give the condition.
- The same update writes both paths between apostrophes into the statement. It means what is
  intended iff neither path has an apostrophe (`SqlStatement.StatementExact`); with a single
  one the rename or move fails (`SqlStatement.OldSingleFails`, `NewSingleFails`), with two in
  a row it can go wrong (`FolderRewrite.ApostropheBreaks`); writing each twice would do
  (`SqlStatement.DoublingSuffices`).
- The folder commands refuse neither a create without parent nor a rename, move or deletion
  of the root; the circularity test on path strings does not recognise descendants of the
  root. `FolderCommands.RunExact` says which runs keep a correct tree.
- The NFS adapter reports a missing file by an exception without a `code`
  (`src/infra/storage/nas/nfs-nas.adapter.ts:294-333`), so the workers' ENOENT branch is never
  taken: a crash between the NAS move and the record save leaves the record SYNCING for good
  (`NasRetry.StuckForever`, `NasWitness.StuckMove`). It also locks source and target, so a
  rename to the same name waits for itself (`NasWitness.StuckRename`).
- A job whose run died after the record save is delivered again. The move and trash handlers
  recognise it as done; the rename handler compares with the service's key, which has no
  directory, and so recognises it only for keys without one (`NasRetry.GuardExact`). Such
  a rename, delivered again, moves whatever file has come to the old key meanwhile over the
  renamed one (`NasWitness.RedeliveryClash`).
- Two pending jobs can aim at one key: the request is harmless iff no other file claims the
  key it ends at (`NasConflict.FreeExact`). The duplicate check does not ensure that, since
  it compares the type and the millisecond of creation, which the key does not hold
  (`NasWitness.SameSecondClash`).
- A move whose target folder went to the trash before its transaction is taken back, which
  puts the file next to a duplicate if another file has taken its old place
  (`NasSync.DistinctExact`, `NasWitness.RevertDuplicates`). It loses no bytes, because a
  folder that a file is moving to is not empty (`NasSync.TrashedKeeps`).
- The trash handler postpones a job whose file is leased. When leases are taken in one step
  no run ever gets there: the deletion was refused while there was a lease, and a SYNCING
  file gets no new one (`NasJobs.NeverPostponed`).
- A file cannot be moved into the folder it is in: the duplicate check of a move finds the
  file itself (`NasSync.SameFolderRefused`).
- Chunked assembly misplaces bytes unless every chunk begins where its parts begin
  (`MultipartImage.LayoutExact`); equal parts do iff their size divides the chunk size or
  they all go into one chunk (`MultipartUpload.EqualPartsExact`).
- A waiting upload ticket counts against its own user's limit, so a user's READY tickets stay
  below the limit, nobody is ever promoted unless the limit is at least two
  (`UploadQueueLimit.ReadyIffUsable`), and a user with a full allowance of tickets blocks the
  head of the line. Sessions opened at once are never counted.
- Nothing checks a share request for repeated files or targets; such a request shares a pair
  twice when it is approved or created directly (`SharePairs.RunExact` says which runs stay
  correct, `SharePairs.TwiceFromNothing` is a concrete one that does not). Bulk approval
  re-checks a request while it is still pending and so refuses every request that names a
  file and a target.
- Reuse of an exchanged refresh token is noticed only while its expired row has not been
  cleaned up (`RefreshTokens.ReuseNoticed`).

## Model

| member | source | states |
|---|---|---|
| LockTable.GetOrCreate | src/infra/storage/file-lock.manager.ts:148-156 | the key's entry exists afterwards and gained one reference; no other key's entry changed |
| LockTable.Release | src/infra/storage/file-lock.manager.ts:171-179 | the captured entry is unlocked under whatever key stores it, the entry stored under the key loses a reference, nothing else changes; all cases of captured and stored entry |
| LockTable.Cleanup | src/infra/storage/file-lock.manager.ts:184-195 | exactly the keys with reference count zero are forgotten |
| FileLockManager.ReleaseFunction.Run | src/infra/storage/file-lock.manager.ts:171-179 | the first run unlocks and decrements, every later run changes nothing |
| FileLockManager.Manager.GetOrCreateLock | src/infra/storage/file-lock.manager.ts:148-156 | the object does to its map and entries what the table function says, and returns that entry |
| FileLockManager.Manager.DecrementRef | src/infra/storage/file-lock.manager.ts:161-166 | goes through the key; no entry under the key, no change |
| FileLockManager.Manager.Cleanup | src/infra/storage/file-lock.manager.ts:184-195 | the deleting loop equals the table cleanup and counts what it removed |
| LockSafety.StepKeeps | src/infra/storage/file-lock.manager.ts:41-195 | every step of every task keeps: entry state and reference count equal what the tasks hold and wait for, closures refer to stored entries |
| LockSafety.ReachableInv | src/infra/storage/file-lock.manager.ts:41-195 | so does every reachable state of any number of tasks |
| LockSafety.Exclusion | src/infra/storage/file-lock.manager.ts:41-73 | two locks held on one key are both read locks |
| LockSafety.TableSafety | src/infra/storage/file-lock.manager.ts:148-195 | reference count is holders plus waiters; every closure's entry is the stored one and survives cleanup |
| LockSafety.SweepKeeps | src/infra/storage/file-lock.manager.ts:184-195 | a cleanup at any moment keeps the invariant: it never removes an entry in use |
| LockSafety.EndOfCall | src/infra/storage/file-lock.manager.ts:81-143 | a multi-key call that times out part-way, or is released, takes back exactly its own locks and references on every key |
| LockProgress.SortedSorts | src/infra/storage/file-lock.manager.ts:81-105 | the keys are taken in ascending order, none lost |
| LockProgress.WriteMultipleAscends | src/infra/storage/file-lock.manager.ts:81-105 | the requests ascend strictly iff the given keys are distinct |
| LockProgress.ReadWriteAscends | src/infra/storage/file-lock.manager.ts:114-143 | the same for the read-write pair |
| LockProgress.RequestsExact | src/infra/storage/file-lock.manager.ts:41-143 | a call requests exactly what it was asked for: a write lock for every key given, as often as given; a read lock on the one and a write lock on the other key |
| LockProgress.CallHolds | src/infra/storage/file-lock.manager.ts:41-143 | in every reachable state a task that holds its whole call has each lock asked for: nobody else holds a lock on a key to write, or a write lock on a key to read |
| LockProgress.GrantExact | src/infra/storage/file-lock.manager.ts:41-73 | a waiting request can be granted iff all locks held on its key are read locks and it asks for one |
| LockProgress.DeadlockFree | src/infra/storage/file-lock.manager.ts:81-143 | for any number of tasks with distinct keys per call, in every reachable state with a waiter some task can go on without a timeout |
| LockProgress.RepeatStaysStuck | src/infra/storage/file-lock.manager.ts:81-143 | a call that repeats a key never gets past the repetition |
| LockProgress.GrantedIffDistinct | src/infra/storage/file-lock.manager.ts:81-143 | a non-empty call can be granted in some run iff its keys are distinct |
| SqlText.LikePlainPrefix | src/infra/database/repositories/folder.repository.ts:175-190 | a prefix pattern without wildcard characters matches exactly the strings with that prefix |
| SqlText.ReplaceFixed | src/infra/database/repositories/folder.repository.ts:175-190 | REPLACE leaves a string alone iff the old text does not occur in it |
| PathUtil.BuildPathRoundTrip | src/common/utils/path.util.ts:27-84 | name and parent come back out of a built path |
| PathUtil.BuildPathValid | src/common/utils/path.util.ts:27-107 | a valid parent and a slash-free name build a valid path |
| PathUtil.TakenApart | src/common/utils/path.util.ts:42-74 | a valid path is built from its parent, which is valid, and its name; the root has neither |
| PathUtil.ValidPathExact | src/common/utils/path.util.ts:27-107 | the valid paths are the root and what is built on valid paths with non-empty slash-free names |
| SqlStatement.StatementExact | src/infra/database/repositories/folder.repository.ts:175-189 | the text of the update is read as REPLACE of the old by the new path iff neither contains an apostrophe |
| SqlStatement.OldSingleFails | src/infra/database/repositories/folder.repository.ts:175-189 | one apostrophe in the old path: the text is not of this form |
| SqlStatement.NewSingleFails | src/infra/database/repositories/folder.repository.ts:175-189 | the same for one in the new path |
| SqlStatement.DoublingSuffices | src/infra/database/repositories/folder.repository.ts:175-189 | with every apostrophe written twice it would be read as intended for all paths |
| FolderTree.NameExact | src/business/folder/folder-command.service.ts:542-570 | a folder name is valid iff something of it is left by trimming, it has at most 255 characters, and none of the nine forbidden ones |
| FolderTree.PathsDistinct | src/business/folder/folder-command.service.ts:106-163 | in a correct tree no two active folders share a path |
| FolderTree.Acyclic | src/business/folder/folder-command.service.ts:300-415 | in a correct tree parent pointers form no cycle |
| FolderTree.CircularTestExact | src/business/folder/folder-command.service.ts:300-345 | the string test holds iff the target is the folder or a descendant; for the root it misses every descendant |
| FolderRewrite.RelocateExact | src/infra/database/repositories/folder.repository.ts:175-190 | putting a folder elsewhere by a statement the database accepts leaves a correct tree iff the rewrite is exact: on every active path it does what the tree needs |
| FolderRewrite.PlainExact | src/infra/database/repositories/folder.repository.ts:175-190 | for paths without apostrophes the statement is accepted and the rewrite is exact iff the old path occurs in active paths only as the front of its own subtree |
| FolderRewrite.ApostropheBreaks | src/infra/database/repositories/folder.repository.ts:175-190 | a concrete folder with two apostrophes in its name, whose accepted rename breaks the tree below it |
| FolderRewrite.RenameExact | src/business/folder/folder-command.service.ts:185-285 | a rename that passes its checks, the database's included, keeps the tree iff the folder is not the root and the rewrite is exact |
| FolderRewrite.MoveExact | src/business/folder/folder-command.service.ts:300-415 | the same for a move |
| FolderRewrite.CreateExact | src/business/folder/folder-command.service.ts:106-163 | a create that passes its checks keeps the tree iff it names a parent |
| FolderRewrite.TrashExact | src/business/folder/folder-command.service.ts:422-535 | trashing an empty folder keeps the tree iff it is not the root |
| FolderRewrite.RenameOwnRow | src/business/folder/folder-command.service.ts:220-234 | the renamed folder's own row comes out right iff the new name does not extend the old one (paths without apostrophes) |
| FolderRewrite.SiblingBlocks | src/infra/database/repositories/folder.repository.ts:175-190 | a sibling whose name extends the folder's name always spoils the rewrite (paths without apostrophes) |
| FolderRewrite.ExtensionBreaks | src/infra/database/repositories/folder.repository.ts:175-190 | an accepted rename to a name that extends the old one breaks the tree (paths without apostrophes) |
| FolderRewrite.SiblingBreaks | src/infra/database/repositories/folder.repository.ts:175-190 | so does any accepted rename of a folder whose name a sibling's name extends (paths without apostrophes) |
| FolderRewrite.RenameBreaksSibling | src/infra/database/repositories/folder.repository.ts:175-190 | a concrete tree of two siblings that one rename breaks |
| FolderCommands.StepExact | src/business/folder/folder-command.service.ts:106-535 | from a correct tree a command leads to a correct tree iff it is refused or safe |
| FolderCommands.RunExact | src/business/folder/folder-command.service.ts:106-535 | all states of a run are correct trees iff every command is refused or safe when it comes |
| FolderCommands.AcceptedExact | src/business/folder/folder-command.service.ts:106-535 | which creates, renames, moves and deletions go through, from names, states, storage rows and counts |
| FolderCommands.RefusedForCause | src/business/folder/folder-command.service.ts:106-535 | every refusal names a defect that is there |
| FolderCommands.FolderEffect | src/business/folder/folder-command.service.ts:106-535 | an accepted create adds an active folder, a rename sets the name, a move the parent, a deletion the state of its own folder; paths apart nothing else changes |
| FolderCommands.StorageExact | src/business/folder/folder-command.service.ts:237-242 | an accepted command changes its own folder's storage row only: SYNCING afterwards, AVAILABLE once the worker is done, the key kept by a deletion |
| FolderCommands.KeyIsPath | src/business/folder/folder-command.service.ts:237-242 | after a safe create, rename or move of a correct tree the folder's storage key is its path |
| FolderCommands.BusyUntilDone | src/business/folder/folder-command.service.ts:185-535 | over runs, a SYNCING folder is refused every rename, move and deletion until the worker is done with it |
| FolderCommands.FolderCommandService.CreateFolder | src/business/folder/folder-command.service.ts:106-163 | the stored rows become those of the specified command, with the specified refusal |
| FolderCommands.FolderCommandService.RenameFolder | src/business/folder/folder-command.service.ts:185-285 | the same for the rename |
| FolderCommands.FolderCommandService.MoveFolder | src/business/folder/folder-command.service.ts:300-415 | the same for the move |
| FolderCommands.FolderCommandService.DeleteFolder | src/business/folder/folder-command.service.ts:422-535 | the same for the deletion |
| NasNaming.TrashRestoreExact | src/business/worker/handlers/file-restore.handler.ts:120-137 | restore finds the original NAS name iff the trash id does not run into the separator; the name may contain it |
| NasNaming.TrashRestoreRoundTrip | src/business/file/file-manage.service.ts:453-456 | trash then restore lands at the folder path plus the original name |
| NasNaming.UnmarkedKept | src/business/worker/handlers/file-restore.handler.ts:120-137 | a trash name without separator is restored whole |
| NasNaming.RenameKey | src/business/worker/handlers/file-rename.handler.ts:81-120 | a rename through service and worker keeps directory (or none) and timestamp and sets the name, `null` prefix included |
| NasNaming.RenamesKeepKey | src/business/worker/handlers/file-rename.handler.ts:81-120 | over any sequence of renames every key on the way is dir/timestamp__ followed by the name last given |
| NasNaming.RenameAnyKey | src/business/worker/handlers/file-rename.handler.ts:81-120 | for keys in any form a rename keeps directory and prefix and sets the name, with an underscore in front iff the key has fourteen characters, no separator and ends in an underscore |
| NasNaming.PrefixExact | src/business/worker/handlers/file-rename.handler.ts:93-120 | a file name is its prefix, separator and rest: up to the first double underscore, else up to the first underscore behind ten digits or more, else no prefix |
| NasNaming.SlashNotKept | src/business/file/file-manage.service.ts:122-127 | a new name with a slash never becomes the key's name |
| NasNaming.SameKeyIffSameName | src/business/worker/handlers/file-rename.handler.ts:44-90 | source and target of a rename coincide iff the name is unchanged |
| NasNaming.ServiceKeyFinal | src/business/worker/handlers/file-rename.handler.ts:44-50 | the key the service records is already the final one iff the file's key has no directory |
| NasNaming.MoveKeepsBase | src/business/file/file-manage.service.ts:284-290 | a move keeps the timestamped file name |
| NasSync.WorkKeeps | src/business/worker/handlers/file-move.handler.ts:30-97 | a worker run, dead at any point (in the middle of a copy between devices too), delivered again, or taken back because the target folder has gone, keeps every file's bytes at the keys it claims and no two claims overlapping |
| NasSync.EnqueueKeeps | src/business/file/file-manage.service.ts:98-129 | so does a request that claims no key another file claims |
| NasSync.TrashedKeeps | src/business/folder/folder-command.service.ts:453-474 | so does trashing a folder, which is refused while an active file is in it: no job changes its course |
| NasSync.RunsAreSound | src/business/worker/handlers/file-trash.handler.ts:30-66 | over every interleaving of requests, leases, folder deletions and worker runs, an available file's bytes are at its key and nowhere else, and none are lost |
| NasSync.DistinctExact | src/infra/database/repositories/file.repository.ts:115-141 | over a run no two active files ever agree in folder, name, type and creation time iff no move is taken back onto a place taken meanwhile |
| NasSync.SameFolderRefused | src/business/file/file-manage.service.ts:578-602 | a move into the file's own folder is refused in every state |
| NasCatalogue.RequestEffect | src/business/file/file-manage.service.ts:99-129 | an accepted rename sets the trimmed name, a move the folder, a deletion the state; every other column, every other file, the bytes and the leases stay |
| NasCatalogue.AcceptedExact | src/business/file/file-manage.service.ts:69-526 | which renames, moves and deletions of files go through, from state, job, name, extension, leases and the other entries |
| NasCatalogue.RefusedForCause | src/business/file/file-manage.service.ts:69-526 | every refusal names a defect that is there |
| NasCatalogue.ExtensionIs | src/business/file/file-manage.service.ts:630-640 | the extension is the text behind the last dot, if it is neither first nor last |
| NasCatalogue.LowerCaseExact | src/business/file/file-manage.service.ts:617-620 | extensions agree iff they differ in the case of letters only |
| JsStrings.TrimExact | src/business/file/file-manage.service.ts:610 | trimming takes white space away at both ends and leaves none there |
| NasJobs.RenameEnds | src/business/worker/handlers/file-rename.handler.ts:27-75 | an accepted rename at dir/timestamp__old ends, after one complete run, at dir/timestamp__ followed by the entry's new name, bytes and record |
| NasCatalogue.RunsMatch | src/business/worker/handlers/file-rename.handler.ts:81-120 | over every interleaving the key of a file at rest, and the key any job ends at, is some directory, the file's timestamp and the name in its catalogue entry |
| NasJobs.MoveEnds | src/business/worker/handlers/file-move.handler.ts:30-97 | an accepted move into a folder that is still there ends, after one complete run, below its path under the same timestamp and name, bytes and record |
| NasJobs.DeleteEnds | src/business/worker/handlers/file-trash.handler.ts:30-66 | an accepted deletion ends at .trash/id__base, from where a restore into any folder finds the base name again |
| NasJobs.CrashPoints | src/business/worker/handlers/file-move.handler.ts:30-97 | what each crash leaves of the complete run: nothing; a copy; bytes and a folder put back but the record as it was; all but the acknowledgement |
| NasJobs.LeasedWaits | src/business/worker/handlers/file-trash.handler.ts:30-66 | a trash job changes nothing while the file is leased |
| NasJobs.LeaseCounts | src/business/file/file-manage.service.ts:385-459 | a lease taken is counted until given back, and a deletion is refused as long |
| NasJobs.NeverPostponed | src/business/worker/handlers/file-trash.handler.ts:30-66 | over every run from states without such a lease the trash handler never finds one: a file on its way is leased to nobody |
| NasJobs.TrashedExact | src/business/folder/folder-command.service.ts:453-474 | a folder goes to the trash iff no active file is in it; files and bytes stay |
| NasConflict.FreeExact | src/business/file/file-manage.service.ts:262-290 | a request is harmless under all later worker runs iff no other file claims a key that it claims |
| NasConflict.FreeIsTarget | src/business/file/file-manage.service.ts:262-290 | that is: iff no other file claims its target key, or it is a move to a folder that has gone already |
| NasRetry.RetryExact | src/business/worker/handlers/file-move.handler.ts:47-90 | interrupted runs and one more equal one clean run iff the port reports ENOENT, or none of them got past the NAS move, or the first that did saved the record under the key the handler knows as done |
| NasRetry.RevertExact | src/business/worker/handlers/file-move.handler.ts:53-70 | a move whose target folder has gone is taken back by any interrupted runs and one more, through either port: catalogue and record are as before the request |
| NasRetry.GuardExact | src/business/worker/handlers/file-rename.handler.ts:44-52 | the move and trash handlers always know their finished job, the rename handler iff the key has no directory |
| NasRetry.StuckForever | src/infra/storage/nas/nfs-nas.adapter.ts:294-333 | through the NFS adapter, after a crash in between, the record never changes again and every later request is refused |
| NasRetry.RedeliveredForever | src/business/worker/handlers/file-rename.handler.ts:44-75 | after a crash behind the save, a job whose guard misses is delivered in vain forever, its record and bytes being right |
| NasRetry.SameKeyJob | src/infra/storage/nas/nfs-nas.adapter.ts:294-333 | a job with equal keys never ends through the NFS adapter |
| NasWitness.SameSecondClash | src/business/file/file-manage.service.ts:262-290 | two concrete files of one name and second: an accepted move whose run destroys the other file |
| NasWitness.StuckMove | src/infra/storage/nas/nfs-nas.adapter.ts:294-333 | a concrete accepted move that stays SYNCING after a crash in between |
| NasWitness.StuckRename | src/infra/storage/nas/nfs-nas.adapter.ts:294-333 | a concrete accepted rename to the same name that stays SYNCING under all runs |
| NasWitness.RedeliveryClash | src/business/worker/handlers/file-rename.handler.ts:44-75 | a concrete renamed file, saved but not acknowledged, and an accepted move to its old key after which worker runs lose bytes |
| NasWitness.RevertDuplicates | src/business/worker/handlers/file-move.handler.ts:53-70 | two files that differ in their folders only: two accepted moves after which taking the first back makes them duplicates |
| FileSync.FileSync.Rename | src/business/file/file-manage.service.ts:69-202 | the service half equals the specified rename, with its refusals in order |
| FileSync.FileSync.Move | src/business/file/file-manage.service.ts:218-366 | the same for the move |
| FileSync.FileSync.Delete | src/business/file/file-manage.service.ts:385-526 | the same for the deletion |
| FileSync.FileSync.MoveFile | src/infra/storage/nas/nfs-nas.adapter.ts:294-333 | moves in one step or by copy and deletion, dies between the two, reports nothing to do, or fails, and the NAS is what that says |
| FileSync.FileSync.TakeBack | src/business/worker/handlers/file-move.handler.ts:53-70 | the branch for a target folder that has gone saves the catalogue entry, then the record, as specified up to its crash point |
| FileSync.FileSync.Execute | src/business/worker/handlers/file-rename.handler.ts:27-75 | the handler steps in order, guard first, equal the specified run up to its crash point |
| MultipartImage.LayoutExact | src/business/worker/handlers/file-upload.handler.ts:323-399 | for all contents, chunk writes in any order give the concatenation iff every chunk is in place, the chunks reach the end and the file is not announced too long |
| MultipartUpload.EqualPartsExact | src/business/worker/handlers/file-upload.handler.ts:323-399 | equal parts (a shorter last one) have such a layout iff their size divides the chunk size or they all go into the first chunk |
| MultipartUpload.DefaultSizesFit | src/business/worker/nas-file-sync.worker.ts:160-164 | equal parts of the default size always fit the default chunks, five to a chunk |
| MultipartUpload.UnevenMisplaces | src/business/worker/handlers/file-upload.handler.ts:323-399 | a concrete part size that does not divide the chunk size has none |
| MultipartUpload.UploadFromParts | src/business/worker/handlers/file-upload.handler.ts:323-399 | each chunk is written once, batch by batch in any order, and the NAS file is the image of that order; for evenly cut parts whose size divides the chunk size it is their concatenation |
| MultipartUpload.EvenUploaded | src/business/worker/handlers/file-upload.handler.ts:323-399 | parts of one size in ascending number, the last no longer, each stored with its recorded size: if that size divides the chunk size, chunks in any order give the concatenation |
| MultipartUpload.UnsizedUploaded | src/business/worker/handlers/file-upload.handler.ts:337-338 | without a recorded size of the first part, parts of 10 MiB are uploaded right |
| MultipartUpload.ConcatParts | src/business/worker/handlers/file-upload.handler.ts:409-447 | the cache file is the concatenation of the parts in ascending part number |
| MultipartUpload.UploadThenConcat | src/business/worker/handlers/file-upload.handler.ts:323-447 | whenever the layout fits, and so for evenly cut parts whose size divides the chunk size, the NAS file and the cache file of one upload are equal |
| MultipartUpload.SortedParts | src/business/worker/handlers/file-upload.handler.ts:409-447 | parts are used in ascending number, none lost or doubled |
| MultipartUpload.RangeUploadExact | src/business/worker/handlers/file-upload.handler.ts:239-314 | uploading a cached file by ranges in any order reproduces it iff the announced size is its size |
| MultipartUpload.ProgressBounds | src/business/worker/handlers/file-upload.handler.ts:239-314 | the reported bytes exceed the true count by less than a chunk and are the file size at the end |
| RangeDownload.AcceptedInside | src/common/utils/range-parser.ts:28-92 | an accepted header gives a range inside the file |
| RangeDownload.ParseIntExact | src/common/utils/range-parser.ts:48-70 | a number is read iff digits stand at the front of the text, behind white space and a plus sign that may be there; it is theirs |
| RangeDownload.HeaderRefused | src/common/utils/range-parser.ts:32-43 | a header of another unit, with a comma or without a dash is refused |
| RangeDownload.HeaderExact | src/common/utils/range-parser.ts:28-92 | every other header is judged by the numbers in its first two pieces, whatever stands behind them |
| RangeDownload.RangeForms | src/common/utils/range-parser.ts:28-92 | the three header forms mean what section 2.1 of RFC 7233 says, with the stated refusals |
| RangeDownload.RangeRoundTrip | src/common/utils/range-parser.ts:28-92 | a range printed in decimal is read back iff it lies in the file |
| RangeDownload.ContentRangeExact | src/common/utils/range-parser.ts:110-112 | the Content-Range text determines first and last position and the length |
| RangeDownload.ServedExact | src/business/file/file-download.service.ts:864-898 | every range of every content is served as that stretch of the concatenation iff each non-empty part begins at its index times the part size and is recorded with its length |
| RangeDownload.EvenServed | src/business/file/file-download.service.ts:864-898 | for parts cut like that every range inside is sent as that stretch of the concatenation |
| RangeDownload.ContentLengthExact | src/business/file/file-download.service.ts:543-552 | then, for any announced file size, the bytes sent for an accepted header are as many as the Content-Length of the 206 reply iff the parts reach the end of the range |
| RangeDownload.DownloadFromPartsWithRange | src/business/file/file-download.service.ts:864-898 | the piping loop sends what the specification says; for evenly cut parts that is the requested stretch of their concatenation |
| UploadQueueSafety.StepKeeps | src/business/file/upload-queue.service.ts:130-532 | every call keeps: the line is exactly the WAITING tickets, each once and within its bound; all tickets WAITING or READY; the per-user index exact; sessions and bytes within limits; READY tickets of a user below the limit |
| UploadQueueSafety.RunsAreSafe | src/business/file/upload-queue.service.ts:130-532 | so does every run |
| UploadQueueSafety.CountIsOwn | src/business/file/upload-queue.service.ts:510-522 | the admission count is the user's tickets in the map; `direct-` ids never add to it |
| UploadQueueSafety.RemoveIsPurge | src/business/file/upload-queue.service.ts:485-507 | removal through the ticket's own user clears the ticket from every index |
| UploadQueueOrder.RunsGoOnward | src/business/file/upload-queue.service.ts:477-507 | over every run a waiting ticket's position never grows and one that left never stands in line again |
| UploadQueueOrder.PromoteExact | src/business/file/upload-queue.service.ts:252-269 | one round promotes the longest prefix of the line that fits limits told beforehand, at most ceil(n/2) of n, and exactly that many if they all fit |
| UploadQueueLimit.ReadyIffUsable | src/business/file/upload-queue.service.ts:409-454 | some run from the start makes a ticket READY iff the limits allow two tickets per user, a place in line and one session of the smallest multipart size |
| UploadQueueLimit.NeverReady | src/business/file/upload-queue.service.ts:409-454 | with a per-user limit of one every ticket of every run is WAITING |
| UploadQueueLimit.FullUserStarves | src/business/file/upload-queue.service.ts:409-454 | while a user keeps a full allowance of tickets none of them becomes READY, over any run |
| UploadQueueLimit.DirectUncounted | src/business/file/upload-queue.service.ts:343-360 | from any reachable state a user with allowance left can take every session and byte the service has left, the line staying as it is |
| UploadQueueLife.RemovedExact | src/business/file/upload-queue.service.ts:162-230 | a ticket is removed by exactly its cancellation, a poll after its expiry or claim time, or maintenance then; otherwise it keeps owner, request and expiry |
| UploadQueueLife.LivesUntilExpiry | src/business/file/upload-queue.service.ts:276-318 | over runs nothing else ends a ticket |
| UploadQueueLife.BornExact | src/business/file/upload-queue.service.ts:130-156 | a ticket comes into being by exactly the admission of a request within the size limit that cannot start at once while the line has room: last in line, with its full waiting time |
| UploadQueueLife.AdmittedExact | src/business/file/upload-queue.service.ts:130-156 | a request starts at once iff size, user limit, capacity and `initiate` allow it: one session of its size, tracked for the user |
| UploadQueueLife.PolledExact | src/business/file/upload-queue.service.ts:162-210 | a poll makes its waiting ticket READY iff it is unexpired, its user below the limit, room left and the upload acceptable; no other ticket changes |
| UploadQueueSessions.PromotionOpens | src/business/file/upload-queue.service.ts:409-454 | a promotion opens exactly one session, of the ticket's size, under an id no live session has, and the ticket carries that id |
| UploadQueueSessions.RunsOwnSessions | src/business/file/upload-queue.service.ts:343-454 | over every run session ids are given out once: to one ticket, or directly to one user |
| UploadQueueSessions.PolledOwnSession | src/business/file/upload-queue.service.ts:162-210 | in every run from the start, a poll that answers READY hands out the session opened for that very ticket |
| UploadQueueSessions.DropExact | src/business/file/upload-queue.service.ts:485-507 | when a session ends it is gone and every other stays |
| UploadQueueService.UploadQueueService.TryInitiateOrEnqueue | src/business/file/upload-queue.service.ts:130-156 | the fields become the specified state; the reply is the new session, the last place in line, or a refusal that changed nothing |
| UploadQueueService.UploadQueueService.GetQueueStatus | src/business/file/upload-queue.service.ts:162-210 | the reply tells the ticket's state after the call: its position, its session, or gone |
| UploadQueueService.UploadQueueService.CancelQueue | src/business/file/upload-queue.service.ts:215-230 | succeeds iff the ticket is known, which is then in no index |
| UploadQueueService.UploadQueueService.PromoteNextRound | src/business/file/upload-queue.service.ts:252-269 | the loop over the shrinking list equals the specified round |
| UploadQueueService.UploadQueueService.HandleQueueMaintenance | src/business/file/upload-queue.service.ts:276-318 | the two purges and the round equal the specified maintenance |
| UploadQueueService.UploadQueueService.GetUserActiveTicketCount | src/business/file/upload-queue.service.ts:510-522 | the loop counts the tracked ids with a live ticket |
| DepartmentImport.MigrateDepartments | src/integrations/migration/migration.service.ts:294-357 | saved is exactly what has a parent chain to a department without parent, each row once, in the round of its depth and after its parent; the iteration bound leaves nothing out |
| DepartmentImport.Settled | src/integrations/migration/migration.service.ts:320-356 | once a round finds nothing, no later round could |
| DepartmentImport.RootedExact | src/integrations/migration/migration.service.ts:294-357 | a department can be saved iff its parent id is missing or empty, or is that of one that can |
| DepartmentClosure.CollectDescendants | src/integrations/migration/migration.service.ts:569-587 | the loop ends with exactly the root and its descendants |
| DepartmentClosure.CutSavedExact | src/integrations/migration/migration.service.ts:494-498 | all collected departments are saved iff the root can be: no parent, the added department as parent, or a collected parent below a row with that id |
| DepartmentClosure.PlainCut | src/integrations/migration/migration.service.ts:494-498 | when no exported row carries the added id, iff the root has no parent or the added one |
| DepartmentForest.ForestExact | src/business/department/department-query.service.ts:67-100 | the forest shows every row whose parent chain ends exactly once, and no row on or below a cycle |
| DepartmentForest.ChainShort | src/business/department/department-query.service.ts:105-112 | a parent chain that ends does so in fewer steps than there are rows |
| DepartmentHierarchy.Hierarchy.SortChildrenRecursive | src/business/department/department-query.service.ts:105-112 | terminates whatever cycles other rows form, sorts every list at or below the nodes, and keeps what was sorted |
| DepartmentHierarchy.Hierarchy.BuildHierarchy | src/business/department/department-query.service.ts:67-100 | roots and every reachable children list are the right rows in ascending order, each row shown once |
| SharePairs.RunKeeps | src/business/share-request/share-request-command.service.ts:113-348 | over runs whose requests repeat no file and no target, each pair is covered by at most one pending request or live share |
| SharePairs.NewSharesCount | src/business/share-request/share-request-command.service.ts:504-541 | approval creates files times targets shares, and for each pair as many as its members are listed |
| SharePairs.NewSharesExact | src/business/share-request/share-request-command.service.ts:504-541 | the new shares cover no pair twice iff the lists repeat nothing or one is empty |
| SharePairs.StartSafe | src/business/share-request/share-request-command.service.ts:113-348 | the empty tables satisfy the invariant |
| SharePairs.ApproveExact | src/business/share-request/share-request-command.service.ts:211-249 | an approval keeps every pair covered at most once iff its lists repeat nothing, one is empty, or the shares have already ended |
| SharePairs.DirectExact | src/business/share-request/share-request-command.service.ts:105-205 | the same for a request that is accepted and approved at once |
| SharePairs.StepExact | src/business/share-request/share-request-command.service.ts:113-348 | so every call keeps it iff it is safe in this sense |
| SharePairs.RunExact | src/business/share-request/share-request-command.service.ts:113-348 | all states of a run keep it iff every call is safe when it comes |
| SharePairs.TwiceFromNothing | src/business/share-request/share-request-command.service.ts:105-205 | one direct request for the files f and f on the empty tables leaves two live shares of one pair |
| SharePairs.DecidedForever | src/business/share-request/share-request-command.service.ts:211-348 | a decision is final and a request's content never changes |
| SharePairs.FirstDecisionCounts | src/business/share-request/share-request-command.service.ts:211-348 | over every run a pending request's status becomes the first decision on it: approved, rejected with a comment, or cancelled by its requester |
| SharePairs.ShareFate | src/business/share-request/share-request-command.service.ts:504-541 | over every run a share keeps file, target and end, and is blocked or revoked iff it was or a call does it |
| SharePairs.Created | src/business/share-request/share-request-command.service.ts:105-205 | an accepted create appends what was asked for, APPROVED with its shares iff direct, else PENDING; a refused one changes nothing |
| SharePairs.BulkApproveRefuses | src/business/share-request/share-request-command.service.ts:359-404 | the duplicate re-check of bulk approval finds a conflict iff the request names a file and a target |
| ShareRequests.ReportFree | src/business/share-request/share-request-validation.service.ts:69-110 | the duplicate report is empty iff every pair is free |
| ShareRequests.ReportEntry | src/business/share-request/share-request-validation.service.ts:69-110 | each entry is a conflict of one of the pairs, named as an active share iff there is one |
| ShareRequests.FilesActive | src/business/share-request/share-request-validation.service.ts:120-133 | the file check passes iff every file exists and is active |
| ShareRequests.RefusalExact | src/business/share-request/share-request-command.service.ts:63-131 | a form passes iff account, permissions, files, targets, approver, period and pairs are all in order, and a refusal names a defect that is there |
| ShareRequests.ShareRequestService.CheckDuplicates | src/business/share-request/share-request-validation.service.ts:69-110 | the nested loops give the specified report |
| ShareRequests.ShareRequestService.FindActivePublicShare | src/business/share-request/share-request-validation.service.ts:261-283 | found iff a share of that file and target is unblocked, unrevoked and unexpired |
| ShareRequests.ShareRequestService.CreatePublicShares | src/business/share-request/share-request-command.service.ts:504-541 | the nested loops append the specified shares |
| ShareRequests.ShareRequestService.CreateShareRequest | src/business/share-request/share-request-command.service.ts:63-164 | refuses with the first check that fails and changes nothing, otherwise the tables become those of the specified create |
| ShareRequests.ShareRequestService.ApproveRequest | src/business/share-request/share-request-command.service.ts:211-249 | succeeds iff pending, and adds files times targets shares |
| RefreshTokens.RunKeeps | src/business/auth/refresh-token.service.ts:96-239 | in every reachable state a family has one user and at most one token neither used nor revoked |
| RefreshTokens.ReuseKillsFamily | src/business/auth/refresh-token.service.ts:146-153 | after reuse was detected no token of the family succeeds in any later state |
| RefreshTokens.ExchangedOnce | src/business/auth/refresh-token.service.ts:178-196 | no token is ever exchanged twice |
| RefreshTokens.NewTokenWorks | src/business/auth/refresh-token.service.ts:178-204 | the token handed out belongs to the same user and family and can be exchanged exactly until it expires; the old one now triggers reuse detection |
| RefreshTokens.OthersUntouched | src/business/auth/refresh-token.service.ts:128-204 | no rotation changes a row of another family |
| RefreshTokens.LogoutKillsFamilies | src/business/auth/refresh-token.service.ts:216-222 | after logout every family of the user is dead for good and none of its tokens succeeds |
| RefreshTokens.ReuseNoticed | src/business/auth/refresh-token.service.ts:228-239 | reuse of a spent token kills its family while the row is kept, and changes nothing once it is cleaned up |
| RefreshTokens.RunFate | src/business/auth/refresh-token.service.ts:96-239 | over every run a row keeps user, family and expiry, is gone iff a cleanup found it expired, and is used or revoked iff a call of the run did that: an exchange, a logout of its user, a reuse in its family |
| RefreshTokens.OutcomeHistory | src/business/auth/refresh-token.service.ts:128-196 | what presenting a token answers is told by its history: removed, exchanged, revoked, expired, or good |
| RefreshTokens.RefreshTokenService.RotateRefreshToken | src/business/auth/refresh-token.service.ts:128-204 | the rows become those of the specified rotation; a success spends the old token and leaves the new one usable |
| BufferedWriter.RunConserves | src/business/audit/buffered-writer.ts:63-110 | from any conserved state, over every interleaving, enqueued items are stored, in flight or buffered, each as often as enqueued |
| BufferedWriter.AlwaysConserved | src/business/audit/buffered-writer.ts:63-110 | in particular over every interleaving from the empty writer |
| BufferedWriter.AllStoredExact | src/business/audit/buffered-writer.ts:75-95 | everything has been stored iff nothing is buffered or in flight |
| BufferedWriter.StoredExact | src/business/audit/buffered-writer.ts:75-95 | over every interleaving exactly the batches answered as stored are stored |
| BufferedWriter.BufferBounded | src/business/audit/buffered-writer.ts:63-69 | without failed batches the buffer stays below its limit |
| BufferedWriter.FlushesWhenFull | src/business/audit/buffered-writer.ts:63-69 | unless a flush is asked for, no batch shorter than the limit is handed out |
| BufferedWriter.ShutdownExact | src/business/audit/buffered-writer.ts:107-110 | a successful shutdown flush leaves unstored exactly what other flushes have in flight |
| BufferedWriter.Writer.EnqueueItem | src/business/audit/buffered-writer.ts:63-69 | the item is appended, and a buffer that reaches its limit is handed out whole |
| BufferedWriter.Writer.Answered | src/business/audit/buffered-writer.ts:83-94 | a failed batch goes back to the end of the buffer, a stored one does not |
| RouteShadow.BlocksIffShadows | src/common/diagnostics/route-conflict-detector.service.ts:99-135 | the segment comparison holds iff the later pattern's paths are a strict subset of the earlier one's |
| RouteShadow.ParameterHides | src/common/diagnostics/route-conflict-detector.service.ts:99-135 | a parameter registered before a fixed sibling shadows it, and not the other way round |
| RouteShadow.CheckShadow | src/common/diagnostics/route-conflict-detector.service.ts:99-135 | reports a conflict iff that is so, with the rightmost fixed text that a parameter takes |
| RouteShadow.DetectConflicts | src/common/diagnostics/route-conflict-detector.service.ts:78-92 | reports exactly the shadowed pairs in order, each once |

## Left out

- UploadQueueService.UploadQueueService.GetQueueStatus: the estimated waiting time, a constant times the position, is not part of the reply.
- ShareRequests.ShareRequestService.ApproveRequest: the transaction and its rollback are not modelled; the source saves outside of it.
- ShareRequests.ShareRequestService.CreateShareRequest: the answers of the other tables are a parameter, and permissions are the two share permissions; the reason, the approver and the auto-approval mark are not stored.
- SharePairs.BulkApproveRefuses: covers the re-check of a single request, not the batch around it.
- BufferedWriter.Writer.Answered: a batch is stored as a whole or not at all; a partial write by the database is not modelled.
- DepartmentHierarchy.Hierarchy.BuildHierarchy: node objects shared by reference are entries of a map from ids; display fields are dropped.
- MultipartUpload.UploadFromParts: a chunk write that fails, and percentages for the log, are not modelled.
- RangeDownload.RangeForms: numbers beyond 2^53, where the source loses precision, are read exactly.
- NasSync.RunsAreSound: requires that a request's target key is unclaimed when it is made; `NasConflict.FreeExact` shows that this is needed. A request made while a finished job still awaits acknowledgement takes the job's place.
- FileSync.FileSync.Rename: extensions are compared in lower case for ASCII letters only; a file without a NAS record is not modelled.
- NasNaming.RenameKey: doubled slashes and dot segments, which `path.posix` normalises, do not occur in the directories considered.
- SqlStatement.StatementExact: a text that is not of the form of the update is taken to be refused by the database and rolled back.
- The timeouts and queues inside a lock acquisition are steps of the protocol, not of the class; fairness of the lock library is not part of the model.
- Interleaving inside the awaits of the upload queue, share requests and token rotation: these check and then act, and the stated bounds need atomic calls.
- NasJobs.NeverPostponed: a download reads the NAS record, then saves it with one lease more; what another save in between would do is not modelled.
- FileSync.FileSync.MoveFile: a copy that dies half-way counts as complete; the next attempt writes it anew.
- Folder jobs of the worker with their revert branch, a restore that is interrupted and run again, and a folder that is restored while a move into it is being taken back.
- Delivery of a finished job for a second time after a later job on the same file.
- The sync-event log and its retry limit; NAS statuses other than AVAILABLE and SYNCING.
- The upload session entity beyond id, size and whether it is live; the expiry of sessions is a step of the environment.
- Unblocking a public share, which can revive a second live share.
- Download leases, cache eviction, checksums, hashing, logging, controllers, guards, permissions, search, and all wiring of the web framework.
