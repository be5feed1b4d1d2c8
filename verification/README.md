# TaskManagedAI: verified models of the operational core

Dafny 4.11 models of the parts of TaskManagedAI that move, sign and guard data, with proofs of what they keep over
every input, failure point, crash or interleaving. `dafny verify dfyconfig.toml` checks the whole project.

| file | what it models |
|---|---|
| `RestoreTransaction.dfy` | `run_restore`, its snapshot, manifest and rollback, as a transaction over artifacts, PostgreSQL and Redis |
| `ArtifactMerkle.dfy` | the digest of an artifacts directory in a snapshot manifest |
| `ArtifactTree.dfy` | the copy walk, the source manifest and the staged manifest of the artifacts directory |
| `BackupFingerprint.dfy` | the runtime-binding fingerprint at issue time and in the approved backup, with interference on the source |
| `IssuedBackup.dfy` | the backup command: approval gate and approved run together |
| `BackupExit.dfy` | the try / except / finally discipline of `run_backup`, over series of calls |
| `Checksums.dfy` | printing and checking `checksums.txt` |
| `TailSearch.dfy`, `TailWindows.dfy` | the windowed tail search of the epoch journal, and exactly when it equals one scan |
| `EpochAllocator.dfy`, `EpochOrder.dfy`, `EpochFraming.dfy` | the epoch allocator with crashes: its hash chain, the order of its epochs, and a line format that meets the assumptions and breaks the chain |
| `DestructiveLock.dfy` | the flock protocol with stale-file cleanup, over processes and inodes |
| `IssuanceJournal.dfy` | the hash-chained approval issuance journal |
| `CommitCertificate.dfy` | the two-phase-commit certificate check and the host-list hash |
| `Normalisation.dfy` | the string normalisation in front of the RFC 8785 encoder |
| `ApprovalRecords.dfy`, `ApprovalVerdict.dfy`, `ApprovalWitness.dfy` | issuing, writing, loading and verifying approval records, exactly what is issued, loaded and accepted, and a library that meets the assumptions about printing and signing |
| `DraftGuard.dfy` | the approve / commit / reload protocol for unsaved drafts |
| `WorkerPool.dfy` | the bounded worker pool over a shared iterator |
| `Prelude.dfy`, `StringOrder.dfy`, `NumberCode.dfy` | optional values, injectivity, code-point order and sorting, and an injective code for the concrete libraries |

Code that changes state step by step is a class or a method with loops. Its contract states what is kept or recovered,
and usually ties it to a specification function that further lemmas are about. Failures, crashes, user answers, clock
readings, what each read of a shared file delivers and what each write accepts are parameters, usually collected in a
schedule or view, so a claim about every failure point is a quantifier over schedules.

## Assumptions

- SHA-256 and the canonical encoders in front of it are injective; Ed25519 (section 5.1 of RFC 8032) is an ideal
  sign / verify pair in which a signature fits one message; JSON text reads back as printed. They are function parameters with these laws as hypotheses. The
  shapes of digests and signatures are predicates without a fixed length, so that the laws can hold together; they do
  for the libraries of `ApprovalWitness.dfy` and `EpochFraming.dfy`.
- Redis content is the append-only file if there is one, otherwise `dump.rdb`; a running Redis keeps the two in step.
- `pg_restore --clean --if-exists --single-transaction` is atomic and drops only objects named in the dump. Applications
  change rows of existing objects; they create none.
- Services that are started and report healthy have written nothing by the time the call returns; services that are
  started and do not may have.
- Moving the artifacts directory to a sibling is one rename. Moving the append-only directory is a rename on one volume
  and a copy followed by a removal across volumes, which is what `shutil.move` does.
- Atomic renames and completed writes are durable.
- Journal lines are one-line JSON objects with a common first key: a signed one is read back exactly if it meets the
  schema, and neither a proper prefix nor several glued pieces of such lines are an entry (`EpochAllocator.Framing`).
  What is read from a remainder of such a line is a whole piece of it (`EpochAllocator.Remainders`).
- Strings are NFC-normalised before they are digested; the epoch journal, the issuance journal and the commit
  certificate model that, so digests pin normal forms only.
- Texts of form controls hold no NUL (`NulConfuses` shows why).
- Names in a directory are not empty and hold no slash.

## Where the code differs from what is promised

- Restore is announced as all-or-nothing. It is, exactly under `UndoSafe`: a torn cross-volume copy of the append-only
  directory is later taken for its backup, and an object that only the archive holds survives a rollback
  (`UndoExactly`). A successful restore keeps objects the archive does not name (`AppliedExactly`).
- The snapshot manifest covers neither the set-aside append-only directory nor directories in the artifacts
  (`AddedDirectoryAccepted`), and its digest separates files and links exactly as long as no name or link target holds a
  line break (`MerkleInjectiveExactly`).
- The lock's side condition has to cover both opens of the protocol, the one in acquire and the one in cleanup, except
  a cleanup open of a file that names the opening process; then it is exact (`WithBlockExclusion`,
  `DisturbedUnlinkBreaksExclusion`).
- The windowed tail search can return an entry that is not a line of the file when a window starts exactly at a joint
  between a torn line and the next one; the next append then carries the wrong hash (`OnlyLinksBreak`,
  `JointRunBreaksChain`). Only the hash link can break: the epochs of the valid lines rise on every run
  (`EpochsAlwaysRise`).
- A crash inside the very first journal append stops the allocator for good (`TornFirstAppendBlocks`). So does a first
  call with an empty host id or signer fingerprint, which itself returns an epoch (`FirstCallBlocksExactly`).
- The restart after a backup is skipped when the cleanup is ended by something other than an OS error, a missing
  `docker` during the restart replaces the first failure, and the tar stays behind when its creation fails half-way,
  because that happens outside the inner `try` (`BackupRun.Run`).
- A runtime binding in a backup claim is signed but not written, so such a record loads and then fails its signature
  check (`RoundTripExactly`), and a record without one is refused by the run: no approved backup completes from a file
  the issuer wrote (`BackupCommand`).
- A file rewritten with equal length between its `lstat` and its read is staged as read (`ManifestsAgree`).
- `checksums.txt` cannot carry names that start with a backslash, hold a line break or end in a blank
  (`OwnManifestAcceptedExactly`, `TrailingBlankMisread`).
- Host ids with one NFC form share a host-list hash; the hash pins hosts exactly up to that (`HashPinsExactly`).
- The content signature of a draft confuses contents exactly when one control name is another one followed by an equals
  sign; then a commit can discard a draft nobody agreed to discard (`SeparatesExactly`, `ProtectedExactly`).

## Model

| member | source | states |
|---|---|---|
| `RestoreTransaction.SnapshotRecoverable` | scripts/taskhub_restore_orchestrator.py:1291-1401 | at every point where taking the snapshot can fail, each store is unchanged or its snapshot component exists; a completed snapshot holds both dumps |
| `RestoreTransaction.PlaceRedisRecoverable` | scripts/taskhub_restore_orchestrator.py:1708-1717 | setting the append-only directory aside and placing the archive's dump keeps the snapshot able to give Redis back |
| `RestoreTransaction.ApplyRecoverable` | scripts/taskhub_restore_orchestrator.py:1918-1958 | the same for every failure point after a complete snapshot |
| `RestoreTransaction.TryRecoverable` | scripts/taskhub_restore_orchestrator.py:1876-1958 | the hidden invariant of the whole try block: a store differs from the original only once the component it is recovered from is in the snapshot |
| `RestoreTransaction.RollbackRecovers` | scripts/taskhub_restore_orchestrator.py:1728-1818 | under that invariant a rollback that completes gives back artifacts, database and Redis content, early return included |
| `RestoreTransaction.RestoreUndone` | scripts/taskhub_restore_orchestrator.py:1876-1992 | for every fault schedule, a run that raises without a failed rollback leaves all three stores as they were |
| `RestoreTransaction.ExitExactly` | scripts/taskhub_restore_orchestrator.py:1876-1992 | the exit of every run on every schedule: completed exactly if every check and step succeeds; rollback failed exactly if a snapshot was registered and a rollback step fails; before the registration nothing but the application services is touched, and nothing at all when preflight fails |
| `RestoreTransaction.RollbackExactly` | scripts/taskhub_restore_orchestrator.py:1728-1818 | a rollback completes exactly if every step that has something to do succeeds |
| `RestoreTransaction.TornAofBreaksUndo` | scripts/taskhub_restore_orchestrator.py:1708-1717 | across volumes, with append-only content that is not empty, a schedule whose copy is cut short raises with other Redis content than before |
| `RestoreTransaction.ExtraObjectBreaksUndo` | scripts/taskhub_restore_orchestrator.py:1132-1153 | with a database object only the archive has, some schedule raises with that object left in the database |
| `RestoreTransaction.UndoExactly` | scripts/taskhub_restore_orchestrator.py:1876-1992 | restore is all-or-nothing on every schedule if and only if, when Redis runs, the append-only file is on the same volume, absent or empty, and the archive brings no new database object |
| `RestoreTransaction.RestoreApplied` | scripts/taskhub_restore_orchestrator.py:1876-1958 | a completed run has installed the archive's artifacts and Redis content, and its database objects on top of the existing ones, up to what healthy services write after they are started |
| `RestoreTransaction.AppliedExactly` | scripts/taskhub_restore_orchestrator.py:1876-1958 | success means all three stores equal the archive if and only if the existing database objects are among the archive's (when Redis runs) |
| `RestoreTransaction.RollbackKeepsObjects` | scripts/taskhub_restore_orchestrator.py:1728-1818 | no rollback attempt, complete or not, removes a database object or adds one outside the dump |
| `RestoreTransaction.RetriesUndo` | scripts/taskhub_restore_orchestrator.py:1746-1818 | any number of failed rollbacks and application writes followed by a completed rollback gives the pre-restore content exactly when no foreign database object exists; every original object is back in any case |
| `RestoreTransaction.CompletedSnapshot` | scripts/taskhub_restore_orchestrator.py:1477-1554 | the snapshot of a completed restore is complete and its manifest passes the binding and the component verifier |
| `RestoreTransaction.ManifestPins` | scripts/taskhub_restore_orchestrator.py:1619-1705 | a snapshot accepted by the component verifier has the dumps the manifest was written for and, when no name or link target holds a line break, the same artifact files and links |
| `RestoreTransaction.AddedDirectoryAccepted` | scripts/taskhub_restore_orchestrator.py:1619-1705 | a snapshot with one more directory in its artifacts is accepted although it differs |
| `ArtifactMerkle.ArtifactsMerkle` | scripts/taskhub_restore_orchestrator.py:1416-1452 | the collecting pass and the two hashing loops digest the rows of all files, then of all links, in walk order, and for a sorted walk that is the specified text |
| `ArtifactMerkle.OneEntryText` | scripts/taskhub_restore_orchestrator.py:1436-1451 | the digested text of one file and of one link, character by character |
| `ArtifactMerkle.MerkleInjective` | scripts/taskhub_restore_orchestrator.py:1416-1452 | equal digested texts mean equal files and links at equal paths when names and link targets hold no line break |
| `ArtifactMerkle.BrokenTargetCollides` | scripts/taskhub_restore_orchestrator.py:1439-1451 | one link whose target spells out a second link has the same text as the two links |
| `ArtifactMerkle.MerkleInjectiveExactly` | scripts/taskhub_restore_orchestrator.py:1416-1452 | over an alphabet of names and targets the text separates all trees up to directories if and only if the alphabet holds no line break |
| `ArtifactMerkle.DirectoryUnseen` | scripts/taskhub_restore_orchestrator.py:1433-1437 | adding a directory to any tree never changes the text |
| `ArtifactMerkle.SortedPathsOrder` | scripts/taskhub_restore_orchestrator.py:1433-1433 | sorting meets what the other statements ask of the walk order |
| `RestoreTransaction.CommandUndoesRestore` | scripts/taskhub_admin.py:1003-1090 | after a completed restore, application writes and failed attempts, the rollback command is not refused and, when it exits with 0, the original data is back exactly when the archive brought no object of its own |
| `RestoreTransaction.CommandExactly` | scripts/taskhub_admin.py:1003-1090 | the exit code of the rollback command: it begins only with the approved manifest, the right binding and all components there, exits with 0 exactly if then every step succeeds, and a refused command changes nothing |
| `RestoreTransaction.ReplacedManifestRefused` | scripts/taskhub_admin.py:1003-1020 | a manifest replaced between approval and lock ends the command with code 2 and nothing changed |
| `RestoreTransaction.RestoreOrchestrator.CreatePreRestoreSnapshot` | scripts/taskhub_restore_orchestrator.py:1291-1401 | wherever it fails, each store is unchanged or its component is in the snapshot; when it returns, the snapshot holds the dumps of database and Redis as they were |
| `RestoreTransaction.RestoreOrchestrator.PlaceRedisDump` | scripts/taskhub_restore_orchestrator.py:1708-1717 | when it returns, Redis would load the archive's dump; on every outcome a snapshot that could give back the original still can, unless a cross-volume copy of append-only content was torn |
| `RestoreTransaction.RestoreOrchestrator.RollbackFromPreRestoreSnapshot` | scripts/taskhub_restore_orchestrator.py:1728-1818 | returns exactly if every step it has something to do in succeeds, and then every host the snapshot was able to give back is back in all three stores; the snapshot is never changed, so it can be retried |
| `RestoreTransaction.RestoreOrchestrator.CopyArtifactsBack` | scripts/taskhub_restore_orchestrator.py:1746-1758 | when it returns, the artifacts are the snapshot's and nothing else changed |
| `RestoreTransaction.RestoreOrchestrator.PutRedisBack` | scripts/taskhub_restore_orchestrator.py:1781-1815 | when it returns, Redis runs with the content of the snapshot's dump or set-aside append-only file |
| `RestoreTransaction.RestoreOrchestrator.TrySteps` | scripts/taskhub_restore_orchestrator.py:1876-1958 | gets through exactly if the preflight checks and every later step succeed; a failing preflight check touches nothing; under the caller-visible condition, wherever the try block stops the original can be given back from what it leaves |
| `RestoreTransaction.RestoreOrchestrator.ApplySteps` | scripts/taskhub_restore_orchestrator.py:1918-1958 | when these steps get through, artifacts, database objects and Redis content are the archive's |
| `RestoreTransaction.RestoreOrchestrator.Restore` | scripts/taskhub_restore_orchestrator.py:1876-1992 | completes exactly if the preflight checks and every later step succeed, and a failing preflight check leaves everything alone; computes the specified run; under the caller-visible condition a raising run has changed nothing |
| `ArtifactTree.ScandirSorted` | scripts/taskhub_backup_orchestrator.py:1083-1083 | whatever order the directory scan yields, the walk visits the names in one sorted order |
| `ArtifactTree.SourceLists` | scripts/taskhub_backup_orchestrator.py:1281-1337 | the source manifest lists exactly one item for every node of the tree, with its path, type, size and digest |
| `ArtifactTree.StagedLists` | scripts/taskhub_backup_orchestrator.py:1202-1261 | the same for the staged manifest, with the sidecar's modes |
| `ArtifactTree.SourceDistinct` | scripts/taskhub_backup_orchestrator.py:1197-1197 | no two items share a path when names hold no slash, so the sidecar dictionary keeps them all |
| `ArtifactTree.ManifestPinsTree` | scripts/taskhub_backup_orchestrator.py:1281-1339 | equal source manifests come from equal trees: names, types, modes, sizes and contents at every depth |
| `ArtifactTree.SameManifestExactly` | scripts/taskhub_backup_orchestrator.py:1281-1339 | two accepted trees have one source manifest exactly if their entries are equal |
| `ArtifactTree.SourceAcceptsExactly` | scripts/taskhub_backup_orchestrator.py:1284-1331 | the source walk succeeds exactly on trees without reserved names and special files, with files up to 256 MiB and 4 GiB in all; its total is the sum of all sizes |
| `ArtifactTree.StagedFits` | scripts/taskhub_backup_orchestrator.py:1204-1259 | an accepted staged walk has compared every node of the tree with the sidecar |
| `ArtifactTree.StagedFromSidecar` | scripts/taskhub_backup_orchestrator.py:1204-1253 | every item of an accepted staged manifest is the sidecar's item |
| `ArtifactTree.AlikeIsTwin` | scripts/taskhub_backup_orchestrator.py:1202-1271 | two trees that look alike at every path are equal in names, types, sizes and contents |
| `ArtifactTree.StagedAcceptsExactly` | scripts/taskhub_backup_orchestrator.py:1186-1279 | against the sidecar of a tree, the staged walk accepts exactly the trees with the same paths, types, sizes and contents, and then yields that tree's own manifest |
| `ArtifactTree.CopyTwin` | scripts/taskhub_backup_orchestrator.py:1080-1155 | the staged copy equals its source exactly when every file read has the length lstat reported; a rewrite of equal length in between goes unnoticed and the copy is of what was read |
| `ArtifactTree.ManifestsAgree` | scripts/taskhub_backup_orchestrator.py:1051-1339 | the staged manifest of the copy is the source manifest, same order, paths and totals, exactly when every file read has the length lstat reported (a rewrite of equal length is accepted); otherwise staging is refused |
| `ArtifactTree.CopyContent` | scripts/taskhub_backup_orchestrator.py:1117-1138 | the chunk loop with partial writes copies the whole content or stops because a write took nothing |
| `ArtifactTree.SourceWalker.Walk` | scripts/taskhub_backup_orchestrator.py:1281-1331 | the recursive walk with its shared list and total computes the specified source walk, refusals included |
| `ArtifactTree.StagingCopier.Walk` | scripts/taskhub_backup_orchestrator.py:1077-1157 | the copying walk yields the same list, total and refusals as the source walk, and the copy of the tree |
| `ArtifactTree.StagedWalker.Walk` | scripts/taskhub_backup_orchestrator.py:1199-1261 | the staged walk computes the specified one |
| `ArtifactTree.ComputeStagedManifest` | scripts/taskhub_backup_orchestrator.py:1186-1279 | walk, path-set comparison and manifest together compute the specified staged manifest |
| `BackupFingerprint.BindVerifiedCopies` | scripts/taskhub_admin.py:399-471 | lock-time copies are bound exactly if every needed read succeeded and the compose copy is whole; otherwise the first read that fails is named |
| `BackupFingerprint.StageArtifacts` | scripts/taskhub_backup_orchestrator.py:1876-1898 | staging succeeds only with the copy of the tree that was read, its sidecar, and the staged manifest; a refusal names the failure of the source walk or a staged manifest that does not fit |
| `BackupFingerprint.RedeemClaim` | scripts/taskhub_backup_orchestrator.py:1520-1601 | the claim is accepted exactly if the environment copy is whole, the configuration renders and the fingerprint recomputed from the private copies equals it (what that fingerprint pins is in `PassesExactly`); a refusal names the first of the payload, configuration and fingerprint checks to fail |
| `BackupFingerprint.CopyArtifactsWithAllowlist` | scripts/taskhub_backup_orchestrator.py:1712-1741 | the archive step copies exactly the regular files of the tree, or names a file that is not allowed |
| `BackupFingerprint.RunApprovedBackup` | scripts/taskhub_backup_orchestrator.py:1876-2048 | a run archives exactly the staged files and the verified environment copy, and (unless a write of the copy takes nothing) completes exactly if reads, staging, fingerprint (see `PassesExactly`), dumps and allowlist all pass; every refusal comes with the condition of its own check and with all earlier checks passed |
| `BackupFingerprint.IssuesExactly` | scripts/taskhub_backup_orchestrator.py:1475-1601 | a fingerprint is issued exactly if every read it needs delivers and the source walk gets through |
| `BackupFingerprint.ContextPins` | scripts/taskhub_backup_orchestrator.py:1361-1387 | two binding contexts are equal exactly if project, database and user, all resolved paths, compose file, rendered configuration, environment file and encrypted environment file agree, each where it is covered |
| `BackupFingerprint.PassesExactly` | scripts/taskhub_backup_orchestrator.py:1475-1601 | with arbitrary interference, a run passes with an issued fingerprint if and only if its copies are whole, it staged the tree that was fingerprinted down to every mode, size and content, and every covered field is as at issue time |
| `BackupFingerprint.ManifestPinsFiles` | scripts/taskhub_backup_orchestrator.py:1281-1339 | equal manifests come from trees with equal files at equal paths |
| `BackupFingerprint.FingerprintPinsArchive` | scripts/taskhub_backup_orchestrator.py:1475-1601 | with arbitrary interference on the source between any two reads, a run that passes with the issued fingerprint archives exactly the files and the env.encrypted fingerprinted at issue time |
| `BackupFingerprint.UnchangedSourcePasses` | scripts/taskhub_backup_orchestrator.py:1475-1601 | conversely a run that finds the source at rest and unchanged passes the fingerprint check |
| `IssuedBackup.WrittenUnbound` | scripts/taskhub_approval_cli.py:311-360 | a backup claim loaded from a file the issuer wrote has no runtime binding, whatever was issued |
| `IssuedBackup.IssuedGivesNoBinding` | scripts/taskhub_signed_approval.py:888-1009 | a file of the issuer that passes the gate hands on a backup claim without a binding |
| `IssuedBackup.BackupCommand` | scripts/taskhub_admin.py:245-300 | gate and run together: the run is given the verified record's binding and (unless a write of the copy takes nothing) completes exactly if reads, fingerprint, dumps and allowlist pass with it; no backup completes from a file the issuer wrote, and if the lock-time reads succeed it is refused as a legacy claim |
| `BackupExit.SeriesKeepsWholeArchive` | scripts/taskhub_backup_orchestrator.py:1775-2188 | over any series of failing and succeeding calls the output path holds the last published archive, whole |
| `BackupExit.ReturnedArchiveStays` | scripts/taskhub_backup_orchestrator.py:2100-2120 | after a normal return the output is that call's archive until another call gets as far as the rename, however the calls in between fail |
| `BackupExit.SeriesRestarts` | scripts/taskhub_backup_orchestrator.py:2158-2188 | over any series the restart attempts are as many as the stops whose cleanup ended, and the services are up exactly if the last stopping call restarted them |
| `BackupExit.BackupRun.Run` | scripts/taskhub_backup_orchestrator.py:1859-2188 | for every combination of failures: the output holds its old content or the complete archive, the latter exactly if the rename ran; a restart follows a stop exactly unless the cleanup ends with more than an OS error; exactly what tar, temporary directory and .part file are left; a normal return exactly if every step succeeded; exactly when the first failure is the one reported |
| `Checksums.BuildChecksumsText` | scripts/taskhub_backup_orchestrator.py:468-500 | the builder prints every payload file in name order exactly if all are readable regular files, and otherwise names an unusable one |
| `Checksums.OneFilePrinted` | scripts/taskhub_backup_orchestrator.py:468-500 | one file prints as its digest, two spaces, its name and a line feed |
| `Checksums.PrintOnVerdict` | scripts/taskhub_backup_orchestrator.py:478-499 | which of the three outcomes the builder's loop has |
| `Checksums.ParseManifest` | scripts/taskhub_restore_orchestrator.py:548-571 | parsing computes the specified dictionary, later lines winning, or fails on the first malformed line, and lists its keys |
| `Checksums.VerifyChecksums` | scripts/taskhub_restore_orchestrator.py:532-614 | parse, digest and coverage loops together decide the specified verdict |
| `Checksums.ParseBuilt` | scripts/taskhub_backup_orchestrator.py:468-500 | the text built for printable names parses back to the digest of every payload file |
| `Checksums.AcceptsExactlyIdentical` | scripts/taskhub_restore_orchestrator.py:532-614 | the manifest built for a file map is accepted on a tree exactly if the tree has the same payload files with the same contents |
| `Checksums.OwnManifestAcceptedExactly` | scripts/taskhub_restore_orchestrator.py:548-571 | a tree is accepted with its own manifest exactly if no payload name starts with a backslash, holds a line break or ends in a blank |
| `Checksums.TrailingBlankMisread` | scripts/taskhub_restore_orchestrator.py:548-553 | with a trailing blank in a name the manifest is accepted on a tree that lacks the file |
| `TailSearch.ReadAll` | scripts/taskhub_active_registry.py:1281-1299 | short reads deliver the rest of the file, or the read fails because it is longer than allowed |
| `TailSearch.WriteAll` | scripts/taskhub_active_registry.py:1267-1278 | short writes append all data, or a proper prefix of it is left |
| `TailSearch.SplitCut` | scripts/taskhub_active_registry.py:1034-1045 | cutting a file anywhere cuts one line and keeps the lines after it |
| `TailSearch.WindowHit` | scripts/taskhub_active_registry.py:1029-1065 | what a window finds is what the whole file would give, unless it starts inside a line whose remainder is accepted |
| `TailSearch.SearchRefinesScan` | scripts/taskhub_active_registry.py:1020-1070 | for every file and reader without accepted proper line suffixes, the 64 KiB / 256 KiB / 1 MiB / full search returns what one backward scan returns |
| `TailSearch.SearchFinds` | scripts/taskhub_active_registry.py:1020-1070 | whatever the windows cut, a file with a valid line makes the search find something |
| `TailWindows.SteadfastSearches` | scripts/taskhub_active_registry.py:1020-1070 | a reader that reads every remainder a window can start with, if at all, as the whole line makes the windowed search equal to one backward scan on every file |
| `TailWindows.ExposedDecides` | scripts/taskhub_active_registry.py:1020-1070 | every such remainder decides the search on some file: its line followed by newlines up to the window's size |
| `TailWindows.SearchIsScanExactly` | scripts/taskhub_active_registry.py:1020-1070 | for every reader that refuses the empty line the two searches agree on every file if and only if it reads those remainders, if at all, as the whole line |
| `TailSearch.UncleanCutMisleads` | scripts/taskhub_active_registry.py:1020-1070 | a first window that starts in such a line, with nothing valid after it, returns the remainder |
| `TailSearch.WindowsCanMislead` | scripts/taskhub_active_registry.py:1020-1070 | without the condition the two searches differ on a concrete file |
| `TailSearch.FindValidTail` | scripts/taskhub_active_registry.py:1004-1070 | the loop over windows, each offset tried once, computes the specified search |
| `EpochAllocator.ReturnedStrictlyIncrease` | scripts/taskhub_active_registry.py:1134-1253 | over every run with crashes at any point, returned epochs strictly increase |
| `EpochAllocator.AppendExactly` | scripts/taskhub_active_registry.py:1205-1228 | after any part of a new line, torn or whole, the valid lines are those before the last line plus the new entry exactly if all of it stands on a line of its own and the schema admits it |
| `EpochAllocator.StepExactly` | scripts/taskhub_active_registry.py:1134-1253 | one allocation with any crash keeps the valid lines a chain if and only if, in case its entry landed on a line of its own, the windows had found the entry one scan of the whole file finds |
| `EpochAllocator.RunExactly` | scripts/taskhub_active_registry.py:1134-1253 | over every run with crashes at any point, from any journal whose valid lines are chained: they stay chained after every call if and only if that condition holds at every call |
| `EpochOrder.SearchBounds` | scripts/taskhub_active_registry.py:1020-1070 | whatever the windowed search hits, a line or the middle of one, has an epoch no smaller than any valid line's |
| `EpochOrder.StepKeepsOrder` | scripts/taskhub_active_registry.py:1134-1253 | every allocation with any crash keeps every piece in the journal above all valid lines before it |
| `EpochOrder.EpochsAlwaysRise` | scripts/taskhub_active_registry.py:1134-1253 | over every run from the empty store, with any crashes and any window at any joint, the epochs of the valid lines strictly increase in file order after every call; nothing is asked of the digest |
| `EpochOrder.OnlyLinksBreak` | scripts/taskhub_active_registry.py:1134-1253 | only the hash link can break: on every run the epochs rise, and each valid line carries its predecessor's hash after every call if and only if every search whose entry landed found what one scan finds |
| `EpochOrder.JournalStaysChained` | scripts/taskhub_active_registry.py:1134-1253 | in particular the epochs always rise, and the hash links hold on every run whose searches start no window at a joint |
| `EpochAllocator.AppendOutcome` | scripts/taskhub_active_registry.py:1205-1228 | a complete append adds the new entry if the schema admits it and the file ended in a newline; after an unterminated line both that line and the new entry are unreadable |
| `EpochAllocator.LandedEntry` | scripts/taskhub_active_registry.py:1186-1204 | a call whose entry lands adds one valid line after the old ones: the request's time, host and signer, an epoch above counter and tail, the tail's hash, and a signature over all of it |
| `EpochAllocator.FinishedEntry` | scripts/taskhub_active_registry.py:1134-1253 | every finished call with a complete request on a terminated journal that is not blocked does that, and returns the epoch of the line as the new counter |
| `EpochAllocator.BlockedForever` | scripts/taskhub_active_registry.py:1163-1177 | a non-empty journal without a valid line makes every later call fail and changes nothing |
| `EpochAllocator.NotBlocked` | scripts/taskhub_active_registry.py:1163-1184 | otherwise, and only then, the next undisturbed call returns an epoch |
| `EpochAllocator.TornFirstAppendBlocks` | scripts/taskhub_active_registry.py:1163-1177 | a crash inside the very first append has that effect, whatever the size of the piece |
| `EpochAllocator.NewEntrySchema` | scripts/taskhub_active_registry.py:965-1001 | the schema admits a new entry exactly if the request has no empty field |
| `EpochAllocator.FirstCallBlocksExactly` | scripts/taskhub_active_registry.py:1134-1253 | without any crash the call after the first one succeeds if and only if the first request had no empty field; otherwise the first call returns epoch 1 and no later call ever succeeds |
| `EpochAllocator.EpochStore.AllocateNextEpoch` | scripts/taskhub_active_registry.py:1089-1257 | the statements compute the specified allocation; a returned epoch is the new counter and above the old one, and the journal has grown by one signed line with that epoch and the request's time, host and signer |
| `EpochFraming.FramingHolds` | scripts/taskhub_active_registry.py:858-1001 | a concrete line format with the schema check and an injective digest meets every assumption about journal lines |
| `EpochFraming.RemaindersHold` | scripts/taskhub_active_registry.py:1020-1065 | for it, whatever is read from a remainder of a glued line is a whole piece of that line that meets the schema |
| `EpochFraming.IdealHashHolds` | scripts/taskhub_active_registry.py:868-877 | its digest is the same exactly for payloads with one normal form and never the initial hash |
| `EpochFraming.JointRunBreaksChain` | scripts/taskhub_active_registry.py:1020-1070 | for it, a concrete run of four complete requests keeps the chain for three calls and breaks it with the fourth, after one torn append and one line of exactly 64 KiB |
| `DestructiveLock.FlockInvStep` | scripts/taskhub_destructive_lock.py:108-238 | every step of every process keeps the lock table and the processes' view in agreement, with death at any point (also between truncating and writing the payload) and with a failing unlink, truncate, write or sync |
| `DestructiveLock.FlockExclusion` | scripts/taskhub_destructive_lock.py:108-238 | over every interleaving at most one process holds the flock on an inode |
| `DestructiveLock.WithBlockExclusion` | scripts/taskhub_destructive_lock.py:172-238 | at most one process is in the with-block in every run where no unlink falls between another process's open and its flock, in acquire or in cleanup, except a cleanup open of a file that names the opening process |
| `DestructiveLock.EntersFree` | scripts/taskhub_destructive_lock.py:172-238 | a process at the open can always come inside when nobody holds the file at the path, on that inode and with its own pid in the file |
| `DestructiveLock.BusyRefused` | scripts/taskhub_destructive_lock.py:194-201 | when somebody holds it the attempt ends outside and changes nothing else |
| `DestructiveLock.HandOver` | scripts/taskhub_destructive_lock.py:172-238 | after the process inside leaves or dies, a process that waits at the open can come inside on the same inode |
| `DestructiveLock.CleanupExactly` | scripts/taskhub_destructive_lock.py:108-138 | the cleanup goes on to the removal exactly if nobody holds the file and it names a process that no longer exists; otherwise it gives up and leaves everything as it was |
| `DestructiveLock.StaleRemoved` | scripts/taskhub_destructive_lock.py:124-138 | a stale file is taken off the path, its lock is released and the process goes on to acquire |
| `DestructiveLock.DisturbedOpenBreaksExclusion` | scripts/taskhub_destructive_lock.py:172-196 | every unlink between another process's acquiring open and its flock can be continued to two processes inside |
| `DestructiveLock.DisturbedCleanupBreaksExclusion` | scripts/taskhub_destructive_lock.py:108-138 | the same for an unlink between another process's cleanup open and its flock, unless the file names that process; the named process may exist again |
| `DestructiveLock.DisturbedUnlinkBreaksExclusion` | scripts/taskhub_destructive_lock.py:108-238 | the side condition is exact: the first unlink of any run that violates it can be continued to two processes inside |
| `DestructiveLock.StaleInvRun` | scripts/taskhub_destructive_lock.py:108-138 | in every run a file judged stale keeps naming another process than the one that judged it |
| `DestructiveLock.ExclusionFailsWithoutCondition` | scripts/taskhub_destructive_lock.py:108-238 | a complete run from the initial state to two processes in the with-block |
| `IssuanceJournal.AcceptsExactly` | scripts/taskhub_approval_issuance.py:211-285 | an entry is accepted exactly if its key is active, its clock source is permitted and moved, its time is readable, and sequence number, clock, time, hash and predecessor time follow the entry before or the fixed start |
| `IssuanceJournal.RejectionTells` | scripts/taskhub_approval_issuance.py:211-285 | every rejection names something that is wrong with the entry |
| `IssuanceJournal.CanonicalPins` | scripts/taskhub_approval_issuance.py:181-200 | hashed payloads are equal exactly if all fields but the signature agree up to spelling |
| `IssuanceJournal.SequenceNumbers` | scripts/taskhub_approval_issuance.py:211-285 | in every accepted journal entry i has sequence i+1 |
| `IssuanceJournal.ClockIncreases` | scripts/taskhub_approval_issuance.py:240-275 | clock attestation values strictly increase between any two positions |
| `IssuanceJournal.WallTimeBound` | scripts/taskhub_approval_issuance.py:240-275 | wall time at j is at least wall time at i minus 5 (j - i) seconds |
| `IssuanceJournal.WallTimeBoundTight` | scripts/taskhub_approval_issuance.py:240-275 | the bound is reached at every distance: for every length there is an accepted journal that meets it with equality between any two entries |
| `IssuanceJournal.RedatedAccepted` | scripts/taskhub_approval_issuance.py:240-275 | any accepted entry may be re-dated to five seconds before its predecessor |
| `IssuanceJournal.OnlyPrefixes` | scripts/taskhub_approval_issuance.py:211-285 | the only accepted sequences built from a journal's entries are its prefixes |
| `IssuanceJournal.LastDeterminesJournal` | scripts/taskhub_approval_issuance.py:211-285 | accepted journals with equal last payloads have equal length and, up to spelling, agree in every field but the signature everywhere |
| `IssuanceJournal.SignaturesOutsideChain` | scripts/taskhub_approval_issuance.py:211-285 | replacing signatures changes no verdict |
| `IssuanceJournal.SignThenCheck` | scripts/taskhub_approval_issuance.py:288-319 | a signed entry verifies, keeps its chain verdict, and its signature fits only entries that agree, up to spelling, in every other field |
| `CommitCertificate.ComputeRequiredHostIdsHash` | scripts/taskhub_active_registry.py:774-795 | the seen-set loop and the digest compute the specified host-list hash, or refuse a repeated id |
| `CommitCertificate.HashIgnoresOrder` | scripts/taskhub_active_registry.py:774-795 | the host-list hash does not depend on order |
| `CommitCertificate.HashPinsHosts` | scripts/taskhub_active_registry.py:774-795 | equal hashes mean equal hosts when the ids that occur have distinct NFC forms |
| `CommitCertificate.HashConfusesSpellings` | scripts/taskhub_active_registry.py:774-795 | two spellings of one NFC form share a hash |
| `CommitCertificate.HashPinsExactly` | scripts/taskhub_active_registry.py:774-795 | for any stock of host ids, equal hashes of lists over it force equal hosts if and only if the ids of the stock have distinct NFC forms |
| `CommitCertificate.NormalIdsPinned` | scripts/taskhub_active_registry.py:774-795 | in particular for ids in NFC |
| `CommitCertificate.VerifyTiming` | scripts/taskhub_active_registry.py:697-771 | the timing checks compute the specified verdict; check (5) is proved never to fire |
| `CommitCertificate.VerifyCommitMarker` | scripts/taskhub_active_registry.py:639-771 | all checks together compute the specified verdict with its reason |
| `CommitCertificate.AcceptsExactlyCertificates` | scripts/taskhub_active_registry.py:639-771 | with a real resolver the check accepts exactly the certificates: distinct hosts, each signs once, times in order, a preimage digest over the normal forms of the twelve bound fields, and every signature over time, preimage, host and signer with the key looked up for that host and signer |
| `CommitCertificate.VerdictIgnoresOrder` | scripts/taskhub_active_registry.py:639-771 | permuting hosts or signatures never changes acceptance |
| `CommitCertificate.CertificatePins` | scripts/taskhub_active_registry.py:565-592 | accepted certificates with one preimage digest agree, up to spelling, on each of the twelve bound fields and, if the ids that occur have distinct NFC forms, on the hosts |
| `CommitCertificate.UnverifiedExactly` | scripts/taskhub_active_registry.py:639-771 | with the test-only sentinel it accepts exactly what is a certificate up to the signatures |
| `CommitCertificate.RejectsExactly` | scripts/taskhub_active_registry.py:639-771 | exactly when each of the reasons wrong host list, partial confirmation and invalid finalization is given |
| `CommitCertificate.TamperedRefused` | scripts/taskhub_active_registry.py:565-592 | changing any bound field of an accepted marker beyond its spelling makes it refused, whatever hosts and resolver |
| `CommitCertificate.ConfirmationPins` | scripts/taskhub_active_registry.py:754-771 | a host signature that verifies for one time, preimage, host and signer fits no other |
| `Normalisation.NormaliseExactly` | scripts/taskhub_active_registry.py:164-194 | the pass fails exactly if some nested object has two keys with one normal form, and otherwise returns the value with every string replaced, no key, item or order lost |
| `Normalisation.NormaliseIdempotent` | scripts/taskhub_active_registry.py:164-194 | for an idempotent normaliser, normalising twice is normalising once |
| `Normalisation.NormalisedKeysDistinct` | scripts/taskhub_active_registry.py:164-194 | every object of the result has distinct keys |
| `ApprovalRecords.BackupRoundTrip` | scripts/taskhub_signed_approval.py:536-585 | a written backup claim parses exactly if its texts are not empty, and comes back without the runtime binding |
| `ApprovalRecords.RestoreRoundTrip` | scripts/taskhub_signed_approval.py:588-638 | a written restore claim parses exactly if its texts and DSN parts are not empty, and comes back unchanged |
| `ApprovalRecords.RollbackRoundTrip` | scripts/taskhub_signed_approval.py:642-707 | a written rollback claim parses exactly if its formats are right, and comes back unchanged |
| `ApprovalRecords.PayloadCoversRecord` | scripts/taskhub_signed_approval.py:345-410 | equal signed payloads mean equal records up to the signature |
| `ApprovalRecords.WrittenLoads` | scripts/taskhub_signed_approval.py:428-530 | a well-formed written record loads exactly if its decider is not empty and its claims parse, and loses only the binding |
| `ApprovalRecords.IssuedLoads` | scripts/taskhub_approval_cli.py:208-360 | the same for every record the issuer accepts |
| `ApprovalRecords.SignatureBindsRecord` | scripts/taskhub_signed_approval.py:1003-1008 | an issued signature fits a record exactly if it is the issued record |
| `ApprovalRecords.RoundTripExactly` | scripts/taskhub_signed_approval.py:888-1009 | the verdict on an issued record for its own subcommand, claims and target at any time: verified exactly if the decider is not empty, the claims parse, the target is not all blanks, no runtime binding was attached, and the time is in the window |
| `ApprovalRecords.VerifiedIsIssued` | scripts/taskhub_signed_approval.py:888-1009 | whatever the file says, a verified record with an issued signature is the issued record (what it then permits is in `VerifiedAssertsIssued`) |
| `ApprovalVerdict.VerifiedExactly` | scripts/taskhub_signed_approval.py:888-1009 | the gate accepts if and only if the file holds a record of that id, the time is in its window (five minutes ahead, 48 hours long), subcommand, drill kind and target are in its scope, the claim asserted for the subcommand is the recorded one, and the signature fits the whole record |
| `ApprovalVerdict.RefusalTells` | scripts/taskhub_signed_approval.py:888-1009 | every refusal of a loaded record names something that is wrong with it, and the signature is looked at last |
| `ApprovalVerdict.VerifiedAssertsIssued` | scripts/taskhub_signed_approval.py:888-1009 | an accepted request with an issued signature asserts an issued subcommand that its drill kind permits, and the issued claim, target and window |
| `ApprovalVerdict.DrillExactly` | scripts/taskhub_signed_approval.py:108-121 | which subcommand each drill kind permits, entry by entry |
| `ApprovalVerdict.LoadsExactly` | scripts/taskhub_signed_approval.py:428-530 | a file loads as a record if and only if it is an object that holds exactly that record, scalar by scalar and claim by claim, under the id asked for |
| `ApprovalVerdict.ParseBackupExactly` | scripts/taskhub_signed_approval.py:536-585 | an object parses as a backup claim exactly if it holds the five fields of that claim, nothing unknown, and its binding, none or null |
| `ApprovalVerdict.BackupHeld` | scripts/taskhub_approval_cli.py:323-330 | a backup claim is written and signed with each of its fields under its own name; the binding is signed, not written |
| `ApprovalVerdict.ParseRestoreExactly` | scripts/taskhub_signed_approval.py:588-638 | the restore claim parser accepts exactly what its printer prints |
| `ApprovalVerdict.ParseRollbackExactly` | scripts/taskhub_signed_approval.py:642-707 | the same for rollback claims |
| `ApprovalVerdict.IdIsFileName` | scripts/taskhub_signed_approval.py:330-340 | an admissible id is one file name: not empty, no slash, no leading dot |
| `ApprovalVerdict.IssuesExactly` | scripts/taskhub_approval_cli.py:208-300 | the issuer signs if and only if the key is usable, id and reason are well formed, the one subcommand is permitted by the drill kind and has its target and claim, and the window is ordered and at most 48 hours |
| `ApprovalVerdict.IssueRefusalTells` | scripts/taskhub_approval_cli.py:208-300 | every refusal to issue names something that is wrong with the options, and the key is looked at last |
| `ApprovalVerdict.IssuedIs` | scripts/taskhub_approval_cli.py:289-311 | what is signed holds each option under its own field, with the times printed |
| `ApprovalWitness.LibrarySound` | scripts/taskhub_signed_approval.py:345-410 | an injective printer and signer meet every assumption about the library |
| `ApprovalWitness.RoundTripHappens` | scripts/taskhub_signed_approval.py:888-1009 | with them a concrete approval is issued, written, loaded and verified |
| `ApprovalRecords.TruncatedTtl` | scripts/taskhub_approval_cli.py:289-291 | printing times to the second never lengthens a record's life beyond 48 hours |
| `ApprovalRecords.ApprovalStore.WriteRecord` | scripts/taskhub_approval_cli.py:380-413 | exclusive create and the offset loop leave the whole content, nothing new, or (if removal fails too) a proper prefix; an existing file is never touched |
| `ApprovalRecords.ApprovalStore.IssueRecord` | scripts/taskhub_approval_cli.py:208-413 | issuing rejects with the first failing check and changes nothing, or writes exactly the issued record's file |
| `DraftGuard.SignatureInjective` | frontend/lib/full-reload.ts:136-149 | equal content signatures mean equal contents when no control name is another one followed by an equals sign and no text holds NUL |
| `DraftGuard.SignatureConfuses` | frontend/lib/full-reload.ts:136-149 | whenever a name is another one followed by an equals sign, two contents share a signature |
| `DraftGuard.SeparatesExactly` | frontend/lib/full-reload.ts:136-149 | the signature tells all contents over a set of control names apart if and only if no name is another one followed by an equals sign |
| `DraftGuard.NulConfuses` | frontend/lib/full-reload.ts:136-149 | a value with NUL can pass for two controls, whatever the names |
| `DraftGuard.CapturesConfirmed` | frontend/lib/full-reload.ts:83-100 | every captured signature is that of a draft the user agreed to discard for that handler |
| `DraftGuard.DraftLossConfirmed` | frontend/lib/use-deferred-router-refresh.ts:26-46 | over every interleaving, with names that meet this condition, a dirty draft disappears only by its own component, by the commit of a handler for which exactly that content was confirmed, or by a reload confirmed while it was on the page |
| `DraftGuard.ConfirmedIsDiscarded` | frontend/lib/full-reload.ts:151-172 | conversely, over every run a commit does discard the draft confirmed for its handler if it is still there: the guard is clean and shows what it was mounted with |
| `DraftGuard.EffectExactly` | frontend/lib/use-deferred-router-refresh.ts:29-41 | in every reachable state the effect reloads exactly if a refresh is due and no draft is on the page or the user agrees, otherwise leaves every guard alone, and is then not due again |
| `DraftGuard.SwapLosesDraft` | frontend/lib/full-reload.ts:151-172 | two contents with one signature: a run in which the second is discarded though only the first was confirmed |
| `DraftGuard.ProtectedExactly` | frontend/lib/use-deferred-router-refresh.ts:26-46 | on pages with a given set of control names no commit of any run discards an unconfirmed draft if and only if no name is another one followed by an equals sign |
| `DraftGuard.Page.HasUnsavedDraft` | frontend/lib/full-reload.ts:30-43 | true exactly if some guard outside the excluded region is dirty |
| `DraftGuard.Page.CollectDirtyGuards` | frontend/lib/full-reload.ts:107-121 | collects exactly the dirty guards outside the excluded region, in document order |
| `DraftGuard.Page.GuardSignature` | frontend/lib/full-reload.ts:136-149 | the loop computes the specified signature |
| `DraftGuard.Page.PrepareDiscardOnCommit` | frontend/lib/full-reload.ts:83-100 | approves exactly if nothing is dirty or the user agrees, and captures the drafts shown |
| `DraftGuard.Page.DiscardCaptured` | frontend/lib/full-reload.ts:151-172 | the loop resets exactly the guards whose content still has its captured signature |
| `DraftGuard.Page.RunEffect` | frontend/lib/use-deferred-router-refresh.ts:29-41 | reloads exactly if a refresh was requested and nothing is dirty or the user agrees |
| `WorkerPool.WorkerCount` | frontend/lib/map-with-concurrency.ts:25-26 | at least one worker, at most floor(limit) for finite limits of one or more, never more than items, and exactly the smaller of the two |
| `WorkerPool.EachIndexOnce` | frontend/lib/map-with-concurrency.ts:28-35 | whatever the schedule the iterator hands out 0, 1, 2, ...: no index twice, none skipped |
| `WorkerPool.BoundedInFlight` | frontend/lib/map-with-concurrency.ts:25-37 | at most max(1, floor(limit)) calls are in flight in every reachable state |
| `WorkerPool.SomeStepEnabled` | frontend/lib/map-with-concurrency.ts:31-37 | until all workers have stopped some step is enabled |
| `WorkerPool.RunsEnd` | frontend/lib/map-with-concurrency.ts:31-37 | every schedule has at most two steps per item and one per worker |
| `WorkerPool.ResultsInOrder` | frontend/lib/map-with-concurrency.ts:22-38 | when all workers finish, the result at i is fn(items[i], i) |
| `WorkerPool.StoredExactly` | frontend/lib/map-with-concurrency.ts:22-37 | in every reachable state the result at i is stored exactly if i was handed out and no worker holds it, and is then fn(items[i], i) |
| `WorkerPool.RejectionLeavesHole` | frontend/lib/map-with-concurrency.ts:31-37 | a call in flight can reject at any time; its worker then stops for good and its index is never filled |
| `WorkerPool.MapWithConcurrency` | frontend/lib/map-with-concurrency.ts:17-39 | with a result array and any scheduler the helper returns fn(items[i], i) in input order |

## Left out

- JournalStaysChained: the hash links are stated for runs in which no search window starts at a joint between glued pieces; outside them that part is false (`JointRunBreaksChain`), and `OnlyLinksBreak` gives the exact condition.
- ProtectedExactly: about commits; the other ways a draft can go are in `DraftLossConfirmed`. Control names and values with NUL are outside both.
- RestoreApplied: takes services that start healthy to have written nothing before the call returns.
- ManifestPins: says nothing about directories, which the digest does not cover, nor about names and link targets with a line break, where the claim is false (`MerkleInjectiveExactly`).
- Subprocess, docker, ssh, age, psql and Redis calls: only success, failure and effect on the abstract stores are kept.
- File modes, O_NOFOLLOW, fsync and permission checks, ownership of key files, and writing to standard error.
- A link whose target cannot be read, which the snapshot digest takes for an empty target.
- Symbolic links in an extracted archive: the checksum model resolves names inside the extracted tree only.
- The root inode check of the copy walk, since its result is one more refusal before the walk starts.
- The age recipient and compose metadata checks of the backup command, which read one file and compare one digest.
- Directory creation and the symbolic-link check of the approval directory, and the audit extras of the verifier.
- Nested draft guards: guards are disjoint regions here, as on the pages that use them; a draft is what its form controls show, which is the convention the module documents.
- The number and string encoding inside the `rfc8785` library and the key ordering of section 3.2.3 of RFC 8785.
- Calendar arithmetic: the time printer and parser are assumed to invert each other to the second for the times of a record, which excludes years before 1000.
- Concurrent calls of the epoch allocator, which its file lock excludes, and a counter whose self-digest does not match, which makes every call raise.
- `verify_target_binding_consistency`, the port parsers, `evaluate_gate`, `verify_signer_host_ownership`, `require_approval_for_destructive`, the keyring predicates and `query_remote_compose_status`: straight-line comparisons that would only add easy members.
- KPI, PITR and WAL scripts, settings, the CLI client, React components, middleware and migrations.
