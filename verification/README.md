# Verified models of the classroom platform

A Dafny model of the parts of the platform in which an interleaving, a crash or a graph decides
whether data survives: the two deletion journals of the board server, the checker of course bundles,
the registry of imported activities, the catalog of headings, and five protocols over shared
resources. What is proved is about every input, every run and every reachable state of the model.

`dafny verify dfyconfig.toml` checks everything. The files, by topic:

| files | topic |
|---|---|
| `ActivityDeletion.dfy`, `ActivityDeletionRuns.dfy` | deletion of an activity draft, with tombstone, journal and recovery |
| `AssignmentDisk.dfy`, `AssignmentDeletion.dfy`, `AssignmentDeletionRuns.dfy` | deletion of an assignment record with all its help logs |
| `PathCollision.dfy`, `ImportCycles.dfy`, `BundleManifests.dfy`, `ImportClosure.dfy`, `BundleIndex.dfy`, `BundleContents.dfy`, `BundleCollisions.dfy`, `BundleValidation.dfy` | the course-bundle checker |
| `RevisionRegistry.dfy`, `ActivityImport.dfy`, `ActivityImportRuns.dfy` | previews and publications of imported activities |
| `HeadingSections.dfy`, `HeadingForest.dfy`, `HeadingCatalog.dfy`, `CoursePlan.dfy` | headings, their sections, their forest and course plans over them |
| `LockRegistry.dfy` | the registry of keyed locks |
| `LessonGuard.dfy`, `LessonSessions.dfy` | the guard directory of lesson sessions |
| `SnapshotLease.dfy` | the two semaphores around Markdown snapshots |
| `BlobCache.dfy`, `InstallExecutor.dfy` | the blob cache and the plan executor |

How the models are built:

- **Crashes.** A disk is a value. Each primitive appends the disk it leaves to a ghost `trace`, so a
  crash between any two primitives is a prefix of the trace. An atomic write with its flush has three
  outcomes: done, failed without effect, failed after taking effect. A disk *means* what a completed
  recovery makes of it (`Shows`, `Means`); a deletion is then one atomic step of that meaning, and
  every other step, recovery included, leaves it alone. That is also why a recovery can be cut short
  and begun again anywhere.
- **Imperative parts** are classes and methods over the fields the original changes, proved against
  relations or functions about which the lemmas then speak. Any choice of the environment
  (does this primitive fail, in which order are files listed, what do other processes do meanwhile)
  is left open.
- **Concurrency** is a state machine. A run is any sequence of enabled steps of any number of
  participants. `LessonSessions.dfy` ties the class to its machine: its methods act only through
  machine steps, with arbitrary steps of others in between.

## What the models found

- *A help log can be lost.* In `stage_help_logs_for_deletion` a log is entered in `staged_logs` only
  after the two flushes that follow its move (`scripts/course_board_server.py:1562-1565`). If one of
  the flushes fails, the handler does not move this log back, and its purge removes the log although
  the record survives. The exact condition, with any number of failing primitives: the disk of a
  deletion is all or nothing until the purge removes the first file of that log, and never again
  (`AssignmentDeletionRuns.LossExactly`). With at most one failing primitive that is: unless the call
  raised at this flush (`DeletionSession`). Runs may contain such calls; record and all other logs are
  still all or nothing (`RunHasReading`). `FlushFailureLosesTheLog` is the smallest instance.
- *A deletion that was retried before a recovery blocks every later recovery.* If the rename of
  `scripts/course_board_server.py:2017` fails, its `prepared` journal stays behind; if a second
  attempt then succeeds, recovery raises at line 1940 (`RetryBeforeRecovery`), and so does every later
  one, however often it is tried (`StuckForever`). `DeletionOverOlder` says exactly which older
  journals do no harm.
- *An activity deletion can raise although the draft is gone for good.* That happens if and only if
  the activities that remain cannot be listed for the answer at line 2076, for instance because the
  registry of imported activities is malformed, or `cleanup` took effect although its write failed and
  then the journal cannot be read at line 2056 or the repeated flush at line 2062 fails. The first
  takes no failing primitive of the deletion at all, the others at least two
  (`DraftsDirectory.Delete`). `CompletedButRaised` and `CommittedButRaised` are the smallest instances.
- *An assignment deletion can raise although record and logs are gone for good*, if and only if the
  assignments that remain cannot be listed for the answer at line 1753, for instance with a malformed
  `now` in the request, or the record is gone and the `rolling_back` journal of the handler did not
  reach the disk; the latter takes at least two failing primitives (`AssignmentFiles.Delete`,
  `AssignmentDeletionRuns.CompletedButRaised`).
- *An assignment that is reported as already deleted can come back*, if and only if an interrupted
  rollback has still to write its record (`AlreadyDeletedIsFinal`, over runs; `InterruptedRollback`
  reaches such a disk).
- *A confirmed deletion can be undone by a recovery*: if a rollback was cut short after it had written
  the record, a retry works in a second quarantine and answers ok, and the next recovery brings record
  and copied logs back. Exactly the older journals that say `rolling_back` do that
  (`RetryBesideQuarantine`).
- *A publication can be refused because of an unrelated package*: until the registry file exists, every
  revision of the history must be on disk as listed (`LegacyEditBlocks`).
- *The two section ends differ* for exactly those headings in whose indexed section a heading-shaped
  line of no greater level was refused by the title test of line 3327 (`SectionEndsAgree`; the smallest
  source is `RefusedTitleExtendsSection`). A refused line of a greater level does no harm.
- *`assigned_topics` counts a topic twice*, given distinct ids, if and only if an ancestor is requested
  after one of its descendants while neither it nor a heading above it had been requested before that
  descendant (`TopicsOfRequests`; the smallest plan is `SubsectionFirst`).
- *Restarts of an installation plan are unbounded* if and only if some step with a command is both
  `always_run` and `restart_after_success` and no step before it is `always_run` without a command
  (`RestartsAreBoundedExactly`; the smallest plan is `AlwaysRestarting`).

## Model

| member | source | states |
|---|---|---|
| `ActivityDeletion.InFlightMeaning` | scripts/course_board_server.py:2007-2063 | every directory of a deletion under way is recoverable and stands for all drafts until the journal says `cleanup`, and for all but the deleted one from then on |
| `ActivityDeletion.RestoringKeepsDrafts` | scripts/course_board_server.py:1932-1949 | bringing a tombstone back, by rename or by copy, changes nothing that a recovery would show |
| `ActivityDeletion.DraftsDirectory.Publish` | scripts/assignment_records.py:342-355 | an atomic replacement is done, failed without effect, or failed after taking effect |
| `ActivityDeletion.DraftsDirectory.Settle` | scripts/course_board_server.py:1911-1958 | one turn of the recovery loop passes only through directories that stand for the same drafts, and raises only on an inconsistent transaction or a failed primitive |
| `ActivityDeletion.DraftsDirectory.SettleFiles` | scripts/course_board_server.py:1932-1956 | the branches on the journal state: what becomes of draft and tombstone from any directory, and when recovery raises |
| `ActivityDeletion.DraftsDirectory.Recover` | scripts/course_board_server.py:1900-1965 | from a sound directory every intermediate directory of a recovery is sound and stands for the same drafts; a completed one leaves exactly those drafts and no journal or tombstone; with one transaction per draft it raises exactly on an unrecoverable directory or a failed primitive, and what is stuck stays stuck |
| `ActivityDeletion.DraftsDirectory.Delete` | scripts/course_board_server.py:1968-2077 | the commit point is the first directory whose journal says `cleanup`: before it the directory stands for all drafts, after it for all but this one; without a fault the directory loses the draft and nothing else, and the answer is ok if the remaining activities can be listed; a raise follows the commit point exactly in three named cases; on a clean directory, if the failed rename flush, `committed` write or `cleanup` write is the only fault, the call ends with exactly the old drafts and with no journal or tombstone; a missing draft or a link is answered without touching anything |
| `ActivityDeletion.DraftsDirectory.Finish` | scripts/course_board_server.py:2050-2077 | from `committed` to the answer: which answers follow the commit point, and what is left |
| `ActivityDeletion.DraftsDirectory.Announce` | scripts/course_board_server.py:2050-2062 | the `cleanup` journal is written, or found to have been written all the same; a raise after it took effect needs two faults; where the write failed without effect and nothing else fails, the draft is back |
| `ActivityDeletion.DraftsDirectory.Begin` | scripts/course_board_server.py:2016-2049 | until `committed` is written, through every failure and its handler, nothing was deleted; a failed flush or a failed `committed` write that is the only fault is put right before the raise |
| `ActivityDeletion.DraftsDirectory.Undo` | scripts/course_board_server.py:2025-2048 | the handler of a failed `committed` write keeps the draft; marked and without a further fault it leaves exactly the old drafts and nothing of the transaction, and where its own marker fails but the copy does not, the draft is back with its content |
| `ActivityDeletion.DraftsDirectory.Sweep` | scripts/course_board_server.py:2063-2070 | tombstone and journal go after the commit point, neither is needed, and on success nothing of the transaction is left |
| `ActivityDeletionRuns.CrashIsLegal` | scripts/course_board_server.py:1900-2077 | cutting a session after any number of its steps gives a session of which all theorems speak |
| `ActivityDeletionRuns.DeletionSession` | scripts/course_board_server.py:1968-2077 | each call on a directory without an older transaction of the draft, whatever fails in it, is a session of the runs below |
| `ActivityDeletionRuns.RecoverySession` | scripts/course_board_server.py:1900-1965 | each call, on any directory, is one too, and from a sound one raises only on a fault |
| `ActivityDeletionRuns.RunIsAtomic` | scripts/course_board_server.py:1900-2077 | after any run of deletions, recoveries, crashes and edits the directory recovers to what the crash-free reading of the run says, nothing else |
| `ActivityDeletionRuns.ConfirmedDeletionIsFinal` | scripts/course_board_server.py:2071-2077 | once deletion answered ok, no later recovery, crash or failure brings the draft back |
| `ActivityDeletionRuns.CompletedRecovery` | scripts/course_board_server.py:1900-1965 | a run that ends in a completed recovery leaves exactly the expected drafts on disk |
| `ActivityDeletionRuns.ContentSurvives` | scripts/course_board_server.py:2053-2059 | until the journal of the deletion says `cleanup`, the content is in the draft or in a tombstone that its journal still owes |
| `ActivityDeletionRuns.CommittedButRaised` | scripts/course_board_server.py:2050-2062 | a concrete unconfirmed deletion whose last directory already says `cleanup` and has lost the draft |
| `ActivityDeletionRuns.CompletedButRaised` | scripts/course_board_server.py:2063-2077 | a concrete unconfirmed deletion that leaves an empty directory |
| `ActivityDeletionRuns.OlderTransactions` | scripts/course_board_server.py:1932-1953 | a directory without the draft that older transactions name is recoverable with the draft gone if and only if each of them is `committed` without tombstone |
| `ActivityDeletionRuns.DeletionOverOlder` | scripts/course_board_server.py:1968-2077 | the same of every call that answers ok with nothing left to clean up, over whatever older transactions it met |
| `ActivityDeletionRuns.RetryBeforeRecovery` | scripts/course_board_server.py:2016-2017 | two calls of the deletion, the first failing at its rename and the second clean, after which recovery is stuck at the older journal |
| `ActivityDeletionRuns.StuckForever` | scripts/course_board_server.py:1932-1953 | no number of recoveries, completed or cut short, gets past a transaction that recovery is stuck at |
| `AssignmentDisk.WritingOneFile` | scripts/course_board_server.py:1447-1453 | writing the files of a log one by one only ever touches that one directory |
| `AssignmentDisk.PurgeKeepsMeaning` | scripts/course_board_server.py:1503-1522 | purging, in any order and cut anywhere, keeps what a disk means, once its logs are not needed |
| `AssignmentDisk.PurgeLoses` | scripts/course_board_server.py:1566-1569 | purging a quarantine that still holds a log damages that log, from its first removed file on, and nothing else |
| `AssignmentDisk.MarkerDecides` | scripts/course_board_server.py:1654 | with complete backups, writing `rolling_back` makes the disk mean the original record and logs |
| `AssignmentDisk.RecordDecides` | scripts/course_board_server.py:1614-1640 | with complete backups and a `prepared` journal, removing the record makes the disk mean that all is gone |
| `AssignmentDeletion.AssignmentFiles.Purge` | scripts/course_board_server.py:1503-1522 | the journal goes last; on success the quarantine is empty |
| `AssignmentDeletion.AssignmentFiles.PurgeWatching` | scripts/course_board_server.py:1503-1522 | a staged log is whole up to one position of the trace and never again from there on |
| `AssignmentDeletion.AssignmentFiles.Recover` | scripts/course_board_server.py:1580-1658 | every disk of a recovery means the same as the first one; a completed one shows it with an empty quarantine; it raises only on a failed primitive |
| `AssignmentDeletion.AssignmentFiles.RestorePersistent` | scripts/course_board_server.py:1464-1494 | replacing logs by their backups, removing the old tree first, can be cut and repeated anywhere |
| `AssignmentDeletion.AssignmentFiles.Unstage` | scripts/course_board_server.py:1614-1639 | with the record present, staged logs move back, by rename or by overlaying copy, without changing what the disk means |
| `AssignmentDeletion.AssignmentFiles.Stage` | scripts/course_board_server.py:1525-1570 | moving the logs away changes nothing yet; `lost` is the log whose flush failed after its move |
| `AssignmentDeletion.AssignmentFiles.Unwind` | scripts/course_board_server.py:1566-1569 | every disk of the handler means the original, except for a log that was not moved back: from the first of its files that the purge removes, exactly this log is damaged; without a further fault it comes to that, with everything else back in place and nothing left of the quarantine |
| `AssignmentDeletion.AssignmentFiles.Persist` | scripts/course_board_server.py:1413-1461 | when `prepared` is published, every backup is complete |
| `AssignmentDeletion.AssignmentFiles.RollBack` | scripts/course_board_server.py:1647-1658 | once its marker is written the disk means the original, at every step to the end; without a further fault it ends with the original and an empty quarantine |
| `AssignmentDeletion.AssignmentFiles.Commit` | scripts/course_board_server.py:1735-1752 | from `prepared` on, every disk means all or nothing; an ok answer means nothing is left, a marked failure means all is there; a marked failure without a further fault leaves the original and an empty quarantine |
| `AssignmentDeletion.AssignmentFiles.Delete` | scripts/course_board_server.py:1668-1760 | an assignment with received deliveries is refused, and only that, without touching anything; otherwise every disk of the call means the original record and logs until `prepared` is reached, and all or nothing from then on, but for one damaged log from a known position on, after a raise at its flush; without a fault everything is gone, and the answer is ok if the remaining assignments can be listed; a failure that is the only fault, other than of the first journal or the answer, is put right before the raise, but for a log whose flush failed; it raises over a complete deletion exactly in two named cases |
| `AssignmentDeletion.AssignmentFiles.Prepare` | scripts/course_board_server.py:1724-1734 | up to the `prepared` journal every disk means the original, but for one damaged log, and success needs no fault; a failure after the first journal that is the only fault leaves the original and an empty quarantine, but for a log whose flush failed |
| `AssignmentDeletionRuns.DeletionSession` | scripts/course_board_server.py:1668-1760 | each call is a session of the runs below; whatever fails in it, it is all or nothing if and only if it removed no file of an unflushed log; with at most one failing primitive, if and only if it did not raise at that flush; any other failure but of the first journal or the answer, if it is the only fault, ends with the original restored; an archived assignment is never confirmed as deleted and its session has no step |
| `AssignmentDeletionRuns.CrashIsLegal` | scripts/course_board_server.py:1580-1760 | cutting a session after any number of its steps gives a session of which all theorems speak |
| `AssignmentDeletionRuns.LossExactly` | scripts/course_board_server.py:1556-1569 | a disk of a deletion is all or nothing if and only if no file of an unflushed log has been removed yet |
| `AssignmentDeletionRuns.RecoverySession` | scripts/course_board_server.py:1580-1644 | each recovery is one too, and does not raise without a fault |
| `AssignmentDeletionRuns.OneMeaning` | scripts/course_board_server.py:1580-1644 | a disk recovers to at most one record with logs, so an interrupted recovery that is begun again ends the same |
| `AssignmentDeletionRuns.RunHasReading` | scripts/course_board_server.py:1525-1760 | after any run, with any mix of failures and crashes, the disk recovers to a crash-free reading of the run: each deletion happened, did not, or damaged the one log it had lost |
| `AssignmentDeletionRuns.CompletedRecovery` | scripts/course_board_server.py:1580-1644 | a completed recovery leaves that reading on disk, with an empty quarantine |
| `AssignmentDeletionRuns.DeletedOrIntact` | scripts/course_board_server.py:1525-1760 | one deletion and any recoveries: record and all logs have their original contents, or all are gone and the journal had reached `prepared`, if and only if the deletion removed no file of an unflushed log |
| `AssignmentDeletionRuns.RollingBackKeepsBackups` | scripts/course_board_server.py:1464-1494 | after any run, `rolling_back` implies that the record and each backup it names are those of a reading of the run |
| `AssignmentDeletionRuns.AlreadyDeletedIsFinal` | scripts/course_board_server.py:1680-1690 | after a run that left no record, a deletion that answers already deleted and a completed recovery: the record is still missing if and only if no journal said `rolling_back` |
| `AssignmentDeletionRuns.InterruptedRollback` | scripts/course_board_server.py:1647-1658 | concrete sessions that leave a `rolling_back` journal without the record, and with it |
| `AssignmentDeletionRuns.CompletedButRaised` | scripts/course_board_server.py:1749-1760 | a concrete unconfirmed session that leaves nothing |
| `AssignmentDeletionRuns.RetryBesideQuarantine` | scripts/course_board_server.py:1588-1613 | a deletion in a second quarantine that answers ok is final if and only if the older journal does not say `rolling_back`; otherwise recovery reinstates the record and the copied logs |
| `AssignmentDeletionRuns.FlushFailureLosesTheLog` | scripts/course_board_server.py:1562-1568 | a concrete session that loses a log while its record survives |
| `PathCollision.Lookup` | scripts/course_bundle_validation.py:322-334 | the three table lookups find an earlier clashing entry if and only if there is one |
| `PathCollision.AddPrefixes` | scripts/course_bundle_validation.py:341-342 | the table of proper prefixes stays complete and true |
| `PathCollision.CollisionErrors` | scripts/course_bundle_validation.py:318-343 | one error, in order, for exactly those entries with an equal, prefix or extending earlier key, naming such an earlier entry |
| `PathCollision.ClashingExactly` | scripts/course_bundle_validation.py:321-339 | the entries reported are those the quadratic check complains about |
| `PathCollision.NoClashAtAll` | scripts/course_bundle_validation.py:321-343 | nothing is reported exactly when no two entries clash |
| `ImportCycles.CycleSearch.Visit` | scripts/course_bundle_validation.py:471-484 | terminates; a reported cycle is a closed walk along import edges; otherwise all that was visited is finished after its imports |
| `ImportCycles.FindCycle` | scripts/course_bundle_validation.py:456-490 | reports nothing if and only if the import graph is acyclic, and otherwise a real closed walk |
| `ImportCycles.FinishedMeansAcyclic` | scripts/course_bundle_validation.py:478-484 | an order in which imports are finished first excludes every closed walk |
| `ImportClosure.Follow` | scripts/course_bundle_validation.py:511-536 | one import: the list keeps one entry for each discovered manifest, with a repetition-free lineage, in order of length |
| `ImportClosure.ListedIsShortest` | scripts/course_bundle_validation.py:511-536 | every import path to a manifest is at least as long as the listed lineage |
| `ImportClosure.Closure` | scripts/course_bundle_validation.py:493-537 | terminates; reports nothing if and only if each reachable manifest is acceptable; then lists each reachable manifest once with a real, repetition-free, shortest lineage; each reported lineage leads to a full import without a source or to a malformed manifest |
| `ImportClosure.FaultFound` | scripts/course_bundle_validation.py:514-534 | what is reported is a fault of a manifest at the end of an import path |
| `BundleIndex.ComposedIsMaterialized` | scripts/course_bundle_validation.py:247-266 | each path that `compose` emits is one that `_materialized_paths` returns at the same lineage |
| `BundleIndex.ComposedIsImported` | scripts/course_bundle_validation.py:269-288 | the same for the full imports of a manifest |
| `BundleIndex.IndexIsChecked` | scripts/course_bundle_validation.py:291-320 | each path of the generated index is among the entries of the collision check |
| `BundleIndex.IndexPathsAreApart` | scripts/course_bundle_validation.py:609-674 | if the collision check reports nothing, two different index paths never have equal or nested portable keys |
| `BundleContents.IndexExactly` | scripts/course_bundle_validation.py:609-660 | the index holds a unit if and only if a chain of full imports ends at a manifest that has it, with id and item paths moved below that chain |
| `BundleContents.OriginIsComposed` | scripts/course_bundle_validation.py:615-657 | no unit that a chain of full imports reaches is missing, from any manifest and lineage |
| `BundleContents.UnitsAreSorted` | scripts/course_bundle_validation.py:656 | the local units of a manifest come by their order and then by their id |
| `BundleContents.LocalUnitsComeLast` | scripts/course_bundle_validation.py:641-657 | they are the end of the index, none lost and none added |
| `BundleContents.ListedOrderIsKept` | scripts/course_bundle_validation.py:641-656 | units without an order of their own stay in the order in which the manifest lists them |
| `BundleContents.IndexInOrder` | scripts/course_bundle_validation.py:615-657 | the index has the unit of every full-import chain and position once, import by import with all that is below it, then the local units |
| `BundleCollisions.MaterializedComesFrom` | scripts/course_bundle_validation.py:247-266 | each materialized path is named by, or is content of, the manifest at the end of a chain of full imports, moved below that chain |
| `BundleCollisions.ComesFromIsMaterialized` | scripts/course_bundle_validation.py:247-266 | and none of those is missing |
| `BundleCollisions.AllListed` | scripts/course_bundle_validation.py:291-316 | the entries of the collision check are, one for one, the occurrences: each target, dependency target and local extension, each path of each full import once, and each content path that none of the former names once |
| `BundleCollisions.ApartExactly` | scripts/course_bundle_validation.py:291-343 | the check reports nothing if and only if no two different occurrences have equal or nested keys; two equal targets are two occurrences |
| `BundleCollisions.ReportedIsCollision` | scripts/course_bundle_validation.py:318-343 | each reported pair are the paths of two different occurrences that clash |
| `BundleValidation.NothingIsCut` | scripts/course_bundle_validation.py:620-625 | in an acyclic import graph the lineage guard never meets an import that is already on the lineage |
| `BundleValidation.ComposeOverClosure` | scripts/course_bundle_validation.py:615-657 | composing over the full import map and over the closure gives the same units, at every lineage |
| `BundleValidation.IndexOverClosure` | scripts/course_bundle_validation.py:609-674 | so the generated index is the same |
| `BundleValidation.ListedIsEverything` | scripts/course_bundle_validation.py:583-599 | checking the listed manifests checks each manifest that an import path reaches |
| `BundleValidation.TipsAreNodes` | scripts/course_bundle_validation.py:459-467 | the nodes of the cycle check are the listed manifests |
| `BundleValidation.LocalErrors` | scripts/course_bundle_validation.py:582-592 | the errors of the root and those of the imports: one for each listed manifest that fails its local checks, and no other |
| `BundleValidation.ManifestErrors` | scripts/course_bundle_validation.py:594-599 | no reference or collision errors if and only if no listed manifest has a bad reference or two clashing occurrences; each error names such a manifest and what is wrong with it |
| `BundleValidation.BundleErrors` | scripts/course_bundle_validation.py:568-606 | reports nothing if and only if the bundle is validated, in terms of manifests, occurrences and import paths alone; each reported error is real: its lineage leads to a manifest with that fault, its two paths belong to clashing occurrences, or its walk is closed |
| `BundleValidation.ValidatedIndex` | scripts/course_bundle_validation.py:568-674 | a validated bundle has an index with unique unit ids in which no two different paths collide, whichever import map it is composed over |
| `RevisionRegistry.OneVisibleRevision` | scripts/activity_revision_registry.py:160-165 | of the history of an active activity exactly the active revision is visible |
| `RevisionRegistry.EnrollingAll` | scripts/course_activity_import.py:446-449 | enrolling a batch keeps the registry well formed, gives each changed item its new active revision, touches no other, and rewrites no history |
| `ActivityImport.ComparisonExactly` | scripts/course_activity_import.py:267-302 | an activity is new, unchanged or an update exactly under the stated conditions on registry, local catalog, repository and files on disk; otherwise it is a conflict |
| `ActivityImport.PreviewIsSound` | scripts/course_activity_import.py:323-350 | the items of a preview are the selected ones, and ambiguous identities are conflicts |
| `ActivityImport.TargetPublishes` | scripts/course_activity_import.py:446-453 | the registry that is written extends the old one and publishes every item of the batch, changed or not |
| `ActivityImport.TargetIsBatchOnly` | scripts/course_activity_import.py:446-449 | no other activity, and no unchanged item, gets another active revision, and nothing but the batch is added to the history |
| `ActivityImport.ItemIsPublished` | scripts/course_activity_import.py:267-302 | each item that compares as previewed has an active revision with the previewed digests, and its files on disk |
| `ActivityImport.ImportService.Open` | scripts/course_activity_import.py:311-370 | a preview is stored with its repository, commit and snapshot; each item is its selected source, a conflict where ambiguous, and otherwise what the comparison with that snapshot says |
| `ActivityImport.ImportService.Recheck` | scripts/course_activity_import.py:404-416 | succeeds if and only if every item still compares as previewed, and returns the changed ones |
| `ActivityImport.ImportService.Publish` | scripts/course_activity_import.py:385-456 | every stored state on the way has the old registry or, with all packages in place, the one that publishes the whole preview; without a failing primitive an open, unused preview is applied if and only if it agrees, its directory is free, and all revisions are on disk as listed or the registry file exists; what each answer leaves behind; activities outside the batch keep their active revision, and unchanged items keep theirs |
| `ActivityImport.LegacyEditBlocks` | scripts/course_activity_import.py:417-420 | a preview of a new activity that agrees and is refused because another package of the first format was edited |
| `ActivityImport.ImportService.WriteRegistry` | scripts/activity_revision_registry.py:143-157 | the one commit point of the batch |
| `ActivityImportRuns.PublicationEvent` | scripts/course_activity_import.py:385-456 | each call, a retry included, is an event of the histories below; a known token returns the recorded result and changes nothing |
| `ActivityImportRuns.RegistryOnlyGrows` | scripts/activity_revision_registry.py:76-100 | over any run history and operations are never changed or removed, and each active pointer names a history entry with its own id |
| `ActivityImportRuns.EffectIsWhole` | scripts/course_activity_import.py:427-453 | a publication that changes the registry, confirmed or crashed, makes its whole batch active, on the snapshot it was previewed against; nothing outside the batch changes |
| `ActivityImportRuns.AppliedTookEffect` | scripts/course_activity_import.py:450-456 | an applied publication changed the registry |
| `ActivityImportRuns.EffectIsForever` | scripts/activity_revision_registry.py:143-157 | the registry never returns to a state before a publication |
| `ActivityImportRuns.OnePublicationPerSnapshot` | scripts/course_activity_import.py:400-402 | of all previews taken from one snapshot at most one is ever published |
| `ActivityImportRuns.TokenIsIdempotent` | scripts/course_activity_import.py:388-392 | a token takes effect at most once and its recorded outcome never changes |
| `HeadingSections.CollectHeadings` | scripts/course_board_server.py:3318-3364 | a heading is in the index if and only if its line is heading-shaped with an accepted title, with that line number and level, in the order of the lines |
| `HeadingSections.CloserExactly` | scripts/course_board_server.py:3366-3374 | the section of a heading ends at the first later heading of no greater level, and nowhere else |
| `HeadingSections.SectionEnds` | scripts/course_board_server.py:3365-3374 | the one-pass stack computes that end for every heading |
| `HeadingSections.CloseSections` | scripts/course_board_server.py:3368-3374 | the inner loop settles exactly the sections that this heading closes |
| `HeadingSections.ScanSection` | scripts/course_board_server.py:3864-3876 | the naive scan returns the lines up to the first heading-shaped line of no greater level |
| `HeadingSections.SectionEndsAgree` | scripts/course_board_server.py:3323-3374 | both ends agree if and only if no refused heading-shaped line of no greater level lies inside the indexed section |
| `HeadingSections.RefusedTitleExtendsSection` | scripts/course_board_server.py:3323-3328 | two lines for which the two ends differ |
| `HeadingForest.EndExactly` | scripts/course_board_server.py:4067-4073 | a subtree is the contiguous run up to the next heading of another source or of no greater level |
| `HeadingForest.Laminar` | scripts/course_board_server.py:3940-3973 | two subtrees nest or are disjoint |
| `HeadingForest.FlattenForest` | scripts/course_board_server.py:4437-4444 | flattening the forest of any range gives its headings back in source order |
| `HeadingForest.ChildrenAreByParent` | scripts/course_board_server.py:3967-3973 | a heading is among the children of exactly the nearest earlier heading of its source with a smaller level |
| `HeadingCatalog.BuildCatalog` | scripts/course_board_server.py:3940-3975 | the stack algorithm leaves in every node the children of the reference forest, and its roots |
| `HeadingCatalog.Enter` | scripts/course_board_server.py:3969-3973 | entering one heading keeps all lists of children right for the headings so far |
| `HeadingCatalog.PopStack` | scripts/course_board_server.py:3967-3968 | popping keeps exactly the open headings that the next one falls below |
| `HeadingCatalog.ListsDescribeForest` | scripts/course_board_server.py:3969-3973 | complete lists of children, over any run of whole subtrees, are the reference forest of that run |
| `HeadingCatalog.CatalogTree` | scripts/course_board_server.py:3940-3975 | the catalog is the reference forest, and flattening that gives the heading list |
| `HeadingCatalog.FoundById` | scripts/course_board_server.py:4060 | looking a heading up by its id finds it if and only if no earlier one has the same id |
| `HeadingCatalog.ItemFromHeading` | scripts/course_board_server.py:4057-4083 | the extracted item is the subtree that the catalog has at the first heading with this id |
| `HeadingCatalog.BuildSubtree` | scripts/course_board_server.py:4065-4079 | the third stack stops at the end of the subtree and builds the same lists of children |
| `HeadingCatalog.FlattenSubtree` | scripts/course_board_server.py:4437-4444 | flattening one subtree gives its contiguous run of headings |
| `CoursePlan.CollectedIsFlattened` | scripts/course_board_server.py:4501-4513 | the two recursions over board items collect and count the flattened list |
| `CoursePlan.ItemIsItsRun` | scripts/course_board_server.py:4501-4513 | a hydrated item carries the ids of its run of headings and counts them |
| `CoursePlan.PlaceOne` | scripts/course_board_server.py:4465-4471 | one request is hydrated if and only if its id is valid and no hydrated subtree carries it |
| `CoursePlan.NormalizePlan` | scripts/course_board_server.py:4447-4498 | which requests are hydrated, in order and each in its own unit; with distinct ids `assigned_topics` is the number of shown headings if and only if ancestors are requested in time |
| `CoursePlan.UnitItems` | scripts/course_board_server.py:4459-4479 | each item of a unit is the heading of one of the requests of that unit |
| `CoursePlan.RequestsAreCovered` | scripts/course_board_server.py:4465-4471 | each valid request is shown in some hydrated subtree |
| `CoursePlan.ApartUnlessAncestor` | scripts/course_board_server.py:4465-4471 | two hydrated subtrees are disjoint unless the later root is an ancestor of the earlier one, whose run it then contains |
| `CoursePlan.SharedIds` | scripts/course_board_server.py:4501-4507 | with distinct ids, disjoint runs are disjoint sets of ids and conversely |
| `CoursePlan.TopicsCounted` | scripts/course_board_server.py:4494-4497 | the topic count is never too small, and exact if and only if the hydrated runs are pairwise disjoint |
| `CoursePlan.TopicsOfRequests` | scripts/course_board_server.py:4463-4497 | with distinct ids the count is exact if and only if each ancestor that is requested after a descendant had been requested, or a heading above it, before that descendant |
| `CoursePlan.SubsectionFirst` | scripts/course_board_server.py:4463-4497 | requests for a subsection and then its section count a topic twice; asking for the section first makes them harmless |
| `LockRegistry.ReachableInvariant` | scripts/course_board_server.py:326-353 | each step of any interleaving keeps entries, users, holders and table consistent |
| `LockRegistry.MutualExclusion` | scripts/course_board_server.py:344-348 | at most one call is inside the body for a key |
| `LockRegistry.OneLiveEntry` | scripts/course_board_server.py:331-336 | `users` is the number of calls between increment and decrement, an entry is in the table if and only if that is positive, and no key has two lock objects in use |
| `LockRegistry.QuietIsEmpty` | scripts/course_board_server.py:349-353 | when no call is under way the registry is empty |
| `LockRegistry.RefusedForAReason` | scripts/course_board_server.py:338-343 | a call is refused only while another one is inside the body for its key |
| `LockRegistry.RegisteredGoesOn` | scripts/course_board_server.py:336-343 | a registered call can go in exactly when nobody is inside for its key, and is refused exactly when somebody is and it does not block |
| `LockRegistry.BlockingIsNeverRefused` | scripts/course_board_server.py:336-343 | in no reachable state has a blocking call been refused, or can it be |
| `LockRegistry.UnusedIsPopped` | scripts/course_board_server.py:340-342 | the last user of an entry removes it; the identity test never keeps it alive |
| `LockRegistry.AlwaysAdmits` | scripts/course_board_server.py:331-336 | a new call can always register |
| `LockRegistry.NoDeadlock` | scripts/course_board_server.py:326-353 | while a call is under way some call can go on |
| `LockRegistry.StepsDecrease` | scripts/course_board_server.py:326-353 | every step but the start of a call brings the end of all calls nearer |
| `LessonGuard.StepKeeps` | installer/lesson_session.py:103-219 | each operation of any session, a crash, the exit of a child and foreign changes inside the guard keep the invariant |
| `LessonGuard.OneLesson` | installer/lesson_session.py:103-134 | at most one session owns a child or is verifying, and the guard exists while one does |
| `LessonGuard.OnlyCompleteRemoves` | installer/lesson_session.py:180-219 | the guard is removed only by the verifying session that made it, with all evidence and a child that ended with zero of its own, each single piece confirmed |
| `LessonGuard.LaunchIsAlone` | installer/lesson_session.py:123-134 | no child is started while another runs or is verified |
| `LessonGuard.RecoveryIsAbsorbing` | installer/lesson_session.py:103-219 | nothing leads a session out of `RECOVERY_REQUIRED`, over any continuation of a run |
| `LessonGuard.LeftBehindForever` | installer/lesson_session.py:103-121 | a guard whose maker crashed, failed or never learned of it is never reclaimed, and no lesson starts any more |
| `LessonSessions.LessonSession.constructor` | installer/lesson_session.py:76-88 | a new session requires recovery if and only if a guard is there |
| `LessonSessions.LessonSession.Start` | installer/lesson_session.py:103-134 | a lesson runs exactly on success, with the guard its own; a refusal does nothing, a failure requires recovery; with no guard there, nothing failing and nobody interfering it succeeds |
| `LessonSessions.LessonSession.Poll` | installer/lesson_session.py:141-161 | the state changes only when the child is known to have exited or cannot be asked, which takes a fault |
| `LessonSessions.LessonSession.RequestEnd` | installer/lesson_session.py:163-178 | succeeds if and only if the session is stopping; the child is asked once; refused, it leaves the state of an earlier poll |
| `LessonSessions.LessonSession.Complete` | installer/lesson_session.py:180-219 | closes only on sufficient evidence and by removing the guard itself; never from `RECOVERY_REQUIRED`; with an ended child, sufficient evidence, its own record in the guard, nothing failing and nobody interfering it does close |
| `SnapshotLease.MoveKeeps` | scripts/course_source_catalog.py:339-409 | each operation of caller, worker, items and finalizer keeps the references equal to the shares that are still owed |
| `SnapshotLease.MemoryGivenLast` | scripts/course_source_catalog.py:500-521 | the memory slot is given back once, when caller and worker are through, no item is left, and an abandoned result is cleared |
| `SnapshotLease.RetainIsSafe` | scripts/course_source_catalog.py:506-510 | a lease is never retained after it was released |
| `SnapshotLease.ItemsNeedAValue` | scripts/course_source_catalog.py:400-408 | items are returned only of a worker that was done, successful and never abandoned |
| `SnapshotLease.NotDoneIsAbandoned` | scripts/course_source_catalog.py:377-405 | a caller that goes on before its worker is done has abandoned it |
| `SnapshotLease.OverGivesBack` | scripts/course_source_catalog.py:524-555 | a request that is over gave each slot back as often as it took it, with the finalizer needed only where items were returned |
| `SnapshotLease.AbandonedIsCleared` | scripts/course_source_catalog.py:377-405 | whichever side comes last, the result of an abandoned worker is cleared |
| `SnapshotLease.BoundedAlways` | scripts/course_source_catalog.py:35-36 | at no time more than four snapshots or four acquisitions; no semaphore is released beyond its bound |
| `SnapshotLease.AllSlotsReturn` | scripts/course_source_catalog.py:339-555 | when every request is over all slots are free |
| `SnapshotLease.NeverStuck` | scripts/course_source_catalog.py:339-409 | until it is over, a request can take a step whatever the others do |
| `BlobCache.OpenCache` | scripts/course_github_markdown.py:232-238 | a cache exists exactly for a limit above zero and up to 512 MiB, and starts empty |
| `BlobCache.Cache.Get` | scripts/course_github_markdown.py:240-249 | a hit moves to the end, any two others keep their order, nothing else changes, and its verification never fails |
| `BlobCache.Cache.Put` | scripts/course_github_markdown.py:251-265 | the size is the sum of the lengths and within the limit; the new blob is last; the shortest least recent prefix is evicted; the survivors keep their order |
| `BlobCache.Cache.Evict` | scripts/course_github_markdown.py:263-265 | evicts no more than needed, from the front |
| `BlobCache.WithoutJoins` | scripts/course_github_markdown.py:245-263 | taking a blob out joins what was before it and what was behind it |
| `BlobCache.OthersKeepOrder` | scripts/course_github_markdown.py:248 | making a blob the most recent keeps the order of any two others |
| `BlobCache.PuttingKeepsOrder` | scripts/course_github_markdown.py:255-265 | of the blobs that survive a `put`, any two others come in their old order |
| `BlobCache.SurvivesExactly` | scripts/course_github_markdown.py:263-265 | a blob survives if and only if everything used since fits together with it |
| `BlobCache.NewestSurvives` | scripts/course_github_markdown.py:255-265 | the blob just put is never evicted |
| `InstallExecutor.ExecutePlan` | installer/executor.py:61-150 | nothing runs while something blocks; otherwise exactly the missing or always-run commands, in order, up to the first stop or cancellation, each status fitting its exit code |
| `InstallExecutor.BlockersInOrder` | installer/executor.py:81-89 | what blocks a plan is reported once each, in the order of the first checks |
| `InstallExecutor.LastCheckCounts` | installer/executor.py:77 | of several checks with one key the last one decides |
| `InstallExecutor.LastStepCounts` | installer/executor.py:78 | of several steps with one key the last one decides |
| `InstallExecutor.ExecuteStep` | installer/executor.py:117-144 | the status of one step, and that its command runs exactly when it is due |
| `InstallExecutor.RestartsAreBounded` | installer/executor.py:71-75 | if success makes a check pass for good and no step insists on restarts, there are at most as many restarts as steps |
| `InstallExecutor.RestartsAreEndless` | installer/executor.py:112-149 | a plan with a step that insists can ask for any number of restarts although what succeeded stays done |
| `InstallExecutor.RestartsAreBoundedExactly` | installer/executor.py:61-150 | restarts are bounded by the number of steps if and only if no step insists |
| `InstallExecutor.AlwaysRestarting` | installer/executor.py:117-149 | the smallest plan with unbounded restarts, and one in which a step by hand before it prevents them |

## Left out

- Durability under power loss: a flush changes nothing that is visible and may fail; nothing is said about reordered writes.
- The temporary file of an atomic write is invisible. A crash inside the very first journal write of an assignment deletion leaves a quarantine without journal, on which recovery raises; no data has moved by then.
- One transaction at a time: in the theorems about runs a draft has one deletion, and an assignment one quarantine, between two completed recoveries. Drafts are not created again while their `cleanup` journal is pending (recovery raises there).
- ActivityDeletionRuns.DeletionSession: promises a legal session only where no older journal names the draft; what a deletion over older transactions comes to is `DeletionOverOlder`.
- ActivityDeletion.DraftsDirectory.Recover: says when it raises only where each draft has one transaction, for the same reason.
- AssignmentDeletionRuns.DeletionSession: promises a session of the runs only where no quarantine of a present record is pending; what a deletion beside a pending one comes to is `RetryBesideQuarantine`.
- The order of journals in one recovery is arbitrary here, where the program sorts them by name; several quarantines of different assignments do not interact and are not modelled together.
- Help-log directories are distinct and flat: a log is a map from relative paths to contents, empty sub-directories and the directories above a log do not exist in the model.
- Schema versions, symbolic links and path checks of journals, dependency checks before a deletion, and the legacy v1 journal.
- JSON schema validation, local and reference checks of manifests and the folding of path components are parameters of the bundle checker; bundle ids contain no slash.
- Titles, text digests and error messages of bundles; only paths, ids, order and kinds of errors are kept.
- Digests are injective, so a digest is written as the bytes it stands for; the v1 registry migration is an arbitrary initial registry, which is taken not to change with the packages until the registry file exists.
- The lists in the answers of the two deletions: only whether they can be made up, as an input.
- Limits on counts, bytes, lines and characters (`MAX_*`), the expiry of previews (an expired one is an unknown token), and the HTTP layer.
- Global uniqueness of heading anchors: `github_anchor` does not give it. Lemmas that need distinct ids say so.
- Excerpts, titles, the `unplaced_topics` of a plan, and the empty id that `collect_item_ids` drops.
- The state machines of `LockRegistry.dfy` and `SnapshotLease.dfy` are values, not classes: what matters there is the interleaving of single operations, which a sequential method does not show. Python's lock objects, events and semaphores are atomic in them.
- Interrupts of the calling thread (`KeyboardInterrupt`) and failures of `thread.start` other than the one that is handled.
- Removing the guard directory by hand. Foreign processes may change what is in it but do not remove it.
- The blob cache under several threads: its methods run under one lock, so they are atomic here. The verification of a blob is a digest function.
- Labels, details, logging and progress callbacks of the plan executor.
