# Transactions, claims and generated evidence of MyLittleHarness, verified

This project models the parts of MyLittleHarness on which every mutating command rests, and proves what they
promise. `dafny verify dfyconfig.toml` checks all of it.

* **File transactions** (`FileSystems`, `Operations`, `RetriedPaths`, `Staging`, `SwapAndRollback`, `Cleanup`,
  `AtomicFiles`). The file system is a class: a map from paths to bytes, a set of directories, and a fault schedule
  that decides for every step and every primitive whether it works, fails, or fails in a way that is worth a retry. A
  fault is *clean* (nothing changes) or *torn* (a byte write leaves a partial file). A ghost trace records the
  files after every effect, so that statements about every moment, crashes included, are statements about the trace.
  The six-fold retries, the copy-then-unlink fallback, the reverse rollback and all
  cleanups are modelled as they are.
* **Work claims** (`WorkClaims`, `ClaimProtocol`, `ClaimRecords`, `FanInGate`). Any number of processes create, extend
  and release claims under one lock file; every process can crash at every point, and the unlinking of the lock can
  fail silently. `ClaimRecords` runs the real transaction for a record and shows that it leaves, at every moment and so
  also after a crash, only what the protocol assumes.
* **Context-memory capsules** (`ContextMemory`), **attachment import** (`AttachmentRequests`, `Attachments`), the
  **transition** orchestrator (`Transitions`) with its write-set summary (`WriteSets`), the **bounded search**
  (`McpSearch`) and the **config merge** (`CodexConfig`). `Common` holds what they share.

Text is bytes, hashing and rendering are parameters, and where a statement needs a digest that tells its inputs apart,
it says so. Nothing was executed.

## What turned out to be conditional

* *Claims can overlap.* The check under the lock skips records that it cannot read (it only warns), so a creation can
  be written past an active exclusive claim. `ClaimProtocol.OverlapIsReachable` is a run of five events that ends with
  two active exclusive claims on one route; `ClaimProtocol.StepKeepsApart` and `ClaimProtocol.ClaimsStayApart` show that
  there is no other way: over every run the claims stay apart if and only if it never happens. The documentation
  (docs/specs/metadata-routing-and-evidence.md:154) promises a refusal whenever the checks fail.
* *A config merge can drop another table.* The server's block is replaced up to the next line that ends in a bracket,
  and a header followed by a comment does not end in one. `CodexConfig.CommentedHeaderIsCut` is a text from which
  another server disappears while the apply reports success; `CodexConfig.ApplyIsExact` says for every text when the
  entries and the headers of the other tables are kept.
* *A config merge can leave a file that is no TOML.* With a root key `mcp_servers` (`CodexConfig.RootKeyBecomesInvalid`),
  or with a legacy server table whose header is not spelled as the merge spells it
  (`CodexConfig.OtherSpellingBecomesInvalid`), the merge writes a second definition before it reports the error.
  `CodexConfig.ApplyIsExact` has the exact condition.
* *Attachment import loses a file at its temporary path* when there is one: the preflight does not look there. After a
  failure without warnings, recovery errors and torn writes the files are the initial ones if and only if there was none
  (`Attachments.ImportAttachment`); `Attachments.FailedImportLosesFile` is a root where there was one.
* *The write-set summary is exact for a transition, but not for every list of findings.* Entries are de-duplicated by
  their first occurrence. `WriteSets.SummaryIsExact` is the exact condition. `WriteSets.RecreatedRouteIsSummarizedAbsent`
  is a list, true of what happened, that is summarized wrongly. The four delegates cannot produce one
  (`Transitions.TransitionSummaryIsRight`): each of them reports the writes of one file transaction, whose targets are
  distinct, under its own code, which only the two writeback steps share (writeback.py:4095-4130, planning.py:2569-2587
  and roadmap.py:4539-4544 in src/mylittleharness).
* *Released claims.* A release does not look at the current status, and a stale active claim still blocks creation.
  Both are modelled as written; neither lets a released claim become active again (`ClaimProtocol.ClaimHistory`).

## Model

| member | source | states |
|---|---|---|
| AtomicFiles.ApplyFileTransaction | src/mylittleharness/atomic_files.py:40-79 | all or nothing under any faults: exact refusal that touches nothing; a return means every target is as wanted, temporaries are gone, nothing else changed and a surviving backup holds the original and is named; a failure gives back every target it does not name, and without torn writes and recovery errors exactly the initial files and directories; at every moment before the commit point each original is at its target or its backup and each target holds the original, the new text, nothing, or an empty or torn file, after it every target is as wanted; a feasible transaction (nothing stands where a directory or file has to go) succeeds without faults and also when every fault is a permission-like one that fewer than six attempts meet; from one clean fault it always recovers completely |
| AtomicFiles.LeftoversAreKnown | src/mylittleharness/atomic_files.py:73-77 | with torn writes and no rollback errors every target is as before, and any leftover is a sidecar of the one operation that failed or is named |
| AtomicFiles.UnnamedFilesRestored | src/mylittleharness/atomic_files.py:73-77 | without torn writes, naming no target and no temporary means that every file of the file system is as before |
| AtomicFiles.SlotsRecovered | src/mylittleharness/atomic_files.py:74-76 | rollback followed by the removal of temporaries brings every operation's three paths into the promised state |
| AtomicFiles.Attempt | src/mylittleharness/atomic_files.py:54-72 | wherever staging or swapping stops, recovery finds what it relies on and no original is lost |
| AtomicFiles.Recover | src/mylittleharness/atomic_files.py:73-77 | from any such point: the recovered state, every original safe at every moment, and no rollback or temporary errors without faults (no error at all when no write was torn) |
| Operations.ValidateTransactionPaths | src/mylittleharness/atomic_files.py:109-170 | accepts exactly the lists whose operations own pairwise different paths, with free sidecars, all under the root |
| Operations.ListChecksSeparate | src/mylittleharness/atomic_files.py:115-132 | the uniqueness and overlap checks on the three lists mean that no two operations share any path |
| Operations.DistinctIffSetAsLarge | src/mylittleharness/atomic_files.py:115-123 | comparing the size of the set with the length of the list finds exactly the repetitions |
| Operations.PortableSidecarIsVisible | src/mylittleharness/atomic_files.py:100-106 | a sidecar loses exactly its leading dots, gets the fallback name when nothing else is left, stays in its directory, and normalizing is idempotent |
| Operations.PlannedAsAsked | src/mylittleharness/atomic_files.py:82-97 | the planned operation keeps target, text and kind of the one asked for and changes its sidecars only as above |
| Operations.SafetyExtends | src/mylittleharness/atomic_files.py:63-72 | steps confined to one operation keep all originals when they keep that operation's |
| RetriedPaths.ReplacePath | src/mylittleharness/atomic_files.py:248-265 | a rename that fails in a permission-like way is retried, up to six times in all; it succeeds if and only if one of the renames does before any other failure, or all six fail that way and the copy goes through; the copy runs in no other case; on return the bytes have moved, on an error the source is untouched and the target is old, new, gone or torn; at every moment the bytes are at one end and the target holds nothing foreign |
| RetriedPaths.ReplacePathByCopyUnlink | src/mylittleharness/atomic_files.py:268-277 | succeeds if and only if the read, the write and one of up to six removals of the source do; a copy whose source cannot be removed is taken away again unless all attempts at that fail too, and the bytes are never lost |
| RetriedPaths.UnlinkPath | src/mylittleharness/atomic_files.py:292-304 | makes exactly the attempts that the faults call for, at most six; removes exactly the path if and only if one of them works before a failure that is not worth a retry, and otherwise changes nothing |
| RetriedPaths.CopyPath | src/mylittleharness/atomic_files.py:280-281 | copies the bytes if and only if the read and the write work, or changes at most the target, which is then old or torn |
| Staging.StageWrites | src/mylittleharness/atomic_files.py:55-61 | stages every temporary and records every new directory; stopped anywhere, only the temporary at hand is in doubt |
| Staging.MissingParentDirs | src/mylittleharness/atomic_files.py:239-245 | finds exactly the ancestors that do not exist |
| SwapAndRollback.SwapTargets | src/mylittleharness/atomic_files.py:63-72 | backs up and swaps in order; stopped anywhere, the slots before it are committed, those after it staged, and no original is lost |
| SwapAndRollback.SwapTarget | src/mylittleharness/atomic_files.py:64-72 | one operation: committed, or stopped in a state that rollback can undo, safe at every moment |
| SwapAndRollback.RollbackAppliedOperations | src/mylittleharness/atomic_files.py:173-184 | undoes every recorded operation or names its target, whatever the fallback left, without endangering an original |
| SwapAndRollback.OneMoreUndone | src/mylittleharness/atomic_files.py:175-183 | undoing one more operation keeps what was undone |
| SwapAndRollback.RemoveKnownPathRemoves | src/mylittleharness/atomic_files.py:232-236 | removes the path and keeps all others |
| Cleanup.CleanupTemporaryWrites | src/mylittleharness/atomic_files.py:187-196 | every recorded temporary is gone or named |
| Cleanup.CleanupCreatedDirs | src/mylittleharness/atomic_files.py:199-209 | removes only recorded directories, names those that stay, and has no errors without faults when nothing else stands in them |
| Cleanup.DeepestFirst | src/mylittleharness/atomic_files.py:201 | each directory once, deeper ones first |
| Cleanup.NothingLeftInside | src/mylittleharness/atomic_files.py:201-203 | in that order each directory is empty when its turn comes |
| Cleanup.CleanupSuccessBackups | src/mylittleharness/atomic_files.py:212-222 | backups are gone or named and hold the original; targets stay as wanted at every moment |
| WorkClaims.OverlapMeansSharedFile | src/mylittleharness/claims.py:718-724 | two paths overlap exactly when some path lies under both, component by component; the test is symmetric |
| WorkClaims.SplitStartsWith | src/mylittleharness/claims.py:718-724 | a path begins with another and a slash, or equals it, exactly when its components begin with the other's |
| WorkClaims.SplitJoins | src/mylittleharness/claims.py:718-724 | the components of a path are its parts between slashes: joined by slashes they give the path back, and none has a slash |
| WorkClaims.NormalizeRefIs | src/mylittleharness/claims.py:1376-1377 | a normalized reference is the text with forward slashes and without white space at its ends, and nothing else |
| WorkClaims.OverlapNamesTheShared | src/mylittleharness/claims.py:681-715 | what an overlap names is exactly what both claims hold: routes, resources and, in each of the two tests, the paths that have a file in common |
| WorkClaims.OverlapTestsDecideConflict | src/mylittleharness/claims.py:681-715 | the test at creation and the test between records decide the same symmetric relation |
| WorkClaims.ActiveOverlapFindings | src/mylittleharness/claims.py:531-555 | one finding for each overlapping active exclusive pair, in order; none exactly when no pair overlaps |
| WorkClaims.FanInActiveOverlapBlockers | src/mylittleharness/claims.py:1310-1329 | the same on the files of the directory, of which only claim records count |
| WorkClaims.ClaimsInAre | src/mylittleharness/claims.py:1310-1329 | the claims of a directory are its claim records, all of them and in order |
| ClaimProtocol.MutualExclusion | src/mylittleharness/claims.py:774-799 | at most one process is between acquiring and releasing the lock |
| ClaimProtocol.SoundSteps | src/mylittleharness/claims.py:325-410 | every step of every process keeps the lock discipline and what the locked check established |
| ClaimProtocol.StepKeepsApart | src/mylittleharness/claims.py:657-678 | one step keeps active exclusive claims from overlapping if and only if it is not a creation past an unreadable record in its way |
| ClaimProtocol.ClaimsStayApart | src/mylittleharness/claims.py:325-410 | the same over every run of any number of processes with crashes, failed unlinks and failed or torn writes |
| ClaimProtocol.OverlapIsReachable | src/mylittleharness/claims.py:657-678 | a run from one claim on a route: a second process whose reads of its record fail ends with two active exclusive claims on the route |
| ClaimProtocol.CoordinationIsSafe | src/mylittleharness/claims.py:325-410 | over every run and at every moment at most one process is between acquiring and releasing the lock; as long as no creation has been written past an unreadable record in its way, no active exclusive claims overlap and every file is covered by at most one |
| ClaimProtocol.ReadingIsEnough | src/mylittleharness/claims.py:657-678 | a run whose locked checks read every record has no such creation |
| ClaimProtocol.ScansFindNothing | src/mylittleharness/claims.py:531-555 | any listing of the records of such a state gives the scans nothing to report |
| ClaimProtocol.ClaimHistory | src/mylittleharness/claims.py:802-858 | over every run, between any two moments: id, kind, owner and scopes of a claim never change, and released never becomes active again |
| ClaimProtocol.EveryRecordWasAskedFor | src/mylittleharness/claims.py:325-410 | over every run: whenever a readable record changes, a request was loaded under the lock before, and the record is what that request asked for at that time: a created claim has the request's id, kind, role, actor, slice, worktree, revision, scopes and condition, an extended one is the current one with the new lease and note, a released one the current one with the status and condition; a new lease is the given expiry, or the time of loading plus the ttl |
| ClaimProtocol.LeaseLasts | src/mylittleharness/claims.py:851-854 | a claim created or extended with a ttl is stale exactly after the ttl has passed since it was loaded |
| ClaimProtocol.CreateIsAcceptedWhen | src/mylittleharness/claims.py:558-678 | a creation is accepted exactly when the root is live, id, lease, fields and paths are in order, there is no record of the id, and every active exclusive claim that it would share a route, a resource or a file with is among the unreadable records |
| ClaimProtocol.ExtendIsAcceptedWhen | src/mylittleharness/claims.py:590-608 | an extension is accepted exactly for a readable, active claim whose lease has not run out, with exactly one valid lease argument |
| ClaimProtocol.ReleaseIsAcceptedWhen | src/mylittleharness/claims.py:572-589 | a release is accepted exactly for a readable claim, whatever its status, with a condition |
| ClaimProtocol.UndisturbedRequestSucceeds | src/mylittleharness/claims.py:325-410 | from every state of the protocol in which the lock is free, an accepted request has a run that carries it out, frees the lock and changes no other record |
| ClaimProtocol.RefusalChangesNothing | src/mylittleharness/claims.py:325-410 | a request that the check under the lock refuses frees the lock and leaves every record as it was |
| ClaimProtocol.StaleClaimsOnlyRelease | src/mylittleharness/claims.py:558-636 | a stale active claim with no extension past its locked check stays as it is, moves to released with the lease it had, or is lost beside its backup; nothing else can become of it |
| ClaimProtocol.ActiveClaimsBlock | src/mylittleharness/claims.py:657-678 | stale or not, a readable active exclusive claim blocks every conflicting creation |
| ClaimRecords.WriteClaim | src/mylittleharness/claims.py:379-395 | the transaction that writes a record leaves it, at its end and at every moment of it, old, new, gone, empty or torn, never without its backup when the original is neither in place nor replaced, and touches nothing else; it is refused exactly when a sidecar is in the way |
| ClaimRecords.EveryMoment | src/mylittleharness/claims.py:379-395 | what a crash at any moment of the write exposes is what the protocol lets a crashed writer leave |
| ClaimRecords.RecordPathsDiffer | src/mylittleharness/claims.py:379-391 | whatever the claim id, the record and its two sidecars are three paths in the claims directory |
| ClaimRecords.RecordIsWhereItBelongs | src/mylittleharness/claims.py:379-391 | record, temporary and backup are the files of those names, without a leading dot, in `project/verification/work-claims` |
| FanInGate.FanInEvidenceGate | src/mylittleharness/claims.py:198-230 | once activated, nothing is missing if and only if one sound run ties a released claim and an accepted handoff of the slice together and no active exclusive claims overlap; every label has its exact reason |
| FanInGate.GateMeansComplete | src/mylittleharness/claims.py:1160-1258 | the reference lists being non-empty with a passing run means that a tie exists, and the other way round |
| FanInGate.FanInMatchingClaimRefs | src/mylittleharness/claims.py:1160-1177 | collects exactly the released claims of the slice, and exactly the others as blockers |
| FanInGate.FanInMatchingHandoffRefs | src/mylittleharness/claims.py:1180-1197 | collects exactly the accepted handoffs of the slice, and exactly the others as blockers |
| FanInGate.FanInMatchingAgentRunRefs | src/mylittleharness/claims.py:1200-1226 | collects exactly the runs of the slice that pass |
| FanInGate.FanInAgentRunBlockers | src/mylittleharness/claims.py:1229-1258 | a run has no blockers exactly when it passes |
| FanInGate.BlockingRiskNamesOne | src/mylittleharness/claims.py:1229-1258 | a residual risk blocks exactly when it is none of the harmless phrases and one of the alarming words is a part of it |
| FanInGate.FanInSourceHashBlockers | src/mylittleharness/claims.py:1261-1307 | no blockers exactly when every recorded hash still describes its source |
| FanInGate.ScanSeesEveryPair | src/mylittleharness/claims.py:1310-1329 | the overlap scan of the directory is empty exactly when no two of its active exclusive claims hold something in common |
| ContextMemory.CapsuleFreshnessStatus | src/mylittleharness/context_memory.py:299-343 | an exact decision: current if and only if header and self-digest match, no recorded row is unsafe or unreadable, and recorded and fresh rows match one to one in path, status and digest |
| ContextMemory.CleanIsOneToOne | src/mylittleharness/context_memory.py:319-342 | passing the loop over references and the loop over expected paths is matching the fresh rows one to one, field by field |
| ContextMemory.MatchMeansNothingChanged | src/mylittleharness/context_memory.py:319-342 | recorded rows match the fresh ones one to one exactly when every source has the status and the digest it had, and none has come or gone |
| ContextMemory.SourceRefRows | src/mylittleharness/context_memory.py:228-258 | one row for each distinct non-empty normalized path of the source list, and no other |
| ContextMemory.NormalizeRelIs | src/mylittleharness/context_memory.py:393-397 | a normalized path is the reference with forward slashes, trimmed, without leading `./` and without trailing slashes, and nothing else |
| ContextMemory.BuiltCapsuleIsCurrent | src/mylittleharness/context_memory.py:152-203 | a built capsule is judged current later exactly when no row was unsafe or unreadable and every path still has the same row |
| ContextMemory.BuiltCapsuleRecords | src/mylittleharness/context_memory.py:152-203 | a built capsule records every row as it is, in order, and its header passes the check |
| ContextMemory.StampOfTime | src/mylittleharness/context_memory.py:375-381 | the stamp in the id of a capsule is date and time of day without separators |
| ContextMemory.IdPinsTheCapsule | src/mylittleharness/context_memory.py:375-381 | with a collision-free digest two capsules that pass the self-check under one id are equal |
| ContextMemory.RefreshCapsule | src/mylittleharness/context_memory.py:91-149 | a reported write means that the latest capsule and its history copy are both in place; a failed one without rollback errors keeps the latest capsule, without torn writes and recovery errors every file |
| ContextMemory.CapsuleWritesAreValid | src/mylittleharness/context_memory.py:384-390 | the two writes of a refresh are refused exactly when one of their four visible sidecars is in the way |
| ContextMemory.CapsulePayload | src/mylittleharness/context_memory.py:32-46 | missing exactly when there is no file or it is read and holds no object or an empty one; whatever faults the read meets, current means that a capsule was read and matches; without a fault the converse holds too |
| ContextMemory.RefreshThenRead | src/mylittleharness/context_memory.py:91-149 | refresh, then read over sources that may have changed: current exactly when no source was unsafe or unreadable and every source has the status and the digest it had at the refresh, and none has come or gone |
| Attachments.ImportAttachment | src/mylittleharness/attachments.py:121-170 | at every failure point: applied means the binary is the source and the card passes validation; after a failure what stays is named, but for a sidecar of the card when a write was torn; without warnings, recovery errors and torn writes the files are the initial ones without the binary's temporary, so exactly the initial ones if and only if there was none; without faults an allowed import succeeds exactly when nothing is in the way, and is otherwise taken back |
| Attachments.CopyAndRecord | src/mylittleharness/attachments.py:141-158 | the same for the part that changes files, path by path, sidecars of the card included |
| Attachments.FailedImportLosesFile | src/mylittleharness/attachments.py:136-158 | a root where an allowed import without faults fails and a file that was at the temporary path is gone |
| Attachments.TakeBack | src/mylittleharness/attachments.py:151-153 | temporary and binary are gone or named, nothing else is removed, and the card's sidecars stay accounted for |
| Attachments.RemoveIfExists | src/mylittleharness/attachments.py:511-516 | removes a regular file or names it |
| Attachments.WriteNewFile | src/mylittleharness/attachments.py:147-150 | a one-write transaction for a new file: there with its text and nothing else changed, or not there; a sidecar that stays is named unless a write was torn |
| Attachments.ImportPathsAreGood | src/mylittleharness/attachments.py:136-138 | binary, card and their temporaries are five paths, none of them the source, and the sidecars keep their names |
| Attachments.TargetIsAsAsked | src/mylittleharness/attachments.py:184-227 | binary, card and sidecars lie under `project/attachments`, in the directory of the plural of the kind and in it of the date and the topic, under their fixed names; the card has kind and title as asked for, the given date and label or the defaults, and name and media type of the binary |
| Attachments.TargetExists | src/mylittleharness/attachments.py:191-198 | there is a target exactly when the extension is supported, kind and topic have a letter or digit, and the title has a word |
| Attachments.SuffixIs | src/mylittleharness/attachments.py:189 | the extension is what follows the last dot, unless nothing stands before or after that |
| Attachments.ImportedCardIsAccepted | src/mylittleharness/attachments.py:306-352 | the rendered card fits the binary: every check of the validation passes |
| Attachments.AttachmentCardFindings | src/mylittleharness/attachments.py:355-407 | no error exactly when the fields are filled and hash, size and media type are those of the binary |
| Attachments.Preflight | src/mylittleharness/attachments.py:184-303 | refuses exactly when an argument, the root, its state file or the file system does not allow the import |
| AttachmentRequests.ArgumentErrors | src/mylittleharness/attachments.py:230-246 | no error exactly when file, kind, topic, title, date and every research reference are acceptable |
| AttachmentRequests.SlugIsSafe | src/mylittleharness/attachments.py:457-459 | a slug is lower-case letters, digits and inner dashes, and empty exactly when the text has no letter or digit |
| AttachmentRequests.JoinedIsClean | src/mylittleharness/attachments.py:453-459 | collapsing and trimming keep exactly the characters that are no separators and start and end with one of them |
| AttachmentRequests.JoinedIs | src/mylittleharness/attachments.py:453-459 | the result is the words of the text, in their order, with one separator between any two |
| AttachmentRequests.SlugIs | src/mylittleharness/attachments.py:457-459 | the words of a slug are those of the text's ASCII characters in lower case |
| AttachmentRequests.PluralIs | src/mylittleharness/attachments.py:462-467 | the plural form: as it is after an `s`, `ies` for a `y` with something before it, and an `s` otherwise |
| WriteSets.ReportReadsBack | src/mylittleharness/reporting.py:174-202 | a whole report of route writes is read back as the operation and the route of every write that changes a text, in order |
| WriteSets.EvidenceReadsBack | src/mylittleharness/reporting.py:180-193 | one reported route write is read back as its operation and route, whatever follows it in the message |
| WriteSets.ParseIsExact | src/mylittleharness/reporting.py:180-193 | a message is read as a route write exactly when it is one: an optional `would`, one of six operations, and a non-empty route that ends at the first semicolon |
| WriteSets.EvidenceIs | src/mylittleharness/cli.py:2030-2045 | a finding counts as evidence exactly when it is no error, its code ends in `-route-write` and its message is a route write |
| WriteSets.DistinctRoutesGiveOneKind | src/mylittleharness/reporting.py:174-202 | a report on distinct routes does one thing to each |
| WriteSets.RouteWriteEntries | src/mylittleharness/cli.py:2030-2045 | the entries are the first occurrences of the route writes, in order |
| WriteSets.DeduplicatedAreFirsts | src/mylittleharness/cli.py:2030-2045 | de-duplicating keeps the first occurrence of every entry, all of them and in order |
| WriteSets.SummaryIsExact | src/mylittleharness/cli.py:2030-2083 | for every sequence the summarized final state is the replayed one exactly when the last entry of the route is of the kind of its last new entry |
| WriteSets.SummaryRefinesReplay | src/mylittleharness/cli.py:2030-2083 | when no entry recurs after an operation of the other kind, summary and replay agree on every route |
| WriteSets.TruthfulSummaryIsExact | src/mylittleharness/cli.py:2030-2083 | evidence that is true of what happens and does not repeat a creation or deletion of a route in the same words is summarized as it is replayed, however often the route is written |
| WriteSets.ReportedOperationFits | src/mylittleharness/reporting.py:177-202 | a reported write fits whether the route was there and says whether it is there afterwards |
| WriteSets.RecreatedRouteIsSummarizedAbsent | src/mylittleharness/cli.py:2040-2079 | a truthful list: a route created, deleted and created again in the same words is summarized as absent |
| Transitions.TransitionApply | src/mylittleharness/cli.py:1758-1872 | no delegate runs unless the token is the digest of the current inputs; phase completion, archiving, next plan and next roadmap run at most once each, in this order, only if asked for, and none is left out before one that ran; each gets the inventory its predecessor left, and only the last can fail; a finished transition ran everything asked for; the recovery finding is there exactly when the run stopped early with route-write evidence |
| Transitions.ChainIsInSequence | src/mylittleharness/cli.py:1787-1861 | the delegates that ran, told by the flags alone: asked for, once each, in order, without a gap |
| Transitions.ReportHasEverything | src/mylittleharness/cli.py:1787-1861 | the findings of every delegate stand unchanged in the report, one after the other, with the error of a failed reload right behind |
| Transitions.RecoveryIsExact | src/mylittleharness/cli.py:1894-1918 | unless something else uses its code, the whole report holds the recovery finding exactly when the run stopped early and some delegate reported a route write |
| Transitions.RecoveryTellsHowFar | src/mylittleharness/cli.py:1894-1918 | the recovery finding names every step that wrote without an error, and after them the step or the reload that failed |
| Transitions.CompletedOnly | src/mylittleharness/cli.py:1894-1918 | and no other step is among those that it names as completed |
| Transitions.TransitionSummaryIsRight | src/mylittleharness/cli.py:1787-1861 | for every transition whose delegates each report the writes of one transaction on distinct routes under their own code, the summarized final state of every route is the replayed one |
| Transitions.SummaryFindingIsRight | src/mylittleharness/cli.py:2048-2083 | the text of the summary finding says of every route that the delegates wrote that it ends up present or absent, as their writes leave it |
| Transitions.RunSteps | src/mylittleharness/cli.py:1787-1861 | the same for the delegates alone, with the report and the completed writes they give |
| Transitions.CallDelegate | src/mylittleharness/cli.py:1792-1806 | one delegate: its report, whether its write counts as completed, and the reloaded inventory |
| Transitions.OnlyDelegatesWrite | src/mylittleharness/cli.py:1901-1903 | the evidence in the whole report is what the delegates reported |
| McpSearch.Search | src/mylittleharness/adapter.py:2057-2129 | early exits and all, the result is the first `limit` of the matching lines, sources and links and the full-text rows of the enabled modes: each matching line of a readable source once, in reading order, with its number counted from one; each source whose path has the query in it; each link that mentions it |
| McpSearch.AppendExactSearchResults | src/mylittleharness/adapter.py:2222-2243 | appends the exact hits up to the limit, leaving early only when nothing can follow |
| McpSearch.AppendPathSearchResults | src/mylittleharness/adapter.py:2246-2279 | the same for path hits, sources before references |
| McpSearch.SimpleFormIsTheAnswer | src/mylittleharness/adapter.py:2222-2279 | the simple form without early exits is that answer, told by positions in the sources and links |
| CodexConfig.ApplyIsExact | src/mylittleharness/adapter.py:1407-1452 | for every text: an apply that writes mounts the server exactly when the merge could succeed and otherwise leaves no TOML; mounted, the server's table is set, no other table gains an entry, and their entries (headers) are all kept exactly when none lies between the server's header and the next line that ends in a bracket |
| CodexConfig.ApplyDecides | src/mylittleharness/adapter.py:1375-1420 | from the entries and tables of the text alone: a valid text whose server table has the expected command and arguments stays as it is; a valid one without such a table, or whose table has exactly the program and the old arguments for some root and nothing below it, is written; every other one is refused and stays as it is |
| CodexConfig.ApplyConfig | src/mylittleharness/adapter.py:1407-1452 | the apply with its loops gives that result and writes only from missing, missing-server or legacy-root-bound |
| CodexConfig.ApplyIsIdempotent | src/mylittleharness/adapter.py:1407-1452 | from every text a second apply changes nothing |
| CodexConfig.CommentedHeaderIsCut | src/mylittleharness/adapter.py:1487-1502 | a legacy text from which another server's table disappears while the server counts as mounted |
| CodexConfig.RootKeyBecomesInvalid | src/mylittleharness/adapter.py:1475-1484 | a text with a root key `mcp_servers` becomes invalid |
| CodexConfig.OtherSpellingBecomesInvalid | src/mylittleharness/adapter.py:1475-1484 | a legacy text with its header in another spelling becomes invalid |
| CodexConfig.FindServerBlock | src/mylittleharness/adapter.py:1487-1498 | finds the first exact header of the server and the next line that ends in a bracket |
| CodexConfig.ReplaceCutsExactly | src/mylittleharness/adapter.py:1487-1502 | replacing the block keeps the other tables' entries, and their headers, exactly when the text has none of them in the block |
| CodexConfig.CutsAreInBlock | src/mylittleharness/adapter.py:1491-1498 | what is cut out, told from the text alone |
| CodexConfig.AppendMounts | src/mylittleharness/adapter.py:1475-1484 | appending mounts the server exactly when `mcp_servers` is not itself a key |
| CodexConfig.RowsJoin | src/mylittleharness/adapter.py:1500 | the table view of joined texts is the view of the first followed by that of the second read on from its last table |

## Left out

- Operating system: links, `resolve()`, case folding of names, Windows error codes and sleeps; paths are identities and `retryable` is chosen by the fault schedule. `exists()` never fails.
- Text encoding, and text that cannot be encoded: texts are their bytes.
- Renaming a directory: a rename of anything but a regular file fails.
- Exceptions other than `OSError`, and other writers of the same files during a transaction.
- JSON, frontmatter and TOML parsing, and SHA-256: rendering, parsing and digests are parameters; the statements that need them to be inverse or injective say so.
- Messages, their order where it is only wording, report rendering and the dry-run variants.
- ClaimProtocol: claim ids that differ only in leading dots share sidecar names; in the protocol each record has its own. Of the checks on claimed paths only empty, `.` and `..` components are modelled; reserved device names and the like are not.
- ClaimRecords.WriteClaim: an empty or torn record text is assumed not to parse, or to say the same as the whole one (only its last newline is missing).
- WorkClaims: of Unicode white space only the ASCII characters are stripped.
- FanInGate.FanInEvidenceGate: what activates the gate is a boolean input; references and fields are taken as already trimmed, slash-normalized and case-folded; product-source references are part of the lookup function.
- ContextMemory: a row of a source is a parameter (`look`); the fields outside the comparison are one opaque text. The texts of the staleness reasons are labels.
- Attachments.Preflight: the date parser and the rules of relative paths are parameters; slugs drop what is not ASCII, without decomposing accents first, and white space and letter case are those of ASCII.
- Attachments.ImportAttachment: directories made for an import stay after a failure, as in the source.
- Transitions.TransitionApply: the input checks other than the action and token ones are one list; a delegate and the reload after it are one function of the step and the inventory.
- Transitions.TransitionSummaryIsRight: that a delegate reports as described is a hypothesis; the delegates themselves (planning, roadmap, writeback) are not modelled.
- McpSearch.Search: argument checking and the projection cache; the verified full-text rows are an input.
- CodexConfig.ApplyConfig: the view is by lines: no inline server tables, dotted keys, arrays of tables, or values that span lines; comments are not part of it. Faults of the file system and the backup file are not modelled.
- The validators, planners and projection modules that these parts call, the command line, the stdio loop and the approval relay.
