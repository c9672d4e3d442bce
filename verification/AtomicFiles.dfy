/** All-or-nothing file transactions: stage temporaries, back up and swap each target, roll back on any error. */
module AtomicFiles {
  import opened Common
  import opened FileSystems
  import opened Operations
  import opened RetriedPaths
  import opened SwapAndRollback
  import opened Staging
  import opened Cleanup

  /** `Refused` and `Failed` are the two ways a `FileTransactionError` is raised: before anything was
      touched, and after recovery, whose own failures are listed by the path they name. */
  datatype TransactionResult =
    | Refused(reason: Refusal)
    | Returned(warnings: seq<Path>)
    | Failed(rollbackErrors: seq<Path>, temporaryErrors: seq<Path>, directoryErrors: seq<Path>)

  ghost predicate NoRecoveryErrors(r: TransactionResult) {
    r.Failed? && r.rollbackErrors == [] && r.temporaryErrors == [] && r.directoryErrors == []
  }

  // The two ways a transaction that was not refused can end

  /** Everything asked for holds, and nothing else has changed but needed directories and named backups. */
  ghost predicate CommittedState(files: Files, dirs: set<Path>, ops: seq<Operation>, warnings: seq<Path>, files0: Files, dirs0: set<Path>) {
    && SameOutside(files, files0, TouchedPaths(ops))
    && (forall i :: 0 <= i < |ops| ==> Finished(View(files, ops[i]), ops[i], warnings, files0))
    && (forall w :: w in warnings ==> (w in files || w in dirs) && exists i :: 0 <= i < |ops| && ops[i].backup == w)
    && (forall d :: d in dirs <==> d in dirs0 || NeededDir(d, ops))
  }

  /** Targets are as before unless named; a sidecar remains only when named, or torn at the one operation that failed. */
  ghost predicate RecoveredSlot(slot: Slot, op: Operation, torn: bool, partials: iset<Bytes>, r: TransactionResult, files0: Files)
    requires r.Failed?
  {
    && (op.target !in r.rollbackErrors ==> slot.target == At(files0, op.target) && (slot.backup == None || torn))
    && (op.Write? ==> slot.tmp == None || op.tmp in r.temporaryErrors || torn)
    && Plausible(slot.target, {At(files0, op.target), None, Wanted(op)}, partials)
  }

  ghost predicate RecoveredState(files: Files, dirs: set<Path>, ops: seq<Operation>, failed: nat, clean: bool, partials: iset<Bytes>, r: TransactionResult,
                                 files0: Files, dirs0: set<Path>)
    requires r.Failed?
  {
    && SameOutside(files, files0, TouchedPaths(ops))
    && Safe(files, ops, files0, partials)
    && (forall i :: 0 <= i < |ops| ==> RecoveredSlot(View(files, ops[i]), ops[i], i == failed && !clean, partials, r, files0))
    && dirs0 <= dirs
    && (forall d :: d in dirs ==> d in dirs0 || d in r.directoryErrors)
  }

  lemma SameEverywhere(a: Files, b: Files)
    requires forall p :: At(a, p) == At(b, p)
    ensures a == b
  {
    forall p ensures (p in a <==> p in b) && (p in a ==> a[p] == b[p]) {
      assert At(a, p) == At(b, p);
    }
  }

  /** Without torn writes, targets that are not named and sidecars that are not named leave the files as they were. */
  lemma UnnamedFilesRestored(files: Files, dirs: set<Path>, ops: seq<Operation>, failed: nat, partials: iset<Bytes>, r: TransactionResult,
                             files0: Files, dirs0: set<Path>)
    requires r.Failed? && r.rollbackErrors == [] && r.temporaryErrors == []
    requires ValidOperations(ops, files0, dirs0, None)
    requires SameOutside(files, files0, TouchedPaths(ops))
    requires forall i :: 0 <= i < |ops| ==> RecoveredSlot(View(files, ops[i]), ops[i], false, partials, r, files0)
    ensures files == files0
  {
    forall p ensures At(files, p) == At(files0, p) {
      if p in TouchedPaths(ops) {
        var i: nat :| i < |ops| && p in PathsOf(ops[i]);
        assert RecoveredSlot(View(files, ops[i]), ops[i], false, partials, r, files0);
      }
    }
    SameEverywhere(files, files0);
  }

  // Recovery

  /** Where the body of the transaction can stop: everything recovery relies on. */
  ghost predicate Interrupted(files: Files, dirs: set<Path>, ops: seq<Operation>, applied: seq<AppliedOperation>, written: seq<Path>,
                              failed: nat, clean: bool, partials: iset<Bytes>, files0: Files)
  {
    && Recorded(files, dirs, applied, ops, files0)
    && Safe(files, ops, files0, partials)
    && (forall p :: p in written ==> p in files && exists i :: 0 <= i < |ops| && ops[i].Write? && ops[i].tmp == p)
    && (forall i :: 0 <= i < |ops| ==> InterruptedSlot(View(files, ops[i]), ops[i], i < |applied|, i == failed && !clean, partials, written, files0))
  }

  ghost predicate InterruptedSlot(slot: Slot, op: Operation, recorded: bool, torn: bool, partials: iset<Bytes>, written: seq<Path>, files0: Files) {
    && (!recorded ==> slot.target == At(files0, op.target) && (slot.backup == None || torn))
    && (op.Write? ==> slot.tmp == None || op.tmp in written || torn)
    && Plausible(slot.target, {At(files0, op.target), None, Wanted(op)}, partials)
  }

  lemma StagingInterrupts(files: Files, dirs: set<Path>, ops: seq<Operation>, written: seq<Path>, k: nat, clean: bool, partials: iset<Bytes>, files0: Files)
    requires StagingStopped(files, ops, k, clean, files0) && Elements(written) == TmpsBefore(ops, k)
    ensures Interrupted(files, dirs, ops, [], written, k, clean, partials, files0)
  {
    StagedIsSafe(files, ops, files0, partials);
    forall p | p in written ensures p in files && exists i :: 0 <= i < |ops| && ops[i].Write? && ops[i].tmp == p {
      assert p in Elements(written);
      var i: nat :| i < k && i < |ops| && ops[i].Write? && ops[i].tmp == p;
      assert View(files, ops[i]) == Staged(ops[i], files0);
    }
    forall i | 0 <= i < |ops| ensures InterruptedSlot(View(files, ops[i]), ops[i], false, i == k && !clean, partials, written, files0) {
      if i < k && ops[i].Write? {
        assert ops[i].tmp in Elements(written);
      }
    }
  }

  lemma SwapInterrupts(files: Files, dirs: set<Path>, ops: seq<Operation>, applied: seq<AppliedOperation>, written: seq<Path>, k: nat,
                       clean: bool, partials: iset<Bytes>, files0: Files)
    requires SwapStopped(files, ops, k, applied, clean, partials, files0) && Elements(written) == StagedTmps(ops, k)
    requires Recorded(files, dirs, applied, ops, files0) && Safe(files, ops, files0, partials)
    ensures Interrupted(files, dirs, ops, applied, written, k, clean, partials, files0)
  {
    forall p | p in written ensures p in files && exists i :: 0 <= i < |ops| && ops[i].Write? && ops[i].tmp == p {
      assert p in Elements(written);
      var i: nat :| k <= i < |ops| && ops[i].Write? && ops[i].tmp == p;
      assert View(files, ops[i]).tmp == Wanted(ops[i]);
    }
    forall i | 0 <= i < |ops|
      ensures InterruptedSlot(View(files, ops[i]), ops[i], i < |applied|, i == k && !clean, partials, written, files0)
    {
      if k <= i && ops[i].Write? {
        assert ops[i].tmp in Elements(written);
      }
    }
  }

  ghost predicate OnlyTemporaries(written: seq<Path>, ops: seq<Operation>) {
    forall p :: p in written ==> exists i :: 0 <= i < |ops| && ops[i].Write? && ops[i].tmp == p
  }

  lemma TemporariesAreNoTargets(ops: seq<Operation>, written: seq<Path>, before: Files, after: Files)
    requires Separate(ops) && OnlyTemporaries(written, ops)
    requires SameOutside(after, before, Elements(written))
    ensures SameOutside(after, before, TouchedPaths(ops))
    ensures forall i :: 0 <= i < |ops| ==>
              && View(after, ops[i]).target == View(before, ops[i]).target
              && View(after, ops[i]).backup == View(before, ops[i]).backup
              && (ops[i].Write? && ops[i].tmp !in written ==> View(after, ops[i]).tmp == View(before, ops[i]).tmp)
  {
    forall i | 0 <= i < |ops| ensures ops[i].target !in written && ops[i].backup !in written {
      forall j | 0 <= j < |ops| && ops[j].Write? ensures ops[j].tmp != ops[i].target && ops[j].tmp != ops[i].backup {
        if i != j { assert PathsOf(ops[i]) !! PathsOf(ops[j]); }
      }
    }
    forall p | p !in TouchedPaths(ops) ensures At(after, p) == At(before, p) {
      if p in written {
        var j: nat :| j < |ops| && ops[j].Write? && ops[j].tmp == p;
        assert p in PathsOf(ops[j]);
      }
    }
  }

  /** After rollback and the removal of temporaries every slot is as promised. */
  lemma SlotsRecovered(ops: seq<Operation>, count: nat, stopped: Files, rolled: Files, now: Files, written: seq<Path>, failed: nat,
                       clean: bool, partials: iset<Bytes>, r: TransactionResult, files0: Files)
    requires r.Failed? && Separate(ops) && OnlyTemporaries(written, ops)
    requires forall i :: 0 <= i < |ops| ==>
               InterruptedSlot(View(stopped, ops[i]), ops[i], i < count, i == failed && !clean, partials, written, files0)
    requires UndoneFrom(rolled, stopped, ops, 0, count, r.rollbackErrors, partials, files0)
    requires SameOutside(now, rolled, Elements(written))
    requires forall p :: p in written && p !in r.temporaryErrors ==> p !in now
    ensures forall i :: 0 <= i < |ops| ==> RecoveredSlot(View(now, ops[i]), ops[i], i == failed && !clean, partials, r, files0)
  {
    TemporariesAreNoTargets(ops, written, rolled, now);
    forall i | 0 <= i < |ops| ensures RecoveredSlot(View(now, ops[i]), ops[i], i == failed && !clean, partials, r, files0) {
      assert InterruptedSlot(View(stopped, ops[i]), ops[i], i < count, i == failed && !clean, partials, written, files0);
      assert Undone(View(rolled, ops[i]), View(stopped, ops[i]), ops[i], 0 <= i < count, r.rollbackErrors, partials, files0);
    }
  }

  lemma TemporariesKeepSafety(from: nat, before: seq<Files>, after: seq<Files>, now: Files, ops: seq<Operation>, base: Files,
                              written: seq<Path>, files0: Files, partials: iset<Bytes>)
    requires Separate(ops) && OnlyTemporaries(written, ops) && from <= |before|
    requires SafeSince(from, before, ops, files0, partials) && Safe(base, ops, files0, partials)
    requires OnlyTouched(before, after, base, Elements(written)) && SameOutside(now, base, Elements(written))
    ensures SafeSince(from, after, ops, files0, partials) && Safe(now, ops, files0, partials)
  {
    forall n | from <= n < |after| ensures Safe(after[n], ops, files0, partials) {
      if n < |before| {
        assert after[n] == before[n];
      } else {
        SafetyFollows(ops, after[n], base, written, files0, partials);
      }
    }
    SafetyFollows(ops, now, base, written, files0, partials);
  }

  lemma SafetyFollows(ops: seq<Operation>, now: Files, base: Files, written: seq<Path>, files0: Files, partials: iset<Bytes>)
    requires Separate(ops) && OnlyTemporaries(written, ops)
    requires Safe(base, ops, files0, partials) && SameOutside(now, base, Elements(written))
    ensures Safe(now, ops, files0, partials)
  {
    TemporariesAreNoTargets(ops, written, base, now);
    forall i | 0 <= i < |ops| ensures SafeOperation(now, ops[i], files0, partials) {
      assert SafeOperation(base, ops[i], files0, partials);
      assert View(now, ops[i]).target == View(base, ops[i]).target && View(now, ops[i]).backup == View(base, ops[i]).backup;
    }
  }

  /** Once the files are as before, the created directories hold nothing else. */
  lemma CreatedDirsRemovable(files: Files, dirs: set<Path>, created: seq<Path>, ops: seq<Operation>, dirs0: set<Path>)
    requires WellFormed(files, dirs0) && DirsTracked(dirs, created, ops, files, dirs0)
    ensures Removable(created, files, dirs)
  {
  }

  ghost predicate SlotsAreRecovered(files: Files, ops: seq<Operation>, failed: nat, clean: bool, partials: iset<Bytes>, r: TransactionResult,
                                    files0: Files)
    requires r.Failed?
  {
    forall i :: 0 <= i < |ops| ==> RecoveredSlot(View(files, ops[i]), ops[i], i == failed && !clean, partials, r, files0)
  }

  /** Rollback, then the temporaries: all of the recovery that touches files. */
  method UndoAndSweep(fs: FileSystem, ops: seq<Operation>, applied: seq<AppliedOperation>, written: seq<Path>, ghost failed: nat,
                      ghost files0: Files)
    returns (rollbackErrors: seq<Path>, temporaryErrors: seq<Path>)
    requires fs.Valid() && Separate(ops) && WellFormed(files0, fs.dirs)
    requires SameOutside(fs.files, files0, TouchedPaths(ops))
    requires Interrupted(fs.files, fs.dirs, ops, applied, written, failed, fs.Clean(), fs.Partials(), files0)
    modifies fs
    ensures fs.Valid() && fs.dirs == old(fs.dirs) && old(fs.clock) <= fs.clock
    ensures SameOutside(fs.files, files0, TouchedPaths(ops)) && Safe(fs.files, ops, files0, fs.Partials())
    ensures SlotsAreRecovered(fs.files, ops, failed, fs.Clean(), fs.Partials(), Failed(rollbackErrors, temporaryErrors, []), files0)
    ensures old(fs.trace) <= fs.trace && SafeSince(old(|fs.trace|), fs.trace, ops, files0, fs.Partials())
    ensures fs.Calm(old(fs.clock), fs.clock) ==> rollbackErrors == [] && temporaryErrors == []
  {
    ghost var stopped, from := fs.files, |fs.trace|;
    assert OnlyTemporaries(written, ops);
    rollbackErrors := RollbackAppliedOperations(fs, ops, applied, files0);
    ghost var rolled, trace := fs.files, fs.trace;
    TemporariesAreFiles(written, stopped, fs.dirs);
    temporaryErrors := CleanupTemporaryWrites(fs, written);
    SlotsRecovered(ops, |applied|, stopped, rolled, fs.files, written, failed, fs.Clean(), fs.Partials(),
                   Failed(rollbackErrors, temporaryErrors, []), files0);
    TemporariesAreNoTargets(ops, written, rolled, fs.files);
    TouchedTransitive(ops, rolled, stopped, files0);
    TouchedTransitive(ops, fs.files, rolled, files0);
    TemporariesKeepSafety(from, trace, fs.trace, fs.files, ops, rolled, written, files0, fs.Partials());
  }

  lemma TemporariesAreFiles(written: seq<Path>, files: Files, dirs: set<Path>)
    requires WellFormed(files, dirs) && forall p :: p in written ==> p in files
    ensures forall p :: p in written ==> p !in dirs
  {
  }

  method Recover(fs: FileSystem, ops: seq<Operation>, applied: seq<AppliedOperation>, written: seq<Path>, created: seq<Path>,
                 ghost failed: nat, ghost files0: Files, ghost dirs0: set<Path>)
    returns (r: TransactionResult)
    requires fs.Valid() && ValidOperations(ops, files0, dirs0, None) && WellFormed(files0, dirs0) && WellFormed(files0, fs.dirs)
    requires SameOutside(fs.files, files0, TouchedPaths(ops))
    requires Interrupted(fs.files, fs.dirs, ops, applied, written, failed, fs.Clean(), fs.Partials(), files0)
    requires DirsTracked(fs.dirs, created, ops, files0, dirs0)
    modifies fs
    ensures fs.Valid() && r.Failed? && old(fs.clock) <= fs.clock
    ensures RecoveredState(fs.files, fs.dirs, ops, failed, fs.Clean(), fs.Partials(), r, files0, dirs0)
    ensures old(fs.trace) <= fs.trace && SafeSince(old(|fs.trace|), fs.trace, ops, files0, fs.Partials())
    ensures fs.Calm(old(fs.clock), fs.clock) ==> r.rollbackErrors == [] && r.temporaryErrors == []
    ensures fs.Calm(old(fs.clock), fs.clock) && fs.Clean() ==> NoRecoveryErrors(r)
  {
    ghost var dirs := fs.dirs;
    var rollbackErrors, temporaryErrors := UndoAndSweep(fs, ops, applied, written, failed, files0);
    ghost var soFar := Failed(rollbackErrors, temporaryErrors, []);
    if rollbackErrors == [] && temporaryErrors == [] && fs.Clean() {
      UnnamedFilesRestored(fs.files, dirs, ops, failed, fs.Partials(), soFar, files0, dirs0);
      CreatedDirsRemovable(files0, dirs, created, ops, dirs0);
    }
    var directoryErrors := CleanupCreatedDirs(fs, created);
    r := Failed(rollbackErrors, temporaryErrors, directoryErrors);
    DirectoriesDoNotMatter(fs.files, ops, failed, fs.Clean(), fs.Partials(), soFar, r, files0);
  }

  lemma DirectoriesDoNotMatter(files: Files, ops: seq<Operation>, failed: nat, clean: bool, partials: iset<Bytes>, soFar: TransactionResult,
                               r: TransactionResult, files0: Files)
    requires soFar.Failed? && r.Failed? && r.rollbackErrors == soFar.rollbackErrors && r.temporaryErrors == soFar.temporaryErrors
    requires SlotsAreRecovered(files, ops, failed, clean, partials, soFar, files0)
    ensures SlotsAreRecovered(files, ops, failed, clean, partials, r, files0)
  {
    forall i | 0 <= i < |ops| ensures RecoveredSlot(View(files, ops[i]), ops[i], i == failed && !clean, partials, r, files0) {
      assert RecoveredSlot(View(files, ops[i]), ops[i], i == failed && !clean, partials, soFar, files0);
    }
  }

  // The transaction

  /** Nothing but injected faults can stop the whole transaction or leave a backup behind. */
  ghost predicate Feasible(ops: seq<Operation>, files: Files, dirs: set<Path>) {
    && Stageable(ops, files)
    && forall i :: 0 <= i < |ops| ==>
         && ops[i].target !in dirs && !NeededDir(ops[i].target, ops) && !NeededDir(ops[i].backup, ops)
         && (ops[i].Write? ==> DirAfter(Parent'(ops[i].target), ops, dirs))
         && (ops[i].target in files ==> DirAfter(Parent'(ops[i].backup), ops, dirs))
  }

  ghost predicate DirAfter(d: Path, ops: seq<Operation>, dirs: set<Path>) {
    d in dirs || NeededDir(d, ops)
  }

  /** The root directory is its own parent. */
  ghost function Parent'(p: Path): Path {
    if p == [] then [] else Parent(p)
  }

  lemma FeasibleIsSwappable(fs: FileSystem, ops: seq<Operation>, files0: Files, dirs0: set<Path>)
    requires fs.Valid() && [] in dirs0
    requires ValidOperations(ops, files0, dirs0, None) && Feasible(ops, files0, dirs0)
    requires forall d :: d in fs.dirs <==> DirAfter(d, ops, dirs0)
    ensures Swappable(fs, ops, files0)
    ensures forall i :: 0 <= i < |ops| ==> ops[i].backup !in fs.dirs
  {
    forall i | 0 <= i < |ops|
      ensures ops[i].target !in fs.dirs && ops[i].backup !in fs.dirs
      ensures ops[i].Write? ==> fs.Placeable(ops[i].target)
      ensures ops[i].target in files0 ==> fs.Placeable(ops[i].backup)
    {
      assert ops[i].target != [] && ops[i].backup != [];
    }
  }

  /** The body of the `try`: stage every write, then swap every target. */
  method Attempt(fs: FileSystem, ops: seq<Operation>)
    returns (r: Outcome, applied: seq<AppliedOperation>, written: seq<Path>, created: seq<Path>, ghost failed: nat)
    requires fs.Valid() && ValidOperations(ops, fs.files, fs.dirs, None)
    modifies fs
    ensures fs.Valid() && old(fs.clock) <= fs.clock && WellFormed(old(fs.files), fs.dirs)
    ensures SameOutside(fs.files, old(fs.files), TouchedPaths(ops))
    ensures old(fs.trace) <= fs.trace && SafeSince(old(|fs.trace|), fs.trace, ops, old(fs.files), fs.Partials())
    ensures DirsTracked(fs.dirs, created, ops, old(fs.files), old(fs.dirs))
    ensures r.Done? ==> Progress(fs.files, ops, |ops|, old(fs.files)) && |applied| == |ops|
                        && Recorded(fs.files, fs.dirs, applied, ops, old(fs.files))
                        && forall d :: d in fs.dirs <==> DirAfter(d, ops, old(fs.dirs))
    ensures r.Raised? ==> Interrupted(fs.files, fs.dirs, ops, applied, written, failed, fs.Clean(), fs.Partials(), old(fs.files))
    ensures fs.Calm(old(fs.clock), fs.clock) && Feasible(ops, old(fs.files), old(fs.dirs)) ==> r.Done?
  {
    ghost var files0, dirs0, from := fs.files, fs.dirs, |fs.trace|;
    r, created, written, failed := StageWrites(fs, ops);
    applied := [];
    if r.Raised? {
      StagingInterrupts(fs.files, fs.dirs, ops, written, failed, fs.Clean(), fs.Partials(), files0);
      return;
    }
    StagedIsReady(fs.files, ops, files0);
    if Feasible(ops, files0, dirs0) {
      FeasibleIsSwappable(fs, ops, files0, dirs0);
    }
    ghost var staged, trace := fs.files, fs.trace;
    r, applied, written, failed := SwapTargets(fs, ops, written, files0);
    TouchedTransitive(ops, fs.files, staged, files0);
    SafetyJoins(from, trace, fs.trace, ops, files0, fs.Partials());
    if r.Raised? {
      SwapInterrupts(fs.files, fs.dirs, ops, applied, written, failed, fs.Clean(), fs.Partials(), files0);
    }
  }

  /** A transaction whose paths were accepted. */
  method RunTransaction(fs: FileSystem, ops: seq<Operation>)
    returns (r: TransactionResult, ghost failed: nat, ghost commit: nat, ghost recovery: nat)
    requires fs.Valid() && ValidOperations(ops, fs.files, fs.dirs, None)
    modifies fs
    ensures fs.Valid() && !r.Refused?
    ensures r.Returned? ==> CommittedState(fs.files, fs.dirs, ops, r.warnings, old(fs.files), old(fs.dirs))
    ensures r.Failed? ==> RecoveredState(fs.files, fs.dirs, ops, failed, fs.Clean(), fs.Partials(), r, old(fs.files), old(fs.dirs))
    ensures NoRecoveryErrors(r) && fs.Clean() ==> fs.files == old(fs.files) && fs.dirs == old(fs.dirs)
    ensures old(fs.trace) <= fs.trace && old(|fs.trace|) <= commit <= |fs.trace|
    ensures SafeSince(old(|fs.trace|), fs.trace[..commit], ops, old(fs.files), fs.Partials())
    ensures if r.Failed? then commit == |fs.trace| else WantedSince(commit, fs.trace, ops)
    ensures r.Failed? && fs.Calm(recovery, fs.clock) ==>
              r.rollbackErrors == [] && r.temporaryErrors == [] && (fs.Clean() ==> NoRecoveryErrors(r))
    ensures r.Failed? && Feasible(ops, old(fs.files), old(fs.dirs)) ==> !fs.Calm(old(fs.clock), recovery)
    ensures fs.Calm(old(fs.clock), fs.clock) && Feasible(ops, old(fs.files), old(fs.dirs)) ==> r == Returned([])
    ensures old(fs.clock) <= recovery <= fs.clock
  {
    ghost var files0, dirs0, from := fs.files, fs.dirs, |fs.trace|;
    var outcome, applied, written, created;
    outcome, applied, written, created, failed := Attempt(fs, ops);
    ghost var trace := fs.trace;
    recovery := fs.clock;
    if outcome.Raised? {
      r := Recover(fs, ops, applied, written, created, failed, files0, dirs0);
      commit := |fs.trace|;
      SafetyJoins(from, trace, fs.trace, ops, files0, fs.Partials());
      assert fs.trace[..commit] == fs.trace;
      if NoRecoveryErrors(r) && fs.Clean() {
        UnnamedFilesRestored(fs.files, fs.dirs, ops, failed, fs.Partials(), r, files0, dirs0);
      }
    } else {
      commit := |fs.trace|;
      ghost var swapped := fs.files;
      if Feasible(ops, files0, dirs0) {
        FeasibleIsSwappable(fs, ops, files0, dirs0);
      }
      var warnings := CleanupSuccessBackups(fs, ops, applied, files0);
      TouchedTransitive(ops, fs.files, swapped, files0);
      assert fs.trace[..commit] == trace;
      r := Returned(warnings);
    }
  }

  method ApplyFileTransaction(fs: FileSystem, operations: seq<Operation>, root: Option<Path>)
    returns (r: TransactionResult, ghost failed: nat, ghost commit: nat, ghost recovery: nat)
    requires fs.Valid()
    modifies fs
    ensures fs.Valid()
    ensures operations == [] ==> r == Returned([])
    // Refusal is exact and touches nothing.
    ensures r.Refused? <==>
              operations != [] && !ValidOperations(PortableSidecarOperations(operations), old(fs.files), old(fs.dirs), root)
    ensures r.Refused? || operations == [] ==> fs.files == old(fs.files) && fs.dirs == old(fs.dirs) && fs.trace == old(fs.trace)
    // A normal return means that everything asked for holds.
    ensures r.Returned? ==> CommittedState(fs.files, fs.dirs, PortableSidecarOperations(operations), r.warnings, old(fs.files), old(fs.dirs))
    // A failure gives back every target it does not name; without torn writes and recovery errors it gives back everything.
    ensures r.Failed? ==> RecoveredState(fs.files, fs.dirs, PortableSidecarOperations(operations), failed, fs.Clean(), fs.Partials(), r, old(fs.files), old(fs.dirs))
    ensures NoRecoveryErrors(r) && fs.Clean() ==> fs.files == old(fs.files) && fs.dirs == old(fs.dirs)
    // A crash at any moment finds every original, until the moment from which it finds every wanted content.
    ensures old(fs.trace) <= fs.trace && old(|fs.trace|) <= commit <= |fs.trace|
    ensures SafeSince(old(|fs.trace|), fs.trace[..commit], PortableSidecarOperations(operations), old(fs.files), fs.Partials())
    ensures if r.Failed? then commit == |fs.trace| else WantedSince(commit, fs.trace, PortableSidecarOperations(operations))
    // Errors need faults: recovery without faults has no errors, a feasible transaction without faults succeeds, and one
    // clean fault is always recovered from.
    ensures r.Failed? && fs.Calm(recovery, fs.clock) ==>
              r.rollbackErrors == [] && r.temporaryErrors == [] && (fs.Clean() ==> NoRecoveryErrors(r))
    ensures old(fs.clock) <= recovery <= fs.clock
    ensures fs.Calm(old(fs.clock), fs.clock) && !r.Refused? && Feasible(PortableSidecarOperations(operations), old(fs.files), old(fs.dirs))
            ==> r == Returned([])
    ensures r.Failed? && fs.OneFault(old(fs.clock), fs.clock) && fs.Clean()
            && Feasible(PortableSidecarOperations(operations), old(fs.files), old(fs.dirs))
            ==> NoRecoveryErrors(r)
  {
    failed, commit, recovery := 0, |fs.trace|, fs.clock;
    var ops := PortableSidecarOperations(operations);
    if ops == [] {
      return Returned([]), 0, commit, recovery;
    }
    var refusal := ValidateTransactionPaths(fs, ops, root);
    if refusal.Some? {
      return Refused(refusal.value), 0, commit, recovery;
    }
    ghost var from := fs.clock;
    ghost var feasible := Feasible(ops, fs.files, fs.dirs);
    r, failed, commit, recovery := RunTransaction(fs, ops);
    if r.Failed? && feasible && fs.OneFault(from, fs.clock) {
      fs.OneFaultThenCalm(from, recovery, fs.clock);
    }
  }

  lemma StagedIsReady(files: Files, ops: seq<Operation>, files0: Files)
    requires StagedUpTo(files, ops, |ops|, files0)
    ensures Progress(files, ops, 0, files0)
  {
  }

  lemma TouchedTransitive(ops: seq<Operation>, c: Files, b: Files, a: Files)
    requires SameOutside(c, b, TouchedPaths(ops)) && SameOutside(b, a, TouchedPaths(ops))
    ensures SameOutside(c, a, TouchedPaths(ops))
  {
  }

  lemma SafetyJoins(from: nat, before: seq<Files>, after: seq<Files>, ops: seq<Operation>, files0: Files, partials: iset<Bytes>)
    requires from <= |before| && before <= after
    requires SafeSince(from, before, ops, files0, partials) && SafeSince(|before|, after, ops, files0, partials)
    ensures SafeSince(from, after, ops, files0, partials)
  {
    forall n | from <= n < |after| ensures Safe(after[n], ops, files0, partials) {
      if n < |before| { assert after[n] == before[n]; }
    }
  }

  /** Even with torn writes, empty rollback errors mean every target is back, and what is left over is a sidecar of the
      operation that failed or is named. */
  lemma LeftoversAreKnown(files: Files, dirs: set<Path>, ops: seq<Operation>, failed: nat, clean: bool, partials: iset<Bytes>, r: TransactionResult,
                          files0: Files, dirs0: set<Path>, p: Path)
    requires r.Failed? && r.rollbackErrors == []
    requires ValidOperations(ops, files0, dirs0, None)
    requires RecoveredState(files, dirs, ops, failed, clean, partials, r, files0, dirs0)
    ensures forall i :: 0 <= i < |ops| ==> At(files, ops[i].target) == At(files0, ops[i].target)
    ensures At(files, p) != At(files0, p) ==>
              p in r.temporaryErrors || (!clean && failed < |ops| && p in PathsOf(ops[failed]) - {ops[failed].target})
    ensures (p in dirs) != (p in dirs0) ==> p in r.directoryErrors
  {
    forall i | 0 <= i < |ops| ensures At(files, ops[i].target) == At(files0, ops[i].target) {
      assert RecoveredSlot(View(files, ops[i]), ops[i], i == failed && !clean, partials, r, files0);
    }
    if p in TouchedPaths(ops) {
      var i: nat :| i < |ops| && p in PathsOf(ops[i]);
      assert RecoveredSlot(View(files, ops[i]), ops[i], i == failed && !clean, partials, r, files0);
    }
  }
}
