/** Swapping every target for what its operation wants, and undoing that. */
module SwapAndRollback {
  import opened Common
  import opened FileSystems
  import opened Operations
  import opened RetriedPaths

  // One operation

  datatype AppliedOperation = AppliedOperation(operation: Operation, hadOriginal: bool)

  ghost function Staged(op: Operation, original: Files): Slot {
    Slot(At(original, op.target), Wanted(op), None)
  }

  ghost function Committed(op: Operation, original: Files): Slot {
    Slot(Wanted(op), None, At(original, op.target))
  }

  ghost predicate OwnPathsDiffer(op: Operation) {
    && op.target != op.backup
    && (op.Write? ==> op.tmp != op.target && op.tmp != op.backup)
  }

  /** The second half of a swap, once the original is backed up. */
  method PutWanted(fs: FileSystem, op: Operation, had: bool, ghost original: Files) returns (r: Outcome)
    requires fs.Valid() && OwnPathsDiffer(op) && op.target !in fs.dirs
    requires had == (op.target in original)
    requires View(fs.files, op) == Slot(At(original, op.target), Wanted(op), At(original, op.target))
    modifies fs
    ensures fs.Valid() && fs.dirs == old(fs.dirs) && old(fs.clock) <= fs.clock
    ensures SameOutside(fs.files, old(fs.files), PathsOf(op))
    ensures OnlyTouched(old(fs.trace), fs.trace, old(fs.files), PathsOf(op))
    ensures SafeOperationSince(old(|fs.trace|), fs.trace, op, original, fs.Partials())
    ensures r.Done? ==> View(fs.files, op) == Committed(op, original)
    ensures RecordedOperation(fs.files, fs.dirs, AppliedOperation(op, had), op, original)
    ensures r.Raised? ==> StoppedAt(View(fs.files, op), op, true, fs.Clean(), fs.Partials(), original)
    ensures fs.Calm(old(fs.clock), fs.clock) && (op.Write? ==> old(fs.Placeable(op.target))) ==> r.Done?
  {
    assert op.target in original <==> At(original, op.target).Some?;
    r := Done;
    if op.Write? {
      r := ReplacePath(fs, op.tmp, op.target);
    } else if had {
      r := UnlinkPath(fs, op.target);
    }
  }

  /** Backs the target up, then replaces or removes it. `recorded` tells whether rollback will look at it. */
  method SwapTarget(fs: FileSystem, op: Operation, ghost original: Files) returns (r: Outcome, had: bool, recorded: bool)
    requires fs.Valid() && OwnPathsDiffer(op)
    requires View(fs.files, op) == Staged(op, original)
    modifies fs
    ensures fs.Valid() && fs.dirs == old(fs.dirs) && old(fs.clock) <= fs.clock
    ensures SameOutside(fs.files, old(fs.files), PathsOf(op))
    ensures OnlyTouched(old(fs.trace), fs.trace, old(fs.files), PathsOf(op))
    ensures SafeOperationSince(old(|fs.trace|), fs.trace, op, original, fs.Partials())
    ensures r.Done? ==> recorded && View(fs.files, op) == Committed(op, original)
    ensures recorded ==> RecordedOperation(fs.files, fs.dirs, AppliedOperation(op, had), op, original)
    ensures r.Raised? ==> StoppedAt(View(fs.files, op), op, recorded, fs.Clean(), fs.Partials(), original)
    ensures fs.Calm(old(fs.clock), fs.clock) && op.target !in fs.dirs && (op.Write? ==> old(fs.Placeable(op.target)))
            && (op.target in original ==> old(fs.Placeable(op.backup)))
            ==> r.Done?
  {
    assert op.target in original <==> At(original, op.target).Some?;
    had := fs.Exists(op.target);
    recorded := false;
    if had {
      r := CopyPath(fs, op.target, op.backup);
      if r.Raised? {
        return;
      }
    }
    recorded := true;
    r := PutWanted(fs, op, had, original);
  }

  method RestoreTarget(fs: FileSystem, applied: AppliedOperation, ghost original: Files) returns (r: Outcome)
    requires fs.Valid() && OwnPathsDiffer(applied.operation)
    requires applied.hadOriginal == (applied.operation.target in original)
    requires View(fs.files, applied.operation).backup == At(original, applied.operation.target)
    requires applied.operation.Delete? && !applied.hadOriginal ==> View(fs.files, applied.operation).target == None
    requires SafeOperation(fs.files, applied.operation, original, fs.Partials())
    modifies fs
    ensures fs.Valid() && fs.dirs == old(fs.dirs) && old(fs.clock) <= fs.clock
    ensures SameOutside(fs.files, old(fs.files), {applied.operation.target, applied.operation.backup})
    ensures OnlyTouched(old(fs.trace), fs.trace, old(fs.files), {applied.operation.target, applied.operation.backup})
    ensures SafeOperationSince(old(|fs.trace|), fs.trace, applied.operation, original, fs.Partials())
    ensures SafeOperation(fs.files, applied.operation, original, fs.Partials())
    ensures r.Done? ==> At(fs.files, applied.operation.target) == At(original, applied.operation.target)
                        && At(fs.files, applied.operation.backup) == None
    ensures Plausible(At(fs.files, applied.operation.target),
                      {At(old(fs.files), applied.operation.target), None, At(original, applied.operation.target)}, fs.Partials())
    ensures fs.Calm(old(fs.clock), fs.clock) && applied.operation.target !in fs.dirs
            && (applied.hadOriginal ==> old(fs.Placeable(applied.operation.target)))
            ==> r.Done?
  {
    var op := applied.operation;
    assert op.target in original <==> At(original, op.target).Some?;
    r := Done;
    if op.Write? && fs.Exists(op.target) {
      r := UnlinkPath(fs, op.target);
      if r.Raised? {
        return;
      }
    }
    if applied.hadOriginal && fs.Exists(op.backup) {
      r := ReplacePath(fs, op.backup, op.target);
    }
  }

  // All operations

  ghost function StagedTmps(ops: seq<Operation>, from: nat): set<Path> {
    set i: nat | from <= i < |ops| && ops[i].Write? :: ops[i].tmp
  }

  ghost predicate Progress(files: Files, ops: seq<Operation>, k: nat, original: Files) {
    forall i :: 0 <= i < |ops| ==>
      View(files, ops[i]) == if i < k then Committed(ops[i], original) else Staged(ops[i], original)
  }

  lemma ProgressIsSafe(files: Files, ops: seq<Operation>, k: nat, original: Files, partials: iset<Bytes>)
    requires Progress(files, ops, k, original)
    ensures Safe(files, ops, original, partials)
  {
    forall i | 0 <= i < |ops| ensures SafeOperation(files, ops[i], original, partials) {
      assert View(files, ops[i]) in {Committed(ops[i], original), Staged(ops[i], original)};
    }
  }

  function RemoveKnownPath(paths: seq<Path>, p: Path): (r: seq<Path>)
  {
    if paths == [] then [] else if paths[0] == p then paths[1..] else [paths[0]] + RemoveKnownPath(paths[1..], p)
  }

  lemma {:induction false} RemoveKnownPathRemoves(paths: seq<Path>, p: Path)
    requires Distinct(paths)
    ensures Distinct(RemoveKnownPath(paths, p))
    ensures Elements(RemoveKnownPath(paths, p)) == Elements(paths) - {p}
  {
    if paths != [] {
      assert Distinct(paths[1..]) && paths[0] !in paths[1..];
      assert Elements(paths) == {paths[0]} + Elements(paths[1..]);
      if paths[0] != p {
        var rest := RemoveKnownPath(paths[1..], p);
        RemoveKnownPathRemoves(paths[1..], p);
        assert paths[0] !in Elements(rest);
        assert Elements([paths[0]] + rest) == {paths[0]} + Elements(rest);
      }
    }
  }

  /** The state rollback finds: a backup beside every recorded target that existed. */
  ghost predicate Recorded(files: Files, dirs: set<Path>, applied: seq<AppliedOperation>, ops: seq<Operation>, original: Files) {
    && |applied| <= |ops|
    && forall i :: 0 <= i < |applied| ==> RecordedOperation(files, dirs, applied[i], ops[i], original)
  }

  ghost predicate RecordedOperation(files: Files, dirs: set<Path>, applied: AppliedOperation, op: Operation, original: Files) {
    && applied == AppliedOperation(op, op.target in original)
    && op.target !in dirs
    && View(files, op).backup == At(original, op.target)
    && (op.Delete? && op.target !in original ==> View(files, op).target == None)
  }

  /** What the operation that stopped the swap may look like. */
  ghost predicate StoppedAt(slot: Slot, op: Operation, recorded: bool, clean: bool, partials: iset<Bytes>, original: Files) {
    && slot.tmp == Wanted(op)
    && Plausible(slot.target, {At(original, op.target), None, Wanted(op)}, partials)
    && (!recorded ==> slot.target == At(original, op.target) && (clean ==> slot.backup == None))
  }

  ghost predicate SwapStopped(files: Files, ops: seq<Operation>, k: nat, applied: seq<AppliedOperation>, clean: bool,
                              partials: iset<Bytes>, original: Files)
  {
    && k < |ops| && k <= |applied| <= k + 1
    && StoppedAt(View(files, ops[k]), ops[k], |applied| == k + 1, clean, partials, original)
    && forall i :: 0 <= i < |ops| && i != k ==>
         View(files, ops[i]) == if i < k then Committed(ops[i], original) else Staged(ops[i], original)
  }

  /** Nothing but injected faults can stop the swap. */
  ghost predicate Swappable(fs: FileSystem, ops: seq<Operation>, original: Files)
    reads fs
  {
    forall i :: 0 <= i < |ops| ==>
      && ops[i].target !in fs.dirs
      && (ops[i].Write? ==> fs.Placeable(ops[i].target))
      && (ops[i].target in original ==> fs.Placeable(ops[i].backup))
  }

  /** One swap, seen from the whole list. */
  method SwapTargetAmong(fs: FileSystem, ops: seq<Operation>, k: nat, ghost from: nat, ghost original: Files)
    returns (r: Outcome, had: bool, recorded: bool)
    requires fs.Valid() && Separate(ops) && k < |ops| && Progress(fs.files, ops, k, original)
    requires from <= |fs.trace| && SafeSince(from, fs.trace, ops, original, fs.Partials())
    modifies fs
    ensures fs.Valid() && fs.dirs == old(fs.dirs) && old(fs.clock) <= fs.clock
    ensures SameOutside(fs.files, old(fs.files), PathsOf(ops[k]))
    ensures old(fs.trace) <= fs.trace && SafeSince(from, fs.trace, ops, original, fs.Partials()) && Safe(fs.files, ops, original, fs.Partials())
    ensures forall i :: 0 <= i < |ops| && i != k ==> View(fs.files, ops[i]) == old(View(fs.files, ops[i]))
    ensures r.Done? ==> recorded && Progress(fs.files, ops, k + 1, original)
    ensures recorded ==> RecordedOperation(fs.files, fs.dirs, AppliedOperation(ops[k], had), ops[k], original)
    ensures r.Raised? ==> StoppedAt(View(fs.files, ops[k]), ops[k], recorded, fs.Clean(), fs.Partials(), original)
    ensures fs.Calm(old(fs.clock), fs.clock) && old(Swappable(fs, ops, original)) ==> r.Done?
  {
    r, had, recorded := SwapTarget(fs, ops[k], original);
    ghost var files, trace := old(fs.files), old(fs.trace);
    ProgressIsSafe(files, ops, k, original, fs.Partials());
    forall i | 0 <= i < |ops| && i != k ensures View(fs.files, ops[i]) == View(files, ops[i]) {
      ViewKept(ops, i, k, fs.files, files);
    }
    SafetyExtends(from, trace, fs.trace, ops, k, files, original, fs.Partials());
    SwapKeepsSafe(fs, files, ops, k, recorded, original);
  }

  /** What swapping keeps as it goes. */
  ghost predicate SwappedUpTo(fs: FileSystem, ops: seq<Operation>, applied: seq<AppliedOperation>, from: nat, files0: Files, original: Files)
    reads fs
  {
    && fs.Valid()
    && SameOutside(fs.files, files0, TouchedPaths(ops))
    && from <= |fs.trace| && SafeSince(from, fs.trace, ops, original, fs.Partials()) && Safe(fs.files, ops, original, fs.Partials())
    && Recorded(fs.files, fs.dirs, applied, ops, original)
  }

  /** One turn of the swap loop. */
  method SwapNext(fs: FileSystem, ops: seq<Operation>, applied: seq<AppliedOperation>, written: seq<Path>, ghost from: nat,
                  ghost files0: Files, ghost original: Files)
    returns (r: Outcome, applied': seq<AppliedOperation>, written': seq<Path>)
    requires Separate(ops) && |applied| < |ops| && SwappedUpTo(fs, ops, applied, from, files0, original)
    requires Progress(fs.files, ops, |applied|, original)
    requires Distinct(written) && Elements(written) == StagedTmps(ops, |applied|)
    modifies fs
    ensures fs.dirs == old(fs.dirs) && old(fs.clock) <= fs.clock && old(fs.trace) <= fs.trace
    ensures SwappedUpTo(fs, ops, applied', from, files0, original) && Distinct(written')
    ensures r.Done? ==> |applied'| == |applied| + 1 && Progress(fs.files, ops, |applied'|, original) && Elements(written') == StagedTmps(ops, |applied'|)
    ensures r.Raised? ==> SwapStopped(fs.files, ops, |applied|, applied', fs.Clean(), fs.Partials(), original)
                          && Elements(written') == StagedTmps(ops, |applied|)
    ensures fs.Calm(old(fs.clock), fs.clock) && old(Swappable(fs, ops, original)) ==> r.Done?
  {
    var k := |applied|;
    ghost var files := fs.files;
    var had, recorded;
    r, had, recorded := SwapTargetAmong(fs, ops, k, from, original);
    FrameWidens(ops, k, files, files0, fs.files);
    applied' := if recorded then applied + [AppliedOperation(ops[k], had)] else applied;
    RecordedKept(ops, applied, applied', k, fs.files, files, fs.dirs, original);
    written' := written;
    if r.Done? {
      StagedTmpsStep(ops, k);
      if ops[k].Write? {
        RemoveKnownPathRemoves(written, ops[k].tmp);
        written' := RemoveKnownPath(written, ops[k].tmp);
      }
    }
  }

  lemma RecordedKept(ops: seq<Operation>, applied: seq<AppliedOperation>, applied': seq<AppliedOperation>, k: nat, now: Files, before: Files,
                     dirs: set<Path>, original: Files)
    requires k == |applied| < |ops| && Recorded(before, dirs, applied, ops, original)
    requires forall i :: 0 <= i < |ops| && i != k ==> View(now, ops[i]) == View(before, ops[i])
    requires applied' == applied || (|applied'| == k + 1 && applied <= applied' && RecordedOperation(now, dirs, applied'[k], ops[k], original))
    ensures Recorded(now, dirs, applied', ops, original)
  {
    forall i | 0 <= i < |applied'| ensures RecordedOperation(now, dirs, applied'[i], ops[i], original) {
      if i < k {
        assert applied'[i] == applied[i] && RecordedOperation(before, dirs, applied[i], ops[i], original);
        assert View(now, ops[i]) == View(before, ops[i]);
      }
    }
  }

  method SwapTargets(fs: FileSystem, ops: seq<Operation>, staged: seq<Path>, ghost original: Files)
    returns (r: Outcome, applied: seq<AppliedOperation>, written: seq<Path>, ghost stopped: nat)
    requires fs.Valid() && Separate(ops) && Progress(fs.files, ops, 0, original)
    requires Distinct(staged) && Elements(staged) == StagedTmps(ops, 0)
    modifies fs
    ensures fs.Valid() && fs.dirs == old(fs.dirs) && old(fs.clock) <= fs.clock
    ensures SameOutside(fs.files, old(fs.files), TouchedPaths(ops))
    ensures old(fs.trace) <= fs.trace && SafeSince(old(|fs.trace|), fs.trace, ops, original, fs.Partials()) && Safe(fs.files, ops, original, fs.Partials())
    ensures Recorded(fs.files, fs.dirs, applied, ops, original)
    ensures r.Done? ==> |applied| == |ops| && Progress(fs.files, ops, |ops|, original)
    ensures r.Raised? ==> SwapStopped(fs.files, ops, stopped, applied, fs.Clean(), fs.Partials(), original)
                          && Distinct(written) && Elements(written) == StagedTmps(ops, stopped)
    ensures fs.Calm(old(fs.clock), fs.clock) && old(Swappable(fs, ops, original)) ==> r.Done?
  {
    ghost var files0, from := fs.files, |fs.trace|;
    applied, written, stopped := [], staged, 0;
    r := Done;
    ProgressIsSafe(fs.files, ops, 0, original, fs.Partials());
    var k := 0;
    while k < |ops|
      invariant k == |applied| <= |ops|
      invariant r.Done? && fs.dirs == old(fs.dirs) && old(fs.clock) <= fs.clock && old(fs.trace) <= fs.trace
      invariant SwappedUpTo(fs, ops, applied, from, files0, original)
      invariant Progress(fs.files, ops, k, original) && Distinct(written) && Elements(written) == StagedTmps(ops, k)
    {
      r, applied, written := SwapNext(fs, ops, applied, written, from, files0, original);
      stopped := k;
      if r.Raised? {
        return;
      }
      k := k + 1;
    }
  }

  lemma StagedTmpsStep(ops: seq<Operation>, k: nat)
    requires Separate(ops) && k < |ops|
    ensures StagedTmps(ops, k + 1) == StagedTmps(ops, k) - (if ops[k].Write? then {ops[k].tmp} else {})
  {
    forall i | k < i < |ops| && ops[i].Write? && ops[k].Write? ensures ops[i].tmp != ops[k].tmp {
      assert PathsOf(ops[i]) !! PathsOf(ops[k]);
      assert ops[i].tmp in PathsOf(ops[i]);
    }
  }

  lemma SwapKeepsSafe(fs: FileSystem, before: Files, ops: seq<Operation>, k: nat, recorded: bool, original: Files)
    requires k < |ops| && Safe(before, ops, original, fs.Partials())
    requires forall i :: 0 <= i < |ops| && i != k ==> View(fs.files, ops[i]) == View(before, ops[i])
    requires if recorded then View(fs.files, ops[k]).backup == At(original, ops[k].target)
             else View(fs.files, ops[k]).target == At(original, ops[k].target)
    requires Plausible(View(fs.files, ops[k]).target, {At(original, ops[k].target), None, Wanted(ops[k])}, Residues(fs.Partials()))
    ensures Safe(fs.files, ops, original, fs.Partials())
  {
    forall i | 0 <= i < |ops| ensures SafeOperation(fs.files, ops[i], original, fs.Partials()) {
      assert SafeOperation(before, ops[i], original, fs.Partials());
      if i != k { assert View(fs.files, ops[i]) == View(before, ops[i]); }
    }
  }

  /** One step of rollback, seen from the whole list. */
  method RestoreTargetAmong(fs: FileSystem, ops: seq<Operation>, j: nat, applied: AppliedOperation, ghost from: nat, ghost original: Files)
    returns (r: Outcome)
    requires fs.Valid() && Separate(ops) && j < |ops|
    requires RecordedOperation(fs.files, fs.dirs, applied, ops[j], original)
    requires Safe(fs.files, ops, original, fs.Partials()) && WellFormed(original, fs.dirs)
    requires from <= |fs.trace| && SafeSince(from, fs.trace, ops, original, fs.Partials())
    modifies fs
    ensures fs.Valid() && fs.dirs == old(fs.dirs) && old(fs.clock) <= fs.clock
    ensures SameOutside(fs.files, old(fs.files), PathsOf(ops[j]))
    ensures old(fs.trace) <= fs.trace && SafeSince(from, fs.trace, ops, original, fs.Partials()) && Safe(fs.files, ops, original, fs.Partials())
    ensures View(fs.files, ops[j]).tmp == old(View(fs.files, ops[j]).tmp)
    ensures forall i :: 0 <= i < |ops| && i != j ==> View(fs.files, ops[i]) == old(View(fs.files, ops[i]))
    ensures r.Done? ==> View(fs.files, ops[j]).target == At(original, ops[j].target) && View(fs.files, ops[j]).backup == None
    ensures Plausible(View(fs.files, ops[j]).target, {old(View(fs.files, ops[j]).target), None, At(original, ops[j].target)}, fs.Partials())
    ensures fs.Calm(old(fs.clock), fs.clock) ==> r.Done?
  {
    assert SafeOperation(fs.files, ops[j], original, fs.Partials());
    r := RestoreTarget(fs, applied, original);
    ghost var files, trace := old(fs.files), old(fs.trace);
    forall i | 0 <= i < |ops| && i != j ensures View(fs.files, ops[i]) == View(files, ops[i]) {
      ViewKept(ops, i, j, fs.files, files);
    }
    SafetyExtends(from, trace, fs.trace, ops, j, files, original, fs.Partials());
    forall i | 0 <= i < |ops| ensures SafeOperation(fs.files, ops[i], original, fs.Partials()) {
      assert SafeOperation(files, ops[i], original, fs.Partials());
      if i != j { assert View(fs.files, ops[i]) == View(files, ops[i]); }
    }
  }

  /** What rollback leaves of one operation: nothing done, or undone, or named as not undone. */
  ghost predicate Undone(now: Slot, before: Slot, op: Operation, handled: bool, errors: seq<Path>, partials: iset<Bytes>,
                         original: Files)
  {
    && now.tmp == before.tmp
    && Plausible(now.target, {before.target, None, At(original, op.target)}, partials)
    && (!handled ==> now == before)
    && (handled && op.target !in errors ==> now.target == At(original, op.target) && now.backup == None)
  }

  ghost predicate UndoneFrom(now: Files, before: Files, ops: seq<Operation>, lo: nat, hi: nat, errors: seq<Path>,
                             partials: iset<Bytes>, original: Files)
  {
    forall i :: 0 <= i < |ops| ==> Undone(View(now, ops[i]), View(before, ops[i]), ops[i], lo <= i < hi, errors, partials, original)
  }

  /** Every error names the target of a recorded operation. */
  ghost predicate NamesTargets(errors: seq<Path>, ops: seq<Operation>, count: nat) {
    forall e :: e in errors ==> exists i :: 0 <= i < count <= |ops| && ops[i].target == e
  }

  lemma NotYetUndone(files: Files, before: Files, dirs: set<Path>, ops: seq<Operation>, applied: seq<AppliedOperation>, j: nat,
                     errors: seq<Path>, partials: iset<Bytes>, original: Files)
    requires j < |applied| && Recorded(before, dirs, applied, ops, original)
    requires UndoneFrom(files, before, ops, j + 1, |applied|, errors, partials, original)
    ensures View(files, ops[j]) == View(before, ops[j])
    ensures RecordedOperation(files, dirs, applied[j], ops[j], original)
  {
    assert Undone(View(files, ops[j]), View(before, ops[j]), ops[j], false, errors, partials, original);
    assert RecordedOperation(before, dirs, applied[j], ops[j], original);
  }

  lemma OneMoreUndone(now: Files, files: Files, before: Files, ops: seq<Operation>, j: nat, count: nat, named: seq<Path>, errors: seq<Path>,
                      partials: iset<Bytes>, original: Files)
    requires j < count <= |ops| && UndoneFrom(files, before, ops, j + 1, count, named, partials, original)
    requires View(files, ops[j]) == View(before, ops[j])
    requires forall i :: 0 <= i < |ops| && i != j ==> View(now, ops[i]) == View(files, ops[i])
    requires View(now, ops[j]).tmp == View(files, ops[j]).tmp
    requires Plausible(View(now, ops[j]).target, {View(files, ops[j]).target, None, At(original, ops[j].target)}, partials)
    requires forall e :: e in named ==> e in errors
    requires ops[j].target in errors
             || (View(now, ops[j]).target == At(original, ops[j].target) && View(now, ops[j]).backup == None)
    ensures UndoneFrom(now, before, ops, j, count, errors, partials, original)
  {
    forall i | 0 <= i < |ops|
      ensures Undone(View(now, ops[i]), View(before, ops[i]), ops[i], j <= i < count, errors, partials, original)
    {
      assert Undone(View(files, ops[i]), View(before, ops[i]), ops[i], j + 1 <= i < count, named, partials, original);
    }
  }

  /** What rollback keeps as it goes back to operation `j`. */
  ghost predicate RolledBackTo(fs: FileSystem, ops: seq<Operation>, applied: seq<AppliedOperation>, j: nat, errors: seq<Path>, from: nat,
                               before: Files, original: Files)
    reads fs
  {
    && fs.Valid() && j <= |applied|
    && SameOutside(fs.files, before, TouchedPaths(ops))
    && from <= |fs.trace| && SafeSince(from, fs.trace, ops, original, fs.Partials()) && Safe(fs.files, ops, original, fs.Partials())
    && UndoneFrom(fs.files, before, ops, j, |applied|, errors, fs.Partials(), original)
    && NamesTargets(errors, ops, |applied|)
  }

  /** One turn of the rollback loop. */
  method RollbackNext(fs: FileSystem, ops: seq<Operation>, applied: seq<AppliedOperation>, j: nat, errors: seq<Path>, ghost from: nat,
                      ghost before: Files, ghost original: Files)
    returns (errors': seq<Path>)
    requires Separate(ops) && WellFormed(original, fs.dirs) && Recorded(before, fs.dirs, applied, ops, original)
    requires j < |applied| && RolledBackTo(fs, ops, applied, j + 1, errors, from, before, original)
    modifies fs
    ensures fs.dirs == old(fs.dirs) && old(fs.clock) <= fs.clock && old(fs.trace) <= fs.trace
    ensures RolledBackTo(fs, ops, applied, j, errors', from, before, original)
    ensures fs.Calm(old(fs.clock), fs.clock) ==> errors' == errors
  {
    ghost var files := fs.files;
    NotYetUndone(files, before, fs.dirs, ops, applied, j, errors, fs.Partials(), original);
    var r := RestoreTargetAmong(fs, ops, j, applied[j], from, original);
    FrameWidens(ops, j, files, before, fs.files);
    errors' := if r.Raised? then errors + [ops[j].target] else errors;
    OneMoreUndone(fs.files, files, before, ops, j, |applied|, errors, errors', fs.Partials(), original);
  }

  method RollbackAppliedOperations(fs: FileSystem, ops: seq<Operation>, applied: seq<AppliedOperation>, ghost original: Files)
    returns (errors: seq<Path>)
    requires fs.Valid() && Separate(ops) && Recorded(fs.files, fs.dirs, applied, ops, original)
    requires Safe(fs.files, ops, original, fs.Partials()) && WellFormed(original, fs.dirs)
    modifies fs
    ensures fs.Valid() && fs.dirs == old(fs.dirs) && old(fs.clock) <= fs.clock
    ensures SameOutside(fs.files, old(fs.files), TouchedPaths(ops))
    ensures old(fs.trace) <= fs.trace && SafeSince(old(|fs.trace|), fs.trace, ops, original, fs.Partials()) && Safe(fs.files, ops, original, fs.Partials())
    ensures UndoneFrom(fs.files, old(fs.files), ops, 0, |applied|, errors, fs.Partials(), original)
    ensures NamesTargets(errors, ops, |applied|)
    ensures fs.Calm(old(fs.clock), fs.clock) ==> errors == []
  {
    ghost var before, from := fs.files, |fs.trace|;
    errors := [];
    var j := |applied|;
    while j > 0
      invariant 0 <= j <= |applied|
      invariant fs.dirs == old(fs.dirs) && old(fs.clock) <= fs.clock && old(fs.trace) <= fs.trace
      invariant RolledBackTo(fs, ops, applied, j, errors, from, before, original)
      invariant fs.Calm(old(fs.clock), fs.clock) ==> errors == []
    {
      j := j - 1;
      errors := RollbackNext(fs, ops, applied, j, errors, from, before, original);
    }
  }
}
