/** What happens after a transaction has ended: temporaries and directories go after a failure, backups after a success. */
module Cleanup {
  import opened Common
  import opened FileSystems
  import opened Operations
  import opened RetriedPaths
  import opened SwapAndRollback

  method CleanupTemporaryWrites(fs: FileSystem, paths: seq<Path>) returns (errors: seq<Path>)
    requires fs.Valid()
    modifies fs
    ensures fs.Valid() && fs.dirs == old(fs.dirs) && old(fs.clock) <= fs.clock
    ensures SameOutside(fs.files, old(fs.files), Elements(paths))
    ensures OnlyTouched(old(fs.trace), fs.trace, old(fs.files), Elements(paths))
    ensures forall p :: p in paths && p !in errors ==> p !in fs.files
    ensures forall e :: e in errors ==> e in paths
    ensures fs.Calm(old(fs.clock), fs.clock) && (forall p :: p in paths ==> p !in fs.dirs) ==> errors == []
  {
    errors := [];
    for i := 0 to |paths|
      invariant fs.Valid() && fs.dirs == old(fs.dirs) && old(fs.clock) <= fs.clock
      invariant SameOutside(fs.files, old(fs.files), Elements(paths))
      invariant OnlyTouched(old(fs.trace), fs.trace, old(fs.files), Elements(paths))
      invariant forall j :: 0 <= j < i && paths[j] !in errors ==> paths[j] !in fs.files
      invariant forall e :: e in errors ==> e in paths
      invariant fs.Calm(old(fs.clock), fs.clock) && (forall p :: p in paths ==> p !in fs.dirs) ==> errors == []
    {
      assert paths[i] in paths;
      if fs.Exists(paths[i]) {
        var r := UnlinkPath(fs, paths[i]);
        if r.Raised? {
          errors := errors + [paths[i]];
        }
      }
    }
  }

  lemma {:induction false} HasDeepest(s: set<Path>) returns (d: Path)
    requires s != {}
    ensures d in s && forall e :: e in s ==> |e| <= |d|
  {
    var x :| x in s;
    if s == {x} {
      d := x;
    } else {
      var y := HasDeepest(s - {x});
      d := if |y| <= |x| then x else y;
    }
  }

  /** `sorted(set(paths), key=depth, reverse=True)`; the order among equally deep paths is arbitrary. */
  method DeepestFirst(paths: seq<Path>) returns (sorted: seq<Path>)
    ensures Elements(sorted) == Elements(paths)
    ensures Distinct(sorted)
    ensures forall i, j :: 0 <= i < j < |sorted| ==> |sorted[i]| >= |sorted[j]|
  {
    sorted := [];
    var rest := Elements(paths);
    while rest != {}
      invariant Elements(sorted) + rest == Elements(paths) && Elements(sorted) !! rest
      invariant Distinct(sorted)
      invariant forall i, j :: 0 <= i < j < |sorted| ==> |sorted[i]| >= |sorted[j]|
      invariant forall i, e :: 0 <= i < |sorted| && e in rest ==> |sorted[i]| >= |e|
      decreases rest
    {
      var deepest := HasDeepest(rest);
      var d :| d in rest && forall e :: e in rest ==> |e| <= |d|;
      assert Elements(sorted + [d]) == Elements(sorted) + {d};
      assert d !in sorted;
      sorted := sorted + [d];
      rest := rest - {d};
    }
  }

  /** Nothing but recorded directories stands in a recorded directory. */
  ghost predicate Removable(created: seq<Path>, files: Files, dirs: set<Path>) {
    && (forall d :: d in created ==> d != [] && d !in files)
    && (forall f :: f in files ==> f != [] && Parent(f) !in created)
    && (forall d :: d in dirs && d != [] && Parent(d) in created ==> d in created)
  }

  method CleanupCreatedDirs(fs: FileSystem, created: seq<Path>) returns (errors: seq<Path>)
    requires fs.Valid()
    modifies fs
    ensures fs.Valid() && fs.files == old(fs.files) && fs.trace == old(fs.trace) && old(fs.clock) <= fs.clock
    ensures fs.dirs <= old(fs.dirs)
    ensures forall d :: d in old(fs.dirs) && d !in fs.dirs ==> d in created
    ensures forall d :: d in created && d in fs.dirs ==> d in errors
    ensures forall e :: e in errors ==> e in created
    ensures fs.Calm(old(fs.clock), fs.clock) && Removable(created, fs.files, old(fs.dirs)) ==> errors == []
  {
    errors := [];
    var sorted := DeepestFirst(created);
    assert forall d :: d in sorted <==> d in Elements(sorted);
    assert forall d :: d in created <==> d in Elements(created);
    ghost var removable := Removable(created, fs.files, fs.dirs);
    for i := 0 to |sorted|
      invariant fs.Valid() && fs.files == old(fs.files) && fs.trace == old(fs.trace) && old(fs.clock) <= fs.clock
      invariant fs.dirs <= old(fs.dirs)
      invariant forall d :: d in old(fs.dirs) && d !in fs.dirs ==> d in created
      invariant forall j :: 0 <= j < i && sorted[j] in fs.dirs ==> sorted[j] in errors
      invariant forall e :: e in errors ==> e in created
      invariant removable && fs.Calm(old(fs.clock), fs.clock) ==> errors == []
      invariant errors == [] ==> forall j :: 0 <= j < i ==> sorted[j] !in fs.dirs
    {
      var d := sorted[i];
      assert d in created;
      if removable && errors == [] && d in fs.dirs {
        NothingLeftInside(fs, sorted, i, created);
      }
      var r := fs.Rmdir(d);
      if r.RmdirRaised? {
        errors := errors + [d];
      }
    }
  }

  /** Deeper recorded directories are already gone. */
  lemma NothingLeftInside(fs: FileSystem, sorted: seq<Path>, i: nat, created: seq<Path>)
    requires fs.Valid() && i < |sorted| && Removable(created, fs.files, fs.dirs)
    requires forall d :: d in created <==> d in sorted
    requires forall j, k :: 0 <= j < k < |sorted| ==> |sorted[j]| >= |sorted[k]|
    requires forall j :: 0 <= j < i ==> sorted[j] !in fs.dirs
    ensures fs.EmptyDir(sorted[i])
  {
    forall d | d in fs.dirs ensures d == [] || Parent(d) != sorted[i] {
      if d in created {
        assert d in sorted;
      }
    }
  }

  /** The targets hold what was wanted; a backup is gone, or holds the original and is named. */
  ghost predicate Finished(slot: Slot, op: Operation, warnings: seq<Path>, original: Files) {
    && slot.target == Wanted(op) && slot.tmp == None
    && (slot.backup == None || (slot.backup == At(original, op.target) && op.backup in warnings))
  }

  ghost predicate WantedSince(from: nat, trace: seq<Files>, ops: seq<Operation>) {
    forall n, i :: from <= n < |trace| && 0 <= i < |ops| ==> At(trace[n], ops[i].target) == Wanted(ops[i])
  }

  method CleanupSuccessBackups(fs: FileSystem, ops: seq<Operation>, applied: seq<AppliedOperation>, ghost original: Files)
    returns (warnings: seq<Path>)
    requires fs.Valid() && Separate(ops) && Progress(fs.files, ops, |ops|, original)
    requires Recorded(fs.files, fs.dirs, applied, ops, original) && |applied| == |ops|
    modifies fs
    ensures fs.Valid() && fs.dirs == old(fs.dirs) && old(fs.clock) <= fs.clock
    ensures SameOutside(fs.files, old(fs.files), TouchedPaths(ops))
    ensures forall i :: 0 <= i < |ops| ==> Finished(View(fs.files, ops[i]), ops[i], warnings, original)
    ensures forall w :: w in warnings ==> fs.Exists(w) && exists i :: 0 <= i < |ops| && ops[i].backup == w
    ensures old(fs.trace) <= fs.trace && WantedSince(old(|fs.trace|), fs.trace, ops)
    ensures fs.Calm(old(fs.clock), fs.clock) && (forall i :: 0 <= i < |ops| ==> ops[i].backup !in fs.dirs) ==> warnings == []
  {
    ghost var before, from := fs.files, |fs.trace|;
    warnings := [];
    assert WarningsStand(fs.files, fs.dirs, ops, 0, warnings);
    var k := 0;
    while k < |applied|
      invariant 0 <= k <= |applied|
      invariant fs.dirs == old(fs.dirs) && old(fs.clock) <= fs.clock && old(fs.trace) <= fs.trace
      invariant BackupsCleaned(fs, ops, k, warnings, from, before, original)
      invariant fs.Calm(old(fs.clock), fs.clock) && (forall i :: 0 <= i < |ops| ==> ops[i].backup !in fs.dirs) ==> warnings == []
    {
      assert RecordedOperation(before, fs.dirs, applied[k], ops[k], original);
      warnings := CleanupBackup(fs, ops, k, applied[k].operation.backup, warnings, from, before, original);
      k := k + 1;
    }
  }

  /** How far the backups are cleaned. */
  ghost predicate BackupsCleaned(fs: FileSystem, ops: seq<Operation>, k: nat, warnings: seq<Path>, from: nat, before: Files, original: Files)
    reads fs
  {
    && fs.Valid() && SameOutside(fs.files, before, TouchedPaths(ops))
    && FinishedUpTo(fs.files, ops, k, warnings, original) && WarningsStand(fs.files, fs.dirs, ops, k, warnings)
    && from <= |fs.trace| && WantedSince(from, fs.trace, ops)
  }

  /** One turn of the cleanup loop. */
  method CleanupBackup(fs: FileSystem, ops: seq<Operation>, k: nat, backup: Path, warnings: seq<Path>, ghost from: nat, ghost before: Files,
                       ghost original: Files)
    returns (warnings': seq<Path>)
    requires Separate(ops) && k < |ops| && backup == ops[k].backup && BackupsCleaned(fs, ops, k, warnings, from, before, original)
    modifies fs
    ensures fs.dirs == old(fs.dirs) && old(fs.clock) <= fs.clock && old(fs.trace) <= fs.trace
    ensures BackupsCleaned(fs, ops, k + 1, warnings', from, before, original)
    ensures fs.Calm(old(fs.clock), fs.clock) && backup !in fs.dirs ==> warnings' == warnings
  {
    warnings' := warnings;
    ghost var files, trace := fs.files, fs.trace;
    if fs.Exists(backup) {
      var r := UnlinkPath(fs, backup);
      if r.Raised? {
        warnings' := warnings + [backup];
      }
    }
    assert SameOutside(fs.files, files, PathsOf(ops[k]));
    FrameWidens(ops, k, files, before, fs.files);
    BackupStep(ops, k, files, fs.files, fs.dirs, warnings, warnings', original);
    BackupTrace(ops, k, from, trace, fs.trace, files, original, warnings);
  }

  ghost predicate FinishedUpTo(files: Files, ops: seq<Operation>, k: nat, warnings: seq<Path>, original: Files) {
    forall i :: 0 <= i < |ops| ==>
      if i < k then Finished(View(files, ops[i]), ops[i], warnings, original)
      else View(files, ops[i]) == Committed(ops[i], original)
  }

  ghost predicate WarningsStand(files: Files, dirs: set<Path>, ops: seq<Operation>, k: nat, warnings: seq<Path>) {
    forall w :: w in warnings ==> (w in files || w in dirs) && exists i :: 0 <= i < k && i < |ops| && ops[i].backup == w
  }

  lemma BackupStep(ops: seq<Operation>, k: nat, before: Files, after: Files, dirs: set<Path>, named: seq<Path>, warnings: seq<Path>,
                   original: Files)
    requires Separate(ops) && k < |ops| && FinishedUpTo(before, ops, k, named, original)
    requires WarningsStand(before, dirs, ops, k, named)
    requires || (after == before && (ops[k].backup in before || ops[k].backup in dirs) && warnings == named + [ops[k].backup])
             || (after == before - {ops[k].backup} && warnings == named)
    ensures FinishedUpTo(after, ops, k + 1, warnings, original)
    ensures WarningsStand(after, dirs, ops, k + 1, warnings)
  {
    assert SameOutside(after, before, PathsOf(ops[k]));
    forall i | 0 <= i < |ops|
      ensures if i < k + 1 then Finished(View(after, ops[i]), ops[i], warnings, original)
              else View(after, ops[i]) == Committed(ops[i], original)
    {
      if i != k { ViewKept(ops, i, k, after, before); }
    }
    forall w | w in warnings
      ensures (w in after || w in dirs) && exists i :: 0 <= i < k + 1 && i < |ops| && ops[i].backup == w
    {
      if w in named {
        var i :| 0 <= i < k && i < |ops| && ops[i].backup == w;
        ViewKept(ops, i, k, after, before);
        assert View(after, ops[i]) == View(before, ops[i]);
      }
    }
  }

  lemma BackupTrace(ops: seq<Operation>, k: nat, from: nat, before: seq<Files>, after: seq<Files>, base: Files,
                    original: Files, named: seq<Path>)
    requires Separate(ops) && k < |ops| && FinishedUpTo(base, ops, k, named, original)
    requires from <= |before| && WantedSince(from, before, ops)
    requires OnlyTouched(before, after, base, {ops[k].backup})
    ensures WantedSince(from, after, ops)
  {
    forall n, i | from <= n < |after| && 0 <= i < |ops| ensures At(after[n], ops[i].target) == Wanted(ops[i]) {
      if n < |before| {
        assert after[n] == before[n];
      } else {
        assert View(base, ops[i]).target == Wanted(ops[i]);
        assert ops[i].target != ops[k].backup by {
          if i != k { assert PathsOf(ops[i]) !! PathsOf(ops[k]); }
        }
      }
    }
  }
}
