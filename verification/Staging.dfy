/** Writing the temporaries of a transaction, and the cleanups that follow its end. */
module Staging {
  import opened Common
  import opened FileSystems
  import opened Operations
  import opened RetriedPaths
  import opened SwapAndRollback

  ghost predicate Above(d: Path, p: Path) {
    |d| < |p| && d == p[..|d|]
  }

  /** Whatever exists has only directories above it. */
  lemma {:induction false} AncestorsAreDirs(fs: FileSystem, p: Path, d: Path)
    requires fs.Valid() && fs.Exists(p) && Above(d, p)
    ensures d in fs.dirs
    decreases |p|
  {
    if d != Parent(p) {
      assert Above(d, Parent(p));
      AncestorsAreDirs(fs, Parent(p), d);
    }
  }

  method MissingParentDirs(fs: FileSystem, p: Path) returns (missing: seq<Path>)
    requires fs.Valid() && p != []
    ensures forall d :: d in missing <==> Above(d, p) && !fs.Exists(d)
  {
    missing := [];
    var parent := Parent(p);
    while !fs.Exists(parent)
      invariant Above(parent, p)
      invariant forall d :: d in missing <==> Above(d, p) && |parent| < |d| && !fs.Exists(d)
      invariant forall d :: Above(d, p) && |parent| < |d| ==> !fs.Exists(d)
      decreases |parent|
    {
      missing := missing + [parent];
      parent := Parent(parent);
    }
    forall d | Above(d, p) && |d| <= |parent| ensures fs.Exists(d) {
      if |d| < |parent| {
        AncestorsAreDirs(fs, parent, d);
      } else {
        assert d == parent;
      }
    }
  }

  ghost function Untouched(op: Operation, original: Files): Slot {
    Slot(At(original, op.target), None, None)
  }

  ghost predicate StagedUpTo(files: Files, ops: seq<Operation>, k: nat, original: Files) {
    forall i :: 0 <= i < |ops| ==>
      View(files, ops[i]) == if i < k then Staged(ops[i], original) else Untouched(ops[i], original)
  }

  ghost function TmpsBefore(ops: seq<Operation>, k: nat): set<Path> {
    set i: nat | i < k && i < |ops| && ops[i].Write? :: ops[i].tmp
  }

  /** A directory that some temporary needs. */
  ghost predicate NeededDir(d: Path, ops: seq<Operation>) {
    exists i :: 0 <= i < |ops| && ops[i].Write? && Above(d, ops[i].tmp)
  }

  /** New directories are all recorded, and only paths that did not exist are recorded. */
  ghost predicate DirsTracked(dirs: set<Path>, created: seq<Path>, ops: seq<Operation>, files0: Files, dirs0: set<Path>) {
    && dirs0 <= dirs
    && (forall d :: d in dirs ==> d in dirs0 || d in created)
    && (forall d :: d in created ==> d !in dirs0 && d !in files0 && NeededDir(d, ops))
  }

  /** Nothing but injected faults can stop the staging. */
  ghost predicate Stageable(ops: seq<Operation>, files: Files) {
    && (forall i, j :: 0 <= i < |ops| && 0 <= j < |ops| && ops[i].Write? && ops[j].Write? ==> !Above(ops[i].tmp, ops[j].tmp))
    && (forall i, f :: 0 <= i < |ops| && ops[i].Write? && f in files ==> !Above(f, ops[i].tmp))
  }

  /** Creates the parent directories of one temporary and writes it. */
  method StageWrite(fs: FileSystem, op: Operation) returns (r: Outcome, missing: seq<Path>)
    requires fs.Valid() && op.Write? && op.tmp !in fs.files
    modifies fs
    ensures fs.Valid() && old(fs.clock) <= fs.clock
    ensures old(fs.dirs) <= fs.dirs
    ensures forall d :: d in fs.dirs && d !in old(fs.dirs) ==> d in missing
    ensures forall d :: d in missing <==> Above(d, op.tmp) && !old(fs.Exists(d))
    ensures r.Done? ==> fs.files == old(fs.files)[op.tmp := op.text] && forall d :: Above(d, op.tmp) ==> d in fs.dirs
    ensures r.Raised? ==> SameOutside(fs.files, old(fs.files), {op.tmp}) && (fs.Clean() ==> fs.files == old(fs.files))
    ensures fs.files.Keys >= old(fs.files.Keys)
    ensures OnlyTouched(old(fs.trace), fs.trace, old(fs.files), {op.tmp})
    ensures fs.Calm(old(fs.clock), fs.clock) && op.tmp !in old(fs.dirs) && (forall f :: f in old(fs.files) ==> !Above(f, op.tmp))
            ==> r.Done?
  {
    if op.tmp == [] {
      // The root directory exists, so its write fails without touching anything.
      missing := [];
      r := fs.WriteBytes(op.tmp, op.text);
      return;
    }
    missing := MissingParentDirs(fs, op.tmp);
    r := fs.MakeDirs(Parent(op.tmp));
    forall d | d in fs.dirs && d !in old(fs.dirs) ensures d in missing {
      assert d <= Parent(op.tmp);
      assert Above(d, op.tmp);
    }
    assert op.tmp in fs.dirs <==> op.tmp in old(fs.dirs);
    if r.Raised? {
      assert (forall f :: f in old(fs.files) ==> !Above(f, op.tmp)) ==> forall q :: q <= Parent(op.tmp) ==> Above(q, op.tmp) && q !in fs.files;
      return;
    }
    r := fs.WriteBytes(op.tmp, op.text);
    if r.Done? {
      forall d | Above(d, op.tmp) ensures d in fs.dirs {
        AncestorsAreDirs(fs, op.tmp, d);
      }
    }
  }

  /** The untouched originals are safe, and staging touches temporaries only. */
  lemma StagedIsSafe(files: Files, ops: seq<Operation>, original: Files, partials: iset<Bytes>)
    requires forall i :: 0 <= i < |ops| ==> View(files, ops[i]).target == At(original, ops[i].target)
    ensures Safe(files, ops, original, partials)
  {
    forall i | 0 <= i < |ops| ensures SafeOperation(files, ops[i], original, partials) {
      assert View(files, ops[i]).target == At(original, ops[i].target);
    }
  }

  lemma StageKeepsTargets(ops: seq<Operation>, k: nat, now: Files, before: Files, original: Files)
    requires Separate(ops) && k < |ops| && ops[k].Write?
    requires SameOutside(now, before, {ops[k].tmp})
    requires StagedUpTo(before, ops, k, original)
    ensures forall i :: 0 <= i < |ops| ==> View(now, ops[i]).target == At(original, ops[i].target)
    ensures forall i :: 0 <= i < |ops| ==> View(now, ops[i]).backup == None
    ensures forall i :: 0 <= i < |ops| && i != k ==> View(now, ops[i]) == View(before, ops[i])
  {
    assert SameOutside(now, before, PathsOf(ops[k]));
    forall i | 0 <= i < |ops|
      ensures View(now, ops[i]).target == At(original, ops[i].target) && View(now, ops[i]).backup == None
      ensures i != k ==> View(now, ops[i]) == View(before, ops[i])
    {
      assert View(before, ops[i]) in {Staged(ops[i], original), Untouched(ops[i], original)};
      if i != k { ViewKept(ops, i, k, now, before); }
    }
  }

  /** Staging stopped at operation `k`: only its own temporary may be torn. */
  ghost predicate StagingStopped(files: Files, ops: seq<Operation>, k: nat, clean: bool, original: Files) {
    && k < |ops| && ops[k].Write?
    && forall i :: 0 <= i < |ops| ==>
         if i == k then
           && View(files, ops[k]).target == At(original, ops[k].target) && View(files, ops[k]).backup == None
           && (clean ==> View(files, ops[k]).tmp == None)
         else
           View(files, ops[i]) == if i < k then Staged(ops[i], original) else Untouched(ops[i], original)
  }

  /** One staging step, seen from the whole list. */
  method StageWriteAmong(fs: FileSystem, ops: seq<Operation>, k: nat, ghost from: nat, ghost original: Files)
    returns (r: Outcome, missing: seq<Path>)
    requires fs.Valid() && Separate(ops) && k < |ops| && ops[k].Write?
    requires StagedUpTo(fs.files, ops, k, original) && original.Keys <= fs.files.Keys
    requires from <= |fs.trace| && SafeSince(from, fs.trace, ops, original, fs.Partials())
    modifies fs
    ensures fs.Valid() && old(fs.clock) <= fs.clock && original.Keys <= fs.files.Keys
    ensures old(fs.dirs) <= fs.dirs
    ensures forall d :: d in fs.dirs && d !in old(fs.dirs) ==> d in missing
    ensures forall d :: d in missing ==> Above(d, ops[k].tmp) && d !in old(fs.dirs) && d !in old(fs.files)
    ensures old(fs.trace) <= fs.trace && SafeSince(from, fs.trace, ops, original, fs.Partials())
    ensures SameOutside(fs.files, old(fs.files), {ops[k].tmp})
    ensures r.Done? ==> StagedUpTo(fs.files, ops, k + 1, original) && forall d :: Above(d, ops[k].tmp) ==> d in fs.dirs
    ensures r.Raised? ==> StagingStopped(fs.files, ops, k, fs.Clean(), original)
    ensures fs.Calm(old(fs.clock), fs.clock) && ops[k].tmp !in old(fs.dirs) && (forall f :: f in old(fs.files) ==> !Above(f, ops[k].tmp))
            ==> r.Done?
  {
    assert View(fs.files, ops[k]) == Untouched(ops[k], original);
    r, missing := StageWrite(fs, ops[k]);
    ghost var before := old(fs.files);
    StageKeepsTargets(ops, k, fs.files, before, original);
    forall n | from <= n < |fs.trace| ensures Safe(fs.trace[n], ops, original, fs.Partials()) {
      if n < |old(fs.trace)| {
        assert fs.trace[n] == old(fs.trace)[n];
      } else {
        StageKeepsTargets(ops, k, fs.trace[n], before, original);
        StagedIsSafe(fs.trace[n], ops, original, fs.Partials());
      }
    }
  }

  ghost predicate StagingFrame(files: Files, dirs: set<Path>, created: seq<Path>, ops: seq<Operation>, k: nat,
                               original: Files, dirs0: set<Path>)
  {
    && SameOutside(files, original, TouchedPaths(ops))
    && original.Keys <= files.Keys
    && (forall f :: f in files ==> f in original || f in TmpsBefore(ops, k))
    && DirsTracked(dirs, created, ops, original, dirs0)
  }

  ghost predicate StagingState(files: Files, dirs: set<Path>, created: seq<Path>, ops: seq<Operation>, k: nat,
                               original: Files, dirs0: set<Path>)
  {
    && StagedUpTo(files, ops, k, original)
    && StagingFrame(files, dirs, created, ops, k, original, dirs0)
    && (forall i, d :: 0 <= i < k && i < |ops| && ops[i].Write? && Above(d, ops[i].tmp) ==> d in dirs)
  }

  lemma TmpsBeforeStep(ops: seq<Operation>, k: nat)
    requires Separate(ops) && k < |ops|
    ensures TmpsBefore(ops, k + 1) == TmpsBefore(ops, k) + (if ops[k].Write? then {ops[k].tmp} else {})
    ensures ops[k].Write? ==> ops[k].tmp !in TmpsBefore(ops, k)
  {
    forall i | 0 <= i < k && ops[i].Write? && ops[k].Write? ensures ops[i].tmp != ops[k].tmp {
      assert PathsOf(ops[i]) !! PathsOf(ops[k]);
      assert ops[i].tmp in PathsOf(ops[i]);
    }
  }

  lemma StagingProceeds(ops: seq<Operation>, k: nat, before: Files, after: Files, dirs: set<Path>, dirs': set<Path>,
                        created: seq<Path>, missing: seq<Path>, original: Files, dirs0: set<Path>)
    requires Separate(ops) && k < |ops| && ops[k].Write?
    requires StagingFrame(before, dirs, created, ops, k, original, dirs0)
    requires SameOutside(after, before, {ops[k].tmp}) && original.Keys <= after.Keys
    requires dirs <= dirs'
    requires forall d :: d in dirs' && d !in dirs ==> d in missing
    requires forall d :: d in missing ==> Above(d, ops[k].tmp) && d !in dirs && d !in before
    ensures StagingFrame(after, dirs', created + missing, ops, k + 1, original, dirs0)
  {
    assert SameOutside(after, before, PathsOf(ops[k]));
    FrameWidens(ops, k, before, original, after);
    TmpsBeforeStep(ops, k);
    forall f | f in after ensures f in original || f in TmpsBefore(ops, k + 1) {
      if f != ops[k].tmp {
        assert At(after, f) == At(before, f);
      }
    }
  }

  /** When the operations are stageable, no temporary has become a directory and no file has come to stand above one. */
  lemma QuietStep(ops: seq<Operation>, k: nat, files: Files, original: Files, dirs: set<Path>, dirs0: set<Path>, created: seq<Path>)
    requires k < |ops| && ops[k].Write? && ops[k].tmp !in dirs0
    requires StagingFrame(files, dirs, created, ops, k, original, dirs0)
    ensures Stageable(ops, original) ==> ops[k].tmp !in dirs && forall f :: f in files ==> !Above(f, ops[k].tmp)
  {
  }

  method StageStep(fs: FileSystem, ops: seq<Operation>, k: nat, created: seq<Path>, ghost from: nat, ghost original: Files,
                   ghost dirs0: set<Path>)
    returns (r: Outcome, created': seq<Path>)
    requires fs.Valid() && Separate(ops) && k < |ops| && ops[k].Write? && ops[k].tmp !in dirs0
    requires StagingState(fs.files, fs.dirs, created, ops, k, original, dirs0)
    requires from <= |fs.trace| && SafeSince(from, fs.trace, ops, original, fs.Partials())
    modifies fs
    ensures fs.Valid() && old(fs.clock) <= fs.clock
    ensures old(fs.trace) <= fs.trace && SafeSince(from, fs.trace, ops, original, fs.Partials())
    ensures StagingFrame(fs.files, fs.dirs, created', ops, k + 1, original, dirs0)
    ensures r.Done? ==> StagingState(fs.files, fs.dirs, created', ops, k + 1, original, dirs0)
    ensures r.Raised? ==> StagingStopped(fs.files, ops, k, fs.Clean(), original)
    ensures fs.Calm(old(fs.clock), fs.clock) && Stageable(ops, original) ==> r.Done?
  {
    ghost var files, dirs := fs.files, fs.dirs;
    QuietStep(ops, k, files, original, dirs, dirs0, created);
    var missing;
    r, missing := StageWriteAmong(fs, ops, k, from, original);
    created' := created + missing;
    StagingProceeds(ops, k, files, fs.files, dirs, fs.dirs, created, missing, original, dirs0);
  }

  /** A deletion needs no staging. */
  lemma StagingSkips(files: Files, dirs: set<Path>, created: seq<Path>, ops: seq<Operation>, k: nat, original: Files, dirs0: set<Path>)
    requires Separate(ops) && k < |ops|
    requires StagingState(files, dirs, created, ops, k, original, dirs0)
    ensures ops[k].Delete? ==> StagingState(files, dirs, created, ops, k + 1, original, dirs0)
  {
    TmpsBeforeStep(ops, k);
  }

  /** What a staging that has come as far as `k` leaves alone. */
  lemma FrameKeeps(files: Files, dirs: set<Path>, created: seq<Path>, ops: seq<Operation>, k: nat, original: Files, dirs0: set<Path>)
    requires WellFormed(files, dirs) && StagingFrame(files, dirs, created, ops, k, original, dirs0)
    ensures WellFormed(original, dirs)
    ensures SameOutside(files, original, TouchedPaths(ops)) && DirsTracked(dirs, created, ops, original, dirs0)
  {
    forall p | p in original ensures p != [] && p !in dirs && Parent(p) in dirs {
      assert p in files;
    }
  }

  lemma StagingEnds(files: Files, dirs: set<Path>, created: seq<Path>, ops: seq<Operation>, original: Files, dirs0: set<Path>, written: seq<Path>)
    requires StagingState(files, dirs, created, ops, |ops|, original, dirs0) && Elements(written) == TmpsBefore(ops, |ops|)
    ensures StagedUpTo(files, ops, |ops|, original) && Elements(written) == StagedTmps(ops, 0)
    ensures forall d :: NeededDir(d, ops) ==> d in dirs
  {
    assert TmpsBefore(ops, |ops|) == StagedTmps(ops, 0);
  }

  lemma WrittenGrows(written: seq<Path>, p: Path, before: set<Path>)
    requires Distinct(written) && Elements(written) == before && p !in before
    ensures Distinct(written + [p]) && Elements(written + [p]) == before + {p}
  {
    assert p !in written;
  }

  /** One turn of the staging loop. */
  method StageNext(fs: FileSystem, ops: seq<Operation>, k: nat, created: seq<Path>, written: seq<Path>, ghost from: nat,
                   ghost original: Files, ghost dirs0: set<Path>)
    returns (r: Outcome, created': seq<Path>, written': seq<Path>)
    requires fs.Valid() && ValidOperations(ops, original, dirs0, None) && k < |ops|
    requires StagingState(fs.files, fs.dirs, created, ops, k, original, dirs0)
    requires from <= |fs.trace| && SafeSince(from, fs.trace, ops, original, fs.Partials())
    requires Distinct(written) && Elements(written) == TmpsBefore(ops, k)
    modifies fs
    ensures fs.Valid() && old(fs.clock) <= fs.clock && Distinct(written')
    ensures old(fs.trace) <= fs.trace && SafeSince(from, fs.trace, ops, original, fs.Partials())
    ensures StagingFrame(fs.files, fs.dirs, created', ops, k + 1, original, dirs0)
    ensures r.Done? ==> StagingState(fs.files, fs.dirs, created', ops, k + 1, original, dirs0) && Elements(written') == TmpsBefore(ops, k + 1)
    ensures r.Raised? ==> StagingStopped(fs.files, ops, k, fs.Clean(), original) && Elements(written') == TmpsBefore(ops, k)
    ensures fs.Calm(old(fs.clock), fs.clock) && Stageable(ops, original) ==> r.Done?
  {
    TmpsBeforeStep(ops, k);
    StagingSkips(fs.files, fs.dirs, created, ops, k, original, dirs0);
    r, created', written' := Done, created, written;
    if ops[k].Write? {
      r, created' := StageStep(fs, ops, k, created, from, original, dirs0);
      if r.Done? {
        WrittenGrows(written, ops[k].tmp, TmpsBefore(ops, k));
        written' := written + [ops[k].tmp];
      }
    }
  }

  method StageWrites(fs: FileSystem, ops: seq<Operation>)
    returns (r: Outcome, created: seq<Path>, written: seq<Path>, ghost failed: nat)
    requires fs.Valid() && ValidOperations(ops, fs.files, fs.dirs, None)
    modifies fs
    ensures fs.Valid() && old(fs.clock) <= fs.clock && WellFormed(old(fs.files), fs.dirs)
    ensures SameOutside(fs.files, old(fs.files), TouchedPaths(ops))
    ensures old(fs.trace) <= fs.trace && SafeSince(old(|fs.trace|), fs.trace, ops, old(fs.files), fs.Partials())
    ensures DirsTracked(fs.dirs, created, ops, old(fs.files), old(fs.dirs))
    ensures Distinct(written)
    ensures r.Done? ==> StagedUpTo(fs.files, ops, |ops|, old(fs.files)) && Elements(written) == StagedTmps(ops, 0)
                        && forall d :: NeededDir(d, ops) ==> d in fs.dirs
    ensures r.Raised? ==> StagingStopped(fs.files, ops, failed, fs.Clean(), old(fs.files)) && Elements(written) == TmpsBefore(ops, failed)
    ensures fs.Calm(old(fs.clock), fs.clock) && Stageable(ops, old(fs.files)) ==> r.Done?
  {
    ghost var original, dirs0, from := fs.files, fs.dirs, |fs.trace|;
    created, written, failed, r := [], [], 0, Done;
    StagingBegins(fs, ops);
    var k := 0;
    while k < |ops|
      invariant 0 <= k <= |ops| && r.Done?
      invariant fs.Valid() && old(fs.clock) <= fs.clock
      invariant old(fs.trace) <= fs.trace && SafeSince(from, fs.trace, ops, original, fs.Partials())
      invariant StagingState(fs.files, fs.dirs, created, ops, k, original, dirs0)
      invariant Distinct(written) && Elements(written) == TmpsBefore(ops, k)
    {
      r, created, written := StageNext(fs, ops, k, created, written, from, original, dirs0);
      if r.Raised? {
        failed := k;
        FrameKeeps(fs.files, fs.dirs, created, ops, k + 1, original, dirs0);
        return;
      }
      k := k + 1;
    }
    FrameKeeps(fs.files, fs.dirs, created, ops, |ops|, original, dirs0);
    StagingEnds(fs.files, fs.dirs, created, ops, original, dirs0, written);
  }

  lemma StagingBegins(fs: FileSystem, ops: seq<Operation>)
    requires fs.Valid() && ValidOperations(ops, fs.files, fs.dirs, None)
    ensures StagingState(fs.files, fs.dirs, [], ops, 0, fs.files, fs.dirs) && TmpsBefore(ops, 0) == {}
  {
    UntouchedAtFirst(fs, ops);
  }

  lemma UntouchedAtFirst(fs: FileSystem, ops: seq<Operation>)
    requires fs.Valid() && ValidOperations(ops, fs.files, fs.dirs, None)
    ensures StagedUpTo(fs.files, ops, 0, fs.files)
  {
  }
}
