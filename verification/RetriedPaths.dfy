/** Removing, copying and moving one path, with the retries and the copy fallback. */
module RetriedPaths {
  import opened Common
  import opened FileSystems

  /** Five delays, so six attempts. */
  const RETRY_DELAYS: nat := 5

  ghost predicate FailsUntil(fs: FileSystem, kind: Primitive, from: nat, to: nat) {
    forall n: nat :: from <= n < to ==> fs.FailsRetryably(n, kind)
  }

  /** Whether up to six attempts from step `from` on contain a success before anything but retryable failures. */
  ghost predicate GoesThrough(fs: FileSystem, kind: Primitive, from: nat) {
    exists m: nat :: from <= m < from + 6 && fs.Works(m, kind) && FailsUntil(fs, kind, from, m)
  }

  /** The attempts that the faults call for end in a success exactly when there is one to be had. */
  lemma RetriedIsUnique(fs: FileSystem, kind: Primitive, from: nat, attempts: nat)
    requires fs.Retried(kind, from, attempts)
    ensures fs.Works(from + attempts - 1, kind) <==> GoesThrough(fs, kind, from)
  {
    var last := from + attempts - 1;
    if fs.Works(last, kind) {
      assert FailsUntil(fs, kind, from, last);
    }
    if m: nat :| from <= m < from + 6 && fs.Works(m, kind) && FailsUntil(fs, kind, from, m) {
      assert m < last ==> fs.FailsRetryably(m, kind);
    }
  }

  /** Whether a copy from step `from` on goes through: read, write, and one of up to six removals. */
  ghost predicate CopyGoesThrough(fs: FileSystem, from: nat) {
    CopyIsMade(fs, from) && GoesThrough(fs, UnlinkStep, from + 2)
  }

  ghost predicate CopyIsMade(fs: FileSystem, from: nat) {
    fs.Works(from, ReadStep) && fs.Works(from + 1, WriteStep)
  }

  /** After the attempts at the source, from step `from` on, the copy was removed too, unless that failed as well. */
  ghost predicate CopyTakenAway(fs: FileSystem, from: nat, left: Option<Bytes>, copied: Option<Bytes>) {
    exists n: nat :: fs.Retried(UnlinkStep, from, n) && left == if GoesThrough(fs, UnlinkStep, from + n) then None else copied
  }

  method UnlinkPath(fs: FileSystem, p: Path) returns (r: Outcome)
    requires fs.Valid()
    modifies fs
    ensures fs.Valid() && fs.dirs == old(fs.dirs) && old(fs.clock) <= fs.clock
    ensures r.Done? ==> p in old(fs.files) && fs.files == old(fs.files) - {p}
    ensures r.Raised? ==> fs.files == old(fs.files) && fs.trace == old(fs.trace)
    ensures OnlyTouched(old(fs.trace), fs.trace, old(fs.files), {p})
    ensures forall i :: old(|fs.trace|) <= i < |fs.trace| ==> p !in fs.trace[i]
    // Exactly the attempts that the faults call for: retried after a permission-like failure, up to six times.
    ensures fs.clock - old(fs.clock) == fs.unlinkAttempts - old(fs.unlinkAttempts)
    ensures fs.Retried(UnlinkStep, old(fs.clock), fs.clock - old(fs.clock))
    ensures r.Done? <==> p in old(fs.files) && GoesThrough(fs, UnlinkStep, old(fs.clock))
    ensures fs.renameAttempts == old(fs.renameAttempts) && fs.byteWrites == old(fs.byteWrites)
    ensures fs.Calm(old(fs.clock), fs.clock) && p in old(fs.files) ==> r.Done?
  {
    var attempt := 0;
    while true
      invariant attempt <= RETRY_DELAYS
      invariant fs.Valid() && fs.dirs == old(fs.dirs) && fs.files == old(fs.files) && fs.trace == old(fs.trace)
      invariant fs.unlinkAttempts == old(fs.unlinkAttempts) + attempt && fs.clock == old(fs.clock) + attempt
      invariant fs.renameAttempts == old(fs.renameAttempts) && fs.byteWrites == old(fs.byteWrites)
      invariant forall n: nat :: old(fs.clock) <= n < fs.clock ==> fs.FailsRetryably(n, UnlinkStep)
      decreases RETRY_DELAYS - attempt
    {
      r := fs.Unlink(p);
      if r.Raised? && r.retryable && attempt == RETRY_DELAYS {
        fs.SixFailuresAreNotCalm(old(fs.clock));
      }
      if r.Done? || attempt == RETRY_DELAYS || !r.retryable {
        RetriedIsUnique(fs, UnlinkStep, old(fs.clock), attempt + 1);
      }
      if r.Done? || attempt == RETRY_DELAYS || !r.retryable {
        return;
      }
      attempt := attempt + 1;
    }
  }

  method CopyPath(fs: FileSystem, source: Path, target: Path) returns (r: Outcome)
    requires fs.Valid()
    modifies fs
    ensures fs.Valid() && fs.dirs == old(fs.dirs) && old(fs.clock) <= fs.clock
    ensures r.Done? ==> source in old(fs.files) && fs.files == old(fs.files)[target := old(fs.files)[source]]
    ensures r.Raised? ==> SameOutside(fs.files, old(fs.files), {target})
    ensures r.Raised? && fs.Clean() ==> fs.files == old(fs.files)
    ensures r.Raised? ==> Plausible(At(fs.files, target), {At(old(fs.files), target)}, fs.Partials())
    ensures OnlyTouched(old(fs.trace), fs.trace, old(fs.files), {target})
    ensures forall i :: old(|fs.trace|) <= i < |fs.trace| ==>
              Plausible(At(fs.trace[i], target), {At(old(fs.files), source)}, Residues(fs.Partials()))
    ensures fs.renameAttempts == old(fs.renameAttempts) && fs.unlinkAttempts == old(fs.unlinkAttempts)
    ensures old(fs.byteWrites) <= fs.byteWrites <= old(fs.byteWrites) + 1
    ensures r.Done? <==> source in old(fs.files) && old(fs.Placeable(target))
                         && fs.Works(old(fs.clock), ReadStep) && fs.Works(old(fs.clock) + 1, WriteStep)
    ensures source in old(fs.files) && fs.Works(old(fs.clock), ReadStep) ==> fs.clock == old(fs.clock) + 2
    ensures fs.Calm(old(fs.clock), fs.clock) && source in old(fs.files) && old(fs.Placeable(target)) ==> r.Done?
  {
    var read := fs.ReadBytes(source);
    if read.ReadRaised? {
      return Raised(read.retryable);
    }
    r := fs.WriteBytes(target, read.bytes);
  }

  /** The source's bytes are at the source or at the target, which holds what one of them held, nothing, or a residue. */
  ghost predicate Carried(snapshot: Files, source: Path, target: Path, before: Files, partials: iset<Bytes>) {
    && (source in before ==> At(snapshot, source) == At(before, source) || At(snapshot, target) == At(before, source))
    && Plausible(At(snapshot, target), {At(before, target), None, At(before, source)}, Residues(partials))
  }

  ghost predicate CarriedSince(from: nat, trace: seq<Files>, source: Path, target: Path, before: Files, partials: iset<Bytes>) {
    forall n :: from <= n < |trace| ==> Carried(trace[n], source, target, before, partials)
  }

  /** The copy is made: the source goes, and when it cannot be removed the copy does. */
  method RemoveSourceOrCopy(fs: FileSystem, source: Path, target: Path) returns (r: Outcome)
    requires fs.Valid() && source != target && source in fs.files && At(fs.files, target) == At(fs.files, source)
    modifies fs
    ensures fs.Valid() && fs.dirs == old(fs.dirs) && old(fs.clock) <= fs.clock
    ensures r.Done? ==> fs.files == old(fs.files) - {source}
    ensures r.Raised? ==> SameOutside(fs.files, old(fs.files), {target}) && At(fs.files, target) in {None, At(old(fs.files), source)}
    ensures OnlyTouched(old(fs.trace), fs.trace, old(fs.files), {source, target})
    ensures forall i :: old(|fs.trace|) <= i < |fs.trace| ==>
              && At(old(fs.files), source) in {At(fs.trace[i], source), At(fs.trace[i], target)}
              && At(fs.trace[i], target) in {None, At(old(fs.files), source)}
    ensures fs.renameAttempts == old(fs.renameAttempts) && fs.byteWrites == old(fs.byteWrites)
    ensures fs.unlinkAttempts <= old(fs.unlinkAttempts) + 12
    ensures r.Done? <==> GoesThrough(fs, UnlinkStep, old(fs.clock))
    ensures r.Raised? ==> CopyTakenAway(fs, old(fs.clock), At(fs.files, target), At(old(fs.files), source))
    ensures fs.Calm(old(fs.clock), fs.clock) ==> r.Done?
  {
    r := UnlinkPath(fs, source);
    ghost var attempts := fs.clock - old(fs.clock);
    assert fs.Retried(UnlinkStep, old(fs.clock), attempts);
    if r.Raised? {
      if fs.Exists(target) {
        var _ := UnlinkPath(fs, target);
      }
    }
  }

  /** Copy, then remove the source; when the source cannot be removed, take the copy away again. */
  method ReplacePathByCopyUnlink(fs: FileSystem, source: Path, target: Path) returns (r: Outcome)
    requires fs.Valid() && source != target
    modifies fs
    ensures fs.Valid() && fs.dirs == old(fs.dirs) && old(fs.clock) <= fs.clock
    ensures r.Done? ==> source in old(fs.files) && fs.files == (old(fs.files) - {source})[target := old(fs.files)[source]]
    ensures r.Raised? ==> SameOutside(fs.files, old(fs.files), {target})
    ensures r.Raised? ==>
              Plausible(At(fs.files, target), {At(old(fs.files), target), None, At(old(fs.files), source)}, fs.Partials())
    ensures OnlyTouched(old(fs.trace), fs.trace, old(fs.files), {source, target})
    ensures CarriedSince(old(|fs.trace|), fs.trace, source, target, old(fs.files), fs.Partials())
    ensures fs.renameAttempts == old(fs.renameAttempts) && fs.byteWrites <= old(fs.byteWrites) + 1
    ensures fs.unlinkAttempts <= old(fs.unlinkAttempts) + 12
    ensures r.Done? <==> source in old(fs.files) && old(fs.Placeable(target)) && CopyGoesThrough(fs, old(fs.clock))
    // A copy whose source cannot be removed is taken away again.
    ensures r.Raised? && source in old(fs.files) && old(fs.Placeable(target)) && CopyIsMade(fs, old(fs.clock))
            ==> CopyTakenAway(fs, old(fs.clock) + 2, At(fs.files, target), At(old(fs.files), source))
    ensures fs.Calm(old(fs.clock), fs.clock) && source in old(fs.files) && old(fs.Placeable(target)) ==> r.Done?
  {
    r := CopyPath(fs, source, target);
    if r.Done? {
      r := RemoveSourceOrCopy(fs, source, target);
    }
  }

  /** Up to six renames; `exhausted` when all of them failed retryably. */
  method RenameRepeatedly(fs: FileSystem, source: Path, target: Path) returns (r: Outcome, exhausted: bool)
    requires fs.Valid() && source != target
    modifies fs
    ensures fs.Valid() && fs.dirs == old(fs.dirs) && old(fs.clock) < fs.clock
    ensures r.Done? ==> !exhausted && source in old(fs.files) && fs.files == (old(fs.files) - {source})[target := old(fs.files)[source]]
    ensures r.Raised? ==> fs.files == old(fs.files) && fs.trace == old(fs.trace)
    ensures OnlyTouched(old(fs.trace), fs.trace, old(fs.files), {source, target})
    ensures CarriedSince(old(|fs.trace|), fs.trace, source, target, old(fs.files), fs.Partials())
    ensures fs.clock - old(fs.clock) == fs.renameAttempts - old(fs.renameAttempts)
    ensures fs.Retried(RenameStep, old(fs.clock), fs.clock - old(fs.clock))
    ensures fs.unlinkAttempts == old(fs.unlinkAttempts) && fs.byteWrites == old(fs.byteWrites)
    ensures exhausted <==> SixRenamesFail(fs, old(fs.clock))
    ensures exhausted ==> fs.clock == old(fs.clock) + 6
    ensures r.Done? <==> source in old(fs.files) && old(fs.Placeable(target)) && GoesThrough(fs, RenameStep, old(fs.clock))
    ensures fs.Calm(old(fs.clock), fs.clock) && source in old(fs.files) && old(fs.Placeable(target)) ==> r.Done? || exhausted
  {
    var attempt := 0;
    r, exhausted := Raised(true), false;
    while attempt <= RETRY_DELAYS
      invariant attempt <= RETRY_DELAYS + 1
      invariant r.Raised?
      invariant fs.Valid() && fs.dirs == old(fs.dirs) && fs.files == old(fs.files) && fs.trace == old(fs.trace)
      invariant fs.renameAttempts == old(fs.renameAttempts) + attempt && fs.clock == old(fs.clock) + attempt
      invariant fs.unlinkAttempts == old(fs.unlinkAttempts) && fs.byteWrites == old(fs.byteWrites)
      invariant forall n: nat :: old(fs.clock) <= n < fs.clock ==> fs.FailsRetryably(n, RenameStep)
    {
      r := fs.Rename(source, target);
      if r.Done? || !r.retryable {
        RetriedIsUnique(fs, RenameStep, old(fs.clock), attempt + 1);
        assert !fs.FailsRetryably(old(fs.clock) + attempt, RenameStep);
        return;
      }
      attempt := attempt + 1;
    }
    assert fs.FailsRetryably(old(fs.clock) + 5, RenameStep);
    RetriedIsUnique(fs, RenameStep, old(fs.clock), 6);
    exhausted := true;
  }

  /** The contract that rollback rests on. */
  method ReplacePath(fs: FileSystem, source: Path, target: Path) returns (r: Outcome)
    requires fs.Valid() && source != target
    modifies fs
    ensures fs.Valid() && fs.dirs == old(fs.dirs) && old(fs.clock) <= fs.clock
    ensures r.Done? ==> source in old(fs.files) && fs.files == (old(fs.files) - {source})[target := old(fs.files)[source]]
    ensures r.Raised? ==> SameOutside(fs.files, old(fs.files), {target})
    ensures r.Raised? ==>
              Plausible(At(fs.files, target), {At(old(fs.files), target), None, At(old(fs.files), source)}, fs.Partials())
    ensures OnlyTouched(old(fs.trace), fs.trace, old(fs.files), {source, target})
    ensures CarriedSince(old(|fs.trace|), fs.trace, source, target, old(fs.files), fs.Partials())
    // Exactly the renames that the faults call for, and the copy exactly after six permission-like failures.
    ensures old(fs.renameAttempts) < fs.renameAttempts
    ensures fs.Retried(RenameStep, old(fs.clock), fs.renameAttempts - old(fs.renameAttempts))
    ensures fs.byteWrites <= old(fs.byteWrites) + 1 && fs.unlinkAttempts <= old(fs.unlinkAttempts) + 12
    ensures fs.byteWrites > old(fs.byteWrites) ==> SixRenamesFail(fs, old(fs.clock))
    // It succeeds exactly when one of the renames does, or six of them fail retryably and the copy goes through.
    ensures r.Done? <==>
              && source in old(fs.files) && old(fs.Placeable(target))
              && (GoesThrough(fs, RenameStep, old(fs.clock))
                  || (SixRenamesFail(fs, old(fs.clock)) && CopyGoesThrough(fs, old(fs.clock) + 6)))
    ensures r.Raised? && source in old(fs.files) && old(fs.Placeable(target))
            && SixRenamesFail(fs, old(fs.clock)) && CopyIsMade(fs, old(fs.clock) + 6)
            ==> CopyTakenAway(fs, old(fs.clock) + 8, At(fs.files, target), At(old(fs.files), source))
    ensures fs.Calm(old(fs.clock), fs.clock) && source in old(fs.files) && old(fs.Placeable(target)) ==> r.Done?
  {
    var exhausted;
    r, exhausted := RenameRepeatedly(fs, source, target);
    if exhausted {
      r := ReplacePathByCopyUnlink(fs, source, target);
    }
  }

  ghost predicate SixRenamesFail(fs: FileSystem, from: nat) {
    forall n: nat :: from <= n < from + 6 ==> fs.FailsRetryably(n, RenameStep)
  }
}
