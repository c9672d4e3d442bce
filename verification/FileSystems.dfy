/** The part of the operating system that file transactions rely on: a tree of directories and regular
    files whose primitives can each be made to fail by a fault schedule. Paths are identities (no links). */
module FileSystems {
  import opened Common

  newtype Byte = x: int | 0 <= x < 256
  type Bytes = seq<Byte>

  /** Components below the file-system root; `[]` is the root directory. */
  type Path = seq<string>

  type Files = map<Path, Bytes>

  /** What the environment does to one primitive. `Torn` makes a byte write leave `partial` behind;
      on any other primitive it is an ordinary failure. */
  datatype Fault = NoFault | Fail(retryable: bool) | Torn(retryable: bool, partial: Bytes)

  /** The kinds of primitives, which the environment can tell apart. */
  datatype Primitive = ReadStep | WriteStep | RenameStep | UnlinkStep | MkdirStep | RmdirStep

  /** A primitive returns or raises an `OSError`; `retryable` tells a permission-like error from the rest. */
  datatype Outcome = Done | Raised(retryable: bool)

  datatype ReadOutcome = Content(bytes: Bytes) | ReadRaised(retryable: bool)

  datatype RmdirOutcome = Removed | NotFound | RmdirRaised

  function Parent(p: Path): Path
    requires p != []
  {
    p[..|p| - 1]
  }

  function At(files: Files, p: Path): Option<Bytes> {
    if p in files then Some(files[p]) else None
  }

  ghost predicate SameOutside(a: Files, b: Files, touched: set<Path>) {
    forall p :: p !in touched ==> At(a, p) == At(b, p)
  }

  /** `after` extends `before`, and every snapshot it adds agrees with `base` outside `touched`. */
  ghost predicate OnlyTouched(before: seq<Files>, after: seq<Files>, base: Files, touched: set<Path>) {
    && before <= after
    && forall i :: |before| <= i < |after| ==> SameOutside(after[i], base, touched)
  }

  /** A content that is known, or that a torn write left. */
  ghost predicate Plausible(content: Option<Bytes>, known: set<Option<Bytes>>, partials: iset<Bytes>) {
    content in known || (content.Some? && content.value in partials)
  }

  /** What a byte write leaves when it is torn, or when a crash comes between truncating and writing. */
  ghost function Residues(partials: iset<Bytes>): iset<Bytes> {
    partials + iset{[]}
  }

  ghost predicate WellFormed(files: Files, dirs: set<Path>) {
    && [] in dirs
    && (forall p :: p in files ==> p != [] && p !in dirs && Parent(p) in dirs)
    && (forall d :: d in dirs && d != [] ==> Parent(d) in dirs)
  }

  class FileSystem {
    var files: Files
    var dirs: set<Path>
    var clock: nat
    /** What happens at each step to the primitive that is called then. */
    const schedule: (nat, Primitive) -> Fault
    /** The files after every effect so far, newest last: the states a crash could expose. */
    ghost var trace: seq<Files>
    ghost var renameAttempts: nat
    ghost var unlinkAttempts: nat
    ghost var byteWrites: nat

    ghost predicate Valid()
      reads this
    {
      WellFormed(files, dirs)
    }

    /** What torn writes can leave behind. */
    ghost function Partials(): iset<Bytes> {
      iset n: nat | schedule(n, WriteStep).Torn? :: schedule(n, WriteStep).partial
    }

    /** No byte write is ever torn: a failed primitive changes nothing. */
    ghost predicate Clean() {
      forall n: nat :: !schedule(n, WriteStep).Torn?
    }

    ghost predicate Works(n: nat, kind: Primitive) {
      schedule(n, kind).NoFault?
    }

    /** A permission-like fault, which is retried. */
    ghost predicate FailsRetryably(n: nat, kind: Primitive) {
      !schedule(n, kind).NoFault? && schedule(n, kind).retryable
    }

    /** No primitive is made to fail from step `from` until step `to`. */
    ghost predicate Quiet(from: nat, to: nat) {
      forall n: nat, kind :: from <= n < to ==> Works(n, kind)
    }

    /** At most one step makes primitives fail from step `from` until step `to`. */
    ghost predicate OneFault(from: nat, to: nat) {
      forall n: nat, m: nat, k, l :: from <= n < m < to ==> Works(n, k) || Works(m, l)
    }

    /** Unlinking works at one of six steps. */
    ghost predicate UnlinkWorksFrom(n: nat) {
      exists m: nat :: n <= m < n + 6 && Works(m, UnlinkStep)
    }

    /** Only faults that retries and the copy fallback absorb: renames may fail retryably at any time, and removals too, but
        never at six steps in a row. */
    ghost predicate Calm(from: nat, to: nat) {
      && (forall n: nat, kind :: from <= n < to ==>
            Works(n, kind) || (kind in {RenameStep, UnlinkStep} && FailsRetryably(n, kind)))
      && (forall n: nat :: from <= n && n + 6 <= to ==> UnlinkWorksFrom(n))
    }

    lemma QuietIsCalm(from: nat, to: nat)
      ensures Quiet(from, to) ==> Calm(from, to)
    {
      if Quiet(from, to) {
        forall n: nat | from <= n && n + 6 <= to ensures UnlinkWorksFrom(n) {
          assert Works(n, UnlinkStep);
        }
      }
    }

    /** Once a step has made primitives fail, the rest is quiet when there is only one such step. */
    lemma OneFaultThenCalm(from: nat, middle: nat, to: nat)
      requires from <= middle <= to && OneFault(from, to) && !Calm(from, middle)
      ensures Calm(middle, to)
    {
      QuietIsCalm(from, middle);
      var n: nat, k :| from <= n < middle && !Works(n, k);
      forall m: nat, l | middle <= m < to ensures Works(m, l) {
        assert Works(n, k) || Works(m, l);
      }
      QuietIsCalm(middle, to);
    }

    lemma SixFailuresAreNotCalm(from: nat)
      requires forall n: nat :: from <= n < from + 6 ==> FailsRetryably(n, UnlinkStep)
      ensures !UnlinkWorksFrom(from) && !Calm(from, from + 6)
    {
      forall m: nat | from <= m < from + 6 ensures !Works(m, UnlinkStep) {
        assert FailsRetryably(m, UnlinkStep);
      }
    }

    /** What six attempts at a primitive from step `from` on come to: every attempt but the last failed retryably, and the last is
        the sixth or did not. */
    ghost predicate Retried(kind: Primitive, from: nat, attempts: nat) {
      && 1 <= attempts <= 6
      && (forall n: nat :: from <= n < from + attempts - 1 ==> FailsRetryably(n, kind))
      && (attempts < 6 ==> !FailsRetryably(from + attempts - 1, kind))
    }

    constructor (files: Files, dirs: set<Path>, schedule: (nat, Primitive) -> Fault)
      requires WellFormed(files, dirs)
      ensures Valid()
      ensures this.files == files && this.dirs == dirs && this.schedule == schedule && clock == 0 && trace == []
    {
      this.files, this.dirs, this.schedule, this.clock := files, dirs, schedule, 0;
      this.trace, this.renameAttempts, this.unlinkAttempts, this.byteWrites := [], 0, 0, 0;
    }

    predicate Exists(p: Path)
      reads this
    {
      p in files || p in dirs
    }

    /** A regular file can be put at `p`. */
    predicate Placeable(p: Path)
      reads this
    {
      p != [] && p !in dirs && Parent(p) in dirs
    }

    method ReadBytes(p: Path) returns (r: ReadOutcome)
      modifies this`clock
      ensures clock == old(clock) + 1
      ensures r.Content? ==> At(files, p) == Some(r.bytes)
      ensures r.Content? <==> p in files && Works(old(clock), ReadStep)
    {
      var fault := schedule(clock, ReadStep);
      clock := clock + 1;
      if fault.NoFault? && p in files {
        r := Content(files[p]);
      } else {
        r := ReadRaised(!fault.NoFault? && fault.retryable);
      }
    }

    /** Truncates, then writes: a crash between the two exposes an empty file. */
    method WriteBytes(p: Path, data: Bytes) returns (r: Outcome)
      requires Valid()
      modifies this`files, this`clock, this`trace, this`byteWrites
      ensures Valid()
      ensures clock == old(clock) + 1 && byteWrites == old(byteWrites) + 1
      ensures r.Done? <==> old(Placeable(p)) && Works(old(clock), WriteStep)
      ensures r.Done? ==> files == old(files)[p := data]
      ensures r.Raised? ==> files == old(files)
                            || (schedule(old(clock), WriteStep).Torn? && files == old(files)[p := schedule(old(clock), WriteStep).partial]
                                && schedule(old(clock), WriteStep).partial in Partials())
      ensures OnlyTouched(old(trace), trace, old(files), {p})
      ensures forall i :: old(|trace|) <= i < |trace| ==> Plausible(At(trace[i], p), {Some(data)}, Residues(Partials()))
    {
      var fault := schedule(clock, WriteStep);
      clock := clock + 1;
      byteWrites := byteWrites + 1;
      if !Placeable(p) {
        return Raised(!fault.NoFault? && fault.retryable);
      }
      match fault
      case NoFault =>
        trace := trace + [files[p := []], files[p := data]];
        files := files[p := data];
        r := Done;
      case Fail(retryable) =>
        r := Raised(retryable);
      case Torn(retryable, partial) =>
        assert schedule(old(clock), WriteStep).partial in Partials();
        trace := trace + [files[p := []], files[p := partial]];
        files := files[p := partial];
        r := Raised(retryable);
    }

    method Rename(source: Path, target: Path) returns (r: Outcome)
      requires Valid()
      modifies this`files, this`clock, this`trace, this`renameAttempts
      ensures Valid()
      ensures clock == old(clock) + 1 && renameAttempts == old(renameAttempts) + 1
      ensures r.Done? <==> source in old(files) && old(Placeable(target)) && Works(old(clock), RenameStep)
      ensures r.Done? ==> source in old(files) && files == (old(files) - {source})[target := old(files)[source]]
                          && trace == old(trace) + [files]
      ensures r.Raised? ==> files == old(files) && trace == old(trace)
      ensures r.Raised? ==> (r.retryable <==> FailsRetryably(old(clock), RenameStep))
    {
      var fault := schedule(clock, RenameStep);
      clock := clock + 1;
      renameAttempts := renameAttempts + 1;
      if source in files && Placeable(target) && fault.NoFault? {
        files := (files - {source})[target := files[source]];
        trace := trace + [files];
        r := Done;
      } else {
        r := Raised(!fault.NoFault? && fault.retryable);
      }
    }

    method Unlink(p: Path) returns (r: Outcome)
      requires Valid()
      modifies this`files, this`clock, this`trace, this`unlinkAttempts
      ensures Valid()
      ensures clock == old(clock) + 1 && unlinkAttempts == old(unlinkAttempts) + 1
      ensures r.Done? <==> p in old(files) && Works(old(clock), UnlinkStep)
      ensures r.Done? ==> files == old(files) - {p} && trace == old(trace) + [files]
      ensures r.Raised? ==> files == old(files) && trace == old(trace)
      ensures r.Raised? ==> (r.retryable <==> FailsRetryably(old(clock), UnlinkStep))
    {
      var fault := schedule(clock, UnlinkStep);
      clock := clock + 1;
      unlinkAttempts := unlinkAttempts + 1;
      if p in files && fault.NoFault? {
        files := files - {p};
        trace := trace + [files];
        r := Done;
      } else {
        r := Raised(!fault.NoFault? && fault.retryable);
      }
    }

    /** `mkdir(parents=True, exist_ok=True)`: creates missing ancestors first, one directory at a time. */
    method MakeDirs(p: Path) returns (r: Outcome)
      requires Valid()
      modifies this`dirs, this`clock
      ensures Valid()
      ensures clock >= old(clock)
      ensures old(dirs) <= dirs
      ensures forall d :: d in dirs && d !in old(dirs) ==> d <= p
      ensures r.Done? ==> p in dirs
      ensures Calm(old(clock), clock) && (forall q :: q <= p ==> q !in files) ==> r.Done?
      decreases |p|
    {
      if p in dirs {
        return Done;
      }
      if p in files || Parent(p) in files {
        return Raised(false);
      }
      if Parent(p) !in dirs {
        r := MakeDirs(Parent(p));
        if r.Raised? {
          return;
        }
      }
      var fault := schedule(clock, MkdirStep);
      assert fault.NoFault? <==> Works(clock, MkdirStep);
      clock := clock + 1;
      if fault.NoFault? {
        dirs := dirs + {p};
        r := Done;
      } else {
        r := Raised(fault.retryable);
      }
    }

    predicate EmptyDir(p: Path)
      reads this
      requires Valid()
    {
      && (forall f :: f in files ==> Parent(f) != p)
      && (forall d :: d in dirs ==> d == [] || Parent(d) != p)
    }

    method Rmdir(p: Path) returns (r: RmdirOutcome)
      requires Valid()
      modifies this`dirs, this`clock
      ensures Valid()
      ensures clock == old(clock) + 1
      ensures r.Removed? ==> p in old(dirs) && dirs == old(dirs) - {p}
      ensures !r.Removed? ==> dirs == old(dirs)
      ensures r.NotFound? ==> !old(Exists(p))
      ensures Works(old(clock), RmdirStep) && p != [] && p !in files && (p in old(dirs) ==> old(EmptyDir(p)))
              ==> !r.RmdirRaised?
    {
      var fault := schedule(clock, RmdirStep);
      clock := clock + 1;
      if !fault.NoFault? {
        r := RmdirRaised;
      } else if !Exists(p) {
        r := NotFound;
      } else if p == [] || p !in dirs || !EmptyDir(p) {
        r := RmdirRaised;
      } else {
        dirs := dirs - {p};
        r := Removed;
      }
    }
  }
}
