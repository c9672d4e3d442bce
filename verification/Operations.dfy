/** The operations of a file transaction, their sidecar paths, and the checks made before anything is touched. */
module Operations {
  import opened Common
  import opened FileSystems

  /** Text is modelled by its UTF-8 bytes. */
  datatype Operation =
    | Write(target: Path, tmp: Path, text: Bytes, backup: Path)
    | Delete(target: Path, backup: Path)

  /** Contents of the three paths that one operation owns. */
  datatype Slot = Slot(target: Option<Bytes>, tmp: Option<Bytes>, backup: Option<Bytes>)

  ghost function View(files: Files, op: Operation): Slot {
    Slot(At(files, op.target), if op.Write? then At(files, op.tmp) else None, At(files, op.backup))
  }

  ghost function PathsOf(op: Operation): set<Path> {
    if op.Write? then {op.target, op.tmp, op.backup} else {op.target, op.backup}
  }

  ghost function TouchedPaths(ops: seq<Operation>): set<Path> {
    set i: nat, p | i < |ops| && p in PathsOf(ops[i]) :: p
  }

  lemma TouchedByOne(op: Operation)
    ensures TouchedPaths([op]) == PathsOf(op)
  {
    assert [op][0] == op;
  }

  /** What the operation asks for: a write's text, or absence. */
  ghost function Wanted(op: Operation): Option<Bytes> {
    if op.Write? then Some(op.text) else None
  }

  // Sidecar names

  function StripDots(name: string): (r: string)
    ensures |r| <= |name| && r == name[|name| - |r|..]
    ensures r != "" ==> r[0] != '.'
    ensures forall i :: 0 <= i < |name| - |r| ==> name[i] == '.'
  {
    if name != "" && name[0] == '.' then StripDots(name[1..]) else name
  }

  const SIDECAR_FALLBACK := "mylittleharness-sidecar"

  function PortableSidecarPath(p: Path): (r: Path) {
    if p == [] || p[|p| - 1] == "" || p[|p| - 1][0] != '.' then p
    else
      var name := StripDots(p[|p| - 1]);
      p[..|p| - 1] + [if name == "" then SIDECAR_FALLBACK else name]
  }

  function PortableSidecarOperation(op: Operation): Operation {
    match op
    case Write(target, tmp, text, backup) => Write(target, PortableSidecarPath(tmp), text, PortableSidecarPath(backup))
    case Delete(target, backup) => Delete(target, PortableSidecarPath(backup))
  }

  function PortableSidecarOperations(ops: seq<Operation>): (r: seq<Operation>)
    ensures |r| == |ops|
    ensures forall i :: 0 <= i < |ops| ==> r[i] == PortableSidecarOperation(ops[i])
  {
    if ops == [] then [] else [PortableSidecarOperation(ops[0])] + PortableSidecarOperations(ops[1..])
  }

  /** What becomes of a sidecar path: leading dots of its last name go, and a name of dots alone is replaced. */
  ghost predicate MadeVisible(r: Path, p: Path) {
    if p == [] || p[|p| - 1] == "" || p[|p| - 1][0] != '.' then r == p
    else
      var name := p[|p| - 1];
      && |r| == |p| && r[..|p| - 1] == p[..|p| - 1]
      && exists k: nat :: DotsBefore(name, k)
                          && r[|p| - 1] == if k == |name| then "mylittleharness-sidecar" else name[k..]
  }

  /** The first `k` characters are the leading dots. */
  ghost predicate DotsBefore(name: string, k: nat) {
    k <= |name| && (forall i :: 0 <= i < k ==> name[i] == '.') && (k < |name| ==> name[k] != '.')
  }

  /** A sidecar stays in its directory, loses its leading dots and nothing else, and so is never hidden; a second pass changes nothing. */
  lemma PortableSidecarIsVisible(p: Path)
    ensures MadeVisible(PortableSidecarPath(p), p)
    ensures p != [] && p[|p| - 1] != "" ==>
              var r := PortableSidecarPath(p);
              && r[|r| - 1] != "" && r[|r| - 1][0] != '.'
              && PortableSidecarPath(r) == r
  {
    if p != [] && p[|p| - 1] != "" && p[|p| - 1][0] == '.' {
      var name := p[|p| - 1];
      var rest := StripDots(name);
      assert DotsBefore(name, |name| - |rest|);
    }
  }

  /** The operations that a transaction really runs: the targets and the texts asked for, with visible sidecars. */
  lemma PlannedAsAsked(ops: seq<Operation>)
    ensures var planned := PortableSidecarOperations(ops);
            && |planned| == |ops|
            && forall i :: 0 <= i < |ops| ==>
                 && planned[i].Write? == ops[i].Write? && planned[i].target == ops[i].target
                 && MadeVisible(planned[i].backup, ops[i].backup)
                 && (ops[i].Write? ==> planned[i].text == ops[i].text && MadeVisible(planned[i].tmp, ops[i].tmp))
  {
    var planned := PortableSidecarOperations(ops);
    forall i | 0 <= i < |ops|
      ensures planned[i].Write? == ops[i].Write? && planned[i].target == ops[i].target
      ensures MadeVisible(planned[i].backup, ops[i].backup)
      ensures ops[i].Write? ==> planned[i].text == ops[i].text && MadeVisible(planned[i].tmp, ops[i].tmp)
    {
      PortableSidecarIsVisible(ops[i].backup);
      if ops[i].Write? {
        PortableSidecarIsVisible(ops[i].tmp);
      }
    }
  }

  // Validation

  ghost predicate Distinct<T>(s: seq<T>) {
    forall i, j :: 0 <= i < j < |s| ==> s[i] != s[j]
  }

  function Elements<T(==)>(s: seq<T>): set<T> {
    set x | x in s
  }

  /** Comparing the size of the set with the length of the list finds exactly the repetitions. */
  lemma {:induction false} DistinctIffSetAsLarge<T>(s: seq<T>)
    ensures |Elements(s)| <= |s|
    ensures Distinct(s) <==> |Elements(s)| == |s|
  {
    if s == [] {
      assert Elements(s) == {};
    } else {
      var last, front := s[|s| - 1], s[..|s| - 1];
      DistinctIffSetAsLarge(front);
      assert s == front + [last];
      assert Elements(s) == Elements(front) + {last};
      if last in front {
        assert Elements(s) == Elements(front);
        var i :| 0 <= i < |front| && front[i] == last;
        assert s[i] == s[|s| - 1];
      } else {
        assert Distinct(s) <==> Distinct(front) by {
          if Distinct(front) {
            forall i, j | 0 <= i < j < |s| ensures s[i] != s[j] {
              if j < |front| { assert front[i] != front[j]; } else { assert front[i] in front; }
            }
          }
          if Distinct(s) {
            forall i, j | 0 <= i < j < |front| ensures front[i] != front[j] {
              assert s[i] != s[j];
            }
          }
        }
      }
    }
  }

  /** No path of one operation is a path of another, and the paths of one operation differ. */
  ghost predicate Separate(ops: seq<Operation>) {
    && (forall i :: 0 <= i < |ops| ==> ops[i].target != ops[i].backup
                                       && (ops[i].Write? ==> ops[i].tmp != ops[i].target && ops[i].tmp != ops[i].backup))
    && (forall i, j :: 0 <= i < |ops| && 0 <= j < |ops| && i != j ==> PathsOf(ops[i]) !! PathsOf(ops[j]))
  }

  ghost predicate Within(root: Path, p: Path) {
    |root| <= |p| && p[..|root|] == root
  }

  ghost predicate UnderRoot(op: Operation, root: Option<Path>) {
    root.Some? ==> forall p :: p in PathsOf(op) ==> Within(root.value, p)
  }

  lemma OneOperation(op: Operation, root: Path)
    requires op.Write? && op.target != op.tmp && op.target != op.backup && op.tmp != op.backup
    requires Within(root, op.target) && Within(root, op.tmp) && Within(root, op.backup)
    ensures Separate([op]) && UnderRoot(op, Some(root))
  {
  }

  /** What validation must establish: separate operations, no sidecar in the way, everything under the root. */
  ghost predicate ValidOperations(ops: seq<Operation>, files: Files, dirs: set<Path>, root: Option<Path>) {
    && Separate(ops)
    && (forall i :: 0 <= i < |ops| ==>
          && ops[i].backup !in files && ops[i].backup !in dirs
          && (ops[i].Write? ==> ops[i].tmp !in files && ops[i].tmp !in dirs)
          && UnderRoot(ops[i], root))
  }

  datatype Refusal =
    | RepeatedTarget
    | RepeatedBackup
    | RepeatedTemporary
    | BackupOverlapsTarget(path: Path)
    | BackupExists(path: Path)
    | TemporaryOverlaps(path: Path)
    | TemporaryExists(path: Path)
    | OutsideRoot(path: Path)

  function Targets(ops: seq<Operation>): seq<Path> {
    seq(|ops|, i requires 0 <= i < |ops| => ops[i].target)
  }

  function Backups(ops: seq<Operation>): seq<Path> {
    seq(|ops|, i requires 0 <= i < |ops| => ops[i].backup)
  }

  function Temporaries(ops: seq<Operation>): seq<Path> {
    if ops == [] then []
    else (if ops[0].Write? then [ops[0].tmp] else []) + Temporaries(ops[1..])
  }

  ghost predicate DistinctTmps(ops: seq<Operation>) {
    forall i, j :: 0 <= i < j < |ops| && ops[i].Write? && ops[j].Write? ==> ops[i].tmp != ops[j].tmp
  }

  lemma {:induction false} TemporariesMembers(ops: seq<Operation>, p: Path)
    ensures p in Temporaries(ops) <==> exists i :: 0 <= i < |ops| && ops[i].Write? && ops[i].tmp == p
  {
    if ops != [] {
      TemporariesMembers(ops[1..], p);
      if i :| 0 <= i < |ops| && ops[i].Write? && ops[i].tmp == p {
        if i > 0 { assert ops[1..][i - 1].tmp == p; }
      }
    }
  }

  lemma DistinctCons<T>(x: T, s: seq<T>)
    ensures Distinct([x] + s) <==> x !in s && Distinct(s)
  {
    var t := [x] + s;
    if Distinct(t) {
      forall i, j | 0 <= i < j < |s| ensures s[i] != s[j] { assert t[i + 1] != t[j + 1]; }
      forall i | 0 <= i < |s| ensures s[i] != x { assert t[0] != t[i + 1]; }
    }
  }

  lemma DistinctTmpsCons(op: Operation, ops: seq<Operation>)
    ensures DistinctTmps([op] + ops)
            <==> DistinctTmps(ops) && (op.Write? ==> forall i :: 0 <= i < |ops| && ops[i].Write? ==> ops[i].tmp != op.tmp)
  {
    var all := [op] + ops;
    if DistinctTmps(all) {
      forall i, j | 0 <= i < j < |ops| && ops[i].Write? && ops[j].Write? ensures ops[i].tmp != ops[j].tmp {
        assert all[i + 1].tmp != all[j + 1].tmp;
      }
      forall i | 0 <= i < |ops| && ops[i].Write? && op.Write? ensures ops[i].tmp != op.tmp {
        assert all[0].tmp != all[i + 1].tmp;
      }
    }
  }

  lemma {:induction false} TemporariesDistinct(ops: seq<Operation>)
    ensures Distinct(Temporaries(ops)) <==> DistinctTmps(ops)
  {
    if ops != [] {
      TemporariesDistinct(ops[1..]);
      assert [ops[0]] + ops[1..] == ops;
      DistinctTmpsCons(ops[0], ops[1..]);
      if ops[0].Write? {
        assert Temporaries(ops) == [ops[0].tmp] + Temporaries(ops[1..]);
        DistinctCons(ops[0].tmp, Temporaries(ops[1..]));
        TemporariesMembers(ops[1..], ops[0].tmp);
      } else {
        assert Temporaries(ops) == Temporaries(ops[1..]);
      }
    }
  }

  lemma TemporariesAre(ops: seq<Operation>)
    ensures forall p :: p in Temporaries(ops) <==> exists i :: 0 <= i < |ops| && ops[i].Write? && ops[i].tmp == p
    ensures Distinct(Temporaries(ops)) <==> DistinctTmps(ops)
  {
    TemporariesDistinct(ops);
    forall p ensures p in Temporaries(ops) <==> exists i :: 0 <= i < |ops| && ops[i].Write? && ops[i].tmp == p {
      TemporariesMembers(ops, p);
    }
  }

  /** The list checks that the code makes, in the vocabulary of the code. */
  ghost predicate ListChecksPass(ops: seq<Operation>) {
    && Distinct(Targets(ops)) && Distinct(Backups(ops)) && Distinct(Temporaries(ops))
    && (forall i :: 0 <= i < |ops| ==>
          && ops[i].backup !in Targets(ops)
          && (ops[i].Write? ==> ops[i].tmp !in Targets(ops) && ops[i].tmp !in Backups(ops)))
  }

  lemma ListChecksSeparate(ops: seq<Operation>)
    ensures ListChecksPass(ops) <==> Separate(ops)
  {
    TemporariesAre(ops);
    var targets, backups := Targets(ops), Backups(ops);
    if ListChecksPass(ops) {
      forall i, j | 0 <= i < |ops| && 0 <= j < |ops| && i != j ensures PathsOf(ops[i]) !! PathsOf(ops[j]) {
        assert targets[i] != targets[j] && backups[i] != backups[j];
        assert targets[i] in targets && targets[j] in targets && backups[i] in backups && backups[j] in backups;
      }
      forall i | 0 <= i < |ops|
        ensures ops[i].target != ops[i].backup
        ensures ops[i].Write? ==> ops[i].tmp != ops[i].target && ops[i].tmp != ops[i].backup
      {
        assert targets[i] in targets && backups[i] in backups;
      }
    }
    if Separate(ops) {
      forall i, j | 0 <= i < |ops| && 0 <= j < |ops| && i != j
        ensures ops[i].target != ops[j].target && ops[i].backup != ops[j].backup && ops[i].backup != ops[j].target
        ensures ops[i].Write? ==> ops[i].tmp != ops[j].target && ops[i].tmp != ops[j].backup
        ensures ops[i].Write? && ops[j].Write? ==> ops[i].tmp != ops[j].tmp
      {
        assert PathsOf(ops[i]) !! PathsOf(ops[j]);
        assert ops[j].target in PathsOf(ops[j]) && ops[j].backup in PathsOf(ops[j]);
      }
    }
  }

  method FirstOutside(paths: seq<Path>, root: Path) returns (r: Option<Path>)
    ensures r.None? <==> forall p :: p in paths ==> Within(root, p)
    ensures r.Some? ==> r.value in paths && !Within(root, r.value)
  {
    for i := 0 to |paths|
      invariant forall j :: 0 <= j < i ==> Within(root, paths[j])
    {
      if !(root <= paths[i]) {
        assert paths[i] in paths;
        return Some(paths[i]);
      }
    }
    r := None;
  }

  lemma RootCheckCovers(ops: seq<Operation>, root: Path)
    ensures (forall p :: p in Targets(ops) + Backups(ops) + Temporaries(ops) ==> Within(root, p))
            <==> forall i :: 0 <= i < |ops| ==> UnderRoot(ops[i], Some(root))
  {
    TemporariesAre(ops);
    var targets, backups, tmps := Targets(ops), Backups(ops), Temporaries(ops);
    var all := targets + backups + tmps;
    if forall p :: p in all ==> Within(root, p) {
      forall i | 0 <= i < |ops| ensures UnderRoot(ops[i], Some(root)) {
        assert targets[i] in targets && backups[i] in backups;
      }
    }
    if forall i :: 0 <= i < |ops| ==> UnderRoot(ops[i], Some(root)) {
      forall p | p in all ensures Within(root, p) {
        if p in targets {
          var i :| 0 <= i < |targets| && targets[i] == p;
          assert UnderRoot(ops[i], Some(root));
        } else if p in backups {
          var i :| 0 <= i < |backups| && backups[i] == p;
          assert UnderRoot(ops[i], Some(root));
        } else {
          var i :| 0 <= i < |ops| && ops[i].Write? && ops[i].tmp == p;
          assert UnderRoot(ops[i], Some(root));
        }
      }
    }
  }

  ghost predicate SidecarsClear(fs: FileSystem, op: Operation, targets: seq<Path>, backups: seq<Path>)
    reads fs
  {
    && op.backup !in targets && !fs.Exists(op.backup)
    && (op.Write? ==> op.tmp !in targets && op.tmp !in backups && !fs.Exists(op.tmp))
  }

  method CheckSidecars(fs: FileSystem, ops: seq<Operation>, targets: seq<Path>, backups: seq<Path>) returns (r: Option<Refusal>)
    ensures r.None? <==> forall i :: 0 <= i < |ops| ==> SidecarsClear(fs, ops[i], targets, backups)
  {
    var protected := Elements(targets) + Elements(backups);
    for i := 0 to |ops|
      invariant forall j :: 0 <= j < i ==> SidecarsClear(fs, ops[j], targets, backups)
    {
      if ops[i].backup in targets { return Some(BackupOverlapsTarget(ops[i].backup)); }
      if fs.Exists(ops[i].backup) { return Some(BackupExists(ops[i].backup)); }
      if ops[i].Write? {
        if ops[i].tmp in protected { return Some(TemporaryOverlaps(ops[i].tmp)); }
        if fs.Exists(ops[i].tmp) { return Some(TemporaryExists(ops[i].tmp)); }
      }
    }
    r := None;
  }

  /** Refuses exactly the lists that break `ValidOperations`, and touches nothing. */
  method ValidateTransactionPaths(fs: FileSystem, ops: seq<Operation>, root: Option<Path>) returns (r: Option<Refusal>)
    ensures r.None? <==> ValidOperations(ops, fs.files, fs.dirs, root)
  {
    var targets, backups, tmps := Targets(ops), Backups(ops), Temporaries(ops);
    DistinctIffSetAsLarge(targets);
    DistinctIffSetAsLarge(backups);
    DistinctIffSetAsLarge(tmps);
    ValidityByLists(fs, ops, root);
    if |Elements(targets)| != |targets| { return Some(RepeatedTarget); }
    if |Elements(backups)| != |backups| { return Some(RepeatedBackup); }
    if |Elements(tmps)| != |tmps| { return Some(RepeatedTemporary); }
    r := CheckSidecars(fs, ops, targets, backups);
    if r.None? && root.Some? {
      RootCheckCovers(ops, root.value);
      var outside := FirstOutside(targets + backups + tmps, root.value);
      if outside.Some? { return Some(OutsideRoot(outside.value)); }
    }
  }

  lemma ValidityByLists(fs: FileSystem, ops: seq<Operation>, root: Option<Path>)
    ensures ValidOperations(ops, fs.files, fs.dirs, root)
            <==> && Distinct(Targets(ops)) && Distinct(Backups(ops)) && Distinct(Temporaries(ops))
                 && (forall i :: 0 <= i < |ops| ==> SidecarsClear(fs, ops[i], Targets(ops), Backups(ops)))
                 && (forall i :: 0 <= i < |ops| ==> UnderRoot(ops[i], root))
  {
    ListChecksSeparate(ops);
  }

  // Frames: what a change confined to one operation's paths leaves alone

  lemma ViewKept(ops: seq<Operation>, i: nat, j: nat, a: Files, b: Files)
    requires Separate(ops) && i < |ops| && j < |ops| && i != j
    requires SameOutside(a, b, PathsOf(ops[j]))
    ensures View(a, ops[i]) == View(b, ops[i])
  {
    assert PathsOf(ops[i]) !! PathsOf(ops[j]);
    assert ops[i].target in PathsOf(ops[i]) && ops[i].backup in PathsOf(ops[i]);
  }

  lemma FrameWidens(ops: seq<Operation>, j: nat, a: Files, b: Files, c: Files)
    requires j < |ops|
    requires SameOutside(a, b, TouchedPaths(ops)) && SameOutside(c, a, PathsOf(ops[j]))
    ensures SameOutside(c, b, TouchedPaths(ops))
  {
    forall p | p !in TouchedPaths(ops) ensures At(c, p) == At(b, p) {
      assert p !in PathsOf(ops[j]);
      assert At(c, p) == At(a, p);
    }
  }

  /** The original bytes of the operation's target are at the target or in its backup, and the target holds the original, what
      was wanted, nothing, or what an interrupted write leaves: an empty file or a torn one. */
  ghost predicate SafeOperation(snapshot: Files, op: Operation, original: Files, partials: iset<Bytes>) {
    && (op.target in original ==>
          At(snapshot, op.target) == At(original, op.target) || At(snapshot, op.backup) == At(original, op.target))
    && Plausible(At(snapshot, op.target), {At(original, op.target), None, Wanted(op)}, Residues(partials))
  }

  ghost predicate Safe(snapshot: Files, ops: seq<Operation>, original: Files, partials: iset<Bytes>) {
    forall i :: 0 <= i < |ops| ==> SafeOperation(snapshot, ops[i], original, partials)
  }

  ghost predicate SafeSince(from: nat, trace: seq<Files>, ops: seq<Operation>, original: Files, partials: iset<Bytes>) {
    forall n :: from <= n < |trace| ==> Safe(trace[n], ops, original, partials)
  }

  ghost predicate SafeOperationSince(from: nat, trace: seq<Files>, op: Operation, original: Files, partials: iset<Bytes>) {
    forall n :: from <= n < |trace| ==> SafeOperation(trace[n], op, original, partials)
  }

  /** Steps confined to one operation keep every original as long as they keep that operation's. */
  lemma SafetyExtends(from: nat, before: seq<Files>, after: seq<Files>, ops: seq<Operation>, j: nat, base: Files, original: Files, partials: iset<Bytes>)
    requires Separate(ops) && j < |ops| && from <= |before|
    requires OnlyTouched(before, after, base, PathsOf(ops[j]))
    requires SafeSince(from, before, ops, original, partials) && Safe(base, ops, original, partials)
    requires SafeOperationSince(|before|, after, ops[j], original, partials)
    ensures SafeSince(from, after, ops, original, partials)
  {
    forall n, i | from <= n < |after| && 0 <= i < |ops| ensures SafeOperation(after[n], ops[i], original, partials) {
      if n < |before| {
        assert after[n] == before[n] && Safe(before[n], ops, original, partials);
      } else if i != j {
        ViewKept(ops, i, j, after[n], base);
        assert View(after[n], ops[i]) == View(base, ops[i]);
        assert SafeOperation(base, ops[i], original, partials);
      }
    }
  }
}
