/** How a claim record is written, and why the file transaction gives the write outcomes that the protocol assumes. */
module ClaimRecords {
  import opened Common
  import opened FileSystems
  import opened Operations
  import opened Staging
  import opened Cleanup
  import opened AtomicFiles
  import opened WorkClaims
  import P = ClaimProtocol

  function ClaimsDir(root: Path): Path {
    root + ["project", "verification", "work-claims"]
  }

  function RecordPath(root: Path, id: string): Path {
    ClaimsDir(root) + [id + ".json"]
  }

  function RecordWrite(root: Path, id: string, text: Bytes): Operation {
    var name := id + ".json";
    Write(RecordPath(root, id), ClaimsDir(root) + ["." + name + ".tmp"], text, ClaimsDir(root) + ["." + name + ".bak"])
  }

  /** The operation with the sidecar names it will really use. */
  function PortableWrite(root: Path, id: string, text: Bytes): Operation {
    PortableSidecarOperation(RecordWrite(root, id, text))
  }

  ghost function EntryOf(content: Option<Bytes>, parse: Bytes -> Option<Claim>): P.Entry {
    match content
    case None => P.Missing
    case Some(bytes) => match parse(bytes) { case None => P.Garbled case Some(claim) => P.Present(claim) }
  }

  ghost predicate Occupied(files: Files, dirs: set<Path>, p: Path) {
    p in files || p in dirs
  }

  /** The record slot of the protocol, read off the file system. */
  ghost function RecordView(files: Files, dirs: set<Path>, root: Path, id: string, parse: Bytes -> Option<Claim>): P.RecordSlot {
    var op := PortableWrite(root, id, []);
    P.RecordSlot(EntryOf(At(files, op.target), parse), Occupied(files, dirs, op.tmp) || Occupied(files, dirs, op.backup))
  }

  lemma {:induction false} StripDotsKeepsEnd(name: string)
    requires name != "" && name[|name| - 1] != '.'
    ensures StripDots(name) != "" && StripDots(name)[|StripDots(name)| - 1] == name[|name| - 1]
  {
    if name[0] == '.' {
      StripDotsKeepsEnd(name[1..]);
    }
  }

  lemma SidecarShape(dir: Path, name: string)
    requires name != "" && name[0] == '.' && name[|name| - 1] != '.'
    ensures PortableSidecarPath(dir + [name]) == dir + [StripDots(name)]
    ensures StripDots(name) != "" && StripDots(name)[|StripDots(name)| - 1] == name[|name| - 1]
  {
    StripDotsKeepsEnd(name);
    assert (dir + [name])[..|dir|] == dir;
  }

  lemma NamesDiffer(dir: Path, a: string, b: string)
    requires a != "" && b != "" && a[|a| - 1] != b[|b| - 1]
    ensures dir + [a] != dir + [b]
  {
    assert (dir + [a])[|dir|] == a && (dir + [b])[|dir|] == b;
  }

  lemma InDirectory(root: Path, name: string)
    ensures Within(root, ClaimsDir(root) + [name])
  {
    assert ClaimsDir(root) + [name] == root + (["project", "verification", "work-claims"] + [name]);
  }

  lemma PortableShape(root: Path, id: string, text: Bytes)
    ensures PortableWrite(root, id, text)
            == Write(ClaimsDir(root) + [id + ".json"], ClaimsDir(root) + [StripDots("." + (id + ".json") + ".tmp")], text,
                     ClaimsDir(root) + [StripDots("." + (id + ".json") + ".bak")])
  {
    SidecarShape(ClaimsDir(root), "." + (id + ".json") + ".tmp");
    SidecarShape(ClaimsDir(root), "." + (id + ".json") + ".bak");
  }

  lemma SidecarNamesDiffer(root: Path, name: string, tmp: string, backup: string, text: Bytes)
    requires name != "" && name[|name| - 1] == 'n'
    requires tmp != "" && tmp[|tmp| - 1] == 'p' && backup != "" && backup[|backup| - 1] == 'k'
    ensures var dir := ClaimsDir(root);
            var op := Write(dir + [name], dir + [tmp], text, dir + [backup]);
            Separate([op]) && UnderRoot(op, Some(root))
  {
    var dir := ClaimsDir(root);
    NamesDiffer(dir, name, tmp);
    NamesDiffer(dir, name, backup);
    NamesDiffer(dir, tmp, backup);
    InDirectory(root, name);
    InDirectory(root, tmp);
    InDirectory(root, backup);
    OneOperation(Write(dir + [name], dir + [tmp], text, dir + [backup]), root);
  }

  /** The record and its two sidecars are three different paths in one directory, whatever the id. */
  lemma RecordPathsDiffer(root: Path, id: string, text: Bytes)
    ensures var op := PortableWrite(root, id, text);
            && Separate([op]) && UnderRoot(op, Some(root))
            && |op.target| == |op.tmp| == |op.backup|
            && op.target == RecordPath(root, id)
  {
    var name := id + ".json";
    var tmp, backup := "." + name + ".tmp", "." + name + ".bak";
    StripDotsKeepsEnd(tmp);
    StripDotsKeepsEnd(backup);
    PortableShape(root, id, text);
    SidecarNamesDiffer(root, name, StripDots(tmp), StripDots(backup), text);
  }

  /** Where the record and its sidecars are. */
  lemma RecordIsWhereItBelongs(root: Path, id: string, text: Bytes)
    ensures var op, dir := PortableWrite(root, id, text), root + ["project", "verification", "work-claims"];
            && op.Write? && op.text == text && op.target == dir + [id + ".json"]
            && MadeVisible(op.tmp, dir + ["." + (id + ".json") + ".tmp"])
            && MadeVisible(op.backup, dir + ["." + (id + ".json") + ".bak"])
  {
    var dir := ClaimsDir(root);
    PortableSidecarIsVisible(dir + ["." + (id + ".json") + ".tmp"]);
    PortableSidecarIsVisible(dir + ["." + (id + ".json") + ".bak"]);
  }

  /** An empty or torn record text does not parse, or says the same as the whole one: only its last newline is missing. */
  ghost predicate ResiduesAreHarmless(partials: iset<Bytes>, after: Claim, parse: Bytes -> Option<Claim>) {
    forall b :: b in Residues(partials) ==> parse(b) == None || parse(b) == Some(after)
  }

  lemma SamePaths(root: Path, id: string, text: Bytes)
    ensures PortableWrite(root, id, text).Write? && PortableWrite(root, id, text).text == text
    ensures PortableWrite(root, id, text).target == PortableWrite(root, id, []).target == RecordPath(root, id)
    ensures PortableWrite(root, id, text).tmp == PortableWrite(root, id, []).tmp
    ensures PortableWrite(root, id, text).backup == PortableWrite(root, id, []).backup
    ensures PathsOf(PortableWrite(root, id, text)) == PathsOf(PortableWrite(root, id, []))
  {
  }

  /** The record slot of some files and directories may be left by the write. */
  ghost predicate MayBeLeft(files: Files, dirs: set<Path>, files0: Files, dirs0: set<Path>, root: Path, id: string, after: Claim,
                            parse: Bytes -> Option<Claim>) {
    P.WriteMayLeave(RecordView(files0, dirs0, root, id, parse), after, RecordView(files, dirs, root, id, parse))
  }

  /** A moment at which the original is safe. */
  lemma SafeMoment(snapshot: Files, dirs: set<Path>, files0: Files, dirs0: set<Path>, root: Path, id: string, text: Bytes, after: Claim,
                   parse: Bytes -> Option<Claim>, partials: iset<Bytes>)
    requires parse(text) == Some(after) && ResiduesAreHarmless(partials, after, parse)
    requires SafeOperation(snapshot, PortableWrite(root, id, text), files0, partials)
    requires !RecordView(files0, dirs0, root, id, parse).sidecar
    ensures MayBeLeft(snapshot, dirs, files0, dirs0, root, id, after, parse)
  {
    SamePaths(root, id, text);
    var op := PortableWrite(root, id, text);
    var content, content0 := At(snapshot, op.target), At(files0, op.target);
    assert EntryOf(content, parse) in {EntryOf(content0, parse), P.Missing, P.Present(after), P.Garbled};
    if content0.Some? && content != content0 {
      assert Occupied(snapshot, dirs, op.backup);
    }
  }

  /** A moment at which the new record is in place. */
  lemma WantedMoment(snapshot: Files, dirs: set<Path>, files0: Files, dirs0: set<Path>, root: Path, id: string, text: Bytes, after: Claim,
                     parse: Bytes -> Option<Claim>)
    requires parse(text) == Some(after) && At(snapshot, RecordPath(root, id)) == Some(text)
    requires !RecordView(files0, dirs0, root, id, parse).sidecar
    ensures MayBeLeft(snapshot, dirs, files0, dirs0, root, id, after, parse)
    ensures RecordView(snapshot, dirs, root, id, parse).target == P.Present(after)
  {
    SamePaths(root, id, []);
  }

  lemma RefusedWhen(files0: Files, dirs0: set<Path>, root: Path, id: string, text: Bytes, parse: Bytes -> Option<Claim>)
    ensures ValidOperations([PortableWrite(root, id, text)], files0, dirs0, Some(root))
            <==> !RecordView(files0, dirs0, root, id, parse).sidecar
  {
    var op := PortableWrite(root, id, text);
    RecordPathsDiffer(root, id, text);
    SamePaths(root, id, text);
    assert [op][0] == op;
  }

  /** Where the transaction ends, seen as a record slot. */
  lemma EndIsAllowed(files: Files, dirs: set<Path>, files0: Files, dirs0: set<Path>, root: Path, id: string, text: Bytes, after: Claim,
                     parse: Bytes -> Option<Claim>, r: TransactionResult, failed: nat, clean: bool, partials: iset<Bytes>)
    requires parse(text) == Some(after) && ResiduesAreHarmless(partials, after, parse)
    requires r.Refused? ==> files == files0 && dirs == dirs0
    requires !r.Refused? ==> !RecordView(files0, dirs0, root, id, parse).sidecar
    requires r.Returned? ==> CommittedState(files, dirs, [PortableWrite(root, id, text)], r.warnings, files0, dirs0)
    requires r.Failed? ==> RecoveredState(files, dirs, [PortableWrite(root, id, text)], failed, clean, partials, r, files0, dirs0)
    ensures MayBeLeft(files, dirs, files0, dirs0, root, id, after, parse)
    ensures r.Returned? ==> RecordView(files, dirs, root, id, parse).target == P.Present(after)
    ensures SameOutside(files, files0, PathsOf(PortableWrite(root, id, text)))
  {
    var op := PortableWrite(root, id, text);
    SamePaths(root, id, text);
    TouchedByOne(op);
    assert [op][0] == op;
    if r.Returned? {
      assert Finished(View(files, op), [op][0], r.warnings, files0);
      WantedMoment(files, dirs, files0, dirs0, root, id, text, after, parse);
    } else if r.Failed? {
      assert SafeOperation(files, [op][0], files0, partials);
      SafeMoment(files, dirs, files0, dirs0, root, id, text, after, parse, partials);
    }
  }

  lemma EveryMoment(from: nat, trace: seq<Files>, commit: nat, files0: Files, dirs0: set<Path>, root: Path, id: string, text: Bytes,
                    after: Claim, parse: Bytes -> Option<Claim>, partials: iset<Bytes>)
    requires parse(text) == Some(after) && ResiduesAreHarmless(partials, after, parse)
    requires from <= commit <= |trace| && SafeSince(from, trace[..commit], [PortableWrite(root, id, text)], files0, partials)
    requires commit < |trace| ==> WantedSince(commit, trace, [PortableWrite(root, id, text)])
    requires RecordView(files0, dirs0, root, id, parse).sidecar ==> from == |trace|
    ensures forall n, dirs :: from <= n < |trace| ==> MayBeLeft(trace[n], dirs, files0, dirs0, root, id, after, parse)
  {
    var op := PortableWrite(root, id, text);
    SamePaths(root, id, text);
    assert [op][0] == op;
    forall n, dirs | from <= n < |trace| ensures MayBeLeft(trace[n], dirs, files0, dirs0, root, id, after, parse) {
      if n < commit {
        assert Safe(trace[..commit][n], [op], files0, partials);
        assert SafeOperation(trace[n], [op][0], files0, partials);
        SafeMoment(trace[n], dirs, files0, dirs0, root, id, text, after, parse, partials);
      } else {
        assert At(trace[n], [op][0].target) == Wanted(op);
        WantedMoment(trace[n], dirs, files0, dirs0, root, id, text, after, parse);
      }
    }
  }

  /** Writes a record; its end, and a crash at any moment of it, are what the protocol assumes. */
  method WriteClaim(fs: FileSystem, root: Path, id: string, after: Claim, render: Claim -> Bytes, ghost parse: Bytes -> Option<Claim>)
    returns (r: TransactionResult)
    requires fs.Valid()
    requires parse(render(after)) == Some(after) && ResiduesAreHarmless(fs.Partials(), after, parse)
    modifies fs
    ensures fs.Valid() && old(fs.trace) <= fs.trace
    ensures MayBeLeft(fs.files, fs.dirs, old(fs.files), old(fs.dirs), root, id, after, parse)
    ensures forall n, dirs :: old(|fs.trace|) <= n < |fs.trace| ==>
              MayBeLeft(fs.trace[n], dirs, old(fs.files), old(fs.dirs), root, id, after, parse)
    ensures r.Returned? ==> RecordView(fs.files, fs.dirs, root, id, parse).target == P.Present(after)
    ensures r.Refused? <==> old(RecordView(fs.files, fs.dirs, root, id, parse)).sidecar
    ensures r.Refused? || (NoRecoveryErrors(r) && fs.Clean()) ==> fs.files == old(fs.files) && fs.dirs == old(fs.dirs)
    ensures SameOutside(fs.files, old(fs.files), PathsOf(PortableWrite(root, id, [])))
  {
    var text := render(after);
    ghost var files0, dirs0, from := fs.files, fs.dirs, |fs.trace|;
    RefusedWhen(files0, dirs0, root, id, text, parse);
    assert PortableSidecarOperations([RecordWrite(root, id, text)]) == [PortableWrite(root, id, text)];
    ghost var failed, commit, recovery;
    r, failed, commit, recovery := ApplyFileTransaction(fs, [RecordWrite(root, id, text)], Some(root));
    EndIsAllowed(fs.files, fs.dirs, files0, dirs0, root, id, text, after, parse, r, failed, fs.Clean(), fs.Partials());
    EveryMoment(from, fs.trace, commit, files0, dirs0, root, id, text, after, parse, fs.Partials());
    SamePaths(root, id, text);
  }
}
