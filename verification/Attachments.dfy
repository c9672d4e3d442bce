/** Attachment import: copy a binary beside its metadata card, and take both away again on any error. */
module Attachments {
  import opened Common
  import opened FileSystems
  import opened Operations
  import opened Staging
  import opened Cleanup
  import opened AtomicFiles
  import opened AttachmentRequests

  // Names

  /** The index of the last dot, or -1. */
  function LastDot(name: string): (r: int)
    ensures -1 <= r < |name|
    ensures r >= 0 ==> name[r] == '.'
    ensures forall i :: r < i < |name| ==> name[i] != '.'
  {
    if name == "" then -1
    else if name[|name| - 1] == '.' then |name| - 1
    else LastDot(name[..|name| - 1])
  }

  /** From the last dot on, unless the name starts or ends there. */
  function Suffix(name: string): string {
    var i := LastDot(name);
    if 0 < i < |name| - 1 then name[i..] else ""
  }

  /** The media type of a supported extension, or nothing. */
  function Mime(ext: string): string {
    if ext == ".pdf" then "application/pdf"
    else if ext == ".docx" then "application/vnd.openxmlformats-officedocument.wordprocessingml.document"
    else if ext == ".xlsx" then "application/vnd.openxmlformats-officedocument.spreadsheetml.sheet"
    else if ext == ".png" then "image/png"
    else if ext == ".jpg" then "image/jpeg"
    else if ext == ".jpeg" then "image/jpeg"
    else if ext == ".zip" then "application/zip"
    else ""
  }

  predicate IsExtension(ext: string) {
    && |ext| > 1 && ext[0] == '.'
    && (forall i :: 0 < i < |ext| ==> ext[i] != '.')
    && (forall i :: 0 <= i < |ext| ==> !('A' <= ext[i] <= 'Z'))
  }

  lemma SuffixOf(stem: string, ext: string)
    requires stem != "" && IsExtension(ext)
    ensures Suffix(stem + ext) == ext
  {
    var name := stem + ext;
    assert name[|stem|] == '.';
    forall i | |stem| < i < |name| ensures name[i] != '.' {
      assert name[i] == ext[i - |stem|];
    }
    assert LastDot(name) == |stem|;
  }

  /** A dot and at least one character more, none of them a dot. */
  ghost predicate IsEnding(ext: string) {
    |ext| > 1 && ext[0] == '.' && forall i :: 0 < i < |ext| ==> ext[i] != '.'
  }

  ghost predicate EndsWithExtension(name: string, ext: string) {
    IsEnding(ext) && exists stem :: stem != "" && name == stem + ext
  }

  lemma SuffixIs(name: string)
    ensures Suffix(name) != "" ==> EndsWithExtension(name, Suffix(name))
    ensures forall ext :: EndsWithExtension(name, ext) ==> ext == Suffix(name)
  {
    var i := LastDot(name);
    if 0 < i < |name| - 1 {
      assert name == name[..i] + name[i..];
    }
    forall stem, ext | stem != "" && IsEnding(ext) && name == stem + ext ensures i == |stem| {
      assert name[|stem|] == '.';
      forall k | |stem| < k < |name| ensures name[k] != '.' {
        assert name[k] == ext[k - |stem|];
      }
    }
  }

  ghost predicate IsLower(low: string, s: string) {
    |low| == |s| && forall i :: 0 <= i < |s| ==> IsLowerOf(low[i], s[i])
  }

  lemma {:induction false} LowerIs(s: string)
    ensures IsLower(Lower(s), s)
  {
    if s != "" {
      LowerIs(s[1..]);
    }
  }

  /** The media types that can be imported. */
  ghost predicate MediaType(ext: string, mime: string) {
    || (ext == ".pdf" && mime == "application/pdf")
    || (ext == ".docx" && mime == "application/vnd.openxmlformats-officedocument.wordprocessingml.document")
    || (ext == ".xlsx" && mime == "application/vnd.openxmlformats-officedocument.spreadsheetml.sheet")
    || (ext == ".png" && mime == "image/png")
    || ((ext == ".jpg" || ext == ".jpeg") && mime == "image/jpeg")
    || (ext == ".zip" && mime == "application/zip")
  }

  lemma MimeIs(ext: string)
    ensures if Mime(ext) != "" then MediaType(ext, Mime(ext)) else forall mime :: !MediaType(ext, mime)
  {
  }

  // Targets and cards

  const CARD := "artifact.md"
  const IMPORT := ".attachment-import"

  datatype ImportTarget = ImportTarget(
    root: Path, kindDir: string, topicDir: string, source: Path, kind: string, title: string, receivedAt: string, sourceLabel: string,
    sha: string, size: nat)
  {
    /** The extension of the source, in lower case. */
    function Ext(): string {
      if source == [] then "" else Lower(Suffix(source[|source| - 1]))
    }

    function BinaryName(): string { "original" + Ext() }

    function Paths(): ImportPaths {
      var dir := root + ["project", "attachments", kindDir, topicDir];
      ImportPaths(dir, dir + [BinaryName()], dir + [BinaryName() + IMPORT + ".tmp"],
                  dir + [CARD], dir + [CARD + IMPORT + ".tmp"], dir + [CARD + IMPORT + ".bak"])
    }
  }

  datatype ImportPaths = ImportPaths(dir: Path, binary: Path, binaryTmp: Path, card: Path, cardTmp: Path, cardBackup: Path)
  {
    ghost function Touched(): set<Path> { {binary, binaryTmp, card, cardTmp, cardBackup} }
  }

  /** A sidecar's metadata; `sourceFile` is absent when it is empty or no relative path, `size` when it is no integer. */
  datatype AttachmentCard = AttachmentCard(
    cardType: string, kind: string, status: string, title: string, sourceFile: Option<Path>, mime: string, sha: string,
    size: Option<int>, receivedAt: string, source: string, authority: string)

  const ATTACHMENT_STATUS := "imported"
  const ATTACHMENT_AUTHORITY_NOTE := "binary is source evidence; this md card is metadata authority"

  function CardOf(t: ImportTarget): AttachmentCard {
    AttachmentCard("attachment", t.kind, ATTACHMENT_STATUS, t.title, Some([t.BinaryName()]), Mime(t.Ext()), t.sha, Some(t.size),
                   t.receivedAt, t.sourceLabel, ATTACHMENT_AUTHORITY_NOTE)
  }

  // Validation

  datatype CardError = FieldMissing | WrongType | WrongStatus | SourceFileRefused | SourceMissing | SourceNotAFile
                     | HashMismatch | SizeNotAnInteger | SizeMismatch | MimeMismatch

  datatype CardVerdict = Judged(errors: seq<CardError>) | NotReadable

  predicate FieldsFilled(card: AttachmentCard) {
    && card.cardType != "" && card.kind != "" && card.status != "" && card.title != "" && card.sourceFile.Some? && card.mime != ""
    && card.sha != "" && card.size.Some? && card.receivedAt != "" && card.source != "" && card.authority != ""
  }

  function NameOf(p: Path): string {
    if p == [] then "" else p[|p| - 1]
  }

  /** What it means that validation finds no error: the fields are there, and the binary beside the card is the one they describe. */
  ghost predicate CardAccepted(files: Files, dir: Path, card: AttachmentCard, digest: Bytes -> string) {
    && card.cardType == "attachment" && card.status == "imported" && card.sourceFile.Some?
    && card.kind != "" && card.title != "" && card.mime != "" && card.sha != ""
    && card.receivedAt != "" && card.source != "" && card.authority != ""
    && var binary := dir + card.sourceFile.value;
    && binary in files && card.sha == digest(files[binary]) && card.size == Some(|files[binary]|)
    && Mime(Lower(Suffix(NameOf(binary)))) in {"", card.mime}
  }

  method AttachmentCardFindings(fs: FileSystem, dir: Path, card: AttachmentCard, digest: Bytes -> string) returns (v: CardVerdict)
    modifies fs`clock
    ensures v.Judged? ==> (v.errors == [] <==> CardAccepted(fs.files, dir, card, digest))
    ensures fs.Works(old(fs.clock), ReadStep) ==> v.Judged?
  {
    var errors: seq<CardError> := [];
    if !FieldsFilled(card) { errors := errors + [FieldMissing]; }
    if card.cardType != "attachment" { errors := errors + [WrongType]; }
    if card.status != ATTACHMENT_STATUS { errors := errors + [WrongStatus]; }
    if card.sourceFile.None? { return Judged(errors + [SourceFileRefused]); }
    var binary := dir + card.sourceFile.value;
    if !fs.Exists(binary) { return Judged(errors + [SourceMissing]); }
    if binary !in fs.files { return Judged(errors + [SourceNotAFile]); }
    var read := fs.ReadBytes(binary);
    if read.ReadRaised? { return NotReadable; }
    if card.sha != "" && card.sha != digest(read.bytes) { errors := errors + [HashMismatch]; }
    if card.size.None? {
      errors := errors + [SizeNotAnInteger];
    } else if card.size.value != |read.bytes| {
      errors := errors + [SizeMismatch];
    }
    var mime := Mime(Lower(Suffix(NameOf(binary))));
    if mime != "" && card.mime != "" && card.mime != mime { errors := errors + [MimeMismatch]; }
    v := Judged(errors);
  }

  // Import

  /** Every place an import can end; `NotHashed` is an error raised while the source was hashed, before anything was touched. */
  datatype ImportResult =
    | ImportRefused
    | NotHashed
    | Applied(warnings: seq<Path>)
    | ImportFailed(cleanupWarnings: seq<Path>, card: Option<TransactionResult>)

  /** Where an import happens; `conflict` stands for the rules of root-relative paths, `isoDate` for the date parser. */
  datatype Setting = Setting(root: Path, kind: RootKind, state: StateFile, today: string, isoDate: string -> bool, conflict: string -> bool)

  const ATTACHMENT_IMPORT_SOURCE := "attachment-import cli"

  /** Nothing when the extension is not supported or a name comes out empty. */
  function TargetOf(s: Setting, req: Request): Option<ImportTarget> {
    var kind, topic, title := SafeSlug(req.kind), SafeSlug(req.topic), NormalizedTitle(req.title);
    var receivedAt := if req.receivedAt == "" then s.today else req.receivedAt;
    if req.file.None? then None
    else
      var t := ImportTarget(s.root, PluralKindDir(kind), receivedAt + "-" + topic, req.file.value, kind, title, receivedAt,
                            if req.sourceLabel == "" then ATTACHMENT_IMPORT_SOURCE else req.sourceLabel, "", 0);
      if Mime(t.Ext()) == "" || kind == "" || topic == "" || title == "" then None else Some(t)
  }

  // What an import puts where

  ghost predicate HasExtension(file: Path, ext: string) {
    file != [] && exists end :: EndsWithExtension(file[|file| - 1], end) && IsLower(ext, end)
  }

  /** The card as the request asks for it: slugs, title, date and label of the request and the name and type of the binary. */
  ghost predicate CardTells(card: AttachmentCard, req: Request, today: string, ext: string) {
    && card.cardType == "attachment" && card.status == "imported"
    && card.authority == "binary is source evidence; this md card is metadata authority"
    && IsSlugOf(card.kind, req.kind) && IsTitleOf(card.title, req.title)
    && card.receivedAt == (if req.receivedAt == "" then today else req.receivedAt)
    && card.source == (if req.sourceLabel == "" then "attachment-import cli" else req.sourceLabel)
    && card.sourceFile == Some(["original" + ext]) && MediaType(ext, card.mime)
  }

  /** The directory is that of the kind and, in it, of the date and the topic. */
  ghost predicate IsDirFor(dir: Path, root: Path, card: AttachmentCard, req: Request) {
    exists plural, topic ::
      IsPlural(plural, card.kind) && IsSlugOf(topic, req.topic)
      && dir == root + ["project", "attachments", plural, card.receivedAt + "-" + topic]
  }

  ghost predicate NamesIn(p: ImportPaths, ext: string) {
    && p.binary == p.dir + ["original" + ext] && p.binaryTmp == p.dir + ["original" + ext + ".attachment-import" + ".tmp"]
    && p.card == p.dir + ["artifact.md"] && p.cardTmp == p.dir + ["artifact.md" + ".attachment-import" + ".tmp"]
    && p.cardBackup == p.dir + ["artifact.md" + ".attachment-import" + ".bak"]
  }

  /** Paths and card are what the request asks for. */
  ghost predicate AsAsked(p: ImportPaths, card: AttachmentCard, s: Setting, req: Request) {
    req.file.Some? && exists ext ::
      HasExtension(req.file.value, ext) && CardTells(card, req, s.today, ext) && IsDirFor(p.dir, s.root, card, req) && NamesIn(p, ext)
  }

  lemma ExtensionIs(file: Path)
    requires file != []
    ensures var ext := Lower(Suffix(file[|file| - 1]));
            (ext != "" ==> HasExtension(file, ext)) && forall other :: HasExtension(file, other) ==> other == ext
  {
    var end := Suffix(file[|file| - 1]);
    SuffixIs(file[|file| - 1]);
    LowerIs(end);
    forall other | IsLower(other, end) ensures other == Lower(end) {
      OneLower(other, Lower(end), end);
    }
  }

  lemma OneLower(a: string, b: string, s: string)
    requires IsLower(a, s) && IsLower(b, s)
    ensures a == b
  {
    forall i | 0 <= i < |s| ensures a[i] == b[i] {
      assert IsLowerOf(a[i], s[i]) && IsLowerOf(b[i], s[i]);
    }
  }

  lemma CardIs(s: Setting, req: Request, t: ImportTarget)
    requires TargetOf(s, req) == Some(t.(sha := "", size := 0))
    ensures CardTells(CardOf(t), req, s.today, t.Ext())
  {
    MimeIs(t.Ext());
    SlugIs(req.kind);
    TitleIs(req.title);
  }

  lemma DirIs(s: Setting, req: Request, t: ImportTarget)
    requires TargetOf(s, req) == Some(t.(sha := "", size := 0))
    ensures IsDirFor(t.Paths().dir, s.root, CardOf(t), req)
  {
    SlugIs(req.topic);
    PluralIs(t.kind);
    assert t.Paths().dir == s.root + ["project", "attachments", PluralKindDir(t.kind), t.receivedAt + "-" + SafeSlug(req.topic)];
  }

  lemma NamesAre(t: ImportTarget)
    ensures NamesIn(t.Paths(), t.Ext())
  {
  }

  /** A target is the request's own: source, paths and card follow from it. */
  lemma TargetIsAsAsked(s: Setting, req: Request, t: ImportTarget)
    requires TargetOf(s, req) == Some(t.(sha := "", size := 0))
    ensures req.file == Some(t.source) && t.root == s.root
    ensures AsAsked(t.Paths(), CardOf(t), s, req) && CardOf(t).sha == t.sha && CardOf(t).size == Some(t.size)
  {
    CardIs(s, req, t);
    DirIs(s, req, t);
    ExtensionIs(t.source);
    NamesAre(t);
  }

  ghost predicate SupportedFile(file: Path) {
    exists ext, mime :: HasExtension(file, ext) && MediaType(ext, mime)
  }

  lemma SupportedFileIs(file: Path)
    ensures SupportedFile(file) <==> file != [] && Mime(Lower(Suffix(file[|file| - 1]))) != ""
  {
    if file != [] {
      var ext := Lower(Suffix(file[|file| - 1]));
      ExtensionIs(file);
      MimeIs(ext);
      if Mime(ext) != "" {
        assert HasExtension(file, ext) && MediaType(ext, Mime(ext));
      }
    }
  }

  /** There is a target exactly when the extension is supported and neither slug nor the title is empty. */
  lemma TargetExists(s: Setting, req: Request)
    ensures TargetOf(s, req).Some? <==>
              req.file.Some? && SupportedFile(req.file.value) && HasLetterOrDigit(req.kind) && HasLetterOrDigit(req.topic) && HasWord(req.title)
  {
    SlugIsSafe(req.kind);
    SlugIsSafe(req.topic);
    TitleIsEmptyWhen(req.title);
    if req.file.Some? {
      SupportedFileIs(req.file.value);
    }
  }

  /** What the preflight asks of the request, the root and the file system. */
  ghost predicate ImportAllowed(s: Setting, req: Request, files: Files, dirs: set<Path>) {
    && ArgumentsGood(req, s.isoDate, s.conflict) && s.kind == LiveOperatingRoot && s.state == ReadableState
    && TargetOf(s, req).Some?
    && var t := TargetOf(s, req).value;
    && t.source in files && PathsFree(t.Paths(), t.source, |s.root|, files, dirs)
  }

  /** Everything the card needs is there. */
  ghost predicate Describable(t: ImportTarget) {
    Mime(t.Ext()) != "" && t.kind != "" && t.title != "" && t.receivedAt != "" && t.sourceLabel != ""
  }

  ghost predicate PathsFree(p: ImportPaths, source: Path, rootDepth: nat, files: Files, dirs: set<Path>) {
    && source != p.binary
    && (forall n :: rootDepth < n < |p.dir| ==> p.dir[..n] !in files)
    && p.binary !in files && p.binary !in dirs && p.card !in files && p.card !in dirs
  }

  method AncestorIsFile(fs: FileSystem, dir: Path, rootDepth: nat) returns (found: bool)
    ensures found <==> exists n :: rootDepth < n < |dir| && dir[..n] in fs.files
  {
    var n := rootDepth + 1;
    while n < |dir|
      invariant n > rootDepth
      invariant forall m :: rootDepth < m < n && m < |dir| ==> dir[..m] !in fs.files
    {
      if dir[..n] in fs.files {
        return true;
      }
      n := n + 1;
    }
    found := false;
  }

  method TargetErrors(fs: FileSystem, t: ImportTarget) returns (ok: bool)
    ensures ok <==> t.source in fs.files && PathsFree(t.Paths(), t.source, |t.root|, fs.files, fs.dirs)
  {
    var p := t.Paths();
    var blocked := AncestorIsFile(fs, p.dir, |t.root|);
    ok := !blocked && t.source in fs.files && t.source != p.binary && !fs.Exists(p.binary) && !fs.Exists(p.card);
  }

  /** Refuses exactly what `ImportAllowed` does not allow. */
  method Preflight(fs: FileSystem, s: Setting, req: Request) returns (ok: bool)
    ensures ok <==> ImportAllowed(s, req, fs.files, fs.dirs)
  {
    var argumentErrors := ArgumentErrors(req, s.isoDate, s.conflict);
    var target := TargetOf(s, req);
    if target.None? {
      return false;
    }
    var targetOk := TargetErrors(fs, target.value);
    var postureErrors := PostureErrors(s.kind, s.state);
    ok := argumentErrors == [] && targetOk && postureErrors == [];
  }

  lemma {:induction false} LowerKeeps(s: string)
    requires forall i :: 0 <= i < |s| ==> !('A' <= s[i] <= 'Z')
    ensures Lower(s) == s
  {
    if s != "" {
      LowerKeeps(s[1..]);
    }
  }

  lemma SupportedExtension(ext: string)
    requires Mime(ext) != ""
    ensures IsExtension(ext)
  {
    if ext == ".pdf" {} else if ext == ".docx" {} else if ext == ".xlsx" {} else if ext == ".png" {}
    else if ext == ".jpg" {} else if ext == ".jpeg" {} else {}
  }

  /** No supported extension is that of a card or of a sidecar. */
  lemma SidecarsAreNotSupported(ext: string)
    requires Mime(ext) != ""
    ensures ext != ".tmp" && ext != ".bak" && ext != ".md"
  {
  }

  lemma BinaryNames(ext: string)
    requires IsExtension(ext)
    ensures Suffix("original" + ext) == ext
    ensures Suffix("original" + ext + IMPORT + ".tmp") == ".tmp"
  {
    SuffixOf("original", ext);
    SuffixOf("original" + ext + IMPORT, ".tmp");
  }

  lemma CardNames()
    ensures Suffix(CARD) == ".md" && Suffix(CARD + IMPORT + ".tmp") == ".tmp" && Suffix(CARD + IMPORT + ".bak") == ".bak"
  {
    SuffixOf("artifact", ".md");
    assert "artifact" + ".md" == CARD;
    SuffixOf(CARD + IMPORT, ".tmp");
    SuffixOf(CARD + IMPORT, ".bak");
  }

  lemma LowerKeepsSidecarSuffixes()
    ensures Lower(".tmp") == ".tmp" && Lower(".bak") == ".bak" && Lower(".md") == ".md"
  {
    assert Lower("md") == "md" && Lower("tmp") == "tmp" && Lower("bak") == "bak";
  }

  ghost predicate FivePaths(p: ImportPaths) {
    && p.binary != p.binaryTmp && p.binary != p.card && p.binary != p.cardTmp && p.binary != p.cardBackup
    && p.binaryTmp != p.card && p.binaryTmp != p.cardTmp && p.binaryTmp != p.cardBackup
    && p.card != p.cardTmp && p.card != p.cardBackup && p.cardTmp != p.cardBackup
  }

  /** The five paths an import works on differ from each other and, but for the binary, from its source; they lie in one
      directory under the root. */
  ghost predicate GoodPaths(p: ImportPaths, source: Path, root: Path) {
    && FivePaths(p)
    && source !in {p.binaryTmp, p.card, p.cardTmp, p.cardBackup}
    && Beside(p.binary, p.dir, root) && Beside(p.binaryTmp, p.dir, root)
    && Beside(p.card, p.dir, root) && Beside(p.cardTmp, p.dir, root) && Beside(p.cardBackup, p.dir, root)
    && PortableSidecarPath(p.cardTmp) == p.cardTmp && PortableSidecarPath(p.cardBackup) == p.cardBackup
  }

  ghost predicate Beside(p: Path, dir: Path, root: Path) {
    p != [] && Parent(p) == dir && Within(root, p)
  }

  lemma InDir(root: Path, dir: Path, name: string)
    requires root <= dir
    ensures Beside(dir + [name], dir, root) && NameOf(dir + [name]) == name
  {
  }

  lemma ImportPathsAreGood(t: ImportTarget)
    requires Mime(t.Ext()) != ""
    ensures GoodPaths(t.Paths(), t.source, t.root)
  {
    var p, b := t.Paths(), t.BinaryName();
    ImportNames(t.Ext());
    NamedPathsAreGood(t.root, p.dir, t.source, b, b + IMPORT + ".tmp", CARD, CARD + IMPORT + ".tmp", CARD + IMPORT + ".bak");
  }

  lemma ImportNames(ext: string)
    requires Mime(ext) != ""
    ensures IsExtension(ext) && Suffix("original" + ext) == ext && ext !in {".tmp", ".bak", ".md"}
    ensures Suffix("original" + ext + IMPORT + ".tmp") == ".tmp" && ("original" + ext + IMPORT + ".tmp")[0] == 'o'
    ensures Suffix(CARD) == ".md" && Suffix(CARD + IMPORT + ".tmp") == ".tmp" && Suffix(CARD + IMPORT + ".bak") == ".bak"
    ensures (CARD + IMPORT + ".tmp")[0] == 'a' && (CARD + IMPORT + ".bak")[0] == 'a'
  {
    SupportedExtension(ext);
    SidecarsAreNotSupported(ext);
    BinaryNames(ext);
    CardNames();
  }

  lemma NamedPathsAreGood(root: Path, dir: Path, source: Path, binary: string, binaryTmp: string, card: string, cardTmp: string, cardBackup: string)
    requires root <= dir
    requires Mime(Lower(Suffix(NameOf(source)))) != ""
    requires Suffix(binary) !in {".tmp", ".bak", ".md"}
    requires Suffix(card) == ".md" && Suffix(binaryTmp) == Suffix(cardTmp) == ".tmp" && Suffix(cardBackup) == ".bak"
    requires binaryTmp != "" && cardTmp != "" && cardBackup != "" && binaryTmp[0] == 'o' && cardTmp[0] == cardBackup[0] == 'a'
    ensures GoodPaths(ImportPaths(dir, dir + [binary], dir + [binaryTmp], dir + [card], dir + [cardTmp], dir + [cardBackup]), source, root)
  {
    InDir(root, dir, binary);
    InDir(root, dir, binaryTmp);
    InDir(root, dir, card);
    InDir(root, dir, cardTmp);
    InDir(root, dir, cardBackup);
    SourceElsewhere(source, dir + [binaryTmp]);
    SourceElsewhere(source, dir + [card]);
    SourceElsewhere(source, dir + [cardTmp]);
    SourceElsewhere(source, dir + [cardBackup]);
  }

  lemma SourceElsewhere(source: Path, p: Path)
    requires Mime(Lower(Suffix(NameOf(source)))) != "" && Suffix(NameOf(p)) in {".tmp", ".bak", ".md"}
    ensures source != p
  {
    LowerKeepsSidecarSuffixes();
    if source == p {
      SidecarsAreNotSupported(Lower(Suffix(NameOf(source))));
    }
  }

  // Steps

  /** Removes a regular file; a file that stays is named. */
  method RemoveIfExists(fs: FileSystem, p: Path) returns (warnings: seq<Path>)
    requires fs.Valid()
    modifies fs
    ensures fs.Valid() && fs.dirs == old(fs.dirs) && old(fs.clock) <= fs.clock
    ensures RemovedOrNamed(fs.files, old(fs.files), p, warnings)
    ensures fs.Quiet(old(fs.clock), fs.clock) ==> warnings == []
  {
    warnings := [];
    if p in fs.files {
      var r := fs.Unlink(p);
      if r.Raised? {
        warnings := [p];
      }
    }
  }

  /** Nothing stands where the directory or the temporary has to be. */
  ghost predicate Unobstructed(p: ImportPaths, files: Files, dirs: set<Path>) {
    (forall q :: q <= p.dir ==> q !in files) && p.binaryTmp !in dirs
  }

  /** Opens both files, which empties the copy, then copies. */
  method CopyBytes(fs: FileSystem, source: Path, copy: Path) returns (r: Outcome)
    requires fs.Valid() && source != copy
    modifies fs
    ensures fs.Valid() && fs.dirs == old(fs.dirs) && old(fs.clock) <= fs.clock
    ensures r.Done? ==> source in old(fs.files) && old(fs.Placeable(copy)) && fs.files == old(fs.files)[copy := old(fs.files)[source]]
    ensures r.Raised? ==> SameOutside(fs.files, old(fs.files), {copy})
    ensures fs.Quiet(old(fs.clock), fs.clock) && source in old(fs.files) && old(fs.Placeable(copy)) ==> r.Done?
  {
    var open := fs.ReadBytes(source);
    if open.ReadRaised? { return Raised(open.retryable); }
    r := fs.WriteBytes(copy, []);
    if r.Raised? { return; }
    var read := fs.ReadBytes(source);
    if read.ReadRaised? { return Raised(read.retryable); }
    r := fs.WriteBytes(copy, read.bytes);
  }

  /** Copies beside the target, then moves into place. */
  method CopyThrough(fs: FileSystem, source: Path, tmp: Path, target: Path) returns (r: Outcome)
    requires fs.Valid() && source != tmp && tmp != target && source != target
    modifies fs
    ensures fs.Valid() && fs.dirs == old(fs.dirs) && old(fs.clock) <= fs.clock
    ensures r.Done? ==> source in old(fs.files) && old(fs.Placeable(tmp))
                        && fs.files == (old(fs.files) - {tmp})[target := old(fs.files)[source]]
    ensures r.Raised? ==> SameOutside(fs.files, old(fs.files), {tmp})
    ensures fs.Quiet(old(fs.clock), fs.clock) && source in old(fs.files) && old(fs.Placeable(tmp)) && old(fs.Placeable(target))
            ==> r.Done?
  {
    r := CopyBytes(fs, source, tmp);
    if r.Done? {
      r := fs.Rename(tmp, target);
    }
  }

  method CopyBinary(fs: FileSystem, source: Path, p: ImportPaths, ghost root: Path) returns (r: Outcome)
    requires fs.Valid() && GoodPaths(p, source, root) && source != p.binary && p.binary !in fs.dirs
    requires source in fs.files
    modifies fs
    ensures fs.Valid() && old(fs.clock) <= fs.clock
    ensures old(fs.dirs) <= fs.dirs && forall d :: d in fs.dirs && d !in old(fs.dirs) ==> d <= p.dir
    ensures r.Done? ==> p.dir in fs.dirs && Unobstructed(p, old(fs.files), old(fs.dirs))
                        && fs.files == (old(fs.files) - {p.binaryTmp})[p.binary := old(fs.files)[source]]
    ensures r.Raised? ==> SameOutside(fs.files, old(fs.files), {p.binaryTmp})
    ensures fs.Quiet(old(fs.clock), fs.clock) && Unobstructed(p, old(fs.files), old(fs.dirs)) ==> r.Done?
  {
    NotAboveItsDir(p.dir, p.binary);
    NotAboveItsDir(p.dir, p.binaryTmp);
    r := fs.MakeDirs(p.dir);
    fs.QuietIsCalm(old(fs.clock), fs.clock);
    if r.Done? {
      DirsDownTo(fs, p.dir);
      r := CopyThrough(fs, source, p.binaryTmp, p.binary);
    }
  }

  lemma NotAboveItsDir(dir: Path, p: Path)
    requires p != [] && Parent(p) == dir
    ensures !(p <= dir)
  {
  }

  lemma DirsDownTo(fs: FileSystem, dir: Path)
    requires fs.Valid() && dir in fs.dirs
    ensures forall q :: q <= dir ==> q in fs.dirs && q !in fs.files
  {
    forall q | q <= dir ensures q in fs.dirs {
      if q != dir {
        AncestorsAreDirs(fs, dir, q);
      }
    }
  }

  /** A write of a new file whose sidecars keep their names and share its directory. */
  ghost predicate NewFile(op: Operation, root: Path, files: Files, dirs: set<Path>) {
    && op.Write? && PortableSidecarOperation(op) == op && Separate([op]) && UnderRoot(op, Some(root))
    && op.target != [] && op.tmp != [] && op.backup != []
    && Parent(op.tmp) == Parent(op.target) == Parent(op.backup) && Parent(op.target) in dirs
    && op.target !in files && op.target !in dirs
  }

  ghost predicate SidecarsFree(op: Operation, files: Files, dirs: set<Path>)
    requires op.Write?
  {
    op.tmp !in files && op.tmp !in dirs && op.backup !in files && op.backup !in dirs
  }

  lemma NewFileIsFeasible(fs: FileSystem, op: Operation, root: Path)
    requires fs.Valid() && NewFile(op, root, fs.files, fs.dirs)
    ensures Feasible([op], fs.files, fs.dirs)
    ensures forall d :: NeededDir(d, [op]) ==> d in fs.dirs
    ensures ValidOperations([op], fs.files, fs.dirs, Some(root)) <==> SidecarsFree(op, fs.files, fs.dirs)
  {
    forall d | Above(d, op.tmp) ensures d in fs.dirs && d !in fs.files && d != op.target && d != op.backup {
      if d != Parent(op.tmp) {
        assert Above(d, Parent(op.tmp));
        AncestorsAreDirs(fs, Parent(op.tmp), d);
      }
    }
    assert [op][0] == op;
  }

  /** A one-write transaction for a new file: it is there with its text and nothing else has changed, or it is not there. */
  method WriteNewFile(fs: FileSystem, op: Operation, root: Path) returns (r: TransactionResult)
    requires fs.Valid() && NewFile(op, root, fs.files, fs.dirs)
    modifies fs
    ensures fs.Valid() && old(fs.clock) <= fs.clock
    ensures SameOutside(fs.files, old(fs.files), PathsOf(op))
    ensures r.Refused? <==> !SidecarsFree(op, old(fs.files), old(fs.dirs))
    ensures r.Refused? || (NoRecoveryErrors(r) && fs.Clean()) ==> fs.files == old(fs.files) && fs.dirs == old(fs.dirs)
    ensures r.Returned? ==> r.warnings == [] && fs.dirs == old(fs.dirs) && fs.files == old(fs.files)[op.target := op.text]
    ensures r.Failed? && r.rollbackErrors == [] ==> op.target !in fs.files
    ensures r.Failed? ==> (op.tmp in fs.files ==> op.tmp in r.temporaryErrors || !fs.Clean())
                          && (op.backup in fs.files ==> op.target in r.rollbackErrors || !fs.Clean())
    ensures r.Failed? ==> old(fs.dirs) <= fs.dirs && forall d :: d in fs.dirs ==> d in old(fs.dirs) || d in r.directoryErrors
    ensures fs.Quiet(old(fs.clock), fs.clock) && SidecarsFree(op, old(fs.files), old(fs.dirs)) ==> r == Returned([])
  {
    ghost var files0, dirs0 := fs.files, fs.dirs;
    NewFileIsFeasible(fs, op, root);
    TouchedByOne(op);
    assert PortableSidecarOperations([op]) == [op];
    ghost var failed, commit, recovery;
    r, failed, commit, recovery := ApplyFileTransaction(fs, [op], Some(root));
    fs.QuietIsCalm(old(fs.clock), fs.clock);
    if r.Returned? {
      NewFileCommitted(fs.files, fs.dirs, op, r.warnings, files0, dirs0);
    } else if r.Failed? {
      assert RecoveredSlot(View(fs.files, op), [op][0], failed == 0 && !fs.Clean(), fs.Partials(), r, files0);
    }
  }

  lemma NewFileCommitted(files: Files, dirs: set<Path>, op: Operation, warnings: seq<Path>, files0: Files, dirs0: set<Path>)
    requires op.Write? && op.target !in files0 && ValidOperations([op], files0, dirs0, None)
    requires forall d :: NeededDir(d, [op]) ==> d in dirs0
    requires CommittedState(files, dirs, [op], warnings, files0, dirs0)
    ensures dirs == dirs0 && files == files0[op.target := op.text] && warnings == []
  {
    TouchedByOne(op);
    assert Finished(View(files, op), [op][0], warnings, files0);
    SameEverywhere(files, files0[op.target := op.text]);
    EmptyOrInhabited(warnings);
  }

  lemma EmptyOrInhabited<T>(s: seq<T>)
    ensures s == [] || exists x :: x in s
  {
    assert s != [] ==> s[0] in s;
  }

  function CardWrite(p: ImportPaths, text: Bytes): Operation {
    Write(p.card, p.cardTmp, text, p.cardBackup)
  }

  lemma CardIsNewFile(p: ImportPaths, source: Path, root: Path, text: Bytes, files: Files, dirs: set<Path>)
    requires GoodPaths(p, source, root) && p.dir in dirs && p.card !in files && p.card !in dirs
    ensures NewFile(CardWrite(p, text), root, files, dirs)
  {
    OneOperation(CardWrite(p, text), root);
  }

  // The import

  /** The card's transaction did not run, was refused, or reported no recovery error. */
  ghost predicate CardUndone(card: Option<TransactionResult>, clean: bool) {
    card.None? || card.value.Refused? || (NoRecoveryErrors(card.value) && clean)
  }

  /** A sidecar of the card is as before unless the card's transaction failed and named it, or a write was torn. */
  ghost predicate CardLeftovers(card: Option<TransactionResult>, p: ImportPaths, files: Files, clean: bool, files0: Files) {
    && (At(files, p.cardTmp) != At(files0, p.cardTmp) ==>
          card.Some? && card.value.Failed? && (p.cardTmp in card.value.temporaryErrors || !clean))
    && (At(files, p.cardBackup) != At(files0, p.cardBackup) ==>
          card.Some? && card.value.Failed? && (p.card in card.value.rollbackErrors || !clean))
  }

  /** What stays is named, by a warning or by the card's transaction; only a torn write can leave a sidecar of the card unnamed.
      Without warnings, recovery errors and torn writes all files are as before but for one that was at the binary's temporary. */
  ghost predicate TakenBack(cleanupWarnings: seq<Path>, card: Option<TransactionResult>, p: ImportPaths, files: Files, clean: bool, files0: Files) {
    && (forall w :: w in cleanupWarnings ==> w in {p.binaryTmp, p.binary} && w in files)
    && (p.binaryTmp in files ==> p.binaryTmp in cleanupWarnings)
    && (p.binary in files ==> p.binary in cleanupWarnings)
    && (p.card in files ==> card.Some? && card.value.Failed? && card.value.rollbackErrors != [])
    && CardLeftovers(card, p, files, clean, files0)
    && (cleanupWarnings == [] && CardUndone(card, clean) ==>
          files == files0 - {p.binaryTmp} && (files == files0 <==> p.binaryTmp !in files0))
  }

  /** What an import that gives up has done so far. */
  ghost predicate Abandoned(files: Files, card: Option<TransactionResult>, p: ImportPaths, clean: bool, files0: Files) {
    && p.binary !in files0
    && (p.card in files ==> card.Some? && card.value.Failed? && card.value.rollbackErrors != [])
    && (CardUndone(card, clean) ==> SameOutside(files, files0, {p.binaryTmp, p.binary}))
    && CardLeftovers(card, p, files, clean, files0)
  }

  lemma CopyAbandoned(files: Files, p: ImportPaths, clean: bool, files0: Files)
    requires FivePaths(p) && p.binary !in files0 && p.card !in files0
    requires SameOutside(files, files0, {p.binaryTmp})
    ensures Abandoned(files, None, p, clean, files0)
  {
    assert At(files, p.card) == At(files0, p.card);
    assert At(files, p.cardTmp) == At(files0, p.cardTmp) && At(files, p.cardBackup) == At(files0, p.cardBackup);
  }

  lemma CardAbandoned(files: Files, before: Files, p: ImportPaths, card: TransactionResult, clean: bool, files0: Files)
    requires FivePaths(p) && p.binary !in files0 && p.card !in files0 && !card.Returned?
    requires SameOutside(before, files0, {p.binaryTmp, p.binary})
    requires card.Refused? || (NoRecoveryErrors(card) && clean) ==> files == before
    requires card.Failed? && card.rollbackErrors == [] ==> p.card !in files
    requires card.Failed? ==> p.cardTmp !in before && p.cardBackup !in before
                              && (p.cardTmp in files ==> p.cardTmp in card.temporaryErrors || !clean)
                              && (p.cardBackup in files ==> p.card in card.rollbackErrors || !clean)
    ensures Abandoned(files, Some(card), p, clean, files0)
  {
    assert At(before, p.card) == At(files0, p.card);
    assert At(before, p.cardTmp) == At(files0, p.cardTmp) && At(before, p.cardBackup) == At(files0, p.cardBackup);
  }

  /** What removing one path means for the files and for the warnings. */
  ghost predicate RemovedOrNamed(after: Files, before: Files, p: Path, warnings: seq<Path>) {
    || (warnings == [] && after == before - {p})
    || (warnings == [p] && after == before && p in after)
  }

  lemma RemovalsTakeBack(after: Files, middle: Files, before: Files, first: seq<Path>, second: seq<Path>, card: Option<TransactionResult>,
                         p: ImportPaths, clean: bool, files0: Files)
    requires FivePaths(p) && Abandoned(before, card, p, clean, files0)
    requires RemovedOrNamed(middle, before, p.binaryTmp, first) && RemovedOrNamed(after, middle, p.binary, second)
    ensures TakenBack(first + second, card, p, after, clean, files0)
    ensures SameOutside(after, before, {p.binaryTmp, p.binary})
  {
    assert At(after, p.cardTmp) == At(before, p.cardTmp) && At(after, p.cardBackup) == At(before, p.cardBackup);
    assert p.card in after <==> p.card in before;
    if first + second == [] && CardUndone(card, clean) {
      assert first == [] && second == [];
      forall q ensures At(after, q) == At(files0 - {p.binaryTmp}, q) {
        assert q !in {p.binaryTmp, p.binary} ==> At(before, q) == At(files0, q);
      }
      SameEverywhere(after, files0 - {p.binaryTmp});
    }
  }

  /** Removes the temporary and the binary after an error. */
  method TakeBack(fs: FileSystem, p: ImportPaths, ghost card: Option<TransactionResult>, ghost files0: Files) returns (cleanupWarnings: seq<Path>)
    requires fs.Valid() && FivePaths(p) && Abandoned(fs.files, card, p, fs.Clean(), files0)
    modifies fs
    ensures fs.Valid() && old(fs.clock) <= fs.clock && fs.dirs == old(fs.dirs)
    ensures SameOutside(fs.files, old(fs.files), {p.binaryTmp, p.binary})
    ensures TakenBack(cleanupWarnings, card, p, fs.files, fs.Clean(), files0)
    ensures fs.Quiet(old(fs.clock), fs.clock) ==> cleanupWarnings == []
  {
    ghost var before := fs.files;
    var first := RemoveIfExists(fs, p.binaryTmp);
    ghost var middle := fs.files;
    var second := RemoveIfExists(fs, p.binary);
    cleanupWarnings := first + second;
    RemovalsTakeBack(fs.files, middle, before, first, second, card, p, fs.Clean(), files0);
  }

  lemma SameOutsideJoins(c: Files, b: Files, a: Files, s: set<Path>, t: set<Path>, all: set<Path>)
    requires SameOutside(c, b, s) && SameOutside(b, a, t) && s <= all && t <= all
    ensures SameOutside(c, a, all)
  {
    forall p | p !in all ensures At(c, p) == At(a, p) {
      assert p !in s && p !in t;
    }
  }

  /** Something stood in the way, and everything the import had done was taken back. */
  ghost predicate StoppedByObstacle(r: ImportResult)
    requires r.ImportFailed?
  {
    r.cleanupWarnings == [] && (r.card.None? || r.card.value.Refused?)
  }

  method CopyAndRecord(fs: FileSystem, source: Path, p: ImportPaths, text: Bytes, root: Path) returns (r: ImportResult)
    requires fs.Valid() && GoodPaths(p, source, root) && source in fs.files
    requires PathsFree(p, source, |root|, fs.files, fs.dirs)
    modifies fs
    ensures fs.Valid() && (r.Applied? || r.ImportFailed?)
    ensures r.Applied? ==> r.warnings == [] && fs.files == (old(fs.files) - {p.binaryTmp})[p.binary := old(fs.files)[source]][p.card := text]
    ensures r.ImportFailed? ==> TakenBack(r.cleanupWarnings, r.card, p, fs.files, fs.Clean(), old(fs.files))
    ensures SameOutside(fs.files, old(fs.files), p.Touched())
    ensures old(fs.clock) <= fs.clock && old(fs.dirs) <= fs.dirs
    ensures fs.Quiet(old(fs.clock), fs.clock) && r.ImportFailed? ==> StoppedByObstacle(r)
    ensures fs.Quiet(old(fs.clock), fs.clock) ==>
              (r.Applied? <==> Unobstructed(p, old(fs.files), old(fs.dirs)) && SidecarsFree(CardWrite(p, []), old(fs.files), old(fs.dirs)))
  {
    ghost var files0 := fs.files;
    CardsNotAbove(p, source, root);
    var copied := CopyBinary(fs, source, p, root);
    if copied.Raised? {
      ghost var stopped := fs.files;
      CopyAbandoned(stopped, p, fs.Clean(), files0);
      var left := TakeBack(fs, p, None, files0);
      SameOutsideJoins(fs.files, stopped, files0, {p.binaryTmp, p.binary}, {p.binaryTmp}, p.Touched());
      return ImportFailed(left, None);
    }
    r := RecordCard(fs, source, p, text, root, files0);
  }

  /** The second half: the binary is in place. */
  method RecordCard(fs: FileSystem, ghost source: Path, p: ImportPaths, text: Bytes, root: Path, ghost files0: Files) returns (r: ImportResult)
    requires fs.Valid() && GoodPaths(p, source, root) && source in files0 && p.dir in fs.dirs
    requires p.binary !in files0 && p.card !in files0 && p.card !in fs.dirs
    requires fs.files == (files0 - {p.binaryTmp})[p.binary := files0[source]]
    modifies fs
    ensures fs.Valid() && (r.Applied? || r.ImportFailed?)
    ensures r.Applied? ==> r.warnings == [] && fs.files == (files0 - {p.binaryTmp})[p.binary := files0[source]][p.card := text]
    ensures r.ImportFailed? ==> TakenBack(r.cleanupWarnings, r.card, p, fs.files, fs.Clean(), files0)
    ensures SameOutside(fs.files, files0, p.Touched())
    ensures old(fs.clock) <= fs.clock && old(fs.dirs) <= fs.dirs
    ensures r.Applied? ==> SidecarsFree(CardWrite(p, []), files0, old(fs.dirs))
    ensures fs.Quiet(old(fs.clock), fs.clock) && SidecarsFree(CardWrite(p, []), files0, old(fs.dirs)) ==> r.Applied?
    ensures fs.Quiet(old(fs.clock), fs.clock) && r.ImportFailed? ==> StoppedByObstacle(r)
  {
    ghost var before := fs.files;
    BinaryInPlace(before, source, p, files0);
    CardIsNewFile(p, source, root, text, fs.files, fs.dirs);
    var card := WriteNewFile(fs, CardWrite(p, text), root);
    ghost var stopped := fs.files;
    SameOutsideJoins(stopped, before, files0, PathsOf(CardWrite(p, text)), {p.binaryTmp, p.binary}, p.Touched());
    if card.Returned? {
      r := Applied(card.warnings);
    } else {
      CardAbandoned(stopped, before, p, card, fs.Clean(), files0);
      var left := TakeBack(fs, p, Some(card), files0);
      SameOutsideJoins(fs.files, stopped, files0, {p.binaryTmp, p.binary}, p.Touched(), p.Touched());
      r := ImportFailed(left, Some(card));
    }
  }

  lemma BinaryInPlace(files: Files, source: Path, p: ImportPaths, files0: Files)
    requires FivePaths(p) && source in files0 && files == (files0 - {p.binaryTmp})[p.binary := files0[source]]
    ensures SameOutside(files, files0, {p.binaryTmp, p.binary})
    ensures At(files, p.cardTmp) == At(files0, p.cardTmp) && At(files, p.cardBackup) == At(files0, p.cardBackup)
    ensures At(files, p.card) == At(files0, p.card)
  {
  }

  lemma CardsNotAbove(p: ImportPaths, source: Path, root: Path)
    requires GoodPaths(p, source, root)
    ensures !(p.card <= p.dir) && !(p.cardTmp <= p.dir) && !(p.cardBackup <= p.dir)
  {
    NotAboveItsDir(p.dir, p.card);
    NotAboveItsDir(p.dir, p.cardTmp);
    NotAboveItsDir(p.dir, p.cardBackup);
  }

  /** The card of an imported attachment passes validation. */
  lemma ImportedCardIsAccepted(t: ImportTarget, files: Files, digest: Bytes -> string)
    requires Describable(t) && t.sha != ""
    requires t.Paths().binary in files && t.sha == digest(files[t.Paths().binary]) && t.size == |files[t.Paths().binary]|
    ensures CardAccepted(files, t.Paths().dir, CardOf(t), digest)
  {
    InDir(t.root, t.Paths().dir, t.BinaryName());
    SupportedExtension(t.Ext());
    BinaryNames(t.Ext());
    LowerKeeps(t.Ext());
  }

  /** The binary is the source, byte for byte, and the card beside it describes it. */
  ghost predicate Imported(t: ImportTarget, files: Files, digest: Bytes -> string, parse: Bytes -> Option<AttachmentCard>, files0: Files) {
    var p := t.Paths();
    && t.source in files0 && At(files, t.source) == At(files, p.binary) == At(files0, t.source)
    && p.card in files && parse(files[p.card]) == Some(CardOf(t)) && CardAccepted(files, p.dir, CardOf(t), digest)
    && p.binaryTmp !in files && SameOutside(files, files0, {p.binary, p.card, p.binaryTmp})
  }

  lemma AppliedIsImported(t: ImportTarget, text: Bytes, files: Files, digest: Bytes -> string, parse: Bytes -> Option<AttachmentCard>, files0: Files)
    requires Describable(t) && t.sha != ""
    requires t.source in files0 && t.sha == digest(files0[t.source]) && t.size == |files0[t.source]| && parse(text) == Some(CardOf(t))
    requires GoodPaths(t.Paths(), t.source, t.root) && t.source != t.Paths().binary
    requires files == (files0 - {t.Paths().binaryTmp})[t.Paths().binary := files0[t.source]][t.Paths().card := text]
    ensures Imported(t, files, digest, parse, files0)
  {
    ImportedCardIsAccepted(t, files, digest);
  }

  /** A source that is there is hashed and measured; that can fail. */
  method Measured(fs: FileSystem, t: ImportTarget, digest: Bytes -> string) returns (ok: bool, measured: ImportTarget)
    requires fs.Valid()
    modifies fs
    ensures fs.Valid() && fs.files == old(fs.files) && fs.dirs == old(fs.dirs) && fs.trace == old(fs.trace) && old(fs.clock) <= fs.clock
    ensures measured == t.(sha := measured.sha, size := measured.size)
    ensures ok && t.source in fs.files ==> measured.sha == digest(fs.files[t.source]) && measured.size == |fs.files[t.source]|
    ensures fs.Quiet(old(fs.clock), fs.clock) ==> ok
  {
    ok, measured := true, t;
    if t.source in fs.files {
      var read := fs.ReadBytes(t.source);
      if read.ReadRaised? {
        return false, t;
      }
      measured := t.(sha := digest(read.bytes), size := |read.bytes|);
    }
  }

  /** Hashes and measures the source as it is, then copies it and writes its card. */
  method ImportAttachment(fs: FileSystem, s: Setting, req: Request, digest: Bytes -> string, render: AttachmentCard -> Bytes,
                          ghost parse: Bytes -> Option<AttachmentCard>)
    returns (r: ImportResult, target: Option<ImportTarget>)
    requires fs.Valid() && s.today != ""
    requires forall c :: parse(render(c)) == Some(c)
    requires forall b :: digest(b) != ""
    modifies fs
    ensures fs.Valid()
    ensures if target.None? then TargetOf(s, req).None? else TargetOf(s, req) == Some(target.value.(sha := "", size := 0))
    ensures r.ImportRefused? <==> r != NotHashed && !ImportAllowed(s, req, old(fs.files), old(fs.dirs))
    ensures r.ImportRefused? || r.NotHashed? ==> fs.files == old(fs.files) && fs.dirs == old(fs.dirs) && fs.trace == old(fs.trace)
    ensures r.Applied? || r.ImportFailed? ==> target.Some?
    ensures r.Applied? ==> r.warnings == [] && Imported(target.value, fs.files, digest, parse, old(fs.files))
    ensures r.ImportFailed? ==> TakenBack(r.cleanupWarnings, r.card, target.value.Paths(), fs.files, fs.Clean(), old(fs.files))
    ensures target.Some? ==> SameOutside(fs.files, old(fs.files), target.value.Paths().Touched())
    ensures old(fs.dirs) <= fs.dirs
    // Without faults only what stands in the way can stop an import that was allowed.
    ensures fs.Quiet(old(fs.clock), fs.clock) ==>
              && !r.NotHashed? && (r.ImportFailed? ==> StoppedByObstacle(r))
              && (r.Applied? <==> ImportAllowed(s, req, old(fs.files), old(fs.dirs)) && NothingInTheWay(s, req, old(fs.files), old(fs.dirs)))
  {
    target := TargetOf(s, req);
    if target.None? {
      return ImportRefused, None;
    }
    ghost var files0 := fs.files;
    var t := target.value;
    var hashed;
    hashed, t := Measured(fs, t, digest);
    if !hashed {
      return NotHashed, target;
    }
    target := Some(t);
    var allowed := Preflight(fs, s, req);
    if !allowed {
      return ImportRefused, target;
    }
    r := ImportAllowedTarget(fs, t, digest, render, parse);
  }

  ghost predicate NothingInTheWay(s: Setting, req: Request, files: Files, dirs: set<Path>)
    requires TargetOf(s, req).Some?
  {
    var p := TargetOf(s, req).value.Paths();
    Unobstructed(p, files, dirs) && SidecarsFree(CardWrite(p, []), files, dirs)
  }

  method ImportAllowedTarget(fs: FileSystem, t: ImportTarget, digest: Bytes -> string, render: AttachmentCard -> Bytes,
                             ghost parse: Bytes -> Option<AttachmentCard>) returns (r: ImportResult)
    requires fs.Valid() && Describable(t) && t.source in fs.files && PathsFree(t.Paths(), t.source, |t.root|, fs.files, fs.dirs)
    requires t.sha == digest(fs.files[t.source]) && t.sha != "" && t.size == |fs.files[t.source]|
    requires parse(render(CardOf(t))) == Some(CardOf(t))
    modifies fs
    ensures fs.Valid() && (r.Applied? || r.ImportFailed?) && old(fs.clock) <= fs.clock
    ensures r.Applied? ==> r.warnings == [] && Imported(t, fs.files, digest, parse, old(fs.files))
    ensures r.ImportFailed? ==> TakenBack(r.cleanupWarnings, r.card, t.Paths(), fs.files, fs.Clean(), old(fs.files))
    ensures SameOutside(fs.files, old(fs.files), t.Paths().Touched()) && old(fs.dirs) <= fs.dirs
    ensures fs.Quiet(old(fs.clock), fs.clock) && r.ImportFailed? ==> StoppedByObstacle(r)
    ensures fs.Quiet(old(fs.clock), fs.clock) ==>
              (r.Applied? <==> Unobstructed(t.Paths(), old(fs.files), old(fs.dirs))
                               && SidecarsFree(CardWrite(t.Paths(), []), old(fs.files), old(fs.dirs)))
  {
    ghost var files0 := fs.files;
    ImportPathsAreGood(t);
    var text := render(CardOf(t));
    r := CopyAndRecord(fs, t.source, t.Paths(), text, t.root);
    if r.Applied? {
      AppliedIsImported(t, text, fs.files, digest, parse, files0);
    }
  }

  // An import that loses a file

  const SCAN: Path := ["scan.pdf"]
  const SIMPLE_REQUEST := Request(Some(SCAN), "a", "b", "t", "", "", [])

  function SimpleSetting(): Setting {
    Setting([], LiveOperatingRoot, ReadableState, "d", date => true, ref => false)
  }

  lemma OneLetterIsEnough(s: string)
    requires |s| == 1 && 'a' <= s[0] <= 'z'
    ensures HasLetterOrDigit(s) && HasWord(s)
  {
    assert s[0] in s;
  }

  lemma ScanIsPdf()
    ensures Lower(Suffix("scan.pdf")) == ".pdf"
  {
    assert "scan" + ".pdf" == "scan.pdf";
    SuffixOf("scan", ".pdf");
    LowerKeeps(".pdf");
  }

  lemma SimpleRequestIsGood()
    ensures ArgumentsGood(SIMPLE_REQUEST, SimpleSetting().isoDate, SimpleSetting().conflict)
    ensures TargetOf(SimpleSetting(), SIMPLE_REQUEST).Some? && TargetOf(SimpleSetting(), SIMPLE_REQUEST).value.Ext() == ".pdf"
  {
    OneLetterIsEnough("a");
    OneLetterIsEnough("b");
    OneLetterIsEnough("t");
    ScanIsPdf();
    SlugIsSafe("a");
    SlugIsSafe("b");
    TitleIsEmptyWhen("t");
  }

  function DirsOf(dir: Path): set<Path> {
    set n: nat | n <= |dir| :: dir[..n]
  }

  lemma DirsOfAreDirs(dir: Path)
    ensures [] in DirsOf(dir) && dir in DirsOf(dir)
    ensures forall d :: d in DirsOf(dir) && d != [] ==> Parent(d) in DirsOf(dir)
    ensures forall d :: d in DirsOf(dir) ==> |d| <= |dir| && d == dir[..|d|]
  {
    assert dir[..0] == [] && dir[..|dir|] == dir;
    forall d | d in DirsOf(dir) && d != [] ensures Parent(d) in DirsOf(dir) {
      assert Parent(d) == dir[..|d| - 1];
    }
  }

  /** A root with the source, a file at the binary's temporary path, and one at the card's. */
  function CrowdedFiles(p: ImportPaths): Files {
    map[SCAN := [1], p.binaryTmp := [2], p.cardTmp := [3]]
  }

  ghost predicate ScanIsOutside(p: ImportPaths) {
    GoodPaths(p, SCAN, []) && |p.dir| == 4 && p.dir[0] != SCAN[0]
  }

  lemma CrowdedFilesAreWellFormed(p: ImportPaths)
    requires ScanIsOutside(p)
    ensures WellFormed(CrowdedFiles(p), DirsOf(p.dir))
  {
    DirsOfAreDirs(p.dir);
    assert Parent(SCAN) == [];
    forall d | d in DirsOf(p.dir) ensures d != SCAN && d != p.binaryTmp && d != p.cardTmp {
      assert d == p.dir[..|d|];
    }
  }

  lemma CrowdedPathsAreFree(p: ImportPaths)
    requires ScanIsOutside(p)
    ensures PathsFree(p, SCAN, 0, CrowdedFiles(p), DirsOf(p.dir))
    ensures p.binaryTmp != p.cardTmp && SCAN !in p.Touched()
  {
    DirsOfAreDirs(p.dir);
    assert |p.binary| == |p.binaryTmp| == |p.cardTmp| == |p.card| == 5;
    forall n | 0 < n < |p.dir| ensures p.dir[..n] !in CrowdedFiles(p) {
      assert p.dir[..n][0] != SCAN[0];
    }
  }

  lemma SimpleTargetIsOutside()
    ensures TargetOf(SimpleSetting(), SIMPLE_REQUEST).Some? && ScanIsOutside(TargetOf(SimpleSetting(), SIMPLE_REQUEST).value.Paths())
    ensures ArgumentsGood(SIMPLE_REQUEST, SimpleSetting().isoDate, SimpleSetting().conflict)
  {
    SimpleRequestIsGood();
    var t := TargetOf(SimpleSetting(), SIMPLE_REQUEST).value;
    ImportPathsAreGood(t);
    assert SCAN[0][0] == 's' && "project"[0] == 'p';
  }

  lemma CrowdedRootIsAllowed(p: ImportPaths)
    requires TargetOf(SimpleSetting(), SIMPLE_REQUEST).Some? && p == TargetOf(SimpleSetting(), SIMPLE_REQUEST).value.Paths()
    ensures WellFormed(CrowdedFiles(p), DirsOf(p.dir))
    ensures ImportAllowed(SimpleSetting(), SIMPLE_REQUEST, CrowdedFiles(p), DirsOf(p.dir))
    ensures p.binaryTmp != p.cardTmp && p.binaryTmp != SCAN && p.cardTmp != SCAN
  {
    SimpleTargetIsOutside();
    CrowdedFilesAreWellFormed(p);
    CrowdedPathsAreFree(p);
  }

  /** An import that is allowed and meets no fault, but finds a file at the card's temporary path, fails without a warning, and
      a file at the binary's temporary path is gone. */
  method ImportIntoCrowdedRoot(fs: FileSystem, s: Setting, req: Request, ghost p: ImportPaths, digest: Bytes -> string,
                               render: AttachmentCard -> Bytes, ghost parse: Bytes -> Option<AttachmentCard>)
    returns (r: ImportResult)
    requires fs.Valid() && s.today != "" && forall n, kind :: fs.schedule(n, kind).NoFault?
    requires (forall c :: parse(render(c)) == Some(c)) && (forall b :: digest(b) != "")
    requires ImportAllowed(s, req, fs.files, fs.dirs) && p == TargetOf(s, req).value.Paths()
    requires p.binaryTmp in fs.files && p.cardTmp in fs.files
    modifies fs
    ensures r.ImportFailed? && StoppedByObstacle(r) && fs.files == old(fs.files) - {p.binaryTmp}
  {
    var target;
    r, target := ImportAttachment(fs, s, req, digest, render, parse);
    SamePaths(target.value, TargetOf(s, req).value);
  }

  lemma SamePaths(t: ImportTarget, u: ImportTarget)
    requires u == t.(sha := "", size := 0)
    ensures t.Paths() == u.Paths()
  {
  }

  /** Such a root exists. */
  method FailedImportLosesFile(digest: Bytes -> string, render: AttachmentCard -> Bytes, ghost parse: Bytes -> Option<AttachmentCard>)
    returns (r: ImportResult, before: Files, after: Files, lost: Path)
    requires (forall c :: parse(render(c)) == Some(c)) && (forall b :: digest(b) != "")
    ensures r.ImportFailed? && StoppedByObstacle(r)
    ensures lost in before && after == before - {lost}
  {
    SimpleTargetIsOutside();
    var p := TargetOf(SimpleSetting(), SIMPLE_REQUEST).value.Paths();
    CrowdedRootIsAllowed(p);
    before, lost := CrowdedFiles(p), p.binaryTmp;
    var fs := new FileSystem(before, DirsOf(p.dir), (step, kind) => NoFault);
    r := ImportIntoCrowdedRoot(fs, SimpleSetting(), SIMPLE_REQUEST, p, digest, render, parse);
    after := fs.files;
  }
}
