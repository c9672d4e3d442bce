/** The context-memory capsule: a generated summary that is trusted only while it matches freshly computed source rows. */
module ContextMemory {
  import opened Common
  import opened FileSystems
  import opened Operations
  import opened Cleanup
  import opened AtomicFiles
  import opened WorkClaims

  /** One source as recorded or recomputed; `details` stands for the fields that the check does not compare. */
  datatype SourceRow = SourceRow(rel: string, status: string, sha: string, details: string)

  /** An element of `source_refs`: anything but an object is malformed. */
  datatype RecordedRef = MalformedRef | Ref(row: SourceRow)

  /** `refs` is absent when `source_refs` is not a list; `body` stands for the remaining fields. */
  datatype Capsule = Capsule(schema: string, status: string, hashAlgorithm: string, capsuleId: string, createdAt: string,
                             refs: Option<seq<RecordedRef>>, body: string)

  const CONTEXT_MEMORY_SCHEMA := "mylittleharness.source-bound-context-memory-capsule.v1"
  const CURRENT := "current"
  const SHA256 := "sha256"

  // Source rows

  const CORE_SOURCE_REFS: seq<string> := ["AGENTS.md", "project/project-state.md", "project/roadmap.md"]

  function DropDotSlash(s: string): string {
    if |s| >= 2 && s[0] == '.' && s[1] == '/' then DropDotSlash(s[2..]) else s
  }

  function DropTrailingSlashes(s: string): string {
    if s != "" && s[|s| - 1] == '/' then DropTrailingSlashes(s[..|s| - 1]) else s
  }

  function NormalizeRel(s: string): string {
    DropTrailingSlashes(DropDotSlash(NormalizeRef(s)))
  }

  /** `r` is `n` without leading `./` and without trailing slashes. */
  ghost predicate IsRelative(r: string, n: string) {
    exists k: nat, m: nat :: IsCut(r, n, k, m)
  }

  ghost predicate IsCut(r: string, n: string, k: nat, m: nat) {
    && 2 * k <= m <= |n| && r == n[2 * k..m]
    && StartsWithDotSlashes(n, k)
    && (forall i :: m <= i < |n| ==> n[i] == '/')
    && !StartsWith(r, "./") && !EndsWith(r, "/")
  }

  ghost predicate StartsWithDotSlashes(n: string, k: nat) {
    2 * k <= |n| && forall i :: 0 <= i < k ==> n[2 * i] == '.' && n[2 * i + 1] == '/'
  }

  lemma {:induction false} DropDotSlashDrops(s: string) returns (k: nat)
    ensures StartsWithDotSlashes(s, k) && DropDotSlash(s) == s[2 * k..] && !StartsWith(s[2 * k..], "./")
  {
    k := 0;
    if |s| >= 2 && s[0] == '.' && s[1] == '/' {
      var rest := s[2..];
      var j := DropDotSlashDrops(rest);
      k := j + 1;
      assert rest[2 * j..] == s[2 * k..];
      forall i | 0 <= i < k ensures s[2 * i] == '.' && s[2 * i + 1] == '/' {
        if i > 0 {
          assert rest[2 * (i - 1)] == '.' && rest[2 * (i - 1) + 1] == '/';
        }
      }
    } else if |s| >= 2 {
      assert s[2 * k..][..2] == s[..2];
      assert s[..2][0] == s[0] && s[..2][1] == s[1];
    }
  }

  lemma {:induction false} DropTrailingSlashesDrops(s: string) returns (m: nat)
    ensures m <= |s| && DropTrailingSlashes(s) == s[..m] && !EndsWith(s[..m], "/")
    ensures forall i :: m <= i < |s| ==> s[i] == '/'
  {
    m := |s|;
    if s != "" && s[|s| - 1] == '/' {
      var front := s[..|s| - 1];
      m := DropTrailingSlashesDrops(front);
      assert front[..m] == s[..m];
      forall i | m <= i < |s| ensures s[i] == '/' {
        if i < |front| { assert front[i] == '/'; }
      }
    } else if s != "" {
      assert s[..m] == s && s[|s| - 1..] == [s[|s| - 1]];
    }
  }

  /** A source path is normalized like a reference, then made relative. */
  lemma NormalizeRelIs(s: string)
    ensures IsNormalized(NormalizeRef(s), s) && IsRelative(NormalizeRel(s), NormalizeRef(s))
  {
    var n := NormalizeRef(s);
    NormalizeRefIs(s);
    var k := DropDotSlashDrops(n);
    var m := DropTrailingSlashesDrops(n[2 * k..]);
    CutTwice(n, k, 2 * k, m);
  }

  lemma CutTwice(n: string, k: nat, d: nat, m: nat)
    requires d == 2 * k && d <= |n| && m <= |n| - d && StartsWithDotSlashes(n, k)
    requires !StartsWith(n[d..], "./") && !EndsWith(n[d..][..m], "/") && forall i :: m <= i < |n[d..]| ==> n[d..][i] == '/'
    ensures IsRelative(n[d..][..m], n)
  {
    CutOnce(n, d, m);
    assert IsCut(n[d..d + m], n, k, d + m);
  }

  lemma CutOnce(n: string, d: nat, m: nat)
    requires d <= |n| && m <= |n| - d && forall i :: m <= i < |n[d..]| ==> n[d..][i] == '/'
    ensures n[d..][..m] == n[d..d + m]
    ensures forall i :: d + m <= i < |n| ==> n[i] == '/'
    ensures StartsWith(n[d..d + m], "./") ==> StartsWith(n[d..], "./")
  {
    var x := n[d..];
    forall i | d + m <= i < |n| ensures n[i] == '/' {
      assert x[i - d] == n[i];
    }
    if StartsWith(n[d..d + m], "./") {
      assert n[d..d + m][..2] == x[..2];
    }
  }

  ghost predicate DistinctRels(rows: seq<SourceRow>) {
    forall i, j :: 0 <= i < j < |rows| ==> rows[i].rel != rows[j].rel
  }

  /** The row of a path is about that path. */
  ghost predicate Labelled(look: string -> SourceRow) {
    forall rel :: look(rel).rel == rel
  }

  ghost predicate HasRel(rows: seq<SourceRow>, rel: string) {
    exists i :: 0 <= i < |rows| && rows[i].rel == rel
  }

  ghost predicate NormalizedBefore(rels: seq<string>, n: nat, rel: string) {
    rel != "" && exists i :: 0 <= i < n && i < |rels| && NormalizeRel(rels[i]) == rel
  }

  lemma NormalizedStep(rels: seq<string>, n: nat, rel: string)
    requires n < |rels|
    ensures NormalizedBefore(rels, n + 1, rel) <==> NormalizedBefore(rels, n, rel) || (rel != "" && NormalizeRel(rels[n]) == rel)
  {
  }

  ghost predicate IsSource(rel: string, extra: seq<string>) {
    NormalizedBefore(CORE_SOURCE_REFS + extra, |CORE_SOURCE_REFS + extra|, rel)
  }

  /** One row for each distinct non-empty normalized path, and no other. */
  ghost predicate RowsOfSources(rows: seq<SourceRow>, extra: seq<string>, look: string -> SourceRow) {
    && DistinctRels(rows)
    && (forall i :: 0 <= i < |rows| ==> rows[i] == look(rows[i].rel))
    && (forall rel :: HasRel(rows, rel) <==> IsSource(rel, extra))
  }

  method DistinctSources(extra: seq<string>) returns (deduped: seq<string>)
    ensures Distinct(deduped)
    ensures forall rel :: rel in deduped <==> IsSource(rel, extra)
  {
    var rels := CORE_SOURCE_REFS + extra;
    deduped := [];
    var seen: set<string> := {};
    for i := 0 to |rels|
      invariant forall rel :: rel in deduped <==> rel in seen
      invariant forall rel :: rel in seen <==> NormalizedBefore(rels, i, rel)
      invariant Distinct(deduped)
    {
      forall rel ensures NormalizedBefore(rels, i + 1, rel) <==> NormalizedBefore(rels, i, rel) || (rel != "" && NormalizeRel(rels[i]) == rel) {
        NormalizedStep(rels, i, rel);
      }
      var normalized := NormalizeRel(rels[i]);
      if normalized != "" && normalized !in seen {
        seen := seen + {normalized};
        deduped := deduped + [normalized];
      }
    }
  }

  /** Core sources come first. */
  method SourceRefRows(extra: seq<string>, look: string -> SourceRow) returns (rows: seq<SourceRow>)
    requires Labelled(look)
    ensures RowsOfSources(rows, extra, look) && rows != []
  {
    var deduped := DistinctSources(extra);
    rows := seq(|deduped|, i requires 0 <= i < |deduped| => look(deduped[i]));
    forall rel ensures HasRel(rows, rel) <==> rel in deduped {
      if rel in deduped {
        var i :| 0 <= i < |deduped| && deduped[i] == rel;
        assert rows[i].rel == rel;
      }
    }
    AgentsIsASource();
    assert (CORE_SOURCE_REFS + extra)[0] == "AGENTS.md";
    assert NormalizeRel("AGENTS.md") in deduped;
  }

  lemma AgentsIsASource()
    ensures NormalizeRel("AGENTS.md") != ""
  {
    var s := "AGENTS.md";
    var f := ForwardSlashes(s);
    assert f[0] == 'A' && f[|f| - 1] == 'd';
    assert StripLeft(f) == f && StripRight(f) == f;
    assert DropDotSlash(f) == f && DropTrailingSlashes(f) == f;
  }

  // The self-digest

  function StampChars(s: string): string {
    if s == "" then ""
    else if s[0] in {':', '-', '.'} then StampChars(s[1..])
    else [if s[0] == '+' then 'z' else s[0]] + StampChars(s[1..])
  }

  function Stamp(createdAt: string): string {
    var s := StampChars(createdAt);
    var t := if |s| <= 15 then s else s[..15];
    if t == "" then "unknown-time" else t
  }

  lemma {:induction false} StampCharsJoin(a: string, b: string)
    ensures StampChars(a + b) == StampChars(a) + StampChars(b)
  {
    if a == "" {
      assert a + b == b;
    } else {
      assert (a + b)[1..] == a[1..] + b;
      StampCharsJoin(a[1..], b);
    }
  }

  ghost predicate AllDigits(s: string) {
    forall i :: 0 <= i < |s| ==> '0' <= s[i] <= '9'
  }

  lemma {:induction false} DigitsStay(s: string)
    requires AllDigits(s)
    ensures StampChars(s) == s
  {
    if s != "" {
      DigitsStay(s[1..]);
    }
  }

  lemma SeparatorGoes(a: string, stamp: string, separator: string, digits: string)
    requires StampChars(a) == stamp && AllDigits(digits) && separator in {"-", ":", "T"}
    ensures StampChars(a + separator + digits) == stamp + (if separator == "T" then "T" else "") + digits
  {
    StampCharsJoin(a, separator);
    StampCharsJoin(a + separator, digits);
    DigitsStay(digits);
    SingleStampChars();
  }

  /** The stamp of a time is its date and time of day without the separators. */
  lemma StampOfTime(date: string, month: string, day: string, hour: string, minute: string, second: string, rest: string)
    requires |date| == 4 && |month| == |day| == |hour| == |minute| == |second| == 2
    requires AllDigits(date) && AllDigits(month) && AllDigits(day) && AllDigits(hour) && AllDigits(minute) && AllDigits(second)
    ensures Stamp(date + "-" + month + "-" + day + "T" + hour + ":" + minute + ":" + second + rest)
            == date + month + day + "T" + hour + minute + second
  {
    var time := date + "-" + month + "-" + day + "T" + hour + ":" + minute + ":" + second;
    var stamp := date + month + day + "T" + hour + minute + second;
    DigitsStay(date);
    SeparatorGoes(date, date, "-", month);
    SeparatorGoes(date + "-" + month, date + month, "-", day);
    TimeOfDayStays(date + "-" + month + "-" + day, date + month + day, hour, minute, second);
    StampCharsJoin(time, rest);
    assert (stamp + StampChars(rest))[..15] == stamp;
  }

  lemma ColonGoes(a: string, stamp: string, digits: string)
    requires StampChars(a) == stamp && AllDigits(digits)
    ensures StampChars(a + ":" + digits) == stamp + digits
  {
    SeparatorGoes(a, stamp, ":", digits);
    assert stamp + "" + digits == stamp + digits;
  }

  lemma TimeOfDayStays(day: string, stamp: string, hour: string, minute: string, second: string)
    requires StampChars(day) == stamp && AllDigits(hour) && AllDigits(minute) && AllDigits(second)
    ensures StampChars(day + "T" + hour + ":" + minute + ":" + second) == stamp + "T" + hour + minute + second
  {
    var at, stampAt := day + "T" + hour, stamp + "T" + hour;
    SeparatorGoes(day, stamp, "T", hour);
    ColonGoes(at, stampAt, minute);
    ColonGoes(at + ":" + minute, stampAt + minute, second);
  }

  lemma SingleStampChars()
    ensures StampChars("-") == "" && StampChars(":") == "" && StampChars("T") == "T"
  {
    assert "-"[1..] == "" && ":"[1..] == "" && "T"[1..] == "";
  }

  /** The id covers the whole capsule but itself; `digest` is the truncated hash of the rendered payload. */
  function CapsuleId(c: Capsule, digest: Capsule -> string): string {
    Stamp(c.createdAt) + "-" + digest(c.(capsuleId := ""))
  }

  function BuildCapsule(rows: seq<SourceRow>, createdAt: string, body: string, digest: Capsule -> string): Capsule {
    var blank := Capsule(CONTEXT_MEMORY_SCHEMA, CURRENT, SHA256, "", createdAt, Some(RefsOf(rows)), body);
    blank.(capsuleId := CapsuleId(blank, digest))
  }

  function RefsOf(rows: seq<SourceRow>): seq<RecordedRef> {
    seq(|rows|, i requires 0 <= i < |rows| => Ref(rows[i]))
  }

  // The freshness check

  datatype Staleness =
    | SchemaMismatch | StatusNotCurrent | AlgorithmMismatch | IdMissing | IdMismatch | RefsMissing | RefsEmpty
    | Malformed | Duplicate(rel: string) | Unexpected(rel: string) | Changed(rel: string) | Unsafe(rel: string) | Lost(rel: string)

  datatype Freshness = Absent | Current | Stale

  const UNSAFE_STATUSES: set<string> := {"unsafe", "unreadable"}

  ghost predicate HeaderMatches(c: Capsule, digest: Capsule -> string) {
    && c.schema == "mylittleharness.source-bound-context-memory-capsule.v1" && c.status == "current" && c.hashAlgorithm == "sha256"
    && c.capsuleId != "" && c.capsuleId == CapsuleId(c, digest)
  }

  ghost predicate SameFields(a: SourceRow, b: SourceRow) {
    a.rel == b.rel && a.status == b.status && a.sha == b.sha
  }

  ghost predicate HasMatch(row: SourceRow, rows: seq<SourceRow>) {
    exists i :: 0 <= i < |rows| && SameFields(row, rows[i])
  }

  ghost predicate EachHasMatch(a: seq<SourceRow>, b: seq<SourceRow>) {
    forall i :: 0 <= i < |a| ==> HasMatch(a[i], b)
  }

  /** The rows match one to one, in path, status and digest. */
  ghost predicate OneToOne(a: seq<SourceRow>, b: seq<SourceRow>) {
    |a| == |b| && DistinctRels(a) && DistinctRels(b) && EachHasMatch(a, b) && EachHasMatch(b, a)
  }

  ghost predicate AllSafe(rows: seq<SourceRow>) {
    forall i :: 0 <= i < |rows| ==> rows[i].status != "unsafe" && rows[i].status != "unreadable"
  }

  ghost predicate AllRows(refs: seq<RecordedRef>) {
    forall i :: 0 <= i < |refs| ==> refs[i].Ref?
  }

  ghost function RowsOf(refs: seq<RecordedRef>): seq<SourceRow>
    requires AllRows(refs)
  {
    seq(|refs|, i requires 0 <= i < |refs| => refs[i].row)
  }

  /** The exact meaning of `current`: the header and self-digest match, there are rows, they match the fresh ones one to one, and
      none is unsafe or unreadable. */
  ghost predicate IsCurrent(c: Capsule, sources: seq<SourceRow>, digest: Capsule -> string) {
    && HeaderMatches(c, digest)
    && c.refs.Some? && c.refs.value != [] && AllRows(c.refs.value)
    && OneToOne(RowsOf(c.refs.value), sources) && AllSafe(RowsOf(c.refs.value))
  }

  /** What one pass over the references establishes about the first `n` of them. */
  ghost predicate CleanRefs(refs: seq<RecordedRef>, n: nat, sources: seq<SourceRow>) {
    forall k :: 0 <= k < n <= |refs| ==>
      && refs[k].Ref?
      && (forall j :: 0 <= j < k ==> refs[j].Ref? ==> refs[j].row.rel != refs[k].row.rel)
      && HasMatch(refs[k].row, sources)
      && refs[k].row.status != "unsafe" && refs[k].row.status != "unreadable"
  }

  ghost predicate Recorded(refs: seq<RecordedRef>, n: nat, rel: string) {
    exists k :: 0 <= k < n <= |refs| && refs[k].Ref? && refs[k].row.rel == rel
  }

  ghost predicate Covered(refs: seq<RecordedRef>, sources: seq<SourceRow>, n: nat) {
    forall i :: 0 <= i < n <= |sources| ==> Recorded(refs, |refs|, sources[i].rel)
  }

  method HeaderStaleness(c: Capsule, digest: Capsule -> string) returns (stale: seq<Staleness>)
    ensures stale == [] <==> HeaderMatches(c, digest)
  {
    stale := [];
    if c.schema != CONTEXT_MEMORY_SCHEMA { stale := stale + [SchemaMismatch]; }
    if c.status != CURRENT { stale := stale + [StatusNotCurrent]; }
    if c.hashAlgorithm != SHA256 { stale := stale + [AlgorithmMismatch]; }
    if c.capsuleId == "" {
      stale := stale + [IdMissing];
    } else if c.capsuleId != CapsuleId(c, digest) {
      stale := stale + [IdMismatch];
    }
  }

  /** The fresh rows by path. */
  ghost predicate Indexes(expected: map<string, SourceRow>, sources: seq<SourceRow>) {
    && (forall i :: 0 <= i < |sources| ==> sources[i].rel in expected && expected[sources[i].rel] == sources[i])
    && (forall rel :: rel in expected ==> HasRel(sources, rel))
  }

  method ExpectedRefs(sources: seq<SourceRow>) returns (expected: map<string, SourceRow>)
    requires DistinctRels(sources)
    ensures Indexes(expected, sources)
  {
    expected := map[];
    for i := 0 to |sources|
      invariant forall rel :: rel in expected ==> HasRel(sources, rel)
      invariant forall j :: 0 <= j < i ==> sources[j].rel in expected && expected[sources[j].rel] == sources[j]
    {
      expected := expected[sources[i].rel := sources[i]];
    }
  }

  lemma IndexDecidesMatch(expected: map<string, SourceRow>, sources: seq<SourceRow>, row: SourceRow)
    requires Indexes(expected, sources)
    ensures HasMatch(row, sources) <==> row.rel in expected && SameFields(row, expected[row.rel])
  {
    if row.rel in expected && SameFields(row, expected[row.rel]) {
      var j :| 0 <= j < |sources| && sources[j].rel == row.rel;
      assert SameFields(row, sources[j]);
    }
  }

  /** What the check says about one reference to a path not recorded before. */
  method RowStaleness(row: SourceRow, expected: map<string, SourceRow>, ghost sources: seq<SourceRow>, look: string -> SourceRow)
    returns (stale: seq<Staleness>)
    requires Indexes(expected, sources)
    ensures stale == [] <==> HasMatch(row, sources) && row.status != "unsafe" && row.status != "unreadable"
  {
    IndexDecidesMatch(expected, sources, row);
    stale := [];
    if row.rel !in expected {
      stale := stale + [Unexpected(row.rel)];
    }
    var current := if row.rel in expected then expected[row.rel] else look(row.rel);
    if current.status != row.status || current.sha != row.sha {
      stale := stale + [Changed(row.rel)];
    }
    if row.status in UNSAFE_STATUSES {
      stale := stale + [Unsafe(row.rel)];
    }
  }

  method RefStaleness(refs: seq<RecordedRef>, expected: map<string, SourceRow>, ghost sources: seq<SourceRow>, look: string -> SourceRow)
    returns (stale: seq<Staleness>, recorded: set<string>)
    requires Indexes(expected, sources)
    ensures stale == [] <==> CleanRefs(refs, |refs|, sources)
    ensures forall rel :: rel in recorded <==> Recorded(refs, |refs|, rel)
  {
    stale, recorded := [], {};
    for i := 0 to |refs|
      invariant forall rel :: rel in recorded <==> Recorded(refs, i, rel)
      invariant stale == [] <==> CleanRefs(refs, i, sources)
    {
      CleanRefsStep(refs, i, sources);
      RecordedStep(refs, i);
      if refs[i].MalformedRef? {
        stale := stale + [Malformed];
        continue;
      }
      var row := refs[i].row;
      if row.rel in recorded {
        stale := stale + [Duplicate(row.rel)];
        continue;
      }
      recorded := recorded + {row.rel};
      var found := RowStaleness(row, expected, sources, look);
      stale := stale + found;
    }
  }

  /** `latest` is absent when there is no capsule to read. */
  method CapsuleFreshnessStatus(latest: Option<Capsule>, sources: seq<SourceRow>, look: string -> SourceRow, digest: Capsule -> string)
    returns (freshness: Freshness, stale: seq<Staleness>)
    requires DistinctRels(sources)
    ensures freshness.Absent? <==> latest.None?
    ensures freshness.Current? <==> latest.Some? && IsCurrent(latest.value, sources, digest)
    ensures freshness.Stale? <==> stale != []
  {
    if latest.None? {
      return Absent, [];
    }
    var payload := latest.value;
    stale := HeaderStaleness(payload, digest);
    if payload.refs.None? {
      return Stale, [RefsMissing];
    }
    var refs := payload.refs.value;
    if refs == [] {
      stale := stale + [RefsEmpty];
    }
    var expected := ExpectedRefs(sources);
    var found, recorded := RefStaleness(refs, expected, sources, look);
    stale := stale + found;
    ghost var clean := stale == [];
    for i := 0 to |sources|
      invariant stale == [] <==> clean && Covered(refs, sources, i)
    {
      if sources[i].rel !in recorded {
        stale := stale + [Lost(sources[i].rel)];
      }
    }
    CleanIsOneToOne(refs, sources);
    freshness := if stale == [] then Current else Stale;
  }

  lemma RecordedStep(refs: seq<RecordedRef>, i: nat)
    requires i < |refs|
    ensures forall rel :: Recorded(refs, i + 1, rel) <==> Recorded(refs, i, rel) || (refs[i].Ref? && refs[i].row.rel == rel)
  {
    forall rel ensures Recorded(refs, i + 1, rel) <==> Recorded(refs, i, rel) || (refs[i].Ref? && refs[i].row.rel == rel) {
      if k :| 0 <= k < i + 1 && refs[k].Ref? && refs[k].row.rel == rel {
        assert k < i ==> Recorded(refs, i, rel);
      }
    }
  }

  lemma CleanRefsStep(refs: seq<RecordedRef>, i: nat, sources: seq<SourceRow>)
    requires i < |refs|
    ensures CleanRefs(refs, i + 1, sources) <==>
            && CleanRefs(refs, i, sources) && refs[i].Ref? && !Recorded(refs, i, refs[i].row.rel)
            && HasMatch(refs[i].row, sources) && refs[i].row.status != "unsafe" && refs[i].row.status != "unreadable"
  {
  }

  ghost function RelsOf(rows: seq<SourceRow>): seq<string> {
    seq(|rows|, i requires 0 <= i < |rows| => rows[i].rel)
  }

  /** Rows that match both ways are equally many. */
  lemma MatchingRowsAreAsMany(a: seq<SourceRow>, b: seq<SourceRow>)
    requires DistinctRels(a) && DistinctRels(b) && EachHasMatch(a, b) && EachHasMatch(b, a)
    ensures |a| == |b|
  {
    var ra, rb := RelsOf(a), RelsOf(b);
    assert Distinct(ra) && Distinct(rb);
    DistinctIffSetAsLarge(ra);
    DistinctIffSetAsLarge(rb);
    MatchedRels(a, b);
    MatchedRels(b, a);
    assert Elements(ra) == Elements(rb);
  }

  lemma MatchedRels(a: seq<SourceRow>, b: seq<SourceRow>)
    requires EachHasMatch(a, b)
    ensures Elements(RelsOf(a)) <= Elements(RelsOf(b))
  {
    forall rel | rel in RelsOf(a) ensures rel in RelsOf(b) {
      var i :| 0 <= i < |a| && RelsOf(a)[i] == rel;
      assert HasMatch(a[i], b);
      var j :| 0 <= j < |b| && SameFields(a[i], b[j]);
      assert RelsOf(b)[j] == rel;
    }
  }

  /** Passing the two loops is matching the fresh rows one to one. */
  lemma CleanIsOneToOne(refs: seq<RecordedRef>, sources: seq<SourceRow>)
    requires DistinctRels(sources)
    ensures CleanRefs(refs, |refs|, sources) && Covered(refs, sources, |sources|)
            <==> AllRows(refs) && OneToOne(RowsOf(refs), sources) && AllSafe(RowsOf(refs))
  {
    if CleanRefs(refs, |refs|, sources) && Covered(refs, sources, |sources|) {
      CleanMatches(refs, sources);
    }
    if AllRows(refs) && OneToOne(RowsOf(refs), sources) && AllSafe(RowsOf(refs)) {
      MatchIsClean(refs, sources);
    }
  }

  lemma CleanMatches(refs: seq<RecordedRef>, sources: seq<SourceRow>)
    requires DistinctRels(sources) && CleanRefs(refs, |refs|, sources) && Covered(refs, sources, |sources|)
    ensures AllRows(refs) && OneToOne(RowsOf(refs), sources) && AllSafe(RowsOf(refs))
  {
    var rows := RowsOf(refs);
    assert DistinctRels(rows);
    forall i | 0 <= i < |rows| ensures HasMatch(rows[i], sources) {
      assert rows[i] == refs[i].row;
    }
    forall i | 0 <= i < |sources| ensures HasMatch(sources[i], rows) {
      assert Recorded(refs, |refs|, sources[i].rel);
      var k :| 0 <= k < |refs| && refs[k].row.rel == sources[i].rel;
      assert HasMatch(refs[k].row, sources);
      var j :| 0 <= j < |sources| && SameFields(refs[k].row, sources[j]);
      assert sources[j].rel == sources[i].rel;
      assert i == j;
      assert SameFields(sources[i], rows[k]);
    }
    MatchingRowsAreAsMany(rows, sources);
  }

  lemma MatchIsClean(refs: seq<RecordedRef>, sources: seq<SourceRow>)
    requires AllRows(refs) && OneToOne(RowsOf(refs), sources) && AllSafe(RowsOf(refs))
    ensures CleanRefs(refs, |refs|, sources) && Covered(refs, sources, |sources|)
  {
    var rows := RowsOf(refs);
    forall j, k | 0 <= j < k < |refs| ensures refs[j].row.rel != refs[k].row.rel {
      assert rows[j].rel != rows[k].rel;
    }
    forall k | 0 <= k < |refs|
      ensures HasMatch(refs[k].row, sources) && refs[k].row.status != "unsafe" && refs[k].row.status != "unreadable"
    {
      assert HasMatch(rows[k], sources);
    }
    forall i | 0 <= i < |sources| ensures Recorded(refs, |refs|, sources[i].rel) {
      assert HasMatch(sources[i], rows);
      var k :| 0 <= k < |rows| && SameFields(sources[i], rows[k]);
      assert refs[k].row.rel == sources[i].rel;
    }
  }

  // The round trip

  /** What is recorded: every source as it is, under the schema and the time given, in the state of being current. */
  lemma BuiltCapsuleRecords(rows: seq<SourceRow>, createdAt: string, body: string, digest: Capsule -> string)
    ensures var c := BuildCapsule(rows, createdAt, body, digest);
            && c.createdAt == createdAt && c.body == body && c.refs.Some? && |c.refs.value| == |rows|
            && (forall i :: 0 <= i < |rows| ==> c.refs.value[i] == Ref(rows[i]))
            && HeaderMatches(c, digest)
  {
    var c := BuildCapsule(rows, createdAt, body, digest);
    assert c.(capsuleId := "") == Capsule(CONTEXT_MEMORY_SCHEMA, CURRENT, SHA256, "", createdAt, Some(RefsOf(rows)), body);
  }

  /** A capsule built from the sources as they were is current exactly when none of them was unsafe or unreadable and they match
      the later ones one to one: any change of a status or a digest, and any source that comes or goes, makes it stale. */
  lemma BuiltCapsuleIsCurrent(rows: seq<SourceRow>, later: seq<SourceRow>, createdAt: string, body: string, digest: Capsule -> string)
    requires rows != []
    ensures IsCurrent(BuildCapsule(rows, createdAt, body, digest), later, digest) <==> AllSafe(rows) && OneToOne(rows, later)
  {
    BuiltCapsuleRecords(rows, createdAt, body, digest);
    assert RowsOf(BuildCapsule(rows, createdAt, body, digest).refs.value) == rows;
  }

  /** The sources are the same, with the same statuses and digests. */
  ghost predicate NothingChanged(extra: seq<string>, look: string -> SourceRow, laterExtra: seq<string>, laterLook: string -> SourceRow) {
    && (forall rel :: IsSource(rel, extra) <==> IsSource(rel, laterExtra))
    && (forall rel :: IsSource(rel, extra) ==> look(rel).status == laterLook(rel).status && look(rel).sha == laterLook(rel).sha)
  }

  lemma MatchMeansNothingChanged(rows: seq<SourceRow>, later: seq<SourceRow>, extra: seq<string>, look: string -> SourceRow,
                                 laterExtra: seq<string>, laterLook: string -> SourceRow)
    requires RowsOfSources(rows, extra, look) && RowsOfSources(later, laterExtra, laterLook)
    ensures OneToOne(rows, later) <==> NothingChanged(extra, look, laterExtra, laterLook)
  {
    if OneToOne(rows, later) {
      MatchedSources(rows, later, extra, look, laterExtra, laterLook);
      MatchedSources(later, rows, laterExtra, laterLook, extra, look);
    }
    if NothingChanged(extra, look, laterExtra, laterLook) {
      UnchangedSourcesMatch(rows, later, extra, look, laterExtra, laterLook);
      UnchangedSourcesMatch(later, rows, laterExtra, laterLook, extra, look);
      MatchingRowsAreAsMany(rows, later);
    }
  }

  lemma MatchedSources(a: seq<SourceRow>, b: seq<SourceRow>, extra: seq<string>, look: string -> SourceRow,
                       otherExtra: seq<string>, otherLook: string -> SourceRow)
    requires RowsOfSources(a, extra, look) && RowsOfSources(b, otherExtra, otherLook) && EachHasMatch(a, b)
    ensures forall rel :: IsSource(rel, extra) ==>
              IsSource(rel, otherExtra) && look(rel).status == otherLook(rel).status && look(rel).sha == otherLook(rel).sha
  {
    forall rel | IsSource(rel, extra)
      ensures IsSource(rel, otherExtra) && look(rel).status == otherLook(rel).status && look(rel).sha == otherLook(rel).sha
    {
      assert HasRel(a, rel);
      var i :| 0 <= i < |a| && a[i].rel == rel;
      assert HasMatch(a[i], b);
      var j :| 0 <= j < |b| && SameFields(a[i], b[j]);
      assert HasRel(b, rel);
    }
  }

  lemma UnchangedSourcesMatch(a: seq<SourceRow>, b: seq<SourceRow>, extra: seq<string>, look: string -> SourceRow,
                              otherExtra: seq<string>, otherLook: string -> SourceRow)
    requires RowsOfSources(a, extra, look) && RowsOfSources(b, otherExtra, otherLook)
    requires forall rel :: IsSource(rel, extra) ==> IsSource(rel, otherExtra)
    requires forall rel :: IsSource(rel, extra) ==> look(rel).status == otherLook(rel).status && look(rel).sha == otherLook(rel).sha
    ensures EachHasMatch(a, b)
  {
    forall i | 0 <= i < |a| ensures HasMatch(a[i], b) {
      assert HasRel(a, a[i].rel);
      assert HasRel(b, a[i].rel);
      var j :| 0 <= j < |b| && b[j].rel == a[i].rel;
      assert SameFields(a[i], b[j]);
    }
  }

  ghost predicate DashFree(s: string) {
    '-' !in s
  }

  lemma LastDash(p: string, d: string, s: string)
    requires DashFree(d) && s == p + "-" + d
    ensures |s| == |p| + 1 + |d| && s[|p|] == '-' && d == s[|p| + 1..]
    ensures forall k :: |p| < k < |s| ==> s[k] != '-'
  {
    forall k | |p| < k < |s| ensures s[k] != '-' {
      assert s[k] == d[k - |p| - 1];
    }
  }

  /** With a digest that tells capsules apart, nothing in a capsule can be edited without the id giving it away. */
  lemma IdPinsTheCapsule(a: Capsule, b: Capsule, digest: Capsule -> string)
    requires HeaderMatches(a, digest) && HeaderMatches(b, digest) && a.capsuleId == b.capsuleId
    requires forall x: Capsule :: DashFree(digest(x))
    requires forall x: Capsule, y: Capsule :: digest(x) == digest(y) ==> x == y
    ensures a == b
  {
    var blankA, blankB := a.(capsuleId := ""), b.(capsuleId := "");
    LastDash(Stamp(a.createdAt), digest(blankA), a.capsuleId);
    LastDash(Stamp(b.createdAt), digest(blankB), b.capsuleId);
    assert |Stamp(a.createdAt)| == |Stamp(b.createdAt)|;
    assert digest(blankA) == digest(blankB);
    assert a == blankA.(capsuleId := a.capsuleId) && b == blankB.(capsuleId := b.capsuleId);
  }

  // Refreshing

  function CapsuleDir(root: Path): Path {
    root + [".mylittleharness", "generated", "context-memory"]
  }

  function LatestPath(root: Path): Path {
    CapsuleDir(root) + ["latest.json"]
  }

  function AtomicCapsuleWrite(dir: Path, name: string, text: Bytes): Operation {
    Write(dir + [name], dir + ["." + name + ".context-memory.tmp"], text, dir + ["." + name + ".context-memory.backup"])
  }

  /** The sidecars of the two files of a refresh. */
  ghost function CapsuleSidecars(root: Path, id: string): set<Path> {
    var dir := root + [".mylittleharness", "generated", "context-memory"];
    {dir + ["latest.json" + TMP], dir + ["latest.json" + BACKUP],
     dir + ["capsules", id + ".json" + TMP], dir + ["capsules", id + ".json" + BACKUP]}
  }

  const TMP := ".context-memory.tmp"
  const BACKUP := ".context-memory.backup"

  /** A capsule file and its visible sidecars. */
  function VisibleCapsuleWrite(dir: Path, name: string, text: Bytes): Operation {
    Write(dir + [name], dir + [name + TMP], text, dir + [name + BACKUP])
  }

  lemma CapsuleWriteIsVisible(dir: Path, name: string, text: Bytes)
    requires name != "" && name[0] != '.'
    ensures PortableSidecarOperation(AtomicCapsuleWrite(dir, name, text)) == VisibleCapsuleWrite(dir, name, text)
  {
    SidecarLosesItsDot(dir, name, TMP);
    SidecarLosesItsDot(dir, name, BACKUP);
  }

  lemma SidecarLosesItsDot(dir: Path, name: string, ending: string)
    requires name != "" && name[0] != '.'
    ensures PortableSidecarPath(dir + ["." + name + ending]) == dir + [name + ending]
  {
    var hidden := "." + name + ending;
    assert hidden[1..] == name + ending;
    assert StripDots(name + ending) == name + ending;
    assert (dir + [hidden])[..|dir|] == dir;
  }

  lemma CapsuleNamesDiffer(dir: Path, name: string)
    ensures dir + [name] != dir + [name + TMP] && dir + [name] != dir + [name + BACKUP] && dir + [name + TMP] != dir + [name + BACKUP]
  {
    assert |name| != |name + TMP| && |name| != |name + BACKUP| && |name + TMP| != |name + BACKUP|;
    assert (dir + [name])[|dir|] == name && (dir + [name + TMP])[|dir|] == name + TMP && (dir + [name + BACKUP])[|dir|] == name + BACKUP;
  }

  function CapsuleWrites(root: Path, id: string, text: Bytes): seq<Operation> {
    [AtomicCapsuleWrite(CapsuleDir(root), "latest.json", text), AtomicCapsuleWrite(CapsuleDir(root) + ["capsules"], id + ".json", text)]
  }

  lemma CapsuleWritesAreVisible(root: Path, id: string, text: Bytes)
    requires id != "" && id[0] != '.'
    ensures PortableSidecarOperations(CapsuleWrites(root, id, text))
            == [VisibleCapsuleWrite(CapsuleDir(root), "latest.json", text), VisibleCapsuleWrite(CapsuleDir(root) + ["capsules"], id + ".json", text)]
  {
    CapsuleWriteIsVisible(CapsuleDir(root), "latest.json", text);
    CapsuleWriteIsVisible(CapsuleDir(root) + ["capsules"], id + ".json", text);
  }

  lemma TwoWritesAreValid(ops: seq<Operation>, sidecars: set<Path>, a: Operation, b: Operation, root: Path, files: Files, dirs: set<Path>)
    requires a.Write? && b.Write? && ops == [a, b] && sidecars == {a.tmp, a.backup, b.tmp, b.backup}
    requires Separate(ops) && UnderRoot(a, Some(root)) && UnderRoot(b, Some(root))
    ensures ValidOperations(ops, files, dirs, Some(root)) <==> forall p :: p in sidecars ==> p !in files && p !in dirs
  {
    assert ops[0] == a && ops[1] == b;
  }

  lemma CapsuleSidecarsAre(root: Path, id: string, a: Operation, b: Operation, text: Bytes)
    requires a == VisibleCapsuleWrite(CapsuleDir(root), "latest.json", text)
    requires b == VisibleCapsuleWrite(CapsuleDir(root) + ["capsules"], id + ".json", text)
    ensures CapsuleSidecars(root, id) == {a.tmp, a.backup, b.tmp, b.backup}
  {
    var dir := CapsuleDir(root);
    assert dir + ["capsules"] + [id + ".json" + TMP] == dir + ["capsules", id + ".json" + TMP];
    assert dir + ["capsules"] + [id + ".json" + BACKUP] == dir + ["capsules", id + ".json" + BACKUP];
  }

  lemma VisibleWritesAreSeparate(root: Path, name: string, text: Bytes)
    ensures var dir := CapsuleDir(root);
            var a, b := VisibleCapsuleWrite(dir, "latest.json", text), VisibleCapsuleWrite(dir + ["capsules"], name, text);
            Separate([a, b]) && UnderRoot(a, Some(root)) && UnderRoot(b, Some(root))
  {
    var dir := CapsuleDir(root);
    var caps := dir + ["capsules"];
    CapsuleNamesDiffer(dir, "latest.json");
    CapsuleNamesDiffer(caps, name);
    CapsuleDirIsWithin(root);
    TwoDirectoriesAreSeparate(root, dir, caps, VisibleCapsuleWrite(dir, "latest.json", text), VisibleCapsuleWrite(caps, name, text));
  }

  /** The two writes, once their sidecars are visible. */
  lemma CapsulePlan(root: Path, id: string, text: Bytes) returns (a: Operation, b: Operation)
    requires id != "" && id[0] != '.'
    ensures a.Write? && b.Write? && PortableSidecarOperations(CapsuleWrites(root, id, text)) == [a, b]
    ensures Separate([a, b]) && UnderRoot(a, Some(root)) && UnderRoot(b, Some(root))
    ensures CapsuleSidecars(root, id) == {a.tmp, a.backup, b.tmp, b.backup}
  {
    a := VisibleCapsuleWrite(CapsuleDir(root), "latest.json", text);
    b := VisibleCapsuleWrite(CapsuleDir(root) + ["capsules"], id + ".json", text);
    CapsuleWritesAreVisible(root, id, text);
    VisibleWritesAreSeparate(root, id + ".json", text);
    CapsuleSidecarsAre(root, id, a, b, text);
  }

  /** A refresh is refused exactly when one of its sidecars is in the way. */
  lemma CapsuleWritesAreValid(root: Path, id: string, text: Bytes, files: Files, dirs: set<Path>)
    requires id != "" && id[0] != '.'
    ensures ValidOperations(PortableSidecarOperations(CapsuleWrites(root, id, text)), files, dirs, Some(root))
            <==> forall p :: p in CapsuleSidecars(root, id) ==> p !in files && p !in dirs
  {
    var a, b := CapsulePlan(root, id, text);
    TwoWritesAreValid(PortableSidecarOperations(CapsuleWrites(root, id, text)), CapsuleSidecars(root, id), a, b, root, files, dirs);
  }

  lemma CapsuleDirIsWithin(root: Path)
    ensures Within(root, CapsuleDir(root)) && Within(root, CapsuleDir(root) + ["capsules"])
  {
  }

  lemma TwoDirectoriesAreSeparate(root: Path, d: Path, e: Path, a: Operation, b: Operation)
    requires a.Write? && b.Write? && Within(root, d) && Within(root, e) && |d| != |e|
    requires a.target != a.tmp && a.target != a.backup && a.tmp != a.backup
    requires b.target != b.tmp && b.target != b.backup && b.tmp != b.backup
    requires forall p :: p in PathsOf(a) ==> |p| == |d| + 1 && p[..|d|] == d
    requires forall p :: p in PathsOf(b) ==> |p| == |e| + 1 && p[..|e|] == e
    ensures Separate([a, b]) && UnderRoot(a, Some(root)) && UnderRoot(b, Some(root))
  {
    forall p | p in PathsOf(a) ensures Within(root, p) {
      assert p[..|root|] == p[..|d|][..|root|];
    }
    forall p | p in PathsOf(b) ensures Within(root, p) {
      assert p[..|root|] == p[..|e|][..|root|];
    }
    assert PathsOf(a) !! PathsOf(b);
  }

  /** An id is never empty or hidden. */
  lemma IdIsVisible(c: Capsule, digest: Capsule -> string)
    ensures CapsuleId(c, digest) != "" && CapsuleId(c, digest)[0] != '.'
  {
    StampCharsAreClean(c.createdAt);
    var s := StampChars(c.createdAt);
    assert s != "" ==> s[0] in s;
  }

  lemma {:induction false} StampCharsAreClean(s: string)
    ensures forall c :: c in StampChars(s) ==> c != ':' && c != '-' && c != '.' && c != '+'
  {
    if s != "" {
      StampCharsAreClean(s[1..]);
    }
  }

  /** Builds a capsule from the sources as they are and writes it, with a copy in the history. */
  method RefreshCapsule(fs: FileSystem, root: Path, extra: seq<string>, look: string -> SourceRow, createdAt: string, body: string,
                        digest: Capsule -> string, render: Capsule -> Bytes)
    returns (written: bool, capsule: Capsule, ghost rows: seq<SourceRow>, ghost result: TransactionResult)
    requires fs.Valid() && Labelled(look)
    modifies fs
    ensures fs.Valid()
    ensures RowsOfSources(rows, extra, look) && rows != []
    ensures written ==> capsule == BuildCapsule(rows, createdAt, body, digest)
                        && At(fs.files, root + [".mylittleharness", "generated", "context-memory", "latest.json"]) == Some(render(capsule))
                        && At(fs.files, root + [".mylittleharness", "generated", "context-memory", "capsules", capsule.capsuleId + ".json"])
                           == Some(render(capsule))
    ensures !written ==> capsule == BuildCapsule(rows, createdAt, body, digest).(status := "write-refused")
    ensures written <==> result.Returned?
    ensures result.Refused? <==> exists p :: p in CapsuleSidecars(root, BuildCapsule(rows, createdAt, body, digest).capsuleId)
                                             && (p in old(fs.files) || p in old(fs.dirs))
    ensures result.Refused? || (NoRecoveryErrors(result) && fs.Clean()) ==> fs.files == old(fs.files) && fs.dirs == old(fs.dirs)
    ensures result.Failed? && result.rollbackErrors == [] ==> At(fs.files, LatestPath(root)) == old(At(fs.files, LatestPath(root)))
  {
    var sources := SourceRefRows(extra, look);
    rows := sources;
    capsule := BuildCapsule(sources, createdAt, body, digest);
    var rendered := render(capsule);
    var ops := CapsuleWrites(root, capsule.capsuleId, rendered);
    IdIsVisible(capsule.(capsuleId := ""), digest);
    CapsuleWritesAreValid(root, capsule.capsuleId, rendered, fs.files, fs.dirs);
    CapsuleTargetsAre(root, capsule.capsuleId, rendered);
    var r := WriteTargets(fs, ops, root);
    written, result := r.Returned?, r;
    assert ops[0].Write? && ops[1].Write?;
    if !written {
      capsule := capsule.(status := "write-refused");
    }
  }

  lemma CapsuleTargetsAre(root: Path, id: string, text: Bytes)
    ensures var ops := CapsuleWrites(root, id, text);
            && |ops| == 2 && ops[0].Write? && ops[1].Write? && ops[0].text == text && ops[1].text == text
            && ops[0].target == root + [".mylittleharness", "generated", "context-memory", "latest.json"] == LatestPath(root)
            && ops[1].target == root + [".mylittleharness", "generated", "context-memory", "capsules", id + ".json"]
  {
  }

  /** What a caller that only writes sees of the transaction. */
  method WriteTargets(fs: FileSystem, ops: seq<Operation>, root: Path) returns (r: TransactionResult)
    requires fs.Valid()
    modifies fs
    ensures fs.Valid()
    ensures ops != [] ==> (r.Refused? <==> !ValidOperations(PortableSidecarOperations(ops), old(fs.files), old(fs.dirs), Some(root)))
    ensures r.Returned? ==> forall i :: 0 <= i < |ops| ==> At(fs.files, ops[i].target) == Wanted(ops[i])
    ensures r.Refused? || (NoRecoveryErrors(r) && fs.Clean()) ==> fs.files == old(fs.files) && fs.dirs == old(fs.dirs)
    ensures r.Failed? && r.rollbackErrors == [] ==> forall i :: 0 <= i < |ops| ==> At(fs.files, ops[i].target) == old(At(fs.files, ops[i].target))
  {
    ghost var files0, planned := fs.files, PortableSidecarOperations(ops);
    ghost var failed, commit, recovery;
    r, failed, commit, recovery := ApplyFileTransaction(fs, ops, Some(root));
    forall i | 0 <= i < |ops|
      ensures r.Returned? ==> At(fs.files, ops[i].target) == Wanted(ops[i])
      ensures r.Failed? && r.rollbackErrors == [] ==> At(fs.files, ops[i].target) == At(files0, ops[i].target)
    {
      assert planned[i] == PortableSidecarOperation(ops[i]);
      if r.Returned? {
        assert Finished(View(fs.files, planned[i]), planned[i], r.warnings, files0);
      } else if r.Failed? {
        assert RecoveredSlot(View(fs.files, planned[i]), planned[i], i == failed && !fs.Clean(), fs.Partials(), r, files0);
      }
    }
  }

  /** An object without any field counts as no payload, like anything that is no object. */
  datatype Parsed = ParseFailed | NotAnObject | EmptyObject | Object(capsule: Capsule)

  const UNREADABLE := Capsule(CONTEXT_MEMORY_SCHEMA, "unreadable", "", "", "", None, "")

  /** A file that cannot be read or parsed gives a payload that can only be stale; a payload that is no object gives none. */
  method ReadLatestCapsule(fs: FileSystem, root: Path, parse: Bytes -> Parsed) returns (latest: Option<Capsule>)
    modifies fs`clock
    ensures LatestPath(root) !in fs.files ==> latest == None
    ensures LatestPath(root) in fs.files ==>
              latest == Some(UNREADABLE)
              || latest == match parse(fs.files[LatestPath(root)])
                           case ParseFailed => Some(UNREADABLE)
                           case NotAnObject => None
                           case EmptyObject => None
                           case Object(c) => Some(c)
    ensures LatestPath(root) in fs.files ==> fs.clock == old(fs.clock) + 1
    ensures latest == None <==> LatestPath(root) !in fs.files || (fs.Works(old(fs.clock), ReadStep) && NoPayload(fs, root, parse))
    ensures fs.Works(old(fs.clock), ReadStep) && LatestPath(root) in fs.files && parse(fs.files[LatestPath(root)]).Object?
            ==> latest == Some(parse(fs.files[LatestPath(root)]).capsule)
  {
    if LatestPath(root) !in fs.files {
      return None;
    }
    var read := fs.ReadBytes(LatestPath(root));
    if read.ReadRaised? {
      return Some(UNREADABLE);
    }
    match parse(read.bytes)
    case ParseFailed => latest := Some(UNREADABLE);
    case NotAnObject => latest := None;
    case EmptyObject => latest := None;
    case Object(c) => latest := Some(c);
  }

  ghost predicate NoPayload(fs: FileSystem, root: Path, parse: Bytes -> Parsed)
    reads fs
  {
    LatestPath(root) in fs.files && parse(fs.files[LatestPath(root)]) in {NotAnObject, EmptyObject}
  }

  /** Reads the capsule and judges it against the sources as they are now: `current` needs a capsule that was really read
      and really matches, whatever faults the read meets. */
  method CapsulePayload(fs: FileSystem, root: Path, extra: seq<string>, look: string -> SourceRow, digest: Capsule -> string,
                        parse: Bytes -> Parsed)
    returns (freshness: Freshness, stale: seq<Staleness>, ghost sources: seq<SourceRow>)
    requires Labelled(look)
    modifies fs`clock
    ensures RowsOfSources(sources, extra, look)
    ensures LatestPath(root) in fs.files ==> fs.clock == old(fs.clock) + 1
    ensures freshness.Absent? <==> LatestPath(root) !in fs.files || (fs.Works(old(fs.clock), ReadStep) && NoPayload(fs, root, parse))
    ensures freshness.Current? ==>
              && LatestPath(root) in fs.files && parse(fs.files[LatestPath(root)]).Object?
              && IsCurrent(parse(fs.files[LatestPath(root)]).capsule, sources, digest)
    ensures fs.Works(old(fs.clock), ReadStep) && LatestPath(root) in fs.files && parse(fs.files[LatestPath(root)]).Object?
            ==> (freshness.Current? <==> IsCurrent(parse(fs.files[LatestPath(root)]).capsule, sources, digest))
  {
    var latest := ReadLatestCapsule(fs, root, parse);
    var rows := SourceRefRows(extra, look);
    sources := rows;
    freshness, stale := CapsuleFreshnessStatus(latest, rows, look, digest);
  }

  /** A refresh that wrote, then a read over sources that may have changed: `current` exactly when no source was unsafe or
      unreadable, no source has come or gone, and every source has the status and the digest that it had. */
  method RefreshThenRead(fs: FileSystem, root: Path, extra: seq<string>, look: string -> SourceRow, createdAt: string, body: string,
                         laterExtra: seq<string>, laterLook: string -> SourceRow,
                         digest: Capsule -> string, render: Capsule -> Bytes, parse: Bytes -> Parsed)
    returns (written: bool, freshness: Freshness)
    requires fs.Valid() && Labelled(look) && Labelled(laterLook)
    requires forall c :: parse(render(c)) == Object(c)
    modifies fs
    ensures written && fs.clock > 0 && fs.Works(fs.clock - 1, ReadStep) ==>
              (freshness.Current? <==>
                 && NothingChanged(extra, look, laterExtra, laterLook)
                 && forall rel :: IsSource(rel, extra) ==> look(rel).status != "unsafe" && look(rel).status != "unreadable")
  {
    var capsule, stale;
    ghost var result, rows, later;
    written, capsule, rows, result := RefreshCapsule(fs, root, extra, look, createdAt, body, digest, render);
    assert root + [".mylittleharness", "generated", "context-memory", "latest.json"] == LatestPath(root);
    freshness, stale, later := CapsulePayload(fs, root, laterExtra, laterLook, digest, parse);
    BuiltCapsuleIsCurrent(rows, later, createdAt, body, digest);
    MatchMeansNothingChanged(rows, later, extra, look, laterExtra, laterLook);
    SafeSources(rows, extra, look);
  }

  lemma SafeSources(rows: seq<SourceRow>, extra: seq<string>, look: string -> SourceRow)
    requires RowsOfSources(rows, extra, look)
    ensures AllSafe(rows) <==> forall rel :: IsSource(rel, extra) ==> look(rel).status != "unsafe" && look(rel).status != "unreadable"
  {
    if AllSafe(rows) {
      forall rel | IsSource(rel, extra) ensures look(rel).status != "unsafe" && look(rel).status != "unreadable" {
        assert HasRel(rows, rel);
      }
    }
    forall i | 0 <= i < |rows| ensures IsSource(rows[i].rel, extra) {
      assert HasRel(rows, rows[i].rel);
    }
  }
}
