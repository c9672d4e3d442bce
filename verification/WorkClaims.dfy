/** When two work claims overlap, and the scans that look for overlapping claims. */
module WorkClaims {
  import opened Common
  import opened FileSystems

  // Paths, as text

  function Split(s: string): (parts: seq<string>)
    ensures parts != []
  {
    if s == "" then [""]
    else
      var rest := Split(s[1..]);
      if s[0] == '/' then [""] + rest else [[s[0]] + rest[0]] + rest[1..]
  }

  ghost function JoinedBySlashes(parts: seq<string>): string
    requires parts != []
  {
    if |parts| == 1 then parts[0] else parts[0] + "/" + JoinedBySlashes(parts[1..])
  }

  /** Splitting gives the parts between the slashes: no part has one, and joining them gives the text back. */
  lemma {:induction false} SplitJoins(s: string)
    ensures JoinedBySlashes(Split(s)) == s
    ensures forall part :: part in Split(s) ==> '/' !in part
  {
    if s != "" {
      SplitJoins(s[1..]);
      var rest := Split(s[1..]);
      assert s == [s[0]] + s[1..];
      if s[0] == '/' {
        assert ([""] + rest)[1..] == rest;
      } else {
        var first := [s[0]] + rest[0];
        assert ([first] + rest[1..])[1..] == rest[1..];
        assert rest[0] in rest;
        assert forall part :: part in rest[1..] ==> part in rest;
      }
    }
  }

  function StripLeft(s: string): string {
    if s != "" && IsSpace(s[0]) then StripLeft(s[1..]) else s
  }

  function StripRight(s: string): string {
    if s != "" && IsSpace(s[|s| - 1]) then StripRight(s[..|s| - 1]) else s
  }

  function ForwardSlashes(s: string): string {
    seq(|s|, i requires 0 <= i < |s| => if s[i] == '\\' then '/' else s[i])
  }

  function NormalizeRef(s: string): string {
    StripRight(StripLeft(ForwardSlashes(s)))
  }

  ghost predicate IsWhite(s: string) {
    forall i :: 0 <= i < |s| ==> s[i] in {' ', '\t', '\n', '\r'}
  }

  /** `n` is what stands between the white space at both ends of `s`, with slashes for backslashes. */
  ghost predicate IsNormalized(n: string, s: string) {
    exists a: nat, b: nat :: IsMiddle(n, s, a, b)
  }

  ghost predicate IsMiddle(n: string, s: string, a: nat, b: nat) {
    && a <= b <= |s| && |n| == b - a && IsWhite(s[..a]) && IsWhite(s[b..])
    && (forall i :: 0 <= i < |n| ==> n[i] == if s[a + i] == '\\' then '/' else s[a + i])
    && (n != "" ==> !IsWhite(n[..1]) && !IsWhite(n[|n| - 1..]))
  }

  lemma {:induction false} StripLeftDrops(s: string) returns (a: nat)
    ensures a <= |s| && StripLeft(s) == s[a..] && IsWhite(s[..a]) && (a < |s| ==> !IsWhite([s[a]]))
  {
    a := 0;
    if s != "" && IsSpace(s[0]) {
      var b := StripLeftDrops(s[1..]);
      a := b + 1;
      assert s[1..][b..] == s[a..];
      assert s[..a] == [s[0]] + s[1..][..b];
    } else if s != "" {
      assert [s[0]][0] == s[0];
    }
  }

  lemma {:induction false} StripRightDrops(s: string) returns (b: nat)
    ensures b <= |s| && StripRight(s) == s[..b] && IsWhite(s[b..]) && (b > 0 ==> !IsWhite([s[b - 1]]))
  {
    b := |s|;
    if s != "" && IsSpace(s[|s| - 1]) {
      var front := s[..|s| - 1];
      b := StripRightDrops(front);
      assert front[..b] == s[..b];
      assert s[b..] == front[b..] + [s[|s| - 1]];
    } else if s != "" {
      assert [s[|s| - 1]][0] == s[|s| - 1];
    }
  }

  /** Normalizing does that and nothing else. */
  lemma NormalizeRefIs(s: string)
    ensures IsNormalized(NormalizeRef(s), s)
  {
    var f := ForwardSlashes(s);
    var a := StripLeftDrops(f);
    var left := f[a..];
    var c := StripRightDrops(left);
    var b := a + c;
    var n := NormalizeRef(s);
    assert n == left[..c] == f[a..b];
    forall i | 0 <= i < a ensures s[..a][i] in {' ', '\t', '\n', '\r'} {
      assert f[..a][i] == f[i];
    }
    forall i | 0 <= i < |s| - b ensures s[b..][i] in {' ', '\t', '\n', '\r'} {
      assert left[c..][i] == f[b + i];
    }
    if n != "" {
      assert n[..1] == [f[a]] && n[|n| - 1..] == [left[c - 1]];
    }
    assert IsMiddle(n, s, a, b);
  }

  /** Whether the components of the shorter path start the longer one. */
  predicate PathsOverlap(left: string, right: string) {
    var l, r := Split(NormalizeRef(left)), Split(NormalizeRef(right));
    if |l| <= |r| then r[..|l|] == l else l[..|r|] == r
  }

  /** What claiming a path means: the path itself and everything under it. */
  ghost predicate Covers(claimed: string, file: string) {
    var c := NormalizeRef(claimed);
    LiesUnder(c, file)
  }

  ghost predicate LiesUnder(c: string, file: string) {
    file == c || (|c| < |file| && file[..|c|] == c && file[|c|] == '/')
  }

  /** Comparing components is comparing text up to a separator. */
  lemma {:induction false} SplitStartsWith(c: string, file: string)
    ensures StartsWith(Split(file), Split(c)) <==> LiesUnder(c, file)
  {
    if c == "" {
      assert Split(c) == [""];
      assert Split(file)[..1] == [Split(file)[0]];
    } else if file == "" {
      assert Split(file) == [""];
      if c[0] == '/' {
        assert |Split(c)| >= 2;
      } else {
        assert Split(c)[0] != "";
      }
    } else {
      SplitStartsWith(c[1..], file[1..]);
      var cs, fs := Split(c[1..]), Split(file[1..]);
      assert LiesUnder(c, file) <==> c[0] == file[0] && LiesUnder(c[1..], file[1..]) by {
        if c[0] == file[0] {
          assert c == [c[0]] + c[1..] && file == [c[0]] + file[1..];
          if |c| <= |file| {
            assert file[..|c|] == [c[0]] + file[1..][..|c| - 1];
          }
        }
      }
      if c[0] == file[0] == '/' {
        SharedHead("", fs, cs);
      } else if c[0] == '/' || file[0] == '/' {
        assert Split(c)[0] != Split(file)[0];
        DifferentHeads(Split(file), Split(c));
      } else if c[0] != file[0] {
        assert Split(c)[0][0] != Split(file)[0][0];
        DifferentHeads(Split(file), Split(c));
      } else {
        ExtendedHead(c[0], fs, cs);
      }
    }
  }

  lemma SharedHead(h: string, longer: seq<string>, shorter: seq<string>)
    ensures StartsWith([h] + longer, [h] + shorter) <==> StartsWith(longer, shorter)
  {
    if |shorter| <= |longer| {
      assert ([h] + longer)[..|shorter| + 1] == [h] + longer[..|shorter|];
      assert longer[..|shorter|] == ([h] + longer[..|shorter|])[1..];
      assert shorter == ([h] + shorter)[1..];
    }
  }

  lemma DifferentHeads(longer: seq<string>, shorter: seq<string>)
    requires longer != [] && shorter != [] && longer[0] != shorter[0]
    ensures !StartsWith(longer, shorter)
  {
    if |shorter| <= |longer| {
      assert longer[..|shorter|][0] == longer[0];
    }
  }

  lemma ExtendedHead(h: char, longer: seq<string>, shorter: seq<string>)
    requires longer != [] && shorter != []
    ensures StartsWith([[h] + longer[0]] + longer[1..], [[h] + shorter[0]] + shorter[1..]) <==> StartsWith(longer, shorter)
  {
    var l, s := [[h] + longer[0]] + longer[1..], [[h] + shorter[0]] + shorter[1..];
    if |shorter| <= |longer| {
      if StartsWith(longer, shorter) {
        forall i | 0 <= i < |s| ensures l[..|s|][i] == s[i] {
          assert longer[..|shorter|][i] == shorter[i];
        }
      }
      if StartsWith(l, s) {
        forall i | 0 <= i < |shorter| ensures longer[..|shorter|][i] == shorter[i] {
          assert l[..|s|][i] == s[i];
          if i == 0 {
            assert longer[0] == l[0][1..] && shorter[0] == s[0][1..];
          }
        }
      }
    }
  }

  /** Two claimed paths overlap exactly when some file lies under both. */
  lemma OverlapMeansSharedFile(left: string, right: string)
    ensures PathsOverlap(left, right) <==> exists file :: Covers(left, file) && Covers(right, file)
    ensures PathsOverlap(left, right) == PathsOverlap(right, left)
  {
    var l, r := NormalizeRef(left), NormalizeRef(right);
    SplitStartsWith(l, r);
    SplitStartsWith(r, l);
    if PathsOverlap(left, right) {
      var file := if |Split(l)| <= |Split(r)| then r else l;
      assert Covers(left, file) && Covers(right, file);
    }
    if file :| Covers(left, file) && Covers(right, file) {
      SplitStartsWith(l, file);
      SplitStartsWith(r, file);
      var f, a, b := Split(file), Split(l), Split(r);
      if |a| <= |b| {
        assert b[..|a|] == f[..|b|][..|a|] == f[..|a|];
      } else {
        assert a[..|b|] == f[..|a|][..|b|] == f[..|b|];
      }
    }
    if |Split(l)| == |Split(r)| {
      assert Split(l)[..|Split(r)|] == Split(l) && Split(r)[..|Split(l)|] == Split(r);
    }
  }

  // Claims

  datatype Scopes = Scopes(routes: seq<string>, paths: seq<string>, resources: seq<string>)

  datatype Claim = Claim(
    id: string, kind: string, ownerRole: string, ownerActor: string, executionSlice: string,
    worktree: string, baseRevision: string, scopes: Scopes,
    lease: Option<nat>, status: string, releaseCondition: string, extensionNote: Option<string>)

  const ACTIVE := "active"
  const RELEASED := "released"

  const WORK_CLAIM_KINDS: set<string> :=
    {"read", "write", "lifecycle", "route", "path", "resource", "port", "database", "external_service", "generated_cache"}

  const EXCLUSIVE_CLAIM_KINDS: set<string> :=
    {"write", "lifecycle", "route", "path", "resource", "port", "database", "external_service"}

  predicate ActiveExclusive(c: Claim) {
    c.status == ACTIVE && c.kind in EXCLUSIVE_CLAIM_KINDS
  }

  /** An active claim that shuts others out; reading and generated caches are shared. */
  ghost predicate HoldsExclusively(c: Claim) {
    c.status == "active" && c.kind in WORK_CLAIM_KINDS - {"read", "generated_cache"}
  }

  lemma ActiveExclusiveHolds(c: Claim)
    ensures ActiveExclusive(c) <==> HoldsExclusively(c)
  {
  }

  /** The relation all overlap tests are about: a shared route, a shared resource, or a file under a path of each. */
  ghost predicate Conflict(a: Scopes, b: Scopes) {
    || (exists x :: x in a.routes && x in b.routes)
    || (exists x :: x in a.resources && x in b.resources)
    || (exists p, q, file :: p in a.paths && q in b.paths && Covers(p, file) && Covers(q, file))
  }

  lemma ConflictIsSymmetric(a: Scopes, b: Scopes)
    ensures Conflict(a, b) <==> Conflict(b, a)
  {
  }

  datatype Overlap<T> = Overlap(routes: set<string>, paths: set<T>, resources: set<string>) {
    predicate Empty() {
      routes == {} && |paths| == 0 && resources == {}
    }
  }

  /** The test made before a claim is created: existing paths that overlap a requested one. */
  function ClaimOverlap(existing: Scopes, requested: Scopes): Overlap<string> {
    Overlap(
      set x | x in existing.routes && x in requested.routes,
      set p | p in existing.paths && exists q :: q in requested.paths && PathsOverlap(p, q),
      set x | x in existing.resources && x in requested.resources)
  }

  /** The test the scans make: overlapping pairs of paths. */
  function ClaimOverlapRecords(left: Scopes, right: Scopes): Overlap<(string, string)> {
    Overlap(
      set x | x in left.routes && x in right.routes,
      set p, q | p in left.paths && q in right.paths && PathsOverlap(p, q) :: (p, q),
      set x | x in left.resources && x in right.resources)
  }

  /** Both tests decide the same relation. */
  lemma OverlapTestsDecideConflict(a: Scopes, b: Scopes)
    ensures ClaimOverlap(a, b).Empty() <==> !Conflict(a, b)
    ensures ClaimOverlapRecords(a, b).Empty() <==> !Conflict(a, b)
  {
    forall p, q | p in a.paths && q in b.paths
      ensures PathsOverlap(p, q) <==> exists file :: Covers(p, file) && Covers(q, file)
    {
      OverlapMeansSharedFile(p, q);
    }
    var o, r := ClaimOverlap(a, b), ClaimOverlapRecords(a, b);
    if Conflict(a, b) {
      if x :| x in a.routes && x in b.routes {
        assert x in o.routes && x in r.routes;
      } else if x :| x in a.resources && x in b.resources {
        assert x in o.resources && x in r.resources;
      } else {
        var p, q, file :| p in a.paths && q in b.paths && Covers(p, file) && Covers(q, file);
        assert PathsOverlap(p, q);
        assert p in o.paths && (p, q) in r.paths;
      }
    } else {
      assert o.routes == {} && o.resources == {};
      assert o.paths == {};
      assert r.paths == {};
    }
  }

  /** What is named: the shared routes and resources, and the existing paths under which some file also lies under a requested one. */
  lemma OverlapNamesTheShared(a: Scopes, b: Scopes)
    ensures forall x :: x in ClaimOverlap(a, b).routes <==> x in a.routes && x in b.routes
    ensures forall x :: x in ClaimOverlap(a, b).resources <==> x in a.resources && x in b.resources
    ensures forall p :: p in ClaimOverlap(a, b).paths <==> p in a.paths && SharesFile(p, b.paths)
    ensures forall p, q :: (p, q) in ClaimOverlapRecords(a, b).paths <==> p in a.paths && q in b.paths && SharesFile(p, [q])
    ensures ClaimOverlapRecords(a, b).routes == ClaimOverlap(a, b).routes
    ensures ClaimOverlapRecords(a, b).resources == ClaimOverlap(a, b).resources
  {
    forall p, q ensures PathsOverlap(p, q) <==> exists file :: Covers(p, file) && Covers(q, file) {
      OverlapMeansSharedFile(p, q);
    }
    forall p ensures p in ClaimOverlap(a, b).paths <==> p in a.paths && SharesFile(p, b.paths) {
      if q :| q in b.paths && PathsOverlap(p, q) {
        assert exists file :: Covers(p, file) && Covers(q, file);
      }
    }
  }

  ghost predicate SharesFile(p: string, others: seq<string>) {
    exists q, file :: q in others && Covers(p, file) && Covers(q, file)
  }

  // Scans

  ghost predicate Overlapping(left: Claim, right: Claim) {
    HoldsExclusively(left) && HoldsExclusively(right) && Conflict(left.scopes, right.scopes)
  }

  ghost predicate NoOverlappingPair(records: seq<Claim>) {
    forall i, j :: 0 <= i < j < |records| ==> !Overlapping(records[i], records[j])
  }

  ghost predicate Before(a: (nat, nat), b: (nat, nat)) {
    a.0 < b.0 || (a.0 == b.0 && a.1 < b.1)
  }

  /** The findings are the overlapping pairs up to row `i`, column `j`, in reading order. */
  ghost predicate ReportsUpTo(findings: seq<(nat, nat)>, records: seq<Claim>, i: nat, j: nat) {
    && (forall a: nat, b: nat :: (a, b) in findings <==>
          a < b < |records| && Overlapping(records[a], records[b]) && (a < i || (a == i && b < j)))
    && (forall m, n :: 0 <= m < n < |findings| ==> Before(findings[m], findings[n]))
  }

  /** The nested loop of the status scan and of the fan-in scan: one finding for each overlapping pair, in order. */
  method ActiveOverlapFindings(records: seq<Claim>) returns (findings: seq<(nat, nat)>)
    ensures ReportsUpTo(findings, records, |records|, 0)
    ensures findings == [] <==> NoOverlappingPair(records)
  {
    findings := [];
    var i := 0;
    while i < |records|
      invariant 0 <= i <= |records|
      invariant ReportsUpTo(findings, records, i, 0)
    {
      var left := records[i];
      if ActiveExclusive(left) {
        var j := i + 1;
        assert ReportsUpTo(findings, records, i, j);
        while j < |records|
          invariant i < j <= |records|
          invariant ReportsUpTo(findings, records, i, j)
        {
          var right := records[j];
          OverlapTestsDecideConflict(left.scopes, right.scopes);
          if ActiveExclusive(right) && !ClaimOverlapRecords(left.scopes, right.scopes).Empty() {
            ReportOne(findings, records, i, j);
            findings := findings + [(i, j)];
          }
          j := j + 1;
        }
      }
      i := i + 1;
    }
    if findings != [] {
      var (a, b) := findings[0];
      assert (a, b) in findings;
      assert Overlapping(records[a], records[b]);
    } else {
      forall a: nat, b: nat | a < b < |records| ensures !Overlapping(records[a], records[b]) {
        assert (a, b) !in findings;
      }
    }
  }

  lemma ReportOne(findings: seq<(nat, nat)>, records: seq<Claim>, i: nat, j: nat)
    requires i < j < |records| && ReportsUpTo(findings, records, i, j)
    requires Overlapping(records[i], records[j])
    ensures ReportsUpTo(findings + [(i, j)], records, i, j + 1)
  {
    var all := findings + [(i, j)];
    forall m, n | 0 <= m < n < |all| ensures Before(all[m], all[n]) {
      if n == |findings| {
        var (a, b) := findings[m];
        assert (a, b) in findings;
      }
    }
    forall a: nat, b: nat ensures (a, b) in all <==>
      a < b < |records| && Overlapping(records[a], records[b]) && (a < i || (a == i && b < j + 1))
    {
      if (a, b) != (i, j) {
        assert (a, b) in all <==> (a, b) in findings;
      } else {
        assert all[|findings|] == (a, b);
      }
    }
  }

  /** One file of the claims directory as the fan-in scan sees it. */
  datatype ClaimFile = Unreadable | ForeignObject | ClaimRecord(claim: Claim)

  function ClaimsIn(files: seq<ClaimFile>): seq<Claim> {
    if files == [] then []
    else ClaimsIn(files[..|files| - 1]) + (match files[|files| - 1] case ClaimRecord(c) => [c] case _ => [])
  }

  /** `at` are the positions of the claim records, in order, and `claims` what stands there. */
  ghost predicate StandAt(at: seq<nat>, claims: seq<Claim>, files: seq<ClaimFile>) {
    && |at| == |claims|
    && (forall k :: 0 <= k < |at| ==> at[k] < |files| && files[at[k]] == ClaimRecord(claims[k]))
    && (forall j, k :: 0 <= j < k < |at| ==> at[j] < at[k])
    && (forall i :: 0 <= i < |files| && files[i].ClaimRecord? ==> i in at)
  }

  lemma StandAtStep(at: seq<nat>, claims: seq<Claim>, files: seq<ClaimFile>, f: ClaimFile)
    requires StandAt(at, claims, files)
    ensures f.ClaimRecord? ==> StandAt(at + [|files|], claims + [f.claim], files + [f])
    ensures !f.ClaimRecord? ==> StandAt(at, claims, files + [f])
  {
    var all := files + [f];
    assert forall k :: 0 <= k < |at| ==> all[at[k]] == files[at[k]];
    var at' := if f.ClaimRecord? then at + [|files|] else at;
    forall i | 0 <= i < |all| && all[i].ClaimRecord? ensures i in at' {
      if i < |files| {
        assert all[i] == files[i] && i in at;
      } else {
        assert at'[|at|] == i;
      }
    }
  }

  /** The claims are those of the claim records, in their order. */
  lemma {:induction false} ClaimsInAre(files: seq<ClaimFile>) returns (at: seq<nat>)
    ensures StandAt(at, ClaimsIn(files), files)
  {
    at := [];
    if files != [] {
      var front, f := files[..|files| - 1], files[|files| - 1];
      at := ClaimsInAre(front);
      StandAtStep(at, ClaimsIn(front), front, f);
      assert files == front + [f];
      if f.ClaimRecord? {
        at := at + [|front|];
      }
    }
  }

  /** The fan-in scan: drop what is not a claim record, then look for overlapping pairs. */
  method FanInActiveOverlapBlockers(files: seq<ClaimFile>) returns (blockers: seq<(nat, nat)>)
    ensures ReportsUpTo(blockers, ClaimsIn(files), |ClaimsIn(files)|, 0)
    ensures blockers == [] <==> NoOverlappingPair(ClaimsIn(files))
  {
    var records: seq<Claim> := [];
    for i := 0 to |files|
      invariant records == ClaimsIn(files[..i])
    {
      assert files[..i + 1][..i] == files[..i];
      if files[i].ClaimRecord? {
        records := records + [files[i].claim];
      }
    }
    assert files[..|files|] == files;
    blockers := ActiveOverlapFindings(records);
  }
}
