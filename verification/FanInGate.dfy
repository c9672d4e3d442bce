/** The fan-in evidence gate: what must be on record before work that was split up is brought together. */
module FanInGate {
  import opened Common
  import opened FileSystems
  import opened WorkClaims

  datatype HandoffFile = UnreadableHandoff | ForeignHandoff | Handoff(executionSlice: string, status: string)

  /** One `source_hashes` entry, and what its path looks like now. */
  datatype Expected = Sha(hash: string) | ExpectMissing | ExpectUnreadable | ExpectInvalid
  datatype HashEntry = MalformedEntry | HashEntry(path: string, expected: Expected)
  datatype SourceState = Conflicting | Absent | NotRegular | CannotRead | Regular(hash: string)

  datatype AgentRun = AgentRun(
    assignedScope: string, executionSlice: string, status: string, docsDecision: string, residualRisk: string,
    inputRefs: seq<string>, outputRefs: seq<string>, claimedPaths: seq<string>, changedFiles: seq<string>,
    commands: seq<string>, verificationRefs: seq<string>, sourceHashes: seq<HashEntry>,
    claimRefs: seq<string>, handoffRefs: seq<string>)

  datatype RunFile = UnreadableRun | ForeignRun | RunRecord(run: AgentRun)

  /** A file of an evidence directory under its root-relative name. */
  datatype Named<T> = Named(ref: string, file: T)

  const ACCEPTED := "accepted"
  const SUCCEEDED := "succeeded"
  const DOCS_DECISIONS: set<string> := {"updated", "not-needed", "uncertain"}
  const NONBLOCKING_RESIDUALS: set<string> := {"", "n/a", "no", "none", "not-needed", "not needed"}
  const BLOCKING_RESIDUAL_TERMS: set<string> :=
    {"blocker", "blocking", "blocked", "danger", "failed", "failure", "must-fix", "regression", "unresolved", "unsafe"}

  // What the gate asks for

  predicate InSlice(slice: string, recorded: string) {
    slice == "" || recorded == slice
  }

  /** Recorded for the slice; every slice counts when none is named. */
  ghost predicate ForSlice(slice: string, recorded: string) {
    slice != "" ==> recorded == slice
  }

  ghost predicate ReleasedClaim(f: ClaimFile, slice: string) {
    f.ClaimRecord? && ForSlice(slice, f.claim.executionSlice) && f.claim.status == "released"
  }

  ghost predicate UnreleasedClaim(f: ClaimFile, slice: string) {
    f.ClaimRecord? && ForSlice(slice, f.claim.executionSlice) && f.claim.status != "released"
  }

  ghost predicate AcceptedHandoff(f: HandoffFile, slice: string) {
    f.Handoff? && ForSlice(slice, f.executionSlice) && f.status == "accepted"
  }

  ghost predicate PendingHandoff(f: HandoffFile, slice: string) {
    f.Handoff? && ForSlice(slice, f.executionSlice) && f.status != "accepted"
  }

  /** An agent run is for its assigned scope, or without one for its execution slice. */
  ghost predicate RunForSlice(slice: string, run: AgentRun) {
    ForSlice(slice, if run.assignedScope == "" then run.executionSlice else run.assignedScope)
  }

  function RunSlice(run: AgentRun): string {
    if run.assignedScope != "" then run.assignedScope else run.executionSlice
  }

  predicate BlockingRisk(residual: string) {
    residual !in NONBLOCKING_RESIDUALS && exists term :: term in BLOCKING_RESIDUAL_TERMS && Occurs(term, residual)
  }

  /** The residual risk is not one of the harmless phrases and contains one of the alarming words. */
  ghost predicate NamesABlockingRisk(residual: string) {
    && residual !in {"", "n/a", "no", "none", "not-needed", "not needed"}
    && exists term :: term in BLOCKING_RESIDUAL_TERMS && IsPart(term, residual)
  }

  lemma BlockingRiskNamesOne(residual: string)
    ensures BlockingRisk(residual) <==> NamesABlockingRisk(residual)
  {
    forall term ensures Occurs(term, residual) <==> IsPart(term, residual) {
      OccursIsPart(term, residual);
    }
  }

  /** The entry still describes its source: the same bytes, or still missing. */
  ghost predicate Fresh(e: HashEntry, look: string -> SourceState) {
    e.HashEntry? &&
    match e.expected
    case Sha(hash) => look(e.path) == Regular(hash)
    case ExpectMissing => look(e.path) != Conflicting && look(e.path).Absent?
    case ExpectUnreadable => false
    case ExpectInvalid => false
  }

  ghost predicate ListsPresent(run: AgentRun) {
    && run.inputRefs != [] && run.outputRefs != [] && run.claimedPaths != [] && run.changedFiles != []
    && run.commands != [] && run.verificationRefs != [] && run.sourceHashes != []
  }

  /** A reference is among those cited. */
  ghost predicate CitesOneOf(cited: seq<string>, expected: seq<string>) {
    exists r :: r in expected && r in cited
  }

  predicate Cites(cited: seq<string>, expected: seq<string>) {
    exists r :: r in expected && r in cited
  }

  /** A successful run with every evidence list, no blocking risk and only fresh hashes. */
  ghost predicate SoundRun(run: AgentRun, look: string -> SourceState) {
    && run.status == "succeeded" && run.docsDecision in DOCS_DECISIONS && !NamesABlockingRisk(run.residualRisk)
    && ListsPresent(run) && forall e :: e in run.sourceHashes ==> Fresh(e, look)
  }

  ghost predicate RunPasses(run: AgentRun, look: string -> SourceState, claimRefs: seq<string>, handoffRefs: seq<string>) {
    && SoundRun(run, look)
    && (claimRefs != [] ==> CitesOneOf(run.claimRefs, claimRefs))
    && (handoffRefs != [] ==> CitesOneOf(run.handoffRefs, handoffRefs))
  }

  ghost predicate Tied(slice: string, claims: seq<Named<ClaimFile>>, handoffs: seq<Named<HandoffFile>>, runs: seq<Named<RunFile>>,
                       look: string -> SourceState, r: Named<RunFile>, c: Named<ClaimFile>, h: Named<HandoffFile>)
  {
    && r in runs && c in claims && h in handoffs
    && r.file.RunRecord? && RunForSlice(slice, r.file.run) && SoundRun(r.file.run, look)
    && ReleasedClaim(c.file, slice) && c.ref in r.file.run.claimRefs
    && AcceptedHandoff(h.file, slice) && h.ref in r.file.run.handoffRefs
  }

  /** The meaning of an open gate, without the loops: one run ties a released claim and an accepted handoff together. */
  ghost predicate EvidenceComplete(slice: string, claims: seq<Named<ClaimFile>>, handoffs: seq<Named<HandoffFile>>,
                                   runs: seq<Named<RunFile>>, look: string -> SourceState)
  {
    && (exists r, c, h :: Tied(slice, claims, handoffs, runs, look, r, c, h))
    && NoTwoOverlap(claims)
  }

  /** No two claim records of the directory are active, exclusive and in conflict. */
  ghost predicate NoTwoOverlap(claims: seq<Named<ClaimFile>>) {
    forall i, j :: 0 <= i < j < |claims| && claims[i].file.ClaimRecord? && claims[j].file.ClaimRecord? ==>
      !Overlapping(claims[i].file.claim, claims[j].file.claim)
  }

  lemma ScanSeesEveryPair(claims: seq<Named<ClaimFile>>)
    ensures NoOverlappingPair(ClaimsIn(FilesOf(claims))) <==> NoTwoOverlap(claims)
  {
    var files := FilesOf(claims);
    var records := ClaimsIn(files);
    var at := ClaimsInAre(files);
    if NoTwoOverlap(claims) {
      forall m, n | 0 <= m < n < |records| ensures !Overlapping(records[m], records[n]) {
        assert claims[at[m]].file == files[at[m]] && claims[at[n]].file == files[at[n]];
      }
    }
    if NoOverlappingPair(records) {
      forall i, j | 0 <= i < j < |claims| && claims[i].file.ClaimRecord? && claims[j].file.ClaimRecord?
        ensures !Overlapping(claims[i].file.claim, claims[j].file.claim)
      {
        assert files[i] == claims[i].file && files[j] == claims[j].file;
        assert i in at && j in at;
        var m :| 0 <= m < |at| && at[m] == i;
        var n :| 0 <= n < |at| && at[n] == j;
        assert m < n;
      }
    }
  }

  function FilesOf<T>(named: seq<Named<T>>): seq<T> {
    seq(|named|, i requires 0 <= i < |named| => named[i].file)
  }

  // The loops

  ghost function ReleasedRefs(claims: seq<Named<ClaimFile>>, slice: string): set<string> {
    set c | c in claims && ReleasedClaim(c.file, slice) :: c.ref
  }

  ghost function UnreleasedRefs(claims: seq<Named<ClaimFile>>, slice: string): set<string> {
    set c | c in claims && UnreleasedClaim(c.file, slice) :: c.ref
  }

  ghost function AcceptedRefs(handoffs: seq<Named<HandoffFile>>, slice: string): set<string> {
    set h | h in handoffs && AcceptedHandoff(h.file, slice) :: h.ref
  }

  ghost function PendingRefs(handoffs: seq<Named<HandoffFile>>, slice: string): set<string> {
    set h | h in handoffs && PendingHandoff(h.file, slice) :: h.ref
  }

  ghost function PassingRefs(runs: seq<Named<RunFile>>, slice: string, look: string -> SourceState, claimRefs: seq<string>,
                             handoffRefs: seq<string>): set<string>
  {
    set r | r in runs && PassingRun(r.file, slice, look, claimRefs, handoffRefs) :: r.ref
  }

  ghost function Refs(refs: seq<string>): (s: set<string>)
    ensures s == {} <==> refs == []
  {
    var s := set r | r in refs;
    assert refs != [] ==> refs[0] in s;
    s
  }

  lemma RefsSnoc(refs: seq<string>, r: string)
    ensures Refs(refs + [r]) == Refs(refs) + {r}
  {
  }

  lemma ClaimRefsSnoc(claims: seq<Named<ClaimFile>>, c: Named<ClaimFile>, slice: string)
    ensures ReleasedRefs(claims + [c], slice) == ReleasedRefs(claims, slice) + (if ReleasedClaim(c.file, slice) then {c.ref} else {})
    ensures UnreleasedRefs(claims + [c], slice) == UnreleasedRefs(claims, slice) + (if UnreleasedClaim(c.file, slice) then {c.ref} else {})
  {
  }

  lemma HandoffRefsSnoc(handoffs: seq<Named<HandoffFile>>, h: Named<HandoffFile>, slice: string)
    ensures AcceptedRefs(handoffs + [h], slice) == AcceptedRefs(handoffs, slice) + (if AcceptedHandoff(h.file, slice) then {h.ref} else {})
    ensures PendingRefs(handoffs + [h], slice) == PendingRefs(handoffs, slice) + (if PendingHandoff(h.file, slice) then {h.ref} else {})
  {
  }

  lemma RunRefsSnoc(runs: seq<Named<RunFile>>, r: Named<RunFile>, slice: string, look: string -> SourceState, claimRefs: seq<string>,
                    handoffRefs: seq<string>)
    ensures PassingRefs(runs + [r], slice, look, claimRefs, handoffRefs)
            == PassingRefs(runs, slice, look, claimRefs, handoffRefs)
               + (if PassingRun(r.file, slice, look, claimRefs, handoffRefs) then {r.ref} else {})
    ensures AnyBlocked(runs + [r], slice, look, claimRefs, handoffRefs)
            <==> AnyBlocked(runs, slice, look, claimRefs, handoffRefs) || BlockedRun(r.file, slice, look, claimRefs, handoffRefs)
  {
    if BlockedRun(r.file, slice, look, claimRefs, handoffRefs) {
      assert r in runs + [r];
    }
    if f :| f in runs && BlockedRun(f.file, slice, look, claimRefs, handoffRefs) {
      assert f in runs + [r];
    }
  }

  method FanInMatchingClaimRefs(claims: seq<Named<ClaimFile>>, slice: string) returns (refs: seq<string>, blockers: seq<string>)
    ensures Refs(refs) == ReleasedRefs(claims, slice)
    ensures Refs(blockers) == UnreleasedRefs(claims, slice)
  {
    refs, blockers := [], [];
    for i := 0 to |claims|
      invariant Refs(refs) == ReleasedRefs(claims[..i], slice)
      invariant Refs(blockers) == UnreleasedRefs(claims[..i], slice)
    {
      assert claims[..i + 1] == claims[..i] + [claims[i]];
      ClaimRefsSnoc(claims[..i], claims[i], slice);
      RefsSnoc(refs, claims[i].ref);
      RefsSnoc(blockers, claims[i].ref);
      var file := claims[i].file;
      if file.ClaimRecord? && InSlice(slice, file.claim.executionSlice) {
        if file.claim.status != RELEASED {
          blockers := blockers + [claims[i].ref];
        } else {
          refs := refs + [claims[i].ref];
        }
      }
    }
    assert claims[..|claims|] == claims;
  }

  method FanInMatchingHandoffRefs(handoffs: seq<Named<HandoffFile>>, slice: string) returns (refs: seq<string>, blockers: seq<string>)
    ensures Refs(refs) == AcceptedRefs(handoffs, slice)
    ensures Refs(blockers) == PendingRefs(handoffs, slice)
  {
    refs, blockers := [], [];
    for i := 0 to |handoffs|
      invariant Refs(refs) == AcceptedRefs(handoffs[..i], slice)
      invariant Refs(blockers) == PendingRefs(handoffs[..i], slice)
    {
      assert handoffs[..i + 1] == handoffs[..i] + [handoffs[i]];
      HandoffRefsSnoc(handoffs[..i], handoffs[i], slice);
      RefsSnoc(refs, handoffs[i].ref);
      RefsSnoc(blockers, handoffs[i].ref);
      var file := handoffs[i].file;
      if file.Handoff? && InSlice(slice, file.executionSlice) {
        if file.status != ACCEPTED {
          blockers := blockers + [handoffs[i].ref];
        } else {
          refs := refs + [handoffs[i].ref];
        }
      }
    }
    assert handoffs[..|handoffs|] == handoffs;
  }

  datatype Blocker =
    | StatusBlocker | DocsBlocker | RiskBlocker | ListBlocker | ClaimBlocker | HandoffBlocker | HashBlocker(entry: HashEntry)

  method FanInSourceHashBlockers(entries: seq<HashEntry>, look: string -> SourceState) returns (blockers: seq<Blocker>)
    ensures blockers == [] <==> forall e :: e in entries ==> Fresh(e, look)
    ensures forall e :: HashBlocker(e) in blockers <==> e in entries && !Fresh(e, look)
  {
    blockers := [];
    for i := 0 to |entries|
      invariant forall e :: HashBlocker(e) in blockers <==> e in entries[..i] && !Fresh(e, look)
      invariant blockers == [] <==> forall j :: 0 <= j < i ==> Fresh(entries[j], look)
    {
      assert entries[..i + 1] == entries[..i] + [entries[i]];
      var entry := entries[i];
      if entry.MalformedEntry? || look(entry.path).Conflicting? {
        blockers := blockers + [HashBlocker(entry)];
        continue;
      }
      var now := look(entry.path);
      if entry.expected.ExpectMissing? {
        if !now.Absent? {
          blockers := blockers + [HashBlocker(entry)];
        }
        continue;
      }
      if entry.expected.ExpectUnreadable? || entry.expected.ExpectInvalid? {
        blockers := blockers + [HashBlocker(entry)];
        continue;
      }
      if now.Absent? || now.NotRegular? || now.CannotRead? || now.hash != entry.expected.hash {
        blockers := blockers + [HashBlocker(entry)];
      }
    }
    assert entries[..|entries|] == entries;
  }

  method FanInAgentRunBlockers(run: AgentRun, look: string -> SourceState, claimRefs: seq<string>, handoffRefs: seq<string>)
    returns (blockers: seq<Blocker>)
    ensures blockers == [] <==> RunPasses(run, look, claimRefs, handoffRefs)
  {
    BlockingRiskNamesOne(run.residualRisk);
    blockers := [];
    if run.status != SUCCEEDED {
      blockers := blockers + [StatusBlocker];
    }
    if run.docsDecision !in DOCS_DECISIONS {
      blockers := blockers + [DocsBlocker];
    }
    if BlockingRisk(run.residualRisk) {
      blockers := blockers + [RiskBlocker];
    }
    var lists := [run.inputRefs, run.outputRefs, run.claimedPaths, run.changedFiles, run.commands, run.verificationRefs];
    for i := 0 to |lists|
      invariant blockers == [] <==>
        run.status == SUCCEEDED && run.docsDecision in DOCS_DECISIONS && !BlockingRisk(run.residualRisk)
        && forall j :: 0 <= j < i ==> lists[j] != []
    {
      if lists[i] == [] {
        blockers := blockers + [ListBlocker];
      }
    }
    assert (forall j :: 0 <= j < |lists| ==> lists[j] != []) <==>
           lists[0] != [] && lists[1] != [] && lists[2] != [] && lists[3] != [] && lists[4] != [] && lists[5] != [];
    if run.sourceHashes == [] {
      blockers := blockers + [ListBlocker];
    }
    if claimRefs != [] && !Cites(run.claimRefs, claimRefs) {
      blockers := blockers + [ClaimBlocker];
    }
    if handoffRefs != [] && !Cites(run.handoffRefs, handoffRefs) {
      blockers := blockers + [HandoffBlocker];
    }
    var stale := FanInSourceHashBlockers(run.sourceHashes, look);
    blockers := blockers + stale;
  }

  ghost predicate PassingRun(f: RunFile, slice: string, look: string -> SourceState, claimRefs: seq<string>, handoffRefs: seq<string>) {
    f.RunRecord? && RunForSlice(slice, f.run) && RunPasses(f.run, look, claimRefs, handoffRefs)
  }

  ghost predicate AnyBlocked(runs: seq<Named<RunFile>>, slice: string, look: string -> SourceState, claimRefs: seq<string>,
                             handoffRefs: seq<string>)
  {
    exists f :: f in runs && BlockedRun(f.file, slice, look, claimRefs, handoffRefs)
  }

  ghost predicate BlockedRun(f: RunFile, slice: string, look: string -> SourceState, claimRefs: seq<string>, handoffRefs: seq<string>) {
    f.RunRecord? && RunForSlice(slice, f.run) && !RunPasses(f.run, look, claimRefs, handoffRefs)
  }

  method FanInMatchingAgentRunRefs(runs: seq<Named<RunFile>>, slice: string, look: string -> SourceState, claimRefs: seq<string>,
                                   handoffRefs: seq<string>)
    returns (refs: seq<string>, blockers: seq<Blocker>)
    ensures Refs(refs) == PassingRefs(runs, slice, look, claimRefs, handoffRefs)
    ensures blockers != [] <==> AnyBlocked(runs, slice, look, claimRefs, handoffRefs)
  {
    refs, blockers := [], [];
    for i := 0 to |runs|
      invariant Refs(refs) == PassingRefs(runs[..i], slice, look, claimRefs, handoffRefs)
      invariant blockers != [] <==> AnyBlocked(runs[..i], slice, look, claimRefs, handoffRefs)
    {
      assert runs[..i + 1] == runs[..i] + [runs[i]];
      RunRefsSnoc(runs[..i], runs[i], slice, look, claimRefs, handoffRefs);
      RefsSnoc(refs, runs[i].ref);
      var file := runs[i].file;
      if file.RunRecord? && InSlice(slice, RunSlice(file.run)) {
        var found := FanInAgentRunBlockers(file.run, look, claimRefs, handoffRefs);
        if found != [] {
          blockers := blockers + found;
        } else {
          refs := refs + [runs[i].ref];
        }
      }
    }
    assert runs[..|runs|] == runs;
  }

  ghost predicate AnyReleased(claims: seq<Named<ClaimFile>>, slice: string) {
    exists c :: c in claims && ReleasedClaim(c.file, slice)
  }

  ghost predicate AnyAccepted(handoffs: seq<Named<HandoffFile>>, slice: string) {
    exists h :: h in handoffs && AcceptedHandoff(h.file, slice)
  }

  ghost predicate AnyUnreleased(claims: seq<Named<ClaimFile>>, slice: string) {
    exists c :: c in claims && UnreleasedClaim(c.file, slice)
  }

  ghost predicate AnyPending(handoffs: seq<Named<HandoffFile>>, slice: string) {
    exists h :: h in handoffs && PendingHandoff(h.file, slice)
  }

  datatype Missing =
    | ReleasedWorkClaim | WorkClaim | AcceptedHandoffLabel | HandoffLabel | FreshAgentRun | AgentRunLabel | OverlapClaim

  datatype Gate = Gate(activated: bool, missing: seq<Missing>)

  /** Once activated, nothing is missing if and only if the evidence is complete; each label has its own exact reason. */
  method FanInEvidenceGate(activated: bool, slice: string, claims: seq<Named<ClaimFile>>, handoffs: seq<Named<HandoffFile>>,
                           runs: seq<Named<RunFile>>, look: string -> SourceState)
    returns (gate: Gate, ghost claimRefs: seq<string>, ghost handoffRefs: seq<string>)
    ensures gate.activated == activated
    ensures !activated ==> gate.missing == []
    ensures activated ==> (gate.missing == [] <==> EvidenceComplete(slice, claims, handoffs, runs, look))
    ensures activated ==> (OverlapClaim in gate.missing <==> !NoTwoOverlap(claims))
    ensures activated ==> (ReleasedWorkClaim in gate.missing <==>
              !AnyReleased(claims, slice) && AnyUnreleased(claims, slice))
    ensures activated ==> (WorkClaim in gate.missing <==>
              !AnyReleased(claims, slice) && !AnyUnreleased(claims, slice))
    ensures activated ==> (AcceptedHandoffLabel in gate.missing <==>
              !AnyAccepted(handoffs, slice) && AnyPending(handoffs, slice))
    ensures activated ==> (HandoffLabel in gate.missing <==>
              !AnyAccepted(handoffs, slice) && !AnyPending(handoffs, slice))
    ensures activated ==> Refs(claimRefs) == ReleasedRefs(claims, slice) && Refs(handoffRefs) == AcceptedRefs(handoffs, slice)
    ensures activated ==> (FreshAgentRun in gate.missing <==>
              PassingRefs(runs, slice, look, claimRefs, handoffRefs) == {} && AnyBlocked(runs, slice, look, claimRefs, handoffRefs))
    ensures activated ==> (AgentRunLabel in gate.missing <==>
              PassingRefs(runs, slice, look, claimRefs, handoffRefs) == {} && !AnyBlocked(runs, slice, look, claimRefs, handoffRefs))
  {
    if !activated {
      return Gate(false, []), [], [];
    }
    var released, claimBlockers := FanInMatchingClaimRefs(claims, slice);
    var accepted, handoffBlockers := FanInMatchingHandoffRefs(handoffs, slice);
    claimRefs, handoffRefs := released, accepted;
    var runRefs, runBlockers := FanInMatchingAgentRunRefs(runs, slice, look, released, accepted);
    var overlaps := FanInActiveOverlapBlockers(FilesOf(claims));
    ScanSeesEveryPair(claims);
    GateMeansComplete(slice, claims, handoffs, runs, look, released, accepted);
    RefsExist(claims, handoffs, slice);
    gate := Gate(true, Labels(released == [], claimBlockers != [], accepted == [], handoffBlockers != [],
                              runRefs == [], runBlockers != [], overlaps != []));
  }

  function Label(missing: bool, blocked: bool, blockedLabel: Missing, absentLabel: Missing): seq<Missing> {
    if !missing then [] else if blocked then [blockedLabel] else [absentLabel]
  }

  function Labels(noClaim: bool, claimBlocked: bool, noHandoff: bool, handoffBlocked: bool, noRun: bool, runBlocked: bool, overlap: bool)
    : (labels: seq<Missing>)
    ensures labels == [] <==> !noClaim && !noHandoff && !noRun && !overlap
    ensures OverlapClaim in labels <==> overlap
    ensures ReleasedWorkClaim in labels <==> noClaim && claimBlocked
    ensures WorkClaim in labels <==> noClaim && !claimBlocked
    ensures AcceptedHandoffLabel in labels <==> noHandoff && handoffBlocked
    ensures HandoffLabel in labels <==> noHandoff && !handoffBlocked
    ensures FreshAgentRun in labels <==> noRun && runBlocked
    ensures AgentRunLabel in labels <==> noRun && !runBlocked
  {
    Label(noClaim, claimBlocked, ReleasedWorkClaim, WorkClaim)
    + Label(noHandoff, handoffBlocked, AcceptedHandoffLabel, HandoffLabel)
    + Label(noRun, runBlocked, FreshAgentRun, AgentRunLabel)
    + Label(overlap, true, OverlapClaim, OverlapClaim)
  }

  lemma RefsExist(claims: seq<Named<ClaimFile>>, handoffs: seq<Named<HandoffFile>>, slice: string)
    ensures ReleasedRefs(claims, slice) != {} <==> AnyReleased(claims, slice)
    ensures UnreleasedRefs(claims, slice) != {} <==> AnyUnreleased(claims, slice)
    ensures AcceptedRefs(handoffs, slice) != {} <==> AnyAccepted(handoffs, slice)
    ensures PendingRefs(handoffs, slice) != {} <==> AnyPending(handoffs, slice)
  {
    if c :| c in claims && ReleasedClaim(c.file, slice) { assert c.ref in ReleasedRefs(claims, slice); }
    if c :| c in claims && UnreleasedClaim(c.file, slice) { assert c.ref in UnreleasedRefs(claims, slice); }
    if h :| h in handoffs && AcceptedHandoff(h.file, slice) { assert h.ref in AcceptedRefs(handoffs, slice); }
    if h :| h in handoffs && PendingHandoff(h.file, slice) { assert h.ref in PendingRefs(handoffs, slice); }
  }

  /** With both reference lists non-empty, a passing run is one that cites a member of each. */
  lemma GateMeansComplete(slice: string, claims: seq<Named<ClaimFile>>, handoffs: seq<Named<HandoffFile>>, runs: seq<Named<RunFile>>,
                          look: string -> SourceState, claimRefs: seq<string>, handoffRefs: seq<string>)
    requires Refs(claimRefs) == ReleasedRefs(claims, slice) && Refs(handoffRefs) == AcceptedRefs(handoffs, slice)
    ensures EvidenceComplete(slice, claims, handoffs, runs, look) <==>
            && claimRefs != [] && handoffRefs != []
            && PassingRefs(runs, slice, look, claimRefs, handoffRefs) != {}
            && NoTwoOverlap(claims)
  {
    if claimRefs != [] && handoffRefs != [] {
      if ref :| ref in PassingRefs(runs, slice, look, claimRefs, handoffRefs) {
        var r :| r in runs && PassingRun(r.file, slice, look, claimRefs, handoffRefs) && r.ref == ref;
        PassingRunTies(slice, claims, handoffs, runs, look, claimRefs, handoffRefs, r);
      }
    }
    if r, c, h :| Tied(slice, claims, handoffs, runs, look, r, c, h) {
      TieIsPassing(slice, claims, handoffs, runs, look, claimRefs, handoffRefs, r, c, h);
    }
  }

  lemma PassingRunTies(slice: string, claims: seq<Named<ClaimFile>>, handoffs: seq<Named<HandoffFile>>, runs: seq<Named<RunFile>>,
                       look: string -> SourceState, claimRefs: seq<string>, handoffRefs: seq<string>, r: Named<RunFile>)
    requires Refs(claimRefs) == ReleasedRefs(claims, slice) && Refs(handoffRefs) == AcceptedRefs(handoffs, slice)
    requires claimRefs != [] && handoffRefs != []
    requires r in runs && PassingRun(r.file, slice, look, claimRefs, handoffRefs)
    ensures exists c, h :: Tied(slice, claims, handoffs, runs, look, r, c, h)
  {
    var cited :| cited in claimRefs && cited in r.file.run.claimRefs;
    var handed :| handed in handoffRefs && handed in r.file.run.handoffRefs;
    assert cited in Refs(claimRefs) && handed in Refs(handoffRefs);
    var c :| c in claims && ReleasedClaim(c.file, slice) && c.ref == cited;
    var h :| h in handoffs && AcceptedHandoff(h.file, slice) && h.ref == handed;
    assert Tied(slice, claims, handoffs, runs, look, r, c, h);
  }

  lemma TieIsPassing(slice: string, claims: seq<Named<ClaimFile>>, handoffs: seq<Named<HandoffFile>>, runs: seq<Named<RunFile>>,
                     look: string -> SourceState, claimRefs: seq<string>, handoffRefs: seq<string>,
                     r: Named<RunFile>, c: Named<ClaimFile>, h: Named<HandoffFile>)
    requires Refs(claimRefs) == ReleasedRefs(claims, slice) && Refs(handoffRefs) == AcceptedRefs(handoffs, slice)
    requires Tied(slice, claims, handoffs, runs, look, r, c, h)
    ensures claimRefs != [] && handoffRefs != []
    ensures r.ref in PassingRefs(runs, slice, look, claimRefs, handoffRefs)
  {
    assert c.ref in Refs(claimRefs) && h.ref in Refs(handoffRefs);
    assert PassingRun(r.file, slice, look, claimRefs, handoffRefs);
  }
}
