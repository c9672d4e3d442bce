/** The transition orchestrator: token-guarded delegates run one after the other until one fails. */
module Transitions {
  import opened Common
  import opened WriteSets

  datatype Step = PhaseComplete | ArchivePlan | NextPlan | NextRoadmap

  datatype Actions = Actions(completePhase: bool, archivePlan: bool, nextItem: bool)

  /** What a delegate reports, and what reloading the root gives afterwards. An exception is reported as one error. */
  datatype StepRun<I> = StepRun(findings: seq<Finding>, reloaded: Reload<I>)

  datatype Reload<I> = Reloaded(inventory: I) | ReloadFailed(error: Finding)

  /** A delegate that ran, and the inventory it was given. */
  datatype Ran<I> = Ran(step: Step, inventory: I)

  datatype Ending = InputsRefused | StoppedAt(step: Step, reload: bool) | Finished

  function Requested(a: Actions): seq<Step> {
    (if a.completePhase then [PhaseComplete] else []) + (if a.archivePlan then [ArchivePlan] else [])
    + (if a.nextItem then [NextPlan, NextRoadmap] else [])
  }

  predicate HasError(findings: seq<Finding>) {
    exists f :: f in findings && f.severity == Error
  }

  /** The last step is not followed by a reload. */
  predicate Reloads(step: Step) {
    step != NextRoadmap
  }

  /** The delegate reported no error, and where a reload follows, it worked. */
  predicate Succeeded<I>(step: Step, run: StepRun<I>) {
    !HasError(run.findings) && (Reloads(step) ==> run.reloaded.Reloaded?)
  }

  // What is reported

  function StepName(step: Step): string {
    match step
    case PhaseComplete => "phase completion writeback"
    case ArchivePlan => "active-plan archive writeback"
    case NextPlan => "next active-plan opening"
    case NextRoadmap => "next roadmap status update"
  }

  function ReloadName(step: Step): string {
    match step
    case PhaseComplete => "post-phase reload"
    case ArchivePlan => "post-archive reload"
    case NextPlan => "post-next-plan reload"
    case NextRoadmap => ""
  }

  function Join(parts: seq<string>, separator: string): string {
    if parts == [] then "" else if |parts| == 1 then parts[0] else parts[0] + separator + Join(parts[1..], separator)
  }

  /** Every part is in the joined text. */
  lemma {:induction false} JoinHasPart(parts: seq<string>, separator: string, i: nat)
    requires i < |parts|
    ensures IsPart(parts[i], Join(parts, separator))
  {
    var text := Join(parts, separator);
    if i == 0 {
      assert text == "" + parts[0] + text[|parts[0]|..];
    } else {
      JoinHasPart(parts[1..], separator, i - 1);
      var rest := Join(parts[1..], separator);
      var before, after :| rest == before + parts[i] + after;
      assert text == (parts[0] + separator + before) + parts[i] + after;
    }
  }

  function StepNote(step: Step): Finding {
    Finding(Info, "transition-step", StepName(step))
  }

  const RECOVERY := "transition-partial-apply-recovery"

  function RecoveryFinding(completed: seq<string>, failed: string): Finding {
    Finding(Error, RECOVERY, (if completed == [] then "route-write evidence above" else Join(completed, ", ")) + " before " + failed)
  }

  const AUTHORITY := Finding(Info, "transition-authority", "repo-visible files remain the only transition authority")

  function WriteSetFinding(entries: seq<Entry>): Finding {
    Finding(Info, "transition-effective-write-set", Format(entries))
  }

  const BOUNDARY := Finding(Info, "transition-targets-boundary", "")
  const ALIAS := Finding(Info, "transition-active-plan-archive-alias", "")

  function EffectiveWriteSet(entries: seq<Entry>, archive: bool): seq<Finding> {
    (if entries == [] then [] else [WriteSetFinding(entries), BOUNDARY]) + if archive then [ALIAS] else []
  }

  function Action(e: Entry): string {
    e.operation + " via " + e.code
  }

  function ActionsOf(group: seq<Entry>): seq<string> {
    seq(|group|, i requires 0 <= i < |group| => Action(group[i]))
  }

  const PLAN_ROUTE := "project/implementation-plan.md"

  function StateWord(state: RouteState): string {
    match state
    case Unknown => "unknown"
    case Present => "present"
    case Gone => "absent"
  }

  predicate HasKind(group: seq<Entry>, kind: Kind) {
    exists e :: e in group && OperationKind(e.operation) == kind
  }

  /** What is added for the active plan's route. */
  function PlanRouteNote(rel: string, group: seq<Entry>): string {
    var state := FinalState(group);
    if rel != PLAN_ROUTE then ""
    else if state == Present && HasKind(group, DeleteKind) then "; active plan route recreated for next plan after archive"
    else if state == Gone && HasKind(group, WriteKind) then "; active plan route archived/removed after interim write"
    else if state == Gone then "; active plan route archived/removed"
    else ""
  }

  function GroupText(entries: seq<Entry>, rel: string): string {
    rel + ": " + Join(ActionsOf(Group(entries, rel)), ", ") + " (final route: " + StateWord(FinalState(Group(entries, rel)))
    + PlanRouteNote(rel, Group(entries, rel)) + ")"
  }

  /** The routes of the entries, in the order in which they come up. */
  function Routes(entries: seq<Entry>): (routes: seq<string>)
    ensures forall rel :: rel in routes <==> exists e :: e in entries && e.rel == rel
    ensures forall i, j :: 0 <= i < j < |routes| ==> routes[i] != routes[j]
  {
    if entries == [] then []
    else
      var front, last := entries[..|entries| - 1], entries[|entries| - 1];
      assert entries == front + [last];
      var routes := Routes(front);
      if last.rel in routes then routes else routes + [last.rel]
  }

  function GroupTexts(entries: seq<Entry>): seq<string> {
    var routes := Routes(entries);
    seq(|routes|, i requires 0 <= i < |routes| => GroupText(entries, routes[i]))
  }

  function Format(entries: seq<Entry>): string {
    Join(GroupTexts(entries), "; ")
  }

  function Announcement<I>(ran: Ran<I>, notes: I -> seq<Finding>): seq<Finding> {
    [StepNote(ran.step)] + if ran.step == NextPlan then notes(ran.inventory) else []
  }

  function ReloadErrors<I>(step: Step, run: StepRun<I>): seq<Finding> {
    if !HasError(run.findings) && Reloads(step) && run.reloaded.ReloadFailed? then [run.reloaded.error] else []
  }

  /** What one delegate adds to the report. */
  function Report<I>(ran: Ran<I>, run: StepRun<I>, notes: I -> seq<Finding>): seq<Finding> {
    Announcement(ran, notes) + run.findings + ReloadErrors(ran.step, run)
  }

  function Reports<I>(ran: seq<Ran<I>>, delegate: (Step, I) -> StepRun<I>, notes: I -> seq<Finding>): seq<Finding> {
    if ran == [] then []
    else
      var last := ran[|ran| - 1];
      Reports(ran[..|ran| - 1], delegate, notes) + Report(last, delegate(last.step, last.inventory), notes)
  }

  function CompletedBy<I>(step: Step, run: StepRun<I>): seq<string> {
    if !HasError(run.findings) && RouteWrites(run.findings) != [] then [StepName(step)] else []
  }

  /** The steps that finished with route-write evidence. */
  function CompletedWrites<I>(ran: seq<Ran<I>>, delegate: (Step, I) -> StepRun<I>): seq<string> {
    if ran == [] then []
    else
      var last := ran[|ran| - 1];
      CompletedWrites(ran[..|ran| - 1], delegate) + CompletedBy(last.step, delegate(last.step, last.inventory))
  }

  // What a run is

  /** Every delegate is the next one requested, all but the last succeeded, and each got the inventory reloaded before it. */
  ghost predicate Chain<I(!new)>(ran: seq<Ran<I>>, requested: seq<Step>, start: I, delegate: (Step, I) -> StepRun<I>) {
    && |ran| <= |requested|
    && (forall i :: 0 <= i < |ran| ==> ran[i].step == requested[i])
    && (ran != [] ==> ran[0].inventory == start)
    && (forall i :: 0 <= i < |ran| - 1 ==>
          && Succeeded(ran[i].step, delegate(ran[i].step, ran[i].inventory))
          && delegate(ran[i].step, ran[i].inventory).reloaded == Reloaded(ran[i + 1].inventory))
  }

  ghost predicate AllSucceeded<I(!new)>(ran: seq<Ran<I>>, delegate: (Step, I) -> StepRun<I>) {
    forall i :: 0 <= i < |ran| ==> Succeeded(ran[i].step, delegate(ran[i].step, ran[i].inventory))
  }

  /** How the ending follows from the last delegate. */
  ghost predicate EndsAs<I(!new)>(ending: Ending, ran: seq<Ran<I>>, requested: seq<Step>, delegate: (Step, I) -> StepRun<I>) {
    match ending
    case InputsRefused => ran == []
    case Finished =>
      |ran| == |requested| && AllSucceeded(ran, delegate)
    case StoppedAt(step, reload) =>
      && ran != []
      && var last := ran[|ran| - 1];
      && last.step == step && !Succeeded(step, delegate(step, last.inventory))
      && (reload <==> !HasError(delegate(step, last.inventory).findings))
  }

  // A run, told by the flags alone

  ghost function Rank(step: Step): nat {
    match step
    case PhaseComplete => 0
    case ArchivePlan => 1
    case NextPlan => 2
    case NextRoadmap => 3
  }

  ghost predicate Asked(a: Actions, step: Step) {
    match step
    case PhaseComplete => a.completePhase
    case ArchivePlan => a.archivePlan
    case NextPlan => a.nextItem
    case NextRoadmap => a.nextItem
  }

  ghost predicate RanBefore<I>(ran: seq<Ran<I>>, step: Step, n: nat) {
    exists j :: 0 <= j < n && j < |ran| && ran[j].step == step
  }

  /** The delegates that ran were asked for, each ran once and in the order of the steps, and none was left out before one that
      ran. */
  ghost predicate InSequence<I>(ran: seq<Ran<I>>, a: Actions) {
    && (forall i :: 0 <= i < |ran| ==> Asked(a, ran[i].step))
    && (forall i, j :: 0 <= i < j < |ran| ==> Rank(ran[i].step) < Rank(ran[j].step))
    && (forall i, step :: 0 <= i < |ran| && Asked(a, step) && Rank(step) < Rank(ran[i].step) ==> RanBefore(ran, step, i))
  }

  ghost predicate ReportsError(findings: seq<Finding>) {
    exists i :: 0 <= i < |findings| && findings[i].severity == Error
  }

  /** No error was reported, and the root could be loaded again where that follows. */
  ghost predicate WentWell<I>(step: Step, run: StepRun<I>) {
    !ReportsError(run.findings) && (step != NextRoadmap ==> run.reloaded.Reloaded?)
  }

  /** All but the last went well, and each got the inventory that was loaded after the one before it. */
  ghost predicate OneAfterTheOther<I(!new)>(ran: seq<Ran<I>>, start: I, delegate: (Step, I) -> StepRun<I>) {
    && (ran != [] ==> ran[0].inventory == start)
    && (forall i :: 0 <= i < |ran| - 1 ==>
          && WentWell(ran[i].step, delegate(ran[i].step, ran[i].inventory))
          && delegate(ran[i].step, ran[i].inventory).reloaded == Reloaded(ran[i + 1].inventory))
  }

  /** Finished: everything asked for ran, and the last delegate went well too. Stopped: the last one did not, and the ending says
      which it was, and whether it was the delegate or the reload that failed. */
  ghost predicate EndsRightly<I(!new)>(ending: Ending, ran: seq<Ran<I>>, a: Actions, delegate: (Step, I) -> StepRun<I>) {
    match ending
    case InputsRefused => ran == []
    case Finished =>
      && (forall step :: Asked(a, step) ==> RanBefore(ran, step, |ran|))
      && (ran != [] ==> var last := ran[|ran| - 1]; WentWell(last.step, delegate(last.step, last.inventory)))
    case StoppedAt(step, reload) =>
      && ran != []
      && var last := ran[|ran| - 1];
      && last.step == step && !WentWell(step, delegate(step, last.inventory))
      && (reload <==> !ReportsError(delegate(step, last.inventory).findings))
  }

  lemma RequestedInOrder(a: Actions)
    ensures forall i :: 0 <= i < |Requested(a)| ==> Asked(a, Requested(a)[i])
    ensures forall i, j :: 0 <= i < j < |Requested(a)| ==> Rank(Requested(a)[i]) < Rank(Requested(a)[j])
    ensures forall step :: Asked(a, step) ==> step in Requested(a)
  {
    forall step | Asked(a, step) ensures step in Requested(a) {
      var first := if a.completePhase then [PhaseComplete] else [];
      var second := if a.archivePlan then [ArchivePlan] else [];
      var third := if a.nextItem then [NextPlan, NextRoadmap] else [];
      assert step in first || step in second || step == third[0] || step == third[1];
    }
  }

  lemma SuccessIsGoingWell<I>(step: Step, run: StepRun<I>)
    ensures HasError(run.findings) <==> ReportsError(run.findings)
    ensures Succeeded(step, run) <==> WentWell(step, run)
  {
    if f :| f in run.findings && f.severity == Error {
      var i :| 0 <= i < |run.findings| && run.findings[i] == f;
    }
  }

  lemma ChainIsInSequence<I(!new)>(ran: seq<Ran<I>>, a: Actions, start: I, delegate: (Step, I) -> StepRun<I>)
    requires Chain(ran, Requested(a), start, delegate)
    ensures InSequence(ran, a) && OneAfterTheOther(ran, start, delegate)
  {
    var requested := Requested(a);
    RequestedInOrder(a);
    forall i, step | 0 <= i < |ran| && Asked(a, step) && Rank(step) < Rank(ran[i].step) ensures RanBefore(ran, step, i) {
      var j :| 0 <= j < |requested| && requested[j] == step;
      assert ran[i].step == requested[i];
      assert j < i;
      assert ran[j].step == step;
    }
    forall i | 0 <= i < |ran| - 1 ensures WentWell(ran[i].step, delegate(ran[i].step, ran[i].inventory)) {
      SuccessIsGoingWell(ran[i].step, delegate(ran[i].step, ran[i].inventory));
    }
  }

  lemma ChainEndsRightly<I(!new)>(ending: Ending, ran: seq<Ran<I>>, a: Actions, start: I, delegate: (Step, I) -> StepRun<I>)
    requires Chain(ran, Requested(a), start, delegate) && EndsAs(ending, ran, Requested(a), delegate)
    ensures EndsRightly(ending, ran, a, delegate)
  {
    if ran != [] {
      var last := ran[|ran| - 1];
      SuccessIsGoingWell(last.step, delegate(last.step, last.inventory));
    }
    if ending.Finished? {
      var requested := Requested(a);
      RequestedInOrder(a);
      forall step | Asked(a, step) ensures RanBefore(ran, step, |ran|) {
        var j :| 0 <= j < |requested| && requested[j] == step;
        assert ran[j].step == step;
      }
    }
  }

  // Evidence comes from delegates only

  lemma {:induction false} RouteWritesJoin(a: seq<Finding>, b: seq<Finding>)
    ensures RouteWrites(a + b) == RouteWrites(a) + RouteWrites(b)
  {
    if b == [] {
      assert a + b == a;
    } else {
      var front := b[..|b| - 1];
      assert (a + b)[..|a + b| - 1] == a + front;
      RouteWritesJoin(a, front);
    }
  }

  lemma {:induction false} NoEvidenceIn(findings: seq<Finding>)
    requires forall f :: f in findings ==> !IsEvidence(f)
    ensures RouteWrites(findings) == []
  {
    if findings != [] {
      NoEvidenceIn(findings[..|findings| - 1]);
    }
  }

  /** All route writes of the delegates that ran. */
  function DelegatedWrites<I>(ran: seq<Ran<I>>, delegate: (Step, I) -> StepRun<I>): seq<Entry> {
    if ran == [] then []
    else
      var last := ran[|ran| - 1];
      DelegatedWrites(ran[..|ran| - 1], delegate) + RouteWrites(delegate(last.step, last.inventory).findings)
  }

  ghost predicate NotesAreNoEvidence<I(!new)>(delegate: (Step, I) -> StepRun<I>, notes: I -> seq<Finding>) {
    && (forall inventory, f :: f in notes(inventory) ==> !IsEvidence(f))
    && (forall step, inventory :: var run := delegate(step, inventory); run.reloaded.ReloadFailed? ==> run.reloaded.error.severity == Error)
  }

  lemma {:induction false} ReportsGiveDelegatedWrites<I(!new)>(ran: seq<Ran<I>>, delegate: (Step, I) -> StepRun<I>, notes: I -> seq<Finding>)
    requires NotesAreNoEvidence(delegate, notes)
    ensures RouteWrites(Reports(ran, delegate, notes)) == DelegatedWrites(ran, delegate)
  {
    if ran != [] {
      var front, last := ran[..|ran| - 1], ran[|ran| - 1];
      var run := delegate(last.step, last.inventory);
      ReportsGiveDelegatedWrites(front, delegate, notes);
      ReportGivesWrites(last, run, notes);
      RouteWritesJoin(Reports(front, delegate, notes), Report(last, run, notes));
    }
  }

  lemma ReportGivesWrites<I(!new)>(ran: Ran<I>, run: StepRun<I>, notes: I -> seq<Finding>)
    requires forall f :: f in notes(ran.inventory) ==> !IsEvidence(f)
    requires run.reloaded.ReloadFailed? ==> run.reloaded.error.severity == Error
    ensures RouteWrites(Report(ran, run, notes)) == RouteWrites(run.findings)
  {
    AnnouncementIsNoEvidence(ran, notes);
    var before, after := Announcement(ran, notes), ReloadErrors(ran.step, run);
    NoEvidenceIn(before);
    NoEvidenceIn(after);
    RouteWritesJoin(before, run.findings);
    RouteWritesJoin(before + run.findings, after);
  }

  lemma AnnouncementIsNoEvidence<I(!new)>(ran: Ran<I>, notes: I -> seq<Finding>)
    requires forall f :: f in notes(ran.inventory) ==> !IsEvidence(f)
    ensures forall f :: f in Announcement(ran, notes) ==> !IsEvidence(f)
  {
    StepNoteIsNoEvidence(ran.step);
  }

  lemma StepNoteIsNoEvidence(step: Step)
    ensures !IsEvidence(StepNote(step))
  {
    OtherLastLetter(StepNote(step));
  }

  lemma OtherLastLetter(f: Finding)
    requires f.code != "" && f.code[|f.code| - 1] != 'e'
    ensures !IsEvidence(f)
  {
    var suffix := "-route-write";
    assert |suffix| <= |f.code| ==> f.code[|f.code| - |suffix|..][|suffix| - 1] == f.code[|f.code| - 1];
  }

  function Header(token: string): seq<Finding> {
    [Finding(Info, "transition-apply", "transition apply started"), Finding(Info, "transition-review-token", token),
     Finding(Info, "transition-targets", ""), Finding(Info, "transition-no-vcs", "")]
  }

  lemma HeaderIsNoEvidence(token: string)
    ensures RouteWrites(Header(token)) == []
  {
    forall f | f in Header(token) ensures !IsEvidence(f) {
      OtherLastLetter(f);
    }
    NoEvidenceIn(Header(token));
  }

  lemma {:induction false} CompletedWritesWrote<I(!new)>(ran: seq<Ran<I>>, delegate: (Step, I) -> StepRun<I>)
    ensures CompletedWrites(ran, delegate) != [] ==> DelegatedWrites(ran, delegate) != []
  {
    if ran != [] {
      CompletedWritesWrote(ran[..|ran| - 1], delegate);
    }
  }

  lemma {:induction false} NoEntriesWithoutWrites(events: seq<Entry>)
    ensures Deduplicated(events) == [] <==> events == []
  {
    DeduplicatedKeepsElements(events);
    if events != [] {
      assert events[0] in Deduplicated(events);
    }
  }

  // The orchestrator

  /** Where the run stands between two steps. */
  ghost predicate Underway<I(!new)>(ran: seq<Ran<I>>, requested: seq<Step>, start: I, current: I, findings: seq<Finding>, completed: seq<string>,
                                    token: string, delegate: (Step, I) -> StepRun<I>, notes: I -> seq<Finding>) {
    && Chain(ran, requested, start, delegate)
    && AllSucceeded(ran, delegate)
    && (if ran == [] then current == start
        else var last := ran[|ran| - 1]; Reloads(last.step) ==> delegate(last.step, last.inventory).reloaded == Reloaded(current))
    && findings == Header(token) + Reports(ran, delegate, notes)
    && completed == CompletedWrites(ran, delegate)
  }

  /** Calls one delegate on the current inventory. */
  method CallDelegate<I(!new)>(step: Step, current: I, findings: seq<Finding>, completed: seq<string>, delegate: (Step, I) -> StepRun<I>,
                               notes: I -> seq<Finding>) returns (ok: bool, findings': seq<Finding>, completed': seq<string>, next: I)
    ensures var run := delegate(step, current);
            && ok == Succeeded(step, run)
            && findings' == findings + Report(Ran(step, current), run, notes)
            && completed' == completed + CompletedBy(step, run)
            && (ok && Reloads(step) ==> run.reloaded == Reloaded(next))
  {
    var run := delegate(step, current);
    ok, next, completed' := false, current, completed;
    findings' := findings + Announcement(Ran(step, current), notes) + run.findings;
    if HasError(run.findings) {
      return;
    }
    var entries := RouteWriteEntries(run.findings);
    NoEntriesWithoutWrites(RouteWrites(run.findings));
    if entries != [] {
      completed' := completed' + [StepName(step)];
    }
    ok := true;
    if Reloads(step) {
      match run.reloaded
      case ReloadFailed(error) =>
        findings', ok := findings' + [error], false;
      case Reloaded(inventory) =>
        next := inventory;
    }
  }

  method RunStep<I(!new)>(step: Step, current: I, findings: seq<Finding>, completed: seq<string>, delegate: (Step, I) -> StepRun<I>,
                          notes: I -> seq<Finding>, ran: seq<Ran<I>>, ghost requested: seq<Step>, ghost start: I, ghost token: string)
    returns (ending: Ending, findings': seq<Finding>, completed': seq<string>, next: I, ran': seq<Ran<I>>)
    requires Underway(ran, requested, start, current, findings, completed, token, delegate, notes)
    requires |ran| < |requested| && requested[|ran|] == step && forall i :: 0 <= i < |ran| ==> Reloads(requested[i])
    ensures |ran'| == |ran| + 1
    ensures if ending.Finished? then Underway(ran', requested, start, next, findings', completed', token, delegate, notes)
            else Stopped(ending, ran', requested, start, findings', completed', token, delegate, notes)
  {
    ran' := ran + [Ran(step, current)];
    var ok;
    ok, findings', completed', next := CallDelegate(step, current, findings, completed, delegate, notes);
    ChainExtends(ran, requested, start, current, step, delegate);
    ReportsExtend(ran, Ran(step, current), token, delegate, notes);
    ending := if ok then Finished else StoppedAt(step, !HasError(delegate(step, current).findings));
  }

  ghost predicate Stopped<I(!new)>(ending: Ending, ran: seq<Ran<I>>, requested: seq<Step>, start: I, findings: seq<Finding>, completed: seq<string>,
                                   token: string, delegate: (Step, I) -> StepRun<I>, notes: I -> seq<Finding>) {
    && !ending.InputsRefused? && ran != []
    && Chain(ran, requested, start, delegate) && EndsAs(ending, ran, requested, delegate)
    && findings == Header(token) + Reports(ran, delegate, notes)
    && completed == CompletedWrites(ran, delegate)
  }

  lemma ReportsExtend<I(!new)>(ran: seq<Ran<I>>, next: Ran<I>, token: string, delegate: (Step, I) -> StepRun<I>, notes: I -> seq<Finding>)
    ensures var run := delegate(next.step, next.inventory);
            && Header(token) + Reports(ran + [next], delegate, notes)
               == Header(token) + Reports(ran, delegate, notes) + Report(next, run, notes)
            && CompletedWrites(ran + [next], delegate) == CompletedWrites(ran, delegate) + CompletedBy(next.step, run)
  {
    assert (ran + [next])[..|ran|] == ran;
  }

  lemma ChainExtends<I(!new)>(ran: seq<Ran<I>>, requested: seq<Step>, start: I, current: I, step: Step, delegate: (Step, I) -> StepRun<I>)
    requires Chain(ran, requested, start, delegate) && |ran| < |requested| && requested[|ran|] == step
    requires AllSucceeded(ran, delegate)
    requires if ran == [] then current == start
             else var last := ran[|ran| - 1]; delegate(last.step, last.inventory).reloaded == Reloaded(current)
    ensures Chain(ran + [Ran(step, current)], requested, start, delegate)
    ensures AllSucceeded(ran + [Ran(step, current)], delegate) <==> Succeeded(step, delegate(step, current))
  {
    var ran' := ran + [Ran(step, current)];
    assert ran'[|ran|] == Ran(step, current);
    assert forall i :: 0 <= i < |ran| ==> ran'[i] == ran[i];
  }

  /** The requested delegates in their order, up to the first that does not succeed. */
  method RunSteps<I(!new)>(a: Actions, inventory: I, token: string, delegate: (Step, I) -> StepRun<I>, notes: I -> seq<Finding>)
    returns (ending: Ending, findings: seq<Finding>, completed: seq<string>, ran: seq<Ran<I>>)
    requires a != Actions(false, false, false)
    ensures Stopped(ending, ran, Requested(a), inventory, findings, completed, token, delegate, notes)
  {
    ghost var requested := Requested(a);
    findings, completed, ran, ending := Header(token), [], [], Finished;
    var current := inventory;
    assert findings == Header(token) + Reports(ran, delegate, notes);
    if a.completePhase {
      ending, findings, completed, current, ran := RunStep(PhaseComplete, current, findings, completed, delegate, notes, ran, requested, inventory, token);
      if ending.StoppedAt? { return; }
    }
    if a.archivePlan {
      ending, findings, completed, current, ran := RunStep(ArchivePlan, current, findings, completed, delegate, notes, ran, requested, inventory, token);
      if ending.StoppedAt? { return; }
    }
    if a.nextItem {
      ending, findings, completed, ran := RunNextSteps(current, findings, completed, delegate, notes, ran, requested, inventory, token);
      return;
    }
    assert |ran| == |requested|;
  }

  /** The two steps that open the next plan. */
  method RunNextSteps<I(!new)>(current: I, findings: seq<Finding>, completed: seq<string>, delegate: (Step, I) -> StepRun<I>,
                               notes: I -> seq<Finding>, ran: seq<Ran<I>>, ghost requested: seq<Step>, ghost start: I, ghost token: string)
    returns (ending: Ending, findings': seq<Finding>, completed': seq<string>, ran': seq<Ran<I>>)
    requires Underway(ran, requested, start, current, findings, completed, token, delegate, notes)
    requires |requested| == |ran| + 2 && requested[|ran|] == NextPlan && requested[|ran| + 1] == NextRoadmap
    requires forall i :: 0 <= i < |ran| ==> Reloads(requested[i])
    ensures Stopped(ending, ran', requested, start, findings', completed', token, delegate, notes)
  {
    var next;
    ending, findings', completed', next, ran' := RunStep(NextPlan, current, findings, completed, delegate, notes, ran, requested, start, token);
    if ending.StoppedAt? { return; }
    ending, findings', completed', next, ran' := RunStep(NextRoadmap, next, findings', completed', delegate, notes, ran', requested, start, token);
  }

  /** What follows the reports of the delegates. */
  function Closing<I>(ending: Ending, ran: seq<Ran<I>>, archive: bool, delegate: (Step, I) -> StepRun<I>): seq<Finding> {
    var writes := DelegatedWrites(ran, delegate);
    EffectiveWriteSet(Deduplicated(writes), archive)
    + match ending
      case InputsRefused => []
      case Finished => [AUTHORITY]
      case StoppedAt(step, reload) =>
        if writes == [] then []
        else [RecoveryFinding(CompletedWrites(ran, delegate), if reload then ReloadName(step) else StepName(step))]
  }

  /** The evidence in the report is what the delegates reported. */
  lemma OnlyDelegatesWrite<I(!new)>(ran: seq<Ran<I>>, token: string, delegate: (Step, I) -> StepRun<I>, notes: I -> seq<Finding>)
    requires NotesAreNoEvidence(delegate, notes)
    ensures RouteWrites(Header(token) + Reports(ran, delegate, notes)) == DelegatedWrites(ran, delegate)
  {
    HeaderIsNoEvidence(token);
    ReportsGiveDelegatedWrites(ran, delegate, notes);
    RouteWritesJoin(Header(token), Reports(ran, delegate, notes));
  }

  ghost predicate HasRecovery(findings: seq<Finding>) {
    exists f :: f in findings && f.code == RECOVERY
  }

  /** No delegate, note or reload error uses the code of the recovery finding. */
  ghost predicate RecoveryIsReserved<I(!new)>(delegate: (Step, I) -> StepRun<I>, notes: I -> seq<Finding>) {
    && (forall inventory :: !HasRecovery(notes(inventory)))
    && (forall step, inventory :: var run := delegate(step, inventory);
          !HasRecovery(run.findings) && (run.reloaded.ReloadFailed? ==> run.reloaded.error.code != RECOVERY))
  }

  lemma OtherCode(f: Finding)
    requires |f.code| > 11 && f.code[11] != 'p'
    ensures f.code != RECOVERY
  {
    assert RECOVERY[11] == 'p';
  }

  lemma {:induction false} ReportsHaveNoRecovery<I(!new)>(ran: seq<Ran<I>>, delegate: (Step, I) -> StepRun<I>, notes: I -> seq<Finding>)
    requires RecoveryIsReserved(delegate, notes)
    ensures !HasRecovery(Reports(ran, delegate, notes))
  {
    if ran != [] {
      var last := ran[|ran| - 1];
      var run := delegate(last.step, last.inventory);
      ReportsHaveNoRecovery(ran[..|ran| - 1], delegate, notes);
      OtherCode(StepNote(last.step));
      assert !HasRecovery(notes(last.inventory)) && !HasRecovery(run.findings);
      assert !HasRecovery(Announcement(last, notes)) && !HasRecovery(ReloadErrors(last.step, run));
      assert !HasRecovery(Report(last, run, notes));
    }
  }

  lemma HeaderHasNoRecovery(token: string)
    ensures !HasRecovery(Header(token))
  {
    forall f | f in Header(token) ensures f.code != RECOVERY {
      OtherCode(f);
    }
  }

  lemma SummaryHasNoRecovery(entries: seq<Entry>, archive: bool)
    ensures !HasRecovery(EffectiveWriteSet(entries, archive)) && AUTHORITY.code != RECOVERY
  {
    OtherCode(AUTHORITY);
    OtherCode(WriteSetFinding(entries));
    OtherCode(BOUNDARY);
    OtherCode(ALIAS);
    assert forall f :: f in EffectiveWriteSet(entries, archive) ==> f in {WriteSetFinding(entries), BOUNDARY, ALIAS};
  }

  lemma RefusalHasNoRecovery(a: Actions, supplied: string, others: seq<Finding>, token: string)
    requires !HasRecovery(others)
    ensures !HasRecovery(InputErrors(a, supplied, others) + [TokenMismatch(token)])
    ensures !HasRecovery(InputErrors(a, supplied, others))
  {
    OtherCode(TokenMismatch(token));
    forall f | f in InputErrors(a, supplied, others) ensures f.code != RECOVERY {
      if f !in others {
        OtherCode(f);
      }
    }
  }

  /** In the whole report the recovery finding is there exactly when the run stopped early with evidence that something was
      written. */
  lemma RecoveryIsExact<I(!new)>(ending: Ending, ran: seq<Ran<I>>, archive: bool, token: string, delegate: (Step, I) -> StepRun<I>,
                                 notes: I -> seq<Finding>)
    requires RecoveryIsReserved(delegate, notes)
    ensures HasRecovery(Header(token) + Reports(ran, delegate, notes) + Closing(ending, ran, archive, delegate))
            <==> ending.StoppedAt? && DelegatedWrites(ran, delegate) != []
  {
    HeaderHasNoRecovery(token);
    ReportsHaveNoRecovery(ran, delegate, notes);
    SummaryHasNoRecovery(Deduplicated(DelegatedWrites(ran, delegate)), archive);
    ClosingHasRecoveryWhen(ending, ran, archive, delegate);
    var before, closing := Header(token) + Reports(ran, delegate, notes), Closing(ending, ran, archive, delegate);
    assert !HasRecovery(before);
    if f :| f in closing && f.code == RECOVERY {
      assert f in before + closing;
    }
  }

  lemma ClosingHasRecoveryWhen<I(!new)>(ending: Ending, ran: seq<Ran<I>>, archive: bool, delegate: (Step, I) -> StepRun<I>)
    ensures HasRecovery(Closing(ending, ran, archive, delegate)) <==> ending.StoppedAt? && DelegatedWrites(ran, delegate) != []
  {
    SummaryHasNoRecovery(Deduplicated(DelegatedWrites(ran, delegate)), archive);
    if ending.StoppedAt? && DelegatedWrites(ran, delegate) != [] {
      var failed := if ending.reload then ReloadName(ending.step) else StepName(ending.step);
      assert RecoveryFinding(CompletedWrites(ran, delegate), failed) in Closing(ending, ran, archive, delegate);
    }
  }

  ghost predicate WroteWithoutError<I>(ran: Ran<I>, delegate: (Step, I) -> StepRun<I>) {
    var findings := delegate(ran.step, ran.inventory).findings;
    !ReportsError(findings) && RouteWrites(findings) != []
  }

  ghost predicate NobodyWrote<I(!new)>(ran: seq<Ran<I>>, delegate: (Step, I) -> StepRun<I>) {
    forall i :: 0 <= i < |ran| ==> RouteWrites(delegate(ran[i].step, ran[i].inventory).findings) == []
  }

  lemma {:induction false} NobodyWroteWhen<I(!new)>(ran: seq<Ran<I>>, delegate: (Step, I) -> StepRun<I>)
    ensures DelegatedWrites(ran, delegate) == [] <==> NobodyWrote(ran, delegate)
  {
    if ran != [] {
      NobodyWroteWhen(ran[..|ran| - 1], delegate);
      assert forall i :: 0 <= i < |ran| - 1 ==> ran[..|ran| - 1][i] == ran[i];
    }
  }

  lemma {:induction false} CompletedHas<I(!new)>(ran: seq<Ran<I>>, delegate: (Step, I) -> StepRun<I>, i: nat)
    requires i < |ran| && WroteWithoutError(ran[i], delegate)
    ensures StepName(ran[i].step) in CompletedWrites(ran, delegate)
  {
    var front, last := ran[..|ran| - 1], ran[|ran| - 1];
    var run := delegate(last.step, last.inventory);
    var before, more := CompletedWrites(front, delegate), CompletedBy(last.step, run);
    if i < |front| {
      CompletedHas(front, delegate, i);
      assert StepName(ran[i].step) in before;
    } else {
      SuccessIsGoingWell(last.step, run);
      assert more == [StepName(last.step)];
    }
    assert CompletedWrites(ran, delegate) == before + more;
  }

  lemma {:induction false} CompletedOnly<I(!new)>(ran: seq<Ran<I>>, delegate: (Step, I) -> StepRun<I>, name: string) returns (i: nat)
    requires name in CompletedWrites(ran, delegate)
    ensures i < |ran| && WroteWithoutError(ran[i], delegate) && name == StepName(ran[i].step)
  {
    var front, last := ran[..|ran| - 1], ran[|ran| - 1];
    var run := delegate(last.step, last.inventory);
    SuccessIsGoingWell(last.step, run);
    if name in CompletedWrites(front, delegate) {
      i := CompletedOnly(front, delegate, name);
    } else {
      assert name in CompletedBy(last.step, run);
      i := |ran| - 1;
    }
  }

  /** The recovery finding names every step that wrote without an error, and after them what failed. */
  ghost predicate TellsHowFar<I(!new)>(message: string, ran: seq<Ran<I>>, failed: string, delegate: (Step, I) -> StepRun<I>) {
    exists done ::
      message == done + " before " + failed
      && forall i :: 0 <= i < |ran| && WroteWithoutError(ran[i], delegate) ==> IsPart(StepName(ran[i].step), done)
  }

  lemma RecoveryTextTells<I(!new)>(ran: seq<Ran<I>>, failed: string, delegate: (Step, I) -> StepRun<I>)
    ensures TellsHowFar(RecoveryFinding(CompletedWrites(ran, delegate), failed).message, ran, failed, delegate)
  {
    var completed := CompletedWrites(ran, delegate);
    var done := if completed == [] then "route-write evidence above" else Join(completed, ", ");
    forall i | 0 <= i < |ran| && WroteWithoutError(ran[i], delegate) ensures IsPart(StepName(ran[i].step), done) {
      CompletedHas(ran, delegate, i);
      var n :| 0 <= n < |completed| && completed[n] == StepName(ran[i].step);
      JoinHasPart(completed, ", ", n);
    }
  }

  /** A run that stopped after a write ends its report with the recovery finding, and that tells how far it got. */
  lemma RecoveryTellsHowFar<I(!new)>(step: Step, reload: bool, ran: seq<Ran<I>>, archive: bool, delegate: (Step, I) -> StepRun<I>)
    returns (f: Finding)
    requires !NobodyWrote(ran, delegate)
    ensures f in Closing(StoppedAt(step, reload), ran, archive, delegate)
    ensures f.severity == Error && f.code == "transition-partial-apply-recovery"
    ensures TellsHowFar(f.message, ran, if reload then ReloadName(step) else StepName(step), delegate)
  {
    var failed := if reload then ReloadName(step) else StepName(step);
    f := RecoveryFinding(CompletedWrites(ran, delegate), failed);
    NobodyWroteWhen(ran, delegate);
    RecoveryTextTells(ran, failed, delegate);
    var closing := Closing(StoppedAt(step, reload), ran, archive, delegate);
    assert closing[|closing| - 1] == f;
  }

  method Close<I(!new)>(ending: Ending, a: Actions, findings: seq<Finding>, completed: seq<string>, delegate: (Step, I) -> StepRun<I>,
                        ghost notes: I -> seq<Finding>, ran: seq<Ran<I>>, ghost token: string) returns (closed: seq<Finding>)
    requires !ending.InputsRefused? && NotesAreNoEvidence(delegate, notes)
    requires findings == Header(token) + Reports(ran, delegate, notes) && completed == CompletedWrites(ran, delegate)
    ensures closed == findings + Closing(ending, ran, a.archivePlan, delegate)
  {
    OnlyDelegatesWrite(ran, token, delegate, notes);
    NoEntriesWithoutWrites(DelegatedWrites(ran, delegate));
    CompletedWritesWrote(ran, delegate);
    var entries := RouteWriteEntries(findings);
    var last: seq<Finding> := [];
    match ending {
      case Finished => last := [AUTHORITY];
      case StoppedAt(step, reload) =>
        if completed != [] || entries != [] {
          last := [RecoveryFinding(completed, if reload then ReloadName(step) else StepName(step))];
        }
    }
    closed := findings + (EffectiveWriteSet(entries, a.archivePlan) + last);
  }

  function TokenMismatch(token: string): Finding {
    Finding(Error, "transition-review-token-mismatch", token)
  }

  /** The input checks that concern the actions and the token; `others` stands for the remaining ones. */
  function InputErrors(a: Actions, supplied: string, others: seq<Finding>): seq<Finding> {
    (if a == Actions(false, false, false) then [Finding(Error, "transition-refused", "an action is required")] else [])
    + (if supplied == "" then [Finding(Error, "transition-refused", "a review token is required")] else [])
    + others
  }

  method TransitionApply<I(!new)>(a: Actions, inventory: I, supplied: string, others: seq<Finding>, payload: I -> string, digest: string -> string,
                                  delegate: (Step, I) -> StepRun<I>, notes: I -> seq<Finding>)
    returns (findings: seq<Finding>, ending: Ending, ran: seq<Ran<I>>)
    requires NotesAreNoEvidence(delegate, notes)
    // No delegate runs unless the inputs are accepted and the token is the digest of the inputs as they are now.
    ensures ending.InputsRefused? <==> a == Actions(false, false, false) || supplied == "" || others != [] || supplied != digest(payload(inventory))
    ensures ran == [] <==> ending.InputsRefused?
    ensures ending.InputsRefused? ==> findings != [] && forall f :: f in others ==> f in findings
    // The delegates that ran were asked for, in the order of the steps and without a gap, each on what its predecessor left;
    // only the last can have failed.
    ensures InSequence(ran, a) && OneAfterTheOther(ran, inventory, delegate) && EndsRightly(ending, ran, a, delegate)
    ensures Chain(ran, Requested(a), inventory, delegate)
    // The report is theirs, in order, followed by the summary of their writes and, exactly when needed, the recovery finding.
    ensures !ending.InputsRefused? ==>
              findings == Header(supplied) + Reports(ran, delegate, notes) + Closing(ending, ran, a.archivePlan, delegate)
    ensures RecoveryIsReserved(delegate, notes) && !HasRecovery(others) ==>
              (HasRecovery(findings) <==> ending.StoppedAt? && DelegatedWrites(ran, delegate) != [])
  {
    var token := digest(payload(inventory));
    var errors := InputErrors(a, supplied, others);
    ran := [];
    if supplied != "" && supplied != token {
      errors := errors + [TokenMismatch(token)];
    }
    if errors != [] {
      if !HasRecovery(others) {
        RefusalHasNoRecovery(a, supplied, others, token);
      }
      return errors, InputsRefused, [];
    }
    var completed, end;
    end, findings, completed, ran := RunSteps(a, inventory, token, delegate, notes);
    ChainIsInSequence(ran, a, inventory, delegate);
    ChainEndsRightly(end, ran, a, inventory, delegate);
    findings := Close(end, a, findings, completed, delegate, notes, ran, token);
    ending := end;
    if RecoveryIsReserved(delegate, notes) {
      RecoveryIsExact(ending, ran, a.archivePlan, token, delegate, notes);
    }
  }

  // The write-set summary of a transition

  /** The code under which a delegate reports its route writes. */
  function RouteWriteCode(step: Step): string {
    match step
    case PhaseComplete => "writeback-route-write"
    case ArchivePlan => "writeback-route-write"
    case NextPlan => "plan-route-write"
    case NextRoadmap => "roadmap-route-write"
  }

  /** A delegate's report: the writes of its file transaction, whose targets are distinct, among findings that are no evidence. */
  ghost predicate IsDelegateReport(findings: seq<Finding>, code: string) {
    exists before, writes, after ::
      && findings == before + RouteWriteFindings(code, writes, true) + after
      && RouteWrites(before) == [] && RouteWrites(after) == []
      && Reportable(code, writes) && DistinctRoutes(writes)
  }

  ghost predicate ReportsAsDelegatesDo<I(!new)>(ran: seq<Ran<I>>, delegate: (Step, I) -> StepRun<I>) {
    forall i :: 0 <= i < |ran| ==> IsDelegateReport(delegate(ran[i].step, ran[i].inventory).findings, RouteWriteCode(ran[i].step))
  }

  lemma DelegateReportsOneKind(findings: seq<Finding>, code: string)
    requires IsDelegateReport(findings, code)
    ensures OneKindPerRoute(RouteWrites(findings)) && forall e :: e in RouteWrites(findings) ==> e.code == code
  {
    var before, writes, after :| && findings == before + RouteWriteFindings(code, writes, true) + after
                                 && RouteWrites(before) == [] && RouteWrites(after) == []
                                 && Reportable(code, writes) && DistinctRoutes(writes);
    var report := RouteWriteFindings(code, writes, true);
    RouteWritesJoin(before, report);
    RouteWritesJoin(before + report, after);
    assert RouteWrites(findings) == RouteWrites(report);
    DistinctRoutesGiveOneKind(code, writes, true);
  }

  /** Which delegate reported the `n`-th write. */
  function Reporter<I>(ran: seq<Ran<I>>, delegate: (Step, I) -> StepRun<I>, n: nat): (r: nat)
    requires n < |DelegatedWrites(ran, delegate)|
    ensures r < |ran|
    ensures DelegatedWrites(ran, delegate)[n] in RouteWrites(delegate(ran[r].step, ran[r].inventory).findings)
  {
    var front := ran[..|ran| - 1];
    if n < |DelegatedWrites(front, delegate)| then Reporter(front, delegate, n) else |ran| - 1
  }

  lemma {:induction false} ReportersInOrder<I(!new)>(ran: seq<Ran<I>>, delegate: (Step, I) -> StepRun<I>, n: nat, m: nat)
    requires n <= m < |DelegatedWrites(ran, delegate)|
    ensures Reporter(ran, delegate, n) <= Reporter(ran, delegate, m)
  {
    var front := ran[..|ran| - 1];
    if m < |DelegatedWrites(front, delegate)| {
      ReportersInOrder(front, delegate, n, m);
    }
  }

  lemma SameCodeMeansNeighbours(a: Actions, i: nat, j: nat)
    requires i <= j < |Requested(a)| && RouteWriteCode(Requested(a)[i]) == RouteWriteCode(Requested(a)[j])
    ensures j <= i + 1
  {
    assert RouteWriteCode(PhaseComplete)[0] == 'w' && RouteWriteCode(NextPlan)[0] == 'p' && RouteWriteCode(NextRoadmap)[0] == 'r';
  }

  /** The delegates of a transition cannot make the summary wrong: what it says of every route is what their writes leave. */
  lemma TransitionSummaryIsRight<I(!new)>(a: Actions, ran: seq<Ran<I>>, start: I, delegate: (Step, I) -> StepRun<I>, rel: string)
    requires Chain(ran, Requested(a), start, delegate) && ReportsAsDelegatesDo(ran, delegate)
    ensures Summary(DelegatedWrites(ran, delegate), rel) == Replay(DelegatedWrites(ran, delegate), rel)
  {
    var events := DelegatedWrites(ran, delegate);
    forall i, k, j | 0 <= i < k < j < |events| && events[i] == events[j] && events[k].rel == events[j].rel
      ensures OperationKind(events[k].operation) == OperationKind(events[j].operation)
    {
      NoRecurrenceAcross(a, ran, start, delegate, i, k, j);
    }
    SummaryRefinesReplay(events, rel);
  }

  lemma NoRecurrenceAcross<I(!new)>(a: Actions, ran: seq<Ran<I>>, start: I, delegate: (Step, I) -> StepRun<I>, i: nat, k: nat, j: nat)
    requires Chain(ran, Requested(a), start, delegate) && ReportsAsDelegatesDo(ran, delegate)
    requires i < k < j < |DelegatedWrites(ran, delegate)|
    requires var events := DelegatedWrites(ran, delegate); events[i] == events[j] && events[k].rel == events[j].rel
    ensures var events := DelegatedWrites(ran, delegate); OperationKind(events[k].operation) == OperationKind(events[j].operation)
  {
    var p, q, r := Reporter(ran, delegate, i), Reporter(ran, delegate, k), Reporter(ran, delegate, j);
    ReportersInOrder(ran, delegate, i, k);
    ReportersInOrder(ran, delegate, k, j);
    DelegateReportsOneKind(delegate(ran[p].step, ran[p].inventory).findings, RouteWriteCode(ran[p].step));
    DelegateReportsOneKind(delegate(ran[r].step, ran[r].inventory).findings, RouteWriteCode(ran[r].step));
    SameCodeMeansNeighbours(a, p, r);
    assert q == p || q == r;
  }

  // What the summary finding says

  /** A part of the text says of the route that it ends up in the state. */
  ghost predicate SaysOf(text: string, rel: string, word: string) {
    exists actions, more :: IsPart(rel + ": " + actions + " (final route: " + word + more + ")", text)
  }

  lemma GroupTextSays(entries: seq<Entry>, rel: string, text: string)
    requires IsPart(GroupText(entries, rel), text)
    ensures SaysOf(text, rel, StateWord(FinalState(Group(entries, rel))))
  {
    var group := Group(entries, rel);
    var actions, word, more := Join(ActionsOf(group), ", "), StateWord(FinalState(group)), PlanRouteNote(rel, group);
    assert GroupText(entries, rel) == rel + ": " + actions + " (final route: " + word + more + ")";
  }

  /** The finding that a transition ends with says of every route that its delegates wrote what their writes leave of it. */
  lemma SummaryFindingIsRight<I(!new)>(a: Actions, ran: seq<Ran<I>>, start: I, delegate: (Step, I) -> StepRun<I>, rel: string)
    requires Chain(ran, Requested(a), start, delegate) && ReportsAsDelegatesDo(ran, delegate)
    requires exists e :: e in DelegatedWrites(ran, delegate) && e.rel == rel
    ensures exists f :: f in EffectiveWriteSet(Deduplicated(DelegatedWrites(ran, delegate)), a.archivePlan)
                        && f.code == "transition-effective-write-set"
                        && SaysOf(f.message, rel, if Replay(DelegatedWrites(ran, delegate), rel) == Present then "present" else "absent")
  {
    var writes := DelegatedWrites(ran, delegate);
    var entries := Deduplicated(writes);
    TransitionSummaryIsRight(a, ran, start, delegate, rel);
    ReplayKnows(writes, rel);
    DeduplicatedKeepsElements(writes);
    FormatSays(entries, rel);
    assert EffectiveWriteSet(entries, a.archivePlan)[0] == WriteSetFinding(entries);
  }

  lemma FormatSays(entries: seq<Entry>, rel: string)
    requires exists e :: e in entries && e.rel == rel
    ensures SaysOf(Format(entries), rel, StateWord(FinalState(Group(entries, rel))))
  {
    var routes := Routes(entries);
    assert rel in routes;
    var i :| 0 <= i < |routes| && routes[i] == rel;
    JoinHasPart(GroupTexts(entries), "; ", i);
    GroupTextSays(entries, rel, Format(entries));
  }

  lemma {:induction false} ReplayKnows(events: seq<Entry>, rel: string)
    requires exists e :: e in events && e.rel == rel
    ensures Replay(events, rel) == Present || Replay(events, rel) == Gone
  {
    var last, front := events[|events| - 1], events[..|events| - 1];
    if last.rel != rel {
      assert events == front + [last];
      ReplayKnows(front, rel);
    }
  }

  // Where the delegates' findings are

  /** A delegate's findings stand unchanged at `k`, with the reload error, when there is one, right behind them. */
  ghost predicate StandsAt<I>(k: nat, report: seq<Finding>, step: Step, run: StepRun<I>) {
    var end := k + |run.findings|;
    && end <= |report| && report[k..end] == run.findings
    && (!ReportsError(run.findings) && step != NextRoadmap && run.reloaded.ReloadFailed? ==>
          end < |report| && report[end] == run.reloaded.error)
  }

  /** The findings of every delegate stand in the report one after the other. */
  ghost predicate StandInOrder<I(!new)>(at: seq<nat>, report: seq<Finding>, ran: seq<Ran<I>>, delegate: (Step, I) -> StepRun<I>) {
    && |at| == |ran|
    && (forall i :: 0 <= i < |ran| ==> StandsAt(at[i], report, ran[i].step, delegate(ran[i].step, ran[i].inventory)))
    && (forall i, j :: 0 <= i < j < |ran| ==> at[i] + |delegate(ran[i].step, ran[i].inventory).findings| < at[j])
  }

  lemma StillStands<I>(k: nat, report: seq<Finding>, more: seq<Finding>, step: Step, run: StepRun<I>)
    requires StandsAt(k, report, step, run)
    ensures StandsAt(k, report + more, step, run)
  {
    var end := k + |run.findings|;
    assert (report + more)[k..end] == report[k..end];
  }

  lemma ReportStands<I(!new)>(before: seq<Finding>, last: Ran<I>, run: StepRun<I>, notes: I -> seq<Finding>)
    ensures StandsAt(|before| + |Announcement(last, notes)|, before + Report(last, run, notes), last.step, run)
  {
    var opening, errors := Announcement(last, notes), ReloadErrors(last.step, run);
    var report := before + Report(last, run, notes);
    assert report == (before + opening) + run.findings + errors;
    SuccessIsGoingWell(last.step, run);
  }

  lemma OneMoreStands<I(!new)>(at: seq<nat>, before: seq<Finding>, more: seq<Finding>, k: nat, ran: seq<Ran<I>>, last: Ran<I>,
                               delegate: (Step, I) -> StepRun<I>)
    requires StandInOrder(at, before, ran, delegate) && |before| < k
    requires StandsAt(k, before + more, last.step, delegate(last.step, last.inventory))
    ensures StandInOrder(at + [k], before + more, ran + [last], delegate)
  {
    var at', ran' := at + [k], ran + [last];
    forall i | 0 <= i < |ran'| ensures StandsAt(at'[i], before + more, ran'[i].step, delegate(ran'[i].step, ran'[i].inventory)) {
      if i < |ran| {
        StillStands(at[i], before, more, ran[i].step, delegate(ran[i].step, ran[i].inventory));
      }
    }
    forall i | 0 <= i < |ran| ensures at[i] + |delegate(ran[i].step, ran[i].inventory).findings| <= |before| {
      assert StandsAt(at[i], before, ran[i].step, delegate(ran[i].step, ran[i].inventory));
    }
  }

  lemma {:induction false} ReportHasEverything<I(!new)>(ran: seq<Ran<I>>, delegate: (Step, I) -> StepRun<I>, notes: I -> seq<Finding>)
    returns (at: seq<nat>)
    ensures StandInOrder(at, Reports(ran, delegate, notes), ran, delegate)
  {
    at := [];
    if ran != [] {
      var front, last := ran[..|ran| - 1], ran[|ran| - 1];
      var run := delegate(last.step, last.inventory);
      var before := Reports(front, delegate, notes);
      var k := |before| + |Announcement(last, notes)|;
      at := ReportHasEverything(front, delegate, notes);
      ReportStands(before, last, run, notes);
      assert ran == front + [last] && Reports(ran, delegate, notes) == before + Report(last, run, notes);
      OneMoreStands(at, before, Report(last, run, notes), k, front, last, delegate);
      at := at + [k];
    }
  }
}
