/** Route-write evidence of a transition: reading it back from findings, summarizing it, and what the summary says. */
module WriteSets {
  import opened Common

  datatype Severity = Info | Warn | Error

  datatype Finding = Finding(severity: Severity, code: string, message: string)

  datatype Entry = Entry(rel: string, operation: string, code: string)

  datatype Kind = WriteKind | DeleteKind

  datatype RouteState = Unknown | Present | Gone

  datatype Evidence = NoEvidence | RouteWrite(operation: string, rel: string)

  // Reading one message back

  function AfterPrefix(s: string, prefix: string): string
    requires StartsWith(s, prefix)
  {
    s[|prefix|..]
  }

  /** The text before the first semicolon; nothing when there is none. */
  function BeforeSemicolon(s: string): (r: Evidence)
    ensures r.RouteWrite? <==> ';' in s
    ensures r.RouteWrite? ==> ';' !in r.rel && StartsWith(s, r.rel + ";")
  {
    if s == "" then NoEvidence
    else if s[0] == ';' then RouteWrite("", "")
    else
      match BeforeSemicolon(s[1..])
      case NoEvidence => NoEvidence
      case RouteWrite(_, rel) => RouteWrite("", [s[0]] + rel)
  }

  const OPERATIONS := ["create", "write", "delete", "created", "wrote", "deleted"]
  const ROUTE := " route "

  /** Tries the operations from the `n`-th on. */
  function ParseFrom(s: string, n: nat): Evidence
    decreases |OPERATIONS| - n
  {
    if n >= |OPERATIONS| then NoEvidence
    else if StartsWith(s, OPERATIONS[n] + ROUTE) then
      var r := BeforeSemicolon(AfterPrefix(s, OPERATIONS[n] + ROUTE));
      if r.RouteWrite? && r.rel != "" then RouteWrite(OPERATIONS[n], r.rel) else NoEvidence
    else ParseFrom(s, n + 1)
  }

  function ParseRouteWrite(message: string): Evidence {
    ParseFrom(if StartsWith(message, "would ") then AfterPrefix(message, "would ") else message, 0)
  }

  /** How a delegate reports a route write. */
  function RouteWriteMessage(operation: string, rel: string, details: string, apply: bool): string {
    (if apply then "" else "would ") + (operation + ROUTE) + (rel + ";") + details
  }

  lemma {:induction false} FirstSemicolon(rel: string, details: string)
    requires ';' !in rel
    ensures BeforeSemicolon(rel + ";" + details) == RouteWrite("", rel)
  {
    var s := rel + ";" + details;
    if rel == "" {
      assert s[0] == ';';
    } else {
      assert s[1..] == rel[1..] + ";" + details;
      FirstSemicolon(rel[1..], details);
    }
  }

  lemma OnlyOneOperationMatches(s: string, i: nat, j: nat)
    requires i < |OPERATIONS| && j < |OPERATIONS| && i != j
    requires StartsWith(s, OPERATIONS[i] + ROUTE)
    ensures !StartsWith(s, OPERATIONS[j] + ROUTE)
  {
    var a, b := OPERATIONS[i] + ROUTE, OPERATIONS[j] + ROUTE;
    if StartsWith(s, b) {
      var n := if |a| <= |b| then |a| else |b|;
      assert a[..n] == s[..n] == b[..n];
      OperationsDiffer(i, j);
    }
  }

  lemma OperationsDiffer(i: nat, j: nat)
    requires i < |OPERATIONS| && j < |OPERATIONS| && i != j
    ensures var a, b := OPERATIONS[i] + ROUTE, OPERATIONS[j] + ROUTE;
            exists k :: 0 <= k < |a| && k < |b| && a[k] != b[k]
  {
    var a, b := OPERATIONS[i] + ROUTE, OPERATIONS[j] + ROUTE;
    assert a[0] != b[0] || a[2] != b[2] || a[6] != b[6] || a[5] != b[5];
  }

  lemma {:induction false} ParseFromFinds(s: string, n: nat, i: nat)
    requires n <= i < |OPERATIONS| && StartsWith(s, OPERATIONS[i] + ROUTE)
    ensures ParseFrom(s, n) == ParseFrom(s, i)
    decreases i - n
  {
    if n < i {
      OnlyOneOperationMatches(s, i, n);
      ParseFromFinds(s, n + 1, i);
    }
  }

  /** Evidence is read back as it was reported, by dry runs and by applies. */
  lemma EvidenceReadsBack(i: nat, rel: string, details: string, apply: bool)
    requires i < |OPERATIONS| && rel != "" && ';' !in rel
    ensures ParseRouteWrite(RouteWriteMessage(OPERATIONS[i], rel, details, apply)) == RouteWrite(OPERATIONS[i], rel)
  {
    var head, tail := OPERATIONS[i] + ROUTE, rel + ";" + details;
    var body := head + tail;
    var message := RouteWriteMessage(OPERATIONS[i], rel, details, apply);
    if apply {
      assert message == body;
      assert head[1] != "would "[1] || head[0] != "would "[0];
      assert body[..6][0] == head[0] && body[..6][1] == head[1];
    } else {
      assert message == "would " + body;
      assert AfterPrefix(message, "would ") == body;
    }
    assert StartsWith(body, head);
    assert AfterPrefix(body, head) == tail;
    ParseFromFinds(body, 0, i);
    FirstSemicolon(rel, details);
  }

  /** A message that reports a route write: perhaps `would `, an operation, ` route `, a path, a semicolon, and whatever follows. */
  ghost predicate Reports(message: string, operation: string, rel: string) {
    exists would, details :: ReportsAs(message, would, operation, rel, details)
  }

  ghost predicate ReportsAs(message: string, would: string, operation: string, rel: string, details: string) {
    && (would == "" || would == "would ") && IsOperation(operation)
    && rel != "" && ';' !in rel
    && message == would + (operation + ROUTE) + (rel + ";") + details
  }

  ghost predicate IsOperation(operation: string) {
    operation in {"create", "write", "delete", "created", "wrote", "deleted"}
  }

  lemma OperationsAre(n: nat)
    requires n < |OPERATIONS|
    ensures IsOperation(OPERATIONS[n])
  {
  }

  lemma OperationIndex(operation: string) returns (n: nat)
    requires IsOperation(operation)
    ensures n < |OPERATIONS| && OPERATIONS[n] == operation
  {
    n := if operation == "create" then 0 else if operation == "write" then 1 else if operation == "delete" then 2
         else if operation == "created" then 3 else if operation == "wrote" then 4 else 5;
  }

  lemma HeadReports(s: string, operation: string, r: Evidence)
    requires IsOperation(operation) && StartsWith(s, operation + ROUTE)
    requires r == BeforeSemicolon(AfterPrefix(s, operation + ROUTE)) && r.RouteWrite? && r.rel != ""
    ensures exists details :: ReportsAs(s, "", operation, r.rel, details)
  {
    var head := operation + ROUTE;
    var rest := AfterPrefix(s, head);
    var middle := r.rel + ";";
    var details := rest[|middle|..];
    assert rest == middle + details;
    PartsReport(s, operation, r.rel, rest, details);
  }

  lemma PartsReport(s: string, operation: string, rel: string, rest: string, details: string)
    requires IsOperation(operation) && rel != "" && ';' !in rel
    requires s == (operation + ROUTE) + rest && rest == (rel + ";") + details
    ensures ReportsAs(s, "", operation, rel, details)
  {
    Regroup("", operation + ROUTE, rel + ";", details);
  }

  lemma {:induction false} ParseFromReports(s: string, n: nat, operation: string, rel: string)
    requires ParseFrom(s, n) == RouteWrite(operation, rel)
    ensures exists details :: ReportsAs(s, "", operation, rel, details)
    decreases |OPERATIONS| - n
  {
    if StartsWith(s, OPERATIONS[n] + ROUTE) {
      OperationsAre(n);
      HeadReports(s, OPERATIONS[n], BeforeSemicolon(AfterPrefix(s, OPERATIONS[n] + ROUTE)));
    } else {
      ParseFromReports(s, n + 1, operation, rel);
    }
  }

  lemma ParsedIsReported(message: string, operation: string, rel: string)
    requires ParseRouteWrite(message) == RouteWrite(operation, rel)
    ensures Reports(message, operation, rel)
  {
    var would := StartsWith(message, "would ");
    var s := if would then AfterPrefix(message, "would ") else message;
    ParseFromReports(s, 0, operation, rel);
    var details :| ReportsAs(s, "", operation, rel, details);
    if would {
      assert message == "would " + s;
      Regroup("", operation + ROUTE, rel + ";", details);
      Regroup("would ", operation + ROUTE, rel + ";", details);
      assert ReportsAs(message, "would ", operation, rel, details);
    }
  }

  lemma Regroup(a: string, b: string, c: string, d: string)
    ensures a + b + c + d == a + (b + (c + d))
    ensures a == "" ==> a + b + c + d == b + (c + d)
  {
  }

  lemma ReportedIsParsed(message: string, operation: string, rel: string)
    requires Reports(message, operation, rel)
    ensures ParseRouteWrite(message) == RouteWrite(operation, rel)
  {
    var would, details :| ReportsAs(message, would, operation, rel, details);
    var i := OperationIndex(operation);
    EvidenceReadsBack(i, rel, details, would == "");
  }

  /** A message is read as a route write exactly when it reports one, and then as the one that it reports. */
  lemma ParseIsExact(message: string, operation: string, rel: string)
    ensures ParseRouteWrite(message) == RouteWrite(operation, rel) <==> Reports(message, operation, rel)
  {
    if ParseRouteWrite(message) == RouteWrite(operation, rel) {
      ParsedIsReported(message, operation, rel);
    }
    if Reports(message, operation, rel) {
      ReportedIsParsed(message, operation, rel);
    }
  }

  /** Evidence is a finding that is no error, has a route-write code and reports a route write. */
  lemma EvidenceIs(f: Finding)
    ensures IsEvidence(f) <==> && (f.severity == Info || f.severity == Warn)
                               && (exists prefix :: f.code == prefix + "-route-write")
                               && exists operation, rel :: Reports(f.message, operation, rel)
    ensures IsEvidence(f) ==> EntryOf(f).code == f.code && Reports(f.message, EntryOf(f).operation, EntryOf(f).rel)
  {
    var parsed := ParseRouteWrite(f.message);
    if parsed.RouteWrite? {
      ParseIsExact(f.message, parsed.operation, parsed.rel);
    }
    if operation, rel :| Reports(f.message, operation, rel) {
      ParseIsExact(f.message, operation, rel);
    }
    EndsWithIs(f.code, "-route-write");
  }

  lemma EndsWithIs(s: string, suffix: string)
    ensures EndsWith(s, suffix) <==> exists prefix :: s == prefix + suffix
  {
    if EndsWith(s, suffix) {
      assert s == s[..|s| - |suffix|] + suffix;
    }
  }

  // The summary

  /** Whether a finding is evidence of a route write. */
  predicate IsEvidence(f: Finding) {
    f.severity != Error && EndsWith(f.code, "-route-write") && ParseRouteWrite(f.message).RouteWrite?
  }

  function EntryOf(f: Finding): Entry
    requires IsEvidence(f)
  {
    var e := ParseRouteWrite(f.message);
    Entry(e.rel, e.operation, f.code)
  }

  /** All route writes, in order, with their repetitions. */
  function RouteWrites(findings: seq<Finding>): seq<Entry> {
    if findings == [] then []
    else
      var last := findings[|findings| - 1];
      RouteWrites(findings[..|findings| - 1]) + if IsEvidence(last) then [EntryOf(last)] else []
  }

  /** The first occurrence of each entry, in order. */
  function Deduplicated(events: seq<Entry>): seq<Entry> {
    if events == [] then []
    else
      var front, last := Deduplicated(events[..|events| - 1]), events[|events| - 1];
      if last in front then front else front + [last]
  }

  lemma RouteWritesSnoc(findings: seq<Finding>, i: nat)
    requires i < |findings|
    ensures RouteWrites(findings[..i + 1])
            == if IsEvidence(findings[i]) then RouteWrites(findings[..i]) + [EntryOf(findings[i])] else RouteWrites(findings[..i])
  {
    assert findings[..i + 1][..i] == findings[..i];
  }

  lemma DeduplicatedSnoc(events: seq<Entry>, e: Entry)
    ensures Deduplicated(events + [e]) == if e in Deduplicated(events) then Deduplicated(events) else Deduplicated(events) + [e]
  {
    assert (events + [e])[..|events|] == events;
  }

  method RouteWriteEntries(findings: seq<Finding>) returns (entries: seq<Entry>)
    ensures entries == Deduplicated(RouteWrites(findings))
  {
    entries := [];
    var seen: set<Entry> := {};
    for i := 0 to |findings|
      invariant entries == Deduplicated(RouteWrites(findings[..i]))
      invariant forall e :: e in seen <==> e in entries
    {
      RouteWritesSnoc(findings, i);
      if !IsEvidence(findings[i]) {
        continue;
      }
      var entry := EntryOf(findings[i]);
      DeduplicatedSnoc(RouteWrites(findings[..i]), entry);
      if entry in seen {
        continue;
      }
      seen := seen + {entry};
      entries := entries + [entry];
    }
    assert findings[..|findings|] == findings;
  }

  function OperationKind(operation: string): Kind {
    if operation in {"delete", "deleted"} then DeleteKind else WriteKind
  }

  function StateAfter(e: Entry): RouteState {
    if OperationKind(e.operation) == DeleteKind then Gone else Present
  }

  /** The entries of one route, in order. */
  function Group(entries: seq<Entry>, rel: string): seq<Entry> {
    if entries == [] then []
    else
      var last := entries[|entries| - 1];
      Group(entries[..|entries| - 1], rel) + if last.rel == rel then [last] else []
  }

  /** What the summary says about one route. */
  function FinalState(group: seq<Entry>): RouteState {
    if group == [] then Unknown else StateAfter(group[|group| - 1])
  }

  ghost function Summary(events: seq<Entry>, rel: string): RouteState {
    FinalState(Group(Deduplicated(events), rel))
  }

  /** What really becomes of a route: every write is replayed. */
  ghost function Replay(events: seq<Entry>, rel: string): RouteState {
    if events == [] then Unknown
    else
      var last := events[|events| - 1];
      if last.rel == rel then StateAfter(last) else Replay(events[..|events| - 1], rel)
  }

  lemma {:induction false} DeduplicatedKeepsElements(events: seq<Entry>)
    ensures forall e :: e in Deduplicated(events) <==> e in events
  {
    if events != [] {
      DeduplicatedKeepsElements(events[..|events| - 1]);
      assert events == events[..|events| - 1] + [events[|events| - 1]];
    }
  }

  /** The positions of the first occurrences, in order. */
  ghost predicate AreFirsts(at: seq<nat>, entries: seq<Entry>, events: seq<Entry>) {
    && |at| == |entries|
    && (forall k :: 0 <= k < |at| ==> at[k] < |events| && events[at[k]] == entries[k] && entries[k] !in events[..at[k]])
    && (forall j, k :: 0 <= j < k < |at| ==> at[j] < at[k])
    && (forall e :: e in events ==> e in entries)
  }

  lemma FirstsStay(at: seq<nat>, entries: seq<Entry>, front: seq<Entry>, last: Entry)
    requires AreFirsts(at, entries, front)
    ensures last in entries ==> AreFirsts(at, entries, front + [last])
    ensures last !in front ==> AreFirsts(at + [|front|], entries + [last], front + [last])
  {
    var events := front + [last];
    forall k | 0 <= k < |at| ensures events[at[k]] == entries[k] && entries[k] !in events[..at[k]] {
      assert events[..at[k]] == front[..at[k]];
    }
    assert events[..|front|] == front;
    assert (at + [|front|])[|at|] == |front| && (entries + [last])[|entries|] == last;
  }

  lemma {:induction false} DeduplicatedAreFirsts(events: seq<Entry>) returns (at: seq<nat>)
    ensures AreFirsts(at, Deduplicated(events), events)
  {
    at := [];
    if events != [] {
      var front, last := events[..|events| - 1], events[|events| - 1];
      at := DeduplicatedAreFirsts(front);
      DeduplicatedKeepsElements(front);
      FirstsStay(at, Deduplicated(front), front, last);
      assert events == front + [last];
      at := if last in Deduplicated(front) then at else at + [|front|];
    }
  }

  /** The first time that this very entry occurs. */
  ghost predicate IsNew(events: seq<Entry>, i: nat) {
    i < |events| && events[i] !in events[..i]
  }

  /** The `i`-th event is the last on its route, and it is on `rel`. */
  ghost predicate LastOn(events: seq<Entry>, rel: string, i: nat) {
    i < |events| && events[i].rel == rel && forall k :: i < k < |events| ==> events[k].rel != rel
  }

  ghost predicate NewOn(events: seq<Entry>, rel: string, i: nat) {
    i < |events| && events[i].rel == rel && IsNew(events, i)
  }

  ghost predicate LastNewOn(events: seq<Entry>, rel: string, i: nat) {
    NewOn(events, rel, i) && forall k :: i < k < |events| ==> !NewOn(events, rel, k)
  }

  lemma {:induction false} ReplayIsLast(events: seq<Entry>, rel: string, j: nat)
    requires LastOn(events, rel, j)
    ensures Replay(events, rel) == StateAfter(events[j])
  {
    if j < |events| - 1 {
      ReplayIsLast(events[..|events| - 1], rel, j);
    }
  }

  lemma {:induction false} SummaryIsLastNew(events: seq<Entry>, rel: string, i: nat)
    requires LastNewOn(events, rel, i)
    ensures Summary(events, rel) == StateAfter(events[i])
  {
    var n := |events| - 1;
    var front, last := events[..n], events[n];
    var entries := Deduplicated(front);
    DeduplicatedKeepsElements(front);
    if i < n {
      assert front[..i] == events[..i];
      forall k | i < k < n ensures !NewOn(front, rel, k) {
        assert front[..k] == events[..k];
        assert !NewOn(events, rel, k);
      }
      assert !NewOn(events, rel, n);
      SummaryIsLastNew(front, rel, i);
      assert last.rel == rel ==> last in front by { assert events[..n] == front; }
    }
    if last !in entries {
      assert (entries + [last])[..|entries|] == entries;
    }
  }

  /** A route that no event is on is unknown to both. */
  lemma {:induction false} NeitherKnows(events: seq<Entry>, rel: string)
    requires forall k :: 0 <= k < |events| ==> events[k].rel != rel
    ensures Summary(events, rel) == Unknown && Replay(events, rel) == Unknown
  {
    if events != [] {
      var front, last := events[..|events| - 1], events[|events| - 1];
      NeitherKnows(front, rel);
      var entries := Deduplicated(front);
      if last !in entries {
        assert (entries + [last])[..|entries|] == entries;
      }
    }
  }

  /** No entry recurs after an operation of the other kind on its route. */
  ghost predicate NoEntryRecursAcross(events: seq<Entry>) {
    forall i, k, j :: 0 <= i < k < j < |events| && events[i] == events[j] && events[k].rel == events[j].rel ==>
      OperationKind(events[k].operation) == OperationKind(events[j].operation)
  }

  lemma {:induction false} FindLast(events: seq<Entry>, rel: string, n: nat, k: nat) returns (j: nat)
    requires k < n <= |events| && events[k].rel == rel
    ensures k <= j < n && events[j].rel == rel && forall l :: j < l < n ==> events[l].rel != rel
  {
    if events[n - 1].rel == rel {
      j := n - 1;
    } else {
      j := FindLast(events, rel, n - 1, k);
    }
  }

  lemma {:induction false} FindLastNew(events: seq<Entry>, rel: string, n: nat, k: nat) returns (i: nat)
    requires k < n <= |events| && NewOn(events, rel, k)
    ensures k <= i < n && NewOn(events, rel, i) && forall l :: i < l < n ==> !NewOn(events, rel, l)
  {
    if NewOn(events, rel, n - 1) {
      i := n - 1;
    } else {
      i := FindLastNew(events, rel, n - 1, k);
    }
  }

  lemma {:induction false} FirstOccurrence(events: seq<Entry>, j: nat) returns (m: nat)
    requires j < |events|
    ensures m <= j && events[m] == events[j] && IsNew(events, m)
  {
    if events[j] in events[..j] {
      var k :| 0 <= k < j && events[k] == events[j];
      m := FirstOccurrence(events, k);
    } else {
      m := j;
    }
  }

  /** The last entry of the route that is new, and its last entry. */
  lemma Ends(events: seq<Entry>, rel: string, k: nat) returns (m: nat, i: nat, j: nat)
    requires k < |events| && events[k].rel == rel
    ensures LastNewOn(events, rel, i) && LastOn(events, rel, j) && m <= i <= j && events[m] == events[j]
  {
    j := FindLast(events, rel, |events|, k);
    m := FirstOccurrence(events, j);
    i := FindLastNew(events, rel, |events|, m);
  }

  ghost predicate EndsInKind(events: seq<Entry>, rel: string) {
    forall i: nat, j: nat :: LastNewOn(events, rel, i) && LastOn(events, rel, j) ==>
      OperationKind(events[i].operation) == OperationKind(events[j].operation)
  }

  lemma EndsDecide(events: seq<Entry>, rel: string, i: nat, j: nat)
    requires LastNewOn(events, rel, i) && LastOn(events, rel, j)
    ensures EndsInKind(events, rel) <==> OperationKind(events[i].operation) == OperationKind(events[j].operation)
  {
    forall a: nat, b: nat | LastNewOn(events, rel, a) && LastOn(events, rel, b) ensures a == i && b == j {}
  }

  /** For every sequence and route, the summary's final state is the replayed one exactly when the route's last entry is of
      the same kind as its last new entry. */
  lemma SummaryIsExact(events: seq<Entry>, rel: string)
    ensures Summary(events, rel) == Replay(events, rel) <==> EndsInKind(events, rel)
  {
    if k: nat :| k < |events| && events[k].rel == rel {
      var m, i, j := Ends(events, rel, k);
      SummaryIsLastNew(events, rel, i);
      ReplayIsLast(events, rel, j);
      EndsDecide(events, rel, i, j);
    } else {
      NeitherKnows(events, rel);
    }
  }

  lemma KindsAgree(events: seq<Entry>, m: nat, i: nat, j: nat)
    requires NoEntryRecursAcross(events) && m <= i <= j < |events| && events[m] == events[j] && events[i].rel == events[j].rel
    ensures OperationKind(events[i].operation) == OperationKind(events[j].operation)
  {
  }

  /** Without such a recurrence the summary refines the replay, on every route. */
  lemma SummaryRefinesReplay(events: seq<Entry>, rel: string)
    requires NoEntryRecursAcross(events)
    ensures Summary(events, rel) == Replay(events, rel)
  {
    SummaryIsExact(events, rel);
    if k: nat :| k < |events| && events[k].rel == rel {
      var m, i, j := Ends(events, rel, k);
      EndsDecide(events, rel, i, j);
      KindsAgree(events, m, i, j);
    }
  }

  // Evidence that is true of what happens

  /** How a write is reported; nothing is reported when the text stays the same. */
  function RouteWriteOperation(hadText: bool, hasText: bool, apply: bool): string {
    if !hadText && hasText then (if apply then "created" else "create")
    else if hadText && !hasText then (if apply then "deleted" else "delete")
    else (if apply then "wrote" else "write")
  }

  ghost predicate IsCreate(operation: string) {
    operation in {"create", "created"}
  }

  /** Only what is not there is created, and only what is there is written or deleted. */
  ghost predicate Fits(operation: string, there: bool) {
    IsCreate(operation) <==> !there
  }

  lemma ReportedOperationFits(hadText: bool, hasText: bool, apply: bool, rel: string, code: string)
    requires hadText || hasText
    ensures var operation := RouteWriteOperation(hadText, hasText, apply);
            && Fits(operation, hadText)
            && StateAfter(Entry(rel, operation, code)) == (if hasText then Present else Gone)
  {
  }

  ghost predicate IsThere(events: seq<Entry>, rel: string, existing: set<string>) {
    match Replay(events, rel)
    case Unknown => rel in existing
    case Present => true
    case Gone => false
  }

  /** Every operation fits what the ones before it have left, starting from the routes in `existing`. */
  ghost predicate Truthful(events: seq<Entry>, existing: set<string>) {
    forall n :: 0 <= n < |events| ==> Fits(events[n].operation, IsThere(events[..n], events[n].rel, existing))
  }

  /** No creation and no deletion of the route is reported twice in the same words. */
  ghost predicate CreatedAndDeletedOnce(events: seq<Entry>, rel: string) {
    forall i, j :: 0 <= i < j < |events| && events[i] == events[j] && events[j].rel == rel ==>
      OperationKind(events[j].operation) == WriteKind && !IsCreate(events[j].operation)
  }

  /** Where, after `i`, the kind changes for the first time. */
  lemma {:induction false} KindChanges(events: seq<Entry>, rel: string, i: nat, j: nat) returns (p: nat, k: nat)
    requires i < j < |events| && events[i].rel == rel && events[j].rel == rel
    requires OperationKind(events[i].operation) != OperationKind(events[j].operation)
    ensures i <= p < k <= j && LastOn(events[..k], rel, p) && events[k].rel == rel
    ensures OperationKind(events[p].operation) == OperationKind(events[i].operation) != OperationKind(events[k].operation)
  {
    p := FindLast(events, rel, j, i);
    if OperationKind(events[p].operation) == OperationKind(events[i].operation) {
      k := j;
    } else {
      p, k := KindChanges(events, rel, i, p);
    }
  }

  /** Truthful evidence that creates and deletes a route at most once in the same words is summarized as it is replayed,
      however often it is written. */
  lemma TruthfulSummaryIsExact(events: seq<Entry>, existing: set<string>, rel: string)
    requires Truthful(events, existing) && CreatedAndDeletedOnce(events, rel)
    ensures Summary(events, rel) == Replay(events, rel)
  {
    SummaryIsExact(events, rel);
    if k: nat :| k < |events| && events[k].rel == rel {
      var m, i, j := Ends(events, rel, k);
      EndsDecide(events, rel, i, j);
      if OperationKind(events[i].operation) != OperationKind(events[j].operation) {
        NoChangeAfterLastNew(events, existing, rel, i, j);
      }
    }
  }

  lemma NoChangeAfterLastNew(events: seq<Entry>, existing: set<string>, rel: string, i: nat, j: nat)
    requires Truthful(events, existing) && CreatedAndDeletedOnce(events, rel)
    requires LastNewOn(events, rel, i) && i < j && LastOn(events, rel, j)
    ensures OperationKind(events[i].operation) == OperationKind(events[j].operation)
  {
    if OperationKind(events[i].operation) != OperationKind(events[j].operation) {
      var p, k := KindChanges(events, rel, i, j);
      ChangeIsNew(events, existing, rel, p, k);
    }
  }

  /** A change of kind is a creation or a deletion, and so a new entry. */
  lemma ChangeIsNew(events: seq<Entry>, existing: set<string>, rel: string, p: nat, k: nat)
    requires Truthful(events, existing) && CreatedAndDeletedOnce(events, rel)
    requires p < k < |events| && LastOn(events[..k], rel, p) && events[k].rel == rel
    requires OperationKind(events[p].operation) != OperationKind(events[k].operation)
    ensures NewOn(events, rel, k)
  {
    ReplayIsLast(events[..k], rel, p);
    assert Fits(events[k].operation, IsThere(events[..k], rel, existing));
    var m := FirstOccurrence(events, k);
    assert m == k;
  }

  /** Without that, even truthful evidence can be summarized wrongly: a route created, deleted and created again in the same
      words is summarized as absent although it is there. */
  lemma RecreatedRouteIsSummarizedAbsent()
    ensures var rel := "project/implementation-plan.md";
            var create, delete := Entry(rel, "created", "plan-route-write"), Entry(rel, "deleted", "writeback-route-write");
            var events := [create, delete, create];
            Truthful(events, {}) && Summary(events, rel) == Gone && Replay(events, rel) == Present
  {
    var rel := "project/implementation-plan.md";
    var create, delete := Entry(rel, "created", "plan-route-write"), Entry(rel, "deleted", "writeback-route-write");
    var events := [create, delete, create];
    assert events[..0] == [] && events[..1] == [create] && events[..2] == [create, delete] && [create, delete][..1] == [create];
    assert LastNewOn(events, rel, 1);
    assert LastOn(events, rel, 2);
    SummaryIsLastNew(events, rel, 1);
    ReplayIsLast(events, rel, 2);
  }

  // What a delegate reports, and what is read back

  /** One file of a delegate's transaction; `details` is the rest of the message. */
  datatype RouteWriteEvidence = RouteWriteEvidence(rel: string, before: Option<string>, after: Option<string>, details: string)

  ghost function EntryFor(code: string, w: RouteWriteEvidence, apply: bool): Entry {
    Entry(w.rel, RouteWriteOperation(w.before.Some?, w.after.Some?, apply), code)
  }

  function FindingFor(code: string, w: RouteWriteEvidence, apply: bool): Finding {
    Finding(Info, code, RouteWriteMessage(RouteWriteOperation(w.before.Some?, w.after.Some?, apply), w.rel, w.details, apply))
  }

  /** One finding for each write that changes a text, in order. */
  function RouteWriteFindings(code: string, writes: seq<RouteWriteEvidence>, apply: bool): seq<Finding> {
    if writes == [] then []
    else
      var w := writes[|writes| - 1];
      RouteWriteFindings(code, writes[..|writes| - 1], apply) + if w.before == w.after then [] else [FindingFor(code, w, apply)]
  }

  ghost function ChangedEntries(code: string, writes: seq<RouteWriteEvidence>, apply: bool): seq<Entry> {
    if writes == [] then []
    else
      var w := writes[|writes| - 1];
      ChangedEntries(code, writes[..|writes| - 1], apply) + if w.before == w.after then [] else [EntryFor(code, w, apply)]
  }

  predicate Reportable(code: string, writes: seq<RouteWriteEvidence>) {
    EndsWith(code, "-route-write") && forall i :: 0 <= i < |writes| ==> writes[i].rel != "" && ';' !in writes[i].rel
  }

  lemma OperationIsKnown(hadText: bool, hasText: bool, apply: bool) returns (i: nat)
    ensures i < |OPERATIONS| && OPERATIONS[i] == RouteWriteOperation(hadText, hasText, apply)
  {
    i := if !hadText && hasText then (if apply then 3 else 0) else if hadText && !hasText then (if apply then 5 else 2) else (if apply then 4 else 1);
  }

  lemma OneReadsBack(code: string, w: RouteWriteEvidence, apply: bool)
    requires EndsWith(code, "-route-write") && w.rel != "" && ';' !in w.rel
    ensures IsEvidence(FindingFor(code, w, apply)) && EntryOf(FindingFor(code, w, apply)) == EntryFor(code, w, apply)
  {
    var i := OperationIsKnown(w.before.Some?, w.after.Some?, apply);
    EvidenceReadsBack(i, w.rel, w.details, apply);
  }

  lemma EvidenceIsAppended(findings: seq<Finding>, f: Finding)
    requires IsEvidence(f)
    ensures RouteWrites(findings + [f]) == RouteWrites(findings) + [EntryOf(f)]
  {
    assert (findings + [f])[..|findings|] == findings;
  }

  /** The whole list is read back: each change as the operation and the route that were reported. */
  lemma {:induction false} ReportReadsBack(code: string, writes: seq<RouteWriteEvidence>, apply: bool)
    requires Reportable(code, writes)
    ensures RouteWrites(RouteWriteFindings(code, writes, apply)) == ChangedEntries(code, writes, apply)
  {
    if writes != [] {
      var front, w := writes[..|writes| - 1], writes[|writes| - 1];
      ReportReadsBack(code, front, apply);
      if w.before != w.after {
        OneReadsBack(code, w, apply);
        EvidenceIsAppended(RouteWriteFindings(code, front, apply), FindingFor(code, w, apply));
      } else {
        assert RouteWriteFindings(code, writes, apply) == RouteWriteFindings(code, front, apply);
      }
    }
  }

  lemma {:induction false} EntryComesFromAWrite(code: string, writes: seq<RouteWriteEvidence>, apply: bool, e: Entry) returns (i: nat)
    requires e in ChangedEntries(code, writes, apply)
    ensures i < |writes| && e == EntryFor(code, writes[i], apply)
  {
    var front := writes[..|writes| - 1];
    if e in ChangedEntries(code, front, apply) {
      i := EntryComesFromAWrite(code, front, apply, e);
    } else {
      i := |writes| - 1;
    }
  }

  /** One thing is done to each route. */
  ghost predicate OneKindPerRoute(writes: seq<Entry>) {
    forall d, e :: d in writes && e in writes && d.rel == e.rel ==> OperationKind(d.operation) == OperationKind(e.operation)
  }

  ghost predicate DistinctRoutes(writes: seq<RouteWriteEvidence>) {
    forall i, j :: 0 <= i < j < |writes| ==> writes[i].rel != writes[j].rel
  }

  /** A report on distinct routes does one thing to each, under its own code. */
  lemma DistinctRoutesGiveOneKind(code: string, writes: seq<RouteWriteEvidence>, apply: bool)
    requires Reportable(code, writes) && DistinctRoutes(writes)
    ensures OneKindPerRoute(RouteWrites(RouteWriteFindings(code, writes, apply)))
    ensures forall e :: e in RouteWrites(RouteWriteFindings(code, writes, apply)) ==> e.code == code
  {
    ReportReadsBack(code, writes, apply);
    var entries := ChangedEntries(code, writes, apply);
    forall d, e | d in entries && e in entries && d.rel == e.rel
      ensures OperationKind(d.operation) == OperationKind(e.operation) && e.code == code
    {
      var i := EntryComesFromAWrite(code, writes, apply, d);
      var j := EntryComesFromAWrite(code, writes, apply, e);
      assert i == j;
    }
  }
}
