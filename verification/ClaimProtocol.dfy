/** Work-claim coordination: any number of processes create, extend and release claims under one lock file. */
module ClaimProtocol {
  import opened Common
  import opened FileSystems
  import opened WorkClaims

  // Requests and records

  /** A lease argument: not given, given but unparsable, or a time or duration in seconds. */
  datatype LeaseArg = NoArg | BadArg | Arg(value: nat)

  datatype Request = Request(
    action: string, id: string, kind: string, ownerRole: string, ownerActor: string, executionSlice: string,
    worktree: string, baseRevision: string, scopes: Scopes, expires: LeaseArg, ttl: LeaseArg, releaseCondition: string)

  const CREATE := "create"
  const EXTEND := "extend"
  const RELEASE := "release"

  /** What a record path holds. */
  datatype Entry = Missing | Garbled | Present(claim: Claim)

  /** A record path, and whether one of its transaction sidecars exists. */
  datatype RecordSlot = RecordSlot(target: Entry, sidecar: bool)

  type Store = map<string, RecordSlot>

  function SlotOf(store: Store, id: string): RecordSlot {
    if id in store then store[id] else RecordSlot(Missing, false)
  }

  predicate IdChar(c: char) {
    'a' <= c <= 'z' || 'A' <= c <= 'Z' || '0' <= c <= '9' || c in {'.', '_', '-'}
  }

  predicate ValidId(id: string) {
    id != "" && forall i :: 0 <= i < |id| ==> IdChar(id[i])
  }

  predicate PathAllowed(p: string) {
    NormalizeRef(p) != "" && forall part :: part in Split(NormalizeRef(p)) ==> part !in {"", ".", ".."}
  }

  predicate LeaseAllowed(req: Request) {
    !req.expires.BadArg? && !req.ttl.BadArg? && (req.expires.NoArg? || req.ttl.NoArg?)
  }

  predicate Stale(c: Claim, now: nat) {
    c.lease.Some? && c.lease.value < now
  }

  /** Its lease has run out. */
  ghost predicate Expired(c: Claim, now: nat) {
    c.lease.Some? && c.lease.value < now
  }

  /** Records that could not be read (`unread`) are skipped by the overlap test. */
  predicate NoOverlapFound(store: Store, req: Request, unread: set<string>) {
    req.kind in EXCLUSIVE_CLAIM_KINDS ==>
      forall id :: id in store && id !in unread && store[id].target.Present? ==>
        var c := store[id].target.claim;
        c.id == req.id || !ActiveExclusive(c) || ClaimOverlap(c.scopes, req.scopes).Empty()
  }

  predicate CreateAllowed(store: Store, req: Request, unread: set<string>) {
    && req.kind != "" && req.ownerRole != "" && req.ownerActor != "" && req.executionSlice != ""
    && req.kind in WORK_CLAIM_KINDS
    && (req.scopes.routes != [] || req.scopes.paths != [] || req.scopes.resources != [])
    && (forall p :: p in req.scopes.paths ==> PathAllowed(p))
    && SlotOf(store, req.id).target.Missing?
    && NoOverlapFound(store, req, unread)
  }

  predicate ExtendAllowed(store: Store, now: nat, req: Request, unread: set<string>) {
    var entry := SlotOf(store, req.id).target;
    && entry.Present? && req.id !in unread
    && entry.claim.status == ACTIVE && !Stale(entry.claim, now)
    && (!req.expires.NoArg? || !req.ttl.NoArg?)
  }

  /** The current status is not looked at. */
  predicate ReleaseAllowed(store: Store, req: Request, unread: set<string>) {
    req.releaseCondition != "" && SlotOf(store, req.id).target.Present? && req.id !in unread
  }

  /** No error finding for an apply. */
  predicate Accepted(live: bool, store: Store, now: nat, req: Request, unread: set<string>) {
    && live && ValidId(req.id) && LeaseAllowed(req)
    && (if req.action == RELEASE then ReleaseAllowed(store, req, unread)
        else if req.action == EXTEND then ExtendAllowed(store, now, req, unread)
        else req.action == CREATE && CreateAllowed(store, req, unread))
  }

  function NewLease(req: Request, now: nat): Option<nat> {
    if req.expires.Arg? then Some(req.expires.value) else if req.ttl.Arg? then Some(now + req.ttl.value) else None
  }

  function Created(req: Request, now: nat): Claim {
    Claim(req.id, req.kind, req.ownerRole, req.ownerActor, req.executionSlice, req.worktree, req.baseRevision, req.scopes,
          NewLease(req, now), ACTIVE, req.releaseCondition, None)
  }

  function Released(c: Claim, req: Request): Claim {
    c.(status := RELEASED, releaseCondition := req.releaseCondition)
  }

  function Extended(c: Claim, req: Request, now: nat): Claim {
    c.(lease := NewLease(req, now),
       extensionNote := if req.releaseCondition != "" then Some(req.releaseCondition) else c.extensionNote)
  }

  /** What writing `after` through a file transaction can leave: a sidecar in the way refuses it; otherwise the record is
      old, new, gone or torn, and an original that is neither in place nor replaced has its backup beside it. */
  predicate WriteMayLeave(before: RecordSlot, after: Claim, left: RecordSlot) {
    if before.sidecar then left == before
    else && left.target in {before.target, Present(after), Garbled, Missing}
         && (!before.target.Missing? && left.target !in {before.target, Present(after)} ==> left.sidecar)
  }

  // Processes

  datatype Pc =
    | Idle
    | Waiting(req: Request)                                            // passed the unlocked check
    | Locked(req: Request)                                             // holds the lock file
    | Approved(req: Request, unread: set<string>)                      // passed the check under the lock
    | Writing(req: Request, unread: set<string>, after: Claim)         // about to run the file transaction
    | Finishing                                                        // in `finally`, about to unlink the lock file
    | Crashed

  datatype State = State(live: bool, store: Store, lock: Option<nat>, procs: map<nat, Pc>, now: nat)

  datatype Event =
    | Tick(later: nat)
    | Begin(p: nat, req: Request, seen: Store, unread: set<string>)    // the unlocked check may see anything
    | Acquire(p: nat, works: bool)
    | Recheck(p: nat, unread: set<string>)
    | Load(p: nat, readable: bool)
    | Commit(p: nat, left: RecordSlot)
    | Unlock(p: nat, removed: bool)
    | Crash(p: nat)
    | CrashWriting(p: nat, left: RecordSlot)

  function PcOf(s: State, p: nat): Pc {
    if p in s.procs then s.procs[p] else Idle
  }

  function Goto(s: State, p: nat, pc: Pc): State {
    s.(procs := s.procs[p := pc])
  }

  predicate Enabled(s: State, e: Event) {
    match e
    case Tick(later) => s.now <= later
    case Begin(p, _, _, _) => PcOf(s, p).Idle?
    case Acquire(p, _) => PcOf(s, p).Waiting?
    case Recheck(p, _) => PcOf(s, p).Locked?
    case Load(p, _) => PcOf(s, p).Approved?
    case Commit(p, left) => PcOf(s, p).Writing? && WriteMayLeave(SlotOf(s.store, PcOf(s, p).after.id), PcOf(s, p).after, left)
    case Unlock(p, _) => PcOf(s, p).Finishing?
    case Crash(p) => !PcOf(s, p).Crashed?
    case CrashWriting(p, left) => PcOf(s, p).Writing? && WriteMayLeave(SlotOf(s.store, PcOf(s, p).after.id), PcOf(s, p).after, left)
  }

  /** The record to write, or nothing when the current record cannot be loaded. */
  function Planned(s: State, req: Request, readable: bool): Option<Claim> {
    var entry := SlotOf(s.store, req.id).target;
    if req.action !in {RELEASE, EXTEND} then Some(Created(req, s.now))
    else if !readable || !entry.Present? then None
    else if req.action == RELEASE then Some(Released(entry.claim, req))
    else Some(Extended(entry.claim, req, s.now))
  }

  function Next(s: State, e: Event): State
    requires Enabled(s, e)
  {
    match e
    case Tick(later) => s.(now := later)
    case Begin(p, req, seen, unread) =>
      if Accepted(s.live, seen, s.now, req, unread) then Goto(s, p, Waiting(req)) else s
    case Acquire(p, works) =>
      if s.lock.None? && works then Goto(s.(lock := Some(p)), p, Locked(PcOf(s, p).req)) else Goto(s, p, Idle)
    case Recheck(p, unread) =>
      var req := PcOf(s, p).req;
      Goto(s, p, if Accepted(s.live, s.store, s.now, req, unread) then Approved(req, unread) else Finishing)
    case Load(p, readable) =>
      var pc := PcOf(s, p);
      var plan := Planned(s, pc.req, readable);
      Goto(s, p, if plan.Some? then Writing(pc.req, pc.unread, plan.value) else Finishing)
    case Commit(p, left) => Goto(s.(store := s.store[PcOf(s, p).after.id := left]), p, Finishing)
    case Unlock(p, removed) => Goto(if removed then s.(lock := None) else s, p, Idle)
    case Crash(p) => Goto(s, p, Crashed)
    case CrashWriting(p, left) => Goto(s.(store := s.store[PcOf(s, p).after.id := left]), p, Crashed)
  }

  ghost predicate Run(states: seq<State>, events: seq<Event>) {
    && |states| == |events| + 1
    && forall i :: 0 <= i < |events| ==> Enabled(states[i], events[i]) && states[i + 1] == Next(states[i], events[i])
  }

  // Invariants

  ghost predicate InCritical(pc: Pc) {
    pc.Locked? || pc.Approved? || pc.Writing? || pc.Finishing?
  }

  ghost predicate LockHeld(s: State) {
    forall p: nat :: InCritical(PcOf(s, p)) ==> s.lock == Some(p)
  }

  ghost predicate Keyed(store: Store) {
    forall id :: id in store && store[id].target.Present? ==>
      store[id].target.claim.id == id && store[id].target.claim.status in {ACTIVE, RELEASED}
  }

  ghost predicate NoOverlap(store: Store) {
    forall i, j :: i in store && j in store && i != j && store[i].target.Present? && store[j].target.Present? ==>
      !Overlapping(store[i].target.claim, store[j].target.claim)
  }

  ghost predicate Exclusive(req: Request) {
    req.action == "create" && req.kind in WORK_CLAIM_KINDS - {"read", "generated_cache"}
  }

  /** A record in the way of an exclusive creation. */
  ghost predicate InTheWay(store: Store, req: Request, id: string) {
    && Exclusive(req) && id in store && id != req.id && store[id].target.Present?
    && HoldsExclusively(store[id].target.claim) && Conflict(store[id].target.claim.scopes, req.scopes)
  }

  /** The locked check missed a record in the way because it could not read it. */
  ghost predicate BlindSpot(store: Store, req: Request, unread: set<string>) {
    exists id :: id in unread && InTheWay(store, req, id)
  }

  /** What the locked check established still holds. */
  ghost predicate PlanHolds(store: Store, req: Request, unread: set<string>) {
    var entry := SlotOf(store, req.id).target;
    if req.action == CREATE then entry.Missing? && forall id :: InTheWay(store, req, id) ==> id in unread
    else entry.Present? && (req.action == EXTEND ==> entry.claim.status == ACTIVE) && req.action in {EXTEND, RELEASE}
  }

  ghost predicate SameIdentity(a: Claim, b: Claim) {
    && a.id == b.id && a.kind == b.kind && a.ownerRole == b.ownerRole && a.ownerActor == b.ownerActor
    && a.executionSlice == b.executionSlice && a.worktree == b.worktree && a.baseRevision == b.baseRevision
    && a.scopes == b.scopes
  }

  ghost predicate WriteFollowsPlan(store: Store, req: Request, after: Claim) {
    var entry := SlotOf(store, req.id).target;
    if req.action == CREATE then
      after.id == req.id && after.kind == req.kind && after.scopes == req.scopes && after.status == ACTIVE
    else
      && entry.Present? && SameIdentity(after, entry.claim) && after.id == req.id
      && (if req.action == RELEASE then after.status == RELEASED && after.lease == entry.claim.lease else after.status == ACTIVE)
  }

  ghost predicate PcSound(store: Store, pc: Pc) {
    match pc
    case Approved(req, unread) => PlanHolds(store, req, unread)
    case Writing(req, unread, after) => PlanHolds(store, req, unread) && WriteFollowsPlan(store, req, after)
    case _ => true
  }

  ghost predicate Sound(s: State) {
    LockHeld(s) && Keyed(s.store) && forall p: nat :: PcSound(s.store, PcOf(s, p))
  }

  /** Between acquire and release there is at most one process. */
  lemma MutualExclusion(s: State, p: nat, q: nat)
    requires Sound(s) && InCritical(PcOf(s, p)) && InCritical(PcOf(s, q))
    ensures p == q
  {
    assert s.lock == Some(p) && s.lock == Some(q);
  }

  lemma AcceptedPlanHolds(s: State, req: Request, unread: set<string>)
    requires Keyed(s.store) && Accepted(s.live, s.store, s.now, req, unread)
    ensures PlanHolds(s.store, req, unread)
  {
    if req.action == CREATE {
      forall id | InTheWay(s.store, req, id) ensures id in unread {
        OverlapTestsDecideConflict(s.store[id].target.claim.scopes, req.scopes);
      }
    }
  }

  lemma LockHeldSteps(s: State, e: Event)
    requires Sound(s) && Enabled(s, e)
    ensures LockHeld(Next(s, e))
  {
    var s' := Next(s, e);
    forall p: nat | InCritical(PcOf(s', p)) ensures s'.lock == Some(p) {
      assert InCritical(PcOf(s, p)) ==> s.lock == Some(p);
    }
  }

  lemma KeyedSteps(s: State, e: Event)
    requires Sound(s) && Enabled(s, e)
    ensures Keyed(Next(s, e).store)
  {
    if e.Commit? || e.CrashWriting? {
      assert PcSound(s.store, PcOf(s, e.p));
    }
  }

  lemma PcSoundSteps(s: State, e: Event, p: nat)
    requires Sound(s) && Enabled(s, e)
    ensures PcSound(Next(s, e).store, PcOf(Next(s, e), p))
  {
    var s' := Next(s, e);
    assert PcSound(s.store, PcOf(s, p));
    if e.Commit? || e.CrashWriting? {
      // Only the lock holder writes, and it has finished writing.
      assert InCritical(PcOf(s, p)) ==> p == e.p;
    } else if e.Recheck? && e.p == p && PcOf(s', p).Approved? {
      AcceptedPlanHolds(s, PcOf(s', p).req, e.unread);
    }
  }

  lemma SoundSteps(s: State, e: Event)
    requires Sound(s) && Enabled(s, e)
    ensures Sound(Next(s, e))
  {
    LockHeldSteps(s, e);
    KeyedSteps(s, e);
    forall p: nat ensures PcSound(Next(s, e).store, PcOf(Next(s, e), p)) {
      PcSoundSteps(s, e, p);
    }
  }

  // No two active exclusive claims overlap

  /** A creation that goes through although an unreadable record stood in its way. */
  ghost predicate BlindWrite(s: State, e: Event) {
    && (e.Commit? || e.CrashWriting?) && PcOf(s, e.p).Writing?
    && e.left.target == Present(PcOf(s, e.p).after)
    && BlindSpot(s.store, PcOf(s, e.p).req, PcOf(s, e.p).unread)
  }

  /** One step keeps the claims apart if and only if it is not a blind write. */
  lemma StepKeepsApart(s: State, e: Event)
    requires Sound(s) && NoOverlap(s.store) && Enabled(s, e)
    ensures NoOverlap(Next(s, e).store) <==> !BlindWrite(s, e)
  {
    if e.Commit? || e.CrashWriting? {
      var Writing(req, unread, after) := PcOf(s, e.p);
      assert PcSound(s.store, PcOf(s, e.p));
      var store := Next(s, e).store;
      if BlindWrite(s, e) {
        var id :| id in unread && InTheWay(s.store, req, id);
        assert store[id] == s.store[id] && store[req.id].target == Present(after);
        ConflictIsSymmetric(after.scopes, store[id].target.claim.scopes);
        assert Overlapping(store[id].target.claim, store[req.id].target.claim);
      } else {
        forall i, j | i in store && j in store && i != j && store[i].target.Present? && store[j].target.Present?
          ensures !Overlapping(store[i].target.claim, store[j].target.claim)
        {
          if i == after.id {
            WrittenStaysApart(s, e, j);
            ConflictIsSymmetric(store[i].target.claim.scopes, store[j].target.claim.scopes);
          } else if j == after.id {
            WrittenStaysApart(s, e, i);
          }
        }
      }
    }
  }

  lemma WrittenStaysApart(s: State, e: Event, other: string)
    requires Sound(s) && NoOverlap(s.store) && Enabled(s, e) && (e.Commit? || e.CrashWriting?) && !BlindWrite(s, e)
    requires other in s.store && other != PcOf(s, e.p).after.id && s.store[other].target.Present? && e.left.target.Present?
    ensures !Overlapping(s.store[other].target.claim, e.left.target.claim)
  {
    var Writing(req, unread, after) := PcOf(s, e.p);
    assert PcSound(s.store, PcOf(s, e.p));
    var existing := s.store[other].target.claim;
    if e.left.target == Present(after) {
      if req.action == CREATE {
        if Overlapping(existing, after) {
          assert InTheWay(s.store, req, other);
        }
      } else {
        var current := SlotOf(s.store, req.id).target.claim;
        assert !Overlapping(existing, current);
      }
    } else {
      assert e.left.target == SlotOf(s.store, after.id).target;
    }
  }

  /** Nothing is running; a lock file may have been left behind. */
  ghost predicate Initial(s: State) {
    s.procs == map[] && Keyed(s.store) && NoOverlap(s.store)
  }

  lemma {:induction false} RunIsSound(states: seq<State>, events: seq<Event>, n: nat)
    requires Run(states, events) && Initial(states[0]) && n <= |events|
    ensures Sound(states[n])
  {
    if n > 0 {
      RunIsSound(states, events, n - 1);
      SoundSteps(states[n - 1], events[n - 1]);
    }
  }

  lemma {:induction false} ApartUpTo(states: seq<State>, events: seq<Event>, n: nat)
    requires Run(states, events) && Initial(states[0]) && n <= |events|
    requires forall i :: 0 <= i < n ==> !BlindWrite(states[i], events[i])
    ensures NoOverlap(states[n].store)
  {
    if n > 0 {
      ApartUpTo(states, events, n - 1);
      RunIsSound(states, events, n - 1);
      StepKeepsApart(states[n - 1], events[n - 1]);
    }
  }

  /** Over every run of any number of processes, with crashes, lost unlinks and failed writes: the active exclusive claims
      never overlap if and only if no creation is written past a record that its locked check could not read. */
  lemma ClaimsStayApart(states: seq<State>, events: seq<Event>)
    requires Run(states, events) && Initial(states[0])
    ensures (forall n :: 0 <= n < |states| ==> NoOverlap(states[n].store))
            <==> forall i :: 0 <= i < |events| ==> !BlindWrite(states[i], events[i])
  {
    if forall i :: 0 <= i < |events| ==> !BlindWrite(states[i], events[i]) {
      forall n | 0 <= n < |states| ensures NoOverlap(states[n].store) {
        ApartUpTo(states, events, n);
      }
    }
    if forall n :: 0 <= n < |states| ==> NoOverlap(states[n].store) {
      forall i | 0 <= i < |events| ensures !BlindWrite(states[i], events[i]) {
        RunIsSound(states, events, i);
        assert states[i + 1] == Next(states[i], events[i]);
        StepKeepsApart(states[i], events[i]);
      }
    }
  }

  // What a write writes

  /** The lease that a request asks for at time `now`: the expiry given, or the time to live from now on, or none. */
  ghost predicate LeaseAsked(req: Request, now: nat, lease: Option<nat>) {
    && (req.expires.Arg? ==> lease == Some(req.expires.value))
    && (!req.expires.Arg? && req.ttl.Arg? ==> lease == Some(now + req.ttl.value))
    && (!req.expires.Arg? && !req.ttl.Arg? ==> lease == None)
  }

  /** The record that a request asks for at time `now`, given what its path holds: a new one with everything that was given; the
      same one with another lease and, when one was given, another note; or the same one released under the condition given. */
  ghost predicate Fulfils(current: Entry, req: Request, now: nat, after: Claim) {
    if req.action == "create" then
      && LeaseAsked(req, now, after.lease)
      && after == Claim(req.id, req.kind, req.ownerRole, req.ownerActor, req.executionSlice, req.worktree, req.baseRevision, req.scopes,
                        after.lease, "active", req.releaseCondition, None)
    else if req.action == "extend" then
      && current.Present? && LeaseAsked(req, now, after.lease)
      && after == current.claim.(lease := after.lease, extensionNote := after.extensionNote)
      && after.extensionNote == if req.releaseCondition != "" then Some(req.releaseCondition) else current.claim.extensionNote
    else
      && req.action == "release" && current.Present?
      && after == current.claim.(status := "released", releaseCondition := req.releaseCondition)
  }

  /** What is loaded and written after an accepted check is what was asked for. */
  lemma LoadFulfils(s: State, p: nat, readable: bool)
    requires Sound(s) && Enabled(s, Load(p, readable)) && PcOf(Next(s, Load(p, readable)), p).Writing?
    ensures var req, pc := PcOf(s, p).req, PcOf(Next(s, Load(p, readable)), p);
            pc.req == req && Fulfils(SlotOf(s.store, req.id).target, req, s.now, pc.after)
  {
    assert PcSound(s.store, PcOf(s, p));
  }

  /** The step at which process `p` loaded what it is about to write. */
  ghost predicate LoadedAt(states: seq<State>, events: seq<Event>, m: nat, p: nat, req: Request, after: Claim)
    requires Run(states, events) && m < |events|
  {
    && events[m].Load? && events[m].p == p && PcOf(states[m], p).Approved? && PcOf(states[m], p).req == req
    && Fulfils(SlotOf(states[m].store, req.id).target, req, states[m].now, after)
  }

  /** A process comes to write by loading, and then stays at it. */
  lemma WritingStep(s: State, e: Event, p: nat)
    requires Sound(s) && Enabled(s, e) && PcOf(Next(s, e), p).Writing?
    ensures PcOf(s, p) == PcOf(Next(s, e), p) || (e.Load? && e.p == p && PcOf(s, p).Approved?)
  {
  }

  lemma {:induction false} WritingWasLoaded(states: seq<State>, events: seq<Event>, n: nat, p: nat) returns (m: nat)
    requires Run(states, events) && Initial(states[0]) && n < |states| && PcOf(states[n], p).Writing?
    ensures m < n && LoadedAt(states, events, m, p, PcOf(states[n], p).req, PcOf(states[n], p).after)
  {
    m := n - 1;
    RunIsSound(states, events, m);
    assert states[m + 1] == Next(states[m], events[m]);
    WritingStep(states[m], events[m], p);
    if PcOf(states[m], p).Writing? {
      m := WritingWasLoaded(states, events, m, p);
    } else {
      LoadFulfils(states[m], p, events[m].readable);
    }
  }

  /** Over every run: a claim that a record comes to hold is what some request asked for, given what the record held and what the
      time was when the process loaded it after its locked check. */
  lemma EveryRecordWasAskedFor(states: seq<State>, events: seq<Event>, n: nat, id: string) returns (m: nat, p: nat, req: Request)
    requires Run(states, events) && Initial(states[0]) && n < |events|
    requires SlotOf(states[n + 1].store, id).target.Present?
    requires SlotOf(states[n + 1].store, id).target != SlotOf(states[n].store, id).target
    ensures m < n && req.id == id && LoadedAt(states, events, m, p, req, SlotOf(states[n + 1].store, id).target.claim)
  {
    var s, e := states[n], events[n];
    RunIsSound(states, events, n);
    assert s.now >= 0 && states[n + 1] == Next(s, e);
    p := e.p;
    m := WritingWasLoaded(states, events, n, p);
    req := PcOf(s, p).req;
    assert PcSound(s.store, PcOf(s, p));
  }

  /** So a time to live really lasts: until it is over the claim is not expired, and afterwards it is. */
  lemma LeaseLasts(current: Entry, req: Request, now: nat, after: Claim, later: nat)
    requires Fulfils(current, req, now, after) && req.action in {"create", "extend"} && !req.expires.Arg? && req.ttl.Arg?
    ensures Stale(after, later) <==> later > now + req.ttl.value
  {
  }

  // Which requests are accepted

  ghost predicate GoodId(id: string) {
    id != "" && forall i :: 0 <= i < |id| ==> 'a' <= id[i] <= 'z' || 'A' <= id[i] <= 'Z' || '0' <= id[i] <= '9' || id[i] in {'.', '_', '-'}
  }

  /** Each lease argument can be parsed, and only one is given. */
  ghost predicate GoodLease(req: Request) {
    req.expires != BadArg && req.ttl != BadArg && !(req.expires.Arg? && req.ttl.Arg?)
  }

  /** No component of the path is empty or leads elsewhere. */
  ghost predicate SafePath(p: string) {
    NormalizeRef(p) != "" && forall part :: part in Split(NormalizeRef(p)) ==> part != "" && part != "." && part != ".."
  }

  ghost predicate Described(req: Request) {
    && req.kind in WORK_CLAIM_KINDS && req.ownerRole != "" && req.ownerActor != "" && req.executionSlice != ""
    && (|req.scopes.routes| > 0 || |req.scopes.paths| > 0 || |req.scopes.resources| > 0)
    && forall p :: p in req.scopes.paths ==> SafePath(p)
  }

  /** A creation is accepted exactly when it is complete and safe, its record does not exist, and no readable active exclusive claim
      conflicts with it. */
  lemma CreateIsAcceptedWhen(live: bool, store: Store, now: nat, req: Request, unread: set<string>)
    requires Keyed(store) && req.action == "create"
    ensures Accepted(live, store, now, req, unread)
            <==> && live && GoodId(req.id) && GoodLease(req) && Described(req)
                 && SlotOf(store, req.id).target == Missing
                 && forall id :: InTheWay(store, req, id) ==> id in unread
  {
    var others := forall id :: InTheWay(store, req, id) ==> id in unread;
    CreateSeesWhatIsInTheWay(store, req, unread);
    assert "" !in WORK_CLAIM_KINDS;
  }

  lemma CreateSeesWhatIsInTheWay(store: Store, req: Request, unread: set<string>)
    requires Keyed(store) && req.action == "create"
    ensures NoOverlapFound(store, req, unread) <==> forall id :: InTheWay(store, req, id) ==> id in unread
  {
    forall id | id in store && store[id].target.Present?
      ensures ClaimOverlap(store[id].target.claim.scopes, req.scopes).Empty() <==> !Conflict(store[id].target.claim.scopes, req.scopes)
    {
      OverlapTestsDecideConflict(store[id].target.claim.scopes, req.scopes);
    }
    if NoOverlapFound(store, req, unread) {
      forall id | InTheWay(store, req, id) ensures id in unread {
        assert store[id].target.claim.id == id;
      }
    }
    if forall id :: InTheWay(store, req, id) ==> id in unread {
      forall id | req.kind in EXCLUSIVE_CLAIM_KINDS && id in store && id !in unread && store[id].target.Present?
        ensures var c := store[id].target.claim; c.id == req.id || !ActiveExclusive(c) || ClaimOverlap(c.scopes, req.scopes).Empty()
      {
        assert !InTheWay(store, req, id);
        ActiveExclusiveHolds(store[id].target.claim);
      }
    }
  }

  /** An extension is accepted exactly for a readable active claim whose lease has not run out, with a new lease. */
  lemma ExtendIsAcceptedWhen(live: bool, store: Store, now: nat, req: Request, unread: set<string>)
    requires req.action == "extend"
    ensures Accepted(live, store, now, req, unread)
            <==> && live && GoodId(req.id) && GoodLease(req) && (req.expires.Arg? || req.ttl.Arg?) && req.id !in unread
                 && var current := SlotOf(store, req.id).target;
                 && current.Present? && current.claim.status == "active" && !Expired(current.claim, now)
  {
  }

  /** A release is accepted exactly for a readable claim, whatever its status, with a condition. */
  lemma ReleaseIsAcceptedWhen(live: bool, store: Store, now: nat, req: Request, unread: set<string>)
    requires req.action == "release"
    ensures Accepted(live, store, now, req, unread)
            <==> && live && GoodId(req.id) && GoodLease(req) && req.releaseCondition != "" && req.id !in unread
                 && SlotOf(store, req.id).target.Present?
  {
  }

  lemma NothingElseIsAccepted(live: bool, store: Store, now: nat, req: Request, unread: set<string>)
    requires req.action != "create" && req.action != "extend" && req.action != "release"
    ensures !Accepted(live, store, now, req, unread)
  {
  }

  // The blind write is reachable

  const EXISTING := Claim("a", "write", "coder", "first", "slice", "", "", Scopes(["project/roadmap.md"], [], []), None, ACTIVE, "", None)
  const REQUEST := Request(CREATE, "b", "write", "coder", "second", "slice", "", "", Scopes(["project/roadmap.md"], [], []), NoArg, NoArg, "")

  /** Both the check before the lock and the one under it accept the request when the record of `a` cannot be read. */
  lemma BlindRequestIsAccepted(now: nat)
    ensures Accepted(true, map["a" := RecordSlot(Present(EXISTING), false)], now, REQUEST, {"a"})
  {
  }

  const BEFORE: Store := map["a" := RecordSlot(Present(EXISTING), false)]
  const WRITTEN: RecordSlot := RecordSlot(Present(Created(REQUEST, 0)), false)

  /** The six states of the run. */
  function OverlapState(n: nat): State {
    var start := State(true, BEFORE, None, map[], 0);
    var locked := start.(lock := Some(0));
    if n == 0 then start
    else if n == 1 then Goto(start, 0, Waiting(REQUEST))
    else if n == 2 then Goto(locked, 0, Locked(REQUEST))
    else if n == 3 then Goto(locked, 0, Approved(REQUEST, {"a"}))
    else if n == 4 then Goto(locked, 0, Writing(REQUEST, {"a"}, Created(REQUEST, 0)))
    else Goto(locked.(store := BEFORE["b" := WRITTEN]), 0, Finishing)
  }

  function OverlapEvent(n: nat): Event {
    if n == 0 then Begin(0, REQUEST, BEFORE, {"a"})
    else if n == 1 then Acquire(0, true)
    else if n == 2 then Recheck(0, {"a"})
    else if n == 3 then Load(0, true)
    else Commit(0, WRITTEN)
  }

  lemma OverlapStep(n: nat)
    requires n < 5
    ensures Enabled(OverlapState(n), OverlapEvent(n))
    ensures OverlapState(n + 1) == Next(OverlapState(n), OverlapEvent(n))
  {
    BlindRequestIsAccepted(0);
    var s, t := OverlapState(n), OverlapState(n + 1);
    assert t.procs == s.procs[0 := PcOf(t, 0)];
  }

  lemma ExistingIsInTheWay()
    ensures InTheWay(BEFORE, REQUEST, "a")
  {
    assert "project/roadmap.md" in EXISTING.scopes.routes && "project/roadmap.md" in REQUEST.scopes.routes;
  }

  /** One active claim on a route, and a second process whose reads of its record fail: five events later two active exclusive
      claims share the route. */
  lemma OverlapIsReachable() returns (states: seq<State>, events: seq<Event>)
    ensures Run(states, events) && Initial(states[0])
    ensures exists i :: 0 <= i < |events| && BlindWrite(states[i], events[i])
    ensures !NoOverlap(states[|states| - 1].store)
  {
    states := seq(6, (n: nat) => OverlapState(n));
    events := seq(5, (n: nat) => OverlapEvent(n));
    forall i | 0 <= i < |events| ensures Enabled(states[i], events[i]) && states[i + 1] == Next(states[i], events[i]) {
      OverlapStep(i);
    }
    ExistingIsInTheWay();
    assert BlindWrite(states[4], events[4]);
    RunIsSound(states, events, 4);
    ApartUpToFour(states);
    StepKeepsApart(states[4], events[4]);
  }

  lemma ApartUpToFour(states: seq<State>)
    requires |states| == 6 && states[4] == OverlapState(4)
    ensures NoOverlap(states[4].store)
  {
  }

  // Progress

  /** From an idle process to one that is about to write. */
  lemma UndisturbedUpToWriting(s: State, p: nat, req: Request) returns (states: seq<State>, events: seq<Event>)
    requires Sound(s) && s.lock == None && PcOf(s, p) == Idle && Accepted(s.live, s.store, s.now, req, {})
    ensures |states| == 5 && Run(states, events) && states[0] == s && Sound(states[4])
    ensures var end, pc := states[4], PcOf(states[4], p);
            && pc.Writing? && Fulfils(SlotOf(s.store, req.id).target, req, s.now, pc.after) && pc.after.id == req.id
            && end.lock == Some(p) && end.store == s.store
  {
    var e0, e1, e2, e3 := Begin(p, req, s.store, {}), Acquire(p, true), Recheck(p, {}), Load(p, true);
    var s1 := Next(s, e0);
    var s2 := Next(s1, e1);
    var s3 := Next(s2, e2);
    var s4 := Next(s3, e3);
    SoundSteps(s, e0);
    SoundSteps(s1, e1);
    SoundSteps(s2, e2);
    SoundSteps(s3, e3);
    AcceptedPlanHolds(s, req, {});
    LoadFulfils(s3, p, true);
    states, events := [s, s1, s2, s3, s4], [e0, e1, e2, e3];
  }

  /** From there to the end. */
  lemma UndisturbedWrite(s: State, p: nat) returns (states: seq<State>, events: seq<Event>)
    requires PcOf(s, p).Writing? && s.lock == Some(p) && !SlotOf(s.store, PcOf(s, p).after.id).sidecar
    ensures |states| == 3 && Run(states, events) && states[0] == s
    ensures var end, after := states[2], PcOf(s, p).after;
            && end.lock == None && PcOf(end, p) == Idle && end.store == s.store[after.id := RecordSlot(Present(after), false)]
  {
    var written := RecordSlot(Present(PcOf(s, p).after), false);
    var e0, e1 := Commit(p, written), Unlock(p, true);
    var s1 := Next(s, e0);
    states, events := [s, s1, Next(s1, e1)], [e0, e1];
  }

  /** A process that is not disturbed, on a free lock and with readable records, goes through: six events later the record is what
      was asked for, every other record is as it was, and the lock is free again. */
  lemma UndisturbedRequestSucceeds(s: State, p: nat, req: Request) returns (states: seq<State>, events: seq<Event>)
    requires Sound(s) && s.lock == None && PcOf(s, p) == Idle && !SlotOf(s.store, req.id).sidecar
    requires Accepted(s.live, s.store, s.now, req, {})
    ensures Run(states, events) && states[0] == s
    ensures var end := states[|states| - 1];
            && end.lock == None && PcOf(end, p) == Idle && SlotOf(end.store, req.id).target.Present?
            && Fulfils(SlotOf(s.store, req.id).target, req, s.now, SlotOf(end.store, req.id).target.claim)
            && forall id :: id != req.id ==> SlotOf(end.store, id) == SlotOf(s.store, id)
  {
    var first, begin := UndisturbedUpToWriting(s, p, req);
    var second, end := UndisturbedWrite(first[4], p);
    states, events := first + second[1..], begin + end;
    forall i | 0 <= i < |events| ensures Enabled(states[i], events[i]) && states[i + 1] == Next(states[i], events[i]) {
      if i < 4 {
        assert events[i] == begin[i] && states[i] == first[i] && states[i + 1] == first[i + 1];
      } else {
        assert events[i] == end[i - 4] && states[i] == second[i - 4] && states[i + 1] == second[i - 3];
      }
    }
  }

  /** A process whose locked check finds a reason to refuse leaves the records alone and the lock free. */
  lemma RefusalChangesNothing(s: State, p: nat, unread: set<string>)
    requires Sound(s) && PcOf(s, p).Locked? && !Accepted(s.live, s.store, s.now, PcOf(s, p).req, unread)
    ensures var s1 := Next(s, Recheck(p, unread));
            && Enabled(s1, Unlock(p, true))
            && var s2 := Next(s1, Unlock(p, true));
            s2.store == s.store && s2.lock == None && PcOf(s2, p) == Idle
  {
  }

  ghost predicate AllRead(s: State) {
    forall p: nat :: match PcOf(s, p) case Approved(_, unread) => unread == {} case Writing(_, unread, _) => unread == {} case _ => true
  }

  lemma {:induction false} AllReadUpTo(states: seq<State>, events: seq<Event>, n: nat)
    requires Run(states, events) && Initial(states[0]) && n <= |events|
    requires forall i :: 0 <= i < |events| && events[i].Recheck? ==> events[i].unread == {}
    ensures AllRead(states[n])
  {
    if n > 0 {
      AllReadUpTo(states, events, n - 1);
      var s, e, s' := states[n - 1], events[n - 1], states[n];
      forall p: nat
        ensures match PcOf(s', p) case Approved(_, unread) => unread == {} case Writing(_, unread, _) => unread == {} case _ => true
      {
        assert match PcOf(s, p) case Approved(_, unread) => unread == {} case Writing(_, unread, _) => unread == {} case _ => true;
        if !e.Tick? && e.p != p {
          assert PcOf(s', p) == PcOf(s, p);
        }
      }
    }
  }

  /** Over every run and at every moment of it at most one process is between acquiring and releasing the lock. As long as no
      creation has been written past a record that its locked check could not read, no two active exclusive claims overlap and
      each file is covered by at most one of them. */
  lemma CoordinationIsSafe(states: seq<State>, events: seq<Event>, n: nat, file: string)
    requires Run(states, events) && Initial(states[0]) && n < |states|
    ensures forall p: nat, q: nat :: InCritical(PcOf(states[n], p)) && InCritical(PcOf(states[n], q)) ==> p == q
    ensures (forall i :: 0 <= i < n ==> !BlindWrite(states[i], events[i])) ==>
              && NoOverlap(states[n].store)
              && forall i, j :: CoveredBy(states[n].store, i, file) && CoveredBy(states[n].store, j, file) ==> i == j
  {
    RunIsSound(states, events, n);
    forall p: nat, q: nat | InCritical(PcOf(states[n], p)) && InCritical(PcOf(states[n], q)) ensures p == q {
      MutualExclusion(states[n], p, q);
    }
    if forall i :: 0 <= i < n ==> !BlindWrite(states[i], events[i]) {
      ApartUpTo(states, events, n);
      CoveredOnce(states[n].store, file);
    }
  }

  /** A run whose locked checks read every record has no such creation. */
  lemma ReadingIsEnough(states: seq<State>, events: seq<Event>)
    requires Run(states, events) && Initial(states[0])
    requires forall i :: 0 <= i < |events| && events[i].Recheck? ==> events[i].unread == {}
    ensures forall i :: 0 <= i < |events| ==> !BlindWrite(states[i], events[i])
  {
    forall i | 0 <= i < |events| ensures !BlindWrite(states[i], events[i]) {
      AllReadUpTo(states, events, i);
    }
  }

  /** The active exclusive claim `id` claims a path that `file` lies under. */
  ghost predicate CoveredBy(store: Store, id: string, file: string) {
    && id in store && store[id].target.Present? && HoldsExclusively(store[id].target.claim)
    && exists p :: p in store[id].target.claim.scopes.paths && Covers(p, file)
  }

  lemma CoveredOnce(store: Store, file: string)
    requires NoOverlap(store)
    ensures forall i, j :: CoveredBy(store, i, file) && CoveredBy(store, j, file) ==> i == j
  {
    forall i, j | CoveredBy(store, i, file) && CoveredBy(store, j, file) ensures i == j {
      SharedFileOverlaps(store, i, j, file);
    }
  }

  lemma SharedFileOverlaps(store: Store, i: string, j: string, file: string)
    requires CoveredBy(store, i, file) && CoveredBy(store, j, file)
    ensures Overlapping(store[i].target.claim, store[j].target.claim)
  {
    var a, b := store[i].target.claim.scopes, store[j].target.claim.scopes;
    var p :| p in a.paths && Covers(p, file);
    var q :| q in b.paths && Covers(q, file);
    assert Conflict(a, b);
  }

  /** Any listing of the records of a store without overlaps gives both scans nothing to report. */
  lemma ScansFindNothing(store: Store, records: seq<Claim>)
    requires NoOverlap(store)
    requires forall k :: 0 <= k < |records| ==> records[k].id in store && store[records[k].id].target == Present(records[k])
    requires forall j, k :: 0 <= j < k < |records| ==> records[j].id != records[k].id
    ensures NoOverlappingPair(records)
  {
    forall i, j | 0 <= i < j < |records| ensures !Overlapping(records[i], records[j]) {
      assert store[records[i].id].target.claim == records[i] && store[records[j].id].target.claim == records[j];
    }
  }

  // What one claim can become

  /** A blocked slot is frozen, torn stays torn, and a record keeps its identity and never comes back from release. */
  ghost predicate Evolves(a: RecordSlot, b: RecordSlot) {
    && (a.sidecar ==> b == a)
    && (a.target.Garbled? ==> b.target.Garbled?)
    && (a.target.Present? ==>
          if b.target.Present? then
            SameIdentity(a.target.claim, b.target.claim)
            && (a.target.claim.status == RELEASED ==> b.target.claim.status == RELEASED)
          else b.sidecar)
  }

  lemma StepEvolves(s: State, e: Event, id: string)
    requires Sound(s) && Enabled(s, e)
    ensures Evolves(SlotOf(s.store, id), SlotOf(Next(s, e).store, id))
  {
    if e.Commit? || e.CrashWriting? {
      assert PcSound(s.store, PcOf(s, e.p));
    }
  }

  lemma EvolvesTransitively(a: RecordSlot, b: RecordSlot, c: RecordSlot)
    requires Evolves(a, b) && Evolves(b, c)
    ensures Evolves(a, c)
  {
  }

  /** Over every run, from any moment to any later one. */
  lemma {:induction false} ClaimHistory(states: seq<State>, events: seq<Event>, m: nat, n: nat, id: string)
    requires Run(states, events) && Initial(states[0]) && m <= n < |states|
    ensures Evolves(SlotOf(states[m].store, id), SlotOf(states[n].store, id))
    decreases n - m
  {
    if m < n {
      ClaimHistory(states, events, m, n - 1, id);
      RunIsSound(states, events, n - 1);
      assert states[n] == Next(states[n - 1], events[n - 1]);
      StepEvolves(states[n - 1], events[n - 1], id);
      EvolvesTransitively(SlotOf(states[m].store, id), SlotOf(states[n - 1].store, id), SlotOf(states[n].store, id));
    }
  }

  // Stale claims

  /** No extension of `id` has passed its locked check. */
  ghost predicate NoExtensionInFlight(s: State, id: string) {
    forall p: nat :: !ExtensionOf(PcOf(s, p), id)
  }

  ghost predicate ExtensionOf(pc: Pc, id: string) {
    (pc.Approved? || pc.Writing?) && pc.req.action == EXTEND && pc.req.id == id
  }

  /** The record is unchanged and stale, or has been released with the lease it had, or is lost beside its backup. */
  ghost predicate ExpiredOrGone(s: State, id: string, c: Claim) {
    var slot := SlotOf(s.store, id);
    && NoExtensionInFlight(s, id)
    && (if slot.target.Present? then
          && (slot.target.claim == c || slot.target.claim.status == RELEASED)
          && slot.target.claim.lease == c.lease && Expired(c, s.now)
        else slot.sidecar)
  }

  /** A stale claim keeps extensions of it from passing the locked check. */
  lemma NoExtensionSteps(s: State, e: Event, id: string, c: Claim)
    requires Sound(s) && Enabled(s, e) && ExpiredOrGone(s, id, c)
    ensures NoExtensionInFlight(Next(s, e), id)
  {
    forall p: nat ensures !ExtensionOf(PcOf(Next(s, e), p), id) {
      assert !ExtensionOf(PcOf(s, p), id);
    }
  }

  lemma ExpiredSteps(s: State, e: Event, id: string, c: Claim)
    requires Sound(s) && Enabled(s, e) && ExpiredOrGone(s, id, c)
    ensures ExpiredOrGone(Next(s, e), id, c)
  {
    NoExtensionSteps(s, e, id, c);
    if e.Commit? || e.CrashWriting? {
      assert PcSound(s.store, PcOf(s, e.p));
      assert !ExtensionOf(PcOf(s, e.p), id);
    }
  }

  /** A claim that is stale with no extension past its locked check can only move to released. */
  lemma {:induction false} StaleClaimsOnlyRelease(states: seq<State>, events: seq<Event>, m: nat, n: nat, id: string, c: Claim)
    requires Run(states, events) && Initial(states[0]) && m <= n < |states|
    requires SlotOf(states[m].store, id).target == Present(c) && Expired(c, states[m].now) && NoExtensionInFlight(states[m], id)
    ensures ExpiredOrGone(states[n], id, c)
    decreases n - m
  {
    if m < n {
      StaleClaimsOnlyRelease(states, events, m, n - 1, id, c);
      RunIsSound(states, events, n - 1);
      assert states[n] == Next(states[n - 1], events[n - 1]);
      ExpiredSteps(states[n - 1], events[n - 1], id, c);
    }
  }

  /** A readable active exclusive claim, stale or not, blocks every exclusive creation that conflicts with it. */
  lemma ActiveClaimsBlock(live: bool, store: Store, now: nat, req: Request, unread: set<string>, id: string)
    requires InTheWay(store, req, id) && id !in unread && Keyed(store)
    ensures !Accepted(live, store, now, req, unread)
  {
    OverlapTestsDecideConflict(store[id].target.claim.scopes, req.scopes);
  }
}
