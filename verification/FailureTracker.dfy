/**
 Authentication failure tracking and lockout (`src/auth/failure_tracker.rs`).

 Time is an explicit parameter in nanoseconds.  Identities are the UTF-8 bytes of the
 claimed user name.
 */
module Lockout {
  import opened Prelude

  type Identity = Bytes

  const SECOND: nat := 1_000_000_000
  const CAPACITY: nat := 10_000
  const MAX_IDENTITY: nat := 4096

  datatype LockoutPolicy = LockoutPolicy(maxFailures: nat, failureWindow: nat, lockoutDuration: nat)

  datatype LockoutStatus = Allowed | LockedOut(retryAfter: nat)

  datatype Record = Record(failures: nat, windowStart: Instant, lockedUntil: Option<Instant>)

  predicate LockedAt(rec: Record, now: Instant) {
    rec.lockedUntil.Some? && now < rec.lockedUntil.value
  }

  predicate IsPrunable(rec: Record, now: Instant, window: nat) {
    !LockedAt(rec, now) && Since(now, rec.windowStart) >= window
  }

  /** A lockout is running, or the counting window has not ended. */
  predicate Matters(policy: LockoutPolicy, rec: Record, now: Instant) {
    || (rec.lockedUntil.Some? && rec.lockedUntil.value > now)
    || (if now <= rec.windowStart then policy.failureWindow > 0 else now - rec.windowStart < policy.failureWindow)
  }

  function StatusAt(rec: Option<Record>, now: Instant): LockoutStatus {
    if rec.Some? && LockedAt(rec.value, now) then LockedOut(rec.value.lockedUntil.value - now) else Allowed
  }

  /** The answer to a failure that left `rec`: any lockout in it is live or just set. */
  function FailureStatus(rec: Option<Record>, now: Instant): LockoutStatus {
    if rec.Some? && rec.value.lockedUntil.Some? then LockedOut(Since(rec.value.lockedUntil.value, now)) else Allowed
  }

  // ----- The tracker as a value, and its operations -----

  datatype Tracker = Tracker(records: map<Identity, Record>, lastPrune: Instant)

  function Lookup(t: Tracker, id: Identity): Option<Record> {
    if id in t.records then Some(t.records[id]) else None
  }

  function Pruned(policy: LockoutPolicy, records: map<Identity, Record>, now: Instant): map<Identity, Record> {
    map id | id in records && !IsPrunable(records[id], now, policy.failureWindow) :: records[id]
  }

  /** Prune, at most once per second (or per window, if shorter). */
  function Swept(policy: LockoutPolicy, t: Tracker, now: Instant): Tracker {
    var interval := if SECOND <= policy.failureWindow then SECOND else policy.failureWindow;
    if Since(now, t.lastPrune) >= interval then Tracker(Pruned(policy, t.records, now), now) else t
  }

  /** A second, or a window if shorter, has passed since the last sweep. */
  predicate Due(policy: LockoutPolicy, t: Tracker, now: Instant) {
    var passed := if now <= t.lastPrune then 0 else now - t.lastPrune;
    passed >= 1_000_000_000 || passed >= policy.failureWindow
  }

  /** A window starts afresh for an identity without a record, after its window, or after its lockout. */
  predicate Fresh(policy: LockoutPolicy, rec: Option<Record>, now: Instant) {
    rec.None? || (!LockedAt(rec.value, now)
                  && (Since(now, rec.value.windowStart) >= policy.failureWindow || rec.value.lockedUntil.Some?))
  }

  /** One more failure on one identity's record. */
  function CountFailure(policy: LockoutPolicy, rec: Option<Record>, now: Instant): Record {
    if rec.Some? && LockedAt(rec.value, now) then rec.value
    else
      var base := if Fresh(policy, rec, now) then Record(0, now, None) else rec.value;
      var n := base.failures + 1;
      base.(failures := n,
            lockedUntil := if n >= policy.maxFailures then Some(now + policy.lockoutDuration) else base.lockedUntil)
  }

  datatype Kind = Check | Failure | Success

  datatype Op = Op(kind: Kind, id: Identity, now: Instant)

  /** A failure of a new identity that finds the tracker full. */
  predicate TurnedAway(policy: LockoutPolicy, t: Tracker, op: Op) {
    && op.kind == Failure && |op.id| <= MAX_IDENTITY && policy.maxFailures > 0
    && |Swept(policy, t, op.now).records| >= CAPACITY
    && op.id !in Swept(policy, t, op.now).records
  }

  /** The tracker after one operation. */
  function After(policy: LockoutPolicy, t: Tracker, op: Op): Tracker {
    if policy.maxFailures == 0 then t else
    match op.kind
    case Check =>
      var t' := if |t.records| >= CAPACITY then Swept(policy, t, op.now) else t;
      if |op.id| <= MAX_IDENTITY && op.id in t'.records && IsPrunable(t'.records[op.id], op.now, policy.failureWindow)
      then t'.(records := t'.records - {op.id}) else t'
    case Failure =>
      var t' := Swept(policy, t, op.now);
      if |op.id| > MAX_IDENTITY || TurnedAway(policy, t, op) then t'
      else t'.(records := t'.records[op.id := CountFailure(policy, Lookup(t', op.id), op.now)])
    case Success =>
      if op.id in t.records && !LockedAt(t.records[op.id], op.now) then t.(records := t.records - {op.id}) else t
  }

  /** The answer to one operation (a success has none). */
  function Answer(policy: LockoutPolicy, t: Tracker, op: Op): LockoutStatus {
    if policy.maxFailures == 0 || op.kind == Success then Allowed
    else if |op.id| > MAX_IDENTITY then LockedOut(SECOND)
    else if op.kind == Check then StatusAt(Lookup(t, op.id), op.now)
    else FailureStatus(Lookup(After(policy, t, op), op.id), op.now)
  }

  class FailureTracker {
    const policy: LockoutPolicy
    var records: map<Identity, Record>
    var lastPrune: Instant

    function View(): Tracker
      reads this
    {
      Tracker(records, lastPrune)
    }

    constructor (policy: LockoutPolicy, now: Instant)
      ensures this.policy == policy && View() == Tracker(map[], now - SECOND)
    {
      this.policy := policy;
      records := map[];
      lastPrune := now - SECOND;
    }

    method Prune(now: Instant)
      modifies this`records
      ensures records == Pruned(policy, old(records), now)
      ensures forall id :: id in records <==> id in old(records) && Matters(policy, old(records)[id], now)
      ensures forall id | id in records :: records[id] == old(records)[id]
    {
      var todo := records.Keys;
      ghost var was := records;
      while todo != {}
        invariant todo <= records.Keys <= was.Keys
        invariant forall id | id in records :: records[id] == was[id]
        invariant forall id | id in was && id !in todo ::
                    id in records <==> !IsPrunable(was[id], now, policy.failureWindow)
      {
        var id :| id in todo;
        todo := todo - {id};
        if IsPrunable(records[id], now, policy.failureWindow) {
          records := records - {id};
        }
      }
    }

    method Sweep(now: Instant)
      modifies this
      ensures View() == Swept(policy, old(View()), now)
      ensures lastPrune == if Due(policy, old(View()), now) then now else old(lastPrune)
      ensures !Due(policy, old(View()), now) ==> records == old(records)
    {
      var interval := if SECOND <= policy.failureWindow then SECOND else policy.failureWindow;
      if Since(now, lastPrune) >= interval {
        Prune(now);
        lastPrune := now;
      }
    }

    method Check(id: Identity, now: Instant) returns (status: LockoutStatus)
      modifies this
      ensures View() == After(policy, old(View()), Op(Kind.Check, id, now))
      ensures status == Answer(policy, old(View()), Op(Kind.Check, id, now))
      ensures status == if policy.maxFailures == 0 then Allowed
                        else if |id| > 4096 then LockedOut(1_000_000_000)
                        else if id in old(records) && LockedAt(old(records)[id], now)
                        then LockedOut(old(records)[id].lockedUntil.value - now) else Allowed
    {
      if policy.maxFailures == 0 { return Allowed; }
      if |records| >= CAPACITY {
        Sweep(now);
      }
      if |id| > MAX_IDENTITY { return LockedOut(SECOND); }
      if id in records && LockedAt(records[id], now) {
        return LockedOut(records[id].lockedUntil.value - now);
      }
      if id in records && IsPrunable(records[id], now, policy.failureWindow) {
        records := records - {id};
      }
      return Allowed;
    }

    method RecordFailure(id: Identity, now: Instant) returns (status: LockoutStatus)
      modifies this
      ensures View() == After(policy, old(View()), Op(Failure, id, now))
      ensures status == Answer(policy, old(View()), Op(Failure, id, now))
      ensures policy.maxFailures == 0 ==> status == Allowed && View() == old(View())
      ensures policy.maxFailures > 0 && |id| > 4096 ==> status == LockedOut(1_000_000_000)
      ensures policy.maxFailures > 0 && |id| <= 4096 && status.LockedOut? ==>
                status == LockedOut(if id in old(records) && LockedAt(old(records)[id], now)
                                    then old(records)[id].lockedUntil.value - now else policy.lockoutDuration)
    {
      if policy.maxFailures == 0 { return Allowed; }
      Sweep(now);
      if |id| > MAX_IDENTITY { return LockedOut(SECOND); }
      if |records| >= CAPACITY && id !in records { return Allowed; }
      var rec := if id in records then records[id] else Record(0, now, None);
      if rec.lockedUntil.Some? && now < rec.lockedUntil.value {
        return LockedOut(rec.lockedUntil.value - now);
      }
      var windowElapsed := Since(now, rec.windowStart) >= policy.failureWindow;
      var lockoutExpired := rec.lockedUntil.Some? && now >= rec.lockedUntil.value;
      if windowElapsed || lockoutExpired {
        rec := Record(0, now, None);
      }
      rec := rec.(failures := rec.failures + 1);
      if rec.failures >= policy.maxFailures {
        rec := rec.(lockedUntil := Some(now + policy.lockoutDuration));
        status := LockedOut(policy.lockoutDuration);
      } else {
        status := Allowed;
      }
      records := records[id := rec];
    }

    method RecordSuccess(id: Identity, now: Instant)
      modifies this
      ensures View() == After(policy, old(View()), Op(Success, id, now))
    {
      if policy.maxFailures == 0 { return; }
      if id in records {
        var locked := records[id].lockedUntil.Some? && now < records[id].lockedUntil.value;
        if !locked {
          records := records - {id};
        }
      }
    }
  }

  // ----- Refinement: pruning is invisible -----

  predicate Clocked(trace: seq<Op>) {
    forall i, j | 0 <= i < j < |trace| :: trace[i].now <= trace[j].now
  }

  /** The tracker after a whole trace. */
  function Run(policy: LockoutPolicy, t: Tracker, trace: seq<Op>): Tracker {
    if trace == [] then t
    else After(policy, Run(policy, t, trace[..|trace| - 1]), trace[|trace| - 1])
  }

  /** The reference: one automaton per identity, fed only that identity's operations, never pruned. */
  function Automaton(policy: LockoutPolicy, trace: seq<Op>, id: Identity): Option<Record> {
    if trace == [] then None
    else AutomatonStep(policy, Automaton(policy, trace[..|trace| - 1], id), trace[|trace| - 1], id)
  }

  function AutomatonStep(policy: LockoutPolicy, rec: Option<Record>, op: Op, id: Identity): Option<Record> {
    if policy.maxFailures == 0 || op.id != id || |id| > MAX_IDENTITY then rec
    else match op.kind
      case Check => rec
      case Failure => Some(CountFailure(policy, rec, op.now))
      case Success => if rec.Some? && LockedAt(rec.value, op.now) then rec else None
  }

  function ReferenceAnswer(policy: LockoutPolicy, rec: Option<Record>, op: Op): LockoutStatus {
    if policy.maxFailures == 0 || op.kind == Success then Allowed
    else if |op.id| > MAX_IDENTITY then LockedOut(SECOND)
    else if op.kind == Check then StatusAt(rec, op.now)
    else FailureStatus(AutomatonStep(policy, rec, op, op.id), op.now)
  }

  /** The tracker's record equals the reference's, or was dropped because it no longer matters. */
  predicate Agree(policy: LockoutPolicy, actual: Option<Record>, reference: Option<Record>, now: Instant) {
    actual == reference || (actual.None? && IsPrunable(reference.value, now, policy.failureWindow))
  }

  lemma AgreeAfterSweep(policy: LockoutPolicy, t: Tracker, id: Identity, reference: Option<Record>, earlier: Instant,
      now: Instant)
    requires earlier <= now && Agree(policy, Lookup(t, id), reference, earlier)
    ensures Agree(policy, Lookup(t, id), reference, now)
    ensures Agree(policy, Lookup(Swept(policy, t, now), id), reference, now)
  {
  }

  /** An admitted operation keeps the agreement on every identity, and is answered alike. */
  lemma StepAgrees(policy: LockoutPolicy, t: Tracker, op: Op, id: Identity, reference: Option<Record>, earlier: Instant)
    requires earlier <= op.now && Agree(policy, Lookup(t, id), reference, earlier)
    requires !TurnedAway(policy, t, op)
    requires |id| > MAX_IDENTITY ==> reference == None
    ensures Agree(policy, Lookup(After(policy, t, op), id), AutomatonStep(policy, reference, op, id), op.now)
    ensures op.id == id ==> Answer(policy, t, op) == ReferenceAnswer(policy, reference, op)
  {
    AgreeAfterSweep(policy, t, id, reference, earlier, op.now);
  }

  /** A failure that is turned away changes no identity's standing, and is answered Allowed. */
  lemma TurnedAwayAgrees(policy: LockoutPolicy, t: Tracker, op: Op, id: Identity, reference: Option<Record>,
      earlier: Instant)
    requires earlier <= op.now && Agree(policy, Lookup(t, id), reference, earlier) && TurnedAway(policy, t, op)
    ensures Agree(policy, Lookup(After(policy, t, op), id), reference, op.now)
    ensures Answer(policy, t, op) == Allowed
  {
    AgreeAfterSweep(policy, t, id, reference, earlier, op.now);
  }

  /** The tracked operations: those of the trace that are not turned away at capacity, in order. */
  function TrackedOps(policy: LockoutPolicy, t: Tracker, trace: seq<Op>): (tracked: seq<Op>)
    ensures |tracked| <= |trace|
  {
    if trace == [] then []
    else
      var init, op := trace[..|trace| - 1], trace[|trace| - 1];
      TrackedOps(policy, t, init) + (if TurnedAway(policy, Run(policy, t, init), op) then [] else [op])
  }

  lemma TrackedOpsGrow(policy: LockoutPolicy, t: Tracker, init: seq<Op>, op: Op)
    ensures TrackedOps(policy, t, init + [op])
         == if TurnedAway(policy, Run(policy, t, init), op) then TrackedOps(policy, t, init)
            else TrackedOps(policy, t, init) + [op]
    ensures Run(policy, t, init + [op]) == After(policy, Run(policy, t, init), op)
  {
    assert (init + [op])[..|init|] == init;
  }

  lemma OpAgrees(policy: LockoutPolicy, t: Tracker, tracked: seq<Op>, op: Op, id: Identity, now: Instant)
    requires op.now <= now && (|id| > MAX_IDENTITY ==> Automaton(policy, tracked, id) == None)
    requires Agree(policy, Lookup(t, id), Automaton(policy, tracked, id), op.now)
    ensures var reference := Automaton(policy, if TurnedAway(policy, t, op) then tracked else tracked + [op], id);
            && (|id| > MAX_IDENTITY ==> reference == None)
            && Agree(policy, Lookup(After(policy, t, op), id), reference, now)
  {
    var reference := Automaton(policy, tracked, id);
    if TurnedAway(policy, t, op) {
      TurnedAwayAgrees(policy, t, op, id, reference, op.now);
      AgreeAfterSweep(policy, After(policy, t, op), id, reference, op.now, now);
    } else {
      StepAgrees(policy, t, op, id, reference, op.now);
      AutomatonGrows(policy, tracked, op, id);
      AgreeAfterSweep(policy, After(policy, t, op), id, AutomatonStep(policy, reference, op, id), op.now, now);
    }
  }

  /** The records agree with a reference that is fed the tracked operations. */
  lemma {:induction false} RunAgrees(policy: LockoutPolicy, start: Instant, trace: seq<Op>, id: Identity, now: Instant)
    requires Clocked(trace) && (trace != [] ==> trace[|trace| - 1].now <= now)
    ensures var reference := Automaton(policy, TrackedOps(policy, Tracker(map[], start), trace), id);
            && (|id| > MAX_IDENTITY ==> reference == None)
            && Agree(policy, Lookup(Run(policy, Tracker(map[], start), trace), id), reference, now)
  {
    if trace != [] {
      var init, op, empty := trace[..|trace| - 1], trace[|trace| - 1], Tracker(map[], start);
      InitAndLast(trace);
      RunAgrees(policy, start, init, id, op.now);
      OpAgrees(policy, Run(policy, empty, init), TrackedOps(policy, empty, init), op, id, now);
      TrackedOpsGrow(policy, empty, init, op);
    }
  }

  lemma AutomatonGrows(policy: LockoutPolicy, trace: seq<Op>, op: Op, id: Identity)
    ensures Automaton(policy, trace + [op], id) == AutomatonStep(policy, Automaton(policy, trace, id), op, id)
  {
    assert (trace + [op])[..|trace|] == trace;
  }

  /**
   Under a non-decreasing clock the pruned, shared tracker answers every operation exactly as
   independent automata that never prune and see the tracked operations; a failure that is
   turned away at capacity is answered Allowed.
   */
  lemma AnswersAsReference(policy: LockoutPolicy, start: Instant, trace: seq<Op>, op: Op)
    requires Clocked(trace + [op])
    ensures var t := Run(policy, Tracker(map[], start), trace);
            var reference := Automaton(policy, TrackedOps(policy, Tracker(map[], start), trace), op.id);
            Answer(policy, t, op)
            == if TurnedAway(policy, t, op) then Allowed else ReferenceAnswer(policy, reference, op)
  {
    var t := Run(policy, Tracker(map[], start), trace);
    var reference := Automaton(policy, TrackedOps(policy, Tracker(map[], start), trace), op.id);
    ClockedInit(trace, op);
    RunAgrees(policy, start, trace, op.id, op.now);
    if TurnedAway(policy, t, op) {
      TurnedAwayAgrees(policy, t, op, op.id, reference, op.now);
    } else {
      StepAgrees(policy, t, op, op.id, reference, op.now);
    }
  }

  lemma ClockedInit(trace: seq<Op>, op: Op)
    requires Clocked(trace + [op])
    ensures Clocked(trace) && (trace != [] ==> trace[|trace| - 1].now <= op.now)
  {
    assert forall i | 0 <= i < |trace| :: (trace + [op])[i] == trace[i];
    assert (trace + [op])[|trace|] == op;
  }

  /** No operation of the trace finds the tracker full and is turned away. */
  predicate NeverTurnedAway(policy: LockoutPolicy, t: Tracker, trace: seq<Op>) {
    trace != [] ==>
      var init, op := trace[..|trace| - 1], trace[|trace| - 1];
      NeverTurnedAway(policy, t, init) && !TurnedAway(policy, Run(policy, t, init), op)
  }

  /** Exactly then every operation is tracked. */
  lemma {:induction false} AllTrackedIff(policy: LockoutPolicy, t: Tracker, trace: seq<Op>)
    ensures TrackedOps(policy, t, trace) == trace <==> NeverTurnedAway(policy, t, trace)
  {
    if trace != [] {
      var n := |trace| - 1;
      AllTrackedIff(policy, t, trace[..n]);
      InitAndLast(trace);
      TrackedOpsGrow(policy, t, trace[..n], trace[n]);
    }
  }

  lemma PrunedIsSmaller(policy: LockoutPolicy, records: map<Identity, Record>, now: Instant)
    ensures |Pruned(policy, records, now)| <= |records|
  {
    SubsetSize(Pruned(policy, records, now).Keys, records.Keys);
  }

  lemma UpdateSize(records: map<Identity, Record>, id: Identity, rec: Record)
    ensures |records[id := rec]| == |records| + (if id in records then 0 else 1)
  {
    assert records[id := rec].Keys == records.Keys + {id};
  }

  lemma RemoveSize(records: map<Identity, Record>, id: Identity)
    ensures |records - {id}| <= |records|
  {
    SubsetSize((records - {id}).Keys, records.Keys);
  }

  lemma SweptIsSmaller(policy: LockoutPolicy, t: Tracker, now: Instant)
    ensures |Swept(policy, t, now).records| <= |t.records|
  {
    PrunedIsSmaller(policy, t.records, now);
  }

  lemma CheckWithinCapacity(policy: LockoutPolicy, t: Tracker, op: Op)
    requires |t.records| <= CAPACITY && op.kind == Check
    ensures |After(policy, t, op).records| <= CAPACITY
  {
    SweptIsSmaller(policy, t, op.now);
    RemoveSize((if |t.records| >= CAPACITY then Swept(policy, t, op.now) else t).records, op.id);
  }

  lemma FailureWithinCapacity(policy: LockoutPolicy, t: Tracker, op: Op)
    requires |t.records| <= CAPACITY && op.kind == Failure
    ensures |After(policy, t, op).records| <= CAPACITY
  {
    var swept := Swept(policy, t, op.now);
    SweptIsSmaller(policy, t, op.now);
    UpdateSize(swept.records, op.id, CountFailure(policy, Lookup(swept, op.id), op.now));
  }

  lemma StepWithinCapacity(policy: LockoutPolicy, t: Tracker, op: Op)
    requires |t.records| <= CAPACITY
    ensures |After(policy, t, op).records| <= CAPACITY
  {
    match op.kind
    case Check => CheckWithinCapacity(policy, t, op);
    case Failure => FailureWithinCapacity(policy, t, op);
    case Success => RemoveSize(t.records, op.id);
  }

  /** In every trace, full or not, the tracker holds at most 10,000 records. */
  lemma {:induction false} NeverOverCapacity(policy: LockoutPolicy, t: Tracker, trace: seq<Op>)
    requires |t.records| <= 10_000
    ensures |Run(policy, t, trace).records| <= 10_000
  {
    if trace != [] {
      NeverOverCapacity(policy, t, trace[..|trace| - 1]);
      StepWithinCapacity(policy, Run(policy, t, trace[..|trace| - 1]), trace[|trace| - 1]);
    }
  }

  // ----- What a lockout guarantees -----

  /** One operation leaves a locked record alone, unless it drops the record after the lock has ended. */
  lemma LockSurvivesStep(policy: LockoutPolicy, t: Tracker, op: Op, id: Identity, rec: Record)
    requires policy.maxFailures > 0 && |id| <= MAX_IDENTITY && rec.lockedUntil.Some?
    requires Lookup(t, id) == Some(rec) || Lookup(t, id) == None
    requires op.kind == Failure && op.id == id ==> Lookup(t, id).Some? && op.now < rec.lockedUntil.value
    ensures var after := Lookup(After(policy, t, op), id);
            after == Lookup(t, id) || (after == None && rec.lockedUntil.value <= op.now)
  {
  }

  /** Until its expiry a lockout is out of reach of every other operation. */
  lemma {:induction false} LockSurvives(policy: LockoutPolicy, t: Tracker, trace: seq<Op>, id: Identity, until: Instant)
    requires policy.maxFailures > 0 && |id| <= MAX_IDENTITY && Clocked(trace)
    requires id in t.records && t.records[id].lockedUntil == Some(until)
    requires forall k | 0 <= k < |trace| && trace[k].kind == Failure && trace[k].id == id :: trace[k].now < until
    ensures var rec := Lookup(Run(policy, t, trace), id);
            rec == Some(t.records[id]) || (rec == None && trace != [] && until <= trace[|trace| - 1].now)
  {
    if trace != [] {
      var init := trace[..|trace| - 1];
      LockSurvives(policy, t, init, id, until);
      LockSurvivesStep(policy, Run(policy, t, init), trace[|trace| - 1], id, t.records[id]);
    }
  }

  /**
   A lockout that ends at `until` is exact: after any trace of operations on any
   identities (successes, prunes and capacity pressure included) whose failures of this
   identity all fall before `until`, a check is refused with exactly the time left, and
   from `until` on is allowed.
   */
  lemma LockoutIsExact(policy: LockoutPolicy, t: Tracker, trace: seq<Op>, id: Identity, until: Instant, now: Instant)
    requires policy.maxFailures > 0 && |id| <= MAX_IDENTITY && Clocked(trace)
    requires id in t.records && t.records[id].lockedUntil == Some(until)
    requires forall k | 0 <= k < |trace| && trace[k].kind == Failure && trace[k].id == id :: trace[k].now < until
    requires trace != [] ==> trace[|trace| - 1].now <= now
    ensures Answer(policy, Run(policy, t, trace), Op(Check, id, now))
         == if now < until then LockedOut(until - now) else Allowed
  {
    LockSurvives(policy, t, trace, id, until);
  }

  /** A failure answered with a lockout, when there was none, set one of the full duration. */
  lemma LockIsSet(policy: LockoutPolicy, t: Tracker, id: Identity, at: Instant)
    requires policy.maxFailures > 0 && |id| <= MAX_IDENTITY
    requires StatusAt(Lookup(t, id), at) == Allowed && Answer(policy, t, Op(Failure, id, at)).LockedOut?
    ensures var t' := After(policy, t, Op(Failure, id, at));
            id in t'.records && t'.records[id].lockedUntil == Some(at + policy.lockoutDuration)
  {
    var swept := Swept(policy, t, at);
    assert Lookup(swept, id).Some? ==> swept.records[id] == t.records[id];
  }

  /**
   The answer to a failure is exact.  Under a lock until u it is u minus now; a failure that locks is
   answered with the lockout duration; and the next check at the same instant gives the same answer.
   */
  lemma FailureAnswerIsExact(policy: LockoutPolicy, t: Tracker, id: Identity, now: Instant)
    requires policy.maxFailures > 0 && |id| <= MAX_IDENTITY && Answer(policy, t, Op(Failure, id, now)).LockedOut?
    ensures var left := Answer(policy, t, Op(Failure, id, now)).retryAfter;
            && left == (if id in t.records && LockedAt(t.records[id], now) then t.records[id].lockedUntil.value - now
                        else policy.lockoutDuration)
            && Answer(policy, After(policy, t, Op(Failure, id, now)), Op(Check, id, now))
               == if left > 0 then LockedOut(left) else Allowed
  {
    var swept := Swept(policy, t, now);
    assert Lookup(swept, id).Some? ==> swept.records[id] == t.records[id];
  }

  /**
   A failure that finds a sweep due drops every other record that does not matter any more; a check does so when
   full.
   */
  lemma SweepsWhenDue(policy: LockoutPolicy, t: Tracker, op: Op, id: Identity)
    requires policy.maxFailures > 0 && Due(policy, t, op.now) && id != op.id
    requires op.kind == Failure || (op.kind == Check && |t.records| >= 10_000)
    ensures id in After(policy, t, op).records <==> id in t.records && Matters(policy, t.records[id], op.now)
  {
  }

  /** A check drops its own record once it does not matter any more. */
  lemma CheckDropsStale(policy: LockoutPolicy, t: Tracker, id: Identity, now: Instant)
    requires policy.maxFailures > 0 && |id| <= 4096
    ensures id in After(policy, t, Op(Check, id, now)).records
        <==> id in t.records && Matters(policy, t.records[id], now)
  {
  }

  /** Once a sweep is due, an identity is turned away only while 10,000 others have records that matter. */
  lemma TurnedAwayOnlyWhenFull(policy: LockoutPolicy, t: Tracker, op: Op)
    requires TurnedAway(policy, t, op) && Due(policy, t, op.now)
    ensures |map id | id in t.records && Matters(policy, t.records[id], op.now) :: t.records[id]| >= 10_000
  {
    assert (map id | id in t.records && Matters(policy, t.records[id], op.now) :: t.records[id])
        == Pruned(policy, t.records, op.now);
  }

  /** A failure that locks at `at` denies exactly the checks before `at + lockoutDuration`. */
  lemma ThresholdFailureLocks(policy: LockoutPolicy, t: Tracker, id: Identity, at: Instant, trace: seq<Op>,
      now: Instant)
    requires policy.maxFailures > 0 && |id| <= MAX_IDENTITY && Clocked(trace)
    requires StatusAt(Lookup(t, id), at) == Allowed && Answer(policy, t, Op(Failure, id, at)).LockedOut?
    requires forall k | 0 <= k < |trace| && trace[k].kind == Failure && trace[k].id == id ::
        trace[k].now < at + policy.lockoutDuration
    requires trace != [] ==> trace[|trace| - 1].now <= now
    ensures Answer(policy, Run(policy, After(policy, t, Op(Failure, id, at)), trace), Op(Check, id, now))
         == if now < at + policy.lockoutDuration then LockedOut(at + policy.lockoutDuration - now) else Allowed
  {
    LockIsSet(policy, t, id, at);
    LockoutIsExact(policy, After(policy, t, Op(Failure, id, at)), trace, id, at + policy.lockoutDuration, now);
  }
}
