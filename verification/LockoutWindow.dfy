/**
 When the failure tracker (`src/auth/failure_tracker.rs`) sets a lock, told from the trace of
 operations alone: windows open, count failures, fill up and lock.
 */
module LockoutWindow {
  import opened Prelude
  import opened Lockout

  predicate IsFailureOf(op: Op, id: Identity) {
    op.kind == Failure && op.id == id
  }

  predicate IsSuccessOf(op: Op, id: Identity) {
    op.kind == Success && op.id == id
  }

  /** Failures of `id` among operations `s` to `n - 1`. */
  function Failures(trace: seq<Op>, id: Identity, s: nat, n: nat): nat
    requires s <= n <= |trace|
    decreases n
  {
    if s == n then 0 else Failures(trace, id, s, n - 1) + (if IsFailureOf(trace[n - 1], id) then 1 else 0)
  }

  /** After `s` and before `n`: no success, and every failure strictly within the window that `s` opened. */
  predicate Unbroken(policy: LockoutPolicy, trace: seq<Op>, id: Identity, s: nat, n: nat)
    requires s < n <= |trace|
  {
    forall m | s < m < n ::
      !IsSuccessOf(trace[m], id) && (IsFailureOf(trace[m], id) ==> trace[m].now - trace[s].now < policy.failureWindow)
  }

  /** The window that `s` opened is still counting when operation `n` comes. */
  predicate Counting(policy: LockoutPolicy, trace: seq<Op>, id: Identity, s: nat, n: nat)
    requires s < n <= |trace|
  {
    Unbroken(policy, trace, id, s, n) && Failures(trace, id, s, n) < policy.maxFailures
  }

  /** Operation `k` is the `maxFailures`-th failure of the window that `s` opened. */
  predicate Full(policy: LockoutPolicy, trace: seq<Op>, id: Identity, s: nat, k: nat)
    requires s <= k < |trace|
  {
    && IsFailureOf(trace[k], id)
    && Unbroken(policy, trace, id, s, k + 1) && Failures(trace, id, s, k + 1) == policy.maxFailures
  }

  /** Operation `n` falls into the window that `s` opened, or into the lockout that the window led to. */
  predicate InForce(policy: LockoutPolicy, trace: seq<Op>, id: Identity, s: nat, n: nat)
    requires s < n < |trace|
  {
    || (Counting(policy, trace, id, s, n) && trace[n].now - trace[s].now < policy.failureWindow)
    || (exists q | s <= q < n :: Full(policy, trace, id, s, q) && trace[n].now < trace[q].now + policy.lockoutDuration)
  }

  /** Operation `s` is a failure that falls into no earlier window or lockout, and so opens a window. */
  predicate OpensWindow(policy: LockoutPolicy, trace: seq<Op>, id: Identity, s: nat)
    requires s < |trace|
    decreases s
  {
    IsFailureOf(trace[s], id)
    && forall p | 0 <= p < s && OpensWindow(policy, trace, id, p) :: !InForce(policy, trace, id, p, s)
  }

  /** Operation `k` is the `maxFailures`-th failure of the window that `s` opens. */
  predicate FillsWindow(policy: LockoutPolicy, trace: seq<Op>, id: Identity, s: nat, k: nat)
    requires k < |trace|
  {
    s <= k && OpensWindow(policy, trace, id, s) && Full(policy, trace, id, s, k)
  }

  // ----- The reference automaton counts windows -----

  /** Operation `s` is a failure that starts the automaton's record afresh. */
  predicate StartsFresh(policy: LockoutPolicy, trace: seq<Op>, id: Identity, s: nat)
    requires s < |trace|
  {
    IsFailureOf(trace[s], id) && Fresh(policy, Automaton(policy, trace[..s], id), trace[s].now)
  }

  /** Operation `k` is a failure, not under a lock, that leaves the automaton locked. */
  predicate SetsLock(policy: LockoutPolicy, trace: seq<Op>, id: Identity, k: nat)
    requires k < |trace|
  {
    var rec := Automaton(policy, trace[..k], id);
    && IsFailureOf(trace[k], id)
    && !(rec.Some? && LockedAt(rec.value, trace[k].now))
    && CountFailure(policy, rec, trace[k].now).lockedUntil.Some?
  }

  predicate Tracks(policy: LockoutPolicy, trace: seq<Op>, id: Identity) {
    policy.maxFailures > 0 && policy.failureWindow > 0 && |id| <= MAX_IDENTITY && Clocked(trace)
  }

  lemma AutomatonAt(policy: LockoutPolicy, trace: seq<Op>, id: Identity, n: nat)
    requires 0 < n <= |trace|
    ensures Automaton(policy, trace[..n], id)
         == AutomatonStep(policy, Automaton(policy, trace[..n - 1], id), trace[n - 1], id)
  {
    assert trace[..n][..n - 1] == trace[..n - 1];
  }

  /** An unlocked record counts the failures of its window. */
  lemma {:induction false} RecordCountsWindow(policy: LockoutPolicy, trace: seq<Op>, id: Identity, n: nat)
    returns (s: nat)
    requires Tracks(policy, trace, id) && n <= |trace|
    requires Automaton(policy, trace[..n], id).Some? && Automaton(policy, trace[..n], id).value.lockedUntil == None
    ensures var rec := Automaton(policy, trace[..n], id).value;
            && s < n && rec.windowStart == trace[s].now && rec.failures == Failures(trace, id, s, n)
            && StartsFresh(policy, trace, id, s) && Counting(policy, trace, id, s, n)
  {
    assert n > 0;
    AutomatonAt(policy, trace, id, n);
    if StartsFresh(policy, trace, id, n - 1) {
      s := n - 1;
      assert Failures(trace, id, s, s) == 0;
    } else {
      s := RecordCountsWindow(policy, trace, id, n - 1);
    }
  }

  /** From a fresh start on, the automaton counts until the threshold. */
  lemma {:induction false} WindowCounts(policy: LockoutPolicy, trace: seq<Op>, id: Identity, s: nat, n: nat)
    requires Tracks(policy, trace, id) && s < n <= |trace|
    requires StartsFresh(policy, trace, id, s) && Counting(policy, trace, id, s, n)
    ensures Automaton(policy, trace[..n], id) == Some(Record(Failures(trace, id, s, n), trace[s].now, None))
  {
    AutomatonAt(policy, trace, id, n);
    if n == s + 1 {
      assert Failures(trace, id, s, s) == 0;
    } else {
      WindowCounts(policy, trace, id, s, n - 1);
    }
  }

  lemma SetLockFills(policy: LockoutPolicy, trace: seq<Op>, id: Identity, k: nat) returns (s: nat)
    requires Tracks(policy, trace, id) && k < |trace| && SetsLock(policy, trace, id, k)
    ensures s <= k && StartsFresh(policy, trace, id, s) && Full(policy, trace, id, s, k)
  {
    s := k;
    if StartsFresh(policy, trace, id, k) {
      assert Failures(trace, id, k, k) == 0;
    } else {
      s := RecordCountsWindow(policy, trace, id, k);
    }
  }

  lemma FullSetsLock(policy: LockoutPolicy, trace: seq<Op>, id: Identity, s: nat, k: nat)
    requires Tracks(policy, trace, id) && s <= k < |trace|
    requires StartsFresh(policy, trace, id, s) && Full(policy, trace, id, s, k)
    ensures SetsLock(policy, trace, id, k)
  {
    if s < k {
      WindowCounts(policy, trace, id, s, k);
    } else {
      assert Failures(trace, id, k, k) == 0;
    }
  }

  lemma SetLockUntil(policy: LockoutPolicy, trace: seq<Op>, id: Identity, k: nat)
    requires Tracks(policy, trace, id) && k < |trace| && SetsLock(policy, trace, id, k)
    ensures var rec := Automaton(policy, trace[..k + 1], id);
            rec.Some? && rec.value.lockedUntil == Some(trace[k].now + policy.lockoutDuration)
  {
    AutomatonAt(policy, trace, id, k + 1);
    if !StartsFresh(policy, trace, id, k) {
      var s := RecordCountsWindow(policy, trace, id, k);
    }
  }

  /** A locked record was locked by the failure that filled its window. */
  lemma {:induction false} LockOrigin(policy: LockoutPolicy, trace: seq<Op>, id: Identity, n: nat)
    returns (s: nat, q: nat)
    requires Tracks(policy, trace, id) && n <= |trace|
    requires Automaton(policy, trace[..n], id).Some? && Automaton(policy, trace[..n], id).value.lockedUntil.Some?
    ensures s <= q < n && StartsFresh(policy, trace, id, s) && Full(policy, trace, id, s, q)
    ensures Automaton(policy, trace[..n], id).value.lockedUntil == Some(trace[q].now + policy.lockoutDuration)
  {
    assert n > 0;
    AutomatonAt(policy, trace, id, n);
    if SetsLock(policy, trace, id, n - 1) {
      q := n - 1;
      s := SetLockFills(policy, trace, id, q);
      SetLockUntil(policy, trace, id, q);
    } else {
      s, q := LockOrigin(policy, trace, id, n - 1);
    }
  }

  /** Until it ends a lock stays as it is. */
  lemma {:induction false} LockStays(policy: LockoutPolicy, trace: seq<Op>, id: Identity, q: nat, n: nat,
      until: Instant)
    requires Tracks(policy, trace, id) && q < n <= |trace|
    requires var rec := Automaton(policy, trace[..q + 1], id); rec.Some? && rec.value.lockedUntil == Some(until)
    requires q + 1 < n ==> trace[n - 1].now < until
    ensures Automaton(policy, trace[..n], id) == Automaton(policy, trace[..q + 1], id)
  {
    if q + 1 < n {
      LockStays(policy, trace, id, q, n - 1, until);
      AutomatonAt(policy, trace, id, n);
    }
  }

  /** Within a window or lockout in force the record is not fresh. */
  lemma InForceIsNotFresh(policy: LockoutPolicy, trace: seq<Op>, id: Identity, s: nat, n: nat)
    requires Tracks(policy, trace, id) && s < n < |trace|
    requires StartsFresh(policy, trace, id, s) && InForce(policy, trace, id, s, n)
    ensures !StartsFresh(policy, trace, id, n)
  {
    if Counting(policy, trace, id, s, n) && trace[n].now - trace[s].now < policy.failureWindow {
      WindowCounts(policy, trace, id, s, n);
    } else {
      var q :| s <= q < n && Full(policy, trace, id, s, q) && trace[n].now < trace[q].now + policy.lockoutDuration;
      FullSetsLock(policy, trace, id, s, q);
      SetLockUntil(policy, trace, id, q);
      LockStays(policy, trace, id, q, n, trace[q].now + policy.lockoutDuration);
    }
  }

  /** A failure that finds the record not fresh falls into a window or lockout in force. */
  lemma NotFreshIsInForce(policy: LockoutPolicy, trace: seq<Op>, id: Identity, n: nat) returns (s: nat)
    requires Tracks(policy, trace, id) && n < |trace| && IsFailureOf(trace[n], id) && !StartsFresh(policy, trace, id, n)
    ensures s < n && StartsFresh(policy, trace, id, s) && InForce(policy, trace, id, s, n)
  {
    if Automaton(policy, trace[..n], id).value.lockedUntil.None? {
      s := RecordCountsWindow(policy, trace, id, n);
    } else {
      var q;
      s, q := LockOrigin(policy, trace, id, n);
    }
  }

  /** The automaton starts afresh exactly where the trace opens a window. */
  lemma {:induction false} OpensIffFresh(policy: LockoutPolicy, trace: seq<Op>, id: Identity, n: nat)
    requires Tracks(policy, trace, id) && n < |trace|
    ensures OpensWindow(policy, trace, id, n) <==> StartsFresh(policy, trace, id, n)
    decreases n
  {
    forall p | 0 <= p < n
      ensures OpensWindow(policy, trace, id, p) <==> StartsFresh(policy, trace, id, p)
    {
      OpensIffFresh(policy, trace, id, p);
    }
    if StartsFresh(policy, trace, id, n) {
      forall p | 0 <= p < n && OpensWindow(policy, trace, id, p) ensures !InForce(policy, trace, id, p, n) {
        if InForce(policy, trace, id, p, n) { InForceIsNotFresh(policy, trace, id, p, n); }
      }
    } else if IsFailureOf(trace[n], id) {
      var s := NotFreshIsInForce(policy, trace, id, n);
      assert OpensWindow(policy, trace, id, s);
    }
  }

  /** The automaton sets a lock exactly when a window is filled. */
  lemma ReferenceLocksIffWindowFull(policy: LockoutPolicy, trace: seq<Op>, id: Identity, k: nat)
    requires Tracks(policy, trace, id) && k < |trace|
    ensures SetsLock(policy, trace, id, k) <==> exists s: nat :: FillsWindow(policy, trace, id, s, k)
  {
    if SetsLock(policy, trace, id, k) {
      var s := SetLockFills(policy, trace, id, k);
      OpensIffFresh(policy, trace, id, s);
      assert FillsWindow(policy, trace, id, s, k);
    }
    if s: nat :| FillsWindow(policy, trace, id, s, k) {
      OpensIffFresh(policy, trace, id, s);
      FullSetsLock(policy, trace, id, s, k);
    }
  }

  // ----- The tracker -----

  lemma {:induction false} TrackedOpsClocked(policy: LockoutPolicy, t: Tracker, trace: seq<Op>, now: Instant)
    requires Clocked(trace) && (trace != [] ==> trace[|trace| - 1].now <= now)
    ensures Clocked(TrackedOps(policy, t, trace))
    ensures forall i | 0 <= i < |TrackedOps(policy, t, trace)| :: TrackedOps(policy, t, trace)[i].now <= now
  {
    if trace != [] {
      var init, op := trace[..|trace| - 1], trace[|trace| - 1];
      TrackedOpsClocked(policy, t, init, op.now);
    }
  }

  /** The tracker locks the identity at this operation: it was not locked, and is answered with a lockout. */
  predicate Locks(policy: LockoutPolicy, t: Tracker, op: Op) {
    op.kind == Failure && StatusAt(Lookup(t, op.id), op.now) == Allowed && Answer(policy, t, op).LockedOut?
  }

  /**
   A tracker whose record agrees with the automaton's sets a lock where the automaton does, unless it turns the
   failure away.
   */
  lemma LocksAsReference(policy: LockoutPolicy, t: Tracker, tracked: seq<Op>, op: Op)
    requires policy.maxFailures > 0 && |op.id| <= MAX_IDENTITY
    requires Agree(policy, Lookup(t, op.id), Automaton(policy, tracked, op.id), op.now)
    ensures Locks(policy, t, op) <==> !TurnedAway(policy, t, op) && SetsLock(policy, tracked + [op], op.id, |tracked|)
  {
    var reference := Automaton(policy, tracked, op.id);
    if TurnedAway(policy, t, op) {
      TurnedAwayAgrees(policy, t, op, op.id, reference, op.now);
    } else {
      StepAgrees(policy, t, op, op.id, reference, op.now);
      assert (tracked + [op])[..|tracked|] == tracked;
    }
  }

  lemma LocksIffFills(policy: LockoutPolicy, t: Tracker, tracked: seq<Op>, op: Op)
    requires Tracks(policy, tracked + [op], op.id)
    requires Agree(policy, Lookup(t, op.id), Automaton(policy, tracked, op.id), op.now)
    ensures Locks(policy, t, op) <==> !TurnedAway(policy, t, op) && FillsSomeWindow(policy, tracked, op)
    ensures Locks(policy, t, op) ==> LockedUntil(After(policy, t, op), op.id, op.now + policy.lockoutDuration)
  {
    LocksAsReference(policy, t, tracked, op);
    ReferenceLocksIffWindowFull(policy, tracked + [op], op.id, |tracked|);
    if Locks(policy, t, op) { LockIsSet(policy, t, op.id, op.now); }
  }

  lemma TrackedOpsTrack(policy: LockoutPolicy, start: Instant, trace: seq<Op>, op: Op)
    requires policy.maxFailures > 0 && policy.failureWindow > 0 && |op.id| <= MAX_IDENTITY && Clocked(trace + [op])
    ensures Tracks(policy, TrackedOps(policy, Tracker(map[], start), trace) + [op], op.id)
  {
    ClockedInit(trace, op);
    TrackedOpsClocked(policy, Tracker(map[], start), trace, op.now);
  }

  /** Operation `op`, coming after the tracked operations, is the failure that fills a window. */
  ghost predicate FillsSomeWindow(policy: LockoutPolicy, tracked: seq<Op>, op: Op) {
    exists s: nat :: FillsWindow(policy, tracked + [op], op.id, s, |tracked|)
  }

  predicate LockedUntil(t: Tracker, id: Identity, until: Instant) {
    id in t.records && t.records[id].lockedUntil == Some(until)
  }

  /**
   In every trace under a non-decreasing clock, full tracker or not, an operation sets a lock if
   and only if it is not turned away and, among the tracked operations, is the `maxFailures`-th
   failure of a window: no success of the identity since the window opened, and all its
   failures strictly within `failureWindow` of the first.  The lock lasts `lockoutDuration`.
   */
  lemma LockSetIffWindowFull(policy: LockoutPolicy, start: Instant, trace: seq<Op>, op: Op)
    requires policy.maxFailures > 0 && policy.failureWindow > 0 && |op.id| <= MAX_IDENTITY && Clocked(trace + [op])
    ensures var t, tracked :=
        Run(policy, Tracker(map[], start), trace), TrackedOps(policy, Tracker(map[], start), trace);
            && (Locks(policy, t, op) <==> !TurnedAway(policy, t, op) && FillsSomeWindow(policy, tracked, op))
            && (Locks(policy, t, op) ==> LockedUntil(After(policy, t, op), op.id, op.now + policy.lockoutDuration))
  {
    var t, tracked := Run(policy, Tracker(map[], start), trace), TrackedOps(policy, Tracker(map[], start), trace);
    ClockedInit(trace, op);
    RunAgrees(policy, start, trace, op.id, op.now);
    TrackedOpsTrack(policy, start, trace, op);
    LocksIffFills(policy, t, tracked, op);
  }
}
