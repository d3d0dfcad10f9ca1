/** What the one-time-password machine promises about rows and about guessing (`src/auth/otp.rs`). */
module OtpLaws {
  import opened Prelude
  import opened Runs
  import opened Filters
  import opened Lockout
  import opened Otp

  /** An UPDATE succeeds if and only if it does not fail and some row is for the credential, valid and not used up. */
  lemma UpdateAcceptsIff(policy: LockoutPolicy, s: State, a: AttemptId, fails: bool, s': State)
    requires IsStep(policy, s, Update(a, fails), s')
    ensures var cred, at := s.attempts[a].cred, s.attempts[a].stage.at;
            At(s', a, Accepted) <==>
            !fails && exists i | 0 <= i < |s.rows| :: s.rows[i].cred == cred && s.rows[i].revoked == false
                                                      && at < s.rows[i].expiresAt
                                                        && s.rows[i].currentUses < s.rows[i].maxUses
    ensures !At(s', a, Accepted) ==> At(s', a, Rejected) && s'.rows == s.rows && s'.wins == s.wins
  {
    var cred, at := s.attempts[a].cred, s.attempts[a].stage.at;
    var rows' := Consumed(s.rows, cred, at);
    ConsumedRowByRow(s.rows, cred, at);
    if i :| 0 <= i < |s.rows| && s.rows[i].cred == cred && s.rows[i].revoked == false
            && at < s.rows[i].expiresAt && s.rows[i].currentUses < s.rows[i].maxUses
    {
      assert Spent(s.rows[i], rows'[i], cred, at);
    }
    if Affected(s.rows, cred, at) > 0 {
      var i :| 0 <= i < |s.rows| && rows'[i] != s.rows[i];
      assert Spent(s.rows[i], rows'[i], cred, at);
    }
  }

  /**
   The order of an attempt: check, SELECT, UPDATE with the reading of the SELECT, report; no step moves another
   attempt.
   */
  lemma StagesFollow(policy: LockoutPolicy, s: State, step: Step, s': State, a: AttemptId)
    requires IsStep(policy, s, step, s') && a in s'.attempts
    ensures match step
            case Start(b, cred) => b == a ==> a !in s.attempts && s'.attempts[a] == Attempt(cred, Started)
            case Gate(b, now) =>
              var clear := a in s.attempts
                && Answer(policy, s.tracker, Op(Check, s.attempts[a].cred.entity, now)) == Allowed;
              b == a ==> At(s, a, Started) && s'.attempts[a].stage == if clear then Cleared else Refused
            case Select(b, at, found) =>
              b == a ==> At(s, a, Cleared) && s'.attempts[a].stage == (if found then Matched(at) else Rejected)
            case Report(b, _, _) => b == a ==> At(s', a, Finished) && (At(s, a, Accepted) || At(s, a, Rejected))
            case Update(b, _) =>
              b == a ==> a in s.attempts && s.attempts[a].stage.Matched? && (At(s', a, Accepted) || At(s', a, Rejected))
            case _ => a in s.attempts && s'.attempts[a] == s.attempts[a]
    ensures a in s.attempts ==>
              s'.attempts[a].cred == s.attempts[a].cred
              && (s'.attempts[a] == s.attempts[a]
                || (!step.Provision? && !step.Revoke? && !step.Cleanup? && step.a == a))
  {
  }

  // ----- What a step does to the rows -----

  predicate RevokedRow(row: OtpRow, row': OtpRow, rowId: nat) {
    row' == if row.id == rowId then row.(revoked := true) else row
  }

  lemma {:induction false} RevokedRowByRow(rows: seq<OtpRow>, rowId: nat)
    ensures |Revoked(rows, rowId)| == |rows|
    ensures forall i | 0 <= i < |rows| :: RevokedRow(rows[i], Revoked(rows, rowId)[i], rowId)
  {
    if rows != [] {
      RevokedRowByRow(rows[1..], rowId);
      var rest := Revoked(rows[1..], rowId);
      forall i | 1 <= i < |rows| ensures RevokedRow(rows[i], Revoked(rows, rowId)[i], rowId) {
        assert RevokedRow(rows[1..][i - 1], rest[i - 1], rowId);
      }
    }
  }

  /** The cleanup keeps exactly the rows that expire at the cutoff or later, and archives the others, in order. */
  lemma {:induction false} SweepIsFilter(rows: seq<OtpRow>, cutoff: Instant)
    ensures Sweep(rows, cutoff, false) == Filter(rows, (row: OtpRow) => cutoff <= row.expiresAt)
    ensures Sweep(rows, cutoff, true) == Filter(rows, (row: OtpRow) => row.expiresAt < cutoff)
  {
    if rows != [] {
      SweepIsFilter(rows[1..], cutoff);
      FilterCons(rows, (row: OtpRow) => cutoff <= row.expiresAt);
      FilterCons(rows, (row: OtpRow) => row.expiresAt < cutoff);
    }
  }

  /** No step but an accepted UPDATE of its own credential, while valid, takes a use from a row in the table. */
  lemma StepRowByRow(policy: LockoutPolicy, s: State, step: Step, s': State, i: nat)
    requires IsStep(policy, s, step, s') && !step.Cleanup? && i < |s.rows|
    ensures i < |s'.rows| && s'.rows[i].id == s.rows[i].id && s'.rows[i].cred == s.rows[i].cred
            && s'.rows[i].maxUses == s.rows[i].maxUses && s'.rows[i].expiresAt == s.rows[i].expiresAt
    ensures s'.rows[i].revoked <==> s.rows[i].revoked || step == Revoke(s.rows[i].id)
    ensures s'.rows[i].currentUses == s.rows[i].currentUses
            || (step.Update? && s.attempts[step.a].cred == s.rows[i].cred && !s.rows[i].revoked
                && s.attempts[step.a].stage.at < s.rows[i].expiresAt
                && s'.rows[i].currentUses == s.rows[i].currentUses + 1 <= s.rows[i].maxUses)
  {
    match step {
      case Revoke(rowId) =>
        RevokedRowByRow(s.rows, rowId);
        assert RevokedRow(s.rows[i], s'.rows[i], rowId);
      case Update(a, _) =>
        var cred, at := s.attempts[a].cred, s.attempts[a].stage.at;
        ConsumedRowByRow(s.rows, cred, at);
        assert Spent(s.rows[i], Consumed(s.rows, cred, at)[i], cred, at);
      case _ =>
    }
  }

  // ----- Revocation is final -----

  predicate FrozenRow(row: OtpRow, rowId: nat, uses: nat) {
    row.id == rowId ==> row.revoked && row.currentUses == uses
  }

  predicate AllFrozen(rows: seq<OtpRow>, rowId: nat, uses: nat) {
    forall i | 0 <= i < |rows| :: FrozenRow(rows[i], rowId, uses)
  }

  /** Every row with this id, in the table or deleted from it, is revoked and was used `uses` times. */
  predicate Frozen(s: State, rowId: nat, uses: nat) {
    AllFrozen(s.rows, rowId, uses) && AllFrozen(s.archived, rowId, uses)
  }

  lemma FrozenAppend(a: seq<OtpRow>, b: seq<OtpRow>, rowId: nat, uses: nat)
    requires AllFrozen(a, rowId, uses) && AllFrozen(b, rowId, uses)
    ensures AllFrozen(a + b, rowId, uses)
  {
    forall i | 0 <= i < |a + b| ensures FrozenRow((a + b)[i], rowId, uses) {
      assert (a + b)[i] == if i < |a| then a[i] else b[i - |a|];
    }
  }

  lemma {:induction false} SweepStaysFrozen(rows: seq<OtpRow>, cutoff: Instant, gone: bool, rowId: nat, uses: nat)
    requires AllFrozen(rows, rowId, uses)
    ensures AllFrozen(Sweep(rows, cutoff, gone), rowId, uses)
  {
    if rows != [] {
      SweepStaysFrozen(rows[1..], cutoff, gone, rowId, uses);
      FrozenAppend(if (rows[0].expiresAt < cutoff) == gone then [rows[0]]
        else [], Sweep(rows[1..], cutoff, gone), rowId, uses);
    }
  }

  lemma StepStaysFrozen(policy: LockoutPolicy, s: State, step: Step, s': State, rowId: nat, uses: nat)
    requires IsStep(policy, s, step, s') && Frozen(s, rowId, uses) && (step.Provision? ==> step.row.id != rowId)
    ensures Frozen(s', rowId, uses)
  {
    if step.Cleanup? {
      SweepStaysFrozen(s.rows, step.cutoff, false, rowId, uses);
      SweepStaysFrozen(s.rows, step.cutoff, true, rowId, uses);
      FrozenAppend(s.archived, Sweep(s.rows, step.cutoff, true), rowId, uses);
    } else {
      SameLength(policy, s, step, s');
      forall i | 0 <= i < |s'.rows| ensures FrozenRow(s'.rows[i], rowId, uses) {
        if i < |s.rows| {
          StepRowByRow(policy, s, step, s', i);
          assert FrozenRow(s.rows[i], rowId, uses);
        }
      }
    }
  }

  lemma SameLength(policy: LockoutPolicy, s: State, step: Step, s': State)
    requires IsStep(policy, s, step, s') && !step.Cleanup?
    ensures if step.Provision? then s'.rows == s.rows + [step.row] else |s'.rows| == |s.rows|
  {
    match step {
      case Revoke(rowId) => RevokedRowByRow(s.rows, rowId);
      case Update(a, _) => ConsumedRowByRow(s.rows, s.attempts[a].cred, s.attempts[a].stage.at);
      case _ =>
    }
  }

  /** A revoked row stays revoked and is never used again, in every run that does not provision its id anew. */
  lemma {:induction false} RevokedIsFinal(
    policy: LockoutPolicy, states: seq<State>, steps: seq<Step>, rowId: nat, uses: nat, i: nat, j: nat)
    requires IsRun(Next(policy), states, steps) && i <= j < |states| && Frozen(states[i], rowId, uses)
    requires forall k | i <= k < j && steps[k].Provision? :: steps[k].row.id != rowId
    ensures Frozen(states[j], rowId, uses)
    decreases j
  {
    if i < j {
      RevokedIsFinal(policy, states, steps, rowId, uses, i, j - 1);
      assert StepAt(Next(policy), states, steps, j - 1);
      StepStaysFrozen(policy, states[j - 1], steps[j - 1], states[j], rowId, uses);
    }
  }

  // ----- Guessing is stopped -----

  /** An authenticated attempt wipes the failures of its entity. */
  lemma SuccessClears(policy: LockoutPolicy, t: Tracker, rows: seq<OtpRow>, enabled: bool, cred: Credential,
      env: Environment)
    requires policy.maxFailures > 0 && env.checkedAt <= env.recordedAt && |cred.entity| <= MAX_IDENTITY
    requires AfterAttempt(policy, t, rows, enabled, cred, env).outcome.Authenticated?
    ensures cred.entity !in AfterAttempt(policy, t, rows, enabled, cred, env).tracker.records
  {
  }

  /** The entity's record after `n` failures of one window. */
  predicate Failing(policy: LockoutPolicy, t: Tracker, entity: Identity, n: nat, first: Instant, last: Instant) {
    if n == 0 then entity !in t.records
    else entity in t.records && t.records[entity]
         == Record(n, first, if n >= policy.maxFailures then Some(last + policy.lockoutDuration) else None)
  }

  /** One rejected attempt of an entity with an active token, within the window, not turned away at capacity. */
  predicate Rejects(policy: LockoutPolicy, t: Tracker, rows: seq<OtpRow>, enabled: bool, cred: Credential,
      env: Environment) {
    && AfterAttempt(policy, t, rows, enabled, cred, env).rows == rows && env.activeOtp
    && !TurnedAway(policy, After(policy, t, Op(Check, cred.entity, env.checkedAt)),
      Op(Failure, cred.entity, env.recordedAt))
  }

  predicate Ordered(env: Environment, first: Instant, now: Instant, window: nat) {
    now <= env.checkedAt <= env.recordedAt && env.recordedAt - first < window
  }

  /** A check and a failure within the window count one more failure, and lock at the threshold. */
  lemma FailureCounts(policy: LockoutPolicy, t: Tracker, entity: Identity, checkedAt: Instant, recordedAt: Instant,
      n: nat, first: Instant, last: Instant)
    requires policy.failureWindow > 0 && n < policy.maxFailures && |entity| <= MAX_IDENTITY && first <= last
    requires Failing(policy, t, entity, n, first, last) && checkedAt <= recordedAt
    requires n > 0 ==> last <= checkedAt && recordedAt - first < policy.failureWindow
    requires !TurnedAway(policy, After(policy, t, Op(Check, entity, checkedAt)), Op(Failure, entity, recordedAt))
    ensures var checked, failure := After(policy, t, Op(Check, entity, checkedAt)), Op(Failure, entity, recordedAt);
            && Answer(policy, t, Op(Check, entity, checkedAt)) == Allowed
            && Failing(policy, After(policy, checked, failure), entity, n + 1, if n == 0 then recordedAt
              else first, recordedAt)
            && Answer(policy, checked, failure)
               == if n + 1 < policy.maxFailures then Allowed else LockedOut(policy.lockoutDuration)
  {
    var checked := After(policy, t, Op(Check, entity, checkedAt));
    assert Lookup(checked, entity) == Lookup(t, entity);
    assert Lookup(Swept(policy, checked, recordedAt), entity) == Lookup(t, entity);
  }

  /** An attempt that takes no use, past the gate, records a failure. */
  lemma RejectedRecords(policy: LockoutPolicy, t: Tracker, rows: seq<OtpRow>, enabled: bool, cred: Credential,
      env: Environment)
    requires Rejects(policy, t, rows, enabled, cred, env)
    requires Answer(policy, t, Op(Check, cred.entity, env.checkedAt)) == Allowed
    ensures var checked := After(policy, t, Op(Check, cred.entity, env.checkedAt));
            var failure := Op(Failure, cred.entity, env.recordedAt);
            var done, verdict := AfterAttempt(policy, t, rows, enabled, cred, env), Answer(policy, checked, failure);
            && done.tracker == After(policy, checked, failure)
            && done.outcome == if verdict.LockedOut? then TooManyRequests(RetryAfterSecs(verdict.retryAfter))
              else Unauthorized
  {
    ConsumedRowByRow(rows, cred, env.queriedAt);
  }

  lemma RejectedCounts(policy: LockoutPolicy, t: Tracker, rows: seq<OtpRow>, enabled: bool, cred: Credential,
      env: Environment, n: nat, first: Instant, last: Instant)
    requires policy.failureWindow > 0 && n < policy.maxFailures && |cred.entity| <= MAX_IDENTITY && first <= last
    requires Failing(policy, t, cred.entity, n, first, last) && Rejects(policy, t, rows, enabled, cred, env)
    requires env.checkedAt <= env.recordedAt
    requires n > 0 ==> Ordered(env, first, last, policy.failureWindow)
    ensures var done, first' := AfterAttempt(policy, t, rows, enabled, cred, env), if n == 0 then env.recordedAt
        else first;
            && Failing(policy, done.tracker, cred.entity, n + 1, first', env.recordedAt)
            && done.outcome == if n + 1 < policy.maxFailures then Unauthorized
                               else TooManyRequests(RetryAfterSecs(policy.lockoutDuration))
  {
    FailureCounts(policy, t, cred.entity, env.checkedAt, env.recordedAt, n, first, last);
    RejectedRecords(policy, t, rows, enabled, cred, env);
  }

  /** One guess at a token of some entity. */
  datatype Guess = Guess(cred: Credential, env: Environment)

  /** The tracker after a series of guesses at the same rows. */
  function AfterGuesses(policy: LockoutPolicy, t: Tracker, rows: seq<OtpRow>, enabled: bool, gs: seq<Guess>): Tracker {
    if gs == [] then t
    else
      var n := |gs| - 1;
      var before := AfterGuesses(policy, t, rows, enabled, gs[..n]);
      AfterAttempt(policy, before, rows, enabled, gs[n].cred, gs[n].env).tracker
  }

  /** Guess `i` is for the entity and rejected; it comes after the one before it and within the window of the first. */
  predicate RejectedAt(policy: LockoutPolicy, t: Tracker, rows: seq<OtpRow>, enabled: bool, entity: Identity,
      gs: seq<Guess>, i: nat)
    requires i < |gs|
  {
    var first, before := gs[0].env.recordedAt, if i == 0 then gs[0].env.checkedAt else gs[i - 1].env.recordedAt;
    && gs[i].cred.entity == entity
    && Rejects(policy, AfterGuesses(policy, t, rows, enabled, gs[..i]), rows, enabled, gs[i].cred, gs[i].env)
    && Ordered(gs[i].env, first, before, policy.failureWindow)
  }

  lemma {:induction false} RejectionsCount(policy: LockoutPolicy, t: Tracker, rows: seq<OtpRow>, enabled: bool,
      entity: Identity, gs: seq<Guess>, n: nat)
    requires policy.failureWindow > 0 && |entity| <= MAX_IDENTITY && entity !in t.records
    requires n <= |gs| && n <= policy.maxFailures && gs != []
    requires forall i | 0 <= i < n :: RejectedAt(policy, t, rows, enabled, entity, gs, i)
    ensures var first, last := gs[0].env.recordedAt, gs[if n == 0 then 0 else n - 1].env.recordedAt;
            && first <= last
            && Failing(policy, AfterGuesses(policy, t, rows, enabled, gs[..n]), entity, n, first, last)
  {
    if n > 0 {
      RejectionsCount(policy, t, rows, enabled, entity, gs, n - 1);
      assert RejectedAt(policy, t, rows, enabled, entity, gs, n - 1);
      assert gs[..n][..n - 1] == gs[..n - 1];
      var before := AfterGuesses(policy, t, rows, enabled, gs[..n - 1]);
      var last := gs[if n == 1 then 0 else n - 2].env.recordedAt;
      RejectedCounts(policy, before, rows, enabled, gs[n - 1].cred, gs[n - 1].env, n - 1, gs[0].env.recordedAt, last);
    }
  }

  /**
   After `maxFailures` rejected guesses at tokens of one entity within one window, every further
   attempt before the lockout ends is refused, correct token or not, with the time left, and
   consumes nothing.
   */
  lemma GuessingIsStopped(policy: LockoutPolicy, t: Tracker, rows: seq<OtpRow>, enabled: bool, entity: Identity,
      gs: seq<Guess>, rows': seq<OtpRow>, attempt: Guess)
    requires 0 < policy.maxFailures == |gs| && policy.failureWindow > 0
    requires |entity| <= MAX_IDENTITY && entity !in t.records && attempt.cred.entity == entity
    requires forall i | 0 <= i < |gs| :: RejectedAt(policy, t, rows, enabled, entity, gs, i)
    requires attempt.env.checkedAt < gs[|gs| - 1].env.recordedAt + policy.lockoutDuration
    ensures var t' := AfterGuesses(policy, t, rows, enabled, gs);
            var done := AfterAttempt(policy, t', rows', enabled, attempt.cred, attempt.env);
            var left := gs[|gs| - 1].env.recordedAt + policy.lockoutDuration - attempt.env.checkedAt;
            done.outcome == TooManyRequests(RetryAfterSecs(left)) && done.rows == rows'
  {
    RejectionsCount(policy, t, rows, enabled, entity, gs, |gs|);
    assert gs[..|gs|] == gs;
  }
}
