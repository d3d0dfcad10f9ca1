/**
 One-time-password authentication (`src/auth/otp.rs`): the lockout gate, the advisory
 SELECT, the conditional UPDATE that consumes a use, and every interleaving of attempts
 with provisioning, revocation and the cleanup sweep.

 A SELECT may be arbitrarily stale, so its result is a free choice.  Hashes and clock
 readings are parameters.
 */
module Otp {
  import opened Prelude
  import opened Runs
  import opened Lockout

  datatype Credential = Credential(entity: Identity, tokenHash: Bytes)

  datatype OtpRow = OtpRow(id: nat, cred: Credential, maxUses: nat, currentUses: nat, expiresAt: Instant, revoked: bool)

  /** The WHERE clause shared by the SELECT and the UPDATE. */
  predicate Usable(row: OtpRow, cred: Credential, now: Instant) {
    row.cred == cred && !row.revoked && row.expiresAt > now && row.currentUses < row.maxUses
  }

  /** The UPDATE: every usable row of the credential gives up one use. */
  function Consumed(rows: seq<OtpRow>, cred: Credential, now: Instant): seq<OtpRow> {
    if rows == [] then []
    else
      var row := rows[0];
      [if Usable(row, cred, now) then row.(currentUses := row.currentUses + 1) else row]
      + Consumed(rows[1..], cred, now)
  }

  function Affected(rows: seq<OtpRow>, cred: Credential, now: Instant): nat {
    if rows == [] then 0 else (if Usable(rows[0], cred, now) then 1 else 0) + Affected(rows[1..], cred, now)
  }

  /**
   The UPDATE in terms of one row: it takes a use exactly if the row is for the credential, not
   revoked, not expired and not used up.
   */
  predicate Spent(row: OtpRow, row': OtpRow, cred: Credential, now: Instant) {
    if row.cred == cred && row.revoked == false && now < row.expiresAt && row.maxUses - row.currentUses >= 1
    then row' == row.(currentUses := row.currentUses + 1)
    else row' == row
  }

  lemma {:induction false} ConsumedRowByRow(rows: seq<OtpRow>, cred: Credential, now: Instant)
    ensures var rows' := Consumed(rows, cred, now);
            && |rows'| == |rows| && (forall i | 0 <= i < |rows| :: Spent(rows[i], rows'[i], cred, now))
            && (Affected(rows, cred, now) > 0 <==> exists i | 0 <= i < |rows| :: rows'[i] != rows[i])
  {
    if rows != [] {
      ConsumedRowByRow(rows[1..], cred, now);
      var rows', rest := Consumed(rows, cred, now), Consumed(rows[1..], cred, now);
      assert Spent(rows[0], rows'[0], cred, now);
      forall i | 1 <= i < |rows| ensures rows'[i] == rest[i - 1] && Spent(rows[i], rows'[i], cred, now) {
        assert Spent(rows[1..][i - 1], rest[i - 1], cred, now);
      }
      if Affected(rows[1..], cred, now) > 0 {
        var i :| 0 <= i < |rest| && rest[i] != rows[1..][i];
        assert rows'[i + 1] != rows[i + 1];
      }
    }
  }

  class OtpTable {
    var rows: seq<OtpRow>

    /** `UPDATE ... SET current_uses = current_uses + 1 WHERE ...`; returns the rows affected. */
    method Consume(cred: Credential, now: Instant) returns (affected: nat)
      modifies this
      ensures rows == Consumed(old(rows), cred, now) && affected == Affected(old(rows), cred, now)
      ensures |rows| == |old(rows)| && forall i | 0 <= i < |rows| :: Spent(old(rows)[i], rows[i], cred, now)
      ensures affected > 0 <==> exists i | 0 <= i < |rows| :: rows[i] != old(rows)[i]
    {
      ghost var was := rows;
      affected := 0;
      var done := [];
      for i := 0 to |rows|
        invariant rows == was
        invariant done + Consumed(rows[i..], cred, now) == Consumed(was, cred, now)
        invariant affected + Affected(rows[i..], cred, now) == Affected(was, cred, now)
      {
        var row := rows[i];
        assert rows[i..][1..] == rows[i + 1..];
        if Usable(row, cred, now) {
          row := row.(currentUses := row.currentUses + 1);
          affected := affected + 1;
        }
        assert done + ([row] + Consumed(rows[i + 1..], cred, now)) == done + [row] + Consumed(rows[i + 1..], cred, now);
        done := done + [row];
      }
      ConsumedRowByRow(was, cred, now);
      rows := done;
    }
  }

  datatype Outcome = Authenticated | Unauthorized | TooManyRequests(retryAfterSecs: nat)

  /** The Retry-After header: whole seconds, rounded up. */
  function RetryAfterSecs(retryAfter: nat): nat {
    retryAfter / SECOND + (if retryAfter % SECOND > 0 then 1 else 0)
  }

  /** A client that waits as told never retries before the lockout ends, and waits less than a second too long. */
  lemma RetryNeverEarly(retryAfter: nat)
    ensures retryAfter <= RetryAfterSecs(retryAfter) * 1_000_000_000 < retryAfter + 1_000_000_000
  {
  }

  /** What the databases and clocks hand to one attempt. */
  datatype Environment = Environment(
    checkedAt: Instant, queriedAt: Instant, recordedAt: Instant, selectFinds: bool, updateFails: bool, activeOtp: bool)

  datatype Attempted = Attempted(outcome: Outcome, tracker: Tracker, rows: seq<OtpRow>)

  /** What one attempt without interference does. */
  function AfterAttempt(policy: LockoutPolicy, tracker: Tracker, rows: seq<OtpRow>, enabled: bool, cred: Credential,
      env: Environment): Attempted {
    var gate := Op(Check, cred.entity, env.checkedAt);
    var status, t := Answer(policy, tracker, gate), After(policy, tracker, gate);
    if status.LockedOut? then Attempted(TooManyRequests(RetryAfterSecs(status.retryAfter)), t, rows)
    else
      var tries := enabled && env.selectFinds && !env.updateFails;
      var rows' := if tries then Consumed(rows, cred, env.queriedAt) else rows;
      if tries && Affected(rows, cred, env.queriedAt) > 0 then
        Attempted(Authenticated, After(policy, t, Op(Success, cred.entity, env.recordedAt)), rows')
      else if !env.activeOtp then Attempted(Unauthorized, t, rows')
      else
        var failure := Op(Failure, cred.entity, env.recordedAt);
        var verdict := Answer(policy, t, failure);
        Attempted(if verdict.LockedOut? then TooManyRequests(RetryAfterSecs(verdict.retryAfter)) else Unauthorized,
                  After(policy, t, failure), rows')
  }

  method TryExtractOtp(tracker: FailureTracker, table: OtpTable, enabled: bool, cred: Credential, env: Environment)
    returns (outcome: Outcome)
    modifies tracker, table
    ensures Attempted(outcome, tracker.View(), table.rows)
         == AfterAttempt(tracker.policy, old(tracker.View()), old(table.rows), enabled, cred, env)
    ensures outcome.Authenticated? <==> table.rows != old(table.rows)
    ensures outcome.Authenticated? ==>
              enabled && Answer(tracker.policy, old(tracker.View()), Op(Check, cred.entity, env.checkedAt)) == Allowed
  {
    var gate := tracker.Check(cred.entity, env.checkedAt);
    if gate.LockedOut? { return TooManyRequests(RetryAfterSecs(gate.retryAfter)); }
    var valid := ValidateOtp(table, enabled, cred, env);
    if valid {
      tracker.RecordSuccess(cred.entity, env.recordedAt);
      return Authenticated;
    }
    if env.activeOtp {
      var status := tracker.RecordFailure(cred.entity, env.recordedAt);
      if status.LockedOut? { return TooManyRequests(RetryAfterSecs(status.retryAfter)); }
    }
    return Unauthorized;
  }

  method ValidateOtp(table: OtpTable, enabled: bool, cred: Credential, env: Environment) returns (ok: bool)
    modifies table
    ensures var tries := enabled && env.selectFinds && !env.updateFails;
            && table.rows == (if tries then Consumed(old(table.rows), cred, env.queriedAt) else old(table.rows))
            && (ok <==> tries && Affected(old(table.rows), cred, env.queriedAt) > 0)
            && (ok <==> table.rows != old(table.rows)) && (ok ==> enabled && env.selectFinds && !env.updateFails)
  {
    if !enabled || !env.selectFinds || env.updateFails { return false; }
    var affected := table.Consume(cred, env.queriedAt);
    return affected != 0;
  }

  // ----- Interleavings -----

  type AttemptId = nat

  datatype Stage =
    | Started
    | Cleared              // the lockout check allowed it
    | Matched(at: Instant) // the SELECT found a row; the UPDATE reuses its clock reading
    | Accepted             // the UPDATE consumed a use
    | Rejected
    | Refused              // the lockout check said locked
    | Finished

  datatype Attempt = Attempt(cred: Credential, stage: Stage)

  /** `archived`, `provisioned` and `wins` are history: deleted rows, rows as provisioned, successes per credential. */
  datatype State = State(
    rows: seq<OtpRow>,
    archived: seq<OtpRow>,
    provisioned: seq<OtpRow>,
    tracker: Tracker,
    attempts: map<AttemptId, Attempt>,
    wins: multiset<Credential>)

  datatype Step =
    | Provision(row: OtpRow)
    | Revoke(rowId: nat)
    | Cleanup(cutoff: Instant)
    | Start(a: AttemptId, cred: Credential)
    | Gate(a: AttemptId, now: Instant)
    | Select(a: AttemptId, at: Instant, found: bool)
    | Update(a: AttemptId, fails: bool)
    | Report(a: AttemptId, now: Instant, active: bool)

  predicate At(s: State, a: AttemptId, stage: Stage) {
    a in s.attempts && s.attempts[a].stage == stage
  }

  predicate Enabled(s: State, step: Step) {
    match step
    case Provision(row) => row.currentUses == 0 && !row.revoked
    case Revoke(_) => true
    case Cleanup(_) => true
    case Start(a, _) => a !in s.attempts
    case Gate(a, _) => At(s, a, Started)
    case Select(a, _, _) => At(s, a, Cleared)
    case Update(a, _) => a in s.attempts && s.attempts[a].stage.Matched?
    case Report(a, _, _) => At(s, a, Accepted) || At(s, a, Rejected)
  }

  function Goto(s: State, a: AttemptId, stage: Stage): State
    requires a in s.attempts
  {
    s.(attempts := s.attempts[a := s.attempts[a].(stage := stage)])
  }

  function Revoked(rows: seq<OtpRow>, rowId: nat): seq<OtpRow> {
    if rows == [] then []
    else [if rows[0].id == rowId then rows[0].(revoked := true) else rows[0]] + Revoked(rows[1..], rowId)
  }

  /** The rows whose expiry is before the cutoff (`gone`), or the others. */
  function Sweep(rows: seq<OtpRow>, cutoff: Instant, gone: bool): seq<OtpRow> {
    if rows == [] then []
    else (if (rows[0].expiresAt < cutoff) == gone then [rows[0]] else []) + Sweep(rows[1..], cutoff, gone)
  }

  /** The tracker operation a step performs, if any. */
  function TrackerOp(s: State, step: Step): Option<Op>
    requires Enabled(s, step)
  {
    match step
    case Gate(a, now) => Some(Op(Check, s.attempts[a].cred.entity, now))
    case Report(a, now, active) =>
      if At(s, a, Accepted) then Some(Op(Success, s.attempts[a].cred.entity, now))
      else if active then Some(Op(Failure, s.attempts[a].cred.entity, now)) else None
    case _ => None
  }

  function Tracked(policy: LockoutPolicy, s: State, step: Step): Tracker
    requires Enabled(s, step)
  {
    var op := TrackerOp(s, step);
    if op.Some? then After(policy, s.tracker, op.value) else s.tracker
  }

  function Apply(policy: LockoutPolicy, s: State, step: Step): State
    requires Enabled(s, step)
  {
    match step
    case Provision(row) => s.(rows := s.rows + [row], provisioned := s.provisioned + [row])
    case Revoke(rowId) => s.(rows := Revoked(s.rows, rowId))
    case Cleanup(cutoff) =>
      s.(rows := Sweep(s.rows, cutoff, false), archived := s.archived + Sweep(s.rows, cutoff, true))
    case Start(a, cred) => s.(attempts := s.attempts[a := Attempt(cred, Started)])
    case Gate(a, now) =>
      var status := Answer(policy, s.tracker, Op(Check, s.attempts[a].cred.entity, now));
      Goto(s, a, if status.LockedOut? then Refused else Cleared).(tracker := Tracked(policy, s, step))
    case Select(a, at, found) => Goto(s, a, if found then Matched(at) else Rejected)
    case Update(a, fails) =>
      var cred, at := s.attempts[a].cred, s.attempts[a].stage.at;
      if fails || Affected(s.rows, cred, at) == 0 then Goto(s, a, Rejected)
      else Goto(s, a, Accepted).(rows := Consumed(s.rows, cred, at), wins := s.wins[cred := s.wins[cred] + 1])
    case Report(a, _, _) => Goto(s, a, Finished).(tracker := Tracked(policy, s, step))
  }

  predicate IsStep(policy: LockoutPolicy, s: State, step: Step, s': State) {
    Enabled(s, step) && s' == Apply(policy, s, step)
  }

  function Next(policy: LockoutPolicy): (State, Step, State) -> bool {
    (s, step, s') => IsStep(policy, s, step, s')
  }

  function Initial(tracker: Tracker): State {
    State([], [], [], tracker, map[], multiset{})
  }

  lemma {:induction false} NoneAffected(rows: seq<OtpRow>, cred: Credential, now: Instant)
    requires Affected(rows, cred, now) == 0
    ensures Consumed(rows, cred, now) == rows
  {
    if rows != [] {
      NoneAffected(rows[1..], cred, now);
    }
  }

  /** From a started attempt past the gate: its SELECT and UPDATE. */
  lemma ValidationIsARun(policy: LockoutPolicy, s: State, t: State, a: AttemptId, enabled: bool, env: Environment)
    returns (u: State)
    requires Reaches(Next(policy), s, t) && At(t, a, Cleared)
    ensures Reaches(Next(policy), s, u) && u.tracker == t.tracker && a in u.attempts
        && u.attempts[a].cred == t.attempts[a].cred
    ensures u.wins == if At(u, a, Accepted) then t.wins[t.attempts[a].cred := t.wins[t.attempts[a].cred] + 1]
        else t.wins
    ensures var cred, tries := t.attempts[a].cred, enabled && env.selectFinds && !env.updateFails;
            && u.rows == (if tries then Consumed(t.rows, cred, env.queriedAt) else t.rows)
            && u.attempts[a].stage == if tries && Affected(t.rows, cred, env.queriedAt) > 0 then Accepted else Rejected
  {
    var select := Select(a, env.queriedAt, enabled && env.selectFinds);
    ReachesOn(Next(policy), s, t, select, Apply(policy, t, select));
    u := Apply(policy, t, select);
    if enabled && env.selectFinds {
      var update := Update(a, env.updateFails);
      ReachesOn(Next(policy), s, u, update, Apply(policy, u, update));
      u := Apply(policy, u, update);
      if Affected(t.rows, t.attempts[a].cred, env.queriedAt) == 0 {
        NoneAffected(t.rows, t.attempts[a].cred, env.queriedAt);
      }
    }
  }

  /** A new attempt and its lockout check. */
  lemma GateIsARun(policy: LockoutPolicy, s: State, a: AttemptId, cred: Credential, now: Instant) returns (t: State)
    requires a !in s.attempts
    ensures Reaches(Next(policy), s, t) && t.rows == s.rows && t.wins == s.wins && a in t.attempts
    ensures t.attempts[a].cred == cred && t.tracker == After(policy, s.tracker, Op(Check, cred.entity, now))
    ensures t.attempts[a].stage
         == if Answer(policy, s.tracker, Op(Check, cred.entity, now)).LockedOut? then Refused else Cleared
  {
    var u := Apply(policy, s, Start(a, cred));
    ReachesSelf(Next(policy), s);
    ReachesOn(Next(policy), s, s, Start(a, cred), u);
    t := Apply(policy, u, Gate(a, now));
    ReachesOn(Next(policy), s, u, Gate(a, now), t);
  }

  /**
   One attempt without interference is a run of the machine that ends in the same tracker and
   table.  It is authenticated exactly if the machine counts a success for the credential, and
   ends Refused exactly if the lockout check turned it away.
   */
  lemma AttemptIsARun(policy: LockoutPolicy, s: State, a: AttemptId, enabled: bool, cred: Credential, env: Environment)
    returns (t: State)
    requires a !in s.attempts
    ensures Reaches(Next(policy), s, t)
    ensures var done := AfterAttempt(policy, s.tracker, s.rows, enabled, cred, env);
            && t.tracker == done.tracker && t.rows == done.rows
            && t.wins == (if done.outcome.Authenticated? then s.wins[cred := s.wins[cred] + 1] else s.wins)
            && (At(t, a, Refused) <==> Answer(policy, s.tracker, Op(Check, cred.entity, env.checkedAt)).LockedOut?)
  {
    t := GateIsARun(policy, s, a, cred, env.checkedAt);
    if At(t, a, Cleared) {
      t := ValidationIsARun(policy, s, t, a, enabled, env);
      var report := Report(a, env.recordedAt, env.activeOtp);
      ReachesOn(Next(policy), s, t, report, Apply(policy, t, report));
      t := Apply(policy, t, report);
    }
  }

  // ----- Conservation of uses -----

  predicate WithinLimit(rows: seq<OtpRow>) {
    forall i | 0 <= i < |rows| :: rows[i].currentUses <= rows[i].maxUses
  }

  function Uses(rows: seq<OtpRow>, cred: Credential): nat {
    if rows == [] then 0 else (if rows[0].cred == cred then rows[0].currentUses else 0) + Uses(rows[1..], cred)
  }

  /** The uses granted for a credential: the sum of `max_uses` over its rows. */
  function Granted(rows: seq<OtpRow>, cred: Credential): nat {
    if rows == [] then 0 else (if rows[0].cred == cred then rows[0].maxUses else 0) + Granted(rows[1..], cred)
  }

  lemma {:induction false} SumsAppend(a: seq<OtpRow>, b: seq<OtpRow>, cred: Credential)
    ensures Uses(a + b, cred) == Uses(a, cred) + Uses(b, cred)
    ensures Granted(a + b, cred) == Granted(a, cred) + Granted(b, cred)
  {
    if a == [] {
      assert a + b == b;
    } else {
      assert (a + b)[1..] == a[1..] + b;
      SumsAppend(a[1..], b, cred);
    }
  }

  lemma {:induction false} UsesWithinGrant(rows: seq<OtpRow>, cred: Credential)
    requires WithinLimit(rows)
    ensures Uses(rows, cred) <= Granted(rows, cred)
  {
    if rows != [] {
      UsesWithinGrant(rows[1..], cred);
    }
  }

  /** The UPDATE takes one use per affected row, from that credential only, never past the limit. */
  lemma {:induction false} ConsumeConserves(rows: seq<OtpRow>, cred: Credential, now: Instant, other: Credential)
    requires WithinLimit(rows)
    ensures WithinLimit(Consumed(rows, cred, now))
    ensures Granted(Consumed(rows, cred, now), other) == Granted(rows, other)
    ensures Uses(Consumed(rows, cred, now), other)
        == Uses(rows, other) + (if other == cred then Affected(rows, cred, now) else 0)
  {
    if rows != [] {
      ConsumeConserves(rows[1..], cred, now, other);
      var rest := Consumed(rows[1..], cred, now);
      var all := Consumed(rows, cred, now);
      assert all[1..] == rest;
      assert forall i | 1 <= i < |all| :: all[i] == rest[i - 1];
    }
  }

  lemma {:induction false} RevokeConserves(rows: seq<OtpRow>, rowId: nat, cred: Credential)
    ensures WithinLimit(rows) ==> WithinLimit(Revoked(rows, rowId))
    ensures Uses(Revoked(rows, rowId), cred) == Uses(rows, cred)
        && Granted(Revoked(rows, rowId), cred) == Granted(rows, cred)
  {
    if rows != [] {
      RevokeConserves(rows[1..], rowId, cred);
      var rest, all := Revoked(rows[1..], rowId), Revoked(rows, rowId);
      assert all[1..] == rest;
      assert forall i | 1 <= i < |all| :: all[i] == rest[i - 1];
    }
  }

  lemma SumsCons(row: OtpRow, rest: seq<OtpRow>, cred: Credential)
    ensures Uses([row] + rest, cred) == (if row.cred == cred then row.currentUses else 0) + Uses(rest, cred)
    ensures Granted([row] + rest, cred) == (if row.cred == cred then row.maxUses else 0) + Granted(rest, cred)
  {
    assert ([row] + rest)[1..] == rest;
  }

  lemma {:induction false} SweepWithinLimit(rows: seq<OtpRow>, cutoff: Instant, gone: bool)
    requires WithinLimit(rows)
    ensures WithinLimit(Sweep(rows, cutoff, gone))
  {
    if rows != [] {
      SweepWithinLimit(rows[1..], cutoff, gone);
    }
  }

  /** The sweep moves every row to one side, with its uses and its grant. */
  lemma {:induction false} SweepConserves(rows: seq<OtpRow>, cutoff: Instant, cred: Credential)
    ensures Uses(Sweep(rows, cutoff, false), cred) + Uses(Sweep(rows, cutoff, true), cred) == Uses(rows, cred)
    ensures Granted(Sweep(rows, cutoff, false), cred) + Granted(Sweep(rows, cutoff, true), cred) == Granted(rows, cred)
  {
    if rows != [] {
      SweepConserves(rows[1..], cutoff, cred);
      var gone := rows[0].expiresAt < cutoff;
      SumsCons(rows[0], Sweep(rows[1..], cutoff, gone), cred);
      assert Sweep(rows, cutoff, gone) == [rows[0]] + Sweep(rows[1..], cutoff, gone);
      assert Sweep(rows, cutoff, !gone) == Sweep(rows[1..], cutoff, !gone);
    }
  }

  /** Successes are paid for by recorded uses; grants are neither created nor lost. */
  predicate Paid(s: State, cred: Credential) {
    && s.wins[cred] <= Uses(s.rows, cred) + Uses(s.archived, cred)
    && Granted(s.rows, cred) + Granted(s.archived, cred) == Granted(s.provisioned, cred)
  }

  ghost predicate Inv(s: State) {
    WithinLimit(s.rows) && WithinLimit(s.archived) && forall cred :: Paid(s, cred)
  }

  lemma CleanupPays(s: State, cutoff: Instant, cred: Credential)
    requires WithinLimit(s.rows) && WithinLimit(s.archived) && Paid(s, cred)
    ensures var rows, archived := Sweep(s.rows, cutoff, false), s.archived + Sweep(s.rows, cutoff, true);
            WithinLimit(rows) && WithinLimit(archived) && Paid(s.(rows := rows, archived := archived), cred)
  {
    SweepWithinLimit(s.rows, cutoff, false);
    SweepWithinLimit(s.rows, cutoff, true);
    SweepConserves(s.rows, cutoff, cred);
    SumsAppend(s.archived, Sweep(s.rows, cutoff, true), cred);
  }

  lemma UpdatePays(policy: LockoutPolicy, s: State, a: AttemptId, fails: bool, cred: Credential)
    requires Enabled(s, Update(a, fails)) && WithinLimit(s.rows) && WithinLimit(s.archived) && Paid(s, cred)
    ensures var s' := Apply(policy, s, Update(a, fails));
            WithinLimit(s'.rows) && WithinLimit(s'.archived) && Paid(s', cred)
  {
    ConsumeConserves(s.rows, s.attempts[a].cred, s.attempts[a].stage.at, cred);
  }

  lemma ProvisionPays(s: State, row: OtpRow, cred: Credential)
    requires row.currentUses == 0 && WithinLimit(s.rows) && Paid(s, cred)
    ensures WithinLimit(s.rows + [row]) && Paid(s.(rows := s.rows + [row], provisioned := s.provisioned + [row]), cred)
  {
    SumsAppend(s.rows, [row], cred);
    SumsAppend(s.provisioned, [row], cred);
    assert [row][1..] == [];
  }

  lemma StepPays(policy: LockoutPolicy, s: State, step: Step, s': State, cred: Credential)
    requires IsStep(policy, s, step, s') && WithinLimit(s.rows) && WithinLimit(s.archived) && Paid(s, cred)
    ensures WithinLimit(s'.rows) && WithinLimit(s'.archived) && Paid(s', cred)
  {
    match step {
      case Provision(row) => ProvisionPays(s, row, cred);
      case Revoke(rowId) => RevokeConserves(s.rows, rowId, cred);
      case Cleanup(cutoff) => CleanupPays(s, cutoff, cred);
      case Update(a, fails) => UpdatePays(policy, s, a, fails, cred);
      case _ =>
    }
  }

  lemma {:induction false} RunPays(policy: LockoutPolicy, states: seq<State>, steps: seq<Step>, k: nat)
    requires IsRun(Next(policy), states, steps) && k < |states| && states[0] == Initial(states[0].tracker)
    ensures Inv(states[k])
  {
    if k > 0 {
      RunPays(policy, states, steps, k - 1);
      assert StepAt(Next(policy), states, steps, k - 1);
      forall cred ensures WithinLimit(states[k].rows) && WithinLimit(states[k].archived) && Paid(states[k], cred) {
        assert Paid(states[k - 1], cred);
        StepPays(policy, states[k - 1], steps[k - 1], states[k], cred);
      }
      assert Paid(states[k], Credential([], []));
    }
  }

  /**
   In every interleaving, with arbitrarily stale SELECTs, no row is used more often than
   it allows, and a credential succeeds at most as often as the sum of `max_uses` over
   the rows ever provisioned for it.
   */
  lemma NoOverspending(policy: LockoutPolicy, states: seq<State>, steps: seq<Step>, k: nat, cred: Credential)
    requires IsRun(Next(policy), states, steps) && k < |states| && states[0] == Initial(states[0].tracker)
    ensures forall i | 0 <= i < |states[k].rows| :: states[k].rows[i].currentUses <= states[k].rows[i].maxUses
    ensures states[k].wins[cred] <= Granted(states[k].provisioned, cred)
  {
    RunPays(policy, states, steps, k);
    assert Paid(states[k], cred);
    UsesWithinGrant(states[k].rows, cred);
    UsesWithinGrant(states[k].archived, cred);
  }

  // ----- The lockout gate -----

  /** An attempt the gate refused stays refused: it never reaches the UPDATE and consumes nothing. */
  lemma {:induction false} RefusedConsumesNothing(policy: LockoutPolicy, states: seq<State>, steps: seq<Step>,
      a: AttemptId, i: nat, j: nat)
    requires IsRun(Next(policy), states, steps) && i <= j < |states| && At(states[i], a, Refused)
    ensures At(states[j], a, Refused)
    ensures forall k | i <= k < j && steps[k].Update? :: steps[k].a != a
    decreases j
  {
    if i < j {
      RefusedConsumesNothing(policy, states, steps, a, i, j - 1);
      assert StepAt(Next(policy), states, steps, j - 1);
    }
  }

  /** The tracker operations of steps `i` to `j - 1`. */
  function TrackerTrace(policy: LockoutPolicy, states: seq<State>, steps: seq<Step>, i: nat, j: nat): seq<Op>
    requires IsRun(Next(policy), states, steps) && i <= j < |states|
    decreases j
  {
    if i == j then []
    else
      assert StepAt(Next(policy), states, steps, j - 1);
      var op := TrackerOp(states[j - 1], steps[j - 1]);
      TrackerTrace(policy, states, steps, i, j - 1) + (if op.Some? then [op.value] else [])
  }

  lemma {:induction false} TrackerFollowsTrace(policy: LockoutPolicy, states: seq<State>, steps: seq<Step>, i: nat,
      j: nat)
    requires IsRun(Next(policy), states, steps) && i <= j < |states|
    ensures states[j].tracker == Run(policy, states[i].tracker, TrackerTrace(policy, states, steps, i, j))
    decreases j
  {
    if i < j {
      TrackerFollowsTrace(policy, states, steps, i, j - 1);
      assert StepAt(Next(policy), states, steps, j - 1);
      var trace, trace' := TrackerTrace(policy, states, steps, i, j - 1), TrackerTrace(policy, states, steps, i, j);
      if TrackerOp(states[j - 1], steps[j - 1]).Some? {
        assert trace'[..|trace'| - 1] == trace;
      } else {
        assert trace' == trace;
      }
    }
  }

  predicate PastGate(s: State, a: AttemptId, entity: Identity) {
    a in s.attempts && s.attempts[a].cred.entity == entity
      && (s.attempts[a].stage.Cleared? || s.attempts[a].stage.Matched?)
  }

  /** A step that does not clear an attempt of the entity brings none past the gate. */
  lemma StepPastGate(policy: LockoutPolicy, s: State, step: Step, s': State, entity: Identity)
    requires IsStep(policy, s, step, s')
    requires step.Gate? && s.attempts[step.a].cred.entity == entity
        ==> Answer(policy, s.tracker, Op(Check, entity, step.now)).LockedOut?
    ensures forall a | PastGate(s', a, entity) :: PastGate(s, a, entity)
    ensures step.Update? && s.attempts[step.a].cred.entity == entity ==> PastGate(s, step.a, entity)
  {
  }

  /** The tracker trace of a run extends that of a shorter one. */
  lemma TraceExtends(policy: LockoutPolicy, states: seq<State>, steps: seq<Step>, i: nat, j: nat)
    requires IsRun(Next(policy), states, steps) && i < j < |states|
    ensures Enabled(states[j - 1], steps[j - 1])
    ensures var trace, trace' :=
        TrackerTrace(policy, states, steps, i, j - 1), TrackerTrace(policy, states, steps, i, j);
            var op := TrackerOp(states[j - 1], steps[j - 1]);
            trace' == if op.Some? then trace + [op.value] else trace
  {
    assert StepAt(Next(policy), states, steps, j - 1);
  }

  predicate Before(trace: seq<Op>, until: Instant) {
    Clocked(trace) && forall k | 0 <= k < |trace| :: trace[k].now < until
  }

  lemma BeforeAppended(trace: seq<Op>, op: Op, until: Instant)
    requires Before(trace + [op], until)
    ensures Before(trace, until) && op.now < until
    ensures trace != [] ==> trace[|trace| - 1].now <= op.now
  {
    var all := trace + [op];
    assert forall k | 0 <= k < |trace| :: trace[k] == all[k];
    assert all[|trace|] == op;
  }

  /** A check within the lockout is refused. */
  lemma CheckRefuses(policy: LockoutPolicy, t: Tracker, trace: seq<Op>, entity: Identity, until: Instant, now: Instant)
    requires policy.maxFailures > 0 && |entity| <= MAX_IDENTITY
    requires entity in t.records && t.records[entity].lockedUntil == Some(until)
    requires Before(trace + [Op(Check, entity, now)], until)
    ensures Answer(policy, Run(policy, t, trace), Op(Check, entity, now)).LockedOut?
  {
    BeforeAppended(trace, Op(Check, entity, now), until);
    LockoutIsExact(policy, t, trace, entity, until, now);
  }

  predicate GatesAt(s: State, step: Step, entity: Identity) {
    step.Gate? && step.a in s.attempts && s.attempts[step.a].cred.entity == entity
  }

  lemma GateTrace(
    policy: LockoutPolicy, states: seq<State>, steps: seq<Step>, entity: Identity, until: Instant, i: nat, j: nat)
    requires IsRun(Next(policy), states, steps) && i < j < |states|
    requires Before(TrackerTrace(policy, states, steps, i, j), until) && GatesAt(states[j - 1], steps[j - 1], entity)
    ensures Before(TrackerTrace(policy, states, steps, i, j - 1) + [Op(Check, entity, steps[j - 1].now)], until)
  {
    TraceExtends(policy, states, steps, i, j);
  }

  lemma GateRefuses(
    policy: LockoutPolicy, states: seq<State>, steps: seq<Step>, entity: Identity, until: Instant, i: nat, j: nat)
    requires policy.maxFailures > 0 && |entity| <= MAX_IDENTITY
    requires IsRun(Next(policy), states, steps) && i < j < |states|
    requires entity in states[i].tracker.records && states[i].tracker.records[entity].lockedUntil == Some(until)
    requires Before(TrackerTrace(policy, states, steps, i, j), until) && GatesAt(states[j - 1], steps[j - 1], entity)
    ensures Answer(policy, states[j - 1].tracker, Op(Check, entity, steps[j - 1].now)).LockedOut?
  {
    TrackerFollowsTrace(policy, states, steps, i, j - 1);
    GateTrace(policy, states, steps, entity, until, i, j);
    CheckRefuses(policy, states[i].tracker, TrackerTrace(policy, states, steps, i, j - 1), entity, until,
      steps[j - 1].now);
  }

  lemma BeforeShrinks(policy: LockoutPolicy, states: seq<State>, steps: seq<Step>, until: Instant, i: nat, j: nat)
    requires IsRun(Next(policy), states, steps) && i < j < |states|
    requires Before(TrackerTrace(policy, states, steps, i, j), until)
    ensures Before(TrackerTrace(policy, states, steps, i, j - 1), until)
  {
    TraceExtends(policy, states, steps, i, j);
    var op := TrackerOp(states[j - 1], steps[j - 1]);
    if op.Some? { BeforeAppended(TrackerTrace(policy, states, steps, i, j - 1), op.value, until); }
  }

  /** The step is an UPDATE of an attempt of the entity. */
  predicate UpdatesFor(s: State, step: Step, entity: Identity) {
    step.Update? && step.a in s.attempts && s.attempts[step.a].cred.entity == entity
  }

  /** During the lockout a step brings no attempt of the entity past the gate, and updates only for one past it. */
  lemma LockedStep(
    policy: LockoutPolicy, states: seq<State>, steps: seq<Step>, entity: Identity, until: Instant, i: nat, j: nat)
    requires policy.maxFailures > 0 && |entity| <= MAX_IDENTITY
    requires IsRun(Next(policy), states, steps) && i < j < |states|
    requires entity in states[i].tracker.records && states[i].tracker.records[entity].lockedUntil == Some(until)
    requires Before(TrackerTrace(policy, states, steps, i, j), until)
    ensures forall a | PastGate(states[j], a, entity) :: PastGate(states[j - 1], a, entity)
    ensures UpdatesFor(states[j - 1], steps[j - 1], entity) ==> PastGate(states[j - 1], steps[j - 1].a, entity)
  {
    var s, step := states[j - 1], steps[j - 1];
    assert StepAt(Next(policy), states, steps, j - 1);
    if GatesAt(s, step, entity) { GateRefuses(policy, states, steps, entity, until, i, j); }
    StepPastGate(policy, s, step, states[j], entity);
  }

  /**
   While an entity is locked out (the clock readings before `until`), no attempt passes
   the gate: every consumption of one of its tokens comes from an attempt that had
   already passed the gate when the lockout was in place.
   */
  lemma {:induction false} LockedEntitySpendsOnlyInFlight(
      policy: LockoutPolicy, states: seq<State>, steps: seq<Step>, entity: Identity, until: Instant, i: nat, j: nat)
    requires policy.maxFailures > 0 && |entity| <= MAX_IDENTITY
    requires IsRun(Next(policy), states, steps) && i <= j < |states|
    requires entity in states[i].tracker.records && states[i].tracker.records[entity].lockedUntil == Some(until)
    requires Before(TrackerTrace(policy, states, steps, i, j), until)
    ensures forall a | PastGate(states[j], a, entity) :: PastGate(states[i], a, entity)
    ensures forall k | i <= k < j && UpdatesFor(states[k], steps[k], entity) :: PastGate(states[i], steps[k].a, entity)
    decreases j
  {
    if i < j {
      BeforeShrinks(policy, states, steps, until, i, j);
      LockedEntitySpendsOnlyInFlight(policy, states, steps, entity, until, i, j - 1);
      LockedStep(policy, states, steps, entity, until, i, j);
    }
  }
}
