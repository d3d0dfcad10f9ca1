/** The security-violation alarm of the audit trail (`src/audit/mod.rs`) over whole runs of one process. */
module AuditAlarm {
  import opened Prelude
  import opened Runs
  import opened AuditChain
  import opened AuditLedger

  /** One event recorded after the other: `ps[i]` records `entries[i]` and becomes `ps[i + 1]`. */
  function Next(config: AuditConfig, digest: Digest): (Process, Entry, Process) -> bool {
    (p, e, p') => p' == Checked(config, digest, p, e)
  }

  /** The event is committed: nothing refuses it and nothing fails. */
  predicate Commits(config: AuditConfig, p: Process, e: Entry) {
    config.enabled && !e.faults.begin && !e.faults.commit && Admissible(config, p.halted, p.rows, e.faults)
  }

  predicate CommitsKind(config: AuditConfig, p: Process, e: Entry, kind: EventKind) {
    e.ev.kind == kind && Commits(config, p, e)
  }

  /** Security violations committed among events `s` to `n - 1`. */
  function Violations(config: AuditConfig, ps: seq<Process>, entries: seq<Entry>, s: nat, n: nat): nat
    requires s <= n <= |entries| < |ps|
    decreases n
  {
    if s == n then 0
    else
      Violations(config, ps, entries, s, n - 1)
      + (if CommitsKind(config, ps[n - 1], entries[n - 1], SecurityViolation) then 1 else 0)
  }

  /** `s` is just after the last committed authentication success before `n`, or 0 if there is none. */
  predicate SinceSuccess(config: AuditConfig, ps: seq<Process>, entries: seq<Entry>, s: nat, n: nat)
    requires s <= n <= |entries| < |ps|
  {
    && (s > 0 ==> CommitsKind(config, ps[s - 1], entries[s - 1], AuthSuccess))
    && (forall i | s <= i < n :: !CommitsKind(config, ps[i], entries[i], AuthSuccess))
  }

  lemma CountStep(config: AuditConfig, digest: Digest, p: Process, e: Entry)
    ensures Checked(config, digest, p, e).violations
         == if CommitsKind(config, p, e, SecurityViolation) then (p.violations + 1) % 0x1_0000_0000
            else if CommitsKind(config, p, e, AuthSuccess) then 0 else p.violations
  {
  }

  lemma OneMore(v: nat)
    ensures (v % 0x1_0000_0000 + 1) % 0x1_0000_0000 == (v + 1) % 0x1_0000_0000
  {
  }

  /** The counter holds the violations committed since the last committed success, modulo 2^32. */
  lemma {:induction false} CountsSinceSuccess(
    config: AuditConfig, digest: Digest, ps: seq<Process>, entries: seq<Entry>, n: nat) returns (s: nat)
    requires IsRun(Next(config, digest), ps, entries) && n <= |entries| && ps[0].violations == 0
    ensures s <= n && SinceSuccess(config, ps, entries, s, n)
    ensures ps[n].violations == Violations(config, ps, entries, s, n) % 0x1_0000_0000
  {
    if n == 0 {
      s := 0;
    } else {
      s := CountsSinceSuccess(config, digest, ps, entries, n - 1);
      assert StepAt(Next(config, digest), ps, entries, n - 1);
      CountStep(config, digest, ps[n - 1], entries[n - 1]);
      OneMore(Violations(config, ps, entries, s, n - 1));
      if CommitsKind(config, ps[n - 1], entries[n - 1], AuthSuccess) { s := n; }
    }
  }

  /** A committed violation that brings the counter to the alarm threshold. */
  predicate Alarms(config: AuditConfig, p: Process, e: Entry) {
    CommitsKind(config, p, e, SecurityViolation) && (p.violations + 1) % 0x1_0000_0000 >= config.alarmThreshold
  }

  /** The event latches the process: an alarm that halts, or a failure under the Halt policy. */
  predicate Latches(config: AuditConfig, p: Process, e: Entry) {
    || (Alarms(config, p, e) && config.alarmHalts)
    || (config.overflowPolicy == Halt && config.enabled
        && (!Commits(config, p, e) || (Alarms(config, p, e) && e.faults.syslog)))
  }

  lemma HaltStep(config: AuditConfig, digest: Digest, p: Process, e: Entry)
    ensures Checked(config, digest, p, e).halted <==> p.halted || Latches(config, p, e)
    ensures Commits(config, p, e) ==> !p.halted
    ensures !Commits(config, p, e) ==> Checked(config, digest, p, e).rows == p.rows
  {
  }

  /** A process is halted exactly if some event latched it; while halted it stores nothing. */
  lemma {:induction false} HaltedIffLatched(
    config: AuditConfig, digest: Digest, ps: seq<Process>, entries: seq<Entry>, n: nat)
    requires IsRun(Next(config, digest), ps, entries) && n <= |entries| && !ps[0].halted
    ensures ps[n].halted <==> exists i | 0 <= i < n :: Latches(config, ps[i], entries[i])
    ensures n < |entries| && ps[n].halted ==> ps[n + 1].rows == ps[n].rows
  {
    if n > 0 {
      HaltedIffLatched(config, digest, ps, entries, n - 1);
      assert StepAt(Next(config, digest), ps, entries, n - 1);
      HaltStep(config, digest, ps[n - 1], entries[n - 1]);
    }
    if n < |entries| {
      assert StepAt(Next(config, digest), ps, entries, n);
      HaltStep(config, digest, ps[n], entries[n]);
    }
  }
}
