/**
 Health probing of CA backends (`src/ha/health.rs`) on top of the pool: whole probe and
 request operations, and the finer interleavings in which a probe's two writes are
 separate steps.
 */
module HaHealth {
  import opened Prelude
  import opened Runs
  import opened HaPool

  datatype HealthConfig = HealthConfig(recoveryThreshold: nat, degradedLatencyMs: nat)

  datatype ProbeMetrics = ProbeMetrics(consecutiveFailures: nat, consecutiveSuccesses: nat)

  /** Successes in a row after one more successful probe. */
  function NextSuccesses(current: HealthState, m: ProbeMetrics): nat {
    if current == Unavailable then 1 else m.consecutiveSuccesses + 1
  }

  /** The health a successful probe announces: the documented state machine. */
  function ProbeTarget(cfg: HealthConfig, current: HealthState, successes: nat, latencyMs: real): HealthState {
    match current
    case Unavailable => Recovering
    case Recovering => if successes >= cfg.recoveryThreshold then Healthy else Recovering
    case _ => if latencyMs.Floor > cfg.degradedLatencyMs then Degraded else Healthy
  }

  datatype System = System(statuses: Statuses, metrics: map<CaId, ProbeMetrics>)

  datatype HealthOp =
    | RequestOk(id: CaId, now: Instant, latencyMs: real)
    | RequestFail(id: CaId, now: Instant)
    | ProbeOk(id: CaId, now: Instant, latencyMs: real)
    | ProbeFail(id: CaId, now: Instant)

  function HealthOf(statuses: Statuses, id: CaId): HealthState {
    if id in statuses then statuses[id].health else Healthy
  }

  function MetricsOf(metrics: map<CaId, ProbeMetrics>, id: CaId): ProbeMetrics {
    if id in metrics then metrics[id] else ProbeMetrics(0, 0)
  }

  /** One whole operation. */
  function AfterOp(cfg: HealthConfig, threshold: nat, sys: System, op: HealthOp): System {
    match op
    case RequestOk(id, now, latencyMs) => sys.(statuses := OnSuccess(sys.statuses, id, now, latencyMs))
    case RequestFail(id, now) => sys.(statuses := OnFailure(threshold, sys.statuses, id, now))
    case ProbeOk(id, now, latencyMs) =>
      var current := HealthOf(sys.statuses, id);
      var successes := NextSuccesses(current, MetricsOf(sys.metrics, id));
      var announced := WithHealth(sys.statuses, id, ProbeTarget(cfg, current, successes, latencyMs));
      System(OnSuccess(announced, id, now, latencyMs),
             sys.metrics[id := ProbeMetrics(0, successes)])
    case ProbeFail(id, now) =>
      System(OnFailure(threshold, sys.statuses, id, now),
             sys.metrics[id := ProbeMetrics(MetricsOf(sys.metrics, id).consecutiveFailures + 1, 0)])
  }

  /** The successful probes in a row, this one included; a CA that was Unavailable starts over. */
  function Streak(statuses: Statuses, metrics: map<CaId, ProbeMetrics>, id: CaId): nat {
    if id in metrics && !(id in statuses && statuses[id].health == Unavailable)
    then metrics[id].consecutiveSuccesses + 1 else 1
  }

  /** A CA is probed unless it is Unavailable and its circuit has been open for less than the cooldown. */
  predicate IsProbed(s: CaStatus, cooldown: nat, now: Instant) {
    s.health != Unavailable
    || (s.circuitOpenSince.Some? && (cooldown == 0 || now - s.circuitOpenSince.value >= cooldown))
  }

  class HealthChecker {
    const pool: CaPool
    const config: HealthConfig
    var metrics: map<CaId, ProbeMetrics>

    constructor (pool: CaPool, config: HealthConfig)
      ensures this.pool == pool && this.config == config && metrics == map[]
    {
      this.pool := pool;
      this.config := config;
      metrics := map[];
    }

    function View(): System
      reads this`metrics, pool`statuses
    {
      System(pool.statuses, metrics)
    }

    /** Probe one CA; an open circuit is not probed before its cooldown and counts as a failure. */
    method RunProbe(id: CaId, now: Instant, reachable: bool, latencyMs: real) returns (ok: bool)
      modifies this`metrics, pool`statuses
      ensures var probed := id in old(pool.statuses) ==> IsProbed(old(pool.statuses)[id], pool.breaker.cooldown, now);
              ok <==> reachable && probed
      ensures var op := if ok then ProbeOk(id, now, latencyMs) else ProbeFail(id, now);
              View() == AfterOp(config, pool.breaker.failureThreshold, old(View()), op)
    {
      ok := reachable;
      if id in pool.statuses && pool.statuses[id].health == Unavailable && !pool.ShouldReprobe(id, now) {
        ok := false;
      }
      if ok {
        HandleProbeSuccess(id, now, latencyMs);
      } else {
        HandleProbeFailure(id, now);
      }
    }

    /** The metrics and the health that a successful probe leads to. */
    method Judge(id: CaId, latencyMs: real) returns (m: ProbeMetrics, newState: HealthState)
      ensures m == ProbeMetrics(0, Streak(pool.statuses, metrics, id))
      ensures newState == ProbeTarget(config, HealthOf(pool.statuses, id), m.consecutiveSuccesses, latencyMs)
    {
      m := if id in metrics then metrics[id] else ProbeMetrics(0, 0);
      m := ProbeMetrics(0, m.consecutiveSuccesses + 1);
      var current := if id in pool.statuses then pool.statuses[id].health else Healthy;
      match current {
        case Unavailable =>
          m := m.(consecutiveSuccesses := 1);
          newState := Recovering;
        case Recovering =>
          newState := if m.consecutiveSuccesses >= config.recoveryThreshold then Healthy else Recovering;
        case _ =>
          newState := if latencyMs.Floor > config.degradedLatencyMs then Degraded else Healthy;
      }
    }

    method HandleProbeSuccess(id: CaId, now: Instant, latencyMs: real)
      modifies this`metrics, pool`statuses
      ensures View() == AfterOp(config, pool.breaker.failureThreshold, old(View()), ProbeOk(id, now, latencyMs))
      ensures metrics == old(metrics)[id := ProbeMetrics(0, Streak(old(pool.statuses), old(metrics), id))]
    {
      var m, newState := Judge(id, latencyMs);
      metrics := metrics[id := m];
      pool.SetHealth(id, newState);
      pool.RecordSuccess(id, now, latencyMs);
    }

    method HandleProbeFailure(id: CaId, now: Instant)
      modifies this`metrics, pool`statuses
      ensures View() == AfterOp(config, pool.breaker.failureThreshold, old(View()), ProbeFail(id, now))
      ensures id in metrics && metrics[id].consecutiveSuccesses == 0
              && metrics[id].consecutiveFailures
                == 1 + (if id in old(metrics) then old(metrics)[id].consecutiveFailures else 0)
      ensures forall x | x != id :: x in metrics <==> x in old(metrics)
      ensures forall x | x != id && x in metrics :: metrics[x] == old(metrics)[x]
    {
      var m := if id in metrics then metrics[id] else ProbeMetrics(0, 0);
      metrics := metrics[id := ProbeMetrics(m.consecutiveFailures + 1, 0)];
      pool.RecordFailure(id, now);
    }
  }

  // ----- Whole operations: health is a function of the failures since the last success -----

  function Run(cfg: HealthConfig, threshold: nat, sys: System, ops: seq<HealthOp>): System {
    if ops == [] then sys else AfterOp(cfg, threshold, Run(cfg, threshold, sys, ops[..|ops| - 1]), ops[|ops| - 1])
  }

  /** When the CA failed since it last succeeded. */
  function FailureTimes(ops: seq<HealthOp>, id: CaId): seq<Instant> {
    if ops == [] then []
    else
      var before, op := FailureTimes(ops[..|ops| - 1], id), ops[|ops| - 1];
      if op.id != id then before
      else if op.RequestOk? || op.ProbeOk? then []
      else before + [op.now]
  }

  function HealthAfter(threshold: nat, failures: nat): HealthState {
    if failures == 0 then Healthy else if failures >= threshold then Unavailable else Degraded
  }

  /** The index of the failure that trips the breaker. */
  function Tripping(threshold: nat): nat {
    if threshold == 0 then 0 else threshold - 1
  }

  predicate Matches(threshold: nat, s: CaStatus, times: seq<Instant>) {
    && s.consecutiveFailures == |times|
    && s.health == HealthAfter(threshold, |times|)
    && s.circuitOpenSince == if |times| > Tripping(threshold) then Some(times[Tripping(threshold)]) else None
  }

  /**
   In every run of whole operations a CA's health, failure count and circuit are determined
   by its failures since the last success: Healthy at none, Degraded below the threshold,
   Unavailable from the threshold on; the circuit is open exactly when Unavailable, since
   the failure that reached the threshold.  Recovering never survives an operation.
   */
  lemma {:induction false} HealthFollowsFailures(cfg: HealthConfig, threshold: nat, sys: System, ops: seq<HealthOp>,
      id: CaId)
    requires id in sys.statuses && sys.statuses[id] == NEW_STATUS
    ensures id in Run(cfg, threshold, sys, ops).statuses
    ensures Matches(threshold, Run(cfg, threshold, sys, ops).statuses[id], FailureTimes(ops, id))
    ensures var s := Run(cfg, threshold, sys, ops).statuses[id];
            s.health != Recovering && (s.circuitOpenSince.Some? <==> s.health == Unavailable)
  {
    if ops != [] {
      HealthFollowsFailures(cfg, threshold, sys, ops[..|ops| - 1], id);
    }
  }

  /**
   The documented machine (Unavailable, Recovering, then Healthy; slow means Degraded) and
   the composed code agree on a successful probe exactly when the documented target is
   Healthy already: the probe always leaves Healthy with a closed circuit.
   */
  lemma ProbeOkIgnoresDocumentedTarget(cfg: HealthConfig, threshold: nat, sys: System, id: CaId, now: Instant,
      latencyMs: real)
    requires id in sys.statuses
    ensures var after := AfterOp(cfg, threshold, sys, ProbeOk(id, now, latencyMs)).statuses[id];
            var current, m := sys.statuses[id].health, MetricsOf(sys.metrics, id);
            && after.health == Healthy && after.consecutiveFailures == 0 && after.circuitOpenSince == None
            && (after.health == ProbeTarget(cfg, current, NextSuccesses(current, m), latencyMs) <==>
                && current != Unavailable
                && (current == Recovering ==> m.consecutiveSuccesses + 1 >= cfg.recoveryThreshold)
                && (current == Healthy || current == Degraded ==> latencyMs.Floor <= cfg.degradedLatencyMs))
  {
  }

  /**
   After any run of whole operations a CA is probed exactly while its failures since the last
   success have not tripped the breaker, and then again from the tripping failure plus the
   cooldown on.
   */
  lemma ProbedFromCooldownOn(
    cfg: HealthConfig, threshold: nat, cooldown: nat, sys: System, ops: seq<HealthOp>, id: CaId, now: Instant)
    requires id in sys.statuses && sys.statuses[id] == NEW_STATUS
    ensures id in Run(cfg, threshold, sys, ops).statuses
    ensures var times := FailureTimes(ops, id);
            IsProbed(Run(cfg, threshold, sys, ops).statuses[id], cooldown, now) <==>
            |times| <= Tripping(threshold) || cooldown == 0 || now >= times[Tripping(threshold)] + cooldown
  {
    HealthFollowsFailures(cfg, threshold, sys, ops, id);
  }

  /**
   After any run of whole operations a successful probe meets its documented target if and only
   if the CA has fewer than threshold failures since its last success (or none) and the
   probe was fast enough.
   */
  lemma ProbeMeetsTargetIff(
    cfg: HealthConfig, threshold: nat, sys: System, ops: seq<HealthOp>, id: CaId, now: Instant, latencyMs: real)
    requires id in sys.statuses && sys.statuses[id] == NEW_STATUS
    ensures var before := Run(cfg, threshold, sys, ops);
            var after := Run(cfg, threshold, sys, ops + [ProbeOk(id, now, latencyMs)]);
            var current := HealthOf(before.statuses, id);
            var successes := NextSuccesses(current, MetricsOf(before.metrics, id));
            HealthOf(after.statuses, id) == ProbeTarget(cfg, current, successes, latencyMs) <==>
            |FailureTimes(ops, id)| <= Tripping(threshold) && latencyMs.Floor <= cfg.degradedLatencyMs
  {
    var before := Run(cfg, threshold, sys, ops);
    HealthFollowsFailures(cfg, threshold, sys, ops, id);
    assert (ops + [ProbeOk(id, now, latencyMs)])[..|ops|] == ops;
    ProbeOkIgnoresDocumentedTarget(cfg, threshold, before, id, now, latencyMs);
  }

  // ----- Interleaved probes and requests -----

  type ProbeId = nat

  datatype Probe = Announcing(id: CaId, target: HealthState) | Recording(id: CaId)

  datatype State = State(statuses: Statuses, probes: map<ProbeId, Probe>)

  datatype Step =
    | Fail(id: CaId, now: Instant)                                          // a request or probe failure
    | Succeed(id: CaId, now: Instant, latencyMs: real)                      // a request success
    | Snapshot(p: ProbeId, id: CaId, successes: nat, latencyMs: real)       // a probe reads the health
    | Announce(p: ProbeId)                                                  // its set_health
    | Record(p: ProbeId, now: Instant, latencyMs: real)                     // its record_success

  predicate Enabled(s: State, step: Step) {
    match step
    case Snapshot(p, _, _, _) => p !in s.probes
    case Announce(p) => p in s.probes && s.probes[p].Announcing?
    case Record(p, _, _) => p in s.probes && s.probes[p].Recording?
    case _ => true
  }

  function Apply(cfg: HealthConfig, threshold: nat, s: State, step: Step): State
    requires Enabled(s, step)
  {
    match step
    case Fail(id, now) => s.(statuses := OnFailure(threshold, s.statuses, id, now))
    case Succeed(id, now, latencyMs) => s.(statuses := OnSuccess(s.statuses, id, now, latencyMs))
    case Snapshot(p, id, successes, latencyMs) =>
      s.(probes := s.probes[p := Announcing(id, ProbeTarget(cfg, HealthOf(s.statuses, id), successes, latencyMs))])
    case Announce(p) =>
      State(WithHealth(s.statuses, s.probes[p].id, s.probes[p].target), s.probes[p := Recording(s.probes[p].id)])
    case Record(p, now, latencyMs) =>
      State(OnSuccess(s.statuses, s.probes[p].id, now, latencyMs), s.probes - {p})
  }

  predicate IsStep(cfg: HealthConfig, threshold: nat, s: State, step: Step, s': State) {
    Enabled(s, step) && s' == Apply(cfg, threshold, s, step)
  }

  function Next(cfg: HealthConfig, threshold: nat): (State, Step, State) -> bool {
    (s, step, s') => IsStep(cfg, threshold, s, step, s')
  }

  predicate AllNew(s: State) {
    s.probes == map[] && forall id | id in s.statuses :: s.statuses[id] == NEW_STATUS
  }

  /** A CA taken out of service has an open circuit and enough failures to justify it. */
  predicate Justified(threshold: nat, s: CaStatus) {
    s.health == Unavailable ==> s.circuitOpenSince.Some? && s.consecutiveFailures >= threshold
  }

  predicate Safe(threshold: nat, s: State) {
    && (forall id | id in s.statuses :: Justified(threshold, s.statuses[id]))
    && (forall p | p in s.probes && s.probes[p].Announcing? :: s.probes[p].target != Unavailable)
  }

  lemma StepIsSafe(cfg: HealthConfig, threshold: nat, s: State, step: Step, s': State)
    requires Safe(threshold, s) && IsStep(cfg, threshold, s, step, s')
    ensures Safe(threshold, s')
  {
  }

  /** Whatever the interleaving, Unavailable means an open circuit and at least threshold failures in a row. */
  lemma {:induction false} InterleavingsAreSafe(
    cfg: HealthConfig, threshold: nat, states: seq<State>, steps: seq<Step>, k: nat)
    requires IsRun(Next(cfg, threshold), states, steps) && AllNew(states[0]) && k < |states|
    ensures Safe(threshold, states[k])
  {
    if k > 0 {
      InterleavingsAreSafe(cfg, threshold, states, steps, k - 1);
      assert StepAt(Next(cfg, threshold), states, steps, k - 1);
      StepIsSafe(cfg, threshold, states[k - 1], steps[k - 1], states[k]);
    }
  }

  // ----- When an open circuit means Unavailable -----

  /** The CA whose status a step writes. */
  function Written(s: State, step: Step): Option<CaId> {
    match step
    case Fail(id, _) => Some(id)
    case Succeed(id, _, _) => Some(id)
    case Snapshot(_, _, _, _) => None
    case Announce(p) => if p in s.probes then Some(s.probes[p].id) else None
    case Record(p, _, _) => if p in s.probes then Some(s.probes[p].id) else None
  }

  /** Failures of the CA since its last recorded success, and whether a probe's announcement is the last write to it. */
  datatype Standing = Standing(failures: nat, announced: bool)

  function StandingStep(standing: Standing, s: State, step: Step, id: CaId): Standing {
    if Written(s, step) != Some(id) then standing
    else if step.Announce? then standing.(announced := true)
    else Standing(if step.Fail? then standing.failures + 1 else 0, false)
  }

  function StandingAt(states: seq<State>, steps: seq<Step>, k: nat, id: CaId): Standing
    requires k <= |steps| && |states| == |steps| + 1
  {
    if k == 0 then Standing(0, false)
    else StandingStep(StandingAt(states, steps, k - 1, id), states[k - 1], steps[k - 1], id)
  }

  /** The circuit follows the failures; the health does too, unless an announcement came last. */
  predicate CircuitFollows(threshold: nat, s: CaStatus, standing: Standing) {
    && s.consecutiveFailures == standing.failures
    && (s.circuitOpenSince.Some? <==> standing.failures > Tripping(threshold))
    && (s.health == Unavailable <==> standing.failures > Tripping(threshold) && !standing.announced)
  }

  lemma CircuitStep(cfg: HealthConfig, threshold: nat, s: State, step: Step, s': State, id: CaId, standing: Standing)
    requires IsStep(cfg, threshold, s, step, s') && Safe(threshold, s)
    requires id in s.statuses && CircuitFollows(threshold, s.statuses[id], standing)
    ensures id in s'.statuses && CircuitFollows(threshold, s'.statuses[id], StandingStep(standing, s, step, id))
  {
  }

  /**
   In every interleaving and for every threshold: the circuit is open exactly from the failure
   that reaches the threshold until the next recorded success, and the CA is Unavailable for just
   as long, except after a probe has announced its target and before the next write to the CA.
   */
  lemma {:induction false} InterleavedCircuit(
    cfg: HealthConfig, threshold: nat, states: seq<State>, steps: seq<Step>, k: nat, id: CaId)
    requires IsRun(Next(cfg, threshold), states, steps) && AllNew(states[0]) && k < |states| && id in states[0].statuses
    ensures id in states[k].statuses
    ensures CircuitFollows(threshold, states[k].statuses[id], StandingAt(states, steps, k, id))
  {
    if k > 0 {
      InterleavedCircuit(cfg, threshold, states, steps, k - 1, id);
      InterleavingsAreSafe(cfg, threshold, states, steps, k - 1);
      assert StepAt(Next(cfg, threshold), states, steps, k - 1);
      CircuitStep(cfg, threshold, states[k - 1], steps[k - 1], states[k], id, StandingAt(states, steps, k - 1, id));
    }
  }

  /** Some probe of the CA is between its two writes. */
  ghost predicate MidProbe(s: State, id: CaId) {
    exists p :: p in s.probes && s.probes[p] == Recording(id)
  }

  lemma MidProbeStep(cfg: HealthConfig, threshold: nat, s: State, step: Step, s': State, id: CaId, standing: Standing)
    requires IsStep(cfg, threshold, s, step, s') && (standing.announced ==> MidProbe(s, id))
    ensures StandingStep(standing, s, step, id).announced ==> MidProbe(s', id)
  {
    if step.Announce? && Written(s, step) == Some(id) {
      assert s'.probes[step.p] == Recording(id);
    } else if standing.announced {
      var p :| p in s.probes && s.probes[p] == Recording(id);
      assert StandingStep(standing, s, step, id).announced ==> p in s'.probes && s'.probes[p] == Recording(id);
    }
  }

  lemma {:induction false} AnnouncedIsMidProbe(
    cfg: HealthConfig, threshold: nat, states: seq<State>, steps: seq<Step>, k: nat, id: CaId)
    requires IsRun(Next(cfg, threshold), states, steps) && k < |states|
    ensures StandingAt(states, steps, k, id).announced ==> MidProbe(states[k], id)
  {
    if k > 0 {
      AnnouncedIsMidProbe(cfg, threshold, states, steps, k - 1, id);
      assert StepAt(Next(cfg, threshold), states, steps, k - 1);
      MidProbeStep(cfg, threshold, states[k - 1], steps[k - 1], states[k], id, StandingAt(states, steps, k - 1, id));
    }
  }

  /**
   An open circuit and Unavailable go together if and only if it is not the case that a probe's
   announcement is the last write to a CA with at least threshold failures.  So where they
   differ, the circuit is open and some probe of that CA is between its two writes.
   */
  lemma OpenCircuitIffUnavailable(
    cfg: HealthConfig, threshold: nat, states: seq<State>, steps: seq<Step>, k: nat, id: CaId)
    requires IsRun(Next(cfg, threshold), states, steps) && AllNew(states[0]) && k < |states| && id in states[0].statuses
    ensures id in states[k].statuses
    ensures var s, standing := states[k].statuses[id], StandingAt(states, steps, k, id);
            && ((s.circuitOpenSince.Some? <==> s.health == Unavailable)
                <==> !(standing.announced && standing.failures > Tripping(threshold)))
            && (s.circuitOpenSince.Some? ==>
                s.consecutiveFailures >= threshold && (s.health == Unavailable || MidProbe(states[k], id)))
  {
    InterleavedCircuit(cfg, threshold, states, steps, k, id);
    AnnouncedIsMidProbe(cfg, threshold, states, steps, k, id);
  }

  lemma {:induction false} FailingRun(cfg: HealthConfig, threshold: nat, id: CaId, n: nat)
    returns (states: seq<State>, steps: seq<Step>)
    ensures IsRun(Next(cfg, threshold), states, steps) && |steps| == n
        && states[0] == State(map[id := NEW_STATUS], map[])
    ensures states[n].probes == map[] && id in states[n].statuses && states[n].statuses[id].consecutiveFailures == n
    ensures n > Tripping(threshold) <==> states[n].statuses[id].health == Unavailable
    ensures n > Tripping(threshold) ==> states[n].statuses[id].circuitOpenSince.Some?
  {
    if n == 0 {
      states, steps := [State(map[id := NEW_STATUS], map[])], [];
    } else {
      states, steps := FailingRun(cfg, threshold, id, n - 1);
      var step := Fail(id, 0);
      var s' := Apply(cfg, threshold, states[n - 1], step);
      RunGrows(Next(cfg, threshold), states, steps, step, s');
      states, steps := states + [s'], steps + [step];
    }
  }

  /** For every threshold they do differ in some run: the circuit is open on a CA that is Recovering. */
  lemma OpenCircuitWhileRecovering(cfg: HealthConfig, threshold: nat, id: CaId)
    returns (states: seq<State>, steps: seq<Step>)
    ensures IsRun(Next(cfg, threshold), states, steps) && states[0] == State(map[id := NEW_STATUS], map[])
    ensures var s := states[|steps|].statuses;
            && id in s && s[id].health == Recovering
            && s[id].circuitOpenSince.Some? && s[id].consecutiveFailures >= threshold
  {
    states, steps := FailingRun(cfg, threshold, id, Tripping(threshold) + 1);
    var s := states[|steps|];
    var snapshot, announce := Snapshot(0, id, 1, 0.0), Announce(0);
    var s1 := Apply(cfg, threshold, s, snapshot);
    RunGrows(Next(cfg, threshold), states, steps, snapshot, s1);
    states, steps := states + [s1], steps + [snapshot];
    var s2 := Apply(cfg, threshold, s1, announce);
    RunGrows(Next(cfg, threshold), states, steps, announce, s2);
    states, steps := states + [s2], steps + [announce];
  }
}
