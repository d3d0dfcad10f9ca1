/**
 The pool of CA backends (`src/ha/pool.rs`): per-CA status with circuit breaker, and
 selection within an authorised set.
 */
module HaPool {
  import opened Prelude
  import opened Filters
  import opened HaStrategy

  type CaId = string

  datatype HealthState = Healthy | Degraded | Unavailable | Recovering

  predicate IsAvailable(h: HealthState) {
    h.Healthy? || h.Degraded? || h.Recovering?
  }

  datatype CaStatus = CaStatus(
    health: HealthState,
    consecutiveFailures: nat,
    lastSuccess: Option<Instant>,
    circuitOpenSince: Option<Instant>,
    latencyEma: real,
    lastLatency: Option<real>)

  const NEW_STATUS := CaStatus(Healthy, 0, None, None, 0.0, None)

  datatype BreakerConfig = BreakerConfig(failureThreshold: nat, cooldown: nat)

  type Statuses = map<CaId, CaStatus>

  /** A successful request or probe: every trace of failure is wiped. */
  function Succeeded(s: CaStatus, now: Instant, latencyMs: real): CaStatus {
    CaStatus(Healthy, 0, Some(now), None, s.latencyEma * 0.7 + latencyMs * 0.3, Some(latencyMs))
  }

  /** A failed request or probe: count it, and trip the breaker at the threshold. */
  function Failed(threshold: nat, s: CaStatus, now: Instant): CaStatus {
    var n := s.consecutiveFailures + 1;
    if n >= threshold then
      if s.health == Unavailable then s.(consecutiveFailures := n)
      else s.(consecutiveFailures := n, health := Unavailable, circuitOpenSince := Some(now))
    else s.(consecutiveFailures := n, health := if s.health == Healthy then Degraded else s.health)
  }

  function OnSuccess(statuses: Statuses, id: CaId, now: Instant, latencyMs: real): Statuses {
    if id in statuses then statuses[id := Succeeded(statuses[id], now, latencyMs)] else statuses
  }

  function OnFailure(threshold: nat, statuses: Statuses, id: CaId, now: Instant): Statuses {
    if id in statuses then statuses[id := Failed(threshold, statuses[id], now)] else statuses
  }

  function WithHealth(statuses: Statuses, id: CaId, h: HealthState): Statuses {
    if id in statuses then statuses[id := statuses[id].(health := h)] else statuses
  }

  predicate Available(statuses: Statuses, id: CaId) {
    id in statuses && IsAvailable(statuses[id].health)
  }

  /** The allowed, available connections in pool order. */
  function Candidates(conns: seq<CaConnection>, statuses: Statuses, allowed: seq<CaId>): seq<Candidate> {
    if conns == [] then []
    else
      var init, c := conns[..|conns| - 1], conns[|conns| - 1];
      Candidates(init, statuses, allowed)
      + (if c.id in allowed && Available(statuses, c.id) then [Candidate(c, statuses[c.id].latencyEma)] else [])
  }

  /** A connection of the pool that is allowed and not out of service. */
  predicate Choosable(conns: seq<CaConnection>, statuses: Statuses, allowed: seq<CaId>, c: CaConnection) {
    c in conns && c.id in allowed && c.id in statuses && statuses[c.id].health != Unavailable
  }

  /** The candidates are the connections to choose from, in pool order, each with its average latency. */
  lemma {:induction false} CandidatesAreFiltered(conns: seq<CaConnection>, statuses: Statuses, allowed: seq<CaId>)
    ensures var cs := Candidates(conns, statuses, allowed);
            var chosen := Filter(conns, (c: CaConnection) =>
              c.id in allowed && c.id in statuses && statuses[c.id].health != Unavailable);
            && |cs| == |chosen|
            && forall k | 0 <= k < |cs| ::
                 cs[k].conn == chosen[k] && chosen[k].id in statuses
                 && cs[k].latencyEma == statuses[chosen[k].id].latencyEma
  {
    if conns != [] {
      CandidatesAreFiltered(conns[..|conns| - 1], statuses, allowed);
    }
  }

  lemma {:induction false} CandidatesAreChoosable(conns: seq<CaConnection>, statuses: Statuses, allowed: seq<CaId>)
    ensures forall k | 0 <= k < |Candidates(conns, statuses, allowed)| ::
              Choosable(conns, statuses, allowed, Candidates(conns, statuses, allowed)[k].conn)
    ensures (exists c :: Choosable(conns, statuses, allowed, c)) ==> Candidates(conns, statuses, allowed) != []
  {
    if conns != [] {
      var init := conns[..|conns| - 1];
      CandidatesAreChoosable(init, statuses, allowed);
      assert conns == init + [conns[|conns| - 1]];
      forall c | Choosable(conns, statuses, allowed, c) ensures Candidates(conns, statuses, allowed) != [] {
        assert c == conns[|conns| - 1] || Choosable(init, statuses, allowed, c);
      }
    }
  }

  class CaPool {
    const connections: seq<CaConnection>
    const breaker: BreakerConfig
    const selector: StrategySelector
    var statuses: Statuses

    constructor (connections: seq<CaConnection>, breaker: BreakerConfig, strategy: FailoverStrategy)
      ensures this.connections == connections && this.breaker == breaker && this.selector.strategy == strategy
          && fresh(this.selector)
      ensures forall c | c in connections :: c.id in statuses
      ensures forall id | id in statuses :: exists c :: c in connections && c.id == id
      ensures forall id | id in statuses :: statuses[id] == NEW_STATUS
    {
      this.connections := connections;
      this.breaker := breaker;
      this.selector := new StrategySelector(strategy);
      this.statuses := map[];
      new;
      for i := 0 to |connections|
        invariant forall j | 0 <= j < i :: connections[j].id in statuses
        invariant forall id | id in statuses :: statuses[id] == NEW_STATUS
        invariant forall id | id in statuses :: exists c :: c in connections && c.id == id
      {
        assert connections[i] in connections;
        statuses := statuses[connections[i].id := NEW_STATUS];
      }
    }

    /** A CA is returned exactly when some allowed CA is available, and it is one of those, chosen by the strategy. */
    method SelectAllowed(allowed: seq<CaId>) returns (ca: Option<CaConnection>)
      modifies selector`rrCounter
      ensures selector.rrCounter
           == if ca.Some? && Counts(selector.strategy) then Wrap64(old(selector.rrCounter) + 1)
             else old(selector.rrCounter)
      ensures ca.Some? <==> exists c :: Choosable(connections, statuses, allowed, c)
      ensures ca.Some? ==> Choosable(connections, statuses, allowed, ca.value)
      ensures ca.Some? ==> var cs := Candidates(connections, statuses, allowed);
                           cs != [] && exists i: nat ::
                             i < |cs| && Picks(selector.strategy, cs, old(selector.rrCounter), i)
                               && ca == Some(cs[i].conn)
    {
      var cs := [];
      for i := 0 to |connections|
        invariant cs == Candidates(connections[..i], statuses, allowed)
      {
        var c := connections[i];
        assert connections[..i + 1][..i] == connections[..i];
        if c.id in allowed && c.id in statuses && IsAvailable(statuses[c.id].health) {
          cs := cs + [Candidate(c, statuses[c.id].latencyEma)];
        }
      }
      assert connections[..|connections|] == connections;
      CandidatesAreChoosable(connections, statuses, allowed);
      ca := selector.Select(cs);
    }

    method RecordSuccess(id: CaId, now: Instant, latencyMs: real)
      modifies this`statuses
      ensures statuses == OnSuccess(old(statuses), id, now, latencyMs)
      ensures statuses.Keys == old(statuses).Keys && forall x | x in statuses && x != id ::
          statuses[x] == old(statuses)[x]
      ensures id in statuses ==>
                && statuses[id].health == Healthy && statuses[id].consecutiveFailures == 0
                && statuses[id].circuitOpenSince == None && statuses[id].lastSuccess == Some(now)
                && statuses[id].lastLatency == Some(latencyMs)
                && statuses[id].latencyEma - latencyMs == (old(statuses)[id].latencyEma - latencyMs) * 0.7
    {
      if id in statuses {
        var s := statuses[id];
        s := s.(consecutiveFailures := 0, lastSuccess := Some(now), circuitOpenSince := None);
        s := s.(lastLatency := Some(latencyMs));
        s := s.(latencyEma := s.latencyEma * 0.7 + latencyMs * 0.3);
        if s.health != Healthy {
          s := s.(health := Healthy);
        }
        statuses := statuses[id := s];
      }
    }

    method RecordFailure(id: CaId, now: Instant)
      modifies this`statuses
      ensures statuses == OnFailure(breaker.failureThreshold, old(statuses), id, now)
      ensures statuses.Keys == old(statuses).Keys && forall x | x in statuses && x != id ::
          statuses[x] == old(statuses)[x]
      ensures id in statuses ==>
                var s, s', limit := old(statuses)[id], statuses[id], breaker.failureThreshold;
                && s'.consecutiveFailures == s.consecutiveFailures + 1
                && s'.health == (if s'.consecutiveFailures >= limit then Unavailable
                                 else if s.health == Healthy then Degraded else s.health)
                && s'.circuitOpenSince == (if s'.health == Unavailable && s.health != Unavailable then Some(now)
                                           else s.circuitOpenSince)
                && s'.lastSuccess == s.lastSuccess && s'.latencyEma == s.latencyEma && s'.lastLatency == s.lastLatency
    {
      if id in statuses {
        var s := statuses[id];
        s := s.(consecutiveFailures := s.consecutiveFailures + 1);
        if s.consecutiveFailures >= breaker.failureThreshold {
          if s.health != Unavailable {
            s := s.(health := Unavailable, circuitOpenSince := Some(now));
          }
        } else if s.health == Healthy {
          s := s.(health := Degraded);
        }
        statuses := statuses[id := s];
      }
    }

    method SetHealth(id: CaId, h: HealthState)
      modifies this`statuses
      ensures statuses == WithHealth(old(statuses), id, h)
      ensures statuses.Keys == old(statuses).Keys && forall x | x in statuses && x != id ::
          statuses[x] == old(statuses)[x]
      ensures id in statuses ==> statuses[id].health == h && statuses[id] == old(statuses)[id].(health := h)
    {
      if id in statuses {
        statuses := statuses[id := statuses[id].(health := h)];
      }
    }

    predicate ShouldReprobe(id: CaId, now: Instant)
      reads this`statuses
    {
      && id in statuses && statuses[id].circuitOpenSince.Some?
      && Since(now, statuses[id].circuitOpenSince.value) >= breaker.cooldown
    }
  }
}
