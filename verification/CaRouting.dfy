/**
 Routing an enrollment to a CA with retries (`src/ca/pool.rs`), against the circuit
 breaker of the pool.  What `send_to_ca` returns, and the clock, are given as functions of
 the attempt number.
 */
module CaRouting {
  import opened Prelude
  import opened HaStrategy
  import opened HaPool
  import HaHealth

  datatype SendResult = Issued(cert: Bytes) | SendError(caId: CaId, message: string)

  datatype RouteResult = Routed(cert: Bytes) | NoHealthyBackend | RetriesExhausted | BackendFailed(error: SendResult)

  function Ids(conns: seq<CaConnection>): seq<CaId> {
    seq(|conns|, i requires 0 <= i < |conns| => conns[i].id)
  }

  predicate Routable(conns: seq<CaConnection>, statuses: Statuses, id: CaId) {
    id in Ids(conns) && Available(statuses, id)
  }

  /** A call: the pool it meets, the counter of the strategy, and what the network and the clock will say. */
  datatype Call = Call(
    strategy: FailoverStrategy, threshold: nat, conns: seq<CaConnection>, counter: nat,
    send: (CaId, nat) -> SendResult, clock: nat -> Instant, latencyMs: nat -> real)

  /** The strategy's counter after `k` selections. */
  function Advanced(strategy: FailoverStrategy, counter: nat, k: nat): nat {
    if k == 0 || !Counts(strategy) then counter else Wrap64(counter + k)
  }

  /** With the counter at `counter`, the strategy picks this CA from the available connections. */
  predicate Selected(
    strategy: FailoverStrategy, conns: seq<CaConnection>, statuses: Statuses, counter: nat, id: CaId)
  {
    var cs := Candidates(conns, statuses, Ids(conns));
    cs != [] && exists i | 0 <= i < |cs| :: Picks(strategy, cs, counter, i) && cs[i].conn.id == id
  }

  /** Attempt `k`, made in the state `statuses`, goes to this CA: the strategy's pick. */
  predicate Contacts(call: Call, statuses: Statuses, k: nat, id: CaId) {
    Selected(call.strategy, call.conns, statuses, Advanced(call.strategy, call.counter, k), id)
  }

  /** Attempt `k` contacts `contacted[k]` in the state `trail[k]`, and fails. */
  predicate FailsAt(call: Call, trail: seq<Statuses>, contacted: seq<CaId>, k: nat)
    requires k < |contacted| < |trail|
  {
    && Contacts(call, trail[k], k, contacted[k]) && call.send(contacted[k], k).SendError?
    && trail[k + 1] == OnFailure(call.threshold, trail[k], contacted[k], call.clock(k))
  }

  predicate FailingRun(call: Call, trail: seq<Statuses>, contacted: seq<CaId>) {
    |trail| == |contacted| + 1 && forall k | 0 <= k < |contacted| :: FailsAt(call, trail, contacted, k)
  }

  /** After the failed attempts, why the call ended and what it left in the pool. */
  ghost predicate EndsWith(
    call: Call, maxRetries: nat, trail: seq<Statuses>, contacted: seq<CaId>, result: RouteResult, statuses: Statuses)
    requires |trail| == |contacted| + 1
  {
    var n := |contacted|;
    match result
    case Routed(cert) =>
      n <= maxRetries && exists id :: Contacts(call, trail[n], n, id) && call.send(id, n) == Issued(cert)
                                      && statuses == OnSuccess(trail[n], id, call.clock(n), call.latencyMs(n))
    case NoHealthyBackend => n <= maxRetries && statuses == trail[n] && forall id :: !Routable(call.conns, trail[n], id)
    case BackendFailed(error) => n == maxRetries + 1 && statuses == trail[n]
      && error == call.send(contacted[n - 1], n - 1)
    case RetriesExhausted => false
  }

  lemma FailingRunGrows(call: Call, trail: seq<Statuses>, contacted: seq<CaId>, id: CaId)
    requires FailingRun(call, trail, contacted)
    requires Contacts(call, trail[|contacted|], |contacted|, id) && call.send(id, |contacted|).SendError?
    ensures var next := OnFailure(call.threshold, trail[|contacted|], id, call.clock(|contacted|));
            FailingRun(call, trail + [next], contacted + [id])
  {
    var next := OnFailure(call.threshold, trail[|contacted|], id, call.clock(|contacted|));
    var trail', contacted' := trail + [next], contacted + [id];
    forall k | 0 <= k < |contacted'| ensures FailsAt(call, trail', contacted', k) {
      assert k < |contacted| ==> FailsAt(call, trail, contacted, k);
    }
  }

  lemma AdvancedOne(strategy: FailoverStrategy, counter: nat, k: nat)
    ensures Advanced(strategy, Advanced(strategy, counter, k), 1) == Advanced(strategy, counter, k + 1)
  {
    Wrap64Add(counter + k);
  }

  lemma Wrap64Add(x: nat)
    ensures Wrap64(Wrap64(x) + 1) == Wrap64(x + 1)
  {
  }

  lemma SelectedIsRoutable(
    strategy: FailoverStrategy, conns: seq<CaConnection>, statuses: Statuses, counter: nat, id: CaId)
    requires Selected(strategy, conns, statuses, counter, id)
    ensures Routable(conns, statuses, id)
  {
    var cs := Candidates(conns, statuses, Ids(conns));
    CandidatesAreChoosable(conns, statuses, Ids(conns));
    var i :| 0 <= i < |cs| && Picks(strategy, cs, counter, i) && cs[i].conn.id == id;
    assert Choosable(conns, statuses, Ids(conns), cs[i].conn);
  }

  lemma NoneRoutable(conns: seq<CaConnection>, statuses: Statuses)
    requires !exists c :: Choosable(conns, statuses, Ids(conns), c)
    ensures forall id :: !Routable(conns, statuses, id)
  {
    forall id ensures !Routable(conns, statuses, id) {
      if Routable(conns, statuses, id) {
        var i :| 0 <= i < |conns| && Ids(conns)[i] == id;
        assert Choosable(conns, statuses, Ids(conns), conns[i]);
      }
    }
  }

  class CaBackendPool {
    const haPool: CaPool
    const maxRetries: nat

    constructor (haPool: CaPool, maxRetries: nat)
      ensures this.haPool == haPool && this.maxRetries == maxRetries
    {
      this.haPool := haPool;
      this.maxRetries := maxRetries;
    }

    ghost predicate Meets(call: Call)
      reads haPool.selector
    {
      && call.strategy == haPool.selector.strategy && call.threshold == haPool.breaker.failureThreshold
      && call.conns == haPool.connections && call.counter == haPool.selector.rrCounter
    }

    /** Select a CA, send to it and record how it went; None when no CA can be selected. */
    method SendNext(call: Call, k: nat) returns (sent: Option<(CaId, SendResult)>)
      requires call.strategy == haPool.selector.strategy && call.threshold == haPool.breaker.failureThreshold
      requires call.conns == haPool.connections
      requires haPool.selector.rrCounter == Advanced(call.strategy, call.counter, k)
      modifies haPool`statuses, haPool.selector`rrCounter
      ensures sent == None ==>
                && haPool.statuses == old(haPool.statuses)
                  && haPool.selector.rrCounter == old(haPool.selector.rrCounter)
                && forall id :: !Routable(call.conns, haPool.statuses, id)
      ensures sent.Some? ==>
                var (id, r) := sent.value;
                && Contacts(call, old(haPool.statuses), k, id) && r == call.send(id, k)
                && haPool.statuses == (if r.Issued?
                  then OnSuccess(old(haPool.statuses), id, call.clock(k), call.latencyMs(k))
                                       else OnFailure(call.threshold, old(haPool.statuses), id, call.clock(k)))
                && haPool.selector.rrCounter == Advanced(call.strategy, call.counter, k + 1)
    {
      AdvancedOne(call.strategy, call.counter, k);
      var ca := haPool.SelectAllowed(Ids(haPool.connections));
      if ca == None {
        NoneRoutable(haPool.connections, haPool.statuses);
        return None;
      }
      var r := call.send(ca.value.id, k);
      if r.Issued? {
        haPool.RecordSuccess(ca.value.id, call.clock(k), call.latencyMs(k));
      } else {
        haPool.RecordFailure(ca.value.id, call.clock(k));
      }
      return Some((ca.value.id, r));
    }

    /**
     `contacted` lists the CAs whose send failed, in order; a successful send ends the call.  Each
     is the strategy's pick from the connections available at that moment.
     */
    method RouteEnrollment(call: Call) returns (result: RouteResult, contacted: seq<CaId>, ghost trail: seq<Statuses>)
      requires Meets(call)
      modifies haPool`statuses, haPool.selector`rrCounter
      ensures FailingRun(call, trail, contacted) && trail[0] == old(haPool.statuses)
      ensures EndsWith(call, maxRetries, trail, contacted, result, haPool.statuses)
      ensures haPool.selector.rrCounter
           == Advanced(call.strategy, call.counter, |contacted| + (if result.Routed? then 1 else 0))
    {
      var attempts := 0;
      var lastError: Option<SendResult> := None;
      contacted := [];
      trail := [haPool.statuses];
      while attempts <= maxRetries
        invariant attempts == |contacted| <= maxRetries + 1 && FailingRun(call, trail, contacted)
        invariant trail[0] == old(haPool.statuses) && trail[attempts] == haPool.statuses
        invariant haPool.selector.rrCounter == Advanced(call.strategy, call.counter, attempts)
        invariant lastError == if attempts == 0 then None else Some(call.send(contacted[attempts - 1], attempts - 1))
      {
        var sent := SendNext(call, attempts);
        if sent == None { return NoHealthyBackend, contacted, trail; }
        var (id, r) := sent.value;
        if r.Issued? { return Routed(r.cert), contacted, trail; }
        FailingRunGrows(call, trail, contacted, id);
        lastError := Some(r);
        contacted := contacted + [id];
        trail := trail + [haPool.statuses];
        attempts := attempts + 1;
      }
      result := if lastError.Some? then BackendFailed(lastError.value) else RetriesExhausted;
    }
  }

  // ----- How many sends a failing call makes -----

  /** The failures an available CA still takes before the breaker removes it. */
  function Remaining(threshold: nat, statuses: Statuses, id: CaId): nat {
    if !Available(statuses, id) then 0
    else if statuses[id].consecutiveFailures + 1 >= threshold then 1
    else threshold - statuses[id].consecutiveFailures
  }

  /** The same, over all CAs; a CA listed twice counts once. */
  function Budget(threshold: nat, conns: seq<CaConnection>, statuses: Statuses): nat {
    if conns == [] then 0
    else
      var init, id := conns[..|conns| - 1], conns[|conns| - 1].id;
      Budget(threshold, init, statuses) + (if id in Ids(init) then 0 else Remaining(threshold, statuses, id))
  }

  function Times(contacted: seq<CaId>, id: CaId): nat {
    multiset(contacted)[id]
  }

  /** One failed send uses up one failure of the CA it went to, and nothing else. */
  lemma FailureUsesOne(threshold: nat, statuses: Statuses, id: CaId, now: Instant, other: CaId)
    requires Available(statuses, id)
    ensures Remaining(threshold, statuses, other)
         == Remaining(threshold, OnFailure(threshold, statuses, id, now), other) + (if other == id then 1 else 0)
  {
  }

  lemma {:induction false} BudgetUsesOne(threshold: nat, conns: seq<CaConnection>, statuses: Statuses, id: CaId,
      now: Instant)
    requires Available(statuses, id)
    ensures Budget(threshold, conns, statuses)
         == Budget(threshold, conns, OnFailure(threshold, statuses, id, now)) + (if id in Ids(conns) then 1 else 0)
  {
    if conns != [] {
      var init, last := conns[..|conns| - 1], conns[|conns| - 1].id;
      BudgetUsesOne(threshold, init, statuses, id, now);
      FailureUsesOne(threshold, statuses, id, now, last);
      assert Ids(conns) == Ids(init) + [last];
    }
  }

  lemma {:induction false} BudgetSpent(threshold: nat, conns: seq<CaConnection>, statuses: Statuses)
    ensures Budget(threshold, conns, statuses) == 0 <==> forall id :: !Routable(conns, statuses, id)
  {
    if conns != [] {
      var init, last := conns[..|conns| - 1], conns[|conns| - 1].id;
      BudgetSpent(threshold, init, statuses);
      assert Ids(conns) == Ids(init) + [last];
      assert Routable(conns, statuses, last) <==> Available(statuses, last);
      if last in Ids(init) {
        assert Routable(init, statuses, last) <==> Available(statuses, last);
      }
      forall id
        ensures Routable(conns, statuses, id)
                <==> Routable(init, statuses, id) || (id == last && Available(statuses, last))
      {
      }
    }
  }

  /** Along a failing run, sends made and failures left add up. */
  lemma {:induction false} SendsAreAccounted(call: Call, trail: seq<Statuses>, contacted: seq<CaId>, id: CaId)
    requires FailingRun(call, trail, contacted)
    ensures Budget(call.threshold, call.conns, trail[0])
         == Budget(call.threshold, call.conns, trail[|contacted|]) + |contacted|
    ensures Remaining(call.threshold, trail[0], id)
         == Remaining(call.threshold, trail[|contacted|], id) + Times(contacted, id)
  {
    if contacted != [] {
      var n := |contacted| - 1;
      var before, sent := trail[..n + 1], contacted[..n];
      forall k | 0 <= k < n ensures FailsAt(call, before, sent, k) {
        assert FailsAt(call, trail, contacted, k);
      }
      SendsAreAccounted(call, before, sent, id);
      InitAndLast(contacted);
      assert FailsAt(call, trail, contacted, n);
      SelectedIsRoutable(call.strategy, call.conns, trail[n], Advanced(call.strategy, call.counter, n), contacted[n]);
      BudgetUsesOne(call.threshold, call.conns, trail[n], contacted[n], call.clock(n));
      FailureUsesOne(call.threshold, trail[n], contacted[n], call.clock(n), id);
    }
  }

  /**
   For any strategy: a call in which every send fails, and which ends because its attempts
   are used up or no CA is available, makes exactly min(maxRetries + 1, budget) sends.  No
   CA is contacted more often than it has failures left (so at most `threshold` times, or
   once if that is 0), and none while Unavailable.
   */
  lemma FailingCallSends(call: Call, trail: seq<Statuses>, contacted: seq<CaId>, maxRetries: nat, id: CaId)
    requires FailingRun(call, trail, contacted)
    requires || |contacted| == maxRetries + 1
             || (|contacted| <= maxRetries && forall x :: !Routable(call.conns, trail[|contacted|], x))
    ensures |contacted| == Min(maxRetries + 1, Budget(call.threshold, call.conns, trail[0]))
    ensures Times(contacted, id) <= Remaining(call.threshold, trail[0], id)
            <= (if call.threshold == 0 then 1 else call.threshold)
    ensures forall k | 0 <= k < |contacted| ::
              contacted[k] in trail[k] && trail[k][contacted[k]].health != Unavailable
  {
    SendsAreAccounted(call, trail, contacted, id);
    BudgetSpent(call.threshold, call.conns, trail[|contacted|]);
    forall k | 0 <= k < |contacted|
      ensures contacted[k] in trail[k] && trail[k][contacted[k]].health != Unavailable
    {
      assert FailsAt(call, trail, contacted, k);
      SelectedIsRoutable(call.strategy, call.conns, trail[k], Advanced(call.strategy, call.counter, k), contacted[k]);
    }
  }

  /** After any run of whole operations an available CA has exactly threshold minus its consecutive failures left. */
  lemma RemainingAfterWholeOperations(cfg: HaHealth.HealthConfig, threshold: nat, sys: HaHealth.System,
      ops: seq<HaHealth.HealthOp>, id: CaId)
    requires threshold > 0 && id in sys.statuses && sys.statuses[id] == NEW_STATUS
    ensures var statuses := HaHealth.Run(cfg, threshold, sys, ops).statuses;
            && id in statuses
            && Remaining(threshold, statuses, id)
               == if statuses[id].health == Unavailable then 0 else threshold - statuses[id].consecutiveFailures
  {
    HaHealth.HealthFollowsFailures(cfg, threshold, sys, ops, id);
  }
}
