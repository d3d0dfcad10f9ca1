/** The queue-and-retry fallback (`src/ha/pool.rs`): a bounded queue of requests with a time to live. */
module RetryQueue {
  import opened Prelude
  import opened Filters

  datatype QueueConfig = QueueConfig(maxQueueSize: nat, ttl: nat, maxCsrSize: nat)

  datatype QueuedRequest = QueuedRequest(csr: Bytes, queuedAt: Instant)

  datatype EnqueueResult = Queued(retryAfterSecs: nat, queueDepth: nat) | QueueFull(maxSize: nat)

  predicate IsLive(r: QueuedRequest, ttl: nat, now: Instant) {
    Since(now, r.queuedAt) < ttl
  }

  /** The requests not yet expired at `now`, in order. */
  function Live(q: seq<QueuedRequest>, ttl: nat, now: Instant): seq<QueuedRequest> {
    if q == [] then []
    else Live(q[..|q| - 1], ttl, now) + (if IsLive(q[|q| - 1], ttl, now) then [q[|q| - 1]] else [])
  }

  /** A request is in time while less than the time to live has passed since its stamp. */
  predicate InTime(r: QueuedRequest, ttl: nat, now: Instant) {
    if now <= r.queuedAt then ttl > 0 else now - r.queuedAt < ttl
  }

  /** The live requests are exactly those in time, in queue order. */
  lemma {:induction false} LiveIsFilter(q: seq<QueuedRequest>, ttl: nat, now: Instant)
    ensures Live(q, ttl, now) == Filter(q, (r: QueuedRequest) => InTime(r, ttl, now))
  {
    if q != [] {
      LiveIsFilter(q[..|q| - 1], ttl, now);
    }
  }

  class Queue {
    const config: QueueConfig
    var queue: seq<QueuedRequest>

    constructor (config: QueueConfig)
      ensures this.config == config && queue == []
    {
      this.config := config;
      queue := [];
    }

    method RetainLive(now: Instant)
      modifies this
      ensures queue == Live(old(queue), config.ttl, now)
    {
      ghost var was := queue;
      var kept := [];
      for i := 0 to |queue|
        invariant queue == was && kept == Live(was[..i], config.ttl, now)
      {
        assert was[..i + 1][..i] == was[..i];
        if IsLive(queue[i], config.ttl, now) {
          kept := kept + [queue[i]];
        }
      }
      assert was[..|was|] == was;
      queue := kept;
    }

    method EnqueueRequest(csr: Bytes, now: Instant, stamp: Instant) returns (r: EnqueueResult)
      modifies this
      ensures queue == After(config, old(queue), Enqueue(csr, now, stamp))
      ensures r.Queued? <==> Admits(config, old(queue), Enqueue(csr, now, stamp))
      ensures r == if r.Queued? then Queued(30, |queue|) else QueueFull(config.maxQueueSize)
      ensures var live := Filter(old(queue), (x: QueuedRequest) => InTime(x, config.ttl, now));
              && (r.Queued? <==> |csr| <= config.maxCsrSize && |live| < config.maxQueueSize)
              && queue == (if |csr| > config.maxCsrSize then old(queue)
                           else live + (if r.Queued? then [QueuedRequest(csr, stamp)] else []))
    {
      LiveIsFilter(queue, config.ttl, now);
      if |csr| > config.maxCsrSize { return QueueFull(config.maxQueueSize); }
      RetainLive(now);
      if |queue| >= config.maxQueueSize { return QueueFull(config.maxQueueSize); }
      queue := queue + [QueuedRequest(csr, stamp)];
      return Queued(30, |queue|);
    }

    method DrainQueue(now: Instant) returns (live: seq<QueuedRequest>)
      modifies this
      ensures live == Live(old(queue), config.ttl, now)
      ensures live == Filter(old(queue), (r: QueuedRequest) => InTime(r, config.ttl, now)) && queue == []
      ensures queue == After(config, old(queue), Drain(now))
    {
      LiveIsFilter(queue, config.ttl, now);
      ghost var was := queue;
      live := [];
      ghost var i := 0;
      while queue != []
        invariant 0 <= i <= |was| && queue == was[i..] && live == Live(was[..i], config.ttl, now)
        decreases |queue|
      {
        var req := queue[0];
        queue := queue[1..];
        assert was[..i + 1][..i] == was[..i];
        if IsLive(req, config.ttl, now) {
          live := live + [req];
        }
        i := i + 1;
      }
      assert was[..|was|] == was;
    }
  }

  datatype Op = Enqueue(csr: Bytes, now: Instant, stamp: Instant) | Drain(now: Instant)

  predicate Admits(config: QueueConfig, q: seq<QueuedRequest>, op: Op) {
    op.Enqueue? && |op.csr| <= config.maxCsrSize && |Live(q, config.ttl, op.now)| < config.maxQueueSize
  }

  function After(config: QueueConfig, q: seq<QueuedRequest>, op: Op): seq<QueuedRequest> {
    match op
    case Drain(_) => []
    case Enqueue(csr, now, stamp) =>
      if |csr| > config.maxCsrSize then q
      else if Admits(config, q, op) then Live(q, config.ttl, now) + [QueuedRequest(csr, stamp)]
      else Live(q, config.ttl, now)
  }

  function Run(config: QueueConfig, ops: seq<Op>): seq<QueuedRequest> {
    if ops == [] then [] else After(config, Run(config, ops[..|ops| - 1]), ops[|ops| - 1])
  }

  /** The reference: everything accepted since the last drain, expired or not. */
  function Accepted(config: QueueConfig, ops: seq<Op>): seq<QueuedRequest> {
    if ops == [] then []
    else
      var before, op := Accepted(config, ops[..|ops| - 1]), ops[|ops| - 1];
      if op.Drain? then []
      else if Admits(config, before, op) then before + [QueuedRequest(op.csr, op.stamp)] else before
  }

  predicate Clocked(ops: seq<Op>) {
    forall i, j | 0 <= i < j < |ops| :: ops[i].now <= ops[j].now
  }

  lemma {:induction false} LiveAppend(a: seq<QueuedRequest>, b: seq<QueuedRequest>, ttl: nat, now: Instant)
    ensures Live(a + b, ttl, now) == Live(a, ttl, now) + Live(b, ttl, now)
  {
    if b == [] {
      assert a + b == a;
    } else {
      var n := |b| - 1;
      LiveAppend(a, b[..n], ttl, now);
      assert (a + b)[..|a + b| - 1] == a + b[..n];
    }
  }

  lemma LiveGrows(q: seq<QueuedRequest>, r: QueuedRequest, ttl: nat, now: Instant)
    ensures Live(q + [r], ttl, now) == Live(q, ttl, now) + (if IsLive(r, ttl, now) then [r] else [])
  {
    assert (q + [r])[..|q|] == q;
  }

  /** Expiry is for good. */
  lemma {:induction false} LiveLater(q: seq<QueuedRequest>, ttl: nat, earlier: Instant, now: Instant)
    requires earlier <= now
    ensures Live(Live(q, ttl, earlier), ttl, now) == Live(q, ttl, now)
    ensures |Live(q, ttl, now)| <= |q|
  {
    if q != [] {
      var init, last := q[..|q| - 1], q[|q| - 1];
      LiveLater(init, ttl, earlier, now);
      if IsLive(last, ttl, earlier) {
        LiveGrows(Live(init, ttl, earlier), last, ttl, now);
      } else {
        assert Live(init, ttl, earlier) + [] == Live(init, ttl, earlier);
      }
    }
  }

  /** The pruned queue and the reference hold the same live requests, now and later. */
  lemma {:induction false} SameLive(config: QueueConfig, ops: seq<Op>, now: Instant)
    requires Clocked(ops) && (ops != [] ==> ops[|ops| - 1].now <= now)
    ensures Live(Run(config, ops), config.ttl, now) == Live(Accepted(config, ops), config.ttl, now)
  {
    if ops != [] {
      var init, op := ops[..|ops| - 1], ops[|ops| - 1];
      if op.Enqueue? {
        SameLive(config, init, op.now);
        SameLive(config, init, now);
        var q, a, new1 := Run(config, init), Accepted(config, init), [QueuedRequest(op.csr, op.stamp)];
        LiveLater(q, config.ttl, op.now, now);
        LiveAppend(Live(q, config.ttl, op.now), new1, config.ttl, now);
        LiveAppend(a, new1, config.ttl, now);
      }
    }
  }

  /**
   A drain hands back exactly the requests accepted since the last drain that have not
   outlived their time to live, oldest first; expired requests neither reappear nor take
   up capacity.
   */
  lemma DrainReturnsLiveRequests(config: QueueConfig, ops: seq<Op>, now: Instant, csr: Bytes, stamp: Instant)
    requires Clocked(ops) && (ops != [] ==> ops[|ops| - 1].now <= now)
    ensures Live(Run(config, ops), config.ttl, now) == Live(Accepted(config, ops), config.ttl, now)
    ensures Admits(config, Run(config, ops), Enqueue(csr, now, stamp))
        <==> Admits(config, Accepted(config, ops), Enqueue(csr, now, stamp))
  {
    SameLive(config, ops, now);
  }

  /** The queue never exceeds its capacity. */
  lemma {:induction false} QueueIsBounded(config: QueueConfig, ops: seq<Op>)
    ensures |Run(config, ops)| <= config.maxQueueSize
  {
    if ops != [] {
      QueueIsBounded(config, ops[..|ops| - 1]);
      LiveLater(Run(config, ops[..|ops| - 1]), config.ttl, ops[|ops| - 1].now, ops[|ops| - 1].now);
    }
  }
}
