/**
 CA selection strategies (`src/ha/strategy.rs`).  Machine arithmetic wraps as in a
 release build: the shared counter is a 64-bit `usize`, weights and their sums are `u32`.
 Latency averages are real numbers.
 */
module HaStrategy {
  import opened Prelude

  function Wrap32(x: nat): nat { x % 0x1_0000_0000 }

  function Wrap64(x: nat): nat { x % 0x1_0000_0000_0000_0000 }

  /** `x % w`, by repeated subtraction. */
  function Rem(x: nat, w: nat): (r: nat)
    requires w > 0
    ensures r < w
  {
    if x < w then x else Rem(x - w, w)
  }

  lemma {:induction false} RemIsModulo(x: nat, w: nat)
    requires w > 0
    ensures Rem(x, w) == x % w
  {
    if x >= w {
      RemIsModulo(x - w, w);
      ModuloDrops(x, w);
    }
  }

  lemma ModuloDrops(x: nat, w: nat)
    requires 0 < w <= x
    ensures x % w == (x - w) % w
  {
    var d := x / w - (x - w) / w;
    assert x == w * (x / w) + x % w && x - w == w * ((x - w) / w) + (x - w) % w;
    assert w * d == w * (x / w) - w * ((x - w) / w);
    assert d <= 0 ==> w * d <= 0;
    assert d >= 2 ==> w * d >= 2 * w;
  }

  datatype FailoverStrategy = ActivePassive | RoundRobin | Weighted | LatencyBased

  datatype CaConnection = CaConnection(id: string, endpoint: string, weight: nat, priority: nat)

  /** An available CA with its average latency. */
  datatype Candidate = Candidate(conn: CaConnection, latencyEma: real)

  /** The weights of the first `i` candidates together. */
  function Cumulative(cs: seq<Candidate>, i: nat): nat
    requires i <= |cs|
  {
    if i == 0 then 0 else Cumulative(cs, i - 1) + cs[i - 1].conn.weight
  }

  /** The candidate in whose share of the weights `tick` falls, searching from `i`; the last one if none. */
  function WeightedIndex(cs: seq<Candidate>, tick: nat, i: nat): nat
    requires i <= |cs|
    decreases |cs| - i
  {
    if i == |cs| then (if i == 0 then 0 else i - 1)
    else if tick < Wrap32(Cumulative(cs, i + 1)) then i
    else WeightedIndex(cs, tick, i + 1)
  }

  function Key(byLatency: bool, c: Candidate): real {
    if byLatency then c.latencyEma else c.conn.priority as real
  }

  /** The first candidate with the least key. */
  predicate IsFirstLeast(byLatency: bool, cs: seq<Candidate>, i: nat) {
    && i < |cs|
    && (forall j | 0 <= j < |cs| :: Key(byLatency, cs[i]) <= Key(byLatency, cs[j]))
    && (forall j | 0 <= j < i :: Key(byLatency, cs[i]) < Key(byLatency, cs[j]))
  }

  /** `i` is what the strategy picks when the shared counter reads `counter`. */
  predicate Picks(strategy: FailoverStrategy, cs: seq<Candidate>, counter: nat, i: nat)
    requires cs != []
  {
    match strategy
    case ActivePassive => IsFirstLeast(false, cs, i)
    case LatencyBased => IsFirstLeast(true, cs, i)
    case RoundRobin => i == Rem(counter, |cs|)
    case Weighted =>
      var total := Wrap32(Cumulative(cs, |cs|));
      if total == 0 then i == Rem(counter, |cs|) else i == WeightedIndex(cs, Rem(Wrap32(counter), total), 0)
  }

  predicate Counts(strategy: FailoverStrategy) {
    strategy == RoundRobin || strategy == Weighted
  }

  class StrategySelector {
    const strategy: FailoverStrategy
    var rrCounter: nat

    constructor (strategy: FailoverStrategy)
      ensures this.strategy == strategy && rrCounter == 0
    {
      this.strategy := strategy;
      rrCounter := 0;
    }

    method Select(cs: seq<Candidate>) returns (ca: Option<CaConnection>)
      modifies this`rrCounter
      ensures cs == [] ==> ca == None && rrCounter == old(rrCounter)
      ensures cs != [] ==> exists i: nat :: i < |cs| && Picks(strategy, cs, old(rrCounter), i) && ca == Some(cs[i].conn)
      ensures cs != [] ==> rrCounter == if Counts(strategy) then Wrap64(old(rrCounter) + 1) else old(rrCounter)
    {
      if cs == [] { return None; }
      var i;
      match strategy {
        case ActivePassive => i := SelectLeast(cs, false);
        case LatencyBased => i := SelectLeast(cs, true);
        case RoundRobin => i := SelectRoundRobin(cs);
        case Weighted => i := SelectWeighted(cs);
      }
      return Some(cs[i].conn);
    }

    method SelectLeast(cs: seq<Candidate>, byLatency: bool) returns (i: nat)
      requires cs != []
      ensures IsFirstLeast(byLatency, cs, i)
      ensures !byLatency ==> forall j | 0 <= j < |cs| :: cs[i].conn.priority <= cs[j].conn.priority
      ensures !byLatency ==> forall j | 0 <= j < i :: cs[i].conn.priority < cs[j].conn.priority
      ensures byLatency ==> forall j | 0 <= j < |cs| :: cs[i].latencyEma <= cs[j].latencyEma
      ensures byLatency ==> forall j | 0 <= j < i :: cs[i].latencyEma < cs[j].latencyEma
    {
      i := 0;
      for j := 1 to |cs|
        invariant IsFirstLeast(byLatency, cs[..j], i)
      {
        if Key(byLatency, cs[j]) < Key(byLatency, cs[i]) {
          i := j;
        }
      }
      assert cs[..|cs|] == cs;
    }

    method SelectRoundRobin(cs: seq<Candidate>) returns (i: nat)
      requires cs != []
      modifies this`rrCounter
      ensures i == Rem(old(rrCounter), |cs|) && rrCounter == Wrap64(old(rrCounter) + 1)
    {
      RemIsModulo(rrCounter, |cs|);
      i := rrCounter % |cs|;
      rrCounter := Wrap64(rrCounter + 1);
    }

    method SelectWeighted(cs: seq<Candidate>) returns (i: nat)
      requires cs != []
      modifies this`rrCounter
      ensures i < |cs| && Picks(Weighted, cs, old(rrCounter), i) && rrCounter == Wrap64(old(rrCounter) + 1)
    {
      var total := TotalWeight(cs);
      if total == 0 {
        i := SelectRoundRobin(cs);
        return;
      }
      RemIsModulo(Wrap32(rrCounter), total);
      var tick := Wrap32(rrCounter) % total;
      rrCounter := Wrap64(rrCounter + 1);
      i := Scan(cs, tick);
    }
  }

  method TotalWeight(cs: seq<Candidate>) returns (total: nat)
    ensures total == Wrap32(Cumulative(cs, |cs|))
  {
    total := 0;
    for j := 0 to |cs|
      invariant total == Wrap32(Cumulative(cs, j))
    {
      WrapAdd(Cumulative(cs, j), cs[j].conn.weight);
      total := Wrap32(total + cs[j].conn.weight);
    }
  }

  lemma WrapAdd(a: nat, b: nat)
    ensures Wrap32(Wrap32(a) + b) == Wrap32(a + b)
  {
    var c := Wrap32(a) + b;
    Residue32(a + b, a / 0x1_0000_0000 + c / 0x1_0000_0000, Wrap32(c));
  }

  method Scan(cs: seq<Candidate>, tick: nat) returns (i: nat)
    requires cs != []
    ensures i == WeightedIndex(cs, tick, 0) < |cs|
  {
    var cumulative := 0;
    for j := 0 to |cs|
      invariant cumulative == Wrap32(Cumulative(cs, j))
      invariant WeightedIndex(cs, tick, j) == WeightedIndex(cs, tick, 0)
    {
      WrapAdd(Cumulative(cs, j), cs[j].conn.weight);
      cumulative := Wrap32(cumulative + cs[j].conn.weight);
      if tick < cumulative {
        return j;
      }
    }
    return |cs| - 1;
  }

  // ----- What each strategy picks -----

  /** Active-passive picks the first of the candidates with the least priority number. */
  lemma ActivePassivePick(cs: seq<Candidate>, counter: nat, i: nat)
    requires cs != []
    ensures Picks(ActivePassive, cs, counter, i) <==>
            && i < |cs| && (forall j | 0 <= j < |cs| :: cs[i].conn.priority <= cs[j].conn.priority)
            && (forall j | 0 <= j < i :: cs[i].conn.priority < cs[j].conn.priority)
  {
    if i < |cs| {
      forall j | 0 <= j < |cs|
        ensures cs[i].conn.priority <= cs[j].conn.priority <==> Key(false, cs[i]) <= Key(false, cs[j])
        ensures cs[i].conn.priority < cs[j].conn.priority <==> Key(false, cs[i]) < Key(false, cs[j])
      {
      }
    }
  }

  /** The latency strategy picks the first of the candidates with the least average latency. */
  lemma LatencyPick(cs: seq<Candidate>, counter: nat, i: nat)
    requires cs != []
    ensures Picks(LatencyBased, cs, counter, i) <==>
            && i < |cs| && (forall j | 0 <= j < |cs| :: cs[i].latencyEma <= cs[j].latencyEma)
            && (forall j | 0 <= j < i :: cs[i].latencyEma < cs[j].latencyEma)
  {
    if i < |cs| {
      forall j | 0 <= j < |cs|
        ensures cs[i].latencyEma <= cs[j].latencyEma <==> Key(true, cs[i]) <= Key(true, cs[j])
        ensures cs[i].latencyEma < cs[j].latencyEma <==> Key(true, cs[i]) < Key(true, cs[j])
      {
      }
    }
  }

  /**
   Round-robin picks the counter modulo the number of candidates; weighted selection does so when the weights sum to
   0.
   */
  lemma RoundRobinPick(cs: seq<Candidate>, counter: nat, i: nat)
    requires cs != []
    ensures Picks(RoundRobin, cs, counter, i) <==> i == counter % |cs|
    ensures Cumulative(cs, |cs|) % 0x1_0000_0000 == 0 ==> (Picks(Weighted, cs, counter, i) <==> i == counter % |cs|)
  {
    RemIsModulo(counter, |cs|);
  }

  /** With the total weight in range, weighted selection picks the candidate in whose share of it the counter falls. */
  lemma WeightedPickByShare(cs: seq<Candidate>, counter: nat, i: nat)
    requires cs != [] && 0 < Cumulative(cs, |cs|) < 0x1_0000_0000
    ensures var tick := counter % 0x1_0000_0000 % Cumulative(cs, |cs|);
            Picks(Weighted, cs, counter, i) <==> i < |cs| && Cumulative(cs, i) <= tick < Cumulative(cs, i + 1)
  {
    var w := Cumulative(cs, |cs|);
    RemIsModulo(Wrap32(counter), w);
    OwnsTick(cs, Rem(Wrap32(counter), w), i);
  }

  lemma OwnsTick(cs: seq<Candidate>, tick: nat, i: nat)
    requires cs != [] && tick < Cumulative(cs, |cs|) < 0x1_0000_0000
    ensures i == WeightedIndex(cs, tick, 0) <==> i < |cs| && Cumulative(cs, i) <= tick < Cumulative(cs, i + 1)
  {
    NoWrapNoFallback(cs, tick, 0);
    ScanFindsShare(cs, tick, 0);
    if i < |cs| { SharesAreDisjoint(cs, tick, i, ShareIndex(cs, tick, 0)); }
  }

  // ----- Fair shares -----

  /** How often `f` takes the value `i` on `lo`, ..., `hi - 1`. */
  function CountOf(f: nat -> nat, lo: nat, hi: nat, i: nat): nat
    requires lo <= hi
    decreases hi
  {
    if lo == hi then 0 else CountOf(f, lo, hi - 1, i) + (if f(hi - 1) == i then 1 else 0)
  }

  lemma {:induction false} CountOfFirst(f: nat -> nat, lo: nat, hi: nat, i: nat)
    requires lo < hi
    ensures CountOf(f, lo, hi, i) == (if f(lo) == i then 1 else 0) + CountOf(f, lo + 1, hi, i)
    decreases hi
  {
    if lo + 1 < hi {
      CountOfFirst(f, lo, hi - 1, i);
    } else {
      assert CountOf(f, lo, lo, i) == 0;
    }
  }

  predicate SameAfter(f: nat -> nat, w: nat, t: nat) {
    f(t + w) == f(t)
  }

  ghost predicate Periodic(f: nat -> nat, w: nat) {
    forall t: nat :: SameAfter(f, w, t)
  }

  /** Of a function with period `w`, any `w` consecutive values are the first `w`, up to order. */
  lemma {:induction false} AnyPeriod(f: nat -> nat, w: nat, lo: nat, i: nat)
    requires w > 0 && Periodic(f, w)
    ensures CountOf(f, lo, lo + w, i) == CountOf(f, 0, w, i)
  {
    if lo > 0 {
      AnyPeriod(f, w, lo - 1, i);
      CountOfFirst(f, lo - 1, lo - 1 + w, i);
      assert SameAfter(f, w, lo - 1);
    }
  }

  /** The picks of `n` consecutive calls, the counter starting at `counter`. */
  predicate Consecutive(strategy: FailoverStrategy, cs: seq<Candidate>, counter: nat, picks: seq<nat>)
    requires cs != []
  {
    forall k | 0 <= k < |picks| :: Picks(strategy, cs, Wrap64(counter + k), picks[k])
  }

  lemma {:induction false} CountMatches(picks: seq<nat>, f: nat -> nat, lo: nat, i: nat)
    requires forall k | 0 <= k < |picks| :: picks[k] == f(lo + k)
    ensures multiset(picks)[i] == CountOf(f, lo, lo + |picks|, i)
  {
    if picks != [] {
      var n := |picks| - 1;
      InitAndLast(picks);
      CountMatches(picks[..n], f, lo, i);
    }
  }

  lemma {:induction false} CumulativeMonotone(cs: seq<Candidate>, i: nat, j: nat)
    requires i <= j <= |cs|
    ensures Cumulative(cs, i) <= Cumulative(cs, j)
  {
    if i < j {
      CumulativeMonotone(cs, i, j - 1);
    }
  }

  /** The candidate in whose share `tick` falls, in unbounded arithmetic. */
  function ShareIndex(cs: seq<Candidate>, tick: nat, i: nat): nat
    requires i <= |cs|
    decreases |cs| - i
  {
    if i == |cs| then |cs| else if tick < Cumulative(cs, i + 1) then i else ShareIndex(cs, tick, i + 1)
  }

  /** The scan stops in the share that holds the tick. */
  lemma {:induction false} ScanFindsShare(cs: seq<Candidate>, tick: nat, i: nat)
    requires i <= |cs| && Cumulative(cs, i) <= tick < Cumulative(cs, |cs|)
    ensures var k := ShareIndex(cs, tick, i);
            i <= k < |cs| && Cumulative(cs, k) <= tick < Cumulative(cs, k + 1)
    decreases |cs| - i
  {
    if tick >= Cumulative(cs, i + 1) {
      ScanFindsShare(cs, tick, i + 1);
    }
  }

  /** With the total in range nothing wraps and the fallback is never reached. */
  lemma {:induction false} NoWrapNoFallback(cs: seq<Candidate>, tick: nat, i: nat)
    requires i <= |cs| && Cumulative(cs, i) <= tick < Cumulative(cs, |cs|) < 0x1_0000_0000
    ensures WeightedIndex(cs, tick, i) == ShareIndex(cs, tick, i) < |cs|
    decreases |cs| - i
  {
    CumulativeMonotone(cs, i + 1, |cs|);
    if tick >= Cumulative(cs, i + 1) {
      NoWrapNoFallback(cs, tick, i + 1);
    }
  }

  lemma SharesAreDisjoint(cs: seq<Candidate>, tick: nat, i: nat, k: nat)
    requires i < |cs| && k < |cs| && Cumulative(cs, k) <= tick < Cumulative(cs, k + 1)
    ensures k == i <==> Cumulative(cs, i) <= tick < Cumulative(cs, i + 1)
  {
    if k < i {
      CumulativeMonotone(cs, k + 1, i);
    } else if i < k {
      CumulativeMonotone(cs, i + 1, k);
    }
  }

  /** Over the ticks 0, ..., n - 1 a candidate is picked once for each tick in its share. */
  lemma {:induction false} ShareOfTicks(cs: seq<Candidate>, f: nat -> nat, n: nat, i: nat)
    requires i < |cs| && n <= Cumulative(cs, |cs|)
    requires forall t: nat | t < n :: f(t) == ShareIndex(cs, t, 0)
    ensures CountOf(f, 0, n, i) == Min(n, Cumulative(cs, i + 1)) - Min(n, Cumulative(cs, i))
  {
    CumulativeMonotone(cs, i, i + 1);
    if n > 0 {
      ShareOfTicks(cs, f, n - 1, i);
      ScanFindsShare(cs, n - 1, 0);
      SharesAreDisjoint(cs, n - 1, i, ShareIndex(cs, n - 1, 0));
    }
  }

  lemma Unwrapped(x: nat)
    requires x < 0x1_0000_0000_0000_0000
    ensures Wrap64(x) == x
  {
  }

  lemma Residue32(y: nat, p: int, r: nat)
    requires y == 0x1_0000_0000 * p + r && r < 0x1_0000_0000
    ensures Wrap32(y) == r
  {
  }

  lemma TruncatedCounter(counter: nat, k: nat)
    requires Wrap32(counter) + k < 0x1_0000_0000
    ensures Wrap32(Wrap64(counter + k)) == Wrap32(counter) + k
  {
    var p, q := counter / 0x1_0000_0000, (counter + k) / 0x1_0000_0000_0000_0000;
    assert Wrap64(counter + k) == 0x1_0000_0000 * (p - 0x1_0000_0000 * q) + (Wrap32(counter) + k);
    Residue32(Wrap64(counter + k), p - 0x1_0000_0000 * q, Wrap32(counter) + k);
  }

  /** The weighted pick as a function of an unwrapped counter. */
  function TickIndex(cs: seq<Candidate>, w: nat): nat -> nat
    requires w > 0
  {
    (t: nat) => ShareIndex(cs, Rem(t, w), 0)
  }

  lemma PickIsTick(cs: seq<Candidate>, counter: nat, k: nat, pick: nat)
    requires cs != [] && 0 < Cumulative(cs, |cs|) < 0x1_0000_0000
    requires Wrap32(counter) + k < 0x1_0000_0000
    requires Picks(Weighted, cs, Wrap64(counter + k), pick)
    ensures pick == ShareIndex(cs, Rem(Wrap32(counter) + k, Cumulative(cs, |cs|)), 0)
    ensures pick < |cs| && cs[pick].conn.weight > 0
  {
    TruncatedCounter(counter, k);
    var tick := Rem(Wrap32(counter) + k, Cumulative(cs, |cs|));
    assert pick == WeightedIndex(cs, tick, 0);
    NoWrapNoFallback(cs, tick, 0);
    ScanFindsShare(cs, tick, 0);
  }

  lemma PicksAreTicks(cs: seq<Candidate>, counter: nat, picks: seq<nat>) returns (base: nat)
    requires cs != [] && |picks| == Cumulative(cs, |cs|) && 0 < |picks| < 0x1_0000_0000
    requires Wrap32(counter) + |picks| <= 0x1_0000_0000 && Consecutive(Weighted, cs, counter, picks)
    ensures forall k: nat | k < |picks| :: picks[k] == TickIndex(cs, |picks|)(base + k)
    ensures forall k: nat | k < |picks| :: picks[k] < |cs| && cs[picks[k]].conn.weight > 0
  {
    base := Wrap32(counter);
    forall k: nat | k < |picks|
      ensures picks[k] == TickIndex(cs, |picks|)(base + k)
      ensures picks[k] < |cs| && cs[picks[k]].conn.weight > 0
    {
      PickIsTick(cs, counter, k, picks[k]);
    }
  }

  lemma SharesOverOnePeriod(cs: seq<Candidate>, f: nat -> nat, base: nat, picks: seq<nat>, i: nat)
    requires i < |cs| && |picks| == Cumulative(cs, |cs|) > 0
    requires Periodic(f, |picks|)
    requires forall t: nat | t < |picks| :: f(t) == ShareIndex(cs, t, 0)
    requires forall k: nat | k < |picks| :: picks[k] == f(base + k)
    ensures multiset(picks)[i] == cs[i].conn.weight
  {
    CountMatches(picks, f, base, i);
    AnyPeriod(f, |picks|, base, i);
    ShareOfTicks(cs, f, |picks|, i);
    CumulativeMonotone(cs, i + 1, |cs|);
  }

  lemma TickIndexIsPeriodic(cs: seq<Candidate>, w: nat)
    requires w > 0
    ensures Periodic(TickIndex(cs, w), w)
    ensures forall t: nat | t < w :: TickIndex(cs, w)(t) == ShareIndex(cs, t, 0)
  {
  }

  /**
   Over any total-weight many consecutive weighted selections from a fixed candidate list,
   with the total in `u32` range and the truncated counter not wrapping, every candidate
   is picked exactly as often as its weight.
   */
  lemma WeightedIsProportional(cs: seq<Candidate>, counter: nat, picks: seq<nat>, i: nat)
    requires cs != [] && 0 < Cumulative(cs, |cs|) < 0x1_0000_0000
    requires |picks| == Cumulative(cs, |cs|) && Wrap32(counter) + |picks| <= 0x1_0000_0000
    requires Consecutive(Weighted, cs, counter, picks) && i < |cs|
    ensures multiset(picks)[i] == cs[i].conn.weight
    ensures forall k: nat | k < |picks| :: picks[k] < |cs| && cs[picks[k]].conn.weight > 0
  {
    var base := PicksAreTicks(cs, counter, picks);
    TickIndexIsPeriodic(cs, |picks|);
    SharesOverOnePeriod(cs, TickIndex(cs, |picks|), base, picks, i);
  }

  lemma {:induction false} EachOnceInOneTurn(f: nat -> nat, n: nat, i: nat)
    requires forall t: nat | t < n :: f(t) == t
    ensures CountOf(f, 0, n, i) == if i < n then 1 else 0
  {
    if n > 0 {
      EachOnceInOneTurn(f, n - 1, i);
    }
  }

  lemma TurnOverOnePeriod(f: nat -> nat, base: nat, picks: seq<nat>, i: nat)
    requires i < |picks|
    requires Periodic(f, |picks|)
    requires forall t: nat | t < |picks| :: f(t) == t
    requires forall k: nat | k < |picks| :: picks[k] == f(base + k)
    ensures multiset(picks)[i] == 1
  {
    CountMatches(picks, f, base, i);
    AnyPeriod(f, |picks|, base, i);
    EachOnceInOneTurn(f, |picks|, i);
  }

  /** Round-robin over n candidates picks each exactly once in any n consecutive selections without counter wrap. */
  lemma RoundRobinIsFair(cs: seq<Candidate>, counter: nat, picks: seq<nat>, i: nat)
    requires cs != [] && |picks| == |cs| && counter + |picks| <= 0x1_0000_0000_0000_0000
    requires Consecutive(RoundRobin, cs, counter, picks) && i < |cs|
    ensures multiset(picks)[i] == 1
  {
    var f := (t: nat) => Rem(t, |cs|);
    forall k: nat | k < |picks| ensures picks[k] == f(counter + k) {
      Unwrapped(counter + k);
      assert Picks(RoundRobin, cs, Wrap64(counter + k), picks[k]);
    }
    TurnOverOnePeriod(f, counter, picks, i);
  }
}
