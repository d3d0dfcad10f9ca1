/**
 Fairness of the rotating strategies (`src/ha/strategy.rs`) over any window of selections,
 also one in which the counter wraps.
 */
module HaFairness {
  import opened Prelude
  import opened HaStrategy

  /** `f` as seen through a counter that wraps at `m`. */
  function Wrapped(f: nat -> nat, m: nat): nat -> nat
    requires m > 0
  {
    (t: nat) => f(Rem(t, m))
  }

  predicate WindowIsFair(g: nat -> nat, w: nat, lo: nat, i: nat) {
    CountOf(g, lo, lo + w, i) == CountOf(g, 0, w, i)
  }

  /** In any `w` consecutive values every `i` below `n` comes as often as in the first `w`. */
  ghost predicate AlwaysFair(g: nat -> nat, w: nat, n: nat) {
    forall lo: nat, i: nat :: i < n ==> WindowIsFair(g, w, lo, i)
  }

  predicate Below(g: nat -> nat, n: nat, t: nat) {
    g(t) < n
  }

  /** Every window is fair exactly for the periodic functions. */
  lemma FairIffPeriodic(g: nat -> nat, w: nat, n: nat)
    requires w > 0 && forall t: nat :: Below(g, n, t)
    ensures AlwaysFair(g, w, n) <==> Periodic(g, w)
  {
    if AlwaysFair(g, w, n) {
      forall t: nat ensures SameAfter(g, w, t) {
        assert Below(g, n, t) && WindowIsFair(g, w, t, g(t)) && WindowIsFair(g, w, t + 1, g(t));
        CountOfFirst(g, t, t + w, g(t));
      }
    }
    if Periodic(g, w) {
      forall lo: nat, i: nat | i < n ensures WindowIsFair(g, w, lo, i) {
        AnyPeriod(g, w, lo, i);
      }
    }
  }

  lemma RemSmall(x: nat, w: nat)
    requires x < w
    ensures Rem(x, w) == x
  {
  }

  lemma {:induction false} PeriodicAdds(f: nat -> nat, w: nat, t: nat, x: nat)
    requires w > 0 && Periodic(f, w)
    ensures f(t + x) == f(Rem(t, w) + x)
  {
    if t >= w {
      PeriodicAdds(f, w, t - w, x);
      assert SameAfter(f, w, t - w + x);
    }
  }

  /** A wrap at a multiple of the period goes unnoticed. */
  lemma {:induction false} WrapAtMultiple(f: nat -> nat, w: nat, m: nat, t: nat)
    requires w > 0 && m > 0 && Periodic(f, w) && Rem(m, w) == 0
    ensures f(Rem(t, m)) == f(t)
  {
    if t >= m {
      WrapAtMultiple(f, w, m, t - m);
      PeriodicAdds(f, w, m, t - m);
    }
  }

  lemma MultipleKeepsPeriod(f: nat -> nat, w: nat, m: nat)
    requires w > 0 && m > 0 && Periodic(f, w) && Rem(m, w) == 0
    ensures Periodic(Wrapped(f, m), w)
  {
    forall t: nat ensures SameAfter(Wrapped(f, m), w, t) {
      WrapAtMultiple(f, w, m, t);
      WrapAtMultiple(f, w, m, t + w);
      assert SameAfter(f, w, t);
    }
  }

  /** If the wrap goes unnoticed, shifting by what it cuts off changes nothing. */
  lemma PeriodAcrossWrap(f: nat -> nat, w: nat, m: nat, x: nat)
    requires 0 < w <= m && Periodic(f, w) && Periodic(Wrapped(f, m), w) && x < w
    ensures f(x) == f(Rem(m, w) + x)
  {
    assert SameAfter(Wrapped(f, m), w, m - w + x);
    RemSmall(x, m);
    RemSmall(m - w + x, m);
    assert Rem(m + x, m) == Rem(x, m);
    assert SameAfter(f, w, m - w + x);
    PeriodicAdds(f, w, m, x);
  }

  // ----- Weighted selection -----

  lemma OwnerOf(cs: seq<Candidate>, tick: nat) returns (k: nat)
    requires tick < Cumulative(cs, |cs|)
    ensures k == ShareIndex(cs, tick, 0) < |cs| && Cumulative(cs, k) <= tick < Cumulative(cs, k + 1)
  {
    ScanFindsShare(cs, tick, 0);
    k := ShareIndex(cs, tick, 0);
  }

  lemma OwnersAscend(cs: seq<Candidate>, x: nat, y: nat)
    requires x <= y < Cumulative(cs, |cs|)
    ensures ShareIndex(cs, x, 0) <= ShareIndex(cs, y, 0)
  {
    var i := OwnerOf(cs, x);
    var j := OwnerOf(cs, y);
    if j < i { CumulativeMonotone(cs, j + 1, i); }
  }

  /** Owners that do not change under a shift by `r` are all the same. */
  lemma {:induction false} OneOwner(cs: seq<Candidate>, r: nat, x: nat)
    requires 0 < r < Cumulative(cs, |cs|) && x < Cumulative(cs, |cs|)
    requires forall y: nat | y + r < Cumulative(cs, |cs|) :: ShareIndex(cs, y + r, 0) == ShareIndex(cs, y, 0)
    ensures ShareIndex(cs, x, 0) == ShareIndex(cs, 0, 0)
  {
    if x <= r {
      OwnersAscend(cs, 0, x);
      OwnersAscend(cs, x, r);
      assert ShareIndex(cs, 0 + r, 0) == ShareIndex(cs, 0, 0);
    } else {
      OneOwner(cs, r, x - r);
      assert ShareIndex(cs, x - r + r, 0) == ShareIndex(cs, x - r, 0);
    }
  }

  predicate HasAll(cs: seq<Candidate>, i: nat) {
    i < |cs| && cs[i].conn.weight == Cumulative(cs, |cs|)
  }

  lemma OneOwnerHasAll(cs: seq<Candidate>)
    requires 0 < Cumulative(cs, |cs|) && ShareIndex(cs, Cumulative(cs, |cs|) - 1, 0) == ShareIndex(cs, 0, 0)
    ensures HasAll(cs, ShareIndex(cs, 0, 0))
  {
    var i := OwnerOf(cs, 0);
    var j := OwnerOf(cs, Cumulative(cs, |cs|) - 1);
    CumulativeMonotone(cs, i + 1, |cs|);
  }

  lemma HasAllOwns(cs: seq<Candidate>, i: nat, x: nat)
    requires HasAll(cs, i) && x < Cumulative(cs, |cs|)
    ensures ShareIndex(cs, x, 0) == i
  {
    var k := OwnerOf(cs, x);
    CumulativeMonotone(cs, i + 1, |cs|);
    SharesAreDisjoint(cs, x, i, k);
  }

  /** The wrapped owner function has the period exactly if the total divides `m` or one candidate has all the weight. */
  lemma OwnersPeriodicIff(cs: seq<Candidate>, w: nat, m: nat)
    requires 0 < w == Cumulative(cs, |cs|) <= m
    ensures Periodic(Wrapped(TickIndex(cs, w), m), w) <==> Rem(m, w) == 0 || exists i :: HasAll(cs, i)
  {
    var f := TickIndex(cs, w);
    TickIndexIsPeriodic(cs, w);
    if Rem(m, w) == 0 {
      MultipleKeepsPeriod(f, w, m);
    } else if i :| HasAll(cs, i) {
      forall t: nat ensures SameAfter(Wrapped(f, m), w, t) {
        HasAllOwns(cs, i, Rem(Rem(t, m), w));
        HasAllOwns(cs, i, Rem(Rem(t + w, m), w));
      }
    } else if Periodic(Wrapped(f, m), w) {
      var r := Rem(m, w);
      forall y: nat | y + r < w ensures ShareIndex(cs, y + r, 0) == ShareIndex(cs, y, 0) {
        PeriodAcrossWrap(f, w, m, y);
      }
      OneOwner(cs, r, w - 1);
      OneOwnerHasAll(cs);
      assert false;
    }
  }

  // ----- From picks to values -----

  predicate PicksBy(strategy: FailoverStrategy, cs: seq<Candidate>, g: nat -> nat, t: nat, pick: nat)
    requires cs != []
  {
    Picks(strategy, cs, Wrap64(t), pick) <==> pick == g(t)
  }

  /** `g` tells the pick from the number of selections made before. */
  ghost predicate Tells(strategy: FailoverStrategy, cs: seq<Candidate>, g: nat -> nat)
    requires cs != []
  {
    forall t: nat, pick: nat :: PicksBy(strategy, cs, g, t, pick)
  }

  lemma CountPicks(strategy: FailoverStrategy, cs: seq<Candidate>, g: nat -> nat, counter: nat, picks: seq<nat>, i: nat)
    requires cs != [] && Consecutive(strategy, cs, counter, picks) && Tells(strategy, cs, g)
    ensures multiset(picks)[i] == CountOf(g, counter, counter + |picks|, i)
  {
    forall k | 0 <= k < |picks| ensures picks[k] == g(counter + k) {
      assert PicksBy(strategy, cs, g, counter + k, picks[k]);
    }
    CountMatches(picks, g, counter, i);
  }

  lemma WindowOfPicks(strategy: FailoverStrategy, cs: seq<Candidate>, g: nat -> nat, counter: nat, n: nat)
    returns (picks: seq<nat>)
    requires cs != [] && Tells(strategy, cs, g)
    ensures |picks| == n && Consecutive(strategy, cs, counter, picks)
  {
    picks := seq(n, k requires 0 <= k < n => g(counter + k));
    forall k | 0 <= k < n ensures Picks(strategy, cs, Wrap64(counter + k), picks[k]) {
      assert PicksBy(strategy, cs, g, counter + k, picks[k]);
    }
  }

  predicate PicksShare(strategy: FailoverStrategy, cs: seq<Candidate>, share: seq<nat>, w: nat, counter: nat,
      picks: seq<nat>, i: nat)
    requires cs != [] && |share| == |cs|
  {
    |picks| == w && Consecutive(strategy, cs, counter, picks) && i < |cs| ==> multiset(picks)[i] == share[i]
  }

  /** Any `w` selections in a row, however many came before, pick every candidate `i` exactly `share[i]` times. */
  ghost predicate AlwaysShares(strategy: FailoverStrategy, cs: seq<Candidate>, share: seq<nat>, w: nat)
    requires cs != [] && |share| == |cs|
  {
    forall counter: nat, picks: seq<nat>, i: nat :: PicksShare(strategy, cs, share, w, counter, picks, i)
  }

  lemma SharesIffPeriodic(strategy: FailoverStrategy, cs: seq<Candidate>, share: seq<nat>, w: nat, g: nat -> nat)
    requires cs != [] && |share| == |cs| && w > 0 && Tells(strategy, cs, g)
    requires forall i: nat | i < |cs| :: CountOf(g, 0, w, i) == share[i]
    requires forall t: nat :: Below(g, |cs|, t)
    ensures AlwaysShares(strategy, cs, share, w) <==> Periodic(g, w)
  {
    FairIffPeriodic(g, w, |cs|);
    if AlwaysShares(strategy, cs, share, w) {
      forall lo: nat, i: nat | i < |cs| ensures WindowIsFair(g, w, lo, i) {
        var picks := WindowOfPicks(strategy, cs, g, lo, w);
        CountPicks(strategy, cs, g, lo, picks, i);
        assert PicksShare(strategy, cs, share, w, lo, picks, i);
      }
    }
    if AlwaysFair(g, w, |cs|) {
      forall counter: nat, picks: seq<nat>, i: nat ensures PicksShare(strategy, cs, share, w, counter, picks, i) {
        if |picks| == w && Consecutive(strategy, cs, counter, picks) && i < |cs| {
          CountPicks(strategy, cs, g, counter, picks, i);
          assert WindowIsFair(g, w, counter, i);
        }
      }
    }
  }

  // ----- Weighted selection across the wrap -----

  lemma Truncated(t: nat)
    ensures Wrap32(Wrap64(t)) == Rem(t, 0x1_0000_0000)
  {
    TruncatedCounter(t, 0);
    RemIsModulo(t, 0x1_0000_0000);
  }

  lemma WeightedPick(cs: seq<Candidate>, w: nat, t: nat, pick: nat)
    requires cs != [] && 0 < w == Cumulative(cs, |cs|) < 0x1_0000_0000
    ensures PicksBy(Weighted, cs, Wrapped(TickIndex(cs, w), 0x1_0000_0000), t, pick)
  {
    Truncated(t);
    NoWrapNoFallback(cs, Rem(Wrap32(Wrap64(t)), w), 0);
  }

  function Weights(cs: seq<Candidate>): seq<nat> {
    seq(|cs|, i requires 0 <= i < |cs| => cs[i].conn.weight)
  }

  /** The first period gives every candidate its weight. */
  lemma FirstShares(cs: seq<Candidate>, w: nat, m: nat, i: nat)
    requires 0 < w == Cumulative(cs, |cs|) <= m && i < |cs|
    ensures CountOf(Wrapped(TickIndex(cs, w), m), 0, w, i) == cs[i].conn.weight
  {
    var g := Wrapped(TickIndex(cs, w), m);
    forall t: nat | t < w ensures g(t) == ShareIndex(cs, t, 0) {
      RemSmall(t, m);
      RemSmall(t, w);
    }
    ShareOfTicks(cs, g, w, i);
    CumulativeMonotone(cs, i + 1, |cs|);
  }

  /**
   Over every window of total-weight many selections, across any wrap of the counter, the shares
   are exactly the weights if and only if the total weight divides 2^32 or one candidate has
   all of it.
   */
  lemma WeightedFairIff(cs: seq<Candidate>)
    requires cs != [] && 0 < Cumulative(cs, |cs|) < 0x1_0000_0000
    ensures AlwaysShares(Weighted, cs, Weights(cs), Cumulative(cs, |cs|))
            <==> 0x1_0000_0000 % Cumulative(cs, |cs|) == 0 || exists i :: HasAll(cs, i)
  {
    var w, m := Cumulative(cs, |cs|), 0x1_0000_0000;
    var g := Wrapped(TickIndex(cs, w), m);
    forall t: nat, pick: nat ensures PicksBy(Weighted, cs, g, t, pick) { WeightedPick(cs, w, t, pick); }
    forall t: nat ensures Below(g, |cs|, t) { ScanFindsShare(cs, Rem(Rem(t, m), w), 0); }
    forall i: nat | i < |cs| ensures CountOf(g, 0, w, i) == Weights(cs)[i] { FirstShares(cs, w, m, i); }
    SharesIffPeriodic(Weighted, cs, Weights(cs), w, g);
    OwnersPeriodicIff(cs, w, m);
    RemIsModulo(m, w);
  }

  // ----- Round robin across the wrap -----

  function Turn(n: nat): nat -> nat
    requires n > 0
  {
    (t: nat) => Rem(t, n)
  }

  lemma FirstTurns(n: nat, m: nat, i: nat)
    requires i < n <= m
    ensures CountOf(Wrapped(Turn(n), m), 0, n, i) == 1
  {
    var g := Wrapped(Turn(n), m);
    forall t: nat | t < n ensures g(t) == t {
      RemSmall(t, m);
      RemSmall(t, n);
    }
    EachOnceInOneTurn(g, n, i);
  }

  lemma TurnsPeriodicIff(n: nat, m: nat)
    requires 0 < n <= m
    ensures Periodic(Wrapped(Turn(n), m), n) <==> Rem(m, n) == 0
  {
    assert Periodic(Turn(n), n) by { assert forall t: nat :: SameAfter(Turn(n), n, t); }
    if Rem(m, n) == 0 {
      MultipleKeepsPeriod(Turn(n), n, m);
    } else if Periodic(Wrapped(Turn(n), m), n) {
      PeriodAcrossWrap(Turn(n), n, m, 0);
      assert false;
    }
  }

  /** Over every window, across any wrap, each of n candidates gets its turn if and only if n divides 2^64. */
  lemma RoundRobinFairIff(cs: seq<Candidate>)
    requires 0 < |cs| <= 0x1_0000_0000_0000_0000
    ensures AlwaysShares(RoundRobin, cs, seq(|cs|, _ => 1), |cs|) <==> 0x1_0000_0000_0000_0000 % |cs| == 0
  {
    var n, m := |cs|, 0x1_0000_0000_0000_0000;
    var g := Wrapped(Turn(n), m);
    forall t: nat, pick: nat ensures PicksBy(RoundRobin, cs, g, t, pick) { RemIsModulo(t, m); }
    forall t: nat ensures Below(g, n, t) { assert Rem(Rem(t, m), n) < n; }
    forall i: nat | i < n ensures CountOf(g, 0, n, i) == 1 { FirstTurns(n, m, i); }
    SharesIffPeriodic(RoundRobin, cs, seq(n, _ => 1), n, g);
    TurnsPeriodicIff(n, m);
    RemIsModulo(m, n);
  }
}
