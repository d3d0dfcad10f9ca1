/** Keeping the elements of a sequence that satisfy a condition, in order. */
module Filters {
  function Filter<T>(s: seq<T>, keep: T -> bool): seq<T> {
    if s == [] then []
    else
      var last := s[|s| - 1];
      Filter(s[..|s| - 1], keep) + (if keep(last) then [last] else [])
  }

  /** `sub` is `s` at the ascending positions `at`, which are those of the elements to keep. */
  ghost predicate KeptAt<T>(sub: seq<T>, s: seq<T>, keep: T -> bool, at: seq<nat>) {
    && |at| == |sub|
    && (forall k | 0 <= k < |at| :: at[k] < |s| && sub[k] == s[at[k]])
    && (forall j, k | 0 <= j < k < |at| :: at[j] < at[k])
    && (forall i | 0 <= i < |s| :: keep(s[i]) <==> i in at)
  }

  lemma KeptGrows<T>(sub: seq<T>, s: seq<T>, keep: T -> bool, at: seq<nat>, x: T)
    requires KeptAt(sub, s, keep, at)
    ensures keep(x) ==> KeptAt(sub + [x], s + [x], keep, at + [|s|])
    ensures !keep(x) ==> KeptAt(sub, s + [x], keep, at)
  {
    var at' := if keep(x) then at + [|s|] else at;
    assert |s| !in at;
    forall i | 0 <= i < |s + [x]| ensures keep((s + [x])[i]) <==> i in at' {
      assert i in at' <==> i in at || (i == |s| && keep(x));
    }
  }

  /** A filtered sequence is exactly the elements to keep, in their order. */
  lemma {:induction false} FilterKeeps<T>(s: seq<T>, keep: T -> bool) returns (at: seq<nat>)
    ensures KeptAt(Filter(s, keep), s, keep, at)
  {
    if s == [] {
      at := [];
    } else {
      var init, last := s[..|s| - 1], s[|s| - 1];
      at := FilterKeeps(init, keep);
      KeptGrows(Filter(init, keep), init, keep, at, last);
      assert s == init + [last];
      if keep(last) { at := at + [|init|]; }
    }
  }

  lemma {:induction false} FilterAppend<T>(a: seq<T>, b: seq<T>, keep: T -> bool)
    ensures Filter(a + b, keep) == Filter(a, keep) + Filter(b, keep)
  {
    if b == [] {
      assert a + b == a;
    } else {
      var n := |b| - 1;
      assert (a + b)[..|a + b| - 1] == a + b[..n];
      FilterAppend(a, b[..n], keep);
    }
  }

  lemma FilterCons<T>(s: seq<T>, keep: T -> bool)
    requires s != []
    ensures Filter(s, keep) == (if keep(s[0]) then [s[0]] else []) + Filter(s[1..], keep)
  {
    assert s == [s[0]] + s[1..] && [s[0]][..0] == [];
    FilterAppend([s[0]], s[1..], keep);
  }
}
