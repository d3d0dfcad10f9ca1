/** Matching a DNS name pattern against a host name (`src/auth/name_match.rs`; section 6.4.3 of RFC 6125). */
module NameMatch {
  import opened Prelude

  function LowerChar(c: char): char {
    if 'A' <= c <= 'Z' then c - 'A' + 'a' else c
  }

  function Lower(s: string): string {
    seq(|s|, i requires 0 <= i < |s| => LowerChar(s[i]))
  }

  function TrimDots(s: string): string {
    if s != "" && s[|s| - 1] == '.' then TrimDots(s[..|s| - 1]) else s
  }

  function StripSuffix(s: string, suffix: string): Option<string> {
    if |suffix| <= |s| && s[|s| - |suffix|..] == suffix then Some(s[..|s| - |suffix|]) else None
  }

  /** The part of the matcher after lower-casing and trimming. */
  predicate MatchesTrimmed(pattern: string, host: string) {
    if !("*." <= pattern) then '*' !in pattern && pattern == host
    else
      var suffix := pattern[2..];
      if suffix == "" || '*' in suffix then false
      else match StripSuffix(host, suffix)
        case None => false
        case Some(prefix) =>
          if prefix == "" || prefix[|prefix| - 1] != '.' then false
          else
            var first := prefix[..|prefix| - 1];
            first != "" && '.' !in first
  }

  predicate MatchesDomain(pattern: string, hostname: string) {
    pattern != "" && hostname != "" && MatchesTrimmed(TrimDots(Lower(pattern)), TrimDots(Lower(hostname)))
  }

  // ----- Label lists -----

  function FirstDot(s: string): (d: nat)
    ensures d <= |s| && '.' !in s[..d]
    ensures d < |s| ==> s[d] == '.'
  {
    if s == "" || s[0] == '.' then 0
    else
      var d := FirstDot(s[1..]);
      assert s[..1 + d] == [s[0]] + s[1..][..d];
      1 + d
  }

  /** The labels between the dots, empty ones included. */
  function Labels(s: string): (labels: seq<string>)
    ensures |labels| >= 1
    decreases |s|
  {
    var d := FirstDot(s);
    if d == |s| then [s] else [s[..d]] + Labels(s[d + 1..])
  }

  /** Without the trailing empty labels, but with at least one label. */
  function Stripped(labels: seq<string>): (stripped: seq<string>)
    requires labels != []
    ensures stripped != []
  {
    if |labels| > 1 && labels[|labels| - 1] == "" then Stripped(labels[..|labels| - 1]) else labels
  }

  predicate NoStar(labels: seq<string>) {
    forall i | 0 <= i < |labels| :: '*' !in labels[i]
  }

  /** Equal labels, or one non-empty label for a leading "*" that is not the only label. */
  predicate LabelsMatch(pattern: seq<string>, host: seq<string>)
    requires pattern != [] && host != []
  {
    || (NoStar(pattern) && pattern == host)
    || (|pattern| > 1 && pattern[0] == "*" && NoStar(pattern[1..]) && host[0] != "" && host[1..] == pattern[1..])
  }

  lemma {:induction false} FirstDotOf(first: string, rest: string)
    requires '.' !in first
    ensures FirstDot(first + "." + rest) == |first|
  {
    if first != "" {
      FirstDotOf(first[1..], rest);
      assert (first + "." + rest)[1..] == first[1..] + "." + rest;
    }
  }

  /** A leading label and its dot split off. */
  lemma LabelsCons(first: string, rest: string)
    requires '.' !in first
    ensures Labels(first + "." + rest) == [first] + Labels(rest)
  {
    FirstDotOf(first, rest);
    var s := first + "." + rest;
    assert s[..|first|] == first && s[|first| + 1..] == rest;
  }

  lemma LabelsSplit(s: string) returns (first: string, rest: string)
    requires |Labels(s)| > 1
    ensures s == first + "." + rest && '.' !in first
    ensures Labels(s) == [first] + Labels(rest)
  {
    var d := FirstDot(s);
    first, rest := s[..d], s[d + 1..];
  }

  lemma {:induction false} LabelsInjective(s: string, t: string)
    requires Labels(s) == Labels(t)
    ensures s == t
    decreases |s|
  {
    if |Labels(s)| > 1 {
      var a, b := LabelsSplit(s);
      var c, d := LabelsSplit(t);
      assert Labels(s)[0] == a && Labels(s)[1..] == Labels(b);
      assert Labels(t)[0] == c && Labels(t)[1..] == Labels(d);
      LabelsInjective(b, d);
    }
  }

  lemma NoStarCons(labels: seq<string>)
    requires labels != []
    ensures NoStar(labels) <==> '*' !in labels[0] && NoStar(labels[1..])
  {
    if NoStar(labels[1..]) && '*' !in labels[0] {
      forall i | 0 <= i < |labels| ensures '*' !in labels[i] {
        assert i > 0 ==> labels[i] == labels[1..][i - 1];
      }
    }
  }

  lemma {:induction false} StarInLabels(s: string)
    ensures NoStar(Labels(s)) <==> '*' !in s
    decreases |s|
  {
    if |Labels(s)| > 1 {
      var first, rest := LabelsSplit(s);
      StarInLabels(rest);
      assert Labels(s)[0] == first && Labels(s)[1..] == Labels(rest);
      NoStarCons(Labels(s));
      assert '*' in s <==> '*' in first || '*' in rest;
    } else {
      assert Labels(s)[0] == s;
    }
  }

  lemma {:induction false} TrailingDot(s: string)
    ensures Labels(s + ".") == Labels(s) + [""]
    decreases |s|
  {
    if |Labels(s)| > 1 {
      var first, rest := LabelsSplit(s);
      TrailingDot(rest);
      LabelsCons(first, rest + ".");
      assert s + "." == first + "." + (rest + ".");
      assert [first] + (Labels(rest) + [""]) == Labels(s) + [""];
    } else {
      LabelsCons(s, "");
      assert s + "." + "" == s + ".";
    }
  }

  /** Trimming dots strips the trailing empty labels. */
  lemma {:induction false} TrimIsStrip(s: string)
    ensures Labels(TrimDots(s)) == Stripped(Labels(s))
    decreases |s|
  {
    if s != "" && s[|s| - 1] == '.' {
      var init := s[..|s| - 1];
      assert s == init + ".";
      TrailingDot(init);
      TrimIsStrip(init);
      assert Labels(s)[..|Labels(s)| - 1] == Labels(init);
    } else if |Labels(s)| > 1 {
      LastLabel(s);
    }
  }

  lemma {:induction false} LastLabel(s: string)
    requires s != "" && s[|s| - 1] != '.'
    ensures Labels(s)[|Labels(s)| - 1] != ""
    decreases |s|
  {
    if |Labels(s)| > 1 {
      var first, rest := LabelsSplit(s);
      assert s[|s| - 1] == if rest == "" then '.' else rest[|rest| - 1];
      LastLabel(rest);
    }
  }

  /** A pattern starts with "*." exactly when "*" is the first of several labels. */
  lemma WildcardPattern(pattern: string)
    ensures "*." <= pattern <==> |Labels(pattern)| > 1 && Labels(pattern)[0] == "*"
    ensures "*." <= pattern ==> Labels(pattern)[1..] == Labels(pattern[2..])
  {
    if "*." <= pattern {
      assert pattern == "*" + "." + pattern[2..];
      LabelsCons("*", pattern[2..]);
    } else if |Labels(pattern)| > 1 {
      var first, rest := LabelsSplit(pattern);
    }
  }

  /** The host ends in the suffix after one non-empty label exactly when its labels say so. */
  lemma WildcardHost(suffix: string, host: string)
    ensures (exists first :: host == first + "." + suffix && first != "" && '.' !in first)
            <==> Labels(host)[0] != "" && Labels(host)[1..] == Labels(suffix)
  {
    if first :| host == first + "." + suffix && first != "" && '.' !in first {
      LabelsCons(first, suffix);
    }
    if Labels(host)[0] != "" && Labels(host)[1..] == Labels(suffix) {
      var first, rest := LabelsSplit(host);
      assert Labels(host)[0] == first && Labels(host)[1..] == Labels(rest);
      LabelsInjective(rest, suffix);
    }
  }

  lemma StripSuffixIff(s: string, prefix: string, suffix: string)
    ensures StripSuffix(s, suffix) == Some(prefix) <==> s == prefix + suffix
  {
    if StripSuffix(s, suffix).Some? { assert s == s[..|s| - |suffix|] + suffix; }
    if s == prefix + suffix { assert s[..|s| - |suffix|] == prefix; }
  }

  lemma StripsToLabel(suffix: string, host: string)
    requires suffix != "" && '*' !in suffix
    ensures MatchesTrimmed("*." + suffix, host)
            <==> exists first :: host == first + "." + suffix && first != "" && '.' !in first
  {
    assert ("*." + suffix)[2..] == suffix;
    if first :| host == first + "." + suffix && first != "" && '.' !in first {
      StripSuffixIff(host, first + ".", suffix);
      assert (first + ".")[..|first|] == first;
    }
    if MatchesTrimmed("*." + suffix, host) {
      var prefix := StripSuffix(host, suffix).value;
      StripSuffixIff(host, prefix, suffix);
      assert prefix == prefix[..|prefix| - 1] + ".";
    }
  }

  lemma TrimmedMatchesLabels(pattern: string, host: string)
    requires pattern == "" || pattern[|pattern| - 1] != '.'
    ensures MatchesTrimmed(pattern, host) <==> LabelsMatch(Labels(pattern), Labels(host))
  {
    WildcardPattern(pattern);
    StarInLabels(pattern);
    if "*." <= pattern {
      var suffix := pattern[2..];
      assert pattern == "*." + suffix && pattern[0] == '*';
      StarInLabels(suffix);
      if suffix != "" && '*' !in suffix {
        StripsToLabel(suffix, host);
        WildcardHost(suffix, host);
      }
    } else if Labels(pattern) == Labels(host) {
      LabelsInjective(pattern, host);
    }
  }

  lemma Trimmed(s: string)
    ensures TrimDots(s) == "" || TrimDots(s)[|TrimDots(s)| - 1] != '.'
  {
  }

  /** The matcher compares label lists, after lower-casing and without trailing empty labels. */
  lemma MatchesLowered(pattern: string, hostname: string)
    ensures MatchesDomain(pattern, hostname) <==>
            && pattern != "" && hostname != ""
            && LabelsMatch(Stripped(Labels(Lower(pattern))), Stripped(Labels(Lower(hostname))))
  {
    Trimmed(Lower(pattern));
    TrimIsStrip(Lower(pattern));
    TrimIsStrip(Lower(hostname));
    TrimmedMatchesLabels(TrimDots(Lower(pattern)), TrimDots(Lower(hostname)));
  }

  // ----- Case -----

  /** The same character, or an ASCII letter and its other case. */
  predicate SameLetter(c: char, d: char) {
    || c == d
    || ('A' <= c <= 'Z' && d as int == c as int + 32)
    || ('A' <= d <= 'Z' && c as int == d as int + 32)
  }

  predicate SameLabel(a: string, b: string) {
    |a| == |b| && forall i | 0 <= i < |a| :: SameLetter(a[i], b[i])
  }

  predicate SameLabels(a: seq<string>, b: seq<string>) {
    |a| == |b| && forall i | 0 <= i < |a| :: SameLabel(a[i], b[i])
  }

  lemma SameLetterIsLower(c: char, d: char)
    ensures LowerChar(c) == LowerChar(d) <==> SameLetter(c, d)
    ensures LowerChar(c) == '.' <==> c == '.'
    ensures LowerChar(c) == '*' <==> c == '*'
  {
  }

  lemma SameLabelIsLower(a: string, b: string)
    ensures Lower(a) == Lower(b) <==> SameLabel(a, b)
    ensures ('.' in Lower(a) <==> '.' in a) && ('*' in Lower(a) <==> '*' in a)
  {
    forall i | 0 <= i < |a| ensures (LowerChar(a[i]) == '.' <==> a[i] == '.')
      && (LowerChar(a[i]) == '*' <==> a[i] == '*') {
      SameLetterIsLower(a[i], a[i]);
    }
    if |a| == |b| {
      forall i | 0 <= i < |a| ensures Lower(a)[i] == Lower(b)[i] <==> SameLetter(a[i], b[i]) {
        SameLetterIsLower(a[i], b[i]);
      }
    }
    assert forall i | 0 <= i < |a| :: Lower(a)[i] == LowerChar(a[i]);
  }

  function LowerAll(labels: seq<string>): seq<string> {
    seq(|labels|, i requires 0 <= i < |labels| => Lower(labels[i]))
  }

  lemma LowerJoin(a: string, b: string)
    ensures Lower(a + "." + b) == Lower(a) + "." + Lower(b)
  {
  }

  lemma LowerAllCons(first: string, rest: seq<string>)
    ensures LowerAll([first] + rest) == [Lower(first)] + LowerAll(rest)
  {
  }

  lemma {:induction false} LabelsOfLower(s: string)
    ensures Labels(Lower(s)) == LowerAll(Labels(s))
    decreases |s|
  {
    SameLabelIsLower(s, s);
    if |Labels(s)| > 1 {
      var first, rest := LabelsSplit(s);
      LabelsOfLower(rest);
      SameLabelIsLower(first, first);
      LowerJoin(first, rest);
      LabelsCons(Lower(first), Lower(rest));
      LowerAllCons(first, Labels(rest));
    } else {
      OneLabel(s);
      OneLabel(Lower(s));
    }
  }

  lemma OneLabel(s: string)
    ensures |Labels(s)| == 1 <==> '.' !in s
    ensures |Labels(s)| == 1 ==> Labels(s) == [s]
  {
    var d := FirstDot(s);
    assert d == |s| ==> s[..d] == s;
  }

  lemma {:induction false} StrippedOfLower(labels: seq<string>)
    requires labels != []
    ensures Stripped(LowerAll(labels)) == LowerAll(Stripped(labels))
  {
    var n := |labels| - 1;
    if n > 0 && labels[n] == "" {
      StrippedOfLower(labels[..n]);
      assert LowerAll(labels)[..n] == LowerAll(labels[..n]);
    }
  }

  /** Equal labels, or one non-empty label for a leading "*" that is not the only label, ASCII case aside. */
  predicate LabelsMatchAnyCase(pattern: seq<string>, host: seq<string>)
    requires pattern != [] && host != []
  {
    || (NoStar(pattern) && SameLabels(pattern, host))
    || (|pattern| > 1 && pattern[0] == "*" && NoStar(pattern[1..]) && host[0] != ""
      && SameLabels(pattern[1..], host[1..]))
  }

  lemma LowerAllEqual(a: seq<string>, b: seq<string>)
    ensures LowerAll(a) == LowerAll(b) <==> SameLabels(a, b)
    ensures NoStar(LowerAll(a)) <==> NoStar(a)
  {
    forall i | 0 <= i < |a| ensures '*' in LowerAll(a)[i] <==> '*' in a[i] {
      SameLabelIsLower(a[i], a[i]);
    }
    if |a| == |b| {
      forall i | 0 <= i < |a| ensures LowerAll(a)[i] == LowerAll(b)[i] <==> SameLabel(a[i], b[i]) {
        SameLabelIsLower(a[i], b[i]);
      }
    }
  }

  lemma LoweredMatch(pattern: seq<string>, host: seq<string>)
    requires pattern != [] && host != []
    ensures LabelsMatch(LowerAll(pattern), LowerAll(host)) <==> LabelsMatchAnyCase(pattern, host)
  {
    LowerAllEqual(pattern, host);
    LowerAllEqual(pattern[1..], host[1..]);
    assert LowerAll(pattern)[1..] == LowerAll(pattern[1..]) && LowerAll(host)[1..] == LowerAll(host[1..]);
    SameLabelIsLower(pattern[0], "*");
    assert Lower("*") == "*";
    assert SameLabel(pattern[0], "*") <==> pattern[0] == "*";
  }

  /**
   The matcher compares the labels as they stand, ASCII case aside and trailing empty labels left
   out: equal lists without a wildcard, or one non-empty label for a leading "*" and the rest equal.
   */
  lemma MatchesDomainIsLabelMatch(pattern: string, hostname: string)
    ensures MatchesDomain(pattern, hostname) <==>
            && pattern != "" && hostname != ""
            && LabelsMatchAnyCase(Stripped(Labels(pattern)), Stripped(Labels(hostname)))
  {
    MatchesLowered(pattern, hostname);
    LabelsOfLower(pattern);
    LabelsOfLower(hostname);
    StrippedOfLower(Labels(pattern));
    StrippedOfLower(Labels(hostname));
    LoweredMatch(Stripped(Labels(pattern)), Stripped(Labels(hostname)));
  }
}
