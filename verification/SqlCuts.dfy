/**
 Cutting text at top-level semicolons, for any scanner that says how far the next token
 reaches and whether it leaves the text inside a quote.
 */
module SqlCuts {
  import opened Prelude

  /** A dollar tag: `$$` or `$tag$`; never holds a semicolon. */
  type Tag = t: string | 2 <= |t| && ';' !in t witness "$$"

  /** Outside any quote, or inside the quote opened by `tag`. */
  datatype Mode = Top | Quoted(tag: Tag)

  type Scanner = (string, Mode) -> (nat, Mode)

  /** The next token of non-empty text: at least one character, at most the text. */
  function Token(scan: Scanner, s: string, mode: Mode): (r: (nat, Mode))
    requires s != ""
    ensures 1 <= r.0 <= |s|
  {
    var r := scan(s, mode);
    if 1 <= r.0 <= |s| then r else (1, mode)
  }

  function Prepend(p: string, ps: seq<string>): (qs: seq<string>)
    requires ps != []
    ensures |qs| == |ps|
  {
    [p + ps[0]] + ps[1..]
  }

  /** The text between top-level semicolons, blank or not. */
  function Pieces(scan: Scanner, s: string, mode: Mode): (ps: seq<string>)
    ensures ps != []
    decreases |s|
  {
    if s == "" then [""]
    else if s[0] == ';' && mode.Top? then [""] + Pieces(scan, s[1..], Top)
    else
      var (n, mode') := Token(scan, s, mode);
      Prepend(s[..n], Pieces(scan, s[n..], mode'))
  }

  /** A statement, unless it is blank. */
  function Kept(blank: string -> bool, stmt: string): seq<string> {
    if blank(stmt) then [] else [stmt]
  }

  function NonBlank(blank: string -> bool, ps: seq<string>): seq<string> {
    if ps == [] then [] else Kept(blank, ps[0]) + NonBlank(blank, ps[1..])
  }

  // ----- The loop -----

  /** The statements still to come when the current one began at `start` and the scanner is at `i`. */
  function SplitFrom(scan: Scanner, blank: string -> bool, sql: string, start: nat, i: nat, mode: Mode): seq<string>
    requires start <= i <= |sql|
    decreases |sql| - i
  {
    if i == |sql| then Kept(blank, sql[start..])
    else if sql[i] == ';' && mode.Top? then Kept(blank, sql[start..i]) + SplitFrom(scan, blank, sql, i + 1, i + 1, Top)
    else
      var (n, mode') := Token(scan, sql[i..], mode);
      SplitFrom(scan, blank, sql, start, i + n, mode')
  }

  /** The pieces still to be cut, blank ones included. */
  function Upcoming(scan: Scanner, sql: string, start: nat, i: nat, mode: Mode): seq<string>
    requires start <= i <= |sql|
  {
    Prepend(sql[start..i], Pieces(scan, sql[i..], mode))
  }

  lemma PrependNothing(ps: seq<string>)
    requires ps != []
    ensures Prepend("", ps) == ps
  {
    assert "" + ps[0] == ps[0];
  }

  lemma PrependTwice(p: string, q: string, ps: seq<string>)
    requires ps != []
    ensures Prepend(p, Prepend(q, ps)) == Prepend(p + q, ps)
  {
    assert p + (q + ps[0]) == (p + q) + ps[0];
  }

  /** Moving past one token leaves the pieces as they were. */
  lemma PastToken(scan: Scanner, sql: string, start: nat, i: nat, mode: Mode)
    requires start <= i < |sql| && !(sql[i] == ';' && mode.Top?)
    ensures var (n, mode') := Token(scan, sql[i..], mode);
            i + n <= |sql| && Upcoming(scan, sql, start, i + n, mode') == Upcoming(scan, sql, start, i, mode)
  {
    var (n, mode') := Token(scan, sql[i..], mode);
    assert sql[i..][..n] == sql[i..i + n] && sql[i..][n..] == sql[i + n..];
    PrependTwice(sql[start..i], sql[i..i + n], Pieces(scan, sql[i + n..], mode'));
    assert sql[start..i] + sql[i..i + n] == sql[start..i + n];
  }

  /** At a top-level semicolon the current piece is complete. */
  lemma AtCutPoint(scan: Scanner, blank: string -> bool, sql: string, start: nat, i: nat)
    requires start <= i < |sql| && sql[i] == ';'
    ensures NonBlank(blank, Upcoming(scan, sql, start, i, Top))
         == Kept(blank, sql[start..i]) + NonBlank(blank, Upcoming(scan, sql, i + 1, i + 1, Top))
  {
    var ps := Pieces(scan, sql[i + 1..], Top);
    assert sql[i..][1..] == sql[i + 1..] && sql[start..i] + "" == sql[start..i] && sql[i + 1..i + 1] == "";
    assert ([""] + ps)[1..] == ps;
    PrependNothing(ps);
    assert Upcoming(scan, sql, start, i, Top) == [sql[start..i]] + ps;
    assert ([sql[start..i]] + ps)[1..] == ps;
  }

  lemma AtEnd(scan: Scanner, blank: string -> bool, sql: string, start: nat, mode: Mode)
    requires start <= |sql|
    ensures NonBlank(blank, Upcoming(scan, sql, start, |sql|, mode)) == Kept(blank, sql[start..])
  {
    assert sql[start..|sql|] + "" == sql[start..];
    assert Upcoming(scan, sql, start, |sql|, mode) == [sql[start..]];
    assert [sql[start..]][1..] == [];
  }

  type Remainder = (nat, nat, Mode) -> seq<string>

  /** `rest` obeys the recurrence of `SplitFrom` at one point. */
  predicate ObeysAt(scan: Scanner, blank: string -> bool, sql: string, rest: Remainder, start: nat, i: nat, mode: Mode)
    requires start <= i <= |sql|
  {
    rest(start, i, mode) ==
    if i == |sql| then Kept(blank, sql[start..])
    else if sql[i] == ';' && mode.Top? then Kept(blank, sql[start..i]) + rest(i + 1, i + 1, Top)
    else rest(start, i + Token(scan, sql[i..], mode).0, Token(scan, sql[i..], mode).1)
  }

  ghost predicate Obeys(scan: Scanner, blank: string -> bool, sql: string, rest: Remainder) {
    forall start, i, mode :: 0 <= start <= i <= |sql| ==> ObeysAt(scan, blank, sql, rest, start, i, mode)
  }

  lemma {:induction false} RecurrenceIsUnique(scan: Scanner, blank: string -> bool, sql: string, rest: Remainder,
      start: nat, i: nat, mode: Mode)
    requires start <= i <= |sql| && Obeys(scan, blank, sql, rest)
    ensures SplitFrom(scan, blank, sql, start, i, mode) == rest(start, i, mode)
    decreases |sql| - i
  {
    assert ObeysAt(scan, blank, sql, rest, start, i, mode);
    if i < |sql| {
      if sql[i] == ';' && mode.Top? {
        RecurrenceIsUnique(scan, blank, sql, rest, i + 1, i + 1, Top);
      } else {
        var (n, mode') := Token(scan, sql[i..], mode);
        RecurrenceIsUnique(scan, blank, sql, rest, start, i + n, mode');
      }
    }
  }

  function NonBlankUpcoming(scan: Scanner, blank: string -> bool, sql: string): Remainder {
    (start: nat, i: nat, mode: Mode) =>
      if start <= i <= |sql| then NonBlank(blank, Upcoming(scan, sql, start, i, mode)) else []
  }

  lemma ObeysAtEnd(scan: Scanner, blank: string -> bool, sql: string, start: nat, mode: Mode)
    requires start <= |sql|
    ensures ObeysAt(scan, blank, sql, NonBlankUpcoming(scan, blank, sql), start, |sql|, mode)
  {
    AtEnd(scan, blank, sql, start, mode);
  }

  lemma ObeysAtCut(scan: Scanner, blank: string -> bool, sql: string, start: nat, i: nat)
    requires start <= i < |sql| && sql[i] == ';'
    ensures ObeysAt(scan, blank, sql, NonBlankUpcoming(scan, blank, sql), start, i, Top)
  {
    AtCutPoint(scan, blank, sql, start, i);
  }

  lemma SameRest(scan: Scanner, blank: string -> bool, sql: string, rest: Remainder, start: nat, i: nat, mode: Mode)
    requires start <= i < |sql| && !(sql[i] == ';' && mode.Top?)
    requires rest(start, i, mode) == rest(start, i + Token(scan, sql[i..], mode).0, Token(scan, sql[i..], mode).1)
    ensures ObeysAt(scan, blank, sql, rest, start, i, mode)
  {
  }

  lemma ObeysPastToken(scan: Scanner, blank: string -> bool, sql: string, start: nat, i: nat, mode: Mode)
    requires start <= i < |sql| && !(sql[i] == ';' && mode.Top?)
    ensures ObeysAt(scan, blank, sql, NonBlankUpcoming(scan, blank, sql), start, i, mode)
  {
    var rest := NonBlankUpcoming(scan, blank, sql);
    var (n, mode') := Token(scan, sql[i..], mode);
    assert rest(start, i, mode) == rest(start, i + n, mode') by { PastToken(scan, sql, start, i, mode); }
    SameRest(scan, blank, sql, rest, start, i, mode);
  }

  lemma UpcomingAtStart(scan: Scanner, sql: string)
    ensures Upcoming(scan, sql, 0, 0, Top) == Pieces(scan, sql, Top)
  {
    assert sql[0..] == sql && sql[0..0] == "";
    PrependNothing(Pieces(scan, sql, Top));
  }

  /** The loop pushes exactly the non-blank pieces. */
  lemma LoopCutsPieces(scan: Scanner, blank: string -> bool, sql: string)
    ensures SplitFrom(scan, blank, sql, 0, 0, Top) == NonBlank(blank, Pieces(scan, sql, Top))
  {
    var rest := NonBlankUpcoming(scan, blank, sql);
    forall start, i, mode | 0 <= start <= i <= |sql| ensures ObeysAt(scan, blank, sql, rest, start, i, mode) {
      if i == |sql| {
        ObeysAtEnd(scan, blank, sql, start, mode);
      } else if sql[i] == ';' && mode.Top? {
        ObeysAtCut(scan, blank, sql, start, i);
      } else {
        ObeysPastToken(scan, blank, sql, start, i, mode);
      }
    }
    RecurrenceIsUnique(scan, blank, sql, rest, 0, 0, Top);
    UpcomingAtStart(scan, sql);
  }

  // ----- Cutting and joining are inverse -----

  function Join(ps: seq<string>): string
    requires ps != []
  {
    if |ps| == 1 then ps[0] else ps[0] + ";" + Join(ps[1..])
  }

  lemma JoinPrepend(p: string, ps: seq<string>)
    requires ps != []
    ensures Join(Prepend(p, ps)) == p + Join(ps)
  {
    if |ps| > 1 {
      assert Prepend(p, ps)[1..] == ps[1..];
      assert (p + ps[0]) + ";" + Join(ps[1..]) == p + (ps[0] + ";" + Join(ps[1..]));
    }
  }

  lemma JoinAfterCut(ps: seq<string>)
    requires ps != []
    ensures Join([""] + ps) == ";" + Join(ps)
  {
    assert ([""] + ps)[1..] == ps;
    assert "" + ";" + Join(ps) == ";" + Join(ps);
  }

  lemma HeadTail(s: string, n: nat)
    requires n <= |s|
    ensures s[..n] + s[n..] == s
    ensures s != "" ==> [s[0]] + s[1..] == s
  {
  }

  /** Nothing is lost or reordered: the pieces, joined by semicolons, are the text. */
  lemma {:induction false} PiecesCoverText(scan: Scanner, s: string, mode: Mode)
    ensures Join(Pieces(scan, s, mode)) == s
    decreases |s|
  {
    if s != "" {
      if s[0] == ';' && mode.Top? {
        PiecesCoverText(scan, s[1..], Top);
        JoinAfterCut(Pieces(scan, s[1..], Top));
        HeadTail(s, 1);
      } else {
        var (n, mode') := Token(scan, s, mode);
        PiecesCoverText(scan, s[n..], mode');
        JoinPrepend(s[..n], Pieces(scan, s[n..], mode'));
        HeadTail(s, n);
      }
    }
  }

  /** The mode at the end of `s`, or None if a top-level semicolon is met. */
  function Final(scan: Scanner, s: string, mode: Mode): Option<Mode>
    decreases |s|
  {
    if s == "" then Some(mode)
    else if s[0] == ';' && mode.Top? then None
    else
      var (n, mode') := Token(scan, s, mode);
      Final(scan, s[n..], mode')
  }

  /** Quotes balanced, and no semicolon outside them. */
  predicate Closed(scan: Scanner, s: string) {
    Final(scan, s, Top) == Some(Top)
  }

  /** A list of statements: all closed, except that the last may end inside a quote. */
  predicate Statements(scan: Scanner, ps: seq<string>) {
    && ps != []
    && (forall i | 0 <= i < |ps| - 1 :: Closed(scan, ps[i]))
    && Final(scan, ps[|ps| - 1], Top).Some?
  }

  /** `t` is the end of the text, or goes on after a cut. */
  predicate AtCut(t: string) {
    t == "" || t[0] == ';'
  }

  predicate SameToken(scan: Scanner, s: string, t: string, mode: Mode)
    requires s != ""
  {
    Token(scan, s + t, mode) == Token(scan, s, mode)
  }

  /** The scanner's next move depends on nothing from the next cut on. */
  ghost predicate Local(scan: Scanner) {
    forall s, t, mode :: s != "" && AtCut(t) ==> SameToken(scan, s, t, mode)
  }

  lemma SliceAppend(s: string, t: string, n: nat)
    requires n <= |s|
    ensures (s + t)[..n] == s[..n] && (s + t)[n..] == s[n..] + t && s[..n] + s[n..] == s
  {
  }

  lemma {:induction false} PiecesStopAtCut(scan: Scanner, s: string, t: string, mode: Mode)
    requires Local(scan) && AtCut(t) && Final(scan, s, mode).Some?
    ensures Pieces(scan, s + t, mode) == Prepend(s, Pieces(scan, t, Final(scan, s, mode).value))
    decreases |s|
  {
    if s == "" {
      assert s + t == t;
      PrependNothing(Pieces(scan, t, mode));
    } else {
      assert SameToken(scan, s, t, mode);
      var (n, mode') := Token(scan, s, mode);
      PiecesStopAtCut(scan, s[n..], t, mode');
      SliceAppend(s, t, n);
      PrependTwice(s[..n], s[n..], Pieces(scan, t, Final(scan, s, mode).value));
    }
  }

  /** A closed statement before a semicolon is the first piece. */
  lemma FirstPiece(scan: Scanner, p: string, rest: string)
    requires Local(scan) && Closed(scan, p)
    ensures Pieces(scan, p + ";" + rest, Top) == [p] + Pieces(scan, rest, Top)
  {
    var t := ";" + rest;
    var ps := Pieces(scan, rest, Top);
    assert t[1..] == rest;
    PiecesStopAtCut(scan, p, t, Top);
    assert p + t == p + ";" + rest;
    assert ([""] + ps)[1..] == ps && p + "" == p;
  }

  lemma OnlyPiece(scan: Scanner, p: string)
    requires Local(scan) && Final(scan, p, Top).Some?
    ensures Pieces(scan, p, Top) == [p]
  {
    PiecesStopAtCut(scan, p, "", Top);
    assert p + "" == p;
  }

  lemma {:induction false} JoinThenPieces(scan: Scanner, ps: seq<string>)
    requires Local(scan) && Statements(scan, ps)
    ensures Pieces(scan, Join(ps), Top) == ps
  {
    if |ps| == 1 {
      OnlyPiece(scan, ps[0]);
    } else {
      assert Closed(scan, ps[0]);
      JoinThenPieces(scan, ps[1..]);
      FirstPiece(scan, ps[0], Join(ps[1..]));
    }
  }

  /** What the first piece of a text in some mode looks like, and the pieces after it. */
  ghost predicate WellCut(scan: Scanner, s: string, mode: Mode, ps: seq<string>)
    requires ps != []
  {
    && Final(scan, ps[0], mode).Some?
    && (|ps| > 1 ==> Final(scan, ps[0], mode) == Some(Top) && Statements(scan, ps[1..]))
    && exists t :: AtCut(t) && s == ps[0] + t
  }

  lemma StatementsCons(scan: Scanner, s: string, ps: seq<string>)
    requires ps != [] && WellCut(scan, s, Top, ps)
    ensures Statements(scan, ps)
  {
    assert forall i | 1 <= i < |ps| :: ps[i] == ps[1..][i - 1];
  }

  lemma WellCutToken(scan: Scanner, s: string, mode: Mode, qs: seq<string>)
    requires Local(scan) && s != "" && !(s[0] == ';' && mode.Top?) && qs != []
    requires WellCut(scan, s[Token(scan, s, mode).0..], Token(scan, s, mode).1, qs)
    ensures WellCut(scan, s, mode, Prepend(s[..Token(scan, s, mode).0], qs))
  {
    var (n, mode') := Token(scan, s, mode);
    var t :| AtCut(t) && s[n..] == qs[0] + t;
    var p := s[..n] + qs[0];
    assert s == p + t;
    assert SameToken(scan, p, t, mode);
    assert p[n..] == qs[0] && p[0] == s[0];
    assert Prepend(s[..n], qs)[1..] == qs[1..];
  }

  /** Every piece but the last ends outside any quote. */
  lemma {:induction false} PiecesAreWellCut(scan: Scanner, s: string, mode: Mode)
    requires Local(scan)
    ensures WellCut(scan, s, mode, Pieces(scan, s, mode))
    decreases |s|
  {
    if s == "" {
      assert s == "" + "" && AtCut("");
    } else if s[0] == ';' && mode.Top? {
      var rest := Pieces(scan, s[1..], Top);
      PiecesAreWellCut(scan, s[1..], Top);
      StatementsCons(scan, s[1..], rest);
      assert ([""] + rest)[1..] == rest;
      assert AtCut(s) && s == "" + s;
    } else {
      var (n, mode') := Token(scan, s, mode);
      PiecesAreWellCut(scan, s[n..], mode');
      WellCutToken(scan, s, mode, Pieces(scan, s[n..], mode'));
    }
  }

  /** Cutting inverts joining exactly on lists of statements. */
  lemma PiecesInvertJoin(scan: Scanner, ps: seq<string>)
    requires Local(scan) && ps != []
    ensures Pieces(scan, Join(ps), Top) == ps <==> Statements(scan, ps)
  {
    if Statements(scan, ps) {
      JoinThenPieces(scan, ps);
    }
    if Pieces(scan, Join(ps), Top) == ps {
      PiecesAreWellCut(scan, Join(ps), Top);
      StatementsCons(scan, Join(ps), ps);
    }
  }

  lemma {:induction false} NonBlankKeepsAll(blank: string -> bool, ps: seq<string>)
    requires forall i | 0 <= i < |ps| :: !blank(ps[i])
    ensures NonBlank(blank, ps) == ps
  {
    if ps != [] {
      NonBlankKeepsAll(blank, ps[1..]);
    }
  }

  /** Joining non-blank closed statements and cutting gives them back, and no statements join to no text. */
  lemma JoinThenSplit(scan: Scanner, blank: string -> bool, stmts: seq<string>)
    requires Local(scan) && blank("")
    requires forall i | 0 <= i < |stmts| :: Closed(scan, stmts[i]) && !blank(stmts[i])
    ensures NonBlank(blank, Pieces(scan, if stmts == [] then "" else Join(stmts), Top)) == stmts
  {
    if stmts == [] {
      assert Pieces(scan, "", Top) == [""] && [""][1..] == [];
    } else {
      JoinThenPieces(scan, stmts);
      NonBlankKeepsAll(blank, stmts);
    }
  }

  // ----- Quotes are atomic -----

  predicate QuoteTokenAt(scan: Scanner, tag: Tag, s: string)
    requires s != ""
  {
    Token(scan, s, Quoted(tag)) == if tag <= s then (|tag|, Top) else (1, Quoted(tag))
  }

  /** Inside its quote the scanner looks for the tag and nothing else. */
  ghost predicate ClosesOn(scan: Scanner, tag: Tag) {
    forall s :: s != "" ==> QuoteTokenAt(scan, tag, s)
  }

  /** The closing tag is the first occurrence of the tag after `body` begins. */
  predicate ClosesAt(tag: Tag, body: string) {
    forall k | 0 <= k < |body| :: !(tag <= (body + tag)[k..])
  }

  lemma StepInQuote(scan: Scanner, tag: Tag, c: char, s: string)
    requires QuoteTokenAt(scan, tag, [c] + s) && !(tag <= [c] + s)
    ensures Pieces(scan, [c] + s, Quoted(tag)) == Prepend([c], Pieces(scan, s, Quoted(tag)))
  {
    assert ([c] + s)[..1] == [c] && ([c] + s)[1..] == s;
  }

  lemma StepOverTag(scan: Scanner, tag: Tag, rest: string)
    requires QuoteTokenAt(scan, tag, tag + rest)
    ensures Pieces(scan, tag + rest, Quoted(tag)) == Prepend(tag, Pieces(scan, rest, Top))
  {
    assert (tag + rest)[..|tag|] == tag && (tag + rest)[|tag|..] == rest;
  }

  lemma StepIntoQuote(scan: Scanner, tag: Tag, s: string)
    requires Token(scan, tag + s, Top) == (|tag|, Quoted(tag)) && tag[0] != ';'
    ensures Pieces(scan, tag + s, Top) == Prepend(tag, Pieces(scan, s, Quoted(tag)))
  {
    assert (tag + s)[..|tag|] == tag && (tag + s)[|tag|..] == s;
  }

  lemma NoEarlyClose(tag: Tag, body: string, rest: string)
    requires body != "" && ClosesAt(tag, body)
    ensures !(tag <= body + tag + rest) && ClosesAt(tag, body[1..])
  {
    assert !(tag <= (body + tag)[0..]);
    assert (body + tag)[0..] == body + tag;
    assert (body + tag + rest)[..|tag|] == (body + tag)[..|tag|];
    forall k | 0 <= k < |body[1..]| ensures !(tag <= (body[1..] + tag)[k..]) {
      assert (body[1..] + tag)[k..] == (body + tag)[k + 1..];
    }
  }

  lemma Regroup(a: string, b: string, c: string, d: string)
    ensures a + b + c + d == a + (b + c + d) && a + (b + c) == a + b + c
  {
  }

  lemma {:induction false} BodyIsSkipped(scan: Scanner, tag: Tag, body: string, rest: string)
    requires ClosesOn(scan, tag) && ClosesAt(tag, body)
    ensures Pieces(scan, body + tag + rest, Quoted(tag)) == Prepend(body + tag, Pieces(scan, rest, Top))
    decreases |body|
  {
    if body == "" {
      assert body + tag == tag;
      assert QuoteTokenAt(scan, tag, tag + rest);
      StepOverTag(scan, tag, rest);
    } else {
      var c, b := [body[0]], body[1..];
      NoEarlyClose(tag, body, rest);
      BodyIsSkipped(scan, tag, b, rest);
      HeadTail(body, 1);
      Regroup(c, b, tag, rest);
      assert QuoteTokenAt(scan, tag, c + (b + tag + rest));
      StepInQuote(scan, tag, body[0], b + tag + rest);
      PrependTwice(c, b + tag, Pieces(scan, rest, Top));
    }
  }

  /** A quoted block is never cut, whatever it contains. */
  lemma BlockIsAtomic(scan: Scanner, tag: Tag, body: string, rest: string)
    requires ClosesOn(scan, tag) && ClosesAt(tag, body) && tag[0] != ';'
    requires forall s :: Token(scan, tag + s, Top) == (|tag|, Quoted(tag))
    ensures Pieces(scan, tag + body + tag + rest, Top) == Prepend(tag + body + tag, Pieces(scan, rest, Top))
  {
    Regroup(tag, body, tag, rest);
    StepIntoQuote(scan, tag, body + tag + rest);
    BodyIsSkipped(scan, tag, body, rest);
    PrependTwice(tag, body + tag, Pieces(scan, rest, Top));
  }
}
