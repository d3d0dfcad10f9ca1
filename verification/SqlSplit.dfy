/**
 Splitting migration SQL into statements (`src/db/schema.rs`), with dollar-quoted blocks
 kept whole.

 The source walks bytes; `$` and `;` are single bytes in UTF-8 and never part of another
 character, so the model walks characters.  Which characters count as alphanumeric or
 as white space is a parameter; all that matters is that the semicolon is not alphanumeric.
 */
module SqlSplit {
  import opened Prelude
  import opened Filters
  import opened SqlCuts

  datatype Classes = Classes(alphanumeric: char -> bool, space: char -> bool)

  type CharClass = c: Classes | !c.alphanumeric(';') witness Classes(c => false, c => false)

  /** The length of the dollar tag that `s` starts with, looking from position `i`; 0 if none. */
  function TagLength(cc: CharClass, s: string, i: nat): nat
    requires 1 <= i <= |s|
    decreases |s| - i
  {
    if i == |s| then 0
    else if s[i] == '$' then i + 1
    else if cc.alphanumeric(s[i]) || s[i] == '_' then TagLength(cc, s, i + 1)
    else 0
  }

  /** A tag ends where it is cut off, and holds no semicolon. */
  lemma {:induction false} TagShape(cc: CharClass, s: string, t: string, i: nat)
    requires 1 <= i <= |s| && AtCut(t)
    ensures TagLength(cc, s + t, i) == TagLength(cc, s, i)
    ensures var n := TagLength(cc, s, i); n == 0 || (i + 1 <= n <= |s| && ';' !in s[i..n])
    decreases |s| - i
  {
    if i < |s| {
      TagShape(cc, s, t, i + 1);
      var n := TagLength(cc, s, i + 1);
      if n > 0 {
        assert s[i..n] == [s[i]] + s[i + 1..n];
      }
    }
  }

  function DollarTag(cc: CharClass, s: string): Option<Tag> {
    if s == "" || s[0] != '$' then None
    else
      TagShape(cc, s, "", 1);
      var n := TagLength(cc, s, 1);
      if n == 0 then None else (assert s[..n] == [s[0]] + s[1..n]; Some(s[..n]))
  }

  method ReadDollarTag(cc: CharClass, sql: string, pos: nat) returns (tag: Option<Tag>)
    requires pos <= |sql|
    ensures tag == DollarTag(cc, sql[pos..])
  {
    var rest := sql[pos..];
    if rest == "" || rest[0] != '$' { return None; }
    TagShape(cc, rest, "", 1);
    for j := 1 to |rest|
      invariant TagLength(cc, rest, j) == TagLength(cc, rest, 1)
    {
      if rest[j] == '$' {
        assert rest[..j + 1] == [rest[0]] + rest[1..j + 1];
        return Some(rest[..j + 1]);
      }
      if !cc.alphanumeric(rest[j]) && rest[j] != '_' { return None; }
    }
    return None;
  }

  /** How far the next token reaches, and the mode after it. */
  function Advance(cc: CharClass, s: string, mode: Mode): (nat, Mode) {
    match mode
    case Top =>
      var tag := DollarTag(cc, s);
      if tag.Some? then (|tag.value|, Quoted(tag.value)) else (1, Top)
    case Quoted(tag) =>
      if s != "" && s[0] == '$' && tag <= s then (|tag|, Top) else (1, mode)
  }

  function DollarScanner(cc: CharClass): Scanner {
    (s, mode) => Advance(cc, s, mode)
  }

  predicate FollowsAt(cc: CharClass, scan: Scanner, s: string, mode: Mode)
    requires s != ""
  {
    Token(scan, s, mode) == Advance(cc, s, mode)
  }

  /** `scan` is the dollar-quote scanner. */
  ghost predicate Follows(cc: CharClass, scan: Scanner) {
    forall s, mode :: s != "" ==> FollowsAt(cc, scan, s, mode)
  }

  lemma ScannerFollows(cc: CharClass)
    ensures Follows(cc, DollarScanner(cc))
  {
    forall s, mode | s != "" ensures FollowsAt(cc, DollarScanner(cc), s, mode) {
      if mode.Top? && s[0] == '$' {
        TagShape(cc, s, "", 1);
      }
    }
  }

  /** The dollar-quote part of the loop: open a quote, close it, or move on by one character. */
  method NextToken(cc: CharClass, ghost scan: Scanner, sql: string, i: nat, mode: Mode) returns (n: nat, mode': Mode)
    requires i < |sql| && Follows(cc, scan)
    ensures (n, mode') == Token(scan, sql[i..], mode)
  {
    assert FollowsAt(cc, scan, sql[i..], mode);
    if sql[i] == '$' && mode.Top? {
      var tag := ReadDollarTag(cc, sql, i);
      if tag.Some? { return |tag.value|, Quoted(tag.value); }
    } else if sql[i] == '$' {
      if mode.tag <= sql[i..] { return |mode.tag|, Top; }
    }
    return 1, mode;
  }

  function Blank(cc: CharClass): string -> bool {
    (p: string) => forall i | 0 <= i < |p| :: cc.space(p[i])
  }

  function Split(cc: CharClass, s: string): seq<string> {
    NonBlank(Blank(cc), Pieces(DollarScanner(cc), s, Top))
  }

  method SplitSqlStatements(cc: CharClass, sql: string) returns (statements: seq<string>)
    ensures statements == Split(cc, sql)
  {
    ScannerFollows(cc);
    statements := CutStatements(cc, DollarScanner(cc), Blank(cc), sql);
    LoopCutsPieces(DollarScanner(cc), Blank(cc), sql);
  }

  method CutStatements(cc: CharClass, ghost scan: Scanner, blank: string -> bool, sql: string)
    returns (statements: seq<string>)
    requires Follows(cc, scan)
    ensures statements == SplitFrom(scan, blank, sql, 0, 0, Top)
  {
    statements := [];
    var start, i := 0, 0;
    var mode := Top;
    while i < |sql|
      invariant 0 <= start <= i <= |sql|
      invariant statements + SplitFrom(scan, blank, sql, start, i, mode) == SplitFrom(scan, blank, sql, 0, 0, Top)
      decreases |sql| - i
    {
      if sql[i] == ';' && mode.Top? {
        Associative(statements, Kept(blank, sql[start..i]), SplitFrom(scan, blank, sql, i + 1, i + 1, Top));
        statements := statements + Kept(blank, sql[start..i]);
        start := i + 1;
        i := i + 1;
      } else {
        var n, mode' := NextToken(cc, scan, sql, i, mode);
        i, mode := i + n, mode';
      }
    }
    statements := statements + Kept(blank, sql[start..]);
  }

  lemma AdvanceStopsAtCut(cc: CharClass, s: string, t: string, mode: Mode)
    requires s != "" && AtCut(t)
    ensures Advance(cc, s + t, mode) == Advance(cc, s, mode)
  {
    match mode {
      case Top =>
        TagShape(cc, s, t, 1);
        var n := TagLength(cc, s, 1);
        assert n > 0 ==> (s + t)[..n] == s[..n];
      case Quoted(tag) =>
        assert |s| < |tag| && t != "" ==> tag[|s|] in tag && tag[|s|] != (s + t)[|s|];
        assert |tag| <= |s| ==> (s + t)[..|tag|] == s[..|tag|];
    }
  }

  lemma ScannerIsLocal(cc: CharClass)
    ensures Local(DollarScanner(cc))
  {
    ScannerFollows(cc);
    forall s, t, mode | s != "" && AtCut(t) ensures SameToken(DollarScanner(cc), s, t, mode) {
      assert FollowsAt(cc, DollarScanner(cc), s, mode) && FollowsAt(cc, DollarScanner(cc), s + t, mode);
      AdvanceStopsAtCut(cc, s, t, mode);
    }
  }

  /** Some character is not white space. */
  predicate Visible(cc: CharClass, s: string) {
    exists i | 0 <= i < |s| :: !cc.space(s[i])
  }

  lemma {:induction false} NonBlankIsFilter(cc: CharClass, ps: seq<string>)
    ensures NonBlank(Blank(cc), ps) == Filter(ps, (p: string) => Visible(cc, p))
  {
    if ps != [] {
      FilterCons(ps, (p: string) => Visible(cc, p));
      NonBlankIsFilter(cc, ps[1..]);
    }
  }

  /**
   Splitting inverts joining: the ';'-join of non-blank statements with balanced dollar
   quotes and no top-level semicolon splits into exactly those statements.
   */
  lemma SplitInvertsJoin(cc: CharClass, stmts: seq<string>)
    requires forall i | 0 <= i < |stmts| :: Closed(DollarScanner(cc), stmts[i]) && Visible(cc, stmts[i])
    ensures Split(cc, if stmts == [] then "" else Join(stmts)) == stmts
  {
    ScannerIsLocal(cc);
    JoinThenSplit(DollarScanner(cc), Blank(cc), stmts);
  }

  /**
   For arbitrary text: the statements are the non-blank ones among pieces that, joined by
   semicolons, are the text; every piece but the last has its dollar quotes balanced and
   none has a semicolon outside them.
   */
  lemma SplitDropsOnlyBlanks(cc: CharClass, s: string) returns (pieces: seq<string>)
    ensures pieces != [] && Join(pieces) == s && Split(cc, s) == Filter(pieces, (p: string) => Visible(cc, p))
    ensures Statements(DollarScanner(cc), pieces)
  {
    pieces := Pieces(DollarScanner(cc), s, Top);
    ScannerIsLocal(cc);
    PiecesCoverText(DollarScanner(cc), s, Top);
    PiecesInvertJoin(DollarScanner(cc), pieces);
    NonBlankIsFilter(cc, pieces);
  }

  lemma {:induction false} PlainPieces(cc: CharClass, scan: Scanner, s: string)
    requires Follows(cc, scan) && '$' !in s
    ensures forall i | 0 <= i < |Pieces(scan, s, Top)| :: ';' !in Pieces(scan, s, Top)[i]
  {
    if s != "" {
      PlainPieces(cc, scan, s[1..]);
      var rest := Pieces(scan, s[1..], Top);
      if s[0] != ';' {
        assert FollowsAt(cc, scan, s, Top);
        assert Token(scan, s, Top) == (1, Top);
        assert Pieces(scan, s, Top) == Prepend(s[..1], rest);
        assert ';' !in s[..1] + rest[0];
      }
    }
  }

  /** Text without a dollar is cut at every semicolon. */
  lemma PlainTextIsCutEverywhere(cc: CharClass, s: string) returns (pieces: seq<string>)
    requires '$' !in s
    ensures pieces != [] && Join(pieces) == s && forall i | 0 <= i < |pieces| :: ';' !in pieces[i]
    ensures Split(cc, s) == Filter(pieces, (p: string) => Visible(cc, p))
  {
    ScannerFollows(cc);
    PlainPieces(cc, DollarScanner(cc), s);
    pieces := Pieces(DollarScanner(cc), s, Top);
    PiecesCoverText(DollarScanner(cc), s, Top);
    NonBlankIsFilter(cc, pieces);
  }

  // ----- Dollar quotes are atomic -----

  predicate IsTag(cc: CharClass, tag: Tag) {
    && tag[0] == '$' && tag[|tag| - 1] == '$'
    && forall i | 1 <= i < |tag| - 1 :: tag[i] != '$' && (cc.alphanumeric(tag[i]) || tag[i] == '_')
  }

  lemma {:induction false} TagIsRead(cc: CharClass, tag: Tag, rest: string, i: nat)
    requires IsTag(cc, tag) && 1 <= i < |tag|
    ensures TagLength(cc, tag + rest, i) == |tag|
    decreases |tag| - i
  {
    if i < |tag| - 1 {
      TagIsRead(cc, tag, rest, i + 1);
    }
  }

  lemma {:induction false} TagLengthShape(cc: CharClass, s: string, i: nat)
    requires 1 <= i <= |s|
    ensures var n := TagLength(cc, s, i);
            n > 0 ==> i < n <= |s| && s[n - 1] == '$'
                      && forall j | i <= j < n - 1 :: s[j] != '$' && (cc.alphanumeric(s[j]) || s[j] == '_')
    decreases |s| - i
  {
    if i < |s| {
      TagLengthShape(cc, s, i + 1);
    }
  }

  /**
   A dollar tag is read if and only if the text starts with one: letters, digits or underscores between two dollars.
   */
  lemma DollarTagIff(cc: CharClass, s: string, tag: Tag)
    ensures DollarTag(cc, s) == Some(tag) <==> IsTag(cc, tag) && tag <= s
  {
    if IsTag(cc, tag) && tag <= s {
      assert s == tag + s[|tag|..];
      TagIsRead(cc, tag, s[|tag|..], 1);
      assert s[..|tag|] == tag;
    }
    if DollarTag(cc, s) == Some(tag) {
      TagLengthShape(cc, s, 1);
    }
  }

  lemma TagOpens(cc: CharClass, scan: Scanner, tag: Tag, s: string)
    requires Follows(cc, scan) && IsTag(cc, tag)
    ensures Token(scan, tag + s, Top) == (|tag|, Quoted(tag))
  {
    assert FollowsAt(cc, scan, tag + s, Top);
    TagIsRead(cc, tag, s, 1);
    assert (tag + s)[..|tag|] == tag;
  }

  lemma TagCloses(cc: CharClass, scan: Scanner, tag: Tag)
    requires Follows(cc, scan) && tag[0] == '$'
    ensures ClosesOn(scan, tag)
  {
    forall s | s != "" ensures QuoteTokenAt(scan, tag, s) {
      assert FollowsAt(cc, scan, s, Quoted(tag));
      assert tag <= s ==> s[0] == tag[0];
    }
  }

  /** No cut falls inside a dollar-quoted block, whatever it contains. */
  lemma QuotedBlockIsAtomic(cc: CharClass, tag: Tag, body: string, rest: string)
    requires IsTag(cc, tag) && ClosesAt(tag, body)
    ensures Pieces(DollarScanner(cc), tag + body + tag + rest, Top)
         == Prepend(tag + body + tag, Pieces(DollarScanner(cc), rest, Top))
  {
    ScannerFollows(cc);
    TagCloses(cc, DollarScanner(cc), tag);
    forall s ensures Token(DollarScanner(cc), tag + s, Top) == (|tag|, Quoted(tag)) {
      TagOpens(cc, DollarScanner(cc), tag, s);
    }
    BlockIsAtomic(DollarScanner(cc), tag, body, rest);
  }
}
