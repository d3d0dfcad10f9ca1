/**
 The tamper-evident hash chain of the audit trail (`src/audit/mod.rs`): how a row is
 serialised and hashed, the verifier that re-walks the table, and what an accepted
 table proves about its rows.

 Text columns are their UTF-8 bytes.  The digest (SHA-256, or HMAC-SHA-256 under the
 integrity key, hex-encoded) is a parameter of every member; the only thing known of it
 is the shape of its results.
 */
module AuditChain {
  import opened Prelude

  const RS: byte := 0x1e

  /** 32 digest bytes in lowercase hex. */
  predicate IsHexDigest(h: Bytes) {
    |h| == 64 && forall c :: c in h ==> '0' as int <= c <= '9' as int || 'a' as int <= c <= 'f' as int
  }

  type HexDigest = h: Bytes | IsHexDigest(h) witness seq(64, i => '0' as int)

  type Digest = Bytes -> HexDigest

  datatype AuditRow = AuditRow(
    id: int,
    timestamp: Bytes,
    eventType: Bytes,
    actor: Option<Bytes>,
    target: Option<Bytes>,
    detailJson: Option<Bytes>,
    sourceIp: Option<Bytes>,
    sessionId: Option<Bytes>,
    prevHash: Option<Bytes>,
    recordHash: Option<Bytes>)

  function OrEmpty(o: Option<Bytes>): Bytes {
    if o.Some? then o.value else []
  }

  /** The seven hashed columns, in hashing order, NULL read as empty. */
  function Fields(row: AuditRow): (fs: seq<Bytes>)
    ensures |fs| == 7
  {
    [row.timestamp, row.eventType, OrEmpty(row.actor), OrEmpty(row.target),
     OrEmpty(row.detailJson), OrEmpty(row.sourceIp), OrEmpty(row.sessionId)]
  }

  /** Every field followed by the separator. */
  function Terminated(fs: seq<Bytes>): Bytes {
    if fs == [] then [] else fs[0] + [RS] + Terminated(fs[1..])
  }

  method CanonicalBytes(row: AuditRow) returns (buf: Bytes)
    ensures buf == Terminated(Fields(row)) == CanonicalColumns(row)
  {
    buf := TerminateAll(Fields(row));
    CanonicalByColumns(row);
  }

  method TerminateAll(fs: seq<Bytes>) returns (buf: Bytes)
    ensures buf == Terminated(fs)
  {
    buf := [];
    for i := 0 to |fs|
      invariant buf + Terminated(fs[i..]) == Terminated(fs)
    {
      assert fs[i..][1..] == fs[i + 1..];
      Regroup(buf, fs[i], Terminated(fs[i + 1..]));
      buf := buf + fs[i];
      buf := buf + [RS];
    }
  }

  lemma Regroup(buf: Bytes, f: Bytes, rest: Bytes)
    ensures buf + (f + [RS] + rest) == buf + f + [RS] + rest
  {
  }

  /** What is fed to the digest for one row: the previous hash, then the fields. */
  function Preimage(prev: Option<Bytes>, fs: seq<Bytes>): Bytes {
    OrEmpty(prev) + [RS] + Terminated(fs)
  }

  function ChainHash(digest: Digest, prev: Option<Bytes>, fs: seq<Bytes>): Bytes {
    digest(Preimage(prev, fs))
  }

  /** The canonical bytes, column by column. */
  function CanonicalColumns(row: AuditRow): Bytes {
    row.timestamp + [0x1e] + (row.eventType + [0x1e]
    + (OrEmpty(row.actor) + [0x1e] + (OrEmpty(row.target) + [0x1e]
    + (OrEmpty(row.detailJson) + [0x1e] + (OrEmpty(row.sourceIp) + [0x1e]
    + (OrEmpty(row.sessionId) + [0x1e] + []))))))
  }

  lemma TerminatedFrom(fs: seq<Bytes>, i: nat)
    requires i < |fs|
    ensures Terminated(fs[i..]) == fs[i] + [0x1e] + Terminated(fs[i + 1..])
  {
    assert fs[i..][1..] == fs[i + 1..];
  }

  lemma CanonicalByColumns(row: AuditRow)
    ensures Terminated(Fields(row)) == CanonicalColumns(row)
  {
    var fs := Fields(row);
    assert fs[0..] == fs && fs[7..] == [];
    TerminatedFrom(fs, 6);
    TerminatedFrom(fs, 5);
    TerminatedFrom(fs, 4);
    TerminatedFrom(fs, 3);
    TerminatedFrom(fs, 2);
    TerminatedFrom(fs, 1);
    TerminatedFrom(fs, 0);
  }

  // ----- The verifier -----

  /** The hash a verifier expects row `i` to point back at. */
  function PrevOf(rows: seq<AuditRow>, i: nat): Option<Bytes>
    requires i <= |rows|
  {
    if i == 0 then None else rows[i - 1].recordHash
  }

  predicate Linked(rows: seq<AuditRow>, i: nat)
    requires i < |rows|
  {
    rows[i].prevHash == PrevOf(rows, i)
  }

  predicate Intact(digest: Digest, row: AuditRow) {
    row.recordHash == Some(ChainHash(digest, row.prevHash, Fields(row)))
  }

  /** A row is intact when its stored hash is the digest of the previous hash, the separator and the canonical bytes. */
  lemma IntactByColumns(digest: Digest, row: AuditRow)
    ensures Intact(digest, row)
            <==> row.recordHash == Some(digest(OrEmpty(row.prevHash) + [0x1e] + CanonicalColumns(row)))
  {
    CanonicalByColumns(row);
  }

  predicate RowOk(digest: Digest, rows: seq<AuditRow>, i: nat)
    requires i < |rows|
  {
    Linked(rows, i) && Intact(digest, rows[i])
  }

  predicate Accepts(digest: Digest, rows: seq<AuditRow>) {
    forall i | 0 <= i < |rows| :: RowOk(digest, rows, i)
  }

  datatype Defect = LinkageBroken | HashMismatch

  datatype ChainVerifyReport = ChainVerifyReport(
    total: nat, ok: bool, brokenAt: Option<int>, detail: Option<Defect>)

  /** `k` is the first row at which the walk stops, for the stated reason. */
  predicate FirstDefect(digest: Digest, rows: seq<AuditRow>, k: nat, defect: Defect) {
    && k < |rows|
    && Accepts(digest, rows[..k])
    && (defect == LinkageBroken <==> !Linked(rows, k))
    && (defect == HashMismatch ==> !Intact(digest, rows[k]))
  }

  /** What the report of a verification pass over `rows` says. */
  ghost predicate IsReport(digest: Digest, rows: seq<AuditRow>, report: ChainVerifyReport) {
    && report.total == |rows|
    && (report.ok <==> Accepts(digest, rows))
    && (report.ok ==> report.brokenAt == None && report.detail == None)
    && (!report.ok ==> report.detail.Some? &&
                       exists k: nat ::
                         FirstDefect(digest, rows, k, report.detail.value) && report.brokenAt == Some(rows[k].id))
  }

  method VerifyChain(digest: Digest, rows: seq<AuditRow>) returns (report: ChainVerifyReport)
    ensures IsReport(digest, rows, report)
  {
    var expectedPrev: Option<Bytes> := None;
    for i := 0 to |rows|
      invariant expectedPrev == PrevOf(rows, i)
      invariant forall j | 0 <= j < i :: RowOk(digest, rows, j)
    {
      var row := rows[i];
      assert Accepts(digest, rows[..i]) by { AcceptsPrefix(digest, rows, i); }
      if row.prevHash != expectedPrev {
        assert !RowOk(digest, rows, i) && FirstDefect(digest, rows, i, LinkageBroken);
        return ChainVerifyReport(|rows|, false, Some(row.id), Some(LinkageBroken));
      }
      var canonical := CanonicalBytes(row);
      var recomputed := digest(OrEmpty(row.prevHash) + [RS] + canonical);
      if row.recordHash != Some(recomputed) {
        assert !RowOk(digest, rows, i) && FirstDefect(digest, rows, i, HashMismatch);
        return ChainVerifyReport(|rows|, false, Some(row.id), Some(HashMismatch));
      }
      expectedPrev := row.recordHash;
    }
    return ChainVerifyReport(|rows|, true, None, None);
  }

  lemma AcceptsPrefix(digest: Digest, rows: seq<AuditRow>, n: nat)
    requires n <= |rows|
    requires forall j | 0 <= j < n :: RowOk(digest, rows, j)
    ensures Accepts(digest, rows[..n])
  {
    forall j | 0 <= j < n
      ensures RowOk(digest, rows[..n], j)
    {
      assert rows[..n][j] == rows[j] && PrevOf(rows[..n], j) == PrevOf(rows, j);
      assert RowOk(digest, rows, j);
    }
  }

  // ----- Serialisation: when the canonical bytes determine the fields -----

  predicate SeparatorFree(fs: seq<Bytes>) {
    forall i | 0 <= i < |fs| :: RS !in fs[i]
  }

  function Separators(b: Bytes): nat {
    if b == [] then 0 else (if b[0] == RS then 1 else 0) + Separators(b[1..])
  }

  lemma {:induction false} SeparatorsAppend(a: Bytes, b: Bytes)
    ensures Separators(a + b) == Separators(a) + Separators(b)
  {
    if a == [] {
      assert a + b == b;
    } else {
      assert (a + b)[1..] == a[1..] + b;
      SeparatorsAppend(a[1..], b);
    }
  }

  lemma {:induction false} NoSeparators(b: Bytes)
    ensures Separators(b) == 0 <==> RS !in b
  {
    if b != [] {
      NoSeparators(b[1..]);
      assert b == [b[0]] + b[1..];
    }
  }

  /** Counting separators: one per field, plus any inside fields. */
  lemma {:induction false} CountTerminated(fs: seq<Bytes>)
    ensures Separators(Terminated(fs)) >= |fs|
    ensures Separators(Terminated(fs)) == |fs| <==> SeparatorFree(fs)
  {
    if fs != [] {
      var rest := Terminated(fs[1..]);
      SeparatorsAppend(fs[0] + [RS], rest);
      SeparatorsAppend(fs[0], [RS]);
      assert Separators([RS]) == 1 by { assert [RS][1..] == []; }
      CountTerminated(fs[1..]);
      NoSeparators(fs[0]);
      assert fs == [fs[0]] + fs[1..];
      assert SeparatorFree(fs) <==> RS !in fs[0] && SeparatorFree(fs[1..]) by {
        if RS !in fs[0] && SeparatorFree(fs[1..]) {
          assert forall i | 1 <= i < |fs| :: fs[i] == fs[1..][i - 1];
        }
        if SeparatorFree(fs) {
          assert forall i | 0 <= i < |fs[1..]| :: fs[1..][i] == fs[i + 1];
        }
      }
    }
  }

  /** Splitting at the first separator is unambiguous. */
  lemma FirstSeparator(a: Bytes, x: Bytes, b: Bytes, y: Bytes)
    requires a + [RS] + x == b + [RS] + y
    requires RS !in a && RS !in b
    ensures a == b && x == y
  {
    var l, r := a + [RS] + x, b + [RS] + y;
    assert l[|a|] == RS && r[|b|] == RS;
    assert b == r[..|b|] && a == l[..|a|];
    assert a == l[..|a|] && b == r[..|b|];
    assert x == l[|a| + 1..] && y == r[|b| + 1..];
  }

  lemma {:induction false} TerminatedInjective(xs: seq<Bytes>, ys: seq<Bytes>)
    requires |xs| == |ys| && SeparatorFree(xs) && SeparatorFree(ys)
    requires Terminated(xs) == Terminated(ys)
    ensures xs == ys
  {
    if xs != [] {
      FirstSeparator(xs[0], Terminated(xs[1..]), ys[0], Terminated(ys[1..]));
      TerminatedInjective(xs[1..], ys[1..]);
      assert xs == [xs[0]] + xs[1..] && ys == [ys[0]] + ys[1..];
    }
  }

  /** A separator-free list of fields shares its serialisation with no other list of that length. */
  lemma TerminatedUnique(xs: seq<Bytes>, ys: seq<Bytes>)
    requires |xs| == |ys| && SeparatorFree(xs)
    requires Terminated(xs) == Terminated(ys)
    ensures xs == ys
  {
    CountTerminated(xs);
    CountTerminated(ys);
    TerminatedInjective(xs, ys);
  }

  lemma {:induction false} TerminatedAppend(xs: seq<Bytes>, ys: seq<Bytes>)
    ensures Terminated(xs + ys) == Terminated(xs) + Terminated(ys)
  {
    if xs == [] {
      assert xs + ys == ys;
    } else {
      assert (xs + ys)[1..] == xs[1..] + ys;
      TerminatedAppend(xs[1..], ys);
      assert xs[0] + [RS] + (Terminated(xs[1..]) + Terminated(ys))
          == (xs[0] + [RS] + Terminated(xs[1..])) + Terminated(ys);
    }
  }

  /** Two adjacent fields, the first holding a separator, serialise like a different pair. */
  lemma ShiftPair(u: Bytes, v: Bytes, w: Bytes)
    ensures Terminated([u + [RS] + v, w]) == Terminated([u, v + [RS] + w])
  {
    assert Terminated([w]) == w + [RS] by { assert [w][1..] == []; }
    assert Terminated([v + [RS] + w]) == v + [RS] + w + [RS] by { assert [v + [RS] + w][1..] == []; }
    assert [u + [RS] + v, w][1..] == [w] && [u, v + [RS] + w][1..] == [v + [RS] + w];
    assert u + [RS] + v + [RS] + (w + [RS]) == u + [RS] + (v + [RS] + w + [RS]);
  }

  function RowOf(fs: seq<Bytes>): (row: AuditRow)
    requires |fs| == 7
    ensures Fields(row) == fs
  {
    AuditRow(0, fs[0], fs[1], Some(fs[2]), Some(fs[3]), Some(fs[4]), Some(fs[5]), Some(fs[6]), None, None)
  }

  lemma SplitAtSeparator(f: Bytes) returns (u: Bytes, v: Bytes)
    requires RS in f
    ensures f == u + [RS] + v
  {
    var k :| 0 <= k < |f| && f[k] == RS;
    u, v := f[..k], f[k + 1..];
  }

  /** A row with a separator inside a field has a twin: other fields, same bytes. */
  lemma Twin(fs: seq<Bytes>, i: nat) returns (gs: seq<Bytes>)
    requires 2 <= |fs| && i < |fs| && RS in fs[i]
    ensures |gs| == |fs| && gs != fs && Terminated(gs) == Terminated(fs)
  {
    var u, v := SplitAtSeparator(fs[i]);
    var j := if i + 1 < |fs| then i else i - 1;
    var pre, post := fs[..j], fs[j + 2..];
    var old2, new2 := fs[j..j + 2], fs[j..j + 2];
    if j == i {
      new2 := [u, v + [RS] + fs[j + 1]];
      ShiftPair(u, v, fs[j + 1]);
    } else {
      new2 := [fs[j] + [RS] + u, v];
      ShiftPair(fs[j], u, v);
      assert fs[j + 1] == u + [RS] + v;
    }
    assert old2 == [fs[j], fs[j + 1]];
    gs := pre + new2 + post;
    assert fs == pre + old2 + post;
    TerminatedAppend(pre + old2, post);
    TerminatedAppend(pre + new2, post);
    TerminatedAppend(pre, old2);
    TerminatedAppend(pre, new2);
    assert gs[i] != fs[i];
  }

  ghost predicate CanonicallyUnique(row: AuditRow) {
    forall other: AuditRow :: Terminated(Fields(other)) == Terminated(Fields(row)) ==> Fields(other) == Fields(row)
  }

  /**
   The documentation promises that no field value can absorb an adjacent one.  That is
   so exactly for rows none of whose fields contains the separator byte.
   */
  lemma UniqueIffSeparatorFree(row: AuditRow)
    ensures CanonicallyUnique(row) <==> SeparatorFree(Fields(row))
  {
    if SeparatorFree(Fields(row)) {
      forall other: AuditRow | Terminated(Fields(other)) == Terminated(Fields(row))
        ensures Fields(other) == Fields(row)
      {
        TerminatedUnique(Fields(row), Fields(other));
      }
    } else {
      var i :| 0 <= i < 7 && RS in Fields(row)[i];
      var gs := Twin(Fields(row), i);
      assert Fields(RowOf(gs)) == gs;
    }
  }

  // ----- Tamper evidence -----

  function RowPreimage(row: AuditRow): Bytes {
    Preimage(row.prevHash, Fields(row))
  }

  /** The digest does not collide on the preimages of the rows of these two tables. */
  predicate CollisionFree(digest: Digest, a: seq<AuditRow>, b: seq<AuditRow>) {
    forall i, j | 0 <= i < |a| && 0 <= j < |b| :: NoCollision(digest, a, i, b, j)
  }

  predicate NoCollision(digest: Digest, a: seq<AuditRow>, i: nat, b: seq<AuditRow>, j: nat)
    requires i < |a| && j < |b|
  {
    digest(RowPreimage(a[i])) == digest(RowPreimage(b[j])) ==> RowPreimage(a[i]) == RowPreimage(b[j])
  }

  /** In an accepted table a row's back pointer is NULL exactly in the first row, and holds no separator. */
  lemma BackPointer(digest: Digest, rows: seq<AuditRow>, i: nat)
    requires Accepts(digest, rows) && i < |rows|
    ensures RS !in OrEmpty(rows[i].prevHash)
    ensures i == 0 <==> rows[i].prevHash == None
    ensures i == 0 <==> OrEmpty(rows[i].prevHash) == []
    ensures i > 0 ==> rows[i].prevHash == rows[i - 1].recordHash && rows[i].prevHash.Some?
  {
    assert RowOk(digest, rows, i);
    assert i > 0 ==> RowOk(digest, rows, i - 1);
  }

  /** Equal record hashes of accepted rows mean equal back pointers and equal serialised fields. */
  lemma EqualHashes(digest: Digest, a: seq<AuditRow>, i: nat, b: seq<AuditRow>, j: nat)
    requires Accepts(digest, a) && Accepts(digest, b) && CollisionFree(digest, a, b)
    requires i < |a| && j < |b| && a[i].recordHash == b[j].recordHash
    ensures OrEmpty(a[i].prevHash) == OrEmpty(b[j].prevHash)
    ensures Terminated(Fields(a[i])) == Terminated(Fields(b[j]))
    ensures i == 0 <==> j == 0
    ensures i > 0 && j > 0 ==> a[i - 1].recordHash == b[j - 1].recordHash
  {
    assert RowOk(digest, a, i) && RowOk(digest, b, j) && NoCollision(digest, a, i, b, j);
    BackPointer(digest, a, i);
    BackPointer(digest, b, j);
    FirstSeparator(OrEmpty(a[i].prevHash), Terminated(Fields(a[i])), OrEmpty(b[j].prevHash), Terminated(Fields(b[j])));
  }

  /** The hash that anchors a table: that of its last row. */
  function Tail(rows: seq<AuditRow>): Option<Bytes> {
    PrevOf(rows, |rows|)
  }

  /** Walking back from two equal hashes, both tables end at their first row together. */
  lemma {:induction false} HashesAgreeBackwards(digest: Digest, a: seq<AuditRow>, i: nat, b: seq<AuditRow>, j: nat)
    requires Accepts(digest, a) && Accepts(digest, b) && CollisionFree(digest, a, b)
    requires i < |a| && j < |b| && a[i].recordHash == b[j].recordHash
    ensures i == j
    ensures forall k | 0 <= k <= i :: a[k].recordHash == b[k].recordHash
  {
    EqualHashes(digest, a, i, b, j);
    if i > 0 {
      HashesAgreeBackwards(digest, a, i - 1, b, j - 1);
    }
  }

  /**
   One anchored hash fixes the whole trail.  Two accepted tables with the same last
   hash have the same length and the same hashes, and agree on every hashed field (NULL
   and empty being the same) of each row whose fields are separator-free in one of them.
   */
  lemma TailDeterminesTable(digest: Digest, a: seq<AuditRow>, b: seq<AuditRow>)
    requires Accepts(digest, a) && Accepts(digest, b) && CollisionFree(digest, a, b)
    requires Tail(a) == Tail(b)
    ensures |a| == |b|
    ensures forall i | 0 <= i < |a| :: a[i].recordHash == b[i].recordHash && a[i].prevHash == b[i].prevHash
    ensures forall i | 0 <= i < |a| && SeparatorFree(Fields(a[i])) :: Fields(a[i]) == Fields(b[i])
  {
    assert a != [] ==> RowOk(digest, a, |a| - 1);
    assert b != [] ==> RowOk(digest, b, |b| - 1);
    if a != [] {
      HashesAgreeBackwards(digest, a, |a| - 1, b, |b| - 1);
      forall i | 0 <= i < |a|
        ensures a[i].prevHash == b[i].prevHash
        ensures SeparatorFree(Fields(a[i])) ==> Fields(a[i]) == Fields(b[i])
      {
        RowsAgree(digest, a, b, i);
      }
    }
  }

  lemma RowsAgree(digest: Digest, a: seq<AuditRow>, b: seq<AuditRow>, i: nat)
    requires Accepts(digest, a) && Accepts(digest, b) && CollisionFree(digest, a, b)
    requires i < |a| && i < |b| && a[i].recordHash == b[i].recordHash
    ensures a[i].prevHash == b[i].prevHash
    ensures SeparatorFree(Fields(a[i])) ==> Fields(a[i]) == Fields(b[i])
  {
    EqualHashes(digest, a, i, b, i);
    BackPointer(digest, a, i);
    BackPointer(digest, b, i);
    if SeparatorFree(Fields(a[i])) {
      TerminatedUnique(Fields(a[i]), Fields(b[i]));
    }
  }

  /** Equal id, hashes and serialised fields. */
  predicate Twins(x: AuditRow, y: AuditRow) {
    && x.id == y.id && x.prevHash == y.prevHash && x.recordHash == y.recordHash
    && Terminated(Fields(x)) == Terminated(Fields(y))
  }

  /** Replacing a row by a twin goes unnoticed. */
  lemma TwinGoesUnnoticed(digest: Digest, a: seq<AuditRow>, i: nat, twin: AuditRow)
    requires Accepts(digest, a) && CollisionFree(digest, a, a) && i < |a| && Twins(a[i], twin)
    ensures var b := a[i := twin]; Accepts(digest, b) && CollisionFree(digest, a, b) && Tail(b) == Tail(a)
  {
    var b := a[i := twin];
    forall k | 0 <= k < |b| ensures RowOk(digest, b, k) {
      assert RowOk(digest, a, k);
    }
    forall k, l | 0 <= k < |a| && 0 <= l < |b| ensures NoCollision(digest, a, k, b, l) {
      assert NoCollision(digest, a, k, a, l);
    }
  }

  lemma TwinRow(row: AuditRow) returns (twin: AuditRow)
    requires !SeparatorFree(Fields(row))
    ensures Twins(row, twin) && Fields(twin) != Fields(row)
  {
    var f :| 0 <= f < 7 && RS in Fields(row)[f];
    var gs := Twin(Fields(row), f);
    twin := RowOf(gs).(id := row.id, prevHash := row.prevHash, recordHash := row.recordHash);
    assert Fields(twin) == gs;
  }

  lemma TwinTable(digest: Digest, a: seq<AuditRow>, i: nat) returns (b: seq<AuditRow>)
    requires Accepts(digest, a) && CollisionFree(digest, a, a)
    requires i < |a| && !SeparatorFree(Fields(a[i]))
    ensures |b| == |a| && Accepts(digest, b) && CollisionFree(digest, a, b) && Tail(b) == Tail(a)
    ensures Fields(b[i]) != Fields(a[i])
  {
    var twin := TwinRow(a[i]);
    TwinGoesUnnoticed(digest, a, i, twin);
    b := a[i := twin];
  }

  /** Same accepted tail, same fields, for every other table. */
  ghost predicate FieldsFixedByTail(digest: Digest, a: seq<AuditRow>) {
    forall b: seq<AuditRow> :: |b| == |a| && Accepts(digest, b) && CollisionFree(digest, a, b) && Tail(b) == Tail(a) ==>
      forall i | 0 <= i < |a| :: Fields(b[i]) == Fields(a[i])
  }

  /** The anchored hash fixes every field exactly when no field holds the separator. */
  lemma FieldsFixedIffSeparatorFree(digest: Digest, a: seq<AuditRow>)
    requires Accepts(digest, a) && CollisionFree(digest, a, a)
    ensures FieldsFixedByTail(digest, a) <==> forall i | 0 <= i < |a| :: SeparatorFree(Fields(a[i]))
  {
    if i :| 0 <= i < |a| && !SeparatorFree(Fields(a[i])) {
      var b := TwinTable(digest, a, i);
    } else {
      forall b: seq<AuditRow> | |b| == |a| && Accepts(digest, b) && CollisionFree(digest, a, b) && Tail(b) == Tail(a)
        ensures forall i | 0 <= i < |a| :: Fields(b[i]) == Fields(a[i])
      {
        TailDeterminesTable(digest, a, b);
      }
    }
  }

  /** Within one accepted table no two rows share a record hash. */
  lemma HashesDistinct(digest: Digest, rows: seq<AuditRow>, i: nat, j: nat)
    requires Accepts(digest, rows) && CollisionFree(digest, rows, rows)
    requires i < j < |rows|
    ensures rows[i].recordHash != rows[j].recordHash
  {
    if rows[i].recordHash == rows[j].recordHash {
      HashesAgreeBackwards(digest, rows, i, rows, j);
    }
  }

  /** The same row, possibly filed under another id. */
  predicate SameRow(r: AuditRow, s: AuditRow) {
    r.(id := 0) == s.(id := 0)
  }

  predicate Occurs(r: AuditRow, rows: seq<AuditRow>) {
    exists i :: 0 <= i < |rows| && SameRow(r, rows[i])
  }

  predicate DrawnFrom(list: seq<AuditRow>, rows: seq<AuditRow>) {
    forall k | 0 <= k < |list| :: Occurs(list[k], rows)
  }

  predicate IsPrefixOf(list: seq<AuditRow>, rows: seq<AuditRow>) {
    |list| <= |rows| && forall k | 0 <= k < |list| :: SameRow(list[k], rows[k])
  }

  /** A back pointer names its predecessor's position. */
  lemma PositionByBackPointer(digest: Digest, rows: seq<AuditRow>, i: nat, k: nat)
    requires Accepts(digest, rows) && CollisionFree(digest, rows, rows)
    requires i < |rows| && k < |rows| && rows[i].prevHash == rows[k].recordHash
    ensures i == k + 1
  {
    BackPointer(digest, rows, i);
    assert RowOk(digest, rows, k);
    if i - 1 < k {
      HashesDistinct(digest, rows, i - 1, k);
    } else if k < i - 1 {
      HashesDistinct(digest, rows, k, i - 1);
    }
  }

  lemma {:induction false} DrawnRowInPlace(digest: Digest, rows: seq<AuditRow>, list: seq<AuditRow>, k: nat)
    requires Accepts(digest, rows) && CollisionFree(digest, rows, rows)
    requires DrawnFrom(list, rows) && Accepts(digest, list) && k < |list|
    ensures k < |rows| && SameRow(list[k], rows[k])
  {
    assert Occurs(list[k], rows);
    var i :| 0 <= i < |rows| && SameRow(list[k], rows[i]);
    BackPointer(digest, list, k);
    BackPointer(digest, rows, i);
    if k > 0 {
      DrawnRowInPlace(digest, rows, list, k - 1);
      PositionByBackPointer(digest, rows, i, k - 1);
    }
  }

  /**
   Deleting, reordering or duplicating rows of an accepted table, re-numbered at will,
   is detected in every case but one: removing rows from the end.
   */
  lemma DrawnAcceptedIffPrefix(digest: Digest, rows: seq<AuditRow>, list: seq<AuditRow>)
    requires Accepts(digest, rows) && CollisionFree(digest, rows, rows)
    requires DrawnFrom(list, rows)
    ensures Accepts(digest, list) <==> IsPrefixOf(list, rows)
  {
    if Accepts(digest, list) {
      forall k | 0 <= k < |list| ensures k < |rows| && SameRow(list[k], rows[k]) {
        DrawnRowInPlace(digest, rows, list, k);
      }
      if |list| > 0 { DrawnRowInPlace(digest, rows, list, |list| - 1); }
    }
    if IsPrefixOf(list, rows) {
      forall k | 0 <= k < |list| ensures RowOk(digest, list, k) {
        assert SameRow(list[k], rows[k]) && (k > 0 ==> SameRow(list[k - 1], rows[k - 1]));
        assert RowOk(digest, rows, k);
      }
    }
  }
}
