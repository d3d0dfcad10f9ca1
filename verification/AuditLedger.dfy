/**
 Writing to the audit trail (`src/audit/mod.rs`): the single insert point with its
 overflow policies, and the two write paths that wrap it in a transaction.
 */
module AuditLedger {
  import opened Prelude
  import opened AuditChain

  datatype OverflowPolicy = DropOldest | Halt

  datatype AuditConfig = AuditConfig(
    enabled: bool,
    maxRows: Option<nat>,
    overflowPolicy: OverflowPolicy,
    alarmThreshold: nat,
    alarmHalts: bool)

  datatype EventKind = SecurityViolation | AuthSuccess | Other

  /** An event as it is bound to the INSERT: its time stamp and its text columns. */
  datatype Event = Event(
    kind: EventKind,
    timestamp: Bytes,
    eventType: Bytes,
    operator: Option<Bytes>,
    subject: Option<Bytes>,
    detailJson: Option<Bytes>,
    clientAddr: Option<Bytes>)

  /** The row the INSERT would store for `ev`, hashes aside. */
  function Columns(ev: Event): AuditRow {
    AuditRow(0, ev.timestamp, ev.eventType, ev.operator, ev.subject, ev.detailJson, ev.clientAddr, None, None, None)
  }

  /** The row holds the event: its operator as actor, its subject as target, the client address as source. */
  predicate Carries(row: AuditRow, ev: Event) {
    && row.timestamp == ev.timestamp && row.eventType == ev.eventType
    && row.actor == ev.operator && row.target == ev.subject && row.detailJson == ev.detailJson
    && row.sourceIp == ev.clientAddr && row.sessionId == None
  }

  /** How many of the oldest rows are deleted to admit one more under `limit`. */
  function Surplus(count: nat, limit: nat): nat {
    if count < limit then 0 else if limit == 0 then count else count - limit + 1
  }

  /** The table after the overflow policy has run, or None when the policy refuses the event. */
  function MakeRoom(config: AuditConfig, rows: seq<AuditRow>): Option<seq<AuditRow>> {
    match config.maxRows
    case None => Some(rows)
    case Some(limit) =>
      if |rows| < limit then Some(rows)
      else if config.overflowPolicy == Halt then None
      else Some(rows[Surplus(|rows|, limit)..])
  }

  /** `ev` chained onto the tail of `rows`. */
  function Chained(digest: Digest, rows: seq<AuditRow>, id: int, ev: Event): seq<AuditRow> {
    var cols := Columns(ev);
    rows + [cols.(id := id, prevHash := Tail(rows), recordHash := Some(ChainHash(digest, Tail(rows), Fields(cols))))]
  }

  /** `row` is `ev` under `id`, linked to the last of `rows` and hashed with it. */
  predicate Stores(digest: Digest, rows: seq<AuditRow>, id: int, ev: Event, row: AuditRow) {
    && row.id == id && Carries(row, ev)
    && row.prevHash == (if rows == [] then None else rows[|rows| - 1].recordHash)
    && row.recordHash == Some(digest(OrEmpty(row.prevHash) + [0x1e] + CanonicalColumns(row)))
  }

  lemma ChainedStores(digest: Digest, rows: seq<AuditRow>, id: int, ev: Event)
    ensures var rows' := Chained(digest, rows, id, ev);
            |rows'| == |rows| + 1 && rows'[..|rows|] == rows && Stores(digest, rows, id, ev, rows'[|rows|])
  {
    var row := Chained(digest, rows, id, ev)[|rows|];
    assert Fields(row) == Fields(Columns(ev));
    IntactByColumns(digest, row);
  }

  predicate Ascending(rows: seq<AuditRow>) {
    forall i, j | 0 <= i < j < |rows| :: rows[i].id < rows[j].id
  }

  predicate FreshId(rows: seq<AuditRow>, id: int) {
    forall i | 0 <= i < |rows| :: rows[i].id < id
  }

  /** One event whose actor holds the separator is enough: its row has a twin that the verifier accepts as well. */
  lemma WrittenRowHasTwin(digest: Digest, id: int, ev: Event) returns (twin: seq<AuditRow>)
    requires ev.operator.Some? && RS in ev.operator.value
    ensures var written := Chained(digest, [], id, ev);
            && Accepts(digest, written) && CollisionFree(digest, written, written)
            && Accepts(digest, twin) && Tail(twin) == Tail(written) && |twin| == 1
            && Fields(twin[0]) != Fields(written[0])
  {
    var written := Chained(digest, [], id, ev);
    assert Fields(written[0]) == Fields(Columns(ev)) && RS in Fields(written[0])[2];
    assert RowOk(digest, written, 0);
    twin := TwinTable(digest, written, 0);
  }

  /** An OTP failure of the entity-id "a", 0x1e, "b" is such an event. */
  lemma OtpFailureHasTwin(digest: Digest, timestamp: Bytes, eventType: Bytes, detail: Bytes)
    returns (ev: Event, twin: seq<AuditRow>)
    ensures ev == Event(Other, timestamp, eventType, Some([0x61, 0x1e, 0x62]), None, Some(detail), None)
    ensures Accepts(digest, twin) && Tail(twin) == Tail(Chained(digest, [], 1, ev))
    ensures |twin| == 1 && Fields(twin[0]) != Fields(Columns(ev))
  {
    ev := Event(Other, timestamp, eventType, Some([0x61, 0x1e, 0x62]), None, Some(detail), None);
    assert ev.operator.value[1] == RS;
    twin := WrittenRowHasTwin(digest, 1, ev);
    assert Fields(Chained(digest, [], 1, ev)[0]) == Fields(Columns(ev));
  }

  // ----- The write paths -----

  /** Which database statements of one write fail, and whether the syslog alarm does. */
  datatype Faults = Faults(
    begin: bool, lock: bool, count: bool, selectIds: bool, delete: Option<nat>, tail: bool, insert: bool,
    commit: bool, syslog: bool)

  /** Some statement fails that enforcing the row limit reaches. */
  predicate LimitHit(config: AuditConfig, rows: seq<AuditRow>, faults: Faults) {
    config.maxRows.Some?
    && (|| faults.count
        || (|rows| >= config.maxRows.value
            && (faults.selectIds
                || (faults.delete.Some? && faults.delete.value < Surplus(|rows|, config.maxRows.value)))))
  }

  /** Some statement that writing into `rows` reaches fails. */
  predicate Hit(config: AuditConfig, rows: seq<AuditRow>, faults: Faults) {
    faults.lock || LimitHit(config, rows, faults) || faults.tail || faults.insert
  }

  /** The rows with another id. */
  function Without(rows: seq<AuditRow>, id: int): seq<AuditRow> {
    if rows == [] then [] else (if rows[0].id == id then [] else [rows[0]]) + Without(rows[1..], id)
  }

  lemma KeptAppends(kept: seq<AuditRow>, row: AuditRow, rest: seq<AuditRow>)
    ensures kept + ([row] + rest) == kept + [row] + rest && [] + rest == rest
  {
  }

  lemma {:induction false} WithoutNone(rows: seq<AuditRow>, id: int)
    requires forall i | 0 <= i < |rows| :: rows[i].id != id
    ensures Without(rows, id) == rows
  {
    if rows != [] {
      WithoutNone(rows[1..], id);
    }
  }

  lemma WithoutOldest(rows: seq<AuditRow>)
    requires rows != [] && Ascending(rows)
    ensures Without(rows, rows[0].id) == rows[1..]
  {
    WithoutNone(rows[1..], rows[0].id);
  }

  /** The audit table as one open transaction sees it. */
  class Connection {
    var rows: seq<AuditRow>
    var lockHeld: bool

    constructor (committed: seq<AuditRow>)
      ensures rows == committed && !lockHeld
    {
      rows := committed;
      lockHeld := false;
    }

    method DeleteById(id: int)
      modifies this`rows
      ensures rows == Without(old(rows), id)
    {
      var kept := [];
      ghost var was := rows;
      for i := 0 to |rows|
        invariant rows == was && kept + Without(was[i..], id) == Without(was, id)
      {
        assert was[i..][1..] == was[i + 1..];
        KeptAppends(kept, rows[i], Without(was[i + 1..], id));
        if rows[i].id != id {
          kept := kept + [rows[i]];
        }
      }
      rows := kept;
    }

    /** Select the ids of the `n` oldest rows, then delete them one by one; statement `failAt` fails. */
    method Prune(n: nat, failAt: Option<nat>) returns (ok: bool)
      requires n <= |rows| && Ascending(rows)
      modifies this`rows
      ensures ok <==> !(failAt.Some? && failAt.value < n)
      ensures rows == old(rows)[if ok then n else failAt.value..]
    {
      ghost var was := rows;
      var ids := seq(n, i requires 0 <= i < n <= |rows| reads this => rows[i].id);
      assert was == was[0..];
      for k := 0 to n
        invariant rows == was[k..]
        invariant failAt.Some? ==> k <= failAt.value
      {
        if failAt == Some(k) { return false; }
        assert rows[0] == was[k] && rows[1..] == was[k + 1..];
        WithoutOldest(rows);
        DeleteById(ids[k]);
      }
      return true;
    }
  }

  class AuditState {
    const config: AuditConfig
    const digest: Digest
    var halted: bool
    var violationCount: nat

    constructor (config: AuditConfig, digest: Digest)
      ensures this.config == config && this.digest == digest && !halted && violationCount == 0
    {
      this.config := config;
      this.digest := digest;
      halted := false;
      violationCount := 0;
    }

    /** Count the rows and apply the overflow policy. */
    method EnforceLimit(conn: Connection, faults: Faults) returns (ok: bool)
      requires Ascending(conn.rows)
      modifies conn`rows
      ensures ok <==> MakeRoom(config, old(conn.rows)).Some? && !LimitHit(config, old(conn.rows), faults)
      ensures ok ==> conn.rows == MakeRoom(config, old(conn.rows)).value
      ensures exists d :: 0 <= d <= |old(conn.rows)| && conn.rows == old(conn.rows)[d..]
      ensures MakeRoom(config, old(conn.rows)).None? ==> conn.rows == old(conn.rows)
    {
      assert conn.rows == conn.rows[0..];
      if config.maxRows == None { return true; }
      var limit := config.maxRows.value;
      if faults.count { return false; }
      var count := |conn.rows|;
      if count >= limit {
        if config.overflowPolicy == Halt { return false; }
        if faults.selectIds { return false; }
        ok := conn.Prune(Surplus(count, limit), faults.delete);
        return;
      }
      return true;
    }

    /** Append one event under the writer lock. */
    method WriteEvent(conn: Connection, ev: Event, id: int, faults: Faults) returns (ok: bool)
      requires Ascending(conn.rows) && FreshId(conn.rows, id)
      modifies conn
      ensures ok <==> Admissible(config, halted, old(conn.rows), faults)
      ensures ok ==> conn.lockHeld && conn.rows == Chained(digest, MakeRoom(config, old(conn.rows)).value, id, ev)
      ensures ok ==> !halted && !faults.lock && !faults.tail && !faults.insert
      ensures ok && config.maxRows.Some? ==> !faults.count
      ensures ok ==> conn.rows != []
                     && Stores(digest, conn.rows[..|conn.rows| - 1], id, ev, conn.rows[|conn.rows| - 1])
      ensures !ok ==> exists d :: 0 <= d <= |old(conn.rows)| && conn.rows == old(conn.rows)[d..]
      ensures halted || MakeRoom(config, old(conn.rows)).None? ==> conn.rows == old(conn.rows)
    {
      assert conn.rows == conn.rows[0..];
      if halted { return false; }
      if faults.lock { return false; }
      conn.lockHeld := true;
      var room := EnforceLimit(conn, faults);
      if !room || faults.tail { return false; }
      var prevHash := if conn.rows == [] then None else conn.rows[|conn.rows| - 1].recordHash;
      var row := Columns(ev);
      var canonical := CanonicalBytes(row);
      var recordHash := digest(OrEmpty(prevHash) + [RS] + canonical);
      if faults.insert { return false; }
      ChainedStores(digest, conn.rows, id, ev);
      conn.rows := conn.rows + [row.(id := id, prevHash := prevHash, recordHash := Some(recordHash))];
      return true;
    }

    /** Issuance: one more event in the caller's transaction; a failure latches under Halt. */
    method RecordIssuanceInTransaction(conn: Connection, ev: Event, id: int, faults: Faults) returns (ok: bool)
      requires Ascending(conn.rows) && FreshId(conn.rows, id)
      modifies conn, this`halted
      ensures !config.enabled ==> ok && conn.rows == old(conn.rows) && halted == old(halted)
      ensures config.enabled ==> (ok <==> Admissible(config, old(halted), old(conn.rows), faults))
      ensures config.enabled && ok ==> conn.rows == Chained(digest, MakeRoom(config, old(conn.rows)).value, id, ev)
      ensures config.enabled ==> (halted <==> old(halted) || (!ok && config.overflowPolicy == Halt))
    {
      if !config.enabled { return true; }
      ok := WriteEvent(conn, ev, id, faults);
      if !ok && config.overflowPolicy == Halt {
        halted := true;
      }
    }

    /** Commit the caller's transaction: all of its rows or none. */
    method CommitIssuance(db: Database, conn: Connection, faults: Faults) returns (ok: bool)
      modifies db, this`halted
      ensures ok <==> !faults.commit
      ensures db.committed == if ok then conn.rows else old(db.committed)
      ensures halted <==> old(halted) || (!ok && config.enabled && config.overflowPolicy == Halt)
    {
      if faults.commit {
        if config.enabled && config.overflowPolicy == Halt {
          halted := true;
        }
        return false;
      }
      db.committed := conn.rows;
      return true;
    }

    /** A caller's transaction: any number of issuance events, given up at the first failure, then the commit. */
    method IssueInTransaction(db: Database, entries: seq<Entry>, faults: Faults) returns (ok: bool)
      requires Ascending(db.committed) && FreshIds(db.committed, entries)
      modifies db, this`halted
      ensures var issued := Issued(config, digest, old(halted), old(db.committed), entries);
              && (ok <==> issued.Some? && !faults.commit)
              && db.committed == (if ok then issued.value else old(db.committed))
              && (halted <==> old(halted) || (!ok && config.enabled && config.overflowPolicy == Halt))
    {
      var tx := new Connection(db.committed);
      ghost var was := db.committed;
      for i := 0 to |entries|
        invariant db.committed == was && halted == old(halted)
        invariant Issued(config, digest, halted, was, entries[..i]) == Some(tx.rows)
      {
        IssuedStep(config, digest, halted, was, entries, i);
        IssuedAscends(config, digest, halted, was, entries, i);
        var recorded := RecordIssuanceInTransaction(tx, entries[i].ev, entries[i].id, entries[i].faults);
        if !recorded {
          IssuedStops(config, digest, old(halted), was, entries, i + 1);
          return false;
        }
      }
      assert entries[..|entries|] == entries;
      ok := CommitIssuance(db, tx, faults);
    }

    /** One event in its own transaction. */
    method RecordChecked(db: Database, ev: Event, id: int, faults: Faults) returns (ok: bool)
      requires Ascending(db.committed) && FreshId(db.committed, id)
      modifies db, this`halted, this`violationCount
      ensures !config.enabled
          ==> ok && db.committed == old(db.committed) && halted == old(halted) && violationCount == old(violationCount)
      ensures config.enabled ==>
                ok == Recorded(config, digest, old(db.committed), old(halted), old(violationCount), ev, id, faults).ok
      ensures var before := Process(old(db.committed), old(halted), old(violationCount));
              Process(db.committed, halted, violationCount) == Checked(config, digest, before, Entry(ev, id, faults))
    {
      if !config.enabled { return true; }
      ok := RecordInner(db, ev, id, faults);
      if !ok && config.overflowPolicy == Halt {
        halted := true;
      }
    }

    method RecordInner(db: Database, ev: Event, id: int, faults: Faults) returns (ok: bool)
      requires Ascending(db.committed) && FreshId(db.committed, id)
      modifies db, this`halted, this`violationCount
      ensures Effect(db.committed, ok, halted, violationCount)
           == Recorded(config, digest, old(db.committed), old(halted), old(violationCount), ev, id, faults)
    {
      if halted || faults.begin { return false; }
      var tx := new Connection(db.committed);
      var written := WriteEvent(tx, ev, id, faults);
      if !written || faults.commit { return false; }
      db.committed := tx.rows;
      if ev.kind == SecurityViolation {
        violationCount := (violationCount + 1) % 0x1_0000_0000;
        if violationCount >= config.alarmThreshold {
          if config.alarmHalts {
            halted := true;
          } else if faults.syslog {
            return false;
          }
        }
      } else if ev.kind == AuthSuccess {
        violationCount := 0;
      }
      return true;
    }
  }

  /** The committed audit table. */
  class Database {
    var committed: seq<AuditRow>
  }

  /** Whether an event offered now is appended. */
  predicate Admissible(config: AuditConfig, halted: bool, rows: seq<AuditRow>, faults: Faults) {
    !halted && MakeRoom(config, rows).Some? && !Hit(config, rows, faults)
  }

  /** One event of a transaction, the id its row gets and what fails. */
  datatype Entry = Entry(ev: Event, id: int, faults: Faults)

  /** The ids of new rows ascend, above those in the table. */
  predicate FreshIds(rows: seq<AuditRow>, entries: seq<Entry>) {
    && (forall i | 0 <= i < |entries| :: FreshId(rows, entries[i].id))
    && (forall i, j | 0 <= i < j < |entries| :: entries[i].id < entries[j].id)
  }

  function IssuedOne(config: AuditConfig, digest: Digest, halted: bool, rows: seq<AuditRow>,
      e: Entry): Option<seq<AuditRow>> {
    if !config.enabled then Some(rows)
    else if !Admissible(config, halted, rows, e.faults) then None
    else Some(Chained(digest, MakeRoom(config, rows).value, e.id, e.ev))
  }

  /** The table as a transaction sees it after its events, or None when one of them is refused. */
  function Issued(config: AuditConfig, digest: Digest, halted: bool, rows: seq<AuditRow>,
      entries: seq<Entry>): Option<seq<AuditRow>> {
    if entries == [] then Some(rows)
    else
      var before := Issued(config, digest, halted, rows, entries[..|entries| - 1]);
      if before == None then None else IssuedOne(config, digest, halted, before.value, entries[|entries| - 1])
  }

  lemma IssuedStep(config: AuditConfig, digest: Digest, halted: bool, rows: seq<AuditRow>, entries: seq<Entry>, i: nat)
    requires i < |entries|
    ensures var before := Issued(config, digest, halted, rows, entries[..i]);
            Issued(config, digest, halted, rows, entries[..i + 1])
            == if before == None then None else IssuedOne(config, digest, halted, before.value, entries[i])
  {
    assert entries[..i + 1][..i] == entries[..i];
  }

  lemma {:induction false} IssuedStops(config: AuditConfig, digest: Digest, halted: bool, rows: seq<AuditRow>,
      entries: seq<Entry>, i: nat)
    requires i <= |entries| && Issued(config, digest, halted, rows, entries[..i]) == None
    ensures Issued(config, digest, halted, rows, entries) == None
    decreases |entries| - i
  {
    if i < |entries| {
      IssuedStep(config, digest, halted, rows, entries, i);
      IssuedStops(config, digest, halted, rows, entries, i + 1);
    } else {
      assert entries[..i] == entries;
    }
  }

  lemma ChainedAscends(config: AuditConfig, digest: Digest, rows: seq<AuditRow>, e: Entry)
    requires Ascending(rows) && FreshId(rows, e.id) && MakeRoom(config, rows).Some?
    ensures var rows' := Chained(digest, MakeRoom(config, rows).value, e.id, e.ev);
            Ascending(rows') && forall id | e.id < id :: FreshId(rows', id)
  {
  }

  lemma {:induction false} IssuedAscends(config: AuditConfig, digest: Digest, halted: bool, rows: seq<AuditRow>,
      entries: seq<Entry>, i: nat)
    requires i < |entries| && Ascending(rows) && FreshIds(rows, entries)
    requires Issued(config, digest, halted, rows, entries[..i]).Some?
    ensures var view := Issued(config, digest, halted, rows, entries[..i]).value;
            Ascending(view) && FreshId(view, entries[i].id)
  {
    if i > 0 {
      IssuedStep(config, digest, halted, rows, entries, i - 1);
      IssuedAscends(config, digest, halted, rows, entries, i - 1);
      var before := Issued(config, digest, halted, rows, entries[..i - 1]).value;
      if config.enabled { ChainedAscends(config, digest, before, entries[i - 1]); }
    }
  }

  datatype Effect = Effect(rows: seq<AuditRow>, ok: bool, halted: bool, violations: nat)

  /** The table and one process's latch and counter. */
  datatype Process = Process(rows: seq<AuditRow>, halted: bool, violations: nat)

  /** Recording one event, with the latch on failure. */
  function Checked(config: AuditConfig, digest: Digest, p: Process, e: Entry): Process {
    if !config.enabled then p
    else
      var done := Recorded(config, digest, p.rows, p.halted, p.violations, e.ev, e.id, e.faults);
      Process(done.rows, done.halted || (!done.ok && config.overflowPolicy == Halt), done.violations)
  }

  /**
   What recording one event in its own transaction does.  An alarm that cannot be sent
   reports failure although the row is already committed.
   */
  function Recorded(config: AuditConfig, digest: Digest, rows: seq<AuditRow>, halted: bool, violations: nat,
                    ev: Event, id: int, faults: Faults): Effect
  {
    if !Admissible(config, halted, rows, faults) || faults.begin || faults.commit then
      Effect(rows, false, halted, violations)
    else
      var rows' := Chained(digest, MakeRoom(config, rows).value, id, ev);
      match ev.kind
      case AuthSuccess => Effect(rows', true, halted, 0)
      case Other => Effect(rows', true, halted, violations)
      case SecurityViolation =>
        var count := (violations + 1) % 0x1_0000_0000;
        var alarm := count >= config.alarmThreshold;
        Effect(rows', !(alarm && !config.alarmHalts && faults.syslog), halted || (alarm && config.alarmHalts), count)
  }
}
