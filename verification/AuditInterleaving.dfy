/**
 Every interleaving of audit writers (`src/audit/mod.rs`).  Each writer is one open
 transaction of some server process; its program counter stops at every point where
 another writer can act.  The `audit_writer_lock` row gives mutual exclusion from the
 first write of a transaction until it ends.  A writer whose write failed can only roll
 back, as both callers propagate the error.
 */
module AuditInterleaving {
  import opened Prelude
  import opened Runs
  import opened AuditChain
  import opened AuditLedger

  type ProcessId = nat
  type WriterId = nat

  datatype Pc =
    | Idle
    | Open                // in a transaction, between events
    | Admitted(ev: Event) // passed the halt check, about to take the lock
    | Locked(ev: Event)   // holds the lock, about to apply the overflow policy
    | Room(ev: Event)     // policy applied, about to read the tail and insert
    | Failed              // an error was returned; only rollback follows

  datatype Writer = Writer(pc: Pc, view: seq<AuditRow>, pending: seq<Event>)

  /** `log` is history: the events whose rows were committed, in commit order. */
  datatype State = State(
    committed: seq<AuditRow>,
    log: seq<Event>,
    holder: Option<WriterId>,
    writers: map<WriterId, Writer>,
    halted: set<ProcessId>)

  datatype Setup = Setup(config: AuditConfig, digest: Digest, processOf: WriterId -> ProcessId)

  datatype Step =
    | Begin(w: WriterId)
    | Admit(w: WriterId, ev: Event)
    | TakeLock(w: WriterId)
    | ApplyPolicy(w: WriterId)
    | Insert(w: WriterId, id: int)
    | DbError(w: WriterId)
    | Commit(w: WriterId, acknowledged: bool)
    | CommitFails(w: WriterId)
    | Rollback(w: WriterId)
    | Latch(p: ProcessId) // alarm, operator, or a failure to begin
    | Clear(p: ProcessId)

  predicate At(s: State, w: WriterId, pc: Pc) {
    w in s.writers && s.writers[w].pc == pc
  }

  predicate InWrite(s: State, w: WriterId) {
    w in s.writers && (s.writers[w].pc.Admitted? || s.writers[w].pc.Locked? || s.writers[w].pc.Room?)
  }

  predicate Enabled(c: Setup, s: State, step: Step) {
    match step
    case Begin(w) => w !in s.writers || At(s, w, Idle)
    case Admit(w, _) => At(s, w, Open)
    case TakeLock(w) => w in s.writers && s.writers[w].pc.Admitted? && (s.holder == None || s.holder == Some(w))
    case ApplyPolicy(w) => w in s.writers && s.writers[w].pc.Locked?
    case Insert(w, id) => w in s.writers && s.writers[w].pc.Room? && FreshId(s.writers[w].view, id)
    case DbError(w) => InWrite(s, w)
    case Commit(w, _) => At(s, w, Open)
    case CommitFails(w) => At(s, w, Open)
    case Rollback(w) => w in s.writers && s.writers[w].pc != Idle
    case Latch(_) => true
    case Clear(_) => true
  }

  function Goto(s: State, w: WriterId, pc: Pc): State
    requires w in s.writers
  {
    s.(writers := s.writers[w := s.writers[w].(pc := pc)])
  }

  /** Report an error to the caller: under Halt the process latches. */
  function LatchOnError(c: Setup, s: State, w: WriterId): State {
    if c.config.overflowPolicy == Halt then s.(halted := s.halted + {c.processOf(w)}) else s
  }

  function End(s: State, w: WriterId): State
    requires w in s.writers
  {
    Goto(s, w, Idle).(holder := if s.holder == Some(w) then None else s.holder)
  }

  function Apply(c: Setup, s: State, step: Step): State
    requires Enabled(c, s, step)
  {
    match step
    case Begin(w) => s.(writers := s.writers[w := Writer(Open, [], [])])
    case Admit(w, ev) =>
      if c.processOf(w) in s.halted then LatchOnError(c, Goto(s, w, Failed), w) else Goto(s, w, Admitted(ev))
    case TakeLock(w) =>
      var me := s.writers[w].(pc := Locked(s.writers[w].pc.ev));
      if s.holder == Some(w) then s.(writers := s.writers[w := me])
      else s.(holder := Some(w), writers := s.writers[w := me.(view := s.committed)])
    case ApplyPolicy(w) =>
      var me := s.writers[w];
      (match MakeRoom(c.config, me.view)
       case None => LatchOnError(c, Goto(s, w, Failed), w)
       case Some(view) => s.(writers := s.writers[w := me.(pc := Room(me.pc.ev), view := view)]))
    case Insert(w, id) =>
      var me := s.writers[w];
      s.(writers := s.writers[w := Writer(Open, Chained(c.digest, me.view, id, me.pc.ev), me.pending + [me.pc.ev])])
    case DbError(w) => LatchOnError(c, Goto(s, w, Failed), w)
    case Commit(w, acknowledged) =>
      var done := if s.holder == Some(w)
                  then End(s, w).(committed := s.writers[w].view, log := s.log + s.writers[w].pending)
                  else End(s, w);
      if acknowledged then done else LatchOnError(c, done, w)
    case CommitFails(w) => LatchOnError(c, End(s, w), w)
    case Rollback(w) => End(s, w)
    case Latch(p) => s.(halted := s.halted + {p})
    case Clear(p) => s.(halted := s.halted - {p})
  }

  predicate IsStep(c: Setup, s: State, step: Step, s': State) {
    Enabled(c, s, step) && s' == Apply(c, s, step)
  }

  function Next(c: Setup): (State, Step, State) -> bool {
    (s, step, s') => IsStep(c, s, step, s')
  }

  function Start(rows: seq<AuditRow>): State {
    State(rows, [], None, map[], {})
  }

  // ----- The write paths are runs -----

  /** A writer between events that holds the lock, or finds it free. */
  predicate Ready(t: State, w: WriterId) {
    At(t, w, Open) && (t.holder == None || t.holder == Some(w))
  }

  /** The table that such a writer writes into. */
  function ViewOf(t: State, w: WriterId): seq<AuditRow>
    requires w in t.writers
  {
    if t.holder == Some(w) then t.writers[w].view else t.committed
  }

  lemma Begins(c: Setup, s: State, w: WriterId) returns (t: State)
    requires w !in s.writers && s.holder == None
    ensures Reaches(Next(c), s, t) && t == s.(writers := s.writers[w := Writer(Open, [], [])])
  {
    ReachesSelf(Next(c), s);
    t := Apply(c, s, Begin(w));
    ReachesOn(Next(c), s, s, Begin(w), t);
  }

  lemma TakesLock(c: Setup, s: State, t: State, w: WriterId, ev: Event) returns (u: State)
    requires Reaches(Next(c), s, t) && Ready(t, w) && c.processOf(w) !in t.halted
    ensures Reaches(Next(c), s, u)
    ensures u == t.(holder := Some(w),
                    writers := t.writers[w := Writer(Locked(ev), ViewOf(t, w), t.writers[w].pending)])
  {
    u := Apply(c, t, Admit(w, ev));
    ReachesOn(Next(c), s, t, Admit(w, ev), u);
    var v := Apply(c, u, TakeLock(w));
    ReachesOn(Next(c), s, u, TakeLock(w), v);
    u := v;
    assert u.writers == t.writers[w := u.writers[w]];
  }

  /** One more event in the transaction. */
  lemma Inserts(c: Setup, s: State, t: State, w: WriterId, ev: Event, id: int) returns (u: State)
    requires Reaches(Next(c), s, t) && Ready(t, w) && c.processOf(w) !in t.halted
    requires MakeRoom(c.config, ViewOf(t, w)).Some? && FreshId(MakeRoom(c.config, ViewOf(t, w)).value, id)
    ensures Reaches(Next(c), s, u) && Ready(u, w)
    ensures u == t.(holder := Some(w), writers := u.writers)
    ensures u.writers[w].view == Chained(c.digest, MakeRoom(c.config, ViewOf(t, w)).value, id, ev)
    ensures u.writers[w].pending == t.writers[w].pending + [ev]
  {
    var locked := TakesLock(c, s, t, w, ev);
    var room := Apply(c, locked, ApplyPolicy(w));
    ReachesOn(Next(c), s, locked, ApplyPolicy(w), room);
    u := Apply(c, room, Insert(w, id));
    ReachesOn(Next(c), s, room, Insert(w, id), u);
  }

  /** An event that is refused or fails, and the rollback. */
  lemma FailsAndRollsBack(c: Setup, s: State, t: State, w: WriterId, ev: Event) returns (u: State)
    requires Reaches(Next(c), s, t) && Ready(t, w)
    ensures Reaches(Next(c), s, u)
    ensures u.committed == t.committed && u.log == t.log && u.holder == None && u.halted == LatchOnError(c, t, w).halted
  {
    var failed;
    if c.processOf(w) in t.halted {
      failed := Apply(c, t, Admit(w, ev));
      ReachesOn(Next(c), s, t, Admit(w, ev), failed);
    } else {
      var locked := TakesLock(c, s, t, w, ev);
      failed := Apply(c, locked, DbError(w));
      ReachesOn(Next(c), s, locked, DbError(w), failed);
    }
    u := Apply(c, failed, Rollback(w));
    ReachesOn(Next(c), s, failed, Rollback(w), u);
  }

  /** The commit, acknowledged or not, or a commit that fails. */
  lemma Commits(c: Setup, s: State, t: State, w: WriterId, step: Step) returns (u: State)
    requires Reaches(Next(c), s, t) && Ready(t, w) && (t.holder == None ==> t.writers[w].pending == [])
    requires (step.Commit? || step.CommitFails?) && step.w == w
    ensures Reaches(Next(c), s, u) && u.holder == None
    ensures step.Commit? ==> u.committed == ViewOf(t, w) && u.log == t.log + t.writers[w].pending
    ensures step.CommitFails? ==> u.committed == t.committed && u.log == t.log
    ensures u.halted == if step.Commit? && step.acknowledged then t.halted else LatchOnError(c, t, w).halted
  {
    u := Apply(c, t, step);
    ReachesOn(Next(c), s, t, step, u);
    assert t.log + [] == t.log;
  }

  /**
   Recording one event in its own transaction, with any faults, is a run of the machine:
   it ends in the table and the latch that the write path leaves.
   */
  lemma RecordedIsARun(c: Setup, s: State, w: WriterId, violations: nat, ev: Event, id: int, faults: Faults)
    returns (t: State)
    requires w !in s.writers && s.holder == None && Ascending(s.committed) && FreshId(s.committed, id)
    ensures Reaches(Next(c), s, t)
    ensures var p := c.processOf(w);
            var e := Recorded(c.config, c.digest, s.committed, p in s.halted, violations, ev, id, faults);
            && t.committed == e.rows
            && t.halted == if e.halted || (!e.ok && c.config.overflowPolicy == Halt) then s.halted + {p} else s.halted
  {
    var p := c.processOf(w);
    var e := Recorded(c.config, c.digest, s.committed, p in s.halted, violations, ev, id, faults);
    t := Begins(c, s, w);
    if !Admissible(c.config, p in s.halted, s.committed, faults) || faults.begin || faults.commit {
      t := FailsAndRollsBack(c, s, t, w, ev);
      assert p in s.halted ==> s.halted + {p} == s.halted;
    } else {
      t := Inserts(c, s, t, w, ev, id);
      t := Commits(c, s, t, w, Commit(w, e.ok));
      if e.halted {
        ReachesOn(Next(c), s, t, Latch(p), Apply(c, t, Latch(p)));
        t := Apply(c, t, Latch(p));
      }
    }
  }

  function Events(entries: seq<Entry>): seq<Event> {
    seq(|entries|, i requires 0 <= i < |entries| => entries[i].ev)
  }

  /** The transaction has written `events` and sees `issued`, or has been rolled back. */
  predicate Underway(c: Setup, s: State, w: WriterId, t: State, issued: Option<seq<AuditRow>>, events: seq<Event>) {
    && t.committed == s.committed && t.log == s.log
    && (if issued.Some? then
          && t.halted == s.halted && Ready(t, w) && ViewOf(t, w) == issued.value
          && t.writers[w].pending == events && (t.holder == None ==> events == [])
        else
          t.holder == None && t.halted == LatchOnError(c, s, w).halted)
  }

  lemma WritesOneMore(c: Setup, s: State, t: State, w: WriterId, rows: seq<AuditRow>, events: seq<Event>, e: Entry)
    returns (u: State)
    requires Reaches(Next(c), s, t) && Underway(c, s, w, t, Some(rows), events) && c.config.enabled
        && FreshId(rows, e.id)
    ensures Reaches(Next(c), s, u)
    ensures Underway(c, s, w, u, IssuedOne(c.config, c.digest, c.processOf(w) in s.halted, rows, e), events + [e.ev])
  {
    if Admissible(c.config, c.processOf(w) in s.halted, rows, e.faults) {
      u := Inserts(c, s, t, w, e.ev, e.id);
    } else {
      u := FailsAndRollsBack(c, s, t, w, e.ev);
    }
  }

  lemma BeginsUnderway(c: Setup, s: State, w: WriterId) returns (t: State)
    requires w !in s.writers && s.holder == None
    ensures Reaches(Next(c), s, t) && Underway(c, s, w, t, Some(s.committed), [])
  {
    t := Begins(c, s, w);
  }

  function IssuedBy(c: Setup, s: State, w: WriterId, entries: seq<Entry>): Option<seq<AuditRow>> {
    Issued(c.config, c.digest, c.processOf(w) in s.halted, s.committed, entries)
  }

  lemma NextIssued(c: Setup, s: State, w: WriterId, entries: seq<Entry>, i: nat)
    requires i < |entries| && Ascending(s.committed) && FreshIds(s.committed, entries)
    ensures IssuedBy(c, s, w, entries[..i]) == None ==> IssuedBy(c, s, w, entries[..i + 1]) == None
    ensures IssuedBy(c, s, w, entries[..i]).Some? ==>
              var rows := IssuedBy(c, s, w, entries[..i]).value;
              && FreshId(rows, entries[i].id)
              && IssuedBy(c, s, w, entries[..i + 1])
                 == IssuedOne(c.config, c.digest, c.processOf(w) in s.halted, rows, entries[i])
    ensures Events(entries[..i + 1]) == Events(entries[..i]) + [entries[i].ev]
  {
    var halted := c.processOf(w) in s.halted;
    IssuedStep(c.config, c.digest, halted, s.committed, entries, i);
    if IssuedBy(c, s, w, entries[..i]).Some? { IssuedAscends(c.config, c.digest, halted, s.committed, entries, i); }
  }

  /** The first events of a transaction written, or the first refused one rolled back. */
  lemma {:induction false} WritesAll(c: Setup, s: State, w: WriterId, entries: seq<Entry>, i: nat) returns (t: State)
    requires w !in s.writers && s.holder == None && c.config.enabled && i <= |entries|
    requires Ascending(s.committed) && FreshIds(s.committed, entries)
    ensures Reaches(Next(c), s, t) && Underway(c, s, w, t, IssuedBy(c, s, w, entries[..i]), Events(entries[..i]))
  {
    if i == 0 {
      t := BeginsUnderway(c, s, w);
    } else {
      t := WritesAll(c, s, w, entries, i - 1);
      NextIssued(c, s, w, entries, i - 1);
      var issued := IssuedBy(c, s, w, entries[..i - 1]);
      if issued.Some? {
        t := WritesOneMore(c, s, t, w, issued.value, Events(entries[..i - 1]), entries[i - 1]);
      }
    }
  }

  /**
   A caller's transaction with any number of events and any faults is a run of the machine: it
   ends in the table and the latch that the issuance path leaves.
   */
  lemma IssuanceIsARun(c: Setup, s: State, w: WriterId, entries: seq<Entry>, faults: Faults) returns (t: State)
    requires w !in s.writers && s.holder == None && c.config.enabled
    requires Ascending(s.committed) && FreshIds(s.committed, entries)
    ensures Reaches(Next(c), s, t) && t.holder == None
    ensures var issued := Issued(c.config, c.digest, c.processOf(w) in s.halted, s.committed, entries);
            if issued.Some? && !faults.commit then
              t.committed == issued.value && t.log == s.log + Events(entries) && t.halted == s.halted
            else
              t.committed == s.committed && t.log == s.log && t.halted == LatchOnError(c, s, w).halted
  {
    assert entries[..|entries|] == entries;
    t := WritesAll(c, s, w, entries, |entries|);
    if IssuedBy(c, s, w, entries).Some? {
      t := Commits(c, s, t, w, if faults.commit then CommitFails(w) else Commit(w, true));
    }
  }

  // ----- Lifting a property of single appends to every run -----

  /** A property of a table and the events logged so far. */
  type TableProperty = (seq<AuditRow>, seq<Event>) -> bool

  /** Appending one admitted event to a table with the property gives a table with the property. */
  ghost predicate KeptByAppend(c: Setup, prop: TableProperty) {
    forall rows, log, id, ev :: prop(rows, log) ==> AppendKeeps(c, prop, rows, log, id, ev)
  }

  ghost predicate AppendKeeps(c: Setup, prop: TableProperty, rows: seq<AuditRow>, log: seq<Event>, id: int, ev: Event) {
    MakeRoom(c.config, rows).Some? && FreshId(MakeRoom(c.config, rows).value, id) ==>
      prop(Chained(c.digest, MakeRoom(c.config, rows).value, id, ev), log + [ev])
  }

  /** `view` is a table with the property, after the overflow policy. */
  ghost predicate RoomMade(c: Setup, prop: TableProperty, view: seq<AuditRow>, log: seq<Event>) {
    exists rows :: prop(rows, log) && MakeRoom(c.config, rows) == Some(view)
  }

  ghost predicate WriterInv(c: Setup, prop: TableProperty, s: State, w: WriterId)
    requires w in s.writers
  {
    var me := s.writers[w];
    if s.holder != Some(w) then
      !me.pc.Locked? && !me.pc.Room? && (me.pc.Open? || me.pc.Admitted? ==> me.pending == [])
    else
      && me.pc != Idle
      && (me.pc.Open? || me.pc.Admitted? || me.pc.Locked? ==> prop(me.view, s.log + me.pending))
      && (me.pc.Room? ==> RoomMade(c, prop, me.view, s.log + me.pending))
  }

  ghost predicate Inv(c: Setup, prop: TableProperty, s: State) {
    && prop(s.committed, s.log)
    && (forall w | w in s.writers :: WriterInv(c, prop, s, w))
    && (s.holder.Some? ==> s.holder.value in s.writers)
  }

  lemma InsertKeepsInv(c: Setup, prop: TableProperty, s: State, step: Step, s': State)
    requires KeptByAppend(c, prop) && Inv(c, prop, s) && step.Insert? && IsStep(c, s, step, s')
    ensures WriterInv(c, prop, s', step.w)
  {
    var me := s.writers[step.w];
    assert WriterInv(c, prop, s, step.w);
    var rows :| prop(rows, s.log + me.pending) && MakeRoom(c.config, rows) == Some(me.view);
    assert AppendKeeps(c, prop, rows, s.log + me.pending, step.id, me.pc.ev);
    assert s.log + (me.pending + [me.pc.ev]) == s.log + me.pending + [me.pc.ev];
  }

  /** The acting writer's own part of the invariant. */
  lemma ActorKeepsInv(c: Setup, prop: TableProperty, s: State, step: Step, s': State)
    requires KeptByAppend(c, prop) && Inv(c, prop, s) && IsStep(c, s, step, s') && !step.Latch? && !step.Clear?
    ensures step.w in s'.writers && WriterInv(c, prop, s', step.w)
  {
    if step.Insert? {
      InsertKeepsInv(c, prop, s, step, s');
    } else if step.w in s.writers {
      assert WriterInv(c, prop, s, step.w);
      assert s.log + [] == s.log;
    }
  }

  /** A step leaves the other writers' part alone. */
  lemma OthersKeepInv(c: Setup, prop: TableProperty, s: State, step: Step, s': State, v: WriterId)
    requires IsStep(c, s, step, s') && v in s.writers && WriterInv(c, prop, s, v)
    requires step.Latch? || step.Clear? || step.w != v
    ensures v in s'.writers && WriterInv(c, prop, s', v)
  {
  }

  lemma StepKeepsInv(c: Setup, prop: TableProperty, s: State, step: Step, s': State)
    requires KeptByAppend(c, prop) && Inv(c, prop, s) && IsStep(c, s, step, s')
    ensures Inv(c, prop, s')
  {
    forall v | v in s'.writers ensures WriterInv(c, prop, s', v) {
      if !step.Latch? && !step.Clear? && step.w == v {
        ActorKeepsInv(c, prop, s, step, s');
      } else {
        assert WriterInv(c, prop, s, v);
        OthersKeepInv(c, prop, s, step, s', v);
      }
    }
    if step.Commit? {
      assert WriterInv(c, prop, s, step.w);
    }
  }

  /** A property kept by single appends holds of the committed table throughout every run. */
  lemma {:induction false} HoldsThroughout(c: Setup, prop: TableProperty, states: seq<State>, steps: seq<Step>, k: nat)
    requires IsRun(Next(c), states, steps) && k < |states|
    requires states[0] == Start(states[0].committed) && prop(states[0].committed, [])
    requires KeptByAppend(c, prop)
    ensures Inv(c, prop, states[k])
  {
    if k > 0 {
      HoldsThroughout(c, prop, states, steps, k - 1);
      assert StepAt(Next(c), states, steps, k - 1);
      StepKeepsInv(c, prop, states[k - 1], steps[k - 1], states[k]);
    }
  }

  // ----- Which events are committed, told from the steps alone -----

  /** The event that writer `w` was last offered. */
  function LastAdmitted(steps: seq<Step>, k: nat, w: WriterId): Option<Event>
    requires k <= |steps|
  {
    if k == 0 then None
    else if steps[k - 1].Admit? && steps[k - 1].w == w then Some(steps[k - 1].ev)
    else LastAdmitted(steps, k - 1, w)
  }

  /** The events that writer `w` has inserted since it last began a transaction. */
  function Inserted(steps: seq<Step>, k: nat, w: WriterId): seq<Event>
    requires k <= |steps|
  {
    if k == 0 then []
    else
      var step, before := steps[k - 1], Inserted(steps, k - 1, w);
      if step == Begin(w) then []
      else if step.Insert? && step.w == w then
        before + (match LastAdmitted(steps, k - 1, w) case Some(ev) => [ev] case None => [])
      else before
  }

  /** The events of the transactions committed so far, in commit order. */
  function Published(steps: seq<Step>, k: nat): seq<Event>
    requires k <= |steps|
  {
    if k == 0 then []
    else if steps[k - 1].Commit? then Published(steps, k - 1) + Inserted(steps, k - 1, steps[k - 1].w)
    else Published(steps, k - 1)
  }

  /** A writer's memory agrees with what its steps say. */
  predicate Remembers(me: Writer, admitted: Option<Event>, inserted: seq<Event>) {
    && (me.pc.Admitted? || me.pc.Locked? || me.pc.Room? ==> admitted == Some(me.pc.ev))
    && me.pending == inserted
  }

  lemma RemembersStep(c: Setup, states: seq<State>, steps: seq<Step>, k: nat, w: WriterId)
    requires IsRun(Next(c), states, steps) && 0 < k <= |steps| && w in states[k].writers
    requires w in states[k - 1].writers ==>
               Remembers(states[k - 1].writers[w], LastAdmitted(steps, k - 1, w), Inserted(steps, k - 1, w))
    ensures Remembers(states[k].writers[w], LastAdmitted(steps, k, w), Inserted(steps, k, w))
  {
    assert StepAt(Next(c), states, steps, k - 1);
  }

  lemma {:induction false} WritersRemember(c: Setup, states: seq<State>, steps: seq<Step>, k: nat, w: WriterId)
    requires IsRun(Next(c), states, steps) && k < |states| && states[0] == Start(states[0].committed)
    requires w in states[k].writers
    ensures Remembers(states[k].writers[w], LastAdmitted(steps, k, w), Inserted(steps, k, w))
  {
    if k > 0 {
      if w in states[k - 1].writers { WritersRemember(c, states, steps, k - 1, w); }
      RemembersStep(c, states, steps, k, w);
    }
  }

  /** Only the commit of the lock holder publishes anything, and it publishes just what that writer holds. */
  lemma OnlyCommitPublishes(c: Setup, s: State, step: Step, s': State)
    requires IsStep(c, s, step, s')
    ensures if step.Commit? && s.holder == Some(step.w) then
              s'.committed == s.writers[step.w].view && s'.log == s.log + s.writers[step.w].pending
            else
              s'.committed == s.committed && s'.log == s.log
    ensures step.Rollback? || step.Commit? || step.CommitFails? ==> At(s', step.w, Idle) && s'.holder != Some(step.w)
  {
  }

  /** A writer that commits without the lock has inserted nothing. */
  lemma CommitWithoutLock(c: Setup, states: seq<State>, steps: seq<Step>, k: nat)
    requires IsRun(Next(c), states, steps) && k < |steps| && states[0] == Start(states[0].committed)
    requires steps[k].Commit? && states[k].holder != Some(steps[k].w)
    ensures steps[k].w in states[k].writers && states[k].writers[steps[k].w].pending == []
  {
    assert StepAt(Next(c), states, steps, k);
    var any: TableProperty := (rows, log) => true;
    HoldsThroughout(c, any, states, steps, k);
    assert WriterInv(c, any, states[k], steps[k].w);
  }

  /**
   In every run the log is exactly the events inserted by the transactions that committed, in
   commit order: rolled back, failed and unfinished transactions leave no trace in it.
   */
  lemma {:induction false} LogIsPublished(c: Setup, states: seq<State>, steps: seq<Step>, k: nat)
    requires IsRun(Next(c), states, steps) && k < |states| && states[0] == Start(states[0].committed)
    ensures states[k].log == Published(steps, k)
  {
    if k > 0 {
      LogIsPublished(c, states, steps, k - 1);
      assert StepAt(Next(c), states, steps, k - 1);
      OnlyCommitPublishes(c, states[k - 1], steps[k - 1], states[k]);
      if steps[k - 1].Commit? {
        WritersRemember(c, states, steps, k - 1, steps[k - 1].w);
        if states[k - 1].holder != Some(steps[k - 1].w) { CommitWithoutLock(c, states, steps, k - 1); }
      }
    }
  }

  // ----- What the table says about the committed events -----

  /** How many of `n` events the policy keeps in the table. */
  function Kept(config: AuditConfig, n: nat): nat {
    match (config.maxRows, config.overflowPolicy)
    case (Some(limit), DropOldest) => if n < limit then n else limit
    case _ => n
  }

  predicate LinkedTo(rows: seq<AuditRow>, i: nat)
    requires 0 < i < |rows|
  {
    rows[i].prevHash == rows[i - 1].recordHash
  }

  /** Every row intact and linked to the one before it. */
  predicate Chain(digest: Digest, rows: seq<AuditRow>) {
    && (forall i | 0 <= i < |rows| :: Intact(digest, rows[i]))
    && (forall i | 0 < i < |rows| :: LinkedTo(rows, i))
  }

  /** The table holds the last events of the log, in order, and only those. */
  predicate LastEvents(config: AuditConfig, rows: seq<AuditRow>, log: seq<Event>) {
    && |rows| == Kept(config, |log|) <= |log|
    && forall i | 0 <= i < |rows| :: Carries(rows[i], log[|log| - |rows| + i])
  }

  /**
   The first row has no back pointer exactly when it never had a predecessor or the policy removed its predecessor
   before it was written.
   */
  predicate HeadAnchored(rows: seq<AuditRow>, log: seq<Event>) {
    |rows| > 0 ==> (rows[0].prevHash == None <==> |rows| == |log| || |rows| == 1)
  }

  predicate Represents(c: Setup, rows: seq<AuditRow>, log: seq<Event>) {
    Ascending(rows) && LastEvents(c.config, rows, log) && Chain(c.digest, rows) && HeadAnchored(rows, log)
  }

  lemma ChainedRow(digest: Digest, rows: seq<AuditRow>, id: int, ev: Event) returns (row: AuditRow)
    ensures Chained(digest, rows, id, ev) == rows + [row]
    ensures row.id == id && row.prevHash == Tail(rows) && Intact(digest, row) && Carries(row, ev)
  {
    row := Chained(digest, rows, id, ev)[|rows|];
    assert Fields(row) == Fields(Columns(ev));
  }

  lemma ChainGrows(digest: Digest, rows: seq<AuditRow>, d: nat, row: AuditRow)
    requires Chain(digest, rows) && d <= |rows|
    requires Intact(digest, row) && row.prevHash == Tail(rows[d..])
    ensures Chain(digest, rows[d..] + [row])
  {
    var rows' := rows[d..] + [row];
    assert forall i | 0 <= i < |rows| - d :: rows'[i] == rows[d + i];
    forall i | 0 < i < |rows'| ensures LinkedTo(rows', i) {
      if i < |rows| - d {
        assert LinkedTo(rows, d + i);
      }
    }
  }

  lemma LastEventsGrow(config: AuditConfig, rows: seq<AuditRow>, log: seq<Event>, d: nat, row: AuditRow, ev: Event)
    requires LastEvents(config, rows, log) && d <= |rows| && Carries(row, ev)
    requires |rows| - d + 1 == Kept(config, |log| + 1)
    ensures LastEvents(config, rows[d..] + [row], log + [ev])
  {
    var rows', log' := rows[d..] + [row], log + [ev];
    forall i | 0 <= i < |rows'| ensures Carries(rows'[i], log'[|log'| - |rows'| + i]) {
      if i < |rows| - d {
        assert rows'[i] == rows[d + i];
        assert log'[|log'| - |rows'| + i] == log[|log| - |rows| + (d + i)];
      }
    }
  }

  lemma HeadStaysAnchored(digest: Digest, rows: seq<AuditRow>, log: seq<Event>, d: nat, row: AuditRow, ev: Event)
    requires Chain(digest, rows) && HeadAnchored(rows, log) && |rows| <= |log|
    requires d <= |rows| && row.prevHash == Tail(rows[d..]) && (d == 0 ==> rows == [] || |rows| == |log|)
    ensures HeadAnchored(rows[d..] + [row], log + [ev])
  {
    if d < |rows| {
      assert (rows[d..] + [row])[0] == rows[d];
      if d > 0 {
        assert LinkedTo(rows, d) && Intact(digest, rows[d - 1]);
      }
    }
  }

  lemma RoomIsSuffix(config: AuditConfig, rows: seq<AuditRow>, n: nat) returns (d: nat)
    requires config.maxRows != Some(0) && MakeRoom(config, rows).Some? && |rows| == Kept(config, n)
    ensures d <= |rows| && MakeRoom(config, rows).value == rows[d..]
    ensures |rows| - d + 1 == Kept(config, n + 1)
    ensures d == 0 ==> |rows| == n
  {
    d := |rows| - |MakeRoom(config, rows).value|;
  }

  lemma AscendingGrows(rows: seq<AuditRow>, d: nat, row: AuditRow)
    requires Ascending(rows) && d <= |rows| && FreshId(rows[d..], row.id)
    ensures Ascending(rows[d..] + [row])
  {
  }

  /** Dropping `d` rows and appending one keeps the table in step with the log. */
  lemma GrownRepresents(c: Setup, rows: seq<AuditRow>, log: seq<Event>, d: nat, row: AuditRow, ev: Event)
    requires Represents(c, rows, log) && d <= |rows| && |rows| - d + 1 == Kept(c.config, |log| + 1)
    requires d == 0 ==> |rows| == |log|
    requires FreshId(rows[d..], row.id) && row.prevHash == Tail(rows[d..]) && Intact(c.digest, row) && Carries(row, ev)
    ensures Represents(c, rows[d..] + [row], log + [ev])
  {
    AscendingGrows(rows, d, row);
    ChainGrows(c.digest, rows, d, row);
    LastEventsGrow(c.config, rows, log, d, row, ev);
    HeadStaysAnchored(c.digest, rows, log, d, row, ev);
  }

  /** One admitted event, written into a table that represents the log, extends both. */
  lemma AppendRepresents(c: Setup, rows: seq<AuditRow>, log: seq<Event>, id: int, ev: Event)
    requires c.config.maxRows != Some(0) && Represents(c, rows, log)
    ensures AppendKeeps(c, (r, l) => Represents(c, r, l), rows, log, id, ev)
  {
    if MakeRoom(c.config, rows).Some? && FreshId(MakeRoom(c.config, rows).value, id) {
      var d := RoomIsSuffix(c.config, rows, |log|);
      var row := ChainedRow(c.digest, rows[d..], id, ev);
      GrownRepresents(c, rows, log, d, row, ev);
    }
  }

  /** In every run from an empty table the committed rows represent the committed events. */
  lemma RunRepresents(c: Setup, states: seq<State>, steps: seq<Step>, k: nat)
    requires c.config.maxRows != Some(0)
    requires IsRun(Next(c), states, steps) && states[0] == Start([]) && k < |states|
    ensures Represents(c, states[k].committed, states[k].log)
  {
    var prop: TableProperty := (r, l) => Represents(c, r, l);
    forall rows, log, id, ev | prop(rows, log) ensures AppendKeeps(c, prop, rows, log, id, ev) {
      AppendRepresents(c, rows, log, id, ev);
    }
    HoldsThroughout(c, prop, states, steps, k);
  }

  lemma AcceptedIffHeadAnchored(c: Setup, rows: seq<AuditRow>, log: seq<Event>)
    requires c.config.maxRows != Some(0) && Represents(c, rows, log)
    ensures Accepts(c.digest, rows) <==> |log| == |rows| || |rows| == 1
  {
    if |rows| > 0 {
      assert RowOk(c.digest, rows, 0) <==> rows[0].prevHash == None;
      if rows[0].prevHash == None {
        forall i | 0 <= i < |rows| ensures RowOk(c.digest, rows, i) {
          assert i > 0 ==> LinkedTo(rows, i);
        }
      }
    }
  }

  predicate NoPruning(config: AuditConfig) {
    config.maxRows == None || (config.overflowPolicy == Halt && config.maxRows != Some(0))
  }

  lemma UnprunedKeepsAll(config: AuditConfig, rows: seq<AuditRow>, log: seq<Event>)
    requires NoPruning(config) && LastEvents(config, rows, log)
    ensures |log| == |rows| && forall i | 0 <= i < |log| :: Carries(rows[i], log[i])
  {
  }

  /**
   Without pruning (no row limit, or the Halt policy) every interleaving of writers,
   commits, rollbacks and failures leaves one linear chain: the committed rows in id
   order are the committed events in order, and a verification pass reports ok with
   their number as total.
   */
  lemma EveryInterleavingVerifies(c: Setup, states: seq<State>, steps: seq<Step>, k: nat, report: ChainVerifyReport)
    requires NoPruning(c.config)
    requires IsRun(Next(c), states, steps) && states[0] == Start([]) && k < |states|
    requires IsReport(c.digest, states[k].committed, report)
    ensures report.ok && report.total == |states[k].log|
    ensures Ascending(states[k].committed)
    ensures forall i | 0 <= i < |states[k].log| :: Carries(states[k].committed[i], states[k].log[i])
  {
    RunRepresents(c, states, steps, k);
    UnprunedKeepsAll(c.config, states[k].committed, states[k].log);
    AcceptedIffHeadAnchored(c, states[k].committed, states[k].log);
  }

  /**
   Under DropOldest with limit L the table holds exactly the last min(L, n) of the n
   committed events, in order, adjacent rows linked.  A verification pass still reports
   ok exactly when nothing was dropped or L is 1; otherwise it names the first
   surviving row and broken linkage.
   */
  lemma DropOldestKeepsLastEvents(c: Setup, states: seq<State>, steps: seq<Step>, k: nat, report: ChainVerifyReport)
    requires c.config.overflowPolicy == DropOldest && c.config.maxRows.Some? && c.config.maxRows.value > 0
    requires IsRun(Next(c), states, steps) && states[0] == Start([]) && k < |states|
    requires IsReport(c.digest, states[k].committed, report)
    ensures var s, limit := states[k], c.config.maxRows.value;
            && |s.committed| == (if |s.log| < limit then |s.log| else limit)
            && LastEvents(c.config, s.committed, s.log) && Chain(c.digest, s.committed) && Ascending(s.committed)
            && (report.ok <==> |s.log| <= limit || limit == 1)
            && (!report.ok ==> report.brokenAt == Some(s.committed[0].id) && report.detail == Some(LinkageBroken))
  {
    RunRepresents(c, states, steps, k);
    var rows := states[k].committed;
    AcceptedIffHeadAnchored(c, rows, states[k].log);
    if !report.ok {
      var i: nat :| FirstDefect(c.digest, rows, i, report.detail.value) && report.brokenAt == Some(rows[i].id);
      assert !(i > 0 && RowOk(c.digest, rows[..i], 0));
    }
  }

  /** Under Halt a table within the limit stays within it, whatever it held at the start. */
  lemma HaltNeverExceedsLimit(c: Setup, states: seq<State>, steps: seq<Step>, k: nat)
    requires c.config.overflowPolicy == Halt && c.config.maxRows.Some?
    requires IsRun(Next(c), states, steps) && states[0] == Start(states[0].committed) && k < |states|
    requires |states[0].committed| <= c.config.maxRows.value
    ensures |states[k].committed| <= c.config.maxRows.value
  {
    var prop: TableProperty := (rows, log) => |rows| <= c.config.maxRows.value;
    assert KeptByAppend(c, prop);
    HoldsThroughout(c, prop, states, steps, k);
  }

  // ----- The halt latch -----

  /** Writers of process `p` that are past the halt check of a write. */
  function InFlight(c: Setup, s: State, p: ProcessId): set<WriterId> {
    set w | w in s.writers && InWrite(s, w) && c.processOf(w) == p
  }

  /** Rows that process `p` appends along the run from step `i` to step `j`. */
  function Appends(c: Setup, steps: seq<Step>, p: ProcessId, i: nat, j: nat): nat
    requires i <= j <= |steps|
    decreases j
  {
    if i == j then 0
    else Appends(c, steps, p, i, j - 1) + (if steps[j - 1].Insert? && c.processOf(steps[j - 1].w) == p then 1 else 0)
  }

  lemma HaltedStep(c: Setup, s: State, step: Step, s': State, p: ProcessId)
    requires IsStep(c, s, step, s') && p in s.halted && step != Clear(p)
    ensures p in s'.halted
    ensures InFlight(c, s', p) <= InFlight(c, s, p)
    ensures step.Insert? && c.processOf(step.w) == p ==> step.w in InFlight(c, s, p) && step.w !in InFlight(c, s', p)
  {
  }

  /**
   Once a process has latched `halted`, and until the latch is cleared, no write that
   starts afterwards appends a row: every append comes from a write already past the
   halt check, at most one from each.
   */
  lemma {:induction false} HaltedProcessStopsAppending(c: Setup, states: seq<State>, steps: seq<Step>, p: ProcessId,
      i: nat, j: nat)
    requires IsRun(Next(c), states, steps) && i <= j < |states|
    requires p in states[i].halted && forall k | i <= k < j :: steps[k] != Clear(p)
    ensures p in states[j].halted
    ensures InFlight(c, states[j], p) <= InFlight(c, states[i], p)
    ensures Appends(c, steps, p, i, j) + |InFlight(c, states[j], p)| <= |InFlight(c, states[i], p)|
    ensures forall k | i <= k < j && steps[k].Insert? && c.processOf(steps[k].w) == p ::
        steps[k].w in InFlight(c, states[i], p)
    decreases j
  {
    if i < j {
      HaltedProcessStopsAppending(c, states, steps, p, i, j - 1);
      var s, step, s' := states[j - 1], steps[j - 1], states[j];
      assert StepAt(Next(c), states, steps, j - 1);
      HaltedStep(c, s, step, s', p);
      var before, after := InFlight(c, s, p), InFlight(c, s', p);
      if step.Insert? && c.processOf(step.w) == p {
        SubsetSize(after, before - {step.w});
      } else {
        SubsetSize(after, before);
      }
    }
  }

  /** The step hands its caller an error from a write or a commit. */
  predicate ReportsError(s: State, step: Step, s': State) {
    || step.DbError?
    || step.CommitFails?
    || (step.Commit? && !step.acknowledged)
    || ((step.Admit? || step.ApplyPolicy?) && At(s', step.w, Failed))
  }

  /** Under Halt a failed write or commit at step `i` stops its process from starting another append. */
  lemma FailureStopsAppending(c: Setup, states: seq<State>, steps: seq<Step>, i: nat, j: nat)
    requires c.config.overflowPolicy == Halt
    requires IsRun(Next(c), states, steps) && i < j < |states| && ReportsError(states[i], steps[i], states[i + 1])
    requires forall k | i < k < j :: steps[k] != Clear(c.processOf(steps[i].w))
    ensures var p := c.processOf(steps[i].w);
            && p in states[j].halted
            && Appends(c, steps, p, i + 1, j) <= |InFlight(c, states[i + 1], p)|
            && forall k | i < k < j && steps[k].Insert? && c.processOf(steps[k].w) == p ::
              steps[k].w in InFlight(c, states[i + 1], p)
  {
    assert StepAt(Next(c), states, steps, i);
    HaltedProcessStopsAppending(c, states, steps, c.processOf(steps[i].w), i + 1, j);
  }
}
