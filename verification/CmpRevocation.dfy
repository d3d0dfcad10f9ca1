/**
 CMP revocation (`src/routes/cmp.rs`; section 5.3.9 of RFC 4210): one pass authorises every
 entry of the request, a second pass revokes row by row, outside any transaction.
 */
module CmpRevocation {
  import opened Prelude

  type Serial = string

  datatype CertRow = CertRow(subject: string, status: string)
  type Certs = map<Serial, CertRow>

  datatype Signer = Signer(subject: string, isRa: bool)

  /** The signer is None when its certificate does not parse. */
  datatype Protection = Mac | Signature(signer: Option<Signer>)

  /** An entry's certificate template: not decodable, or with an optional serial number. */
  datatype Entry = Malformed | Template(serial: Option<Serial>)

  /** The body is None when it does not parse. */
  datatype Request = Request(protection: Protection, body: Option<seq<Entry>>)

  /** Which entries' SELECT or UPDATE fails, and whether encoding the reply does. */
  datatype Faults = Faults(lookups: set<nat>, updates: set<nat>, encoding: bool)

  datatype Error = Forbidden | BadRequest | Auth | Ca | Internal
  datatype Status = Granted
  datatype Reply = Statuses(statuses: seq<Status>) | Refused(error: Error)

  /** What a request does: its reply, the table after it, the serials it reported to the audit log. */
  datatype Served = Served(reply: Reply, certs: Certs, audited: seq<Serial>)

  // ----- Specification -----

  /** Why the authorisation pass refuses entry `i`, if it does. */
  function CheckError(certs: Certs, subject: string, faults: Faults, entries: seq<Entry>, i: nat): Option<Error> {
    if i >= |entries| then None
    else match entries[i]
      case Malformed => Some(BadRequest)
      case Template(None) => None
      case Template(Some(serial)) =>
        if i in faults.lookups then Some(Ca)
        else if serial in certs && certs[serial].subject != subject then Some(Forbidden)
        else None
  }

  /** Why the apply pass stops at entry `i`, if it does. */
  function ApplyError(faults: Faults, entries: seq<Entry>, i: nat): Option<Error> {
    if i >= |entries| then None
    else match entries[i]
      case Malformed => Some(BadRequest)
      case Template(None) => Some(BadRequest)
      case Template(Some(serial)) => if i in faults.updates then Some(Ca) else None
  }

  /** The first entry from `i` on that the authorisation pass refuses, or the end. */
  function CheckStop(certs: Certs, subject: string, faults: Faults, entries: seq<Entry>, i: nat): (k: nat)
    requires i <= |entries|
    ensures i <= k <= |entries|
    ensures forall j | i <= j < k :: CheckError(certs, subject, faults, entries, j) == None
    ensures k < |entries| ==> CheckError(certs, subject, faults, entries, k).Some?
    decreases |entries| - i
  {
    if i == |entries| || CheckError(certs, subject, faults, entries, i).Some? then i
    else CheckStop(certs, subject, faults, entries, i + 1)
  }

  /** The first entry from `i` on that stops the apply pass, or the end. */
  function ApplyStop(faults: Faults, entries: seq<Entry>, i: nat): (k: nat)
    requires i <= |entries|
    ensures i <= k <= |entries|
    ensures forall j | i <= j < k :: ApplyError(faults, entries, j) == None
    ensures k < |entries| ==> ApplyError(faults, entries, k).Some?
    decreases |entries| - i
  {
    if i == |entries| || ApplyError(faults, entries, i).Some? then i else ApplyStop(faults, entries, i + 1)
  }

  /** The refusal, if any, before the table is touched. */
  function Gate(certs: Certs, req: Request, faults: Faults): Option<Error> {
    if req.protection.Mac? then Some(Forbidden)
    else if req.body.None? || req.body.value == [] then Some(BadRequest)
    else if req.protection.signer.None? then Some(Auth)
    else if req.protection.signer.value.isRa then None
    else
      var entries, subject := req.body.value, req.protection.signer.value.subject;
      CheckError(certs, subject, faults, entries, CheckStop(certs, subject, faults, entries, 0))
  }

  predicate Names(entries: seq<Entry>, serial: Serial) {
    Template(Some(serial)) in entries
  }

  function Serials(entries: seq<Entry>): seq<Serial> {
    if entries == [] then []
    else
      var last := entries[|entries| - 1];
      Serials(entries[..|entries| - 1]) + (if last.Template? && last.serial.Some? then [last.serial.value] else [])
  }

  /** The table with the rows named by `entries` revoked. */
  function Revoke(certs: Certs, entries: seq<Entry>): Certs {
    map s | s in certs :: if Names(entries, s) then certs[s].(status := "revoked") else certs[s]
  }

  function Serve(certs: Certs, req: Request, faults: Faults): Served {
    match Gate(certs, req, faults)
    case Some(error) => Served(Refused(error), certs, [])
    case None =>
      var entries := req.body.value;
      var k := ApplyStop(faults, entries, 0);
      var reply :=
        if k < |entries| then Refused(ApplyError(faults, entries, k).value)
        else if faults.encoding then Refused(Internal)
        else Statuses(seq(|entries|, _ => Granted));
      Served(reply, Revoke(certs, entries[..k]), Serials(entries[..k]))
  }

  // ----- The handler -----

  class CmpState {
    var certs: Certs
    var audited: seq<Serial>

    /** The UPDATE: every row with this serial. */
    method MarkRevoked(serial: Serial)
      modifies `certs
      ensures certs == Revoke(old(certs), [Template(Some(serial))])
    {
      if serial in certs { certs := certs[serial := certs[serial].(status := "revoked")]; }
      assert Template(Some(serial)) in [Template(Some(serial))];
    }

    method Authorize(subject: string, entries: seq<Entry>, faults: Faults) returns (error: Option<Error>)
      ensures error == CheckError(certs, subject, faults, entries, CheckStop(certs, subject, faults, entries, 0))
    {
      for i := 0 to |entries|
        invariant CheckStop(certs, subject, faults, entries, 0) == CheckStop(certs, subject, faults, entries, i)
      {
        match entries[i]
        case Malformed => return Some(BadRequest);
        case Template(None) =>
        case Template(Some(serial)) =>
          if i in faults.lookups { return Some(Ca); }
          if serial in certs {
            if certs[serial].subject != subject { return Some(Forbidden); }
          }
      }
      return None;
    }

    method Apply(entries: seq<Entry>, faults: Faults) returns (reply: Reply)
      modifies this
      ensures var k := ApplyStop(faults, entries, 0);
              && certs == Revoke(old(certs), entries[..k])
              && audited == old(audited) + Serials(entries[..k])
              && reply == if k < |entries| then Refused(ApplyError(faults, entries, k).value)
                          else if faults.encoding then Refused(Internal)
                          else Statuses(seq(|entries|, _ => Granted))
    {
      var statuses := [];
      assert certs == Revoke(certs, []);
      for i := 0 to |entries|
        invariant ApplyStop(faults, entries, 0) == ApplyStop(faults, entries, i)
        invariant statuses == seq(i, _ => Granted)
        invariant certs == Revoke(old(certs), entries[..i])
        invariant audited == old(audited) + Serials(entries[..i])
      {
        if entries[i].Malformed? || entries[i].serial.None? { return Refused(BadRequest); }
        var serial := entries[i].serial.value;
        if i in faults.updates { return Refused(Ca); }
        RevokeOneMore(old(certs), entries, i);
        MarkRevoked(serial);
        audited := audited + [serial];
        statuses := statuses + [Granted];
      }
      assert entries == entries[..|entries|];
      if faults.encoding { return Refused(Internal); }
      return Statuses(statuses);
    }

    method ProcessRevocationRequest(req: Request, faults: Faults) returns (reply: Reply)
      modifies this
      ensures Served(reply, certs, audited) ==
              Serve(old(certs), req, faults).(audited := old(audited) + Serve(old(certs), req, faults).audited)
    {
      if req.protection.Mac? { return Refused(Forbidden); }
      if req.body == None || req.body.value == [] { return Refused(BadRequest); }
      if req.protection.signer == None { return Refused(Auth); }
      var signer := req.protection.signer.value;
      if !signer.isRa {
        var error := Authorize(signer.subject, req.body.value, faults);
        if error != None { return Refused(error.value); }
      }
      reply := Apply(req.body.value, faults);
    }
  }

  lemma RevokeOneMore(certs: Certs, entries: seq<Entry>, i: nat)
    requires i < |entries| && entries[i].Template? && entries[i].serial.Some?
    ensures Revoke(Revoke(certs, entries[..i]), [entries[i]]) == Revoke(certs, entries[..i + 1])
    ensures Serials(entries[..i + 1]) == Serials(entries[..i]) + [entries[i].serial.value]
  {
    assert entries[..i + 1] == entries[..i] + [entries[i]];
    assert entries[..i + 1][..i] == entries[..i];
  }

  // ----- One request -----

  /** Past the gate, a signer without RA privilege owns every row that its entries name. */
  lemma OwnRowsOnly(certs: Certs, req: Request, faults: Faults, i: nat)
    requires Gate(certs, req, faults) == None && !req.protection.signer.value.isRa
    requires i < |req.body.value|
    ensures CheckError(certs, req.protection.signer.value.subject, faults, req.body.value, i) == None
  {
    var entries, subject := req.body.value, req.protection.signer.value.subject;
    assert CheckStop(certs, subject, faults, entries, 0) == |entries|;
  }

  predicate MayRevoke(req: Request, row: CertRow) {
    req.protection.Signature? && req.protection.signer.Some?
    && (req.protection.signer.value.isRa || req.protection.signer.value.subject == row.subject)
  }

  /** Only an RA or the row's owner changes a row, and the change is to mark it revoked. */
  lemma OnlyOwnerOrRaRevokes(certs: Certs, req: Request, faults: Faults, serial: Serial)
    requires serial in certs
    ensures Serve(certs, req, faults).certs.Keys == certs.Keys
    ensures Serve(certs, req, faults).certs[serial] != certs[serial] ==>
              && MayRevoke(req, certs[serial])
              && Serve(certs, req, faults).certs[serial] == certs[serial].(status := "revoked")
  {
    if Gate(certs, req, faults) == None && !req.protection.signer.value.isRa {
      var entries := req.body.value;
      var done := entries[..ApplyStop(faults, entries, 0)];
      if Names(done, serial) {
        var i :| 0 <= i < |done| && done[i] == Template(Some(serial));
        OwnRowsOnly(certs, req, faults, i);
      }
    }
  }

  /** Entry `i` is no obstacle to a signer with this subject: no serial, or one looked up and not another's. */
  predicate Passes(certs: Certs, subject: string, faults: Faults, entries: seq<Entry>, i: nat)
    requires i < |entries|
  {
    entries[i].Template? && (entries[i].serial.Some? ==>
                               i !in faults.lookups && (entries[i].serial.value in certs ==>
                                                          certs[entries[i].serial.value].subject == subject))
  }

  predicate SignedBy(req: Request) {
    req.protection.Signature? && req.protection.signer.Some? && req.body.Some? && req.body.value != []
  }

  /** The authorisation pass stops at entry `k`, the first that does not pass. */
  predicate GateStopsAt(certs: Certs, req: Request, faults: Faults, k: nat) {
    && SignedBy(req) && !req.protection.signer.value.isRa && k < |req.body.value|
    && !Passes(certs, req.protection.signer.value.subject, faults, req.body.value, k)
    && forall j | 0 <= j < k :: Passes(certs, req.protection.signer.value.subject, faults, req.body.value, j)
  }

  /** It stops there because the entry names a row of another subject. */
  predicate ForeignAt(certs: Certs, req: Request, faults: Faults, k: nat) {
    && GateStopsAt(certs, req, faults, k) && k !in faults.lookups
    && req.body.value[k].Template? && req.body.value[k].serial.Some? && req.body.value[k].serial.value in certs
    && certs[req.body.value[k].serial.value].subject != req.protection.signer.value.subject
  }

  /** Every entry passes, or the signer is an RA. */
  predicate Authorized(certs: Certs, req: Request, faults: Faults) {
    SignedBy(req)
    && (req.protection.signer.value.isRa
        || forall i | 0 <= i < |req.body.value| ::
             Passes(certs, req.protection.signer.value.subject, faults, req.body.value, i))
  }

  lemma GateByEntries(certs: Certs, req: Request, faults: Faults) returns (k: nat)
    requires SignedBy(req)
    ensures Gate(certs, req, faults) == None <==> Authorized(certs, req, faults)
    ensures Gate(certs, req, faults).Some? ==>
              GateStopsAt(certs, req, faults, k)
              && Gate(certs, req, faults)
                 == CheckError(certs, req.protection.signer.value.subject, faults, req.body.value, k)
    ensures forall j: nat | GateStopsAt(certs, req, faults, j) :: j == k && Gate(certs, req, faults).Some?
  {
    var entries, subject := req.body.value, req.protection.signer.value.subject;
    k := CheckStop(certs, subject, faults, entries, 0);
    forall i | 0 <= i < |entries|
      ensures CheckError(certs, subject, faults, entries, i) == None <==> Passes(certs, subject, faults, entries, i)
    {
    }
    forall j: nat | GateStopsAt(certs, req, faults, j) ensures j == k {
      assert j < k ==> CheckError(certs, subject, faults, entries, j) == None;
      assert k < |entries| ==> !Passes(certs, subject, faults, entries, k);
    }
  }

  /** The authorisation pass stops at a malformed entry. */
  predicate MalformedAt(certs: Certs, req: Request, faults: Faults, k: nat) {
    GateStopsAt(certs, req, faults, k) && req.body.value[k] == Malformed
  }

  /** The authorisation pass stops at a lookup that fails. */
  predicate LookupFailsAt(certs: Certs, req: Request, faults: Faults, k: nat) {
    GateStopsAt(certs, req, faults, k) && req.body.value[k].Template? && k in faults.lookups
  }

  /** The apply pass stops at an entry without a serial number. */
  predicate UnnamedAt(faults: Faults, entries: seq<Entry>, k: nat) {
    StopsAt(faults, entries, k) && k < |entries| && (entries[k].Malformed? || entries[k].serial.None?)
  }

  /** The apply pass stops at an update that fails. */
  predicate UpdateFailsAt(faults: Faults, entries: seq<Entry>, k: nat) {
    StopsAt(faults, entries, k) && k < |entries| && entries[k].Template? && entries[k].serial.Some?
  }

  /** When a request is refused with this error, told from its entries, the table and the faults. */
  ghost predicate RefusedFor(certs: Certs, req: Request, faults: Faults, error: Error) {
    match error
    case Forbidden => req.protection.Mac? || exists k: nat :: ForeignAt(certs, req, faults, k)
    case Auth => req.protection == Signature(None) && req.body.Some? && req.body.value != []
    case BadRequest =>
      req.protection.Signature?
      && (|| req.body == None || req.body == Some([])
          || (exists k: nat :: MalformedAt(certs, req, faults, k))
          || (Authorized(certs, req, faults) && exists k: nat :: UnnamedAt(faults, req.body.value, k)))
    case Ca =>
      || (exists k: nat :: LookupFailsAt(certs, req, faults, k))
      || (Authorized(certs, req, faults) && exists k: nat :: UpdateFailsAt(faults, req.body.value, k))
    case Internal =>
      Authorized(certs, req, faults) && StopsAt(faults, req.body.value, |req.body.value|) && faults.encoding
  }

  lemma ApplyByEntries(faults: Faults, entries: seq<Entry>) returns (k: nat)
    ensures k == ApplyStop(faults, entries, 0) && StopsAt(faults, entries, k)
    ensures forall j: nat | StopsAt(faults, entries, j) :: j == k
  {
    k := ApplyStop(faults, entries, 0);
    forall i | 0 <= i < k ensures entries[i].Template? && entries[i].serial.Some? && i !in faults.updates {
      assert ApplyError(faults, entries, i) == None;
    }
    forall j: nat | StopsAt(faults, entries, j) ensures j == k {
      ApplyStopsThere(faults, entries, j);
    }
  }

  lemma GateErrorIs(certs: Certs, req: Request, faults: Faults, k: nat)
    requires GateStopsAt(certs, req, faults, k)
    ensures var error := CheckError(certs, req.protection.signer.value.subject, faults, req.body.value, k);
            && (error == Some(Forbidden) <==> ForeignAt(certs, req, faults, k))
            && (error == Some(BadRequest) <==> MalformedAt(certs, req, faults, k))
            && (error == Some(Ca) <==> LookupFailsAt(certs, req, faults, k))
            && error != Some(Auth) && error != Some(Internal)
  {
  }

  lemma ApplyErrorIs(faults: Faults, entries: seq<Entry>, k: nat)
    requires StopsAt(faults, entries, k) && k < |entries|
    ensures var error := ApplyError(faults, entries, k);
            && (error == Some(BadRequest) <==> UnnamedAt(faults, entries, k))
            && (error == Some(Ca) <==> UpdateFailsAt(faults, entries, k))
            && (error == Some(BadRequest) || error == Some(Ca))
  {
  }

  /** Each error answers exactly the requests it should. */
  lemma RefusedIff(certs: Certs, req: Request, faults: Faults, error: Error)
    ensures Serve(certs, req, faults).reply == Refused(error) <==> RefusedFor(certs, req, faults, error)
  {
    if SignedBy(req) {
      var entries := req.body.value;
      var g := GateByEntries(certs, req, faults);
      var k := ApplyByEntries(faults, entries);
      if Gate(certs, req, faults).Some? {
        GateErrorIs(certs, req, faults, g);
      } else if k < |entries| {
        ApplyErrorIs(faults, entries, k);
      }
    }
  }

  /**
   A request is Forbidden exactly if it is MAC-protected or its first refused entry names another's row; it changes
   nothing.
   */
  lemma ForbiddenChangesNothing(certs: Certs, req: Request, faults: Faults)
    ensures Serve(certs, req, faults).reply == Refused(Forbidden) <==>
            req.protection.Mac? || exists k: nat :: ForeignAt(certs, req, faults, k)
    ensures Serve(certs, req, faults).reply == Refused(Forbidden) ==>
            Serve(certs, req, faults).certs == certs && Serve(certs, req, faults).audited == []
  {
    RefusedIff(certs, req, faults, Forbidden);
  }

  /** Entry `i` passes both passes. */
  predicate Grants(certs: Certs, signer: Signer, faults: Faults, entries: seq<Entry>, i: nat)
    requires i < |entries|
  {
    && entries[i].Template? && entries[i].serial.Some? && i !in faults.updates
    && (signer.isRa || (i !in faults.lookups && (entries[i].serial.value in certs ==>
                                                   certs[entries[i].serial.value].subject == signer.subject)))
  }

  predicate AllGranted(certs: Certs, req: Request, faults: Faults) {
    && req.protection.Signature? && req.protection.signer.Some?
    && req.body.Some? && req.body.value != [] && !faults.encoding
    && forall i | 0 <= i < |req.body.value| :: Grants(certs, req.protection.signer.value, faults, req.body.value, i)
  }

  lemma SerialsInOrder(entries: seq<Entry>)
    requires forall i | 0 <= i < |entries| :: entries[i].Template? && entries[i].serial.Some?
    ensures |Serials(entries)| == |entries|
    ensures forall i | 0 <= i < |entries| :: Serials(entries)[i] == entries[i].serial.value
  {
  }

  /**
   A request is accepted exactly when every entry is granted; then it revokes every named row
   and no other, and carries one status and one audit event per entry, in order.
   */
  lemma AcceptedIffAllGranted(certs: Certs, req: Request, faults: Faults)
    ensures Serve(certs, req, faults).reply.Statuses? <==> AllGranted(certs, req, faults)
    ensures AllGranted(certs, req, faults) ==>
              var served, entries := Serve(certs, req, faults), req.body.value;
              && |served.reply.statuses| == |served.audited| == |entries|
              && (forall i | 0 <= i < |entries| :: entries[i] == Template(Some(served.audited[i])))
              && served.certs.Keys == certs.Keys
              && forall s | s in certs ::
                   served.certs[s] == if Template(Some(s)) in entries then certs[s].(status := "revoked") else certs[s]
  {
    if AllGranted(certs, req, faults) {
      var entries, signer := req.body.value, req.protection.signer.value;
      var c, k := CheckStop(certs, signer.subject, faults, entries, 0), ApplyStop(faults, entries, 0);
      assert !signer.isRa ==> (c < |entries| ==> Grants(certs, signer, faults, entries, c));
      assert k < |entries| ==> Grants(certs, signer, faults, entries, k);
      assert entries[..k] == entries;
      assert forall i | 0 <= i < |entries| ::
               Grants(certs, signer, faults, entries, i) ==> entries[i].Template? && entries[i].serial.Some?;
      SerialsInOrder(entries);
    } else if Serve(certs, req, faults).reply.Statuses? {
      var entries, signer := req.body.value, req.protection.signer.value;
      var i :| 0 <= i < |entries| && !Grants(certs, signer, faults, entries, i);
      assert ApplyStop(faults, entries, 0) == |entries|;
      assert ApplyError(faults, entries, i) == None;
      if !signer.isRa { OwnRowsOnly(certs, req, faults, i); }
      assert false;
    }
  }

  /** Entry `k` is where the apply pass stops: it fails and every earlier one is applied. */
  predicate StopsAt(faults: Faults, entries: seq<Entry>, k: nat) {
    && k <= |entries|
    && (forall i | 0 <= i < k :: entries[i].Template? && entries[i].serial.Some? && i !in faults.updates)
    && (k < |entries| ==> entries[k].Malformed? || entries[k].serial.None? || k in faults.updates)
  }

  lemma ApplyStopsThere(faults: Faults, entries: seq<Entry>, k: nat)
    requires StopsAt(faults, entries, k)
    ensures ApplyStop(faults, entries, 0) == k
  {
    var a := ApplyStop(faults, entries, 0);
    assert a < |entries| ==> ApplyError(faults, entries, a).Some?;
    assert k < a ==> ApplyError(faults, entries, k) == None;
  }

  /**
   When the apply pass stops, exactly the rows named before the stop are revoked; so the error
   reply leaves the table as it was if and only if those entries name no row still to be revoked.
   */
  lemma StoppedRequestIsPartial(certs: Certs, req: Request, faults: Faults, k: nat)
    requires Authorized(certs, req, faults) && StopsAt(faults, req.body.value, k)
    requires k < |req.body.value| || faults.encoding
    ensures var served, done := Serve(certs, req, faults), req.body.value[..k];
            && served.reply.Refused? && served.certs.Keys == certs.Keys
            && (forall s | s in certs ::
                  served.certs[s] == if Template(Some(s)) in done then certs[s].(status := "revoked") else certs[s])
            && |served.audited| == k && (forall i | 0 <= i < k :: done[i] == Template(Some(served.audited[i])))
            && (served.certs == certs
              <==> forall s | s in certs && Template(Some(s)) in done :: certs[s].status == "revoked")
  {
    var g := GateByEntries(certs, req, faults);
    ApplyStopsThere(faults, req.body.value, k);
    assert forall i | 0 <= i < k :: req.body.value[..k][i] == req.body.value[i];
    SerialsInOrder(req.body.value[..k]);
    RevokeChangesNothingIff(certs, req.body.value[..k]);
  }

  lemma RevokeChangesNothingIff(certs: Certs, entries: seq<Entry>)
    ensures Revoke(certs, entries) == certs
        <==> forall s | s in certs && Names(entries, s) :: certs[s].status == "revoked"
  {
    var after := Revoke(certs, entries);
    if after == certs {
      forall s | s in certs && Names(entries, s) ensures certs[s].status == "revoked" {
        assert after[s].status == "revoked";
      }
    } else {
      var s :| s in certs && after[s] != certs[s];
      assert Names(entries, s) && certs[s].status != "revoked";
    }
  }

  /** A malformed entry makes an owner's request change nothing: the authorisation pass finds it first. */
  lemma MalformedOwnerRequestIsAtomic(certs: Certs, req: Request, faults: Faults)
    requires req.body.Some? && Malformed in req.body.value
    requires req.protection.Signature? && (req.protection.signer.None? || !req.protection.signer.value.isRa)
    ensures Serve(certs, req, faults).reply.Refused? && Serve(certs, req, faults).certs == certs
  {
    if Gate(certs, req, faults) == None {
      var i :| 0 <= i < |req.body.value| && req.body.value[i] == Malformed;
      OwnRowsOnly(certs, req, faults, i);
      assert false;
    }
  }

  /** An RA's request with one is not atomic: the row named before it stays revoked. */
  lemma MalformedRaRequestIsNot(subject: string)
    ensures var certs := map["01" := CertRow(subject, "active")];
            var req := Request(Signature(Some(Signer("ra", true))), Some([Template(Some("01")), Malformed]));
            var served := Serve(certs, req, Faults({}, {}, false));
            served.reply == Refused(BadRequest) && served.certs["01"].status == "revoked"
  {
    var entries := [Template(Some("01")), Malformed];
    ApplyStopsThere(Faults({}, {}, false), entries, 1);
    assert entries[..1][0] == Template(Some("01"));
  }

  // ----- Whole runs of requests -----

  datatype Call = Call(req: Request, faults: Faults)

  function Final(certs: Certs, calls: seq<Call>): Certs {
    if calls == [] then certs else Final(Serve(certs, calls[0].req, calls[0].faults).certs, calls[1..])
  }

  /** The entries that a call applies to `certs`. */
  function Applied(certs: Certs, call: Call): seq<Entry> {
    if Gate(certs, call.req, call.faults).Some? then []
    else call.req.body.value[..ApplyStop(call.faults, call.req.body.value, 0)]
  }

  predicate SameSubjects(a: Certs, b: Certs) {
    a.Keys == b.Keys && forall s | s in a :: a[s].subject == b[s].subject
  }

  lemma {:induction false} SameStop(a: Certs, b: Certs, subject: string, faults: Faults, entries: seq<Entry>, i: nat)
    requires SameSubjects(a, b) && i <= |entries|
    ensures CheckStop(a, subject, faults, entries, i) == CheckStop(b, subject, faults, entries, i)
    decreases |entries| - i
  {
    if i < |entries| {
      assert CheckError(a, subject, faults, entries, i) == CheckError(b, subject, faults, entries, i);
      if CheckError(a, subject, faults, entries, i).None? { SameStop(a, b, subject, faults, entries, i + 1); }
    }
  }

  /** The gate looks only at who owns which serial. */
  lemma SameGate(a: Certs, b: Certs, req: Request, faults: Faults)
    requires SameSubjects(a, b)
    ensures Gate(a, req, faults) == Gate(b, req, faults)
  {
    if req.protection.Signature? && req.body.Some? && req.protection.signer.Some? {
      SameStop(a, b, req.protection.signer.value.subject, faults, req.body.value, 0);
    }
  }

  ghost predicate AppliedByOne(certs: Certs, calls: seq<Call>, serial: Serial) {
    exists call :: call in calls && Names(Applied(certs, call), serial)
  }

  ghost function RevokeAll(certs: Certs, calls: seq<Call>, current: Certs): Certs {
    map s | s in current :: if AppliedByOne(certs, calls, s) then current[s].(status := "revoked") else current[s]
  }

  lemma ServeApplies(certs: Certs, current: Certs, call: Call)
    requires SameSubjects(certs, current)
    ensures Serve(current, call.req, call.faults).certs == Revoke(current, Applied(certs, call))
    ensures SameSubjects(certs, Revoke(current, Applied(certs, call)))
  {
    SameGate(certs, current, call.req, call.faults);
    assert Revoke(current, []) == current;
  }

  lemma {:induction false} FinalFrom(certs: Certs, current: Certs, calls: seq<Call>)
    requires SameSubjects(certs, current)
    ensures Final(current, calls) == RevokeAll(certs, calls, current)
    decreases |calls|
  {
    if calls != [] {
      var next := Revoke(current, Applied(certs, calls[0]));
      ServeApplies(certs, current, calls[0]);
      FinalFrom(certs, next, calls[1..]);
      forall s | s in current
        ensures AppliedByOne(certs, calls, s)
            <==> Names(Applied(certs, calls[0]), s) || AppliedByOne(certs, calls[1..], s)
      {
        HeadOrTail(certs, calls, s);
      }
      assert RevokeAll(certs, calls[1..], next) == RevokeAll(certs, calls, current);
    }
  }

  lemma HeadOrTail(certs: Certs, calls: seq<Call>, serial: Serial)
    requires calls != []
    ensures AppliedByOne(certs, calls, serial) <==>
            Names(Applied(certs, calls[0]), serial) || AppliedByOne(certs, calls[1..], serial)
  {
    assert calls == [calls[0]] + calls[1..];
    if Names(Applied(certs, calls[0]), serial) { assert calls[0] in calls; }
  }

  /**
   After any run of requests a row is changed exactly if some request, judged against the table
   before the run, names it ahead of its stop; every such request is an RA's or the owner's.
   */
  lemma RunRevokesWhatIsAuthorized(certs: Certs, calls: seq<Call>, serial: Serial)
    requires serial in certs
    ensures Final(certs, calls).Keys == certs.Keys
    ensures Final(certs, calls)[serial] ==
            if AppliedByOne(certs, calls, serial) then certs[serial].(status := "revoked") else certs[serial]
    ensures forall call | call in calls && Names(Applied(certs, call), serial) :: MayRevoke(call.req, certs[serial])
  {
    FinalFrom(certs, certs, calls);
    forall call | call in calls && Names(Applied(certs, call), serial) ensures MayRevoke(call.req, certs[serial]) {
      var i :| 0 <= i < |Applied(certs, call)| && Applied(certs, call)[i] == Template(Some(serial));
      if !call.req.protection.signer.value.isRa { OwnRowsOnly(certs, call.req, call.faults, i); }
    }
  }

  /** The order of the requests does not matter to the final table. */
  lemma RunsCommute(certs: Certs, calls: seq<Call>, others: seq<Call>)
    requires multiset(calls) == multiset(others)
    ensures Final(certs, calls) == Final(certs, others)
  {
    FinalFrom(certs, certs, calls);
    FinalFrom(certs, certs, others);
    assert forall call :: call in calls <==> call in multiset(calls);
    assert forall call :: call in others <==> call in multiset(others);
  }
}
