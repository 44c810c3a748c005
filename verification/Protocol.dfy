/** CSR approval as a protocol: any number of operators run the steps of an approval,
    interleaved with submissions, rejections and every other store operation. */
module Protocol {
  import opened Text
  import opened Tables
  import opened Lifecycle
  import opened Runs
  import opened Approval

  /** Where an operator stands: it holds the request it loaded and, once inserted, a certificate id. */
  datatype Phase =
    | Idle
    | Loaded(req: CsrRequest)
    | Inserted(req: CsrRequest, cert: Id)
    | Ready(req: CsrRequest, cert: Id)

  type Operator = nat

  datatype World = World(db: Db, operators: map<Operator, Phase>)

  datatype Step =
    | Submit(draft: CsrDraft)
    | Load(op: Operator, id: Id)
    | InsertLeaf(op: Operator, sansCsv: string, sansHash: string, issuerCa: Id, s: Signed, now: int)
    | Reload(op: Operator)
    | Mark(op: Operator, note: string)
    | Reject(id: Id, note: string)
    | GiveUp(op: Operator)
    | Other(event: Event)

  function PhaseOf(w: World, op: Operator): Phase {
    if op in w.operators then w.operators[op] else Idle
  }

  ghost function Inserting(req: CsrRequest, st: Step): Event
    requires st.InsertLeaf?
  {
    if req.kind == Public then Event(UpsertPublic(PublicDraft(req, st.sansCsv, st.sansHash, st.s)), st.now)
    else Event(UpsertPrivate(PrivateDraft(req, st.issuerCa, st.s)), st.now)
  }

  ghost function InsertOutcome(w: World, req: CsrRequest, st: Step): Outcome
    requires st.InsertLeaf?
  {
    if req.kind == Public then PublicOutcome(w.db, PublicDraft(req, st.sansCsv, st.sansHash, st.s), st.now)
    else PrivateOutcome(w.db, PrivateColumns(PrivateDraft(req, st.issuerCa, st.s)), st.now)
  }

  /** A private approval reloads its own row by id; a public one re-reads the active row of the common name. */
  ghost predicate Reloads(db: Db, req: CsrRequest, inserted: Id, cert: Id) {
    if req.kind == Private then cert == inserted && cert in db.privates
    else ActiveLeaf(db.publics, cert, req.commonName)
  }

  /** One step; a step that is not enabled changes nothing. */
  ghost function Next(w: World, st: Step): World {
    match st
    case Submit(d) =>
      w.(db := w.db.(requests := CreateRequest(w.db.requests, d.(status := Pending, issuedCert := "", note := ""))))
    case Load(op, id) =>
      if IsPending(w.db.requests, id) then w.(operators := w.operators[op := Loaded(w.db.requests[id])]) else w
    case InsertLeaf(op, _, _, _, s, _) =>
      if !PhaseOf(w, op).Loaded? then w
      else
        var req := PhaseOf(w, op).req;
        World(Apply(w.db, Inserting(req, st)),
              w.operators[op := if InsertOutcome(w, req, st) == Done then Inserted(req, s.id) else Idle])
    case Reload(op) =>
      if !PhaseOf(w, op).Inserted? then w
      else
        var req, inserted := PhaseOf(w, op).req, PhaseOf(w, op).cert;
        if cert :| Reloads(w.db, req, inserted, cert) then w.(operators := w.operators[op := Ready(req, cert)])
        else w.(operators := w.operators[op := Idle])
    case Mark(op, note) =>
      if !PhaseOf(w, op).Ready? then w
      else
        var req, cert := PhaseOf(w, op).req, PhaseOf(w, op).cert;
        World(w.db.(requests := MarkIssued(w.db.requests, req.id, cert, note)), w.operators[op := Idle])
    case Reject(id, note) => w.(db := w.db.(requests := MarkRejected(w.db.requests, id, note)))
    case GiveUp(op) => w.(operators := w.operators[op := Idle])
    case Other(e) => w.(db := Apply(w.db, e))
  }

  ghost function RunSteps(w: World, steps: seq<Step>): World {
    if steps == [] then w else Next(RunSteps(w, steps[..|steps| - 1]), steps[|steps| - 1])
  }

  // --------------------------------------------------------------- invariant

  /** The certificate row carries the request's own names. */
  predicate Names(db: Db, req: CsrRequest, cert: Id) {
    match req.kind
    case Private => cert in db.privates && db.privates[cert].commonName == req.commonName
                    && db.privates[cert].sansCsv == req.sansCsv
    case Public => cert in db.publics && db.publics[cert].commonName == req.commonName
  }

  /** The columns of a request that no update touches. */
  predicate SameRequest(a: CsrRequest, b: CsrRequest) {
    a.id == b.id && a.kind == b.kind && a.commonName == b.commonName && a.sansCsv == b.sansCsv
  }

  predicate IssuedPrivate(t: CsrTable, id: Id) {
    id in t && t[id].status == Issued && t[id].kind == Private
  }

  predicate HoldsPrivate(w: World, op: Operator) {
    var p := PhaseOf(w, op);
    (p.Inserted? || p.Ready?) && p.req.kind == Private
  }

  predicate RequestOk(db: Db, id: Id)
    requires id in db.requests
  {
    var req := db.requests[id];
    && NullIfBlank(req.sansCsv) == req.sansCsv
    && (req.status == Issued ==> Names(db, req, req.issuedCert))
  }

  predicate PhaseOk(w: World, op: Operator) {
    var p := PhaseOf(w, op);
    && (!p.Idle? ==> p.req.id in w.db.requests && SameRequest(w.db.requests[p.req.id], p.req))
    && (p.Inserted? || p.Ready? ==> Names(w.db, p.req, p.cert))
  }

  ghost predicate OneNamePerCert(t: CsrTable) {
    forall a, b {:trigger IssuedPrivate(t, a), IssuedPrivate(t, b)} ::
      IssuedPrivate(t, a) && IssuedPrivate(t, b) && t[a].issuedCert == t[b].issuedCert ==> a == b
  }

  /** A private certificate held by an operator is named by no request and held by no other operator. */
  ghost predicate HeldApart(w: World) {
    && (forall op, id {:trigger HoldsPrivate(w, op), IssuedPrivate(w.db.requests, id)} ::
          HoldsPrivate(w, op) && IssuedPrivate(w.db.requests, id) ==> PhaseOf(w, op).cert != w.db.requests[id].issuedCert)
    && (forall a, b {:trigger HoldsPrivate(w, a), HoldsPrivate(w, b)} ::
          HoldsPrivate(w, a) && HoldsPrivate(w, b) && PhaseOf(w, a).cert == PhaseOf(w, b).cert ==> a == b)
  }

  ghost predicate ProtocolInv(w: World) {
    && Schema(w.db)
    && (forall id {:trigger RequestOk(w.db, id)} | id in w.db.requests :: RequestOk(w.db, id))
    && (forall op {:trigger PhaseOk(w, op)} :: PhaseOk(w, op))
    && OneNamePerCert(w.db.requests)
    && HeldApart(w)
  }

  /** A request that has left pending never changes again, and its own columns never change. */
  predicate RequestsProgress(t: CsrTable, u: CsrTable) {
    forall id {:trigger t[id]} {:trigger u[id]} | id in t ::
      id in u && SameRequest(t[id], u[id]) && (t[id].status != Pending ==> u[id] == t[id])
  }

  // -------------------------------------------------- store steps keep names

  lemma NamesKept(a: Db, b: Db, req: CsrRequest, cert: Id)
    requires Progress(a, b) && Names(a, req, cert)
    ensures Names(b, req, cert)
  {
    if req.kind == Private {
      assert LeafProgress(a.privates[cert], b.privates[cert]);
    } else {
      assert LeafProgress(a.publics[cert], b.publics[cert]);
    }
  }

  lemma UpsertKeepsRequests(db: Db, d: LeafDraft, c: CaDraft, now: int)
    ensures AfterUpsertPublic(db, d, now).requests == db.requests
    ensures AfterUpsertPrivate(db, d, now).requests == db.requests
    ensures AfterUpsertRoot(db, c, now).requests == db.requests
    ensures AfterUpsertIntermediate(db, c, now).requests == db.requests
  {
  }

  lemma ApplyKeepsRequests(db: Db, e: Event)
    ensures Apply(db, e).requests == db.requests
  {
    var c := CaDraft("", "", "", "", None, "", None, "");
    var l := LeafDraft("", "", "", "", "", "", None, "", None, None, "");
    match e.op
    case UpsertPublic(d) => UpsertKeepsRequests(db, d, c, e.now);
    case UpsertPrivate(d) => UpsertKeepsRequests(db, PrivateColumns(d), c, e.now);
    case UpsertRoot(d) => UpsertKeepsRequests(db, l, d, e.now);
    case UpsertIntermediate(d) => UpsertKeepsRequests(db, l, d, e.now);
    case _ =>
  }

  lemma ProgressKeepsRows(w: World, db: Db)
    requires ProtocolInv(w) && Progress(w.db, db) && db.requests == w.db.requests
    ensures forall id {:trigger RequestOk(db, id)} | id in db.requests :: RequestOk(db, id)
    ensures forall op {:trigger PhaseOk(w.(db := db), op)} :: PhaseOk(w.(db := db), op)
  {
    forall id | id in db.requests ensures RequestOk(db, id) {
      assert RequestOk(w.db, id);
      if db.requests[id].status == Issued {
        NamesKept(w.db, db, db.requests[id], db.requests[id].issuedCert);
      }
    }
    forall op ensures PhaseOk(w.(db := db), op) {
      assert PhaseOk(w, op);
      var p := PhaseOf(w, op);
      if p.Inserted? || p.Ready? {
        NamesKept(w.db, db, p.req, p.cert);
      }
    }
  }

  lemma OtherKeepsInv(w: World, e: Event)
    requires ProtocolInv(w)
    ensures ProtocolInv(w.(db := Apply(w.db, e)))
  {
    var v := w.(db := Apply(w.db, e));
    ApplyKeepsRequests(w.db, e);
    assert Schema(v.db) by { ApplyKeepsSchema(w.db, e); }
    assert Progress(w.db, v.db) by { ApplyProgress(w.db, e); }
    ProgressKeepsRows(w, v.db);
    assert forall op :: HoldsPrivate(v, op) <==> HoldsPrivate(w, op);
  }

  /** No request names this private certificate and no operator but `op` holds it. */
  ghost predicate Unclaimed(w: World, op: Operator, cert: Id) {
    && (forall id {:trigger IssuedPrivate(w.db.requests, id)} ::
          IssuedPrivate(w.db.requests, id) ==> w.db.requests[id].issuedCert != cert)
    && (forall other {:trigger HoldsPrivate(w, other)} ::
          HoldsPrivate(w, other) && other != op ==> PhaseOf(w, other).cert != cert)
  }

  lemma PhaseKeepsApart(w: World, op: Operator, p: Phase)
    requires HeldApart(w)
    requires HoldsPrivate(w.(operators := w.operators[op := p]), op) ==> Unclaimed(w, op, p.cert)
    ensures HeldApart(w.(operators := w.operators[op := p]))
  {
    var v := w.(operators := w.operators[op := p]);
    forall other ensures other != op ==> (HoldsPrivate(v, other) <==> HoldsPrivate(w, other)) {
    }
    forall a, b | HoldsPrivate(v, a) && HoldsPrivate(v, b) && PhaseOf(v, a).cert == PhaseOf(v, b).cert ensures a == b {
      assert a != op ==> HoldsPrivate(w, a);
      assert b != op ==> HoldsPrivate(w, b);
    }
  }

  /** Changing one operator's phase keeps the invariant when the new phase is sound and its private certificate unclaimed. */
  lemma PhaseKeepsInv(w: World, op: Operator, p: Phase)
    requires ProtocolInv(w)
    requires var v := w.(operators := w.operators[op := p]);
      PhaseOk(v, op) && (HoldsPrivate(v, op) ==> Unclaimed(w, op, p.cert))
    ensures ProtocolInv(w.(operators := w.operators[op := p]))
  {
    var v := w.(operators := w.operators[op := p]);
    forall other ensures PhaseOk(v, other) {
      assert PhaseOk(w, other);
    }
    PhaseKeepsApart(w, op, p);
  }

  lemma LoadKeepsInv(w: World, op: Operator, id: Id)
    requires ProtocolInv(w)
    ensures ProtocolInv(Next(w, Load(op, id)))
  {
    if IsPending(w.db.requests, id) {
      PhaseKeepsInv(w, op, Loaded(w.db.requests[id]));
    }
  }

  /** An insert that succeeded added a row that was not there, so nothing names it yet. */
  lemma InsertedFresh(w: World, req: CsrRequest, st: Step)
    requires st.InsertLeaf? && InsertOutcome(w, req, st) == Done && NullIfBlank(req.sansCsv) == req.sansCsv
    ensures Names(Apply(w.db, Inserting(req, st)), req, st.s.id)
    ensures if req.kind == Private then st.s.id !in w.db.privates else st.s.id !in w.db.publics
  {
  }

  lemma FreshUnclaimed(w: World, op: Operator, cert: Id, db: Db)
    requires ProtocolInv(w) && cert !in w.db.privates && db.requests == w.db.requests
    ensures Unclaimed(w.(db := db), op, cert)
  {
    var v := w.(db := db);
    forall id | IssuedPrivate(v.db.requests, id) ensures v.db.requests[id].issuedCert != cert {
      assert RequestOk(w.db, id);
    }
    forall other | HoldsPrivate(v, other) ensures PhaseOf(v, other).cert != cert {
      assert PhaseOk(w, other);
    }
  }

  lemma InsertKeepsInv(w: World, st: Step)
    requires ProtocolInv(w) && st.InsertLeaf? && PhaseOf(w, st.op).Loaded?
    ensures ProtocolInv(Next(w, st))
  {
    var req := PhaseOf(w, st.op).req;
    assert PhaseOk(w, st.op) && RequestOk(w.db, req.id);
    var e := Inserting(req, st);
    var v := w.(db := Apply(w.db, e));
    assert ProtocolInv(v) by { OtherKeepsInv(w, e); }
    ApplyKeepsRequests(w.db, e);
    if InsertOutcome(w, req, st) == Done {
      InsertedFresh(w, req, st);
      assert req.kind == Private ==> Unclaimed(v, st.op, st.s.id) by {
        if req.kind == Private {
          FreshUnclaimed(w, st.op, st.s.id, v.db);
        }
      }
      PhaseKeepsInv(v, st.op, Inserted(req, st.s.id));
    } else {
      PhaseKeepsInv(v, st.op, Idle);
    }
  }

  lemma ReloadKeepsInv(w: World, op: Operator)
    requires ProtocolInv(w) && PhaseOf(w, op).Inserted?
    ensures ProtocolInv(Next(w, Reload(op)))
  {
    var req, inserted := PhaseOf(w, op).req, PhaseOf(w, op).cert;
    assert PhaseOk(w, op);
    if cert :| Reloads(w.db, req, inserted, cert) {
      var p := PhaseOf(Next(w, Reload(op)), op);
      assert Reloads(w.db, req, inserted, p.cert);
      assert req.kind == Private ==> HoldsPrivate(w, op);
      PhaseKeepsInv(w, op, p);
    } else {
      PhaseKeepsInv(w, op, Idle);
    }
  }

  /** The row claims no private certificate that another request names or an operator holds. */
  ghost predicate ClaimsAlone(w: World, id: Id, row: CsrRequest) {
    row.status == Issued && row.kind == Private ==>
      && (forall other {:trigger IssuedPrivate(w.db.requests, other)} ::
            IssuedPrivate(w.db.requests, other) && other != id ==> w.db.requests[other].issuedCert != row.issuedCert)
      && (forall op {:trigger HoldsPrivate(w, op)} :: HoldsPrivate(w, op) ==> PhaseOf(w, op).cert != row.issuedCert)
  }

  lemma RowKeepsClaims(w: World, id: Id, row: CsrRequest)
    requires OneNamePerCert(w.db.requests) && HeldApart(w) && ClaimsAlone(w, id, row)
    ensures OneNamePerCert(w.db.requests[id := row])
    ensures HeldApart(w.(db := w.db.(requests := w.db.requests[id := row])))
  {
    var v := w.(db := w.db.(requests := w.db.requests[id := row]));
    forall other | other != id ensures IssuedPrivate(v.db.requests, other) <==> IssuedPrivate(w.db.requests, other) {
    }
    forall a, b | IssuedPrivate(v.db.requests, a) && IssuedPrivate(v.db.requests, b)
                  && v.db.requests[a].issuedCert == v.db.requests[b].issuedCert
      ensures a == b
    {
      assert a != id ==> IssuedPrivate(w.db.requests, a);
      assert b != id ==> IssuedPrivate(w.db.requests, b);
    }
    assert forall op :: HoldsPrivate(v, op) <==> HoldsPrivate(w, op);
  }

  /** Replacing one request's row, when the new row is sound and claims no private certificate in use. */
  lemma RowKeepsInv(w: World, id: Id, row: CsrRequest)
    requires ProtocolInv(w) && row.id == id && ClaimsAlone(w, id, row)
    requires RequestOk(w.db.(requests := w.db.requests[id := row]), id)
    requires id in w.db.requests ==> SameRequest(w.db.requests[id], row)
    ensures ProtocolInv(w.(db := w.db.(requests := w.db.requests[id := row])))
  {
    var v := w.(db := w.db.(requests := w.db.requests[id := row]));
    forall other | other in v.db.requests ensures RequestOk(v.db, other) {
      if other != id {
        assert RequestOk(w.db, other);
      }
    }
    forall op ensures PhaseOk(v, op) {
      assert PhaseOk(w, op);
    }
    RowKeepsClaims(w, id, row);
  }

  lemma MarkKeepsInv(w: World, op: Operator, note: string)
    requires ProtocolInv(w) && PhaseOf(w, op).Ready?
    ensures ProtocolInv(Next(w, Mark(op, note)))
  {
    var req, cert := PhaseOf(w, op).req, PhaseOf(w, op).cert;
    assert PhaseOk(w, op) && RequestOk(w.db, req.id);
    assert req.kind == Private ==> HoldsPrivate(w, op);
    PhaseKeepsInv(w, op, Idle);
    if IsPending(w.db.requests, req.id) {
      var v := w.(operators := w.operators[op := Idle]);
      forall other | HoldsPrivate(v, other) ensures HoldsPrivate(w, other) && other != op {
      }
      RowKeepsInv(v, req.id, w.db.requests[req.id].(status := Issued, issuedCert := cert, note := NullIfBlank(note)));
    }
  }

  lemma RejectKeepsInv(w: World, id: Id, note: string)
    requires ProtocolInv(w)
    ensures ProtocolInv(Next(w, Reject(id, note)))
  {
    if IsPending(w.db.requests, id) {
      assert RequestOk(w.db, id);
      RowKeepsInv(w, id, w.db.requests[id].(status := Rejected, note := NullIfBlank(note)));
    }
  }

  lemma SubmitKeepsInv(w: World, d: CsrDraft)
    requires ProtocolInv(w)
    ensures ProtocolInv(Next(w, Submit(d)))
  {
    var q := d.(status := Pending, issuedCert := "", note := "");
    if CreateOutcome(w.db.requests, q) == Done {
      RowKeepsInv(w, q.id, NewRequest(q, KindOf(q.kind).value));
    }
  }

  lemma NextKeepsInv(w: World, st: Step)
    requires ProtocolInv(w)
    ensures ProtocolInv(Next(w, st))
  {
    match st
    case Submit(d) => SubmitKeepsInv(w, d);
    case Load(op, id) => LoadKeepsInv(w, op, id);
    case InsertLeaf(op, _, _, _, _, _) => if PhaseOf(w, op).Loaded? { InsertKeepsInv(w, st); }
    case Reload(op) => if PhaseOf(w, op).Inserted? { ReloadKeepsInv(w, op); }
    case Mark(op, note) => if PhaseOf(w, op).Ready? { MarkKeepsInv(w, op, note); }
    case Reject(id, note) => RejectKeepsInv(w, id, note);
    case GiveUp(op) => PhaseKeepsInv(w, op, Idle);
    case Other(e) => OtherKeepsInv(w, e);
  }

  lemma CreateProgress(t: CsrTable, d: CsrDraft)
    ensures RequestsProgress(t, t) && RequestsProgress(t, CreateRequest(t, d))
  {
  }

  lemma MarkProgress(t: CsrTable, id: Id, cert: Id, note: string)
    ensures RequestsProgress(t, MarkIssued(t, id, cert, note)) && RequestsProgress(t, MarkRejected(t, id, note))
  {
  }

  /** Only a submission, a mark and a rejection touch the requests. */
  lemma RequestsKept(w: World, st: Step)
    requires !st.Submit? && !st.Mark? && !st.Reject?
    ensures Next(w, st).db.requests == w.db.requests
  {
    if st.Other? {
      ApplyKeepsRequests(w.db, st.event);
    } else if st.InsertLeaf? && PhaseOf(w, st.op).Loaded? {
      ApplyKeepsRequests(w.db, Inserting(PhaseOf(w, st.op).req, st));
    }
  }

  lemma NextProgress(w: World, st: Step)
    ensures RequestsProgress(w.db.requests, Next(w, st).db.requests)
  {
    var t := w.db.requests;
    if st.Submit? {
      CreateProgress(t, st.draft.(status := Pending, issuedCert := "", note := ""));
    } else if st.Mark? {
      CreateProgress(t, CsrDraft("", "", "", "", "", "", Pending, "", ""));
      if PhaseOf(w, st.op).Ready? {
        MarkProgress(t, PhaseOf(w, st.op).req.id, PhaseOf(w, st.op).cert, st.note);
      }
    } else if st.Reject? {
      MarkProgress(t, st.id, "", st.note);
    } else {
      RequestsKept(w, st);
      CreateProgress(t, CsrDraft("", "", "", "", "", "", Pending, "", ""));
    }
  }

  // ------------------------------------------------------------- whole runs

  lemma {:induction false} RunStepsKeepsInv(w: World, steps: seq<Step>)
    requires ProtocolInv(w)
    ensures ProtocolInv(RunSteps(w, steps))
  {
    if steps != [] {
      var n := |steps| - 1;
      RunStepsKeepsInv(w, steps[..n]);
      NextKeepsInv(RunSteps(w, steps[..n]), steps[n]);
    }
  }

  /** In every interleaving, an issued request names an existing certificate with its own
      names, and no two issued private requests name the same one. */
  lemma IssuedRequestsAreServed(steps: seq<Step>)
    ensures var db := RunSteps(World(EMPTY, map[]), steps).db;
      && (forall id | id in db.requests && db.requests[id].status == Issued ::
            Names(db, db.requests[id], db.requests[id].issuedCert))
      && (forall a, b | IssuedPrivate(db.requests, a) && IssuedPrivate(db.requests, b)
                        && db.requests[a].issuedCert == db.requests[b].issuedCert :: a == b)
  {
    var w0 := World(EMPTY, map[]);
    assert forall op :: PhaseOf(w0, op) == Idle;
    RunStepsKeepsInv(w0, steps);
    var db := RunSteps(w0, steps).db;
    forall id | id in db.requests && db.requests[id].status == Issued
      ensures Names(db, db.requests[id], db.requests[id].issuedCert)
    {
      assert RequestOk(db, id);
    }
  }

  /** In every interleaving, a request leaves pending at most once and then stays as it is. */
  lemma {:induction false} DecidedOnce(w: World, steps: seq<Step>)
    requires ProtocolInv(w)
    ensures RequestsProgress(w.db.requests, RunSteps(w, steps).db.requests)
  {
    if steps != [] {
      var n := |steps| - 1;
      var mid := RunSteps(w, steps[..n]);
      DecidedOnce(w, steps[..n]);
      RunStepsKeepsInv(w, steps[..n]);
      NextProgress(mid, steps[n]);
      forall id | id in w.db.requests
        ensures id in RunSteps(w, steps).db.requests
             && SameRequest(w.db.requests[id], RunSteps(w, steps).db.requests[id])
             && (w.db.requests[id].status != Pending ==> RunSteps(w, steps).db.requests[id] == w.db.requests[id])
      {
        assert mid.db.requests[id].id == id;
      }
    }
  }

  /** The step decides request `id`: a rejection of it, or the mark of an operator that is ready to. */
  predicate Decides(w: World, st: Step, id: Id) {
    || (st.Reject? && st.id == id)
    || (st.Mark? && PhaseOf(w, st.op).Ready? && PhaseOf(w, st.op).req.id == id)
  }

  lemma PendingStep(w: World, st: Step, id: Id)
    requires IsPending(w.db.requests, id)
    ensures IsPending(Next(w, st).db.requests, id) <==> !Decides(w, st, id)
  {
    if st.Other? {
      ApplyKeepsRequests(w.db, st.event);
    }
    if st.InsertLeaf? && PhaseOf(w, st.op).Loaded? {
      ApplyKeepsRequests(w.db, Inserting(PhaseOf(w, st.op).req, st));
    }
  }

  ghost predicate Undecided(w: World, steps: seq<Step>, id: Id) {
    forall i | 0 <= i < |steps| :: !DecidesAt(w, steps, i, id)
  }

  ghost predicate DecidesAt(w: World, steps: seq<Step>, i: nat, id: Id)
    requires i < |steps|
  {
    Decides(RunSteps(w, steps[..i]), steps[i], id)
  }

  lemma UndecidedNext(w: World, steps: seq<Step>, id: Id)
    requires steps != []
    ensures Undecided(w, steps, id) <==>
            Undecided(w, steps[..|steps| - 1], id) && !DecidesAt(w, steps, |steps| - 1, id)
  {
    var init := steps[..|steps| - 1];
    forall i | 0 <= i < |init| ensures DecidesAt(w, steps, i, id) == DecidesAt(w, init, i, id) {
      assert init[..i] == steps[..i];
    }
    if Undecided(w, steps, id) {
      forall i | 0 <= i < |init| ensures !DecidesAt(w, init, i, id) {
        assert !DecidesAt(w, steps, i, id);
      }
    } else {
      var i :| 0 <= i < |steps| && DecidesAt(w, steps, i, id);
      assert i < |init| ==> DecidesAt(w, init, i, id);
    }
  }

  /** From any point at which a request is pending, it is still pending exactly if no step since decided it. */
  lemma {:induction false} PendingIff(w: World, steps: seq<Step>, id: Id)
    requires ProtocolInv(w) && IsPending(w.db.requests, id)
    ensures IsPending(RunSteps(w, steps).db.requests, id) <==> Undecided(w, steps, id)
  {
    if steps != [] {
      var init, mid := steps[..|steps| - 1], RunSteps(w, steps[..|steps| - 1]);
      PendingIff(w, init, id);
      UndecidedNext(w, steps, id);
      if IsPending(mid.db.requests, id) {
        PendingStep(mid, steps[|steps| - 1], id);
      } else {
        RunStepsKeepsInv(w, init);
        RequestStays(w, init, id);
        DecidedStays(mid, steps[|steps| - 1], id);
      }
    }
  }

  lemma RequestStays(w: World, steps: seq<Step>, id: Id)
    requires ProtocolInv(w) && id in w.db.requests
    ensures id in RunSteps(w, steps).db.requests
  {
    DecidedOnce(w, steps);
    assert w.db.requests[id].id == id;
  }

  lemma DecidedStays(w: World, st: Step, id: Id)
    requires ProtocolInv(w) && !IsPending(w.db.requests, id) && id in w.db.requests
    ensures !IsPending(Next(w, st).db.requests, id)
  {
    NextProgress(w, st);
    assert w.db.requests[id].id == id;
  }

  /** An operator's mark names its certificate exactly when the request is pending at that moment. */
  lemma MarkNamesIff(w: World, op: Operator, note: string)
    requires ProtocolInv(w) && PhaseOf(w, op).Ready? && PhaseOf(w, op).req.kind == Private
    ensures var req, cert := PhaseOf(w, op).req, PhaseOf(w, op).cert;
      var t := Next(w, Mark(op, note)).db.requests;
      (exists id :: IssuedPrivate(t, id) && t[id].issuedCert == cert) <==> IsPending(w.db.requests, req.id)
  {
    var req, cert := PhaseOf(w, op).req, PhaseOf(w, op).cert;
    var t := Next(w, Mark(op, note)).db.requests;
    assert PhaseOk(w, op) && HoldsPrivate(w, op);
    if IsPending(w.db.requests, req.id) {
      assert IssuedPrivate(t, req.id) && t[req.id].issuedCert == cert;
    } else {
      forall id | IssuedPrivate(t, id) ensures t[id].issuedCert != cert {
        assert IssuedPrivate(w.db.requests, id);
      }
    }
  }

  /** So, from the load on, whatever happens in between: when the operator that loaded a pending
      private request comes to mark it, its certificate gets named exactly if no step since the
      load decided the request. */
  lemma MarkNamesUnlessDecided(w: World, op: Operator, id: Id, steps: seq<Step>, note: string)
    requires ProtocolInv(w) && IsPending(w.db.requests, id)
    requires
      var v := RunSteps(Next(w, Load(op, id)), steps);
      PhaseOf(v, op).Ready? && PhaseOf(v, op).req.kind == Private && PhaseOf(v, op).req.id == id
    ensures
      var u := Next(w, Load(op, id));
      var v := RunSteps(u, steps);
      var t := Next(v, Mark(op, note)).db.requests;
      (exists x :: IssuedPrivate(t, x) && t[x].issuedCert == PhaseOf(v, op).cert) <==> Undecided(u, steps, id)
  {
    var u := Next(w, Load(op, id));
    NextKeepsInv(w, Load(op, id));
    PendingIff(u, steps, id);
    RunStepsKeepsInv(u, steps);
    MarkNamesIff(RunSteps(u, steps), op, note);
  }

  // ------------------------------------- the flow, when nobody interferes

  ghost function Uninterrupted(w: World, insert: Step, op: Operator, note: string): World {
    Next(Next(Next(w, insert), Reload(op)), Mark(op, note))
  }

  /** The three steps after a load, run one after the other, end as the private approval does,
      whatever became of the request since it was loaded. */
  lemma PrivateStepsAreApproval(w: World, op: Operator, sansCsv: string, sansHash: string, issuerCa: Id, s: Signed,
                                now: int, note: string)
    requires PhaseOf(w, op).Loaded? && PhaseOf(w, op).req.kind == Private
    ensures
      Uninterrupted(w, InsertLeaf(op, sansCsv, sansHash, issuerCa, s, now), op, note).db ==
      PrivateEnding(w.db, PhaseOf(w, op).req, issuerCa, s, note, now).db
  {
    var req, st := PhaseOf(w, op).req, InsertLeaf(op, sansCsv, sansHash, issuerCa, s, now);
    var v := Next(w, st);
    if InsertOutcome(w, req, st) == Done {
      PrivateInserted(w.db, req, issuerCa, s, now);
      assert Reloads(v.db, req, s.id, s.id);
      assert PhaseOf(Next(v, Reload(op)), op) == Ready(req, s.id);
    }
  }

  /** The same for a public approval, which finds its own certificate again by name. */
  lemma PublicStepsAreApproval(w: World, op: Operator, sansCsv: string, sansHash: string, issuerCa: Id, s: Signed,
                               now: int, note: string)
    requires Schema(w.db) && PhaseOf(w, op).Loaded? && PhaseOf(w, op).req.kind == Public
    ensures
      Uninterrupted(w, InsertLeaf(op, sansCsv, sansHash, issuerCa, s, now), op, note).db ==
      PublicEnding(w.db, PhaseOf(w, op).req, sansCsv, sansHash, s, note, now).db
  {
    var req, st := PhaseOf(w, op).req, InsertLeaf(op, sansCsv, sansHash, issuerCa, s, now);
    var v := Next(w, st);
    if InsertOutcome(w, req, st) == Done {
      PublicInserted(w.db, req, sansCsv, sansHash, s, now);
      assert Schema(v.db) by { ApplyKeepsSchema(w.db, Inserting(req, st)); }
      OnlyActive(v.db.publics, s.id, req.commonName);
      assert Reloads(v.db, req, s.id, s.id);
      assert PhaseOf(Next(v, Reload(op)), op) == Ready(req, s.id);
    }
  }

  // ------------------------------------------- the steps in the rows' fields

  /** A submission starts pending, names no certificate and carries no note, whatever it claims. */
  lemma SubmittedRow(w: World, d: CsrDraft)
    ensures
      var v := Next(w, Submit(d));
      var good := Trim(d.id) != "" && Trim(d.commonName) != "" && d.csrPem != "" && Trim(d.pickupHash) != ""
                  && ToLower(Trim(d.kind)) in {"public", "private"} && d.id !in w.db.requests;
      && v.operators == w.operators && v.db.(requests := w.db.requests) == w.db
      && (!good ==> v == w)
      && (good ==>
            && d.id in v.db.requests && v.db.requests == w.db.requests[d.id := v.db.requests[d.id]]
            && v.db.requests[d.id].id == d.id && v.db.requests[d.id].commonName == d.commonName
            && v.db.requests[d.id].status == Pending && v.db.requests[d.id].issuedCert == ""
            && v.db.requests[d.id].note == "" && v.db.requests[d.id].csrPem == d.csrPem
            && v.db.requests[d.id].pickupHash == d.pickupHash
            && v.db.requests[d.id].sansCsv == (if Trim(d.sansCsv) == "" then "" else d.sansCsv)
            && (v.db.requests[d.id].kind == Public <==> ToLower(Trim(d.kind)) == "public"))
  {
    BlankTrims(d.id);
    BlankTrims(d.commonName);
    BlankTrims(d.pickupHash);
    BlankTrims(d.sansCsv);
  }

  /** A rejection changes the status and the note of a pending request and nothing else. */
  lemma RejectedRow(w: World, id: Id, note: string)
    ensures
      var v := Next(w, Reject(id, note));
      && v.operators == w.operators && v.db.(requests := w.db.requests) == w.db
      && v.db.requests ==
         (if id in w.db.requests && w.db.requests[id].status == Pending then
            w.db.requests[id := w.db.requests[id].(status := Rejected, note := if Trim(note) == "" then "" else note)]
          else w.db.requests)
  {
    BlankTrims(note);
  }

  /** Loading gives an operator the request as it stands if it is pending, giving up leaves it
      with nothing, and neither touches the tables or another operator. */
  lemma OperatorSteps(w: World, op: Operator, id: Id, other: Operator)
    ensures
      var v, u := Next(w, Load(op, id)), Next(w, GiveUp(op));
      && v.db == w.db && u.db == w.db
      && (other != op ==> PhaseOf(v, other) == PhaseOf(w, other) == PhaseOf(u, other))
      && PhaseOf(u, op) == Idle
      && PhaseOf(v, op) ==
         (if id in w.db.requests && w.db.requests[id].status == Pending then Loaded(w.db.requests[id])
          else PhaseOf(w, op))
  {
  }

  /** A rejection between insert and mark strands the certificate: it stays active under the
      request's common name, the request is rejected, and no request names the certificate. */
  lemma RejectionStrandsCertificate(w: World, op: Operator, reason: string, note: string)
    requires ProtocolInv(w) && PhaseOf(w, op).Ready? && PhaseOf(w, op).req.kind == Private
    requires IsPending(w.db.requests, PhaseOf(w, op).req.id)
    requires ActiveLeaf(w.db.privates, PhaseOf(w, op).cert, PhaseOf(w, op).req.commonName)
    ensures var req, cert := PhaseOf(w, op).req, PhaseOf(w, op).cert;
      var v := Next(Next(w, Reject(req.id, reason)), Mark(op, note));
      && v.db.requests[req.id].status == Rejected
      && ActiveLeaf(v.db.privates, cert, req.commonName)
      && forall id :: IssuedPrivate(v.db.requests, id) ==> v.db.requests[id].issuedCert != cert
  {
    var req, cert := PhaseOf(w, op).req, PhaseOf(w, op).cert;
    var u := Next(w, Reject(req.id, reason));
    NextKeepsInv(w, Reject(req.id, reason));
    MarkNamesIff(u, op, note);
  }
}
