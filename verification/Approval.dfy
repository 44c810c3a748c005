/** Issuing a leaf from an intermediate CA and approving CSR requests, as the
    ordered sequence of store calls the operations make when nobody interferes. */
module Approval {
  import opened Text
  import opened Tables
  import opened Lifecycle
  import opened Store

  /** The four ways a caller may name the intermediate, in order of precedence. */
  datatype IssuerChoice = IssuerChoice(id: Id, name: string, requested: string, fallback: string)

  /** The first non-blank name after the id. */
  function ChosenName(c: IssuerChoice): string {
    if !IsBlank(c.name) then c.name else if !IsBlank(c.requested) then c.requested else c.fallback
  }

  /** `WHERE name = ? AND status = 'active' AND is_issuing = 1`. */
  predicate IssuingAs(t: CaTable, id: Id, name: string) {
    ActiveCa(t, id, name) && t[id].issuing
  }

  datatype Picked = Picked(ca: Ca) | Refused(error: StoreError)

  /** The guard on the row that was loaded. */
  function Guarded(ca: Ca): Picked {
    if ca.status == Active && ca.issuing then Picked(ca) else Refused(NotIssuing)
  }

  ghost function PickedByName(t: CaTable, name: string): Picked {
    if exists id :: IssuingAs(t, id, name) then
      var id :| IssuingAs(t, id, name);
      Guarded(t[id])
    else Refused(NotFound)
  }

  ghost function PickedFor(t: CaTable, c: IssuerChoice): Picked {
    if !IsBlank(c.id) then if c.id in t then Guarded(t[c.id]) else Refused(NotFound)
    else if IsBlank(ChosenName(c)) then Refused(NoIssuerNamed)
    else PickedByName(t, ChosenName(c))
  }

  /** The switch over the choice, then the guard on what it loaded. */
  method PickIssuer(t: CaTable, c: IssuerChoice) returns (p: Picked)
    requires CaOk(t)
    ensures p == PickedFor(t, c)
    ensures p.Picked? ==> p.ca.id in t && t[p.ca.id] == p.ca && p.ca.status == Active && p.ca.issuing
    ensures !IsBlank(c.id) ==>
      p == if c.id !in t then Refused(NotFound)
           else if t[c.id].status == Active && t[c.id].issuing then Picked(t[c.id]) else Refused(NotIssuing)
    ensures IsBlank(c.id) && !IsBlank(ChosenName(c)) ==>
      match p
      case Picked(ca) => IssuingAs(t, ca.id, ChosenName(c)) && forall id | IssuingAs(t, id, ChosenName(c)) :: id == ca.id
      case Refused(e) => e == NotFound && forall id :: !IssuingAs(t, id, ChosenName(c))
    ensures IsBlank(c.id) && IsBlank(ChosenName(c)) ==> p == Refused(NoIssuerNamed)
  {
    if !IsBlank(c.id) {
      if c.id !in t { return Refused(NotFound); }
      p := Picked(t[c.id]);
    } else {
      var name := ChosenName(c);
      if IsBlank(name) { return Refused(NoIssuerNamed); }
      if !(exists id | id in t :: IssuingAs(t, id, name)) { return Refused(NotFound); }
      var id :| id in t && IssuingAs(t, id, name);
      forall other | IssuingAs(t, other, name) ensures other == id {
        assert ActiveCa(t, other, t[id].name) && ActiveCa(t, id, t[id].name);
      }
      p := Picked(t[id]);
    }
    if p.ca.status != Active || !p.ca.issuing {
      p := Refused(NotIssuing);
    }
  }

  /** An id wins over any name, the given name over the requested one, and that over the default;
      what is picked by a name has that name. */
  lemma IssuerPrecedence(t: CaTable, c: IssuerChoice)
    ensures Trim(c.id) != "" ==> PickedFor(t, c) == PickedFor(t, IssuerChoice(c.id, "", "", ""))
    ensures Trim(c.id) == "" && Trim(c.name) != "" ==>
      && PickedFor(t, c) == PickedFor(t, IssuerChoice("", c.name, "", ""))
      && (PickedFor(t, c).Picked? ==> PickedFor(t, c).ca.name == c.name)
    ensures Trim(c.id) == "" && Trim(c.name) == "" && Trim(c.requested) != "" ==>
      && PickedFor(t, c) == PickedFor(t, IssuerChoice("", "", c.requested, ""))
      && (PickedFor(t, c).Picked? ==> PickedFor(t, c).ca.name == c.requested)
    ensures Trim(c.id) == "" && Trim(c.name) == "" && Trim(c.requested) == "" ==>
      && PickedFor(t, c) == PickedFor(t, IssuerChoice("", "", "", c.fallback))
      && (PickedFor(t, c).Picked? ==> PickedFor(t, c).ca.name == c.fallback)
  {
    BlankTrims(c.id);
    BlankTrims(c.name);
    BlankTrims(c.requested);
    assert IsBlank("");
  }

  /** In a sound store the guard adds nothing to "active", and a name resolves exactly when it has an active row. */
  lemma IssuingIsActive(t: CaTable, id: Id, name: string)
    requires CaInv(t)
    ensures IssuingAs(t, id, name) <==> ActiveCa(t, id, name)
  {
    if id in t {
      assert CaRowOk(t, id);
    }
  }

  /** What the foreign signing calls return. */
  datatype Signed = Signed(id: Id, issuer: string, notAfter: Option<int>, pem: string)

  /** The record `ApprovePrivateCSRRequest` builds from the request it was handed. */
  function PrivateDraft(req: CsrRequest, issuerCa: Id, s: Signed): LeafDraft {
    LeafDraft(s.id, req.commonName, req.sansCsv, "", issuerCa, s.issuer, None, "", None, s.notAfter, s.pem)
  }

  /** The record `ApprovePublicCSRRequest` builds; its SANs come from the CSR itself. */
  function PublicDraft(req: CsrRequest, sansCsv: string, sansHash: string, s: Signed): LeafDraft {
    LeafDraft(s.id, req.commonName, sansCsv, sansHash, "", s.issuer, None, "", None, s.notAfter, s.pem)
  }

  /** How an approval ends: what the operator is told, and the tables it leaves. */
  datatype Ending = Ending(outcome: Outcome, db: Db)

  /** The conditional mark after an insert; the insert stays whether or not the mark takes. */
  function MarkedAfter(inserted: Db, id: Id, cert: Id, note: string): Ending {
    Ending(if IsPending(inserted.requests, id) then Done else Failed(NotPending),
           inserted.(requests := MarkIssued(inserted.requests, id, cert, note)))
  }

  ghost function PrivateEnding(db: Db, req: CsrRequest, issuerCa: Id, s: Signed, note: string, now: int): Ending {
    var d := PrivateColumns(PrivateDraft(req, issuerCa, s));
    if PrivateOutcome(db, d, now) != Done then Ending(PrivateOutcome(db, d, now), db)
    else MarkedAfter(AfterUpsertPrivate(db, d, now), req.id, s.id, note)
  }

  ghost function PublicEnding(db: Db, req: CsrRequest, sansCsv: string, sansHash: string, s: Signed,
                              note: string, now: int): Ending {
    var d := PublicDraft(req, sansCsv, sansHash, s);
    if PublicOutcome(db, d, now) != Done then Ending(PublicOutcome(db, d, now), db)
    else MarkedAfter(AfterUpsertPublic(db, d, now), req.id, s.id, note)
  }

  /** Pick the issuer, insert the leaf, reload it, mark the request. */
  method ApprovePrivateCSRRequest(store: Store, req: CsrRequest, choice: IssuerChoice, s: Signed, note: string, now: int)
    returns (r: Outcome)
    requires store.Valid()
    modifies store
    ensures store.Valid()
    ensures Ending(r, store.Tables()) ==
      match PickedFor(old(store.intermediates), choice)
      case Refused(e) => Ending(Failed(e), old(store.Tables()))
      case Picked(ca) => PrivateEnding(old(store.Tables()), req, ca.id, s, note, now)
  {
    var p := PickIssuer(store.intermediates, choice);
    if p.Refused? { return Failed(p.error); }
    ghost var db := store.Tables();
    r := store.UpsertPrivateCert(PrivateDraft(req, p.ca.id, s), now);
    if r != Done { return; }
    PrivateInserted(db, req, p.ca.id, s, now);
    if s.id !in store.privates { return Failed(NotFound); }
    var cert := store.privates[s.id].id;
    r := store.MarkCSRRequestIssued(req.id, cert, note);
  }

  /** Insert the leaf, re-read the active row of the common name, mark the request. */
  method ApprovePublicCSRRequest(store: Store, req: CsrRequest, sansCsv: string, sansHash: string, s: Signed,
                                 note: string, now: int)
    returns (r: Outcome)
    requires store.Valid()
    modifies store
    ensures store.Valid()
    ensures Ending(r, store.Tables()) == PublicEnding(old(store.Tables()), req, sansCsv, sansHash, s, note, now)
  {
    ghost var db := store.Tables();
    r := store.Upsert(PublicDraft(req, sansCsv, sansHash, s), now);
    if r != Done { return; }
    PublicInserted(db, req, sansCsv, sansHash, s, now);
    OnlyActive(store.publics, s.id, req.commonName);
    var current := store.SelectActiveLeaf(store.publics, req.commonName);
    if current == None { return Failed(NotFound); }
    r := store.MarkCSRRequestIssued(req.id, current.value.id, note);
  }

  lemma OnlyActive(t: LeafTable, id: Id, name: string)
    requires LeafOk(t) && ActiveLeaf(t, id, name)
    ensures forall other :: ActiveLeaf(t, other, name) <==> other == id
  {
    forall other | ActiveLeaf(t, other, name) ensures other == id {
      assert ActiveLeaf(t, other, t[id].commonName) && ActiveLeaf(t, id, t[id].commonName);
    }
  }

  lemma PrivateInserted(db: Db, req: CsrRequest, issuerCa: Id, s: Signed, now: int)
    requires PrivateOutcome(db, PrivateColumns(PrivateDraft(req, issuerCa, s)), now) == Done
    ensures
      var u := AfterUpsertPrivate(db, PrivateColumns(PrivateDraft(req, issuerCa, s)), now);
      && s.id !in db.privates && ActiveLeaf(u.privates, s.id, req.commonName) && u.privates[s.id].id == s.id
      && u.privates[s.id].sansCsv == NullIfBlank(req.sansCsv) && u.privates[s.id].issuerCa == issuerCa
      && u.requests == db.requests
  {
  }

  lemma PublicInserted(db: Db, req: CsrRequest, sansCsv: string, sansHash: string, s: Signed, now: int)
    requires PublicOutcome(db, PublicDraft(req, sansCsv, sansHash, s), now) == Done
    ensures
      var u := AfterUpsertPublic(db, PublicDraft(req, sansCsv, sansHash, s), now);
      && s.id !in db.publics && ActiveLeaf(u.publics, s.id, req.commonName)
      && u.publics[s.id].sansCsv == sansCsv && u.publics[s.id].sansHash == sansHash
      && u.requests == db.requests
  {
  }

  /** An approval is reported done exactly when the certificate goes in and the request is
      still pending; then the request names it. Otherwise no request changes. The
      certificate, once in, stays active under the request's names in either case. */
  lemma PrivateEndingExact(db: Db, req: CsrRequest, issuerCa: Id, s: Signed, note: string, now: int)
    ensures
      var e := PrivateEnding(db, req, issuerCa, s, note, now);
      var fits := PrivateOutcome(db, PrivateColumns(PrivateDraft(req, issuerCa, s)), now) == Done;
      && (e.outcome == Done <==> fits && IsPending(db.requests, req.id))
      && e.db.requests == (if e.outcome == Done then
           db.requests[req.id := db.requests[req.id].(status := Issued, issuedCert := s.id, note := NullIfBlank(note))]
         else db.requests)
      && (!fits ==> e.db == db)
      && (fits ==> s.id !in db.privates && ActiveLeaf(e.db.privates, s.id, req.commonName)
                   && e.db.privates[s.id].sansCsv == NullIfBlank(req.sansCsv)
                   && e.db.privates[s.id].issuerCa == issuerCa && issuerCa in db.intermediates
                   && e.db.privates[s.id].revokedAt == None
                   && (e.db.privates[s.id].supersedes == "" ||
                       ActiveLeaf(db.privates, e.db.privates[s.id].supersedes, req.commonName))
                   && e.db.privates[s.id].notAfter == s.notAfter && e.db.privates[s.id].pem == s.pem
                   && e.db.privates[s.id].issuer == (if Trim(s.issuer) == "" then "" else s.issuer))
  {
    if PrivateOutcome(db, PrivateColumns(PrivateDraft(req, issuerCa, s)), now) == Done {
      PrivateInserted(db, req, issuerCa, s, now);
      BlankTrims(s.issuer);
    }
  }

  lemma PublicEndingExact(db: Db, req: CsrRequest, sansCsv: string, sansHash: string, s: Signed, note: string, now: int)
    ensures
      var e := PublicEnding(db, req, sansCsv, sansHash, s, note, now);
      var fits := PublicOutcome(db, PublicDraft(req, sansCsv, sansHash, s), now) == Done;
      && (e.outcome == Done <==> fits && IsPending(db.requests, req.id))
      && e.db.requests == (if e.outcome == Done then
           db.requests[req.id := db.requests[req.id].(status := Issued, issuedCert := s.id, note := NullIfBlank(note))]
         else db.requests)
      && (!fits ==> e.db == db)
      && (fits ==> s.id !in db.publics && ActiveLeaf(e.db.publics, s.id, req.commonName)
                   && e.db.publics[s.id].sansCsv == sansCsv && e.db.publics[s.id].sansHash == sansHash
                   && e.db.publics[s.id].revokedAt == None
                   && (e.db.publics[s.id].supersedes == "" ||
                       ActiveLeaf(db.publics, e.db.publics[s.id].supersedes, req.commonName))
                   && e.db.publics[s.id].notAfter == s.notAfter && e.db.publics[s.id].pem == s.pem
                   && e.db.publics[s.id].issuer == (if Trim(s.issuer) == "" then "" else s.issuer))
  {
    if PublicOutcome(db, PublicDraft(req, sansCsv, sansHash, s), now) == Done {
      PublicInserted(db, req, sansCsv, sansHash, s, now);
      BlankTrims(s.issuer);
    }
  }
}
