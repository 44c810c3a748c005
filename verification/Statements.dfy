/** Every statement keeps the schema constraints, and the statements of one
    transaction compose to the one-pass operation. */
module Statements {
  import opened Text
  import opened Tables

  /** The new row differs in columns that no key or reference uses, and is not newly active. */
  predicate LeafDemoted(before: Leaf, after: Leaf) {
    && after.id == before.id && after.commonName == before.commonName && after.supersedes == before.supersedes
    && after.issuerCa == before.issuerCa && (after.status == Active ==> before.status == Active)
  }

  predicate CaDemoted(before: Ca, after: Ca) {
    && after.id == before.id && after.name == before.name && after.supersedes == before.supersedes
    && after.rootCa == before.rootCa && (after.status == Active ==> before.status == Active)
  }

  predicate LeavesDemoted(t: LeafTable, u: LeafTable) {
    u.Keys == t.Keys && forall id {:trigger u[id]} | id in t :: LeafDemoted(t[id], u[id])
  }

  predicate CasDemoted(t: CaTable, u: CaTable) {
    u.Keys == t.Keys && forall id {:trigger u[id]} | id in t :: CaDemoted(t[id], u[id])
  }

  lemma DemotedLeavesOk(t: LeafTable, u: LeafTable)
    requires LeafOk(t) && LeavesDemoted(t, u)
    ensures LeafOk(u)
  {
    forall a, b | a in u && b in u && ActiveLeaf(u, a, u[b].commonName) && ActiveLeaf(u, b, u[b].commonName)
      ensures a == b
    {
      assert ActiveLeaf(t, a, t[b].commonName) && ActiveLeaf(t, b, t[b].commonName);
    }
  }

  lemma DemotedCasOk(t: CaTable, u: CaTable)
    requires CaOk(t) && CasDemoted(t, u)
    ensures CaOk(u)
  {
    forall a, b | a in u && b in u && ActiveCa(u, a, u[b].name) && ActiveCa(u, b, u[b].name)
      ensures a == b
    {
      assert ActiveCa(t, a, t[b].name) && ActiveCa(t, b, t[b].name);
    }
  }

  lemma ExpireLeavesOk(t: LeafTable, now: int)
    requires LeafOk(t)
    ensures LeafOk(ExpireLeaves(t, now)) && LeavesDemoted(t, ExpireLeaves(t, now))
  {
    DemotedLeavesOk(t, ExpireLeaves(t, now));
  }

  lemma ExpireCasOk(t: CaTable, now: int)
    requires CaOk(t)
    ensures CaOk(ExpireCas(t, now)) && CasDemoted(t, ExpireCas(t, now))
  {
    DemotedCasOk(t, ExpireCas(t, now));
  }

  lemma SyncSchema(db: Db, now: int)
    requires Schema(db)
    ensures Schema(SyncDb(db, now))
  {
    ExpireLeavesOk(db.publics, now);
    ExpireLeavesOk(db.privates, now);
    ExpireCasOk(db.roots, now);
    ExpireCasOk(db.intermediates, now);
  }

  lemma RotatedLeafDemoted(row: Leaf, name: string, now: int)
    ensures LeafDemoted(row, RotatedLeaf(row, name, now))
    ensures RotatedLeaf(row, name, now).status == Active ==> row.commonName != name
  {
  }

  lemma RotatedCaDemoted(row: Ca, name: string, now: int)
    ensures CaDemoted(row, RotatedCa(row, name, now))
    ensures RotatedCa(row, name, now).status == Active ==> row.name != name
  {
  }

  lemma LeavesRotatedOk(t: LeafTable, name: string, now: int)
    requires LeafOk(t)
    ensures LeafOk(LeavesRotated(t, name, now)) && LeavesDemoted(t, LeavesRotated(t, name, now))
    ensures forall id :: !ActiveLeaf(LeavesRotated(t, name, now), id, name)
  {
    var u := LeavesRotated(t, name, now);
    forall id | id in t ensures LeafDemoted(t[id], u[id]) && !ActiveLeaf(u, id, name) {
      RotatedLeafDemoted(t[id], name, now);
    }
    DemotedLeavesOk(t, u);
  }

  lemma CasRotatedOk(t: CaTable, name: string, now: int)
    requires CaOk(t)
    ensures CaOk(CasRotated(t, name, now)) && CasDemoted(t, CasRotated(t, name, now))
    ensures forall id :: !ActiveCa(CasRotated(t, name, now), id, name)
  {
    var u := CasRotated(t, name, now);
    forall id | id in t ensures CaDemoted(t[id], u[id]) && !ActiveCa(u, id, name) {
      RotatedCaDemoted(t[id], name, now);
    }
    DemotedCasOk(t, u);
  }

  /** Inserting a row under a name with no active row cannot violate the unique index. */
  lemma InsertLeafUnique(u: LeafTable, row: Leaf)
    requires OneActiveLeaf(u) && forall id :: !ActiveLeaf(u, id, row.commonName)
    ensures OneActiveLeaf(u[row.id := row])
  {
    var v := u[row.id := row];
    forall a, b | a in v && b in v && ActiveLeaf(v, a, v[b].commonName) && ActiveLeaf(v, b, v[b].commonName)
      ensures a == b
    {
      assert a != row.id ==> !ActiveLeaf(u, a, row.commonName);
      assert b != row.id ==> !ActiveLeaf(u, b, row.commonName);
      if a != row.id && b != row.id {
        assert ActiveLeaf(u, a, u[b].commonName) && ActiveLeaf(u, b, u[b].commonName);
      }
    }
  }

  lemma InsertCaUnique(u: CaTable, row: Ca)
    requires OneActiveCa(u) && forall id :: !ActiveCa(u, id, row.name)
    ensures OneActiveCa(u[row.id := row])
  {
    var v := u[row.id := row];
    forall a, b | a in v && b in v && ActiveCa(v, a, v[b].name) && ActiveCa(v, b, v[b].name)
      ensures a == b
    {
      assert a != row.id ==> !ActiveCa(u, a, row.name);
      assert b != row.id ==> !ActiveCa(u, b, row.name);
      if a != row.id && b != row.id {
        assert ActiveCa(u, a, u[b].name) && ActiveCa(u, b, u[b].name);
      }
    }
  }

  lemma InsertLeafOk(u: LeafTable, row: Leaf)
    requires LeafOk(u) && forall id :: !ActiveLeaf(u, id, row.commonName)
    requires row.id != "" && row.id !in u && !MissingLink(row.supersedes, u.Keys, row.id)
    ensures LeafOk(u[row.id := row])
  {
    InsertLeafUnique(u, row);
  }

  lemma InsertCaOk(u: CaTable, row: Ca)
    requires CaOk(u) && forall id :: !ActiveCa(u, id, row.name)
    requires row.id != "" && row.id !in u && !MissingLink(row.supersedes, u.Keys, row.id)
    ensures CaOk(u[row.id := row])
  {
    InsertCaUnique(u, row);
  }

  /** Expire, then supersede: the same table as one pass. */
  lemma SupersedeAfterExpire(t: LeafTable, name: string, now: int)
    ensures SupersedeActive(ExpireLeaves(t, now), name) == LeavesRotated(t, name, now)
    ensures (forall id :: !ActiveLeaf(ExpireLeaves(t, now), id, name)) ==>
      ExpireLeaves(t, now) == LeavesRotated(t, name, now)
  {
    var e := ExpireLeaves(t, now);
    if forall id :: !ActiveLeaf(e, id, name) {
      forall id | id in t ensures e[id] == RotatedLeaf(t[id], name, now) {
        assert !ActiveLeaf(e, id, name);
      }
    }
  }

  lemma RetireAfterExpire(t: CaTable, name: string, now: int)
    ensures RetireActive(ExpireCas(t, now), name, None) == CasRotated(t, name, now)
    ensures (forall id :: !ActiveCa(ExpireCas(t, now), id, name)) ==>
      ExpireCas(t, now) == CasRotated(t, name, now)
  {
    var e := ExpireCas(t, now);
    if forall id :: !ActiveCa(e, id, name) {
      forall id | id in t ensures e[id] == RotatedCa(t[id], name, now) {
        assert !ActiveCa(e, id, name);
      }
    }
  }

  /** The row selected after the sync is the live row of the table as it was before. */
  lemma LinkFromCurrent(t: LeafTable, d: LeafDraft, now: int, id: Id)
    requires LeafOk(t) && ActiveLeaf(ExpireLeaves(t, now), id, d.commonName)
    ensures LeafLink(t, d, now) == NullIfBlank(id)
  {
    assert LiveLeaf(t, id, d.commonName, now);
    forall x | LiveLeaf(t, x, d.commonName, now) ensures x == id {
      assert ActiveLeaf(t, x, t[id].commonName) && ActiveLeaf(t, id, t[id].commonName);
    }
  }

  lemma LinkFromCaller(t: LeafTable, d: LeafDraft, now: int)
    requires forall id :: !ActiveLeaf(ExpireLeaves(t, now), id, d.commonName)
    ensures LeafLink(t, d, now) == NullIfBlank(d.supersedes)
  {
    assert forall id :: LiveLeaf(t, id, d.commonName, now) ==> ActiveLeaf(ExpireLeaves(t, now), id, d.commonName);
  }

  lemma CaLinkFromCurrent(t: CaTable, d: CaDraft, now: int, id: Id)
    requires CaOk(t) && ActiveCa(ExpireCas(t, now), id, d.name)
    ensures CaLink(t, d, now) == NullIfBlank(id)
  {
    assert LiveCa(t, id, d.name, now);
    forall x | LiveCa(t, x, d.name, now) ensures x == id {
      assert ActiveCa(t, x, t[id].name) && ActiveCa(t, id, t[id].name);
    }
  }

  lemma CaLinkFromCaller(t: CaTable, d: CaDraft, now: int)
    requires forall id :: !ActiveCa(ExpireCas(t, now), id, d.name)
    ensures CaLink(t, d, now) == NullIfBlank(d.supersedes)
  {
    assert forall id :: LiveCa(t, id, d.name, now) ==> ActiveCa(ExpireCas(t, now), id, d.name);
  }

  /** What the rest of a leaf upsert needs once a row has been selected after the sync. */
  lemma UpsertedLeaf(t: LeafTable, d: LeafDraft, now: int, current: Option<Leaf>)
    requires LeafOk(t)
    requires match current
      case None => forall id :: !ActiveLeaf(ExpireLeaves(t, now), id, d.commonName)
      case Some(row) => ActiveLeaf(ExpireLeaves(t, now), row.id, d.commonName)
    ensures LeafLink(t, d, now) == NullIfBlank(if current.Some? then current.value.id else d.supersedes)
    ensures LeavesRotated(t, d.commonName, now)
         == if current.Some? then SupersedeActive(ExpireLeaves(t, now), d.commonName) else ExpireLeaves(t, now)
    ensures LeafOk(LeavesRotated(t, d.commonName, now)) && LeavesDemoted(t, LeavesRotated(t, d.commonName, now))
  {
    if current.Some? {
      LinkFromCurrent(t, d, now, current.value.id);
    } else {
      LinkFromCaller(t, d, now);
    }
    SupersedeAfterExpire(t, d.commonName, now);
    LeavesRotatedOk(t, d.commonName, now);
  }

  lemma UpsertedCa(t: CaTable, d: CaDraft, now: int, current: Option<Ca>)
    requires CaOk(t)
    requires match current
      case None => forall id :: !ActiveCa(ExpireCas(t, now), id, d.name)
      case Some(row) => ActiveCa(ExpireCas(t, now), row.id, d.name)
    ensures CaLink(t, d, now) == NullIfBlank(if current.Some? then current.value.id else d.supersedes)
    ensures CasRotated(t, d.name, now)
         == if current.Some? then RetireActive(ExpireCas(t, now), d.name, None) else ExpireCas(t, now)
    ensures CaOk(CasRotated(t, d.name, now)) && CasDemoted(t, CasRotated(t, d.name, now))
  {
    if current.Some? {
      CaLinkFromCurrent(t, d, now, current.value.id);
    } else {
      CaLinkFromCaller(t, d, now);
    }
    RetireAfterExpire(t, d.name, now);
    CasRotatedOk(t, d.name, now);
  }

  lemma RotateCasUnique(t: CaTable, d: CaDraft, now: int, g: nat, link: Id)
    requires CaOk(t)
    ensures OneActiveCa(CasRotated(t, d.name, now)[d.id := NewCa(d, g, link)])
  {
    CasRotatedOk(t, d.name, now);
    InsertCaUnique(CasRotated(t, d.name, now), NewCa(d, g, link));
  }

  lemma RotateLeavesUnique(t: LeafTable, d: LeafDraft, now: int, link: Id)
    requires LeafOk(t)
    ensures OneActiveLeaf(LeavesRotated(t, d.commonName, now)[d.id := NewLeaf(d, link)])
  {
    LeavesRotatedOk(t, d.commonName, now);
    InsertLeafUnique(LeavesRotated(t, d.commonName, now), NewLeaf(d, link));
  }

  /** With the unique index out of the way, the insert fails exactly as the one-pass outcome says. */
  lemma PrivateInsert(db: Db, d: LeafDraft, now: int)
    requires Schema(db) && d.id != "" && !IsBlank(d.commonName)
    ensures InsertLeafOutcome(LeavesRotated(db.privates, d.commonName, now),
                              NewLeaf(d, LeafLink(db.privates, d, now)), d.issuerCa in db.intermediates)
         == PrivateOutcome(db, d, now)
  {
    RotateLeavesUnique(db.privates, d, now, LeafLink(db.privates, d, now));
    assert LeavesRotated(db.privates, d.commonName, now).Keys == db.privates.Keys;
  }

  lemma IntermediateInsert(db: Db, d: CaDraft, now: int)
    requires Schema(db) && d.id != "" && !IsBlank(d.name)
    ensures InsertCaOutcome(CasRotated(db.intermediates, d.name, now),
                            NewCa(d, MaxGeneration(db.intermediates, d.name) + 1, CaLink(db.intermediates, d, now)),
                            d.rootCa in db.roots)
         == IntermediateOutcome(db, d, now)
  {
    RotateCasUnique(db.intermediates, d, now, MaxGeneration(db.intermediates, d.name) + 1,
                    CaLink(db.intermediates, d, now));
    assert CasRotated(db.intermediates, d.name, now).Keys == db.intermediates.Keys;
  }

  lemma IntermediateStored(db: Db, d: CaDraft, now: int, u: CaTable)
    requires Schema(db) && IntermediateOutcome(db, d, now) == Done
    requires u == CasRotated(db.intermediates, d.name, now)[
                    d.id := NewCa(d, MaxGeneration(db.intermediates, d.name) + 1, CaLink(db.intermediates, d, now))]
    ensures SyncDb(db, now).(intermediates := u) == AfterUpsertIntermediate(db, d, now)
  {
  }

  lemma ExpireKeepsGenerations(t: CaTable, name: string, now: int)
    ensures MaxGeneration(ExpireCas(t, now), name) == MaxGeneration(t, name)
  {
    var e, m := ExpireCas(t, now), MaxGeneration(t, name);
    if m != 0 {
      var id :| id in t && t[id].name == name && t[id].generation == m;
      assert e[id].generation == m;
    }
    MaxGenerationUnique(e, name, m);
  }

  /** A rotation keeps the table's constraints when its link is not missing. */
  lemma RotateLeavesOk(t: LeafTable, d: LeafDraft, now: int)
    requires LeafOk(t) && d.id != "" && d.id !in t
    requires !MissingLink(LeafLink(t, d, now), t.Keys, d.id)
    ensures LeafOk(RotateLeaves(t, d, now))
    ensures RotateLeaves(t, d, now).Keys == t.Keys + {d.id}
  {
    LeavesRotatedOk(t, d.commonName, now);
    InsertLeafOk(LeavesRotated(t, d.commonName, now), NewLeaf(d, LeafLink(t, d, now)));
  }

  lemma RetireThenInsertOk(t: CaTable, row: Ca, now: int)
    requires CaOk(t) && row.id != "" && row.id !in t && !MissingLink(row.supersedes, t.Keys, row.id)
    ensures CaOk(CasRotated(t, row.name, now)[row.id := row])
    ensures CasRotated(t, row.name, now)[row.id := row].Keys == t.Keys + {row.id}
  {
    CasRotatedOk(t, row.name, now);
    InsertCaOk(CasRotated(t, row.name, now), row);
  }

  lemma RotateCasOk(t: CaTable, d: CaDraft, now: int)
    requires CaOk(t) && d.id != "" && d.id !in t
    requires !MissingLink(CaLink(t, d, now), t.Keys, d.id)
    ensures CaOk(RotateCas(t, d, now))
    ensures RotateCas(t, d, now).Keys == t.Keys + {d.id}
  {
    var link, g := CaLink(t, d, now), MaxGeneration(t, d.name) + 1;
    var row := NewCa(d, g, link);
    assert RotateCas(t, d, now) == CasRotated(t, row.name, now)[row.id := row];
    RetireThenInsertOk(t, row, now);
  }

  lemma PromoteRowInTwo(row: Ca, target: Ca, now: int)
    requires target.id == row.id ==> target == row
    requires ExpiredCa(target, now).status !in {Revoked, Expired}
    ensures ActivatedCa(RetiredCa(ExpiredCa(row, now), target.name, Some(target.id)), target.id)
         == PromotedCa(row, target, now)
  {
  }

  lemma PromoteInTwo(t: CaTable, id: Id, now: int)
    requires CaKeys(t) && id in t && ExpireCas(t, now)[id].status !in {Revoked, Expired}
    ensures ActivateCa(RetireActive(ExpireCas(t, now), t[id].name, Some(id)), id) == PromoteCas(t, id, now)
  {
    forall x | x in t
      ensures ActivatedCa(RetiredCa(ExpiredCa(t[x], now), t[id].name, Some(id)), id) == PromotedCa(t[x], t[id], now)
    {
      PromoteRowInTwo(t[x], t[id], now);
    }
  }

  /** Between the two promotion statements only the target can be active under its name. */
  lemma OthersRetired(e: CaTable, id: Id)
    requires CaOk(e) && id in e
    ensures CaOk(RetireActive(e, e[id].name, Some(id)))
    ensures CasDemoted(e, RetireActive(e, e[id].name, Some(id)))
    ensures forall a | ActiveCa(RetireActive(e, e[id].name, Some(id)), a, e[id].name) :: a == id
  {
    DemotedCasOk(e, RetireActive(e, e[id].name, Some(id)));
  }

  lemma PromoteStatements(t: CaTable, id: Id, now: int)
    requires CaOk(t) && id in t && ExpireCas(t, now)[id].status !in {Revoked, Expired}
    ensures OneActiveCa(RetireActive(ExpireCas(t, now), t[id].name, Some(id)))
    ensures ActivateCa(RetireActive(ExpireCas(t, now), t[id].name, Some(id)), id) == PromoteCas(t, id, now)
    ensures CaOk(PromoteCas(t, id, now))
  {
    PromoteInTwo(t, id, now);
    ExpireCasOk(t, now);
    OthersRetired(ExpireCas(t, now), id);
    ActivateOk(RetireActive(ExpireCas(t, now), t[id].name, Some(id)), id);
  }

  lemma PromoteKeepsParents(t: CaTable, id: Id, now: int)
    requires CaKeys(t) && id in t
    ensures ParentsKept(t, PromoteCas(t, id, now))
  {
  }

  predicate ParentsKept(t: CaTable, u: CaTable) {
    u.Keys == t.Keys && forall id | id in t :: u[id].rootCa == t[id].rootCa
  }

  lemma ActivateOk(u: CaTable, id: Id)
    requires CaOk(u) && id in u
    requires forall a | ActiveCa(u, a, u[id].name) :: a == id
    ensures CaOk(ActivateCa(u, id))
  {
    var v := ActivateCa(u, id);
    forall a, b | a in v && b in v && ActiveCa(v, a, v[b].name) && ActiveCa(v, b, v[b].name)
      ensures a == b
    {
      if a != id { assert ActiveCa(u, a, u[b].name); }
      if b != id { assert ActiveCa(u, b, u[b].name); }
    }
  }

  lemma RetireCaOk(t: CaTable, id: Id)
    requires CaOk(t)
    ensures CaOk(RetireCa(t, id)) && CasDemoted(t, RetireCa(t, id))
  {
    DemotedCasOk(t, RetireCa(t, id));
  }

  lemma RevokeLeafOk(t: LeafTable, id: Id, now: int)
    requires LeafOk(t)
    ensures LeafOk(RevokeLeaf(t, id, now)) && LeavesDemoted(t, RevokeLeaf(t, id, now))
  {
    DemotedLeavesOk(t, RevokeLeaf(t, id, now));
  }

  // ------------------------------------------ the schema after each operation

  lemma UpsertPublicSchema(db: Db, d: LeafDraft, now: int)
    requires Schema(db)
    ensures Schema(AfterUpsertPublic(db, d, now))
  {
    if PublicOutcome(db, d, now) == Done {
      SyncSchema(db, now);
      RotateLeavesOk(db.publics, d, now);
    }
  }

  lemma UpsertPrivateSchema(db: Db, d: LeafDraft, now: int)
    requires Schema(db)
    ensures Schema(AfterUpsertPrivate(db, d, now))
  {
    if PrivateOutcome(db, d, now) == Done {
      SyncSchema(db, now);
      RotateLeavesOk(db.privates, d, now);
      RotateKeepsIssuers(db.privates, d, now, db.intermediates.Keys);
    }
  }

  lemma RotateKeepsIssuers(t: LeafTable, d: LeafDraft, now: int, cas: set<Id>)
    requires IssuersIn(t, cas) && d.issuerCa in cas
    ensures IssuersIn(RotateLeaves(t, d, now), cas)
  {
  }

  lemma UpsertRootSchema(db: Db, d: CaDraft, now: int)
    requires Schema(db)
    ensures Schema(AfterUpsertRoot(db, d, now))
  {
    if RootOutcome(db, d, now) == Done {
      SyncSchema(db, now);
      RotateCasOk(db.roots, d, now);
      MoreParents(SyncDb(db, now).intermediates, db.roots.Keys, db.roots.Keys + {d.id});
    }
  }

  lemma MoreParents(t: CaTable, cas: set<Id>, more: set<Id>)
    requires ParentsIn(t, cas) && cas <= more
    ensures ParentsIn(t, more)
  {
  }

  lemma UpsertIntermediateSchema(db: Db, d: CaDraft, now: int)
    requires Schema(db)
    ensures Schema(AfterUpsertIntermediate(db, d, now))
  {
    if IntermediateOutcome(db, d, now) == Done {
      SyncSchema(db, now);
      RotateCasOk(db.intermediates, d, now);
      RotateKeepsParents(db.intermediates, d, now, db.roots.Keys);
      MoreIssuers(SyncDb(db, now).privates, db.intermediates.Keys, db.intermediates.Keys + {d.id});
    }
  }

  lemma RotateKeepsParents(t: CaTable, d: CaDraft, now: int, cas: set<Id>)
    requires ParentsIn(t, cas) && d.rootCa in cas
    ensures ParentsIn(RotateCas(t, d, now), cas)
  {
  }

  lemma MoreIssuers(t: LeafTable, cas: set<Id>, more: set<Id>)
    requires IssuersIn(t, cas) && cas <= more
    ensures IssuersIn(t, more)
  {
  }

  lemma PromoteRootSchema(db: Db, id: Id, now: int)
    requires Schema(db)
    ensures Schema(AfterPromoteRoot(db, id, now))
  {
    if PromoteOutcome(db.roots, id, now) == Done {
      SyncSchema(db, now);
      PromoteStatements(db.roots, id, now);
      PromoteKeepsParents(db.roots, id, now);
    }
  }

  lemma PromoteIntermediateSchema(db: Db, id: Id, now: int)
    requires Schema(db)
    ensures Schema(AfterPromoteIntermediate(db, id, now))
  {
    if PromoteOutcome(db.intermediates, id, now) == Done {
      SyncSchema(db, now);
      PromoteStatements(db.intermediates, id, now);
      PromoteKeepsParents(db.intermediates, id, now);
    }
  }
}
