/** The store as the program runs it: tables updated in place, one SQL statement
    at a time, inside transactions that roll back on the first failing statement.
    Every method is proved equal to its one-pass form in `Tables`; in particular
    the partial unique indexes, re-checked after every statement, never fire. */
module Store {
  import opened Text
  import opened Statements
  import opened Tables

  class Store {
    var publics: LeafTable
    var privates: LeafTable
    var roots: CaTable
    var intermediates: CaTable
    var requests: CsrTable

    function Tables(): Db
      reads this
    {
      Db(publics, privates, roots, intermediates, requests)
    }

    ghost predicate Valid()
      reads this
    {
      Schema(Tables())
    }

    constructor ()
      ensures Valid() && Tables() == EMPTY
    {
      publics, privates, roots, intermediates, requests := map[], map[], map[], map[], map[];
    }

    /** `tx.Rollback`. */
    method Rollback(saved: Db)
      modifies this
      ensures Tables() == saved
    {
      publics, privates, roots, intermediates, requests :=
        saved.publics, saved.privates, saved.roots, saved.intermediates, saved.requests;
    }

    /** Four statements; each leaves the unique indexes intact. */
    method SyncDerivedStatusesTx(now: int) returns (r: Outcome)
      requires Valid()
      modifies this
      ensures r == Done && Tables() == SyncDb(old(Tables()), now)
    {
      SyncSchema(Tables(), now);
      publics := ExpireLeaves(publics, now);
      if !OneActiveLeaf(publics) { return Failed(UniqueIndex); }
      privates := ExpireLeaves(privates, now);
      if !OneActiveLeaf(privates) { return Failed(UniqueIndex); }
      roots := ExpireCas(roots, now);
      if !OneActiveCa(roots) { return Failed(UniqueIndex); }
      intermediates := ExpireCas(intermediates, now);
      if !OneActiveCa(intermediates) { return Failed(UniqueIndex); }
      return Done;
    }

    /** The sync that `Open` runs on its own. */
    method SyncDerivedStatuses(now: int)
      requires Valid()
      modifies this
      ensures Valid() && Tables() == SyncDb(old(Tables()), now)
    {
      SyncSchema(Tables(), now);
      var r := SyncDerivedStatusesTx(now);
    }

    /** `SELECT .. WHERE common_name = ? AND status = 'active' LIMIT 1`. */
    method SelectActiveLeaf(t: LeafTable, name: string) returns (current: Option<Leaf>)
      requires LeafKeys(t)
      ensures match current
        case None => forall id :: !ActiveLeaf(t, id, name)
        case Some(row) => ActiveLeaf(t, row.id, name) && t[row.id] == row
    {
      if exists id | id in t :: ActiveLeaf(t, id, name) {
        var id :| id in t && ActiveLeaf(t, id, name);
        return Some(t[id]);
      }
      return None;
    }

    method SelectActiveCa(t: CaTable, name: string) returns (current: Option<Ca>)
      requires CaKeys(t)
      ensures match current
        case None => forall id :: !ActiveCa(t, id, name)
        case Some(row) => ActiveCa(t, row.id, name) && t[row.id] == row
    {
      if exists id | id in t :: ActiveCa(t, id, name) {
        var id :| id in t && ActiveCa(t, id, name);
        return Some(t[id]);
      }
      return None;
    }

    /** Scans the table for the largest generation of the name and adds one. */
    method NextGenerationTx(t: CaTable, name: string) returns (g: nat)
      ensures g == MaxGeneration(t, name) + 1
    {
      g := 0;
      var rest := t.Keys;
      while rest != {}
        invariant rest <= t.Keys
        invariant forall id | id in t && id !in rest && t[id].name == name :: t[id].generation <= g
        invariant g == 0 || exists id :: id in t && t[id].name == name && t[id].generation == g
        decreases rest
      {
        var id :| id in rest;
        rest := rest - {id};
        if t[id].name == name && g < t[id].generation {
          g := t[id].generation;
        }
      }
      MaxGenerationUnique(t, name, g);
      g := g + 1;
    }

    /** The select and the supersede statement of a leaf upsert, on a table already synced from `before`. */
    method SupersedeCurrent(t: LeafTable, d: LeafDraft, now: int, ghost before: LeafTable)
      returns (r: Outcome, u: LeafTable, link: Id)
      requires LeafOk(before) && t == ExpireLeaves(before, now)
      ensures r == Done
      ensures u == LeavesRotated(before, d.commonName, now) && link == LeafLink(before, d, now)
      ensures u.Keys == before.Keys && OneActiveLeaf(u[d.id := NewLeaf(d, link)])
    {
      u, link := t, d.supersedes;
      ExpireLeavesOk(before, now);
      var current := SelectActiveLeaf(u, d.commonName);
      UpsertedLeaf(before, d, now, current);
      if current.Some? {
        link := current.value.id;
        u := SupersedeActive(u, d.commonName);
        if !OneActiveLeaf(u) { return Failed(UniqueIndex), t, link; }
      }
      link := NullIfBlank(link);
      RotateLeavesUnique(before, d, now, link);
      return Done, u, link;
    }

    /** The select statements and the retire statement of a CA upsert. */
    method RetireCurrent(t: CaTable, d: CaDraft, now: int, ghost before: CaTable)
      returns (r: Outcome, u: CaTable, generation: nat, link: Id)
      requires CaOk(before) && t == ExpireCas(before, now)
      ensures r == Done && generation == MaxGeneration(before, d.name) + 1
      ensures u == CasRotated(before, d.name, now) && link == CaLink(before, d, now)
      ensures u.Keys == before.Keys && OneActiveCa(u[d.id := NewCa(d, generation, link)])
    {
      u, link := t, d.supersedes;
      ExpireCasOk(before, now);
      ExpireKeepsGenerations(before, d.name, now);
      generation := NextGenerationTx(u, d.name);
      var current := SelectActiveCa(u, d.name);
      UpsertedCa(before, d, now, current);
      if current.Some? {
        link := current.value.id;
        u := RetireActive(u, d.name, None);
        if !OneActiveCa(u) { return Failed(UniqueIndex), t, generation, link; }
      }
      link := NullIfBlank(link);
      RotateCasUnique(before, d, now, generation, link);
      return Done, u, generation, link;
    }

    method InsertPublic(row: Leaf) returns (r: Outcome)
      modifies this`publics
      ensures r == InsertLeafOutcome(old(publics), row, true)
      ensures publics == if r == Done then old(publics)[row.id := row] else old(publics)
    {
      r := InsertLeafOutcome(publics, row, true);
      if r == Done {
        publics := publics[row.id := row];
      }
    }

    method InsertPrivate(row: Leaf) returns (r: Outcome)
      modifies this`privates
      ensures r == InsertLeafOutcome(old(privates), row, row.issuerCa in intermediates)
      ensures privates == if r == Done then old(privates)[row.id := row] else old(privates)
    {
      r := InsertLeafOutcome(privates, row, row.issuerCa in intermediates);
      if r == Done {
        privates := privates[row.id := row];
      }
    }

    method InsertRoot(row: Ca) returns (r: Outcome)
      modifies this`roots
      ensures r == InsertCaOutcome(old(roots), row, true)
      ensures roots == if r == Done then old(roots)[row.id := row] else old(roots)
    {
      r := InsertCaOutcome(roots, row, true);
      if r == Done {
        roots := roots[row.id := row];
      }
    }

    method InsertIntermediate(row: Ca) returns (r: Outcome)
      modifies this`intermediates
      ensures r == InsertCaOutcome(old(intermediates), row, row.rootCa in roots)
      ensures intermediates == if r == Done then old(intermediates)[row.id := row] else old(intermediates)
    {
      r := InsertCaOutcome(intermediates, row, row.rootCa in roots);
      if r == Done {
        intermediates := intermediates[row.id := row];
      }
    }

    method Upsert(d: LeafDraft, now: int) returns (r: Outcome)
      requires Valid()
      modifies this
      ensures Valid()
      ensures r == PublicOutcome(old(Tables()), d, now)
      ensures Tables() == AfterUpsertPublic(old(Tables()), d, now)
    {
      if IsBlank(d.commonName) { return Failed(MissingName); }
      if d.sansCsv == "" || d.sansHash == "" { return Failed(MissingSans); }
      if d.id == "" { return Failed(MissingId); }
      UpsertPublicSchema(Tables(), d, now);
      var saved := Tables();
      r := UpsertTx(d, now);
      if r != Done { Rollback(saved); }
    }

    method UpsertTx(d: LeafDraft, now: int) returns (r: Outcome)
      requires Valid() && d.id != "" && !IsBlank(d.commonName) && d.sansCsv != "" && d.sansHash != ""
      modifies this
      ensures r == PublicOutcome(old(Tables()), d, now)
      ensures r == Done ==> Tables() == AfterUpsertPublic(old(Tables()), d, now)
    {
      r := SyncDerivedStatusesTx(now);
      if r != Done { return; }
      var link;
      r, publics, link := SupersedeCurrent(publics, d, now, old(publics));
      if r != Done { return; }
      r := InsertPublic(NewLeaf(d, link));
    }

    method UpsertPrivateCert(draft: LeafDraft, now: int) returns (r: Outcome)
      requires Valid()
      modifies this
      ensures Valid()
      ensures r == PrivateOutcome(old(Tables()), PrivateColumns(draft), now)
      ensures Tables() == AfterUpsertPrivate(old(Tables()), PrivateColumns(draft), now)
    {
      var d := PrivateColumns(draft);
      if d.id == "" { return Failed(MissingId); }
      if IsBlank(d.commonName) { return Failed(MissingName); }
      UpsertPrivateSchema(Tables(), d, now);
      var saved := Tables();
      r := UpsertPrivateCertTx(d, now);
      if r != Done { Rollback(saved); }
    }

    method UpsertPrivateCertTx(d: LeafDraft, now: int) returns (r: Outcome)
      requires Valid() && d.id != "" && !IsBlank(d.commonName)
      modifies this
      ensures r == PrivateOutcome(old(Tables()), d, now)
      ensures r == Done ==> Tables() == AfterUpsertPrivate(old(Tables()), d, now)
    {
      r := SyncDerivedStatusesTx(now);
      if r != Done { return; }
      var link;
      PrivateInsert(old(Tables()), d, now);
      r, privates, link := SupersedeCurrent(privates, d, now, old(privates));
      if r != Done { return; }
      r := InsertPrivate(NewLeaf(d, link));
    }

    method UpsertPrivateRootCA(d: CaDraft, now: int) returns (r: Outcome)
      requires Valid()
      modifies this
      ensures Valid()
      ensures r == RootOutcome(old(Tables()), d, now)
      ensures Tables() == AfterUpsertRoot(old(Tables()), d, now)
    {
      if d.id == "" { return Failed(MissingId); }
      if IsBlank(d.name) { return Failed(MissingName); }
      UpsertRootSchema(Tables(), d, now);
      var saved := Tables();
      r := UpsertPrivateRootCATx(d, now);
      if r != Done { Rollback(saved); }
    }

    method UpsertPrivateRootCATx(d: CaDraft, now: int) returns (r: Outcome)
      requires Valid() && d.id != "" && !IsBlank(d.name)
      modifies this
      ensures r == RootOutcome(old(Tables()), d, now)
      ensures r == Done ==> Tables() == AfterUpsertRoot(old(Tables()), d, now)
    {
      r := SyncDerivedStatusesTx(now);
      if r != Done { return; }
      var generation, link;
      r, roots, generation, link := RetireCurrent(roots, d, now, old(roots));
      if r != Done { return; }
      r := InsertRoot(NewCa(d, generation, link));
    }

    method UpsertPrivateIntermediateCA(d: CaDraft, now: int) returns (r: Outcome)
      requires Valid()
      modifies this
      ensures Valid()
      ensures r == IntermediateOutcome(old(Tables()), d, now)
      ensures Tables() == AfterUpsertIntermediate(old(Tables()), d, now)
    {
      if d.id == "" { return Failed(MissingId); }
      if IsBlank(d.name) { return Failed(MissingName); }
      UpsertIntermediateSchema(Tables(), d, now);
      var saved := Tables();
      r := UpsertPrivateIntermediateCATx(d, now);
      if r != Done { Rollback(saved); }
    }

    method UpsertPrivateIntermediateCATx(d: CaDraft, now: int) returns (r: Outcome)
      requires Valid() && d.id != "" && !IsBlank(d.name)
      modifies this
      ensures r == IntermediateOutcome(old(Tables()), d, now)
      ensures r == Done ==> Tables() == AfterUpsertIntermediate(old(Tables()), d, now)
    {
      ghost var db := Tables();
      r := SyncDerivedStatusesTx(now);
      if r != Done { return; }
      var generation, link;
      IntermediateInsert(db, d, now);
      r, intermediates, generation, link := RetireCurrent(intermediates, d, now, db.intermediates);
      if r != Done { return; }
      assert d.rootCa in roots <==> d.rootCa in db.roots;
      r := InsertIntermediate(NewCa(d, generation, link));
      if r == Done {
        IntermediateStored(db, d, now, intermediates);
      }
    }

    method PromotePrivateRootCA(id: Id, now: int) returns (r: Outcome)
      requires Valid()
      modifies this
      ensures Valid()
      ensures r == PromoteOutcome(old(roots), id, now)
      ensures Tables() == AfterPromoteRoot(old(Tables()), id, now)
    {
      PromoteRootSchema(Tables(), id, now);
      var saved := Tables();
      r := PromotePrivateRootCATx(id, now);
      if r != Done { Rollback(saved); }
    }

    method PromotePrivateRootCATx(id: Id, now: int) returns (r: Outcome)
      requires Valid()
      modifies this
      ensures r == PromoteOutcome(old(roots), id, now)
      ensures r == Done ==> Tables() == AfterPromoteRoot(old(Tables()), id, now)
    {
      r := SyncDerivedStatusesTx(now);
      if r != Done { return; }
      if id !in roots { return Failed(NotFound); }
      var target := roots[id];
      if target.status == Revoked || target.status == Expired { return Failed(NotPromotable); }
      PromoteStatements(old(roots), id, now);
      roots := RetireActive(roots, target.name, Some(target.id));
      if !OneActiveCa(roots) { return Failed(UniqueIndex); }
      roots := ActivateCa(roots, target.id);
      if !OneActiveCa(roots) { return Failed(UniqueIndex); }
      return Done;
    }

    method PromotePrivateIntermediateCA(id: Id, now: int) returns (r: Outcome)
      requires Valid()
      modifies this
      ensures Valid()
      ensures r == PromoteOutcome(old(intermediates), id, now)
      ensures Tables() == AfterPromoteIntermediate(old(Tables()), id, now)
    {
      PromoteIntermediateSchema(Tables(), id, now);
      var saved := Tables();
      r := PromotePrivateIntermediateCATx(id, now);
      if r != Done { Rollback(saved); }
    }

    method PromotePrivateIntermediateCATx(id: Id, now: int) returns (r: Outcome)
      requires Valid()
      modifies this
      ensures r == PromoteOutcome(old(intermediates), id, now)
      ensures r == Done ==> Tables() == AfterPromoteIntermediate(old(Tables()), id, now)
    {
      r := SyncDerivedStatusesTx(now);
      if r != Done { return; }
      if id !in intermediates { return Failed(NotFound); }
      var target := intermediates[id];
      if target.status == Revoked || target.status == Expired { return Failed(NotPromotable); }
      PromoteStatements(old(intermediates), id, now);
      intermediates := RetireActive(intermediates, target.name, Some(target.id));
      if !OneActiveCa(intermediates) { return Failed(UniqueIndex); }
      intermediates := ActivateCa(intermediates, target.id);
      if !OneActiveCa(intermediates) { return Failed(UniqueIndex); }
      return Done;
    }

    method RetirePrivateRootCA(id: Id)
      requires Valid()
      modifies this`roots
      ensures Valid() && Tables() == AfterRetireRoot(old(Tables()), id)
      ensures roots.Keys == old(roots).Keys
      ensures forall x | x in roots ::
        roots[x] == if x == id && old(roots)[x].status !in {Revoked, Expired}
                  then old(roots)[x].(status := Retired, issuing := false) else old(roots)[x]
    {
      RetireCaOk(roots, id);
      roots := RetireCa(roots, id);
    }

    method RetirePrivateIntermediateCA(id: Id)
      requires Valid()
      modifies this`intermediates
      ensures Valid() && Tables() == AfterRetireIntermediate(old(Tables()), id)
      ensures intermediates.Keys == old(intermediates).Keys
      ensures forall x | x in intermediates ::
        intermediates[x] == if x == id && old(intermediates)[x].status !in {Revoked, Expired}
                  then old(intermediates)[x].(status := Retired, issuing := false) else old(intermediates)[x]
    {
      RetireCaOk(intermediates, id);
      intermediates := RetireCa(intermediates, id);
    }

    method RevokePublicCert(id: Id, now: int)
      requires Valid()
      modifies this`publics
      ensures Valid() && Tables() == AfterRevokePublic(old(Tables()), id, now)
      ensures publics.Keys == old(publics).Keys
      ensures forall x | x in publics ::
        publics[x] == if x == id && old(publics)[x].status != Revoked
                  then old(publics)[x].(status := Revoked, revokedAt := Some(now)) else old(publics)[x]
    {
      RevokeLeafOk(publics, id, now);
      publics := RevokeLeaf(publics, id, now);
    }

    method RevokePrivateCert(id: Id, now: int)
      requires Valid()
      modifies this`privates
      ensures Valid() && Tables() == AfterRevokePrivate(old(Tables()), id, now)
      ensures privates.Keys == old(privates).Keys
      ensures forall x | x in privates ::
        privates[x] == if x == id && old(privates)[x].status != Revoked
                  then old(privates)[x].(status := Revoked, revokedAt := Some(now)) else old(privates)[x]
    {
      RevokeLeafOk(privates, id, now);
      privates := RevokeLeaf(privates, id, now);
    }

    method CreateCSRRequest(d: CsrDraft) returns (r: Outcome)
      requires Valid()
      modifies this`requests
      ensures Valid()
      ensures r == CreateOutcome(old(requests), d)
      ensures requests == CreateRequest(old(requests), d)
    {
      if IsBlank(d.id) { return Failed(MissingId); }
      var kind := NormalName(d.kind);
      if kind != "public" && kind != "private" { return Failed(UnsupportedKind); }
      if IsBlank(d.commonName) { return Failed(MissingName); }
      if |d.csrPem| == 0 { return Failed(MissingCsr); }
      if IsBlank(d.pickupHash) { return Failed(MissingPickupHash); }
      if d.id in requests { return Failed(DuplicateId); }
      requests := requests[d.id := NewRequest(d, if kind == "public" then Public else Private)];
      return Done;
    }

    /** The update's WHERE clause is the only guard; no affected row is an error. */
    method MarkCSRRequestIssued(id: Id, cert: Id, note: string) returns (r: Outcome)
      requires Valid()
      modifies this`requests
      ensures Valid()
      ensures r == if IsPending(old(requests), id) then Done else Failed(NotPending)
      ensures requests == MarkIssued(old(requests), id, cert, note)
    {
      var affected := if IsPending(requests, id) then 1 else 0;
      requests := MarkIssued(requests, id, cert, note);
      return if affected == 0 then Failed(NotPending) else Done;
    }

    method RejectCSRRequest(id: Id, note: string) returns (r: Outcome)
      requires Valid()
      modifies this`requests
      ensures Valid()
      ensures r == if IsPending(old(requests), id) then Done else Failed(NotPending)
      ensures requests == MarkRejected(old(requests), id, note)
    {
      var affected := if IsPending(requests, id) then 1 else 0;
      requests := MarkRejected(requests, id, note);
      return if affected == 0 then Failed(NotPending) else Done;
    }
  }
}
