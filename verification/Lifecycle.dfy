/** Facts about the store that no single operation checks: what every operation
    keeps, exactly when an upsert keeps it, and what therefore holds after any run. */
module Lifecycle {
  import opened Text
  import opened Tables
  import opened Statements

  // ---------------------------------------------------------------- invariants

  ghost predicate Ranked(t: LeafTable, rank: map<Id, nat>) {
    forall id {:trigger t[id]} | id in t ::
      id in rank && (t[id].supersedes != "" ==> t[id].supersedes in rank && rank[t[id].supersedes] < rank[id])
  }

  /** A leaf is never retired, and has a revocation time exactly when it is revoked. */
  predicate StatusOk(row: Leaf) {
    row.status != Retired && (row.status == Revoked <==> row.revokedAt.Some?)
  }

  /** Row `id` replaced a row of its own name that is no longer active. */
  ghost predicate LeafRowOk(t: LeafTable, id: Id)
    requires id in t
  {
    var row := t[id];
    && StatusOk(row)
    && (row.supersedes != "" ==>
          row.supersedes in t && t[row.supersedes].commonName == row.commonName && t[row.supersedes].status != Active)
  }

  predicate Siblings(t: LeafTable, a: Id, b: Id) {
    a in t && b in t && t[a].supersedes == t[b].supersedes != ""
  }

  ghost predicate SupersededOnce(t: LeafTable) {
    forall a, b {:trigger Siblings(t, a, b)} :: Siblings(t, a, b) ==> a == b
  }

  ghost predicate LeafInv(t: LeafTable) {
    && LeafOk(t)
    && (forall id {:trigger LeafRowOk(t, id)} | id in t :: LeafRowOk(t, id))
    && SupersededOnce(t)
    && exists rank: map<Id, nat> :: Ranked(t, rank)
  }

  /** Issuing exactly when active, always trusted, and never revoked or superseded. */
  predicate FlagsOk(row: Ca) {
    row.status in {Active, Retired, Expired} && (row.issuing <==> row.status == Active) && row.trusted
  }

  /** Superseding only a smaller generation of the same name. */
  ghost predicate CaRowOk(t: CaTable, id: Id)
    requires id in t
  {
    var row := t[id];
    && FlagsOk(row)
    && (row.supersedes != "" ==>
          row.supersedes in t && t[row.supersedes].name == row.name && t[row.supersedes].generation < row.generation)
  }

  ghost predicate HasGeneration(t: CaTable, name: string, g: nat) {
    exists id :: id in t && t[id].name == name && t[id].generation == g
  }

  predicate SameNumber(t: CaTable, a: Id, b: Id) {
    a in t && b in t && t[a].name == t[b].name && t[a].generation == t[b].generation
  }

  ghost predicate NumberOk(t: CaTable, id: Id)
    requires id in t
  {
    t[id].generation >= 1 && (t[id].generation > 1 ==> HasGeneration(t, t[id].name, t[id].generation - 1))
  }

  /** Generations of a name are numbered from 1 without gaps or repeats. */
  ghost predicate Numbered(t: CaTable) {
    && (forall a, b {:trigger SameNumber(t, a, b)} :: SameNumber(t, a, b) ==> a == b)
    && (forall id {:trigger NumberOk(t, id)} | id in t :: NumberOk(t, id))
  }

  ghost predicate CaInv(t: CaTable) {
    && CaOk(t)
    && (forall id {:trigger CaRowOk(t, id)} | id in t :: CaRowOk(t, id))
    && Numbered(t)
  }

  ghost predicate Inv(db: Db) {
    && Schema(db)
    && LeafInv(db.publics) && LeafInv(db.privates)
    && CaInv(db.roots) && CaInv(db.intermediates)
  }

  // ----------------------------------------------------- what one row may do

  /** A leaf never returns to active and revoked is final; everything but the status and the revocation time is fixed. */
  predicate LeafProgress(before: Leaf, after: Leaf) {
    && after == before.(status := after.status, revokedAt := after.revokedAt)
    && (after.status == Active ==> before == after)
    && (before.status == Revoked ==> before == after)
    && (after.status != before.status ==> after.status == Revoked || before.status == Active)
    && (after.status == before.status ==> before == after)
  }

  /** Trust is never taken away, an expired CA stays expired, and the row's identity and place in the lineage are fixed. */
  predicate CaProgress(before: Ca, after: Ca) {
    && after == before.(status := after.status, trusted := after.trusted, issuing := after.issuing)
    && (before.trusted ==> after.trusted)
    && (before.status in {Expired, Revoked} ==> after.status == before.status)
  }

  ghost predicate LeavesProgress(t: LeafTable, u: LeafTable) {
    forall id {:trigger t[id]} {:trigger u[id]} | id in t :: id in u && LeafProgress(t[id], u[id])
  }

  ghost predicate CasProgress(t: CaTable, u: CaTable) {
    forall id {:trigger t[id]} {:trigger u[id]} | id in t :: id in u && CaProgress(t[id], u[id])
  }

  ghost predicate Progress(a: Db, b: Db) {
    && LeavesProgress(a.publics, b.publics) && LeavesProgress(a.privates, b.privates)
    && CasProgress(a.roots, b.roots) && CasProgress(a.intermediates, b.intermediates)
  }

  lemma ProgressTransitive(a: Db, b: Db, c: Db)
    requires Progress(a, b) && Progress(b, c)
    ensures Progress(a, c)
  {
    LeavesProgressTransitive(a.publics, b.publics, c.publics);
    LeavesProgressTransitive(a.privates, b.privates, c.privates);
    CasProgressTransitive(a.roots, b.roots, c.roots);
    CasProgressTransitive(a.intermediates, b.intermediates, c.intermediates);
  }

  lemma LeavesProgressTransitive(t: LeafTable, u: LeafTable, v: LeafTable)
    requires LeavesProgress(t, u) && LeavesProgress(u, v)
    ensures LeavesProgress(t, v)
  {
    forall id | id in t ensures id in v && LeafProgress(t[id], v[id]) {
      assert LeafProgress(t[id], u[id]) && LeafProgress(u[id], v[id]);
    }
  }

  lemma CasProgressTransitive(t: CaTable, u: CaTable, v: CaTable)
    requires CasProgress(t, u) && CasProgress(u, v)
    ensures CasProgress(t, v)
  {
    forall id | id in t ensures id in v && CaProgress(t[id], v[id]) {
      assert CaProgress(t[id], u[id]) && CaProgress(u[id], v[id]);
    }
  }

  // ------------------------------------------------------------- leaf tables

  /** `u` is `t` with some rows moved out of active, or revoked; lineage columns are untouched. */
  lemma ProgressKeepsLeafInv(t: LeafTable, u: LeafTable)
    requires LeafInv(t) && LeavesProgress(t, u) && u.Keys == t.Keys
    requires forall id {:trigger u[id]} | id in u :: StatusOk(u[id])
    ensures LeafInv(u)
  {
    forall id | id in t ensures u[id].supersedes == t[id].supersedes && u[id].commonName == t[id].commonName
                             && u[id].id == t[id].id && u[id].issuerCa == t[id].issuerCa
                             && (u[id].status == Active ==> t[id].status == Active) {
      assert LeafProgress(t[id], u[id]);
    }
    DemotedLeavesOk(t, u);
    forall id | id in u ensures LeafRowOk(u, id) {
      assert LeafRowOk(t, id);
    }
    forall a, b | Siblings(u, a, b) ensures a == b {
      assert Siblings(t, a, b);
    }
    var rank: map<Id, nat> :| Ranked(t, rank);
    assert Ranked(u, rank);
  }

  lemma ExpireLeavesInv(t: LeafTable, now: int)
    requires LeafInv(t)
    ensures LeafInv(ExpireLeaves(t, now))
  {
    var u := ExpireLeaves(t, now);
    forall id | id in u ensures StatusOk(u[id]) {
      assert LeafRowOk(t, id);
    }
    ProgressKeepsLeafInv(t, u);
  }

  lemma RevokeLeafInv(t: LeafTable, target: Id, now: int)
    requires LeafInv(t)
    ensures LeafInv(RevokeLeaf(t, target, now))
  {
    var u := RevokeLeaf(t, target, now);
    forall id | id in u ensures StatusOk(u[id]) {
      assert LeafRowOk(t, id);
    }
    ProgressKeepsLeafInv(t, u);
  }

  lemma RotatedLeavesInv(t: LeafTable, name: string, now: int)
    requires LeafInv(t)
    ensures LeafInv(LeavesRotated(t, name, now))
  {
    var u := LeavesRotated(t, name, now);
    forall id | id in u ensures StatusOk(u[id]) {
      assert LeafRowOk(t, id);
    }
    ProgressKeepsLeafInv(t, u);
  }

  /** `link` is empty, or a row under `name` that no row of the table supersedes yet. */
  ghost predicate LinkFits(t: LeafTable, name: string, link: Id) {
    link != "" ==>
      link in t && t[link].commonName == name && forall id {:trigger t[id]} | id in t :: t[id].supersedes != link
  }

  /** What a caller of a leaf upsert must supply: a consistent status and, when no row is
      live, no supersedes id or the id of a row of the same name that nothing supersedes yet. */
  ghost predicate LeafDraftFits(t: LeafTable, d: LeafDraft, now: int) {
    && d.status != Some(Retired)
    && (d.status == Some(Revoked) <==> d.revokedAt.Some?)
    && ((forall id :: !LiveLeaf(t, id, d.commonName, now)) ==> LinkFits(t, d.commonName, NullIfBlank(d.supersedes)))
  }

  /** A row that joins a rotated table with an admissible link keeps the lineage invariant. */
  lemma JoinLeaf(u: LeafTable, row: Leaf)
    requires LeafInv(u) && row.id != "" && row.id !in u
    requires forall id :: !ActiveLeaf(u, id, row.commonName)
    requires StatusOk(row) && LinkFits(u, row.commonName, row.supersedes)
    ensures LeafInv(u[row.id := row])
  {
    var v := u[row.id := row];
    InsertLeafOk(u, row);
    forall id | id in v ensures LeafRowOk(v, id) {
      if id == row.id {
        assert row.supersedes != "" ==> !ActiveLeaf(u, row.supersedes, row.commonName);
      } else {
        assert LeafRowOk(u, id);
        assert u[id].supersedes != "" ==> u[id].supersedes in u;
      }
    }
    forall a, b | Siblings(v, a, b) ensures a == b {
      assert a != row.id && b != row.id ==> Siblings(u, a, b);
    }
    var rank: map<Id, nat> :| Ranked(u, rank);
    var top := if row.supersedes == "" then 0 else rank[row.supersedes] + 1;
    var rank' := rank[row.id := top];
    forall id | id in v
      ensures id in rank' && (v[id].supersedes != "" ==> v[id].supersedes in rank' && rank'[v[id].supersedes] < rank'[id])
    {
      if id != row.id {
        assert u[id].supersedes != "" ==> u[id].supersedes in u && u[id].supersedes != row.id;
      }
    }
    assert Ranked(v, rank');
  }

  /** Rotating a table changes no link. */
  lemma LinkFitsRotated(t: LeafTable, name: string, now: int, link: Id)
    ensures LinkFits(t, name, link) <==> LinkFits(LeavesRotated(t, name, now), name, link)
  {
    var u := LeavesRotated(t, name, now);
    assert forall id {:trigger t[id]} {:trigger u[id]} | id in t ::
        u[id].supersedes == t[id].supersedes && u[id].commonName == t[id].commonName;
  }

  /** The link an upsert writes fits: a live row is superseded by nothing, and otherwise the draft fits. */
  lemma FittingLink(t: LeafTable, d: LeafDraft, now: int)
    requires LeafInv(t) && LeafDraftFits(t, d, now)
    ensures LinkFits(t, d.commonName, LeafLink(t, d, now))
  {
    if live :| LiveLeaf(t, live, d.commonName, now) {
      LinkFromCurrent(t, d, now, live);
      forall id | id in t ensures t[id].supersedes != live {
        assert LeafRowOk(t, id) && live != "";
      }
    } else {
      NoLiveLink(t, d, now);
    }
  }

  lemma NoLiveLink(t: LeafTable, d: LeafDraft, now: int)
    requires forall id :: !LiveLeaf(t, id, d.commonName, now)
    ensures LeafLink(t, d, now) == NullIfBlank(d.supersedes)
  {
  }

  lemma RotateThenJoin(t: LeafTable, row: Leaf, now: int)
    requires LeafInv(t) && row.id != "" && row.id !in t
    requires StatusOk(row) && LinkFits(t, row.commonName, row.supersedes)
    ensures LeafInv(LeavesRotated(t, row.commonName, now)[row.id := row])
  {
    LinkFitsRotated(t, row.commonName, now, row.supersedes);
    LeavesRotatedOk(t, row.commonName, now);
    RotatedLeavesInv(t, row.commonName, now);
    JoinLeaf(LeavesRotated(t, row.commonName, now), row);
  }

  lemma RotateKeepsLeafInv(t: LeafTable, d: LeafDraft, now: int)
    requires LeafInv(t) && d.id != "" && d.id !in t
    requires LeafDraftFits(t, d, now)
    ensures LeafInv(RotateLeaves(t, d, now))
  {
    FittingLink(t, d, now);
    RotateThenJoin(t, NewLeaf(d, LeafLink(t, d, now)), now);
  }

  /** An upsert that goes through keeps the leaf invariant exactly for the drafts that fit. */
  lemma LeafUpsertKeepsInvIff(t: LeafTable, d: LeafDraft, now: int)
    requires LeafInv(t) && d.id != "" && d.id !in t
    requires !MissingLink(LeafLink(t, d, now), t.Keys, d.id)
    ensures LeafInv(RotateLeaves(t, d, now)) <==> LeafDraftFits(t, d, now)
  {
    if LeafDraftFits(t, d, now) {
      RotateKeepsLeafInv(t, d, now);
    } else if LeafInv(RotateLeaves(t, d, now)) {
      LeafInvNeedsFit(t, d, now);
    }
  }

  /** Conversely, a link in a sound table names an older row of the same name that no other row names. */
  lemma JoinedLeafFits(u: LeafTable, row: Leaf)
    requires row.id !in u && LeafInv(u[row.id := row])
    ensures LinkFits(u, row.commonName, row.supersedes)
    ensures StatusOk(row)
  {
    var v := u[row.id := row];
    assert LeafRowOk(v, row.id);
    if row.supersedes != "" {
      var rank: map<Id, nat> :| Ranked(v, rank);
      assert rank[v[row.id].supersedes] < rank[row.id];
      forall id | id in u ensures u[id].supersedes != row.supersedes {
        assert v[id] == u[id];
        assert u[id].supersedes == row.supersedes ==> Siblings(v, id, row.id);
      }
    }
  }

  lemma LeafInvNeedsFit(t: LeafTable, d: LeafDraft, now: int)
    requires d.id !in t && LeafInv(RotateLeaves(t, d, now))
    ensures LeafDraftFits(t, d, now)
  {
    JoinedLeafFits(LeavesRotated(t, d.commonName, now), NewLeaf(d, LeafLink(t, d, now)));
    LinkFitsRotated(t, d.commonName, now, LeafLink(t, d, now));
    if forall id :: !LiveLeaf(t, id, d.commonName, now) {
      NoLiveLink(t, d, now);
    }
  }

  lemma RotateLeavesProgress(t: LeafTable, d: LeafDraft, now: int)
    requires d.id !in t
    ensures LeavesProgress(t, RotateLeaves(t, d, now))
  {
  }

  // --------------------------------------------------------------- CA tables

  lemma ProgressKeepsCaInv(t: CaTable, u: CaTable)
    requires CaInv(t) && CaOk(u) && CasProgress(t, u) && u.Keys == t.Keys
    requires forall id {:trigger u[id]} | id in u :: FlagsOk(u[id])
    ensures CaInv(u)
  {
    forall id | id in u ensures u[id].name == t[id].name && u[id].generation == t[id].generation
                             && u[id].supersedes == t[id].supersedes {
      assert CaProgress(t[id], u[id]);
    }
    forall id | id in u ensures CaRowOk(u, id) {
      assert CaRowOk(t, id);
    }
    SameNumbers(t, u);
  }

  lemma SameNumbers(t: CaTable, u: CaTable)
    requires Numbered(t) && u.Keys == t.Keys
    requires forall id {:trigger u[id]} | id in u :: u[id].name == t[id].name && u[id].generation == t[id].generation
    ensures Numbered(u)
  {
    forall a, b | SameNumber(u, a, b) ensures a == b {
      assert SameNumber(t, a, b);
    }
    forall id | id in u ensures NumberOk(u, id) {
      assert NumberOk(t, id);
      if u[id].generation > 1 {
        KeepsGeneration(t, u, u[id].name, u[id].generation - 1);
      }
    }
  }

  lemma KeepsGeneration(t: CaTable, u: CaTable, name: string, g: nat)
    requires HasGeneration(t, name, g) && t.Keys <= u.Keys
    requires forall id {:trigger t[id]} | id in t :: u[id].name == t[id].name && u[id].generation == t[id].generation
    ensures HasGeneration(u, name, g)
  {
    var id :| id in t && t[id].name == name && t[id].generation == g;
    assert u[id].generation == g;
  }

  lemma ExpireCasInv(t: CaTable, now: int)
    requires CaInv(t)
    ensures CaInv(ExpireCas(t, now))
  {
    var u := ExpireCas(t, now);
    ExpireCasOk(t, now);
    forall id | id in u ensures FlagsOk(u[id]) {
      assert CaRowOk(t, id);
    }
    ProgressKeepsCaInv(t, u);
  }

  lemma RetireCaInv(t: CaTable, target: Id)
    requires CaInv(t)
    ensures CaInv(RetireCa(t, target))
  {
    var u := RetireCa(t, target);
    RetireCaOk(t, target);
    forall id | id in u ensures FlagsOk(u[id]) {
      assert CaRowOk(t, id);
    }
    ProgressKeepsCaInv(t, u);
  }

  lemma RotatedFlags(row: Ca, name: string, now: int)
    requires FlagsOk(row)
    ensures FlagsOk(RotatedCa(row, name, now)) && CaProgress(row, RotatedCa(row, name, now))
  {
  }

  lemma CasRotatedInv(t: CaTable, name: string, now: int)
    requires CaInv(t)
    ensures CaInv(CasRotated(t, name, now))
  {
    var u := CasRotated(t, name, now);
    CasRotatedOk(t, name, now);
    forall id | id in u ensures FlagsOk(u[id]) && CaProgress(t[id], u[id]) {
      assert CaRowOk(t, id) && u[id] == RotatedCa(t[id], name, now);
      RotatedFlags(t[id], name, now);
    }
    ProgressKeepsCaInv(t, u);
  }

  lemma PromotedRows(t: CaTable, target: Id, now: int)
    requires CaInv(t) && PromoteOutcome(t, target, now) == Done
    ensures CasProgress(t, PromoteCas(t, target, now))
    ensures forall id {:trigger PromoteCas(t, target, now)[id]} | id in t :: FlagsOk(PromoteCas(t, target, now)[id])
  {
    var u := PromoteCas(t, target, now);
    forall id | id in t ensures FlagsOk(u[id]) && CaProgress(t[id], u[id]) {
      assert CaRowOk(t, id);
      PromotedFlags(t[id], t[target], now);
    }
  }

  /** A promotion that goes through keeps the invariant, whatever the target's dates say. */
  lemma PromoteCasInv(t: CaTable, target: Id, now: int)
    requires CaInv(t) && PromoteOutcome(t, target, now) == Done
    ensures CaInv(PromoteCas(t, target, now))
  {
    PromotedRows(t, target, now);
    PromoteStatements(t, target, now);
    ProgressKeepsCaInv(t, PromoteCas(t, target, now));
  }

  lemma PromotedFlags(row: Ca, target: Ca, now: int)
    requires FlagsOk(row) && ExpiredCa(target, now).status !in {Revoked, Expired}
    requires row.id == target.id ==> row == target
    ensures FlagsOk(PromotedCa(row, target, now)) && CaProgress(row, PromotedCa(row, target, now))
  {
  }

  /** `link` is empty or a row under `name`; every such row has a smaller generation than the next. */
  predicate CaLinkFits(t: CaTable, name: string, link: Id) {
    link != "" ==> link in t && t[link].name == name
  }

  /** What a caller of a CA upsert must supply: an active or empty status and, when no row
      is live, no supersedes id or one of the same name. */
  ghost predicate CaDraftFits(t: CaTable, d: CaDraft, now: int) {
    && d.status in {None, Some(Active)}
    && ((forall id :: !LiveCa(t, id, d.name, now)) ==> CaLinkFits(t, d.name, NullIfBlank(d.supersedes)))
  }

  lemma JoinCa(u: CaTable, row: Ca)
    requires CaInv(u) && row.id != "" && row.id !in u
    requires forall id :: !ActiveCa(u, id, row.name)
    requires FlagsOk(row) && CaLinkFits(u, row.name, row.supersedes)
    requires row.generation == MaxGeneration(u, row.name) + 1
    ensures CaInv(u[row.id := row])
  {
    var v := u[row.id := row];
    InsertCaOk(u, row);
    forall id | id in v ensures CaRowOk(v, id) {
      if id != row.id {
        assert CaRowOk(u, id);
      }
    }
    NextNumber(u, row);
  }

  lemma NextNumber(u: CaTable, row: Ca)
    requires Numbered(u) && row.id !in u && row.generation == MaxGeneration(u, row.name) + 1
    ensures Numbered(u[row.id := row])
  {
    var v := u[row.id := row];
    forall a, b | SameNumber(v, a, b) ensures a == b {
      assert a != row.id && b != row.id ==> SameNumber(u, a, b);
    }
    forall id | id in v ensures NumberOk(v, id) {
      if id != row.id {
        assert NumberOk(u, id);
      } else if row.generation > 1 {
        assert HasGeneration(u, row.name, row.generation - 1);
      }
      if v[id].generation > 1 {
        KeepsGeneration(u, v, v[id].name, v[id].generation - 1);
      }
    }
  }

  lemma RotatedCaColumns(t: CaTable, name: string, now: int)
    ensures forall id {:trigger t[id]} {:trigger CasRotated(t, name, now)[id]} | id in t ::
      CasRotated(t, name, now)[id].name == t[id].name && CasRotated(t, name, now)[id].generation == t[id].generation
    ensures MaxGeneration(CasRotated(t, name, now), name) == MaxGeneration(t, name)
  {
    var u, m := CasRotated(t, name, now), MaxGeneration(t, name);
    if m != 0 {
      var id :| id in t && t[id].name == name && t[id].generation == m;
      assert u[id].generation == m;
    }
    MaxGenerationUnique(u, name, m);
  }

  lemma RetireThenJoin(t: CaTable, row: Ca, now: int)
    requires CaInv(t) && row.id != "" && row.id !in t
    requires FlagsOk(row) && CaLinkFits(t, row.name, row.supersedes)
    requires row.generation == MaxGeneration(t, row.name) + 1
    ensures CaInv(CasRotated(t, row.name, now)[row.id := row])
  {
    RotatedCaColumns(t, row.name, now);
    CasRotatedOk(t, row.name, now);
    CasRotatedInv(t, row.name, now);
    JoinCa(CasRotated(t, row.name, now), row);
  }

  lemma NoLiveCaLink(t: CaTable, d: CaDraft, now: int)
    requires forall id :: !LiveCa(t, id, d.name, now)
    ensures CaLink(t, d, now) == NullIfBlank(d.supersedes)
  {
  }

  lemma FittingCaLink(t: CaTable, d: CaDraft, now: int)
    requires CaOk(t) && CaDraftFits(t, d, now)
    ensures CaLinkFits(t, d.name, CaLink(t, d, now))
  {
    if live :| LiveCa(t, live, d.name, now) {
      CaLinkFromCurrent(t, d, now, live);
    } else {
      NoLiveCaLink(t, d, now);
    }
  }

  lemma RotateKeepsCaInv(t: CaTable, d: CaDraft, now: int)
    requires CaInv(t) && d.id != "" && d.id !in t
    requires CaDraftFits(t, d, now)
    ensures CaInv(RotateCas(t, d, now))
  {
    FittingCaLink(t, d, now);
    RetireThenJoin(t, NewCa(d, MaxGeneration(t, d.name) + 1, CaLink(t, d, now)), now);
  }

  lemma JoinedCaFits(u: CaTable, row: Ca)
    requires row.id !in u && CaInv(u[row.id := row])
    ensures FlagsOk(row) && CaLinkFits(u, row.name, row.supersedes)
  {
    assert CaRowOk(u[row.id := row], row.id);
  }

  lemma CaInvNeedsFit(t: CaTable, d: CaDraft, now: int)
    requires d.id !in t && CaInv(RotateCas(t, d, now))
    ensures CaDraftFits(t, d, now)
  {
    var g, link := MaxGeneration(t, d.name) + 1, CaLink(t, d, now);
    JoinedCaFits(CasRotated(t, d.name, now), NewCa(d, g, link));
    RotatedCaColumns(t, d.name, now);
    if forall id :: !LiveCa(t, id, d.name, now) {
      NoLiveCaLink(t, d, now);
    }
  }

  /** A CA upsert that goes through keeps the CA invariant exactly for the drafts that fit:
      trust and issuing are forced on whatever status the caller supplies. */
  lemma CaUpsertKeepsInvIff(t: CaTable, d: CaDraft, now: int)
    requires CaInv(t) && d.id != "" && d.id !in t
    requires !MissingLink(CaLink(t, d, now), t.Keys, d.id)
    ensures CaInv(RotateCas(t, d, now)) <==> CaDraftFits(t, d, now)
  {
    if CaDraftFits(t, d, now) {
      RotateKeepsCaInv(t, d, now);
    }
    if CaInv(RotateCas(t, d, now)) {
      CaInvNeedsFit(t, d, now);
    }
  }

  lemma RotateCasProgress(t: CaTable, d: CaDraft, now: int)
    requires d.id !in t
    ensures CasProgress(t, RotateCas(t, d, now))
  {
  }
}
