/** What each store operation does to each row, column by column, and what that means
    over whole runs: the end date of an inserted certificate, the finality of a revocation. */
module Effects {
  import opened Text
  import opened Tables
  import opened Lifecycle
  import opened Runs

  // ---- The sync ----

  /** A sync at `now` changes exactly the active rows that ended before `now`: a leaf becomes
      expired, a CA also stops issuing. A row that ends at `now`, or never, stays. */
  lemma SyncRows(db: Db, now: int, id: Id)
    ensures
      var u := Apply(db, Event(Open, now));
      && u.requests == db.requests
      && (id in u.publics <==> id in db.publics) && (id in u.privates <==> id in db.privates)
      && (id in u.roots <==> id in db.roots) && (id in u.intermediates <==> id in db.intermediates)
      && (id in db.publics ==> LeafSynced(db.publics[id], u.publics[id], now))
      && (id in db.privates ==> LeafSynced(db.privates[id], u.privates[id], now))
      && (id in db.roots ==> CaSynced(db.roots[id], u.roots[id], now))
      && (id in db.intermediates ==> CaSynced(db.intermediates[id], u.intermediates[id], now))
  {
  }

  predicate LeafSynced(before: Leaf, after: Leaf, now: int) {
    match before.notAfter
    case Some(end) =>
      if before.status == Active && end < now then after == before.(status := Expired) else after == before
    case None => after == before
  }

  predicate CaSynced(before: Ca, after: Ca, now: int) {
    match before.notAfter
    case Some(end) =>
      if before.status == Active && end < now then after == before.(status := Expired, issuing := false)
      else after == before
    case None => after == before
  }

  // ---- Leaf upserts ----

  /** The row of an inserted leaf, from what the caller handed over. */
  predicate LeafStored(d: LeafDraft, row: Leaf) {
    && row.id == d.id && row.commonName == d.commonName && row.sansHash == d.sansHash && row.issuerCa == d.issuerCa
    && (row.issuer == if Trim(d.issuer) == "" then "" else d.issuer)
    && (match d.status case Some(s) => row.status == s case None => row.status == Active)
    && row.revokedAt == d.revokedAt && row.notAfter == d.notAfter && row.pem == d.pem
  }

  /** Another row across a leaf upsert under `name` at `now`. */
  predicate LeafMadeWay(before: Leaf, after: Leaf, name: string, now: int) {
    if before.status != Active then after == before
    else if before.notAfter.Some? && before.notAfter.value < now then after == before.(status := Expired)
    else if before.commonName == name then after == before.(status := Superseded)
    else after == before
  }

  /** The row is active under this name and has not ended before `now`. */
  predicate Serving(status: Status, rowName: string, notAfter: Option<int>, name: string, now: int) {
    status == Active && rowName == name && (notAfter.Some? ==> now <= notAfter.value)
  }

  function Nulled(text: string): string {
    if Trim(text) == "" then "" else text
  }

  /** The new row supersedes the one that was serving its name, and without one it carries the
      caller's link. */
  ghost predicate LeafLinked(t: LeafTable, d: LeafDraft, link: Id, now: int) {
    && (forall x | x in t && Serving(t[x].status, t[x].commonName, t[x].notAfter, d.commonName, now) :: link == Nulled(x))
    && ((forall x | x in t :: !Serving(t[x].status, t[x].commonName, t[x].notAfter, d.commonName, now)) ==>
        link == Nulled(d.supersedes))
  }

  lemma ServingIsLive(t: LeafTable, name: string, now: int, x: Id)
    ensures x in t && Serving(t[x].status, t[x].commonName, t[x].notAfter, name, now) <==> LiveLeaf(t, x, name, now)
  {
  }

  lemma LinkIsLeafLink(t: LeafTable, d: LeafDraft, now: int)
    requires LeafOk(t)
    ensures LeafLinked(t, d, LeafLink(t, d, now), now)
  {
    BlankTrims(d.supersedes);
    forall x, y | LiveLeaf(t, x, d.commonName, now) && LiveLeaf(t, y, d.commonName, now) ensures x == y {
      assert ActiveLeaf(t, x, t[y].commonName) && ActiveLeaf(t, y, t[y].commonName);
    }
    forall x | x in t && Serving(t[x].status, t[x].commonName, t[x].notAfter, d.commonName, now)
      ensures LeafLink(t, d, now) == Nulled(x)
    {
      assert LiveLeaf(t, x, d.commonName, now);
      BlankTrims(x);
    }
  }

  /** No row was serving the name, and the caller's link names no row. */
  ghost predicate LeafLinkUnknown(t: LeafTable, d: LeafDraft, now: int) {
    && Trim(d.supersedes) != "" && d.supersedes !in t && d.supersedes != d.id
    && forall x | x in t :: !Serving(t[x].status, t[x].commonName, t[x].notAfter, d.commonName, now)
  }

  lemma LeafLinkMissing(t: LeafTable, d: LeafDraft, now: int)
    requires LeafOk(t)
    ensures MissingLink(LeafLink(t, d, now), t.Keys, d.id) <==> LeafLinkUnknown(t, d, now)
  {
    BlankTrims(d.supersedes);
    LinkIsLeafLink(t, d, now);
    forall x ensures x in t && Serving(t[x].status, t[x].commonName, t[x].notAfter, d.commonName, now) <==>
                     LiveLeaf(t, x, d.commonName, now)
    {
      ServingIsLive(t, d.commonName, now, x);
    }
  }

  /** What an upsert answers: the first of these that is wrong, in this order. When it fails
      nothing changes. */
  lemma PublicUpsertAnswer(db: Db, d: LeafDraft, now: int)
    requires Schema(db)
    ensures PublicOutcome(db, d, now) ==
      if Trim(d.commonName) == "" then Failed(MissingName)
      else if d.sansCsv == "" || d.sansHash == "" then Failed(MissingSans)
      else if d.id == "" then Failed(MissingId)
      else if d.id in db.publics then Failed(DuplicateId)
      else if LeafLinkUnknown(db.publics, d, now) then Failed(MissingReference)
      else Done
    ensures PublicOutcome(db, d, now) != Done ==> Apply(db, Event(UpsertPublic(d), now)) == db
  {
    BlankTrims(d.commonName);
    LeafLinkMissing(db.publics, d, now);
  }

  lemma RotatedRows(t: LeafTable, d: LeafDraft, now: int, other: Id)
    requires LeafOk(t) && d.id !in t
    ensures
      var u := RotateLeaves(t, d, now);
      && d.id in u && LeafStored(d, u[d.id]) && u[d.id].sansCsv == d.sansCsv
      && LeafLinked(t, d, u[d.id].supersedes, now)
      && (other != d.id ==> (other in u <==> other in t))
      && (other in t ==> LeafMadeWay(t[other], u[other], d.commonName, now))
  {
    LinkIsLeafLink(t, d, now);
    BlankTrims(d.issuer);
  }

  /** A successful upsert adds one row, which has the columns of the draft and the link to the
      row that was serving; every other row makes way or stays as it is. */
  lemma PublicUpsertRows(db: Db, d: LeafDraft, now: int, other: Id)
    requires Schema(db) && PublicOutcome(db, d, now) == Done
    ensures
      var u := Apply(db, Event(UpsertPublic(d), now));
      && d.id !in db.publics && d.id in u.publics
      && LeafStored(d, u.publics[d.id]) && u.publics[d.id].sansCsv == d.sansCsv
      && LeafLinked(db.publics, d, u.publics[d.id].supersedes, now)
      && (other != d.id ==> (other in u.publics <==> other in db.publics))
      && (other in db.publics ==> LeafMadeWay(db.publics[other], u.publics[other], d.commonName, now))
  {
    RotatedRows(db.publics, d, now, other);
  }

  /** The other tables are synced by it. */
  lemma PublicUpsertSyncs(db: Db, d: LeafDraft, now: int)
    requires PublicOutcome(db, d, now) == Done
    ensures
      var u, v := Apply(db, Event(UpsertPublic(d), now)), Apply(db, Event(Open, now));
      u.privates == v.privates && u.roots == v.roots && u.intermediates == v.intermediates && u.requests == db.requests
  {
  }

  /** The certificate ends with its end date: at a sync at `later` it is still active exactly
      if it has no end date, or one that is not before `later`. */
  lemma PublicUpsertExpires(db: Db, d: LeafDraft, now: int, later: int)
    requires Schema(db) && PublicOutcome(db, d, now) == Done && (d.status == None || d.status == Some(Active))
    ensures
      var u := Apply(Apply(db, Event(UpsertPublic(d), now)), Event(Open, later));
      && d.id in u.publics
      && (match d.notAfter
          case Some(end) => u.publics[d.id].status == if later <= end then Active else Expired
          case None => u.publics[d.id].status == Active)
  {
    PublicUpsertRows(db, d, now, d.id);
    SyncRows(Apply(db, Event(UpsertPublic(d), now)), later, d.id);
  }

  lemma PrivateUpsertAnswer(db: Db, d: LeafDraft, now: int)
    requires Schema(db)
    ensures PrivateOutcome(db, PrivateColumns(d), now) ==
      if d.id == "" then Failed(MissingId)
      else if Trim(d.commonName) == "" then Failed(MissingName)
      else if d.id in db.privates then Failed(DuplicateId)
      else if LeafLinkUnknown(db.privates, d, now) || d.issuerCa !in db.intermediates then Failed(MissingReference)
      else Done
    ensures PrivateOutcome(db, PrivateColumns(d), now) != Done ==> Apply(db, Event(UpsertPrivate(d), now)) == db
  {
    BlankTrims(d.commonName);
    LeafLinkMissing(db.privates, PrivateColumns(d), now);
  }

  /** A successful upsert adds one row, which has the columns of the draft and the link to the
      row that was serving; every other row makes way or stays as it is. */
  lemma PrivateUpsertRows(db: Db, d: LeafDraft, now: int, other: Id)
    requires Schema(db) && PrivateOutcome(db, PrivateColumns(d), now) == Done
    ensures
      var u := Apply(db, Event(UpsertPrivate(d), now));
      && d.id !in db.privates && d.id in u.privates
      && LeafStored(d, u.privates[d.id]) && u.privates[d.id].sansCsv == Nulled(d.sansCsv)
      && LeafLinked(db.privates, d, u.privates[d.id].supersedes, now)
      && (other != d.id ==> (other in u.privates <==> other in db.privates))
      && (other in db.privates ==> LeafMadeWay(db.privates[other], u.privates[other], d.commonName, now))
  {
    RotatedRows(db.privates, PrivateColumns(d), now, other);
    BlankTrims(d.sansCsv);
  }

  /** The other tables are synced by it. */
  lemma PrivateUpsertSyncs(db: Db, d: LeafDraft, now: int)
    requires PrivateOutcome(db, PrivateColumns(d), now) == Done
    ensures
      var u, v := Apply(db, Event(UpsertPrivate(d), now)), Apply(db, Event(Open, now));
      u.publics == v.publics && u.roots == v.roots && u.intermediates == v.intermediates && u.requests == db.requests
  {
  }

  /** The certificate ends with its end date: at a sync at `later` it is still active exactly
      if it has no end date, or one that is not before `later`. */
  lemma PrivateUpsertExpires(db: Db, d: LeafDraft, now: int, later: int)
    requires Schema(db) && PrivateOutcome(db, PrivateColumns(d), now) == Done && (d.status == None || d.status == Some(Active))
    ensures
      var u := Apply(Apply(db, Event(UpsertPrivate(d), now)), Event(Open, later));
      && d.id in u.privates
      && (match d.notAfter
          case Some(end) => u.privates[d.id].status == if later <= end then Active else Expired
          case None => u.privates[d.id].status == Active)
  {
    PrivateUpsertRows(db, d, now, d.id);
    SyncRows(Apply(db, Event(UpsertPrivate(d), now)), later, d.id);
  }

  // ---- CA upserts and promotions ----

  /** The row of an inserted CA: trusted and issuing whatever the caller says. */
  predicate CaStored(d: CaDraft, row: Ca) {
    && row.id == d.id && row.rootCa == d.rootCa && row.name == d.name && row.commonName == d.commonName
    && (match d.status case Some(s) => row.status == s case None => row.status == Active)
    && row.trusted && row.issuing && row.notAfter == d.notAfter && row.pem == d.pem
  }

  /** Its generation is the one after the largest of its name. */
  ghost predicate NextOfName(t: CaTable, name: string, generation: nat) {
    && (forall x | x in t && t[x].name == name :: t[x].generation < generation)
    && (generation == 1 || exists x :: x in t && t[x].name == name && t[x].generation == generation - 1)
  }

  predicate CaMadeWay(before: Ca, after: Ca, name: string, now: int) {
    if before.status != Active then after == before
    else if before.notAfter.Some? && before.notAfter.value < now then after == before.(status := Expired, issuing := false)
    else if before.name == name then after == before.(status := Retired, issuing := false)
    else after == before
  }

  ghost predicate CaLinked(t: CaTable, d: CaDraft, link: Id, now: int) {
    && (forall x | x in t && Serving(t[x].status, t[x].name, t[x].notAfter, d.name, now) :: link == Nulled(x))
    && ((forall x | x in t :: !Serving(t[x].status, t[x].name, t[x].notAfter, d.name, now)) ==>
        link == Nulled(d.supersedes))
  }

  lemma LinkIsCaLink(t: CaTable, d: CaDraft, now: int)
    requires CaOk(t)
    ensures CaLinked(t, d, CaLink(t, d, now), now)
  {
    BlankTrims(d.supersedes);
    forall x, y | LiveCa(t, x, d.name, now) && LiveCa(t, y, d.name, now) ensures x == y {
      assert ActiveCa(t, x, t[y].name) && ActiveCa(t, y, t[y].name);
    }
    forall x | x in t && Serving(t[x].status, t[x].name, t[x].notAfter, d.name, now)
      ensures CaLink(t, d, now) == Nulled(x)
    {
      assert LiveCa(t, x, d.name, now);
      BlankTrims(x);
    }
  }

  ghost predicate CaLinkUnknown(t: CaTable, d: CaDraft, now: int) {
    && Trim(d.supersedes) != "" && d.supersedes !in t && d.supersedes != d.id
    && forall x | x in t :: !Serving(t[x].status, t[x].name, t[x].notAfter, d.name, now)
  }

  lemma CaLinkMissing(t: CaTable, d: CaDraft, now: int)
    requires CaOk(t)
    ensures MissingLink(CaLink(t, d, now), t.Keys, d.id) <==> CaLinkUnknown(t, d, now)
  {
    BlankTrims(d.supersedes);
    LinkIsCaLink(t, d, now);
    forall x ensures x in t && Serving(t[x].status, t[x].name, t[x].notAfter, d.name, now) <==> LiveCa(t, x, d.name, now) {
    }
  }

  lemma RootUpsertAnswer(db: Db, d: CaDraft, now: int)
    requires Schema(db)
    ensures RootOutcome(db, d, now) ==
      if d.id == "" then Failed(MissingId)
      else if Trim(d.name) == "" then Failed(MissingName)
      else if d.id in db.roots then Failed(DuplicateId)
      else if CaLinkUnknown(db.roots, d, now) then Failed(MissingReference)
      else Done
    ensures RootOutcome(db, d, now) != Done ==> Apply(db, Event(UpsertRoot(d), now)) == db
  {
    BlankTrims(d.name);
    CaLinkMissing(db.roots, d, now);
  }

  lemma RootUpsertRows(db: Db, d: CaDraft, now: int, other: Id)
    requires Schema(db) && RootOutcome(db, d, now) == Done
    ensures
      var u := Apply(db, Event(UpsertRoot(d), now));
      && d.id !in db.roots && d.id in u.roots
      && CaStored(d, u.roots[d.id]) && NextOfName(db.roots, d.name, u.roots[d.id].generation)
      && CaLinked(db.roots, d, u.roots[d.id].supersedes, now)
      && (other != d.id ==> (other in u.roots <==> other in db.roots))
      && (other in db.roots ==> CaMadeWay(db.roots[other], u.roots[other], d.name, now))
  {
    LinkIsCaLink(db.roots, d, now);
  }

  /** The other tables are synced by it. */
  lemma RootUpsertSyncs(db: Db, d: CaDraft, now: int)
    requires RootOutcome(db, d, now) == Done
    ensures
      var u, v := Apply(db, Event(UpsertRoot(d), now)), Apply(db, Event(Open, now));
      u.publics == v.publics && u.privates == v.privates && u.intermediates == v.intermediates && u.requests == db.requests
  {
  }

  lemma RootUpsertExpires(db: Db, d: CaDraft, now: int, later: int)
    requires Schema(db) && RootOutcome(db, d, now) == Done && (d.status == None || d.status == Some(Active))
    ensures
      var u := Apply(Apply(db, Event(UpsertRoot(d), now)), Event(Open, later));
      && d.id in u.roots
      && (match d.notAfter
          case Some(end) => u.roots[d.id].status == (if later <= end then Active else Expired)
                            && (u.roots[d.id].issuing <==> later <= end)
          case None => u.roots[d.id].status == Active && u.roots[d.id].issuing)
  {
    RootUpsertRows(db, d, now, d.id);
    SyncRows(Apply(db, Event(UpsertRoot(d), now)), later, d.id);
  }

  /** The other tables are synced by a promotion. */
  lemma RootPromotionSyncs(db: Db, id: Id, now: int)
    requires PromoteOutcome(db.roots, id, now) == Done
    ensures
      var u, v := Apply(db, Event(PromoteRoot(id), now)), Apply(db, Event(Open, now));
      u.publics == v.publics && u.privates == v.privates && u.intermediates == v.intermediates && u.requests == db.requests
  {
  }

  /** A promotion succeeds exactly for a row that is neither revoked nor expired, nor active past its
      end. The target then is active, trusted and issuing, the others of its name make way, and a
      promotion that fails changes nothing. */
  lemma RootPromotionRows(db: Db, id: Id, now: int, other: Id)
    ensures
      var t := db.roots;
      PromoteOutcome(t, id, now) == Done <==>
        id in t && t[id].status != Revoked && t[id].status != Expired
        && !(t[id].status == Active && t[id].notAfter.Some? && t[id].notAfter.value < now)
    ensures PromoteOutcome(db.roots, id, now) != Done ==> Apply(db, Event(PromoteRoot(id), now)) == db
    ensures Schema(db) && PromoteOutcome(db.roots, id, now) == Done ==>
      var u := Apply(db, Event(PromoteRoot(id), now)).roots;
      && id in u && u[id] == db.roots[id].(status := Active, trusted := true, issuing := true)
      && (other in u <==> other in db.roots)
      && (other in db.roots && other != id ==> CaMadeWay(db.roots[other], u[other], db.roots[id].name, now))
  {
  }

  lemma IntermediateUpsertAnswer(db: Db, d: CaDraft, now: int)
    requires Schema(db)
    ensures IntermediateOutcome(db, d, now) ==
      if d.id == "" then Failed(MissingId)
      else if Trim(d.name) == "" then Failed(MissingName)
      else if d.id in db.intermediates then Failed(DuplicateId)
      else if CaLinkUnknown(db.intermediates, d, now) || d.rootCa !in db.roots then Failed(MissingReference)
      else Done
    ensures IntermediateOutcome(db, d, now) != Done ==> Apply(db, Event(UpsertIntermediate(d), now)) == db
  {
    BlankTrims(d.name);
    CaLinkMissing(db.intermediates, d, now);
  }

  lemma IntermediateUpsertRows(db: Db, d: CaDraft, now: int, other: Id)
    requires Schema(db) && IntermediateOutcome(db, d, now) == Done
    ensures
      var u := Apply(db, Event(UpsertIntermediate(d), now));
      && d.id !in db.intermediates && d.id in u.intermediates
      && CaStored(d, u.intermediates[d.id]) && NextOfName(db.intermediates, d.name, u.intermediates[d.id].generation)
      && CaLinked(db.intermediates, d, u.intermediates[d.id].supersedes, now)
      && (other != d.id ==> (other in u.intermediates <==> other in db.intermediates))
      && (other in db.intermediates ==> CaMadeWay(db.intermediates[other], u.intermediates[other], d.name, now))
  {
    LinkIsCaLink(db.intermediates, d, now);
  }

  /** The other tables are synced by it. */
  lemma IntermediateUpsertSyncs(db: Db, d: CaDraft, now: int)
    requires IntermediateOutcome(db, d, now) == Done
    ensures
      var u, v := Apply(db, Event(UpsertIntermediate(d), now)), Apply(db, Event(Open, now));
      u.publics == v.publics && u.privates == v.privates && u.roots == v.roots && u.requests == db.requests
  {
  }

  lemma IntermediateUpsertExpires(db: Db, d: CaDraft, now: int, later: int)
    requires Schema(db) && IntermediateOutcome(db, d, now) == Done && (d.status == None || d.status == Some(Active))
    ensures
      var u := Apply(Apply(db, Event(UpsertIntermediate(d), now)), Event(Open, later));
      && d.id in u.intermediates
      && (match d.notAfter
          case Some(end) => u.intermediates[d.id].status == (if later <= end then Active else Expired)
                            && (u.intermediates[d.id].issuing <==> later <= end)
          case None => u.intermediates[d.id].status == Active && u.intermediates[d.id].issuing)
  {
    IntermediateUpsertRows(db, d, now, d.id);
    SyncRows(Apply(db, Event(UpsertIntermediate(d), now)), later, d.id);
  }

  /** The other tables are synced by a promotion. */
  lemma IntermediatePromotionSyncs(db: Db, id: Id, now: int)
    requires PromoteOutcome(db.intermediates, id, now) == Done
    ensures
      var u, v := Apply(db, Event(PromoteIntermediate(id), now)), Apply(db, Event(Open, now));
      u.publics == v.publics && u.privates == v.privates && u.roots == v.roots && u.requests == db.requests
  {
  }

  /** A promotion succeeds exactly for a row that is neither revoked nor expired, nor active past its
      end. The target then is active, trusted and issuing, the others of its name make way, and a
      promotion that fails changes nothing. */
  lemma IntermediatePromotionRows(db: Db, id: Id, now: int, other: Id)
    ensures
      var t := db.intermediates;
      PromoteOutcome(t, id, now) == Done <==>
        id in t && t[id].status != Revoked && t[id].status != Expired
        && !(t[id].status == Active && t[id].notAfter.Some? && t[id].notAfter.value < now)
    ensures PromoteOutcome(db.intermediates, id, now) != Done ==> Apply(db, Event(PromoteIntermediate(id), now)) == db
    ensures Schema(db) && PromoteOutcome(db.intermediates, id, now) == Done ==>
      var u := Apply(db, Event(PromoteIntermediate(id), now)).intermediates;
      && id in u && u[id] == db.intermediates[id].(status := Active, trusted := true, issuing := true)
      && (other in u <==> other in db.intermediates)
      && (other in db.intermediates && other != id ==>
            CaMadeWay(db.intermediates[other], u[other], db.intermediates[id].name, now))
  {
  }

  // ---- Revoking ----

  /** Revoking a row that is not yet revoked sets its status and its revocation time, and nothing
      else; a revoked row keeps its first time; every other row and table stays. */
  lemma RevokePublicRows(db: Db, id: Id, now: int, other: Id)
    ensures
      var u := Apply(db, Event(RevokePublic(id), now));
      && u == db.(publics := u.publics)
      && (other in u.publics <==> other in db.publics)
      && (other in db.publics ==>
          u.publics[other] == if other == id && db.publics[id].status != Revoked
                            then db.publics[id].(status := Revoked, revokedAt := Some(now)) else db.publics[other])
  {
  }

  /** From a revocation on, whatever follows, the row is revoked and serves no name. */
  lemma PublicRevokedForGood(db: Db, id: Id, now: int, events: seq<Event>)
    requires Schema(db) && id in db.publics
    ensures
      var t := Run(Apply(db, Event(RevokePublic(id), now)), events).publics;
      && id in t && t[id].status == Revoked && t[id].revokedAt ==
         (if db.publics[id].status == Revoked then db.publics[id].revokedAt else Some(now))
      && forall name :: !ActiveLeaf(t, id, name)
  {
    var e := Event(RevokePublic(id), now);
    RevokePublicRows(db, id, now, id);
    ApplyKeepsSchema(db, e);
    RunProgress(Apply(db, e), events);
    assert LeafProgress(Apply(db, e).publics[id], Run(Apply(db, e), events).publics[id]);
  }

  /** Revoking a row that is not yet revoked sets its status and its revocation time, and nothing
      else; a revoked row keeps its first time; every other row and table stays. */
  lemma RevokePrivateRows(db: Db, id: Id, now: int, other: Id)
    ensures
      var u := Apply(db, Event(RevokePrivate(id), now));
      && u == db.(privates := u.privates)
      && (other in u.privates <==> other in db.privates)
      && (other in db.privates ==>
          u.privates[other] == if other == id && db.privates[id].status != Revoked
                            then db.privates[id].(status := Revoked, revokedAt := Some(now)) else db.privates[other])
  {
  }

  /** From a revocation on, whatever follows, the row is revoked and serves no name. */
  lemma PrivateRevokedForGood(db: Db, id: Id, now: int, events: seq<Event>)
    requires Schema(db) && id in db.privates
    ensures
      var t := Run(Apply(db, Event(RevokePrivate(id), now)), events).privates;
      && id in t && t[id].status == Revoked && t[id].revokedAt ==
         (if db.privates[id].status == Revoked then db.privates[id].revokedAt else Some(now))
      && forall name :: !ActiveLeaf(t, id, name)
  {
    var e := Event(RevokePrivate(id), now);
    RevokePrivateRows(db, id, now, id);
    ApplyKeepsSchema(db, e);
    RunProgress(Apply(db, e), events);
    assert LeafProgress(Apply(db, e).privates[id], Run(Apply(db, e), events).privates[id]);
  }

  // ---- Retiring ----

  /** Retiring stops a row that is neither revoked nor expired from being active and issuing, and
      changes nothing else. */
  lemma RetireRootRows(db: Db, id: Id, now: int, other: Id)
    ensures
      var u := Apply(db, Event(RetireRoot(id), now));
      && u == db.(roots := u.roots)
      && (other in u.roots <==> other in db.roots)
      && (other in db.roots ==>
          u.roots[other] == if other == id && db.roots[id].status != Revoked && db.roots[id].status != Expired
                            then db.roots[id].(status := Retired, issuing := false) else db.roots[other])
  {
  }

  /** Operations on the other tables leave this one alone or sync it. */
  lemma RootsElsewhere(db: Db, e: Event)
    requires !e.op.UpsertRoot? && !e.op.PromoteRoot? && !e.op.RetireRoot?
    ensures Apply(db, e).roots == db.roots || Apply(db, e).roots == Apply(db, Event(Open, e.now)).roots
  {
    match e.op
    case Open =>
    case UpsertPublic(d) => if PublicOutcome(db, d, e.now) == Done { PublicUpsertSyncs(db, d, e.now); }
    case UpsertPrivate(d) => if PrivateOutcome(db, PrivateColumns(d), e.now) == Done { PrivateUpsertSyncs(db, d, e.now); }
    case UpsertIntermediate(d) => if IntermediateOutcome(db, d, e.now) == Done { IntermediateUpsertSyncs(db, d, e.now); }
    case PromoteIntermediate(id) =>
      if PromoteOutcome(db.intermediates, id, e.now) == Done { IntermediatePromotionSyncs(db, id, e.now); }
    case RetireIntermediate(id) => RetireIntermediateRows(db, id, e.now, id);
    case RevokePublic(id) => RevokePublicRows(db, id, e.now, id);
    case RevokePrivate(id) => RevokePrivateRows(db, id, e.now, id);
  }

  lemma RootStaysDown(db: Db, e: Event, id: Id)
    requires Schema(db) && id in db.roots && db.roots[id].status != Active && e.op != PromoteRoot(id)
    ensures
      var t := Apply(db, e).roots;
      id in t && t[id].status != Active && (t[id].issuing ==> db.roots[id].issuing)
  {
    if e.op.UpsertRoot? {
      if RootOutcome(db, e.op.ca, e.now) == Done {
        RootUpsertRows(db, e.op.ca, e.now, id);
      }
    } else if e.op.PromoteRoot? {
      RootPromotionRows(db, e.op.id, e.now, id);
    } else if e.op.RetireRoot? {
      RetireRootRows(db, e.op.id, e.now, id);
    } else {
      RootsElsewhere(db, e);
      SyncRows(db, e.now, id);
    }
  }

  lemma {:induction false} RootStaysDownOverRun(db: Db, events: seq<Event>, id: Id)
    requires Schema(db) && id in db.roots && db.roots[id].status != Active
    requires forall e | e in events :: e.op != PromoteRoot(id)
    ensures
      var t := Run(db, events).roots;
      id in t && t[id].status != Active && (t[id].issuing ==> db.roots[id].issuing)
  {
    if events != [] {
      var n := |events| - 1;
      RootStaysDownOverRun(db, events[..n], id);
      RunKeepsSchema(db, events[..n]);
      RootStaysDown(Run(db, events[..n]), events[n], id);
    }
  }

  /** From a retirement of an existing CA on, until it is itself promoted, it is not active and does
      not issue, whatever else happens. */
  lemma RootRetiredUntilPromoted(db: Db, id: Id, now: int, events: seq<Event>)
    requires Inv(db) && id in db.roots
    requires forall e | e in events :: e.op != PromoteRoot(id)
    ensures
      var t := Run(Apply(db, Event(RetireRoot(id), now)), events).roots;
      id in t && t[id].status != Active && !t[id].issuing
  {
    assert CaRowOk(db.roots, id);
    RetireRootRows(db, id, now, id);
    ApplyKeepsSchema(db, Event(RetireRoot(id), now));
    RootStaysDownOverRun(Apply(db, Event(RetireRoot(id), now)), events, id);
  }

  /** Retiring stops a row that is neither revoked nor expired from being active and issuing, and
      changes nothing else. */
  lemma RetireIntermediateRows(db: Db, id: Id, now: int, other: Id)
    ensures
      var u := Apply(db, Event(RetireIntermediate(id), now));
      && u == db.(intermediates := u.intermediates)
      && (other in u.intermediates <==> other in db.intermediates)
      && (other in db.intermediates ==>
          u.intermediates[other] ==
          if other == id && db.intermediates[id].status != Revoked && db.intermediates[id].status != Expired
          then db.intermediates[id].(status := Retired, issuing := false)
          else db.intermediates[other])
  {
  }

  /** Operations on the other tables leave this one alone or sync it. */
  lemma IntermediatesElsewhere(db: Db, e: Event)
    requires !e.op.UpsertIntermediate? && !e.op.PromoteIntermediate? && !e.op.RetireIntermediate?
    ensures Apply(db, e).intermediates == db.intermediates ||
            Apply(db, e).intermediates == Apply(db, Event(Open, e.now)).intermediates
  {
    match e.op
    case Open =>
    case UpsertPublic(d) => if PublicOutcome(db, d, e.now) == Done { PublicUpsertSyncs(db, d, e.now); }
    case UpsertPrivate(d) => if PrivateOutcome(db, PrivateColumns(d), e.now) == Done { PrivateUpsertSyncs(db, d, e.now); }
    case UpsertRoot(d) => if RootOutcome(db, d, e.now) == Done { RootUpsertSyncs(db, d, e.now); }
    case PromoteRoot(id) => if PromoteOutcome(db.roots, id, e.now) == Done { RootPromotionSyncs(db, id, e.now); }
    case RetireRoot(id) => RetireRootRows(db, id, e.now, id);
    case RevokePublic(id) => RevokePublicRows(db, id, e.now, id);
    case RevokePrivate(id) => RevokePrivateRows(db, id, e.now, id);
  }

  lemma IntermediateStaysDown(db: Db, e: Event, id: Id)
    requires Schema(db) && id in db.intermediates && db.intermediates[id].status != Active && e.op != PromoteIntermediate(id)
    ensures
      var t := Apply(db, e).intermediates;
      id in t && t[id].status != Active && (t[id].issuing ==> db.intermediates[id].issuing)
  {
    if e.op.UpsertIntermediate? {
      if IntermediateOutcome(db, e.op.ca, e.now) == Done {
        IntermediateUpsertRows(db, e.op.ca, e.now, id);
      }
    } else if e.op.PromoteIntermediate? {
      IntermediatePromotionRows(db, e.op.id, e.now, id);
    } else if e.op.RetireIntermediate? {
      RetireIntermediateRows(db, e.op.id, e.now, id);
    } else {
      IntermediatesElsewhere(db, e);
      SyncRows(db, e.now, id);
    }
  }

  lemma {:induction false} IntermediateStaysDownOverRun(db: Db, events: seq<Event>, id: Id)
    requires Schema(db) && id in db.intermediates && db.intermediates[id].status != Active
    requires forall e | e in events :: e.op != PromoteIntermediate(id)
    ensures
      var t := Run(db, events).intermediates;
      id in t && t[id].status != Active && (t[id].issuing ==> db.intermediates[id].issuing)
  {
    if events != [] {
      var n := |events| - 1;
      IntermediateStaysDownOverRun(db, events[..n], id);
      RunKeepsSchema(db, events[..n]);
      IntermediateStaysDown(Run(db, events[..n]), events[n], id);
    }
  }

  /** From a retirement of an existing CA on, until it is itself promoted, it is not active and does
      not issue, whatever else happens. */
  lemma IntermediateRetiredUntilPromoted(db: Db, id: Id, now: int, events: seq<Event>)
    requires Inv(db) && id in db.intermediates
    requires forall e | e in events :: e.op != PromoteIntermediate(id)
    ensures
      var t := Run(Apply(db, Event(RetireIntermediate(id), now)), events).intermediates;
      id in t && t[id].status != Active && !t[id].issuing
  {
    assert CaRowOk(db.intermediates, id);
    RetireIntermediateRows(db, id, now, id);
    ApplyKeepsSchema(db, Event(RetireIntermediate(id), now));
    IntermediateStaysDownOverRun(Apply(db, Event(RetireIntermediate(id), now)), events, id);
  }

  // ---- CSR requests ----

  /** A submission is stored exactly if these columns are given, the kind reads as one of the two
      up to case and padding, and the id is new; the row has the columns of the submission. */
  lemma SubmissionRows(t: CsrTable, d: CsrDraft, other: Id)
    ensures CreateOutcome(t, d) == Done <==>
      && Trim(d.id) != "" && Trim(d.commonName) != "" && d.csrPem != "" && Trim(d.pickupHash) != "" && d.id !in t
      && ToLower(Trim(d.kind)) in {"public", "private"}
    ensures CreateOutcome(t, d) != Done ==> CreateRequest(t, d) == t
    ensures CreateOutcome(t, d) == Done ==>
      var u := CreateRequest(t, d);
      && d.id in u && u[d.id].id == d.id && u[d.id].commonName == d.commonName && u[d.id].csrPem == d.csrPem
      && u[d.id].pickupHash == d.pickupHash && u[d.id].status == d.status
      && (u[d.id].kind == Public <==> ToLower(Trim(d.kind)) == "public")
      && u[d.id].sansCsv == Nulled(d.sansCsv) && u[d.id].issuedCert == Nulled(d.issuedCert)
      && u[d.id].note == Nulled(d.note)
      && (other != d.id ==> (other in u <==> other in t) && (other in t ==> u[other] == t[other]))
  {
    BlankTrims(d.id);
    BlankTrims(d.commonName);
    BlankTrims(d.pickupHash);
    BlankTrims(d.sansCsv);
    BlankTrims(d.issuedCert);
    BlankTrims(d.note);
  }

  /** A decision changes the status, the note and, when issuing, the certificate of a pending
      request, and no other row. */
  lemma DecisionRows(t: CsrTable, id: Id, cert: Id, note: string, other: Id)
    ensures
      var u, v := MarkIssued(t, id, cert, note), MarkRejected(t, id, note);
      && (other in u <==> other in t) && (other in v <==> other in t)
      && (other in t ==>
          if other == id && t[id].status == Pending then
            u[id] == t[id].(status := Issued, issuedCert := cert, note := Nulled(note))
            && v[id] == t[id].(status := Rejected, note := Nulled(note))
          else u[other] == t[other] == v[other])
  {
    BlankTrims(note);
  }
}
