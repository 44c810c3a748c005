/** What silence of the doctor means, and when the store's own operations guarantee it. */
module DoctorProof {
  import opened Tables
  import opened Statements
  import opened Lifecycle
  import opened Runs
  import opened Doctor

  /** A SELECT over the whole table: every row once, in any order. */
  ghost predicate ListsLeaves(rows: seq<Leaf>, t: LeafTable) {
    && (forall i, j | 0 <= i < j < |rows| :: rows[i].id != rows[j].id)
    && (forall row :: row in rows <==> row.id in t && t[row.id] == row)
  }

  ghost predicate ListsCas(rows: seq<Ca>, t: CaTable) {
    && (forall i, j | 0 <= i < j < |rows| :: rows[i].id != rows[j].id)
    && (forall row :: row in rows <==> row.id in t && t[row.id] == row)
  }

  ghost predicate Lists(l: Listing, db: Db) {
    && ListsLeaves(l.publics, db.publics) && ListsLeaves(l.privates, db.privates)
    && ListsCas(l.roots, db.roots) && ListsCas(l.intermediates, db.intermediates)
  }

  ghost predicate LeafIds(t: LeafTable) {
    forall id {:trigger t[id]} | id in t :: t[id].id == id
  }

  ghost predicate CaIds(t: CaTable) {
    forall id {:trigger t[id]} | id in t :: t[id].id == id
  }

  ghost predicate Ids(db: Db) {
    LeafIds(db.publics) && LeafIds(db.privates) && CaIds(db.roots) && CaIds(db.intermediates)
  }

  // -------------------------------------------------------- silence, by check

  ghost predicate CountsSilent(rows: seq<Leaf>) {
    forall name :: CountActive(rows, name) <= 1
  }

  ghost predicate CaCountsSilent(rows: seq<Ca>) {
    forall name :: CountActiveCas(rows, name) <= 1
  }

  ghost predicate LineageSilent(rows: seq<Leaf>, kind: CertKind) {
    forall f :: !LineageBroken(rows, kind, f)
  }

  ghost predicate CaRowsSilent(rows: seq<Ca>, ca: CaKind, now: int) {
    forall f :: CaRowReported(rows, ca, now, f) ==> SeverityOf(f) == Warn
  }

  ghost predicate RootReferencesSilent(roots: seq<Ca>, rows: seq<Ca>) {
    forall f :: !RootBroken(roots, rows, f)
  }

  ghost predicate IssuersSilent(rows: seq<Leaf>, icas: seq<Ca>) {
    forall f :: IssuerReported(rows, icas, f) ==> SeverityOf(f) == Warn
  }

  // ------------------------------------------------------------------ counts

  lemma {:induction false} CountedTwice(rows: seq<Leaf>, name: string) returns (i: nat, j: nat)
    requires CountActive(rows, name) > 1
    ensures i < j < |rows|
    ensures rows[i].status == rows[j].status == Active && rows[i].commonName == rows[j].commonName == name
  {
    var n := |rows| - 1;
    if rows[n].status == Active && rows[n].commonName == name {
      i := CountedOnce(rows[..n], name);
      j := n;
    } else {
      i, j := CountedTwice(rows[..n], name);
    }
  }

  lemma {:induction false} CountedOnce(rows: seq<Leaf>, name: string) returns (i: nat)
    requires CountActive(rows, name) > 0
    ensures i < |rows| && rows[i].status == Active && rows[i].commonName == name
  {
    var n := |rows| - 1;
    if rows[n].status == Active && rows[n].commonName == name {
      i := n;
    } else {
      i := CountedOnce(rows[..n], name);
    }
  }

  lemma {:induction false} CountsAtLeast(rows: seq<Leaf>, name: string, i: nat, j: nat)
    requires i <= j < |rows|
    requires rows[i].status == rows[j].status == Active && rows[i].commonName == rows[j].commonName == name
    ensures CountActive(rows, name) >= if i == j then 1 else 2
  {
    var n := |rows| - 1;
    if j < n {
      CountsAtLeast(rows[..n], name, i, j);
    } else if i < n {
      CountsAtLeast(rows[..n], name, i, i);
    }
  }

  /** The count check is silent exactly when no name has two active rows. */
  lemma ActiveCountSilentIff(rows: seq<Leaf>, t: LeafTable)
    requires LeafIds(t) && ListsLeaves(rows, t)
    ensures CountsSilent(rows) <==> OneActiveLeaf(t)
  {
    if OneActiveLeaf(t) {
      forall name ensures CountActive(rows, name) <= 1 {
        if CountActive(rows, name) > 1 {
          var i, j := CountedTwice(rows, name);
          assert rows[i] in rows && rows[j] in rows;
          assert ActiveLeaf(t, rows[i].id, t[rows[j].id].commonName) && ActiveLeaf(t, rows[j].id, name);
        }
      }
    } else {
      var a, b :| a in t && b in t && ActiveLeaf(t, a, t[b].commonName) && ActiveLeaf(t, b, t[b].commonName) && a != b;
      var name := t[b].commonName;
      assert t[a] in rows && t[b] in rows;
      var i :| 0 <= i < |rows| && rows[i] == t[a];
      var j :| 0 <= j < |rows| && rows[j] == t[b];
      CountsAtLeast(rows, name, if i < j then i else j, if i < j then j else i);
      assert CountActive(rows, name) > 1;
    }
  }

  lemma {:induction false} CasCountedTwice(rows: seq<Ca>, name: string) returns (i: nat, j: nat)
    requires CountActiveCas(rows, name) > 1
    ensures i < j < |rows|
    ensures rows[i].status == rows[j].status == Active && rows[i].name == rows[j].name == name
  {
    var n := |rows| - 1;
    if rows[n].status == Active && rows[n].name == name {
      i := CasCountedOnce(rows[..n], name);
      j := n;
    } else {
      i, j := CasCountedTwice(rows[..n], name);
    }
  }

  lemma {:induction false} CasCountedOnce(rows: seq<Ca>, name: string) returns (i: nat)
    requires CountActiveCas(rows, name) > 0
    ensures i < |rows| && rows[i].status == Active && rows[i].name == name
  {
    var n := |rows| - 1;
    if rows[n].status == Active && rows[n].name == name {
      i := n;
    } else {
      i := CasCountedOnce(rows[..n], name);
    }
  }

  lemma {:induction false} CasCountAtLeast(rows: seq<Ca>, name: string, i: nat, j: nat)
    requires i <= j < |rows|
    requires rows[i].status == rows[j].status == Active && rows[i].name == rows[j].name == name
    ensures CountActiveCas(rows, name) >= if i == j then 1 else 2
  {
    var n := |rows| - 1;
    if j < n {
      CasCountAtLeast(rows[..n], name, i, j);
    } else if i < n {
      CasCountAtLeast(rows[..n], name, i, i);
    }
  }

  lemma CaActiveCountSilentIff(rows: seq<Ca>, t: CaTable)
    requires CaIds(t) && ListsCas(rows, t)
    ensures CaCountsSilent(rows) <==> OneActiveCa(t)
  {
    if OneActiveCa(t) {
      forall name ensures CountActiveCas(rows, name) <= 1 {
        if CountActiveCas(rows, name) > 1 {
          var i, j := CasCountedTwice(rows, name);
          assert rows[i] in rows && rows[j] in rows;
          assert ActiveCa(t, rows[i].id, t[rows[j].id].name) && ActiveCa(t, rows[j].id, name);
        }
      }
    } else {
      var a, b :| a in t && b in t && ActiveCa(t, a, t[b].name) && ActiveCa(t, b, t[b].name) && a != b;
      var name := t[b].name;
      assert t[a] in rows && t[b] in rows;
      var i :| 0 <= i < |rows| && rows[i] == t[a];
      var j :| 0 <= j < |rows| && rows[j] == t[b];
      CasCountAtLeast(rows, name, if i < j then i else j, if i < j then j else i);
      assert CountActiveCas(rows, name) > 1;
    }
  }

  // -------------------------------------------------------------- references

  ghost predicate LinksResolve(t: LeafTable) {
    forall id {:trigger t[id]} | id in t :: t[id].supersedes != "" ==> t[id].supersedes in t
  }

  lemma LineageSilentIff(rows: seq<Leaf>, t: LeafTable, kind: CertKind)
    requires LeafIds(t) && ListsLeaves(rows, t)
    ensures LineageSilent(rows, kind) <==> LinksResolve(t)
  {
    if LinksResolve(t) {
      assert forall id {:trigger t[id]} | id in t :: t[id].supersedes != "" ==> t[t[id].supersedes] in rows;
    } else {
      var id :| id in t && t[id].supersedes != "" && t[id].supersedes !in t;
      assert t[id] in rows;
      assert LineageBroken(rows, kind, LineageMissing(kind, id, t[id].supersedes));
    }
  }

  lemma RootReferencesSilentIff(roots: seq<Ca>, rows: seq<Ca>, rt: CaTable, it: CaTable)
    requires CaIds(rt) && CaIds(it) && ListsCas(roots, rt) && ListsCas(rows, it)
    ensures RootReferencesSilent(roots, rows) <==> ParentsIn(it, rt.Keys)
  {
    if ParentsIn(it, rt.Keys) {
      assert forall id {:trigger it[id]} | id in it :: rt[it[id].rootCa] in roots;
    } else {
      var id :| id in it && it[id].rootCa !in rt;
      assert it[id] in rows;
      assert RootBroken(roots, rows, RootMissing(id, it[id].rootCa));
    }
  }

  lemma {:induction false} LookupListed(rows: seq<Ca>, id: Id)
    ensures match Lookup(rows, id)
      case None => forall row | row in rows :: row.id != id
      case Some(ca) => ca in rows && ca.id == id
  {
    if rows != [] {
      LookupListed(rows[..|rows| - 1], id);
      assert rows == rows[..|rows| - 1] + [rows[|rows| - 1]];
    }
  }

  ghost predicate ActiveIssuersIn(t: LeafTable, cas: set<Id>) {
    forall id {:trigger t[id]} | id in t :: t[id].status == Active ==> t[id].issuerCa in cas
  }

  lemma IssuersSilentIff(rows: seq<Leaf>, icas: seq<Ca>, t: LeafTable, it: CaTable)
    requires LeafIds(t) && CaIds(it) && ListsLeaves(rows, t) && ListsCas(icas, it)
    ensures IssuersSilent(rows, icas) <==> ActiveIssuersIn(t, it.Keys)
  {
    if ActiveIssuersIn(t, it.Keys) {
      forall f | IssuerReported(rows, icas, f) ensures SeverityOf(f) == Warn {
        var row :| row in rows && IssuerReports(row, icas, f);
        LookupListed(icas, row.issuerCa);
        assert t[row.id].issuerCa in it;
        assert it[row.issuerCa] in icas;
      }
    } else {
      var id :| id in t && t[id].status == Active && t[id].issuerCa !in it;
      assert t[id] in rows;
      LookupListed(icas, t[id].issuerCa);
      assert IssuerReports(t[id], icas, IssuerMissing(id, t[id].issuerCa));
      assert IssuerReported(rows, icas, IssuerMissing(id, t[id].issuerCa));
    }
  }

  ghost predicate NoExpiredIssuing(t: CaTable, now: int) {
    forall id {:trigger t[id]} | id in t :: !(t[id].issuing && Past(t[id].notAfter, now))
  }

  lemma ExpiredSilentIff(rows: seq<Ca>, t: CaTable, ca: CaKind, now: int)
    requires CaIds(t) && ListsCas(rows, t)
    ensures CaRowsSilent(rows, ca, now) <==> NoExpiredIssuing(t, now)
  {
    if NoExpiredIssuing(t, now) {
      forall f | CaRowReported(rows, ca, now, f) ensures SeverityOf(f) == Warn {
        var row :| row in rows && CaRowReports(row, ca, now, f);
        assert t[row.id] == row;
      }
    } else {
      var id :| id in t && t[id].issuing && Past(t[id].notAfter, now);
      assert t[id] in rows;
      assert CaRowReports(t[id], ca, now, ExpiredIssuing(ca, id));
      assert CaRowReported(rows, ca, now, ExpiredIssuing(ca, id));
    }
  }

  // ------------------------------------------------------------- the theorem

  ghost predicate NoErrors(l: Listing, now: int) {
    forall f :: Reports(l, now, f) ==> SeverityOf(f) == Warn
  }

  /** The invariants the doctor's error checks stand for. */
  ghost predicate Sound(db: Db, now: int) {
    && OneActiveLeaf(db.publics) && OneActiveLeaf(db.privates)
    && LinksResolve(db.publics) && LinksResolve(db.privates)
    && OneActiveCa(db.roots) && OneActiveCa(db.intermediates)
    && NoExpiredIssuing(db.roots, now) && NoExpiredIssuing(db.intermediates, now)
    && ParentsIn(db.intermediates, db.roots.Keys)
    && ActiveIssuersIn(db.privates, db.intermediates.Keys)
  }

  /** Every error check is silent, by kind of finding. */
  ghost predicate ChecksSilent(l: Listing, now: int) {
    && CountsSilent(l.publics) && CountsSilent(l.privates)
    && LineageSilent(l.publics, Public) && LineageSilent(l.privates, Private)
    && CaCountsSilent(l.roots) && CaCountsSilent(l.intermediates)
    && CaRowsSilent(l.roots, Root, now) && CaRowsSilent(l.intermediates, Intermediate, now)
    && RootReferencesSilent(l.roots, l.intermediates)
    && IssuersSilent(l.privates, l.intermediates)
  }

  lemma NoErrorsByCheck(l: Listing, now: int)
    ensures NoErrors(l, now) <==> ChecksSilent(l, now)
  {
    if NoErrors(l, now) {
      forall name ensures CountActive(l.publics, name) <= 1 && CountActive(l.privates, name) <= 1
                       && CountActiveCas(l.roots, name) <= 1 && CountActiveCas(l.intermediates, name) <= 1 {
        var a := ActiveCount(Public, name, CountActive(l.publics, name));
        var b := ActiveCount(Private, name, CountActive(l.privates, name));
        var c := CaActiveCount(Root, name, CountActiveCas(l.roots, name));
        var d := CaActiveCount(Intermediate, name, CountActiveCas(l.intermediates, name));
        assert !Reports(l, now, a) && !Reports(l, now, b) && !Reports(l, now, c) && !Reports(l, now, d);
      }
      forall f ensures !LineageBroken(l.publics, Public, f) && !LineageBroken(l.privates, Private, f)
                    && !RootBroken(l.roots, l.intermediates, f) {
        assert Reports(l, now, f) ==> SeverityOf(f) == Warn;
      }
      forall f | CaRowReported(l.roots, Root, now, f) || CaRowReported(l.intermediates, Intermediate, now, f)
                 || IssuerReported(l.privates, l.intermediates, f)
        ensures SeverityOf(f) == Warn
      {
        assert Reports(l, now, f);
      }
    }
  }

  /** The doctor reports no error exactly when the invariants behind its checks hold. */
  lemma DoctorExact(l: Listing, db: Db, now: int)
    requires Ids(db) && Lists(l, db)
    ensures NoErrors(l, now) <==> Sound(db, now)
  {
    NoErrorsByCheck(l, now);
    ActiveCountSilentIff(l.publics, db.publics);
    ActiveCountSilentIff(l.privates, db.privates);
    LineageSilentIff(l.publics, db.publics, Public);
    LineageSilentIff(l.privates, db.privates, Private);
    CaActiveCountSilentIff(l.roots, db.roots);
    CaActiveCountSilentIff(l.intermediates, db.intermediates);
    ExpiredSilentIff(l.roots, db.roots, Root, now);
    ExpiredSilentIff(l.intermediates, db.intermediates, Intermediate, now);
    RootReferencesSilentIff(l.roots, l.intermediates, db.roots, db.intermediates);
    IssuersSilentIff(l.privates, l.intermediates, db.privates, db.intermediates);
  }

  lemma SchemaIds(db: Db)
    requires Schema(db)
    ensures Ids(db) && LinksResolve(db.publics) && LinksResolve(db.privates)
    ensures ActiveIssuersIn(db.privates, db.intermediates.Keys)
  {
  }

  lemma SyncedCas(t: CaTable, now: int)
    requires CaInv(t)
    ensures NoExpiredIssuing(ExpireCas(t, now), now)
  {
    var u := ExpireCas(t, now);
    forall id | id in t ensures !(u[id].issuing && Past(u[id].notAfter, now)) {
      assert CaRowOk(t, id);
    }
  }

  lemma OnlyActiveIssue(rows: seq<Ca>, t: CaTable, ca: CaKind, now: int)
    requires CaInv(t) && ListsCas(rows, t)
    ensures forall f :: CaRowReported(rows, ca, now, f) ==> !f.NonActiveIssuing?
  {
    forall row | row in rows ensures FlagsOk(row) {
      assert CaRowOk(t, row.id);
    }
  }

  /** Right after a sync at `now`, the doctor at `now` has no error to report, and no CA that issues without being active. */
  lemma CleanAfterSync(db: Db, now: int, l: Listing)
    requires Inv(db) && Lists(l, SyncDb(db, now))
    ensures NoErrors(l, now)
    ensures forall f :: Reports(l, now, f) ==> !f.NonActiveIssuing?
  {
    var s := SyncDb(db, now);
    SyncInv(db, now);
    SchemaIds(s);
    SyncedCas(db.roots, now);
    SyncedCas(db.intermediates, now);
    DoctorExact(l, s, now);
    OnlyActiveIssue(l.roots, s.roots, Root, now);
    OnlyActiveIssue(l.intermediates, s.intermediates, Intermediate, now);
  }

  /** The doctor run that follows opening any reachable store reports no error. */
  lemma ReachableStoresAreClean(events: seq<Event>, now: int, l: Listing)
    requires forall e | e in events :: CallerForm(e.op)
    requires Lists(l, Run(EMPTY, events + [Event(Open, now)]))
    ensures NoErrors(l, now)
  {
    ReachableInv(events);
    assert (events + [Event(Open, now)])[..|events|] == events;
    CleanAfterSync(Run(EMPTY, events), now, l);
  }

  /** A listing taken after a promotion but before the next sync, as when another process
      promotes between the doctor's opening of the store and its queries, has an error exactly
      when the promoted CA is already past its end date. */
  lemma PromotionCleanIff(db: Db, id: Id, now: int, l: Listing)
    requires Inv(db) && PromoteOutcome(db.roots, id, now) == Done
    requires Lists(l, AfterPromoteRoot(db, id, now))
    ensures NoErrors(l, now) <==> !Past(db.roots[id].notAfter, now)
  {
    var p := AfterPromoteRoot(db, id, now);
    PromoteRootSchema(db, id, now);
    SchemaIds(p);
    SyncedCas(db.intermediates, now);
    PromotedExpiry(db.roots, id, now);
    DoctorExact(l, p, now);
  }

  lemma PromotionCleanIffIntermediate(db: Db, id: Id, now: int, l: Listing)
    requires Inv(db) && PromoteOutcome(db.intermediates, id, now) == Done
    requires Lists(l, AfterPromoteIntermediate(db, id, now))
    ensures NoErrors(l, now) <==> !Past(db.intermediates[id].notAfter, now)
  {
    var p := AfterPromoteIntermediate(db, id, now);
    PromoteIntermediateSchema(db, id, now);
    SchemaIds(p);
    SyncedCas(db.roots, now);
    PromotedExpiry(db.intermediates, id, now);
    DoctorExact(l, p, now);
  }

  lemma PromotedExpiry(t: CaTable, id: Id, now: int)
    requires CaInv(t) && PromoteOutcome(t, id, now) == Done
    ensures NoExpiredIssuing(PromoteCas(t, id, now), now) <==> !Past(t[id].notAfter, now)
  {
    var u := PromoteCas(t, id, now);
    assert u[id].issuing && u[id].notAfter == t[id].notAfter;
    forall x | x in t && x != id ensures !(u[x].issuing && Past(u[x].notAfter, now)) {
      assert CaRowOk(t, x);
    }
  }

  // ------------------------------------------- tables read at different times

  /** The four tables as four successive queries see them, other operations in between. */
  ghost function Spread(a: Db, b: Db, c: Db, d: Db): Db {
    Db(a.publics, b.privates, c.roots, d.intermediates, d.requests)
  }

  lemma KeysGrow(a: Db, b: Db)
    requires Progress(a, b)
    ensures a.roots.Keys <= b.roots.Keys && a.intermediates.Keys <= b.intermediates.Keys
  {
    forall id | id in a.roots ensures id in b.roots {
      assert a.roots[id] == a.roots[id];
    }
    forall id | id in a.intermediates ensures id in b.intermediates {
      assert a.intermediates[id] == a.intermediates[id];
    }
  }

  lemma SpreadSound(a: Db, b: Db, c: Db, d: Db, now: int)
    requires Inv(a) && Inv(b) && Inv(c) && Inv(d) && Progress(b, d)
    ensures Ids(Spread(a, b, c, d))
    ensures Sound(Spread(a, b, c, d), now) <==>
            && NoExpiredIssuing(c.roots, now) && NoExpiredIssuing(d.intermediates, now)
            && ParentsIn(d.intermediates, c.roots.Keys)
  {
    SchemaIds(a);
    SchemaIds(b);
    SchemaIds(c);
    SchemaIds(d);
    KeysGrow(b, d);
    assert ActiveIssuersIn(b.privates, d.intermediates.Keys) by {
      assert IssuersIn(b.privates, b.intermediates.Keys);
    }
  }

  /** The doctor reads public leaves, private leaves, roots and intermediates in that order.
      With any operations between its queries it reports no error exactly if no CA listed as
      issuing has ended and every listed intermediate has its root among the roots listed
      before it; each one whose root came in between is a false alarm. */
  lemma SpreadListingExact(a: Db, e1: seq<Event>, e2: seq<Event>, e3: seq<Event>, now: int, l: Listing)
    requires Inv(a) && forall e | e in e1 + e2 + e3 :: CallerForm(e.op)
    requires
      var b := Run(a, e1); var c := Run(b, e2); var d := Run(c, e3);
      Lists(l, Spread(a, b, c, d))
    ensures
      var c := Run(Run(a, e1), e2); var d := Run(c, e3);
      && (NoErrors(l, now) <==>
          && NoExpiredIssuing(c.roots, now) && NoExpiredIssuing(d.intermediates, now)
          && ParentsIn(d.intermediates, c.roots.Keys))
      && ParentsIn(d.intermediates, d.roots.Keys)
  {
    var b := Run(a, e1);
    var c := Run(b, e2);
    var d := Run(c, e3);
    RunKeepsInv(a, e1);
    RunKeepsInv(b, e2);
    RunKeepsInv(c, e3);
    assert Progress(b, d) by {
      RunProgress(b, e2);
      RunProgress(c, e3);
      ProgressTransitive(b, c, d);
    }
    SpreadSound(a, b, c, d, now);
    DoctorExact(l, Spread(a, b, c, d), now);
  }
}
