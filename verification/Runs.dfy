/** Whole runs of the store, and what they mean for certificate and CA lineage. */
module Runs {
  import opened Text
  import opened Tables
  import opened Statements
  import opened Lifecycle

  datatype Op =
    | Open
    | UpsertPublic(leaf: LeafDraft)
    | UpsertPrivate(leaf: LeafDraft)
    | UpsertRoot(ca: CaDraft)
    | UpsertIntermediate(ca: CaDraft)
    | PromoteRoot(id: Id)
    | PromoteIntermediate(id: Id)
    | RetireRoot(id: Id)
    | RetireIntermediate(id: Id)
    | RevokePublic(id: Id)
    | RevokePrivate(id: Id)

  /** An operation and the second at which it reads the clock; clocks need not be monotone. */
  datatype Event = Event(op: Op, now: int)

  ghost function Apply(db: Db, e: Event): Db {
    match e.op
    case Open => SyncDb(db, e.now)
    case UpsertPublic(d) => AfterUpsertPublic(db, d, e.now)
    case UpsertPrivate(d) => AfterUpsertPrivate(db, PrivateColumns(d), e.now)
    case UpsertRoot(d) => AfterUpsertRoot(db, d, e.now)
    case UpsertIntermediate(d) => AfterUpsertIntermediate(db, d, e.now)
    case PromoteRoot(id) => AfterPromoteRoot(db, id, e.now)
    case PromoteIntermediate(id) => AfterPromoteIntermediate(db, id, e.now)
    case RetireRoot(id) => AfterRetireRoot(db, id)
    case RetireIntermediate(id) => AfterRetireIntermediate(db, id)
    case RevokePublic(id) => AfterRevokePublic(db, id, e.now)
    case RevokePrivate(id) => AfterRevokePrivate(db, id, e.now)
  }

  ghost function Run(db: Db, events: seq<Event>): Db {
    if events == [] then db else Apply(Run(db, events[..|events| - 1]), events[|events| - 1])
  }

  /** The draft forms that `privateca.go`, `csr.go` and `publiccert.go` pass to the store. */
  predicate LeafCallerForm(d: LeafDraft) {
    d.status in {None, Some(Active)} && IsBlank(d.supersedes) && d.revokedAt.None?
  }

  predicate CaCallerForm(d: CaDraft) {
    d.status in {None, Some(Active)} && IsBlank(d.supersedes)
  }

  predicate CallerForm(op: Op) {
    match op
    case UpsertPublic(d) => LeafCallerForm(d)
    case UpsertPrivate(d) => LeafCallerForm(d)
    case UpsertRoot(d) => CaCallerForm(d)
    case UpsertIntermediate(d) => CaCallerForm(d)
    case _ => true
  }

  predicate IsUpsert(op: Op) {
    op.UpsertPublic? || op.UpsertPrivate? || op.UpsertRoot? || op.UpsertIntermediate?
  }

  predicate IsPromotion(op: Op) {
    op.PromoteRoot? || op.PromoteIntermediate?
  }

  predicate IsUpdate(op: Op) {
    op.RetireRoot? || op.RetireIntermediate? || op.RevokePublic? || op.RevokePrivate?
  }

  // ---------------------------------------------------------- one operation

  lemma SyncSteps(db: Db, now: int)
    requires Inv(db)
    ensures LeafInv(ExpireLeaves(db.publics, now)) && LeafInv(ExpireLeaves(db.privates, now))
    ensures CaInv(ExpireCas(db.roots, now)) && CaInv(ExpireCas(db.intermediates, now))
  {
    ExpireLeavesInv(db.publics, now);
    ExpireLeavesInv(db.privates, now);
    ExpireCasInv(db.roots, now);
    ExpireCasInv(db.intermediates, now);
  }

  lemma SyncInv(db: Db, now: int)
    requires Inv(db)
    ensures Inv(SyncDb(db, now))
  {
    SyncSchema(db, now);
    SyncSteps(db, now);
  }

  /** A synced store with one table replaced by a sound one is sound. */
  lemma WithPublics(db: Db, t: LeafTable, now: int)
    requires Inv(db) && LeafInv(t) && Schema(SyncDb(db, now).(publics := t))
    ensures Inv(SyncDb(db, now).(publics := t))
  {
    SyncSteps(db, now);
  }

  lemma WithPrivates(db: Db, t: LeafTable, now: int)
    requires Inv(db) && LeafInv(t) && Schema(SyncDb(db, now).(privates := t))
    ensures Inv(SyncDb(db, now).(privates := t))
  {
    SyncSteps(db, now);
  }

  lemma WithRoots(db: Db, t: CaTable, now: int)
    requires Inv(db) && CaInv(t) && Schema(SyncDb(db, now).(roots := t))
    ensures Inv(SyncDb(db, now).(roots := t))
  {
    SyncSteps(db, now);
  }

  lemma WithIntermediates(db: Db, t: CaTable, now: int)
    requires Inv(db) && CaInv(t) && Schema(SyncDb(db, now).(intermediates := t))
    ensures Inv(SyncDb(db, now).(intermediates := t))
  {
    SyncSteps(db, now);
  }

  lemma UpsertPublicInv(db: Db, d: LeafDraft, now: int)
    requires Inv(db) && LeafCallerForm(d)
    ensures Inv(AfterUpsertPublic(db, d, now))
  {
    if PublicOutcome(db, d, now) == Done {
      var t := RotateLeaves(db.publics, d, now);
      assert LeafInv(t) by { RotateKeepsLeafInv(db.publics, d, now); }
      assert Schema(SyncDb(db, now).(publics := t)) by { UpsertPublicSchema(db, d, now); }
      WithPublics(db, t, now);
    }
  }

  lemma UpsertPrivateInv(db: Db, d: LeafDraft, now: int)
    requires Inv(db) && LeafCallerForm(d)
    ensures Inv(AfterUpsertPrivate(db, d, now))
  {
    if PrivateOutcome(db, d, now) == Done {
      var t := RotateLeaves(db.privates, d, now);
      assert LeafInv(t) by { RotateKeepsLeafInv(db.privates, d, now); }
      assert Schema(SyncDb(db, now).(privates := t)) by { UpsertPrivateSchema(db, d, now); }
      WithPrivates(db, t, now);
    }
  }

  lemma UpsertRootInv(db: Db, d: CaDraft, now: int)
    requires Inv(db) && CaCallerForm(d)
    ensures Inv(AfterUpsertRoot(db, d, now))
  {
    if RootOutcome(db, d, now) == Done {
      var t := RotateCas(db.roots, d, now);
      assert CaInv(t) by { RotateKeepsCaInv(db.roots, d, now); }
      assert Schema(SyncDb(db, now).(roots := t)) by { UpsertRootSchema(db, d, now); }
      WithRoots(db, t, now);
    }
  }

  lemma UpsertIntermediateInv(db: Db, d: CaDraft, now: int)
    requires Inv(db) && CaCallerForm(d)
    ensures Inv(AfterUpsertIntermediate(db, d, now))
  {
    if IntermediateOutcome(db, d, now) == Done {
      var t := RotateCas(db.intermediates, d, now);
      assert CaInv(t) by { RotateKeepsCaInv(db.intermediates, d, now); }
      assert Schema(SyncDb(db, now).(intermediates := t)) by { UpsertIntermediateSchema(db, d, now); }
      WithIntermediates(db, t, now);
    }
  }

  lemma PromoteRootInv(db: Db, id: Id, now: int)
    requires Inv(db)
    ensures Inv(AfterPromoteRoot(db, id, now))
  {
    if PromoteOutcome(db.roots, id, now) == Done {
      PromoteRootSchema(db, id, now);
      SyncSteps(db, now);
      PromoteCasInv(db.roots, id, now);
    }
  }

  lemma PromoteIntermediateInv(db: Db, id: Id, now: int)
    requires Inv(db)
    ensures Inv(AfterPromoteIntermediate(db, id, now))
  {
    if PromoteOutcome(db.intermediates, id, now) == Done {
      PromoteIntermediateSchema(db, id, now);
      SyncSteps(db, now);
      PromoteCasInv(db.intermediates, id, now);
    }
  }

  lemma RetireRootInv(db: Db, id: Id)
    requires Inv(db)
    ensures Inv(AfterRetireRoot(db, id))
  {
    RetireCaInv(db.roots, id);
  }

  lemma AppliedRetireRoot(db: Db, e: Event)
    requires e.op.RetireRoot?
    ensures Apply(db, e) == AfterRetireRoot(db, e.op.id)
  {
  }

  lemma RetireIntermediateInv(db: Db, id: Id)
    requires Inv(db)
    ensures Inv(AfterRetireIntermediate(db, id))
  {
    RetireCaInv(db.intermediates, id);
  }

  lemma AppliedRetireIntermediate(db: Db, e: Event)
    requires e.op.RetireIntermediate?
    ensures Apply(db, e) == AfterRetireIntermediate(db, e.op.id)
  {
  }

  lemma RevokePublicInv(db: Db, id: Id, now: int)
    requires Inv(db)
    ensures Inv(AfterRevokePublic(db, id, now))
  {
    RevokeLeafInv(db.publics, id, now);
  }

  lemma AppliedRevokePublic(db: Db, e: Event)
    requires e.op.RevokePublic?
    ensures Apply(db, e) == AfterRevokePublic(db, e.op.id, e.now)
  {
  }

  lemma RevokePrivateInv(db: Db, id: Id, now: int)
    requires Inv(db)
    ensures Inv(AfterRevokePrivate(db, id, now))
  {
    RevokeLeafInv(db.privates, id, now);
  }

  lemma AppliedRevokePrivate(db: Db, e: Event)
    requires e.op.RevokePrivate?
    ensures Apply(db, e) == AfterRevokePrivate(db, e.op.id, e.now)
  {
  }

  lemma UpsertInv(db: Db, e: Event)
    requires Inv(db) && CallerForm(e.op)
    requires IsUpsert(e.op)
    ensures Inv(Apply(db, e))
  {
    match e.op
    case UpsertPublic(d) => UpsertPublicInv(db, d, e.now);
    case UpsertPrivate(d) => UpsertPrivateInv(db, PrivateColumns(d), e.now);
    case UpsertRoot(d) => UpsertRootInv(db, d, e.now);
    case UpsertIntermediate(d) => UpsertIntermediateInv(db, d, e.now);
  }

  lemma PromotionInv(db: Db, e: Event)
    requires Inv(db) && IsPromotion(e.op)
    ensures Inv(Apply(db, e))
  {
    match e.op
    case PromoteRoot(id) =>
      assert Apply(db, e) == AfterPromoteRoot(db, id, e.now);
      PromoteRootInv(db, id, e.now);
    case PromoteIntermediate(id) =>
      assert Apply(db, e) == AfterPromoteIntermediate(db, id, e.now);
      PromoteIntermediateInv(db, id, e.now);
  }

  lemma RetireRootKeepsInv(db: Db, e: Event)
    requires Inv(db) && e.op.RetireRoot?
    ensures Inv(Apply(db, e))
  {
    AppliedRetireRoot(db, e);
    RetireRootInv(db, e.op.id);
  }

  lemma RetireIntermediateKeepsInv(db: Db, e: Event)
    requires Inv(db) && e.op.RetireIntermediate?
    ensures Inv(Apply(db, e))
  {
    AppliedRetireIntermediate(db, e);
    RetireIntermediateInv(db, e.op.id);
  }

  lemma RevokePublicKeepsInv(db: Db, e: Event)
    requires Inv(db) && e.op.RevokePublic?
    ensures Inv(Apply(db, e))
  {
    AppliedRevokePublic(db, e);
    RevokePublicInv(db, e.op.id, e.now);
  }

  lemma RevokePrivateKeepsInv(db: Db, e: Event)
    requires Inv(db) && e.op.RevokePrivate?
    ensures Inv(Apply(db, e))
  {
    AppliedRevokePrivate(db, e);
    RevokePrivateInv(db, e.op.id, e.now);
  }

  lemma UpdateInv(db: Db, e: Event)
    requires Inv(db) && IsUpdate(e.op)
    ensures Inv(Apply(db, e))
  {
    if e.op.RetireRoot? {
      RetireRootKeepsInv(db, e);
    } else if e.op.RetireIntermediate? {
      RetireIntermediateKeepsInv(db, e);
    } else if e.op.RevokePublic? {
      RevokePublicKeepsInv(db, e);
    } else {
      RevokePrivateKeepsInv(db, e);
    }
  }

  /** Every operation, successful or not, keeps the whole invariant. */
  lemma ApplyKeepsInv(db: Db, e: Event)
    requires Inv(db) && CallerForm(e.op)
    ensures Inv(Apply(db, e))
  {
    if IsUpsert(e.op) {
      UpsertInv(db, e);
    } else if IsPromotion(e.op) {
      PromotionInv(db, e);
    } else if IsUpdate(e.op) {
      UpdateInv(db, e);
    } else {
      SyncInv(db, e.now);
    }
  }

  lemma RetireSchema(db: Db, id: Id)
    requires Schema(db)
    ensures Schema(AfterRetireRoot(db, id)) && Schema(AfterRetireIntermediate(db, id))
  {
    RetireCaOk(db.roots, id);
    RetireCaOk(db.intermediates, id);
  }

  lemma RevokeSchema(db: Db, id: Id, now: int)
    requires Schema(db)
    ensures Schema(AfterRevokePublic(db, id, now)) && Schema(AfterRevokePrivate(db, id, now))
  {
    RevokeLeafOk(db.publics, id, now);
    RevokeLeafOk(db.privates, id, now);
  }

  lemma UpsertSchema(db: Db, e: Event)
    requires Schema(db)
    requires IsUpsert(e.op)
    ensures Schema(Apply(db, e))
  {
    match e.op
    case UpsertPublic(d) => UpsertPublicSchema(db, d, e.now);
    case UpsertPrivate(d) => UpsertPrivateSchema(db, PrivateColumns(d), e.now);
    case UpsertRoot(d) => UpsertRootSchema(db, d, e.now);
    case UpsertIntermediate(d) => UpsertIntermediateSchema(db, d, e.now);
  }

  lemma PromotionSchema(db: Db, e: Event)
    requires Schema(db) && IsPromotion(e.op)
    ensures Schema(Apply(db, e))
  {
    match e.op
    case PromoteRoot(id) => PromoteRootSchema(db, id, e.now);
    case PromoteIntermediate(id) => PromoteIntermediateSchema(db, id, e.now);
  }

  lemma UpdateSchema(db: Db, e: Event)
    requires Schema(db) && IsUpdate(e.op)
    ensures Schema(Apply(db, e))
  {
    match e.op
    case RetireRoot(id) => RetireSchema(db, id);
    case RetireIntermediate(id) => RetireSchema(db, id);
    case RevokePublic(id) => RevokeSchema(db, id, e.now);
    case RevokePrivate(id) => RevokeSchema(db, id, e.now);
  }

  /** Whatever drafts are passed, no operation breaks a schema constraint. */
  lemma ApplyKeepsSchema(db: Db, e: Event)
    requires Schema(db)
    ensures Schema(Apply(db, e))
  {
    if IsUpsert(e.op) {
      UpsertSchema(db, e);
    } else if IsPromotion(e.op) {
      PromotionSchema(db, e);
    } else if IsUpdate(e.op) {
      UpdateSchema(db, e);
    } else {
      SyncSchema(db, e.now);
    }
  }

  lemma ProgressReflexive(db: Db)
    ensures Progress(db, db)
  {
  }

  lemma SyncProgress(db: Db, now: int)
    ensures Progress(db, SyncDb(db, now))
  {
  }

  lemma UpsertPublicProgress(db: Db, d: LeafDraft, now: int)
    ensures Progress(db, AfterUpsertPublic(db, d, now))
  {
    ProgressReflexive(db);
    if PublicOutcome(db, d, now) == Done {
      SyncProgress(db, now);
      RotateLeavesProgress(db.publics, d, now);
    }
  }

  lemma UpsertPrivateProgress(db: Db, d: LeafDraft, now: int)
    ensures Progress(db, AfterUpsertPrivate(db, d, now))
  {
    ProgressReflexive(db);
    if PrivateOutcome(db, d, now) == Done {
      SyncProgress(db, now);
      RotateLeavesProgress(db.privates, d, now);
    }
  }

  lemma UpsertRootProgress(db: Db, d: CaDraft, now: int)
    ensures Progress(db, AfterUpsertRoot(db, d, now))
  {
    ProgressReflexive(db);
    if RootOutcome(db, d, now) == Done {
      SyncProgress(db, now);
      RotateCasProgress(db.roots, d, now);
    }
  }

  lemma UpsertIntermediateProgress(db: Db, d: CaDraft, now: int)
    ensures Progress(db, AfterUpsertIntermediate(db, d, now))
  {
    ProgressReflexive(db);
    if IntermediateOutcome(db, d, now) == Done {
      SyncProgress(db, now);
      RotateCasProgress(db.intermediates, d, now);
    }
  }

  lemma PromoteProgress(t: CaTable, id: Id, now: int)
    requires CaKeys(t) && PromoteOutcome(t, id, now) == Done
    ensures CasProgress(t, PromoteCas(t, id, now))
  {
    var u := PromoteCas(t, id, now);
    forall x | x in t ensures CaProgress(t[x], u[x]) {
      assert u[x] == PromotedCa(t[x], t[id], now);
    }
  }

  lemma PromoteRootProgress(db: Db, id: Id, now: int)
    requires CaKeys(db.roots)
    ensures Progress(db, AfterPromoteRoot(db, id, now))
  {
    ProgressReflexive(db);
    if PromoteOutcome(db.roots, id, now) == Done {
      SyncProgress(db, now);
      PromoteProgress(db.roots, id, now);
    }
  }

  lemma PromoteIntermediateProgress(db: Db, id: Id, now: int)
    requires CaKeys(db.intermediates)
    ensures Progress(db, AfterPromoteIntermediate(db, id, now))
  {
    ProgressReflexive(db);
    if PromoteOutcome(db.intermediates, id, now) == Done {
      SyncProgress(db, now);
      PromoteProgress(db.intermediates, id, now);
    }
  }

  lemma RetireProgress(t: CaTable, id: Id)
    ensures CasProgress(t, RetireCa(t, id))
  {
  }

  lemma RevokeProgress(t: LeafTable, id: Id, now: int)
    ensures LeavesProgress(t, RevokeLeaf(t, id, now))
  {
  }

  lemma RetireKeepsProgress(db: Db, id: Id)
    ensures Progress(db, AfterRetireRoot(db, id))
    ensures Progress(db, AfterRetireIntermediate(db, id))
  {
    ProgressReflexive(db);
    RetireProgress(db.roots, id);
    RetireProgress(db.intermediates, id);
  }

  lemma RevokeKeepsProgress(db: Db, id: Id, now: int)
    ensures Progress(db, AfterRevokePublic(db, id, now))
    ensures Progress(db, AfterRevokePrivate(db, id, now))
  {
    ProgressReflexive(db);
    RevokeProgress(db.publics, id, now);
    RevokeProgress(db.privates, id, now);
  }

  lemma UpsertKeepsProgress(db: Db, e: Event)
    requires Schema(db)
    requires IsUpsert(e.op)
    ensures Progress(db, Apply(db, e))
  {
    match e.op
    case UpsertPublic(d) => UpsertPublicProgress(db, d, e.now);
    case UpsertPrivate(d) => UpsertPrivateProgress(db, PrivateColumns(d), e.now);
    case UpsertRoot(d) => UpsertRootProgress(db, d, e.now);
    case UpsertIntermediate(d) => UpsertIntermediateProgress(db, d, e.now);
  }

  lemma PromotionKeepsProgress(db: Db, e: Event)
    requires Schema(db) && IsPromotion(e.op)
    ensures Progress(db, Apply(db, e))
  {
    match e.op
    case PromoteRoot(id) =>
      assert Apply(db, e) == AfterPromoteRoot(db, id, e.now);
      PromoteRootProgress(db, id, e.now);
    case PromoteIntermediate(id) =>
      assert Apply(db, e) == AfterPromoteIntermediate(db, id, e.now);
      PromoteIntermediateProgress(db, id, e.now);
  }

  lemma UpdateKeepsProgress(db: Db, e: Event)
    requires IsUpdate(e.op)
    ensures Progress(db, Apply(db, e))
  {
    match e.op
    case RetireRoot(id) =>
      assert Apply(db, e) == AfterRetireRoot(db, id);
      RetireKeepsProgress(db, id);
    case RetireIntermediate(id) =>
      assert Apply(db, e) == AfterRetireIntermediate(db, id);
      RetireKeepsProgress(db, id);
    case RevokePublic(id) =>
      assert Apply(db, e) == AfterRevokePublic(db, id, e.now);
      RevokeKeepsProgress(db, id, e.now);
    case RevokePrivate(id) =>
      assert Apply(db, e) == AfterRevokePrivate(db, id, e.now);
      RevokeKeepsProgress(db, id, e.now);
  }

  /** No operation, whatever its drafts, deletes a row or takes one of its forbidden steps. */
  lemma ApplyProgress(db: Db, e: Event)
    requires Schema(db)
    ensures Progress(db, Apply(db, e))
  {
    if IsUpsert(e.op) {
      UpsertKeepsProgress(db, e);
    } else if IsPromotion(e.op) {
      PromotionKeepsProgress(db, e);
    } else if IsUpdate(e.op) {
      UpdateKeepsProgress(db, e);
    } else {
      SyncProgress(db, e.now);
    }
  }

  // ------------------------------------------------------------- whole runs

  lemma EmptyInv()
    ensures Inv(EMPTY)
  {
    var rank: map<Id, nat> := map[];
    assert Ranked(EMPTY.publics, rank);
  }

  lemma {:induction false} RunKeepsInv(db: Db, events: seq<Event>)
    requires Inv(db) && forall e | e in events :: CallerForm(e.op)
    ensures Inv(Run(db, events))
  {
    if events != [] {
      var n := |events| - 1;
      RunKeepsInv(db, events[..n]);
      ApplyKeepsInv(Run(db, events[..n]), events[n]);
    }
  }

  /** Every store reached from an empty one satisfies the lifecycle invariant. */
  lemma ReachableInv(events: seq<Event>)
    requires forall e | e in events :: CallerForm(e.op)
    ensures Inv(Run(EMPTY, events))
  {
    EmptyInv();
    RunKeepsInv(EMPTY, events);
  }

  lemma {:induction false} RunKeepsSchema(db: Db, events: seq<Event>)
    requires Schema(db)
    ensures Schema(Run(db, events))
  {
    if events != [] {
      var n := |events| - 1;
      RunKeepsSchema(db, events[..n]);
      ApplyKeepsSchema(Run(db, events[..n]), events[n]);
    }
  }

  /** Between any two points of a run: rows stay, a leaf that left active stays out of it,
      revoked is final, CA trust is never cleared and expired CAs stay expired. */
  lemma {:induction false} RunProgress(db: Db, events: seq<Event>)
    requires Schema(db)
    ensures Progress(db, Run(db, events))
  {
    if events == [] {
      ProgressReflexive(db);
    } else {
      var n := |events| - 1;
      RunProgress(db, events[..n]);
      RunKeepsSchema(db, events[..n]);
      ApplyProgress(Run(db, events[..n]), events[n]);
      ProgressTransitive(db, Run(db, events[..n]), Run(db, events));
    }
  }

  // ---------------------------------------------------------- leaf lineage

  /** The row reached from `id` by `n` supersedes links. */
  function Follow(t: LeafTable, id: Id, n: nat): Option<Id>
    decreases n
  {
    if id !in t then None
    else if n == 0 then Some(id)
    else Follow(t, t[id].supersedes, n - 1)
  }

  lemma {:induction false} FollowRank(t: LeafTable, rank: map<Id, nat>, id: Id, n: nat)
    requires LeafOk(t) && Ranked(t, rank) && Follow(t, id, n).Some?
    ensures id in rank && Follow(t, id, n).value in rank && rank[Follow(t, id, n).value] + n <= rank[id]
    decreases n
  {
    if n > 0 {
      FollowRank(t, rank, t[id].supersedes, n - 1);
      assert t[id].supersedes in t ==> t[t[id].supersedes].id != "";
    }
  }

  /** Supersedes links never lead back to where they started. */
  lemma LineageAcyclic(t: LeafTable, id: Id, n: nat)
    requires LeafInv(t) && n > 0
    ensures Follow(t, id, n) != Some(id)
  {
    if Follow(t, id, n) == Some(id) {
      var rank: map<Id, nat> :| Ranked(t, rank);
      FollowRank(t, rank, id, n);
    }
  }

  /** A lineage stays under one common name. */
  lemma {:induction false} LineageOneName(t: LeafTable, id: Id, n: nat)
    requires LeafInv(t) && Follow(t, id, n).Some?
    ensures Follow(t, id, n).value in t && t[Follow(t, id, n).value].commonName == t[id].commonName
    decreases n
  {
    if n > 0 {
      assert LeafRowOk(t, id);
      assert t[id].supersedes in t ==> t[t[id].supersedes].id != "";
      LineageOneName(t, t[id].supersedes, n - 1);
    }
  }

  lemma {:induction false} FollowLast(t: LeafTable, id: Id, n: nat) returns (before: Id)
    requires n > 0 && Follow(t, id, n).Some?
    ensures Follow(t, id, n - 1) == Some(before) && before in t && Follow(t, id, n) == Some(t[before].supersedes)
    decreases n
  {
    if n == 1 {
      before := id;
    } else {
      before := FollowLast(t, t[id].supersedes, n - 1);
    }
  }

  /** Lineages are chains: of two rows that descend from the same row, one descends from the other. */
  lemma {:induction false} LineageLinear(t: LeafTable, a: Id, n: nat, c: Id, m: nat)
    requires LeafInv(t) && n <= m
    requires Follow(t, a, n).Some? && Follow(t, a, n) == Follow(t, c, m)
    ensures Follow(t, c, m - n) == Some(a)
    decreases n
  {
    if n > 0 {
      var x := FollowLast(t, a, n);
      var y := FollowLast(t, c, m);
      assert t[x].supersedes in t && t[x].supersedes != "" by {
        assert Follow(t, a, n) == Some(t[x].supersedes);
        InTable(t, a, n);
      }
      assert Siblings(t, x, y);
      LineageLinear(t, a, n - 1, c, m - 1);
    }
  }

  lemma {:induction false} InTable(t: LeafTable, id: Id, n: nat)
    requires LeafOk(t) && Follow(t, id, n).Some?
    ensures Follow(t, id, n).value in t && Follow(t, id, n).value != ""
    decreases n
  {
    if n > 0 {
      InTable(t, t[id].supersedes, n - 1);
    } else {
      assert t[id].id != "";
    }
  }

  /** Nothing descends from an active row: it is the head of its chain. */
  lemma ActiveIsHead(t: LeafTable, id: Id, n: nat)
    requires LeafInv(t) && n > 0 && Follow(t, id, n).Some?
    ensures Follow(t, id, n).value in t && t[Follow(t, id, n).value].status != Active
  {
    var before := FollowLast(t, id, n);
    InTable(t, id, n);
    assert LeafRowOk(t, before);
  }

  // ------------------------------------------------------------ CA lineage

  function Members(t: CaTable, name: string): set<Id> {
    set id | id in t && t[id].name == name
  }

  function UpTo(t: CaTable, name: string, g: nat): set<Id> {
    set id | id in t && t[id].name == name && t[id].generation <= g
  }

  lemma {:induction false} GenerationsDownTo(t: CaTable, name: string, g: nat, k: nat)
    requires CaInv(t) && HasGeneration(t, name, g) && 1 <= k <= g
    ensures HasGeneration(t, name, k)
    decreases g
  {
    if k < g {
      var id :| id in t && t[id].name == name && t[id].generation == g;
      assert NumberOk(t, id);
      GenerationsDownTo(t, name, g - 1, k);
    }
  }

  lemma {:induction false} CountUpTo(t: CaTable, name: string, g: nat)
    requires CaInv(t) && (g == 0 || HasGeneration(t, name, g))
    ensures |UpTo(t, name, g)| == g
  {
    if g == 0 {
      forall id | id in t ensures id !in UpTo(t, name, 0) {
        assert NumberOk(t, id);
      }
      assert UpTo(t, name, 0) == {};
    } else {
      if g > 1 {
        GenerationsDownTo(t, name, g, g - 1);
      }
      CountUpTo(t, name, g - 1);
      var id :| id in t && t[id].name == name && t[id].generation == g;
      forall x | x in t && t[x].name == name && t[x].generation == g ensures x == id {
        assert SameNumber(t, x, id);
      }
      assert UpTo(t, name, g) == UpTo(t, name, g - 1) + {id};
    }
  }

  /** The generations of a name are exactly 1 to the number of its rows. */
  lemma GenerationsExact(t: CaTable, name: string)
    requires CaInv(t)
    ensures MaxGeneration(t, name) == |Members(t, name)|
    ensures forall g: nat :: HasGeneration(t, name, g) <==> 1 <= g <= |Members(t, name)|
  {
    var m := MaxGeneration(t, name);
    assert UpTo(t, name, m) == Members(t, name);
    assert m != 0 ==> HasGeneration(t, name, m);
    CountUpTo(t, name, m);
    forall g: nat ensures HasGeneration(t, name, g) <==> 1 <= g <= m {
      if HasGeneration(t, name, g) {
        var id :| id in t && t[id].name == name && t[id].generation == g;
        assert NumberOk(t, id);
      } else if 1 <= g <= m {
        GenerationsDownTo(t, name, m, g);
      }
    }
  }

  /** CA lineages, unlike leaf lineages, can branch: after a retired row is promoted again,
      the next CA of its name supersedes it a second time, exactly unless the promoted row
      has expired by then. */
  lemma PromotionBranchesIff(t: CaTable, a: Id, b: Id, d: CaDraft, now: int, later: int)
    requires CaInv(t) && PromoteOutcome(t, a, now) == Done && !IsBlank(a)
    requires b in t && t[b].supersedes == a
    requires d.name == t[a].name && d.id !in t && IsBlank(d.supersedes)
    ensures
      var u := RotateCas(PromoteCas(t, a, now), d, later);
      && b != d.id && b in u && u[b].supersedes == a
      && (u[d.id].supersedes == a <==> !Past(t[a].notAfter, later))
  {
    var p := PromoteCas(t, a, now);
    PromotedIsLive(t, a, now, later);
    LinkToOnlyLive(p, d, later, a, !Past(t[a].notAfter, later));
    RotationLinks(p, d, later, b);
  }

  lemma LinkToOnlyLive(p: CaTable, d: CaDraft, now: int, a: Id, live: bool)
    requires forall id :: LiveCa(p, id, d.name, now) <==> id == a && live
    requires IsBlank(d.supersedes) && !IsBlank(a)
    ensures CaLink(p, d, now) == if live then a else ""
  {
    assert LiveCa(p, a, d.name, now) <==> live;
  }

  lemma RotationLinks(p: CaTable, d: CaDraft, now: int, b: Id)
    requires b in p && d.id !in p
    ensures var u := RotateCas(p, d, now);
      b in u && u[b].supersedes == p[b].supersedes && u[d.id].supersedes == CaLink(p, d, now)
  {
  }

  /** After a promotion the promoted row is the only one that can be live under its name. */
  lemma PromotedIsLive(t: CaTable, a: Id, now: int, later: int)
    requires CaInv(t) && PromoteOutcome(t, a, now) == Done
    ensures
      var p := PromoteCas(t, a, now);
      forall id :: LiveCa(p, id, t[a].name, later) <==> id == a && !Past(t[a].notAfter, later)
  {
    var p := PromoteCas(t, a, now);
    assert CaInv(p) by { PromoteCasInv(t, a, now); }
    assert ActiveCa(p, a, t[a].name);
    forall id | ActiveCa(p, id, t[a].name) ensures id == a {
      assert ActiveCa(p, id, p[a].name) && ActiveCa(p, a, p[a].name);
    }
  }

  ghost predicate HasActive(t: CaTable, name: string) {
    exists id :: ActiveCa(t, id, name)
  }

  /** What a promotion leaves once a later sync has run: the name has an active CA exactly
      when the promoted one has not ended by then. Promoting an ended CA retires the one that
      worked, and the next sync leaves the name with none. */
  lemma PromotionServesIff(t: CaTable, id: Id, now: int, later: int)
    requires CaInv(t) && PromoteOutcome(t, id, now) == Done
    ensures HasActive(ExpireCas(PromoteCas(t, id, now), later), t[id].name) <==> !Past(t[id].notAfter, later)
  {
    var p := PromoteCas(t, id, now);
    var u := ExpireCas(p, later);
    PromotedIsLive(t, id, now, later);
    forall x ensures ActiveCa(u, x, t[id].name) <==> LiveCa(p, x, t[id].name, later) {
    }
    assert LiveCa(p, id, t[id].name, later) <==> !Past(t[id].notAfter, later);
    assert ActiveCa(u, id, t[id].name) <==> !Past(t[id].notAfter, later);
  }

  /** The same of the whole store, for roots and intermediates, when the store is next opened. */
  lemma PromotionThenOpen(db: Db, root: Id, intermediate: Id, now: int, later: int)
    requires Inv(db)
    ensures PromoteOutcome(db.roots, root, now) == Done ==>
      (HasActive(SyncDb(AfterPromoteRoot(db, root, now), later).roots, db.roots[root].name) <==>
       !Past(db.roots[root].notAfter, later))
    ensures PromoteOutcome(db.intermediates, intermediate, now) == Done ==>
      (HasActive(SyncDb(AfterPromoteIntermediate(db, intermediate, now), later).intermediates,
                 db.intermediates[intermediate].name) <==>
       !Past(db.intermediates[intermediate].notAfter, later))
  {
    if PromoteOutcome(db.roots, root, now) == Done {
      PromotionServesIff(db.roots, root, now, later);
    }
    if PromoteOutcome(db.intermediates, intermediate, now) == Done {
      PromotionServesIff(db.intermediates, intermediate, now, later);
    }
  }
}
