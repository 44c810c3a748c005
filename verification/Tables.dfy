/** The certificate store's rows, the SQL statements that change them, and the
    outcome of every Store operation written as one pass over the tables. */
module Tables {
  import opened Text

  type Id = string

  datatype Option<+T> = None | Some(value: T)

  datatype Status = Active | Superseded | Revoked | Expired | Retired

  /** A row of `public_certs` or `private_certs`; `supersedes` is "" for SQL NULL. */
  datatype Leaf = Leaf(id: Id, commonName: string, sansCsv: string, sansHash: string, issuerCa: Id, issuer: string,
                       status: Status, supersedes: Id, revokedAt: Option<int>, notAfter: Option<int>, pem: string)

  /** A row of `private_root_cas` or `private_intermediate_cas`. */
  datatype Ca = Ca(id: Id, rootCa: Id, name: string, commonName: string, generation: nat, status: Status,
                   trusted: bool, issuing: bool, supersedes: Id, notAfter: Option<int>, pem: string)

  /** What a caller hands to a leaf upsert; the status may be left empty. */
  datatype LeafDraft = LeafDraft(id: Id, commonName: string, sansCsv: string, sansHash: string, issuerCa: Id,
                                 issuer: string, status: Option<Status>, supersedes: Id,
                                 revokedAt: Option<int>, notAfter: Option<int>, pem: string)

  /** What a caller hands to a CA upsert. */
  datatype CaDraft = CaDraft(id: Id, rootCa: Id, name: string, commonName: string, status: Option<Status>,
                             supersedes: Id, notAfter: Option<int>, pem: string)

  datatype CertKind = Public | Private

  datatype CsrStatus = Pending | Issued | Rejected

  /** A row of `csr_requests`. */
  datatype CsrRequest = CsrRequest(id: Id, kind: CertKind, commonName: string, sansCsv: string, csrPem: string,
                                   pickupHash: string, status: CsrStatus, issuedCert: Id, note: string)

  /** What a submission hands to the store; the kind is still text. */
  datatype CsrDraft = CsrDraft(id: Id, kind: string, commonName: string, sansCsv: string, csrPem: string,
                               pickupHash: string, status: CsrStatus, issuedCert: Id, note: string)

  type LeafTable = map<Id, Leaf>
  type CaTable = map<Id, Ca>
  type CsrTable = map<Id, CsrRequest>

  datatype Db = Db(publics: LeafTable, privates: LeafTable, roots: CaTable, intermediates: CaTable, requests: CsrTable)

  const EMPTY := Db(map[], map[], map[], map[], map[])

  datatype StoreError =
    MissingId | MissingName | MissingSans | DuplicateId | MissingReference | UniqueIndex | NotFound | NotPromotable | NotPending |
    NoIssuerNamed | NotIssuing | NotNull | UnsupportedKind | MissingCsr | MissingPickupHash

  datatype Outcome = Done | Failed(error: StoreError)

  predicate Past(notAfter: Option<int>, now: int) {
    notAfter.Some? && notAfter.value < now
  }

  // ---------------------------------------------------------------- statements

  function ExpiredLeaf(row: Leaf, now: int): Leaf {
    if row.status == Active && Past(row.notAfter, now) then row.(status := Expired) else row
  }

  function ExpiredCa(row: Ca, now: int): Ca {
    if row.status == Active && Past(row.notAfter, now) then row.(status := Expired, issuing := false) else row
  }

  function RetiredCa(row: Ca, name: string, keep: Option<Id>): Ca {
    if row.name == name && row.status == Active && keep != Some(row.id)
    then row.(status := Retired, issuing := false) else row
  }

  function ActivatedCa(row: Ca, target: Id): Ca {
    if row.id == target then row.(status := Active, trusted := true, issuing := true) else row
  }

  /** `UPDATE .. SET status = 'expired' WHERE status = 'active' AND not_after < now`. */
  function ExpireLeaves(t: LeafTable, now: int): LeafTable {
    map id | id in t :: ExpiredLeaf(t[id], now)
  }

  function ExpireCas(t: CaTable, now: int): CaTable {
    map id | id in t :: ExpiredCa(t[id], now)
  }

  /** `UPDATE .. SET status = 'superseded' WHERE common_name = ? AND status = 'active'`. */
  function SupersedeActive(t: LeafTable, name: string): LeafTable {
    map id | id in t ::
      if t[id].commonName == name && t[id].status == Active then t[id].(status := Superseded) else t[id]
  }

  /** `UPDATE .. SET status = 'retired', is_issuing = 0 WHERE name = ? AND status = 'active' [AND id <> ?]`. */
  function RetireActive(t: CaTable, name: string, keep: Option<Id>): CaTable {
    map id | id in t :: RetiredCa(t[id], name, keep)
  }

  /** `UPDATE .. SET status = 'active', is_trusted = 1, is_issuing = 1 WHERE id = ?`. */
  function ActivateCa(t: CaTable, target: Id): CaTable {
    map id | id in t :: ActivatedCa(t[id], target)
  }

  /** `UPDATE .. SET status = 'revoked', revoked_at = now WHERE id = ? AND status <> 'revoked'`. */
  function RevokeLeaf(t: LeafTable, target: Id, now: int): LeafTable {
    map id | id in t ::
      if id == target && t[id].status != Revoked then t[id].(status := Revoked, revokedAt := Some(now)) else t[id]
  }

  /** `UPDATE .. SET status = 'retired', is_issuing = 0 WHERE id = ? AND status NOT IN ('revoked', 'expired')`. */
  function RetireCa(t: CaTable, target: Id): CaTable {
    map id | id in t ::
      if id == target && t[id].status != Revoked && t[id].status != Expired
      then t[id].(status := Retired, issuing := false) else t[id]
  }

  /** `private_certs.sans_csv` goes through `nullIfEmpty`; the public column does not. */
  function PrivateColumns(d: LeafDraft): LeafDraft {
    d.(sansCsv := NullIfBlank(d.sansCsv))
  }

  function NewLeaf(d: LeafDraft, link: Id): Leaf {
    Leaf(d.id, d.commonName, d.sansCsv, d.sansHash, d.issuerCa, NullIfBlank(d.issuer),
         if d.status.Some? then d.status.value else Active, link, d.revokedAt, d.notAfter, d.pem)
  }

  /** Trust and issuing are forced on; the generation is computed, never taken from the caller. */
  function NewCa(d: CaDraft, generation: nat, link: Id): Ca {
    Ca(d.id, d.rootCa, d.name, d.commonName, generation,
       if d.status.Some? then d.status.value else Active, true, true, link, d.notAfter, d.pem)
  }

  // -------------------------------------------------------- schema constraints

  predicate ActiveLeaf(t: LeafTable, id: Id, name: string) {
    id in t && t[id].status == Active && t[id].commonName == name
  }

  predicate ActiveCa(t: CaTable, id: Id, name: string) {
    id in t && t[id].status == Active && t[id].name == name
  }

  /** The partial unique index on `common_name` where the status is active. */
  predicate OneActiveLeaf(t: LeafTable) {
    forall a, b {:trigger ActiveLeaf(t, a, t[b].commonName)} | a in t && b in t ::
      ActiveLeaf(t, a, t[b].commonName) && ActiveLeaf(t, b, t[b].commonName) ==> a == b
  }

  /** The partial unique index on `name` where the status is active. */
  predicate OneActiveCa(t: CaTable) {
    forall a, b {:trigger ActiveCa(t, a, t[b].name)} | a in t && b in t ::
      ActiveCa(t, a, t[b].name) && ActiveCa(t, b, t[b].name) ==> a == b
  }

  /** Primary key and self reference. */
  predicate LeafKeys(t: LeafTable) {
    forall id {:trigger t[id]} | id in t :: t[id].id == id && id != "" && (t[id].supersedes != "" ==> t[id].supersedes in t)
  }

  predicate CaKeys(t: CaTable) {
    forall id {:trigger t[id]} | id in t :: t[id].id == id && id != "" && (t[id].supersedes != "" ==> t[id].supersedes in t)
  }

  predicate LeafOk(t: LeafTable) {
    LeafKeys(t) && OneActiveLeaf(t)
  }

  predicate CaOk(t: CaTable) {
    CaKeys(t) && OneActiveCa(t)
  }

  /** `FOREIGN KEY(intermediate_ca_id) REFERENCES private_intermediate_cas(id)`. */
  predicate IssuersIn(t: LeafTable, cas: set<Id>) {
    forall id {:trigger t[id]} | id in t :: t[id].issuerCa in cas
  }

  /** `FOREIGN KEY(root_ca_id) REFERENCES private_root_cas(id)`. */
  predicate ParentsIn(t: CaTable, cas: set<Id>) {
    forall id {:trigger t[id]} | id in t :: t[id].rootCa in cas
  }

  predicate RequestKeys(t: CsrTable) {
    forall id {:trigger t[id]} | id in t :: t[id].id == id
  }

  /** What the database enforces at the end of every statement. */
  predicate Schema(db: Db) {
    && LeafOk(db.publics) && LeafOk(db.privates) && CaOk(db.roots) && CaOk(db.intermediates)
    && IssuersIn(db.privates, db.intermediates.Keys) && ParentsIn(db.intermediates, db.roots.Keys)
    && RequestKeys(db.requests)
  }

  // ------------------------------------------- each operation as one pass

  function SyncDb(db: Db, now: int): Db {
    db.(publics := ExpireLeaves(db.publics, now), privates := ExpireLeaves(db.privates, now),
        roots := ExpireCas(db.roots, now), intermediates := ExpireCas(db.intermediates, now))
  }

  /** The row is still active under this name once the sync at `now` is done. */
  ghost predicate LiveLeaf(t: LeafTable, id: Id, name: string, now: int) {
    ActiveLeaf(t, id, name) && !Past(t[id].notAfter, now)
  }

  ghost predicate LiveCa(t: CaTable, id: Id, name: string, now: int) {
    ActiveCa(t, id, name) && !Past(t[id].notAfter, now)
  }

  /** The supersedes column a leaf upsert writes: the live row if there is one, else what the caller says. */
  ghost function LeafLink(t: LeafTable, d: LeafDraft, now: int): Id {
    if exists id :: LiveLeaf(t, id, d.commonName, now)
    then var id :| LiveLeaf(t, id, d.commonName, now); NullIfBlank(id)
    else NullIfBlank(d.supersedes)
  }

  ghost function CaLink(t: CaTable, d: CaDraft, now: int): Id {
    if exists id :: LiveCa(t, id, d.name, now)
    then var id :| LiveCa(t, id, d.name, now); NullIfBlank(id)
    else NullIfBlank(d.supersedes)
  }

  function RotatedLeaf(row: Leaf, name: string, now: int): Leaf {
    if row.status != Active then row
    else if Past(row.notAfter, now) then row.(status := Expired)
    else if row.commonName == name then row.(status := Superseded)
    else row
  }

  function RotatedCa(row: Ca, name: string, now: int): Ca {
    if row.status != Active then row
    else if Past(row.notAfter, now) then row.(status := Expired, issuing := false)
    else if row.name == name then row.(status := Retired, issuing := false)
    else row
  }

  /** The table once the sync and the supersede statement of an upsert under `name` are done. */
  function LeavesRotated(t: LeafTable, name: string, now: int): LeafTable {
    map id | id in t :: RotatedLeaf(t[id], name, now)
  }

  function CasRotated(t: CaTable, name: string, now: int): CaTable {
    map id | id in t :: RotatedCa(t[id], name, now)
  }

  ghost function RotateLeaves(t: LeafTable, d: LeafDraft, now: int): LeafTable {
    LeavesRotated(t, d.commonName, now)[d.id := NewLeaf(d, LeafLink(t, d, now))]
  }

  ghost function RotateCas(t: CaTable, d: CaDraft, now: int): CaTable {
    CasRotated(t, d.name, now)[d.id := NewCa(d, MaxGeneration(t, d.name) + 1, CaLink(t, d, now))]
  }

  /** `m` is what `SELECT COALESCE(MAX(generation), 0) .. WHERE name = ?` returns. */
  ghost predicate IsMaxGeneration(t: CaTable, name: string, m: nat) {
    && (forall id | id in t && t[id].name == name :: t[id].generation <= m)
    && (m == 0 || exists id :: id in t && t[id].name == name && t[id].generation == m)
  }

  lemma HasMaxGeneration(t: CaTable, name: string, ids: set<Id>) returns (m: nat)
    requires ids <= t.Keys
    ensures forall id | id in ids && t[id].name == name :: t[id].generation <= m
    ensures m == 0 || exists id :: id in t && t[id].name == name && t[id].generation == m
  {
    m := 0;
    if ids != {} {
      var id :| id in ids;
      m := HasMaxGeneration(t, name, ids - {id});
      if t[id].name == name && m < t[id].generation {
        m := t[id].generation;
      }
    }
  }

  lemma MaxGenerationExists(t: CaTable, name: string)
    ensures exists m: nat :: IsMaxGeneration(t, name, m)
  {
    var m := HasMaxGeneration(t, name, t.Keys);
    assert IsMaxGeneration(t, name, m);
  }

  ghost function MaxGeneration(t: CaTable, name: string): (m: nat)
    ensures IsMaxGeneration(t, name, m)
  {
    MaxGenerationExists(t, name);
    var m: nat :| IsMaxGeneration(t, name, m); m
  }

  lemma MaxGenerationUnique(t: CaTable, name: string, m: nat)
    requires IsMaxGeneration(t, name, m)
    ensures m == MaxGeneration(t, name)
  {
  }

  function PromotedCa(row: Ca, target: Ca, now: int): Ca {
    if row.id == target.id then row.(status := Active, trusted := true, issuing := true)
    else if row.status != Active then row
    else if Past(row.notAfter, now) then row.(status := Expired, issuing := false)
    else if row.name == target.name then row.(status := Retired, issuing := false)
    else row
  }

  function PromoteCas(t: CaTable, target: Id, now: int): CaTable
    requires target in t
  {
    map id | id in t :: PromotedCa(t[id], t[target], now)
  }

  predicate MissingLink(link: Id, known: set<Id>, self: Id) {
    link != "" && link !in known && link != self
  }

  /** Primary key first, then the unique index, then the foreign keys. */
  function InsertLeafOutcome(t: LeafTable, row: Leaf, referenced: bool): Outcome {
    if row.id in t then Failed(DuplicateId)
    else if !OneActiveLeaf(t[row.id := row]) then Failed(UniqueIndex)
    else if MissingLink(row.supersedes, t.Keys, row.id) || !referenced then Failed(MissingReference)
    else Done
  }

  function InsertCaOutcome(t: CaTable, row: Ca, referenced: bool): Outcome {
    if row.id in t then Failed(DuplicateId)
    else if !OneActiveCa(t[row.id := row]) then Failed(UniqueIndex)
    else if MissingLink(row.supersedes, t.Keys, row.id) || !referenced then Failed(MissingReference)
    else Done
  }

  ghost function PublicOutcome(db: Db, d: LeafDraft, now: int): Outcome {
    if IsBlank(d.commonName) then Failed(MissingName)
    else if d.sansCsv == "" || d.sansHash == "" then Failed(MissingSans)
    else if d.id == "" then Failed(MissingId)
    else if d.id in db.publics then Failed(DuplicateId)
    else if MissingLink(LeafLink(db.publics, d, now), db.publics.Keys, d.id) then Failed(MissingReference)
    else Done
  }

  ghost function PrivateOutcome(db: Db, d: LeafDraft, now: int): Outcome {
    if d.id == "" then Failed(MissingId)
    else if IsBlank(d.commonName) then Failed(MissingName)
    else if d.id in db.privates then Failed(DuplicateId)
    else if MissingLink(LeafLink(db.privates, d, now), db.privates.Keys, d.id) || d.issuerCa !in db.intermediates
    then Failed(MissingReference)
    else Done
  }

  ghost function RootOutcome(db: Db, d: CaDraft, now: int): Outcome {
    if d.id == "" then Failed(MissingId)
    else if IsBlank(d.name) then Failed(MissingName)
    else if d.id in db.roots then Failed(DuplicateId)
    else if MissingLink(CaLink(db.roots, d, now), db.roots.Keys, d.id) then Failed(MissingReference)
    else Done
  }

  ghost function IntermediateOutcome(db: Db, d: CaDraft, now: int): Outcome {
    if d.id == "" then Failed(MissingId)
    else if IsBlank(d.name) then Failed(MissingName)
    else if d.id in db.intermediates then Failed(DuplicateId)
    else if MissingLink(CaLink(db.intermediates, d, now), db.intermediates.Keys, d.id) || d.rootCa !in db.roots
    then Failed(MissingReference)
    else Done
  }

  function PromoteOutcome(t: CaTable, target: Id, now: int): Outcome {
    if target !in t then Failed(NotFound)
    else if t[target].status in {Revoked, Expired} || (t[target].status == Active && Past(t[target].notAfter, now))
    then Failed(NotPromotable)
    else Done
  }

  ghost function AfterUpsertPublic(db: Db, d: LeafDraft, now: int): Db {
    if PublicOutcome(db, d, now).Done? then SyncDb(db, now).(publics := RotateLeaves(db.publics, d, now)) else db
  }

  ghost function AfterUpsertPrivate(db: Db, d: LeafDraft, now: int): Db {
    if PrivateOutcome(db, d, now).Done? then SyncDb(db, now).(privates := RotateLeaves(db.privates, d, now)) else db
  }

  ghost function AfterUpsertRoot(db: Db, d: CaDraft, now: int): Db {
    if RootOutcome(db, d, now).Done? then SyncDb(db, now).(roots := RotateCas(db.roots, d, now)) else db
  }

  ghost function AfterUpsertIntermediate(db: Db, d: CaDraft, now: int): Db {
    if IntermediateOutcome(db, d, now).Done?
    then SyncDb(db, now).(intermediates := RotateCas(db.intermediates, d, now)) else db
  }

  function AfterPromoteRoot(db: Db, target: Id, now: int): Db {
    if PromoteOutcome(db.roots, target, now).Done?
    then SyncDb(db, now).(roots := PromoteCas(db.roots, target, now)) else db
  }

  function AfterPromoteIntermediate(db: Db, target: Id, now: int): Db {
    if PromoteOutcome(db.intermediates, target, now).Done?
    then SyncDb(db, now).(intermediates := PromoteCas(db.intermediates, target, now)) else db
  }

  /** Retiring and revoking are single statements outside any transaction: they do not sync first. */
  function AfterRetireRoot(db: Db, target: Id): Db {
    db.(roots := RetireCa(db.roots, target))
  }

  function AfterRetireIntermediate(db: Db, target: Id): Db {
    db.(intermediates := RetireCa(db.intermediates, target))
  }

  function AfterRevokePublic(db: Db, target: Id, now: int): Db {
    db.(publics := RevokeLeaf(db.publics, target, now))
  }

  function AfterRevokePrivate(db: Db, target: Id, now: int): Db {
    db.(privates := RevokeLeaf(db.privates, target, now))
  }

  // ------------------------------------------------------------- CSR requests

  /** `UPDATE csr_requests .. WHERE id = ? AND status = 'pending'` changes a row only here. */
  predicate IsPending(t: CsrTable, id: Id) {
    id in t && t[id].status == Pending
  }

  function KindOf(kind: string): Option<CertKind> {
    match NormalName(kind)
    case "public" => Some(Public)
    case "private" => Some(Private)
    case _ => None
  }

  function CreateOutcome(t: CsrTable, d: CsrDraft): Outcome {
    if IsBlank(d.id) then Failed(MissingId)
    else if KindOf(d.kind) == None then Failed(UnsupportedKind)
    else if IsBlank(d.commonName) then Failed(MissingName)
    else if d.csrPem == "" then Failed(MissingCsr)
    else if IsBlank(d.pickupHash) then Failed(MissingPickupHash)
    else if d.id in t then Failed(DuplicateId)
    else Done
  }

  function NewRequest(d: CsrDraft, kind: CertKind): CsrRequest {
    CsrRequest(d.id, kind, d.commonName, NullIfBlank(d.sansCsv), d.csrPem, d.pickupHash, d.status,
               NullIfBlank(d.issuedCert), NullIfBlank(d.note))
  }

  function CreateRequest(t: CsrTable, d: CsrDraft): CsrTable {
    if CreateOutcome(t, d) == Done then t[d.id := NewRequest(d, KindOf(d.kind).value)] else t
  }

  function MarkIssued(t: CsrTable, id: Id, cert: Id, note: string): CsrTable {
    if IsPending(t, id) then t[id := t[id].(status := Issued, issuedCert := cert, note := NullIfBlank(note))] else t
  }

  function MarkRejected(t: CsrTable, id: Id, note: string): CsrTable {
    if IsPending(t, id) then t[id := t[id].(status := Rejected, note := NullIfBlank(note))] else t
  }
}
