/** The doctor's structural checks: loops over listed rows with count maps and id
    sets, proved to report exactly the rows that break an invariant. */
module Doctor {
  import opened Text
  import opened Tables

  datatype Severity = Warn | Error

  datatype CaKind = Root | Intermediate

  datatype Finding =
    | ActiveCount(kind: CertKind, name: string, count: nat)
    | LineageMissing(kind: CertKind, id: Id, missing: Id)
    | CaActiveCount(ca: CaKind, name: string, count: nat)
    | ExpiredIssuing(ca: CaKind, id: Id)
    | NonActiveIssuing(ca: CaKind, id: Id, status: Status)
    | RootMissing(id: Id, root: Id)
    | IssuerMissing(id: Id, issuer: Id)
    | InactiveIssuer(id: Id, issuer: Id, status: Status)
    | IssuerNameMismatch(id: Id, issuer: Id)

  function SeverityOf(f: Finding): Severity {
    if f.NonActiveIssuing? || f.InactiveIssuer? || f.IssuerNameMismatch? then Warn else Error
  }

  /** `DoctorStatus`: error beats warn beats ok. */
  datatype Health = Healthy | Warned | Broken

  method DoctorStatus(findings: seq<Finding>) returns (status: Health)
    ensures status == Broken <==> exists f :: f in findings && SeverityOf(f) == Error
    ensures status == Healthy <==> findings == []
  {
    status := Healthy;
    for i := 0 to |findings|
      invariant forall f | f in findings[..i] :: SeverityOf(f) == Warn
      invariant status == if i == 0 then Healthy else Warned
    {
      if SeverityOf(findings[i]) == Error {
        return Broken;
      }
      status := Warned;
    }
  }

  // ------------------------------------------------------------ active counts

  function CountActive(rows: seq<Leaf>, name: string): nat {
    if rows == [] then 0
    else
      var last := rows[|rows| - 1];
      CountActive(rows[..|rows| - 1], name) + (if last.status == Active && last.commonName == name then 1 else 0)
  }

  function CountActiveCas(rows: seq<Ca>, name: string): nat {
    if rows == [] then 0
    else
      var last := rows[|rows| - 1];
      CountActiveCas(rows[..|rows| - 1], name) + (if last.status == Active && last.name == name then 1 else 0)
  }

  method ActiveCountFindings(kind: CertKind, rows: seq<Leaf>) returns (findings: seq<Finding>)
    ensures forall f :: f in findings <==>
      f.ActiveCount? && f.kind == kind && f.count > 1 && f.count == CountActive(rows, f.name)
  {
    var counts: map<string, nat> := map[];
    for i := 0 to |rows|
      invariant forall name :: CountActive(rows[..i], name) == if name in counts then counts[name] else 0
    {
      var row := rows[i];
      assert rows[..i + 1][..i] == rows[..i];
      if row.status == Active {
        counts := counts[row.commonName := 1 + if row.commonName in counts then counts[row.commonName] else 0];
      }
    }
    assert rows[..|rows|] == rows;
    findings := [];
    var rest := counts.Keys;
    while rest != {}
      invariant rest <= counts.Keys
      invariant forall f :: f in findings <==>
        f.ActiveCount? && f.kind == kind && f.name in counts && f.name !in rest && f.count > 1 && f.count == counts[f.name]
      decreases rest
    {
      var name :| name in rest;
      rest := rest - {name};
      if counts[name] > 1 {
        findings := findings + [ActiveCount(kind, name, counts[name])];
      }
    }
  }

  method CaActiveCountFindings(ca: CaKind, rows: seq<Ca>) returns (findings: seq<Finding>)
    ensures forall f :: f in findings <==>
      f.CaActiveCount? && f.ca == ca && f.count > 1 && f.count == CountActiveCas(rows, f.name)
  {
    var counts: map<string, nat> := map[];
    for i := 0 to |rows|
      invariant forall name :: CountActiveCas(rows[..i], name) == if name in counts then counts[name] else 0
    {
      var row := rows[i];
      assert rows[..i + 1][..i] == rows[..i];
      if row.status == Active {
        counts := counts[row.name := 1 + if row.name in counts then counts[row.name] else 0];
      }
    }
    assert rows[..|rows|] == rows;
    findings := [];
    var rest := counts.Keys;
    while rest != {}
      invariant rest <= counts.Keys
      invariant forall f :: f in findings <==>
        f.CaActiveCount? && f.ca == ca && f.name in counts && f.name !in rest && f.count > 1 && f.count == counts[f.name]
      decreases rest
    {
      var name :| name in rest;
      rest := rest - {name};
      if counts[name] > 1 {
        findings := findings + [CaActiveCount(ca, name, counts[name])];
      }
    }
  }

  // ------------------------------------------------------------------ lineage

  ghost predicate LineageBroken(rows: seq<Leaf>, kind: CertKind, f: Finding) {
    f.LineageMissing? && f.kind == kind
    && exists row :: row in rows && row.id == f.id && row.supersedes == f.missing != ""
                     && forall other | other in rows :: other.id != f.missing
  }

  method LineageFindings(kind: CertKind, rows: seq<Leaf>) returns (findings: seq<Finding>)
    ensures forall f :: f in findings <==> LineageBroken(rows, kind, f)
  {
    var ids: set<Id> := {};
    for i := 0 to |rows|
      invariant forall id :: id in ids <==> exists row :: row in rows[..i] && row.id == id
    {
      ids := ids + {rows[i].id};
    }
    assert rows[..|rows|] == rows;
    findings := [];
    for i := 0 to |rows|
      invariant forall f :: f in findings <==>
        f.LineageMissing? && f.kind == kind
        && exists row :: row in rows[..i] && row.id == f.id && row.supersedes == f.missing != "" && f.missing !in ids
    {
      var row := rows[i];
      if row.supersedes != "" && row.supersedes !in ids {
        findings := findings + [LineageMissing(kind, row.id, row.supersedes)];
      }
    }
  }

  // ----------------------------------------------------------------- CA rows

  predicate CaRowReports(row: Ca, ca: CaKind, now: int, f: Finding) {
    || (f == ExpiredIssuing(ca, row.id) && row.issuing && Past(row.notAfter, now))
    || (f == NonActiveIssuing(ca, row.id, row.status) && row.status != Active && row.issuing)
  }

  ghost predicate CaRowReported(rows: seq<Ca>, ca: CaKind, now: int, f: Finding) {
    exists row :: row in rows && CaRowReports(row, ca, now, f)
  }

  lemma CaRowStep(rows: seq<Ca>, i: nat, ca: CaKind, now: int)
    requires i < |rows|
    ensures forall f :: CaRowReported(rows[..i + 1], ca, now, f) <==>
                        CaRowReported(rows[..i], ca, now, f) || CaRowReports(rows[i], ca, now, f)
  {
    assert rows[..i + 1] == rows[..i] + [rows[i]];
    assert rows[i] in rows[..i + 1];
    forall f | CaRowReported(rows[..i], ca, now, f) ensures CaRowReported(rows[..i + 1], ca, now, f) {
      var row :| row in rows[..i] && CaRowReports(row, ca, now, f);
      assert row in rows[..i + 1];
    }
  }

  method CaRowFindings(ca: CaKind, rows: seq<Ca>, now: int) returns (findings: seq<Finding>)
    ensures forall f :: f in findings <==> CaRowReported(rows, ca, now, f)
  {
    findings := [];
    for i := 0 to |rows|
      invariant forall f :: f in findings <==> CaRowReported(rows[..i], ca, now, f)
    {
      var row := rows[i];
      ghost var before := findings;
      if row.issuing && Past(row.notAfter, now) {
        findings := findings + [ExpiredIssuing(ca, row.id)];
      }
      if row.status != Active && row.issuing {
        findings := findings + [NonActiveIssuing(ca, row.id, row.status)];
      }
      assert forall f :: f in findings <==> f in before || CaRowReports(row, ca, now, f);
      CaRowStep(rows, i, ca, now);
    }
  }

  ghost predicate RootBroken(roots: seq<Ca>, rows: seq<Ca>, f: Finding) {
    exists row :: row in rows && f == RootMissing(row.id, row.rootCa) && forall root | root in roots :: root.id != row.rootCa
  }

  method RootReferenceFindings(roots: seq<Ca>, rows: seq<Ca>) returns (findings: seq<Finding>)
    ensures forall f :: f in findings <==> RootBroken(roots, rows, f)
  {
    var ids: set<Id> := {};
    for i := 0 to |roots|
      invariant forall id :: id in ids <==> exists root :: root in roots[..i] && root.id == id
    {
      ids := ids + {roots[i].id};
    }
    assert roots[..|roots|] == roots;
    findings := [];
    for i := 0 to |rows|
      invariant forall f :: f in findings <==>
        exists row :: row in rows[..i] && f == RootMissing(row.id, row.rootCa) && row.rootCa !in ids
    {
      if rows[i].rootCa !in ids {
        findings := findings + [RootMissing(rows[i].id, rows[i].rootCa)];
      }
    }
  }

  // ----------------------------------------------------------------- issuers

  /** The row a map filled from `rows` holds under `id`: the last one. */
  function Lookup(rows: seq<Ca>, id: Id): Option<Ca> {
    if rows == [] then None
    else if rows[|rows| - 1].id == id then Some(rows[|rows| - 1])
    else Lookup(rows[..|rows| - 1], id)
  }

  predicate NameMismatch(row: Leaf, ica: Ca) {
    !Contains(ToLower(row.issuer), ToLower(ica.commonName)) && row.issuer != ""
  }

  predicate IssuerReports(row: Leaf, icas: seq<Ca>, f: Finding) {
    row.status == Active &&
    match Lookup(icas, row.issuerCa)
    case None => f == IssuerMissing(row.id, row.issuerCa)
    case Some(ica) =>
      || (f == InactiveIssuer(row.id, ica.id, ica.status) && ica.status != Active)
      || (f == IssuerNameMismatch(row.id, ica.id) && NameMismatch(row, ica))
  }

  ghost predicate IssuerReported(rows: seq<Leaf>, icas: seq<Ca>, f: Finding) {
    exists row :: row in rows && IssuerReports(row, icas, f)
  }

  lemma IssuerStep(rows: seq<Leaf>, i: nat, icas: seq<Ca>)
    requires i < |rows|
    ensures forall f :: IssuerReported(rows[..i + 1], icas, f) <==>
                        IssuerReported(rows[..i], icas, f) || IssuerReports(rows[i], icas, f)
  {
    assert rows[..i + 1] == rows[..i] + [rows[i]];
    assert rows[i] in rows[..i + 1];
    forall f | IssuerReported(rows[..i], icas, f) ensures IssuerReported(rows[..i + 1], icas, f) {
      var row :| row in rows[..i] && IssuerReports(row, icas, f);
      assert row in rows[..i + 1];
    }
  }

  method CheckPrivateCertIssuers(rows: seq<Leaf>, icas: seq<Ca>) returns (findings: seq<Finding>)
    ensures forall f :: f in findings <==> IssuerReported(rows, icas, f)
  {
    var byId: map<Id, Ca> := map[];
    for i := 0 to |icas|
      invariant forall id :: Lookup(icas[..i], id) == if id in byId then Some(byId[id]) else None
    {
      assert icas[..i + 1][..i] == icas[..i];
      byId := byId[icas[i].id := icas[i]];
    }
    assert icas[..|icas|] == icas;
    findings := [];
    for i := 0 to |rows|
      invariant forall f :: f in findings <==> IssuerReported(rows[..i], icas, f)
    {
      var row := rows[i];
      ghost var before := findings;
      if row.status == Active {
        if row.issuerCa !in byId {
          findings := findings + [IssuerMissing(row.id, row.issuerCa)];
        } else {
          var ica := byId[row.issuerCa];
          if ica.status != Active {
            findings := findings + [InactiveIssuer(row.id, ica.id, ica.status)];
          }
          if NameMismatch(row, ica) {
            findings := findings + [IssuerNameMismatch(row.id, ica.id)];
          }
        }
      }
      assert forall f :: f in findings <==> f in before || IssuerReports(row, icas, f);
      IssuerStep(rows, i, icas);
    }
  }

  // -------------------------------------------------------------- all checks

  /** The rows handed to the doctor. */
  datatype Listing = Listing(publics: seq<Leaf>, privates: seq<Leaf>, roots: seq<Ca>, intermediates: seq<Ca>)

  /** What the structural checks report on a listing at `now`, check by check. */
  ghost predicate Reports(l: Listing, now: int, f: Finding) {
    match f
    case ActiveCount(Public, name, n) => n > 1 && n == CountActive(l.publics, name)
    case ActiveCount(Private, name, n) => n > 1 && n == CountActive(l.privates, name)
    case LineageMissing(Public, _, _) => LineageBroken(l.publics, Public, f)
    case LineageMissing(Private, _, _) => LineageBroken(l.privates, Private, f)
    case CaActiveCount(Root, name, n) => n > 1 && n == CountActiveCas(l.roots, name)
    case CaActiveCount(Intermediate, name, n) => n > 1 && n == CountActiveCas(l.intermediates, name)
    case ExpiredIssuing(Root, _) => CaRowReported(l.roots, Root, now, f)
    case ExpiredIssuing(Intermediate, _) => CaRowReported(l.intermediates, Intermediate, now, f)
    case NonActiveIssuing(Root, _, _) => CaRowReported(l.roots, Root, now, f)
    case NonActiveIssuing(Intermediate, _, _) => CaRowReported(l.intermediates, Intermediate, now, f)
    case RootMissing(_, _) => RootBroken(l.roots, l.intermediates, f)
    case _ => IssuerReported(l.privates, l.intermediates, f)
  }

  method CheckActiveLeafCounts(publics: seq<Leaf>, privates: seq<Leaf>) returns (findings: seq<Finding>)
    ensures forall f :: f in findings <==>
      f.ActiveCount? && f.count > 1
      && f.count == CountActive(match f.kind case Public => publics case Private => privates, f.name)
  {
    var a := ActiveCountFindings(Public, publics);
    var b := ActiveCountFindings(Private, privates);
    findings := a + b;
  }

  method CheckLeafLineageLinks(publics: seq<Leaf>, privates: seq<Leaf>) returns (findings: seq<Finding>)
    ensures forall f :: f in findings <==> LineageBroken(publics, Public, f) || LineageBroken(privates, Private, f)
  {
    var a := LineageFindings(Public, publics);
    var b := LineageFindings(Private, privates);
    findings := a + b;
  }

  predicate IsCaFinding(f: Finding) {
    f.CaActiveCount? || f.ExpiredIssuing? || f.NonActiveIssuing? || f.RootMissing?
  }

  method CheckCAInvariants(roots: seq<Ca>, intermediates: seq<Ca>, now: int) returns (findings: seq<Finding>)
    ensures forall f :: f in findings <==> IsCaFinding(f) && Reports(Listing([], [], roots, intermediates), now, f)
  {
    var a := CaRowFindings(Root, roots, now);
    var b := CaActiveCountFindings(Root, roots);
    var c := CaRowFindings(Intermediate, intermediates, now);
    var d := RootReferenceFindings(roots, intermediates);
    var e := CaActiveCountFindings(Intermediate, intermediates);
    findings := a + b + c + d + e;
  }

  /** The structural part of `RunDoctorWithOptions`. */
  method RunStructuralChecks(l: Listing, now: int) returns (findings: seq<Finding>)
    ensures forall f :: f in findings <==> Reports(l, now, f)
  {
    var a := CheckActiveLeafCounts(l.publics, l.privates);
    var b := CheckLeafLineageLinks(l.publics, l.privates);
    var c := CheckCAInvariants(l.roots, l.intermediates, now);
    var d := CheckPrivateCertIssuers(l.privates, l.intermediates);
    findings := a + b + c + d;
  }

  // ------------------------------------------- the findings in the rows' fields

  function ActiveAt(rows: seq<Leaf>, name: string): set<int> {
    set i | 0 <= i < |rows| && rows[i].status == Active && rows[i].commonName == name
  }

  function ActiveCasAt(rows: seq<Ca>, name: string): set<int> {
    set i | 0 <= i < |rows| && rows[i].status == Active && rows[i].name == name
  }

  /** The reported counts are the numbers of active rows. */
  lemma {:induction false} CountIsSize(rows: seq<Leaf>, name: string)
    ensures CountActive(rows, name) == |ActiveAt(rows, name)|
  {
    if rows == [] {
      assert ActiveAt(rows, name) == {};
    } else {
      var n := |rows| - 1;
      CountIsSize(rows[..n], name);
      assert ActiveAt(rows, name) ==
        ActiveAt(rows[..n], name) + if rows[n].status == Active && rows[n].commonName == name then {n} else {};
    }
  }

  lemma {:induction false} CaCountIsSize(rows: seq<Ca>, name: string)
    ensures CountActiveCas(rows, name) == |ActiveCasAt(rows, name)|
  {
    if rows == [] {
      assert ActiveCasAt(rows, name) == {};
    } else {
      var n := |rows| - 1;
      CaCountIsSize(rows[..n], name);
      assert ActiveCasAt(rows, name) ==
        ActiveCasAt(rows[..n], name) + if rows[n].status == Active && rows[n].name == name then {n} else {};
    }
  }

  /** Row `i` is issuing under this id. */
  predicate IssuingAt(rows: seq<Ca>, i: int, id: Id) {
    0 <= i < |rows| && rows[i].id == id && rows[i].issuing
  }

  /** An expired issuer is reported exactly when it issues and has an end before now. */
  lemma ExpiredIssuingExact(rows: seq<Ca>, ca: CaKind, now: int, id: Id)
    ensures CaRowReported(rows, ca, now, ExpiredIssuing(ca, id)) <==>
            exists i :: IssuingAt(rows, i, id) && rows[i].notAfter.Some? && rows[i].notAfter.value < now
  {
    var f := ExpiredIssuing(ca, id);
    if row :| row in rows && CaRowReports(row, ca, now, f) {
      var i :| 0 <= i < |rows| && rows[i] == row;
      assert IssuingAt(rows, i, id);
    }
    if i :| IssuingAt(rows, i, id) && rows[i].notAfter.Some? && rows[i].notAfter.value < now {
      assert rows[i] in rows && CaRowReports(rows[i], ca, now, f);
    }
  }

  /** And one that is not active exactly when it issues, with its status. */
  lemma NonActiveIssuingExact(rows: seq<Ca>, ca: CaKind, now: int, id: Id, status: Status)
    ensures CaRowReported(rows, ca, now, NonActiveIssuing(ca, id, status)) <==>
            exists i :: IssuingAt(rows, i, id) && rows[i].status == status != Active
  {
    var f := NonActiveIssuing(ca, id, status);
    if row :| row in rows && CaRowReports(row, ca, now, f) {
      var i :| 0 <= i < |rows| && rows[i] == row;
      assert IssuingAt(rows, i, id);
    }
    if i :| IssuingAt(rows, i, id) && rows[i].status == status != Active {
      assert rows[i] in rows && CaRowReports(rows[i], ca, now, f);
    }
  }

  /** `icas[j]` is the row with this id that was listed last. */
  ghost predicate LastAt(icas: seq<Ca>, j: int, id: Id) {
    && 0 <= j < |icas| && icas[j].id == id
    && forall later | j < later < |icas| :: icas[later].id != id
  }

  lemma {:induction false} LookupExact(icas: seq<Ca>, id: Id)
    ensures match Lookup(icas, id)
            case None => forall j | 0 <= j < |icas| :: icas[j].id != id
            case Some(ica) => exists j :: LastAt(icas, j, id) && icas[j] == ica
  {
    if icas != [] {
      var n := |icas| - 1;
      if icas[n].id == id {
        assert LastAt(icas, n, id);
      } else {
        LookupExact(icas[..n], id);
        if Lookup(icas[..n], id).Some? {
          var j :| LastAt(icas[..n], j, id) && icas[..n][j] == Lookup(icas, id).value;
          assert LastAt(icas, j, id);
        }
      }
    }
  }

  /** Row `i` is an active certificate with this id and this issuer. */
  predicate IssuedAt(rows: seq<Leaf>, i: int, id: Id, issuer: Id) {
    0 <= i < |rows| && rows[i].status == Active && rows[i].id == id && rows[i].issuerCa == issuer
  }

  ghost predicate Mentions(text: string, name: string) {
    exists pre: string, post: string :: ToLower(text) == pre + (ToLower(name) + post)
  }

  lemma IssuerFindingAt(rows: seq<Leaf>, icas: seq<Ca>, f: Finding, id: Id, issuer: Id)
    requires f.IssuerMissing? || f.InactiveIssuer? || f.IssuerNameMismatch?
    requires f.id == id && f.issuer == issuer
    ensures IssuerReported(rows, icas, f) <==>
            exists i :: IssuedAt(rows, i, id, issuer) && IssuerReports(rows[i], icas, f)
  {
    LookupExact(icas, issuer);
    if row :| row in rows && IssuerReports(row, icas, f) {
      LookupExact(icas, row.issuerCa);
      var i :| 0 <= i < |rows| && rows[i] == row;
      assert IssuedAt(rows, i, id, issuer);
    }
    if i :| IssuedAt(rows, i, id, issuer) && IssuerReports(rows[i], icas, f) {
      assert rows[i] in rows;
    }
  }

  /** The issuer findings: an active certificate whose issuer is not listed, is listed as not
      active, or has a name that the certificate's issuer text does not hold in any case. */
  lemma IssuerMissingExact(rows: seq<Leaf>, icas: seq<Ca>, id: Id, issuer: Id)
    ensures IssuerReported(rows, icas, IssuerMissing(id, issuer)) <==>
            (exists i :: IssuedAt(rows, i, id, issuer)) && forall j | 0 <= j < |icas| :: icas[j].id != issuer
  {
    IssuerFindingAt(rows, icas, IssuerMissing(id, issuer), id, issuer);
    LookupExact(icas, issuer);
    if i :| IssuedAt(rows, i, id, issuer) {
      assert Lookup(icas, issuer) == None ==> IssuerReports(rows[i], icas, IssuerMissing(id, issuer));
    }
  }

  lemma InactiveIssuerExact(rows: seq<Leaf>, icas: seq<Ca>, id: Id, issuer: Id, status: Status)
    ensures IssuerReported(rows, icas, InactiveIssuer(id, issuer, status)) <==>
            && (exists i :: IssuedAt(rows, i, id, issuer))
            && exists j :: LastAt(icas, j, issuer) && icas[j].status == status != Active
  {
    var f := InactiveIssuer(id, issuer, status);
    IssuerFindingAt(rows, icas, f, id, issuer);
    LookupExact(icas, issuer);
    if i, j :| IssuedAt(rows, i, id, issuer) && LastAt(icas, j, issuer) && icas[j].status == status != Active {
      OnlyLast(icas, issuer, j);
      assert IssuerReports(rows[i], icas, f);
    }
  }

  lemma IssuerNameMismatchExact(rows: seq<Leaf>, icas: seq<Ca>, id: Id, issuer: Id)
    ensures IssuerReported(rows, icas, IssuerNameMismatch(id, issuer)) <==>
            exists i, j :: IssuedAt(rows, i, id, issuer) && LastAt(icas, j, issuer)
                           && rows[i].issuer != "" && !Mentions(rows[i].issuer, icas[j].commonName)
  {
    var f := IssuerNameMismatch(id, issuer);
    IssuerFindingAt(rows, icas, f, id, issuer);
    LookupExact(icas, issuer);
    if i :| IssuedAt(rows, i, id, issuer) && IssuerReports(rows[i], icas, f) {
      var j :| LastAt(icas, j, issuer) && icas[j] == Lookup(icas, issuer).value;
      ContainsExact(ToLower(rows[i].issuer), ToLower(icas[j].commonName));
    }
    if i, j :| IssuedAt(rows, i, id, issuer) && LastAt(icas, j, issuer)
               && rows[i].issuer != "" && !Mentions(rows[i].issuer, icas[j].commonName) {
      OnlyLast(icas, issuer, j);
      ContainsExact(ToLower(rows[i].issuer), ToLower(icas[j].commonName));
      assert IssuerReports(rows[i], icas, f);
    }
  }

  lemma OnlyLast(icas: seq<Ca>, id: Id, j: int)
    requires LastAt(icas, j, id)
    ensures Lookup(icas, id) == Some(icas[j])
  {
    LookupExact(icas, id);
  }
}
