/** The stored subjects, the login path over them, and why the pure preview predicts
    that path. */
module Subjects {
  import opened Text
  import opened Ordered
  import opened Tables
  import opened Principals
  import opened Authz
  import opened Admission

  datatype SubjectKey = SubjectKey(issuer: string, subject: string)

  type SubjectTable = map<SubjectKey, Subject>

  datatype SubjectError = NoSubjectId | NoIssuer | NoSubjectValue | SubjectIdTaken | NoSuchSubject

  datatype SubjectResult = Found(row: Subject) | Refused(error: SubjectError)

  // ---- What one statement does to the table ----

  predicate IdTaken(t: SubjectTable, id: string) {
    exists k :: k in t && t[k].id == id
  }

  function SeenError(t: SubjectTable, rec: Subject): Option<SubjectError> {
    if IsBlank(rec.id) then Some(NoSubjectId)
    else if IsBlank(rec.issuer) then Some(NoIssuer)
    else if IsBlank(rec.subject) then Some(NoSubjectValue)
    else if IdTaken(t, rec.id) then Some(SubjectIdTaken)
    else None
  }

  function KeyOf(rec: Subject): SubjectKey {
    SubjectKey(rec.issuer, rec.subject)
  }

  ghost function SeenRow(t: SubjectTable, rec: Subject): Subject {
    var k := KeyOf(rec);
    if k in t then
      t[k].(
        username := NullIfBlank(rec.username), email := NullIfBlank(rec.email),
        roles := Sorted(CleanSet(rec.roles)), groups := Sorted(CleanSet(rec.groups)),
        authCount := t[k].authCount + 1)
    else
      rec.(
        username := NullIfBlank(rec.username), email := NullIfBlank(rec.email),
        roles := Sorted(CleanSet(rec.roles)), groups := Sorted(CleanSet(rec.groups)),
        localRoles := Sorted(CleanSet(rec.localRoles)), localGroups := Sorted(CleanSet(rec.localGroups)),
        authCount := 1)
  }

  ghost function Approved(row: Subject, status: SubjectStatus, roles: seq<string>, groups: seq<string>): Subject {
    row.(status := status, localRoles := Sorted(CleanSet(roles)), localGroups := Sorted(CleanSet(groups)))
  }

  /** Each row sits under its own issuer and subject, and ids are unique. */
  ghost predicate SubjectsOk(t: SubjectTable) {
    && (forall k | k in t :: KeyOf(t[k]) == k)
    && (forall j, k | j in t && k in t && t[j].id == t[k].id :: j == k)
  }

  lemma SeenKeepsOk(t: SubjectTable, rec: Subject)
    requires SubjectsOk(t) && !IdTaken(t, rec.id)
    ensures SubjectsOk(t[KeyOf(rec) := SeenRow(t, rec)])
  {
    var row := SeenRow(t, rec);
    assert KeyOf(row) == KeyOf(rec);
    assert row.id == if KeyOf(rec) in t then t[KeyOf(rec)].id else rec.id;
  }

  class SubjectStore {
    var subjects: SubjectTable

    ghost predicate Valid()
      reads this
    {
      SubjectsOk(subjects)
    }

    constructor ()
      ensures Valid() && subjects == map[]
    {
      subjects := map[];
    }

    method GetSubject(issuer: string, subject: string) returns (r: SubjectResult)
      ensures r == if SubjectKey(issuer, subject) in subjects then Found(subjects[SubjectKey(issuer, subject)])
                   else Refused(NoSuchSubject)
    {
      var k := SubjectKey(issuer, subject);
      return if k in subjects then Found(subjects[k]) else Refused(NoSuchSubject);
    }

    method UpsertSubjectSeen(rec: Subject) returns (r: SubjectResult)
      requires Valid()
      modifies this
      ensures Valid()
      ensures match SeenError(old(subjects), rec)
              case Some(e) => r == Refused(e) && subjects == old(subjects)
              case None => r == Found(SeenRow(old(subjects), rec)) && subjects == old(subjects)[KeyOf(rec) := r.row]
    {
      if IsBlank(rec.id) {
        return Refused(NoSubjectId);
      }
      if IsBlank(rec.issuer) {
        return Refused(NoIssuer);
      }
      if IsBlank(rec.subject) {
        return Refused(NoSubjectValue);
      }
      if IdTaken(subjects, rec.id) {
        return Refused(SubjectIdTaken);
      }
      InsertOrTouch(rec);
      r := GetSubject(rec.issuer, rec.subject);
    }

    /** `INSERT .. ON CONFLICT(issuer, subject) DO UPDATE`. */
    method InsertOrTouch(rec: Subject)
      requires Valid() && !IdTaken(subjects, rec.id)
      modifies this
      ensures Valid() && subjects == old(subjects)[KeyOf(rec) := SeenRow(old(subjects), rec)]
    {
      SeenKeepsOk(subjects, rec);
      var roles := UniqueSorted(rec.roles);
      var groups := UniqueSorted(rec.groups);
      var localRoles := UniqueSorted(rec.localRoles);
      var localGroups := UniqueSorted(rec.localGroups);
      var k := SubjectKey(rec.issuer, rec.subject);
      var row := if k in subjects then subjects[k].(authCount := subjects[k].authCount + 1)
                 else rec.(localRoles := localRoles, localGroups := localGroups, authCount := 1);
      row := row.(username := NullIfBlank(rec.username), email := NullIfBlank(rec.email), roles := roles, groups := groups);
      assert row == SeenRow(subjects, rec);
      subjects := subjects[k := row];
    }

    method UpdateSubjectApproval(issuer: string, subject: string, status: SubjectStatus,
                                 localRoles: seq<string>, localGroups: seq<string>)
      returns (error: Option<SubjectError>)
      requires Valid()
      modifies this
      ensures Valid()
      ensures
        var k := SubjectKey(issuer, subject);
        if k in old(subjects) then
          error == None && subjects == old(subjects)[k := Approved(old(subjects)[k], status, localRoles, localGroups)]
        else
          error == Some(NoSuchSubject) && subjects == old(subjects)
    {
      var k := SubjectKey(issuer, subject);
      var roles := UniqueSorted(localRoles);
      var groups := UniqueSorted(localGroups);
      if k !in subjects {
        return Some(NoSuchSubject);
      }
      subjects := subjects[k := subjects[k].(status := status, localRoles := roles, localGroups := groups)];
      return None;
    }

    method SetSubjectStatus(issuer: string, subject: string, status: SubjectStatus)
      returns (error: Option<SubjectError>)
      requires Valid()
      modifies this
      ensures Valid()
      ensures
        var k := SubjectKey(issuer, subject);
        if k in old(subjects) then
          error == None && subjects == old(subjects)[k := old(subjects)[k].(status := status)]
        else
          error == Some(NoSuchSubject) && subjects == old(subjects)
    {
      var k := SubjectKey(issuer, subject);
      if k !in subjects {
        return Some(NoSuchSubject);
      }
      subjects := subjects[k := subjects[k].(status := status)];
      return None;
    }
  }

  // ---- One login ----

  /** A bearer login: a fresh row id, the verified identity and the rules in force. */
  datatype Login = Login(id: string, identity: Identity, rules: seq<Rule>)

  function DraftOf(l: Login): Subject {
    Subject(l.id, l.identity.issuer, l.identity.subject, PendingSubject, l.identity.username, l.identity.email,
            l.identity.roles, l.identity.groups, [], [], 0)
  }

  function LoginKey(l: Login): SubjectKey {
    SubjectKey(l.identity.issuer, l.identity.subject)
  }

  predicate Admitted(t: SubjectTable, l: Login) {
    SeenError(t, DraftOf(l)) == None
  }

  /** The row a login leaves, and the preview it decides on. */
  ghost function ResolvedRow(row: Subject, identity: Identity, rules: seq<Rule>): Subject {
    var p := PreviewOf(identity, Some(row), EnabledRules(rules));
    if row.status == PendingSubject && p.reason == AutoApproved then
      Approved(row, ActiveSubject, p.identity.localRoles, p.identity.localGroups)
    else row
  }

  ghost function ResolvedPreview(row: Subject, identity: Identity, rules: seq<Rule>): Preview {
    var p := PreviewOf(identity, Some(row), EnabledRules(rules));
    if row.status != PendingSubject then Preview(row.status, AlreadyActive, [], [], [], WithRecord(identity, row))
    else if p.reason == AutoApproved then PreviewOf(identity, Some(ResolvedRow(row, identity, rules)), [])
    else p
  }

  method ListEnabledRules(rules: seq<Rule>) returns (out: seq<Rule>)
    ensures out == EnabledRules(rules)
  {
    out := [];
    for i := 0 to |rules|
      invariant out == EnabledRules(rules[..i])
    {
      assert rules[..i + 1][..i] == rules[..i];
      if rules[i].enabled {
        out := out + [rules[i]];
      }
    }
    assert rules[..|rules|] == rules;
  }

  method ResolveBearerSubject(store: SubjectStore, identity: Identity, rec: Subject, rules: seq<Rule>)
    returns (preview: Preview, updated: Subject)
    requires store.Valid()
    requires KeyOf(rec) == SubjectKey(identity.issuer, identity.subject)
    requires KeyOf(rec) in store.subjects && store.subjects[KeyOf(rec)] == rec
    modifies store
    ensures store.Valid()
    ensures updated == ResolvedRow(rec, identity, rules)
    ensures preview == ResolvedPreview(rec, identity, rules)
    ensures store.subjects == old(store.subjects)[KeyOf(rec) := updated]
  {
    updated := rec;
    var applied := ApplySubjectRecord(identity, rec);
    preview := Preview(rec.status, AlreadyActive, [], [], [], applied);
    if rec.status == PendingSubject {
      var enabled := ListEnabledRules(rules);
      preview := PreviewSubjectAccess(identity, Some(rec), enabled);
      if preview.reason == AutoApproved {
        var error := store.UpdateSubjectApproval(identity.issuer, identity.subject, ActiveSubject,
                                                 preview.identity.localRoles, preview.identity.localGroups);
        var found := store.GetSubject(identity.issuer, identity.subject);
        updated := found.row;
        preview := PreviewSubjectAccess(identity, Some(updated), []);
      }
    }
  }

  datatype Decision =
    | Accepted(identity: Identity)
    | SubjectIsDisabled
    | SubjectIsPending
    | Forbidden
    | StoreFailed(error: SubjectError)

  /** What is answered once a preview is known. */
  ghost predicate Admits(p: Preview, bindings: seq<Binding>, req: Request) {
    p.status == ActiveSubject && Permitted(p.identity, bindings, req)
  }

  ghost function DecisionOf(p: Preview, bindings: seq<Binding>, req: Request): Decision {
    if p.status == DisabledSubject then SubjectIsDisabled
    else if p.status == PendingSubject then SubjectIsPending
    else if Permitted(p.identity, bindings, req) then Accepted(p.identity)
    else Forbidden
  }

  /** The table after one login, which is unchanged when the login is refused. */
  ghost function AfterLogin(t: SubjectTable, l: Login): SubjectTable {
    if Admitted(t, l) then t[LoginKey(l) := ResolvedRow(SeenRow(t, DraftOf(l)), l.identity, l.rules)] else t
  }

  ghost function LoginDecision(t: SubjectTable, l: Login, bindings: seq<Binding>, req: Request): Decision {
    match SeenError(t, DraftOf(l))
    case Some(e) => StoreFailed(e)
    case None => DecisionOf(ResolvedPreview(SeenRow(t, DraftOf(l)), l.identity, l.rules), bindings, req)
  }

  method Decide(preview: Preview, bindings: seq<Binding>, req: Request) returns (decision: Decision)
    ensures decision == DecisionOf(preview, bindings, req)
  {
    if preview.status == DisabledSubject {
      return SubjectIsDisabled;
    }
    if preview.status == PendingSubject {
      return SubjectIsPending;
    }
    var ok := Allowed(preview.identity, bindings, req);
    return if ok then Accepted(preview.identity) else Forbidden;
  }

  lemma AfterLoginSteps(t: SubjectTable, l: Login, row: Subject)
    requires Admitted(t, l) && row == SeenRow(t, DraftOf(l))
    ensures t[LoginKey(l) := row][LoginKey(l) := ResolvedRow(row, l.identity, l.rules)] == AfterLogin(t, l)
  {
  }

  lemma SeenKey(t: SubjectTable, l: Login)
    requires SubjectsOk(t)
    ensures KeyOf(SeenRow(t, DraftOf(l))) == LoginKey(l)
  {
  }

  /** The bearer part of `authenticateAdminRequest`, after the token is verified. */
  method AuthenticateBearer(store: SubjectStore, l: Login, bindings: seq<Binding>, req: Request)
    returns (decision: Decision)
    requires store.Valid()
    modifies store
    ensures store.Valid()
    ensures store.subjects == AfterLogin(old(store.subjects), l)
    ensures decision == LoginDecision(old(store.subjects), l, bindings, req)
  {
    ghost var t := store.subjects;
    var seen := store.UpsertSubjectSeen(DraftOf(l));
    if seen.Refused? {
      return StoreFailed(seen.error);
    }
    SeenKey(t, l);
    ghost var row := seen.row;
    assert row == SeenRow(t, DraftOf(l)) && store.subjects == t[LoginKey(l) := row] && Admitted(t, l);
    var preview, updated := ResolveBearerSubject(store, l.identity, seen.row, l.rules);
    AfterLoginSteps(t, l, row);
    decision := Decide(preview, bindings, req);
  }

  // ---- The preview predicts the login ----

  function Lookup(t: SubjectTable, k: SubjectKey): Option<Subject> {
    if k in t then Some(t[k]) else None
  }

  lemma CleanSetUnique(values: seq<string>)
    ensures CleanSet(Unique(values)) == CleanSet(values)
    ensures Elems(Unique(values)) == CleanSet(values)
  {
    UniqueIsClean(values);
    UniqueElems(values);
  }

  /** A list written to a row and read back denotes the same clean names. */
  lemma StoredNames(values: seq<string>)
    ensures Elems(Sorted(CleanSet(values))) == CleanSet(values)
    ensures CleanSet(Sorted(CleanSet(values))) == CleanSet(values)
  {
    var s := Sorted(CleanSet(values));
    forall v | v in s ensures v != "" && Trimmed(v) {
      assert v in Elems(s);
      var i :| 0 <= i < |values| && Trim(values[i]) == v;
      TrimTrimmed(values[i]);
    }
    CleanSetOfClean(s);
  }

  lemma PrincipalsSameSet(base: seq<string>, r0: seq<string>, g0: seq<string>, r1: seq<string>, g1: seq<string>)
    requires CleanSet(r0) == CleanSet(r1) && CleanSet(g0) == CleanSet(g1)
    ensures Elems(Unique(base + LocalPrincipalsOf(r0, g0))) == Elems(Unique(base + LocalPrincipalsOf(r1, g1)))
  {
    var p, q := LocalPrincipalsOf(r0, g0), LocalPrincipalsOf(r1, g1);
    LocalPrincipalsSameSet(r0, g0, r1, g1);
    LocalPrincipalsClean(r0, g0);
    LocalPrincipalsClean(r1, g1);
    CleanSetConcat(base, p);
    CleanSetConcat(base, q);
    UniqueElems(base + p);
    UniqueElems(base + q);
  }

  lemma LocalPrincipalsClean(roles: seq<string>, groups: seq<string>)
    ensures CleanSet(LocalPrincipalsOf(roles, groups)) == Elems(LocalPrincipalsOf(roles, groups))
  {
    var all := Prefixed(LOCAL_ROLE, roles) + Prefixed(LOCAL_GROUP, groups);
    UniqueIsClean(all);
    CleanSetOfClean(Unique(all));
  }

  ghost predicate SameAccess(p: Preview, q: Preview) {
    && p.status == q.status
    && p.identity.superuser == q.identity.superuser
    && Elems(p.identity.localRoles) == Elems(q.identity.localRoles)
    && Elems(p.identity.localGroups) == Elems(q.identity.localGroups)
  }

  lemma EmptyLocals()
    ensures Sorted(CleanSet([])) == []
    ensures LocalPrincipalsOf([], []) == []
  {
    assert CleanSet([]) == {};
    NoElems(Sorted({}));
    assert Prefixed(LOCAL_ROLE, []) + Prefixed(LOCAL_GROUP, []) == [];
  }

  /** Approval through the table, in sorted form, yields the previewed sets. */
  lemma ApprovalRoundTrip(row: Subject, identity: Identity, roles: seq<string>, groups: seq<string>)
    ensures
      var p := ApprovedIdentity(identity, roles, groups);
      var q := WithRecord(identity, Approved(row, ActiveSubject, p.localRoles, p.localGroups));
      && Elems(p.localRoles) == Elems(q.localRoles)
      && Elems(p.localGroups) == Elems(q.localGroups)
      && Elems(p.principals) == Elems(q.principals)
  {
    CleanSetUnique(roles);
    CleanSetUnique(groups);
    StoredNames(Unique(roles));
    StoredNames(Unique(groups));
    PrincipalsSameSet(identity.principals, Unique(roles), Unique(groups),
                      Sorted(CleanSet(Unique(roles))), Sorted(CleanSet(Unique(groups))));
  }

  /** The row a login starts from, seen by the preview. */
  lemma SeenKeepsPreview(t: SubjectTable, l: Login)
    requires LoginKey(l) in t
    ensures PreviewOf(l.identity, Some(SeenRow(t, DraftOf(l))), l.rules) ==
            PreviewOf(l.identity, Some(t[LoginKey(l)]), l.rules)
  {
  }

  lemma EnabledPreview(identity: Identity, rec: Option<Subject>, rules: seq<Rule>)
    ensures PreviewOf(identity, rec, EnabledRules(rules)) == PreviewOf(identity, rec, rules)
  {
    EnabledRulesMatch(identity, rules);
  }

  ghost predicate SamePrincipals(p: Preview, q: Preview) {
    Elems(p.identity.principals) == Elems(q.identity.principals)
  }

  /** A stored row is resolved as previewed, whatever it holds. */
  lemma StoredResolves(row: Subject, identity: Identity, rules: seq<Rule>)
    ensures
      var p, q := PreviewOf(identity, Some(row), rules), ResolvedPreview(row, identity, rules);
      SameAccess(p, q) && SamePrincipals(p, q) && q.status == ResolvedRow(row, identity, rules).status
  {
    EnabledPreview(identity, Some(row), rules);
    var p, q := PreviewOf(identity, Some(row), rules), ResolvedPreview(row, identity, rules);
    var m := MatchOf(identity, rules);
    if row.status != PendingSubject {
      assert p.identity == WithRecord(identity, row) == q.identity;
    } else if m.ruleNames == [] {
      assert p == q;
    } else {
      var roles, groups := row.localRoles + m.localRoles, row.localGroups + m.localGroups;
      ApprovalRoundTrip(row, identity, roles, groups);
      assert p.identity == ApprovedIdentity(identity, roles, groups);
      assert q.identity == WithRecord(identity, Approved(row, ActiveSubject, p.identity.localRoles, p.identity.localGroups));
    }
  }

  /** An absent subject gets the preview of a fresh pending row. */
  lemma AbsentPreview(row: Subject, identity: Identity, rules: seq<Rule>)
    requires row.status == PendingSubject && row.localRoles == [] && row.localGroups == []
    requires identity.localRoles == [] && identity.localGroups == []
    ensures
      var p, q := PreviewOf(identity, None, rules), PreviewOf(identity, Some(row), rules);
      && SameAccess(p, q)
      && (SamePrincipals(p, q) <==> SomeRule(identity, rules) || Clean(identity.principals))
  {
    var m := MatchOf(identity, rules);
    ApprovedIff(identity, rules);
    if m.ruleNames != [] {
      assert [] + m.localRoles == m.localRoles && [] + m.localGroups == m.localGroups;
    } else {
      EmptyLocals();
      assert identity.principals + [] == identity.principals;
      UniqueElems(identity.principals);
      CleanIff(identity.principals);
    }
  }

  lemma SameAnswers(p: Preview, q: Preview, bindings: seq<Binding>, req: Request)
    requires SameAccess(p, q) && (p.status == ActiveSubject ==> SamePrincipals(p, q))
    ensures Admits(p, bindings, req) <==> Admits(q, bindings, req)
  {
    if p.status == ActiveSubject {
      assert Covers(bindings, bindings);
      PermittedSameSets(p.identity, q.identity, bindings, bindings, req);
    }
  }

  /** For every table, identity and rule list: the preview of a subject as stored, or
      absent, has the status, the local roles and groups and the answers of the login
      that follows. Its principals are the login's as a set exactly when the subject was
      stored, or a rule approves it, or the token's principals were trimmed to begin with. */
  lemma PreviewPredictsLogin(t: SubjectTable, l: Login, bindings: seq<Binding>, req: Request)
    requires Admitted(t, l)
    requires l.identity.localRoles == [] && l.identity.localGroups == []
    ensures
      var p := PreviewOf(l.identity, Lookup(t, LoginKey(l)), l.rules);
      var q := ResolvedPreview(SeenRow(t, DraftOf(l)), l.identity, l.rules);
      && SameAccess(p, q)
      && q.status == AfterLogin(t, l)[LoginKey(l)].status
      && (Admits(p, bindings, req) <==> LoginDecision(t, l, bindings, req).Accepted?)
      && (SamePrincipals(p, q) <==>
          LoginKey(l) in t || SomeRule(l.identity, l.rules) || Clean(l.identity.principals))
  {
    var row := SeenRow(t, DraftOf(l));
    var p := PreviewOf(l.identity, Lookup(t, LoginKey(l)), l.rules);
    var q := ResolvedPreview(row, l.identity, l.rules);
    StoredResolves(row, l.identity, l.rules);
    if LoginKey(l) in t {
      SeenKeepsPreview(t, l);
    } else {
      EmptyLocals();
      AbsentPreview(row, l.identity, l.rules);
      ApprovedIff(l.identity, l.rules);
    }
    SameAnswers(p, q, bindings, req);
  }

  lemma CleanIff(values: seq<string>)
    ensures Elems(values) == CleanSet(values) <==> Clean(values)
  {
    if Clean(values) {
      CleanSetOfClean(values);
    }
    if Elems(values) == CleanSet(values) {
      forall v | v in values ensures v != "" && Trimmed(v) {
        assert v in Elems(values);
        var i :| 0 <= i < |values| && Trim(values[i]) == v;
        TrimTrimmed(values[i]);
      }
    }
  }

  // ---- A login in terms of the rows' own columns ----

  /** A column that holds the clean names of a list, each once and in order. */
  ghost predicate Stores(column: seq<string>, values: seq<string>) {
    StrictlySorted(column) && forall x :: x in column <==> x != "" && Has(values, x)
  }

  lemma SortedStores(values: seq<string>)
    ensures Stores(Sorted(CleanSet(values)), values)
  {
    var column := Sorted(CleanSet(values));
    forall x ensures x in column <==> x != "" && Has(values, x) {
      CleanMember(values, x);
      assert x in column <==> x in Elems(column);
    }
  }

  ghost predicate Claimed(t: SubjectTable, id: string) {
    exists j :: j in t && t[j].id == id
  }

  /** A login that cannot be recorded is refused with the first reason and changes nothing. */
  lemma LoginRefused(t: SubjectTable, l: Login, bindings: seq<Binding>, req: Request)
    ensures
      var d, i := LoginDecision(t, l, bindings, req), l.identity;
      && (d == StoreFailed(NoSubjectId) <==> Trim(l.id) == "")
      && (d == StoreFailed(NoIssuer) <==> Trim(l.id) != "" && Trim(i.issuer) == "")
      && (d == StoreFailed(NoSubjectValue) <==> Trim(l.id) != "" && Trim(i.issuer) != "" && Trim(i.subject) == "")
      && (d == StoreFailed(SubjectIdTaken) <==>
          Trim(l.id) != "" && Trim(i.issuer) != "" && Trim(i.subject) != "" && Claimed(t, l.id))
      && (d.StoreFailed? ==> d.error != NoSuchSubject && AfterLogin(t, l) == t)
      && (d.StoreFailed? <==> !Admitted(t, l))
  {
    RefusedFor(t, DraftOf(l));
    FailedExactly(t, l, bindings, req);
  }

  lemma RefusedFor(t: SubjectTable, rec: Subject)
    ensures SeenError(t, rec) ==
      if Trim(rec.id) == "" then Some(NoSubjectId)
      else if Trim(rec.issuer) == "" then Some(NoIssuer)
      else if Trim(rec.subject) == "" then Some(NoSubjectValue)
      else if Claimed(t, rec.id) then Some(SubjectIdTaken) else None
  {
    BlankTrims(rec.id);
    BlankTrims(rec.issuer);
    BlankTrims(rec.subject);
    assert IdTaken(t, rec.id) <==> Claimed(t, rec.id);
  }

  lemma FailedExactly(t: SubjectTable, l: Login, bindings: seq<Binding>, req: Request)
    ensures
      var d, refusal := LoginDecision(t, l, bindings, req), SeenError(t, DraftOf(l));
      if refusal.Some? then d == StoreFailed(refusal.value) && AfterLogin(t, l) == t
      else !d.StoreFailed?
  {
  }

  /** The row is new or touched: what the token says is taken over, one login is counted, and an
      existing row keeps its id, its status and its local lists. */
  lemma SeenColumns(t: SubjectTable, l: Login)
    requires SubjectsOk(t)
    ensures
      var k, row := SubjectKey(l.identity.issuer, l.identity.subject), SeenRow(t, DraftOf(l));
      && row.id == (if k in t then t[k].id else l.id)
      && row.issuer == l.identity.issuer && row.subject == l.identity.subject
      && row.username == (if Trim(l.identity.username) == "" then "" else l.identity.username)
      && row.email == (if Trim(l.identity.email) == "" then "" else l.identity.email)
      && Stores(row.roles, l.identity.roles) && Stores(row.groups, l.identity.groups)
      && row.authCount == (if k in t then t[k].authCount else 0) + 1
  {
    BlankTrims(l.identity.username);
    BlankTrims(l.identity.email);
    SortedStores(l.identity.roles);
    SortedStores(l.identity.groups);
  }

  /** A login leaves its row with these columns, and nothing else of the table moves. */
  lemma LoginTouches(t: SubjectTable, l: Login)
    requires Admitted(t, l)
    ensures
      var k, u, row := LoginKey(l), AfterLogin(t, l), SeenRow(t, DraftOf(l));
      && u.Keys == t.Keys + {k}
      && (forall j | j in t && j != k :: u[j] == t[j])
      && u[k].(status := row.status, localRoles := row.localRoles, localGroups := row.localGroups) == row
  {
    var row := SeenRow(t, DraftOf(l));
    ResolvedColumns(row, l.identity, l.rules);
  }

  lemma ResolvedColumns(row: Subject, identity: Identity, rules: seq<Rule>)
    ensures ResolvedRow(row, identity, rules).(
              status := row.status, localRoles := row.localRoles, localGroups := row.localGroups) == row
  {
  }

  /** The login decides on a row, or on an absent one, that no operator has decided on: a named
      rule that fits approves it. */
  ghost predicate LoginApproves(t: SubjectTable, l: Login) {
    StatusIn(t, LoginKey(l)) == PendingSubject && Approves(l.identity, l.rules)
  }

  /** The status and the local lists a login leaves, in terms of the rules' own fields. */
  lemma LoginDecides(t: SubjectTable, l: Login, x: string)
    requires Admitted(t, l)
    ensures
      var k, u := SubjectKey(l.identity.issuer, l.identity.subject), AfterLogin(t, l);
      && k in u
      && (if LoginApproves(t, l) then
            && u[k].status == ActiveSubject
            && StrictlySorted(u[k].localRoles) && StrictlySorted(u[k].localGroups)
            && (x in u[k].localRoles <==>
                  (x != "" && Has(RolesIn(t, k), x)) || RoleOffered(l.identity, l.rules, x))
            && (x in u[k].localGroups <==>
                  (x != "" && Has(GroupsIn(t, k), x)) || GroupOffered(l.identity, l.rules, x))
          else
            && u[k].status == StatusIn(t, k)
            && u[k].localRoles == RolesIn(t, k) && u[k].localGroups == GroupsIn(t, k))
  {
    var k := LoginKey(l);
    ApprovesIff(l.identity, l.rules);
    AfterLoginRow(t, l, k);
    if LoginApproves(t, l) {
      ApprovalGrants(t, l, x);
      GrantedIffOffered(l.identity, l.rules, x);
      CleanMember(RolesIn(t, k), x);
      CleanMember(GroupsIn(t, k), x);
      ApprovedSorted(t, l);
    }
  }

  lemma ApprovedSorted(t: SubjectTable, l: Login)
    requires Admitted(t, l) && LoginApproves(t, l)
    ensures StrictlySorted(AfterLogin(t, l)[LoginKey(l)].localRoles)
    ensures StrictlySorted(AfterLogin(t, l)[LoginKey(l)].localGroups)
  {
    EnabledPreview(l.identity, Some(SeenRow(t, DraftOf(l))), l.rules);
    ApprovesIff(l.identity, l.rules);
  }

  /** What is answered depends on the row the login leaves: nothing but an active subject gets
      further, with the token's principals and those of its local roles and groups, and gets in
      exactly when a binding permits the request. */
  lemma LoginAnswers(t: SubjectTable, l: Login, bindings: seq<Binding>, req: Request, x: string)
    requires Admitted(t, l)
    ensures
      var row := AfterLogin(t, l)[SubjectKey(l.identity.issuer, l.identity.subject)];
      var p := ResolvedPreview(SeenRow(t, DraftOf(l)), l.identity, l.rules).identity;
      var d := LoginDecision(t, l, bindings, req);
      && (d == SubjectIsDisabled <==> row.status == DisabledSubject)
      && (d == SubjectIsPending <==> row.status == PendingSubject)
      && (row.status == ActiveSubject ==> d == if Permitted(p, bindings, req) then Accepted(p) else Forbidden)
      && p.(localRoles := [], localGroups := [], principals := []) ==
         l.identity.(localRoles := [], localGroups := [], principals := [])
      && p.localRoles == row.localRoles && p.localGroups == row.localGroups
      && (x in p.principals <==> HoldsPrincipal(x, l.identity.principals, row.localRoles, row.localGroups))
  {
    var seen := SeenRow(t, DraftOf(l));
    var row := ResolvedRow(seen, l.identity, l.rules);
    AnswerIdentity(seen, l.identity, l.rules);
    HoldsPrincipalIff(x, l.identity.principals, row.localRoles, row.localGroups);
  }

  lemma AnswerIdentity(seen: Subject, identity: Identity, rules: seq<Rule>)
    ensures
      var p, row := ResolvedPreview(seen, identity, rules), ResolvedRow(seen, identity, rules);
      p.status == row.status && p.identity == WithRecord(identity, row)
  {
    if seen.status == PendingSubject {
      var p := PreviewOf(identity, Some(seen), EnabledRules(rules));
      if p.reason == AutoApproved {
        ActivePreview(identity, ResolvedRow(seen, identity, rules));
      } else {
        UnapprovedPreview(identity, seen, EnabledRules(rules));
      }
    }
  }

  lemma ActivePreview(identity: Identity, row: Subject)
    requires row.status == ActiveSubject
    ensures PreviewOf(identity, Some(row), []) == Preview(ActiveSubject, AlreadyActive, [], [], [], WithRecord(identity, row))
  {
  }

  lemma UnapprovedPreview(identity: Identity, row: Subject, rules: seq<Rule>)
    requires row.status == PendingSubject && PreviewOf(identity, Some(row), rules).reason != AutoApproved
    ensures PreviewOf(identity, Some(row), rules).status == PendingSubject
    ensures PreviewOf(identity, Some(row), rules).identity == WithRecord(identity, row)
  {
  }

  // ---- Whole runs of logins ----

  ghost function LoginRun(t: SubjectTable, logins: seq<Login>): SubjectTable {
    if logins == [] then t else AfterLogin(LoginRun(t, logins[..|logins| - 1]), logins[|logins| - 1])
  }

  /** Login `i` of a run reached the row of `k`. */
  ghost predicate Reaches(t: SubjectTable, logins: seq<Login>, i: nat, k: SubjectKey)
    requires i < |logins|
  {
    LoginKey(logins[i]) == k && Admitted(LoginRun(t, logins[..i]), logins[i])
  }

  ghost function LoginsOf(t: SubjectTable, logins: seq<Login>, k: SubjectKey): nat {
    if logins == [] then 0
    else LoginsOf(t, logins[..|logins| - 1], k) + if Reaches(t, logins, |logins| - 1, k) then 1 else 0
  }

  /** Login `i` of a run reached the row of `k` while one of its rules matched. */
  ghost predicate MatchesAt(t: SubjectTable, logins: seq<Login>, i: nat, k: SubjectKey)
    requires i < |logins|
  {
    Reaches(t, logins, i, k) && SomeRule(logins[i].identity, logins[i].rules)
  }

  ghost predicate RuleMatched(t: SubjectTable, logins: seq<Login>, k: SubjectKey) {
    exists i | 0 <= i < |logins| :: MatchesAt(t, logins, i, k)
  }

  function StatusIn(t: SubjectTable, k: SubjectKey): SubjectStatus {
    if k in t then t[k].status else PendingSubject
  }

  function CountIn(t: SubjectTable, k: SubjectKey): nat {
    if k in t then t[k].authCount else 0
  }

  function RolesIn(t: SubjectTable, k: SubjectKey): seq<string> {
    if k in t then t[k].localRoles else []
  }

  function GroupsIn(t: SubjectTable, k: SubjectKey): seq<string> {
    if k in t then t[k].localGroups else []
  }

  lemma ResolvedStatus(row: Subject, identity: Identity, rules: seq<Rule>)
    ensures
      var approved, resolved := row.status == PendingSubject && SomeRule(identity, rules), ResolvedRow(row, identity, rules);
      && resolved.status == (if approved then ActiveSubject else row.status)
      && resolved.authCount == row.authCount
      && (!approved ==> resolved == row)
  {
    EnabledPreview(identity, Some(row), rules);
    ApprovedIff(identity, rules);
  }

  lemma SeenDefaults(t: SubjectTable, l: Login)
    ensures
      var k, row := LoginKey(l), SeenRow(t, DraftOf(l));
      && row.status == StatusIn(t, k) && row.authCount == CountIn(t, k) + 1
      && row.localRoles == RolesIn(t, k) && row.localGroups == GroupsIn(t, k)
  {
    EmptyLocals();
  }

  lemma AfterLoginRow(t: SubjectTable, l: Login, k: SubjectKey)
    ensures
      var hit := LoginKey(l) == k && Admitted(t, l);
      var approved := hit && StatusIn(t, k) == PendingSubject && SomeRule(l.identity, l.rules);
      var u := AfterLogin(t, l);
      && StatusIn(u, k) == (if approved then ActiveSubject else StatusIn(t, k))
      && CountIn(u, k) == CountIn(t, k) + (if hit then 1 else 0)
      && (!approved ==> RolesIn(u, k) == RolesIn(t, k) && GroupsIn(u, k) == GroupsIn(t, k))
  {
    SeenDefaults(t, l);
    ResolvedStatus(SeenRow(t, DraftOf(l)), l.identity, l.rules);
  }

  /** A login that approves a subject leaves it exactly the local roles and groups it had and
      those of the matching rules. */
  lemma ApprovalGrants(t: SubjectTable, l: Login, x: string)
    requires Admitted(t, l) && StatusIn(t, LoginKey(l)) == PendingSubject && SomeRule(l.identity, l.rules)
    ensures
      var k, u := LoginKey(l), AfterLogin(t, l);
      && u[k].status == ActiveSubject
      && (x in u[k].localRoles <==> x in CleanSet(RolesIn(t, k)) || RoleGranted(l.identity, l.rules, x))
      && (x in u[k].localGroups <==> x in CleanSet(GroupsIn(t, k)) || GroupGranted(l.identity, l.rules, x))
  {
    var row := SeenRow(t, DraftOf(l));
    var m := MatchOf(l.identity, l.rules);
    EnabledPreview(l.identity, Some(row), l.rules);
    ApprovedIff(l.identity, l.rules);
    EmptyLocals();
    assert row.localRoles == RolesIn(t, LoginKey(l)) && row.localGroups == GroupsIn(t, LoginKey(l));
    MatchExact(l.identity, l.rules, x);
    GrantedList(row.localRoles, m.localRoles, Collected(l.identity, l.rules).localRoles, x);
    GrantedList(row.localGroups, m.localGroups, Collected(l.identity, l.rules).localGroups, x);
  }

  lemma GrantedList(had: seq<string>, granted: seq<string>, from: seq<string>, x: string)
    requires granted == Unique(from)
    ensures x in Sorted(CleanSet(Unique(had + granted))) <==> x in CleanSet(had) || x in granted
  {
    CleanSetUnique(had + granted);
    CleanSetConcat(had, granted);
    CleanSetUnique(from);
    assert x in Sorted(CleanSet(Unique(had + granted))) <==> x in Elems(Sorted(CleanSet(Unique(had + granted))));
    assert x in granted <==> x in Elems(granted);
  }

  lemma MatchesAtPrefix(t: SubjectTable, logins: seq<Login>, i: nat, k: SubjectKey)
    requires i < |logins| - 1
    ensures MatchesAt(t, logins, i, k) == MatchesAt(t, logins[..|logins| - 1], i, k)
  {
    assert logins[..|logins| - 1][..i] == logins[..i];
  }

  lemma RuleMatchedNext(t: SubjectTable, logins: seq<Login>, k: SubjectKey)
    requires logins != []
    ensures RuleMatched(t, logins, k) <==>
            RuleMatched(t, logins[..|logins| - 1], k) || MatchesAt(t, logins, |logins| - 1, k)
  {
    forall i | 0 <= i < |logins| - 1
      ensures MatchesAt(t, logins, i, k) == MatchesAt(t, logins[..|logins| - 1], i, k)
    {
      MatchesAtPrefix(t, logins, i, k);
    }
    var init := logins[..|logins| - 1];
    if RuleMatched(t, init, k) {
      var i :| 0 <= i < |init| && MatchesAt(t, init, i, k);
      assert MatchesAt(t, logins, i, k);
    }
    if RuleMatched(t, logins, k) {
      var i :| 0 <= i < |logins| && MatchesAt(t, logins, i, k);
      assert i < |init| ==> MatchesAt(t, init, i, k);
    }
  }

  /** Over any run of logins without an operator: a subject's status moves only from
      pending to active, and does so exactly when some login that reached it had a matching
      rule. Disabled and active subjects keep their local roles and groups, and the counter
      grows by the number of logins. */
  lemma {:induction false} LoginRunExact(t: SubjectTable, logins: seq<Login>, k: SubjectKey)
    ensures
      var u := LoginRun(t, logins);
      var approved := StatusIn(t, k) == PendingSubject && RuleMatched(t, logins, k);
      && StatusIn(u, k) == (if approved then ActiveSubject else StatusIn(t, k))
      && CountIn(u, k) == CountIn(t, k) + LoginsOf(t, logins, k)
      && (!approved ==> RolesIn(u, k) == RolesIn(t, k) && GroupsIn(u, k) == GroupsIn(t, k))
  {
    if logins != [] {
      var n := |logins| - 1;
      LoginRunExact(t, logins[..n], k);
      AfterLoginRow(LoginRun(t, logins[..n]), logins[n], k);
      RuleMatchedNext(t, logins, k);
    }
  }

  /** A pending subject whose issuer no enabled rule of its logins names is pending after any
      run of logins, without local roles or groups it did not have. */
  lemma OtherIssuersNeverApprove(t: SubjectTable, logins: seq<Login>, k: SubjectKey)
    requires StatusIn(t, k) == PendingSubject
    requires forall i | 0 <= i < |logins| && LoginKey(logins[i]) == k :: IssuerUnknown(logins[i].rules, k.issuer)
    ensures
      var u := LoginRun(t, logins);
      StatusIn(u, k) == PendingSubject && RolesIn(u, k) == RolesIn(t, k) && GroupsIn(u, k) == GroupsIn(t, k)
  {
    LoginRunExact(t, logins, k);
    forall i | 0 <= i < |logins| ensures !MatchesAt(t, logins, i, k) {
      if Reaches(t, logins, i, k) {
        var l := logins[i];
        OtherIssuersMatchNothing(l.identity, l.rules);
        ApprovedIff(l.identity, l.rules);
      }
    }
  }

  /** Over any run, a pending subject ends active exactly when some login that reached it carried
      a named rule that fits, in terms of the rule's own fields. */
  lemma RunApprovesIff(t: SubjectTable, logins: seq<Login>, k: SubjectKey)
    requires StatusIn(t, k) == PendingSubject
    ensures StatusIn(LoginRun(t, logins), k) == ActiveSubject <==>
            exists i :: 0 <= i < |logins| && Reaches(t, logins, i, k) && Approves(logins[i].identity, logins[i].rules)
  {
    LoginRunExact(t, logins, k);
    forall i | 0 <= i < |logins| ensures
      MatchesAt(t, logins, i, k) <==> Reaches(t, logins, i, k) && Approves(logins[i].identity, logins[i].rules)
    {
      ApprovesIff(logins[i].identity, logins[i].rules);
    }
    if i :| 0 <= i < |logins| && Reaches(t, logins, i, k) && Approves(logins[i].identity, logins[i].rules) {
      assert MatchesAt(t, logins, i, k);
    }
  }

  // ---- Logins and operators, cut between their read and their write ----

  /** A write of status and local lists that is decided but not yet done: the approval of a
      login, or the update of an operator who has read the row. */
  datatype Update = Update(key: SubjectKey, status: SubjectStatus, roles: seq<string>, groups: seq<string>)

  datatype AdmissionState = AdmissionState(table: SubjectTable, inFlight: multiset<Update>)

  /** What an operator asks to change; what is not asked for is written back as read. */
  datatype Change = Change(status: Option<SubjectStatus>, roles: Option<seq<string>>, groups: Option<seq<string>>)

  datatype AdmissionStep =
    | Arrive(login: Login)
    | Edit(target: SubjectKey, change: Change)
    | Write(update: Update)
    | SetStatus(target: SubjectKey, status: SubjectStatus)
    | Remove(target: SubjectKey)

  function OrElse<T>(asked: Option<T>, read: T): T {
    if asked.Some? then asked.value else read
  }

  /** The update that `UpdateSubject`, and with an active status `ApproveSubject`, prepares from the row it read. */
  function EditOf(row: Subject, k: SubjectKey, c: Change): Update {
    Update(k, OrElse(c.status, row.status),
           if c.roles.Some? then Unique(c.roles.value) else row.localRoles,
           if c.groups.Some? then Unique(c.groups.value) else row.localGroups)
  }

  ghost function ArrivalOf(l: Login, row: Subject): multiset<Update> {
    var p := PreviewOf(l.identity, Some(row), EnabledRules(l.rules));
    if row.status == PendingSubject && p.reason == AutoApproved then
      multiset{Update(LoginKey(l), ActiveSubject, p.identity.localRoles, p.identity.localGroups)}
    else multiset{}
  }

  ghost function StepOf(s: AdmissionState, step: AdmissionStep): AdmissionState {
    match step
    case Arrive(l) =>
      if !Admitted(s.table, l) then s
      else
        var row := SeenRow(s.table, DraftOf(l));
        AdmissionState(s.table[LoginKey(l) := row], s.inFlight + ArrivalOf(l, row))
    case Edit(k, c) =>
      if k in s.table then s.(inFlight := s.inFlight + multiset{EditOf(s.table[k], k, c)}) else s
    case Write(u) =>
      if u !in s.inFlight then s
      else
        AdmissionState(
          if u.key in s.table then s.table[u.key := Approved(s.table[u.key], u.status, u.roles, u.groups)] else s.table,
          s.inFlight - multiset{u})
    case SetStatus(k, status) =>
      if k in s.table then s.(table := s.table[k := s.table[k].(status := status)]) else s
    case Remove(k) => s.(table := s.table - {k})
  }

  ghost function StepsOf(s: AdmissionState, steps: seq<AdmissionStep>): AdmissionState {
    if steps == [] then s else StepOf(StepsOf(s, steps[..|steps| - 1]), steps[|steps| - 1])
  }

  /** The step is an operator's decision on `k` other than to keep it disabled. */
  predicate Reopens(step: AdmissionStep, k: SubjectKey) {
    match step
    case Edit(t, c) => t == k && c.status.Some? && c.status.value != DisabledSubject
    case SetStatus(t, status) => t == k && status != DisabledSubject
    case Remove(t) => t == k
    case _ => false
  }

  predicate NobodyReopens(steps: seq<AdmissionStep>, k: SubjectKey) {
    forall i | 0 <= i < |steps| :: !Reopens(steps[i], k)
  }

  /** An update is under way that will not leave `k` disabled. */
  ghost predicate Armed(s: AdmissionState, k: SubjectKey) {
    exists u :: u in s.inFlight && u.key == k && u.status != DisabledSubject
  }

  lemma ArrivalKeeps(t: SubjectTable, l: Login, k: SubjectKey)
    requires Admitted(t, l) && StatusIn(t, k) == DisabledSubject
    ensures
      var row := SeenRow(t, DraftOf(l));
      && StatusIn(t[LoginKey(l) := row], k) == DisabledSubject
      && forall u | u in ArrivalOf(l, row) :: u.key != k
  {
  }

  lemma DisarmedStep(s: AdmissionState, step: AdmissionStep, k: SubjectKey)
    requires StatusIn(s.table, k) == DisabledSubject && !Armed(s, k) && !Reopens(step, k)
    ensures StatusIn(StepOf(s, step).table, k) == DisabledSubject && !Armed(StepOf(s, step), k)
  {
    if step.Arrive? {
      if Admitted(s.table, step.login) {
        ArrivalKeeps(s.table, step.login, k);
      }
    } else {
      forall u | u in StepOf(s, step).inFlight && u.key == k ensures u.status == DisabledSubject {
        assert u in s.inFlight ==> !(u.status != DisabledSubject);
      }
    }
  }

  lemma {:induction false} DisarmedStays(s: AdmissionState, steps: seq<AdmissionStep>, k: SubjectKey)
    requires StatusIn(s.table, k) == DisabledSubject && !Armed(s, k) && NobodyReopens(steps, k)
    ensures StatusIn(StepsOf(s, steps).table, k) == DisabledSubject && !Armed(StepsOf(s, steps), k)
  {
    if steps != [] {
      DisarmedStays(s, steps[..|steps| - 1], k);
      DisarmedStep(StepsOf(s, steps[..|steps| - 1]), steps[|steps| - 1], k);
    }
  }

  ghost predicate CanReturn(s: AdmissionState, k: SubjectKey) {
    exists steps: seq<AdmissionStep> ::
      NobodyReopens(steps, k) && StatusIn(StepsOf(s, steps).table, k) != DisabledSubject
  }

  lemma OneAdmissionStep(s: AdmissionState, step: AdmissionStep)
    ensures StepsOf(s, [step]) == StepOf(s, step)
  {
    assert [step][..0] == [];
    assert StepsOf(s, []) == s;
  }

  /** What an update writes: the status, and the clean names of both lists, each once and in order. */
  lemma ApprovedColumns(row: Subject, status: SubjectStatus, roles: seq<string>, groups: seq<string>)
    ensures
      var u := Approved(row, status, roles, groups);
      && u.status == status && Stores(u.localRoles, roles) && Stores(u.localGroups, groups)
      && u.(status := row.status, localRoles := row.localRoles, localGroups := row.localGroups) == row
  {
    SortedStores(roles);
    SortedStores(groups);
  }

  lemma EditThenWrite(t: SubjectTable, k: SubjectKey, c: Change)
    requires k in t
    ensures
      var s, e := AdmissionState(t, multiset{}), EditOf(t[k], k, c);
      StepsOf(s, [Edit(k, c), Write(e)]).table == t[k := Approved(t[k], e.status, e.roles, e.groups)]
  {
    var s, e := AdmissionState(t, multiset{}), EditOf(t[k], k, c);
    ThreeSteps(s, Edit(k, c), Write(e), Write(e));
  }

  /** An operator's edit that nobody interferes with sets what it asks for, keeps the rest of the
      row, and leaves the other rows alone. */
  lemma EditWrites(t: SubjectTable, k: SubjectKey, c: Change)
    requires k in t
    ensures
      var s := AdmissionState(t, multiset{});
      var u := StepsOf(s, [Edit(k, c), Write(EditOf(t[k], k, c))]).table;
      && u.Keys == t.Keys && (forall j | j in t && j != k :: u[j] == t[j])
      && u[k].status == (if c.status.Some? then c.status.value else t[k].status)
      && Stores(u[k].localRoles, if c.roles.Some? then c.roles.value else t[k].localRoles)
      && Stores(u[k].localGroups, if c.groups.Some? then c.groups.value else t[k].localGroups)
      && u[k].(status := t[k].status, localRoles := t[k].localRoles, localGroups := t[k].localGroups) == t[k]
  {
    var e := EditOf(t[k], k, c);
    EditThenWrite(t, k, c);
    ApprovedColumns(t[k], e.status, e.roles, e.groups);
    if c.roles.Some? {
      StoresUnique(e.roles, c.roles.value, Sorted(CleanSet(e.roles)));
    }
    if c.groups.Some? {
      StoresUnique(e.groups, c.groups.value, Sorted(CleanSet(e.groups)));
    }
  }

  lemma StoresUnique(values: seq<string>, asked: seq<string>, column: seq<string>)
    requires values == Unique(asked) && column == Sorted(CleanSet(values))
    ensures Stores(column, asked)
  {
    CleanSetUnique(asked);
    SortedStores(asked);
  }

  /** A disabled subject can leave that status without any operator deciding so exactly when an
      update of it that carries another status, of a login or an operator, is still to be written. */
  lemma DisableIsLostIff(s: AdmissionState, k: SubjectKey)
    requires StatusIn(s.table, k) == DisabledSubject
    ensures CanReturn(s, k) <==> Armed(s, k)
  {
    if u :| u in s.inFlight && u.key == k && u.status != DisabledSubject {
      OneAdmissionStep(s, Write(u));
      assert NobodyReopens([Write(u)], k) && StatusIn(StepsOf(s, [Write(u)]).table, k) == u.status;
    } else {
      forall steps: seq<AdmissionStep> | NobodyReopens(steps, k)
        ensures StatusIn(StepsOf(s, steps).table, k) == DisabledSubject
      {
        DisarmedStays(s, steps, k);
      }
    }
  }

  lemma ThreeSteps(s: AdmissionState, a: AdmissionStep, b: AdmissionStep, c: AdmissionStep)
    ensures StepsOf(s, [a, b]) == StepOf(StepOf(s, a), b)
    ensures StepsOf(s, [a, b, c]) == StepOf(StepOf(StepOf(s, a), b), c)
  {
    OneAdmissionStep(s, a);
    assert [a, b][..1] == [a] && [a, b, c][..2] == [a, b];
  }

  lemma ArrivalApproves(t: SubjectTable, l: Login) returns (u: Update)
    requires Admitted(t, l) && StatusIn(t, LoginKey(l)) == PendingSubject && SomeRule(l.identity, l.rules)
    ensures u in ArrivalOf(l, SeenRow(t, DraftOf(l))) && u.key == LoginKey(l) && u.status == ActiveSubject
  {
    var row := SeenRow(t, DraftOf(l));
    EnabledPreview(l.identity, Some(row), l.rules);
    ApprovedIff(l.identity, l.rules);
    var p := PreviewOf(l.identity, Some(row), EnabledRules(l.rules));
    u := Update(LoginKey(l), ActiveSubject, p.identity.localRoles, p.identity.localGroups);
  }

  lemma WriteUndoes(s: AdmissionState, u: Update)
    requires u in s.inFlight && u.key in s.table
    ensures
      var d := StepOf(s, SetStatus(u.key, DisabledSubject));
      StatusIn(d.table, u.key) == DisabledSubject && StatusIn(StepOf(d, Write(u)).table, u.key) == u.status
  {
  }

  /** Such a state is reached from any admitted login of a pending subject that a rule matches:
      an operator disables the subject before the approval is written, and the approval undoes it. */
  lemma LoginLosesDisable(t: SubjectTable, l: Login)
    requires Admitted(t, l) && StatusIn(t, LoginKey(l)) == PendingSubject && SomeRule(l.identity, l.rules)
    ensures exists u: Update ::
      var k, s := LoginKey(l), AdmissionState(t, multiset{});
      && StatusIn(StepsOf(s, [Arrive(l), SetStatus(k, DisabledSubject)]).table, k) == DisabledSubject
      && StatusIn(StepsOf(s, [Arrive(l), SetStatus(k, DisabledSubject), Write(u)]).table, k) == ActiveSubject
  {
    var k, s := LoginKey(l), AdmissionState(t, multiset{});
    var u := ArrivalApproves(t, l);
    var arrived := StepOf(s, Arrive(l));
    assert u in arrived.inFlight && k in arrived.table;
    WriteUndoes(arrived, u);
    ThreeSteps(s, Arrive(l), SetStatus(k, DisabledSubject), Write(u));
  }

  /** And from any active subject: an operator who edits only its roles read it as active, and
      writes that back over a disable made in between. */
  lemma EditLosesDisable(t: SubjectTable, k: SubjectKey, roles: seq<string>)
    requires k in t && t[k].status == ActiveSubject
    ensures
      var s, c := AdmissionState(t, multiset{}), Change(None, Some(roles), None);
      var edit, write := Edit(k, c), Write(EditOf(t[k], k, c));
      && StatusIn(StepsOf(s, [edit, SetStatus(k, DisabledSubject)]).table, k) == DisabledSubject
      && StatusIn(StepsOf(s, [edit, SetStatus(k, DisabledSubject), write]).table, k) == ActiveSubject
  {
    var s, c := AdmissionState(t, multiset{}), Change(None, Some(roles), None);
    assert EditOf(t[k], k, c) in StepOf(s, Edit(k, c)).inFlight;
    ThreeSteps(s, Edit(k, c), SetStatus(k, DisabledSubject), Write(EditOf(t[k], k, c)));
  }
}
