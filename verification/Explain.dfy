/** `explain-authz` against the server: a one-off verifier and a pure preview on one side,
    a long-lived key cache and stored subject rows on the other. */
module Explain {
  import opened Text
  import opened Ordered
  import opened Tables
  import opened Authz
  import opened Admission
  import opened Subjects
  import opened Verifier

  // ---- What the command prints ----

  datatype Explanation = Explanation(
    status: SubjectStatus, identity: Identity, wouldBeAllowedNow: bool,
    effective: seq<string>, matching: seq<Binding>)

  function UnscopedRequest(permission: string): Request {
    Request(permission, "", "")
  }

  /** The bindings matched by each listed permission in turn, without a resource. */
  function ListedFor(identity: Identity, bindings: seq<Binding>, permissions: seq<string>): seq<Binding> {
    if permissions == [] then []
    else
      var n := |permissions| - 1;
      ListedFor(identity, bindings, permissions[..n]) +
      if identity.superuser then [SUPERUSER_BINDING]
      else MatchingOf(bindings, Elems(identity.principals), UnscopedRequest(permissions[n]))
  }

  ghost function ExplanationOf(identity: Identity, rec: Option<Subject>, rules: seq<Rule>, bindings: seq<Binding>)
    : Explanation
  {
    var p := PreviewOf(identity, rec, rules);
    Explanation(p.status, p.identity, p.status == ActiveSubject, EffectiveOf(p.identity, bindings),
                ListedFor(p.identity, bindings, EffectiveOf(p.identity, bindings)))
  }

  method ExplainAuthz(identity: Identity, rec: Option<Subject>, rules: seq<Rule>, bindings: seq<Binding>)
    returns (e: Explanation)
    ensures e == ExplanationOf(identity, rec, rules, bindings)
  {
    var preview := PreviewSubjectAccess(identity, rec, rules);
    var effective := EffectivePermissions(preview.identity, bindings);
    var matching: seq<Binding> := [];
    for i := 0 to |effective|
      invariant matching == ListedFor(preview.identity, bindings, effective[..i])
    {
      assert effective[..i + 1][..i] == effective[..i];
      var matched := MatchingBindings(preview.identity, bindings, UnscopedRequest(effective[i]));
      matching := matching + matched;
    }
    assert effective[..|effective|] == effective;
    return Explanation(preview.status, preview.identity, preview.status == ActiveSubject, effective, matching);
  }

  // ---- Which bindings it lists ----

  predicate Unscoped(b: Binding) {
    Trim(b.resourceKind) in {"", "*"} && Trim(b.resourceRef) in {"", "*"}
  }

  lemma UnscopedMatches(b: Binding, principals: set<string>, permission: string)
    ensures Matches(b, principals, UnscopedRequest(permission)) <==>
            Grants(b, principals) && Unscoped(b) && (b.permission == "*" || b.permission == permission)
  {
    TrimFixed("");
  }

  lemma {:induction false} MatchingCount(bindings: seq<Binding>, principals: set<string>, req: Request, b: Binding)
    ensures multiset(MatchingOf(bindings, principals, req))[b] ==
            if Matches(b, principals, req) then multiset(bindings)[b] else 0
  {
    if bindings != [] {
      var n := |bindings| - 1;
      MatchingCount(bindings[..n], principals, req, b);
      assert bindings == bindings[..n] + [bindings[n]];
    }
  }

  /** How often a permission of the list matches that of the binding. */
  function Calls(b: Binding, permissions: seq<string>): nat {
    if permissions == [] then 0
    else
      var n := |permissions| - 1;
      Calls(b, permissions[..n]) + if b.permission == "*" || b.permission == permissions[n] then 1 else 0
  }

  lemma {:induction false} CallsExact(b: Binding, permissions: seq<string>)
    ensures Calls(b, permissions) == if b.permission == "*" then |permissions| else multiset(permissions)[b.permission]
  {
    if permissions != [] {
      var n := |permissions| - 1;
      CallsExact(b, permissions[..n]);
      assert permissions == permissions[..n] + [permissions[n]];
    }
  }

  lemma ListedStep(identity: Identity, bindings: seq<Binding>, permissions: seq<string>, b: Binding)
    requires !identity.superuser && permissions != []
    ensures
      var n := |permissions| - 1;
      multiset(ListedFor(identity, bindings, permissions))[b] ==
      multiset(ListedFor(identity, bindings, permissions[..n]))[b] +
      if Grants(b, Elems(identity.principals)) && Unscoped(b)
         && (b.permission == "*" || b.permission == permissions[n]) then multiset(bindings)[b] else 0
  {
    var n, principals := |permissions| - 1, Elems(identity.principals);
    MatchingCount(bindings, principals, UnscopedRequest(permissions[n]), b);
    UnscopedMatches(b, principals, permissions[n]);
  }

  function Repeats(c: nat, b: Binding, permissions: seq<string>): nat {
    if permissions == [] then 0
    else
      var n := |permissions| - 1;
      Repeats(c, b, permissions[..n]) + if b.permission == "*" || b.permission == permissions[n] then c else 0
  }

  lemma {:induction false} RepeatsIsProduct(c: nat, b: Binding, permissions: seq<string>)
    ensures Repeats(c, b, permissions) == c * Calls(b, permissions)
  {
    if permissions != [] {
      var k := Calls(b, permissions[..|permissions| - 1]);
      RepeatsIsProduct(c, b, permissions[..|permissions| - 1]);
      assert c * (k + 1) == c * k + c;
    }
  }

  lemma {:induction false} ListedCount(identity: Identity, bindings: seq<Binding>, permissions: seq<string>, b: Binding)
    requires !identity.superuser
    ensures multiset(ListedFor(identity, bindings, permissions))[b] ==
            if Grants(b, Elems(identity.principals)) && Unscoped(b) then
              Repeats(multiset(bindings)[b], b, permissions)
            else 0
  {
    if permissions != [] {
      ListedCount(identity, bindings, permissions[..|permissions| - 1], b);
      ListedStep(identity, bindings, permissions, b);
    }
  }

  lemma {:induction false} SortedCount(s: seq<string>, x: string)
    requires StrictlySorted(s)
    ensures multiset(s)[x] == if x in s then 1 else 0
  {
    if s != [] {
      var n := |s| - 1;
      SortedCount(s[..n], x);
      assert s == s[..n] + [s[n]];
      assert forall i | 0 <= i < n :: Less(s[i], s[n]);
    }
  }

  /** Listed are exactly the enabled bindings of a held principal that name no resource, each
      once, and the starred ones once for every listed permission. A binding scoped to a
      resource is never listed, though the server honours it there. */
  lemma ListedBindingsExact(identity: Identity, bindings: seq<Binding>, b: Binding)
    requires !identity.superuser
    ensures
      var effective := EffectiveOf(identity, bindings);
      var held := Grants(b, Elems(identity.principals));
      && multiset(ListedFor(identity, bindings, effective))[b] ==
           (if held && Unscoped(b) then multiset(bindings)[b] * (if b.permission == "*" then |effective| else 1) else 0)
      && (held && b in bindings ==> Permitted(identity, bindings, Request(b.permission, b.resourceKind, b.resourceRef)))
  {
    var principals, effective := Elems(identity.principals), EffectiveOf(identity, bindings);
    ListedCount(identity, bindings, effective, b);
    RepeatsIsProduct(multiset(bindings)[b], b, effective);
    CallsExact(b, effective);
    if b in bindings && Grants(b, principals) {
      assert b.permission in GrantedOf(bindings, principals);
      assert b.permission in effective <==> b.permission in Elems(effective);
      SortedCount(effective, b.permission);
      assert Matches(b, principals, Request(b.permission, b.resourceKind, b.resourceRef));
    } else {
      assert b !in bindings ==> multiset(bindings)[b] == 0;
    }
  }

  // ---- Against the server ----

  /** The printed answer is the server's for a request exactly if the subject is not active, or
      the request is permitted: an active subject without a matching binding is told that it
      would be allowed, and refused. */
  lemma PrintedAnswerIff(t: SubjectTable, l: Login, bindings: seq<Binding>, req: Request)
    requires Admitted(t, l)
    requires l.identity.localRoles == [] && l.identity.localGroups == []
    ensures
      var e := ExplanationOf(l.identity, Lookup(t, LoginKey(l)), l.rules, bindings);
      e.wouldBeAllowedNow == LoginDecision(t, l, bindings, req).Accepted? <==>
      e.status != ActiveSubject || Permitted(e.identity, bindings, req)
  {
    PreviewPredictsLogin(t, l, bindings, req);
  }

  /** Whatever the server has cached, and whatever either side fetches: once both accept the
      token they hold the same identity, and the explanation names the status, the local grants
      and the principals of the login, and the permissions the login could use. */
  lemma ExplanationMatchesServer(c: Cache, token: Token, issuer: Issuer,
                                 first: Option<seq<Key>>, second: Option<seq<Key>>, now: int,
                                 first': Option<seq<Key>>, second': Option<seq<Key>>, now': int,
                                 table: SubjectTable, id: string, rules: seq<Rule>, bindings: seq<Binding>)
    requires VerdictOf(map[], token, issuer, first, second, now).Verified?
    requires VerdictOf(c, token, issuer, first', second', now').Verified?
    requires
      var l := Login(id, VerdictOf(c, token, issuer, first', second', now').identity, rules);
      Admitted(table, l)
    ensures
      var explained := VerdictOf(map[], token, issuer, first, second, now).identity;
      var l := Login(id, VerdictOf(c, token, issuer, first', second', now').identity, rules);
      var p := PreviewOf(explained, Lookup(table, LoginKey(l)), rules);
      var q := ResolvedPreview(SeenRow(table, DraftOf(l)), l.identity, rules);
      var e := ExplanationOf(explained, Lookup(table, LoginKey(l)), rules, bindings);
      && explained == l.identity
      && e.status == p.status && e.identity == p.identity
      && SameAccess(p, q) && SamePrincipals(p, q)
      && e.effective == EffectiveOf(q.identity, bindings)
  {
    IdentityIsUnique(map[], token, issuer, first, second, now);
    IdentityIsUnique(c, token, issuer, first', second', now');
    PreviewPredictsLogin(table, Login(id, IdentityOf(token, issuer), rules), bindings, Request("", "", ""));
  }
}
