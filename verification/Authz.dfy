/** Permission bindings: which requests an identity may make. */
module Authz {
  import opened Text
  import opened Ordered

  datatype Identity = Identity(
    authMethod: string, superuser: bool, issuer: string, subject: string, username: string, email: string,
    roles: seq<string>, groups: seq<string>, localRoles: seq<string>, localGroups: seq<string>,
    principals: seq<string>)

  datatype Binding = Binding(
    id: string, enabled: bool, principal: string, permission: string, resourceKind: string, resourceRef: string)

  datatype Request = Request(permission: string, resourceKind: string, resourceRef: string)

  const SUPERUSER_BINDING := Binding("superuser", true, "superuser", "*", "", "")

  /** `matchesScope`. */
  predicate MatchesScope(bindingValue: string, requestValue: string) {
    Trim(bindingValue) in {"", "*"} || Trim(bindingValue) == Trim(requestValue)
  }

  /** A blank or starred scope matches every request and no other scope does; any other
      scope matches exactly the requests that equal it up to padding. */
  lemma ScopeExact(scope: string, request: string, pre: string, post: string)
    requires AllSpace(pre) && AllSpace(post)
    ensures (forall r: string :: MatchesScope(scope, r)) <==> Trim(scope) in {"", "*"}
    ensures Trim(scope) !in {"", "*"} ==> MatchesScope(scope, pre + Trim(scope) + post)
    ensures MatchesScope(pre + scope + post, request) <==> MatchesScope(scope, request)
    ensures MatchesScope(scope, pre + request + post) <==> MatchesScope(scope, request)
  {
    TrimPadding(pre, scope, post);
    TrimPadding(pre, request, post);
    TrimTrimmed(scope);
    TrimFixed(Trim(scope));
    TrimPadding(pre, Trim(scope), post);
    TrimFixed("");
    assert MatchesScope(scope, "") <==> Trim(scope) in {"", "*"};
  }

  predicate Matches(b: Binding, principals: set<string>, req: Request) {
    && b.enabled
    && b.principal in principals
    && (b.permission == "*" || b.permission == req.permission)
    && MatchesScope(b.resourceKind, req.resourceKind)
    && MatchesScope(b.resourceRef, req.resourceRef)
  }

  /** The decision, stated without an order on bindings or principals. */
  ghost predicate Permitted(identity: Identity, bindings: seq<Binding>, req: Request) {
    identity.superuser || exists b :: b in bindings && Matches(b, Elems(identity.principals), req)
  }

  function MatchingOf(bindings: seq<Binding>, principals: set<string>, req: Request): seq<Binding> {
    if bindings == [] then []
    else
      var b := bindings[|bindings| - 1];
      MatchingOf(bindings[..|bindings| - 1], principals, req) + if Matches(b, principals, req) then [b] else []
  }

  lemma MatchingNext(bindings: seq<Binding>, principals: set<string>, req: Request, i: nat)
    requires i < |bindings|
    ensures MatchingOf(bindings[..i + 1], principals, req) ==
            MatchingOf(bindings[..i], principals, req) + if Matches(bindings[i], principals, req) then [bindings[i]] else []
  {
    assert bindings[..i + 1][..i] == bindings[..i];
  }

  lemma {:induction false} MatchingExact(bindings: seq<Binding>, principals: set<string>, req: Request)
    ensures forall b :: b in MatchingOf(bindings, principals, req) <==> b in bindings && Matches(b, principals, req)
  {
    if bindings != [] {
      MatchingExact(bindings[..|bindings| - 1], principals, req);
      assert bindings == bindings[..|bindings| - 1] + [bindings[|bindings| - 1]];
    }
  }

  method MatchingBindings(identity: Identity, bindings: seq<Binding>, req: Request) returns (matched: seq<Binding>)
    ensures matched ==
      if identity.superuser then [SUPERUSER_BINDING] else MatchingOf(bindings, Elems(identity.principals), req)
  {
    if identity.superuser {
      return [SUPERUSER_BINDING];
    }
    var principals := CollectPrincipals(identity);
    matched := [];
    for i := 0 to |bindings|
      invariant matched == MatchingOf(bindings[..i], principals, req)
    {
      MatchingNext(bindings, principals, req, i);
      var binding := bindings[i];
      if !binding.enabled {
        continue;
      }
      if binding.principal !in principals {
        continue;
      }
      if binding.permission != "*" && binding.permission != req.permission {
        continue;
      }
      if !MatchesScope(binding.resourceKind, req.resourceKind) {
        continue;
      }
      if !MatchesScope(binding.resourceRef, req.resourceRef) {
        continue;
      }
      matched := matched + [binding];
    }
    assert bindings[..|bindings|] == bindings;
  }

  method CollectPrincipals(identity: Identity) returns (principals: set<string>)
    ensures principals == Elems(identity.principals)
  {
    principals := {};
    for i := 0 to |identity.principals|
      invariant principals == Elems(identity.principals[..i])
    {
      assert identity.principals[..i + 1] == identity.principals[..i] + [identity.principals[i]];
      ElemsConcat(identity.principals[..i], [identity.principals[i]]);
      principals := principals + {identity.principals[i]};
    }
    assert identity.principals[..|identity.principals|] == identity.principals;
  }

  /** The loop and the list it returns decide exactly the declarative statement. */
  method Allowed(identity: Identity, bindings: seq<Binding>, req: Request) returns (ok: bool)
    ensures ok <==> Permitted(identity, bindings, req)
  {
    var matched := MatchingBindings(identity, bindings, req);
    MatchingExact(bindings, Elems(identity.principals), req);
    assert |matched| > 0 ==> matched[0] in matched;
    return |matched| > 0;
  }

  // ---- The decision sees only sets, and grows with them ----

  ghost predicate Covers(a: seq<Binding>, b: seq<Binding>) {
    forall x :: x in b ==> x in a
  }

  /** More principals or more bindings never take a permission away. */
  lemma PermittedMonotone(p: Identity, q: Identity, bs: seq<Binding>, cs: seq<Binding>, req: Request)
    requires p.superuser == q.superuser && Elems(p.principals) <= Elems(q.principals) && Covers(cs, bs)
    requires Permitted(p, bs, req)
    ensures Permitted(q, cs, req)
  {
    if !p.superuser {
      var b :| b in bs && Matches(b, Elems(p.principals), req);
      assert b in cs && Matches(b, Elems(q.principals), req);
    }
  }

  /** Order and repetition of bindings and principals do not matter. */
  lemma PermittedSameSets(p: Identity, q: Identity, bs: seq<Binding>, cs: seq<Binding>, req: Request)
    requires p.superuser == q.superuser && Elems(p.principals) == Elems(q.principals)
    requires Covers(bs, cs) && Covers(cs, bs)
    ensures Permitted(p, bs, req) <==> Permitted(q, cs, req)
  {
    if Permitted(p, bs, req) {
      PermittedMonotone(p, q, bs, cs, req);
    }
    if Permitted(q, cs, req) {
      PermittedMonotone(q, p, cs, bs, req);
    }
  }

  /** A scope is open, or names what is asked for up to padding. */
  predicate InScope(scope: string, asked: string) {
    Trim(scope) == "" || Trim(scope) == "*" || Trim(scope) == Trim(asked)
  }

  /** An identity that is not a superuser may do what some binding says that is switched on,
      belongs to one of its principals, names the permission or all of them, and is in scope. */
  lemma PermittedInFields(identity: Identity, bindings: seq<Binding>, req: Request)
    ensures Permitted(identity, bindings, req) <==>
            || identity.superuser
            || exists i, j ::
                 && 0 <= i < |bindings| && 0 <= j < |identity.principals|
                 && bindings[i].enabled && bindings[i].principal == identity.principals[j]
                 && bindings[i].permission in {"*", req.permission}
                 && InScope(bindings[i].resourceKind, req.resourceKind)
                 && InScope(bindings[i].resourceRef, req.resourceRef)
  {
    var held := Elems(identity.principals);
    if b :| b in bindings && Matches(b, held, req) {
      var i :| 0 <= i < |bindings| && bindings[i] == b;
      assert b.principal in identity.principals;
      var j :| 0 <= j < |identity.principals| && identity.principals[j] == b.principal;
    }
    if i, j :|
      && 0 <= i < |bindings| && 0 <= j < |identity.principals|
      && bindings[i].enabled && bindings[i].principal == identity.principals[j]
      && bindings[i].permission in {"*", req.permission}
      && InScope(bindings[i].resourceKind, req.resourceKind)
      && InScope(bindings[i].resourceRef, req.resourceRef)
    {
      assert bindings[i] in bindings && Matches(bindings[i], held, req);
    }
  }

  // ---- Effective permissions ----

  predicate Grants(b: Binding, principals: set<string>) {
    b.enabled && b.principal in principals
  }

  function GrantedOf(bindings: seq<Binding>, principals: set<string>): set<string> {
    set b | b in bindings && Grants(b, principals) :: b.permission
  }

  ghost function EffectiveOf(identity: Identity, bindings: seq<Binding>): seq<string> {
    if identity.superuser then ["*"] else Sorted(GrantedOf(bindings, Elems(identity.principals)))
  }

  method EffectivePermissions(identity: Identity, bindings: seq<Binding>) returns (out: seq<string>)
    ensures out == EffectiveOf(identity, bindings)
    ensures StrictlySorted(out)
  {
    if identity.superuser {
      return ["*"];
    }
    var principals := CollectPrincipals(identity);
    var permissions: set<string> := {};
    for i := 0 to |bindings|
      invariant permissions == GrantedOf(bindings[..i], principals)
    {
      var binding := bindings[i];
      assert bindings[..i + 1] == bindings[..i] + [binding];
      GrantedSnoc(bindings[..i], binding, principals);
      if binding.enabled && binding.principal in principals {
        permissions := permissions + {binding.permission};
      }
    }
    assert bindings[..|bindings|] == bindings;
    out := SortedKeys(permissions);
  }

  lemma GrantedSnoc(bindings: seq<Binding>, b: Binding, principals: set<string>)
    ensures GrantedOf(bindings + [b], principals) ==
            GrantedOf(bindings, principals) + if Grants(b, principals) then {b.permission} else {}
  {
    assert forall x :: x in bindings + [b] <==> x in bindings || x == b;
  }

  /** The list says exactly which permissions some request can be granted under:
      a permission, or the wildcard, is listed if and only if there is a resource for
      which the request is permitted. */
  lemma EffectiveExact(identity: Identity, bindings: seq<Binding>, permission: string)
    ensures permission in EffectiveOf(identity, bindings) || "*" in EffectiveOf(identity, bindings) <==>
            exists kind: string, ref: string :: Permitted(identity, bindings, Request(permission, kind, ref))
  {
    var principals := Elems(identity.principals);
    if identity.superuser {
      assert Permitted(identity, bindings, Request(permission, "", ""));
    } else {
      var listed := EffectiveOf(identity, bindings);
      var granted := GrantedOf(bindings, principals);
      assert permission in listed <==> permission in Elems(listed);
      assert "*" in listed <==> "*" in Elems(listed);
      if permission in granted || "*" in granted {
        var b :| b in bindings && Grants(b, principals) && b.permission in {permission, "*"};
        var req := Request(permission, b.resourceKind, b.resourceRef);
        assert Matches(b, principals, req);
        assert Permitted(identity, bindings, req);
      }
      forall kind: string, ref: string | Permitted(identity, bindings, Request(permission, kind, ref))
        ensures permission in granted || "*" in granted
      {
        var b :| b in bindings && Matches(b, principals, Request(permission, kind, ref));
        assert b.permission in granted;
      }
    }
  }
}
