/** Principal strings: how an identity's claims and its local roles are printed,
    and how the doctor reads an issuer back out of a printed principal. */
module Principals {
  import opened Text
  import opened Ordered
  import opened Tables

  datatype Family = Sub | Role | Group

  function Tag(f: Family): string {
    match f
    case Sub => "sub:"
    case Role => "role:"
    case Group => "group:"
  }

  const LOCAL_ROLE := "local_role:"
  const LOCAL_GROUP := "local_group:"
  const SUPERUSER := "superuser"

  function Print(f: Family, issuer: string, value: string): string {
    Tag(f) + (issuer + (":" + value))
  }

  // ---- What the two printers build ----

  function PrintAll(f: Family, issuer: string, values: seq<string>): (r: seq<string>)
    ensures |r| == |values|
  {
    seq(|values|, i requires 0 <= i < |values| => Print(f, issuer, values[i]))
  }

  function PrincipalsOf(issuer: string, subject: string, roles: seq<string>, groups: seq<string>): seq<string> {
    Unique([Print(Sub, issuer, subject)] + PrintAll(Role, issuer, roles) + PrintAll(Group, issuer, groups))
  }

  method PrincipalsFor(issuer: string, subject: string, roles: seq<string>, groups: seq<string>)
    returns (out: seq<string>)
    ensures out == PrincipalsOf(issuer, subject, roles, groups)
  {
    var principals := [Print(Sub, issuer, subject)];
    for i := 0 to |roles|
      invariant principals == [Print(Sub, issuer, subject)] + PrintAll(Role, issuer, roles[..i])
    {
      principals := principals + [Print(Role, issuer, roles[i])];
    }
    assert roles[..|roles|] == roles;
    for i := 0 to |groups|
      invariant principals ==
        [Print(Sub, issuer, subject)] + PrintAll(Role, issuer, roles) + PrintAll(Group, issuer, groups[..i])
    {
      principals := principals + [Print(Group, issuer, groups[i])];
    }
    assert groups[..|groups|] == groups;
    out := UniqueStrings(principals);
  }

  /** `prefix` before each trimmed value that is not blank. */
  function Prefixed(prefix: string, values: seq<string>): seq<string> {
    if values == [] then []
    else
      var v := Trim(values[|values| - 1]);
      Prefixed(prefix, values[..|values| - 1]) + if v == "" then [] else [prefix + v]
  }

  function LocalPrincipalsOf(roles: seq<string>, groups: seq<string>): seq<string> {
    Unique(Prefixed(LOCAL_ROLE, roles) + Prefixed(LOCAL_GROUP, groups))
  }

  lemma PrefixedNext(prefix: string, values: seq<string>, i: nat)
    requires i < |values|
    ensures Prefixed(prefix, values[..i + 1]) ==
            Prefixed(prefix, values[..i]) + if Trim(values[i]) == "" then [] else [prefix + Trim(values[i])]
  {
    assert values[..i + 1][..i] == values[..i];
  }

  method LocalPrincipals(localRoles: seq<string>, localGroups: seq<string>) returns (out: seq<string>)
    ensures out == LocalPrincipalsOf(localRoles, localGroups)
  {
    var principals: seq<string> := [];
    for i := 0 to |localRoles|
      invariant principals == Prefixed(LOCAL_ROLE, localRoles[..i])
    {
      PrefixedNext(LOCAL_ROLE, localRoles, i);
      var role := Trim(localRoles[i]);
      if role != "" {
        principals := principals + [LOCAL_ROLE + role];
      }
    }
    assert localRoles[..|localRoles|] == localRoles;
    for i := 0 to |localGroups|
      invariant principals == Prefixed(LOCAL_ROLE, localRoles) + Prefixed(LOCAL_GROUP, localGroups[..i])
    {
      PrefixedNext(LOCAL_GROUP, localGroups, i);
      var group := Trim(localGroups[i]);
      if group != "" {
        principals := principals + [LOCAL_GROUP + group];
      }
    }
    assert localGroups[..|localGroups|] == localGroups;
    out := UniqueStrings(principals);
  }

  // ---- The sets they denote ----

  predicate PrintedIn(p: string, prefix: string, names: set<string>) {
    prefix <= p && p[|prefix|..] in names
  }

  lemma {:induction false} PrefixedExact(prefix: string, values: seq<string>, p: string)
    ensures p in Prefixed(prefix, values) <==> PrintedIn(p, prefix, CleanSet(values))
  {
    if values != [] {
      var rest, v := values[..|values| - 1], values[|values| - 1];
      assert values == rest + [v];
      PrefixedExact(prefix, rest, p);
      CleanSetSnoc(rest, v);
      assert p == prefix + Trim(v) <==> prefix <= p && p[|prefix|..] == Trim(v);
    }
  }

  lemma PrintedTrimmed(prefix: string, v: string)
    requires prefix != "" && !IsSpace(prefix[0]) && v != "" && Trimmed(v)
    ensures Trimmed(prefix + v)
  {
    var s := prefix + v;
    assert s[0] == prefix[0] && s[|s| - 1] == v[|v| - 1];
  }

  lemma PrefixedClean(prefix: string, values: seq<string>)
    requires prefix != "" && !IsSpace(prefix[0])
    ensures Clean(Prefixed(prefix, values))
  {
    forall p | p in Prefixed(prefix, values) ensures p != "" && Trimmed(p) {
      PrefixedExact(prefix, values, p);
      var v := p[|prefix|..];
      assert v in CleanSet(values);
      var i :| 0 <= i < |values| && Trim(values[i]) == v;
      TrimTrimmed(values[i]);
      assert p == prefix + v;
      PrintedTrimmed(prefix, v);
    }
  }

  /** A local principal is listed exactly for each clean local role and group, so
      the list as a set does not see order, padding or repetition. */
  lemma LocalPrincipalsExact(roles: seq<string>, groups: seq<string>, p: string)
    ensures p in LocalPrincipalsOf(roles, groups) <==>
            PrintedIn(p, LOCAL_ROLE, CleanSet(roles)) || PrintedIn(p, LOCAL_GROUP, CleanSet(groups))
  {
    var all := Prefixed(LOCAL_ROLE, roles) + Prefixed(LOCAL_GROUP, groups);
    PrefixedExact(LOCAL_ROLE, roles, p);
    PrefixedExact(LOCAL_GROUP, groups, p);
    PrefixedClean(LOCAL_ROLE, roles);
    PrefixedClean(LOCAL_GROUP, groups);
    assert Clean(all);
    UniqueElems(all);
    CleanSetOfClean(all);
    assert p in LocalPrincipalsOf(roles, groups) <==> p in Elems(LocalPrincipalsOf(roles, groups));
  }

  lemma LocalPrincipalsSameSet(r0: seq<string>, g0: seq<string>, r1: seq<string>, g1: seq<string>)
    requires CleanSet(r0) == CleanSet(r1) && CleanSet(g0) == CleanSet(g1)
    ensures Elems(LocalPrincipalsOf(r0, g0)) == Elems(LocalPrincipalsOf(r1, g1))
  {
    forall p ensures p in LocalPrincipalsOf(r0, g0) <==> p in LocalPrincipalsOf(r1, g1) {
      LocalPrincipalsExact(r0, g0, p);
      LocalPrincipalsExact(r1, g1, p);
    }
  }

  predicate Holds(values: seq<string>, f: Family, issuer: string, p: string) {
    exists i | 0 <= i < |values| :: p == Print(f, issuer, values[i])
  }

  /** For the trimmed claims a verified token yields, the principals are exactly
      the printed subject, roles and groups. */
  lemma PrincipalsExact(issuer: string, subject: string, roles: seq<string>, groups: seq<string>, p: string)
    requires Clean([subject]) && Clean(roles) && Clean(groups)
    ensures p in PrincipalsOf(issuer, subject, roles, groups) <==>
            || p == Print(Sub, issuer, subject)
            || Holds(roles, Role, issuer, p)
            || Holds(groups, Group, issuer, p)
    ensures Clean(PrincipalsOf(issuer, subject, roles, groups))
  {
    var all := [Print(Sub, issuer, subject)] + PrintAll(Role, issuer, roles) + PrintAll(Group, issuer, groups);
    assert subject in [subject];
    PrintedClean(Sub, issuer, subject);
    PrintAllClean(Role, issuer, roles);
    PrintAllClean(Group, issuer, groups);
    assert Clean(all);
    UniqueIsClean(all);
    UniqueElems(all);
    CleanSetOfClean(all);
    assert p in PrincipalsOf(issuer, subject, roles, groups) <==> p in Elems(all);
    PrintAllExact(Role, issuer, roles, p);
    PrintAllExact(Group, issuer, groups, p);
  }

  /** One of the values, put after `start`, gives the principal. */
  ghost predicate Gives(start: string, values: seq<string>, p: string) {
    exists i :: 0 <= i < |values| && p == Trim(start + values[i])
  }

  ghost predicate GivenPrincipal(issuer: string, subject: string, roles: seq<string>, groups: seq<string>, p: string) {
    || p == Trim("sub:" + issuer + ":" + subject)
    || Gives("role:" + issuer + ":", roles, p)
    || Gives("group:" + issuer + ":", groups, p)
  }

  lemma PrintAllGives(f: Family, issuer: string, values: seq<string>, p: string)
    ensures (exists i :: 0 <= i < |values| && Trim(PrintAll(f, issuer, values)[i]) == p) <==>
            Gives(Tag(f) + issuer + ":", values, p)
  {
    forall i | 0 <= i < |values| ensures PrintAll(f, issuer, values)[i] == Tag(f) + issuer + ":" + values[i] {
    }
  }

  lemma NeverBlank(s: string, rest: string)
    requires s != "" && !IsSpace(s[0])
    ensures Trim(s + rest) != ""
  {
    BlankTrims(s + rest);
    assert (s + rest)[0] == s[0];
  }

  /** Whatever the claims hold, the principals are the printed subject, roles and groups, trimmed. */
  lemma PrincipalsGiven(issuer: string, subject: string, roles: seq<string>, groups: seq<string>, p: string)
    ensures p in PrincipalsOf(issuer, subject, roles, groups) <==> GivenPrincipal(issuer, subject, roles, groups, p)
  {
    var sub, byRole, byGroup := [Print(Sub, issuer, subject)], PrintAll(Role, issuer, roles), PrintAll(Group, issuer, groups);
    UniqueElems(sub + byRole + byGroup);
    CleanSetConcat(sub + byRole, byGroup);
    CleanSetConcat(sub, byRole);
    CleanMember(sub, p);
    CleanMember(byRole, p);
    CleanMember(byGroup, p);
    PrintAllGives(Role, issuer, roles, p);
    PrintAllGives(Group, issuer, groups, p);
    if GivenPrincipal(issuer, subject, roles, groups, p) {
      GivenNotBlank(issuer, subject, roles, groups, p);
    }
    assert Print(Sub, issuer, subject) == "sub:" + issuer + ":" + subject;
    assert sub[0] == Print(Sub, issuer, subject);
    var all := PrincipalsOf(issuer, subject, roles, groups);
    assert p in all <==> p in Elems(all);
  }

  lemma GivenNotBlank(issuer: string, subject: string, roles: seq<string>, groups: seq<string>, p: string)
    requires GivenPrincipal(issuer, subject, roles, groups, p)
    ensures p != ""
  {
    if p == Trim("sub:" + issuer + ":" + subject) {
      NeverBlank("sub:" + issuer + ":", subject);
    } else if Gives("role:" + issuer + ":", roles, p) {
      var i :| 0 <= i < |roles| && p == Trim("role:" + issuer + ":" + roles[i]);
      NeverBlank("role:" + issuer + ":", roles[i]);
    } else {
      var i :| 0 <= i < |groups| && p == Trim("group:" + issuer + ":" + groups[i]);
      NeverBlank("group:" + issuer + ":", groups[i]);
    }
  }

  lemma PrintAllExact(f: Family, issuer: string, values: seq<string>, p: string)
    ensures p in PrintAll(f, issuer, values) <==> Holds(values, f, issuer, p)
  {
    var printed := PrintAll(f, issuer, values);
    if Holds(values, f, issuer, p) {
      var i :| 0 <= i < |values| && p == Print(f, issuer, values[i]);
      assert printed[i] == p;
    }
  }

  lemma PrintedClean(f: Family, issuer: string, value: string)
    requires value != "" && Trimmed(value)
    ensures Print(f, issuer, value) != "" && Trimmed(Print(f, issuer, value))
  {
    PrintedTrimmed(Tag(f) + (issuer + ":"), value);
    assert Tag(f) + (issuer + ":") + value == Print(f, issuer, value);
  }

  lemma PrintAllClean(f: Family, issuer: string, values: seq<string>)
    requires Clean(values)
    ensures Clean(PrintAll(f, issuer, values))
  {
    forall p | p in PrintAll(f, issuer, values) ensures p != "" && Trimmed(p) {
      var i :| 0 <= i < |values| && PrintAll(f, issuer, values)[i] == p;
      assert values[i] in values;
      PrintedClean(f, issuer, values[i]);
    }
  }

  // ---- Printing never confuses families, and confuses issuers in one way only ----

  lemma SamePrint(f: Family, i: string, v: string, g: Family, j: string, w: string)
    ensures Print(f, i, v) == Print(g, j, w) <==> f == g && i + (":" + v) == j + (":" + w)
  {
    var a, b := Print(f, i, v), Print(g, j, w);
    assert a[0] == Tag(f)[0] && b[0] == Tag(g)[0];
    assert a[|Tag(f)|..] == i + (":" + v) && b[|Tag(g)|..] == j + (":" + w);
  }

  /** Upstream, local and superuser principals are pairwise different strings. */
  lemma FamiliesDisjoint(f: Family, issuer: string, value: string, role: string, group: string)
    ensures Print(f, issuer, value) != LOCAL_ROLE + role
    ensures Print(f, issuer, value) != LOCAL_GROUP + group
    ensures Print(f, issuer, value) != SUPERUSER
    ensures LOCAL_ROLE + role != LOCAL_GROUP + group
    ensures LOCAL_ROLE + role != SUPERUSER && LOCAL_GROUP + group != SUPERUSER
  {
    var p := Print(f, issuer, value);
    assert p[0] == Tag(f)[0];
    assert f == Sub ==> p[2] == 'b';
    assert (LOCAL_ROLE + role)[6] == 'r' && (LOCAL_GROUP + group)[6] == 'g';
    assert (LOCAL_ROLE + role)[0] == 'l' && (LOCAL_GROUP + group)[0] == 'l';
    assert SUPERUSER[0] == 's' && SUPERUSER[2] == 'p';
  }

  /** One issuer's values of one kind never print alike. */
  lemma OneIssuerInjective(f: Family, issuer: string, v: string, w: string)
    requires Print(f, issuer, v) == Print(f, issuer, w)
    ensures v == w
  {
    SamePrint(f, issuer, v, f, issuer, w);
    assert (issuer + (":" + v))[|issuer| + 1..] == v;
    assert (issuer + (":" + w))[|issuer| + 1..] == w;
  }

  predicate Extends(longer: string, shorter: string) {
    shorter + ":" <= longer
  }

  ghost predicate Collide(f: Family, i: string, j: string) {
    exists v: string, w: string :: Print(f, i, v) == Print(f, j, w)
  }

  /** The design document says that the issuer in a principal prevents collisions
      across providers. It does so exactly when neither issuer is the other one
      followed by a colon and more, as an added port is. */
  lemma IssuersCollideIff(f: Family, i: string, j: string)
    requires i != j
    ensures Collide(f, i, j) <==> Extends(i, j) || Extends(j, i)
  {
    if Collide(f, i, j) {
      var v: string, w: string :| Print(f, i, v) == Print(f, j, w);
      SamePrint(f, i, v, f, j, w);
      if |i| <= |j| {
        PrefixOfSame(i, v, j, w);
      } else {
        PrefixOfSame(j, w, i, v);
      }
    }
    if Extends(j, i) {
      ExtendedCollides(f, i, j);
    }
    if Extends(i, j) {
      ExtendedCollides(f, j, i);
    }
  }

  lemma PrefixOfSame(i: string, v: string, j: string, w: string)
    requires i != j && |i| <= |j| && i + (":" + v) == j + (":" + w)
    ensures Extends(j, i)
  {
    var s := i + (":" + v);
    assert s[..|i|] == i && s[..|j|] == j;
    assert |i| < |j|;
    assert s[|i|] == ':' && j[|i|] == ':';
    assert j[..|i| + 1] == i + ":";
  }

  lemma ExtendedCollides(f: Family, i: string, j: string)
    requires Extends(j, i)
    ensures Collide(f, i, j)
  {
    var rest := j[|i| + 1..];
    assert j == i + (":" + rest);
    var v := rest + ":x";
    assert i + (":" + v) == j + (":" + "x");
    SamePrint(f, i, v, f, j, "x");
  }

  /** A collision between two ports of one host. */
  lemma PortsCollide()
    ensures Print(Role, "https://a", "8443:admin") == Print(Role, "https://a:8443", "admin")
  {
    assert "https://a" + (":" + "8443:admin") == "https://a:8443" + (":" + "admin");
  }

  /** Values without a colon keep all issuers apart. */
  lemma ColonFreeInjective(f: Family, i: string, v: string, g: Family, j: string, w: string)
    requires ':' !in v && ':' !in w && Print(f, i, v) == Print(g, j, w)
    ensures f == g && i == j && v == w
  {
    SamePrint(f, i, v, g, j, w);
    LastColonPrinted(i, v);
    LastColonPrinted(j, w);
    assert (i + (":" + v))[..|i|] == i && (j + (":" + w))[..|j|] == j;
    OneIssuerInjective(f, i, v, w);
  }

  /** A binding on one provider's principal is never matched by the principals of
      another provider's identity, unless one issuer extends the other. */
  lemma ProviderIsolation(f: Family, i: string, v: string, j: string, subject: string,
                          roles: seq<string>, groups: seq<string>, localRoles: seq<string>, localGroups: seq<string>)
    requires i != j && !Extends(i, j) && !Extends(j, i)
    requires Clean([subject]) && Clean(roles) && Clean(groups)
    ensures Print(f, i, v) !in PrincipalsOf(j, subject, roles, groups) + LocalPrincipalsOf(localRoles, localGroups)
  {
    var p := Print(f, i, v);
    PrincipalsExact(j, subject, roles, groups, p);
    LocalPrincipalsExact(localRoles, localGroups, p);
    assert p[0] == Tag(f)[0];
    DifferentPrint(f, i, v, Sub, j, subject);
    forall k | 0 <= k < |roles| ensures p != Print(Role, j, roles[k]) {
      DifferentPrint(f, i, v, Role, j, roles[k]);
    }
    forall k | 0 <= k < |groups| ensures p != Print(Group, j, groups[k]) {
      DifferentPrint(f, i, v, Group, j, groups[k]);
    }
  }

  lemma DifferentPrint(f: Family, i: string, v: string, g: Family, j: string, w: string)
    requires i != j && !Extends(i, j) && !Extends(j, i)
    ensures Print(f, i, v) != Print(g, j, w)
  {
    SamePrint(f, i, v, g, j, w);
    IssuersCollideIff(f, i, j);
  }

  // ---- Reading the issuer back ----

  /** `strings.LastIndex(s, ":")`. */
  function LastColon(s: string): (k: int)
    ensures -1 <= k < |s|
    ensures 0 <= k ==> s[k] == ':'
    ensures forall m | k < m < |s| :: s[m] != ':'
  {
    if s == [] then -1
    else if s[|s| - 1] == ':' then |s| - 1
    else LastColon(s[..|s| - 1])
  }

  function IssuerOfRemainder(remainder: string): Option<string> {
    if !Contains(remainder, "://") then None
    else
      var idx := LastColon(remainder);
      if idx <= 0 || idx == |remainder| - 1 then None
      else
        var issuer := Trim(remainder[..idx]);
        if issuer == "" then None else Some(issuer)
  }

  /** `bindingPrincipalIssuer`. */
  function BindingPrincipalIssuer(principal: string): Option<string> {
    if HasPrefix(principal, "sub:") then IssuerOfRemainder(principal[4..])
    else if HasPrefix(principal, "role:") then IssuerOfRemainder(principal[5..])
    else if HasPrefix(principal, "group:") then IssuerOfRemainder(principal[6..])
    else None
  }

  /** `bindingReferencesIssuer`. */
  predicate BindingReferencesIssuer(principal: string, issuer: string) {
    || HasPrefix(principal, Tag(Sub) + (issuer + ":"))
    || HasPrefix(principal, Tag(Role) + (issuer + ":"))
    || HasPrefix(principal, Tag(Group) + (issuer + ":"))
  }

  lemma LastColonPrinted(issuer: string, value: string)
    ensures ':' !in value ==> LastColon(issuer + (":" + value)) == |issuer|
    ensures ':' in value ==> LastColon(issuer + (":" + value)) > |issuer|
  {
    var s := issuer + (":" + value);
    assert s[|issuer|] == ':';
    assert forall m | 0 <= m < |value| :: s[|issuer| + 1 + m] == value[m];
    if ':' in value {
      var m :| 0 <= m < |value| && value[m] == ':';
      assert s[|issuer| + 1 + m] == ':';
    } else {
      forall m | |issuer| < m < |s| ensures s[m] != ':' {
        assert s[m] == value[m - |issuer| - 1];
      }
    }
  }

  lemma AppendLast(issuer: string, kept: string, post: string)
    ensures "" + (issuer + (":" + kept) + post) == issuer + (":" + (kept + post))
  {
  }

  lemma ColonCoreTrimmed(issuer: string, kept: string)
    requires issuer != "" && Trimmed(issuer)
    requires kept == "" || !IsSpace(kept[|kept| - 1])
    ensures Trimmed(issuer + (":" + kept))
  {
    var core := issuer + (":" + kept);
    assert core[0] == issuer[0];
    assert core[|core| - 1] == if kept == "" then ':' else kept[|kept| - 1];
  }

  /** Trimming what follows a kept colon never shortens the string to the issuer. */
  lemma TrimKeepsColon(issuer: string, more: string)
    requires issuer != "" && Trimmed(issuer)
    ensures Trim(issuer + (":" + more)) != issuer
  {
    var post := TrimRightParts(more);
    var kept := TrimRight(more);
    var core := issuer + (":" + kept);
    ColonCoreTrimmed(issuer, kept);
    TrimUnique("", core, post);
    AppendLast(issuer, kept, post);
  }

  lemma ParseStripsTag(f: Family, issuer: string, value: string)
    ensures BindingPrincipalIssuer(Print(f, issuer, value)) == IssuerOfRemainder(issuer + (":" + value))
  {
    var p := Print(f, issuer, value);
    assert p[0] == Tag(f)[0];
    assert p[|Tag(f)|..] == issuer + (":" + value);
    assert HasPrefix(p, Tag(f));
  }

  lemma PlainRemainder(issuer: string, value: string)
    requires Trimmed(issuer) && ':' !in value
    ensures IssuerOfRemainder(issuer + (":" + value)) == Some(issuer) <==>
            issuer != "" && value != "" && Contains(issuer + (":" + value), "://")
  {
    var rem := issuer + (":" + value);
    LastColonPrinted(issuer, value);
    assert rem[..|issuer|] == issuer;
    TrimFixed(issuer);
  }

  lemma ColonRemainder(issuer: string, value: string)
    requires Trimmed(issuer) && ':' in value
    ensures IssuerOfRemainder(issuer + (":" + value)) != Some(issuer)
  {
    var rem := issuer + (":" + value);
    LastColonPrinted(issuer, value);
    var idx := LastColon(rem);
    var more := rem[|issuer| + 1..idx];
    assert rem[..idx] == issuer + (":" + more);
    if issuer != "" {
      TrimKeepsColon(issuer, more);
    }
  }

  /** The doctor reads the issuer of a printed principal back exactly when the value
      is non-empty and colon-free and a URL scheme is present. */
  lemma ParsePrintedIff(f: Family, issuer: string, value: string)
    requires Trimmed(issuer)
    ensures BindingPrincipalIssuer(Print(f, issuer, value)) == Some(issuer) <==>
            && issuer != "" && value != "" && ':' !in value
            && Contains(issuer + (":" + value), "://")
  {
    ParseStripsTag(f, issuer, value);
    if ':' in value {
      ColonRemainder(issuer, value);
    } else {
      PlainRemainder(issuer, value);
    }
  }

  /** The two parts around the colon before the value. */
  predicate Parts(rem: string, raw: string, value: string, issuer: string) {
    && rem == raw + (":" + value)
    && raw != "" && value != "" && ':' !in value && Trim(raw) == issuer && issuer != ""
  }

  /** A remainder reads as the issuer, up to padding, the last colon and a value. */
  ghost predicate Reads(rem: string, issuer: string) {
    Contains(rem, "://") && exists raw: string, value: string :: Parts(rem, raw, value, issuer)
  }

  /** And a principal as a tag and such a remainder. */
  ghost predicate ReadsAs(p: string, tag: string, issuer: string) {
    exists rem: string :: p == tag + rem && Reads(rem, issuer)
  }

  lemma LastColonParts(rem: string)
    requires 0 <= LastColon(rem)
    ensures rem == rem[..LastColon(rem)] + (":" + rem[LastColon(rem) + 1..])
    ensures ':' !in rem[LastColon(rem) + 1..]
  {
    var k := LastColon(rem);
    var value := rem[k + 1..];
    forall m | 0 <= m < |value| ensures value[m] != ':' {
      assert rem[k + 1 + m] == value[m];
    }
  }

  lemma PartsAtColon(rem: string, raw: string, value: string, issuer: string)
    requires Parts(rem, raw, value, issuer)
    ensures LastColon(rem) == |raw| && 0 < |raw| < |rem| - 1 && Trim(rem[..|raw|]) == issuer
  {
    LastColonPrinted(raw, value);
    assert rem[..|raw|] == raw;
  }

  lemma RemainderReads(rem: string, issuer: string)
    ensures IssuerOfRemainder(rem) == Some(issuer) <==> Reads(rem, issuer)
  {
    if IssuerOfRemainder(rem) == Some(issuer) {
      var k := LastColon(rem);
      LastColonParts(rem);
      assert Parts(rem, rem[..k], rem[k + 1..], issuer);
    }
    if raw: string, value: string :| Parts(rem, raw, value, issuer) {
      PartsAtColon(rem, raw, value, issuer);
    }
  }

  /** An issuer is read out of a principal exactly when it stands between one of the three tags and
      the last colon, before a value, and a scheme is present: for any principal, printed or typed. */
  lemma ParsedIff(p: string, issuer: string)
    ensures BindingPrincipalIssuer(p) == Some(issuer) <==>
            ReadsAs(p, "sub:", issuer) || ReadsAs(p, "role:", issuer) || ReadsAs(p, "group:", issuer)
  {
    TagReads(p, "sub:", issuer);
    TagReads(p, "role:", issuer);
    TagReads(p, "group:", issuer);
    assert "sub:" <= p ==> p[0] == 's';
    assert "role:" <= p ==> p[0] == 'r';
    assert "group:" <= p ==> p[0] == 'g';
  }

  lemma TagReads(p: string, tag: string, issuer: string)
    ensures ReadsAs(p, tag, issuer) <==> tag <= p && IssuerOfRemainder(p[|tag|..]) == Some(issuer)
  {
    if tag <= p {
      assert p == tag + p[|tag|..];
      RemainderReads(p[|tag|..], issuer);
    }
    if rem: string :| p == tag + rem && Reads(rem, issuer) {
      assert p[|tag|..] == rem;
    }
  }

  lemma {:induction false} ContainsConcat(a: string, b: string, p: string)
    requires Contains(a, p)
    ensures Contains(a + b, p)
  {
    if p <= a {
      assert a + b == p + (a[|p|..] + b);
    } else {
      ContainsConcat(a[1..], b, p);
      assert (a + b)[1..] == a[1..] + b;
    }
  }

  /** Every principal of an issuer with a URL scheme is read back to that issuer. */
  lemma PrintThenParse(f: Family, issuer: string, value: string)
    requires Trimmed(issuer) && Contains(issuer, "://") && value != "" && ':' !in value
    ensures BindingPrincipalIssuer(Print(f, issuer, value)) == Some(issuer)
    ensures BindingReferencesIssuer(Print(f, issuer, value), issuer)
  {
    ContainsConcat(issuer, ":" + value, "://");
    ParsePrintedIff(f, issuer, value);
    ReferencesIff(f, issuer, value, issuer);
  }

  /** A printed principal references an issuer exactly when that issuer, colon
      included, begins what was printed. */
  lemma ReferencesIff(f: Family, issuer: string, value: string, other: string)
    ensures BindingReferencesIssuer(Print(f, issuer, value), other) <==>
            other == issuer || Extends(issuer, other) || Extends(issuer + (":" + value), other)
  {
    var p, rem := Print(f, issuer, value), issuer + (":" + value);
    assert p[0] == Tag(f)[0];
    forall g: Family ensures HasPrefix(p, Tag(g) + (other + ":")) <==> g == f && other + ":" <= rem {
      var q := Tag(g) + (other + ":");
      assert q[0] == Tag(g)[0];
      if g == f {
        assert p == Tag(f) + rem;
        assert q <= p ==> p[|Tag(f)|..|q|] == q[|Tag(f)|..];
        if other + ":" <= rem {
          assert p[..|q|] == q;
        }
      }
    }
    if Extends(issuer, other) {
      assert rem[..|other| + 1] == issuer[..|other| + 1];
    }
    if other == issuer {
      assert rem[..|other| + 1] == other + ":";
    }
  }
}
