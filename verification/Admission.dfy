/** Bearer subject admission: the auto-approval rules, the pure preview of an access
    decision, the stored subject rows and the login path that updates them. */
module Admission {
  import opened Text
  import opened Ordered
  import opened Tables
  import opened Principals
  import opened Authz

  datatype SubjectStatus = PendingSubject | ActiveSubject | DisabledSubject

  datatype Subject = Subject(
    id: string, issuer: string, subject: string, status: SubjectStatus, username: string, email: string,
    roles: seq<string>, groups: seq<string>, localRoles: seq<string>, localGroups: seq<string>, authCount: nat)

  datatype Rule = Rule(
    name: string, enabled: bool, issuer: string, emailDomain: string,
    requiredRoles: seq<string>, requiredGroups: seq<string>,
    localRoles: seq<string>, localGroups: seq<string>)

  datatype Match = Match(ruleNames: seq<string>, localRoles: seq<string>, localGroups: seq<string>)

  datatype Reason = PendingLocalApproval | LocallyDisabled | AlreadyActive | AutoApproved

  datatype Preview = Preview(
    status: SubjectStatus, reason: Reason, ruleNames: seq<string>,
    matchedRoles: seq<string>, matchedGroups: seq<string>, identity: Identity)

  // ---- Rules ----

  function DomainOf(domain: string): string {
    var d := NormalName(domain);
    if HasPrefix(d, "@") then d[1..] else d
  }

  /** `matchesEmailDomain`. */
  predicate MatchesEmailDomain(email: string, domain: string) {
    || DomainOf(domain) == ""
    || (NormalName(email) != "" && HasSuffix(NormalName(email), "@" + DomainOf(domain)))
  }

  /** A domain that is given accepts exactly the addresses that end in an at-sign and it. */
  lemma EmailDomainIff(email: string, domain: string)
    ensures MatchesEmailDomain(email, domain) <==>
            || Trim(domain) in {"", "@"}
            || exists local: string :: NormalName(email) == local + ("@" + DomainOf(domain))
  {
    var e, suffix := NormalName(email), "@" + DomainOf(domain);
    assert DomainOf(domain) == "" <==> Trim(domain) in {"", "@"} by {
      var d := Trim(domain);
      assert ToLower("@") == "@";
      assert |d| == 1 ==> d == [d[0]] && ToLower(d) == [LowerChar(d[0])];
    }
    if HasSuffix(e, suffix) {
      assert e == e[..|e| - |suffix|] + suffix;
    }
    if local: string :| e == local + suffix {
      assert e[|e| - |suffix|..] == suffix;
    }
  }

  /** Case and padding of the e-mail address and of the domain do not matter. */
  lemma EmailDomainForm(email: string, email': string, domain: string, domain': string,
                        a: string, b: string, c: string, d: string)
    requires AllSpace(a) && AllSpace(b) && AllSpace(c) && AllSpace(d)
    requires ToLower(email) == ToLower(email') && ToLower(domain) == ToLower(domain')
    ensures MatchesEmailDomain(a + email + b, c + domain + d) <==> MatchesEmailDomain(email', domain')
  {
    NormalNamePadCase(a, email, email', b);
    NormalNamePadCase(c, domain, domain', d);
    SameForms(a + email + b, email', c + domain + d, domain');
  }

  lemma SameForms(email: string, email': string, domain: string, domain': string)
    requires NormalName(email) == NormalName(email') && NormalName(domain) == NormalName(domain')
    ensures MatchesEmailDomain(email, domain) <==> MatchesEmailDomain(email', domain')
  {
    assert DomainOf(domain) == DomainOf(domain');
  }

  /** One at-sign before a domain does not matter. */
  lemma AtSignDropped(domain: string)
    requires domain != "" && domain[0] != '@' && Trimmed(domain)
    ensures DomainOf("@" + domain) == DomainOf(domain)
  {
    TrimFixed(domain);
    assert Trimmed("@" + domain) by {
      assert ("@" + domain)[|domain|] == domain[|domain| - 1];
    }
    TrimFixed("@" + domain);
    LowerConcat("@", domain);
    assert ToLower("@") == "@";
    assert ToLower(domain)[0] != '@';
  }

  method ContainsAll(values: seq<string>, required: seq<string>) returns (ok: bool)
    ensures ok <==> CleanSet(required) <= CleanSet(values)
  {
    if |required| == 0 {
      assert CleanSet(required) == {};
      return true;
    }
    var seen: set<string> := {};
    for i := 0 to |values|
      invariant seen == CleanSet(values[..i])
    {
      assert values[..i + 1] == values[..i] + [values[i]];
      CleanSetSnoc(values[..i], values[i]);
      var value := Trim(values[i]);
      if value == "" {
        continue;
      }
      seen := seen + {value};
    }
    assert values[..|values|] == values;
    for i := 0 to |required|
      invariant CleanSet(required[..i]) <= seen
    {
      assert required[..i + 1] == required[..i] + [required[i]];
      CleanSetSnoc(required[..i], required[i]);
      var need := Trim(required[i]);
      if need == "" {
        continue;
      }
      if need !in seen {
        InCleanSet(required, required[i]);
        return false;
      }
    }
    assert required[..|required|] == required;
    return true;
  }

  predicate RuleMatches(identity: Identity, rule: Rule) {
    && rule.enabled
    && Trim(rule.issuer) == identity.issuer
    && MatchesEmailDomain(identity.email, rule.emailDomain)
    && CleanSet(rule.requiredRoles) <= CleanSet(identity.roles)
    && CleanSet(rule.requiredGroups) <= CleanSet(identity.groups)
  }

  /** The names, roles and groups of the matching rules, in rule order. */
  function Collected(identity: Identity, rules: seq<Rule>): Match {
    if rules == [] then Match([], [], [])
    else
      var m, rule := Collected(identity, rules[..|rules| - 1]), rules[|rules| - 1];
      if RuleMatches(identity, rule) then
        Match(m.ruleNames + [Trim(rule.name)], m.localRoles + rule.localRoles, m.localGroups + rule.localGroups)
      else m
  }

  function MatchOf(identity: Identity, rules: seq<Rule>): Match {
    var m := Collected(identity, rules);
    Match(Unique(m.ruleNames), Unique(m.localRoles), Unique(m.localGroups))
  }

  lemma CollectedNext(identity: Identity, rules: seq<Rule>, i: nat)
    requires i < |rules|
    ensures
      var m, rule := Collected(identity, rules[..i]), rules[i];
      Collected(identity, rules[..i + 1]) ==
      if RuleMatches(identity, rule) then
        Match(m.ruleNames + [Trim(rule.name)], m.localRoles + rule.localRoles, m.localGroups + rule.localGroups)
      else m
  {
    assert rules[..i + 1][..i] == rules[..i];
  }

  method MatchSubjectAutoApprovalRules(identity: Identity, rules: seq<Rule>) returns (match': Match)
    ensures match' == MatchOf(identity, rules)
  {
    var names: seq<string>, roles: seq<string>, groups: seq<string> := [], [], [];
    for i := 0 to |rules|
      invariant Match(names, roles, groups) == Collected(identity, rules[..i])
    {
      CollectedNext(identity, rules, i);
      var rule := rules[i];
      if !rule.enabled {
        continue;
      }
      if Trim(rule.issuer) != identity.issuer {
        continue;
      }
      if !MatchesEmailDomain(identity.email, rule.emailDomain) {
        continue;
      }
      var hasRoles := ContainsAll(identity.roles, rule.requiredRoles);
      if !hasRoles {
        continue;
      }
      var hasGroups := ContainsAll(identity.groups, rule.requiredGroups);
      if !hasGroups {
        continue;
      }
      names := names + [Trim(rule.name)];
      roles := roles + rule.localRoles;
      groups := groups + rule.localGroups;
    }
    assert rules[..|rules|] == rules;
    names := UniqueStrings(names);
    roles := UniqueStrings(roles);
    groups := UniqueStrings(groups);
    return Match(names, roles, groups);
  }

  ghost predicate SomeRule(identity: Identity, rules: seq<Rule>) {
    exists rule :: rule in rules && RuleMatches(identity, rule) && Trim(rule.name) != ""
  }

  lemma {:induction false} CollectedNames(identity: Identity, rules: seq<Rule>)
    ensures CleanSet(Collected(identity, rules).ruleNames) != {} <==> SomeRule(identity, rules)
  {
    var m := Collected(identity, rules);
    if rules != [] {
      var rest, rule := rules[..|rules| - 1], rules[|rules| - 1];
      CollectedNames(identity, rest);
      assert rules == rest + [rule];
      TrimTrimmed(rule.name);
      TrimFixed(Trim(rule.name));
      CleanSetSnoc(Collected(identity, rest).ruleNames, Trim(rule.name));
      assert SomeRule(identity, rules) <==>
        SomeRule(identity, rest) || (RuleMatches(identity, rule) && Trim(rule.name) != "");
      if RuleMatches(identity, rule) && Trim(rule.name) != "" {
        assert Trim(rule.name) in CleanSet(m.ruleNames);
      }
    }
  }

  /** A subject is approved exactly when an enabled, named rule matches it. */
  lemma ApprovedIff(identity: Identity, rules: seq<Rule>)
    ensures MatchOf(identity, rules).ruleNames != [] <==> SomeRule(identity, rules)
  {
    CollectedNames(identity, rules);
    UniqueElems(Collected(identity, rules).ruleNames);
    NoElems(MatchOf(identity, rules).ruleNames);
  }

  /** Some matching rule grants the local role `r`. */
  ghost predicate RoleGranted(identity: Identity, rules: seq<Rule>, r: string) {
    exists rule :: rule in rules && RuleMatches(identity, rule) && r in CleanSet(rule.localRoles)
  }

  ghost predicate GroupGranted(identity: Identity, rules: seq<Rule>, g: string) {
    exists rule :: rule in rules && RuleMatches(identity, rule) && g in CleanSet(rule.localGroups)
  }

  lemma {:induction false} CollectedGrants(identity: Identity, rules: seq<Rule>, x: string)
    ensures x in CleanSet(Collected(identity, rules).localRoles) <==> RoleGranted(identity, rules, x)
    ensures x in CleanSet(Collected(identity, rules).localGroups) <==> GroupGranted(identity, rules, x)
  {
    if rules == [] {
      assert CleanSet([]) == {};
    } else {
      var rest, rule := rules[..|rules| - 1], rules[|rules| - 1];
      CollectedGrants(identity, rest, x);
      assert rules == rest + [rule];
      var m := Collected(identity, rest);
      CleanSetConcat(m.localRoles, rule.localRoles);
      CleanSetConcat(m.localGroups, rule.localGroups);
    }
  }

  /** The match holds exactly the clean roles and groups of the matching rules, whatever
      the order of the rules. */
  lemma MatchExact(identity: Identity, rules: seq<Rule>, x: string)
    ensures x in MatchOf(identity, rules).localRoles <==> RoleGranted(identity, rules, x)
    ensures x in MatchOf(identity, rules).localGroups <==> GroupGranted(identity, rules, x)
  {
    var m := Collected(identity, rules);
    CollectedGrants(identity, rules, x);
    UniqueElems(m.localRoles);
    UniqueElems(m.localGroups);
    assert x in Unique(m.localRoles) <==> x in Elems(Unique(m.localRoles));
    assert x in Unique(m.localGroups) <==> x in Elems(Unique(m.localGroups));
  }

  /** Rules that are switched off contribute nothing, so listing only the enabled
      ones, as both callers do, changes no match. */
  function EnabledRules(rules: seq<Rule>): seq<Rule> {
    if rules == [] then []
    else
      EnabledRules(rules[..|rules| - 1]) + if rules[|rules| - 1].enabled then [rules[|rules| - 1]] else []
  }

  lemma {:induction false} EnabledRulesMatch(identity: Identity, rules: seq<Rule>)
    ensures Collected(identity, EnabledRules(rules)) == Collected(identity, rules)
  {
    if rules != [] {
      var rest, rule := rules[..|rules| - 1], rules[|rules| - 1];
      EnabledRulesMatch(identity, rest);
      var kept := EnabledRules(rest);
      if rule.enabled {
        assert (kept + [rule])[..|kept|] == kept;
      } else {
        assert kept + [] == kept;
      }
    }
  }

  // ---- The rules in their own fields ----

  /** One of the values is `need` up to padding. */
  ghost predicate Has(values: seq<string>, need: string) {
    exists i :: 0 <= i < |values| && Trim(values[i]) == need
  }

  ghost predicate HasAll(values: seq<string>, required: seq<string>) {
    forall i | 0 <= i < |required| && Trim(required[i]) != "" :: Has(values, Trim(required[i]))
  }

  /** The rule is switched on and is about identities of this issuer that have its roles and groups. */
  ghost predicate Concerns(rule: Rule, identity: Identity) {
    && rule.enabled && Trim(rule.issuer) == identity.issuer
    && HasAll(identity.roles, rule.requiredRoles) && HasAll(identity.groups, rule.requiredGroups)
  }

  ghost predicate EndsIn(s: string, end: string) {
    exists start: string :: s == start + end
  }

  /** The rule names no domain, or the address ends in an at-sign and the domain, in any case. */
  ghost predicate InDomain(rule: Rule, email: string) {
    var d := ToLower(Trim(rule.emailDomain));
    || d == "" || d == "@"
    || EndsIn(ToLower(Trim(email)), if d[0] == '@' then d else "@" + d)
  }

  ghost predicate Fits(rule: Rule, identity: Identity) {
    Concerns(rule, identity) && InDomain(rule, identity.email)
  }

  lemma HasAllIff(values: seq<string>, required: seq<string>)
    ensures CleanSet(required) <= CleanSet(values) <==> HasAll(values, required)
  {
    if CleanSet(required) <= CleanSet(values) {
      forall i | 0 <= i < |required| && Trim(required[i]) != "" ensures Has(values, Trim(required[i])) {
        InCleanSet(required, required[i]);
        CleanMember(values, Trim(required[i]));
      }
    }
    if HasAll(values, required) {
      forall x | x in CleanSet(required) ensures x in CleanSet(values) {
        CleanMember(required, x);
        var i :| 0 <= i < |required| && Trim(required[i]) == x;
        assert Has(values, x);
        CleanMember(values, x);
      }
    }
  }

  lemma InDomainIff(rule: Rule, email: string)
    ensures MatchesEmailDomain(email, rule.emailDomain) <==> InDomain(rule, email)
  {
    var d := ToLower(Trim(rule.emailDomain));
    var suffix := "@" + DomainOf(rule.emailDomain);
    EmailDomainIff(email, rule.emailDomain);
    if d != "" {
      assert suffix == if d[0] == '@' then d else "@" + d;
    }
    assert Trim(rule.emailDomain) in {"", "@"} <==> d == "" || d == "@" by {
      var raw := Trim(rule.emailDomain);
      assert |raw| == 1 ==> raw == [raw[0]] && ToLower(raw) == [LowerChar(raw[0])];
      assert d == "@" ==> |raw| == 1 && d[0] == '@' && d == ToLower(raw);
    }
  }

  /** A rule applies exactly when all its conditions hold, field by field. */
  lemma RuleFitsIff(identity: Identity, rule: Rule)
    ensures RuleMatches(identity, rule) <==> Fits(rule, identity)
  {
    HasAllIff(identity.roles, rule.requiredRoles);
    HasAllIff(identity.groups, rule.requiredGroups);
    InDomainIff(rule, identity.email);
  }

  /** The rules that concern the identity, in their order. */
  ghost function Concerning(identity: Identity, rules: seq<Rule>): seq<Rule> {
    if rules == [] then []
    else
      Concerning(identity, rules[..|rules| - 1]) +
      if Concerns(rules[|rules| - 1], identity) then [rules[|rules| - 1]] else []
  }

  lemma {:induction false} ConcerningCollected(identity: Identity, rules: seq<Rule>)
    ensures Collected(identity, Concerning(identity, rules)) == Collected(identity, rules)
  {
    if rules != [] {
      var rest, rule := rules[..|rules| - 1], rules[|rules| - 1];
      ConcerningCollected(identity, rest);
      RuleFitsIff(identity, rule);
      var kept := Concerning(identity, rest);
      if Concerns(rule, identity) {
        assert (kept + [rule])[..|kept|] == kept;
      } else {
        assert kept + [] == kept;
      }
    }
  }

  /** Rules that are switched off, are about another issuer or require a role or group the
      identity lacks can be taken out of the list. */
  lemma OtherRulesIgnored(identity: Identity, rules: seq<Rule>)
    ensures MatchOf(identity, Concerning(identity, rules)) == MatchOf(identity, rules)
  {
    ConcerningCollected(identity, rules);
  }

  /** No rule that is switched on names this issuer. */
  predicate IssuerUnknown(rules: seq<Rule>, issuer: string) {
    forall rule | rule in rules && rule.enabled :: Trim(rule.issuer) != issuer
  }

  lemma {:induction false} ConcernsNobody(identity: Identity, rules: seq<Rule>)
    requires IssuerUnknown(rules, identity.issuer)
    ensures Concerning(identity, rules) == []
  {
    if rules != [] {
      var rest, rule := rules[..|rules| - 1], rules[|rules| - 1];
      assert rule in rules;
      forall r | r in rest && r.enabled ensures Trim(r.issuer) != identity.issuer {
        assert r in rules;
      }
      ConcernsNobody(identity, rest);
    }
  }

  /** The rules of other issuers match nothing. */
  lemma OtherIssuersMatchNothing(identity: Identity, rules: seq<Rule>)
    requires IssuerUnknown(rules, identity.issuer)
    ensures MatchOf(identity, rules) == Match([], [], [])
  {
    ConcernsNobody(identity, rules);
    OtherRulesIgnored(identity, rules);
  }

  ghost predicate NamedBy(identity: Identity, rules: seq<Rule>, x: string) {
    x != "" && exists rule :: rule in rules && Fits(rule, identity) && Trim(rule.name) == x
  }

  ghost predicate RoleOffered(identity: Identity, rules: seq<Rule>, x: string) {
    x != "" && exists rule :: rule in rules && Fits(rule, identity) && Has(rule.localRoles, x)
  }

  ghost predicate GroupOffered(identity: Identity, rules: seq<Rule>, x: string) {
    x != "" && exists rule :: rule in rules && Fits(rule, identity) && Has(rule.localGroups, x)
  }

  lemma GrantedIffOffered(identity: Identity, rules: seq<Rule>, x: string)
    ensures RoleGranted(identity, rules, x) <==> RoleOffered(identity, rules, x)
    ensures GroupGranted(identity, rules, x) <==> GroupOffered(identity, rules, x)
  {
    forall rule | rule in rules
      ensures RuleMatches(identity, rule) <==> Fits(rule, identity)
      ensures x in CleanSet(rule.localRoles) <==> x != "" && Has(rule.localRoles, x)
      ensures x in CleanSet(rule.localGroups) <==> x != "" && Has(rule.localGroups, x)
    {
      RuleFitsIff(identity, rule);
      CleanMember(rule.localRoles, x);
      CleanMember(rule.localGroups, x);
    }
  }

  lemma {:induction false} CollectedNamesExact(identity: Identity, rules: seq<Rule>, x: string)
    ensures x in CleanSet(Collected(identity, rules).ruleNames) <==> NamedBy(identity, rules, x)
  {
    if rules == [] {
      assert CleanSet([]) == {};
    } else {
      var rest, rule := rules[..|rules| - 1], rules[|rules| - 1];
      CollectedNamesExact(identity, rest, x);
      assert rules == rest + [rule];
      RuleFitsIff(identity, rule);
      TrimTrimmed(rule.name);
      TrimFixed(Trim(rule.name));
      CleanSetSnoc(Collected(identity, rest).ruleNames, Trim(rule.name));
    }
  }

  /** The match lists exactly the names, local roles and local groups of the rules that fit, in
      terms of the rules' own fields. */
  lemma MatchedInFields(identity: Identity, rules: seq<Rule>, x: string)
    ensures x in MatchOf(identity, rules).ruleNames <==> NamedBy(identity, rules, x)
    ensures x in MatchOf(identity, rules).localRoles <==> RoleOffered(identity, rules, x)
    ensures x in MatchOf(identity, rules).localGroups <==> GroupOffered(identity, rules, x)
  {
    MatchExact(identity, rules, x);
    GrantedIffOffered(identity, rules, x);
    CollectedNamesExact(identity, rules, x);
    var names := Collected(identity, rules).ruleNames;
    UniqueElems(names);
    assert x in Unique(names) <==> x in Elems(Unique(names));
  }

  /** A rule with a name fits. */
  ghost predicate Approves(identity: Identity, rules: seq<Rule>) {
    exists rule :: rule in rules && Fits(rule, identity) && Trim(rule.name) != ""
  }

  lemma ApprovesIff(identity: Identity, rules: seq<Rule>)
    ensures Approves(identity, rules) <==> SomeRule(identity, rules)
    ensures Approves(identity, rules) <==> MatchOf(identity, rules).ruleNames != []
  {
    forall rule | rule in rules ensures RuleMatches(identity, rule) <==> Fits(rule, identity) {
      RuleFitsIff(identity, rule);
    }
    ApprovedIff(identity, rules);
  }

  // ---- The preview ----

  function WithRecord(identity: Identity, rec: Subject): Identity {
    identity.(
      localRoles := rec.localRoles,
      localGroups := rec.localGroups,
      principals := Unique(identity.principals + LocalPrincipalsOf(rec.localRoles, rec.localGroups)))
  }

  /** A principal is held exactly when it is a clean upstream principal or is printed from a
      clean local role or group of the record; the rest of the identity stays. */
  lemma RecordPrincipals(identity: Identity, rec: Subject, p: string)
    ensures p in WithRecord(identity, rec).principals <==>
            || p in CleanSet(identity.principals)
            || PrintedIn(p, LOCAL_ROLE, CleanSet(rec.localRoles))
            || PrintedIn(p, LOCAL_GROUP, CleanSet(rec.localGroups))
  {
    var all := Prefixed(LOCAL_ROLE, rec.localRoles) + Prefixed(LOCAL_GROUP, rec.localGroups);
    var locals := LocalPrincipalsOf(rec.localRoles, rec.localGroups);
    LocalPrincipalsExact(rec.localRoles, rec.localGroups, p);
    UniqueIsClean(all);
    CleanSetOfClean(locals);
    CleanSetConcat(identity.principals, locals);
    UniqueElems(identity.principals + locals);
    assert p in locals <==> p in Elems(locals);
    assert p in WithRecord(identity, rec).principals <==> p in Elems(WithRecord(identity, rec).principals);
  }

  method ApplySubjectRecord(identity: Identity, rec: Subject) returns (r: Identity)
    ensures r == WithRecord(identity, rec)
    ensures forall p :: p in r.principals <==>
      || p in CleanSet(identity.principals)
      || PrintedIn(p, LOCAL_ROLE, CleanSet(rec.localRoles))
      || PrintedIn(p, LOCAL_GROUP, CleanSet(rec.localGroups))
    ensures r.localRoles == rec.localRoles && r.localGroups == rec.localGroups
  {
    forall p ensures p in WithRecord(identity, rec).principals <==>
      || p in CleanSet(identity.principals)
      || PrintedIn(p, LOCAL_ROLE, CleanSet(rec.localRoles))
      || PrintedIn(p, LOCAL_GROUP, CleanSet(rec.localGroups))
    {
      RecordPrincipals(identity, rec, p);
    }
    var locals := LocalPrincipals(rec.localRoles, rec.localGroups);
    var principals := UniqueStrings(identity.principals + locals);
    return identity.(localRoles := rec.localRoles, localGroups := rec.localGroups, principals := principals);
  }

  function ApprovedIdentity(identity: Identity, roles: seq<string>, groups: seq<string>): Identity {
    var localRoles, localGroups := Unique(roles), Unique(groups);
    identity.(
      localRoles := localRoles,
      localGroups := localGroups,
      principals := Unique(identity.principals + LocalPrincipalsOf(localRoles, localGroups)))
  }

  /** What a decision would be for a subject that is absent or as stored. */
  function PreviewOf(identity: Identity, rec: Option<Subject>, rules: seq<Rule>): Preview {
    var known := if rec.Some? then WithRecord(identity, rec.value) else identity;
    if rec.Some? && rec.value.status == DisabledSubject then Preview(DisabledSubject, LocallyDisabled, [], [], [], known)
    else if rec.Some? && rec.value.status == ActiveSubject then Preview(ActiveSubject, AlreadyActive, [], [], [], known)
    else
      var m := MatchOf(identity, rules);
      if m.ruleNames == [] then
        Preview(PendingSubject, PendingLocalApproval, m.ruleNames, m.localRoles, m.localGroups, known)
      else
        Preview(ActiveSubject, AutoApproved, m.ruleNames, m.localRoles, m.localGroups,
                if rec.Some? then
                  ApprovedIdentity(identity, rec.value.localRoles + m.localRoles, rec.value.localGroups + m.localGroups)
                else ApprovedIdentity(identity, m.localRoles, m.localGroups))
  }

  /** A principal that the local roles and groups give. */
  ghost predicate LocalPrincipal(p: string, roles: seq<string>, groups: seq<string>) {
    || (exists r :: r != "" && Has(roles, r) && p == "local_role:" + r)
    || (exists g :: g != "" && Has(groups, g) && p == "local_group:" + g)
  }

  lemma LocalPrincipalIff(p: string, roles: seq<string>, groups: seq<string>)
    ensures LocalPrincipal(p, roles, groups) <==> p in LocalPrincipalsOf(roles, groups)
  {
    LocalPrincipalsExact(roles, groups, p);
    PrintedNames(p, LOCAL_ROLE, roles);
    PrintedNames(p, LOCAL_GROUP, groups);
  }

  lemma PrintedNames(p: string, prefix: string, values: seq<string>)
    ensures PrintedIn(p, prefix, CleanSet(values)) <==> exists r :: r != "" && Has(values, r) && p == prefix + r
  {
    if PrintedIn(p, prefix, CleanSet(values)) {
      CleanMember(values, p[|prefix|..]);
      assert p == prefix + p[|prefix|..] && Has(values, p[|prefix|..]);
    }
    if r :| r != "" && Has(values, r) && p == prefix + r {
      CleanMember(values, r);
      assert p[|prefix|..] == r;
    }
  }

  /** The principals are the clean ones of the token and those of the local roles and groups. */
  ghost predicate HoldsPrincipal(p: string, given: seq<string>, roles: seq<string>, groups: seq<string>) {
    (p != "" && Has(given, p)) || LocalPrincipal(p, roles, groups)
  }

  lemma HoldsPrincipalIff(p: string, given: seq<string>, roles: seq<string>, groups: seq<string>)
    ensures HoldsPrincipal(p, given, roles, groups) <==> p in Unique(given + LocalPrincipalsOf(roles, groups))
  {
    var locals := LocalPrincipalsOf(roles, groups);
    LocalPrincipalIff(p, roles, groups);
    UniqueIsClean(Prefixed(LOCAL_ROLE, roles) + Prefixed(LOCAL_GROUP, groups));
    CleanSetOfClean(locals);
    CleanSetConcat(given, locals);
    UniqueElems(given + locals);
    CleanMember(given, p);
    assert p in locals <==> p in Elems(locals);
    assert p in Unique(given + locals) <==> p in Elems(Unique(given + locals));
  }

  ghost predicate Undecided(rec: Option<Subject>) {
    rec == None || rec.value.status == PendingSubject
  }

  /** The decision on a subject: an operator's stands, and otherwise a named rule that fits decides. */
  lemma PreviewDecides(identity: Identity, rec: Option<Subject>, rules: seq<Rule>, x: string)
    ensures
      var p := PreviewOf(identity, rec, rules);
      var open := Undecided(rec);
      && p.status == (if open then if Approves(identity, rules) then ActiveSubject else PendingSubject
                      else rec.value.status)
      && (p.reason == LocallyDisabled <==> p.status == DisabledSubject)
      && (p.reason == AlreadyActive <==> !open && p.status == ActiveSubject)
      && (p.reason == AutoApproved <==> open && p.status == ActiveSubject)
      && (p.reason == PendingLocalApproval <==> p.status == PendingSubject)
      && (x in p.ruleNames <==> open && NamedBy(identity, rules, x))
      && (x in p.matchedRoles <==> open && RoleOffered(identity, rules, x))
      && (x in p.matchedGroups <==> open && GroupOffered(identity, rules, x))
  {
    ApprovesIff(identity, rules);
    MatchedInFields(identity, rules, x);
  }

  function RolesOf(rec: Option<Subject>): seq<string> {
    if rec.Some? then rec.value.localRoles else []
  }

  function GroupsOf(rec: Option<Subject>): seq<string> {
    if rec.Some? then rec.value.localGroups else []
  }

  lemma PreviewShows(identity: Identity, rec: Option<Subject>, rules: seq<Rule>)
    ensures
      var shown, m := PreviewOf(identity, rec, rules).identity, MatchOf(identity, rules);
      shown == if Undecided(rec) && Approves(identity, rules) then
                 ApprovedIdentity(identity, RolesOf(rec) + m.localRoles, GroupsOf(rec) + m.localGroups)
               else if rec.Some? then WithRecord(identity, rec.value) else identity
  {
    ApprovesIff(identity, rules);
    PreviewShowsMatch(identity, rec, rules, MatchOf(identity, rules));
  }

  lemma PreviewShowsMatch(identity: Identity, rec: Option<Subject>, rules: seq<Rule>, m: Match)
    requires m == MatchOf(identity, rules)
    ensures
      PreviewOf(identity, rec, rules).identity ==
      if Undecided(rec) && m.ruleNames != [] then
        ApprovedIdentity(identity, RolesOf(rec) + m.localRoles, GroupsOf(rec) + m.localGroups)
      else if rec.Some? then WithRecord(identity, rec.value) else identity
  {
    if rec == None {
      assert [] + m.localRoles == m.localRoles && [] + m.localGroups == m.localGroups;
    } else {
      var row := rec.value;
      assert RolesOf(rec) == row.localRoles && GroupsOf(rec) == row.localGroups;
    }
  }

  /** The identity a preview shows has all that the token gave, and the local roles and groups of
      the record, with those the rules offer when they approve it. */
  lemma PreviewLocals(identity: Identity, rec: Option<Subject>, rules: seq<Rule>, x: string)
    ensures
      var shown := PreviewOf(identity, rec, rules).identity;
      && shown.(localRoles := identity.localRoles, localGroups := identity.localGroups,
                principals := identity.principals) == identity
      && (if Undecided(rec) && Approves(identity, rules) then
            && (x in shown.localRoles <==> (x != "" && Has(RolesOf(rec), x)) || RoleOffered(identity, rules, x))
            && (x in shown.localGroups <==> (x != "" && Has(GroupsOf(rec), x)) || GroupOffered(identity, rules, x))
          else if rec.Some? then
            shown.localRoles == rec.value.localRoles && shown.localGroups == rec.value.localGroups
          else shown == identity)
  {
    var m, c := MatchOf(identity, rules), Collected(identity, rules);
    PreviewShows(identity, rec, rules);
    if Undecided(rec) && Approves(identity, rules) {
      MatchedInFields(identity, rules, x);
      JoinedMember(RolesOf(rec), m.localRoles, c.localRoles, x);
      JoinedMember(GroupsOf(rec), m.localGroups, c.localGroups, x);
    }
  }

  /** And it holds the token's principals and those of its local roles and groups. */
  lemma PreviewPrincipals(identity: Identity, rec: Option<Subject>, rules: seq<Rule>, x: string)
    requires rec.Some? || Approves(identity, rules)
    ensures
      var shown := PreviewOf(identity, rec, rules).identity;
      x in shown.principals <==> HoldsPrincipal(x, identity.principals, shown.localRoles, shown.localGroups)
  {
    var shown := PreviewOf(identity, rec, rules).identity;
    PreviewShows(identity, rec, rules);
    HoldsPrincipalIff(x, identity.principals, shown.localRoles, shown.localGroups);
  }

  lemma JoinedMember(had: seq<string>, granted: seq<string>, from: seq<string>, x: string)
    requires granted == Unique(from)
    ensures x in Unique(had + granted) <==> (x != "" && Has(had, x)) || x in granted
  {
    UniqueMembers(had + granted, x);
    UniqueIsClean(from);
    CleanSetOfClean(granted);
    CleanMember(had, x);
    CleanSetConcat(had, granted);
    CleanMember(had + granted, x);
    assert x in granted <==> x in Elems(granted);
  }

  method PreviewSubjectAccess(identity: Identity, rec: Option<Subject>, rules: seq<Rule>) returns (preview: Preview)
    ensures preview == PreviewOf(identity, rec, rules)
  {
    preview := Preview(PendingSubject, PendingLocalApproval, [], [], [], identity);
    if rec.Some? {
      var applied := ApplySubjectRecord(identity, rec.value);
      preview := preview.(status := rec.value.status, identity := applied);
      match rec.value.status {
        case DisabledSubject =>
          preview := preview.(reason := LocallyDisabled);
          return;
        case ActiveSubject =>
          preview := preview.(reason := AlreadyActive);
          return;
        case PendingSubject =>
          preview := preview.(reason := PendingLocalApproval);
      }
    }
    var m := MatchSubjectAutoApprovalRules(identity, rules);
    preview := preview.(ruleNames := m.ruleNames, matchedRoles := m.localRoles, matchedGroups := m.localGroups);
    if |m.ruleNames| == 0 {
      return;
    }
    preview := preview.(status := ActiveSubject, reason := AutoApproved);
    var roles, groups;
    if rec.Some? {
      roles := UniqueStrings(rec.value.localRoles + m.localRoles);
      groups := UniqueStrings(rec.value.localGroups + m.localGroups);
    } else {
      roles := UniqueStrings(m.localRoles);
      groups := UniqueStrings(m.localGroups);
    }
    var locals := LocalPrincipals(roles, groups);
    var principals := UniqueStrings(identity.principals + locals);
    preview := preview.(identity :=
      identity.(localRoles := roles, localGroups := groups, principals := principals));
  }
}
