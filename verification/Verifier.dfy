/** Bearer token verification against cached or freshly fetched issuer keys. */
module Verifier {
  import opened Text
  import opened Ordered
  import opened Tables
  import opened Principals
  import opened Authz

  /** A published key: its id, and the key itself, which is opaque. */
  type Material = nat

  datatype Key = Key(id: string, material: Material)

  /** A parsed token. Signature checking is a foreign call: `signers` are the keys under
      which it succeeds. Claims are looked up by their path. */
  datatype Token = Token(
    kid: string, signers: set<Material>, iss: string, sub: string, audiences: seq<string>,
    notBefore: Option<int>, expiry: Option<int>, issuedAt: Option<int>,
    claims: map<string, string>, lists: map<string, seq<string>>)

  datatype Issuer = Issuer(
    enabled: bool, issuer: string, audiences: seq<string>, requiredClaims: map<string, string>,
    subjectClaim: string, usernameClaim: string, emailClaim: string,
    rolesClaims: seq<string>, groupsClaims: seq<string>)

  datatype VerifyError =
    | FetchFailed | NoKeys | ClaimMismatch | MissingSubjectClaim | BadSignature | MissingIss | UntrustedIssuer

  datatype Verdict = Verified(identity: Identity) | Invalid(error: VerifyError)

  const LEEWAY := 60
  const FRESH_FOR := 900

  // ---- Judging one token under a list of keys ----

  predicate InWindow(t: Token, now: int) {
    && (t.notBefore.Some? ==> t.notBefore.value <= now + LEEWAY)
    && (t.expiry.Some? ==> now - LEEWAY <= t.expiry.value)
    && (t.issuedAt.Some? ==> t.issuedAt.value <= now + LEEWAY)
  }

  /** The standard claims a token must meet. */
  predicate StandardClaims(t: Token, issuer: Issuer, now: int) {
    && (issuer.issuer != "" ==> t.iss == issuer.issuer)
    && (issuer.audiences != [] ==> exists a :: a in issuer.audiences && a in t.audiences)
    && InWindow(t, now)
  }

  function ClaimAt(t: Token, path: string): string {
    if Trim(path) != "" && Trim(path) in t.claims then Trim(t.claims[Trim(path)]) else ""
  }

  function FirstNonEmpty(a: string, b: string): string {
    if Trim(a) != "" then Trim(a) else Trim(b)
  }

  function SubjectOf(t: Token, issuer: Issuer): string {
    FirstNonEmpty(ClaimAt(t, issuer.subjectClaim), t.sub)
  }

  function ClaimValues(t: Token, paths: seq<string>): seq<string> {
    if paths == [] then []
    else
      var path := Trim(paths[|paths| - 1]);
      ClaimValues(t, paths[..|paths| - 1]) + if path != "" && path in t.lists then t.lists[path] else []
  }

  predicate RequiredClaimsMet(t: Token, issuer: Issuer) {
    forall path | path in issuer.requiredClaims :: ClaimAt(t, path) == Trim(issuer.requiredClaims[path])
  }

  function IdentityOf(t: Token, issuer: Issuer): Identity {
    var subject := SubjectOf(t, issuer);
    var roles, groups := Unique(ClaimValues(t, issuer.rolesClaims)), Unique(ClaimValues(t, issuer.groupsClaims));
    Identity("bearer", false, issuer.issuer, subject, ClaimAt(t, issuer.usernameClaim), ClaimAt(t, issuer.emailClaim),
             roles, groups, [], [], PrincipalsOf(issuer.issuer, subject, roles, groups))
  }

  /** The signature and the standard claims hold under this key. */
  predicate Signs(key: Key, t: Token, issuer: Issuer, now: int) {
    key.material in t.signers && StandardClaims(t, issuer, now)
  }

  /** What a signed token is worth; the key no longer matters. */
  function Judged(t: Token, issuer: Issuer): Verdict {
    if !RequiredClaimsMet(t, issuer) then Invalid(ClaimMismatch)
    else if SubjectOf(t, issuer) == "" then Invalid(MissingSubjectClaim)
    else Verified(IdentityOf(t, issuer))
  }

  predicate SomeKeySigns(keys: seq<Key>, t: Token, issuer: Issuer, now: int) {
    exists key :: key in keys && Signs(key, t, issuer, now)
  }

  function VerdictUnder(keys: seq<Key>, t: Token, issuer: Issuer, now: int): Verdict {
    if keys == [] then Invalid(NoKeys)
    else if SomeKeySigns(keys, t, issuer, now) then Judged(t, issuer)
    else Invalid(BadSignature)
  }

  method CollectClaimValues(t: Token, paths: seq<string>) returns (out: seq<string>)
    ensures out == ClaimValues(t, paths)
  {
    out := [];
    for i := 0 to |paths|
      invariant out == ClaimValues(t, paths[..i])
    {
      assert paths[..i + 1][..i] == paths[..i];
      var path := Trim(paths[i]);
      if path != "" && path in t.lists {
        out := out + t.lists[path];
      }
    }
    assert paths[..|paths|] == paths;
  }

  /** `verifyWithKeys`: keys are tried in turn, but the first that signs decides. */
  method VerifyWithKeys(t: Token, issuer: Issuer, keys: seq<Key>, now: int) returns (v: Verdict)
    ensures v == VerdictUnder(keys, t, issuer, now)
  {
    if |keys| == 0 {
      return Invalid(NoKeys);
    }
    for i := 0 to |keys|
      invariant forall j | 0 <= j < i :: !Signs(keys[j], t, issuer, now)
    {
      if keys[i].material !in t.signers {
        continue;
      }
      if !StandardClaims(t, issuer, now) {
        continue;
      }
      assert keys[i] in keys && Signs(keys[i], t, issuer, now);
      if !RequiredClaimsMet(t, issuer) {
        return Invalid(ClaimMismatch);
      }
      var subject := FirstNonEmpty(ClaimAt(t, issuer.subjectClaim), t.sub);
      if subject == "" {
        return Invalid(MissingSubjectClaim);
      }
      var roles := CollectClaimValues(t, issuer.rolesClaims);
      roles := UniqueStrings(roles);
      var groups := CollectClaimValues(t, issuer.groupsClaims);
      groups := UniqueStrings(groups);
      var principals := PrincipalsFor(issuer.issuer, subject, roles, groups);
      return Verified(Identity("bearer", false, issuer.issuer, subject,
                               ClaimAt(t, issuer.usernameClaim), ClaimAt(t, issuer.emailClaim),
                               roles, groups, [], [], principals));
    }
    return Invalid(BadSignature);
  }

  // ---- What a verdict says of the token's own fields ----

  /** The trimmed text of the claim at a path; an absent claim reads as blank. */
  function TextAt(t: Token, path: string): string {
    if Trim(path) == "" then "" else if Trim(path) !in t.claims then "" else Trim(t.claims[Trim(path)])
  }

  /** One of the keys made the signature, the token is from this issuer and for one of its
      audiences, and it is used within its times, give or take a minute. */
  ghost predicate Genuine(keys: seq<Key>, t: Token, issuer: Issuer, now: int) {
    && (exists i :: 0 <= i < |keys| && keys[i].material in t.signers)
    && (issuer.issuer == "" || t.iss == issuer.issuer)
    && (issuer.audiences == [] || exists a :: a in issuer.audiences && a in t.audiences)
    && (match t.notBefore case Some(from) => from <= now + 60 case None => true)
    && (match t.expiry case Some(until) => now <= until + 60 case None => true)
    && (match t.issuedAt case Some(at) => at <= now + 60 case None => true)
  }

  /** Each required claim has the required text, up to padding. A blank requirement is also met by
      an absent claim, any other only by one that is there. */
  ghost predicate HasRequired(t: Token, issuer: Issuer) {
    forall path | path in issuer.requiredClaims ::
      var want := Trim(issuer.requiredClaims[path]);
      if want == "" then Trim(path) == "" || Trim(path) !in t.claims || Trim(t.claims[Trim(path)]) == ""
      else Trim(path) != "" && Trim(path) in t.claims && Trim(t.claims[Trim(path)]) == want
  }

  /** The configured claim names the subject, and the standard one if it is blank. */
  function SubjectText(t: Token, issuer: Issuer): string {
    if TextAt(t, issuer.subjectClaim) == "" then Trim(t.sub) else TextAt(t, issuer.subjectClaim)
  }

  /** The role or group `x` is a trimmed value of one of these lists of the token. */
  ghost predicate Listed(t: Token, paths: seq<string>, x: string) {
    x != "" && exists path, v ::
      path in paths && Trim(path) != "" && Trim(path) in t.lists && v in t.lists[Trim(path)] && Trim(v) == x
  }

  ghost predicate Describes(identity: Identity, t: Token, issuer: Issuer) {
    && identity.authMethod == "bearer" && !identity.superuser && identity.issuer == issuer.issuer
    && identity.subject == SubjectText(t, issuer)
    && identity.username == TextAt(t, issuer.usernameClaim) && identity.email == TextAt(t, issuer.emailClaim)
    && (forall x :: x in identity.roles <==> Listed(t, issuer.rolesClaims, x))
    && (forall x :: x in identity.groups <==> Listed(t, issuer.groupsClaims, x))
    && identity.localRoles == [] && identity.localGroups == []
    && (forall x :: x in identity.principals <==>
          GivenPrincipal(issuer.issuer, identity.subject, identity.roles, identity.groups, x))
  }

  lemma RequiredIff(t: Token, issuer: Issuer)
    ensures RequiredClaimsMet(t, issuer) <==> HasRequired(t, issuer)
  {
    if RequiredClaimsMet(t, issuer) {
      forall path | path in issuer.requiredClaims
        ensures
          var want := Trim(issuer.requiredClaims[path]);
          if want == "" then Trim(path) == "" || Trim(path) !in t.claims || Trim(t.claims[Trim(path)]) == ""
          else Trim(path) != "" && Trim(path) in t.claims && Trim(t.claims[Trim(path)]) == want
      {
        assert ClaimAt(t, path) == Trim(issuer.requiredClaims[path]);
      }
    }
    if HasRequired(t, issuer) {
      forall path | path in issuer.requiredClaims ensures ClaimAt(t, path) == Trim(issuer.requiredClaims[path]) {
      }
    }
  }

  lemma GenuineIff(keys: seq<Key>, t: Token, issuer: Issuer, now: int)
    ensures SomeKeySigns(keys, t, issuer, now) <==> Genuine(keys, t, issuer, now)
  {
    if SomeKeySigns(keys, t, issuer, now) {
      var key :| key in keys && Signs(key, t, issuer, now);
      var i :| 0 <= i < |keys| && keys[i] == key;
    }
    if Genuine(keys, t, issuer, now) {
      var i :| 0 <= i < |keys| && keys[i].material in t.signers;
      assert keys[i] in keys && Signs(keys[i], t, issuer, now);
    }
  }

  lemma {:induction false} ValuesListed(t: Token, paths: seq<string>, x: string)
    ensures x in CleanSet(ClaimValues(t, paths)) <==> Listed(t, paths, x)
  {
    if paths == [] {
      assert CleanSet([]) == {};
    } else {
      var init, last := paths[..|paths| - 1], paths[|paths| - 1];
      assert paths == init + [last];
      ValuesListed(t, init, x);
      var own := if Trim(last) != "" && Trim(last) in t.lists then t.lists[Trim(last)] else [];
      CleanSetConcat(ClaimValues(t, init), own);
      OwnValues(own, x);
      assert Listed(t, paths, x) <==> Listed(t, init, x) || (x != "" && exists v :: v in own && Trim(v) == x) by {
        if v :| x != "" && v in own && Trim(v) == x {
          assert last in paths;
        }
      }
    }
  }

  lemma OwnValues(own: seq<string>, x: string)
    ensures x in CleanSet(own) <==> x != "" && exists v :: v in own && Trim(v) == x
  {
    CleanMember(own, x);
    if i :| 0 <= i < |own| && Trim(own[i]) == x {
      assert own[i] in own;
    }
  }

  lemma IdentityDescribes(t: Token, issuer: Issuer)
    ensures SubjectOf(t, issuer) == SubjectText(t, issuer)
    ensures Describes(IdentityOf(t, issuer), t, issuer)
  {
    TrimTrimmed(t.sub);
    assert ClaimAt(t, issuer.subjectClaim) == TextAt(t, issuer.subjectClaim);
    TextIsTrimmed(t, issuer.subjectClaim);
    var roles, groups := ClaimValues(t, issuer.rolesClaims), ClaimValues(t, issuer.groupsClaims);
    UniqueElems(roles);
    UniqueElems(groups);
    forall x ensures x in Unique(roles) <==> Listed(t, issuer.rolesClaims, x) {
      ValuesListed(t, issuer.rolesClaims, x);
      assert x in Unique(roles) <==> x in Elems(Unique(roles));
    }
    forall x ensures x in Unique(groups) <==> Listed(t, issuer.groupsClaims, x) {
      ValuesListed(t, issuer.groupsClaims, x);
      assert x in Unique(groups) <==> x in Elems(Unique(groups));
    }
    forall x ensures x in IdentityOf(t, issuer).principals <==>
      GivenPrincipal(issuer.issuer, SubjectOf(t, issuer), Unique(roles), Unique(groups), x)
    {
      PrincipalsGiven(issuer.issuer, SubjectOf(t, issuer), Unique(roles), Unique(groups), x);
    }
  }

  lemma TextIsTrimmed(t: Token, path: string)
    ensures Trim(TextAt(t, path)) == TextAt(t, path)
  {
    TrimFixed("");
    if Trim(path) != "" && Trim(path) in t.claims {
      TrimTrimmed(t.claims[Trim(path)]);
      TrimFixed(Trim(t.claims[Trim(path)]));
    }
  }

  /** The verdict under a list of keys, read off the fields of the token. */
  lemma VerdictExact(keys: seq<Key>, t: Token, issuer: Issuer, now: int)
    ensures
      var v := VerdictUnder(keys, t, issuer, now);
      && (v == Invalid(NoKeys) <==> keys == [])
      && (v == Invalid(BadSignature) <==> keys != [] && !Genuine(keys, t, issuer, now))
      && (v == Invalid(ClaimMismatch) <==> Genuine(keys, t, issuer, now) && !HasRequired(t, issuer))
      && (v == Invalid(MissingSubjectClaim) <==>
          Genuine(keys, t, issuer, now) && HasRequired(t, issuer) && SubjectText(t, issuer) == "")
      && (v.Verified? <==> Genuine(keys, t, issuer, now) && HasRequired(t, issuer) && SubjectText(t, issuer) != "")
      && (v.Verified? ==> Describes(v.identity, t, issuer))
  {
    GenuineIff(keys, t, issuer, now);
    RequiredIff(t, issuer);
    IdentityDescribes(t, issuer);
  }

  // ---- Choosing keys by id (section 4.5 of RFC 7517) ----

  function WithId(keys: seq<Key>, kid: string): seq<Key> {
    if keys == [] then []
    else
      var key := keys[|keys| - 1];
      WithId(keys[..|keys| - 1], kid) + if Trim(key.id) == kid then [key] else []
  }

  /** The keys carrying the token's id, or all of them when it names none. */
  function Selected(keys: seq<Key>, kid: string): seq<Key> {
    if Trim(kid) == "" || WithId(keys, Trim(kid)) == [] then keys else WithId(keys, Trim(kid))
  }

  method SelectKeys(keys: seq<Key>, keyId: string) returns (out: seq<Key>)
    ensures out == Selected(keys, keyId)
  {
    var kid := Trim(keyId);
    if kid == "" {
      return keys;
    }
    out := [];
    for i := 0 to |keys|
      invariant out == WithId(keys[..i], kid)
    {
      assert keys[..i + 1][..i] == keys[..i];
      if Trim(keys[i].id) == kid {
        out := out + [keys[i]];
      }
    }
    assert keys[..|keys|] == keys;
    if |out| == 0 {
      return keys;
    }
  }

  lemma {:induction false} WithIdExact(keys: seq<Key>, kid: string)
    ensures forall key :: key in WithId(keys, kid) <==> key in keys && Trim(key.id) == kid
  {
    if keys != [] {
      WithIdExact(keys[..|keys| - 1], kid);
      assert keys == keys[..|keys| - 1] + [keys[|keys| - 1]];
    }
  }

  /** A key is tried exactly when its id is the token's, or no key has the token's id. */
  lemma SelectedExact(keys: seq<Key>, kid: string, key: Key)
    ensures key in Selected(keys, kid) <==>
            && key in keys
            && (|| Trim(kid) == ""
                || Trim(key.id) == Trim(kid)
                || !exists other :: other in keys && Trim(other.id) == Trim(kid))
    ensures Selected(keys, kid) == [] <==> keys == []
  {
    var matching := WithId(keys, Trim(kid));
    WithIdExact(keys, Trim(kid));
    if matching != [] {
      assert matching[0] in matching && matching[0] in keys;
    }
  }

  // ---- The key cache ----

  datatype CacheEntry = CacheEntry(keys: seq<Key>, fetchedAt: int)

  type Cache = map<string, CacheEntry>

  predicate FreshIn(c: Cache, issuer: string, now: int) {
    issuer in c && now - c[issuer].fetchedAt < FRESH_FOR && c[issuer].keys != []
  }

  /** A fetch ends at one instant with the keys published then, or fails. */
  function FetchedKeys(fetch: Option<seq<Key>>): Option<seq<Key>> {
    if fetch.None? || fetch.value == [] then None else fetch
  }

  function CacheAfterFetch(c: Cache, issuer: string, fetch: Option<seq<Key>>, now: int): Cache {
    match FetchedKeys(fetch)
    case None => c
    case Some(keys) => c[issuer := CacheEntry(keys, now)]
  }

  predicate Accepts(keys: seq<Key>, t: Token, issuer: Issuer, now: int) {
    VerdictUnder(Selected(keys, t.kid), t, issuer, now).Verified?
  }

  /** The keys of the first attempt. */
  function FirstKeys(c: Cache, issuer: Issuer, first: Option<seq<Key>>, now: int): Option<seq<Key>> {
    if FreshIn(c, issuer.issuer, now) then Some(c[issuer.issuer].keys) else FetchedKeys(first)
  }

  function CacheAfterFirst(c: Cache, issuer: Issuer, first: Option<seq<Key>>, now: int): Cache {
    if FreshIn(c, issuer.issuer, now) then c else CacheAfterFetch(c, issuer.issuer, first, now)
  }

  /** The verdict: what fresh cached keys, or else the first fetch, say if they accept the
      token, and otherwise what a forced second fetch says. */
  function VerdictOf(c: Cache, t: Token, issuer: Issuer, first: Option<seq<Key>>, second: Option<seq<Key>>, now: int)
    : Verdict
  {
    var keys := FirstKeys(c, issuer, first, now);
    if keys.None? then Invalid(FetchFailed)
    else if Accepts(keys.value, t, issuer, now) then Judged(t, issuer)
    else if FetchedKeys(second).None? then Invalid(FetchFailed)
    else VerdictUnder(Selected(FetchedKeys(second).value, t.kid), t, issuer, now)
  }

  function CacheAfterVerify(c: Cache, t: Token, issuer: Issuer, first: Option<seq<Key>>, second: Option<seq<Key>>,
                            now: int): Cache {
    var keys, d := FirstKeys(c, issuer, first, now), CacheAfterFirst(c, issuer, first, now);
    if keys.None? || Accepts(keys.value, t, issuer, now) then d
    else CacheAfterFetch(d, issuer.issuer, second, now)
  }

  class KeyVerifier {
    var cache: Cache

    constructor ()
      ensures cache == map[]
    {
      cache := map[];
    }

    method KeysForIssuer(issuer: Issuer, forceRefresh: bool, fetch: Option<seq<Key>>, now: int)
      returns (keys: Option<seq<Key>>)
      modifies this
      ensures
        if !forceRefresh && FreshIn(old(cache), issuer.issuer, now) then
          keys == Some(old(cache)[issuer.issuer].keys) && cache == old(cache)
        else
          keys == FetchedKeys(fetch) && cache == CacheAfterFetch(old(cache), issuer.issuer, fetch, now)
    {
      if issuer.issuer in cache {
        var state := cache[issuer.issuer];
        if !forceRefresh && now - state.fetchedAt < FRESH_FOR && |state.keys| > 0 {
          return Some(state.keys);
        }
      }
      if fetch.None? {
        return None;
      }
      var jwks := fetch.value;
      if |jwks| == 0 {
        return None;
      }
      cache := cache[issuer.issuer := CacheEntry(jwks, now)];
      return Some(jwks);
    }

    /** The two attempts of `verifyAgainstIssuer`, each with its own fetch. */
    method VerifyAgainstIssuer(t: Token, issuer: Issuer, first: Option<seq<Key>>, second: Option<seq<Key>>, now: int)
      returns (v: Verdict)
      modifies this
      ensures v == VerdictOf(old(cache), t, issuer, first, second, now)
      ensures cache == CacheAfterVerify(old(cache), t, issuer, first, second, now)
    {
      var keys := KeysForIssuer(issuer, false, first, now);
      if keys.None? {
        return Invalid(FetchFailed);
      }
      var selected := SelectKeys(keys.value, t.kid);
      v := VerifyWithKeys(t, issuer, selected, now);
      if v.Verified? {
        return;
      }
      keys := KeysForIssuer(issuer, true, second, now);
      if keys.None? {
        return Invalid(FetchFailed);
      }
      selected := SelectKeys(keys.value, t.kid);
      v := VerifyWithKeys(t, issuer, selected, now);
    }
  }

  /** A token that verifies, from the cache or from either fetch, is genuine under keys of this
      issuer, has every required claim, and yields the identity it describes. */
  lemma VerifiedMeans(c: Cache, t: Token, issuer: Issuer, first: Option<seq<Key>>, second: Option<seq<Key>>, now: int)
    requires VerdictOf(c, t, issuer, first, second, now).Verified?
    ensures
      var id := VerdictOf(c, t, issuer, first, second, now).identity;
      && (exists keys: seq<Key> :: OfferedTo(c, issuer, first, second, now, keys) && Genuine(keys, t, issuer, now))
      && HasRequired(t, issuer) && SubjectText(t, issuer) != "" && Describes(id, t, issuer)
  {
    var keys := FirstKeys(c, issuer, first, now).value;
    var offered := if Accepts(keys, t, issuer, now) then keys else FetchedKeys(second).value;
    VerdictExact(Selected(offered, t.kid), t, issuer, now);
    GenuineAmong(offered, t, issuer, now);
    assert OfferedTo(c, issuer, first, second, now, offered);
  }

  /** The keys that the cache holds for the issuer, if stored less than 900 seconds ago, or that a
      fetch returned. */
  ghost predicate OfferedTo(c: Cache, issuer: Issuer, first: Option<seq<Key>>, second: Option<seq<Key>>, now: int,
                            keys: seq<Key>)
  {
    || first == Some(keys)
    || second == Some(keys)
    || (issuer.issuer in c && c[issuer.issuer].keys == keys && now < c[issuer.issuer].fetchedAt + 900)
  }

  lemma GenuineAmong(keys: seq<Key>, t: Token, issuer: Issuer, now: int)
    requires Genuine(Selected(keys, t.kid), t, issuer, now)
    ensures Genuine(keys, t, issuer, now)
  {
    var chosen := Selected(keys, t.kid);
    var i :| 0 <= i < |chosen| && chosen[i].material in t.signers;
    SelectedExact(keys, t.kid, chosen[i]);
    assert chosen[i] in chosen;
    var j :| 0 <= j < |keys| && keys[j] == chosen[i];
  }

  /** The cache had keys of this issuer, stored less than 900 seconds ago. */
  predicate Stocked(c: Cache, issuer: string, now: int) {
    issuer in c && c[issuer].keys != [] && now < c[issuer].fetchedAt + 900
  }

  predicate Fetched(fetch: Option<seq<Key>>) {
    fetch.Some? && fetch.value != []
  }

  /** What one verification fetches is what it caches, and a fetch is only used when it has to be:
      the first without stocked keys, the second when the keys at hand do not accept the token. */
  lemma CacheWritten(c: Cache, t: Token, issuer: Issuer, first: Option<seq<Key>>, second: Option<seq<Key>>, now: int)
    ensures
      var k, u := issuer.issuer, CacheAfterVerify(c, t, issuer, first, second, now);
      var stocked := Stocked(c, k, now);
      var keys := if stocked then c[k].keys else if Fetched(first) then first.value else [];
      var passed := keys != [] && Accepts(keys, t, issuer, now);
      && (forall j | j != k :: (j in u <==> j in c) && (j in u ==> u[j] == c[j]))
      && (if keys != [] && !passed && Fetched(second) then u == c[k := CacheEntry(second.value, now)]
          else if keys != [] && !stocked then u == c[k := CacheEntry(keys, now)]
          else u == c)
      && (VerdictOf(c, t, issuer, first, second, now) == Invalid(FetchFailed) <==>
            keys == [] || (!passed && !Fetched(second)))
      && (VerdictOf(c, t, issuer, first, second, now).Verified? <==>
            passed || (keys != [] && Fetched(second) && Accepts(second.value, t, issuer, now)))
  {
    assert FreshIn(c, issuer.issuer, now) <==> Stocked(c, issuer.issuer, now);
    VerdictErrors(c, t, issuer, first, second, now);
  }

  lemma VerdictErrors(c: Cache, t: Token, issuer: Issuer, first: Option<seq<Key>>, second: Option<seq<Key>>, now: int)
    ensures
      var keys := FirstKeys(c, issuer, first, now);
      var passed := keys.Some? && Accepts(keys.value, t, issuer, now);
      && (VerdictOf(c, t, issuer, first, second, now) == Invalid(FetchFailed) <==>
            keys.None? || (!passed && FetchedKeys(second).None?))
      && (VerdictOf(c, t, issuer, first, second, now).Verified? <==>
            passed || (keys.Some? && FetchedKeys(second).Some? && Accepts(FetchedKeys(second).value, t, issuer, now)))
  {
  }

  /** For 900 seconds after a verification that fetched its keys, another token those keys accept is
      verified without any fetch, and the cache stays. */
  lemma CachedKeysServe(c: Cache, t: Token, issuer: Issuer, first: Option<seq<Key>>, second: Option<seq<Key>>, now: int,
                        t': Token, later: int)
    requires Fetched(first) && !Stocked(c, issuer.issuer, now) && Accepts(first.value, t, issuer, now)
    requires later < now + 900 && Accepts(first.value, t', issuer, later)
    ensures
      var u := CacheAfterVerify(c, t, issuer, first, second, now);
      && VerdictOf(u, t', issuer, None, None, later).Verified?
      && CacheAfterVerify(u, t', issuer, None, None, later) == u
  {
    CacheWritten(c, t, issuer, first, second, now);
    CacheWritten(CacheAfterVerify(c, t, issuer, first, second, now), t', issuer, None, None, later);
  }

  // ---- Several issuers ----

  /** What the two fetches of one issuer's check would return. */
  datatype Fetches = Fetches(first: Option<seq<Key>>, second: Option<seq<Key>>)

  predicate Trusts(issuer: Issuer, t: Token) {
    issuer.enabled && Trim(issuer.issuer) == Trim(t.iss)
  }

  datatype Search = Search(verdict: Verdict, cache: Cache)

  /** The trusted issuers are checked in turn until one verifies; the last failure is kept. */
  function SearchFrom(c: Cache, t: Token, issuers: seq<Issuer>, fetches: seq<Fetches>, now: int): Search
    requires |fetches| == |issuers|
  {
    if issuers == [] then Search(Invalid(UntrustedIssuer), c)
    else
      var n := |issuers| - 1;
      var before := SearchFrom(c, t, issuers[..n], fetches[..n], now);
      if before.verdict.Verified? || !Trusts(issuers[n], t) then before
      else
        Search(VerdictOf(before.cache, t, issuers[n], fetches[n].first, fetches[n].second, now),
               CacheAfterVerify(before.cache, t, issuers[n], fetches[n].first, fetches[n].second, now))
  }

  /** `Verify`, once the token is parsed. */
  method Verify(v: KeyVerifier, t: Token, issuers: seq<Issuer>, fetches: seq<Fetches>, now: int)
    returns (verdict: Verdict)
    requires |fetches| == |issuers|
    modifies v
    ensures Trim(t.iss) == "" ==> verdict == Invalid(MissingIss) && v.cache == old(v.cache)
    ensures Trim(t.iss) != "" ==> Search(verdict, v.cache) == SearchFrom(old(v.cache), t, issuers, fetches, now)
  {
    if Trim(t.iss) == "" {
      return Invalid(MissingIss);
    }
    verdict := Invalid(UntrustedIssuer);
    for i := 0 to |issuers|
      invariant !verdict.Verified?
      invariant Search(verdict, v.cache) == SearchFrom(old(v.cache), t, issuers[..i], fetches[..i], now)
    {
      SearchNext(old(v.cache), t, issuers, fetches, now, i);
      if !issuers[i].enabled || Trim(issuers[i].issuer) != Trim(t.iss) {
        continue;
      }
      verdict := v.VerifyAgainstIssuer(t, issuers[i], fetches[i].first, fetches[i].second, now);
      if verdict.Verified? {
        SearchDone(old(v.cache), t, issuers, fetches, now, i + 1);
        return;
      }
    }
    assert issuers[..|issuers|] == issuers && fetches[..|issuers|] == fetches;
  }

  lemma SearchNext(c: Cache, t: Token, issuers: seq<Issuer>, fetches: seq<Fetches>, now: int, i: nat)
    requires |fetches| == |issuers| && i < |issuers|
    ensures
      var before := SearchFrom(c, t, issuers[..i], fetches[..i], now);
      SearchFrom(c, t, issuers[..i + 1], fetches[..i + 1], now) ==
      if before.verdict.Verified? || !Trusts(issuers[i], t) then before
      else
        Search(VerdictOf(before.cache, t, issuers[i], fetches[i].first, fetches[i].second, now),
               CacheAfterVerify(before.cache, t, issuers[i], fetches[i].first, fetches[i].second, now))
  {
    assert issuers[..i + 1][..i] == issuers[..i] && fetches[..i + 1][..i] == fetches[..i];
  }

  lemma {:induction false} SearchDone(c: Cache, t: Token, issuers: seq<Issuer>, fetches: seq<Fetches>, now: int, i: nat)
    requires |fetches| == |issuers| && i <= |issuers|
    requires SearchFrom(c, t, issuers[..i], fetches[..i], now).verdict.Verified?
    ensures SearchFrom(c, t, issuers, fetches, now) == SearchFrom(c, t, issuers[..i], fetches[..i], now)
    decreases |issuers| - i
  {
    if i == |issuers| {
      assert issuers[..i] == issuers && fetches[..i] == fetches;
    } else {
      SearchNext(c, t, issuers, fetches, now, i);
      SearchDone(c, t, issuers, fetches, now, i + 1);
    }
  }

  lemma TrustedVerdict(c: Cache, t: Token, issuer: Issuer, f: Fetches, now: int)
    ensures
      var v := VerdictOf(c, t, issuer, f.first, f.second, now);
      v != Invalid(UntrustedIssuer) && (v.Verified? ==> v.identity == IdentityOf(t, issuer))
  {
    if VerdictOf(c, t, issuer, f.first, f.second, now).Verified? {
      IdentityIsUnique(c, t, issuer, f.first, f.second, now);
    }
  }

  predicate Identifies(issuer: Issuer, t: Token, verdict: Verdict) {
    Trusts(issuer, t) && verdict == Verified(IdentityOf(t, issuer))
  }

  /** The last issuer of the list decides if it is trusted and none before verified the token. */
  lemma SearchLast(c: Cache, t: Token, issuers: seq<Issuer>, fetches: seq<Fetches>, now: int)
    requires |fetches| == |issuers| && issuers != []
    ensures
      var n := |issuers| - 1;
      var before := SearchFrom(c, t, issuers[..n], fetches[..n], now).verdict;
      var v := SearchFrom(c, t, issuers, fetches, now).verdict;
      if before.Verified? || !Trusts(issuers[n], t) then v == before
      else v != Invalid(UntrustedIssuer) && (v.Verified? ==> Identifies(issuers[n], t, v))
  {
    var n := |issuers| - 1;
    TrustedVerdict(SearchFrom(c, t, issuers[..n], fetches[..n], now).cache, t, issuers[n], fetches[n], now);
  }

  /** A token is verified only by an enabled issuer whose name is the token's, and then holds
      the identity that issuer gives it. */
  lemma {:induction false} SearchVerifies(c: Cache, t: Token, issuers: seq<Issuer>, fetches: seq<Fetches>, now: int)
    requires |fetches| == |issuers| && SearchFrom(c, t, issuers, fetches, now).verdict.Verified?
    ensures exists i ::
      0 <= i < |issuers| && Identifies(issuers[i], t, SearchFrom(c, t, issuers, fetches, now).verdict)
  {
    var n := |issuers| - 1;
    var v := SearchFrom(c, t, issuers, fetches, now).verdict;
    SearchLast(c, t, issuers, fetches, now);
    if SearchFrom(c, t, issuers[..n], fetches[..n], now).verdict.Verified? {
      SearchVerifies(c, t, issuers[..n], fetches[..n], now);
      var i :| 0 <= i < n && Identifies(issuers[..n][i], t, v);
      assert Identifies(issuers[i], t, v);
    } else {
      assert Identifies(issuers[n], t, v);
    }
  }

  /** In terms of the token: it is verified only against an enabled issuer of the list that has its
      name, from which it is and whose required claims it has, and it yields what it describes. */
  lemma {:induction false} SearchMeans(c: Cache, t: Token, issuers: seq<Issuer>, fetches: seq<Fetches>, now: int)
    requires |fetches| == |issuers| && SearchFrom(c, t, issuers, fetches, now).verdict.Verified?
    ensures exists i ::
      && 0 <= i < |issuers| && issuers[i].enabled && Trim(issuers[i].issuer) == Trim(t.iss)
      && VouchedFor(t, issuers[i], now, SearchFrom(c, t, issuers, fetches, now).verdict.identity)
  {
    var n := |issuers| - 1;
    var before := SearchFrom(c, t, issuers[..n], fetches[..n], now);
    if before.verdict.Verified? {
      SearchMeans(c, t, issuers[..n], fetches[..n], now);
      var i :| 0 <= i < n && issuers[..n][i].enabled && Trim(issuers[..n][i].issuer) == Trim(t.iss)
        && VouchedFor(t, issuers[..n][i], now, before.verdict.identity);
      assert issuers[i] == issuers[..n][i];
    } else {
      VerifiedMeans(before.cache, t, issuers[n], fetches[n].first, fetches[n].second, now);
    }
  }

  ghost predicate VouchedFor(t: Token, issuer: Issuer, now: int, identity: Identity) {
    && (exists keys: seq<Key> :: Genuine(keys, t, issuer, now))
    && HasRequired(t, issuer) && identity.subject != "" && Describes(identity, t, issuer)
  }

  /** It is reported as untrusted exactly when no enabled issuer has its name. */
  lemma {:induction false} UntrustedIff(c: Cache, t: Token, issuers: seq<Issuer>, fetches: seq<Fetches>, now: int)
    requires |fetches| == |issuers|
    ensures SearchFrom(c, t, issuers, fetches, now).verdict == Invalid(UntrustedIssuer) <==>
            forall i | 0 <= i < |issuers| && issuers[i].enabled :: Trim(issuers[i].issuer) != Trim(t.iss)
  {
    if issuers != [] {
      var n := |issuers| - 1;
      UntrustedIff(c, t, issuers[..n], fetches[..n], now);
      SearchLast(c, t, issuers, fetches, now);
      assert forall i | 0 <= i < n :: issuers[..n][i] == issuers[i];
    }
  }

  // ---- The cache against the publications ----

  /** Whichever key and attempt succeeds, the identity is a function of the token and the
      issuer alone, its principals are trimmed, and it carries no local grants. */
  lemma IdentityIsUnique(c: Cache, t: Token, issuer: Issuer, first: Option<seq<Key>>, second: Option<seq<Key>>, now: int)
    requires VerdictOf(c, t, issuer, first, second, now).Verified?
    ensures
      var identity := VerdictOf(c, t, issuer, first, second, now).identity;
      && identity == IdentityOf(t, issuer)
      && identity.subject != "" && Trimmed(identity.subject)
      && Clean(identity.roles) && Clean(identity.groups) && Clean(identity.principals)
      && identity.localRoles == [] && identity.localGroups == [] && !identity.superuser
  {
    assert Judged(t, issuer) == VerdictOf(c, t, issuer, first, second, now);
    IdentityIsClean(t, issuer);
  }

  lemma IdentityIsClean(t: Token, issuer: Issuer)
    requires Judged(t, issuer).Verified?
    ensures
      var identity := IdentityOf(t, issuer);
      && identity.subject != "" && Trimmed(identity.subject)
      && Clean(identity.roles) && Clean(identity.groups) && Clean(identity.principals)
  {
    var id := IdentityOf(t, issuer);
    UniqueIsClean(ClaimValues(t, issuer.rolesClaims));
    UniqueIsClean(ClaimValues(t, issuer.groupsClaims));
    TrimTrimmed(ClaimAt(t, issuer.subjectClaim));
    TrimTrimmed(t.sub);
    PrincipalsExact(issuer.issuer, id.subject, id.roles, id.groups, "");
  }

  /** With the issuer reachable, caching changes the decision in one way only: a token may
      also be accepted under keys that were published less than fifteen minutes ago. */
  lemma AcceptedIff(c: Cache, t: Token, issuer: Issuer, published: seq<Key>, now: int)
    requires published != []
    ensures VerdictOf(c, t, issuer, Some(published), Some(published), now).Verified? <==>
            || Accepts(published, t, issuer, now)
            || (FreshIn(c, issuer.issuer, now) && Accepts(c[issuer.issuer].keys, t, issuer, now))
  {
  }

  /** Acceptance needs a key of the offered set that signs the token. */
  lemma AcceptedHasSigner(keys: seq<Key>, t: Token, issuer: Issuer, now: int)
    requires Accepts(keys, t, issuer, now)
    ensures SomeKeySigns(keys, t, issuer, now)
  {
    var key :| key in Selected(keys, t.kid) && Signs(key, t, issuer, now);
    SelectedExact(keys, t.kid, key);
    assert key in keys;
  }

  /** The world a verifier lives in: what each issuer publishes now, the cache, the clock. */
  datatype KeyWorld = KeyWorld(published: map<string, seq<Key>>, cache: Cache, now: int)

  datatype KeyStep =
    | Wait(seconds: nat)
    | Publish(name: string, keys: seq<Key>)
    | Withdraw(name: string)
    | Check(token: Token, issuer: Issuer, first: bool, second: bool)
    | Refresh(issuer: Issuer, up: bool)

  function Answer(w: KeyWorld, issuer: string, up: bool): Option<seq<Key>> {
    if up && issuer in w.published then Some(w.published[issuer]) else None
  }

  function CheckVerdict(w: KeyWorld, t: Token, issuer: Issuer, first: bool, second: bool): Verdict {
    VerdictOf(w.cache, t, issuer, Answer(w, issuer.issuer, first), Answer(w, issuer.issuer, second), w.now)
  }

  function StepKeys(w: KeyWorld, step: KeyStep): KeyWorld {
    match step
    case Wait(n) => w.(now := w.now + n)
    case Publish(i, keys) => w.(published := w.published[i := keys])
    case Withdraw(i) => w.(published := w.published - {i})
    case Check(t, i, first, second) =>
      w.(cache := CacheAfterVerify(w.cache, t, i, Answer(w, i.issuer, first), Answer(w, i.issuer, second), w.now))
    case Refresh(i, up) => w.(cache := CacheAfterFetch(w.cache, i.issuer, Answer(w, i.issuer, up), w.now))
  }

  function RunKeys(w: KeyWorld, steps: seq<KeyStep>): KeyWorld {
    if steps == [] then w else StepKeys(RunKeys(w, steps[..|steps| - 1]), steps[|steps| - 1])
  }

  /** At some point of the run, at instant `at`, the issuer published exactly these keys. */
  ghost predicate PublishedAt(w: KeyWorld, steps: seq<KeyStep>, issuer: string, at: int, keys: seq<Key>) {
    exists j {:trigger steps[..j]} ::
      0 <= j <= |steps| && PublishedNow(RunKeys(w, steps[..j]), issuer, at, keys)
  }

  predicate PublishedNow(w: KeyWorld, issuer: string, at: int, keys: seq<Key>) {
    w.now == at && issuer in w.published && w.published[issuer] == keys
  }

  lemma PublishedAtLater(w: KeyWorld, steps: seq<KeyStep>, n: nat, issuer: string, at: int, keys: seq<Key>)
    requires n <= |steps| && PublishedAt(w, steps[..n], issuer, at, keys)
    ensures PublishedAt(w, steps, issuer, at, keys)
  {
    var j :| 0 <= j <= n && PublishedNow(RunKeys(w, steps[..n][..j]), issuer, at, keys);
    assert steps[..n][..j] == steps[..j];
  }

  lemma FetchedNow(w: KeyWorld, step: KeyStep, issuer: string)
    requires issuer in StepKeys(w, step).cache
    ensures var e := StepKeys(w, step).cache[issuer];
      || (issuer in w.cache && e == w.cache[issuer])
      || (PublishedNow(w, issuer, e.fetchedAt, e.keys) && e.fetchedAt == w.now && e.keys != [])
  {
  }

  /** Every cache entry of every run is a publication of its issuer, stamped with its instant. */
  lemma {:induction false} CacheIsPublished(w: KeyWorld, steps: seq<KeyStep>, issuer: string)
    requires w.cache == map[] && issuer in RunKeys(w, steps).cache
    ensures var e := RunKeys(w, steps).cache[issuer];
      e.keys != [] && e.fetchedAt <= RunKeys(w, steps).now && PublishedAt(w, steps, issuer, e.fetchedAt, e.keys)
  {
    var n := |steps| - 1;
    var before := RunKeys(w, steps[..n]);
    var e := RunKeys(w, steps).cache[issuer];
    FetchedNow(before, steps[n], issuer);
    if issuer in before.cache && e == before.cache[issuer] {
      CacheIsPublished(w, steps[..n], issuer);
      PublishedAtLater(w, steps, n, issuer, e.fetchedAt, e.keys);
    } else {
      assert PublishedNow(RunKeys(w, steps[..n]), issuer, e.fetchedAt, e.keys);
    }
  }

  lemma PublishedCurrently(w: KeyWorld, steps: seq<KeyStep>, issuer: string)
    requires issuer in RunKeys(w, steps).published
    ensures PublishedAt(w, steps, issuer, RunKeys(w, steps).now, RunKeys(w, steps).published[issuer])
  {
    var n := |steps|;
    assert steps[..n] == steps;
    assert PublishedNow(RunKeys(w, steps[..n]), issuer, RunKeys(w, steps).now, RunKeys(w, steps).published[issuer]);
  }

  /** Acceptance is by the fresh cached keys or by what the issuer publishes now. */
  lemma AcceptedBy(w: KeyWorld, t: Token, issuer: Issuer, first: bool, second: bool)
    requires CheckVerdict(w, t, issuer, first, second).Verified?
    ensures
      var name := issuer.issuer;
      || (FreshIn(w.cache, name, w.now) && Accepts(w.cache[name].keys, t, issuer, w.now))
      || (name in w.published && Accepts(w.published[name], t, issuer, w.now))
  {
  }

  /** The issuer published a signing key of the token at an instant less than fifteen
      minutes before the end of the run. */
  ghost predicate RecentlySigned(w: KeyWorld, steps: seq<KeyStep>, t: Token, issuer: Issuer, at: int, keys: seq<Key>) {
    && PublishedAt(w, steps, issuer.issuer, at, keys)
    && at <= RunKeys(w, steps).now < at + FRESH_FOR
    && SomeKeySigns(keys, t, issuer, RunKeys(w, steps).now)
  }

  /** After any run, an accepted token was signed by a key its issuer published less than
      fifteen minutes before, or publishes now. */
  lemma AcceptedMeansRecentlyPublished(w: KeyWorld, steps: seq<KeyStep>, t: Token, issuer: Issuer, first: bool, second: bool)
    requires w.cache == map[]
    requires CheckVerdict(RunKeys(w, steps), t, issuer, first, second).Verified?
    ensures exists at: int, keys: seq<Key> :: RecentlySigned(w, steps, t, issuer, at, keys)
  {
    var s, name := RunKeys(w, steps), issuer.issuer;
    AcceptedBy(s, t, issuer, first, second);
    if FreshIn(s.cache, name, s.now) && Accepts(s.cache[name].keys, t, issuer, s.now) {
      CacheIsPublished(w, steps, name);
      AcceptedHasSigner(s.cache[name].keys, t, issuer, s.now);
      assert RecentlySigned(w, steps, t, issuer, s.cache[name].fetchedAt, s.cache[name].keys);
    } else {
      PublishedCurrently(w, steps, name);
      AcceptedHasSigner(s.published[name], t, issuer, s.now);
      assert RecentlySigned(w, steps, t, issuer, s.now, s.published[name]);
    }
  }

  /** In any state, a token that the currently published keys accept is accepted whenever the issuer answers. */
  lemma ValidNowIsAccepted(w: KeyWorld, t: Token, issuer: Issuer)
    requires issuer.issuer in w.published && Accepts(w.published[issuer.issuer], t, issuer, w.now)
    ensures CheckVerdict(w, t, issuer, true, true) == Verified(IdentityOf(t, issuer))
  {
    var keys := w.published[issuer.issuer];
    SelectedExact(keys, t.kid, Key("", 0));
    AcceptedIff(w.cache, t, issuer, keys, w.now);
    IdentityIsUnique(w.cache, t, issuer, Some(keys), Some(keys), w.now);
  }
}
