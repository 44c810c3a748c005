# Verification of the certificate and CA lifecycle store

A Dafny model of the parts of the program whose correctness is a fact about whole runs
rather than about one function body, with proofs.

- **Lifecycle store.** The two leaf tables, the two CA tables and the CSR table as fields of a class
  (`Store.dfy`), one method per store operation, one SQL statement at a time inside transactions that
  roll back. The partial unique indexes are re-checked after every statement. Each method is proved equal to a
  one-pass form (`Tables.dfy`), over which the lifecycle invariant is proved for every run
  (`Lifecycle.dfy`, `Runs.dfy`). `Statements.dfy` holds the per-statement lemmas, and `Effects.dfy` what each
  operation does to each row, column by column.
- **CSR approval.** The approval flows (`Approval.dfy`), and the same flows cut into steps that any number of
  operators interleave with submissions, rejections and all other store operations (`Protocol.dfy`).
- **Doctor.** The structural checks as loops with count maps and id sets (`Doctor.dfy`). Each check is silent
  exactly when its invariant holds, and all are silent on every reachable store that was just synced
  (`DoctorProof.dfy`).
- **Legacy migration.** Grouping, stable sorting and chaining of flat rows (`Migration.dfy`).
- **Admission.** Bindings (`Authz.dfy`), printed principals (`Principals.dfy`), auto-approval rules and the pure preview
  (`Admission.dfy`), the stored subjects and the login path (`Subjects.dfy`), token verification with the key cache
  (`Verifier.dfy`), and `explain-authz` against the server (`Explain.dfy`).
- **SANs.** Normal form, comma column, the LIKE search and the overlap report (`Sans.dfy`).
- **Counters.** Share view limits under overlapping handlers (`Shares.dfy`), the submission limiter (`RateLimit.dfy`).
- **Shared.** Strings (`Text.dfy`) and sorted, duplicate-free lists (`Ordered.dfy`).

Times are whole seconds. A certificate is an opaque value with an end date, a signature check is a relation between
token and key, and a hash is any injective function.

## Where the code does less than one might read into it

Each of these is a lemma with the exact condition, or an example:

- A CA or leaf upsert keeps a caller-supplied status and lineage link, and then keeps the lifecycle invariant exactly for
  the drafts that fit (`CaUpsertKeepsInvIff`, `LeafUpsertKeepsInvIff`). The runs therefore range over the drafts that the
  program's own callers build: status empty or active, no link.
- Promotion ignores end dates. Promoting an ended CA retires the one that worked, and the next opening of the store leaves
  the name without an active CA (`PromotionServesIff`). A doctor sees the ended CA itself only when another process
  promotes it after the doctor's own opening sync (`PromotionCleanIff`).
- The doctor reads its tables one after the other. A root and its intermediate that are created between the two CA queries give
  a false missing-root error; apart from a CA that issues past its end, nothing else can appear (`SpreadListingExact`).
- CA lineages can branch: a promoted row that is superseded again has two successors (`PromotionBranchesIff`).
- A rejection between the insert and the mark of a private approval leaves an active certificate that no request names
  (`RejectionStrandsCertificate`).
- The migration has a sort key for rows without an update time, but the insert that follows refuses them and the whole
  migration rolls back (`BlankTimeIsRefused`, `MigratePrivateCerts`).
- `docs/AUTHZ_DESIGN.md:180` says that the issuer in a principal prevents collisions across providers. It does so exactly
  when neither issuer extends the other by a colon (`IssuersCollideIff`, `PortsCollide`).
- A disable is lost when an update that was read before it is written after it: the approval of a login
  (`LoginLosesDisable`), or an operator's edit of roles alone (`EditLosesDisable`), and only then (`DisableIsLostIff`).
- `explain-authz` prints the subject's status as its answer, so an active subject without a matching binding is told that it
  would be allowed (`PrintedAnswerIff`), and it never lists a binding that names a resource (`ListedBindingsExact`).
- The name search matches case-sensitively on a one-name column and through wildcards otherwise (`SearchIff`), so among
  normal names it is exact for those without `%` and `_` only (`SearchExactIff`). Private columns keep case, which matters
  exactly when they hold one name (`JoinedSearchIff`).
- The duplicate lookup compares comma parts, not names (`HashLookupIff`). The issuance commands split their names at commas
  first, so among their requests it is exact (`RequestedLookupIsExact`); a CSR can carry a name with a comma
  into a stored row (`CommaNamesCollide`).
- A share limited to `max_views` can be viewed `max_views + K - 1` times when `K` handlers overlap: that is the least
  upper bound (`ViewsBounded`, `BoundIsReached`).

## Model

| member | source | states |
|---|---|---|
| Store.Store.SyncDerivedStatusesTx | internal/storage/storage.go:1993-2022 | four updates, never stopped by a unique index, expire exactly the active rows past their end |
| Store.Store.SyncDerivedStatuses | internal/storage/storage.go:1989-1991 | the sync that opening the store runs: all four tables at once, keeping the schema |
| Store.Store.SelectActiveLeaf | internal/storage/storage.go:2322-2333 | the active row of a name, or none exactly when no row is active |
| Store.Store.SelectActiveCa | internal/storage/storage.go:2335-2346 | the same for a CA name |
| Store.Store.NextGenerationTx | internal/storage/storage.go:2375-2382 | one more than the largest generation of the name |
| Store.Store.SupersedeCurrent | internal/storage/storage.go:337-351 | select and supersede after the sync: at most the live row of the name changes, its id becomes the link, and inserting the new row cannot violate the unique index |
| Store.Store.RetireCurrent | internal/storage/storage.go:688-713 | the same for a CA, with the next generation |
| Store.Store.Upsert | internal/storage/storage.go:318-380 | fails only for the listed missing fields, a duplicate id or a missing referenced row, and then changes nothing; else the one-pass rotation |
| Store.Store.UpsertPrivateCert | internal/storage/storage.go:859-916 | the same, with the intermediate required to exist |
| Store.Store.UpsertPrivateRootCA | internal/storage/storage.go:672-738 | the same for a root: retire the live generation, insert the next |
| Store.Store.UpsertPrivateIntermediateCA | internal/storage/storage.go:765-832 | the same for an intermediate, with the root required to exist |
| Store.Store.PromotePrivateRootCA | internal/storage/storage.go:3415-3444 | fails exactly for an unknown, revoked or expired target, changing nothing; else the target alone is active under its name |
| Store.Store.PromotePrivateIntermediateCA | internal/storage/storage.go:3446-3475 | the same for an intermediate |
| Store.Store.RetirePrivateRootCA | internal/storage/storage.go:3397-3404 | retires one row, without a sync |
| Store.Store.RetirePrivateIntermediateCA | internal/storage/storage.go:3406-3413 | retires one row, without a sync |
| Store.Store.RevokePublicCert | internal/storage/storage.go:3379-3386 | revokes one row whatever its status, without a sync |
| Store.Store.RevokePrivateCert | internal/storage/storage.go:3388-3395 | the same for a private leaf |
| Store.Store.CreateCSRRequest | internal/storage/storage.go:1044-1097 | inserts the request, or refuses, in this order, a blank id, an unknown kind, a blank common name, no CSR, no pickup hash or a duplicate id |
| Store.Store.MarkCSRRequestIssued | internal/storage/storage.go:1156-1166 | succeeds, and changes anything, exactly when the request is pending |
| Store.Store.RejectCSRRequest | internal/storage/storage.go:1168-1178 | the same for a rejection |
| Effects.SyncRows | internal/storage/storage.go:1993-2022 | row by row: exactly an active row with an end before now becomes expired, and a CA stops issuing; nothing else moves |
| Effects.PublicUpsertAnswer | internal/storage/storage.go:318-380 | what an upsert answers: which missing column, used id or unknown link it refuses first, and that nothing changes then |
| Effects.PublicUpsertRows | internal/storage/storage.go:332-379 | the stored row column by column, its status and its link; the row it replaces; every other row as the sync leaves it |
| Effects.PublicUpsertSyncs | internal/storage/storage.go:332-334 | the other three tables are synced and the requests stay |
| Effects.PublicUpsertExpires | internal/storage/storage.go:363-379 | a stored row with end e is active after a sync at s if and only if s <= e, without an end always |
| Effects.PrivateUpsertAnswer | internal/storage/storage.go:859-916 | the same for a private leaf, with its intermediate |
| Effects.PrivateUpsertRows | internal/storage/storage.go:859-916 | the same for a private leaf, with its blank SANs stored as NULL |
| Effects.PrivateUpsertSyncs | internal/storage/storage.go:859-916 | the other tables of a private upsert |
| Effects.PrivateUpsertExpires | internal/storage/storage.go:859-916 | and when its row expires |
| Effects.RootUpsertAnswer | internal/storage/storage.go:672-738 | what a root upsert answers |
| Effects.RootUpsertRows | internal/storage/storage.go:688-737 | the stored root column by column, one past the largest generation of its name, trusted and issuing; the retired one; the rest as synced |
| Effects.RootUpsertSyncs | internal/storage/storage.go:688-691 | its other tables |
| Effects.RootUpsertExpires | internal/storage/storage.go:715-737 | and until when it is active and issues |
| Effects.IntermediateUpsertAnswer | internal/storage/storage.go:765-832 | what an intermediate upsert answers, which needs its root |
| Effects.IntermediateUpsertRows | internal/storage/storage.go:782-831 | its stored row, the retired one and the rest |
| Effects.IntermediateUpsertSyncs | internal/storage/storage.go:782-785 | its other tables |
| Effects.IntermediateUpsertExpires | internal/storage/storage.go:809-831 | its expiry |
| Effects.RootPromotionRows | internal/storage/storage.go:3415-3444 | which promotions are refused, changing nothing; else row by row: the target active, trusted and issuing, the live one of its name retired, ended ones expired, no other column moved |
| Effects.RootPromotionSyncs | internal/storage/storage.go:3415-3444 | the other tables of a promotion are synced |
| Effects.IntermediatePromotionRows | internal/storage/storage.go:3446-3475 | the same for an intermediate |
| Effects.IntermediatePromotionSyncs | internal/storage/storage.go:3446-3475 | and its other tables |
| Effects.RevokePublicRows | internal/storage/storage.go:3379-3386 | the row gets status revoked and the time, unless it was revoked before; every other row and table stays |
| Effects.RevokePrivateRows | internal/storage/storage.go:3388-3395 | the same for a private leaf |
| Effects.PublicRevokedForGood | internal/storage/storage.go:3379-3386 | after a revocation, whatever follows, the row is revoked and no name has it active |
| Effects.PrivateRevokedForGood | internal/storage/storage.go:3388-3395 | the same for a private leaf |
| Effects.RetireRootRows | internal/storage/storage.go:3397-3404 | the row gets status retired and stops issuing, unless it is revoked or expired; all else stays |
| Effects.RetireIntermediateRows | internal/storage/storage.go:3406-3413 | the same for an intermediate |
| Effects.RootRetiredUntilPromoted | internal/storage/storage.go:3397-3404 | after a retirement the root is neither active nor issuing as long as nobody promotes it, whatever else happens |
| Effects.IntermediateRetiredUntilPromoted | internal/storage/storage.go:3406-3413 | the same for an intermediate |
| Effects.SubmissionRows | internal/storage/storage.go:1044-1097 | which submissions are stored, and the stored columns |
| Effects.DecisionRows | internal/storage/storage.go:1156-1178 | the columns a decision writes, on a pending request only |
| Statements.UpsertedLeaf | internal/storage/storage.go:332-379 | a synced leaf table with the current row superseded takes the new row without a second active row |
| Statements.UpsertedCa | internal/storage/storage.go:693-737 | the same for a CA table |
| Statements.PromoteStatements | internal/storage/storage.go:3429-3442 | retiring the others and then activating the target keeps one active row after each of the two statements and equals the one-pass promotion |
| Lifecycle.LeafUpsertKeepsInvIff | internal/storage/storage.go:332-379 | a leaf rotation keeps the leaf invariant if and only if the draft fits: its status, and its link when no row is live |
| Lifecycle.CaUpsertKeepsInvIff | internal/storage/storage.go:688-737 | a CA rotation keeps the CA invariant if and only if the draft fits |
| Lifecycle.PromoteCasInv | internal/storage/storage.go:3415-3475 | promotion keeps the CA invariant: one active row, issuing exactly when active, trust, numbering, links to smaller generations |
| Lifecycle.ExpireLeavesInv | internal/storage/storage.go:1993-2022 | the sync keeps the leaf invariant |
| Lifecycle.ExpireCasInv | internal/storage/storage.go:1993-2022 | the sync keeps the CA invariant |
| Lifecycle.RetireCaInv | internal/storage/storage.go:3397-3413 | retiring any row keeps the CA invariant |
| Lifecycle.RevokeLeafInv | internal/storage/storage.go:3379-3395 | revoking any row keeps the leaf invariant |
| Runs.ApplyKeepsInv | internal/storage/storage.go:318-3475 | every operation, with the drafts the program builds, keeps the whole invariant, whatever the clock says |
| Runs.ReachableInv | internal/storage/storage.go:318-3475 | every run from the empty store satisfies it: one active row per name, lineage shape, numbering, issuing exactly when active, references |
| Runs.ApplyProgress | internal/storage/storage.go:318-3475 | no operation, whatever its drafts, deletes a row, reactivates a leaf, unrevokes, clears trust or unexpires a CA |
| Runs.RunProgress | internal/storage/storage.go:318-3475 | the same between any two points of a run |
| Runs.LineageAcyclic | internal/storage/storage.go:332-379 | following supersedes links never returns to the start |
| Runs.LineageOneName | internal/storage/storage.go:337-351 | a leaf lineage stays under one common name |
| Runs.LineageLinear | internal/storage/storage.go:337-351 | of two leaves that descend from the same row one descends from the other |
| Runs.ActiveIsHead | internal/storage/storage.go:337-351 | no row supersedes an active leaf |
| Runs.GenerationsExact | internal/storage/storage.go:2375-2382 | the generations of a CA name are exactly 1 to the number of its rows, and the largest is that number |
| Runs.PromotionBranchesIff | internal/storage/storage.go:3429-3442 | after promoting a superseded CA, the next CA of the name supersedes it again exactly unless it has expired |
| Runs.PromotionServesIff | internal/storage/storage.go:3429-3475 | after a promotion and a later sync the name has an active CA if and only if the promoted one has not ended: promoting an ended CA retires the working one for nothing |
| Runs.PromotionThenOpen | internal/storage/storage.go:270-273 | the same of the store when it is next opened, for roots and intermediates |
| Doctor.DoctorStatus | internal/ops/doctor.go:125-136 | broken exactly with an error finding, healthy exactly with none |
| Doctor.CheckActiveLeafCounts | internal/ops/doctor.go:160-194 | reports exactly the names counted active more than once, with the count |
| Doctor.CheckLeafLineageLinks | internal/ops/doctor.go:196-232 | reports exactly the rows whose link is not listed |
| Doctor.CheckCAInvariants | internal/ops/doctor.go:234-309 | reports exactly expired or non-active issuing rows, over-counted names and missing roots |
| Doctor.CheckPrivateCertIssuers | internal/ops/doctor.go:311-348 | reports exactly the active leaves with a missing, inactive or differently named issuer |
| Doctor.CountIsSize | internal/ops/doctor.go:160-194 | the reported count is the number of listed active rows of the name |
| Doctor.CaCountIsSize | internal/ops/doctor.go:234-309 | the same for CAs |
| Doctor.ExpiredIssuingExact | internal/ops/doctor.go:242-248 | reported expired if and only if a listed row issues and has an end before now |
| Doctor.NonActiveIssuingExact | internal/ops/doctor.go:249-255 | reported not active if and only if a listed row issues with another status |
| Doctor.IssuerMissingExact | internal/ops/doctor.go:318-330 | reported if and only if an active leaf names an issuer id that no listed row has |
| Doctor.InactiveIssuerExact | internal/ops/doctor.go:331-337 | reported if and only if an active leaf names one whose last listed row is not active |
| Doctor.IssuerNameMismatchExact | internal/ops/doctor.go:338-344 | reported if and only if an active leaf has an issuer text in which that row's common name does not occur, in any case |
| Doctor.RunStructuralChecks | internal/ops/doctor.go:94-97 | the findings of the four structural checks together, as a set |
| DoctorProof.ActiveCountSilentIff | internal/ops/doctor.go:160-194 | the count check is silent if and only if each name has at most one active row |
| DoctorProof.CaActiveCountSilentIff | internal/ops/doctor.go:234-309 | the same for CAs |
| DoctorProof.LineageSilentIff | internal/ops/doctor.go:196-232 | the link check is silent if and only if every link resolves |
| DoctorProof.RootReferencesSilentIff | internal/ops/doctor.go:234-309 | silent if and only if every intermediate has its root |
| DoctorProof.IssuersSilentIff | internal/ops/doctor.go:311-348 | no error if and only if every active leaf has its issuer |
| DoctorProof.ExpiredSilentIff | internal/ops/doctor.go:234-309 | no error if and only if no issuing CA is past its end |
| DoctorProof.DoctorExact | internal/ops/doctor.go:160-348 | the doctor reports no error if and only if all those invariants hold |
| DoctorProof.CleanAfterSync | internal/ops/doctor.go:160-348 | right after a sync at a second, the doctor at that second reports no error on any store satisfying the invariant, and no row issuing without being active |
| DoctorProof.ReachableStoresAreClean | internal/ops/doctor.go:41-111 | the doctor on any reachable store that was just opened reports no error |
| DoctorProof.PromotionCleanIff | internal/ops/doctor.go:234-309 | when another process promotes a root between the doctor's opening of the store and its queries: no error if and only if that root has not ended |
| DoctorProof.PromotionCleanIffIntermediate | internal/ops/doctor.go:234-309 | the same for an intermediate |
| DoctorProof.SpreadListingExact | internal/ops/doctor.go:57-70 | with any operations between the four table queries: no error if and only if no listed issuing CA has ended and every intermediate has its root among the roots listed before it, while in the store every one has its root |
| Approval.PickIssuer | internal/ops/privateca.go:204-226 | the precedence of id, name and default, and every refusal; what is picked is active and issuing, and unique for its name |
| Approval.IssuerPrecedence | internal/ops/csr.go:192-206 | the id wins over every name, the given name over the requested one, that over the default; what is picked by a name has it |
| Approval.IssuingIsActive | internal/storage/storage.go:846-857 | in a sound store "issuing" adds nothing to "active" |
| Approval.ApprovePrivateCSRRequest | internal/ops/csr.go:181-272 | uninterrupted: refused without an issuer, changing nothing, or the whole outcome and all tables of the insert followed by the conditional mark |
| Approval.ApprovePublicCSRRequest | internal/ops/csr.go:84-162 | uninterrupted: the same for a public request, although it re-reads the active row by name |
| Approval.PrivateEndingExact | internal/ops/csr.go:247-269 | done if and only if the certificate goes in and the request is still pending, which then names it; no other request changes; the certificate, once in, is active under the request's names and issuer even when the mark fails |
| Approval.PublicEndingExact | internal/ops/csr.go:136-159 | the same for a public request, with the SANs and hash of the CSR |
| Protocol.NextKeepsInv | internal/ops/csr.go:84-272 | every step of every operator keeps the protocol invariant |
| Protocol.IssuedRequestsAreServed | internal/ops/csr.go:181-272 | in every interleaving an issued request names an existing certificate with its own common name (and SANs when private), and no two issued private requests name the same one |
| Protocol.DecidedOnce | internal/storage/storage.go:1156-1178 | in every interleaving a request leaves pending at most once and then never changes |
| Protocol.SubmittedRow | internal/csrqueue/requests.go:59-78 | a stored submission is pending, names no certificate and has no decision note, and nothing else moves |
| Protocol.RejectedRow | internal/storage/storage.go:1168-1178 | a rejection writes status and note of a pending request and nothing else |
| Protocol.OperatorSteps | cmd/approve_csr.go:48-54 | a load hands over the pending request as it stands; giving up leaves the operator with nothing |
| Protocol.MarkNamesIff | internal/storage/storage.go:1156-1166 | a ready operator's mark names its certificate if and only if the request is pending at that moment |
| Protocol.PendingIff | internal/storage/storage.go:1156-1178 | a pending request is still pending after any steps if and only if none of them was its rejection or a mark for it |
| Protocol.MarkNamesUnlessDecided | internal/ops/csr.go:181-272 | so from load to mark, over any steps between: the certificate gets named if and only if none of them decided the request |
| Protocol.PrivateStepsAreApproval | internal/ops/csr.go:261-269 | insert, reload and mark without interference leave the tables of the uninterrupted private approval, whatever became of the request since its load |
| Protocol.PublicStepsAreApproval | internal/ops/csr.go:148-159 | the same for a public approval |
| Protocol.RejectionStrandsCertificate | internal/ops/csr.go:243-272 | a rejection between insert and mark leaves the certificate active and unnamed |
| Migration.SortByKeyOrder | internal/storage/storage.go:1820-1824 | the sort orders by the legacy time and keeps every row |
| Migration.SortByKeyStable | internal/storage/storage.go:1820-1824 | rows with equal times keep their order |
| Migration.SliceStable | internal/storage/storage.go:1818-1824 | the result is in time order and keeps the rows of each time in reading order |
| Migration.StableSortUnique | internal/storage/storage.go:1820-1824 | two lists in key order with the same rows, in the same order, for each key are equal |
| Migration.AnyStableSort | internal/storage/storage.go:1820-1824 | so the model's sort is the result of any stable sort, such as the library's |
| Migration.Group | internal/storage/storage.go:1786-1813 | one group per common name, in reading order, names without repeats |
| Migration.InsertChain | internal/storage/storage.go:1826-1855 | a chain goes in, each row after its predecessor, exactly when its rows are insertable, and leaves other rows alone |
| Migration.MigratePrivateCerts | internal/storage/storage.go:1786-1857 | succeeds if and only if every legacy row is insertable, then with one chain per name; otherwise nothing is left |
| Migration.MigratedChain | internal/storage/storage.go:1816-1855 | per name: exactly its rows, in non-decreasing time, every carried column kept, each superseding the one before, only the last active |
| Migration.MigratedInv | internal/storage/storage.go:1751-1861 | the migrated table satisfies the leaf invariant and its issuer references |
| Migration.BlankTimeIsRefused | internal/storage/storage.go:2624-2632 | a row without an update time has a sort key and is still refused |
| Migration.KeyReads | internal/storage/storage.go:2624-2632 | a parsed update time is the key, else a parsed creation time, else the epoch |
| Migration.LaterUpdateDescends | internal/storage/storage.go:1816-1855 | of two rows of one name the one updated later descends from the other and never the reverse, whatever their creation times |
| Migration.ActiveIsLatest | internal/storage/storage.go:1816-1855 | when all update times of a name parse, the active row has the greatest, and was read last among equals |
| Migration.NameHasActive | internal/storage/storage.go:1816-1855 | every name has an active row |
| Migration.InsertableIff | internal/storage/storage.go:1826-1855 | a row can be inserted if and only if neither time is blank and its issuer exists |
| Principals.PrincipalsFor | internal/auth/verifier.go:346-357 | the loop computes the de-duplicated printed claims |
| Principals.PrincipalsExact | internal/auth/verifier.go:346-357 | for verified claims the principals are exactly the printed subject, roles and groups |
| Principals.PrincipalsGiven | internal/auth/verifier.go:346-357 | for any claims: exactly "sub:", "role:" and "group:", the issuer, a colon and the value, trimmed |
| Principals.LocalPrincipals | internal/auth/auth.go:144-159 | the loops compute the local principals |
| Principals.LocalPrincipalsExact | internal/auth/auth.go:144-159 | listed exactly for the clean local roles and groups, blind to order, padding and repetition |
| Principals.FamiliesDisjoint | internal/auth/auth.go:144-159 | upstream, local and superuser principals never print alike |
| Principals.OneIssuerInjective | internal/auth/verifier.go:346-357 | distinct values of one issuer never print alike |
| Principals.ColonFreeInjective | internal/auth/verifier.go:346-357 | values without a colon keep kinds, issuers and values apart |
| Principals.IssuersCollideIff | docs/AUTHZ_DESIGN.md:172-180 | two issuers can print the same principal if and only if one extends the other by a colon |
| Principals.PortsCollide | docs/AUTHZ_DESIGN.md:180 | two ports of one host collide |
| Principals.ProviderIsolation | docs/AUTHZ_DESIGN.md:165-180 | otherwise no identity of one provider holds a principal of another |
| Principals.ParsePrintedIff | internal/ops/doctor.go:694-714 | the doctor reads the issuer of a printed principal back if and only if the value is non-empty and colon-free and a scheme is present |
| Principals.ParsedIff | internal/ops/doctor.go:694-714 | for any principal, printed or typed: an issuer is read if and only if it stands between one of the three tags and the last colon, before a value, with a scheme present |
| Principals.PrintThenParse | internal/ops/doctor.go:685-714 | so every principal of an issuer with a scheme is read back to it and recognised as referencing it |
| Principals.ReferencesIff | internal/ops/doctor.go:685-692 | a printed principal references an issuer if and only if that issuer with its colon begins it |
| Authz.ScopeExact | internal/auth/auth.go:107-116 | exactly the blank and starred scopes match everything, others their own text up to padding |
| Authz.MatchingBindings | internal/auth/auth.go:71-105 | the loop keeps the matching bindings in order, and the superuser's one |
| Authz.MatchingExact | internal/auth/auth.go:71-105 | kept are exactly the enabled bindings matching principal, permission and both scopes |
| Authz.Allowed | internal/auth/auth.go:67-69 | allowed if and only if superuser or some listed binding matches |
| Authz.PermittedInFields | internal/auth/auth.go:67-105 | which is so if and only if an enabled binding of a held principal names the permission or all, with both scopes open or equal up to padding |
| Authz.PermittedMonotone | internal/auth/auth.go:67-105 | more bindings or principals never take a permission away |
| Authz.PermittedSameSets | internal/auth/auth.go:67-105 | order and repetition of bindings and principals do not matter |
| Authz.EffectivePermissions | internal/auth/auth.go:118-142 | the sorted, duplicate-free granted permissions |
| Authz.EffectiveExact | internal/auth/auth.go:118-142 | a permission or "*" is listed if and only if some resource exists for which that permission is allowed |
| Admission.ContainsAll | internal/auth/subject_rules.go:106-128 | set inclusion of the clean names |
| Admission.EmailDomainIff | internal/auth/subject_rules.go:94-104 | a rule's domain is empty up to one at-sign, or the normal address is something followed by an at-sign and the domain |
| Admission.EmailDomainForm | internal/auth/subject_rules.go:94-104 | case and padding of address and domain do not matter |
| Admission.AtSignDropped | internal/auth/subject_rules.go:95 | nor does one leading at-sign of the domain |
| Admission.MatchSubjectAutoApprovalRules | internal/auth/subject_rules.go:24-50 | the loop collects the names, roles and groups of the matching rules |
| Admission.ApprovesIff | internal/auth/subject_rules.go:75-77 | approval happens if and only if a rule with a non-blank name fits |
| Admission.MatchExact | internal/auth/subject_rules.go:24-50 | the matched local roles and groups are exactly the clean ones of the matching rules, in any rule order |
| Admission.RuleFitsIff | internal/auth/subject_rules.go:24-50 | a rule applies if and only if it is enabled, names the identity's issuer, is within its domain, and each non-blank required role and group is held |
| Admission.OtherRulesIgnored | internal/auth/subject_rules.go:27-41 | rules that are disabled, of another issuer, or require what the identity lacks can be removed without changing the match |
| Admission.OtherIssuersMatchNothing | internal/auth/subject_rules.go:30-32 | if no enabled rule names the issuer the match is empty |
| Admission.MatchedInFields | internal/auth/subject_rules.go:42-48 | all names, roles and groups of the rules that fit are matched and no others |
| Admission.EnabledRulesMatch | internal/storage/storage.go:3068-3092 | listing only enabled rules changes no match |
| Admission.ApplySubjectRecord | internal/auth/auth.go:59-65 | a principal is held if and only if it is a clean upstream principal or printed from a clean local role or group of the record; the local lists are the record's |
| Admission.PreviewSubjectAccess | internal/auth/subject_rules.go:52-92 | the preview of an absent, pending, active or disabled subject |
| Admission.PreviewDecides | internal/auth/subject_rules.go:52-92 | status, reason and matches: an operator's decision stands, otherwise a named rule that fits decides |
| Admission.PreviewLocals | internal/auth/subject_rules.go:80-90 | the shown identity is the token's, with the record's local lists and, when approved, what the rules offer |
| Admission.PreviewPrincipals | internal/auth/subject_rules.go:80-90 | its principals are the token's clean ones and those of these local roles and groups |
| Subjects.SubjectStore.UpsertSubjectSeen | internal/storage/storage.go:3105-3138 | refusals, the fresh row, and which columns of a known row a login touches |
| Subjects.SubjectStore.UpdateSubjectApproval | internal/storage/storage.go:3205-3221 | status and sorted local lists of one row, or not found |
| Subjects.SubjectStore.SetSubjectStatus | internal/storage/storage.go:3190-3203 | the status of one row, or not found |
| Subjects.ResolveBearerSubject | internal/server/authz.go:201-239 | one uninterrupted resolution: the row it writes and the preview it returns |
| Subjects.AuthenticateBearer | internal/server/authz.go:90-128 | one login: the table it leaves and the answer it gives |
| Subjects.LoginRefused | internal/storage/storage.go:3105-3120 | which logins cannot be recorded, the first reason given, and that nothing changes then |
| Subjects.SeenColumns | internal/storage/storage.go:3121-3138 | the columns a login writes: names and lists from the token, one more login, everything else kept |
| Subjects.LoginTouches | internal/server/authz.go:201-239 | the table after a login has this row, apart from status and local lists, and no other row moves |
| Subjects.LoginDecides | internal/server/authz.go:201-239 | status and local lists change if and only if the subject was undecided and a named rule fits, and then to what the rules offer |
| Subjects.LoginAnswers | internal/server/authz.go:107-128 | disabled and pending are refused as such; an active subject gets in if and only if its principals are permitted |
| Subjects.StoredResolves | internal/auth/subject_rules.go:52-92 | a stored row is resolved as previewed, through the sorted columns |
| Subjects.PreviewPredictsLogin | internal/server/authz.go:201-239 | for every identity, rules and stored or absent subject the preview has the login's status, local sets and answers; its principals are the login's as a set if and only if the subject is stored, or a rule approves it, or the principals were trimmed |
| Subjects.ApprovalGrants | internal/server/authz.go:213-219 | an approving login leaves exactly the local roles and groups the subject had and those of the matching rules |
| Subjects.LoginRunExact | internal/storage/storage.go:3121-3137 | over any run of logins: disabled and active are final with their local lists, pending becomes active if and only if a login that reached it had a matching rule, and the counter counts the logins |
| Subjects.OtherIssuersNeverApprove | internal/server/authz.go:201-239 | over any run a pending subject whose issuer no enabled rule names stays pending with its local lists |
| Subjects.RunApprovesIff | internal/server/authz.go:201-239 | a pending subject ends active if and only if a login that reached it carried a named rule that fits |
| Subjects.DisableIsLostIff | internal/ops/subjects.go:47-104 | with logins and operators each cut between read and write, a disabled subject can leave that status without an operator deciding so if and only if an unwritten update of it carries another status |
| Subjects.LoginLosesDisable | internal/server/authz.go:207-221 | every approving login reaches such a state: a disable before its write is undone |
| Subjects.EditLosesDisable | internal/ops/subjects.go:83-103 | so does an edit of the roles of any active subject |
| Subjects.ApprovedColumns | internal/storage/storage.go:3205-3221 | an update writes the status and the clean names of both lists, sorted, and nothing else |
| Subjects.EditWrites | internal/ops/subjects.go:47-104 | an undisturbed edit sets what it asks for, keeps the rest of the row and every other row |
| Verifier.VerifyWithKeys | internal/auth/verifier.go:192-244 | the first signing key decides, and which key it is does not matter |
| Verifier.VerdictExact | internal/auth/verifier.go:192-244 | each verdict in the token's own fields: signature, issuer, audience, times within a minute, every required claim with its value, the subject |
| Verifier.SelectKeys | internal/auth/verifier.go:329-344 | the loop and its fallback |
| Verifier.SelectedExact | internal/auth/verifier.go:329-344 | section 4.5 of RFC 7517: a key is tried if and only if its id is the token's, or the token names none or an unknown one |
| Verifier.KeyVerifier.KeysForIssuer | internal/auth/verifier.go:246-291 | fresh cached keys, else a fetch that is cached exactly when it returns keys |
| Verifier.KeyVerifier.VerifyAgainstIssuer | internal/auth/verifier.go:165-185 | the verdict and the cache after both attempts |
| Verifier.VerifiedMeans | internal/auth/verifier.go:165-185 | a verified token is genuine under offered keys, has every required claim with its value, and yields what it describes |
| Verifier.CacheWritten | internal/auth/verifier.go:165-291 | what is fetched is cached and when; when fetching fails the verification; one issuer's entry alone |
| Verifier.CachedKeysServe | internal/auth/verifier.go:246-262 | for fifteen minutes after a fetch its keys verify without another |
| Verifier.Verify | internal/auth/verifier.go:141-162 | the trusted issuers in turn, the first that verifies, else the last failure, and the cache after all of them |
| Verifier.SearchVerifies | internal/auth/verifier.go:147-157 | a verified token has the identity given by an enabled issuer of its trimmed name |
| Verifier.SearchMeans | internal/auth/verifier.go:141-162 | the same of the search: only an enabled issuer of the token's name whose required claims the token has |
| Verifier.SearchDone | internal/auth/verifier.go:147-157 | the first issuer that verifies ends the search |
| Verifier.UntrustedIff | internal/auth/verifier.go:158-162 | it is reported as untrusted if and only if there is no such issuer |
| Verifier.IdentityIsUnique | internal/auth/verifier.go:165-244 | the identity depends on token and issuer only, with trimmed principals and no local grants |
| Verifier.AcceptedIff | internal/auth/verifier.go:165-185 | with the issuer reachable: accepted if and only if the published keys accept, or the cached keys are fresh and accept |
| Verifier.CacheIsPublished | internal/auth/verifier.go:279-286 | in every run a cache entry is what its issuer published at its stamp |
| Verifier.AcceptedMeansRecentlyPublished | internal/auth/verifier.go:165-291 | after every run an accepted token was signed by a key published less than fifteen minutes ago or now |
| Verifier.ValidNowIsAccepted | internal/auth/verifier.go:165-291 | in any state of cache and publications a token the published keys accept is accepted when the issuer answers |
| Explain.ExplanationMatchesServer | cmd/explain_authz.go:91-127 | a one-off explanation and the server, whatever it has cached, agree on identity, status, local grants, principals and effective permissions |
| Explain.ExplainAuthz | cmd/explain_authz.go:91-125 | the command's loops compute the printed status, answer, permissions and bindings |
| Explain.PrintedAnswerIff | cmd/explain_authz.go:121 | the printed answer is the server's for a request if and only if the subject is not active or the request is permitted |
| Explain.ListedBindingsExact | cmd/explain_authz.go:99-106 | listed are exactly the held enabled bindings without a resource, once each, starred ones once per listed permission; a held binding with a resource is not listed, though the server permits its request |
| Sans.NormalizeSANs | internal/storage/storage.go:296-316 | the sorted normal names and their column |
| Sans.NormalFormIsFixed | internal/storage/storage.go:296-316 | strictly sorted and idempotent |
| Sans.NormalNamesExact | internal/storage/storage.go:296-316 | a name is in the normal form if and only if some given name is it, trimmed and lower-cased |
| Sans.NormalFormIsCanonical | internal/storage/storage.go:296-316 | two lists normalise alike if and only if they hold the same names up to order, repetition, case and padding |
| Sans.JoinSplit | internal/storage/storage.go:312 | joining what a split returns gives the string back |
| Sans.SameColumnIff | internal/storage/storage.go:312 | two columns are equal if and only if they split alike |
| Sans.SplitJoin | internal/ops/common.go:275-284 | splitting a join of comma-free names gives the list back |
| Sans.ColumnRoundTrip | internal/storage/storage.go:296-316 | splitting the column gives the normalised list back |
| Sans.HashLookupIsSetEquality | internal/storage/storage.go:470-481 | under an injective hash equal hashes mean equal name sets, for comma-free names |
| Sans.SplitJoinParts | internal/storage/storage.go:312 | splitting a join gives the comma parts of its entries in turn |
| Sans.SameColumnPartsIff | internal/storage/storage.go:296-316 | for any two lists: equal columns if and only if the comma parts of their normal forms are equal, in order |
| Sans.HashLookupIff | internal/storage/storage.go:470-481 | so under an injective hash the lookup is exactly equality of those parts |
| Sans.CommaFreeMistakenIff | internal/storage/storage.go:470-481 | a comma-free list is mistaken for some other list if and only if it holds two or more names |
| Sans.RequestedNamesCommaFree | internal/ops/common.go:124-155 | the names the issuance commands request hold no comma, given a common name without one |
| Sans.RequestedLookupIsExact | cmd/get.go:57 | so between two such requests of one common name the lookup is exact |
| Sans.CommaNamesCollide | internal/storage/storage.go:296-316 | with commas they can: one such name is taken for two names |
| Sans.SplitMember | internal/storage/storage.go:449-466 | membership in the split list is standing between commas or ends |
| Sans.SearchIff | internal/storage/storage.go:449-466 | for a plain name the four-pattern test holds if and only if the column equals it, or has a comma and lists it up to ASCII case |
| Sans.SearchFindsExactly | internal/storage/storage.go:443-468 | over a normalised column the test is membership |
| Sans.SearchExactIff | internal/storage/storage.go:1001-1018 | among normal comma-free names that is so if and only if the name has no wildcard character |
| Sans.JoinedSearchIff | internal/csrqueue/requests.go:66 | over comma-free names joined as they are, a plain name is found if and only if it is the one entry, case included, or equals one of several up to ASCII case |
| Sans.PrivateColumnSearchIff | cmd/issue_private_cert.go:84 | the same for the column of an issued private certificate |
| Sans.SplitCsvNames | internal/ops/common.go:275-284 | the trimmed, lower-cased, non-blank parts |
| Sans.ListedColumn | internal/ops/common.go:275-284 | the parts of a normalised column are the names it was made from |
| Sans.CollectSanConflicts | internal/ops/common.go:239-273 | the loops compute the report |
| Sans.ReportExact | internal/ops/common.go:239-273 | a name is reported if and only if an active row of that name, not the target's, shares a name, with exactly the shared names sorted |
| Sans.ReportedIff | internal/ops/common.go:239-273 | a name is reported if and only if one of its active rows and the target list a common part, trimmed and lower-cased |
| Sans.ReportedNames | internal/ops/common.go:239-273 | with exactly those parts, sorted |
| Sans.ReportOrder | internal/ops/common.go:239-273 | the names sorted, each once |
| Sans.ReportOrderIndependent | internal/ops/common.go:239-273 | any rearrangement of rows and target names gives the same report |
| Sans.BuildPublicSanSet | internal/ops/common.go:124-155 | the additions in order |
| Sans.PublicNamesExact | internal/ops/common.go:124-155 | no repeats; listed are exactly the parts and, when asked for, the roots of wildcard parts |
| Ordered.UniqueStrings | internal/auth/verifier.go:448-463 | first occurrences of the trimmed non-blank values |
| Ordered.UniqueElems | internal/auth/verifier.go:448-463 | which are, as a set, the clean names |
| Ordered.UniqueDistinct | internal/auth/verifier.go:448-463 | without repeats |
| Ordered.UniqueMembers | internal/auth/verifier.go:448-463 | kept are exactly the non-blank trimmed values |
| Ordered.UniqueGrows | internal/auth/verifier.go:448-463 | in the order of their first occurrence: more values only add at the end |
| Ordered.UniqueSorted | internal/ops/common.go:286-301 | the clean names, strictly sorted |
| Ordered.SortedUnique | internal/storage/storage.go:2605-2622 | a strictly sorted list is determined by its set |
| Text.BlankTrims | internal/storage/storage.go:2415-2420 | a string is blank if and only if trimming leaves nothing |
| Text.LeqExact | internal/storage/storage.go:2605-2622 | the sort order is the dictionary's: a beginning first, else the first difference |
| Text.ContainsExact | internal/ops/doctor.go:338 | containing is standing between two parts |
| Shares.ShareRow.HandleShareAccess | internal/server/server.go:253-418 | uninterrupted: a body is sent if and only if every check passes, with the key exactly when offered; a refusal is the first that applies; the counter moves exactly with a body |
| Shares.AnswerExact | internal/server/server.go:253-418 | the answer column by column: the first refusal in the handler's order, with an access strictly after the end refused |
| Shares.ViewsBounded | internal/server/server.go:253-264 | with at most K overlapping handlers the counter never passes max_views + K - 1, nor max_views when K is 1, and bodies never outnumber counts |
| Shares.BoundIsReached | internal/server/server.go:443-445 | some run with at most K overlapping handlers reaches that bound |
| Shares.RevokedOnlyDrains | internal/server/server.go:253-260 | after a revocation only handlers already past the checks can still count |
| Shares.ExpiredOnlyDrains | internal/server/server.go:253-260 | after the end no handler passes the checks: only those under way can count and send |
| RateLimit.Limiter.AllowCsrSubmit | internal/server/server.go:468-487 | accepted exactly from the end of the wait on; a rejection changes nothing |
| RateLimit.AcceptancesSpan | internal/server/server.go:468-487 | any n acceptances of a client span at least n - 1 intervals, under any clock |
| RateLimit.OthersDoNotInterfere | internal/server/server.go:468-487 | a client's acceptances are those of its own calls alone |
| RateLimit.RetryExact | internal/server/server.go:468-487 | after a rejection, and no acceptance since, the client is accepted if and only if the returned wait is over |
| RateLimit.NoInterval | internal/server/server.go:468-471 | without a positive interval everything is accepted and nothing recorded |

## Left out

- X.509, key generation, encryption, password hashing, signature algorithms and PEM parsing: foreign calls, seen only through their answers.
- ACME, DNS providers, OIDC discovery and the key-set URL: network. A fetch ends at one instant with the keys published then, or fails; overlapping fetches of one verifier are not interleaved.
- JSON claim paths: a claim is looked up by its whole trimmed path, and array elements that are not strings are assumed dropped.
- `created_at` and `updated_at` of migrated-to tables, except that the migration refuses NULL ones: they order listings only, and at most one row per name is active.
- The order in which the doctor's findings and the rule table are listed: findings are compared as sets, rules come in any order.
- Statuses outside the five constants, which no caller passes; the statements store any text.
- Non-ASCII case folding; strings are sequences of code points ordered as their UTF-8 bytes.
- The other conditions of the name lookups: active status, equality with the common name, newest row first.
- Saturation of durations and 64-bit overflow of counters.
- Doctor checks on expiry windows, shares, pending requests, issuers and bindings: each is one row's own test.
- Renewal reuses the old id and so always ends in the duplicate-id failure of the upsert; it adds no operation.
- Deleting rules, issuers and bindings, and backup and restore: single statements or file copies.
- The other schema migrations: SQL copies with constants.
- Command-line output, metrics, audit events and HTTP framing, including the rounded Retry-After header and the parsing of the client address.
- Foreign keys are taken as enforced on the connection that runs the statement.
- Protocol.IssuedRequestsAreServed: for a public request it claims the common name only, because the approval re-reads the active row by name and another approval of the same name may have replaced it.
- Approval.PickIssuer: models the choice of an intermediate; the choice of a root in `internal/ops/privateca.go:89-117` is the same switch and guard.
- Lifecycle.LeafUpsertKeepsInvIff: assumes that a link supplied by a caller exists, as the foreign key demands; a missing one makes the insert fail.
- Doctor.RunStructuralChecks: the other checks of `internal/ops/doctor.go:98-108`, each of which tests one row or binding at a time.
- Verifier.KeyVerifier.VerifyAgainstIssuer: one clock reading serves the freshness test, both attempts and the stamps; the code reads the clock again for each key, so a token may expire between two attempts.
- Shares.ShareRow.HandleShareAccess: decoding, password hashes, loading and decrypting are foreign calls, seen as the flags of the request.
- Store.Store.CreateCSRRequest: the requester's contact columns, which nothing reads back into a decision.
