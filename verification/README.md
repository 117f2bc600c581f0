# A verified model of the certificate authority's registry

This project models the server side of a certificate authority (Go, package `lib`) in Dafny and proves
what its registry, its request handlers and the algorithms around them promise. `dafny verify
dfyconfig.toml` checks everything.

The state of a CA is three tables, affiliations, users and certificates, as sequences of rows
(`Tables`). The SQL statements are functions on those rows; a WHERE clause is a value. The user registry
is a class whose methods follow the Go code statement by statement, inside transactions that a fault of
the database may end at any statement (`Registry`). The request handlers are given twice: as steps
between states (`Handlers`) and as methods of a server that execute them in the order of the code
(`Server`), each method proved to be its step. What any sequence of requests keeps is proved about runs
of steps, so it holds of every server object: `Server.Server.Serve` is the link.

| file | what it is about |
|---|---|
| `Basics`, `Strings`, `Paths` | optional values, the Go string functions used, and dotted names as one partial order |
| `Attributes`, `Delegation`, `Grants` | attribute lists edited in place, and who may hand out which attributes |
| `Tables`, `Registry`, `AffiliationTable` | rows, transactions, and what add, delete and rename do to the affiliation tree |
| `Handlers`, `Server` | the requests as steps, and as executed |
| `Authority`, `Effects` | exactly who may do what, and what a request leaves behind, told from rows, certificates and texts |
| `Safety`, `Identities`, `Scope`, `Integrity`, `Passwords` | invariants over all runs: certificates, fixed attributes and delegation, the reach of authority, referential integrity, passwords |
| `Enrollment` | enrollments, reenrollments and revocations of any number of clients, interleaved |
| `Response`, `AffiliationTrie` | the two ways a tree of affiliations is put together for a response |
| `ConfigLoader` | the states a server starts from |
| `JsonStream` | the streaming JSON walker |
| `Serials`, `Crl` | serial numbers from issuing to revocation lists |
| `KeyTree`, `Version` | the memoising key tree, version numbers |

Main results, in the system's terms:

- **Revocation is final.** Once an identity is revoked by name, removed, or removed with its
  affiliation, no certificate issued to it before ever authenticates again, in any continuation, even
  after the name is registered anew (`Safety.EndedIsFinal`). With handlers that interleave this fails:
  a completion under way undoes a revocation, and a request under way gets another certificate.
  `Enrollment.RevocationLastsIff` and `Enrollment.CertsLastIff` say exactly when the revocation of the
  identity and of its certificates lasts.
- **The life of a certificate.** In any run an issued certificate authenticates exactly until an effective
  request revokes it or its identity, or removes that or its affiliation (`Effects.GoodRunIff`).
- **Who may do what.** For every kind of request, whether it can have an effect in a reachable state is
  decided by one condition on rows, certificates and attribute texts (`Authority.PossibleIff`, with
  `Grants.PermittedIff` for attributes), and a server whose database has no fault does exactly those
  requests (`Server.Server.Serve`).
- **Only the last secret enrolls.** After any history a password enrolls an identity exactly if it is the
  secret last given to it (`Passwords.EnrollPossibleIff`).
- **Removal is guarded.** In every run a removal without force takes one row and nothing else; one that
  takes an identity has force, a registrar and an enabled server (`Effects.RunRemoves`).
- **Referential integrity.** Affiliation names stay unique and parent-closed and every identity's
  affiliation is the root or a row, in all states of a run exactly if the renames that have an effect
  respect a guard (`Integrity.RunConsistentIff`, `Integrity.RenameStepConsistentIff`).
- **Renames are bijections.** On such tables no row update of a rename collides, every row and user of
  the subtree moves exactly once and nothing else changes (`Registry.Accessor.ModifyAffiliation`).
- **Delegated authority is bounded.** In every reachable state each attribute that carries authority is
  covered by one attribute of one bootstrap identity (`Identities.AuthorityComesFromBootstrap`), and types
  stay within those the bootstrap identities may act on (`Scope.RunKeepsKinds`). Affiliations do so in all
  states of a run exactly if no effective request asks for "." with nobody at the root (`Scope.RunScopeIff`).
- **The response builder on its shared slice.** Whatever the order of the rows, the tree sent names every
  one of them, with edges from parents to children and the right identities (`Response.GetResponse`);
  exactly once holds exactly for the orders `Response.Clean` describes, which include those of a delete
  result and not all orders of a rename result (`Response.ShownOnceIff`, `Response.ShownTwice`).
- **The walker refines a path query.** It calls for exactly the elements of arrays to which names lead that
  are the components of a searched path, in the order of the text (`JsonStream.WalkCalls`,
  `JsonStream.WalkOrder`), and consumes exactly its value exactly if no object on the way has an empty name
  and nothing stands in the way at a searched path (`JsonStream.StreamExactIff`).

Where the code does something else than its comments or names suggest, the code is followed:

- On deleting and renaming affiliations the handlers mean to let callers without `hf.Registrar.Roles`
  through (lib/serveraffiliations.go:250-256 compares the code with 20), but the error carries another
  code, so such callers are refused (`Handlers.HasRoles`).
- `Login` and `LoginComplete` are commented as one protocol; the completion looks at the count only.
- `checkDelegateRoleValues` is there to keep delegate roles within roles (lib/attr/attribute.go:305). It
  reads the first entry of each name where the attribute map keeps the last, so a registration that names
  the roles twice may miss this (`Delegation.RegistrationNotWithin`), and a modification that changes only
  the roles is not compared (`Delegation.DelegateRolesKeptOnce`).
- The key tree caches keys under the joined path (lib/tcert/keytree.go:65), so a component with a separator
  can get the key of another path (`KeyTree.SeparatorFreeIff`).
- The modification handler asks whether the caller contains "." before it reads "." as the root
  (lib/serveridentities.go:403-412), so an identity at "." may leave its scope (`Scope.DotLeavesScope`).

## Model
| member | source | states |
|---|---|---|
| Paths.AffiliationOrder | lib/serverrequestcontext.go:432-457 | the prefix test with a dot is the prefix order on components: reflexive, antisymmetric, transitive |
| Paths.BelowIsPrefix | lib/dbaccessor.go:366-369 | `LIKE name.%` selects exactly the names of which the components are a strict prefix |
| Paths.ChildIsParent | lib/serveraffiliations.go:498-508 | isChildAffiliation holds exactly of a nested name and its parent |
| Paths.ParentComponents | lib/serveraffiliations.go:321-326 | the parent path the handlers join is the name without its last component |
| Paths.ImageInverts | lib/dbaccessor.go:720-721 | the replacement of the old name is one-to-one between the old and the new subtree, with an inverse |
| Paths.ImageParent | lib/dbaccessor.go:720-721 | below the renamed name the replacement commutes with taking the parent |
| Strings.SplitJoin | lib/util.go:155-157 | splitting a join of separator-free parts gives the parts back |
| Strings.JoinSplit | lib/util.go:155-157 | an affiliation split into a path and joined again is unchanged |
| Strings.WithoutParts | util/util.go:826-828 | removing a character from a text takes every occurrence and nothing else |
| Strings.SameLettersIff | util/util.go:377-384 | texts are equal in lower case exactly if they differ in the case of letters at most |
| Strings.TrimLeftIs | lib/serverrequestcontext.go:156-160 | trimming takes all there is of the character at the front and nothing else |
| Attributes.FillAttrs | lib/dbaccessor.go:900-907 | the loop that fills a user's attribute map: later entries replace earlier ones |
| Attributes.LookupIsMap | lib/dbaccessor.go:1046-1052 | an attribute lookup is the last entry of the list with the name, the entry in the map |
| Attributes.GetNewAttributes | lib/serveridentities.go:510-539 | the in-place edit of a slice computes the sequential application of the requests |
| Attributes.ApplyInPlace | lib/serveridentities.go:513-537 | one request: the first entry is deleted, overwritten, or a new one appended |
| Attributes.NewAttributesRefinesMap | lib/serveridentities.go:510-539 | on lists with unique names the edit is sequential map update, the empty value deleting, and names stay unique |
| Attributes.NewAttributesKeeps | lib/serveridentities.go:510-539 | entries not requested keep value, ECert flag and relative order, on every list |
| Attributes.NewAttributesOrigin | lib/serveridentities.go:510-539 | every resulting entry was there or was requested with a value |
| Attributes.NewAttributesInOrder | lib/serveridentities.go:510-539 | for any request list, repeated names included: what no request deletes stays where it stood, and what is new or was deleted before follows in the order in which it came to stay, each with its last request |
| Attributes.NamedAfter | lib/serveridentities.go:510-539 | requests for different names do not meet: the entries of a name are edited by the requests for it alone, on every list |
| Attributes.EntryAfter | lib/serveridentities.go:510-539 | where the list has the name at most once, the entry after a request list is the last request for it, flag included; an empty value deletes |
| Attributes.ValueAfter | lib/serveridentities.go:510-539 | where the list has the name at most once, the value after a request list is that of the last request for the name, if any |
| Attributes.ValueAfterAny | lib/serveridentities.go:510-539 | the value read after a request list on any list: with several entries of a name, requests meet entries no lookup sees until one is left |
| Delegation.InitAttrs | lib/attr/attribute.go:118-158 | the map filled in three loops gives every reserved name its kind |
| Delegation.MatchesTransitive | lib/attr/attribute.go:287-303 | a pattern accepted under another matches nothing the other does not match |
| Delegation.CoversIsInclusion | lib/attr/attribute.go:259-303 | accepting every value of a list is inclusion of the sets of names the lists match |
| Delegation.CoversPreorder | lib/attr/attribute.go:259-303 | covering of pattern lists is reflexive and transitive |
| Delegation.SubsetPreorder | util/util.go:377-401 | the comma-list subset test, case ignored, is reflexive and transitive |
| Delegation.GrantedIsHeld | lib/attr/attribute.go:83-113 | a permitted attribute is not fixed, and coming from a registrar it gives nothing or no more than the registrar's own entry; roles always count as giving something |
| Delegation.GrantIsBounded | lib/attr/attribute.go:83-113 | a grant by a bounded registrar is bounded by the same pool |
| Delegation.CommasPermitted | lib/serverrequestcontext.go:491-494 | a roles value of commas names no role and may be handed out, so roles count as authority whatever they name |
| Delegation.DelegateRolesChecked | lib/attr/attribute.go:306-321 | what every permitted list guarantees: its first delegate roles are within the roles they are compared with |
| Delegation.RegistrationDelegates | lib/attr/attribute.go:306-321 | a permitted registration has its first delegate roles within its first roles, and delegate roles within roles if first and last entry agree for both |
| Delegation.RegistrationNotWithin | lib/attr/attribute.go:306-321 | for any two roles, a permitted registration that names the roles twice and has delegate roles outside them |
| Delegation.DelegateRolesLeft | lib/serveridentities.go:510-539 | what a modification leaves of delegate roles against roles, told from the entries of the two names, on all lists |
| Delegation.DelegateRolesKeptOnce | lib/attr/attribute.go:246-251 | exactly which permitted modifications keep delegate roles within roles, where the request's first and last entry agree for both names |
| Delegation.DelegateRolesNotKept | lib/attr/attribute.go:246-251 | a permitted request that does not |
| Grants.PermittedIff | lib/attr/attribute.go:64-113 | for all lists, kinds and identities, exactly which attributes a registrar may hand out, told from the texts: the name is on a non-empty list of the registrar; a boolean needs the registrar's own true and an empty or legible value; roles need words within the registrar's own, delegate roles also within the roles compared; attribute names need to be let through and owned or requested; others need an unreserved name |
| Grants.CustomPermittedIff | lib/attr/attribute.go:191-192 | attributes without the reserved prefix are permitted exactly if each name is let through by the registrar's list, whatever their values |
| Grants.NeverPermitted | lib/attr/attribute.go:187-190 | fixed attributes and unknown reserved names are never permitted |
| Grants.MatchesIff | lib/attr/attribute.go:287-303 | a pattern lets through itself and whatever begins with the text before its trailing stars, nothing else |
| Grants.SubsetIsInclusion | util/util.go:392-401 | the subset test is inclusion of the sets of words, case and empty words ignored |
| Grants.DelegateRolesWithinIff | lib/attr/attribute.go:306-321 | exactly when the delegate roles of a request pass: its first ones are within its first roles, or the identity's where these are empty |
| Registry.Accessor.Finish | lib/dbaccessor.go:839-861 | the end of a transaction: all three tables as they were after an error or a failed commit, the new ones otherwise |
| Registry.Accessor.InsertAffiliation | lib/dbaccessor.go:298-328 | a new row, or nothing if the name is there |
| Registry.Accessor.InsertCertificate | lib/certdbaccessor.go:95-145 | a row is added exactly if no row has the serial and AKI |
| Registry.Accessor.DeleteUser | lib/dbaccessor.go:181-221 | the identity goes and its unrevoked certificates are revoked (cessationOfOperation), exactly if it exists and the database has no fault; otherwise no table changes |
| Registry.Accessor.DeleteAffiliation | lib/dbaccessor.go:333-463 | subtree, its users and their certificates in one transaction, with the result rows, exactly if the row exists, users and rows below come with force, users with a registrar and identity removal, and the database has no fault; any error leaves all tables as they were and is the first the code checks for |
| Registry.Accessor.DeleteAffiliationTx | lib/dbaccessor.go:351-463 | the transaction body: the same effect, conditions and errors, before any rollback |
| Registry.DeleteErrorIff | lib/dbaccessor.go:351-413 | exactly what each refusal of a delete stands for, told from the rows: no such row, users below without a registrar, without identity removal, or users or rows below without force |
| Registry.DeleteAlone | lib/dbaccessor.go:443-455 | deleting a name with nothing and nobody below it takes out its one row and changes nothing else |
| Registry.Accessor.ModifyAffiliation | lib/dbaccessor.go:659-686 | a rename moves exactly the old subtree and its users once each, returns the new rows and cannot hit the unique constraint where the new names are free; there it succeeds exactly if the old name exists, moving users come with a registrar and force, and the database has no fault; on any error all tables are as they were |
| Registry.Accessor.ModifyAffiliationTx | lib/dbaccessor.go:688-837 | the row-by-row loop establishes the whole rename |
| Registry.RenameErrorIff | lib/dbaccessor.go:659-752 | exactly what each refusal of a rename stands for, told from the rows |
| Registry.Accessor.RenameRecord | lib/dbaccessor.go:713-806 | one round: from the rename of some rows to the rename of one more |
| Registry.Accessor.MoveUsers | lib/dbaccessor.go:722-795 | the users of one affiliation get the new column and hf.Affiliation, no other row changes |
| Registry.Accessor.MoveAttributes | lib/dbaccessor.go:753-774 | the loop over moved users rewrites hf.Affiliation of each, up to an error of the database |
| Registry.Accessor.SetAffiliationAttribute | lib/dbaccessor.go:753-774 | hf.Affiliation is set in the attribute map, whatever order the map is listed in |
| Registry.Accessor.ListAttributes | lib/dbaccessor.go:1056-1062 | listing an attribute map gives each entry once, in some order |
| Registry.RenameRow | lib/dbaccessor.go:797-806 | halfway through a rename a row update meets exactly its row and the new name is free |
| Registry.MovedIsCarried | lib/dbaccessor.go:753-774 | a moved user changes in affiliation and hf.Affiliation only, and these agree |
| AffiliationTable.ForcedAdd | lib/serveraffiliations.go:302-319 | a forced add inserts exactly the missing ancestors-or-self and keeps uniqueness, parent-closure and prekeys |
| AffiliationTable.InsertKeeps | lib/serveraffiliations.go:321-341 | adding below an existing parent keeps uniqueness, parent-closure and prekeys |
| AffiliationTable.DeleteKeepsConsistent | lib/dbaccessor.go:351-463 | deleting a subtree with its users keeps referential integrity |
| AffiliationTable.DeleteConserves | lib/dbaccessor.go:351-463 | rows before are the rows after and the rows returned; exactly the unrevoked certificates of returned users become revoked (affiliationChanged) |
| AffiliationTable.AbsentMeansRenamable | lib/dbaccessor.go:665-676 | in a parent-closed table an absent new name means that no new name is taken |
| AffiliationTable.RenameClosedIff | lib/dbaccessor.go:688-837 | a rename keeps the table parent-closed exactly if the target is top-level or hangs off a row outside the old subtree |
| AffiliationTable.RenameOutsideTheGuard | lib/dbaccessor.go:659-686 | both ways of missing that condition, as concrete renames |
| AffiliationTable.RenameKeepsConsistent | lib/dbaccessor.go:688-837 | under the condition a rename keeps referential integrity |
| AffiliationTable.RenameMeans | lib/dbaccessor.go:688-837 | what a rename changes of any row and what it leaves: names of the subtree, the affiliation of its users and their hf.Affiliation, without the ECert flag; nothing else |
| AffiliationTable.MovedRowsAre | lib/dbaccessor.go:808-837 | the users a rename reports are the new rows of exactly those that moved, each once |
| AffiliationTable.RenameBack | lib/dbaccessor.go:688-837 | renaming back restores every name and every user's affiliation |
| AffiliationTable.RenamePrekeys | lib/dbaccessor.go:720-721 | prekeys stay exact exactly for renames within the same parent, and always below the renamed row |
| Handlers.AllowedMaxIff | lib/util.go:118-152 | a requested limit is accepted exactly if it fits the CA's, with -1 as infinity, and 0 takes over the CA's |
| Authority.CallerIff | lib/serverrequestcontext.go:117-176 | in every reachable state the caller is the identity named by a certificate that was issued with a positive number and whose record is not revoked |
| Authority.ActsOnIff | lib/serverrequestcontext.go:499-540 | an identity acts on exactly the types in the list of its last non-empty roles entry, case ignored |
| Authority.AddIff | lib/serveraffiliations.go:272-347 | exactly who may add an affiliation: a true hf.AffiliationMgr, the name within the caller's path and new, and force or a parent that is there |
| Authority.RemoveIff | lib/serveraffiliations.go:222-270 | exactly who may remove one: rows below need force, users force, a registrar and a server that lets identities go |
| Authority.RenameIff | lib/serveraffiliations.go:349-405 | exactly who may rename one: both names within the caller's path, the old one there and the new one free, moving users with force and a registrar |
| Authority.RegisterIff | lib/serverregister.go:75-237 | exactly which registrations are allowed: type, path, affiliation, attributes, limit and a new name |
| Authority.ModifyIff | lib/serveridentities.go:373-443 | exactly which modifications are allowed |
| Authority.RemoveIdIff | lib/serveridentities.go:272-322 | exactly which removals of identities are allowed |
| Authority.SigningIff | lib/serverenroll.go:114-179 | exactly which signing requests are accepted: all names are the identity's, a CA certificate for a true hf.IntermediateCA, a number not recorded yet |
| Authority.LoginIff | lib/dbaccessor.go:964-998 | exactly which logins succeed: the password, no revocation, neither limit reached |
| Authority.RevokeCertIff | lib/serverrevoke.go:80-119 | exactly which single certificates a revoker may revoke: recorded, not revoked, of the identity named, the caller's own or that of someone it manages |
| Authority.RevokeIdIff | lib/serverrevoke.go:122-140 | exactly which identities a revoker may revoke: itself and those it manages |
| Authority.PossibleIff | lib/serveraffiliations.go:124-137 | in every reachable state a request of any kind can have an effect exactly if it is permitted, told from rows, certificates and texts; for renames where the new names are free or the target is taken |
| Effects.AddMeans | lib/serveraffiliations.go:298-341 | an add brings the name, with force also what is missing above it, with level and prekey, and nothing else |
| Effects.RemoveMeans | lib/dbaccessor.go:351-463 | a removal takes exactly the subtree and its users; without force one row of an otherwise unchanged state; where it takes an identity or ends a certificate there is force, a registrar and an enabled server |
| Effects.RunRemoves | lib/dbaccessor.go:375-413 | the same for every removal with an effect in every run from unique names |
| Effects.RegisterMeans | lib/serverregister.go:137-195 | a registration adds one row: everything as requested, defaults filled in, state 0, the limit settled, the three fixed attributes appended |
| Effects.ModifyMeans | lib/serveridentities.go:448-486 | a modification changes the row of the identity alone, and of it exactly what is asked for, with the entry of each attribute held once at most, flags included |
| Effects.RemoveIdMeans | lib/dbaccessor.go:181-221 | the row of the identity goes and its unrevoked certificates are revoked with reason 5, nothing else |
| Effects.SigningMeans | lib/serverenroll.go:87-179 | one certificate is issued and recorded under its number and key identifier; an enrollment also counts |
| Effects.RevokeMeans | lib/serverrevoke.go:80-163 | a revocation marks the one certificate with the keys, or the identity and all its unrevoked certificates, with reason and time |
| Effects.GoodStepIff | lib/serverrequestcontext.go:117-176 | exactly which certificates are good after a request with an effect |
| Effects.GoodRunIff | lib/serverrequestcontext.go:117-176 | the life of a certificate in any run: once issued it is still good exactly if it was and no effective request has revoked it, its identity, or removed that or its affiliation |
| Effects.IssuedRunIff | lib/serverenroll.go:87-111 | a certificate issued by an enrollment or reenrollment is good from then on exactly until such a request, if its number is positive |
| Passwords.RunKeepsSecrets | lib/dbaccessor.go:964-998 | in every reachable state each identity's password is the secret it was last given by the bootstrap, a registration or a modification with a secret |
| Passwords.OnlyLastSecret | lib/serverenroll.go:87-101 | an enrollment with an effect carries that secret and names an identity that exists |
| Passwords.EnrollPossibleIff | lib/dbaccessor.go:964-998 | after any history a password enrolls an identity exactly if it is the secret last given, as long as limits and signing request allow an enrollment |
| Server.Server.TokenAuthentication | lib/serverrequestcontext.go:117-176 | accepts exactly the certificates of this CA that are recorded and not revoked |
| Server.Server.Authenticate | lib/serverrequestcontext.go:397-417 | the caller is the user named by an accepted certificate |
| Server.Server.CallerContains | lib/serverrequestcontext.go:432-457 | a caller acts at or below its own affiliation, the root anywhere |
| Server.Server.MayManage | lib/serverrequestcontext.go:348-362 | affiliation and type of the user must be the caller's to act on |
| Server.Server.InsertPath | lib/serveraffiliations.go:302-319 | the loop that extends the path string component by component adds the name with its ancestors |
| Server.Server.AddAffiliation | lib/serveraffiliations.go:272-347 | done with the effect of its step; refused without effect, exactly where no effect is possible |
| Server.Server.RemoveAffiliation | lib/serveraffiliations.go:222-270 | done with the effect of its step; refused where no effect is possible, stopped exactly by a fault of the database, both without effect |
| Server.Server.RenameAffiliation | lib/serveraffiliations.go:349-405 | done with the effect of its step; refused, where new names are free or the target is taken, only if no effect is possible; stopped exactly by a fault; both without effect |
| Server.Server.NormalizeRequest | lib/serverregister.go:103-116 | missing affiliation and type default to the registrar's, a dot asks for the root |
| Server.Server.CanRegister | lib/serverregister.go:197-237 | holds exactly of a request whose type, affiliation and attributes the registrar may register |
| Server.Server.RegisterUserId | lib/serverregister.go:137-179 | one row is added exactly if the limit is allowed and the name is new |
| Server.Server.Register | lib/serverregister.go:75-101 | done with the effect of its step; refused without effect, exactly where no effect is possible |
| Server.Server.ModifyRequest | lib/serveridentities.go:448-486 | the edited copy of the user record |
| Server.Server.ModifyIdentity | lib/serveridentities.go:373-443 | done with the effect of its step; refused without effect, exactly where no effect is possible |
| Server.Server.RemoveIdentity | lib/serveridentities.go:272-322 | done with the effect of its step; refused where no effect is possible, stopped exactly by a fault of the database, both without effect |
| Server.Server.HandleEnroll | lib/serverenroll.go:114-179 | signs and records exactly the requests whose common names equal the identity and that are permitted |
| Server.Server.Enroll | lib/serverenroll.go:87-101 | done with the effect of its step, the completion always succeeding; refused without effect, exactly where no effect is possible |
| Server.Server.Reenroll | lib/serverenroll.go:104-111 | done with the effect of its step; refused without effect, exactly where no effect is possible |
| Server.Server.Revoke | lib/serverrevoke.go:53-179 | done with the effect of its step and the keys of the revoked certificates, refused exactly where no effect is allowed |
| Server.Server.Handle | lib/serveraffiliations.go:124-137 | every request has its effect or none; it is refused only if no effect is possible and stopped exactly by a fault of the database |
| Server.Server.Serve | lib/serveraffiliations.go:124-137 | serving requests is a run of the model and keeps the certificate invariant; every outcome is that of its request, and without a fault of the database exactly the permitted requests are done |
| Safety.StepKeepsCerts | lib/serverrevoke.go:122-163 | every request keeps: unrevoked certificates belong to identities that exist and are not revoked; keys are unique; issued certificates are recorded |
| Safety.RunKeepsCerts | lib/serverenroll.go:212-212 | the same in every reachable state |
| Safety.AuthenticIsActive | lib/serverrequestcontext.go:153-171 | who authenticates with a token exists and is not revoked |
| Safety.RunGrowsCerts | lib/certdbaccessor.go:249-280 | over any part of a run certificate rows are only added and only ever become revoked |
| Safety.InactiveIsFinal | lib/dbaccessor.go:195-221 | a certificate issued to an identity that is now gone or revoked never authenticates later |
| Safety.RevokedCertIsFinal | lib/serverrevoke.go:80-119 | a certificate whose record is revoked never authenticates later |
| Safety.EndingRequests | lib/dbaccessor.go:432-441 | revoking by name, removing, and removing the affiliation leave the identity gone or revoked |
| Safety.EndedIsFinal | lib/serverrevoke.go:122-163 | after such a request no earlier certificate of the identity authenticates, even after it is registered anew |
| Identities.RegisteredIsInSync | lib/serverregister.go:150-164 | a registered identity has the three fixed attributes equal to its columns |
| Identities.ModifiedIsInSync | lib/serveridentities.go:448-486 | a permitted modification keeps them equal, a dot for the root included |
| Identities.RunKeepsSync | lib/dbaccessor.go:753-774 | in every reachable state they are equal for every registered identity, forced renames included |
| Identities.RunKeepsBounded | lib/attr/attribute.go:64-113 | in every reachable state every attribute of every identity is bounded by the bootstrap attributes |
| Identities.AuthorityComesFromBootstrap | lib/attr/attribute.go:198-303 | an attribute that carries authority is covered by one attribute of one bootstrap identity |
| Identities.RegistrarComesFromBootstrap | lib/serverrequestcontext.go:475-497 | whoever is taken for a registrar has roles within non-empty roles of one bootstrap identity |
| Scope.RunKeepsKinds | lib/serverrequestcontext.go:499-540 | in every reachable state every identity has the type of a bootstrap identity or one of its roles |
| Scope.ModifyScopeIff | lib/serveridentities.go:403-412 | a modification with an effect leaves all affiliations to which some bootstrap identity extends exactly if it does not ask for "." or some bootstrap identity is at the root |
| Scope.RunScopeIff | lib/serverrequestcontext.go:348-390 | all states of a run have all affiliations within those of the bootstrap identities exactly if every effective request for "." finds a bootstrap identity at the root |
| Scope.RunKeepsScope | lib/serverrequestcontext.go:348-390 | no run leaves scope if some bootstrap identity is at the root or none is at "." |
| Scope.ContainsDotIff | lib/serverrequestcontext.go:432-457 | exactly the root and "." itself pass the affiliation test for "." |
| Scope.DotLeavesScope | lib/serveridentities.go:403-412 | with nobody at the root, any bootstrap identity at "." that may log in and manages its own type leaves scope in a run of two requests from the start |
| Integrity.StepKeepsConsistent | lib/serverregister.go:181-195 | every request, renames under their guard, keeps referential integrity |
| Integrity.RenameStepConsistentIff | lib/serveraffiliations.go:349-405 | a successful rename request keeps it exactly under the guard |
| Integrity.RunKeepsConsistent | lib/serveridentities.go:403-412 | while the renames that have an effect are guarded, affiliation names stay unique and parent-closed and users' affiliations exist |
| Integrity.RunConsistentIff | lib/serveraffiliations.go:349-405 | all states of a run are consistent exactly if every request that has an effect is guarded |
| Enrollment.DBUser.Login | lib/dbaccessor.go:964-998 | succeeds exactly for the right password, a state other than -1 and below both limits, and lowers the limit to the CA's |
| Enrollment.DBUser.LoginComplete | lib/dbaccessor.go:1001-1037 | the conditional update and its row count |
| Enrollment.CompleteOne | lib/dbaccessor.go:1001-1037 | a completion counts, and adds one, exactly when the limit is not reached at that moment |
| Enrollment.CountingBound | lib/serverenroll.go:87-101 | for any interleaving of logins, token authentications, signings, completions and revocations the state is its initial value plus the completions that counted and does not pass the limit |
| Enrollment.LimitIsMinimum | lib/dbaccessor.go:983-986 | the limit is the minimum of the user's and the CA's with -1 as infinity, for any numbers |
| Enrollment.CompletionMeets | lib/dbaccessor.go:1013-1013 | a completion right after its login always meets its row |
| Enrollment.StaysRevoked | lib/dbaccessor.go:975-978 | an identity revoked with no enrollment under way stays revoked whatever happens |
| Enrollment.RevocationLastsIff | lib/dbaccessor.go:1008-1015 | after any events, a revocation lasts in every continuation exactly if no enrollment of the identity is under way |
| Enrollment.CertsLastIff | lib/serverenroll.go:87-179 | after any events that leave an identity revoked with all its certificates, they all stay revoked and no other is issued, in every continuation, exactly if none of its enrollments and reenrollments is under way |
| Enrollment.ReenrollsPast | lib/serverrevoke.go:141-151 | a reenrollment authenticated between the two statements of a revocation leaves the revoked identity with a good certificate |
| Response.FillAffiliationInfo | lib/serveraffiliations.go:447-495 | the recursion over one shared array, each frame shifting its prefix, computes the tree of the value function Fill, each node with its name and the identities of its affiliation, and touches nothing beyond its prefix |
| Response.Remove | lib/serveraffiliations.go:475-475 | the append of two halves of one slice: the rest moves down, the last slot stays |
| Response.FillAtLeast | lib/serveraffiliations.go:447-495 | a frame shows what it can reach at least as often as it sees it and loses only what is below its name |
| Response.FillExact | lib/serveraffiliations.go:447-495 | a frame whose last slot is out of reach shows everything exactly as often as it sees it |
| Response.ShownAnyOrder | lib/serveraffiliations.go:447-495 | for any order of the rows of a subtree exactly its names are shown, with edges from parents to children |
| Response.ShownOnceIff | lib/serveraffiliations.go:447-495 | each name is shown exactly once exactly for the orders that pass only childless names on the way to the last element |
| Response.ShownTwice | lib/serveraffiliations.go:475-475 | a four-row order for which a name is listed twice |
| Response.GetRootAffiliationNames | lib/serveraffiliations.go:427-443 | the names that are a child of no other, each as often as it is there, in order |
| Response.OneRoot | lib/serveraffiliations.go:427-443 | in the rows of a subtree the only root is its top |
| Response.GetResponse | lib/serveraffiliations.go:407-424 | no root, one root, or several roots; for the rows of a subtree, in any order, one node at the top with the root's name, every name of the rows below it, all edges from a name to its child, every node with exactly the identities of its name, and each name once exactly for clean orders |
| Response.ListedTimes | lib/serveraffiliations.go:447-465 | where nodes carry exactly the identities of their names, an identity is listed as often as its affiliation is |
| Response.ListedOnce | lib/serveraffiliations.go:447-465 | where every name is there once, so is every identity of one of them |
| Response.DeleteResponse | lib/dbaccessor.go:413-413 | the tree presented for the result of a delete names each removed affiliation once, and lists each removed identity once |
| Response.RespondToDelete | lib/serveraffiliations.go:257-269 | the response to a delete: one tree that names each removed affiliation once and lists each removed identity once |
| Response.SubtreeResponse | lib/dbaccessor.go:507-533 | the tree presented for rows in table order names exactly these, once each exactly in clean orders |
| AffiliationTrie.AffiliationNode.InsertByPath | lib/serveraffiliations.go:532-545 | the linked nodes gain exactly the prefixes of the path |
| AffiliationTrie.AffiliationNode.FillSlots | lib/serveraffiliations.go:560-569 | the children are copied into the result slots, each once, in some order |
| AffiliationTrie.AffiliationNode.GetRoot | lib/serveraffiliations.go:547-558 | nothing, the only child, or the nameless top |
| AffiliationTrie.ListAffiliations | lib/serveraffiliations.go:167-198 | inserting all names and copying out gives nothing for no names, one tree below a common top, or a nameless node; every name at or above an inserted one is in it once, with edges from parents to children |
| AffiliationTrie.ListedRoot | lib/serveraffiliations.go:547-558 | exactly when the listing is empty, a single tree, or has a nameless top, with names and edges |
| AffiliationTrie.ListedOnce | lib/serveraffiliations.go:524-570 | every name at or above an inserted one is listed exactly once, nothing else |
| AffiliationTrie.OrderIndependent | lib/serveraffiliations.go:532-545 | order and repetition of insertions make no difference |
| AffiliationTrie.ListedTable | lib/serveraffiliations.go:167-198 | on a parent-closed table exactly its rows are listed |
| AffiliationTrie.ListedEdges | lib/serveraffiliations.go:560-569 | edges go from a name to its children |
| ConfigLoader.Loader.LoadAffiliations | lib/ca.go:812-852 | the recursion over a nested configuration adds its rows in order |
| ConfigLoader.LoadAddsPaths | lib/ca.go:812-852 | exactly the paths of the configuration are added, whatever its names |
| ConfigLoader.PathJoinedIff | lib/ca.go:1304-1309 | a path is its names joined with dots exactly if it has one name or does not start with an empty one |
| ConfigLoader.EmptyName | lib/ca.go:1304-1309 | below an empty name at the top, an affiliation is added as if it stood at the top itself |
| ConfigLoader.LoadClosedIff | lib/ca.go:812-852 | for any configuration and table, exactly when the table is parent-closed afterwards: earlier rows have their parents by then, and wherever a configured name has a dot the part before its last dot is configured or there |
| ConfigLoader.LoadKeepsTree | lib/ca.go:812-852 | names without dots keep the table unique and parent-closed with exact prekeys |
| ConfigLoader.LoadTwice | lib/ca.go:838-849 | two configurations that differ in the order of map entries, at any depth, add the same names, and the second changes nothing after the first |
| ConfigLoader.PathParentIff | lib/ca.go:1304-1309 | exactly which configured names give a row whose prekey is its parent |
| ConfigLoader.PrekeysExactIff | lib/ca.go:812-852 | prekeys stay exact exactly if the first row of each new path is right |
| ConfigLoader.DottedName | lib/ca.go:1304-1309 | the instance of a dotted name that leaves a row without its parent, with a wrong prekey |
| ConfigLoader.Loader.AddIdentity | lib/ca.go:855-886 | an identity is added once, with its limit settled |
| ConfigLoader.Loader.LoadIdentities | lib/ca.go:786-798 | identities are added in order up to the first refused limit |
| ConfigLoader.LoadedUsers | lib/ca.go:855-886 | the new rows are those of the first identities of their names, with password, type, attributes and a limit a login keeps; loading succeeds exactly if all their limits fit, and then every name is there |
| ConfigLoader.LoadedIsInitial | lib/ca.go:786-886 | loading any configuration gives a start state of runs, consistent exactly if dotted names are supported and every identity's affiliation is the root or a configured path |
| JsonStream.Streamer.GetToken | lib/streamer/jsonstreamer.go:183-189 | the next token, or the end |
| JsonStream.Streamer.SkipToDelim | lib/streamer/jsonstreamer.go:131-161 | the nested skipping loop is the value function SkipTo |
| JsonStream.Streamer.GetNextName | lib/streamer/jsonstreamer.go:164-181 | a name, the end of the object, or an error |
| JsonStream.Streamer.StreamElements | lib/streamer/jsonstreamer.go:78-85 | the callback gets the elements one by one up to an error |
| JsonStream.Streamer.StreamValue | lib/streamer/jsonstreamer.go:65-118 | on any tokens: result, tokens left and calls are those of the value function Stream, and the path stack is restored |
| JsonStream.Streamer.StreamObject | lib/streamer/jsonstreamer.go:97-113 | the member loop, the stack pushed and popped round each value |
| JsonStream.ParseFlatten | lib/streamer/jsonstreamer.go:78-85 | decoding the tokens of a value gives the value and leaves the rest |
| JsonStream.SkipOver | lib/streamer/jsonstreamer.go:131-161 | skipping passes a whole value as if it were not there |
| JsonStream.StreamQuery | lib/streamer/jsonstreamer.go:65-118 | on a value with non-empty names the walk is the path query: same success, same calls in order, exactly the value consumed |
| JsonStream.QueryOk | lib/streamer/jsonstreamer.go:93-96 | the query succeeds exactly if no searched path leads to an object or to a refused element |
| JsonStream.QueryCalls | lib/streamer/jsonstreamer.go:77-87 | a successful query calls for exactly the elements of arrays at searched paths |
| JsonStream.StreamExactIff | lib/streamer/jsonstreamer.go:65-118 | the walk succeeds and consumes exactly the value exactly if names are non-empty and nothing stands in the way |
| JsonStream.WalkCalls | lib/streamer/jsonstreamer.go:65-118 | the walk of a value with non-empty names, without reference to the joined path: it succeeds exactly if nothing stands in the way, and then calls with number k for exactly the elements of arrays to which the names lead whose components are those of path k and of no earlier one |
| JsonStream.WalkOrder | lib/streamer/jsonstreamer.go:65-118 | the calls come in the order of the text, array by array, element by element |
| JsonStream.WalkRefuses | lib/streamer/jsonstreamer.go:67-117 | a walk that does not start at a value fails without a call |
| JsonStream.FirstAtIff | lib/streamer/jsonstreamer.go:121-128 | the number found for a stack of names is that of the first path with their components |
| JsonStream.PlainHits | lib/streamer/jsonstreamer.go:73-73 | dot-free names are met by a path exactly if they are its components |
| JsonStream.DottedHits | lib/streamer/jsonstreamer.go:73-73 | a name with a dot is met like several names |
| JsonStream.EmptyNameMisses | lib/streamer/jsonstreamer.go:101-103 | with an empty name the walk reports success and misses an array |
| Serials.ParseRender | lib/certdbaccessor.go:108-111 | a number written in a base and read back is itself |
| Serials.SerialSurvives | lib/gmca.go:73-80 | decimal record, hexadecimal row and base-16 reading keep the serial number |
| Serials.SerialLookup | lib/serverrequestcontext.go:156-160 | the trimmed lower-case lookup keys equal the stored key exactly for positive serials |
| Serials.AkiLookup | lib/serverrevoke.go:77-78 | the lookup keys of an AKI always equal the stored key, in whatever case a request writes it |
| Serials.RequestKeyIff | lib/serverrevoke.go:77-78 | a text in a request is looked up under the key of a positive number exactly if it reads as that number in base 16, capitals and leading zeros allowed |
| Serials.HexPairs | lib/serverrequestcontext.go:156-160 | a key identifier is written with two digits a byte, the high half first |
| Serials.ParseSomeIff | lib/certdbaccessor.go:108-111 | exactly the texts of digits below the base read as numbers |
| Serials.NewSerial | lib/gmca.go:167-177 | masking the first byte gives a number below 2^159, zero exactly for zero bytes |
| Crl.GenCrl | lib/servergencrl.go:94-143 | the list of exactly the rows within the window, or exactly the first error: a window turned round, no CA certificate, no right to sign lists, no signer |
| Crl.HandleGenCrl | lib/servergencrl.go:48-92 | a list only for a good certificate of an identity with a true hf.GenCRL, and then exactly the rows within the window |
| Crl.RunKeepsRows | lib/certdbaccessor.go:95-145 | in every reachable state each record is that of an issued certificate |
| Crl.ListIsExact | lib/servergencrl.go:135-143 | in every reachable state a list holds exactly the serials, as issued, and times of certificates revoked within the window |
| KeyTree.KeyTree.GetKey | lib/tcert/keytree.go:61-81 | key and cache are those of the value function Get; it fails exactly if a derivation fails, which a cached path never does, and then the cache is that of a request for the components derived so far |
| KeyTree.KeyTree.DeriveChildKey | lib/tcert/keytree.go:84-94 | the derived key, or a failure that is counted |
| KeyTree.SharedCacheIff | lib/tcert/keytree.go:65-69 | paths get keys derived along their own names after every history of such paths exactly if no two of their prefixes have the same joined text |
| KeyTree.SeparatorFreeIff | lib/tcert/keytree.go:65-69 | beside the separator-free paths, a path always gets such a key, and they do, exactly if it is separator-free itself |
| KeyTree.Serve | lib/tcert/keytree.go:61-81 | any history of paths whose prefixes are told apart, as separator-free ones are, gets the folds of derivation, and gets all of them exactly if no derivation fails |
| KeyTree.JoinInjective | lib/tcert/keytree.go:65-65 | separator-free paths have different cache keys |
| KeyTree.Confused | lib/tcert/keytree.go:65-69 | for every path: after its text split at separators, the path gets the key of that split, which is another path exactly if a component has a separator |
| KeyTree.SlashConfuses | lib/tcert/keytree.go:65-69 | the instance with one slash |
| KeyTree.FoldBelow | lib/tcert/keytree.go:26-38 | from the key of a node the keys of its whole subtree follow, one derivation a name |
| Version.CmpVersion | lib/metadata/version.go:100-120 | the loop computes the component-wise comparison, with the first bad component met |
| Version.CmpMeans | lib/metadata/version.go:100-120 | the sign is the lexicographic order of the numbers followed by zeros |
| Version.CmpNoneIff | lib/metadata/version.go:100-120 | the comparison fails exactly at a component that is no number behind components that are equal |
| Version.AtoiReads | lib/metadata/version.go:133-143 | a component reads as the number it is written for, signs allowed, within 64 bits |
| Version.VersionOrder | lib/metadata/version.go:100-120 | a total preorder whose sign turns round with the arguments |
| Version.TrailingZero | lib/metadata/version.go:133-143 | a trailing component that reads as zero makes no difference |
| Version.AfterDash | lib/metadata/version.go:122-124 | text after a dash makes no difference, and what is before it is split at the dots |
| Version.GetLevels | lib/metadata/version.go:84-96 | the loop over the program's table gives the levels of the entry found, nothing, or an error |
| Version.LevelIsGreatest | lib/metadata/version.go:84-96 | in an ascending table the greatest entry not newer than the version is found |
| Version.LevelsMonotone | lib/metadata/version.go:84-96 | a newer version never gets an older entry |
| Version.OwnTableAscends | lib/metadata/version.go:66-75 | the program's own table is ascending |
| Version.OwnLevels | lib/metadata/version.go:66-96 | every legible version has levels: 1 in everything from 1.1 on, 0 before |

## Left out
- SQL: `LIKE name.%` is a case-sensitive prefix test; the wildcards `%` and `_` in names, case-insensitive collations and column length limits are not modelled.
- Database faults: any statement of the three transactions may fail; elsewhere a statement outside a transaction does not fail for reasons of the database.
- MustExec: a panic on the unique constraint inside a transaction is modelled as a failure that leaves the tables unchanged.
- Concurrency of requests other than enrollments, reenrollments and revocations by name: the other handlers are atomic steps.
- Signing, hashing, derivation: a signing yields a serial number and key identifier given with the request, a password hash is equal for equal passwords only, derivation is any function that may fail.
- Server.Server.TokenAuthentication: does not model token signatures, expiry and the library's own revocation test, which can only refuse more; the certificate chain is modelled as the set of certificates this CA has signed and recorded.
- Server.Server.Revoke: does not model the revocation list that a request may ask for on top, whose failure comes after the effect, nor a failure of the database between its two statements.
- Authority.PossibleIff: a rename to a free name below which there are rows, which tables with parents for all rows do not contain, is told only that it keeps names unique and carries users; what it may hit half way depends on the order of the rows.
- Delegation.DelegateRolesKeptOnce: requests whose first and last entry differ, and users with several entries, are told from the last entries only (`Delegation.DelegateRolesLeft`), because the check looks at the first.
- Server.Server.HandleEnroll: does not model the length checks of signing requests, attribute extensions and the settling of the expiry time, which come with the request.
- Certificates whose record could not be inserted: they are never returned to the client and not counted as issued.
- Non-ASCII case folding in list comparisons and keys.
- HTTP, request bodies, logging, LDAP, migration to level 1, several CAs, TCert batches, OU fields: plumbing, or library calls the model does not see.
- The listing of identities, and what of an identity is shown in a response: its attributes in the order of a map.
- Response.FillAffiliationInfo: affiliations are represented by their names, the only part of them the builder looks at, and identities by their rows.
- Response.GetResponse: as above; the error for several roots carries their names.
- Crl.GenCrl: stops before signing; a stored text that is no number gives serial 0, which no reachable state contains.
- JsonStream.Streamer.CallBack: a callback decodes one value and accepts it or not; callbacks that read further tokens are not modelled.
