/**
 How far authority reaches in the affiliation tree and among the identity types: never further than that
 of the bootstrap identities.
*/
module Scope {
  import opened Basics
  import opened Strings
  import opened Paths
  import opened Attributes
  import opened Tables
  import opened Delegation
  import opened Serials
  import opened Registry
  import opened Handlers
  import opened Safety
  import opened Identities

  /** Some bootstrap identity may act on the affiliation. */
  predicate InScope(boot: seq<UserRow>, affiliation: string) {
    exists k | 0 <= k < |boot| :: ContainsAffiliation(boot[k], affiliation)
  }

  predicate UsersInScope(boot: seq<UserRow>, users: seq<UserRow>) {
    forall i | 0 <= i < |users| :: InScope(boot, users[i].affiliation)
  }

  /** It is the type of a bootstrap identity, or one that a bootstrap identity may act on. */
  predicate KindInScope(boot: seq<UserRow>, kind: string) {
    || (exists k | 0 <= k < |boot| :: boot[k].kind == kind)
    || (exists a | a in Pool(boot) :: a.name == ROLES && StrContained(kind, Split(a.value, ',')))
  }

  predicate KindsInScope(boot: seq<UserRow>, users: seq<UserRow>) {
    forall i | 0 <= i < |users| :: KindInScope(boot, users[i].kind)
  }

  predicate HasRoot(boot: seq<UserRow>) {
    exists k | 0 <= k < |boot| :: boot[k].affiliation == ""
  }

  /** A modification that asks for ".", which is read as the root, needs a bootstrap identity at the root. */
  predicate AsksInScope(boot: seq<UserRow>, q: Request) {
    q.ModifyIdentity? && q.mod.affiliation == "." ==> HasRoot(boot)
  }

  /** Who contains "." contains the root as well: some bootstrap identity is at the root, or none is at ".". */
  predicate DotIsRoot(boot: seq<UserRow>) {
    (exists k | 0 <= k < |boot| :: boot[k].affiliation == ".") ==> HasRoot(boot)
  }

  // ----- one request

  /** Only the root and "." itself contain ".", which the modification handler takes for the root. */
  lemma ContainsDotIff(caller: UserRow)
    ensures ContainsAffiliation(caller, ".") <==> caller.affiliation == "" || caller.affiliation == "."
  {
    if Below(caller.affiliation, ".") {
      assert |caller.affiliation + "."| <= |"."|;
    }
  }

  lemma ScopePasses(boot: seq<UserRow>, caller: UserRow, affiliation: string)
    requires InScope(boot, caller.affiliation) && ContainsAffiliation(caller, affiliation)
    ensures InScope(boot, affiliation)
  {
    var k :| 0 <= k < |boot| && ContainsAffiliation(boot[k], caller.affiliation);
    if boot[k].affiliation != "" {
      BelowTransitive(boot[k].affiliation, caller.affiliation, affiliation);
    }
    assert ContainsAffiliation(boot[k], affiliation);
  }

  lemma ScopeBelow(boot: seq<UserRow>, to: string, affiliation: string)
    requires InScope(boot, to) && AtOrBelow(to, affiliation)
    ensures InScope(boot, affiliation)
  {
    var k :| 0 <= k < |boot| && ContainsAffiliation(boot[k], to);
    if boot[k].affiliation != "" {
      BelowTransitive(boot[k].affiliation, to, affiliation);
    }
    assert ContainsAffiliation(boot[k], affiliation);
  }

  lemma RootInScopeIff(boot: seq<UserRow>)
    ensures InScope(boot, "") <==> HasRoot(boot)
  {
    if k :| 0 <= k < |boot| && boot[k].affiliation == "" {
      assert ContainsAffiliation(boot[k], "");
    }
  }

  lemma DotNeedsRoot(boot: seq<UserRow>)
    requires DotIsRoot(boot) && InScope(boot, ".")
    ensures HasRoot(boot)
  {
    var k :| 0 <= k < |boot| && ContainsAffiliation(boot[k], ".");
    ContainsDotIff(boot[k]);
  }

  lemma CallerInScope(boot: seq<UserRow>, w: World, token: Cert, affiliation: string)
    requires UsersInScope(boot, w.db.users) && Caller(w, token).Some?
    requires ContainsAffiliation(Caller(w, token).value, affiliation)
    ensures InScope(boot, affiliation)
  {
    var caller := Caller(w, token).value;
    var i :| 0 <= i < |w.db.users| && w.db.users[i] == caller;
    ScopePasses(boot, caller, affiliation);
  }

  /** Types a caller may act on come from one bootstrap list of roles. */
  lemma ActsInScope(boot: seq<UserRow>, caller: UserRow, kind: string)
    requires AllBounded(caller.attributes, Pool(boot)) && CanActOnType(caller, kind) && kind != ""
    ensures KindInScope(boot, kind)
  {
    var i := FindLast(caller.attributes, ROLES);
    var held := caller.attributes[i];
    assert Bounded(held, Pool(boot));
    var j :| 0 <= j < |Pool(boot)| && NoStronger(held, Pool(boot)[j]);
    StrContainedReplace(kind, Split(held.value, ','), Split(Pool(boot)[j].value, ','));
    assert Pool(boot)[j] in Pool(boot);
  }

  lemma CallerActsInScope(boot: seq<UserRow>, w: World, token: Cert, kind: string)
    requires UsersBounded(w.db.users, Pool(boot)) && Caller(w, token).Some?
    requires CanActOnType(Caller(w, token).value, kind) && kind != ""
    ensures KindInScope(boot, kind)
  {
    FoundIsBounded(w.db.users, token.cn, Pool(boot));
    ActsInScope(boot, Caller(w, token).value, kind);
  }

  lemma RegisteredInScope(cfg: Config, boot: seq<UserRow>, w: World, q: Request, w': World)
    requires q.Register? && Effect(cfg, w, q, w')
    ensures UsersInScope(boot, w.db.users) ==> UsersInScope(boot, w'.db.users)
    ensures UsersBounded(w.db.users, Pool(boot)) && KindsInScope(boot, w.db.users) ==> KindsInScope(boot, w'.db.users)
  {
    hide InScope, KindInScope, UsersBounded, Caller, CanRegisterRequested, CanActOnType, ContainsAffiliation,
         AllowedMax;
    var caller := Caller(w, q.token).value;
    var r := Normalized(q.reg, caller);
    if UsersInScope(boot, w.db.users) {
      CallerInScope(boot, w, q.token, r.affiliation);
    }
    if UsersBounded(w.db.users, Pool(boot)) {
      CallerActsInScope(boot, w, q.token, r.kind);
    }
  }

  /** What a modification may change an identity into. */
  lemma ModifiedInScope(boot: seq<UserRow>, w: World, token: Cert, id: string, mod: Modification)
    requires Caller(w, token).Some? && ModifyAllowed(w, Caller(w, token).value, id, mod)
    ensures FindUser(w.db.users, id).Some?
    ensures var user := FindUser(w.db.users, id).value;
            var row := ModifiedRow(user, mod);
            && (UsersInScope(boot, w.db.users) ==>
                  if mod.affiliation == "." then row.affiliation == "" && InScope(boot, ".")
                  else row.affiliation == user.affiliation || InScope(boot, row.affiliation))
            && (UsersBounded(w.db.users, Pool(boot)) ==> row.kind == user.kind || KindInScope(boot, row.kind))
  {
    hide InScope, KindInScope, UsersBounded, Caller, CanRegisterRequested, CanActOnType, CanManageUser,
         ContainsAffiliation, NewAttributes, ModificationAttributes, UsersInScope;
    if mod.kind != "" && UsersBounded(w.db.users, Pool(boot)) {
      CallerActsInScope(boot, w, token, mod.kind);
    }
    if mod.affiliation != "" && UsersInScope(boot, w.db.users) {
      CallerInScope(boot, w, token, mod.affiliation);
    }
  }

  /** Exactly when a modification that has an effect leaves all identities in scope. */
  lemma ModifyScopeIff(cfg: Config, boot: seq<UserRow>, w: World, q: Request, w': World)
    requires q.ModifyIdentity? && Effect(cfg, w, q, w') && UsersInScope(boot, w.db.users)
    ensures UsersInScope(boot, w'.db.users) <==> AsksInScope(boot, q)
  {
    hide InScope, KindInScope, UsersBounded, Caller, ModifyAllowed, ModifiedRow, HasRoot;
    ModifiedInScope(boot, w, q.token, q.id, q.mod);
    RootInScopeIff(boot);
    var user := FindUser(w.db.users, q.id).value;
    var k :| 0 <= k < |w.db.users| && w.db.users[k] == user;
    assert w'.db.users[k] == ModifiedRow(user, q.mod);
  }

  lemma ModifyKeepsKinds(cfg: Config, boot: seq<UserRow>, w: World, q: Request, w': World)
    requires q.ModifyIdentity? && Effect(cfg, w, q, w')
    requires UsersBounded(w.db.users, Pool(boot)) && KindsInScope(boot, w.db.users)
    ensures KindsInScope(boot, w'.db.users)
  {
    hide KindInScope, UsersBounded, UsersInScope, Caller, ModifyAllowed, ModifiedRow;
    ModifiedInScope(boot, w, q.token, q.id, q.mod);
    var user := FindUser(w.db.users, q.id).value;
    var k :| 0 <= k < |w.db.users| && w.db.users[k] == user;
  }

  lemma RenameInScope(boot: seq<UserRow>, w: World, q: Request, w': World)
    requires q.RenameAffiliation? && RenameEffect(w, q.token, q.name, q.newName, q.force, w')
    requires UniqueBy(w.db.users, UserKey)
    ensures UsersInScope(boot, w.db.users) ==> UsersInScope(boot, w'.db.users)
    ensures KindsInScope(boot, w.db.users) ==> KindsInScope(boot, w'.db.users)
  {
    hide InScope, KindInScope, Renamed, RenameError, Caller, ContainsAffiliation, UniqueBy;
    assert CarriedAll(w.db.users, w'.db.users, q.newName);
    if UsersInScope(boot, w.db.users) {
      CallerInScope(boot, w, q.token, q.newName);
      forall i | 0 <= i < |w'.db.users| ensures InScope(boot, w'.db.users[i].affiliation) {
        if w'.db.users[i].affiliation != w.db.users[i].affiliation {
          ScopeBelow(boot, q.newName, w'.db.users[i].affiliation);
        }
      }
    }
    forall i | 0 <= i < |w'.db.users| ensures w'.db.users[i].kind == w.db.users[i].kind {
      assert Carried(w.db.users[i], w'.db.users[i]);
    }
  }

  /** The rows left by a request that registers, changes and moves nobody: those before, but for the state. */
  ghost predicate Stay(users: seq<UserRow>, users': seq<UserRow>) {
    forall j | 0 <= j < |users'| :: StayedOne(users, users'[j])
  }

  predicate StayedOne(users: seq<UserRow>, v: UserRow) {
    exists i | 0 <= i < |users| :: Stayed(users[i], v)
  }

  predicate Stayed(u: UserRow, v: UserRow) {
    v == u.(state := v.state)
  }

  lemma DeletedStay(users: seq<UserRow>, p: UserRow -> bool)
    ensures Stay(users, Delete(users, p))
  {
    var rest := Delete(users, p);
    forall j | 0 <= j < |rest| ensures StayedOne(users, rest[j]) {
      KeepMember(users, p, false, rest[j]);
      var i :| 0 <= i < |users| && users[i] == rest[j];
      assert Stayed(users[i], rest[j]);
    }
  }

  lemma UpdatedStay(users: seq<UserRow>, users': seq<UserRow>)
    requires |users'| == |users| && forall i | 0 <= i < |users| :: Stayed(users[i], users'[i])
    ensures Stay(users, users')
  {
  }

  lemma OthersStay(cfg: Config, w: World, q: Request, w': World)
    requires Effect(cfg, w, q, w') && !q.Register? && !q.ModifyIdentity? && !q.RenameAffiliation?
    ensures Stay(w.db.users, w'.db.users)
  {
    hide Stay, SigningAllowed, LoginAllowed, RevokeCertAllowed, RevokeIdAllowed, Caller, AddAllowed, RemoveAllowed,
         RemoveIdAllowed, AffAdded, NewCertRow;
    if q.RemoveAffiliation? {
      DeletedStay(w.db.users, IdIn(UserNames(UsersUnder(w.db, q.name))).Holds);
    } else if q.RemoveIdentity? {
      DeletedStay(w.db.users, IdIn([q.id]).Holds);
    } else {
      UpdatedStay(w.db.users, w'.db.users);
    }
  }

  lemma StayInScope(boot: seq<UserRow>, users: seq<UserRow>, users': seq<UserRow>)
    requires Stay(users, users')
    ensures UsersInScope(boot, users) ==> UsersInScope(boot, users')
    ensures KindsInScope(boot, users) ==> KindsInScope(boot, users')
  {
    hide InScope, KindInScope;
  }

  lemma StepKeepsKinds(cfg: Config, boot: seq<UserRow>, w: World, q: Request, w': World)
    requires UniqueBy(w.db.users, UserKey) && UsersBounded(w.db.users, Pool(boot)) && Step(cfg, w, q, w')
    requires KindsInScope(boot, w.db.users)
    ensures KindsInScope(boot, w'.db.users)
  {
    hide UsersInScope, KindsInScope, UniqueBy, UsersBounded, RenameEffect;
    if w' == w {
    } else if q.Register? {
      RegisteredInScope(cfg, boot, w, q, w');
    } else if q.ModifyIdentity? {
      ModifyKeepsKinds(cfg, boot, w, q, w');
    } else if q.RenameAffiliation? {
      RenameInScope(boot, w, q, w');
    } else {
      OthersStay(cfg, w, q, w');
      StayInScope(boot, w.db.users, w'.db.users);
    }
  }

  /** Only a modification that asks for the root where there is none takes identities out of scope. */
  lemma StepScopeIff(cfg: Config, boot: seq<UserRow>, w: World, q: Request, w': World)
    requires UniqueBy(w.db.users, UserKey) && UsersInScope(boot, w.db.users) && Step(cfg, w, q, w')
    ensures UsersInScope(boot, w'.db.users) <==> w' == w || AsksInScope(boot, q)
  {
    hide UsersInScope, KindsInScope, HasRoot, UniqueBy, UsersBounded, RenameEffect;
    if w' == w {
    } else if q.Register? {
      RegisteredInScope(cfg, boot, w, q, w');
    } else if q.ModifyIdentity? {
      ModifyScopeIff(cfg, boot, w, q, w');
    } else if q.RenameAffiliation? {
      RenameInScope(boot, w, q, w');
    } else {
      OthersStay(cfg, w, q, w');
      StayInScope(boot, w.db.users, w'.db.users);
    }
  }

  // ----- all runs

  lemma BootInScope(boot: seq<UserRow>)
    ensures UsersInScope(boot, boot) && KindsInScope(boot, boot)
  {
    forall i | 0 <= i < |boot| ensures InScope(boot, boot[i].affiliation) {
      assert ContainsAffiliation(boot[i], boot[i].affiliation);
    }
  }

  /** In every reachable state every identity's type is one of the bootstrap types or roles. */
  lemma {:induction false} RunKeepsKinds(cfg: Config, boot: seq<UserRow>, ws: seq<World>, qs: seq<Request>, i: nat)
    requires Run(cfg, ws, qs) && Initial(ws[0], boot) && i < |ws|
    ensures KindsInScope(boot, ws[i].db.users)
  {
    hide Step, KindsInScope, UsersBounded;
    if i == 0 {
      BootInScope(boot);
    } else {
      RunKeepsKinds(cfg, boot, ws, qs, i - 1);
      RunKeepsKeys(cfg, boot, ws, qs, i - 1);
      RunKeepsBounded(cfg, boot, ws, qs, i - 1);
      StepKeepsKinds(cfg, boot, ws[i - 1], qs[i - 1], ws[i]);
    }
  }

  lemma {:induction false} StaysInScope(cfg: Config, boot: seq<UserRow>, ws: seq<World>, qs: seq<Request>, i: nat)
    requires Run(cfg, ws, qs) && Initial(ws[0], boot) && i < |ws|
    requires forall j | 0 <= j < i :: ws[j + 1] == ws[j] || AsksInScope(boot, qs[j])
    ensures UsersInScope(boot, ws[i].db.users)
  {
    hide Step, UsersInScope, AsksInScope;
    if i == 0 {
      BootInScope(boot);
    } else {
      StaysInScope(cfg, boot, ws, qs, i - 1);
      RunKeepsKeys(cfg, boot, ws, qs, i - 1);
      StepScopeIff(cfg, boot, ws[i - 1], qs[i - 1], ws[i]);
    }
  }

  /**
   In all states of a run every identity's affiliation is one that some bootstrap identity may act on,
   exactly if every request with an effect that asks for "." finds a bootstrap identity at the root.
  */
  lemma RunScopeIff(cfg: Config, boot: seq<UserRow>, ws: seq<World>, qs: seq<Request>)
    requires Run(cfg, ws, qs) && Initial(ws[0], boot)
    ensures (forall i | 0 <= i < |ws| :: UsersInScope(boot, ws[i].db.users)) <==>
            forall j | 0 <= j < |qs| :: ws[j + 1] == ws[j] || AsksInScope(boot, qs[j])
  {
    hide Step, UsersInScope, AsksInScope;
    if forall i | 0 <= i < |ws| :: UsersInScope(boot, ws[i].db.users) {
      forall j | 0 <= j < |qs| ensures ws[j + 1] == ws[j] || AsksInScope(boot, qs[j]) {
        RunKeepsKeys(cfg, boot, ws, qs, j);
        StepScopeIff(cfg, boot, ws[j], qs[j], ws[j + 1]);
      }
    }
    if forall j | 0 <= j < |qs| :: ws[j + 1] == ws[j] || AsksInScope(boot, qs[j]) {
      forall i | 0 <= i < |ws| ensures UsersInScope(boot, ws[i].db.users) {
        StaysInScope(cfg, boot, ws, qs, i);
      }
    }
  }

  lemma DotAsksInScope(cfg: Config, boot: seq<UserRow>, w: World, q: Request, w': World)
    requires DotIsRoot(boot) && UsersInScope(boot, w.db.users) && Effect(cfg, w, q, w')
    ensures AsksInScope(boot, q)
  {
    hide InScope, UsersInScope, DotIsRoot, HasRoot, Caller, ModifyAllowed, ModifiedRow;
    if q.ModifyIdentity? && q.mod.affiliation == "." {
      ModifiedInScope(boot, w, q.token, q.id, q.mod);
      DotNeedsRoot(boot);
    }
  }

  /** No run leaves scope if some bootstrap identity is at the root, or none is at ".". */
  lemma {:induction false} RunKeepsScope(cfg: Config, boot: seq<UserRow>, ws: seq<World>, qs: seq<Request>, i: nat)
    requires Run(cfg, ws, qs) && Initial(ws[0], boot) && i < |ws| && DotIsRoot(boot)
    ensures UsersInScope(boot, ws[i].db.users)
  {
    hide Effect, UsersInScope, DotIsRoot, AsksInScope;
    if i == 0 {
      BootInScope(boot);
    } else {
      RunKeepsScope(cfg, boot, ws, qs, i - 1);
      RunKeepsKeys(cfg, boot, ws, qs, i - 1);
      if ws[i] != ws[i - 1] {
        DotAsksInScope(cfg, boot, ws[i - 1], qs[i - 1], ws[i]);
      }
      StepScopeIff(cfg, boot, ws[i - 1], qs[i - 1], ws[i]);
    }
  }

  // ----- a run that leaves scope

  /** The modification that asks for nothing but the root. */
  const TO_ROOT := Modification("", "", ".", [], 0)

  lemma ToRootAllowed(w: World, caller: UserRow, id: string)
    requires caller.affiliation == "." && id != "" && FindUser(w.db.users, id).Some?
    requires CanManageUser(caller, FindUser(w.db.users, id).value)
    ensures ModifyAllowed(w, caller, id, TO_ROOT)
  {
    hide CanManageUser, ContainsAffiliation;
    ContainsDotIff(caller);
  }

  /** The state after a first enrollment, from a database that has been loaded. */
  function Enrolled(w: World, id: string, s: Signing): World {
    var x := Signed(w, id, s);
    x.(db := x.db.(users := UpdateUsers(x.db.users, IdIs(id), IncrementState)))
  }

  lemma FirstEnrollment(cfg: Config, boot: seq<UserRow>, w: World, k: nat, password: string, s: Signing)
    requires Initial(w, boot) && k < |boot| && LoginAllowed(boot[k], password, cfg.maxEnrollments)
    requires s.csrCn == boot[k].name && s.subjectCn == None && !s.forCa && s.serial > 0
    ensures var id := boot[k].name;
            var w' := Enrolled(w, id, s);
            && Effect(cfg, w, Enroll(id, password, s), w')
            && Caller(w', Cert(id, s.serial, s.aki)) == Some(boot[k].(state := 1))
    ensures CanActOnType(boot[k].(state := 1), boot[k].kind) <==> CanActOnType(boot[k], boot[k].kind)
  {
    var id := boot[k].name;
    var w' := Enrolled(w, id, s);
    FoundIs(boot, k);
    assert w'.db.users[k] == boot[k].(state := 1);
    assert UniqueBy(w'.db.users, UserKey) by {
      SameKeys(boot, w'.db.users);
    }
    FoundIs(w'.db.users, k);
    assert w'.db.certs == [NewCertRow(id, s)];
    FirstIsAuthentic(w', id, s);
  }

  /** Whoever is at "." and manages its own type may go to the root. */
  lemma SelfToRoot(cfg: Config, boot: seq<UserRow>, w: World, token: Cert) returns (w': World)
    requires Caller(w, token).Some? && Caller(w, token).value.affiliation == "." && token.cn != ""
    requires CanActOnType(Caller(w, token).value, Caller(w, token).value.kind) && !HasRoot(boot)
    ensures Effect(cfg, w, ModifyIdentity(token, token.cn, TO_ROOT), w') && !UsersInScope(boot, w'.db.users)
  {
    var caller := Caller(w, token).value;
    var row := ModifiedRow(caller, TO_ROOT);
    assert row.affiliation == "" && FindUser(w.db.users, token.cn) == Some(caller) && CanManageUser(caller, caller);
    hide Caller, ModifyAllowed, ModifiedRow, UpdateUsers, UsersInScope, CanActOnType, CanManageUser, FindUser, HasRoot;
    w' := w.(db := w.db.(users := UpdateUsers(w.db.users, IdIs(token.cn), SetRow(row))));
    ToRootAllowed(w, caller, token.cn);
    RowAtRoot(boot, w.db.users, token.cn, row);
  }

  lemma RowAtRoot(boot: seq<UserRow>, users: seq<UserRow>, id: string, row: UserRow)
    requires FindUser(users, id).Some? && row.affiliation == "" && !HasRoot(boot)
    ensures !UsersInScope(boot, UpdateUsers(users, IdIs(id), SetRow(row)))
  {
    hide InScope, HasRoot;
    var k :| 0 <= k < |users| && users[k] == FindUser(users, id).value;
    assert UpdateUsers(users, IdIs(id), SetRow(row))[k] == row;
    RootInScopeIff(boot);
  }

  lemma TwoSteps(cfg: Config, w: World, q: Request, w': World, r: Request, w'': World)
    requires Effect(cfg, w, q, w') && Effect(cfg, w', r, w'')
    ensures Run(cfg, [w, w', w''], [q, r])
  {
    hide Effect;
    var ws, qs := [w, w', w''], [q, r];
    forall i | 0 <= i < |qs| ensures Step(cfg, ws[i], qs[i], ws[i + 1]) {
    }
  }

  lemma FoundIs(users: seq<UserRow>, k: nat)
    requires UniqueBy(users, UserKey) && k < |users|
    ensures FindUser(users, users[k].name) == Some(users[k])
  {
    FoundUnique(users, users[k].name);
  }

  lemma FirstIsAuthentic(w: World, id: string, s: Signing)
    requires s.serial > 0 && w.db.certs == [NewCertRow(id, s)] && Cert(id, s.serial, s.aki) in w.issued
    ensures Authentic(w, Cert(id, s.serial, s.aki))
  {
    var token, row := Cert(id, s.serial, s.aki), NewCertRow(id, s);
    ParseRender(s.serial, 10);
    SerialLookup(s.serial);
    AkiLookup(s.aki);
    assert TokenKey(token).Holds(row);
    KeepMember(w.db.certs, TokenKey(token).Holds, true, row);
    var rows := Select(w.db.certs, TokenKey(token).Holds);
    forall i | 0 <= i < |rows| ensures !rows[i].revoked {
      KeepMember(w.db.certs, TokenKey(token).Holds, true, rows[i]);
    }
  }

  /**
   Where no bootstrap identity is at the root, any of them that is at ".", may log in and manages its own
   type leaves scope with two requests from the start: it enrolls, and sends itself to the root.
  */
  lemma DotLeavesScope(cfg: Config, boot: seq<UserRow>, w: World, k: nat, password: string, serial: nat,
                       aki: seq<Byte>, expiry: int)
    returns (ws: seq<World>, qs: seq<Request>)
    requires Initial(w, boot) && !HasRoot(boot) && serial > 0
    requires k < |boot| && boot[k].affiliation == "." && boot[k].name != ""
    requires LoginAllowed(boot[k], password, cfg.maxEnrollments) && CanActOnType(boot[k], boot[k].kind)
    ensures Run(cfg, ws, qs) && |ws| == 3 && ws[0] == w
    ensures var id := boot[k].name;
            var s := Signing(id, None, false, serial, aki, expiry);
            qs == [Enroll(id, password, s), ModifyIdentity(Cert(id, serial, aki), id, TO_ROOT)]
    ensures !UsersInScope(boot, ws[2].db.users)
  {
    hide *;
    var id := boot[k].name;
    var s := Signing(id, None, false, serial, aki, expiry);
    var token := Cert(id, serial, aki);
    var w' := Enrolled(w, id, s);
    FirstEnrollment(cfg, boot, w, k, password, s);
    var w'' := SelfToRoot(cfg, boot, w', token);
    ws, qs := [w, w', w''], [Enroll(id, password, s), ModifyIdentity(token, id, TO_ROOT)];
    TwoSteps(cfg, w, qs[0], w', qs[1], w'');
  }
}
