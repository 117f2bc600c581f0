/**
 The attributes of identities over every run: the fixed ones say what the columns say, and the ones
 that carry authority never exceed what some bootstrap identity was given.
*/
module Identities {
  import opened Basics
  import opened Attributes
  import opened Tables
  import opened Delegation
  import opened Registry
  import opened Handlers
  import opened Safety

  /** The three fixed attributes of an identity say what its columns say. */
  predicate InSync(u: UserRow) {
    && AtMostOnce(u.attributes, ENROLLMENT_ID) && ValueOf(u.attributes, ENROLLMENT_ID) == u.name
    && AtMostOnce(u.attributes, TYPE) && ValueOf(u.attributes, TYPE) == u.kind
    && Tracked(u)
  }

  predicate RegisteredInSync(w: World) {
    forall i | 0 <= i < |w.db.users| && w.db.users[i].name in w.registered :: InSync(w.db.users[i])
  }

  /** All attributes of the bootstrap identities. */
  function Pool(boot: seq<UserRow>): seq<Attribute> {
    if boot == [] then [] else boot[0].attributes + Pool(boot[1..])
  }

  predicate UsersBounded(users: seq<UserRow>, pool: seq<Attribute>) {
    forall i | 0 <= i < |users| :: AllBounded(users[i].attributes, pool)
  }

  // ----- the fixed attributes

  lemma NoFixedRequested(rs: seq<Attribute>, user: Option<seq<Attribute>>, registrar: seq<Attribute>, name: string)
    requires CanRegisterRequested(rs, user, registrar) && KindOf(name) == Some(Fixed)
    ensures !HasName(rs, name) && Lookup(rs, name) == None
  {
    forall i | 0 <= i < |rs| ensures rs[i].name != name {
      GrantedIsHeld(rs[i], rs, user, registrar);
    }
  }

  /** One attribute appended to a list that may or may not have its name. */
  lemma Appended(l: seq<Attribute>, x: Attribute, name: string)
    ensures HasName(l + [x], name) <==> HasName(l, name) || x.name == name
    ensures ValueOf(l + [x], name) == if x.name == name then x.value else ValueOf(l, name)
    ensures AtMostOnce(l, name) && (HasName(l, name) ==> x.name != name) ==> AtMostOnce(l + [x], name)
    ensures !HasName(l, name) ==> AtMostOnce(l, name)
  {
    LookupAppend(l, x, name);
    HasNameLookup(l, name);
    HasNameLookup(l + [x], name);
  }

  lemma AppendThree(l: seq<Attribute>, a: Attribute, b: Attribute, c: Attribute, x: Attribute)
    requires !HasName(l, x.name) && x in [a, b, c]
    requires a.name != b.name && b.name != c.name && a.name != c.name
    ensures AtMostOnce(l + [a, b, c], x.name) && ValueOf(l + [a, b, c], x.name) == x.value
  {
    hide AtMostOnce, ValueOf, HasName;
    assert l + [a, b, c] == l + [a] + [b] + [c];
    Appended(l, a, x.name);
    Appended(l + [a], b, x.name);
    Appended(l + [a] + [b], c, x.name);
  }

  lemma RegisteredIsInSync(cfg: Config, caller: UserRow, r: Registration)
    requires CanRegisterRequested(r.attributes, None, caller.attributes)
    requires AllowedMax(r.maxEnrollments, cfg.maxEnrollments).Some?
    ensures InSync(RegisteredRow(cfg, r))
  {
    hide CanRegisterRequested, AtMostOnce, ValueOf, HasName;
    var l := r.attributes;
    var a, b, c := Attribute(ENROLLMENT_ID, r.name, true), Attribute(TYPE, r.kind, true),
                   Attribute(AFFILIATION, r.affiliation, true);
    NoFixedRequested(l, None, caller.attributes, ENROLLMENT_ID);
    NoFixedRequested(l, None, caller.attributes, TYPE);
    NoFixedRequested(l, None, caller.attributes, AFFILIATION);
    AppendThree(l, a, b, c, a);
    AppendThree(l, a, b, c, b);
    AppendThree(l, a, b, c, c);
  }

  /** What a modification asks for the fixed attributes: what it asks for the columns. */
  lemma ModificationValues(mod: Modification, user: seq<Attribute>, registrar: seq<Attribute>)
    requires CanRegisterRequested(mod.attributes, Some(user), registrar)
    ensures var rs := ModificationAttributes(mod);
            && !HasName(rs, ENROLLMENT_ID)
            && (HasName(rs, AFFILIATION) <==> mod.affiliation != "")
            && (mod.affiliation != "" ==>
                  ValueOf(rs, AFFILIATION) == if mod.affiliation == "." then "" else mod.affiliation)
            && (HasName(rs, TYPE) <==> mod.kind != "")
            && (mod.kind != "" ==> ValueOf(rs, TYPE) == mod.kind)
  {
    hide CanRegisterRequested, AtMostOnce, ValueOf, HasName;
    var l := mod.attributes;
    NoFixedRequested(l, Some(user), registrar, ENROLLMENT_ID);
    NoFixedRequested(l, Some(user), registrar, TYPE);
    NoFixedRequested(l, Some(user), registrar, AFFILIATION);
    var x := Attribute(AFFILIATION, if mod.affiliation == "." then "" else mod.affiliation, true);
    var k := Attribute(TYPE, mod.kind, true);
    var l' := if mod.affiliation == "" then l else l + [x];
    assert ModificationAttributes(mod) == if mod.kind == "" then l' else l' + [k];
    Appended(l, x, ENROLLMENT_ID);
    Appended(l, x, TYPE);
    Appended(l, x, AFFILIATION);
    Appended(l', k, ENROLLMENT_ID);
    Appended(l', k, TYPE);
    Appended(l', k, AFFILIATION);
  }

  lemma ModifiedIsInSync(user: UserRow, mod: Modification, registrar: seq<Attribute>)
    requires InSync(user) && CanRegisterRequested(mod.attributes, Some(user.attributes), registrar)
    ensures InSync(ModifiedRow(user, mod))
  {
    var rs := ModificationAttributes(mod);
    ModificationValues(mod, user.attributes, registrar);
    ValueAfter(user.attributes, rs, ENROLLMENT_ID);
    ValueAfter(user.attributes, rs, TYPE);
    ValueAfter(user.attributes, rs, AFFILIATION);
  }

  /** The row of an identity after a request that neither registers nor modifies identities. */
  ghost predicate Follows(u: UserRow, v: UserRow) {
    Carried(u.(state := v.state), v)
  }

  ghost predicate FollowsOne(users: seq<UserRow>, v: UserRow) {
    exists i | 0 <= i < |users| :: Follows(users[i], v)
  }

  ghost predicate UsersFollow(users: seq<UserRow>, users': seq<UserRow>) {
    forall j | 0 <= j < |users'| :: FollowsOne(users, users'[j])
  }

  lemma FollowsSame(users: seq<UserRow>, i: nat, v: UserRow)
    requires i < |users| && v == users[i].(state := v.state)
    ensures FollowsOne(users, v)
  {
    assert Follows(users[i], v);
  }

  lemma KeepFollows(users: seq<UserRow>, p: UserRow -> bool)
    ensures UsersFollow(users, Delete(users, p))
  {
    var rest := Delete(users, p);
    forall j | 0 <= j < |rest| ensures FollowsOne(users, rest[j]) {
      KeepMember(users, p, false, rest[j]);
      var i :| 0 <= i < |users| && users[i] == rest[j];
      FollowsSame(users, i, rest[j]);
    }
  }

  lemma StateFollows(users: seq<UserRow>, users': seq<UserRow>)
    requires |users'| == |users| && forall i | 0 <= i < |users| :: users'[i] == users[i].(state := users'[i].state)
    ensures UsersFollow(users, users')
  {
    forall j | 0 <= j < |users'| ensures FollowsOne(users, users'[j]) {
      FollowsSame(users, j, users'[j]);
    }
  }

  lemma CarriedFollows(users: seq<UserRow>, users': seq<UserRow>, to: string)
    requires CarriedAll(users, users', to)
    ensures UsersFollow(users, users')
  {
    forall j | 0 <= j < |users'| ensures FollowsOne(users, users'[j]) {
      assert Carried(users[j], users'[j]);
      assert users[j].(state := users'[j].state) == users[j];
      assert Follows(users[j], users'[j]);
    }
  }

  lemma OtherStepsFollow(cfg: Config, w: World, q: Request, w': World)
    requires UniqueBy(w.db.users, UserKey) && Effect(cfg, w, q, w') && !q.Register? && !q.ModifyIdentity?
    ensures UsersFollow(w.db.users, w'.db.users) && w'.registered == w.registered
  {
    hide UsersFollow, UniqueBy, Renamed, SigningAllowed, LoginAllowed, RevokeCertAllowed, RevokeIdAllowed, Caller,
         AddAllowed, RemoveAllowed, RenameAllowed, RemoveIdAllowed, RenameError, AffAdded, NewCertRow;
    if q.RemoveAffiliation? {
      KeepFollows(w.db.users, IdIn(UserNames(UsersUnder(w.db, q.name))).Holds);
    } else if q.RemoveIdentity? {
      KeepFollows(w.db.users, IdIn([q.id]).Holds);
    } else if q.RenameAffiliation? {
      CarriedFollows(w.db.users, w'.db.users, q.newName);
    } else {
      StateFollows(w.db.users, w'.db.users);
    }
  }

  lemma FollowsInSync(u: UserRow, v: UserRow)
    requires Follows(u, v) && InSync(u)
    ensures InSync(v)
  {
  }

  lemma StepKeepsSync(cfg: Config, w: World, q: Request, w': World)
    requires UniqueBy(w.db.users, UserKey) && RegisteredInSync(w) && Step(cfg, w, q, w')
    ensures RegisteredInSync(w')
  {
    if w' == w {
    } else if q.Register? {
      RegisterKeepsSync(cfg, w, q, w');
    } else if q.ModifyIdentity? {
      ModifyKeepsSync(cfg, w, q, w');
    } else {
      OtherStepsFollow(cfg, w, q, w');
      forall j | 0 <= j < |w'.db.users| && w'.db.users[j].name in w'.registered ensures InSync(w'.db.users[j]) {
        assert FollowsOne(w.db.users, w'.db.users[j]);
        var i :| 0 <= i < |w.db.users| && Follows(w.db.users[i], w'.db.users[j]);
        FollowsInSync(w.db.users[i], w'.db.users[j]);
      }
    }
  }

  lemma RegisterKeepsSync(cfg: Config, w: World, q: Request, w': World)
    requires RegisteredInSync(w) && q.Register? && Effect(cfg, w, q, w')
    ensures RegisteredInSync(w')
  {
    var caller := Caller(w, q.token).value;
    RegisteredIsInSync(cfg, caller, Normalized(q.reg, caller));
  }

  /** What a modification does, without what it checked on the way. */
  lemma ModifyFacts(cfg: Config, w: World, q: Request, w': World)
    requires q.ModifyIdentity? && Effect(cfg, w, q, w')
    ensures Caller(w, q.token).Some? && FindUser(w.db.users, q.id).Some?
    ensures var user := FindUser(w.db.users, q.id).value;
            && IsRegistrar(Caller(w, q.token).value)
            && CanRegisterRequested(q.mod.attributes, Some(user.attributes), Caller(w, q.token).value.attributes)
            && w'.db.users == UpdateUsers(w.db.users, IdIs(q.id), SetRow(ModifiedRow(user, q.mod)))
            && w'.registered == w.registered
  {
  }

  lemma ModifyKeepsSync(cfg: Config, w: World, q: Request, w': World)
    requires UniqueBy(w.db.users, UserKey) && RegisteredInSync(w) && q.ModifyIdentity? && Effect(cfg, w, q, w')
    ensures RegisteredInSync(w')
  {
    ModifyFacts(cfg, w, q, w');
    var user := FindUser(w.db.users, q.id).value;
    if InSync(user) {
      ModifiedIsInSync(user, q.mod, Caller(w, q.token).value.attributes);
    }
    ReplaceKeepsSync(w.db.users, w.registered, q.id, ModifiedRow(user, q.mod));
  }

  lemma ReplaceKeepsSync(users: seq<UserRow>, registered: set<string>, id: string, row: UserRow)
    requires UniqueBy(users, UserKey) && FindUser(users, id).Some? && row.name == id
    requires InSync(FindUser(users, id).value) ==> InSync(row)
    requires forall i | 0 <= i < |users| && users[i].name in registered :: InSync(users[i])
    ensures var users' := UpdateUsers(users, IdIs(id), SetRow(row));
            forall i | 0 <= i < |users'| && users'[i].name in registered :: InSync(users'[i])
  {
    FoundUnique(users, id);
  }

  /** In every reachable state the fixed attributes of registered identities equal their columns. */
  lemma {:induction false} RunKeepsSync(cfg: Config, boot: seq<UserRow>, ws: seq<World>, qs: seq<Request>, i: nat)
    requires Run(cfg, ws, qs) && Initial(ws[0], boot) && i < |ws|
    ensures RegisteredInSync(ws[i])
  {
    hide Step, Initial, RegisteredInSync, UniqueBy;
    if i > 0 {
      var j := i - 1;
      RunKeepsSync(cfg, boot, ws, qs, j);
      RunKeepsKeys(cfg, boot, ws, qs, j);
      assert Step(cfg, ws[j], qs[j], ws[j + 1]);
      StepKeepsSync(cfg, ws[j], qs[j], ws[j + 1]);
    } else {
      InitialSync(ws[0], boot);
    }
  }

  lemma InitialSync(w: World, boot: seq<UserRow>)
    requires Initial(w, boot)
    ensures RegisteredInSync(w)
  {
  }

  // ----- delegation

  lemma {:induction false} PoolMember(boot: seq<UserRow>, a: Attribute) returns (k: nat)
    requires a in Pool(boot)
    ensures k < |boot| && a in boot[k].attributes
  {
    if a in boot[0].attributes {
      k := 0;
    } else {
      k := PoolMember(boot[1..], a);
      k := k + 1;
    }
  }

  lemma {:induction false} PoolHas(boot: seq<UserRow>, k: nat, a: Attribute)
    requires k < |boot| && a in boot[k].attributes
    ensures a in Pool(boot)
  {
    if k == 0 {
    } else {
      PoolHas(boot[1..], k - 1, a);
    }
  }

  lemma BootIsBounded(boot: seq<UserRow>)
    ensures UsersBounded(boot, Pool(boot))
  {
    forall k, i | 0 <= k < |boot| && 0 <= i < |boot[k].attributes| ensures Bounded(boot[k].attributes[i], Pool(boot)) {
      var a := boot[k].attributes[i];
      PoolHas(boot, k, a);
      var j :| 0 <= j < |Pool(boot)| && Pool(boot)[j] == a;
      NoStrongerReflexive(a);
    }
  }

  lemma RequestedAreBounded(rs: seq<Attribute>, user: Option<seq<Attribute>>, registrar: seq<Attribute>,
                            pool: seq<Attribute>)
    requires CanRegisterRequested(rs, user, registrar) && ValueOf(registrar, ROLES) != "" && AllBounded(registrar, pool)
    ensures AllBounded(rs, pool)
  {
    forall i | 0 <= i < |rs| ensures Bounded(rs[i], pool) {
      GrantIsBounded(rs[i], rs, user, registrar, pool);
    }
  }

  lemma FixedIsBounded(a: Attribute, pool: seq<Attribute>)
    requires KindOf(a.name) == Some(Fixed)
    ensures Bounded(a, pool)
  {
  }

  lemma RegisteredIsBounded(cfg: Config, r: Registration, pool: seq<Attribute>)
    requires AllowedMax(r.maxEnrollments, cfg.maxEnrollments).Some? && AllBounded(r.attributes, pool)
    ensures AllBounded(RegisteredRow(cfg, r).attributes, pool)
  {
  }

  lemma ModifiedIsBounded(user: UserRow, mod: Modification, pool: seq<Attribute>)
    requires AllBounded(user.attributes, pool) && AllBounded(mod.attributes, pool)
    ensures AllBounded(ModifiedRow(user, mod).attributes, pool)
  {
    var rs := ModificationAttributes(mod);
    var l := NewAttributes(user.attributes, rs);
    forall i | 0 <= i < |l| ensures Bounded(l[i], pool) {
      NewAttributesOrigin(user.attributes, rs, l[i]);
      if l[i] in user.attributes {
        var k :| 0 <= k < |user.attributes| && user.attributes[k] == l[i];
      } else {
        var k :| 0 <= k < |rs| && rs[k] == l[i];
        if k < |mod.attributes| {
          assert rs[k] == mod.attributes[k];
        } else {
          FixedIsBounded(rs[k], pool);
        }
      }
    }
  }

  lemma FollowsIsBounded(u: UserRow, v: UserRow, pool: seq<Attribute>)
    requires Follows(u, v) && AllBounded(u.attributes, pool)
    ensures AllBounded(v.attributes, pool)
  {
    forall k | 0 <= k < |v.attributes| ensures Bounded(v.attributes[k], pool) {
      if v.attributes[k] in u.attributes {
        var i :| 0 <= i < |u.attributes| && u.attributes[i] == v.attributes[k];
      } else {
        FixedIsBounded(v.attributes[k], pool);
      }
    }
  }

  lemma FoundIsBounded(users: seq<UserRow>, id: string, pool: seq<Attribute>)
    requires UsersBounded(users, pool) && FindUser(users, id).Some?
    ensures AllBounded(FindUser(users, id).value.attributes, pool)
  {
    var k :| 0 <= k < |users| && users[k] == FindUser(users, id).value;
  }

  lemma RegisterFacts(cfg: Config, w: World, q: Request, w': World)
    requires q.Register? && Effect(cfg, w, q, w')
    ensures Caller(w, q.token).Some?
    ensures var caller := Caller(w, q.token).value;
            && IsRegistrar(caller)
            && CanRegisterRequested(q.reg.attributes, None, caller.attributes)
            && AllowedMax(q.reg.maxEnrollments, cfg.maxEnrollments).Some?
            && w'.db.users == w.db.users + [RegisteredRow(cfg, Normalized(q.reg, caller))]
  {
  }

  lemma RegisterKeepsBounded(cfg: Config, w: World, q: Request, w': World, pool: seq<Attribute>)
    requires UsersBounded(w.db.users, pool) && q.Register? && Effect(cfg, w, q, w')
    ensures UsersBounded(w'.db.users, pool)
  {
    RegisterFacts(cfg, w, q, w');
    var caller := Caller(w, q.token).value;
    FoundIsBounded(w.db.users, q.token.cn, pool);
    RequestedAreBounded(q.reg.attributes, None, caller.attributes, pool);
    RegisteredIsBounded(cfg, Normalized(q.reg, caller), pool);
  }

  lemma ModifyKeepsBounded(cfg: Config, w: World, q: Request, w': World, pool: seq<Attribute>)
    requires UsersBounded(w.db.users, pool) && q.ModifyIdentity? && Effect(cfg, w, q, w')
    ensures UsersBounded(w'.db.users, pool)
  {
    ModifyFacts(cfg, w, q, w');
    var user := FindUser(w.db.users, q.id).value;
    FoundIsBounded(w.db.users, q.token.cn, pool);
    FoundIsBounded(w.db.users, q.id, pool);
    RequestedAreBounded(q.mod.attributes, Some(user.attributes), Caller(w, q.token).value.attributes, pool);
    ModifiedIsBounded(user, q.mod, pool);
    ReplaceKeepsBounded(w.db.users, q.id, ModifiedRow(user, q.mod), pool);
  }

  lemma ReplaceKeepsBounded(users: seq<UserRow>, id: string, row: UserRow, pool: seq<Attribute>)
    requires UsersBounded(users, pool) && AllBounded(row.attributes, pool)
    ensures UsersBounded(UpdateUsers(users, IdIs(id), SetRow(row)), pool)
  {
  }

  lemma FollowersAreBounded(users: seq<UserRow>, users': seq<UserRow>, pool: seq<Attribute>)
    requires UsersFollow(users, users') && UsersBounded(users, pool)
    ensures UsersBounded(users', pool)
  {
    forall j | 0 <= j < |users'| ensures AllBounded(users'[j].attributes, pool) {
      assert FollowsOne(users, users'[j]);
      var i :| 0 <= i < |users| && Follows(users[i], users'[j]);
      FollowsIsBounded(users[i], users'[j], pool);
    }
  }

  lemma StepKeepsBounded(cfg: Config, w: World, q: Request, w': World, pool: seq<Attribute>)
    requires UniqueBy(w.db.users, UserKey) && UsersBounded(w.db.users, pool) && Step(cfg, w, q, w')
    ensures UsersBounded(w'.db.users, pool)
  {
    if w' == w {
    } else if q.Register? {
      RegisterKeepsBounded(cfg, w, q, w', pool);
    } else if q.ModifyIdentity? {
      ModifyKeepsBounded(cfg, w, q, w', pool);
    } else {
      OtherStepsFollow(cfg, w, q, w');
      FollowersAreBounded(w.db.users, w'.db.users, pool);
    }
  }

  lemma RunKeepsKeys(cfg: Config, boot: seq<UserRow>, ws: seq<World>, qs: seq<Request>, i: nat)
    requires Run(cfg, ws, qs) && Initial(ws[0], boot) && i < |ws|
    ensures UniqueBy(ws[i].db.users, UserKey)
  {
    RunKeepsCerts(cfg, boot, ws, qs, i);
  }

  lemma {:induction false} RunKeepsBounded(cfg: Config, boot: seq<UserRow>, ws: seq<World>, qs: seq<Request>, i: nat)
    requires Run(cfg, ws, qs) && Initial(ws[0], boot) && i < |ws|
    ensures UsersBounded(ws[i].db.users, Pool(boot))
  {
    hide Step, UsersBounded;
    if i == 0 {
      BootIsBounded(boot);
    } else {
      RunKeepsBounded(cfg, boot, ws, qs, i - 1);
      RunKeepsKeys(cfg, boot, ws, qs, i - 1);
      StepKeepsBounded(cfg, ws[i - 1], qs[i - 1], ws[i], Pool(boot));
    }
  }

  /**
   In every reachable state, an attribute that gives authority is matched by one attribute of one
   bootstrap identity: a true boolean by a true boolean, a list by a list that covers it.
  */
  lemma AuthorityComesFromBootstrap(cfg: Config, boot: seq<UserRow>, ws: seq<World>, qs: seq<Request>, i: nat,
                                    u: UserRow, a: Attribute) returns (k: nat, b: Attribute)
    requires Run(cfg, ws, qs) && Initial(ws[0], boot) && i < |ws|
    requires u in ws[i].db.users && a in u.attributes && !Powerless(a)
    ensures k < |boot| && b in boot[k].attributes && NoStronger(a, b)
  {
    RunKeepsBounded(cfg, boot, ws, qs, i);
    var j :| 0 <= j < |ws[i].db.users| && ws[i].db.users[j] == u;
    var m :| 0 <= m < |u.attributes| && u.attributes[m] == a;
    assert Bounded(u.attributes[m], Pool(boot));
    var n :| 0 <= n < |Pool(boot)| && NoStronger(a, Pool(boot)[n]);
    b := Pool(boot)[n];
    k := PoolMember(boot, b);
  }

  /** Whoever is taken for a registrar has roles within those of one bootstrap identity, not empty either. */
  lemma RegistrarComesFromBootstrap(cfg: Config, boot: seq<UserRow>, ws: seq<World>, qs: seq<Request>, i: nat,
                                    u: UserRow)
    returns (k: nat, b: Attribute)
    requires Run(cfg, ws, qs) && Initial(ws[0], boot) && i < |ws|
    requires u in ws[i].db.users && IsRegistrar(u)
    ensures k < |boot| && b in boot[k].attributes
    ensures b.name == ROLES && b.value != "" && IsSubsetOf(ValueOf(u.attributes, ROLES), b.value)
  {
    hide Initial, Run, IsSubsetOf;
    var a := Lookup(u.attributes, ROLES).value;
    k, b := AuthorityComesFromBootstrap(cfg, boot, ws, qs, i, u, a);
  }
}
