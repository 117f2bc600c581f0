/**
 What a request leaves behind, told from the rows before and after it, and which certificates stop being
 good by it.
*/
module Effects {
  import opened Basics
  import opened Strings
  import opened Paths
  import opened Attributes
  import opened Tables
  import opened Delegation
  import opened Grants
  import opened Serials
  import opened Registry
  import opened AffiliationTable
  import opened Handlers
  import opened Safety
  import opened Authority

  // ----- affiliations

  /** The name comes to the table, with force also whatever is missing above it; nothing else. */
  lemma AddMeans(cfg: Config, w: World, q: Request, w': World)
    requires q.AddAffiliation? && Effect(cfg, w, q, w')
    ensures w' == w.(db := w.db.(affs := w'.db.affs)) && w.db.affs <= w'.db.affs
    ensures forall n :: HasAff(w'.db.affs, n) <==>
                        HasAff(w.db.affs, n) || n == q.name || (q.force && n + "." <= q.name)
    ensures forall i | |w.db.affs| <= i < |w'.db.affs| ::
              w'.db.affs[i].prekey == Parent(w'.db.affs[i].name) && w'.db.affs[i].level == cfg.affiliationLevel
    ensures UniqueBy(w.db.affs, AffKey) ==> UniqueBy(w'.db.affs, AffKey)
  {
    hide HasAff, UniqueBy, AddAllowed, Caller, WithAncestors, InsertAff;
    AncestorsAdded(w.db.affs, q.name, cfg.affiliationLevel);
    Inserted(w.db.affs, q.name, Parent(q.name), cfg.affiliationLevel);
  }

  lemma Inserted(affs: seq<AffRow>, name: string, prekey: string, level: int)
    ensures var after := InsertAff(affs, name, prekey, level);
            && affs <= after
            && (forall n :: HasAff(after, n) <==> HasAff(affs, n) || n == name)
            && (forall i | |affs| <= i < |after| :: after[i] == AffRow(name, prekey, level))
            && (UniqueBy(affs, AffKey) ==> UniqueBy(after, AffKey))
  {
    forall n ensures HasAff(InsertAff(affs, name, prekey, level), n) <==> HasAff(affs, n) || n == name {
      HasInsert(affs, name, prekey, level, n);
    }
  }

  lemma {:induction false} AncestorsAdded(affs: seq<AffRow>, name: string, level: int)
    ensures var after := WithAncestors(affs, name, level);
            && affs <= after
            && (forall n :: HasAff(after, n) <==> HasAff(affs, n) || n == name || n + "." <= name)
            && (forall i | |affs| <= i < |after| :: after[i].prekey == Parent(after[i].name) && after[i].level == level)
            && (UniqueBy(affs, AffKey) ==> UniqueBy(after, AffKey))
    decreases |name|
  {
    hide HasAff, UniqueBy, InsertAff;
    var base := if Nested(name) then WithAncestors(affs, Parent(name), level) else affs;
    if Nested(name) {
      AncestorsAdded(affs, Parent(name), level);
    }
    Inserted(base, name, Parent(name), level);
    forall n ensures HasAff(WithAncestors(affs, name, level), n) <==> HasAff(affs, n) || n == name || n + "." <= name {
      AncestorsOf(n, name);
      assert HasAff(base, n) <==> HasAff(affs, n) || (Nested(name) && AtOrBelow(n, Parent(name)));
    }
  }

  /** Exactly the subtree and its users go; without force that is one row of a table that stays as it is. */
  lemma RemoveMeans(cfg: Config, w: World, q: Request, w': World)
    requires CertsOk(w) && UniqueBy(w.db.affs, AffKey) && q.RemoveAffiliation? && Effect(cfg, w, q, w')
    ensures w' == w.(db := w'.db)
    ensures forall r :: r in w'.db.affs <==> r in w.db.affs && !AtOrBelow(q.name, r.name)
    ensures forall v :: v in w'.db.users <==> v in w.db.users && !AtOrBelow(q.name, v.affiliation)
    ensures !q.force ==>
              && w'.db.users == w.db.users && w'.db.certs == w.db.certs
              && exists k | 0 <= k < |w.db.affs| ::
                   w.db.affs[k].name == q.name && w'.db.affs == w.db.affs[..k] + w.db.affs[k + 1..]
    ensures w'.db.users != w.db.users || w'.db.certs != w.db.certs ==>
              q.force && cfg.removeIdentities && exists u :: CallerIs(w, q.token, u) && Registers(u)
  {
    var u := Caller(w, q.token).value;
    CallerIff(w, q.token, u);
    RegistersIff(u);
    assert UniqueBy(w.db.users, UserKey);
    hide CertsOk, Caller, CallerIs, Registers, IsRegistrar, HasRole, HasRoles, ContainsAffiliation, UniqueBy,
         DeleteError, DeletedTables, AtOrBelow, HasAff, UserAtOrBelow, RowBelow;
    DeletedMembers(w.db, q.name, q.now);
    DeleteErrorIff(w.db, q.name, q.force, cfg.removeIdentities, IsRegistrar(u));
    if !UserAtOrBelow(w.db.users, q.name) {
      NobodyRemoved(w.db, q.name, q.now);
    }
    if !q.force {
      var k := DeleteAlone(w.db, q.name, q.now);
    }
  }

  lemma NobodyRemoved(t: Tables, name: string, now: int)
    requires !UserAtOrBelow(t.users, name)
    ensures DeletedTables(t, name, now) == t.(affs := DeletedTables(t, name, now).affs)
  {
    UsersUnderSome(t, name);
    RemoveNobody(t, AFFILIATION_CHANGED, now);
    assert UserNames([]) == [];
  }

  lemma StepKeepsNames(cfg: Config, w: World, q: Request, w': World)
    requires UniqueBy(w.db.affs, AffKey) && Step(cfg, w, q, w')
    ensures UniqueBy(w'.db.affs, AffKey)
  {
    hide UniqueBy, Caller, AddAllowed, RemoveAllowed, RenameAllowed, RegisterAllowed, ModifyAllowed, RemoveIdAllowed,
         RevokeCertAllowed, RevokeIdAllowed, AttributeIsTrue, SigningAllowed, LoginAllowed, Authentic, ModifiedRow,
         CarriedAll, Renamed, AffAdded;
    if w' == w {
    } else if q.AddAffiliation? {
      AddMeans(cfg, w, q, w');
    } else if q.RemoveAffiliation? {
      KeepUnique(w.db.affs, AffKey, NameAtOrBelow(q.name).Holds, false);
    }
  }

  lemma {:induction false} RunKeepsNames(cfg: Config, ws: seq<World>, qs: seq<Request>, i: nat)
    requires Run(cfg, ws, qs) && UniqueBy(ws[0].db.affs, AffKey) && i < |ws|
    ensures UniqueBy(ws[i].db.affs, AffKey)
  {
    hide Step, UniqueBy;
    if i > 0 {
      RunKeepsNames(cfg, ws, qs, i - 1);
      assert Step(cfg, ws[i - 1], qs[i - 1], ws[i]);
      StepKeepsNames(cfg, ws[i - 1], qs[i - 1], ws[i]);
    }
  }

  /**
   In any run from a table of unique names, a removal with an effect and without force takes the one row of the
   name and nothing else; one that takes an identity or ends a certificate has force, an enabled server and a
   registrar for its caller.
  */
  lemma RunRemoves(cfg: Config, boot: seq<UserRow>, ws: seq<World>, qs: seq<Request>, i: nat)
    requires Run(cfg, ws, qs) && Initial(ws[0], boot) && UniqueBy(ws[0].db.affs, AffKey)
    requires i < |qs| && qs[i].RemoveAffiliation? && ws[i + 1] != ws[i]
    ensures var w, q, w' := ws[i], qs[i], ws[i + 1];
            && w' == w.(db := w'.db)
            && (!q.force ==>
                  && w'.db.users == w.db.users && w'.db.certs == w.db.certs
                  && exists k | 0 <= k < |w.db.affs| ::
                       w.db.affs[k].name == q.name && w'.db.affs == w.db.affs[..k] + w.db.affs[k + 1..])
            && (w'.db.users != w.db.users || w'.db.certs != w.db.certs ==>
                  q.force && cfg.removeIdentities && exists u :: CallerIs(w, q.token, u) && Registers(u))
  {
    assert Step(cfg, ws[i], qs[i], ws[i + 1]);
    hide UniqueBy, CertsOk, Initial, Effect, CallerIs, Registers, Run;
    RunKeepsNames(cfg, ws, qs, i);
    RunKeepsCerts(cfg, boot, ws, qs, i);
    RemoveMeans(cfg, ws[i], qs[i], ws[i + 1]);
  }

  // ----- identities

  /** One row, with everything as requested, the defaults filled in, and the three fixed attributes. */
  lemma RegisterMeans(cfg: Config, w: World, q: Request, w': World)
    requires q.Register? && Effect(cfg, w, q, w')
    ensures Caller(w, q.token).Some?
    ensures w' == w.(db := w.db.(users := w'.db.users), registered := w.registered + {q.reg.name})
    ensures var reg := q.reg;
            var kind := SettledKind(reg, Caller(w, q.token).value);
            var affiliation := SettledAffiliation(reg, Caller(w, q.token).value);
            w'.db.users == w.db.users +
              [UserRow(reg.name, Hashed(if reg.secret == "" then reg.random else reg.secret), kind, affiliation,
                       reg.attributes + [Attribute("hf.EnrollmentID", reg.name, true), Attribute("hf.Type", kind, true),
                                         Attribute("hf.Affiliation", affiliation, true)],
                       0, if reg.maxEnrollments == 0 then cfg.maxEnrollments else reg.maxEnrollments,
                       cfg.identityLevel)]
  {
    hide Caller, CanActOnType, ContainsAffiliation, CanRegisterRequested, HasUser, ValidAffiliation, AllowedMax;
    AllowedMaxIff(q.reg.maxEnrollments, cfg.maxEnrollments);
  }

  /** The last entry with the name, if there is one. */
  predicate EntryIs(l: seq<Attribute>, name: string, e: Option<Attribute>) {
    match e
    case None => !HasName(l, name)
    case Some(a) => a.name == name && exists i | 0 <= i < |l| :: l[i] == a && forall j | i < j < |l| :: l[j].name != name
  }

  lemma EntryIsIff(l: seq<Attribute>, name: string, e: Option<Attribute>)
    ensures EntryIs(l, name, e) <==> Lookup(l, name) == e
  {
    HasNameLookup(l, name);
    var i := FindLast(l, name);
    if i >= 0 {
      assert l[i].name == name;
    }
  }

  /** The entry a name has after the modification of an identity that has it once at most. */
  ghost predicate EntryModified(mod: Modification, before: seq<Attribute>, after: seq<Attribute>, name: string) {
    && AtMostOnce(after, name)
    && if name == "hf.Affiliation" && mod.affiliation == "." then EntryIs(after, name, None)
       else if name == "hf.Affiliation" && mod.affiliation != "" then
         EntryIs(after, name, Some(Attribute(name, mod.affiliation, true)))
       else if name == "hf.Type" && mod.kind != "" then EntryIs(after, name, Some(Attribute(name, mod.kind, true)))
       else forall asked, held | EntryIs(mod.attributes, name, asked) && EntryIs(before, name, held) ::
              EntryIs(after, name, if asked == None then held else if asked.value.value == "" then None else asked)
  }

  /** The row of an identity after a modification: exactly what is asked for has changed. */
  ghost predicate RowModified(mod: Modification, u: UserRow, v: UserRow) {
    && v.name == u.name && v.state == u.state && v.level == u.level
    && v.pass == (if mod.secret == "" then u.pass else Hashed(mod.secret))
    && v.kind == (if mod.kind == "" then u.kind else mod.kind)
    && v.affiliation == (if mod.affiliation == "" then u.affiliation
                         else if mod.affiliation == "." then "" else mod.affiliation)
    && v.maxEnrollments == (if mod.maxEnrollments == 0 then u.maxEnrollments
                            else if mod.maxEnrollments == -2 then 0 else mod.maxEnrollments)
    && forall name | AtMostOnce(u.attributes, name) :: EntryModified(mod, u.attributes, v.attributes, name)
  }

  lemma RowIsModified(user: UserRow, mod: Modification, registrar: seq<Attribute>)
    requires CanRegisterRequested(mod.attributes, Some(user.attributes), registrar)
    ensures RowModified(mod, user, ModifiedRow(user, mod))
  {
    hide CanRegisterRequested, EntryModified, AtMostOnce, NewAttributes, ModificationAttributes;
    forall name | AtMostOnce(user.attributes, name)
      ensures EntryModified(mod, user.attributes, ModifiedRow(user, mod).attributes, name)
    {
      EntryIsModified(user, mod, registrar, name);
    }
  }

  /** The row of the identity alone changes. */
  lemma ModifyMeans(cfg: Config, w: World, q: Request, w': World)
    requires CertsOk(w) && q.ModifyIdentity? && Effect(cfg, w, q, w')
    ensures w' == w.(db := w.db.(users := w'.db.users)) && |w'.db.users| == |w.db.users|
    ensures HasUser(w.db.users, q.id)
    ensures forall i | 0 <= i < |w.db.users| ::
              if w.db.users[i].name == q.id then RowModified(q.mod, w.db.users[i], w'.db.users[i])
              else w'.db.users[i] == w.db.users[i]
  {
    var user, registrar := ModificationIs(cfg, w, q, w');
    assert UniqueBy(w.db.users, UserKey);
    hide *;
    RowIsModified(user, q.mod, registrar);
    RowReplaced(w.db.users, q.id, user, ModifiedRow(user, q.mod));
  }

  lemma RowReplaced(users: seq<UserRow>, id: string, user: UserRow, row: UserRow)
    requires UniqueBy(users, UserKey) && FindUser(users, id) == Some(user)
    ensures HasUser(users, id)
    ensures forall i | 0 <= i < |users| ::
              && (users[i].name == id ==> users[i] == user)
              && UpdateUsers(users, IdIs(id), SetRow(row))[i] == if users[i].name == id then row else users[i]
  {
    FoundUnique(users, id);
  }

  lemma ModificationIs(cfg: Config, w: World, q: Request, w': World) returns (user: UserRow, registrar: seq<Attribute>)
    requires q.ModifyIdentity? && Effect(cfg, w, q, w')
    ensures FindUser(w.db.users, q.id) == Some(user)
    ensures CanRegisterRequested(q.mod.attributes, Some(user.attributes), registrar)
    ensures w' == w.(db := w.db.(users := UpdateUsers(w.db.users, IdIs(q.id), SetRow(ModifiedRow(user, q.mod)))))
  {
    hide Caller, CanManageUser, CanActOnType, ContainsAffiliation, CanRegisterRequested, ModifiedRow;
    user := FindUser(w.db.users, q.id).value;
    registrar := Caller(w, q.token).value.attributes;
  }

  lemma EntryIsModified(user: UserRow, mod: Modification, registrar: seq<Attribute>, name: string)
    requires CanRegisterRequested(mod.attributes, Some(user.attributes), registrar) && AtMostOnce(user.attributes, name)
    ensures EntryModified(mod, user.attributes, ModifiedRow(user, mod).attributes, name)
  {
    hide CanRegisterRequested, AtMostOnce, Lookup, HasName, NewAttributes, EntryIs;
    var rs, after := ModificationAttributes(mod), ModifiedRow(user, mod).attributes;
    EntryAfter(user.attributes, rs, name);
    RequestedEntry(mod, name);
    forall e
      ensures EntryIs(after, name, e) <==> Lookup(after, name) == e
      ensures EntryIs(mod.attributes, name, e) <==> Lookup(mod.attributes, name) == e
      ensures EntryIs(user.attributes, name, e) <==> Lookup(user.attributes, name) == e
    {
      EntryIsIff(after, name, e);
      EntryIsIff(mod.attributes, name, e);
      EntryIsIff(user.attributes, name, e);
    }
  }

  /** The entry asked for: the columns come after the attributes of the request. */
  lemma RequestedEntry(mod: Modification, name: string)
    ensures Lookup(ModificationAttributes(mod), name) ==
            if name == "hf.Affiliation" && mod.affiliation != "" then
              Some(Attribute(name, if mod.affiliation == "." then "" else mod.affiliation, true))
            else if name == "hf.Type" && mod.kind != "" then Some(Attribute(name, mod.kind, true))
            else Lookup(mod.attributes, name)
  {
    hide Lookup;
    var l := mod.attributes;
    var x := Attribute(AFFILIATION, if mod.affiliation == "." then "" else mod.affiliation, true);
    var k := Attribute(TYPE, mod.kind, true);
    var l' := if mod.affiliation == "" then l else l + [x];
    assert ModificationAttributes(mod) == if mod.kind == "" then l' else l' + [k];
    LookupAppend(l, x, name);
    LookupAppend(l', k, name);
  }

  /** Rows of certificates after those of some identity were revoked. */
  predicate RevokedFor(before: seq<CertRow>, after: seq<CertRow>, id: string, reason: int, now: int) {
    && |after| == |before|
    && forall i | 0 <= i < |before| ::
         after[i] == if before[i].id == id && !before[i].revoked
                     then before[i].(revoked := true, reason := reason, revokedAt := now) else before[i]
  }

  /** The row of the identity goes, and its certificates are revoked (cessationOfOperation). */
  lemma RemoveIdMeans(cfg: Config, w: World, q: Request, w': World) returns (k: nat)
    requires CertsOk(w) && q.RemoveIdentity? && Effect(cfg, w, q, w')
    ensures w' == w.(db := w.db.(users := w'.db.users, certs := w'.db.certs))
    ensures k < |w.db.users| && w.db.users[k].name == q.id
    ensures w'.db.users == w.db.users[..k] + w.db.users[k + 1..]
    ensures RevokedFor(w.db.certs, w'.db.certs, q.id, 5, q.now)
  {
    k :| 0 <= k < |w.db.users| && w.db.users[k] == FindUser(w.db.users, q.id).value;
    forall i | 0 <= i < |w.db.users| ensures IdIn([q.id]).Holds(w.db.users[i]) <==> i == k {
      assert i != k ==> UserKey(w.db.users[i]) != UserKey(w.db.users[k]);
    }
    DeleteOne(w.db.users, IdIn([q.id]).Holds, k);
  }

  // ----- certificates

  /** One certificate more, with its record; an enrollment also counts. */
  lemma SigningMeans(cfg: Config, w: World, q: Request, w': World)
    requires (q.Enroll? || q.Reenroll?) && Effect(cfg, w, q, w')
    ensures var id := if q.Enroll? then q.id else q.token.cn;
            var s := q.signing;
            && w' == w.(db := w.db.(users := w'.db.users, certs := w'.db.certs), issued := w'.issued)
            && w'.issued == w.issued + {Cert(id, s.serial, s.aki)}
            && w'.db.certs == w.db.certs +
                 [CertRow(id, Hex(s.serial), TrimLeft(EncodeToString(s.aki), '0'), false, 0, s.expiry, 0)]
            && |w'.db.users| == |w.db.users|
            && forall i | 0 <= i < |w.db.users| ::
                 var u := w.db.users[i];
                 w'.db.users[i] == if q.Enroll? && u.name == id then u.(state := u.state + 1) else u
  {
    SerialSurvives(q.signing.serial);
    hide Caller, Authentic, LoginAllowed, SigningAllowed, Render, Hex, EncodeToString, TrimLeft;
  }

  /** The one certificate with the keys, or all of the identity and the identity itself. */
  lemma RevokeMeans(cfg: Config, w: World, q: Request, w': World)
    requires CertsOk(w) && q.Revoke? && Effect(cfg, w, q, w')
    ensures w' == w.(db := w.db.(users := w'.db.users, certs := w'.db.certs))
    ensures |w'.db.certs| == |w.db.certs| && |w'.db.users| == |w.db.users|
    ensures var s, a := RequestKey(q.serial), RequestKey(q.aki);
            if s != "" && a != "" then
              && w'.db.users == w.db.users
              && (exists i | 0 <= i < |w.db.certs| :: w.db.certs[i].serial == s && w.db.certs[i].aki == a)
              && forall i | 0 <= i < |w.db.certs| ::
                   var c := w.db.certs[i];
                   w'.db.certs[i] == if c.serial == s && c.aki == a
                                     then c.(revoked := true, reason := q.reason, revokedAt := q.now) else c
            else
              && RevokedFor(w.db.certs, w'.db.certs, q.id, q.reason, q.now)
              && forall i | 0 <= i < |w.db.users| ::
                   var u := w.db.users[i];
                   w'.db.users[i] == if u.name == q.id then u.(state := -1) else u
  {
    hide Caller, CanManageUser, AttributeIsTrue, RequestKey, CertsOk;
    var s, a := RequestKey(q.serial), RequestKey(q.aki);
    NewKey(w.db.certs, s, a);
  }

  // ----- the life of a certificate

  /** A request that ends the certificate: it is revoked, or its identity is, or goes alone or with its affiliation. */
  predicate EndsCert(w: World, q: Request, c: Cert) {
    match q
    case Revoke(_, id, serial, aki, _, _) =>
      if RequestKey(serial) != "" && RequestKey(aki) != "" then
        Hex(c.serial) == RequestKey(serial) && TrimLeft(EncodeToString(c.aki), '0') == RequestKey(aki)
      else id == c.cn
    case RemoveIdentity(_, id, _, _) => id == c.cn
    case RemoveAffiliation(_, name, _, _) =>
      exists i | 0 <= i < |w.db.users| :: w.db.users[i].name == c.cn && AtOrBelow(name, w.db.users[i].affiliation)
    case _ => false
  }

  /** A request that issues the certificate. */
  predicate Issues(q: Request, c: Cert) {
    || (q.Enroll? && c == Cert(q.id, q.signing.serial, q.signing.aki))
    || (q.Reenroll? && c == Cert(q.token.cn, q.signing.serial, q.signing.aki))
  }

  /** Rows revoked in place, those of the certificate only if it is to end. */
  predicate RevokedWhere(before: seq<CertRow>, after: seq<CertRow>, c: Cert, ends: bool) {
    && |after| == |before|
    && forall i | 0 <= i < |before| ::
         && after[i].id == before[i].id && CertKey(after[i]) == CertKey(before[i])
         && (Records(before[i], c) ==> (after[i].revoked <==> before[i].revoked || ends))
  }

  lemma GoodAfterRevoking(w: World, w': World, c: Cert, ends: bool)
    requires w'.issued == w.issued && RevokedWhere(w.db.certs, w'.db.certs, c, ends)
    ensures Good(w', c) <==> Good(w, c) && !ends
  {
    if i :| 0 <= i < |w.db.certs| && Records(w.db.certs[i], c) && !w.db.certs[i].revoked {
      assert Records(w'.db.certs[i], c);
    }
    if i :| 0 <= i < |w'.db.certs| && Records(w'.db.certs[i], c) && !w'.db.certs[i].revoked {
      assert Records(w.db.certs[i], c);
    }
  }

  lemma EndedOf(before: seq<CertRow>, ids: seq<string>, reason: int, now: int, c: Cert)
    ensures RevokedWhere(before, RevokeCerts(before, UnrevokedOf(ids), reason, now), c, c.cn in ids)
  {
  }

  lemma EndedByKey(before: seq<CertRow>, serial: string, aki: string, reason: int, now: int, c: Cert)
    ensures RevokedWhere(before, RevokeCerts(before, KeyIs(serial, aki), reason, now), c,
                         Hex(c.serial) == serial && TrimLeft(EncodeToString(c.aki), '0') == aki)
  {
    SerialSurvives(c.serial);
  }

  lemma NothingEnded(before: seq<CertRow>, c: Cert)
    ensures RevokedWhere(before, before, c, false)
  {
  }

  lemma NamesOfRemoved(t: Tables, name: string, id: string)
    ensures id in UserNames(UsersUnder(t, name)) <==>
            exists i | 0 <= i < |t.users| :: t.users[i].name == id && AtOrBelow(name, t.users[i].affiliation)
  {
    var rows := UsersUnder(t, name);
    if k :| 0 <= k < |rows| && UserNames(rows)[k] == id {
      UsersUnderMember(t, name, rows[k]);
      var i :| 0 <= i < |t.users| && t.users[i] == rows[k];
    }
    if i :| 0 <= i < |t.users| && t.users[i].name == id && AtOrBelow(name, t.users[i].affiliation) {
      UsersUnderMember(t, name, t.users[i]);
      var k :| 0 <= k < |rows| && rows[k] == t.users[i];
      assert UserNames(rows)[k] == id;
    }
  }

  lemma GoodAfterOthers(cfg: Config, w: World, q: Request, w': World, c: Cert)
    requires Effect(cfg, w, q, w') && !q.Enroll? && !q.Reenroll?
    ensures Good(w', c) <==> Good(w, c) && !EndsCert(w, q, c)
  {
    hide Good, Caller, AddAllowed, RemoveAllowed, RenameAllowed, RegisterAllowed, ModifyAllowed, RemoveIdAllowed,
         RevokeCertAllowed, RevokeIdAllowed, AttributeIsTrue, UsersUnder, UserNames, RevokedWhere, RequestKey, Hex,
         EncodeToString, TrimLeft, AtOrBelow, Delete, AffAdded;
    GoodAfterRevoking(w, w', c, EndsCert(w, q, c)) by {
      match q
      case RemoveAffiliation(_, name, _, now) =>
        NamesOfRemoved(w.db, name, c.cn);
        EndedOf(w.db.certs, UserNames(UsersUnder(w.db, name)), AFFILIATION_CHANGED, now, c);
      case RemoveIdentity(_, id, _, now) => EndedOf(w.db.certs, [id], CESSATION_OF_OPERATION, now, c);
      case Revoke(_, id, serial, aki, reason, now) =>
        EndedByKey(w.db.certs, RequestKey(serial), RequestKey(aki), reason, now, c);
        EndedOf(w.db.certs, [id], reason, now, c);
      case _ => NothingEnded(w.db.certs, c);
    }
  }

  lemma GoodAfterSigning(w: World, id: string, s: Signing, c: Cert)
    requires CertsOk(w) && SigningAllowed(w, id, s)
    ensures var signed, w' := Cert(id, s.serial, s.aki), Signed(w, id, s);
            && signed !in w.issued
            && (Good(w', c) <==> if c == signed then c.serial > 0 else Good(w, c))
  {
    var signed, w' := Cert(id, s.serial, s.aki), Signed(w, id, s);
    var row := NewCertRow(id, s);
    assert Records(row, signed);
    assert w'.db.certs[|w.db.certs|] == row;
    NewKey(w.db.certs, row.serial, row.aki);
    forall d | d in w.issued ensures !Records(row, d) {
      var i :| 0 <= i < |w.db.certs| && Records(w.db.certs[i], d);
    }
    forall i | 0 <= i < |w.db.certs| ensures w'.db.certs[i] == w.db.certs[i] {
    }
    hide SigningAllowed, Records;
    if i :| 0 <= i < |w.db.certs| && Records(w.db.certs[i], c) && !w.db.certs[i].revoked {
      assert Records(w'.db.certs[i], c);
    }
  }

  /** Exactly which certificates are good after a request that has an effect. */
  lemma GoodStepIff(cfg: Config, w: World, q: Request, w': World, c: Cert)
    requires CertsOk(w) && Effect(cfg, w, q, w')
    ensures Good(w', c) <==> if Issues(q, c) then c.serial > 0 else Good(w, c) && !EndsCert(w, q, c)
    ensures Issues(q, c) ==> c !in w.issued && c in w'.issued
  {
    hide CertsOk, Good, SigningAllowed, LoginAllowed, Authentic, EndsCert;
    if q.Enroll? || q.Reenroll? {
      var id := if q.Enroll? then q.id else q.token.cn;
      GoodAfterSigning(w, id, q.signing, c);
      GoodOfUsers(Signed(w, id, q.signing), w', c);
      EndsNothing(w, q, c);
    } else {
      GoodAfterOthers(cfg, w, q, w', c);
    }
  }

  lemma EndsNothing(w: World, q: Request, c: Cert)
    requires q.Enroll? || q.Reenroll?
    ensures !EndsCert(w, q, c)
  {
  }

  lemma GoodOfUsers(w: World, w': World, c: Cert)
    requires w'.issued == w.issued && w'.db.certs == w.db.certs
    ensures Good(w', c) <==> Good(w, c)
  {
  }

  /**
   The life of a certificate in any run: issued before, it is still good exactly if it was and no request that
   had an effect has ended it since.
  */
  lemma {:induction false} GoodRunIff(cfg: Config, boot: seq<UserRow>, ws: seq<World>, qs: seq<Request>,
                                      i: nat, j: nat, c: Cert)
    requires Run(cfg, ws, qs) && Initial(ws[0], boot) && i <= j < |ws| && c in ws[i].issued
    ensures Good(ws[j], c) <==>
            Good(ws[i], c) && forall k | i <= k < j :: ws[k + 1] == ws[k] || !EndsCert(ws[k], qs[k], c)
    decreases j
  {
    hide Good, Effect, EndsCert, Issues, CertsOk, Initial;
    if i < j {
      GoodRunIff(cfg, boot, ws, qs, i, j - 1, c);
      RunKeepsCerts(cfg, boot, ws, qs, j - 1);
      RunGrowsCerts(cfg, ws, qs, i, j - 1);
      assert Step(cfg, ws[j - 1], qs[j - 1], ws[j]);
      if ws[j] != ws[j - 1] {
        GoodStepIff(cfg, ws[j - 1], qs[j - 1], ws[j], c);
      }
    }
  }

  /** From the request that issued it on. */
  lemma IssuedRunIff(cfg: Config, boot: seq<UserRow>, ws: seq<World>, qs: seq<Request>, i: nat, j: nat, c: Cert)
    requires Run(cfg, ws, qs) && Initial(ws[0], boot) && i < j < |ws|
    requires Effect(cfg, ws[i], qs[i], ws[i + 1]) && Issues(qs[i], c)
    ensures Good(ws[j], c) <==>
            c.serial > 0 && forall k | i < k < j :: ws[k + 1] == ws[k] || !EndsCert(ws[k], qs[k], c)
  {
    hide Good, Effect, EndsCert, Issues, CertsOk, Initial;
    RunKeepsCerts(cfg, boot, ws, qs, i);
    GoodStepIff(cfg, ws[i], qs[i], ws[i + 1], c);
    GoodRunIff(cfg, boot, ws, qs, i + 1, j, c);
  }
}
