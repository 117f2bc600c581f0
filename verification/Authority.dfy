/**
 Who may do what: for every request the exact condition on the rows, the certificates and the texts in them
 under which it has an effect. Nothing here uses the checks of the handlers.
*/
module Authority {
  import opened Basics
  import opened Strings
  import opened Paths
  import opened Attributes
  import opened Tables
  import opened Delegation
  import opened Grants
  import opened Serials
  import opened Registry
  import opened AffiliationTable
  import opened Handlers
  import opened Safety

  // ----- callers

  /** Signed by this CA, numbered from 1, and recorded without being revoked. */
  ghost predicate Good(w: World, token: Cert) {
    && token in w.issued && token.serial > 0
    && exists i | 0 <= i < |w.db.certs| :: Records(w.db.certs[i], token) && !w.db.certs[i].revoked
  }

  /** The identity a good certificate names. */
  ghost predicate CallerIs(w: World, token: Cert, u: UserRow) {
    Good(w, token) && u in w.db.users && u.name == token.cn
  }

  lemma OnlyRow(certs: seq<CertRow>, key: CertWhere, i: nat)
    requires UniqueBy(certs, CertKey) && key.KeyIs? && i < |certs| && key.Holds(certs[i])
    ensures var rows := Select(certs, key.Holds);
            rows != [] && forall j | 0 <= j < |rows| :: rows[j] == certs[i]
  {
    var rows := Select(certs, key.Holds);
    KeepMember(certs, key.Holds, true, certs[i]);
    forall j | 0 <= j < |rows| ensures rows[j] == certs[i] {
      KeepMember(certs, key.Holds, true, rows[j]);
      var k :| 0 <= k < |certs| && certs[k] == rows[j];
      assert CertKey(certs[k]) == CertKey(certs[i]);
    }
  }

  lemma AuthenticIff(w: World, token: Cert)
    requires CertsOk(w)
    ensures Authentic(w, token) <==> Good(w, token)
  {
    if Authentic(w, token) {
      var i := AuthenticRecord(w, token);
    }
    assert UniqueBy(w.db.certs, CertKey);
    hide CertsOk, UniqueBy, Records, Select;
    if Good(w, token) {
      var i :| 0 <= i < |w.db.certs| && Records(w.db.certs[i], token) && !w.db.certs[i].revoked;
      RecordIsMet(w.db.certs[i], token);
      OnlyRow(w.db.certs, TokenKey(token), i);
    }
  }

  /** From 1 on the lookup key of a certificate is the key it was recorded under. */
  lemma RecordIsMet(row: CertRow, token: Cert)
    requires Records(row, token) && token.serial > 0
    ensures TokenKey(token).Holds(row)
  {
    SerialSurvives(token.serial);
    SerialLookup(token.serial);
    AkiLookup(token.aki);
  }

  lemma FoundIff(users: seq<UserRow>, id: string, u: UserRow)
    requires UniqueBy(users, UserKey)
    ensures FindUser(users, id) == Some(u) <==> u in users && u.name == id
  {
    if FindUser(users, id).Some? {
      FoundUnique(users, id);
    }
  }

  lemma CallerIff(w: World, token: Cert, u: UserRow)
    requires CertsOk(w)
    ensures Caller(w, token) == Some(u) <==> CallerIs(w, token, u)
  {
    AuthenticIff(w, token);
    FoundIff(w.db.users, token.cn, u);
  }

  // ----- what a caller may act on

  /** Everything is within the root; otherwise the names of the path go on from those of the other. */
  predicate Within(a: string, n: string) {
    a == "" || Split(a, '.') <= Split(n, '.')
  }

  /** The attribute with the name is true. */
  ghost predicate Says(u: UserRow, name: string) {
    exists own | own in TRUE_TEXTS :: LastIs(u.attributes, name, own)
  }

  /** The identity has some role to register with. */
  ghost predicate Registers(u: UserRow) {
    exists roles :: LastIs(u.attributes, "hf.Registrar.Roles", roles) && roles != ""
  }

  predicate Lists(roles: string, kind: string) {
    exists r | r in Split(roles, ',') :: ToLower(r) == ToLower(kind)
  }

  /** One of its roles is the type, in whatever case. */
  ghost predicate ActsOn(u: UserRow, kind: string) {
    exists roles :: LastIs(u.attributes, "hf.Registrar.Roles", roles) && roles != "" && Lists(roles, kind)
  }

  ghost predicate Manages(u: UserRow, v: UserRow) {
    Within(u.affiliation, v.affiliation) && ActsOn(u, v.kind)
  }

  lemma WithinIff(u: UserRow, n: string)
    ensures ContainsAffiliation(u, n) <==> Within(u.affiliation, n)
  {
    AffiliationOrder(u.affiliation, n, n);
  }

  lemma SaysIff(u: UserRow, name: string)
    ensures HasRole(u, name) <==> Says(u, name)
    ensures ParseBool(ValueOf(u.attributes, name)) == Some(true) <==> Says(u, name)
  {
    TrueIff(u.attributes, name);
  }

  lemma RegistersIff(u: UserRow)
    ensures IsRegistrar(u) <==> Registers(u)
  {
    hide LastIs, ValueOf;
    LastIsIff(u.attributes, ROLES, ValueOf(u.attributes, ROLES));
    if roles :| LastIs(u.attributes, "hf.Registrar.Roles", roles) && roles != "" {
      LastIsIff(u.attributes, ROLES, roles);
    }
  }

  lemma ActsOnIff(u: UserRow, kind: string)
    ensures CanActOnType(u, kind) <==> ActsOn(u, kind)
  {
    hide LastIs, ValueOf;
    var own := ValueOf(u.attributes, ROLES);
    LastIsIff(u.attributes, ROLES, own);
    ListsIff(own, kind);
    if roles :| LastIs(u.attributes, "hf.Registrar.Roles", roles) && roles != "" && Lists(roles, kind) {
      LastIsIff(u.attributes, ROLES, roles);
    }
  }

  lemma ListsIff(roles: string, kind: string)
    ensures StrContained(kind, Split(roles, ',')) <==> Lists(roles, kind)
  {
    var parts := Split(roles, ',');
    if i :| 0 <= i < |parts| && ToLower(parts[i]) == ToLower(kind) {
      assert parts[i] in parts;
    }
    if r :| r in parts && ToLower(r) == ToLower(kind) {
      var i :| 0 <= i < |parts| && parts[i] == r;
      assert ToLower(parts[i]) == ToLower(kind);
    }
  }

  lemma ManagesIff(u: UserRow, v: UserRow)
    ensures CanManageUser(u, v) <==> Manages(u, v)
  {
    WithinIff(u, v.affiliation);
    ActsOnIff(u, v.kind);
  }

  // ----- affiliations

  /** Whatever stands before the last dot of the name is a row. */
  ghost predicate ParentThere(affs: seq<AffRow>, name: string) {
    forall p, leaf | name == p + "." + leaf && '.' !in leaf :: HasAff(affs, p)
  }

  ghost predicate AddPermitted(w: World, u: UserRow, name: string, force: bool) {
    && Says(u, "hf.AffiliationMgr")
    && Within(u.affiliation, name)
    && !HasAff(w.db.affs, name)
    && (force || ParentThere(w.db.affs, name))
  }

  /** Rows below and users need force; users also need a registrar and a server that lets identities go. */
  ghost predicate RemovePermitted(cfg: Config, w: World, u: UserRow, name: string, force: bool) {
    && cfg.removeAffiliations
    && Says(u, "hf.AffiliationMgr") && HasName(u.attributes, "hf.Registrar.Roles")
    && Within(u.affiliation, name) && u.affiliation != name
    && HasAff(w.db.affs, name)
    && (force || forall i | 0 <= i < |w.db.affs| :: !(name + "." <= w.db.affs[i].name))
    && forall i | && 0 <= i < |w.db.users|
                  && (w.db.users[i].affiliation == name || name + "." <= w.db.users[i].affiliation) ::
         force && Registers(u) && cfg.removeIdentities
  }

  ghost predicate RenamePermitted(w: World, u: UserRow, from: string, to: string, force: bool) {
    && Says(u, "hf.AffiliationMgr") && HasName(u.attributes, "hf.Registrar.Roles")
    && Within(u.affiliation, from) && Within(u.affiliation, to)
    && HasAff(w.db.affs, from) && !HasAff(w.db.affs, to)
    && forall i | && 0 <= i < |w.db.users| && HasAff(w.db.affs, w.db.users[i].affiliation)
                  && (w.db.users[i].affiliation == from || from + "." <= w.db.users[i].affiliation) ::
         force && Registers(u)
  }

  lemma ParentThereIff(affs: seq<AffRow>, name: string)
    ensures ParentThere(affs, name) <==> (Nested(name) ==> HasAff(affs, Parent(name)))
  {
    if Nested(name) {
      ParentPrefix(name);
      var i := LastDot(name);
      assert '.' !in name[i + 1..];
      assert name == Parent(name) + "." + name[i + 1..];
    }
    forall p, leaf | name == p + "." + leaf && '.' !in leaf ensures Nested(name) && Parent(name) == p {
      ParentOf(p, leaf);
    }
  }

  lemma AddIff(cfg: Config, w: World, u: UserRow, name: string, force: bool)
    ensures AddAllowed(w, u, name, force) <==> AddPermitted(w, u, name, force)
  {
    hide Says, Within, ContainsAffiliation, HasRole, ParentThere;
    SaysIff(u, AFFILIATION_MGR);
    WithinIff(u, name);
    ParentThereIff(w.db.affs, name);
  }

  lemma RemoveIff(cfg: Config, w: World, u: UserRow, name: string, force: bool)
    ensures RemoveAllowed(cfg, w, u, name, force) <==> RemovePermitted(cfg, w, u, name, force)
  {
    hide Says, Within, ContainsAffiliation, HasRole, Registers, IsRegistrar, HasName, HasAff, DeleteError;
    SaysIff(u, AFFILIATION_MGR);
    RegistersIff(u);
    WithinIff(u, name);
    HasNameLookup(u.attributes, ROLES);
    DeleteErrorIff(w.db, name, force, cfg.removeIdentities, IsRegistrar(u));
  }

  lemma RenameIff(w: World, u: UserRow, from: string, to: string, force: bool)
    ensures RenameAllowed(u, from, to) && RenameError(w.db, from, to, force, IsRegistrar(u)) == None <==>
            RenamePermitted(w, u, from, to, force)
  {
    hide Says, Within, ContainsAffiliation, HasRole, Registers, IsRegistrar, HasName, HasAff, RenameError;
    SaysIff(u, AFFILIATION_MGR);
    RegistersIff(u);
    WithinIff(u, from);
    WithinIff(u, to);
    HasNameLookup(u.attributes, ROLES);
    RenameErrorIff(w.db, from, to, force, IsRegistrar(u));
  }

  // ----- identities

  /** What a registration names, once the defaults are filled in. */
  function SettledAffiliation(reg: Registration, u: UserRow): string {
    if reg.affiliation == "" then u.affiliation else if reg.affiliation == "." then "" else reg.affiliation
  }

  function SettledKind(reg: Registration, u: UserRow): string {
    if reg.kind != "" then reg.kind else if u.kind != "" then u.kind else "client"
  }

  ghost predicate RegisterPermitted(cfg: Config, w: World, u: UserRow, reg: Registration) {
    && ActsOn(u, SettledKind(reg, u))
    && Within(u.affiliation, SettledAffiliation(reg, u))
    && (SettledAffiliation(reg, u) == "" || HasAff(w.db.affs, SettledAffiliation(reg, u)))
    && (forall i | 0 <= i < |reg.attributes| :: Grantable(reg.attributes[i], reg.attributes, None, u.attributes))
    && LimitFits(reg.maxEnrollments, cfg.maxEnrollments)
    && !HasUser(w.db.users, reg.name)
  }

  ghost predicate ModifyPermitted(w: World, u: UserRow, id: string, mod: Modification) {
    id != "" && exists v :: ModifyPermittedOf(w, u, id, mod, v)
  }

  ghost predicate ModifyPermittedOf(w: World, u: UserRow, id: string, mod: Modification, v: UserRow) {
    && v in w.db.users && v.name == id && Manages(u, v)
    && (mod.affiliation != "" ==>
          && (mod.affiliation == "." || HasAff(w.db.affs, mod.affiliation))
          && Within(u.affiliation, mod.affiliation))
    && (mod.kind != "" ==> ActsOn(u, mod.kind))
    && forall i | 0 <= i < |mod.attributes| ::
         Grantable(mod.attributes[i], mod.attributes, Some(v.attributes), u.attributes)
  }

  ghost predicate RemoveIdPermitted(cfg: Config, w: World, u: UserRow, id: string, force: bool) {
    && cfg.removeIdentities
    && id != "" && (id == u.name ==> force)
    && exists v :: v in w.db.users && v.name == id && Manages(u, v)
  }

  lemma RegisterIff(cfg: Config, w: World, u: UserRow, reg: Registration)
    ensures RegisterAllowed(cfg, w, u, reg) <==> RegisterPermitted(cfg, w, u, reg)
  {
    hide ActsOn, CanActOnType, Within, ContainsAffiliation, Grantable, CanRegisterRequested, HasUser, HasAff,
         AllowedMax, LimitFits;
    ActsOnIff(u, SettledKind(reg, u));
    WithinIff(u, SettledAffiliation(reg, u));
    PermittedIff(reg.attributes, None, u.attributes);
    AllowedMaxIff(reg.maxEnrollments, cfg.maxEnrollments);
  }

  lemma ModifyIff(w: World, u: UserRow, id: string, mod: Modification)
    requires UniqueBy(w.db.users, UserKey)
    ensures ModifyAllowed(w, u, id, mod) <==> ModifyPermitted(w, u, id, mod)
  {
    hide ActsOn, CanActOnType, Within, ContainsAffiliation, Grantable, CanRegisterRequested, HasAff, CanManageUser,
         Manages, UniqueBy;
    forall v ensures FindUser(w.db.users, id) == Some(v) <==> v in w.db.users && v.name == id {
      FoundIff(w.db.users, id, v);
    }
    WithinIff(u, mod.affiliation);
    ActsOnIff(u, mod.kind);
    if FindUser(w.db.users, id).Some? {
      var v := FindUser(w.db.users, id).value;
      ManagesIff(u, v);
      PermittedIff(mod.attributes, Some(v.attributes), u.attributes);
      assert ModifyAllowed(w, u, id, mod) ==> ModifyPermittedOf(w, u, id, mod, v);
    }
  }

  lemma RemoveIdIff(cfg: Config, w: World, u: UserRow, id: string, force: bool)
    requires UniqueBy(w.db.users, UserKey)
    ensures RemoveIdAllowed(cfg, w, u, id, force) <==> RemoveIdPermitted(cfg, w, u, id, force)
  {
    hide CanManageUser, Manages, UniqueBy;
    forall v ensures FindUser(w.db.users, id) == Some(v) <==> v in w.db.users && v.name == id {
      FoundIff(w.db.users, id, v);
    }
    if FindUser(w.db.users, id).Some? {
      ManagesIff(u, FindUser(w.db.users, id).value);
    }
  }

  // ----- certificates

  /** All names in the request are the identity's, a CA certificate is for CAs, and the number is new. */
  ghost predicate SigningPermitted(w: World, u: UserRow, s: Signing) {
    && s.csrCn == u.name && (s.subjectCn == None || s.subjectCn == Some(u.name))
    && (s.forCa ==> Says(u, "hf.IntermediateCA"))
    && forall i | 0 <= i < |w.db.certs| ::
         !(w.db.certs[i].serial == Hex(s.serial) && w.db.certs[i].aki == TrimLeft(EncodeToString(s.aki), '0'))
  }

  /** The secret is right and neither the identity nor its limit nor that of the CA is used up. */
  predicate LoginPermitted(cfg: Config, u: UserRow, password: string) {
    && u.pass == Hashed(password)
    && u.state != -1 && u.maxEnrollments != 0 && cfg.maxEnrollments != 0
    && (u.maxEnrollments == -1 || u.state < u.maxEnrollments)
    && (cfg.maxEnrollments == -1 || u.state < cfg.maxEnrollments)
  }

  /** The certificate with these keys is not revoked; it is the caller's own or that of someone it manages. */
  ghost predicate RevokeCertPermitted(w: World, u: UserRow, token: Cert, id: string, serial: string, aki: string) {
    exists i, v | 0 <= i < |w.db.certs| && v in w.db.users ::
      var c := w.db.certs[i];
      && c.serial == serial && c.aki == aki && !c.revoked
      && v.name == c.id && (id == "" || id == c.id)
      && (Records(c, token) || Manages(u, v))
  }

  ghost predicate RevokeIdPermitted(w: World, u: UserRow, id: string) {
    id != "" && exists v :: v in w.db.users && v.name == id && (u.name == id || Manages(u, v))
  }

  ghost predicate RevokePermitted(w: World, u: UserRow, token: Cert, id: string, serial: string, aki: string) {
    && Says(u, "hf.Revoker")
    && if serial != "" && aki != "" then RevokeCertPermitted(w, u, token, id, serial, aki)
       else RevokeIdPermitted(w, u, id)
  }

  lemma SigningIff(w: World, u: UserRow, s: Signing)
    requires UniqueBy(w.db.users, UserKey) && u in w.db.users
    ensures SigningAllowed(w, u.name, s) <==> SigningPermitted(w, u, s)
  {
    hide Says, HasRole, UniqueBy, ParseBool, ValueOf, TrimLeft, Hex, EncodeToString, Render;
    FoundIff(w.db.users, u.name, u);
    SaysIff(u, INTERMEDIATE_CA);
    SerialSurvives(s.serial);
    NewKey(w.db.certs, NewCertRow(u.name, s).serial, NewCertRow(u.name, s).aki);
  }

  lemma NewKey(certs: seq<CertRow>, serial: string, aki: string)
    ensures FindCert(certs, serial, aki).None? <==>
            forall i | 0 <= i < |certs| :: !(certs[i].serial == serial && certs[i].aki == aki)
  {
    if FindCert(certs, serial, aki).Some? {
      var i :| 0 <= i < |certs| && certs[i] == FindCert(certs, serial, aki).value;
    }
  }

  lemma LoginIff(cfg: Config, u: UserRow, password: string)
    ensures LoginAllowed(u, password, cfg.maxEnrollments) <==> LoginPermitted(cfg, u, password)
  {
  }

  lemma FoundCertIff(certs: seq<CertRow>, serial: string, aki: string, i: nat)
    requires UniqueBy(certs, CertKey) && i < |certs| && certs[i].serial == serial && certs[i].aki == aki
    ensures FindCert(certs, serial, aki) == Some(certs[i])
  {
    var c := FindCert(certs, serial, aki);
    assert c.Some?;
    var k :| 0 <= k < |certs| && certs[k] == c.value;
    assert certs[k].serial == serial && certs[k].aki == aki;
    assert CertKey(certs[k]) == CertKey(certs[i]);
  }

  /** The keys of a good certificate are those of its record. */
  lemma OwnCertIff(w: World, token: Cert, i: nat)
    requires CertsOk(w) && Good(w, token) && i < |w.db.certs|
    ensures TokenKey(token) == KeyIs(w.db.certs[i].serial, w.db.certs[i].aki) <==> Records(w.db.certs[i], token)
  {
    var k :| 0 <= k < |w.db.certs| && Records(w.db.certs[k], token);
    RecordIsMet(w.db.certs[k], token);
    if TokenKey(token) == KeyIs(w.db.certs[i].serial, w.db.certs[i].aki) {
      assert CertKey(w.db.certs[k]) == CertKey(w.db.certs[i]);
    }
    if Records(w.db.certs[i], token) {
      RecordIsMet(w.db.certs[i], token);
    }
  }

  lemma RevokeCertIff(w: World, u: UserRow, token: Cert, id: string, serial: string, aki: string)
    requires CertsOk(w) && Good(w, token)
    ensures RevokeCertAllowed(w, u, token, id, serial, aki) <==> RevokeCertPermitted(w, u, token, id, serial, aki)
  {
    assert UniqueBy(w.db.users, UserKey) && UniqueBy(w.db.certs, CertKey);
    hide CertsOk, Good, Records, Manages, CanManageUser, TokenKey, UniqueBy;
    if RevokeCertAllowed(w, u, token, id, serial, aki) {
      var c := FindCert(w.db.certs, serial, aki).value;
      var v := FindUser(w.db.users, c.id).value;
      var i :| 0 <= i < |w.db.certs| && w.db.certs[i] == c;
      OwnCertIff(w, token, i);
      ManagesIff(u, v);
    }
    if RevokeCertPermitted(w, u, token, id, serial, aki) {
      var i, v :| && 0 <= i < |w.db.certs| && v in w.db.users && var c := w.db.certs[i];
        && c.serial == serial && c.aki == aki && !c.revoked
        && v.name == c.id && (id == "" || id == c.id) && (Records(c, token) || Manages(u, v));
      FoundCertIff(w.db.certs, serial, aki, i);
      FoundIff(w.db.users, v.name, v);
      OwnCertIff(w, token, i);
      ManagesIff(u, v);
    }
  }

  lemma RevokeIdIff(w: World, u: UserRow, id: string)
    requires UniqueBy(w.db.users, UserKey)
    ensures RevokeIdAllowed(w, u, id) <==> RevokeIdPermitted(w, u, id)
  {
    hide CanManageUser, Manages, UniqueBy;
    forall v ensures FindUser(w.db.users, id) == Some(v) <==> v in w.db.users && v.name == id {
      FoundIff(w.db.users, id, v);
    }
    if FindUser(w.db.users, id).Some? {
      ManagesIff(u, FindUser(w.db.users, id).value);
    }
  }

  // ----- all requests

  ghost predicate PermittedTo(cfg: Config, w: World, u: UserRow, q: Request)
    requires !q.Enroll? && !q.Reenroll?
  {
    match q
    case AddAffiliation(_, name, force) => AddPermitted(w, u, name, force)
    case RemoveAffiliation(_, name, force, _) => RemovePermitted(cfg, w, u, name, force)
    case RenameAffiliation(_, from, to, force) => RenamePermitted(w, u, from, to, force)
    case Register(_, reg) => RegisterPermitted(cfg, w, u, reg)
    case ModifyIdentity(_, id, mod) => ModifyPermitted(w, u, id, mod)
    case RemoveIdentity(_, id, force, _) => RemoveIdPermitted(cfg, w, u, id, force)
    case Revoke(token, id, serial, aki, _, _) => RevokePermitted(w, u, token, id, RequestKey(serial), RequestKey(aki))
  }

  ghost predicate Permitted(cfg: Config, w: World, q: Request) {
    match q
    case Enroll(id, password, s) =>
      exists u :: u in w.db.users && u.name == id && LoginPermitted(cfg, u, password) && SigningPermitted(w, u, s)
    case Reenroll(token, s) => exists u :: CallerIs(w, token, u) && SigningPermitted(w, u, s)
    case _ => exists u :: CallerIs(w, q.token, u) && PermittedTo(cfg, w, u, q)
  }

  // ----- every permitted rename has an outcome, whatever the order in which attributes are listed

  ghost function Listed(l: seq<Attribute>): seq<Attribute> {
    if l == [] then []
    else
      var last := l[|l| - 1];
      Apply(Listed(l[..|l| - 1]), Attribute(last.name, "", last.ecert)) + [last]
  }

  lemma AppendFresh(k: seq<Attribute>, x: Attribute)
    requires UniqueNames(k) && x.name !in AttrMap(k)
    ensures UniqueNames(k + [x]) && AttrMap(k + [x]) == AttrMap(k)[x.name := x]
  {
    LookupIsMap(k, x.name);
    HasNameLookup(k, x.name);
    assert (k + [x])[..|k|] == k;
  }

  lemma {:induction false} ListedIs(l: seq<Attribute>)
    ensures UniqueNames(Listed(l)) && AttrMap(Listed(l)) == AttrMap(l)
  {
    if l == [] {
    } else {
      hide Apply, UniqueNames;
      var front, last := l[..|l| - 1], l[|l| - 1];
      var r := Attribute(last.name, "", last.ecert);
      ListedIs(front);
      ApplyUnique(Listed(front), r);
      ApplyRefinesMap(Listed(front), r);
      AppendFresh(Apply(Listed(front), r), last);
      assert (AttrMap(front) - {last.name})[last.name := last] == AttrMap(front)[last.name := last];
    }
  }

  ghost function MovedUser(u: UserRow, aff: string): UserRow {
    u.(affiliation := aff, attributes := Apply(Listed(u.attributes), Attribute(AFFILIATION, aff, false)))
  }

  lemma MovedUserIs(u: UserRow, aff: string)
    ensures Moved(u, MovedUser(u, aff), aff)
  {
    var r := Attribute(AFFILIATION, aff, false);
    ListedIs(u.attributes);
    ApplyUnique(Listed(u.attributes), r);
    ApplyRefinesMap(Listed(u.attributes), r);
  }

  lemma RenameExists(t: Tables, from: string, to: string) returns (t': Tables)
    ensures Renamed(t, from, to, t')
  {
    hide Moved;
    var affs := seq(|t.affs|, i requires 0 <= i < |t.affs| => RenamedAff(t.affs[i], from, to));
    var users := seq(|t.users|, i requires 0 <= i < |t.users| =>
      if UnderRow(t.users[i], t.affs, from) then MovedUser(t.users[i], Image(from, to, t.users[i].affiliation))
      else t.users[i]);
    t' := Tables(affs, users, t.certs);
    forall i | 0 <= i < |t.users| ensures MovedIfUnder(t.users[i], users[i], t.affs, from, to) {
      if UnderRow(t.users[i], t.affs, from) {
        MovedUserIs(t.users[i], Image(from, to, t.users[i].affiliation));
      }
    }
  }

  lemma RenamedCarries(t: Tables, from: string, to: string, t': Tables)
    requires Renamed(t, from, to, t')
    ensures CarriedAll(t.users, t'.users, to)
  {
    hide Carried;
    forall i | 0 <= i < |t.users|
      ensures Carried(t.users[i], t'.users[i])
      ensures t'.users[i].affiliation == t.users[i].affiliation || AtOrBelow(to, t'.users[i].affiliation)
    {
      if UnderRow(t.users[i], t.affs, from) {
        MovedIsCarried(t.users[i], t'.users[i], Image(from, to, t.users[i].affiliation));
        ImageInverts(from, to, t.users[i].affiliation);
      } else {
        CarriedSame(t.users[i]);
      }
    }
  }

  lemma CarriedSame(u: UserRow)
    ensures Carried(u, u)
  {
  }

  lemma RenamePossible(cfg: Config, w: World, q: Request, u: UserRow)
    requires q.RenameAffiliation? && Caller(w, q.token) == Some(u) && RenameAllowed(u, q.name, q.newName)
    requires RenameError(w.db, q.name, q.newName, q.force, IsRegistrar(u)) == None && Renamable(w.db, q.newName)
    ensures Possible(cfg, w, q)
  {
    hide Caller, RenameAllowed, Renamed, CarriedAll;
    var t' := RenameExists(w.db, q.name, q.newName);
    RenamedCarries(w.db, q.name, q.newName, t');
    RenamedStaysUnique(w.db, q.name, q.newName, t');
    assert t'.certs == w.db.certs by {
      RenameMeans(w.db, q.name, q.newName, t');
    }
    var w' := w.(db := t');
    assert RenameEffect(w, q.token, q.name, q.newName, q.force, w');
    assert Effect(cfg, w, q, w');
  }

  lemma RenameIsPossible(cfg: Config, w: World, q: Request, u: UserRow)
    requires q.RenameAffiliation? && Caller(w, q.token) == Some(u) && Settled(w, q)
    ensures Possible(cfg, w, q) <==> RenamePermitted(w, u, q.name, q.newName, q.force)
  {
    hide Caller, RenameAllowed, RenameError, Renamed, CarriedAll, RenamePermitted, UniqueBy, NoneAtOrBelow;
    RenameIff(w, u, q.name, q.newName, q.force);
    RenameErrorIff(w.db, q.name, q.newName, q.force, IsRegistrar(u));
    FoundAff(w.db.affs, q.newName);
    if Possible(cfg, w, q) {
      var w' :| Effect(cfg, w, q, w');
      assert RenameEffect(w, q.token, q.name, q.newName, q.force, w');
    } else if RenamePermitted(w, u, q.name, q.newName, q.force) {
      RenamePossible(cfg, w, q, u);
    }
  }

  lemma AffiliationPossible(cfg: Config, w: World, q: Request, u: UserRow)
    requires q.AddAffiliation? || q.RemoveAffiliation? || q.RenameAffiliation?
    requires Caller(w, q.token) == Some(u) && Settled(w, q)
    ensures Possible(cfg, w, q) <==> PermittedTo(cfg, w, u, q)
  {
    hide Caller, AddAllowed, AddPermitted, RemoveAllowed, RemovePermitted, RenamePermitted, Settled, AffAdded,
         DeletedTables, RenameEffect;
    if q.RenameAffiliation? {
      RenameIsPossible(cfg, w, q, u);
    } else if q.AddAffiliation? {
      AddIff(cfg, w, u, q.name, q.force);
      var w' := w.(db := w.db.(affs := AffAdded(cfg, w.db.affs, q.name, q.force)));
      assert AddAllowed(w, u, q.name, q.force) ==> Effect(cfg, w, q, w');
    } else {
      RemoveIff(cfg, w, u, q.name, q.force);
      var w' := w.(db := DeletedTables(w.db, q.name, q.now));
      assert RemoveAllowed(cfg, w, u, q.name, q.force) ==> Effect(cfg, w, q, w');
    }
  }

  lemma IdentityPossible(cfg: Config, w: World, q: Request, u: UserRow)
    requires UniqueBy(w.db.users, UserKey)
    requires q.Register? || q.ModifyIdentity? || q.RemoveIdentity?
    requires Caller(w, q.token) == Some(u)
    ensures Possible(cfg, w, q) <==> PermittedTo(cfg, w, u, q)
  {
    hide Caller, RegisterPermitted, ModifyPermitted, RemoveIdAllowed, RemoveIdPermitted, RemoveUsers, ModifiedRow,
         UniqueBy;
    if q.Register? {
      RegisterIff(cfg, w, u, q.reg);
      if RegisterAllowed(cfg, w, u, q.reg) {
        var row := RegisteredRow(cfg, Normalized(q.reg, u));
        var w' := w.(db := w.db.(users := w.db.users + [row]), registered := w.registered + {row.name});
        assert Effect(cfg, w, q, w');
      }
    } else if q.ModifyIdentity? {
      ModifyIff(w, u, q.id, q.mod);
      if ModifyAllowed(w, u, q.id, q.mod) {
        var row := ModifiedRow(FindUser(w.db.users, q.id).value, q.mod);
        var w' := w.(db := w.db.(users := UpdateUsers(w.db.users, IdIs(q.id), SetRow(row))));
        assert Effect(cfg, w, q, w');
      }
    } else {
      RemoveIdIff(cfg, w, u, q.id, q.force);
      var w' := w.(db := RemoveUsers(w.db, [q.id], CESSATION_OF_OPERATION, q.now));
      assert RemoveIdAllowed(cfg, w, u, q.id, q.force) ==> Effect(cfg, w, q, w');
    }
  }

  lemma CallerSays(w: World, token: Cert, u: UserRow, name: string)
    requires Caller(w, token) == Some(u)
    ensures AttributeIsTrue(w.db.users, token.cn, name) <==> Says(u, name)
  {
    hide Says, ParseBool, ValueOf, Authentic;
    SaysIff(u, name);
  }

  lemma RevokePossible(cfg: Config, w: World, q: Request, u: UserRow)
    requires CertsOk(w) && q.Revoke? && Caller(w, q.token) == Some(u)
    ensures Possible(cfg, w, q) <==> PermittedTo(cfg, w, u, q)
  {
    CallerIff(w, q.token, u);
    assert UniqueBy(w.db.users, UserKey);
    CallerSays(w, q.token, u, REVOKER);
    hide Caller, CertsOk, Good, RevokeCertAllowed, RevokeCertPermitted, RevokeIdAllowed, RevokeIdPermitted, Says,
         RevokeCerts, IdRevoked, UniqueBy, AttributeIsTrue, RequestKey;
    var s, a := RequestKey(q.serial), RequestKey(q.aki);
    RevokeCertIff(w, u, q.token, q.id, s, a);
    RevokeIdIff(w, u, q.id);
    var w' := if s != "" && a != "" then w.(db := w.db.(certs := RevokeCerts(w.db.certs, KeyIs(s, a), q.reason, q.now)))
              else w.(db := IdRevoked(w.db, q.id, q.reason, q.now));
    assert PermittedTo(cfg, w, u, q) ==> Effect(cfg, w, q, w');
  }

  lemma SigningPossible(cfg: Config, w: World, q: Request)
    requires CertsOk(w) && (q.Enroll? || q.Reenroll?)
    ensures Possible(cfg, w, q) <==> Permitted(cfg, w, q)
  {
    assert UniqueBy(w.db.users, UserKey);
    var id := if q.Enroll? then q.id else q.token.cn;
    forall u ensures FindUser(w.db.users, id) == Some(u) <==> u in w.db.users && u.name == id {
      FoundIff(w.db.users, id, u);
    }
    if q.Reenroll? {
      AuthenticIff(w, q.token);
    }
    hide CertsOk, Good, Authentic, SigningAllowed, SigningPermitted, LoginAllowed, LoginPermitted, Signed, UniqueBy;
    if FindUser(w.db.users, id).Some? {
      var u := FindUser(w.db.users, id).value;
      SigningIff(w, u, q.signing);
      if q.Enroll? {
        LoginIff(cfg, u, q.password);
      }
      var x := Signed(w, id, q.signing);
      var w' := if q.Enroll? then x.(db := x.db.(users := UpdateUsers(x.db.users, IdIs(id), IncrementState))) else x;
      assert Permitted(cfg, w, q) ==> Effect(cfg, w, q, w');
    } else {
      SigningNeedsUser(w, id, q.signing);
    }
  }

  lemma SigningNeedsUser(w: World, id: string, s: Signing)
    requires FindUser(w.db.users, id).None?
    ensures !SigningAllowed(w, id, s)
  {
  }

  /** In every reachable state a request can have an effect exactly if it is permitted. */
  lemma PossibleIff(cfg: Config, w: World, q: Request)
    requires CertsOk(w) && Settled(w, q)
    ensures Possible(cfg, w, q) <==> Permitted(cfg, w, q)
  {
    if q.Enroll? || q.Reenroll? {
      SigningPossible(cfg, w, q);
    } else {
      assert UniqueBy(w.db.users, UserKey);
      forall u ensures Caller(w, q.token) == Some(u) <==> CallerIs(w, q.token, u) {
        CallerIff(w, q.token, u);
      }
      hide Caller, CallerIs, CertsOk, Settled, PermittedTo, UniqueBy;
      if Caller(w, q.token).Some? {
        var u := Caller(w, q.token).value;
        if q.AddAffiliation? || q.RemoveAffiliation? || q.RenameAffiliation? {
          AffiliationPossible(cfg, w, q, u);
        } else if q.Revoke? {
          RevokePossible(cfg, w, q, u);
        } else {
          IdentityPossible(cfg, w, q, u);
        }
      } else {
        NeedsCaller(cfg, w, q);
      }
    }
  }

  lemma NeedsCaller(cfg: Config, w: World, q: Request)
    requires !q.Enroll? && !q.Reenroll? && Caller(w, q.token).None?
    ensures !Possible(cfg, w, q)
  {
    hide Caller, AddAllowed, RemoveAllowed, RenameAllowed, RegisterAllowed, ModifyAllowed, RemoveIdAllowed;
  }
}
