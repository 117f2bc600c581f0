/**
 The request handlers as steps over the whole state of one CA. Every handler is one atomic step: it
 fails and changes nothing, or it has the effect given here.
*/
module Handlers {
  import opened Basics
  import opened Strings
  import opened Paths
  import opened Attributes
  import opened Tables
  import opened Delegation
  import opened Serials
  import opened Registry
  import opened AffiliationTable

  datatype Config = Config(maxEnrollments: int, removeAffiliations: bool, removeIdentities: bool,
                           affiliationLevel: int, identityLevel: int)

  /** What matters of an X.509 certificate: its subject common name, serial number and authority key id. */
  datatype Cert = Cert(cn: string, serial: nat, aki: seq<Byte>)

  /**
   The tables; the certificates that carry this CA's signature, which are the ones VerifyCertificate
   accepts; and, as history, the names that have been registered.
  */
  datatype World = World(db: Tables, issued: set<Cert>, registered: set<string>)

  /** A registration request; `random` is the secret generated for it if it brings none. */
  datatype Registration = Registration(name: string, secret: string, kind: string, affiliation: string,
                                       attributes: seq<Attribute>, maxEnrollments: int, random: string)

  datatype Modification = Modification(secret: string, kind: string, affiliation: string,
                                       attributes: seq<Attribute>, maxEnrollments: int)

  /** A signing request: the names in it, whether it asks for a CA certificate, and what signing yields. */
  datatype Signing = Signing(csrCn: string, subjectCn: Option<string>, forCa: bool, serial: nat, aki: seq<Byte>,
                             expiry: int)

  datatype Request =
    | AddAffiliation(token: Cert, name: string, force: bool)
    | RemoveAffiliation(token: Cert, name: string, force: bool, now: int)
    | RenameAffiliation(token: Cert, name: string, newName: string, force: bool)
    | Register(token: Cert, reg: Registration)
    | ModifyIdentity(token: Cert, id: string, mod: Modification)
    | RemoveIdentity(token: Cert, id: string, force: bool, now: int)
    | Enroll(id: string, password: string, signing: Signing)
    | Reenroll(token: Cert, signing: Signing)
    | Revoke(token: Cert, id: string, serial: string, aki: string, reason: int, now: int)

  // ----- authentication and authorization

  function TokenKey(token: Cert): CertWhere {
    KeyIs(LookupKey(Hex(token.serial)), LookupKey(EncodeToString(token.aki)))
  }

  /** TokenAuthentication: signed by this CA, recorded, and no record revoked. */
  predicate Authentic(w: World, token: Cert) {
    var rows := Select(w.db.certs, TokenKey(token).Holds);
    && token in w.issued
    && rows != []
    && forall i | 0 <= i < |rows| :: !rows[i].revoked
  }

  /** GetCaller after token authentication. */
  function Caller(w: World, token: Cert): Option<UserRow> {
    if Authentic(w, token) then FindUser(w.db.users, token.cn) else None
  }

  predicate ContainsAffiliation(caller: UserRow, affiliation: string) {
    caller.affiliation == "" || AtOrBelow(caller.affiliation, affiliation)
  }

  predicate HasRole(caller: UserRow, role: string) {
    Lookup(caller.attributes, role).Some? && ParseBool(ValueOf(caller.attributes, role)) == Some(true)
  }

  predicate HasRoles(caller: UserRow) {
    Lookup(caller.attributes, ROLES).Some?
  }

  predicate IsRegistrar(caller: UserRow) {
    ValueOf(caller.attributes, ROLES) != ""
  }

  predicate CanActOnType(caller: UserRow, kind: string) {
    IsRegistrar(caller) && StrContained(kind, Split(ValueOf(caller.attributes, ROLES), ','))
  }

  predicate CanManageUser(caller: UserRow, user: UserRow) {
    ContainsAffiliation(caller, user.affiliation) && CanActOnType(caller, user.kind)
  }

  predicate AttributeIsTrue(users: seq<UserRow>, id: string, name: string) {
    FindUser(users, id).Some? && ParseBool(ValueOf(FindUser(users, id).value.attributes, name)) == Some(true)
  }

  // ----- registering

  /** getMaxEnrollments. */
  function AllowedMax(user: int, ca: int): Option<int> {
    if user < -1 then None
    else if ca == -1 then Some(if user == 0 then -1 else user)
    else if ca == 0 then None
    else if user == -1 then None
    else if user == 0 then Some(ca)
    else if user > ca then None
    else Some(user)
  }

  /** A limit of 0 takes over that of the CA, -1 is no limit; a CA with limit 0 takes nobody. */
  predicate LimitFits(user: int, ca: int) {
    user >= -1 && ca != 0 && (user == 0 || ca == -1 || -1 != user <= ca)
  }

  lemma AllowedMaxIff(user: int, ca: int)
    ensures AllowedMax(user, ca) == if LimitFits(user, ca) then Some(if user == 0 then ca else user) else None
  {
  }

  /** normalizeRegistrationRequest, the default type of canRegister and the default secret of registerUserID. */
  function Normalized(reg: Registration, caller: UserRow): Registration {
    var affiliation := if reg.affiliation == "" then caller.affiliation
                       else if reg.affiliation == "." then "" else reg.affiliation;
    var kind := if reg.kind == "" then caller.kind else reg.kind;
    reg.(affiliation := affiliation, kind := if kind == "" then "client" else kind,
         secret := if reg.secret == "" then reg.random else reg.secret)
  }

  predicate ValidAffiliation(affs: seq<AffRow>, affiliation: string) {
    affiliation == "" || HasAff(affs, affiliation)
  }

  predicate RegisterAllowed(cfg: Config, w: World, caller: UserRow, reg: Registration) {
    var r := Normalized(reg, caller);
    && CanActOnType(caller, r.kind)
    && ContainsAffiliation(caller, r.affiliation)
    && ValidAffiliation(w.db.affs, r.affiliation)
    && CanRegisterRequested(r.attributes, None, caller.attributes)
    && AllowedMax(r.maxEnrollments, cfg.maxEnrollments).Some?
    && !HasUser(w.db.users, r.name)
  }

  function RegisteredRow(cfg: Config, r: Registration): UserRow
    requires AllowedMax(r.maxEnrollments, cfg.maxEnrollments).Some?
  {
    UserRow(r.name, Hashed(r.secret), r.kind, r.affiliation,
            r.attributes + [Attribute(ENROLLMENT_ID, r.name, true), Attribute(TYPE, r.kind, true),
                            Attribute(AFFILIATION, r.affiliation, true)],
            0, AllowedMax(r.maxEnrollments, cfg.maxEnrollments).value, cfg.identityLevel)
  }

  // ----- modifying

  /** The attribute requests getModifyReq makes: those asked for, then those the columns imply. */
  function ModificationAttributes(mod: Modification): seq<Attribute> {
    mod.attributes
    + (if mod.affiliation == "." then [Attribute(AFFILIATION, "", true)]
       else if mod.affiliation != "" then [Attribute(AFFILIATION, mod.affiliation, true)] else [])
    + (if mod.kind != "" then [Attribute(TYPE, mod.kind, true)] else [])
  }

  function ModifiedRow(user: UserRow, mod: Modification): UserRow {
    user.(pass := if mod.secret != "" then Hashed(mod.secret) else user.pass,
          maxEnrollments := if mod.maxEnrollments == -2 then 0
                            else if mod.maxEnrollments != 0 then mod.maxEnrollments else user.maxEnrollments,
          affiliation := if mod.affiliation == "." then "" else if mod.affiliation != "" then mod.affiliation
                         else user.affiliation,
          kind := if mod.kind != "" then mod.kind else user.kind,
          attributes := NewAttributes(user.attributes, ModificationAttributes(mod)))
  }

  predicate ModifyAllowed(w: World, caller: UserRow, id: string, mod: Modification) {
    && id != "" && FindUser(w.db.users, id).Some?
    && var user := FindUser(w.db.users, id).value;
       && CanManageUser(caller, user)
       && (mod.affiliation != "" ==>
             && (mod.affiliation != "." ==> HasAff(w.db.affs, mod.affiliation))
             && ContainsAffiliation(caller, mod.affiliation))
       && (mod.kind != "" ==> CanActOnType(caller, mod.kind))
       && CanRegisterRequested(mod.attributes, Some(user.attributes), caller.attributes)
  }

  // ----- enrolling

  /** The limit Login works with: the user's, lowered to the CA's where that is smaller; -1 is none. */
  function EffectiveMax(user: int, ca: int): int {
    if ca != -1 && (user > ca || user == -1) then ca else user
  }

  /** DBUser.Login. */
  predicate LoginOk(user: UserRow, password: string, caMax: int) {
    && user.pass == Hashed(password)
    && user.maxEnrollments != 0
    && user.state != -1
    && (EffectiveMax(user.maxEnrollments, caMax) == -1 || user.state < EffectiveMax(user.maxEnrollments, caMax))
  }

  /** BasicAuthentication: Login, behind the check that enrollment is enabled. */
  predicate LoginAllowed(user: UserRow, password: string, caMax: int) {
    caMax != 0 && LoginOk(user, password, caMax)
  }

  function NewCertRow(id: string, s: Signing): CertRow {
    CertRow(id, StoredSerial(Render(s.serial, 10)), StoredAki(EncodeToString(s.aki)), false, 0, s.expiry, 0)
  }

  /** handleEnroll up to and including the insertion of the certificate. */
  predicate SigningAllowed(w: World, id: string, s: Signing) {
    && s.csrCn == id && (s.subjectCn.Some? ==> s.subjectCn.value == id)
    && (s.forCa ==> AttributeIsTrue(w.db.users, id, INTERMEDIATE_CA))
    && FindUser(w.db.users, id).Some?
    && FindCert(w.db.certs, NewCertRow(id, s).serial, NewCertRow(id, s).aki).None?
  }

  function Signed(w: World, id: string, s: Signing): World {
    w.(db := w.db.(certs := w.db.certs + [NewCertRow(id, s)]), issued := w.issued + {Cert(id, s.serial, s.aki)})
  }

  // ----- revoking

  predicate RevokeCertAllowed(w: World, caller: UserRow, token: Cert, id: string, serial: string, aki: string) {
    && FindCert(w.db.certs, serial, aki).Some?
    && var c := FindCert(w.db.certs, serial, aki).value;
       && !c.revoked
       && (id != "" ==> id == c.id)
       && FindUser(w.db.users, c.id).Some?
       && (TokenKey(token) == KeyIs(serial, aki) || CanManageUser(caller, FindUser(w.db.users, c.id).value))
  }

  predicate RevokeIdAllowed(w: World, caller: UserRow, id: string) {
    && id != "" && FindUser(w.db.users, id).Some?
    && (caller.name == id || CanManageUser(caller, FindUser(w.db.users, id).value))
  }

  function IdRevoked(t: Tables, id: string, reason: int, now: int): Tables {
    t.(users := UpdateUsers(t.users, IdIs(id), SetState(-1)),
       certs := RevokeCerts(t.certs, UnrevokedOf([id]), reason, now))
  }

  // ----- the effect of a successful request

  predicate AddAllowed(w: World, caller: UserRow, name: string, force: bool) {
    && HasRole(caller, AFFILIATION_MGR)
    && !HasAff(w.db.affs, name)
    && ContainsAffiliation(caller, name)
    && (force || !Nested(name) || HasAff(w.db.affs, Parent(name)))
  }

  function AffAdded(cfg: Config, affs: seq<AffRow>, name: string, force: bool): seq<AffRow> {
    if force then WithAncestors(affs, name, cfg.affiliationLevel)
    else InsertAff(affs, name, Parent(name), cfg.affiliationLevel)
  }

  predicate RemoveAllowed(cfg: Config, w: World, caller: UserRow, name: string, force: bool) {
    && HasRole(caller, AFFILIATION_MGR)
    && cfg.removeAffiliations
    && caller.affiliation != name
    && ContainsAffiliation(caller, name)
    && HasRoles(caller)
    && DeleteError(w.db, name, force, cfg.removeIdentities, IsRegistrar(caller)) == None
  }

  /** The checks of the rename handler; what the registry checks is RenameError. */
  predicate RenameAllowed(caller: UserRow, from: string, to: string) {
    && HasRole(caller, AFFILIATION_MGR)
    && ContainsAffiliation(caller, from)
    && ContainsAffiliation(caller, to)
    && HasRoles(caller)
  }

  predicate RemoveIdAllowed(cfg: Config, w: World, caller: UserRow, id: string, force: bool) {
    && cfg.removeIdentities
    && id != "" && (id == caller.name ==> force)
    && FindUser(w.db.users, id).Some?
    && CanManageUser(caller, FindUser(w.db.users, id).value)
  }

  predicate AddEffect(cfg: Config, w: World, token: Cert, name: string, force: bool, w': World) {
    var caller := Caller(w, token);
    && caller.Some? && AddAllowed(w, caller.value, name, force)
    && w' == w.(db := w.db.(affs := AffAdded(cfg, w.db.affs, name, force)))
  }

  predicate RemoveEffect(cfg: Config, w: World, token: Cert, name: string, force: bool, now: int, w': World) {
    var caller := Caller(w, token);
    && caller.Some? && RemoveAllowed(cfg, w, caller.value, name, force)
    && w' == w.(db := DeletedTables(w.db, name, now))
  }

  ghost predicate RenamedTables(t: Tables, from: string, to: string, force: bool, isRegistrar: bool, t': Tables) {
    && FindAff(t.affs, from).Some? && FindAff(t.affs, to).None?
    && t'.certs == t.certs
    && (UniqueBy(t.affs, AffKey) ==> UniqueBy(t'.affs, AffKey))
    && (UniqueBy(t.users, UserKey) ==> CarriedAll(t.users, t'.users, to))
    && (Renamable(t, to) ==> Renamed(t, from, to, t') && RenameError(t, from, to, force, isRegistrar) == None)
  }

  ghost predicate RenameEffect(w: World, token: Cert, from: string, to: string, force: bool, w': World) {
    var caller := Caller(w, token);
    && caller.Some? && RenameAllowed(caller.value, from, to)
    && w' == w.(db := w'.db)
    && RenamedTables(w.db, from, to, force, IsRegistrar(caller.value), w'.db)
  }

  predicate RegisterEffect(cfg: Config, w: World, token: Cert, reg: Registration, w': World) {
    var caller := Caller(w, token);
    && caller.Some? && RegisterAllowed(cfg, w, caller.value, reg)
    && var row := RegisteredRow(cfg, Normalized(reg, caller.value));
       w' == w.(db := w.db.(users := w.db.users + [row]), registered := w.registered + {row.name})
  }

  predicate ModifyEffect(w: World, token: Cert, id: string, mod: Modification, w': World) {
    var caller := Caller(w, token);
    && caller.Some? && ModifyAllowed(w, caller.value, id, mod)
    && var row := ModifiedRow(FindUser(w.db.users, id).value, mod);
       w' == w.(db := w.db.(users := UpdateUsers(w.db.users, IdIs(id), SetRow(row))))
  }

  predicate RemoveIdEffect(cfg: Config, w: World, token: Cert, id: string, force: bool, now: int, w': World) {
    var caller := Caller(w, token);
    && caller.Some? && RemoveIdAllowed(cfg, w, caller.value, id, force)
    && w' == w.(db := RemoveUsers(w.db, [id], CESSATION_OF_OPERATION, now))
  }

  predicate EnrollEffect(cfg: Config, w: World, id: string, password: string, signing: Signing, w': World) {
    && FindUser(w.db.users, id).Some?
    && LoginAllowed(FindUser(w.db.users, id).value, password, cfg.maxEnrollments)
    && SigningAllowed(w, id, signing)
    && var s := Signed(w, id, signing);
       w' == s.(db := s.db.(users := UpdateUsers(s.db.users, IdIs(id), IncrementState)))
  }

  predicate ReenrollEffect(w: World, token: Cert, signing: Signing, w': World) {
    && Authentic(w, token)
    && SigningAllowed(w, token.cn, signing)
    && w' == Signed(w, token.cn, signing)
  }

  predicate RevokeEffect(w: World, token: Cert, id: string, serial: string, aki: string, reason: int, now: int,
                         w': World)
  {
    var caller := Caller(w, token);
    && caller.Some? && AttributeIsTrue(w.db.users, token.cn, REVOKER)
    && var (s, a) := (RequestKey(serial), RequestKey(aki));
       if s != "" && a != "" then
         && RevokeCertAllowed(w, caller.value, token, id, s, a)
         && w' == w.(db := w.db.(certs := RevokeCerts(w.db.certs, KeyIs(s, a), reason, now)))
       else
         && RevokeIdAllowed(w, caller.value, id)
         && w' == w.(db := IdRevoked(w.db, id, reason, now))
  }

  ghost predicate Effect(cfg: Config, w: World, q: Request, w': World) {
    match q
    case AddAffiliation(token, name, force) => AddEffect(cfg, w, token, name, force, w')
    case RemoveAffiliation(token, name, force, now) => RemoveEffect(cfg, w, token, name, force, now, w')
    case RenameAffiliation(token, from, to, force) => RenameEffect(w, token, from, to, force, w')
    case Register(token, reg) => RegisterEffect(cfg, w, token, reg, w')
    case ModifyIdentity(token, id, mod) => ModifyEffect(w, token, id, mod, w')
    case RemoveIdentity(token, id, force, now) => RemoveIdEffect(cfg, w, token, id, force, now, w')
    case Enroll(id, password, signing) => EnrollEffect(cfg, w, id, password, signing, w')
    case Reenroll(token, signing) => ReenrollEffect(w, token, signing, w')
    case Revoke(token, id, serial, aki, reason, now) => RevokeEffect(w, token, id, serial, aki, reason, now, w')
  }

  /** The request can have an effect. */
  ghost predicate Possible(cfg: Config, w: World, q: Request) {
    exists w' :: Effect(cfg, w, q, w')
  }

  /** The new names of a rename are free, or the target itself is taken; consistent tables leave no third case. */
  predicate Settled(w: World, q: Request) {
    q.RenameAffiliation? ==> HasAff(w.db.affs, q.newName) || Renamable(w.db, q.newName)
  }

  /** A request fails without effect, or has its effect. */
  ghost predicate Step(cfg: Config, w: World, q: Request, w': World) {
    w' == w || Effect(cfg, w, q, w')
  }

  /** Any sequence of requests, one state before each and one after the last. */
  ghost predicate Run(cfg: Config, ws: seq<World>, qs: seq<Request>) {
    && |ws| == |qs| + 1
    && forall i | 0 <= i < |qs| :: Step(cfg, ws[i], qs[i], ws[i + 1])
  }
}
