/**
 The request handlers as the server executes them, statement by statement, over the registry. Each is
 proved against its step in Handlers; whatever a server does is then a run.
*/
module Server {
  import opened Basics
  import opened Strings
  import opened Paths
  import opened Attributes
  import opened Tables
  import opened Delegation
  import opened Serials
  import opened Registry
  import opened AffiliationTable
  import opened Handlers
  import opened Enrollment
  import opened Safety
  import opened Authority

  /** A request is done, refused by a check, or stopped by the database. */
  datatype Outcome = Done | Refused | Stopped

  function Prefix(parts: seq<string>, n: nat): string
    requires n <= |parts|
  {
    Join(parts[..n], '.')
  }

  /** One round of the loop that adds missing ancestors. */
  lemma AncestorStep(affs: seq<AffRow>, parts: seq<string>, i: nat, level: int)
    requires i < |parts| && AllFree(parts, '.')
    ensures i == 0 ==> Prefix(parts, 1) == parts[0] && !Nested(parts[0])
    ensures i > 0 ==>
              var n := Prefix(parts, i) + "." + parts[i];
              && Prefix(parts, i + 1) == n
              && WithAncestors(affs, n, level) ==
                 InsertAff(WithAncestors(affs, Prefix(parts, i), level), n, Prefix(parts, i), level)
  {
    if i > 0 {
      assert parts[..i + 1] == parts[..i] + [parts[i]];
      JoinConcat(parts[..i], [parts[i]], '.');
      ParentOf(Prefix(parts, i), parts[i]);
    }
  }

  lemma {:induction false} CertOnce(certs: seq<CertRow>, serial: string, aki: string)
    requires UniqueBy(certs, CertKey) && FindCert(certs, serial, aki).Some?
    ensures |Select(certs, KeyIs(serial, aki).Holds)| == 1
  {
    if certs[0].serial == serial && certs[0].aki == aki {
      forall x | x in certs[1..] ensures !KeyIs(serial, aki).Holds(x) {
        var j :| 0 <= j < |certs[1..]| && certs[1..][j] == x;
        assert CertKey(certs[0]) != CertKey(certs[j + 1]);
      }
      KeepAll(certs[1..], KeyIs(serial, aki).Holds);
    } else {
      CertOnce(certs[1..], serial, aki);
    }
  }

  lemma EffectIsPossible(cfg: Config, w: World, q: Request, w': World)
    ensures Effect(cfg, w, q, w') ==> Possible(cfg, w, q)
  {
    hide Effect;
  }

  function CertKeys(rows: seq<CertRow>): (keys: seq<(string, string)>)
    ensures |keys| == |rows| && forall i | 0 <= i < |rows| :: keys[i] == (rows[i].serial, rows[i].aki)
  {
    seq(|rows|, i requires 0 <= i < |rows| => CertKey(rows[i]))
  }

  class Server {
    const cfg: Config
    const db: Accessor
    var issued: set<Cert>
    ghost var registered: set<string>

    constructor (cfg: Config, t: Tables)
      ensures this.cfg == cfg && fresh(db) && State() == World(t, {}, {})
    {
      this.cfg := cfg;
      db := new Accessor(t);
      issued, registered := {}, {};
    }

    ghost function State(): World
      reads this, db
    {
      World(db.State(), issued, registered)
    }

    /** Identities have one row each, and so do certificates; CertsOk has it for every reachable state. */
    predicate Keyed()
      reads this, db
    {
      UniqueBy(db.users, UserKey) && UniqueBy(db.certs, CertKey)
    }

    // ----- authentication and authorization

    method TokenAuthentication(token: Cert) returns (ok: bool)
      ensures ok <==> Authentic(State(), token)
    {
      if token !in issued {
        return false;
      }
      var aki := EncodeToString(token.aki);
      var serial := Hex(token.serial);
      aki := ToLower(TrimLeft(aki, '0'));
      serial := ToLower(TrimLeft(serial, '0'));
      var certs := Select(db.certs, KeyIs(serial, aki).Holds);
      assert certs == Select(db.certs, TokenKey(token).Holds);
      if |certs| == 0 {
        return false;
      }
      for i := 0 to |certs|
        invariant forall j | 0 <= j < i :: !certs[j].revoked
      {
        if certs[i].revoked {
          return false;
        }
      }
      return true;
    }

    method Authenticate(token: Cert) returns (caller: Option<UserRow>)
      ensures caller == Caller(State(), token)
    {
      var ok := TokenAuthentication(token);
      return if ok then FindUser(db.users, token.cn) else None;
    }

    method CallerContains(caller: UserRow, affiliation: string) returns (ok: bool)
      ensures ok == ContainsAffiliation(caller, affiliation)
    {
      var path := Join(Split(caller.affiliation, '.'), '.');
      JoinSplit(caller.affiliation, '.');
      if path == "" {
        return true;
      }
      if affiliation == path {
        return true;
      }
      path := path + ".";
      return path <= affiliation;
    }

    /** CanManageUser. */
    method MayManage(caller: UserRow, user: UserRow) returns (ok: bool)
      ensures ok == CanManageUser(caller, user)
    {
      JoinSplit(user.affiliation, '.');
      ok := CallerContains(caller, Join(Split(user.affiliation, '.'), '.'));
      return ok && CanActOnType(caller, user.kind);
    }

    // ----- affiliations

    /** Adding whatever is missing on the way down to the name. */
    method InsertPath(name: string)
      modifies db`affs
      ensures db.affs == WithAncestors(old(db.affs), name, cfg.affiliationLevel)
    {
      ghost var affs := db.affs;
      var parts := Split(name, '.');
      SplitPartsAreFree(name, '.');
      var path, parentPath := "", "";
      for i := 0 to |parts|
        invariant i == 0 ==> path == "" && parentPath == "" && db.affs == affs
        invariant i > 0 ==> parentPath == Prefix(parts, i) && path == parentPath + "."
        invariant i > 0 ==> db.affs == WithAncestors(affs, parentPath, cfg.affiliationLevel)
      {
        AncestorStep(affs, parts, i, cfg.affiliationLevel);
        path := path + parts[i];
        db.InsertAffiliation(path, parentPath, cfg.affiliationLevel);
        parentPath := path;
        path := path + ".";
      }
      assert parts[..|parts|] == parts;
      JoinSplit(name, '.');
    }

    method AddAffiliation(token: Cert, name: string, force: bool) returns (o: Outcome)
      modifies this, db
      ensures o != Stopped && db.faults == old(db.faults)
      ensures o == Done ==> AddEffect(cfg, old(State()), token, name, force, State())
      ensures o == Refused ==> State() == old(State()) && forall w :: !AddEffect(cfg, State(), token, name, force, w)
    {
      var caller := Authenticate(token);
      if caller.None? || !HasRole(caller.value, AFFILIATION_MGR) {
        return Refused;
      }
      if HasAff(db.affs, name) {
        return Refused;
      }
      var contains := CallerContains(caller.value, name);
      if !contains {
        return Refused;
      }
      if force {
        InsertPath(name);
      } else {
        var parts := Split(name, '.');
        ParentComponents(name);
        if |parts| > 1 {
          var parentPath := Join(parts[..|parts| - 1], '.');
          if !HasAff(db.affs, parentPath) {
            return Refused;
          }
          db.InsertAffiliation(name, parentPath, cfg.affiliationLevel);
        } else {
          db.InsertAffiliation(name, "", cfg.affiliationLevel);
        }
      }
      return Done;
    }

    method RemoveAffiliation(token: Cert, name: string, force: bool, now: int) returns (o: Outcome)
      modifies this, db
      ensures o == Done ==> RemoveEffect(cfg, old(State()), token, name, force, now, State())
      ensures o != Done ==> State() == old(State())
      ensures o == Refused ==> forall w :: !RemoveEffect(cfg, State(), token, name, force, now, w)
      ensures o == Stopped <==> db.faults > old(db.faults)
      ensures db.faults >= old(db.faults)
    {
      var caller := Authenticate(token);
      if caller.None? || !HasRole(caller.value, AFFILIATION_MGR) {
        return Refused;
      }
      if !cfg.removeAffiliations {
        return Refused;
      }
      JoinSplit(caller.value.affiliation, '.');
      if Join(Split(caller.value.affiliation, '.'), '.') == name {
        return Refused;
      }
      var contains := CallerContains(caller.value, name);
      if !contains || !HasRoles(caller.value) {
        return Refused;
      }
      var r := db.DeleteAffiliation(name, force, cfg.removeIdentities, IsRegistrar(caller.value), now);
      return match r case Success(_) => Done case Failure(e) => if e == SqlError then Stopped else Refused;
    }

    method RenameAffiliation(token: Cert, from: string, to: string, force: bool) returns (o: Outcome)
      modifies this, db
      ensures o == Done ==> RenameEffect(old(State()), token, from, to, force, State())
      ensures o != Done ==> State() == old(State())
      ensures o == Refused && (HasAff(State().db.affs, to) || Renamable(State().db, to)) ==>
                forall w :: !RenameEffect(State(), token, from, to, force, w)
      ensures o == Stopped <==> db.faults > old(db.faults)
      ensures db.faults >= old(db.faults)
    {
      var caller := Authenticate(token);
      if caller.None? || !HasRole(caller.value, AFFILIATION_MGR) {
        return Refused;
      }
      var contains := CallerContains(caller.value, from);
      if !contains {
        return Refused;
      }
      contains := CallerContains(caller.value, to);
      if !contains || !HasRoles(caller.value) {
        return Refused;
      }
      var r := db.ModifyAffiliation(from, to, force, IsRegistrar(caller.value));
      return match r case Success(_) => Done case Failure(e) => if e == SqlError then Stopped else Refused;
    }

    // ----- identities

    method NormalizeRequest(reg: Registration, caller: UserRow) returns (req: Registration)
      ensures req == reg.(affiliation := Normalized(reg, caller).affiliation,
                          kind := if reg.kind == "" then caller.kind else reg.kind)
    {
      req := reg;
      if req.affiliation == "" {
        JoinSplit(caller.affiliation, '.');
        req := req.(affiliation := Join(Split(caller.affiliation, '.'), '.'));
      } else if req.affiliation == "." {
        req := req.(affiliation := "");
      }
      if req.kind == "" {
        req := req.(kind := caller.kind);
      }
    }

    /** canRegister; a type still missing becomes "client" on the way. */
    method CanRegister(caller: UserRow, reg: Registration) returns (ok: bool, req: Registration)
      ensures var r := reg.(kind := if reg.kind == "" then "client" else reg.kind);
              && (ok ==> req == r)
              && (ok <==> CanActOnType(caller, r.kind) && ContainsAffiliation(caller, r.affiliation)
                          && ValidAffiliation(db.affs, r.affiliation)
                          && CanRegisterRequested(r.attributes, None, caller.attributes))
    {
      req := reg;
      if !IsRegistrar(caller) {
        return false, req;
      }
      if req.kind == "" {
        req := req.(kind := "client");
      }
      if !StrContained(req.kind, Split(ValueOf(caller.attributes, ROLES), ',')) {
        return false, req;
      }
      var contains := CallerContains(caller, req.affiliation);
      if !contains || !(req.affiliation == "" || HasAff(db.affs, req.affiliation)) {
        return false, req;
      }
      return CanRegisterRequested(req.attributes, None, caller.attributes), req;
    }

    /** registerUserID: the request is completed field by field and inserted. */
    method RegisterUserId(reg: Registration) returns (ok: bool)
      modifies this`registered, db`users
      ensures var r := reg.(secret := if reg.secret == "" then reg.random else reg.secret);
              && (ok <==> AllowedMax(r.maxEnrollments, cfg.maxEnrollments).Some? && !HasUser(old(db.users), r.name))
              && db.users == (if ok then old(db.users) + [RegisteredRow(cfg, r)] else old(db.users))
              && registered == (if ok then old(registered) + {r.name} else old(registered))
    {
      var req := reg;
      if req.secret == "" {
        req := req.(secret := req.random);
      }
      var max := AllowedMax(req.maxEnrollments, cfg.maxEnrollments);
      if max.None? {
        return false;
      }
      ghost var r := req;
      req := req.(maxEnrollments := max.value);
      req := req.(attributes := req.attributes + [Attribute(ENROLLMENT_ID, req.name, true)]);
      req := req.(attributes := req.attributes + [Attribute(TYPE, req.kind, true)]);
      req := req.(attributes := req.attributes + [Attribute(AFFILIATION, req.affiliation, true)]);
      assert req.attributes == RegisteredRow(cfg, r).attributes;
      if FindUser(db.users, req.name).Some? {
        return false;
      }
      db.InsertUser(UserRow(req.name, Hashed(req.secret), req.kind, req.affiliation, req.attributes, 0,
                            req.maxEnrollments, cfg.identityLevel));
      registered := registered + {req.name};
      return true;
    }

    method Register(token: Cert, reg: Registration) returns (o: Outcome)
      modifies this, db
      ensures o != Stopped && db.faults == old(db.faults)
      ensures o == Done ==> RegisterEffect(cfg, old(State()), token, reg, State())
      ensures o == Refused ==> State() == old(State()) && forall w :: !RegisterEffect(cfg, State(), token, reg, w)
    {
      hide CanActOnType, ContainsAffiliation, ValidAffiliation, CanRegisterRequested, AllowedMax, HasUser, Caller;
      var caller := Authenticate(token);
      if caller.None? {
        return Refused;
      }
      var req := NormalizeRequest(reg, caller.value);
      var ok;
      ok, req := CanRegister(caller.value, req);
      if !ok {
        return Refused;
      }
      ok := RegisterUserId(req);
      return if ok then Done else Refused;
    }

    /** getModifyReq: a copy of the user record, edited field by field. */
    method ModifyRequest(user: UserRow, mod: Modification) returns (row: UserRow)
      ensures row == ModifiedRow(user, mod)
    {
      row := user;
      if mod.secret != "" {
        row := row.(pass := Hashed(mod.secret));
      }
      if mod.maxEnrollments == -2 {
        row := row.(maxEnrollments := 0);
      } else if mod.maxEnrollments != 0 {
        row := row.(maxEnrollments := mod.maxEnrollments);
      }
      var reqs := mod.attributes;
      if mod.affiliation == "." {
        row := row.(affiliation := "");
        reqs := reqs + [Attribute(AFFILIATION, "", true)];
      } else if mod.affiliation != "" {
        row := row.(affiliation := mod.affiliation);
        reqs := reqs + [Attribute(AFFILIATION, mod.affiliation, true)];
      }
      if mod.kind != "" {
        row := row.(kind := mod.kind);
        reqs := reqs + [Attribute(TYPE, mod.kind, true)];
      }
      assert reqs == ModificationAttributes(mod);
      if |reqs| != 0 {
        var n := |user.attributes|;
        var a := new Attribute[n](i requires 0 <= i < n => user.attributes[i]);
        assert a[..n] == user.attributes;
        var b, m := GetNewAttributes(a, n, reqs);
        row := row.(attributes := b[..m]);
      }
    }

    method ModifyIdentity(token: Cert, id: string, mod: Modification) returns (o: Outcome)
      requires Keyed()
      modifies this, db
      ensures o != Stopped && db.faults == old(db.faults)
      ensures o == Done ==> ModifyEffect(old(State()), token, id, mod, State())
      ensures o == Refused ==> State() == old(State()) && forall w :: !ModifyEffect(State(), token, id, mod, w)
    {
      var caller := Authenticate(token);
      if caller.None? || id == "" {
        return Refused;
      }
      var user := FindUser(db.users, id);
      if user.None? {
        return Refused;
      }
      var may := MayManage(caller.value, user.value);
      if !may {
        return Refused;
      }
      var row := ModifyRequest(user.value, mod);
      if mod.affiliation != "" && mod.affiliation != "." && !HasAff(db.affs, mod.affiliation) {
        return Refused;
      }
      if mod.affiliation != "" {
        var contains := CallerContains(caller.value, mod.affiliation);
        if !contains {
          return Refused;
        }
      }
      if mod.kind != "" && !CanActOnType(caller.value, mod.kind) {
        return Refused;
      }
      if |mod.attributes| != 0 &&
         !CanRegisterRequested(mod.attributes, Some(user.value.attributes), caller.value.attributes)
      {
        return Refused;
      }
      CountOne(db.users, id);
      var ok := db.UpdateUser(row);
      return if ok then Done else Stopped;
    }

    method RemoveIdentity(token: Cert, id: string, force: bool, now: int) returns (o: Outcome)
      modifies this, db
      ensures o == Done ==> RemoveIdEffect(cfg, old(State()), token, id, force, now, State())
      ensures o != Done ==> State() == old(State())
      ensures o == Refused ==> forall w :: !RemoveIdEffect(cfg, State(), token, id, force, now, w)
      ensures o == Stopped <==> db.faults > old(db.faults)
      ensures db.faults >= old(db.faults)
    {
      var caller := Authenticate(token);
      if caller.None? || !cfg.removeIdentities || id == "" {
        return Refused;
      }
      if id == caller.value.name && !force {
        return Refused;
      }
      var user := FindUser(db.users, id);
      if user.None? {
        return Refused;
      }
      var may := MayManage(caller.value, user.value);
      if !may {
        return Refused;
      }
      var r := db.DeleteUser(id, now);
      return if r.Success? then Done else Stopped;
    }

    // ----- certificates

    /** handleEnroll: check the request, sign, record the certificate. */
    method HandleEnroll(id: string, s: Signing) returns (ok: bool)
      modifies this`issued, db`certs
      ensures ok <==> SigningAllowed(old(State()), id, s)
      ensures State() == if ok then Signed(old(State()), id, s) else old(State())
    {
      if (s.subjectCn.Some? && s.subjectCn.value != id) || s.csrCn != id {
        return false;
      }
      if s.forCa && !AttributeIsTrue(db.users, id, INTERMEDIATE_CA) {
        return false;
      }
      if FindUser(db.users, id).None? {
        return false;
      }
      var decimal := Render(s.serial, 10);
      var row := CertRow(id, StoredSerial(decimal), StoredAki(EncodeToString(s.aki)), false, 0, s.expiry, 0);
      ok := db.InsertCertificate(row);
      if ok {
        issued := issued + {Cert(id, s.serial, s.aki)};
      }
    }

    /** enrollHandler; with nothing in between, the completion finds the count the login saw. */
    method Enroll(id: string, password: string, s: Signing) returns (o: Outcome)
      requires Keyed()
      modifies this, db
      ensures o != Stopped && db.faults == old(db.faults)
      ensures o == Done ==> EnrollEffect(cfg, old(State()), id, password, s, State())
      ensures o == Refused ==> State() == old(State()) && forall w :: !EnrollEffect(cfg, State(), id, password, s, w)
    {
      if cfg.maxEnrollments == 0 {
        return Refused;
      }
      var row := FindUser(db.users, id);
      if row.None? {
        return Refused;
      }
      var user := new DBUser(db, row.value);
      var ok := user.Login(password, cfg.maxEnrollments);
      if !ok {
        return Refused;
      }
      ok := HandleEnroll(id, s);
      if !ok {
        return Refused;
      }
      CompletionMeets(db.users, row.value, password, cfg.maxEnrollments);
      ok := user.LoginComplete();
      return if ok then Done else Stopped;
    }

    method Reenroll(token: Cert, s: Signing) returns (o: Outcome)
      modifies this, db
      ensures o != Stopped && db.faults == old(db.faults)
      ensures o == Done ==> ReenrollEffect(old(State()), token, s, State())
      ensures o == Refused ==> State() == old(State()) && forall w :: !ReenrollEffect(State(), token, s, w)
    {
      var ok := TokenAuthentication(token);
      if !ok {
        return Refused;
      }
      ok := HandleEnroll(token.cn, s);
      return if ok then Done else Refused;
    }

    method ReportKeys(rows: seq<CertRow>) returns (keys: seq<(string, string)>)
      ensures keys == CertKeys(rows)
    {
      keys := [];
      for i := 0 to |rows|
        invariant keys == CertKeys(rows)[..i]
      {
        keys := keys + [(rows[i].serial, rows[i].aki)];
      }
    }

    /**
     revokeHandler, with the keys of the certificates it reports as revoked; the keys of the request are trimmed
     and lower-cased in place first.
    */
    method Revoke(token: Cert, id: string, serial: string, aki: string, reason: int, now: int)
      returns (o: Outcome, revoked: seq<(string, string)>)
      requires Keyed()
      modifies this, db
      ensures o != Stopped && db.faults == old(db.faults)
      ensures o == Done ==>
                revoked ==
                if RequestKey(serial) != "" && RequestKey(aki) != "" then [(RequestKey(serial), RequestKey(aki))]
                else CertKeys(Select(old(db.certs), UnrevokedOf([id]).Holds))
      ensures o == Done ==> RevokeEffect(old(State()), token, id, serial, aki, reason, now, State())
      ensures o == Refused ==>
                && State() == old(State())
                && forall w :: !RevokeEffect(State(), token, id, serial, aki, reason, now, w)
    {
      hide CanManageUser, Caller, AttributeIsTrue, UniqueBy, Select;
      var caller := Authenticate(token);
      if caller.None? || !AttributeIsTrue(db.users, token.cn, REVOKER) {
        return Refused, [];
      }
      var reqAki := TrimLeft(ToLower(aki), '0');
      var reqSerial := TrimLeft(ToLower(serial), '0');
      if reqSerial != "" && reqAki != "" {
        var callerAki := ToLower(TrimLeft(EncodeToString(token.aki), '0'));
        var callerSerial := ToLower(TrimLeft(Hex(token.serial), '0'));
        var cert := FindCert(db.certs, reqSerial, reqAki);
        if cert.None? || cert.value.revoked {
          return Refused, [];
        }
        if id != "" && id != cert.value.id {
          return Refused, [];
        }
        var user := FindUser(db.users, cert.value.id);
        if user.None? {
          return Refused, [];
        }
        if !(reqAki == callerAki && reqSerial == callerSerial) {
          var may := MayManage(caller.value, user.value);
          if !may {
            return Refused, [];
          }
        }
        CertOnce(db.certs, reqSerial, reqAki);
        var ok := db.RevokeCertificate(reqSerial, reqAki, reason, now);
        return if ok then Done else Stopped, [(reqSerial, reqAki)];
      } else if id != "" {
        var user := FindUser(db.users, id);
        if user.None? {
          return Refused, [];
        }
        if caller.value.name != id {
          var may := MayManage(caller.value, user.value);
          if !may {
            return Refused, [];
          }
        }
        CountOne(db.users, id);
        var ok := db.DisableUser(id);
        if !ok {
          return Stopped, [];
        }
        var recs := db.RevokeCertificatesById(id, reason, now);
        revoked := ReportKeys(recs);
        return Done, revoked;
      } else {
        return Refused, [];
      }
    }

    // ----- serving

    /** Any request is one step of the model. */
    method Handle(q: Request) returns (o: Outcome)
      requires Keyed()
      modifies this, db
      ensures o == Done ==> Effect(cfg, old(State()), q, State())
      ensures o != Done ==> State() == old(State())
      ensures o == Refused && Settled(State(), q) ==> !Possible(cfg, State(), q)
      ensures o == Stopped <==> db.faults > old(db.faults)
      ensures db.faults >= old(db.faults)
    {
      hide AddEffect, RemoveEffect, RenameEffect, RegisterEffect, ModifyEffect, RemoveIdEffect, EnrollEffect,
           ReenrollEffect, RevokeEffect, AddAllowed, RemoveAllowed, RegisterAllowed, ModifyAllowed, RemoveIdAllowed,
           SigningAllowed, UniqueBy;
      match q
      case AddAffiliation(token, name, force) => o := AddAffiliation(token, name, force);
      case RemoveAffiliation(token, name, force, now) => o := RemoveAffiliation(token, name, force, now);
      case RenameAffiliation(token, from, to, force) => o := RenameAffiliation(token, from, to, force);
      case Register(token, reg) => o := Register(token, reg);
      case ModifyIdentity(token, id, mod) => o := ModifyIdentity(token, id, mod);
      case RemoveIdentity(token, id, force, now) => o := RemoveIdentity(token, id, force, now);
      case Enroll(id, password, signing) => o := Enroll(id, password, signing);
      case Reenroll(token, signing) => o := Reenroll(token, signing);
      case Revoke(token, id, serial, aki, reason, now) =>
        var keys;
        o, keys := Revoke(token, id, serial, aki, reason, now);
    }

    /**
     Serving requests one after another is a run of the model, and keeps what runs keep. What is done has its
     effect, what is not changes nothing, and where the database has no fault exactly what is permitted is done.
    */
    method Serve(qs: seq<Request>) returns (os: seq<Outcome>, ghost ws: seq<World>)
      requires CertsOk(State())
      modifies this, db
      ensures Run(cfg, ws, qs) && ws[0] == old(State()) && ws[|qs|] == State()
      ensures CertsOk(State())
      ensures |os| == |qs|
      ensures forall k | 0 <= k < |qs| ::
                if os[k] == Done then Effect(cfg, ws[k], qs[k], ws[k + 1]) else ws[k + 1] == ws[k]
      ensures forall k | 0 <= k < |qs| && Settled(ws[k], qs[k]) && os[k] != Stopped ::
                os[k] == Done <==> Permitted(cfg, ws[k], qs[k])
      ensures Stopped in os <==> db.faults > old(db.faults)
    {
      hide Effect, GoodCertsOwned, IssuedRecorded, UniqueBy, Permitted, Possible, Settled;
      os, ws := [], [State()];
      for i := 0 to |qs|
        invariant |os| == i && |ws| == i + 1 && ws[0] == old(State()) && ws[i] == State()
        invariant CertsOk(State())
        invariant forall k | 0 <= k < i ::
                    if os[k] == Done then Effect(cfg, ws[k], qs[k], ws[k + 1]) else ws[k + 1] == ws[k]
        invariant forall k | 0 <= k < i && Settled(ws[k], qs[k]) && os[k] != Stopped ::
                    os[k] == Done <==> Permitted(cfg, ws[k], qs[k])
        invariant Stopped in os <==> db.faults > old(db.faults)
        invariant db.faults >= old(db.faults)
      {
        ghost var w := State();
        var o := Handle(qs[i]);
        StepKeepsCerts(cfg, w, qs[i], State());
        if Settled(w, qs[i]) {
          PossibleIff(cfg, w, qs[i]);
          assert o == Done ==> Possible(cfg, w, qs[i]) by {
            EffectIsPossible(cfg, w, qs[i], State());
          }
        }
        os, ws := os + [o], ws + [State()];
      }
    }
  }
}
