/**
 What every run of the server keeps, whatever the requests and their order.
*/
module Safety {
  import opened Paths
  import opened Tables
  import opened Serials
  import opened Registry
  import opened AffiliationTable
  import opened Handlers

  // ----- the invariants

  predicate Active(users: seq<UserRow>, id: string) {
    exists i | 0 <= i < |users| :: users[i].name == id && users[i].state != -1
  }

  /** A certificate that is not revoked belongs to an identity that exists and is not revoked. */
  predicate GoodCertsOwned(t: Tables) {
    forall i | 0 <= i < |t.certs| && !t.certs[i].revoked :: Active(t.users, t.certs[i].id)
  }

  /** The row a certificate was recorded under. */
  predicate Records(row: CertRow, c: Cert) {
    && row.id == c.cn
    && row.serial == StoredSerial(Render(c.serial, 10))
    && row.aki == StoredAki(EncodeToString(c.aki))
  }

  ghost predicate IssuedRecorded(w: World) {
    forall c | c in w.issued :: exists i | 0 <= i < |w.db.certs| :: Records(w.db.certs[i], c)
  }

  ghost predicate CertsOk(w: World) {
    && UniqueBy(w.db.users, UserKey)
    && (forall i | 0 <= i < |w.db.users| :: w.db.users[i].state >= -1)
    && UniqueBy(w.db.certs, CertKey)
    && (forall i | 0 <= i < |w.db.certs| :: w.db.certs[i].serial != "")
    && GoodCertsOwned(w.db)
    && IssuedRecorded(w)
  }

  /** The state after loading the configuration: bootstrap identities only, no certificate yet. */
  predicate Initial(w: World, boot: seq<UserRow>) {
    && w.db.users == boot && UniqueBy(boot, UserKey)
    && (forall i | 0 <= i < |boot| :: boot[i].state == 0)
    && w.db.certs == [] && w.issued == {} && w.registered == {}
  }

  // ----- certificates

  lemma ActiveAfter(users: seq<UserRow>, users': seq<UserRow>, id: string)
    requires Active(users, id) && |users'| >= |users|
    requires forall i | 0 <= i < |users| :: users'[i].name == users[i].name
    requires forall i | 0 <= i < |users| && users[i].name == id && users[i].state != -1 :: users'[i].state != -1
    ensures Active(users', id)
  {
    var i :| 0 <= i < |users| && users[i].name == id && users[i].state != -1;
    assert users'[i].name == id && users'[i].state != -1;
  }

  lemma GoodAfter(t: Tables, users': seq<UserRow>)
    requires GoodCertsOwned(t) && |users'| >= |t.users|
    requires forall i | 0 <= i < |t.users| :: users'[i].name == t.users[i].name
    requires forall i | 0 <= i < |t.users| && t.users[i].state != -1 :: users'[i].state != -1
    ensures GoodCertsOwned(t.(users := users'))
  {
    forall i | 0 <= i < |t.certs| && !t.certs[i].revoked ensures Active(users', t.certs[i].id) {
      ActiveAfter(t.users, users', t.certs[i].id);
    }
  }

  /** Revoking rows in place changes no key and no owner. */
  lemma RecordedAfter(w: World, w': World)
    requires IssuedRecorded(w) && w'.issued == w.issued
    requires |w'.db.certs| == |w.db.certs|
    requires forall i | 0 <= i < |w.db.certs| ::
               w'.db.certs[i] == w.db.certs[i].(revoked := w'.db.certs[i].revoked, reason := w'.db.certs[i].reason,
                                                revokedAt := w'.db.certs[i].revokedAt)
    ensures IssuedRecorded(w')
    ensures UniqueBy(w.db.certs, CertKey) ==> UniqueBy(w'.db.certs, CertKey)
    ensures forall i | 0 <= i < |w.db.certs| :: w'.db.certs[i].serial == w.db.certs[i].serial
  {
    forall c | c in w'.issued ensures exists i | 0 <= i < |w'.db.certs| :: Records(w'.db.certs[i], c) {
      var i :| 0 <= i < |w.db.certs| && Records(w.db.certs[i], c);
      assert Records(w'.db.certs[i], c);
    }
    if UniqueBy(w.db.certs, CertKey) {
      forall i, j | 0 <= i < j < |w'.db.certs| ensures CertKey(w'.db.certs[i]) != CertKey(w'.db.certs[j]) {
        assert CertKey(w.db.certs[i]) != CertKey(w.db.certs[j]);
      }
    }
  }

  /** Removing identities together with their certificates. */
  lemma RemoveKeepsCerts(w: World, ids: seq<string>, reason: int, now: int, affs: seq<AffRow>)
    requires CertsOk(w)
    ensures CertsOk(w.(db := RemoveUsers(w.db, ids, reason, now).(affs := affs)))
  {
    var w' := w.(db := RemoveUsers(w.db, ids, reason, now).(affs := affs));
    KeepUnique(w.db.users, UserKey, IdIn(ids).Holds, false);
    forall i | 0 <= i < |w'.db.users| ensures w'.db.users[i].state >= -1 {
      KeepMember(w.db.users, IdIn(ids).Holds, false, w'.db.users[i]);
    }
    RecordedAfter(w, w');
    forall i | 0 <= i < |w'.db.certs| && !w'.db.certs[i].revoked ensures Active(w'.db.users, w'.db.certs[i].id) {
      var id := w.db.certs[i].id;
      var k :| 0 <= k < |w.db.users| && w.db.users[k].name == id && w.db.users[k].state != -1;
      KeepMember(w.db.users, IdIn(ids).Holds, false, w.db.users[k]);
      var j :| 0 <= j < |w'.db.users| && w'.db.users[j] == w.db.users[k];
    }
  }

  lemma SignedKeepsCerts(w: World, id: string, s: Signing)
    requires CertsOk(w) && SigningAllowed(w, id, s) && Active(w.db.users, id)
    ensures CertsOk(Signed(w, id, s))
  {
    var w' := Signed(w, id, s);
    var c := Cert(id, s.serial, s.aki);
    forall d | d in w'.issued ensures exists i | 0 <= i < |w'.db.certs| :: Records(w'.db.certs[i], d) {
      if d == c {
        assert Records(w'.db.certs[|w.db.certs|], c);
      } else {
        var i :| 0 <= i < |w.db.certs| && Records(w.db.certs[i], d);
        assert Records(w'.db.certs[i], d);
      }
    }
    forall i, j | 0 <= i < j < |w'.db.certs| ensures CertKey(w'.db.certs[i]) != CertKey(w'.db.certs[j]) {
    }
  }

  /** A lookup with a token meets the row the certificate was recorded under, or no row with a serial. */
  lemma TokenKeyMeets(row: CertRow, token: Cert)
    requires TokenKey(token).Holds(row) && row.serial != ""
    ensures token.serial > 0
    ensures row.serial == StoredSerial(Render(token.serial, 10)) && row.aki == StoredAki(EncodeToString(token.aki))
  {
    SerialSurvives(token.serial);
    SerialLookup(token.serial);
    AkiLookup(token.aki);
  }

  lemma AuthenticRow(w: World, token: Cert) returns (j: nat)
    requires Authentic(w, token)
    ensures j < |w.db.certs| && TokenKey(token).Holds(w.db.certs[j]) && !w.db.certs[j].revoked
  {
    var rows := Select(w.db.certs, TokenKey(token).Holds);
    KeepMember(w.db.certs, TokenKey(token).Holds, true, rows[0]);
    j :| 0 <= j < |w.db.certs| && w.db.certs[j] == rows[0];
  }

  /** The record a token is looked up under is the one made when it was issued. */
  lemma AuthenticRecord(w: World, token: Cert) returns (i: nat)
    requires CertsOk(w) && Authentic(w, token)
    ensures i < |w.db.certs| && Records(w.db.certs[i], token) && !w.db.certs[i].revoked
    ensures token.serial > 0
  {
    i := AuthenticRow(w, token);
    TokenKeyMeets(w.db.certs[i], token);
    var k :| 0 <= k < |w.db.certs| && Records(w.db.certs[k], token);
    assert CertKey(w.db.certs[i]) == CertKey(w.db.certs[k]);
  }

  lemma AuthenticNotRevoked(w: World, c: Cert, r: nat)
    requires CertsOk(w) && Authentic(w, c) && r < |w.db.certs| && Records(w.db.certs[r], c)
    ensures !w.db.certs[r].revoked
  {
    var k := AuthenticRecord(w, c);
    assert CertKey(w.db.certs[k]) == CertKey(w.db.certs[r]);
  }

  /** Whoever authenticates with a token is an identity that exists and is not revoked. */
  lemma AuthenticIsActive(w: World, token: Cert)
    requires CertsOk(w) && Authentic(w, token)
    ensures Active(w.db.users, token.cn)
  {
    var i := AuthenticRecord(w, token);
    assert Active(w.db.users, w.db.certs[i].id);
  }

  lemma RegisterKeepsCerts(w: World, row: UserRow)
    requires CertsOk(w) && !HasUser(w.db.users, row.name) && row.state >= -1
    ensures CertsOk(w.(db := w.db.(users := w.db.users + [row]), registered := w.registered + {row.name}))
  {
    GoodAfter(w.db, w.db.users + [row]);
  }

  /** Replacing user rows by rows of the same identities that are no more revoked than before. */
  lemma UsersKeepCerts(w: World, users': seq<UserRow>)
    requires CertsOk(w) && |users'| == |w.db.users|
    requires forall i | 0 <= i < |users'| ::
               users'[i].name == w.db.users[i].name && users'[i].state >= w.db.users[i].state
    ensures CertsOk(w.(db := w.db.(users := users')))
  {
    SameKeys(w.db.users, users');
    GoodAfter(w.db, users');
  }

  lemma LoggedInIsActive(users: seq<UserRow>, id: string, password: string, caMax: int)
    requires FindUser(users, id).Some? && LoginAllowed(FindUser(users, id).value, password, caMax)
    ensures Active(users, id)
  {
    var k :| 0 <= k < |users| && users[k] == FindUser(users, id).value;
  }

  lemma EnrollKeepsCerts(w: World, id: string, s: Signing, password: string, caMax: int)
    requires CertsOk(w) && SigningAllowed(w, id, s)
    requires LoginAllowed(FindUser(w.db.users, id).value, password, caMax)
    ensures var x := Signed(w, id, s);
            CertsOk(x.(db := x.db.(users := UpdateUsers(x.db.users, IdIs(id), IncrementState))))
  {
    hide CertsOk, LoginAllowed, Active;
    LoggedInIsActive(w.db.users, id, password, caMax);
    SignedKeepsCerts(w, id, s);
    hide SigningAllowed;
    UsersKeepCerts(Signed(w, id, s), UpdateUsers(w.db.users, IdIs(id), IncrementState));
  }

  lemma RevokeKeepsCerts(w: World, q: CertWhere, reason: int, now: int)
    requires CertsOk(w)
    ensures CertsOk(w.(db := w.db.(certs := RevokeCerts(w.db.certs, q, reason, now))))
  {
    RecordedAfter(w, w.(db := w.db.(certs := RevokeCerts(w.db.certs, q, reason, now))));
  }

  lemma RevokeIdKeepsCerts(w: World, id: string, reason: int, now: int)
    requires CertsOk(w)
    ensures CertsOk(w.(db := IdRevoked(w.db, id, reason, now)))
  {
    var t' := IdRevoked(w.db, id, reason, now);
    RecordedAfter(w, w.(db := t'));
    SameKeys(w.db.users, t'.users);
    forall i | 0 <= i < |t'.certs| && !t'.certs[i].revoked ensures Active(t'.users, t'.certs[i].id) {
      ActiveAfter(w.db.users, t'.users, w.db.certs[i].id);
    }
  }

  lemma RenameKeepsCerts(w: World, t': Tables, to: string)
    requires CertsOk(w) && CarriedAll(w.db.users, t'.users, to) && t'.certs == w.db.certs
    ensures CertsOk(w.(db := t'))
  {
    forall i | 0 <= i < |w.db.users|
      ensures t'.users[i].name == w.db.users[i].name && t'.users[i].state == w.db.users[i].state
    {
      assert Carried(w.db.users[i], t'.users[i]);
    }
    UsersKeepCerts(w, t'.users);
    AffsKeepCerts(w.(db := w.db.(users := t'.users)), t'.affs);
  }

  lemma AffsKeepCerts(w: World, affs: seq<AffRow>)
    requires CertsOk(w)
    ensures CertsOk(w.(db := w.db.(affs := affs)))
  {
    RecordedAfter(w, w.(db := w.db.(affs := affs)));
  }

  lemma ModifyKeepsCerts(w: World, id: string, mod: Modification)
    requires CertsOk(w) && FindUser(w.db.users, id).Some?
    ensures var row := ModifiedRow(FindUser(w.db.users, id).value, mod);
            CertsOk(w.(db := w.db.(users := UpdateUsers(w.db.users, IdIs(id), SetRow(row)))))
  {
    FoundUnique(w.db.users, id);
    var row := ModifiedRow(FindUser(w.db.users, id).value, mod);
    UsersKeepCerts(w, UpdateUsers(w.db.users, IdIs(id), SetRow(row)));
  }

  /** Requests on affiliations. */
  lemma AffiliationStepKeepsCerts(cfg: Config, w: World, q: Request, w': World)
    requires CertsOk(w) && Effect(cfg, w, q, w')
    requires q.AddAffiliation? || q.RemoveAffiliation? || q.RenameAffiliation?
    ensures CertsOk(w')
  {
    match q
    case AddAffiliation(token, name, force) => AffsKeepCerts(w, w'.db.affs);
    case RemoveAffiliation(token, name, force, now) =>
      RemoveKeepsCerts(w, UserNames(UsersUnder(w.db, name)), AFFILIATION_CHANGED, now, w'.db.affs);
    case RenameAffiliation(token, from, to, force) => RenameKeepsCerts(w, w'.db, to);
  }

  /** Requests on identities. */
  lemma IdentityStepKeepsCerts(cfg: Config, w: World, q: Request, w': World)
    requires CertsOk(w) && Effect(cfg, w, q, w')
    requires q.Register? || q.ModifyIdentity? || q.RemoveIdentity?
    ensures CertsOk(w')
  {
    match q
    case Register(token, reg) => RegisterKeepsCerts(w, RegisteredRow(cfg, Normalized(reg, Caller(w, token).value)));
    case ModifyIdentity(token, id, mod) => ModifyKeepsCerts(w, id, mod);
    case RemoveIdentity(token, id, force, now) =>
      RemoveKeepsCerts(w, [id], CESSATION_OF_OPERATION, now, w.db.affs);
  }

  /** Requests on certificates. */
  lemma CertStepKeepsCerts(cfg: Config, w: World, q: Request, w': World)
    requires CertsOk(w) && Effect(cfg, w, q, w')
    requires q.Enroll? || q.Reenroll? || q.Revoke?
    ensures CertsOk(w')
  {
    match q
    case Enroll(id, password, signing) => EnrollKeepsCerts(w, id, signing, password, cfg.maxEnrollments);
    case Reenroll(token, signing) =>
      AuthenticIsActive(w, token);
      SignedKeepsCerts(w, token.cn, signing);
    case Revoke(token, id, serial, aki, reason, now) =>
      RevokeKeepsCerts(w, KeyIs(RequestKey(serial), RequestKey(aki)), reason, now);
      RevokeIdKeepsCerts(w, id, reason, now);
  }

  lemma StepKeepsCerts(cfg: Config, w: World, q: Request, w': World)
    requires CertsOk(w) && Step(cfg, w, q, w')
    ensures CertsOk(w')
  {
    if w' == w {
    } else if q.AddAffiliation? || q.RemoveAffiliation? || q.RenameAffiliation? {
      AffiliationStepKeepsCerts(cfg, w, q, w');
    } else if q.Register? || q.ModifyIdentity? || q.RemoveIdentity? {
      IdentityStepKeepsCerts(cfg, w, q, w');
    } else {
      CertStepKeepsCerts(cfg, w, q, w');
    }
  }

  lemma FoundUnique(users: seq<UserRow>, id: string)
    requires UniqueBy(users, UserKey) && FindUser(users, id).Some?
    ensures forall i | 0 <= i < |users| && users[i].name == id :: users[i] == FindUser(users, id).value
  {
    var k :| 0 <= k < |users| && users[k] == FindUser(users, id).value;
    forall i | 0 <= i < |users| && users[i].name == id ensures i == k {
      assert UserKey(users[i]) == UserKey(users[k]);
    }
  }

  // ----- revocation is final

  /** Certificate rows are only added and only ever become revoked. */
  predicate CertsGrow(before: seq<CertRow>, after: seq<CertRow>) {
    && |before| <= |after|
    && forall i | 0 <= i < |before| ::
         && CertKey(after[i]) == CertKey(before[i]) && after[i].id == before[i].id
         && (before[i].revoked ==> after[i].revoked)
  }

  lemma RevokeGrows(certs: seq<CertRow>, q: CertWhere, reason: int, now: int)
    ensures CertsGrow(certs, RevokeCerts(certs, q, reason, now))
  {
  }

  lemma StepGrowsCerts(cfg: Config, w: World, q: Request, w': World)
    requires Step(cfg, w, q, w')
    ensures CertsGrow(w.db.certs, w'.db.certs) && w.issued <= w'.issued
  {
    hide CertsGrow;
    if w' == w || q.AddAffiliation? || q.RenameAffiliation? || q.Register? || q.ModifyIdentity? {
      GrowsSame(w.db.certs);
    } else if q.RemoveAffiliation? {
      RevokeGrows(w.db.certs, UnrevokedOf(UserNames(UsersUnder(w.db, q.name))), AFFILIATION_CHANGED, q.now);
    } else if q.RemoveIdentity? {
      RevokeGrows(w.db.certs, UnrevokedOf([q.id]), CESSATION_OF_OPERATION, q.now);
    } else if q.Revoke? {
      RevokeGrows(w.db.certs, UnrevokedOf([q.id]), q.reason, q.now);
      RevokeGrows(w.db.certs, KeyIs(RequestKey(q.serial), RequestKey(q.aki)), q.reason, q.now);
    } else {
      GrowsMore(w.db.certs, NewCertRow(if q.Enroll? then q.id else q.token.cn, q.signing));
    }
  }

  lemma GrowsSame(certs: seq<CertRow>)
    ensures CertsGrow(certs, certs)
  {
  }

  lemma GrowsMore(certs: seq<CertRow>, row: CertRow)
    ensures CertsGrow(certs, certs + [row])
  {
  }

  lemma {:induction false} RunGrowsCerts(cfg: Config, ws: seq<World>, qs: seq<Request>, i: nat, j: nat)
    requires Run(cfg, ws, qs) && i <= j < |ws|
    ensures CertsGrow(ws[i].db.certs, ws[j].db.certs) && ws[i].issued <= ws[j].issued
    decreases j
  {
    hide Step;
    if i < j {
      RunGrowsCerts(cfg, ws, qs, i, j - 1);
      StepGrowsCerts(cfg, ws[j - 1], qs[j - 1], ws[j]);
    }
  }

  lemma InitialCerts(w: World, boot: seq<UserRow>)
    requires Initial(w, boot)
    ensures CertsOk(w)
  {
  }

  /** In every reachable state, good certificates have live owners. */
  lemma {:induction false} RunKeepsCerts(cfg: Config, boot: seq<UserRow>, ws: seq<World>, qs: seq<Request>, i: nat)
    requires Run(cfg, ws, qs) && Initial(ws[0], boot) && i < |ws|
    ensures CertsOk(ws[i])
  {
    hide Step, CertsOk, Initial;
    if i > 0 {
      var j := i - 1;
      RunKeepsCerts(cfg, boot, ws, qs, j);
      assert Step(cfg, ws[j], qs[j], ws[j + 1]);
      StepKeepsCerts(cfg, ws[j], qs[j], ws[j + 1]);
    } else {
      InitialCerts(ws[0], boot);
    }
  }

  /**
   Once an identity is revoked or gone, no certificate issued to it before ever authenticates again,
   in any continuation of the run, even if the name is registered anew.
  */
  lemma InactiveIsFinal(cfg: Config, boot: seq<UserRow>, ws: seq<World>, qs: seq<Request>, i: nat, j: nat, c: Cert)
    requires Run(cfg, ws, qs) && Initial(ws[0], boot) && i <= j < |ws|
    requires c in ws[i].issued && !Active(ws[i].db.users, c.cn)
    ensures !Authentic(ws[j], c)
  {
    RunKeepsCerts(cfg, boot, ws, qs, i);
    RunKeepsCerts(cfg, boot, ws, qs, j);
    RunGrowsCerts(cfg, ws, qs, i, j);
    var r :| 0 <= r < |ws[i].db.certs| && Records(ws[i].db.certs[r], c);
    assert ws[i].db.certs[r].revoked;
    if Authentic(ws[j], c) {
      AuthenticNotRevoked(ws[j], c, r);
    }
  }

  /** The same for a single certificate whose record is revoked. */
  lemma RevokedCertIsFinal(cfg: Config, boot: seq<UserRow>, ws: seq<World>, qs: seq<Request>, i: nat, j: nat, c: Cert,
                           r: nat)
    requires Run(cfg, ws, qs) && Initial(ws[0], boot) && i <= j < |ws|
    requires r < |ws[i].db.certs| && Records(ws[i].db.certs[r], c) && ws[i].db.certs[r].revoked
    ensures !Authentic(ws[j], c)
  {
    RunKeepsCerts(cfg, boot, ws, qs, j);
    RunGrowsCerts(cfg, ws, qs, i, j);
    if Authentic(ws[j], c) {
      AuthenticNotRevoked(ws[j], c, r);
    }
  }

  lemma RemovedIsInactive(t: Tables, ids: seq<string>, reason: int, now: int, id: string)
    requires id in ids
    ensures !Active(RemoveUsers(t, ids, reason, now).users, id)
  {
    var rest := RemoveUsers(t, ids, reason, now).users;
    forall i | 0 <= i < |rest| ensures rest[i].name != id {
      KeepMember(t.users, IdIn(ids).Holds, false, rest[i]);
    }
  }

  /** Requests that end an identity: revoking it by name, removing it, removing an affiliation it is under. */
  predicate Ends(users: seq<UserRow>, q: Request, id: string) {
    || (q.Revoke? && q.id == id && (RequestKey(q.serial) == "" || RequestKey(q.aki) == ""))
    || (q.RemoveIdentity? && q.id == id)
    || (q.RemoveAffiliation? && exists u | u in users :: u.name == id && AtOrBelow(q.name, u.affiliation))
  }

  lemma EndingRequests(cfg: Config, w: World, q: Request, w': World, id: string)
    requires CertsOk(w) && Effect(cfg, w, q, w') && Ends(w.db.users, q, id)
    ensures !Active(w'.db.users, id)
  {
    hide Active;
    if q.RemoveIdentity? {
      RemovedIsInactive(w.db, [id], CESSATION_OF_OPERATION, q.now, id);
    } else if q.RemoveAffiliation? {
      var u :| u in w.db.users && u.name == id && AtOrBelow(q.name, u.affiliation);
      NamesUnder(w.db, q.name, u);
      RemovedIsInactive(w.db, UserNames(UsersUnder(w.db, q.name)), AFFILIATION_CHANGED, q.now, id);
    } else {
      DisabledIsInactive(w.db, id, q.reason, q.now);
    }
  }

  /** After such a request no certificate issued to the identity before it authenticates, ever. */
  lemma EndedIsFinal(cfg: Config, boot: seq<UserRow>, ws: seq<World>, qs: seq<Request>, i: nat, j: nat, c: Cert)
    requires Run(cfg, ws, qs) && Initial(ws[0], boot) && i < j < |ws|
    requires Effect(cfg, ws[i], qs[i], ws[i + 1]) && Ends(ws[i].db.users, qs[i], c.cn) && c in ws[i].issued
    ensures !Authentic(ws[j], c)
  {
    hide Effect, Ends, Initial, CertsOk, Authentic;
    RunKeepsCerts(cfg, boot, ws, qs, i);
    EndingRequests(cfg, ws[i], qs[i], ws[i + 1], c.cn);
    RunGrowsCerts(cfg, ws, qs, i, i + 1);
    InactiveIsFinal(cfg, boot, ws, qs, i + 1, j, c);
  }

  lemma DisabledIsInactive(t: Tables, id: string, reason: int, now: int)
    ensures !Active(IdRevoked(t, id, reason, now).users, id)
  {
  }
}
