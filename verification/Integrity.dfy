/**
 Referential integrity over runs: affiliation names stay unique and parent-closed, identities unique,
 and every identity's affiliation is the root or a row, as long as renames respect their guard.
*/
module Integrity {
  import opened Paths
  import opened Attributes
  import opened Tables
  import opened Delegation
  import opened Registry
  import opened AffiliationTable
  import opened Handlers
  import opened Safety

  /** The condition on renames; every other request is unconditional. */
  predicate Guarded(w: World, q: Request) {
    q.RenameAffiliation? ==> SafeTarget(w.db, q.name, q.newName)
  }

  lemma AddKeepsConsistent(cfg: Config, t: Tables, name: string, force: bool)
    requires Consistent(t) && (force || !Nested(name) || HasAff(t.affs, Parent(name)))
    ensures Consistent(t.(affs := AffAdded(cfg, t.affs, name, force)))
  {
    var after := AffAdded(cfg, t.affs, name, force);
    if force {
      ForcedAdd(t.affs, name, cfg.affiliationLevel);
    } else {
      InsertKeeps(t.affs, name, cfg.affiliationLevel);
      forall n ensures HasAff(t.affs, n) ==> HasAff(after, n) {
        HasInsert(t.affs, name, Parent(name), cfg.affiliationLevel, n);
      }
    }
    assert Affiliated(after, t.users);
  }

  lemma AppendKeepsConsistent(t: Tables, row: UserRow)
    requires Consistent(t) && !HasUser(t.users, row.name) && ValidAffiliation(t.affs, row.affiliation)
    ensures Consistent(t.(users := t.users + [row]))
  {
  }

  lemma RemoveUsersKeepsConsistent(t: Tables, ids: seq<string>, reason: int, now: int)
    requires Consistent(t)
    ensures Consistent(RemoveUsers(t, ids, reason, now))
  {
    var rest := Delete(t.users, IdIn(ids).Holds);
    KeepUnique(t.users, UserKey, IdIn(ids).Holds, false);
    forall i | 0 <= i < |rest| ensures rest[i].affiliation == "" || HasAff(t.affs, rest[i].affiliation) {
      KeepMember(t.users, IdIn(ids).Holds, false, rest[i]);
      var k :| 0 <= k < |t.users| && t.users[k] == rest[i];
    }
  }

  lemma UpdateKeepsConsistent(t: Tables, users': seq<UserRow>, certs': seq<CertRow>)
    requires Consistent(t) && |users'| == |t.users|
    requires forall i | 0 <= i < |users'| :: users'[i].name == t.users[i].name
    requires forall i | 0 <= i < |users'| ::
               users'[i].affiliation == t.users[i].affiliation || ValidAffiliation(t.affs, users'[i].affiliation)
    ensures Consistent(Tables(t.affs, users', certs'))
  {
    SameKeys(t.users, users');
  }

  lemma ModifiedIsAffiliated(w: World, caller: UserRow, id: string, mod: Modification)
    requires ModifyAllowed(w, caller, id, mod)
    ensures FindUser(w.db.users, id).Some?
    ensures var user := FindUser(w.db.users, id).value;
            var row := ModifiedRow(user, mod);
            && row.name == user.name == id
            && (row.affiliation == user.affiliation || ValidAffiliation(w.db.affs, row.affiliation))
  {
    hide CanManageUser, CanActOnType, ContainsAffiliation, CanRegisterRequested, NewAttributes, ModificationAttributes;
  }

  lemma ReplaceKeepsConsistent(t: Tables, id: string, row: UserRow)
    requires Consistent(t) && FindUser(t.users, id).Some? && row.name == id
    requires row.affiliation == FindUser(t.users, id).value.affiliation || ValidAffiliation(t.affs, row.affiliation)
    ensures Consistent(t.(users := UpdateUsers(t.users, IdIs(id), SetRow(row))))
  {
    FoundUnique(t.users, id);
    hide Consistent, FindUser, ValidAffiliation;
    UpdateKeepsConsistent(t, UpdateUsers(t.users, IdIs(id), SetRow(row)), t.certs);
  }

  lemma ModifyKeepsConsistent(w: World, token: Cert, id: string, mod: Modification, w': World)
    requires Consistent(w.db) && ModifyEffect(w, token, id, mod, w')
    ensures Consistent(w'.db)
  {
    hide Consistent, ModifyAllowed, ModifiedRow, Caller;
    ModifiedIsAffiliated(w, Caller(w, token).value, id, mod);
    ReplaceKeepsConsistent(w.db, id, ModifiedRow(FindUser(w.db.users, id).value, mod));
  }

  lemma AffiliationStepKeepsConsistent(cfg: Config, w: World, q: Request, w': World)
    requires Consistent(w.db) && Effect(cfg, w, q, w') && Guarded(w, q)
    requires q.AddAffiliation? || q.RemoveAffiliation? || q.RenameAffiliation?
    ensures Consistent(w'.db)
  {
    hide Consistent;
    match q
    case AddAffiliation(token, name, force) => AddKeepsConsistent(cfg, w.db, name, force);
    case RemoveAffiliation(token, name, force, now) => DeleteKeepsConsistent(w.db, name, now);
    case RenameAffiliation(token, from, to, force) =>
      AbsentMeansRenamable(w.db, to);
      RenameKeepsConsistent(w.db, from, to, w'.db);
  }

  lemma CertStepKeepsConsistent(cfg: Config, w: World, q: Request, w': World)
    requires Consistent(w.db) && Effect(cfg, w, q, w')
    requires q.Enroll? || q.Reenroll? || q.Revoke?
    ensures Consistent(w'.db)
  {
    hide Consistent, SigningAllowed, LoginAllowed, RevokeCertAllowed, RevokeIdAllowed, Caller, Authentic,
         AttributeIsTrue, NewCertRow, UniqueBy, ValidAffiliation;
    UpdateKeepsConsistent(w.db, w'.db.users, w'.db.certs);
  }

  lemma OtherStepKeepsConsistent(cfg: Config, w: World, q: Request, w': World)
    requires Consistent(w.db) && Effect(cfg, w, q, w')
    requires !(q.AddAffiliation? || q.RemoveAffiliation? || q.RenameAffiliation?)
    ensures Consistent(w'.db)
  {
    hide Consistent, ModifyEffect, RemoveIdAllowed, EnrollEffect, ReenrollEffect, RevokeEffect;
    if q.Register? {
      AppendKeepsConsistent(w.db, RegisteredRow(cfg, Normalized(q.reg, Caller(w, q.token).value)));
    } else if q.ModifyIdentity? {
      ModifyKeepsConsistent(w, q.token, q.id, q.mod, w');
    } else if q.RemoveIdentity? {
      RemoveUsersKeepsConsistent(w.db, [q.id], CESSATION_OF_OPERATION, q.now);
    } else {
      CertStepKeepsConsistent(cfg, w, q, w');
    }
  }

  lemma StepKeepsConsistent(cfg: Config, w: World, q: Request, w': World)
    requires Consistent(w.db) && Step(cfg, w, q, w') && Guarded(w, q)
    ensures Consistent(w'.db)
  {
    hide Consistent, Effect, Guarded;
    if w' == w {
    } else if q.AddAffiliation? || q.RemoveAffiliation? || q.RenameAffiliation? {
      AffiliationStepKeepsConsistent(cfg, w, q, w');
    } else {
      OtherStepKeepsConsistent(cfg, w, q, w');
    }
  }

  /** A rename that succeeds on consistent tables leaves them consistent exactly under the guard. */
  lemma RenameStepConsistentIff(cfg: Config, w: World, q: Request, w': World)
    requires Consistent(w.db) && q.RenameAffiliation? && Effect(cfg, w, q, w')
    ensures Consistent(w'.db) <==> Guarded(w, q)
  {
    AbsentMeansRenamable(w.db, q.newName);
    if Guarded(w, q) {
      RenameKeepsConsistent(w.db, q.name, q.newName, w'.db);
    } else {
      RenameBreaksClosed(w.db, q.name, q.newName, w'.db);
    }
  }

  /** Every state of a run in which what has an effect before it is guarded; refused renames may ask for anything. */
  lemma {:induction false} RunKeepsConsistent(cfg: Config, ws: seq<World>, qs: seq<Request>, i: nat)
    requires Run(cfg, ws, qs) && i < |ws| && Consistent(ws[0].db)
    requires forall j | 0 <= j < i :: ws[j + 1] == ws[j] || Guarded(ws[j], qs[j])
    ensures Consistent(ws[i].db)
  {
    hide Step, Consistent, Guarded;
    if i == 0 {
    } else {
      RunKeepsConsistent(cfg, ws, qs, i - 1);
      if ws[i] != ws[i - 1] {
        StepKeepsConsistent(cfg, ws[i - 1], qs[i - 1], ws[i]);
      }
    }
  }

  lemma EffectiveStepIff(cfg: Config, w: World, q: Request, w': World)
    requires Consistent(w.db) && Step(cfg, w, q, w')
    ensures Consistent(w'.db) <==> w' == w || Guarded(w, q)
  {
    hide Consistent, Effect;
    if w' == w {
    } else if q.RenameAffiliation? {
      RenameStepConsistentIff(cfg, w, q, w');
    } else {
      StepKeepsConsistent(cfg, w, q, w');
    }
  }

  /** All states of a run are consistent exactly if every request that has an effect is guarded. */
  lemma RunConsistentIff(cfg: Config, ws: seq<World>, qs: seq<Request>)
    requires Run(cfg, ws, qs) && Consistent(ws[0].db)
    ensures (forall i | 0 <= i < |ws| :: Consistent(ws[i].db)) <==>
            forall j | 0 <= j < |qs| :: ws[j + 1] == ws[j] || Guarded(ws[j], qs[j])
  {
    hide Step, Consistent, Guarded;
    if forall i | 0 <= i < |ws| :: Consistent(ws[i].db) {
      forall j | 0 <= j < |qs| ensures ws[j + 1] == ws[j] || Guarded(ws[j], qs[j]) {
        EffectiveStepIff(cfg, ws[j], qs[j], ws[j + 1]);
      }
    }
    if forall j | 0 <= j < |qs| :: ws[j + 1] == ws[j] || Guarded(ws[j], qs[j]) {
      forall i | 0 <= i < |ws| ensures Consistent(ws[i].db) {
        RunKeepsConsistent(cfg, ws, qs, i);
      }
    }
  }
}
