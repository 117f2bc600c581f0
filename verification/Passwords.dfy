/**
 What a password is good for, over all runs: the secret an identity was last given, and no other, enrolls it.
*/
module Passwords {
  import opened Basics
  import opened Tables
  import opened Delegation
  import opened Registry
  import opened Handlers
  import opened Safety
  import opened Scope
  import opened Authority
  import opened Effects

  /** The secret a request gives the identity, if it gives one: its own, or the generated one where it has none. */
  function Given(q: Request, id: string): Option<string> {
    match q
    case Register(_, reg) =>
      if reg.name != id then None else if reg.secret != "" then Some(reg.secret) else Some(reg.random)
    case ModifyIdentity(_, who, mod) => if who == id && mod.secret != "" then Some(mod.secret) else None
    case _ => None
  }

  /** The secret last given by a request that had an effect, or else by the bootstrap entry of the name. */
  ghost function LastSecret(boot: seq<UserRow>, ws: seq<World>, qs: seq<Request>, i: nat, id: string): Option<string>
    requires |ws| == |qs| + 1 && i < |ws|
  {
    if i == 0 then
      match FindUser(boot, id) case Some(u) => Some(u.pass.password) case None => None
    else if ws[i] != ws[i - 1] && Given(qs[i - 1], id).Some? then Given(qs[i - 1], id)
    else LastSecret(boot, ws, qs, i - 1, id)
  }

  /** Every password stored is that of the history. */
  ghost predicate Secrets(boot: seq<UserRow>, ws: seq<World>, qs: seq<Request>, i: nat)
    requires |ws| == |qs| + 1 && i < |ws|
  {
    forall k | 0 <= k < |ws[i].db.users| ::
      LastSecret(boot, ws, qs, i, ws[i].db.users[k].name) == Some(ws[i].db.users[k].pass.password)
  }

  /** The row after a request has the secret given to it, or that of the row of the name before. */
  ghost predicate Inherits(users: seq<UserRow>, q: Request, v: UserRow) {
    || Given(q, v.name) == Some(v.pass.password)
    || (Given(q, v.name) == None && exists i | 0 <= i < |users| :: users[i].name == v.name && users[i].pass == v.pass)
  }

  lemma RegisterInherits(cfg: Config, w: World, q: Request, w': World, k: nat)
    requires q.Register? && Effect(cfg, w, q, w') && k < |w'.db.users|
    ensures Inherits(w.db.users, q, w'.db.users[k])
  {
    assert !HasUser(w.db.users, q.reg.name) by {
      hide Caller, CanActOnType, ContainsAffiliation, CanRegisterRequested, HasUser, ValidAffiliation, AllowedMax;
    }
    RegisterMeans(cfg, w, q, w');
    hide Effect, Caller;
    if k < |w.db.users| {
      assert w.db.users[k] == w'.db.users[k];
    }
  }

  lemma ModifyInherits(cfg: Config, w: World, q: Request, w': World, k: nat)
    requires CertsOk(w) && q.ModifyIdentity? && Effect(cfg, w, q, w') && k < |w'.db.users|
    ensures Inherits(w.db.users, q, w'.db.users[k])
  {
    ModifyMeans(cfg, w, q, w');
    hide Effect, CertsOk, EntryModified;
    assert w.db.users[k].name == w'.db.users[k].name;
  }

  lemma RenameInherits(cfg: Config, w: World, q: Request, w': World, k: nat)
    requires CertsOk(w) && q.RenameAffiliation? && Effect(cfg, w, q, w') && k < |w'.db.users|
    ensures Inherits(w.db.users, q, w'.db.users[k])
  {
    assert CarriedAll(w.db.users, w'.db.users, q.newName);
    hide Effect, CertsOk;
    assert Carried(w.db.users[k], w'.db.users[k]);
  }

  lemma StepInherits(cfg: Config, w: World, q: Request, w': World, k: nat)
    requires CertsOk(w) && Effect(cfg, w, q, w') && k < |w'.db.users|
    ensures Inherits(w.db.users, q, w'.db.users[k])
  {
    hide Effect, CertsOk, Inherits;
    if q.Register? {
      RegisterInherits(cfg, w, q, w', k);
    } else if q.ModifyIdentity? {
      ModifyInherits(cfg, w, q, w', k);
    } else if q.RenameAffiliation? {
      RenameInherits(cfg, w, q, w', k);
    } else {
      OthersStay(cfg, w, q, w');
      StayedInherits(w.db.users, q, w'.db.users, k);
    }
  }

  lemma StayedInherits(users: seq<UserRow>, q: Request, users': seq<UserRow>, k: nat)
    requires Stay(users, users') && k < |users'| && !q.Register? && !q.ModifyIdentity?
    ensures Inherits(users, q, users'[k])
  {
    assert StayedOne(users, users'[k]);
    var i :| 0 <= i < |users| && Stayed(users[i], users'[k]);
  }

  lemma StepKeepsSecrets(cfg: Config, boot: seq<UserRow>, ws: seq<World>, qs: seq<Request>, i: nat)
    requires |ws| == |qs| + 1 && 0 < i < |ws| && CertsOk(ws[i - 1]) && Step(cfg, ws[i - 1], qs[i - 1], ws[i])
    requires Secrets(boot, ws, qs, i - 1)
    ensures Secrets(boot, ws, qs, i)
  {
    hide Effect, CertsOk, Given;
    if ws[i] != ws[i - 1] {
      forall k | 0 <= k < |ws[i].db.users|
        ensures LastSecret(boot, ws, qs, i, ws[i].db.users[k].name) == Some(ws[i].db.users[k].pass.password)
      {
        StepInherits(cfg, ws[i - 1], qs[i - 1], ws[i], k);
      }
    }
  }

  lemma BootSecrets(boot: seq<UserRow>, ws: seq<World>, qs: seq<Request>)
    requires |ws| == |qs| + 1 && Initial(ws[0], boot)
    ensures Secrets(boot, ws, qs, 0)
  {
    forall k | 0 <= k < |boot| ensures LastSecret(boot, ws, qs, 0, boot[k].name) == Some(boot[k].pass.password) {
      FoundIs(boot, k);
    }
  }

  /** In every reachable state the password of every identity is the secret it was last given. */
  lemma {:induction false} RunKeepsSecrets(cfg: Config, boot: seq<UserRow>, ws: seq<World>, qs: seq<Request>, i: nat)
    requires Run(cfg, ws, qs) && Initial(ws[0], boot) && i < |ws|
    ensures Secrets(boot, ws, qs, i)
  {
    hide Step, Initial, Secrets, CertsOk;
    if i == 0 {
      BootSecrets(boot, ws, qs);
    } else {
      RunKeepsSecrets(cfg, boot, ws, qs, i - 1);
      RunKeepsCerts(cfg, boot, ws, qs, i - 1);
      StepKeepsSecrets(cfg, boot, ws, qs, i);
    }
  }

  /** An enrollment that has an effect carries the secret last given to an identity that exists. */
  lemma OnlyLastSecret(cfg: Config, boot: seq<UserRow>, ws: seq<World>, qs: seq<Request>, i: nat)
    requires Run(cfg, ws, qs) && Initial(ws[0], boot) && i < |qs|
    requires qs[i].Enroll? && ws[i + 1] != ws[i]
    ensures HasUser(ws[i].db.users, qs[i].id)
    ensures LastSecret(boot, ws, qs, i, qs[i].id) == Some(qs[i].password)
  {
    assert Step(cfg, ws[i], qs[i], ws[i + 1]);
    hide Effect, Initial, CertsOk, Run, LastSecret;
    EnrollPossibleIff(cfg, boot, ws, qs, i, qs[i].id, qs[i].password, qs[i].signing) by {
      assert Possible(cfg, ws[i], qs[i]);
    }
  }

  /**
   After any history, a password enrolls an identity exactly if it is the secret last given to it, as long as
   the limits and the signing request allow an enrollment at all.
  */
  lemma EnrollPossibleIff(cfg: Config, boot: seq<UserRow>, ws: seq<World>, qs: seq<Request>, i: nat,
                          id: string, password: string, s: Signing)
    requires Run(cfg, ws, qs) && Initial(ws[0], boot) && i < |ws|
    ensures Possible(cfg, ws[i], Enroll(id, password, s)) <==>
            && LastSecret(boot, ws, qs, i, id) == Some(password)
            && exists u | u in ws[i].db.users ::
                 && u.name == id && u.state != -1 && u.maxEnrollments != 0 && cfg.maxEnrollments != 0
                 && (u.maxEnrollments == -1 || u.state < u.maxEnrollments)
                 && (cfg.maxEnrollments == -1 || u.state < cfg.maxEnrollments)
                 && SigningPermitted(ws[i], u, s)
  {
    assert |ws| == |qs| + 1;
    hide Effect, Initial, CertsOk, Run, LastSecret, SigningPermitted, Possible;
    RunKeepsSecrets(cfg, boot, ws, qs, i);
    RunKeepsCerts(cfg, boot, ws, qs, i);
    PossibleIff(cfg, ws[i], Enroll(id, password, s));
    forall u | u in ws[i].db.users ensures LastSecret(boot, ws, qs, i, u.name) == Some(u.pass.password) {
      var k :| 0 <= k < |ws[i].db.users| && ws[i].db.users[k] == u;
    }
  }
}
