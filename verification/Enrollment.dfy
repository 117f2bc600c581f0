/**
 Enrollment as it really interleaves: the statements of any number of enrollments, reenrollments and
 revocations of any identities, in any order.
*/
module Enrollment {
  import opened Basics
  import opened Tables
  import opened Serials
  import opened Registry
  import opened Handlers

  /** The rows LoginComplete updates, for the limit the login ended up with. */
  function CompleteWhere(id: string, max: int): UserWhere {
    if max == -1 then IdIs(id) else IdUnder(id, max)
  }

  /** A user object: a row as it was read, and the limit Login may lower. */
  class DBUser {
    const db: Accessor
    const row: UserRow
    var maxEnrollments: int

    constructor (db: Accessor, row: UserRow)
      ensures this.db == db && this.row == row && maxEnrollments == row.maxEnrollments
    {
      this.db, this.row, maxEnrollments := db, row, row.maxEnrollments;
    }

    method Login(password: string, caMax: int) returns (ok: bool)
      requires maxEnrollments == row.maxEnrollments
      modifies this
      ensures ok <==> LoginOk(row, password, caMax)
      ensures ok <==>
                && row.pass == Hashed(password) && row.maxEnrollments != 0 && row.state != -1
                && (row.maxEnrollments == -1 || row.state < row.maxEnrollments)
                && (caMax == -1 || row.state < caMax)
      ensures ok ==> maxEnrollments == EffectiveMax(row.maxEnrollments, caMax)
    {
      if row.pass != Hashed(password) {
        return false;
      }
      if maxEnrollments == 0 {
        return false;
      }
      if row.state == -1 {
        return false;
      }
      if caMax != -1 && (maxEnrollments > caMax || maxEnrollments == -1) {
        maxEnrollments := caMax;
      }
      return maxEnrollments == -1 || row.state < maxEnrollments;
    }

    /** One conditional UPDATE; the state that was read plays no part in it. */
    method LoginComplete() returns (ok: bool)
      modifies db`users
      ensures db.users == UpdateUsers(old(db.users), CompleteWhere(row.name, maxEnrollments), IncrementState)
      ensures ok <==> |Select(old(db.users), CompleteWhere(row.name, maxEnrollments).Holds)| == 1
    {
      var where := if maxEnrollments == -1 then IdIs(row.name) else IdUnder(row.name, maxEnrollments);
      ok := |Select(db.users, where.Holds)| == 1;
      db.users := UpdateUsers(db.users, where, IncrementState);
    }
  }

  // ----- the interleaving

  /**
   How far a request for a certificate has come: authenticated, its certificate recorded, and the end, which
   is the completion for an enrollment and the certificate for a reenrollment.
  */
  datatype Status = Open | Issued | Counted | Rejected | Renewed

  /** An authenticated request; `max` is the limit the login of an enrollment ended up with. */
  datatype Session = Session(id: string, reenrolls: bool, max: int, status: Status) {
    predicate Pending() {
      status == Open || status == Issued
    }
  }

  /** The single statements and checks of the handlers, in any order and number. */
  datatype Event =
    | LogIn(id: string, password: string)
    | TokenIn(r: nat)
    | Issue(k: nat, signing: Signing)
    | Complete(k: nat)
    | Disable(id: string)
    | RevokeAll(id: string, reason: int, now: int)

  datatype Shared = Shared(users: seq<UserRow>, certs: seq<CertRow>, sessions: seq<Session>)

  function LoggedIn(caMax: int, s: Shared, id: string, password: string): Shared {
    match FindUser(s.users, id)
    case None => s
    case Some(user) =>
      if !LoginAllowed(user, password, caMax) then s
      else s.(sessions := s.sessions + [Session(id, false, EffectiveMax(user.maxEnrollments, caMax), Open)])
  }

  /** Token authentication with the certificate of a row: the row must be found and not be revoked. */
  function TokenAccepted(s: Shared, r: nat): Shared {
    if r >= |s.certs| || s.certs[r].revoked || LookupKey(s.certs[r].serial) != s.certs[r].serial then s
    else s.(sessions := s.sessions + [Session(s.certs[r].id, true, 0, Open)])
  }

  /** The state as the signing checks see it. */
  function Seen(s: Shared): World {
    World(Tables([], s.users, s.certs), {}, {})
  }

  function WithStatus(sessions: seq<Session>, k: nat, status: Status): seq<Session>
    requires k < |sessions|
  {
    sessions[k := sessions[k].(status := status)]
  }

  /** handleEnroll: the certificate is signed and recorded, or the request ends. */
  function CertIssued(s: Shared, k: nat, signing: Signing): Shared {
    if k >= |s.sessions| || s.sessions[k].status != Open then s
    else
      var x := s.sessions[k];
      if !SigningAllowed(Seen(s), x.id, signing) then s.(sessions := WithStatus(s.sessions, k, Rejected))
      else s.(certs := s.certs + [NewCertRow(x.id, signing)],
              sessions := WithStatus(s.sessions, k, if x.reenrolls then Renewed else Issued))
  }

  function Completed(s: Shared, k: nat): Shared {
    if k >= |s.sessions| || s.sessions[k].status != Issued then s
    else
      var where := CompleteWhere(s.sessions[k].id, s.sessions[k].max);
      var status := if |Select(s.users, where.Holds)| == 1 then Counted else Rejected;
      s.(users := UpdateUsers(s.users, where, IncrementState), sessions := WithStatus(s.sessions, k, status))
  }

  function Next(caMax: int, s: Shared, e: Event): Shared {
    match e
    case LogIn(id, password) => LoggedIn(caMax, s, id, password)
    case TokenIn(r) => TokenAccepted(s, r)
    case Issue(k, signing) => CertIssued(s, k, signing)
    case Complete(k) => Completed(s, k)
    case Disable(id) => s.(users := UpdateUsers(s.users, IdIs(id), SetState(-1)))
    case RevokeAll(id, reason, now) => s.(certs := RevokeCerts(s.certs, UnrevokedOf([id]), reason, now))
  }

  function After(caMax: int, s: Shared, es: seq<Event>): Shared {
    if es == [] then s else Next(caMax, After(caMax, s, es[..|es| - 1]), es[|es| - 1])
  }

  function Completions(sessions: seq<Session>, id: string): nat {
    if sessions == [] then 0
    else
      var last := sessions[|sessions| - 1];
      Completions(sessions[..|sessions| - 1], id) + if last.id == id && last.status == Counted then 1 else 0
  }

  function Limit(user: UserRow, caMax: int): int {
    EffectiveMax(user.maxEnrollments, caMax)
  }

  /**
   Only states differ from the table at the start, and every enrollment under way works with the limit of
   an identity that may log in at all.
  */
  ghost predicate Fits(caMax: int, start: seq<UserRow>, s: Shared) {
    && |s.users| == |start|
    && (forall i | 0 <= i < |start| :: s.users[i] == start[i].(state := s.users[i].state))
    && (forall k | 0 <= k < |s.sessions| && !s.sessions[k].reenrolls :: SessionOf(caMax, start, s.sessions[k]))
    && (forall k | 0 <= k < |s.sessions| && s.sessions[k].reenrolls :: s.sessions[k].status !in {Issued, Counted})
  }

  predicate SessionOf(caMax: int, start: seq<UserRow>, x: Session) {
    exists i | 0 <= i < |start| :: Admits(caMax, start[i], x)
  }

  predicate Admits(caMax: int, user: UserRow, x: Session) {
    user.name == x.id && x.max == Limit(user, caMax) && caMax != 0 && user.maxEnrollments != 0
  }

  lemma {:induction false} CompletionsUpdate(sessions: seq<Session>, k: nat, status: Status, id: string)
    requires k < |sessions| && sessions[k].status != Counted
    ensures Completions(WithStatus(sessions, k, status), id) ==
            Completions(sessions, id) + if sessions[k].id == id && status == Counted then 1 else 0
  {
    var n := |sessions| - 1;
    var after := WithStatus(sessions, k, status);
    if k == n {
      assert after[..n] == sessions[..n];
    } else {
      CompletionsUpdate(sessions[..n], k, status, id);
      assert after[..n] == WithStatus(sessions[..n], k, status);
    }
  }

  lemma CompletionsOpen(sessions: seq<Session>, x: Session, id: string)
    requires x.status == Open
    ensures Completions(sessions + [x], id) == Completions(sessions, id)
  {
    assert (sessions + [x])[..|sessions|] == sessions;
  }

  lemma {:induction false} SelectAtMostOne(users: seq<UserRow>, p: UserRow -> bool, i: nat)
    requires i < |users| && forall j | 0 <= j < |users| && j != i :: !p(users[j])
    ensures |Select(users, p)| == if p(users[i]) then 1 else 0
  {
    if i == 0 {
      KeepAll(users[1..], p);
    } else {
      SelectAtMostOne(users[1..], p, i - 1);
    }
  }

  lemma UpdateOne(users: seq<UserRow>, where: UserWhere, i: nat)
    requires i < |users| && forall j | 0 <= j < |users| && j != i :: !where.Holds(users[j])
    ensures UpdateUsers(users, where, IncrementState) ==
            if where.Holds(users[i]) then users[i := IncrementState.On(users[i])] else users
    ensures |Select(users, where.Holds)| == if where.Holds(users[i]) then 1 else 0
  {
    SelectAtMostOne(users, where.Holds, i);
  }

  lemma SessionRow(caMax: int, start: seq<UserRow>, s: Shared, k: nat) returns (i: nat)
    requires Fits(caMax, start, s) && k < |s.sessions| && !s.sessions[k].reenrolls
    ensures i < |start| && Admits(caMax, start[i], s.sessions[k])
  {
    assert SessionOf(caMax, start, s.sessions[k]);
    i :| 0 <= i < |start| && Admits(caMax, start[i], s.sessions[k]);
  }

  lemma OnlyRow(start: seq<UserRow>, users: seq<UserRow>, i: nat, max: int)
    requires UniqueBy(start, UserKey) && |users| == |start| && i < |start|
    requires forall j | 0 <= j < |start| :: users[j].name == start[j].name
    ensures forall j | 0 <= j < |users| && j != i :: !CompleteWhere(start[i].name, max).Holds(users[j])
  {
    forall j | 0 <= j < |users| && j != i ensures users[j].name != start[i].name {
      assert UserKey(start[i]) != UserKey(start[j]);
    }
  }

  /** A completion that follows its login at once meets the one row it is for. */
  lemma CompletionMeets(users: seq<UserRow>, row: UserRow, password: string, caMax: int)
    requires UniqueBy(users, UserKey) && FindUser(users, row.name) == Some(row) && LoginOk(row, password, caMax)
    ensures var where := CompleteWhere(row.name, Limit(row, caMax));
            && |Select(users, where.Holds)| == 1
            && UpdateUsers(users, where, IncrementState) == UpdateUsers(users, IdIs(row.name), IncrementState)
  {
    var i :| 0 <= i < |users| && users[i] == row;
    var where := CompleteWhere(row.name, Limit(row, caMax));
    OnlyRow(users, users, i, Limit(row, caMax));
    OnlyRow(users, users, i, -1);
    assert where.Holds(users[i]) && IdIs(row.name).Holds(users[i]);
    hide Limit, LoginOk, CompleteWhere, FindUser, UniqueBy, UpdateUsers, Select;
    UpdateOne(users, where, i);
    UpdateOne(users, IdIs(row.name), i);
  }

  /** What one completion does: it counts, and adds one, exactly when the limit is not reached. */
  lemma CompleteOne(caMax: int, start: seq<UserRow>, s: Shared, k: nat, i: nat)
    requires UniqueBy(start, UserKey) && Fits(caMax, start, s)
    requires k < |s.sessions| && s.sessions[k].status == Issued
    requires i < |start| && start[i].name == s.sessions[k].id
    ensures var s', limit := Completed(s, k), Limit(start[i], caMax);
            && var counts := limit == -1 || s.users[i].state < limit;
            && s'.sessions == WithStatus(s.sessions, k, if counts then Counted else Rejected)
            && s'.users == if counts then s.users[i := s.users[i].(state := s.users[i].state + 1)] else s.users
  {
    var j := SessionRow(caMax, start, s, k);
    assert i == j by {
      assert UserKey(start[i]) == UserKey(start[j]);
    }
    OnlyRow(start, s.users, i, s.sessions[k].max);
    assert s.users[i].name == start[i].name;
    hide UpdateUsers, Select, Limit, Fits, UniqueBy;
    UpdateOne(s.users, CompleteWhere(s.sessions[k].id, s.sessions[k].max), i);
  }

  lemma LogInFits(caMax: int, start: seq<UserRow>, s: Shared, id: string, password: string)
    requires Fits(caMax, start, s)
    ensures Fits(caMax, start, LoggedIn(caMax, s, id, password))
  {
    var s' := LoggedIn(caMax, s, id, password);
    if s' != s {
      var user := FindUser(s.users, id).value;
      var i :| 0 <= i < |s.users| && s.users[i] == user;
      assert Admits(caMax, start[i], s'.sessions[|s.sessions|]);
    }
  }

  /** A change of status keeps every session what it is. */
  lemma StatusFits(caMax: int, start: seq<UserRow>, s: Shared, s': Shared, k: nat, status: Status)
    requires Fits(caMax, start, s) && k < |s.sessions|
    requires s.sessions[k].reenrolls ==> status !in {Issued, Counted}
    requires |s'.users| == |start|
    requires forall i | 0 <= i < |start| :: s'.users[i] == start[i].(state := s'.users[i].state)
    requires s'.sessions == WithStatus(s.sessions, k, status)
    ensures Fits(caMax, start, s')
  {
    forall m | 0 <= m < |s'.sessions| && !s'.sessions[m].reenrolls ensures SessionOf(caMax, start, s'.sessions[m]) {
      var j := SessionRow(caMax, start, s, m);
      assert Admits(caMax, start[j], s'.sessions[m]);
    }
  }

  lemma NextFits(caMax: int, start: seq<UserRow>, s: Shared, e: Event)
    requires UniqueBy(start, UserKey) && Fits(caMax, start, s)
    ensures Fits(caMax, start, Next(caMax, s, e))
  {
    hide SessionOf, UniqueBy, Select, SigningAllowed, NewCertRow;
    var s' := Next(caMax, s, e);
    match e
    case LogIn(id, password) => LogInFits(caMax, start, s, id, password);
    case TokenIn(r) =>
    case Disable(id) =>
    case RevokeAll(id, reason, now) =>
    case Issue(k, signing) =>
      if s' != s {
        StatusFits(caMax, start, s, s', k, s'.sessions[k].status);
      }
    case Complete(k) =>
      if s' != s {
        StatusFits(caMax, start, s, s', k, s'.sessions[k].status);
      }
  }

  /** What an event other than a completion does to the counting: nothing. */
  lemma OthersCount(caMax: int, s: Shared, e: Event, id: string)
    requires !e.Complete?
    ensures Completions(Next(caMax, s, e).sessions, id) == Completions(s.sessions, id)
  {
    hide SigningAllowed, LoginAllowed, Completions;
    var s' := Next(caMax, s, e);
    if s'.sessions == s.sessions {
    } else if e.Issue? {
      CompletionsUpdate(s.sessions, e.k, s'.sessions[e.k].status, id);
    } else {
      CompletionsOpen(s.sessions, s'.sessions[|s.sessions|], id);
    }
  }

  /** One event, seen by one identity that it does not revoke. */
  lemma NextCounts(caMax: int, start: seq<UserRow>, s: Shared, e: Event, i: nat)
    requires UniqueBy(start, UserKey) && Fits(caMax, start, s) && i < |start|
    requires e != Disable(start[i].name)
    ensures var s', id, limit := Next(caMax, s, e), start[i].name, Limit(start[i], caMax);
            && |s'.users| == |start|
            && s'.users[i].state - s.users[i].state == Completions(s'.sessions, id) - Completions(s.sessions, id)
            && (s'.users[i].state == s.users[i].state
                || (s'.users[i].state == s.users[i].state + 1 && (limit == -1 || s'.users[i].state <= limit)))
  {
    NextFits(caMax, start, s, e);
    if !e.Complete? {
      OthersCount(caMax, s, e, start[i].name);
    } else if Completed(s, e.k) != s {
      var k := e.k;
      var j := SessionRow(caMax, start, s, k);
      CompleteOne(caMax, start, s, k, j);
      CompletionsUpdate(s.sessions, k, Completed(s, k).sessions[k].status, start[i].name);
      if i != j {
        assert UserKey(start[i]) != UserKey(start[j]);
      }
    }
  }

  /**
   However the requests interleave: the stored state is the one at the start plus the completions that
   counted, and it does not pass the limit, the smaller of the user's and the CA's.
  */
  lemma {:induction false} CountingBound(caMax: int, start: seq<UserRow>, certs: seq<CertRow>, es: seq<Event>, i: nat)
    requires UniqueBy(start, UserKey) && i < |start| && Disable(start[i].name) !in es
    ensures var s := After(caMax, Shared(start, certs, []), es);
            && Fits(caMax, start, s)
            && s.users[i].state == start[i].state + Completions(s.sessions, start[i].name)
            && (Limit(start[i], caMax) == -1 || s.users[i].state <= Limit(start[i], caMax)
                || s.users[i].state == start[i].state)
  {
    if es == [] {
    } else {
      hide Next, Fits, UniqueBy, Limit;
      var before, s := es[..|es| - 1], After(caMax, Shared(start, certs, []), es[..|es| - 1]);
      assert Disable(start[i].name) !in before;
      CountingBound(caMax, start, certs, before, i);
      NextCounts(caMax, start, s, es[|es| - 1], i);
      NextFits(caMax, start, s, es[|es| - 1]);
    }
  }

  /** The limit is the minimum of the two, with -1 for no limit on either side. */
  lemma LimitIsMinimum(user: int, ca: int)
    ensures var m := EffectiveMax(user, ca);
            && (m == -1 <==> user == -1 && ca == -1)
            && (m != -1 ==> m in {user, ca} && (user == -1 || m <= user) && (ca == -1 || m <= ca))
  {
  }

  // ----- revocation in between

  /** No enrollment of the identity is under way. */
  predicate NoLoginPending(sessions: seq<Session>, id: string) {
    forall k | 0 <= k < |sessions| && sessions[k].id == id && !sessions[k].reenrolls :: !sessions[k].Pending()
  }

  /** No request of the identity, enrollment or reenrollment, is under way. */
  predicate NonePending(sessions: seq<Session>, id: string) {
    forall k | 0 <= k < |sessions| && sessions[k].id == id :: !sessions[k].Pending()
  }

  predicate IsRevoked(users: seq<UserRow>, id: string) {
    forall i | 0 <= i < |users| && users[i].name == id :: users[i].state == -1
  }

  predicate AllRevoked(certs: seq<CertRow>, id: string) {
    forall i | 0 <= i < |certs| && certs[i].id == id :: certs[i].revoked
  }

  lemma NextStaysRevoked(caMax: int, start: seq<UserRow>, s: Shared, e: Event, id: string)
    requires UniqueBy(start, UserKey) && Fits(caMax, start, s)
    requires IsRevoked(s.users, id) && NoLoginPending(s.sessions, id)
    ensures IsRevoked(Next(caMax, s, e).users, id) && NoLoginPending(Next(caMax, s, e).sessions, id)
  {
    hide SigningAllowed, UniqueBy, Select, UpdateUsers;
    if e.Complete? && Completed(s, e.k) != s {
      var k := e.k;
      var j := SessionRow(caMax, start, s, k);
      CompleteOne(caMax, start, s, k, j);
    }
  }

  lemma {:induction false} StaysRevoked(caMax: int, start: seq<UserRow>, s: Shared, es: seq<Event>, id: string)
    requires UniqueBy(start, UserKey) && Fits(caMax, start, s)
    requires IsRevoked(s.users, id) && NoLoginPending(s.sessions, id)
    ensures var t := After(caMax, s, es);
            Fits(caMax, start, t) && IsRevoked(t.users, id) && NoLoginPending(t.sessions, id)
  {
    if es == [] {
    } else {
      hide Next, Fits, IsRevoked, NoLoginPending, UniqueBy;
      var t := After(caMax, s, es[..|es| - 1]);
      StaysRevoked(caMax, start, s, es[..|es| - 1], id);
      NextStaysRevoked(caMax, start, t, es[|es| - 1], id);
      NextFits(caMax, start, t, es[|es| - 1]);
    }
  }

  /** Revoked, without a good certificate and with nothing under way. */
  predicate Ended(s: Shared, id: string) {
    IsRevoked(s.users, id) && AllRevoked(s.certs, id) && NonePending(s.sessions, id)
  }

  lemma NextStaysEnded(caMax: int, start: seq<UserRow>, s: Shared, e: Event, id: string)
    requires UniqueBy(start, UserKey) && Fits(caMax, start, s) && Ended(s, id)
    ensures Ended(Next(caMax, s, e), id)
  {
    hide SigningAllowed, UniqueBy, IsRevoked, UpdateUsers, Select;
    NextStaysRevoked(caMax, start, s, e, id);
    if e.LogIn? && e.id == id {
      RevokedIsRefused(caMax, s, id, e.password);
    }
  }

  lemma RevokedIsRefused(caMax: int, s: Shared, id: string, password: string)
    requires IsRevoked(s.users, id)
    ensures LoggedIn(caMax, s, id, password) == s
  {
    if FindUser(s.users, id).Some? {
      var i :| 0 <= i < |s.users| && s.users[i] == FindUser(s.users, id).value;
    }
  }

  lemma {:induction false} StaysEnded(caMax: int, start: seq<UserRow>, s: Shared, es: seq<Event>, id: string)
    requires UniqueBy(start, UserKey) && Fits(caMax, start, s) && Ended(s, id)
    ensures Ended(After(caMax, s, es), id) && Fits(caMax, start, After(caMax, s, es))
  {
    if es == [] {
    } else {
      hide Next, Fits, Ended, UniqueBy;
      var t := After(caMax, s, es[..|es| - 1]);
      StaysEnded(caMax, start, s, es[..|es| - 1], id);
      NextStaysEnded(caMax, start, t, es[|es| - 1], id);
      NextFits(caMax, start, t, es[|es| - 1]);
    }
  }

  // ----- what a request under way can still do

  /** Sessions only open with a limit that lets a count through: none, or a positive one. */
  predicate Sane(s: Shared) {
    forall k | 0 <= k < |s.sessions| && !s.sessions[k].reenrolls :: s.sessions[k].max == -1 || s.sessions[k].max > 0
  }

  predicate CountsFrom(users: seq<UserRow>) {
    forall i | 0 <= i < |users| :: users[i].state >= -1
  }

  lemma NextSane(caMax: int, s: Shared, e: Event)
    requires Sane(s) && CountsFrom(s.users)
    ensures Sane(Next(caMax, s, e)) && CountsFrom(Next(caMax, s, e).users)
  {
    hide SigningAllowed, NewCertRow, Select;
    if e.LogIn? && LoggedIn(caMax, s, e.id, e.password) != s {
      var user := FindUser(s.users, e.id).value;
      assert user.state >= -1;
    }
  }

  /** States that events lead to are sane if states start at -1 or above. */
  lemma {:induction false} ReachableSane(caMax: int, start: seq<UserRow>, certs: seq<CertRow>, es: seq<Event>)
    requires UniqueBy(start, UserKey) && CountsFrom(start)
    ensures var s := After(caMax, Shared(start, certs, []), es);
            Sane(s) && Fits(caMax, start, s) && CountsFrom(s.users)
  {
    if es == [] {
    } else {
      hide Next, Fits, Sane, CountsFrom, UniqueBy;
      var s := After(caMax, Shared(start, certs, []), es[..|es| - 1]);
      ReachableSane(caMax, start, certs, es[..|es| - 1]);
      NextFits(caMax, start, s, es[|es| - 1]);
      NextSane(caMax, s, es[|es| - 1]);
    }
  }

  /** A number above every recorded serial number. */
  function Above(certs: seq<CertRow>): (n: nat)
    ensures n > 0
    ensures forall i | 0 <= i < |certs| && Parse(certs[i].serial, 16).Some? :: Parse(certs[i].serial, 16).value < n
  {
    if certs == [] then 1
    else
      var n := Above(certs[1..]);
      match Parse(certs[0].serial, 16)
      case None => n
      case Some(m) => if m < n then n else m + 1
  }

  /** A request with a new serial number, which is never refused to an identity that exists. */
  function NewRequest(s: Shared, id: string): Signing {
    Signing(id, None, false, Above(s.certs), [], 0)
  }

  lemma NewRequestAllowed(s: Shared, id: string)
    requires HasUser(s.users, id)
    ensures SigningAllowed(Seen(s), id, NewRequest(s, id))
  {
    var n := Above(s.certs);
    ParseRender(n, 10);
    ParseRender(n, 16);
    var row := NewCertRow(id, NewRequest(s, id));
    assert row.serial == Hex(n) && Parse(row.serial, 16) == Some(n);
  }

  /** An open request can still get a good certificate. */
  lemma OpenIssues(s: Shared, k: nat)
    requires k < |s.sessions| && s.sessions[k].status == Open && HasUser(s.users, s.sessions[k].id)
    ensures var id := s.sessions[k].id;
            var s' := CertIssued(s, k, NewRequest(s, id));
            && !AllRevoked(s'.certs, id) && s'.users == s.users
            && s'.sessions == WithStatus(s.sessions, k, if s.sessions[k].reenrolls then Renewed else Issued)
  {
    var id := s.sessions[k].id;
    NewRequestAllowed(s, id);
    hide SigningAllowed;
    var s' := CertIssued(s, k, NewRequest(s, id));
    assert s'.certs[|s.certs|] == NewCertRow(id, NewRequest(s, id));
  }

  lemma AfterOne(caMax: int, s: Shared, e: Event)
    ensures After(caMax, s, [e]) == Next(caMax, s, e)
  {
    assert [e][..0] == [];
  }

  lemma AfterMore(caMax: int, s: Shared, es: seq<Event>, e: Event)
    ensures After(caMax, s, es + [e]) == Next(caMax, After(caMax, s, es), e)
  {
    assert (es + [e])[..|es|] == es;
  }

  /** A completion tests the count, not the revocation: it makes a revoked identity live again. */
  lemma CompletionRevives(caMax: int, start: seq<UserRow>, s: Shared, k: nat, j: nat)
    requires UniqueBy(start, UserKey) && Fits(caMax, start, s) && Sane(s)
    requires k < |s.sessions| && s.sessions[k].status == Issued
    requires j < |start| && start[j].name == s.sessions[k].id && s.users[j].state == -1
    ensures var s' := Completed(s, k);
            && s'.users == s.users[j := s.users[j].(state := 0)] && s'.certs == s.certs
            && |s'.sessions| == |s.sessions|
  {
    var i := SessionRow(caMax, start, s, k);
    assert i == j by {
      assert UserKey(start[i]) == UserKey(start[j]);
    }
    CompleteOne(caMax, start, s, k, j);
  }

  lemma RowOf(start: seq<UserRow>, s: Shared, caMax: int, id: string) returns (j: nat)
    requires Fits(caMax, start, s) && HasUser(start, id)
    ensures j < |start| && start[j].name == id && s.users[j].name == id && HasUser(s.users, id)
  {
    j :| 0 <= j < |start| && start[j].name == id;
    assert s.users[j].name == id;
  }

  /** An enrollment whose certificate is recorded undoes a revocation with its completion. */
  lemma IssuedUndoesRevocation(caMax: int, start: seq<UserRow>, s: Shared, id: string, k: nat)
    requires UniqueBy(start, UserKey) && Fits(caMax, start, s) && Sane(s) && IsRevoked(s.users, id)
    requires k < |s.sessions| && s.sessions[k].id == id && s.sessions[k].status == Issued
    ensures !IsRevoked(Completed(s, k).users, id)
  {
    assert !s.sessions[k].reenrolls;
    var j := SessionRow(caMax, start, s, k);
    assert s.users[j].name == id;
    hide Fits, Completed, UniqueBy;
    CompletionRevives(caMax, start, s, k, j);
    assert Completed(s, k).users[j].name == id;
  }

  /** An open one gets its certificate recorded first. */
  lemma OpenUndoesRevocation(caMax: int, start: seq<UserRow>, s: Shared, id: string, k: nat)
    requires UniqueBy(start, UserKey) && Fits(caMax, start, s) && Sane(s) && IsRevoked(s.users, id)
    requires k < |s.sessions| && s.sessions[k].id == id && !s.sessions[k].reenrolls && s.sessions[k].status == Open
    ensures !IsRevoked(Completed(CertIssued(s, k, NewRequest(s, id)), k).users, id)
  {
    var j := SessionRow(caMax, start, s, k);
    assert s.users[j].name == id;
    OpenIssues(s, k);
    var t := CertIssued(s, k, NewRequest(s, id));
    StatusFits(caMax, start, s, t, k, Issued);
    hide Fits, CertIssued, Completed, UniqueBy, NewRequest;
    IssuedUndoesRevocation(caMax, start, t, id, k);
  }

  lemma LoginUndoesRevocation(caMax: int, start: seq<UserRow>, s: Shared, id: string, k: nat) returns (es: seq<Event>)
    requires UniqueBy(start, UserKey) && Fits(caMax, start, s) && Sane(s) && IsRevoked(s.users, id)
    requires k < |s.sessions| && s.sessions[k].id == id && !s.sessions[k].reenrolls && s.sessions[k].Pending()
    ensures !IsRevoked(After(caMax, s, es).users, id)
  {
    hide Fits, CertIssued, Completed, UniqueBy, IsRevoked, Sane;
    if s.sessions[k].status == Open {
      es := [Issue(k, NewRequest(s, id)), Complete(k)];
      OpenUndoesRevocation(caMax, start, s, id, k);
      AfterOne(caMax, s, es[0]);
      AfterMore(caMax, s, [es[0]], es[1]);
      assert [es[0]] + [es[1]] == es;
    } else {
      es := [Complete(k)];
      IssuedUndoesRevocation(caMax, start, s, id, k);
      AfterOne(caMax, s, es[0]);
    }
  }

  /**
   After any events, a revocation lasts whatever happens next exactly if none of the identity's enrollments
   is under way.
  */
  lemma RevocationLastsIff(caMax: int, start: seq<UserRow>, certs: seq<CertRow>, es: seq<Event>, id: string)
    requires UniqueBy(start, UserKey) && CountsFrom(start)
    requires IsRevoked(After(caMax, Shared(start, certs, []), es).users, id)
    ensures var s := After(caMax, Shared(start, certs, []), es);
            NoLoginPending(s.sessions, id) <==> forall more :: IsRevoked(After(caMax, s, more).users, id)
  {
    var s := After(caMax, Shared(start, certs, []), es);
    ReachableSane(caMax, start, certs, es);
    hide After, Fits, Sane, IsRevoked, UniqueBy, CountsFrom;
    if NoLoginPending(s.sessions, id) {
      forall more ensures IsRevoked(After(caMax, s, more).users, id) {
        StaysRevoked(caMax, start, s, more, id);
      }
    } else {
      var k :| 0 <= k < |s.sessions| && s.sessions[k].id == id && !s.sessions[k].reenrolls && s.sessions[k].Pending();
      var more := LoginUndoesRevocation(caMax, start, s, id, k);
    }
  }

  /** A live identity that was admitted once may log in again. */
  lemma LogsInAgain(caMax: int, start: seq<UserRow>, s: Shared, j: nat, x: Session)
    requires UniqueBy(start, UserKey) && Fits(caMax, start, s) && j < |start| && s.users[j].state == 0
    requires Admits(caMax, start[j], x) && (x.max == -1 || x.max > 0)
    ensures LoggedIn(caMax, s, x.id, s.users[j].pass.password) ==
            s.(sessions := s.sessions + [Session(x.id, false, x.max, Open)])
  {
    var user := s.users[j];
    assert UniqueBy(s.users, UserKey) by {
      SameKeys(start, s.users);
    }
    assert FindUser(s.users, x.id) == Some(user) by {
      assert user.name == x.id;
      var i :| 0 <= i < |s.users| && s.users[i] == FindUser(s.users, x.id).value;
      if i != j {
        assert UserKey(s.users[i]) != UserKey(s.users[j]);
      }
    }
  }

  /** An enrollment whose certificate is recorded completes and logs in again. */
  lemma CompletesAndLogsIn(caMax: int, start: seq<UserRow>, s: Shared, id: string, k: nat) returns (password: string)
    requires UniqueBy(start, UserKey) && Fits(caMax, start, s) && Sane(s) && IsRevoked(s.users, id)
    requires k < |s.sessions| && s.sessions[k].id == id && s.sessions[k].status == Issued
    ensures var t := LoggedIn(caMax, Completed(s, k), id, password);
            && HasUser(t.users, id) && |t.sessions| > |s.sessions|
            && t.sessions[|s.sessions|].id == id && t.sessions[|s.sessions|].status == Open
  {
    var x := s.sessions[k];
    assert !x.reenrolls;
    var j := SessionRow(caMax, start, s, k);
    assert s.users[j].name == id && s.users[j].state == -1 && (x.max == -1 || x.max > 0);
    NextFits(caMax, start, s, Complete(k));
    hide Completed, LoggedIn, Fits, UniqueBy, Sane, IsRevoked;
    CompletionRevives(caMax, start, s, k, j);
    LogsInAgain(caMax, start, Completed(s, k), j, x);
    password := Completed(s, k).users[j].pass.password;
    assert LoggedIn(caMax, Completed(s, k), id, password).users[j].name == id;
  }

  /** What is under way can still get a good certificate, if need be after a completion and another login. */
  lemma PendingGetsAnother(caMax: int, start: seq<UserRow>, s: Shared, id: string, k: nat) returns (es: seq<Event>)
    requires UniqueBy(start, UserKey) && Fits(caMax, start, s) && Sane(s) && IsRevoked(s.users, id)
    requires k < |s.sessions| && s.sessions[k].id == id && s.sessions[k].Pending() && HasUser(s.users, id)
    ensures !AllRevoked(After(caMax, s, es).certs, id)
  {
    hide Completed, LoggedIn, CertIssued, Fits, UniqueBy, Sane, AllRevoked, IsRevoked, NewRequest, HasUser;
    if s.sessions[k].status == Open {
      es := [Issue(k, NewRequest(s, id))];
      OpenIssues(s, k);
      AfterOne(caMax, s, es[0]);
    } else {
      var password := CompletesAndLogsIn(caMax, start, s, id, k);
      var t, n := LoggedIn(caMax, Completed(s, k), id, password), |s.sessions|;
      OpenIssues(t, n);
      es := [Complete(k), LogIn(id, password), Issue(n, NewRequest(t, id))];
      ThreeEvents(caMax, s, es[0], es[1], es[2]);
    }
  }

  lemma ThreeEvents(caMax: int, s: Shared, a: Event, b: Event, c: Event)
    ensures After(caMax, s, [a, b, c]) == Next(caMax, Next(caMax, Next(caMax, s, a), b), c)
  {
    hide Next;
    AfterOne(caMax, s, a);
    AfterMore(caMax, s, [a], b);
    assert [a] + [b] == [a, b];
    AfterMore(caMax, s, [a, b], c);
    assert [a, b] + [c] == [a, b, c];
  }

  /**
   After any events, once an identity is revoked and all its certificates are: they stay the only ones,
   whatever happens next, exactly if none of its requests is under way, reenrollments included.
  */
  lemma CertsLastIff(caMax: int, start: seq<UserRow>, certs: seq<CertRow>, es: seq<Event>, id: string)
    requires UniqueBy(start, UserKey) && CountsFrom(start) && HasUser(start, id)
    requires var s := After(caMax, Shared(start, certs, []), es); IsRevoked(s.users, id) && AllRevoked(s.certs, id)
    ensures var s := After(caMax, Shared(start, certs, []), es);
            NonePending(s.sessions, id) <==> forall more :: AllRevoked(After(caMax, s, more).certs, id)
  {
    var s := After(caMax, Shared(start, certs, []), es);
    ReachableSane(caMax, start, certs, es);
    var j := RowOf(start, s, caMax, id);
    hide After, Fits, Sane, IsRevoked, AllRevoked, UniqueBy, CountsFrom, HasUser;
    if NonePending(s.sessions, id) {
      forall more ensures AllRevoked(After(caMax, s, more).certs, id) {
        StaysEnded(caMax, start, s, more, id);
      }
    } else {
      var k :| 0 <= k < |s.sessions| && s.sessions[k].id == id && s.sessions[k].Pending();
      var more := PendingGetsAnother(caMax, start, s, id, k);
    }
  }

  /** The state after both statements of a revocation, with a reenrollment let in between. */
  function Between(start: seq<UserRow>, certs: seq<CertRow>, r: nat, reason: int, now: int): Shared
    requires r < |certs|
  {
    var id := certs[r].id;
    Shared(UpdateUsers(start, IdIs(id), SetState(-1)), RevokeCerts(certs, UnrevokedOf([id]), reason, now),
           [Session(id, true, 0, Open)])
  }

  lemma BetweenIs(caMax: int, start: seq<UserRow>, certs: seq<CertRow>, r: nat, reason: int, now: int)
    requires r < |certs| && !certs[r].revoked && LookupKey(certs[r].serial) == certs[r].serial
    ensures var id := certs[r].id;
            After(caMax, Shared(start, certs, []), [Disable(id), TokenIn(r), RevokeAll(id, reason, now)]) ==
            Between(start, certs, r, reason, now)
  {
    hide UpdateUsers, RevokeCerts, After;
    var id := certs[r].id;
    ThreeEvents(caMax, Shared(start, certs, []), Disable(id), TokenIn(r), RevokeAll(id, reason, now));
    assert [] + [Session(id, true, 0, Open)] == [Session(id, true, 0, Open)];
  }

  /**
   A revocation is two statements. A reenrollment that authenticates between them is under way when they are
   done, and leaves the revoked identity with a good certificate.
  */
  lemma ReenrollsPast(caMax: int, start: seq<UserRow>, certs: seq<CertRow>, r: nat, reason: int, now: int)
    requires r < |certs| && !certs[r].revoked && LookupKey(certs[r].serial) == certs[r].serial
    requires HasUser(start, certs[r].id)
    ensures var id := certs[r].id;
            var s := After(caMax, Shared(start, certs, []), [Disable(id), TokenIn(r), RevokeAll(id, reason, now)]);
            var t := Next(caMax, s, Issue(0, NewRequest(s, id)));
            && IsRevoked(s.users, id) && AllRevoked(s.certs, id)
            && IsRevoked(t.users, id) && !AllRevoked(t.certs, id)
  {
    var id := certs[r].id;
    var s0, s := Shared(start, certs, []), Between(start, certs, r, reason, now);
    BetweenIs(caMax, start, certs, r, reason, now);
    var j :| 0 <= j < |start| && start[j].name == id;
    assert s.users[j].name == id;
    hide After, CertIssued;
    OpenIssues(s, 0);
  }
}
