/**
 The three database tables as sequences of rows, and the SQL statements run on them. A WHERE clause
 is a value; LIKE 'x.%' is the prefix test Paths.Below.
*/
module Tables {
  import opened Basics
  import opened Paths
  import opened Attributes

  /** A bcrypt hash: it is equal to the hash of a password exactly when that password made it. */
  datatype Hash = Hashed(password: string)

  datatype AffRow = AffRow(name: string, prekey: string, level: int)

  datatype UserRow = UserRow(name: string, pass: Hash, kind: string, affiliation: string,
                             attributes: seq<Attribute>, state: int, maxEnrollments: int, level: int)

  datatype CertRow = CertRow(id: string, serial: string, aki: string, revoked: bool, reason: int,
                             expiry: int, revokedAt: int)

  datatype Tables = Tables(affs: seq<AffRow>, users: seq<UserRow>, certs: seq<CertRow>)

  // ----- WHERE clauses

  datatype AffWhere = NameIs(n: string) | NameBelow(n: string) | NameAtOrBelow(n: string) {
    predicate Holds(r: AffRow) {
      match this
      case NameIs(n) => r.name == n
      case NameBelow(n) => Below(n, r.name)
      case NameAtOrBelow(n) => AtOrBelow(n, r.name)
    }
  }

  datatype UserWhere = IdIs(id: string) | IdIn(ids: seq<string>) | AffIs(a: string) | AffBelow(a: string)
                     | AffAtOrBelow(a: string) | IdUnder(id: string, max: int)
  {
    predicate Holds(u: UserRow) {
      match this
      case IdIs(id) => u.name == id
      case IdIn(ids) => u.name in ids
      case AffIs(a) => u.affiliation == a
      case AffBelow(a) => Below(a, u.affiliation)
      case AffAtOrBelow(a) => AtOrBelow(a, u.affiliation)
      case IdUnder(id, max) => u.name == id && u.state < max
    }
  }

  datatype CertWhere = KeyIs(serial: string, aki: string) | UnrevokedOf(ids: seq<string>)
                     | RevokedIn(expiredAfter: int, expiredBefore: Option<int>, revokedAfter: int,
                                 revokedBefore: Option<int>)
  {
    predicate Holds(c: CertRow) {
      match this
      case KeyIs(serial, aki) => c.serial == serial && c.aki == aki
      case UnrevokedOf(ids) => c.id in ids && !c.revoked
      case RevokedIn(ea, eb, ra, rb) =>
        && c.revoked && c.expiry > ea && c.revokedAt > ra
        && (eb.Some? ==> c.expiry < eb.value)
        && (rb.Some? ==> c.revokedAt < rb.value)
    }
  }

  // ----- SELECT and DELETE

  function Keep<T>(rows: seq<T>, p: T -> bool, want: bool): seq<T> {
    if rows == [] then []
    else (if p(rows[0]) == want then [rows[0]] else []) + Keep(rows[1..], p, want)
  }

  /** SELECT: the rows meeting the condition, in table order. */
  function Select<T>(rows: seq<T>, p: T -> bool): seq<T> {
    Keep(rows, p, true)
  }

  /** DELETE: the rows not meeting the condition. */
  function Delete<T>(rows: seq<T>, p: T -> bool): seq<T> {
    Keep(rows, p, false)
  }

  lemma {:induction false} KeepMember<T>(rows: seq<T>, p: T -> bool, want: bool, x: T)
    ensures x in Keep(rows, p, want) <==> x in rows && p(x) == want
  {
    if rows == [] {
    } else {
      KeepMember(rows[1..], p, want, x);
      assert rows == [rows[0]] + rows[1..];
    }
  }

  lemma KeepMembers<T>(rows: seq<T>, p: T -> bool, want: bool)
    ensures forall x :: x in Keep(rows, p, want) <==> x in rows && p(x) == want
  {
    forall x ensures x in Keep(rows, p, want) <==> x in rows && p(x) == want {
      KeepMember(rows, p, want, x);
    }
  }

  /** No row is lost: what a DELETE takes out and what it leaves make up the table. */
  lemma {:induction false} KeepConserves<T>(rows: seq<T>, p: T -> bool)
    ensures multiset(rows) == multiset(Select(rows, p)) + multiset(Delete(rows, p))
  {
    if rows == [] {
    } else {
      KeepConserves(rows[1..], p);
      assert rows == [rows[0]] + rows[1..];
    }
  }

  // ----- keys

  function AffKey(r: AffRow): string { r.name }
  function UserKey(u: UserRow): string { u.name }
  function CertKey(c: CertRow): (string, string) { (c.serial, c.aki) }

  predicate UniqueBy<T, K(==)>(rows: seq<T>, key: T -> K) {
    forall i, j | 0 <= i < j < |rows| :: key(rows[i]) != key(rows[j])
  }

  lemma {:induction false} KeepUnique<T, K>(rows: seq<T>, key: T -> K, p: T -> bool, want: bool)
    requires UniqueBy(rows, key)
    ensures UniqueBy(Keep(rows, p, want), key)
  {
    if rows == [] {
    } else {
      var tail := Keep(rows[1..], p, want);
      KeepUnique(rows[1..], key, p, want);
      forall j | 0 <= j < |tail| ensures key(tail[j]) != key(rows[0]) {
        KeepMember(rows[1..], p, want, tail[j]);
        var k :| 0 <= k < |rows[1..]| && rows[1..][k] == tail[j];
        assert rows[k + 1] == tail[j];
      }
    }
  }

  /** tx.Get on a key: the first matching row. */
  function FindUser(users: seq<UserRow>, id: string): (r: Option<UserRow>)
    ensures r.Some? ==> r.value in users && r.value.name == id
    ensures r.None? ==> forall i | 0 <= i < |users| :: users[i].name != id
  {
    if users == [] then None
    else if users[0].name == id then Some(users[0])
    else FindUser(users[1..], id)
  }

  function FindAff(affs: seq<AffRow>, name: string): (r: Option<AffRow>)
    ensures r.Some? ==> r.value in affs && r.value.name == name
    ensures r.None? ==> forall i | 0 <= i < |affs| :: affs[i].name != name
  {
    if affs == [] then None
    else if affs[0].name == name then Some(affs[0])
    else FindAff(affs[1..], name)
  }

  function FindCert(certs: seq<CertRow>, serial: string, aki: string): (r: Option<CertRow>)
    ensures r.Some? ==> r.value in certs && r.value.serial == serial && r.value.aki == aki
    ensures r.None? ==> forall i | 0 <= i < |certs| :: !(certs[i].serial == serial && certs[i].aki == aki)
  {
    if certs == [] then None
    else if certs[0].serial == serial && certs[0].aki == aki then Some(certs[0])
    else FindCert(certs[1..], serial, aki)
  }

  predicate HasAff(affs: seq<AffRow>, name: string) {
    exists i | 0 <= i < |affs| :: affs[i].name == name
  }

  predicate HasUser(users: seq<UserRow>, id: string) {
    exists i | 0 <= i < |users| :: users[i].name == id
  }

  function UserNames(users: seq<UserRow>): (ids: seq<string>)
    ensures |ids| == |users|
    ensures forall i | 0 <= i < |users| :: ids[i] == users[i].name
  {
    seq(|users|, i requires 0 <= i < |users| => users[i].name)
  }

  // ----- UPDATE

  datatype UserSet = SetAffiliation(aff: string) | SetAttributes(attrs: seq<Attribute>) | SetState(n: int)
                   | IncrementState | SetRow(row: UserRow)
  {
    function On(u: UserRow): UserRow {
      match this
      case SetAffiliation(aff) => u.(affiliation := aff)
      case SetAttributes(attrs) => u.(attributes := attrs)
      case SetState(n) => u.(state := n)
      case IncrementState => u.(state := u.state + 1)
      case SetRow(row) => row
    }
  }

  function UpdateUsers(users: seq<UserRow>, w: UserWhere, s: UserSet): (r: seq<UserRow>)
    ensures |r| == |users|
    ensures forall i | 0 <= i < |users| :: r[i] == if w.Holds(users[i]) then s.On(users[i]) else users[i]
  {
    seq(|users|, i requires 0 <= i < |users| => if w.Holds(users[i]) then s.On(users[i]) else users[i])
  }

  /** UPDATE affiliations SET name, prekey WHERE name = at. */
  function UpdateAff(affs: seq<AffRow>, at: string, name: string, prekey: string): (r: seq<AffRow>)
    ensures |r| == |affs|
    ensures forall i | 0 <= i < |affs| ::
              r[i] == if affs[i].name == at then affs[i].(name := name, prekey := prekey) else affs[i]
  {
    seq(|affs|, i requires 0 <= i < |affs| =>
          if affs[i].name == at then affs[i].(name := name, prekey := prekey) else affs[i])
  }

  /** UPDATE certificates SET status = 'revoked', revoked_at = now, reason. */
  function RevokeCerts(certs: seq<CertRow>, w: CertWhere, reason: int, now: int): (r: seq<CertRow>)
    ensures |r| == |certs|
    ensures forall i | 0 <= i < |certs| ::
              r[i] == if w.Holds(certs[i]) then certs[i].(revoked := true, reason := reason, revokedAt := now)
                      else certs[i]
  {
    seq(|certs|, i requires 0 <= i < |certs| =>
          if w.Holds(certs[i]) then certs[i].(revoked := true, reason := reason, revokedAt := now) else certs[i])
  }
}
