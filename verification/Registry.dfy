/**
 The user registry (lib/dbaccessor.go) and the certificate accessor (lib/certdbaccessor.go) over the
 three tables. Methods follow the code statement by statement; functions and predicates before the
 class say what the statements add up to.
*/
module Registry {
  import opened Basics
  import opened Strings
  import opened Paths
  import opened Attributes
  import opened Tables
  import opened Delegation

  datatype Result<+T> = Success(value: T) | Failure(error: DbError)

  datatype DbError = NoSuchRow | AffiliationExists | NotRegistrar | RemovalDisabled | ForceRequired
                   | ConstraintPanic | RowCount | SqlError

  datatype TxResult = TxResult(affs: seq<AffRow>, users: seq<UserRow>)

  /** RFC 5280, section 5.3.1. */
  const AFFILIATION_CHANGED := 3
  const CESSATION_OF_OPERATION := 5

  // ----- deleting an affiliation

  function UsersUnder(t: Tables, name: string): seq<UserRow> {
    Select(t.users, AffIs(name).Holds) + Select(t.users, AffBelow(name).Holds)
  }

  /** The error of deleteAffiliationTx, in the order the code checks. */
  function DeleteError(t: Tables, name: string, force: bool, identityRemoval: bool, isRegistrar: bool): Option<DbError>
  {
    if FindAff(t.affs, name).None? then Some(NoSuchRow)
    else if UsersUnder(t, name) != [] && !isRegistrar then Some(NotRegistrar)
    else if UsersUnder(t, name) != [] && !identityRemoval then Some(RemovalDisabled)
    else if (UsersUnder(t, name) != [] || Select(t.affs, NameBelow(name).Holds) != []) && !force then
      Some(ForceRequired)
    else None
  }

  function RemoveUsers(t: Tables, ids: seq<string>, reason: int, now: int): Tables {
    t.(users := Delete(t.users, IdIn(ids).Holds), certs := RevokeCerts(t.certs, UnrevokedOf(ids), reason, now))
  }

  function DeletedTables(t: Tables, name: string, now: int): Tables {
    RemoveUsers(t, UserNames(UsersUnder(t, name)), AFFILIATION_CHANGED, now)
    .(affs := Delete(t.affs, NameAtOrBelow(name).Holds))
  }

  function DeleteResult(t: Tables, name: string): TxResult
    requires FindAff(t.affs, name).Some?
  {
    TxResult(Select(t.affs, NameBelow(name).Holds) + [FindAff(t.affs, name).value], UsersUnder(t, name))
  }

  lemma HasAffMember(affs: seq<AffRow>, n: string)
    ensures HasAff(affs, n) <==> exists r :: r in affs && r.name == n
  {
    if HasAff(affs, n) {
      var i :| 0 <= i < |affs| && affs[i].name == n;
      assert affs[i] in affs;
    }
  }

  predicate UserAtOrBelow(users: seq<UserRow>, name: string) {
    exists i | 0 <= i < |users| :: AtOrBelow(name, users[i].affiliation)
  }

  predicate RowBelow(affs: seq<AffRow>, name: string) {
    exists i | 0 <= i < |affs| :: Below(name, affs[i].name)
  }

  lemma {:induction false} SelectSome<T>(rows: seq<T>, p: T -> bool)
    ensures Select(rows, p) != [] <==> exists i | 0 <= i < |rows| :: p(rows[i])
  {
    if Select(rows, p) != [] {
      KeepMember(rows, p, true, Select(rows, p)[0]);
    }
    if i :| 0 <= i < |rows| && p(rows[i]) {
      KeepMember(rows, p, true, rows[i]);
    }
  }

  lemma UsersUnderSome(t: Tables, name: string)
    ensures UsersUnder(t, name) != [] <==> UserAtOrBelow(t.users, name)
  {
    SelectSome(t.users, AffIs(name).Holds);
    SelectSome(t.users, AffBelow(name).Holds);
    if i :| 0 <= i < |t.users| && AtOrBelow(name, t.users[i].affiliation) {
      assert AffIs(name).Holds(t.users[i]) || AffBelow(name).Holds(t.users[i]);
    }
    if i :| 0 <= i < |t.users| && AffIs(name).Holds(t.users[i]) {
      assert AtOrBelow(name, t.users[i].affiliation);
    }
    if i :| 0 <= i < |t.users| && AffBelow(name).Holds(t.users[i]) {
      assert AtOrBelow(name, t.users[i].affiliation);
    }
  }

  /** Exactly what each error of a delete stands for, told from the rows. */
  lemma DeleteErrorIff(t: Tables, name: string, force: bool, identityRemoval: bool, isRegistrar: bool)
    ensures var e := DeleteError(t, name, force, identityRemoval, isRegistrar);
            var users, rows := UserAtOrBelow(t.users, name), RowBelow(t.affs, name);
            && (e == Some(NoSuchRow) <==> !HasAff(t.affs, name))
            && (e == Some(NotRegistrar) <==> HasAff(t.affs, name) && users && !isRegistrar)
            && (e == Some(RemovalDisabled) <==> HasAff(t.affs, name) && users && isRegistrar && !identityRemoval)
            && (e == Some(ForceRequired) <==>
                HasAff(t.affs, name) && !force && (users || rows) && (users ==> isRegistrar && identityRemoval))
            && (e == None <==>
                HasAff(t.affs, name) && (force || !(users || rows)) && (users ==> isRegistrar && identityRemoval))
  {
    UsersUnderSome(t, name);
    SelectSome(t.affs, NameBelow(name).Holds);
    if i :| 0 <= i < |t.affs| && Below(name, t.affs[i].name) {
      assert NameBelow(name).Holds(t.affs[i]);
    }
    if i :| 0 <= i < |t.affs| && NameBelow(name).Holds(t.affs[i]) {
      assert Below(name, t.affs[i].name);
    }
    FoundAff(t.affs, name);
  }

  lemma FoundAff(affs: seq<AffRow>, name: string)
    ensures FindAff(affs, name).Some? <==> HasAff(affs, name)
  {
    if FindAff(affs, name).Some? {
      HasAffMember(affs, name);
    }
  }

  /** Deleting a name with nothing and nobody below it takes out its one row. */
  lemma DeleteAlone(t: Tables, name: string, now: int) returns (k: nat)
    requires UniqueBy(t.affs, AffKey) && HasAff(t.affs, name)
    requires !UserAtOrBelow(t.users, name) && !RowBelow(t.affs, name)
    ensures k < |t.affs| && t.affs[k].name == name
    ensures DeletedTables(t, name, now) == t.(affs := t.affs[..k] + t.affs[k + 1..])
  {
    UsersUnderSome(t, name);
    RemoveNobody(t, AFFILIATION_CHANGED, now);
    assert UserNames([]) == [];
    k :| 0 <= k < |t.affs| && t.affs[k].name == name;
    forall i | 0 <= i < |t.affs| ensures NameAtOrBelow(name).Holds(t.affs[i]) <==> i == k {
      assert i != k ==> AffKey(t.affs[i]) != AffKey(t.affs[k]);
    }
    DeleteOne(t.affs, NameAtOrBelow(name).Holds, k);
  }

  lemma {:induction false} DeleteOne<T>(rows: seq<T>, p: T -> bool, k: nat)
    requires k < |rows| && forall i | 0 <= i < |rows| :: p(rows[i]) <==> i == k
    ensures Delete(rows, p) == rows[..k] + rows[k + 1..]
  {
    if k == 0 {
      KeepAll(rows[1..], p);
    } else {
      DeleteOne(rows[1..], p, k - 1);
      assert [rows[0]] + rows[1..][..k - 1] == rows[..k];
    }
  }

  // ----- renaming an affiliation

  function RenamedAff(r: AffRow, from: string, to: string): AffRow {
    if AtOrBelow(from, r.name)
    then r.(name := Image(from, to, r.name), prekey := ReplaceFirst(r.prekey, from, to))
    else r
  }

  /** Attributes after hf.Affiliation was set through the attribute map; the order is that of map iteration. */
  predicate Reattributed(before: seq<Attribute>, after: seq<Attribute>, aff: string) {
    && UniqueNames(after)
    && AttrMap(after) == ApplyToMap(AttrMap(before), Attribute(AFFILIATION, aff, false))
  }

  predicate Moved(u: UserRow, v: UserRow, aff: string) {
    && v == u.(affiliation := aff, attributes := v.attributes)
    && Reattributed(u.attributes, v.attributes, aff)
  }

  /** The user's affiliation is a row of the subtree. */
  predicate UnderRow(u: UserRow, affs: seq<AffRow>, from: string) {
    AtOrBelow(from, u.affiliation) && HasAff(affs, u.affiliation)
  }

  predicate MovedIfUnder(u: UserRow, v: UserRow, affs: seq<AffRow>, from: string, to: string) {
    if UnderRow(u, affs, from)
    then Moved(u, v, Image(from, to, u.affiliation))
    else v == u
  }

  /** What a successful rename does: every row of the subtree and its users, once; nothing else. */
  predicate Renamed(t: Tables, from: string, to: string, t': Tables) {
    && |t'.affs| == |t.affs| && (forall i | 0 <= i < |t.affs| :: t'.affs[i] == RenamedAff(t.affs[i], from, to))
    && |t'.users| == |t.users|
    && (forall i | 0 <= i < |t.users| :: MovedIfUnder(t.users[i], t'.users[i], t.affs, from, to))
    && t'.certs == t.certs
  }

  predicate NoneAtOrBelow(affs: seq<AffRow>, name: string) {
    forall i | 0 <= i < |affs| :: !AtOrBelow(name, affs[i].name)
  }

  /** The tables on which renaming to `to` cannot collide with anything. */
  predicate Renamable(t: Tables, to: string) {
    && UniqueBy(t.affs, AffKey)
    && UniqueBy(t.users, UserKey)
    && NoneAtOrBelow(t.affs, to)
  }

  predicate AnyUnder(t: Tables, from: string) {
    exists i | 0 <= i < |t.users| :: UnderRow(t.users[i], t.affs, from)
  }

  /** The error of ModifyAffiliation on tables where the new names are free. */
  function RenameError(t: Tables, from: string, to: string, force: bool, isRegistrar: bool): Option<DbError> {
    if FindAff(t.affs, from).None? then Some(NoSuchRow)
    else if FindAff(t.affs, to).Some? then Some(AffiliationExists)
    else if AnyUnder(t, from) && !isRegistrar then Some(NotRegistrar)
    else if AnyUnder(t, from) && !force then Some(ForceRequired)
    else None
  }

  lemma FreeTarget(t: Tables, to: string)
    ensures Renamable(t, to) ==> !HasAff(t.affs, to) && FindAff(t.affs, to).None?
  {
  }

  /** Exactly what each error of a rename stands for, told from the rows. */
  lemma RenameErrorIff(t: Tables, from: string, to: string, force: bool, isRegistrar: bool)
    ensures var e := RenameError(t, from, to, force, isRegistrar);
            var moving := exists i | 0 <= i < |t.users| ::
              AtOrBelow(from, t.users[i].affiliation) && HasAff(t.affs, t.users[i].affiliation);
            && (e == Some(NoSuchRow) <==> !HasAff(t.affs, from))
            && (e == Some(AffiliationExists) <==> HasAff(t.affs, from) && HasAff(t.affs, to))
            && (e == Some(NotRegistrar) <==> HasAff(t.affs, from) && !HasAff(t.affs, to) && moving && !isRegistrar)
            && (e == Some(ForceRequired) <==>
                HasAff(t.affs, from) && !HasAff(t.affs, to) && moving && isRegistrar && !force)
            && (e == None <==>
                HasAff(t.affs, from) && !HasAff(t.affs, to) && (moving ==> isRegistrar && force))
  {
    FoundAff(t.affs, from);
    FoundAff(t.affs, to);
    if i :| 0 <= i < |t.users| && AtOrBelow(from, t.users[i].affiliation) && HasAff(t.affs, t.users[i].affiliation) {
      assert UnderRow(t.users[i], t.affs, from);
    }
  }

  /** The new rows of the users that moved, in table order. */
  function MovedRows(before: seq<UserRow>, after: seq<UserRow>, affs: seq<AffRow>, from: string): seq<UserRow>
    requires |before| == |after|
  {
    if before == [] then []
    else (if UnderRow(before[0], affs, from) then [after[0]] else []) + MovedRows(before[1..], after[1..], affs, from)
  }

  lemma {:induction false} SelectMoved(before: seq<UserRow>, after: seq<UserRow>, affs: seq<AffRow>, from: string,
                                       ids: seq<string>)
    requires |before| == |after|
    requires forall i | 0 <= i < |before| :: after[i].name in ids <==> UnderRow(before[i], affs, from)
    ensures Select(after, IdIn(ids).Holds) == MovedRows(before, after, affs, from)
  {
    if before == [] {
    } else {
      SelectMoved(before[1..], after[1..], affs, from, ids);
    }
  }

  // ----- what any rename, colliding or not, does to an identity

  /** hf.Affiliation agrees with the affiliation column. */
  predicate Tracked(u: UserRow) {
    AtMostOnce(u.attributes, AFFILIATION) && ValueOf(u.attributes, AFFILIATION) == u.affiliation
  }

  /** Only the affiliation and hf.Affiliation differ, and they differ together. */
  ghost predicate Carried(u: UserRow, v: UserRow) {
    && v == u.(affiliation := v.affiliation, attributes := v.attributes)
    && (Tracked(u) ==> Tracked(v))
    && (forall name | name != AFFILIATION ::
          && Lookup(v.attributes, name) == Lookup(u.attributes, name)
          && (AtMostOnce(u.attributes, name) ==> AtMostOnce(v.attributes, name)))
    && (forall k | 0 <= k < |v.attributes| :: v.attributes[k] in u.attributes || v.attributes[k].name == AFFILIATION)
  }

  /** Every identity is carried, and moved under the new name if at all. */
  ghost predicate CarriedAll(before: seq<UserRow>, after: seq<UserRow>, to: string) {
    && |after| == |before|
    && forall i | 0 <= i < |before| ::
         && Carried(before[i], after[i])
         && (after[i].affiliation == before[i].affiliation || AtOrBelow(to, after[i].affiliation))
  }

  lemma CarriedTransitive(u: UserRow, v: UserRow, x: UserRow)
    requires Carried(u, v) && Carried(v, x)
    ensures Carried(u, x)
  {
    forall k | 0 <= k < |x.attributes|
      ensures x.attributes[k] in u.attributes || x.attributes[k].name == AFFILIATION
    {
      if x.attributes[k] in v.attributes {
        var j :| 0 <= j < |v.attributes| && v.attributes[j] == x.attributes[k];
      }
    }
  }

  lemma ReattributedLookup(before: seq<Attribute>, after: seq<Attribute>, aff: string, name: string)
    requires Reattributed(before, after, aff)
    ensures name != AFFILIATION ==> Lookup(after, name) == Lookup(before, name)
    ensures ValueOf(after, AFFILIATION) == aff
  {
    LookupIsMap(before, name);
    LookupIsMap(after, name);
    LookupIsMap(after, AFFILIATION);
  }

  lemma MovedIsCarried(u: UserRow, v: UserRow, aff: string)
    requires Moved(u, v, aff)
    ensures Carried(u, v) && Tracked(v)
  {
    forall name ensures name != AFFILIATION ==> Lookup(v.attributes, name) == Lookup(u.attributes, name) {
      ReattributedLookup(u.attributes, v.attributes, aff, name);
    }
    ReattributedLookup(u.attributes, v.attributes, aff, AFFILIATION);
    forall k | 0 <= k < |v.attributes|
      ensures v.attributes[k] in u.attributes || v.attributes[k].name == AFFILIATION
    {
      var a := v.attributes[k];
      assert FindLast(v.attributes, a.name) == k;
      if a.name != AFFILIATION {
        assert Lookup(u.attributes, a.name) == Some(a);
        assert u.attributes[FindLast(u.attributes, a.name)] == a;
      }
    }
  }

  /** One round of the rename loop, seen identity by identity. */
  lemma CarriedStep(before: seq<UserRow>, users: seq<UserRow>, after: seq<UserRow>, at: string, aff: string, to: string)
    requires CarriedAll(before, users, to) && |after| == |users| && AtOrBelow(to, aff)
    requires forall i | 0 <= i < |users| ::
               if users[i].affiliation == at then Moved(users[i], after[i], aff) else after[i] == users[i]
    ensures CarriedAll(before, after, to)
  {
    forall i | 0 <= i < |before|
      ensures Carried(before[i], after[i])
      ensures after[i].affiliation == before[i].affiliation || AtOrBelow(to, after[i].affiliation)
    {
      if users[i].affiliation == at {
        MovedIsCarried(users[i], after[i], aff);
        CarriedTransitive(before[i], users[i], after[i]);
      }
    }
  }

  lemma CarriedKeys(before: seq<UserRow>, after: seq<UserRow>, to: string)
    requires CarriedAll(before, after, to) && UniqueBy(before, UserKey)
    ensures UniqueBy(after, UserKey)
  {
    forall i | 0 <= i < |before| ensures after[i].name == before[i].name {
      assert Carried(before[i], after[i]);
    }
    SameKeys(before, after);
  }

  // ----- halfway through a rename

  /** The rows renamed so far are those named in `done`. */
  predicate AffsAfter(before: seq<AffRow>, after: seq<AffRow>, done: set<string>, from: string, to: string) {
    && |after| == |before|
    && forall i | 0 <= i < |before| ::
         after[i] == if before[i].name in done then RenamedAff(before[i], from, to) else before[i]
  }

  predicate UsersAfter(before: seq<UserRow>, after: seq<UserRow>, done: set<string>, from: string, to: string) {
    && |after| == |before|
    && forall i | 0 <= i < |before| ::
         if before[i].affiliation in done && AtOrBelow(from, before[i].affiliation)
         then Moved(before[i], after[i], Image(from, to, before[i].affiliation))
         else after[i] == before[i]
  }

  /** One row update: it meets exactly the row it is for, and the new name is free. */
  lemma RenameRow(before: seq<AffRow>, affs: seq<AffRow>, done: set<string>, from: string, to: string, row: AffRow)
    requires UniqueBy(before, AffKey) && NoneAtOrBelow(before, to)
    requires AffsAfter(before, affs, done, from, to)
    requires row in before && AtOrBelow(from, row.name) && row.name !in done
    requires forall n | n in done :: AtOrBelow(from, n)
    ensures var name, prekey := ReplaceFirst(row.name, from, to), ReplaceFirst(row.prekey, from, to);
            var updated := UpdateAff(affs, row.name, name, prekey);
            && UniqueBy(updated, AffKey)
            && AffsAfter(before, updated, done + {row.name}, from, to)
    ensures exists i | 0 <= i < |affs| :: affs[i].name == row.name
  {
    ImageInverts(from, to, row.name);
    var k :| 0 <= k < |before| && before[k] == row;
    assert affs[k].name == row.name;
    var updated := UpdateAff(affs, row.name, ReplaceFirst(row.name, from, to), ReplaceFirst(row.prekey, from, to));
    forall i | 0 <= i < |before| && i != k ensures updated[i] == affs[i] && affs[i].name != row.name {
      if before[i].name in done {
        ImageInverts(from, to, before[i].name);
        assert !AtOrBelow(to, before[k].name);
      }
    }
    RenamedUnique(before, updated, done + {row.name}, from, to);
  }

  lemma RenamedUnique(before: seq<AffRow>, after: seq<AffRow>, done: set<string>, from: string, to: string)
    requires UniqueBy(before, AffKey) && NoneAtOrBelow(before, to)
    requires AffsAfter(before, after, done, from, to)
    requires forall n | n in done :: AtOrBelow(from, n)
    ensures UniqueBy(after, AffKey)
  {
    forall i, j | 0 <= i < j < |before| ensures after[i].name != after[j].name {
      if before[i].name in done {
        ImageInverts(from, to, before[i].name);
      }
      if before[j].name in done {
        ImageInverts(from, to, before[j].name);
      }
      assert !AtOrBelow(to, before[i].name) && !AtOrBelow(to, before[j].name);
    }
  }

  /** The users of the next row are those of the original table. */
  lemma MoveUsersStep(before: seq<UserRow>, users: seq<UserRow>, after: seq<UserRow>, done: set<string>,
                      from: string, to: string, at: string)
    requires UsersAfter(before, users, done, from, to)
    requires AtOrBelow(from, at) && at !in done && !AtOrBelow(to, at)
    requires |after| == |users|
    requires forall i | 0 <= i < |users| ::
               if users[i].affiliation == at then Moved(users[i], after[i], Image(from, to, at))
               else after[i] == users[i]
    ensures UsersAfter(before, after, done + {at}, from, to)
    ensures forall i | 0 <= i < |before| :: users[i].affiliation == at <==> before[i].affiliation == at
  {
    forall i | 0 <= i < |before| ensures users[i].affiliation == at <==> before[i].affiliation == at {
      if before[i].affiliation in done && AtOrBelow(from, before[i].affiliation) {
        ImageInverts(from, to, before[i].affiliation);
      }
    }
  }

  lemma {:induction false} CountOne(users: seq<UserRow>, id: string)
    requires UniqueBy(users, UserKey) && HasUser(users, id)
    ensures |Select(users, IdIs(id).Holds)| == 1
  {
    if users[0].name == id {
      KeepAll(users[1..], IdIs(id).Holds);
    } else {
      CountOne(users[1..], id);
    }
  }

  /** With unique identities, naming the selected rows selects them. */
  lemma SelectedNames(users: seq<UserRow>, p: UserRow -> bool, i: nat)
    requires UniqueBy(users, UserKey) && i < |users|
    ensures users[i].name in UserNames(Select(users, p)) <==> p(users[i])
  {
    var rows := Select(users, p);
    KeepMembers(users, p, true);
    if p(users[i]) {
      var k :| 0 <= k < |rows| && rows[k] == users[i];
      assert UserNames(rows)[k] == users[i].name;
    }
    if users[i].name in UserNames(rows) {
      var k :| 0 <= k < |rows| && UserNames(rows)[k] == users[i].name;
      assert rows[k] in users;
      var j :| 0 <= j < |users| && users[j] == rows[k];
      assert UserKey(users[j]) == UserKey(users[i]);
    }
  }

  /** The users at `at` have their column moved; those in `processed` their attributes too. */
  predicate PartlyMoved(before: seq<UserRow>, after: seq<UserRow>, at: string, aff: string, processed: seq<string>) {
    && |after| == |before|
    && forall i | 0 <= i < |before| ::
         if before[i].affiliation == at then
           && after[i] == before[i].(affiliation := aff, attributes := after[i].attributes)
           && (if before[i].name in processed then Reattributed(before[i].attributes, after[i].attributes, aff)
               else after[i].attributes == before[i].attributes)
         else after[i] == before[i]
  }

  lemma PartlyMovedStart(before: seq<UserRow>, at: string, aff: string, ids: seq<string>)
    requires UniqueBy(before, UserKey) && ids == UserNames(Select(before, AffIs(at).Holds))
    ensures PartlyMoved(before, UpdateUsers(before, IdIn(ids), SetAffiliation(aff)), at, aff, [])
  {
    forall i | 0 <= i < |before| ensures before[i].name in ids <==> before[i].affiliation == at {
      SelectedNames(before, AffIs(at).Holds, i);
    }
  }

  lemma PartlyMovedStep(before: seq<UserRow>, users: seq<UserRow>, at: string, aff: string, processed: seq<string>,
                        row: UserRow, attrs: seq<Attribute>)
    requires UniqueBy(before, UserKey) && PartlyMoved(before, users, at, aff, processed)
    requires row in before && row.affiliation == at
    requires Reattributed(row.attributes, attrs, aff)
    ensures |Select(users, IdIs(row.name).Holds)| == 1
    ensures var users' := UpdateUsers(users, IdIs(row.name), SetAttributes(attrs));
            PartlyMoved(before, users', at, aff, processed + [row.name])
  {
    var k :| 0 <= k < |before| && before[k] == row;
    assert forall i | 0 <= i < |before| :: users[i].name == before[i].name;
    assert HasUser(users, row.name) by {
      assert users[k].name == row.name;
    }
    assert UniqueBy(users, UserKey) by {
      forall i, j | 0 <= i < j < |users| ensures UserKey(users[i]) != UserKey(users[j]) {
        assert UserKey(before[i]) != UserKey(before[j]);
      }
    }
    CountOne(users, row.name);
    forall i | 0 <= i < |before| && i != k ensures before[i].name != row.name {
      assert UserKey(before[i]) != UserKey(before[k]);
    }
  }

  lemma PartlyMovedEnd(before: seq<UserRow>, after: seq<UserRow>, at: string, aff: string)
    requires UniqueBy(before, UserKey)
    requires PartlyMoved(before, after, at, aff, UserNames(Select(before, AffIs(at).Holds)))
    ensures forall i | 0 <= i < |before| ::
              if before[i].affiliation == at then Moved(before[i], after[i], aff) else after[i] == before[i]
  {
    forall i | 0 <= i < |before| && before[i].affiliation == at
      ensures Moved(before[i], after[i], aff)
    {
      SelectedNames(before, AffIs(at).Holds, i);
    }
  }

  lemma NobodyMoved(before: seq<UserRow>, at: string, aff: string)
    requires Select(before, AffIs(at).Holds) == []
    ensures PartlyMoved(before, before, at, aff, [])
  {
    forall i | 0 <= i < |before| ensures before[i].affiliation != at {
      KeepMember(before, AffIs(at).Holds, true, before[i]);
    }
  }

  /** The rows a rename works through: those at or below the old name, each once. */
  function OldRows(affs: seq<AffRow>, from: string, root: AffRow): seq<AffRow> {
    Select(affs, NameBelow(from).Holds) + [root]
  }

  lemma OldRowsUnique(affs: seq<AffRow>, from: string, root: AffRow)
    requires UniqueBy(affs, AffKey) && root.name == from
    ensures UniqueBy(OldRows(affs, from, root), AffKey)
  {
    var subs := Select(affs, NameBelow(from).Holds);
    KeepUnique(affs, AffKey, NameBelow(from).Holds, true);
    forall k | 0 <= k < |subs| ensures subs[k].name != from {
      KeepMember(affs, NameBelow(from).Holds, true, subs[k]);
    }
  }

  lemma OldRowsMember(affs: seq<AffRow>, from: string, root: AffRow, k: nat)
    requires root in affs && root.name == from && k < |OldRows(affs, from, root)|
    ensures OldRows(affs, from, root)[k] in affs && AtOrBelow(from, OldRows(affs, from, root)[k].name)
  {
    var subs := Select(affs, NameBelow(from).Holds);
    if k < |subs| {
      KeepMember(affs, NameBelow(from).Holds, true, subs[k]);
    }
  }

  lemma OldRowsAll(affs: seq<AffRow>, from: string, root: AffRow, row: AffRow) returns (k: nat)
    requires root.name == from && row in affs && AtOrBelow(from, row.name)
    ensures k < |OldRows(affs, from, root)| && OldRows(affs, from, root)[k].name == row.name
  {
    var subs := Select(affs, NameBelow(from).Holds);
    if row.name == from {
      k := |subs|;
    } else {
      KeepMember(affs, NameBelow(from).Holds, true, row);
      k :| 0 <= k < |subs| && subs[k] == row;
    }
  }

  /** The whole state between two rows of a rename; `ids` are the identities moved so far. */
  predicate Halfway(t: Tables, affs: seq<AffRow>, users: seq<UserRow>, done: set<string>, ids: seq<string>,
                    from: string, to: string)
  {
    && AffsAfter(t.affs, affs, done, from, to)
    && UsersAfter(t.users, users, done, from, to)
    && (forall n | n in done :: AtOrBelow(from, n) && HasAff(t.affs, n))
    && (forall i | 0 <= i < |t.users| :: t.users[i].name in ids <==> t.users[i].affiliation in done)
  }

  lemma SameKeys(before: seq<UserRow>, after: seq<UserRow>)
    requires UniqueBy(before, UserKey) && |before| == |after|
    requires forall i | 0 <= i < |before| :: after[i].name == before[i].name
    ensures UniqueBy(after, UserKey)
  {
    forall i, j | 0 <= i < j < |after| ensures UserKey(after[i]) != UserKey(after[j]) {
      assert UserKey(before[i]) != UserKey(before[j]);
    }
  }

  lemma HalfwayKeys(t: Tables, affs: seq<AffRow>, users: seq<UserRow>, done: set<string>, ids: seq<string>,
                    from: string, to: string)
    requires Renamable(t, to) && Halfway(t, affs, users, done, ids, from, to)
    ensures UniqueBy(users, UserKey)
  {
    SameKeys(t.users, users);
  }

  lemma HalfwayStart(t: Tables, from: string, to: string)
    ensures Halfway(t, t.affs, t.users, {}, [], from, to) && CarriedAll(t.users, t.users, to)
  {
  }

  lemma HalfwayStep(t: Tables, affs: seq<AffRow>, users: seq<UserRow>, users': seq<UserRow>, done: set<string>,
                    ids: seq<string>, row: AffRow, from: string, to: string)
    requires Renamable(t, to) && Halfway(t, affs, users, done, ids, from, to)
    requires row in t.affs && AtOrBelow(from, row.name) && row.name !in done
    requires |users'| == |users|
    requires forall i | 0 <= i < |users| ::
               if users[i].affiliation == row.name then Moved(users[i], users'[i], Image(from, to, row.name))
               else users'[i] == users[i]
    ensures var name, prekey := ReplaceFirst(row.name, from, to), ReplaceFirst(row.prekey, from, to);
            var updated := UpdateAff(affs, row.name, name, prekey);
            && UniqueBy(updated, AffKey)
            && Halfway(t, updated, users', done + {row.name},
                       ids + UserNames(Select(users, AffIs(row.name).Holds)), from, to)
    ensures Select(affs, NameIs(row.name).Holds) != []
  {
    var k :| 0 <= k < |t.affs| && t.affs[k] == row;
    RenameRow(t.affs, affs, done, from, to, row);
    assert affs[k].name == row.name;
    KeepMember(affs, NameIs(row.name).Holds, true, affs[k]);
    MoveUsersStep(t.users, users, users', done, from, to, row.name);
    HalfwayKeys(t, affs, users, done, ids, from, to);
    var more := UserNames(Select(users, AffIs(row.name).Holds));
    forall i | 0 <= i < |t.users|
      ensures t.users[i].name in ids + more <==> t.users[i].affiliation in done + {row.name}
    {
      SelectedNames(users, AffIs(row.name).Holds, i);
      assert users[i].name == t.users[i].name;
    }
  }

  /** A row that cannot be moved is a user under the old name. */
  lemma HalfwayUser(t: Tables, affs: seq<AffRow>, users: seq<UserRow>, done: set<string>, ids: seq<string>,
                    row: AffRow, from: string, to: string)
    requires Renamable(t, to) && Halfway(t, affs, users, done, ids, from, to)
    requires row in t.affs && AtOrBelow(from, row.name) && row.name !in done
    requires Select(users, AffIs(row.name).Holds) != []
    ensures AnyUnder(t, from)
  {
    var u := Select(users, AffIs(row.name).Holds)[0];
    KeepMember(users, AffIs(row.name).Holds, true, u);
    var i :| 0 <= i < |users| && users[i] == u;
    if t.users[i].affiliation in done {
      ImageInverts(from, to, t.users[i].affiliation);
    }
    var k :| 0 <= k < |t.affs| && t.affs[k] == row;
    assert HasAff(t.affs, row.name);
    assert UnderRow(t.users[i], t.affs, from);
  }

  lemma HalfwayEnd(t: Tables, affs: seq<AffRow>, users: seq<UserRow>, done: set<string>, ids: seq<string>,
                   from: string, to: string)
    requires Renamable(t, to) && Halfway(t, affs, users, done, ids, from, to)
    requires forall i | 0 <= i < |t.affs| && AtOrBelow(from, t.affs[i].name) :: t.affs[i].name in done
    ensures Renamed(t, from, to, Tables(affs, users, t.certs))
    ensures Select(users, IdIn(ids).Holds) == MovedRows(t.users, users, t.affs, from)
    ensures AnyUnder(t, from) <==> exists i | 0 <= i < |t.users| :: t.users[i].name in ids
  {
    forall i | 0 <= i < |t.users| ensures t.users[i].affiliation in done <==> UnderRow(t.users[i], t.affs, from) {
    }
    SelectMoved(t.users, users, t.affs, from, ids);
  }

  predicate Listing(m: map<string, Attribute>, l: seq<Attribute>) {
    UniqueNames(l) && AttrMap(l) == m
  }

  lemma {:induction false} KeepAll<T>(rows: seq<T>, p: T -> bool)
    requires forall x | x in rows :: !p(x)
    ensures Keep(rows, p, false) == rows
    ensures Keep(rows, p, true) == []
  {
    if rows == [] {
    } else {
      KeepAll(rows[1..], p);
    }
  }

  lemma {:induction false} DeleteTwice<T>(rows: seq<T>, p: T -> bool, q: T -> bool, pq: T -> bool)
    requires forall x | x in rows :: pq(x) <==> p(x) || q(x)
    ensures Delete(Delete(rows, p), q) == Delete(rows, pq)
  {
    if rows == [] {
    } else {
      var r, rest := rows[0], Delete(rows[1..], p);
      DeleteTwice(rows[1..], p, q, pq);
      assert r in rows;
      if p(r) {
        assert Delete(rows, p) == rest;
      } else {
        assert Delete(rows, p) == [r] + rest;
        assert ([r] + rest)[1..] == rest;
      }
    }
  }

  lemma RemoveNobody(t: Tables, reason: int, now: int)
    ensures RemoveUsers(t, [], reason, now) == t
  {
    KeepAll(t.users, IdIn([]).Holds);
    assert RevokeCerts(t.certs, UnrevokedOf([]), reason, now) == t.certs;
  }

  /** Deleting the name and then the names below it. */
  lemma DeleteSubtree(affs: seq<AffRow>, name: string)
    ensures Delete(Delete(affs, NameIs(name).Holds), NameBelow(name).Holds) == Delete(affs, NameAtOrBelow(name).Holds)
    ensures Select(affs, NameBelow(name).Holds) == [] ==>
              Delete(affs, NameIs(name).Holds) == Delete(affs, NameAtOrBelow(name).Holds)
  {
    DeleteTwice(affs, NameIs(name).Holds, NameBelow(name).Holds, NameAtOrBelow(name).Holds);
    if Select(affs, NameBelow(name).Holds) == [] {
      var rest := Delete(affs, NameIs(name).Holds);
      forall x | x in rest ensures !NameBelow(name).Holds(x) {
        KeepMember(affs, NameIs(name).Holds, false, x);
        KeepMember(affs, NameBelow(name).Holds, true, x);
      }
      KeepAll(rest, NameBelow(name).Holds);
    }
  }

  class Accessor {
    var affs: seq<AffRow>
    var users: seq<UserRow>
    var certs: seq<CertRow>

    /** How many statements the database has failed so far. */
    ghost var faults: nat

    constructor (t: Tables)
      ensures State() == t
    {
      affs, users, certs := t.affs, t.users, t.certs;
      faults := 0;
    }

    function State(): Tables
      reads this
    {
      Tables(affs, users, certs)
    }

    /** Rollback. */
    method Restore(t: Tables)
      modifies this`affs, this`users, this`certs
      ensures State() == t
    {
      affs, users, certs := t.affs, t.users, t.certs;
    }

    /** Whether the database fails the statement. */
    method Fault() returns (f: bool)
      modifies this`faults
      ensures faults == old(faults) + if f then 1 else 0
    {
      f := *;
      if f {
        faults := faults + 1;
      }
    }

    /** The end of doTransaction: a rollback after an error, a commit, which may fail, otherwise. */
    method Finish<T>(saved: Tables, r: Result<T>) returns (s: Result<T>)
      modifies this
      ensures s == r || (s == Failure(SqlError) && faults > old(faults))
      ensures s == r ==> faults == old(faults)
      ensures State() == if s.Success? then old(State()) else saved
    {
      s := r;
      if s.Success? {
        var fault := Fault();
        if fault {
          s := Failure(SqlError);
        }
      }
      if s.Failure? {
        Restore(saved);
      }
    }

    // ----- single statements

    /** Insert; the affiliation table's UNIQUE constraint turns a repeated name into a no-op. */
    method InsertAffiliation(name: string, prekey: string, level: int)
      modifies this`affs
      ensures affs == if HasAff(old(affs), name) then old(affs) else old(affs) + [AffRow(name, prekey, level)]
    {
      if !HasAff(affs, name) {
        affs := affs + [AffRow(name, prekey, level)];
      }
    }

    /** The users table has no unique constraint on every database; the handler looks first. */
    method InsertUser(row: UserRow)
      modifies this`users
      ensures users == old(users) + [row]
    {
      users := users + [row];
    }

    method UpdateUser(row: UserRow) returns (ok: bool)
      modifies this`users
      ensures users == UpdateUsers(old(users), IdIs(row.name), SetRow(row))
      ensures ok <==> |Select(old(users), IdIs(row.name).Holds)| == 1
    {
      ok := |Select(users, IdIs(row.name).Holds)| == 1;
      users := UpdateUsers(users, IdIs(row.name), SetRow(row));
    }

    /** user.Revoke; an error unless one row was updated. */
    method DisableUser(id: string) returns (ok: bool)
      modifies this`users
      ensures users == UpdateUsers(old(users), IdIs(id), SetState(-1))
      ensures ok <==> |Select(old(users), IdIs(id).Holds)| == 1
    {
      ok := |Select(users, IdIs(id).Holds)| == 1;
      users := UpdateUsers(users, IdIs(id), SetState(-1));
    }

    /** Insert; the primary key of the certificate table rejects a repeated serial and AKI. */
    method InsertCertificate(row: CertRow) returns (ok: bool)
      modifies this`certs
      ensures ok <==> FindCert(old(certs), row.serial, row.aki).None?
      ensures certs == if ok then old(certs) + [row] else old(certs)
    {
      ok := FindCert(certs, row.serial, row.aki).None?;
      if ok {
        certs := certs + [row];
      }
    }

    /** RevokeCertificatesByID: the rows that were not revoked yet, as they were. */
    method RevokeCertificatesById(id: string, reason: int, now: int) returns (rows: seq<CertRow>)
      modifies this`certs
      ensures rows == Select(old(certs), UnrevokedOf([id]).Holds)
      ensures certs == RevokeCerts(old(certs), UnrevokedOf([id]), reason, now)
    {
      rows := Select(certs, UnrevokedOf([id]).Holds);
      certs := RevokeCerts(certs, UnrevokedOf([id]), reason, now);
    }

    method RevokeCertificate(serial: string, aki: string, reason: int, now: int) returns (ok: bool)
      modifies this`certs
      ensures certs == RevokeCerts(old(certs), KeyIs(serial, aki), reason, now)
      ensures ok <==> |Select(old(certs), KeyIs(serial, aki).Holds)| == 1
    {
      ok := |Select(certs, KeyIs(serial, aki).Holds)| == 1;
      certs := RevokeCerts(certs, KeyIs(serial, aki), reason, now);
    }

    // ----- DeleteUser

    method DeleteUser(id: string, now: int) returns (r: Result<UserRow>)
      modifies this
      ensures match r
              case Success(row) =>
                && FindUser(old(users), id) == Some(row)
                && State() == RemoveUsers(old(State()), [id], CESSATION_OF_OPERATION, now)
              case Failure(e) =>
                && State() == old(State())
                && (e == SqlError || (e == NoSuchRow && FindUser(old(users), id).None?))
      ensures r.Success? <==> faults == old(faults) && HasUser(old(users), id)
      ensures r == Failure(SqlError) <==> faults > old(faults)
      ensures faults >= old(faults)
    {
      var saved := State();
      r := DeleteUserTx(id, now);
      r := Finish(saved, r);
    }

    method DeleteUserTx(id: string, now: int) returns (r: Result<UserRow>)
      modifies this
      ensures match r
              case Success(row) =>
                && FindUser(old(users), id) == Some(row)
                && State() == RemoveUsers(old(State()), [id], CESSATION_OF_OPERATION, now)
              case Failure(e) => e == SqlError || (e == NoSuchRow && FindUser(old(users), id).None?)
      ensures r.Success? <==> faults == old(faults) && HasUser(old(users), id)
      ensures r == Failure(SqlError) <==> faults > old(faults)
      ensures faults >= old(faults)
    {
      var fault := Fault();
      if fault {
        return Failure(SqlError);
      }
      var row := FindUser(users, id);
      if row.None? {
        return Failure(NoSuchRow);
      }
      users := Delete(users, IdIn([id]).Holds);
      fault := Fault();
      if fault {
        return Failure(SqlError);
      }
      certs := RevokeCerts(certs, UnrevokedOf([id]), CESSATION_OF_OPERATION, now);
      fault := Fault();
      if fault {
        return Failure(SqlError);
      }
      return Success(row.value);
    }

    // ----- DeleteAffiliation

    method DeleteAffiliation(name: string, force: bool, identityRemoval: bool, isRegistrar: bool, now: int)
      returns (r: Result<TxResult>)
      modifies this
      ensures match r
              case Success(res) =>
                && DeleteError(old(State()), name, force, identityRemoval, isRegistrar) == None
                && res == DeleteResult(old(State()), name)
                && State() == DeletedTables(old(State()), name, now)
              case Failure(e) =>
                && State() == old(State())
                && (e == SqlError || DeleteError(old(State()), name, force, identityRemoval, isRegistrar) == Some(e))
      ensures r.Success? <==>
                && faults == old(faults)
                && HasAff(old(affs), name)
                && (force || !(UserAtOrBelow(old(users), name) || RowBelow(old(affs), name)))
                && (UserAtOrBelow(old(users), name) ==> isRegistrar && identityRemoval)
      ensures r == Failure(SqlError) <==> faults > old(faults)
      ensures faults >= old(faults)
    {
      hide DeleteError, DeleteResult, DeletedTables, HasAff, UserAtOrBelow, RowBelow;
      DeleteErrorIff(State(), name, force, identityRemoval, isRegistrar);
      FoundAff(affs, name);
      if FindAff(affs, name).None? {
        return Failure(NoSuchRow);
      }
      var saved := State();
      r := DeleteAffiliationTx(name, force, identityRemoval, isRegistrar, now);
      r := Finish(saved, r);
    }

    method CollectNames(rows: seq<UserRow>) returns (names: seq<string>)
      ensures names == UserNames(rows)
    {
      names := [];
      for k := 0 to |rows|
        invariant names == UserNames(rows)[..k]
      {
        names := names + [rows[k].name];
      }
    }

    method DeleteAffiliationTx(name: string, force: bool, identityRemoval: bool, isRegistrar: bool, now: int)
      returns (r: Result<TxResult>)
      modifies this
      ensures match r
              case Success(res) =>
                && DeleteError(old(State()), name, force, identityRemoval, isRegistrar) == None
                && res == DeleteResult(old(State()), name)
                && State() == DeletedTables(old(State()), name, now)
              case Failure(e) =>
                FindAff(old(affs), name).Some? ==>
                  e == SqlError || DeleteError(old(State()), name, force, identityRemoval, isRegistrar) == Some(e)
      ensures r.Success? <==>
                && faults == old(faults)
                && HasAff(old(affs), name)
                && (force || !(UserAtOrBelow(old(users), name) || RowBelow(old(affs), name)))
                && (UserAtOrBelow(old(users), name) ==> isRegistrar && identityRemoval)
      ensures r == Failure(SqlError) <==> faults > old(faults)
      ensures faults >= old(faults)
    {
      hide Keep, Select, Delete, RevokeCerts, UserNames, FindAff, HasAff, UserAtOrBelow, RowBelow;
      ghost var t := State();
      DeleteErrorIff(t, name, force, identityRemoval, isRegistrar);
      var fault := Fault();
      if fault {
        return Failure(SqlError);
      }
      var ids := Select(users, AffIs(name).Holds);
      fault := Fault();
      if fault {
        return Failure(SqlError);
      }
      var subAffIds := Select(users, AffBelow(name).Holds);
      ids := ids + subAffIds;
      var idNames := CollectNames(ids);
      if |ids| > 0 {
        if !isRegistrar {
          return Failure(NotRegistrar);
        }
        if !identityRemoval {
          return Failure(RemovalDisabled);
        }
        if !force {
          return Failure(ForceRequired);
        }
      }
      fault := Fault();
      if fault {
        return Failure(SqlError);
      }
      var aff := FindAff(affs, name);
      if aff.None? {
        return Failure(NoSuchRow);
      }
      fault := Fault();
      if fault {
        return Failure(SqlError);
      }
      var allAffs := Select(affs, NameBelow(name).Holds);
      if |allAffs| > 0 && !force {
        return Failure(ForceRequired);
      }
      allAffs := allAffs + [aff.value];
      if |ids| > 0 {
        users := Delete(users, IdIn(idNames).Holds);
        fault := Fault();
        if fault {
          return Failure(SqlError);
        }
        certs := RevokeCerts(certs, UnrevokedOf(idNames), AFFILIATION_CHANGED, now);
        fault := Fault();
        if fault {
          return Failure(SqlError);
        }
      } else {
        RemoveNobody(t, AFFILIATION_CHANGED, now);
      }
      affs := Delete(affs, NameIs(name).Holds);
      fault := Fault();
      if fault {
        return Failure(SqlError);
      }
      DeleteSubtree(t.affs, name);
      if |allAffs| > 1 {
        affs := Delete(affs, NameBelow(name).Holds);
        fault := Fault();
        if fault {
          return Failure(SqlError);
        }
      }
      return Success(TxResult(allAffs, ids));
    }

    // ----- ModifyAffiliation

    method ModifyAffiliation(from: string, to: string, force: bool, isRegistrar: bool) returns (r: Result<TxResult>)
      modifies this
      ensures r.Failure? ==> State() == old(State())
      ensures r.Success? ==> FindAff(old(affs), from).Some? && FindAff(old(affs), to).None?
      ensures certs == old(certs)
      ensures UniqueBy(old(users), UserKey) ==> CarriedAll(old(users), users, to)
      ensures UniqueBy(old(affs), AffKey) ==> UniqueBy(affs, AffKey)
      ensures Renamable(old(State()), to) ==>
                (r.Success? <==>
                 && faults == old(faults)
                 && HasAff(old(affs), from)
                 && ((exists i | 0 <= i < |old(users)| :: AtOrBelow(from, old(users)[i].affiliation)
                        && HasAff(old(affs), old(users)[i].affiliation)) ==> isRegistrar && force))
      ensures r == Failure(SqlError) <==> faults > old(faults)
      ensures faults >= old(faults)
      ensures Renamable(old(State()), to) ==>
                match r
                case Success(res) =>
                  && Renamed(old(State()), from, to, State())
                  && RenameError(old(State()), from, to, force, isRegistrar) == None
                  && res.affs == Select(affs, NameAtOrBelow(to).Holds)
                  && res.users == MovedRows(old(users), users, old(affs), from)
                case Failure(e) =>
                  e == SqlError || RenameError(old(State()), from, to, force, isRegistrar) == Some(e)
    {
      hide Renamed, CarriedAll, UniqueBy, NoneAtOrBelow, RenameError, HasAff, Keep, MovedRows;
      RenameErrorIff(State(), from, to, force, isRegistrar);
      FreeTarget(State(), to);
      HalfwayStart(State(), from, to);
      FoundAff(affs, from);
      if FindAff(affs, from).None? {
        return Failure(NoSuchRow);
      }
      if FindAff(affs, to).Some? {
        return Failure(AffiliationExists);
      }
      var saved := State();
      r := ModifyAffiliationTx(from, to, force, isRegistrar);
      r := Finish(saved, r);
    }

    method ModifyAffiliationTx(from: string, to: string, force: bool, isRegistrar: bool) returns (r: Result<TxResult>)
      requires FindAff(affs, to).None?
      modifies this`affs, this`users, this`faults
      ensures r.Success? && UniqueBy(old(users), UserKey) ==> CarriedAll(old(users), users, to)
      ensures UniqueBy(old(affs), AffKey) ==> UniqueBy(affs, AffKey)
      ensures r == Failure(SqlError) <==> faults > old(faults)
      ensures faults >= old(faults)
      ensures Renamable(old(State()), to) && FindAff(old(affs), from).Some? ==>
                match r
                case Success(res) =>
                  && Renamed(old(State()), from, to, State())
                  && RenameError(old(State()), from, to, force, isRegistrar) == None
                  && res.affs == Select(affs, NameAtOrBelow(to).Holds)
                  && res.users == MovedRows(old(users), users, old(affs), from)
                case Failure(e) =>
                  e == SqlError || RenameError(old(State()), from, to, force, isRegistrar) == Some(e)
    {
      ghost var t := State();
      HalfwayStart(t, from, to);
      hide Halfway, CarriedAll, Renamed, Keep, FindAff, AnyUnder, NoneAtOrBelow, AtOrBelow;
      var fault := Fault();
      if fault {
        return Failure(SqlError);
      }
      var root := FindAff(affs, from);
      if root.None? {
        return Failure(NoSuchRow);
      }
      fault := Fault();
      if fault {
        return Failure(SqlError);
      }
      var olds := Select(affs, NameBelow(from).Holds) + [root.value];
      assert olds == OldRows(t.affs, from, root.value);
      var idsUpdated: seq<string> := [];
      ghost var done: set<string> := {};
      for k := 0 to |olds|
        invariant UniqueBy(t.users, UserKey) ==> CarriedAll(t.users, users, to)
        invariant done == set i | 0 <= i < k :: olds[i].name
        invariant Renamable(t, to) ==> Halfway(t, affs, users, done, idsUpdated, from, to)
        invariant idsUpdated != [] ==> isRegistrar && force
        invariant UniqueBy(t.affs, AffKey) ==> UniqueBy(affs, AffKey)
        invariant faults == old(faults)
      {
        var row := olds[k];
        OldRowsMember(t.affs, from, root.value, k);
        if Renamable(t, to) {
          OldRowsUnique(t.affs, from, root.value);
        }
        var moved := RenameRecord(row, from, to, force, isRegistrar, t, done, idsUpdated);
        if moved.Failure? {
          return Failure(moved.error);
        }
        idsUpdated := idsUpdated + moved.value;
        done := done + {row.name};
      }
      if Renamable(t, to) {
        forall i | 0 <= i < |t.affs| && AtOrBelow(from, t.affs[i].name) ensures t.affs[i].name in done {
          var k := OldRowsAll(t.affs, from, root.value, t.affs[i]);
        }
        HalfwayEnd(t, affs, users, done, idsUpdated, from, to);
      }
      if |idsUpdated| > 0 {
        fault := Fault();
        if fault {
          return Failure(SqlError);
        }
      }
      fault := Fault();
      if fault {
        return Failure(SqlError);
      }
      return Success(TxResult(Select(affs, NameAtOrBelow(to).Holds), Select(users, IdIn(idsUpdated).Holds)));
    }

    /** One round of the rename loop: the users of a row, then the row itself. */
    method RenameRecord(row: AffRow, from: string, to: string, force: bool, isRegistrar: bool,
                        ghost t: Tables, ghost done: set<string>, ghost ids: seq<string>)
      returns (r: Result<seq<string>>)
      requires row in t.affs && AtOrBelow(from, row.name)
      requires UniqueBy(t.users, UserKey) ==> CarriedAll(t.users, users, to)
      requires Renamable(t, to) ==> Halfway(t, affs, users, done, ids, from, to) && row.name !in done
      modifies this`affs, this`users, this`faults
      ensures r.Success? && UniqueBy(t.users, UserKey) ==> CarriedAll(t.users, users, to)
      ensures UniqueBy(old(affs), AffKey) ==> UniqueBy(affs, AffKey)
      ensures r == Failure(SqlError) <==> faults > old(faults)
      ensures faults >= old(faults)
      ensures r.Success? && r.value != [] ==> isRegistrar && force
      ensures Renamable(t, to) ==>
                match r
                case Success(moved) => Halfway(t, affs, users, done + {row.name}, ids + moved, from, to)
                case Failure(e) =>
                  e == SqlError || (e == (if isRegistrar then ForceRequired else NotRegistrar)
                                    && !(isRegistrar && force) && AnyUnder(t, from))
    {
      hide Halfway, CarriedAll, UniqueBy, NoneAtOrBelow, AnyUnder;
      ImageInverts(from, to, row.name);
      if UniqueBy(t.users, UserKey) {
        CarriedKeys(t.users, users, to);
      }
      var newPath := ReplaceFirst(row.name, from, to);
      var newParentPath := ReplaceFirst(row.prekey, from, to);
      ghost var users0 := users;
      var moved := MoveUsers(row.name, newPath, from, to, force, isRegistrar);
      if moved.Failure? {
        if Renamable(t, to) && moved.error != SqlError {
          HalfwayUser(t, affs, users0, done, ids, row, from, to);
        }
        return moved;
      }
      var fault := Fault();
      if fault {
        return Failure(SqlError);
      }
      var updated := UpdateAff(affs, row.name, newPath, newParentPath);
      if UniqueBy(t.users, UserKey) {
        CarriedStep(t.users, users0, users, row.name, newPath, to);
      }
      if Renamable(t, to) {
        HalfwayStep(t, affs, users0, users, done, ids, row, from, to);
      }
      if !UniqueBy(updated, AffKey) {
        return Failure(ConstraintPanic);
      }
      if Select(affs, NameIs(row.name).Holds) == [] {
        return Failure(RowCount);
      }
      affs := updated;
      return moved;
    }

    /** Moves the users of one affiliation, columns first and attributes after. */
    method MoveUsers(at: string, newPath: string, from: string, to: string, force: bool, isRegistrar: bool)
      returns (r: Result<seq<string>>)
      requires newPath == ReplaceFirst(at, from, to)
      modifies this`users, this`faults
      ensures r == Failure(SqlError) <==> faults > old(faults)
      ensures faults >= old(faults)
      ensures r.Success? && r.value != [] ==> isRegistrar && force
      ensures UniqueBy(old(users), UserKey) ==>
                match r
                case Success(ids) =>
                  && ids == UserNames(Select(old(users), AffIs(at).Holds))
                  && |users| == |old(users)|
                  && (forall i | 0 <= i < |users| ::
                        if old(users)[i].affiliation == at then Moved(old(users)[i], users[i], newPath)
                        else users[i] == old(users)[i])
                case Failure(e) =>
                  e == SqlError || (e == (if isRegistrar then ForceRequired else NotRegistrar)
                                    && !(isRegistrar && force) && Select(old(users), AffIs(at).Holds) != [])
    {
      ghost var users0 := users;
      var fault := Fault();
      if fault {
        return Failure(SqlError);
      }
      var rows := Select(users, AffIs(at).Holds);
      var ids := CollectNames(rows);
      if |rows| > 0 {
        if !isRegistrar {
          return Failure(NotRegistrar);
        }
        if !force {
          return Failure(ForceRequired);
        }
        users := UpdateUsers(users, IdIn(ids), SetAffiliation(newPath));
        fault := Fault();
        if fault {
          return Failure(SqlError);
        }
        if UniqueBy(users0, UserKey) {
          PartlyMovedStart(users0, at, newPath, ids);
        }
        forall j | 0 <= j < |rows| ensures rows[j] in users0 && rows[j].affiliation == at {
          KeepMember(users0, AffIs(at).Holds, true, rows[j]);
        }
        var error := MoveAttributes(rows, from, to, users0, at, newPath);
        if error.Some? {
          return Failure(error.value);
        }
      } else {
        NobodyMoved(users0, at, newPath);
      }
      if UniqueBy(users0, UserKey) {
        PartlyMovedEnd(users0, users, at, newPath);
      }
      return Success(ids);
    }

    /** The loop over the moved users that rewrites hf.Affiliation; an error if some identity is not one row. */
    method MoveAttributes(rows: seq<UserRow>, from: string, to: string,
                          ghost before: seq<UserRow>, ghost at: string, ghost newPath: string)
      returns (error: Option<DbError>)
      requires newPath == ReplaceFirst(at, from, to)
      requires forall j | 0 <= j < |rows| :: rows[j] in before && rows[j].affiliation == at
      requires UniqueBy(before, UserKey) ==> PartlyMoved(before, users, at, newPath, [])
      modifies this`users, this`faults
      ensures error == Some(SqlError) <==> faults > old(faults)
      ensures faults >= old(faults)
      ensures UniqueBy(before, UserKey) ==>
                error == Some(SqlError) || (error == None && PartlyMoved(before, users, at, newPath, UserNames(rows)))
    {
      ghost var ids := UserNames(rows);
      for j := 0 to |rows|
        invariant UniqueBy(before, UserKey) ==> PartlyMoved(before, users, at, newPath, ids[..j])
        invariant faults == old(faults)
      {
        var attrs := SetAffiliationAttribute(rows[j], from, to);
        if UniqueBy(before, UserKey) {
          PartlyMovedStep(before, users, at, newPath, ids[..j], rows[j], attrs);
        }
        var fault := Fault();
        if fault {
          return Some(SqlError);
        }
        if |Select(users, IdIs(rows[j].name).Holds)| != 1 {
          return Some(RowCount);
        }
        users := UpdateUsers(users, IdIs(rows[j].name), SetAttributes(attrs));
        assert ids[..j + 1] == ids[..j] + [rows[j].name];
      }
      assert ids[..|rows|] == ids;
      return None;
    }

    /** The new attribute list of one moved user: list the map, then set hf.Affiliation in it. */
    method SetAffiliationAttribute(row: UserRow, from: string, to: string) returns (attrs: seq<Attribute>)
      ensures Reattributed(row.attributes, attrs, ReplaceFirst(row.affiliation, from, to))
    {
      var current := ListAttributes(AttrMap(row.attributes));
      var userAff := Join(Split(row.affiliation, '.'), '.');
      JoinSplit(row.affiliation, '.');
      var r := Attribute(AFFILIATION, ReplaceFirst(userAff, from, to), false);
      var a := new Attribute[|current|](i requires 0 <= i < |current| => current[i]);
      assert a[..] == current && a[..|current|] == current;
      var b, n := GetNewAttributes(a, |current|, [r]);
      attrs := b[..n];
      NewAttributesRefinesMap(current, [r]);
      assert ApplyAllToMap(AttrMap(current), [r]) == ApplyToMap(AttrMap(current), r);
    }

    /** GetAttributes(nil): the map's entries in the order the iteration happens to visit them. */
    method ListAttributes(m: map<string, Attribute>) returns (l: seq<Attribute>)
      requires forall k | k in m :: m[k].name == k
      ensures Listing(m, l)
    {
      var rest := m.Keys;
      l := [];
      while rest != {}
        invariant rest <= m.Keys
        invariant UniqueNames(l)
        invariant forall k :: k in AttrMap(l) <==> k in m && k !in rest
        invariant forall k | k in AttrMap(l) :: AttrMap(l)[k] == m[k]
      {
        var k :| k in rest;
        ghost var l0 := l;
        l := l + [m[k]];
        rest := rest - {k};
        assert l[..|l| - 1] == l0;
        assert !HasName(l0, k) by {
          LookupIsMap(l0, k);
          HasNameLookup(l0, k);
        }
      }
    }
  }
}
