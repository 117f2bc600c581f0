/**
 The affiliation table as a tree of dotted names: what adding, deleting and renaming keep, and
 exactly when a rename keeps it.
*/
module AffiliationTable {
  import opened Basics
  import opened Strings
  import opened Paths
  import opened Attributes
  import opened Tables
  import opened Delegation
  import opened Registry

  predicate ParentClosed(affs: seq<AffRow>) {
    forall i | 0 <= i < |affs| && Nested(affs[i].name) :: HasAff(affs, Parent(affs[i].name))
  }

  predicate PrekeysExact(affs: seq<AffRow>) {
    forall i | 0 <= i < |affs| :: affs[i].prekey == Parent(affs[i].name)
  }

  predicate Affiliated(affs: seq<AffRow>, users: seq<UserRow>) {
    forall i | 0 <= i < |users| :: users[i].affiliation == "" || HasAff(affs, users[i].affiliation)
  }

  /** The referential integrity of the affiliation and user tables. */
  predicate Consistent(t: Tables) {
    && UniqueBy(t.affs, AffKey)
    && UniqueBy(t.users, UserKey)
    && ParentClosed(t.affs)
    && Affiliated(t.affs, t.users)
  }

  /** In a parent-closed table, what lies below an absent name is absent. */
  lemma {:induction false} AbsentBelow(affs: seq<AffRow>, name: string, n: string)
    requires ParentClosed(affs) && !HasAff(affs, name) && AtOrBelow(name, n)
    ensures !HasAff(affs, n)
    decreases |n|
  {
    if HasAff(affs, n) {
      BelowHasParent(name, n);
      AbsentBelow(affs, name, Parent(n));
    }
  }

  lemma AbsentMeansRenamable(t: Tables, to: string)
    requires Consistent(t) && !HasAff(t.affs, to)
    ensures Renamable(t, to)
  {
    forall i | 0 <= i < |t.affs| ensures !AtOrBelow(to, t.affs[i].name) {
      if AtOrBelow(to, t.affs[i].name) {
        AbsentBelow(t.affs, to, t.affs[i].name);
      }
    }
  }

  // ----- adding

  function InsertAff(affs: seq<AffRow>, name: string, prekey: string, level: int): seq<AffRow> {
    if HasAff(affs, name) then affs else affs + [AffRow(name, prekey, level)]
  }

  /** The name and, before it, whatever is missing of its ancestors. */
  function WithAncestors(affs: seq<AffRow>, name: string, level: int): seq<AffRow>
    decreases |name|
  {
    if Nested(name) then InsertAff(WithAncestors(affs, Parent(name), level), name, Parent(name), level)
    else InsertAff(affs, name, "", level)
  }

  lemma HasInsert(affs: seq<AffRow>, name: string, prekey: string, level: int, n: string)
    ensures HasAff(InsertAff(affs, name, prekey, level), n) <==> HasAff(affs, n) || n == name
  {
    var after := InsertAff(affs, name, prekey, level);
    if HasAff(affs, n) {
      var i :| 0 <= i < |affs| && affs[i].name == n;
      assert after[i].name == n;
    }
    if n == name && !HasAff(affs, name) {
      assert after[|affs|].name == n;
    }
  }

  lemma InsertKeeps(affs: seq<AffRow>, name: string, level: int)
    requires UniqueBy(affs, AffKey) && ParentClosed(affs)
    requires Nested(name) ==> HasAff(affs, Parent(name))
    ensures var after := InsertAff(affs, name, Parent(name), level);
            && UniqueBy(after, AffKey) && ParentClosed(after)
            && (PrekeysExact(affs) ==> PrekeysExact(after))
  {
    var after := InsertAff(affs, name, Parent(name), level);
    forall i | 0 <= i < |after| && Nested(after[i].name) ensures HasAff(after, Parent(after[i].name)) {
      HasInsert(affs, name, Parent(name), level, Parent(after[i].name));
    }
  }

  /** A forced add keeps the table a tree and adds exactly the missing ancestors-or-self of the name. */
  lemma {:induction false} ForcedAdd(affs: seq<AffRow>, name: string, level: int)
    requires UniqueBy(affs, AffKey) && ParentClosed(affs)
    ensures var after := WithAncestors(affs, name, level);
            && UniqueBy(after, AffKey) && ParentClosed(after)
            && (PrekeysExact(affs) ==> PrekeysExact(after))
            && affs <= after
            && forall n :: HasAff(after, n) <==> HasAff(affs, n) || AtOrBelow(n, name)
    decreases |name|
  {
    var base := if Nested(name) then WithAncestors(affs, Parent(name), level) else affs;
    if Nested(name) {
      ForcedAdd(affs, Parent(name), level);
      assert HasAff(base, Parent(name));
    }
    InsertKeeps(base, name, level);
    forall n ensures HasAff(InsertAff(base, name, Parent(name), level), n) <==> HasAff(affs, n) || AtOrBelow(n, name) {
      HasInsert(base, name, Parent(name), level, n);
      AncestorsOf(n, name);
    }
  }

  /** The names at or above a name: itself, and those at or above its parent. */
  lemma AncestorsOf(n: string, name: string)
    ensures AtOrBelow(n, name) <==> n == name || (Nested(name) && AtOrBelow(n, Parent(name)))
  {
    if Below(n, name) {
      BelowHasParent(n, name);
    }
    if Nested(name) && AtOrBelow(n, Parent(name)) {
      ParentPrefix(name);
      BelowTransitive(n, Parent(name), name);
    }
  }

  // ----- deleting

  lemma UsersUnderMember(t: Tables, name: string, u: UserRow)
    ensures u in UsersUnder(t, name) <==> u in t.users && AtOrBelow(name, u.affiliation)
  {
    KeepMember(t.users, AffIs(name).Holds, true, u);
    KeepMember(t.users, AffBelow(name).Holds, true, u);
  }

  /** With unique identities, deleting by name deletes exactly the users of the subtree. */
  lemma NamesUnder(t: Tables, name: string, u: UserRow)
    requires UniqueBy(t.users, UserKey) && u in t.users
    ensures u.name in UserNames(UsersUnder(t, name)) <==> AtOrBelow(name, u.affiliation)
  {
    var rows := UsersUnder(t, name);
    UsersUnderMember(t, name, u);
    if u in rows {
      var k :| 0 <= k < |rows| && rows[k] == u;
      assert UserNames(rows)[k] == u.name;
    }
    if u.name in UserNames(rows) {
      var k :| 0 <= k < |rows| && UserNames(rows)[k] == u.name;
      UsersUnderMember(t, name, rows[k]);
      var i :| 0 <= i < |t.users| && t.users[i] == u;
      var j :| 0 <= j < |t.users| && t.users[j] == rows[k];
      assert UserKey(t.users[i]) == UserKey(t.users[j]);
    }
  }

  lemma DeletedMembers(t: Tables, name: string, now: int)
    requires UniqueBy(t.users, UserKey)
    ensures forall r :: r in DeletedTables(t, name, now).affs <==> r in t.affs && !AtOrBelow(name, r.name)
    ensures forall u :: u in DeletedTables(t, name, now).users <==> u in t.users && !AtOrBelow(name, u.affiliation)
  {
    KeepMembers(t.affs, NameAtOrBelow(name).Holds, false);
    KeepMembers(t.users, IdIn(UserNames(UsersUnder(t, name))).Holds, false);
    forall u | u in t.users
      ensures u in DeletedTables(t, name, now).users <==> !AtOrBelow(name, u.affiliation)
    {
      NamesUnder(t, name, u);
    }
  }

  /** What is outside the deleted subtree stays. */
  lemma StillThere(t: Tables, name: string, now: int, n: string)
    requires UniqueBy(t.users, UserKey) && HasAff(t.affs, n) && !AtOrBelow(name, n)
    ensures HasAff(DeletedTables(t, name, now).affs, n)
  {
    DeletedMembers(t, name, now);
    HasAffMember(t.affs, n);
    HasAffMember(DeletedTables(t, name, now).affs, n);
  }

  lemma DeleteKeepsConsistent(t: Tables, name: string, now: int)
    requires Consistent(t)
    ensures Consistent(DeletedTables(t, name, now))
  {
    var t' := DeletedTables(t, name, now);
    KeepUnique(t.affs, AffKey, NameAtOrBelow(name).Holds, false);
    KeepUnique(t.users, UserKey, IdIn(UserNames(UsersUnder(t, name))).Holds, false);
    DeletedMembers(t, name, now);
    forall i | 0 <= i < |t'.affs| && Nested(t'.affs[i].name) ensures HasAff(t'.affs, Parent(t'.affs[i].name)) {
      var r := t'.affs[i];
      assert r in t'.affs;
      var k :| 0 <= k < |t.affs| && t.affs[k] == r;
      AncestorsOf(name, r.name);
      StillThere(t, name, now, Parent(r.name));
    }
    forall i | 0 <= i < |t'.users| && t'.users[i].affiliation != "" ensures HasAff(t'.affs, t'.users[i].affiliation) {
      var u := t'.users[i];
      assert u in t'.users;
      var k :| 0 <= k < |t.users| && t.users[k] == u;
      StillThere(t, name, now, u.affiliation);
    }
  }

  /** The rows of the deleted subtree, seen from the result. */
  lemma {:induction false} RootIsRest(affs: seq<AffRow>, root: AffRow)
    requires UniqueBy(affs, AffKey) && root in affs
    ensures multiset(Select(affs, NameAtOrBelow(root.name).Holds)) ==
            multiset(Select(affs, NameBelow(root.name).Holds) + [root])
  {
    var head, tail := affs[0], affs[1..];
    assert affs == [head] + tail;
    if head == root {
      SelectSame(tail, root.name);
    } else {
      assert AffKey(head) != AffKey(root);
      RootIsRest(tail, root);
    }
  }

  lemma {:induction false} SelectSame(affs: seq<AffRow>, name: string)
    requires forall i | 0 <= i < |affs| :: affs[i].name != name
    ensures Select(affs, NameAtOrBelow(name).Holds) == Select(affs, NameBelow(name).Holds)
  {
    if affs == [] {
    } else {
      SelectSame(affs[1..], name);
    }
  }

  lemma {:induction false} UsersSplit(users: seq<UserRow>, name: string)
    ensures multiset(Select(users, AffIs(name).Holds) + Select(users, AffBelow(name).Holds)) ==
            multiset(Select(users, AffAtOrBelow(name).Holds))
  {
    if users == [] {
    } else {
      UsersSplit(users[1..], name);
    }
  }

  lemma {:induction false} SelectSameTest<T>(rows: seq<T>, p: T -> bool, q: T -> bool, want: bool)
    requires forall x | x in rows :: p(x) == q(x)
    ensures Keep(rows, p, want) == Keep(rows, q, want)
  {
    if rows == [] {
    } else {
      assert rows[0] in rows;
      SelectSameTest(rows[1..], p, q, want);
    }
  }

  lemma DeleteConservesAffs(t: Tables, name: string, now: int)
    requires UniqueBy(t.affs, AffKey) && FindAff(t.affs, name).Some?
    ensures multiset(t.affs) == multiset(DeletedTables(t, name, now).affs) + multiset(DeleteResult(t, name).affs)
    ensures forall r | r in DeleteResult(t, name).affs :: AtOrBelow(name, r.name)
  {
    KeepConserves(t.affs, NameAtOrBelow(name).Holds);
    RootIsRest(t.affs, FindAff(t.affs, name).value);
    KeepMembers(t.affs, NameBelow(name).Holds, true);
  }

  lemma DeleteConservesUsers(t: Tables, name: string, now: int)
    requires UniqueBy(t.users, UserKey)
    ensures multiset(t.users) == multiset(DeletedTables(t, name, now).users) + multiset(UsersUnder(t, name))
    ensures forall u | u in UsersUnder(t, name) :: AtOrBelow(name, u.affiliation)
  {
    var rows := UsersUnder(t, name);
    forall u | u in t.users ensures AffAtOrBelow(name).Holds(u) == IdIn(UserNames(rows)).Holds(u) {
      NamesUnder(t, name, u);
    }
    SelectSameTest(t.users, AffAtOrBelow(name).Holds, IdIn(UserNames(rows)).Holds, false);
    KeepConserves(t.users, AffAtOrBelow(name).Holds);
    UsersSplit(t.users, name);
    forall u | u in rows ensures AtOrBelow(name, u.affiliation) {
      UsersUnderMember(t, name, u);
    }
  }

  lemma DeleteRevokes(t: Tables, name: string, now: int)
    ensures var t' := DeletedTables(t, name, now);
            && |t'.certs| == |t.certs|
            && (forall i | 0 <= i < |t.certs| ::
                  t'.certs[i] == if !t.certs[i].revoked && HasUser(UsersUnder(t, name), t.certs[i].id)
                                 then t.certs[i].(revoked := true, reason := AFFILIATION_CHANGED, revokedAt := now)
                                 else t.certs[i])
  {
    forall i | 0 <= i < |t.certs|
      ensures t.certs[i].id in UserNames(UsersUnder(t, name)) <==> HasUser(UsersUnder(t, name), t.certs[i].id)
    {
      NamesAreUsers(UsersUnder(t, name), t.certs[i].id);
    }
  }

  /**
   Deleting an affiliation loses nothing: the rows before are the rows after and the rows returned,
   and exactly the unrevoked certificates of the returned users become revoked (affiliationChanged).
  */
  lemma DeleteConserves(t: Tables, name: string, now: int)
    requires UniqueBy(t.affs, AffKey) && UniqueBy(t.users, UserKey) && FindAff(t.affs, name).Some?
    ensures var t', res := DeletedTables(t, name, now), DeleteResult(t, name);
            && multiset(t.affs) == multiset(t'.affs) + multiset(res.affs)
            && multiset(t.users) == multiset(t'.users) + multiset(res.users)
            && (forall r | r in res.affs :: AtOrBelow(name, r.name))
            && (forall u | u in res.users :: AtOrBelow(name, u.affiliation))
            && |t'.certs| == |t.certs|
            && (forall i | 0 <= i < |t.certs| ::
                  t'.certs[i] == if !t.certs[i].revoked && HasUser(res.users, t.certs[i].id)
                                 then t.certs[i].(revoked := true, reason := AFFILIATION_CHANGED, revokedAt := now)
                                 else t.certs[i])
  {
    DeleteConservesAffs(t, name, now);
    DeleteConservesUsers(t, name, now);
    DeleteRevokes(t, name, now);
  }

  lemma NamesAreUsers(rows: seq<UserRow>, id: string)
    ensures id in UserNames(rows) <==> HasUser(rows, id)
  {
    if HasUser(rows, id) {
      var k :| 0 <= k < |rows| && rows[k].name == id;
      assert UserNames(rows)[k] == id;
    }
  }

  // ----- renaming

  /** What a rename changes of any row, and what it leaves. */
  lemma RenameMeans(t: Tables, from: string, to: string, t': Tables)
    requires Renamed(t, from, to, t')
    ensures t'.certs == t.certs && |t'.affs| == |t.affs| && |t'.users| == |t.users|
    ensures forall i | 0 <= i < |t.affs| ::
              var n := t.affs[i].name;
              && t'.affs[i].name == (if n == from || from + "." <= n then to + n[|from|..] else n)
              && t'.affs[i].level == t.affs[i].level
    ensures forall i | 0 <= i < |t.users| ::
              var u, v := t.users[i], t'.users[i];
              var a := u.affiliation;
              if (a == from || from + "." <= a) && HasAff(t.affs, a) then
                && v.affiliation == to + a[|from|..]
                && v == u.(affiliation := v.affiliation, attributes := v.attributes)
                && Lookup(v.attributes, "hf.Affiliation") ==
                     (if v.affiliation == "" then None else Some(Attribute("hf.Affiliation", v.affiliation, false)))
                && forall name | name != "hf.Affiliation" :: Lookup(v.attributes, name) == Lookup(u.attributes, name)
              else
                v == u
  {
    forall i | 0 <= i < |t.users| && UnderRow(t.users[i], t.affs, from)
      ensures Carried(t.users[i], t'.users[i])
      ensures var v := t'.users[i];
              Lookup(v.attributes, AFFILIATION) ==
              if v.affiliation == "" then None else Some(Attribute(AFFILIATION, v.affiliation, false))
    {
      MovedIsCarried(t.users[i], t'.users[i], Image(from, to, t.users[i].affiliation));
      LookupIsMap(t'.users[i].attributes, AFFILIATION);
    }
  }

  /** The users a rename reports: the new rows of exactly those that moved, each once. */
  lemma {:induction false} MovedRowsAre(before: seq<UserRow>, after: seq<UserRow>, affs: seq<AffRow>, from: string)
    requires |before| == |after|
    ensures forall v :: v in MovedRows(before, after, affs, from) <==>
              exists i | 0 <= i < |before| ::
                after[i] == v && AtOrBelow(from, before[i].affiliation) && HasAff(affs, before[i].affiliation)
    ensures UniqueBy(after, UserKey) ==> UniqueBy(MovedRows(before, after, affs, from), UserKey)
  {
    hide HasAff, AtOrBelow;
    if before == [] {
    } else {
      var rest := MovedRows(before[1..], after[1..], affs, from);
      MovedRowsAre(before[1..], after[1..], affs, from);
      forall i | 0 <= i < |before[1..]| ensures before[1..][i] == before[i + 1] && after[1..][i] == after[i + 1] {
      }
      if UniqueBy(after, UserKey) {
        forall j | 0 <= j < |rest| ensures UserKey(rest[j]) != UserKey(after[0]) {
          assert rest[j] in rest;
          var i :| 0 <= i < |before[1..]| && after[1..][i] == rest[j];
          assert UserKey(after[i + 1]) != UserKey(after[0]);
        }
      }
    }
  }

  lemma RenamedHas(t: Tables, from: string, to: string, t': Tables, n: string)
    requires Renamed(t, from, to, t')
    ensures HasAff(t'.affs, n) <==>
            || (HasAff(t.affs, n) && !AtOrBelow(from, n))
            || (AtOrBelow(to, n) && AtOrBelow(from, Image(to, from, n)) && HasAff(t.affs, Image(to, from, n)))
  {
    if HasAff(t'.affs, n) {
      var i :| 0 <= i < |t'.affs| && t'.affs[i].name == n;
      if AtOrBelow(from, t.affs[i].name) {
        ImageInverts(from, to, t.affs[i].name);
      }
    }
    if HasAff(t.affs, n) && !AtOrBelow(from, n) {
      var i :| 0 <= i < |t.affs| && t.affs[i].name == n;
      assert t'.affs[i].name == n;
    }
    if AtOrBelow(to, n) && AtOrBelow(from, Image(to, from, n)) && HasAff(t.affs, Image(to, from, n)) {
      var i :| 0 <= i < |t.affs| && t.affs[i].name == Image(to, from, n);
      ImageInverts(to, from, n);
      assert t'.affs[i].name == n;
    }
  }

  /** A rename is safe when the new name hangs off a row that stays: the guard a caller could check. */
  predicate SafeTarget(t: Tables, from: string, to: string) {
    Nested(to) ==> HasAff(t.affs, Parent(to)) && !Below(from, to)
  }

  lemma UnmovedHas(t: Tables, from: string, to: string, t': Tables, n: string)
    requires Renamed(t, from, to, t') && HasAff(t.affs, n) && !AtOrBelow(from, n)
    ensures HasAff(t'.affs, n)
  {
    RenamedHas(t, from, to, t', n);
  }

  lemma MovedHas(t: Tables, from: string, to: string, t': Tables, n: string)
    requires Renamed(t, from, to, t') && HasAff(t.affs, n) && AtOrBelow(from, n)
    ensures HasAff(t'.affs, Image(from, to, n))
  {
    var i :| 0 <= i < |t.affs| && t.affs[i].name == n;
    assert t'.affs[i].name == Image(from, to, n);
  }

  lemma RenameKeepsClosed(t: Tables, from: string, to: string, t': Tables)
    requires ParentClosed(t.affs) && Renamed(t, from, to, t') && SafeTarget(t, from, to)
    ensures ParentClosed(t'.affs)
  {
    forall i | 0 <= i < |t'.affs| && Nested(t'.affs[i].name) ensures HasAff(t'.affs, Parent(t'.affs[i].name)) {
      var n := t.affs[i].name;
      if n == from {
        assert t'.affs[i].name == to;
        AncestorsOf(from, to);
        ComponentwiseParent(from, to);
        UnmovedHas(t, from, to, t', Parent(to));
      } else if Below(from, n) {
        ImageParent(from, to, n);
        MovedHas(t, from, to, t', Parent(n));
      } else {
        AncestorsOf(from, n);
        UnmovedHas(t, from, to, t', Parent(n));
      }
    }
  }

  /** Outside the old subtree, the target's parent is outside it too. */
  lemma ComponentwiseParent(from: string, to: string)
    requires Nested(to) && !Below(from, to)
    ensures !AtOrBelow(from, Parent(to))
  {
    if AtOrBelow(from, Parent(to)) {
      ParentPrefix(to);
      BelowTransitive(from, Parent(to), to);
    }
  }

  lemma RenameBreaksClosed(t: Tables, from: string, to: string, t': Tables)
    requires Consistent(t) && Renamed(t, from, to, t')
    requires HasAff(t.affs, from) && !HasAff(t.affs, to) && !SafeTarget(t, from, to)
    ensures !ParentClosed(t'.affs)
  {
    var i :| 0 <= i < |t.affs| && t.affs[i].name == from;
    assert t'.affs[i].name == to;
    RenamedHas(t, from, to, t', Parent(to));
    AncestorsOf(from, to);
    ParentPrefix(to);
    // the parent is shorter than the target, so it is not in the new subtree
    assert !AtOrBelow(to, Parent(to));
  }

  /** Exactly when a successful rename keeps the table parent-closed. */
  lemma RenameClosedIff(t: Tables, from: string, to: string, t': Tables)
    requires Consistent(t) && Renamed(t, from, to, t')
    requires HasAff(t.affs, from) && !HasAff(t.affs, to)
    ensures ParentClosed(t'.affs) <==> SafeTarget(t, from, to)
  {
    if SafeTarget(t, from, to) {
      RenameKeepsClosed(t, from, to, t');
    } else {
      RenameBreaksClosed(t, from, to, t');
    }
  }

  /** Both ways out of the guard are real: a missing parent, and a target inside the old subtree. */
  lemma RenameOutsideTheGuard()
    ensures forall t' | Renamed(Tables([AffRow("a", "", 0)], [], []), "a", "x.y", t') :: !ParentClosed(t'.affs)
    ensures forall t' | Renamed(Tables([AffRow("a", "", 0)], [], []), "a", "a.b", t') :: !ParentClosed(t'.affs)
  {
    var t := Tables([AffRow("a", "", 0)], [], []);
    assert t.affs[0].name == "a";
    ParentOf("x", "y");
    ParentOf("a", "b");
    assert "x" + "." + "y" == "x.y" && "a" + "." + "b" == "a.b";
    forall t', to | Renamed(t, "a", to, t') && to in {"x.y", "a.b"} ensures !ParentClosed(t'.affs) {
      assert t'.affs[0].name == to;
      assert Nested(t'.affs[0].name);
      assert |t'.affs| == 1;
    }
  }

  lemma RenamedStaysUnique(t: Tables, from: string, to: string, t': Tables)
    requires Renamable(t, to) && Renamed(t, from, to, t')
    ensures UniqueBy(t'.affs, AffKey)
  {
    var done := set r | r in t.affs && AtOrBelow(from, r.name) :: r.name;
    assert AffsAfter(t.affs, t'.affs, done, from, to) by {
      forall i | 0 <= i < |t.affs| ensures t.affs[i].name in done <==> AtOrBelow(from, t.affs[i].name) {
        assert t.affs[i] in t.affs;
      }
    }
    RenamedUnique(t.affs, t'.affs, done, from, to);
  }

  lemma RenameKeepsConsistent(t: Tables, from: string, to: string, t': Tables)
    requires Consistent(t) && Renamed(t, from, to, t') && SafeTarget(t, from, to)
    requires !HasAff(t.affs, to)
    ensures Consistent(t')
  {
    AbsentMeansRenamable(t, to);
    RenamedStaysUnique(t, from, to, t');
    RenameKeepsClosed(t, from, to, t');
    SameKeys(t.users, t'.users);
    forall i | 0 <= i < |t'.users| && t'.users[i].affiliation != "" ensures HasAff(t'.affs, t'.users[i].affiliation) {
      var a := t.users[i].affiliation;
      if UnderRow(t.users[i], t.affs, from) {
        MovedHas(t, from, to, t', a);
      } else {
        UnmovedHas(t, from, to, t', a);
      }
    }
  }

  /** Renaming back undoes the rename of every name and every user's affiliation. */
  lemma RenameBack(t: Tables, from: string, to: string, t': Tables, t'': Tables)
    requires Renamed(t, from, to, t') && Renamed(t', to, from, t'')
    requires NoneAtOrBelow(t.affs, to) && Affiliated(t.affs, t.users) && to != ""
    ensures |t''.affs| == |t.affs| && forall i | 0 <= i < |t.affs| :: t''.affs[i].name == t.affs[i].name
    ensures |t''.users| == |t.users|
    ensures forall i | 0 <= i < |t.users| ::
              t''.users[i] == t.users[i].(attributes := t''.users[i].attributes)
  {
    forall i | 0 <= i < |t.affs| ensures t''.affs[i].name == t.affs[i].name {
      if AtOrBelow(from, t.affs[i].name) {
        ImageInverts(from, to, t.affs[i].name);
      }
    }
    forall i | 0 <= i < |t.users| ensures t''.users[i] == t.users[i].(attributes := t''.users[i].attributes) {
      var a := t.users[i].affiliation;
      if UnderRow(t.users[i], t.affs, from) {
        ImageInverts(from, to, a);
        MovedHas(t, from, to, t', a);
        assert UnderRow(t'.users[i], t'.affs, to);
      } else if a != "" {
        var k :| 0 <= k < |t.affs| && t.affs[k].name == a;
        assert !AtOrBelow(to, a);
      } else {
        assert !AtOrBelow(to, a);
      }
    }
  }

  /** The prekey column: kept exact by a rename within the same parent, and only by that. */
  lemma RenamePrekeys(t: Tables, from: string, to: string, t': Tables)
    requires PrekeysExact(t.affs) && Renamed(t, from, to, t')
    requires HasAff(t.affs, from) && from != to
    ensures PrekeysExact(t'.affs) <==> from != "" && Parent(from) == Parent(to)
    ensures forall i | 0 <= i < |t.affs| && t.affs[i].name != from :: t'.affs[i].prekey == Parent(t'.affs[i].name)
  {
    forall i | 0 <= i < |t.affs| && t.affs[i].name != from ensures t'.affs[i].prekey == Parent(t'.affs[i].name) {
      if Below(from, t.affs[i].name) {
        ImageParent(from, to, t.affs[i].name);
        ImageInverts(from, to, Parent(t.affs[i].name));
      }
    }
    forall i | 0 <= i < |t.affs| && t.affs[i].name == from
      ensures t'.affs[i].prekey == Parent(t'.affs[i].name) <==> from != "" && Parent(from) == Parent(to)
    {
      assert t'.affs[i].name == to;
      if from == "" {
        assert t'.affs[i].prekey == to;
        ParentShorter(to);
      } else {
        ParentShorter(from);
        ReplaceInShort(Parent(from), from, to);
      }
    }
    var k :| 0 <= k < |t.affs| && t.affs[k].name == from;
    assert t'.affs[k].name == to;
  }

  lemma ParentShorter(n: string)
    ensures n != "" ==> |Parent(n)| < |n|
    ensures Parent(n) == n ==> n == ""
  {
  }
}
