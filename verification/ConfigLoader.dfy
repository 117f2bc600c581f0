/**
 Loading the configured affiliations and identities into the registry (lib/ca.go): the states a run
 can start from.
*/
module ConfigLoader {
  import opened Basics
  import opened Strings
  import opened Paths
  import opened Attributes
  import opened Tables
  import opened Registry
  import opened AffiliationTable
  import opened Handlers
  import opened Safety

  /** A configured value; the entries of a map are in the order it happens to be visited. */
  datatype Value = Nil | Name(name: string) | Many(items: seq<Value>) | Tree(entries: seq<Entry>)

  datatype Entry = Entry(name: string, value: Value)

  function AffiliationPath(name: string, parent: string): string {
    if parent == "" then name else parent + "." + name
  }

  /** A row to be added: its name, and the path of the configuration it was found under. */
  datatype Row = Row(path: string, parent: string)

  /** The rows in the order they are added. */
  function Rows(v: Value, parent: string): seq<Row> {
    match v
    case Nil => []
    case Name(s) => [Row(AffiliationPath(s, parent), parent)]
    case Many(items) => RowsOfAll(items, parent)
    case Tree(entries) => RowsOfEntries(entries, parent)
  }

  function RowsOfAll(items: seq<Value>, parent: string): seq<Row> {
    if items == [] then [] else Rows(items[0], parent) + RowsOfAll(items[1..], parent)
  }

  function RowsOfEntries(entries: seq<Entry>, parent: string): seq<Row> {
    if entries == [] then []
    else
      var path := AffiliationPath(entries[0].name, parent);
      [Row(path, parent)] + Rows(entries[0].value, path) + RowsOfEntries(entries[1..], parent)
  }

  function AddRows(affs: seq<AffRow>, rows: seq<Row>, level: int): seq<AffRow>
    decreases rows
  {
    if rows == [] then affs else AddRows(InsertAff(affs, rows[0].path, rows[0].parent, level), rows[1..], level)
  }

  lemma AddFirst(affs: seq<AffRow>, r: Row, rest: seq<Row>, level: int)
    ensures AddRows(affs, [r] + rest, level) == AddRows(InsertAff(affs, r.path, r.parent, level), rest, level)
  {
    assert ([r] + rest)[1..] == rest;
  }

  lemma {:induction false} AddConcat(affs: seq<AffRow>, a: seq<Row>, b: seq<Row>, level: int)
    ensures AddRows(affs, a + b, level) == AddRows(AddRows(affs, a, level), b, level)
    decreases a
  {
    if a == [] {
      assert a + b == b;
    } else {
      hide *;
      AddConcat(InsertAff(affs, a[0].path, a[0].parent, level), a[1..], b, level);
      AddFirst(affs, a[0], a[1..], level);
      AddFirst(affs, a[0], a[1..] + b, level);
      Regroup(a, b);
    }
  }

  lemma AddOne(affs: seq<AffRow>, row: Row, level: int)
    ensures AddRows(affs, [row], level) == InsertAff(affs, row.path, row.parent, level)
  {
    assert [row][1..] == [];
  }

  class Loader {
    const cfg: Config
    const db: Accessor

    constructor (cfg: Config, db: Accessor)
      ensures this.cfg == cfg && this.db == db
    {
      this.cfg, this.db := cfg, db;
    }

    /** loadAffiliationsTableR. */
    method LoadAffiliations(v: Value, parentPath: string)
      modifies db`affs
      ensures db.affs == AddRows(old(db.affs), Rows(v, parentPath), cfg.affiliationLevel)
      decreases v
    {
      match v
      case Nil =>
      case Name(s) =>
        var path := AffiliationPath(s, parentPath);
        AddOne(db.affs, Row(path, parentPath), cfg.affiliationLevel);
        db.InsertAffiliation(path, parentPath, cfg.affiliationLevel);
      case Many(items) =>
        ghost var affs := db.affs;
        for i := 0 to |items|
          invariant AddRows(db.affs, RowsOfAll(items[i..], parentPath), cfg.affiliationLevel)
                 == AddRows(affs, RowsOfAll(items, parentPath), cfg.affiliationLevel)
        {
          AddConcat(db.affs, Rows(items[i], parentPath), RowsOfAll(items[i + 1..], parentPath), cfg.affiliationLevel);
          LoadAffiliations(items[i], parentPath);
        }
      case Tree(entries) =>
        ghost var affs := db.affs;
        for i := 0 to |entries|
          invariant AddRows(db.affs, RowsOfEntries(entries[i..], parentPath), cfg.affiliationLevel)
                 == AddRows(affs, RowsOfEntries(entries, parentPath), cfg.affiliationLevel)
        {
          var path := AffiliationPath(entries[i].name, parentPath);
          EntryRows(db.affs, entries[i], RowsOfEntries(entries[i + 1..], parentPath), parentPath, cfg.affiliationLevel);
          db.InsertAffiliation(path, parentPath, cfg.affiliationLevel);
          LoadAffiliations(entries[i].value, path);
        }
    }

    /** addIdentity; the identity's limit is settled before it is inserted. */
    method AddIdentity(id: Identity, errIfFound: bool) returns (ok: bool)
      modifies db`users
      ensures var r := WithIdentity(cfg, old(db.users), id);
              && db.users == r.users
              && (ok <==> r.ok && !(errIfFound && HasUser(old(db.users), id.name)))
    {
      if FindUser(db.users, id.name).Some? {
        return !errIfFound;
      }
      var max := AllowedMax(id.maxEnrollments, cfg.maxEnrollments);
      if max.None? {
        return false;
      }
      var rec := id.(maxEnrollments := max.value);
      db.InsertUser(UserRow(rec.name, Hashed(rec.pass), rec.kind, rec.affiliation, rec.attributes, 0,
                            rec.maxEnrollments, cfg.identityLevel));
      return true;
    }

    /** loadUsersTable. */
    method LoadIdentities(ids: seq<Identity>) returns (ok: bool)
      modifies db`users
      ensures Loaded(ok, db.users) == WithIdentities(cfg, old(db.users), ids)
    {
      ghost var users := db.users;
      for i := 0 to |ids|
        invariant WithIdentities(cfg, db.users, ids[i..]) == WithIdentities(cfg, users, ids)
      {
        ok := AddIdentity(ids[i], false);
        if !ok {
          return false;
        }
      }
      return true;
    }
  }

  datatype Identity = Identity(name: string, pass: string, kind: string, affiliation: string,
                               attributes: seq<Attribute>, maxEnrollments: int)

  datatype Loaded = Loaded(ok: bool, users: seq<UserRow>)

  function WithIdentity(cfg: Config, users: seq<UserRow>, id: Identity): Loaded {
    if HasUser(users, id.name) then Loaded(true, users)
    else match AllowedMax(id.maxEnrollments, cfg.maxEnrollments)
      case None => Loaded(false, users)
      case Some(max) =>
        var row := UserRow(id.name, Hashed(id.pass), id.kind, id.affiliation, id.attributes, 0, max, cfg.identityLevel);
        Loaded(true, users + [row])
  }

  /** Up to the first identity whose limit is refused; those before it stay. */
  function WithIdentities(cfg: Config, users: seq<UserRow>, ids: seq<Identity>): Loaded
    decreases ids
  {
    if ids == [] then Loaded(true, users)
    else
      var r := WithIdentity(cfg, users, ids[0]);
      if r.ok then WithIdentities(cfg, r.users, ids[1..]) else r
  }

  lemma EntryRows(affs: seq<AffRow>, e: Entry, rest: seq<Row>, parent: string, level: int)
    ensures var path := AffiliationPath(e.name, parent);
            AddRows(affs, [Row(path, parent)] + Rows(e.value, path) + rest, level) ==
            AddRows(AddRows(InsertAff(affs, path, parent, level), Rows(e.value, path), level), rest, level)
  {
    var path := AffiliationPath(e.name, parent);
    AddConcat(affs, [Row(path, parent)] + Rows(e.value, path), rest, level);
    AddConcat(affs, [Row(path, parent)], Rows(e.value, path), level);
    AddOne(affs, Row(path, parent), level);
  }

  // ----- the affiliation table after loading

  predicate InRows(rows: seq<Row>, path: string) {
    exists i | 0 <= i < |rows| :: rows[i].path == path
  }

  lemma {:induction false} AddHas(affs: seq<AffRow>, rows: seq<Row>, level: int, n: string)
    ensures HasAff(AddRows(affs, rows, level), n) <==> HasAff(affs, n) || InRows(rows, n)
    decreases rows
  {
    if rows == [] {
    } else {
      AddHas(InsertAff(affs, rows[0].path, rows[0].parent, level), rows[1..], level, n);
      HasInsert(affs, rows[0].path, rows[0].parent, level, n);
      InRowsFirst(rows, n);
    }
  }

  lemma InRowsFirst(rows: seq<Row>, n: string)
    requires rows != []
    ensures InRows(rows, n) <==> rows[0].path == n || InRows(rows[1..], n)
  {
    if InRows(rows[1..], n) {
      var i :| 0 <= i < |rows[1..]| && rows[1..][i].path == n;
      assert rows[i + 1].path == n;
    }
    if i :| 0 < i < |rows| && rows[i].path == n {
      assert rows[1..][i - 1].path == n;
    }
  }

  lemma {:induction false} AddKeepsUnique(affs: seq<AffRow>, rows: seq<Row>, level: int)
    requires UniqueBy(affs, AffKey)
    ensures UniqueBy(AddRows(affs, rows, level), AffKey) && affs <= AddRows(affs, rows, level)
    decreases rows
  {
    if rows == [] {
    } else {
      AddKeepsUnique(InsertAff(affs, rows[0].path, rows[0].parent, level), rows[1..], level);
    }
  }

  /** Rows already there change nothing. */
  lemma {:induction false} AddPresent(affs: seq<AffRow>, rows: seq<Row>, level: int)
    requires forall i | 0 <= i < |rows| :: HasAff(affs, rows[i].path)
    ensures AddRows(affs, rows, level) == affs
  {
    if rows == [] {
    } else {
      AddPresent(affs, rows[1..], level);
    }
  }

  // ----- the rows are the paths of the configuration

  /** The names lead through the configuration to an entry. */
  predicate Leads(v: Value, names: seq<string>)
    decreases v
  {
    names != [] &&
    match v
    case Nil => false
    case Name(s) => names == [s]
    case Many(items) => exists i | 0 <= i < |items| :: Leads(items[i], names)
    case Tree(entries) => exists i | 0 <= i < |entries| :: LeadsOn(entries[i], names)
  }

  predicate LeadsOn(e: Entry, names: seq<string>)
    decreases e
  {
    names != [] && names[0] == e.name && (names[1..] == [] || Leads(e.value, names[1..]))
  }

  /** The path the loader reaches from a path along the names. */
  function PathFrom(base: string, names: seq<string>): string {
    if names == [] then base else AffiliationPath(names[|names| - 1], PathFrom(base, names[..|names| - 1]))
  }

  function PathOf(names: seq<string>): string {
    PathFrom("", names)
  }

  /** The row added for the last of the names. */
  function RowAt(base: string, names: seq<string>): Row
    requires names != []
  {
    Row(PathFrom(base, names), PathFrom(base, names[..|names| - 1]))
  }

  lemma {:induction false} PathDeeper(base: string, name: string, rest: seq<string>)
    ensures PathFrom(base, [name] + rest) == PathFrom(AffiliationPath(name, base), rest)
  {
    var names := [name] + rest;
    if rest == [] {
      assert names == [name] && names[..0] == [];
    } else {
      assert names[..|names| - 1] == [name] + rest[..|rest| - 1];
      PathDeeper(base, name, rest[..|rest| - 1]);
    }
  }

  lemma RowDeeper(base: string, name: string, rest: seq<string>)
    requires rest != []
    ensures RowAt(base, [name] + rest) == RowAt(AffiliationPath(name, base), rest)
  {
    var names := [name] + rest;
    PathDeeper(base, name, rest);
    PathDeeper(base, name, rest[..|rest| - 1]);
    assert names[..|names| - 1] == [name] + rest[..|rest| - 1];
  }

  lemma {:induction false} InAll(items: seq<Value>, base: string, r: Row)
    ensures r in RowsOfAll(items, base) <==> exists i | 0 <= i < |items| :: r in Rows(items[i], base)
    decreases items
  {
    if items == [] {
    } else {
      InAll(items[1..], base, r);
      forall i | 0 < i < |items| ensures items[i] == items[1..][i - 1] {
      }
    }
  }

  predicate InEntry(e: Entry, base: string, r: Row) {
    var path := AffiliationPath(e.name, base);
    r == Row(path, base) || r in Rows(e.value, path)
  }

  lemma {:induction false} InEntries(entries: seq<Entry>, base: string, r: Row)
    ensures r in RowsOfEntries(entries, base) <==> exists i | 0 <= i < |entries| :: InEntry(entries[i], base, r)
    decreases entries
  {
    if entries == [] {
    } else {
      InEntries(entries[1..], base, r);
      forall i | 0 < i < |entries| ensures entries[i] == entries[1..][i - 1] {
      }
    }
  }

  ghost predicate LedTo(v: Value, base: string, r: Row) {
    exists names :: Leads(v, names) && r == RowAt(base, names)
  }

  ghost predicate EntryLedTo(e: Entry, base: string, r: Row) {
    exists names :: LeadsOn(e, names) && r == RowAt(base, names)
  }

  /** The rows are those at which the configured names end. */
  lemma {:induction false} RowsAreLed(v: Value, base: string, r: Row)
    ensures r in Rows(v, base) <==> LedTo(v, base, r)
    decreases v
  {
    match v
    case Nil =>
    case Name(s) =>
      assert Leads(v, [s]) && [s][..0] == [];
    case Many(items) =>
      InAll(items, base, r);
      forall i | 0 <= i < |items| ensures r in Rows(items[i], base) <==> LedTo(items[i], base, r) {
        RowsAreLed(items[i], base, r);
      }
      LedToItem(items, base, r);
    case Tree(entries) =>
      InEntries(entries, base, r);
      forall i | 0 <= i < |entries| ensures InEntry(entries[i], base, r) <==> EntryLedTo(entries[i], base, r) {
        EntryRowsAreLed(entries[i], base, r);
      }
      LedToEntry(entries, base, r);
  }

  lemma LedToItem(items: seq<Value>, base: string, r: Row)
    ensures LedTo(Many(items), base, r) <==> exists i | 0 <= i < |items| :: LedTo(items[i], base, r)
  {
    if LedTo(Many(items), base, r) {
      var names :| Leads(Many(items), names) && r == RowAt(base, names);
      var i :| 0 <= i < |items| && Leads(items[i], names);
      assert LedTo(items[i], base, r);
    }
    if i :| 0 <= i < |items| && LedTo(items[i], base, r) {
      var names :| Leads(items[i], names) && r == RowAt(base, names);
      assert Leads(Many(items), names);
    }
  }

  lemma LedToEntry(entries: seq<Entry>, base: string, r: Row)
    ensures LedTo(Tree(entries), base, r) <==> exists i | 0 <= i < |entries| :: EntryLedTo(entries[i], base, r)
  {
    if LedTo(Tree(entries), base, r) {
      var names :| Leads(Tree(entries), names) && r == RowAt(base, names);
      var i :| 0 <= i < |entries| && LeadsOn(entries[i], names);
      assert EntryLedTo(entries[i], base, r);
    }
    if i :| 0 <= i < |entries| && EntryLedTo(entries[i], base, r) {
      var names :| LeadsOn(entries[i], names) && r == RowAt(base, names);
      assert Leads(Tree(entries), names);
    }
  }

  lemma {:induction false} EntryRowsAreLed(e: Entry, base: string, r: Row)
    ensures InEntry(e, base, r) <==> EntryLedTo(e, base, r)
    decreases e
  {
    var path := AffiliationPath(e.name, base);
    RowsAreLed(e.value, path, r);
    assert LeadsOn(e, [e.name]) && [e.name][..0] == [];
    assert RowAt(base, [e.name]) == Row(path, base);
    if LedTo(e.value, path, r) {
      var rest :| Leads(e.value, rest) && r == RowAt(path, rest);
      RowDeeper(base, e.name, rest);
      assert ([e.name] + rest)[1..] == rest;
      assert LeadsOn(e, [e.name] + rest);
    }
    if EntryLedTo(e, base, r) {
      var names :| LeadsOn(e, names) && r == RowAt(base, names);
      assert names == [e.name] + names[1..];
      if names[1..] == [] {
        assert names == [e.name];
      } else {
        RowDeeper(base, e.name, names[1..]);
      }
    }
  }

  /** The name is a path of the configuration. */
  ghost predicate IsPath(v: Value, n: string) {
    exists names :: Leads(v, names) && n == PathOf(names)
  }

  lemma InRowsIsPath(v: Value, n: string)
    ensures InRows(Rows(v, ""), n) <==> IsPath(v, n)
  {
    var rows := Rows(v, "");
    if InRows(rows, n) {
      var i :| 0 <= i < |rows| && rows[i].path == n;
      RowsAreLed(v, "", rows[i]);
    }
    if IsPath(v, n) {
      var names :| Leads(v, names) && n == PathOf(names);
      RowsAreLed(v, "", RowAt("", names));
      var i :| 0 <= i < |rows| && rows[i] == RowAt("", names);
    }
  }

  /** Loading adds exactly the paths of the configuration, whatever the names are. */
  lemma LoadAddsPaths(affs: seq<AffRow>, v: Value, level: int, n: string)
    ensures HasAff(AddRows(affs, Rows(v, ""), level), n) <==> HasAff(affs, n) || IsPath(v, n)
  {
    AddHas(affs, Rows(v, ""), level, n);
    InRowsIsPath(v, n);
  }

  lemma {:induction false} PathBelow(base: string, names: seq<string>)
    requires names != [] && base != ""
    ensures PathFrom(base, names) == base + "." + Join(names, '.')
  {
    var front, last := names[..|names| - 1], names[|names| - 1];
    if front == [] {
      assert names == [last];
    } else {
      PathBelow(base, front);
      JoinConcat(front, [last], '.');
      assert names == front + [last];
    }
  }

  lemma {:induction false} PathIsShort(names: seq<string>)
    requires names != []
    ensures |PathOf(names)| <= |Join(names, '.')|
  {
    var front, last := names[..|names| - 1], names[|names| - 1];
    assert PathOf(names) == AffiliationPath(last, PathOf(front));
    if front == [] {
      assert names == [last];
    } else {
      PathIsShort(front);
      JoinConcat(front, [last], '.');
      assert names == front + [last];
    }
  }

  /** A path is its names joined with dots exactly if it does not start at an empty name with something below. */
  lemma PathJoinedIff(names: seq<string>)
    requires names != []
    ensures PathOf(names) == Join(names, '.') <==> |names| == 1 || names[0] != ""
  {
    assert names == [names[0]] + names[1..];
    PathDeeper("", names[0], names[1..]);
    if |names| == 1 {
      assert names[1..] == [];
    } else if names[0] != "" {
      PathBelow(names[0], names[1..]);
    } else {
      PathIsShort(names[1..]);
    }
  }

  /** Below an empty name at the top: the configured "x" is added as if it stood at the top itself. */
  lemma EmptyName()
    ensures var v := Tree([Entry("", Tree([Entry("x", Nil)]))]);
            AddRows([], Rows(v, ""), 0) == [AffRow("", "", 0), AffRow("x", "", 0)] && Leads(v, ["", "x"])
  {
    var x := Tree([Entry("x", Nil)]);
    var v := Tree([Entry("", x)]);
    assert x.entries[1..] == [] && v.entries[1..] == [];
    assert Rows(x, "") == [Row("x", "")];
    assert Rows(v, "") == [Row("", ""), Row("x", "")];
    assert [Row("", ""), Row("x", "")][1..] == [Row("x", "")];
    AddOne([AffRow("", "", 0)], Row("x", ""), 0);
    assert ["", "x"][1..] == ["x"] && ["x"][1..] == [];
    assert LeadsOn(x.entries[0], ["x"]) && LeadsOn(v.entries[0], ["", "x"]);
  }

  // ----- the order in which maps are visited

  /** The same configuration, its maps visited in another order. */
  predicate Reordered(v: Value, w: Value)
    decreases v
  {
    match v
    case Nil => w == Nil
    case Name(_) => w == v
    case Many(items) =>
      w.Many? && |items| == |w.items| && forall i | 0 <= i < |items| :: Reordered(items[i], w.items[i])
    case Tree(entries) => w.Tree? && EntriesReordered(entries, w.entries)
  }

  predicate EntriesReordered(es: seq<Entry>, fs: seq<Entry>)
    decreases es
  {
    if es == [] then fs == []
    else exists k | 0 <= k < |fs| ::
      && es[0].name == fs[k].name && Reordered(es[0].value, fs[k].value)
      && EntriesReordered(es[1..], fs[..k] + fs[k + 1..])
  }

  lemma {:induction false} ReorderedLeads(v: Value, w: Value, names: seq<string>)
    requires Reordered(v, w)
    ensures Leads(v, names) <==> Leads(w, names)
    decreases v
  {
    match v
    case Nil =>
    case Name(_) =>
    case Many(items) =>
      forall i | 0 <= i < |items| ensures Leads(items[i], names) <==> Leads(w.items[i], names) {
        ReorderedLeads(items[i], w.items[i], names);
      }
    case Tree(entries) => ReorderedEntries(entries, w.entries, names);
  }

  lemma {:induction false} ReorderedEntries(es: seq<Entry>, fs: seq<Entry>, names: seq<string>)
    requires EntriesReordered(es, fs)
    ensures (exists i | 0 <= i < |es| :: LeadsOn(es[i], names)) <==> (exists i | 0 <= i < |fs| :: LeadsOn(fs[i], names))
    decreases es
  {
    if es == [] {
    } else {
      var k :| 0 <= k < |fs| && es[0].name == fs[k].name && Reordered(es[0].value, fs[k].value)
               && EntriesReordered(es[1..], fs[..k] + fs[k + 1..]);
      if names != [] {
        ReorderedLeads(es[0].value, fs[k].value, names[1..]);
      }
      assert LeadsOn(es[0], names) <==> LeadsOn(fs[k], names);
      ReorderedEntries(es[1..], fs[..k] + fs[k + 1..], names);
      SomeFirst(es, 0, names);
      SomeFirst(fs, k, names);
      assert es[..0] + es[1..] == es[1..];
    }
  }

  lemma SomeFirst(es: seq<Entry>, k: nat, names: seq<string>)
    requires k < |es|
    ensures var rest := es[..k] + es[k + 1..];
            (exists i | 0 <= i < |es| :: LeadsOn(es[i], names)) <==>
            LeadsOn(es[k], names) || exists i | 0 <= i < |rest| :: LeadsOn(rest[i], names)
  {
    hide LeadsOn;
    var rest := es[..k] + es[k + 1..];
    if i :| 0 <= i < |es| && i != k && LeadsOn(es[i], names) {
      assert rest[if i < k then i else i - 1] == es[i];
    }
    if i :| 0 <= i < |rest| && LeadsOn(rest[i], names) {
      assert rest[i] == es[if i < k then i else i + 1];
    }
  }

  /**
   The order in which maps are visited makes no difference to the names in the table; and loading again,
   in whatever order, changes nothing.
  */
  lemma LoadTwice(affs: seq<AffRow>, v: Value, w: Value, level: int)
    requires Reordered(v, w)
    ensures forall n :: HasAff(AddRows(affs, Rows(v, ""), level), n) <==> HasAff(AddRows(affs, Rows(w, ""), level), n)
    ensures AddRows(AddRows(affs, Rows(v, ""), level), Rows(w, ""), level) == AddRows(affs, Rows(v, ""), level)
  {
    forall n ensures IsPath(v, n) <==> IsPath(w, n) {
      forall names ensures Leads(v, names) <==> Leads(w, names) {
        ReorderedLeads(v, w, names);
      }
    }
    forall n
      ensures HasAff(AddRows(affs, Rows(v, ""), level), n) <==> HasAff(affs, n) || IsPath(v, n)
      ensures HasAff(AddRows(affs, Rows(w, ""), level), n) <==> HasAff(affs, n) || IsPath(w, n)
    {
      LoadAddsPaths(affs, v, level, n);
      LoadAddsPaths(affs, w, level, n);
    }
    forall i | 0 <= i < |Rows(w, "")| ensures HasAff(AddRows(affs, Rows(v, ""), level), Rows(w, "")[i].path) {
      InRowsIsPath(w, Rows(w, "")[i].path);
    }
    AddPresent(AddRows(affs, Rows(v, ""), level), Rows(w, ""), level);
  }

  // ----- when the table stays a tree

  /** The parent of the path that the names lead to: a dot in the last name is a component of its own. */
  function ParentPath(names: seq<string>): string
    requires names != []
  {
    PathOf(names[..|names| - 1] + [Parent(names[|names| - 1])])
  }

  /** Wherever a configured name has a dot, the part before its last dot is there too: in the table, or configured. */
  ghost predicate Supported(affs: seq<AffRow>, v: Value) {
    forall names | Leads(v, names) && Nested(names[|names| - 1]) ::
      HasAff(affs, ParentPath(names)) || IsPath(v, ParentPath(names))
  }

  lemma {:induction false} LeadsUp(v: Value, names: seq<string>)
    requires Leads(v, names) && |names| > 1
    ensures Leads(v, names[..|names| - 1])
    decreases v
  {
    var front := names[..|names| - 1];
    match v
    case Nil =>
    case Name(_) =>
    case Many(items) =>
      var i :| 0 <= i < |items| && Leads(items[i], names);
      LeadsUp(items[i], names);
    case Tree(entries) =>
      var i :| 0 <= i < |entries| && LeadsOn(entries[i], names);
      if |names| > 2 {
        LeadsUp(entries[i].value, names[1..]);
        assert front[1..] == names[1..][..|names[1..]| - 1];
      }
      assert LeadsOn(entries[i], front);
  }

  lemma PathParent(name: string, parent: string)
    requires Free(name, '.')
    ensures Parent(AffiliationPath(name, parent)) == parent
  {
    if parent != "" {
      ParentOf(parent, name);
    }
  }

  lemma NestedLeaf(parent: string, name: string)
    requires Nested(name)
    ensures Parent(parent + "." + name) == parent + "." + Parent(name)
  {
    var leaf := name[LastDot(name) + 1..];
    ParentPrefix(name);
    assert Free(leaf, '.');
    assert parent + "." + name == (parent + "." + Parent(name)) + "." + leaf;
    ParentOf(parent + "." + Parent(name), leaf);
  }

  /** The parent of a path is the path of the names above it, unless the last name has a dot. */
  lemma ParentOfPath(names: seq<string>)
    requires names != []
    ensures var front, last := names[..|names| - 1], names[|names| - 1];
            Parent(PathOf(names)) == if Nested(last) then ParentPath(names) else PathOf(front)
    ensures Nested(PathOf(names)) && !Nested(names[|names| - 1]) ==> |names| > 1
  {
    var front, last := names[..|names| - 1], names[|names| - 1];
    var parent := PathOf(front);
    assert PathOf(names) == AffiliationPath(last, parent);
    if Nested(last) {
      assert (front + [Parent(last)])[..|front|] == front;
      if parent != "" {
        NestedLeaf(parent, last);
      }
    } else {
      PathParent(last, parent);
    }
  }

  lemma PathsHaveParents(affs: seq<AffRow>, v: Value)
    ensures Supported(affs, v) <==>
            forall n | IsPath(v, n) && Nested(n) :: HasAff(affs, Parent(n)) || IsPath(v, Parent(n))
  {
    if Supported(affs, v) {
      forall n | IsPath(v, n) && Nested(n) ensures HasAff(affs, Parent(n)) || IsPath(v, Parent(n)) {
        var names :| Leads(v, names) && n == PathOf(names);
        ParentOfPath(names);
        if !Nested(names[|names| - 1]) {
          LeadsUp(v, names);
        }
      }
    }
    if forall n | IsPath(v, n) && Nested(n) :: HasAff(affs, Parent(n)) || IsPath(v, Parent(n)) {
      forall names | Leads(v, names) && Nested(names[|names| - 1])
        ensures HasAff(affs, ParentPath(names)) || IsPath(v, ParentPath(names))
      {
        ParentOfPath(names);
        NestedPath(names);
        assert IsPath(v, PathOf(names));
      }
    }
  }

  lemma NestedPath(names: seq<string>)
    requires names != [] && Nested(names[|names| - 1])
    ensures Nested(PathOf(names))
  {
    var last := names[|names| - 1];
    var i :| 0 <= i < |last| && last[i] == '.';
    var n := PathOf(names);
    assert n[|n| - |last| + i] == '.';
  }

  lemma ClosedByName(affs: seq<AffRow>)
    ensures ParentClosed(affs) <==> forall n | HasAff(affs, n) && Nested(n) :: HasAff(affs, Parent(n))
  {
    if forall n | HasAff(affs, n) && Nested(n) :: HasAff(affs, Parent(n)) {
      forall i | 0 <= i < |affs| && Nested(affs[i].name) ensures HasAff(affs, Parent(affs[i].name)) {
        assert HasAff(affs, affs[i].name);
      }
    }
  }

  /**
   Exactly when the table is parent-closed after loading: the rows that were there have their parents by
   now, and so has every configured name with a dot. Names without dots always have them.
  */
  lemma LoadClosedIff(affs: seq<AffRow>, v: Value, level: int)
    ensures ParentClosed(AddRows(affs, Rows(v, ""), level)) <==>
            && Supported(affs, v)
            && forall n | HasAff(affs, n) && Nested(n) :: HasAff(affs, Parent(n)) || IsPath(v, Parent(n))
  {
    hide *;
    var after := AddRows(affs, Rows(v, ""), level);
    PathsHaveParents(affs, v);
    ClosedByName(after);
    forall n ensures HasAff(after, n) <==> HasAff(affs, n) || IsPath(v, n) {
      LoadAddsPaths(affs, v, level, n);
    }
  }

  /** No configured name has a dot. */
  ghost predicate DotFree(v: Value) {
    forall names | Leads(v, names) :: Free(names[|names| - 1], '.')
  }

  lemma {:induction false} AddedRows(affs: seq<AffRow>, rows: seq<Row>, level: int)
    ensures var after := AddRows(affs, rows, level);
            && affs <= after
            && forall i | |affs| <= i < |after| ::
                 exists k | 0 <= k < |rows| :: after[i] == AffRow(rows[k].path, rows[k].parent, level)
    decreases rows
  {
    if rows == [] {
    } else {
      var mid := InsertAff(affs, rows[0].path, rows[0].parent, level);
      var after := AddRows(affs, rows, level);
      AddedRows(mid, rows[1..], level);
      forall i | |affs| <= i < |after|
        ensures exists k | 0 <= k < |rows| :: after[i] == AffRow(rows[k].path, rows[k].parent, level)
      {
        if i < |mid| {
          assert after[i] == mid[i];
        } else {
          var k :| 0 <= k < |rows[1..]| && after[i] == AffRow(rows[1..][k].path, rows[1..][k].parent, level);
          assert rows[k + 1] == rows[1..][k];
        }
      }
    }
  }

  /** Loading dot-free names keeps the table a tree with exact prekeys. */
  lemma LoadKeepsTree(affs: seq<AffRow>, v: Value, level: int)
    requires DotFree(v) && UniqueBy(affs, AffKey) && ParentClosed(affs)
    ensures var after := AddRows(affs, Rows(v, ""), level);
            UniqueBy(after, AffKey) && ParentClosed(after) && (PrekeysExact(affs) ==> PrekeysExact(after))
  {
    var rows, after := Rows(v, ""), AddRows(affs, Rows(v, ""), level);
    AddKeepsUnique(affs, rows, level);
    ClosedByName(affs);
    LoadClosedIff(affs, v, level);
    AddedRows(affs, rows, level);
    forall i | |affs| <= i < |after| ensures after[i].prekey == Parent(after[i].name) {
      var k :| 0 <= k < |rows| && after[i] == AffRow(rows[k].path, rows[k].parent, level);
      RowsAreLed(v, "", rows[k]);
      var names :| Leads(v, names) && rows[k] == RowAt("", names);
      ParentOfPath(names);
    }
  }

  // ----- dots in names

  /** Exactly when a configured name gives a row whose prekey is its parent. */
  lemma PathParentIff(name: string, parent: string)
    ensures Parent(AffiliationPath(name, parent)) == parent <==>
            Free(name, '.') || (parent == "" && name != "" && name[0] == '.' && Free(name[1..], '.'))
  {
    if Free(name, '.') {
      PathParent(name, parent);
    } else {
      assert name[LastDot(name)] == '.';
      ParentPrefix(name);
      if LastDot(name) == 0 {
        forall j | 0 <= j < |name[1..]| ensures name[1..][j] != '.' {
          assert name[1..][j] == name[j + 1];
        }
      }
      if parent == "" {
        if name[0] == '.' && Free(name[1..], '.') {
          assert "" + "." + name[1..] == name;
          ParentOf("", name[1..]);
        }
      } else {
        NestedLeaf(parent, name);
      }
    }
  }

  /** Exactly when adding rows keeps every prekey the parent: the first row of each new path must be right. */
  lemma {:induction false} PrekeysExactIff(affs: seq<AffRow>, rows: seq<Row>, level: int)
    ensures PrekeysExact(AddRows(affs, rows, level)) <==>
            && PrekeysExact(affs)
            && forall i | 0 <= i < |rows| && !HasAff(affs, rows[i].path) && !InRows(rows[..i], rows[i].path) ::
                 rows[i].parent == Parent(rows[i].path)
    decreases rows
  {
    if rows == [] {
    } else {
      var r, mid := rows[0], InsertAff(affs, rows[0].path, rows[0].parent, level);
      PrekeysExactIff(mid, rows[1..], level);
      forall i | 0 < i < |rows|
        ensures rows[i] == rows[1..][i - 1]
        ensures !HasAff(affs, rows[i].path) && !InRows(rows[..i], rows[i].path) <==>
                !HasAff(mid, rows[i].path) && !InRows(rows[1..][..i - 1], rows[i].path)
      {
        HasInsert(affs, r.path, r.parent, level, rows[i].path);
        assert rows[..i][1..] == rows[1..][..i - 1];
        InRowsFirst(rows[..i], rows[i].path);
      }
      InsertedPrekey(affs, r, level);
      assert rows[..0] == [];
    }
  }

  lemma InsertedPrekey(affs: seq<AffRow>, r: Row, level: int)
    ensures PrekeysExact(InsertAff(affs, r.path, r.parent, level)) <==>
            PrekeysExact(affs) && (!HasAff(affs, r.path) ==> r.parent == Parent(r.path))
  {
    var after := InsertAff(affs, r.path, r.parent, level);
    if !HasAff(affs, r.path) {
      assert after[|affs|] == AffRow(r.path, r.parent, level);
      forall i | 0 <= i < |affs| ensures after[i] == affs[i] {
      }
    }
  }

  /** A dot in a configured name: a row without its parent, with a wrong prekey. */
  lemma DottedName()
    ensures var after := AddRows([], Rows(Tree([Entry("a.b", Nil)]), ""), 0);
            after == [AffRow("a.b", "", 0)] && !ParentClosed(after) && !PrekeysExact(after)
  {
    var v := Tree([Entry("a.b", Nil)]);
    assert Rows(v, "") == [Row("a.b", "")] by {
      assert v.entries[1..] == [];
    }
    AddOne([], Row("a.b", ""), 0);
    assert "a" + "." + "b" == "a.b";
    ParentOf("a", "b");
    var after := [AffRow("a.b", "", 0)];
    assert after[0].name == "a.b";
  }

  // ----- identities

  /** The row of a configured identity, with a limit that a login keeps. */
  predicate LoadedFrom(cfg: Config, id: Identity, u: UserRow) {
    && u.name == id.name && u.pass.password == id.pass && u.kind == id.kind
    && u.affiliation == id.affiliation && u.attributes == id.attributes
    && u.state == 0 && u.level == cfg.identityLevel
    && u.maxEnrollments == (if id.maxEnrollments == 0 then cfg.maxEnrollments else id.maxEnrollments)
    && u.maxEnrollments != 0 && EffectiveMax(u.maxEnrollments, cfg.maxEnrollments) == u.maxEnrollments
  }

  /** The name is not in the table, and no identity before it has it. */
  predicate FirstOfName(users: seq<UserRow>, ids: seq<Identity>, k: nat)
    requires k < |ids|
  {
    !HasUser(users, ids[k].name) && forall j | 0 <= j < k :: ids[j].name != ids[k].name
  }

  /** With the first identity in the table, the others come first as before. */
  lemma FirstLater(users: seq<UserRow>, after: seq<UserRow>, ids: seq<Identity>, k: nat)
    requires 0 < k < |ids| && forall name :: HasUser(after, name) <==> HasUser(users, name) || name == ids[0].name
    ensures FirstOfName(users, ids, k) <==> FirstOfName(after, ids[1..], k - 1)
  {
    hide HasUser;
    if FirstOfName(after, ids[1..], k - 1) {
      forall j | 0 <= j < k ensures ids[j].name != ids[k].name {
        assert j > 0 ==> ids[1..][j - 1].name != ids[1..][k - 1].name;
      }
    }
  }

  /** The new rows are those of the first identities of their names; with `ok` all of them, and every name is there. */
  predicate LoadedInto(cfg: Config, users: seq<UserRow>, ids: seq<Identity>, r: Loaded) {
    && users <= r.users
    && (forall i | |users| <= i < |r.users| ::
          exists k | 0 <= k < |ids| :: FirstOfName(users, ids, k) && LoadedFrom(cfg, ids[k], r.users[i]))
    && (r.ok <==> forall k | 0 <= k < |ids| && FirstOfName(users, ids, k) ::
                    LimitFits(ids[k].maxEnrollments, cfg.maxEnrollments))
    && (r.ok ==> forall k | 0 <= k < |ids| :: HasUser(r.users, ids[k].name))
  }

  lemma HasUserLater(users: seq<UserRow>, more: seq<UserRow>, name: string)
    requires users <= more && HasUser(users, name)
    ensures HasUser(more, name)
  {
    var i :| 0 <= i < |users| && users[i].name == name;
    assert more[i].name == name;
  }

  lemma OneLoaded(cfg: Config, users: seq<UserRow>, id: Identity)
    ensures var r := WithIdentity(cfg, users, id);
            && users <= r.users
            && (r.ok <==> HasUser(users, id.name) || LimitFits(id.maxEnrollments, cfg.maxEnrollments))
            && (r.ok ==> forall name :: HasUser(r.users, name) <==> HasUser(users, name) || name == id.name)
            && (r.users == users ||
                (|r.users| == |users| + 1 && LoadedFrom(cfg, id, r.users[|users|]) && !HasUser(users, id.name)))
            && (UniqueBy(users, UserKey) ==> UniqueBy(r.users, UserKey))
  {
    AllowedMaxIff(id.maxEnrollments, cfg.maxEnrollments);
    var r := WithIdentity(cfg, users, id);
    if r.ok {
      forall name ensures HasUser(r.users, name) <==> HasUser(users, name) || name == id.name {
        if i :| 0 <= i < |users| && users[i].name == name {
          assert r.users[i].name == name;
        }
        if r.users != users {
          assert r.users[|users|].name == id.name;
        }
      }
    }
  }

  lemma {:induction false} LoadedUsers(cfg: Config, users: seq<UserRow>, ids: seq<Identity>)
    ensures LoadedInto(cfg, users, ids, WithIdentities(cfg, users, ids))
    ensures UniqueBy(users, UserKey) ==> UniqueBy(WithIdentities(cfg, users, ids).users, UserKey)
    decreases ids
  {
    if ids == [] {
    } else {
      var r := WithIdentity(cfg, users, ids[0]);
      OneLoaded(cfg, users, ids[0]);
      if r.ok {
        LoadedUsers(cfg, r.users, ids[1..]);
        LoadedOnTop(cfg, users, r.users, ids, WithIdentities(cfg, r.users, ids[1..]));
      }
    }
  }

  lemma LoadedOnTop(cfg: Config, users: seq<UserRow>, mid: seq<UserRow>, ids: seq<Identity>, r: Loaded)
    requires ids != [] && users <= mid && LoadedInto(cfg, mid, ids[1..], r)
    requires forall name :: HasUser(mid, name) <==> HasUser(users, name) || name == ids[0].name
    requires || mid == users
             || (|mid| == |users| + 1 && LoadedFrom(cfg, ids[0], mid[|users|]) && !HasUser(users, ids[0].name))
    requires HasUser(users, ids[0].name) || LimitFits(ids[0].maxEnrollments, cfg.maxEnrollments)
    ensures LoadedInto(cfg, users, ids, r)
  {
    hide HasUser, LoadedFrom, LimitFits;
    forall k | 0 < k < |ids|
      ensures ids[k] == ids[1..][k - 1] && (FirstOfName(users, ids, k) <==> FirstOfName(mid, ids[1..], k - 1))
    {
      FirstLater(users, mid, ids, k);
    }
    forall i | |users| <= i < |r.users|
      ensures exists k | 0 <= k < |ids| :: FirstOfName(users, ids, k) && LoadedFrom(cfg, ids[k], r.users[i])
    {
      if i < |mid| {
        assert r.users[i] == mid[i];
        assert FirstOfName(users, ids, 0);
      } else {
        var k :| 0 <= k < |ids[1..]| && FirstOfName(mid, ids[1..], k) && LoadedFrom(cfg, ids[1..][k], r.users[i]);
        assert FirstOfName(users, ids, k + 1);
      }
    }
    assert users <= r.users by {
      assert users == mid[..|users|] && mid == r.users[..|mid|];
    }
    if r.ok {
      forall k | 0 <= k < |ids| ensures HasUser(r.users, ids[k].name) {
        if k == 0 {
          HasUserLater(mid, r.users, ids[0].name);
        } else {
          assert ids[k] == ids[1..][k - 1];
        }
      }
    }
    assert r.ok <==> forall k | 0 <= k < |ids| && FirstOfName(users, ids, k) ::
      LimitFits(ids[k].maxEnrollments, cfg.maxEnrollments) by {
      LimitsOnTop(cfg, users, mid, ids);
    }
  }

  lemma LimitsOnTop(cfg: Config, users: seq<UserRow>, mid: seq<UserRow>, ids: seq<Identity>)
    requires ids != []
    requires forall name :: HasUser(mid, name) <==> HasUser(users, name) || name == ids[0].name
    requires HasUser(users, ids[0].name) || LimitFits(ids[0].maxEnrollments, cfg.maxEnrollments)
    ensures (forall k | 0 <= k < |ids| && FirstOfName(users, ids, k) ::
               LimitFits(ids[k].maxEnrollments, cfg.maxEnrollments)) <==>
            forall k | 0 <= k < |ids[1..]| && FirstOfName(mid, ids[1..], k) ::
              LimitFits(ids[1..][k].maxEnrollments, cfg.maxEnrollments)
  {
    hide HasUser, LimitFits;
    forall k | 0 < k < |ids|
      ensures ids[k] == ids[1..][k - 1] && (FirstOfName(users, ids, k) <==> FirstOfName(mid, ids[1..], k - 1))
    {
      FirstLater(users, mid, ids, k);
    }
    forall k | 0 <= k < |ids[1..]| ensures ids[1..][k] == ids[k + 1] {
    }
    if forall k | 0 <= k < |ids| && FirstOfName(users, ids, k) :: LimitFits(ids[k].maxEnrollments, cfg.maxEnrollments) {
      forall k | 0 <= k < |ids[1..]| && FirstOfName(mid, ids[1..], k)
        ensures LimitFits(ids[1..][k].maxEnrollments, cfg.maxEnrollments)
      {
        assert FirstOfName(users, ids, k + 1);
      }
    }
  }

  /**
   Starting from an empty database: the loaded state is one that runs start from, and it is consistent
   exactly if configured names with dots are supported and every loaded identity's affiliation is the root
   or a path of the configuration.
  */
  lemma LoadedIsInitial(cfg: Config, v: Value, ids: seq<Identity>)
    ensures var affs, users := AddRows([], Rows(v, ""), cfg.affiliationLevel), WithIdentities(cfg, [], ids).users;
            && Initial(World(Tables(affs, users, []), {}, {}), users)
            && (Consistent(Tables(affs, users, [])) <==>
                && Supported([], v)
                && forall i | 0 <= i < |users| :: users[i].affiliation == "" || IsPath(v, users[i].affiliation))
  {
    var affs, users := AddRows([], Rows(v, ""), cfg.affiliationLevel), WithIdentities(cfg, [], ids).users;
    LoadedUsers(cfg, [], ids);
    AddKeepsUnique([], Rows(v, ""), cfg.affiliationLevel);
    LoadClosedIff([], v, cfg.affiliationLevel);
    forall i | 0 <= i < |users| ensures HasAff(affs, users[i].affiliation) <==> IsPath(v, users[i].affiliation) {
      LoadAddsPaths([], v, cfg.affiliationLevel, users[i].affiliation);
    }
  }
}
