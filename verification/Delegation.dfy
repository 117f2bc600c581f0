/**
 The rules by which a registrar may hand out attributes (lib/attr) and the orders they rest on.
 A check returns true where the code returns a nil error.
*/
module Delegation {
  import opened Basics
  import opened Strings
  import opened Attributes

  const ROLES := "hf.Registrar.Roles"
  const DELEGATE_ROLES := "hf.Registrar.DelegateRoles"
  const REVOKER := "hf.Revoker"
  const INTERMEDIATE_CA := "hf.IntermediateCA"
  const GEN_CRL := "hf.GenCRL"
  const REGISTRAR_ATTR := "hf.Registrar.Attributes"
  const AFFILIATION_MGR := "hf.AffiliationMgr"
  const ENROLLMENT_ID := "hf.EnrollmentID"
  const TYPE := "hf.Type"
  const AFFILIATION := "hf.Affiliation"

  datatype Kind = Boolean | List | Fixed | Custom

  /** getAttributeControl: no kind for an unknown name with the reserved prefix. */
  function KindOf(name: string): Option<Kind> {
    if name in {REVOKER, INTERMEDIATE_CA, GEN_CRL, AFFILIATION_MGR} then Some(Boolean)
    else if name in {ROLES, DELEGATE_ROLES, REGISTRAR_ATTR} then Some(List)
    else if name in {ENROLLMENT_ID, TYPE, AFFILIATION} then Some(Fixed)
    else if "hf." <= name then None
    else Some(Custom)
  }

  /** Filling the map of reserved attributes: each name of the list gets the kind. */
  method AddKind(attributeMap: map<string, Kind>, names: seq<string>, kind: Kind) returns (m: map<string, Kind>)
    ensures forall n :: n in m <==> n in attributeMap || n in names
    ensures forall n | n in m :: m[n] == if n in names then kind else attributeMap[n]
  {
    m := attributeMap;
    for i := 0 to |names|
      invariant forall n :: n in m <==> n in attributeMap || n in names[..i]
      invariant forall n | n in m :: m[n] == if n in names[..i] then kind else attributeMap[n]
    {
      m := m[names[i] := kind];
      assert names[..i + 1] == names[..i] + [names[i]];
    }
    assert names[..|names|] == names;
  }

  /** initAttrs; getAttributeControl looks a name up in the map. */
  method InitAttrs() returns (attributeMap: map<string, Kind>)
    ensures forall n :: KindOf(n) == if n in attributeMap then Some(attributeMap[n])
                                     else if "hf." <= n then None else Some(Custom)
  {
    attributeMap := AddKind(map[], [REVOKER, INTERMEDIATE_CA, GEN_CRL, AFFILIATION_MGR], Boolean);
    attributeMap := AddKind(attributeMap, [ROLES, DELEGATE_ROLES, REGISTRAR_ATTR], List);
    attributeMap := AddKind(attributeMap, [ENROLLMENT_ID, TYPE, AFFILIATION], Fixed);
  }

  /** strconv.ParseBool. */
  function ParseBool(s: string): Option<bool> {
    if s in {"1", "t", "T", "true", "TRUE", "True"} then Some(true)
    else if s in {"0", "f", "F", "false", "FALSE", "False"} then Some(false)
    else None
  }

  /** GetSliceFromList with a comma. */
  function ListOf(value: string): (l: seq<string>)
    ensures |l| >= 1
  {
    Split(Without(value, ' '), ',')
  }

  /** One entry of a caller's hf.Registrar.Attributes list against a name. */
  predicate Matches(pattern: string, name: string) {
    if EndsWith(pattern, '*') then TrimRight(pattern, '*') <= name else name == pattern
  }

  /** canRegisterAttr. */
  predicate CanRegisterName(name: string, patterns: seq<string>) {
    exists i | 0 <= i < |patterns| :: Matches(patterns[i], name)
  }

  predicate StrContained(s: string, strs: seq<string>) {
    exists i | 0 <= i < |strs| :: ToLower(strs[i]) == ToLower(s)
  }

  predicate IsSubsetOf(small: string, big: string) {
    var ss := Split(small, ',');
    forall i | 0 <= i < |ss| :: ss[i] == "" || StrContained(ss[i], Split(big, ','))
  }

  /** GetAttrValue: the first entry with the name, or "". */
  function FirstValue(l: seq<Attribute>, name: string): string {
    var i := Find(l, name);
    if i < |l| then l[i].value else ""
  }

  /** The roles that the delegate roles of a request are compared with. */
  function RolesCompared(rs: seq<Attribute>, user: Option<seq<Attribute>>): string {
    var requested := FirstValue(rs, ROLES);
    if requested == "" && user.Some? then ValueOf(user.value, ROLES) else requested
  }

  /** checkDelegateRoleValues; `user` is absent when a new identity is registered. */
  predicate DelegateRolesOk(all: seq<Attribute>, user: Option<seq<Attribute>>) {
    IsSubsetOf(FirstValue(all, DELEGATE_ROLES), RolesCompared(all, user))
  }

  /** checkHfRegistrarAttrValues. */
  predicate RegistrarAttrOk(r: Attribute, all: seq<Attribute>, user: Option<seq<Attribute>>, patterns: seq<string>) {
    var names := ListOf(r.value);
    forall i | 0 <= i < |names| ::
      && CanRegisterName(names[i], patterns)
      && ("hf." <= names[i] ==> HasName(all, names[i]) || (user.Some? && Lookup(user.value, names[i]).Some?))
  }

  /** attributeControl.isRegistrarAuthorized. */
  predicate IsRegistrarAuthorized(kind: Kind, r: Attribute, all: seq<Attribute>,
                                  user: Option<seq<Attribute>>, registrar: seq<Attribute>)
  {
    match kind
    case Boolean =>
      && Lookup(registrar, r.name).Some?
      && ParseBool(ValueOf(registrar, r.name)) == Some(true)
      && (r.value == "" || ParseBool(r.value).Some?)
    case List =>
      && Lookup(registrar, r.name).Some?
      && (r.value == "" ||
          if r.name == REGISTRAR_ATTR then RegistrarAttrOk(r, all, user, ListOf(ValueOf(registrar, r.name)))
          else IsSubsetOf(r.value, ValueOf(registrar, r.name)) &&
               (r.name == DELEGATE_ROLES ==> DelegateRolesOk(all, user)))
    case Fixed => false
    case Custom => true
  }

  /** CanRegisterAttribute. */
  predicate CanRegisterAttribute(r: Attribute, all: seq<Attribute>, user: Option<seq<Attribute>>,
                                 registrar: seq<Attribute>)
  {
    && ValueOf(registrar, REGISTRAR_ATTR) != ""
    && CanRegisterName(r.name, ListOf(ValueOf(registrar, REGISTRAR_ATTR)))
    && KindOf(r.name).Some?
    && IsRegistrarAuthorized(KindOf(r.name).value, r, all, user, registrar)
  }

  /** CanRegisterRequestedAttributes. */
  predicate CanRegisterRequested(rs: seq<Attribute>, user: Option<seq<Attribute>>, registrar: seq<Attribute>) {
    forall i | 0 <= i < |rs| :: CanRegisterAttribute(rs[i], rs, user, registrar)
  }

  // ----- the orders

  lemma MatchesReflexive(p: string)
    ensures Matches(p, p)
  {
  }

  /** A pattern accepted under another pattern matches nothing more than that pattern does. */
  lemma MatchesTransitive(p: string, v: string, name: string)
    requires Matches(p, v) && Matches(v, name)
    ensures Matches(p, name)
  {
    if EndsWith(p, '*') {
      var stem := TrimRight(p, '*');
      if EndsWith(v, '*') {
        var vstem := TrimRight(v, '*');
        assert stem == v[..|stem|];
        assert stem != "" ==> stem[|stem| - 1] == v[|stem| - 1];
        assert stem <= vstem <= name;
      }
    }
  }

  /** Every value of the list `small` may be registered by a holder of the list `big`. */
  predicate Covers(big: string, small: string) {
    var names := ListOf(small);
    forall i | 0 <= i < |names| :: CanRegisterName(names[i], ListOf(big))
  }

  /** Covering is inclusion of the sets of names the two lists stand for. */
  lemma CoversIsInclusion(big: string, small: string)
    ensures Covers(big, small) <==>
            forall name {:trigger CanRegisterName(name, ListOf(small))} ::
              CanRegisterName(name, ListOf(small)) ==> CanRegisterName(name, ListOf(big))
  {
    var names, patterns := ListOf(small), ListOf(big);
    if Covers(big, small) {
      forall name | CanRegisterName(name, names) ensures CanRegisterName(name, patterns) {
        var i :| 0 <= i < |names| && Matches(names[i], name);
        var j :| 0 <= j < |patterns| && Matches(patterns[j], names[i]);
        MatchesTransitive(patterns[j], names[i], name);
      }
    }
    forall i | 0 <= i < |names| ensures CanRegisterName(names[i], names) {
      MatchesReflexive(names[i]);
    }
  }

  lemma CoversPreorder(a: string, b: string, c: string)
    ensures Covers(a, a)
    ensures Covers(a, b) && Covers(b, c) ==> Covers(a, c)
  {
    CoversIsInclusion(a, a);
    CoversIsInclusion(a, b);
    CoversIsInclusion(b, c);
    CoversIsInclusion(a, c);
  }

  lemma StrContainedReplace(s: string, mid: seq<string>, big: seq<string>)
    requires StrContained(s, mid) && s != ""
    requires forall i | 0 <= i < |mid| :: mid[i] == "" || StrContained(mid[i], big)
    ensures StrContained(s, big)
  {
    var i :| 0 <= i < |mid| && ToLower(mid[i]) == ToLower(s);
    assert |mid[i]| == |ToLower(mid[i])| == |s|;
    var j :| 0 <= j < |big| && ToLower(big[j]) == ToLower(mid[i]);
  }

  lemma SubsetPreorder(a: string, b: string, c: string)
    ensures IsSubsetOf(a, a)
    ensures IsSubsetOf(a, b) && IsSubsetOf(b, c) ==> IsSubsetOf(a, c)
  {
    if IsSubsetOf(a, b) && IsSubsetOf(b, c) {
      var ss := Split(a, ',');
      forall i | 0 <= i < |ss| && ss[i] != "" ensures StrContained(ss[i], Split(c, ',')) {
        StrContainedReplace(ss[i], Split(b, ','), Split(c, ','));
      }
    }
  }

  // ----- authority held through an attribute

  lemma NothingWithin(big: string)
    ensures IsSubsetOf("", big)
  {
    SplitFree("", ',');
  }

  /**
   An entry that gives its holder nothing to delegate or to act with. Roles are never that: any value but
   the empty one makes a registrar, whether it names a role or not, and the entry alone opens the handlers
   that remove and rename affiliations.
  */
  predicate Powerless(a: Attribute) {
    match KindOf(a.name)
    case Some(Boolean) => ParseBool(a.value) != Some(true)
    case Some(List) =>
      a.name != ROLES && if a.name == REGISTRAR_ATTR then a.value == "" else IsSubsetOf(a.value, "")
    case _ => true
  }

  /** `a` gives no more than `b` does. */
  predicate NoStronger(a: Attribute, b: Attribute) {
    && a.name == b.name
    && match KindOf(a.name)
       case Some(Boolean) => ParseBool(a.value) == Some(true) ==> ParseBool(b.value) == Some(true)
       case Some(List) =>
         if a.name == REGISTRAR_ATTR then Covers(b.value, a.value)
         else IsSubsetOf(a.value, b.value) && (a.name == ROLES && a.value != "" ==> b.value != "")
       case _ => true
  }

  /** The entry gives nothing, or no more than one single entry of the pool. */
  predicate Bounded(a: Attribute, pool: seq<Attribute>) {
    Powerless(a) || exists i | 0 <= i < |pool| :: NoStronger(a, pool[i])
  }

  predicate AllBounded(l: seq<Attribute>, pool: seq<Attribute>) {
    forall i | 0 <= i < |l| :: Bounded(l[i], pool)
  }

  lemma NoStrongerTransitive(a: Attribute, b: Attribute, c: Attribute)
    requires NoStronger(a, b) && NoStronger(b, c)
    ensures NoStronger(a, c)
  {
    CoversPreorder(c.value, b.value, a.value);
    SubsetPreorder(a.value, b.value, c.value);
  }

  lemma NoStrongerReflexive(a: Attribute)
    ensures NoStronger(a, a)
  {
    CoversPreorder(a.value, a.value, a.value);
    SubsetPreorder(a.value, a.value, a.value);
  }

  /** What a registrar may hand out never exceeds one entry the registrar holds itself. */
  lemma GrantedIsHeld(r: Attribute, all: seq<Attribute>, user: Option<seq<Attribute>>, registrar: seq<Attribute>)
    requires CanRegisterAttribute(r, all, user, registrar)
    ensures KindOf(r.name) != Some(Fixed)
    ensures ValueOf(registrar, ROLES) != "" ==>
              Powerless(r) || (Lookup(registrar, r.name).Some? && NoStronger(r, Lookup(registrar, r.name).value))
  {
    if KindOf(r.name) == Some(List) && r.value == "" {
      NothingWithin("");
      NothingWithin(ValueOf(registrar, r.name));
    }
  }

  /** Delegation is bounded along any chain: a grant by a bounded registrar is bounded. */
  lemma GrantIsBounded(r: Attribute, all: seq<Attribute>, user: Option<seq<Attribute>>,
                       registrar: seq<Attribute>, pool: seq<Attribute>)
    requires CanRegisterAttribute(r, all, user, registrar)
    requires ValueOf(registrar, ROLES) != "" && AllBounded(registrar, pool)
    ensures Bounded(r, pool)
  {
    GrantedIsHeld(r, all, user, registrar);
    if !Powerless(r) {
      var h := registrar[FindLast(registrar, r.name)];
      if Powerless(h) {
        SubsetPreorder(r.value, h.value, "");
      } else {
        var i :| 0 <= i < |pool| && NoStronger(h, pool[i]);
        NoStrongerTransitive(r, h, pool[i]);
      }
    }
  }

  // ----- delegate roles against roles

  predicate DelegateWithin(l: seq<Attribute>) {
    IsSubsetOf(ValueOf(l, DELEGATE_ROLES), ValueOf(l, ROLES))
  }

  /** What every permitted list guarantees: its first delegate roles are within the roles compared with. */
  lemma DelegateRolesChecked(rs: seq<Attribute>, user: Option<seq<Attribute>>, registrar: seq<Attribute>)
    requires CanRegisterRequested(rs, user, registrar)
    ensures IsSubsetOf(FirstValue(rs, DELEGATE_ROLES), RolesCompared(rs, user))
  {
    if FirstValue(rs, DELEGATE_ROLES) == "" {
      NothingWithin(RolesCompared(rs, user));
    } else {
      var i := Find(rs, DELEGATE_ROLES);
      assert CanRegisterAttribute(rs[i], rs, user, registrar);
    }
  }

  /**
   A new identity has delegate roles within its roles if first and last entry agree for both: the check
   reads the first entries, the attribute map keeps the last.
  */
  lemma RegistrationDelegates(rs: seq<Attribute>, registrar: seq<Attribute>)
    requires CanRegisterRequested(rs, None, registrar)
    ensures IsSubsetOf(FirstValue(rs, DELEGATE_ROLES), FirstValue(rs, ROLES))
    ensures && FirstValue(rs, ROLES) == ValueOf(rs, ROLES)
            && FirstValue(rs, DELEGATE_ROLES) == ValueOf(rs, DELEGATE_ROLES)
            ==> DelegateWithin(rs)
  {
    DelegateRolesChecked(rs, None, registrar);
  }

  /** The value a modification leaves behind, computed from the entries of that name alone. */
  function Left(user: seq<Attribute>, rs: seq<Attribute>, name: string): string {
    ValueLeft(|Named(user, name)|, ValueOf(user, name), rs, name)
  }

  /** What a modification leaves, told from the two names' entries, on all lists. */
  lemma DelegateRolesLeft(user: seq<Attribute>, rs: seq<Attribute>)
    ensures DelegateWithin(NewAttributes(user, rs)) <==>
            IsSubsetOf(Left(user, rs, DELEGATE_ROLES), Left(user, rs, ROLES))
  {
    hide NewAttributes, ValueOf, Named, IsSubsetOf;
    ValueAfterAny(user, rs, ROLES);
    ValueAfterAny(user, rs, DELEGATE_ROLES);
  }

  /**
   Exactly when a permitted modification keeps delegate roles within roles, where the user has each of the
   two once and the request's first and last entry agree for both: roles must not be deleted from above
   requested delegate roles, nor changed from above delegate roles that the request does not name.
  */
  lemma DelegateRolesKeptOnce(user: seq<Attribute>, rs: seq<Attribute>, registrar: seq<Attribute>)
    requires CanRegisterRequested(rs, Some(user), registrar) && DelegateWithin(user)
    requires AtMostOnce(user, ROLES) && AtMostOnce(user, DELEGATE_ROLES)
    requires FirstValue(rs, ROLES) == ValueOf(rs, ROLES)
    requires FirstValue(rs, DELEGATE_ROLES) == ValueOf(rs, DELEGATE_ROLES)
    ensures DelegateWithin(NewAttributes(user, rs)) <==>
            if FirstValue(rs, DELEGATE_ROLES) != "" then
              HasName(rs, ROLES) && FirstValue(rs, ROLES) == "" ==> IsSubsetOf(FirstValue(rs, DELEGATE_ROLES), "")
            else
              HasName(rs, ROLES) && !HasName(rs, DELEGATE_ROLES) ==>
                IsSubsetOf(ValueOf(user, DELEGATE_ROLES), FirstValue(rs, ROLES))
  {
    hide CanRegisterRequested, IsSubsetOf, NewAttributes, AtMostOnce, ValueOf, FirstValue;
    ValueAfter(user, rs, ROLES);
    ValueAfter(user, rs, DELEGATE_ROLES);
    NoNameNoValue(rs, ROLES);
    NoNameNoValue(rs, DELEGATE_ROLES);
    NothingWithin(ValueOf(NewAttributes(user, rs), ROLES));
    DelegateRolesChecked(rs, Some(user), registrar);
  }

  lemma NoNameNoValue(rs: seq<Attribute>, name: string)
    ensures !HasName(rs, name) ==> FirstValue(rs, name) == ""
  {
  }

  lemma SingleLists()
    ensures ListOf("*") == ["*"] && Split("client", ',') == ["client"] && Split("peer", ',') == ["peer"]
    ensures !IsSubsetOf("peer", "client")
  {
    assert Without("*", ' ') == "*" by {
      assert "*"[1..] == "" && ['*'] + "" == "*";
    }
    SplitFree("*", ',');
    SplitFree("client", ',');
    SplitFree("peer", ',');
    assert |ToLower("client")| != |ToLower("peer")|;
    assert !StrContained("peer", ["client"]);
    assert ["peer"][0] == "peer";
  }

  /** A registrar of all attributes may hand out roles within its own. */
  lemma RolesPermitted(r: Attribute, all: seq<Attribute>, user: Option<seq<Attribute>>, registrar: seq<Attribute>)
    requires r.name == ROLES || (r.name == DELEGATE_ROLES && DelegateRolesOk(all, user))
    requires ValueOf(registrar, REGISTRAR_ATTR) == "*" && Lookup(registrar, r.name).Some?
    requires IsSubsetOf(r.value, ValueOf(registrar, r.name))
    ensures CanRegisterAttribute(r, all, user, registrar)
  {
    hide IsSubsetOf, Lookup, DelegateRolesOk;
    SingleLists();
    assert ["*"][0] == "*" && Matches("*", r.name);
  }

  /** A value of commas names no role, and yet a registrar of all attributes may hand it out. */
  lemma CommasPermitted(all: seq<Attribute>, user: Option<seq<Attribute>>, registrar: seq<Attribute>)
    requires ValueOf(registrar, REGISTRAR_ATTR) == "*" && Lookup(registrar, ROLES).Some?
    ensures CanRegisterAttribute(Attribute(ROLES, ",", false), all, user, registrar)
    ensures ListOf(",") == ["", ""]
  {
    assert "" + "," + "" == ",";
    SplitFree("", ',');
    SplitConcat("", "", ',');
    assert [""] + [""] == ["", ""];
    assert Without(",", ' ') == "," by {
      assert ","[1..] == "" && [','] + "" == ",";
    }
    RolesPermitted(Attribute(ROLES, ",", false), all, user, registrar);
  }

  /** A permitted request that takes roles away from under the delegate roles. */
  lemma DelegateRolesNotKept()
    ensures var registrar := [Attribute(REGISTRAR_ATTR, "*", false), Attribute(ROLES, "client", false)];
            var user := [Attribute(ROLES, "peer", false), Attribute(DELEGATE_ROLES, "peer", false)];
            var rs := [Attribute(ROLES, "client", false)];
            && CanRegisterRequested(rs, Some(user), registrar)
            && DelegateWithin(user) && !DelegateWithin(NewAttributes(user, rs))
  {
    hide IsSubsetOf, ListOf;
    var registrar := [Attribute(REGISTRAR_ATTR, "*", false), Attribute(ROLES, "client", false)];
    var user := [Attribute(ROLES, "peer", false), Attribute(DELEGATE_ROLES, "peer", false)];
    var r := Attribute(ROLES, "client", false);
    SingleLists();
    SubsetPreorder("client", "client", "client");
    SubsetPreorder("peer", "peer", "peer");
    assert FindLast(registrar, ROLES) == 1 && FindLast(registrar, REGISTRAR_ATTR) == 0;
    assert FindLast(user, ROLES) == 0 && FindLast(user, DELEGATE_ROLES) == 1;
    RolesPermitted(r, [r], Some(user), registrar);
    assert CanRegisterRequested([r], Some(user), registrar);
    ValueAfter(user, [r], ROLES);
    ValueAfter(user, [r], DELEGATE_ROLES);
    assert FindLast([r], ROLES) == 0;
    assert [r][0].name == ROLES;
  }

  lemma LookupThird(a: Attribute, b: Attribute, c: Attribute, name: string)
    ensures Lookup([a, b, c], name) ==
            if c.name == name then Some(c) else if b.name == name then Some(b)
            else if a.name == name then Some(a) else None
  {
    assert [] + [a] == [a] && [a] + [b] == [a, b] && [a, b] + [c] == [a, b, c];
    LookupAppend([], a, name);
    LookupAppend([a], b, name);
    LookupAppend([a, b], c, name);
  }

  /** A list of two roles, and its parts. */
  lemma TwoRoles(x: string, y: string)
    requires Free(x, ',') && Free(y, ',') && y != "" && ToLower(x) != ToLower(y)
    ensures var both := x + "," + y;
            IsSubsetOf(both, both) && IsSubsetOf(y, both) && IsSubsetOf(x, both) && !IsSubsetOf(y, x)
  {
    SplitFree(x, ',');
    SplitFree(y, ',');
    SplitConcat(x, y, ',');
    var both := [x] + [y];
    assert both[0] == x && both[1] == y && [x][0] == x && [y][0] == y;
    assert !StrContained(y, [x]);
  }

  /**
   For any two roles there is a permitted registration with delegate roles outside the roles: the roles are
   named twice, the first entry passes the check and the last one is kept.
  */
  lemma RegistrationNotWithin(x: string, y: string)
    requires Free(x, ',') && Free(y, ',') && y != "" && ToLower(x) != ToLower(y)
    ensures var both := x + "," + y;
            var registrar := [Attribute(REGISTRAR_ATTR, "*", false), Attribute(ROLES, both, false),
                              Attribute(DELEGATE_ROLES, both, false)];
            var rs := [Attribute(ROLES, both, false), Attribute(DELEGATE_ROLES, y, false), Attribute(ROLES, x, false)];
            CanRegisterRequested(rs, None, registrar) && !DelegateWithin(rs)
  {
    var both := x + "," + y;
    var all, own, delegate := Attribute(REGISTRAR_ATTR, "*", false), Attribute(ROLES, both, false),
                              Attribute(DELEGATE_ROLES, both, false);
    var rs := [own, Attribute(DELEGATE_ROLES, y, false), Attribute(ROLES, x, false)];
    TwoRoles(x, y);
    assert FirstValue(rs, ROLES) == both && FirstValue(rs, DELEGATE_ROLES) == y by {
      assert Find(rs, ROLES) == 0 && Find(rs, DELEGATE_ROLES) == 1;
    }
    hide IsSubsetOf, Lookup, FirstValue, Find, CanRegisterAttribute;
    LookupThird(all, own, delegate, REGISTRAR_ATTR);
    LookupThird(all, own, delegate, ROLES);
    LookupThird(all, own, delegate, DELEGATE_ROLES);
    LookupThird(rs[0], rs[1], rs[2], ROLES);
    LookupThird(rs[0], rs[1], rs[2], DELEGATE_ROLES);
    forall i | 0 <= i < |rs| ensures CanRegisterAttribute(rs[i], rs, None, [all, own, delegate]) {
      RolesPermitted(rs[i], rs, None, [all, own, delegate]);
    }
  }
}
