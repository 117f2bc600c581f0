/**
 Exactly what a registrar may hand out, told from the texts of the attributes: both directions of the rules
 in Delegation.
*/
module Grants {
  import opened Basics
  import opened Strings
  import opened Attributes
  import opened Delegation

  const TRUE_TEXTS := {"1", "t", "T", "true", "TRUE", "True"}
  const FALSE_TEXTS := {"0", "f", "F", "false", "FALSE", "False"}

  /** The value of the last entry with the name, or "" if there is none. */
  predicate LastIs(l: seq<Attribute>, name: string, v: string) {
    || (v == "" && !HasName(l, name))
    || exists i | 0 <= i < |l| :: l[i].name == name && l[i].value == v && forall j | i < j < |l| :: l[j].name != name
  }

  /** The value of the first entry with the name, or "" if there is none. */
  predicate FirstIs(l: seq<Attribute>, name: string, v: string) {
    || (v == "" && !HasName(l, name))
    || exists i | 0 <= i < |l| :: l[i].name == name && l[i].value == v && forall j | 0 <= j < i :: l[j].name != name
  }

  lemma LastIsIff(l: seq<Attribute>, name: string, v: string)
    ensures LastIs(l, name, v) <==> ValueOf(l, name) == v
  {
    HasNameLookup(l, name);
  }

  lemma FirstIsIff(l: seq<Attribute>, name: string, v: string)
    ensures FirstIs(l, name, v) <==> FirstValue(l, name) == v
  {
    var i := Find(l, name);
    if i < |l| {
      assert l[i].name == name;
    }
  }

  predicate StarsFrom(pattern: string, k: nat) {
    forall i | k <= i < |pattern| :: pattern[i] == '*'
  }

  /** A name is let through by itself, and by what it begins with followed by stars. */
  predicate LetsThrough(pattern: string, name: string) {
    pattern == name || exists k | 0 <= k < |pattern| :: StarsFrom(pattern, k) && pattern[..k] <= name
  }

  lemma MatchesIff(pattern: string, name: string)
    ensures Matches(pattern, name) <==> LetsThrough(pattern, name)
  {
    var stem := TrimRight(pattern, '*');
    if EndsWith(pattern, '*') {
      assert stem == pattern[..|stem|] && |stem| < |pattern| && StarsFrom(pattern, |stem|);
      if k :| 0 <= k < |pattern| && StarsFrom(pattern, k) && pattern[..k] <= name {
        assert stem != "" ==> stem[|stem| - 1] == pattern[|stem| - 1];
        assert stem == pattern[..k][..|stem|];
      }
    } else {
      forall k | 0 <= k < |pattern| ensures !StarsFrom(pattern, k) {
        assert pattern[|pattern| - 1] != '*';
      }
    }
  }

  /** Some part of the comma-separated list, blanks removed, lets the name through. */
  predicate ListLets(list: string, name: string) {
    exists p | p in Split(Without(list, ' '), ',') :: LetsThrough(p, name)
  }

  /** The registrar's hf.Registrar.Attributes is not empty and lets the name through. */
  ghost predicate Lets(registrar: seq<Attribute>, name: string) {
    exists list :: LastIs(registrar, "hf.Registrar.Attributes", list) && list != "" && ListLets(list, name)
  }

  lemma ListLetsIff(list: string, name: string)
    ensures CanRegisterName(name, ListOf(list)) <==> ListLets(list, name)
  {
    var parts := ListOf(list);
    if i :| 0 <= i < |parts| && Matches(parts[i], name) {
      MatchesIff(parts[i], name);
      assert parts[i] in parts;
    }
    if p :| p in parts && LetsThrough(p, name) {
      MatchesIff(p, name);
      var i :| 0 <= i < |parts| && parts[i] == p;
      assert Matches(parts[i], name);
    }
  }

  lemma LetsIff(registrar: seq<Attribute>, name: string)
    ensures Lets(registrar, name) <==>
            var own := ValueOf(registrar, REGISTRAR_ATTR);
            own != "" && CanRegisterName(name, ListOf(own))
  {
    hide LastIs, ListLets, CanRegisterName, ListOf, ValueOf;
    var own := ValueOf(registrar, REGISTRAR_ATTR);
    LastIsIff(registrar, REGISTRAR_ATTR, own);
    ListLetsIff(own, name);
    if list :| LastIs(registrar, "hf.Registrar.Attributes", list) && list != "" && ListLets(list, name) {
      LastIsIff(registrar, REGISTRAR_ATTR, list);
    }
  }

  /** The words of a comma-separated list, case ignored. */
  function Words(list: string): set<string> {
    set p | p in Split(list, ',') && p != "" :: ToLower(p)
  }

  /** The subset test is inclusion of the sets of words. */
  lemma SubsetIsInclusion(small: string, big: string)
    ensures IsSubsetOf(small, big) <==> Words(small) <= Words(big)
  {
    var ss, bs := Split(small, ','), Split(big, ',');
    if IsSubsetOf(small, big) {
      forall x | x in Words(small) ensures x in Words(big) {
        var p :| p in ss && p != "" && ToLower(p) == x;
        var i :| 0 <= i < |ss| && ss[i] == p;
        assert StrContained(p, bs);
        var j :| 0 <= j < |bs| && ToLower(bs[j]) == ToLower(p);
        assert |bs[j]| == |ToLower(bs[j])| == |p|;
        assert bs[j] in bs;
      }
    }
    if Words(small) <= Words(big) {
      forall i | 0 <= i < |ss| && ss[i] != "" ensures StrContained(ss[i], bs) {
        assert ToLower(ss[i]) in Words(small);
        var p :| p in bs && p != "" && ToLower(p) == ToLower(ss[i]);
        var j :| 0 <= j < |bs| && bs[j] == p;
      }
    }
  }

  /**
   The first delegate roles of the request are within its first roles or, where these are absent or empty,
   within the roles of the identity that is modified.
  */
  ghost predicate DelegateRolesWithin(all: seq<Attribute>, user: Option<seq<Attribute>>) {
    exists delegate, requested, roles ::
      && FirstIs(all, "hf.Registrar.DelegateRoles", delegate)
      && FirstIs(all, "hf.Registrar.Roles", requested)
      && (if requested == "" && user.Some? then LastIs(user.value, "hf.Registrar.Roles", roles)
          else roles == requested)
      && Words(delegate) <= Words(roles)
  }

  lemma DelegateRolesWithinIff(all: seq<Attribute>, user: Option<seq<Attribute>>)
    ensures DelegateRolesOk(all, user) <==> DelegateRolesWithin(all, user)
  {
    hide FirstIs, LastIs, FirstValue, ValueOf, IsSubsetOf, Words;
    var d, q, r := FirstValue(all, DELEGATE_ROLES), FirstValue(all, ROLES), RolesCompared(all, user);
    FirstIsIff(all, DELEGATE_ROLES, d);
    FirstIsIff(all, ROLES, q);
    if user.Some? {
      LastIsIff(user.value, ROLES, ValueOf(user.value, ROLES));
    }
    SubsetIsInclusion(d, r);
    if DelegateRolesWithin(all, user) {
      var delegate, requested, roles :|
        && FirstIs(all, "hf.Registrar.DelegateRoles", delegate)
        && FirstIs(all, "hf.Registrar.Roles", requested)
        && (if requested == "" && user.Some? then LastIs(user.value, "hf.Registrar.Roles", roles)
          else roles == requested)
        && Words(delegate) <= Words(roles);
      FirstIsIff(all, DELEGATE_ROLES, delegate);
      FirstIsIff(all, ROLES, requested);
      if user.Some? {
        LastIsIff(user.value, ROLES, roles);
      }
    }
  }

  /** Each name is let through, and one that is reserved is requested as well or held by the modified identity. */
  ghost predicate NamesGrantable(value: string, all: seq<Attribute>, user: Option<seq<Attribute>>,
                                 registrar: seq<Attribute>)
  {
    forall n | n in Split(Without(value, ' '), ',') ::
      && Lets(registrar, n)
      && ("hf." <= n ==> HasName(all, n) || (user.Some? && HasName(user.value, n)))
  }

  /** What the registrar's own attributes say about handing out one attribute. */
  ghost predicate Grantable(a: Attribute, all: seq<Attribute>, user: Option<seq<Attribute>>,
                            registrar: seq<Attribute>)
  {
    && Lets(registrar, a.name)
    && if a.name in {"hf.Revoker", "hf.IntermediateCA", "hf.GenCRL", "hf.AffiliationMgr"} then
         && (exists own | own in TRUE_TEXTS :: LastIs(registrar, a.name, own))
         && (a.value == "" || a.value in TRUE_TEXTS || a.value in FALSE_TEXTS)
       else if a.name == "hf.Registrar.Roles" then
         exists own :: HasName(registrar, a.name) && LastIs(registrar, a.name, own) && Words(a.value) <= Words(own)
       else if a.name == "hf.Registrar.DelegateRoles" then
         && (exists own ::
               HasName(registrar, a.name) && LastIs(registrar, a.name, own) && Words(a.value) <= Words(own))
         && (a.value == "" || DelegateRolesWithin(all, user))
       else if a.name == "hf.Registrar.Attributes" then
         a.value == "" || NamesGrantable(a.value, all, user, registrar)
       else
         !("hf." <= a.name)
  }

  lemma TrueIff(registrar: seq<Attribute>, name: string)
    ensures (exists own | own in TRUE_TEXTS :: LastIs(registrar, name, own)) <==>
            Lookup(registrar, name).Some? && ParseBool(ValueOf(registrar, name)) == Some(true)
  {
    hide LastIs, Lookup;
    LastIsIff(registrar, name, ValueOf(registrar, name));
    if own :| own in TRUE_TEXTS && LastIs(registrar, name, own) {
      LastIsIff(registrar, name, own);
    }
  }

  lemma WithinOwnIff(registrar: seq<Attribute>, name: string, value: string)
    ensures (exists own :: HasName(registrar, name) && LastIs(registrar, name, own) && Words(value) <= Words(own)) <==>
            Lookup(registrar, name).Some? && IsSubsetOf(value, ValueOf(registrar, name))
  {
    hide LastIs, HasName, Words, IsSubsetOf, Lookup, ValueOf;
    HasNameLookup(registrar, name);
    LastIsIff(registrar, name, ValueOf(registrar, name));
    SubsetIsInclusion(value, ValueOf(registrar, name));
    if own :| HasName(registrar, name) && LastIs(registrar, name, own) && Words(value) <= Words(own) {
      LastIsIff(registrar, name, own);
    }
  }

  lemma NamesGrantableIff(a: Attribute, all: seq<Attribute>, user: Option<seq<Attribute>>, registrar: seq<Attribute>)
    requires ValueOf(registrar, REGISTRAR_ATTR) != ""
    ensures RegistrarAttrOk(a, all, user, ListOf(ValueOf(registrar, REGISTRAR_ATTR))) <==>
            NamesGrantable(a.value, all, user, registrar)
  {
    hide Lets, CanRegisterName, HasName, Lookup, ValueOf;
    var names, patterns := ListOf(a.value), ListOf(ValueOf(registrar, REGISTRAR_ATTR));
    forall i | 0 <= i < |names|
      ensures Lets(registrar, names[i]) <==> CanRegisterName(names[i], patterns)
      ensures user.Some? ==> (HasName(user.value, names[i]) <==> Lookup(user.value, names[i]).Some?)
      ensures names[i] in names
    {
      LetsIff(registrar, names[i]);
      if user.Some? {
        HasNameLookup(user.value, names[i]);
      }
    }
    forall n | n in names ensures exists i :: 0 <= i < |names| && names[i] == n {
    }
  }

  lemma GrantableIff(a: Attribute, all: seq<Attribute>, user: Option<seq<Attribute>>, registrar: seq<Attribute>)
    ensures CanRegisterAttribute(a, all, user, registrar) <==> Grantable(a, all, user, registrar)
  {
    hide Lets, LastIs, HasName, Words, IsSubsetOf, Lookup, ValueOf, CanRegisterName, ListOf, DelegateRolesWithin,
         DelegateRolesOk, NamesGrantable, RegistrarAttrOk;
    LetsIff(registrar, a.name);
    TrueIff(registrar, a.name);
    WithinOwnIff(registrar, a.name, a.value);
    NothingWithin(ValueOf(registrar, a.name));
    DelegateRolesWithinIff(all, user);
    if ValueOf(registrar, REGISTRAR_ATTR) != "" {
      NamesGrantableIff(a, all, user, registrar);
      HeldIfRead(registrar, REGISTRAR_ATTR);
    }
  }

  lemma HeldIfRead(l: seq<Attribute>, name: string)
    ensures ValueOf(l, name) != "" ==> Lookup(l, name).Some?
  {
  }

  /** Exactly which lists of attributes a registrar may hand out, to a new identity or to one that is modified. */
  lemma PermittedIff(rs: seq<Attribute>, user: Option<seq<Attribute>>, registrar: seq<Attribute>)
    ensures CanRegisterRequested(rs, user, registrar) <==>
            forall i | 0 <= i < |rs| :: Grantable(rs[i], rs, user, registrar)
  {
    hide CanRegisterAttribute, Grantable;
    forall i | 0 <= i < |rs|
      ensures CanRegisterAttribute(rs[i], rs, user, registrar) <==> Grantable(rs[i], rs, user, registrar)
    {
      GrantableIff(rs[i], rs, user, registrar);
    }
  }

  /** Attributes that are not reserved need nothing but their name on the registrar's list, whatever their value. */
  lemma CustomPermittedIff(rs: seq<Attribute>, user: Option<seq<Attribute>>, registrar: seq<Attribute>)
    requires forall i | 0 <= i < |rs| :: !("hf." <= rs[i].name)
    ensures CanRegisterRequested(rs, user, registrar) <==> forall i | 0 <= i < |rs| :: Lets(registrar, rs[i].name)
  {
    hide Lets, CanRegisterRequested;
    PermittedIff(rs, user, registrar);
  }

  /** The names of the reserved attributes nobody may hand out: the fixed ones, and those that do not exist. */
  lemma NeverPermitted(rs: seq<Attribute>, user: Option<seq<Attribute>>, registrar: seq<Attribute>, i: nat)
    requires i < |rs| && "hf." <= rs[i].name
    requires rs[i].name !in {"hf.Revoker", "hf.IntermediateCA", "hf.GenCRL", "hf.AffiliationMgr", "hf.Registrar.Roles",
                             "hf.Registrar.DelegateRoles", "hf.Registrar.Attributes"}
    ensures !CanRegisterRequested(rs, user, registrar)
  {
    hide Lets, CanRegisterRequested;
    PermittedIff(rs, user, registrar);
  }
}
