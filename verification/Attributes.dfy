/**
 Identity attributes: the list stored in a user row, the map the server looks attributes up in, and
 getNewAttributes, which edits a list in place.
*/
module Attributes {
  import opened Basics

  datatype Attribute = Attribute(name: string, value: string, ecert: bool)

  predicate UniqueNames(l: seq<Attribute>) {
    forall i, j | 0 <= i < j < |l| :: l[i].name != l[j].name
  }

  predicate AtMostOnce(l: seq<Attribute>, name: string) {
    forall i, j | 0 <= i < j < |l| :: !(l[i].name == name && l[j].name == name)
  }

  predicate HasName(l: seq<Attribute>, name: string) {
    exists i | 0 <= i < |l| :: l[i].name == name
  }

  /** The position of the first entry with this name, or |l|. */
  function Find(l: seq<Attribute>, name: string): (i: nat)
    ensures i <= |l|
    ensures i < |l| ==> l[i].name == name
    ensures forall j | 0 <= j < i :: l[j].name != name
  {
    if l == [] || l[0].name == name then 0 else 1 + Find(l[1..], name)
  }

  /** The position of the last entry with this name, or -1. */
  function FindLast(l: seq<Attribute>, name: string): (i: int)
    ensures -1 <= i < |l|
    ensures 0 <= i ==> l[i].name == name
    ensures forall j | i < j < |l| :: l[j].name != name
  {
    if l == [] then -1
    else if l[|l| - 1].name == name then |l| - 1
    else FindLast(l[..|l| - 1], name)
  }

  /** The attrs map of a DBUser, filled front to back: a later entry replaces an earlier one. */
  function AttrMap(l: seq<Attribute>): (m: map<string, Attribute>)
    ensures forall k | k in m :: m[k].name == k
  {
    if l == [] then map[]
    else
      var last := l[|l| - 1];
      AttrMap(l[..|l| - 1])[last.name := last]
  }

  /** The loop of newDBUser that fills the map. */
  method FillAttrs(l: seq<Attribute>) returns (attrs: map<string, Attribute>)
    ensures attrs == AttrMap(l)
  {
    attrs := map[];
    for i := 0 to |l|
      invariant attrs == AttrMap(l[..i])
    {
      assert l[..i + 1][..i] == l[..i];
      attrs := attrs[l[i].name := l[i]];
    }
    assert l[..|l|] == l;
  }

  /** DBUser.GetAttribute. */
  function Lookup(l: seq<Attribute>, name: string): Option<Attribute> {
    var i := FindLast(l, name);
    if i < 0 then None else Some(l[i])
  }

  /** An absent attribute reads as the empty string. */
  function ValueOf(l: seq<Attribute>, name: string): string {
    match Lookup(l, name)
    case Some(a) => a.value
    case None => ""
  }

  lemma {:induction false} LookupIsMap(l: seq<Attribute>, name: string)
    ensures name in AttrMap(l) <==> Lookup(l, name).Some?
    ensures name in AttrMap(l) ==> Lookup(l, name) == Some(AttrMap(l)[name])
  {
    if l == [] {
    } else {
      LookupIsMap(l[..|l| - 1], name);
    }
  }

  // ----- getNewAttributes

  /** The effect of one requested attribute on a list in which position `i` holds its entry, if any does. */
  function Edit(l: seq<Attribute>, i: nat, r: Attribute): seq<Attribute>
    requires i <= |l|
  {
    if i < |l| then
      if r.value == "" then l[..i] + l[i + 1..] else l[i := r]
    else if r.value == "" then l
    else l + [r]
  }

  function Apply(l: seq<Attribute>, r: Attribute): seq<Attribute> {
    Edit(l, Find(l, r.name), r)
  }

  function NewAttributes(l: seq<Attribute>, rs: seq<Attribute>): seq<Attribute>
    decreases rs
  {
    if rs == [] then l else NewAttributes(Apply(l, rs[0]), rs[1..])
  }

  /** The same request on the map of attributes: the empty value deletes. */
  function ApplyToMap(m: map<string, Attribute>, r: Attribute): map<string, Attribute> {
    if r.value == "" then m - {r.name} else m[r.name := r]
  }

  function ApplyAllToMap(m: map<string, Attribute>, rs: seq<Attribute>): map<string, Attribute>
    decreases rs
  {
    if rs == [] then m else ApplyAllToMap(ApplyToMap(m, rs[0]), rs[1..])
  }

  lemma NewAttributesSnoc(l: seq<Attribute>, rs: seq<Attribute>, r: Attribute)
    ensures NewAttributes(l, rs + [r]) == Apply(NewAttributes(l, rs), r)
    decreases rs
  {
    if rs != [] {
      assert (rs + [r])[1..] == rs[1..] + [r];
      NewAttributesSnoc(Apply(l, rs[0]), rs[1..], r);
    }
  }

  /** getNewAttributes on the slice a[..n]; appending past the capacity moves to a new array. */
  method GetNewAttributes(a: array<Attribute>, n: nat, reqs: seq<Attribute>)
    returns (b: array<Attribute>, m: nat)
    requires n <= a.Length
    modifies a
    ensures b == a || fresh(b)
    ensures m <= b.Length && b[..m] == NewAttributes(old(a[..n]), reqs)
  {
    b, m := a, n;
    for k := 0 to |reqs|
      invariant b == a || fresh(b)
      invariant m <= b.Length && b[..m] == NewAttributes(old(a[..n]), reqs[..k])
    {
      NewAttributesSnoc(old(a[..n]), reqs[..k], reqs[k]);
      assert reqs[..k + 1] == reqs[..k] + [reqs[k]];
      b, m := ApplyInPlace(b, m, reqs[k]);
    }
    assert reqs[..|reqs|] == reqs;
  }

  /** The body of the outer loop: find the entry, then delete it, overwrite it or append. */
  method ApplyInPlace(a: array<Attribute>, n: nat, r: Attribute) returns (b: array<Attribute>, m: nat)
    requires n <= a.Length
    modifies a
    ensures b == a || fresh(b)
    ensures m <= b.Length && b[..m] == Apply(old(a[..n]), r)
  {
    b, m := a, n;
    ghost var l := a[..n];
    var i := 0;
    while i < n && a[i].name != r.name
      invariant 0 <= i <= n
      invariant forall j | 0 <= j < i :: l[j].name != r.name
    {
      i := i + 1;
    }
    assert i == Find(l, r.name);
    if i < n {
      if r.value == "" {
        if i < n - 1 {
          ShiftDown(a, i, n);
        }
        m := n - 1;
        assert b[..m] == l[..i] + l[i + 1..];
      } else {
        a[i] := r;
        assert b[..m] == l[i := r];
      }
    } else if r.value != "" {
      b := Append(a, n, r);
      m := n + 1;
    }
  }

  /** append(b[:i], b[i+1:m]...): the tail moves one place down inside the same array. */
  method ShiftDown(b: array<Attribute>, i: nat, m: nat)
    requires i < m <= b.Length
    modifies b
    ensures b[..m - 1] == old(b[..i]) + old(b[i + 1..m])
  {
    for k := i to m - 1
      invariant b[..k] == old(b[..i]) + old(b[i + 1..k + 1])
      invariant b[k..] == old(b[k..])
    {
      b[k] := b[k + 1];
    }
  }

  /** append(b[:m], r): in place while the capacity allows, otherwise in a larger copy. */
  method Append(b: array<Attribute>, m: nat, r: Attribute) returns (c: array<Attribute>)
    requires m <= b.Length
    modifies b
    ensures c == b || fresh(c)
    ensures m < c.Length && c[..m + 1] == old(b[..m]) + [r]
  {
    c := b;
    if m == b.Length {
      c := new Attribute[2 * m + 1];
      for k := 0 to m
        invariant c[..k] == b[..k]
        invariant unchanged(b)
      {
        c[k] := b[k];
      }
    }
    c[m] := r;
  }

  lemma EditSplit(l: seq<Attribute>, i: nat, r: Attribute)
    requires i < |l|
    ensures l == l[..i] + [l[i]] + l[i + 1..]
    ensures Edit(l, i, r) == l[..i] + (if r.value == "" then [] else [r]) + l[i + 1..]
  {
    if r.value == "" {
      assert l[..i] + [] + l[i + 1..] == l[..i] + l[i + 1..];
    }
  }

  // ----- one name at a time

  /** The entries with this name, in order. */
  function Named(l: seq<Attribute>, name: string): (n: seq<Attribute>)
    ensures forall k | 0 <= k < |n| :: n[k].name == name
  {
    if l == [] then []
    else (if l[0].name == name then [l[0]] else []) + Named(l[1..], name)
  }

  lemma NamedFirst(x: Attribute, rest: seq<Attribute>, name: string)
    ensures Named([x] + rest, name) == (if x.name == name then [x] else []) + Named(rest, name)
  {
    assert ([x] + rest)[1..] == rest;
  }

  lemma {:induction false} NamedConcat(l: seq<Attribute>, k: seq<Attribute>, name: string)
    ensures Named(l + k, name) == Named(l, name) + Named(k, name)
  {
    if l == [] {
      assert l + k == k;
    } else {
      NamedFirst(l[0], l[1..], name);
      NamedFirst(l[0], l[1..] + k, name);
      hide *;
      Regroup(l, k);
      NamedConcat(l[1..], k, name);
      Associative(if l[0].name == name then [l[0]] else [], Named(l[1..], name), Named(k, name));
    }
  }

  lemma {:induction false} NamedNone(l: seq<Attribute>, name: string)
    requires !HasName(l, name)
    ensures Named(l, name) == []
  {
    if l == [] {
    } else {
      forall k | 0 <= k < |l[1..]| ensures l[1..][k].name != name {
        assert l[k + 1].name != name;
      }
      NamedNone(l[1..], name);
    }
  }

  lemma NamedAround(a: seq<Attribute>, x: seq<Attribute>, b: seq<Attribute>, name: string)
    ensures Named(a + x + b, name) == Named(a, name) + Named(x, name) + Named(b, name)
  {
    NamedConcat(a + x, b, name);
    NamedConcat(a, x, name);
  }

  lemma NamedSingle(x: Attribute, name: string)
    ensures Named([x], name) == if x.name == name then [x] else []
  {
    assert [x][1..] == [];
  }

  /** A request edits the entries of its own name, at their front, and no others. */
  lemma NamedApply(l: seq<Attribute>, r: Attribute, name: string)
    ensures Named(Apply(l, r), name) == if name == r.name then Edit(Named(l, name), 0, r) else Named(l, name)
  {
    var i := Find(l, r.name);
    NamedSingle(r, name);
    if i < |l| {
      EditSplit(l, i, r);
      NamedSingle(l[i], name);
      NamedAround(l[..i], [l[i]], l[i + 1..], name);
      NamedAround(l[..i], if r.value == "" then [] else [r], l[i + 1..], name);
      if name == r.name {
        NamedNone(l[..i], name);
        EditFront(l[i], Named(l[i + 1..], name), r);
      }
    } else {
      NamedConcat(l, [r], name);
      if name == r.name {
        NamedNone(l, name);
      }
    }
  }

  lemma EditFront(x: Attribute, rest: seq<Attribute>, r: Attribute)
    ensures Edit([] + [x] + rest, 0, r) == [] + (if r.value == "" then [] else [r]) + rest
  {
  }

  /** Edits of different names do not meet: the entries of a name are edited by the requests for it. */
  lemma {:induction false} NamedAfter(l: seq<Attribute>, rs: seq<Attribute>, name: string)
    ensures Named(NewAttributes(l, rs), name) == NewAttributes(Named(l, name), Named(rs, name))
    decreases rs
  {
    if rs == [] {
    } else {
      NamedAfter(Apply(l, rs[0]), rs[1..], name);
      NamedApply(l, rs[0], name);
      if rs[0].name == name {
        assert Find(Named(l, name), name) == 0;
        assert ([rs[0]] + Named(rs[1..], name))[1..] == Named(rs[1..], name);
      } else {
        assert [] + Named(rs[1..], name) == Named(rs[1..], name);
      }
    }
  }

  lemma {:induction false} LookupNamed(l: seq<Attribute>, name: string)
    ensures Lookup(l, name) == var n := Named(l, name); if n == [] then None else Some(n[|n| - 1])
  {
    if l == [] {
    } else {
      var front, last := l[..|l| - 1], l[|l| - 1];
      assert l == front + [last];
      NamedConcat(front, [last], name);
      NamedSingle(last, name);
      LookupNamed(front, name);
    }
  }

  /**
   The value read after requests on a list that has the name in `n` entries, the last with value `v`: as
   long as there is more than one, a request meets an entry that no lookup sees.
  */
  function ValueLeft(n: nat, v: string, rs: seq<Attribute>, name: string): string
    decreases rs
  {
    if rs == [] then v
    else if rs[0].name != name then ValueLeft(n, v, rs[1..], name)
    else if n > 1 then ValueLeft(if rs[0].value == "" then n - 1 else n, v, rs[1..], name)
    else ValueLeft(if rs[0].value == "" then 0 else 1, rs[0].value, rs[1..], name)
  }

  lemma ValueOfNamed(l: seq<Attribute>, name: string)
    ensures ValueOf(l, name) == var n := Named(l, name); if n == [] then "" else n[|n| - 1].value
  {
    LookupNamed(l, name);
  }

  lemma LeftByOne(l: seq<Attribute>, r: Attribute, name: string)
    ensures var n, n' := |Named(l, name)|, |Named(Apply(l, r), name)|;
            var v, v' := ValueOf(l, name), ValueOf(Apply(l, r), name);
            if name != r.name then n' == n && v' == v
            else if n > 1 then n' == (if r.value == "" then n - 1 else n) && v' == v
            else n' == (if r.value == "" then 0 else 1) && v' == r.value
  {
    hide Named, ValueOf, Apply;
    NamedApply(l, r, name);
    ValueOfNamed(l, name);
    ValueOfNamed(Apply(l, r), name);
  }

  lemma {:induction false} ValueAfterAny(l: seq<Attribute>, rs: seq<Attribute>, name: string)
    ensures ValueOf(NewAttributes(l, rs), name) == ValueLeft(|Named(l, name)|, ValueOf(l, name), rs, name)
    decreases rs
  {
    if rs == [] {
    } else {
      hide Named, ValueOf, Apply;
      ValueAfterAny(Apply(l, rs[0]), rs[1..], name);
      LeftByOne(l, rs[0], name);
    }
  }

  // ----- what getNewAttributes means

  lemma LookupAppend(l: seq<Attribute>, x: Attribute, name: string)
    ensures Lookup(l + [x], name) == if x.name == name then Some(x) else Lookup(l, name)
  {
    assert (l + [x])[..|l|] == l;
  }

  lemma {:induction false} NamedOnce(l: seq<Attribute>, name: string)
    requires AtMostOnce(l, name)
    ensures |Named(l, name)| <= 1
  {
    if l == [] {
    } else {
      NamedOnce(l[1..], name);
      if l[0].name == name {
        forall k | 0 <= k < |l[1..]| ensures l[1..][k].name != name {
          assert l[k + 1].name != name;
        }
        NamedNone(l[1..], name);
      }
    }
  }

  /** One request changes the entry of its own name and no other. */
  lemma LookupApply(l: seq<Attribute>, r: Attribute, name: string)
    requires name == r.name ==> AtMostOnce(l, name)
    ensures name != r.name ==> Lookup(Apply(l, r), name) == Lookup(l, name)
    ensures name == r.name ==> Lookup(Apply(l, r), name) == (if r.value == "" then None else Some(r))
  {
    hide Lookup, Apply, Named, AtMostOnce;
    NamedApply(l, r, name);
    LookupNamed(l, name);
    LookupNamed(Apply(l, r), name);
    if name == r.name {
      NamedOnce(l, name);
    }
  }

  lemma EditAtMostOnce(l: seq<Attribute>, i: nat, r: Attribute, name: string)
    requires i <= |l| && AtMostOnce(l, name)
    requires i < |l| ==> l[i].name == r.name
    requires i == |l| ==> !HasName(l, r.name)
    ensures AtMostOnce(Edit(l, i, r), name)
  {
    var l' := Edit(l, i, r);
    if i < |l| && r.value == "" {
      assert forall k | 0 <= k < |l'| :: l'[k] == l[if k < i then k else k + 1];
    }
  }

  lemma ApplyAtMostOnce(l: seq<Attribute>, r: Attribute, name: string)
    requires AtMostOnce(l, name)
    ensures AtMostOnce(Apply(l, r), name)
  {
    EditAtMostOnce(l, Find(l, r.name), r, name);
  }

  lemma ApplyUnique(l: seq<Attribute>, r: Attribute)
    requires UniqueNames(l)
    ensures UniqueNames(Apply(l, r))
  {
    forall i, j | 0 <= i < j < |Apply(l, r)| ensures Apply(l, r)[i].name != Apply(l, r)[j].name {
      ApplyAtMostOnce(l, r, Apply(l, r)[i].name);
    }
  }

  lemma ApplyRefinesMap(l: seq<Attribute>, r: Attribute)
    requires UniqueNames(l)
    ensures AttrMap(Apply(l, r)) == ApplyToMap(AttrMap(l), r)
  {
    forall name
      ensures name in AttrMap(Apply(l, r)) <==> name in ApplyToMap(AttrMap(l), r)
      ensures name in AttrMap(Apply(l, r)) ==> AttrMap(Apply(l, r))[name] == ApplyToMap(AttrMap(l), r)[name]
    {
      LookupIsMap(l, name);
      LookupIsMap(Apply(l, r), name);
      LookupApply(l, r, name);
    }
  }

  /** On lists of unique names, getNewAttributes is the sequential update of the attribute map. */
  lemma {:induction false} NewAttributesRefinesMap(l: seq<Attribute>, rs: seq<Attribute>)
    requires UniqueNames(l)
    ensures UniqueNames(NewAttributes(l, rs))
    ensures AttrMap(NewAttributes(l, rs)) == ApplyAllToMap(AttrMap(l), rs)
    decreases rs
  {
    if rs == [] {
    } else {
      ApplyUnique(l, rs[0]);
      ApplyRefinesMap(l, rs[0]);
      NewAttributesRefinesMap(Apply(l, rs[0]), rs[1..]);
    }
  }

  /** The entries whose names no request mentions, in order. */
  function Unrequested(l: seq<Attribute>, rs: seq<Attribute>): seq<Attribute> {
    if l == [] then []
    else if HasName(rs, l[0].name) then Unrequested(l[1..], rs)
    else [l[0]] + Unrequested(l[1..], rs)
  }

  lemma UnrequestedFirst(x: Attribute, rest: seq<Attribute>, rs: seq<Attribute>)
    ensures Unrequested([x] + rest, rs) == (if HasName(rs, x.name) then [] else [x]) + Unrequested(rest, rs)
  {
    assert ([x] + rest)[1..] == rest;
    assert [] + Unrequested(rest, rs) == Unrequested(rest, rs);
  }

  lemma {:induction false} UnrequestedConcat(l: seq<Attribute>, k: seq<Attribute>, rs: seq<Attribute>)
    ensures Unrequested(l + k, rs) == Unrequested(l, rs) + Unrequested(k, rs)
  {
    if l == [] {
      assert l + k == k;
    } else {
      UnrequestedFirst(l[0], l[1..], rs);
      UnrequestedFirst(l[0], l[1..] + k, rs);
      hide *;
      Regroup(l, k);
      UnrequestedConcat(l[1..], k, rs);
      Associative(if HasName(rs, l[0].name) then [] else [l[0]], Unrequested(l[1..], rs), Unrequested(k, rs));
    }
  }

  lemma UnrequestedAround(a: seq<Attribute>, x: seq<Attribute>, b: seq<Attribute>, rs: seq<Attribute>)
    requires forall k | 0 <= k < |x| :: HasName(rs, x[k].name)
    ensures Unrequested(a + x + b, rs) == Unrequested(a, rs) + Unrequested(b, rs)
  {
    assert Unrequested(a + x, rs) == Unrequested(a, rs) by {
      UnrequestedConcat(a, x, rs);
      UnrequestedNone(x, rs);
    }
    UnrequestedConcat(a + x, b, rs);
  }

  lemma {:induction false} UnrequestedNone(x: seq<Attribute>, rs: seq<Attribute>)
    requires forall k | 0 <= k < |x| :: HasName(rs, x[k].name)
    ensures Unrequested(x, rs) == []
  {
    if x == [] {
    } else {
      UnrequestedNone(x[1..], rs);
    }
  }

  lemma UnrequestedEdit(l: seq<Attribute>, i: nat, r: Attribute, rs: seq<Attribute>)
    requires i <= |l| && HasName(rs, r.name)
    requires i < |l| ==> l[i].name == r.name
    ensures Unrequested(Edit(l, i, r), rs) == Unrequested(l, rs)
  {
    var x := if r.value == "" then [] else [r];
    if i < |l| {
      EditSplit(l, i, r);
      UnrequestedAround(l[..i], [l[i]], l[i + 1..], rs);
      UnrequestedAround(l[..i], x, l[i + 1..], rs);
    } else {
      UnrequestedAround(l, x, [], rs);
      assert Edit(l, i, r) == l + x + [];
    }
  }

  /** What is not requested keeps its value, its ECert flag and its relative order, on every list. */
  lemma {:induction false} NewAttributesKeeps(l: seq<Attribute>, rs: seq<Attribute>, all: seq<Attribute>)
    requires forall k | 0 <= k < |rs| :: HasName(all, rs[k].name)
    ensures Unrequested(NewAttributes(l, rs), all) == Unrequested(l, all)
    decreases rs
  {
    if rs == [] {
    } else {
      UnrequestedEdit(l, Find(l, rs[0].name), rs[0], all);
      NewAttributesKeeps(Apply(l, rs[0]), rs[1..], all);
    }
  }

  /** Where an entry of the result comes from: it was there, or it was requested with a value. */
  lemma {:induction false} NewAttributesOrigin(l: seq<Attribute>, rs: seq<Attribute>, a: Attribute)
    requires a in NewAttributes(l, rs)
    ensures a in l || (a in rs && a.value != "")
    decreases rs
  {
    if rs == [] {
    } else {
      NewAttributesOrigin(Apply(l, rs[0]), rs[1..], a);
      if a in Apply(l, rs[0]) && a !in l {
        assert a == rs[0] && a.value != "";
      }
    }
  }

  /** The entry a name has after a list of requests: the last request for it, if any; an empty value deletes. */
  lemma {:induction false} EntryAfter(l: seq<Attribute>, rs: seq<Attribute>, name: string)
    requires AtMostOnce(l, name)
    ensures AtMostOnce(NewAttributes(l, rs), name)
    ensures Lookup(NewAttributes(l, rs), name) ==
            match Lookup(rs, name)
            case None => Lookup(l, name)
            case Some(r) => if r.value == "" then None else Some(r)
    decreases rs
  {
    if rs == [] {
    } else {
      LookupApply(l, rs[0], name);
      ApplyAtMostOnce(l, rs[0], name);
      LookupTail(rs, name);
      HasNameLookup(rs[1..], name);
      hide Lookup, AtMostOnce, Apply, HasName;
      EntryAfter(Apply(l, rs[0]), rs[1..], name);
    }
  }

  /** The value an attribute has after a list of requests: that of the last request for it, if any. */
  lemma ValueAfter(l: seq<Attribute>, rs: seq<Attribute>, name: string)
    requires AtMostOnce(l, name)
    ensures AtMostOnce(NewAttributes(l, rs), name)
    ensures ValueOf(NewAttributes(l, rs), name) == (if HasName(rs, name) then ValueOf(rs, name) else ValueOf(l, name))
  {
    hide Lookup, AtMostOnce, NewAttributes, HasName;
    EntryAfter(l, rs, name);
    HasNameLookup(rs, name);
  }

  lemma {:induction false} LookupTail(rs: seq<Attribute>, name: string)
    requires rs != []
    ensures Lookup(rs, name) ==
            (if HasName(rs[1..], name) then Lookup(rs[1..], name) else if rs[0].name == name then Some(rs[0]) else None)
  {
    if |rs| > 1 && rs[|rs| - 1].name != name {
      var front := rs[..|rs| - 1];
      LookupTail(front, name);
      assert front[1..] == rs[1..][..|rs| - 2];
      assert HasName(rs[1..], name) ==> HasName(front[1..], name);
      assert HasName(front[1..], name) ==> HasName(rs[1..], name);
    }
  }

  // ----- where the entries end up

  /** Some request deletes the name. */
  predicate Cleared(rs: seq<Attribute>, name: string) {
    exists i | 0 <= i < |rs| :: rs[i].name == name && rs[i].value == ""
  }

  /** An entry that no request deletes, as its last request has it. */
  function KeptOne(x: Attribute, rs: seq<Attribute>): seq<Attribute> {
    if Cleared(rs, x.name) then []
    else match Lookup(rs, x.name)
      case None => [x]
      case Some(r) => [r]
  }

  /** The entries of `l` that stay where they are. */
  function Kept(l: seq<Attribute>, rs: seq<Attribute>): seq<Attribute> {
    if l == [] then [] else KeptOne(l[0], rs) + Kept(l[1..], rs)
  }

  /**
   What is added to a list with these names, in the order of the requests after which the name is there
   for good; each entry as the last request for its name has it.
  */
  function Added(names: set<string>, rs: seq<Attribute>): seq<Attribute>
    decreases rs
  {
    if rs == [] then []
    else
      var r, rest := rs[0], rs[1..];
      if r.value == "" then Added(names - {r.name}, rest)
      else (if r.name in names then [] else KeptOne(r, rest)) + Added(names + {r.name}, rest)
  }

  function NameSet(l: seq<Attribute>): set<string> {
    set x | x in l :: x.name
  }

  lemma {:induction false} KeptConcat(l: seq<Attribute>, k: seq<Attribute>, rs: seq<Attribute>)
    ensures Kept(l + k, rs) == Kept(l, rs) + Kept(k, rs)
  {
    if l == [] {
      assert l + k == k;
    } else {
      KeptFirst(l[0], l[1..], rs);
      KeptFirst(l[0], l[1..] + k, rs);
      hide *;
      Regroup(l, k);
      KeptConcat(l[1..], k, rs);
      Associative(KeptOne(l[0], rs), Kept(l[1..], rs), Kept(k, rs));
    }
  }

  lemma KeptFirst(x: Attribute, rest: seq<Attribute>, rs: seq<Attribute>)
    ensures Kept([x] + rest, rs) == KeptOne(x, rs) + Kept(rest, rs)
  {
    assert ([x] + rest)[1..] == rest;
  }

  lemma ClearedTail(rs: seq<Attribute>, name: string)
    requires rs != []
    ensures Cleared(rs, name) <==> (rs[0].name == name && rs[0].value == "") || Cleared(rs[1..], name)
  {
    if i :| 0 < i < |rs| && rs[i].name == name && rs[i].value == "" {
      assert rs[1..][i - 1] == rs[i];
    }
    if i :| 0 <= i < |rs[1..]| && rs[1..][i].name == name && rs[1..][i].value == "" {
      assert rs[i + 1] == rs[1..][i];
    }
  }

  /** A request for another name makes no difference to an entry. */
  lemma KeptOneIgnores(x: Attribute, rs: seq<Attribute>)
    requires rs != [] && rs[0].name != x.name
    ensures KeptOne(x, rs) == KeptOne(x, rs[1..])
  {
    hide Cleared, Lookup;
    ClearedTail(rs, x.name);
    LookupTail(rs, x.name);
    HasNameLookup(rs[1..], x.name);
  }

  /** What becomes of an entry at a request for its name. */
  lemma KeptOneFirst(y: Attribute, rs: seq<Attribute>)
    requires rs != [] && rs[0].name == y.name
    ensures KeptOne(y, rs) == if rs[0].value == "" then [] else KeptOne(rs[0], rs[1..])
  {
    hide Cleared, Lookup;
    ClearedTail(rs, y.name);
    LookupTail(rs, y.name);
    HasNameLookup(rs[1..], y.name);
  }

  lemma {:induction false} KeptIgnores(l: seq<Attribute>, rs: seq<Attribute>)
    requires rs != [] && !HasName(l, rs[0].name)
    ensures Kept(l, rs) == Kept(l, rs[1..])
  {
    if l == [] {
    } else {
      KeptOneIgnores(l[0], rs);
      forall k | 0 <= k < |l[1..]| ensures l[1..][k].name != rs[0].name {
        assert l[k + 1].name != rs[0].name;
      }
      KeptIgnores(l[1..], rs);
    }
  }

  lemma HasNameLookup(l: seq<Attribute>, name: string)
    ensures HasName(l, name) <==> Lookup(l, name).Some?
  {
    if HasName(l, name) {
      var i :| 0 <= i < |l| && l[i].name == name;
      assert FindLast(l, name) >= i;
    }
  }

  lemma KeptAround(a: seq<Attribute>, x: seq<Attribute>, b: seq<Attribute>, rs: seq<Attribute>)
    ensures Kept(a + x + b, rs) == Kept(a, rs) + Kept(x, rs) + Kept(b, rs)
  {
    KeptConcat(a + x, b, rs);
    KeptConcat(a, x, rs);
  }

  /** Replacing the one entry the first request is about by what becomes of it. */
  lemma KeptReplaced(a: seq<Attribute>, y: seq<Attribute>, x: seq<Attribute>, b: seq<Attribute>, rs: seq<Attribute>)
    requires rs != [] && !HasName(a, rs[0].name) && !HasName(b, rs[0].name)
    requires Kept(y, rs) == Kept(x, rs[1..])
    ensures Kept(a + x + b, rs[1..]) == Kept(a + y + b, rs)
  {
    KeptAround(a, x, b, rs[1..]);
    KeptAround(a, y, b, rs);
    KeptIgnores(a, rs);
    KeptIgnores(b, rs);
  }

  lemma KeptSingle(x: Attribute, rs: seq<Attribute>)
    ensures Kept([x], rs) == KeptOne(x, rs)
  {
    assert [x][1..] == [];
  }

  lemma KeptApplyFound(l: seq<Attribute>, rs: seq<Attribute>)
    requires UniqueNames(l) && rs != [] && HasName(l, rs[0].name)
    ensures Kept(Apply(l, rs[0]), rs[1..]) == Kept(l, rs)
  {
    var i := Find(l, rs[0].name);
    SplitAtUnique(l, i);
    KeptOneFirst(l[i], rs);
    KeptSingle(l[i], rs);
    KeptSingle(rs[0], rs[1..]);
    KeptReplaced(l[..i], [l[i]], if rs[0].value == "" then [] else [rs[0]], l[i + 1..], rs);
    EditSplit(l, i, rs[0]);
  }

  lemma SplitAtUnique(l: seq<Attribute>, i: nat)
    requires UniqueNames(l) && i < |l|
    ensures !HasName(l[..i], l[i].name) && !HasName(l[i + 1..], l[i].name)
  {
  }

  lemma KeptApplyNew(l: seq<Attribute>, rs: seq<Attribute>)
    requires rs != [] && !HasName(l, rs[0].name)
    ensures Kept(Apply(l, rs[0]), rs[1..]) ==
            Kept(l, rs) + if rs[0].value == "" then [] else KeptOne(rs[0], rs[1..])
  {
    KeptIgnores(l, rs);
    KeptSingle(rs[0], rs[1..]);
    KeptConcat(l, [rs[0]], rs[1..]);
  }

  lemma NamesApply(l: seq<Attribute>, r: Attribute)
    requires UniqueNames(l)
    ensures NameSet(Apply(l, r)) == if r.value == "" then NameSet(l) - {r.name} else NameSet(l) + {r.name}
  {
    forall name ensures name in NameSet(Apply(l, r)) <==>
                        if name == r.name then r.value != "" else name in NameSet(l)
    {
      NamesHas(l, name);
      NamesHas(Apply(l, r), name);
      HasNameLookup(l, name);
      HasNameLookup(Apply(l, r), name);
      LookupApply(l, r, name);
    }
  }

  lemma NamesHas(l: seq<Attribute>, name: string)
    ensures name in NameSet(l) <==> HasName(l, name)
  {
    if HasName(l, name) {
      var i :| 0 <= i < |l| && l[i].name == name;
      assert l[i] in l;
    }
  }

  /** What the first request adds to a list without its name, if it comes to stay. */
  function Born(l: seq<Attribute>, rs: seq<Attribute>): seq<Attribute>
    requires rs != []
  {
    if rs[0].value == "" || HasName(l, rs[0].name) then [] else KeptOne(rs[0], rs[1..])
  }

  lemma KeptApply(l: seq<Attribute>, rs: seq<Attribute>)
    requires UniqueNames(l) && rs != []
    ensures Kept(Apply(l, rs[0]), rs[1..]) == Kept(l, rs) + Born(l, rs)
  {
    hide UniqueNames, HasName, Kept, KeptOne, Apply;
    if HasName(l, rs[0].name) {
      KeptApplyFound(l, rs);
    } else {
      KeptApplyNew(l, rs);
    }
  }

  lemma AddedApply(l: seq<Attribute>, rs: seq<Attribute>)
    requires UniqueNames(l) && rs != []
    ensures Added(NameSet(l), rs) == Born(l, rs) + Added(NameSet(Apply(l, rs[0])), rs[1..])
  {
    hide UniqueNames, HasName, KeptOne, Apply, NameSet;
    NamesApply(l, rs[0]);
    NamesHas(l, rs[0].name);
  }

  /**
   The outcome of any request list in one line: what no request deletes stays where it was, and what is
   new or deleted before it is requested again follows, in the order in which it came to stay.
  */
  lemma {:induction false} NewAttributesInOrder(l: seq<Attribute>, rs: seq<Attribute>)
    requires UniqueNames(l)
    ensures NewAttributes(l, rs) == Kept(l, rs) + Added(NameSet(l), rs)
    decreases rs
  {
    if rs == [] {
      KeptNothing(l);
    } else {
      hide UniqueNames, HasName, Kept, Added, Apply, NameSet, Born;
      ApplyUnique(l, rs[0]);
      NewAttributesInOrder(Apply(l, rs[0]), rs[1..]);
      KeptApply(l, rs);
      AddedApply(l, rs);
      Associative(Kept(l, rs), Born(l, rs), Added(NameSet(Apply(l, rs[0])), rs[1..]));
    }
  }

  lemma {:induction false} KeptNothing(l: seq<Attribute>)
    ensures Kept(l, []) == l
  {
    if l == [] {
    } else {
      KeptNothing(l[1..]);
    }
  }
}
