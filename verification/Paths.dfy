/**
 Dotted affiliation names. Every string is a name: its components are the parts between dots. The
 string tests of the code and the component-wise order are shown to be the same thing.
*/
module Paths {
  import opened Strings

  /** The SQL condition `LIKE a.%` and the test strings.HasPrefix(n, a + "."). */
  predicate Below(a: string, n: string) {
    a + "." <= n
  }

  predicate AtOrBelow(a: string, n: string) {
    n == a || Below(a, n)
  }

  predicate Nested(n: string) {
    '.' in n
  }

  function LastDot(n: string): (i: nat)
    requires Nested(n)
    ensures i < |n| && n[i] == '.'
    ensures forall j | i < j < |n| :: n[j] != '.'
  {
    if n[|n| - 1] == '.' then |n| - 1
    else
      assert n == n[..|n| - 1] + [n[|n| - 1]];
      LastDot(n[..|n| - 1])
  }

  /** The name without its last component; "" for a name of one component. */
  function Parent(n: string): string {
    if Nested(n) then n[..LastDot(n)] else ""
  }

  function Components(n: string): (cs: seq<string>)
    ensures |cs| >= 1
  {
    Split(n, '.')
  }

  /** isChildAffiliation. */
  predicate IsChild(name: string, child: string) {
    Below(name, child) && |Components(child)| == |Components(name)| + 1
  }

  /** Where a rename from `from` to `to` sends a name of the old subtree. */
  function Image(from: string, to: string, n: string): string
    requires AtOrBelow(from, n)
  {
    to + n[|from|..]
  }

  lemma ParentOf(x: string, leaf: string)
    requires Free(leaf, '.')
    ensures Nested(x + "." + leaf) && Parent(x + "." + leaf) == x
  {
    var n := x + "." + leaf;
    assert n[|x|] == '.';
    assert forall j | |x| < j < |n| :: n[j] == leaf[j - |x| - 1] && n[j] in leaf;
    assert n[..LastDot(n)] == x;
  }

  lemma ParentPrefix(n: string)
    requires Nested(n)
    ensures n == Parent(n) + "." + n[LastDot(n) + 1..]
    ensures Below(Parent(n), n)
  {
    var i := LastDot(n);
    assert n == n[..i] + [n[i]] + n[i + 1..];
  }

  lemma BelowIsLonger(a: string, n: string)
    requires Below(a, n)
    ensures |a| < |n|
  {
    assert |a + "."| == |a| + 1;
  }

  /** Everything strictly below `a` hangs off a name at or below `a`. */
  lemma BelowHasParent(a: string, n: string)
    requires Below(a, n)
    ensures Nested(n) && AtOrBelow(a, Parent(n))
  {
    assert n[|a|] == '.';
    var i := LastDot(n);
    if i == |a| {
      assert n[..i] == a;
    } else {
      assert a + "." <= n[..i];
    }
  }

  lemma BelowTransitive(a: string, b: string, c: string)
    requires AtOrBelow(a, b) && AtOrBelow(b, c)
    ensures AtOrBelow(a, c)
    ensures Below(a, b) || Below(b, c) ==> Below(a, c)
  {
    if Below(a, b) && Below(b, c) {
      assert a + "." <= b <= c;
    }
  }

  /** Two names above a common name are comparable. */
  lemma BelowLinear(a: string, b: string, n: string)
    requires AtOrBelow(a, n) && AtOrBelow(b, n) && |a| <= |b|
    ensures AtOrBelow(a, b)
  {
    assert a == n[..|a|] && b == n[..|b|];
    if |a| < |b| {
      assert n[|a|] == '.';
      assert b[|a|] == '.';
      assert a + "." == b[..|a| + 1];
    }
  }

  /** The string prefix test is the strict prefix order on components. */
  lemma BelowIsPrefix(a: string, n: string)
    ensures Below(a, n) <==> Components(a) < Components(n)
  {
    if Below(a, n) {
      var rest := n[|a| + 1..];
      assert n == a + "." + rest;
      SplitConcat(a, rest, '.');
    }
    if Components(a) < Components(n) {
      var k := |Components(a)|;
      assert Components(n) == Components(n)[..k] + Components(n)[k..];
      assert Components(n)[..k] == Components(a);
      JoinConcat(Components(a), Components(n)[k..], '.');
      JoinSplit(a, '.');
      JoinSplit(n, '.');
    }
  }

  /** Names with the same components are the same name. */
  lemma ComponentsInjective(a: string, b: string)
    requires Components(a) == Components(b)
    ensures a == b
  {
    JoinSplit(a, '.');
    JoinSplit(b, '.');
  }

  /** One partial order: reflexive, antisymmetric and transitive, the prefix order on components. */
  lemma AffiliationOrder(a: string, b: string, c: string)
    ensures AtOrBelow(a, b) <==> Components(a) <= Components(b)
    ensures AtOrBelow(a, a)
    ensures AtOrBelow(a, b) && AtOrBelow(b, a) ==> a == b
    ensures AtOrBelow(a, b) && AtOrBelow(b, c) ==> AtOrBelow(a, c)
  {
    BelowIsPrefix(a, b);
    if Components(a) == Components(b) {
      ComponentsInjective(a, b);
    }
    if AtOrBelow(a, b) && AtOrBelow(b, c) {
      BelowTransitive(a, b, c);
    }
  }

  /** The parent drops exactly the last component, and is the join of the others. */
  lemma ParentComponents(n: string)
    ensures Nested(n) <==> |Components(n)| > 1
    ensures Nested(n) ==> Components(Parent(n)) == Components(n)[..|Components(n)| - 1]
    ensures Nested(n) ==> Join(Components(n)[..|Components(n)| - 1], '.') == Parent(n)
  {
    if Nested(n) {
      var leaf := n[LastDot(n) + 1..];
      ParentPrefix(n);
      SplitConcat(Parent(n), leaf, '.');
      SplitFree(leaf, '.');
      assert Components(n)[..|Components(n)| - 1] == Components(Parent(n));
      JoinSplit(Parent(n), '.');
    } else {
      SplitFree(n, '.');
    }
  }

  /** A child is exactly a nested name whose parent is the given name. */
  lemma ChildIsParent(name: string, child: string)
    ensures IsChild(name, child) <==> Nested(child) && Parent(child) == name
  {
    ParentComponents(child);
    BelowIsPrefix(name, child);
    if IsChild(name, child) {
      assert Components(name) == Components(child)[..|Components(name)|];
      ComponentsInjective(name, Parent(child));
    }
    if Nested(child) && Parent(child) == name {
      ParentPrefix(child);
    }
  }

  /** Renaming moves the old subtree one-to-one onto the new one. */
  lemma ImageInverts(from: string, to: string, n: string)
    requires AtOrBelow(from, n)
    ensures AtOrBelow(to, Image(from, to, n))
    ensures Image(to, from, Image(from, to, n)) == n
    ensures ReplaceFirst(n, from, to) == Image(from, to, n)
  {
    var m := Image(from, to, n);
    assert n == from + n[|from|..];
    assert m[|to|..] == n[|from|..];
    if Below(from, n) {
      assert n[|from|] == '.';
      assert m[..|to| + 1] == to + ".";
    } else {
      assert m == to;
    }
  }

  lemma ImageJoined(from: string, to: string, p: string, leaf: string)
    requires AtOrBelow(from, p)
    ensures from <= p && p + "." + leaf == from + (p[|from|..] + "." + leaf)
    ensures to + (p + "." + leaf)[|from|..] == Image(from, to, p) + "." + leaf
  {
    assert p == from + p[|from|..];
    assert (p + "." + leaf)[|from|..] == p[|from|..] + "." + leaf;
  }

  /** Below the renamed name, renaming commutes with taking the parent. */
  lemma ImageParent(from: string, to: string, n: string)
    requires Below(from, n)
    ensures Nested(n) && AtOrBelow(from, Parent(n))
    ensures Nested(Image(from, to, n)) && Parent(Image(from, to, n)) == Image(from, to, Parent(n))
  {
    BelowHasParent(from, n);
    ParentPrefix(n);
    var p, leaf := Parent(n), n[LastDot(n) + 1..];
    assert Free(leaf, '.');
    ImageJoined(from, to, p, leaf);
    ParentOf(Image(from, to, p), leaf);
  }
}
