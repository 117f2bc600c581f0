/**
 The affiliation tree in a response. fillAffiliationInfo finds the children of a name in a slice,
 takes each out of it and recurses; all recursion frames share one array, of which each sees a prefix.
*/
module Response {
  import opened Strings
  import opened Paths
  import opened Tables
  import opened Registry
  import opened AffiliationTable

  datatype Tree = Node(name: string, children: seq<Tree>)

  function Names(forest: seq<Tree>): seq<string> {
    if forest == [] then [] else [forest[0].name] + Names(forest[0].children) + Names(forest[1..])
  }

  /** Every edge is from a name to a child of it. */
  predicate Linked(name: string, forest: seq<Tree>)
    decreases forest
  {
    forest != [] ==>
      && IsChild(name, forest[0].name)
      && Linked(forest[0].name, forest[0].children)
      && Linked(name, forest[1..])
  }

  /** The position of the first child of `name`, or |view|. */
  function FirstChild(name: string, view: seq<string>): (i: nat)
    ensures i <= |view|
    ensures i < |view| ==> IsChild(name, view[i])
    ensures forall j | 0 <= j < i :: !IsChild(name, view[j])
  {
    if view == [] || IsChild(name, view[0]) then 0 else 1 + FirstChild(name, view[1..])
  }

  function Without1(view: seq<string>, i: nat): (rest: seq<string>)
    requires i < |view|
    ensures |rest| == |view| - 1
  {
    view[..i] + view[i + 1..]
  }

  /** The children built by one frame, and what it leaves in the array slots it saw. */
  datatype Filled = Filled(children: seq<Tree>, slots: seq<string>)

  /**
   One frame, on values. Taking an element out shifts the rest down and leaves the last slot as it was,
   out of the frame's sight but not out of sight of the frames that called it.
  */
  function Fill(name: string, view: seq<string>): (r: Filled)
    ensures |r.slots| == |view|
    decreases |view|
  {
    var i := FirstChild(name, view);
    if i == |view| then Filled([], view)
    else
      var below := Fill(view[i], Without1(view, i));
      var rest := Fill(name, below.slots);
      Filled([Node(view[i], below.children)] + rest.children, rest.slots + [view[|view| - 1]])
  }

  /** What is sent: a tree whose nodes carry the identities of their affiliations. */
  datatype Info = Info(name: string, identities: seq<UserRow>, children: seq<Info>)

  function Dressed(t: Tree, ids: seq<UserRow>): Info {
    Info(t.name, Select(ids, AffIs(t.name).Holds), DressedAll(t.children, ids))
  }

  function DressedAll(forest: seq<Tree>, ids: seq<UserRow>): seq<Info> {
    if forest == [] then [] else [Dressed(forest[0], ids)] + DressedAll(forest[1..], ids)
  }

  lemma {:induction false} DressedSnoc(forest: seq<Tree>, t: Tree, ids: seq<UserRow>)
    ensures DressedAll(forest + [t], ids) == DressedAll(forest, ids) + [Dressed(t, ids)]
  {
    if forest == [] {
      assert [] + [t] == [t] && [t][1..] == [];
    } else {
      DressedSnoc(forest[1..], t, ids);
      assert (forest + [t])[1..] == forest[1..] + [t];
    }
  }

  /** The identities with this affiliation, compared by its path joined again. */
  method IdentitiesAt(ids: seq<UserRow>, name: string) returns (identities: seq<UserRow>)
    ensures identities == Select(ids, AffIs(name).Holds)
  {
    identities := [];
    for k := 0 to |ids|
      invariant identities == Select(ids[..k], AffIs(name).Holds)
    {
      JoinSplit(ids[k].affiliation, '.');
      SelectSnoc(ids[..k], ids[k], AffIs(name).Holds);
      assert ids[..k + 1] == ids[..k] + [ids[k]];
      if Join(Split(ids[k].affiliation, '.'), '.') == name {
        identities := identities + [ids[k]];
      }
    }
    assert ids[..|ids|] == ids;
  }

  lemma {:induction false} SelectSnoc<T>(rows: seq<T>, x: T, p: T -> bool)
    ensures Select(rows + [x], p) == Select(rows, p) + if p(x) then [x] else []
  {
    if rows == [] {
      assert [] + [x] == [x] && [x][1..] == [];
    } else {
      SelectSnoc(rows[1..], x, p);
      assert (rows + [x])[1..] == rows[1..] + [x];
    }
  }

  /** fillAffiliationInfo on the first `n` slots of the shared array. */
  method FillAffiliationInfo(a: array<string>, n: nat, name: string, ids: seq<UserRow>) returns (info: Info)
    requires n <= a.Length
    modifies a
    ensures info == Dressed(Node(name, Fill(name, old(a[..n])).children), ids)
    ensures a[..n] == Fill(name, old(a[..n])).slots
    ensures a[n..] == old(a[n..])
    decreases n
  {
    hide FirstChild, IsChild, Without1, Fill, DressedAll, Select;
    ghost var whole := Fill(name, a[..n]);
    ghost var beyond := a[n..];
    var identities := IdentitiesAt(ids, name);
    var children: seq<Info> := [];
    ghost var shown: seq<Tree> := [];
    assert children == DressedAll(shown, ids) by {
      NoneDressed(ids);
    }
    var m := n;
    while true
      invariant 0 <= m <= n
      invariant children == DressedAll(shown, ids)
      invariant whole.children == shown + Fill(name, a[..m]).children
      invariant whole.slots == Fill(name, a[..m]).slots + a[m..n]
      invariant a[n..] == beyond
      decreases m
    {
      var i := SearchChild(a, m, name);
      if i == m {
        FillNothing(name, a[..m]);
        assert shown + [] == shown;
        break;
      }
      ghost var view, stale, tail := a[..m], a[m..n], a[m - 1..];
      TailPieces(a, m, n);
      var child := a[i];
      Remove(a, i, m);
      ghost var below := Fill(child, a[..m - 1]);
      var childInfo := FillAffiliationInfo(a, m - 1, child, ids);
      assert a[m - 1..] == tail;
      TailPieces(a, m, n);
      FillRound(name, view, i, whole, shown, stale);
      DressedSnoc(shown, Node(child, below.children), ids);
      children := children + [childInfo];
      shown := shown + [Node(child, below.children)];
      m := m - 1;
    }
    return Info(name, identities, children);
  }

  lemma NoneDressed(ids: seq<UserRow>)
    ensures DressedAll([], ids) == []
  {
  }

  /** The slots a frame may not touch, in pieces. */
  lemma TailPieces(a: array<string>, m: nat, n: nat)
    requires 0 < m <= n <= a.Length
    ensures a[m - 1..] == [a[m - 1]] + a[m..n] + a[n..]
    ensures a[m - 1..][..n - m + 1] == a[m - 1..n] == [a[m - 1]] + a[m..n]
    ensures a[m - 1..][n - m + 1..] == a[n..]
  {
  }

  /** One round of the loop, on values. */
  lemma FillNothing(name: string, view: seq<string>)
    requires FirstChild(name, view) == |view|
    ensures Fill(name, view) == Filled([], view)
  {
  }

  lemma FillStep(name: string, view: seq<string>)
    requires FirstChild(name, view) < |view|
    ensures var i := FirstChild(name, view);
            var below := Fill(view[i], Without1(view, i));
            var rest := Fill(name, below.slots);
            && Fill(name, view).children == [Node(view[i], below.children)] + rest.children
            && Fill(name, view).slots == rest.slots + [view[|view| - 1]]
  {
  }

  lemma FillRound(name: string, view: seq<string>, i: nat, whole: Filled, children: seq<Tree>, stale: seq<string>)
    requires i == FirstChild(name, view) && i < |view|
    requires whole.children == children + Fill(name, view).children
    requires whole.slots == Fill(name, view).slots + stale
    ensures var below := Fill(view[i], Without1(view, i));
            && whole.children == children + [Node(view[i], below.children)] + Fill(name, below.slots).children
            && whole.slots == Fill(name, below.slots).slots + ([view[|view| - 1]] + stale)
  {
    hide Fill, FirstChild;
    FillStep(name, view);
  }

  method SearchChild(a: array<string>, m: nat, name: string) returns (i: nat)
    requires m <= a.Length
    ensures i == FirstChild(name, a[..m])
  {
    i := 0;
    while i < m && !IsChild(name, a[i])
      invariant i <= m
      invariant forall j | 0 <= j < i :: !IsChild(name, a[j])
    {
      i := i + 1;
    }
    ghost var view, first := a[..m], FirstChild(name, a[..m]);
    assert i < m ==> view[i] == a[i];
    assert first < m ==> view[first] == a[first];
  }

  /** append(s[:i], s[i+1:]...) on the first `m` slots. */
  method Remove(a: array<string>, i: nat, m: nat)
    requires i < m <= a.Length
    modifies a
    ensures a[..m - 1] == Without1(old(a[..m]), i)
    ensures a[m - 1..] == old(a[m - 1..])
  {
    ghost var was := a[..];
    for k := i to m - 1
      invariant forall j | 0 <= j < a.Length :: a[j] == was[if i <= j < k then j + 1 else j]
    {
      a[k] := a[k + 1];
    }
  }

  // ----- counting names

  function Count(s: seq<string>, x: string): nat {
    multiset(s)[x]
  }

  lemma CountMember(s: seq<string>, x: string)
    ensures x in s <==> Count(s, x) > 0
  {
  }

  lemma CountConcat(a: seq<string>, b: seq<string>, x: string)
    ensures Count(a + b, x) == Count(a, x) + Count(b, x)
  {
  }

  lemma CountTaken(view: seq<string>, i: nat, x: string)
    requires i < |view|
    ensures Count(Without1(view, i), x) == Count(view, x) - (if x == view[i] then 1 else 0)
    ensures Count(view, view[i]) > 0
  {
    assert view == view[..i] + [view[i]] + view[i + 1..];
  }

  lemma CountNode(name: string, below: seq<Tree>, rest: seq<Tree>, x: string)
    ensures Count(Names([Node(name, below)] + rest), x) ==
            (if x == name then 1 else 0) + Count(Names(below), x) + Count(Names(rest), x)
  {
    var forest := [Node(name, below)] + rest;
    assert forest[1..] == rest;
    assert Names(forest) == [name] + Names(below) + Names(rest);
  }

  // ----- reaching a name from above

  /** Every name strictly between, and the name itself, is in view. */
  ghost predicate Reach(f: string, view: seq<string>, x: string) {
    Below(f, x) && forall y | Below(f, y) && AtOrBelow(y, x) :: y in view
  }

  lemma {:induction false} TopChild(f: string, x: string) returns (c: string)
    requires Below(f, x)
    ensures IsChild(f, c) && AtOrBelow(c, x)
    decreases |x|
  {
    BelowHasParent(f, x);
    if Parent(x) == f {
      c := x;
      ChildIsParent(f, x);
    } else {
      c := TopChild(f, Parent(x));
      ParentPrefix(x);
      BelowTransitive(c, Parent(x), x);
    }
  }

  /** Below `f` on the way to `x` there is first the child `c`. */
  lemma PastChild(f: string, c: string, x: string, y: string)
    requires IsChild(f, c) && AtOrBelow(c, x) && Below(f, y) && AtOrBelow(y, x)
    ensures AtOrBelow(c, y)
  {
    if |y| < |c| {
      BelowLinear(y, c, x);
      ChildIsParent(f, c);
      BelowHasParent(y, c);
    } else {
      BelowLinear(c, y, x);
    }
  }

  lemma ReachPast(f: string, view: seq<string>, i: nat, x: string)
    requires i < |view| && IsChild(f, view[i]) && Below(view[i], x)
    ensures Below(f, x) && (Reach(f, view, x) <==> Reach(view[i], Without1(view, i), x))
  {
    var c, rest := view[i], Without1(view, i);
    BelowTransitive(f, c, x);
    if Reach(f, view, x) {
      forall y | Below(c, y) && AtOrBelow(y, x) ensures y in rest {
        BelowTransitive(f, c, y);
        TakenMember(view, i, y);
      }
    }
    if Reach(c, rest, x) {
      forall y | Below(f, y) && AtOrBelow(y, x) ensures y in view {
        PastChild(f, c, x, y);
        TakenMember(view, i, y);
      }
    }
  }

  lemma TakenMember(view: seq<string>, i: nat, y: string)
    requires i < |view|
    ensures y in Without1(view, i) ==> y in view
    ensures y in view ==> y in Without1(view, i) || y == view[i]
  {
    assert view == view[..i] + [view[i]] + view[i + 1..];
  }

  /** With no child in view nothing is reached. */
  lemma ReachNothing(f: string, view: seq<string>, x: string)
    requires FirstChild(f, view) == |view|
    ensures !Reach(f, view, x)
  {
    if Below(f, x) {
      var c := TopChild(f, x);
      forall j | 0 <= j < |view| ensures view[j] != c {
      }
      ReachNeeds(f, view, c, x);
    }
  }

  /** Whatever reaches `x` passes the child above it. */
  lemma ReachNeeds(f: string, view: seq<string>, c: string, x: string)
    requires IsChild(f, c) && AtOrBelow(c, x)
    ensures Reach(f, view, x) ==> c in view
  {
  }

  /** Reaching depends on nothing at or below another child. */
  lemma ReachBeside(f: string, view: seq<string>, slots: seq<string>, c: string, x: string)
    requires IsChild(f, c) && !AtOrBelow(c, x) && Reach(f, view, x)
    requires forall y | Below(f, y) && AtOrBelow(y, x) && !AtOrBelow(c, y) && y in view :: y in slots
    ensures Reach(f, slots, x)
  {
    forall y | Below(f, y) && AtOrBelow(y, x) ensures y in slots {
      if AtOrBelow(c, y) {
        BelowTransitive(c, y, x);
      }
    }
  }

  lemma ReachWithin(f: string, view: seq<string>, slots: seq<string>, x: string)
    requires Reach(f, slots, x) && forall y | y in slots :: y in view
    ensures Reach(f, view, x)
  {
  }

  lemma ChildIsBelow(f: string, c: string)
    requires IsChild(f, c)
    ensures Below(f, c) && !AtOrBelow(c, f)
    ensures forall x | AtOrBelow(c, x) :: Below(f, x)
  {
    forall x | AtOrBelow(c, x) ensures Below(f, x) {
      BelowTransitive(f, c, x);
    }
  }

  /** A child in view is reached. */
  lemma ReachChild(f: string, view: seq<string>, c: string)
    requires IsChild(f, c)
    ensures Reach(f, view, c) <==> c in view
  {
    if c in view {
      forall y | Below(f, y) && AtOrBelow(y, c) ensures y in view {
        PastChild(f, c, c, y);
      }
    }
  }

  // ----- any order: at least once

  /**
   A frame shows what it reaches at least as often as it sees it, loses only what is below its name,
   and invents nothing.
  */
  ghost predicate AtLeast(f: string, view: seq<string>, r: Filled) {
    && (forall x :: Reach(f, view, x) ==> Count(Names(r.children), x) >= Count(view, x))
    && (forall x :: !Below(f, x) ==> Count(r.slots, x) >= Count(view, x))
    && (forall x | x in r.slots :: x in view)
    && (forall x | x in Names(r.children) :: x in view && Below(f, x))
  }

  /** What a child's frame leaves in sight still reaches everything beside that child. */
  lemma StillReached(f: string, view: seq<string>, i: nat, below: Filled, x: string)
    requires i < |view| && IsChild(f, view[i]) && AtLeast(view[i], Without1(view, i), below)
    requires Reach(f, view, x) && !AtOrBelow(view[i], x)
    ensures Reach(f, below.slots, x) && Count(below.slots, x) >= Count(view, x)
  {
    var c, W := view[i], Without1(view, i);
    forall y | !AtOrBelow(c, y) && y in view ensures y in below.slots {
      CountTaken(view, i, y);
    }
    ReachBeside(f, view, below.slots, c, x);
    CountTaken(view, i, x);
  }

  lemma ShownAtLeast(f: string, view: seq<string>, i: nat, below: Filled, rest: Filled, x: string)
    requires i < |view| && IsChild(f, view[i])
    requires AtLeast(view[i], Without1(view, i), below) && AtLeast(f, below.slots, rest)
    requires Reach(f, view, x)
    ensures Count(view, x) <=
            (if x == view[i] then 1 else 0) + Count(Names(below.children), x) + Count(Names(rest.children), x)
  {
    var c := view[i];
    CountTaken(view, i, x);
    if x == c {
      ReachChild(f, below.slots, c);
      CountMember(below.slots, c);
    } else if Below(c, x) {
      ReachPast(f, view, i, x);
    } else {
      StillReached(f, view, i, below, x);
    }
  }

  lemma AtLeastRound(f: string, view: seq<string>, i: nat, below: Filled, rest: Filled, last: string)
    requires i < |view| && IsChild(f, view[i]) && last in view
    requires AtLeast(view[i], Without1(view, i), below) && AtLeast(f, below.slots, rest)
    ensures AtLeast(f, view, Filled([Node(view[i], below.children)] + rest.children, rest.slots + [last]))
  {
    var c := view[i];
    var r := Filled([Node(c, below.children)] + rest.children, rest.slots + [last]);
    ChildIsBelow(f, c);
    forall x ensures Reach(f, view, x) ==> Count(Names(r.children), x) >= Count(view, x) {
      CountNode(c, below.children, rest.children, x);
      if Reach(f, view, x) {
        ShownAtLeast(f, view, i, below, rest, x);
      }
    }
    forall x | !Below(f, x) ensures Count(r.slots, x) >= Count(view, x) {
      CountConcat(rest.slots, [last], x);
      CountTaken(view, i, x);
    }
    forall x | x in r.slots ensures x in view {
      TakenMember(view, i, x);
    }
    forall x | x in Names(r.children) ensures x in view && Below(f, x) {
      CountNode(c, below.children, rest.children, x);
      CountMember(Names(below.children), x);
      CountMember(Names(rest.children), x);
      CountMember(Names(r.children), x);
      TakenMember(view, i, x);
    }
  }

  lemma {:induction false} FillAtLeast(f: string, view: seq<string>)
    ensures AtLeast(f, view, Fill(f, view))
    decreases |view|
  {
    var i := FirstChild(f, view);
    if i == |view| {
      forall x ensures !Reach(f, view, x) {
        ReachNothing(f, view, x);
      }
    } else {
      hide AtLeast;
      var below := Fill(view[i], Without1(view, i));
      FillStep(f, view);
      FillAtLeast(view[i], Without1(view, i));
      FillAtLeast(f, below.slots);
      AtLeastRound(f, view, i, below, Fill(f, below.slots), view[|view| - 1]);
    }
  }

  // ----- a last slot nobody reaches: exactly once

  lemma FillLast(f: string, view: seq<string>)
    requires view != []
    ensures Fill(f, view).slots[|view| - 1] == view[|view| - 1]
  {
    hide FirstChild, IsChild;
    if FirstChild(f, view) < |view| {
      FillStep(f, view);
    } else {
      FillNothing(f, view);
    }
  }

  /** The last slot stays, and a frame that takes out something before it leaves a second copy. */
  lemma FillKeepsLast(f: string, view: seq<string>)
    requires view != []
    ensures Fill(f, view).slots[|view| - 1] == view[|view| - 1]
    ensures FirstChild(f, view) < |view| - 1 ==> Count(Fill(f, view).slots, view[|view| - 1]) >= 2
  {
    hide Fill, FirstChild, IsChild, Count;
    var i, last := FirstChild(f, view), view[|view| - 1];
    FillLast(f, view);
    if i < |view| - 1 {
      var below := Fill(view[i], Without1(view, i));
      FillLast(view[i], Without1(view, i));
      FillLast(f, below.slots);
      FillStep(f, view);
      var rest := Fill(f, below.slots);
      assert last in rest.slots;
      CountConcat(rest.slots, [last], last);
      CountMember(rest.slots, last);
      CountMember([last], last);
    }
  }

  /** Shown as often as seen, nothing else shown; what is not shown stays in sight, but for the last slot. */
  ghost predicate Exact(f: string, view: seq<string>, r: Filled, last: string) {
    && (forall x :: Count(Names(r.children), x) == if Reach(f, view, x) then Count(view, x) else 0)
    && (forall x | x != last :: Count(r.slots, x) == if Reach(f, view, x) then 0 else Count(view, x))
    && (forall x | x in r.slots :: x in view)
  }

  lemma ExactBeside(f: string, view: seq<string>, i: nat, below: Filled, x: string, last: string)
    requires i < |view| && IsChild(f, view[i]) && !Reach(f, view, last)
    requires Exact(view[i], Without1(view, i), below, last)
    requires !AtOrBelow(view[i], x)
    ensures Reach(f, below.slots, x) <==> Reach(f, view, x)
    ensures x != last ==> Count(below.slots, x) == Count(view, x)
  {
    var c, W := view[i], Without1(view, i);
    CountTaken(view, i, x);
    if Reach(f, view, x) {
      forall y | Below(f, y) && AtOrBelow(y, x) && !AtOrBelow(c, y) && y in view ensures y in below.slots {
        ReachPrefix(f, view, y, x);
        CountTaken(view, i, y);
        CountMember(below.slots, y);
      }
      ReachBeside(f, view, below.slots, c, x);
    }
    if Reach(f, below.slots, x) {
      forall y | y in below.slots ensures y in view {
        TakenMember(view, i, y);
      }
      ReachWithin(f, view, below.slots, x);
    }
  }

  lemma ReachPrefix(f: string, view: seq<string>, y: string, x: string)
    requires Reach(f, view, x) && Below(f, y) && AtOrBelow(y, x)
    ensures Reach(f, view, y)
  {
    forall z | Below(f, z) && AtOrBelow(z, y) ensures z in view {
      BelowTransitive(z, y, x);
    }
  }

  /** Below a child that has been taken out nothing more is reached. */
  lemma ExactPast(f: string, view: seq<string>, i: nat, below: Filled, x: string, last: string)
    requires i < |view| && IsChild(f, view[i]) && !Reach(f, view, last)
    requires Exact(view[i], Without1(view, i), below, last)
    requires Below(view[i], x)
    ensures Reach(view[i], Without1(view, i), x) <==> Reach(f, view, x)
    ensures !Reach(f, below.slots, x)
    ensures x != last ==> Count(below.slots, x) == if Reach(f, view, x) then 0 else Count(view, x)
  {
    ReachPast(f, view, i, x);
    CountTaken(view, i, x);
    if Reach(f, below.slots, x) {
      forall y | y in below.slots ensures y in view {
        TakenMember(view, i, y);
      }
      ReachWithin(f, view, below.slots, x);
      CountMember(below.slots, x);
    }
  }

  lemma ExactChild(f: string, view: seq<string>, i: nat, below: Filled, last: string)
    requires i < |view| && IsChild(f, view[i]) && !Reach(f, view, last)
    requires Exact(view[i], Without1(view, i), below, last)
    ensures view[i] != last
    ensures Reach(f, view, view[i]) && !Reach(view[i], Without1(view, i), view[i])
    ensures Count(below.slots, view[i]) == Count(view, view[i]) - 1
    ensures Reach(f, below.slots, view[i]) <==> view[i] in below.slots
  {
    ReachChild(f, view, view[i]);
    ReachChild(f, below.slots, view[i]);
    CountTaken(view, i, view[i]);
  }

  lemma ExactRound(f: string, view: seq<string>, i: nat, below: Filled, rest: Filled, last: string)
    requires i < |view| && IsChild(f, view[i]) && !Reach(f, view, last) && last in view
    requires Exact(view[i], Without1(view, i), below, last) && Exact(f, below.slots, rest, last)
    ensures Exact(f, view, Filled([Node(view[i], below.children)] + rest.children, rest.slots + [last]), last)
  {
    var c := view[i];
    var r := Filled([Node(c, below.children)] + rest.children, rest.slots + [last]);
    ExactChild(f, view, i, below, last);
    forall x
      ensures Count(Names(r.children), x) == if Reach(f, view, x) then Count(view, x) else 0
      ensures x != last ==> Count(r.slots, x) == if Reach(f, view, x) then 0 else Count(view, x)
    {
      hide Exact, Reach, Names, Without1;
      CountNode(c, below.children, rest.children, x);
      CountConcat(rest.slots, [last], x);
      ExactAt(f, view, i, below, rest, last, x);
    }
    forall x | x in r.slots ensures x in view {
      TakenMember(view, i, x);
    }
  }

  lemma ExactAt(f: string, view: seq<string>, i: nat, below: Filled, rest: Filled, last: string, x: string)
    requires i < |view| && IsChild(f, view[i]) && !Reach(f, view, last)
    requires Exact(view[i], Without1(view, i), below, last) && Exact(f, below.slots, rest, last)
    ensures (if x == view[i] then 1 else 0) + Count(Names(below.children), x) + Count(Names(rest.children), x)
            == if Reach(f, view, x) then Count(view, x) else 0
    ensures x != last ==> Count(rest.slots, x) == if Reach(f, view, x) then 0 else Count(view, x)
  {
    var c := view[i];
    if x == c {
      ExactChild(f, view, i, below, last);
      CountMember(below.slots, c);
    } else if Below(c, x) {
      ExactPast(f, view, i, below, x, last);
      CountTaken(view, i, x);
    } else {
      ExactBeside(f, view, i, below, x, last);
      assert !Reach(c, Without1(view, i), x);
    }
  }

  lemma NothingExact(f: string, view: seq<string>, last: string)
    requires FirstChild(f, view) == |view|
    ensures Exact(f, view, Filled([], view), last)
  {
    forall x ensures !Reach(f, view, x) {
      ReachNothing(f, view, x);
    }
  }

  /** A child's frame does not make an unreached last element reachable. */
  lemma StillUnreached(f: string, view: seq<string>, i: nat, below: Filled, last: string)
    requires i < |view| && AtLeast(view[i], Without1(view, i), below) && !Reach(f, view, last)
    ensures !Reach(f, below.slots, last)
  {
    if Reach(f, below.slots, last) {
      SlotsWithin(f, view, i, below, last);
    }
  }

  /** If the last element of a view is not reached, the frame is exact. */
  lemma {:induction false} FillExact(f: string, view: seq<string>)
    requires view != [] && !Reach(f, view, view[|view| - 1])
    ensures Exact(f, view, Fill(f, view), view[|view| - 1])
    decreases |view|
  {
    hide *;
    var i, last := FirstChild(f, view), view[|view| - 1];
    if i == |view| {
      FillNothing(f, view);
      NothingExact(f, view, last);
    } else {
      var c, W := view[i], Without1(view, i);
      var below := Fill(c, W);
      FillStep(f, view);
      LastUnreached(f, view, i);
      FillExact(c, W);
      FillKeepsLast(c, W);
      FillAtLeast(c, W);
      StillUnreached(f, view, i, below, last);
      FillExact(f, below.slots);
      ExactRound(f, view, i, below, Fill(f, below.slots), last);
    }
  }

  lemma SlotsWithin(f: string, view: seq<string>, i: nat, below: Filled, x: string)
    requires i < |view| && AtLeast(view[i], Without1(view, i), below) && Reach(f, below.slots, x)
    ensures Reach(f, view, x)
  {
    forall y | y in below.slots ensures y in view {
      TakenMember(view, i, y);
    }
    ReachWithin(f, view, below.slots, x);
  }

  lemma LastUnreached(f: string, view: seq<string>, i: nat)
    requires i < |view| && IsChild(f, view[i]) && !Reach(f, view, view[|view| - 1])
    ensures i < |view| - 1 && Without1(view, i)[|view| - 2] == view[|view| - 1]
    ensures !Reach(view[i], Without1(view, i), view[|view| - 1])
  {
    ReachChild(f, view, view[i]);
    if Reach(view[i], Without1(view, i), view[|view| - 1]) {
      ReachPast(f, view, i, view[|view| - 1]);
    }
  }

  // ----- exactly which orders are shown right

  predicate Distinct(s: seq<string>) {
    forall i, j | 0 <= i < j < |s| :: s[i] != s[j]
  }

  /**
   Walking from the root `r` down towards the last element, everything passed on the way has no child
   left, until the last element is the root itself or there is nothing further down.
  */
  predicate Clean(r: string, f: string, view: seq<string>)
    decreases |view|
  {
    var i := FirstChild(f, view);
    if i == |view| || !Below(r, view[|view| - 1]) then true
    else if !Below(f, view[|view| - 1]) then false
    else
      var c, W := view[i], Without1(view, i);
      if AtOrBelow(c, view[|view| - 1]) then Clean(r, c, W)
      else FirstChild(c, W) == |W| && Clean(r, f, W)
  }

  /** What a clean frame shows is exact; outside it changes the sight of nothing below the root. */
  ghost predicate CleanlyFilled(r: string, f: string, view: seq<string>, filled: Filled) {
    && (forall x :: Count(Names(filled.children), x) == if Reach(f, view, x) then Count(view, x) else 0)
    && (forall x | Below(r, x) && !Below(f, x) :: Count(filled.slots, x) == Count(view, x))
  }

  lemma DistinctTaken(view: seq<string>, i: nat)
    requires Distinct(view) && i < |view|
    ensures Distinct(Without1(view, i)) && view[i] !in Without1(view, i) && Count(view, view[i]) == 1
  {
    var W := Without1(view, i);
    forall j | 0 <= j < |W| ensures W[j] == view[if j < i then j else j + 1] {
    }
    CountTaken(view, i, view[i]);
    CountMember(W, view[i]);
  }

  /** Beside the child just entered, a clean frame leaves reaching as it was. */
  lemma CleanBeside(r: string, f: string, view: seq<string>, i: nat, below: Filled, x: string)
    requires i < |view| && IsChild(f, view[i]) && AtOrBelow(r, f)
    requires CleanlyFilled(r, view[i], Without1(view, i), below) && AtLeast(view[i], Without1(view, i), below)
    requires !AtOrBelow(view[i], x)
    ensures Reach(f, below.slots, x) <==> Reach(f, view, x)
    ensures Below(r, x) ==> Count(below.slots, x) == Count(view, x)
  {
    CountTaken(view, i, x);
    if Reach(f, view, x) {
      StillReached(f, view, i, below, x);
    }
    if Reach(f, below.slots, x) {
      SlotsWithin(f, view, i, below, x);
    }
  }

  lemma BelowRoot(r: string, f: string, c: string, x: string)
    requires AtOrBelow(r, f) && IsChild(f, c)
    ensures AtOrBelow(r, c) && Below(r, c)
    ensures Below(f, x) ==> Below(r, x)
    ensures AtOrBelow(c, x) ==> Below(f, x)
  {
    BelowTransitive(r, f, c);
    if Below(f, x) {
      BelowTransitive(r, f, x);
    }
    if AtOrBelow(c, x) {
      BelowTransitive(f, c, x);
    }
  }

  /** After the child on the way to the last element, the other children are filled exactly. */
  lemma CleanPathRound(r: string, f: string, view: seq<string>, i: nat, below: Filled, rest: Filled, last: string)
    requires i < |view| && IsChild(f, view[i]) && AtOrBelow(r, f) && Distinct(view)
    requires last in view && AtOrBelow(view[i], last)
    requires CleanlyFilled(r, view[i], Without1(view, i), below) && AtLeast(view[i], Without1(view, i), below)
    requires Exact(f, below.slots, rest, last)
    ensures CleanlyFilled(r, f, view, Filled([Node(view[i], below.children)] + rest.children, rest.slots + [last]))
  {
    var c := view[i];
    var filled := Filled([Node(c, below.children)] + rest.children, rest.slots + [last]);
    hide AtLeast, Exact, Reach, Names, Count, Distinct, IsChild;
    DistinctTaken(view, i);
    forall x
      ensures Count(Names(filled.children), x) == if Reach(f, view, x) then Count(view, x) else 0
      ensures Below(r, x) && !Below(f, x) ==> Count(filled.slots, x) == Count(view, x)
    {
      BelowRoot(r, f, c, x);
      BelowRoot(r, f, c, last);
      CountNode(c, below.children, rest.children, x);
      CountConcat(rest.slots, [last], x);
      CleanPathAt(r, f, view, i, below, rest, last, x);
    }
  }

  lemma CleanPathAt(r: string, f: string, view: seq<string>, i: nat, below: Filled, rest: Filled, last: string,
                    x: string)
    requires i < |view| && IsChild(f, view[i]) && AtOrBelow(r, f) && Distinct(view)
    requires last in view && AtOrBelow(view[i], last)
    requires CleanlyFilled(r, view[i], Without1(view, i), below) && AtLeast(view[i], Without1(view, i), below)
    requires Exact(f, below.slots, rest, last)
    ensures (if x == view[i] then 1 else 0) + Count(Names(below.children), x) + Count(Names(rest.children), x)
            == if Reach(f, view, x) then Count(view, x) else 0
    ensures Below(r, x) && !Below(f, x) ==> Count(rest.slots, x) == Count(view, x)
  {
    var c := view[i];
    DistinctTaken(view, i);
    BelowRoot(r, f, c, x);
    BelowRoot(r, f, c, last);
    assert c !in below.slots;
    if x == c {
      ReachChild(f, view, c);
      ReachChild(f, below.slots, c);
    } else if Below(c, x) {
      ReachPast(f, view, i, x);
      CountTaken(view, i, x);
    } else {
      CleanBeside(r, f, view, i, below, x);
    }
  }

  /** A childless sibling on the way is shown alone. */
  lemma CleanLeafRound(r: string, f: string, view: seq<string>, i: nat, rest: Filled, last: string)
    requires i < |view| && IsChild(f, view[i]) && AtOrBelow(r, f) && Distinct(view) && Below(f, last)
    requires FirstChild(view[i], Without1(view, i)) == |view| - 1
    requires CleanlyFilled(r, f, Without1(view, i), rest)
    ensures CleanlyFilled(r, f, view, Filled([Node(view[i], [])] + rest.children, rest.slots + [last]))
  {
    var c, W := view[i], Without1(view, i);
    var filled := Filled([Node(c, [])] + rest.children, rest.slots + [last]);
    DistinctTaken(view, i);
    forall x
      ensures Count(Names(filled.children), x) == if Reach(f, view, x) then Count(view, x) else 0
      ensures Below(r, x) && !Below(f, x) ==> Count(filled.slots, x) == Count(view, x)
    {
      BelowRoot(r, f, c, x);
      CountNode(c, [], rest.children, x);
      CountConcat(rest.slots, [last], x);
      CountTaken(view, i, x);
      LeafReach(f, view, i, x);
    }
  }

  lemma LeafReach(f: string, view: seq<string>, i: nat, x: string)
    requires i < |view| && IsChild(f, view[i]) && Distinct(view)
    requires FirstChild(view[i], Without1(view, i)) == |view| - 1
    ensures x == view[i] ==> Reach(f, view, x) && !Reach(f, Without1(view, i), x)
    ensures x != view[i] ==> (Reach(f, Without1(view, i), x) <==> Reach(f, view, x))
  {
    var c, W := view[i], Without1(view, i);
    DistinctTaken(view, i);
    ReachChild(f, view, c);
    ReachChild(f, W, c);
    if Below(c, x) {
      ReachPast(f, view, i, x);
      ReachNothing(c, W, x);
      ReachNeeds(f, W, c, x);
    } else if x != c {
      if Reach(f, view, x) {
        forall y | !AtOrBelow(c, y) && y in view ensures y in W {
          TakenMember(view, i, y);
        }
        ReachBeside(f, view, W, c, x);
      }
      if Reach(f, W, x) {
        forall y | y in W ensures y in view {
          TakenMember(view, i, y);
        }
        ReachWithin(f, view, W, x);
      }
    }
  }

  lemma {:induction false} CleanIsExact(r: string, f: string, view: seq<string>)
    requires Clean(r, f, view) && Distinct(view) && AtOrBelow(r, f)
    ensures CleanlyFilled(r, f, view, Fill(f, view))
    decreases |view|
  {
    var i := FirstChild(f, view);
    if i == |view| {
      forall x ensures !Reach(f, view, x) {
        ReachNothing(f, view, x);
      }
    } else if !Below(r, view[|view| - 1]) {
      CleanLast(r, f, view);
    } else {
      var c, W, last := view[i], Without1(view, i), view[|view| - 1];
      DistinctTaken(view, i);
      BelowRoot(r, f, c, last);
      if AtOrBelow(c, last) {
        CleanIsExact(r, c, W);
        CleanPath(r, f, view);
      } else {
        CleanIsExact(r, f, W);
        FillNothing(c, W);
        FillStep(f, view);
        CleanLeafRound(r, f, view, i, Fill(f, W), last);
      }
    }
  }

  lemma CleanLast(r: string, f: string, view: seq<string>)
    requires view != [] && !Below(r, view[|view| - 1]) && AtOrBelow(r, f)
    ensures CleanlyFilled(r, f, view, Fill(f, view))
  {
    var last := view[|view| - 1];
    if Below(f, last) {
      BelowTransitive(r, f, last);
    }
    FillExact(f, view);
  }

  /** The frame whose child is on the way to the last element. */
  lemma CleanPath(r: string, f: string, view: seq<string>)
    requires Distinct(view) && AtOrBelow(r, f) && FirstChild(f, view) < |view|
    requires AtOrBelow(view[FirstChild(f, view)], view[|view| - 1])
    requires var i := FirstChild(f, view);
             CleanlyFilled(r, view[i], Without1(view, i), Fill(view[i], Without1(view, i)))
    ensures CleanlyFilled(r, f, view, Fill(f, view))
  {
    hide Fill, CleanlyFilled, Exact, AtLeast;
    var i := FirstChild(f, view);
    var c, W, last := view[i], Without1(view, i), view[|view| - 1];
    var below := Fill(c, W);
    FillStep(f, view);
    FillAtLeast(c, W);
    CleanRest(r, f, view, i, below);
    CleanPathRound(r, f, view, i, below, Fill(f, below.slots), last);
  }

  /** If the first child is the last element, no other element is a child. */
  lemma NoChildLeft(f: string, view: seq<string>, slots: seq<string>)
    requires view != [] && FirstChild(f, view) == |view| - 1
    requires forall x | x in slots :: x in view[..|view| - 1]
    ensures FirstChild(f, slots) == |slots|
  {
    hide IsChild, FirstChild;
    forall j | 0 <= j < |slots| ensures !IsChild(f, slots[j]) {
      var front := view[..|view| - 1];
      assert slots[j] in slots && slots[j] in front;
      var k :| 0 <= k < |front| && front[k] == slots[j];
      assert !IsChild(f, view[k]);
    }
  }

  lemma CleanRest(r: string, f: string, view: seq<string>, i: nat, below: Filled)
    requires Distinct(view) && AtOrBelow(r, f) && i == FirstChild(f, view) < |view|
    requires AtOrBelow(view[i], view[|view| - 1])
    requires below == Fill(view[i], Without1(view, i)) && AtLeast(view[i], Without1(view, i), below)
    ensures Exact(f, below.slots, Fill(f, below.slots), view[|view| - 1])
  {
    hide Fill, Exact, IsChild, FirstChild, Count, Names, Components;
    var c, W, last := view[i], Without1(view, i), view[|view| - 1];
    DistinctTaken(view, i);
    assert c !in below.slots;
    if i == |view| - 1 {
      assert W == view[..|view| - 1];
      NoChildLeft(f, view, below.slots);
      FillNothing(f, below.slots);
      NothingExact(f, below.slots, last);
    } else {
      assert W[|W| - 1] == last;
      FillKeepsLast(c, W);
      ReachNeeds(f, below.slots, c, last);
      FillExact(f, below.slots);
    }
  }

  // ----- every other order shows some name twice

  /** Nothing in view is cut off from the frame. */
  ghost predicate Pending(f: string, view: seq<string>) {
    forall y | y in view && Below(f, y) :: Reach(f, view, y)
  }

  /** A name shown twice, or seen twice by a frame that still has to show it. */
  ghost predicate Twice(r: string, f: string, view: seq<string>, filled: Filled) {
    || (exists x :: Count(Names(filled.children), x) >= 2)
    || (exists x :: x in view && Below(r, x) && !Below(f, x) && Count(filled.slots, x) >= 2)
  }

  lemma PendingPast(f: string, view: seq<string>, i: nat)
    requires i < |view| && IsChild(f, view[i]) && Pending(f, view)
    ensures Pending(view[i], Without1(view, i))
  {
    forall y | y in Without1(view, i) && Below(view[i], y) ensures Reach(view[i], Without1(view, i), y) {
      ReachPast(f, view, i, y);
      TakenMember(view, i, y);
    }
  }

  lemma PendingLeaf(f: string, view: seq<string>, i: nat)
    requires i < |view| && IsChild(f, view[i]) && Pending(f, view) && Distinct(view)
    requires FirstChild(view[i], Without1(view, i)) == |view| - 1
    ensures Pending(f, Without1(view, i))
  {
    DistinctTaken(view, i);
    forall y | y in Without1(view, i) && Below(f, y) ensures Reach(f, Without1(view, i), y) {
      TakenMember(view, i, y);
      LeafReach(f, view, i, y);
    }
  }

  /** What one frame up makes of a name doubled below: it shows it twice, or passes it on. */
  lemma TwiceUp(r: string, f: string, view: seq<string>, i: nat, below: Filled, rest: Filled, last: string)
    requires i < |view| && IsChild(f, view[i]) && Pending(f, view) && Distinct(view)
    requires AtLeast(view[i], Without1(view, i), below) && AtLeast(f, below.slots, rest)
    requires Twice(r, view[i], Without1(view, i), below)
    ensures Twice(r, f, view, Filled([Node(view[i], below.children)] + rest.children, rest.slots + [last]))
  {
    var c, W := view[i], Without1(view, i);
    var filled := Filled([Node(c, below.children)] + rest.children, rest.slots + [last]);
    DistinctTaken(view, i);
    if x :| Count(Names(below.children), x) >= 2 {
      CountNode(c, below.children, rest.children, x);
    } else {
      var x :| x in W && Below(r, x) && !Below(c, x) && Count(below.slots, x) >= 2;
      TakenMember(view, i, x);
      SeenTwice(r, f, view, i, below, rest, last, x);
    }
  }

  lemma SeenTwice(r: string, f: string, view: seq<string>, i: nat, below: Filled, rest: Filled, last: string, x: string)
    requires i < |view| && IsChild(f, view[i]) && Pending(f, view)
    requires AtLeast(view[i], Without1(view, i), below) && AtLeast(f, below.slots, rest)
    requires x in view && Below(r, x) && !AtOrBelow(view[i], x) && Count(below.slots, x) >= 2
    ensures Twice(r, f, view, Filled([Node(view[i], below.children)] + rest.children, rest.slots + [last]))
  {
    var filled := Filled([Node(view[i], below.children)] + rest.children, rest.slots + [last]);
    if Below(f, x) {
      StillReached(f, view, i, below, x);
      CountNode(view[i], below.children, rest.children, x);
    } else {
      CountConcat(rest.slots, [last], x);
    }
  }

  /** A childless sibling changes nothing about it. */
  lemma TwiceLeaf(r: string, f: string, view: seq<string>, i: nat, rest: Filled, last: string)
    requires i < |view| && Twice(r, f, Without1(view, i), rest)
    ensures Twice(r, f, view, Filled([Node(view[i], [])] + rest.children, rest.slots + [last]))
  {
    var filled := Filled([Node(view[i], [])] + rest.children, rest.slots + [last]);
    if x :| Count(Names(rest.children), x) >= 2 {
      CountNode(view[i], [], rest.children, x);
    } else {
      var x :| x in Without1(view, i) && Below(r, x) && !Below(f, x) && Count(rest.slots, x) >= 2;
      TakenMember(view, i, x);
      CountConcat(rest.slots, [last], x);
    }
  }

  lemma {:induction false} UncleanIsTwice(r: string, f: string, view: seq<string>)
    requires !Clean(r, f, view) && Distinct(view) && AtOrBelow(r, f) && Pending(f, view)
    ensures Twice(r, f, view, Fill(f, view))
    decreases |view|
  {
    var i, last := FirstChild(f, view), view[|view| - 1];
    var c, W := view[i], Without1(view, i);
    var below := Fill(c, W);
    DistinctTaken(view, i);
    BelowRoot(r, f, c, last);
    FillKeepsLast(f, view);
    if Below(f, last) {
      hide Fill, Twice, AtLeast, Reach;
      FillStep(f, view);
      FillAtLeast(c, W);
      FillAtLeast(f, below.slots);
      if AtOrBelow(c, last) {
        PendingPast(f, view, i);
        UncleanIsTwice(r, c, W);
        TwiceUp(r, f, view, i, below, Fill(f, below.slots), last);
      } else if FirstChild(c, W) == |W| {
        PendingLeaf(f, view, i);
        UncleanIsTwice(r, f, W);
        FillNothing(c, W);
        TwiceLeaf(r, f, view, i, Fill(f, W), last);
      } else {
        LastDoubled(view, i, c);
        SeenTwice(r, f, view, i, below, Fill(f, below.slots), last, last);
      }
    } else {
      assert last in view;
    }
  }

  /** A frame with something to show doubles a last element it does not show. */
  lemma LastDoubled(view: seq<string>, i: nat, c: string)
    requires i < |view| && view[i] == c && !AtOrBelow(c, view[|view| - 1])
    requires FirstChild(c, Without1(view, i)) < |view| - 1
    ensures Count(Fill(c, Without1(view, i)).slots, view[|view| - 1]) >= 2
  {
    hide Fill, Count, Components;
    var W := Without1(view, i);
    assert W[|W| - 1] == view[|view| - 1];
    assert !IsChild(c, W[|W| - 1]);
    FillKeepsLast(c, W);
  }

  // ----- the response

  /** The rows of one subtree: each name once, and with every name but the root its parent. */
  predicate TreeShaped(root: string, view: seq<string>) {
    && Distinct(view) && root in view
    && forall i | 0 <= i < |view| && view[i] != root :: Below(root, view[i]) && Parent(view[i]) in view
  }

  lemma {:induction false} ChainInView(root: string, view: seq<string>, y: string, x: string)
    requires TreeShaped(root, view) && x in view && Below(root, y) && AtOrBelow(y, x)
    ensures y in view
    decreases |x|
  {
    if y != x {
      BelowHasParent(y, x);
      ParentPrefix(x);
      var i :| 0 <= i < |view| && view[i] == x;
      if x == root {
        BelowTransitive(root, y, x);
      }
      ChainInView(root, view, y, Parent(x));
    }
  }

  lemma TreeIsPending(root: string, view: seq<string>)
    requires TreeShaped(root, view)
    ensures Pending(root, view)
    ensures forall x | x in view :: x == root || Reach(root, view, x)
  {
    forall x | x in view && x != root ensures Reach(root, view, x) {
      var i :| 0 <= i < |view| && view[i] == x;
      forall y | Below(root, y) && AtOrBelow(y, x) ensures y in view {
        ChainInView(root, view, y, x);
      }
    }
  }

  /** The whole tree shown for a root. */
  function Shown(root: string, view: seq<string>): seq<string> {
    Names([Node(root, Fill(root, view).children)])
  }

  lemma CountShown(root: string, view: seq<string>, x: string)
    ensures Count(Shown(root, view), x) == (if x == root then 1 else 0) + Count(Names(Fill(root, view).children), x)
  {
    assert [Node(root, Fill(root, view).children)] + [] == [Node(root, Fill(root, view).children)];
    CountNode(root, Fill(root, view).children, [], x);
    assert Names([]) == [];
  }

  lemma {:induction false} FillIsLinked(f: string, view: seq<string>)
    ensures Linked(f, Fill(f, view).children)
    decreases |view|
  {
    var i := FirstChild(f, view);
    if i < |view| {
      var below := Fill(view[i], Without1(view, i));
      FillStep(f, view);
      FillIsLinked(view[i], Without1(view, i));
      FillIsLinked(f, below.slots);
      var rest := Fill(f, below.slots).children;
      assert ([Node(view[i], below.children)] + rest)[1..] == rest;
    }
  }

  /** In any order: every name is shown at least once, nothing else is, and edges are parent to child. */
  lemma ShownAnyOrder(root: string, view: seq<string>)
    requires TreeShaped(root, view)
    ensures forall x :: x in Shown(root, view) <==> x in view
    ensures Linked(root, Fill(root, view).children)
  {
    TreeIsPending(root, view);
    FillAtLeast(root, view);
    FillIsLinked(root, view);
    forall x ensures x in Shown(root, view) <==> x in view {
      CountShown(root, view, x);
      CountMember(Shown(root, view), x);
      CountMember(Names(Fill(root, view).children), x);
      CountMember(view, x);
    }
  }

  /** Exactly once, exactly in clean orders. */
  lemma ShownOnceIff(root: string, view: seq<string>)
    requires TreeShaped(root, view)
    ensures multiset(Shown(root, view)) == multiset(view) <==> Clean(root, root, view)
  {
    TreeIsPending(root, view);
    if Clean(root, root, view) {
      CleanIsExact(root, root, view);
      forall x ensures Count(Shown(root, view), x) == Count(view, x) {
        CountShown(root, view, x);
        if x == root {
          DistinctCount(view, x);
        }
      }
      SameCounts(Shown(root, view), view);
    } else {
      UncleanIsTwice(root, root, view);
      var x :| Count(Names(Fill(root, view).children), x) >= 2;
      CountShown(root, view, x);
      DistinctCount(view, x);
    }
  }

  lemma SameCounts(a: seq<string>, b: seq<string>)
    requires forall x :: Count(a, x) == Count(b, x)
    ensures multiset(a) == multiset(b)
  {
    forall x ensures multiset(a)[x] == multiset(b)[x] {
      assert Count(a, x) == Count(b, x);
    }
  }

  lemma DistinctCount(view: seq<string>, x: string)
    requires Distinct(view)
    ensures Count(view, x) == if x in view then 1 else 0
  {
    if x in view {
      var i :| 0 <= i < |view| && view[i] == x;
      DistinctTaken(view, i);
    }
  }

  lemma MadeChild(x: string, leaf: string)
    requires Free(leaf, '.')
    ensures IsChild(x, x + "." + leaf) && Parent(x + "." + leaf) == x
  {
    ParentOf(x, leaf);
    ChildIsParent(x, x + "." + leaf);
  }

  lemma SampleNames()
    ensures IsChild("a", "a.b") && IsChild("a.b", "a.b.c") && IsChild("a", "a.d")
    ensures !IsChild("a", "a") && !AtOrBelow("a.b", "a.d")
    ensures Parent("a.b") == "a" && Parent("a.b.c") == "a.b" && Parent("a.d") == "a" && Below("a", "a.b.c")
  {
    hide Parent, Components;
    MadeChild("a", "b");
    MadeChild("a.b", "c");
    MadeChild("a", "d");
    assert "a" + "." + "b" == "a.b" && "a.b" + "." + "c" == "a.b.c" && "a" + "." + "d" == "a.d";
    assert "a" + "." <= "a.b.c";
  }

  /** The order a rename or a lookup may deliver: a name is listed twice. */
  lemma ShownTwice()
    ensures var view := ["a", "a.b", "a.b.c", "a.d"];
            TreeShaped("a", view) && multiset(Shown("a", view)) != multiset(view)
  {
    hide FirstChild, IsChild, Shown, Parent;
    var view := ["a", "a.b", "a.b.c", "a.d"];
    SampleNames();
    ChildIsBelow("a", "a.b");
    ChildIsBelow("a", "a.d");
    assert !IsChild("a", view[0]) && IsChild("a", view[1]);
    assert FirstChild("a", view) == 1;
    var W := Without1(view, 1);
    assert W == ["a", "a.b.c", "a.d"];
    assert IsChild("a.b", W[1]);
    assert !Clean("a", "a", view);
    ShownOnceIff("a", view);
  }

  // ----- what is sent

  /** The names of all nodes. */
  function InfoNames(forest: seq<Info>): seq<string> {
    if forest == [] then [] else [forest[0].name] + InfoNames(forest[0].children) + InfoNames(forest[1..])
  }

  /** Every edge is from a node to one whose name is a child of its name. */
  predicate Edged(name: string, forest: seq<Info>)
    decreases forest
  {
    forest != [] ==>
      && IsChild(name, forest[0].name)
      && Edged(forest[0].name, forest[0].children)
      && Edged(name, forest[1..])
  }

  /** All identities listed, node by node. */
  function Listed(forest: seq<Info>): seq<UserRow> {
    if forest == [] then [] else forest[0].identities + Listed(forest[0].children) + Listed(forest[1..])
  }

  function Times(s: seq<UserRow>, u: UserRow): nat {
    multiset(s)[u]
  }

  lemma TimesConcat(a: seq<UserRow>, b: seq<UserRow>, u: UserRow)
    ensures Times(a + b, u) == Times(a, u) + Times(b, u)
  {
  }

  lemma {:induction false} TimesSelected(ids: seq<UserRow>, name: string, u: UserRow)
    ensures Times(Select(ids, AffIs(name).Holds), u) == if u.affiliation == name then Times(ids, u) else 0
  {
    if ids == [] {
    } else {
      TimesSelected(ids[1..], name, u);
      TimesConcat([ids[0]], ids[1..], u);
      TimesConcat([ids[0]], Select(ids[1..], AffIs(name).Holds), u);
      assert [ids[0]] + ids[1..] == ids;
    }
  }

  /** Every node has exactly the identities of its affiliation. */
  ghost predicate Placed(forest: seq<Info>, ids: seq<UserRow>)
    decreases forest
  {
    forest != [] ==>
      && (forall u :: Times(forest[0].identities, u) == if u.affiliation == forest[0].name then Times(ids, u) else 0)
      && Placed(forest[0].children, ids)
      && Placed(forest[1..], ids)
  }

  lemma {:induction false} DressedNames(forest: seq<Tree>, ids: seq<UserRow>)
    ensures InfoNames(DressedAll(forest, ids)) == Names(forest)
    decreases forest
  {
    if forest == [] {
    } else {
      DressedNames(forest[0].children, ids);
      DressedNames(forest[1..], ids);
    }
  }

  lemma {:induction false} DressedEdges(name: string, forest: seq<Tree>, ids: seq<UserRow>)
    requires Linked(name, forest)
    ensures Edged(name, DressedAll(forest, ids))
    decreases forest
  {
    if forest == [] {
    } else {
      DressedEdges(forest[0].name, forest[0].children, ids);
      DressedEdges(name, forest[1..], ids);
    }
  }

  lemma {:induction false} DressedPlaces(forest: seq<Tree>, ids: seq<UserRow>)
    ensures Placed(DressedAll(forest, ids), ids)
    decreases forest
  {
    if forest == [] {
    } else {
      DressedPlaces(forest[0].children, ids);
      DressedPlaces(forest[1..], ids);
      forall u ensures Times(Dressed(forest[0], ids).identities, u) ==
                       if u.affiliation == forest[0].name then Times(ids, u) else 0
      {
        TimesSelected(ids, forest[0].name, u);
      }
    }
  }

  /**
   What a response says of the rows of a subtree: the names are those of the rows, each once exactly if the
   rows come in a clean order, hung below their parents, and the identities are where they belong.
  */
  ghost predicate Presents(info: Info, root: string, view: seq<string>, ids: seq<UserRow>) {
    && info.name == root
    && (forall x :: x in InfoNames([info]) <==> x in view)
    && (multiset(InfoNames([info])) == multiset(view) <==> Clean(root, root, view))
    && Edged(info.name, info.children)
    && Placed([info], ids)
  }

  lemma DressedTree(t: Tree, ids: seq<UserRow>)
    ensures var info := Dressed(t, ids);
            && info.name == t.name && info.children == DressedAll(t.children, ids)
            && InfoNames([info]) == Names([t]) && Placed([info], ids)
  {
    assert DressedAll([t], ids) == [Dressed(t, ids)] by {
      assert [t][1..] == [];
    }
    hide InfoNames, Names, Placed, DressedAll;
    DressedNames([t], ids);
    DressedPlaces([t], ids);
  }

  lemma DressedPresents(root: string, view: seq<string>, ids: seq<UserRow>)
    requires TreeShaped(root, view)
    ensures Presents(Dressed(Node(root, Fill(root, view).children), ids), root, view, ids)
  {
    var t := Node(root, Fill(root, view).children);
    assert Shown(root, view) == Names([t]) && Linked(root, t.children) by {
      hide Fill, Names, Linked, TreeShaped;
      ShownAnyOrder(root, view);
    }
    hide *;
    ShownAnyOrder(root, view);
    ShownOnceIff(root, view);
    DressedTree(t, ids);
    DressedEdges(root, t.children, ids);
    PresentsNames(Dressed(t, ids), root, view, ids, Shown(root, view));
  }

  lemma PresentsNames(info: Info, root: string, view: seq<string>, ids: seq<UserRow>, names: seq<string>)
    requires info.name == root && InfoNames([info]) == names
    requires forall x :: x in names <==> x in view
    requires multiset(names) == multiset(view) <==> Clean(root, root, view)
    requires Edged(root, info.children) && Placed([info], ids)
    ensures Presents(info, root, view, ids)
  {
    hide InfoNames, Edged, Placed, Clean;
  }

  predicate IsRoot(view: seq<string>, x: string) {
    forall j | 0 <= j < |view| :: !IsChild(view[j], x)
  }

  function RootsAmong(view: seq<string>, k: nat): seq<string>
    requires k <= |view|
  {
    if k == 0 then []
    else if IsRoot(view, view[k - 1]) then RootsAmong(view, k - 1) + [view[k - 1]]
    else RootsAmong(view, k - 1)
  }

  lemma CountSnoc(s: seq<string>, y: string, x: string)
    ensures Count(s + [y], x) == Count(s, x) + if x == y then 1 else 0
  {
  }

  /** The roots are the names that are a child of no other, each as often as it is there. */
  lemma {:induction false} RootsCount(view: seq<string>, k: nat, x: string)
    requires k <= |view|
    ensures Count(RootsAmong(view, k), x) == if IsRoot(view, x) then Count(view[..k], x) else 0
  {
    hide Count, IsRoot;
    if k == 0 {
      assert view[..0] == [];
      CountNothing(x);
    } else {
      RootsCount(view, k - 1, x);
      assert view[..k] == view[..k - 1] + [view[k - 1]];
      CountSnoc(view[..k - 1], view[k - 1], x);
      CountSnoc(RootsAmong(view, k - 1), view[k - 1], x);
    }
  }

  lemma CountNothing(x: string)
    ensures Count([], x) == 0
  {
  }

  method GetRootAffiliationNames(view: seq<string>) returns (roots: seq<string>)
    ensures roots == RootsAmong(view, |view|)
    ensures forall x :: Count(roots, x) == if exists y :: y in view && IsChild(y, x) then 0 else Count(view, x)
  {
    hide Count;
    roots := [];
    for k := 0 to |view|
      invariant roots == RootsAmong(view, k)
    {
      var isRoot := true;
      for j := 0 to |view|
        invariant isRoot && forall m | 0 <= m < j :: !IsChild(view[m], view[k])
      {
        if IsChild(view[j], view[k]) {
          isRoot := false;
          break;
        }
      }
      if isRoot {
        roots := roots + [view[k]];
      }
    }
    forall x ensures Count(roots, x) == if exists y :: y in view && IsChild(y, x) then 0 else Count(view, x) {
      RootsCount(view, |view|, x);
      assert view[..|view|] == view;
      RootIff(view, x);
    }
  }

  lemma RootIff(view: seq<string>, x: string)
    ensures IsRoot(view, x) <==> !exists y :: y in view && IsChild(y, x)
  {
    hide IsChild;
    if j :| 0 <= j < |view| && IsChild(view[j], x) {
      assert view[j] in view;
    }
  }

  lemma NoParentInside(root: string, view: seq<string>, j: nat)
    requires TreeShaped(root, view) && j < |view|
    ensures !IsChild(view[j], root)
  {
    hide Parent, Distinct, Components;
    if view[j] != root {
      BelowIsLonger(root, view[j]);
    }
    assert |view[j] + "."| > |root|;
  }

  lemma ParentInside(root: string, view: seq<string>, i: nat) returns (j: nat)
    requires TreeShaped(root, view) && i < |view| && view[i] != root
    ensures j < |view| && IsChild(view[j], view[i])
  {
    BelowHasParent(root, view[i]);
    j :| 0 <= j < |view| && view[j] == Parent(view[i]);
    ChildIsParent(view[j], view[i]);
  }

  lemma OneRoot(root: string, view: seq<string>, x: string)
    requires TreeShaped(root, view) && x in view
    ensures IsRoot(view, x) <==> x == root
  {
    hide IsChild, TreeShaped;
    var i :| 0 <= i < |view| && view[i] == x;
    if x == root {
      forall j | 0 <= j < |view| ensures !IsChild(view[j], x) {
        NoParentInside(root, view, j);
      }
    } else {
      var j := ParentInside(root, view, i);
    }
  }

  lemma PrefixGrows(view: seq<string>, k: nat, x: string)
    requires Distinct(view) && 0 < k <= |view|
    ensures view[k - 1] != x ==> (x in view[..k] <==> x in view[..k - 1])
    ensures view[k - 1] == x ==> x in view[..k] && x !in view[..k - 1]
  {
    assert view[..k] == view[..k - 1] + [view[k - 1]];
    if x in view[..k - 1] {
      var j :| 0 <= j < k - 1 && view[..k - 1][j] == x;
      assert view[j] == x;
    }
  }

  lemma {:induction false} OneRootAmong(root: string, view: seq<string>, k: nat)
    requires TreeShaped(root, view) && k <= |view|
    ensures RootsAmong(view, k) == if root in view[..k] then [root] else []
  {
    if k == 0 {
    } else {
      OneRootAmong(root, view, k - 1);
      OneRoot(root, view, view[k - 1]);
      PrefixGrows(view, k, root);
      hide IsRoot, TreeShaped, Distinct;
    }
  }

  datatype Response = NoAffiliation | Single(info: Info) | MultipleRoots(names: seq<string>)

  /** getResponse; the rows of a subtree, in whatever order, are presented in one tree. */
  method GetResponse(a: array<string>, ids: seq<UserRow>) returns (r: Response)
    modifies a
    ensures var view := old(a[..]); var roots := RootsAmong(view, |view|);
            match r
            case NoAffiliation => roots == []
            case Single(info) => |roots| == 1 && info == Dressed(Node(roots[0], Fill(roots[0], view).children), ids)
            case MultipleRoots(names) => names == roots && |roots| > 1
    ensures forall root | TreeShaped(root, old(a[..])) :: r.Single? && Presents(r.info, root, old(a[..]), ids)
  {
    hide Dressed, Fill, Presents, TreeShaped, RootsAmong;
    ghost var view := a[..];
    forall root | TreeShaped(root, view)
      ensures RootsAmong(view, |view|) == [root]
      ensures Presents(Dressed(Node(root, Fill(root, view).children), ids), root, view, ids)
    {
      OnlyRootAmong(root, view);
      DressedPresents(root, view, ids);
    }
    var roots := GetRootAffiliationNames(a[..]);
    if |roots| == 0 {
      return NoAffiliation;
    }
    if |roots| != 1 {
      return MultipleRoots(roots);
    }
    assert a[..a.Length] == a[..];
    var info := FillAffiliationInfo(a, a.Length, roots[0], ids);
    return Single(info);
  }

  lemma OnlyRootAmong(root: string, view: seq<string>)
    requires TreeShaped(root, view)
    ensures RootsAmong(view, |view|) == [root]
  {
    OneRootAmong(root, view, |view|);
    assert view[..|view|] == view;
  }

  function AffNames(rows: seq<AffRow>): (names: seq<string>)
    ensures |names| == |rows| && forall i | 0 <= i < |rows| :: names[i] == rows[i].name
  {
    seq(|rows|, i requires 0 <= i < |rows| => rows[i].name)
  }

  /** The rows of a subtree of a parent-closed table, in whatever order, are tree-shaped. */
  lemma SubtreeShaped(affs: seq<AffRow>, root: string, rows: seq<AffRow>)
    requires ParentClosed(affs) && UniqueBy(rows, AffKey)
    requires forall r :: r in rows <==> r in affs && AtOrBelow(root, r.name)
    requires HasAff(affs, root)
    ensures TreeShaped(root, AffNames(rows))
  {
    var view := AffNames(rows);
    forall n | HasAff(affs, n) && AtOrBelow(root, n) ensures n in view {
      HasAffMember(affs, n);
      var r :| r in affs && r.name == n;
      var i :| 0 <= i < |rows| && rows[i] == r;
      assert view[i] == n;
    }
    forall i, j | 0 <= i < j < |view| ensures view[i] != view[j] {
      assert AffKey(rows[i]) != AffKey(rows[j]);
    }
    forall i | 0 <= i < |view| && view[i] != root ensures Below(root, view[i]) && Parent(view[i]) in view {
      assert rows[i] in rows;
      var k :| 0 <= k < |affs| && affs[k] == rows[i];
      BelowHasParent(root, view[i]);
    }
  }

  // ----- the identities in a response

  lemma ListedFirst(info: Info, rest: seq<Info>)
    ensures Listed([info] + rest) == info.identities + Listed(info.children) + Listed(rest)
    ensures InfoNames([info] + rest) == [info.name] + InfoNames(info.children) + InfoNames(rest)
  {
    assert ([info] + rest)[1..] == rest;
  }

  function Product(k: nat, n: nat): nat {
    k * n
  }

  lemma Distribute(here: bool, b: nat, c: nat, n: nat)
    ensures Product((if here then 1 else 0) + b + c, n) == (if here then n else 0) + Product(b, n) + Product(c, n)
  {
  }

  lemma CountFirst(name: string, below: seq<string>, rest: seq<string>, x: string)
    ensures Count([name] + below + rest, x) == (if x == name then 1 else 0) + Count(below, x) + Count(rest, x)
  {
    CountConcat([name] + below, rest, x);
    CountConcat([name], below, x);
  }

  lemma ListedNone(ids: seq<UserRow>, u: UserRow)
    ensures Times(Listed([]), u) == 0 == Product(Count(InfoNames([]), u.affiliation), Times(ids, u))
  {
  }

  lemma ListedCons(info: Info, rest: seq<Info>, ids: seq<UserRow>, u: UserRow)
    requires Times(info.identities, u) == if u.affiliation == info.name then Times(ids, u) else 0
    requires Times(Listed(info.children), u) == Product(Count(InfoNames(info.children), u.affiliation), Times(ids, u))
    requires Times(Listed(rest), u) == Product(Count(InfoNames(rest), u.affiliation), Times(ids, u))
    ensures Times(Listed([info] + rest), u) == Product(Count(InfoNames([info] + rest), u.affiliation), Times(ids, u))
  {
    hide *;
    ListedFirst(info, rest);
    TimesConcat(info.identities + Listed(info.children), Listed(rest), u);
    TimesConcat(info.identities, Listed(info.children), u);
    CountFirst(info.name, InfoNames(info.children), InfoNames(rest), u.affiliation);
    Distribute(u.affiliation == info.name, Count(InfoNames(info.children), u.affiliation),
               Count(InfoNames(rest), u.affiliation), Times(ids, u));
  }

  /** An identity is listed as often as its affiliation is shown, for each time it is in the result. */
  lemma {:induction false} ListedTimes(forest: seq<Info>, ids: seq<UserRow>, u: UserRow)
    requires Placed(forest, ids)
    ensures Times(Listed(forest), u) == Product(Count(InfoNames(forest), u.affiliation), Times(ids, u))
    decreases forest
  {
    hide Times, Count, Product, Listed, InfoNames;
    if forest == [] {
      ListedNone(ids, u);
    } else {
      var info, rest := forest[0], forest[1..];
      ListedTimes(info.children, ids, u);
      ListedTimes(rest, ids, u);
      ListedCons(info, rest, ids, u);
      assert [info] + rest == forest;
    }
  }

  lemma NamedOnceListed(info: Info, view: seq<string>, ids: seq<UserRow>, u: UserRow)
    requires Placed([info], ids) && Distinct(view) && multiset(InfoNames([info])) == multiset(view)
    requires u in ids ==> u.affiliation in view
    ensures Times(Listed([info]), u) == Times(ids, u)
  {
    hide Listed, InfoNames, Placed, Distinct;
    ListedTimes([info], ids, u);
    if u in ids {
      DistinctCount(view, u.affiliation);
      assert Count(InfoNames([info]), u.affiliation) == 1;
    } else {
      assert Times(ids, u) == 0;
    }
  }

  /** Where every affiliation is shown once, so is every identity whose affiliation is shown. */
  lemma ListedOnce(info: Info, view: seq<string>, ids: seq<UserRow>)
    requires Placed([info], ids) && Distinct(view) && multiset(InfoNames([info])) == multiset(view)
    requires forall k | 0 <= k < |ids| :: ids[k].affiliation in view
    ensures multiset(Listed([info])) == multiset(ids)
  {
    hide *;
    forall u ensures Times(Listed([info]), u) == Times(ids, u) {
      NamedOnceListed(info, view, ids, u);
    }
    SameTimes(Listed([info]), ids);
  }

  lemma SameTimes(a: seq<UserRow>, b: seq<UserRow>)
    requires forall u :: Times(a, u) == Times(b, u)
    ensures multiset(a) == multiset(b)
  {
    forall u ensures multiset(a)[u] == multiset(b)[u] {
      assert Times(a, u) == Times(b, u);
    }
  }

  /** The response to a delete shows every removed affiliation and every removed identity exactly once. */
  lemma DeleteResponse(t: Tables, name: string, info: Info)
    requires Consistent(t) && FindAff(t.affs, name).Some?
    requires Presents(info, name, AffNames(DeleteResult(t, name).affs), DeleteResult(t, name).users)
    ensures var res := DeleteResult(t, name);
            && multiset(InfoNames([info])) == multiset(AffNames(res.affs))
            && multiset(Listed([info])) == multiset(res.users)
  {
    hide Listed, InfoNames, Placed;
    var res := DeleteResult(t, name);
    var view := AffNames(res.affs);
    DeletedShaped(t, name);
    ShownOnceIff(name, view);
    forall k | 0 <= k < |res.users| ensures res.users[k].affiliation in view {
      RemovedInView(t, name, res.users[k]);
    }
    ListedOnce(info, view, res.users);
  }

  /** What the handler of a delete sends, from the result of the transaction. */
  method RespondToDelete(ghost t: Tables, ghost name: string, res: TxResult) returns (info: Info)
    requires Consistent(t) && FindAff(t.affs, name).Some? && res == DeleteResult(t, name)
    ensures info.name == name && Edged(info.name, info.children) && Placed([info], res.users)
    ensures multiset(InfoNames([info])) == multiset(AffNames(res.affs))
    ensures multiset(Listed([info])) == multiset(res.users)
  {
    hide Listed, InfoNames, Placed, Dressed, Fill, RootsAmong, TreeShaped, DeleteResult, Consistent, Edged, Clean;
    var names := AffNames(res.affs);
    var a := new string[|names|](i requires 0 <= i < |names| => names[i]);
    assert a[..] == names;
    DeletedShaped(t, name);
    var r := GetResponse(a, res.users);
    DeleteResponse(t, name, r.info);
    return r.info;
  }

  lemma DeletedShaped(t: Tables, name: string)
    requires Consistent(t) && FindAff(t.affs, name).Some?
    ensures TreeShaped(name, AffNames(DeleteResult(t, name).affs))
    ensures forall r :: r in DeleteResult(t, name).affs <==> r in t.affs && AtOrBelow(name, r.name)
  {
    var root := FindAff(t.affs, name).value;
    var rows := DeleteResult(t, name).affs;
    OldRowsUnique(t.affs, name, root);
    KeepMembers(t.affs, NameBelow(name).Holds, true);
    HasAffMember(t.affs, name);
    forall r | r in t.affs && r.name == name ensures r == root {
      var i :| 0 <= i < |t.affs| && t.affs[i] == r;
      var j :| 0 <= j < |t.affs| && t.affs[j] == root;
      assert AffKey(t.affs[i]) == AffKey(t.affs[j]);
    }
    SubtreeShaped(t.affs, name, rows);
  }

  /** The affiliation of a removed identity is among the removed ones. */
  lemma RemovedInView(t: Tables, name: string, u: UserRow)
    requires Consistent(t) && FindAff(t.affs, name).Some? && u in DeleteResult(t, name).users
    ensures u.affiliation in AffNames(DeleteResult(t, name).affs)
  {
    DeletedShaped(t, name);
    UsersUnderMember(t, name, u);
    HasAffMember(t.affs, name);
    var k :| 0 <= k < |t.users| && t.users[k] == u;
    assert u.affiliation == "" ==> name == "";
    SubtreeNames(t.affs, name, DeleteResult(t, name).affs, u.affiliation);
  }

  /** The response to a rename or a lookup shows every name, each once exactly if the table order is clean. */
  lemma SubtreeResponse(t: Tables, name: string, info: Info, ids: seq<UserRow>)
    requires Consistent(t) && HasAff(t.affs, name)
    ensures TreeShaped(name, AffNames(Select(t.affs, NameAtOrBelow(name).Holds)))
    ensures Presents(info, name, AffNames(Select(t.affs, NameAtOrBelow(name).Holds)), ids) ==>
              && (forall x :: x in InfoNames([info]) <==> HasAff(t.affs, x) && AtOrBelow(name, x))
              && (Clean(name, name, AffNames(Select(t.affs, NameAtOrBelow(name).Holds))) <==>
                  multiset(InfoNames([info])) == multiset(AffNames(Select(t.affs, NameAtOrBelow(name).Holds))))
  {
    hide InfoNames, Placed, Edged, Clean, TreeShaped;
    var rows := Select(t.affs, NameAtOrBelow(name).Holds);
    KeepUnique(t.affs, AffKey, NameAtOrBelow(name).Holds, true);
    KeepMembers(t.affs, NameAtOrBelow(name).Holds, true);
    SubtreeShaped(t.affs, name, rows);
    forall x ensures x in AffNames(rows) <==> HasAff(t.affs, x) && AtOrBelow(name, x) {
      SubtreeNames(t.affs, name, rows, x);
    }
  }

  lemma SubtreeNames(affs: seq<AffRow>, root: string, rows: seq<AffRow>, x: string)
    requires forall r :: r in rows <==> r in affs && AtOrBelow(root, r.name)
    ensures x in AffNames(rows) <==> HasAff(affs, x) && AtOrBelow(root, x)
  {
    HasAffMember(affs, x);
    if x in AffNames(rows) {
      var i :| 0 <= i < |rows| && AffNames(rows)[i] == x;
      assert rows[i] in rows;
    }
    if HasAff(affs, x) && AtOrBelow(root, x) {
      var r :| r in affs && r.name == x;
      var i :| 0 <= i < |rows| && rows[i] == r;
      assert AffNames(rows)[i] == x;
    }
  }
}