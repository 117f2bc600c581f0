/**
 The tree in which affiliations are listed: names are inserted component by component into linked
 nodes, and the tree is then copied out, children in the order a map happens to be visited.
*/
module AffiliationTrie {
  import opened Basics
  import opened Strings
  import opened Paths
  import opened Tables
  import opened AffiliationTable
  import opened Response

  type Path = seq<string>

  function Down(p: Path, key: string): (q: Path)
    ensures |q| == |p| + 1 && q[|p|] == key && q[..|p|] == p
  {
    p + [key]
  }

  class AffiliationNode {
    var children: map<string, AffiliationNode>
    /** Where the node is: below which node, under which key, on which path. */
    ghost const parent: AffiliationNode?
    ghost const key: string
    ghost const path: Path

    constructor (ghost parent: AffiliationNode?, ghost key: string)
      ensures children == map[] && this.parent == parent && this.key == key
      ensures path == if parent == null then [] else Down(parent.path, key)
    {
      children := map[];
      this.parent, this.key := parent, key;
      path := if parent == null then [] else Down(parent.path, key);
    }

    method AddChild(key: string, ghost nodes: set<AffiliationNode>) returns (node: AffiliationNode)
      requires Wired(nodes) && this in nodes && key !in children
      modifies this
      ensures Wired(nodes + {node}) && fresh(node) && node.path == Down(path, key)
    {
      hide Down, Apart;
      NoChildYet(nodes, this, key);
      node := new AffiliationNode(this, key);
      children := children[key := node];
      ghost var all := nodes + {node};
      forall m | m in all ensures ChildIn(all, m) && ParentIn(all, m) {
        if m in nodes {
          assert old(ChildIn(nodes, m) && ParentIn(nodes, m));
        }
      }
      ApartMore(nodes, node);
      hide ChildIn, ParentIn;
    }

    /** The child node for a key, made if there is none. */
    method ChildAt(key: string, ghost nodes: set<AffiliationNode>) returns (node: AffiliationNode)
      requires Wired(nodes) && this in nodes
      modifies this
      ensures Wired(nodes + {node}) && (node in nodes || fresh(node)) && node.path == Down(path, key)
    {
      WiredChild(nodes, this, key);
      hide Wired;
      if key !in children {
        node := AddChild(key, nodes);
      } else {
        node := children[key];
        assert nodes + {node} == nodes;
      }
    }

    /** All nodes are in `nodes`; the result has the new ones too. */
    method InsertByPath(rest: Path, ghost nodes: set<AffiliationNode>) returns (ghost nodes': set<AffiliationNode>)
      requires Wired(nodes) && this in nodes
      modifies nodes
      ensures Wired(nodes') && nodes <= nodes' && fresh(nodes' - nodes)
      ensures PathsIn(nodes') == PathsIn(nodes) + Steps(path, rest)
      decreases rest
    {
      hide *;
      StepsDown(path, rest);
      PathsMore(nodes, this);
      nodes' := nodes;
      if |rest| == 0 {
        return;
      }
      var node := ChildAt(rest[0], nodes);
      PathsMore(nodes, node);
      nodes' := node.InsertByPath(rest[1..], nodes + {node});
    }

    /** GetRoot: the copy without the nameless top where a single tree hangs below it. */
    method GetRoot(ghost nodes: set<AffiliationNode>) returns (root: Option<Tree>)
      requires Wired(nodes) && this in nodes && path == []
      ensures RootOf(PathsIn(nodes), root)
    {
      var result := Fill([], nodes);
      root := if |result.children| == 0 then None
              else if |result.children| == 1 then Some(result.children[0])
              else Some(result);
    }

    method Fill(here: Path, ghost nodes: set<AffiliationNode>) returns (info: Tree)
      requires Wired(nodes) && this in nodes && path == here
      ensures Lists(PathsIn(nodes), here, info)
      decreases Under(PathsIn(nodes), here), 1
    {
      var slots := new Tree[|children|](_ => Node("", []));
      ghost var keys := FillSlots(here, slots, nodes);
      info := Node(Join(here, '.'), slots[..]);
      assert Orders(PathsIn(nodes), here, info.children, keys);
    }

    /** The loop over the map: each child is copied into the next result slot. */
    method FillSlots(here: Path, slots: array<Tree>, ghost nodes: set<AffiliationNode>)
      returns (ghost keys: seq<string>)
      requires Wired(nodes) && this in nodes && path == here && slots.Length == |children|
      modifies slots
      ensures Orders(PathsIn(nodes), here, slots[..], keys)
      decreases Under(PathsIn(nodes), here), 0
    {
      hide Wired, Lists, ListsEach, Under, Down, Distinct, Picked;
      ghost var paths := PathsIn(nodes);
      var rest, idx := children.Keys, 0;
      keys := [];
      NothingListed(paths, here, slots[..0]);
      NothingPicked(children.Keys);
      while rest != {}
        invariant Picked(children.Keys, rest, keys) && idx == |keys| == |children.Keys| - |rest|
        invariant Wired(nodes) && ListsEach(paths, here, slots[..idx], keys)
      {
        var key :| key in rest;
        PickNext(children.Keys, rest, keys, key);
        WiredChild(nodes, this, key);
        UnderShrinks(paths, here, key);
        var child := children[key].Fill(Down(here, key), nodes);
        ListsNext(paths, here, slots[..idx], keys, child, key);
        slots[idx] := child;
        assert slots[..idx + 1] == slots[..idx] + [child];
        keys := keys + [key];
        rest, idx := rest - {key}, idx + 1;
      }
      AllPicked(children.Keys, keys);
      assert slots[..idx] == slots[..];
      forall k ensures k in keys <==> Down(here, k) in paths {
        WiredChild(nodes, this, k);
      }
    }
  }

  ghost function PathsIn(nodes: set<AffiliationNode>): set<Path> {
    set n | n in nodes :: n.path
  }

  lemma PathsMore(nodes: set<AffiliationNode>, node: AffiliationNode)
    ensures PathsIn(nodes + {node}) == PathsIn(nodes) + {node.path}
    ensures node in nodes ==> node.path in PathsIn(nodes)
  {
  }

  ghost predicate Apart(nodes: set<AffiliationNode>) {
    forall m, n | m in nodes && n in nodes && m.path == n.path :: m == n
  }

  lemma ApartMore(nodes: set<AffiliationNode>, node: AffiliationNode)
    requires Apart(nodes) && forall m | m in nodes :: m.path != node.path
    ensures Apart(nodes + {node})
  {
  }

  ghost predicate ChildIn(nodes: set<AffiliationNode>, n: AffiliationNode)
    reads n
  {
    forall k | k in n.children :: n.children[k] in nodes && n.children[k].path == Down(n.path, k)
  }

  ghost predicate ParentIn(nodes: set<AffiliationNode>, n: AffiliationNode)
    reads n.parent
  {
    n.path != [] ==>
      n.parent != null && n.parent in nodes && n.path == Down(n.parent.path, n.key) && n.key in n.parent.children
  }

  /** Every child and every parent of a node is a node, on the right path, and paths tell nodes apart. */
  ghost predicate Wired(nodes: set<AffiliationNode>)
    reads nodes, set n | n in nodes && n.parent != null :: n.parent
  {
    Apart(nodes) && forall n | n in nodes :: ChildIn(nodes, n) && ParentIn(nodes, n)
  }

  lemma WiredUp(nodes: set<AffiliationNode>, n: AffiliationNode, m: AffiliationNode, key: string)
    requires Wired(nodes) && n in nodes && m in nodes && m.path == Down(n.path, key)
    ensures key in n.children
  {
    assert m.parent.path == m.path[..|n.path|] == n.path;
  }

  lemma NoChildYet(nodes: set<AffiliationNode>, n: AffiliationNode, key: string)
    requires Wired(nodes) && n in nodes && key !in n.children
    ensures forall m | m in nodes :: m.path != Down(n.path, key)
  {
    forall m | m in nodes && m.path == Down(n.path, key) ensures key in n.children {
      WiredUp(nodes, n, m, key);
    }
  }

  lemma WiredChild(nodes: set<AffiliationNode>, n: AffiliationNode, key: string)
    requires Wired(nodes) && n in nodes
    ensures key in n.children <==> Down(n.path, key) in PathsIn(nodes)
    ensures key in n.children ==> n.children[key] in nodes && n.children[key].path == Down(n.path, key)
    ensures n.path in PathsIn(nodes)
  {
    if Down(n.path, key) in PathsIn(nodes) {
      var m :| m in nodes && m.path == Down(n.path, key);
      WiredUp(nodes, n, m, key);
    }
  }

  /** The keys visited so far, of all keys, when `rest` is still to come. */
  ghost predicate Picked(all: set<string>, rest: set<string>, keys: seq<string>) {
    rest <= all && Distinct(keys) && (forall k :: k in keys <==> k in all && k !in rest) && |keys| == |all| - |rest|
  }

  lemma PickNext(all: set<string>, rest: set<string>, keys: seq<string>, key: string)
    requires Picked(all, rest, keys) && key in rest
    ensures Picked(all, rest - {key}, keys + [key])
    ensures key in all && |rest - {key}| == |rest| - 1 && |keys| == |all| - |rest|
  {
  }

  lemma NothingPicked(all: set<string>)
    ensures Picked(all, all, [])
  {
  }

  lemma AllPicked(all: set<string>, keys: seq<string>)
    requires Picked(all, {}, keys)
    ensures Distinct(keys) && (forall k :: k in keys <==> k in all) && |keys| == |all|
  {
  }

  /** What is left to copy out from a path on. */
  ghost function Under(paths: set<Path>, here: Path): set<Path> {
    set p | p in paths && here <= p
  }

  lemma UnderShrinks(paths: set<Path>, here: Path, key: string)
    requires here in paths
    ensures Under(paths, Down(here, key)) < Under(paths, here)
  {
    var all, some := Under(paths, here), Under(paths, Down(here, key));
    forall p | p in some ensures p in all && p != here {
      assert here == Down(here, key)[..|here|] == p[..|here|];
    }
    assert here in all && here !in some;
  }

  /** The path and its prefixes, from `here` on. */
  function Steps(here: Path, path: Path): set<Path> {
    set n | 0 <= n <= |path| :: here + path[..n]
  }

  lemma StepsDown(here: Path, path: Path)
    ensures path == [] ==> Steps(here, path) == {here}
    ensures path != [] ==> Steps(here, path) == {here} + Steps(Down(here, path[0]), path[1..])
                           && Down(here, path[0]) in Steps(Down(here, path[0]), path[1..])
  {
    assert here + path[..0] == here;
    if path != [] {
      forall n | 0 <= n < |path| ensures here + path[..n + 1] == Down(here, path[0]) + path[1..][..n] {
      }
      var more := Steps(Down(here, path[0]), path[1..]);
      forall p | p in Steps(here, path) ensures p in {here} + more {
        var n :| 0 <= n <= |path| && p == here + path[..n];
        if n > 0 {
          assert p == Down(here, path[0]) + path[1..][..n - 1];
        }
      }
      forall p | p in {here} + more ensures p in Steps(here, path) {
        if p != here {
          var n :| 0 <= n <= |path[1..]| && p == Down(here, path[0]) + path[1..][..n];
          assert p == here + path[..n + 1];
        }
      }
      assert Down(here, path[0]) + path[1..][..0] == Down(here, path[0]);
    }
  }

  // ----- copying out

  /** The tree copied out from `here`: one child for each key the paths continue with. */
  ghost predicate Lists(paths: set<Path>, here: Path, info: Tree)
    decreases info
  {
    info.name == Join(here, '.') && exists keys :: Orders(paths, here, info.children, keys)
  }

  ghost predicate Orders(paths: set<Path>, here: Path, forest: seq<Tree>, keys: seq<string>)
    decreases forest, 1
  {
    && Distinct(keys) && (forall k :: k in keys <==> Down(here, k) in paths)
    && ListsEach(paths, here, forest, keys)
  }

  ghost predicate ListsEach(paths: set<Path>, here: Path, forest: seq<Tree>, keys: seq<string>)
    decreases forest, 0
  {
    |forest| == |keys| && forall i | 0 <= i < |forest| :: Lists(paths, Down(here, keys[i]), forest[i])
  }

  lemma NothingListed(paths: set<Path>, here: Path, forest: seq<Tree>)
    requires forest == []
    ensures ListsEach(paths, here, forest, [])
  {
  }

  lemma ListsNext(paths: set<Path>, here: Path, forest: seq<Tree>, keys: seq<string>, child: Tree, key: string)
    requires ListsEach(paths, here, forest, keys) && Lists(paths, Down(here, key), child)
    ensures ListsEach(paths, here, forest + [child], keys + [key])
  {
  }

  ghost predicate RootOf(paths: set<Path>, root: Option<Tree>) {
    exists result :: Lists(paths, [], result) && root ==
      if |result.children| == 0 then None
      else if |result.children| == 1 then Some(result.children[0])
      else Some(result)
  }

  /** The paths present after inserting names one by one. */
  function PathsOf(names: seq<string>): set<Path> {
    if names == [] then {[]} else PathsOf(names[..|names| - 1]) + Steps([], Components(names[|names| - 1]))
  }

  /** getAffiliations: insert every name of the listing, then copy out. */
  method ListAffiliations(names: seq<string>) returns (root: Option<Tree>)
    ensures ListedAs(names, root)
  {
    var an := new AffiliationNode(null, "");
    ghost var nodes := {an};
    for i := 0 to |names|
      invariant Wired(nodes) && an in nodes && fresh(nodes)
      invariant PathsIn(nodes) == PathsOf(names[..i])
    {
      hide Wired, Steps;
      assert names[..i + 1][..i] == names[..i];
      nodes := an.InsertByPath(Split(names[i], '.'), nodes);
    }
    assert names[..|names|] == names;
    root := an.GetRoot(nodes);
    ListedRoot(names, root);
  }

  // ----- what is listed

  /** Paths of dot-free components, with all their prefixes. */
  ghost predicate PathSet(paths: set<Path>) {
    && (forall p | p in paths :: AllFree(p, '.'))
    && (forall p, q | q in paths && p <= q :: p in paths)
  }

  /** Whatever the order of insertion: the prefixes of the inserted names. */
  lemma {:induction false} PathsOfNames(names: seq<string>, p: Path)
    ensures p in PathsOf(names) <==> p == [] || exists i | 0 <= i < |names| :: p <= Components(names[i])
  {
    if names == [] {
    } else {
      var n := |names| - 1;
      PathsOfNames(names[..n], p);
      StepsPrefix(Components(names[n]), p);
    }
  }

  lemma StepsPrefix(path: Path, p: Path)
    ensures p in Steps([], path) <==> p <= path
  {
    if p <= path {
      assert p == [] + path[..|p|];
    }
  }

  lemma PathsOfIsPathSet(names: seq<string>)
    ensures PathSet(PathsOf(names))
  {
    forall q | q in PathsOf(names)
      ensures AllFree(q, '.') && forall p | p <= q :: p in PathsOf(names)
    {
      PathsOfNames(names, q);
      if q != [] {
        var i :| 0 <= i < |names| && q <= Components(names[i]);
        SplitPartsAreFree(names[i], '.');
        forall p | p <= q ensures p in PathsOf(names) {
          PathsOfNames(names, p);
          assert p <= Components(names[i]);
        }
      } else {
        PathsOfNames(names, []);
      }
    }
  }

  lemma CountTree(info: Tree, x: string)
    ensures Count(Names([info]), x) == (if x == info.name then 1 else 0) + Count(Names(info.children), x)
  {
    CountNode(info.name, info.children, [], x);
    assert [Node(info.name, info.children)] + [] == [info];
  }

  lemma JoinedIs(here: Path, x: string)
    requires here != [] && AllFree(here, '.')
    ensures x == Join(here, '.') <==> Components(x) == here
  {
    SplitJoin(here, '.');
    JoinSplit(x, '.');
  }

  /** The paths strictly below are those that continue with a key. */
  lemma Continues(paths: set<Path>, here: Path, keys: seq<string>, cs: Path)
    requires PathSet(paths) && cs in paths && forall k :: k in keys <==> Down(here, k) in paths
    ensures here < cs <==> exists k | k in keys :: Down(here, k) <= cs
  {
    if here < cs {
      var k := cs[|here|];
      assert Down(here, k) <= cs;
      assert k in keys;
    }
    forall k | Down(here, k) <= cs ensures here < cs {
      assert here == Down(here, k)[..|here|] == cs[..|here|];
    }
  }

  lemma {:induction false} TreeCount(paths: set<Path>, here: Path, info: Tree, x: string)
    requires PathSet(paths) && here != [] && here in paths && Lists(paths, here, info)
    ensures Count(Names([info]), x) == if here <= Components(x) && Components(x) in paths then 1 else 0
    decreases info, 1
  {
    var keys :| Orders(paths, here, info.children, keys);
    assert AllFree(here, '.') && info.name == Join(here, '.');
    assert ListsEach(paths, here, info.children, keys) && Distinct(keys);
    assert forall k :: k in keys <==> Down(here, k) in paths;
    hide *;
    CountTree(info, x);
    ForestCount(paths, here, info.children, keys, x);
    JoinedIs(here, x);
    if Components(x) in paths {
      Continues(paths, here, keys, Components(x));
    }
  }

  lemma {:induction false} ForestCount(paths: set<Path>, here: Path, forest: seq<Tree>, keys: seq<string>, x: string)
    requires PathSet(paths) && ListsEach(paths, here, forest, keys)
    requires Distinct(keys) && forall k | k in keys :: Down(here, k) in paths
    ensures Count(Names(forest), x) ==
            if Components(x) in paths && exists k | k in keys :: Down(here, k) <= Components(x) then 1 else 0
    decreases forest, 0
  {
    if forest == [] {
    } else {
      assert keys[0] in keys && Lists(paths, Down(here, keys[0]), forest[0]);
      assert ListsEach(paths, here, forest[1..], keys[1..]);
      forall k | k in keys[1..] ensures k in keys && k != keys[0] {
      }
      assert Distinct(keys[1..]);
      hide *;
      TreeCount(paths, Down(here, keys[0]), forest[0], x);
      ForestCount(paths, here, forest[1..], keys[1..], x);
      ConsCount(forest, x);
      OneKey(here, keys, Components(x));
    }
  }

  lemma ConsCount(forest: seq<Tree>, x: string)
    requires forest != []
    ensures Count(Names(forest), x) == Count(Names([forest[0]]), x) + Count(Names(forest[1..]), x)
  {
    CountNode(forest[0].name, forest[0].children, forest[1..], x);
    CountTree(forest[0], x);
    assert [Node(forest[0].name, forest[0].children)] + forest[1..] == forest;
  }

  /** A path continues with one key only. */
  lemma OneKey(here: Path, keys: seq<string>, cs: Path)
    requires keys != [] && Distinct(keys)
    ensures (exists k | k in keys :: Down(here, k) <= cs) <==>
            Down(here, keys[0]) <= cs || exists k | k in keys[1..] :: Down(here, k) <= cs
    ensures !(Down(here, keys[0]) <= cs && exists k | k in keys[1..] :: Down(here, k) <= cs)
  {
    assert keys == [keys[0]] + keys[1..];
    forall k | k in keys && Down(here, k) <= cs ensures k == cs[|here|] {
      assert Down(here, k)[|here|] == k;
    }
    forall k | k in keys[1..] ensures k != keys[0] {
    }
  }

  lemma TopCount(paths: set<Path>, result: Tree, x: string)
    requires PathSet(paths) && Lists(paths, [], result)
    ensures Count(Names(result.children), x) == if Components(x) in paths then 1 else 0
  {
    var keys :| Orders(paths, [], result.children, keys);
    var cs := Components(x);
    ForestCount(paths, [], result.children, keys, x);
    if cs in paths {
      assert Down([], cs[0]) <= cs;
      assert cs[0] in keys;
    }
  }

  lemma AtOrAboveInserted(names: seq<string>, x: string)
    ensures Components(x) in PathsOf(names) <==> exists i | 0 <= i < |names| :: AtOrBelow(x, names[i])
  {
    hide PathsOf, Components, AtOrBelow;
    PathsOfNames(names, Components(x));
    forall i | 0 <= i < |names| ensures AtOrBelow(x, names[i]) <==> Components(x) <= Components(names[i]) {
      AffiliationOrder(x, names[i], x);
    }
  }

  /** The listing: every name at or above an inserted one, exactly once, and nothing else. */
  lemma ListedOnce(names: seq<string>, result: Tree, x: string)
    requires Lists(PathsOf(names), [], result)
    ensures Count(Names(result.children), x) == if exists i | 0 <= i < |names| :: AtOrBelow(x, names[i]) then 1 else 0
  {
    hide *;
    PathsOfIsPathSet(names);
    TopCount(PathsOf(names), result, x);
    AtOrAboveInserted(names, x);
  }

  /** The keys at the top are the first components. */
  lemma TopKeys(names: seq<string>, k: string)
    ensures Down([], k) in PathsOf(names) <==> exists i | 0 <= i < |names| :: Components(names[i])[0] == k
  {
    hide Components;
    PathsOfNames(names, Down([], k));
    forall i | 0 <= i < |names| ensures Down([], k) <= Components(names[i]) <==> Components(names[i])[0] == k {
    }
  }

  lemma ToppedIff(names: seq<string>, top: string)
    ensures Topped(names, top) <==> names != [] && forall i | 0 <= i < |names| :: Components(names[i])[0] == top
  {
    if !Nested(top) {
      SplitFree(top, '.');
      forall i | 0 <= i < |names| ensures AtOrBelow(top, names[i]) <==> Components(names[i])[0] == top {
        AffiliationOrder(top, names[i], top);
      }
    } else if names != [] {
      SplitPartsAreFree(names[0], '.');
      assert Components(names[0])[0] != top;
    }
  }

  lemma ToppedIsOne(names: seq<string>, keys: seq<string>)
    requires Distinct(keys) && forall k :: k in keys <==> Down([], k) in PathsOf(names)
    ensures keys == [] <==> names == []
    ensures |keys| == 1 <==> exists top :: Topped(names, top)
  {
    assert |keys| > 1 ==> keys[0] != keys[1];
    hide Components, PathsOf, Topped;
    forall k ensures k in keys <==> exists i | 0 <= i < |names| :: Components(names[i])[0] == k {
      TopKeys(names, k);
    }
    forall i | 0 <= i < |names| ensures Components(names[i])[0] in keys {
    }
    if names != [] {
      assert Components(names[0])[0] in keys;
    }
    if keys != [] {
      assert keys[0] in keys;
      var i :| 0 <= i < |names| && Components(names[i])[0] == keys[0];
      ToppedIff(names, keys[0]);
    }
    if top :| Topped(names, top) {
      ToppedIff(names, top);
      forall j | 0 <= j < |keys| ensures keys[j] == top {
        assert keys[j] in keys;
        var i :| 0 <= i < |names| && Components(names[i])[0] == keys[j];
      }
      assert Components(names[0])[0] in keys;
    }
  }

  lemma ChildLinked(paths: set<Path>, key: string, t: Tree)
    requires PathSet(paths) && Down([], key) in paths && Lists(paths, Down([], key), t)
    ensures Linked(t.name, t.children)
  {
    var keys :| Orders(paths, Down([], key), t.children, keys);
    assert Down([], key) != [];
    ListedEdges(paths, Down([], key), t.children, keys);
  }

  lemma Unfolded(paths: set<Path>, here: Path, info: Tree) returns (keys: seq<string>)
    requires Lists(paths, here, info)
    ensures info.name == Join(here, '.') && |info.children| == |keys| && Distinct(keys)
    ensures forall k :: k in keys <==> Down(here, k) in paths
    ensures forall i | 0 <= i < |keys| :: Lists(paths, Down(here, keys[i]), info.children[i])
  {
    keys :| Orders(paths, here, info.children, keys);
    assert ListsEach(paths, here, info.children, keys);
  }

  lemma ListedRoot(names: seq<string>, root: Option<Tree>)
    requires RootOf(PathsOf(names), root)
    ensures ListedAs(names, root)
  {
    var paths := PathsOf(names);
    var result :| Lists(paths, [], result) && root ==
      if |result.children| == 0 then None
      else if |result.children| == 1 then Some(result.children[0])
      else Some(result);
    hide PathsOf, PathSet, Lists, Orders, ListsEach, Topped, Count, Names, Linked, AtOrBelow, Down, Distinct;
    var keys := Unfolded(paths, [], result);
    PathsOfIsPathSet(names);
    ToppedIsOne(names, keys);
    forall x ensures Count(Names(result.children), x) == if exists i | 0 <= i < |names| :: AtOrBelow(x, names[i])
                                                       then 1 else 0 {
      ListedOnce(names, result, x);
    }
    forall i | 0 <= i < |keys| ensures Linked(result.children[i].name, result.children[i].children) {
      assert keys[i] in keys;
      ChildLinked(paths, keys[i], result.children[i]);
    }
    if |keys| == 1 {
      assert result.children == [result.children[0]];
    }
  }

  /** What the listing as a whole is: nothing without names, one tree below a common top, or a nameless node. */
  ghost predicate ListedAs(names: seq<string>, root: Option<Tree>) {
    match root
    case None => names == []
    case Some(t) =>
      if exists top :: Topped(names, top) then
        && (forall x :: Count(Names([t]), x) == if exists i | 0 <= i < |names| :: AtOrBelow(x, names[i]) then 1 else 0)
        && Linked(t.name, t.children)
      else
        && t.name == "" && names != []
        && (forall x ::
              Count(Names(t.children), x) == if exists i | 0 <= i < |names| :: AtOrBelow(x, names[i]) then 1 else 0)
        && forall i | 0 <= i < |t.children| :: Linked(t.children[i].name, t.children[i].children)
  }

  /** All names are at or below one of a single component. */
  predicate Topped(names: seq<string>, top: string) {
    names != [] && !Nested(top) && forall i | 0 <= i < |names| :: AtOrBelow(top, names[i])
  }

  /** The order of insertion, and repetitions, make no difference. */
  lemma OrderIndependent(names: seq<string>, others: seq<string>)
    requires forall n :: n in names <==> n in others
    ensures PathsOf(names) == PathsOf(others)
  {
    forall p ensures p in PathsOf(names) <==> p in PathsOf(others) {
      PathsOfNames(names, p);
      PathsOfNames(others, p);
      if i :| 0 <= i < |names| && p <= Components(names[i]) {
        assert names[i] in others;
      }
      if i :| 0 <= i < |others| && p <= Components(others[i]) {
        assert others[i] in names;
      }
    }
  }

  /** Listing a parent-closed table from the root shows exactly its rows. */
  lemma ListedTable(affs: seq<AffRow>, result: Tree, x: string)
    requires ParentClosed(affs) && Lists(PathsOf(AffNames(affs)), [], result)
    ensures Count(Names(result.children), x) == if HasAff(affs, x) then 1 else 0
  {
    ListedOnce(AffNames(affs), result, x);
    if HasAff(affs, x) {
      var i :| 0 <= i < |affs| && affs[i].name == x;
      assert AtOrBelow(x, AffNames(affs)[i]);
    }
    if i :| 0 <= i < |affs| && AtOrBelow(x, AffNames(affs)[i]) {
      if !HasAff(affs, x) {
        AbsentBelow(affs, x, affs[i].name);
      }
    }
  }

  /** The edges go from a name to its children. */
  lemma {:induction false} ListedEdges(paths: set<Path>, here: Path, forest: seq<Tree>, keys: seq<string>)
    requires PathSet(paths) && here != [] && here in paths && ListsEach(paths, here, forest, keys)
    requires forall k | k in keys :: Down(here, k) in paths
    ensures Linked(Join(here, '.'), forest)
    decreases forest
  {
    if forest == [] {
    } else {
      var child := Down(here, keys[0]);
      assert keys[0] in keys;
      assert Lists(paths, child, forest[0]);
      var below :| Orders(paths, child, forest[0].children, below);
      ListedEdges(paths, child, forest[0].children, below);
      ListedEdges(paths, here, forest[1..], keys[1..]);
      SplitJoin(here, '.');
      SplitJoin(child, '.');
      BelowIsPrefix(Join(here, '.'), Join(child, '.'));
    }
  }
}
