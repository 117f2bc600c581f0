/** The memoising key tree (lib/tcert/keytree.go). Child derivation is any function of key and name. */
module KeyTree {
  import opened Basics
  import opened Strings

  /** The left fold of child derivation over a path. */
  function Fold<Key>(root: Key, derive: (Key, string) -> Key, path: seq<string>): Key {
    if path == [] then root
    else derive(Fold(root, derive, path[..|path| - 1]), path[|path| - 1])
  }

  function Joined(path: seq<string>): string {
    Join(path, '/')
  }

  // ----- the cache on values

  /** The key delivered and the cache afterwards. */
  datatype Got<Key> = Got(key: Key, keys: map<string, Key>)

  function Get<Key>(root: Key, derive: (Key, string) -> Key, keys: map<string, Key>, path: seq<string>): Got<Key> {
    if path == [] then Got(root, keys)
    else if Joined(path) in keys then Got(keys[Joined(path)], keys)
    else
      var parent := Get(root, derive, keys, path[..|path| - 1]);
      var key := derive(parent.key, path[|path| - 1]);
      Got(key, parent.keys[Joined(path) := key])
  }

  /** The cache after any requests, one after another. */
  function Cache<Key>(root: Key, derive: (Key, string) -> Key, history: seq<seq<string>>): map<string, Key> {
    if history == [] then map[]
    else Get(root, derive, Cache(root, derive, history[..|history| - 1]), history[|history| - 1]).keys
  }

  // ----- the tree as it runs

  class KeyTree<Key> {
    const root: Key
    const derive: (Key, string) -> Key
    var keys: map<string, Key>

    /** How many derivations have failed so far. */
    ghost var failures: nat

    constructor (root: Key, derive: (Key, string) -> Key)
      ensures this.root == root && this.derive == derive && keys == map[] && failures == 0
    {
      this.root, this.derive, keys, failures := root, derive, map[], 0;
    }

    /** KeyDeriv, which may fail. */
    method DeriveChildKey(parent: Key, childName: string) returns (key: Option<Key>)
      modifies this`failures
      ensures if failures == old(failures) then key == Some(derive(parent, childName))
              else key == None && failures == old(failures) + 1
    {
      var failed: bool := *;
      if failed {
        failures := failures + 1;
        return None;
      }
      return Some(derive(parent, childName));
    }

    /** A request that fails leaves the cache of a successful request for the first `n` components. */
    method GetKey(path: seq<string>) returns (key: Option<Key>, ghost n: nat)
      modifies this
      ensures n <= |path| && keys == Get(root, derive, old(keys), path[..n]).keys
      ensures if failures == old(failures)
              then n == |path| && key == Some(Get(root, derive, old(keys), path).key)
              else key == None && failures == old(failures) + 1
      ensures path == [] || Joined(path) in old(keys) ==> failures == old(failures)
      decreases path
    {
      n := |path|;
      assert path[..n] == path;
      if |path| == 0 {
        return Some(root), n;
      }
      var pathStr := Joined(path);
      if pathStr in keys {
        return Some(keys[pathStr]), n;
      }
      var front := path[..|path| - 1];
      var parentKey;
      parentKey, n := GetKey(front);
      assert front[..n] == path[..n];
      if parentKey.None? {
        return None, n;
      }
      var childName := path[|path| - 1];
      key := DeriveChildKey(parentKey.value, childName);
      if key.None? {
        return None, n;
      }
      keys := keys[pathStr := key.value];
      n := |path|;
    }
  }

  // ----- exactly which paths may share a cache

  /** No two prefixes of the paths have the same joined text without being the same. */
  ghost predicate Told(paths: iset<seq<string>>) {
    forall p, q, i, j | p in paths && q in paths && 0 < i <= |p| && 0 < j <= |q| && Joined(p[..i]) == Joined(q[..j]) ::
      p[..i] == q[..j]
  }

  /** Every cached key is the fold over a prefix of one of the paths. */
  ghost predicate Faithful<Key(!new)>(root: Key, derive: (Key, string) -> Key, keys: map<string, Key>,
                                      paths: iset<seq<string>>)
  {
    forall s | s in keys :: FoldOf(root, derive, s, keys[s], paths)
  }

  ghost predicate FoldOf<Key(!new)>(root: Key, derive: (Key, string) -> Key, s: string, key: Key,
                                    paths: iset<seq<string>>)
  {
    exists p, i :: p in paths && 0 < i <= |p| && Joined(p[..i]) == s && key == Fold(root, derive, p[..i])
  }

  lemma {:induction false} GetFaithful<Key(!new)>(root: Key, derive: (Key, string) -> Key, keys: map<string, Key>,
                                                  paths: iset<seq<string>>, p: seq<string>, n: nat)
    requires Told(paths) && Faithful(root, derive, keys, paths) && p in paths && n <= |p|
    ensures var g := Get(root, derive, keys, p[..n]);
            g.key == Fold(root, derive, p[..n]) && Faithful(root, derive, g.keys, paths)
  {
    if n == 0 {
    } else if Joined(p[..n]) in keys {
      assert FoldOf(root, derive, Joined(p[..n]), keys[Joined(p[..n])], paths);
    } else {
      assert p[..n][..n - 1] == p[..n - 1];
      GetFaithful(root, derive, keys, paths, p, n - 1);
      var g := Get(root, derive, keys, p[..n]);
      assert FoldOf(root, derive, Joined(p[..n]), g.key, paths);
    }
  }

  lemma {:induction false} CacheFaithful<Key(!new)>(root: Key, derive: (Key, string) -> Key, paths: iset<seq<string>>,
                                                    history: seq<seq<string>>)
    requires Told(paths) && forall k | 0 <= k < |history| :: history[k] in paths
    ensures Faithful(root, derive, Cache(root, derive, history), paths)
  {
    if history == [] {
    } else {
      var front, p := history[..|history| - 1], history[|history| - 1];
      CacheFaithful(root, derive, paths, front);
      GetFaithful(root, derive, Cache(root, derive, front), paths, p, |p|);
      assert p[..|p|] == p;
    }
  }

  /** Paths that are told apart get their folds, after any history of such paths. */
  lemma ToldGetFolds<Key(!new)>(root: Key, derive: (Key, string) -> Key, paths: iset<seq<string>>,
                                history: seq<seq<string>>, p: seq<string>)
    requires Told(paths) && p in paths && forall k | 0 <= k < |history| :: history[k] in paths
    ensures Get(root, derive, Cache(root, derive, history), p).key == Fold(root, derive, p)
  {
    CacheFaithful(root, derive, paths, history);
    GetFaithful(root, derive, Cache(root, derive, history), paths, p, |p|);
    assert p[..|p|] == p;
  }

  /** The derivation that forgets nothing: the key is the list of names it was derived along. */
  function Extend(key: seq<string>, name: string): seq<string> {
    key + [name]
  }

  lemma {:induction false} FoldExtend(path: seq<string>)
    ensures Fold([], Extend, path) == path
  {
    if path == [] {
    } else {
      FoldExtend(path[..|path| - 1]);
      assert path[..|path| - 1] + [path[|path| - 1]] == path;
    }
  }

  lemma JoinedGrows(p: seq<string>, i: nat, j: nat)
    requires 0 < i < j <= |p|
    ensures |Joined(p[..i])| < |Joined(p[..j])|
  {
    JoinConcat(p[..i], p[i..j], '/');
    assert p[..j] == p[..i] + p[i..j];
  }

  /** The cache after a request for the first `n` components. */
  function OneCache(p: seq<string>, n: nat): map<string, seq<string>>
    requires n <= |p|
  {
    Get([], Extend, map[], p[..n]).keys
  }

  /** It holds prefixes of the path only, each under its own text. */
  lemma {:induction false} CachedFrom(p: seq<string>, n: nat, s: string) returns (i: nat)
    requires n <= |p| && s in OneCache(p, n)
    ensures 0 < i <= n && Joined(p[..i]) == s && OneCache(p, n)[s] == p[..i]
    decreases n, 1
  {
    assert n > 0;
    assert p[..n][..n - 1] == p[..n - 1];
    if s in OneCache(p, n - 1) {
      i := CachedFrom(p, n - 1, s);
      JoinedGrows(p, i, n);
    } else {
      i := n;
      OneKey(p, n);
    }
  }

  lemma {:induction false} OneKey(p: seq<string>, n: nat)
    requires n <= |p|
    ensures Get([], Extend, map[], p[..n]).key == p[..n]
    ensures 0 < n ==> OneCache(p, n) == OneCache(p, n - 1)[Joined(p[..n]) := p[..n]]
    decreases n, 0
  {
    if n == 0 {
    } else {
      assert p[..n][..n - 1] == p[..n - 1];
      OneKey(p, n - 1);
      if Joined(p[..n]) in OneCache(p, n - 1) {
        var i := CachedFrom(p, n - 1, Joined(p[..n]));
        JoinedGrows(p, i, n);
        assert false;
      }
      assert p[..n] == p[..n - 1] + [p[n - 1]];
    }
  }

  /** And it holds all of them. */
  lemma {:induction false} CachedAll(p: seq<string>, n: nat, i: nat)
    requires 0 < i <= n <= |p|
    ensures Joined(p[..i]) in OneCache(p, n)
  {
    OneKey(p, n);
    if i == n {
    } else {
      CachedAll(p, n - 1, i);
    }
  }

  /** Where some prefix is cached already, the key delivered starts with the key cached for one at least as long. */
  lemma {:induction false} GetContinues(keys: map<string, seq<string>>, q: seq<string>, j: nat) returns (m: nat)
    requires 0 < j <= |q| && Joined(q[..j]) in keys
    ensures j <= m <= |q| && Joined(q[..m]) in keys
    ensures Get([], Extend, keys, q).key == keys[Joined(q[..m])] + q[m..]
    decreases |q|
  {
    assert q[..|q|] == q;
    if Joined(q) in keys {
      m := |q|;
    } else {
      var front := q[..|q| - 1];
      assert front[..j] == q[..j];
      m := GetContinues(keys, front, j);
      assert front[..m] == q[..m];
      assert q[m..] == front[m..] + [q[|q| - 1]];
    }
  }

  /** Joined texts grow with the prefix, so of one path no two prefixes have the same. */
  lemma OnePrefix(p: seq<string>, i: nat, j: nat)
    requires 0 < i <= |p| && 0 < j <= |p| && Joined(p[..i]) == Joined(p[..j])
    ensures i == j
  {
    hide Joined;
    if i < j {
      JoinedGrows(p, i, j);
    } else if j < i {
      JoinedGrows(p, j, i);
    }
  }

  /** A path spliced from two is the second only if it took over from the first where they agree. */
  lemma Spliced(p: seq<string>, k: nat, q: seq<string>, m: nat)
    requires k <= |p| && m <= |q| && p[..k] + q[m..] == q
    ensures k == m && p[..k] == q[..m]
  {
    assert (p[..k] + q[m..])[..m] == p[..k];
  }

  lemma Shorter(p: seq<string>, q: seq<string>, k: nat, j: nat)
    requires j <= k <= |p| && k <= |q| && p[..k] == q[..k]
    ensures p[..j] == q[..j]
  {
    assert p[..k][..j] == p[..j] && q[..k][..j] == q[..j];
  }

  /** Two prefixes not told apart: after one path, the other gets a key that is not its own. */
  lemma UntoldConfuses(p: seq<string>, i: nat, q: seq<string>, j: nat)
    requires 0 < i <= |p| && 0 < j <= |q| && Joined(p[..i]) == Joined(q[..j]) && p[..i] != q[..j]
    ensures Get([], Extend, Cache([], Extend, [p]), q).key != q
  {
    var keys := OneCache(p, |p|);
    assert Cache([], Extend, [p]) == keys by {
      assert [p][..0] == [] && p[..|p|] == p;
    }
    hide *;
    CachedAll(p, |p|, i);
    var m := GetContinues(keys, q, j);
    var k := CachedFrom(p, |p|, Joined(q[..m]));
    if p[..k] + q[m..] == q {
      Spliced(p, k, q, m);
      Shorter(p, q, k, j);
      OnePrefix(p, i, j);
      assert false;
    }
  }

  /** Every history of the paths delivers to every one of them the list of its own names. */
  ghost predicate AlwaysOwn(paths: iset<seq<string>>) {
    forall history: seq<seq<string>>, p | p in paths && (forall k | 0 <= k < |history| :: history[k] in paths) ::
      Get([], Extend, Cache([], Extend, history), p).key == p
  }

  /** Exactly when paths may share a cache: when no two of their prefixes are joined to the same text. */
  lemma SharedCacheIff(paths: iset<seq<string>>)
    ensures AlwaysOwn(paths) <==> Told(paths)
  {
    if Told(paths) {
      forall history: seq<seq<string>>, p | p in paths && (forall k | 0 <= k < |history| :: history[k] in paths)
        ensures Get([], Extend, Cache([], Extend, history), p).key == p
      {
        ToldGetFolds([], Extend, paths, history, p);
        FoldExtend(p);
      }
    } else {
      var p, q, i, j :| p in paths && q in paths && 0 < i <= |p| && 0 < j <= |q| && Joined(p[..i]) == Joined(q[..j])
                        && p[..i] != q[..j];
      UntoldConfuses(p, i, q, j);
      assert forall k | 0 <= k < |[p]| :: [p][k] in paths;
    }
  }

  // ----- separators

  ghost function FreePaths(): iset<seq<string>> {
    iset p: seq<string> | AllFree(p, '/')
  }

  /** Separator-free paths are told apart by their joined text. */
  lemma JoinInjective(p: seq<string>, q: seq<string>)
    requires p != [] && q != [] && AllFree(p, '/') && AllFree(q, '/')
    requires Joined(p) == Joined(q)
    ensures p == q
  {
    SplitJoin(p, '/');
    SplitJoin(q, '/');
  }

  lemma FreePathsTold()
    ensures Told(FreePaths())
  {
    forall p, q, i, j | p in FreePaths() && q in FreePaths() && 0 < i <= |p| && 0 < j <= |q|
                        && Joined(p[..i]) == Joined(q[..j])
      ensures p[..i] == q[..j]
    {
      JoinInjective(p[..i], q[..j]);
    }
  }

  /** The separator-free path with the same joined text; it is another path exactly if there is a separator. */
  lemma Respelled(path: seq<string>)
    requires path != []
    ensures var other := Split(Joined(path), '/');
            && AllFree(other, '/') && Joined(other) == Joined(path) && (other == path <==> AllFree(path, '/'))
  {
    JoinSplit(Joined(path), '/');
    SplitPartsAreFree(Joined(path), '/');
    if AllFree(path, '/') {
      SplitJoin(path, '/');
    }
  }

  /**
   Beside the separator-free paths a path always gets the fold over its own names, and they over theirs,
   exactly if it is separator-free itself.
  */
  lemma SeparatorFreeIff(path: seq<string>)
    ensures AlwaysOwn(FreePaths() + iset{path}) <==> AllFree(path, '/')
  {
    var paths := FreePaths() + iset{path};
    SharedCacheIff(paths);
    FreePathsTold();
    if AllFree(path, '/') {
      assert paths == FreePaths();
    } else {
      Respelled(path);
      var other := Split(Joined(path), '/');
      assert path in paths && other in paths && path[..|path|] == path && other[..|other|] == other;
    }
  }

  predicate NoneMissing<Key>(keys: seq<Option<Key>>) {
    forall i | 0 <= i < |keys| :: keys[i].Some?
  }

  lemma NothingMissing<Key>()
    ensures NoneMissing<Key>([])
  {
  }

  lemma OneMore<Key>(keys: seq<Option<Key>>, key: Option<Key>)
    ensures NoneMissing(keys + [key]) <==> NoneMissing(keys) && key.Some?
  {
    var more := keys + [key];
    assert more[|keys|] == key;
    forall i | 0 <= i < |keys| ensures more[i] == keys[i] {
    }
  }

  /**
   Any requests, each with whatever failures: the keys delivered are the folds over the paths asked for,
   if these are told apart, as separator-free paths are.
  */
  method Serve<Key(!new)>(root: Key, derive: (Key, string) -> Key, paths: seq<seq<string>>)
    returns (keys: seq<Option<Key>>, ghost failures: nat)
    ensures |keys| == |paths|
    ensures failures == 0 <==> NoneMissing(keys)
    ensures Told(iset p | p in paths) || (forall p | p in paths :: AllFree(p, '/')) ==>
              forall i | 0 <= i < |paths| :: keys[i].Some? ==> keys[i].value == Fold(root, derive, paths[i])
  {
    ghost var fine := Told(iset p | p in paths) || forall p | p in paths :: AllFree(p, '/');
    ghost var all := if Told(iset p | p in paths) then iset p | p in paths else FreePaths();
    FreePathsTold();
    assert fine ==> forall i | 0 <= i < |paths| :: paths[i] in all;
    assert Faithful(root, derive, map[], all);
    NothingMissing<Key>();
    hide *;
    var tree := new KeyTree(root, derive);
    keys := [];
    for i := 0 to |paths|
      invariant tree.root == root && tree.derive == derive && |keys| == i
      invariant tree.failures == 0 <==> NoneMissing(keys)
      invariant fine ==>
                  && Faithful(root, derive, tree.keys, all)
                  && forall j | 0 <= j < i :: keys[j].Some? ==> keys[j].value == Fold(root, derive, paths[j])
    {
      ghost var p, before := paths[i], tree.keys;
      ghost var n;
      var key;
      key, n := tree.GetKey(paths[i]);
      if fine {
        GetFaithful(root, derive, before, all, p, n);
        assert p[..|p|] == p;
      }
      OneMore(keys, key);
      keys := keys + [key];
    }
    failures := tree.failures;
  }

  /**
   For every path: a fresh tree asked for the separator-free spelling and then for the path delivers the
   first key again, and with a separator that is the key of another path.
  */
  method Confused<Key(!new)>(root: Key, derive: (Key, string) -> Key, path: seq<string>)
    returns (first: Option<Key>, second: Option<Key>)
    requires path != []
    ensures var other := Split(Joined(path), '/');
            && (other != path <==> !AllFree(path, '/'))
            && (first.Some? ==> first.value == Fold(root, derive, other) && second == first)
  {
    var other := Split(Joined(path), '/');
    Respelled(path);
    FreePathsTold();
    ToldGetFolds(root, derive, FreePaths(), [], other);
    var tree := new KeyTree(root, derive);
    ghost var n;
    first, n := tree.GetKey(other);
    assert other[..|other|] == other && path[..|path|] == path;
    second, n := tree.GetKey(path);
  }

  /** The instance with one slash: asked for "a" and "b" first, the path "a/b" gets the key of two derivations. */
  lemma SlashConfuses()
    ensures Get([], Extend, Cache([], Extend, [["a", "b"]]), ["a/b"]).key != ["a/b"]
  {
    var p, q := ["a", "b"], ["a/b"];
    assert p[..2] == p && q[..1] == q && p[1..] == ["b"];
    assert "a" + "/" + "b" == "a/b";
    UntoldConfuses(p, 2, q, 1);
  }

  /** Derivation goes down the tree: a key is enough for everything below it. */
  lemma {:induction false} FoldBelow<Key>(root: Key, derive: (Key, string) -> Key, path: seq<string>, rest: seq<string>)
    ensures Fold(root, derive, path + rest) == Fold(Fold(root, derive, path), derive, rest)
    ensures forall name :: Fold(root, derive, [name]) == derive(root, name)
  {
    forall name ensures Fold(root, derive, [name]) == derive(root, name) {
      assert [name][..0] == [];
    }
    if rest == [] {
      assert path + rest == path;
    } else {
      FoldBelow(root, derive, path, rest[..|rest| - 1]);
      assert (path + rest)[..|path + rest| - 1] == path + rest[..|rest| - 1];
    }
  }
}
