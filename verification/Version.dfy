/** Version numbers (lib/metadata/version.go): a comparison of components, and levels looked up by it. */
module Version {
  import opened Basics
  import opened Strings
  import opened Serials

  /** strconv.Atoi on a 64-bit machine. */
  function Atoi(s: string): Option<int> {
    var digits := if s != "" && (s[0] == '+' || s[0] == '-') then s[1..] else s;
    match Parse(digits, 10)
    case None => None
    case Some(n) =>
      var v: int := if s[0] == '-' then -1 * n else n;
      if -0x8000_0000_0000_0000 <= v < 0x8000_0000_0000_0000 then Some(v) else None
  }

  /** strs: the dotted components in front of the first dash. */
  function Parts(version: string): seq<string> {
    Split(Split(version, '-')[0], '.')
  }

  /** val: missing components are zero. */
  function Component(parts: seq<string>, i: nat): Option<int> {
    if i >= |parts| then Some(0) else Atoi(parts[i])
  }

  function Max(a: nat, b: nat): nat {
    if a > b then a else b
  }

  /** From component `i` on: 0 if equal, 1 if the second is newer, -1 if the first is; none on a bad component. */
  function Cmp(a: seq<string>, b: seq<string>, i: nat): (r: Option<int>)
    ensures r.Some? ==> -1 <= r.value <= 1
    decreases Max(|a|, |b|) - i
  {
    if i >= Max(|a|, |b|) then Some(0)
    else if Component(a, i).None? || Component(b, i).None? then None
    else if Component(a, i).value < Component(b, i).value then Some(1)
    else if Component(a, i).value > Component(b, i).value then Some(-1)
    else Cmp(a, b, i + 1)
  }

  method CmpVersion(v1: string, v2: string) returns (r: Option<int>)
    ensures r == Cmp(Parts(v1), Parts(v2), 0)
  {
    var a, b := Parts(v1), Parts(v2);
    var m := Max(|a|, |b|);
    var i := 0;
    while i < m
      invariant 0 <= i <= m && Cmp(a, b, i) == Cmp(a, b, 0)
    {
      var x, y := Component(a, i), Component(b, i);
      if x.None? || y.None? {
        return None;
      }
      if x.value < y.value {
        return Some(1);
      } else if x.value > y.value {
        return Some(-1);
      }
      i := i + 1;
    }
    return Some(0);
  }

  lemma SignedReads(s: string, n: nat)
    requires s != "" && s[0] != '+' && s[0] != '-' && Parse(s, 10) == Some(n)
    ensures Atoi(s) == Atoi("+" + s) == if n < 0x8000_0000_0000_0000 then Some(n) else None
    ensures Atoi("-" + s) == if n <= 0x8000_0000_0000_0000 then Some(-1 * n) else None
  {
    hide Parse;
    assert ("+" + s)[1..] == s && ("-" + s)[1..] == s;
  }

  /** A component reads as the number it is written for, with or without a sign, within 64 bits. */
  lemma AtoiReads(n: nat)
    ensures var s := Render(n, 10);
            && Atoi(s) == Atoi("+" + s) == (if n < 0x8000_0000_0000_0000 then Some(n) else None)
            && Atoi("-" + s) == if n <= 0x8000_0000_0000_0000 then Some(-1 * n) else None
  {
    hide Parse, Render, Atoi;
    var s := Render(n, 10);
    ParseRender(n, 10);
    ParseSomeIff(s, 10);
    var d :| 0 <= d < 10 && LowerChar(s[0]) == Digit(d);
    SignedReads(s, n);
  }

  // ----- what the comparison means

  predicate WellFormed(parts: seq<string>) {
    forall i | 0 <= i < |parts| :: Atoi(parts[i]).Some?
  }

  function At(parts: seq<string>, i: nat): int
    requires WellFormed(parts)
  {
    Component(parts, i).value
  }

  predicate EqualUpTo(a: seq<string>, b: seq<string>, k: nat)
    requires WellFormed(a) && WellFormed(b)
  {
    forall j | 0 <= j < k :: At(a, j) == At(b, j)
  }

  /** Lexicographically smaller, as number sequences followed by zeros. */
  ghost predicate Older(a: seq<string>, b: seq<string>)
    requires WellFormed(a) && WellFormed(b)
  {
    exists k: nat :: EqualUpTo(a, b, k) && At(a, k) < At(b, k)
  }

  ghost predicate Same(a: seq<string>, b: seq<string>)
    requires WellFormed(a) && WellFormed(b)
  {
    forall k: nat :: At(a, k) == At(b, k)
  }

  lemma {:induction false} CmpMeans(a: seq<string>, b: seq<string>, i: nat)
    requires WellFormed(a) && WellFormed(b) && EqualUpTo(a, b, i)
    ensures Cmp(a, b, i).Some?
    ensures Cmp(a, b, i) == Some(0) <==> Same(a, b)
    ensures Cmp(a, b, i) == Some(1) <==> Older(a, b)
    ensures Cmp(a, b, i) == Some(-1) <==> Older(b, a)
    decreases Max(|a|, |b|) - i
  {
    if i >= Max(|a|, |b|) {
      assert Same(a, b);
    } else if At(a, i) < At(b, i) {
      assert Older(a, b);
      NotBoth(a, b, i);
    } else if At(a, i) > At(b, i) {
      assert EqualUpTo(b, a, i);
      assert Older(b, a);
      NotBoth(b, a, i);
    } else {
      CmpMeans(a, b, i + 1);
    }
  }

  /** The comparison fails exactly at a component that is no number behind components that are equal. */
  lemma {:induction false} CmpNoneIff(a: seq<string>, b: seq<string>, i: nat)
    ensures Cmp(a, b, i) == None <==>
            exists k | i <= k < Max(|a|, |b|) ::
              && (Component(a, k).None? || Component(b, k).None?)
              && forall j | i <= j < k :: Component(a, j).Some? && Component(a, j) == Component(b, j)
    decreases Max(|a|, |b|) - i
  {
    hide Component;
    if i >= Max(|a|, |b|) {
    } else if Component(a, i).None? || Component(b, i).None? {
    } else if Component(a, i).value != Component(b, i).value {
    } else {
      CmpNoneIff(a, b, i + 1);
    }
  }

  lemma NotBoth(a: seq<string>, b: seq<string>, i: nat)
    requires WellFormed(a) && WellFormed(b) && EqualUpTo(a, b, i) && At(a, i) < At(b, i)
    ensures !Older(b, a) && !Same(a, b)
  {
    forall k: nat ensures EqualUpTo(b, a, k) ==> At(b, k) >= At(a, k) {
      assert i < k ==> !EqualUpTo(b, a, k);
      assert k < i ==> At(a, k) == At(b, k);
    }
  }

  lemma OlderTransitive(a: seq<string>, b: seq<string>, c: seq<string>)
    requires WellFormed(a) && WellFormed(b) && WellFormed(c)
    requires (Older(a, b) || Same(a, b)) && (Older(b, c) || Same(b, c))
    ensures Older(a, c) || Same(a, c)
  {
    if Older(a, b) {
      var k: nat :| EqualUpTo(a, b, k) && At(a, k) < At(b, k);
      if Older(b, c) {
        var j: nat :| EqualUpTo(b, c, j) && At(b, j) < At(c, j);
        var m := if k < j then k else j;
        assert EqualUpTo(a, c, m) && At(a, m) < At(c, m);
      } else {
        assert EqualUpTo(a, c, k) && At(a, k) < At(c, k);
      }
    } else if Older(b, c) {
      var j: nat :| EqualUpTo(b, c, j) && At(b, j) < At(c, j);
      assert EqualUpTo(a, c, j) && At(a, j) < At(c, j);
    }
  }

  lemma SameSymmetric(a: seq<string>, b: seq<string>)
    requires WellFormed(a) && WellFormed(b)
    ensures Same(a, a) && (Same(a, b) <==> Same(b, a))
  {
    if Same(a, b) {
      forall k: nat ensures At(b, k) == At(a, k) {
        assert At(a, k) == At(b, k);
      }
    }
    if Same(b, a) {
      forall k: nat ensures At(a, k) == At(b, k) {
        assert At(b, k) == At(a, k);
      }
    }
  }

  /** Not newer: what CmpVersion says of `a` against `b`. */
  predicate NotNewer(a: seq<string>, b: seq<string>) {
    Cmp(a, b, 0).Some? && Cmp(a, b, 0).value >= 0
  }

  /** A total preorder on well-formed versions, with the sign turned round when the arguments are. */
  lemma VersionOrder(a: seq<string>, b: seq<string>, c: seq<string>)
    requires WellFormed(a) && WellFormed(b) && WellFormed(c)
    ensures Cmp(a, a, 0) == Some(0)
    ensures Cmp(a, b, 0).Some? && Cmp(b, a, 0) == Some(-Cmp(a, b, 0).value)
    ensures NotNewer(a, b) || NotNewer(b, a)
    ensures NotNewer(a, b) && NotNewer(b, c) ==> NotNewer(a, c)
  {
    hide Cmp, Older, Same, WellFormed;
    SameSymmetric(a, a);
    SameSymmetric(a, b);
    CmpMeans(a, a, 0);
    CmpMeans(a, b, 0);
    CmpMeans(b, a, 0);
    CmpMeans(b, c, 0);
    CmpMeans(a, c, 0);
    if NotNewer(a, b) && NotNewer(b, c) {
      OlderTransitive(a, b, c);
    }
  }

  /** A trailing component that reads as zero makes no difference. */
  lemma TrailingZero(a: seq<string>, zero: string, b: seq<string>)
    requires WellFormed(a) && WellFormed(b) && Atoi(zero) == Some(0)
    ensures WellFormed(a + [zero])
    ensures Cmp(a + [zero], b, 0) == Cmp(a, b, 0) && Cmp(b, a + [zero], 0) == Cmp(b, a, 0)
  {
    hide *;
    var z := a + [zero];
    ZeroAppended(a, zero);
    CmpMeans(z, b, 0);
    CmpMeans(a, b, 0);
    CmpMeans(b, z, 0);
    CmpMeans(b, a, 0);
    SameAs(z, a, b);
  }

  lemma ZeroAppended(a: seq<string>, zero: string)
    requires WellFormed(a) && Atoi(zero) == Some(0)
    ensures WellFormed(a + [zero]) && Same(a + [zero], a)
  {
    hide Atoi;
    forall k: nat ensures At(a + [zero], k) == At(a, k) {
    }
  }

  lemma SameAs(z: seq<string>, a: seq<string>, b: seq<string>)
    requires WellFormed(z) && WellFormed(a) && WellFormed(b) && Same(z, a)
    ensures Older(z, b) <==> Older(a, b)
    ensures Older(b, z) <==> Older(b, a)
    ensures Same(z, b) <==> Same(a, b)
  {
    forall k: nat ensures EqualUpTo(z, b, k) <==> EqualUpTo(a, b, k) {
      assert forall j: nat :: At(z, j) == At(a, j);
    }
    forall k: nat ensures EqualUpTo(b, z, k) <==> EqualUpTo(b, a, k) {
      assert forall j: nat :: At(z, j) == At(a, j);
    }
  }

  /** Neither does anything after a dash; what is before it is split at the dots. */
  lemma AfterDash(v: string, text: string)
    ensures Parts(v + "-" + text) == Parts(v)
    ensures Free(v, '-') ==> Parts(v) == Split(v, '.')
  {
    SplitConcat(v, text, '-');
    if Free(v, '-') {
      SplitFree(v, '-');
    }
  }

  // ----- levels

  datatype Levels = Levels(identity: int, affiliation: int, certificate: int)

  /** versionToLevelsMapping. */
  const VERSIONS := ["0", "1.1.0"]
  const LEVELS := [Levels(0, 0, 0), Levels(1, 1, 1)]

  datatype Lookup = Invalid | NoLevel | Level(i: nat)

  /** The search from entry `n - 1` of a table of versions down to the first. */
  function Search(table: seq<string>, version: string, n: nat): Lookup
    requires n <= |table|
  {
    if n == 0 then NoLevel
    else match Cmp(Parts(table[n - 1]), Parts(version), 0)
      case None => Invalid
      case Some(c) => if c >= 0 then Level(n - 1) else Search(table, version, n - 1)
  }

  /** GetLevels: an error, or the levels of the entry found, or nothing. */
  method GetLevels(version: string) returns (ok: bool, levels: Option<Levels>)
    ensures match Search(VERSIONS, version, |VERSIONS|)
            case Invalid => !ok && levels == None
            case NoLevel => ok && levels == None
            case Level(i) => ok && i < |LEVELS| && levels == Some(LEVELS[i])
  {
    var i := |VERSIONS| - 1;
    while i >= 0
      invariant -1 <= i < |VERSIONS| == |LEVELS|
      invariant Search(VERSIONS, version, i + 1) == Search(VERSIONS, version, |VERSIONS|)
    {
      var c := CmpVersion(VERSIONS[i], version);
      if c.None? {
        return false, None;
      }
      if c.value >= 0 {
        return true, Some(LEVELS[i]);
      }
      i := i - 1;
    }
    return true, None;
  }

  predicate Legible(table: seq<string>) {
    forall i | 0 <= i < |table| :: WellFormed(Parts(table[i]))
  }

  /** The entry is not newer than the version. */
  predicate Fits(table: seq<string>, version: string, i: nat)
    requires i < |table|
  {
    NotNewer(Parts(table[i]), Parts(version))
  }

  predicate Ascending(table: seq<string>) {
    Legible(table) && forall i, j | 0 <= i < j < |table| :: Fits(table, table[j], i)
  }

  lemma NothingBefore(a: seq<string>, b: seq<string>)
    requires WellFormed(a) && WellFormed(b)
    ensures EqualUpTo(a, b, 0)
  {
  }

  lemma {:induction false} SearchFinds(table: seq<string>, version: string, n: nat)
    requires Legible(table) && n <= |table| && WellFormed(Parts(version))
    ensures match Search(table, version, n)
            case Invalid => false
            case NoLevel => forall j | 0 <= j < n :: !Fits(table, version, j)
            case Level(i) => i < n && Fits(table, version, i) && forall j | i < j < n :: !Fits(table, version, j)
  {
    hide Cmp, WellFormed, Parts, Older, Same, EqualUpTo, Atoi, At;
    if n == 0 {
    } else {
      SearchFinds(table, version, n - 1);
      assert EqualUpTo(Parts(table[n - 1]), Parts(version), 0) by {
        NothingBefore(Parts(table[n - 1]), Parts(version));
      }
      CmpMeans(Parts(table[n - 1]), Parts(version), 0);
    }
  }

  /** The entry found is the greatest that is not newer than the version, and there is one if any is not newer. */
  lemma LevelIsGreatest(table: seq<string>, version: string, j: nat)
    requires Ascending(table) && WellFormed(Parts(version)) && j < |table|
    requires Fits(table, version, j)
    ensures var r := Search(table, version, |table|);
            r.Level? && r.i < |table| && Fits(table, version, r.i) && Fits(table, table[r.i], j)
  {
    hide Cmp, WellFormed, Parts, Search, NotNewer;
    SearchFinds(table, version, |table|);
    var i := Search(table, version, |table|).i;
    if i == j {
      VersionOrder(Parts(table[j]), Parts(table[j]), Parts(table[j]));
    }
  }

  /** A newer version never gets an older level. */
  lemma LevelsMonotone(table: seq<string>, v: string, w: string)
    requires Ascending(table) && WellFormed(Parts(v)) && WellFormed(Parts(w)) && NotNewer(Parts(v), Parts(w))
    requires Search(table, v, |table|).Level?
    ensures Search(table, w, |table|).Level? && Search(table, w, |table|).i >= Search(table, v, |table|).i
  {
    hide Cmp, WellFormed, Parts, Search, NotNewer;
    SearchFinds(table, v, |table|);
    SearchFinds(table, w, |table|);
    var i := Search(table, v, |table|).i;
    VersionOrder(Parts(table[i]), Parts(v), Parts(w));
    assert Fits(table, w, i);
  }

  // ----- the table of the program

  lemma OwnDigits()
    ensures Atoi("0") == Some(0) && Atoi("1") == Some(1)
  {
  }

  lemma OwnJoined()
    ensures Join(["1", "1", "0"], '.') == "1.1.0"
  {
    assert ["1", "0"][1..] == ["0"] && ["1", "1", "0"][1..] == ["1", "0"];
    assert Join(["1", "0"], '.') == "1" + "." + "0";
    assert Join(["1", "1", "0"], '.') == "1" + "." + "1.0" == "1.1.0";
  }

  lemma OwnParts()
    ensures Parts("0") == ["0"] && Parts("1.1.0") == ["1", "1", "0"]
    ensures Atoi("0") == Some(0) && Atoi("1") == Some(1)
  {
    hide Split, Join, Atoi;
    OwnDigits();
    OwnJoined();
    SplitFree("0", '-');
    SplitFree("1.1.0", '-');
    SplitFree("0", '.');
    SplitJoin(["1", "1", "0"], '.');
  }

  lemma OwnTableAscends()
    ensures Ascending(VERSIONS)
  {
    OwnParts();
    hide Atoi, Parts;
    assert Cmp(["0"], ["1", "1", "0"], 0) == Some(1);
  }

  lemma {:induction false} SplitKeepsFree(s: string, sep: char, c: char)
    requires Free(s, c)
    ensures AllFree(Split(s, sep), c)
  {
    if s == "" {
    } else {
      SplitKeepsFree(s[1..], sep, c);
    }
  }

  /** No component is negative: the text ends before the first dash. */
  lemma NoNegatives(version: string, i: nat)
    requires WellFormed(Parts(version))
    ensures At(Parts(version), i) >= 0
  {
    SplitPartsAreFree(version, '-');
    SplitKeepsFree(Split(version, '-')[0], '.', '-');
    if i < |Parts(version)| {
      var part := Parts(version)[i];
      assert Free(part, '-') && Atoi(part).Some?;
    }
  }

  lemma {:induction false} ZerosNotNewer(a: seq<string>, b: seq<string>, i: nat)
    requires WellFormed(a) && WellFormed(b)
    requires forall j: nat | i <= j :: At(a, j) == 0 <= At(b, j)
    ensures Cmp(a, b, i).Some? && Cmp(a, b, i).value >= 0
    decreases Max(|a|, |b|) - i
  {
    if i >= Max(|a|, |b|) {
    } else {
      assert At(a, i) == 0 <= At(b, i);
      ZerosNotNewer(a, b, i + 1);
    }
  }

  /** Every legible version has levels: 1 in everything from 1.1 on, 0 before. */
  lemma OwnLevels(version: string)
    requires WellFormed(Parts(version))
    ensures var p, r := Parts(version), Search(VERSIONS, version, |VERSIONS|);
            && r.Level? && r.i < |LEVELS|
            && LEVELS[r.i] == if At(p, 0) > 1 || (At(p, 0) == 1 && At(p, 1) >= 1) then Levels(1, 1, 1)
                              else Levels(0, 0, 0)
  {
    var p := Parts(version);
    OwnParts();
    forall i: nat ensures At(p, i) >= 0 {
      NoNegatives(version, i);
    }
    hide Atoi, Parts;
    var zero, own := ["0"], ["1", "1", "0"];
    assert WellFormed(zero) && WellFormed(own);
    ZerosNotNewer(zero, p, 0);
    ZerosNotNewer(own, p, 2);
    assert At(own, 0) == 1 && At(own, 1) == 1;
    assert Cmp(own, p, 0) == if At(p, 0) > 1 then Some(1) else if At(p, 0) < 1 then Some(-1) else Cmp(own, p, 1);
    assert Cmp(own, p, 1) == if At(p, 1) > 1 then Some(1) else if At(p, 1) < 1 then Some(-1) else Cmp(own, p, 2);
  }
}
