/** The Go string operations the registry relies on, over `string`. */
module Strings {

  /** strings.HasSuffix with a one-character suffix. */
  predicate EndsWith(s: string, c: char) {
    s != "" && s[|s| - 1] == c
  }

  predicate Free(s: string, c: char) {
    c !in s
  }

  predicate AllFree(parts: seq<string>, c: char) {
    forall i | 0 <= i < |parts| :: Free(parts[i], c)
  }

  /** Putting one character in front of a split text. */
  function PutInFront(c: char, parts: seq<string>, sep: char): (r: seq<string>)
    requires |parts| >= 1
    ensures |r| >= 1
  {
    if c == sep then [""] + parts else [[c] + parts[0]] + parts[1..]
  }

  /** strings.Split with a one-character separator; the empty string has one (empty) part. */
  function Split(s: string, sep: char): (parts: seq<string>)
    ensures |parts| >= 1
  {
    if s == "" then [""] else PutInFront(s[0], Split(s[1..], sep), sep)
  }

  /** strings.Join with a one-character separator. */
  function Join(parts: seq<string>, sep: char): string {
    if parts == [] then ""
    else if |parts| == 1 then parts[0]
    else parts[0] + [sep] + Join(parts[1..], sep)
  }

  /** strings.TrimRight with a one-character cutset. */
  function TrimRight(s: string, c: char): (r: string)
    ensures r <= s
    ensures !EndsWith(r, c)
    ensures forall i | |r| <= i < |s| :: s[i] == c
  {
    if EndsWith(s, c) then TrimRight(s[..|s| - 1], c) else s
  }

  /** strings.TrimLeft with a one-character cutset. */
  function TrimLeft(s: string, c: char): string {
    if s != "" && s[0] == c then TrimLeft(s[1..], c) else s
  }

  /** strings.Replace(s, from, to, 1). */
  function ReplaceFirst(s: string, from: string, to: string): string {
    if from <= s then to + s[|from|..]
    else if s == "" then s
    else [s[0]] + ReplaceFirst(s[1..], from, to)
  }

  /** strings.Replace(s, c, "", -1) for a one-character c. */
  function Without(s: string, c: char): string {
    if s == "" then ""
    else if s[0] == c then Without(s[1..], c)
    else [s[0]] + Without(s[1..], c)
  }

  function LowerChar(c: char): char {
    if 'A' <= c <= 'Z' then (c as int + 32) as char else c
  }

  /** strings.ToLower on ASCII letters. */
  function ToLower(s: string): (r: string)
    ensures |r| == |s|
    ensures forall i | 0 <= i < |s| :: r[i] == LowerChar(s[i])
  {
    seq(|s|, i requires 0 <= i < |s| => LowerChar(s[i]))
  }

  lemma {:induction false} SplitPartsAreFree(s: string, sep: char)
    ensures AllFree(Split(s, sep), sep)
  {
    if s == "" {
    } else {
      SplitPartsAreFree(s[1..], sep);
    }
  }

  lemma JoinPutInFront(c: char, parts: seq<string>, sep: char)
    requires parts != []
    ensures Join(PutInFront(c, parts, sep), sep) == [c] + Join(parts, sep)
  {
    assert PutInFront(c, parts, sep)[1..] == if c == sep then parts else parts[1..];
  }

  lemma {:induction false} JoinSplit(s: string, sep: char)
    ensures Join(Split(s, sep), sep) == s
  {
    if s == "" {
    } else {
      JoinSplit(s[1..], sep);
      JoinPutInFront(s[0], Split(s[1..], sep), sep);
    }
  }

  lemma {:induction false} SplitFree(s: string, sep: char)
    requires Free(s, sep)
    ensures Split(s, sep) == [s]
  {
    if s == "" {
    } else {
      SplitFree(s[1..], sep);
      assert [s[0]] + s[1..] == s;
    }
  }

  lemma PutInFrontConcat(c: char, ps: seq<string>, qs: seq<string>, sep: char)
    requires ps != []
    ensures PutInFront(c, ps + qs, sep) == PutInFront(c, ps, sep) + qs
  {
    assert (ps + qs)[1..] == ps[1..] + qs;
  }

  /** Splitting distributes over a separator. */
  lemma {:induction false} SplitConcat(a: string, b: string, sep: char)
    ensures Split(a + [sep] + b, sep) == Split(a, sep) + Split(b, sep)
  {
    var whole := a + [sep] + b;
    if a == "" {
      assert whole[1..] == b;
    } else {
      SplitConcat(a[1..], b, sep);
      assert whole[1..] == a[1..] + [sep] + b;
      PutInFrontConcat(a[0], Split(a[1..], sep), Split(b, sep), sep);
    }
  }

  lemma {:induction false} SplitJoin(parts: seq<string>, sep: char)
    requires parts != [] && AllFree(parts, sep)
    ensures Split(Join(parts, sep), sep) == parts
  {
    SplitFree(parts[0], sep);
    if |parts| > 1 {
      SplitJoin(parts[1..], sep);
      SplitConcat(parts[0], Join(parts[1..], sep), sep);
    }
  }

  lemma {:induction false} JoinConcat(ps: seq<string>, qs: seq<string>, sep: char)
    requires ps != [] && qs != []
    ensures Join(ps + qs, sep) == Join(ps, sep) + [sep] + Join(qs, sep)
  {
    if |ps| == 1 {
      assert (ps + qs)[1..] == qs;
    } else {
      JoinConcat(ps[1..], qs, sep);
      assert (ps + qs)[1..] == ps[1..] + qs;
    }
  }

  /** Every occurrence goes, and nothing else. */
  lemma {:induction false} WithoutParts(parts: seq<string>, c: char)
    requires AllFree(parts, c)
    ensures Without(Join(parts, c), c) == Concat(parts)
  {
    if parts == [] {
    } else {
      WithoutFree(parts[0], if |parts| == 1 then "" else [c] + Join(parts[1..], c), c);
      assert parts[0] + "" == parts[0];
      if |parts| == 1 {
        assert Concat(parts[1..]) == "";
      } else {
        WithoutParts(parts[1..], c);
        assert Join(parts, c) == parts[0] + ([c] + Join(parts[1..], c));
        assert ([c] + Join(parts[1..], c))[1..] == Join(parts[1..], c);
      }
    }
  }

  function Concat(parts: seq<string>): string {
    if parts == [] then "" else parts[0] + Concat(parts[1..])
  }

  lemma {:induction false} WithoutFree(s: string, rest: string, c: char)
    requires Free(s, c)
    ensures Without(s + rest, c) == s + Without(rest, c)
  {
    if s == "" {
      assert s + rest == rest;
    } else {
      WithoutFree(s[1..], rest, c);
      assert (s + rest)[1..] == s[1..] + rest;
      assert s == [s[0]] + s[1..];
    }
  }

  /** What is trimmed is all there is of the character at the front. */
  lemma {:induction false} TrimLeftIs(s: string, c: char)
    ensures var r := TrimLeft(s, c);
            && |r| <= |s| && r == s[|s| - |r|..] && (r != "" ==> r[0] != c)
            && forall i | 0 <= i < |s| - |r| :: s[i] == c
  {
    if s != "" && s[0] == c {
      TrimLeftIs(s[1..], c);
      forall i | 0 < i < |s| ensures s[i] == s[1..][i - 1] {
      }
    }
  }

  predicate SameLetter(x: char, y: char) {
    || x == y
    || ('A' <= x <= 'Z' && y as int == x as int + 32)
    || ('A' <= y <= 'Z' && x as int == y as int + 32)
  }

  /** Texts are equal in lower case exactly if they differ in the case of letters at most. */
  lemma SameLettersIff(s: string, t: string)
    ensures ToLower(s) == ToLower(t) <==> |s| == |t| && forall i | 0 <= i < |s| :: SameLetter(s[i], t[i])
  {
    if ToLower(s) == ToLower(t) {
      assert |s| == |ToLower(s)| == |ToLower(t)| == |t|;
      forall i | 0 <= i < |s| ensures SameLetter(s[i], t[i]) {
        assert LowerChar(s[i]) == ToLower(s)[i] == ToLower(t)[i] == LowerChar(t[i]);
      }
    }
  }

  /** A text too short to hold the pattern is left alone. */
  lemma {:induction false} ReplaceInShort(s: string, from: string, to: string)
    requires |s| < |from|
    ensures ReplaceFirst(s, from, to) == s
  {
    if s == "" {
    } else {
      ReplaceInShort(s[1..], from, to);
    }
  }
}
