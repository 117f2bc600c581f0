/**
 The streaming JSON walker (lib/streamer): it consumes tokens, keeps the path to the current value on
 a stack, and calls back for the elements of arrays at the searched paths.
*/
module JsonStream {
  import opened Basics
  import opened Strings

  datatype Token = Delim(c: char) | Text(s: string) | Literal

  datatype Json = Str(s: string) | Plain | Arr(items: seq<Json>) | Obj(members: seq<Member>)

  datatype Member = Member(key: string, value: Json)

  function Flatten(v: Json): (ts: seq<Token>)
    ensures ts != []
  {
    match v
    case Str(s) => [Text(s)]
    case Plain => [Literal]
    case Arr(items) => [Delim('[')] + FlattenAll(items) + [Delim(']')]
    case Obj(members) => [Delim('{')] + FlattenMembers(members) + [Delim('}')]
  }

  function FlattenAll(items: seq<Json>): seq<Token> {
    if items == [] then [] else Flatten(items[0]) + FlattenAll(items[1..])
  }

  function FlattenMembers(members: seq<Member>): seq<Token> {
    if members == [] then []
    else [Text(members[0].key)] + Flatten(members[0].value) + FlattenMembers(members[1..])
  }

  /** What decoder.Decode makes of the tokens ahead: one value, and what follows it. */
  datatype Parsed<T> = Parsed(value: T, rest: seq<Token>)

  function ParseValue(ts: seq<Token>): (r: Option<Parsed<Json>>)
    ensures r.Some? ==> |r.value.rest| < |ts|
    decreases |ts|, 0
  {
    if ts == [] then None
    else match ts[0]
      case Text(s) => Some(Parsed(Str(s), ts[1..]))
      case Literal => Some(Parsed(Plain, ts[1..]))
      case Delim('[') =>
        (match ParseItems(ts[1..])
         case None => None
         case Some(p) => Some(Parsed(Arr(p.value), p.rest)))
      case Delim('{') =>
        (match ParseMembers(ts[1..])
         case None => None
         case Some(p) => Some(Parsed(Obj(p.value), p.rest)))
      case Delim(_) => None
  }

  function ParseItems(ts: seq<Token>): (r: Option<Parsed<seq<Json>>>)
    ensures r.Some? ==> |r.value.rest| < |ts|
    decreases |ts|, 1
  {
    if ts == [] then None
    else if ts[0] == Delim(']') then Some(Parsed([], ts[1..]))
    else match ParseValue(ts)
      case None => None
      case Some(p) =>
        match ParseItems(p.rest)
        case None => None
        case Some(q) => Some(Parsed([p.value] + q.value, q.rest))
  }

  function ParseMembers(ts: seq<Token>): (r: Option<Parsed<seq<Member>>>)
    ensures r.Some? ==> |r.value.rest| < |ts|
    decreases |ts|, 1
  {
    if ts == [] then None
    else if ts[0] == Delim('}') then Some(Parsed([], ts[1..]))
    else if !ts[0].Text? then None
    else match ParseValue(ts[1..])
      case None => None
      case Some(p) =>
        match ParseMembers(p.rest)
        case None => None
        case Some(q) => Some(Parsed([Member(ts[0].s, p.value)] + q.value, q.rest))
  }

  /** A call back: which search element, with which array element. */
  datatype Call = Call(k: nat, value: Json)

  /** The searched paths, and whether the callback of each accepts a value. */
  datatype Search = Search(paths: seq<string>, accepts: (nat, Json) -> bool) {
    /** getSearchElement: the first one with this path, or |paths|. */
    function Find(path: string): (k: nat)
      ensures k <= |paths|
      ensures k < |paths| ==> paths[k] == path
      ensures forall j | 0 <= j < k :: paths[j] != path
    {
      FindFrom(path, 0)
    }

    function FindFrom(path: string, i: nat): (k: nat)
      requires i <= |paths|
      ensures i <= k <= |paths|
      ensures k < |paths| ==> paths[k] == path
      ensures forall j | i <= j < k :: paths[j] != path
      decreases |paths| - i
    {
      if i == |paths| || paths[i] == path then i else FindFrom(path, i + 1)
    }

    function At(stack: seq<string>): nat {
      Find(Join(stack, '.'))
    }

    predicate Searched(stack: seq<string>) {
      At(stack) < |paths|
    }
  }

  /** How a walk ends: whether without error, what is left, and the calls made. */
  datatype Walked = Walked(ok: bool, rest: seq<Token>, calls: seq<Call>)

  // ----- the walker on values

  /** skipToDelim. */
  function SkipTo(delim: char, ts: seq<Token>): (r: Option<seq<Token>>)
    ensures r.Some? ==> |r.value| < |ts|
    decreases |ts|
  {
    if ts == [] then None
    else match ts[0]
      case Delim(c) =>
        if c == delim then Some(ts[1..])
        else if c == '[' || c == '{' then
          (match SkipTo(if c == '[' then ']' else '}', ts[1..])
           case None => None
           case Some(r) => SkipTo(delim, r))
        else None
      case _ => SkipTo(delim, ts[1..])
  }

  /** decoder.More. */
  predicate More(ts: seq<Token>) {
    ts != [] && ts[0] != Delim(']') && ts[0] != Delim('}')
  }

  /** The loop that hands array elements to the callback. */
  function Elements(s: Search, k: nat, ts: seq<Token>): (r: Walked)
    ensures |r.rest| <= |ts|
    decreases |ts|
  {
    if !More(ts) then Walked(true, ts, [])
    else match ParseValue(ts)
      case None => Walked(false, ts, [])
      case Some(p) =>
        if !s.accepts(k, p.value) then Walked(false, p.rest, [Call(k, p.value)])
        else
          var r := Elements(s, k, p.rest);
          r.(calls := [Call(k, p.value)] + r.calls)
  }

  function StreamArray(s: Search, stack: seq<string>, ts: seq<Token>): (r: Walked)
    ensures r.ok ==> |r.rest| < |ts|
  {
    var e := if s.Searched(stack) then Elements(s, s.At(stack), ts) else Walked(true, ts, []);
    if !e.ok then e
    else match SkipTo(']', e.rest)
      case None => Walked(false, [], e.calls)
      case Some(rest) => Walked(true, rest, e.calls)
  }

  function Stream(s: Search, stack: seq<string>, ts: seq<Token>): (r: Walked)
    ensures r.ok ==> |r.rest| < |ts|
    decreases |ts|, 0
  {
    if ts == [] then Walked(false, [], [])
    else if !ts[0].Delim? then Walked(true, ts[1..], [])
    else if ts[0].c == '[' then StreamArray(s, stack, ts[1..])
    else if ts[0].c == '{' && !s.Searched(stack) then StreamMembers(s, stack, ts[1..])
    else Walked(false, ts[1..], [])
  }

  /** The loop over the members of an object; an empty name ends it. */
  function StreamMembers(s: Search, stack: seq<string>, ts: seq<Token>): (r: Walked)
    ensures r.ok ==> |r.rest| < |ts|
    decreases |ts|, 1
  {
    if ts == [] then Walked(false, [], [])
    else match ts[0]
      case Delim(c) => Walked(c == '}', ts[1..], [])
      case Literal => Walked(false, ts[1..], [])
      case Text(name) =>
        if name == "" then Walked(true, ts[1..], [])
        else
          var v := Stream(s, stack + [name], ts[1..]);
          if !v.ok then v
          else
            var r := StreamMembers(s, stack, v.rest);
            r.(calls := v.calls + r.calls)
  }

  lemma ElementsStep(s: Search, k: nat, ts: seq<Token>, before: seq<Call>)
    requires More(ts) && ParseValue(ts).Some?
    ensures var p, all := ParseValue(ts).value, Elements(s, k, ts);
            if s.accepts(k, p.value) then
              var r := Elements(s, k, p.rest);
              all.ok == r.ok && all.rest == r.rest && before + all.calls == (before + [Call(k, p.value)]) + r.calls
            else !all.ok && all.calls == [Call(k, p.value)]
  {
    hide ParseValue, More;
  }

  lemma MembersStep(s: Search, stack: seq<string>, ts: seq<Token>, before: seq<Call>)
    requires ts != [] && ts[0].Text? && ts[0].s != ""
    ensures var v, all := Stream(s, stack + [ts[0].s], ts[1..]), StreamMembers(s, stack, ts);
            if v.ok then
              var r := StreamMembers(s, stack, v.rest);
              all.ok == r.ok && all.rest == r.rest && before + all.calls == (before + v.calls) + r.calls
            else !all.ok && all.calls == v.calls
  {
  }

  // ----- the walker as it runs

  class Streamer {
    const search: Search
    const tokens: seq<Token>
    var pos: nat
    var stack: seq<string>
    var calls: seq<Call>

    constructor (search: Search, tokens: seq<Token>)
      ensures this.search == search && this.tokens == tokens
      ensures Valid() && Rest() == tokens && stack == [] && calls == []
    {
      this.search, this.tokens := search, tokens;
      pos, stack, calls := 0, [], [];
    }

    predicate Valid()
      reads this
    {
      pos <= |tokens|
    }

    function Rest(): seq<Token>
      requires Valid()
      reads this
    {
      tokens[pos..]
    }

    method GetToken() returns (t: Option<Token>)
      requires Valid()
      modifies this`pos
      ensures Valid()
      ensures if old(Rest()) == [] then t == None && Rest() == []
              else t == Some(old(Rest())[0]) && Rest() == old(Rest())[1..]
    {
      if pos == |tokens| {
        return None;
      }
      t := Some(tokens[pos]);
      pos := pos + 1;
    }

    /** The callback: it decodes one value and accepts it or not. */
    method CallBack(k: nat) returns (ok: bool)
      requires Valid()
      modifies this`pos, this`calls
      ensures Valid()
      ensures match ParseValue(old(Rest()))
              case None => !ok && Rest() == old(Rest()) && calls == old(calls)
              case Some(p) =>
                Rest() == p.rest && calls == old(calls) + [Call(k, p.value)] && ok == search.accepts(k, p.value)
    {
      var p := ParseValue(tokens[pos..]);
      if p.None? {
        return false;
      }
      SuffixOf(tokens[pos..]);
      pos := |tokens| - |p.value.rest|;
      calls := calls + [Call(k, p.value.value)];
      ok := search.accepts(k, p.value.value);
    }

    method SkipToDelim(delim: char) returns (ok: bool)
      requires Valid()
      modifies this`pos
      ensures Valid()
      ensures match SkipTo(delim, old(Rest()))
              case None => !ok
              case Some(rest) => ok && Rest() == rest
      decreases |Rest()|
    {
      ghost var goal := SkipTo(delim, Rest());
      while true
        invariant Valid() && |Rest()| <= |old(Rest())|
        invariant SkipTo(delim, Rest()) == goal
        decreases |Rest()|
      {
        var t := GetToken();
        if t.None? {
          return false;
        }
        if t.value.Delim? {
          var c := t.value.c;
          if c == delim {
            return true;
          }
          var nested := false;
          if c == '[' {
            nested := SkipToDelim(']');
          } else if c == '{' {
            nested := SkipToDelim('}');
          }
          if !nested {
            return false;
          }
        }
      }
    }

    /** getNextName: no name at the end of the object. */
    method GetNextName() returns (ok: bool, name: string)
      requires Valid()
      modifies this`pos
      ensures Valid()
      ensures var ts := old(Rest());
              && (ok <==> ts != [] && (ts[0].Text? || ts[0] == Delim('}')))
              && (ok ==> Rest() == ts[1..] && name == if ts[0].Text? then ts[0].s else "")
    {
      var t := GetToken();
      if t.None? {
        return false, "";
      }
      match t.value
      case Text(s) => return true, s;
      case Delim(c) => return c == '}', "";
      case Literal => return false, "";
    }

    /** The callback loop for the array the walker is in. */
    method StreamElements(k: nat) returns (ok: bool)
      requires Valid()
      modifies this`pos, this`calls
      ensures Valid()
      ensures var r := Elements(search, k, old(Rest()));
              ok == r.ok && calls == old(calls) + r.calls && (ok ==> Rest() == r.rest)
    {
      hide More, ParseValue;
      ghost var goal, before := Elements(search, k, Rest()), calls;
      while More(Rest())
        invariant Valid()
        invariant goal.ok == Elements(search, k, Rest()).ok && goal.rest == Elements(search, k, Rest()).rest
        invariant before + goal.calls == calls + Elements(search, k, Rest()).calls
        decreases |Rest()|
      {
        if ParseValue(Rest()).Some? {
          ElementsStep(search, k, Rest(), calls);
        }
        ok := CallBack(k);
        if !ok {
          return false;
        }
      }
      return true;
    }

    /** stream(). */
    method StreamValue() returns (ok: bool)
      requires Valid()
      modifies this
      ensures Valid()
      ensures var r := Stream(search, old(stack), old(Rest()));
              ok == r.ok && calls == old(calls) + r.calls && (ok ==> Rest() == r.rest && stack == old(stack))
      decreases |Rest()|
    {
      var t := GetToken();
      if t.None? {
        return false;
      }
      if !t.value.Delim? {
        return true;
      }
      var k := search.Find(Join(stack, '.'));
      if t.value.c == '[' {
        if k < |search.paths| {
          ok := StreamElements(k);
          if !ok {
            return false;
          }
        }
        ok := SkipToDelim(']');
        return;
      } else if t.value.c == '{' {
        if k < |search.paths| {
          return false;
        }
        ok := StreamObject();
        return;
      } else {
        return false;
      }
    }

    /** The member loop of stream(). */
    method StreamObject() returns (ok: bool)
      requires Valid()
      modifies this
      ensures Valid()
      ensures var r := StreamMembers(search, old(stack), old(Rest()));
              ok == r.ok && calls == old(calls) + r.calls && (ok ==> Rest() == r.rest && stack == old(stack))
      decreases |Rest()|, 1
    {
      hide Stream;
      ghost var goal, before := StreamMembers(search, stack, Rest()), calls;
      while true
        invariant Valid() && stack == old(stack) && |Rest()| <= |old(Rest())|
        invariant goal.ok == StreamMembers(search, stack, Rest()).ok
        invariant goal.rest == StreamMembers(search, stack, Rest()).rest
        invariant before + goal.calls == calls + StreamMembers(search, stack, Rest()).calls
        decreases |Rest()|
      {
        ghost var ts, made := Rest(), calls;
        var name;
        ok, name := GetNextName();
        if !ok {
          return false;
        }
        if name == "" {
          return true;
        }
        MembersStep(search, stack, ts, made);
        hide StreamMembers;
        var saved := stack;
        stack := saved + [name];
        ok := StreamValue();
        if !ok {
          return false;
        }
        stack := saved;
      }
    }
  }

  lemma {:induction false} SuffixOf(ts: seq<Token>)
    ensures ParseValue(ts).Some? ==> ParseValue(ts).value.rest == ts[|ts| - |ParseValue(ts).value.rest|..]
    decreases |ts|, 0
  {
    if ts != [] && ts[0] == Delim('[') {
      ItemsSuffix(ts[1..]);
    } else if ts != [] && ts[0] == Delim('{') {
      MembersSuffix(ts[1..]);
    }
  }

  lemma {:induction false} ItemsSuffix(ts: seq<Token>)
    ensures ParseItems(ts).Some? ==> ParseItems(ts).value.rest == ts[|ts| - |ParseItems(ts).value.rest|..]
    decreases |ts|, 1
  {
    if ts != [] && ts[0] != Delim(']') {
      SuffixOf(ts);
      if ParseValue(ts).Some? {
        ItemsSuffix(ParseValue(ts).value.rest);
      }
    }
  }

  lemma {:induction false} MembersSuffix(ts: seq<Token>)
    ensures ParseMembers(ts).Some? ==> ParseMembers(ts).value.rest == ts[|ts| - |ParseMembers(ts).value.rest|..]
    decreases |ts|, 1
  {
    if ts != [] && ts[0].Text? {
      SuffixOf(ts[1..]);
      if ParseValue(ts[1..]).Some? {
        MembersSuffix(ParseValue(ts[1..]).value.rest);
      }
    }
  }

  // ----- a query on the value

  /** How a value is visited: whether nothing stands in the way, and the calls it calls for. */
  datatype Visit = Visit(ok: bool, calls: seq<Call>)

  /** Array elements in order, up to one that is not accepted. */
  function Offer(s: Search, k: nat, items: seq<Json>): Visit {
    if items == [] then Visit(true, [])
    else if !s.accepts(k, items[0]) then Visit(false, [Call(k, items[0])])
    else
      var r := Offer(s, k, items[1..]);
      Visit(r.ok, [Call(k, items[0])] + r.calls)
  }

  /** The path query: arrays at searched paths are offered, objects there are refused. */
  function Query(s: Search, stack: seq<string>, v: Json): Visit
    decreases v
  {
    match v
    case Arr(items) => if s.Searched(stack) then Offer(s, s.At(stack), items) else Visit(true, [])
    case Obj(members) => if s.Searched(stack) then Visit(false, []) else QueryMembers(s, stack, members)
    case _ => Visit(true, [])
  }

  function QueryMembers(s: Search, stack: seq<string>, members: seq<Member>): Visit
    decreases members
  {
    if members == [] then Visit(true, [])
    else
      var v := Query(s, stack + [members[0].key], members[0].value);
      if !v.ok then v
      else
        var r := QueryMembers(s, stack, members[1..]);
        Visit(r.ok, v.calls + r.calls)
  }

  /** Every object outside arrays has only non-empty names. */
  predicate Named(v: Json) {
    v.Obj? ==> MembersNamed(v.members)
  }

  predicate MembersNamed(members: seq<Member>) {
    members != [] ==> members[0].key != "" && Named(members[0].value) && MembersNamed(members[1..])
  }

  // ----- skipping and decoding whole values

  lemma {:induction false} SkipOver(delim: char, v: Json, rest: seq<Token>)
    requires delim == ']' || delim == '}'
    ensures SkipTo(delim, Flatten(v) + rest) == SkipTo(delim, rest)
    decreases v, 1
  {
    var ts := Flatten(v) + rest;
    match v
    case Str(s) => assert ts[1..] == rest;
    case Plain => assert ts[1..] == rest;
    case Arr(items) =>
      ArrayTokens(items, rest);
      SkipItems(items, rest);
    case Obj(members) =>
      ObjectTokens(members, rest);
      SkipMembers(members, rest);
  }

  lemma {:induction false} SkipItems(items: seq<Json>, rest: seq<Token>)
    ensures SkipTo(']', FlattenAll(items) + ([Delim(']')] + rest)) == Some(rest)
    decreases items, 0
  {
    var end := [Delim(']')] + rest;
    if items == [] {
      assert [] + end == end;
    } else {
      SkipOver(']', items[0], FlattenAll(items[1..]) + end);
      SkipItems(items[1..], rest);
      ItemTokens(items, end);
    }
  }

  lemma {:induction false} SkipMembers(members: seq<Member>, rest: seq<Token>)
    ensures SkipTo('}', FlattenMembers(members) + ([Delim('}')] + rest)) == Some(rest)
    decreases members, 0
  {
    var end := [Delim('}')] + rest;
    if members == [] {
      assert [] + end == end;
    } else {
      var m, more := members[0], FlattenMembers(members[1..]) + end;
      SkipOver('}', m.value, more);
      SkipMembers(members[1..], rest);
      MemberTokens(members, end);
    }
  }

  lemma ArrayTokens(items: seq<Json>, rest: seq<Token>)
    ensures var ts := Flatten(Arr(items)) + rest;
            ts[0] == Delim('[') && ts[1..] == FlattenAll(items) + ([Delim(']')] + rest)
  {
    hide FlattenAll;
    Associative([Delim('[')] + FlattenAll(items), [Delim(']')], rest);
    Associative([Delim('[')], FlattenAll(items), [Delim(']')] + rest);
  }

  lemma ObjectTokens(members: seq<Member>, rest: seq<Token>)
    ensures var ts := Flatten(Obj(members)) + rest;
            ts[0] == Delim('{') && ts[1..] == FlattenMembers(members) + ([Delim('}')] + rest)
  {
    hide FlattenMembers;
    Associative([Delim('{')] + FlattenMembers(members), [Delim('}')], rest);
    Associative([Delim('{')], FlattenMembers(members), [Delim('}')] + rest);
  }

  lemma ItemParsed(ts: seq<Token>, p: Parsed<Json>, q: Parsed<seq<Json>>)
    requires More(ts) && ParseValue(ts) == Some(p) && ParseItems(p.rest) == Some(q)
    ensures ParseItems(ts) == Some(Parsed([p.value] + q.value, q.rest))
  {
  }

  lemma MemberParsed(key: string, ts: seq<Token>, p: Parsed<Json>, q: Parsed<seq<Member>>)
    requires ParseValue(ts) == Some(p) && ParseMembers(p.rest) == Some(q)
    ensures ParseMembers([Text(key)] + ts) == Some(Parsed([Member(key, p.value)] + q.value, q.rest))
  {
    assert ([Text(key)] + ts)[1..] == ts;
  }

  /** Decoding is the inverse of flattening. */
  lemma {:induction false} ParseFlatten(v: Json, rest: seq<Token>)
    ensures ParseValue(Flatten(v) + rest) == Some(Parsed(v, rest))
    ensures More(Flatten(v) + rest)
    decreases v, 1
  {
    var ts := Flatten(v) + rest;
    match v
    case Str(s) => assert ts[1..] == rest;
    case Plain => assert ts[1..] == rest;
    case Arr(items) =>
      hide Flatten, FlattenAll, ParseItems;
      ArrayTokens(items, rest);
      ParseFlattenAll(items, rest);
    case Obj(members) =>
      hide Flatten, FlattenMembers, ParseMembers;
      ObjectTokens(members, rest);
      ParseFlattenMembers(members, rest);
  }

  lemma {:induction false} ParseFlattenAll(items: seq<Json>, rest: seq<Token>)
    ensures ParseItems(FlattenAll(items) + ([Delim(']')] + rest)) == Some(Parsed(items, rest))
    decreases items, 0
  {
    var end := [Delim(']')] + rest;
    if items == [] {
      assert [] + end == end;
    } else {
      var more := FlattenAll(items[1..]) + end;
      hide *;
      ParseFlatten(items[0], more);
      ParseFlattenAll(items[1..], rest);
      ItemTokens(items, end);
      ItemParsed(Flatten(items[0]) + more, Parsed(items[0], more), Parsed(items[1..], rest));
      Regroup(items, []);
    }
  }

  lemma {:induction false} ParseFlattenMembers(members: seq<Member>, rest: seq<Token>)
    ensures ParseMembers(FlattenMembers(members) + ([Delim('}')] + rest)) == Some(Parsed(members, rest))
    decreases members, 0
  {
    var end := [Delim('}')] + rest;
    if members == [] {
      assert [] + end == end;
    } else {
      var m, more := members[0], FlattenMembers(members[1..]) + end;
      hide *;
      ParseFlatten(m.value, more);
      ParseFlattenMembers(members[1..], rest);
      MemberTokens(members, end);
      MemberParsed(m.key, Flatten(m.value) + more, Parsed(m.value, more), Parsed(members[1..], rest));
      Regroup(members, []);
    }
  }

  // ----- the walker refines the query

  /** The walk of `ts` behaves as the visit says, and leaves `rest` if it succeeds. */
  predicate Agrees(r: Walked, q: Visit, rest: seq<Token>) {
    r.ok == q.ok && r.calls == q.calls && (r.ok ==> r.rest == rest)
  }

  lemma {:induction false} ElementsOffer(s: Search, k: nat, items: seq<Json>, rest: seq<Token>)
    ensures Agrees(Elements(s, k, FlattenAll(items) + ([Delim(']')] + rest)), Offer(s, k, items), [Delim(']')] + rest)
  {
    var end := [Delim(']')] + rest;
    if items == [] {
      assert [] + end == end;
    } else {
      ParseFlatten(items[0], FlattenAll(items[1..]) + end);
      ElementsOffer(s, k, items[1..], rest);
      hide FlattenAll, Flatten, ParseValue, More;
      ItemTokens(items, end);
    }
  }

  lemma {:induction false} StreamQuery(s: Search, stack: seq<string>, v: Json, rest: seq<Token>)
    requires Named(v)
    ensures Agrees(Stream(s, stack, Flatten(v) + rest), Query(s, stack, v), rest)
    decreases v, 1
  {
    var ts := Flatten(v) + rest;
    match v
    case Str(x) => assert ts[1..] == rest;
    case Plain => assert ts[1..] == rest;
    case Arr(items) =>
      ArrayTokens(items, rest);
      StreamArrayQuery(s, stack, items, rest);
    case Obj(members) =>
      ObjectTokens(members, rest);
      StreamMembersQuery(s, stack, members, rest);
  }

  lemma StreamArrayQuery(s: Search, stack: seq<string>, items: seq<Json>, rest: seq<Token>)
    ensures Agrees(StreamArray(s, stack, FlattenAll(items) + ([Delim(']')] + rest)), Query(s, stack, Arr(items)), rest)
  {
    SkipItems(items, rest);
    ElementsOffer(s, s.At(stack), items, rest);
    assert ([Delim(']')] + rest)[1..] == rest;
  }

  lemma {:induction false} StreamMembersQuery(s: Search, stack: seq<string>, members: seq<Member>, rest: seq<Token>)
    requires MembersNamed(members)
    ensures Agrees(StreamMembers(s, stack, FlattenMembers(members) + ([Delim('}')] + rest)),
                   QueryMembers(s, stack, members), rest)
    decreases members, 0
  {
    var end := [Delim('}')] + rest;
    if members == [] {
      assert [] + end == end;
    } else {
      var m, more := members[0], FlattenMembers(members[1..]) + end;
      StreamQuery(s, stack + [m.key], m.value, more);
      StreamMembersQuery(s, stack, members[1..], rest);
      MemberTokens(members, end);
    }
  }

  lemma MemberTokens(members: seq<Member>, end: seq<Token>)
    requires members != []
    ensures var m, more := members[0], FlattenMembers(members[1..]) + end;
            FlattenMembers(members) + end == [Text(m.key)] + (Flatten(m.value) + more)
    ensures (FlattenMembers(members) + end)[0] == Text(members[0].key)
    ensures (FlattenMembers(members) + end)[1..] == Flatten(members[0].value) + (FlattenMembers(members[1..]) + end)
  {
    hide Flatten;
    var t, v, rest := [Text(members[0].key)], Flatten(members[0].value), FlattenMembers(members[1..]);
    Associative(t + v, rest, end);
    Associative(t, v, rest + end);
    var r := v + (rest + end);
    assert ([Text(members[0].key)] + r)[1..] == r;
  }

  lemma ItemTokens(items: seq<Json>, end: seq<Token>)
    requires items != []
    ensures FlattenAll(items) + end == Flatten(items[0]) + (FlattenAll(items[1..]) + end)
  {
    hide Flatten;
    Associative(Flatten(items[0]), FlattenAll(items[1..]), end);
  }

  // ----- the query in terms of paths

  /** Following member names from `v` leads to `w`; of equal names any may be taken. */
  predicate Leads(v: Json, names: seq<string>, w: Json)
    decreases names
  {
    if names == [] then v == w
    else v.Obj? && exists i | 0 <= i < |v.members| ::
           v.members[i].key == names[0] && Leads(v.members[i].value, names[1..], w)
  }

  /** Nothing at a searched path stands in the way: no object, and no element that is refused. */
  predicate Passable(s: Search, stack: seq<string>, w: Json) {
    s.Searched(stack) ==>
      && !w.Obj?
      && (w.Arr? ==> forall i | 0 <= i < |w.items| :: s.accepts(s.At(stack), w.items[i]))
  }

  /** The call is for an element of an array at a searched path. */
  predicate Called(s: Search, stack: seq<string>, w: Json, c: Call) {
    w.Arr? && s.Searched(stack) && c.k == s.At(stack) && c.value in w.items
  }

  lemma {:induction false} OfferFacts(s: Search, k: nat, items: seq<Json>, c: Call)
    ensures Offer(s, k, items).ok <==> forall i | 0 <= i < |items| :: s.accepts(k, items[i])
    ensures Offer(s, k, items).ok ==> (c in Offer(s, k, items).calls <==> c.k == k && c.value in items)
    ensures Offer(s, k, items).ok ==> |Offer(s, k, items).calls| == |items|
                                      && forall i | 0 <= i < |items| :: Offer(s, k, items).calls[i] == Call(k, items[i])
  {
    if items == [] {
    } else {
      OfferFacts(s, k, items[1..], c);
      assert items == [items[0]] + items[1..];
    }
  }

  lemma LeadsDown(members: seq<Member>, names: seq<string>, w: Json)
    requires members != [] && names != []
    ensures Leads(Obj(members), names, w) <==>
            || (members[0].key == names[0] && Leads(members[0].value, names[1..], w))
            || Leads(Obj(members[1..]), names, w)
  {
    if Leads(Obj(members), names, w) {
      var i :| 0 <= i < |members| && members[i].key == names[0] && Leads(members[i].value, names[1..], w);
      if i > 0 {
        assert members[1..][i - 1] == members[i];
      }
    }
    if Leads(Obj(members[1..]), names, w) {
      var i :| 0 <= i < |members[1..]| && members[1..][i].key == names[0]
               && Leads(members[1..][i].value, names[1..], w);
      assert members[i + 1] == members[1..][i];
    }
  }

  ghost predicate AllPassable(s: Search, stack: seq<string>, v: Json) {
    forall names, w | Leads(v, names, w) :: Passable(s, stack + names, w)
  }

  ghost predicate AllPassableBelow(s: Search, stack: seq<string>, members: seq<Member>) {
    forall names, w | Leads(Obj(members), names, w) && names != [] :: Passable(s, stack + names, w)
  }

  lemma PassableFirst(s: Search, stack: seq<string>, members: seq<Member>)
    requires members != []
    ensures AllPassableBelow(s, stack, members) <==>
            AllPassable(s, stack + [members[0].key], members[0].value) && AllPassableBelow(s, stack, members[1..])
  {
    var m := members[0];
    if AllPassableBelow(s, stack, members) {
      forall names, w | Leads(m.value, names, w) ensures Passable(s, stack + [m.key] + names, w) {
        var all := [m.key] + names;
        assert all[1..] == names;
        LeadsDown(members, all, w);
        assert stack + all == stack + [m.key] + names;
      }
      forall names, w | Leads(Obj(members[1..]), names, w) && names != [] ensures Passable(s, stack + names, w) {
        LeadsDown(members, names, w);
      }
    }
    if AllPassable(s, stack + [m.key], m.value) && AllPassableBelow(s, stack, members[1..]) {
      forall names, w | Leads(Obj(members), names, w) && names != [] ensures Passable(s, stack + names, w) {
        LeadsDown(members, names, w);
        assert stack + [names[0]] + names[1..] == stack + names;
      }
    }
  }

  lemma PassableHere(s: Search, stack: seq<string>, v: Json)
    ensures AllPassable(s, stack, v) <==> Passable(s, stack, v) && (v.Obj? ==> AllPassableBelow(s, stack, v.members))
  {
    assert stack + [] == stack;
    assert Leads(v, [], v);
    if Passable(s, stack, v) && (v.Obj? ==> AllPassableBelow(s, stack, v.members)) {
      forall names, w | Leads(v, names, w) ensures Passable(s, stack + names, w) {
        if v.Obj? {
          assert v == Obj(v.members);
        }
      }
    }
    if AllPassable(s, stack, v) && v.Obj? {
      assert v == Obj(v.members);
    }
  }

  /** The query succeeds exactly if everything its paths lead to is passable. */
  lemma {:induction false} QueryOk(s: Search, stack: seq<string>, v: Json)
    ensures Query(s, stack, v).ok <==> AllPassable(s, stack, v)
    decreases v, 1
  {
    hide AllPassable, AllPassableBelow;
    PassableHere(s, stack, v);
    if v.Obj? && !s.Searched(stack) {
      QueryMembersOk(s, stack, v.members);
    } else if v.Arr? && s.Searched(stack) {
      OfferFacts(s, s.At(stack), v.items, Call(0, v));
    }
  }

  lemma {:induction false} QueryMembersOk(s: Search, stack: seq<string>, members: seq<Member>)
    ensures QueryMembers(s, stack, members).ok <==> AllPassableBelow(s, stack, members)
    decreases members, 0
  {
    if members == [] {
    } else {
      hide AllPassable, AllPassableBelow;
      QueryOk(s, stack + [members[0].key], members[0].value);
      QueryMembersOk(s, stack, members[1..]);
      PassableFirst(s, stack, members);
    }
  }

  ghost predicate SomeCalled(s: Search, stack: seq<string>, v: Json, c: Call) {
    exists names, w :: Leads(v, names, w) && Called(s, stack + names, w, c)
  }

  ghost predicate SomeCalledBelow(s: Search, stack: seq<string>, members: seq<Member>, c: Call) {
    exists names, w :: Leads(Obj(members), names, w) && names != [] && Called(s, stack + names, w, c)
  }

  lemma CalledFirst(s: Search, stack: seq<string>, members: seq<Member>, c: Call)
    requires members != []
    ensures SomeCalledBelow(s, stack, members, c) <==>
            SomeCalled(s, stack + [members[0].key], members[0].value, c) || SomeCalledBelow(s, stack, members[1..], c)
  {
    hide Called;
    var m := members[0];
    if SomeCalled(s, stack + [m.key], m.value, c) {
      var names, w :| Leads(m.value, names, w) && Called(s, stack + [m.key] + names, w, c);
      var all := [m.key] + names;
      assert all[1..] == names;
      LeadsDown(members, all, w);
      assert stack + all == stack + [m.key] + names;
    }
    if SomeCalledBelow(s, stack, members[1..], c) {
      var names, w :| Leads(Obj(members[1..]), names, w) && names != [] && Called(s, stack + names, w, c);
      LeadsDown(members, names, w);
    }
    if SomeCalledBelow(s, stack, members, c) {
      CalledSomewhere(s, stack, members, c);
    }
  }

  lemma CalledSomewhere(s: Search, stack: seq<string>, members: seq<Member>, c: Call)
    requires members != [] && SomeCalledBelow(s, stack, members, c)
    ensures SomeCalled(s, stack + [members[0].key], members[0].value, c) || SomeCalledBelow(s, stack, members[1..], c)
  {
    hide Called;
    var names, w :| Leads(Obj(members), names, w) && names != [] && Called(s, stack + names, w, c);
    LeadsDown(members, names, w);
    assert stack + [names[0]] + names[1..] == stack + names;
  }

  lemma CalledHere(s: Search, stack: seq<string>, v: Json, c: Call)
    ensures SomeCalled(s, stack, v, c) <==>
            Called(s, stack, v, c) || (v.Obj? && SomeCalledBelow(s, stack, v.members, c))
  {
    assert stack + [] == stack;
    assert Leads(v, [], v);
    if v.Obj? {
      assert v == Obj(v.members);
    }
  }

  /** A successful query calls for exactly the elements of the arrays at searched paths. */
  lemma {:induction false} QueryCalls(s: Search, stack: seq<string>, v: Json, c: Call)
    requires Query(s, stack, v).ok
    ensures c in Query(s, stack, v).calls <==> SomeCalled(s, stack, v, c)
    decreases v, 1
  {
    hide SomeCalled, SomeCalledBelow;
    CalledHere(s, stack, v, c);
    if v.Obj? {
      QueryMembersCalls(s, stack, v.members, c);
    } else if v.Arr? && s.Searched(stack) {
      OfferFacts(s, s.At(stack), v.items, c);
    }
  }

  lemma {:induction false} QueryMembersCalls(s: Search, stack: seq<string>, members: seq<Member>, c: Call)
    requires QueryMembers(s, stack, members).ok
    ensures c in QueryMembers(s, stack, members).calls <==> SomeCalledBelow(s, stack, members, c)
    decreases members, 0
  {
    if members != [] {
      hide SomeCalled, SomeCalledBelow;
      QueryCalls(s, stack + [members[0].key], members[0].value, c);
      QueryMembersCalls(s, stack, members[1..], c);
      CalledFirst(s, stack, members, c);
    } else {
      forall names, w | names != [] ensures !Leads(Obj([]), names, w) {
      }
    }
  }

  // ----- an empty name ends an object early

  /** Braces opened less braces closed. */
  function Braces(ts: seq<Token>): int {
    if ts == [] then 0
    else (if ts[0] == Delim('{') then 1 else if ts[0] == Delim('}') then -1 else 0) + Braces(ts[1..])
  }

  lemma {:induction false} SkipBraces(delim: char, ts: seq<Token>)
    requires delim == ']' || delim == '}'
    ensures var r := SkipTo(delim, ts); r.Some? ==> Braces(ts) - Braces(r.value) == if delim == '}' then -1 else 0
    decreases |ts|
  {
    if ts == [] {
    } else {
      if ts[0].Delim? && (ts[0].c == '[' || ts[0].c == '{') {
        var r := SkipTo(if ts[0].c == '[' then ']' else '}', ts[1..]);
        SkipBraces(if ts[0].c == '[' then ']' else '}', ts[1..]);
        if r.Some? {
          SkipBraces(delim, r.value);
        }
      } else if !ts[0].Delim? {
        SkipBraces(delim, ts[1..]);
      }
    }
  }

  lemma {:induction false} ParseBraces(ts: seq<Token>)
    ensures ParseValue(ts).Some? ==> Braces(ts) == Braces(ParseValue(ts).value.rest)
    decreases |ts|, 0
  {
    if ts != [] && ts[0] == Delim('[') {
      ParseItemsBraces(ts[1..]);
    } else if ts != [] && ts[0] == Delim('{') {
      ParseMembersBraces(ts[1..]);
    }
  }

  lemma {:induction false} ParseItemsBraces(ts: seq<Token>)
    ensures ParseItems(ts).Some? ==> Braces(ts) == Braces(ParseItems(ts).value.rest)
    decreases |ts|, 1
  {
    if ts != [] && ts[0] != Delim(']') {
      ParseBraces(ts);
      if ParseValue(ts).Some? {
        ParseItemsBraces(ParseValue(ts).value.rest);
      }
    }
  }

  lemma {:induction false} ParseMembersBraces(ts: seq<Token>)
    ensures ParseMembers(ts).Some? ==> Braces(ts) == Braces(ParseMembers(ts).value.rest) - 1
    decreases |ts|, 1
  {
    if ts != [] && ts[0].Text? {
      ParseBraces(ts[1..]);
      if ParseValue(ts[1..]).Some? {
        ParseMembersBraces(ParseValue(ts[1..]).value.rest);
      }
    }
  }

  lemma {:induction false} ElementsBraces(s: Search, k: nat, ts: seq<Token>)
    ensures Elements(s, k, ts).ok ==> Braces(ts) == Braces(Elements(s, k, ts).rest)
    decreases |ts|
  {
    if More(ts) && ParseValue(ts).Some? {
      ParseBraces(ts);
      ElementsBraces(s, k, ParseValue(ts).value.rest);
    }
  }

  /** A successful walk never closes more braces than it opens. */
  lemma {:induction false} StreamBraces(s: Search, stack: seq<string>, ts: seq<Token>)
    ensures Stream(s, stack, ts).ok ==> Braces(ts) >= Braces(Stream(s, stack, ts).rest)
    decreases |ts|, 0
  {
    if ts != [] && ts[0] == Delim('[') {
      if s.Searched(stack) {
        ElementsBraces(s, s.At(stack), ts[1..]);
      }
      SkipBraces(']', if s.Searched(stack) then Elements(s, s.At(stack), ts[1..]).rest else ts[1..]);
    } else if ts != [] && ts[0] == Delim('{') {
      StreamMembersBraces(s, stack, ts[1..]);
    }
  }

  lemma {:induction false} StreamMembersBraces(s: Search, stack: seq<string>, ts: seq<Token>)
    ensures StreamMembers(s, stack, ts).ok ==> Braces(ts) >= Braces(StreamMembers(s, stack, ts).rest) - 1
    decreases |ts|, 1
  {
    if ts != [] && ts[0].Text? && ts[0].s != "" {
      StreamBraces(s, stack + [ts[0].s], ts[1..]);
      var v := Stream(s, stack + [ts[0].s], ts[1..]);
      if v.ok {
        StreamMembersBraces(s, stack, v.rest);
      }
    }
  }

  /** With an empty name somewhere outside arrays, a walk that succeeds stops inside the value. */
  lemma {:induction false} UnnamedStopsEarly(s: Search, stack: seq<string>, v: Json, rest: seq<Token>)
    requires !Named(v)
    ensures var r := Stream(s, stack, Flatten(v) + rest); r.ok ==> Braces(r.rest) < Braces(Flatten(v) + rest)
    decreases v, 1
  {
    var ts := Flatten(v) + rest;
    UnnamedMembersStopEarly(s, stack, v.members, rest);
    assert ts[1..] == FlattenMembers(v.members) + ([Delim('}')] + rest);
  }

  lemma {:induction false} UnnamedMembersStopEarly(s: Search, stack: seq<string>, members: seq<Member>,
                                                   rest: seq<Token>)
    requires !MembersNamed(members)
    ensures var ts := FlattenMembers(members) + ([Delim('}')] + rest);
            var r := StreamMembers(s, stack, ts); r.ok ==> Braces(r.rest) <= Braces(ts)
    decreases members, 0
  {
    var end := [Delim('}')] + rest;
    var ts, m, more := FlattenMembers(members) + end, members[0], FlattenMembers(members[1..]) + end;
    MemberTokens(members, end);
    if m.key != "" {
      var v := Stream(s, stack + [m.key], ts[1..]);
      if v.ok {
        if Named(m.value) {
          StreamQuery(s, stack + [m.key], m.value, more);
          UnnamedMembersStopEarly(s, stack, members[1..], rest);
          ValueBraces(m.value, more);
        } else {
          UnnamedStopsEarly(s, stack + [m.key], m.value, more);
          StreamMembersBraces(s, stack, v.rest);
        }
      }
    }
  }

  lemma ValueBraces(v: Json, rest: seq<Token>)
    ensures Braces(Flatten(v) + rest) == Braces(rest)
  {
    ParseFlatten(v, rest);
    ParseBraces(Flatten(v) + rest);
  }

  /**
   The walk consumes exactly the value exactly if no object on the way has an empty name and nothing at a
   searched path stands in the way.
  */
  lemma StreamExactIff(s: Search, stack: seq<string>, v: Json, rest: seq<Token>)
    ensures var r := Stream(s, stack, Flatten(v) + rest);
            && (r.ok && r.rest == rest <==> Named(v) && AllPassable(s, stack, v))
            && (Named(v) ==> Agrees(r, Query(s, stack, v), rest))
  {
    QueryOk(s, stack, v);
    if Named(v) {
      StreamQuery(s, stack, v, rest);
    } else {
      UnnamedStopsEarly(s, stack, v, rest);
      ValueBraces(v, rest);
    }
  }

  // ----- searched paths by their components

  /** The components of member names one after another; a dot in a name makes several of it. */
  function Parts(names: seq<string>): seq<string> {
    if names == [] then [] else Split(names[0], '.') + Parts(names[1..])
  }

  /** The path has the components of the names; of no names, it is empty. */
  predicate Hits(path: string, names: seq<string>) {
    if names == [] then path == "" else Split(path, '.') == Parts(names)
  }

  /** The first of the searched paths that the names hit. */
  predicate FirstAt(paths: seq<string>, names: seq<string>, k: nat) {
    k < |paths| && Hits(paths[k], names) && forall j | 0 <= j < k :: !Hits(paths[j], names)
  }

  lemma {:induction false} SplitOfJoin(names: seq<string>)
    requires names != []
    ensures Split(Join(names, '.'), '.') == Parts(names)
  {
    if |names| == 1 {
      assert Parts(names[1..]) == [];
    } else {
      SplitOfJoin(names[1..]);
      SplitConcat(names[0], Join(names[1..], '.'), '.');
    }
  }

  lemma HitsIff(path: string, names: seq<string>)
    ensures Hits(path, names) <==> path == Join(names, '.')
  {
    if names != [] {
      SplitOfJoin(names);
      JoinSplit(path, '.');
      JoinSplit(Join(names, '.'), '.');
    }
  }

  lemma FirstAtIff(s: Search, names: seq<string>, k: nat)
    ensures FirstAt(s.paths, names, k) <==> s.Searched(names) && k == s.At(names)
  {
    forall j | 0 <= j < |s.paths| ensures Hits(s.paths[j], names) <==> s.paths[j] == Join(names, '.') {
      HitsIff(s.paths[j], names);
    }
  }

  /** Names without dots hit the path of which they are the components. */
  lemma {:induction false} PartsOfPlain(names: seq<string>)
    requires AllFree(names, '.')
    ensures Parts(names) == names
  {
    if names == [] {
    } else {
      SplitFree(names[0], '.');
      PartsOfPlain(names[1..]);
    }
  }

  lemma PlainHits(path: string, names: seq<string>)
    requires AllFree(names, '.') && names != []
    ensures Hits(path, names) <==> Split(path, '.') == names
  {
    PartsOfPlain(names);
  }

  /** A name with a dot hits what two names hit. */
  lemma DottedHits(path: string, a: string, b: string, rest: seq<string>)
    ensures Hits(path, [a + "." + b] + rest) <==> Hits(path, [a, b] + rest)
  {
    SplitConcat(a, b, '.');
    assert ([a + "." + b] + rest)[1..] == rest;
    assert ([a, b] + rest)[1..] == [b] + rest && ([b] + rest)[1..] == rest;
    assert Parts([a + "." + b] + rest) == Split(a + "." + b, '.') + Parts(rest);
    assert Parts([a, b] + rest) == Split(a, '.') + Parts([b] + rest);
    assert Parts([b] + rest) == Split(b, '.') + Parts(rest);
    Associative(Split(a, '.'), Split(b, '.'), Parts(rest));
  }

  /** Where the names lead nothing stands in the way of a search: no object, no element that is refused. */
  ghost predicate Clear(s: Search, names: seq<string>, w: Json) {
    forall k | FirstAt(s.paths, names, k) ::
      !w.Obj? && (w.Arr? ==> forall i | 0 <= i < |w.items| :: s.accepts(k, w.items[i]))
  }

  lemma ClearIff(s: Search, names: seq<string>, w: Json)
    ensures Clear(s, names, w) <==> Passable(s, names, w)
  {
    forall k: nat ensures FirstAt(s.paths, names, k) <==> s.Searched(names) && k == s.At(names) {
      FirstAtIff(s, names, k);
    }
    if s.Searched(names) {
      assert FirstAt(s.paths, names, s.At(names));
    }
  }

  /** The call is for an element of the array that the names lead to, and its number is the first path they hit. */
  ghost predicate CallFor(s: Search, v: Json, c: Call) {
    exists names, w :: Leads(v, names, w) && w.Arr? && c.value in w.items && FirstAt(s.paths, names, c.k)
  }

  lemma CallForIff(s: Search, v: Json, c: Call)
    ensures CallFor(s, v, c) <==> SomeCalled(s, [], v, c)
  {
    if CallFor(s, v, c) {
      var names, w :| Leads(v, names, w) && w.Arr? && c.value in w.items && FirstAt(s.paths, names, c.k);
      FirstAtIff(s, names, c.k);
      assert [] + names == names;
      assert Called(s, [] + names, w, c);
    }
    if SomeCalled(s, [], v, c) {
      var names, w :| Leads(v, names, w) && Called(s, [] + names, w, c);
      assert [] + names == names;
      FirstAtIff(s, names, c.k);
    }
  }

  lemma AllClearIff(s: Search, v: Json)
    ensures (forall names, w | Leads(v, names, w) :: Clear(s, names, w)) <==> AllPassable(s, [], v)
  {
    forall names, w | Leads(v, names, w) ensures Clear(s, names, w) <==> Passable(s, [] + names, w) {
      assert [] + names == names;
      ClearIff(s, names, w);
    }
  }

  /**
   The walk of a value with non-empty names: it succeeds exactly if everything its names lead to is clear, and
   then calls for exactly the elements of the arrays at paths with the components of the names.
  */
  lemma WalkCalls(s: Search, v: Json, rest: seq<Token>, c: Call)
    requires Named(v)
    ensures var r := Stream(s, [], Flatten(v) + rest);
            && (r.ok <==> forall names, w | Leads(v, names, w) :: Clear(s, names, w))
            && (r.ok ==> r.rest == rest && (c in r.calls <==> CallFor(s, v, c)))
  {
    hide Stream, Query, Clear, AllPassable, CallFor, SomeCalled, Leads;
    StreamQuery(s, [], v, rest);
    QueryOk(s, [], v);
    AllClearIff(s, v);
    if Query(s, [], v).ok {
      QueryCalls(s, [], v, c);
      CallForIff(s, v, c);
    }
  }

  /** A walk that does not start at a value fails without a call. */
  lemma WalkRefuses(s: Search, stack: seq<string>, ts: seq<Token>)
    requires ts == [] || (ts[0].Delim? && ts[0].c != '[' && ts[0].c != '{')
    ensures !Stream(s, stack, ts).ok && Stream(s, stack, ts).calls == []
  {
  }

  // ----- the order of the calls

  /** An array outside of other arrays, with the names that lead to it. */
  datatype Found = Found(names: seq<string>, items: seq<Json>)

  /** All of them, in the order of the text. */
  function Arrays(names: seq<string>, v: Json): seq<Found>
    decreases v
  {
    match v
    case Arr(items) => [Found(names, items)]
    case Obj(members) => MemberArrays(names, members)
    case _ => []
  }

  function MemberArrays(names: seq<string>, members: seq<Member>): seq<Found>
    decreases members
  {
    if members == [] then []
    else Arrays(names + [members[0].key], members[0].value) + MemberArrays(names, members[1..])
  }

  function Each(k: nat, items: seq<Json>): seq<Call> {
    seq(|items|, i requires 0 <= i < |items| => Call(k, items[i]))
  }

  /** The number of the first path that the names hit, or |paths|. */
  function FirstHit(paths: seq<string>, names: seq<string>): (k: nat)
    ensures k <= |paths| && (k < |paths| <==> FirstAt(paths, names, k))
    ensures forall j | 0 <= j < k :: !Hits(paths[j], names)
  {
    if paths == [] || Hits(paths[0], names) then 0 else 1 + FirstHit(paths[1..], names)
  }

  /** The calls that arrays call for, one after another. */
  function CallsFor(paths: seq<string>, found: seq<Found>): seq<Call> {
    if found == [] then []
    else
      var k := FirstHit(paths, found[0].names);
      (if k < |paths| then Each(k, found[0].items) else []) + CallsFor(paths, found[1..])
  }

  lemma {:induction false} CallsConcat(paths: seq<string>, a: seq<Found>, b: seq<Found>)
    ensures CallsFor(paths, a + b) == CallsFor(paths, a) + CallsFor(paths, b)
  {
    if a == [] {
      assert a + b == b;
    } else {
      CallsConcat(paths, a[1..], b);
      CallsFirst(paths, a[0], a[1..]);
      CallsFirst(paths, a[0], a[1..] + b);
      hide *;
      Regroup(a, b);
      Associative(CallsFor(paths, [a[0]]), CallsFor(paths, a[1..]), CallsFor(paths, b));
    }
  }

  lemma CallsFirst(paths: seq<string>, x: Found, rest: seq<Found>)
    ensures CallsFor(paths, [x] + rest) == CallsFor(paths, [x]) + CallsFor(paths, rest)
  {
    assert ([x] + rest)[1..] == rest && [x][1..] == [];
  }

  lemma {:induction false} OfferOrder(s: Search, k: nat, items: seq<Json>)
    ensures Offer(s, k, items).calls <= Each(k, items)
    ensures Offer(s, k, items).ok ==> Offer(s, k, items).calls == Each(k, items)
  {
    if items == [] {
    } else {
      OfferOrder(s, k, items[1..]);
      assert Each(k, items) == [Call(k, items[0])] + Each(k, items[1..]);
    }
  }

  lemma FirstHitIsAt(s: Search, names: seq<string>)
    ensures FirstHit(s.paths, names) == s.At(names)
  {
    var k := FirstHit(s.paths, names);
    FirstAtIff(s, names, k);
    FirstAtIff(s, names, s.At(names));
  }

  /** The calls are those the arrays call for, in the order of the text; one that fails stops on the way. */
  lemma {:induction false} QueryOrder(s: Search, stack: seq<string>, v: Json)
    ensures var q, all := Query(s, stack, v), CallsFor(s.paths, Arrays(stack, v));
            q.calls <= all && (q.ok ==> q.calls == all)
    decreases v, 1
  {
    FirstHitIsAt(s, stack);
    match v
    case Str(_) =>
    case Plain =>
    case Arr(items) =>
      OfferOrder(s, s.At(stack), items);
      assert [Found(stack, items)][1..] == [];
    case Obj(members) =>
      QueryMembersOrder(s, stack, members);
  }

  lemma {:induction false} QueryMembersOrder(s: Search, stack: seq<string>, members: seq<Member>)
    ensures var q, all := QueryMembers(s, stack, members), CallsFor(s.paths, MemberArrays(stack, members));
            q.calls <= all && (q.ok ==> q.calls == all)
    decreases members, 0
  {
    if members == [] {
    } else {
      hide Query, Arrays, CallsFor;
      var m := members[0];
      QueryOrder(s, stack + [m.key], m.value);
      QueryMembersOrder(s, stack, members[1..]);
      CallsConcat(s.paths, Arrays(stack + [m.key], m.value), MemberArrays(stack, members[1..]));
    }
  }

  /** The same of the walk. */
  lemma WalkOrder(s: Search, v: Json, rest: seq<Token>)
    requires Named(v)
    ensures var r, all := Stream(s, [], Flatten(v) + rest), CallsFor(s.paths, Arrays([], v));
            r.calls <= all && (r.ok ==> r.calls == all)
  {
    hide *;
    StreamQuery(s, [], v, rest);
    AgreesCalls(Stream(s, [], Flatten(v) + rest), Query(s, [], v), rest);
    QueryOrder(s, [], v);
  }

  lemma AgreesCalls(r: Walked, q: Visit, rest: seq<Token>)
    requires Agrees(r, q, rest)
    ensures r.ok == q.ok && r.calls == q.calls
  {
  }

  /** An object with an empty name: the walk reports success with most of it unread, and misses the array. */
  lemma EmptyNameMisses(s: Search)
    requires s.paths == ["a"]
    ensures var v := Obj([Member("", Plain), Member("a", Arr([Plain]))]);
            && Stream(s, [], Flatten(v)) == Walked(true, Flatten(v)[2..], [])
            && !Named(v) && SomeCalled(s, [], v, Call(0, Plain))
  {
    var v := Obj([Member("", Plain), Member("a", Arr([Plain]))]);
    var w := Arr([Plain]);
    assert Flatten(v)[0] == Delim('{') && Flatten(v)[1] == Text("");
    assert v.members[1] == Member("a", w);
    assert Leads(w, [], w);
    assert Leads(v, ["a"], w) by {
      assert ["a"][1..] == [];
    }
    assert [] + ["a"] == ["a"];
    assert Called(s, ["a"], w, Call(0, Plain));
    assert !s.Searched([]);
    assert Flatten(v)[1..][1..] == Flatten(v)[2..];
  }
}
