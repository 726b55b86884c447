/**
 The keys of flattened trees (stores/flatten.go): how a path of tokens is printed, how tokenize
 reads it back, and exactly which paths survive that.
 */
module Tokens {
  datatype Token = MapToken(key: string) | ListToken(position: int)

  type Path = seq<Token>

  const MAP_SEPARATOR := "__map_"
  const LIST_SEPARATOR := "__list_"

  // ---------- Numbers ----------

  const MAX_INT := 0x7FFF_FFFF_FFFF_FFFF

  function Digit(d: nat): char
    requires d < 10
  {
    ('0' as int + d) as char
  }

  predicate IsDigit(c: char) {
    '0' <= c <= '9'
  }

  /** fmt.Sprintf("%d", n). */
  function Decimal(n: nat): (s: string)
    ensures s != [] && forall i :: 0 <= i < |s| ==> IsDigit(s[i])
  {
    if n < 10 then [Digit(n)] else Decimal(n / 10) + [Digit(n % 10)]
  }

  function Number(s: string): nat
    requires forall i :: 0 <= i < |s| ==> IsDigit(s[i])
  {
    if s == [] then 0
    else
      assert IsDigit(s[|s| - 1]);
      10 * Number(s[..|s| - 1]) + (s[|s| - 1] as int - '0' as int)
  }

  /** strconv.Atoi with its error dropped: 0 for what is no number, the nearest integer of 64 bits
      for what is out of range. */
  function Atoi(s: string): (n: int)
    ensures -MAX_INT - 1 <= n <= MAX_INT
  {
    var digits := if s != [] && s[0] in "+-" then s[1..] else s;
    if digits == [] || exists i :: 0 <= i < |digits| && !IsDigit(digits[i]) then 0
    else
      var n: int := Number(digits);
      if s[0] == '-' then (if n > MAX_INT + 1 then -MAX_INT - 1 else -n)
      else if n > MAX_INT then MAX_INT else n
  }

  lemma {:induction false} NumberOfDecimal(n: nat)
    ensures Number(Decimal(n)) == n
  {
    if n >= 10 {
      NumberOfDecimal(n / 10);
      var s := Decimal(n / 10) + [Digit(n % 10)];
      assert s[..|s| - 1] == Decimal(n / 10);
    }
  }

  lemma AtoiOfDecimal(n: nat)
    requires n <= MAX_INT
    ensures Atoi(Decimal(n)) == n
  {
    var s := Decimal(n);
    NumberOfDecimal(n);
    assert IsDigit(s[0]);
  }

  // ---------- Separators ----------

  datatype State = Normal | InMap | InList

  predicate HasPrefixAt(s: string, i: nat, sep: string) {
    i + |sep| <= |s| && s[i..i + |sep|] == sep
  }

  predicate SeparatorAt(s: string, i: nat) {
    HasPrefixAt(s, i, MAP_SEPARATOR) || HasPrefixAt(s, i, LIST_SEPARATOR)
  }

  function StateAt(s: string, i: nat): State
    requires SeparatorAt(s, i)
  {
    if HasPrefixAt(s, i, MAP_SEPARATOR) then InMap else InList
  }

  /** The length of the separator in front of a token. */
  function Width(state: State): nat {
    match state
    case Normal => 0
    case InMap => 6
    case InList => 7
  }

  lemma SeparatorFacts(s: string, p: nat)
    ensures Width(InMap) == |MAP_SEPARATOR| && Width(InList) == |LIST_SEPARATOR|
    ensures SeparatorAt(s, p) ==>
      p + Width(StateAt(s, p)) <= |s| && Width(StateAt(s, p)) >= 6 && s[p] == '_' && s[p + 1] == '_'
    ensures HasPrefixAt(s, p, MAP_SEPARATOR) ==> SeparatorAt(s, p) && StateAt(s, p) == InMap
    ensures HasPrefixAt(s, p, LIST_SEPARATOR) ==> SeparatorAt(s, p) && StateAt(s, p) == InList
  {
    if HasPrefixAt(s, p, MAP_SEPARATOR) {
      assert s[p..p + 6][0] == '_' && s[p..p + 6][1] == '_' && s[p..p + 6][2] == 'm';
      assert s[p + 2] == 'm';
    }
    if HasPrefixAt(s, p, LIST_SEPARATOR) {
      assert s[p..p + 7][0] == '_' && s[p..p + 7][1] == '_' && s[p..p + 7][2] == 'l';
      assert s[p + 2] == 'l';
    }
  }

  /** A separator inside a stretch of `s` is a separator of `s`. */
  lemma SeparatorInside(s: string, from: nat, to: nat, j: nat)
    requires from <= to <= |s|
    ensures SeparatorAt(s[from..to], j) ==> SeparatorAt(s, from + j) && from + j + 6 <= to
    ensures SeparatorAt(s[from..to], j) ==> StateAt(s[from..to], j) == StateAt(s, from + j)
    ensures SeparatorAt(s, from + j) && from + j + Width(StateAt(s, from + j)) <= to ==> SeparatorAt(s[from..to], j)
  {
    var t := s[from..to];
    SeparatorFacts(t, j);
    SeparatorFacts(s, from + j);
    SliceOfSlice(s, from, to, j, j + 6);
    SliceOfSlice(s, from, to, j, j + 7);
  }

  lemma SliceOfSlice(s: string, from: nat, to: nat, a: nat, b: nat)
    requires from <= to <= |s| && a <= b
    ensures b <= to - from ==> s[from..to][a..b] == s[from + a..from + b]
  {
    if b <= to - from {
      var t, u := s[from..to][a..b], s[from + a..from + b];
      assert |t| == |u|;
      forall i | 0 <= i < |t|
        ensures t[i] == u[i]
      {
        assert t[i] == s[from..to][a + i] == s[from + (a + i)];
      }
    }
  }

  /** The first place from `i` on where a separator starts, or the end. */
  function FindSeparator(s: string, i: nat): (p: nat)
    requires i <= |s|
    ensures i <= p <= |s|
    ensures p < |s| ==> SeparatorAt(s, p)
    ensures forall j :: i <= j < p ==> !SeparatorAt(s, j)
    decreases |s| - i
  {
    if i == |s| || SeparatorAt(s, i) then i else FindSeparator(s, i + 1)
  }

  function MakeToken(state: State, content: string): Token {
    if state == InList then ListToken(Atoi(content)) else MapToken(content)
  }

  /** The tokens of `s` from `start` on, where the content of a token of kind `state` starts. */
  function TokensFrom(s: string, start: nat, state: State): (r: seq<Token>)
    requires start <= |s|
    ensures r != []
    decreases |s| - start
  {
    var p := FindSeparator(s, start);
    if p == |s| then [MakeToken(state, s[start..])]
    else
      SeparatorFacts(s, p);
      [MakeToken(state, s[start..p])] + TokensFrom(s, p + Width(StateAt(s, p)), StateAt(s, p))
  }

  function TokensOf(s: string): seq<Token> {
    TokensFrom(s, 0, Normal)
  }

  /** The loop of the source: one character at a time, with the end of the token before. */
  method Tokenize(path: string) returns (tokens: seq<Token>)
    ensures tokens == TokensOf(path)
  {
    tokens := [];
    var state := Normal;
    var lastTokenEnd: nat := 0;
    var i: nat := 0;
    assert [] + TokensOf(path) == TokensOf(path);
    assert Pending(path, tokens, lastTokenEnd, state);
    hide Pending; hide TokensOf; hide HasPrefixAt; hide SeparatorAt; hide StateAt; hide FinishPrevToken;
    hide NothingFound;
    NothingFoundSoFar(path, 0);
    while i < |path|
      invariant lastTokenEnd + Width(state) <= i <= |path|
      invariant NothingFound(path, lastTokenEnd + Width(state), i)
      invariant Pending(path, tokens, lastTokenEnd, state)
    {
      SeparatorFacts(path, i);
      if HasPrefixAt(path, i, MAP_SEPARATOR) {
        NextToken(path, tokens, state, lastTokenEnd, i);
        tokens := tokens + [FinishPrevToken(path, state, lastTokenEnd, i)];
        lastTokenEnd := i;
        state := InMap;
        i := i + |MAP_SEPARATOR|;
        NothingFoundSoFar(path, i);
      } else if HasPrefixAt(path, i, LIST_SEPARATOR) {
        NextToken(path, tokens, state, lastTokenEnd, i);
        tokens := tokens + [FinishPrevToken(path, state, lastTokenEnd, i)];
        lastTokenEnd := i;
        state := InList;
        i := i + |LIST_SEPARATOR|;
        NothingFoundSoFar(path, i);
      } else {
        NotFound(path, lastTokenEnd + Width(state), i);
        i := i + 1;
      }
    }
    LastToken(path, tokens, state, lastTokenEnd);
    tokens := tokens + [FinishPrevToken(path, state, lastTokenEnd, i)];
  }

  /** The tokens so far, followed by the tokens of what has not been read. */
  ghost predicate Pending(s: string, tokens: seq<Token>, lastTokenEnd: nat, state: State)
    requires lastTokenEnd + Width(state) <= |s|
  {
    TokensOf(s) == tokens + TokensFrom(s, lastTokenEnd + Width(state), state)
  }

  function FinishPrevToken(path: string, state: State, lastTokenEnd: nat, i: nat): Token
    requires lastTokenEnd + Width(state) <= i <= |path|
  {
    MakeToken(state, path[lastTokenEnd + Width(state)..i])
  }

  ghost predicate NothingFound(s: string, from: nat, to: nat) {
    forall j :: from <= j < to ==> !SeparatorAt(s, j)
  }

  lemma NothingFoundSoFar(s: string, i: nat)
    ensures NothingFound(s, i, i)
  {}

  lemma NotFound(s: string, from: nat, i: nat)
    requires NothingFound(s, from, i)
    requires !HasPrefixAt(s, i, MAP_SEPARATOR) && !HasPrefixAt(s, i, LIST_SEPARATOR)
    ensures NothingFound(s, from, i + 1)
  {
    hide HasPrefixAt;
  }

  lemma NextToken(s: string, tokens: seq<Token>, state: State, lastTokenEnd: nat, p: nat)
    requires lastTokenEnd + Width(state) <= p < |s| && SeparatorAt(s, p)
    requires NothingFound(s, lastTokenEnd + Width(state), p) && Pending(s, tokens, lastTokenEnd, state)
    ensures p + Width(StateAt(s, p)) <= |s|
    ensures Pending(s, tokens + [FinishPrevToken(s, state, lastTokenEnd, p)], p, StateAt(s, p))
  {
    hide MakeToken; hide HasPrefixAt; hide SeparatorAt; hide StateAt; hide TokensOf;
    SeparatorFacts(s, p);
    FindIsFirst(s, lastTokenEnd + Width(state), p);
    hide FindSeparator;
  }

  lemma FindIsFirst(s: string, start: nat, p: nat)
    requires start <= p <= |s| && (p < |s| ==> SeparatorAt(s, p)) && NothingFound(s, start, p)
    ensures FindSeparator(s, start) == p
  {
    hide SeparatorAt;
  }

  lemma LastToken(s: string, tokens: seq<Token>, state: State, lastTokenEnd: nat)
    requires lastTokenEnd + Width(state) <= |s|
    requires NothingFound(s, lastTokenEnd + Width(state), |s|) && Pending(s, tokens, lastTokenEnd, state)
    ensures tokens + [FinishPrevToken(s, state, lastTokenEnd, |s|)] == TokensOf(s)
  {
    hide MakeToken; hide HasPrefixAt; hide SeparatorAt; hide StateAt; hide TokensOf;
    FindIsFirst(s, lastTokenEnd + Width(state), |s|);
    hide FindSeparator;
    assert s[lastTokenEnd + Width(state)..] == s[lastTokenEnd + Width(state)..|s|];
  }

  // ---------- Printing ----------

  /** A token behind another one, with its separator. */
  function PrintToken(t: Token): string {
    match t
    case MapToken(key) => MAP_SEPARATOR + key
    case ListToken(position) => LIST_SEPARATOR + if position >= 0 then Decimal(position) else []
  }

  function PrintRest(tokens: seq<Token>): string {
    if tokens == [] then [] else PrintToken(tokens[0]) + PrintRest(tokens[1..])
  }

  /** The flattened key of a path, which starts with the bare key of the top level. */
  function Print(tokens: seq<Token>): string
    requires tokens != [] && tokens[0].MapToken?
  {
    tokens[0].key + PrintRest(tokens[1..])
  }

  /** For instance item "b" of the element with index 10 of the list "a". */
  lemma PathIsPrinted()
    ensures Print([MapToken("a"), ListToken(10), MapToken("b")]) == "a__list_10__map_b"
  {
    var path := [MapToken("a"), ListToken(10), MapToken("b")];
    assert path[1..] == [ListToken(10), MapToken("b")] && path[1..][1..] == [MapToken("b")];
    assert path[1..][1..][1..] == [];
    assert PrintRest([MapToken("b")]) == "__map_b" + [] == "__map_b";
    assert Decimal(10) == Decimal(1) + "0" == "10";
  }

  // ---------- What can be read back ----------

  predicate HasSeparator(s: string) {
    exists i :: 0 <= i < |s| && SeparatorAt(s, i)
  }

  /** A key followed by a separator must not contain a separator once the first underscore of that
      separator is appended; the last key must not contain one itself. */
  predicate Readable(t: Token, last: bool) {
    match t
    case MapToken(key) => !HasSeparator(if last then key else key + "_")
    case ListToken(position) => 0 <= position <= MAX_INT
  }

  predicate ReadablePath(tokens: seq<Token>) {
    forall i :: 0 <= i < |tokens| ==> Readable(tokens[i], i == |tokens| - 1)
  }

  /** A separator cannot overlap with the next one by more than its last underscore. */
  lemma NoLateOverlap(key: string, rest: string, j: nat)
    requires j < |key| && |rest| >= 2 && rest[0] == '_' && rest[1] == '_'
    ensures SeparatorAt(key + rest, j) ==> SeparatorAt(key + "_", j)
  {
    var s, t := key + rest, key + "_";
    assert forall i :: 0 <= i < |key| + 1 ==> s[i] == t[i];
    if HasPrefixAt(s, j, MAP_SEPARATOR) {
      OverlapWith(s, |key|, j, MAP_SEPARATOR);
      assert s[j..j + |MAP_SEPARATOR|] == t[j..j + |MAP_SEPARATOR|];
    }
    if HasPrefixAt(s, j, LIST_SEPARATOR) {
      OverlapWith(s, |key|, j, LIST_SEPARATOR);
      assert s[j..j + |LIST_SEPARATOR|] == t[j..j + |LIST_SEPARATOR|];
    }
  }

  lemma OverlapWith(s: string, k: nat, j: nat, sep: string)
    requires sep == MAP_SEPARATOR || sep == LIST_SEPARATOR
    requires j < k && k + 1 < |s| && s[k] == '_' && s[k + 1] == '_'
    requires HasPrefixAt(s, j, sep)
    ensures j + |sep| <= k + 1
  {}

  lemma {:induction false} TokensBehind(pre: string, s: string, state: State, start: nat)
    requires start <= |s|
    ensures TokensFrom(pre + s, |pre| + start, state) == TokensFrom(s, start, state)
    decreases |s| - start
  {
    hide MakeToken; hide HasPrefixAt; hide SeparatorAt; hide StateAt;
    var all, p := pre + s, FindSeparator(s, start);
    FindBehind(pre, s, start);
    hide FindSeparator;
    assert all[|pre| + start..|pre| + p] == s[start..p];
    assert all[|pre| + start..] == s[start..];
    if p < |s| {
      SeparatorFacts(s, p);
      SeparatorBehind(pre, s, p);
      TokensBehind(pre, s, StateAt(s, p), p + Width(StateAt(s, p)));
    }
  }

  lemma SeparatorBehind(pre: string, s: string, i: nat)
    ensures SeparatorAt(pre + s, |pre| + i) == SeparatorAt(s, i)
    ensures SeparatorAt(s, i) ==> StateAt(pre + s, |pre| + i) == StateAt(s, i)
  {
    var all := pre + s;
    assert s == all[|pre|..|all|];
    SeparatorInside(all, |pre|, |all|, i);
    SeparatorFacts(all, |pre| + i);
    hide HasPrefixAt; hide SeparatorAt; hide StateAt;
  }

  lemma {:induction false} FindBehind(pre: string, s: string, start: nat)
    requires start <= |s|
    ensures FindSeparator(pre + s, |pre| + start) == |pre| + FindSeparator(s, start)
    decreases |s| - start
  {
    hide HasPrefixAt; hide SeparatorAt; hide StateAt;
    if start < |s| {
      SeparatorBehind(pre, s, start);
      FindBehind(pre, s, start + 1);
    }
  }

  /** The content of a readable token ends where the printed path goes on. */
  lemma ContentEnds(content: string, rest: string)
    requires rest == [] ==> !HasSeparator(content)
    requires rest != [] ==> !HasSeparator(content + "_") && SeparatorAt(rest, 0)
    ensures FindSeparator(content + rest, 0) == |content|
  {
    hide HasPrefixAt; hide SeparatorAt; hide StateAt;
    var s := content + rest;
    SeparatorFacts(rest, 0);
    forall j | 0 <= j < |content|
      ensures !SeparatorAt(s, j)
    {
      if rest == [] {
        assert s == content;
      } else {
        NoLateOverlap(content, rest, j);
      }
    }
    if rest != [] {
      SeparatorBehind(content, rest, 0);
    }
    FindIsFirst(s, 0, |content|);
  }

  lemma PrintStartsWithSeparator(t: Token, rest: string)
    ensures var s := PrintToken(t) + rest;
            && SeparatorAt(s, 0)
            && (StateAt(s, 0) == if t.MapToken? then InMap else InList)
  {
    var s := PrintToken(t) + rest;
    SeparatorFacts(s, 0);
    if t.MapToken? {
      assert s[0..6] == MAP_SEPARATOR;
    } else {
      assert s[0..7] == LIST_SEPARATOR;
    }
  }

  /** What the printed token consists of behind its separator. */
  function Content(t: Token): string {
    match t
    case MapToken(key) => key
    case ListToken(position) => if position >= 0 then Decimal(position) else []
  }

  lemma DigitsHoldNoSeparator(s: string, t: string)
    requires forall i :: 0 <= i < |s| ==> IsDigit(s[i])
    requires t == s || t == s + "_"
    ensures !HasSeparator(t)
  {
    hide HasPrefixAt; hide SeparatorAt; hide StateAt;
    forall i | 0 <= i < |t|
      ensures !SeparatorAt(t, i)
    {
      SeparatorFacts(t, i);
      assert i < |s| ==> IsDigit(s[i]) && t[i] == s[i];
    }
  }

  lemma ContentIsReadable(t: Token, last: bool)
    requires Readable(t, last)
    ensures !HasSeparator(if last then Content(t) else Content(t) + "_")
    ensures MakeToken(if t.MapToken? then InMap else InList, Content(t)) == t
  {
    if t.ListToken? {
      AtoiOfDecimal(t.position);
      var s := Decimal(t.position);
      DigitsHoldNoSeparator(s, if last then s else s + "_");
    }
  }

  lemma TailIsReadable(tokens: seq<Token>)
    requires tokens != [] && ReadablePath(tokens)
    ensures ReadablePath(tokens[1..])
  {
    var tail := tokens[1..];
    hide Readable;
    forall i | 0 <= i < |tail|
      ensures Readable(tail[i], i == |tail| - 1)
    {
      assert Readable(tokens[i + 1], i + 1 == |tokens| - 1);
    }
  }

  lemma Regroup<T>(a: seq<T>, b: seq<T>, c: seq<T>, d: seq<T>)
    ensures a + ((b + c) + d) == (a + b) + (c + d)
  {}

  /** One token is read off the front of what is printed. */
  lemma ReadOne(state: State, content: string, t: Token, behind: string)
    requires !HasSeparator(content + "_")
    ensures TokensFrom(content + (PrintToken(t) + behind), 0, state) ==
            [MakeToken(state, content)] + TokensFrom(Content(t) + behind, 0, if t.MapToken? then InMap else InList)
  {
    hide HasPrefixAt; hide SeparatorAt; hide StateAt; hide FindSeparator; hide MakeToken;
    hide HasSeparator; hide Content;
    var rest := PrintToken(t) + behind;
    var s := content + rest;
    PrintStartsWithSeparator(t, behind);
    ContentEnds(content, rest);
    SeparatorBehind(content, rest, 0);
    assert s[0..|content|] == content;
    var next, sep := if t.MapToken? then InMap else InList, if t.MapToken? then MAP_SEPARATOR else LIST_SEPARATOR;
    SeparatorFacts(s, |content|);
    SeparatorThenContent(t);
    Regroup(content, sep, Content(t), behind);
    TokensBehind(content + sep, Content(t) + behind, next, 0);
  }

  lemma {:induction false} ReadBackRest(tokens: seq<Token>, state: State, content: string)
    requires tokens != [] && ReadablePath(tokens)
    requires MakeToken(state, content) == tokens[0]
    requires !HasSeparator(if |tokens| == 1 then content else content + "_")
    ensures TokensFrom(content + PrintRest(tokens[1..]), 0, state) == tokens
    decreases |tokens|
  {
    hide HasPrefixAt; hide SeparatorAt; hide StateAt; hide Readable; hide MakeToken; hide HasSeparator; hide Content;
    var tail, rest := tokens[1..], PrintRest(tokens[1..]);
    TailIsReadable(tokens);
    if tail == [] {
      ContentEnds(content, rest);
      assert content + rest == content && content[0..] == content;
    } else {
      hide TokensFrom; hide FindSeparator;
      var t, behind := tail[0], PrintRest(tail[1..]);
      assert Readable(t, |tail| == 1) by {
        assert Readable(tail[0], 0 == |tail| - 1);
      }
      ContentIsReadable(t, |tail| == 1);
      ReadOne(state, content, t, behind);
      ReadBackRest(tail, if t.MapToken? then InMap else InList, Content(t));
      assert tokens == [tokens[0]] + tail;
    }
  }

  lemma SeparatorThenContent(t: Token)
    ensures PrintToken(t) == (if t.MapToken? then MAP_SEPARATOR else LIST_SEPARATOR) + Content(t)
  {}

  ghost predicate KeysReadable(tokens: seq<Token>) {
    forall i :: 0 <= i < |tokens| && tokens[i].MapToken? ==> Readable(tokens[i], i == |tokens| - 1)
  }

  lemma FirstThenRest(first: Token, rest: seq<Token>)
    requires first.MapToken? ==> Readable(first, rest == [])
    requires KeysReadable(rest)
    ensures KeysReadable([first] + rest)
  {
    hide Readable;
    var r := [first] + rest;
    forall i | 0 <= i < |r| && r[i].MapToken?
      ensures Readable(r[i], i == |r| - 1)
    {
      if i > 0 {
        assert r[i] == rest[i - 1];
      }
    }
  }

  lemma NoSeparatorWithin(s: string, start: nat, end: nat)
    requires start <= end <= |s| && forall j :: start <= j < end - 1 ==> !SeparatorAt(s, j)
    ensures !HasSeparator(s[start..end])
  {
    hide HasPrefixAt; hide SeparatorAt;
    forall j | 0 <= j < end - start
      ensures !SeparatorAt(s[start..end], j)
    {
      SeparatorInside(s, start, end, j);
    }
  }

  /** The stretch of `s` up to the next separator, with the underscore that starts it. */
  lemma StretchHoldsNoSeparator(s: string, start: nat)
    requires start <= |s|
    ensures var p := FindSeparator(s, start);
            !HasSeparator(if p == |s| then s[start..] else s[start..p] + "_")
  {
    hide HasPrefixAt; hide SeparatorAt; hide StateAt; hide HasSeparator;
    var p := FindSeparator(s, start);
    SeparatorFacts(s, p);
    hide FindSeparator;
    if p == |s| {
      NoSeparatorWithin(s, start, p);
      assert s[start..p] == s[start..];
    } else {
      NoSeparatorWithin(s, start, p + 1);
      assert s[start..p + 1] == s[start..p] + "_";
    }
  }

  lemma StretchIsReadable(s: string, start: nat, state: State)
    requires start <= |s|
    ensures var p := FindSeparator(s, start);
            var first := MakeToken(state, if p == |s| then s[start..] else s[start..p]);
            first.MapToken? ==> Readable(first, p == |s|)
  {
    StretchHoldsNoSeparator(s, start);
    hide HasSeparator; hide FindSeparator;
  }

  /** Nothing tokenize returns contains a separator or runs into the next one. */
  lemma {:induction false} TokensAreReadable(s: string, start: nat, state: State)
    requires start <= |s|
    ensures KeysReadable(TokensFrom(s, start, state))
    decreases |s| - start
  {
    hide HasPrefixAt; hide SeparatorAt; hide StateAt; hide KeysReadable; hide Readable; hide MakeToken;
    var p := FindSeparator(s, start);
    SeparatorFacts(s, p);
    StretchIsReadable(s, start, state);
    if p < |s| {
      TokensAreReadable(s, p + Width(StateAt(s, p)), StateAt(s, p));
      FirstThenRest(MakeToken(state, s[start..p]), TokensFrom(s, p + Width(StateAt(s, p)), StateAt(s, p)));
    } else {
      NothingToRead();
      FirstThenRest(MakeToken(state, s[start..]), []);
      assert [MakeToken(state, s[start..])] + [] == [MakeToken(state, s[start..])];
    }
  }

  lemma NothingToRead()
    ensures KeysReadable([])
  {}

  /** Exactly the readable paths are recovered from their printed form. */
  lemma ReadablePathsAreRecovered(tokens: seq<Token>)
    requires tokens != [] && tokens[0].MapToken?
    requires forall i :: 0 <= i < |tokens| && tokens[i].ListToken? ==> 0 <= tokens[i].position <= MAX_INT
    ensures TokensOf(Print(tokens)) == tokens <==> ReadablePath(tokens)
  {
    hide HasSeparator;
    TokensAreReadable(Print(tokens), 0, Normal);
    if ReadablePath(tokens) {
      assert Readable(tokens[0], 0 == |tokens| - 1);
      ReadBackRest(tokens, Normal, tokens[0].key);
    }
    var read := TokensOf(Print(tokens));
    assert KeysReadable(read);
    hide TokensFrom; hide TokensOf; hide Print;
    if read == tokens {
      forall i | 0 <= i < |tokens|
        ensures Readable(tokens[i], i == |tokens| - 1)
      {
        assert read[i] == tokens[i];
      }
    }
  }

  /** Different readable paths have different printed forms. */
  lemma PrintIsInjective(a: seq<Token>, b: seq<Token>)
    requires a != [] && a[0].MapToken? && ReadablePath(a)
    requires b != [] && b[0].MapToken? && ReadablePath(b)
    requires Print(a) == Print(b)
    ensures a == b
  {
    hide HasSeparator; hide TokensFrom; hide Print;
    assert forall i :: 0 <= i < |a| ==> Readable(a[i], i == |a| - 1);
    assert forall i :: 0 <= i < |b| ==> Readable(b[i], i == |b| - 1);
    ReadablePathsAreRecovered(a);
    ReadablePathsAreRecovered(b);
  }
}
