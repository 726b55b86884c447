/**
 The dotenv store (stores/dotenv/store.go): loading and emitting undo each other, each as far as
 the format can tell.
 */
module Dotenv {
  import opened Results
  import opened Trees

  // ---------- Lines ----------

  /** bytes.Split at newlines. */
  function Lines(s: string): (r: seq<string>)
    ensures r != [] && forall line :: line in r ==> '\n' !in line
  {
    if s == [] then [[]]
    else
      var rest := Lines(s[1..]);
      if s[0] == '\n' then [[]] + rest else [[s[0]] + rest[0]] + rest[1..]
  }

  function NonEmpty(lines: seq<string>): (r: seq<string>)
    ensures forall line :: line in r ==> line != [] && line in lines
  {
    if lines == [] then []
    else if lines[0] == [] then NonEmpty(lines[1..])
    else [lines[0]] + NonEmpty(lines[1..])
  }

  /** The lines, each with its newline. */
  function Unlines(lines: seq<string>): string {
    if lines == [] then [] else lines[0] + "\n" + Unlines(lines[1..])
  }

  lemma {:induction false} LinesBehind(a: string, rest: string)
    ensures Lines(a + "\n" + rest) == Lines(a) + Lines(rest)
    decreases |a|
  {
    if a == [] {
      assert ([] + "\n" + rest)[1..] == rest;
    } else {
      var all := a + "\n" + rest;
      assert all[1..] == a[1..] + "\n" + rest && all[0] == a[0];
      LinesBehind(a[1..], rest);
    }
  }

  lemma {:induction false} OneLine(a: string)
    requires '\n' !in a
    ensures Lines(a) == [a]
    decreases |a|
  {
    if a != [] {
      OneLine(a[1..]);
      assert [a[0]] + a[1..] == a;
    }
  }

  lemma {:induction false} NonEmptyConcat(a: seq<string>, b: seq<string>)
    ensures NonEmpty(a + b) == NonEmpty(a) + NonEmpty(b)
    decreases |a|
  {
    if a == [] {
      assert a + b == b;
    } else {
      assert (a + b)[1..] == a[1..] + b;
      NonEmptyConcat(a[1..], b);
    }
  }

  /** A text that holds something other than newlines has a line that is not empty. */
  lemma {:induction false} SomeLine(s: string, i: nat)
    requires i < |s| && s[i] != '\n'
    ensures NonEmpty(Lines(s)) != []
    decreases |s|
  {
    if s[0] == '\n' {
      SomeLine(s[1..], i - 1);
    }
  }

  // ---------- Escaped newlines ----------

  /** strings.ReplaceAll of newlines by a backslash and an n. */
  function Escape(s: string): (r: string)
    ensures '\n' !in r
  {
    if s == [] then [] else (if s[0] == '\n' then ['\\', 'n'] else [s[0]]) + Escape(s[1..])
  }

  predicate PairFirst(s: string) {
    |s| >= 2 && s[0] == '\\' && s[1] == 'n'
  }

  /** strings.Replace the other way round. */
  function Unescape(s: string): string {
    if s == [] then []
    else if PairFirst(s) then ['\n'] + Unescape(s[2..])
    else [s[0]] + Unescape(s[1..])
  }

  predicate HoldsPair(s: string) {
    exists i :: 0 <= i < |s| && PairFirst(s[i..])
  }

  lemma {:induction false} EscapeUndoesUnescape(s: string)
    requires '\n' !in s
    ensures Escape(Unescape(s)) == s
    decreases |s|
  {
    if s == [] {
    } else if PairFirst(s) {
      EscapeUndoesUnescape(s[2..]);
      var t := Unescape(s);
      assert t[1..] == Unescape(s[2..]);
      assert s == ['\\', 'n'] + s[2..];
    } else {
      EscapeUndoesUnescape(s[1..]);
      var t := Unescape(s);
      assert t[1..] == Unescape(s[1..]);
    }
  }

  /** What escaping and unescaping makes of a string: every pair becomes a newline. */
  function Cooked(s: string): (r: string)
    ensures |r| <= |s|
  {
    if s == [] then []
    else if PairFirst(s) then ['\n'] + Cooked(s[2..])
    else [s[0]] + Cooked(s[1..])
  }

  lemma {:induction false} UnescapeOfEscape(s: string)
    ensures Unescape(Escape(s)) == Cooked(s)
    decreases |s|
  {
    if s != [] {
      var e := Escape(s);
      if s[0] == '\n' {
        assert e[2..] == Escape(s[1..]);
        UnescapeOfEscape(s[1..]);
      } else {
        assert e[1..] == Escape(s[1..]);
        if |s| >= 2 {
          EscapeStart(s[1..]);
        }
        if PairFirst(s) {
          assert e[1..][1..] == Escape(s[1..][1..]);
          assert e[2..] == Escape(s[2..]) by {
            assert s[1..][1..] == s[2..] && e[1..][1..] == e[2..];
          }
          UnescapeOfEscape(s[2..]);
        } else {
          UnescapeOfEscape(s[1..]);
        }
      }
    }
  }

  lemma EscapeStart(s: string)
    requires s != []
    ensures Escape(s) != [] && Escape(s)[0] == if s[0] == '\n' then '\\' else s[0]
  {}

  lemma {:induction false} CookedSame(s: string)
    ensures |Cooked(s)| == |s| <==> !HoldsPair(s)
    ensures !HoldsPair(s) ==> Cooked(s) == s
    decreases |s|
  {
    if s == [] {
    } else if PairFirst(s) {
      assert s[0..] == s;
      assert HoldsPair(s);
    } else {
      CookedSame(s[1..]);
      if HoldsPair(s[1..]) {
        var i :| 0 <= i < |s[1..]| && PairFirst(s[1..][i..]);
        assert s[1..][i..] == s[i + 1..];
      }
      if HoldsPair(s) {
        var i :| 0 <= i < |s| && PairFirst(s[i..]);
        assert s[0..] == s;
        assert i > 0 && s[1..][i - 1..] == s[i..];
      }
    }
  }

  /** A string value comes back exactly when it holds no backslash before an n. */
  lemma ValueComesBack(s: string)
    ensures Unescape(Escape(s)) == s <==> !HoldsPair(s)
  {
    UnescapeOfEscape(s);
    CookedSame(s);
  }

  lemma EscapeStep(s: string)
    ensures Escape([]) == []
    ensures s != [] ==> Escape(s) == (if s[0] == '\n' then "\\n" else [s[0]]) + Escape(s[1..])
  {}

  /** Newlines are written as a backslash and an n, and nothing else is changed. */
  lemma {:induction false} EscapesExactly(a: string, b: string)
    ensures Escape(a + "\n" + b) == Escape(a) + "\\n" + Escape(b)
    ensures '\n' !in a ==> Escape(a) == a
  {
    hide Escape;
    var s := a + "\n" + b;
    EscapeStep(a);
    EscapeStep(s);
    if a == [] {
      assert s[0] == '\n' && s[1..] == b;
    } else {
      EscapesExactly(a[1..], b);
      assert s[0] == a[0] && s[1..] == a[1..] + "\n" + b;
    }
  }

  // ---------- Loading ----------

  function IndexOf(s: string, c: char): (i: nat)
    ensures i <= |s| && c !in s[..i] && (i < |s| ==> s[i] == c)
  {
    if s == [] || s[0] == c then 0
    else
      var i := 1 + IndexOf(s[1..], c);
      assert s[..i] == [s[0]] + s[1..][..i - 1];
      i
  }

  function LoadLine(line: string): Option<Item> {
    if line == [] then None
    else if line[0] == '#' then Some(Item(Remark(line[1..], false), Nil))
    else
      var pos := IndexOf(line, '=');
      if pos == |line| then None
      else Some(Item(Name(line[..pos]), Str(Unescape(line[pos + 1..]))))
  }

  /** The items of lines that are not empty. */
  function LoadLines(lines: seq<string>): (r: Option<TreeBranch>)
    ensures r.Some? ==> |r.value| == |lines|
  {
    if lines == [] then Some([])
    else
      match (LoadLine(lines[0]), LoadLines(lines[1..]))
      case (Some(item), Some(rest)) => Some([item] + rest)
      case _ => None
  }

  /** A line is a comment, or has an equals sign; the first one ends its key. */
  lemma {:induction false} LoadsExactly(lines: seq<string>)
    ensures LoadLines(lines).Some? <==>
            forall i :: 0 <= i < |lines| ==> lines[i] != [] && (lines[i][0] == '#' || '=' in lines[i])
    ensures LoadLines(lines).Some? ==>
            forall i :: 0 <= i < |lines| ==>
              var item := LoadLines(lines).value[i];
              if lines[i] != [] && lines[i][0] == '#' then
                item.key.Remark? && lines[i] == "#" + item.key.text && item.value == Nil
              else
                && item.key.Name? && '=' !in item.key.name && item.value.Str?
                && exists text :: lines[i] == item.key.name + "=" + text && item.value.text == Unescape(text)
  {
    if lines != [] {
      LoadsExactly(lines[1..]);
      LineIsRead(lines[0]);
      assert forall i :: 1 <= i < |lines| ==> lines[i] == lines[1..][i - 1];
      assert forall i :: 0 <= i < |lines[1..]| ==> lines[1..][i] == lines[i + 1];
      hide LoadLine; hide Unescape;
    }
  }

  lemma LineIsRead(line: string)
    ensures LoadLine(line).Some? <==> line != [] && (line[0] == '#' || '=' in line)
    ensures LoadLine(line).Some? ==>
              var item := LoadLine(line).value;
              if line != [] && line[0] == '#' then
                item.key.Remark? && line == "#" + item.key.text && item.value == Nil
              else
                && item.key.Name? && '=' !in item.key.name && item.value.Str?
                && exists text :: line == item.key.name + "=" + text && item.value.text == Unescape(text)
  {
    var pos := IndexOf(line, '=');
    hide IndexOf; hide Unescape;
    if line != [] && line[0] == '#' {
      assert line == "#" + line[1..];
    } else if pos < |line| {
      assert line == line[..pos] + "=" + line[pos + 1..];
    } else {
      assert line[..pos] == line;
    }
  }

  function Load(text: string): Option<TreeBranch> {
    LoadLines(NonEmpty(Lines(text)))
  }

  function Prepended(branch: TreeBranch, more: Option<TreeBranch>): Option<TreeBranch> {
    match more
    case None => None
    case Some(items) => Some(branch + items)
  }

  lemma PrependedOnce(branch: TreeBranch, item: Item, more: Option<TreeBranch>)
    ensures Prepended(branch + [item], more) == Prepended(branch, Prepended([item], more))
    ensures Prepended([], more) == more
  {
    if more.Some? {
      assert branch + [item] + more.value == branch + ([item] + more.value);
      assert [] + more.value == more.value;
    }
  }

  lemma LoadStep(lines: seq<string>)
    requires lines != []
    ensures LoadLines(NonEmpty(lines)) ==
      if lines[0] == [] then LoadLines(NonEmpty(lines[1..]))
      else if LoadLine(lines[0]).None? then None
      else Prepended([LoadLine(lines[0]).value], LoadLines(NonEmpty(lines[1..])))
  {
    hide LoadLine;
    if lines[0] != [] {
      assert NonEmpty(lines)[1..] == NonEmpty(lines[1..]);
    }
  }

  method LoadPlainFile(text: string) returns (r: Option<TreeBranch>)
    ensures r == Load(text)
  {
    var branch: TreeBranch := [];
    var lines := Lines(text);
    hide Lines; hide LoadLine; hide LoadLines; hide NonEmpty;
    assert lines[0..] == lines;
    PrependedOnce([], Item(Name([]), Nil), Load(text));
    for i := 0 to |lines|
      invariant Load(text) == Prepended(branch, LoadLines(NonEmpty(lines[i..])))
    {
      var line := lines[i];
      assert lines[i..][0] == line && lines[i..][1..] == lines[i + 1..];
      LoadStep(lines[i..]);
      if |line| == 0 {
        continue;
      }
      var item := LoadLine(line);
      if item.None? {
        return None;
      }
      PrependedOnce(branch, item.value, LoadLines(NonEmpty(lines[i + 1..])));
      branch := branch + [item.value];
    }
    NothingToLoad(lines[|lines|..]);
    assert branch + [] == branch;
    return Some(branch);
  }

  lemma NothingToLoad(lines: seq<string>)
    requires lines == []
    ensures LoadLines(NonEmpty(lines)) == Some([])
  {}

  lemma {:induction false} LoadConcat(a: seq<string>, b: seq<string>)
    ensures LoadLines(a + b) == match LoadLines(a) case None => None case Some(x) => Prepended(x, LoadLines(b))
    decreases |a|
  {
    hide LoadLine;
    if a == [] {
      assert a + b == b;
      PrependedOnce([], Item(Name([]), Nil), LoadLines(b));
    } else {
      assert (a + b)[1..] == a[1..] + b && (a + b)[0] == a[0];
      LoadConcat(a[1..], b);
      if LoadLine(a[0]).Some? && LoadLines(a[1..]).Some? && LoadLines(b).Some? {
        var x, y, z := [LoadLine(a[0]).value], LoadLines(a[1..]).value, LoadLines(b).value;
        assert x + (y + z) == x + y + z;
      }
    }
  }

  // ---------- Emitting ----------

  /** ValToString, and how Sprintf prints a key that is no string. */
  datatype Printers = Printers(value: Value -> string, key: Key -> string)

  function KeyText(p: Printers, key: Key): string {
    if key.Name? then key.name else p.key(key)
  }

  function ValueText(p: Printers, v: Value): string {
    if v.Str? then Escape(v.text) else p.value(v)
  }

  function LineOf(p: Printers, item: Item): string {
    if item.key.Remark? then "#" + item.key.text else KeyText(p, item.key) + "=" + ValueText(p, item.value)
  }

  predicate IsComplexValue(v: Value) {
    v.Branch? || v.List?
  }

  function Emit(p: Printers, branch: TreeBranch): Option<string> {
    if branch == [] then Some([])
    else if IsComplexValue(branch[0].value) then None
    else
      match Emit(p, branch[1..])
      case None => None
      case Some(rest) => Some(LineOf(p, branch[0]) + "\n" + rest)
  }

  method EmitPlainFile(p: Printers, branch: TreeBranch) returns (r: Option<string>)
    ensures r == Emit(p, branch)
  {
    var buffer: string := [];
    hide LineOf;
    assert branch[0..] == branch;
    if Emit(p, branch).Some? {
      assert [] + Emit(p, branch).value == Emit(p, branch).value;
    }
    for i := 0 to |branch|
      invariant Emit(p, branch) == match Emit(p, branch[i..]) case None => None case Some(s) => Some(buffer + s)
    {
      var item := branch[i];
      assert branch[i..][0] == item && branch[i..][1..] == branch[i + 1..];
      if IsComplexValue(item.value) {
        return None;
      }
      var line := LineOf(p, item) + "\n";
      if Emit(p, branch[i + 1..]).Some? {
        assert buffer + (line + Emit(p, branch[i + 1..]).value) == buffer + line + Emit(p, branch[i + 1..]).value;
      }
      buffer := buffer + line;
    }
    assert branch[|branch|..] == [] && buffer + [] == buffer;
    return Some(buffer);
  }

  // ---------- Load, then Emit ----------

  lemma LineIsEmittedAgain(p: Printers, line: string)
    requires '\n' !in line && LoadLine(line).Some?
    ensures LineOf(p, LoadLine(line).value) == line && !IsComplexValue(LoadLine(line).value.value)
  {
    hide Escape; hide Unescape;
    if line[0] == '#' {
      assert line == ['#'] + line[1..];
    } else {
      var pos := IndexOf(line, '=');
      var rest := line[pos + 1..];
      EscapeUndoesUnescape(rest);
      assert line == line[..pos] + "=" + rest;
    }
  }

  lemma {:induction false} LinesAreEmittedAgain(p: Printers, lines: seq<string>)
    requires forall line :: line in lines ==> '\n' !in line
    requires LoadLines(lines).Some?
    ensures Emit(p, LoadLines(lines).value) == Some(Unlines(lines))
    decreases |lines|
  {
    if lines != [] {
      LineIsEmittedAgain(p, lines[0]);
      LinesAreEmittedAgain(p, lines[1..]);
      var items := LoadLines(lines).value;
      assert items[1..] == LoadLines(lines[1..]).value;
      hide LineOf; hide LoadLine;
    }
  }

  /** Emitting what was loaded gives the text without its empty lines, and with a newline at the
      end. */
  lemma EmitAfterLoad(p: Printers, text: string)
    requires Load(text).Some?
    ensures Emit(p, Load(text).value) == Some(Unlines(NonEmpty(Lines(text))))
  {
    var lines := NonEmpty(Lines(text));
    hide Lines; hide NonEmpty;
    LinesAreEmittedAgain(p, lines);
  }

  // ---------- Emit, then Load ----------

  /** What comes back from its own line. */
  predicate PlainItem(item: Item) {
    if item.key.Remark? then '\n' !in item.key.text && !item.key.inline && item.value.Nil?
    else
      && item.key.Name? && item.value.Str? && '\n' !in item.key.name && '=' !in item.key.name
      && (item.key.name != [] ==> item.key.name[0] != '#') && !HoldsPair(item.value.text)
  }

  function LinesOf(p: Printers, item: Item): seq<string> {
    NonEmpty(Lines(LineOf(p, item)))
  }

  function AllLines(p: Printers, branch: TreeBranch): seq<string> {
    if branch == [] then [] else LinesOf(p, branch[0]) + AllLines(p, branch[1..])
  }

  lemma {:induction false} LinesOfEmitted(p: Printers, branch: TreeBranch)
    requires Emit(p, branch).Some?
    ensures NonEmpty(Lines(Emit(p, branch).value)) == AllLines(p, branch)
    decreases |branch|
  {
    if branch == [] {
      var lines := Lines([]);
      assert lines == [[]] && lines[1..] == [];
    } else {
      var line, rest := LineOf(p, branch[0]), Emit(p, branch[1..]).value;
      hide LineOf; hide Lines;
      LinesBehind(line, rest);
      NonEmptyConcat(Lines(line), Lines(rest));
      LinesOfEmitted(p, branch[1..]);
    }
  }

  lemma AtLeastOneLine(p: Printers, item: Item)
    ensures |LinesOf(p, item)| >= 1
  {
    var line := LineOf(p, item);
    if item.key.Remark? {
      SomeLine(line, 0);
    } else {
      assert line[|KeyText(p, item.key)|] == '=';
      SomeLine(line, |KeyText(p, item.key)|);
    }
  }

  lemma {:induction false} AtLeastAsManyLines(p: Printers, branch: TreeBranch)
    ensures |AllLines(p, branch)| >= |branch|
    decreases |branch|
  {
    hide LinesOf;
    if branch != [] {
      AtLeastOneLine(p, branch[0]);
      AtLeastAsManyLines(p, branch[1..]);
    }
  }

  lemma IndexOfFirst(a: string, rest: string, c: char)
    requires c !in a && rest != [] && rest[0] == c
    ensures IndexOf(a + rest, c) == |a|
  {
    var s, i := a + rest, IndexOf(a + rest, c);
    assert s[|a|] == c && forall k :: 0 <= k < |a| ==> s[k] == a[k];
  }

  /** An item is read back from its own line exactly when it is plain. */
  lemma ItemComesBack(p: Printers, item: Item)
    requires !IsComplexValue(item.value)
    ensures (|LinesOf(p, item)| == 1 && LoadLine(LinesOf(p, item)[0]) == Some(item)) <==> PlainItem(item)
  {
    var line := LineOf(p, item);
    if PlainItem(item) {
      PlainItemComesBack(p, item);
    }
    if |LinesOf(p, item)| == 1 && LoadLine(LinesOf(p, item)[0]) == Some(item) {
      LoadedItemIsPlain(p, item, LinesOf(p, item)[0]);
    }
  }

  lemma SingleLine(p: Printers, item: Item)
    requires '\n' !in LineOf(p, item) && LineOf(p, item) != []
    ensures LinesOf(p, item) == [LineOf(p, item)]
  {
    var lines := [LineOf(p, item)];
    OneLine(LineOf(p, item));
    hide LineOf;
    var none := lines[1..];
    assert none == [] && NonEmpty(none) == none;
    assert lines + none == lines;
  }

  lemma PlainItemComesBack(p: Printers, item: Item)
    requires PlainItem(item)
    ensures LinesOf(p, item) == [LineOf(p, item)] && LoadLine(LineOf(p, item)) == Some(item)
  {
    var line := LineOf(p, item);
    SingleLine(p, item);
    hide LinesOf;
    if item.key.Name? {
      var rest := "=" + Escape(item.value.text);
      assert line == item.key.name + rest;
      IndexOfFirst(item.key.name, rest, '=');
      assert line[|item.key.name| + 1..] == Escape(item.value.text);
      ValueComesBack(item.value.text);
    }
  }

  lemma LoadedItemIsPlain(p: Printers, item: Item, line: string)
    requires '\n' !in line && LoadLine(line) == Some(item) && [line] == LinesOf(p, item)
    ensures PlainItem(item)
  {
    if item.key.Name? {
      var pos := IndexOf(line, '=');
      assert item.key.name == line[..pos];
      var rest := "=" + Escape(item.value.text);
      assert LineOf(p, item) == item.key.name + rest;
      OneLine(LineOf(p, item));
      assert line == LineOf(p, item);
      IndexOfFirst(item.key.name, rest, '=');
      assert line[|item.key.name| + 1..] == Escape(item.value.text);
      ValueComesBack(item.value.text);
    }
  }

  lemma {:induction false} BranchComesBack(p: Printers, branch: TreeBranch)
    requires forall item :: item in branch ==> !IsComplexValue(item.value)
    ensures LoadLines(AllLines(p, branch)) == Some(branch) <==> forall item :: item in branch ==> PlainItem(item)
    decreases |branch|
  {
    if branch != [] {
      var first, rest := LinesOf(p, branch[0]), AllLines(p, branch[1..]);
      ItemComesBack(p, branch[0]);
      BranchComesBack(p, branch[1..]);
      AtLeastOneLine(p, branch[0]);
      AtLeastAsManyLines(p, branch[1..]);
      LoadConcat(first, rest);
      assert branch == [branch[0]] + branch[1..];
      hide LinesOf; hide LoadLine; hide PlainItem;
      OneItemThenRest(first, rest, branch);
    }
  }

  /** Lines that load as the branch do so one line for one item. */
  lemma OneItemThenRest(first: seq<string>, rest: seq<string>, branch: TreeBranch)
    requires branch != [] && |first| >= 1 && |rest| >= |branch| - 1
    ensures LoadLines(first + rest) == Some(branch) <==>
            |first| == 1 && LoadLine(first[0]) == Some(branch[0]) && LoadLines(rest) == Some(branch[1..])
  {
    hide LoadLine;
    if |first| == 1 {
      assert (first + rest)[1..] == rest;
      assert branch == [branch[0]] + branch[1..];
      if LoadLines(first + rest) == Some(branch) {
        assert LoadLines(rest).Some? && branch == [LoadLine(first[0]).value] + LoadLines(rest).value;
        assert branch[1..] == LoadLines(rest).value;
      }
    }
  }

  lemma {:induction false} EmitsWithoutComplexValues(p: Printers, branch: TreeBranch)
    ensures Emit(p, branch).Some? <==> forall item :: item in branch ==> !IsComplexValue(item.value)
    decreases |branch|
  {
    hide LineOf;
    if branch != [] {
      EmitsWithoutComplexValues(p, branch[1..]);
      assert branch == [branch[0]] + branch[1..];
    }
  }

  /** The main result: loading what was emitted gives the branch back exactly when all its items are
      plain. */
  lemma LoadAfterEmit(p: Printers, branch: TreeBranch)
    requires Emit(p, branch).Some?
    ensures Load(Emit(p, branch).value) == Some(branch) <==> forall item :: item in branch ==> PlainItem(item)
  {
    EmitsWithoutComplexValues(p, branch);
    LinesOfEmitted(p, branch);
    BranchComesBack(p, branch);
    hide Lines; hide NonEmpty; hide LoadLines; hide AllLines; hide PlainItem; hide Emit;
  }
}
