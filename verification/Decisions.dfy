/**
 Which leaves of a tree are encrypted: ParseDirective and shouldBeEncrypted of sops.go, and why
 decryption takes the same decisions on a tree whose comments are partly ciphertext.
 */
module Decisions {
  import opened Results

  // ---------- Directives ----------

  datatype Directive = NoDirective | Unencrypted | Encrypted

  /** The white space of the Unicode standard, as unicode.IsSpace lists it. */
  predicate IsSpace(c: char) {
    var n := c as int;
    || 9 <= n <= 13 || n == 32 || n == 0x85 || n == 0xA0 || n == 0x1680 || 0x2000 <= n <= 0x200A
    || n == 0x2028 || n == 0x2029 || n == 0x202F || n == 0x205F || n == 0x3000
  }

  function TrimSpace(s: string): string {
    TrimRight(TrimLeft(s))
  }

  function TrimLeft(s: string): string {
    if s != [] && IsSpace(s[0]) then TrimLeft(s[1..]) else s
  }

  function TrimRight(s: string): string {
    if s != [] && IsSpace(s[|s| - 1]) then TrimRight(s[..|s| - 1]) else s
  }

  /** Only the letters of a directive matter here; outside ASCII nothing is lowered to them. */
  function ToLower(s: string): (r: string)
    ensures |r| == |s|
  {
    seq(|s|, i requires 0 <= i < |s| =>
      if 'A' <= s[i] <= 'Z' then ((s[i] as int) + 32) as char else s[i])
  }

  function ParseDirective(comment: string): Directive {
    var text := ToLower(TrimSpace(comment));
    if text == "sops:unencrypted" then Unencrypted
    else if text == "sops:encrypted" then Encrypted
    else NoDirective
  }

  predicate IsDirective(comment: string) {
    ParseDirective(comment) != NoDirective
  }

  /** What the AES cipher writes starts with "ENC[" and so is never a directive. */
  lemma CiphertextIsNoDirective(c: string)
    requires "ENC[" <= c
    ensures !IsDirective(c)
  {
    assert c[0] == 'E';
    assert TrimLeft(c) == c;
    TrimRightKeepsHead(c);
    var text := ToLower(TrimSpace(c));
    assert text[0] == 'e';
    assert "sops:unencrypted"[0] == 's' && "sops:encrypted"[0] == 's';
  }

  lemma {:induction false} TrimRightKeepsHead(s: string)
    requires s != [] && !IsSpace(s[0])
    ensures TrimRight(s) != [] && TrimRight(s)[0] == s[0]
  {
    if IsSpace(s[|s| - 1]) {
      TrimRightKeepsHead(s[..|s| - 1]);
    }
  }

  // ---------- The rules of a document ----------

  datatype Rules = Rules(
    unencryptedSuffix: string, encryptedSuffix: string,
    unencryptedRegex: string, encryptedRegex: string,
    unencryptedCommentRegex: string, encryptedCommentRegex: string,
    macOnlyEncrypted: bool)

  /** Whether a text matches a regular expression. */
  type Matcher = (string, string) -> bool

  predicate HasSuffix(s: string, suffix: string) {
    |suffix| <= |s| && s[|s| - |suffix|..] == suffix
  }

  predicate AnySuffix(path: seq<string>, suffix: string) {
    exists i :: 0 <= i < |path| && HasSuffix(path[i], suffix)
  }

  predicate AnyMatch(matches: Matcher, regex: string, texts: seq<string>) {
    exists i :: 0 <= i < |texts| && matches(regex, texts[i])
  }

  /** The last directive of a sequence of comments overrides what was decided without it. */
  predicate Overridden(comments: seq<string>, decided: bool) {
    if comments == [] then decided
    else match ParseDirective(comments[|comments| - 1])
         case Unencrypted => false
         case Encrypted => true
         case NoDirective => Overridden(comments[..|comments| - 1], decided)
  }

  /** What the keys of a path decide. */
  predicate ByPath(rules: Rules, matches: Matcher, path: seq<string>) {
    var e0 := !(rules.unencryptedSuffix != "" && AnySuffix(path, rules.unencryptedSuffix));
    var e1 := if rules.encryptedSuffix != "" then AnySuffix(path, rules.encryptedSuffix) else e0;
    var e2 := e1 && !(rules.unencryptedRegex != "" && AnyMatch(matches, rules.unencryptedRegex, path));
    if rules.encryptedRegex != "" then AnyMatch(matches, rules.encryptedRegex, path) else e2
  }

  /** The decision for a leaf. `scope` are the comments that apply to it, outermost first; for a
      comment, `self` is its text, which is not in its own scope. */
  predicate Decide(rules: Rules, matches: Matcher, path: seq<string>, scope: seq<string>, self: Option<string>) {
    if self.Some? && rules.encryptedCommentRegex == "" then false
    else
      var seen := if self.Some? then scope + [self.value] else scope;
      var readable := rules.unencryptedCommentRegex != "" && AnyMatch(matches, rules.unencryptedCommentRegex, seen);
      var decided :=
        if rules.encryptedCommentRegex != "" then AnyMatch(matches, rules.encryptedCommentRegex, scope)
        else ByPath(rules, matches, path) && !readable;
      if self.Some? && IsDirective(self.value) then false else Overridden(scope, decided)
  }

  // ---------- The loops of shouldBeEncrypted ----------

  /** All comments of a stack, outermost first. */
  function Flat(stack: seq<seq<string>>): seq<string> {
    if stack == [] then [] else Flat(stack[..|stack| - 1]) + stack[|stack| - 1]
  }

  /** One level of the stack, without the entry of the comment that is being decided. */
  function Kept(run: seq<string>, skipLast: bool): seq<string> {
    if skipLast && run != [] then run[..|run| - 1] else run
  }

  /** The comments in scope: all of the stack, but for a comment its own entry at the end. */
  function Scope(stack: seq<seq<string>>, isComment: bool): seq<string>
    requires stack != []
  {
    Flat(stack[..|stack| - 1]) + Kept(stack[|stack| - 1], isComment)
  }

  method MatchesAny(matches: Matcher, regex: string, texts: seq<string>) returns (r: bool)
    ensures r == AnyMatch(matches, regex, texts)
  {
    r := false;
    for i := 0 to |texts|
      invariant !r && forall k :: 0 <= k < i ==> !matches(regex, texts[k])
    {
      if matches(regex, texts[i]) {
        r := true;
        break;
      }
    }
  }

  /** The loop over one level of comments; the entry of the comment itself is passed over. */
  method MatchesInLevel(matches: Matcher, regex: string, cs: seq<string>, skipLast: bool) returns (r: bool)
    ensures r == AnyMatch(matches, regex, Kept(cs, skipLast))
  {
    r := false;
    for j := 0 to |cs|
      invariant !r && forall k :: 0 <= k < j && k < |Kept(cs, skipLast)| ==> !matches(regex, cs[k])
    {
      if skipLast && j == |cs| - 1 {
        continue;
      }
      if matches(regex, cs[j]) {
        assert Kept(cs, skipLast)[j] == cs[j];
        r := true;
        break;
      }
    }
  }

  /** The loop over all levels, for the encrypted comment regex. */
  method MatchesInScope(matches: Matcher, regex: string, stack: seq<seq<string>>, isComment: bool) returns (r: bool)
    requires stack != []
    ensures r == AnyMatch(matches, regex, Scope(stack, isComment))
  {
    var last := |stack| - 1;
    assert !AnyMatch(matches, regex, []);
    hide AnyMatch; hide Kept;
    r := false;
    for i := 0 to |stack|
      invariant !r
      invariant i <= last ==> !AnyMatch(matches, regex, Flat(stack[..i]))
      invariant i > last ==> !AnyMatch(matches, regex, Scope(stack, isComment))
    {
      assert stack[..i + 1][..i] == stack[..i];
      ghost var here := Kept(stack[i], isComment && i == last);
      AnyMatchConcat(matches, regex, Flat(stack[..i]), here);
      var matched := MatchesInLevel(matches, regex, stack[i], isComment && i == last);
      if matched {
        if i < last {
          FlatGrows(stack, i + 1, last);
          NothingSkipped(stack[i]);
          AnyMatchPrefix(matches, regex, Flat(stack[..i]) + here, Scope(stack, isComment));
        }
        r := true;
        break;
      }
      NothingSkipped(stack[i]);
    }
  }

  lemma NothingSkipped(run: seq<string>)
    ensures Kept(run, false) == run
  {}

  lemma AnyMatchConcat(matches: Matcher, regex: string, a: seq<string>, b: seq<string>)
    ensures AnyMatch(matches, regex, a + b) <==> AnyMatch(matches, regex, a) || AnyMatch(matches, regex, b)
  {
    var all := a + b;
    assert forall i :: 0 <= i < |a| ==> all[i] == a[i];
    assert forall i :: 0 <= i < |b| ==> all[|a| + i] == b[i];
  }

  lemma AnyMatchSnoc(matches: Matcher, regex: string, texts: seq<string>, text: string)
    ensures AnyMatch(matches, regex, texts + [text]) <==> AnyMatch(matches, regex, texts) || matches(regex, text)
  {
    var all := texts + [text];
    assert forall i :: 0 <= i < |texts| ==> all[i] == texts[i];
    assert all[|texts|] == text;
  }

  lemma AnyMatchPrefix(matches: Matcher, regex: string, texts: seq<string>, all: seq<string>)
    requires texts <= all && AnyMatch(matches, regex, texts)
    ensures AnyMatch(matches, regex, all)
  {
    var i :| 0 <= i < |texts| && matches(regex, texts[i]);
    assert all[i] == texts[i];
  }

  lemma {:induction false} FlatGrows(stack: seq<seq<string>>, i: nat, n: nat)
    requires i <= n <= |stack|
    ensures Flat(stack[..i]) <= Flat(stack[..n])
  {
    if i < n {
      FlatGrows(stack, i, n - 1);
      assert stack[..n][..n - 1] == stack[..n - 1];
    }
  }

  lemma OverriddenSnoc(comments: seq<string>, comment: string, decided: bool)
    ensures Overridden(comments + [comment], decided) ==
            match ParseDirective(comment)
            case Unencrypted => false
            case Encrypted => true
            case NoDirective => Overridden(comments, decided)
  {
    hide ParseDirective;
    var all := comments + [comment];
    assert all[..|all| - 1] == comments;
  }

  lemma {:induction false} OverriddenConcat(a: seq<string>, b: seq<string>, decided: bool)
    ensures Overridden(a + b, decided) == Overridden(b, Overridden(a, decided))
  {
    hide ParseDirective;
    if b == [] {
      assert a + b == a;
    } else {
      OverriddenConcat(a, b[..|b| - 1], decided);
      assert (a + b)[..|a + b| - 1] == a + b[..|b| - 1];
    }
  }

  method ApplyLevel(cs: seq<string>, skipLast: bool, decided: bool) returns (encrypted: bool)
    ensures encrypted == Overridden(Kept(cs, skipLast), decided)
  {
    hide ParseDirective;
    encrypted := decided;
    ghost var kept := Kept(cs, skipLast);
    for j := 0 to |cs|
      invariant encrypted == Overridden(if j <= |kept| then cs[..j] else kept, decided)
    {
      if skipLast && j == |cs| - 1 {
        continue;
      }
      assert cs[..j + 1] == cs[..j] + [cs[j]];
      OverriddenSnoc(cs[..j], cs[j], decided);
      match ParseDirective(cs[j]) {
        case Unencrypted => encrypted := false;
        case Encrypted => encrypted := true;
        case NoDirective =>
      }
    }
    assert cs[..|cs|] == cs;
  }

  /** Rule 2 of the directives: the last one in scope is the one that takes effect. */
  method ApplyDirectives(stack: seq<seq<string>>, isComment: bool, decided: bool) returns (encrypted: bool)
    requires stack != []
    ensures encrypted == Overridden(Scope(stack, isComment), decided)
  {
    var last := |stack| - 1;
    assert Overridden([], decided) == decided;
    hide Overridden; hide Kept;
    encrypted := decided;
    for i := 0 to |stack|
      invariant i <= last ==> encrypted == Overridden(Flat(stack[..i]), decided)
      invariant i > last ==> encrypted == Overridden(Scope(stack, isComment), decided)
    {
      assert stack[..i + 1][..i] == stack[..i];
      OverriddenConcat(Flat(stack[..i]), Kept(stack[i], isComment && i == last), decided);
      encrypted := ApplyLevel(stack[i], isComment && i == last, encrypted);
      NothingSkipped(stack[i]);
    }
  }

  /** The text of the comment that is being decided, when there is one. */
  function Self(stack: seq<seq<string>>, isComment: bool): Option<string>
    requires stack != [] && (isComment ==> stack[|stack| - 1] != [])
  {
    if isComment then Some(stack[|stack| - 1][|stack[|stack| - 1]| - 1]) else None
  }

  lemma FlatIsScopeAndSelf(stack: seq<seq<string>>, isComment: bool)
    requires stack != [] && (isComment ==> stack[|stack| - 1] != [])
    ensures Scope(stack, false) ==
            if isComment then Scope(stack, true) + [Self(stack, true).value] else Scope(stack, isComment)
  {}

  method EndsWithAny(path: seq<string>, suffix: string) returns (r: bool)
    ensures r == AnySuffix(path, suffix)
  {
    r := false;
    for i := 0 to |path|
      invariant !r && forall k :: 0 <= k < i ==> !HasSuffix(path[k], suffix)
    {
      if HasSuffix(path[i], suffix) {
        r := true;
        break;
      }
    }
  }

  method DecideByPath(rules: Rules, matches: Matcher, path: seq<string>) returns (encrypted: bool)
    ensures encrypted == ByPath(rules, matches, path)
  {
    encrypted := true;
    if rules.unencryptedSuffix != "" {
      var found := EndsWithAny(path, rules.unencryptedSuffix);
      if found {
        encrypted := false;
      }
    }
    if rules.encryptedSuffix != "" {
      encrypted := EndsWithAny(path, rules.encryptedSuffix);
    }
    if rules.unencryptedRegex != "" {
      var matched := MatchesAny(matches, rules.unencryptedRegex, path);
      if matched {
        encrypted := false;
      }
    }
    if rules.encryptedRegex != "" {
      encrypted := MatchesAny(matches, rules.encryptedRegex, path);
    }
  }

  /** The walker only asks below at least one branch or list, and pushes a comment before it asks
      for it. */
  method ShouldBeEncrypted(rules: Rules, matches: Matcher, path: seq<string>, stack: seq<seq<string>>, isComment: bool)
      returns (encrypted: bool)
    requires stack != [] && (isComment ==> stack[|stack| - 1] != [])
    ensures encrypted == Decide(rules, matches, path, Scope(stack, isComment), Self(stack, isComment))
  {
    if isComment && rules.encryptedCommentRegex == "" {
      return false;
    }
    encrypted := DecideByPath(rules, matches, path);
    hide ByPath; hide AnyMatch; hide Overridden; hide ParseDirective;
    FlatIsScopeAndSelf(stack, isComment);
    NothingSkipped(stack[|stack| - 1]);
    if rules.unencryptedCommentRegex != "" {
      var matched := MatchesInScope(matches, rules.unencryptedCommentRegex, stack, false);
      if matched {
        encrypted := false;
      }
    }
    if rules.encryptedCommentRegex != "" {
      encrypted := MatchesInScope(matches, rules.encryptedCommentRegex, stack, isComment);
    }
    if isComment && IsDirective(stack[|stack| - 1][|stack[|stack| - 1]| - 1]) {
      return false;
    }
    encrypted := ApplyDirectives(stack, isComment, encrypted);
  }

  // ---------- Decisions on a tree whose comments are partly ciphertext ----------

  /** For a comment the keys of the path play no part. */
  predicate CommentDecision(rules: Rules, matches: Matcher, scope: seq<string>, comment: string) {
    && rules.encryptedCommentRegex != "" && !IsDirective(comment)
    && Overridden(scope, AnyMatch(matches, rules.encryptedCommentRegex, scope))
  }

  lemma CommentsIgnorePath(rules: Rules, matches: Matcher, path: seq<string>, scope: seq<string>, comment: string)
    ensures Decide(rules, matches, path, scope, Some(comment)) == CommentDecision(rules, matches, scope, comment)
  {}

  /** `after` are the comments `before` as they stand once encrypted: a comment that is to be
      encrypted became something that is no directive, every other one is unchanged. */
  ghost predicate Reread(rules: Rules, matches: Matcher, before: seq<string>, after: seq<string>) {
    && |before| == |after|
    && forall k :: 0 <= k < |before| ==> RereadAt(rules, matches, before, after, k)
  }

  ghost predicate RereadAt(rules: Rules, matches: Matcher, before: seq<string>, after: seq<string>, k: nat)
    requires k < |before| == |after|
  {
    after[k] == before[k] || (CommentDecision(rules, matches, before[..k], before[k]) && !IsDirective(after[k]))
  }

  lemma RereadPrefix(rules: Rules, matches: Matcher, before: seq<string>, after: seq<string>, n: nat)
    requires Reread(rules, matches, before, after) && n <= |before|
    ensures Reread(rules, matches, before[..n], after[..n])
  {
    forall k | 0 <= k < n
      ensures RereadAt(rules, matches, before[..n], after[..n], k)
    {
      assert RereadAt(rules, matches, before, after, k);
      assert before[..n][..k] == before[..k];
    }
  }

  lemma RereadSnoc(rules: Rules, matches: Matcher, before: seq<string>, after: seq<string>, c: string, c': string)
    requires Reread(rules, matches, before, after)
    requires c == c' || (CommentDecision(rules, matches, before, c) && !IsDirective(c'))
    ensures Reread(rules, matches, before + [c], after + [c'])
  {
    hide CommentDecision; hide IsDirective;
    var b, a := before + [c], after + [c'];
    forall k | 0 <= k < |b|
      ensures RereadAt(rules, matches, b, a, k)
    {
      if k < |before| {
        assert RereadAt(rules, matches, before, after, k);
        assert b[..k] == before[..k];
      } else {
        assert b[..k] == before;
      }
    }
  }

  lemma {:induction false} OverriddenMonotone(comments: seq<string>)
    ensures Overridden(comments, false) ==> Overridden(comments, true)
  {
    hide ParseDirective;
    if comments != [] {
      OverriddenMonotone(comments[..|comments| - 1]);
    }
  }

  /** Directives are always left readable, and nothing else becomes one. */
  lemma {:induction false} SameDirectives(rules: Rules, matches: Matcher, before: seq<string>, after: seq<string>,
        decided: bool)
    requires Reread(rules, matches, before, after)
    ensures Overridden(before, decided) == Overridden(after, decided)
  {
    hide ParseDirective;
    if before != [] {
      var n := |before| - 1;
      RereadPrefix(rules, matches, before, after, n);
      SameDirectives(rules, matches, before[..n], after[..n], decided);
      assert RereadAt(rules, matches, before, after, n);
    }
  }

  /** Without a directive, the first comment that matches was itself left readable; so there is a
      match after encryption exactly when there was one before. */
  lemma {:induction false} SameScopeDecision(rules: Rules, matches: Matcher, before: seq<string>, after: seq<string>)
    requires Reread(rules, matches, before, after)
    ensures var regex := rules.encryptedCommentRegex;
            Overridden(before, AnyMatch(matches, regex, before)) == Overridden(after, AnyMatch(matches, regex, after))
  {
    if before != [] {
      var regex, n := rules.encryptedCommentRegex, |before| - 1;
      var b, a, c, c' := before[..n], after[..n], before[n], after[n];
      assert before == b + [c] && after == a + [c'];
      assert RereadAt(rules, matches, before, after, n);
      RereadPrefix(rules, matches, before, after, n);
      SameScopeDecision(rules, matches, b, a);
      SameDirectives(rules, matches, b, a, true);
      OverriddenMonotone(b);
      OverriddenMonotone(a);
      AnyMatchSnoc(matches, regex, b, c);
      AnyMatchSnoc(matches, regex, a, c');
      hide AnyMatch; hide ParseDirective; hide Reread; hide RereadAt;
      OverriddenSnoc(b, c, AnyMatch(matches, regex, before));
      OverriddenSnoc(a, c', AnyMatch(matches, regex, after));
    }
  }

  /** Every decision taken on the encrypted tree is the one taken on the plaintext tree. */
  lemma DecisionsAgree(rules: Rules, matches: Matcher, path: seq<string>, before: seq<string>, after: seq<string>,
                       self: Option<string>, self': Option<string>)
    requires Reread(rules, matches, before, after)
    requires self.None? <==> self'.None?
    requires self.Some? ==>
      self'.value == self.value
      || (CommentDecision(rules, matches, before, self.value) && !IsDirective(self'.value))
    ensures Decide(rules, matches, path, before, self) == Decide(rules, matches, path, after, self')
  {
    hide ParseDirective; hide ByPath;
    SameScopeDecision(rules, matches, before, after);
    if self.Some? {
      CommentsIgnorePath(rules, matches, path, before, self.value);
      CommentsIgnorePath(rules, matches, path, after, self'.value);
    } else if rules.encryptedCommentRegex == "" {
      forall k | 0 <= k < |before|
        ensures before[k] == after[k]
      {
        assert RereadAt(rules, matches, before, after, k);
      }
      assert before == after;
    }
  }
}
