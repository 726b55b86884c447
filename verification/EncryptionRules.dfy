/**
 What the rules of a document say, told with nothing but its keys, its comments and the rules:
 which comments are directives, which leaves of an encrypted document are ciphertext, and which
 comments.
 */
module EncryptionRules {
  import opened Results
  import opened Trees
  import opened Decisions
  import opened Walker
  import opened CommentScopes
  import opened Documents

  // ---------- Directives ----------

  /** The characters with the property White_Space of the Unicode standard. */
  predicate IsWhite(c: char) {
    c in {'\t', '\n', '\U{B}', '\U{C}', '\r', ' ', '\U{85}', '\U{A0}', '\U{1680}',
          '\U{2000}', '\U{2001}', '\U{2002}', '\U{2003}', '\U{2004}', '\U{2005}', '\U{2006}', '\U{2007}',
          '\U{2008}', '\U{2009}', '\U{200A}', '\U{2028}', '\U{2029}', '\U{202F}', '\U{205F}', '\U{3000}'}
  }

  predicate Blank(s: string) {
    forall c :: c in s ==> IsWhite(c)
  }

  /** The text is this one, given in lower case, with any of its letters in upper case. */
  predicate Spells(text: string, lower: string) {
    && |text| == |lower|
    && forall k :: 0 <= k < |text| ==>
         text[k] == lower[k] || ('A' <= text[k] <= 'Z' && text[k] as int == lower[k] as int - 32)
  }

  lemma SpacesAreWhite(c: char)
    ensures IsSpace(c) <==> IsWhite(c)
  {}

  lemma {:induction false} TrimLeftSplits(s: string) returns (i: nat)
    ensures i <= |s| && TrimLeft(s) == s[i..] && Blank(s[..i])
  {
    hide IsSpace; hide IsWhite;
    i := 0;
    if s != [] && IsSpace(s[0]) {
      SpacesAreWhite(s[0]);
      i := TrimLeftSplits(s[1..]);
      assert s[1..][i..] == s[i + 1..] && s[..i + 1] == [s[0]] + s[1..][..i];
      i := i + 1;
    }
  }

  lemma {:induction false} TrimRightSplits(s: string) returns (j: nat)
    ensures j <= |s| && TrimRight(s) == s[..j] && Blank(s[j..])
  {
    hide IsSpace; hide IsWhite;
    j := |s|;
    if s != [] && IsSpace(s[|s| - 1]) {
      var n := |s| - 1;
      SpacesAreWhite(s[n]);
      j := TrimRightSplits(s[..n]);
      assert s[..n][..j] == s[..j] && s[j..] == s[..n][j..] + [s[n]];
    }
  }

  lemma {:induction false} TrimLeftDrops(s: string, i: nat)
    requires i < |s| && Blank(s[..i]) && !IsSpace(s[i])
    ensures TrimLeft(s) == s[i..]
  {
    hide IsSpace; hide IsWhite;
    if i > 0 {
      assert s[..i][0] == s[0] && s[..i] == [s[0]] + s[1..][..i - 1];
      SpacesAreWhite(s[0]);
      TrimLeftDrops(s[1..], i - 1);
      assert s[1..][i - 1..] == s[i..];
    }
  }

  lemma {:induction false} TrimRightDrops(s: string, j: nat)
    requires 0 < j <= |s| && Blank(s[j..]) && !IsSpace(s[j - 1])
    ensures TrimRight(s) == s[..j]
  {
    hide IsSpace; hide IsWhite;
    var n := |s| - 1;
    if j < |s| {
      assert s[j..][n - j] == s[n] && s[j..] == s[..n][j..] + [s[n]];
      SpacesAreWhite(s[n]);
      TrimRightDrops(s[..n], j);
      assert s[..n][..j] == s[..j];
    }
  }

  /** With white space taken off both ends, the comment is this text, in whatever case. */
  ghost predicate SpelledOut(comment: string, lower: string) {
    exists i: nat, j: nat :: Framed(comment, i, j) && Spells(comment[i..j], lower)
  }

  predicate Framed(s: string, i: nat, j: nat) {
    i <= j <= |s| && Blank(s[..i]) && Blank(s[j..])
  }

  lemma TrimmedIsFramed(s: string) returns (i: nat, j: nat)
    ensures Framed(s, i, j) && TrimSpace(s) == s[i..j]
  {
    hide IsSpace; hide IsWhite; hide TrimLeft; hide TrimRight;
    i := TrimLeftSplits(s);
    j := TrimRightSplits(s[i..]);
    assert s[i..][j..] == s[i + j..] && s[i..][..j] == s[i..i + j];
    j := i + j;
  }

  lemma FramedIsTrimmed(s: string, i: nat, j: nat)
    requires Framed(s, i, j) && i < j && !IsSpace(s[i]) && !IsSpace(s[j - 1])
    ensures TrimSpace(s) == s[i..j]
  {
    hide IsSpace; hide IsWhite; hide TrimLeft; hide TrimRight;
    TrimLeftDrops(s, i);
    assert s[i..][j - i..] == s[j..] && s[i..][j - i - 1] == s[j - 1];
    TrimRightDrops(s[i..], j - i);
    assert s[i..][..j - i] == s[i..j];
  }

  lemma LetterIsNoSpace(c: char)
    requires 'a' <= c <= 'z' || 'A' <= c <= 'Z'
    ensures !IsSpace(c)
  {}

  lemma LoweredSpells(text: string, lower: string)
    requires forall k :: 0 <= k < |lower| ==> !('A' <= lower[k] <= 'Z')
    ensures ToLower(text) == lower ==> Spells(text, lower)
    ensures Spells(text, lower) && (forall k :: 0 <= k < |lower| ==> lower[k] == ':' || 'a' <= lower[k] <= 'z')
            ==> ToLower(text) == lower
  {
    if ToLower(text) == lower {
      forall k | 0 <= k < |text|
        ensures text[k] == lower[k] || ('A' <= text[k] <= 'Z' && text[k] as int == lower[k] as int - 32)
      {
        assert ToLower(text)[k] == lower[k];
      }
    }
  }

  /** A comment is a directive exactly when it spells one out, in any case, with any white space
      around it. */
  lemma DirectivesExactly(comment: string)
    ensures ParseDirective(comment) == Unencrypted <==> SpelledOut(comment, "sops:unencrypted")
    ensures ParseDirective(comment) == Encrypted <==> SpelledOut(comment, "sops:encrypted")
  {
    DirectiveExactly(comment, "sops:unencrypted");
    DirectiveExactly(comment, "sops:encrypted");
    hide SpelledOut; hide ToLower; hide TrimSpace;
  }

  lemma DirectiveExactly(comment: string, lower: string)
    requires lower == "sops:unencrypted" || lower == "sops:encrypted"
    ensures ToLower(TrimSpace(comment)) == lower <==> SpelledOut(comment, lower)
  {
    var n := |lower|;
    assert forall k :: 0 <= k < n ==> lower[k] == ':' || 'a' <= lower[k] <= 'z';
    assert lower[0] == 's' && lower[n - 1] == 'd';
    var i, j := TrimmedIsFramed(comment);
    LoweredSpells(comment[i..j], lower);
    hide ToLower; hide TrimSpace; hide Blank; hide IsSpace;
    if SpelledOut(comment, lower) {
      var a: nat, b: nat :| Framed(comment, a, b) && Spells(comment[a..b], lower);
      assert comment[a..b][0] == comment[a] && comment[a..b][n - 1] == comment[b - 1];
      assert !IsSpace(comment[a]) && !IsSpace(comment[b - 1]) by {
        LetterIsNoSpace(comment[a]);
        LetterIsNoSpace(comment[b - 1]);
      }
      FramedIsTrimmed(comment, a, b);
      LoweredSpells(comment[a..b], lower);
    }
  }

  // ---------- Which leaves are encrypted ----------

  /** No rule but those about keys: the encrypted regex comes first, then the unencrypted one, which
      only takes away, then the encrypted suffix, and last the unencrypted suffix. One key of the
      path is enough. */
  lemma KeysDecide(rules: Rules, matches: Matcher, path: seq<string>)
    ensures ByPath(rules, matches, path) <==>
            if rules.encryptedRegex != "" then
              exists i :: 0 <= i < |path| && matches(rules.encryptedRegex, path[i])
            else if rules.unencryptedRegex != ""
                    && exists i :: 0 <= i < |path| && matches(rules.unencryptedRegex, path[i]) then
              false
            else if rules.encryptedSuffix != "" then
              exists i, start :: 0 <= i < |path| && path[i] == start + rules.encryptedSuffix
            else
              rules.unencryptedSuffix == ""
              || forall i, start :: 0 <= i < |path| ==> path[i] != start + rules.unencryptedSuffix
  {
    SuffixIsEnd(path, rules.encryptedSuffix);
    SuffixIsEnd(path, rules.unencryptedSuffix);
    hide AnySuffix;
  }

  lemma SuffixIsEnd(path: seq<string>, suffix: string)
    ensures AnySuffix(path, suffix) <==> exists i, start :: 0 <= i < |path| && path[i] == start + suffix
  {
    if AnySuffix(path, suffix) {
      var i :| 0 <= i < |path| && HasSuffix(path[i], suffix);
      var start := path[i][..|path[i]| - |suffix|];
      assert path[i] == start + suffix;
    }
    if i, start :| 0 <= i < |path| && path[i] == start + suffix {
      assert HasSuffix(path[i], suffix);
    }
  }

  /** Without a directive in scope, the comments in scope decide when there is a rule that comments
      encrypt, and the keys do otherwise, where a comment can take away. */
  lemma CommentsThenKeysDecide(rules: Rules, matches: Matcher, path: seq<string>, scope: seq<string>)
    requires forall i :: 0 <= i < |scope| ==> ParseDirective(scope[i]) == NoDirective
    ensures Decide(rules, matches, path, scope, None) <==>
            if rules.encryptedCommentRegex != "" then
              exists i :: 0 <= i < |scope| && matches(rules.encryptedCommentRegex, scope[i])
            else if rules.unencryptedCommentRegex != ""
                    && exists i :: 0 <= i < |scope| && matches(rules.unencryptedCommentRegex, scope[i]) then
              false
            else ByPath(rules, matches, path)
  {
    hide ParseDirective; hide ByPath;
    forall decided {
      NoDirectiveNoOverride(scope, decided);
    }
    hide Overridden;
  }

  /** What the rules say about a leaf, its path and the comments in its scope: the last directive
      comes first, then the rule that comments encrypt, and so on, down to the default, which is to
      encrypt. */
  lemma RulesDecide(rules: Rules, matches: Matcher, path: seq<string>, scope: seq<string>) returns (encrypted: bool)
    ensures encrypted == Decide(rules, matches, path, scope, None)
    ensures forall k :: 0 <= k < |scope| && ParseDirective(scope[k]) != NoDirective
                        && (forall i :: k < i < |scope| ==> ParseDirective(scope[i]) == NoDirective)
                        ==> encrypted == (ParseDirective(scope[k]) == Encrypted)
    ensures (forall i :: 0 <= i < |scope| ==> ParseDirective(scope[i]) == NoDirective) ==>
            (encrypted <==>
             if rules.encryptedCommentRegex != "" then
               exists i :: 0 <= i < |scope| && matches(rules.encryptedCommentRegex, scope[i])
             else if rules.unencryptedCommentRegex != ""
                     && exists i :: 0 <= i < |scope| && matches(rules.unencryptedCommentRegex, scope[i]) then
               false
             else if rules.encryptedRegex != "" then
               exists i :: 0 <= i < |path| && matches(rules.encryptedRegex, path[i])
             else if rules.unencryptedRegex != ""
                     && exists i :: 0 <= i < |path| && matches(rules.unencryptedRegex, path[i]) then
               false
             else if rules.encryptedSuffix != "" then
               exists i, start :: 0 <= i < |path| && path[i] == start + rules.encryptedSuffix
             else
               rules.unencryptedSuffix == ""
               || forall i, start :: 0 <= i < |path| ==> path[i] != start + rules.unencryptedSuffix)
  {
    encrypted := Decide(rules, matches, path, scope, None);
    KeysDecide(rules, matches, path);
    hide ByPath; hide ParseDirective; hide Decide;
    forall k | 0 <= k < |scope| && ParseDirective(scope[k]) != NoDirective
               && (forall i :: k < i < |scope| ==> ParseDirective(scope[i]) == NoDirective)
      ensures encrypted == (ParseDirective(scope[k]) == Encrypted)
    {
      assert scope == scope[..k] + [scope[k]] + scope[k + 1..];
      LastDirectiveDecides(rules, matches, path, scope[..k], scope[k], scope[k + 1..]);
    }
    if forall i :: 0 <= i < |scope| ==> ParseDirective(scope[i]) == NoDirective {
      CommentsThenKeysDecide(rules, matches, path, scope);
    }
  }

  /** A comment is encrypted only under the rule that comments encrypt, when it is no directive, and
      then as the last directive in its own scope says or, without one, when a comment in its scope
      matches. What it says itself, and the keys, play no part. */
  lemma RulesDecideComments(rules: Rules, matches: Matcher, path: seq<string>, scope: seq<string>, comment: string)
      returns (encrypted: bool)
    ensures encrypted == Decide(rules, matches, path, scope, Some(comment))
    ensures rules.encryptedCommentRegex == "" || ParseDirective(comment) != NoDirective ==> !encrypted
    ensures rules.encryptedCommentRegex != "" && ParseDirective(comment) == NoDirective ==>
            && (forall k :: 0 <= k < |scope| && ParseDirective(scope[k]) != NoDirective
                            && (forall i :: k < i < |scope| ==> ParseDirective(scope[i]) == NoDirective)
                            ==> encrypted == (ParseDirective(scope[k]) == Encrypted))
            && ((forall i :: 0 <= i < |scope| ==> ParseDirective(scope[i]) == NoDirective) ==>
                (encrypted <==> exists i :: 0 <= i < |scope| && matches(rules.encryptedCommentRegex, scope[i])))
  {
    encrypted := Decide(rules, matches, path, scope, Some(comment));
    CommentsIgnorePath(rules, matches, path, scope, comment);
    if rules.encryptedCommentRegex != "" && ParseDirective(comment) == NoDirective {
      hide ByPath; hide ParseDirective;
      assert encrypted == Decide(rules, matches, path, scope, None);
      var e := RulesDecide(rules, matches, path, scope);
    }
  }

  // ---------- Which leaves of an encrypted document are ciphertext ----------

  /** The run in front of an item are the texts of all comments behind the last item that is none. */
  lemma {:induction false} RunIsWhole(items: TreeBranch, j: nat, i: nat)
    requires j <= i <= |items| && (j == 0 || !(items[j - 1].key.Remark? || items[j - 1].value.Comment?))
    requires forall k :: j <= k < i ==> items[k].key.Remark? || items[k].value.Comment?
    ensures |RunBefore(items, i)| == i - j
    ensures forall k :: j <= k < i ==>
              RunBefore(items, i)[k - j] ==
              if items[k].key.Remark? then items[k].key.text else items[k].value.text
  {
    if j < i {
      RunIsWhole(items, j, i - 1);
    }
  }

  lemma {:induction false} ListRunIsWhole(elems: seq<Value>, j: nat, i: nat)
    requires j <= i <= |elems| && (j == 0 || !elems[j - 1].Comment?)
    requires forall k :: j <= k < i ==> elems[k].Comment?
    ensures |ListRunBefore(elems, i)| == i - j
    ensures forall k :: j <= k < i ==> ListRunBefore(elems, i)[k - j] == elems[k].text
  {
    if j < i {
      ListRunIsWhole(elems, j, i - 1);
    }
  }

  lemma {:induction false} BranchIsWalked(env: Env, branches: seq<TreeBranch>, k: nat, st: Written)
      returns (s: Written)
    requires k < |branches| && WalkBranches(env, branches, st).Ok?
    ensures var r := WalkItems(env, branches[k], [], [], [], s);
            r.Ok? && r.value.0 == WalkBranches(env, branches, st).value.0[k]
  {
    hide WalkItems;
    if k == 0 {
      s := st;
    } else {
      s := BranchIsWalked(env, branches[1..], k - 1, WalkItems(env, branches[0], [], [], [], st).value.1);
    }
  }

  /** The main result: of every leaf of every encrypted document it is told from the keys on its path
      and the comments in front of it and of its ancestors whether it is ciphertext there or still
      what it was. */
  lemma LeafIsCiphertextExactly(env: Env, branches: seq<TreeBranch>, now: int, f: Format, k: nat, pos: seq<nat>)
      returns (encrypted: bool)
    requires env.mode == Encrypting && EncryptedTree(env, branches, now, f).Ok? && k < |branches|
    requires ValidAt(Branch(branches[k]), pos) && IsPlainLeaf(At(Branch(branches[k]), pos))
    ensures var v, w := Branch(branches[k]), Branch(EncryptedTree(env, branches, now, f).value.branches[k]);
            && ValidAt(w, pos)
            && if encrypted then
                 exists n, c :: env.cipher.encrypt(At(v, pos), env.key, PathString(PathAt(v, pos, [])), n) == Ok(c)
                                && At(w, pos) == Str(c)
               else At(w, pos) == At(v, pos)
    ensures var rules, matches, v := env.rules, env.matches, Branch(branches[k]);
            var path, scope := PathAt(v, pos, []), ScopeAt(v, pos, []);
            && (forall k :: 0 <= k < |scope| && ParseDirective(scope[k]) != NoDirective
                            && (forall i :: k < i < |scope| ==> ParseDirective(scope[i]) == NoDirective)
                            ==> encrypted == (ParseDirective(scope[k]) == Encrypted))
            && ((forall i :: 0 <= i < |scope| ==> ParseDirective(scope[i]) == NoDirective) ==>
                (encrypted <==>
                 if rules.encryptedCommentRegex != "" then
                   exists i :: 0 <= i < |scope| && matches(rules.encryptedCommentRegex, scope[i])
                 else if rules.unencryptedCommentRegex != ""
                         && exists i :: 0 <= i < |scope| && matches(rules.unencryptedCommentRegex, scope[i]) then
                   false
                 else if rules.encryptedRegex != "" then
                   exists i :: 0 <= i < |path| && matches(rules.encryptedRegex, path[i])
                 else if rules.unencryptedRegex != ""
                         && exists i :: 0 <= i < |path| && matches(rules.unencryptedRegex, path[i]) then
                   false
                 else if rules.encryptedSuffix != "" then
                   exists i, start :: 0 <= i < |path| && path[i] == start + rules.encryptedSuffix
                 else
                   rules.unencryptedSuffix == ""
                   || forall i, start :: 0 <= i < |path| ==> path[i] != start + rules.unencryptedSuffix))
  {
    var v := Branch(branches[k]);
    encrypted := RulesDecide(env.rules, env.matches, PathAt(v, pos, []), ScopeAt(v, pos, []));
    hide Decide; hide ParseDirective; hide At; hide ValidAt; hide PathAt; hide ScopeAt; hide PathString;
    hide WalkBranches; hide WalkItems;
    var s := BranchIsWalked(env, branches, k, Start(env.rules));
    LeafIsDecidedByItsPosition(env, branches[k], pos, s);
  }

  /** Likewise for the comments that are items of a branch: `i` is the index of the comment. */
  lemma CommentIsCiphertextExactly(env: Env, branches: seq<TreeBranch>, now: int, f: Format, k: nat, pos: seq<nat>,
                                   i: nat) returns (encrypted: bool)
    requires env.mode == Encrypting && EncryptedTree(env, branches, now, f).Ok? && k < |branches|
    requires ValidAt(Branch(branches[k]), pos) && At(Branch(branches[k]), pos).Branch?
    requires i < |At(Branch(branches[k]), pos).items| && At(Branch(branches[k]), pos).items[i].key.Remark?
    ensures var v, w := Branch(branches[k]), Branch(EncryptedTree(env, branches, now, f).value.branches[k]);
            && ValidAt(w, pos) && At(w, pos).Branch? && |At(w, pos).items| == |At(v, pos).items|
            && var item, item' := At(v, pos).items[i], At(w, pos).items[i];
               && item'.value == item.value && item'.key.Remark? && item'.key.inline == item.key.inline
               && if encrypted then
                    exists n :: env.cipher.encrypt(Comment(item.key.text, item.key.inline), env.key,
                                                   PathString(PathAt(v, pos, [])), n) == Ok(item'.key.text)
                  else item'.key.text == item.key.text
    ensures var rules, matches, v := env.rules, env.matches, Branch(branches[k]);
            var items := At(v, pos).items;
            var comment, scope := items[i].key.text, ScopeAt(v, pos, []) + RunBefore(items, i);
            if rules.encryptedCommentRegex == "" || ParseDirective(comment) != NoDirective then !encrypted
            else
              && (forall k :: 0 <= k < |scope| && ParseDirective(scope[k]) != NoDirective
                              && (forall i :: k < i < |scope| ==> ParseDirective(scope[i]) == NoDirective)
                              ==> encrypted == (ParseDirective(scope[k]) == Encrypted))
              && ((forall i :: 0 <= i < |scope| ==> ParseDirective(scope[i]) == NoDirective) ==>
                  (encrypted <==> exists i :: 0 <= i < |scope| && matches(rules.encryptedCommentRegex, scope[i])))
  {
    var v := Branch(branches[k]);
    var items, path, outer := At(v, pos).items, PathAt(v, pos, []), ScopeAt(v, pos, []);
    encrypted := RulesDecideComments(env.rules, env.matches, path, outer + RunBefore(items, i), items[i].key.text);
    hide Decide; hide ParseDirective; hide WalkBranches; hide PathString; hide RunBefore; hide WalkItem;
    var s := BranchIsWalked(env, branches, k, Start(env.rules));
    s := WalkedAt(env, v, pos, [], [], s);
    ItemsOfBranch(env, items, path, outer, s);
    hide WalkItems; hide WalkValue; hide At; hide ValidAt; hide PathAt; hide ScopeAt;
    s := ItemIsWalked(env, items, path, outer, s, i);
    CommentItemOutcome(env, items[i], path, outer + RunBefore(items, i), s);
  }

  lemma ItemsOfBranch(env: Env, items: TreeBranch, path: seq<string>, scope: seq<string>, st: Written)
    ensures var r, r' := WalkValue(env, Branch(items), path, scope, st), WalkItems(env, items, path, scope, [], st);
            if r'.Ok? then r.Ok? && r.value.0 == Branch(r'.value.0) else r.Err?
  {}

  lemma CommentItemOutcome(env: Env, item: Item, path: seq<string>, scope: seq<string>, st: Written)
    requires env.mode == Encrypting && item.key.Remark? && WalkItem(env, item, path, scope, st).Ok?
    ensures var item' := WalkItem(env, item, path, scope, st).value.0;
            && item'.value == item.value && item'.key.Remark? && item'.key.inline == item.key.inline
            && if Decide(env.rules, env.matches, path, scope, Some(item.key.text)) then
                 exists n :: env.cipher.encrypt(Comment(item.key.text, item.key.inline), env.key, PathString(path), n)
                             == Ok(item'.key.text)
               else item'.key.text == item.key.text
  {
    hide Decide; hide PathString;
  }

  lemma ItemIsWalked(env: Env, items: TreeBranch, path: seq<string>, outer: seq<string>, st: Written, i: nat)
      returns (s: Written)
    requires i < |items| && WalkItems(env, items, path, outer, [], st).Ok?
    ensures var r := WalkItem(env, items[i], path, outer + RunBefore(items, i), s);
            r.Ok? && r.value.0 == WalkItems(env, items, path, outer, [], st).value.0[i]
  {
    assert items[0..] == items && RunBefore(items, 0) == [];
    hide WalkItems; hide WalkItem; hide RunBefore;
    s := ItemIsWalkedBelowItsRun(env, items, 0, path, outer, st, i);
  }
}
