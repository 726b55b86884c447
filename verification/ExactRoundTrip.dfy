/**
 Exactly which trees come back from encryption. An encrypted comment in a list, or as the value of
 an item, is a string on the way back: it ends the run of comments it stood in. What decryption
 sees is that thinned scope, so a tree comes back when the full and the thinned scope decide alike.
 */
module ExactRoundTrip {
  import opened Results
  import opened Trees
  import opened Decisions
  import opened Walker
  import opened RoundTrip
  import opened Documents

  /** An empty text is its own ciphertext, and no other text is. */
  ghost predicate Telling(env: Env) {
    forall v, ad, n :: env.cipher.encrypt(v, env.key, ad, n).Ok? && (v.Str? || v.Comment?) ==>
      (env.cipher.encrypt(v, env.key, ad, n).value == v.text <==> v.text == "")
  }

  // ---------- Thinned scopes ----------

  predicate ScopeDecision(rules: Rules, matches: Matcher, scope: seq<string>) {
    Overridden(scope, AnyMatch(matches, rules.encryptedCommentRegex, scope))
  }

  /** Whatever is decided to be encrypted in the scope `thin` is so in the scope `full`, also when
      more comments follow in both. */
  ghost predicate Weaker(rules: Rules, matches: Matcher, full: seq<string>, thin: seq<string>) {
    if rules.encryptedCommentRegex == "" then full == thin
    else forall later :: ScopeDecision(rules, matches, thin + later) ==> ScopeDecision(rules, matches, full + later)
  }

  lemma WeakerDecides(rules: Rules, matches: Matcher, path: seq<string>, full: seq<string>, thin: seq<string>,
                      self: Option<string>)
    requires Weaker(rules, matches, full, thin)
    ensures Decide(rules, matches, path, thin, self) ==> Decide(rules, matches, path, full, self)
  {
    hide Overridden; hide AnyMatch; hide ByPath; hide IsDirective;
    if rules.encryptedCommentRegex != "" {
      assert thin + [] == thin && full + [] == full;
      assert ScopeDecision(rules, matches, thin + []) ==> ScopeDecision(rules, matches, full + []);
    }
  }

  lemma WeakerSnoc(rules: Rules, matches: Matcher, full: seq<string>, thin: seq<string>, c: string)
    requires Weaker(rules, matches, full, thin)
    ensures Weaker(rules, matches, full + [c], thin + [c])
  {
    hide ScopeDecision;
    if rules.encryptedCommentRegex != "" {
      forall later | ScopeDecision(rules, matches, thin + [c] + later)
        ensures ScopeDecision(rules, matches, full + [c] + later)
      {
        assert thin + [c] + later == thin + ([c] + later) && full + [c] + later == full + ([c] + later);
      }
    }
  }

  /** More comments in front, which by themselves decide to encrypt, take nothing away. */
  lemma LongerScope(rules: Rules, matches: Matcher, outer: seq<string>, run: seq<string>, y: string, later: seq<string>)
    requires !IsDirective(y) && ScopeDecision(rules, matches, outer + run)
    requires ScopeDecision(rules, matches, outer + later)
    ensures ScopeDecision(rules, matches, outer + run + [y] + later)
  {
    hide ParseDirective;
    var regex := rules.encryptedCommentRegex;
    var m, all := AnyMatch(matches, regex, outer + later), outer + run + [y] + later;
    var n := AnyMatch(matches, regex, all);
    OverriddenConcat(outer, later, m);
    OverriddenConcat(outer + run + [y], later, n);
    OverriddenSnoc(outer + run, y, n);
    AnyMatchConcat(matches, regex, outer + run + [y], later);
    AnyMatchConcat(matches, regex, outer + run, [y]);
    AnyMatchConcat(matches, regex, outer, later);
    AnyMatchConcat(matches, regex, outer, run);
    hide AnyMatch; hide Overridden;
    LastDirectiveOrNone(later, Overridden(outer, m), Overridden(outer + run + [y], n));
    LastDirectiveOrNone(outer + run, AnyMatch(matches, regex, outer + run), n);
  }

  /** A sequence of comments either decides by itself, or leaves every decision as it was. */
  lemma {:induction false} LastDirectiveOrNone(comments: seq<string>, decided: bool, other: bool)
    ensures (Overridden(comments, decided) == decided && Overridden(comments, other) == other)
            || Overridden(comments, decided) == Overridden(comments, other)
    ensures decided ==> other ==> Overridden(comments, decided) == Overridden(comments, other)
  {
    hide ParseDirective;
    if comments != [] {
      LastDirectiveOrNone(comments[..|comments| - 1], decided, other);
    }
  }

  lemma WeakerCleared(rules: Rules, matches: Matcher, outer: seq<string>, run: seq<string>, thin: seq<string>,
                      y: string)
    requires Weaker(rules, matches, outer, thin) && CommentDecision(rules, matches, outer + run, y)
    ensures Weaker(rules, matches, outer + run + [y], thin)
  {
    forall later | ScopeDecision(rules, matches, thin + later)
      ensures ScopeDecision(rules, matches, outer + run + [y] + later)
    {
      hide ScopeDecision; hide IsDirective;
      LongerScope(rules, matches, outer, run, y, later);
    }
  }

  // ---------- The condition ----------

  /** The full scope of the plaintext and the thinned scope decide alike, wherever that shows. */
  predicate Stable(rules: Rules, matches: Matcher, v: Value, path: seq<string>, full: seq<string>, thin: seq<string>)
    decreases v, 1
  {
    match v
    case Branch(items) => StableItems(rules, matches, items, path, full, thin, [], [])
    case List(elems) => StableElems(rules, matches, elems, path, full, thin, [], [])
    case Comment(text, _) =>
      Decide(rules, matches, path, full, Some(text)) ==> text != "" && Decide(rules, matches, path, thin, Some(text))
    case Str(text) => text == "" || SameDecision(rules, matches, path, full, thin, None)
    case Bytes(raw) => raw == "" || SameDecision(rules, matches, path, full, thin, None)
    case Nil => true
    case _ => SameDecision(rules, matches, path, full, thin, None)
  }

  predicate SameDecision(rules: Rules, matches: Matcher, path: seq<string>, full: seq<string>, thin: seq<string>,
                         self: Option<string>) {
    Decide(rules, matches, path, full, self) == Decide(rules, matches, path, thin, self)
  }

  predicate StableItem(rules: Rules, matches: Matcher, item: Item, path: seq<string>, full: seq<string>,
                       thin: seq<string>)
    decreases item, 2
  {
    match item.key
    case Remark(text, _) => text == "" || SameDecision(rules, matches, path, full, thin, Some(text))
    case Name(name) => Stable(rules, matches, item.value, path + [name], full, thin)
    case Index(_) => true
  }

  /** The run of comments as decryption sees it: an encrypted comment ends it. */
  function ThinRun(rules: Rules, matches: Matcher, full: seq<string>, run: seq<string>, v: Value): seq<string> {
    if v.Comment? && CommentDecision(rules, matches, full, v.text) then [] else NextListRun(run, v)
  }

  function ThinItemRun(rules: Rules, matches: Matcher, full: seq<string>, run: seq<string>, item: Item): seq<string> {
    if item.key.Remark? then run + [item.key.text] else ThinRun(rules, matches, full, run, item.value)
  }

  predicate StableItems(rules: Rules, matches: Matcher, items: TreeBranch, path: seq<string>,
                        outer: seq<string>, thinOuter: seq<string>, run: seq<string>, thinRun: seq<string>)
    decreases items, 0
  {
    items == []
    || (StableItem(rules, matches, items[0], path, outer + run, thinOuter + thinRun)
        && StableItems(rules, matches, items[1..], path, outer, thinOuter, NextRun(run, items[0]),
                       ThinItemRun(rules, matches, outer + run, thinRun, items[0])))
  }

  predicate StableElems(rules: Rules, matches: Matcher, elems: seq<Value>, path: seq<string>,
                        outer: seq<string>, thinOuter: seq<string>, run: seq<string>, thinRun: seq<string>)
    decreases elems, 0
  {
    elems == []
    || (Stable(rules, matches, elems[0], path, outer + run, thinOuter + thinRun)
        && StableElems(rules, matches, elems[1..], path, outer, thinOuter, NextListRun(run, elems[0]),
                       ThinRun(rules, matches, outer + run, thinRun, elems[0])))
  }

  // ---------- One leaf ----------

  /** The scopes of the three views: the plaintext, the thinned plaintext, and what decryption
      reads. */
  ghost predicate InStep(rules: Rules, matches: Matcher, full: seq<string>, thin: seq<string>, read: seq<string>) {
    Weaker(rules, matches, full, thin) && Reread(rules, matches, thin, read)
  }

  lemma LeafExactly(enc: Env, dec: Env, v: Value, path: seq<string>, full: seq<string>, thin: seq<string>,
                    read: seq<string>, st: Written, st': Written)
    requires Pair(enc, dec) && Faithful(enc) && Telling(enc) && InStep(enc.rules, enc.matches, full, thin, read)
    requires v.Str? || v.Int? || v.Bool? || v.Float? || v.Time?
    requires st.hash == st'.hash && OnLeaf(enc, v, path, full, st).Ok?
    ensures var (w, s) := OnLeaf(enc, v, path, full, st).value;
            var r := OnLeaf(dec, w, path, read, st');
            var same := v == Str("") || SameDecision(enc.rules, enc.matches, path, full, thin, None);
            && !w.Comment? && (w == v || w.Str?) && r.Ok? && (r.value.0 == v <==> same)
            && (same ==> r.value.1.hash == s.hash)
            && (!v.Str? && !same ==> r.value.0.Str?)
  {
    DecisionsAgree(enc.rules, enc.matches, path, thin, read, None, None);
    WeakerDecides(enc.rules, enc.matches, path, full, thin, None);
    hide Decide; hide Reread; hide Weaker;
    if IsEncrypted(enc, v, path, full) {
      var n := Hashed(enc, v, true, st).value.calls;
      assert Undone(enc, v, PathString(path), enc.cipher.encrypt(v, enc.key, PathString(path), n).value);
    }
  }

  lemma ScopeDecidesAlike(rules: Rules, matches: Matcher, path: seq<string>, thin: seq<string>, read: seq<string>,
                          text: string, c: string)
    requires Reread(rules, matches, thin, read) && rules.encryptedCommentRegex != ""
    requires !IsDirective(text) && !IsDirective(c)
    ensures Decide(rules, matches, path, read, None) == CommentDecision(rules, matches, thin, text)
    ensures Decide(rules, matches, path, read, Some(c)) == CommentDecision(rules, matches, thin, text)
  {
    SameScopeDecision(rules, matches, thin, read);
    CommentsIgnorePath(rules, matches, path, read, c);
    hide ByPath; hide ParseDirective; hide AnyMatch; hide Overridden;
  }

  /** A comment in a list, or as the value of an item. Encrypted, it is a string; decrypted, it is a
      comment again, unless it was empty. */
  lemma CommentValueExactly(enc: Env, dec: Env, v: Value, path: seq<string>, full: seq<string>, thin: seq<string>,
                            read: seq<string>, st: Written, st': Written)
    requires Pair(enc, dec) && Faithful(enc) && InStep(enc.rules, enc.matches, full, thin, read)
    requires v.Comment? && st.hash == st'.hash && OnLeaf(enc, v, path, full, st).Ok?
    ensures var (w, s) := OnLeaf(enc, v, path, full, st).value;
            var encrypted := CommentDecision(enc.rules, enc.matches, full, v.text);
            var r := OnLeaf(dec, w, path, read, st');
            && s.hash == st.hash && (if encrypted then w.Str? else w == v) && r.Ok?
            && (Equal(r.value.0, v) <==> Stable(enc.rules, enc.matches, v, path, full, thin))
            && (Equal(r.value.0, v) ==> r.value.1.hash == s.hash)
  {
    CommentsIgnorePath(enc.rules, enc.matches, path, full, v.text);
    CommentsIgnorePath(enc.rules, enc.matches, path, thin, v.text);
    WeakerDecides(enc.rules, enc.matches, path, full, thin, Some(v.text));
    if CommentDecision(enc.rules, enc.matches, full, v.text) {
      var c := OnLeaf(enc, v, path, full, st).value.0.text;
      assert Undone(enc, v, PathString(path), enc.cipher.encrypt(v, enc.key, PathString(path), st.calls).value);
      ScopeDecidesAlike(enc.rules, enc.matches, path, thin, read, v.text, c);
    } else {
      DecisionsAgree(enc.rules, enc.matches, path, thin, read, Some(v.text), Some(v.text));
    }
    hide Decide; hide Reread; hide Weaker; hide CommentDecision; hide IsDirective;
  }

  /** The text of a comment that stays a comment. */
  lemma CommentTextExactly(enc: Env, dec: Env, v: Value, path: seq<string>, full: seq<string>, thin: seq<string>,
                           read: seq<string>, st: Written, st': Written)
    requires Pair(enc, dec) && Faithful(enc) && Telling(enc) && InStep(enc.rules, enc.matches, full, thin, read)
    requires v.Comment? && st.hash == st'.hash && OnLeaf(enc, v, path, full, st).Ok?
    ensures var (w, s) := OnLeaf(enc, v, path, full, st).value;
            && s.hash == st.hash && (w.Str? || w == v)
            && (w.text == v.text
                || (CommentDecision(enc.rules, enc.matches, full, v.text) && !IsDirective(w.text) && v.text != ""))
            && var r := OnLeaf(dec, Comment(w.text, v.inline), path, read, st');
               && r.Ok? && r.value.1.hash == s.hash && (r.value.0.Comment? || r.value.0.Str?)
               && (r.value.0.text == v.text
                   <==> v.text == "" || SameDecision(enc.rules, enc.matches, path, full, thin, Some(v.text)))
  {
    CommentsIgnorePath(enc.rules, enc.matches, path, full, v.text);
    CommentsIgnorePath(enc.rules, enc.matches, path, thin, v.text);
    WeakerDecides(enc.rules, enc.matches, path, full, thin, Some(v.text));
    if CommentDecision(enc.rules, enc.matches, full, v.text) {
      var c := enc.cipher.encrypt(v, enc.key, PathString(path), st.calls).value;
      assert Undone(enc, v, PathString(path), c);
      ScopeDecidesAlike(enc.rules, enc.matches, path, thin, read, v.text, c);
    } else {
      DecisionsAgree(enc.rules, enc.matches, path, thin, read, Some(v.text), Some(v.text));
    }
    hide Decide; hide Reread; hide Weaker; hide CommentDecision; hide IsDirective; hide Faithful;
  }

  /** A comment as the key of an item. */
  lemma RemarkExactly(enc: Env, dec: Env, item: Item, path: seq<string>, full: seq<string>, thin: seq<string>,
                      read: seq<string>, st: Written, st': Written)
    requires Pair(enc, dec) && Faithful(enc) && Telling(enc) && InStep(enc.rules, enc.matches, full, thin, read)
    requires item.key.Remark? && st.hash == st'.hash && WalkItem(enc, item, path, full, st).Ok?
    ensures var (w, s) := WalkItem(enc, item, path, full, st).value;
            var r := WalkItem(dec, w, path, read, st');
            && s.hash == st.hash && w.key.Remark? && r.Ok? && r.value.0.value == item.value
            && (w.key.text == item.key.text
                || (CommentDecision(enc.rules, enc.matches, full, item.key.text) && !IsDirective(w.key.text)
                    && item.key.text != ""))
            && r.value.0.key.Remark? && r.value.1.hash == s.hash
            && (r.value.0.key.text == item.key.text <==> StableItem(enc.rules, enc.matches, item, path, full, thin))
  {
    hide OnLeaf; hide InStep; hide Faithful; hide Telling; hide CommentDecision; hide Decide; hide IsDirective;
    CommentTextExactly(enc, dec, Comment(item.key.text, item.key.inline), path, full, thin, read, st, st');
    WalkRemark(enc, item, path, full, st);
    WalkRemark(dec, WalkItem(enc, item, path, full, st).value.0, path, read, st');
    hide WalkItem;
  }

  // ---------- The whole tree ----------

  lemma LeafValueExactly(enc: Env, dec: Env, v: Value, path: seq<string>, full: seq<string>, thin: seq<string>,
                         read: seq<string>, st: Written, st': Written)
    requires Pair(enc, dec) && Faithful(enc) && Telling(enc) && InStep(enc.rules, enc.matches, full, thin, read)
    requires v.Str? || v.Int? || v.Bool? || v.Float? || v.Time?
    requires st.hash == st'.hash && OnLeaf(enc, v, path, full, st).Ok?
    ensures var (w, s) := OnLeaf(enc, v, path, full, st).value;
            var r := WalkValue(dec, w, path, read, st');
            && !w.Comment?
            && (r.Ok? && Equal(r.value.0, v)
                <==> v == Str("") || SameDecision(enc.rules, enc.matches, path, full, thin, None))
            && (r.Ok? && Equal(r.value.0, v) ==> r.value.1.hash == s.hash)
  {
    hide OnLeaf; hide InStep; hide Faithful; hide Telling; hide SameDecision;
    LeafExactly(enc, dec, v, path, full, thin, read, st, st');
  }

  lemma {:induction false} ValueExactly(enc: Env, dec: Env, v: Value, path: seq<string>, full: seq<string>,
                                        thin: seq<string>, read: seq<string>, st: Written, st': Written)
    requires Pair(enc, dec) && Faithful(enc) && Telling(enc) && InStep(enc.rules, enc.matches, full, thin, read)
    requires st.hash == st'.hash && WalkValue(enc, v, path, full, st).Ok?
    ensures var (w, s) := WalkValue(enc, v, path, full, st).value;
            var r := WalkValue(dec, w, path, read, st');
            && (w.Comment? ==> w == v)
            && (v.Comment? && !w.Comment? <==> v.Comment? && CommentDecision(enc.rules, enc.matches, full, v.text))
            && (r.Ok? && Equal(r.value.0, Normalized(v)) <==> Stable(enc.rules, enc.matches, v, path, full, thin))
            && (r.Ok? && Equal(r.value.0, Normalized(v)) ==> r.value.1.hash == s.hash)
    decreases v, 1
  {
    hide OnLeaf; hide InStep; hide Faithful; hide Telling; hide CommentDecision; hide Decide; hide WalkItems;
    hide WalkElems; hide StableItems; hide StableElems; hide EqualItems; hide EqualElems; hide SameDecision;
    match v
    case Branch(items) =>
      assert full + [] == full && thin + [] == thin && read + [] == read;
      ItemsExactly(enc, dec, items, path, full, thin, read, [], [], [], st, st');
    case List(elems) =>
      assert full + [] == full && thin + [] == thin && read + [] == read;
      ElemsExactly(enc, dec, elems, path, full, thin, read, [], [], [], st, st');
    case Comment(_, _) => CommentValueExactly(enc, dec, v, path, full, thin, read, st, st');
    case Nil =>
    case Bytes(raw) => LeafValueExactly(enc, dec, Str(raw), path, full, thin, read, st, st');
    case _ => LeafValueExactly(enc, dec, v, path, full, thin, read, st, st');
  }

  lemma {:induction false} ItemExactly(enc: Env, dec: Env, item: Item, path: seq<string>, full: seq<string>,
                                       thin: seq<string>, read: seq<string>, st: Written, st': Written)
    requires Pair(enc, dec) && Faithful(enc) && Telling(enc) && InStep(enc.rules, enc.matches, full, thin, read)
    requires st.hash == st'.hash && WalkItem(enc, item, path, full, st).Ok?
    ensures var (w, s) := WalkItem(enc, item, path, full, st).value;
            var r := WalkItem(dec, w, path, read, st');
            && ThinCounterpart(enc.rules, enc.matches, full, item, w)
            && (r.Ok? && EqualItem(r.value.0, NormalizedItem(item))
                <==> StableItem(enc.rules, enc.matches, item, path, full, thin))
            && (r.Ok? && EqualItem(r.value.0, NormalizedItem(item)) ==> r.value.1.hash == s.hash)
    decreases item, 2
  {
    hide InStep; hide Faithful; hide Telling; hide CommentDecision; hide Decide; hide IsDirective;
    match item.key
    case Remark(text, inline) =>
      RemarkExactly(enc, dec, item, path, full, thin, read, st, st');
      EqualReflexive(item.value);
      hide OnLeaf;
    case Name(name) => ValueExactly(enc, dec, item.value, path + [name], full, thin, read, st, st');
    case Index(_) =>
  }

  /** How an item and its encrypted form compare, as far as comments go. */
  ghost predicate ThinCounterpart(rules: Rules, matches: Matcher, full: seq<string>, item: Item, w: Item) {
    if item.key.Remark? then
      && w.key.Remark?
      && (w.key.text == item.key.text
          || (CommentDecision(rules, matches, full, item.key.text) && !IsDirective(w.key.text) && item.key.text != ""))
    else
      w.key == item.key && ThinValue(rules, matches, full, item.value, w.value)
  }

  ghost predicate ThinValue(rules: Rules, matches: Matcher, full: seq<string>, v: Value, w: Value) {
    && (w.Comment? ==> w == v)
    && (v.Comment? && !w.Comment? <==> v.Comment? && CommentDecision(rules, matches, full, v.text))
  }

  /** After an item that comes back, the three runs are in step again. */
  lemma RunsStayThin(rules: Rules, matches: Matcher, path: seq<string>,
                     outer: seq<string>, thinOuter: seq<string>, readOuter: seq<string>,
                     run: seq<string>, thinRun: seq<string>, readRun: seq<string>, item: Item, w: Item)
    requires InStep(rules, matches, outer, thinOuter, readOuter)
    requires InStep(rules, matches, outer + run, thinOuter + thinRun, readOuter + readRun)
    requires ThinCounterpart(rules, matches, outer + run, item, w)
    requires StableItem(rules, matches, item, path, outer + run, thinOuter + thinRun)
    ensures InStep(rules, matches, outer + NextRun(run, item),
                   thinOuter + ThinItemRun(rules, matches, outer + run, thinRun, item), readOuter + NextRun(readRun, w))
  {
    hide Reread; hide Weaker; hide CommentDecision; hide IsDirective; hide Decide; hide Stable;
    if item.key.Remark? {
      var c, c' := item.key.text, w.key.text;
      CommentsIgnorePath(rules, matches, path, outer + run, c);
      CommentsIgnorePath(rules, matches, path, thinOuter + thinRun, c);
      BothGoOn(rules, matches, outer, thinOuter, readOuter, run, thinRun, readRun, c, c');
    } else {
      ValueRunsStayThin(rules, matches, outer, thinOuter, readOuter, run, thinRun, readRun, item.value, w.value);
      assert NextRun(run, item) == NextListRun(run, item.value);
      assert NextRun(readRun, w) == NextListRun(readRun, w.value);
    }
  }

  lemma BothGoOn(rules: Rules, matches: Matcher, outer: seq<string>, thinOuter: seq<string>, readOuter: seq<string>,
                 run: seq<string>, thinRun: seq<string>, readRun: seq<string>, c: string, c': string)
    requires InStep(rules, matches, outer + run, thinOuter + thinRun, readOuter + readRun)
    requires c == c' || (CommentDecision(rules, matches, thinOuter + thinRun, c) && !IsDirective(c'))
    ensures InStep(rules, matches, outer + (run + [c]), thinOuter + (thinRun + [c]), readOuter + (readRun + [c']))
  {
    hide Reread; hide Weaker; hide CommentDecision; hide IsDirective;
    WeakerSnoc(rules, matches, outer + run, thinOuter + thinRun, c);
    RereadSnoc(rules, matches, thinOuter + thinRun, readOuter + readRun, c, c');
    assert outer + (run + [c]) == outer + run + [c];
    assert thinOuter + (thinRun + [c]) == thinOuter + thinRun + [c];
    assert readOuter + (readRun + [c']) == readOuter + readRun + [c'];
  }

  lemma ValueRunsStayThin(rules: Rules, matches: Matcher,
                          outer: seq<string>, thinOuter: seq<string>, readOuter: seq<string>,
                          run: seq<string>, thinRun: seq<string>, readRun: seq<string>, v: Value, w: Value)
    requires InStep(rules, matches, outer, thinOuter, readOuter)
    requires InStep(rules, matches, outer + run, thinOuter + thinRun, readOuter + readRun)
    requires ThinValue(rules, matches, outer + run, v, w)
    ensures InStep(rules, matches, outer + NextListRun(run, v),
                   thinOuter + ThinRun(rules, matches, outer + run, thinRun, v), readOuter + NextListRun(readRun, w))
  {
    hide Reread; hide Weaker; hide CommentDecision; hide IsDirective;
    if v.Comment? && w.Comment? {
      BothGoOn(rules, matches, outer, thinOuter, readOuter, run, thinRun, readRun, v.text, v.text);
    } else {
      assert thinOuter + [] == thinOuter && readOuter + [] == readOuter;
      if v.Comment? {
        WeakerCleared(rules, matches, outer, run, thinOuter, v.text);
        assert outer + (run + [v.text]) == outer + run + [v.text];
      } else {
        assert outer + [] == outer;
      }
    }
  }

  lemma {:induction false} ItemsExactly(enc: Env, dec: Env, items: TreeBranch, path: seq<string>,
                                        outer: seq<string>, thinOuter: seq<string>, readOuter: seq<string>,
                                        run: seq<string>, thinRun: seq<string>, readRun: seq<string>,
                                        st: Written, st': Written)
    requires Pair(enc, dec) && Faithful(enc) && Telling(enc)
    requires InStep(enc.rules, enc.matches, outer, thinOuter, readOuter)
    requires InStep(enc.rules, enc.matches, outer + run, thinOuter + thinRun, readOuter + readRun)
    requires st.hash == st'.hash && WalkItems(enc, items, path, outer, run, st).Ok?
    ensures var (ws, s) := WalkItems(enc, items, path, outer, run, st).value;
            var r := WalkItems(dec, ws, path, readOuter, readRun, st');
            && (r.Ok? && EqualItems(r.value.0, NormalizedItems(items))
                <==> StableItems(enc.rules, enc.matches, items, path, outer, thinOuter, run, thinRun))
            && (r.Ok? && EqualItems(r.value.0, NormalizedItems(items)) ==> r.value.1.hash == s.hash)
    decreases items, 0
  {
    hide InStep; hide Faithful; hide Telling; hide WalkItem; hide StableItem; hide ThinCounterpart; hide EqualItem;
    hide NormalizedItem;
    if items != [] {
      var rules, matches := enc.rules, enc.matches;
      ItemExactly(enc, dec, items[0], path, outer + run, thinOuter + thinRun, readOuter + readRun, st, st');
      var (w, s) := WalkItem(enc, items[0], path, outer + run, st).value;
      var r := WalkItem(dec, w, path, readOuter + readRun, st');
      var next, nextRead := NextRun(run, items[0]), NextRun(readRun, w);
      var nextThin := ThinItemRun(rules, matches, outer + run, thinRun, items[0]);
      var ws := WalkItems(enc, items[1..], path, outer, next, s).value.0;
      assert ([w] + ws)[1..] == ws;
      if StableItem(rules, matches, items[0], path, outer + run, thinOuter + thinRun) {
        RunsStayThin(rules, matches, path, outer, thinOuter, readOuter, run, thinRun, readRun, items[0], w);
        hide NextRun; hide ThinItemRun;
        ItemsExactly(enc, dec, items[1..], path, outer, thinOuter, readOuter, next, nextThin, nextRead, s,
                     r.value.1);
      }
    }
  }

  lemma {:induction false} ElemsExactly(enc: Env, dec: Env, elems: seq<Value>, path: seq<string>,
                                        outer: seq<string>, thinOuter: seq<string>, readOuter: seq<string>,
                                        run: seq<string>, thinRun: seq<string>, readRun: seq<string>,
                                        st: Written, st': Written)
    requires Pair(enc, dec) && Faithful(enc) && Telling(enc)
    requires InStep(enc.rules, enc.matches, outer, thinOuter, readOuter)
    requires InStep(enc.rules, enc.matches, outer + run, thinOuter + thinRun, readOuter + readRun)
    requires st.hash == st'.hash && WalkElems(enc, elems, path, outer, run, st).Ok?
    ensures var (ws, s) := WalkElems(enc, elems, path, outer, run, st).value;
            var r := WalkElems(dec, ws, path, readOuter, readRun, st');
            && (r.Ok? && EqualElems(r.value.0, NormalizedElems(elems))
                <==> StableElems(enc.rules, enc.matches, elems, path, outer, thinOuter, run, thinRun))
            && (r.Ok? && EqualElems(r.value.0, NormalizedElems(elems)) ==> r.value.1.hash == s.hash)
    decreases elems, 0
  {
    hide InStep; hide Faithful; hide Telling; hide WalkValue; hide Stable; hide ThinValue; hide Equal; hide Normalized;
    if elems != [] {
      var rules, matches := enc.rules, enc.matches;
      ValueExactly(enc, dec, elems[0], path, outer + run, thinOuter + thinRun, readOuter + readRun, st, st');
      var (w, s) := WalkValue(enc, elems[0], path, outer + run, st).value;
      var r := WalkValue(dec, w, path, readOuter + readRun, st');
      var next, nextRead := NextListRun(run, elems[0]), NextListRun(readRun, w);
      var nextThin := ThinRun(rules, matches, outer + run, thinRun, elems[0]);
      var ws := WalkElems(enc, elems[1..], path, outer, next, s).value.0;
      assert ([w] + ws)[1..] == ws;
      if Stable(rules, matches, elems[0], path, outer + run, thinOuter + thinRun) {
        SameThinValue(rules, matches, outer + run, elems[0], w);
        ValueRunsStayThin(rules, matches, outer, thinOuter, readOuter, run, thinRun, readRun, elems[0], w);
        hide NextListRun; hide ThinRun;
        ElemsExactly(enc, dec, elems[1..], path, outer, thinOuter, readOuter, next, nextThin, nextRead, s,
                     r.value.1);
      }
    }
  }

  lemma SameThinValue(rules: Rules, matches: Matcher, full: seq<string>, v: Value, w: Value)
    requires w.Comment? ==> w == v
    requires v.Comment? && !w.Comment? <==> v.Comment? && CommentDecision(rules, matches, full, v.text)
    ensures ThinValue(rules, matches, full, v, w)
  {}

  // ---------- Documents ----------

  ghost predicate StableBranches(rules: Rules, matches: Matcher, branches: seq<TreeBranch>) {
    forall i :: 0 <= i < |branches| ==> StableItems(rules, matches, branches[i], [], [], [], [], [])
  }

  lemma NothingInScope(rules: Rules, matches: Matcher)
    ensures InStep(rules, matches, [], [], [])
  {}

  lemma {:induction false} BranchesExactly(enc: Env, dec: Env, branches: seq<TreeBranch>, st: Written, st': Written)
    requires Pair(enc, dec) && Faithful(enc) && Telling(enc)
    requires st.hash == st'.hash && WalkBranches(enc, branches, st).Ok?
    ensures var (ws, s) := WalkBranches(enc, branches, st).value;
            var r := WalkBranches(dec, ws, st');
            && (r.Ok? && EqualBranches(r.value.0, branches) <==> StableBranches(enc.rules, enc.matches, branches))
            && (r.Ok? && EqualBranches(r.value.0, branches) ==> r.value.1.hash == s.hash)
    decreases |branches|
  {
    hide WalkItems; hide EqualItems; hide NormalizedItems; hide Faithful; hide Telling; hide StableItems; hide InStep;
    if branches != [] {
      var first, rest := branches[0], branches[1..];
      NothingInScope(enc.rules, enc.matches);
      var none: seq<string> := [];
      assert none + none == none;
      ItemsExactly(enc, dec, first, [], [], [], [], [], [], [], st, st');
      var (w, s) := WalkItems(enc, first, [], [], [], st).value;
      var ws := WalkBranches(enc, rest, s).value.0;
      assert ([w] + ws)[1..] == ws;
      var r := WalkItems(dec, w, [], [], [], st');
      assert branches == [first] + rest;
      if StableItems(enc.rules, enc.matches, first, [], [], [], [], []) {
        BranchesExactly(enc, dec, rest, s, r.value.1);
        if WalkBranches(dec, ws, r.value.1).Ok? {
          EqualBranchesCons(r.value.0, WalkBranches(dec, ws, r.value.1).value.0, first, rest);
        }
      }
    }
  }

  lemma EqualBranchesCons(a: TreeBranch, restA: seq<TreeBranch>, b: TreeBranch, restB: seq<TreeBranch>)
    ensures EqualBranches([a] + restA, [b] + restB) <==>
            EqualItems(a, NormalizedItems(b)) && EqualBranches(restA, restB)
  {
    hide EqualItems; hide NormalizedItems;
    var x, y := [a] + restA, [b] + restB;
    assert x[0] == a && y[0] == b;
    assert forall i :: 0 <= i < |restA| ==> x[i + 1] == restA[i];
    assert forall i :: 0 <= i < |restB| ==> y[i + 1] == restB[i];
  }

  /** The main result: what EncryptTree produced is decrypted to an equal tree, with an accepted MAC,
      if and only if the full and the thinned scopes decide alike. */
  lemma DecryptTreeAcceptsExactly(enc: Env, dec: Env, branches: seq<TreeBranch>, now: int, ignoreMac: bool, f: Format)
    requires Pair(enc, dec) && Faithful(enc) && Telling(enc)
    requires EncryptedTree(enc, branches, now, f).Ok?
    ensures var r := DecryptedTree(dec, EncryptedTree(enc, branches, now, f).value, ignoreMac, f);
            r.Ok? && EqualBranches(r.value, branches) <==> StableBranches(enc.rules, enc.matches, branches)
  {
    BranchesExactly(enc, dec, branches, Start(enc.rules), Start(dec.rules));
    hide WalkBranches; hide EqualBranches; hide StableBranches; hide Telling;
    var (_, mac, calls) := WalkedTree(enc, branches, f).value;
    var sealed := enc.cipher.encrypt(Str(mac), enc.key, f.rfc3339(now), calls);
    assert Undone(enc, Str(mac), f.rfc3339(now), sealed.value);
  }

  // ---------- The simple condition ----------

  /** Where no comment inside a list, or as the value of an item, is to be encrypted, nothing is
      thinned. */
  lemma {:induction false} ReadableIsStable(rules: Rules, matches: Matcher, v: Value, path: seq<string>,
                                            scope: seq<string>)
    requires ReadableInside(rules, matches, v, scope)
    ensures Stable(rules, matches, v, path, scope, scope)
    decreases v, 1
  {
    hide Decide; hide CommentDecision;
    match v
    case Branch(items) => ReadableItemsAreStable(rules, matches, items, path, scope, []);
    case List(elems) => ReadableElemsAreStable(rules, matches, elems, path, scope, []);
    case Comment(text, _) => CommentsIgnorePath(rules, matches, path, scope, text);
    case _ =>
  }

  lemma {:induction false} ReadableItemIsStable(rules: Rules, matches: Matcher, item: Item, path: seq<string>,
                                                scope: seq<string>)
    requires ReadableInItem(rules, matches, item, scope)
    ensures StableItem(rules, matches, item, path, scope, scope)
    decreases item, 2
  {
    hide Decide; hide CommentDecision;
    match item.key
    case Name(name) => ReadableIsStable(rules, matches, item.value, path + [name], scope);
    case _ =>
  }

  lemma {:induction false} ReadableItemsAreStable(rules: Rules, matches: Matcher, items: TreeBranch, path: seq<string>,
                                                  outer: seq<string>, run: seq<string>)
    requires ReadableInItems(rules, matches, items, outer, run)
    ensures StableItems(rules, matches, items, path, outer, outer, run, run)
    decreases items, 0
  {
    hide CommentDecision;
    if items != [] {
      ReadableItemIsStable(rules, matches, items[0], path, outer + run);
      ReadableItemsAreStable(rules, matches, items[1..], path, outer, NextRun(run, items[0]));
    }
  }

  lemma {:induction false} ReadableElemsAreStable(rules: Rules, matches: Matcher, elems: seq<Value>, path: seq<string>,
                                                  outer: seq<string>, run: seq<string>)
    requires ReadableInElems(rules, matches, elems, outer, run)
    ensures StableElems(rules, matches, elems, path, outer, outer, run, run)
    decreases elems, 0
  {
    hide CommentDecision;
    if elems != [] {
      ReadableIsStable(rules, matches, elems[0], path, outer + run);
      ReadableElemsAreStable(rules, matches, elems[1..], path, outer, NextListRun(run, elems[0]));
    }
  }
}
