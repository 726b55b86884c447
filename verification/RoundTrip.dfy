/**
 Decryption undoes encryption: the walk over the encrypted tree takes the same decisions, gives
 back the tree, and writes the same bytes to the hash.
 */
module RoundTrip {
  import opened Results
  import opened Trees
  import opened Decisions
  import opened Walker

  /** What the cipher gives back for a value: an empty value is written as the empty string, and
      the inline flag of a comment is not part of the ciphertext. */
  function Deciphered(v: Value): Value {
    if v == Str("") || v == Bytes("") then Str("")
    else if v.Comment? then (if v.text == "" then Str("") else Comment(v.text, false))
    else v
  }

  /** The promise of the Cipher interface, and that no ciphertext reads as a directive. */
  ghost predicate Faithful(env: Env) {
    forall v, ad, n :: env.cipher.encrypt(v, env.key, ad, n).Ok? ==>
      Undone(env, v, ad, env.cipher.encrypt(v, env.key, ad, n).value)
  }

  ghost predicate Undone(env: Env, v: Value, ad: string, c: string) {
    env.cipher.decrypt(c, env.key, ad) == Ok(Deciphered(v)) && !IsDirective(c)
  }

  /** No comment in a list, or as the value of an item, is to be encrypted. Comments as keys of
      items may be. Without an encrypted comment regex this holds for every tree. */
  predicate ReadableInside(rules: Rules, matches: Matcher, v: Value, scope: seq<string>)
    decreases v, 1
  {
    match v
    case Branch(items) => ReadableInItems(rules, matches, items, scope, [])
    case List(elems) => ReadableInElems(rules, matches, elems, scope, [])
    case Comment(text, _) => !CommentDecision(rules, matches, scope, text)
    case _ => true
  }

  predicate ReadableInItem(rules: Rules, matches: Matcher, item: Item, scope: seq<string>)
    decreases item, 2
  {
    item.key.Remark? || ReadableInside(rules, matches, item.value, scope)
  }

  predicate ReadableInItems(rules: Rules, matches: Matcher, items: TreeBranch, outer: seq<string>, run: seq<string>)
    decreases items, 0
  {
    items == []
    || (ReadableInItem(rules, matches, items[0], outer + run)
        && ReadableInItems(rules, matches, items[1..], outer, NextRun(run, items[0])))
  }

  predicate ReadableInElems(rules: Rules, matches: Matcher, elems: seq<Value>, outer: seq<string>, run: seq<string>)
    decreases elems, 0
  {
    elems == []
    || (ReadableInside(rules, matches, elems[0], outer + run)
        && ReadableInElems(rules, matches, elems[1..], outer, NextListRun(run, elems[0])))
  }

  lemma {:induction false} ReadableWithoutRegex(rules: Rules, matches: Matcher, v: Value, scope: seq<string>)
    requires rules.encryptedCommentRegex == ""
    ensures ReadableInside(rules, matches, v, scope)
    decreases v, 1
  {
    match v
    case Branch(items) => ItemsReadableWithoutRegex(rules, matches, items, scope, []);
    case List(elems) => ElemsReadableWithoutRegex(rules, matches, elems, scope, []);
    case _ =>
  }

  lemma {:induction false} ItemReadableWithoutRegex(rules: Rules, matches: Matcher, item: Item, scope: seq<string>)
    requires rules.encryptedCommentRegex == ""
    ensures ReadableInItem(rules, matches, item, scope)
    decreases item, 2
  {
    ReadableWithoutRegex(rules, matches, item.value, scope);
  }

  lemma {:induction false} ItemsReadableWithoutRegex(rules: Rules, matches: Matcher, items: TreeBranch,
                                                     outer: seq<string>, run: seq<string>)
    requires rules.encryptedCommentRegex == ""
    ensures ReadableInItems(rules, matches, items, outer, run)
    decreases items, 0
  {
    if items != [] {
      ItemReadableWithoutRegex(rules, matches, items[0], outer + run);
      ItemsReadableWithoutRegex(rules, matches, items[1..], outer, NextRun(run, items[0]));
    }
  }

  lemma {:induction false} ElemsReadableWithoutRegex(rules: Rules, matches: Matcher, elems: seq<Value>,
                                                     outer: seq<string>, run: seq<string>)
    requires rules.encryptedCommentRegex == ""
    ensures ReadableInElems(rules, matches, elems, outer, run)
    decreases elems, 0
  {
    if elems != [] {
      ReadableWithoutRegex(rules, matches, elems[0], outer + run);
      ElemsReadableWithoutRegex(rules, matches, elems[1..], outer, NextListRun(run, elems[0]));
    }
  }

  // ---------- One leaf ----------

  /** The two walks of a round trip use the same document rules, cipher and key. */
  ghost predicate Pair(enc: Env, dec: Env) {
    enc.mode == Encrypting && dec == enc.(mode := Decrypting)
  }

  lemma LeafRoundTrip(enc: Env, dec: Env, v: Value, path: seq<string>, before: seq<string>, after: seq<string>,
                      st: Written, st': Written)
    requires Pair(enc, dec) && Faithful(enc) && Reread(enc.rules, enc.matches, before, after)
    requires v.Str? || v.Int? || v.Bool? || v.Float? || v.Time?
    requires st.hash == st'.hash && OnLeaf(enc, v, path, before, st).Ok?
    ensures var (w, s) := OnLeaf(enc, v, path, before, st).value;
            !w.Comment? &&
            var r := OnLeaf(dec, w, path, after, st');
            r.Ok? && r.value.0 == v && r.value.1.hash == s.hash
  {
    hide Decide; hide Reread;
    DecisionsAgree(enc.rules, enc.matches, path, before, after, None, None);
    if IsEncrypted(enc, v, path, before) {
      var n := Hashed(enc, v, true, st).value.calls;
      assert Undone(enc, v, PathString(path), enc.cipher.encrypt(v, enc.key, PathString(path), n).value);
    }
  }

  /** A comment is encrypted only when the comments in front of it say so; the text it gets is no
      directive, and decryption turns it back. */
  lemma CommentRoundTrip(enc: Env, dec: Env, v: Value, path: seq<string>, before: seq<string>, after: seq<string>,
                         st: Written, st': Written)
    requires Pair(enc, dec) && Faithful(enc) && Reread(enc.rules, enc.matches, before, after)
    requires v.Comment? && st.hash == st'.hash && OnLeaf(enc, v, path, before, st).Ok?
    ensures var (w, s) := OnLeaf(enc, v, path, before, st).value;
            var encrypted := CommentDecision(enc.rules, enc.matches, before, v.text);
            && (encrypted ==> w.Str? && !IsDirective(w.text))
            && (!encrypted ==> w == v)
            && s.hash == st.hash
            && (w.Str? || w.Comment?)
            && var c := Comment(w.text, v.inline);
               var r := OnLeaf(dec, c, path, after, st');
               && r.Ok? && r.value.1.hash == s.hash
               && ((r.value.0.Comment? || r.value.0.Str?) && r.value.0.text == v.text)
               && (!encrypted ==> r.value.0 == v)
  {
    CommentsIgnorePath(enc.rules, enc.matches, path, before, v.text);
    var w := OnLeaf(enc, v, path, before, st).value.0;
    var encrypted := CommentDecision(enc.rules, enc.matches, before, v.text);
    if encrypted {
      assert Undone(enc, v, PathString(path), enc.cipher.encrypt(v, enc.key, PathString(path), st.calls).value);
    }
    hide Decide; hide Reread; hide CommentDecision; hide IsDirective;
    DecisionsAgree(enc.rules, enc.matches, path, before, after, Some(v.text), Some(w.text));
  }

  /** A comment that does not open is taken for one that was never encrypted, and stays. */
  lemma UnreadableCommentStays(dec: Env, item: Item, path: seq<string>, scope: seq<string>, st: Written)
    requires dec.mode == Decrypting && item.key.Remark?
    requires dec.cipher.decrypt(item.key.text, dec.key, PathString(path)).Err?
    ensures WalkItem(dec, item, path, scope, st) == Ok((item, st))
  {
    hide Decide; hide PathString; hide WalkValue;
  }

  // ---------- The whole tree ----------

  lemma {:induction false} ValueRoundTrip(enc: Env, dec: Env, v: Value, path: seq<string>, before: seq<string>,
                                          after: seq<string>, st: Written, st': Written)
    requires Pair(enc, dec) && Faithful(enc) && Reread(enc.rules, enc.matches, before, after)
    requires st.hash == st'.hash && WalkValue(enc, v, path, before, st).Ok?
    requires ReadableInside(enc.rules, enc.matches, v, before)
    ensures var (w, s) := WalkValue(enc, v, path, before, st).value;
            && (v.Comment? <==> w.Comment?) && (v.Comment? ==> w == v)
            && var r := WalkValue(dec, w, path, after, st');
               r.Ok? && Equal(r.value.0, Normalized(v)) && r.value.1.hash == s.hash
    decreases v, 1
  {
    hide OnLeaf; hide Reread; hide Faithful; hide CommentDecision;
    match v
    case Branch(items) =>
      assert before + [] == before && after + [] == after;
      ItemsRoundTrip(enc, dec, items, path, before, after, [], [], st, st');
    case List(elems) =>
      assert before + [] == before && after + [] == after;
      ElemsRoundTrip(enc, dec, elems, path, before, after, [], [], st, st');
    case Comment(_, _) => CommentRoundTrip(enc, dec, v, path, before, after, st, st');
    case Nil =>
    case Bytes(raw) =>
      LeafRoundTrip(enc, dec, Str(raw), path, before, after, st, st');
      LeafStays(enc, Str(raw), path, before, st);
    case _ =>
      LeafRoundTrip(enc, dec, v, path, before, after, st, st');
      LeafStays(enc, v, path, before, st);
  }

  /** An encrypted leaf is a string, any other stays what it is: the second walk sees a leaf. */
  lemma LeafStays(enc: Env, v: Value, path: seq<string>, scope: seq<string>, st: Written)
    requires enc.mode == Encrypting && OnLeaf(enc, v, path, scope, st).Ok?
    ensures var w := OnLeaf(enc, v, path, scope, st).value.0;
            w == v || w.Str?
  {}

  /** A comment as a key is walked as a comment; the value beside it is not looked at. */
  lemma WalkRemark(env: Env, item: Item, path: seq<string>, scope: seq<string>, st: Written)
    requires item.key.Remark?
    ensures var r := OnLeaf(env, Comment(item.key.text, item.key.inline), path, scope, st);
      && (r.Err? ==> WalkItem(env, item, path, scope, st).Err?)
      && (r.Ok? && (r.value.0.Comment? || r.value.0.Str?) ==>
            var x := WalkItem(env, item, path, scope, st);
            x.Ok? && x.value.0.key.Remark? && x.value.0.key.text == r.value.0.text && x.value.1 == r.value.1
            && x.value.0.value == item.value
            && x.value.0.key.inline == if r.value.0.Comment? then r.value.0.inline else item.key.inline)
  {
    hide OnLeaf; hide WalkValue;
  }

  lemma RemarkRoundTrip(enc: Env, dec: Env, item: Item, path: seq<string>, before: seq<string>, after: seq<string>,
                        st: Written, st': Written)
    requires Pair(enc, dec) && Faithful(enc) && Reread(enc.rules, enc.matches, before, after)
    requires item.key.Remark? && st.hash == st'.hash && WalkItem(enc, item, path, before, st).Ok?
    ensures var (w, s) := WalkItem(enc, item, path, before, st).value;
            && Counterpart(enc.rules, enc.matches, before, item, w)
            && var r := WalkItem(dec, w, path, after, st');
               r.Ok? && EqualItem(r.value.0, item) && r.value.1.hash == s.hash
  {
    hide OnLeaf; hide Reread; hide Faithful; hide CommentDecision; hide IsDirective;
    CommentRoundTrip(enc, dec, Comment(item.key.text, item.key.inline), path, before, after, st, st');
    WalkRemark(enc, item, path, before, st);
    WalkRemark(dec, WalkItem(enc, item, path, before, st).value.0, path, after, st');
    hide WalkItem;
    EqualReflexive(item.value);
  }

  lemma {:induction false} ItemRoundTrip(enc: Env, dec: Env, item: Item, path: seq<string>, before: seq<string>,
                                         after: seq<string>, st: Written, st': Written)
    requires Pair(enc, dec) && Faithful(enc) && Reread(enc.rules, enc.matches, before, after)
    requires st.hash == st'.hash && WalkItem(enc, item, path, before, st).Ok?
    requires ReadableInItem(enc.rules, enc.matches, item, before)
    ensures var (w, s) := WalkItem(enc, item, path, before, st).value;
            && Counterpart(enc.rules, enc.matches, before, item, w)
            && var r := WalkItem(dec, w, path, after, st');
               r.Ok? && EqualItem(r.value.0, NormalizedItem(item)) && r.value.1.hash == s.hash
    decreases item, 2
  {
    hide OnLeaf; hide Reread; hide Faithful; hide CommentDecision; hide IsDirective;
    match item.key
    case Remark(_, _) => RemarkRoundTrip(enc, dec, item, path, before, after, st, st');
    case Name(name) => ValueRoundTrip(enc, dec, item.value, path + [name], before, after, st, st');
    case Index(_) =>
  }

  /** How an item and its encrypted form compare, as far as comments go. */
  ghost predicate Counterpart(rules: Rules, matches: Matcher, before: seq<string>, item: Item, w: Item) {
    if item.key.Remark? then
      && w.key.Remark?
      && (w.key.text == item.key.text
          || (CommentDecision(rules, matches, before, item.key.text) && !IsDirective(w.key.text)))
    else
      && w.key == item.key && (item.value.Comment? <==> w.value.Comment?)
      && (item.value.Comment? ==> w.value == item.value)
  }

  /** The comment runs of the two walks stay in step. */
  lemma RunsStayInStep(rules: Rules, matches: Matcher, outer: seq<string>, outer': seq<string>, run: seq<string>,
                       run': seq<string>, item: Item, w: Item)
    requires Reread(rules, matches, outer, outer') && Reread(rules, matches, outer + run, outer' + run')
    requires Counterpart(rules, matches, outer + run, item, w)
    ensures Reread(rules, matches, outer + NextRun(run, item), outer' + NextRun(run', w))
  {
    hide Reread; hide CommentDecision; hide IsDirective;
    if item.key.Remark? {
      RereadSnoc(rules, matches, outer + run, outer' + run', item.key.text, w.key.text);
      assert outer + (run + [item.key.text]) == outer + run + [item.key.text];
      assert outer' + (run' + [w.key.text]) == outer' + run' + [w.key.text];
    } else if item.value.Comment? {
      RereadSnoc(rules, matches, outer + run, outer' + run', item.value.text, w.value.text);
      assert outer + (run + [item.value.text]) == outer + run + [item.value.text];
      assert outer' + (run' + [w.value.text]) == outer' + run' + [w.value.text];
    } else {
      assert outer + [] == outer && outer' + [] == outer';
    }
  }

  lemma {:induction false} ItemsRoundTrip(enc: Env, dec: Env, items: TreeBranch, path: seq<string>, outer: seq<string>,
                                          outer': seq<string>, run: seq<string>, run': seq<string>, st: Written,
                                          st': Written)
    requires Pair(enc, dec) && Faithful(enc)
    requires Reread(enc.rules, enc.matches, outer, outer') && Reread(enc.rules, enc.matches, outer + run, outer' + run')
    requires st.hash == st'.hash && WalkItems(enc, items, path, outer, run, st).Ok?
    requires ReadableInItems(enc.rules, enc.matches, items, outer, run)
    ensures var (ws, s) := WalkItems(enc, items, path, outer, run, st).value;
            var r := WalkItems(dec, ws, path, outer', run', st');
            r.Ok? && EqualItems(r.value.0, NormalizedItems(items)) && r.value.1.hash == s.hash
    decreases items, 0
  {
    hide Reread; hide Faithful; hide WalkItem; hide ReadableInItem; hide Counterpart; hide EqualItem;
    hide NormalizedItem;
    if items != [] {
      ItemRoundTrip(enc, dec, items[0], path, outer + run, outer' + run', st, st');
      var (w, s) := WalkItem(enc, items[0], path, outer + run, st).value;
      var s' := WalkItem(dec, w, path, outer' + run', st').value.1;
      RunsStayInStep(enc.rules, enc.matches, outer, outer', run, run', items[0], w);
      hide NextRun;
      var next, next' := NextRun(run, items[0]), NextRun(run', w);
      ItemsRoundTrip(enc, dec, items[1..], path, outer, outer', next, next', s, s');
      var ws := WalkItems(enc, items[1..], path, outer, next, s).value.0;
      assert ([w] + ws)[1..] == ws;
    }
  }

  lemma {:induction false} ElemsRoundTrip(enc: Env, dec: Env, elems: seq<Value>, path: seq<string>, outer: seq<string>,
                                          outer': seq<string>, run: seq<string>, run': seq<string>, st: Written,
                                          st': Written)
    requires Pair(enc, dec) && Faithful(enc)
    requires Reread(enc.rules, enc.matches, outer, outer') && Reread(enc.rules, enc.matches, outer + run, outer' + run')
    requires st.hash == st'.hash && WalkElems(enc, elems, path, outer, run, st).Ok?
    requires ReadableInElems(enc.rules, enc.matches, elems, outer, run)
    ensures var (ws, s) := WalkElems(enc, elems, path, outer, run, st).value;
            var r := WalkElems(dec, ws, path, outer', run', st');
            r.Ok? && EqualElems(r.value.0, NormalizedElems(elems)) && r.value.1.hash == s.hash
    decreases elems, 0
  {
    hide Reread; hide Faithful; hide WalkValue; hide ReadableInside; hide Equal; hide Normalized;
    if elems != [] {
      ValueRoundTrip(enc, dec, elems[0], path, outer + run, outer' + run', st, st');
      var (w, s) := WalkValue(enc, elems[0], path, outer + run, st).value;
      var s' := WalkValue(dec, w, path, outer' + run', st').value.1;
      ListRunsStayInStep(enc.rules, enc.matches, outer, outer', run, run', elems[0], w);
      hide NextListRun;
      var next, next' := NextListRun(run, elems[0]), NextListRun(run', w);
      ElemsRoundTrip(enc, dec, elems[1..], path, outer, outer', next, next', s, s');
      var ws := WalkElems(enc, elems[1..], path, outer, next, s).value.0;
      assert ([w] + ws)[1..] == ws;
    }
  }

  lemma ListRunsStayInStep(rules: Rules, matches: Matcher, outer: seq<string>, outer': seq<string>, run: seq<string>,
                           run': seq<string>, v: Value, w: Value)
    requires Reread(rules, matches, outer, outer') && Reread(rules, matches, outer + run, outer' + run')
    requires (v.Comment? <==> w.Comment?) && (v.Comment? ==> w == v)
    ensures Reread(rules, matches, outer + NextListRun(run, v), outer' + NextListRun(run', w))
  {
    hide Reread; hide CommentDecision; hide IsDirective;
    if v.Comment? {
      RereadSnoc(rules, matches, outer + run, outer' + run', v.text, w.text);
      assert outer + (run + [v.text]) == outer + run + [v.text];
      assert outer' + (run' + [w.text]) == outer' + run' + [w.text];
    } else {
      assert outer + [] == outer && outer' + [] == outer';
    }
  }
}
