/**
 The purpose of the stash, for whole documents: a document that is decrypted and encrypted again
 unchanged, with the same cipher and key, is the encrypted document it was, exactly when no value
 stands twice at one path under different initialization vectors.
 */
module Reencryption {
  import opened Results
  import opened Trees
  import opened Decisions
  import Walker
  import opened RoundTrip
  import Documents
  import opened ExactRoundTrip
  import opened Stash
  import opened AesCipher

  type Env = Walker.Env
  type Written = Walker.Written

  // ---------- The calls of a decryption ----------

  function LeafCalls(dec: Env, v: Value, path: seq<string>, scope: seq<string>): seq<Call> {
    if Walker.IsEncrypted(dec, v, path, scope) && (v.Str? || v.Comment?)
    then [DecryptCall(v.text, dec.key, Walker.PathString(path))]
    else []
  }

  /** The calls of Decrypt in the walk over a value, in their order. */
  function ValueCalls(dec: Env, v: Value, path: seq<string>, scope: seq<string>): seq<Call>
    decreases v, 1
  {
    match v
    case Bytes(raw) => LeafCalls(dec, Str(raw), path, scope)
    case Nil => []
    case Branch(items) => ItemsCalls(dec, items, path, scope, [])
    case List(elems) => ElemsCalls(dec, elems, path, scope, [])
    case Unknown(_) => []
    case _ => LeafCalls(dec, v, path, scope)
  }

  function ItemCalls(dec: Env, item: Item, path: seq<string>, scope: seq<string>): seq<Call>
    decreases item, 2
  {
    match item.key
    case Remark(text, inline) => LeafCalls(dec, Comment(text, inline), path, scope)
    case Name(name) => ValueCalls(dec, item.value, path + [name], scope)
    case Index(_) => []
  }

  function ItemsCalls(dec: Env, items: TreeBranch, path: seq<string>, outer: seq<string>, run: seq<string>): seq<Call>
    decreases items, 0
  {
    if items == [] then []
    else ItemCalls(dec, items[0], path, outer + run)
         + ItemsCalls(dec, items[1..], path, outer, Walker.NextRun(run, items[0]))
  }

  function ElemsCalls(dec: Env, elems: seq<Value>, path: seq<string>, outer: seq<string>, run: seq<string>): seq<Call>
    decreases elems, 0
  {
    if elems == [] then []
    else ValueCalls(dec, elems[0], path, outer + run)
         + ElemsCalls(dec, elems[1..], path, outer, Walker.NextListRun(run, elems[0]))
  }

  function BranchesCalls(dec: Env, branches: seq<TreeBranch>): seq<Call> {
    if branches == [] then [] else ItemsCalls(dec, branches[0], [], [], []) + BranchesCalls(dec, branches[1..])
  }

  // ---------- The calls are those of the walk ----------

  /** Both decrypt the texts of the calls alike. */
  ghost predicate Agree(dec: Env, dec': Env, calls: seq<Call>) {
    && dec.mode == Walker.Decrypting && dec' == dec.(cipher := dec'.cipher)
    && forall call :: call in calls && call.DecryptCall? ==>
         dec'.cipher.decrypt(call.ciphertext, call.key, call.ad)
         == dec.cipher.decrypt(call.ciphertext, call.key, call.ad)
  }

  /** A call decrypts to something that is no leaf, and cannot be hashed. */
  ghost predicate SomeSpoilt(dec: Env, calls: seq<Call>) {
    exists call :: call in calls && call.DecryptCall?
                   && dec.cipher.decrypt(call.ciphertext, call.key, call.ad) == Ok(Nil)
  }

  lemma AgreeOnBoth(dec: Env, dec': Env, first: seq<Call>, rest: seq<Call>)
    ensures Agree(dec, dec', first + rest) <==> Agree(dec, dec', first) && Agree(dec, dec', rest)
    ensures SomeSpoilt(dec, first + rest) <==> SomeSpoilt(dec, first) || SomeSpoilt(dec, rest)
  {
    var calls := first + rest;
    assert forall call :: call in calls <==> call in first || call in rest;
  }

  /** The walk depends on no other text than those of the calls, and on each of them. */
  lemma LeafMakesCalls(dec: Env, dec': Env, v: Value, path: seq<string>, scope: seq<string>, st: Written)
    requires dec.mode == Walker.Decrypting
    ensures var calls, r := LeafCalls(dec, v, path, scope), Walker.OnLeaf(dec, v, path, scope, st);
            && (Agree(dec, dec', calls) ==> Walker.OnLeaf(dec', v, path, scope, st) == r)
            && (SomeSpoilt(dec, calls) ==> r.Err?)
  {
    hide Decide; hide Walker.PathString;
    var calls := LeafCalls(dec, v, path, scope);
    if calls != [] {
      assert calls[0] in calls;
    }
  }

  lemma {:induction false} ValueMakesCalls(dec: Env, dec': Env, v: Value, path: seq<string>, scope: seq<string>,
                                           st: Written)
    requires dec.mode == Walker.Decrypting
    ensures var calls, r := ValueCalls(dec, v, path, scope), Walker.WalkValue(dec, v, path, scope, st);
            && (Agree(dec, dec', calls) ==> Walker.WalkValue(dec', v, path, scope, st) == r)
            && (SomeSpoilt(dec, calls) ==> r.Err?)
    decreases v, 1
  {
    hide Walker.OnLeaf; hide Walker.WalkItems; hide Walker.WalkElems; hide ItemsCalls; hide ElemsCalls; hide LeafCalls;
    match v
    case Branch(items) => ItemsMakeCalls(dec, dec', items, path, scope, [], st);
    case List(elems) => ElemsMakeCalls(dec, dec', elems, path, scope, [], st);
    case Bytes(raw) => LeafMakesCalls(dec, dec', Str(raw), path, scope, st);
    case Nil =>
    case Unknown(_) =>
    case _ => LeafMakesCalls(dec, dec', v, path, scope, st);
  }

  lemma {:induction false} ItemMakesCalls(dec: Env, dec': Env, item: Item, path: seq<string>, scope: seq<string>,
                                          st: Written)
    requires dec.mode == Walker.Decrypting
    ensures var calls, r := ItemCalls(dec, item, path, scope), Walker.WalkItem(dec, item, path, scope, st);
            && (Agree(dec, dec', calls) ==> Walker.WalkItem(dec', item, path, scope, st) == r)
            && (SomeSpoilt(dec, calls) ==> r.Err?)
    decreases item, 2
  {
    hide Walker.OnLeaf; hide Walker.WalkValue; hide ValueCalls; hide LeafCalls; hide Agree; hide SomeSpoilt;
    match item.key
    case Remark(text, inline) => LeafMakesCalls(dec, dec', Comment(text, inline), path, scope, st);
    case Name(name) => ValueMakesCalls(dec, dec', item.value, path + [name], scope, st);
    case Index(_) =>
  }

  lemma {:induction false} ItemsMakeCalls(dec: Env, dec': Env, items: TreeBranch, path: seq<string>,
                                          outer: seq<string>, run: seq<string>, st: Written)
    requires dec.mode == Walker.Decrypting
    ensures var calls := ItemsCalls(dec, items, path, outer, run);
            var r := Walker.WalkItems(dec, items, path, outer, run, st);
            && (Agree(dec, dec', calls) ==> Walker.WalkItems(dec', items, path, outer, run, st) == r)
            && (SomeSpoilt(dec, calls) ==> r.Err?)
    decreases items, 0
  {
    hide Walker.WalkItem; hide ItemCalls; hide Walker.NextRun;
    if items != [] {
      var next := Walker.NextRun(run, items[0]);
      ItemMakesCalls(dec, dec', items[0], path, outer + run, st);
      AgreeOnBoth(dec, dec', ItemCalls(dec, items[0], path, outer + run),
                  ItemsCalls(dec, items[1..], path, outer, next));
      hide Agree; hide SomeSpoilt;
      var r := Walker.WalkItem(dec, items[0], path, outer + run, st);
      if r.Ok? {
        ItemsMakeCalls(dec, dec', items[1..], path, outer, next, r.value.1);
      }
    }
  }

  lemma {:induction false} ElemsMakeCalls(dec: Env, dec': Env, elems: seq<Value>, path: seq<string>,
                                          outer: seq<string>, run: seq<string>, st: Written)
    requires dec.mode == Walker.Decrypting
    ensures var calls := ElemsCalls(dec, elems, path, outer, run);
            var r := Walker.WalkElems(dec, elems, path, outer, run, st);
            && (Agree(dec, dec', calls) ==> Walker.WalkElems(dec', elems, path, outer, run, st) == r)
            && (SomeSpoilt(dec, calls) ==> r.Err?)
    decreases elems, 0
  {
    hide Walker.WalkValue; hide ValueCalls; hide Walker.NextListRun;
    if elems != [] {
      var next := Walker.NextListRun(run, elems[0]);
      ValueMakesCalls(dec, dec', elems[0], path, outer + run, st);
      AgreeOnBoth(dec, dec', ValueCalls(dec, elems[0], path, outer + run),
                  ElemsCalls(dec, elems[1..], path, outer, next));
      hide Agree; hide SomeSpoilt;
      var r := Walker.WalkValue(dec, elems[0], path, outer + run, st);
      if r.Ok? {
        ElemsMakeCalls(dec, dec', elems[1..], path, outer, next, r.value.1);
      }
    }
  }

  /** The walk over a document makes exactly the calls listed: with any cipher that decrypts their
      texts alike it is the same walk, and every one of them can make it fail. */
  lemma {:induction false} WalkMakesCalls(dec: Env, dec': Env, branches: seq<TreeBranch>, st: Written)
    requires dec.mode == Walker.Decrypting
    ensures var calls, r := BranchesCalls(dec, branches), Documents.WalkBranches(dec, branches, st);
            && (Agree(dec, dec', calls) ==> Documents.WalkBranches(dec', branches, st) == r)
            && (SomeSpoilt(dec, calls) ==> r.Err?)
    decreases |branches|
  {
    hide Walker.WalkItems; hide ItemsCalls;
    if branches != [] {
      ItemsMakeCalls(dec, dec', branches[0], [], [], [], st);
      AgreeOnBoth(dec, dec', ItemsCalls(dec, branches[0], [], [], []), BranchesCalls(dec, branches[1..]));
      hide Agree; hide SomeSpoilt;
      var r := Walker.WalkItems(dec, branches[0], [], [], [], st);
      if r.Ok? {
        WalkMakesCalls(dec, dec', branches[1..], r.value.1);
      }
    }
  }

  // ---------- What the stash remembers ----------

  /** The ciphers of the two encryptions. */
  datatype Twice = Twice(p: Primitives, stash: IVs, random: nat -> string, stash': IVs, random': nat -> string)

  ghost predicate Encrypts(c: Twice, enc: Env, dec: Env, enc': Env) {
    && Stash.Faithful(c.p) && KeepsLength(c.p) && Pair(enc, dec)
    && enc.cipher == CipherOf(c.p, c.stash, c.random) && enc' == enc.(cipher := CipherOf(c.p, c.stash', c.random'))
  }

  /** The ciphertext is one that Encrypt makes: the empty one, or a value under a vector. */
  ghost predicate Made(p: Primitives, key: bytes, call: Call) {
    call.DecryptCall? && call.key == key && (call.ciphertext == "" || exists v, iv :: Leaves(p, call, v, iv))
  }

  /** The entry that the call leaves in the stash. */
  function Entry(p: Primitives, call: Call): IVs
    requires call.DecryptCall?
  {
    Opened(p, call.ciphertext, call.key, call.ad).1
  }

  /** There is a vector for the value that the call decrypts. */
  predicate Known(p: Primitives, stash: IVs, call: Call) {
    call.DecryptCall? && forall k :: k in Entry(p, call) ==> k in stash && |stash[k]| == NONCE_SIZE
  }

  /** It is the vector of the ciphertext that the call decrypts. */
  predicate Remembered(p: Primitives, stash: IVs, call: Call) {
    call.DecryptCall? && forall k :: k in Entry(p, call) ==> k in stash && stash[k] == Entry(p, call)[k]
  }

  ghost predicate AllMade(p: Primitives, key: bytes, calls: seq<Call>) {
    forall call :: call in calls ==> Made(p, key, call) && AtPath(call)
  }

  /** Paths are printed with a colon at the end; time stamps are not. */
  predicate AtPath(call: Call) {
    call.ad != "" && call.ad[|call.ad| - 1] == ':'
  }

  lemma {:induction false} PathEndsInColon(path: seq<string>)
    ensures var s := Walker.PathString(path);
            s != "" && s[|s| - 1] == ':'
    decreases |path|
  {
    if |path| > 1 {
      PathEndsInColon(path[1..]);
    }
  }

  ghost predicate AllKnown(p: Primitives, stash: IVs, calls: seq<Call>) {
    forall call :: call in calls ==> Known(p, stash, call)
  }

  ghost predicate AllRemembered(p: Primitives, stash: IVs, calls: seq<Call>) {
    forall call :: call in calls ==> Remembered(p, stash, call)
  }

  // ---------- One leaf ----------

  /** Encrypting the decrypted value gives the ciphertext again exactly when its vector is
      remembered. */
  lemma SealedAgain(p: Primitives, v: Value, key: bytes, ad: string, iv: string, stash: IVs, random: string)
    requires Stash.Faithful(p) && !IsEmpty(v) && Show(p, v).Some? && |iv| == NONCE_SIZE && GoodKey(key)
    ensures var c := Sealed(p, v, key, ad, iv);
            var call := DecryptCall(c, key, ad);
            && Made(p, key, call)
            && (Known(p, stash, call) ==>
                  (Stash.Encrypted(p, stash, Plain(v), key, ad, random) == Reply(c) <==> Remembered(p, stash, call)))
  {
    var w, c := Plain(v), Sealed(p, v, key, ad, iv);
    var call, k := DecryptCall(c, key, ad), StashKey(ad, Plain(v));
    DecryptUndoesEncrypt(p, v, key, ad, iv);
    PlainIsSealedAlike(p, v, key, ad, iv);
    ShownIsRead(p, v);
    hide Opened; hide Sealed; hide Show; hide Stash.Faithful; hide Read;
    assert Leaves(p, call, w, iv);
    assert k in Entry(p, call);
    if Known(p, stash, call) {
      PlainIsSealedAlike(p, v, key, ad, stash[k]);
      DecryptUndoesEncrypt(p, v, key, ad, stash[k]);
      assert map[k := iv][k] == iv && map[k := stash[k]][k] == stash[k];
    }
  }

  lemma EncryptedAgain(c: Twice, enc: Env, dec: Env, enc': Env, v: Value, ad: string, n: nat, n': nat)
    requires Encrypts(c, enc, dec, enc') && enc.cipher.encrypt(v, enc.key, ad, n).Ok?
    ensures var w := enc.cipher.encrypt(v, enc.key, ad, n).value;
            var call := DecryptCall(w, enc.key, ad);
            && Made(c.p, enc.key, call)
            && (Known(c.p, c.stash', call) ==>
                  (enc'.cipher.encrypt(Plain(v), enc.key, ad, n') == Ok(w) <==> Remembered(c.p, c.stash', call)))
            && (IsEmpty(v) ==> w == "" && enc'.cipher.encrypt(Plain(v), enc.key, ad, n') == Ok(w))
  {
    assert enc.cipher.encrypt(v, enc.key, ad, n)
        == AsResult(Stash.Encrypted(c.p, c.stash, v, enc.key, ad, c.random(n)));
    assert enc'.cipher.encrypt(Plain(v), enc.key, ad, n')
        == AsResult(Stash.Encrypted(c.p, c.stash', Plain(v), enc.key, ad, c.random'(n')));
    if !IsEmpty(v) {
      var iv := if StashKey(ad, v) in c.stash then c.stash[StashKey(ad, v)] else c.random(n);
      SealedAgain(c.p, v, enc.key, ad, iv, c.stash', c.random'(n'));
    }
    hide Sealed; hide Made; hide Known; hide Remembered; hide Show; hide Stash.Faithful; hide KeepsLength;
  }

  /** The second encryption gives what the first one gave exactly when the calls that decrypted it are
      remembered. */
  ghost predicate ComesAgain(c: Twice, calls: seq<Call>, key: bytes, same: bool) {
    AllMade(c.p, key, calls) && (AllKnown(c.p, c.stash', calls) ==> (same <==> AllRemembered(c.p, c.stash', calls)))
  }

  lemma OneCall(c: Twice, call: Call, key: bytes, same: bool)
    requires AtPath(call) && Made(c.p, key, call)
    requires Known(c.p, c.stash', call) ==> (same <==> Remembered(c.p, c.stash', call))
    ensures ComesAgain(c, [call], key, same)
  {
    hide Made; hide Known; hide Remembered;
    assert call in [call];
  }

  lemma NoCall(c: Twice, key: bytes)
    ensures ComesAgain(c, [], key, true)
  {
    hide Made; hide Known; hide Remembered;
  }

  /** A leaf or a comment that is encrypted both times. */
  lemma EncryptLeafAgain(c: Twice, enc: Env, dec: Env, enc': Env, v: Value, path: seq<string>, scope: seq<string>,
                         st: Written, st2: Written)
    requires Encrypts(c, enc, dec, enc') && Walker.IsEncrypted(enc, v, path, scope)
    requires v.Str? || v.Int? || v.Bool? || v.Float? || v.Time? || v.Comment?
    requires Walker.OnLeaf(enc, v, path, scope, st).Ok?
    ensures var w := Walker.OnLeaf(enc, v, path, scope, st).value.0;
            var r := Walker.OnLeaf(enc', Plain(v), path, scope, st2);
            && w.Str?
            && ComesAgain(c, [DecryptCall(w.text, enc.key, Walker.PathString(path))], enc.key,
                              r.Ok? && r.value.0 == w)
            && (IsEmpty(v) ==> r.Ok? && r.value.0 == w)
  {
    hide Decide; hide Made; hide Known; hide Remembered; hide Walker.PathString; hide ComesAgain;
    hide Stash.Faithful; hide KeepsLength;
    var ad := Walker.PathString(path);
    var n, n' := Walker.Hashed(enc, v, true, st).value.calls, Walker.Hashed(enc', Plain(v), true, st2).value.calls;
    EncryptedAgain(c, enc, dec, enc', v, ad, n, n');
    var w := enc.cipher.encrypt(v, enc.key, ad, n).value;
    var r := enc'.cipher.encrypt(Plain(v), enc.key, ad, n');
    PathEndsInColon(path);
    OneCall(c, DecryptCall(w, enc.key, ad), enc.key, r == Ok(w));
    hide Stash.Show; hide Sealed;
  }

  lemma LeafAgain(c: Twice, enc: Env, dec: Env, enc': Env, v: Value, path: seq<string>, full: seq<string>,
                  thin: seq<string>, read: seq<string>, st: Written, st2: Written)
    requires Encrypts(c, enc, dec, enc') && InStep(enc.rules, enc.matches, full, thin, read)
    requires v.Str? || v.Int? || v.Bool? || v.Float? || v.Time?
    requires v == Str("") || SameDecision(enc.rules, enc.matches, path, full, thin, None)
    requires Walker.OnLeaf(enc, v, path, full, st).Ok?
    ensures var w := Walker.OnLeaf(enc, v, path, full, st).value.0;
            var r := Walker.OnLeaf(enc', v, path, full, st2);
            && (w.Str? || w == v)
            && ComesAgain(c, LeafCalls(dec, w, path, read), enc.key, r.Ok? && r.value.0 == w)
  {
    DecisionsAgree(enc.rules, enc.matches, path, thin, read, None, None);
    WeakerDecides(enc.rules, enc.matches, path, full, thin, None);
    hide Decide; hide InStep; hide ComesAgain; hide Walker.PathString;
    NoCall(c, enc.key);
    if Walker.IsEncrypted(enc, v, path, full) {
      EncryptLeafAgain(c, enc, dec, enc', v, path, full, st, st2);
      hide Encrypts; hide Walker.OnLeaf;
    }
  }

  /** The ciphertext of a comment, as a string or as a comment, is decrypted in one call. */
  lemma CiphertextIsRead(enc: Env, dec: Env, v: Value, x: Value, path: seq<string>, thin: seq<string>,
                         read: seq<string>, st: Written, n: nat)
    requires Pair(enc, dec) && RoundTrip.Faithful(enc) && Reread(enc.rules, enc.matches, thin, read)
    requires v.Comment? && v.text != "" && CommentDecision(enc.rules, enc.matches, thin, v.text)
    requires (x.Str? || x.Comment?) && enc.cipher.encrypt(v, enc.key, Walker.PathString(path), n) == Ok(x.text)
    ensures Walker.OnLeaf(dec, x, path, read, st) == Ok((Plain(v), st))
    ensures LeafCalls(dec, x, path, read) == [DecryptCall(x.text, enc.key, Walker.PathString(path))]
  {
    hide Walker.PathString; hide Decide; hide IsDirective; hide Reread;
    assert Undone(enc, v, Walker.PathString(path), x.text);
    hide RoundTrip.Faithful;
    ScopeDecidesAlike(enc.rules, enc.matches, path, thin, read, v.text, x.text);
    hide Walker.OnLeaf;
    DecryptedText(dec, x, path, read, st, Plain(v));
  }

  lemma StableComment(rules: Rules, matches: Matcher, v: Value, path: seq<string>, full: seq<string>,
                      thin: seq<string>)
    requires v.Comment? && Stable(rules, matches, v, path, full, thin) && CommentDecision(rules, matches, full, v.text)
    ensures v.text != "" && CommentDecision(rules, matches, thin, v.text)
    ensures Decide(rules, matches, path, full, Some(v.text))
  {
    CommentsIgnorePath(rules, matches, path, full, v.text);
    CommentsIgnorePath(rules, matches, path, thin, v.text);
    hide Decide; hide CommentDecision;
  }

  lemma EncryptedValueAgain(c: Twice, enc: Env, dec: Env, enc': Env, v: Value, path: seq<string>, full: seq<string>,
                            thin: seq<string>, read: seq<string>, st: Written, st': Written, st2: Written)
    requires Encrypts(c, enc, dec, enc') && RoundTrip.Faithful(enc) && InStep(enc.rules, enc.matches, full, thin, read)
    requires v.Comment? && Stable(enc.rules, enc.matches, v, path, full, thin)
    requires Walker.OnLeaf(enc, v, path, full, st).Ok?
    requires CommentDecision(enc.rules, enc.matches, full, v.text)
    ensures var w := Walker.OnLeaf(enc, v, path, full, st).value.0;
            var t := Walker.OnLeaf(dec, w, path, read, st');
            && w.Str? && t == Ok((Plain(v), st'))
            && var r := Walker.OnLeaf(enc', t.value.0, path, full, st2);
               ComesAgain(c, LeafCalls(dec, w, path, read), enc.key, r.Ok? && Equal(r.value.0, w))
  {
    StableComment(enc.rules, enc.matches, v, path, full, thin);
    EncryptsPair(c, enc, dec, enc');
    hide ComesAgain; hide Walker.PathString; hide Decide; hide Weaker; hide Reread; hide Walker.OnLeaf;
    hide CommentDecision; hide Encrypts; hide RoundTrip.Faithful; hide LeafCalls; hide Stable; hide Equal;
    EncryptLeafAgain(c, enc, dec, enc', v, path, full, st, st2);
    var w := CommentCiphertext(enc, v, path, full, st);
    CiphertextIsRead(enc, dec, v, Str(w), path, thin, read, st', st.calls);
    var r := Walker.OnLeaf(enc', Plain(v), path, full, st2);
    if r.Ok? {
      LeafEqual(r.value.0, Str(w));
    }
  }

  /** A comment in a list, or as the value of an item. */
  lemma CommentValueAgain(c: Twice, enc: Env, dec: Env, enc': Env, v: Value, path: seq<string>, full: seq<string>,
                          thin: seq<string>, read: seq<string>, st: Written, st': Written, st2: Written)
    requires Encrypts(c, enc, dec, enc') && RoundTrip.Faithful(enc) && InStep(enc.rules, enc.matches, full, thin, read)
    requires v.Comment? && Stable(enc.rules, enc.matches, v, path, full, thin)
    requires Walker.OnLeaf(enc, v, path, full, st).Ok?
    ensures var w := Walker.OnLeaf(enc, v, path, full, st).value.0;
            var t := Walker.OnLeaf(dec, w, path, read, st');
            && (w.Str? || w.Comment?) && t.Ok? && t.value.0.Comment? && t.value.0.text == v.text
            && var r := Walker.OnLeaf(enc', t.value.0, path, full, st2);
               ComesAgain(c, LeafCalls(dec, w, path, read), enc.key, r.Ok? && Equal(r.value.0, w))
  {
    hide ComesAgain; hide Stash.Faithful; hide KeepsLength; hide RoundTrip.Faithful; hide Walker.PathString;
    hide Decide; hide InStep; hide Walker.OnLeaf; hide LeafCalls; hide CommentDecision; hide Stable;
    CommentsIgnorePath(enc.rules, enc.matches, path, full, v.text);
    if CommentDecision(enc.rules, enc.matches, full, v.text) {
      EncryptedValueAgain(c, enc, dec, enc', v, path, full, thin, read, st, st', st2);
    } else {
      PlainTextStays(enc, dec, v, path, full, thin, read);
      NoCall(c, enc.key);
      PlainComment(enc, v, path, full, st);
      PlainComment(dec, v, path, read, st');
      PlainComment(enc', v, path, full, st2);
    }
  }

  lemma CommentCiphertext(enc: Env, v: Value, path: seq<string>, scope: seq<string>, st: Written) returns (w: string)
    requires enc.mode == Walker.Encrypting && v.Comment? && Walker.IsEncrypted(enc, v, path, scope)
    requires Walker.OnLeaf(enc, v, path, scope, st).Ok?
    ensures Walker.OnLeaf(enc, v, path, scope, st).value.0 == Str(w)
    ensures enc.cipher.encrypt(v, enc.key, Walker.PathString(path), st.calls) == Ok(w)
  {
    hide Decide; hide Walker.PathString;
    w := Walker.OnLeaf(enc, v, path, scope, st).value.0.text;
  }

  lemma PlainComment(env: Env, v: Value, path: seq<string>, scope: seq<string>, st: Written)
    requires v.Comment? && !Walker.IsEncrypted(env, v, path, scope)
    ensures Walker.OnLeaf(env, v, path, scope, st) == Ok((v, st))
  {
    hide Decide;
  }

  lemma DecryptedText(dec: Env, v: Value, path: seq<string>, scope: seq<string>, st: Written, plain: Value)
    requires dec.mode == Walker.Decrypting && (v.Comment? || v.Str?) && Walker.IsEncrypted(dec, v, path, scope)
    requires dec.cipher.decrypt(v.text, dec.key, Walker.PathString(path)) == Ok(plain)
    requires plain.Comment? || plain == Str("")
    ensures var r := Walker.OnLeaf(dec, v, path, scope, st);
            r.Ok? && r.value.0 == plain && (plain.Comment? ==> r.value.1 == st)
    ensures LeafCalls(dec, v, path, scope) == [DecryptCall(v.text, dec.key, Walker.PathString(path))]
  {
    hide Decide; hide Walker.PathString;
  }

  /** An empty comment is encrypted to nothing, whatever the stash. */
  lemma EmptyCommentAgain(c: Twice, enc: Env, dec: Env, enc': Env, path: seq<string>, scope: seq<string>,
                          inline: bool, inline': bool, st: Written, st2: Written)
    requires Encrypts(c, enc, dec, enc') && Walker.IsEncrypted(enc, Comment("", inline), path, scope)
    requires Walker.OnLeaf(enc, Comment("", inline), path, scope, st).Ok?
    ensures Walker.OnLeaf(enc, Comment("", inline), path, scope, st).value.0 == Str("")
    ensures var r := Walker.OnLeaf(enc', Comment("", inline'), path, scope, st2);
            r.Ok? && r.value.0 == Str("")
  {
    var v, v', ad := Comment("", inline), Comment("", inline'), Walker.PathString(path);
    assert enc.cipher.encrypt(v, enc.key, ad, st.calls)
        == AsResult(Stash.Encrypted(c.p, c.stash, v, enc.key, ad, c.random(st.calls)));
    assert enc'.cipher.encrypt(v', enc.key, ad, st2.calls)
        == AsResult(Stash.Encrypted(c.p, c.stash', v', enc.key, ad, c.random'(st2.calls)));
    hide Decide; hide Walker.PathString; hide Stash.Faithful; hide KeepsLength;
  }

  lemma EmptyCallAgain(c: Twice, key: bytes, path: seq<string>)
    ensures ComesAgain(c, [DecryptCall("", key, Walker.PathString(path))], key, true)
  {
    PathEndsInColon(path);
    hide Walker.PathString;
  }

  /** The comment `v` as a key, through the three walks. */
  ghost predicate TextComesAgain(c: Twice, enc: Env, dec: Env, enc': Env, v: Value, path: seq<string>,
                                 full: seq<string>, read: seq<string>, st: Written, st': Written, st2: Written)
    requires v.Comment? && Walker.OnLeaf(enc, v, path, full, st).Ok?
  {
    var w := Walker.OnLeaf(enc, v, path, full, st).value.0;
    && (w.Str? || w == v)
    && var x := Comment(w.text, v.inline);
       var y := Walker.OnLeaf(dec, x, path, read, st');
       && y.Ok? && (y.value.0.Str? || y.value.0.Comment?) && y.value.0.text == v.text
       && var t := if y.value.0.Comment? then y.value.0 else Comment(y.value.0.text, v.inline);
          var r := Walker.OnLeaf(enc', t, path, full, st2);
          && (r.Ok? ==> r.value.0.Str? || r.value.0.Comment?)
          && ComesAgain(c, LeafCalls(dec, x, path, read), enc.key, r.Ok? && r.value.0.text == w.text)
  }

  lemma EmptyTextAgain(c: Twice, enc: Env, dec: Env, enc': Env, v: Value, path: seq<string>, full: seq<string>,
                       read: seq<string>, st: Written, st': Written, st2: Written)
    requires Encrypts(c, enc, dec, enc') && v.Comment? && v.text == "" && Walker.IsEncrypted(enc, v, path, full)
    requires Walker.OnLeaf(enc, v, path, full, st).Ok?
    ensures TextComesAgain(c, enc, dec, enc', v, path, full, read, st, st', st2)
  {
    hide Decide; hide ComesAgain; hide Stash.Faithful; hide KeepsLength; hide Walker.PathString;
    hide Walker.OnLeaf;
    EmptyCommentAgain(c, enc, dec, enc', path, full, v.inline, v.inline, st, st2);
    NoCall(c, enc.key);
    EmptyCallAgain(c, enc.key, path);
    if Walker.IsEncrypted(dec, v, path, read) {
      assert dec.cipher.decrypt("", dec.key, Walker.PathString(path)) == Ok(Str(""));
      DecryptedText(dec, v, path, read, st', Str(""));
    } else {
      PlainComment(dec, v, path, read, st');
    }
  }

  lemma EncryptedTextAgain(c: Twice, enc: Env, dec: Env, enc': Env, v: Value, path: seq<string>, full: seq<string>,
                           thin: seq<string>, read: seq<string>, st: Written, st': Written, st2: Written)
    requires Encrypts(c, enc, dec, enc') && RoundTrip.Faithful(enc) && InStep(enc.rules, enc.matches, full, thin, read)
    requires v.Comment? && v.text != "" && CommentDecision(enc.rules, enc.matches, full, v.text)
    requires SameDecision(enc.rules, enc.matches, path, full, thin, Some(v.text))
    requires Walker.OnLeaf(enc, v, path, full, st).Ok?
    ensures TextComesAgain(c, enc, dec, enc', v, path, full, read, st, st', st2)
  {
    CommentsIgnorePath(enc.rules, enc.matches, path, full, v.text);
    CommentsIgnorePath(enc.rules, enc.matches, path, thin, v.text);
    EncryptsPair(c, enc, dec, enc');
    hide Decide; hide Reread; hide Weaker; hide CommentDecision; hide ComesAgain; hide Walker.PathString;
    hide Walker.OnLeaf; hide Encrypts; hide RoundTrip.Faithful; hide LeafCalls;
    EncryptLeafAgain(c, enc, dec, enc', v, path, full, st, st2);
    var w := CommentCiphertext(enc, v, path, full, st);
    CiphertextIsRead(enc, dec, v, Comment(w, v.inline), path, thin, read, st', st.calls);
  }

  /** The text of a comment that stays a comment. */
  lemma CommentTextAgain(c: Twice, enc: Env, dec: Env, enc': Env, v: Value, path: seq<string>, full: seq<string>,
                         thin: seq<string>, read: seq<string>, st: Written, st': Written, st2: Written)
    requires Encrypts(c, enc, dec, enc') && RoundTrip.Faithful(enc) && InStep(enc.rules, enc.matches, full, thin, read)
    requires v.Comment? && (v.text == "" || SameDecision(enc.rules, enc.matches, path, full, thin, Some(v.text)))
    requires Walker.OnLeaf(enc, v, path, full, st).Ok?
    ensures TextComesAgain(c, enc, dec, enc', v, path, full, read, st, st', st2)
  {
    hide ComesAgain; hide InStep; hide Stash.Faithful; hide KeepsLength; hide RoundTrip.Faithful;
    hide Walker.PathString; hide Walker.OnLeaf; hide Decide; hide CommentDecision;
    CommentsIgnorePath(enc.rules, enc.matches, path, full, v.text);
    if CommentDecision(enc.rules, enc.matches, full, v.text) {
      if v.text == "" {
        EmptyTextAgain(c, enc, dec, enc', v, path, full, read, st, st', st2);
      } else {
        EncryptedTextAgain(c, enc, dec, enc', v, path, full, thin, read, st, st', st2);
      }
    } else {
      PlainTextStays(enc, dec, v, path, full, thin, read);
      NoCall(c, enc.key);
      PlainComment(enc, v, path, full, st);
      PlainComment(dec, v, path, read, st');
      PlainComment(enc', v, path, full, st2);
    }
  }

  lemma PlainTextStays(enc: Env, dec: Env, v: Value, path: seq<string>, full: seq<string>, thin: seq<string>,
                       read: seq<string>)
    requires Pair(enc, dec) && InStep(enc.rules, enc.matches, full, thin, read)
    requires v.Comment? && !Walker.IsEncrypted(enc, v, path, full)
    ensures !Walker.IsEncrypted(dec, v, path, read) && LeafCalls(dec, v, path, read) == []
  {
    WeakerDecides(enc.rules, enc.matches, path, full, thin, Some(v.text));
    hide Decide; hide Reread; hide Weaker;
    DecisionsAgree(enc.rules, enc.matches, path, thin, read, Some(v.text), Some(v.text));
  }

  // ---------- The whole tree ----------

  lemma CallsJoin(c: Twice, first: seq<Call>, rest: seq<Call>, key: bytes, same: bool, restSame: bool)
    requires ComesAgain(c, first, key, same) && ComesAgain(c, rest, key, restSame)
    ensures ComesAgain(c, first + rest, key, same && restSame)
  {
    hide Made; hide Known; hide Remembered;
    var calls := first + rest;
    assert forall call :: call in calls <==> call in first || call in rest;
  }

  lemma SameRun(run: seq<string>, item: Item, t: Item)
    requires EqualItem(t, NormalizedItem(item))
    ensures Walker.NextRun(run, t) == Walker.NextRun(run, item)
  {
    if !item.key.Remark? {
      SameListRun(run, item.value, t.value);
      assert Walker.NextRun(run, item) == Walker.NextListRun(run, item.value);
    }
  }

  lemma SameListRun(run: seq<string>, v: Value, t: Value)
    requires Equal(t, Normalized(v))
    ensures Walker.NextListRun(run, t) == Walker.NextListRun(run, v)
  {}

  /** A comment as the key of an item. */
  lemma RemarkAgain(c: Twice, enc: Env, dec: Env, enc': Env, item: Item, path: seq<string>, full: seq<string>,
                    thin: seq<string>, read: seq<string>, st: Written, st': Written, st2: Written)
    requires Encrypts(c, enc, dec, enc') && RoundTrip.Faithful(enc) && InStep(enc.rules, enc.matches, full, thin, read)
    requires item.key.Remark? && StableItem(enc.rules, enc.matches, item, path, full, thin)
    requires Walker.WalkItem(enc, item, path, full, st).Ok?
    ensures var w := Walker.WalkItem(enc, item, path, full, st).value.0;
            var t := Walker.WalkItem(dec, w, path, read, st');
            && t.Ok?
            && var r := Walker.WalkItem(enc', t.value.0, path, full, st2);
               ComesAgain(c, ItemCalls(dec, w, path, read), enc.key, r.Ok? && EqualItem(r.value.0, w))
  {
    hide Walker.OnLeaf; hide InStep; hide RoundTrip.Faithful; hide ComesAgain; hide Encrypts; hide SameDecision;
    hide LeafCalls;
    var v := Comment(item.key.text, item.key.inline);
    CommentTextAgain(c, enc, dec, enc', v, path, full, thin, read, st, st', st2);
    WalkRemark(enc, item, path, full, st);
    var w := Walker.WalkItem(enc, item, path, full, st).value.0;
    WalkRemark(dec, w, path, read, st');
    var t := Walker.WalkItem(dec, w, path, read, st').value.0;
    WalkRemark(enc', t, path, full, st2);
    EqualReflexive(item.value);
    hide Walker.WalkItem;
  }

  lemma LeafValueAgain(c: Twice, enc: Env, dec: Env, enc': Env, v: Value, path: seq<string>, full: seq<string>,
                       thin: seq<string>, read: seq<string>, st: Written, st': Written, st2: Written)
    requires Encrypts(c, enc, dec, enc') && RoundTrip.Faithful(enc) && Telling(enc)
    requires InStep(enc.rules, enc.matches, full, thin, read)
    requires v.Str? || v.Int? || v.Bool? || v.Float? || v.Time?
    requires v == Str("") || SameDecision(enc.rules, enc.matches, path, full, thin, None)
    requires st.hash == st'.hash && Walker.OnLeaf(enc, v, path, full, st).Ok?
    ensures var w := Walker.OnLeaf(enc, v, path, full, st).value.0;
            var t := Walker.WalkValue(dec, w, path, read, st');
            && t.Ok?
            && var r := Walker.WalkValue(enc', t.value.0, path, full, st2);
               ComesAgain(c, ValueCalls(dec, w, path, read), enc.key, r.Ok? && Equal(r.value.0, w))
  {
    hide Walker.OnLeaf; hide InStep; hide RoundTrip.Faithful; hide Telling; hide ComesAgain; hide SameDecision;
    hide LeafCalls;
    EncryptsPair(c, enc, dec, enc');
    hide Encrypts;
    LeafExactly(enc, dec, v, path, full, thin, read, st, st');
    LeafAgain(c, enc, dec, enc', v, path, full, thin, read, st, st2);
    var w := Walker.OnLeaf(enc, v, path, full, st).value.0;
    var r := Walker.OnLeaf(enc', v, path, full, st2);
    if r.Ok? {
      LeafEqual(r.value.0, w);
    }
  }

  lemma LeafEqual(a: Value, w: Value)
    requires w.Str? || w.Int? || w.Bool? || w.Float? || w.Time?
    ensures Equal(a, w) <==> a == w
  {}

  lemma {:induction false} ValueAgain(c: Twice, enc: Env, dec: Env, enc': Env, v: Value, path: seq<string>,
                                      full: seq<string>, thin: seq<string>, read: seq<string>,
                                      st: Written, st': Written, st2: Written)
    requires Encrypts(c, enc, dec, enc') && RoundTrip.Faithful(enc) && Telling(enc)
    requires InStep(enc.rules, enc.matches, full, thin, read) && Stable(enc.rules, enc.matches, v, path, full, thin)
    requires st.hash == st'.hash && Walker.WalkValue(enc, v, path, full, st).Ok?
    ensures var w := Walker.WalkValue(enc, v, path, full, st).value.0;
            var t := Walker.WalkValue(dec, w, path, read, st');
            && t.Ok?
            && var r := Walker.WalkValue(enc', t.value.0, path, full, st2);
               ComesAgain(c, ValueCalls(dec, w, path, read), enc.key, r.Ok? && Equal(r.value.0, w))
    decreases v, 1
  {
    hide Walker.OnLeaf; hide InStep; hide RoundTrip.Faithful; hide Telling; hide ComesAgain; hide Encrypts;
    hide SameDecision; hide LeafCalls;
    hide Walker.WalkItems; hide Walker.WalkElems; hide EqualItems; hide EqualElems; hide ItemsCalls; hide ElemsCalls;
    hide StableItems; hide StableElems;
    match v
    case Branch(items) =>
      assert full + [] == full && thin + [] == thin && read + [] == read;
      ItemsAgain(c, enc, dec, enc', items, path, full, thin, read, [], [], [], st, st', st2);
    case List(elems) =>
      assert full + [] == full && thin + [] == thin && read + [] == read;
      ElemsAgain(c, enc, dec, enc', elems, path, full, thin, read, [], [], [], st, st', st2);
    case Comment(_, _) =>
      hide Stable;
      CommentValueAgain(c, enc, dec, enc', v, path, full, thin, read, st, st', st2);
    case Nil => NoCall(c, enc.key);
    case Bytes(raw) => LeafValueAgain(c, enc, dec, enc', Str(raw), path, full, thin, read, st, st', st2);
    case _ => LeafValueAgain(c, enc, dec, enc', v, path, full, thin, read, st, st', st2);
  }

  lemma {:induction false} ItemAgain(c: Twice, enc: Env, dec: Env, enc': Env, item: Item, path: seq<string>,
                                     full: seq<string>, thin: seq<string>, read: seq<string>,
                                     st: Written, st': Written, st2: Written)
    requires Encrypts(c, enc, dec, enc') && RoundTrip.Faithful(enc) && Telling(enc)
    requires InStep(enc.rules, enc.matches, full, thin, read)
    requires StableItem(enc.rules, enc.matches, item, path, full, thin)
    requires st.hash == st'.hash && Walker.WalkItem(enc, item, path, full, st).Ok?
    ensures var w := Walker.WalkItem(enc, item, path, full, st).value.0;
            var t := Walker.WalkItem(dec, w, path, read, st');
            && t.Ok?
            && var r := Walker.WalkItem(enc', t.value.0, path, full, st2);
               ComesAgain(c, ItemCalls(dec, w, path, read), enc.key, r.Ok? && EqualItem(r.value.0, w))
    decreases item, 2
  {
    hide InStep; hide RoundTrip.Faithful; hide Telling; hide ComesAgain; hide Encrypts; hide Walker.OnLeaf;
    match item.key
    case Remark(_, _) => RemarkAgain(c, enc, dec, enc', item, path, full, thin, read, st, st', st2);
    case Name(name) => ValueAgain(c, enc, dec, enc', item.value, path + [name], full, thin, read, st, st', st2);
    case Index(_) =>
  }

  lemma {:induction false} ItemsAgain(c: Twice, enc: Env, dec: Env, enc': Env, items: TreeBranch, path: seq<string>,
                                      outer: seq<string>, thinOuter: seq<string>, readOuter: seq<string>,
                                      run: seq<string>, thinRun: seq<string>, readRun: seq<string>,
                                      st: Written, st': Written, st2: Written)
    requires Encrypts(c, enc, dec, enc') && RoundTrip.Faithful(enc) && Telling(enc)
    requires InStep(enc.rules, enc.matches, outer, thinOuter, readOuter)
    requires InStep(enc.rules, enc.matches, outer + run, thinOuter + thinRun, readOuter + readRun)
    requires StableItems(enc.rules, enc.matches, items, path, outer, thinOuter, run, thinRun)
    requires st.hash == st'.hash && Walker.WalkItems(enc, items, path, outer, run, st).Ok?
    ensures var ws := Walker.WalkItems(enc, items, path, outer, run, st).value.0;
            var t := Walker.WalkItems(dec, ws, path, readOuter, readRun, st');
            && t.Ok?
            && var r := Walker.WalkItems(enc', t.value.0, path, outer, run, st2);
               ComesAgain(c, ItemsCalls(dec, ws, path, readOuter, readRun), enc.key,
                          r.Ok? && EqualItems(r.value.0, ws))
    decreases items, 0
  {
    hide InStep; hide RoundTrip.Faithful; hide Telling; hide Walker.WalkItem; hide StableItem; hide ThinCounterpart;
    hide EqualItem; hide NormalizedItem; hide ComesAgain; hide Encrypts; hide ItemCalls;
    if items == [] {
      NoCall(c, enc.key);
    } else {
      var rules, matches, full := enc.rules, enc.matches, outer + run;
      assert Pair(enc, dec) && enc'.mode == enc.mode by {
        EncryptsPair(c, enc, dec, enc');
      }
      ItemExactly(enc, dec, items[0], path, full, thinOuter + thinRun, readOuter + readRun, st, st');
      ItemAgain(c, enc, dec, enc', items[0], path, full, thinOuter + thinRun, readOuter + readRun, st, st', st2);
      var (w, s) := Walker.WalkItem(enc, items[0], path, full, st).value;
      var (t, s') := Walker.WalkItem(dec, w, path, readOuter + readRun, st').value;
      var r := Walker.WalkItem(enc', t, path, full, st2);
      var s2 := if r.Ok? then r.value.1 else st2;
      var next, nextRead := Walker.NextRun(run, items[0]), Walker.NextRun(readRun, w);
      var nextThin := ThinItemRun(rules, matches, full, thinRun, items[0]);
      var ws := Walker.WalkItems(enc, items[1..], path, outer, next, s).value.0;
      assert ([w] + ws)[1..] == ws;
      RunsStayThin(rules, matches, path, outer, thinOuter, readOuter, run, thinRun, readRun, items[0], w);
      SameRun(run, items[0], t);
      hide Walker.NextRun; hide ThinItemRun;
      ItemsAgain(c, enc, dec, enc', items[1..], path, outer, thinOuter, readOuter, next, nextThin, nextRead, s, s', s2);
      var ts := Walker.WalkItems(dec, ws, path, readOuter, nextRead, s').value.0;
      assert ([t] + ts)[1..] == ts;
      var rs := Walker.WalkItems(enc', ts, path, outer, next, s2);
      CallsJoin(c, ItemCalls(dec, w, path, readOuter + readRun), ItemsCalls(dec, ws, path, readOuter, nextRead),
                enc.key, r.Ok? && EqualItem(r.value.0, w), rs.Ok? && EqualItems(rs.value.0, ws));
      if r.Ok? && rs.Ok? {
        assert ([r.value.0] + rs.value.0)[1..] == rs.value.0;
      }
    }
  }

  lemma EncryptsPair(c: Twice, enc: Env, dec: Env, enc': Env)
    requires Encrypts(c, enc, dec, enc')
    ensures Pair(enc, dec) && enc' == enc.(cipher := enc'.cipher)
  {}

  lemma {:induction false} ElemsAgain(c: Twice, enc: Env, dec: Env, enc': Env, elems: seq<Value>, path: seq<string>,
                                      outer: seq<string>, thinOuter: seq<string>, readOuter: seq<string>,
                                      run: seq<string>, thinRun: seq<string>, readRun: seq<string>,
                                      st: Written, st': Written, st2: Written)
    requires Encrypts(c, enc, dec, enc') && RoundTrip.Faithful(enc) && Telling(enc)
    requires InStep(enc.rules, enc.matches, outer, thinOuter, readOuter)
    requires InStep(enc.rules, enc.matches, outer + run, thinOuter + thinRun, readOuter + readRun)
    requires StableElems(enc.rules, enc.matches, elems, path, outer, thinOuter, run, thinRun)
    requires st.hash == st'.hash && Walker.WalkElems(enc, elems, path, outer, run, st).Ok?
    ensures var ws := Walker.WalkElems(enc, elems, path, outer, run, st).value.0;
            var t := Walker.WalkElems(dec, ws, path, readOuter, readRun, st');
            && t.Ok?
            && var r := Walker.WalkElems(enc', t.value.0, path, outer, run, st2);
               ComesAgain(c, ElemsCalls(dec, ws, path, readOuter, readRun), enc.key,
                          r.Ok? && EqualElems(r.value.0, ws))
    decreases elems, 0
  {
    hide InStep; hide RoundTrip.Faithful; hide Telling; hide Walker.WalkValue; hide Stable; hide ThinValue;
    hide Equal; hide Normalized; hide ComesAgain; hide Encrypts; hide ValueCalls;
    if elems == [] {
      NoCall(c, enc.key);
    } else {
      var rules, matches, full := enc.rules, enc.matches, outer + run;
      assert Pair(enc, dec) && enc'.mode == enc.mode by {
        EncryptsPair(c, enc, dec, enc');
      }
      ValueExactly(enc, dec, elems[0], path, full, thinOuter + thinRun, readOuter + readRun, st, st');
      ValueAgain(c, enc, dec, enc', elems[0], path, full, thinOuter + thinRun, readOuter + readRun, st, st', st2);
      var (w, s) := Walker.WalkValue(enc, elems[0], path, full, st).value;
      var (t, s') := Walker.WalkValue(dec, w, path, readOuter + readRun, st').value;
      var r := Walker.WalkValue(enc', t, path, full, st2);
      var s2 := if r.Ok? then r.value.1 else st2;
      var next, nextRead := Walker.NextListRun(run, elems[0]), Walker.NextListRun(readRun, w);
      var nextThin := ThinRun(rules, matches, full, thinRun, elems[0]);
      var ws := Walker.WalkElems(enc, elems[1..], path, outer, next, s).value.0;
      assert ([w] + ws)[1..] == ws;
      SameThinValue(rules, matches, full, elems[0], w);
      ValueRunsStayThin(rules, matches, outer, thinOuter, readOuter, run, thinRun, readRun, elems[0], w);
      SameListRun(run, elems[0], t);
      hide Walker.NextListRun; hide ThinRun;
      ElemsAgain(c, enc, dec, enc', elems[1..], path, outer, thinOuter, readOuter, next, nextThin, nextRead, s, s', s2);
      var ts := Walker.WalkElems(dec, ws, path, readOuter, nextRead, s').value.0;
      assert ([t] + ts)[1..] == ts;
      var rs := Walker.WalkElems(enc', ts, path, outer, next, s2);
      CallsJoin(c, ValueCalls(dec, w, path, readOuter + readRun), ElemsCalls(dec, ws, path, readOuter, nextRead),
                enc.key, r.Ok? && Equal(r.value.0, w), rs.Ok? && EqualElems(rs.value.0, ws));
      if r.Ok? && rs.Ok? {
        assert ([r.value.0] + rs.value.0)[1..] == rs.value.0;
      }
    }
  }

  // ---------- Documents ----------

  ghost predicate SameBranches(a: seq<TreeBranch>, b: seq<TreeBranch>) {
    |a| == |b| && forall i :: 0 <= i < |a| ==> EqualItems(a[i], b[i])
  }

  lemma SameBranchesCons(a: TreeBranch, restA: seq<TreeBranch>, b: TreeBranch, restB: seq<TreeBranch>)
    ensures SameBranches([a] + restA, [b] + restB) <==> EqualItems(a, b) && SameBranches(restA, restB)
  {
    hide EqualItems;
    var x, y := [a] + restA, [b] + restB;
    assert x[0] == a && y[0] == b;
    assert forall i :: 0 <= i < |restA| ==> x[i + 1] == restA[i];
    assert forall i :: 0 <= i < |restB| ==> y[i + 1] == restB[i];
  }

  lemma {:induction false} BranchesAgain(c: Twice, enc: Env, dec: Env, enc': Env, branches: seq<TreeBranch>,
                                         st: Written, st': Written, st2: Written)
    requires Encrypts(c, enc, dec, enc') && RoundTrip.Faithful(enc) && Telling(enc)
    requires StableBranches(enc.rules, enc.matches, branches)
    requires st.hash == st'.hash && Documents.WalkBranches(enc, branches, st).Ok?
    ensures var ws := Documents.WalkBranches(enc, branches, st).value.0;
            var t := Documents.WalkBranches(dec, ws, st');
            && t.Ok?
            && var r := Documents.WalkBranches(enc', t.value.0, st2);
               ComesAgain(c, BranchesCalls(dec, ws), enc.key, r.Ok? && SameBranches(r.value.0, ws))
    decreases |branches|
  {
    hide Walker.WalkItems; hide EqualItems; hide NormalizedItems; hide RoundTrip.Faithful; hide Telling;
    hide StableItems; hide InStep; hide ComesAgain; hide Encrypts; hide ItemsCalls;
    if branches == [] {
      NoCall(c, enc.key);
    } else {
      var first, rest := branches[0], branches[1..];
      NothingInScope(enc.rules, enc.matches);
      EncryptsPair(c, enc, dec, enc');
      var none: seq<string> := [];
      assert none + none == none;
      ItemsExactly(enc, dec, first, [], [], [], [], [], [], [], st, st');
      ItemsAgain(c, enc, dec, enc', first, [], [], [], [], [], [], [], st, st', st2);
      var (w, s) := Walker.WalkItems(enc, first, [], [], [], st).value;
      var (t, s') := Walker.WalkItems(dec, w, [], [], [], st').value;
      var r := Walker.WalkItems(enc', t, [], [], [], st2);
      var s2 := if r.Ok? then r.value.1 else st2;
      var ws := Documents.WalkBranches(enc, rest, s).value.0;
      assert ([w] + ws)[1..] == ws;
      BranchesAgain(c, enc, dec, enc', rest, s, s', s2);
      var ts := Documents.WalkBranches(dec, ws, s').value.0;
      assert ([t] + ts)[1..] == ts;
      var rs := Documents.WalkBranches(enc', ts, s2);
      CallsJoin(c, ItemsCalls(dec, w, [], [], []), BranchesCalls(dec, ws), enc.key,
                r.Ok? && EqualItems(r.value.0, w), rs.Ok? && SameBranches(rs.value.0, ws));
      if r.Ok? && rs.Ok? {
        SameBranchesCons(r.value.0, rs.value.0, w, ws);
      }
    }
  }

  // ---------- The stash after the decryption ----------

  /** Both calls decrypt the same value at the same path. */
  predicate SameValue(p: Primitives, a: Call, b: Call)
    requires a.DecryptCall? && b.DecryptCall?
  {
    && a.ciphertext != "" && b.ciphertext != "" && a.ad == b.ad
    && Opened(p, a.ciphertext, a.key, a.ad).0 == Opened(p, b.ciphertext, b.key, b.ad).0
  }

  /** No value stands twice at one path under different ciphertexts. */
  ghost predicate OneVectorEach(p: Primitives, calls: seq<Call>) {
    forall a, b :: a in calls && b in calls && a.DecryptCall? && b.DecryptCall? && SameValue(p, a, b) ==>
      a.ciphertext == b.ciphertext
  }

  /** The entry of a call that decrypts a ciphertext, and what it says. */
  lemma EntryOf(p: Primitives, key: bytes, call: Call) returns (v: Value, iv: string)
    requires Made(p, key, call) && call.ciphertext != ""
    ensures Opened(p, call.ciphertext, key, call.ad) == (Reply(v), map[StashKey(call.ad, v) := iv])
    ensures |iv| == NONCE_SIZE && Show(p, v).Some? && call.ciphertext == Sealed(p, v, key, call.ad, iv)
  {
    hide Opened; hide Sealed; hide Show;
    v, iv :| Leaves(p, call, v, iv);
  }

  lemma EntryOfNothing(p: Primitives, call: Call)
    requires call.DecryptCall? && call.ciphertext == ""
    ensures Entry(p, call) == map[]
  {}

  /** Two calls with an entry for the same key decrypt the same value; the entries are the same
      exactly when the ciphertexts are. */
  lemma SameEntry(p: Primitives, key: bytes, a: Call, b: Call, k: StashKey)
    requires Made(p, key, a) && Made(p, key, b) && k in Entry(p, a)
    ensures k in Entry(p, b) <==> b.ciphertext != "" && SameValue(p, a, b)
    ensures k in Entry(p, b) ==> (Entry(p, a)[k] == Entry(p, b)[k] <==> a.ciphertext == b.ciphertext)
    ensures |Entry(p, a)[k]| == NONCE_SIZE
  {
    if a.ciphertext == "" {
      EntryOfNothing(p, a);
    } else {
      var v, iv := EntryOf(p, key, a);
      if b.ciphertext == "" {
        EntryOfNothing(p, b);
      } else {
        var v', iv' := EntryOf(p, key, b);
      }
    }
    hide Opened; hide Sealed; hide Show; hide Made;
  }

  /** Every entry of the stash was left by one of the calls, and no call is forgotten. */
  lemma {:induction false} StashHolds(p: Primitives, calls: seq<Call>)
    requires forall call :: call in calls ==> call.DecryptCall?
    ensures forall k :: k in StashAfter(p, calls) ==>
              exists call :: call in calls && k in Entry(p, call) && Entry(p, call)[k] == StashAfter(p, calls)[k]
    ensures forall call, k :: call in calls && k in Entry(p, call) ==> k in StashAfter(p, calls)
    decreases |calls|
  {
    hide Opened;
    if calls != [] {
      var init, last := calls[..|calls| - 1], calls[|calls| - 1];
      assert calls == init + [last];
      StashHolds(p, init);
      assert StashAfter(p, calls) == StashAfter(p, init) + Entry(p, last);
      hide Entry;
    }
  }

  /** What the stash has for an entry of a call. */
  lemma StashHas(p: Primitives, key: bytes, calls: seq<Call>, a: Call, k: StashKey)
    requires AllMade(p, key, calls) && a in calls && k in Entry(p, a)
    ensures var stash := StashAfter(p, calls);
            && k in stash && |stash[k]| == NONCE_SIZE
            && (OneVectorEach(p, calls) ==> stash[k] == Entry(p, a)[k])
  {
    assert forall call :: call in calls ==> call.DecryptCall?;
    hide Made; hide Entry; hide StashAfter; hide SameValue;
    StashHolds(p, calls);
    var b :| b in calls && k in Entry(p, b) && Entry(p, b)[k] == StashAfter(p, calls)[k];
    SameEntry(p, key, a, b, k);
    SameEntry(p, key, b, a, k);
  }

  lemma SameValueSameCiphertext(p: Primitives, key: bytes, stash: IVs, a: Call, b: Call)
    requires Made(p, key, a) && Made(p, key, b) && SameValue(p, a, b)
    requires Remembered(p, stash, a) && Remembered(p, stash, b)
    ensures a.ciphertext == b.ciphertext
  {
    var v, iv := EntryOf(p, key, a);
    hide Opened; hide Sealed; hide Show; hide Made; hide SameValue;
    var k := StashKey(a.ad, v);
    assert k in Entry(p, a);
    hide Entry;
    SameEntry(p, key, a, b, k);
  }

  /** The stash after the calls remembers all of them if and only if no two of them are about the
      same value at the same path with different ciphertexts. */
  lemma RemembersExactly(p: Primitives, key: bytes, calls: seq<Call>)
    requires AllMade(p, key, calls)
    ensures AllKnown(p, StashAfter(p, calls), calls)
    ensures AllRemembered(p, StashAfter(p, calls), calls) <==> OneVectorEach(p, calls)
  {
    var stash := StashAfter(p, calls);
    hide StashAfter; hide Made; hide SameValue; hide Known; hide Remembered;
    forall a | a in calls
      ensures Known(p, stash, a) && (OneVectorEach(p, calls) ==> Remembered(p, stash, a))
    {
      CallIsKnown(p, key, calls, a);
    }
    if AllRemembered(p, stash, calls) {
      forall a, b | a in calls && b in calls && a.DecryptCall? && b.DecryptCall? && SameValue(p, a, b)
        ensures a.ciphertext == b.ciphertext
      {
        SameValueSameCiphertext(p, key, stash, a, b);
      }
    }
  }

  lemma CallIsKnown(p: Primitives, key: bytes, calls: seq<Call>, a: Call)
    requires AllMade(p, key, calls) && a in calls
    ensures var stash := StashAfter(p, calls);
            Known(p, stash, a) && (OneVectorEach(p, calls) ==> Remembered(p, stash, a))
  {
    assert Made(p, key, a);
    hide StashAfter; hide OneVectorEach; hide Entry;
    forall k | k in Entry(p, a)
      ensures var stash := StashAfter(p, calls);
              k in stash && |stash[k]| == NONCE_SIZE && (OneVectorEach(p, calls) ==> stash[k] == Entry(p, a)[k])
    {
      StashHas(p, key, calls, a, k);
    }
  }

  lemma EntriesApart(p: Primitives, key: bytes, a: Call, b: Call)
    requires a.DecryptCall? && b.DecryptCall? && Made(p, key, a) && Made(p, key, b) && a.ad != b.ad
    ensures forall k :: k in Entry(p, a) ==> k !in Entry(p, b)
  {
    hide Made; hide Entry;
    forall k | k in Entry(p, a)
      ensures k !in Entry(p, b)
    {
      SameEntry(p, key, a, b, k);
    }
  }

  /** What is decrypted under a time stamp, the MAC, does not touch the entries of the paths. */
  lemma MacIsApart(p: Primitives, key: bytes, calls: seq<Call>, mac: Call, a: Call)
    requires AllMade(p, key, calls) && a in calls && Made(p, key, mac) && !AtPath(mac)
    ensures Known(p, StashAfter(p, calls + [mac]), a) <==> Known(p, StashAfter(p, calls), a)
    ensures Remembered(p, StashAfter(p, calls + [mac]), a) <==> Remembered(p, StashAfter(p, calls), a)
  {
    assert Made(p, key, a) && AtPath(a) && (calls + [mac])[..|calls|] == calls;
    assert StashAfter(p, calls + [mac]) == StashAfter(p, calls) + Entry(p, mac);
    EntriesApart(p, key, a, mac);
    hide StashAfter; hide Made; hide Entry; hide AtPath;
  }

  /** The main result: a document that is decrypted and encrypted again unchanged, with the stash
      that the decryption left, is the encrypted document it was, if and only if no value stands
      twice at one path under different ciphertexts. The MAC is decrypted last, under the time
      stamp. */
  lemma ReencryptionReproducesExactly(p: Primitives, stash: IVs, random: nat -> string, random': nat -> string,
                                      enc: Env, dec: Env, branches: seq<TreeBranch>, mac: Call,
                                      st: Written, st': Written, st2: Written)
    requires Stash.Faithful(p) && KeepsLength(p) && Pair(enc, dec) && enc.cipher == CipherOf(p, stash, random)
    requires Documents.WalkBranches(enc, branches, st).Ok? && st.hash == st'.hash
    requires StableBranches(enc.rules, enc.matches, branches)
    requires Made(p, enc.key, mac) && !AtPath(mac)
    ensures var encrypted := Documents.WalkBranches(enc, branches, st).value.0;
            var plain := Documents.WalkBranches(dec, encrypted, st');
            var calls := BranchesCalls(dec, encrypted);
            && plain.Ok?
            && var enc' := enc.(cipher := CipherOf(p, StashAfter(p, calls + [mac]), random'));
               var again := Documents.WalkBranches(enc', plain.value.0, st2);
               again.Ok? && SameBranches(again.value.0, encrypted) <==> OneVectorEach(p, calls)
  {
    var encrypted := Documents.WalkBranches(enc, branches, st).value.0;
    var calls := BranchesCalls(dec, encrypted);
    var stash' := StashAfter(p, calls + [mac]);
    var c := Twice(p, stash, random, stash', random');
    var enc' := enc.(cipher := CipherOf(p, stash', random'));
    AesIsFaithful(enc, p, stash, random);
    AesIsTelling(enc, p, stash, random);
    hide Made; hide Stash.Faithful; hide KeepsLength; hide RoundTrip.Faithful; hide Telling; hide StableBranches;
    hide SameBranches; hide Documents.WalkBranches; hide BranchesCalls; hide StashAfter; hide Known; hide Remembered;
    hide OneVectorEach; hide AtPath;
    BranchesAgain(c, enc, dec, enc', branches, st, st', st2);
    RemembersExactly(p, enc.key, calls);
    forall a | a in calls
      ensures Known(p, stash', a) <==> Known(p, StashAfter(p, calls), a)
      ensures Remembered(p, stash', a) <==> Remembered(p, StashAfter(p, calls), a)
    {
      MacIsApart(p, enc.key, calls, mac, a);
    }
  }

  // ---------- Equal elements of a list ----------

  lemma EncryptedText(p: Primitives, random: nat -> string, enc: Env, s: string, st: Written) returns (c: string)
    requires enc.mode == Walker.Encrypting && enc.cipher == CipherOf(p, map[], random)
    requires Decide(enc.rules, enc.matches, ["k"], [], None)
    requires s != "" && GoodKey(enc.key) && |random(st.calls)| == NONCE_SIZE
    ensures c == Sealed(p, Str(s), enc.key, "k:", random(st.calls))
    ensures Walker.WalkValue(enc, Str(s), ["k"], [], st)
         == Ok((Str(c), Walker.Written.Written(st.hash + s, st.calls + 1)))
  {
    hide Decide; hide Sealed;
    c := Sealed(p, Str(s), enc.key, "k:", random(st.calls));
    assert Walker.PathString(["k"]) == "k:";
    assert enc.cipher.encrypt(Str(s), enc.key, "k:", st.calls)
        == AsResult(Stash.Encrypted(p, map[], Str(s), enc.key, "k:", random(st.calls)));
  }

  /** A document with one list of two values, under the key "k". */
  function ListDocument(a: Value, b: Value): seq<TreeBranch> {
    [[Item(Name("k"), List([a, b]))]]
  }

  lemma ListDocumentIsWalked(env: Env, a: Value, b: Value, a': Value, b': Value, st: Written, s1: Written, s2: Written)
    requires !a.Comment? && !b.Comment?
    requires Walker.WalkValue(env, a, ["k"], [], st) == Ok((a', s1))
    requires Walker.WalkValue(env, b, ["k"], [], s1) == Ok((b', s2))
    ensures Documents.WalkBranches(env, ListDocument(a, b), st) == Ok((ListDocument(a', b'), s2))
  {
    var none: seq<string> := [];
    assert none + none == none && [a, b][1..] == [b] && [b][1..] == [];
    Walker.ElemsStep(env, [a, b], ["k"], [], [], st);
    Walker.ElemsStep(env, [b], ["k"], [], [], s1);
    hide Walker.WalkElems;
    NothingWalked(env, ["k"], [], s2);
    assert [b'] + [] == [b'] && [a'] + [b'] == [a', b'];
    assert Walker.WalkElems(env, [a, b], ["k"], [], [], st) == Ok(([a', b'], s2));
    hide Walker.WalkValue;
    ListItemIsWalked(env, [a, b], [a', b'], st, s2);
  }

  lemma NothingWalked(env: Env, path: seq<string>, run: seq<string>, st: Written)
    ensures Walker.WalkElems(env, [], path, [], run, st) == Ok(([], st))
  {}

  lemma ListItemIsWalked(env: Env, elems: seq<Value>, elems': seq<Value>, st: Written, s: Written)
    requires Walker.WalkElems(env, elems, ["k"], [], [], st) == Ok((elems', s))
    ensures Documents.WalkBranches(env, [[Item(Name("k"), List(elems))]], st)
         == Ok(([[Item(Name("k"), List(elems'))]], s))
  {
    hide Walker.WalkElems;
    var none: seq<string> := [];
    var item, item' := Item(Name("k"), List(elems)), Item(Name("k"), List(elems'));
    assert none + ["k"] == ["k"] && none + none == none && [item][1..] == [] && [[item]][1..] == [];
    assert Walker.WalkItem(env, item, [], [], st) == Ok((item', s));
    hide Walker.WalkItem;
    assert [item'] + [] == [item'];
    assert Walker.WalkItems(env, [item], [], [], [], st) == Ok(([item'], s));
    hide Walker.WalkItems;
    assert [[item']] + [] == [[item']];
  }

  lemma ListDocumentCalls(dec: Env, a: string, b: string)
    requires Decide(dec.rules, dec.matches, ["k"], [], None)
    ensures BranchesCalls(dec, ListDocument(Str(a), Str(b)))
         == [DecryptCall(a, dec.key, "k:"), DecryptCall(b, dec.key, "k:")]
  {
    hide Decide;
    var none: seq<string> := [];
    var x, y := DecryptCall(a, dec.key, "k:"), DecryptCall(b, dec.key, "k:");
    assert Walker.PathString(["k"]) == "k:" && none + none == none && none + ["k"] == ["k"];
    assert LeafCalls(dec, Str(a), ["k"], []) == [x] && LeafCalls(dec, Str(b), ["k"], []) == [y];
    hide LeafCalls;
    assert [Str(a), Str(b)][1..] == [Str(b)] && [Str(b)][1..] == [];
    assert ElemsCalls(dec, [Str(b)], ["k"], [], []) == [y] + [] == [y];
    assert ElemsCalls(dec, [Str(a), Str(b)], ["k"], [], []) == [x] + [y] == [x, y];
    hide ElemsCalls;
    var item := Item(Name("k"), List([Str(a), Str(b)]));
    assert [item][1..] == [] && [[item]][1..] == [];
    assert ValueCalls(dec, item.value, ["k"], []) == [x, y];
    assert ItemCalls(dec, item, [], none) == [x, y];
    hide ItemCalls;
    assert ItemsCalls(dec, [item], [], [], []) == [x, y] + ItemsCalls(dec, [], [], [], []) == [x, y];
    hide ItemsCalls;
    assert [x, y] + [] == [x, y];
  }

  /** Two equal strings in a list, encrypted with two different vectors: the document does not come
      back from decrypting and encrypting it again. */
  lemma EqualElementsBreakIt(p: Primitives, random: nat -> string, enc: Env, dec: Env, s: string, hash: string)
    requires Stash.Faithful(p) && Pair(enc, dec) && enc.cipher == CipherOf(p, map[], random)
    requires Decide(enc.rules, enc.matches, ["k"], [], None) && s != "" && GoodKey(enc.key)
    requires |random(0)| == |random(1)| == NONCE_SIZE && random(0) != random(1)
    ensures var r := Documents.WalkBranches(enc, ListDocument(Str(s), Str(s)), Walker.Written.Written(hash, 0));
            r.Ok? && !OneVectorEach(p, BranchesCalls(dec, r.value.0))
  {
    hide Decide;
    var st, v, ad := Walker.Written.Written(hash, 0), Str(s), "k:";
    var s1, s2 := Walker.Written.Written(hash + s, 1), Walker.Written.Written(hash + s + s, 2);
    var a := EncryptedText(p, random, enc, s, st);
    var b := EncryptedText(p, random, enc, s, s1);
    ListDocumentIsWalked(enc, v, v, Str(a), Str(b), st, s1, s2);
    ListDocumentCalls(dec, a, b);
    DecryptUndoesEncrypt(p, v, enc.key, ad, random(0));
    DecryptUndoesEncrypt(p, v, enc.key, ad, random(1));
    hide Sealed; hide Opened; hide BranchesCalls; hide Documents.WalkBranches; hide Stash.Faithful;
    var k, x, y := StashKey(ad, v), DecryptCall(a, enc.key, ad), DecryptCall(b, enc.key, ad);
    assert map[k := random(0)][k] != map[k := random(1)][k];
    assert SameValue(p, x, y) && a != b;
    assert x in [x, y] && y in [x, y];
  }
}
