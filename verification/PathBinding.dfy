/**
 Ciphertexts are bound to their place: the joined path authenticates a value and the time stamp the
 MAC, so with a cipher that opens a text only under the additional data it was sealed with, a
 ciphertext that was moved is rejected, whether the MAC is checked or not.
 */
module PathBinding {
  import opened Results
  import opened Trees
  import opened Decisions
  import opened Walker
  import opened RoundTrip
  import opened Documents
  import opened CommentScopes
  import opened MacCoverage
  import EncryptionRules
  import Encrypting

  // ---------- Joined paths ----------

  /** Every key is there, in its order, each followed by a colon. */
  lemma {:induction false} PathStringGrows(path: seq<string>, key: string)
    ensures PathString([]) == ":"
    ensures PathString(path + [key]) == (if path == [] then "" else PathString(path)) + key + ":"
  {
    if path != [] {
      PathStringGrows(path[1..], key);
      assert (path + [key])[0] == path[0] && (path + [key])[1..] == path[1..] + [key];
      if |path| == 1 {
        assert path[1..] + [key] == [key];
      }
    }
  }

  predicate ColonFree(path: seq<string>) {
    forall i :: 0 <= i < |path| ==> ':' !in path[i]
  }

  /** Two texts up to their first colon, and the rest. */
  lemma FirstColon(a: string, s: string, b: string, t: string)
    requires ':' !in a && ':' !in b && a + ":" + s == b + ":" + t
    ensures a == b && s == t
  {
    var x, y := a + ":" + s, b + ":" + t;
    assert x[|a|] == ':' && y[|b|] == ':';
    assert forall i :: 0 <= i < |a| ==> x[i] == a[i];
    assert forall i :: 0 <= i < |b| ==> y[i] == b[i];
    assert |a| == |b|;
    assert a == x[..|a|] && b == y[..|b|] && s == x[|a| + 1..] && t == y[|b| + 1..];
  }

  /** Without colons in the keys, joined paths are told apart, except that the path to the elements of
      no branch reads like that of an empty key. */
  lemma {:induction false} PathStringTellsApart(p: seq<string>, q: seq<string>)
    requires ColonFree(p) && ColonFree(q)
    ensures PathString(p) == PathString(q) <==> p == q || (p in [[], [""]] && q in [[], [""]])
  {
    if p != [] && q != [] && PathString(p) == PathString(q) {
      var s := if |p| == 1 then "" else PathString(p[1..]);
      var t := if |q| == 1 then "" else PathString(q[1..]);
      assert PathString(p) == p[0] + ":" + s && PathString(q) == q[0] + ":" + t;
      FirstColon(p[0], s, q[0], t);
      PathStringNotEmpty(p[1..]);
      PathStringNotEmpty(q[1..]);
      if |p| > 1 {
        assert ColonFree(p[1..]) && ColonFree(q[1..]);
        PathStringTellsApart(p[1..], q[1..]);
        NoPathIsLeftOut(p, q);
      }
      assert p == [p[0]] + p[1..] && q == [q[0]] + q[1..];
    } else if p == [] && q != [] && PathString(q) == ":" {
      OnlyColon(q);
    } else if q == [] && p != [] && PathString(p) == ":" {
      OnlyColon(p);
    }
  }

  lemma NoPathIsLeftOut(p: seq<string>, q: seq<string>)
    requires |p| > 1 && |q| > 1
    ensures p[1..] != [] && q[1..] != []
  {}

  lemma PathStringNotEmpty(p: seq<string>)
    ensures PathString(p) != "" && PathString(p)[|PathString(p)| - 1] == ':'
  {
    if |p| > 1 {
      PathStringNotEmpty(p[1..]);
    }
  }

  lemma OnlyColon(q: seq<string>)
    requires q != [] && PathString(q) == ":"
    ensures q == [""]
  {
    if |q| > 1 {
      PathStringNotEmpty(q[1..]);
    }
    assert |q[0]| == 0;
  }

  /** With colons, they are not. */
  lemma ColonsConfuse()
    ensures PathString(["a:b"]) == PathString(["a", "b"]) == "a:b:"
  {
    assert ["a", "b"][1..] == ["b"];
  }

  // ---------- Bound ciphertexts ----------

  /** A text that is not empty opens only under the key and the additional data it was sealed with. */
  ghost predicate Binding(cipher: Cipher) {
    forall v, key, ad, n, key', ad' ::
      cipher.encrypt(v, key, ad, n).Ok? && (key' != key || ad' != ad) ==>
        OpensNot(cipher, cipher.encrypt(v, key, ad, n).value, key', ad')
  }

  ghost predicate OpensNot(cipher: Cipher, c: string, key: bytes, ad: string) {
    c != "" ==> cipher.decrypt(c, key, ad).Err?
  }

  /** The ciphertext of some value, made with this key for this place. */
  ghost predicate SealedFor(cipher: Cipher, c: string, key: bytes, ad: string) {
    c != "" && exists v, n :: cipher.encrypt(v, key, ad, n) == Ok(c)
  }

  lemma SealedElsewhere(cipher: Cipher, c: string, key: bytes, ad: string, key': bytes, ad': string)
    requires Binding(cipher) && SealedFor(cipher, c, key, ad) && (key' != key || ad' != ad)
    ensures cipher.decrypt(c, key', ad').Err?
  {
    var v, n :| cipher.encrypt(v, key, ad, n) == Ok(c);
    assert OpensNot(cipher, c, key', ad');
  }

  /** A leaf that decryption cannot read: anything but a string, or a text that does not open here. */
  ghost predicate IsUnreadable(dec: Env, leaf: Value, path: seq<string>) {
    IsPlainLeaf(leaf) && (leaf.Str? ==> dec.cipher.decrypt(leaf.text, dec.key, PathString(path)).Err?)
  }

  lemma UnreadableLeafFails(dec: Env, leaf: Value, path: seq<string>, scope: seq<string>, st: Written)
    requires dec.mode == Decrypting && IsUnreadable(dec, leaf, path)
    requires Decide(dec.rules, dec.matches, path, scope, None)
    ensures WalkValue(dec, leaf, path, scope, st).Err?
  {
    hide Decide; hide PathString;
  }

  /** A walk that decrypts fails on any tree with an unreadable leaf where a ciphertext is expected. */
  lemma UnreadableFails(dec: Env, v: Value, pos: seq<nat>, path: seq<string>, scope: seq<string>, st: Written)
    requires dec.mode == Decrypting && ValidAt(v, pos) && IsUnreadable(dec, At(v, pos), PathAt(v, pos, path))
    requires Decide(dec.rules, dec.matches, PathAt(v, pos, path), ScopeAt(v, pos, scope), None)
    ensures WalkValue(dec, v, path, scope, st).Err?
  {
    hide IsUnreadable; hide Decide;
    forall s {
      UnreadableLeafFails(dec, At(v, pos), PathAt(v, pos, path), ScopeAt(v, pos, scope), s);
    }
    hide WalkValue;
    if WalkValue(dec, v, path, scope, st).Ok? {
      var s := WalkedAt(dec, v, pos, path, scope, st);
    }
  }

  lemma {:induction false} FailedBranchFails(dec: Env, branches: seq<TreeBranch>, k: nat, st: Written)
    requires k < |branches| && forall s :: WalkItems(dec, branches[k], [], [], [], s).Err?
    ensures WalkBranches(dec, branches, st).Err?
  {
    hide WalkItems;
    if k > 0 {
      var first := WalkItems(dec, branches[0], [], [], [], st);
      if first.Ok? {
        FailedBranchFails(dec, branches[1..], k - 1, first.value.1);
      }
    }
  }

  /** So no document is decrypted that has a plain number there, or a text that does not open, not even
      without the MAC. */
  lemma UnreadableIsRejected(dec: Env, s: Sealed, ignoreMac: bool, f: Format, k: nat, pos: seq<nat>)
    requires dec.mode == Decrypting && k < |s.branches| && ValidAt(Branch(s.branches[k]), pos)
    requires var v := Branch(s.branches[k]);
             && IsUnreadable(dec, At(v, pos), PathAt(v, pos, []))
             && Decide(dec.rules, dec.matches, PathAt(v, pos, []), ScopeAt(v, pos, []), None)
    ensures DecryptedTree(dec, s, ignoreMac, f).Err?
  {
    hide Decide; hide IsUnreadable; hide At; hide ValidAt; hide PathAt; hide ScopeAt;
    forall st
      ensures WalkItems(dec, s.branches[k], [], [], [], st).Err?
    {
      UnreadableFails(dec, Branch(s.branches[k]), pos, [], [], st);
      hide WalkItems;
    }
    hide WalkItems;
    FailedBranchFails(dec, s.branches, k, Start(dec.rules));
  }

  /** Nor with a ciphertext there that was made with another key or for another path. */
  lemma ForeignCiphertextIsRejected(dec: Env, s: Sealed, ignoreMac: bool, f: Format, k: nat, pos: seq<nat>, c: string,
                                    key: bytes, ad: string)
    requires dec.mode == Decrypting && Binding(dec.cipher) && SealedFor(dec.cipher, c, key, ad)
    requires k < |s.branches| && ValidAt(Branch(s.branches[k]), pos) && At(Branch(s.branches[k]), pos) == Str(c)
    requires var v := Branch(s.branches[k]);
             && Decide(dec.rules, dec.matches, PathAt(v, pos, []), ScopeAt(v, pos, []), None)
             && (key != dec.key || ad != PathString(PathAt(v, pos, [])))
    ensures DecryptedTree(dec, s, ignoreMac, f).Err?
  {
    hide Decide; hide PathString; hide Binding; hide SealedFor; hide At; hide ValidAt; hide PathAt; hide ScopeAt;
    hide DecryptedTree;
    SealedElsewhere(dec.cipher, c, key, ad, dec.key, PathString(PathAt(Branch(s.branches[k]), pos, [])));
    UnreadableIsRejected(dec, s, ignoreMac, f, k, pos);
  }

  // ---------- Decisions of the encrypted document, position by position ----------

  /** Item `i` of an encrypted branch is walked below comments that read like those in front of it. */
  lemma {:induction false} ItemsInStep(enc: Env, items: TreeBranch, ws: TreeBranch, k: nat, i: nat, path: seq<string>,
                                       outer: seq<string>, outer': seq<string>, st: Written) returns (s: Written)
    requires enc.mode == Encrypting && Faithful(enc) && k <= i < |items| == |ws|
    requires WalkItems(enc, items[k..], path, outer, RunBefore(items, k), st).Ok?
    requires WalkItems(enc, items[k..], path, outer, RunBefore(items, k), st).value.0 == ws[k..]
    requires ReadableInItems(enc.rules, enc.matches, items[k..], outer, RunBefore(items, k))
    requires Reread(enc.rules, enc.matches, outer, outer')
    requires Reread(enc.rules, enc.matches, outer + RunBefore(items, k), outer' + RunBefore(ws, k))
    ensures Reread(enc.rules, enc.matches, outer + RunBefore(items, i), outer' + RunBefore(ws, i))
    ensures ReadableInItem(enc.rules, enc.matches, items[i], outer + RunBefore(items, i))
    ensures var r := WalkItem(enc, items[i], path, outer + RunBefore(items, i), s);
            r.Ok? && r.value.0 == ws[i]
    decreases i - k
  {
    hide Reread; hide Faithful; hide WalkItem; hide ReadableInItem; hide Counterpart; hide CommentDecision;
    var before := RunBefore(items, k);
    assert items[k..][0] == items[k] && items[k..][1..] == items[k + 1..];
    assert ws[k..][0] == ws[k] && ws[k..][1..] == ws[k + 1..];
    if i == k {
      s := st;
    } else {
      var s1 := WalkItem(enc, items[k], path, outer + before, st).value.1;
      ItemRoundTrip(enc, enc.(mode := Decrypting), items[k], path, outer + before, outer' + RunBefore(ws, k), st, st);
      RunsStayInStep(enc.rules, enc.matches, outer, outer', before, RunBefore(ws, k), items[k], ws[k]);
      assert NextRun(before, items[k]) == RunBefore(items, k + 1);
      assert NextRun(RunBefore(ws, k), ws[k]) == RunBefore(ws, k + 1);
      s := ItemsInStep(enc, items, ws, k + 1, i, path, outer, outer', s1);
    }
  }

  lemma {:induction false} ElemsInStep(enc: Env, elems: seq<Value>, ws: seq<Value>, k: nat, i: nat, path: seq<string>,
                                       outer: seq<string>, outer': seq<string>, st: Written) returns (s: Written)
    requires enc.mode == Encrypting && Faithful(enc) && k <= i < |elems| == |ws|
    requires WalkElems(enc, elems[k..], path, outer, ListRunBefore(elems, k), st).Ok?
    requires WalkElems(enc, elems[k..], path, outer, ListRunBefore(elems, k), st).value.0 == ws[k..]
    requires ReadableInElems(enc.rules, enc.matches, elems[k..], outer, ListRunBefore(elems, k))
    requires Reread(enc.rules, enc.matches, outer, outer')
    requires Reread(enc.rules, enc.matches, outer + ListRunBefore(elems, k), outer' + ListRunBefore(ws, k))
    ensures Reread(enc.rules, enc.matches, outer + ListRunBefore(elems, i), outer' + ListRunBefore(ws, i))
    ensures ReadableInside(enc.rules, enc.matches, elems[i], outer + ListRunBefore(elems, i))
    ensures var r := WalkValue(enc, elems[i], path, outer + ListRunBefore(elems, i), s);
            r.Ok? && r.value.0 == ws[i]
    decreases i - k
  {
    hide Reread; hide Faithful; hide WalkValue; hide ReadableInside; hide CommentDecision;
    var before := ListRunBefore(elems, k);
    assert elems[k..][0] == elems[k] && elems[k..][1..] == elems[k + 1..];
    assert ws[k..][0] == ws[k] && ws[k..][1..] == ws[k + 1..];
    if i == k {
      s := st;
    } else {
      var s1 := WalkValue(enc, elems[k], path, outer + before, st).value.1;
      ValueRoundTrip(enc, enc.(mode := Decrypting), elems[k], path, outer + before, outer' + ListRunBefore(ws, k), st,
                     st);
      ListRunsStayInStep(enc.rules, enc.matches, outer, outer', before, ListRunBefore(ws, k), elems[k], ws[k]);
      assert NextListRun(before, elems[k]) == ListRunBefore(elems, k + 1);
      assert NextListRun(ListRunBefore(ws, k), ws[k]) == ListRunBefore(ws, k + 1);
      s := ElemsInStep(enc, elems, ws, k + 1, i, path, outer, outer', s1);
    }
  }

  /** At every position, the encrypted tree has the path of the plaintext tree, and comments in scope
      that lead to the same decisions. */
  lemma {:induction false} ScopesInStep(enc: Env, v: Value, w: Value, pos: seq<nat>, path: seq<string>,
                                        before: seq<string>, after: seq<string>, st: Written)
    requires enc.mode == Encrypting && Faithful(enc) && ReadableInside(enc.rules, enc.matches, v, before)
    requires Reread(enc.rules, enc.matches, before, after) && ValidAt(v, pos)
    requires WalkValue(enc, v, path, before, st).Ok? && w == WalkValue(enc, v, path, before, st).value.0
    ensures ValidAt(w, pos) && PathAt(w, pos, path) == PathAt(v, pos, path)
    ensures Reread(enc.rules, enc.matches, ScopeAt(v, pos, before), ScopeAt(w, pos, after))
    decreases pos
  {
    hide Reread; hide Faithful; hide OnLeaf; hide WalkItems; hide WalkElems;
    if pos == [] {
    } else if v.Branch? {
      var items, ws, i := v.items, w.items, pos[0];
      assert items[0..] == items && ws[0..] == ws && before + [] == before && after + [] == after;
      hide ReadableInItems;
      var s := ItemsInStep(enc, items, ws, 0, i, path, before, after, st);
      ScopesInStep(enc, items[i].value, ws[i].value, pos[1..], path + [items[i].key.name],
                   before + RunBefore(items, i), after + RunBefore(ws, i), s);
    } else {
      var elems, ws, i := v.elems, w.elems, pos[0];
      assert elems[0..] == elems && ws[0..] == ws && before + [] == before && after + [] == after;
      hide ReadableInElems;
      var s := ElemsInStep(enc, elems, ws, 0, i, path, before, after, st);
      ScopesInStep(enc, elems[i], ws[i], pos[1..], path, before + ListRunBefore(elems, i),
                   after + ListRunBefore(ws, i), s);
    }
  }

  /** A value exchanged at a position leaves the path and the comments in front of it alone. */
  lemma {:induction false} ReplacedInPlace(v: Value, pos: seq<nat>, x: Value, path: seq<string>, scope: seq<string>)
    requires ValidAt(v, pos)
    ensures var w := Replaced(v, pos, x);
            && ValidAt(w, pos) && At(w, pos) == x
            && PathAt(w, pos, path) == PathAt(v, pos, path) && ScopeAt(w, pos, scope) == ScopeAt(v, pos, scope)
    decreases pos
  {
    if pos != [] {
      var i := pos[0];
      if v.Branch? {
        var item := v.items[i];
        ReplacedInPlace(item.value, pos[1..], x, path + [item.key.name], scope + RunBefore(v.items, i));
        RunLooksBack(v.items, Replaced(v, pos, x).items, i);
      } else {
        ReplacedInPlace(v.elems[i], pos[1..], x, path, scope + ListRunBefore(v.elems, i));
        ListRunLooksBack(v.elems, Replaced(v, pos, x).elems, i);
      }
    }
  }

  lemma {:induction false} RunLooksBack(items: TreeBranch, others: TreeBranch, i: nat)
    requires i <= |items| == |others| && items[..i] == others[..i]
    ensures RunBefore(items, i) == RunBefore(others, i)
  {
    if i > 0 {
      assert items[i - 1] == items[..i][i - 1] == others[..i][i - 1];
      assert items[..i - 1] == items[..i][..i - 1] == others[..i - 1];
      RunLooksBack(items, others, i - 1);
    }
  }

  lemma {:induction false} ListRunLooksBack(elems: seq<Value>, others: seq<Value>, i: nat)
    requires i <= |elems| == |others| && elems[..i] == others[..i]
    ensures ListRunBefore(elems, i) == ListRunBefore(others, i)
  {
    if i > 0 {
      assert elems[i - 1] == elems[..i][i - 1] == others[..i][i - 1];
      assert elems[..i - 1] == elems[..i][..i - 1] == others[..i - 1];
      ListRunLooksBack(elems, others, i - 1);
    }
  }

  /** A foreign ciphertext put in the place of a value that is to be decrypted. */
  lemma ForeignInPlaceIsRejected(dec: Env, s: Sealed, ignoreMac: bool, f: Format, k: nat, pos: seq<nat>, c: string,
                                 key: bytes, ad: string)
    requires dec.mode == Decrypting && Binding(dec.cipher) && SealedFor(dec.cipher, c, key, ad)
    requires k < |s.branches| && pos != [] && ValidAt(Branch(s.branches[k]), pos)
    requires var w := Branch(s.branches[k]);
             && Decide(dec.rules, dec.matches, PathAt(w, pos, []), ScopeAt(w, pos, []), None)
             && (key != dec.key || ad != PathString(PathAt(w, pos, [])))
    ensures var w := Branch(s.branches[k]);
            DecryptedTree(dec, s.(branches := s.branches[k := Replaced(w, pos, Str(c)).items]), ignoreMac, f).Err?
  {
    hide Decide; hide PathString; hide Binding; hide SealedFor; hide DecryptedTree;
    var w := Branch(s.branches[k]);
    var x := Replaced(w, pos, Str(c));
    ReplacedInPlace(w, pos, Str(c), [], []);
    assert x == Branch(x.items);
    hide Replaced; hide At; hide ValidAt; hide PathAt; hide ScopeAt;
    ForeignCiphertextIsRejected(dec, s.(branches := s.branches[k := x.items]), ignoreMac, f, k, pos, c, key, ad);
  }

  // ---------- Main results ----------

  lemma {:induction false} PathsGrow(v: Value, pos: seq<nat>, path: seq<string>)
    requires ValidAt(v, pos)
    ensures path <= PathAt(v, pos, path)
    ensures pos != [] && v.Branch? ==> |PathAt(v, pos, path)| > |path|
    decreases pos
  {
    if pos != [] {
      if v.Branch? {
        PathsGrow(v.items[pos[0]].value, pos[1..], path + [v.items[pos[0]].key.name]);
      } else {
        PathsGrow(v.elems[pos[0]], pos[1..], path);
      }
    }
  }

  /** A leaf of a document that is to be encrypted. */
  ghost predicate IsSecret(enc: Env, branches: seq<TreeBranch>, k: nat, pos: seq<nat>) {
    k < |branches| && Encrypting.IsSecretAt(enc, Branch(branches[k]), pos)
  }

  /** In the encrypted document it is a ciphertext made for its own path, at which decryption expects
      one. */
  lemma SecretIsSealed(enc: Env, branches: seq<TreeBranch>, now: int, f: Format, k: nat, pos: seq<nat>)
      returns (c: string)
    requires enc.mode == Encrypting && Faithful(enc) && ReadableBranches(enc.rules, enc.matches, branches)
    requires EncryptedTree(enc, branches, now, f).Ok? && IsSecret(enc, branches, k, pos)
    ensures |EncryptedTree(enc, branches, now, f).value.branches| == |branches|
    ensures var v, w := Branch(branches[k]), Branch(EncryptedTree(enc, branches, now, f).value.branches[k]);
            && ValidAt(w, pos) && At(w, pos) == Str(c) && PathAt(w, pos, []) == PathAt(v, pos, []) != [] && pos != []
            && (c != "" ==> SealedFor(enc.cipher, c, enc.key, PathString(PathAt(v, pos, []))))
            && Decide(enc.rules, enc.matches, PathAt(w, pos, []), ScopeAt(w, pos, []), None)
  {
    var v := Branch(branches[k]);
    var path, scope := PathAt(v, pos, []), ScopeAt(v, pos, []);
    PathsGrow(v, pos, []);
    assert pos != [] && ReadableInside(enc.rules, enc.matches, v, []);
    assert Reread(enc.rules, enc.matches, [], []);
    hide Decide; hide PathString; hide WalkItems; hide WalkBranches; hide Faithful; hide Reread; hide At;
    hide ValidAt; hide ScopeAt; hide PathAt; hide ReadableInside;
    var st := EncryptionRules.BranchIsWalked(enc, branches, k, Start(enc.rules));
    LeafIsDecidedByItsPosition(enc, branches[k], pos, st);
    var w := Branch(WalkItems(enc, branches[k], [], [], [], st).value.0);
    EncryptionRules.ItemsOfBranch(enc, branches[k], [], [], st);
    hide WalkValue;
    ScopesInStep(enc, v, w, pos, [], [], [], st);
    DecisionsAgree(enc.rules, enc.matches, path, scope, ScopeAt(w, pos, []), None, None);
    c := At(w, pos).text;
  }

  /** The main result. In an encrypted document the ciphertext of one leaf is put in the place of
      another, with another path: the document is rejected, whether or not the MAC is checked. */
  lemma MovedCiphertextIsRejected(enc: Env, dec: Env, branches: seq<TreeBranch>, now: int, ignoreMac: bool, f: Format,
                                  k: nat, pos: seq<nat>, k': nat, pos': seq<nat>)
    requires Pair(enc, dec) && Faithful(enc) && Binding(enc.cipher)
    requires ReadableBranches(enc.rules, enc.matches, branches) && EncryptedTree(enc, branches, now, f).Ok?
    requires IsSecret(enc, branches, k, pos) && IsSecret(enc, branches, k', pos')
    requires var path, path' := PathAt(Branch(branches[k]), pos, []), PathAt(Branch(branches[k']), pos', []);
             ColonFree(path) && ColonFree(path') && path != path'
    ensures var s := EncryptedTree(enc, branches, now, f).value;
            var w, w' := Branch(s.branches[k]), Branch(s.branches[k']);
            && ValidAt(w, pos) && ValidAt(w', pos') && At(w', pos').Str?
            && var moved := s.(branches := s.branches[k := Replaced(w, pos, At(w', pos')).items]);
               At(w', pos') != Str("") ==> DecryptedTree(dec, moved, ignoreMac, f).Err?
  {
    hide EncryptedTree; hide Faithful; hide Binding; hide Decide; hide ReadableBranches; hide SealedFor;
    hide Replaced; hide At; hide ValidAt; hide PathAt; hide ScopeAt; hide PathString; hide DecryptedTree;
    var s := EncryptedTree(enc, branches, now, f).value;
    var replaced := SecretIsSealed(enc, branches, now, f, k, pos);
    var c := SecretIsSealed(enc, branches, now, f, k', pos');
    hide IsSecret;
    if c != "" {
      var path, path' := PathAt(Branch(branches[k]), pos, []), PathAt(Branch(branches[k']), pos', []);
      PathStringTellsApart(path, path');
      ForeignInPlaceIsRejected(dec, s, ignoreMac, f, k, pos, c, enc.key, PathString(path'));
    }
  }

  /** Nor can an encrypted document be read with another data key, once it holds a secret that is not
      empty. */
  lemma OtherKeyIsRejected(enc: Env, dec: Env, branches: seq<TreeBranch>, now: int, ignoreMac: bool, f: Format,
                           k: nat, pos: seq<nat>, key: bytes)
    requires Pair(enc, dec) && Faithful(enc) && Binding(enc.cipher) && key != enc.key
    requires ReadableBranches(enc.rules, enc.matches, branches) && EncryptedTree(enc, branches, now, f).Ok?
    requires IsSecret(enc, branches, k, pos)
    ensures var s := EncryptedTree(enc, branches, now, f).value;
            var w := Branch(s.branches[k]);
            && ValidAt(w, pos)
            && (At(w, pos) != Str("") ==> DecryptedTree(dec.(key := key), s, ignoreMac, f).Err?)
  {
    var s := EncryptedTree(enc, branches, now, f).value;
    hide EncryptedTree; hide Faithful; hide Binding; hide Decide; hide ReadableBranches; hide SealedFor;
    var c := SecretIsSealed(enc, branches, now, f, k, pos);
    hide IsSecret; hide PathString; hide DecryptedTree; hide At; hide ValidAt; hide PathAt; hide ScopeAt;
    if c != "" {
      ForeignCiphertextIsRejected(dec.(key := key), s, ignoreMac, f, k, pos, c, enc.key,
                                  PathString(PathAt(Branch(branches[k]), pos, [])));
    }
  }

  /** The MAC is bound to the time stamp: with another one, or with the text of a value in the place of
      the MAC, the document is rejected. A joined path ends in a colon, a printed time does not. */
  lemma MovedMacIsRejected(dec: Env, s: Sealed, f: Format, ad: string)
    requires dec.mode == Decrypting && Binding(dec.cipher) && SealedFor(dec.cipher, s.mac, dec.key, ad)
    requires WalkedTree(dec, s.branches, f).Ok?
    ensures ad != f.rfc3339(s.lastModified) ==> DecryptedTree(dec, s, false, f) == Err("Cannot decrypt MAC")
    ensures (exists path :: ad == PathString(path))
            && f.rfc3339(s.lastModified) != "" && f.rfc3339(s.lastModified)[|f.rfc3339(s.lastModified)| - 1] != ':'
            ==> DecryptedTree(dec, s, false, f) == Err("Cannot decrypt MAC")
  {
    hide WalkedTree; hide PathString; hide Binding; hide SealedFor;
    var time := f.rfc3339(s.lastModified);
    if path :| ad == PathString(path) {
      PathStringNotEmpty(path);
    }
    if ad != time {
      SealedElsewhere(dec.cipher, s.mac, dec.key, ad, dec.key, time);
    }
  }

  /** So a document whose time stamp was changed to one that is printed otherwise is rejected. */
  lemma OtherTimeIsRejected(enc: Env, dec: Env, branches: seq<TreeBranch>, now: int, f: Format, later: int)
    requires Pair(enc, dec) && Faithful(enc) && Binding(enc.cipher)
    requires ReadableBranches(enc.rules, enc.matches, branches) && EncryptedTree(enc, branches, now, f).Ok?
    requires EncryptedTree(enc, branches, now, f).value.mac != "" && f.rfc3339(later) != f.rfc3339(now)
    ensures var s := EncryptedTree(enc, branches, now, f).value;
            && DecryptedTree(dec, s, false, f).Ok?
            && DecryptedTree(dec, s.(lastModified := later), false, f) == Err("Cannot decrypt MAC")
            && DecryptedTree(dec, s.(lastModified := later), true, f) == DecryptedTree(dec, s, false, f)
  {
    DecryptTreeAcceptsEncryptTree(enc, dec, branches, now, false, f);
    hide Faithful; hide Binding; hide ReadableBranches; hide WalkBranches;
    var s := EncryptedTree(enc, branches, now, f).value;
    assert SealedFor(dec.cipher, s.mac, dec.key, f.rfc3339(now)) by {
      var (_, mac, calls) := WalkedTree(enc, branches, f).value;
      assert enc.cipher.encrypt(Str(mac), enc.key, f.rfc3339(now), calls) == Ok(s.mac);
    }
    hide WalkedTree; hide SealedFor;
    MovedMacIsRejected(dec, s.(lastModified := later), f, f.rfc3339(now));
  }
}
