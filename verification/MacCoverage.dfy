/**
 What the MAC of a document covers: the bytes of its leaves, in their order. A document with one leaf
 changed is accepted exactly when that leaf can still be read and gives the same bytes.
 */
module MacCoverage {
  import opened Results
  import opened Trees
  import opened Decisions
  import opened Walker
  import opened Documents
  import opened CommentScopes

  const NOTHING := Written("", 0)

  // ---------- A decryption appends bytes to the hash ----------

  /** The result of a walk that started behind other bytes. */
  function Behind<T>(st: Written, r: Result<(T, Written)>): Result<(T, Written)> {
    match r
    case Ok((x, s)) => Ok((x, Written(st.hash + s.hash, st.calls + s.calls)))
    case Err(e) => Err(e)
  }

  lemma BehindNothing<T>(r: Result<(T, Written)>)
    ensures Behind(NOTHING, r) == r
  {
    if r.Ok? {
      assert "" + r.value.1.hash == r.value.1.hash;
    }
  }

  lemma BehindTwice<T>(a: Written, b: Written, r: Result<(T, Written)>)
    ensures Behind(a, Behind(b, r)) == Behind(Written(a.hash + b.hash, a.calls + b.calls), r)
  {
    if r.Ok? {
      assert a.hash + (b.hash + r.value.1.hash) == a.hash + b.hash + r.value.1.hash;
    }
  }

  lemma AfterBehind<T>(st: Written, done: seq<T>, r: Result<(seq<T>, Written)>)
    ensures After(done, Behind(st, r)) == Behind(st, After(done, r))
  {}

  lemma LeafAppends(dec: Env, v: Value, path: seq<string>, scope: seq<string>, st: Written)
    requires dec.mode == Decrypting
    ensures OnLeaf(dec, v, path, scope, st) == Behind(st, OnLeaf(dec, v, path, scope, NOTHING))
  {
    hide Decide; hide PathString; hide ToBytes;
    assert st.hash + "" == st.hash;
    assert forall b: string :: "" + b == b;
  }

  lemma {:induction false} ValueAppends(dec: Env, v: Value, path: seq<string>, scope: seq<string>, st: Written)
    requires dec.mode == Decrypting
    ensures WalkValue(dec, v, path, scope, st) == Behind(st, WalkValue(dec, v, path, scope, NOTHING))
    decreases v, 1
  {
    hide OnLeaf; hide WalkItems; hide WalkElems;
    match v
    case Branch(items) => ItemsAppend(dec, items, path, scope, [], st);
    case List(elems) => ElemsAppend(dec, elems, path, scope, [], st);
    case Bytes(raw) => LeafAppends(dec, Str(raw), path, scope, st);
    case Nil => assert st.hash + "" == st.hash;
    case Unknown(_) =>
    case _ => LeafAppends(dec, v, path, scope, st);
  }

  lemma {:induction false} ItemAppends(dec: Env, item: Item, path: seq<string>, scope: seq<string>, st: Written)
    requires dec.mode == Decrypting
    ensures WalkItem(dec, item, path, scope, st) == Behind(st, WalkItem(dec, item, path, scope, NOTHING))
    decreases item, 2
  {
    hide OnLeaf; hide WalkValue;
    match item.key
    case Remark(text, inline) => LeafAppends(dec, Comment(text, inline), path, scope, st);
    case Name(name) => ValueAppends(dec, item.value, path + [name], scope, st);
    case Index(_) =>
  }

  lemma {:induction false} ItemsAppend(dec: Env, items: TreeBranch, path: seq<string>, outer: seq<string>,
                                       run: seq<string>, st: Written)
    requires dec.mode == Decrypting
    ensures WalkItems(dec, items, path, outer, run, st) == Behind(st, WalkItems(dec, items, path, outer, run, NOTHING))
    decreases items, 0
  {
    if items == [] {
      assert st.hash + "" == st.hash;
    } else {
      hide WalkItem; hide WalkItems; hide NextRun; hide After;
      var rest, next := items[1..], NextRun(run, items[0]);
      ItemsStep(dec, items, path, outer, run, st);
      ItemsStep(dec, items, path, outer, run, NOTHING);
      ItemAppends(dec, items[0], path, outer + run, st);
      var r := WalkItem(dec, items[0], path, outer + run, NOTHING);
      if r.Ok? {
        var s := r.value.1;
        ItemsAppend(dec, rest, path, outer, next, s);
        ItemsAppend(dec, rest, path, outer, next, Written(st.hash + s.hash, st.calls + s.calls));
        var t := WalkItems(dec, rest, path, outer, next, NOTHING);
        BehindTwice(st, s, t);
        AfterBehind(st, [r.value.0], Behind(s, t));
      }
    }
  }

  lemma {:induction false} ElemsAppend(dec: Env, elems: seq<Value>, path: seq<string>, outer: seq<string>,
                                       run: seq<string>, st: Written)
    requires dec.mode == Decrypting
    ensures WalkElems(dec, elems, path, outer, run, st) == Behind(st, WalkElems(dec, elems, path, outer, run, NOTHING))
    decreases elems, 0
  {
    if elems == [] {
      assert st.hash + "" == st.hash;
    } else {
      hide WalkValue; hide WalkElems; hide NextListRun; hide After;
      var rest, next := elems[1..], NextListRun(run, elems[0]);
      ElemsStep(dec, elems, path, outer, run, st);
      ElemsStep(dec, elems, path, outer, run, NOTHING);
      ValueAppends(dec, elems[0], path, outer + run, st);
      var r := WalkValue(dec, elems[0], path, outer + run, NOTHING);
      if r.Ok? {
        var s := r.value.1;
        ElemsAppend(dec, rest, path, outer, next, s);
        ElemsAppend(dec, rest, path, outer, next, Written(st.hash + s.hash, st.calls + s.calls));
        var t := WalkElems(dec, rest, path, outer, next, NOTHING);
        BehindTwice(st, s, t);
        AfterBehind(st, [r.value.0], Behind(s, t));
      }
    }
  }

  lemma {:induction false} BranchesAppend(dec: Env, branches: seq<TreeBranch>, st: Written)
    requires dec.mode == Decrypting
    ensures WalkBranches(dec, branches, st) == Behind(st, WalkBranches(dec, branches, NOTHING))
    decreases |branches|
  {
    if branches == [] {
      assert st.hash + "" == st.hash;
    } else {
      hide WalkItems; hide WalkBranches; hide After;
      var rest := branches[1..];
      BranchesStep(dec, branches, st);
      BranchesStep(dec, branches, NOTHING);
      ItemsAppend(dec, branches[0], [], [], [], st);
      var r := WalkItems(dec, branches[0], [], [], [], NOTHING);
      if r.Ok? {
        var s := r.value.1;
        BranchesAppend(dec, rest, s);
        BranchesAppend(dec, rest, Written(st.hash + s.hash, st.calls + s.calls));
        var t := WalkBranches(dec, rest, NOTHING);
        BehindTwice(st, s, t);
        AfterBehind(st, [r.value.0], Behind(s, t));
      }
    }
  }

  // ---------- One changed value ----------

  /** Of two walks that differ in one part: the second succeeds exactly when its part does, and it
      hashes the same bytes exactly when its part does. */
  ghost predicate SameExactly<T, U>(before: Result<(T, Written)>, after: Result<(T, Written)>,
                                    part: Result<(U, Written)>, part': Result<(U, Written)>) {
    && before.Ok? && part.Ok? && (after.Ok? <==> part'.Ok?)
    && (after.Ok? ==> (after.value.1.hash == before.value.1.hash <==> part'.value.1.hash == part.value.1.hash))
  }

  lemma SameInside(a: string, x: string, y: string, b: string)
    ensures a + x + b == a + y + b <==> x == y
  {
    if a + x + b == a + y + b {
      assert |x| == |y|;
      assert (a + x + b)[|a|..|a| + |x|] == x && (a + y + b)[|a|..|a| + |y|] == y;
    }
  }

  /** The first entry differs, the rest is walked alike. */
  lemma FirstChanged<T>(first: Result<(T, Written)>, first': Result<(T, Written)>, rest: Result<(seq<T>, Written)>,
                           before: Result<(seq<T>, Written)>, after: Result<(seq<T>, Written)>)
    requires before == Joined(first, rest) && after == Joined(first', rest) && before.Ok?
    ensures SameExactly(before, after, first, first')
  {
    if after.Ok? {
      var b := rest.value.1.hash;
      SameInside("", first.value.1.hash, first'.value.1.hash, b);
      assert forall x: string :: "" + x == x;
    }
  }

  /** The first entry is the same, the rest differs. */
  lemma RestChanged<T, U>(first: Result<(T, Written)>, rest: Result<(seq<T>, Written)>,
                          rest': Result<(seq<T>, Written)>, part: Result<(U, Written)>, part': Result<(U, Written)>)
    requires Joined(first, rest).Ok? && SameExactly(rest, rest', part, part')
    ensures SameExactly(Joined(first, rest), Joined(first, rest'), part, part')
  {
    if rest'.Ok? {
      var a := first.value.1.hash;
      SameInside(a, rest.value.1.hash, rest'.value.1.hash, "");
      assert forall x: string :: x + "" == x;
    }
  }

  /** A walk over a first entry, and over the rest behind it. */
  function Joined<T>(first: Result<(T, Written)>, rest: Result<(seq<T>, Written)>): Result<(seq<T>, Written)> {
    match first
    case Ok((x, s)) => After([x], Behind(s, rest))
    case Err(e) => Err(e)
  }

  lemma ItemsJoined(dec: Env, items: TreeBranch, path: seq<string>, outer: seq<string>, run: seq<string>)
    requires dec.mode == Decrypting && items != []
    ensures WalkItems(dec, items, path, outer, run, NOTHING)
         == Joined(WalkItem(dec, items[0], path, outer + run, NOTHING),
                   WalkItems(dec, items[1..], path, outer, NextRun(run, items[0]), NOTHING))
  {
    hide WalkItem; hide WalkItems; hide NextRun; hide After; hide Behind;
    ItemsStep(dec, items, path, outer, run, NOTHING);
    var r := WalkItem(dec, items[0], path, outer + run, NOTHING);
    if r.Ok? {
      ItemsAppend(dec, items[1..], path, outer, NextRun(run, items[0]), r.value.1);
    }
  }

  lemma ElemsJoined(dec: Env, elems: seq<Value>, path: seq<string>, outer: seq<string>, run: seq<string>)
    requires dec.mode == Decrypting && elems != []
    ensures WalkElems(dec, elems, path, outer, run, NOTHING)
         == Joined(WalkValue(dec, elems[0], path, outer + run, NOTHING),
                   WalkElems(dec, elems[1..], path, outer, NextListRun(run, elems[0]), NOTHING))
  {
    hide WalkValue; hide WalkElems; hide NextListRun; hide After; hide Behind;
    ElemsStep(dec, elems, path, outer, run, NOTHING);
    var r := WalkValue(dec, elems[0], path, outer + run, NOTHING);
    if r.Ok? {
      ElemsAppend(dec, elems[1..], path, outer, NextListRun(run, elems[0]), r.value.1);
    }
  }

  lemma BranchesJoined(dec: Env, branches: seq<TreeBranch>)
    requires dec.mode == Decrypting && branches != []
    ensures WalkBranches(dec, branches, NOTHING)
         == Joined(WalkItems(dec, branches[0], [], [], [], NOTHING), WalkBranches(dec, branches[1..], NOTHING))
  {
    hide WalkItems; hide WalkBranches; hide After; hide Behind;
    BranchesStep(dec, branches, NOTHING);
    var r := WalkItems(dec, branches[0], [], [], [], NOTHING);
    if r.Ok? {
      BranchesAppend(dec, branches[1..], r.value.1);
    }
  }

  lemma NamedItem(dec: Env, item: Item, path: seq<string>, scope: seq<string>, w: Value)
    requires item.key.Name?
    ensures var r := WalkItem(dec, item, path, scope, NOTHING);
            var r' := WalkItem(dec, item.(value := w), path, scope, NOTHING);
            var p, p' := WalkValue(dec, item.value, path + [item.key.name], scope, NOTHING),
                         WalkValue(dec, w, path + [item.key.name], scope, NOTHING);
            && (r.Ok? <==> p.Ok?) && (r'.Ok? <==> p'.Ok?)
            && (r.Ok? ==> r.value.1 == p.value.1) && (r'.Ok? ==> r'.value.1 == p'.value.1)
  {
    hide WalkValue;
  }

  lemma {:induction false} ItemChanged(dec: Env, items: TreeBranch, k: nat, i: nat, w: Value, path: seq<string>,
                                       outer: seq<string>)
    requires dec.mode == Decrypting && k <= i < |items| && items[i].key.Name?
    requires !items[i].value.Comment? && !w.Comment?
    requires WalkItems(dec, items[k..], path, outer, RunBefore(items, k), NOTHING).Ok?
    ensures var changed := items[i := items[i].(value := w)];
            var inner, scope := path + [items[i].key.name], outer + RunBefore(items, i);
            SameExactly(WalkItems(dec, items[k..], path, outer, RunBefore(items, k), NOTHING),
                        WalkItems(dec, changed[k..], path, outer, RunBefore(items, k), NOTHING),
                        WalkValue(dec, items[i].value, inner, scope, NOTHING), WalkValue(dec, w, inner, scope, NOTHING))
    decreases i - k
  {
    hide WalkItem; hide WalkItems; hide WalkValue; hide Joined; hide Behind;
    var changed, run := items[i := items[i].(value := w)], RunBefore(items, k);
    assert items[k..][0] == items[k] && items[k..][1..] == items[k + 1..];
    assert changed[k..][0] == changed[k] && changed[k..][1..] == changed[k + 1..];
    assert NextRun(run, items[k]) == RunBefore(items, k + 1);
    ItemsJoined(dec, items[k..], path, outer, run);
    ItemsJoined(dec, changed[k..], path, outer, run);
    var first := WalkItem(dec, items[k], path, outer + run, NOTHING);
    var rest := WalkItems(dec, items[k + 1..], path, outer, RunBefore(items, k + 1), NOTHING);
    if k == i {
      assert changed[k + 1..] == items[k + 1..];
      var first' := WalkItem(dec, changed[k], path, outer + run, NOTHING);
      FirstChanged(first, first', rest, Joined(first, rest), Joined(first', rest));
      NamedItem(dec, items[i], path, outer + run, w);
    } else {
      JoinedOk(first, rest);
      ItemChanged(dec, items, k + 1, i, w, path, outer);
      var rest' := WalkItems(dec, changed[k + 1..], path, outer, RunBefore(items, k + 1), NOTHING);
      var inner, scope := path + [items[i].key.name], outer + RunBefore(items, i);
      RestChanged(first, rest, rest', WalkValue(dec, items[i].value, inner, scope, NOTHING),
                  WalkValue(dec, w, inner, scope, NOTHING));
    }
  }

  lemma JoinedOk<T>(first: Result<(T, Written)>, rest: Result<(seq<T>, Written)>)
    ensures Joined(first, rest).Ok? <==> first.Ok? && rest.Ok?
  {}

  lemma {:induction false} ElemChanged(dec: Env, elems: seq<Value>, k: nat, i: nat, w: Value, path: seq<string>,
                                       outer: seq<string>)
    requires dec.mode == Decrypting && k <= i < |elems| && !elems[i].Comment? && !w.Comment?
    requires WalkElems(dec, elems[k..], path, outer, ListRunBefore(elems, k), NOTHING).Ok?
    ensures var changed, scope := elems[i := w], outer + ListRunBefore(elems, i);
            SameExactly(WalkElems(dec, elems[k..], path, outer, ListRunBefore(elems, k), NOTHING),
                        WalkElems(dec, changed[k..], path, outer, ListRunBefore(elems, k), NOTHING),
                        WalkValue(dec, elems[i], path, scope, NOTHING), WalkValue(dec, w, path, scope, NOTHING))
    decreases i - k
  {
    hide WalkElems; hide WalkValue; hide Joined; hide Behind;
    var changed, run := elems[i := w], ListRunBefore(elems, k);
    assert elems[k..][0] == elems[k] && elems[k..][1..] == elems[k + 1..];
    assert changed[k..][0] == changed[k] && changed[k..][1..] == changed[k + 1..];
    assert NextListRun(run, elems[k]) == ListRunBefore(elems, k + 1);
    ElemsJoined(dec, elems[k..], path, outer, run);
    ElemsJoined(dec, changed[k..], path, outer, run);
    var first := WalkValue(dec, elems[k], path, outer + run, NOTHING);
    var rest := WalkElems(dec, elems[k + 1..], path, outer, ListRunBefore(elems, k + 1), NOTHING);
    if k == i {
      assert changed[k + 1..] == elems[k + 1..];
      var first' := WalkValue(dec, w, path, outer + run, NOTHING);
      FirstChanged(first, first', rest, Joined(first, rest), Joined(first', rest));
    } else {
      JoinedOk(first, rest);
      ElemChanged(dec, elems, k + 1, i, w, path, outer);
      var rest' := WalkElems(dec, changed[k + 1..], path, outer, ListRunBefore(elems, k + 1), NOTHING);
      var scope := outer + ListRunBefore(elems, i);
      RestChanged(first, rest, rest', WalkValue(dec, elems[i], path, scope, NOTHING),
                  WalkValue(dec, w, path, scope, NOTHING));
    }
  }

  /** The tree with another value at a position. */
  function Replaced(v: Value, pos: seq<nat>, x: Value): Value
    requires ValidAt(v, pos)
    decreases pos
  {
    if pos == [] then x
    else if v.Branch? then
      var item := v.items[pos[0]];
      Branch(v.items[pos[0] := item.(value := Replaced(item.value, pos[1..], x))])
    else List(v.elems[pos[0] := Replaced(v.elems[pos[0]], pos[1..], x)])
  }

  lemma {:induction false} ValueChanged(dec: Env, v: Value, pos: seq<nat>, x: Value, path: seq<string>,
                                        scope: seq<string>)
    requires dec.mode == Decrypting && ValidAt(v, pos) && !At(v, pos).Comment? && !x.Comment?
    requires WalkValue(dec, v, path, scope, NOTHING).Ok?
    ensures var inner, below := PathAt(v, pos, path), ScopeAt(v, pos, scope);
            SameExactly(WalkValue(dec, v, path, scope, NOTHING),
                        WalkValue(dec, Replaced(v, pos, x), path, scope, NOTHING),
                        WalkValue(dec, At(v, pos), inner, below, NOTHING), WalkValue(dec, x, inner, below, NOTHING))
    decreases pos
  {
    hide WalkItems; hide WalkElems; hide OnLeaf;
    if pos == [] {
    } else if v.Branch? {
      var i, item := pos[0], v.items[pos[0]];
      var w, inner, below := Replaced(item.value, pos[1..], x), path + [item.key.name], scope + RunBefore(v.items, i);
      assert v.items[0..] == v.items && v.items[i := item.(value := w)][0..] == v.items[i := item.(value := w)];
      ItemChanged(dec, v.items, 0, i, w, path, scope);
      hide WalkValue;
      ValueChanged(dec, item.value, pos[1..], x, inner, below);
    } else {
      var i, elem := pos[0], v.elems[pos[0]];
      var w, below := Replaced(elem, pos[1..], x), scope + ListRunBefore(v.elems, i);
      assert v.elems[0..] == v.elems && v.elems[i := w][0..] == v.elems[i := w];
      ElemChanged(dec, v.elems, 0, i, w, path, scope);
      hide WalkValue;
      ValueChanged(dec, elem, pos[1..], x, path, below);
    }
  }

  lemma {:induction false} BranchChanged(dec: Env, branches: seq<TreeBranch>, k: nat, items: TreeBranch)
    requires dec.mode == Decrypting && k < |branches| && WalkBranches(dec, branches, NOTHING).Ok?
    ensures SameExactly(WalkBranches(dec, branches, NOTHING), WalkBranches(dec, branches[k := items], NOTHING),
                        WalkItems(dec, branches[k], [], [], [], NOTHING), WalkItems(dec, items, [], [], [], NOTHING))
    decreases |branches|
  {
    hide WalkItems; hide WalkBranches; hide Joined; hide Behind;
    var changed := branches[k := items];
    BranchesJoined(dec, branches);
    BranchesJoined(dec, changed);
    var first, rest := WalkItems(dec, branches[0], [], [], [], NOTHING), WalkBranches(dec, branches[1..], NOTHING);
    JoinedOk(first, rest);
    if k == 0 {
      assert changed[1..] == branches[1..];
      var first' := WalkItems(dec, items, [], [], [], NOTHING);
      FirstChanged(first, first', rest, Joined(first, rest), Joined(first', rest));
    } else {
      assert changed[1..] == branches[1..][k - 1 := items];
      BranchChanged(dec, branches[1..], k - 1, items);
      RestChanged(first, rest, WalkBranches(dec, changed[1..], NOTHING),
                  WalkItems(dec, branches[k], [], [], [], NOTHING), WalkItems(dec, items, [], [], [], NOTHING));
    }
  }

  // ---------- The MAC ----------

  /** Different bytes have different digests. */
  ghost predicate NoCollision(f: Format) {
    forall a, b :: f.digest(a) == f.digest(b) ==> a == b
  }

  /** A document whose content was exchanged is accepted exactly when it can be walked and gives the
      bytes of the document it was: the MAC covers these and nothing else. */
  lemma AcceptedExactly(dec: Env, s: Sealed, branches: seq<TreeBranch>, f: Format)
    requires dec.mode == Decrypting && NoCollision(f) && DecryptedTree(dec, s, false, f).Ok?
    ensures var walked, walked' := WalkBranches(dec, s.branches, NOTHING), WalkBranches(dec, branches, NOTHING);
            && walked.Ok?
            && (DecryptedTree(dec, s.(branches := branches), false, f).Ok?
                <==> walked'.Ok? && walked'.value.1.hash == walked.value.1.hash)
  {
    var start := Start(dec.rules);
    BranchesAppend(dec, s.branches, start);
    BranchesAppend(dec, branches, start);
    hide WalkBranches; hide Start;
    var walked, walked' := WalkBranches(dec, s.branches, NOTHING), WalkBranches(dec, branches, NOTHING);
    if walked'.Ok? {
      SameInside(start.hash, walked.value.1.hash, walked'.value.1.hash, "");
      assert forall x: string :: x + "" == x;
    }
  }

  /** The setting that only encrypted values are part of the MAC is covered itself: read with the other
      setting, an accepted document is accepted exactly when the bytes of one walk are those of the
      other with 32 fixed bytes in front of them. */
  lemma OtherSettingExactly(dec: Env, s: Sealed, f: Format)
    requires dec.mode == Decrypting && NoCollision(f) && DecryptedTree(dec, s, false, f).Ok?
    ensures |MAC_ONLY_ENCRYPTED_INITIALIZATION| == 32
    ensures var other := dec.(rules := dec.rules.(macOnlyEncrypted := !dec.rules.macOnlyEncrypted));
            var walked, walked' := WalkBranches(dec, s.branches, NOTHING), WalkBranches(other, s.branches, NOTHING);
            && walked.Ok?
            && (DecryptedTree(other, s, false, f).Ok? <==>
                && walked'.Ok?
                && if dec.rules.macOnlyEncrypted then
                     walked'.value.1.hash == MAC_ONLY_ENCRYPTED_INITIALIZATION + walked.value.1.hash
                   else walked.value.1.hash == MAC_ONLY_ENCRYPTED_INITIALIZATION + walked'.value.1.hash)
  {
    var other := dec.(rules := dec.rules.(macOnlyEncrypted := !dec.rules.macOnlyEncrypted));
    BranchesAppend(dec, s.branches, Start(dec.rules));
    BranchesAppend(other, s.branches, Start(other.rules));
    hide WalkBranches;
    assert forall x: string :: "" + x == x;
  }

  /** The main result: one value of an accepted document is exchanged. The document is accepted again
      exactly when the new value can be read at its place, and gives the bytes of the old one. */
  lemma OneValueExchanged(dec: Env, s: Sealed, f: Format, k: nat, pos: seq<nat>, x: Value)
    requires dec.mode == Decrypting && NoCollision(f) && DecryptedTree(dec, s, false, f).Ok?
    requires k < |s.branches| && pos != [] && ValidAt(Branch(s.branches[k]), pos)
    requires !At(Branch(s.branches[k]), pos).Comment? && !x.Comment?
    ensures var v := Branch(s.branches[k]);
            var path, scope := PathAt(v, pos, []), ScopeAt(v, pos, []);
            var r, r' := WalkValue(dec, At(v, pos), path, scope, NOTHING), WalkValue(dec, x, path, scope, NOTHING);
            var changed := s.(branches := s.branches[k := Replaced(v, pos, x).items]);
            && r.Ok?
            && (DecryptedTree(dec, changed, false, f).Ok? <==> r'.Ok? && r'.value.1.hash == r.value.1.hash)
  {
    var v := Branch(s.branches[k]);
    var w := Replaced(v, pos, x);
    var branches := s.branches[k := w.items];
    AcceptedExactly(dec, s, branches, f);
    hide DecryptedTree; hide NoCollision; hide WalkBranches;
    BranchChanged(dec, s.branches, k, w.items);
    hide WalkItems;
    assert WalkValue(dec, v, [], [], NOTHING).Ok? && w.Branch?;
    ValueChanged(dec, v, pos, x, [], []);
  }

  /** A string in plain text: it is covered unless the MAC is only about encrypted values, and then it
      can be exchanged for any other. */
  lemma PlainTextExchanged(dec: Env, s: Sealed, f: Format, k: nat, pos: seq<nat>, text: string)
    requires dec.mode == Decrypting && NoCollision(f) && DecryptedTree(dec, s, false, f).Ok?
    requires k < |s.branches| && pos != [] && ValidAt(Branch(s.branches[k]), pos)
    requires At(Branch(s.branches[k]), pos).Str?
    requires var v := Branch(s.branches[k]);
             !Decide(dec.rules, dec.matches, PathAt(v, pos, []), ScopeAt(v, pos, []), None)
    ensures var v := Branch(s.branches[k]);
            var changed := s.(branches := s.branches[k := Replaced(v, pos, Str(text)).items]);
            DecryptedTree(dec, changed, false, f).Ok? <==> dec.rules.macOnlyEncrypted || text == At(v, pos).text
  {
    var v := Branch(s.branches[k]);
    OneValueExchanged(dec, s, f, k, pos, Str(text));
    hide DecryptedTree; hide NoCollision; hide Decide; hide At; hide ValidAt; hide PathAt; hide ScopeAt; hide Replaced;
    assert forall x: string :: "" + x == x;
  }

  /** Two leaves that the MAC cannot tell apart: a bool is not told from its name, nor a number or a
      time stamp from how it is printed. */
  predicate PrintedAlike(a: Value, b: Value, format: Value -> string)
    requires IsPlainLeaf(a) && IsPlainLeaf(b)
  {
    match (a, b)
    case (Bool(x), Bool(y)) => x == y
    case (Str(x), Str(y)) => x == y
    case (Bool(x), Str(y)) => y == if x then "True" else "False"
    case (Str(x), Bool(y)) => x == if y then "True" else "False"
    case (Bool(x), _) => format(b) == if x then "True" else "False"
    case (Str(x), _) => format(b) == x
    case (_, Bool(y)) => format(a) == if y then "True" else "False"
    case (_, Str(y)) => format(a) == y
    case _ => format(a) == format(b)
  }

  /** Any leaf in plain text that the MAC covers: exchanged for another one, the document is accepted
      exactly when both are printed alike. */
  lemma PlainLeafExchanged(dec: Env, s: Sealed, f: Format, k: nat, pos: seq<nat>, x: Value)
    requires dec.mode == Decrypting && NoCollision(f) && DecryptedTree(dec, s, false, f).Ok?
    requires k < |s.branches| && pos != [] && ValidAt(Branch(s.branches[k]), pos)
    requires IsPlainLeaf(At(Branch(s.branches[k]), pos)) && IsPlainLeaf(x) && !dec.rules.macOnlyEncrypted
    requires var v := Branch(s.branches[k]);
             !Decide(dec.rules, dec.matches, PathAt(v, pos, []), ScopeAt(v, pos, []), None)
    ensures var v := Branch(s.branches[k]);
            DecryptedTree(dec, s.(branches := s.branches[k := Replaced(v, pos, x).items]), false, f).Ok?
            <==> PrintedAlike(At(v, pos), x, dec.format)
  {
    var v := Branch(s.branches[k]);
    OneValueExchanged(dec, s, f, k, pos, x);
    LeafHashes(dec, At(v, pos), At(v, pos), PathAt(v, pos, []), ScopeAt(v, pos, []));
    LeafHashes(dec, x, x, PathAt(v, pos, []), ScopeAt(v, pos, []));
    hide DecryptedTree; hide NoCollision; hide Decide; hide At; hide ValidAt; hide PathAt; hide ScopeAt; hide Replaced;
    hide WalkValue;
    assert "True"[0] != "False"[0];
  }

  /** A ciphertext exchanged for another one that opens at its place: what counts is what they open
      to, whether or not the MAC is about encrypted values only. */
  lemma CiphertextExchanged(dec: Env, s: Sealed, f: Format, k: nat, pos: seq<nat>, c: string, a: Value, b: Value)
    requires dec.mode == Decrypting && NoCollision(f) && DecryptedTree(dec, s, false, f).Ok?
    requires k < |s.branches| && pos != [] && ValidAt(Branch(s.branches[k]), pos)
    requires At(Branch(s.branches[k]), pos).Str? && IsPlainLeaf(a) && IsPlainLeaf(b)
    requires var v := Branch(s.branches[k]);
             && Decide(dec.rules, dec.matches, PathAt(v, pos, []), ScopeAt(v, pos, []), None)
             && dec.cipher.decrypt(At(v, pos).text, dec.key, PathString(PathAt(v, pos, []))) == Ok(a)
             && dec.cipher.decrypt(c, dec.key, PathString(PathAt(v, pos, []))) == Ok(b)
    ensures var v := Branch(s.branches[k]);
            DecryptedTree(dec, s.(branches := s.branches[k := Replaced(v, pos, Str(c)).items]), false, f).Ok?
            <==> PrintedAlike(a, b, dec.format)
  {
    var v := Branch(s.branches[k]);
    OneValueExchanged(dec, s, f, k, pos, Str(c));
    hide PathString;
    LeafHashes(dec, At(v, pos), a, PathAt(v, pos, []), ScopeAt(v, pos, []));
    LeafHashes(dec, Str(c), b, PathAt(v, pos, []), ScopeAt(v, pos, []));
    hide DecryptedTree; hide NoCollision; hide Decide; hide At; hide ValidAt; hide PathAt; hide ScopeAt; hide Replaced;
    hide WalkValue;
    assert "True"[0] != "False"[0];
  }

  /** The bytes of a leaf: those of `plain`, which a ciphertext opens to and any other leaf is. */
  lemma LeafHashes(dec: Env, v: Value, plain: Value, path: seq<string>, scope: seq<string>)
    requires dec.mode == Decrypting && IsPlainLeaf(v) && IsPlainLeaf(plain)
    requires if Decide(dec.rules, dec.matches, path, scope, None) then
               v.Str? && dec.cipher.decrypt(v.text, dec.key, PathString(path)) == Ok(plain)
             else v == plain && !dec.rules.macOnlyEncrypted
    ensures var r := WalkValue(dec, v, path, scope, NOTHING);
            && r.Ok?
            && match plain
               case Str(text) => r.value.1.hash == text
               case Bool(flag) => r.value.1.hash == if flag then "True" else "False"
               case _ => r.value.1.hash == dec.format(plain)
  {
    hide Decide; hide PathString;
    assert forall b: string :: "" + b == b;
  }
}
