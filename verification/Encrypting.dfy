/**
 Encryption as a whole: which documents it encrypts at all, and that every value is sealed with
 randomness of its own.
 */
module Encrypting {
  import opened Results
  import opened Trees
  import opened Decisions
  import opened Walker
  import opened Documents
  import RoundTrip
  import opened CommentScopes

  // ---------- Which documents are encrypted ----------

  /** Keys are strings or comments, no value is of an unknown type, and `fits` holds for the leaves and
      comments. What stands beside a comment as a key is not looked at. */
  ghost predicate IsKnown(v: Value, fits: Value -> bool)
    decreases v
  {
    match v
    case Branch(items) => forall i :: 0 <= i < |items| ==> IsKnownItem(items[i], fits)
    case List(elems) => forall i :: 0 <= i < |elems| ==> IsKnown(elems[i], fits)
    case Nil => true
    case Unknown(_) => false
    case Bytes(raw) => fits(Str(raw))
    case _ => fits(v)
  }

  ghost predicate IsKnownItem(item: Item, fits: Value -> bool)
    decreases item
  {
    match item.key
    case Remark(text, inline) => fits(Comment(text, inline))
    case Name(_) => IsKnown(item.value, fits)
    case Index(_) => false
  }

  /** The cipher encrypts what fits, and no comment it encrypted matches the regex for comments that
      leave values alone. */
  ghost predicate Works(env: Env, fits: Value -> bool) {
    && (forall v, ad, n :: fits(v) ==> env.cipher.encrypt(v, env.key, ad, n).Ok?)
    && (env.rules.unencryptedCommentRegex != "" && env.rules.encryptedCommentRegex != "" ==>
        forall v: Value, ad, n :: v.Comment? && fits(v) ==>
          !env.matches(env.rules.unencryptedCommentRegex, env.cipher.encrypt(v, env.key, ad, n).value))
  }

  lemma LeafIsEncrypted(env: Env, v: Value, path: seq<string>, scope: seq<string>, st: Written, fits: Value -> bool)
    requires env.mode == Encrypting && Works(env, fits) && fits(v) && (IsPlainLeaf(v) || v.Comment?)
    ensures var r := OnLeaf(env, v, path, scope, st);
            r.Ok? && (v.Comment? ==> r.value.0.Comment? || r.value.0.Str?)
  {
    if v.Comment? {
      CommentsIgnorePath(env.rules, env.matches, path, scope, v.text);
    }
    hide Decide; hide PathString;
  }

  /** A comment is refused when the cipher fails on it, or when its ciphertext would be taken for a
      comment that leaves values alone; one that stays readable never is. */
  lemma CommentIsRefusedExactly(env: Env, item: Item, path: seq<string>, scope: seq<string>, st: Written)
    requires env.mode == Encrypting && item.key.Remark?
    ensures var c := env.cipher.encrypt(Comment(item.key.text, item.key.inline), env.key, PathString(path), st.calls);
            WalkItem(env, item, path, scope, st).Err? <==>
            && Decide(env.rules, env.matches, path, scope, Some(item.key.text))
            && (c.Err? || (env.rules.unencryptedCommentRegex != ""
                           && env.matches(env.rules.unencryptedCommentRegex, c.value)))
  {
    hide Decide; hide PathString; hide WalkValue;
  }

  lemma {:induction false} KnownIsEncrypted(env: Env, v: Value, path: seq<string>, scope: seq<string>, st: Written,
                                            fits: Value -> bool)
    requires env.mode == Encrypting && Works(env, fits) && IsKnown(v, fits)
    ensures WalkValue(env, v, path, scope, st).Ok?
    decreases v, 1
  {
    hide Works; hide OnLeaf;
    match v
    case Branch(items) => ItemsAreEncrypted(env, items, path, scope, [], st, fits);
    case List(elems) => ElemsAreEncrypted(env, elems, path, scope, [], st, fits);
    case Bytes(raw) => LeafIsEncrypted(env, Str(raw), path, scope, st, fits);
    case Nil =>
    case _ => LeafIsEncrypted(env, v, path, scope, st, fits);
  }

  lemma {:induction false} ItemIsEncrypted(env: Env, item: Item, path: seq<string>, scope: seq<string>, st: Written,
                                           fits: Value -> bool)
    requires env.mode == Encrypting && Works(env, fits) && IsKnownItem(item, fits)
    ensures WalkItem(env, item, path, scope, st).Ok?
    decreases item, 2
  {
    hide Works; hide OnLeaf; hide WalkValue;
    match item.key
    case Remark(text, inline) =>
      LeafIsEncrypted(env, Comment(text, inline), path, scope, st, fits);
      RoundTrip.WalkRemark(env, item, path, scope, st);
      hide WalkItem;
    case Name(name) => KnownIsEncrypted(env, item.value, path + [name], scope, st, fits);
  }

  lemma {:induction false} ItemsAreEncrypted(env: Env, items: TreeBranch, path: seq<string>, outer: seq<string>,
                                             run: seq<string>, st: Written, fits: Value -> bool)
    requires env.mode == Encrypting && Works(env, fits)
    requires forall i :: 0 <= i < |items| ==> IsKnownItem(items[i], fits)
    ensures WalkItems(env, items, path, outer, run, st).Ok?
    decreases items, 0
  {
    hide Works; hide WalkItem; hide IsKnownItem; hide NextRun;
    if items != [] {
      ItemIsEncrypted(env, items[0], path, outer + run, st, fits);
      var s := WalkItem(env, items[0], path, outer + run, st).value.1;
      ItemsAreEncrypted(env, items[1..], path, outer, NextRun(run, items[0]), s, fits);
    }
  }

  lemma {:induction false} ElemsAreEncrypted(env: Env, elems: seq<Value>, path: seq<string>, outer: seq<string>,
                                             run: seq<string>, st: Written, fits: Value -> bool)
    requires env.mode == Encrypting && Works(env, fits)
    requires forall i :: 0 <= i < |elems| ==> IsKnown(elems[i], fits)
    ensures WalkElems(env, elems, path, outer, run, st).Ok?
    decreases elems, 0
  {
    hide Works; hide WalkValue; hide IsKnown; hide NextListRun;
    if elems != [] {
      KnownIsEncrypted(env, elems[0], path, outer + run, st, fits);
      var s := WalkValue(env, elems[0], path, outer + run, st).value.1;
      ElemsAreEncrypted(env, elems[1..], path, outer, NextListRun(run, elems[0]), s, fits);
    }
  }

  const ANYTHING: Value -> bool := (v: Value) => true

  /** And nothing else is walked, encrypting or decrypting. */
  lemma {:induction false} WalkedIsKnown(env: Env, v: Value, path: seq<string>, scope: seq<string>, st: Written)
    requires WalkValue(env, v, path, scope, st).Ok?
    ensures IsKnown(v, ANYTHING)
    decreases v, 1
  {
    hide OnLeaf;
    match v
    case Branch(items) => WalkedItemsAreKnown(env, items, path, scope, [], st);
    case List(elems) => WalkedElemsAreKnown(env, elems, path, scope, [], st);
    case _ =>
  }

  lemma {:induction false} WalkedItemIsKnown(env: Env, item: Item, path: seq<string>, scope: seq<string>, st: Written)
    requires WalkItem(env, item, path, scope, st).Ok?
    ensures IsKnownItem(item, ANYTHING)
    decreases item, 2
  {
    hide OnLeaf; hide WalkValue;
    if item.key.Name? {
      WalkedIsKnown(env, item.value, path + [item.key.name], scope, st);
    }
  }

  lemma {:induction false} WalkedItemsAreKnown(env: Env, items: TreeBranch, path: seq<string>, outer: seq<string>,
                                               run: seq<string>, st: Written)
    requires WalkItems(env, items, path, outer, run, st).Ok?
    ensures forall i :: 0 <= i < |items| ==> IsKnownItem(items[i], ANYTHING)
    decreases items, 0
  {
    hide WalkItem; hide IsKnownItem; hide NextRun;
    if items != [] {
      WalkedItemIsKnown(env, items[0], path, outer + run, st);
      var s := WalkItem(env, items[0], path, outer + run, st).value.1;
      WalkedItemsAreKnown(env, items[1..], path, outer, NextRun(run, items[0]), s);
    }
  }

  lemma {:induction false} WalkedElemsAreKnown(env: Env, elems: seq<Value>, path: seq<string>, outer: seq<string>,
                                               run: seq<string>, st: Written)
    requires WalkElems(env, elems, path, outer, run, st).Ok?
    ensures forall i :: 0 <= i < |elems| ==> IsKnown(elems[i], ANYTHING)
    decreases elems, 0
  {
    hide WalkValue; hide IsKnown; hide NextListRun;
    if elems != [] {
      WalkedIsKnown(env, elems[0], path, outer + run, st);
      var s := WalkValue(env, elems[0], path, outer + run, st).value.1;
      WalkedElemsAreKnown(env, elems[1..], path, outer, NextListRun(run, elems[0]), s);
    }
  }

  /** With a cipher that encrypts every leaf, exactly the documents are encrypted that have no values of
      unknown types and no keys that are neither strings nor comments. */
  lemma EncryptsExactly(env: Env, branches: seq<TreeBranch>, now: int, f: Format)
    requires env.mode == Encrypting && Works(env, ANYTHING)
    ensures EncryptedTree(env, branches, now, f).Ok? <==>
            forall k :: 0 <= k < |branches| ==> IsKnown(Branch(branches[k]), ANYTHING)
  {
    BranchesEncryptExactly(env, branches, Start(env.rules), ANYTHING);
    hide WalkBranches; hide IsKnown;
  }

  /** With any cipher, all documents are encrypted whose leaves and MAC it encrypts. */
  lemma EncryptsWhatFits(env: Env, branches: seq<TreeBranch>, now: int, f: Format, fits: Value -> bool)
    requires env.mode == Encrypting && Works(env, fits)
    requires forall k :: 0 <= k < |branches| ==> IsKnown(Branch(branches[k]), fits)
    requires forall bytes :: fits(Str(f.digest(bytes)))
    ensures EncryptedTree(env, branches, now, f).Ok?
  {
    BranchesEncryptExactly(env, branches, Start(env.rules), fits);
    hide WalkBranches; hide IsKnown;
  }

  lemma {:induction false} BranchesEncryptExactly(env: Env, branches: seq<TreeBranch>, st: Written,
                                                  fits: Value -> bool)
    requires env.mode == Encrypting && Works(env, fits)
    ensures (forall k :: 0 <= k < |branches| ==> IsKnown(Branch(branches[k]), fits)) ==>
              WalkBranches(env, branches, st).Ok?
    ensures WalkBranches(env, branches, st).Ok? ==>
              forall k :: 0 <= k < |branches| ==> IsKnown(Branch(branches[k]), ANYTHING)
  {
    hide Works; hide WalkItems;
    if branches != [] {
      var first := WalkItems(env, branches[0], [], [], [], st);
      if forall k :: 0 <= k < |branches| ==> IsKnown(Branch(branches[k]), fits) {
        assert IsKnown(Branch(branches[0]), fits);
        ItemsAreEncrypted(env, branches[0], [], [], [], st, fits);
      }
      if first.Ok? {
        WalkedItemsAreKnown(env, branches[0], [], [], [], st);
        BranchesEncryptExactly(env, branches[1..], first.value.1, fits);
        assert IsKnown(Branch(branches[0]), ANYTHING);
        hide IsKnown;
        assert forall k :: 1 <= k < |branches| ==> branches[k] == branches[1..][k - 1];
        assert forall k :: 0 <= k < |branches[1..]| ==> branches[1..][k] == branches[k + 1];
      }
    }
  }

  // ---------- Randomness ----------

  /** A value that is encrypted, or a comment, takes the next draw; one that is not takes none. */
  lemma LeafDraws(env: Env, v: Value, path: seq<string>, scope: seq<string>, st: Written)
    requires env.mode == Encrypting && OnLeaf(env, v, path, scope, st).Ok?
    ensures var (w, s) := OnLeaf(env, v, path, scope, st).value;
            if Decide(env.rules, env.matches, path, scope, SelfOf(v)) then
              var c := env.cipher.encrypt(v, env.key, PathString(path), st.calls);
              c.Ok? && w == Str(c.value) && s.calls == st.calls + 1
            else w == v && s.calls == st.calls
  {
    hide Decide; hide PathString;
  }

  lemma {:induction false} DrawsGrow(env: Env, v: Value, path: seq<string>, scope: seq<string>, st: Written)
    requires env.mode == Encrypting && WalkValue(env, v, path, scope, st).Ok?
    ensures WalkValue(env, v, path, scope, st).value.1.calls >= st.calls
    decreases v, 1
  {
    hide OnLeaf; hide Decide;
    match v
    case Branch(items) => DrawsGrowInItems(env, items, path, scope, [], st);
    case List(elems) => DrawsGrowInElems(env, elems, path, scope, [], st);
    case Bytes(raw) => LeafDraws(env, Str(raw), path, scope, st);
    case Nil =>
    case _ => LeafDraws(env, v, path, scope, st);
  }

  lemma {:induction false} DrawsGrowInItem(env: Env, item: Item, path: seq<string>, scope: seq<string>, st: Written)
    requires env.mode == Encrypting && WalkItem(env, item, path, scope, st).Ok?
    ensures WalkItem(env, item, path, scope, st).value.1.calls >= st.calls
    decreases item, 2
  {
    hide OnLeaf; hide WalkValue; hide Decide;
    match item.key
    case Remark(text, inline) => LeafDraws(env, Comment(text, inline), path, scope, st);
    case Name(name) => DrawsGrow(env, item.value, path + [name], scope, st);
  }

  lemma {:induction false} DrawsGrowInItems(env: Env, items: TreeBranch, path: seq<string>, outer: seq<string>,
                                            run: seq<string>, st: Written)
    requires env.mode == Encrypting && WalkItems(env, items, path, outer, run, st).Ok?
    ensures WalkItems(env, items, path, outer, run, st).value.1.calls >= st.calls
    decreases items, 0
  {
    hide WalkItem; hide NextRun;
    if items != [] {
      DrawsGrowInItem(env, items[0], path, outer + run, st);
      var s := WalkItem(env, items[0], path, outer + run, st).value.1;
      DrawsGrowInItems(env, items[1..], path, outer, NextRun(run, items[0]), s);
    }
  }

  lemma {:induction false} DrawsGrowInElems(env: Env, elems: seq<Value>, path: seq<string>, outer: seq<string>,
                                            run: seq<string>, st: Written)
    requires env.mode == Encrypting && WalkElems(env, elems, path, outer, run, st).Ok?
    ensures WalkElems(env, elems, path, outer, run, st).value.1.calls >= st.calls
    decreases elems, 0
  {
    hide WalkValue; hide NextListRun;
    if elems != [] {
      DrawsGrow(env, elems[0], path, outer + run, st);
      var s := WalkValue(env, elems[0], path, outer + run, st).value.1;
      DrawsGrowInElems(env, elems[1..], path, outer, NextListRun(run, elems[0]), s);
    }
  }

  lemma ItemsFrom(env: Env, items: TreeBranch, k: nat, path: seq<string>, outer: seq<string>, st: Written)
    requires k < |items| && WalkItems(env, items[k..], path, outer, RunBefore(items, k), st).Ok?
    ensures var first := WalkItem(env, items[k], path, outer + RunBefore(items, k), st);
            first.Ok? &&
            var rest := WalkItems(env, items[k + 1..], path, outer, RunBefore(items, k + 1), first.value.1);
            && rest.Ok?
            && WalkItems(env, items[k..], path, outer, RunBefore(items, k), st)
            == Ok(([first.value.0] + rest.value.0, rest.value.1))
  {
    assert items[k..][0] == items[k] && items[k..][1..] == items[k + 1..];
    assert NextRun(RunBefore(items, k), items[k]) == RunBefore(items, k + 1);
    ItemsStep(env, items[k..], path, outer, RunBefore(items, k), st);
    hide WalkItem; hide WalkItems; hide RunBefore; hide NextRun;
  }

  lemma ElemsFrom(env: Env, elems: seq<Value>, k: nat, path: seq<string>, outer: seq<string>, st: Written)
    requires k < |elems| && WalkElems(env, elems[k..], path, outer, ListRunBefore(elems, k), st).Ok?
    ensures var first := WalkValue(env, elems[k], path, outer + ListRunBefore(elems, k), st);
            first.Ok? &&
            var rest := WalkElems(env, elems[k + 1..], path, outer, ListRunBefore(elems, k + 1), first.value.1);
            && rest.Ok?
            && WalkElems(env, elems[k..], path, outer, ListRunBefore(elems, k), st)
            == Ok(([first.value.0] + rest.value.0, rest.value.1))
  {
    assert elems[k..][0] == elems[k] && elems[k..][1..] == elems[k + 1..];
    assert NextListRun(ListRunBefore(elems, k), elems[k]) == ListRunBefore(elems, k + 1);
    ElemsStep(env, elems[k..], path, outer, ListRunBefore(elems, k), st);
    hide WalkValue; hide WalkElems; hide ListRunBefore; hide NextListRun;
  }

  /** Item `i` is walked with draws that lie between those at the start and those at the end. */
  lemma {:induction false} ItemDraws(env: Env, items: TreeBranch, k: nat, path: seq<string>, outer: seq<string>,
                                     st: Written, i: nat) returns (s: Written)
    requires env.mode == Encrypting && k <= i < |items|
    requires WalkItems(env, items[k..], path, outer, RunBefore(items, k), st).Ok?
    ensures var (ws, end) := WalkItems(env, items[k..], path, outer, RunBefore(items, k), st).value;
            var r := WalkItem(env, items[i], path, outer + RunBefore(items, i), s);
            r.Ok? && r.value.0 == ws[i - k] && st.calls <= s.calls && r.value.1.calls <= end.calls
    decreases i - k
  {
    hide WalkItem; hide WalkItems; hide RunBefore;
    ItemsFrom(env, items, k, path, outer, st);
    var s1 := WalkItem(env, items[k], path, outer + RunBefore(items, k), st).value.1;
    if i == k {
      s := st;
      DrawsGrowInItems(env, items[k + 1..], path, outer, RunBefore(items, k + 1), s1);
    } else {
      DrawsGrowInItem(env, items[k], path, outer + RunBefore(items, k), st);
      s := ItemDraws(env, items, k + 1, path, outer, s1, i);
    }
  }

  lemma {:induction false} ElemDraws(env: Env, elems: seq<Value>, k: nat, path: seq<string>, outer: seq<string>,
                                     st: Written, i: nat) returns (s: Written)
    requires env.mode == Encrypting && k <= i < |elems|
    requires WalkElems(env, elems[k..], path, outer, ListRunBefore(elems, k), st).Ok?
    ensures var (ws, end) := WalkElems(env, elems[k..], path, outer, ListRunBefore(elems, k), st).value;
            var r := WalkValue(env, elems[i], path, outer + ListRunBefore(elems, i), s);
            r.Ok? && r.value.0 == ws[i - k] && st.calls <= s.calls && r.value.1.calls <= end.calls
    decreases i - k
  {
    hide WalkValue; hide WalkElems; hide ListRunBefore;
    ElemsFrom(env, elems, k, path, outer, st);
    var s1 := WalkValue(env, elems[k], path, outer + ListRunBefore(elems, k), st).value.1;
    if i == k {
      s := st;
      DrawsGrowInElems(env, elems[k + 1..], path, outer, ListRunBefore(elems, k + 1), s1);
    } else {
      DrawsGrow(env, elems[k], path, outer + ListRunBefore(elems, k), st);
      s := ElemDraws(env, elems, k + 1, path, outer, s1, i);
    }
  }

  /** Of two items, the draws of the first come before those of the second. */
  lemma {:induction false} TwoItemsDraw(env: Env, items: TreeBranch, k: nat, path: seq<string>, outer: seq<string>,
                                        st: Written, i: nat, j: nat) returns (s: Written, t: Written)
    requires env.mode == Encrypting && k <= i < j < |items|
    requires WalkItems(env, items[k..], path, outer, RunBefore(items, k), st).Ok?
    ensures var (ws, end) := WalkItems(env, items[k..], path, outer, RunBefore(items, k), st).value;
            var r := WalkItem(env, items[i], path, outer + RunBefore(items, i), s);
            var q := WalkItem(env, items[j], path, outer + RunBefore(items, j), t);
            r.Ok? && q.Ok? && r.value.0 == ws[i - k] && q.value.0 == ws[j - k]
            && r.value.1.calls <= t.calls && q.value.1.calls <= end.calls
    decreases i - k
  {
    hide WalkItem; hide WalkItems; hide RunBefore;
    ItemsFrom(env, items, k, path, outer, st);
    var s1 := WalkItem(env, items[k], path, outer + RunBefore(items, k), st).value.1;
    if i == k {
      s := st;
      t := ItemDraws(env, items, k + 1, path, outer, s1, j);
    } else {
      s, t := TwoItemsDraw(env, items, k + 1, path, outer, s1, i, j);
    }
  }

  lemma {:induction false} TwoElemsDraw(env: Env, elems: seq<Value>, k: nat, path: seq<string>, outer: seq<string>,
                                        st: Written, i: nat, j: nat) returns (s: Written, t: Written)
    requires env.mode == Encrypting && k <= i < j < |elems|
    requires WalkElems(env, elems[k..], path, outer, ListRunBefore(elems, k), st).Ok?
    ensures var (ws, end) := WalkElems(env, elems[k..], path, outer, ListRunBefore(elems, k), st).value;
            var r := WalkValue(env, elems[i], path, outer + ListRunBefore(elems, i), s);
            var q := WalkValue(env, elems[j], path, outer + ListRunBefore(elems, j), t);
            r.Ok? && q.Ok? && r.value.0 == ws[i - k] && q.value.0 == ws[j - k]
            && r.value.1.calls <= t.calls && q.value.1.calls <= end.calls
    decreases i - k
  {
    hide WalkValue; hide WalkElems; hide ListRunBefore;
    ElemsFrom(env, elems, k, path, outer, st);
    var s1 := WalkValue(env, elems[k], path, outer + ListRunBefore(elems, k), st).value.1;
    if i == k {
      s := st;
      t := ElemDraws(env, elems, k + 1, path, outer, s1, j);
    } else {
      s, t := TwoElemsDraw(env, elems, k + 1, path, outer, s1, i, j);
    }
  }

  /** The value at a position is walked between the draws at the start and those at the end. */
  lemma {:induction false} DrawsAt(env: Env, v: Value, pos: seq<nat>, path: seq<string>, scope: seq<string>,
                                   st: Written) returns (s: Written)
    requires env.mode == Encrypting && ValidAt(v, pos) && WalkValue(env, v, path, scope, st).Ok?
    ensures var (w, end) := WalkValue(env, v, path, scope, st).value;
            ValidAt(w, pos) &&
            var r := WalkValue(env, At(v, pos), PathAt(v, pos, path), ScopeAt(v, pos, scope), s);
            r.Ok? && r.value.0 == At(w, pos) && st.calls <= s.calls && r.value.1.calls <= end.calls
    decreases pos
  {
    hide WalkItems; hide WalkElems; hide OnLeaf;
    if pos == [] {
      s := st;
    } else if v.Branch? {
      assert v.items[0..] == v.items;
      s := ItemDraws(env, v.items, 0, path, scope, st, pos[0]);
      var item := v.items[pos[0]];
      s := DrawsAt(env, item.value, pos[1..], path + [item.key.name], scope + RunBefore(v.items, pos[0]), s);
    } else {
      assert v.elems[0..] == v.elems;
      s := ElemDraws(env, v.elems, 0, path, scope, st, pos[0]);
      s := DrawsAt(env, v.elems[pos[0]], pos[1..], path, scope + ListRunBefore(v.elems, pos[0]), s);
    }
  }

  /** The first position lies in front of the second, at some level. */
  predicate InFront(p: seq<nat>, q: seq<nat>) {
    p != [] && q != [] && (p[0] < q[0] || (p[0] == q[0] && InFront(p[1..], q[1..])))
  }

  lemma {:induction false} LeavesAreApart(v: Value, p: seq<nat>, q: seq<nat>)
    requires ValidAt(v, p) && ValidAt(v, q) && IsPlainLeaf(At(v, p)) && IsPlainLeaf(At(v, q)) && p != q
    ensures InFront(p, q) || InFront(q, p)
    decreases p
  {
    if p != [] && q != [] && p[0] == q[0] {
      assert p == [p[0]] + p[1..] && q == [q[0]] + q[1..];
      LeavesAreApart(if v.Branch? then v.items[p[0]].value else v.elems[p[0]], p[1..], q[1..]);
    }
  }

  lemma {:induction false} TwoDraws(env: Env, v: Value, p: seq<nat>, q: seq<nat>, path: seq<string>,
                                    scope: seq<string>, st: Written) returns (s: Written, t: Written)
    requires env.mode == Encrypting && ValidAt(v, p) && ValidAt(v, q) && InFront(p, q)
    requires WalkValue(env, v, path, scope, st).Ok?
    ensures var (w, end) := WalkValue(env, v, path, scope, st).value;
            ValidAt(w, p) && ValidAt(w, q) &&
            var r := WalkValue(env, At(v, p), PathAt(v, p, path), ScopeAt(v, p, scope), s);
            var r' := WalkValue(env, At(v, q), PathAt(v, q, path), ScopeAt(v, q, scope), t);
            r.Ok? && r'.Ok? && r.value.0 == At(w, p) && r'.value.0 == At(w, q)
            && r.value.1.calls <= t.calls && r'.value.1.calls <= end.calls
    decreases p
  {
    hide WalkItems; hide WalkElems; hide OnLeaf;
    var i, j := p[0], q[0];
    if v.Branch? {
      var a, b := v.items[i], v.items[j];
      assert v.items[0..] == v.items;
      if i < j {
        s, t := TwoItemsDraw(env, v.items, 0, path, scope, st, i, j);
        s := DrawsAt(env, a.value, p[1..], path + [a.key.name], scope + RunBefore(v.items, i), s);
        t := DrawsAt(env, b.value, q[1..], path + [b.key.name], scope + RunBefore(v.items, j), t);
      } else {
        s := ItemDraws(env, v.items, 0, path, scope, st, i);
        s, t := TwoDraws(env, a.value, p[1..], q[1..], path + [a.key.name], scope + RunBefore(v.items, i), s);
      }
    } else {
      assert v.elems[0..] == v.elems;
      if i < j {
        s, t := TwoElemsDraw(env, v.elems, 0, path, scope, st, i, j);
        s := DrawsAt(env, v.elems[i], p[1..], path, scope + ListRunBefore(v.elems, i), s);
        t := DrawsAt(env, v.elems[j], q[1..], path, scope + ListRunBefore(v.elems, j), t);
      } else {
        s := ElemDraws(env, v.elems, 0, path, scope, st, i);
        s, t := TwoDraws(env, v.elems[i], p[1..], q[1..], path, scope + ListRunBefore(v.elems, i), s);
      }
    }
  }

  lemma {:induction false} BranchDraws(env: Env, branches: seq<TreeBranch>, k: nat, st: Written) returns (s: Written)
    requires env.mode == Encrypting && k < |branches| && WalkBranches(env, branches, st).Ok?
    ensures var (ws, end) := WalkBranches(env, branches, st).value;
            var r := WalkItems(env, branches[k], [], [], [], s);
            r.Ok? && r.value.0 == ws[k] && st.calls <= s.calls && r.value.1.calls <= end.calls
  {
    hide WalkItems;
    DrawsGrowInItems(env, branches[0], [], [], [], st);
    var s1 := WalkItems(env, branches[0], [], [], [], st).value.1;
    if k == 0 {
      s := st;
      DrawsGrowInBranches(env, branches[1..], s1);
    } else {
      s := BranchDraws(env, branches[1..], k - 1, s1);
    }
  }

  lemma {:induction false} DrawsGrowInBranches(env: Env, branches: seq<TreeBranch>, st: Written)
    requires env.mode == Encrypting && WalkBranches(env, branches, st).Ok?
    ensures WalkBranches(env, branches, st).value.1.calls >= st.calls
  {
    hide WalkItems;
    if branches != [] {
      DrawsGrowInItems(env, branches[0], [], [], [], st);
      DrawsGrowInBranches(env, branches[1..], WalkItems(env, branches[0], [], [], [], st).value.1);
    }
  }

  lemma {:induction false} TwoBranchesDraw(env: Env, branches: seq<TreeBranch>, k: nat, k': nat, st: Written)
      returns (s: Written, t: Written)
    requires env.mode == Encrypting && k < k' < |branches| && WalkBranches(env, branches, st).Ok?
    ensures var (ws, end) := WalkBranches(env, branches, st).value;
            var r, r' := WalkItems(env, branches[k], [], [], [], s), WalkItems(env, branches[k'], [], [], [], t);
            && r.Ok? && r'.Ok? && r.value.0 == ws[k] && r'.value.0 == ws[k']
            && r.value.1.calls <= t.calls && r'.value.1.calls <= end.calls
  {
    hide WalkItems;
    var s1 := WalkItems(env, branches[0], [], [], [], st).value.1;
    if k == 0 {
      s := st;
      t := BranchDraws(env, branches[1..], k' - 1, s1);
    } else {
      s, t := TwoBranchesDraw(env, branches[1..], k - 1, k' - 1, s1);
    }
  }

  /** The leaf at this position of a branch was sealed with this draw. */
  ghost predicate SealedWith(env: Env, v: Value, w: Value, pos: seq<nat>, n: nat) {
    && ValidAt(v, pos) && ValidAt(w, pos)
    && var c := env.cipher.encrypt(At(v, pos), env.key, PathString(PathAt(v, pos, [])), n);
       c.Ok? && At(w, pos) == Str(c.value)
  }

  ghost predicate IsSecretAt(env: Env, v: Value, pos: seq<nat>) {
    && ValidAt(v, pos) && IsPlainLeaf(At(v, pos))
    && Decide(env.rules, env.matches, PathAt(v, pos, []), ScopeAt(v, pos, []), None)
  }

  lemma SecretDraws(env: Env, v: Value, w: Value, pos: seq<nat>, s: Written)
    requires env.mode == Encrypting && IsSecretAt(env, v, pos) && ValidAt(w, pos)
    requires var r := WalkValue(env, At(v, pos), PathAt(v, pos, []), ScopeAt(v, pos, []), s);
             r.Ok? && r.value.0 == At(w, pos)
    ensures SealedWith(env, v, w, pos, s.calls)
    ensures WalkValue(env, At(v, pos), PathAt(v, pos, []), ScopeAt(v, pos, []), s).value.1.calls == s.calls + 1
  {
    LeafDraws(env, At(v, pos), PathAt(v, pos, []), ScopeAt(v, pos, []), s);
    hide OnLeaf; hide Decide; hide PathString;
  }

  lemma TwoSecretsDraw(env: Env, items: TreeBranch, p: seq<nat>, q: seq<nat>, st: Written) returns (n: nat, m: nat)
    requires env.mode == Encrypting && WalkItems(env, items, [], [], [], st).Ok? && InFront(p, q)
    requires IsSecretAt(env, Branch(items), p) && IsSecretAt(env, Branch(items), q)
    ensures var (ws, end) := WalkItems(env, items, [], [], [], st).value;
            && SealedWith(env, Branch(items), Branch(ws), p, n) && SealedWith(env, Branch(items), Branch(ws), q, m)
            && n < m < end.calls
  {
    var v := Branch(items);
    assert WalkValue(env, v, [], [], st).Ok?;
    hide Decide; hide WalkItems; hide PathString;
    var w := WalkValue(env, v, [], [], st).value.0;
    var s, t := TwoDraws(env, v, p, q, [], [], st);
    SecretDraws(env, v, w, p, s);
    SecretDraws(env, v, w, q, t);
    n, m := s.calls, t.calls;
  }

  lemma SecretDrawsIn(env: Env, items: TreeBranch, pos: seq<nat>, st: Written) returns (n: nat)
    requires env.mode == Encrypting && WalkItems(env, items, [], [], [], st).Ok?
    requires IsSecretAt(env, Branch(items), pos)
    ensures var (ws, end) := WalkItems(env, items, [], [], [], st).value;
            SealedWith(env, Branch(items), Branch(ws), pos, n) && st.calls <= n < end.calls
  {
    var v := Branch(items);
    assert WalkValue(env, v, [], [], st).Ok?;
    hide Decide; hide WalkItems; hide PathString;
    var s := DrawsAt(env, v, pos, [], [], st);
    SecretDraws(env, v, WalkValue(env, v, [], [], st).value.0, pos, s);
    n := s.calls;
  }

  /** The main result on randomness: no two values of a document are sealed with the same draw, in
      whatever branches they are, and the MAC is sealed with yet another one. */
  lemma SecretsDrawApart(env: Env, branches: seq<TreeBranch>, now: int, f: Format, k: nat, p: seq<nat>, k': nat,
                         q: seq<nat>) returns (n: nat, m: nat, last: nat)
    requires env.mode == Encrypting && EncryptedTree(env, branches, now, f).Ok?
    requires k < |branches| && k' < |branches| && (k != k' || p != q)
    requires IsSecretAt(env, Branch(branches[k]), p) && IsSecretAt(env, Branch(branches[k']), q)
    ensures var s := EncryptedTree(env, branches, now, f).value;
            && SealedWith(env, Branch(branches[k]), Branch(s.branches[k]), p, n)
            && SealedWith(env, Branch(branches[k']), Branch(s.branches[k']), q, m)
            && env.cipher.encrypt(Str(WalkedTree(env, branches, f).value.1), env.key, f.rfc3339(now), last) == Ok(s.mac)
    ensures n != m && n < last && m < last
  {
    var st := Start(env.rules);
    last := WalkBranches(env, branches, st).value.1.calls;
    if k == k' {
      LeavesAreApart(Branch(branches[k]), p, q);
      var s := BranchDraws(env, branches, k, st);
      hide WalkBranches; hide WalkItems; hide IsSecretAt; hide SealedWith;
      if InFront(p, q) {
        n, m := TwoSecretsDraw(env, branches[k], p, q, s);
      } else {
        m, n := TwoSecretsDraw(env, branches[k], q, p, s);
      }
    } else {
      var i, j := if k < k' then k else k', if k < k' then k' else k;
      var s, t := TwoBranchesDraw(env, branches, i, j, st);
      hide WalkBranches; hide WalkItems; hide IsSecretAt; hide SealedWith;
      var x := SecretDrawsIn(env, branches[i], if k < k' then p else q, s);
      var y := SecretDrawsIn(env, branches[j], if k < k' then q else p, t);
      n, m := if k < k' then x else y, if k < k' then y else x;
    }
  }
}
