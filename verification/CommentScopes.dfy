/**
 Which comments decide about a leaf, told from its position in the tree alone: the comments
 directly in front of it and directly in front of each of its ancestors, and no others.
 */
module CommentScopes {
  import opened Results
  import opened Trees
  import opened Decisions
  import opened Walker

  predicate IsComment(item: Item) {
    item.key.Remark? || item.value.Comment?
  }

  function CommentText(item: Item): string
    requires IsComment(item)
  {
    if item.key.Remark? then item.key.text else item.value.text
  }

  /** The unbroken run of comments directly in front of item `i`. */
  function RunBefore(items: TreeBranch, i: nat): seq<string>
    requires i <= |items|
  {
    if i > 0 && IsComment(items[i - 1]) then RunBefore(items, i - 1) + [CommentText(items[i - 1])] else []
  }

  function ListRunBefore(elems: seq<Value>, i: nat): seq<string>
    requires i <= |elems|
  {
    if i > 0 && elems[i - 1].Comment? then ListRunBefore(elems, i - 1) + [elems[i - 1].text] else []
  }

  // ---------- Positions ----------

  /** A position is the sequence of indices that leads to a value. */
  predicate ValidAt(v: Value, pos: seq<nat>)
    decreases pos
  {
    pos == [] ||
    match v
    case Branch(items) => pos[0] < |items| && items[pos[0]].key.Name? && ValidAt(items[pos[0]].value, pos[1..])
    case List(elems) => pos[0] < |elems| && ValidAt(elems[pos[0]], pos[1..])
    case _ => false
  }

  function At(v: Value, pos: seq<nat>): Value
    requires ValidAt(v, pos)
    decreases pos
  {
    if pos == [] then v
    else if v.Branch? then At(v.items[pos[0]].value, pos[1..])
    else At(v.elems[pos[0]], pos[1..])
  }

  /** The keys on the way to a position; list indices are not part of the path. */
  function PathAt(v: Value, pos: seq<nat>, path: seq<string>): seq<string>
    requires ValidAt(v, pos)
    decreases pos
  {
    if pos == [] then path
    else if v.Branch? then PathAt(v.items[pos[0]].value, pos[1..], path + [v.items[pos[0]].key.name])
    else PathAt(v.elems[pos[0]], pos[1..], path)
  }

  /** The comments in scope at a position: one run for the value and each of its ancestors. */
  function ScopeAt(v: Value, pos: seq<nat>, scope: seq<string>): seq<string>
    requires ValidAt(v, pos)
    decreases pos
  {
    if pos == [] then scope
    else if v.Branch? then ScopeAt(v.items[pos[0]].value, pos[1..], scope + RunBefore(v.items, pos[0]))
    else ScopeAt(v.elems[pos[0]], pos[1..], scope + ListRunBefore(v.elems, pos[0]))
  }

  // ---------- The stack is the run ----------

  /** Item `i` of a branch is walked below exactly the run in front of it. */
  lemma {:induction false} ItemIsWalkedBelowItsRun(env: Env, items: TreeBranch, k: nat, path: seq<string>,
                                                   outer: seq<string>, st: Written, i: nat) returns (s: Written)
    requires k <= i < |items| && WalkItems(env, items[k..], path, outer, RunBefore(items, k), st).Ok?
    ensures var ws := WalkItems(env, items[k..], path, outer, RunBefore(items, k), st).value.0;
            var r := WalkItem(env, items[i], path, outer + RunBefore(items, i), s);
            r.Ok? && r.value.0 == ws[i - k]
    decreases i - k
  {
    hide WalkItem;
    assert items[k..][0] == items[k] && items[k..][1..] == items[k + 1..];
    assert NextRun(RunBefore(items, k), items[k]) == RunBefore(items, k + 1);
    if i == k {
      s := st;
    } else {
      var s1 := WalkItem(env, items[k], path, outer + RunBefore(items, k), st).value.1;
      s := ItemIsWalkedBelowItsRun(env, items, k + 1, path, outer, s1, i);
    }
  }

  lemma {:induction false} ElemIsWalkedBelowItsRun(env: Env, elems: seq<Value>, k: nat, path: seq<string>,
                                                   outer: seq<string>, st: Written, i: nat) returns (s: Written)
    requires k <= i < |elems| && WalkElems(env, elems[k..], path, outer, ListRunBefore(elems, k), st).Ok?
    ensures var ws := WalkElems(env, elems[k..], path, outer, ListRunBefore(elems, k), st).value.0;
            var r := WalkValue(env, elems[i], path, outer + ListRunBefore(elems, i), s);
            r.Ok? && r.value.0 == ws[i - k]
    decreases i - k
  {
    hide WalkValue;
    assert elems[k..][0] == elems[k] && elems[k..][1..] == elems[k + 1..];
    assert NextListRun(ListRunBefore(elems, k), elems[k]) == ListRunBefore(elems, k + 1);
    if i == k {
      s := st;
    } else {
      var s1 := WalkValue(env, elems[k], path, outer + ListRunBefore(elems, k), st).value.1;
      s := ElemIsWalkedBelowItsRun(env, elems, k + 1, path, outer, s1, i);
    }
  }

  /** Every value of a walked tree comes from the value at the same position, walked with the path
      and the comments of that position. */
  lemma {:induction false} WalkedAt(env: Env, v: Value, pos: seq<nat>, path: seq<string>, scope: seq<string>,
        st: Written)
      returns (s: Written)
    requires ValidAt(v, pos) && WalkValue(env, v, path, scope, st).Ok?
    ensures var w := WalkValue(env, v, path, scope, st).value.0;
            ValidAt(w, pos) &&
            var r := WalkValue(env, At(v, pos), PathAt(v, pos, path), ScopeAt(v, pos, scope), s);
            r.Ok? && r.value.0 == At(w, pos)
    decreases pos
  {
    if pos == [] {
      s := st;
    } else if v.Branch? {
      assert v.items[0..] == v.items;
      s := ItemIsWalkedBelowItsRun(env, v.items, 0, path, scope, st, pos[0]);
      var item := v.items[pos[0]];
      s := WalkedAt(env, item.value, pos[1..], path + [item.key.name], scope + RunBefore(v.items, pos[0]), s);
    } else {
      assert v.elems[0..] == v.elems;
      s := ElemIsWalkedBelowItsRun(env, v.elems, 0, path, scope, st, pos[0]);
      s := WalkedAt(env, v.elems[pos[0]], pos[1..], path, scope + ListRunBefore(v.elems, pos[0]), s);
    }
  }

  predicate IsPlainLeaf(v: Value) {
    v.Str? || v.Int? || v.Bool? || v.Float? || v.Time?
  }

  /** What encryption makes of a leaf: a ciphertext that is authenticated by its joined path, or the
      leaf. */
  ghost predicate LeafOutcome(env: Env, leaf: Value, path: seq<string>, encrypted: bool, out: Value) {
    if encrypted then
      exists n :: env.cipher.encrypt(leaf, env.key, PathString(path), n).Ok?
                  && out == Str(env.cipher.encrypt(leaf, env.key, PathString(path), n).value)
    else out == leaf
  }

  /** Encryption of a branch, leaf by leaf: the path and the comments of its position alone decide
      whether a leaf becomes ciphertext, authenticated by its joined path, or stays as it is. */
  lemma LeafIsDecidedByItsPosition(env: Env, items: TreeBranch, pos: seq<nat>, st: Written)
    requires env.mode == Encrypting && WalkItems(env, items, [], [], [], st).Ok?
    requires ValidAt(Branch(items), pos) && IsPlainLeaf(At(Branch(items), pos))
    ensures var v := Branch(items);
            var w := Branch(WalkItems(env, items, [], [], [], st).value.0);
            var path := PathAt(v, pos, []);
            && ValidAt(w, pos)
            && LeafOutcome(env, At(v, pos), path, Decide(env.rules, env.matches, path, ScopeAt(v, pos, []), None),
                           At(w, pos))
  {
    hide Decide; hide PathString;
    var v := Branch(items);
    var s := WalkedAt(env, v, pos, [], [], st);
    var leaf, path := At(v, pos), PathAt(v, pos, []);
    assert WalkValue(env, leaf, path, ScopeAt(v, pos, []), s) == OnLeaf(env, leaf, path, ScopeAt(v, pos, []), s);
    if Decide(env.rules, env.matches, path, ScopeAt(v, pos, []), None) {
      var n := Hashed(env, leaf, true, s).value.calls;
      assert env.cipher.encrypt(leaf, env.key, PathString(path), n).Ok?;
    }
  }

  // ---------- Directives ----------

  /** The last directive in scope, innermost and then latest, decides against all other rules. */
  lemma {:induction false} LastDirectiveDecides(rules: Rules, matches: Matcher, path: seq<string>, outer: seq<string>,
                                                directive: string, later: seq<string>)
    requires IsDirective(directive) && forall i :: 0 <= i < |later| ==> !IsDirective(later[i])
    ensures Decide(rules, matches, path, outer + [directive] + later, None) <==> ParseDirective(directive) == Encrypted
  {
    var scope := outer + [directive] + later;
    hide ParseDirective; hide AnyMatch; hide ByPath;
    forall decided
      ensures Overridden(scope, decided) <==> ParseDirective(directive) == Encrypted
    {
      OverriddenConcat(outer + [directive], later, decided);
      OverriddenSnoc(outer, directive, decided);
      NoDirectiveNoOverride(later, Overridden(outer + [directive], decided));
    }
  }

  lemma {:induction false} NoDirectiveNoOverride(comments: seq<string>, decided: bool)
    requires forall i :: 0 <= i < |comments| ==> !IsDirective(comments[i])
    ensures Overridden(comments, decided) == decided
  {
    hide ParseDirective;
    if comments != [] {
      NoDirectiveNoOverride(comments[..|comments| - 1], decided);
    }
  }

  // ---------- How far a comment reaches ----------

  /** A comment reaches no further than the next item that is no comment: behind that item, the run
      is the same whatever stands in front of it. */
  lemma {:induction false} CommentsReachOneItem(items: TreeBranch, i: nat, others: TreeBranch, k: nat, j: nat)
    requires i < |items| && k < |others| && items[i..] == others[k..] && !IsComment(items[i])
    requires i < j <= |items|
    ensures RunBefore(others, j - i + k) == RunBefore(items, j)
  {
    assert others[j - 1 - i + k] == others[k..][j - 1 - i] == items[i..][j - 1 - i] == items[j - 1];
    if j - 1 > i {
      CommentsReachOneItem(items, i, others, k, j - 1);
    }
  }

  lemma {:induction false} CommentsReachOneElem(elems: seq<Value>, i: nat, others: seq<Value>, k: nat, j: nat)
    requires i < |elems| && k < |others| && elems[i..] == others[k..] && !elems[i].Comment?
    requires i < j <= |elems|
    ensures ListRunBefore(others, j - i + k) == ListRunBefore(elems, j)
  {
    assert others[j - 1 - i + k] == others[k..][j - 1 - i] == elems[i..][j - 1 - i] == elems[j - 1];
    if j - 1 > i {
      CommentsReachOneElem(elems, i, others, k, j - 1);
    }
  }

  /** Two branches, or two lists, are the same from an entry on that is no comment. */
  predicate AgreeFrom(a: Value, i: nat, b: Value, k: nat) {
    if a.Branch? then
      && b.Branch? && i < |a.items| && k < |b.items|
      && a.items[i..] == b.items[k..] && !IsComment(a.items[i])
    else
      && a.List? && b.List? && i < |a.elems| && k < |b.elems|
      && a.elems[i..] == b.elems[k..] && !a.elems[i].Comment?
  }

  /** The same place, when the entry with index `i` has the index `k`. */
  function Moved(pos: seq<nat>, i: nat, k: nat): seq<nat>
    requires pos != [] && pos[0] > i
  {
    [pos[0] - i + k] + pos[1..]
  }

  lemma SameBehind(a: Value, i: nat, b: Value, k: nat, pos: seq<nat>, path: seq<string>, scope: seq<string>)
    requires AgreeFrom(a, i, b, k) && pos != [] && pos[0] > i && ValidAt(a, pos)
    ensures var pos' := Moved(pos, i, k);
            && ValidAt(b, pos') && At(b, pos') == At(a, pos)
            && PathAt(b, pos', path) == PathAt(a, pos, path) && ScopeAt(b, pos', scope) == ScopeAt(a, pos, scope)
  {
    var j, pos' := pos[0] - i + k, Moved(pos, i, k);
    assert pos'[1..] == pos[1..];
    if a.Branch? {
      assert b.items[j] == b.items[k..][pos[0] - i] == a.items[i..][pos[0] - i] == a.items[pos[0]];
      CommentsReachOneItem(a.items, i, b.items, k, pos[0]);
    } else {
      assert b.elems[j] == b.elems[k..][pos[0] - i] == a.elems[i..][pos[0] - i] == a.elems[pos[0]];
      CommentsReachOneElem(a.elems, i, b.elems, k, pos[0]);
    }
  }

  lemma {:induction false} AtJoined(v: Value, p: seq<nat>, q: seq<nat>, path: seq<string>, scope: seq<string>)
    requires ValidAt(v, p) && ValidAt(At(v, p), q)
    ensures ValidAt(v, p + q) && At(v, p + q) == At(At(v, p), q)
    ensures PathAt(v, p + q, path) == PathAt(At(v, p), q, PathAt(v, p, path))
    ensures ScopeAt(v, p + q, scope) == ScopeAt(At(v, p), q, ScopeAt(v, p, scope))
    decreases p
  {
    if p == [] {
      assert p + q == q;
    } else {
      assert (p + q)[0] == p[0] && (p + q)[1..] == p[1..] + q;
      if v.Branch? {
        var item := v.items[p[0]];
        AtJoined(item.value, p[1..], q, path + [item.key.name], scope + RunBefore(v.items, p[0]));
      } else {
        AtJoined(v.elems[p[0]], p[1..], q, path, scope + ListRunBefore(v.elems, p[0]));
      }
    }
  }

  /** Of two documents with a branch or a list each, at the same path and below the same comments,
      which agree from an entry on that is no comment: every leaf behind that entry has the same
      outcome in both, whatever comments stand in front of the entry. */
  lemma CommentsReachNoFurther(env: Env, items: TreeBranch, others: TreeBranch, p: seq<nat>, p': seq<nat>,
                               i: nat, k: nat, pos: seq<nat>, st: Written, st': Written)
    requires env.mode == Encrypting
    requires WalkItems(env, items, [], [], [], st).Ok? && WalkItems(env, others, [], [], [], st').Ok?
    requires ValidAt(Branch(items), p) && ValidAt(Branch(others), p')
    requires PathAt(Branch(items), p, []) == PathAt(Branch(others), p', [])
    requires ScopeAt(Branch(items), p, []) == ScopeAt(Branch(others), p', [])
    requires AgreeFrom(At(Branch(items), p), i, At(Branch(others), p'), k)
    requires pos != [] && pos[0] > i && ValidAt(At(Branch(items), p), pos)
    requires IsPlainLeaf(At(At(Branch(items), p), pos))
    ensures var w := Branch(WalkItems(env, items, [], [], [], st).value.0);
            var w' := Branch(WalkItems(env, others, [], [], [], st').value.0);
            var q, q' := p + pos, p' + Moved(pos, i, k);
            && ValidAt(Branch(items), q) && ValidAt(w, q) && ValidAt(Branch(others), q') && ValidAt(w', q')
            && At(Branch(items), q) == At(Branch(others), q')
            && PathAt(Branch(items), q, []) == PathAt(Branch(others), q', [])
            && ScopeAt(Branch(items), q, []) == ScopeAt(Branch(others), q', [])
            && var leaf, path := At(Branch(items), q), PathAt(Branch(items), q, []);
               var encrypted := Decide(env.rules, env.matches, path, ScopeAt(Branch(items), q, []), None);
               && LeafOutcome(env, leaf, path, encrypted, At(w, q))
               && LeafOutcome(env, leaf, path, encrypted, At(w', q'))
  {
    var v, v', moved := Branch(items), Branch(others), Moved(pos, i, k);
    var path, scope := PathAt(v, p, []), ScopeAt(v, p, []);
    SameBehind(At(v, p), i, At(v', p'), k, pos, path, scope);
    AtJoined(v, p, pos, [], []);
    AtJoined(v', p', moved, [], []);
    hide At; hide ValidAt; hide PathAt; hide ScopeAt; hide Decide; hide LeafOutcome; hide WalkItems;
    LeafIsDecidedByItsPosition(env, items, p + pos, st);
    LeafIsDecidedByItsPosition(env, others, p' + moved, st');
  }

  // ---------- An encrypted comment inside a list ----------

  lemma {:induction false} TrimShortens(s: string)
    ensures |TrimLeft(s)| <= |s| && |TrimRight(s)| <= |s|
  {
    if s != [] {
      TrimShortens(s[1..]);
      TrimShortens(s[..|s| - 1]);
    }
  }

  lemma ShortIsNoDirective(comment: string)
    requires |comment| < 14
    ensures !IsDirective(comment)
  {
    TrimShortens(comment);
    TrimShortens(TrimLeft(comment));
    assert |"sops:encrypted"| == 14 && |"sops:unencrypted"| == 16;
  }

  /** With nothing in scope nothing is encrypted, and behind "x" everything is. */
  lemma OnlyBehindX(rules: Rules, matches: Matcher, v: Value, scope: seq<string>)
    requires rules.encryptedCommentRegex != "" && matches(rules.encryptedCommentRegex, "x")
    requires v.Comment? ==> !IsDirective(v.text)
    requires forall i :: 0 <= i < |scope| ==> !IsDirective(scope[i])
    requires scope != [] ==> scope[0] == "x"
    ensures Decide(rules, matches, [], scope, SelfOf(v)) <==> scope != []
  {
    hide ParseDirective; hide ByPath;
    NoDirectiveNoOverride(scope, AnyMatch(matches, rules.encryptedCommentRegex, scope));
  }

  lemma EncryptedStep(env: Env, v: Value, run: seq<string>, st: Written, c: string)
    requires env.mode == Encrypting && env.rules.unencryptedCommentRegex == "" && (v.Comment? || v.Str?)
    requires Decide(env.rules, env.matches, [], run, SelfOf(v))
    requires env.cipher.encrypt(v, env.key, ":", st.calls) == Ok(c)
    ensures WalkValue(env, v, [], run, st)
         == Ok((Str(c), Written(if v.Comment? then st.hash else st.hash + v.text, st.calls + 1)))
  {
    hide Decide;
  }

  /** Comment "x" matches; so the comment "y" behind it and the value behind that are encrypted. */
  lemma ListCommentIsEncrypted(env: Env, st: Written, y: string, s: string)
    requires env.mode == Encrypting && env.rules.encryptedCommentRegex != "" && env.rules.unencryptedCommentRegex == ""
    requires env.matches(env.rules.encryptedCommentRegex, "x")
    requires env.cipher.encrypt(Comment("y", false), env.key, ":", st.calls) == Ok(y)
    requires env.cipher.encrypt(Str("secret"), env.key, ":", st.calls + 1) == Ok(s)
    ensures var r := WalkElems(env, [Comment("x", false), Comment("y", false), Str("secret")], [], [], [], st);
            r.Ok? && r.value.0 == [Comment("x", false), Str(y), Str(s)]
  {
    var x, c, v := Comment("x", false), Comment("y", false), Str("secret");
    ShortIsNoDirective("x");
    ShortIsNoDirective("y");
    OnlyBehindX(env.rules, env.matches, x, []);
    OnlyBehindX(env.rules, env.matches, c, ["x"]);
    OnlyBehindX(env.rules, env.matches, v, ["x", "y"]);
    EncryptedStep(env, c, ["x"], st, y);
    EncryptedStep(env, v, ["x", "y"], Written(st.hash, st.calls + 1), s);
    hide Decide; hide IsDirective; hide WalkElems;
    assert WalkValue(env, x, [], [], st) == Ok((x, st));
    hide WalkValue;
    var s1, s2 := Written(st.hash, st.calls + 1), Written(st.hash + "secret", st.calls + 2);
    ThreeElems(env, x, c, v, ["x"], ["x", "y"], st, x, st, Str(y), s1, Str(s), s2);
  }

  /** On the way back "y" is a string and clears the run: the value stays ciphertext, and the list is
      not the one it was. */
  lemma EncryptedListCommentBreaksTheRoundTrip(env: Env, st: Written, y: string, s: string)
    requires env.mode == Decrypting && env.rules.encryptedCommentRegex != ""
    requires env.matches(env.rules.encryptedCommentRegex, "x")
    requires env.cipher.decrypt(y, env.key, ":") == Ok(Comment("y", false))
    ensures var r := WalkElems(env, [Comment("x", false), Str(y), Str(s)], [], [], [], st);
            && r.Ok? && r.value.0 == [Comment("x", false), Comment("y", false), Str(s)]
            && (s != "secret" ==> !EqualElems(r.value.0, [Comment("x", false), Comment("y", false), Str("secret")]))
  {
    var x, c := Comment("x", false), Comment("y", false);
    ShortIsNoDirective("x");
    OnlyBehindX(env.rules, env.matches, x, []);
    OnlyBehindX(env.rules, env.matches, Str(y), ["x"]);
    OnlyBehindX(env.rules, env.matches, Str(s), []);
    hide Decide; hide IsDirective; hide WalkElems;
    var t := if env.rules.macOnlyEncrypted then st else Written(st.hash + s, st.calls);
    ThreeElems(env, x, Str(y), Str(s), ["x"], [], st, x, st, c, st, Str(s), t);
    if s != "secret" {
      LastElemTellsApart(x, c, s, "secret");
    }
    hide EqualElems;
  }

  lemma LastElemTellsApart(a: Value, b: Value, s: string, t: string)
    requires s != t
    ensures !EqualElems([a, b, Str(s)], [a, b, Str(t)])
  {
    var x, y := [a, b, Str(s)], [a, b, Str(t)];
    assert x[1..] == [b, Str(s)] && y[1..] == [b, Str(t)];
    assert [b, Str(s)][1..] == [Str(s)] && [b, Str(t)][1..] == [Str(t)];
    assert !EqualElems([Str(s)], [Str(t)]);
    assert !EqualElems([b, Str(s)], [b, Str(t)]);
  }

  lemma ThreeElems(env: Env, a: Value, b: Value, c: Value, run1: seq<string>, run2: seq<string>, st: Written,
                   a': Value, s1: Written, b': Value, s2: Written, c': Value, s3: Written)
    requires WalkValue(env, a, [], [], st) == Ok((a', s1)) && run1 == NextListRun([], a)
    requires WalkValue(env, b, [], run1, s1) == Ok((b', s2)) && run2 == NextListRun(run1, b)
    requires WalkValue(env, c, [], run2, s2) == Ok((c', s3))
    ensures WalkElems(env, [a, b, c], [], [], [], st) == Ok(([a', b', c'], s3))
  {
    hide WalkValue; hide NextListRun; hide WalkElems;
    var none: seq<string> := [];
    assert none + none == none && none + run1 == run1 && none + run2 == run2;
    assert [a, b, c][1..] == [b, c] && [b, c][1..] == [c] && [c][1..] == [];
    ElemsStep(env, [a, b, c], [], [], [], st);
    ElemsStep(env, [b, c], [], [], run1, s1);
    ElemsStep(env, [c], [], [], run2, s2);
    NoElems(env, NextListRun(run2, c), s3);
    assert [c'] + [] == [c'];
    assert WalkElems(env, [c], [], [], run2, s2) == Ok(([c'], s3));
    assert [b'] + [c'] == [b', c'];
    assert WalkElems(env, [b, c], [], [], run1, s1) == Ok(([b', c'], s3));
    assert [a'] + [b', c'] == [a', b', c'];
  }

  lemma NoElems(env: Env, run: seq<string>, st: Written)
    ensures WalkElems(env, [], [], [], run, st) == Ok(([], st))
  {}
}
