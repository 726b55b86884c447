/**
 The walk of Encrypt and Decrypt on the slices of a document in memory: leaves and comments are
 overwritten where they stand, one after the other, and nothing else is.
 */
module WalkInPlace {
  import opened Results
  import opened Trees
  import opened Decisions
  import opened Walker
  import opened EditingInPlace

  /** What becomes of a leaf is a leaf. */
  lemma LeafStaysLeaf(env: Env, v: Value, path: seq<string>, scope: seq<string>, st: Written)
    requires HasNoEntries(v) && WalkValue(env, v, path, scope, st).Ok?
    ensures HasNoEntries(WalkValue(env, v, path, scope, st).value.0)
  {
    hide Decide; hide PathString;
  }

  lemma RemarkIgnoresValue(env: Env, item: Item, other: Value, path: seq<string>, scope: seq<string>, st: Written)
    requires item.key.Remark?
    ensures WalkItem(env, item, path, scope, st) ==
            match WalkItem(env, item.(value := other), path, scope, st)
            case Ok((w, s)) => Ok((w.(value := item.value), s))
            case Err(e) => Err(e)
  {
    hide OnLeaf;
  }

  /** One entry, by its place in the slice. */
  method WalkCell(walk: Walk, c: Container, i: nat, path: seq<string>, commentsStack: seq<seq<string>>)
      returns (r: Result<()>)
    requires c.Valid() && i < |c.cells| && commentsStack != []
    requires var v := CellTree(c.cells[i]);
             v.Comment? ==> commentsStack[|commentsStack| - 1] != [] && Self(commentsStack, true) == Some(v.text)
    modifies walk, c.repr
    ensures c.Valid() && c.repr == old(c.repr) && |c.cells| == old(|c.cells|)
    ensures var v := old(CellTree(c.cells[i]));
            match WalkValue(walk.env, v, path, Scope(commentsStack, v.Comment?), old(walk.written))
            case Ok((w, st)) => r == Ok(()) && c.tree == Replaced(old(c.tree), i, w) && walk.written == st
            case Err(e) => r == Err(e)
    decreases c.repr, 0
  {
    hide WalkValue; hide Scope; hide Self;
    CellOwned(c.cells, i, c.repr - {c});
    match c.cells[i] {
      case Plain(v) =>
        var w := walk.Value(v, path, commentsStack);
        if w.Err? {
          return Err(w.error);
        }
        LeafStaysLeaf(walk.env, v, path, Scope(commentsStack, v.Comment?), old(walk.written));
        c.Put(i, Plain(w.value));
        return Ok(());
      case Sub(node) =>
        StackIsScope(commentsStack);
        NodeIsNoComment(node);
        r := WalkContainer(walk, node, path, commentsStack);
        c.StillOwns(i);
        assert old(c.repr) - {c} + node.repr == old(c.repr) - {c};
        c.tree := Replaced(c.tree, i, node.tree);
    }
  }

  lemma NodeIsNoComment(node: Container)
    requires node.Valid()
    ensures if node.isBranch then node.tree.Branch? else node.tree.List?
  {}

  method WalkContainer(walk: Walk, c: Container, path: seq<string>, outerStack: seq<seq<string>>)
      returns (r: Result<()>)
    requires c.Valid()
    modifies walk, c.repr
    ensures c.Valid() && c.repr == old(c.repr)
    ensures match WalkValue(walk.env, old(c.tree), path, Flat(outerStack), old(walk.written))
            case Ok((w, st)) => r == Ok(()) && c.tree == w && walk.written == st
            case Err(e) => r == Err(e)
    decreases c.repr, 3
  {
    NodeIsNoComment(c);
    hide WalkItems; hide WalkElems; hide Flat;
    if c.isBranch {
      r := WalkBranch(walk, c, path, outerStack);
    } else {
      r := WalkSlice(walk, c, path, outerStack);
    }
  }

  /** One more entry is done. */
  lemma OneMoreDone<T>(before: seq<T>, now: seq<T>, i: nat, x: T)
    requires i < |now| == |before| && now[i..] == before[i..]
    ensures var next := now[i := x];
            next[..i + 1] == now[..i] + [x] && next[i + 1..] == before[i + 1..] && now[i] == before[i]
  {
    assert now[i..][0] == before[i..][0];
    assert now[i..][1..] == now[i + 1..] && before[i..][1..] == before[i + 1..];
  }

  /** The loop over a list. */
  method WalkSlice(walk: Walk, c: Container, path: seq<string>, outerStack: seq<seq<string>>) returns (r: Result<()>)
    requires c.Valid() && !c.isBranch
    modifies walk, c.repr
    ensures c.Valid() && c.repr == old(c.repr) && c.tree.List?
    ensures match WalkElems(walk.env, old(c.tree).elems, path, Flat(outerStack), [], old(walk.written))
            case Ok((w, st)) => r == Ok(()) && c.tree == List(w) && walk.written == st
            case Err(e) => r == Err(e)
    decreases c.repr, 1
  {
    NodeIsNoComment(c);
    hide WalkValue; hide WalkElems; hide Scope; hide Flat; hide After; hide Self; hide NextListRun;
    var run: seq<string> := [];
    ghost var env, elems, outer := walk.env, c.tree.elems, Flat(outerStack);
    ghost var whole := WalkElems(env, elems, path, outer, [], walk.written);
    AfterNothing(whole);
    assert elems[0..] == elems;
    for i := 0 to |c.cells|
      invariant c.Valid() && c.repr == old(c.repr) && |c.cells| == |elems|
      invariant c.tree.List? && |c.tree.elems| == |elems| && c.tree.elems[i..] == elems[i..]
      invariant whole == After(c.tree.elems[..i], WalkElems(env, elems[i..], path, outer, run, walk.written))
    {
      ghost var v, now := elems[i], c.tree.elems;
      ElemOfCell(c, i);
      hide Owns; hide StandFor;
      OneMoreDone(elems, now, i, v);
      OneMoreElem(env, elems, i, path, outer, run, walk.written, now[..i]);
      ListRunGoesOn(outerStack, run, v);
      var isComment := c.cells[i].Plain? && c.cells[i].value.Comment?;
      if isComment {
        run := run + [c.cells[i].value.text];
      }
      r := WalkCell(walk, c, i, path, outerStack + [run]);
      if r.Err? {
        NodeIsNoComment(c);
        return;
      }
      if !isComment {
        run := [];
      }
      OneMoreDone(elems, now, i, c.tree.elems[i]);
    }
    assert elems[|elems|..] == [] && c.tree.elems[..|elems|] == c.tree.elems;
    NoMoreElems(env, c.tree.elems, path, outer, run, walk.written);
    return Ok(());
  }

  lemma ElemOfCell(c: Container, i: nat)
    requires c.Valid() && !c.isBranch && i < |c.cells|
    ensures c.tree.List? && |c.tree.elems| == |c.cells| && c.tree.elems[i] == CellTree(c.cells[i])
    ensures c.cells[i].Sub? ==> !CellTree(c.cells[i]).Comment?
  {
    CellOwned(c.cells, i, c.repr - {c});
    if c.cells[i].Sub? {
      NodeIsNoComment(c.cells[i].node);
    }
  }

  lemma ItemOfCell(c: Container, i: nat)
    requires c.Valid() && c.isBranch && i < |c.cells|
    ensures |c.keys| == |c.cells| && c.tree.Branch? && |c.tree.items| == |c.cells|
    ensures c.tree.items[i] == Item(c.keys[i], CellTree(c.cells[i]))
    ensures c.cells[i].Sub? ==> !CellTree(c.cells[i]).Comment?
  {
    CellOwned(c.cells, i, c.repr - {c});
    if c.cells[i].Sub? {
      NodeIsNoComment(c.cells[i].node);
    }
  }

  /** One item: a comment is overwritten as the key it is, and any other item below its key. */
  method WalkEntry(walk: Walk, c: Container, i: nat, path: seq<string>, commentsStack: seq<seq<string>>)
      returns (r: Result<()>)
    requires c.Valid() && c.isBranch && i < |c.cells| && commentsStack != [] && |c.keys| == |c.cells|
    requires c.keys[i].Remark? ==> commentsStack[|commentsStack| - 1] != []
                                   && Self(commentsStack, true) == Some(c.keys[i].text)
    requires var v := CellTree(c.cells[i]);
             !c.keys[i].Remark? && v.Comment? ==>
               commentsStack[|commentsStack| - 1] != [] && Self(commentsStack, true) == Some(v.text)
    modifies walk, c.repr
    ensures c.Valid() && c.repr == old(c.repr) && |c.cells| == old(|c.cells|)
    ensures var item := Item(old(c.keys[i]), old(CellTree(c.cells[i])));
            match WalkItem(walk.env, item, path, Scope(commentsStack, item.key.Remark? || item.value.Comment?),
                           old(walk.written))
            case Ok((w, st)) => r == Ok(()) && c.tree == Branch(old(c.tree).items[i := w]) && walk.written == st
            case Err(e) => r == Err(e)
    decreases c.repr, 1
  {
    ItemOfCell(c, i);
    ghost var item := c.tree.items[i];
    hide WalkValue; hide Scope; hide Self; hide OnLeaf;
    var key := c.keys[i];
    match key {
      case Remark(_, _) =>
        RemarkIgnoresValue(walk.env, item, Nil, path, Scope(commentsStack, true), walk.written);
        hide WalkItem;
        var entry := walk.CommentEntry(Item(key, Nil), path, commentsStack);
        if entry.Err? {
          return Err(entry.error);
        }
        c.PutKey(i, entry.value.key);
        return Ok(());
      case Name(name) =>
        r := WalkCell(walk, c, i, path + [name], commentsStack);
      case Index(_) =>
        return Err("Tree contains a non-string key");
    }
  }

  /** The loop over a branch. */
  method WalkBranch(walk: Walk, c: Container, path: seq<string>, outerStack: seq<seq<string>>)
      returns (r: Result<()>)
    requires c.Valid() && c.isBranch
    modifies walk, c.repr
    ensures c.Valid() && c.repr == old(c.repr) && c.tree.Branch?
    ensures match WalkItems(walk.env, old(c.tree).items, path, Flat(outerStack), [], old(walk.written))
            case Ok((w, st)) => r == Ok(()) && c.tree == Branch(w) && walk.written == st
            case Err(e) => r == Err(e)
    decreases c.repr, 2
  {
    NodeIsNoComment(c);
    hide WalkItem; hide WalkItems; hide Scope; hide Flat; hide After; hide Self; hide NextRun;
    var run: seq<string> := [];
    ghost var env, items, outer := walk.env, c.tree.items, Flat(outerStack);
    ghost var whole := WalkItems(env, items, path, outer, [], walk.written);
    AfterNothing(whole);
    assert items[0..] == items;
    for i := 0 to |c.cells|
      invariant c.Valid() && c.repr == old(c.repr) && |c.cells| == |items|
      invariant c.tree.Branch? && |c.tree.items| == |items| && c.tree.items[i..] == items[i..]
      invariant whole == After(c.tree.items[..i], WalkItems(env, items[i..], path, outer, run, walk.written))
    {
      ghost var item, now := items[i], c.tree.items;
      ItemOfCell(c, i);
      hide Owns; hide StandFor;
      OneMoreDone(items, now, i, item);
      OneMoreItem(env, items, i, path, outer, run, walk.written, now[..i]);
      RunGoesOn(outerStack, run, item);
      var key, cell := c.keys[i], c.cells[i];
      var joins := key.Remark? || (cell.Plain? && cell.value.Comment?);
      if joins {
        run := run + [if key.Remark? then key.text else cell.value.text];
      }
      r := WalkEntry(walk, c, i, path, outerStack + [run]);
      if r.Err? {
        NodeIsNoComment(c);
        return;
      }
      if !joins {
        run := [];
      }
      OneMoreDone(items, now, i, c.tree.items[i]);
    }
    assert items[|items|..] == [] && c.tree.items[..|items|] == c.tree.items;
    NoMoreItems(env, c.tree.items, path, outer, run, walk.written);
    return Ok(());
  }
}
