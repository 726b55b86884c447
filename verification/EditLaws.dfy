/**
 The laws of Set, Unset and Truncate (sops.go): what was set is found, everything else stays, the
 flag tells whether the tree has changed, and a path that was added can be taken away again.
 */
module EditLaws {
  import opened Trees
  import opened TreeEditing

  // ---------- Finding ----------

  lemma FindReplaced(items: TreeBranch, i: nat, w: Value, key: Key)
    requires i < |items|
    ensures Find(items[i := items[i].(value := w)], key) == Find(items, key)
  {
    var more := items[i := items[i].(value := w)];
    assert forall j :: 0 <= j < |items| ==> more[j].key == items[j].key;
  }

  lemma FindAppended(items: TreeBranch, item: Item, key: Key)
    ensures Find(items + [item], key) ==
            if Find(items, key) < |items| then Find(items, key)
            else if item.key == key then |items| else |items| + 1
  {
    var more := items + [item];
    assert forall j :: 0 <= j < |items| ==> more[j].key == items[j].key;
    assert more[|items|] == item;
  }

  lemma FindDeleted(items: TreeBranch, i: nat, key: Key)
    requires i < |items| && items[i].key != key && Find(items, key) < |items|
    ensures var less := items[..i] + items[i + 1..];
            var k := Find(items, key);
            Find(less, key) == (if k < i then k else k - 1) && less[Find(less, key)] == items[k]
  {
    var less, k := items[..i] + items[i + 1..], Find(items, key);
    var at := if k < i then k else k - 1;
    assert forall j :: 0 <= j < |less| ==> less[j] == items[if j < i then j else j + 1];
    assert less[at] == items[k];
  }

  // ---------- What was set is found ----------

  /** In lists that are made anew there is only the position 0. */
  predicate FitsNew(path: Path) {
    forall i :: 0 <= i < |path| && path[i].Position? ==> path[i].n == 0
  }

  /** The kinds of the components fit the tree, and positions leave no gap. */
  predicate Fits(v: Value, path: Path)
    requires path != []
    decreases |path|
  {
    match v
    case Branch(items) =>
      path[0].Field? &&
      var i := Find(items, KeyOf(path[0]));
      if i < |items| then |path| == 1 || Fits(items[i].value, path[1..]) else FitsNew(path[1..])
    case List(elems) =>
      path[0].Position? && 0 <= path[0].n <= |elems| &&
      if path[0].n < |elems| then |path| == 1 || Fits(elems[path[0].n], path[1..]) else FitsNew(path[1..])
    case _ => FitsNew(path)
  }

  lemma FitsNewTail(path: Path)
    requires path != []
    ensures FitsNew(path) <==> (path[0].Position? ==> path[0].n == 0) && FitsNew(path[1..])
  {
    if FitsNew(path[1..]) {
      forall i | 1 <= i < |path| && path[i].Position?
        ensures path[i].n == 0
      {
        assert path[1..][i - 1] == path[i];
      }
    }
  }

  /** Truncate steps into a branch by key, and into a list by position. */
  lemma StepsInto(v: Value, path: Path)
    requires path != []
    ensures v.Branch? && path[0].Field? && Find(v.items, KeyOf(path[0])) < |v.items| ==>
      Truncated(v, path) == Truncated(v.items[Find(v.items, KeyOf(path[0]))].value, path[1..])
    ensures v.List? && path[0].Position? && 0 <= path[0].n < |v.elems| ==>
      Truncated(v, path) == Truncated(v.elems[path[0].n], path[1..])
    ensures v.List? && path[0].Position? && path[0].n >= |v.elems| ==> Truncated(v, path) == Fails
    ensures v.Branch? && path[0].Position? ==> forall x :: Truncated(v, path) != Done(Part(x))
    ensures v.List? && path[0].Field? ==> !Truncated(v, path).Done?
  {
    if v.Branch? && path[0].Position? {
      var next := StepInto(Part(v), path[0]);
      if next.Done? {
        NoWayOn(next.value, path[1..]);
      }
    }
  }

  lemma NothingLeft(v: Value)
    ensures Truncated(v, []) == Done(Part(v))
  {}

  /** From an item, or from a byte, no path leads on to a value. */
  lemma NoWayOn(part: Part, path: Path)
    requires !part.Part?
    ensures forall x :: TruncateFrom(part, path) != Done(Part(x))
  {}

  lemma {:induction false} NewValueIsFound(path: Path, leaf: Value)
    requires path != []
    ensures Truncated(ValueFromPathAndLeaf(path, leaf), path) == Done(Part(leaf)) <==> FitsNew(path)
    decreases |path|
  {
    FitsNewTail(path);
    var rest := path[1..];
    if |path| > 1 {
      NewValueIsFound(rest, leaf);
    } else {
      assert rest == [];
      assert TruncateFrom(Part(leaf), rest) == Done(Part(leaf));
    }
  }

  lemma TailOfOne(path: Path)
    requires |path| == 1
    ensures path[1..] == [] && FitsNew(path[1..])
  {}

  /** Truncate finds what Set has set exactly when the path fits. */
  lemma {:induction false} SetThenTruncate(v: Value, path: Path, x: Value)
    requires path != []
    ensures SetIn(v, path, x).Done? && Truncated(SetIn(v, path, x).value.tree, path) == Done(Part(x)) <==> Fits(v, path)
    decreases |path|, 1
  {
    match v
    case Branch(items) => SetInBranchThenTruncate(items, path, x);
    case List(elems) => SetInListThenTruncate(elems, path, x);
    case _ => NewValueIsFound(path, x);
  }

  function NewItem(path: Path, x: Value): Item
    requires path != []
  {
    Item(KeyOf(path[0]), if |path| == 1 then x else ValueFromPathAndLeaf(path[1..], x))
  }

  /** Set on a branch, case by case. */
  lemma SetOnBranch(items: TreeBranch, path: Path, x: Value)
    requires path != []
    ensures var i, r := Find(items, KeyOf(path[0])), SetIn(Branch(items), path, x);
      && (i < |items| && |path| == 1 ==>
            r == Done(Change(Branch(items[i := items[i].(value := x)]), !Equal(items[i].value, x))))
      && (i < |items| && |path| > 1 ==>
            r == match SetIn(items[i].value, path[1..], x)
                 case Done(c) => Done(Change(Branch(items[i := items[i].(value := c.tree)]), c.changed))
                 case Fails => Fails
                 case Panics => Panics)
      && (i == |items| && path[0].Field? ==> r == Done(Change(Branch(items + [NewItem(path, x)]), true)))
      && (i == |items| && path[0].Position? ==> r == Done(Change(Branch(items), true)))
  {
    hide Equal;
  }

  /** Stepping into the branch after one of its values was replaced. */
  lemma StepsIntoReplaced(items: TreeBranch, i: nat, w: Value, path: Path)
    requires path != [] && path[0].Field? && i == Find(items, KeyOf(path[0])) < |items|
    ensures Truncated(Branch(items[i := items[i].(value := w)]), path) == Truncated(w, path[1..])
  {
    FindReplaced(items, i, w, KeyOf(path[0]));
    StepsInto(Branch(items[i := items[i].(value := w)]), path);
    hide Truncated;
  }

  lemma StepsIntoAppended(items: TreeBranch, item: Item, path: Path)
    requires path != [] && path[0].Field? && |items| == Find(items, KeyOf(path[0])) && item.key == KeyOf(path[0])
    ensures Truncated(Branch(items + [item]), path) == Truncated(item.value, path[1..])
  {
    FindAppended(items, item, KeyOf(path[0]));
    StepsInto(Branch(items + [item]), path);
    hide Truncated;
  }

  lemma {:induction false} SetInBranchThenTruncate(items: TreeBranch, path: Path, x: Value)
    requires path != []
    ensures var r := SetIn(Branch(items), path, x);
      r.Done? && Truncated(r.value.tree, path) == Done(Part(x)) <==> Fits(Branch(items), path)
    decreases |path|, 0
  {
    var rest, i, r := path[1..], Find(items, KeyOf(path[0])), SetIn(Branch(items), path, x);
    SetOnBranch(items, path, x);
    hide Equal; hide SetIn; hide Truncated; hide FitsNew; hide ValueFromPathAndLeaf;
    if path[0].Position? {
      if r.Done? {
        StepsInto(r.value.tree, path);
      }
    } else if i < |items| {
      var inner := SetIn(items[i].value, rest, x);
      if |path| == 1 {
        TailOfOne(path);
        NothingLeft(x);
        StepsIntoReplaced(items, i, x, path);
      } else {
        SetThenTruncate(items[i].value, rest, x);
        if inner.Done? {
          StepsIntoReplaced(items, i, inner.value.tree, path);
        }
      }
    } else {
      StepsIntoAppended(items, NewItem(path, x), path);
      if |path| == 1 {
        TailOfOne(path);
        NothingLeft(x);
      } else {
        NewValueIsFound(rest, x);
      }
    }
  }

  lemma {:induction false} SetInListThenTruncate(elems: seq<Value>, path: Path, x: Value)
    requires path != []
    ensures var r := SetIn(List(elems), path, x);
      r.Done? && Truncated(r.value.tree, path) == Done(Part(x)) <==> Fits(List(elems), path)
    decreases |path|, 0
  {
    var rest, r := path[1..], SetIn(List(elems), path, x);
    if r.Done? {
      StepsInto(r.value.tree, path);
    }
    if |path| == 1 {
      TailOfOne(path);
      NothingLeft(x);
    }
    hide Equal; hide Truncated; hide FitsNew;
    if path[0].Position? && |path| > 1 {
      if 0 <= path[0].n < |elems| {
        SetThenTruncate(elems[path[0].n], rest, x);
      } else if path[0].n >= |elems| {
        NewValueIsFound(rest, x);
      }
    }
  }

  // ---------- Everything else stays ----------

  /** The path leads to a value by keys in branches and positions in lists. */
  predicate Resolves(v: Value, q: Path)
    decreases |q|
  {
    q == [] ||
    match v
    case Branch(items) =>
      q[0].Field? && var i := Find(items, KeyOf(q[0])); i < |items| && Resolves(items[i].value, q[1..])
    case List(elems) => q[0].Position? && 0 <= q[0].n < |elems| && Resolves(elems[q[0].n], q[1..])
    case _ => false
  }

  /** Neither path is a part of the other. */
  predicate Diverge(p: Path, q: Path) {
    !(p <= q) && !(q <= p)
  }

  lemma DivergingTails(p: Path, q: Path)
    requires Diverge(p, q)
    ensures p != [] && q != []
    ensures p[0] == q[0] ==> |p| > 1 && |q| > 1 && Diverge(p[1..], q[1..])
  {
    assert [] <= p && [] <= q;
    if p[0] == q[0] {
      assert p == [p[0]] + p[1..] && q == [q[0]] + q[1..];
      assert p[1..] <= q[1..] ==> p <= q;
      assert q[1..] <= p[1..] ==> q <= p;
    }
  }

  /** What a path resolves to after Set at a diverging path is what it resolved to before. */
  lemma {:induction false} SetKeepsOthers(v: Value, p: Path, x: Value, q: Path)
    requires p != [] && SetIn(v, p, x).Done? && Resolves(v, q) && Diverge(p, q)
    ensures var w := SetIn(v, p, x).value.tree;
            Resolves(w, q) && Truncated(w, q) == Truncated(v, q)
    decreases |p|, 1
  {
    DivergingTails(p, q);
    match v
    case Branch(items) => SetInBranchKeepsOthers(items, p, x, q);
    case List(elems) => SetInListKeepsOthers(elems, p, x, q);
    case _ =>
  }

  lemma {:induction false} SetInBranchKeepsOthers(items: TreeBranch, p: Path, x: Value, q: Path)
    requires p != [] && SetIn(Branch(items), p, x).Done? && Resolves(Branch(items), q) && Diverge(p, q)
    ensures var w := SetIn(Branch(items), p, x).value.tree;
            Resolves(w, q) && Truncated(w, q) == Truncated(Branch(items), q)
    decreases |p|, 0
  {
    DivergingTails(p, q);
    SetOnBranch(items, p, x);
    var i, k, w := Find(items, KeyOf(p[0])), Find(items, KeyOf(q[0])), SetIn(Branch(items), p, x).value.tree;
    StepsInto(Branch(items), q);
    StepsInto(w, q);
    if i < |items| {
      var child := w.items[i].value;
      assert w == Branch(items[i := items[i].(value := child)]);
      FindReplaced(items, i, child, KeyOf(q[0]));
      if p[0] == q[0] {
        SetKeepsOthers(items[i].value, p[1..], x, q[1..]);
      }
    } else if p[0].Field? {
      FindAppended(items, NewItem(p, x), KeyOf(q[0]));
    }
    hide Truncated; hide SetIn; hide Diverge; hide Find;
  }

  /** Set on a list, case by case. */
  lemma SetOnList(elems: seq<Value>, path: Path, x: Value)
    requires path != []
    ensures var r := SetIn(List(elems), path, x);
      && (path[0].Field? || path[0].n < 0 ==> r == Panics)
      && (path[0].Position? && path[0].n >= |elems| ==> r == Done(Change(List(elems + [NewItem(path, x).value]), true)))
      && (path[0].Position? && 0 <= path[0].n < |elems| ==>
            if |path| == 1 then r == Done(Change(List(elems[path[0].n := x]), !Equal(elems[path[0].n], x)))
            else r == match SetIn(elems[path[0].n], path[1..], x)
                      case Done(c) => Done(Change(List(elems[path[0].n := c.tree]), c.changed))
                      case Fails => Fails
                      case Panics => Panics)
  {
    hide Equal; hide ValueFromPathAndLeaf;
  }

  lemma {:induction false} SetInListKeepsOthers(elems: seq<Value>, p: Path, x: Value, q: Path)
    requires p != [] && SetIn(List(elems), p, x).Done? && Resolves(List(elems), q) && Diverge(p, q)
    ensures var w := SetIn(List(elems), p, x).value.tree;
            Resolves(w, q) && Truncated(w, q) == Truncated(List(elems), q)
    decreases |p|, 0
  {
    DivergingTails(p, q);
    SetOnList(elems, p, x);
    var w := SetIn(List(elems), p, x).value.tree;
    StepsInto(List(elems), q);
    StepsInto(w, q);
    if p[0] == q[0] {
      SetKeepsOthers(elems[p[0].n], p[1..], x, q[1..]);
    }
    hide Truncated; hide SetIn; hide Diverge;
  }

  // ---------- The flag ----------

  /** The walk ends at a branch without the int that comes next: nothing is added there. */
  predicate MissesInt(v: Value, path: Path)
    requires path != []
    decreases |path|
  {
    match v
    case Branch(items) =>
      var i := Find(items, KeyOf(path[0]));
      if i < |items| then |path| > 1 && MissesInt(items[i].value, path[1..]) else path[0].Position?
    case List(elems) =>
      path[0].Position? && 0 <= path[0].n < |elems| && |path| > 1 && MissesInt(elems[path[0].n], path[1..])
    case _ => false
  }

  lemma {:induction false} EqualReplacedItem(items: TreeBranch, i: nat, w: Value)
    requires i < |items|
    ensures EqualItems(items, items[i := items[i].(value := w)]) <==> Equal(items[i].value, w)
    decreases |items|
  {
    var more, rest := items[i := items[i].(value := w)], items[1..];
    if i == 0 {
      assert more[1..] == rest;
      EqualItemsReflexive(rest);
    } else {
      assert more[1..] == rest[i - 1 := rest[i - 1].(value := w)];
      EqualItemReflexive(items[0]);
      hide EqualItem;
      EqualReplacedItem(rest, i - 1, w);
    }
  }

  lemma {:induction false} EqualReplacedElem(elems: seq<Value>, i: nat, w: Value)
    requires i < |elems|
    ensures EqualElems(elems, elems[i := w]) <==> Equal(elems[i], w)
    decreases |elems|
  {
    var more, rest := elems[i := w], elems[1..];
    if i == 0 {
      assert more[1..] == rest;
      EqualElemsReflexive(rest);
    } else {
      assert more[1..] == rest[i - 1 := w];
      EqualReflexive(elems[0]);
      hide Equal;
      EqualReplacedElem(rest, i - 1, w);
    }
  }

  /** The int 0 in an empty branch: nothing is set, and the flag is true. */
  lemma MissedIntIsFlagged(x: Value)
    ensures var v, path := Branch([]), [Position(0)];
            MissesInt(v, path) && SetIn(v, path, x) == Done(Change(v, true))
  {}

  /** The flag is false exactly when the new tree equals the old one, unless an int was missing from
      a branch: then nothing changes and the flag is true. */
  lemma {:induction false} FlagTellsChange(v: Value, path: Path, x: Value)
    requires path != [] && SetIn(v, path, x).Done?
    ensures var c := SetIn(v, path, x).value;
      (c.changed <==> !Equal(v, c.tree)) <==> !MissesInt(v, path)
    decreases |path|
  {
    match v
    case Branch(items) =>
      SetOnBranch(items, path, x);
      var i := Find(items, KeyOf(path[0]));
      hide SetIn;
      if i < |items| {
        EqualReplacedItem(items, i, if |path| == 1 then x else SetIn(items[i].value, path[1..], x).value.tree);
        if |path| > 1 {
          FlagTellsChange(items[i].value, path[1..], x);
        }
      } else {
        EqualReflexive(v);
      }
      hide EqualItems;
    case List(elems) =>
      SetOnList(elems, path, x);
      hide SetIn;
      if path[0].n < |elems| {
        var w := if |path| == 1 then x else SetIn(elems[path[0].n], path[1..], x).value.tree;
        EqualReplacedElem(elems, path[0].n, w);
        if |path| > 1 {
          FlagTellsChange(elems[path[0].n], path[1..], x);
        }
      }
      hide EqualElems;
    case _ =>
  }

  // ---------- Setting twice ----------

  /** Set at the path finds its own value again: as Fits, but int keys of a branch are keys. */
  predicate Lands(v: Value, path: Path)
    requires path != []
    decreases |path|
  {
    match v
    case Branch(items) =>
      var i := Find(items, KeyOf(path[0]));
      if i < |items| then |path| == 1 || Lands(items[i].value, path[1..]) else path[0].Field? && FitsNew(path[1..])
    case List(elems) =>
      path[0].Position? && 0 <= path[0].n <= |elems| &&
      if path[0].n < |elems| then |path| == 1 || Lands(elems[path[0].n], path[1..]) else FitsNew(path[1..])
    case _ => FitsNew(path)
  }

  ghost predicate Repeats(v: Value, path: Path, x: Value) {
    SetIn(v, path, x) == Done(Change(v, false))
  }

  lemma SameItem(items: TreeBranch, to: TreeBranch, i: nat, r: Outcome<Change>)
    requires i < |items|
    ensures r.Done? && items[i := items[i].(value := r.value.tree)] == to ==> to[i].value == r.value.tree
  {}

  lemma SameElem(elems: seq<Value>, to: seq<Value>, i: nat, r: Outcome<Change>)
    requires i < |elems|
    ensures r.Done? && elems[i := r.value.tree] == to ==> to[i] == r.value.tree
  {}

  lemma {:induction false} NewValueRepeats(path: Path, x: Value)
    requires path != []
    ensures Repeats(ValueFromPathAndLeaf(path, x), path, x) <==> FitsNew(path)
    decreases |path|
  {
    FitsNewTail(path);
    EqualReflexive(x);
    var inner := if |path| == 1 then x else ValueFromPathAndLeaf(path[1..], x);
    if |path| > 1 {
      NewValueRepeats(path[1..], x);
    } else {
      TailOfOne(path);
    }
    hide FitsNew; hide Equal;
    var again := SetIn(inner, path[1..], x);
    match path[0] {
      case Position(_) =>
        SetOnList([inner], path, x);
        assert [inner][0 := inner] == [inner];
        if again.Done? {
          assert [inner][0 := again.value.tree][0] == again.value.tree;
        }
      case Field(name) =>
        var items := [Item(Name(name), inner)];
        assert Find(items, KeyOf(path[0])) == 0;
        SetOnBranch(items, path, x);
        assert items[0 := items[0].(value := inner)] == items;
        if again.Done? {
          assert items[0 := items[0].(value := again.value.tree)][0].value == again.value.tree;
        }
    }
    hide SetIn;
  }

  /** Repeating a Set changes nothing and says so, exactly when the path lands. */
  lemma {:induction false} SetTwice(v: Value, path: Path, x: Value)
    requires path != [] && SetIn(v, path, x).Done?
    ensures Repeats(SetIn(v, path, x).value.tree, path, x) <==> Lands(v, path)
    decreases |path|, 1
  {
    match v
    case Branch(items) => SetTwiceInBranch(items, path, x);
    case List(elems) => SetTwiceInList(elems, path, x);
    case _ => NewValueRepeats(path, x);
  }

  lemma {:induction false} SetTwiceInBranch(items: TreeBranch, path: Path, x: Value)
    requires path != [] && SetIn(Branch(items), path, x).Done?
    ensures Repeats(SetIn(Branch(items), path, x).value.tree, path, x) <==> Lands(Branch(items), path)
    decreases |path|, 0
  {
    SetOnBranch(items, path, x);
    EqualReflexive(x);
    var i, w := Find(items, KeyOf(path[0])), SetIn(Branch(items), path, x).value.tree;
    SetOnBranch(w.items, path, x);
    if i < |items| {
      var child := w.items[i].value;
      assert w.items == items[i := items[i].(value := child)];
      FindReplaced(items, i, child, KeyOf(path[0]));
      if |path| > 1 {
        SetTwice(items[i].value, path[1..], x);
      }
    } else if path[0].Field? {
      FindAppended(items, NewItem(path, x), KeyOf(path[0]));
      if |path| > 1 {
        NewValueRepeats(path[1..], x);
      } else {
        TailOfOne(path);
      }
    }
    hide SetIn; hide Equal; hide Find; hide FitsNew; hide ValueFromPathAndLeaf;
    if i < |w.items| {
      SameItem(w.items, w.items, i, SetIn(w.items[i].value, path[1..], x));
      assert w.items[i := w.items[i].(value := w.items[i].value)] == w.items;
    }
  }

  lemma {:induction false} SetTwiceInList(elems: seq<Value>, path: Path, x: Value)
    requires path != [] && SetIn(List(elems), path, x).Done?
    ensures Repeats(SetIn(List(elems), path, x).value.tree, path, x) <==> Lands(List(elems), path)
    decreases |path|, 0
  {
    SetOnList(elems, path, x);
    EqualReflexive(x);
    var n, w := path[0].n, SetIn(List(elems), path, x).value.tree;
    SetOnList(w.elems, path, x);
    if |path| == 1 {
      TailOfOne(path);
    } else if n < |elems| {
      SetTwice(elems[n], path[1..], x);
    } else {
      NewValueRepeats(path[1..], x);
    }
    hide SetIn; hide Equal; hide FitsNew; hide ValueFromPathAndLeaf;
    if n < |w.elems| {
      SameElem(w.elems, w.elems, n, SetIn(w.elems[n], path[1..], x));
      assert w.elems[n := w.elems[n]] == w.elems;
    }
  }

  // ---------- Taking away again ----------

  /** Set adds one item or element, to a container that is there already. */
  predicate AddsOne(v: Value, path: Path)
    requires path != []
    decreases |path|
  {
    match v
    case Branch(items) =>
      var i := Find(items, KeyOf(path[0]));
      if i < |items| then |path| > 1 && AddsOne(items[i].value, path[1..]) else path[0].Field? && |path| == 1
    case List(elems) =>
      path[0].Position? && 0 <= path[0].n <= |elems| &&
      if path[0].n < |elems| then |path| > 1 && AddsOne(elems[path[0].n], path[1..]) else |path| == 1
    case _ => false
  }

  lemma UnsetKeepsKind(v: Value, path: Path)
    requires path != []
    ensures UnsetIn(v, path).Done? && v.Branch? ==>
      UnsetIn(v, path).value.Branch? && |v.items| - 1 <= |UnsetIn(v, path).value.items|
    ensures UnsetIn(v, path).Done? && v.List? ==>
      UnsetIn(v, path).value.List? && |v.elems| - 1 <= |UnsetIn(v, path).value.elems|
    ensures UnsetIn(v, path).Done? ==> v.Branch? || v.List?
    ensures |path| > 1 && UnsetIn(v, path).Done? && v.Branch? ==> |UnsetIn(v, path).value.items| == |v.items|
    ensures |path| > 1 && UnsetIn(v, path).Done? && v.List? ==> |UnsetIn(v, path).value.elems| == |v.elems|
  {}

  lemma SameAfterUnset(items: TreeBranch, to: TreeBranch, i: nat, r: Outcome<Value>)
    requires i < |items| && |to| == |items| && to[i].key == items[i].key
    requires forall k :: 0 <= k < |items| && k != i ==> items[k] == to[k]
    ensures r.Done? ==> (items[i := items[i].(value := r.value)] == to <==> r.value == to[i].value)
  {
    if r.Done? {
      var more := items[i := items[i].(value := r.value)];
      assert more[i] == to[i] <==> r.value == to[i].value;
    }
  }

  /** Unset takes back what Set has done, exactly when Set has added one entry. */
  lemma {:induction false} UnsetAfterSet(v: Value, path: Path, x: Value)
    requires path != [] && SetIn(v, path, x).Done?
    ensures UnsetIn(SetIn(v, path, x).value.tree, path) == Done(v) <==> AddsOne(v, path)
    decreases |path|, 1
  {
    match v
    case Branch(items) => UnsetAfterSetInBranch(items, path, x);
    case List(elems) => UnsetAfterSetInList(elems, path, x);
    case _ => UnsetKeepsKind(SetIn(v, path, x).value.tree, path);
  }

  lemma {:induction false} UnsetAfterSetInBranch(items: TreeBranch, path: Path, x: Value)
    requires path != [] && SetIn(Branch(items), path, x).Done?
    ensures UnsetIn(SetIn(Branch(items), path, x).value.tree, path) == Done(Branch(items)) <==>
          AddsOne(Branch(items), path)
    decreases |path|, 0
  {
    SetOnBranch(items, path, x);
    var i, w := Find(items, KeyOf(path[0])), SetIn(Branch(items), path, x).value.tree;
    hide SetIn; hide Equal; hide ValueFromPathAndLeaf;
    if i == |items| {
      hide UnsetIn;
      UnsetAppended(items, path, x);
    } else if |path| == 1 {
      UnsetKeepsKind(w, path);
      FindReplaced(items, i, x, KeyOf(path[0]));
    } else {
      var child := SetIn(items[i].value, path[1..], x).value.tree;
      UnsetAfterSet(items[i].value, path[1..], x);
      hide UnsetIn;
      UnsetBelow(items, i, child, path);
    }
  }

  /** With the value of item `i` replaced, Unset below it gives the items back exactly when it gives
      back that value. */
  lemma UnsetBelow(items: TreeBranch, i: nat, child: Value, path: Path)
    requires |path| > 1 && i == Find(items, KeyOf(path[0])) < |items|
    ensures UnsetIn(Branch(items[i := items[i].(value := child)]), path) == Done(Branch(items)) <==>
            UnsetIn(child, path[1..]) == Done(items[i].value)
  {
    var more := items[i := items[i].(value := child)];
    FindReplaced(items, i, child, KeyOf(path[0]));
    SameAfterUnset(more, items, i, UnsetIn(child, path[1..]));
    hide Find;
  }

  lemma UnsetAppended(items: TreeBranch, path: Path, x: Value)
    requires path != [] && Find(items, KeyOf(path[0])) == |items|
    ensures path[0].Field? ==>
              (UnsetIn(Branch(items + [NewItem(path, x)]), path) == Done(Branch(items)) <==> |path| == 1)
    ensures path[0].Position? ==> UnsetIn(Branch(items), path) != Done(Branch(items))
  {
    if path[0].Field? {
      var more := items + [NewItem(path, x)];
      FindAppended(items, NewItem(path, x), KeyOf(path[0]));
      UnsetKeepsKind(Branch(more), path);
      hide Find; hide ValueFromPathAndLeaf;
      if |path| == 1 {
        assert more[..|items|] + more[|items| + 1..] == items;
      }
    }
  }

  lemma {:induction false} UnsetAfterSetInList(elems: seq<Value>, path: Path, x: Value)
    requires path != [] && SetIn(List(elems), path, x).Done?
    ensures UnsetIn(SetIn(List(elems), path, x).value.tree, path) == Done(List(elems)) <==> AddsOne(List(elems), path)
    decreases |path|, 0
  {
    SetOnList(elems, path, x);
    var n, w := path[0].n, SetIn(List(elems), path, x).value.tree;
    UnsetKeepsKind(w, path);
    hide SetIn; hide Equal; hide ValueFromPathAndLeaf;
    if n < |elems| {
      if |path| > 1 {
        UnsetAfterSet(elems[n], path[1..], x);
        var d := UnsetIn(w.elems[n], path[1..]);
        if d.Done? {
          assert w.elems[n := d.value][n] == d.value;
          assert w.elems[n := elems[n]] == elems;
        }
      }
    } else if |path| == 1 && n == |elems| {
      assert w.elems[..n] + w.elems[n + 1..] == elems;
    }
  }

  /** Where a path points to after Unset at `p`: later positions of the edited list move down. */
  function Shifted(v: Value, p: Path, q: Path): Path
    requires p != []
    decreases |p|
  {
    if q == [] then q
    else if |p| == 1 then
      if v.List? && p[0].Position? && q[0].Position? && q[0].n > p[0].n then [Position(q[0].n - 1)] + q[1..] else q
    else if p[0] != q[0] then q
    else
      match v
      case Branch(items) =>
        var i := Find(items, KeyOf(p[0]));
        if i < |items| then [q[0]] + Shifted(items[i].value, p[1..], q[1..]) else q
      case List(elems) =>
        if p[0].Position? && 0 <= p[0].n < |elems| then [q[0]] + Shifted(elems[p[0].n], p[1..], q[1..]) else q
      case _ => q
  }

  /** A successful Unset leaves everything at diverging paths, up to the shift in the edited list. */
  lemma {:induction false} UnsetKeepsOthers(v: Value, p: Path, q: Path)
    requires p != [] && UnsetIn(v, p).Done? && Resolves(v, q) && Diverge(p, q)
    ensures var w := UnsetIn(v, p).value;
            Resolves(w, Shifted(v, p, q)) && Truncated(w, Shifted(v, p, q)) == Truncated(v, q)
    decreases |p|, 1
  {
    DivergingTails(p, q);
    match v
    case Branch(items) => UnsetInBranchKeepsOthers(items, p, q);
    case List(elems) => UnsetInListKeepsOthers(elems, p, q);
    case _ =>
  }

  lemma {:induction false} UnsetInBranchKeepsOthers(items: TreeBranch, p: Path, q: Path)
    requires p != [] && UnsetIn(Branch(items), p).Done? && Resolves(Branch(items), q) && Diverge(p, q)
    ensures var v := Branch(items);
            var w := UnsetIn(v, p).value;
            Resolves(w, Shifted(v, p, q)) && Truncated(w, Shifted(v, p, q)) == Truncated(v, q)
    decreases |p|, 0
  {
    DivergingTails(p, q);
    var i, w, to := Find(items, KeyOf(p[0])), UnsetIn(Branch(items), p).value, Shifted(Branch(items), p, q);
    StepsInto(Branch(items), q);
    StepsInto(w, to);
    if |p| == 1 {
      FindDeleted(items, i, KeyOf(q[0]));
    } else {
      var child := w.items[i].value;
      assert w == Branch(items[i := items[i].(value := child)]);
      FindReplaced(items, i, child, KeyOf(q[0]));
      if p[0] == q[0] {
        UnsetKeepsOthers(items[i].value, p[1..], q[1..]);
        assert to[1..] == Shifted(items[i].value, p[1..], q[1..]);
      }
    }
    hide Truncated; hide UnsetIn; hide Diverge; hide Find;
  }

  lemma {:induction false} UnsetInListKeepsOthers(elems: seq<Value>, p: Path, q: Path)
    requires p != [] && UnsetIn(List(elems), p).Done? && Resolves(List(elems), q) && Diverge(p, q)
    ensures var v := List(elems);
            var w := UnsetIn(v, p).value;
            Resolves(w, Shifted(v, p, q)) && Truncated(w, Shifted(v, p, q)) == Truncated(v, q)
    decreases |p|, 0
  {
    DivergingTails(p, q);
    var n, w, to := p[0].n, UnsetIn(List(elems), p).value, Shifted(List(elems), p, q);
    StepsInto(List(elems), q);
    StepsInto(w, to);
    if |p| == 1 {
      assert to[1..] == q[1..];
    } else if p[0] == q[0] {
      UnsetKeepsOthers(elems[n], p[1..], q[1..]);
      assert to[1..] == Shifted(elems[n], p[1..], q[1..]);
    }
    hide Truncated; hide UnsetIn; hide Diverge;
  }

  // ---------- When they succeed ----------

  /** The path leads, by keys and positions that are there, to a list and on with a string or a negative
      position. */
  predicate Stuck(v: Value, path: Path)
    requires path != []
    decreases |path|
  {
    match v
    case Branch(items) =>
      var i := Find(items, KeyOf(path[0]));
      i < |items| && |path| > 1 && Stuck(items[i].value, path[1..])
    case List(elems) =>
      path[0].Field? || path[0].n < 0
      || (path[0].n < |elems| && |path| > 1 && Stuck(elems[path[0].n], path[1..]))
    case _ => false
  }

  /** The whole path is there. */
  predicate Exists(v: Value, path: Path)
    requires path != []
    decreases |path|
  {
    match v
    case Branch(items) =>
      var i := Find(items, KeyOf(path[0]));
      i < |items| && (|path| == 1 || Exists(items[i].value, path[1..]))
    case List(elems) =>
      path[0].Position? && 0 <= path[0].n < |elems| && (|path| == 1 || Exists(elems[path[0].n], path[1..]))
    case _ => false
  }

  /** Both panic exactly on a path that gets stuck. On all others Set succeeds; Unset does on those that
      are there, and reports an error otherwise. */
  lemma {:induction false} SetSucceedsExactly(v: Value, path: Path, x: Value)
    requires path != []
    ensures if Stuck(v, path) then SetIn(v, path, x) == Panics else SetIn(v, path, x).Done?
    decreases |path|
  {
    hide Equal; hide ValueFromPathAndLeaf; hide Find;
    if |path| > 1 {
      match v
      case Branch(items) =>
        var i := Find(items, KeyOf(path[0]));
        if i < |items| {
          SetSucceedsExactly(items[i].value, path[1..], x);
        }
      case List(elems) =>
        if path[0].Position? && 0 <= path[0].n < |elems| {
          SetSucceedsExactly(elems[path[0].n], path[1..], x);
        }
      case _ =>
    }
  }

  lemma {:induction false} UnsetSucceedsExactly(v: Value, path: Path)
    requires path != []
    ensures if Stuck(v, path) then UnsetIn(v, path) == Panics
            else if Exists(v, path) then UnsetIn(v, path).Done?
            else UnsetIn(v, path) == Fails
    decreases |path|
  {
    hide Find;
    if |path| > 1 {
      match v
      case Branch(items) =>
        var i := Find(items, KeyOf(path[0]));
        if i < |items| {
          UnsetSucceedsExactly(items[i].value, path[1..]);
        }
      case List(elems) =>
        if path[0].Position? && 0 <= path[0].n < |elems| {
          UnsetSucceedsExactly(elems[path[0].n], path[1..]);
        }
      case _ =>
    }
  }

  /** What Set makes anew is one container for every component, each with one entry: the key of the
      component, or whatever position was asked for the position 0. */
  lemma {:induction false} NewValueIsNested(path: Path, leaf: Value)
    requires path != []
    ensures var v := ValueFromPathAndLeaf(path, leaf);
            if path[0].Field? then v.Branch? && |v.items| == 1 && v.items[0].key == Name(path[0].name)
            else v.List? && |v.elems| == 1
    ensures var zeros := seq(|path|, i requires 0 <= i < |path| => if path[i].Position? then Position(0) else path[i]);
            && ValueFromPathAndLeaf(path, leaf) == ValueFromPathAndLeaf(zeros, leaf)
            && Truncated(ValueFromPathAndLeaf(path, leaf), zeros) == Done(Part(leaf))
    decreases |path|
  {
    var zeros := seq(|path|, i requires 0 <= i < |path| => if path[i].Position? then Position(0) else path[i]);
    NewValueIsFound(zeros, leaf);
    if |path| > 1 {
      NewValueIsNested(path[1..], leaf);
      var rest := path[1..];
      assert zeros[1..]
          == seq(|rest|, i requires 0 <= i < |rest| => if rest[i].Position? then Position(0) else rest[i]);
    }
    hide Truncated;
  }
}
