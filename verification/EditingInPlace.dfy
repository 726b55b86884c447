/**
 Set and Unset as the source performs them: the slices of a tree are updated in place. Every
 container carries the tree it stands for, so that the methods are tied to SetIn and UnsetIn, and a
 call that fails is seen to write nothing.
 */
module EditingInPlace {
  import opened Trees
  import opened TreeEditing

  /** What an entry of a slice holds: a value without entries of its own, or another slice. */
  datatype Cell = Plain(value: Value) | Sub(node: Container)

  ghost predicate HasNoEntries(v: Value) {
    !v.Branch? && !v.List?
  }

  ghost function CellTree(cell: Cell): Value
    reads if cell.Sub? then {cell.node} else {}
  {
    if cell.Plain? then cell.value else cell.node.tree
  }

  ghost function Nodes(cells: seq<Cell>): set<Container> {
    set i | 0 <= i < |cells| && cells[i].Sub? :: cells[i].node
  }

  ghost function Replaced(v: Value, i: nat, w: Value): Value
    requires (v.Branch? && i < |v.items|) || (v.List? && i < |v.elems|)
  {
    if v.Branch? then Branch(v.items[i := v.items[i].(value := w)]) else List(v.elems[i := w])
  }

  ghost function Without(v: Value, i: nat): Value
    requires (v.Branch? && i < |v.items|) || (v.List? && i < |v.elems|)
  {
    if v.Branch? then Branch(Dropped(v.items, i)) else List(Dropped(v.elems, i))
  }

  /** The containers below form a tree inside `owned`. */
  ghost predicate Owns(cells: seq<Cell>, owned: set<Container>)
    reads owned
    decreases owned, 1
  {
    && (forall i :: 0 <= i < |cells| && cells[i].Sub? ==>
          cells[i].node in owned && cells[i].node.repr <= owned && cells[i].node.Valid())
    && (forall i, j :: 0 <= i < j < |cells| && cells[i].Sub? && cells[j].Sub? ==>
          cells[i].node.repr !! cells[j].node.repr)
  }

  ghost predicate StandFor(isBranch: bool, keys: seq<Key>, cells: seq<Cell>, v: Value)
    reads Nodes(cells)
  {
    && (forall i :: 0 <= i < |cells| && cells[i].Plain? ==> HasNoEntries(cells[i].value))
    && if isBranch then
         && v.Branch? && |v.items| == |cells| == |keys|
         && forall i :: 0 <= i < |cells| ==> v.items[i] == Item(keys[i], CellTree(cells[i]))
       else
         v.List? && |v.elems| == |cells| && forall i :: 0 <= i < |cells| ==> v.elems[i] == CellTree(cells[i])
  }

  ghost function Dropped<T>(s: seq<T>, i: nat): seq<T>
    requires i < |s|
  {
    s[..i] + s[i + 1..]
  }

  lemma DroppedAt<T>(s: seq<T>, i: nat)
    requires i < |s|
    ensures |Dropped(s, i)| == |s| - 1
    ensures forall j :: 0 <= j < |s| - 1 ==> Dropped(s, i)[j] == s[if j < i then j else j + 1]
  {}

  lemma FewerOwned(cells: seq<Cell>, i: nat, owned: set<Container>)
    requires i < |cells| && Owns(cells, owned)
    ensures Owns(Dropped(cells, i), owned)
  {
    DroppedAt(cells, i);
    hide Dropped;
  }

  lemma FewerStandFor(isBranch: bool, keys: seq<Key>, cells: seq<Cell>, v: Value, i: nat)
    requires i < |cells| && StandFor(isBranch, keys, cells, v)
    ensures StandFor(isBranch, if isBranch then Dropped(keys, i) else keys, Dropped(cells, i), Without(v, i))
  {
    hide Dropped; hide HasNoEntries; hide CellTree;
    DroppedAt(cells, i);
    if isBranch {
      DroppedAt(keys, i);
      DroppedAt(v.items, i);
    } else {
      DroppedAt(v.elems, i);
    }
  }

  // ---------- Cells ----------

  /** The containers of a cell. */
  ghost function ReprOf(cell: Cell): set<Container>
    reads if cell.Sub? then {cell.node} else {}
  {
    if cell.Sub? then cell.node.repr else {}
  }

  ghost predicate Good(cell: Cell)
    reads if cell.Sub? then {cell.node} + cell.node.repr else {}
  {
    if cell.Sub? then cell.node.Valid() else HasNoEntries(cell.value)
  }

  lemma OwnsPut(cells: seq<Cell>, i: nat, c: Cell, owned: set<Container>)
    requires i < |cells| && Owns(cells, owned) && Good(c) && ReprOf(c) !! owned
    ensures Owns(cells[i := c], owned + ReprOf(c))
  {
    var more := cells[i := c];
    forall j | 0 <= j < |more| && more[j].Sub?
      ensures more[j].node in owned + ReprOf(c) && more[j].node.repr <= owned + ReprOf(c) && more[j].node.Valid()
    {
      assert j != i ==> more[j] == cells[j];
    }
  }

  lemma OwnsAppended(cells: seq<Cell>, c: Cell, owned: set<Container>)
    requires Owns(cells, owned) && Good(c) && ReprOf(c) !! owned
    ensures Owns(cells + [c], owned + ReprOf(c))
  {
    var more := cells + [c];
    forall j | 0 <= j < |more| && more[j].Sub?
      ensures more[j].node in owned + ReprOf(c) && more[j].node.repr <= owned + ReprOf(c) && more[j].node.Valid()
    {
      assert j < |cells| ==> more[j] == cells[j];
    }
  }

  lemma StandForPut(isBranch: bool, keys: seq<Key>, cells: seq<Cell>, v: Value, i: nat, c: Cell)
    requires i < |cells| && StandFor(isBranch, keys, cells, v) && Good(c)
    ensures StandFor(isBranch, keys, cells[i := c], Replaced(v, i, CellTree(c)))
  {
    var more := cells[i := c];
    assert forall j :: 0 <= j < |more| && j != i ==> more[j] == cells[j];
  }

  lemma StandForKey(keys: seq<Key>, cells: seq<Cell>, v: Value, i: nat, key: Key)
    requires i < |cells| && StandFor(true, keys, cells, v)
    ensures StandFor(true, keys[i := key], cells, Branch(v.items[i := v.items[i].(key := key)]))
  {}

  /** The tree with one more entry at its end. */
  ghost function Extended(v: Value, key: Key, w: Value): Value
    requires v.Branch? || v.List?
  {
    if v.Branch? then Branch(v.items + [Item(key, w)]) else List(v.elems + [w])
  }

  lemma StandForAppended(isBranch: bool, keys: seq<Key>, cells: seq<Cell>, v: Value, key: Key, c: Cell)
    requires StandFor(isBranch, keys, cells, v) && Good(c)
    ensures StandFor(isBranch, if isBranch then keys + [key] else keys, cells + [c], Extended(v, key, CellTree(c)))
  {
    var more := cells + [c];
    assert forall j :: 0 <= j < |cells| ==> more[j] == cells[j];
  }

  // ---------- Comparing ----------

  ghost predicate EqualFrom(v: Value, w: Value, i: nat)
    requires (v.Branch? && w.Branch? && i <= |v.items| == |w.items|)
             || (v.List? && w.List? && i <= |v.elems| == |w.elems|)
  {
    if v.Branch? then EqualItems(v.items[i..], w.items[i..]) else EqualElems(v.elems[i..], w.elems[i..])
  }

  lemma EqualFromStep(v: Value, w: Value, i: nat)
    requires (v.Branch? && w.Branch? && i < |v.items| == |w.items|)
             || (v.List? && w.List? && i < |v.elems| == |w.elems|)
    ensures EqualFrom(v, w, i) <==>
            EqualFrom(v, w, i + 1)
            && if v.Branch? then EqualItem(v.items[i], w.items[i]) else Equal(v.elems[i], w.elems[i])
  {
    if v.Branch? {
      assert v.items[i..][1..] == v.items[i + 1..] && w.items[i..][1..] == w.items[i + 1..];
    } else {
      assert v.elems[i..][1..] == v.elems[i + 1..] && w.elems[i..][1..] == w.elems[i + 1..];
    }
    hide Equal; hide EqualItem;
  }

  lemma EqualFromStart(v: Value, w: Value)
    requires (v.Branch? && w.Branch? && |v.items| == |w.items|) || (v.List? && w.List? && |v.elems| == |w.elems|)
    ensures EqualFrom(v, w, 0) <==> Equal(v, w)
    ensures EqualFrom(v, w, if v.Branch? then |v.items| else |v.elems|)
  {
    if v.Branch? {
      assert v.items[0..] == v.items && w.items[0..] == w.items;
    } else {
      assert v.elems[0..] == v.elems && w.elems[0..] == w.elems;
    }
  }

  lemma DifferentKinds(v: Value, w: Value)
    requires HasNoEntries(v) != HasNoEntries(w) || (v.Branch? && w.List?) || (v.List? && w.Branch?)
             || (v.Branch? && w.Branch? && |v.items| != |w.items|) || (v.List? && w.List? && |v.elems| != |w.elems|)
    ensures !Equal(v, w)
  {}

  /** The comparison of the source, entry by entry. */
  method EqualCells(a: Cell, b: Cell) returns (same: bool)
    requires Good(a) && Good(b)
    ensures same == Equal(CellTree(a), CellTree(b))
    decreases ReprOf(a), 1
  {
    hide Equal;
    if a.Plain? && b.Plain? {
      return Equal(a.value, b.value);
    }
    if a.Sub? && b.Sub? {
      same := EqualContainers(a.node, b.node);
      return;
    }
    DifferentKinds(CellTree(a), CellTree(b));
    return false;
  }

  method EqualContainers(a: Container, b: Container) returns (same: bool)
    requires a.Valid() && b.Valid()
    ensures same == Equal(a.tree, b.tree)
    decreases a.repr, 0
  {
    hide Equal; hide EqualFrom;
    if a.isBranch != b.isBranch || |a.cells| != |b.cells| {
      DifferentKinds(a.tree, b.tree);
      return false;
    }
    EqualFromStart(a.tree, b.tree);
    for i := 0 to |a.cells|
      invariant Equal(a.tree, b.tree) == EqualFrom(a.tree, b.tree, i)
    {
      EqualFromStep(a.tree, b.tree, i);
      CellOwned(a.cells, i, a.repr - {a});
      CellOwned(b.cells, i, b.repr - {b});
      if a.isBranch && !EqualKeys(a.keys[i], b.keys[i]) {
        return false;
      }
      var alike := EqualCells(a.cells[i], b.cells[i]);
      if !alike {
        return false;
      }
    }
    return true;
  }

  lemma CellOwned(cells: seq<Cell>, i: nat, owned: set<Container>)
    requires i < |cells| && Owns(cells, owned)
    ensures cells[i].Sub? ==> Good(cells[i]) && ReprOf(cells[i]) <= owned
  {}

  lemma SetOnLeaf(v: Value, path: Path, x: Value)
    requires path != [] && HasNoEntries(v)
    ensures SetIn(v, path, x) == Done(Change(ValueFromPathAndLeaf(path, x), true))
  {
    DifferentKinds(v, ValueFromPathAndLeaf(path, x));
    hide Equal;
  }

  lemma NoPath(v: Value, x: Value)
    ensures SetIn(v, [], x) == Panics
  {}

  /** What Set appends to a branch that has no entry for the path. */
  lemma NewEntry(path: Path, x: Value)
    requires path != []
    ensures var inner := if |path| == 1 then x else ValueFromPathAndLeaf(path[1..], x);
            ValueFromPathAndLeaf(path, x) ==
            if path[0].Field? then Branch([Item(Name(path[0].name), inner)]) else List([inner])
  {}

  // ---------- New containers ----------

  /** valueFromPathAndLeaf: containers along the path, with the value at its end. */
  method MakeValue(path: Path, x: Cell) returns (c: Cell)
    requires path != [] && Good(x)
    ensures c.Sub? && Good(c) && CellTree(c) == ValueFromPathAndLeaf(path, CellTree(x))
    ensures ReprOf(x) <= ReprOf(c) && fresh(ReprOf(c) - ReprOf(x))
    decreases |path|
  {
    var inner := x;
    if |path| > 1 {
      inner := MakeValue(path[1..], x);
    }
    var node := new Container(path[0].Field?, if path[0].Field? then Name(path[0].name) else Index(path[0].n), inner);
    return Sub(node);
  }

  lemma NodesOwned(cells: seq<Cell>, owned: set<Container>)
    requires Owns(cells, owned)
    ensures Nodes(cells) <= owned
  {}

  /** A TreeBranch, with a key for every entry, or a list. */
  class Container {
    const isBranch: bool
    var keys: seq<Key>
    var cells: seq<Cell>
    ghost var repr: set<Container>
    ghost var tree: Value

    ghost predicate Valid()
      reads this, repr
      decreases repr, 0
    {
      && this in repr
      && Owns(cells, repr - {this})
      && StandFor(isBranch, keys, cells, tree)
    }

    /** A container with one entry. The key counts for a branch only. */
    constructor (isBranch: bool, key: Key, c: Cell)
      requires Good(c)
      ensures Valid() && repr == ReprOf(c) + {this}
      ensures tree == if isBranch then Branch([Item(key, CellTree(c))]) else List([CellTree(c)])
    {
      this.isBranch, keys, cells := isBranch, if isBranch then [key] else [], [c];
      repr, tree := ReprOf(c) + {this}, if isBranch then Branch([Item(key, CellTree(c))]) else List([CellTree(c)]);
      new;
      assert repr - {this} == ReprOf(c);
    }

    method Put(i: nat, c: Cell)
      requires Valid() && i < |cells| && Good(c) && ReprOf(c) !! repr
      modifies this
      ensures Valid() && repr == old(repr) + ReprOf(c) && tree == Replaced(old(tree), i, CellTree(c))
    {
      OwnsPut(cells, i, c, repr - {this});
      StandForPut(isBranch, keys, cells, tree, i, c);
      NodesOwned(cells[i := c], repr - {this} + ReprOf(c));
      hide Owns; hide StandFor; hide Nodes;
      cells := cells[i := c];
      tree := Replaced(tree, i, CellTree(c));
      repr := repr + ReprOf(c);
      assert repr - {this} == old(repr) - {this} + ReprOf(c);
    }

    method PutKey(i: nat, key: Key)
      requires Valid() && isBranch && i < |cells|
      modifies this
      ensures Valid() && repr == old(repr) && cells == old(cells)
      ensures tree == Branch(old(tree.items)[i := old(tree.items)[i].(key := key)])
    {
      StandForKey(keys, cells, tree, i, key);
      NodesOwned(cells, repr - {this});
      hide Owns; hide StandFor; hide Nodes;
      keys := keys[i := key];
      tree := Branch(tree.items[i := tree.items[i].(key := key)]);
    }

    method Append(key: Key, c: Cell)
      requires Valid() && Good(c) && ReprOf(c) !! repr
      modifies this
      ensures Valid() && repr == old(repr) + ReprOf(c) && tree == Extended(old(tree), key, CellTree(c))
    {
      OwnsAppended(cells, c, repr - {this});
      StandForAppended(isBranch, keys, cells, tree, key, c);
      NodesOwned(cells + [c], repr - {this} + ReprOf(c));
      hide Owns; hide StandFor; hide Nodes;
      cells := cells + [c];
      if isBranch {
        keys := keys + [key];
      }
      tree := Extended(tree, key, CellTree(c));
      repr := repr + ReprOf(c);
      assert repr - {this} == old(repr) - {this} + ReprOf(c);
    }

    /** slices.Delete. */
    method Delete(i: nat)
      requires Valid() && i < |cells|
      modifies this
      ensures Valid() && repr == old(repr) && tree == Without(old(tree), i)
    {
      FewerOwned(cells, i, repr - {this});
      FewerStandFor(isBranch, keys, cells, tree, i);
      NodesOwned(Dropped(cells, i), repr - {this});
      hide Owns; hide StandFor; hide Nodes;
      cells := cells[..i] + cells[i + 1..];
      if isBranch {
        keys := keys[..i] + keys[i + 1..];
      }
      tree := Without(tree, i);
    }

    /** A change below entry `i`, which may have brought in containers from elsewhere, leaves everything
        else in place. */
    twostate lemma StillOwns(i: nat)
      requires old(Valid()) && i < |cells| && cells[i].Sub? && cells == old(cells) && keys == old(keys)
      requires cells[i].node.Valid() && old(cells[i].node.repr) <= cells[i].node.repr
      requires (cells[i].node.repr - old(cells[i].node.repr)) !! old(repr)
      requires unchanged(old(repr) - old(cells[i].node.repr))
      ensures Owns(cells, old(repr) - {this} + cells[i].node.repr) && this !in cells[i].node.repr
      ensures repr == old(repr) && tree == old(tree)
      ensures forall j :: 0 <= j < |cells| && j != i ==> CellTree(cells[j]) == old(CellTree(cells[j]))
    {
      forall j | 0 <= j < |cells| && j != i && cells[j].Sub?
        ensures cells[j].node.Valid() && cells[j].node.repr == old(cells[j].node.repr)
        ensures cells[j].node.tree == old(cells[j].node.tree) && cells[j].node.repr !! cells[i].node.repr
      {
        assert old(cells[j].node.Valid() && cells[j].node.repr !! cells[i].node.repr);
        assert cells[j].node in old(cells[j].node.repr);
      }
    }

    /** Set at entry `i`, or below it. */
    method SetEntry(i: nat, path: Path, x: Cell) returns (r: Outcome<bool>)
      requires Valid() && i < |cells| && Good(x) && ReprOf(x) !! repr
      modifies repr
      ensures Valid() && old(repr) <= repr && fresh(repr - old(repr) - old(ReprOf(x)))
      ensures var below, value := old(CellTree(cells[i])), old(CellTree(x));
              if path == [] then r == Done(!Equal(below, value)) && tree == Replaced(old(tree), i, value)
              else match SetIn(below, path, value)
                   case Done(c) => r == Done(c.changed) && tree == Replaced(old(tree), i, c.tree)
                   case Fails => r == Fails && unchanged(old(repr))
                   case Panics => r == Panics && unchanged(old(repr))
      decreases |path|, 2
    {
      hide Equal; hide SetIn;
      CellOwned(cells, i, repr - {this});
      if path == [] {
        var same := EqualCells(cells[i], x);
        Put(i, x);
        return Done(!same);
      }
      match cells[i] {
        case Plain(value) =>
          SetOnLeaf(value, path, CellTree(x));
          var c := MakeValue(path, x);
          Put(i, c);
          return Done(true);
        case Sub(node) =>
          r := node.Set(path, x);
          if r.Done? {
            StillOwns(i);
            tree := Replaced(tree, i, node.tree);
            repr := repr + node.repr;
            assert repr - {this} == old(repr) - {this} + node.repr;
          }
      }
    }

    /** A new entry at the end, with what the rest of the path makes of the value. */
    method AppendNew(key: Key, path: Path, x: Cell)
      requires Valid() && Good(x) && ReprOf(x) !! repr
      modifies this
      ensures Valid() && old(repr) <= repr && fresh(repr - old(repr) - old(ReprOf(x)))
      ensures var value := old(CellTree(x));
              tree == Extended(old(tree), key, if path == [] then value else ValueFromPathAndLeaf(path, value))
    {
      hide ValueFromPathAndLeaf; hide Extended;
      var c := x;
      if path != [] {
        c := MakeValue(path, x);
      }
      Append(key, c);
    }

    method Set(path: Path, x: Cell) returns (r: Outcome<bool>)
      requires Valid() && Good(x) && ReprOf(x) !! repr
      modifies repr
      ensures Valid() && old(repr) <= repr && fresh(repr - old(repr) - old(ReprOf(x)))
      ensures match SetIn(old(tree), path, old(CellTree(x)))
              case Done(c) => r == Done(c.changed) && tree == c.tree
              case Fails => r == Fails && unchanged(old(repr))
              case Panics => r == Panics && unchanged(old(repr))
      decreases |path|, 1
    {
      hide SetIn;
      if path == [] {
        NoPath(tree, CellTree(x));
        return Panics;
      }
      if isBranch {
        r := SetItem(path, x);
      } else {
        r := SetElem(path, x);
      }
    }

    method SetItem(path: Path, x: Cell) returns (r: Outcome<bool>)
      requires path != [] && isBranch
      requires Valid() && Good(x) && ReprOf(x) !! repr
      modifies repr
      ensures Valid() && old(repr) <= repr && fresh(repr - old(repr) - old(ReprOf(x)))
      ensures match SetIn(old(tree), path, old(CellTree(x)))
              case Done(c) => r == Done(c.changed) && tree == c.tree
              case Fails => r == Fails && unchanged(old(repr))
              case Panics => r == Panics && unchanged(old(repr))
      decreases |path|, 0
    {
      hide Equal; hide ValueFromPathAndLeaf;
      for i := 0 to |cells|
        invariant unchanged(repr)
        invariant forall j :: 0 <= j < i ==> keys[j] != KeyOf(path[0])
      {
        if keys[i] == KeyOf(path[0]) {
          assert Find(tree.items, KeyOf(path[0])) == i;
          hide Find; hide Owns;
          r := SetEntry(i, path[1..], x);
          return;
        }
      }
      assert Find(tree.items, KeyOf(path[0])) == |cells|;
      NewEntry(path, CellTree(x));
      if path[0].Position? {
        return Done(true);
      }
      hide Find; hide Owns;
      AppendNew(Name(path[0].name), path[1..], x);
      return Done(true);
    }

    method SetElem(path: Path, x: Cell) returns (r: Outcome<bool>)
      requires path != [] && !isBranch
      requires Valid() && Good(x) && ReprOf(x) !! repr
      modifies repr
      ensures Valid() && old(repr) <= repr && fresh(repr - old(repr) - old(ReprOf(x)))
      ensures match SetIn(old(tree), path, old(CellTree(x)))
              case Done(c) => r == Done(c.changed) && tree == c.tree
              case Fails => r == Fails && unchanged(old(repr))
              case Panics => r == Panics && unchanged(old(repr))
      decreases |path|, 0
    {
      hide Equal; hide ValueFromPathAndLeaf; hide Owns;
      if path[0].Field? {
        return Panics;
      }
      var position := path[0].n;
      if position >= |cells| {
        AppendNew(Index(0), path[1..], x);
        return Done(true);
      }
      if position < 0 {
        return Panics;
      }
      r := SetEntry(position, path[1..], x);
    }

    /** The recursion of the source: nothing is written before the call below has come back without
        an error. */
    method UnsetBelow(i: nat, path: Path) returns (r: Outcome<()>)
      requires Valid() && i < |cells|
      modifies repr
      ensures Valid() && repr == old(repr)
      ensures var below := UnsetIn(old(CellTree(cells[i])), path);
              if below.Done? then r == Done(()) && tree == Replaced(old(tree), i, below.value)
              else unchanged(old(repr)) && r == if below.Fails? then Fails else Panics
      decreases |path|, 1
    {
      match cells[i] {
        case Plain(value) =>
          return if path == [] then Panics else Fails;
        case Sub(node) =>
          hide UnsetIn;
          r := node.Unset(path);
          if r.Done? {
            StillOwns(i);
            assert old(repr) - {this} + node.repr == old(repr) - {this};
            tree := Replaced(tree, i, node.tree);
          }
      }
    }

    method Unset(path: Path) returns (r: Outcome<()>)
      requires Valid()
      modifies repr
      ensures Valid() && repr == old(repr)
      ensures match UnsetIn(old(tree), path)
              case Done(after) => r == Done(()) && tree == after
              case Fails => r == Fails && unchanged(old(repr))
              case Panics => r == Panics && unchanged(old(repr))
      decreases |path|, 0
    {
      if path == [] {
        return Panics;
      }
      if isBranch {
        for i := 0 to |cells|
          invariant unchanged(repr)
          invariant forall j :: 0 <= j < i ==> keys[j] != KeyOf(path[0])
        {
          if keys[i] == KeyOf(path[0]) {
            assert Find(tree.items, KeyOf(path[0])) == i;
            if |path| == 1 {
              Delete(i);
              return Done(());
            }
            r := UnsetBelow(i, path[1..]);
            return;
          }
        }
        return Fails;
      }
      if path[0].Field? {
        return Panics;
      }
      var position := path[0].n;
      if position >= |cells| {
        return Fails;
      }
      if position < 0 {
        return Panics;
      }
      if |path| == 1 {
        Delete(position);
        return Done(());
      }
      r := UnsetBelow(position, path[1..]);
    }
  }
}
