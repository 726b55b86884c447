/**
 Trees as tries (stores/flatten.go): the leaves of a shaped tree make up one trie, which converts
 back to the tree, and every trie of leaves that converts does so to a shaped tree.
 */
module TreeTries {
  import opened Results
  import opened Trees
  import opened Strings
  import opened Tokens
  import opened PathSets
  import opened Tries
  import opened Conversion
  import opened FlatLeaves

  ghost predicate IsTrieOf(n: Trie, v: Value)
    decreases n, 1
  {
    match v
    case Branch(items) => n.value.None? && n.indices == map[] && ItemsTrie(n, items)
    case List(elems) => n.value.None? && n.subkeys == map[] && ElemsTrie(n, elems)
    case _ => n == Trie(Some(v), map[], map[])
  }

  ghost predicate ItemsTrie(n: Trie, items: TreeBranch)
    decreases n, 0
  {
    && (forall i :: 0 <= i < |items| ==> items[i].key.Name? && items[i].key.name in n.subkeys)
    && (forall k :: k in n.subkeys ==> exists i :: 0 <= i < |items| && items[i].key == Name(k))
    && (forall i :: 0 <= i < |items| ==> IsTrieOf(n.subkeys[items[i].key.name], items[i].value))
  }

  ghost predicate ElemsTrie(n: Trie, elems: seq<Value>)
    decreases n, 0
  {
    && (forall i :: i in n.indices <==> 0 <= i < |elems|)
    && (forall i :: 0 <= i < |elems| ==> IsTrieOf(n.indices[i], elems[i]))
  }

  // ---------- Placing the leaves ----------

  lemma {:induction false} PlaceBehind(n: Trie, t: Token, entries: seq<Entry>)
    requires entries != []
    ensures PlaceAll(n, Behind(t, entries)) ==
            match PlaceAll(Child(n, t), entries)
            case None => None
            case Some(c) => Some(WithChild(n, t, c))
    decreases |entries|
  {
    var e, rest := entries[0], entries[1..];
    var behind := Behind(t, entries);
    assert behind[0].path[1..] == e.path;
    assert behind[1..] == Behind(t, rest);
    if rest == [] {
      assert behind[1..] == [];
    } else {
      match Place(Child(n, t), e.path, e.value)
      case None =>
      case Some(c) =>
        OverwrittenChild(n, t, c, c);
        PlaceBehind(WithChild(n, t, c), t, rest);
        forall d
          ensures WithChild(WithChild(n, t, c), t, d) == WithChild(n, t, d)
        {
          OverwrittenChild(n, t, c, d);
        }
    }
  }

  lemma {:induction false} ShapedHasLeaves(v: Value)
    requires Shaped(v)
    ensures Leaves(v) != []
    decreases v, 1
  {
    match v
    case Branch(items) =>
      assert ShapedItem(items[0]);
      ShapedHasLeaves(items[0].value);
      assert LeavesOfItem(items[0]) != [];
    case List(elems) =>
      ShapedHasLeaves(elems[0]);
    case _ =>
  }

  lemma SortedTail(r: seq<string>)
    requires StrictlySorted(r) && r != []
    ensures StrictlySorted(r[1..])
    ensures forall i :: 1 <= i < |r| ==> r[i] != r[0]
  {
    LessIsTotal(r[0], r[0]);
    hide Less;
    assert forall i :: 1 <= i < |r| ==> Less(r[0], r[i]);
  }

  lemma ShapedTail(items: TreeBranch)
    requires ShapedItems(items) && items != []
    ensures ShapedItems(items[1..]) && Shaped(items[0].value)
    ensures forall i :: 1 <= i < |items| ==> items[i].key != items[0].key
  {
    assert ShapedItem(items[0]);
    var names := Names(items);
    SortedTail(names);
    hide Shaped; hide StrictlySorted;
    var rest := items[1..];
    assert Names(rest) == names[1..];
    forall i | 0 <= i < |rest|
      ensures rest[i].key.Name? && ShapedItem(rest[i])
    {
      assert rest[i] == items[i + 1];
    }
    forall i | 1 <= i < |items|
      ensures items[i].key != items[0].key
    {
      assert names[i] != names[0];
    }
  }

  /** `more` is `n` with the items added. */
  ghost predicate ItemsAdded(n: Trie, items: TreeBranch, more: Trie) {
    && more.value.None? && more.indices == map[]
    && (forall k :: k in n.subkeys ==> k in more.subkeys && more.subkeys[k] == n.subkeys[k])
    && (forall i :: 0 <= i < |items| ==> items[i].key.Name? && items[i].key.name in more.subkeys)
    && (forall i :: 0 <= i < |items| ==> IsTrieOf(more.subkeys[items[i].key.name], items[i].value))
    && (forall k :: k in more.subkeys ==> k in n.subkeys || exists i :: 0 <= i < |items| && items[i].key == Name(k))
  }

  lemma ItemsAddedCons(n: Trie, items: TreeBranch, c: Trie, more: Trie)
    requires items != [] && items[0].key.Name? && items[0].key.name !in n.subkeys
    requires IsTrieOf(c, items[0].value)
    requires ItemsAdded(WithChild(n, MapToken(items[0].key.name), c), items[1..], more)
    ensures ItemsAdded(n, items, more)
  {
    hide IsTrieOf;
    var name, rest := items[0].key.name, items[1..];
    var mid := WithChild(n, MapToken(name), c);
    assert name in mid.subkeys && mid.subkeys[name] == c;
    forall i | 0 <= i < |items|
      ensures items[i].key.Name? && items[i].key.name in more.subkeys
      ensures IsTrieOf(more.subkeys[items[i].key.name], items[i].value)
    {
      if i > 0 {
        assert rest[i - 1] == items[i];
      }
    }
    forall k | k in more.subkeys && k !in n.subkeys
      ensures exists i :: 0 <= i < |items| && items[i].key == Name(k)
    {
      if k == name {
        assert items[0].key == Name(k);
      } else {
        var i :| 0 <= i < |rest| && rest[i].key == Name(k);
        assert items[i + 1].key == Name(k);
      }
    }
  }

  lemma {:induction false} LeavesMakeTrie(v: Value)
    requires Shaped(v)
    ensures PlaceAll(EMPTY, Leaves(v)).Some? && IsTrieOf(PlaceAll(EMPTY, Leaves(v)).value, v)
    decreases v, 1
  {
    match v
    case Branch(items) => ItemLeavesMakeTrie(EMPTY, items);
    case List(elems) => ElemLeavesMakeTrie(EMPTY, elems, 0);
    case _ =>
      var e := Entry([], v);
      assert [e][1..] == [];
  }

  lemma {:induction false} OneItemMakesTrie(n: Trie, item: Item)
    requires item.key.Name? && Shaped(item.value) && item.key.name !in n.subkeys
    ensures PlaceAll(EMPTY, Leaves(item.value)).Some?
    ensures var c := PlaceAll(EMPTY, Leaves(item.value)).value;
            IsTrieOf(c, item.value) && PlaceAll(n, LeavesOfItem(item)) == Some(WithChild(n, MapToken(item.key.name), c))
    decreases item, 2
  {
    LeavesMakeTrie(item.value);
    ShapedHasLeaves(item.value);
    PlaceBehind(n, MapToken(item.key.name), Leaves(item.value));
  }

  lemma {:induction false} ItemLeavesMakeTrie(n: Trie, items: TreeBranch)
    requires ShapedItems(items) && n.value.None? && n.indices == map[]
    requires forall i :: 0 <= i < |items| ==> items[i].key.name !in n.subkeys
    ensures PlaceAll(n, LeavesOfItems(items)).Some? && ItemsAdded(n, items, PlaceAll(n, LeavesOfItems(items)).value)
    decreases items, 0
  {
    if items != [] {
      ShapedTail(items);
      OneItemMakesTrie(n, items[0]);
      var c := PlaceAll(EMPTY, Leaves(items[0].value)).value;
      var mid := WithChild(n, MapToken(items[0].key.name), c);
      PlaceAllConcat(n, LeavesOfItem(items[0]), LeavesOfItems(items[1..]));
      forall i | 0 <= i < |items[1..]|
        ensures items[1..][i].key.name !in mid.subkeys
      {
        assert items[1..][i] == items[i + 1];
      }
      hide ShapedItems; hide LeavesOfItem; hide IsTrieOf; hide PlaceAll;
      ItemLeavesMakeTrie(mid, items[1..]);
      ItemsAddedCons(n, items, c, PlaceAll(mid, LeavesOfItems(items[1..])).value);
    }
  }

  ghost predicate ElemsAdded(n: Trie, elems: seq<Value>, i: nat, more: Trie) {
    && more.value.None? && more.subkeys == map[]
    && (forall k :: k in more.indices <==> 0 <= k < i + |elems|)
    && (forall k :: 0 <= k < i && k in n.indices ==> more.indices[k] == n.indices[k])
    && (forall k :: 0 <= k < |elems| ==> IsTrieOf(more.indices[i + k], elems[k]))
  }

  lemma {:induction false} ElemLeavesMakeTrie(n: Trie, elems: seq<Value>, i: nat)
    requires ShapedElems(elems) && n.value.None? && n.subkeys == map[]
    requires forall k :: k in n.indices <==> 0 <= k < i
    ensures PlaceAll(n, LeavesOfElems(elems, i)).Some?
    ensures ElemsAdded(n, elems, i, PlaceAll(n, LeavesOfElems(elems, i)).value)
    decreases elems, 0
  {
    if elems != [] {
      var t, rest := ListToken(i), elems[1..];
      LeavesMakeTrie(elems[0]);
      ShapedHasLeaves(elems[0]);
      PlaceBehind(n, t, Leaves(elems[0]));
      var c := PlaceAll(EMPTY, Leaves(elems[0])).value;
      var mid := WithChild(n, t, c);
      PlaceAllConcat(n, Behind(t, Leaves(elems[0])), LeavesOfElems(rest, i + 1));
      hide Leaves; hide IsTrieOf; hide PlaceAll; hide Shaped;
      assert ShapedElems(rest);
      ElemLeavesMakeTrie(mid, rest, i + 1);
      ElemsAddedCons(n, elems, i, c, PlaceAll(mid, LeavesOfElems(rest, i + 1)).value);
    }
  }

  lemma ElemsAddedCons(n: Trie, elems: seq<Value>, i: nat, c: Trie, more: Trie)
    requires elems != [] && IsTrieOf(c, elems[0])
    requires forall k :: k in n.indices <==> 0 <= k < i
    requires ElemsAdded(WithChild(n, ListToken(i), c), elems[1..], i + 1, more)
    ensures ElemsAdded(n, elems, i, more)
  {
    hide IsTrieOf;
    var rest := elems[1..];
    assert more.indices[i] == c;
    forall k | 0 <= k < |elems|
      ensures IsTrieOf(more.indices[i + k], elems[k])
    {
      if k > 0 {
        assert rest[k - 1] == elems[k];
        assert IsTrieOf(more.indices[(i + 1) + (k - 1)], rest[k - 1]);
      }
    }
  }

  // ---------- Converting ----------

  /** A trie of a shaped tree converts to that tree. */
  lemma {:induction false} TrieConverts(n: Trie, v: Value)
    requires Shaped(v) && IsTrieOf(n, v)
    ensures Convert(n) == Some(v)
    decreases n, 1
  {
    match v
    case Branch(items) =>
      ItemsTrieConverts(n, items);
    case List(elems) =>
      ElemsTrieConverts(n, elems);
    case _ =>
  }

  lemma NamesAreKeys(n: Trie, items: TreeBranch)
    requires ShapedItems(items) && ItemsTrie(n, items)
    ensures Sorted(n.subkeys.Keys) == Names(items)
  {
    hide IsTrieOf; hide Shaped;
    var names := Names(items);
    forall k
      ensures k in names <==> k in n.subkeys.Keys
    {
      if k in n.subkeys {
        var i :| 0 <= i < |items| && items[i].key == Name(k);
        assert names[i] == k;
      }
    }
    hide ItemsTrie; hide StrictlySorted;
    SortedOfElements(names, n.subkeys.Keys);
  }

  lemma {:induction false} ItemsTrieConverts(n: Trie, items: TreeBranch)
    requires ShapedItems(items) && ItemsTrie(n, items) && n.value.None? && n.indices == map[]
    ensures Convert(n) == Some(Branch(items))
    decreases n, 0
  {
    NamesAreKeys(n, items);
    forall i | 0 <= i < |items|
      ensures Convert(n.subkeys[items[i].key.name]) == Some(items[i].value)
    {
      assert ShapedItem(items[i]);
      TrieConverts(n.subkeys[items[i].key.name], items[i].value);
    }
    hide IsTrieOf; hide ShapedItems; hide Convert; hide Sorted;
    SubkeysMakeItems(n, items, |items|);
    var names := Names(items);
    assert names[..|items|] == names && items[..|items|] == items;
    if items == [] {
      assert n == EMPTY;
      NothingConverts();
    } else {
      assert items[0].key.name in n.subkeys.Keys;
      ConvertsToBranch(n, names, items);
    }
  }

  lemma NothingConverts()
    ensures Convert(EMPTY) == Some(Branch([]))
  {}

  lemma ConvertsToBranch(n: Trie, keys: seq<string>, items: TreeBranch)
    requires n.value.None? && n.indices == map[] && |n.subkeys.Keys| > 0
    requires Sorted(n.subkeys.Keys) == keys && ConvertSubkeys(n, keys) == Some(items)
    ensures Convert(n) == Some(Branch(items))
  {
    hide ConvertSubkeys; hide ConvertIndices; hide Sorted;
  }

  lemma ConvertsToList(n: Trie, elems: seq<Value>)
    requires n.value.None? && n.subkeys == map[] && |n.indices.Keys| > 0
    requires n.indices.Keys == UpTo(|elems|) && ConvertIndices(n, |elems|) == Some(elems)
    ensures Convert(n) == Some(List(elems))
  {
    hide ConvertSubkeys; hide ConvertIndices; hide UpTo;
  }

  lemma {:induction false} SubkeysMakeItems(n: Trie, items: TreeBranch, count: nat)
    requires forall i :: 0 <= i < |items| ==> items[i].key.Name? && items[i].key.name in n.subkeys
    requires forall i :: 0 <= i < |items| ==> Convert(n.subkeys[items[i].key.name]) == Some(items[i].value)
    requires count <= |items|
    ensures ConvertSubkeys(n, Names(items)[..count]) == Some(items[..count])
    decreases count
  {
    hide Convert;
    if count > 0 {
      SubkeysMakeItems(n, items, count - 1);
      var keys := Names(items)[..count];
      assert keys[..count - 1] == Names(items)[..count - 1];
      assert items[..count] == items[..count - 1] + [items[count - 1]];
      assert items[count - 1] == Item(Name(keys[count - 1]), items[count - 1].value);
    }
  }

  lemma {:induction false} ElemsTrieConverts(n: Trie, elems: seq<Value>)
    requires elems != [] && ShapedElems(elems) && ElemsTrie(n, elems) && n.value.None? && n.subkeys == map[]
    ensures Convert(n) == Some(List(elems))
    decreases n, 0
  {
    forall i | 0 <= i < |elems|
      ensures Convert(n.indices[i]) == Some(elems[i])
    {
      TrieConverts(n.indices[i], elems[i]);
    }
    ElemsMakeList(n, elems);
  }

  lemma ElemsMakeList(n: Trie, elems: seq<Value>)
    requires elems != [] && n.value.None? && n.subkeys == map[]
    requires forall i :: i in n.indices <==> 0 <= i < |elems|
    requires forall i :: 0 <= i < |elems| ==> Convert(n.indices[i]) == Some(elems[i])
    ensures Convert(n) == Some(List(elems))
  {
    hide Convert;
    var positions := n.indices.Keys;
    assert 0 in positions;
    SameCount(positions, |elems|);
    IndicesMakeElems(n, elems, |elems|);
    assert elems[..|elems|] == elems;
    ConvertsToList(n, elems);
  }

  lemma SameCount(s: set<int>, n: nat)
    requires forall i :: i in s <==> 0 <= i < n
    ensures |s| == n && s == UpTo(n)
  {
    assert s == UpTo(n);
  }

  lemma {:induction false} IndicesMakeElems(n: Trie, elems: seq<Value>, count: nat)
    requires forall i :: 0 <= i < |elems| ==> i in n.indices && Convert(n.indices[i]) == Some(elems[i])
    requires count <= |elems|
    ensures ConvertIndices(n, count) == Some(elems[..count])
    decreases count
  {
    hide Convert;
    if count > 0 {
      IndicesMakeElems(n, elems, count - 1);
      assert elems[..count] == elems[..count - 1] + [elems[count - 1]];
    }
  }

  // ---------- What comes out of a trie of leaves ----------

  ghost predicate LeafTrie(n: Trie) {
    forall q :: Lookup(n, q).Some? ==> IsLeaf(Lookup(n, q).value)
  }

  lemma ChildIsLive(n: Trie, t: Token)
    requires Live(n) && LeafTrie(n) && HasChild(n, t)
    ensures Live(Child(n, t)) && LeafTrie(Child(n, t)) && Child(n, t) != EMPTY
  {
    var c := Child(n, t);
    assert Reaches(c);
    var p :| Lookup(c, p).Some?;
    NothingInEmpty(p);
    forall q | Lookup(c, q).Some?
      ensures IsLeaf(Lookup(c, q).value)
    {
      assert ([t] + q)[1..] == q;
      assert Lookup(n, [t] + q) == Lookup(c, q);
    }
  }

  lemma {:induction false} SubkeysItems(n: Trie, keys: seq<string>)
    requires forall i :: 0 <= i < |keys| ==> keys[i] in n.subkeys
    requires ConvertSubkeys(n, keys).Some?
    ensures var items := ConvertSubkeys(n, keys).value;
      forall i :: 0 <= i < |keys| ==>
        items[i].key == Name(keys[i]) && Convert(n.subkeys[keys[i]]) == Some(items[i].value)
    decreases |keys|
  {
    hide Convert;
    if keys != [] {
      SubkeysItems(n, keys[..|keys| - 1]);
    }
  }

  lemma {:induction false} IndicesElems(n: Trie, count: nat)
    requires forall i :: 0 <= i < count ==> i in n.indices
    requires ConvertIndices(n, count).Some?
    ensures var elems := ConvertIndices(n, count).value;
      forall i :: 0 <= i < count ==> Convert(n.indices[i]) == Some(elems[i])
  {
    hide Convert;
    if count > 0 {
      IndicesElems(n, count - 1);
    }
  }

  lemma ConvertedKinds(n: Trie)
    requires Convert(n).Some?
    ensures n == EMPTY ==> Convert(n).value == Branch([])
    ensures n.value.Some? ==> n.subkeys == map[] && n.indices == map[] && Convert(n) == n.value
    ensures n.subkeys != map[] ==>
      && n.value.None? && n.indices == map[] && ConvertSubkeys(n, Sorted(n.subkeys.Keys)).Some?
      && Convert(n).value == Branch(ConvertSubkeys(n, Sorted(n.subkeys.Keys)).value)
    ensures n.indices != map[] ==>
      && n.value.None? && n.subkeys == map[] && n.indices.Keys == UpTo(|n.indices|) && ConvertIndices(n,
            |n.indices|).Some?
      && Convert(n).value == List(ConvertIndices(n, |n.indices|).value)
    ensures n.value.None? && n.subkeys == map[] && n.indices == map[] ==> n == EMPTY
  {
    hide ConvertSubkeys; hide ConvertIndices; hide Sorted; hide UpTo;
    EmptyMaps(n.subkeys);
    EmptyMaps(n.indices);
  }

  lemma EmptyMaps<K, V>(m: map<K, V>)
    ensures |m| == 0 <==> m == map[]
  {}

  /** Every trie of leaves that converts is the trie of a shaped tree. */
  lemma {:induction false} ConvertedIsShaped(n: Trie)
    requires Live(n) && LeafTrie(n) && n != EMPTY && Convert(n).Some?
    ensures Shaped(Convert(n).value) && IsTrieOf(n, Convert(n).value)
    decreases n, 1
  {
    ConvertedKinds(n);
    hide Convert;
    if n.value.Some? {
      assert Lookup(n, []) == n.value;
    } else if n.subkeys != map[] {
      BranchIsShaped(n, ConvertSubkeys(n, Sorted(n.subkeys.Keys)).value);
    } else {
      ListIsShaped(n, ConvertIndices(n, |n.indices|).value);
    }
  }

  lemma {:induction false} BranchIsShaped(n: Trie, items: TreeBranch)
    requires Live(n) && LeafTrie(n)
    requires n.subkeys != map[] && ConvertSubkeys(n, Sorted(n.subkeys.Keys)) == Some(items)
    ensures items != [] && ShapedItems(items) && ItemsTrie(n, items)
    decreases n, 0, 1
  {
    var keys := Sorted(n.subkeys.Keys);
    SubkeysItems(n, keys);
    SortedIsSorted(n.subkeys.Keys);
    EmptyMaps(n.subkeys);
    forall i | 0 <= i < |items|
      ensures Shaped(items[i].value) && IsTrieOf(n.subkeys[keys[i]], items[i].value)
    {
      ConvertedChildIsShaped(n, MapToken(keys[i]));
    }
    hide Live; hide LeafTrie; hide ConvertSubkeys; hide Convert; hide Sorted; hide StrictlySorted; hide IsTrieOf;
    BranchOfKeys(n, keys, items);
  }

  lemma {:induction false} ConvertedChildIsShaped(n: Trie, t: Token)
    requires Live(n) && LeafTrie(n) && HasChild(n, t) && Convert(Child(n, t)).Some?
    ensures Shaped(Convert(Child(n, t)).value) && IsTrieOf(Child(n, t), Convert(Child(n, t)).value)
    decreases n, 0, 0
  {
    ChildIsLive(n, t);
    assert Child(n, t) < n;
    ConvertedIsShaped(Child(n, t));
  }

  lemma BranchOfKeys(n: Trie, keys: seq<string>, items: TreeBranch)
    requires |keys| == |items| && StrictlySorted(keys) && forall k :: k in keys <==> k in n.subkeys
    requires forall i :: 0 <= i < |items| ==> items[i].key == Name(keys[i])
    requires forall i :: 0 <= i < |items| ==> Shaped(items[i].value) && IsTrieOf(n.subkeys[keys[i]], items[i].value)
    ensures ShapedItems(items) && ItemsTrie(n, items)
  {
    hide StrictlySorted; hide IsTrieOf; hide Shaped;
    assert Names(items) == keys;
    forall k | k in n.subkeys
      ensures exists i :: 0 <= i < |items| && items[i].key == Name(k)
    {
      assert k in keys;
      var i :| 0 <= i < |keys| && keys[i] == k;
      assert items[i].key == Name(k);
    }
  }

  lemma {:induction false} ListIsShaped(n: Trie, elems: seq<Value>)
    requires Live(n) && LeafTrie(n) && n.indices != map[]
    requires n.indices.Keys == UpTo(|n.indices|) && ConvertIndices(n, |n.indices|) == Some(elems)
    ensures elems != [] && ShapedElems(elems) && ElemsTrie(n, elems)
    decreases n, 0, 1
  {
    IndicesElems(n, |n.indices|);
    EmptyMaps(n.indices);
    hide Live; hide LeafTrie; hide IsTrieOf; hide Shaped; hide Convert; hide ConvertIndices;
    forall i | 0 <= i < |elems|
      ensures Shaped(elems[i]) && IsTrieOf(n.indices[i], elems[i])
    {
      ConvertedChildIsShaped(n, ListToken(i));
    }
    ListOfPositions(n, elems);
  }

  lemma ListOfPositions(n: Trie, elems: seq<Value>)
    requires n.indices.Keys == UpTo(|elems|)
    requires forall i :: 0 <= i < |elems| ==> Shaped(elems[i]) && IsTrieOf(n.indices[i], elems[i])
    ensures ShapedElems(elems) && ElemsTrie(n, elems)
  {
    hide IsTrieOf; hide Shaped; hide UpTo;
    forall i
      ensures i in n.indices <==> 0 <= i < |elems|
    {
      assert i in n.indices <==> i in n.indices.Keys;
    }
  }

  lemma SameMaps<K, V>(a: map<K, V>, b: map<K, V>)
    requires forall k :: k in a <==> k in b
    requires forall k :: k in a ==> a[k] == b[k]
    ensures a == b
  {}

  /** The trie of a tree is unique. */
  lemma {:induction false} TrieIsUnique(n: Trie, m: Trie, v: Value)
    requires IsTrieOf(n, v) && IsTrieOf(m, v)
    ensures n == m
    decreases v, 1
  {
    match v
    case Branch(items) => ItemsTrieIsUnique(n, m, items);
    case List(elems) =>
      forall i
        ensures i in n.indices <==> i in m.indices
        ensures i in n.indices ==> n.indices[i] == m.indices[i]
      {
        if i in n.indices {
          TrieIsUnique(n.indices[i], m.indices[i], elems[i]);
        }
      }
      SameMaps(n.indices, m.indices);
    case _ =>
  }

  lemma {:induction false} ItemsTrieIsUnique(n: Trie, m: Trie, items: TreeBranch)
    requires ItemsTrie(n, items) && ItemsTrie(m, items)
    ensures n.subkeys == m.subkeys
    decreases items, 0
  {
    forall k | k in n.subkeys
      ensures k in m.subkeys && n.subkeys[k] == m.subkeys[k]
    {
      var i :| 0 <= i < |items| && items[i].key == Name(k);
      OneItemTrieIsUnique(n.subkeys[k], m.subkeys[k], items[i]);
    }
    forall k | k in m.subkeys
      ensures k in n.subkeys
    {
      var i :| 0 <= i < |items| && items[i].key == Name(k);
    }
  }

  lemma {:induction false} OneItemTrieIsUnique(n: Trie, m: Trie, item: Item)
    requires IsTrieOf(n, item.value) && IsTrieOf(m, item.value)
    ensures n == m
    decreases item, 2
  {
    TrieIsUnique(n, m, item.value);
  }
}
