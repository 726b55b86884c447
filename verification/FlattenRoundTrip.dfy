/**
 Unflattening undoes flattening (stores/flatten.go) on exactly the branches with sorted string
 keys, nothing empty inside, no comment in a list, and no key that reads like a separator.
 */
module FlattenRoundTrip {
  import opened Results
  import opened Trees
  import opened Tokens
  import opened Tries
  import opened Conversion
  import opened Unflattening
  import opened Flattening
  import opened FlatLeaves
  import opened TreeTries

  /** The entries that are read back from the printed ones. */
  function Reread(entries: seq<Entry>): (r: seq<Entry>)
    ensures |r| == |entries|
  {
    seq(|entries|, i requires 0 <= i < |entries| => Entry(TokensOf(PrintName(entries[i].path)), entries[i].value))
  }

  lemma {:induction false} EntriesOfPrinted(entries: seq<Entry>)
    ensures EntriesOf(PrintedNames([], entries)) == Reread(entries)
    decreases |entries|
  {
    hide TokensOf; hide PrintName;
    if entries != [] {
      EntriesOfPrinted(entries[1..]);
      var flat := PrintedNames([], entries);
      assert flat[1..] == PrintedNames([], entries[1..]);
      assert [] + PrintName(entries[0].path) == PrintName(entries[0].path);
      assert Reread(entries) == [Reread(entries)[0]] + Reread(entries[1..]);
    }
  }

  // ---------- From the condition ----------

  lemma {:induction false} ShapedKeysAreNames(v: Value)
    requires Shaped(v)
    ensures KeysAreNames(v)
    decreases v, 1
  {
    match v
    case Branch(items) => ShapedItemKeysAreNames(items);
    case List(elems) => ShapedElemKeysAreNames(elems);
    case _ =>
  }

  lemma {:induction false} ShapedItemKeyIsName(item: Item)
    requires item.key.Name? && Shaped(item.value)
    ensures ItemKeyIsName(item)
    decreases item, 2
  {
    ShapedKeysAreNames(item.value);
  }

  lemma {:induction false} ShapedItemKeysAreNames(items: TreeBranch)
    requires ShapedItems(items)
    ensures ItemKeysAreNames(items)
    decreases items, 0
  {
    if items != [] {
      ShapedTail(items);
      ShapedItemKeyIsName(items[0]);
      ShapedItemKeysAreNames(items[1..]);
    }
  }

  lemma {:induction false} ShapedElemKeysAreNames(elems: seq<Value>)
    requires ShapedElems(elems)
    ensures ElemKeysAreNames(elems)
    decreases elems, 0
  {
    if elems != [] {
      ShapedKeysAreNames(elems[0]);
      assert ShapedElems(elems[1..]);
      ShapedElemKeysAreNames(elems[1..]);
    }
  }

  /** Distinct readable paths are printed differently. */
  lemma PrintedDistinctly(entries: seq<Entry>)
    requires StartWithNames(entries) && PathsReadable(entries) && DistinctPaths(entries)
    ensures DistinctKeys(PrintedNames([], entries))
  {
    hide ReadablePath; hide Print; hide PrintName;
    var flat := PrintedNames([], entries);
    forall i, j | 0 <= i < j < |flat|
      ensures flat[i].key != flat[j].key
    {
      var p, q := entries[i].path, entries[j].path;
      assert ReadablePath(p) && ReadablePath(q);
      PrintNameIsPrint(p);
      PrintNameIsPrint(q);
      if Print(p) == Print(q) {
        PrintIsInjective(p, q);
      }
      assert [] + PrintName(p) == PrintName(p) && [] + PrintName(q) == PrintName(q);
    }
  }

  lemma PrintNameIsPrint(p: seq<Token>)
    requires p != [] && p[0].MapToken?
    ensures PrintName(p) == Print(p)
  {}

  lemma ReadBackAll(entries: seq<Entry>)
    requires StartWithNames(entries) && PathsReadable(entries)
    ensures Reread(entries) == entries
  {
    hide PrintName; hide TokensOf; hide Print;
    forall i | 0 <= i < |entries|
      ensures TokensOf(PrintName(entries[i].path)) == entries[i].path
    {
      ReadBack(entries[i].path);
    }
  }

  lemma ReadBack(path: seq<Token>)
    requires path != [] && path[0].MapToken? && ReadablePath(path)
    ensures TokensOf(PrintName(path)) == path
  {
    hide Print; hide TokensOf; hide HasSeparator;
    PrintNameIsPrint(path);
    assert forall i :: 0 <= i < |path| ==> Readable(path[i], i == |path| - 1);
    ReadablePathsAreRecovered(path);
  }

  lemma LeavesArePlaced(b: TreeBranch)
    requires ShapedItems(b)
    ensures var entries := LeavesOfItems(b);
      && PlaceAll(EMPTY, entries).Some? && DistinctPaths(entries)
      && Convert(PlaceAll(EMPTY, entries).value) == Some(Branch(b))
  {
    var entries := LeavesOfItems(b);
    ItemLeavesMakeTrie(EMPTY, b);
    PlacedExactly(EMPTY, entries);
    var n := PlaceAll(EMPTY, entries).value;
    hide IsTrieOf; hide ShapedItems; hide PlaceAll; hide Convert;
    assert ItemsTrie(n, b);
    ItemsTrieConverts(n, b);
  }

  lemma PlainRoundTrips(b: TreeBranch)
    requires Plain(b)
    ensures Flattened(b) == Some(FlatItems(b, [])) && Unflattened(FlatItems(b, [])) == Some(b)
  {
    var entries, flat := LeavesOfItems(b), FlatItems(b, []);
    ShapedItemKeysAreNames(b);
    FlatItemsArePrinted(b, []);
    ItemLeavesStartWithNames(b);
    LeavesArePlaced(b);
    PrintedDistinctly(entries);
    FlattensExactly(b, []);
    ReadBackAll(entries);
    EntriesOfPrinted(entries);
    ItemsAreEntries(EMPTY, flat);
    FlatItemsAreFlat(b, []);
    hide PlaceAll; hide Convert; hide PlaceItems; hide EntriesOf; hide FlatItems; hide LeavesOfItems; hide Plain;
  }

  // ---------- To the condition ----------

  /** Flat items have string keys and leaves for values. */
  ghost predicate IsFlat(items: TreeBranch) {
    forall item :: item in items ==> item.key.Name? && IsLeaf(item.value)
  }

  lemma {:induction false} FlatIsFlat(v: Value, key: string)
    ensures IsFlat(Flat(v, key))
    decreases v, 1
  {
    match v
    case Branch(items) => FlatItemsAreFlat(items, key + MAP_SEPARATOR);
    case List(elems) => FlatElemsAreFlat(elems, 0, key + LIST_SEPARATOR);
    case _ =>
  }

  lemma {:induction false} FlatItemIsFlat(item: Item, prefix: string)
    ensures IsFlat(FlatItem(item, prefix))
    decreases item, 2
  {
    if item.key.Name? {
      FlatIsFlat(item.value, prefix + item.key.name);
    }
  }

  lemma {:induction false} FlatItemsAreFlat(items: TreeBranch, prefix: string)
    ensures IsFlat(FlatItems(items, prefix))
    decreases items, 0
  {
    if items != [] {
      FlatItemIsFlat(items[0], prefix);
      FlatItemsAreFlat(items[1..], prefix);
    }
  }

  lemma {:induction false} FlatElemsAreFlat(elems: seq<Value>, i: nat, prefix: string)
    ensures IsFlat(FlatElems(elems, i, prefix))
    decreases elems, 0
  {
    if elems != [] {
      FlatIsFlat(elems[0], prefix + Decimal(i));
      FlatElemsAreFlat(elems[1..], if elems[0].Comment? then i else i + 1, prefix);
    }
  }

  lemma {:induction false} EntriesOfFlat(items: TreeBranch)
    requires IsFlat(items)
    ensures |EntriesOf(items)| == |items|
    ensures forall e :: e in EntriesOf(items) ==> IsLeaf(e.value)
    decreases |items|
  {
    hide TokensOf;
    if items != [] {
      EntriesOfFlat(items[1..]);
    }
  }

  lemma {:induction false} AsManyPaths(entries: seq<Entry>)
    requires DistinctPaths(entries)
    ensures |PathsOf(entries)| == |entries|
    decreases |entries|
  {
    if entries == [] {
      assert PathsOf(entries) == {};
    } else {
      var e, rest := entries[0], entries[1..];
      assert entries == [e] + rest;
      assert forall i :: 0 <= i < |rest| ==> rest[i] == entries[i + 1];
      AsManyPaths(rest);
      PathsOfCons(e, rest);
      assert e.path !in PathsOf(rest);
    }
  }

  ghost predicate Positions(path: seq<Token>, low: int, high: int) {
    forall i :: 0 <= i < |path| && path[i].ListToken? ==> low <= path[i].position <= high
  }

  lemma {:induction false} TokensAreBounded(s: string, start: nat, state: State)
    requires start <= |s|
    ensures forall i :: var r := TokensFrom(s, start, state); 0 <= i < |r| && r[i].ListToken? ==>
          r[i].position <= MAX_INT
    decreases |s| - start
  {
    hide HasPrefixAt; hide SeparatorAt; hide StateAt; hide Atoi;
    var p := FindSeparator(s, start);
    SeparatorFacts(s, p);
    if p < |s| {
      TokensAreBounded(s, p + Width(StateAt(s, p)), StateAt(s, p));
    }
  }

  ghost predicate NaturalPositions(entries: seq<Entry>) {
    forall e, i :: e in entries && 0 <= i < |e.path| && e.path[i].ListToken? ==> 0 <= e.path[i].position
  }

  lemma NaturalBehind(t: Token, entries: seq<Entry>)
    requires NaturalPositions(entries) && (t.ListToken? ==> t.position >= 0)
    ensures NaturalPositions(Behind(t, entries))
  {
    var behind := Behind(t, entries);
    forall e, i | e in behind && 0 <= i < |e.path| && e.path[i].ListToken?
      ensures 0 <= e.path[i].position
    {
      var k :| 0 <= k < |behind| && behind[k] == e;
      assert entries[k] in entries;
      if i > 0 {
        assert e.path[i] == entries[k].path[i - 1];
      }
    }
  }

  lemma {:induction false} NaturalLeaves(v: Value)
    ensures NaturalPositions(Leaves(v))
    decreases v, 1
  {
    match v
    case Branch(items) => NaturalItemLeaves(items);
    case List(elems) => NaturalElemLeaves(elems, 0);
    case _ =>
  }

  lemma {:induction false} NaturalLeavesOfItem(item: Item)
    ensures NaturalPositions(LeavesOfItem(item))
    decreases item, 2
  {
    if item.key.Name? {
      NaturalLeaves(item.value);
      NaturalBehind(MapToken(item.key.name), Leaves(item.value));
    }
  }

  lemma {:induction false} NaturalItemLeaves(items: TreeBranch)
    ensures NaturalPositions(LeavesOfItems(items))
    decreases items, 0
  {
    if items != [] {
      NaturalLeavesOfItem(items[0]);
      NaturalItemLeaves(items[1..]);
      hide LeavesOfItem;
    }
  }

  lemma {:induction false} NaturalElemLeaves(elems: seq<Value>, i: nat)
    ensures NaturalPositions(LeavesOfElems(elems, i))
    decreases elems, 0
  {
    if elems != [] {
      NaturalLeaves(elems[0]);
      NaturalBehind(ListToken(i), Leaves(elems[0]));
      NaturalElemLeaves(elems[1..], i + 1);
      hide Leaves; hide Behind;
    }
  }

  /** What tokenize returns can be read back, unless a list position is negative. */
  lemma TokenizedIsReadable(s: string)
    requires forall i :: 0 <= i < |TokensOf(s)| && TokensOf(s)[i].ListToken? ==> 0 <= TokensOf(s)[i].position
    ensures ReadablePath(TokensOf(s))
  {
    TokensAreReadable(s, 0, Normal);
    TokensAreBounded(s, 0, Normal);
    var path := TokensOf(s);
    hide TokensFrom; hide TokensOf; hide HasSeparator;
    assert KeysReadable(path);
    forall i | 0 <= i < |path|
      ensures Readable(path[i], i == |path| - 1)
    {
    }
  }

  /** A path that is read back as a path of the same tree is read back unchanged. */
  lemma RereadIsFixed(entries: seq<Entry>, i: nat)
    requires i < |entries| && StartWithNames(entries) && NaturalPositions(entries)
    requires DistinctPaths(Reread(entries)) && PathsOf(Reread(entries)) == PathsOf(entries)
    ensures ReadablePath(entries[i].path)
  {
    hide TokensOf; hide PrintName; hide ReadablePath;
    var read := Reread(entries)[i].path;
    assert read in PathsOf(Reread(entries));
    var j :| 0 <= j < |entries| && entries[j].path == read;
    assert entries[j] in entries;
    TokenizedIsReadable(PrintName(entries[i].path));
    ReadBack(entries[j].path);
    assert Reread(entries)[j].path == read;
    assert i == j;
  }

  lemma FlatTrieHasLeaves(flat: TreeBranch)
    requires IsFlat(flat) && PlaceAll(EMPTY, EntriesOf(flat)).Some?
    ensures LeafTrie(PlaceAll(EMPTY, EntriesOf(flat)).value)
  {
    var entries := EntriesOf(flat);
    var n := PlaceAll(EMPTY, entries).value;
    EntriesOfFlat(flat);
    PlacedExactly(EMPTY, entries);
    hide PlaceAll; hide EntriesOf;
    forall q | Lookup(n, q).Some?
      ensures IsLeaf(Lookup(n, q).value)
    {
      NothingInEmpty(q);
      assert q in PathsOf(entries);
      var i :| 0 <= i < |entries| && entries[i].path == q;
      assert entries[i] in entries;
    }
  }

  /** The branch that comes back is shaped, and its leaves make up the same trie. */
  lemma SameTrie(b: TreeBranch, flat: TreeBranch)
    requires IsFlat(flat) && Unflattened(flat) == Some(b)
    ensures ShapedItems(b) && PlaceAll(EMPTY, EntriesOf(flat)).Some?
    ensures PlaceAll(EMPTY, LeavesOfItems(b)) == PlaceAll(EMPTY, EntriesOf(flat))
  {
    ItemsAreEntries(EMPTY, flat);
    var entries := EntriesOf(flat);
    var n := PlaceAll(EMPTY, entries).value;
    FlatTrieHasLeaves(flat);
    PlacedRepresents(entries);
    hide PlaceItems; hide EntriesOf; hide LeafTrie; hide Live; hide Represents; hide Convert;
    if n == EMPTY {
      NothingConverts();
    } else {
      ConvertedIsShaped(n);
      LeavesMakeTrie(Branch(b));
      TrieIsUnique(n, PlaceAll(EMPTY, LeavesOfItems(b)).value, Branch(b));
    }
  }

  lemma SamePaths(a: seq<Entry>, b: seq<Entry>)
    requires PlaceAll(EMPTY, a).Some? && PlaceAll(EMPTY, a) == PlaceAll(EMPTY, b)
    ensures PathsOf(a) == PathsOf(b) && DistinctPaths(a) && DistinctPaths(b) && |a| == |b|
  {
    PlacedRepresents(a);
    PlacedRepresents(b);
    PlacedExactly(EMPTY, a);
    PlacedExactly(EMPTY, b);
    hide PathsOf; hide DistinctPaths; hide PlaceAll; hide Live;
    assert PathsOf(a) == PathsOf(b);
    AsManyPaths(a);
    AsManyPaths(b);
  }

  lemma RoundTripIsPlain(b: TreeBranch)
    requires Flattened(b).Some? && Unflattened(Flattened(b).value) == Some(b)
    ensures Plain(b)
  {
    var flat, entries := FlatItems(b, []), LeavesOfItems(b);
    FlattensExactly(b, []);
    FlatItemsAreFlat(b, []);
    SameTrie(b, flat);
    SamePaths(entries, EntriesOf(flat));
    EntriesOfFlat(flat);
    ItemLeavesPrinted(b, []);
    FlatItemsArePrinted(b, []);
    EntriesOfPrinted(entries);
    ItemLeavesStartWithNames(b);
    NaturalItemLeaves(b);
    hide ShapedItems; hide FlatItems; hide LeavesOfItems; hide EntriesOf; hide PlaceAll; hide Unflattened;
    hide Flattened;
    forall i | 0 <= i < |entries|
      ensures ReadablePath(entries[i].path)
    {
      RereadIsFixed(entries, i);
    }
  }

  /** The main result on flattening: unflattening gives back exactly the plain branches. */
  lemma FlattenRoundTripsExactly(b: TreeBranch)
    ensures Flattened(b).Some? && Unflattened(Flattened(b).value) == Some(b) <==> Plain(b)
  {
    hide Plain; hide Flattened; hide Unflattened;
    if Plain(b) {
      PlainRoundTrips(b);
    }
    if Flattened(b).Some? && Unflattened(Flattened(b).value) == Some(b) {
      RoundTripIsPlain(b);
    }
  }
}
