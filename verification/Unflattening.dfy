/**
 unflattenTreeBranch of stores/flatten.go. It fails exactly when a key is no string, two keys name
 the same path, or the paths do not fit into one tree; the order of its items does not matter.
 */
module Unflattening {
  import opened Results
  import opened Trees
  import opened Tokens
  import opened PathSets
  import opened Tries
  import opened Conversion

  function PlaceItems(n: Trie, branch: TreeBranch): Option<Trie>
    decreases |branch|
  {
    if branch == [] then Some(n)
    else
      match branch[0].key
      case Remark(_, _) => PlaceItems(n, branch[1..])
      case Index(_) => None
      case Name(key) =>
        match Place(n, TokensOf(key), branch[0].value)
        case None => None
        case Some(m) => PlaceItems(m, branch[1..])
  }

  /** What the branch unflattens to; nothing when there is an error. */
  ghost function Unflattened(branch: TreeBranch): Option<TreeBranch> {
    match PlaceItems(EMPTY, branch)
    case None => None
    case Some(n) =>
      match Convert(n)
      case Some(Branch(items)) => Some(items)
      case _ => None
  }

  /** The paths and values that the items of a flat branch stand for. */
  function EntriesOf(branch: TreeBranch): seq<Entry>
    decreases |branch|
  {
    if branch == [] then []
    else if branch[0].key.Name? then [Entry(TokensOf(branch[0].key.name), branch[0].value)] + EntriesOf(branch[1..])
    else EntriesOf(branch[1..])
  }

  ghost predicate NoStrangeKey(branch: TreeBranch) {
    forall item :: item in branch ==> !item.key.Index?
  }

  lemma {:induction false} ItemsAreEntries(n: Trie, branch: TreeBranch)
    ensures PlaceItems(n, branch) == if NoStrangeKey(branch) then PlaceAll(n, EntriesOf(branch)) else None
    decreases |branch|
  {
    hide Place; hide TokensOf;
    if branch != [] {
      assert branch == [branch[0]] + branch[1..];
      match branch[0].key
      case Remark(_, _) => ItemsAreEntries(n, branch[1..]);
      case Index(_) =>
      case Name(key) =>
        var e := Entry(TokensOf(key), branch[0].value);
        assert EntriesOf(branch)[0] == e && EntriesOf(branch)[1..] == EntriesOf(branch[1..]);
        match Place(n, e.path, e.value)
        case None =>
        case Some(m) => ItemsAreEntries(m, branch[1..]);
    }
  }

  // ---------- When it succeeds ----------

  lemma {:induction false} EntriesStartWithNames(branch: TreeBranch)
    ensures forall p: seq<Token> :: p in PathsOf(EntriesOf(branch)) ==> p != [] && p[0].MapToken?
    decreases |branch|
  {
    if branch != [] {
      EntriesStartWithNames(branch[1..]);
      if branch[0].key.Name? {
        PathsOfCons(Entry(TokensOf(branch[0].key.name), branch[0].value), EntriesOf(branch[1..]));
      }
    }
  }

  /** The trie of entries holds their paths and nothing else. */
  lemma PlacedRepresents(entries: seq<Entry>)
    requires PlaceAll(EMPTY, entries).Some?
    ensures Represents(PlaceAll(EMPTY, entries).value, PathsOf(entries)) && Live(PlaceAll(EMPTY, entries).value)
  {
    PlacedExactly(EMPTY, entries);
    PlaceAllKeepsLive(EMPTY, entries);
    forall p
      ensures p in PathsOf(entries) <==> Lookup(PlaceAll(EMPTY, entries).value, p).Some?
    {
      NothingInEmpty(p);
    }
  }

  /** The root holds no value and no list, so that what comes out is a branch: the last error of
      the source cannot occur. */
  lemma RootIsBranch(n: Trie, paths: set<Path>)
    requires Represents(n, paths) && Live(n)
    requires forall p: seq<Token> :: p in paths ==> p != [] && p[0].MapToken?
    ensures Convert(n).Some? ==> Convert(n).value.Branch?
  {
    assert [] !in paths;
    forall i
      ensures i !in n.indices
    {
      ChildrenStart(n, paths, ListToken(i));
      assert i in n.indices <==> HasChild(n, ListToken(i));
    }
    assert n.value.None? && n.indices == map[];
    hide ConvertSubkeys; hide ConvertIndices; hide Represents; hide Live;
  }

  /** The exact condition for a branch to unflatten. */
  lemma UnflattensExactly(branch: TreeBranch)
    ensures Unflattened(branch).Some? <==>
            NoStrangeKey(branch) && DistinctPaths(EntriesOf(branch)) && PathsFit(PathsOf(EntriesOf(branch)))
  {
    var entries := EntriesOf(branch);
    ItemsAreEntries(EMPTY, branch);
    PlacedExactly(EMPTY, entries);
    forall i | 0 <= i < |entries|
      ensures Lookup(EMPTY, entries[i].path).None?
    {
      NothingInEmpty(entries[i].path);
    }
    if PlaceAll(EMPTY, entries).Some? {
      PlacedRepresents(entries);
      EntriesStartWithNames(branch);
      RootIsBranch(PlaceAll(EMPTY, entries).value, PathsOf(entries));
      ConvertsExactly(PlaceAll(EMPTY, entries).value, PathsOf(entries));
    }
  }

  // ---------- Order ----------

  lemma {:induction false} EntriesOfConcat(a: TreeBranch, b: TreeBranch)
    ensures EntriesOf(a + b) == EntriesOf(a) + EntriesOf(b)
    decreases |a|
  {
    hide TokensOf;
    if a == [] {
      assert a + b == b;
    } else {
      assert (a + b)[1..] == a[1..] + b;
      EntriesOfConcat(a[1..], b);
    }
  }

  lemma {:induction false} EntriesOfReordered(a: TreeBranch, b: TreeBranch)
    requires multiset(a) == multiset(b)
    ensures multiset(EntriesOf(a)) == multiset(EntriesOf(b))
    decreases |a|
  {
    if a == [] {
      assert multiset(b) == multiset{};
      assert b == [];
    } else {
      assert a[0] in multiset(a);
      var i :| 0 <= i < |b| && b[i] == a[0];
      SameRest(a, b, i);
      var rest := b[..i] + b[i + 1..];
      EntriesOfReordered(a[1..], rest);
      assert a == [a[0]] + a[1..];
      assert b == b[..i] + ([b[i]] + b[i + 1..]);
      EntriesOfConcat([a[0]], a[1..]);
      EntriesOfConcat(b[..i], [b[i]] + b[i + 1..]);
      EntriesOfConcat([b[i]], b[i + 1..]);
      EntriesOfConcat(b[..i], b[i + 1..]);
    }
  }

  /** The same items in another order unflatten to the same tree, or fail as well. */
  lemma UnflattenIgnoresOrder(a: TreeBranch, b: TreeBranch)
    requires multiset(a) == multiset(b)
    ensures Unflattened(a) == Unflattened(b)
  {
    ItemsAreEntries(EMPTY, a);
    ItemsAreEntries(EMPTY, b);
    assert NoStrangeKey(a) <==> NoStrangeKey(b) by {
      assert forall item :: item in a <==> item in multiset(a);
      assert forall item :: item in b <==> item in multiset(b);
    }
    EntriesOfReordered(a, b);
    OrderDoesNotMatter(EMPTY, EntriesOf(a), EntriesOf(b));
  }
}
