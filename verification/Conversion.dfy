/**
 convert of stores/flatten.go: when a trie is a tree, told from the paths in it.
 */
module Conversion {
  import opened Results
  import opened Trees
  import opened Tokens
  import opened PathSets
  import opened Tries
  import Strings

  function Lookup(n: Trie, p: Path): Option<Value>
    decreases |p|
  {
    if p == [] then n.value else Lookup(Child(n, p[0]), p[1..])
  }

  lemma {:induction false} NothingInEmpty(p: Path)
    ensures Lookup(EMPTY, p) == None
  {
    if p != [] {
      NothingInEmpty(p[1..]);
    }
  }

  /** Placing fails exactly at an occupied path, and otherwise adds one path. */
  lemma {:induction false} PlaceAddsOnePath(n: Trie, path: Path, v: Value)
    ensures Place(n, path, v).Some? <==> Lookup(n, path).None?
    ensures Place(n, path, v).Some? ==>
      forall q :: Lookup(Place(n, path, v).value, q) == if q == path then Some(v) else Lookup(n, q)
    decreases |path|
  {
    if path != [] {
      var t := path[0];
      PlaceAddsOnePath(Child(n, t), path[1..], v);
      match Place(Child(n, t), path[1..], v)
      case None =>
      case Some(c) =>
        forall q
          ensures Lookup(WithChild(n, t, c), q) == if q == path then Some(v) else Lookup(n, q)
        {
          if q != [] {
            if q[0] == t {
              OverwrittenChild(n, t, c, c);
              assert q == path <==> q[1..] == path[1..] by {
                assert q == [t] + q[1..] && path == [t] + path[1..];
              }
            } else {
              OtherChild(n, t, q[0], c, c);
            }
          }
        }
    }
  }

  /** The paths of the entries, as a set. */
  function PathsOf(entries: seq<Entry>): set<Path> {
    set i | 0 <= i < |entries| :: entries[i].path
  }

  predicate DistinctPaths(entries: seq<Entry>) {
    forall i, j :: 0 <= i < j < |entries| ==> entries[i].path != entries[j].path
  }

  /** Entries can be placed exactly when no path repeats; then the trie holds these values. */
  lemma {:induction false} PlacedExactly(n: Trie, entries: seq<Entry>)
    ensures PlaceAll(n, entries).Some? <==>
            DistinctPaths(entries) && forall i :: 0 <= i < |entries| ==> Lookup(n, entries[i].path).None?
    ensures PlaceAll(n, entries).Some? ==>
            && (forall i :: 0 <= i < |entries| ==>
                  Lookup(PlaceAll(n, entries).value, entries[i].path) == Some(entries[i].value))
            && (forall q :: q !in PathsOf(entries) ==> Lookup(PlaceAll(n, entries).value, q) == Lookup(n, q))
    decreases |entries|
  {
    if entries != [] {
      var e, rest := entries[0], entries[1..];
      PlaceAddsOnePath(n, e.path, e.value);
      hide Lookup; hide Place;
      assert forall i :: 0 <= i < |rest| ==> rest[i] == entries[i + 1];
      assert forall i :: 1 <= i < |entries| ==> entries[i] == rest[i - 1];
      match Place(n, e.path, e.value)
      case None =>
      case Some(m) =>
        PlacedExactly(m, rest);
        PathsOfCons(e, rest);
        assert entries == [e] + rest;
        hide PlaceAll;
        if DistinctPaths(rest) {
          assert DistinctPaths(entries) <==> forall i :: 0 <= i < |rest| ==> rest[i].path != e.path;
        }
    }
  }

  lemma PathsOfCons(e: Entry, rest: seq<Entry>)
    ensures PathsOf([e] + rest) == {e.path} + PathsOf(rest)
  {
    var all := [e] + rest;
    forall p
      ensures p in PathsOf(all) <==> p in {e.path} + PathsOf(rest)
    {
      if p in PathsOf(all) {
        var i :| 0 <= i < |all| && all[i].path == p;
        assert i > 0 ==> all[i] == rest[i - 1];
      }
      if p in PathsOf(rest) {
        var i :| 0 <= i < |rest| && rest[i].path == p;
        assert all[i + 1] == rest[i];
      }
      assert all[0] == e;
    }
  }

  // ---------- Tries without dead branches ----------

  ghost predicate Reaches(n: Trie) {
    exists p :: Lookup(n, p).Some?
  }

  /** Below every node there is a value. */
  ghost predicate Live(n: Trie) {
    && (forall key :: key in n.subkeys ==> Reaches(n.subkeys[key]) && Live(n.subkeys[key]))
    && (forall i :: i in n.indices ==> Reaches(n.indices[i]) && Live(n.indices[i]))
  }

  lemma {:induction false} PlaceKeepsLive(n: Trie, path: Path, v: Value)
    requires Live(n) && Place(n, path, v).Some?
    ensures Live(Place(n, path, v).value) && Reaches(Place(n, path, v).value)
    decreases |path|
  {
    PlaceAddsOnePath(n, path, v);
    assert Lookup(Place(n, path, v).value, path).Some?;
    if path != [] {
      PlaceKeepsLive(Child(n, path[0]), path[1..], v);
    }
  }

  lemma {:induction false} PlaceAllKeepsLive(n: Trie, entries: seq<Entry>)
    requires Live(n) && PlaceAll(n, entries).Some?
    ensures Live(PlaceAll(n, entries).value)
    decreases |entries|
  {
    if entries != [] {
      PlaceKeepsLive(n, entries[0].path, entries[0].value);
      PlaceAllKeepsLive(Place(n, entries[0].path, entries[0].value).value, entries[1..]);
    }
  }

  ghost predicate Represents(n: Trie, paths: set<Path>) {
    forall p :: p in paths <==> Lookup(n, p).Some?
  }

  lemma ChildRepresents(n: Trie, paths: set<Path>, t: Token)
    requires Represents(n, paths)
    ensures Represents(Child(n, t), Sub(paths, t))
  {
    forall p
      ensures p in Sub(paths, t) <==> Lookup(Child(n, t), p).Some?
    {
      SubContains(paths, t, p);
      var q := [t] + p;
      assert q[1..] == p && Lookup(n, q) == Lookup(Child(n, t), p);
    }
  }

  lemma ChildrenStart(n: Trie, paths: set<Path>, t: Token)
    requires Represents(n, paths) && Live(n)
    ensures HasChild(n, t) <==> Starts(paths, t)
  {
    if HasChild(n, t) {
      assert Reaches(Child(n, t));
      var p :| Lookup(Child(n, t), p).Some?;
      var q := [t] + p;
      assert q[1..] == p && Lookup(n, q).Some?;
    }
    if Starts(paths, t) {
      var p :| p in paths && p != [] && p[0] == t;
      NothingInEmpty(p[1..]);
      assert Lookup(n, p).Some?;
    }
  }

  // ---------- Conversion ----------

  function B2i(value: bool): int {
    if value then 1 else 0
  }

  ghost function Convert(n: Trie): Option<Value>
    decreases n, 1, 0
  {
    var kinds := B2i(n.value.Some?) + B2i(|n.subkeys| > 0) + B2i(|n.indices| > 0);
    if kinds > 1 then None
    else if kinds == 0 then Some(Branch([]))
    else if n.value.Some? then n.value
    else if |n.subkeys| > 0 then
      match ConvertSubkeys(n, Strings.Sorted(n.subkeys.Keys))
      case None => None
      case Some(items) => Some(Branch(items))
    else if n.indices.Keys != UpTo(|n.indices|) then None
    else
      match ConvertIndices(n, |n.indices|)
      case None => None
      case Some(elems) => Some(List(elems))
  }

  ghost function ConvertSubkeys(n: Trie, keys: seq<string>): (r: Option<TreeBranch>)
    requires forall i :: 0 <= i < |keys| ==> keys[i] in n.subkeys
    ensures r.Some? ==> |r.value| == |keys|
    decreases n, 0, |keys|
  {
    if keys == [] then Some([])
    else
      var last := keys[|keys| - 1];
      match (ConvertSubkeys(n, keys[..|keys| - 1]), Convert(n.subkeys[last]))
      case (Some(items), Some(v)) => Some(items + [Item(Name(last), v)])
      case _ => None
  }

  ghost function ConvertIndices(n: Trie, count: nat): (r: Option<seq<Value>>)
    requires forall i :: 0 <= i < count ==> i in n.indices
    ensures r.Some? ==> |r.value| == count
    decreases n, 0, count
  {
    if count == 0 then Some([])
    else
      match (ConvertIndices(n, count - 1), Convert(n.indices[count - 1]))
      case (Some(elems), Some(v)) => Some(elems + [v])
      case _ => None
  }

  lemma {:induction false} SubkeysConvert(n: Trie, keys: seq<string>)
    requires forall i :: 0 <= i < |keys| ==> keys[i] in n.subkeys
    ensures ConvertSubkeys(n, keys).Some? <==> forall i :: 0 <= i < |keys| ==> Convert(n.subkeys[keys[i]]).Some?
    decreases |keys|
  {
    hide Convert;
    if keys != [] {
      var init := keys[..|keys| - 1];
      SubkeysConvert(n, init);
      assert forall i :: 0 <= i < |init| ==> init[i] == keys[i];
    }
  }

  lemma {:induction false} IndicesConvert(n: Trie, count: nat)
    requires forall i :: 0 <= i < count ==> i in n.indices
    ensures ConvertIndices(n, count).Some? <==> forall i :: 0 <= i < count ==> Convert(n.indices[i]).Some?
  {
    hide Convert;
    if count > 0 {
      IndicesConvert(n, count - 1);
    }
  }

  ghost predicate ChildrenConvert(n: Trie) {
    forall t :: HasChild(n, t) ==> Convert(Child(n, t)).Some?
  }

  lemma ChildrenAreMapped(n: Trie)
    ensures ChildrenConvert(n) <==>
            && (forall key :: key in n.subkeys ==> Convert(n.subkeys[key]).Some?)
            && (forall i :: i in n.indices ==> Convert(n.indices[i]).Some?)
  {
    hide Convert;
    if ChildrenConvert(n) {
      forall key | key in n.subkeys
        ensures Convert(n.subkeys[key]).Some?
      {
        assert HasChild(n, MapToken(key)) && Child(n, MapToken(key)) == n.subkeys[key];
      }
      forall i | i in n.indices
        ensures Convert(n.indices[i]).Some?
      {
        assert HasChild(n, ListToken(i)) && Child(n, ListToken(i)) == n.indices[i];
      }
    }
  }

  /** A trie converts exactly when its root is of one kind and all its children convert. */
  lemma ConvertsLocally(n: Trie)
    ensures Convert(n).Some? <==> RootConverts(n) && ChildrenConvert(n)
  {
    ChildrenAreMapped(n);
    hide ChildrenConvert; hide ConvertSubkeys; hide ConvertIndices; hide Strings.Sorted; hide UpTo;
    if RootConverts(n) {
      if |n.subkeys| > 0 {
        SubkeysConvert(n, Strings.Sorted(n.subkeys.Keys));
      } else if |n.indices| > 0 {
        IndicesConvert(n, |n.indices|);
      }
    }
  }

  ghost predicate RootConverts(n: Trie) {
    && !(n.value.Some? && (|n.subkeys| > 0 || |n.indices| > 0))
    && !(|n.subkeys| > 0 && |n.indices| > 0)
    && (|n.indices| > 0 ==> n.indices.Keys == UpTo(|n.indices|))
  }

  lemma RootConvertsExactly(n: Trie, paths: set<Path>)
    requires Represents(n, paths) && Live(n)
    ensures RootConverts(n) <==> RootFits(paths)
  {
    forall key
      ensures key in n.subkeys.Keys <==> Starts(paths, MapToken(key))
    {
      ChildrenStart(n, paths, MapToken(key));
    }
    forall i
      ensures i in n.indices.Keys <==> Starts(paths, ListToken(i))
    {
      ChildrenStart(n, paths, ListToken(i));
    }
    assert [] in paths <==> n.value.Some?;
    if [] in paths {
      OnlyTheRoot(paths);
    }
    hide Live; hide Represents; hide Starts; hide Lookup;
    if RootConverts(n) {
      RootFitsFromKinds(n, paths);
    }
    if RootFits(paths) {
      KindsFromRootFits(n, paths);
    }
  }

  /** The first tokens of the paths are the children of the node. */
  ghost predicate SameStarts(n: Trie, paths: set<Path>) {
    && (forall key :: key in n.subkeys.Keys <==> Starts(paths, MapToken(key)))
    && (forall i :: i in n.indices.Keys <==> Starts(paths, ListToken(i)))
    && ([] in paths <==> n.value.Some?)
    && ([] in paths ==> (paths == {[]} <==> forall t :: !Starts(paths, t)))
  }

  lemma RootFitsFromKinds(n: Trie, paths: set<Path>)
    requires SameStarts(n, paths) && RootConverts(n)
    ensures RootFits(paths)
  {
    hide Starts;
    forall t | Starts(paths, t)
      ensures t.MapToken? ==> |n.subkeys.Keys| > 0
      ensures t.ListToken? ==> |n.indices.Keys| > 0
    {
      match t
      case MapToken(key) => assert key in n.subkeys.Keys;
      case ListToken(i) => assert i in n.indices.Keys;
    }
  }

  lemma KindsFromRootFits(n: Trie, paths: set<Path>)
    requires SameStarts(n, paths) && RootFits(paths)
    ensures RootConverts(n)
  {
    hide Starts;
    var keys, positions := n.subkeys.Keys, n.indices.Keys;
    assert positions == UpTo(|positions|) by {
      assert forall i :: i in positions ==> i >= 0;
      assert forall i, j :: i in positions && 0 <= j < i ==> j in positions;
      hide SameStarts; hide RootFits; hide UpTo;
      NoGaps(positions);
    }
    if |keys| > 0 {
      var key :| key in keys;
      assert Starts(paths, MapToken(key));
    }
    if |positions| > 0 {
      assert 0 in positions;
      assert Starts(paths, ListToken(0));
    }
    hide UpTo;
  }

  lemma OnlyTheRoot(paths: set<Path>)
    requires [] in paths
    ensures paths == {[]} <==> forall t :: !Starts(paths, t)
  {
    if p :| p in paths && p != [] {
      assert Starts(paths, p[0]);
    } else {
      assert paths == {[]};
    }
  }

  /** The main result on conversion: a live trie is a tree exactly when its paths fit. */
  lemma {:induction false} ConvertsExactly(n: Trie, paths: set<Path>)
    requires Represents(n, paths) && Live(n)
    ensures Convert(n).Some? <==> PathsFit(paths)
    decreases n
  {
    FitIsRecursive(paths);
    ConvertsLocally(n);
    RootConvertsExactly(n, paths);
    forall t | HasChild(n, t)
      ensures Convert(Child(n, t)).Some? <==> PathsFit(Sub(paths, t))
    {
      ChildRepresents(n, paths, t);
      ConvertsExactly(Child(n, t), Sub(paths, t));
    }
    forall t {
      ChildrenStart(n, paths, t);
    }
  }
}
