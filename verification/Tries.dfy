/**
 Rebuilding a tree from paths (stores/flatten.go): place puts values into a trie, convert turns
 the trie into a tree. The outcome does not depend on the order of the values, and it is a tree
 exactly when the paths fit together.
 */
module Tries {
  import opened Results
  import opened Trees
  import opened Tokens

  datatype Trie = Trie(value: Option<Value>, subkeys: map<string, Trie>, indices: map<int, Trie>)

  const EMPTY := Trie(None, map[], map[])

  datatype Entry = Entry(path: Path, value: Value)

  predicate HasChild(n: Trie, t: Token) {
    match t
    case MapToken(key) => key in n.subkeys
    case ListToken(position) => position in n.indices
  }

  function Child(n: Trie, t: Token): Trie {
    match t
    case MapToken(key) => if key in n.subkeys then n.subkeys[key] else EMPTY
    case ListToken(position) => if position in n.indices then n.indices[position] else EMPTY
  }

  function WithChild(n: Trie, t: Token, c: Trie): Trie {
    match t
    case MapToken(key) => n.(subkeys := n.subkeys[key := c])
    case ListToken(position) => n.(indices := n.indices[position := c])
  }

  /** Walks down the path, making nodes where there are none; a second value at a node is an
      error. */
  function Place(n: Trie, path: Path, v: Value): Option<Trie>
    decreases |path|
  {
    if path == [] then (if n.value.Some? then None else Some(n.(value := Some(v))))
    else
      match Place(Child(n, path[0]), path[1..], v)
      case None => None
      case Some(c) => Some(WithChild(n, path[0], c))
  }

  function PlaceAll(n: Trie, entries: seq<Entry>): Option<Trie>
    decreases |entries|
  {
    if entries == [] then Some(n)
    else
      match Place(n, entries[0].path, entries[0].value)
      case None => None
      case Some(m) => PlaceAll(m, entries[1..])
  }

  // ---------- The order of the values does not matter ----------

  lemma {:induction false} PlaceTwiceCommutes(n: Trie, a: Entry, b: Entry)
    ensures PlaceAll(n, [a, b]) == PlaceAll(n, [b, a])
    decreases |a.path| + |b.path|
  {
    TwoSteps(n, a, b);
    TwoSteps(n, b, a);
    if a.path != [] && b.path != [] && a.path[0] == b.path[0] {
      var t := a.path[0];
      PlaceTwiceCommutes(Child(n, t), Entry(a.path[1..], a.value), Entry(b.path[1..], b.value));
      SameChild(n, t, a, b);
      SameChild(n, t, b, a);
    } else if a.path != [] && b.path != [] {
      var t, u := a.path[0], b.path[0];
      forall c, d
        ensures Child(WithChild(n, t, c), u) == Child(n, u) && Child(WithChild(n, u, d), t) == Child(n, t)
        ensures WithChild(WithChild(n, t, c), u, d) == WithChild(WithChild(n, u, d), t, c)
      {
        OtherChild(n, t, u, c, d);
      }
    }
  }

  /** Place a, then b. */
  function Twice(n: Trie, a: Entry, b: Entry): Option<Trie> {
    match Place(n, a.path, a.value)
    case None => None
    case Some(m) => Place(m, b.path, b.value)
  }

  lemma TwoSteps(n: Trie, a: Entry, b: Entry)
    ensures PlaceAll(n, [a, b]) == Twice(n, a, b)
  {
    assert [a, b][1..] == [b] && [b][1..] == [];
    hide Place;
    match Place(n, a.path, a.value)
    case None =>
    case Some(m) =>
      match Place(m, b.path, b.value)
      case None =>
      case Some(k) => assert PlaceAll(k, []) == Some(k);
  }

  lemma SameChild(n: Trie, t: Token, a: Entry, b: Entry)
    requires a.path != [] && b.path != [] && a.path[0] == t == b.path[0]
    ensures Twice(n, a, b) ==
            match PlaceAll(Child(n, t), [Entry(a.path[1..], a.value), Entry(b.path[1..], b.value)])
            case None => None
            case Some(c) => Some(WithChild(n, t, c))
  {
    TwoSteps(Child(n, t), Entry(a.path[1..], a.value), Entry(b.path[1..], b.value));
    forall c, d
      ensures Child(WithChild(n, t, c), t) == c && WithChild(WithChild(n, t, c), t, d) == WithChild(n, t, d)
    {
      OverwrittenChild(n, t, c, d);
    }
    hide PlaceAll;
  }

  lemma OverwrittenChild(n: Trie, t: Token, c: Trie, d: Trie)
    ensures Child(WithChild(n, t, c), t) == c
    ensures WithChild(WithChild(n, t, c), t, d) == WithChild(n, t, d)
  {
    match t
    case MapToken(key) => assert n.subkeys[key := c][key := d] == n.subkeys[key := d];
    case ListToken(p) => assert n.indices[p := c][p := d] == n.indices[p := d];
  }

  lemma OtherChild(n: Trie, t: Token, u: Token, c: Trie, d: Trie)
    requires t != u
    ensures Child(WithChild(n, t, c), u) == Child(n, u)
    ensures Child(WithChild(n, u, d), t) == Child(n, t)
    ensures WithChild(WithChild(n, t, c), u, d) == WithChild(WithChild(n, u, d), t, c)
  {
    match (t, u)
    case (MapToken(k), MapToken(l)) => assert n.subkeys[k := c][l := d] == n.subkeys[l := d][k := c];
    case (ListToken(k), ListToken(l)) => assert n.indices[k := c][l := d] == n.indices[l := d][k := c];
    case _ =>
  }

  lemma {:induction false} PlaceAllConcat(n: Trie, a: seq<Entry>, b: seq<Entry>)
    ensures PlaceAll(n, a + b) ==
            match PlaceAll(n, a)
            case None => None
            case Some(m) => PlaceAll(m, b)
    decreases |a|
  {
    hide Place;
    if a == [] {
      assert a + b == b;
    } else {
      assert (a + b)[1..] == a[1..] + b;
      match Place(n, a[0].path, a[0].value)
      case None =>
      case Some(m) => PlaceAllConcat(m, a[1..], b);
    }
  }

  /** Any entry can be placed first. */
  lemma {:induction false} MoveToFront(n: Trie, entries: seq<Entry>, i: nat)
    requires i < |entries|
    ensures PlaceAll(n, entries) == PlaceAll(n, [entries[i]] + entries[..i] + entries[i + 1..])
    decreases i
  {
    var e := entries[i];
    if i == 0 {
      assert entries == [e] + entries[..0] + entries[1..];
    } else {
      var f := entries[0];
      var rest := entries[1..i] + entries[i + 1..];
      assert entries[1..][..i - 1] == entries[1..i] && entries[1..][i..] == entries[i + 1..];
      calc {
        PlaceAll(n, entries);
        { assert entries == [f] + entries[1..]; PlaceAllConcat(n, [f], entries[1..]); }
        match PlaceAll(n, [f]) case None => None case Some(m) => PlaceAll(m, entries[1..]);
        { match PlaceAll(n, [f]) case None => case Some(m) => {
            MoveToFront(m, entries[1..], i - 1);
            assert [e] + entries[1..i] + entries[i + 1..] == [e] + rest;
          } }
        match PlaceAll(n, [f]) case None => None case Some(m) => PlaceAll(m, [e] + rest);
        { PlaceAllConcat(n, [f], [e] + rest); assert [f] + ([e] + rest) == [f, e] + rest; }
        PlaceAll(n, [f, e] + rest);
        { PlaceAllConcat(n, [f, e], rest); PlaceAllConcat(n, [e, f], rest); PlaceTwiceCommutes(n, f, e); }
        PlaceAll(n, [e, f] + rest);
        { assert [e, f] + rest == [e] + entries[..i] + entries[i + 1..]; }
        PlaceAll(n, [e] + entries[..i] + entries[i + 1..]);
      }
    }
  }

  lemma SameRest<T>(a: seq<T>, b: seq<T>, i: nat)
    requires multiset(a) == multiset(b) && i < |b| && a != [] && b[i] == a[0]
    ensures multiset(a[1..]) == multiset(b[..i] + b[i + 1..])
  {
    assert a == [a[0]] + a[1..];
    assert b == b[..i] + [b[i]] + b[i + 1..];
    assert multiset(a[1..]) == multiset(a) - multiset{a[0]};
    assert multiset(b[..i] + b[i + 1..]) == multiset(b) - multiset{b[i]};
  }

  /** Placing the same entries in another order gives the same trie, or the same failure. */
  lemma {:induction false} OrderDoesNotMatter(n: Trie, a: seq<Entry>, b: seq<Entry>)
    requires multiset(a) == multiset(b)
    ensures PlaceAll(n, a) == PlaceAll(n, b)
    decreases |a|
  {
    hide Place;
    if a == [] {
      assert multiset(b) == multiset{};
      assert b == [];
    } else {
      assert a[0] in multiset(a);
      var i :| 0 <= i < |b| && b[i] == a[0];
      var rest := b[..i] + b[i + 1..];
      assert a == [a[0]] + a[1..];
      SameRest(a, b, i);
      MoveToFront(n, b, i);
      assert [b[i]] + b[..i] + b[i + 1..] == [a[0]] + rest;
      PlaceAllConcat(n, [a[0]], a[1..]);
      PlaceAllConcat(n, [a[0]], rest);
      match PlaceAll(n, [a[0]])
      case None =>
      case Some(m) => OrderDoesNotMatter(m, a[1..], rest);
    }
  }
}
