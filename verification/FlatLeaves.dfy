/**
 The leaves of a tree with their paths, and flattening (stores/flatten.go) as the printing of these
 paths.
 */
module FlatLeaves {
  import opened Trees
  import opened Strings
  import opened Tokens
  import opened Tries
  import opened Flattening

  // ---------- Leaves and their paths ----------

  function Behind(t: Token, entries: seq<Entry>): (r: seq<Entry>)
    ensures |r| == |entries|
  {
    seq(|entries|, i requires 0 <= i < |entries| => Entry([t] + entries[i].path, entries[i].value))
  }

  function Leaves(v: Value): seq<Entry>
    decreases v, 1
  {
    match v
    case Branch(items) => LeavesOfItems(items)
    case List(elems) => LeavesOfElems(elems, 0)
    case _ => [Entry([], v)]
  }

  function LeavesOfItem(item: Item): seq<Entry>
    decreases item, 2
  {
    if item.key.Name? then Behind(MapToken(item.key.name), Leaves(item.value)) else []
  }

  function LeavesOfItems(items: TreeBranch): seq<Entry>
    decreases items, 0
  {
    if items == [] then [] else LeavesOfItem(items[0]) + LeavesOfItems(items[1..])
  }

  function LeavesOfElems(elems: seq<Value>, i: nat): seq<Entry>
    decreases elems, 0
  {
    if elems == [] then [] else Behind(ListToken(i), Leaves(elems[0])) + LeavesOfElems(elems[1..], i + 1)
  }

  // ---------- The condition ----------

  predicate IsLeaf(v: Value) {
    !v.Branch? && !v.List?
  }

  function Names(items: TreeBranch): seq<string>
    requires forall i :: 0 <= i < |items| ==> items[i].key.Name?
  {
    seq(|items|, i requires 0 <= i < |items| => items[i].key.name)
  }

  /** String keys in strict order, and nothing empty below the top. */
  ghost predicate Shaped(v: Value)
    decreases v, 1
  {
    match v
    case Branch(items) => items != [] && ShapedItems(items)
    case List(elems) => elems != [] && ShapedElems(elems)
    case _ => true
  }

  ghost predicate ShapedItems(items: TreeBranch)
    decreases items, 0
  {
    && (forall i :: 0 <= i < |items| ==> items[i].key.Name?)
    && StrictlySorted(Names(items))
    && (forall i :: 0 <= i < |items| ==> ShapedItem(items[i]))
  }

  ghost predicate ShapedItem(item: Item)
    decreases item, 2
  {
    Shaped(item.value)
  }

  ghost predicate ShapedElems(elems: seq<Value>)
    decreases elems, 0
  {
    forall i :: 0 <= i < |elems| ==> Shaped(elems[i])
  }

  predicate NoListComments(v: Value)
    decreases v, 1
  {
    match v
    case Branch(items) => NoListCommentsInItems(items)
    case List(elems) => NoListCommentsInElems(elems)
    case _ => true
  }

  predicate NoListCommentsInItem(item: Item)
    decreases item, 2
  {
    item.key.Name? ==> NoListComments(item.value)
  }

  predicate NoListCommentsInItems(items: TreeBranch)
    decreases items, 0
  {
    items == [] || (NoListCommentsInItem(items[0]) && NoListCommentsInItems(items[1..]))
  }

  predicate NoListCommentsInElems(elems: seq<Value>)
    decreases elems, 0
  {
    elems == [] || (!elems[0].Comment? && NoListComments(elems[0]) && NoListCommentsInElems(elems[1..]))
  }

  ghost predicate PathsReadable(entries: seq<Entry>) {
    forall i :: 0 <= i < |entries| ==> ReadablePath(entries[i].path)
  }

  /** What the round trip needs. */
  ghost predicate Plain(branch: TreeBranch) {
    ShapedItems(branch) && NoListCommentsInItems(branch) && PathsReadable(LeavesOfItems(branch))
  }

  // ---------- Flattening prints the paths of the leaves ----------

  function Printed(key: string, entries: seq<Entry>): (r: TreeBranch)
    ensures |r| == |entries|
  {
    seq(|entries|, i requires 0 <= i < |entries| => Item(Name(key + PrintRest(entries[i].path)), entries[i].value))
  }

  /** The printed path where it starts with a key. */
  function PrintName(path: seq<Token>): string {
    if path != [] && path[0].MapToken? then Print(path) else []
  }

  function PrintedNames(prefix: string, entries: seq<Entry>): (r: TreeBranch)
    ensures |r| == |entries|
  {
    seq(|entries|, i requires 0 <= i < |entries| => Item(Name(prefix + PrintName(entries[i].path)), entries[i].value))
  }

  lemma Associative(a: string, b: string, c: string)
    ensures a + b + c == a + (b + c)
  {}

  lemma PrintNameOf(key: string, rest: seq<Token>)
    ensures PrintName([MapToken(key)] + rest) == key + PrintRest(rest)
  {
    var path := [MapToken(key)] + rest;
    assert path[1..] == rest && path[0] == MapToken(key);
    hide PrintRest;
  }

  lemma PrintRestOf(t: Token, rest: seq<Token>)
    ensures PrintRest([t] + rest) == PrintToken(t) + PrintRest(rest)
  {
    var path := [t] + rest;
    assert path[1..] == rest && path[0] == t;
    hide PrintToken;
  }

  lemma PrintedBehindName(prefix: string, key: string, entries: seq<Entry>)
    ensures PrintedNames(prefix, Behind(MapToken(key), entries)) == Printed(prefix + key, entries)
  {
    hide PrintName; hide PrintRest;
    forall i | 0 <= i < |entries|
      ensures prefix + PrintName([MapToken(key)] + entries[i].path) == prefix + key + PrintRest(entries[i].path)
    {
      PrintNameOf(key, entries[i].path);
      Associative(prefix, key, PrintRest(entries[i].path));
    }
  }

  lemma PrintedBehindIndex(key: string, n: nat, entries: seq<Entry>)
    ensures Printed(key, Behind(ListToken(n), entries)) == Printed(key + LIST_SEPARATOR + Decimal(n), entries)
  {
    var t, sep := ListToken(n), LIST_SEPARATOR;
    assert PrintToken(t) == sep + Decimal(n);
    Associative(key, sep, Decimal(n));
    hide PrintToken; hide PrintRest; hide Decimal;
    forall i | 0 <= i < |entries|
      ensures key + PrintRest([t] + entries[i].path) == key + PrintToken(t) + PrintRest(entries[i].path)
    {
      PrintRestOf(t, entries[i].path);
      Associative(key, PrintToken(t), PrintRest(entries[i].path));
    }
  }

  ghost predicate StartWithNames(entries: seq<Entry>) {
    forall i :: 0 <= i < |entries| ==> entries[i].path != [] && entries[i].path[0].MapToken?
  }

  lemma {:induction false} ItemLeavesStartWithNames(items: TreeBranch)
    ensures StartWithNames(LeavesOfItems(items))
    decreases |items|
  {
    hide Leaves;
    if items != [] {
      ItemLeavesStartWithNames(items[1..]);
    }
  }

  lemma NameBehindKey(key: string, path: seq<Token>)
    requires path != [] && path[0].MapToken?
    ensures key + MAP_SEPARATOR + PrintName(path) == key + PrintRest(path)
  {
    var sep, rest := MAP_SEPARATOR, path[1..];
    assert PrintToken(path[0]) == sep + path[0].key;
    PrintRestOf(path[0], rest);
    PrintNameOf(path[0].key, rest);
    assert path == [path[0]] + rest;
    Associative(sep, path[0].key, PrintRest(rest));
    Associative(key, sep, path[0].key + PrintRest(rest));
    hide PrintToken; hide PrintRest; hide PrintName;
  }

  lemma NamesBehindKey(key: string, entries: seq<Entry>)
    requires StartWithNames(entries)
    ensures PrintedNames(key + MAP_SEPARATOR, entries) == Printed(key, entries)
  {
    hide PrintRest; hide PrintName;
    forall i | 0 <= i < |entries|
      ensures key + MAP_SEPARATOR + PrintName(entries[i].path) == key + PrintRest(entries[i].path)
    {
      NameBehindKey(key, entries[i].path);
    }
  }

  lemma PrintedConcat(key: string, a: seq<Entry>, b: seq<Entry>)
    ensures Printed(key, a + b) == Printed(key, a) + Printed(key, b)
    ensures PrintedNames(key, a + b) == PrintedNames(key, a) + PrintedNames(key, b)
  {}

  lemma {:induction false} FlatIsPrinted(v: Value, key: string)
    requires NoListComments(v)
    ensures Flat(v, key) == Printed(key, Leaves(v))
    decreases v, 1
  {
    match v
    case Branch(items) =>
      FlatItemsArePrinted(items, key + MAP_SEPARATOR);
      ItemLeavesStartWithNames(items);
      NamesBehindKey(key, LeavesOfItems(items));
    case List(elems) =>
      FlatElemsArePrinted(elems, 0, key);
    case _ =>
      assert key + [] == key;
  }

  lemma {:induction false} FlatItemIsPrinted(item: Item, prefix: string)
    requires NoListCommentsInItem(item)
    ensures FlatItem(item, prefix) == PrintedNames(prefix, LeavesOfItem(item))
    decreases item, 2
  {
    if item.key.Name? {
      FlatIsPrinted(item.value, prefix + item.key.name);
      PrintedBehindName(prefix, item.key.name, Leaves(item.value));
    }
  }

  lemma {:induction false} FlatItemsArePrinted(items: TreeBranch, prefix: string)
    requires NoListCommentsInItems(items)
    ensures FlatItems(items, prefix) == PrintedNames(prefix, LeavesOfItems(items))
    decreases items, 0
  {
    if items != [] {
      FlatItemIsPrinted(items[0], prefix);
      FlatItemsArePrinted(items[1..], prefix);
      PrintedConcat(prefix, LeavesOfItem(items[0]), LeavesOfItems(items[1..]));
    }
  }

  lemma {:induction false} FlatElemsArePrinted(elems: seq<Value>, i: nat, key: string)
    requires NoListCommentsInElems(elems)
    ensures FlatElems(elems, i, key + LIST_SEPARATOR) == Printed(key, LeavesOfElems(elems, i))
    decreases elems, 0
  {
    if elems != [] {
      FlatIsPrinted(elems[0], key + LIST_SEPARATOR + Decimal(i));
      PrintedBehindIndex(key, i, Leaves(elems[0]));
      FlatElemsArePrinted(elems[1..], i + 1, key);
      PrintedConcat(key, Behind(ListToken(i), Leaves(elems[0])), LeavesOfElems(elems[1..], i + 1));
    }
  }

  /** Without comments in lists every leaf is printed, and otherwise some are missing. */
  lemma {:induction false} LeavesPrinted(v: Value, key: string)
    ensures |Flat(v, key)| <= |Leaves(v)|
    ensures |Flat(v, key)| == |Leaves(v)| ==> NoListComments(v)
    decreases v, 1
  {
    match v
    case Branch(items) => ItemLeavesPrinted(items, key + MAP_SEPARATOR);
    case List(elems) => ElemLeavesPrinted(elems, 0, 0, key + LIST_SEPARATOR);
    case _ =>
  }

  lemma {:induction false} OneItemLeavesPrinted(item: Item, prefix: string)
    ensures |FlatItem(item, prefix)| <= |LeavesOfItem(item)|
    ensures |FlatItem(item, prefix)| == |LeavesOfItem(item)| ==> NoListCommentsInItem(item)
    decreases item, 2
  {
    if item.key.Name? {
      LeavesPrinted(item.value, prefix + item.key.name);
    }
  }

  lemma {:induction false} ItemLeavesPrinted(items: TreeBranch, prefix: string)
    ensures |FlatItems(items, prefix)| <= |LeavesOfItems(items)|
    ensures |FlatItems(items, prefix)| == |LeavesOfItems(items)| ==> NoListCommentsInItems(items)
    decreases items, 0
  {
    if items != [] {
      OneItemLeavesPrinted(items[0], prefix);
      ItemLeavesPrinted(items[1..], prefix);
    }
  }

  lemma {:induction false} ElemLeavesPrinted(elems: seq<Value>, i: nat, j: nat, prefix: string)
    ensures |FlatElems(elems, i, prefix)| <= |LeavesOfElems(elems, j)|
    ensures |FlatElems(elems, i, prefix)| == |LeavesOfElems(elems, j)| ==> NoListCommentsInElems(elems)
    decreases elems, 0
  {
    if elems != [] {
      LeavesPrinted(elems[0], prefix + Decimal(i));
      ElemLeavesPrinted(elems[1..], if elems[0].Comment? then i else i + 1, j + 1, prefix);
    }
  }
}
