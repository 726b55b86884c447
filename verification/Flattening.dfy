/**
 flattenTreeBranch of stores/flatten.go: one item for every leaf, keyed by the printed path to it.
 It fails exactly when a key is no string or two leaves are printed alike.
 */
module Flattening {
  import opened Results
  import opened Trees
  import opened Tokens

  // ---------- The walk of the source, on values ----------

  predicate Has(destination: TreeBranch, key: string) {
    exists i :: 0 <= i < |destination| && destination[i].key == Name(key)
  }

  function DescendValue(v: Value, key: string, destination: TreeBranch): Option<TreeBranch>
    decreases v, 1
  {
    match v
    case Branch(items) => DescendMap(items, key + MAP_SEPARATOR, destination)
    case List(elems) => DescendArray(elems, 0, key + LIST_SEPARATOR, destination)
    case _ => if Has(destination, key) then None else Some(destination + [Item(Name(key), v)])
  }

  function DescendItem(item: Item, prefix: string, destination: TreeBranch): Option<TreeBranch>
    decreases item, 2
  {
    match item.key
    case Remark(_, _) => Some(destination)
    case Index(_) => None
    case Name(key) => DescendValue(item.value, prefix + key, destination)
  }

  function DescendMap(items: TreeBranch, prefix: string, destination: TreeBranch): Option<TreeBranch>
    decreases items, 0
  {
    if items == [] then Some(destination)
    else
      match DescendItem(items[0], prefix, destination)
      case None => None
      case Some(d) => DescendMap(items[1..], prefix, d)
  }

  /** `i` counts the elements that are no comments. */
  function DescendArray(elems: seq<Value>, i: nat, prefix: string, destination: TreeBranch): Option<TreeBranch>
    decreases elems, 0
  {
    if elems == [] then Some(destination)
    else if elems[0].Comment? then DescendArray(elems[1..], i, prefix, destination)
    else
      match DescendValue(elems[0], prefix + Decimal(i), destination)
      case None => None
      case Some(d) => DescendArray(elems[1..], i + 1, prefix, d)
  }

  function FlattenedWith(branch: TreeBranch, prefix: string): Option<TreeBranch> {
    DescendMap(branch, prefix, [])
  }

  function Flattened(branch: TreeBranch): Option<TreeBranch> {
    FlattenedWith(branch, [])
  }

  // ---------- The loops of the source ----------

  /** The map of the keys in use, shared by the whole descent. */
  class DestinationMap {
    var marked: map<string, bool>

    constructor ()
      ensures marked == map[]
    {
      marked := map[];
    }

    ghost predicate Tracks(destination: TreeBranch)
      reads this
    {
      forall key :: key in marked <==> Has(destination, key)
    }
  }

  lemma HasMore(destination: TreeBranch, key: string, v: Value)
    ensures forall k :: Has(destination + [Item(Name(key), v)], k) <==> k == key || Has(destination, k)
  {
    var more := destination + [Item(Name(key), v)];
    assert more[|destination|].key == Name(key);
    forall k | Has(destination, k)
      ensures Has(more, k)
    {
      var i :| 0 <= i < |destination| && destination[i].key == Name(k);
      assert more[i].key == Name(k);
    }
  }

  method FlattenDescendValue(value: Value, key: string, destination: TreeBranch, destinationMap: DestinationMap)
    returns (r: Option<TreeBranch>)
    requires destinationMap.Tracks(destination)
    modifies destinationMap
    ensures r == DescendValue(value, key, destination)
    ensures r.Some? ==> destinationMap.Tracks(r.value)
    decreases value, 1
  {
    match value {
      case Branch(items) =>
        r := FlattenDescendMap(items, key + MAP_SEPARATOR, destination, destinationMap);
      case List(elems) =>
        r := FlattenDescendArray(elems, key + LIST_SEPARATOR, destination, destinationMap);
      case _ =>
        if key in destinationMap.marked {
          return None;
        }
        HasMore(destination, key, value);
        r := Some(destination + [Item(Name(key), value)]);
        hide Has;
        destinationMap.marked := destinationMap.marked[key := true];
    }
  }

  method FlattenDescendMap(branch: TreeBranch, prefix: string, destination: TreeBranch, destinationMap: DestinationMap)
    returns (r: Option<TreeBranch>)
    requires destinationMap.Tracks(destination)
    modifies destinationMap
    ensures r == DescendMap(branch, prefix, destination)
    ensures r.Some? ==> destinationMap.Tracks(r.value)
    decreases branch, 0
  {
    hide Has; hide DescendValue;
    var d := destination;
    for j := 0 to |branch|
      invariant DescendMap(branch[j..], prefix, d) == DescendMap(branch, prefix, destination)
      invariant destinationMap.Tracks(d)
    {
      var item := branch[j];
      assert branch[j..][0] == item && branch[j..][1..] == branch[j + 1..];
      match item.key {
        case Remark(_, _) =>
        case Index(_) => return None;
        case Name(key) =>
          assert (branch decreases to item) && (item decreases to item.value);
          var next := FlattenDescendValue(item.value, prefix + key, d, destinationMap);
          if next.None? {
            return None;
          }
          d := next.value;
      }
    }
    assert branch[|branch|..] == [];
    return Some(d);
  }

  method FlattenDescendArray(elems: seq<Value>, prefix: string, destination: TreeBranch, destinationMap: DestinationMap)
    returns (r: Option<TreeBranch>)
    requires destinationMap.Tracks(destination)
    modifies destinationMap
    ensures r == DescendArray(elems, 0, prefix, destination)
    ensures r.Some? ==> destinationMap.Tracks(r.value)
    decreases elems, 0
  {
    hide Has; hide DescendValue; hide Decimal;
    var d := destination;
    var i: nat := 0;
    for j := 0 to |elems|
      invariant DescendArray(elems[j..], i, prefix, d) == DescendArray(elems, 0, prefix, destination)
      invariant destinationMap.Tracks(d)
    {
      var item := elems[j];
      assert elems[j..][0] == item && elems[j..][1..] == elems[j + 1..];
      if item.Comment? {
        continue;
      }
      var next := FlattenDescendValue(item, prefix + Decimal(i), d, destinationMap);
      if next.None? {
        return None;
      }
      d := next.value;
      i := i + 1;
    }
    assert elems[|elems|..] == [];
    return Some(d);
  }

  method FlattenTreeBranch(branch: TreeBranch, prefix: string) returns (r: Option<TreeBranch>)
    ensures r == FlattenedWith(branch, prefix)
  {
    var destinationMap := new DestinationMap();
    r := FlattenDescendMap(branch, prefix, [], destinationMap);
  }

  // ---------- What comes out, and when ----------

  /** One item for every leaf. */
  function Flat(v: Value, key: string): TreeBranch
    decreases v, 1
  {
    match v
    case Branch(items) => FlatItems(items, key + MAP_SEPARATOR)
    case List(elems) => FlatElems(elems, 0, key + LIST_SEPARATOR)
    case _ => [Item(Name(key), v)]
  }

  function FlatItem(item: Item, prefix: string): TreeBranch
    decreases item, 2
  {
    if item.key.Name? then Flat(item.value, prefix + item.key.name) else []
  }

  function FlatItems(items: TreeBranch, prefix: string): TreeBranch
    decreases items, 0
  {
    if items == [] then [] else FlatItem(items[0], prefix) + FlatItems(items[1..], prefix)
  }

  function FlatElems(elems: seq<Value>, i: nat, prefix: string): TreeBranch
    decreases elems, 0
  {
    if elems == [] then []
    else if elems[0].Comment? then FlatElems(elems[1..], i, prefix)
    else Flat(elems[0], prefix + Decimal(i)) + FlatElems(elems[1..], i + 1, prefix)
  }

  /** Every key on the way to a leaf is a string or a comment. */
  predicate KeysAreNames(v: Value)
    decreases v, 1
  {
    match v
    case Branch(items) => ItemKeysAreNames(items)
    case List(elems) => ElemKeysAreNames(elems)
    case _ => true
  }

  predicate ItemKeyIsName(item: Item)
    decreases item, 2
  {
    !item.key.Index? && (item.key.Name? ==> KeysAreNames(item.value))
  }

  predicate ItemKeysAreNames(items: TreeBranch)
    decreases items, 0
  {
    items == [] || (ItemKeyIsName(items[0]) && ItemKeysAreNames(items[1..]))
  }

  predicate ElemKeysAreNames(elems: seq<Value>)
    decreases elems, 0
  {
    elems == [] || (KeysAreNames(elems[0]) && ElemKeysAreNames(elems[1..]))
  }

  predicate DistinctKeys(items: TreeBranch) {
    forall i, j :: 0 <= i < j < |items| ==> items[i].key != items[j].key
  }

  /** Adds the items behind the destination, or fails. */
  function Appended(ok: bool, destination: TreeBranch, items: TreeBranch): Option<TreeBranch> {
    if ok && DistinctKeys(destination + items) then Some(destination + items) else None
  }

  lemma AppendedTwice(a: bool, b: bool, destination: TreeBranch, x: TreeBranch, y: TreeBranch)
    ensures Appended(a && b, destination, x + y) ==
            match Appended(a, destination, x)
            case None => None
            case Some(d) => Appended(b, d, y)
  {
    var all := destination + (x + y);
    assert destination + x + y == all;
    if DistinctKeys(all) {
      forall i, j | 0 <= i < j < |destination + x|
        ensures (destination + x)[i].key != (destination + x)[j].key
      {
        assert all[i] == (destination + x)[i] && all[j] == (destination + x)[j];
      }
    }
  }

  lemma OneMore(destination: TreeBranch, item: Item)
    requires DistinctKeys(destination) && item.key.Name?
    ensures DistinctKeys(destination + [item]) <==> !Has(destination, item.key.name)
  {
    var all := destination + [item];
    if Has(destination, item.key.name) {
      var i :| 0 <= i < |destination| && destination[i].key == item.key;
      assert all[i].key == all[|destination|].key;
    }
  }

  lemma {:induction false} DescendValueAppends(v: Value, key: string, destination: TreeBranch)
    requires DistinctKeys(destination)
    ensures DescendValue(v, key, destination) == Appended(KeysAreNames(v), destination, Flat(v, key))
    decreases v, 1
  {
    match v
    case Branch(items) => DescendMapAppends(items, key + MAP_SEPARATOR, destination);
    case List(elems) => DescendArrayAppends(elems, 0, key + LIST_SEPARATOR, destination);
    case _ => OneMore(destination, Item(Name(key), v));
  }

  lemma {:induction false} DescendItemAppends(item: Item, prefix: string, destination: TreeBranch)
    requires DistinctKeys(destination)
    ensures DescendItem(item, prefix, destination) == Appended(ItemKeyIsName(item), destination, FlatItem(item, prefix))
    decreases item, 2
  {
    match item.key
    case Name(key) => DescendValueAppends(item.value, prefix + key, destination);
    case _ => assert destination + [] == destination;
  }

  lemma {:induction false} DescendMapAppends(items: TreeBranch, prefix: string, destination: TreeBranch)
    requires DistinctKeys(destination)
    ensures DescendMap(items, prefix, destination) ==
            Appended(ItemKeysAreNames(items), destination, FlatItems(items, prefix))
    decreases items, 0
  {
    if items == [] {
      assert destination + [] == destination;
    } else {
      DescendItemAppends(items[0], prefix, destination);
      AppendedTwice(ItemKeyIsName(items[0]), ItemKeysAreNames(items[1..]), destination,
                    FlatItem(items[0], prefix), FlatItems(items[1..], prefix));
      hide DescendItem; hide FlatItem; hide ItemKeyIsName;
      match DescendItem(items[0], prefix, destination)
      case None =>
      case Some(d) => DescendMapAppends(items[1..], prefix, d);
    }
  }

  lemma {:induction false} DescendArrayAppends(elems: seq<Value>, i: nat, prefix: string, destination: TreeBranch)
    requires DistinctKeys(destination)
    ensures DescendArray(elems, i, prefix, destination) ==
            Appended(ElemKeysAreNames(elems), destination, FlatElems(elems, i, prefix))
    decreases elems, 0
  {
    hide Decimal;
    if elems == [] {
      assert destination + [] == destination;
    } else if elems[0].Comment? {
      DescendArrayAppends(elems[1..], i, prefix, destination);
    } else {
      var key := prefix + Decimal(i);
      DescendValueAppends(elems[0], key, destination);
      AppendedTwice(KeysAreNames(elems[0]), ElemKeysAreNames(elems[1..]), destination,
                    Flat(elems[0], key), FlatElems(elems[1..], i + 1, prefix));
      hide DescendValue; hide Flat; hide KeysAreNames;
      match DescendValue(elems[0], key, destination)
      case None =>
      case Some(d) => DescendArrayAppends(elems[1..], i + 1, prefix, d);
    }
  }

  /** The exact condition for a branch to flatten, and the result. */
  lemma FlattensExactly(branch: TreeBranch, prefix: string)
    ensures FlattenedWith(branch, prefix).Some? <==> ItemKeysAreNames(branch) && DistinctKeys(FlatItems(branch, prefix))
    ensures FlattenedWith(branch, prefix).Some? ==> FlattenedWith(branch, prefix).value == FlatItems(branch, prefix)
  {
    DescendMapAppends(branch, prefix, []);
    assert [] + FlatItems(branch, prefix) == FlatItems(branch, prefix);
  }
}
