/** The document trees of sops.go, and its comparison of them. */
module Trees {
  /** The dynamic values of a tree. A time stamp is its number; Unknown stands for a value of a
      type the walker does not know. */
  datatype Value =
    | Str(text: string)
    | Bytes(raw: string)
    | Int(n: int)
    | Bool(flag: bool)
    | Float(x: real)
    | Time(stamp: int)
    | Comment(text: string, inline: bool)
    | Nil
    | Branch(items: seq<Item>)
    | List(elems: seq<Value>)
    | Unknown(id: int)

  /** The key of an item: a name, a comment, or something that is no string. */
  datatype Key =
    | Name(name: string)
    | Remark(text: string, inline: bool)
    | Index(n: int)

  datatype Item = Item(key: Key, value: Value)

  type TreeBranch = seq<Item>

  /** Comments are equal when their texts are: the inline flag does not count. */
  predicate EqualKeys(a: Key, b: Key) {
    if a.Remark? then b.Remark? && a.text == b.text else a == b
  }

  predicate Equal(a: Value, b: Value)
    decreases a, 1
  {
    match a
    case Branch(items) => b.Branch? && EqualItems(items, b.items)
    case List(elems) => b.List? && EqualElems(elems, b.elems)
    case Comment(text, _) => b.Comment? && text == b.text
    case _ => a == b
  }

  predicate EqualItem(a: Item, b: Item)
    decreases a, 2
  {
    EqualKeys(a.key, b.key) && Equal(a.value, b.value)
  }

  predicate EqualItems(a: TreeBranch, b: TreeBranch)
    decreases a, 0
  {
    && |a| == |b|
    && (a == [] || (EqualItem(a[0], b[0]) && EqualItems(a[1..], b[1..])))
  }

  predicate EqualElems(a: seq<Value>, b: seq<Value>)
    decreases a, 0
  {
    && |a| == |b|
    && (a == [] || (Equal(a[0], b[0]) && EqualElems(a[1..], b[1..])))
  }

  lemma {:induction false} EqualReflexive(a: Value)
    ensures Equal(a, a)
    decreases a, 1
  {
    match a
    case Branch(items) => EqualItemsReflexive(items);
    case List(elems) => EqualElemsReflexive(elems);
    case _ =>
  }

  lemma {:induction false} EqualItemReflexive(a: Item)
    ensures EqualItem(a, a)
    decreases a, 2
  {
    EqualReflexive(a.value);
  }

  lemma {:induction false} EqualItemsReflexive(a: TreeBranch)
    ensures EqualItems(a, a)
    decreases a, 0
  {
    if a != [] {
      EqualItemReflexive(a[0]);
      EqualItemsReflexive(a[1..]);
    }
  }

  lemma {:induction false} EqualElemsReflexive(a: seq<Value>)
    ensures EqualElems(a, a)
    decreases a, 0
  {
    if a != [] {
      EqualReflexive(a[0]);
      EqualElemsReflexive(a[1..]);
    }
  }

  lemma {:induction false} EqualTransitive(a: Value, b: Value, c: Value)
    requires Equal(a, b) && Equal(b, c)
    ensures Equal(a, c)
    decreases a, 1
  {
    match a
    case Branch(items) => EqualItemsTransitive(items, b.items, c.items);
    case List(elems) => EqualElemsTransitive(elems, b.elems, c.elems);
    case _ =>
  }

  lemma {:induction false} EqualItemTransitive(a: Item, b: Item, c: Item)
    requires EqualItem(a, b) && EqualItem(b, c)
    ensures EqualItem(a, c)
    decreases a, 2
  {
    EqualTransitive(a.value, b.value, c.value);
  }

  lemma {:induction false} EqualItemsTransitive(a: TreeBranch, b: TreeBranch, c: TreeBranch)
    requires EqualItems(a, b) && EqualItems(b, c)
    ensures EqualItems(a, c)
    decreases a, 0
  {
    hide EqualItem;
    if a != [] {
      EqualItemTransitive(a[0], b[0], c[0]);
      EqualItemsTransitive(a[1..], b[1..], c[1..]);
    }
  }

  lemma {:induction false} EqualElemsTransitive(a: seq<Value>, b: seq<Value>, c: seq<Value>)
    requires EqualElems(a, b) && EqualElems(b, c)
    ensures EqualElems(a, c)
    decreases a, 0
  {
    hide Equal;
    if a != [] {
      EqualTransitive(a[0], b[0], c[0]);
      EqualElemsTransitive(a[1..], b[1..], c[1..]);
    }
  }

  /** The tree with every comment set apart from its line: all inline flags cleared. */
  function Cleared(v: Value): Value
    decreases v, 1
  {
    match v
    case Branch(items) => Branch(ClearedItems(items))
    case List(elems) => List(ClearedElems(elems))
    case Comment(text, _) => Comment(text, false)
    case _ => v
  }

  function ClearedItem(item: Item): Item
    decreases item, 2
  {
    Item(if item.key.Remark? then Remark(item.key.text, false) else item.key, Cleared(item.value))
  }

  function ClearedItems(items: TreeBranch): (r: TreeBranch)
    ensures |r| == |items|
    ensures forall i :: 0 <= i < |items| ==> r[i] == ClearedItem(items[i])
    decreases items, 0
  {
    if items == [] then [] else [ClearedItem(items[0])] + ClearedItems(items[1..])
  }

  function ClearedElems(elems: seq<Value>): (r: seq<Value>)
    ensures |r| == |elems|
    ensures forall i :: 0 <= i < |elems| ==> r[i] == Cleared(elems[i])
    decreases elems, 0
  {
    if elems == [] then [] else [Cleared(elems[0])] + ClearedElems(elems[1..])
  }

  /** Equal trees differ in inline flags at most: they are the same value once these are cleared. */
  lemma {:induction false} EqualExactly(a: Value, b: Value)
    ensures Equal(a, b) <==> Cleared(a) == Cleared(b)
    decreases a, 1
  {
    match a
    case Branch(items) =>
      if b.Branch? {
        ItemsEqualExactly(items, b.items);
      }
    case List(elems) =>
      if b.List? {
        ElemsEqualExactly(elems, b.elems);
      }
    case _ =>
  }

  lemma {:induction false} ItemEqualExactly(a: Item, b: Item)
    ensures EqualItem(a, b) <==> ClearedItem(a) == ClearedItem(b)
    decreases a, 2
  {
    EqualExactly(a.value, b.value);
    hide Cleared; hide Equal;
  }

  lemma {:induction false} ItemsEqualExactly(a: TreeBranch, b: TreeBranch)
    ensures EqualItems(a, b) <==> ClearedItems(a) == ClearedItems(b)
    decreases a, 0
  {
    hide EqualItem; hide ClearedItem;
    if a != [] && |a| == |b| {
      ItemEqualExactly(a[0], b[0]);
      ItemsEqualExactly(a[1..], b[1..]);
      FirstAndRest(ClearedItems(a), ClearedItems(b));
      assert ClearedItems(a)[1..] == ClearedItems(a[1..]) && ClearedItems(b)[1..] == ClearedItems(b[1..]);
    }
  }

  lemma {:induction false} ElemsEqualExactly(a: seq<Value>, b: seq<Value>)
    ensures EqualElems(a, b) <==> ClearedElems(a) == ClearedElems(b)
    decreases a, 0
  {
    hide Equal; hide Cleared;
    if a != [] && |a| == |b| {
      EqualExactly(a[0], b[0]);
      ElemsEqualExactly(a[1..], b[1..]);
      FirstAndRest(ClearedElems(a), ClearedElems(b));
      assert ClearedElems(a)[1..] == ClearedElems(a[1..]) && ClearedElems(b)[1..] == ClearedElems(b[1..]);
    }
  }

  lemma FirstAndRest<T>(a: seq<T>, b: seq<T>)
    requires a != [] && |a| == |b|
    ensures a == b <==> a[0] == b[0] && a[1..] == b[1..]
  {
    assert a == [a[0]] + a[1..] && b == [b[0]] + b[1..];
  }

  ghost predicate HasNoComments(v: Value)
    decreases v
  {
    match v
    case Branch(items) => forall i :: 0 <= i < |items| ==> !items[i].key.Remark? && HasNoComments(items[i].value)
    case List(elems) => forall i :: 0 <= i < |elems| ==> HasNoComments(elems[i])
    case _ => !v.Comment?
  }

  /** Without comments, equal trees are the same. */
  lemma {:induction false} EqualWithoutComments(a: Value, b: Value)
    requires HasNoComments(a) && HasNoComments(b)
    ensures Equal(a, b) <==> a == b
  {
    EqualExactly(a, b);
    NothingToClear(a);
    NothingToClear(b);
    hide Equal; hide Cleared;
  }

  lemma {:induction false} NothingToClear(v: Value)
    requires HasNoComments(v)
    ensures Cleared(v) == v
    decreases v
  {
    match v
    case Branch(items) =>
      forall i | 0 <= i < |items|
        ensures ClearedItems(items)[i] == items[i]
      {
        NothingToClear(items[i].value);
      }
      assert ClearedItems(items) == items;
    case List(elems) =>
      forall i | 0 <= i < |elems|
        ensures ClearedElems(elems)[i] == elems[i]
      {
        NothingToClear(elems[i]);
      }
      assert ClearedElems(elems) == elems;
    case _ =>
  }

  /** What the walker makes of an untouched tree: byte slices become strings. It does not look at
      the value of an item whose key is a comment. */
  function Normalized(v: Value): Value
    decreases v, 1
  {
    match v
    case Bytes(raw) => Str(raw)
    case Branch(items) => Branch(NormalizedItems(items))
    case List(elems) => List(NormalizedElems(elems))
    case _ => v
  }

  function NormalizedItem(item: Item): Item
    decreases item, 2
  {
    if item.key.Remark? then item else Item(item.key, Normalized(item.value))
  }

  function NormalizedItems(items: TreeBranch): (r: TreeBranch)
    ensures |r| == |items|
    decreases items, 0
  {
    if items == [] then []
    else [NormalizedItem(items[0])] + NormalizedItems(items[1..])
  }

  function NormalizedElems(elems: seq<Value>): (r: seq<Value>)
    ensures |r| == |elems|
    decreases elems, 0
  {
    if elems == [] then [] else [Normalized(elems[0])] + NormalizedElems(elems[1..])
  }

  ghost predicate HasNoBytes(v: Value)
    decreases v
  {
    match v
    case Branch(items) => forall i :: 0 <= i < |items| ==> items[i].key.Remark? || HasNoBytes(items[i].value)
    case List(elems) => forall i :: 0 <= i < |elems| ==> HasNoBytes(elems[i])
    case _ => !v.Bytes?
  }

  /** Nothing but byte slices is changed, and nothing but their type. */
  lemma {:induction false} NormalizedExactly(v: Value)
    ensures HasNoBytes(v) ==> Normalized(v) == v
    ensures v.Bytes? ==> Normalized(v) == Str(v.raw)
    ensures v.Branch? ==>
      Normalized(v).Branch? && |Normalized(v).items| == |v.items| &&
      forall i :: 0 <= i < |v.items| ==>
        Normalized(v).items[i] ==
        if v.items[i].key.Remark? then v.items[i] else Item(v.items[i].key, Normalized(v.items[i].value))
    ensures v.List? ==>
      Normalized(v).List? && |Normalized(v).elems| == |v.elems| &&
      forall i :: 0 <= i < |v.elems| ==> Normalized(v).elems[i] == Normalized(v.elems[i])
    decreases v
  {
    match v
    case Branch(items) =>
      NormalizedEntries(items, []);
      forall i | 0 <= i < |items| {
        NormalizedExactly(items[i].value);
      }
      assert HasNoBytes(v) ==> NormalizedItems(items) == items;
    case List(elems) =>
      NormalizedEntries([], elems);
      forall i | 0 <= i < |elems| {
        NormalizedExactly(elems[i]);
      }
      assert HasNoBytes(v) ==> NormalizedElems(elems) == elems;
    case _ =>
  }

  lemma {:induction false} NormalizedEntries(items: TreeBranch, elems: seq<Value>)
    ensures forall i :: 0 <= i < |items| ==> NormalizedItems(items)[i] == NormalizedItem(items[i])
    ensures forall i :: 0 <= i < |elems| ==> NormalizedElems(elems)[i] == Normalized(elems[i])
    decreases |items| + |elems|
  {
    hide Normalized; hide NormalizedItem;
    if items != [] {
      NormalizedEntries(items[1..], []);
    }
    if elems != [] {
      NormalizedEntries([], elems[1..]);
    }
  }

  /** A tree that equals a normalized one is normalized but for what no one looks at. */
  lemma {:induction false} NormalizedStays(a: Value, b: Value)
    requires Equal(a, Normalized(b))
    ensures Equal(Normalized(a), Normalized(b))
    decreases a, 1
  {
    match a
    case Branch(items) => NormalizedItemsStay(items, b.items);
    case List(elems) => NormalizedElemsStay(elems, b.elems);
    case _ =>
  }

  lemma {:induction false} NormalizedItemStays(a: Item, b: Item)
    requires EqualItem(a, NormalizedItem(b))
    ensures EqualItem(NormalizedItem(a), NormalizedItem(b))
    decreases a, 2
  {
    if !a.key.Remark? {
      NormalizedStays(a.value, b.value);
    }
  }

  lemma {:induction false} NormalizedItemsStay(a: TreeBranch, b: TreeBranch)
    requires EqualItems(a, NormalizedItems(b))
    ensures EqualItems(NormalizedItems(a), NormalizedItems(b))
    decreases a, 0
  {
    hide EqualItem; hide NormalizedItem;
    if a != [] {
      var n, m := NormalizedItems(a), NormalizedItems(b);
      assert n[1..] == NormalizedItems(a[1..]) && m[1..] == NormalizedItems(b[1..]);
      NormalizedItemStays(a[0], b[0]);
      NormalizedItemsStay(a[1..], b[1..]);
    }
  }

  lemma {:induction false} NormalizedElemsStay(a: seq<Value>, b: seq<Value>)
    requires EqualElems(a, NormalizedElems(b))
    ensures EqualElems(NormalizedElems(a), NormalizedElems(b))
    decreases a, 0
  {
    hide Equal; hide Normalized;
    if a != [] {
      var n, m := NormalizedElems(a), NormalizedElems(b);
      assert n[1..] == NormalizedElems(a[1..]) && m[1..] == NormalizedElems(b[1..]);
      NormalizedStays(a[0], b[0]);
      NormalizedElemsStay(a[1..], b[1..]);
    }
  }
}
