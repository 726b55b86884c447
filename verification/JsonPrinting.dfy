/**
 What the JSON encoder prints, told from the tree itself: which trees it prints, the tokens of every
 leaf and of every item, and which trees come back.
 */
module JsonPrinting {
  import opened Results
  import opened Trees
  import opened JsonTokens

  function Printed(m: Marshal, v: Value): Option<seq<JsonToken>> {
    EncodeValue(Marshalled(m, v))
  }

  // ---------- What is printed ----------

  /** Every value that is printed is one that json.Marshal knows, and every key is a string or a
      comment. What stands beside a comment as a key, and a comment in a list, do not matter. */
  ghost predicate IsPrintable(m: Marshal, v: Value)
    decreases v
  {
    match v
    case Branch(items) =>
      forall i :: 0 <= i < |items| ==>
        items[i].key.Remark? || (items[i].key.Name? && IsPrintable(m, items[i].value))
    case List(elems) => forall i :: 0 <= i < |elems| ==> elems[i].Comment? || IsPrintable(m, elems[i])
    case Time(t) => m.time(t).Some?
    case Unknown(_) => false
    case _ => true
  }

  lemma {:induction false} PrintsExactly(m: Marshal, v: Value)
    ensures Printed(m, v).Some? <==> IsPrintable(m, v)
    decreases v, 1
  {
    match v
    case Branch(items) => ItemsPrintExactly(m, items);
    case List(elems) => ElemsPrintExactly(m, elems);
    case Comment(text, inline) => LeavesArePrinted(m, text, false, 0.0, 0, inline);
    case _ =>
  }

  lemma {:induction false} ItemsPrintExactly(m: Marshal, items: TreeBranch)
    ensures EncodeItems(MarshalledItems(m, items)).Some? <==>
            forall i :: 0 <= i < |items| ==>
              items[i].key.Remark? || (items[i].key.Name? && IsPrintable(m, items[i].value))
    decreases items, 0
  {
    if items != [] {
      ItemsGoOn(m, items);
      ItemsPrintExactly(m, items[1..]);
      assert (items decreases to items[0]) && (items[0] decreases to items[0].value);
      PrintsExactly(m, items[0].value);
      assert forall i :: 1 <= i < |items| ==> items[i] == items[1..][i - 1];
      hide MarshalledItems; hide EncodeItems; hide Marshalled; hide EncodeValue;
    }
  }

  lemma {:induction false} ElemsPrintExactly(m: Marshal, elems: seq<Value>)
    ensures EncodeElems(MarshalledElems(m, elems)).Some? <==>
            forall i :: 0 <= i < |elems| ==> elems[i].Comment? || IsPrintable(m, elems[i])
    decreases elems, 0
  {
    if elems != [] {
      ElemsGoOn(m, elems);
      ElemsPrintExactly(m, elems[1..]);
      assert elems decreases to elems[0];
      PrintsExactly(m, elems[0]);
      assert forall i :: 1 <= i < |elems| ==> elems[i] == elems[1..][i - 1];
      hide MarshalledElems; hide EncodeElems; hide Marshalled; hide EncodeValue;
    }
  }

  /** The token of every kind of leaf. A comment as a value is a struct with two fields. */
  lemma LeavesArePrinted(m: Marshal, s: string, b: bool, x: real, n: int, inline: bool)
    ensures Printed(m, Str(s)) == Some([StrToken(s)])
    ensures Printed(m, Bool(b)) == Some([BoolToken(b)])
    ensures Printed(m, Float(x)) == Some([NumToken(x)])
    ensures Printed(m, Int(n)) == Some([NumToken(n as real)])
    ensures Printed(m, Nil) == Some([NullToken])
    ensures Printed(m, Bytes(s)) == Some([StrToken(m.base64(s))])
    ensures m.time(n).Some? ==> Printed(m, Time(n)) == Some([StrToken(m.time(n).value)])
    ensures Printed(m, Comment(s, inline))
         == Some([Delim('{'), StrToken("Value"), StrToken(s), StrToken("Inline"), BoolToken(inline), Delim('}')])
  {
    StructIsPrinted(s, inline);
  }

  lemma StructIsPrinted(s: string, inline: bool)
    ensures EncodeValue(Branch([Item(Name("Value"), Str(s)), Item(Name("Inline"), Bool(inline))]))
         == Some([Delim('{'), StrToken("Value"), StrToken(s), StrToken("Inline"), BoolToken(inline), Delim('}')])
  {
    var value, flag := Item(Name("Value"), Str(s)), Item(Name("Inline"), Bool(inline));
    assert [value, flag][1..] == [flag] && [flag][1..] == [];
    var t, u := [StrToken("Value"), StrToken(s)], [StrToken("Inline"), BoolToken(inline)];
    assert [StrToken("Inline")] + [BoolToken(inline)] == u && [StrToken("Value")] + [StrToken(s)] == t;
    assert EncodeItem(flag) == Some(u) && EncodeItem(value) == Some(t);
    hide EncodeItem;
    assert EncodeItems([]) == Some([]) && u + [] == u;
    assert EncodeItems([flag]) == Some(u);
    assert EncodeItems([value, flag]) == Some(t + u);
    hide EncodeItems;
    assert [Delim('{')] + (t + u) + [Delim('}')]
        == [Delim('{'), StrToken("Value"), StrToken(s), StrToken("Inline"), BoolToken(inline), Delim('}')];
  }

  lemma EncodedItemsStep(items: TreeBranch)
    ensures EncodeItems([]) == Some([])
    ensures items != [] ==>
              EncodeItems(items) ==
              match (EncodeItem(items[0]), EncodeItems(items[1..]))
              case (Some(t), Some(more)) => Some(t + more)
              case _ => None
  {
    hide EncodeItem;
  }

  lemma {:induction false} ItemsJoin(a: TreeBranch, b: TreeBranch)
    requires EncodeItems(a).Some? && EncodeItems(b).Some?
    ensures EncodeItems(a + b) == Some(EncodeItems(a).value + EncodeItems(b).value)
  {
    hide EncodeItem; hide EncodeItems;
    EncodedItemsStep(a);
    if a == [] {
      assert a + b == b && [] + EncodeItems(b).value == EncodeItems(b).value;
    } else {
      ItemsJoin(a[1..], b);
      EncodedItemsStep(a + b);
      assert (a + b)[0] == a[0] && (a + b)[1..] == a[1..] + b;
      var t, more, rest := EncodeItem(a[0]).value, EncodeItems(a[1..]).value, EncodeItems(b).value;
      assert t + more + rest == t + (more + rest);
    }
  }

  lemma EncodedElemsStep(elems: seq<Value>)
    ensures EncodeElems([]) == Some([])
    ensures elems != [] ==>
              EncodeElems(elems) ==
              if elems[0].Comment? then EncodeElems(elems[1..])
              else match (EncodeValue(elems[0]), EncodeElems(elems[1..]))
                   case (Some(t), Some(more)) => Some(t + more)
                   case _ => None
  {
    hide EncodeValue;
  }

  lemma {:induction false} ElemsJoin(a: seq<Value>, b: seq<Value>)
    requires EncodeElems(a).Some? && EncodeElems(b).Some?
    ensures EncodeElems(a + b) == Some(EncodeElems(a).value + EncodeElems(b).value)
  {
    hide EncodeValue; hide EncodeElems;
    EncodedElemsStep(a);
    if a == [] {
      assert a + b == b && [] + EncodeElems(b).value == EncodeElems(b).value;
    } else {
      ElemsJoin(a[1..], b);
      EncodedElemsStep(a + b);
      assert (a + b)[0] == a[0] && (a + b)[1..] == a[1..] + b;
      if !a[0].Comment? {
        var t, more, rest := EncodeValue(a[0]).value, EncodeElems(a[1..]).value, EncodeElems(b).value;
        assert t + more + rest == t + (more + rest);
      }
    }
  }

  lemma MarshalledItemsStep(m: Marshal, items: TreeBranch)
    ensures MarshalledItems(m, []) == []
    ensures items != [] ==>
              MarshalledItems(m, items) == [MarshalledItem(m, items[0])] + MarshalledItems(m, items[1..])
  {
    hide MarshalledItem;
  }

  lemma {:induction false} MarshalledItemsJoin(m: Marshal, a: TreeBranch, b: TreeBranch)
    ensures MarshalledItems(m, a + b) == MarshalledItems(m, a) + MarshalledItems(m, b)
  {
    hide MarshalledItem; hide MarshalledItems;
    MarshalledItemsStep(m, a);
    if a == [] {
      assert a + b == b && [] + MarshalledItems(m, b) == MarshalledItems(m, b);
    } else {
      MarshalledItemsJoin(m, a[1..], b);
      MarshalledItemsStep(m, a + b);
      assert (a + b)[0] == a[0] && (a + b)[1..] == a[1..] + b;
    }
  }

  lemma MarshalledElemsStep(m: Marshal, elems: seq<Value>)
    ensures MarshalledElems(m, []) == []
    ensures elems != [] ==>
              MarshalledElems(m, elems) ==
              [if elems[0].Comment? then elems[0] else Marshalled(m, elems[0])] + MarshalledElems(m, elems[1..])
  {
    hide Marshalled;
  }

  lemma {:induction false} MarshalledElemsJoin(m: Marshal, a: seq<Value>, b: seq<Value>)
    ensures MarshalledElems(m, a + b) == MarshalledElems(m, a) + MarshalledElems(m, b)
  {
    hide Marshalled; hide MarshalledElems;
    MarshalledElemsStep(m, a);
    if a == [] {
      assert a + b == b && [] + MarshalledElems(m, b) == MarshalledElems(m, b);
    } else {
      MarshalledElemsJoin(m, a[1..], b);
      MarshalledElemsStep(m, a + b);
      assert (a + b)[0] == a[0] && (a + b)[1..] == a[1..] + b;
    }
  }

  /** The tokens between the braces, or the brackets. */
  function Inside(t: Option<seq<JsonToken>>): seq<JsonToken> {
    if t.Some? && |t.value| >= 2 then t.value[1..|t.value| - 1] else []
  }

  /** A branch is printed item by item, in order: a comment leaves nothing, any other item its key and
      then its value. */
  lemma BranchIsPrinted(m: Marshal, before: TreeBranch, item: Item, after: TreeBranch)
    requires IsPrintable(m, Branch(before + [item] + after))
    ensures Printed(m, Branch([])) == Some([Delim('{'), Delim('}')])
    ensures item.key.Name? ==> Printed(m, item.value).Some?
    ensures var t := if item.key.Name? then [StrToken(item.key.name)] + Printed(m, item.value).value else [];
            Printed(m, Branch(before + [item] + after))
            == Some([Delim('{')] + Inside(Printed(m, Branch(before))) + t + Inside(Printed(m, Branch(after)))
                    + [Delim('}')])
  {
    ItemPartsArePrintable(m, before, item, after);
    PrintsExactly(m, item.value);
    PrintsExactly(m, Branch(before));
    PrintsExactly(m, Branch(after));
    hide IsPrintable; hide MarshalledItems; hide EncodeItem; hide EncodeItems; hide Inside;
    OneItem(m, item);
    PrintedBranch(m, before);
    PrintedBranch(m, after);
    PrintedBranch(m, before + [item] + after);
    PrintedNothing(m);
    hide Printed;
    MarshalledItemsJoin(m, before + [item], after);
    MarshalledItemsJoin(m, before, [item]);
    var a, b, c := MarshalledItems(m, before), MarshalledItems(m, [item]), MarshalledItems(m, after);
    ItemsJoin(a, b);
    ItemsJoin(a + b, c);
    Between(Delim('{'), EncodeItems(a).value, EncodeItems(b).value, EncodeItems(c).value, Delim('}'));
  }

  lemma Between<T>(open: T, a: seq<T>, b: seq<T>, c: seq<T>, close: T)
    ensures [open] + (a + b + c) + [close] == [open] + a + b + c + [close]
  {}

  lemma ItemPartsArePrintable(m: Marshal, before: TreeBranch, item: Item, after: TreeBranch)
    requires IsPrintable(m, Branch(before + [item] + after))
    ensures IsPrintable(m, Branch(before)) && IsPrintable(m, Branch(after))
    ensures item.key.Remark? || (item.key.Name? && IsPrintable(m, item.value))
  {
    var items := before + [item] + after;
    assert items[|before|] == item;
    assert forall i :: 0 <= i < |before| ==> before[i] == items[i];
    assert forall i :: 0 <= i < |after| ==> after[i] == items[|before| + 1 + i];
  }

  lemma OneItem(m: Marshal, item: Item)
    requires item.key.Remark? || (item.key.Name? && Printed(m, item.value).Some?)
    ensures EncodeItems(MarshalledItems(m, [item]))
         == Some(if item.key.Name? then [StrToken(item.key.name)] + Printed(m, item.value).value else [])
  {
    assert MarshalledItems(m, [item]) == [MarshalledItem(m, item)];
    assert [MarshalledItem(m, item)][1..] == [] && [item][1..] == [];
    assert EncodeItems([]) == Some([]);
    hide Marshalled; hide EncodeValue;
    var t := EncodeItem(MarshalledItem(m, item)).value;
    assert t + [] == t;
  }

  lemma PrintedNothing(m: Marshal)
    ensures Printed(m, Branch([])) == Some([Delim('{'), Delim('}')])
    ensures Printed(m, List([])) == Some([Delim('['), Delim(']')])
  {
    assert [Delim('{')] + [] + [Delim('}')] == [Delim('{'), Delim('}')];
    assert [Delim('[')] + [] + [Delim(']')] == [Delim('['), Delim(']')];
  }

  lemma PrintedBranch(m: Marshal, items: TreeBranch)
    ensures var t := EncodeItems(MarshalledItems(m, items));
            && Printed(m, Branch(items)) ==
               (match t case None => None case Some(t) => Some([Delim('{')] + t + [Delim('}')]))
            && (t.Some? ==> Inside(Printed(m, Branch(items))) == t.value)
  {
    hide EncodeItems; hide MarshalledItems;
  }

  lemma PrintedList(m: Marshal, elems: seq<Value>)
    ensures var t := EncodeElems(MarshalledElems(m, elems));
            && Printed(m, List(elems)) ==
               (match t case None => None case Some(t) => Some([Delim('[')] + t + [Delim(']')]))
            && (t.Some? ==> Inside(Printed(m, List(elems))) == t.value)
  {
    hide EncodeElems; hide MarshalledElems;
  }

  /** Likewise a list: a comment leaves nothing. */
  lemma ListIsPrinted(m: Marshal, before: seq<Value>, v: Value, after: seq<Value>)
    requires IsPrintable(m, List(before + [v] + after))
    ensures Printed(m, List([])) == Some([Delim('['), Delim(']')])
    ensures !v.Comment? ==> Printed(m, v).Some?
    ensures var t := if v.Comment? then [] else Printed(m, v).value;
            Printed(m, List(before + [v] + after))
            == Some([Delim('[')] + Inside(Printed(m, List(before))) + t + Inside(Printed(m, List(after)))
                    + [Delim(']')])
  {
    ElemPartsArePrintable(m, before, v, after);
    PrintsExactly(m, v);
    PrintsExactly(m, List(before));
    PrintsExactly(m, List(after));
    hide IsPrintable; hide MarshalledElems; hide EncodeElems; hide Inside;
    OneElem(m, v);
    PrintedList(m, before);
    PrintedList(m, after);
    PrintedList(m, before + [v] + after);
    PrintedNothing(m);
    hide Printed;
    MarshalledElemsJoin(m, before + [v], after);
    MarshalledElemsJoin(m, before, [v]);
    var a, b, c := MarshalledElems(m, before), MarshalledElems(m, [v]), MarshalledElems(m, after);
    ElemsJoin(a, b);
    ElemsJoin(a + b, c);
    Between(Delim('['), EncodeElems(a).value, EncodeElems(b).value, EncodeElems(c).value, Delim(']'));
  }

  lemma ElemPartsArePrintable(m: Marshal, before: seq<Value>, v: Value, after: seq<Value>)
    requires IsPrintable(m, List(before + [v] + after))
    ensures IsPrintable(m, List(before)) && IsPrintable(m, List(after))
    ensures v.Comment? || IsPrintable(m, v)
  {
    var elems := before + [v] + after;
    assert elems[|before|] == v;
    assert forall i :: 0 <= i < |before| ==> before[i] == elems[i];
    assert forall i :: 0 <= i < |after| ==> after[i] == elems[|before| + 1 + i];
  }

  lemma OneElem(m: Marshal, v: Value)
    requires v.Comment? || Printed(m, v).Some?
    ensures EncodeElems(MarshalledElems(m, [v])) == Some(if v.Comment? then [] else Printed(m, v).value)
  {
    var w := if v.Comment? then v else Marshalled(m, v);
    assert [v][1..] == [] && MarshalledElems(m, [v]) == [w] + [] == [w];
    assert [w][1..] == [] && EncodeElems([]) == Some([]);
    if !v.Comment? {
      MarshalledIsNoComment(m, v);
      var t := EncodeValue(w).value;
      assert t + [] == t;
    }
    hide Marshalled; hide EncodeValue;
  }

  lemma MarshalledIsNoComment(m: Marshal, v: Value)
    ensures !Marshalled(m, v).Comment?
  {}

  // ---------- What comes back ----------

  /** A tree whose leaves JSON has itself, with ints besides, and with comments as keys and in lists. */
  ghost predicate IsSimple(v: Value)
    decreases v
  {
    match v
    case Branch(items) =>
      forall i :: 0 <= i < |items| ==> items[i].key.Remark? || (items[i].key.Name? && IsSimple(items[i].value))
    case List(elems) => forall i :: 0 <= i < |elems| ==> elems[i].Comment? || IsSimple(elems[i])
    case _ => v.Str? || v.Bool? || v.Float? || v.Int? || v.Nil?
  }

  lemma {:induction false} SimpleIsMarshalled(m: Marshal, v: Value)
    requires IsSimple(v)
    ensures Marshalled(m, v) == v && IsPrintable(m, v)
    decreases v, 1
  {
    match v
    case Branch(items) => SimpleItems(m, items);
    case List(elems) => SimpleElems(m, elems);
    case _ =>
  }

  lemma {:induction false} SimpleItems(m: Marshal, items: TreeBranch)
    requires forall i :: 0 <= i < |items| ==> items[i].key.Remark? || (items[i].key.Name? && IsSimple(items[i].value))
    ensures MarshalledItems(m, items) == items
    ensures forall i :: 0 <= i < |items| ==>
              items[i].key.Remark? || (items[i].key.Name? && IsPrintable(m, items[i].value))
    decreases items, 0
  {
    if items != [] {
      assert forall i :: 1 <= i < |items| ==> items[i] == items[1..][i - 1];
      SimpleItems(m, items[1..]);
      if items[0].key.Name? {
        assert (items decreases to items[0]) && (items[0] decreases to items[0].value);
        SimpleIsMarshalled(m, items[0].value);
      }
      hide Marshalled; hide IsPrintable; hide IsSimple;
    }
  }

  lemma {:induction false} SimpleElems(m: Marshal, elems: seq<Value>)
    requires forall i :: 0 <= i < |elems| ==> elems[i].Comment? || IsSimple(elems[i])
    ensures MarshalledElems(m, elems) == elems
    ensures forall i :: 0 <= i < |elems| ==> elems[i].Comment? || IsPrintable(m, elems[i])
    decreases elems, 0
  {
    if elems != [] {
      assert forall i :: 1 <= i < |elems| ==> elems[i] == elems[1..][i - 1];
      SimpleElems(m, elems[1..]);
      if !elems[0].Comment? {
        assert elems decreases to elems[0];
        SimpleIsMarshalled(m, elems[0]);
      }
      hide Marshalled; hide IsPrintable; hide IsSimple;
    }
  }

  /** The main result: such a tree is printed, and read back it has lost its comments and its ints are
      floats, and nothing else; what follows it is left. */
  lemma SimpleComesBack(m: Marshal, tree: TreeBranch, more: seq<JsonToken>)
    requires IsSimple(Branch(tree))
    ensures var t := Printed(m, Branch(tree));
            t.Some? && Load(t.value + more) == Got(ItemsAsJson(tree), more)
  {
    SimpleIsMarshalled(m, Branch(tree));
    PrintsExactly(m, Branch(tree));
    DecodeUndoesEncode(m, tree, more);
    hide EncodeValue; hide Load; hide IsSimple;
  }

  /** What is lost: the comments, one by one, and that a number was an int. */
  lemma CommentItemsAreLost(before: TreeBranch, item: Item, after: TreeBranch)
    ensures AsJson(Branch(before)) == Branch(ItemsAsJson(before))
    ensures ItemsAsJson(before + [item] + after)
         == ItemsAsJson(before) + (if item.key.Remark? then [] else [Item(item.key, AsJson(item.value))])
            + ItemsAsJson(after)
  {
    assert AsJson(Branch(before)) == Branch(ItemsAsJson(before));
    hide AsJson; hide ItemsAsJson;
    ItemsLeftJoin(before + [item], after);
    ItemsLeftJoin(before, [item]);
    ItemsLeftStep([item]);
    assert [item][1..] == [];
  }

  lemma CommentElemsAreLost(before: seq<Value>, v: Value, after: seq<Value>, n: int)
    ensures AsJson(Int(n)) == Float(n as real) && AsJson(List(before)) == List(ElemsAsJson(before))
    ensures ElemsAsJson(before + [v] + after)
         == ElemsAsJson(before) + (if v.Comment? then [] else [AsJson(v)]) + ElemsAsJson(after)
  {
    assert AsJson(Int(n)) == Float(n as real) && AsJson(List(before)) == List(ElemsAsJson(before));
    hide AsJson; hide ElemsAsJson;
    ElemsLeftJoin(before + [v], after);
    ElemsLeftJoin(before, [v]);
    ElemsLeftStep([v]);
    assert [v][1..] == [];
  }

  lemma ItemsLeftStep(items: TreeBranch)
    ensures ItemsAsJson([]) == []
    ensures items != [] ==>
              ItemsAsJson(items) ==
              (if items[0].key.Remark? then [] else [Item(items[0].key, AsJson(items[0].value))])
              + ItemsAsJson(items[1..])
  {
    hide AsJson;
  }

  lemma {:induction false} ItemsLeftJoin(a: TreeBranch, b: TreeBranch)
    ensures ItemsAsJson(a + b) == ItemsAsJson(a) + ItemsAsJson(b)
  {
    hide AsJson; hide ItemsAsJson;
    ItemsLeftStep(a);
    if a == [] {
      assert a + b == b && [] + ItemsAsJson(b) == ItemsAsJson(b);
    } else {
      ItemsLeftJoin(a[1..], b);
      ItemsLeftStep(a + b);
      assert (a + b)[0] == a[0] && (a + b)[1..] == a[1..] + b;
    }
  }

  lemma ElemsLeftStep(elems: seq<Value>)
    ensures ElemsAsJson([]) == []
    ensures elems != [] ==>
              ElemsAsJson(elems) == (if elems[0].Comment? then [] else [AsJson(elems[0])]) + ElemsAsJson(elems[1..])
  {
    hide AsJson;
    if elems != [] && elems[0].Comment? {
      assert [] + ElemsAsJson(elems[1..]) == ElemsAsJson(elems[1..]);
    }
  }

  lemma {:induction false} ElemsLeftJoin(a: seq<Value>, b: seq<Value>)
    ensures ElemsAsJson(a + b) == ElemsAsJson(a) + ElemsAsJson(b)
  {
    hide AsJson; hide ElemsAsJson;
    ElemsLeftStep(a);
    if a == [] {
      assert a + b == b && [] + ElemsAsJson(b) == ElemsAsJson(b);
    } else {
      ElemsLeftJoin(a[1..], b);
      ElemsLeftStep(a + b);
      assert (a + b)[0] == a[0] && (a + b)[1..] == a[1..] + b;
    }
  }

  /** A tree with nothing to lose. */
  ghost predicate IsJson(v: Value)
    decreases v
  {
    match v
    case Branch(items) => forall i :: 0 <= i < |items| ==> items[i].key.Name? && IsJson(items[i].value)
    case List(elems) => forall i :: 0 <= i < |elems| ==> IsJson(elems[i])
    case _ => v.Str? || v.Bool? || v.Float? || v.Nil?
  }

  lemma {:induction false} JsonIsItself(v: Value)
    requires IsJson(v)
    ensures AsJson(v) == v && IsSimple(v)
    decreases v, 1
  {
    match v
    case Branch(items) => ItemsAreThemselves(items);
    case List(elems) => ElemsAreThemselves(elems);
    case _ =>
  }

  lemma {:induction false} ItemsAreThemselves(items: TreeBranch)
    requires forall i :: 0 <= i < |items| ==> items[i].key.Name? && IsJson(items[i].value)
    ensures ItemsAsJson(items) == items
    ensures forall i :: 0 <= i < |items| ==> items[i].key.Name? && IsSimple(items[i].value)
    decreases items, 0
  {
    if items != [] {
      assert forall i :: 1 <= i < |items| ==> items[i] == items[1..][i - 1];
      ItemsAreThemselves(items[1..]);
      assert (items decreases to items[0]) && (items[0] decreases to items[0].value);
      JsonIsItself(items[0].value);
      hide AsJson; hide IsJson; hide IsSimple;
    }
  }

  lemma {:induction false} ElemsAreThemselves(elems: seq<Value>)
    requires forall i :: 0 <= i < |elems| ==> IsJson(elems[i])
    ensures ElemsAsJson(elems) == elems
    ensures forall i :: 0 <= i < |elems| ==> IsSimple(elems[i])
    decreases elems, 0
  {
    if elems != [] {
      assert forall i :: 1 <= i < |elems| ==> elems[i] == elems[1..][i - 1];
      ElemsAreThemselves(elems[1..]);
      assert elems decreases to elems[0];
      JsonIsItself(elems[0]);
      assert !elems[0].Comment?;
      hide AsJson; hide IsJson; hide IsSimple;
    }
  }

  /** It comes back as it was. */
  lemma JsonComesBack(m: Marshal, tree: TreeBranch, more: seq<JsonToken>)
    requires IsJson(Branch(tree))
    ensures var t := Printed(m, Branch(tree));
            t.Some? && Load(t.value + more) == Got(tree, more)
  {
    JsonIsItself(Branch(tree));
    SimpleComesBack(m, tree, more);
    hide Load; hide Printed; hide IsJson; hide IsSimple;
  }
}
