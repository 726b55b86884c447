/**
 What the JSON decoder makes of input that breaks off: for every prefix of every encoded tree,
 whether it is accepted, and the tree that is returned. The delimiters of the prefix alone decide.
 */
module TruncatedJson {
  import opened Trees
  import opened JsonTokens

  /** A container that is still open; in an object, a key may wait for its value. */
  datatype Container = InList | InObject(waits: bool)

  type Opened = seq<Container>

  /** A value, or a key, at this place: in an object, keys and values alternate. */
  function Placed(open: Opened): Opened {
    if open == [] || open[|open| - 1].InList? then open
    else open[..|open| - 1] + [InObject(!open[|open| - 1].waits)]
  }

  function Seen(open: Opened, t: JsonToken): Opened {
    if t == Delim('{') then Placed(open) + [InObject(false)]
    else if t == Delim('[') then Placed(open) + [InList]
    else if t == Delim('}') || t == Delim(']') then if open == [] then [] else open[..|open| - 1]
    else Placed(open)
  }

  /** The containers that are open behind the tokens, outermost first. */
  function Scan(open: Opened, tokens: seq<JsonToken>): Opened
    decreases |tokens|
  {
    if tokens == [] then open else Scan(Seen(open, tokens[0]), tokens[1..])
  }

  /** The input may end here: inside a list or behind a key, and no open object stands directly
      inside another one. */
  predicate MayEnd(open: Opened) {
    && open != [] && open[|open| - 1] != InObject(false)
    && forall i :: 0 < i < |open| ==> open[i - 1].InList? || open[i].InList?
  }

  // ---------- Scanning what is complete ----------

  lemma {:induction false} ScanConcat(open: Opened, a: seq<JsonToken>, b: seq<JsonToken>)
    ensures Scan(open, a + b) == Scan(Scan(open, a), b)
    decreases |a|
  {
    hide Seen;
    if a == [] {
      assert a + b == b;
    } else {
      assert (a + b)[0] == a[0] && (a + b)[1..] == a[1..] + b;
      ScanConcat(Seen(open, a[0]), a[1..], b);
    }
  }

  lemma ScanOne(open: Opened, t: JsonToken)
    ensures Scan(open, [t]) == Seen(open, t)
  {
    assert [t][1..] == [];
    hide Seen;
  }

  lemma ScanBracketed(open: Opened, first: JsonToken, inner: seq<JsonToken>, last: JsonToken)
    ensures Scan(open, [first] + inner + [last]) == Seen(Scan(Seen(open, first), inner), last)
  {
    hide Seen; hide Scan;
    ScanConcat(open, [first] + inner, [last]);
    ScanConcat(open, [first], inner);
    ScanOne(open, first);
    ScanOne(Scan(Seen(open, first), inner), last);
  }

  lemma {:induction false} ValueIsPlaced(v: Value, open: Opened)
    requires EncodeValue(v).Some?
    ensures Scan(open, EncodeValue(v).value) == Placed(open)
    decreases v, 1
  {
    hide Scan; hide Placed;
    if v.Branch? {
      var inner := EncodeItems(v.items).value;
      ScanBracketed(open, Delim('{'), inner, Delim('}'));
      ItemsArePlaced(v.items, Placed(open));
    } else if v.List? {
      var inner := EncodeElems(v.elems).value;
      ScanBracketed(open, Delim('['), inner, Delim(']'));
      ElemsArePlaced(v.elems, Placed(open));
    } else {
      ScanOne(open, EncodeValue(v).value[0]);
    }
  }

  lemma {:induction false} ItemIsPlaced(item: Item, open: Opened)
    requires EncodeItem(item).Some?
    ensures Scan(open + [InObject(false)], EncodeItem(item).value) == open + [InObject(false)]
    decreases item, 2
  {
    hide Scan;
    if item.key.Name? {
      var key, t := StrToken(item.key.name), EncodeValue(item.value).value;
      var atKey, atValue := open + [InObject(false)], open + [InObject(true)];
      ScanConcat(atKey, [key], t);
      ScanOne(atKey, key);
      assert Placed(atKey) == atValue && Placed(atValue) == atKey;
      ValueIsPlaced(item.value, atValue);
    } else {
      NothingScanned(open + [InObject(false)]);
    }
  }

  lemma NothingScanned(open: Opened)
    ensures Scan(open, []) == open
  {}

  lemma {:induction false} ItemsArePlaced(items: TreeBranch, open: Opened)
    requires EncodeItems(items).Some?
    ensures Scan(open + [InObject(false)], EncodeItems(items).value) == open + [InObject(false)]
    decreases items, 0
  {
    hide Scan; hide EncodeItem;
    if items == [] {
      NothingScanned(open + [InObject(false)]);
    } else {
      ScanConcat(open + [InObject(false)], EncodeItem(items[0]).value, EncodeItems(items[1..]).value);
      ItemIsPlaced(items[0], open);
      ItemsArePlaced(items[1..], open);
    }
  }

  lemma {:induction false} ElemsArePlaced(elems: seq<Value>, open: Opened)
    requires EncodeElems(elems).Some?
    ensures Scan(open + [InList], EncodeElems(elems).value) == open + [InList]
    decreases elems, 0
  {
    hide Scan; hide EncodeValue;
    if elems == [] {
      NothingScanned(open + [InList]);
    } else if elems[0].Comment? {
      ElemsArePlaced(elems[1..], open);
    } else {
      ScanConcat(open + [InList], EncodeValue(elems[0]).value, EncodeElems(elems[1..]).value);
      ValueIsPlaced(elems[0], open + [InList]);
      assert Placed(open + [InList]) == open + [InList];
      ElemsArePlaced(elems[1..], open);
    }
  }

  // ---------- Reading what breaks off ----------

  lemma InsideOf(open: Opened, outer: Container, inside: Opened) returns (inner: Opened)
    requires inside != []
    ensures inner != [] && inner[0] == outer && open + [outer] + inside == open + inner
    ensures MayEnd(inner) <==> MayEnd(inside) && (outer.InList? || inside[0].InList?)
  {
    inner := [outer] + inside;
    assert inner[|inner| - 1] == inside[|inside| - 1];
    assert forall i :: 0 <= i < |inside| ==> inner[i + 1] == inside[i];
    if MayEnd(inner) {
      assert forall i :: 0 < i < |inside| ==> inner[i].InList? || inner[i + 1].InList?;
    }
  }

  /** What has been read of a container that breaks off: the containers still open in it. */
  ghost predicate BreaksOff(v: Value, p: seq<JsonToken>, inner: Opened) {
    && inner != []
    && match v
       case Branch(items) =>
         && inner[0].InObject? && BranchFrom(p, []) == if MayEnd(inner) then Got(ReadBefore(items, p), []) else Bad
       case List(elems) =>
         && inner[0].InList? && SliceFrom(p, []) == if MayEnd(inner) then EndOfInput else Bad
       case _ => false
  }

  /** The items that are complete in the tokens. */
  function ReadBefore(items: TreeBranch, p: seq<JsonToken>): TreeBranch {
    ItemsAsJson(items[..CompleteItems(items, p)])
  }

  function CompleteItems(items: TreeBranch, p: seq<JsonToken>): (n: nat)
    ensures n <= |items|
  {
    if items != [] && EncodeItem(items[0]).Some? && EncodeItem(items[0]).value <= p
    then 1 + CompleteItems(items[1..], p[|EncodeItem(items[0]).value|..])
    else 0
  }

  lemma {:induction false} ValueBreaksOff(v: Value, p: seq<JsonToken>, open: Opened) returns (inner: Opened)
    requires EncodeValue(v).Some? && p < EncodeValue(v).value && p != []
    ensures Scan(open, p) == Placed(open) + inner && inner != [] && BreaksOff(v, p[1..], inner)
    decreases v, 1
  {
    hide Placed;
    var t := EncodeValue(v).value;
    assert p[0] == t[0] && forall i :: 0 <= i < |p| ==> p[i] == t[i];
    if v.Branch? {
      var whole := EncodeItems(v.items).value;
      assert p[1..] <= whole;
      inner := ItemsBreakOff(v.items, p[1..], Placed(open), []);
      assert [] + ReadBefore(v.items, p[1..]) == ReadBefore(v.items, p[1..]);
    } else if v.List? {
      var whole := EncodeElems(v.elems).value;
      assert p[1..] <= whole;
      inner := ElemsBreakOff(v.elems, p[1..], Placed(open), []);
    } else {
      assert false;
    }
  }

  lemma ReadOneMore(items: TreeBranch, p: seq<JsonToken>)
    requires items != [] && EncodeItem(items[0]).Some? && EncodeItem(items[0]).value <= p
    ensures ReadBefore(items, p)
         == ItemAsJson(items[0]) + ReadBefore(items[1..], p[|EncodeItem(items[0]).value|..])
  {
    var n := CompleteItems(items, p);
    assert items[..n][0] == items[0] && items[..n][1..] == items[1..][..n - 1];
    hide EncodeItem; hide ItemAsJson;
  }

  lemma {:induction false} ItemsBreakOff(items: TreeBranch, p: seq<JsonToken>, open: Opened, tree: TreeBranch)
      returns (inner: Opened)
    requires EncodeItems(items).Some? && p <= EncodeItems(items).value
    ensures inner != [] && inner[0].InObject? && Scan(open + [InObject(false)], p) == open + inner
    ensures BranchFrom(p, tree) == if MayEnd(inner) then Got(tree + ReadBefore(items, p), []) else Bad
    decreases items, 0
  {
    hide Scan; hide EncodeItem; hide BranchFrom; hide MayEnd; hide ReadBefore; hide ItemFrom;
    if items == [] {
      inner := NothingLeft(p, open, tree, items);
    } else {
      var first, rest := EncodeItem(items[0]).value, EncodeItems(items[1..]).value;
      if first <= p {
        var p' := p[|first|..];
        assert p == first + p' && p' <= rest;
        ScanConcat(open + [InObject(false)], first, p');
        ItemIsPlaced(items[0], open);
        var next := tree + ItemAsJson(items[0]);
        inner := ItemsBreakOff(items[1..], p', open, next);
        OneItemIsRead(items[0], p', tree);
        ReadOneMore(items, p);
        assert next + ReadBefore(items[1..], p') == tree + (ItemAsJson(items[0]) + ReadBefore(items[1..], p'));
      } else {
        assert p < first by {
          PrefixOfFirst(p, first, rest);
        }
        inner := ItemBreaksOff(items, p, open, tree);
      }
    }
  }

  lemma PrefixOfFirst(p: seq<JsonToken>, first: seq<JsonToken>, rest: seq<JsonToken>)
    requires p <= first + rest && !(first <= p)
    ensures p < first
  {
    assert forall i :: 0 <= i < |first| ==> (first + rest)[i] == first[i];
  }

  lemma NothingLeft(p: seq<JsonToken>, open: Opened, tree: TreeBranch, items: TreeBranch) returns (inner: Opened)
    requires p == []
    ensures inner == [InObject(false)] && Scan(open + [InObject(false)], p) == open + inner
    ensures !MayEnd(inner) && BranchFrom(p, tree) == Bad
  {
    inner := [InObject(false)];
  }

  /** The tokens break off inside the first item. */
  lemma {:induction false} ItemBreaksOff(items: TreeBranch, p: seq<JsonToken>, open: Opened, tree: TreeBranch)
      returns (inner: Opened)
    requires items != [] && EncodeItem(items[0]).Some? && p < EncodeItem(items[0]).value
    ensures inner != [] && inner[0].InObject? && Scan(open + [InObject(false)], p) == open + inner
    ensures BranchFrom(p, tree) == if MayEnd(inner) then Got(tree + ReadBefore(items, p), []) else Bad
    decreases items[0], 3
  {
    var item := items[0];
    NoneRead(items, p);
    assert tree + [] == tree;
    hide Scan; hide ReadBefore; hide BranchFrom; hide MayEnd; hide EncodeItem; hide EncodeValue; hide Placed;
    hide BreaksOff;
    if p == [] {
      inner := NothingLeft(p, open, tree, items);
    } else {
      CutBehindKey(item, p);
      KeyIsSeen(open, p);
      if |p| == 1 {
        inner := [InObject(true)];
        NothingScanned(open + inner);
        KeyWaits(p, tree);
      } else {
        var inside := ValueBreaksOff(item.value, p[1..], open + [InObject(true)]);
        inner := InsideOf(open, InObject(false), inside);
        InnerBreaksOff(item, p, inside, tree);
      }
    }
  }

  lemma CutBehindKey(item: Item, p: seq<JsonToken>)
    requires EncodeItem(item).Some? && p < EncodeItem(item).value && p != []
    ensures p[0].StrToken? && item.key.Name? && EncodeValue(item.value).Some?
    ensures p[1..] < EncodeValue(item.value).value && (|p| > 1 ==> p[1] == EncodeValue(item.value).value[0])
  {
    hide EncodeValue;
    var t := EncodeItem(item).value;
    assert forall i :: 0 <= i < |p| ==> p[i] == t[i];
    assert t[1..] == EncodeValue(item.value).value;
    assert forall i :: 0 <= i < |p| - 1 ==> p[1..][i] == t[1..][i];
  }

  lemma KeyIsSeen(open: Opened, p: seq<JsonToken>)
    requires p != [] && p[0].StrToken?
    ensures Scan(open + [InObject(false)], p) == Scan(open + [InObject(true)], p[1..])
    ensures Placed(open + [InObject(true)]) == open + [InObject(false)]
  {
    assert Seen(open + [InObject(false)], p[0]) == open + [InObject(true)];
  }

  lemma NoneRead(items: TreeBranch, p: seq<JsonToken>)
    requires items != [] && EncodeItem(items[0]).Some? && !(EncodeItem(items[0]).value <= p)
    ensures ReadBefore(items, p) == []
  {}

  lemma KeyWaits(p: seq<JsonToken>, tree: TreeBranch)
    requires |p| == 1 && p[0].StrToken?
    ensures BranchFrom(p, tree) == Got(tree, []) && MayEnd([InObject(true)])
  {}

  lemma InnerBreaksOff(item: Item, p: seq<JsonToken>, inside: Opened, tree: TreeBranch)
    requires |p| >= 2 && p[0].StrToken? && inside != [] && BreaksOff(item.value, p[1..][1..], inside)
    requires EncodeValue(item.value).Some? && p[1] == EncodeValue(item.value).value[0]
    ensures BranchFrom(p, tree) == if MayEnd(inside) && inside[0].InList? then Got(tree, []) else Bad
  {
    assert p[1..][1..] == p[2..];
    hide MayEnd;
  }

  lemma {:induction false} ElemsBreakOff(elems: seq<Value>, p: seq<JsonToken>, open: Opened, slice: seq<Value>)
      returns (inner: Opened)
    requires EncodeElems(elems).Some? && p <= EncodeElems(elems).value
    ensures inner != [] && inner[0].InList? && Scan(open + [InList], p) == open + inner
    ensures SliceFrom(p, slice) == if MayEnd(inner) then EndOfInput else Bad
    decreases elems, 0
  {
    hide Scan; hide EncodeValue; hide SliceFrom;
    if p == [] {
      NothingScanned(open + [InList]);
      inner := [InList];
      SliceFromNothing(slice);
    } else if elems[0].Comment? {
      inner := ElemsBreakOff(elems[1..], p, open, slice);
    } else {
      var first, rest := EncodeValue(elems[0]).value, EncodeElems(elems[1..]).value;
      assert Placed(open + [InList]) == open + [InList];
      if first <= p {
        var p' := p[|first|..];
        assert p == first + p' && p' <= rest;
        ScanConcat(open + [InList], first, p');
        ValueIsPlaced(elems[0], open + [InList]);
        inner := ElemsBreakOff(elems[1..], p', open, slice + [AsJson(elems[0])]);
        ElementIsRead(elems[0], p', slice);
      } else {
        PrefixOfFirst(p, first, rest);
        var inside := ValueBreaksOff(elems[0], p, open + [InList]);
        inner := InsideOf(open, InList, inside);
        ElemBreaksOff(elems[0], p, inside, slice);
      }
    }
  }

  lemma SliceFromNothing(slice: seq<Value>)
    ensures SliceFrom([], slice) == EndOfInput
  {}

  lemma ElemBreaksOff(v: Value, p: seq<JsonToken>, inside: Opened, slice: seq<Value>)
    requires p != [] && EncodeValue(v).Some? && p[0] == EncodeValue(v).value[0] && BreaksOff(v, p[1..], inside)
    ensures SliceFrom(p, slice) == if MayEnd(inside) then EndOfInput else Bad
  {
    hide MayEnd;
  }

  // ---------- The main result ----------

  /** Every proper prefix of every encoded tree: it is accepted if and only if the input may end
      there, and then gives the items that are complete in it. */
  lemma TruncationExactly(tree: TreeBranch, p: seq<JsonToken>)
    requires EncodeValue(Branch(tree)).Some? && p < EncodeValue(Branch(tree)).value
    ensures Load(p) == if MayEnd(Scan([], p)) then Got(ReadBefore(tree, p[1..]), []) else Bad
  {
    if p != [] {
      var inner := ValueBreaksOff(Branch(tree), p, []);
      assert p[0] == EncodeValue(Branch(tree)).value[0];
      assert Placed([]) + inner == inner;
      hide MayEnd; hide Scan;
    }
  }
}
