/**
 The JSON store between its trees and the tokens of encoding/json (stores/json/store.go): the
 encoder, the recursive-descent decoder, and what comes back.
 */
module JsonTokens {
  import opened Results
  import opened Trees

  datatype JsonToken = Delim(c: char) | StrToken(s: string) | BoolToken(b: bool) | NumToken(x: real) | NullToken

  // ---------- Decoding ----------

  /** The value of a token that opens nothing. A stray closing delimiter is kept as it is. */
  function LeafOf(t: JsonToken): Value {
    match t
    case Delim(c) => Unknown(c as int)
    case StrToken(s) => Str(s)
    case BoolToken(b) => Bool(b)
    case NumToken(x) => Float(x)
    case NullToken => Nil
  }

  /** A value with the tokens behind it, the end of the input, or another error. */
  datatype Decoded<+T> = Got(value: T, rest: seq<JsonToken>) | EndOfInput | Bad

  function SliceFrom(tokens: seq<JsonToken>, slice: seq<Value>): (r: Decoded<seq<Value>>)
    ensures r.Got? ==> |r.rest| < |tokens|
    decreases |tokens|
  {
    if tokens == [] then EndOfInput
    else
      var t, rest := tokens[0], tokens[1..];
      if t == Delim(']') then Got(slice, rest)
      else if t == Delim('{') then
        match BranchFrom(rest, [])
        case Got(items, more) => SliceFrom(more, slice + [Branch(items)])
        case EndOfInput => EndOfInput
        case Bad => Bad
      else if t == Delim('[') then
        match SliceFrom(rest, [])
        case Got(elems, more) => SliceFrom(more, slice + [List(elems)])
        case EndOfInput => EndOfInput
        case Bad => Bad
      else SliceFrom(rest, slice + [LeafOf(t)])
  }

  /** What treeItemFromJSONDecoder returns: an item, the end of the object, or an error. */
  datatype ItemResult =
    | GotItem(item: Item, rest: seq<JsonToken>)
    | EndOfObject(rest: seq<JsonToken>)
    | ItemEndOfInput
    | BadItem

  function ItemFrom(tokens: seq<JsonToken>): (r: ItemResult)
    ensures r.GotItem? ==> |r.rest| < |tokens|
    ensures r.EndOfObject? ==> |r.rest| < |tokens|
    decreases |tokens|, 0
  {
    if tokens == [] then BadItem
    else if tokens[0] == Delim('}') then EndOfObject(tokens[1..])
    else if !tokens[0].StrToken? then BadItem
    else if |tokens| == 1 then ItemEndOfInput
    else
      var key, t, rest := Name(tokens[0].s), tokens[1], tokens[2..];
      if t == Delim('[') then
        match SliceFrom(rest, [])
        case Got(elems, more) => GotItem(Item(key, List(elems)), more)
        case EndOfInput => ItemEndOfInput
        case Bad => BadItem
      else if t == Delim('{') then
        match BranchFrom(rest, [])
        case Got(items, more) => GotItem(Item(key, Branch(items)), more)
        case EndOfInput => ItemEndOfInput
        case Bad => BadItem
      else GotItem(Item(key, if t.Delim? then Nil else LeafOf(t)), rest)
  }

  /** The end of the input inside a value ends the object without an error. */
  function BranchFrom(tokens: seq<JsonToken>, tree: TreeBranch): (r: Decoded<TreeBranch>)
    ensures r.Got? ==> |r.rest| < |tokens|
    decreases |tokens|, 1
  {
    match ItemFrom(tokens)
    case GotItem(item, rest) => BranchFrom(rest, tree + [item])
    case EndOfObject(rest) => Got(tree, rest)
    case ItemEndOfInput => Got(tree, [])
    case BadItem => Bad
  }

  /** json.Decoder: the tokens that are still to come. */
  class Decoder {
    var tokens: seq<JsonToken>

    constructor (tokens: seq<JsonToken>)
      ensures this.tokens == tokens
    {
      this.tokens := tokens;
    }

    method Token() returns (t: Option<JsonToken>)
      modifies this
      ensures old(tokens) == [] ==> t == None && tokens == []
      ensures old(tokens) != [] ==> t == Some(old(tokens)[0]) && tokens == old(tokens)[1..]
    {
      if tokens == [] {
        return None;
      }
      t := Some(tokens[0]);
      tokens := tokens[1..];
    }
  }

  method SliceFromJSONDecoder(dec: Decoder) returns (r: Decoded<seq<Value>>)
    modifies dec
    ensures r == SliceFrom(old(dec.tokens), [])
    ensures r.Got? ==> dec.tokens == r.rest
    ensures r.EndOfInput? ==> dec.tokens == []
    decreases |dec.tokens|, 2
  {
    var slice: seq<Value> := [];
    while true
      invariant |dec.tokens| <= |old(dec.tokens)|
      invariant SliceFrom(dec.tokens, slice) == SliceFrom(old(dec.tokens), [])
      decreases |dec.tokens|
    {
      hide BranchFrom;
      var t := dec.Token();
      if t.None? {
        return EndOfInput;
      }
      if t.value == Delim(']') {
        return Got(slice, dec.tokens);
      } else if t.value == Delim('{') {
        var item := TreeBranchFromJSONDecoder(dec);
        match item {
          case Got(items, _) => slice := slice + [Branch(items)];
          case EndOfInput => return EndOfInput;
          case Bad => return Bad;
        }
      } else if t.value == Delim('[') {
        var item := SliceFromJSONDecoder(dec);
        match item {
          case Got(elems, _) => slice := slice + [List(elems)];
          case EndOfInput => return EndOfInput;
          case Bad => return Bad;
        }
      } else {
        slice := slice + [LeafOf(t.value)];
      }
    }
  }

  method TreeItemFromJSONDecoder(dec: Decoder) returns (r: ItemResult)
    modifies dec
    ensures r == ItemFrom(old(dec.tokens))
    ensures r.GotItem? || r.EndOfObject? ==> dec.tokens == r.rest
    ensures r.ItemEndOfInput? ==> dec.tokens == []
    decreases |dec.tokens|, 0
  {
    var key := dec.Token();
    if key.None? {
      return BadItem;
    }
    if key.value == Delim('}') {
      return EndOfObject(dec.tokens);
    }
    if !key.value.StrToken? {
      return BadItem;
    }
    var value := dec.Token();
    if value.None? {
      return ItemEndOfInput;
    }
    if value.value == Delim('[') {
      var v := SliceFromJSONDecoder(dec);
      match v {
        case Got(elems, _) => return GotItem(Item(Name(key.value.s), List(elems)), dec.tokens);
        case EndOfInput => return ItemEndOfInput;
        case Bad => return BadItem;
      }
    }
    if value.value == Delim('{') {
      var v := TreeBranchFromJSONDecoder(dec);
      match v {
        case Got(items, _) => return GotItem(Item(Name(key.value.s), Branch(items)), dec.tokens);
        case EndOfInput => return ItemEndOfInput;
        case Bad => return BadItem;
      }
    }
    return GotItem(Item(Name(key.value.s), if value.value.Delim? then Nil else LeafOf(value.value)), dec.tokens);
  }

  method TreeBranchFromJSONDecoder(dec: Decoder) returns (r: Decoded<TreeBranch>)
    modifies dec
    ensures r == BranchFrom(old(dec.tokens), [])
    ensures r.Got? ==> dec.tokens == r.rest
    ensures r.EndOfInput? ==> dec.tokens == []
    decreases |dec.tokens|, 1
  {
    var tree: TreeBranch := [];
    while true
      invariant |dec.tokens| <= |old(dec.tokens)|
      invariant BranchFrom(dec.tokens, tree) == BranchFrom(old(dec.tokens), [])
      decreases |dec.tokens|
    {
      hide ItemFrom;
      var item := TreeItemFromJSONDecoder(dec);
      match item {
        case GotItem(i, _) => tree := tree + [i];
        case EndOfObject(_) => return Got(tree, dec.tokens);
        case ItemEndOfInput => return Got(tree, []);
        case BadItem => return Bad;
      }
    }
  }

  // ---------- Encoding ----------

  function EncodeValue(v: Value): Option<seq<JsonToken>>
    decreases v, 1
  {
    match v
    case Branch(items) =>
      (match EncodeItems(items)
       case None => None
       case Some(t) => Some([Delim('{')] + t + [Delim('}')]))
    case List(elems) =>
      (match EncodeElems(elems)
       case None => None
       case Some(t) => Some([Delim('[')] + t + [Delim(']')]))
    case Str(s) => Some([StrToken(s)])
    case Bool(b) => Some([BoolToken(b)])
    case Float(x) => Some([NumToken(x)])
    case Int(n) => Some([NumToken(n as real)])
    case Nil => Some([NullToken])
    case _ => None
  }

  function EncodeItem(item: Item): Option<seq<JsonToken>>
    decreases item, 2
  {
    match item.key
    case Remark(_, _) => Some([])
    case Index(_) => None
    case Name(key) =>
      match EncodeValue(item.value)
      case None => None
      case Some(t) => Some([StrToken(key)] + t)
  }

  function EncodeItems(items: TreeBranch): Option<seq<JsonToken>>
    decreases items, 0
  {
    if items == [] then Some([])
    else
      match (EncodeItem(items[0]), EncodeItems(items[1..]))
      case (Some(t), Some(more)) => Some(t + more)
      case _ => None
  }

  function EncodeElems(elems: seq<Value>): Option<seq<JsonToken>>
    decreases elems, 0
  {
    if elems == [] then Some([])
    else if elems[0].Comment? then EncodeElems(elems[1..])
    else
      match (EncodeValue(elems[0]), EncodeElems(elems[1..]))
      case (Some(t), Some(more)) => Some(t + more)
      case _ => None
  }

  // ---------- Values that are no JSON ----------

  /** What json.Marshal prints for a time stamp, which it can refuse, and for a byte slice. */
  datatype Marshal = Marshal(time: int -> Option<string>, base64: string -> string)

  /** The tree as json.Marshal prints its leaves: a comment as a value is a struct like any other,
      while the comments in lists and as keys are skipped. */
  function Marshalled(m: Marshal, v: Value): Value
    decreases v, 1
  {
    match v
    case Branch(items) => Branch(MarshalledItems(m, items))
    case List(elems) => List(MarshalledElems(m, elems))
    case Time(t) => (match m.time(t) case None => v case Some(s) => Str(s))
    case Bytes(raw) => Str(m.base64(raw))
    case Comment(text, inline) => Branch([Item(Name("Value"), Str(text)), Item(Name("Inline"), Bool(inline))])
    case _ => v
  }

  function MarshalledItem(m: Marshal, item: Item): Item
    decreases item, 2
  {
    if item.key.Name? then Item(item.key, Marshalled(m, item.value)) else item
  }

  function MarshalledItems(m: Marshal, items: TreeBranch): TreeBranch
    decreases items, 0
  {
    if items == [] then [] else [MarshalledItem(m, items[0])] + MarshalledItems(m, items[1..])
  }

  function MarshalledElems(m: Marshal, elems: seq<Value>): seq<Value>
    decreases elems, 0
  {
    if elems == [] then []
    else [if elems[0].Comment? then elems[0] else Marshalled(m, elems[0])] + MarshalledElems(m, elems[1..])
  }

  lemma ElemsGoOn(m: Marshal, elems: seq<Value>)
    requires elems != []
    ensures EncodeElems(MarshalledElems(m, elems)) ==
            if elems[0].Comment? then EncodeElems(MarshalledElems(m, elems[1..]))
            else match EncodeValue(Marshalled(m, elems[0]))
                 case None => None
                 case Some(t) => Prepended(t, EncodeElems(MarshalledElems(m, elems[1..])))
  {
    var all, rest := MarshalledElems(m, elems), MarshalledElems(m, elems[1..]);
    assert all[1..] == rest;
    hide EncodeValue;
  }

  lemma ItemsGoOn(m: Marshal, items: TreeBranch)
    requires items != []
    ensures EncodeItems(MarshalledItems(m, items)) ==
            match EncodeItem(MarshalledItem(m, items[0]))
            case None => None
            case Some(t) => Prepended(t, EncodeItems(MarshalledItems(m, items[1..])))
  {
    var all, rest := MarshalledItems(m, items), MarshalledItems(m, items[1..]);
    assert all[1..] == rest;
    hide EncodeItem;
  }

  /** The loops of the encoder. */
  method EncodeArray(m: Marshal, elems: seq<Value>) returns (r: Option<seq<JsonToken>>)
    ensures r == EncodeValue(Marshalled(m, List(elems)))
    decreases elems, 0
  {
    var out: seq<JsonToken> := [];
    hide EncodeValue; hide EncodeElems; hide MarshalledElems;
    ghost var whole := EncodeElems(MarshalledElems(m, elems));
    NothingPrepended(whole);
    assert elems[0..] == elems;
    for i := 0 to |elems|
      invariant whole == Prepended(out, EncodeElems(MarshalledElems(m, elems[i..])))
    {
      var item := elems[i];
      assert elems[i..][0] == item && elems[i..][1..] == elems[i + 1..];
      ElemsGoOn(m, elems[i..]);
      if item.Comment? {
        continue;
      }
      assert elems decreases to item;
      var v := EncodeAny(m, item);
      if v.None? {
        ListFails(MarshalledElems(m, elems));
        return None;
      }
      PrependedTwice(out, v.value, EncodeElems(MarshalledElems(m, elems[i + 1..])));
      out := out + v.value;
    }
    assert elems[|elems|..] == [];
    NoMoreTokens(m, out);
    ListEncodes(MarshalledElems(m, elems), out);
    return Some([Delim('[')] + out + [Delim(']')]);
  }

  method EncodeTree(m: Marshal, tree: TreeBranch) returns (r: Option<seq<JsonToken>>)
    ensures r == EncodeValue(Marshalled(m, Branch(tree)))
    decreases tree, 0
  {
    var out: seq<JsonToken> := [];
    hide EncodeValue; hide EncodeItems; hide MarshalledItems; hide Marshalled;
    ghost var whole := EncodeItems(MarshalledItems(m, tree));
    NothingPrepended(whole);
    MarshalledBranch(m, tree);
    assert tree[0..] == tree;
    for i := 0 to |tree|
      invariant whole == Prepended(out, EncodeItems(MarshalledItems(m, tree[i..])))
    {
      var item := tree[i];
      assert tree[i..][0] == item && tree[i..][1..] == tree[i + 1..];
      ItemsGoOn(m, tree[i..]);
      ghost var more := EncodeItems(MarshalledItems(m, tree[i + 1..]));
      match item.key {
        case Remark(_, _) =>
          PrependedTwice(out, [], more);
          NothingPrepended(more);
          assert out + [] == out;
        case Index(_) =>
          BranchFails(MarshalledItems(m, tree));
          return None;
        case Name(key) =>
          assert (tree decreases to item) && (item decreases to item.value);
          var v := EncodeAny(m, item.value);
          if v.None? {
            BranchFails(MarshalledItems(m, tree));
            return None;
          }
          PrependedTwice(out, [StrToken(key)] + v.value, more);
          out := out + ([StrToken(key)] + v.value);
      }
    }
    assert tree[|tree|..] == [];
    NoMoreTokens(m, out);
    BranchEncodes(MarshalledItems(m, tree), out);
    return Some([Delim('{')] + out + [Delim('}')]);
  }

  lemma MarshalledBranch(m: Marshal, items: TreeBranch)
    ensures Marshalled(m, Branch(items)) == Branch(MarshalledItems(m, items))
  {}

  lemma NoMoreTokens(m: Marshal, out: seq<JsonToken>)
    ensures Prepended(out, EncodeElems(MarshalledElems(m, []))) == Some(out)
    ensures Prepended(out, EncodeItems(MarshalledItems(m, []))) == Some(out)
  {
    assert out + [] == out;
  }

  method EncodeAny(m: Marshal, v: Value) returns (r: Option<seq<JsonToken>>)
    ensures r == EncodeValue(Marshalled(m, v))
    decreases v, 1
  {
    match v {
      case Branch(items) => r := EncodeTree(m, items);
      case List(elems) => r := EncodeArray(m, elems);
      case _ => r := EncodeValue(Marshalled(m, v));
    }
  }

  function Prepended(out: seq<JsonToken>, more: Option<seq<JsonToken>>): Option<seq<JsonToken>> {
    match more
    case None => None
    case Some(t) => Some(out + t)
  }

  lemma NothingPrepended(more: Option<seq<JsonToken>>)
    ensures Prepended([], more) == more
  {
    if more.Some? {
      assert [] + more.value == more.value;
    }
  }

  lemma PrependedTwice(out: seq<JsonToken>, t: seq<JsonToken>, more: Option<seq<JsonToken>>)
    ensures Prepended(out + t, more) == match more case None => None case Some(m) => Some(out + (t + m))
  {
    if more.Some? {
      assert out + t + more.value == out + (t + more.value);
    }
  }

  lemma ListEncodes(elems: seq<Value>, t: seq<JsonToken>)
    requires EncodeElems(elems) == Some(t)
    ensures EncodeValue(List(elems)) == Some([Delim('[')] + t + [Delim(']')])
  {}

  lemma ListFails(elems: seq<Value>)
    requires EncodeElems(elems) == None
    ensures EncodeValue(List(elems)) == None
  {}

  lemma BranchEncodes(items: TreeBranch, t: seq<JsonToken>)
    requires EncodeItems(items) == Some(t)
    ensures EncodeValue(Branch(items)) == Some([Delim('{')] + t + [Delim('}')])
  {}

  lemma BranchFails(items: TreeBranch)
    requires EncodeItems(items) == None
    ensures EncodeValue(Branch(items)) == None
  {}

  // ---------- There and back ----------

  /** The tree without its comments, and with all numbers as floats. */
  function AsJson(v: Value): Value
    decreases v, 1
  {
    match v
    case Branch(items) => Branch(ItemsAsJson(items))
    case List(elems) => List(ElemsAsJson(elems))
    case Int(n) => Float(n as real)
    case _ => v
  }

  function ItemAsJson(item: Item): TreeBranch
    decreases item, 2
  {
    if item.key.Remark? then [] else [Item(item.key, AsJson(item.value))]
  }

  function ItemsAsJson(items: TreeBranch): TreeBranch
    decreases items, 0
  {
    if items == [] then [] else ItemAsJson(items[0]) + ItemsAsJson(items[1..])
  }

  function ElemsAsJson(elems: seq<Value>): seq<Value>
    decreases elems, 0
  {
    if elems == [] then []
    else if elems[0].Comment? then ElemsAsJson(elems[1..])
    else [AsJson(elems[0])] + ElemsAsJson(elems[1..])
  }

  lemma Regroup<T>(a: seq<T>, b: seq<T>, c: seq<T>, d: seq<T>)
    ensures a + b + c + d == a + (b + (c + d))
  {}

  /** In a list, an encoded value is read as one element. */
  lemma {:induction false} ElementIsRead(v: Value, more: seq<JsonToken>, slice: seq<Value>)
    requires EncodeValue(v).Some?
    ensures SliceFrom(EncodeValue(v).value + more, slice) == SliceFrom(more, slice + [AsJson(v)])
    decreases v, 1
  {
    var t := EncodeValue(v).value + more;
    if v.Branch? {
      var inner := EncodeItems(v.items).value;
      Regroup([Delim('{')], inner, [Delim('}')], more);
      assert t[1..] == inner + ([Delim('}')] + more);
      BranchIsRead(v.items, more);
    } else if v.List? {
      var inner := EncodeElems(v.elems).value;
      Regroup([Delim('[')], inner, [Delim(']')], more);
      assert t[1..] == inner + ([Delim(']')] + more);
      ListIsRead(v.elems, more);
    } else {
      assert t[1..] == more;
    }
  }

  lemma {:induction false} ListIsRead(elems: seq<Value>, more: seq<JsonToken>)
    requires EncodeElems(elems).Some?
    ensures SliceFrom(EncodeElems(elems).value + ([Delim(']')] + more), []) == Got(ElemsAsJson(elems), more)
    decreases elems, 1
  {
    var end := [Delim(']')] + more;
    ElemsAreRead(elems, end, []);
    assert end[1..] == more && [] + ElemsAsJson(elems) == ElemsAsJson(elems);
  }

  lemma {:induction false} ElemsAreRead(elems: seq<Value>, more: seq<JsonToken>, slice: seq<Value>)
    requires EncodeElems(elems).Some?
    ensures SliceFrom(EncodeElems(elems).value + more, slice) == SliceFrom(more, slice + ElemsAsJson(elems))
    decreases elems, 0
  {
    hide SliceFrom;
    if elems == [] {
      assert [] + more == more && slice + [] == slice;
    } else if elems[0].Comment? {
      ElemsAreRead(elems[1..], more, slice);
    } else {
      var first, rest := EncodeValue(elems[0]).value, EncodeElems(elems[1..]).value;
      assert first + rest + more == first + (rest + more);
      ElementIsRead(elems[0], rest + more, slice);
      ElemsAreRead(elems[1..], more, slice + [AsJson(elems[0])]);
      assert slice + [AsJson(elems[0])] + ElemsAsJson(elems[1..]) ==
            slice + ([AsJson(elems[0])] + ElemsAsJson(elems[1..]));
    }
  }

  /** In an object, an encoded item is read as one item. */
  lemma {:induction false} ItemIsRead(item: Item, more: seq<JsonToken>)
    requires EncodeItem(item).Some? && item.key.Name?
    ensures ItemFrom(EncodeItem(item).value + more) == GotItem(Item(item.key, AsJson(item.value)), more)
    decreases item, 2
  {
    var v := EncodeValue(item.value).value;
    var t := EncodeItem(item).value + more;
    assert t == [StrToken(item.key.name)] + v + more;
    assert t[0] == StrToken(item.key.name) && t[1] == v[0];
    if item.value.Branch? {
      var inner := EncodeItems(item.value.items).value;
      assert t[2..] == inner + ([Delim('}')] + more);
      BranchIsRead(item.value.items, more);
    } else if item.value.List? {
      var inner := EncodeElems(item.value.elems).value;
      assert t[2..] == inner + ([Delim(']')] + more);
      ListIsRead(item.value.elems, more);
    } else {
      assert t[2..] == more;
    }
  }

  lemma {:induction false} BranchIsRead(items: TreeBranch, more: seq<JsonToken>)
    requires EncodeItems(items).Some?
    ensures BranchFrom(EncodeItems(items).value + ([Delim('}')] + more), []) == Got(ItemsAsJson(items), more)
    decreases items, 1
  {
    var end := [Delim('}')] + more;
    ItemsAreRead(items, end, []);
    assert end[1..] == more && [] + ItemsAsJson(items) == ItemsAsJson(items);
  }

  lemma {:induction false} ItemsAreRead(items: TreeBranch, more: seq<JsonToken>, tree: TreeBranch)
    requires EncodeItems(items).Some?
    ensures BranchFrom(EncodeItems(items).value + more, tree) == BranchFrom(more, tree + ItemsAsJson(items))
    decreases items, 0
  {
    hide ItemFrom; hide BranchFrom; hide EncodeItem; hide ItemAsJson;
    if items == [] {
      assert [] + more == more && tree + [] == tree;
    } else {
      var first, rest := EncodeItem(items[0]).value, EncodeItems(items[1..]).value;
      assert first + rest + more == first + (rest + more);
      OneItemIsRead(items[0], rest + more, tree);
      var next := tree + ItemAsJson(items[0]);
      ItemsAreRead(items[1..], more, next);
      assert next + ItemsAsJson(items[1..]) == tree + (ItemAsJson(items[0]) + ItemsAsJson(items[1..]));
    }
  }

  lemma {:induction false} OneItemIsRead(item: Item, more: seq<JsonToken>, tree: TreeBranch)
    requires EncodeItem(item).Some?
    ensures BranchFrom(EncodeItem(item).value + more, tree) == BranchFrom(more, tree + ItemAsJson(item))
    decreases item, 3
  {
    hide ItemFrom;
    if item.key.Name? {
      ItemIsRead(item, more);
      hide EncodeValue; hide AsJson;
    } else {
      assert EncodeItem(item).value == [];
      assert [] + more == more && tree + [] == tree;
    }
  }

  /** treeBranchFromJSON: the top level must be an object. */
  function Load(tokens: seq<JsonToken>): Decoded<TreeBranch> {
    if tokens == [] || tokens[0] != Delim('{') then Bad else BranchFrom(tokens[1..], [])
  }

  lemma EncodedIsRead(tree: TreeBranch, more: seq<JsonToken>)
    requires EncodeValue(Branch(tree)).Some?
    ensures Load(EncodeValue(Branch(tree)).value + more) == Got(ItemsAsJson(tree), more)
  {
    var inner, t := EncodeItems(tree).value, EncodeValue(Branch(tree)).value + more;
    Regroup([Delim('{')], inner, [Delim('}')], more);
    assert t[1..] == inner + ([Delim('}')] + more);
    BranchIsRead(tree, more);
  }

  /** The main result: decoding what was encoded, whatever follows, gives the tree without its
      comments, with its leaves as they were printed, and leaves exactly what follows. */
  lemma DecodeUndoesEncode(m: Marshal, tree: TreeBranch, more: seq<JsonToken>)
    requires EncodeValue(Marshalled(m, Branch(tree))).Some?
    ensures Load(EncodeValue(Marshalled(m, Branch(tree))).value + more)
         == Got(ItemsAsJson(MarshalledItems(m, tree)), more)
  {
    MarshalledBranch(m, tree);
    EncodedIsRead(MarshalledItems(m, tree), more);
    hide EncodeValue; hide Load;
  }
}
