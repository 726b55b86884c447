/**
 The trie of stores/flatten.go as the source builds it: nodes in memory, which place updates in
 place and convert reads. Every node carries the value it stands for (`trie`), so that the methods
 are tied to Place, Convert and Unflattened.
 */
module Nodes {
  import opened Results
  import opened Trees
  import opened Tokens
  import opened Strings
  import opened PathSets
  import opened Tries
  import opened Conversion
  import opened Unflattening

  lemma ChildrenAfter(n: Trie, t: Token, c: Trie)
    ensures forall u :: HasChild(WithChild(n, t, c), u) <==> u == t || HasChild(n, u)
    ensures forall u :: Child(WithChild(n, t, c), u) == if u == t then c else Child(n, u)
    ensures !HasChild(n, t) ==> Child(n, t) == EMPTY
    ensures WithChild(n, t, c).value == n.value
  {}

  lemma UnchangedChild(n: Trie, t: Token)
    requires HasChild(n, t)
    ensures WithChild(n, t, Child(n, t)) == n
  {
    match t
    case MapToken(key) => assert n.subkeys == n.subkeys[key := n.subkeys[key]];
    case ListToken(i) => assert n.indices == n.indices[i := n.indices[i]];
  }

  class Node {
    var value: Option<Value>
    /** The maps subkeys and indices of the source, as one map from tokens. */
    var children: map<Token, Node>
    ghost var repr: set<Node>
    ghost var trie: Trie

    /** The nodes below form a tree. */
    ghost predicate Owns(owned: set<Node>)
      reads `children, owned
      decreases owned, 1
    {
      && this !in owned
      && (forall t :: t in children ==> children[t] in owned && children[t].repr <= owned && children[t].Valid())
      && (forall t, u :: t in children && u in children && t != u ==> children[t].repr !! children[u].repr)
    }

    ghost predicate StandsFor(n: Trie)
      reads `value, `children, children.Values
    {
      && n.value == value
      && (forall t :: t in children <==> HasChild(n, t))
      && (forall t :: t in children ==> children[t].trie == Child(n, t))
    }

    ghost predicate Valid()
      reads this, repr
      decreases repr, 0
    {
      && this in repr
      && Owns(repr - {this})
      && StandsFor(trie)
    }

    constructor ()
      ensures Valid() && fresh(repr) && trie == EMPTY
    {
      value, children := None, map[];
      repr, trie := {this}, EMPTY;
    }

    /** After a change below the child at `t`. */
    ghost method Update(t: Token, grown: set<Node>)
      requires Owns(grown) && this !in grown && t in children && trie.value == value
      requires forall u :: u in children ==> children[u] in grown
      requires forall u :: u in children <==> u == t || HasChild(trie, u)
      requires forall u :: u in children && u != t ==> children[u].trie == Child(trie, u)
      modifies `repr, `trie
      ensures Valid() && repr == grown + {this}
      ensures trie == WithChild(old(trie), t, children[t].trie)
    {
      hide HasChild; hide Child; hide WithChild; hide Owns;
      repr := grown + {this};
      assert repr - {this} == grown;
      trie := WithChild(trie, t, children[t].trie);
      ChildrenAfter(old(trie), t, children[t].trie);
    }

    method AddChild(t: Token) returns (next: Node)
      requires Valid() && t !in children
      modifies this
      ensures Valid() && fresh(repr - old(repr)) && old(repr) <= repr
      ensures t in children && children[t] == next && next.Valid() && next.repr <= repr - {this}
      ensures trie == WithChild(old(trie), t, EMPTY) && next.trie == EMPTY == Child(old(trie), t)
    {
      hide HasChild; hide Child; hide WithChild;
      next := new Node();
      children := children[t := next];
      ghost var grown := repr - {this} + next.repr;
      forall u | u in children
        ensures children[u] in grown && children[u].repr <= grown && children[u].Valid()
      {
        assert u != t ==> old(children[u].Valid());
      }
      hide StandsFor;
      Update(t, grown);
      ChildrenAfter(old(trie), t, EMPTY);
    }

    /** The child at the token, made when it is not there. */
    method Next(t: Token) returns (next: Node)
      requires Valid()
      modifies this
      ensures Valid() && fresh(repr - old(repr)) && old(repr) <= repr
      ensures t in children && children[t] == next && next.Valid() && next.repr <= repr - {this}
      ensures trie == WithChild(old(trie), t, Child(old(trie), t)) && next.trie == Child(old(trie), t)
    {
      hide HasChild; hide Child; hide WithChild;
      if t in children {
        next := children[t];
        UnchangedChild(trie, t);
      } else {
        next := AddChild(t);
      }
    }

    /** A change below the child at `t` leaves everything else in place. */
    twostate lemma StillOwns(t: Token)
      requires old(Valid()) && t in children && children == old(children)
      requires children[t].Valid() && fresh(children[t].repr - old(children[t].repr))
      requires unchanged(old(repr) - old(children[t].repr))
      ensures Owns(old(repr) - {this} + children[t].repr) && this !in children[t].repr
      ensures forall u :: u in children ==> children[u] in old(repr) - {this} + children[t].repr
      ensures value == old(value) && trie == old(trie) && trie.value == value
      ensures forall u :: u in children <==> HasChild(trie, u)
      ensures forall u :: u in children && u != t ==> children[u].trie == Child(trie, u)
    {
      hide HasChild; hide Child;
      forall u | u in children && u != t
        ensures children[u].Valid() && children[u].repr == old(children[u].repr)
        ensures children[u].trie == old(children[u].trie)
        ensures children[u].repr !! children[t].repr
      {
        assert old(children[u].Valid() && children[u].repr !! children[t].repr);
        assert children[u] in old(children[u].repr);
      }
    }

    method SetValue(v: Value)
      requires Valid()
      modifies this
      ensures Valid() && repr == old(repr) && trie == old(trie).(value := Some(v))
    {
      hide Owns;
      value := Some(v);
      trie := trie.(value := Some(v));
    }

    /** One round of the loop of the source, and the rest of it at the next node. */
    method PlaceValue(path: seq<Token>, v: Value) returns (ok: bool)
      requires Valid()
      modifies repr
      ensures Valid() && fresh(repr - old(repr))
      ensures ok == Place(old(trie), path, v).Some?
      ensures ok ==> Some(trie) == Place(old(trie), path, v)
      decreases |path|, 0
    {
      if path == [] {
        if value.Some? {
          return false;
        }
        SetValue(v);
        return true;
      }
      var next := Next(path[0]);
      ok := PlaceInChild(path[0], path[1..], v);
      hide Valid; hide HasChild; hide Child; hide WithChild;
      if ok {
        OverwrittenChild(old(trie), path[0], Child(old(trie), path[0]), Place(Child(old(trie), path[0]), path[1..],
              v).value);
      }
    }

    method PlaceInChild(t: Token, rest: seq<Token>, v: Value) returns (ok: bool)
      requires Valid() && t in children
      modifies repr
      ensures Valid() && fresh(repr - old(repr))
      ensures ok == Place(old(children[t].trie), rest, v).Some?
      ensures ok ==> trie == WithChild(old(trie), t, Place(old(children[t].trie), rest, v).value)
      decreases |rest|, 1
    {
      hide Owns; hide HasChild; hide Child; hide WithChild; hide Place;
      var next := children[t];
      OwnedChild(t);
      ok := next.PlaceValue(rest, v);
      StillOwns(t);
      ghost var grown := repr - {this} + next.repr;
      assert fresh(grown - old(repr));
      Update(t, grown);
    }

    lemma OwnedChild(t: Token)
      requires Valid() && t in children
      ensures children[t].Valid() && children[t].repr <= repr - {this} && children[t] in repr - {this}
    {}
  }

  // ---------- Reading the trie ----------

  method Pick<T(==)>(s: set<T>) returns (x: T)
    requires s != {}
    ensures x in s
  {
    x :| x in s;
  }

  /** sort.Strings on the keys of a map. */
  method SortStrings(keys: set<string>) returns (r: seq<string>)
    ensures r == Sorted(keys)
  {
    r := [];
    var left := keys;
    assert [] + Sorted(keys) == Sorted(keys);
    while left != {}
      invariant r + Sorted(left) == Sorted(keys)
      decreases |left|
    {
      var m := LeastOf(left);
      assert r + ([m] + Sorted(left - {m})) == r + [m] + Sorted(left - {m});
      r, left := r + [m], left - {m};
    }
    assert r + [] == r;
  }

  method LeastOf(s: set<string>) returns (m: string)
    requires s != {}
    ensures m == Minimum(s)
  {
    m := Pick(s);
    var left := s - {m};
    while left != {}
      invariant m in s && left <= s
      invariant forall l :: l in s && l !in left && l != m ==> Less(m, l)
      decreases |left|
    {
      var x := Pick(left);
      left := left - {x};
      LessIsTotal(x, m);
      if Less(x, m) {
        forall l | l in s && l !in left && l != x
          ensures Less(x, l)
        {
          if l != m {
            LessIsTransitive(x, m, l);
          }
        }
        m := x;
      }
    }
    LessIsTotal(m, Minimum(s));
  }

  lemma CompleteBySpan(positions: set<int>, min: int, max: int)
    requires min in positions && max in positions && forall i :: i in positions ==> min <= i <= max
    ensures min == 0 && max + 1 == |positions| <==> positions == UpTo(|positions|)
  {
    if min == 0 && max + 1 == |positions| {
      var all := UpTo(max + 1);
      assert positions <= all;
      assert |all - positions| == |all| - |positions|;
    }
    if positions == UpTo(|positions|) {
      assert |positions| > 0;
      assert 0 in positions && |positions| - 1 in positions;
    }
  }

  /** Whether the positions are 0 to n - 1, told from the smallest and the largest. */
  method IsComplete(positions: set<int>) returns (complete: bool)
    requires positions != {}
    ensures complete == (positions == UpTo(|positions|))
  {
    var minValue, maxValue := MAX_INT, -MAX_INT - 1;
    var left := positions;
    while left != {}
      invariant left <= positions
      invariant forall i :: i in positions && i !in left ==> minValue <= i <= maxValue
      invariant minValue == MAX_INT || minValue in positions
      invariant maxValue == -MAX_INT - 1 || maxValue in positions
      decreases |left|
    {
      var k := Pick(left);
      if k < minValue {
        minValue := k;
      }
      if k > maxValue {
        maxValue := k;
      }
      left := left - {k};
    }
    complete := minValue == 0 && maxValue + 1 == |positions|;
    if maxValue in positions && minValue in positions {
      CompleteBySpan(positions, minValue, maxValue);
    }
  }

  function Keys(n: Node): set<string>
    reads n
  {
    set t | t in n.children && t.MapToken? :: t.key
  }

  function Positions(n: Node): set<int>
    reads n
  {
    set t | t in n.children && t.ListToken? :: t.position
  }

  lemma ChildrenOf(n: Node)
    requires n.Valid()
    ensures Keys(n) == n.trie.subkeys.Keys && Positions(n) == n.trie.indices.Keys
    ensures n.trie.value == n.value
  {
    forall key
      ensures key in n.trie.subkeys.Keys <==> key in Keys(n)
    {
      assert HasChild(n.trie, MapToken(key)) <==> key in n.trie.subkeys;
    }
    var p, q := Positions(n), n.trie.indices.Keys;
    forall i
      ensures i in q <==> i in p
    {
      assert HasChild(n.trie, ListToken(i)) <==> i in n.trie.indices;
      assert ListToken(i) in n.children ==> ListToken(i).position in p;
    }
    SameMembers(p, q);
  }

  lemma SameMembers<T>(p: set<T>, q: set<T>)
    requires forall i :: i in q <==> i in p
    ensures p == q
  {}

  lemma ChildIsNode(n: Node, t: Token)
    requires n.Valid() && HasChild(n.trie, t)
    ensures t in n.children && n.children[t].Valid() && n.children[t].repr < n.repr
    ensures n.children[t].trie == Child(n.trie, t)
  {}

  lemma MixedDoesNotConvert(n: Trie)
    requires B2i(n.value.Some?) + B2i(|n.subkeys| > 0) + B2i(|n.indices| > 0) > 1
    ensures Convert(n) == None
  {}

  lemma LeafConverts(n: Trie)
    requires |n.subkeys| == 0 && |n.indices| == 0
    ensures Convert(n) == if n.value.Some? then n.value else Some(Branch([]))
  {}

  lemma BranchConverts(n: Trie)
    requires n.value.None? && |n.subkeys| > 0 && |n.indices| == 0
    ensures Convert(n) == match ConvertSubkeys(n, Sorted(n.subkeys.Keys))
                          case None => None
                          case Some(items) => Some(Branch(items))
  {
    hide Sorted; hide ConvertSubkeys;
  }

  lemma ListConverts(n: Trie)
    requires n.value.None? && |n.subkeys| == 0 && |n.indices| > 0
    ensures if n.indices.Keys == UpTo(|n.indices|) then
              Convert(n) == match ConvertIndices(n, |n.indices|)
                            case None => None
                            case Some(elems) => Some(List(elems))
            else Convert(n) == None
  {
    hide UpTo; hide ConvertIndices;
  }

  method ConvertNode(n: Node) returns (r: Option<Value>)
    requires n.Valid()
    ensures r == Convert(n.trie)
    decreases n.repr, 2
  {
    ChildrenOf(n);
    var hasValue, hasSubkey, hasIndex := n.value.Some?, |Keys(n)| > 0, |Positions(n)| > 0;
    hide Convert; hide Node.Valid; hide Keys; hide Positions;
    hide Sorted; hide UpTo; hide ConvertSubkeys; hide ConvertIndices;
    if B2i(hasValue) + B2i(hasSubkey) + B2i(hasIndex) > 1 {
      MixedDoesNotConvert(n.trie);
      return None;
    }
    if hasSubkey {
      BranchConverts(n.trie);
      r := ConvertBranch(n);
    } else if hasIndex {
      ListConverts(n.trie);
      r := ConvertList(n);
    } else {
      LeafConverts(n.trie);
      return if hasValue then n.value else Some(Branch([]));
    }
  }

  method ConvertBranch(n: Node) returns (r: Option<Value>)
    requires n.Valid()
    ensures r == match ConvertSubkeys(n.trie, Sorted(n.trie.subkeys.Keys))
                 case None => None
                 case Some(items) => Some(Branch(items))
    decreases n.repr, 1
  {
    ChildrenOf(n);
    var keys := SortStrings(Keys(n));
    var items := ConvertKeys(n, keys);
    return if items.Some? then Some(Branch(items.value)) else None;
  }

  method ConvertList(n: Node) returns (r: Option<Value>)
    requires n.Valid() && |n.trie.indices| > 0
    ensures if n.trie.indices.Keys == UpTo(|n.trie.indices|) then
              r == match ConvertIndices(n.trie, |n.trie.indices|)
                   case None => None
                   case Some(elems) => Some(List(elems))
            else r == None
    decreases n.repr, 1
  {
    ChildrenOf(n);
    var indices := Positions(n);
    var complete := IsComplete(indices);
    if !complete {
      return None;
    }
    var elems := ConvertPositions(n, |indices|);
    return if elems.Some? then Some(List(elems.value)) else None;
  }

  method ConvertKeys(n: Node, keys: seq<string>) returns (r: Option<TreeBranch>)
    requires n.Valid() && forall i :: 0 <= i < |keys| ==> keys[i] in n.trie.subkeys
    ensures r == ConvertSubkeys(n.trie, keys)
    decreases n.repr, 0
  {
    hide Convert; hide Node.Valid;
    var result: TreeBranch := [];
    for index := 0 to |keys|
      invariant ConvertSubkeys(n.trie, keys[..index]) == Some(result)
    {
      var t := MapToken(keys[index]);
      ChildIsNode(n, t);
      var v := ConvertNode(n.children[t]);
      if v.None? {
        SubkeysConvert(n.trie, keys);
        return None;
      }
      assert keys[..index + 1][..index] == keys[..index];
      result := result + [Item(Name(keys[index]), v.value)];
    }
    assert keys[..|keys|] == keys;
    return Some(result);
  }

  /** The elements, converted in any order. */
  method ConvertPositions(n: Node, count: nat) returns (r: Option<seq<Value>>)
    requires n.Valid() && n.trie.indices.Keys == UpTo(count)
    ensures r == ConvertIndices(n.trie, count)
    decreases n.repr, 0
  {
    hide Convert; hide UpTo; hide Node.Valid;
    ChildrenOf(n);
    var result := seq(count, _ => Nil);
    var left := Positions(n);
    while left != {}
      invariant left <= UpTo(count) && |result| == count
      invariant forall i :: 0 <= i < count && i !in left ==> Convert(n.trie.indices[i]) == Some(result[i])
      decreases |left|
    {
      var k := Pick(left);
      var t := ListToken(k);
      ChildIsNode(n, t);
      var v := ConvertNode(n.children[t]);
      if v.None? {
        IndicesConvert(n.trie, count);
        return None;
      }
      result := result[k := v.value];
      left := left - {k};
    }
    AllConverted(n.trie, result);
    return Some(result);
  }

  lemma {:induction false} AllConverted(n: Trie, elems: seq<Value>)
    requires forall i :: 0 <= i < |elems| ==> i in n.indices && Convert(n.indices[i]) == Some(elems[i])
    ensures ConvertIndices(n, |elems|) == Some(elems)
    decreases |elems|
  {
    hide Convert;
    if elems != [] {
      var init := elems[..|elems| - 1];
      AllConverted(n, init);
      assert elems == init + [elems[|elems| - 1]];
    } else {
      assert elems == [];
    }
  }

  /** The loop of the source over the items, and the conversion of the root. */
  method UnflattenTreeBranch(branch: TreeBranch) returns (r: Option<TreeBranch>)
    ensures r == Unflattened(branch)
  {
    var root := new Node();
    ghost var total := PlaceItems(EMPTY, branch);
    for i := 0 to |branch|
      invariant root.Valid() && fresh(root.repr)
      invariant PlaceItems(root.trie, branch[i..]) == total
    {
      var item := branch[i];
      assert branch[i..][0] == item && branch[i..][1..] == branch[i + 1..];
      match item.key {
        case Remark(_, _) =>
        case Name(key) =>
          var tokens := Tokenize(key);
          var ok := root.PlaceValue(tokens, item.value);
          if !ok {
            return None;
          }
        case Index(_) => return None;
      }
    }
    assert branch[|branch|..] == [];
    var result := ConvertNode(root);
    match result {
      case Some(Branch(items)) => return Some(items);
      case _ => return None;
    }
  }
}
