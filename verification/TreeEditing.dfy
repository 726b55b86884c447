/**
 Set, Unset and Truncate on document trees (sops.go), and the laws between them.
 */
module TreeEditing {
  import opened Trees

  /** A component of a path: a string or an int. */
  datatype Component = Field(name: string) | Position(n: int)

  type Path = seq<Component>

  /** What a call comes to: a value, an error, or a run-time panic. */
  datatype Outcome<+T> = Done(value: T) | Fails | Panics

  function KeyOf(c: Component): Key {
    match c
    case Field(name) => Name(name)
    case Position(n) => Index(n)
  }

  /** The first item with the key, or the length. */
  function Find(items: TreeBranch, key: Key): (i: nat)
    ensures i <= |items|
    ensures i < |items| ==> items[i].key == key
    ensures forall j :: 0 <= j < i ==> items[j].key != key
    decreases |items|
  {
    if items == [] || items[0].key == key then 0 else 1 + Find(items[1..], key)
  }

  // ---------- Set ----------

  function ValueFromPathAndLeaf(path: Path, leaf: Value): Value
    requires path != []
    decreases |path|
  {
    var inner := if |path| == 1 then leaf else ValueFromPathAndLeaf(path[1..], leaf);
    match path[0]
    case Position(_) => List([inner])
    case Field(name) => Branch([Item(Name(name), inner)])
  }

  datatype Change = Change(tree: Value, changed: bool)

  function SetIn(v: Value, path: Path, value: Value): Outcome<Change>
    decreases |path|
  {
    if path == [] then Panics
    else
      match v
      case Branch(items) =>
        var i := Find(items, KeyOf(path[0]));
        if i < |items| then
          if |path| == 1 then
            Done(Change(Branch(items[i := items[i].(value := value)]), !Equal(items[i].value, value)))
          else
            (match SetIn(items[i].value, path[1..], value)
             case Done(c) => Done(Change(Branch(items[i := items[i].(value := c.tree)]), c.changed))
             case Fails => Fails
             case Panics => Panics)
        else
          (match ValueFromPathAndLeaf(path, value)
           case Branch(made) => Done(Change(if |made| > 0 then Branch(items + [made[0]]) else v, true))
           case _ => Done(Change(v, true)))
      case List(elems) =>
        if path[0].Field? then Panics
        else
          var n := path[0].n;
          if n >= |elems| then
            Done(Change(List(elems + [if |path| == 1 then value else ValueFromPathAndLeaf(path[1..], value)]), true))
          else if n < 0 then Panics
          else if |path| == 1 then Done(Change(List(elems[n := value]), !Equal(elems[n], value)))
          else
            (match SetIn(elems[n], path[1..], value)
             case Done(c) => Done(Change(List(elems[n := c.tree]), c.changed))
             case Fails => Fails
             case Panics => Panics)
      case _ =>
        var newValue := ValueFromPathAndLeaf(path, value);
        Done(Change(newValue, !Equal(v, newValue)))
  }

  /** The search loop and the recursion of the source. */
  method SetValue(v: Value, path: Path, value: Value) returns (r: Outcome<Change>)
    ensures r == SetIn(v, path, value)
    decreases |path|, 1
  {
    hide Equal; hide ValueFromPathAndLeaf;
    if path == [] {
      return Panics;
    }
    match v {
      case Branch(items) => r := SetItem(items, path, value);
      case List(elems) => r := SetElem(elems, path, value);
      case _ =>
        var newValue := ValueFromPathAndLeaf(path, value);
        return Done(Change(newValue, !Equal(v, newValue)));
    }
  }

  method SetItem(items: TreeBranch, path: Path, value: Value) returns (r: Outcome<Change>)
    requires path != []
    ensures r == SetIn(Branch(items), path, value)
    decreases |path|, 0
  {
    hide Equal; hide ValueFromPathAndLeaf;
    for i := 0 to |items|
      invariant forall j :: 0 <= j < i ==> items[j].key != KeyOf(path[0])
    {
      if items[i].key == KeyOf(path[0]) {
        assert Find(items, KeyOf(path[0])) == i;
        hide Find;
        if |path| == 1 {
          return Done(Change(Branch(items[i := items[i].(value := value)]), !Equal(items[i].value, value)));
        }
        var inner := SetValue(items[i].value, path[1..], value);
        return if inner.Done? then
            Done(Change(Branch(items[i := items[i].(value := inner.value.tree)]), inner.value.changed))
          else inner;
      }
    }
    var made := ValueFromPathAndLeaf(path, value);
    if made.Branch? && |made.items| > 0 {
      return Done(Change(Branch(items + [made.items[0]]), true));
    }
    return Done(Change(Branch(items), true));
  }

  method SetElem(elems: seq<Value>, path: Path, value: Value) returns (r: Outcome<Change>)
    requires path != []
    ensures r == SetIn(List(elems), path, value)
    decreases |path|, 0
  {
    hide Equal; hide ValueFromPathAndLeaf;
    if path[0].Field? {
      return Panics;
    }
    var position := path[0].n;
    if |path| == 1 {
      if position >= |elems| {
        return Done(Change(List(elems + [value]), true));
      }
      if position < 0 {
        return Panics;
      }
      return Done(Change(List(elems[position := value]), !Equal(elems[position], value)));
    }
    if position >= |elems| {
      return Done(Change(List(elems + [ValueFromPathAndLeaf(path[1..], value)]), true));
    }
    if position < 0 {
      return Panics;
    }
    var inner := SetValue(elems[position], path[1..], value);
    return if inner.Done? then Done(Change(List(elems[position := inner.value.tree]), inner.value.changed)) else inner;
  }

  // ---------- Truncate ----------

  /** What a path can lead to. With an int, reflection also reaches the items of a branch and the
      bytes of a byte slice. */
  datatype Part = Part(value: Value) | ItemPart(item: Item) | BytePart(byte: char)

  function StepInto(part: Part, c: Component): Outcome<Part> {
    match c
    case Field(name) =>
      if part.Part? && part.value.Branch? then
        var items := part.value.items;
        var i := Find(items, Name(name));
        if i < |items| then Done(Part(items[i].value)) else Fails
      else Panics
    case Position(n) =>
      match part
      case Part(Branch(items)) => if |items| <= n then Fails else if n < 0 then Panics else Done(ItemPart(items[n]))
      case Part(List(elems)) => if |elems| <= n then Fails else if n < 0 then Panics else Done(Part(elems[n]))
      case Part(Bytes(raw)) => if |raw| <= n then Fails else if n < 0 then Panics else Done(BytePart(raw[n]))
      case _ => Fails
  }

  function TruncateFrom(part: Part, path: Path): Outcome<Part>
    decreases |path|
  {
    if path == [] then Done(part)
    else
      match StepInto(part, path[0])
      case Done(next) => TruncateFrom(next, path[1..])
      case Fails => Fails
      case Panics => Panics
  }

  function Truncated(v: Value, path: Path): Outcome<Part> {
    TruncateFrom(Part(v), path)
  }

  method Truncate(branch: TreeBranch, path: Path) returns (r: Outcome<Part>)
    ensures r == Truncated(Branch(branch), path)
  {
    hide StepInto;
    var current := Part(Branch(branch));
    for k := 0 to |path|
      invariant TruncateFrom(current, path[k..]) == Truncated(Branch(branch), path)
    {
      assert path[k..][0] == path[k] && path[k..][1..] == path[k + 1..];
      var next := StepInto(current, path[k]);
      if !next.Done? {
        return next;
      }
      current := next.value;
    }
    assert path[|path|..] == [];
    return Done(current);
  }

  // ---------- Unset ----------

  function UnsetIn(v: Value, path: Path): Outcome<Value>
    decreases |path|
  {
    if path == [] then Panics
    else
      match v
      case Branch(items) =>
        var i := Find(items, KeyOf(path[0]));
        if i == |items| then Fails
        else if |path| == 1 then Done(Branch(items[..i] + items[i + 1..]))
        else
          (match UnsetIn(items[i].value, path[1..])
           case Done(w) => Done(Branch(items[i := items[i].(value := w)]))
           case Fails => Fails
           case Panics => Panics)
      case List(elems) =>
        if path[0].Field? then Panics
        else
          var n := path[0].n;
          if n >= |elems| then Fails
          else if n < 0 then Panics
          else if |path| == 1 then Done(List(elems[..n] + elems[n + 1..]))
          else
            (match UnsetIn(elems[n], path[1..])
             case Done(w) => Done(List(elems[n := w]))
             case Fails => Fails
             case Panics => Panics)
      case _ => Fails
  }

  method UnsetValue(v: Value, path: Path) returns (r: Outcome<Value>)
    ensures r == UnsetIn(v, path)
    decreases |path|
  {
    if path == [] {
      return Panics;
    }
    match v {
      case Branch(items) =>
        for i := 0 to |items|
          invariant forall j :: 0 <= j < i ==> items[j].key != KeyOf(path[0])
        {
          if items[i].key == KeyOf(path[0]) {
            assert Find(items, KeyOf(path[0])) == i;
            if |path| == 1 {
              return Done(Branch(items[..i] + items[i + 1..]));
            }
            var inner := UnsetValue(items[i].value, path[1..]);
            return if inner.Done? then Done(Branch(items[i := items[i].(value := inner.value)])) else inner;
          }
        }
        return Fails;
      case List(elems) =>
        if path[0].Field? {
          return Panics;
        }
        var position := path[0].n;
        if position >= |elems| {
          return Fails;
        }
        if position < 0 {
          return Panics;
        }
        if |path| == 1 {
          return Done(List(elems[..position] + elems[position + 1..]));
        }
        var inner := UnsetValue(elems[position], path[1..]);
        return if inner.Done? then Done(List(elems[position := inner.value])) else inner;
      case _ => return Fails;
    }
  }
}
