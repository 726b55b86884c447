/**
 The metadata in the data tree (stores/metadata.go): SerializeMetadata puts it there, and
 ExtractMetadata takes it out again. The metadata is the tree made of it; its fields are not
 looked at.
 */
module MetadataEmbedding {
  import opened Results
  import opened Trees
  import opened Tokens
  import opened Unflattening
  import opened Nodes
  import opened Flattening
  import opened FlatLeaves
  import opened TreeTries
  import opened FlattenRoundTrip

  datatype MetadataFlatten = FlattenNone | FlattenBelowTop | FlattenFull

  const SOPS_METADATA_KEY := "sops"
  const SOPS_PREFIX := "sops_"

  /** The keys the metadata is stored under. */
  predicate IsReserved(mode: MetadataFlatten, item: Item) {
    item.key.Name? && if mode.FlattenFull? then SOPS_PREFIX <= item.key.name else item.key.name == SOPS_METADATA_KEY
  }

  function Reserved(mode: MetadataFlatten, branch: TreeBranch): TreeBranch {
    if branch == [] then []
    else if IsReserved(mode, branch[0]) then [branch[0]] + Reserved(mode, branch[1..])
    else Reserved(mode, branch[1..])
  }

  /** The other items, in order. */
  function Unreserved(mode: MetadataFlatten, branch: TreeBranch): TreeBranch {
    if branch == [] then []
    else if IsReserved(mode, branch[0]) then Unreserved(mode, branch[1..])
    else [branch[0]] + Unreserved(mode, branch[1..])
  }

  lemma {:induction false} FilterConcat(mode: MetadataFlatten, a: TreeBranch, b: TreeBranch)
    ensures Reserved(mode, a + b) == Reserved(mode, a) + Reserved(mode, b)
    ensures Unreserved(mode, a + b) == Unreserved(mode, a) + Unreserved(mode, b)
    decreases |a|
  {
    hide IsReserved;
    if a == [] {
      assert a + b == b;
    } else {
      assert (a + b)[1..] == a[1..] + b && (a + b)[0] == a[0];
      FilterConcat(mode, a[1..], b);
      var x, r, u := [a[0]], Reserved(mode, a[1..]), Unreserved(mode, a[1..]);
      assert x + (r + Reserved(mode, b)) == x + r + Reserved(mode, b);
      assert x + (u + Unreserved(mode, b)) == x + u + Unreserved(mode, b);
    }
  }

  lemma FilterOne(mode: MetadataFlatten, item: Item)
    ensures Reserved(mode, [item]) == if IsReserved(mode, item) then [item] else []
    ensures Unreserved(mode, [item]) == if IsReserved(mode, item) then [] else [item]
  {
    assert [item][1..] == [];
  }

  lemma {:induction false} FilterAll(mode: MetadataFlatten, branch: TreeBranch, reserved: bool)
    requires forall item :: item in branch ==> IsReserved(mode, item) == reserved
    ensures Reserved(mode, branch) == if reserved then branch else []
    ensures Unreserved(mode, branch) == if reserved then [] else branch
    decreases |branch|
  {
    hide IsReserved;
    if branch != [] {
      FilterAll(mode, branch[1..], reserved);
    }
  }

  // ---------- Serializing ----------

  ghost function EmbeddedItems(md: TreeBranch, mode: MetadataFlatten): Option<TreeBranch> {
    match mode
    case FlattenNone => Some([Item(Name(SOPS_METADATA_KEY), Branch(md))])
    case FlattenBelowTop =>
      (match FlattenedWith(md, [])
       case None => None
       case Some(flat) => Some([Item(Name(SOPS_METADATA_KEY), Branch(flat))]))
    case FlattenFull => FlattenedWith(md, SOPS_PREFIX)
  }

  ghost predicate NothingReserved(branches: seq<TreeBranch>, mode: MetadataFlatten) {
    forall branch, item :: branch in branches && item in branch ==> !IsReserved(mode, item)
  }

  function AppendToAll(branches: seq<TreeBranch>, items: TreeBranch): (r: seq<TreeBranch>)
    ensures |r| == |branches|
  {
    seq(|branches|, i requires 0 <= i < |branches| => branches[i] + items)
  }

  ghost function Serialized(branches: seq<TreeBranch>, md: TreeBranch, mode: MetadataFlatten): Option<seq<TreeBranch>> {
    match EmbeddedItems(md, mode)
    case None => None
    case Some(items) => if NothingReserved(branches, mode) then Some(AppendToAll(branches, items)) else None
  }

  method SerializeMetadata(branches: seq<TreeBranch>, metadata: TreeBranch, mode: MetadataFlatten)
    returns (r: Option<seq<TreeBranch>>)
    ensures r == Serialized(branches, metadata, mode)
  {
    var md := metadata;
    if !mode.FlattenNone? {
      var prefix := if mode.FlattenFull? then SOPS_PREFIX else [];
      var flat := FlattenTreeBranch(md, prefix);
      if flat.None? {
        return None;
      }
      md := flat.value;
    }
    if !mode.FlattenFull? {
      md := [Item(Name(SOPS_METADATA_KEY), Branch(md))];
    }
    assert EmbeddedItems(metadata, mode) == Some(md);
    hide EmbeddedItems; hide IsReserved;
    var result: seq<TreeBranch> := [];
    for k := 0 to |branches|
      invariant |result| == k && forall j :: 0 <= j < k ==> result[j] == branches[j] + md
      invariant forall j, item :: 0 <= j < k && item in branches[j] ==> !IsReserved(mode, item)
    {
      var branch := branches[k];
      var newBranch: TreeBranch := [];
      for i := 0 to |branch|
        invariant newBranch == branch[..i]
        invariant forall item :: item in branch[..i] ==> !IsReserved(mode, item)
      {
        if IsReserved(mode, branch[i]) {
          assert branch[i] in branch && branch in branches;
          return None;
        }
        newBranch := newBranch + [branch[i]];
      }
      assert branch[..|branch|] == branch;
      for i := 0 to |md|
        invariant newBranch == branch + md[..i]
      {
        newBranch := newBranch + [md[i]];
        assert md[..i + 1] == md[..i] + [md[i]];
      }
      assert md[..|md|] == md;
      result := result + [newBranch];
    }
    assert result == AppendToAll(branches, md);
    return Some(result);
  }

  /** In the words of the file: the data must not use the keys of the metadata at its top level, and
      flattened metadata must flatten; then every branch gets the metadata behind its own items, under
      "sops", or with "sops_" in front of every key. */
  lemma SerializesExactly(branches: seq<TreeBranch>, md: TreeBranch, mode: MetadataFlatten)
    ensures var r := Serialized(branches, md, mode);
            && (!mode.FlattenFull? ==>
                (r.Some? <==>
                 && (mode.FlattenBelowTop? ==> Flattened(md).Some?)
                 && forall branch, item :: branch in branches && item in branch ==> item.key != Name("sops")))
            && (mode.FlattenFull? ==>
                (r.Some? <==>
                 && Flattened(md).Some?
                 && forall branch, item :: branch in branches && item in branch && item.key.Name? ==>
                      !("sops_" <= item.key.name)))
            && (r.Some? ==> |r.value| == |branches|)
            && (r.Some? && mode.FlattenNone? ==>
                forall k :: 0 <= k < |branches| ==> r.value[k] == branches[k] + [Item(Name("sops"), Branch(md))])
            && (r.Some? && mode.FlattenBelowTop? ==>
                forall k :: 0 <= k < |branches| ==>
                  r.value[k] == branches[k] + [Item(Name("sops"), Branch(Flattened(md).value))])
            && (r.Some? && mode.FlattenFull? ==>
                && IsFlat(Flattened(md).value)
                && forall k :: 0 <= k < |branches| ==>
                     r.value[k] == branches[k] + Prefixed("sops_", Flattened(md).value))
  {
    FullFlattensAlike(md);
    hide FlattenedWith; hide Prefixed;
    if mode.FlattenFull? {
      assert NothingReserved(branches, mode) <==>
             forall branch, item :: branch in branches && item in branch && item.key.Name? ==>
               !("sops_" <= item.key.name);
    } else {
      assert NothingReserved(branches, mode) <==>
             forall branch, item :: branch in branches && item in branch ==> item.key != Name("sops");
    }
  }

  // ---------- Extracting ----------

  datatype ExtractError = NotFound | Duplicate | NotMapping | CannotUnflatten

  datatype Outcome = Extracted(branches: seq<TreeBranch>, metadata: TreeBranch) | Failed(error: ExtractError)

  /** The embedded items of the first branch, as one tree that is still flat. */
  function MetadataTree(branches: seq<TreeBranch>, mode: MetadataFlatten): Outcome {
    var found := if branches == [] then [] else Reserved(mode, branches[0]);
    if found == [] then Failed(NotFound)
    else if mode.FlattenFull? then Extracted(RestOfFirst(branches), Stripped(found))
    else if !found[0].value.Branch? then Failed(NotMapping)
    else if |found| > 1 then Failed(Duplicate)
    else Extracted(RestOfAll(branches, mode), found[0].value.items)
  }

  function RestOfAll(branches: seq<TreeBranch>, mode: MetadataFlatten): (r: seq<TreeBranch>)
    ensures |r| == |branches|
  {
    seq(|branches|, i requires 0 <= i < |branches| => Unreserved(mode, branches[i]))
  }

  /** In the full mode the items are only taken out of the first branch. */
  function RestOfFirst(branches: seq<TreeBranch>): (r: seq<TreeBranch>)
    requires branches != []
    ensures |r| == |branches|
  {
    branches[0 := Unreserved(FlattenFull, branches[0])]
  }

  function StrippedItem(item: Item): Item {
    if IsReserved(FlattenFull, item) then Item(Name(item.key.name[|SOPS_PREFIX|..]), item.value) else item
  }

  function Stripped(items: TreeBranch): (r: TreeBranch)
    ensures |r| == |items|
  {
    seq(|items|, i requires 0 <= i < |items| => StrippedItem(items[i]))
  }

  ghost function ExtractedFrom(branches: seq<TreeBranch>, mode: MetadataFlatten): Outcome {
    match MetadataTree(branches, mode)
    case Failed(e) => Failed(e)
    case Extracted(rest, tree) =>
      if mode.FlattenNone? then Extracted(rest, tree)
      else
        match Unflattened(tree)
        case None => Failed(CannotUnflatten)
        case Some(md) => Extracted(rest, md)
  }

  /** Where the loop over a branch stands: `i` items are kept, and the rest starts at `j`. */
  ghost predicate Sifted(mode: MetadataFlatten, original: TreeBranch, j: nat, branch: TreeBranch, i: nat) {
    j <= |original| && i <= |branch| && branch[..i] == Unreserved(mode, original[..j]) && branch[i..] == original[j..]
  }

  lemma SiftedStart(mode: MetadataFlatten, original: TreeBranch)
    ensures Sifted(mode, original, 0, original, 0)
  {}

  lemma SiftStep(mode: MetadataFlatten, original: TreeBranch, j: nat, branch: TreeBranch, i: nat)
    requires Sifted(mode, original, j, branch, i) && i < |branch|
    ensures j < |original| && branch[i] == original[j]
    ensures Reserved(mode, original[..j + 1]) == Reserved(mode, original[..j]) + Reserved(mode, [branch[i]])
    ensures if IsReserved(mode, branch[i]) then Sifted(mode, original, j + 1, branch[..i] + branch[i + 1..], i)
            else Sifted(mode, original, j + 1, branch, i + 1)
  {
    assert branch[i] == branch[i..][0] == original[j..][0];
    assert original[..j + 1] == original[..j] + [original[j]];
    FilterConcat(mode, original[..j], [original[j]]);
    FilterOne(mode, branch[i]);
    hide Reserved; hide Unreserved; hide IsReserved;
    assert branch[i + 1..] == branch[i..][1..] == original[j + 1..];
    assert branch[..i + 1] == branch[..i] + [branch[i]];
    var cut := branch[..i] + branch[i + 1..];
    assert cut[..i] == branch[..i] && cut[i..] == branch[i + 1..];
  }

  lemma SiftedEnd(mode: MetadataFlatten, original: TreeBranch, j: nat, branch: TreeBranch, i: nat)
    requires Sifted(mode, original, j, branch, i) && i == |branch|
    ensures branch == Unreserved(mode, original) && original[..j] == original
  {
    assert branch[i..] == [] && j == |original|;
    assert original[..j] == original && branch[..i] == branch;
  }

  /** One round of the loop: what it finds, and how that lies in what there is to find. */
  lemma TakeStep(mode: MetadataFlatten, original: TreeBranch, j: nat, branch: TreeBranch, i: nat)
    requires Sifted(mode, original, j, branch, i) && i < |branch|
    ensures j < |original| && branch[i] == original[j]
    ensures var here := if IsReserved(mode, branch[i]) then [branch[i]] else [];
            && Reserved(mode, original[..j + 1]) == Reserved(mode, original[..j]) + here
            && Reserved(mode, original) == Reserved(mode, original[..j]) + here + Reserved(mode, original[j + 1..])
    ensures if IsReserved(mode, branch[i]) then Sifted(mode, original, j + 1, branch[..i] + branch[i + 1..], i)
            else Sifted(mode, original, j + 1, branch, i + 1)
  {
    SiftStep(mode, original, j, branch, i);
    FilterOne(mode, branch[i]);
    hide Sifted; hide Reserved; hide Unreserved; hide IsReserved;
    assert original == original[..j + 1] + original[j + 1..];
    FilterConcat(mode, original[..j + 1], original[j + 1..]);
  }

  /** The first loop of the source, which deletes items from the branch it indexes. */
  method TakeReserved(branch0: TreeBranch, mode: MetadataFlatten, isFirst: bool)
    returns (branch: TreeBranch, tree: Option<TreeBranch>, error: Option<ExtractError>)
    requires !mode.FlattenFull?
    ensures var found := Reserved(mode, branch0);
      && (error.None? ==> branch == Unreserved(mode, branch0))
      && (!isFirst ==> error.None? && tree.None?)
      && (isFirst && found == [] ==> error.None? && tree.None?)
      && (isFirst && found != [] && !found[0].value.Branch? ==> error == Some(NotMapping))
      && (isFirst && |found| > 1 && found[0].value.Branch? ==> error == Some(Duplicate))
      && (isFirst && |found| == 1 && found[0].value.Branch? ==> error.None? && tree == Some(found[0].value.items))
  {
    branch, tree, error := branch0, None, None;
    var first := true;
    var i: nat := 0;
    ghost var j: nat := 0;
    SiftedStart(mode, branch0);
    assert Reserved(mode, branch0[..0]) == [];
    hide Sifted; hide IsReserved; hide Reserved; hide Unreserved;
    while i < |branch|
      invariant i <= |branch| && j <= |branch0| && Sifted(mode, branch0, j, branch, i)
      invariant error.None? && (first || isFirst)
      invariant first ==> tree.None? && (isFirst ==> Reserved(mode, branch0[..j]) == [])
      invariant !first ==> |Reserved(mode, branch0[..j])| == 1 && Reserved(mode, branch0[..j])[0].value.Branch?
                           && tree == Some(Reserved(mode, branch0[..j])[0].value.items)
      decreases |branch| - i
    {
      TakeStep(mode, branch0, j, branch, i);
      if IsReserved(mode, branch[i]) {
        if isFirst {
          if !first {
            error := Some(Duplicate);
            return;
          }
          first := false;
          if !branch[i].value.Branch? {
            error := Some(NotMapping);
            return;
          }
          tree := Some(branch[i].value.items);
        }
        branch := branch[..i] + branch[i + 1..];
      } else {
        i := i + 1;
      }
      j := j + 1;
    }
    SiftedEnd(mode, branch0, j, branch, i);
  }

  /** The second loop of the source, for the full mode. */
  method TakePrefixed(branch0: TreeBranch) returns (branch: TreeBranch, tree: TreeBranch)
    ensures branch == Unreserved(FlattenFull, branch0)
    ensures tree == Stripped(Reserved(FlattenFull, branch0))
  {
    branch, tree := branch0, [];
    var i: nat := 0;
    ghost var j: nat := 0;
    SiftedStart(FlattenFull, branch0);
    hide Sifted; hide Reserved;
    NothingStripped();
    while i < |branch|
      invariant i <= |branch| && j <= |branch0| && Sifted(FlattenFull, branch0, j, branch, i)
      invariant tree == Stripped(Reserved(FlattenFull, branch0[..j]))
      decreases |branch| - i
    {
      SiftStep(FlattenFull, branch0, j, branch, i);
      FilterOne(FlattenFull, branch[i]);
      ghost var before := Reserved(FlattenFull, branch0[..j]);
      hide IsReserved;
      if IsReserved(FlattenFull, branch[i]) {
        StrippedMore(before, branch[i]);
        var entry := StrippedItem(branch[i]);
        tree := tree + [entry];
        branch := branch[..i] + branch[i + 1..];
      } else {
        assert before + [] == before;
        i := i + 1;
      }
      j := j + 1;
    }
    SiftedEnd(FlattenFull, branch0, j, branch, i);
  }

  lemma NothingStripped()
    ensures Reserved(FlattenFull, []) == [] && Stripped([]) == []
  {}

  lemma StrippedMore(items: TreeBranch, item: Item)
    ensures Stripped(items + [item]) == Stripped(items) + [StrippedItem(item)]
  {
    hide StrippedItem;
  }

  /** The branches are changed in place; after an error they are not used. */
  method ExtractMetadata(branches: array<TreeBranch>, mode: MetadataFlatten) returns (r: Outcome)
    modifies branches
    ensures r == ExtractedFrom(old(branches[..]), mode)
    ensures r.Extracted? ==> branches[..] == r.branches
  {
    hide Reserved; hide Unreserved; hide IsReserved; hide Unflattened;
    ghost var original := branches[..];
    var tree: Option<TreeBranch> := None;
    if !mode.FlattenFull? {
      for bi := 0 to branches.Length
        invariant forall k :: 0 <= k < bi ==> branches[k] == Unreserved(mode, original[k])
        invariant forall k :: bi <= k < branches.Length ==> branches[k] == original[k]
        invariant bi == 0 || MetadataTree(original, mode) == match tree
                             case None => Failed(NotFound)
                             case Some(found) => Extracted(RestOfAll(original, mode), found)
        invariant bi == 0 ==> tree.None?
      {
        var branch, found, error := TakeReserved(branches[bi], mode, bi == 0);
        if error.Some? {
          return Failed(error.value);
        }
        if bi == 0 {
          tree := found;
        }
        branches[bi] := branch;
      }
      assert branches[..] == RestOfAll(original, mode);
    } else if branches.Length >= 1 {
      var branch, found := TakePrefixed(branches[0]);
      if found != [] {
        tree := Some(found);
      }
      branches[0] := branch;
      assert branches[..] == RestOfFirst(original);
    }
    if tree.None? {
      return Failed(NotFound);
    }
    var metadataTree := tree.value;
    if !mode.FlattenNone? {
      var unflat := UnflattenTreeBranch(metadataTree);
      if unflat.None? {
        return Failed(CannotUnflatten);
      }
      metadataTree := unflat.value;
    }
    return Extracted(branches[..], metadataTree);
  }

  lemma {:induction false} SiftsExactly(mode: MetadataFlatten, branch: TreeBranch, item: Item)
    ensures item in Reserved(mode, branch) <==> item in branch && IsReserved(mode, item)
    ensures item in Unreserved(mode, branch) <==> item in branch && !IsReserved(mode, item)
  {
    hide IsReserved;
    if branch != [] {
      SiftsExactly(mode, branch[1..], item);
      assert branch == [branch[0]] + branch[1..];
    }
  }

  /** Without an item under the reserved keys in the first branch there is no metadata. */
  lemma NotFoundExactly(branches: seq<TreeBranch>, mode: MetadataFlatten)
    ensures ExtractedFrom(branches, mode) == Failed(NotFound) <==>
            branches == [] || forall item :: item in branches[0] && item.key.Name? ==>
                                if mode.FlattenFull? then !("sops_" <= item.key.name) else item.key.name != "sops"
  {
    hide Unflattened;
    if branches != [] {
      var found := Reserved(mode, branches[0]);
      forall item
        ensures item in found <==> item in branches[0] && IsReserved(mode, item)
      {
        SiftsExactly(mode, branches[0], item);
      }
      hide Reserved; hide Unreserved; hide Stripped;
      assert found == [] || found[0] in found;
    }
  }

  /** All items with this key are taken out of all branches, and nothing else is. */
  lemma RestExactly(branches: seq<TreeBranch>, mode: MetadataFlatten, k: nat, item: Item)
    requires !mode.FlattenFull? && k < |branches|
    ensures item in RestOfAll(branches, mode)[k] <==> item in branches[k] && item.key != Name("sops")
  {
    SiftsExactly(mode, branches[k], item);
    hide Unreserved;
  }

  lemma FirstReserved(mode: MetadataFlatten, branch: TreeBranch, i: nat)
    requires !mode.FlattenFull? && i < |branch| && branch[i].key == Name("sops")
    requires forall j :: 0 <= j < i ==> branch[j].key != Name("sops")
    ensures Reserved(mode, branch) == [branch[i]] + Reserved(mode, branch[i + 1..])
  {
    var before, after := branch[..i], branch[i + 1..];
    assert branch == before + [branch[i]] + after;
    FilterAll(mode, before, false);
    FilterOne(mode, branch[i]);
    hide Reserved; hide Unreserved; hide IsReserved;
    FilterConcat(mode, before + [branch[i]], after);
    FilterConcat(mode, before, [branch[i]]);
    assert [] + [branch[i]] + Reserved(mode, after) == [branch[i]] + Reserved(mode, after);
  }

  lemma MoreReserved(mode: MetadataFlatten, branch: TreeBranch, i: nat)
    requires !mode.FlattenFull? && i < |branch|
    ensures Reserved(mode, branch[i + 1..]) == [] <==>
            forall j :: i < j < |branch| ==> branch[j].key != Name("sops")
  {
    var after := branch[i + 1..];
    var rest := Reserved(mode, after);
    forall item
      ensures item in rest <==> item in after && item.key == Name("sops")
    {
      SiftsExactly(mode, after, item);
    }
    hide Reserved; hide IsReserved;
    if rest != [] {
      assert rest[0] in after;
      var j :| 0 <= j < |after| && after[j] == rest[0];
      assert branch[i + 1 + j] == rest[0];
    }
    if j :| i < j < |branch| && branch[j].key == Name("sops") {
      assert after[j - i - 1] == branch[j] && branch[j] in rest;
    }
  }

  /** The first item with the key "sops" in the first branch is the metadata: it must be a branch and
      the only such item there, and unless it is nested it must unflatten. */
  lemma ExtractsExactly(branches: seq<TreeBranch>, mode: MetadataFlatten, i: nat)
    requires !mode.FlattenFull? && branches != [] && i < |branches[0]| && branches[0][i].key == Name("sops")
    requires forall j :: 0 <= j < i ==> branches[0][j].key != Name("sops")
    ensures var r, v := ExtractedFrom(branches, mode), branches[0][i].value;
            if !v.Branch? then r == Failed(NotMapping)
            else if exists j :: i < j < |branches[0]| && branches[0][j].key == Name("sops") then r == Failed(Duplicate)
            else if mode.FlattenNone? then r == Extracted(RestOfAll(branches, mode), v.items)
            else if Unflattened(v.items).Some? then
              r == Extracted(RestOfAll(branches, mode), Unflattened(v.items).value)
            else r == Failed(CannotUnflatten)
  {
    FirstReserved(mode, branches[0], i);
    MoreReserved(mode, branches[0], i);
    hide Reserved; hide Unreserved; hide Unflattened; hide IsReserved; hide RestOfAll;
  }

  // ---------- There and back ----------

  function Prefixed(prefix: string, items: TreeBranch): (r: TreeBranch)
    requires forall item :: item in items ==> item.key.Name?
    ensures |r| == |items|
  {
    seq(|items|, i requires 0 <= i < |items| => Item(Name(prefix + items[i].key.name), items[i].value))
  }

  lemma PrefixedConcat(prefix: string, a: TreeBranch, b: TreeBranch)
    requires forall item :: item in a ==> item.key.Name?
    requires forall item :: item in b ==> item.key.Name?
    ensures Prefixed(prefix, a + b) == Prefixed(prefix, a) + Prefixed(prefix, b)
  {}

  lemma {:induction false} FlatPrefixed(v: Value, prefix: string, key: string)
    ensures IsFlat(Flat(v, key)) && Flat(v, prefix + key) == Prefixed(prefix, Flat(v, key))
    decreases v, 1
  {
    FlatIsFlat(v, key);
    match v
    case Branch(items) =>
      Associative(prefix, key, MAP_SEPARATOR);
      FlatItemsPrefixed(items, prefix, key + MAP_SEPARATOR);
    case List(elems) =>
      Associative(prefix, key, LIST_SEPARATOR);
      FlatElemsPrefixed(elems, 0, prefix, key + LIST_SEPARATOR);
    case _ =>
  }

  lemma {:induction false} FlatItemPrefixed(item: Item, prefix: string, key: string)
    ensures IsFlat(FlatItem(item, key)) && FlatItem(item, prefix + key) == Prefixed(prefix, FlatItem(item, key))
    decreases item, 2
  {
    if item.key.Name? {
      Associative(prefix, key, item.key.name);
      FlatPrefixed(item.value, prefix, key + item.key.name);
    }
  }

  lemma {:induction false} FlatItemsPrefixed(items: TreeBranch, prefix: string, key: string)
    ensures IsFlat(FlatItems(items, key)) && FlatItems(items, prefix + key) == Prefixed(prefix, FlatItems(items, key))
    decreases items, 0
  {
    FlatItemsAreFlat(items, key);
    if items != [] {
      FlatItemPrefixed(items[0], prefix, key);
      FlatItemsPrefixed(items[1..], prefix, key);
      PrefixedConcat(prefix, FlatItem(items[0], key), FlatItems(items[1..], key));
      hide FlatItem;
    }
  }

  lemma {:induction false} FlatElemsPrefixed(elems: seq<Value>, i: nat, prefix: string, key: string)
    ensures IsFlat(FlatElems(elems, i, key)) && FlatElems(elems, i, prefix + key) == Prefixed(prefix,
          FlatElems(elems, i, key))
    decreases elems, 0
  {
    FlatElemsAreFlat(elems, i, key);
    if elems != [] {
      if elems[0].Comment? {
        FlatElemsPrefixed(elems[1..], i, prefix, key);
      } else {
        var n := Decimal(i);
        Associative(prefix, key, n);
        FlatPrefixed(elems[0], prefix, key + n);
        FlatElemsPrefixed(elems[1..], i + 1, prefix, key);
        PrefixedConcat(prefix, Flat(elems[0], key + n), FlatElems(elems[1..], i + 1, key));
        hide Flat;
      }
    }
  }

  lemma StrippedPrefixed(items: TreeBranch)
    requires IsFlat(items)
    ensures Stripped(Prefixed(SOPS_PREFIX, items)) == items
    ensures forall item :: item in Prefixed(SOPS_PREFIX, items) ==> IsReserved(FlattenFull, item)
    ensures DistinctKeys(Prefixed(SOPS_PREFIX, items)) <==> DistinctKeys(items)
  {
    var long := Prefixed(SOPS_PREFIX, items);
    forall i | 0 <= i < |items|
      ensures IsReserved(FlattenFull, long[i]) && StrippedItem(long[i]) == items[i]
    {
      assert items[i] in items;
      assert long[i].key.name[|SOPS_PREFIX|..] == items[i].key.name;
    }
    if DistinctKeys(items) {
      forall i, j | 0 <= i < j < |long|
        ensures long[i].key != long[j].key
      {
        assert StrippedItem(long[i]) == items[i] && StrippedItem(long[j]) == items[j];
      }
    }
  }

  /** The embedded items are what is found again, and the rest is what was there before. */
  lemma SiftedOut(branches: seq<TreeBranch>, items: TreeBranch, mode: MetadataFlatten)
    requires NothingReserved(branches, mode) && forall item :: item in items ==> IsReserved(mode, item)
    ensures var out := AppendToAll(branches, items);
      forall k :: 0 <= k < |branches| ==> Reserved(mode, out[k]) == items && Unreserved(mode, out[k]) == branches[k]
  {
    hide IsReserved; hide Reserved; hide Unreserved;
    forall k | 0 <= k < |branches|
      ensures Reserved(mode, branches[k] + items) == items && Unreserved(mode, branches[k] + items) == branches[k]
    {
      assert branches[k] in branches;
      FilterAll(mode, branches[k], false);
      FilterAll(mode, items, true);
      FilterConcat(mode, branches[k], items);
      assert [] + items == items && branches[k] + [] == branches[k];
    }
  }

  lemma NestedComesBack(branches: seq<TreeBranch>, tree: TreeBranch, mode: MetadataFlatten)
    requires !mode.FlattenFull? && branches != [] && NothingReserved(branches, mode)
    ensures MetadataTree(AppendToAll(branches, [Item(Name(SOPS_METADATA_KEY), Branch(tree))]), mode)
         == Extracted(branches, tree)
  {
    var items := [Item(Name(SOPS_METADATA_KEY), Branch(tree))];
    SiftedOut(branches, items, mode);
    hide Reserved; hide Unreserved; hide IsReserved;
    assert RestOfAll(AppendToAll(branches, items), mode) == branches;
  }

  lemma FullComesBack(branches: seq<TreeBranch>, flat: TreeBranch)
    requires branches != [] && IsFlat(flat) && NothingReserved(branches, FlattenFull)
    ensures var items := Prefixed(SOPS_PREFIX, flat);
      var out := AppendToAll(branches, items);
      MetadataTree(out, FlattenFull) ==
      if flat == [] then Failed(NotFound) else Extracted(out[0 := branches[0]], flat)
  {
    StrippedPrefixed(flat);
    SiftedOut(branches, Prefixed(SOPS_PREFIX, flat), FlattenFull);
    hide Reserved; hide Unreserved; hide IsReserved; hide Stripped; hide Prefixed;
  }

  lemma FullFlattensAlike(md: TreeBranch)
    ensures FlattenedWith(md, SOPS_PREFIX).Some? <==> Flattened(md).Some?
    ensures Flattened(md).Some? ==> IsFlat(Flattened(md).value)
    ensures Flattened(md).Some? ==> FlattenedWith(md, SOPS_PREFIX).value == Prefixed(SOPS_PREFIX, Flattened(md).value)
  {
    FlattensExactly(md, []);
    FlattensExactly(md, SOPS_PREFIX);
    FlatItemsPrefixed(md, SOPS_PREFIX, []);
    assert SOPS_PREFIX + [] == SOPS_PREFIX;
    StrippedPrefixed(FlatItems(md, []));
    hide FlatItems; hide FlattenedWith; hide Prefixed; hide DistinctKeys;
  }

  /** The main result: what was embedded is extracted again. Flattened metadata comes back as it
      was exactly when it is plain, and in the full mode the data does when it has one branch. The
      metadata of a file always has some keys, such as mac and version. */
  lemma ExtractUndoesSerialize(branches: seq<TreeBranch>, md: TreeBranch, mode: MetadataFlatten)
    requires branches != [] && md != [] && Serialized(branches, md, mode).Some?
    ensures var r := ExtractedFrom(Serialized(branches, md, mode).value, mode);
      && (mode.FlattenNone? ==> r == Extracted(branches, md))
      && (mode.FlattenBelowTop? ==> (r == Extracted(branches, md) <==> Plain(md)))
      && (mode.FlattenBelowTop? && r.Extracted? ==> r.branches == branches)
      && (mode.FlattenFull? ==> (r == Extracted(branches, md) <==> Plain(md) && |branches| == 1))
      && (mode.FlattenFull? && r.Extracted? ==> r.branches[..1] == branches[..1])
  {
    hide Plain; hide IsReserved; hide NothingReserved; hide Unflattened; hide MetadataTree;
    match mode
    case FlattenNone => NestedComesBack(branches, md, mode);
    case FlattenBelowTop =>
      NestedComesBack(branches, Flattened(md).value, mode);
      FlattenRoundTripsExactly(md);
    case FlattenFull =>
      FullFlattensAlike(md);
      var flat := Flattened(md).value;
      FullComesBack(branches, flat);
      FlattenRoundTripsExactly(md);
      NothingUnflattens();
      if flat != [] && |branches| > 1 {
        var out := AppendToAll(branches, Prefixed(SOPS_PREFIX, flat));
        assert |out[1]| != |branches[1]|;
      }
  }

  lemma NothingUnflattens()
    ensures Unflattened([]) == Some([])
  {
    NothingConverts();
  }
}
