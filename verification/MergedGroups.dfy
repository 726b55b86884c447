/**
 Merged key groups of a configuration (config/config.go): every level removes repeated keys, which
 comes to the same as removing them once from everything in visiting order.
 */
module MergedGroups {
  import opened Results

  /** A master key: its Go type, its ToString, and everything else. */
  datatype ConfigKey = ConfigKey(kind: string, name: string, rest: int)

  /** fmt.Sprintf("%T/%v", v, v.ToString()). */
  function IdOf(k: ConfigKey): string {
    k.kind + "/" + k.name
  }

  /** Type names hold no slash, so that the identifier tells type and name. */
  lemma IdsAreInjective(a: ConfigKey, b: ConfigKey)
    requires '/' !in a.kind && '/' !in b.kind
    ensures IdOf(a) == IdOf(b) <==> a.kind == b.kind && a.name == b.name
  {
    var s, t := IdOf(a), IdOf(b);
    assert s[|a.kind|] == '/' && t[|b.kind|] == '/';
    assert forall i :: 0 <= i < |a.kind| ==> s[i] == a.kind[i];
    assert forall i :: 0 <= i < |b.kind| ==> t[i] == b.kind[i];
    if s == t {
      assert s[..|a.kind|] == a.kind && t[..|b.kind|] == b.kind;
      assert s[|a.kind| + 1..] == a.name && t[|b.kind| + 1..] == b.name;
    }
  }

  predicate Occurs(keys: seq<ConfigKey>, id: string) {
    exists i :: 0 <= i < |keys| && IdOf(keys[i]) == id
  }

  /** The keys whose identifier has not occurred before. */
  function Deduplicated(keys: seq<ConfigKey>): seq<ConfigKey> {
    if keys == [] then []
    else
      var init, last := keys[..|keys| - 1], keys[|keys| - 1];
      Deduplicated(init) + if Occurs(init, IdOf(last)) then [] else [last]
  }

  method DeduplicateKeygroup(group: seq<ConfigKey>) returns (r: seq<ConfigKey>)
    ensures r == Deduplicated(group)
  {
    r := [];
    var unique: map<string, bool> := map[];
    for i := 0 to |group|
      invariant r == Deduplicated(group[..i])
      invariant forall id :: id in unique <==> Occurs(group[..i], id)
    {
      var v := group[i];
      assert group[..i + 1][..i] == group[..i] && group[..i + 1] == group[..i] + [v];
      OccursMore(group[..i], v);
      hide Occurs;
      var key := IdOf(v);
      if key in unique {
        assert r + [] == r;
        continue;
      }
      r := r + [v];
      unique := unique[key := true];
    }
    assert group[..|group|] == group;
  }

  lemma OccursMore(keys: seq<ConfigKey>, k: ConfigKey)
    ensures forall id :: Occurs(keys + [k], id) <==> Occurs(keys, id) || id == IdOf(k)
  {
    var more := keys + [k];
    forall id
      ensures Occurs(more, id) <==> Occurs(keys, id) || id == IdOf(k)
    {
      assert IdOf(more[|keys|]) == IdOf(k);
      if Occurs(keys, id) {
        var i :| 0 <= i < |keys| && IdOf(keys[i]) == id;
        assert IdOf(more[i]) == id;
      }
    }
  }

  lemma OccursInEither(a: seq<ConfigKey>, b: seq<ConfigKey>, id: string)
    ensures Occurs(a + b, id) <==> Occurs(a, id) || Occurs(b, id)
  {
    var all := a + b;
    if Occurs(a, id) {
      var i :| 0 <= i < |a| && IdOf(a[i]) == id;
      assert IdOf(all[i]) == id;
    }
    if Occurs(b, id) {
      var i :| 0 <= i < |b| && IdOf(b[i]) == id;
      assert IdOf(all[|a| + i]) == id;
    }
    if Occurs(all, id) {
      var i :| 0 <= i < |all| && IdOf(all[i]) == id;
      assert i >= |a| ==> IdOf(b[i - |a|]) == id;
    }
  }

  // ---------- What is left ----------

  /** Positions that pick `r` out of `keys`, in order. */
  ghost predicate Picks(keys: seq<ConfigKey>, r: seq<ConfigKey>, at: seq<nat>) {
    && |at| == |r|
    && (forall i :: 0 <= i < |at| ==> at[i] < |keys| && keys[at[i]] == r[i])
    && (forall i, j :: 0 <= i < j < |at| ==> at[i] < at[j])
  }

  ghost predicate NoRepeat(keys: seq<ConfigKey>) {
    forall i, j :: 0 <= i < j < |keys| ==> IdOf(keys[i]) != IdOf(keys[j])
  }

  /** Nothing repeats, nothing is lost, and what is left is the first occurrence, in order. */
  ghost predicate FirstOccurrences(keys: seq<ConfigKey>, r: seq<ConfigKey>, at: seq<nat>) {
    && Picks(keys, r, at) && NoRepeat(r)
    && (forall id :: Occurs(keys, id) <==> Occurs(r, id))
    && AreFirst(keys, at)
  }

  ghost predicate AreFirst(keys: seq<ConfigKey>, at: seq<nat>) {
    forall i, j :: 0 <= i < |at| && 0 <= j < at[i] < |keys| ==> IdOf(keys[j]) != IdOf(keys[at[i]])
  }

  lemma {:induction false} DeduplicatedSameIds(keys: seq<ConfigKey>)
    ensures forall id :: Occurs(Deduplicated(keys), id) <==> Occurs(keys, id)
    decreases |keys|
  {
    if keys != [] {
      var init, last := keys[..|keys| - 1], keys[|keys| - 1];
      DeduplicatedSameIds(init);
      assert keys == init + [last];
      OccursMore(init, last);
      OccursMore(Deduplicated(init), last);
      assert Deduplicated(init) + [] == Deduplicated(init);
      hide Occurs;
    }
  }

  lemma {:induction false} DeduplicatedKeepsFirst(keys: seq<ConfigKey>)
    ensures exists at :: FirstOccurrences(keys, Deduplicated(keys), at)
    decreases |keys|
  {
    DeduplicatedSameIds(keys);
    if keys == [] {
      assert FirstOccurrences(keys, Deduplicated(keys), []);
    } else {
      var init, last := keys[..|keys| - 1], keys[|keys| - 1];
      DeduplicatedKeepsFirst(init);
      var at :| FirstOccurrences(init, Deduplicated(init), at);
      if Occurs(init, IdOf(last)) {
        assert Deduplicated(init) + [] == Deduplicated(init);
        assert FirstOccurrences(keys, Deduplicated(keys), at);
      } else {
        LastIsNew(keys, at);
      }
    }
  }

  lemma PicksMore(keys: seq<ConfigKey>, r: seq<ConfigKey>, at: seq<nat>)
    requires keys != [] && Picks(keys[..|keys| - 1], r, at)
    ensures Picks(keys, r + [keys[|keys| - 1]], at + [|keys| - 1])
    ensures forall i :: 0 <= i < |at| ==> at[i] < |keys| - 1
  {
    var init := keys[..|keys| - 1];
    assert forall i :: 0 <= i < |init| ==> init[i] == keys[i];
  }

  lemma NoRepeatMore(r: seq<ConfigKey>, k: ConfigKey)
    requires NoRepeat(r) && !Occurs(r, IdOf(k))
    ensures NoRepeat(r + [k])
  {
    hide IdOf;
  }

  lemma LastIsNew(keys: seq<ConfigKey>, at: seq<nat>)
    requires keys != [] && FirstOccurrences(keys[..|keys| - 1], Deduplicated(keys[..|keys| - 1]), at)
    requires !Occurs(keys[..|keys| - 1], IdOf(keys[|keys| - 1]))
    requires forall id :: Occurs(Deduplicated(keys), id) <==> Occurs(keys, id)
    ensures FirstOccurrences(keys, Deduplicated(keys), at + [|keys| - 1])
  {
    hide IdOf; hide Occurs; hide Picks; hide NoRepeat; hide AreFirst;
    var init, last := keys[..|keys| - 1], keys[|keys| - 1];
    DeduplicatedSameIds(init);
    PicksMore(keys, Deduplicated(init), at);
    NoRepeatMore(Deduplicated(init), last);
    AreFirstMore(keys, at);
  }

  lemma AreFirstMore(keys: seq<ConfigKey>, at: seq<nat>)
    requires keys != [] && AreFirst(keys[..|keys| - 1], at) && forall i :: 0 <= i < |at| ==> at[i] < |keys| - 1
    requires !Occurs(keys[..|keys| - 1], IdOf(keys[|keys| - 1]))
    ensures AreFirst(keys, at + [|keys| - 1])
  {
    hide IdOf;
    var init, more := keys[..|keys| - 1], at + [|keys| - 1];
    forall i, j | 0 <= i < |more| && 0 <= j < more[i] < |keys|
      ensures IdOf(keys[j]) != IdOf(keys[more[i]])
    {
      assert keys[j] == init[j];
      if i < |at| {
        assert keys[more[i]] == init[at[i]];
      }
    }
  }

  // ---------- Deduplicating twice ----------

  /** What `b` adds behind `a`. */
  function Added(a: seq<ConfigKey>, b: seq<ConfigKey>): seq<ConfigKey> {
    if b == [] then []
    else
      var init, last := b[..|b| - 1], b[|b| - 1];
      Added(a, init) + if Occurs(a, IdOf(last)) || Occurs(init, IdOf(last)) then [] else [last]
  }

  lemma {:induction false} DeduplicatedConcat(a: seq<ConfigKey>, b: seq<ConfigKey>)
    ensures Deduplicated(a + b) == Deduplicated(a) + Added(a, b)
    decreases |b|
  {
    if b == [] {
      assert a + b == a;
    } else {
      var init, last := b[..|b| - 1], b[|b| - 1];
      assert (a + b)[..|a + b| - 1] == a + init && (a + b)[|a + b| - 1] == last;
      DeduplicatedConcat(a, init);
      OccursInEither(a, init, IdOf(last));
      var tail := if Occurs(a + init, IdOf(last)) then [] else [last];
      assert Deduplicated(a) + Added(a, init) + tail == Deduplicated(a) + (Added(a, init) + tail);
      hide Occurs;
    }
  }

  lemma {:induction false} AddedBySameIds(a: seq<ConfigKey>, c: seq<ConfigKey>, b: seq<ConfigKey>)
    requires forall id :: Occurs(a, id) <==> Occurs(c, id)
    ensures Added(a, b) == Added(c, b)
    decreases |b|
  {
    hide Occurs;
    if b != [] {
      AddedBySameIds(a, c, b[..|b| - 1]);
    }
  }

  lemma {:induction false} AddedDeduplicated(a: seq<ConfigKey>, b: seq<ConfigKey>)
    ensures Added(a, Deduplicated(b)) == Added(a, b)
    decreases |b|
  {
    if b != [] {
      var init, last := b[..|b| - 1], b[|b| - 1];
      var short := Deduplicated(init);
      AddedDeduplicated(a, init);
      DeduplicatedSameIds(init);
      if Occurs(init, IdOf(last)) {
        assert short + [] == short && Added(a, init) + [] == Added(a, init);
      } else {
        var all := short + [last];
        assert all[..|all| - 1] == short && all[|all| - 1] == last;
      }
      hide Occurs;
    }
  }

  /** Removing repeated keys early, on either side, makes no difference. */
  lemma DeduplicatingEarly(a: seq<ConfigKey>, b: seq<ConfigKey>)
    ensures Deduplicated(Deduplicated(a) + b) == Deduplicated(a + b)
    ensures Deduplicated(a + Deduplicated(b)) == Deduplicated(a + b)
  {
    DeduplicatedTwice(a);
    DeduplicatedSameIds(a);
    DeduplicatedConcat(a, b);
    DeduplicatedConcat(Deduplicated(a), b);
    AddedBySameIds(a, Deduplicated(a), b);
    DeduplicatedConcat(a, Deduplicated(b));
    AddedDeduplicated(a, b);
  }

  lemma DeduplicatedTwice(a: seq<ConfigKey>)
    ensures Deduplicated(Deduplicated(a)) == Deduplicated(a)
  {
    DeduplicatedConcat([], Deduplicated(a));
    DeduplicatedConcat([], a);
    AddedDeduplicated([], a);
    assert [] + Deduplicated(a) == Deduplicated(a) && [] + a == a;
  }

  // ---------- Nested groups ----------

  /** A group with the groups it merges, and its own entries: the keys each gives, or an error. */
  datatype Group = Group(merge: seq<Group>, own: seq<Option<seq<ConfigKey>>>)

  predicate AllParse(g: Group) {
    && (forall k :: 0 <= k < |g.own| ==> g.own[k].Some?)
    && (forall k :: 0 <= k < |g.merge| ==> AllParse(g.merge[k]))
  }

  function OwnKeys(own: seq<Option<seq<ConfigKey>>>): seq<ConfigKey> {
    if own == [] then []
    else OwnKeys(own[..|own| - 1]) + match own[|own| - 1] case None => [] case Some(keys) => keys
  }

  /** All keys in visiting order. */
  function Visited(g: Group): seq<ConfigKey>
    decreases g, 1
  {
    VisitedMerges(g, |g.merge|) + OwnKeys(g.own)
  }

  function VisitedMerges(g: Group, count: nat): seq<ConfigKey>
    requires count <= |g.merge|
    decreases g, 0, count
  {
    if count == 0 then [] else VisitedMerges(g, count - 1) + Visited(g.merge[count - 1])
  }

  /** The recursion and the loops of the source: removing repeated keys at every level gives the
      same list as doing it once at the top. */
  method ExtractMasterKeys(group: Group) returns (r: Option<seq<ConfigKey>>)
    ensures r == if AllParse(group) then Some(Deduplicated(Visited(group))) else None
    decreases group
  {
    hide Deduplicated; hide Added;
    var keyGroup: seq<ConfigKey> := [];
    for i := 0 to |group.merge|
      invariant forall k :: 0 <= k < i ==> AllParse(group.merge[k])
      invariant Deduplicated(keyGroup) == Deduplicated(VisitedMerges(group, i))
    {
      var subKeyGroup := ExtractMasterKeys(group.merge[i]);
      if subKeyGroup.None? {
        return None;
      }
      SameBehind(keyGroup, VisitedMerges(group, i), subKeyGroup.value);
      DeduplicatingEarly(VisitedMerges(group, i), Visited(group.merge[i]));
      keyGroup := keyGroup + subKeyGroup.value;
    }
    SameBehind(keyGroup, VisitedMerges(group, |group.merge|), OwnKeys(group.own));
    var own := OwnEntries(group.own);
    if own.None? {
      return None;
    }
    var result := DeduplicateKeygroup(keyGroup + own.value);
    return Some(result);
  }

  /** The loops over the kinds of keys, in their order. */
  method OwnEntries(own: seq<Option<seq<ConfigKey>>>) returns (r: Option<seq<ConfigKey>>)
    ensures r == if forall k :: 0 <= k < |own| ==> own[k].Some? then Some(OwnKeys(own)) else None
  {
    var keys: seq<ConfigKey> := [];
    for i := 0 to |own|
      invariant forall k :: 0 <= k < i ==> own[k].Some?
      invariant keys == OwnKeys(own[..i])
    {
      if own[i].None? {
        return None;
      }
      assert own[..i + 1][..i] == own[..i];
      keys := keys + own[i].value;
    }
    assert own[..|own|] == own;
    return Some(keys);
  }

  lemma SameBehind(a: seq<ConfigKey>, c: seq<ConfigKey>, b: seq<ConfigKey>)
    requires Deduplicated(a) == Deduplicated(c)
    ensures Deduplicated(a + b) == Deduplicated(c + b)
  {
    DeduplicatingEarly(a, b);
    DeduplicatingEarly(c, b);
  }

  // ---------- Every key is visited ----------

  /** The key is among those of an entry of the group, or of a group that it merges, at any depth. */
  ghost predicate Holds(g: Group, key: ConfigKey)
    decreases g
  {
    || (exists k :: 0 <= k < |g.own| && g.own[k].Some? && key in g.own[k].value)
    || (exists k :: 0 <= k < |g.merge| && Holds(g.merge[k], key))
  }

  lemma OwnKeysSnoc(own: seq<Option<seq<ConfigKey>>>, last: Option<seq<ConfigKey>>)
    ensures OwnKeys([]) == []
    ensures OwnKeys(own + [last]) == OwnKeys(own) + if last.Some? then last.value else []
  {
    assert (own + [last])[..|own|] == own;
  }

  /** The entries are visited in their order, and with all their keys. */
  lemma {:induction false} OwnKeysJoin(a: seq<Option<seq<ConfigKey>>>, keys: seq<ConfigKey>,
                                       b: seq<Option<seq<ConfigKey>>>)
    ensures OwnKeys(a + [Some(keys)] + b) == OwnKeys(a) + keys + OwnKeys(b)
    decreases |b|
  {
    hide OwnKeys;
    OwnKeysSnoc(a, Some(keys));
    if b == [] {
      assert a + [Some(keys)] + b == a + [Some(keys)];
      assert OwnKeys(a) + keys + [] == OwnKeys(a) + keys;
    } else {
      var init, last := b[..|b| - 1], b[|b| - 1];
      assert b == init + [last] && a + [Some(keys)] + b == a + [Some(keys)] + init + [last];
      OwnKeysJoin(a, keys, init);
      OwnKeysSnoc(a + [Some(keys)] + init, last);
      OwnKeysSnoc(init, last);
      var tail := if last.Some? then last.value else [];
      assert OwnKeys(a) + keys + OwnKeys(init) + tail == OwnKeys(a) + keys + (OwnKeys(init) + tail);
    }
  }

  lemma {:induction false} MergesOfPrefix(g: Group, h: Group, count: nat)
    requires count <= |g.merge| && count <= |h.merge| && g.merge[..count] == h.merge[..count]
    ensures VisitedMerges(g, count) == VisitedMerges(h, count)
    decreases count
  {
    hide Visited;
    if count > 0 {
      assert g.merge[count - 1] == g.merge[..count][count - 1] == h.merge[..count][count - 1] == h.merge[count - 1];
      assert g.merge[..count - 1] == g.merge[..count][..count - 1] == h.merge[..count - 1];
      MergesOfPrefix(g, h, count - 1);
    }
  }

  /** The merged groups are visited in their order, and before the entries. */
  lemma MergesComeFirst(merge: seq<Group>, last: Group, own: seq<Option<seq<ConfigKey>>>)
    ensures Visited(Group([], own)) == OwnKeys(own)
    ensures Visited(Group(merge + [last], own)) == Visited(Group(merge, [])) + Visited(last) + OwnKeys(own)
  {
    var g, h, n := Group(merge + [last], own), Group(merge, []), |merge|;
    assert [] + OwnKeys(own) == OwnKeys(own);
    assert Visited(h) == VisitedMerges(h, n) + [] == VisitedMerges(h, n);
    assert g.merge[..n] == h.merge[..n];
    MergesOfPrefix(g, h, n);
    assert g.merge[n] == last;
    assert Visited(g) == VisitedMerges(g, n + 1) + OwnKeys(own);
  }

  lemma {:induction false} OwnKeysExactly(own: seq<Option<seq<ConfigKey>>>, key: ConfigKey)
    ensures key in OwnKeys(own) <==> exists k :: 0 <= k < |own| && own[k].Some? && key in own[k].value
  {
    if own != [] {
      var init := own[..|own| - 1];
      OwnKeysExactly(init, key);
      assert forall k :: 0 <= k < |init| ==> init[k] == own[k];
    }
  }

  lemma {:induction false} VisitsExactly(g: Group, key: ConfigKey)
    ensures key in Visited(g) <==> Holds(g, key)
    decreases g, 1
  {
    MergesExactly(g, |g.merge|, key);
    OwnKeysExactly(g.own, key);
  }

  lemma {:induction false} MergesExactly(g: Group, count: nat, key: ConfigKey)
    requires count <= |g.merge|
    ensures key in VisitedMerges(g, count) <==> exists k :: 0 <= k < count && Holds(g.merge[k], key)
    decreases g, 0, count
  {
    if count > 0 {
      MergesExactly(g, count - 1, key);
      VisitsExactly(g.merge[count - 1], key);
      hide Visited; hide Holds;
    }
  }

  /** So of what a configuration names, however nested, nothing is lost and nothing is added: the result
      has exactly one key for every identifier. */
  lemma ExtractsExactly(g: Group)
    ensures var r := Deduplicated(Visited(g));
            && NoRepeat(r)
            && (forall key :: key in r ==> Holds(g, key))
            && forall key :: Holds(g, key) ==> exists i :: 0 <= i < |r| && IdOf(r[i]) == IdOf(key)
  {
    var all, r := Visited(g), Deduplicated(Visited(g));
    DeduplicatedKeepsFirst(all);
    var at :| FirstOccurrences(all, r, at);
    forall key
      ensures key in all <==> Holds(g, key)
    {
      VisitsExactly(g, key);
    }
    hide Visited; hide Deduplicated; hide Holds; hide IdOf;
    forall key | Holds(g, key)
      ensures Occurs(r, IdOf(key))
    {
      assert key in all;
      assert Occurs(all, IdOf(key));
    }
    forall key | key in r
      ensures Holds(g, key)
    {
      var i :| 0 <= i < |r| && r[i] == key;
      assert all[at[i]] == key;
    }
  }
}
