/**
 Runs of the commands that touch the data key: every step that reports no error keeps the
 current data key recoverable from any threshold of groups.
 */
module CustodyRuns {
  import opened Results
  import opened Custody
  import KeyGroups

  datatype Op =
    | Reload
    | Recover(svcs: seq<Service>, decryptionOrder: seq<string>)
    | Update(dataKey: bytes)
    | AddGroup(group: seq<KeyId>, groupThreshold: int, svcs: seq<Service>, decryptionOrder: seq<string>)
    | DeleteGroup(index: nat, groupThreshold: int, svcs: seq<Service>, decryptionOrder: seq<string>)
    | Rotate(newKey: bytes, add: seq<KeyId>, remove: seq<string>, svcs: seq<Service>, decryptionOrder: seq<string>)

  /** A threshold of 0 is set to the number of groups when the data key is split. */
  function ThresholdInUse(threshold: int, groups: nat): int {
    if groups > 1 && threshold == 0 then groups else threshold
  }

  /** What an update of the master keys without an error leaves behind. */
  ghost predicate Updated(s': State, ids: seq<seq<KeyId>>, threshold: int, dataKey: bytes, opens: Opening) {
    && Ids(s'.groups) == ids
    && s'.threshold == ThresholdInUse(threshold, |ids|)
    && s'.cache == dataKey
    && Distributed(s'.groups, s'.threshold, dataKey, opens)
  }

  /** A command line threshold of 0 leaves the threshold as it is. */
  function Chosen(groupThreshold: int, threshold: int): int {
    if groupThreshold != 0 then groupThreshold else threshold
  }

  function WithAdded<T>(groups: seq<seq<T>>, add: seq<T>): seq<seq<T>>
    requires add != [] ==> groups != []
  {
    if add == [] then groups else groups[0 := groups[0] + add]
  }

  function Named(name: string): KeyId -> bool {
    (id: KeyId) => id.name == name
  }

  /** The hits are removed from every group; nothing when the loop panics in one of them. */
  ghost function RemoveHits<T>(groups: seq<seq<T>>, hit: T -> bool): (r: Option<seq<seq<T>>>)
    ensures r.Some? ==> |r.value| == |groups|
  {
    if exists i :: 0 <= i < |groups| && KeyGroups.Panics(groups[i], hit) then None
    else Some(seq(|groups|, i requires 0 <= i < |groups| => KeyGroups.Scan(groups[i], hit)))
  }

  ghost function RemoveName(ids: seq<seq<KeyId>>, name: string): (r: Option<seq<seq<KeyId>>>)
    ensures r.Some? ==> |r.value| == |ids|
  {
    RemoveHits(ids, Named(name))
  }

  ghost function RemoveNames(ids: seq<seq<KeyId>>, names: seq<string>): (r: Option<seq<seq<KeyId>>>)
    ensures r.Some? ==> |r.value| == |ids|
  {
    if names == [] then Some(ids)
    else
      var rest := RemoveNames(ids, names[..|names| - 1]);
      if rest.None? then None else RemoveName(rest.value, names[|names| - 1])
  }

  /** The steps that report no error, of the update of the master keys among others: the add
      and delete commands drop the errors of that update. */
  ghost predicate Step(op: Op, s: State, s': State, opens: Opening) {
    match op
    case Reload => s' == s.(cache := [])
    case Recover(svcs, order) =>
      && Honest(svcs, opens)
      && s' == match Obtain(s, svcs, order) { case Ok(k) => s.(cache := k) case Err(_) => s }
    case Update(dataKey) =>
      dataKey != [] && Updated(s', Ids(s.groups), s.threshold, dataKey, opens)
    case AddGroup(group, groupThreshold, svcs, order) =>
      && Honest(svcs, opens) && Obtain(s, svcs, order).Ok?
      && Updated(s', Ids(s.groups) + [group], Chosen(groupThreshold, s.threshold),
                 Obtain(s, svcs, order).value, opens)
    case DeleteGroup(index, groupThreshold, svcs, order) =>
      && Honest(svcs, opens) && Obtain(s, svcs, order).Ok? && index < |s.groups|
      && |s.groups| - 1 >= Chosen(groupThreshold, s.threshold)
      && Updated(s', Ids(s.groups)[..index] + Ids(s.groups)[index + 1..], Chosen(groupThreshold, s.threshold),
                 Obtain(s, svcs, order).value, opens)
    case Rotate(newKey, add, remove, svcs, order) =>
      && Honest(svcs, opens) && Obtain(s, svcs, order).Ok? && newKey != []
      && (add != [] ==> s.groups != [])
      && var ids := RemoveNames(WithAdded(Ids(s.groups), add), remove);
         ids.Some? && Updated(s', ids.value, s.threshold, newKey, opens)
  }

  /** The data key is recoverable as the threshold promises, and the cache holds it or nothing. */
  ghost predicate InCustody(s: State, dataKey: bytes, opens: Opening) {
    && dataKey != []
    && Distributed(s.groups, s.threshold, dataKey, opens)
    && (s.cache == [] || s.cache == dataKey)
  }

  /** Only an update with another key and a rotation change the data key. */
  function KeyAfter(op: Op, dataKey: bytes): bytes {
    match op
    case Update(newKey) => newKey
    case Rotate(newKey, _, _, _, _) => newKey
    case _ => dataKey
  }

  function KeyAfterAll(ops: seq<Op>, dataKey: bytes): bytes {
    if ops == [] then dataKey else KeyAfter(ops[|ops| - 1], KeyAfterAll(ops[..|ops| - 1], dataKey))
  }

  ghost predicate IsRun(states: seq<State>, ops: seq<Op>, opens: Opening) {
    && |states| == |ops| + 1
    && forall i :: 0 <= i < |ops| ==> Step(ops[i], states[i], states[i + 1], opens)
  }

  /** In custody, getting the data key gives the current key or fails, cached or not. */
  lemma ObtainedKeyIsCurrent(s: State, dataKey: bytes, svcs: seq<Service>, order: seq<string>, opens: Opening)
    requires InCustody(s, dataKey, opens) && Honest(svcs, opens)
    ensures Obtain(s, svcs, order).Ok? ==> Obtain(s, svcs, order).value == dataKey
    ensures Obtain(s, svcs, order) == if s.cache != [] then Ok(s.cache) else FreshRecovery(s, svcs, order)
  {
    RecoveryIsExact(s, dataKey, svcs, order, opens);
  }

  lemma StepKeepsCustody(op: Op, s: State, s': State, dataKey: bytes, opens: Opening)
    requires InCustody(s, dataKey, opens) && Step(op, s, s', opens)
    ensures InCustody(s', KeyAfter(op, dataKey), opens)
  {
    match op
    case Reload =>
    case Update(_) =>
    case Recover(svcs, order) => ObtainedKeyIsCurrent(s, dataKey, svcs, order, opens);
    case AddGroup(_, _, svcs, order) => ObtainedKeyIsCurrent(s, dataKey, svcs, order, opens);
    case DeleteGroup(_, _, svcs, order) => ObtainedKeyIsCurrent(s, dataKey, svcs, order, opens);
    case Rotate(_, _, _, svcs, order) => ObtainedKeyIsCurrent(s, dataKey, svcs, order, opens);
  }

  lemma {:induction false} EveryRunKeepsCustody(states: seq<State>, ops: seq<Op>, dataKey: bytes, opens: Opening,
        n: nat)
    requires IsRun(states, ops, opens) && InCustody(states[0], dataKey, opens) && n <= |ops|
    ensures InCustody(states[n], KeyAfterAll(ops[..n], dataKey), opens)
  {
    if n > 0 {
      hide InCustody; hide Step;
      EveryRunKeepsCustody(states, ops, dataKey, opens, n - 1);
      assert ops[..n][..n - 1] == ops[..n - 1] && ops[..n][n - 1] == ops[n - 1];
      StepKeepsCustody(ops[n - 1], states[n - 1], states[n], KeyAfterAll(ops[..n - 1], dataKey), opens);
    }
  }

  lemma RunIsInCustody(states: seq<State>, ops: seq<Op>, opens: Opening, n: nat)
    requires IsRun(states, ops, opens) && 0 < n <= |ops| && ops[0].Update?
    ensures InCustody(states[n], KeyAfterAll(ops[1..n], ops[0].dataKey), opens)
  {
    var k := ops[0].dataKey;
    assert Step(ops[0], states[0], states[1], opens);
    assert InCustody(states[1], k, opens);
    var states', ops' := states[1..], ops[1..];
    forall i | 0 <= i < |ops'|
      ensures Step(ops'[i], states'[i], states'[i + 1], opens)
    {
      assert Step(ops[i + 1], states[i + 1], states[i + 2], opens);
    }
    hide Step;
    EveryRunKeepsCustody(states', ops', k, opens, n - 1);
    assert ops'[..n - 1] == ops[1..n];
  }

  /** The main result on runs. In every state of every run that starts with one update without
      errors, fresh recovery with any services gives the current data key exactly when they
      decrypt a key in enough groups, and the cache agrees with it. */
  lemma EveryRunRecovers(states: seq<State>, ops: seq<Op>, opens: Opening, n: nat,
                         svcs: seq<Service>, decryptionOrder: seq<string>)
    requires IsRun(states, ops, opens) && 0 < n <= |ops| && ops[0].Update?
    requires Honest(svcs, opens)
    ensures var s, current := states[n], KeyAfterAll(ops[1..n], ops[0].dataKey);
            var enough := if |s.groups| == 1 then 1 else s.threshold;
            && FreshRecovery(s, svcs, decryptionOrder) ==
               (if |DecryptableGroups(s.groups, svcs)| >= enough then Ok(current) else Err(NO_KEY))
            && (s.cache != [] ==> s.cache == current)
            && (enough == 1 || 2 <= enough <= |s.groups| <= 255)
  {
    RunIsInCustody(states, ops, opens, n);
    RecoveryIsExact(states[n], KeyAfterAll(ops[1..n], ops[0].dataKey), svcs, decryptionOrder, opens);
  }

  // ---------- The threshold in force ----------

  /** The numbers below n: all of them are in a set of n such numbers. */
  lemma {:induction false} FullBelow(able: set<nat>, n: nat)
    requires forall i :: i in able ==> i < n
    ensures |able| <= n
    ensures |able| == n <==> forall i :: 0 <= i < n ==> i in able
  {
    if n == 0 {
      assert able == {};
    } else {
      FullBelow(able - {n - 1}, n - 1);
      if n - 1 in able {
        assert able == able - {n - 1} + {n - 1};
      } else {
        assert able == able - {n - 1};
      }
    }
  }

  /** After an update without errors, `able` being the groups with a key that some service
      decrypts: a single group must be among them, of several groups as many as the threshold
      says, and all of them when no threshold was set. */
  lemma UpdatedNeedsThreshold(s': State, ids: seq<seq<KeyId>>, threshold: int, dataKey: bytes, svcs: seq<Service>,
                              decryptionOrder: seq<string>, opens: Opening) returns (able: set<nat>)
    requires Updated(s', ids, threshold, dataKey, opens) && dataKey != [] && Honest(svcs, opens)
    ensures forall i :: i in able <==>
              0 <= i < |ids| == |s'.groups| &&
              (exists j, k :: 0 <= j < |s'.groups[i]| && 0 <= k < |svcs| &&
                              (var r := svcs[k].decrypt(s'.groups[i][j].id, s'.groups[i][j].enc);
                               r.Ok? && r.value != []))
    ensures var r := FreshRecovery(s', svcs, decryptionOrder);
            && (r == Ok(dataKey) || r == Err(NO_KEY))
            && (r == Ok(dataKey) <==>
                if |ids| == 1 || threshold == 0 then forall i :: 0 <= i < |ids| ==> i in able
                else |able| >= threshold)
  {
    assert |s'.groups| == |ids|;
    able := RecoveryNeedsThreshold(s', dataKey, svcs, decryptionOrder, opens);
    hide Distributed; hide FreshRecovery; hide Honest;
    FullBelow(able, |ids|);
  }

  /** The threshold of the command line; 0 when there is none. */
  function Given(op: Op): int {
    match op
    case AddGroup(_, groupThreshold, _, _) => groupThreshold
    case DeleteGroup(_, groupThreshold, _, _) => groupThreshold
    case _ => 0
  }

  predicate Splits(op: Op) {
    !op.Reload? && !op.Recover?
  }

  /** One step: a threshold on the command line comes first, then the one in force, and only
      without either the number of groups, once there are several. */
  lemma ThresholdAfterStep(op: Op, s: State, s': State, opens: Opening)
    requires Step(op, s, s', opens)
    ensures Given(op) != 0 ==> s'.threshold == Given(op)
    ensures Given(op) == 0 && s.threshold != 0 ==> s'.threshold == s.threshold
    ensures Given(op) == 0 && s.threshold == 0 ==>
              s'.threshold == if Splits(op) && |s'.groups| > 1 then |s'.groups| else 0
    ensures |s'.groups| == |s.groups| + match op case AddGroup(_, _, _, _) => 1
                                                 case DeleteGroup(_, _, _, _) => -1
                                                 case _ => 0
  {
    hide Distributed; hide Obtain; hide RemoveNames;
    if Splits(op) {
      assert |Ids(s'.groups)| == |s'.groups| && |Ids(s.groups)| == |s.groups|;
    }
  }

  /** Runs: while no command gives one, the threshold stays; so the last one given is in force,
      and before the first the one at the start. */
  lemma {:induction false} ThresholdStays(states: seq<State>, ops: seq<Op>, opens: Opening, j: nat, n: nat)
    requires IsRun(states, ops, opens) && j <= n <= |ops|
    requires forall i :: j <= i < n ==> Given(ops[i]) == 0
    ensures 0 < j && Given(ops[j - 1]) != 0 ==> states[n].threshold == Given(ops[j - 1])
    ensures states[j].threshold != 0 ==> states[n].threshold == states[j].threshold
  {
    hide Step; hide Given;
    if j < n {
      ThresholdStays(states, ops, opens, j, n - 1);
      ThresholdAfterStep(ops[n - 1], states[n - 1], states[n], opens);
    } else if 0 < j {
      ThresholdAfterStep(ops[j - 1], states[j - 1], states[j], opens);
    }
  }

  /** What the threshold promises, over whole runs that start with an update: with the last
      threshold given on a command line, or else the one set at the start, or else the number of
      groups the data key was split for first, exactly the services that decrypt keys in as many
      groups as that recover the key that was set last. A group added later does not count
      for that number; a single group always suffices. */
  lemma EveryRunNeedsThreshold(states: seq<State>, ops: seq<Op>, opens: Opening, j: nat, n: nat,
                               svcs: seq<Service>, decryptionOrder: seq<string>) returns (able: set<nat>)
    requires IsRun(states, ops, opens) && 0 < j <= n <= |ops| && ops[0].Update? && Honest(svcs, opens)
    requires forall i :: j <= i < n ==> Given(ops[i]) == 0
    requires Given(ops[j - 1]) != 0 || (j == 1 && |states[0].groups| > 1)
    ensures forall i :: i in able <==>
              0 <= i < |states[n].groups| &&
              (exists g, k :: 0 <= g < |states[n].groups[i]| && 0 <= k < |svcs| &&
                              (var r := svcs[k].decrypt(states[n].groups[i][g].id, states[n].groups[i][g].enc);
                               r.Ok? && r.value != []))
    ensures var current := KeyAfterAll(ops[1..n], ops[0].dataKey);
            var needed := if Given(ops[j - 1]) != 0 then Given(ops[j - 1])
                          else if states[0].threshold != 0 then states[0].threshold
                          else |states[0].groups|;
            FreshRecovery(states[n], svcs, decryptionOrder) ==
            if |able| >= (if |states[n].groups| == 1 then 1 else needed) then Ok(current) else Err(NO_KEY)
  {
    RunIsInCustody(states, ops, opens, n);
    able := RecoveryNeedsThreshold(states[n], KeyAfterAll(ops[1..n], ops[0].dataKey), svcs, decryptionOrder, opens);
    hide Distributed; hide FreshRecovery; hide Honest; hide KeyAfterAll;
    ThresholdStays(states, ops, opens, j, n);
    ThresholdAfterStep(ops[0], states[0], states[1], opens);
  }

  // ---------- What a rotation removes ----------

  ghost predicate DistinctNames(ids: seq<KeyId>) {
    forall i, j :: 0 <= i < j < |ids| ==> ids[i].name != ids[j].name
  }

  ghost predicate AllDistinct(ids: seq<seq<KeyId>>) {
    forall i :: 0 <= i < |ids| ==> DistinctNames(ids[i])
  }

  /** `r` is `ids` without the elements whose name is among `names`, in the same order. */
  function Without(ids: seq<KeyId>, names: seq<string>): (r: seq<KeyId>)
    ensures forall id :: id in r <==> id in ids && id.name !in names
  {
    if ids == [] then []
    else (if ids[0].name in names then [] else [ids[0]]) + Without(ids[1..], names)
  }

  lemma {:induction false} FilterThenWithout(ids: seq<KeyId>, names: seq<string>, name: string)
    ensures KeyGroups.Filter(Without(ids, names), Named(name)) == Without(ids, names + [name])
  {
    if ids != [] {
      FilterThenWithout(ids[1..], names, name);
      var rest := Without(ids[1..], names);
      if ids[0].name !in names {
        assert Without(ids, names) == [ids[0]] + rest;
        assert ([ids[0]] + rest)[1..] == rest;
      } else {
        assert Without(ids, names) == rest;
      }
    }
  }

  lemma {:induction false} WithoutKeepsDistinct(ids: seq<KeyId>, names: seq<string>)
    requires DistinctNames(ids)
    ensures DistinctNames(Without(ids, names))
  {
    if ids != [] {
      WithoutKeepsDistinct(ids[1..], names);
      var rest := Without(ids[1..], names);
      forall i | 0 <= i < |rest|
        ensures rest[i].name != ids[0].name
      {
        var j :| 0 <= j < |ids[1..]| && ids[1..][j] == rest[i];
        assert ids[j + 1] == rest[i];
      }
    }
  }

  lemma {:induction false} WithoutNothing(ids: seq<KeyId>)
    ensures Without(ids, []) == ids
  {
    if ids != [] {
      WithoutNothing(ids[1..]);
    }
  }

  /** With distinct names within every group, the remove loops of a rotation do not panic, and
      leave exactly the keys whose names were not to be removed. */
  lemma {:induction false} RotationRemovesExactly(ids: seq<seq<KeyId>>, names: seq<string>)
    requires AllDistinct(ids)
    ensures var r := RemoveNames(ids, names);
            r.Some? && forall i :: 0 <= i < |ids| ==> r.value[i] == Without(ids[i], names)
  {
    if names == [] {
      forall i | 0 <= i < |ids| {
        WithoutNothing(ids[i]);
      }
    } else {
      var init, name := names[..|names| - 1], names[|names| - 1];
      assert names == init + [name];
      RotationRemovesExactly(ids, init);
      var rest := RemoveNames(ids, init).value;
      forall i | 0 <= i < |ids|
        ensures !KeyGroups.Panics(rest[i], Named(name))
        ensures KeyGroups.Scan(rest[i], Named(name)) == Without(ids[i], names)
      {
        assert DistinctNames(ids[i]);
        WithoutKeepsDistinct(ids[i], init);
        KeyGroups.RemovesAllExactly(rest[i], Named(name));
        FilterThenWithout(ids[i], init, name);
      }
    }
  }

  /** A rotation, key by key: the first group holds what it held and what was added, every other
      group what it held, all without the names to be removed. */
  lemma RotationChangesExactly(s: State, s': State, newKey: bytes, add: seq<KeyId>, remove: seq<string>,
                               svcs: seq<Service>, order: seq<string>, opens: Opening, i: nat)
    requires Step(Rotate(newKey, add, remove, svcs, order), s, s', opens)
    requires s.groups != [] && i < |s.groups|
    requires DistinctNames(GroupIds(s.groups[0]) + add)
    requires forall k :: 1 <= k < |s.groups| ==> DistinctNames(GroupIds(s.groups[k]))
    ensures |s'.groups| == |s.groups| && s'.cache == newKey
    ensures forall id :: id in GroupIds(s'.groups[i]) <==>
              (id in GroupIds(s.groups[i]) || (i == 0 && id in add)) && id.name !in remove
    ensures var given := if i == 0 then GroupIds(s.groups[0]) + add else GroupIds(s.groups[i]);
            GroupIds(s'.groups[i]) == Without(given, remove)
  {
    hide Distributed; hide Obtain;
    var ids := WithAdded(Ids(s.groups), add);
    assert Ids(s.groups)[0] + [] == Ids(s.groups)[0];
    assert ids[0] == GroupIds(s.groups[0]) + add;
    assert forall k :: 1 <= k < |ids| ==> ids[k] == GroupIds(s.groups[k]);
    RotationRemovesExactly(ids, remove);
    hide RemoveNames; hide Without;
    assert Ids(s'.groups)[i] == GroupIds(s'.groups[i]);
  }
}
