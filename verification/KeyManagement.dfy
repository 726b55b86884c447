/**
 The master keys and the metadata of sops.go as objects that are updated in place, with the
 commands of cmd/sops/rotate.go and cmd/sops/subcommand/groups on them. Every method is proved
 against the step it takes in CustodyRuns.
 */
module KeyManagement {
  import opened Results
  import opened Custody
  import opened CustodyRuns
  import KeyGroups
  import Shamir

  class MasterKey {
    const id: KeyId
    var enc: bytes

    constructor (id: KeyId, enc: bytes)
      ensures this.id == id && this.enc == enc
    {
      this.id := id;
      this.enc := enc;
    }
  }

  type Group = seq<MasterKey>

  ghost function ViewGroup(group: Group): (r: seq<Key>)
    reads group
    ensures |r| == |group|
  {
    seq(|group|, j requires 0 <= j < |group| reads group => Key(group[j].id, group[j].enc))
  }

  ghost function KeysOf(groups: seq<Group>): set<MasterKey> {
    set i, j | 0 <= i < |groups| && 0 <= j < |groups[i]| :: groups[i][j]
  }

  ghost function ViewGroups(groups: seq<Group>): (r: seq<seq<Key>>)
    reads KeysOf(groups)
    ensures |r| == |groups|
  {
    seq(|groups|, i requires 0 <= i < |groups| reads KeysOf(groups) => ViewGroup(groups[i]))
  }

  function IdsOf(group: Group): (r: seq<KeyId>)
    ensures |r| == |group|
  {
    seq(|group|, j requires 0 <= j < |group| => group[j].id)
  }

  ghost function AllIds(groups: seq<Group>): (r: seq<seq<KeyId>>)
    ensures |r| == |groups|
  {
    seq(|groups|, i requires 0 <= i < |groups| => IdsOf(groups[i]))
  }

  /** No key object occurs twice: updating one key does not change another. */
  ghost predicate Apart(groups: seq<Group>) {
    forall i, j, i', j' ::
      (0 <= i < |groups| && 0 <= j < |groups[i]| && 0 <= i' < |groups| && 0 <= j' < |groups[i']|
       && groups[i][j] == groups[i'][j']) ==> i == i' && j == j'
  }

  // ---------- Encrypting one part ----------

  lemma EncryptedOpens(svcs: seq<Service>, k: nat, id: KeyId, part: bytes, random: nat, opens: Opening)
    requires Honest(svcs, opens) && k < |svcs| && svcs[k].encrypt(id, part, random).Ok?
    ensures opens(id, svcs[k].encrypt(id, part, random).value) == part
  {
    assert svcs[k] in svcs;
  }

  /** Every service can fail to encrypt the part for this key. */
  ghost predicate Refused(id: KeyId, part: bytes, svcs: seq<Service>) {
    forall k :: 0 <= k < |svcs| ==> CanFail(svcs[k], id, part)
  }

  ghost predicate CanFail(svc: Service, id: KeyId, part: bytes) {
    exists random :: FailsWith(svc, id, part, random)
  }

  ghost predicate FailsWith(svc: Service, id: KeyId, part: bytes, random: nat) {
    svc.encrypt(id, part, random).Err?
  }

  lemma Failed(svc: Service, id: KeyId, part: bytes, random: nat)
    requires svc.encrypt(id, part, random).Err?
    ensures CanFail(svc, id, part)
  {
    assert FailsWith(svc, id, part, random);
  }

  /** Asks the services one after the other, until one of them encrypts the part. */
  method EncryptPart(key: MasterKey, part: bytes, svcs: seq<Service>, ghost opens: Opening)
      returns (encrypted: bool, keyErrs: seq<string>)
    requires Honest(svcs, opens)
    modifies key
    ensures encrypted ==> opens(key.id, key.enc) == part
    ensures !encrypted ==> key.enc == old(key.enc) && |keyErrs| == |svcs| && Refused(key.id, part, svcs)
  {
    encrypted, keyErrs := false, [];
    for k := 0 to |svcs|
      invariant !encrypted && |keyErrs| == k && key.enc == old(key.enc)
      invariant forall i :: 0 <= i < k ==> CanFail(svcs[i], key.id, part)
    {
      var svc := svcs[k];
      assert svc in svcs;
      var random: nat := *;
      var rsp := svc.encrypt(key.id, part, random);
      match rsp {
        case Err(error) =>
          Failed(svcs[k], key.id, part, random);
          keyErrs := keyErrs + [error];
        case Ok(ciphertext) =>
          EncryptedOpens(svcs, k, key.id, part, random, opens);
          key.enc := ciphertext;
          encrypted := true;
          break;
      }
    }
  }

  /** A key after it was offered a part: it holds the part, or it was refused and is what it was. */
  ghost predicate Offered(before: Key, after: Key, part: bytes, svcs: seq<Service>, opens: Opening) {
    && after.id == before.id
    && (opens(after.id, after.enc) == part || (after == before && Refused(before.id, part, svcs)))
  }

  ghost predicate GroupOffered(before: seq<Key>, after: seq<Key>, part: bytes, svcs: seq<Service>, opens: Opening) {
    |after| == |before| && forall j :: 0 <= j < |before| ==> Offered(before[j], after[j], part, svcs, opens)
  }

  ghost predicate GroupRefused(group: seq<Key>, part: bytes, svcs: seq<Service>) {
    exists j :: 0 <= j < |group| && Refused(group[j].id, part, svcs)
  }

  /** Every key of the group encrypts the same part. */
  method EncryptForGroup(group: Group, part: bytes, svcs: seq<Service>,
        ghost opens: Opening) returns (errs: seq<string>)
    requires Honest(svcs, opens) && svcs != []
    requires forall j, j' :: 0 <= j < j' < |group| ==> group[j] != group[j']
    modifies group
    ensures GroupOffered(old(ViewGroup(group)), ViewGroup(group), part, svcs, opens)
    ensures errs == [] ==> HoldsPart(ViewGroup(group), part, opens)
    ensures errs != [] ==> GroupRefused(old(ViewGroup(group)), part, svcs)
  {
    errs := [];
    hide Refused;
    for j := 0 to |group|
      invariant errs != [] ==> exists i :: 0 <= i < j && Refused(group[i].id, part, svcs)
      invariant errs == [] ==> forall i :: 0 <= i < j ==> opens(group[i].id, group[i].enc) == part
      invariant forall i :: j <= i < |group| ==> group[i].enc == old(group[i].enc)
      invariant forall i :: 0 <= i < j ==> opens(group[i].id, group[i].enc) == part
                                           || (group[i].enc == old(group[i].enc) && Refused(group[i].id, part, svcs))
    {
      var encrypted, keyErrs := EncryptPart(group[j], part, svcs, opens);
      if !encrypted {
        errs := errs + keyErrs;
      }
    }
    assert forall i :: 0 <= i < |group| ==> old(ViewGroup(group))[i].id == group[i].id;
  }

  // ---------- Decrypting one group ----------

  /** The source asks no further service once it has a part. */
  method DecryptKey(key: MasterKey, svcs: seq<Service>) returns (r: Result<bytes>)
    ensures var part := DecryptWith(svcs, key.id, key.enc);
            if part == [] then r.Err? else r == Ok(part)
  {
    var part: bytes := [];
    for k := 0 to |svcs|
      invariant DecryptWith(svcs, key.id, key.enc) ==
                if part == [] then DecryptWith(svcs[k..], key.id, key.enc) else part
    {
      if part == [] {
        var rsp := svcs[k].decrypt(key.id, key.enc);
        assert svcs[k..][1..] == svcs[k + 1..];
        if rsp.Ok? {
          part := rsp.value;
        }
      }
    }
    if part != [] {
      return Ok(part);
    }
    return Err(NO_KEY);
  }

  method DecryptKeyGroup(group: Group, svcs: seq<Service>, decryptionOrder: seq<string>) returns (r: Result<bytes>)
    ensures var part := GroupPart(ViewGroup(group), svcs, decryptionOrder);
            if part == [] then r.Err? else r == Ok(part)
  {
    hide KeyGroups.TryOrder; hide KeyGroups.Priorities; hide KeyGroups.IsStableOrder; hide DecryptWith; hide Kinds;
    ghost var view := ViewGroup(group);
    var ids := IdsOf(group);
    assert GroupIds(view) == ids;
    var indices := KeyGroups.SortKeyGroupIndices(Kinds(ids), decryptionOrder);
    assert indices == Order(ids, decryptionOrder);
    for k := 0 to |indices|
      invariant FirstPart(view, svcs, indices) == FirstPart(view, svcs, indices[k..])
    {
      var key := group[indices[k]];
      var part := DecryptKey(key, svcs);
      assert indices[k..][1..] == indices[k + 1..];
      if part.Ok? {
        return part;
      }
    }
    return Err(NO_KEY);
  }

  method DecryptGroups(groups: seq<Group>, svcs: seq<Service>, decryptionOrder: seq<string>) returns (parts: seq<bytes>)
    ensures parts == Parts(old(ViewGroups(groups)), svcs, decryptionOrder)
  {
    hide GroupPart;
    ghost var view := ViewGroups(groups);
    parts := [];
    for i := 0 to |groups|
      invariant parts == Parts(view[..i], svcs, decryptionOrder)
    {
      var part := DecryptKeyGroup(groups[i], svcs, decryptionOrder);
      assert view[..i + 1][..i] == view[..i] && view[i] == ViewGroup(groups[i]);
      if part.Ok? {
        parts := parts + [part.value];
      }
    }
    assert view[..|groups|] == view;
  }

  // ---------- Removing keys by name ----------

  function HasName(name: string): MasterKey -> bool {
    (key: MasterKey) => key.id.name == name
  }

  lemma PanicsOfIds(group: Group, name: string)
    ensures KeyGroups.Panics(IdsOf(group), Named(name)) <==> KeyGroups.Panics(group, HasName(name))
  {
    assert forall j :: 0 <= j < |group| ==> Named(name)(IdsOf(group)[j]) == HasName(name)(group[j]);
  }

  lemma {:induction false} ScanOfIds(group: Group, name: string)
    ensures KeyGroups.Scan(IdsOf(group), Named(name)) == IdsOf(KeyGroups.Scan(group, HasName(name)))
  {
    var ids := IdsOf(group);
    if group == [] {
    } else if group[0].id.name != name {
      ScanOfIds(group[1..], name);
      assert IdsOf(group[1..]) == ids[1..];
      IdsOfCons(group[0], KeyGroups.Scan(group[1..], HasName(name)));
    } else if |group| > 1 {
      ScanOfIds(group[2..], name);
      assert IdsOf(group[2..]) == ids[2..];
      IdsOfCons(group[1], KeyGroups.Scan(group[2..], HasName(name)));
    }
  }

  function KeyNamed(name: string): Key -> bool {
    (key: Key) => key.id.name == name
  }

  /** The removed names, one after the other, in all groups of keys. */
  ghost function RemoveKeys(groups: seq<seq<Key>>, names: seq<string>): Option<seq<seq<Key>>> {
    if names == [] then Some(groups)
    else
      var rest := RemoveKeys(groups, names[..|names| - 1]);
      if rest.None? then None else RemoveHits(rest.value, KeyNamed(names[|names| - 1]))
  }

  lemma {:induction false} ScanOfView(group: Group, name: string)
    ensures KeyGroups.Scan(ViewGroup(group), KeyNamed(name)) == ViewGroup(KeyGroups.Scan(group, HasName(name)))
  {
    var view := ViewGroup(group);
    if group == [] {
    } else if group[0].id.name != name {
      ScanOfView(group[1..], name);
      assert ViewGroup(group[1..]) == view[1..];
      ViewOfCons(group[0], KeyGroups.Scan(group[1..], HasName(name)));
    } else if |group| > 1 {
      ScanOfView(group[2..], name);
      assert ViewGroup(group[2..]) == view[2..];
      ViewOfCons(group[1], KeyGroups.Scan(group[2..], HasName(name)));
    }
  }

  lemma ViewOfCons(key: MasterKey, group: Group)
    ensures ViewGroup([key] + group) == [Key(key.id, key.enc)] + ViewGroup(group)
  {}

  lemma PanicsOfView(group: Group, name: string)
    ensures KeyGroups.Panics(ViewGroup(group), KeyNamed(name)) <==> KeyGroups.Panics(group, HasName(name))
  {
    assert forall j :: 0 <= j < |group| ==> KeyNamed(name)(ViewGroup(group)[j]) == HasName(name)(group[j]);
  }

  lemma IdsOfCons(key: MasterKey, group: Group)
    ensures IdsOf([key] + group) == [key.id] + IdsOf(group)
  {}

  /** The places in `group` of the keys the loop keeps. */
  lemma {:induction false} KeptPlaces(group: Group, name: string) returns (places: seq<nat>)
    ensures var kept := KeyGroups.Scan(group, HasName(name));
            && |places| == |kept|
            && (forall k :: 0 <= k < |kept| ==> places[k] < |group| && kept[k] == group[places[k]])
            && forall k, l :: 0 <= k < l < |kept| ==> places[k] < places[l]
  {
    if group == [] || (|group| == 1 && HasName(name)(group[0])) {
      places := [];
    } else {
      var skip: nat := if HasName(name)(group[0]) then 2 else 1;
      var rest := KeptPlaces(group[skip..], name);
      places := [skip - 1] + seq(|rest|, k requires 0 <= k < |rest| => rest[k] + skip);
    }
  }

  lemma RemovingKeepsApart(groups: seq<Group>, i: nat, name: string)
    requires Apart(groups) && i < |groups|
    ensures var after := groups[i := KeyGroups.Scan(groups[i], HasName(name))];
            Apart(after) && KeysOf(after) <= KeysOf(groups)
  {
    var kept := KeyGroups.Scan(groups[i], HasName(name));
    var places := KeptPlaces(groups[i], name);
    hide KeyGroups.Scan;
    var after := groups[i := kept];
    forall k, l, k', l' | 0 <= k < |after| && 0 <= l < |after[k]| && 0 <= k' < |after| && 0 <= l' < |after[k']|
                          && after[k][l] == after[k'][l']
      ensures k == k' && l == l'
    {
      var m, m' := if k == i then places[l] else l, if k' == i then places[l'] else l';
      assert groups[k][m] == groups[k'][m'];
    }
    forall key | key in KeysOf(after)
      ensures key in KeysOf(groups)
    {
      var k, l :| 0 <= k < |after| && 0 <= l < |after[k]| && after[k][l] == key;
      assert groups[k][if k == i then places[l] else l] == key;
    }
  }

  /** One removed name, group after group. */
  method RemoveNameFromGroups(groups: seq<Group>, name: string) returns (r: Option<seq<Group>>)
    requires Apart(groups)
    ensures r.None? ==> RemoveName(AllIds(groups), name).None? && RemoveHits(ViewGroups(groups), KeyNamed(name)).None?
    ensures r.Some? ==> RemoveName(AllIds(groups), name) == Some(AllIds(r.value))
                        && RemoveHits(ViewGroups(groups), KeyNamed(name)) == Some(ViewGroups(r.value))
                        && Apart(r.value) && KeysOf(r.value) <= KeysOf(groups)
  {
    hide Apart; hide KeyGroups.Scan; hide KeyGroups.Panics; hide KeysOf; hide RemoveName; hide RemoveHits;
    hide ViewGroup; hide IdsOf; hide ScannedTo;
    var left := groups;
    for i := 0 to |groups|
      invariant |left| == |groups| && Apart(left) && KeysOf(left) <= KeysOf(groups)
      invariant forall k :: i <= k < |groups| ==> left[k] == groups[k]
      invariant forall k :: 0 <= k < i ==> ScannedTo(groups[k], left[k], name)
    {
      RemovingKeepsApart(left, i, name);
      var kept := KeyGroups.RemoveInRange(left[i], HasName(name));
      LeftOfGroup(groups[i], name);
      if kept.None? {
        SomeGroupPanics(groups, i, name);
        return None;
      }
      left := left[i := kept.value];
    }
    AllGroupsWithout(groups, left, name);
    return Some(left);
  }

  /** `left` is what the loop leaves of the group. */
  ghost predicate ScannedTo(group: Group, left: Group, name: string)
    reads group, left
  {
    && !KeyGroups.Panics(IdsOf(group), Named(name))
    && IdsOf(left) == KeyGroups.Scan(IdsOf(group), Named(name))
    && !KeyGroups.Panics(ViewGroup(group), KeyNamed(name))
    && ViewGroup(left) == KeyGroups.Scan(ViewGroup(group), KeyNamed(name))
  }

  lemma LeftOfGroup(group: Group, name: string)
    ensures if KeyGroups.Panics(group, HasName(name))
            then KeyGroups.Panics(IdsOf(group), Named(name)) && KeyGroups.Panics(ViewGroup(group), KeyNamed(name))
            else ScannedTo(group, KeyGroups.Scan(group, HasName(name)), name)
  {
    ScanOfIds(group, name);
    PanicsOfIds(group, name);
    ScanOfView(group, name);
    PanicsOfView(group, name);
    hide KeyGroups.Scan; hide KeyGroups.Panics; hide IdsOf; hide ViewGroup;
  }

  lemma SomeGroupPanics(groups: seq<Group>, i: nat, name: string)
    requires i < |groups| && KeyGroups.Panics(IdsOf(groups[i]), Named(name))
    requires KeyGroups.Panics(ViewGroup(groups[i]), KeyNamed(name))
    ensures RemoveName(AllIds(groups), name).None? && RemoveHits(ViewGroups(groups), KeyNamed(name)).None?
  {
    hide KeyGroups.Panics;
    assert AllIds(groups)[i] == IdsOf(groups[i]) && ViewGroups(groups)[i] == ViewGroup(groups[i]);
  }

  lemma AllGroupsWithout(groups: seq<Group>, left: seq<Group>, name: string)
    requires |left| == |groups| && forall k :: 0 <= k < |groups| ==> ScannedTo(groups[k], left[k], name)
    ensures RemoveName(AllIds(groups), name) == Some(AllIds(left))
    ensures RemoveHits(ViewGroups(groups), KeyNamed(name)) == Some(ViewGroups(left))
  {
    hide KeyGroups.Panics; hide KeyGroups.Scan; hide IdsOf; hide ViewGroup;
    assert RemoveName(AllIds(groups), name).Some? && RemoveHits(ViewGroups(groups), KeyNamed(name)).Some?;
    assert AllIds(left) == RemoveName(AllIds(groups), name).value;
    assert ViewGroups(left) == RemoveHits(ViewGroups(groups), KeyNamed(name)).value;
  }

  method RemoveNamesFromGroups(groups: seq<Group>, names: seq<string>) returns (r: Option<seq<Group>>)
    requires Apart(groups)
    ensures r.None? ==> RemoveNames(AllIds(groups), names).None? && RemoveKeys(ViewGroups(groups), names).None?
    ensures r.Some? ==> RemoveNames(AllIds(groups), names) == Some(AllIds(r.value))
                        && RemoveKeys(ViewGroups(groups), names) == Some(ViewGroups(r.value))
                        && Apart(r.value) && KeysOf(r.value) <= KeysOf(groups)
  {
    hide Apart; hide RemoveName; hide RemoveHits;
    ghost var view := ViewGroups(groups);
    var left := groups;
    for n := 0 to |names|
      invariant Apart(left) && KeysOf(left) <= KeysOf(groups)
      invariant RemoveNames(AllIds(groups), names[..n]) == Some(AllIds(left))
      invariant ViewGroups(groups) == view && RemoveKeys(view, names[..n]) == Some(ViewGroups(left))
    {
      assert names[..n + 1][..n] == names[..n] && names[..n + 1][n] == names[n];
      ghost var before := ViewGroups(left);
      var fewer := RemoveNameFromGroups(left, names[n]);
      assert ViewGroups(left) == before;
      if fewer.None? {
        NoneStaysNone(AllIds(groups), view, names, n + 1);
        return None;
      }
      left := fewer.value;
    }
    assert names[..|names|] == names;
    return Some(left);
  }

  lemma {:induction false} NoneStaysNone(ids: seq<seq<KeyId>>, view: seq<seq<Key>>, names: seq<string>, n: nat)
    requires n <= |names| && RemoveNames(ids, names[..n]).None? && RemoveKeys(view, names[..n]).None?
    ensures RemoveNames(ids, names).None? && RemoveKeys(view, names).None?
    decreases |names| - n
  {
    if n == |names| {
      assert names[..n] == names;
    } else {
      assert names[..n + 1][..n] == names[..n];
      NoneStaysNone(ids, view, names, n + 1);
    }
  }

  // ---------- Metadata ----------

  lemma IdsOfView(groups: seq<Group>)
    ensures Ids(ViewGroups(groups)) == AllIds(groups)
  {
    forall i | 0 <= i < |groups|
      ensures Ids(ViewGroups(groups))[i] == AllIds(groups)[i]
    {
      assert GroupIds(ViewGroup(groups[i])) == IdsOf(groups[i]);
    }
  }

  /** The parts an update hands out: the data key itself, or its shares. */
  ghost predicate PartsFor(parts: seq<bytes>, n: nat, threshold: int, dataKey: bytes, polys: seq<seq<bv8>>) {
    && n > 0
    && if n == 1 then parts == [dataKey]
       else 2 <= threshold <= n <= 255 && dataKey != [] && Shamir.Hides(polys, dataKey, threshold)
            && parts == Shamir.Shares(polys, n)
  }

  /** If there is only one group, all its keys encrypt the whole data key. */
  method MakeParts(dataKey: bytes, n: nat, threshold: int) returns (r: Result<seq<bytes>>, ghost polys: seq<seq<bv8>>)
    requires n > 0
    ensures r.Ok? ==> |r.value| == n && PartsFor(r.value, n, threshold, dataKey, polys)
    ensures r.Err? ==> n > 1
    ensures r.Err? ==> (r.error == Shamir.RAND_FAILED <==> 2 <= threshold <= n <= 255 && dataKey != [])
  {
    polys := [];
    if n == 1 {
      return Ok([dataKey]), polys;
    }
    r, polys := Shamir.Split(dataKey, n, threshold);
    if r.Ok? && |r.value| != n {
      r := Err("not enough parts obtained from Shamir");
    }
  }

  lemma HoldingPartsDistributes(groups: seq<seq<Key>>, threshold: int, dataKey: bytes, parts: seq<bytes>,
                                polys: seq<seq<bv8>>, opens: Opening)
    requires PartsFor(parts, |groups|, threshold, dataKey, polys)
    requires forall i :: 0 <= i < |groups| ==> groups[i] != [] && HoldsPart(groups[i], parts[i], opens)
    ensures Distributed(groups, threshold, dataKey, opens)
  {
    hide HoldsPart; hide Shamir.Share; hide Shamir.Hides;
    if |groups| > 1 {
      assert HoldShares(groups, threshold, dataKey, polys, opens);
    }
  }

  /** The data key cannot be split into parts for several groups, or the randomness fails. */
  ghost predicate SplitFails(errs: seq<string>, dataKey: bytes, n: nat, threshold: int) {
    n > 1 && (errs == [Shamir.RAND_FAILED] <==> 2 <= threshold <= n <= 255 && dataKey != [])
  }

  /** The groups in front of the first empty one have been offered their parts, all others are what
      they were. */
  ghost predicate Handed(before: seq<seq<Key>>, after: seq<seq<Key>>, parts: seq<bytes>, n: nat,
                         svcs: seq<Service>, opens: Opening) {
    && n <= |before| == |after| == |parts| && (n == |before| || before[n] == [])
    && (forall i :: 0 <= i < n ==> before[i] != [] && GroupOffered(before[i], after[i], parts[i], svcs, opens))
    && forall i :: n <= i < |before| ==> after[i] == before[i]
  }

  ghost predicate SomeRefused(groups: seq<seq<Key>>, parts: seq<bytes>, n: nat, svcs: seq<Service>)
    requires n <= |groups| == |parts|
  {
    exists i :: 0 <= i < n && GroupRefused(groups[i], parts[i], svcs)
  }

  /** Offers the part to group `i`; the other groups have other keys. */
  method EncryptNext(groups: seq<Group>, i: nat, part: bytes, svcs: seq<Service>, ghost opens: Opening)
      returns (errs: seq<string>)
    requires Apart(groups) && i < |groups| && Honest(svcs, opens) && svcs != []
    modifies groups[i]
    ensures ViewGroups(groups) == old(ViewGroups(groups))[i := ViewGroup(groups[i])]
    ensures GroupOffered(old(ViewGroup(groups[i])), ViewGroup(groups[i]), part, svcs, opens)
    ensures errs == [] ==> HoldsPart(ViewGroup(groups[i]), part, opens)
    ensures errs != [] ==> GroupRefused(old(ViewGroup(groups[i])), part, svcs)
  {
    hide HoldsPart; hide Honest; hide GroupOffered; hide GroupRefused;
    errs := EncryptForGroup(groups[i], part, svcs, opens);
    forall k | 0 <= k < |groups| && k != i
      ensures ViewGroup(groups[k]) == old(ViewGroup(groups[k]))
    {
      forall j | 0 <= j < |groups[k]|
        ensures groups[k][j] !in groups[i]
      {}
    }
    hide Apart; hide ViewGroup;
  }

  lemma SomeKeyInGroups(groups: seq<Group>, i: nat)
    requires i < |groups|
    ensures forall key :: key in groups[i] ==> key in KeysOf(groups)
  {}

  /** The loop over the groups, which ends early at an empty one. */
  method EncryptForGroups(groups: seq<Group>, parts: seq<bytes>, svcs: seq<Service>, ghost opens: Opening)
      returns (errs: seq<string>, done: nat)
    requires Apart(groups) && |parts| == |groups| && Honest(svcs, opens) && svcs != []
    modifies KeysOf(groups)
    ensures done <= |groups| && Handed(old(ViewGroups(groups)), ViewGroups(groups), parts, done, svcs, opens)
    ensures errs == [] ==> forall i :: 0 <= i < done ==> HoldsPart(ViewGroups(groups)[i], parts[i], opens)
    ensures errs != [] ==> SomeRefused(old(ViewGroups(groups)), parts, done, svcs)
  {
    hide HoldsPart; hide Honest; hide GroupOffered; hide GroupRefused; hide Apart; hide ViewGroup; hide KeysOf;
    ghost var before := ViewGroups(groups);
    ghost var now := before;
    errs := [];
    for i := 0 to |groups|
      invariant now == ViewGroups(groups)
      invariant forall k :: 0 <= k < i ==> before[k] != [] && GroupOffered(before[k], now[k], parts[k], svcs, opens)
      invariant forall k :: i <= k < |groups| ==> now[k] == before[k]
      invariant errs == [] ==> forall k :: 0 <= k < i ==> HoldsPart(now[k], parts[k], opens)
      invariant errs != [] ==> exists k :: 0 <= k < i && GroupRefused(before[k], parts[k], svcs)
    {
      assert |before[i]| == |groups[i]|;
      if |groups[i]| == 0 {
        return errs, i;
      }
      SomeKeyInGroups(groups, i);
      assert now[i] == ViewGroup(groups[i]);
      hide ViewGroups;
      var groupErrs := EncryptNext(groups, i, parts[i], svcs, opens);
      now := now[i := ViewGroup(groups[i])];
      errs := errs + groupErrs;
    }
    done := |groups|;
  }

  /** What an update leaves behind, with and without an error. */
  ghost predicate UpdateLeft(s: State, s': State, dataKey: bytes, svcs: seq<Service>, opens: Opening,
                             errs: seq<string>) {
    if svcs == [] || s.groups == [] then
      errs != [] && s' == s
    else
      && s'.threshold == ThresholdInUse(s.threshold, |s.groups|)
      && ((errs != [] && SplitFails(errs, dataKey, |s.groups|, s'.threshold)
           && s'.groups == s.groups && s'.cache == s.cache)
          || exists parts, polys, n :: HandedOut(s, s', dataKey, parts, polys, n, svcs, opens, errs))
  }

  ghost predicate UpdateFailed(s: State, s': State, dataKey: bytes, svcs: seq<Service>, opens: Opening) {
    exists errs :: errs != [] && UpdateLeft(s, s', dataKey, svcs, opens, errs)
  }

  /** The data key was split; the groups up to the first empty one were offered their parts. */
  ghost predicate HandedOut(s: State, s': State, dataKey: bytes, parts: seq<bytes>, polys: seq<seq<bv8>>, n: nat,
                            svcs: seq<Service>, opens: Opening, errs: seq<string>) {
    && PartsFor(parts, |s.groups|, s'.threshold, dataKey, polys)
    && Handed(s.groups, s'.groups, parts, n, svcs, opens)
    && s'.cache == (if n < |s.groups| then s.cache else dataKey)
    && (n < |s.groups| ==> errs != [])
    && (errs == [] ==> forall i :: 0 <= i < n ==> HoldsPart(s'.groups[i], parts[i], opens))
    && (errs != [] && n == |s.groups| ==> SomeRefused(s.groups, parts, n, svcs))
  }

  lemma HandedOutIsUpdated(groups: seq<Group>, s: State, s': State, dataKey: bytes, parts: seq<bytes>,
                           polys: seq<seq<bv8>>, svcs: seq<Service>, opens: Opening, errs: seq<string>)
    requires HandedOut(s, s', dataKey, parts, polys, |groups|, svcs, opens, errs) && errs == []
    requires |groups| == |s.groups| && s'.groups == ViewGroups(groups) && s'.cache == dataKey
    requires s'.threshold == ThresholdInUse(s.threshold, |s.groups|)
    ensures Updated(s', AllIds(groups), s.threshold, dataKey, opens)
  {
    hide PartsFor; hide HoldsPart; hide Offered; hide Distributed;
    IdsOfView(groups);
    assert forall i :: 0 <= i < |groups| ==> s.groups[i] != [] && |s'.groups[i]| == |s.groups[i]|;
    HoldingPartsDistributes(s'.groups, s'.threshold, dataKey, parts, polys, opens);
  }

  /** With a service that cannot fail and keys in every group, an update reports an error only
      when the data key cannot be split: when the threshold is none for this number of groups, or
      when the randomness fails. */
  lemma ReliableUpdateFailsExactly(s: State, s': State, dataKey: bytes, svcs: seq<Service>, opens: Opening,
                                   errs: seq<string>, reliable: Service)
    requires UpdateLeft(s, s', dataKey, svcs, opens, errs)
    requires reliable in svcs && forall id, part, random :: reliable.encrypt(id, part, random).Ok?
    requires s.groups != [] && [] !in s.groups
    ensures var n := |s.groups|;
            if n == 1 then errs == []
            else errs == [] || errs == [Shamir.RAND_FAILED] <==>
                 dataKey != [] && 2 <= n <= 255 && (s.threshold == 0 || 2 <= s.threshold <= n)
  {
    hide HoldsPart; hide Offered; hide Shamir.Hides; hide Shamir.Shares;
    NothingIsRefused(svcs, reliable);
    if exists parts, polys, n :: HandedOut(s, s', dataKey, parts, polys, n, svcs, opens, errs) {
      var parts, polys, n: nat :| HandedOut(s, s', dataKey, parts, polys, n, svcs, opens, errs);
      assert n < |s.groups| ==> s.groups[n] in s.groups;
    }
  }

  lemma NothingIsRefused(svcs: seq<Service>, reliable: Service)
    requires reliable in svcs && forall id, part, random :: reliable.encrypt(id, part, random).Ok?
    ensures forall id, part :: !Refused(id, part, svcs)
  {
    var k :| 0 <= k < |svcs| && svcs[k] == reliable;
    assert forall id, part :: !CanFail(svcs[k], id, part);
  }

  class Metadata {
    var KeyGroups: seq<Group>
    var ShamirThreshold: int
    var DataKey: bytes

    ghost function Snapshot(): State
      reads this, KeysOf(KeyGroups)
    {
      State(ViewGroups(KeyGroups), ShamirThreshold, DataKey)
    }

    constructor (groups: seq<Group>, threshold: int)
      ensures KeyGroups == groups && ShamirThreshold == threshold && DataKey == []
    {
      KeyGroups, ShamirThreshold, DataKey := groups, threshold, [];
    }

    /** Splits the data key and encrypts part `i` with every key of group `i`. An error can leave
        some keys with the new part and others with the old one. */
    method UpdateMasterKeys(dataKey: bytes, svcs: seq<Service>, ghost opens: Opening) returns (errs: seq<string>)
      requires Apart(KeyGroups) && Honest(svcs, opens)
      modifies this, KeysOf(KeyGroups)
      ensures KeyGroups == old(KeyGroups)
      ensures UpdateLeft(old(Snapshot()), Snapshot(), dataKey, svcs, opens, errs)
      ensures errs == [] ==> Updated(Snapshot(), AllIds(KeyGroups), old(ShamirThreshold), dataKey, opens)
      ensures errs == [] && |KeyGroups| > 1 ==>
                ShamirThreshold == (if old(ShamirThreshold) == 0 then |KeyGroups| else old(ShamirThreshold))
      ensures |KeyGroups| <= 1 ==> ShamirThreshold == old(ShamirThreshold)
    {
      hide PartsFor; hide HoldsPart; hide Honest; hide Handed; hide SomeRefused; hide Updated; hide ViewGroups;
      ghost var before := Snapshot();
      if |svcs| == 0 {
        return ["no key services provided, cannot update master keys"];
      }
      if |KeyGroups| == 0 {
        return ["no key groups provided"];
      }
      if |KeyGroups| > 1 && ShamirThreshold == 0 {
        ShamirThreshold := |KeyGroups|;
      }
      var made: Result<seq<bytes>>;
      ghost var polys;
      made, polys := MakeParts(dataKey, |KeyGroups|, ShamirThreshold);
      if made.Err? {
        return [made.error];
      }
      var parts := made.value;
      var done;
      errs, done := EncryptForGroups(KeyGroups, parts, svcs, opens);
      if done < |KeyGroups| {
        errs := ["empty key group provided"];
        assert HandedOut(before, Snapshot(), dataKey, parts, polys, done, svcs, opens, errs);
        return;
      }
      DataKey := dataKey;
      assert HandedOut(before, Snapshot(), dataKey, parts, polys, done, svcs, opens, errs);
      if errs == [] {
        HandedOutIsUpdated(KeyGroups, before, Snapshot(), dataKey, parts, polys, svcs, opens, errs);
      }
    }

    method GetDataKey(svcs: seq<Service>, decryptionOrder: seq<string>) returns (r: Result<bytes>)
      modifies this`DataKey
      ensures r == Obtain(old(Snapshot()), svcs, decryptionOrder)
      ensures DataKey == if r.Ok? then r.value else old(DataKey)
    {
      hide Parts; hide Shamir.Combined;
      ghost var before := Snapshot();
      if DataKey != [] {
        return Ok(DataKey);
      }
      var parts := DecryptGroups(KeyGroups, svcs, decryptionOrder);
      assert parts == Parts(before.groups, svcs, decryptionOrder) && |KeyGroups| == |before.groups|;
      var dataKey;
      if |KeyGroups| > 1 {
        if |parts| < ShamirThreshold {
          return Err(NO_KEY);
        }
        var combined := Shamir.Combine(parts);
        if combined.Err? {
          return combined;
        }
        dataKey := combined.value;
      } else {
        if |parts| != 1 {
          return Err(NO_KEY);
        }
        dataKey := parts[0];
      }
      DataKey := dataKey;
      return Ok(dataKey);
    }

    /** The groups and the threshold of a command, and the parts of the data key for them. */
    method Reissue(groups: seq<Group>, threshold: int, dataKey: bytes, svcs: seq<Service>, ghost opens: Opening)
        returns (errs: seq<string>)
      requires Apart(groups) && Honest(svcs, opens)
      modifies this, KeysOf(groups)
      ensures KeyGroups == groups
      ensures UpdateLeft(old(State(ViewGroups(groups), threshold, DataKey)), Snapshot(), dataKey, svcs, opens, errs)
      ensures errs == [] ==> Updated(Snapshot(), AllIds(groups), threshold, dataKey, opens)
    {
      hide Updated; hide UpdateLeft; hide Honest; hide Apart;
      KeyGroups, ShamirThreshold := groups, threshold;
      errs := UpdateMasterKeys(dataKey, svcs, opens);
    }

    /** groups add: the data key is split again for one more group. The command itself drops
        `errs`. */
    method AddGroup(group: Group, groupThreshold: int, svcs: seq<Service>, decryptionOrder: seq<string>,
                    ghost opens: Opening) returns (r: Result<()>, errs: seq<string>)
      requires Apart(KeyGroups + [group]) && Honest(svcs, opens)
      modifies this, KeysOf(KeyGroups + [group])
      ensures r.Ok? <==> Obtain(old(Snapshot()), svcs, decryptionOrder).Ok?
      ensures r.Err? ==> Snapshot() == old(Snapshot())
      ensures r.Ok? ==> KeyGroups == old(KeyGroups) + [group]
      ensures r.Ok? && errs == [] ==>
                Step(Op.AddGroup(IdsOf(group), groupThreshold, svcs, decryptionOrder), old(Snapshot()), Snapshot(),
                      opens)
      ensures r.Ok? ==>
                var dataKey := Obtain(old(Snapshot()), svcs, decryptionOrder).value;
                var given := State(old(ViewGroups(KeyGroups)) + [old(ViewGroup(group))],
                                   Chosen(groupThreshold, old(ShamirThreshold)), dataKey);
                UpdateLeft(given, Snapshot(), dataKey, svcs, opens, errs)
    {
      hide Updated; hide Obtain; hide Honest; hide UpdateLeft; hide Apart;
      errs := [];
      IdsOfView(KeyGroups);
      ghost var view := ViewGroups(KeyGroups + [group]);
      assert view == ViewGroups(KeyGroups) + [ViewGroup(group)];
      var dataKey := GetDataKey(svcs, decryptionOrder);
      if dataKey.Err? {
        return Err(dataKey.error), errs;
      }
      ghost var ids := AllIds(KeyGroups);
      var groups := KeyGroups + [group];
      assert AllIds(groups) == ids + [IdsOf(group)] && ViewGroups(groups) == view;
      var threshold := if groupThreshold != 0 then groupThreshold else ShamirThreshold;
      errs := Reissue(groups, threshold, dataKey.value, svcs, opens);
      return Ok(()), errs;
    }

    /** groups delete: the data key is split again for one group less. On the threshold error the
        command writes no file. For a group that is not there it panics. */
    method DeleteGroup(index: nat, groupThreshold: int, svcs: seq<Service>, decryptionOrder: seq<string>,
                       ghost opens: Opening) returns (r: Result<()>, errs: seq<string>)
      requires Apart(KeyGroups) && Honest(svcs, opens)
      modifies this, KeysOf(KeyGroups)
      ensures r.Ok? <==> Obtain(old(Snapshot()), svcs, decryptionOrder).Ok? && index < |old(KeyGroups)| &&
                         |old(KeyGroups)| - 1 >= Chosen(groupThreshold, old(ShamirThreshold))
      ensures Obtain(old(Snapshot()), svcs, decryptionOrder).Ok? && index >= |old(KeyGroups)| ==> r == Err(PANIC)
      ensures r.Ok? ==> KeyGroups == old(KeyGroups)[..index] + old(KeyGroups)[index + 1..]
      ensures r.Ok? && errs == [] ==>
                Step(Op.DeleteGroup(index, groupThreshold, svcs, decryptionOrder), old(Snapshot()), Snapshot(), opens)
      ensures r.Ok? ==>
                var dataKey := Obtain(old(Snapshot()), svcs, decryptionOrder).value;
                var given := State(old(ViewGroups(KeyGroups))[..index] + old(ViewGroups(KeyGroups))[index + 1..],
                                   Chosen(groupThreshold, old(ShamirThreshold)), dataKey);
                UpdateLeft(given, Snapshot(), dataKey, svcs, opens, errs)
    {
      hide Updated; hide Obtain; hide Honest; hide Apart; hide UpdateLeft;
      errs := [];
      IdsOfView(KeyGroups);
      ghost var view := ViewGroups(KeyGroups);
      var dataKey := GetDataKey(svcs, decryptionOrder);
      if dataKey.Err? {
        return Err(dataKey.error), errs;
      }
      if index >= |KeyGroups| {
        return Err(PANIC), errs;
      }
      assert ViewGroups(KeyGroups) == view;
      r, errs := DeleteAt(index, groupThreshold, dataKey.value, svcs, opens);
    }

    /** The part of groups delete behind the data key. */
    method DeleteAt(index: nat, groupThreshold: int, dataKey: bytes, svcs: seq<Service>, ghost opens: Opening)
        returns (r: Result<()>, errs: seq<string>)
      requires Apart(KeyGroups) && Honest(svcs, opens) && index < |KeyGroups|
      modifies this, KeysOf(KeyGroups)
      ensures r.Ok? <==> |old(KeyGroups)| - 1 >= Chosen(groupThreshold, old(ShamirThreshold))
      ensures KeyGroups == old(KeyGroups)[..index] + old(KeyGroups)[index + 1..]
      ensures var ids := AllIds(old(KeyGroups));
              r.Ok? && errs == [] ==> Updated(Snapshot(), ids[..index] + ids[index + 1..],
                                              Chosen(groupThreshold, old(ShamirThreshold)), dataKey, opens)
      ensures var given := State(old(ViewGroups(KeyGroups))[..index] + old(ViewGroups(KeyGroups))[index + 1..],
                                 Chosen(groupThreshold, old(ShamirThreshold)), old(DataKey));
              if r.Ok? then UpdateLeft(given, Snapshot(), dataKey, svcs, opens, errs) else Snapshot() == given
    {
      hide Updated; hide Honest; hide Apart; hide KeysOf; hide UpdateLeft;
      hide AllIds; hide ViewGroups;
      DroppingKeepsApart(KeyGroups, index);
      DroppedViews(KeyGroups, index);
      KeyGroups := KeyGroups[..index] + KeyGroups[index + 1..];
      if groupThreshold != 0 {
        ShamirThreshold := groupThreshold;
      }
      if |KeyGroups| < ShamirThreshold {
        return Err("removing this key group will make the Shamir threshold impossible to satisfy"), [];
      }
      errs := Reissue(KeyGroups, ShamirThreshold, dataKey, svcs, opens);
      return Ok(()), errs;
    }

    /** rotate: a new data key for the groups with some keys added to the first group and some
        names removed from all groups. On an error the command writes no file. */
    method Rotate(add: Group, remove: seq<string>, newKey: bytes, svcs: seq<Service>, decryptionOrder: seq<string>,
                  ghost opens: Opening) returns (r: Result<()>)
      requires Apart(KeyGroups + [add]) && Honest(svcs, opens) && newKey != []
      modifies this, KeysOf(KeyGroups + [add])
      ensures r.Ok? ==>
                Step(Op.Rotate(newKey, IdsOf(add), remove, svcs, decryptionOrder), old(Snapshot()), Snapshot(), opens)
      ensures r == Err(PANIC) <==>
                Obtain(old(Snapshot()), svcs, decryptionOrder).Ok?
                && ((add != [] && old(KeyGroups) == [])
                    || RemoveNames(WithAdded(old(Ids(Snapshot().groups)), IdsOf(add)), remove).None?)
      ensures r == Err(NO_KEY) <==> Obtain(old(Snapshot()), svcs, decryptionOrder).Err?
      ensures r == Err(NO_KEY) ==> Snapshot() == old(Snapshot())
      ensures r.Err? ==> r.error in [PANIC, NO_KEY, NO_NEW_KEY]
      ensures r == Err(NO_NEW_KEY) ==>
                var groups := RemoveKeys(WithAdded(old(ViewGroups(KeyGroups)), old(ViewGroup(add))), remove);
                && groups.Some?
                && var given := State(groups.value, old(ShamirThreshold),
                                      Obtain(old(Snapshot()), svcs, decryptionOrder).value);
                   UpdateFailed(given, Snapshot(), newKey, svcs, opens)
    {
      hide RemoveNames; hide RemoveKeys; hide Updated; hide Obtain; hide Honest; hide UpdateLeft; hide Apart;
      IdsOfView(KeyGroups);
      ghost var view, added := ViewGroups(KeyGroups), ViewGroup(add);
      var dataKey := GetDataKey(svcs, decryptionOrder);
      if dataKey.Err? {
        return Err(NO_KEY);
      }
      assert ViewGroups(KeyGroups) == view;
      InLastGroup(KeyGroups, add);
      assert ViewGroup(add) == added;
      if |add| > 0 && |KeyGroups| == 0 {
        return Err(PANIC);
      }
      ghost var errs;
      r, errs := ReplaceKeys(add, remove, newKey, svcs, opens);
    }

    /** The part of rotate behind the decryption of the file. */
    method ReplaceKeys(add: Group, remove: seq<string>, newKey: bytes, svcs: seq<Service>, ghost opens: Opening)
        returns (r: Result<()>, ghost errs: seq<string>)
      requires Apart(KeyGroups + [add]) && Honest(svcs, opens) && (add != [] ==> KeyGroups != [])
      modifies this, KeysOf(KeyGroups + [add])
      ensures r in [Ok(()), Err(PANIC), Err(NO_NEW_KEY)]
      ensures var ids := RemoveNames(WithAdded(AllIds(old(KeyGroups)), IdsOf(add)), remove);
              if r == Err(PANIC) then ids.None?
              else ids.Some? && (r.Ok? ==> Updated(Snapshot(), ids.value, old(ShamirThreshold), newKey, opens))
      ensures r != Err(PANIC) ==>
                var groups := RemoveKeys(WithAdded(old(ViewGroups(KeyGroups)), old(ViewGroup(add))), remove);
                && groups.Some? && (r.Ok? <==> errs == [])
                && var given := State(groups.value, old(ShamirThreshold), old(DataKey));
                   UpdateLeft(given, Snapshot(), newKey, svcs, opens, errs)
    {
      hide RemoveNames; hide RemoveKeys; hide Updated; hide Honest; hide UpdateLeft; hide Apart; hide ViewGroups;
      hide ViewGroup; hide AllIds; hide IdsOf;
      AddingKeepsApart(KeyGroups, add);
      AddedViews(KeyGroups, add);
      ghost var given := ViewGroups(WithAdded(KeyGroups, add));
      KeyGroups := AppendToFirst(KeyGroups, add);
      var left := RemoveNamesFromGroups(KeyGroups, remove);
      assert ViewGroups(KeyGroups) == given;
      if left.None? {
        return Err(PANIC), [];
      }
      var failed := Reissue(left.value, ShamirThreshold, newKey, svcs, opens);
      if |failed| > 0 {
        return Err(NO_NEW_KEY), failed;
      }
      return Ok(()), failed;
    }
  }

  lemma InLastGroup(groups: seq<Group>, add: Group)
    ensures forall key :: key in add ==> key in KeysOf(groups + [add])
  {
    forall key | key in add
      ensures key in KeysOf(groups + [add])
    {
      var j :| 0 <= j < |add| && add[j] == key;
      assert (groups + [add])[|groups|][j] == key;
    }
  }

  lemma AddedViews(groups: seq<Group>, add: Group)
    requires add != [] ==> groups != []
    ensures var after := if add == [] then groups else groups[0 := groups[0] + add];
            && AllIds(after) == WithAdded(AllIds(groups), IdsOf(add))
            && ViewGroups(after) == WithAdded(ViewGroups(groups), ViewGroup(add))
  {
    if add != [] {
      assert IdsOf(groups[0] + add) == IdsOf(groups[0]) + IdsOf(add);
      assert ViewGroup(groups[0] + add) == ViewGroup(groups[0]) + ViewGroup(add);
    }
  }

  /** for key in add { groups[0] = append(groups[0], key) } */
  method AppendToFirst(groups: seq<Group>, add: Group) returns (r: seq<Group>)
    requires add != [] ==> groups != []
    ensures r == if add == [] then groups else groups[0 := groups[0] + add]
  {
    r := groups;
    for k := 0 to |add|
      invariant |r| == |groups|
      invariant k > 0 ==> r[0] == groups[0] + add[..k]
      invariant k == 0 ==> r == groups
      invariant forall i :: 1 <= i < |groups| ==> r[i] == groups[i]
    {
      assert groups[0] + add[..k + 1] == groups[0] + add[..k] + [add[k]];
      assert k == 0 ==> groups[0] + add[..0] == groups[0];
      r := r[0 := r[0] + [add[k]]];
    }
    assert add[..|add|] == add;
  }

  lemma DroppingKeepsApart(groups: seq<Group>, index: nat)
    requires Apart(groups) && index < |groups|
    ensures var after := groups[..index] + groups[index + 1..];
            Apart(after) && KeysOf(after) <= KeysOf(groups)
  {
    var after := groups[..index] + groups[index + 1..];
    assert forall i :: 0 <= i < |after| ==> after[i] == groups[if i < index then i else i + 1];
  }

  lemma DroppedViews(groups: seq<Group>, index: nat)
    requires index < |groups|
    ensures var after, ids, view := groups[..index] + groups[index + 1..], AllIds(groups), ViewGroups(groups);
            && AllIds(after) == ids[..index] + ids[index + 1..]
            && ViewGroups(after) == view[..index] + view[index + 1..]
  {
    hide IdsOf; hide ViewGroup;
  }

  const PANIC := "slice bounds out of range"
  const NO_NEW_KEY := "Could not generate data key"

  lemma AddingKeepsApart(groups: seq<Group>, add: Group)
    requires Apart(groups + [add]) && (add != [] ==> groups != [])
    ensures var after := if add == [] then groups else groups[0 := groups[0] + add];
            Apart(after) && KeysOf(after) <= KeysOf(groups + [add])
  {
    var all := groups + [add];
    var after := if add == [] then groups else groups[0 := groups[0] + add];
    forall k, l, k', l' | 0 <= k < |after| && 0 <= l < |after[k]| && 0 <= k' < |after| && 0 <= l' < |after[k']|
                          && after[k][l] == after[k'][l']
      ensures k == k' && l == l'
    {
      var (i, j) := Origin(groups, k, l);
      var (i', j') := Origin(groups, k', l');
      assert all[i][j] == after[k][l] && all[i'][j'] == after[k'][l'];
    }
    forall key | key in KeysOf(after)
      ensures key in KeysOf(all)
    {
      var k, l :| 0 <= k < |after| && 0 <= l < |after[k]| && after[k][l] == key;
      var (i, j) := Origin(groups, k, l);
      assert all[i][j] == key;
    }
  }

  /** Where the key at place `l` of group `k` comes from, after adding keys to the first group. */
  ghost function Origin(groups: seq<Group>, k: nat, l: nat): (nat, nat)
    requires k < |groups|
  {
    if l < |groups[k]| then (k, l) else (|groups|, l - |groups[k]|)
  }
}
