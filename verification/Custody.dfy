/**
 Custody of the data key across key groups: the key handling of sops.go and the commands of
 cmd/sops/rotate.go and cmd/sops/subcommand/groups. The methods of Metadata work on key
 objects in place; each is tied to a step on plain states, and the main results are about
 every run of such steps.
 */
module Custody {
  import opened Polynomials
  import opened Results
  import Shamir
  import KeyGroups

  datatype KeyId = KeyId(kind: string, name: string)

  /** A key service. Encryption draws randomness, which is the third argument. */
  datatype Service = Service(encrypt: (KeyId, bytes, nat) -> Result<bytes>,
                             decrypt: (KeyId, bytes) -> Result<bytes>)

  /** What every ciphertext opens to under every master key, whoever decrypts it. */
  type Opening = (KeyId, bytes) -> bytes

  /** Services may fail at will, but a ciphertext opens to what was encrypted, and a successful
      decryption returns that. */
  ghost predicate Honest(svcs: seq<Service>, opens: Opening) {
    forall svc :: svc in svcs ==>
      && (forall id, p, r :: svc.encrypt(id, p, r).Ok? ==> opens(id, svc.encrypt(id, p, r).value) == p)
      && (forall id, c :: svc.decrypt(id, c).Ok? ==> svc.decrypt(id, c).value == opens(id, c))
  }

  // ---------- States ----------

  datatype Key = Key(id: KeyId, enc: bytes)

  datatype State = State(groups: seq<seq<Key>>, threshold: int, cache: bytes)

  function GroupIds(group: seq<Key>): (r: seq<KeyId>)
    ensures |r| == |group|
  {
    seq(|group|, j requires 0 <= j < |group| => group[j].id)
  }

  function Ids(groups: seq<seq<Key>>): (r: seq<seq<KeyId>>)
    ensures |r| == |groups|
  {
    seq(|groups|, i requires 0 <= i < |groups| => GroupIds(groups[i]))
  }

  /** With one group every key opens to the data key itself; with several, group `i` holds share
      `i` of it, for one choice of polynomials. */
  ghost predicate Distributed(groups: seq<seq<Key>>, threshold: int, dataKey: bytes, opens: Opening) {
    && groups != [] && [] !in groups
    && if |groups| == 1 then HoldsPart(groups[0], dataKey, opens)
       else exists polys :: HoldShares(groups, threshold, dataKey, polys, opens)
  }

  ghost predicate HoldsPart(group: seq<Key>, part: bytes, opens: Opening) {
    forall j :: 0 <= j < |group| ==> opens(group[j].id, group[j].enc) == part
  }

  ghost predicate HoldShares(groups: seq<seq<Key>>, threshold: int, dataKey: bytes, polys: seq<poly>, opens: Opening) {
    && 2 <= threshold <= |groups| <= 255 && Shamir.Hides(polys, dataKey, threshold)
    && forall i :: 0 <= i < |groups| ==> HoldsPart(groups[i], Shamir.Share(polys, i), opens)
  }

  // ---------- Recovering the data key ----------

  /** The first service that decrypts the key's ciphertext decides; nothing when none does. */
  function DecryptWith(svcs: seq<Service>, id: KeyId, enc: bytes): bytes {
    if svcs == [] then []
    else
      var r := svcs[0].decrypt(id, enc);
      if r.Ok? && r.value != [] then r.value else DecryptWith(svcs[1..], id, enc)
  }

  /** The part found by the first key that can be decrypted, in the given order. */
  function FirstPart(group: seq<Key>, svcs: seq<Service>, indices: seq<nat>): bytes
    requires forall k :: 0 <= k < |indices| ==> indices[k] < |group|
  {
    if indices == [] then []
    else
      var key := group[indices[0]];
      var part := DecryptWith(svcs, key.id, key.enc);
      if part != [] then part else FirstPart(group, svcs, indices[1..])
  }

  function Kinds(ids: seq<KeyId>): (r: seq<string>)
    ensures |r| == |ids|
  {
    seq(|ids|, j requires 0 <= j < |ids| => ids[j].kind)
  }

  function Order(ids: seq<KeyId>, decryptionOrder: seq<string>): (r: seq<nat>)
    ensures forall k :: 0 <= k < |r| ==> r[k] < |ids|
  {
    KeyGroups.TryOrder(KeyGroups.Priorities(Kinds(ids), decryptionOrder), |ids|)
  }

  function GroupPart(group: seq<Key>, svcs: seq<Service>, decryptionOrder: seq<string>): bytes {
    FirstPart(group, svcs, Order(GroupIds(group), decryptionOrder))
  }

  /** The parts of the groups that gave one, in the order of the groups. */
  function Parts(groups: seq<seq<Key>>, svcs: seq<Service>, decryptionOrder: seq<string>): seq<bytes> {
    if groups == [] then []
    else
      var n := |groups| - 1;
      var part := GroupPart(groups[n], svcs, decryptionOrder);
      Parts(groups[..n], svcs, decryptionOrder) + if part == [] then [] else [part]
  }

  const NO_KEY := "could not retrieve the data key"

  ghost function FreshRecovery(s: State, svcs: seq<Service>, decryptionOrder: seq<string>): Result<bytes> {
    var parts := Parts(s.groups, svcs, decryptionOrder);
    if |s.groups| > 1 then
      if |parts| < s.threshold then Err(NO_KEY) else Shamir.Combined(parts)
    else if |parts| != 1 then Err(NO_KEY)
    else Ok(parts[0])
  }

  ghost function Obtain(s: State, svcs: seq<Service>, decryptionOrder: seq<string>): Result<bytes> {
    if s.cache != [] then Ok(s.cache) else FreshRecovery(s, svcs, decryptionOrder)
  }

  /** Whether some service decrypts some key of the group. */
  ghost predicate Decryptable(group: seq<Key>, svcs: seq<Service>) {
    exists j :: 0 <= j < |group| && KeyDecryptable(group[j], svcs)
  }

  ghost predicate KeyDecryptable(key: Key, svcs: seq<Service>) {
    exists k :: 0 <= k < |svcs| && var r := svcs[k].decrypt(key.id, key.enc); r.Ok? && r.value != []
  }

  /** The numbers of the decryptable groups. */
  ghost function DecryptableGroups(groups: seq<seq<Key>>, svcs: seq<Service>): (r: seq<nat>)
    ensures Shamir.DistinctIndices(r, |groups|)
  {
    if groups == [] then []
    else
      var n := |groups| - 1;
      DecryptableGroups(groups[..n], svcs) + if Decryptable(groups[n], svcs) then [n] else []
  }

  lemma {:induction false} DecryptWithOpens(svcs: seq<Service>, id: KeyId, enc: bytes, opens: Opening)
    requires Honest(svcs, opens)
    ensures var part := DecryptWith(svcs, id, enc);
            && (part != [] <==> KeyDecryptable(Key(id, enc), svcs))
            && (part != [] ==> part == opens(id, enc))
  {
    if svcs != [] {
      var r := svcs[0].decrypt(id, enc);
      assert svcs[0] in svcs;
      if !(r.Ok? && r.value != []) {
        assert forall svc :: svc in svcs[1..] ==> svc in svcs;
        DecryptWithOpens(svcs[1..], id, enc, opens);
        if KeyDecryptable(Key(id, enc), svcs) {
          var k :| 0 <= k < |svcs| && var r := svcs[k].decrypt(id, enc); r.Ok? && r.value != [];
          assert svcs[1..][k - 1] == svcs[k];
        }
        if KeyDecryptable(Key(id, enc), svcs[1..]) {
          var k :| 0 <= k < |svcs[1..]| && var r := svcs[1..][k].decrypt(id, enc); r.Ok? && r.value != [];
          assert svcs[k + 1] == svcs[1..][k];
        }
      }
    }
  }

  lemma {:induction false} FirstPartOpens(group: seq<Key>, svcs: seq<Service>, indices: seq<nat>, part: bytes,
        opens: Opening)
    requires Honest(svcs, opens) && HoldsPart(group, part, opens)
    requires forall k :: 0 <= k < |indices| ==> indices[k] < |group|
    ensures var found := FirstPart(group, svcs, indices);
            && (found != [] ==> found == part)
            && (found != [] <==> exists k :: 0 <= k < |indices| && KeyDecryptable(group[indices[k]], svcs))
  {
    hide Honest; hide KeyDecryptable;
    if indices != [] {
      var key := group[indices[0]];
      DecryptWithOpens(svcs, key.id, key.enc, opens);
      assert key == Key(key.id, key.enc);
      FirstPartOpens(group, svcs, indices[1..], part, opens);
      if exists k :: 0 <= k < |indices| && KeyDecryptable(group[indices[k]], svcs) {
        var k :| 0 <= k < |indices| && KeyDecryptable(group[indices[k]], svcs);
        if k > 0 {
          assert indices[1..][k - 1] == indices[k];
        }
      }
    }
  }

  /** A group gives its part exactly when one of its keys can be decrypted, whatever its place
      in the group and in the decryption order. */
  lemma GroupPartOpens(group: seq<Key>, svcs: seq<Service>, decryptionOrder: seq<string>, part: bytes, opens: Opening)
    requires Honest(svcs, opens) && HoldsPart(group, part, opens)
    ensures var found := GroupPart(group, svcs, decryptionOrder);
            && (found != [] ==> found == part)
            && (found != [] <==> Decryptable(group, svcs))
  {
    hide Honest; hide KeyDecryptable;
    var ids := GroupIds(group);
    var prio := KeyGroups.Priorities(Kinds(ids), decryptionOrder);
    KeyGroups.TryOrderIsStable(prio);
    var order := Order(ids, decryptionOrder);
    FirstPartOpens(group, svcs, order, part, opens);
    if Decryptable(group, svcs) {
      var j :| 0 <= j < |group| && KeyDecryptable(group[j], svcs);
      assert j in order;
    }
  }

  lemma {:induction false} PartsAreShares(groups: seq<seq<Key>>, svcs: seq<Service>, decryptionOrder: seq<string>,
                                          polys: seq<poly>, opens: Opening)
    requires Honest(svcs, opens)
    requires forall i :: 0 <= i < |groups| ==> HoldsPart(groups[i], Shamir.Share(polys, i), opens)
    ensures Parts(groups, svcs, decryptionOrder) == Shamir.Pick(polys, DecryptableGroups(groups, svcs))
  {
    hide Honest; hide HoldsPart; hide Decryptable; hide GroupPart; hide Shamir.Share;
    if groups != [] {
      var n := |groups| - 1;
      PartsAreShares(groups[..n], svcs, decryptionOrder, polys, opens);
      GroupPartOpens(groups[n], svcs, decryptionOrder, Shamir.Share(polys, n), opens);
    }
  }

  /** Recovery is exact: with a threshold of decryptable groups (or the only group) it returns
      the data key, and otherwise it fails; it never returns anything else. */
  lemma RecoveryIsExact(s: State, dataKey: bytes, svcs: seq<Service>, decryptionOrder: seq<string>, opens: Opening)
    requires Distributed(s.groups, s.threshold, dataKey, opens) && dataKey != [] && Honest(svcs, opens)
    ensures var enough := if |s.groups| == 1 then 1 else s.threshold;
            FreshRecovery(s, svcs, decryptionOrder) ==
            if |DecryptableGroups(s.groups, svcs)| >= enough then Ok(dataKey) else Err(NO_KEY)
  {
    hide Honest; hide Decryptable; hide GroupPart;
    if |s.groups| == 1 {
      assert s.groups[..0] == [];
      GroupPartOpens(s.groups[0], svcs, decryptionOrder, dataKey, opens);
      assert Parts(s.groups[..0], svcs, decryptionOrder) == [];
      assert DecryptableGroups(s.groups[..0], svcs) == [];
    } else {
      var polys :| HoldShares(s.groups, s.threshold, dataKey, polys, opens);
      PartsAreShares(s.groups, svcs, decryptionOrder, polys, opens);
      var chosen := DecryptableGroups(s.groups, svcs);
      if |chosen| >= s.threshold {
        Shamir.AnyThresholdRecovers(dataKey, |s.groups|, s.threshold, polys, chosen);
      }
    }
  }

  lemma {:induction false} DecryptableAreCounted(groups: seq<seq<Key>>, svcs: seq<Service>) returns (able: set<nat>)
    ensures forall i :: i in able <==> 0 <= i < |groups| && Decryptable(groups[i], svcs)
    ensures |DecryptableGroups(groups, svcs)| == |able|
  {
    hide Decryptable;
    able := {};
    if groups != [] {
      var n := |groups| - 1;
      able := DecryptableAreCounted(groups[..n], svcs);
      if Decryptable(groups[n], svcs) {
        able := able + {n};
      }
    }
  }

  /** The same in numbers of groups: `able` are the groups in which some service decrypts some
      key. A single group is enough by itself; of several, the threshold must be reached. */
  lemma RecoveryNeedsThreshold(s: State, dataKey: bytes, svcs: seq<Service>, decryptionOrder: seq<string>,
                               opens: Opening) returns (able: set<nat>)
    requires Distributed(s.groups, s.threshold, dataKey, opens) && dataKey != [] && Honest(svcs, opens)
    ensures forall i :: i in able <==>
              0 <= i < |s.groups| &&
              (exists j, k :: 0 <= j < |s.groups[i]| && 0 <= k < |svcs| &&
                              (var r := svcs[k].decrypt(s.groups[i][j].id, s.groups[i][j].enc);
                               r.Ok? && r.value != []))
    ensures FreshRecovery(s, svcs, decryptionOrder) ==
            if |able| >= (if |s.groups| == 1 then 1 else s.threshold) then Ok(dataKey) else Err(NO_KEY)
  {
    RecoveryIsExact(s, dataKey, svcs, decryptionOrder, opens);
    hide Distributed; hide FreshRecovery; hide Honest;
    able := DecryptableAreCounted(s.groups, svcs);
    forall i | 0 <= i < |s.groups|
      ensures Decryptable(s.groups[i], svcs) <==>
              (exists j, k :: 0 <= j < |s.groups[i]| && 0 <= k < |svcs| &&
                              (var r := svcs[k].decrypt(s.groups[i][j].id, s.groups[i][j].enc);
                               r.Ok? && r.value != []))
    {}
  }
}
