/**
 Whole documents: Encrypt and Decrypt of sops.go over all branches, and EncryptTree and
 DecryptTree of cmd/sops/common/common.go, which seal the MAC under the time stamp and check it.
 */
module Documents {
  import opened Results
  import opened Trees
  import opened Decisions
  import opened Walker
  import opened RoundTrip
  import Custody

  /** The 32 bytes that start the hash when only encrypted values are part of the MAC. */
  const MAC_ONLY_ENCRYPTED_INITIALIZATION: string :=
    "\U{8a}\U{3f}\U{d2}\U{ad}\U{54}\U{ce}\U{66}\U{52}\U{7b}\U{10}\U{34}\U{f3}\U{d1}\U{47}\U{be}\U{0b}" +
    "\U{0b}\U{97}\U{5b}\U{3b}\U{f4}\U{4f}\U{72}\U{c6}\U{fd}\U{ad}\U{ec}\U{81}\U{76}\U{f2}\U{7d}\U{69}"

  function Start(rules: Rules): Written {
    Written(if rules.macOnlyEncrypted then MAC_ONLY_ENCRYPTED_INITIALIZATION else "", 0)
  }

  /** Every branch is walked from the root, with one hash for all of them. */
  function WalkBranches(env: Env, branches: seq<TreeBranch>, st: Written): (r: Result<(seq<TreeBranch>, Written)>)
    ensures r.Ok? ==> |r.value.0| == |branches|
  {
    if branches == [] then Ok(([], st))
    else
      var (branch, st) :- WalkItems(env, branches[0], [], [], [], st);
      var (rest, st) :- WalkBranches(env, branches[1..], st);
      Ok(([branch] + rest, st))
  }

  /** SHA-512 in hexadecimal, and the printed time stamp: functions of their argument. */
  datatype Format = Format(digest: string -> string, rfc3339: int -> string)

  datatype Sealed = Sealed(branches: seq<TreeBranch>, lastModified: int, mac: string)

  function WalkedTree(env: Env, branches: seq<TreeBranch>, f: Format): Result<(seq<TreeBranch>, string, nat)> {
    var (walked, st) :- WalkBranches(env, branches, Start(env.rules));
    Ok((walked, f.digest(st.hash), st.calls))
  }

  function EncryptedTree(env: Env, branches: seq<TreeBranch>, now: int, f: Format): Result<Sealed> {
    var (walked, mac, calls) :- WalkedTree(env, branches, f);
    var sealed :- env.cipher.encrypt(Str(mac), env.key, f.rfc3339(now), calls);
    Ok(Sealed(walked, now, sealed))
  }

  const MAC_MISMATCH := "MAC mismatch"

  function DecryptedTree(env: Env, s: Sealed, ignoreMac: bool, f: Format): Result<seq<TreeBranch>> {
    var (walked, computed, _) :- WalkedTree(env, s.branches, f);
    var fileMac := env.cipher.decrypt(s.mac, env.key, f.rfc3339(s.lastModified));
    if ignoreMac || fileMac == Ok(Str(computed)) then Ok(walked)
    else if fileMac.Err? then Err("Cannot decrypt MAC")
    else Err(MAC_MISMATCH)
  }

  // ---------- The document as an object ----------

  class Document {
    const rules: Rules
    var branches: seq<TreeBranch>
    var lastModified: int
    var mac: string

    constructor (rules: Rules, branches: seq<TreeBranch>, lastModified: int, mac: string)
      ensures this.rules == rules && this.branches == branches
      ensures this.lastModified == lastModified && this.mac == mac
    {
      this.rules, this.branches, this.lastModified, this.mac := rules, branches, lastModified, mac;
    }

    /** Encrypt or Decrypt, as the mode says: walks all branches in place and returns the MAC. An
        error leaves the branches in front of it walked. */
    method WalkTree(env: Env, f: Format) returns (r: Result<(string, nat)>)
      requires env.rules == rules
      modifies this`branches
      ensures match WalkedTree(env, old(branches), f)
              case Ok((walked, m, calls)) => r == Ok((m, calls)) && branches == walked
              case Err(e) => r == Err(e)
    {
      var walk := new Walk(env, Start(rules).hash);
      ghost var original := branches;
      ghost var whole := WalkBranches(env, original, Start(rules));
      AfterNothing(whole);
      assert original[0..] == original;
      for i := 0 to |branches|
        invariant |branches| == |original| && branches[i..] == original[i..]
        invariant walk.env == env
        invariant whole == After(branches[..i], WalkBranches(env, original[i..], walk.written))
      {
        ghost var done, st := branches[..i], walk.written;
        assert original[i..][0] == branches[i] && original[i..][1..] == original[i + 1..];
        BranchesStep(env, original[i..], st);
        hide WalkItems; hide WalkBranches;
        var newBranch := walk.WalkBranch(branches[i], [], []);
        if newBranch.Err? {
          return Err(newBranch.error);
        }
        branches := branches[i := newBranch.value];
        assert branches[..i + 1] == done + [newBranch.value];
        AfterOne(done, newBranch.value, WalkBranches(env, original[i + 1..], walk.written));
      }
      assert original[|branches|..] == [] && branches[..|branches|] == branches && branches + [] == branches;
      return Ok((f.digest(walk.written.hash), walk.written.calls));
    }

    method EncryptTree(env: Env, now: int, f: Format) returns (r: Result<()>)
      requires env.rules == rules && env.mode == Encrypting
      modifies this
      ensures match EncryptedTree(env, old(branches), now, f)
              case Ok(s) => r == Ok(()) && Sealed(branches, lastModified, mac) == s
              case Err(_) => r.Err?
    {
      hide WalkedTree;
      var m := WalkTree(env, f);
      if m.Err? {
        return Err(m.error);
      }
      lastModified := now;
      var (text, calls) := m.value;
      var sealed := env.cipher.encrypt(Str(text), env.key, f.rfc3339(lastModified), calls);
      if sealed.Err? {
        return Err(sealed.error);
      }
      mac := sealed.value;
      return Ok(());
    }

    method DecryptTree(env: Env, ignoreMac: bool, f: Format) returns (r: Result<()>)
      requires env.rules == rules && env.mode == Decrypting
      modifies this`branches
      ensures match DecryptedTree(env, old(Sealed(branches, lastModified, mac)), ignoreMac, f)
              case Ok(bs) => r == Ok(()) && branches == bs
              case Err(e) => r == Err(e)
    {
      hide WalkedTree;
      var m := WalkTree(env, f);
      if m.Err? {
        return Err(m.error);
      }
      var (computed, _) := m.value;
      var fileMac := env.cipher.decrypt(mac, env.key, f.rfc3339(lastModified));
      if !ignoreMac {
        if fileMac.Err? {
          return Err("Cannot decrypt MAC");
        }
        if fileMac.value != Str(computed) {
          return Err(MAC_MISMATCH);
        }
      }
      return Ok(());
    }
  }

  lemma BranchesStep(env: Env, branches: seq<TreeBranch>, st: Written)
    requires branches != []
    ensures WalkBranches(env, branches, st) ==
            match WalkItems(env, branches[0], [], [], [], st)
            case Ok((branch, st')) => After([branch], WalkBranches(env, branches[1..], st'))
            case Err(e) => Err(e)
  {}

  // ---------- Main results ----------

  ghost predicate ReadableBranches(rules: Rules, matches: Matcher, branches: seq<TreeBranch>) {
    forall i :: 0 <= i < |branches| ==> ReadableInItems(rules, matches, branches[i], [], [])
  }

  ghost predicate EqualBranches(a: seq<TreeBranch>, b: seq<TreeBranch>) {
    |a| == |b| && forall i :: 0 <= i < |a| ==> EqualItems(a[i], NormalizedItems(b[i]))
  }

  lemma {:induction false} BranchesRoundTrip(enc: Env, dec: Env, branches: seq<TreeBranch>, st: Written, st': Written)
    requires Pair(enc, dec) && Faithful(enc) && ReadableBranches(enc.rules, enc.matches, branches)
    requires st.hash == st'.hash && WalkBranches(enc, branches, st).Ok?
    ensures var (ws, s) := WalkBranches(enc, branches, st).value;
            var r := WalkBranches(dec, ws, st');
            r.Ok? && EqualBranches(r.value.0, branches) && r.value.1.hash == s.hash
  {
    if branches != [] {
      ItemsRoundTrip(enc, dec, branches[0], [], [], [], [], [], st, st');
      var (w, s) := WalkItems(enc, branches[0], [], [], [], st).value;
      var s' := WalkItems(dec, w, [], [], [], st').value.1;
      hide WalkItems; hide EqualItems; hide NormalizedItems; hide Faithful; hide ReadableInItems;
      BranchesRoundTrip(enc, dec, branches[1..], s, s');
      var ws := WalkBranches(enc, branches[1..], s).value.0;
      assert ([w] + ws)[1..] == ws;
    }
  }

  /** Decrypting what was encrypted gives back a tree equal to the original, with the same MAC;
      so DecryptTree accepts everything EncryptTree produces. */
  lemma DecryptTreeAcceptsEncryptTree(enc: Env, dec: Env, branches: seq<TreeBranch>, now: int, ignoreMac: bool,
        f: Format)
    requires Pair(enc, dec) && Faithful(enc) && ReadableBranches(enc.rules, enc.matches, branches)
    requires EncryptedTree(enc, branches, now, f).Ok?
    ensures var s := EncryptedTree(enc, branches, now, f).value;
            && WalkedTree(dec, s.branches, f).Ok?
            && WalkedTree(enc, branches, f).value.1 == WalkedTree(dec, s.branches, f).value.1
            && var r := DecryptedTree(dec, s, ignoreMac, f);
               r.Ok? && EqualBranches(r.value, branches)
  {
    BranchesRoundTrip(enc, dec, branches, Start(enc.rules), Start(dec.rules));
    hide WalkBranches; hide EqualBranches; hide ReadableBranches;
    var (_, mac, calls) := WalkedTree(enc, branches, f).value;
    var sealed := enc.cipher.encrypt(Str(mac), enc.key, f.rfc3339(now), calls);
    assert Undone(enc, Str(mac), f.rfc3339(now), sealed.value);
  }

  /** The whole life of a file: encrypted under the data key that is in custody, it is decrypted
      by anyone who can decrypt a key in enough groups. */
  lemma EnoughGroupsDecryptTheFile(state: Custody.State, dataKey: bytes, svcs: seq<Custody.Service>, order: seq<string>,
                                   opens: Custody.Opening,
                                   enc: Env, branches: seq<TreeBranch>, now: int, f: Format)
    requires Custody.Distributed(state.groups, state.threshold, dataKey, opens) && dataKey != []
    requires Custody.Honest(svcs, opens)
    requires |Custody.DecryptableGroups(state.groups, svcs)| >= if |state.groups| == 1 then 1 else state.threshold
    requires enc.mode == Encrypting && enc.key == dataKey && Faithful(enc)
    requires ReadableBranches(enc.rules, enc.matches, branches) && EncryptedTree(enc, branches, now, f).Ok?
    ensures var recovered := Custody.FreshRecovery(state, svcs, order);
            && recovered.Ok?
            && var dec := enc.(mode := Decrypting, key := recovered.value);
               var r := DecryptedTree(dec, EncryptedTree(enc, branches, now, f).value, false, f);
               r.Ok? && EqualBranches(r.value, branches)
  {
    Custody.RecoveryIsExact(state, dataKey, svcs, order, opens);
    var dec := enc.(mode := Decrypting);
    assert dec == enc.(mode := Decrypting, key := dataKey);
    DecryptTreeAcceptsEncryptTree(enc, dec, branches, now, false, f);
  }
}
