/**
 A file over its whole life: the commands that change its keys, among them rotations, which encrypt
 it again under a new data key. After every run, whoever can decrypt keys of enough groups reads
 the document that was put in.
 */
module DocumentRuns {
  import opened Results
  import opened Trees
  import opened Decisions
  import opened Walker
  import opened RoundTrip
  import opened Documents
  import Custody
  import CustodyRuns
  import Stash
  import AesCipher

  /** The keys of a file, and its encrypted content. */
  datatype File = File(custody: Custody.State, content: Sealed)

  /** The cipher with the rules of the document, the printed formats, and what the keys open to. */
  datatype World = World(env: Env, f: Format, opens: Custody.Opening)

  function Enc(w: World, key: bytes): Env {
    w.env.(mode := Encrypting, key := key)
  }

  function Dec(w: World, key: bytes): Env {
    w.env.(mode := Decrypting, key := key)
  }

  ghost predicate KeepsPromise(w: World) {
    forall key :: Faithful(Enc(w, key))
  }

  // ---------- Steps ----------

  /** A rotation decrypts the file and encrypts it under the new key. */
  ghost predicate Reencrypted(w: World, oldKey: bytes, newKey: bytes, ignoreMac: bool, before: Sealed, after: Sealed) {
    var plain := DecryptedTree(Dec(w, oldKey), before, ignoreMac, w.f);
    plain.Ok? && exists now :: EncryptedTree(Enc(w, newKey), plain.value, now, w.f) == Ok(after)
  }

  /** An update of the master keys is about the data key at hand; only rotations touch the content. */
  ghost predicate FileStep(w: World, op: CustodyRuns.Op, ignoreMac: bool, s: File, s': File) {
    && CustodyRuns.Step(op, s.custody, s'.custody, w.opens)
    && match op
       case Rotate(newKey, _, _, svcs, order) =>
         Reencrypted(w, Custody.Obtain(s.custody, svcs, order).value, newKey, ignoreMac, s.content, s'.content)
       case Update(dataKey) => s.custody.cache == dataKey && s'.content == s.content
       case _ => s'.content == s.content
  }

  ghost predicate IsFileRun(w: World, files: seq<File>, ops: seq<CustodyRuns.Op>, ignoreMac: bool) {
    && |files| == |ops| + 1
    && forall i :: 0 <= i < |ops| ==> FileStep(w, ops[i], ignoreMac, files[i], files[i + 1])
  }

  // ---------- The same document ----------

  /** Equal as documents: comments by their texts, byte slices as the strings they become. */
  ghost predicate SameDocument(a: seq<TreeBranch>, b: seq<TreeBranch>) {
    |a| == |b| && forall i :: 0 <= i < |a| ==> EqualItems(NormalizedItems(a[i]), NormalizedItems(b[i]))
  }

  lemma SameAsItself(a: seq<TreeBranch>)
    ensures SameDocument(a, a)
  {
    forall i | 0 <= i < |a|
      ensures EqualItems(NormalizedItems(a[i]), NormalizedItems(a[i]))
    {
      EqualItemsReflexive(NormalizedItems(a[i]));
    }
  }

  /** What came back from `b` is the same document as whatever `b` is. */
  lemma StaysTheSame(a: seq<TreeBranch>, b: seq<TreeBranch>, c: seq<TreeBranch>)
    requires EqualBranches(a, b) && SameDocument(b, c)
    ensures SameDocument(a, c)
  {
    hide EqualItems; hide NormalizedItems;
    forall i | 0 <= i < |a|
      ensures EqualItems(NormalizedItems(a[i]), NormalizedItems(c[i]))
    {
      NormalizedItemsStay(a[i], b[i]);
      EqualItemsTransitive(NormalizedItems(a[i]), NormalizedItems(b[i]), NormalizedItems(c[i]));
    }
  }

  // ---------- The same comments ----------

  lemma {:induction false} ReadableAlike(rules: Rules, matches: Matcher, a: Value, b: Value, scope: seq<string>)
    requires Equal(Normalized(a), Normalized(b)) && ReadableInside(rules, matches, b, scope)
    ensures ReadableInside(rules, matches, a, scope)
    decreases a, 1
  {
    hide CommentDecision;
    match a
    case Branch(items) => ItemsReadableAlike(rules, matches, items, b.items, scope, []);
    case List(elems) => ElemsReadableAlike(rules, matches, elems, b.elems, scope, []);
    case _ =>
  }

  lemma SameNextRun(run: seq<string>, a: Item, b: Item)
    requires EqualItem(NormalizedItem(a), NormalizedItem(b))
    ensures NextRun(run, a) == NextRun(run, b)
  {
    if !a.key.Remark? {
      SameNextListRun(run, a.value, b.value);
      assert NextRun(run, a) == NextListRun(run, a.value) && NextRun(run, b) == NextListRun(run, b.value);
    }
  }

  lemma SameNextListRun(run: seq<string>, a: Value, b: Value)
    requires Equal(Normalized(a), Normalized(b))
    ensures NextListRun(run, a) == NextListRun(run, b)
  {}

  lemma {:induction false} ItemsReadableAlike(rules: Rules, matches: Matcher, a: TreeBranch, b: TreeBranch,
                                              outer: seq<string>, run: seq<string>)
    requires EqualItems(NormalizedItems(a), NormalizedItems(b)) && ReadableInItems(rules, matches, b, outer, run)
    ensures ReadableInItems(rules, matches, a, outer, run)
    decreases a, 0
  {
    hide CommentDecision; hide EqualItem; hide ReadableInside;
    if a != [] {
      var n, m := NormalizedItems(a), NormalizedItems(b);
      assert n[1..] == NormalizedItems(a[1..]) && m[1..] == NormalizedItems(b[1..]);
      SameNextRun(run, a[0], b[0]);
      ItemReadableAlike(rules, matches, a[0], b[0], outer + run);
      hide NormalizedItem; hide NextRun; hide ReadableInItem;
      ItemsReadableAlike(rules, matches, a[1..], b[1..], outer, NextRun(run, a[0]));
    }
  }

  lemma {:induction false} ItemReadableAlike(rules: Rules, matches: Matcher, a: Item, b: Item, scope: seq<string>)
    requires EqualItem(NormalizedItem(a), NormalizedItem(b)) && ReadableInItem(rules, matches, b, scope)
    ensures ReadableInItem(rules, matches, a, scope)
    decreases a, 2
  {
    hide ReadableInside;
    if !a.key.Remark? {
      ReadableAlike(rules, matches, a.value, b.value, scope);
    }
  }

  lemma {:induction false} ElemsReadableAlike(rules: Rules, matches: Matcher, a: seq<Value>, b: seq<Value>,
                                              outer: seq<string>, run: seq<string>)
    requires EqualElems(NormalizedElems(a), NormalizedElems(b)) && ReadableInElems(rules, matches, b, outer, run)
    ensures ReadableInElems(rules, matches, a, outer, run)
    decreases a, 0
  {
    hide CommentDecision; hide Equal; hide ReadableInside;
    if a != [] {
      var n, m := NormalizedElems(a), NormalizedElems(b);
      assert n[1..] == NormalizedElems(a[1..]) && m[1..] == NormalizedElems(b[1..]);
      SameNextListRun(run, a[0], b[0]);
      ReadableAlike(rules, matches, a[0], b[0], outer + run);
      hide Normalized; hide NextListRun;
      ElemsReadableAlike(rules, matches, a[1..], b[1..], outer, NextListRun(run, a[0]));
    }
  }

  // ---------- Runs ----------

  /** The content was made from the document under the key. */
  ghost predicate MadeFrom(w: World, content: Sealed, key: bytes, branches: seq<TreeBranch>, now: int) {
    EncryptedTree(Enc(w, key), branches, now, w.f) == Ok(content)
  }

  /** The data key is in custody, and the content is the document, encrypted under it. */
  ghost predicate Holds(w: World, s: File, dataKey: bytes, document: seq<TreeBranch>) {
    && CustodyRuns.InCustody(s.custody, dataKey, w.opens)
    && exists branches, now :: MadeFrom(w, s.content, dataKey, branches, now) && SameDocument(branches, document)
  }

  /** Whatever the file is decrypted to under its key is the document. */
  lemma ContentIsDecrypted(w: World, s: File, dataKey: bytes, document: seq<TreeBranch>, ignoreMac: bool)
    requires KeepsPromise(w) && Holds(w, s, dataKey, document)
    requires ReadableBranches(w.env.rules, w.env.matches, document)
    ensures var r := DecryptedTree(Dec(w, dataKey), s.content, ignoreMac, w.f);
            r.Ok? && SameDocument(r.value, document)
  {
    var branches, now :| MadeFrom(w, s.content, dataKey, branches, now) && SameDocument(branches, document);
    hide SameDocument; hide CustodyRuns.InCustody; hide EncryptedTree; hide DecryptedTree; hide Faithful;
    BranchesReadableAlike(w.env.rules, w.env.matches, branches, document);
    hide ReadableBranches; hide EqualBranches;
    assert Faithful(Enc(w, dataKey));
    DecryptTreeAcceptsEncryptTree(Enc(w, dataKey), Dec(w, dataKey), branches, now, ignoreMac, w.f);
    StaysTheSame(DecryptedTree(Dec(w, dataKey), s.content, ignoreMac, w.f).value, branches, document);
  }

  lemma BranchesReadableAlike(rules: Rules, matches: Matcher, a: seq<TreeBranch>, b: seq<TreeBranch>)
    requires SameDocument(a, b) && ReadableBranches(rules, matches, b)
    ensures ReadableBranches(rules, matches, a)
  {
    forall i | 0 <= i < |a|
      ensures ReadableInItems(rules, matches, a[i], [], [])
    {
      ItemsReadableAlike(rules, matches, a[i], b[i], [], []);
    }
  }

  lemma FileStepHolds(w: World, op: CustodyRuns.Op, ignoreMac: bool, s: File, s': File, dataKey: bytes,
                      document: seq<TreeBranch>)
    requires KeepsPromise(w) && Holds(w, s, dataKey, document) && FileStep(w, op, ignoreMac, s, s')
    requires ReadableBranches(w.env.rules, w.env.matches, document)
    ensures Holds(w, s', CustodyRuns.KeyAfter(op, dataKey), document)
  {
    CustodyRuns.StepKeepsCustody(op, s.custody, s'.custody, dataKey, w.opens);
    hide SameDocument; hide ReadableBranches; hide KeepsPromise;
    if op.Rotate? {
      CustodyRuns.ObtainedKeyIsCurrent(s.custody, dataKey, op.svcs, op.decryptionOrder, w.opens);
      ContentIsDecrypted(w, s, dataKey, document, ignoreMac);
      hide EncryptedTree; hide DecryptedTree; hide CustodyRuns.InCustody;
      var plain := DecryptedTree(Dec(w, dataKey), s.content, ignoreMac, w.f).value;
      var now :| EncryptedTree(Enc(w, op.newKey), plain, now, w.f) == Ok(s'.content);
      assert MadeFrom(w, s'.content, op.newKey, plain, now);
    } else {
      assert CustodyRuns.KeyAfter(op, dataKey) == dataKey;
      hide CustodyRuns.InCustody; hide CustodyRuns.Step; hide MadeFrom;
    }
  }

  lemma {:induction false} EveryRunHolds(w: World, files: seq<File>, ops: seq<CustodyRuns.Op>, ignoreMac: bool,
                                         dataKey: bytes, document: seq<TreeBranch>, n: nat)
    requires KeepsPromise(w) && IsFileRun(w, files, ops, ignoreMac) && Holds(w, files[0], dataKey, document)
    requires ReadableBranches(w.env.rules, w.env.matches, document) && n <= |ops|
    ensures Holds(w, files[n], CustodyRuns.KeyAfterAll(ops[..n], dataKey), document)
  {
    if n > 0 {
      hide Holds; hide FileStep; hide KeepsPromise; hide ReadableBranches;
      EveryRunHolds(w, files, ops, ignoreMac, dataKey, document, n - 1);
      assert ops[..n][..n - 1] == ops[..n - 1] && ops[..n][n - 1] == ops[n - 1];
      FileStepHolds(w, ops[n - 1], ignoreMac, files[n - 1], files[n], CustodyRuns.KeyAfterAll(ops[..n - 1], dataKey),
                    document);
    }
  }

  /** The main result: after every run, whoever decrypts keys of enough groups reads the document that
      was put in, with an accepted MAC, and whoever does not gets no data key. */
  lemma EveryRunKeepsTheDocument(w: World, files: seq<File>, ops: seq<CustodyRuns.Op>, ignoreMac: bool,
                                 dataKey: bytes, document: seq<TreeBranch>, n: nat,
                                 svcs: seq<Custody.Service>, order: seq<string>)
    requires KeepsPromise(w) && IsFileRun(w, files, ops, ignoreMac) && Holds(w, files[0], dataKey, document)
    requires ReadableBranches(w.env.rules, w.env.matches, document) && n <= |ops|
    requires Custody.Honest(svcs, w.opens)
    ensures var s := files[n];
            var enough := if |s.custody.groups| == 1 then 1 else s.custody.threshold;
            var key := Custody.FreshRecovery(s.custody, svcs, order);
            if |Custody.DecryptableGroups(s.custody.groups, svcs)| >= enough then
              && key.Ok?
              && var r := DecryptedTree(Dec(w, key.value), s.content, false, w.f);
                 r.Ok? && SameDocument(r.value, document)
            else key == Err(Custody.NO_KEY)
  {
    EveryRunHolds(w, files, ops, ignoreMac, dataKey, document, n);
    var s, key := files[n], CustodyRuns.KeyAfterAll(ops[..n], dataKey);
    hide KeepsPromise; hide IsFileRun; hide ReadableBranches; hide SameDocument; hide DecryptedTree;
    ContentIsDecrypted(w, s, key, document, false);
    hide Custody.FreshRecovery; hide Custody.DecryptableGroups; hide Custody.Honest; hide Custody.Distributed;
    Custody.RecoveryIsExact(s.custody, key, svcs, order, w.opens);
  }

  /** A new file holds its document. */
  lemma NewFileHolds(w: World, s: File, dataKey: bytes, document: seq<TreeBranch>, now: int)
    requires CustodyRuns.InCustody(s.custody, dataKey, w.opens)
    requires EncryptedTree(Enc(w, dataKey), document, now, w.f) == Ok(s.content)
    ensures Holds(w, s, dataKey, document)
  {
    SameAsItself(document);
    hide EncryptedTree; hide SameDocument;
    assert MadeFrom(w, s.content, dataKey, document, now);
  }

  /** The AES cipher will do, under every key. */
  lemma AesKeepsPromise(w: World, p: Stash.Primitives, stash: Stash.IVs, random: nat -> string)
    requires Stash.Faithful(p) && w.env.cipher == AesCipher.CipherOf(p, stash, random)
    ensures KeepsPromise(w)
  {
    hide Stash.Faithful; hide AesCipher.CipherOf; hide Faithful;
    forall key
      ensures Faithful(Enc(w, key))
    {
      AesCipher.AesIsFaithful(Enc(w, key), p, stash, random);
    }
  }
}
