/**
 The AES cipher of aes/cipher.go keeps the promise of the Cipher interface of sops.go; so the
 results about encrypted trees hold for it.
 */
module AesCipher {
  import opened Results
  import opened Trees
  import opened Tokens
  import Decisions
  import Walker
  import RoundTrip
  import ExactRoundTrip
  import PathBinding
  import Encrypting
  import opened CipherFormat
  import opened Stash

  function AsResult<T>(r: Reply<T>): Result<T> {
    match r
    case Reply(x) => Ok(x)
    case Failed => Err("cipher error")
    case Panicked => Err("panic")
  }

  /** A cipher with this stash, and with `random` for what rand.Read gives in each call. What
      Decrypt returns does not depend on the stash. */
  function CipherOf(p: Primitives, stash: IVs, random: nat -> string): Walker.Cipher {
    Walker.Cipher((v: Value, key: bytes, ad: string, n: nat) => AsResult(Encrypted(p, stash, v, key, ad, random(n))),
                  (c: string, key: bytes, ad: string) => AsResult(Opened(p, c, key, ad).0))
  }

  lemma SealedIsNoDirective(p: Primitives, v: Value, key: bytes, ad: string, iv: string)
    requires Show(p, v).Some?
    ensures !Decisions.IsDirective(Sealed(p, v, key, ad, iv))
  {
    var c := Sealed(p, v, key, ad, iv);
    var opening := OPENING;
    assert opening <= c;
    assert "ENC[" <= opening;
    Decisions.CiphertextIsNoDirective(c);
  }

  lemma EmptyIsNoDirective()
    ensures !Decisions.IsDirective("")
  {
    assert Decisions.TrimSpace("") == "";
  }

  /** Whatever it encrypts is decrypted again, and no ciphertext reads as a directive, whatever is in
      the stash. */
  lemma AesIsFaithful(env: Walker.Env, p: Primitives, stash: IVs, random: nat -> string)
    requires Stash.Faithful(p) && env.cipher == CipherOf(p, stash, random)
    ensures RoundTrip.Faithful(env)
  {
    forall v: Value, ad, n | env.cipher.encrypt(v, env.key, ad, n).Ok?
      ensures RoundTrip.Undone(env, v, ad, env.cipher.encrypt(v, env.key, ad, n).value)
    {
      var iv := if StashKey(ad, v) in stash then stash[StashKey(ad, v)] else random(n);
      assert env.cipher.encrypt(v, env.key, ad, n) == AsResult(Encrypted(p, stash, v, env.key, ad, random(n)));
      if IsEmpty(v) {
        EmptyIsNoDirective();
      } else {
        DecryptUndoesEncrypt(p, v, env.key, ad, iv);
        SealedIsNoDirective(p, v, env.key, ad, iv);
      }
      hide Sealed; hide Show; hide Opened; hide Stash.Faithful; hide Decisions.IsDirective;
    }
  }

  /** AES-GCM keeps the length of a text, and base64 makes it longer. */
  ghost predicate KeepsLength(p: Primitives) {
    && (forall k, iv, text, ad :: |p.seal(k, iv, text, ad).0| >= |text|)
    && (forall s :: |p.encode(s)| >= |s|)
  }

  lemma SealedIsLonger(p: Primitives, v: Value, key: bytes, ad: string, iv: string)
    requires KeepsLength(p) && (v.Str? || v.Comment?)
    ensures |Sealed(p, v, key, ad, iv)| > |v.text|
  {
    var (name, text) := Show(p, v).value;
    var (data, tag) := p.seal(key, iv, text, ad);
    FormatHoldsData(p.encode(data), p.encode(iv), p.encode(tag), name);
    hide Format;
  }

  lemma FormatHoldsData(data: string, iv: string, tag: string, kind: string)
    ensures |Format(data, iv, tag, kind)| > |data|
  {
    BodyLength([data, iv, tag, kind], SEPARATORS);
    hide Body;
  }

  /** No text but the empty one is its own ciphertext. */
  lemma AesIsTelling(env: Walker.Env, p: Primitives, stash: IVs, random: nat -> string)
    requires KeepsLength(p) && env.cipher == CipherOf(p, stash, random)
    ensures ExactRoundTrip.Telling(env)
  {
    forall v: Value, ad, n | env.cipher.encrypt(v, env.key, ad, n).Ok? && (v.Str? || v.Comment?)
      ensures env.cipher.encrypt(v, env.key, ad, n).value == v.text <==> v.text == ""
    {
      assert env.cipher.encrypt(v, env.key, ad, n) == AsResult(Encrypted(p, stash, v, env.key, ad, random(n)));
      if !IsEmpty(v) {
        var iv := if StashKey(ad, v) in stash then stash[StashKey(ad, v)] else random(n);
        SealedIsLonger(p, v, env.key, ad, iv);
      }
      hide Sealed; hide KeepsLength;
    }
  }

  /** AES-GCM opens a text only with the key and the additional data it was sealed with. */
  ghost predicate Authentic(p: Primitives) {
    forall k, iv, text, ad, k', ad' :: k' != k || ad' != ad ==>
      p.open(k', iv, p.seal(k, iv, text, ad).0 + p.seal(k, iv, text, ad).1, ad') == None
  }

  lemma SealedOpensOnlyThere(p: Primitives, v: Value, key: bytes, ad: string, iv: string, key': bytes, ad': string)
    requires Stash.Faithful(p) && Authentic(p) && !IsEmpty(v) && Show(p, v).Some? && iv != []
    requires key' != key || ad' != ad
    ensures Opened(p, Sealed(p, v, key, ad, iv), key', ad').0 == Failed
  {
    SealedIsParsed(p, v, key, ad, iv);
    SealedIsLong(p, v, key, ad, iv);
    hide Sealed; hide Parse; hide Show; hide Stash.Faithful;
  }

  lemma SealedIsLong(p: Primitives, v: Value, key: bytes, ad: string, iv: string)
    requires Show(p, v).Some?
    ensures Sealed(p, v, key, ad, iv) != []
  {
    hide Body;
  }

  /** So the AES cipher binds what it seals to key and path. */
  lemma AesIsBinding(p: Primitives, stash: IVs, random: nat -> string)
    requires Stash.Faithful(p) && Authentic(p)
    ensures PathBinding.Binding(CipherOf(p, stash, random))
  {
    var cipher := CipherOf(p, stash, random);
    forall v, key, ad, n, key', ad' | cipher.encrypt(v, key, ad, n).Ok? && (key' != key || ad' != ad)
      ensures PathBinding.OpensNot(cipher, cipher.encrypt(v, key, ad, n).value, key', ad')
    {
      assert cipher.encrypt(v, key, ad, n) == AsResult(Encrypted(p, stash, v, key, ad, random(n)));
      if !IsEmpty(v) {
        var iv := if StashKey(ad, v) in stash then stash[StashKey(ad, v)] else random(n);
        SealedOpensOnlyThere(p, v, key, ad, iv, key', ad');
      }
      hide Sealed; hide Show; hide Opened; hide Stash.Faithful; hide Authentic;
    }
  }

  /** With an AES key it encrypts every value that has a text, with 32 random bytes each. */
  lemma AesWorks(env: Walker.Env, p: Primitives, stash: IVs, random: nat -> string)
    requires env.cipher == CipherOf(p, stash, random) && (forall n :: |random(n)| == NONCE_SIZE)
    requires forall k :: k in stash ==> |stash[k]| == NONCE_SIZE
    requires GoodKey(env.key) && (env.rules.unencryptedCommentRegex == "" || env.rules.encryptedCommentRegex == "")
    ensures Encrypting.Works(env, (v: Value) => !v.Bytes? && Show(p, v).Some?)
  {
    forall v: Value, ad, n | !v.Bytes? && Show(p, v).Some?
      ensures env.cipher.encrypt(v, env.key, ad, n).Ok?
    {
      assert env.cipher.encrypt(v, env.key, ad, n) == AsResult(Encrypted(p, stash, v, env.key, ad, random(n)));
      hide Sealed; hide Show;
    }
    hide Show; hide Encrypted;
  }

  // ---------- The promises can be kept ----------

  /** An encoding without the characters that the regular expression looks for. */
  function Escape(c: char): string {
    if c == ',' then "~1" else if c == ']' then "~2" else if c == '\n' then "~3" else if c == '~' then "~0" else [c]
  }

  function Escaped(s: string): string {
    if s == "" then "" else Escape(s[0]) + Escaped(s[1..])
  }

  function Unescaped(s: string): string {
    if s == "" then ""
    else if s[0] == '~' && |s| > 1 then
      [if s[1] == '1' then ',' else if s[1] == '2' then ']' else if s[1] == '3' then '\n' else '~'] + Unescaped(s[2..])
    else [s[0]] + Unescaped(s[1..])
  }

  lemma EscapeIsRead(c: char, rest: string)
    ensures Unescaped(Escape(c) + rest) == [c] + Unescaped(rest) && Clean(Escape(c))
  {
    var s := Escape(c) + rest;
    assert s[|Escape(c)|..] == rest;
    if |Escape(c)| == 2 {
      assert s[0] == '~' && s[2..] == rest;
    }
  }

  lemma {:induction false} EscapedIsRead(s: string)
    ensures Unescaped(Escaped(s)) == s && |Escaped(s)| >= |s| && (s != [] ==> Clean(Escaped(s)))
  {
    hide Escape; hide Unescaped;
    if s == "" {
      NothingUnescaped();
    } else {
      EscapedIsRead(s[1..]);
      EscapeIsRead(s[0], Escaped(s[1..]));
    }
  }

  lemma NothingUnescaped()
    ensures Unescaped("") == ""
  {}

  /** Bytes as characters, none of them a newline. */
  function KeyText(key: bytes): string {
    seq(|key|, i requires 0 <= i < |key| => (256 + (key[i] as int)) as char)
  }

  lemma KeyTextTellsApart(key: bytes, key': bytes)
    ensures '\n' !in KeyText(key)
    ensures KeyText(key) == KeyText(key') ==> key == key'
  {
    if KeyText(key) == KeyText(key') {
      assert |key| == |KeyText(key)| == |key'|;
      forall i | 0 <= i < |key|
        ensures key[i] == key'[i]
      {
        assert KeyText(key)[i] == KeyText(key')[i];
        assert ((key[i] as int) as bv8) == key[i];
      }
    }
  }

  /** A tag that names the key and the additional data. */
  function TagOf(key: bytes, ad: string): string {
    "\n" + Escaped(ad) + "\n" + KeyText(key)
  }

  /** Two texts from their last newline on. */
  lemma LastLine(s: string, a: string, t: string, b: string)
    requires '\n' !in a && '\n' !in b && s + "\n" + a == t + "\n" + b
    ensures s == t && a == b
  {
    var x := s + "\n" + a;
    assert forall i :: 0 <= i < |a| ==> x[|s| + 1 + i] == a[i];
    assert forall i :: 0 <= i < |b| ==> x[|t| + 1 + i] == b[i];
    assert x[|s|] == '\n' && x[|t|] == '\n';
    assert |s| == |t|;
    assert s == x[..|s|] && t == x[..|t|] && a == x[|s| + 1..] && b == x[|t| + 1..];
  }

  lemma EscapedHasNoNewline(s: string)
    ensures '\n' !in Escaped(s)
  {
    EscapedIsRead(s);
  }

  lemma TagsTellApart(s: string, key: bytes, ad: string, t: string, key': bytes, ad': string)
    requires s + TagOf(key, ad) == t + TagOf(key', ad')
    ensures s == t && key == key' && ad == ad'
  {
    KeyTextTellsApart(key, key');
    KeyTextTellsApart(key', key);
    EscapedHasNoNewline(ad);
    EscapedHasNoNewline(ad');
    EscapedIsRead(ad);
    EscapedIsRead(ad');
    var a, b, k, k' := Escaped(ad), Escaped(ad'), KeyText(key), KeyText(key');
    hide Escaped; hide Unescaped; hide KeyText;
    assert s + TagOf(key, ad) == s + "\n" + a + "\n" + k;
    assert t + TagOf(key', ad') == t + "\n" + b + "\n" + k';
    LastLine(s + "\n" + a, k, t + "\n" + b, k');
    LastLine(s, a, t, b);
  }

  function OpenWith(key: bytes, c: string, ad: string): Option<string> {
    var tag := TagOf(key, ad);
    if |c| >= |tag| && c[|c| - |tag|..] == tag then Some(c[..|c| - |tag|]) else None
  }

  lemma OpensOnlyWith(key: bytes, text: string, ad: string, key': bytes, ad': string)
    ensures OpenWith(key, text + TagOf(key, ad), ad) == Some(text)
    ensures key' != key || ad' != ad ==> OpenWith(key', text + TagOf(key, ad), ad') == None
  {
    hide TagOf;
    var c := text + TagOf(key, ad);
    assert c[|c| - |TagOf(key, ad)|..] == TagOf(key, ad) && c[..|text|] == text;
    if OpenWith(key', c, ad').Some? {
      var t := OpenWith(key', c, ad').value;
      assert c == t + TagOf(key', ad');
      TagsTellApart(text, key, ad, t, key', ad');
    }
  }

  /** Primitives that hide nothing, but can be read back where they were sealed, and only there. */
  function Transparent(): Primitives {
    Primitives((key: bytes, iv: string, text: string, ad: string) => (text, TagOf(key, ad)),
               (key: bytes, iv: string, c: string, ad: string) => OpenWith(key, c, ad),
               (s: string) => Escaped(s), (s: string) => Some(Unescaped(s)),
               (x: real) => if x == 0.0 then Some("0") else None, (s: string) => (0.0, true),
               (t: int) => if -MAX_INT - 1 <= t <= MAX_INT then Some(Itoa(t)) else None, (s: string) => (Atoi(s), true))
  }

  lemma TransparentIsAuthentic()
    ensures Authentic(Transparent())
  {
    var p := Transparent();
    forall k, iv, text, ad, k', ad' | k' != k || ad' != ad
      ensures p.open(k', iv, p.seal(k, iv, text, ad).0 + p.seal(k, iv, text, ad).1, ad') == None
    {
      OpensOnlyWith(k, text, ad, k', ad');
      hide OpenWith; hide TagOf;
      assert p.seal(k, iv, text, ad) == (text, TagOf(k, ad));
    }
  }

  lemma TransparentOpens()
    ensures var p := Transparent();
            && (forall k, iv, text, ad ::
                  p.open(k, iv, p.seal(k, iv, text, ad).0 + p.seal(k, iv, text, ad).1, ad) == Some(text))
            && (forall k, iv, text, ad ::
                  p.seal(k, iv, text, ad).1 != [] && (text != [] ==> p.seal(k, iv, text, ad).0 != []))
            && (forall k, iv, text, ad :: |p.seal(k, iv, text, ad).0| >= |text|)
  {
    var p := Transparent();
    assert forall k, ad :: TagOf(k, ad) != [];
    hide TagOf; hide OpenWith;
    forall k, iv, text, ad
      ensures p.open(k, iv, p.seal(k, iv, text, ad).0 + p.seal(k, iv, text, ad).1, ad) == Some(text)
    {
      OpensOnlyWith(k, text, ad, k, ad);
    }
  }

  lemma TransparentReads()
    ensures var p := Transparent();
            && (forall s :: p.decode(p.encode(s)) == Some(s) && (s != [] ==> Clean(p.encode(s))))
            && (forall s :: |p.encode(s)| >= |s|)
            && (forall t :: p.showTime(t).Some? ==>
                  p.showTime(t).value != [] && p.readTime(p.showTime(t).value) == (t, true))
  {
    var p := Transparent();
    forall s
      ensures p.decode(p.encode(s)) == Some(s) && |p.encode(s)| >= |s| && (s != [] ==> Clean(p.encode(s)))
    {
      EscapedIsRead(s);
      hide Escaped; hide Unescaped; hide Clean;
    }
    hide Escaped; hide Unescaped; hide Clean;
    forall t | p.showTime(t).Some?
      ensures p.showTime(t).value != [] && p.readTime(p.showTime(t).value) == (t, true)
    {
      IntIsRead(t);
      hide Itoa; hide Atoi;
    }
  }

  /** What is asked of AES-GCM, base64 and the formats can be had all at once. */
  lemma PromisesCanBeKept()
    ensures Stash.Faithful(Transparent()) && KeepsLength(Transparent()) && Authentic(Transparent())
  {
    TransparentIsAuthentic();
    TransparentOpens();
    TransparentReads();
    hide Authentic; hide TagOf; hide OpenWith; hide Escaped; hide Unescaped; hide Itoa; hide Atoi; hide Clean;
  }
}
