/**
 The cipher for values (aes/cipher.go), and its stash of initialization vectors: encrypting again
 what was decrypted gives the same text. AES-GCM, base64, floats and time stamps are given. Keys are
 bytes; all other byte sequences are strings here.
 */
module Stash {
  import opened Results
  import opened Trees
  import opened Tokens
  import opened CipherFormat

  const NONCE_SIZE := 32

  datatype Primitives = Primitives(
    seal: (bytes, string, string, string) -> (string, string),
    open: (bytes, string, string, string) -> Option<string>,
    encode: string -> string,
    decode: string -> Option<string>,
    showFloat: real -> Option<string>,
    readFloat: string -> (real, bool),
    showTime: int -> Option<string>,
    readTime: string -> (int, bool))

  /** Open undoes Seal, base64 and the formats can be read back, and base64 prints none of the
      characters that the regular expression looks for. */
  ghost predicate Faithful(p: Primitives) {
    && (forall k, iv, text, ad ::
          p.open(k, iv, p.seal(k, iv, text, ad).0 + p.seal(k, iv, text, ad).1, ad) == Some(text))
    && (forall k, iv, text, ad :: p.seal(k, iv, text, ad).1 != [] && (text != [] ==> p.seal(k, iv, text, ad).0 != []))
    && (forall s :: p.decode(p.encode(s)) == Some(s) && (s != [] ==> Clean(p.encode(s))))
    && (forall x :: p.showFloat(x).Some? ==>
          p.showFloat(x).value != [] && p.readFloat(p.showFloat(x).value) == (x, true))
    && (forall t :: p.showTime(t).Some? ==> p.showTime(t).value != [] && p.readTime(p.showTime(t).value) == (t, true))
  }

  datatype Reply<+T> = Reply(value: T) | Failed | Panicked

  predicate IsEmpty(v: Value) {
    match v
    case Str(text) => text == []
    case Bytes(raw) => raw == []
    case Comment(text, _) => text == []
    case _ => false
  }

  predicate GoodKey(key: bytes) {
    |key| == 16 || |key| == 24 || |key| == 32
  }

  /** Slices cannot be keys of a map. */
  predicate Hashable(v: Value) {
    !v.Bytes? && !v.Branch? && !v.List?
  }

  function Itoa(n: int): string {
    if n < 0 then "-" + Decimal(-n) else Decimal(n)
  }

  /** Whether strconv.Atoi reports no error. */
  predicate IsInt(s: string) {
    var digits := if s != [] && s[0] in "+-" then s[1..] else s;
    digits != [] && (forall i :: 0 <= i < |digits| ==> IsDigit(digits[i])) &&
    (if s[0] == '-' then Number(digits) <= MAX_INT + 1 else Number(digits) <= MAX_INT)
  }

  function ParseBool(s: string): (bool, bool) {
    if s in ["1", "t", "T", "TRUE", "true", "True"] then (true, true)
    else (false, s in ["0", "f", "F", "FALSE", "false", "False"])
  }

  /** The type name and the text of a value, where it has one. An int has 64 bits. */
  function Show(p: Primitives, v: Value): Option<(string, string)> {
    match v
    case Str(text) => Some(("str", text))
    case Int(n) => if -MAX_INT - 1 <= n <= MAX_INT then Some(("int", Itoa(n))) else None
    case Float(x) => (match p.showFloat(x) case None => None case Some(s) => Some(("float", s)))
    case Bool(b) => Some(("bool", if b then "True" else "False"))
    case Time(t) => (match p.showTime(t) case None => None case Some(s) => Some(("time", s)))
    case Comment(text, _) => Some(("comment", text))
    case _ => None
  }

  /** The value and whether there was no error; nothing for a type that is not known. */
  function Read(p: Primitives, kind: string, s: string): Option<(Value, bool)> {
    if kind == "str" then Some((Str(s), true))
    else if kind == "int" then Some((Int(Atoi(s)), IsInt(s)))
    else if kind == "float" then Some((Float(p.readFloat(s).0), p.readFloat(s).1))
    else if kind == "bytes" then Some((Bytes(s), true))
    else if kind == "bool" then Some((Bool(ParseBool(s).0), ParseBool(s).1))
    else if kind == "time" then Some((Time(p.readTime(s).0), p.readTime(s).1))
    else if kind == "comment" then Some((Comment(s, false), true))
    else None
  }

  datatype StashKey = StashKey(additionalData: string, plaintext: Value)

  type IVs = map<StashKey, string>

  /** The text under a given initialization vector. */
  function Sealed(p: Primitives, v: Value, key: bytes, ad: string, iv: string): string
    requires Show(p, v).Some?
  {
    var (name, text) := Show(p, v).value;
    var (data, tag) := p.seal(key, iv, text, ad);
    Format(p.encode(data), p.encode(iv), p.encode(tag), name)
  }

  function Encrypted(p: Primitives, stash: IVs, v: Value, key: bytes, ad: string, random: string): Reply<string> {
    if IsEmpty(v) then Reply([])
    else if !GoodKey(key) then Failed
    else if !Hashable(v) then Panicked
    else
      var iv := if StashKey(ad, v) in stash then stash[StashKey(ad, v)] else random;
      if Show(p, v).None? then Failed
      else if |iv| != NONCE_SIZE then Panicked
      else Reply(Sealed(p, v, key, ad, iv))
  }

  datatype Parsed = Parsed(data: string, iv: string, tag: string, kind: string)

  function Parse(p: Primitives, value: string): Option<Parsed> {
    match Match(value)
    case None => None
    case Some(g) =>
      if |g| != 4 then None
      else
        match (p.decode(g[0]), p.decode(g[1]), p.decode(g[2]))
        case (Some(data), Some(iv), Some(tag)) => Some(Parsed(data, iv, tag, g[3]))
        case _ => None
  }

  /** What Decrypt returns, with the entry it leaves in the stash. */
  function Opened(p: Primitives, ciphertext: string, key: bytes, ad: string): (Reply<Value>, IVs) {
    if ciphertext == [] then (Reply(Str([])), map[])
    else
      match Parse(p, ciphertext)
      case None => (Failed, map[])
      case Some(e) =>
        if !GoodKey(key) || e.iv == [] then (Failed, map[])
        else
          match p.open(key, e.iv, e.data + e.tag, ad)
          case None => (Failed, map[])
          case Some(text) =>
            match Read(p, e.kind, text)
            case None => (Failed, map[])
            case Some((v, ok)) =>
              if !Hashable(v) then (Panicked, map[])
              else (if ok then Reply(v) else Failed, map[StashKey(ad, v) := e.iv])
  }

  class Cipher {
    const primitives: Primitives
    var stash: IVs

    constructor (primitives: Primitives)
      ensures this.primitives == primitives && stash == map[]
    {
      this.primitives, stash := primitives, map[];
    }

    /** `random` is what rand.Read would give. */
    method Encrypt(plaintext: Value, key: bytes, additionalData: string, random: string) returns (r: Reply<string>)
      ensures r == Encrypted(primitives, stash, plaintext, key, additionalData, random)
    {
      if IsEmpty(plaintext) {
        return Reply([]);
      }
      if !GoodKey(key) {
        return Failed;
      }
      if !Hashable(plaintext) {
        return Panicked;
      }
      var iv: string;
      var k := StashKey(additionalData, plaintext);
      if k !in stash {
        iv := random;
      } else {
        iv := stash[k];
      }
      var shown := Show(primitives, plaintext);
      if shown.None? {
        return Failed;
      }
      if |iv| != NONCE_SIZE {
        return Panicked;
      }
      return Reply(Sealed(primitives, plaintext, key, additionalData, iv));
    }

    method Decrypt(ciphertext: string, key: bytes, additionalData: string) returns (r: Reply<Value>)
      modifies this
      ensures r == Opened(primitives, ciphertext, key, additionalData).0
      ensures stash == old(stash) + Opened(primitives, ciphertext, key, additionalData).1
    {
      if ciphertext == [] {
        return Reply(Str([]));
      }
      var e := Parse(primitives, ciphertext);
      if e.None? {
        return Failed;
      }
      if !GoodKey(key) || e.value.iv == [] {
        return Failed;
      }
      var text := primitives.open(key, e.value.iv, e.value.data + e.value.tag, additionalData);
      if text.None? {
        return Failed;
      }
      var v := Read(primitives, e.value.kind, text.value);
      if v.None? {
        return Failed;
      }
      if !Hashable(v.value.0) {
        return Panicked;
      }
      stash := stash[StashKey(additionalData, v.value.0) := e.value.iv];
      return if v.value.1 then Reply(v.value.0) else Failed;
    }
  }

  // ---------- What is encrypted, and to which text ----------

  /** The empty texts are encrypted with any key. Everything else needs an AES key, an initialization
      vector of 32 bytes, and a type that has a text; then it gives that text sealed, with the name of
      its type. */
  lemma EncryptsExactly(p: Primitives, stash: IVs, v: Value, key: bytes, ad: string, random: string)
    ensures var iv := if StashKey(ad, v) in stash then stash[StashKey(ad, v)] else random;
            var r := Encrypted(p, stash, v, key, ad, random);
            if v == Str("") || v == Bytes("") || (v.Comment? && v.text == "") then r == Reply("")
            else
              && (r.Reply? <==>
                  && (|key| == 16 || |key| == 24 || |key| == 32) && |iv| == 32
                  && (v.Str? || v.Comment? || v.Bool?
                      || (v.Int? && -0x8000_0000_0000_0000 <= v.n < 0x8000_0000_0000_0000)
                      || (v.Float? && p.showFloat(v.x).Some?) || (v.Time? && p.showTime(v.stamp).Some?)))
              && (r.Reply? ==>
                  var (kind, text) := match v
                                      case Str(s) => ("str", s)
                                      case Comment(s, _) => ("comment", s)
                                      case Bool(b) => ("bool", if b then "True" else "False")
                                      case Int(n) => ("int", Itoa(n))
                                      case Float(x) => ("float", p.showFloat(x).value)
                                      case _ => ("time", p.showTime(v.stamp).value);
                  var (data, tag) := p.seal(key, iv, text, ad);
                  r.value == "ENC[AES256_GCM,data:" + p.encode(data) + ",iv:" + p.encode(iv) + ",tag:" + p.encode(tag)
                             + ",type:" + kind + "]")
  {
    hide Format; hide Itoa;
    var iv := if StashKey(ad, v) in stash then stash[StashKey(ad, v)] else random;
    if !IsEmpty(v) && Show(p, v).Some? {
      var (kind, text) := Show(p, v).value;
      var (data, tag) := p.seal(key, iv, text, ad);
      FormatPrints(p.encode(data), p.encode(iv), p.encode(tag), kind);
    }
  }

  /** Ints are printed in decimal. */
  lemma IntsArePrinted()
    ensures Itoa(0) == "0" && Itoa(-1203) == "-1203"
  {
    assert 1203 / 10 == 120 && 1203 % 10 == 3;
    assert Decimal(1) == "1" && Decimal(12) == Decimal(1) + "2" && Decimal(120) == Decimal(12) + "0";
    assert Decimal(1203) == Decimal(120) + "3";
  }

  // ---------- Decrypt undoes Encrypt ----------

  /** The inline flag is not encrypted. */
  function Plain(v: Value): Value {
    if v.Comment? then Comment(v.text, false) else v
  }

  lemma IntIsRead(n: int)
    requires -MAX_INT - 1 <= n <= MAX_INT
    ensures Itoa(n) != [] && Atoi(Itoa(n)) == n && IsInt(Itoa(n))
  {
    var d := Decimal(if n < 0 then -n else n);
    NumberOfDecimal(if n < 0 then -n else n);
    assert IsDigit(d[0]);
    if n < 0 {
      var s := "-" + d;
      assert s[1..] == d && s[0] == '-';
    }
    hide Decimal; hide Number;
  }

  /** The names of the types are told apart. */
  lemma ReadByName(p: Primitives, s: string)
    ensures Read(p, "str", s) == Some((Str(s), true)) && Read(p, "comment", s) == Some((Comment(s, false), true))
    ensures Read(p, "int", s) == Some((Int(Atoi(s)), IsInt(s)))
    ensures Read(p, "float", s) == Some((Float(p.readFloat(s).0), p.readFloat(s).1))
    ensures Read(p, "bool", s) == Some((Bool(ParseBool(s).0), ParseBool(s).1))
    ensures Read(p, "time", s) == Some((Time(p.readTime(s).0), p.readTime(s).1))
  {
    hide Atoi; hide IsInt; hide ParseBool;
  }

  lemma BoolIsRead()
    ensures ParseBool("True") == (true, true) && ParseBool("False") == (false, true)
  {}

  lemma NamesAreClean()
    ensures Clean("str") && Clean("int") && Clean("float") && Clean("bool") && Clean("time") && Clean("comment")
  {}

  lemma ShownIsRead(p: Primitives, v: Value)
    requires Faithful(p) && !IsEmpty(v) && Show(p, v).Some?
    ensures var (name, text) := Show(p, v).value;
      Clean(name) && text != [] && Read(p, name, text) == Some((Plain(v), true)) && Hashable(Plain(v))
  {
    hide Itoa; hide Atoi; hide IsInt; hide ParseBool; hide Read; hide Clean;
    ReadByName(p, Show(p, v).value.1);
    NamesAreClean();
    if v.Int? {
      IntIsRead(v.n);
    }
    if v.Bool? {
      BoolIsRead();
    }
  }

  lemma SealedIsParsed(p: Primitives, v: Value, key: bytes, ad: string, iv: string)
    requires Faithful(p) && !IsEmpty(v) && Show(p, v).Some? && iv != []
    ensures var (name, text) := Show(p, v).value;
      var (data, tag) := p.seal(key, iv, text, ad);
      Parse(p, Sealed(p, v, key, ad, iv)) == Some(Parsed(data, iv, tag, name))
  {
    ShownIsRead(p, v);
    var (name, text) := Show(p, v).value;
    var (data, tag) := p.seal(key, iv, text, ad);
    FormatIsMatched(p.encode(data), p.encode(iv), p.encode(tag), name);
    hide Match; hide Format; hide Show; hide Clean;
  }

  /** Decrypt returns what was encrypted, and remembers its initialization vector. */
  lemma DecryptUndoesEncrypt(p: Primitives, v: Value, key: bytes, ad: string, iv: string)
    requires Faithful(p) && !IsEmpty(v) && Show(p, v).Some? && iv != [] && GoodKey(key)
    ensures Sealed(p, v, key, ad, iv) != []
    ensures Opened(p, Sealed(p, v, key, ad, iv), key, ad) == (Reply(Plain(v)), map[StashKey(ad, Plain(v)) := iv])
  {
    SealedIsParsed(p, v, key, ad, iv);
    ShownIsRead(p, v);
    hide Match; hide Show; hide Read; hide Parse; hide Clean;
  }

  // ---------- Runs ----------

  datatype Call =
    | EncryptCall(plaintext: Value, key: bytes, ad: string)
    | DecryptCall(ciphertext: string, key: bytes, ad: string)

  /** The stash of a new cipher after the calls. */
  function StashAfter(p: Primitives, calls: seq<Call>): IVs {
    if calls == [] then map[]
    else
      var before, last := StashAfter(p, calls[..|calls| - 1]), calls[|calls| - 1];
      match last
      case EncryptCall(_, _, _) => before
      case DecryptCall(ciphertext, key, ad) => before + Opened(p, ciphertext, key, ad).1
  }

  /** The call that last decrypted this value at this path. */
  function LastDecrypted(p: Primitives, calls: seq<Call>, v: Value, ad: string): (r: Option<Call>)
    ensures r.Some? ==> r.value.DecryptCall? && r.value.ad == ad
  {
    if calls == [] then None
    else
      var last := calls[|calls| - 1];
      if last.DecryptCall? && last.ciphertext != [] && last.ad == ad && Opened(p, last.ciphertext, last.key, ad).0 ==
            Reply(v)
      then Some(last)
      else LastDecrypted(p, calls[..|calls| - 1], v, ad)
  }

  /** A decryption fails and leaves nothing behind, or its text was made by Encrypt with this key at
      this path. */
  ghost predicate Honest(p: Primitives, call: Call) {
    call.EncryptCall? || Opened(p, call.ciphertext, call.key, call.ad).1 == map[] ||
    exists v, iv :: MadeBy(p, call, v, iv)
  }

  ghost predicate MadeBy(p: Primitives, call: Call, v: Value, iv: string)
    requires call.DecryptCall?
  {
    && !IsEmpty(v) && Show(p, v).Some? && |iv| == NONCE_SIZE && GoodKey(call.key)
    && call.ciphertext == Sealed(p, v, call.key, call.ad, iv)
  }

  lemma PlainIsSealedAlike(p: Primitives, v: Value, key: bytes, ad: string, iv: string)
    requires Show(p, v).Some?
    ensures Show(p, Plain(v)) == Show(p, v) && Sealed(p, Plain(v), key, ad, iv) == Sealed(p, v, key, ad, iv)
  {}

  lemma ReplyLeavesEntry(p: Primitives, ciphertext: string, key: bytes, ad: string)
    ensures var r := Opened(p, ciphertext, key, ad);
      ciphertext != [] && r.0.Reply? ==> StashKey(ad, r.0.value) in r.1
  {
    hide Parse; hide Read;
  }

  /** The call decrypts the value `v` and leaves this entry. */
  ghost predicate Leaves(p: Primitives, call: Call, v: Value, iv: string)
    requires call.DecryptCall?
  {
    && Opened(p, call.ciphertext, call.key, call.ad) == (Reply(v), map[StashKey(call.ad, v) := iv])
    && Seals(p, call, v, iv)
  }

  ghost predicate Seals(p: Primitives, call: Call, v: Value, iv: string)
    requires call.DecryptCall?
  {
    && |iv| == NONCE_SIZE && GoodKey(call.key) && !IsEmpty(v) && Hashable(v) && Show(p, v).Some?
    && call.ciphertext != [] && call.ciphertext == Sealed(p, v, call.key, call.ad, iv)
  }

  lemma HonestCallLeaves(p: Primitives, call: Call)
    requires Faithful(p) && Honest(p, call) && call.DecryptCall?
    requires Opened(p, call.ciphertext, call.key, call.ad).1 != map[]
    ensures exists v, iv :: Leaves(p, call, v, iv)
  {
    var made, iv :| MadeBy(p, call, made, iv);
    DecryptUndoesEncrypt(p, made, call.key, call.ad, iv);
    PlainIsSealedAlike(p, made, call.key, call.ad, iv);
    ShownIsRead(p, made);
    hide Opened; hide Sealed; hide Show; hide Faithful; hide Read;
    assert Leaves(p, call, Plain(made), iv);
  }

  /** The stash holds exactly the initialization vectors of the texts last decrypted. */
  lemma {:induction false} StashIsLastDecrypted(p: Primitives, calls: seq<Call>, v: Value, ad: string)
    requires Faithful(p) && forall call :: call in calls ==> Honest(p, call)
    ensures StashKey(ad, v) in StashAfter(p, calls) <==> LastDecrypted(p, calls, v, ad).Some?
    ensures var last := LastDecrypted(p, calls, v, ad);
      last.Some? ==> Seals(p, last.value, v, StashAfter(p, calls)[StashKey(ad, v)])
    decreases |calls|
  {
    hide Opened; hide Faithful; hide Honest; hide Seals;
    if calls != [] {
      var init, last := calls[..|calls| - 1], calls[|calls| - 1];
      assert last in calls;
      StashIsLastDecrypted(p, init, v, ad);
      if last.DecryptCall? {
        ReplyLeavesEntry(p, last.ciphertext, last.key, last.ad);
        if Opened(p, last.ciphertext, last.key, last.ad).1 != map[] {
          HonestCallLeaves(p, last);
          var w, iv :| Leaves(p, last, w, iv);
          assert last.ciphertext != [] by {
            SealsSomething(p, last, w, iv);
          }
        }
      }
    }
  }

  lemma SealsSomething(p: Primitives, call: Call, v: Value, iv: string)
    requires call.DecryptCall? && Seals(p, call, v, iv)
    ensures call.ciphertext != []
  {}

  /** Encrypting at a path what was last decrypted there gives that text again, under its key; an
      initialization vector is reused for no other value and at no other path. */
  lemma ReencryptsTheSame(p: Primitives, calls: seq<Call>, v: Value, key: bytes, ad: string, random: string)
    requires Faithful(p) && forall call :: call in calls ==> Honest(p, call)
    requires GoodKey(key) && |random| == NONCE_SIZE
    ensures var last, r := LastDecrypted(p, calls, v, ad), Encrypted(p, StashAfter(p, calls), v, key, ad, random);
      && (last.Some? && key == last.value.key ==> r == Reply(last.value.ciphertext))
      && (last.None? && !IsEmpty(v) && Hashable(v) && Show(p, v).Some? ==> r == Reply(Sealed(p, v, key, ad, random)))
  {
    StashIsLastDecrypted(p, calls, v, ad);
    hide StashAfter; hide LastDecrypted; hide Sealed; hide Faithful; hide Honest;
  }
}
