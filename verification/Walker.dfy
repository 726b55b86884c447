/**
 The walk of sops.go over a document tree: what encryption and decryption make of every leaf,
 the bytes they feed to the MAC, and the round trip of the two.
 */
module Walker {
  import opened Results
  import opened Trees
  import opened Decisions

  /** The cipher interface. The last argument of encrypt stands for the randomness it draws. */
  datatype Cipher = Cipher(encrypt: (Value, bytes, string, nat) -> Result<string>,
                           decrypt: (string, bytes, string) -> Result<Value>)

  datatype Mode = Encrypting | Decrypting

  /** `format` prints numbers and time stamps, as strconv and MarshalText do. */
  datatype Env = Env(mode: Mode, rules: Rules, matches: Matcher, cipher: Cipher, key: bytes, format: Value -> string)

  /** The bytes written to the hash so far, and the number of calls of the cipher. */
  datatype Written = Written(hash: string, calls: nat)

  function ToBytes(v: Value, format: Value -> string): Result<string> {
    match v
    case Str(text) => Ok(text)
    case Bytes(raw) => Ok(raw)
    case Bool(flag) => Ok(if flag then "True" else "False")
    case Int(_) => Ok(format(v))
    case Float(_) => Ok(format(v))
    case Time(_) => Ok(format(v))
    case Comment(text, _) => Ok(text)
    case _ => Err("Could not convert unknown type to bytes")
  }

  /** strings.Join(path, ":") + ":". */
  function PathString(path: seq<string>): string {
    if path == [] then ":"
    else if |path| == 1 then path[0] + ":"
    else path[0] + ":" + PathString(path[1..])
  }

  function SelfOf(v: Value): Option<string> {
    if v.Comment? then Some(v.text) else None
  }

  predicate IsEncrypted(env: Env, v: Value, path: seq<string>, scope: seq<string>) {
    Decide(env.rules, env.matches, path, scope, SelfOf(v))
  }

  // ---------- What happens to a leaf ----------

  /** Comments are not part of the MAC. */
  function Hashed(env: Env, v: Value, encrypted: bool, st: Written): Result<Written> {
    if (!env.rules.macOnlyEncrypted || encrypted) && !v.Comment? then
      var b :- ToBytes(v, env.format);
      Ok(st.(hash := st.hash + b))
    else Ok(st)
  }

  const PANIC := "interface conversion"

  function EncryptLeaf(env: Env, v: Value, path: seq<string>, scope: seq<string>, st: Written)
      : Result<(Value, Written)>
  {
    var encrypted := IsEncrypted(env, v, path, scope);
    var st :- Hashed(env, v, encrypted, st);
    if encrypted then
      var c :- env.cipher.encrypt(v, env.key, PathString(path), st.calls);
      if v.Comment? && env.rules.unencryptedCommentRegex != "" && env.matches(env.rules.unencryptedCommentRegex, c) then
        Err("Encrypted comment matches UnencryptedCommentRegex!")
      else Ok((Str(c), st.(calls := st.calls + 1)))
    else Ok((v, st))
  }

  /** A comment that cannot be decrypted is taken as it is; a value that is encrypted but no
      string makes the source panic. */
  function DecryptLeaf(env: Env, v: Value, path: seq<string>, scope: seq<string>, st: Written)
      : Result<(Value, Written)>
  {
    var encrypted := IsEncrypted(env, v, path, scope);
    var plain :-
      if !encrypted then Ok(v)
      else if v.Comment? then
        var r := env.cipher.decrypt(v.text, env.key, PathString(path));
        Ok(if r.Ok? then r.value else v)
      else if v.Str? then env.cipher.decrypt(v.text, env.key, PathString(path))
      else Err(PANIC);
    var st :- Hashed(env, plain, encrypted, st);
    Ok((plain, st))
  }

  function OnLeaf(env: Env, v: Value, path: seq<string>, scope: seq<string>, st: Written): Result<(Value, Written)> {
    if env.mode == Encrypting then EncryptLeaf(env, v, path, scope, st) else DecryptLeaf(env, v, path, scope, st)
  }

  // ---------- The walk ----------

  /** The comments directly in front of the next item: a comment joins them, anything else clears
      them. */
  function NextRun(run: seq<string>, item: Item): seq<string> {
    if item.key.Remark? then run + [item.key.text]
    else if item.value.Comment? then run + [item.value.text]
    else []
  }

  function NextListRun(run: seq<string>, v: Value): seq<string> {
    if v.Comment? then run + [v.text] else []
  }

  function WalkValue(env: Env, v: Value, path: seq<string>, scope: seq<string>, st: Written): Result<(Value, Written)>
    decreases v, 1
  {
    match v
    case Bytes(raw) => OnLeaf(env, Str(raw), path, scope, st)
    case Nil => Ok((Nil, st))
    case Branch(items) =>
      var (items, st) :- WalkItems(env, items, path, scope, [], st);
      Ok((Branch(items), st))
    case List(elems) =>
      var (elems, st) :- WalkElems(env, elems, path, scope, [], st);
      Ok((List(elems), st))
    case Unknown(_) => Err("Cannot walk value, unknown type")
    case _ => OnLeaf(env, v, path, scope, st)
  }

  function WalkItem(env: Env, item: Item, path: seq<string>, scope: seq<string>, st: Written): Result<(Item, Written)>
    decreases item, 2
  {
    match item.key
    case Remark(text, inline) =>
      var (v, st) :- OnLeaf(env, Comment(text, inline), path, scope, st);
      (match v
       case Comment(text, inline) => Ok((Item(Remark(text, inline), item.value), st))
       case Str(text) => Ok((Item(Remark(text, inline), item.value), st))
       case _ => Err("walkValue of Comment should be either Comment or string"))
    case Name(name) =>
      var (v, st) :- WalkValue(env, item.value, path + [name], scope, st);
      Ok((Item(item.key, v), st))
    case Index(_) => Err("Tree contains a non-string key")
  }

  function WalkItems(env: Env, items: TreeBranch, path: seq<string>, outer: seq<string>, run: seq<string>, st: Written)
      : (r: Result<(TreeBranch, Written)>)
    ensures r.Ok? ==> |r.value.0| == |items|
    decreases items, 0
  {
    if items == [] then Ok(([], st))
    else
      var (item, st) :- WalkItem(env, items[0], path, outer + run, st);
      var (rest, st) :- WalkItems(env, items[1..], path, outer, NextRun(run, items[0]), st);
      Ok(([item] + rest, st))
  }

  function WalkElems(env: Env, elems: seq<Value>, path: seq<string>, outer: seq<string>, run: seq<string>, st: Written)
      : (r: Result<(seq<Value>, Written)>)
    ensures r.Ok? ==> |r.value.0| == |elems|
    decreases elems, 0
  {
    if elems == [] then Ok(([], st))
    else
      var (v, st) :- WalkValue(env, elems[0], path, outer + run, st);
      var (rest, st) :- WalkElems(env, elems[1..], path, outer, NextListRun(run, elems[0]), st);
      Ok(([v] + rest, st))
  }

  // ---------- The walk as the source performs it ----------

  /** One walk over one tree: the branches and lists are overwritten entry by entry, the comment
      stack is pushed and cleared, and leaves are written to the hash. */
  class Walk {
    const env: Env
    var written: Written

    constructor (env: Env, start: string)
      ensures this.env == env && written == Written(start, 0)
    {
      this.env := env;
      written := Written(start, 0);
    }

    method Hash(v: Value, encrypted: bool) returns (r: Result<()>)
      modifies this
      ensures match Hashed(env, v, encrypted, old(written))
              case Ok(st) => r == Ok(()) && written == st
              case Err(e) => r == Err(e)
    {
      if !env.rules.macOnlyEncrypted || encrypted {
        if !v.Comment? {
          var b := ToBytes(v, env.format);
          if b.Err? {
            return Err(b.error);
          }
          written := written.(hash := written.hash + b.value);
        }
      }
      return Ok(());
    }

    /** The closure of Encrypt. */
    method OnEncrypt(v: Value, path: seq<string>, encrypted: bool, ghost scope: seq<string>) returns (r: Result<Value>)
      requires encrypted == IsEncrypted(env, v, path, scope)
      modifies this
      ensures match EncryptLeaf(env, v, path, scope, old(written))
              case Ok((w, st)) => r == Ok(w) && written == st
              case Err(e) => r == Err(e)
    {
      hide Decide; hide PathString;
      var hashed := Hash(v, encrypted);
      if hashed.Err? {
        return Err(hashed.error);
      }
      if !encrypted {
        return Ok(v);
      }
      var c := env.cipher.encrypt(v, env.key, PathString(path), written.calls);
      if c.Err? {
        return Err(c.error);
      }
      if v.Comment? && env.rules.unencryptedCommentRegex != "" {
        if env.matches(env.rules.unencryptedCommentRegex, c.value) {
          return Err("Encrypted comment matches UnencryptedCommentRegex!");
        }
      }
      written := written.(calls := written.calls + 1);
      return Ok(Str(c.value));
    }

    /** The closure of Decrypt. */
    method OnDecrypt(v: Value, path: seq<string>, encrypted: bool, ghost scope: seq<string>) returns (r: Result<Value>)
      requires encrypted == IsEncrypted(env, v, path, scope)
      modifies this
      ensures match DecryptLeaf(env, v, path, scope, old(written))
              case Ok((w, st)) => r == Ok(w) && written == st
              case Err(e) => r == Err(e)
    {
      hide Decide; hide PathString;
      var plain := v;
      if encrypted {
        if v.Comment? {
          var p := env.cipher.decrypt(v.text, env.key, PathString(path));
          plain := if p.Ok? then p.value else v;
        } else if v.Str? {
          var p := env.cipher.decrypt(v.text, env.key, PathString(path));
          if p.Err? {
            return Err(p.error);
          }
          plain := p.value;
        } else {
          return Err(PANIC);
        }
      }
      var hashed := Hash(plain, encrypted);
      if hashed.Err? {
        return Err(hashed.error);
      }
      return Ok(plain);
    }

    method Leaf(v: Value, path: seq<string>, commentsStack: seq<seq<string>>) returns (r: Result<Value>)
      requires commentsStack != []
      requires v.Comment? ==>
                 commentsStack[|commentsStack| - 1] != [] && Decisions.Self(commentsStack, true) == Some(v.text)
      modifies this
      ensures match OnLeaf(env, v, path, Scope(commentsStack, v.Comment?), old(written))
              case Ok((w, st)) => r == Ok(w) && written == st
              case Err(e) => r == Err(e)
    {
      var encrypted := ShouldBeEncrypted(env.rules, env.matches, path, commentsStack, v.Comment?);
      hide Decide; hide EncryptLeaf; hide DecryptLeaf;
      ghost var scope := Scope(commentsStack, v.Comment?);
      if env.mode == Encrypting {
        r := OnEncrypt(v, path, encrypted, scope);
      } else {
        r := OnDecrypt(v, path, encrypted, scope);
      }
    }

    method Value(v: Value, path: seq<string>, commentsStack: seq<seq<string>>) returns (r: Result<Value>)
      requires commentsStack != []
      requires v.Comment? ==>
                 commentsStack[|commentsStack| - 1] != [] && Decisions.Self(commentsStack, true) == Some(v.text)
      modifies this
      ensures match WalkValue(env, v, path, Scope(commentsStack, v.Comment?), old(written))
              case Ok((w, st)) => r == Ok(w) && written == st
              case Err(e) => r == Err(e)
      decreases v, 1
    {
      hide OnLeaf;
      StackIsScope(commentsStack);
      hide Scope;
      match v {
        case Bytes(raw) => r := Leaf(Str(raw), path, commentsStack);
        case Nil => r := Ok(Nil);
        case Branch(items) =>
          var w := WalkBranch(items, path, commentsStack);
          r := if w.Ok? then Ok(Branch(w.value)) else Err(w.error);
        case List(elems) =>
          var w := WalkSlice(elems, path, commentsStack);
          r := if w.Ok? then Ok(List(w.value)) else Err(w.error);
        case Unknown(_) => r := Err("Cannot walk value, unknown type");
        case _ => r := Leaf(v, path, commentsStack);
      }
    }

    method WalkSlice(elems: seq<Value>, path: seq<string>, outerStack: seq<seq<string>>) returns (r: Result<seq<Value>>)
      modifies this
      ensures match WalkElems(env, elems, path, Flat(outerStack), [], old(written))
              case Ok((w, st)) => r == Ok(w) && written == st
              case Err(e) => r == Err(e)
      decreases elems, 0
    {
      hide WalkValue; hide WalkElems; hide Scope; hide Flat; hide After; hide Decisions.Self; hide NextListRun;
      var in_ := elems;
      var run: seq<string> := [];
      ghost var outer := Flat(outerStack);
      ghost var whole := WalkElems(env, elems, path, outer, [], written);
      AfterNothing(whole);
      assert elems[0..] == elems;
      for i := 0 to |elems|
        invariant |in_| == |elems|
        invariant whole == After(in_[..i], WalkElems(env, elems[i..], path, outer, run, written))
      {
        var v := elems[i];
        ghost var done := in_[..i];
        OneMoreElem(env, elems, i, path, outer, run, written, done);
        ghost var next := NextListRun(run, v);
        ListRunGoesOn(outerStack, run, v);
        if v.Comment? {
          run := run + [v.text];
        }
        var newV := Value(v, path, outerStack + [run]);
        if newV.Err? {
          return Err(newV.error);
        }
        in_ := in_[i := newV.value];
        if !v.Comment? {
          run := [];
        }
        assert run == next && in_[..i + 1] == done + [newV.value];
      }
      assert elems[|elems|..] == [] && in_[..|elems|] == in_;
      NoMoreElems(env, in_, path, outer, run, written);
      return Ok(in_);
    }

    /** A comment item is decided on its own, and its value is not walked. */
    method CommentEntry(item: Item, path: seq<string>, commentsStack: seq<seq<string>>) returns (r: Result<Item>)
      requires item.key.Remark? && commentsStack != [] && commentsStack[|commentsStack| - 1] != []
      requires Decisions.Self(commentsStack, true) == Some(item.key.text)
      modifies this
      ensures match WalkItem(env, item, path, Scope(commentsStack, true), old(written))
              case Ok((w, st)) => r == Ok(w) && written == st
              case Err(e) => r == Err(e)
      decreases item, 1
    {
      hide OnLeaf; hide Scope;
      var enc := Leaf(Comment(item.key.text, item.key.inline), path, commentsStack);
      hide Decisions.Self; hide WalkValue;
      if enc.Err? {
        return Err(enc.error);
      }
      if enc.value.Comment? {
        return Ok(item.(key := Remark(enc.value.text, enc.value.inline)));
      }
      if enc.value.Str? {
        return Ok(item.(key := Remark(enc.value.text, item.key.inline)));
      }
      return Err("walkValue of Comment should be either Comment or string");
    }

    method Entry(item: Item, path: seq<string>, commentsStack: seq<seq<string>>) returns (r: Result<Item>)
      requires commentsStack != []
      requires item.key.Remark? ==> commentsStack[|commentsStack| - 1] != []
                                    && Decisions.Self(commentsStack, true) == Some(item.key.text)
      requires !item.key.Remark? && item.value.Comment? ==>
                 commentsStack[|commentsStack| - 1] != []
                 && Decisions.Self(commentsStack, true) == Some(item.value.text)
      modifies this
      ensures match WalkItem(env, item, path, Scope(commentsStack, item.key.Remark? || item.value.Comment?),
            old(written))
              case Ok((w, st)) => r == Ok(w) && written == st
              case Err(e) => r == Err(e)
      decreases item, 2
    {
      hide OnLeaf; hide WalkValue; hide Scope; hide Decisions.Self;
      match item.key {
        case Remark(_, _) =>
          hide WalkItem;
          r := CommentEntry(item, path, commentsStack);
        case Name(name) =>
          var newV := Value(item.value, path + [name], commentsStack);
          if newV.Err? {
            return Err(newV.error);
          }
          return Ok(item.(value := newV.value));
        case Index(_) =>
          return Err("Tree contains a non-string key");
      }
    }

    method WalkBranch(items: TreeBranch, path: seq<string>,
          outerStack: seq<seq<string>>) returns (r: Result<TreeBranch>)
      modifies this
      ensures match WalkItems(env, items, path, Flat(outerStack), [], old(written))
              case Ok((w, st)) => r == Ok(w) && written == st
              case Err(e) => r == Err(e)
      decreases items, 0
    {
      hide WalkItem; hide WalkItems; hide Scope; hide Flat; hide After; hide Decisions.Self; hide NextRun;
      var in_ := items;
      var run: seq<string> := [];
      ghost var outer := Flat(outerStack);
      ghost var whole := WalkItems(env, items, path, outer, [], written);
      AfterNothing(whole);
      assert items[0..] == items;
      for i := 0 to |items|
        invariant |in_| == |items|
        invariant whole == After(in_[..i], WalkItems(env, items[i..], path, outer, run, written))
      {
        var item := items[i];
        ghost var done := in_[..i];
        OneMoreItem(env, items, i, path, outer, run, written, done);
        ghost var next := NextRun(run, item);
        RunGoesOn(outerStack, run, item);
        if item.key.Remark? {
          run := run + [item.key.text];
        } else if item.value.Comment? {
          run := run + [item.value.text];
        }
        var entry := Entry(item, path, outerStack + [run]);
        if entry.Err? {
          return Err(entry.error);
        }
        in_ := in_[i := entry.value];
        if !item.key.Remark? && !item.value.Comment? {
          run := [];
        }
        assert run == next && in_[..i + 1] == done + [entry.value];
      }
      assert items[|items|..] == [] && in_[..|items|] == in_;
      NoMoreItems(env, in_, path, outer, run, written);
      return Ok(in_);
    }
  }

  /** What is left of a walk, behind the entries that are done. */
  function After<T>(done: seq<T>, r: Result<(seq<T>, Written)>): Result<(seq<T>, Written)> {
    match r
    case Ok((rest, st)) => Ok((done + rest, st))
    case Err(e) => Err(e)
  }

  lemma AfterNothing<T>(r: Result<(seq<T>, Written)>)
    ensures After([], r) == r
  {
    if r.Ok? {
      assert [] + r.value.0 == r.value.0;
    }
  }

  lemma AfterOne<T>(done: seq<T>, x: T, r: Result<(seq<T>, Written)>)
    ensures After(done, After([x], r)) == After(done + [x], r)
  {
    if r.Ok? {
      assert done + ([x] + r.value.0) == done + [x] + r.value.0;
    }
  }

  lemma ElemsStep(env: Env, elems: seq<Value>, path: seq<string>, outer: seq<string>, run: seq<string>, st: Written)
    requires elems != []
    ensures WalkElems(env, elems, path, outer, run, st) ==
            match WalkValue(env, elems[0], path, outer + run, st)
            case Ok((v, st')) => After([v], WalkElems(env, elems[1..], path, outer, NextListRun(run, elems[0]), st'))
            case Err(e) => Err(e)
  {}

  lemma ItemsStep(env: Env, items: TreeBranch, path: seq<string>, outer: seq<string>, run: seq<string>, st: Written)
    requires items != []
    ensures WalkItems(env, items, path, outer, run, st) ==
            match WalkItem(env, items[0], path, outer + run, st)
            case Ok((item, st')) => After([item], WalkItems(env, items[1..], path, outer, NextRun(run, items[0]), st'))
            case Err(e) => Err(e)
  {}

  /** The stack of a list or a branch with the run in front of its next entry, which a comment joins
      before it is walked. */
  lemma ListRunGoesOn(outerStack: seq<seq<string>>, run: seq<string>, v: Value)
    ensures var joined := if v.Comment? then run + [v.text] else run;
            && Scope(outerStack + [joined], v.Comment?) == Flat(outerStack) + run
            && (v.Comment? ==> Decisions.Self(outerStack + [joined], true) == Some(v.text))
            && NextListRun(run, v) == if v.Comment? then joined else []
  {
    if v.Comment? {
      assert (run + [v.text])[..|run|] == run;
      StackScope(outerStack, run + [v.text], true);
    } else {
      StackScope(outerStack, run, false);
    }
    hide Scope; hide Flat;
  }

  lemma RunGoesOn(outerStack: seq<seq<string>>, run: seq<string>, item: Item)
    ensures var text := if item.key.Remark? then item.key.text else if item.value.Comment? then item.value.text else "";
            var joins := item.key.Remark? || item.value.Comment?;
            var joined := if joins then run + [text] else run;
            && Scope(outerStack + [joined], joins) == Flat(outerStack) + run
            && (joins ==> Decisions.Self(outerStack + [joined], true) == Some(text))
            && NextRun(run, item) == if joins then joined else []
  {
    var c := if item.key.Remark? then Comment(item.key.text, false) else item.value;
    ListRunGoesOn(outerStack, run, c);
    hide Scope; hide Flat;
  }

  lemma NoMoreElems(env: Env, done: seq<Value>, path: seq<string>, outer: seq<string>, run: seq<string>, st: Written)
    ensures After(done, WalkElems(env, [], path, outer, run, st)) == Ok((done, st))
  {
    assert done + [] == done;
  }

  lemma NoMoreItems(env: Env, done: TreeBranch, path: seq<string>, outer: seq<string>, run: seq<string>, st: Written)
    ensures After(done, WalkItems(env, [], path, outer, run, st)) == Ok((done, st))
  {
    assert done + [] == done;
  }

  /** One round of the loop over a list. */
  lemma OneMoreElem(env: Env, elems: seq<Value>, i: nat, path: seq<string>, outer: seq<string>, run: seq<string>,
                    st: Written, done: seq<Value>)
    requires i < |elems|
    ensures After(done, WalkElems(env, elems[i..], path, outer, run, st)) ==
            match WalkValue(env, elems[i], path, outer + run, st)
            case Ok((v, st')) =>
              After(done + [v], WalkElems(env, elems[i + 1..], path, outer, NextListRun(run, elems[i]), st'))
            case Err(e) => Err(e)
  {
    assert elems[i..][0] == elems[i] && elems[i..][1..] == elems[i + 1..];
    ElemsStep(env, elems[i..], path, outer, run, st);
    var r := WalkValue(env, elems[i], path, outer + run, st);
    if r.Ok? {
      AfterOne(done, r.value.0, WalkElems(env, elems[i + 1..], path, outer, NextListRun(run, elems[i]), r.value.1));
    }
    hide WalkValue; hide WalkElems; hide NextListRun;
  }

  lemma OneMoreItem(env: Env, items: TreeBranch, i: nat, path: seq<string>, outer: seq<string>, run: seq<string>,
                    st: Written, done: TreeBranch)
    requires i < |items|
    ensures After(done, WalkItems(env, items[i..], path, outer, run, st)) ==
            match WalkItem(env, items[i], path, outer + run, st)
            case Ok((item, st')) =>
              After(done + [item], WalkItems(env, items[i + 1..], path, outer, NextRun(run, items[i]), st'))
            case Err(e) => Err(e)
  {
    assert items[i..][0] == items[i] && items[i..][1..] == items[i + 1..];
    ItemsStep(env, items[i..], path, outer, run, st);
    var r := WalkItem(env, items[i], path, outer + run, st);
    if r.Ok? {
      AfterOne(done, r.value.0, WalkItems(env, items[i + 1..], path, outer, NextRun(run, items[i]), r.value.1));
    }
    hide WalkItem; hide WalkItems; hide NextRun;
  }

  lemma StackIsScope(stack: seq<seq<string>>)
    requires stack != []
    ensures Scope(stack, false) == Flat(stack)
  {}

  lemma StackScope(outerStack: seq<seq<string>>, run: seq<string>, isComment: bool)
    requires isComment ==> run != []
    ensures Scope(outerStack + [run], isComment) ==
            Flat(outerStack) + if isComment then run[..|run| - 1] else run
    ensures isComment ==> Decisions.Self(outerStack + [run], true) == Some(run[|run| - 1])
  {
    assert (outerStack + [run])[..|outerStack|] == outerStack;
  }
}
