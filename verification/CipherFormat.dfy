/**
 The text of an encrypted value (aes/cipher.go): ENC[AES256_GCM,data:...,iv:...,tag:...,type:...],
 and the regular expression that takes it apart.
 */
module CipherFormat {
  import opened Results
  import opened Tokens

  const OPENING := "ENC[AES256_GCM,data:"
  const SEPARATORS := [",iv:", ",tag:", ",type:", "]"]

  /** Greedy groups of at least one character, none of them a newline, each in front of its
      separator. What follows the last separator does not matter. */
  function Groups(s: string, start: nat, seps: seq<string>): Option<seq<string>>
    requires start <= |s|
    decreases |seps|, 0
  {
    if seps == [] then Some([]) else LongestFirst(s, start, seps, |s|)
  }

  /** The longest group that ends at `i` or before, and lets the rest match. */
  function LongestFirst(s: string, start: nat, seps: seq<string>, i: nat): Option<seq<string>>
    requires start <= |s| && i <= |s| && seps != []
    decreases |seps|, 0, i
  {
    if i <= start then None
    else
      var rest := if HasPrefixAt(s, i, seps[0]) && '\n' !in s[start..i] then Groups(s, i + |seps[0]|,
            seps[1..]) else None;
      match rest
      case Some(groups) => Some([s[start..i]] + groups)
      case None => LongestFirst(s, start, seps, i - 1)
  }

  /** FindStringSubmatch of the regular expression. */
  function Match(value: string): Option<seq<string>> {
    if HasPrefixAt(value, 0, OPENING) then Groups(value, |OPENING|, SEPARATORS) else None
  }

  function Body(groups: seq<string>, seps: seq<string>): string
    requires |groups| == |seps|
  {
    if groups == [] then [] else groups[0] + seps[0] + Body(groups[1..], seps[1..])
  }

  /** fmt.Sprintf of Encrypt. */
  function Format(data: string, iv: string, tag: string, kind: string): string {
    OPENING + Body([data, iv, tag, kind], SEPARATORS)
  }

  /** The text, in full. */
  lemma FormatPrints(data: string, iv: string, tag: string, kind: string)
    ensures Format(data, iv, tag, kind)
         == "ENC[AES256_GCM,data:" + data + ",iv:" + iv + ",tag:" + tag + ",type:" + kind + "]"
  {
    BodyStep(data, [iv, tag, kind], ",iv:", [",tag:", ",type:", "]"]);
    BodyStep(iv, [tag, kind], ",tag:", [",type:", "]"]);
    BodyStep(tag, [kind], ",type:", ["]"]);
    BodyStep(kind, [], "]", []);
    hide Body;
    assert [data] + [iv, tag, kind] == [data, iv, tag, kind] && [iv] + [tag, kind] == [iv, tag, kind];
    assert [",iv:"] + [",tag:", ",type:", "]"] == SEPARATORS;
    assert [",tag:"] + [",type:", "]"] == [",tag:", ",type:", "]"];
    var end := kind + "]";
    assert Body([kind], ["]"]) == end;
    assert Body([tag, kind], [",type:", "]"]) == tag + ",type:" + end;
  }

  lemma BodyStep(group: string, groups: seq<string>, sep: string, seps: seq<string>)
    requires |groups| == |seps|
    ensures Body([group] + groups, [sep] + seps) == group + sep + Body(groups, seps)
  {
    assert ([group] + groups)[1..] == groups && ([sep] + seps)[1..] == seps;
  }

  /** As base64 and the names of the types are. */
  predicate Clean(group: string) {
    group != [] && ',' !in group && ']' !in group && '\n' !in group
  }

  predicate Differ(a: string, b: string) {
    exists k :: 0 <= k < |a| && k < |b| && a[k] != b[k]
  }

  predicate IsSeparator(sep: string) {
    sep != [] && sep[0] in ",]" && ',' !in sep[1..] && ']' !in sep[1..]
  }

  ghost predicate Separate(seps: seq<string>) {
    && (forall i :: 0 <= i < |seps| ==> IsSeparator(seps[i]))
    && (forall i, j :: 0 <= i < j < |seps| ==> Differ(seps[i], seps[j]))
  }

  lemma HasAtBehind(pre: string, s: string, i: nat, sep: string)
    requires i >= |pre|
    ensures HasPrefixAt(pre + s, i, sep) <==> HasPrefixAt(s, i - |pre|, sep)
  {
    var all := pre + s;
    if i + |sep| <= |all| {
      assert all[i..i + |sep|] == s[i - |pre|..i - |pre| + |sep|];
    }
  }

  /** In front of a separator there is no other one, and none overlaps with it. */
  lemma NoOtherSeparator(group: string, sep: string, rest: string, other: string, i: nat)
    requires Clean(group) && IsSeparator(sep) && IsSeparator(other) && (i == |group| ==> Differ(other, sep))
    requires i < |group| + |sep|
    ensures !HasPrefixAt(group + sep + rest, i, other)
  {
    var s := group + sep + rest;
    assert i < |group| ==> s[i] == group[i];
    assert i > |group| ==> s[i] == sep[1..][i - |group| - 1];
    if i + |other| <= |s| {
      var found := s[i..i + |other|];
      assert found[0] == s[i];
      if i == |group| {
        var k :| 0 <= k < |other| && k < |sep| && other[k] != sep[k];
        assert found[k] == s[i + k] == sep[k];
      }
    }
  }

  lemma {:induction false} NotInBody(groups: seq<string>, seps: seq<string>, other: string, i: nat)
    requires |groups| == |seps| && (forall g :: g in groups ==> Clean(g))
    requires IsSeparator(other)
    requires forall k :: 0 <= k < |seps| ==> IsSeparator(seps[k]) && Differ(other, seps[k])
    ensures !HasPrefixAt(Body(groups, seps), i, other)
    decreases |groups|
  {
    hide IsSeparator; hide Clean;
    if groups == [] {
      NotEmpty(other);
    } else {
      var first, rest := groups[0] + seps[0], Body(groups[1..], seps[1..]);
      if i < |first| {
        NoOtherSeparator(groups[0], seps[0], rest, other, i);
      } else {
        HasAtBehind(first, rest, i, other);
        NotInBody(groups[1..], seps[1..], other, i - |first|);
      }
    }
  }

  lemma NotEmpty(sep: string)
    requires IsSeparator(sep)
    ensures sep != []
  {}

  /** A formatted text is taken apart into what it was made of. */
  lemma {:induction false} BodyIsRead(s: string, start: nat, groups: seq<string>, seps: seq<string>)
    requires start <= |s| && |groups| == |seps| && s[start..] == Body(groups, seps)
    requires Separate(seps) && forall g :: g in groups ==> Clean(g)
    ensures Groups(s, start, seps) == Some(groups)
    decreases |groups|, 1
  {
    if groups != [] {
      hide IsSeparator; hide Differ; hide Clean;
      BodyLength(groups, seps);
      LongestIsRead(s, start, groups, seps, |s|);
    }
  }

  lemma BodyLength(groups: seq<string>, seps: seq<string>)
    requires |groups| == |seps| && groups != []
    ensures |Body(groups, seps)| >= |groups[0]| + |seps[0]|
  {}

  /** Where the group ends, its separator is found. */
  lemma FoundAtEnd(s: string, start: nat, group: string, sep: string, rest: string)
    requires start <= |s| && s[start..] == group + sep + rest
    ensures var end := start + |group|;
      && end + |sep| <= |s| && HasPrefixAt(s, end, sep)
      && s[start..end] == group && s[end + |sep|..] == rest
  {
    var body := s[start..];
    assert body[|group|..|group| + |sep|] == sep;
    assert s == s[..start] + body;
  }

  lemma Hit(s: string, start: nat, seps: seq<string>, i: nat)
    requires start < i <= |s| && seps != [] && HasPrefixAt(s, i, seps[0]) && '\n' !in s[start..i]
    ensures Groups(s, i + |seps[0]|, seps[1..]).Some? ==>
      LongestFirst(s, start, seps, i) == Some([s[start..i]] + Groups(s, i + |seps[0]|, seps[1..]).value)
  {
    hide Groups;
  }

  lemma Miss(s: string, start: nat, seps: seq<string>, i: nat)
    requires start < i <= |s| && seps != [] && !HasPrefixAt(s, i, seps[0])
    ensures LongestFirst(s, start, seps, i) == LongestFirst(s, start, seps, i - 1)
  {
    hide Groups; hide HasPrefixAt;
  }

  lemma SeparateTail(seps: seq<string>)
    requires Separate(seps) && seps != []
    ensures Separate(seps[1..])
    ensures IsSeparator(seps[0]) && forall k :: 0 <= k < |seps[1..]| ==> IsSeparator(seps[1..][k]) && Differ(seps[0],
          seps[1..][k])
  {
    hide IsSeparator; hide Differ;
    assert forall k :: 0 <= k < |seps[1..]| ==> seps[1..][k] == seps[k + 1];
  }

  lemma {:induction false} LongestIsRead(s: string, start: nat, groups: seq<string>, seps: seq<string>, i: nat)
    requires start <= |s| && |groups| == |seps| && groups != [] && s[start..] == Body(groups, seps)
    requires Separate(seps) && forall g :: g in groups ==> Clean(g)
    requires start + |groups[0]| <= i <= |s|
    ensures LongestFirst(s, start, seps, i) == Some(groups)
    decreases |groups|, 0, i
  {
    var group, sep, rest := groups[0], seps[0], Body(groups[1..], seps[1..]);
    assert Clean(group);
    assert group != [] && '\n' !in group;
    SeparateTail(seps);
    hide IsSeparator; hide Differ; hide Separate; hide Clean; hide Groups;
    FoundAtEnd(s, start, group, sep, rest);
    if i == start + |group| {
      BodyIsRead(s, i + |sep|, groups[1..], seps[1..]);
      assert [group] + groups[1..] == groups;
      Hit(s, start, seps, i);
    } else {
      NotBehindEnd(s, start, groups, seps, i);
      Miss(s, start, seps, i);
      hide HasPrefixAt; hide Body;
      LongestIsRead(s, start, groups, seps, i - 1);
    }
    hide Body; hide HasPrefixAt; hide LongestFirst;
  }

  lemma NotBehindEnd(s: string, start: nat, groups: seq<string>, seps: seq<string>, i: nat)
    requires start <= |s| && |groups| == |seps| && groups != [] && s[start..] == Body(groups, seps)
    requires Separate(seps) && forall g :: g in groups ==> Clean(g)
    requires start + |groups[0]| < i <= |s|
    ensures !HasPrefixAt(s, i, seps[0])
  {
    SeparateTail(seps);
    hide IsSeparator; hide Differ; hide Separate; hide Clean; hide HasPrefixAt;
    NoOccurrence(groups[0], seps[0], groups[1..], seps[1..], i - start);
    HasAtBehind(s[..start], s[start..], i, seps[0]);
    assert s == s[..start] + s[start..];
  }

  lemma NoOccurrence(group: string, sep: string, groups: seq<string>, seps: seq<string>, i: nat)
    requires |groups| == |seps| && Clean(group) && (forall g :: g in groups ==> Clean(g))
    requires IsSeparator(sep)
    requires forall k :: 0 <= k < |seps| ==> IsSeparator(seps[k]) && Differ(sep, seps[k])
    requires i > |group|
    ensures !HasPrefixAt(group + sep + Body(groups, seps), i, sep)
  {
    hide Body; hide HasPrefixAt; hide IsSeparator; hide Differ; hide Clean;
    if i < |group| + |sep| {
      NoOtherSeparator(group, sep, Body(groups, seps), sep, i);
    } else {
      HasAtBehind(group + sep, Body(groups, seps), i, sep);
      NotInBody(groups, seps, sep, i - |group| - |sep|);
    }
  }

  lemma IsOneOfFour(i: nat)
    requires i < 4
    ensures IsSeparator(SEPARATORS[i])
  {
    assert i == 0 || i == 1 || i == 2 || i == 3;
  }

  lemma SeparatorsAreSeparate()
    ensures Separate(SEPARATORS)
  {
    var s := SEPARATORS;
    hide IsSeparator;
    forall i | 0 <= i < |s| {
      IsOneOfFour(i);
    }
    assert s[0][1] != s[1][1] && s[0][1] != s[2][1] && s[0][0] != s[3][0];
    assert s[1][2] != s[2][2] && s[1][0] != s[3][0] && s[2][0] != s[3][0];
    assert Differ(s[0], s[1]) && Differ(s[0], s[2]) && Differ(s[0], s[3]);
    assert Differ(s[1], s[2]) && Differ(s[1], s[3]) && Differ(s[2], s[3]);
  }

  /** What Encrypt prints is what the regular expression finds. */
  lemma FormatIsMatched(data: string, iv: string, tag: string, kind: string)
    requires Clean(data) && Clean(iv) && Clean(tag) && Clean(kind)
    ensures Match(Format(data, iv, tag, kind)) == Some([data, iv, tag, kind])
  {
    SeparatorsAreSeparate();
    var groups, opening, seps := [data, iv, tag, kind], OPENING, SEPARATORS;
    hide Clean; hide Groups; hide Body; hide Separate;
    var s := opening + Body(groups, seps);
    assert s[|opening|..] == Body(groups, seps) && s[0..|opening|] == opening;
    BodyIsRead(s, |opening|, groups, seps);
  }
}
