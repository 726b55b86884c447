/** The order of sort.Strings, and the sorted sequence of a set of strings. */
module Strings {
  predicate Less(a: string, b: string) {
    if b == [] then false
    else if a == [] then true
    else a[0] < b[0] || (a[0] == b[0] && Less(a[1..], b[1..]))
  }

  lemma {:induction false} LessIsTotal(a: string, b: string)
    ensures a == b || Less(a, b) || Less(b, a)
    ensures !(Less(a, b) && Less(b, a)) && !Less(a, a)
  {
    if a != [] && b != [] {
      LessIsTotal(a[1..], b[1..]);
      assert a == [a[0]] + a[1..] && b == [b[0]] + b[1..];
    }
    if a != [] {
      LessIsTotal(a[1..], a[1..]);
    }
  }

  lemma {:induction false} LessIsTransitive(a: string, b: string, c: string)
    requires Less(a, b) && Less(b, c)
    ensures Less(a, c)
  {
    if a != [] && a[0] == b[0] == c[0] {
      LessIsTransitive(a[1..], b[1..], c[1..]);
    }
  }

  ghost predicate IsMinimum(s: set<string>, k: string) {
    k in s && forall l :: l in s && l != k ==> Less(k, l)
  }

  lemma {:induction false} MinimumExists(s: set<string>)
    requires s != {}
    ensures exists k :: IsMinimum(s, k)
    decreases |s|
  {
    var x :| x in s;
    if s == {x} {
      assert IsMinimum(s, x);
    } else {
      var rest := s - {x};
      MinimumExists(rest);
      var m :| IsMinimum(rest, m);
      LessIsTotal(x, m);
      var k := if Less(x, m) then x else m;
      forall l | l in s && l != k
        ensures Less(k, l)
      {
        if l in rest && l != m && k == x {
          LessIsTransitive(x, m, l);
        }
      }
      assert IsMinimum(s, k);
    }
  }

  ghost function Minimum(s: set<string>): (k: string)
    requires s != {}
    ensures IsMinimum(s, k)
  {
    MinimumExists(s);
    var k :| IsMinimum(s, k);
    k
  }

  ghost function Sorted(s: set<string>): (r: seq<string>)
    ensures forall k :: k in r <==> k in s
    decreases |s|
  {
    if s == {} then [] else [Minimum(s)] + Sorted(s - {Minimum(s)})
  }

  ghost predicate StrictlySorted(r: seq<string>) {
    forall i, j :: 0 <= i < j < |r| ==> Less(r[i], r[j])
  }

  /** A strictly sorted sequence is the sorted sequence of its elements. */
  lemma {:induction false} SortedOfElements(r: seq<string>, s: set<string>)
    requires StrictlySorted(r) && forall k :: k in r <==> k in s
    ensures Sorted(s) == r
    decreases |r|
  {
    if r == [] {
      assert s == {};
    } else {
      assert r[0] in s;
      var m, tail := Minimum(s), r[1..];
      if m != r[0] {
        var i :| 0 <= i < |r| && r[i] == m;
        assert Less(r[0], r[i]);
        LessIsTotal(m, r[0]);
      }
      forall k
        ensures k in tail <==> k in s - {m}
      {
        assert k in r <==> k == r[0] || k in tail;
        LessIsTotal(m, m);
      }
      SortedOfElements(tail, s - {m});
    }
  }

  lemma {:induction false} SortedIsSorted(s: set<string>)
    ensures StrictlySorted(Sorted(s))
    decreases |s|
  {
    if s != {} {
      var m, rest := Minimum(s), s - {Minimum(s)};
      SortedIsSorted(rest);
      var r := Sorted(rest);
      forall i, j | 0 <= i < j < |[m] + r|
        ensures Less(([m] + r)[i], ([m] + r)[j])
      {
        assert r[j - 1] in r;
      }
    }
  }
}
