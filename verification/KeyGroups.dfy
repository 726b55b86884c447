/**
 Work on a single key group that needs no key service: the loop of cmd/sops/rotate.go that
 deletes keys from the slice it ranges over, and the order in which sops.go tries the keys.
 */
module KeyGroups {
  import opened Results

  // ---------- Deleting from the slice being ranged over ----------

  /** What the loop keeps. A hit is deleted, which moves the next element into the hit's place,
      behind the range index: that element is kept without being looked at. */
  function Scan<T>(s: seq<T>, hit: T -> bool): (r: seq<T>) {
    if s == [] then []
    else if !hit(s[0]) then [s[0]] + Scan(s[1..], hit)
    else if |s| == 1 then []
    else [s[1]] + Scan(s[2..], hit)
  }

  function Filter<T>(s: seq<T>, hit: T -> bool): seq<T> {
    if s == [] then []
    else if hit(s[0]) then Filter(s[1..], hit)
    else [s[0]] + Filter(s[1..], hit)
  }

  ghost predicate HasAdjacentHits<T>(s: seq<T>, hit: T -> bool) {
    exists i :: 0 < i < |s| && hit(s[i - 1]) && hit(s[i])
  }

  /** A hit in last place that is not the only hit: the loop slices out of bounds. */
  ghost predicate Panics<T>(s: seq<T>, hit: T -> bool) {
    s != [] && hit(s[|s| - 1]) && exists i :: 0 <= i < |s| - 1 && hit(s[i])
  }

  /** The backing array after append(s[:j], s[j+1:]...) for a slice of length `len`: the
      elements behind `j` move down by one, the array behind them keeps what it held. */
  ghost function Deleted<T>(b: seq<T>, j: nat, len: nat): (r: seq<T>)
    requires j < len <= |b|
    ensures |r| == |b|
  {
    b[..j] + b[j + 1..len] + b[len - 1..]
  }

  method DeleteAt<T>(backing: array<T>, j: nat, len: nat)
    requires j < len <= backing.Length
    modifies backing
    ensures backing[..] == Deleted(old(backing[..]), j, len)
  {
    forall i | j <= i < len - 1 {
      backing[i] := backing[i + 1];
    }
  }

  /** The state of the loop: `b` is the backing array, `len` the length the slice has left. */
  ghost predicate Ranging<T>(s: seq<T>, hit: T -> bool, b: seq<T>, len: int, j: int) {
    && 0 <= len <= |s| == |b| && 0 <= j <= |s|
    && (len == |s| ==> b == s && forall i :: 0 <= i < j ==> !hit(s[i]))
    && (len < |s| ==> exists i :: 0 <= i < j && hit(s[i]) && (i < |s| - 1 || j == |s|))
    && (forall i :: len <= i < |s| ==> b[i] == s[|s| - 1])
    && (0 < len && j < len ==> b[len - 1] == s[|s| - 1])
    && (j <= len ==> b[..j] + Scan(b[j..len], hit) == Scan(s, hit))
    && (j > len ==> b[..len] == Scan(s, hit))
    && (j == |s| && len < |s| ==> !Panics(s, hit))
  }

  lemma RangingDeletes<T>(s: seq<T>, hit: T -> bool, b: seq<T>, len: int, j: int)
    requires Ranging(s, hit, b, len, j) && j < len && hit(b[j])
    ensures Ranging(s, hit, Deleted(b, j, len), len - 1, j + 1)
  {
    var c, rest := Deleted(b, j, len), b[j..len];
    assert len == |s| ==> hit(s[j]);
    if j + 1 < len {
      assert rest[2..] == c[j + 1..len - 1];
      assert c[..j + 1] == b[..j] + [rest[1]];
      assert b[..j] + ([rest[1]] + Scan(rest[2..], hit)) == c[..j + 1] + Scan(c[j + 1..len - 1], hit);
    } else {
      assert c[..len - 1] == b[..j] + Scan(rest, hit);
    }
  }

  lemma RangingKeeps<T>(s: seq<T>, hit: T -> bool, b: seq<T>, len: int, j: int)
    requires Ranging(s, hit, b, len, j) && j < |s| && !hit(b[j])
    ensures Ranging(s, hit, b, len, j + 1)
  {
    if j < len {
      var rest := b[j..len];
      assert rest[1..] == b[j + 1..len];
      assert b[..j + 1] == b[..j] + [rest[0]];
      assert b[..j] + ([rest[0]] + Scan(rest[1..], hit)) == b[..j + 1] + Scan(b[j + 1..len], hit);
    } else if j == len {
      assert b[..j] + Scan(b[j..len], hit) == b[..len];
    }
  }

  lemma RangingStarts<T>(s: seq<T>, hit: T -> bool)
    ensures Ranging(s, hit, s, |s|, 0)
  {
    assert s[0..|s|] == s && [] + Scan(s, hit) == Scan(s, hit);
  }

  lemma RangingPanics<T>(s: seq<T>, hit: T -> bool, b: seq<T>, len: int, j: int)
    requires Ranging(s, hit, b, len, j) && len <= j < |s| && hit(b[j])
    ensures Panics(s, hit)
  {}

  lemma RangingEnds<T>(s: seq<T>, hit: T -> bool, b: seq<T>, len: int)
    requires Ranging(s, hit, b, len, |s|)
    ensures 0 <= len <= |b| && !Panics(s, hit) && b[..len] == Scan(s, hit)
  {
    if len == |s| {
      assert b[..len] == s && b[len..len] == [];
    }
  }

  /** for j, key := range s { if hit(key) { s = append(s[:j], s[j+1:]...) } }: the range keeps
      the length and the backing array the slice had at the start, while the deletions shorten
      the slice and move elements inside that array. */
  method RemoveInRange<T>(s: seq<T>, hit: T -> bool) returns (r: Option<seq<T>>)
    ensures r == Removed(s, hit)
  {
    var n := |s|;
    var backing := new T[n](i requires 0 <= i < n => s[i]);
    var len := n;
    assert backing[..] == s;
    RangingStarts(s, hit);
    for j := 0 to n
      invariant 0 <= len <= n
      invariant Ranging(s, hit, backing[..], len, j)
    {
      hide Panics; hide Scan;
      var key := backing[j];
      if hit(key) {
        if j + 1 > len {
          RangingPanics(s, hit, backing[..], len, j);
          return None;
        }
        RangingDeletes(s, hit, backing[..], len, j);
        hide Ranging;
        DeleteAt(backing, j, len);
        len := len - 1;
      } else {
        RangingKeeps(s, hit, backing[..], len, j);
      }
    }
    RangingEnds(s, hit, backing[..], len);
    hide Ranging; hide Panics; hide Scan;
    assert backing[..][..len] == backing[..len];
    return Some(backing[..len]);
  }

  // ---------- When the loop does what it is for ----------

  /** What the loop comes to: what is left of the slice, or a panic. */
  ghost function Removed<T>(s: seq<T>, hit: T -> bool): Option<seq<T>> {
    if Panics(s, hit) then None else Some(Scan(s, hit))
  }

  /** The loop deletes every hit and nothing else exactly when no two hits are adjacent, and the last
      element is no hit or the only one. */
  lemma RemovesAllExactly<T>(s: seq<T>, hit: T -> bool)
    ensures Removed(s, hit) == Some(Filter(s, hit)) <==>
            !HasAdjacentHits(s, hit)
            && !(s != [] && hit(s[|s| - 1]) && exists i :: 0 <= i < |s| - 1 && hit(s[i]))
  {
    ScanIsFilterExactly(s, hit);
  }

  lemma {:induction false} ScanIsFilterExactly<T>(s: seq<T>, hit: T -> bool)
    ensures Scan(s, hit) == Filter(s, hit) <==> !HasAdjacentHits(s, hit)
  {
    if s == [] {
    } else if !hit(s[0]) {
      ScanIsFilterExactly(s[1..], hit);
      AdjacentHitsStep(s, hit);
      assert Scan(s, hit)[1..] == Scan(s[1..], hit) && Filter(s, hit)[1..] == Filter(s[1..], hit);
    } else if |s| > 1 {
      if hit(s[1]) {
        assert Scan(s, hit)[0] == s[1];
        FilterKeepsNoHit(s, hit);
        assert Scan(s, hit) != Filter(s, hit);
      } else {
        assert Filter(s, hit) == [s[1]] + Filter(s[1..][1..], hit);
        assert s[1..][1..] == s[2..];
        ScanIsFilterExactly(s[2..], hit);
        AdjacentHitsStep(s, hit);
        AdjacentHitsStep(s[1..], hit);
        assert Scan(s, hit)[1..] == Scan(s[2..], hit) && Filter(s, hit)[1..] == Filter(s[2..], hit);
      }
    }
  }

  lemma AdjacentHitsStep<T>(s: seq<T>, hit: T -> bool)
    requires s != []
    ensures HasAdjacentHits(s, hit) <==>
            (|s| > 1 && hit(s[0]) && hit(s[1])) || HasAdjacentHits(s[1..], hit)
  {
    var t := s[1..];
    if HasAdjacentHits(s, hit) {
      var i :| 0 < i < |s| && hit(s[i - 1]) && hit(s[i]);
      if i > 1 {
        assert t[i - 2] == s[i - 1] && t[i - 1] == s[i];
      }
    }
    if HasAdjacentHits(t, hit) {
      var i :| 0 < i < |t| && hit(t[i - 1]) && hit(t[i]);
      assert s[i] == t[i - 1] && s[i + 1] == t[i];
    }
  }

  lemma {:induction false} FilterKeepsNoHit<T>(s: seq<T>, hit: T -> bool)
    ensures forall i :: 0 <= i < |Filter(s, hit)| ==> !hit(Filter(s, hit)[i])
  {
    if s != [] {
      FilterKeepsNoHit(s[1..], hit);
    }
  }

  predicate IsOld(name: string) {
    name == "old"
  }

  /** Two adjacent hits in front of another key: one of them survives. */
  lemma AdjacentHitSurvives()
    ensures var s := ["old", "old", "new"];
            Removed(s, IsOld) == Some(["old", "new"])
  {
    var s, last := ["old", "old", "new"], ["new"];
    assert s[2..] == last && last[1..] == [];
    assert IsOld(s[0]) && !IsOld(s[2]);
    assert Scan(last, IsOld) == [last[0]] + Scan(last[1..], IsOld) == last;
    assert Scan(s, IsOld) == [s[1]] + last == ["old", "new"];
  }

  /** A hit in last place behind another one, with no neighbouring hits: the loop panics. */
  lemma LastHitPanics()
    ensures var s := ["old", "new", "old"];
            !HasAdjacentHits(s, IsOld) && Removed(s, IsOld) == None
  {
    var s := ["old", "new", "old"];
    assert IsOld(s[0]) && !IsOld(s[1]) && IsOld(s[2]);
  }

  /** The filter, element by element. */
  lemma {:induction false} FilterJoins<T>(a: seq<T>, x: T, b: seq<T>, hit: T -> bool)
    ensures Filter(a + [x] + b, hit) == Filter(a, hit) + (if hit(x) then [] else [x]) + Filter(b, hit)
  {
    var s := a + [x] + b;
    assert Filter(s, hit) == (if hit(s[0]) then [] else [s[0]]) + Filter(s[1..], hit);
    if a == [] {
      assert s == [x] + b && s[1..] == b;
    } else {
      FilterJoins(a[1..], x, b, hit);
      assert s[1..] == a[1..] + [x] + b && s[0] == a[0];
      assert Filter(a, hit) == (if hit(a[0]) then [] else [a[0]]) + Filter(a[1..], hit);
    }
    hide Filter;
  }

  /** With distinct names in a group there is at most one hit, and the loop is a filter. */
  lemma DistinctNamesAreRemoved<T, N>(s: seq<T>, name: T -> N, removed: N)
    requires forall i, j :: 0 <= i < j < |s| ==> name(s[i]) != name(s[j])
    ensures var hit := x => name(x) == removed;
            !Panics(s, hit) && Scan(s, hit) == Filter(s, hit)
  {
    var hit := x => name(x) == removed;
    RemovesAllExactly(s, hit);
  }

  // ---------- The order in which the keys of a group are tried ----------

  /** priorities[v] = i for every i, v of the decryption order: the last position counts, and a
      type the order does not list comes after all listed ones. */
  function Priority(order: seq<string>, kind: string, n: nat): nat
    requires n <= |order|
  {
    if n == 0 then |order| else if order[n - 1] == kind then n - 1 else Priority(order, kind, n - 1)
  }

  lemma {:induction false} PriorityIsLastPosition(order: seq<string>, kind: string, n: nat)
    requires n <= |order|
    ensures kind in order[..n] ==> var p := Priority(order, kind, n);
              p < n && order[p] == kind && forall i :: p < i < n ==> order[i] != kind
    ensures kind !in order[..n] ==> Priority(order, kind, n) == |order|
  {
    if n > 0 {
      assert order[..n] == order[..n - 1] + [order[n - 1]];
      if order[n - 1] != kind {
        PriorityIsLastPosition(order, kind, n - 1);
      }
    }
  }

  function Priorities(kinds: seq<string>, order: seq<string>): (r: seq<nat>)
    ensures |r| == |kinds|
  {
    seq(|kinds|, i requires 0 <= i < |kinds| => Priority(order, kinds[i], |order|))
  }

  ghost predicate Before(prio: seq<nat>, a: nat, b: nat)
    requires a < |prio| && b < |prio|
  {
    prio[a] < prio[b] || (prio[a] == prio[b] && a < b)
  }

  ghost predicate InOrder(prio: seq<nat>, r: seq<nat>) {
    && (forall i :: 0 <= i < |r| ==> r[i] < |prio|)
    && forall i, j :: 0 <= i < j < |r| ==> Before(prio, r[i], r[j])
  }

  /** What a stable sort of all indices by priority returns: every index, sorted by priority,
      and equal priorities in the order of the group. */
  ghost predicate IsStableOrder(prio: seq<nat>, r: seq<nat>) {
    InOrder(prio, r) && forall k: nat :: k < |prio| ==> k in r
  }

  /** The documented contract of a stable sort leaves one result only. */
  lemma StableOrderIsUnique(prio: seq<nat>, r: seq<nat>, r': seq<nat>)
    requires IsStableOrder(prio, r) && IsStableOrder(prio, r')
    ensures r == r'
  {
    SameElementsSameOrder(prio, r, r');
  }

  lemma LastsAgree(prio: seq<nat>, r: seq<nat>, r': seq<nat>)
    requires InOrder(prio, r) && InOrder(prio, r') && r != [] && r' != []
    requires r[|r| - 1] in r' && r'[|r'| - 1] in r
    ensures r[|r| - 1] == r'[|r'| - 1]
  {
    var i :| 0 <= i < |r| && r[i] == r'[|r'| - 1];
    var i' :| 0 <= i' < |r'| && r'[i'] == r[|r| - 1];
  }

  lemma WithoutLast(prio: seq<nat>, r: seq<nat>)
    requires InOrder(prio, r) && r != []
    ensures InOrder(prio, r[..|r| - 1])
    ensures forall k :: k in r[..|r| - 1] <==> k in r && k != r[|r| - 1]
  {
    var s, last := r[..|r| - 1], r[|r| - 1];
    assert r == s + [last];
    assert last !in s by {
      assert forall i :: 0 <= i < |s| ==> Before(prio, r[i], last);
    }
  }

  lemma {:induction false} SameElementsSameOrder(prio: seq<nat>, r: seq<nat>, r': seq<nat>)
    requires InOrder(prio, r) && InOrder(prio, r')
    requires forall k :: k in r <==> k in r'
    ensures r == r'
    decreases |r|
  {
    assert r' == [] || r'[0] in r';
    if r != [] {
      assert r[|r| - 1] in r;
      LastsAgree(prio, r, r');
      WithoutLast(prio, r);
      WithoutLast(prio, r');
      hide InOrder;
      var a, a', last := r[..|r| - 1], r'[..|r'| - 1], r[|r| - 1];
      forall k
        ensures k in a <==> k in a'
      {
        assert k in a <==> k in r && k != last;
        assert k in a' <==> k in r' && k != last;
      }
      SameElementsSameOrder(prio, a, a');
      assert r == a + [last] && r' == a' + [last];
    }
  }

  /** The place of `k` behind everything whose priority is not larger. */
  function Place(prio: seq<nat>, r: seq<nat>, k: nat, n: nat): (place: nat)
    requires n <= |r| && k < |prio| && forall i :: 0 <= i < |r| ==> r[i] < |prio|
    ensures place <= n
  {
    if n == 0 || prio[r[n - 1]] <= prio[k] then n else Place(prio, r, k, n - 1)
  }

  /** sort.SliceStable on the indices of a group, as insertion of one index after the other. */
  function TryOrder(prio: seq<nat>, n: nat): (r: seq<nat>)
    requires n <= |prio|
    ensures |r| == n && forall i :: 0 <= i < n ==> r[i] < n
  {
    if n == 0 then []
    else
      var r := TryOrder(prio, n - 1);
      var place := Place(prio, r, n - 1, n - 1);
      r[..place] + [n - 1] + r[place..]
  }

  lemma {:induction false} PlaceSplits(prio: seq<nat>, r: seq<nat>, k: nat, n: nat)
    requires n <= |r| && k < |prio| && InOrder(prio, r)
    requires forall i :: n <= i < |r| ==> prio[k] < prio[r[i]]
    ensures var place := Place(prio, r, k, n);
            && (forall i :: 0 <= i < place ==> prio[r[i]] <= prio[k])
            && (forall i :: place <= i < |r| ==> prio[k] < prio[r[i]])
  {
    if n == 0 {
    } else if prio[r[n - 1]] <= prio[k] {
      assert forall i :: 0 <= i < n - 1 ==> Before(prio, r[i], r[n - 1]);
    } else {
      PlaceSplits(prio, r, k, n - 1);
    }
  }

  lemma InsertionKeepsOrder(prio: seq<nat>, r: seq<nat>, k: nat, place: nat)
    requires InOrder(prio, r) && k < |prio| && place <= |r|
    requires forall i :: 0 <= i < |r| ==> r[i] < k
    requires forall i :: 0 <= i < place ==> prio[r[i]] <= prio[k]
    requires forall i :: place <= i < |r| ==> prio[k] < prio[r[i]]
    ensures InOrder(prio, r[..place] + [k] + r[place..])
  {}

  lemma InsertionContains(r: seq<nat>, k: nat, place: nat, x: nat)
    requires place <= |r| && (x == k || x in r)
    ensures x in r[..place] + [k] + r[place..]
  {
    var s := r[..place] + [k] + r[place..];
    assert s[place] == k;
    if x != k {
      var i :| 0 <= i < |r| && r[i] == x;
      assert s[if i < place then i else i + 1] == x;
    }
  }

  lemma {:induction false} TryOrderSorts(prio: seq<nat>, n: nat)
    requires n <= |prio|
    ensures InOrder(prio, TryOrder(prio, n))
    ensures forall k: nat :: k < n ==> k in TryOrder(prio, n)
  {
    if n > 0 {
      TryOrderSorts(prio, n - 1);
      var r := TryOrder(prio, n - 1);
      var place := Place(prio, r, n - 1, n - 1);
      PlaceSplits(prio, r, n - 1, n - 1);
      InsertionKeepsOrder(prio, r, n - 1, place);
      forall k: nat | k < n
        ensures k in TryOrder(prio, n)
      {
        InsertionContains(r, n - 1, place, k);
      }
    }
  }

  /** No key is skipped and none is tried twice: the try order is a stable order of the whole
      group. */
  lemma TryOrderIsStable(prio: seq<nat>)
    ensures IsStableOrder(prio, TryOrder(prio, |prio|))
  {
    TryOrderSorts(prio, |prio|);
  }

  /** The order in which keys are tried, in terms of their types: of a decryption order without repeats
      the types come in that order, types it does not list come after all that it lists, and keys of
      one type, or of types that are not listed, stay in the order of the group. */
  lemma TriesInOrder(kinds: seq<string>, order: seq<string>, a: nat, b: nat) returns (x: nat, y: nat)
    requires a < |kinds| && b < |kinds| && a != b
    requires forall i, j :: 0 <= i < j < |order| ==> order[i] != order[j]
    ensures var r := TryOrder(Priorities(kinds, order), |kinds|);
            x < |r| && y < |r| && r[x] == a && r[y] == b
    ensures (exists i, j :: 0 <= i < j < |order| && kinds[a] == order[i] && kinds[b] == order[j]) ==> x < y
    ensures kinds[a] in order && kinds[b] !in order ==> x < y
    ensures kinds[a] == kinds[b] || (kinds[a] !in order && kinds[b] !in order) ==> (x < y <==> a < b)
  {
    var prio := Priorities(kinds, order);
    var r := TryOrder(prio, |kinds|);
    TryOrderIsStable(prio);
    hide TryOrder;
    assert a in r && b in r;
    x :| 0 <= x < |r| && r[x] == a;
    y :| 0 <= y < |r| && r[y] == b;
    assert if x < y then Before(prio, a, b) else Before(prio, b, a);
    assert prio[a] == Priority(order, kinds[a], |order|) && prio[b] == Priority(order, kinds[b], |order|);
    hide IsStableOrder; hide Priorities; hide Priority;
    assert order[..|order|] == order;
    PriorityIsLastPosition(order, kinds[a], |order|);
    PriorityIsLastPosition(order, kinds[b], |order|);
  }

  method SortKeyGroupIndices(kinds: seq<string>, order: seq<string>) returns (indices: seq<nat>)
    ensures indices == TryOrder(Priorities(kinds, order), |kinds|)
    ensures IsStableOrder(Priorities(kinds, order), indices)
  {
    var priorities: map<string, nat> := map[];
    for i := 0 to |order|
      invariant forall v :: v in priorities <==> v in order[..i]
      invariant forall v :: v in priorities ==> priorities[v] == Priority(order, v, i)
      invariant forall v :: v !in priorities ==> Priority(order, v, i) == |order|
    {
      assert order[..i + 1] == order[..i] + [order[i]];
      priorities := priorities[order[i] := i];
    }
    var prio := [];
    for i := 0 to |kinds|
      invariant prio == Priorities(kinds, order)[..i]
    {
      var priority := if kinds[i] in priorities then priorities[kinds[i]] else |order|;
      prio := prio + [priority];
    }
    assert prio == Priorities(kinds, order);
    TryOrderIsStable(prio);
    indices := TryOrder(prio, |kinds|);
  }
}
