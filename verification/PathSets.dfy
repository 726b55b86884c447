/**
 When a set of token paths describes a tree: no path ends inside another, no node has both map
 keys and list positions, and every list is complete.
 */
module PathSets {
  import opened Tokens

  ghost predicate NoPathInsideAnother(paths: set<Path>) {
    forall p: Path, q: Path :: p in paths && q in paths ==> !(p < q)
  }

  /** Paths that agree up to `k` go on with the same kind of token. */
  ghost predicate NoMixedNode(paths: set<Path>) {
    forall p: Path, q: Path, k: int :: p in paths && q in paths && 0 <= k < |p| && k < |q| && p[..k] == q[..k] ==>
      (p[k].MapToken? <==> q[k].MapToken?)
  }

  ghost predicate Continues(paths: set<Path>, prefix: Path, t: Token) {
    exists q :: q in paths && prefix + [t] <= q
  }

  /** Where a list position occurs, all smaller ones do, and none is negative. */
  ghost predicate CompleteLists(paths: set<Path>) {
    forall p: Path, k: int :: p in paths && 0 <= k < |p| && p[k].ListToken? ==>
      p[k].position >= 0 && forall j :: 0 <= j < p[k].position ==> Continues(paths, p[..k], ListToken(j))
  }

  ghost predicate PathsFit(paths: set<Path>) {
    NoPathInsideAnother(paths) && NoMixedNode(paths) && CompleteLists(paths)
  }

  /** The paths that go on behind the first token `t`. */
  ghost function Sub(paths: set<Path>, t: Token): set<Path> {
    set p | p in paths && p != [] && p[0] == t :: p[1..]
  }

  ghost predicate Starts(paths: set<Path>, t: Token) {
    exists p :: p in paths && p != [] && p[0] == t
  }

  lemma SubContains(paths: set<Path>, t: Token, q: Path)
    ensures q in Sub(paths, t) <==> [t] + q in paths
  {
    var p := [t] + q;
    assert p[1..] == q && p[0] == t;
    if q in Sub(paths, t) {
      var r :| r in paths && r != [] && r[0] == t && r[1..] == q;
      assert r == p;
    }
  }

  /** The conditions at the root alone. */
  ghost predicate RootFits(paths: set<Path>) {
    && ([] in paths ==> paths == {[]})
    && (forall t, u :: Starts(paths, t) && Starts(paths, u) ==> (t.MapToken? <==> u.MapToken?))
    && (forall i :: Starts(paths, ListToken(i)) ==> i >= 0)
    && (forall i, j :: Starts(paths, ListToken(i)) && 0 <= j < i ==> Starts(paths, ListToken(j)))
  }

  ghost predicate SubsFit(paths: set<Path>) {
    forall t :: Starts(paths, t) ==> PathsFit(Sub(paths, t))
  }

  lemma RootFitsWhenAllFit(paths: set<Path>)
    requires PathsFit(paths)
    ensures RootFits(paths)
  {
    if [] in paths {
      forall p | p in paths
        ensures p == []
      {
        assert !([] < p);
      }
    }
    forall t, u | Starts(paths, t) && Starts(paths, u)
      ensures t.MapToken? <==> u.MapToken?
    {
      var p :| p in paths && p != [] && p[0] == t;
      var q :| q in paths && q != [] && q[0] == u;
      assert p[..0] == q[..0];
    }
    forall i | Starts(paths, ListToken(i))
      ensures i >= 0 && forall j :: 0 <= j < i ==> Starts(paths, ListToken(j))
    {
      var p :| p in paths && p != [] && p[0] == ListToken(i);
      forall j | 0 <= j < i
        ensures Starts(paths, ListToken(j))
      {
        assert Continues(paths, p[..0], ListToken(j));
        var q :| q in paths && p[..0] + [ListToken(j)] <= q;
        assert q[0] == ListToken(j);
      }
    }
  }

  lemma SubNoPathInside(paths: set<Path>, t: Token)
    requires NoPathInsideAnother(paths)
    ensures NoPathInsideAnother(Sub(paths, t))
  {
    forall p: Path, q: Path | p in Sub(paths, t) && q in Sub(paths, t)
      ensures !(p < q)
    {
      SubContains(paths, t, p);
      SubContains(paths, t, q);
      assert p < q ==> [t] + p < [t] + q;
    }
  }

  lemma SubNoMixed(paths: set<Path>, t: Token)
    requires NoMixedNode(paths)
    ensures NoMixedNode(Sub(paths, t))
  {
    var sub := Sub(paths, t);
    forall p: Path, q: Path, k: int | p in sub && q in sub && 0 <= k < |p| && k < |q| && p[..k] == q[..k]
      ensures p[k].MapToken? <==> q[k].MapToken?
    {
      SubContains(paths, t, p);
      SubContains(paths, t, q);
      hide Sub;
      var tp, tq := [t] + p, [t] + q;
      assert tp[..k + 1] == [t] + p[..k] && tq[..k + 1] == [t] + q[..k];
      assert tp[k + 1] == p[k] && tq[k + 1] == q[k];
    }
  }

  lemma SubContinues(paths: set<Path>, t: Token, prefix: Path, u: Token)
    ensures Continues(Sub(paths, t), prefix, u) <==> Continues(paths, [t] + prefix, u)
  {
    var sub := Sub(paths, t);
    if Continues(sub, prefix, u) {
      var q :| q in sub && prefix + [u] <= q;
      SubContains(paths, t, q);
      assert [t] + prefix + [u] <= [t] + q;
    }
    if Continues(paths, [t] + prefix, u) {
      var q :| q in paths && [t] + prefix + [u] <= q;
      assert q[0] == ([t] + prefix + [u])[0] == t;
      assert q == [t] + q[1..];
      SubContains(paths, t, q[1..]);
      assert prefix + [u] == ([t] + prefix + [u])[1..] <= q[1..];
    }
  }

  lemma SubComplete(paths: set<Path>, t: Token)
    requires CompleteLists(paths)
    ensures CompleteLists(Sub(paths, t))
  {
    var sub := Sub(paths, t);
    forall p: Path, k: int | p in sub && 0 <= k < |p| && p[k].ListToken?
      ensures p[k].position >= 0
      ensures forall j :: 0 <= j < p[k].position ==> Continues(sub, p[..k], ListToken(j))
    {
      SubContains(paths, t, p);
      hide Sub; hide Continues;
      var tp := [t] + p;
      assert tp[k + 1] == p[k] && tp[..k + 1] == [t] + p[..k];
      forall j | 0 <= j < p[k].position
        ensures Continues(sub, p[..k], ListToken(j))
      {
        assert Continues(paths, tp[..k + 1], ListToken(j));
        SubContinues(paths, t, p[..k], ListToken(j));
      }
    }
  }

  lemma SubsFitWhenAllFit(paths: set<Path>, t: Token)
    requires PathsFit(paths)
    ensures PathsFit(Sub(paths, t))
  {
    SubNoPathInside(paths, t);
    SubNoMixed(paths, t);
    SubComplete(paths, t);
  }

  lemma InSub(paths: set<Path>, p: Path)
    requires p in paths && p != []
    ensures Starts(paths, p[0]) && p[1..] in Sub(paths, p[0])
  {}

  lemma PrefixOfTail(p: Path, q: Path)
    requires p != [] && q != []
    ensures p < q ==> p[0] == q[0] && p[1..] < q[1..]
  {}

  lemma NoPathInsideFromParts(paths: set<Path>)
    requires RootFits(paths) && SubsFit(paths)
    ensures NoPathInsideAnother(paths)
  {
    forall p: Path, q: Path | p in paths && q in paths
      ensures !(p < q)
    {
      if p != [] && q != [] {
        InSub(paths, p);
        InSub(paths, q);
        hide Sub; hide Starts; hide RootFits; hide NoMixedNode; hide CompleteLists;
        assert PathsFit(Sub(paths, p[0]));
        PrefixOfTail(p, q);
      }
    }
  }

  lemma NoMixedFromParts(paths: set<Path>)
    requires RootFits(paths) && SubsFit(paths)
    ensures NoMixedNode(paths)
  {
    forall p: Path, q: Path, k: int | p in paths && q in paths && 0 <= k < |p| && k < |q| && p[..k] == q[..k]
      ensures p[k].MapToken? <==> q[k].MapToken?
    {
      InSub(paths, p);
      InSub(paths, q);
      if k > 0 {
        hide Sub; hide Starts; hide RootFits; hide NoPathInsideAnother; hide CompleteLists;
        assert p[0] == p[..k][0] == q[..k][0] == q[0];
        assert PathsFit(Sub(paths, p[0]));
        assert p[1..][..k - 1] == p[..k][1..] && q[1..][..k - 1] == q[..k][1..];
        assert p[1..][k - 1] == p[k] && q[1..][k - 1] == q[k];
      }
    }
  }

  lemma CompleteFromParts(paths: set<Path>)
    requires RootFits(paths) && SubsFit(paths)
    ensures CompleteLists(paths)
  {
    forall p: Path, k: int | p in paths && 0 <= k < |p| && p[k].ListToken?
      ensures p[k].position >= 0 && forall j :: 0 <= j < p[k].position ==> Continues(paths, p[..k], ListToken(j))
    {
      InSub(paths, p);
      if k == 0 {
        forall j | 0 <= j < p[0].position
          ensures Continues(paths, p[..0], ListToken(j))
        {
          assert Starts(paths, ListToken(j));
          var q :| q in paths && q != [] && q[0] == ListToken(j);
          assert p[..0] + [ListToken(j)] <= q;
        }
      } else {
        var t, tail := p[0], p[1..];
        assert PathsFit(Sub(paths, t));
        hide Sub; hide Starts; hide RootFits; hide NoPathInsideAnother; hide NoMixedNode; hide Continues;
        assert tail[k - 1] == p[k] && p[..k] == [t] + tail[..k - 1];
        forall j | 0 <= j < p[k].position
          ensures Continues(paths, p[..k], ListToken(j))
        {
          assert Continues(Sub(paths, t), tail[..k - 1], ListToken(j));
          SubContinues(paths, t, tail[..k - 1], ListToken(j));
        }
      }
    }
  }

  lemma AllFitWhenPartsFit(paths: set<Path>)
    requires RootFits(paths) && SubsFit(paths)
    ensures PathsFit(paths)
  {
    NoPathInsideFromParts(paths);
    NoMixedFromParts(paths);
    CompleteFromParts(paths);
  }

  /** A set of paths fits exactly when it fits at the root and behind every first token. */
  lemma FitIsRecursive(paths: set<Path>)
    ensures PathsFit(paths) <==> RootFits(paths) && SubsFit(paths)
  {
    if PathsFit(paths) {
      RootFitsWhenAllFit(paths);
      forall t | Starts(paths, t) {
        SubsFitWhenAllFit(paths, t);
      }
    }
    if RootFits(paths) && SubsFit(paths) {
      AllFitWhenPartsFit(paths);
    }
  }

  // ---------- Positions ----------

  ghost function UpTo(n: nat): (s: set<int>)
    ensures |s| == n && forall i :: i in s <==> 0 <= i < n
  {
    if n == 0 then {} else UpTo(n - 1) + {n - 1}
  }

  /** Positions without a gap from 0 on are as many as the largest one plus one. */
  lemma NoGaps(s: set<int>)
    requires forall i :: i in s ==> i >= 0
    requires forall i, j :: i in s && 0 <= j < i ==> j in s
    ensures s == UpTo(|s|)
  {
    NoGapsFrom(s, 0);
  }

  lemma {:induction false} NoGapsFrom(s: set<int>, n: nat)
    requires forall i :: i in s ==> i >= 0
    requires forall i, j :: i in s && 0 <= j < i ==> j in s
    requires UpTo(n) <= s
    ensures s == UpTo(|s|)
    decreases |s - UpTo(n)|
  {
    hide UpTo;
    if n in s {
      var left := s - UpTo(n);
      assert s - UpTo(n + 1) == left - {n};
      NoGapsFrom(s, n + 1);
    } else {
      assert s == UpTo(n);
    }
  }
}
