/**
 Polynomials over GF(2^8): evaluation, root counting, and Lagrange interpolation, as
 shamir/shamir.go computes them. A polynomial is the sequence of its coefficients, constant
 term first.
 */
module Polynomials {
  import opened GF256
  import opened FieldLaws
  import opened FieldInverse

  type poly = seq<byte>

  ghost predicate Distinct(xs: seq<byte>) {
    forall i, j :: 0 <= i < j < |xs| ==> xs[i] != xs[j]
  }

  // ---------- Evaluation ----------

  function Eval(p: poly, x: byte): byte {
    if p == [] then 0 else Add(p[0], Mul(x, Eval(p[1..], x)))
  }

  /** Horner's rule, from the highest coefficient down. The source indexes out of bounds when
      there is no coefficient at all. */
  method Evaluate(p: poly, x: byte) returns (out: byte)
    requires p != []
    ensures out == Eval(p, x)
  {
    hide Add; hide Mul;
    if x == 0 {
      EvalAtZero(p);
      return p[0];
    }
    var degree := |p| - 1;
    out := p[degree];
    EvalConstant(p[degree..], x);
    var i := degree - 1;
    while i >= 0
      invariant -1 <= i < degree
      invariant out == Eval(p[i + 1..], x)
    {
      assert p[i..][1..] == p[i + 1..];
      MulCommutes(out, x);
      var product := Mult(out, x);
      AddCommutes(product, p[i]);
      out := Add(product, p[i]);
      i := i - 1;
    }
  }

  lemma EvalConstant(p: poly, x: byte)
    requires |p| == 1
    ensures Eval(p, x) == p[0]
  {
    hide Add; hide Mul;
    MulZero(x);
    AddZero(p[0]);
  }

  lemma EvalAtZero(p: poly)
    requires p != []
    ensures Eval(p, 0) == p[0]
  {
    hide Add; hide Mul;
    MulZero(Eval(p[1..], 0));
    AddZero(p[0]);
  }

  // ---------- Operations on polynomials ----------

  function Zeros(n: nat): poly {
    seq(n, _ => 0)
  }

  function PlusPoly(p: poly, q: poly): (r: poly)
    requires |p| == |q|
    ensures |r| == |p|
  {
    seq(|p|, i requires 0 <= i < |p| => Add(p[i], q[i]))
  }

  function ScalePoly(c: byte, p: poly): (r: poly)
    ensures |r| == |p|
  {
    seq(|p|, i requires 0 <= i < |p| => Mul(c, p[i]))
  }

  /** (X + r) * p. */
  function TimesLinear(p: poly, r: byte): (q: poly)
    ensures |q| == |p| + 1
  {
    PlusPoly([0] + p, ScalePoly(r, p) + [0])
  }

  lemma {:induction false} EvalZeros(n: nat, x: byte)
    ensures Eval(Zeros(n), x) == 0
  {
    hide Add; hide Mul;
    if n > 0 {
      EvalZeros(n - 1, x);
      assert Zeros(n)[1..] == Zeros(n - 1);
      MulZero(x);
      AddZero(0);
    }
  }

  lemma {:induction false} EvalPlus(p: poly, q: poly, x: byte)
    requires |p| == |q|
    ensures Eval(PlusPoly(p, q), x) == Add(Eval(p, x), Eval(q, x))
  {
    hide Add; hide Mul;
    if p == [] {
      AddZero(0);
    } else {
      EvalPlus(p[1..], q[1..], x);
      assert PlusPoly(p, q)[1..] == PlusPoly(p[1..], q[1..]);
      var u, v := Eval(p[1..], x), Eval(q[1..], x);
      MulDistributes(u, v, x);
      AddExchange(p[0], q[0], Mul(x, u), Mul(x, v));
    }
  }

  lemma {:induction false} EvalScale(c: byte, p: poly, x: byte)
    ensures Eval(ScalePoly(c, p), x) == Mul(c, Eval(p, x))
  {
    hide Add; hide Mul;
    if p == [] {
      MulZero(c);
    } else {
      EvalScale(c, p[1..], x);
      assert ScalePoly(c, p)[1..] == ScalePoly(c, p[1..]);
      var u := Eval(p[1..], x);
      MulAssociates(x, c, u);
      MulCommutes(x, c);
      MulAssociates(c, x, u);
      MulDistributes(p[0], Mul(x, u), c);
    }
  }

  lemma {:induction false} EvalPadded(p: poly, n: nat, x: byte)
    ensures Eval(p + Zeros(n), x) == Eval(p, x)
  {
    hide Add; hide Mul;
    if p == [] {
      assert p + Zeros(n) == Zeros(n);
      EvalZeros(n, x);
    } else {
      EvalPadded(p[1..], n, x);
      assert (p + Zeros(n))[1..] == p[1..] + Zeros(n);
    }
  }

  lemma EvalTimesLinear(p: poly, r: byte, x: byte)
    ensures Eval(TimesLinear(p, r), x) == Mul(Add(x, r), Eval(p, x))
  {
    hide Add; hide Mul;
    var u := Eval(p, x);
    EvalPlus([0] + p, ScalePoly(r, p) + [0], x);
    assert ([0] + p)[1..] == p;
    AddZero(Mul(x, u));
    assert Zeros(1) == [0];
    EvalPadded(ScalePoly(r, p), 1, x);
    EvalScale(r, p, x);
    MulDistributes(x, r, u);
  }

  // ---------- Roots ----------

  /** The quotient of `p` by (X + r), by synthetic division. */
  function Deflate(p: poly, r: byte): (q: poly)
    ensures |q| == if p == [] then 0 else |p| - 1
  {
    if |p| <= 1 then [] else [Eval(p[1..], r)] + Deflate(p[1..], r)
  }

  /** The remainder of that division is the value at `r`. */
  lemma {:induction false} DeflateDivides(p: poly, r: byte, x: byte)
    ensures Eval(p, x) == Add(Mul(Add(x, r), Eval(Deflate(p, r), x)), Eval(p, r))
  {
    hide Add; hide Mul;
    var s := Add(x, r);
    if |p| <= 1 {
      MulZero(s);
      AddZero(Eval(p, r));
      if p != [] {
        EvalConstant(p, x);
        EvalConstant(p, r);
      }
    } else {
      DeflateDivides(p[1..], r, x);
      var v := Eval(p[1..], r);
      var w := Eval(Deflate(p[1..], r), x);
      assert Deflate(p, r)[1..] == Deflate(p[1..], r);
      HornerStep(p[0], x, r, v, w);
    }
  }

  /** c + x ((x + r) w + v) == (x + r) (v + x w) + (c + r v). */
  lemma HornerStep(c: byte, x: byte, r: byte, v: byte, w: byte)
    ensures Add(c, Mul(x, Add(Mul(Add(x, r), w), v))) ==
            Add(Mul(Add(x, r), Add(v, Mul(x, w))), Add(c, Mul(r, v)))
  {
    hide Add; hide Mul;
    var s := Add(x, r);
    var sw, xv, rv := Mul(s, w), Mul(x, v), Mul(r, v);
    var xsw := Mul(x, sw);
    assert Mul(x, Add(sw, v)) == Add(xsw, xv) by { MulDistributes(sw, v, x); }
    assert Mul(s, Add(v, Mul(x, w))) == Add(Add(xv, rv), xsw) by {
      MulDistributes(v, Mul(x, w), s);
      MulDistributes(x, r, v);
      MulAssociates(s, x, w);
      MulCommutes(s, x);
      MulAssociates(x, s, w);
    }
    Rearrange(c, xv, rv, xsw);
  }

  lemma Rearrange(c: byte, xv: byte, rv: byte, xsw: byte)
    ensures Add(c, Add(xsw, xv)) == Add(Add(Add(xv, rv), xsw), Add(c, rv))
  {
    hide Add;
    AddCommutes(c, rv);
    AddExchange(Add(xv, rv), xsw, rv, c);
    AddAssociates(xv, rv, rv);
    AddSelf(rv);
    AddZero(xv);
    AddAssociates(xv, xsw, c);
    AddCommutes(xv, Add(xsw, c));
    AddAssociates(xsw, c, xv);
    AddCommutes(xsw, Add(c, xv));
    AddAssociates(c, xv, xsw);
    AddCommutes(xv, xsw);
  }

  /** A quotient without coefficients leaves only the constant term. */
  lemma {:induction false} DeflateToZero(p: poly, r: byte)
    requires p != [] && Deflate(p, r) == Zeros(|p| - 1)
    ensures forall k :: 1 <= k < |p| ==> p[k] == 0
    ensures Eval(p, r) == p[0]
  {
    hide Add; hide Mul;
    if |p| == 1 {
      EvalConstant(p, r);
    } else {
      assert Deflate(p, r)[0] == 0;
      assert Deflate(p, r)[1..] == Deflate(p[1..], r);
      assert Zeros(|p| - 1)[1..] == Zeros(|p| - 2);
      DeflateToZero(p[1..], r);
      assert forall k :: 1 <= k < |p| ==> p[k] == p[1..][k - 1];
      MulZero(r);
      AddZero(p[0]);
    }
  }

  /** A polynomial with as many distinct roots as coefficients is zero. */
  lemma {:induction false} TooManyRoots(p: poly, roots: seq<byte>)
    requires Distinct(roots) && |roots| == |p|
    requires forall k :: 0 <= k < |roots| ==> Eval(p, roots[k]) == 0
    ensures p == Zeros(|p|)
    decreases |p|
  {
    hide Add; hide Mul;
    if p != [] {
      var r := roots[0];
      var q, rest := Deflate(p, r), roots[1..];
      forall k | 0 <= k < |rest|
        ensures Eval(q, rest[k]) == 0
      {
        var x := rest[k];
        assert x == roots[k + 1];
        DeflateDivides(p, r, x);
        AddZero(Mul(Add(x, r), Eval(q, x)));
        AddCancels(x, r);
        NoZeroDivisors(Add(x, r), Eval(q, x));
      }
      TooManyRoots(q, rest);
      DeflateToZero(p, r);
    }
  }

  /** Two polynomials with n coefficients that agree at n distinct points are equal. */
  lemma AgreementIsEquality(p: poly, q: poly, xs: seq<byte>)
    requires Distinct(xs) && |xs| == |p| == |q|
    requires forall k :: 0 <= k < |xs| ==> Eval(p, xs[k]) == Eval(q, xs[k])
    ensures p == q
  {
    hide Add; hide Mul;
    var d := PlusPoly(p, q);
    forall k | 0 <= k < |xs|
      ensures Eval(d, xs[k]) == 0
    {
      EvalPlus(p, q, xs[k]);
      AddSelf(Eval(p, xs[k]));
    }
    TooManyRoots(d, xs);
    forall k | 0 <= k < |p|
      ensures p[k] == q[k]
    {
      assert d[k] == 0;
      AddCancels(p[k], q[k]);
    }
  }

  // ---------- Lagrange interpolation ----------

  /** The factor that sample `j` contributes to the basis polynomial of sample `i`, at `x`. */
  function Factor(xs: seq<byte>, i: nat, j: nat, x: byte): byte
    requires i < |xs| && j < |xs|
  {
    Quot(Add(x, xs[j]), Add(xs[i], xs[j]))
  }

  /** The basis polynomial of sample `i` at `x`, over the samples before `j`. */
  function Basis(xs: seq<byte>, i: nat, j: nat, x: byte): byte
    requires i < |xs| && j <= |xs|
    decreases j
  {
    if j == 0 then 1
    else if j - 1 == i then Basis(xs, i, j - 1, x)
    else Mul(Basis(xs, i, j - 1, x), Factor(xs, i, j - 1, x))
  }

  /** The interpolant of all samples at `x`, summed over the samples before `i`. */
  function Lagrange(xs: seq<byte>, ys: seq<byte>, i: nat, x: byte): byte
    requires i <= |xs| == |ys|
  {
    if i == 0 then 0
    else Add(Lagrange(xs, ys, i - 1, x), Mul(ys[i - 1], Basis(xs, i - 1, |xs|, x)))
  }

  function Interpolate(xs: seq<byte>, ys: seq<byte>, x: byte): byte
    requires |xs| == |ys|
  {
    Lagrange(xs, ys, |xs|, x)
  }

  /** With two equal x values the source panics on a division by zero; with distinct ones no
      division it performs is by zero. */
  method InterpolatePolynomial(xs: array<byte>, ys: array<byte>, x: byte) returns (result: byte)
    requires xs.Length == ys.Length && Distinct(xs[..])
    ensures result == Interpolate(xs[..], ys[..], x)
  {
    hide Add; hide Mul; hide Inv;
    var limit := xs.Length;
    result := 0;
    for i := 0 to limit
      invariant result == Lagrange(xs[..], ys[..], i, x)
    {
      var basis: byte := 1;
      for j := 0 to limit
        invariant basis == Basis(xs[..], i, j, x)
      {
        if i == j {
          continue;
        }
        var num := Add(x, xs[j]);
        var denom := Add(xs[i], xs[j]);
        assert denom != 0 by {
          AddCancels(xs[i], xs[j]);
          assert xs[..][i] == xs[i] && xs[..][j] == xs[j];
        }
        var term := Div(num, denom);
        basis := Mult(basis, term);
      }
      var group := Mult(ys[i], basis);
      result := Add(result, group);
    }
  }

  // ---------- The interpolant is a polynomial through the samples ----------

  /** The coefficients of the basis polynomial of sample `i`. */
  ghost function BasisPoly(xs: seq<byte>, i: nat, j: nat): (p: poly)
    requires i < |xs| && j <= |xs|
    ensures |p| == if j <= i then j + 1 else j
    decreases j
  {
    if j == 0 then [1]
    else if j - 1 == i then BasisPoly(xs, i, j - 1)
    else ScalePoly(Inv(Add(xs[i], xs[j - 1])), TimesLinear(BasisPoly(xs, i, j - 1), xs[j - 1]))
  }

  ghost function LagrangePoly(xs: seq<byte>, ys: seq<byte>, i: nat): (p: poly)
    requires i <= |xs| == |ys|
    ensures |p| == |xs|
  {
    if i == 0 then Zeros(|xs|)
    else PlusPoly(LagrangePoly(xs, ys, i - 1), ScalePoly(ys[i - 1], BasisPoly(xs, i - 1, |xs|)))
  }

  lemma {:induction false} EvalBasisPoly(xs: seq<byte>, i: nat, j: nat, x: byte)
    requires i < |xs| && j <= |xs|
    ensures Eval(BasisPoly(xs, i, j), x) == Basis(xs, i, j, x)
    decreases j
  {
    hide Add; hide Mul; hide Inv; hide TimesLinear; hide ScalePoly; hide Eval;
    if j == 0 {
      EvalConstant([1], x);
    } else {
      EvalBasisPoly(xs, i, j - 1, x);
      if j - 1 != i {
        var b, p, c := Basis(xs, i, j - 1, x), BasisPoly(xs, i, j - 1), Inv(Add(xs[i], xs[j - 1]));
        EvalScale(c, TimesLinear(p, xs[j - 1]), x);
        EvalTimesLinear(p, xs[j - 1], x);
        var f := Add(x, xs[j - 1]);
        MulCommutes(c, Mul(f, b));
        MulCommutes(f, b);
        MulAssociates(b, f, c);
      }
    }
  }

  lemma {:induction false} EvalLagrangePoly(xs: seq<byte>, ys: seq<byte>, i: nat, x: byte)
    requires i <= |xs| == |ys|
    ensures Eval(LagrangePoly(xs, ys, i), x) == Lagrange(xs, ys, i, x)
  {
    hide Add; hide Mul; hide Inv; hide Eval; hide PlusPoly; hide ScalePoly; hide Basis; hide BasisPoly;
    if i == 0 {
      EvalZeros(|xs|, x);
    } else {
      EvalLagrangePoly(xs, ys, i - 1, x);
      var b := BasisPoly(xs, i - 1, |xs|);
      EvalPlus(LagrangePoly(xs, ys, i - 1), ScalePoly(ys[i - 1], b), x);
      EvalScale(ys[i - 1], b, x);
      EvalBasisPoly(xs, i - 1, |xs|, x);
    }
  }

  /** At sample `k` the basis of `i` is 1 when i == k; otherwise the factor of `k` makes it 0. */
  lemma {:induction false} BasisAtSample(xs: seq<byte>, i: nat, j: nat, k: nat)
    requires Distinct(xs) && i < |xs| && j <= |xs| && k < |xs|
    ensures i == k ==> Basis(xs, i, j, xs[k]) == 1
    ensures i != k && k < j ==> Basis(xs, i, j, xs[k]) == 0
    decreases j
  {
    hide Add; hide Mul; hide Inv; hide Quot;
    if j > 0 {
      BasisAtSample(xs, i, j - 1, k);
      if j - 1 != i {
        var d := Add(xs[i], xs[j - 1]);
        AddCancels(xs[i], xs[j - 1]);
        QuotTimes(d, d);
        MulOne(1);
        AddSelf(xs[k]);
        MulZero(Basis(xs, i, j - 1, xs[k]));
        MulZero(Factor(xs, i, j - 1, xs[k]));
      }
    }
  }

  lemma {:induction false} LagrangeAtSample(xs: seq<byte>, ys: seq<byte>, i: nat, k: nat)
    requires Distinct(xs) && i <= |xs| == |ys| && k < |xs|
    ensures Lagrange(xs, ys, i, xs[k]) == if k < i then ys[k] else 0
  {
    hide Add; hide Mul; hide Basis;
    if i > 0 {
      LagrangeAtSample(xs, ys, i - 1, k);
      BasisAtSample(xs, i - 1, |xs|, k);
      MulOne(ys[i - 1]);
      MulZero(ys[i - 1]);
      AddZero(Lagrange(xs, ys, i - 1, xs[k]));
      AddZero(ys[i - 1]);
    }
  }

  /** The interpolation polynomial passes through every sample. */
  lemma InterpolantFits(xs: seq<byte>, ys: seq<byte>)
    requires Distinct(xs) && |xs| == |ys|
    ensures var p := LagrangePoly(xs, ys, |xs|);
            forall k :: 0 <= k < |xs| ==> Eval(p, xs[k]) == ys[k]
  {
    forall k | 0 <= k < |xs|
      ensures Eval(LagrangePoly(xs, ys, |xs|), xs[k]) == ys[k]
    {
      EvalLagrangePoly(xs, ys, |xs|, xs[k]);
      LagrangeAtSample(xs, ys, |xs|, k);
    }
  }

  // ---------- Main results ----------

  /** Interpolating samples of a polynomial with at most as many coefficients as samples gives
      its value at every point, not only at 0. */
  lemma InterpolationIsExact(p: poly, xs: seq<byte>, ys: seq<byte>, x: byte)
    requires Distinct(xs) && |p| <= |xs| == |ys|
    requires forall k :: 0 <= k < |xs| ==> ys[k] == Eval(p, xs[k])
    ensures Interpolate(xs, ys, x) == Eval(p, x)
  {
    hide Eval; hide LagrangePoly; hide Lagrange;
    var q := p + Zeros(|xs| - |p|);
    var l := LagrangePoly(xs, ys, |xs|);
    InterpolantFits(xs, ys);
    forall k | 0 <= k < |xs|
      ensures Eval(q, xs[k]) == Eval(l, xs[k])
    {
      EvalPadded(p, |xs| - |p|, xs[k]);
    }
    AgreementIsEquality(q, l, xs);
    EvalPadded(p, |xs| - |p|, x);
    EvalLagrangePoly(xs, ys, |xs|, x);
  }

  ghost predicate IsSample(xs: seq<byte>, ys: seq<byte>, x: byte, y: byte)
    requires |xs| == |ys|
  {
    exists i :: 0 <= i < |xs| && xs[i] == x && ys[i] == y
  }

  /** Interpolation depends on the set of samples only: listing them in another order changes
      the value nowhere. */
  lemma InterpolationIgnoresOrder(xs: seq<byte>, ys: seq<byte>, us: seq<byte>, vs: seq<byte>, x: byte)
    requires Distinct(xs) && Distinct(us) && |xs| == |ys| == |us| == |vs|
    requires forall k :: 0 <= k < |us| ==> IsSample(xs, ys, us[k], vs[k])
    ensures Interpolate(us, vs, x) == Interpolate(xs, ys, x)
  {
    var l := LagrangePoly(xs, ys, |xs|);
    InterpolantFits(xs, ys);
    InterpolationIsExact(l, us, vs, x);
    EvalLagrangePoly(xs, ys, |xs|, x);
  }

  ghost predicate PassesThrough(p: poly, xs: seq<byte>, ys: seq<byte>)
    requires |xs| == |ys|
  {
    forall k :: 0 <= k < |xs| ==> Eval(p, xs[k]) == ys[k]
  }

  /** One point short of the number of coefficients, every constant term is still possible, in
      exactly one way: the points say nothing about the value at 0. */
  lemma ExactlyOnePolynomial(xs: seq<byte>, ys: seq<byte>, intercept: byte) returns (p: poly)
    requires Distinct(xs) && |xs| == |ys| && 0 !in xs
    ensures |p| == |xs| + 1 && p[0] == intercept && PassesThrough(p, xs, ys)
    ensures forall q: poly :: |q| == |xs| + 1 && q[0] == intercept && PassesThrough(q, xs, ys) ==> q == p
  {
    hide Eval; hide LagrangePoly;
    var us, vs := [0] + xs, [intercept] + ys;
    p := LagrangePoly(us, vs, |us|);
    InterpolantFits(us, vs);
    assert us[0] == 0 && vs[0] == intercept;
    EvalAtZero(p);
    assert forall k :: 0 <= k < |xs| ==> us[k + 1] == xs[k] && vs[k + 1] == ys[k];
    forall q: poly | |q| == |xs| + 1 && q[0] == intercept && PassesThrough(q, xs, ys)
      ensures q == p
    {
      EvalAtZero(q);
      forall k | 0 <= k < |us|
        ensures Eval(q, us[k]) == Eval(p, us[k])
      {
        if k > 0 {
          assert us[k] == xs[k - 1];
        }
      }
      AgreementIsEquality(q, p, us);
    }
  }
}
