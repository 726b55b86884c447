/**
 Split and Combine of shamir/shamir.go: recovery of the secret from any threshold of shares,
 and the secrecy of fewer.
 */
module Shamir {
  import opened GF256
  import opened Polynomials
  import opened Results

  // ---------- Share tags ----------

  function Successor(b: byte): byte {
    b + 1
  }

  /** The conversion uint8(i), which wraps around at 256. */
  function ToByte(i: nat): byte {
    if i == 0 then 0 else Successor(ToByte(i - 1))
  }

  function FromByte(b: byte): nat {
    b as int
  }

  /** The x coordinate of share `i`: uint8(i) + 1 in the byte arithmetic of the source. */
  function Tag(i: nat): byte {
    Successor(ToByte(i))
  }

  lemma SuccessorWraps(b: byte)
    ensures FromByte(Successor(b)) == if b == 255 then 0 else FromByte(b) + 1
  {}

  lemma FromByteExtremes()
    ensures FromByte(0) == 0 && FromByte(255) == 255
  {}

  lemma {:induction false} FromToByte(i: nat)
    requires i <= 256
    ensures FromByte(ToByte(i)) == if i == 256 then 0 else i
  {
    FromByteExtremes();
    hide Successor; hide FromByte;
    if i > 0 {
      FromToByte(i - 1);
      SuccessorWraps(ToByte(i - 1));
      if i == 256 {
        OnlyMaximum(ToByte(255));
      }
    }
  }

  lemma OnlyMaximum(b: byte)
    requires FromByte(b) == 255
    ensures b == 255
  {}

  /** With at most 255 parts, the byte addition never wraps: tags are distinct and not zero. */
  lemma TagsDoNotWrap(i: nat, j: nat)
    requires i < 255 && j < 255
    ensures FromByte(Tag(i)) == i + 1
    ensures Tag(i) != 0
    ensures i != j ==> Tag(i) != Tag(j)
  {
    FromByteExtremes();
    hide Successor; hide FromByte;
    FromToByte(i + 1);
    FromToByte(j + 1);
    assert Tag(i) == ToByte(i + 1) && Tag(j) == ToByte(j + 1);
    hide ToByte; hide Tag;
  }

  /** The bound of 255 parts is tight: the next tag would be 0, where the secret lies. */
  lemma NextTagWraps()
    ensures FromByte(Tag(255)) == 0
  {
    FromToByte(256);
    hide Successor; hide FromByte;
    assert Tag(255) == ToByte(256);
  }

  // ---------- Split ----------

  /** Whether `polys` are polynomials that makePolynomial can produce for the bytes of `secret`. */
  ghost predicate Hides(polys: seq<poly>, secret: seq<byte>, threshold: nat) {
    && |polys| == |secret|
    && forall k :: 0 <= k < |polys| ==> |polys[k]| == threshold > 0 && polys[k][0] == secret[k]
  }

  /** Share `i`: the values of the polynomials at its tag, followed by the tag. */
  function Share(polys: seq<poly>, i: nat): (s: seq<byte>)
    ensures |s| == |polys| + 1
  {
    seq(|polys|, k requires 0 <= k < |polys| => Eval(polys[k], Tag(i))) + [Tag(i)]
  }

  /** Byte by byte: the last byte of share `i` is i + 1, and each byte in front of it is the value of
      its polynomial there. */
  lemma ShareLayout(polys: seq<poly>, i: nat)
    requires i < 255
    ensures FromByte(Share(polys, i)[|polys|]) == i + 1
    ensures forall k :: 0 <= k < |polys| ==> Share(polys, i)[k] == Eval(polys[k], Share(polys, i)[|polys|])
  {
    TagsDoNotWrap(i, i);
    hide Tag; hide Eval; hide FromByte;
  }

  function Shares(polys: seq<poly>, parts: nat): (r: seq<seq<byte>>)
    ensures |r| == parts
  {
    seq(parts, i requires 0 <= i < parts => Share(polys, i))
  }

  const RAND_FAILED := "failed to generate polynomial"

  /** rand.Read fills the coefficients above the intercept with arbitrary bytes, or fails. In
      byte arithmetic degree + 1 is 0 for degree 255, which would leave no room for the
      intercept; Split never asks for that. */
  method MakePolynomial(intercept: byte, degree: nat) returns (r: Result<poly>)
    requires degree < 255
    ensures r.Ok? ==> |r.value| == degree + 1 && r.value[0] == intercept
    ensures r.Err? ==> r.error == RAND_FAILED
  {
    var coefficients := new byte[degree + 1];
    coefficients[0] := intercept;
    for i := 1 to coefficients.Length
      invariant coefficients[0] == intercept
    {
      var random: byte := *;
      coefficients[i] := random;
    }
    var failed: bool := *;
    if failed {
      return Err(RAND_FAILED);
    }
    return Ok(coefficients[..]);
  }

  /** The five errors, each with the arguments it is for; the fourth cannot occur, as the second
      and the first come before it. The choice of coefficients is the ghost result: whatever it
      was, the shares are its shares. */
  method Split(secret: seq<byte>, parts: int, threshold: int)
    returns (r: Result<seq<seq<byte>>>, ghost polys: seq<poly>)
    ensures r.Ok? || r == Err(RAND_FAILED) <==> 2 <= threshold <= parts <= 255 && secret != []
    ensures parts < threshold ==> r == Err("parts cannot be less than threshold")
    ensures threshold <= parts && 255 < parts ==> r == Err("parts cannot exceed 255")
    ensures threshold <= parts <= 255 && threshold < 2 ==> r == Err("threshold must be at least 2")
    ensures r != Err("threshold cannot exceed 255")
    ensures 2 <= threshold <= parts <= 255 && secret == [] ==> r == Err("cannot split an empty secret")
    ensures r.Ok? ==> Hides(polys, secret, threshold) && r.value == Shares(polys, parts)
  {
    polys := [];
    if parts < threshold {
      return Err("parts cannot be less than threshold"), polys;
    }
    if parts > 255 {
      return Err("parts cannot exceed 255"), polys;
    }
    if threshold < 2 {
      return Err("threshold must be at least 2"), polys;
    }
    if threshold > 255 {
      return Err("threshold cannot exceed 255"), polys;
    }
    if |secret| == 0 {
      return Err("cannot split an empty secret"), polys;
    }
    hide Tag; hide Eval;
    var out := new byte[parts, |secret| + 1];
    for idx := 0 to parts
      invariant forall i :: 0 <= i < idx ==> out[i, |secret|] == Tag(i)
    {
      out[idx, |secret|] := Tag(idx);
    }
    for idx := 0 to |secret|
      invariant Hides(polys, secret[..idx], threshold)
      invariant forall i :: 0 <= i < parts ==> out[i, |secret|] == Tag(i)
      invariant forall i, k :: 0 <= i < parts && 0 <= k < idx ==> out[i, k] == Eval(polys[k], Tag(i))
    {
      var p := MakePolynomial(secret[idx], threshold - 1);
      if p.Err? {
        return Err(p.error), polys;
      }
      polys := polys + [p.value];
      FillColumn(out, p.value, idx);
    }
    var shares := Rows(out);
    assert shares == Shares(polys, parts) by {
      forall i | 0 <= i < parts
        ensures shares[i] == Share(polys, i)
      {
        assert forall k :: 0 <= k < |secret| ==> shares[i][k] == Eval(polys[k], Tag(i));
      }
    }
    return Ok(shares), polys;
  }

  /** The inner loop of Split: byte `idx` of every share is the value of `p` at its tag. */
  method FillColumn(out: array2<byte>, p: poly, idx: nat)
    requires p != [] && idx < out.Length1
    modifies out
    ensures forall i :: 0 <= i < out.Length0 ==> out[i, idx] == Eval(p, Tag(i))
    ensures forall i, k :: 0 <= i < out.Length0 && 0 <= k < out.Length1 && k != idx ==> out[i, k] == old(out[i, k])
  {
    hide Tag; hide Eval;
    for i := 0 to out.Length0
      invariant forall j :: 0 <= j < i ==> out[j, idx] == Eval(p, Tag(j))
      invariant forall j, k :: 0 <= j < out.Length0 && 0 <= k < out.Length1 && k != idx ==> out[j, k] == old(out[j, k])
    {
      var x := Tag(i);
      var y := Evaluate(p, x);
      out[i, idx] := y;
    }
  }

  /** The rows of a table, as the slices they are in the source. */
  method Rows(table: array2<byte>) returns (rows: seq<seq<byte>>)
    ensures |rows| == table.Length0
    ensures forall i :: 0 <= i < |rows| ==> |rows[i]| == table.Length1
    ensures forall i, k :: 0 <= i < |rows| && 0 <= k < table.Length1 ==> rows[i][k] == table[i, k]
  {
    rows := [];
    for i := 0 to table.Length0
      invariant |rows| == i
      invariant forall j :: 0 <= j < i ==> |rows[j]| == table.Length1
      invariant forall j, k :: 0 <= j < i && 0 <= k < table.Length1 ==> rows[j][k] == table[j, k]
    {
      var row := new byte[table.Length1];
      for k := 0 to table.Length1
        invariant forall l :: 0 <= l < k ==> row[l] == table[i, l]
      {
        row[k] := table[i, k];
      }
      rows := rows + [row[..]];
    }
  }

  // ---------- Combine ----------

  ghost predicate SameLength(parts: seq<seq<byte>>) {
    forall i :: 0 <= i < |parts| ==> |parts[i]| == |parts[0]|
  }

  /** The last byte of every part. */
  ghost function Tags(parts: seq<seq<byte>>): (xs: seq<byte>)
    requires parts != [] && SameLength(parts) && parts[0] != []
    ensures |xs| == |parts|
  {
    seq(|parts|, i requires 0 <= i < |parts| => parts[i][|parts[0]| - 1])
  }

  /** Byte `k` of every part. */
  ghost function Samples(parts: seq<seq<byte>>, k: nat): (ys: seq<byte>)
    requires parts != [] && SameLength(parts) && k < |parts[0]|
    ensures |ys| == |parts|
  {
    assert forall i :: 0 <= i < |parts| ==> k < |parts[i]|;
    seq(|parts|, i requires 0 <= i < |parts| => parts[i][k])
  }

  /** What Combine returns: an error for the first check that fails, or the value at 0 of the
      interpolant of every byte position. */
  ghost function Combined(parts: seq<seq<byte>>): (r: Result<seq<byte>>)
    ensures r.Ok? ==> parts != [] && |r.value| == |parts[0]| - 1
  {
    if |parts| < 2 then Err("less than two parts cannot be used to reconstruct the secret")
    else if |parts[0]| < 2 then Err("parts must be at least two bytes")
    else if !SameLength(parts) then Err("all parts must be the same length")
    else if !Distinct(Tags(parts)) then Err("duplicate part detected")
    else Ok(seq(|parts[0]| - 1, k requires 0 <= k < |parts[0]| - 1 =>
                Interpolate(Tags(parts), Samples(parts, k), 0)))
  }

  /** The x samples, and whether one of them occurs twice. The source's map only ever holds
      true, so it is a set here; the source returns at the first duplicate, and the samples are
      not used then. */
  method ReadTags(parts: seq<seq<byte>>, last: nat) returns (xSamples: array<byte>, duplicate: bool)
    requires forall i :: 0 <= i < |parts| ==> last < |parts[i]|
    ensures fresh(xSamples) && xSamples.Length == |parts|
    ensures forall i :: 0 <= i < |parts| ==> xSamples[i] == parts[i][last]
    ensures duplicate <==> !Distinct(xSamples[..])
  {
    xSamples := new byte[|parts|];
    duplicate := false;
    var checkMap: set<byte> := {};
    ghost var seen: seq<byte> := [];
    for i := 0 to |parts|
      invariant |seen| == i
      invariant forall j :: 0 <= j < i ==> xSamples[j] == seen[j] == parts[j][last]
      invariant forall b :: b in checkMap <==> b in seen
      invariant duplicate <==> !Distinct(seen)
    {
      var samp := parts[i][last];
      assert Distinct(seen + [samp]) <==> Distinct(seen) && samp !in seen by {
        DistinctSnoc(seen, samp);
      }
      if samp in checkMap {
        duplicate := true;
      }
      checkMap := checkMap + {samp};
      xSamples[i] := samp;
      seen := seen + [samp];
    }
    assert xSamples[..] == seen;
  }

  lemma DistinctSnoc(xs: seq<byte>, x: byte)
    ensures Distinct(xs + [x]) <==> Distinct(xs) && x !in xs
  {
    var ys := xs + [x];
    if Distinct(ys) {
      assert forall i :: 0 <= i < |xs| ==> xs[i] == ys[i] && ys[|xs|] == x;
    }
  }

  method ReadSamples(parts: seq<seq<byte>>, idx: nat, ySamples: array<byte>)
    requires parts != [] && SameLength(parts) && idx < |parts[0]|
    requires ySamples.Length == |parts|
    modifies ySamples
    ensures ySamples[..] == Samples(parts, idx)
  {
    for i := 0 to |parts|
      invariant forall j :: 0 <= j < i ==> ySamples[j] == parts[j][idx]
    {
      assert |parts[i]| == |parts[0]|;
      ySamples[i] := parts[i][idx];
    }
  }

  /** Each byte of the secret, from the same bytes of the parts. */
  method Reconstruct(parts: seq<seq<byte>>, xSamples: array<byte>) returns (r: seq<byte>)
    requires parts != [] && SameLength(parts) && parts[0] != []
    requires xSamples[..] == Tags(parts) && Distinct(Tags(parts))
    ensures |r| == |parts[0]| - 1
    ensures forall k :: 0 <= k < |r| ==> r[k] == Interpolate(Tags(parts), Samples(parts, k), 0)
  {
    hide Interpolate; hide Samples; hide Tags; hide SameLength; hide Distinct;
    ghost var tags := Tags(parts);
    var secret := new byte[|parts[0]| - 1];
    var ySamples := new byte[|parts|];
    for idx := 0 to |parts[0]| - 1
      invariant xSamples[..] == tags
      invariant forall k :: 0 <= k < idx ==> secret[k] == Interpolate(tags, Samples(parts, k), 0)
    {
      ReadSamples(parts, idx, ySamples);
      var val := InterpolatePolynomial(xSamples, ySamples, 0);
      secret[idx] := val;
    }
    return secret[..];
  }

  method Combine(parts: seq<seq<byte>>) returns (r: Result<seq<byte>>)
    ensures r == Combined(parts)
  {
    if |parts| < 2 {
      return Err("less than two parts cannot be used to reconstruct the secret");
    }
    var firstPartLen := |parts[0]|;
    if firstPartLen < 2 {
      return Err("parts must be at least two bytes");
    }
    for i := 1 to |parts|
      invariant forall j :: 0 <= j < i ==> |parts[j]| == firstPartLen
    {
      if |parts[i]| != firstPartLen {
        return Err("all parts must be the same length");
      }
    }
    var xSamples, duplicate := ReadTags(parts, firstPartLen - 1);
    assert xSamples[..] == Tags(parts);
    if duplicate {
      return Err("duplicate part detected");
    }
    hide Interpolate; hide Samples; hide Tags;
    var secret := Reconstruct(parts, xSamples);
    assert secret == Combined(parts).value;
    return Ok(secret);
  }

  // ---------- Main results ----------

  ghost predicate DistinctIndices(chosen: seq<nat>, parts: nat) {
    && (forall i :: 0 <= i < |chosen| ==> chosen[i] < parts)
    && forall i, j :: 0 <= i < j < |chosen| ==> chosen[i] != chosen[j]
  }

  /** The shares with the given numbers, in the given order. */
  function Pick(polys: seq<poly>, chosen: seq<nat>): (r: seq<seq<byte>>)
    ensures |r| == |chosen|
  {
    seq(|chosen|, i requires 0 <= i < |chosen| => Share(polys, chosen[i]))
  }

  /** Any threshold or more distinct shares, in any order, give the secret back, whatever
      coefficients were drawn. */
  lemma AnyThresholdRecovers(secret: seq<byte>, parts: nat, threshold: nat, polys: seq<poly>, chosen: seq<nat>)
    requires 2 <= threshold <= parts <= 255 && secret != []
    requires Hides(polys, secret, threshold)
    requires DistinctIndices(chosen, parts) && |chosen| >= threshold
    ensures Combined(Pick(polys, chosen)) == Ok(secret)
  {
    hide Tag; hide Eval; hide Interpolate;
    var picked := Pick(polys, chosen);
    var tags := Tags(picked);
    forall i, j | 0 <= i < j < |tags|
      ensures tags[i] != tags[j]
    {
      TagsDoNotWrap(chosen[i], chosen[j]);
      assert tags[i] == Tag(chosen[i]) && tags[j] == Tag(chosen[j]);
    }
    forall k | 0 <= k < |secret|
      ensures Interpolate(tags, Samples(picked, k), 0) == secret[k]
    {
      InterpolationIsExact(polys[k], tags, Samples(picked, k), 0);
      EvalAtZero(polys[k]);
    }
    assert Combined(picked).value == secret;
  }

  /** On arbitrary input, Combine reports an error or returns one byte less than a part; it
      succeeds exactly for two or more parts of one length above 1 with distinct last bytes. */
  lemma CombineSucceedsExactly(parts: seq<seq<byte>>)
    ensures Combined(parts).Ok? <==>
            |parts| >= 2 && SameLength(parts) && |parts[0]| >= 2 && Distinct(Tags(parts))
    ensures Combined(parts).Ok? ==> forall i :: 0 <= i < |parts| ==> |parts[i]| == |Combined(parts).value| + 1
  {
    hide Interpolate;
    if Combined(parts).Ok? {
      assert forall i :: 0 <= i < |parts| ==> |parts[i]| == |parts[0]|;
    }
  }

  /** Of several errors, the first one in this order is reported. */
  lemma CombineErrors(parts: seq<seq<byte>>)
    ensures var r := Combined(parts);
            if |parts| < 2 then r == Err("less than two parts cannot be used to reconstruct the secret")
            else if |parts[0]| < 2 then r == Err("parts must be at least two bytes")
            else if exists i :: 0 <= i < |parts| && |parts[i]| != |parts[0]| then
              r == Err("all parts must be the same length")
            else (exists i, j :: 0 <= i < j < |parts| && parts[i][|parts[i]| - 1] == parts[j][|parts[j]| - 1]) <==>
                 r == Err("duplicate part detected")
  {
    hide Interpolate; hide Samples;
    if |parts| >= 2 && |parts[0]| >= 2 && SameLength(parts) {
      var tags := Tags(parts);
      assert forall i :: 0 <= i < |parts| ==> tags[i] == parts[i][|parts[i]| - 1];
    }
  }

  /** The order of the parts does not matter to Combine. */
  lemma CombineIgnoresOrder(parts: seq<seq<byte>>, others: seq<seq<byte>>)
    requires Combined(parts).Ok? && Combined(others).Ok? && |parts| == |others|
    requires forall i :: 0 <= i < |others| ==> others[i] in parts
    ensures Combined(others) == Combined(parts)
  {
    hide Interpolate;
    assert others[0] in parts;
    assert |others[0]| == |parts[0]|;
    var xs, us := Tags(parts), Tags(others);
    forall k | 0 <= k < |parts[0]| - 1
      ensures Interpolate(us, Samples(others, k), 0) == Interpolate(xs, Samples(parts, k), 0)
    {
      var ys, vs := Samples(parts, k), Samples(others, k);
      forall j | 0 <= j < |us|
        ensures IsSample(xs, ys, us[j], vs[j])
      {
        assert others[j] in parts;
        var i :| 0 <= i < |parts| && parts[i] == others[j];
        assert xs[i] == us[j] && ys[i] == vs[j];
      }
      InterpolationIgnoresOrder(xs, ys, us, vs, 0);
    }
    assert Combined(others).value == Combined(parts).value;
  }

  /** One share short of the threshold, every secret of the right length explains the shares,
      by exactly one choice of coefficients: the shares favour no secret over another. */
  lemma TooFewSharesRevealNothing(polys: seq<poly>, threshold: nat, chosen: seq<nat>, candidate: seq<byte>)
      returns (explanation: seq<poly>)
    requires 1 <= threshold && DistinctIndices(chosen, 255) && |chosen| == threshold - 1
    requires |candidate| == |polys|
    ensures Hides(explanation, candidate, threshold) && Pick(explanation, chosen) == Pick(polys, chosen)
    ensures forall other :: Hides(other, candidate, threshold) && Pick(other, chosen) == Pick(polys, chosen)
                            ==> other == explanation
  {
    hide Tag; hide Eval;
    var xs: seq<byte> := seq(|chosen|, i requires 0 <= i < |chosen| => Tag(chosen[i]));
    forall i, j | 0 <= i < j < |xs|
      ensures xs[i] != xs[j]
    {
      TagsDoNotWrap(chosen[i], chosen[j]);
    }
    forall i | 0 <= i < |xs|
      ensures xs[i] != 0
    {
      TagsDoNotWrap(chosen[i], chosen[i]);
    }
    explanation := [];
    while |explanation| < |polys|
      invariant |explanation| <= |polys|
      invariant forall k :: 0 <= k < |explanation| ==>
        Explains(explanation[k], candidate[k], xs, Values(polys[k], xs), threshold)
    {
      var k := |explanation|;
      var p := ExactlyOnePolynomial(xs, Values(polys[k], xs), candidate[k]);
      explanation := explanation + [p];
    }
    forall i | 0 <= i < |chosen|
      ensures Pick(explanation, chosen)[i] == Pick(polys, chosen)[i]
    {
      assert xs[i] == Tag(chosen[i]);
    }
    forall other | Hides(other, candidate, threshold) && Pick(other, chosen) == Pick(polys, chosen)
      ensures other == explanation
    {
      forall k | 0 <= k < |polys|
        ensures other[k] == explanation[k]
      {
        forall i | 0 <= i < |xs|
          ensures Eval(other[k], xs[i]) == Values(polys[k], xs)[i]
        {
          assert Pick(other, chosen)[i][k] == Pick(polys, chosen)[i][k];
        }
      }
    }
  }

  ghost function Values(p: poly, xs: seq<byte>): (ys: seq<byte>)
    ensures |ys| == |xs|
  {
    seq(|xs|, i requires 0 <= i < |xs| => Eval(p, xs[i]))
  }

  /** `p` is the only polynomial with `threshold` coefficients and this constant term through
      the given points. */
  ghost predicate Explains(p: poly, intercept: byte, xs: seq<byte>, ys: seq<byte>, threshold: nat)
    requires |xs| == |ys|
  {
    && |p| == threshold > 0 && p[0] == intercept && PassesThrough(p, xs, ys)
    && forall q: poly :: |q| == threshold && q[0] == intercept && PassesThrough(q, xs, ys) ==> q == p
  }
}
