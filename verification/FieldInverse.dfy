/**
 Powers, the inversion chain and division of shamir/shamir.go, in the field GF(2^8).
 */
module FieldInverse {
  import opened GF256
  import opened FieldLaws

  function Pow(a: byte, n: nat): byte {
    if n == 0 then 1 else Mul(a, Pow(a, n - 1))
  }

  lemma {:induction false} PowAdds(a: byte, m: nat, n: nat)
    ensures Pow(a, m + n) == Mul(Pow(a, m), Pow(a, n))
  {
    hide Mul;
    if m == 0 {
      MulOne(Pow(a, n));
    } else {
      PowAdds(a, m - 1, n);
      MulAssociates(a, Pow(a, m - 1), Pow(a, n));
    }
  }

  /** The chain of eleven products raises `a` to the power 254. */
  method Inverse(a: byte) returns (r: byte)
    ensures r == Inv(a)
  {
    hide Mul;
    PowerOne(a);
    PowAdds(a, 1, 1);
    var b := Mult(a, a);
    PowAdds(a, 1, 2);
    var c := Mult(a, b);
    PowAdds(a, 3, 3);
    b := Mult(c, c);
    PowAdds(a, 6, 6);
    b := Mult(b, b);
    PowAdds(a, 12, 3);
    c := Mult(b, c);
    PowAdds(a, 12, 12);
    b := Mult(b, b);
    PowAdds(a, 24, 24);
    b := Mult(b, b);
    PowAdds(a, 48, 15);
    b := Mult(b, c);
    PowAdds(a, 63, 63);
    b := Mult(b, b);
    PowAdds(a, 1, 126);
    b := Mult(a, b);
    PowAdds(a, 127, 127);
    hide Pow;
    r := Mult(b, b);
  }

  function Inv(a: byte): byte {
    Pow(a, 254)
  }

  lemma PowerOne(a: byte)
    ensures Pow(a, 1) == a
  {
    MulOne(a);
    hide Mul;
    assert Pow(a, 0) == 1;
  }

  /** The bit of `a` at position `k` times the constant `c`. */
  function Column(a: byte, k: byte, c: byte): byte
    requires k < 8
  {
    (-((a >> k) & 1)) & c
  }

  /** The linear map that takes X^k to the k-th constant. */
  function LinearMap(a: byte, c0: byte, c1: byte, c2: byte, c3: byte,
                     c4: byte, c5: byte, c6: byte, c7: byte): byte
  {
    Column(a, 0, c0) ^ Column(a, 1, c1) ^ Column(a, 2, c2) ^ Column(a, 3, c3) ^
    Column(a, 4, c4) ^ Column(a, 5, c5) ^ Column(a, 6, c6) ^ Column(a, 7, c7)
  }

  /** Squaring, raising to the 4th and raising to the 16th power are linear maps. */
  function Square(a: byte): byte {
    LinearMap(a, 0x01, 0x04, 0x10, 0x40, 0x1B, 0x6C, 0xAB, 0x9A)
  }

  function Fourth(a: byte): byte {
    LinearMap(a, 0x01, 0x10, 0x1B, 0xAB, 0x5E, 0x97, 0xB3, 0xC5)
  }

  function Sixteenth(a: byte): byte {
    LinearMap(a, 0x01, 0x5E, 0xE4, 0xE8, 0x4D, 0x91, 0x1D, 0x6C)
  }

  lemma SquareTwice(a: byte)
    ensures Square(Square(a)) == Fourth(a)
  {}

  lemma FourthTwice(a: byte)
    ensures Fourth(Fourth(a)) == Sixteenth(a)
  {}

  lemma SixteenthTwice(a: byte)
    ensures Sixteenth(Sixteenth(a)) == a
  {}

  lemma SquareFixesOnlyZeroAndOne(a: byte)
    requires Square(a) == a
    ensures a == 0 || a == 1
  {}

  lemma SquareHalved(c: byte)
    ensures Add(c & 1, XTimes(XTimes(Square(c >> 1)))) == Square(c)
  {}

  lemma ShiftedOnce(b: byte, i: byte)
    requires i < 8
    ensures b >> (i + 1) == (b >> i) >> 1 && Masked(1, b, i) == (b >> i) & 1
  {}

  lemma SquareStep(b: byte, i: byte)
    requires i < 8
    ensures Add(Masked(1, b, i), XTimes(XTimes(Square(b >> (i + 1))))) == Square(b >> i)
  {
    hide Add; hide Masked; hide XTimes; hide Square;
    ShiftedOnce(b, i);
    SquareHalved(b >> i);
  }

  lemma MaskedOneSquared(b: byte, i: byte)
    requires i < 8
    ensures Mul(Masked(1, b, i), Masked(1, b, i)) == Masked(1, b, i)
  {
    MulOne(1);
    MulZero(0);
    hide Mul;
  }

  lemma SumSquared(a: byte, b: byte)
    ensures Mul(Add(a, b), Add(a, b)) == Add(Mul(a, a), Mul(b, b))
  {
    MulDistributes(a, b, Add(a, b));
    MulDistributes(a, b, a);
    MulDistributes(a, b, b);
    MulCommutes(a, b);
    var aa, ab, bb := Mul(a, a), Mul(a, b), Mul(b, b);
    hide Mul; hide Add;
    AddCommutes(ab, bb);
    AddExchange(aa, ab, bb, ab);
    AddSelf(ab);
    AddZero(Add(aa, bb));
  }

  lemma XTimesSquared(a: byte)
    ensures Mul(XTimes(a), XTimes(a)) == XTimes(XTimes(Mul(a, a)))
  {
    AccXTimes(a, XTimes(a), 0);
    MulCommutes(a, XTimes(a));
    AccXTimes(a, a, 0);
    hide XTimes;
  }

  lemma {:induction false} AccOneSquared(b: byte, i: byte)
    requires i <= 8
    ensures Mul(Acc(1, b, i), Acc(1, b, i)) == Square(b >> i)
    decreases 8 - i
  {
    if i == 8 {
      MulZero(0);
      hide Mul;
    } else {
      AccOneSquared(b, i + 1);
      SumSquared(Masked(1, b, i), XTimes(Acc(1, b, i + 1)));
      MaskedOneSquared(b, i);
      XTimesSquared(Acc(1, b, i + 1));
      SquareStep(b, i);
      hide Mul; hide Add; hide XTimes; hide Masked; hide Square;
    }
  }

  lemma MulSelfIsSquare(a: byte)
    ensures Mul(a, a) == Square(a)
  {
    AccOne(a, 0);
    AccOneSquared(a, 0);
    hide Mul; hide Square; hide Acc;
  }

  lemma PowTimesFour(a: byte, n: nat)
    ensures Pow(a, 4 * n) == Fourth(Pow(a, n))
  {
    hide Mul; hide Square; hide Fourth; hide Pow;
    var x := Pow(a, n);
    PowAdds(a, n, n);
    PowAdds(a, 2 * n, 2 * n);
    MulSelfIsSquare(x);
    MulSelfIsSquare(Square(x));
    SquareTwice(x);
  }

  /** Fermat: a^256 == a, because squaring eight times is the identity map. */
  lemma PowerOfFieldSize(a: byte)
    ensures Pow(a, 256) == a
  {
    hide Mul; hide Square; hide Fourth; hide Sixteenth;
    PowerOne(a);
    PowTimesFour(a, 1);
    PowTimesFour(a, 4);
    FourthTwice(a);
    PowTimesFour(a, 16);
    PowTimesFour(a, 64);
    FourthTwice(Sixteenth(a));
    SixteenthTwice(a);
  }

  /** Inverse computes the inverse: a * a^254 is idempotent, hence 0 or 1, and 0 only for a == 0. */
  lemma InverseInverts(a: byte)
    ensures a != 0 ==> Mul(a, Inv(a)) == 1
    ensures Inv(0) == 0
  {
    hide Mul; hide Square;
    var u := Pow(a, 255);
    assert u == Mul(a, Inv(a));
    PowerOfFieldSize(a);
    PowAdds(a, 255, 255);
    PowAdds(a, 256, 254);
    MulSelfIsSquare(u);
    SquareFixesOnlyZeroAndOne(u);
    MulZero(a);
    assert Pow(a, 256) == Mul(a, u);
    assert Inv(0) == Mul(0, Pow(0, 253));
    MulZero(Pow(0, 253));
  }

  lemma NoZeroDivisors(a: byte, b: byte)
    ensures Mul(a, b) == 0 <==> a == 0 || b == 0
  {
    MulZero(a);
    MulZero(b);
    if a != 0 && Mul(a, b) == 0 {
      InverseInverts(a);
      MulCommutes(a, Inv(a));
      MulAssociates(Inv(a), a, b);
      MulZero(Inv(a));
      MulOne(b);
    }
    hide Mul;
  }

  // ---------- Division ----------

  function Quot(a: byte, b: byte): byte {
    Mul(a, Inv(b))
  }

  /** The source panics when `b` is zero; no caller can reach that. */
  method Div(a: byte, b: byte) returns (r: byte)
    requires b != 0
    ensures r == Quot(a, b) && Mul(r, b) == a
  {
    hide Mul; hide Inv;
    var i := Inverse(b);
    r := Mult(a, i);
    QuotTimes(a, b);
  }

  lemma QuotTimes(a: byte, b: byte)
    requires b != 0
    ensures Mul(Quot(a, b), b) == a
    ensures Quot(b, b) == 1
    ensures Quot(0, b) == 0
  {
    hide Mul; hide Inv;
    InverseInverts(b);
    MulAssociates(a, Inv(b), b);
    MulCommutes(b, Inv(b));
    MulOne(a);
    MulZero(Inv(b));
  }
}
