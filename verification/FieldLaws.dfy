/**
 The field laws of GF(2^8), derived from the multiplication loop of shamir/shamir.go: it is linear
 in the bits of both factors.
 */
module FieldLaws {
  import opened GF256

  lemma CarryAdds(a: byte, b: byte)
    ensures Carry(a ^ b) == Carry(a) ^ Carry(b)
  {}

  lemma ShiftedAdds(a: byte, b: byte)
    ensures Shifted(a ^ b) == Shifted(a) ^ Shifted(b)
  {}

  lemma XTimesAdds(a: byte, b: byte)
    ensures XTimes(Add(a, b)) == Add(XTimes(a), XTimes(b))
  {
    hide Carry; hide Shifted;
    CarryAdds(a, b);
    ShiftedAdds(a, b);
    AddExchange(Carry(a), Carry(b), Shifted(a), Shifted(b));
  }

  lemma XTimesZero()
    ensures XTimes(0) == 0
  {}

  lemma MaskedAddsLeft(a: byte, b: byte, c: byte, i: byte)
    requires i < 8
    ensures Masked(Add(a, b), c, i) == Add(Masked(a, c, i), Masked(b, c, i))
  {}

  lemma MaskedAddsRight(a: byte, b: byte, c: byte, i: byte)
    requires i < 8
    ensures Masked(a, Add(b, c), i) == Add(Masked(a, b, i), Masked(a, c, i))
  {}

  lemma MaskedXTimes(a: byte, b: byte, i: byte)
    requires i < 8
    ensures Masked(XTimes(a), b, i) == XTimes(Masked(a, b, i))
  {
    XTimesZero();
    hide XTimes;
  }

  lemma {:induction false} AccAddsLeft(a: byte, b: byte, c: byte, i: byte)
    requires i <= 8
    ensures Acc(Add(a, b), c, i) == Add(Acc(a, c, i), Acc(b, c, i))
    decreases 8 - i
  {
    AddZero(0);
    hide Add; hide XTimes; hide Masked;
    if i < 8 {
      AccAddsLeft(a, b, c, i + 1);
      MaskedAddsLeft(a, b, c, i);
      XTimesAdds(Acc(a, c, i + 1), Acc(b, c, i + 1));
      AddExchange(Masked(a, c, i), Masked(b, c, i), XTimes(Acc(a, c, i + 1)), XTimes(Acc(b, c, i + 1)));
    }
  }

  lemma {:induction false} AccAddsRight(a: byte, b: byte, c: byte, i: byte)
    requires i <= 8
    ensures Acc(a, Add(b, c), i) == Add(Acc(a, b, i), Acc(a, c, i))
    decreases 8 - i
  {
    AddZero(0);
    hide Add; hide XTimes; hide Masked;
    if i < 8 {
      AccAddsRight(a, b, c, i + 1);
      MaskedAddsRight(a, b, c, i);
      XTimesAdds(Acc(a, b, i + 1), Acc(a, c, i + 1));
      AddExchange(Masked(a, b, i), Masked(a, c, i), XTimes(Acc(a, b, i + 1)), XTimes(Acc(a, c, i + 1)));
    }
  }

  lemma {:induction false} AccXTimes(a: byte, b: byte, i: byte)
    requires i <= 8
    ensures Acc(XTimes(a), b, i) == XTimes(Acc(a, b, i))
    decreases 8 - i
  {
    XTimesZero();
    hide Add; hide XTimes; hide Masked;
    if i < 8 {
      AccXTimes(a, b, i + 1);
      MaskedXTimes(a, b, i);
      XTimesAdds(Masked(a, b, i), XTimes(Acc(a, b, i + 1)));
    }
  }

  lemma {:induction false} AccZero(b: byte, i: byte)
    requires i <= 8
    ensures Acc(0, b, i) == 0
    decreases 8 - i
  {
    AddZero(0);
    XTimesZero();
    hide Add; hide XTimes;
    if i < 8 {
      AccZero(b, i + 1);
    }
  }

  lemma HighBits(b: byte, i: byte)
    requires i < 8
    ensures Add(Masked(1, b, i), XTimes(b >> (i + 1))) == b >> i
  {}

  lemma {:induction false} AccOne(b: byte, i: byte)
    requires i <= 8
    ensures Acc(1, b, i) == b >> i
    decreases 8 - i
  {
    if i < 8 {
      AccOne(b, i + 1);
      HighBits(b, i);
      hide Add; hide XTimes; hide Masked;
    }
  }

  lemma MulOne(a: byte)
    ensures Mul(1, a) == a && Mul(a, 1) == a
  {
    AccOne(a, 0);
    MulCommutes(1, a);
    hide Acc;
  }

  lemma MulZero(a: byte)
    ensures Mul(0, a) == 0 && Mul(a, 0) == 0
  {
    AccZero(a, 0);
    MulCommutes(0, a);
  }

  /** Distributivity, on both sides. */
  lemma MulDistributes(a: byte, b: byte, c: byte)
    ensures Mul(Add(a, b), c) == Add(Mul(a, c), Mul(b, c))
    ensures Mul(c, Add(a, b)) == Add(Mul(c, a), Mul(c, b))
  {
    hide Add;
    AccAddsLeft(a, b, c, 0);
    AccAddsRight(c, a, b, 0);
  }

  lemma MulMasked(a: byte, b: byte, c: byte, i: byte)
    requires i < 8
    ensures Mul(Masked(a, b, i), c) == Masked(Mul(a, c), b, i)
  {
    AccZero(c, 0);
    hide Mul;
  }

  /** Multiplying by `c` is linear and commutes with X, so it passes through the accumulator. */
  lemma {:induction false} MulThroughAcc(a: byte, b: byte, c: byte, i: byte)
    requires i <= 8
    ensures Mul(Acc(a, b, i), c) == Acc(Mul(a, c), b, i)
    decreases 8 - i
  {
    if i == 8 {
      AccZero(c, 0);
    } else {
      MulThroughAcc(a, b, c, i + 1);
      MulDistributes(Masked(a, b, i), XTimes(Acc(a, b, i + 1)), c);
      AccXTimes(Acc(a, b, i + 1), c, 0);
      assert Mul(XTimes(Acc(a, b, i + 1)), c) == XTimes(Mul(Acc(a, b, i + 1), c));
      MulMasked(a, b, c, i);
      hide Add; hide XTimes; hide Masked; hide Mul;
    }
  }

  lemma MulCommutes(a: byte, b: byte)
    ensures Mul(a, b) == Mul(b, a)
  {
    AccOne(a, 0);
    AccOne(b, 0);
    MulThroughAcc(1, a, b, 0);
    assert Mul(Mul(1, a), b) == Mul(Mul(1, b), a);
    hide Acc;
  }

  lemma MulAssociates(a: byte, b: byte, c: byte)
    ensures Mul(Mul(a, b), c) == Mul(a, Mul(b, c))
  {
    MulThroughAcc(b, a, c, 0);
    assert Mul(Mul(b, a), c) == Mul(Mul(b, c), a);
    hide Mul;
    MulCommutes(a, b);
    MulCommutes(a, Mul(b, c));
  }
}
