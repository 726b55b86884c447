/**
 Arithmetic in GF(2^8) = GF(2)[X] / (X^8 + X^4 + X^3 + X + 1), the field of section 4.2 of
 FIPS 197: the multiplication loop of shamir/shamir.go, and its meaning as a remainder of a
 polynomial product.

 Bit-level facts are confined to one-line lemmas. Everything above them hides the definitions
 they are about, so that the solver reasons over the operations and never over single bits.
 */
module GF256 {
  type byte = bv8

  // ---------- Addition ----------

  function Add(a: byte, b: byte): byte {
    a ^ b
  }

  lemma AddCommutes(a: byte, b: byte)
    ensures Add(a, b) == Add(b, a)
  {}

  lemma AddAssociates(a: byte, b: byte, c: byte)
    ensures Add(Add(a, b), c) == Add(a, Add(b, c))
  {}

  lemma AddZero(a: byte)
    ensures Add(a, 0) == a && Add(0, a) == a
  {}

  lemma AddSelf(a: byte)
    ensures Add(a, a) == 0
  {}

  /** Every element is its own negative, so a vanishing sum means equal summands. */
  lemma AddCancels(a: byte, b: byte)
    ensures Add(a, b) == 0 <==> a == b
    ensures Add(a, Add(a, b)) == b
  {}

  lemma AddExchange(p: byte, q: byte, r: byte, s: byte)
    ensures Add(Add(p, q), Add(r, s)) == Add(Add(p, r), Add(q, s))
  {
    hide Add;
    calc {
      Add(Add(p, q), Add(r, s));
      { AddAssociates(p, q, Add(r, s)); AddAssociates(q, r, s); AddCommutes(q, r); }
      Add(p, Add(Add(r, q), s));
      { AddAssociates(r, q, s); AddAssociates(p, r, Add(q, s)); }
      Add(Add(p, r), Add(q, s));
    }
  }

  // ---------- Multiplication ----------

  /** What reducing the bit shifted out of `a` adds back: X^8 is X^4 + X^3 + X + 1. */
  function Carry(a: byte): byte {
    if a & 0x80 != 0 then 0x1B else 0
  }

  function Shifted(a: byte): byte {
    a << 1
  }

  /** a * X in the field. */
  function XTimes(a: byte): byte {
    Add(Carry(a), Shifted(a))
  }

  /** `a` when bit `i` of `b` is set, and 0 otherwise. */
  function Masked(a: byte, b: byte, i: byte): byte
    requires i < 8
  {
    if (b >> i) & 1 == 1 then a else 0
  }

  /** The accumulator of the multiplication loop once bits 7, 6, .., i of `b` are processed. */
  function Acc(a: byte, b: byte, i: byte): byte
    requires i <= 8
    decreases 8 - i
  {
    if i == 8 then 0 else Add(Masked(a, b, i), XTimes(Acc(a, b, i + 1)))
  }

  function Mul(a: byte, b: byte): byte {
    Acc(a, b, 0)
  }

  lemma BitMask(a: byte, b: byte, i: byte)
    requires i < 8
    ensures (-((b >> i) & 1)) & a == Masked(a, b, i)
  {}

  lemma CarryMask(a: byte)
    ensures (-(a >> 7)) & 0x1B == Carry(a)
  {}

  lemma DoublingShifts(a: byte)
    ensures a + a == Shifted(a)
  {}

  lemma LoopStep(a: byte, b: byte, i: byte, acc: byte)
    requires i < 8 && acc == Acc(a, b, i + 1)
    ensures ((-((b >> i) & 1)) & a) ^ (((-(acc >> 7)) & 0x1B) ^ (acc + acc)) == Acc(a, b, i)
  {
    hide Masked; hide Carry; hide Shifted;
    BitMask(a, b, i);
    CarryMask(acc);
    DoublingShifts(acc);
  }

  method Mult(a: byte, b: byte) returns (accumulator: byte)
    ensures accumulator == Mul(a, b)
  {
    accumulator := 0;
    var i: byte := 8;
    while i > 0
      invariant i <= 8
      invariant accumulator == Acc(a, b, i)
      decreases i
    {
      i := i - 1;
      LoopStep(a, b, i, accumulator);
      hide Acc;
      var bitOfB := (b >> i) & 1;
      var aOrZero := (-bitOfB) & a;
      var zeroOr1B := (-(accumulator >> 7)) & 0x1B;
      var accumulatorMultipliedByX := zeroOr1B ^ (accumulator + accumulator);
      accumulator := aOrZero ^ accumulatorMultipliedByX;
    }
  }

  // ---------- The product is the remainder of the polynomial product ----------

  /** The multiples q * (X^8 + X^4 + X^3 + X + 1), for q of degree at most 7. */
  function ModulusTimes(q: bv16): bv16 {
    (q << 8) ^ (q << 4) ^ (q << 3) ^ (q << 1) ^ q
  }

  function RawStep(m: byte, raw: bv16): bv16 {
    (m as bv16) ^ (raw << 1)
  }

  /** Horner's rule for the plain product of two polynomials over GF(2), without reduction. */
  function RawAcc(a: byte, b: byte, i: byte): bv16
    requires i <= 8
    decreases 8 - i
  {
    if i == 8 then 0 else RawStep(Masked(a, b, i), RawAcc(a, b, i + 1))
  }

  /** `raw` is `q` times the modulus plus `acc`, where `q` has degree below 7 - i, so that the
      multiple of the modulus fits the 16 bits. */
  predicate DividesTo(raw: bv16, q: bv16, acc: byte, i: byte)
    requires i < 8
  {
    q <= 0x7F >> i && raw == ModulusTimes(q) ^ (acc as bv16)
  }

  function NextQuotient(q: bv16, acc: byte): bv16 {
    (q << 1) ^ (if acc & 0x80 != 0 then 1 else 0)
  }

  lemma QuotientGrows(q: bv16, acc: byte, i: byte)
    requires i < 7 && q <= 0x7F >> (i + 1)
    ensures q < 0x40 && NextQuotient(q, acc) <= 0x7F >> i
  {}

  lemma RemainderStep(raw: bv16, q: bv16, acc: byte, m: byte)
    requires q < 0x40 && raw == ModulusTimes(q) ^ (acc as bv16)
    ensures (m as bv16) ^ (raw << 1) == ModulusTimes(NextQuotient(q, acc)) ^ (Add(m, XTimes(acc)) as bv16)
  {}

  /** One round of the loop on both sides: the bit the field drops is one more quotient bit. */
  lemma DivisionStep(raw: bv16, q: bv16, acc: byte, m: byte, i: byte)
    requires i < 7 && DividesTo(raw, q, acc, i + 1)
    ensures DividesTo(RawStep(m, raw), NextQuotient(q, acc), Add(m, XTimes(acc)), i)
  {
    hide NextQuotient; hide Add; hide XTimes; hide ModulusTimes;
    QuotientGrows(q, acc, i);
    RemainderStep(raw, q, acc, m);
  }

  lemma FirstDivision(a: byte, b: byte)
    ensures DividesTo(RawAcc(a, b, 7), 0, Acc(a, b, 7), 7)
  {}

  lemma {:induction false} AccIsRemainder(a: byte, b: byte, i: byte) returns (q: bv16)
    requires i < 8
    ensures DividesTo(RawAcc(a, b, i), q, Acc(a, b, i), i)
    decreases 8 - i
  {
    if i == 7 {
      FirstDivision(a, b);
      q := 0;
    } else {
      hide DividesTo; hide RawStep; hide NextQuotient; hide Add; hide XTimes; hide Masked;
      q := AccIsRemainder(a, b, i + 1);
      DivisionStep(RawAcc(a, b, i + 1), q, Acc(a, b, i + 1), Masked(a, b, i), i);
      q := NextQuotient(q, Acc(a, b, i + 1));
    }
  }

  /** Mul is the product of `a` and `b` as polynomials, modulo X^8 + X^4 + X^3 + X + 1: it has
      degree below 8 by its type, and differs from the product by a multiple of the modulus. */
  lemma MulIsRemainder(a: byte, b: byte)
    ensures exists q :: DividesTo(RawAcc(a, b, 0), q, Mul(a, b), 0)
  {
    var q := AccIsRemainder(a, b, 0);
    hide DividesTo; hide RawAcc;
    assert DividesTo(RawAcc(a, b, 0), q, Mul(a, b), 0);
  }
}
