/** Bytes as eight-bit vectors and back, one binary digit at a time. */
module BitVectors {
  import opened Bytes

  function Flag(c: bool, v: bv8): bv8 { if c then v else 0 }

  /** The bit-vector with the given bits, lowest first. */
  function Assemble(c0: bool, c1: bool, c2: bool, c3: bool, c4: bool, c5: bool, c6: bool, c7: bool): bv8 {
    Flag(c0, 0x01) | Flag(c1, 0x02) | Flag(c2, 0x04) | Flag(c3, 0x08)
    | Flag(c4, 0x10) | Flag(c5, 0x20) | Flag(c6, 0x40) | Flag(c7, 0x80)
  }

  lemma AssembledBits(c0: bool, c1: bool, c2: bool, c3: bool, c4: bool, c5: bool, c6: bool, c7: bool)
    ensures var v := Assemble(c0, c1, c2, c3, c4, c5, c6, c7);
      && (v & 0x01 != 0) == c0 && (v & 0x02 != 0) == c1 && (v & 0x04 != 0) == c2 && (v & 0x08 != 0) == c3
      && (v & 0x10 != 0) == c4 && (v & 0x20 != 0) == c5 && (v & 0x40 != 0) == c6 && (v & 0x80 != 0) == c7
  {
  }

  lemma Reassembled(v: bv8)
    ensures v == Assemble(v & 0x01 != 0, v & 0x02 != 0, v & 0x04 != 0, v & 0x08 != 0,
                          v & 0x10 != 0, v & 0x20 != 0, v & 0x40 != 0, v & 0x80 != 0)
  {
  }

  predicate Odd(b: nat) { b % 2 == 1 }

  /** The bit-vector of a byte, digit by digit. */
  function ToBits(b: byte): bv8 {
    var b1 := b / 2;
    var b2 := b1 / 2;
    var b3 := b2 / 2;
    var b4 := b3 / 2;
    var b5 := b4 / 2;
    var b6 := b5 / 2;
    var b7 := b6 / 2;
    Assemble(Odd(b), Odd(b1), Odd(b2), Odd(b3), Odd(b4), Odd(b5), Odd(b6), Odd(b7))
  }

  function One(c: bool): nat { if c then 1 else 0 }

  /** A binary digit in front of a number. */
  function Step(c: bool, r: nat): (b: nat)
    ensures b == One(c) + 2 * r && b <= 2 * r + 1
  {
    One(c) + 2 * r
  }

  function Value(c0: bool, c1: bool, c2: bool, c3: bool, c4: bool, c5: bool, c6: bool, c7: bool): byte {
    Step(c0, Step(c1, Step(c2, Step(c3, Step(c4, Step(c5, Step(c6, Step(c7, 0))))))))
  }

  /** The number a bit-vector stands for. */
  function ToNumber(v: bv8): byte {
    Value(v & 0x01 != 0, v & 0x02 != 0, v & 0x04 != 0, v & 0x08 != 0,
          v & 0x10 != 0, v & 0x20 != 0, v & 0x40 != 0, v & 0x80 != 0)
  }

  lemma ByteRoundTrip(b: byte)
    ensures ToNumber(ToBits(b)) == b
  {
    hide Odd, Assemble, Value;
    var b1 := b / 2;
    var b2 := b1 / 2;
    var b3 := b2 / 2;
    var b4 := b3 / 2;
    var b5 := b4 / 2;
    var b6 := b5 / 2;
    var b7 := b6 / 2;
    AssembledBits(Odd(b), Odd(b1), Odd(b2), Odd(b3), Odd(b4), Odd(b5), Odd(b6), Odd(b7));
    BinaryDigits(b, b1, b2, b3, b4, b5, b6, b7);
  }

  lemma BinaryDigits(b: nat, b1: nat, b2: nat, b3: nat, b4: nat, b5: nat, b6: nat, b7: nat)
    requires b < 0x100 && b1 == b / 2 && b2 == b1 / 2 && b3 == b2 / 2
    requires b4 == b3 / 2 && b5 == b4 / 2 && b6 == b5 / 2 && b7 == b6 / 2
    ensures Value(Odd(b), Odd(b1), Odd(b2), Odd(b3), Odd(b4), Odd(b5), Odd(b6), Odd(b7)) == b
  {
    hide Odd, Step;
    Halve(b); Halve(b1); Halve(b2); Halve(b3); Halve(b4); Halve(b5); Halve(b6); Halve(b7);
    assert b7 / 2 == 0;
  }

  lemma Halve(b: nat)
    ensures b == Step(Odd(b), b / 2)
  {
  }

  lemma Doubled(c: bool, r: nat)
    ensures Odd(Step(c, r)) == c && Step(c, r) / 2 == r
  {
  }

  lemma BitsRoundTrip(v: bv8)
    ensures ToBits(ToNumber(v)) == v
  {
    hide Assemble, Value;
    Reassembled(v);
    DigitsOfValue(v & 0x01 != 0, v & 0x02 != 0, v & 0x04 != 0, v & 0x08 != 0,
                  v & 0x10 != 0, v & 0x20 != 0, v & 0x40 != 0, v & 0x80 != 0);
  }

  lemma DigitsOfValue(c0: bool, c1: bool, c2: bool, c3: bool, c4: bool, c5: bool, c6: bool, c7: bool)
    ensures ToBits(Value(c0, c1, c2, c3, c4, c5, c6, c7)) == Assemble(c0, c1, c2, c3, c4, c5, c6, c7)
  {
    hide Odd, Step, Assemble;
    Doubled(c7, 0);
    var b7 := Step(c7, 0);
    Doubled(c6, b7);
    var b6 := Step(c6, b7);
    Doubled(c5, b6);
    var b5 := Step(c5, b6);
    Doubled(c4, b5);
    var b4 := Step(c4, b5);
    Doubled(c3, b4);
    var b3 := Step(c3, b4);
    Doubled(c2, b3);
    var b2 := Step(c2, b3);
    Doubled(c1, b2);
    var b1 := Step(c1, b2);
    Doubled(c0, b1);
    var b0 := Step(c0, b1);
  }

  /** The number is the one the bit-vector type itself stands for. */
  lemma NumberIs(v: bv8)
    ensures ToNumber(v) == v as int
  {
  }
}
